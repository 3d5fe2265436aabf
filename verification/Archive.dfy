/** Volume archives: packing a directory tree, unpacking a stream, restoring a volume. */
module Archive {
  import opened Common
  import opened Paths

  /** The most bytes one archived file may unpack to. */
  const MAX_BYTES: nat := 10 * 1024 * 1024 * 1024

  datatype Item = Dir | File(data: Bytes)

  type Disk = map<Path, Item>

  datatype Entry =
    | Directory(name: string)
    | Regular(name: string, data: Bytes)
    | Other(name: string)

  /** How a stream ends: with its end marker, with bytes that are no header, or
      inside the data of a last regular file, after `data`. */
  datatype Ending = Clean | Garbled | Cut(name: string, data: Bytes)

  datatype Stream = Stream(entries: seq<Entry>, ending: Ending)

  // ---- The disk ----

  function Parent(p: Path): Path
    requires p != []
  {
    p[..|p| - 1]
  }

  predicate IsDir(disk: Disk, p: Path) {
    p == [] || (p in disk && disk[p].Dir?)
  }

  /** Creates the missing directories down to a path, as far as files do not stand in the way. */
  function MkdirAll(disk: Disk, p: Path): Disk
    decreases |p|
  {
    if p == [] || p in disk then disk
    else
      var made := MkdirAll(disk, Parent(p));
      if IsDir(made, Parent(p)) then made[p := Dir] else made
  }

  predicate CanCreate(disk: Disk, p: Path) {
    p != [] && IsDir(disk, Parent(p)) && (p in disk ==> disk[p].File?)
  }

  function RemoveAll(disk: Disk, p: Path): Disk {
    map q | q in disk && !(p <= q) :: disk[q]
  }

  /** Whatever lies outside a directory is kept; at most its missing ancestors appear. */
  ghost predicate KeepsOutside(dst: Path, before: Disk, after: Disk) {
    forall p: Path {:trigger p in before} {:trigger p in after} | !(dst <= p) ::
      && (p in before ==> p in after && after[p] == before[p])
      && (p in after && p !in before ==> p <= dst && after[p].Dir?)
  }

  // ---- Unpacking ----

  function AfterSlash(s: string): string {
    if s == "" then "" else if s[0] == '/' then s[1..] else AfterSlash(s[1..])
  }

  /** The archived name without its first component. */
  function Relative(name: string): string {
    if '/' in name then AfterSlash(name) else name
  }

  /** Where an entry goes, unless it is skipped. */
  function Target(dst: Path, name: string): Option<Path> {
    var rel := Relative(name);
    if rel == "" then None
    else
      var target := Join(dst, rel);
      if Inside(dst, target) then Some(target) else None
  }

  datatype Outcome = Outcome(disk: Disk, count: nat, ok: bool)

  /** The disk after a regular file is written; it may prove impossible to open. */
  function Write(disk: Disk, dst: Path, name: string, data: Bytes): Outcome {
    match Target(dst, name)
    case None => Outcome(disk, 0, true)
    case Some(target) =>
      if target == [] then Outcome(disk, 0, true)
      else
        var made := MkdirAll(disk, Parent(target));
        if !CanCreate(made, target) then Outcome(made, 0, true)
        else if |data| < MAX_BYTES then Outcome(made[target := File(data)], 1, true)
        else Outcome(made[target := File(data[..MAX_BYTES])], 0, false)
  }

  function Extract(disk: Disk, dst: Path, e: Entry): Outcome {
    match e
    case Directory(name) =>
      var t := Target(dst, name);
      Outcome(if t.Some? then MkdirAll(disk, t.value) else disk, 0, true)
    case Regular(name, data) => Write(disk, dst, name, data)
    case Other(_) => Outcome(disk, 0, true)
  }

  /** Entries are unpacked in order, up to the first failure. */
  function Unpack(disk: Disk, dst: Path, entries: seq<Entry>): Outcome {
    if entries == [] then Outcome(disk, 0, true)
    else
      var n := |entries| - 1;
      var o := Unpack(disk, dst, entries[..n]);
      if !o.ok then o
      else
        var r := Extract(o.disk, dst, entries[n]);
        Outcome(r.disk, o.count + r.count, r.ok)
  }

  function UnpackStream(disk: Disk, dst: Path, s: Stream): Outcome {
    var o := Unpack(disk, dst, s.entries);
    if !o.ok || s.ending.Clean? then o
    else if s.ending.Garbled? then o.(ok := false)
    else Outcome(Write(o.disk, dst, s.ending.name, s.ending.data).disk, o.count, false)
  }

  /** Clears a volume and unpacks a stream into it. */
  function Restore(disk: Disk, dst: Path, s: Stream): Outcome {
    UnpackStream(MkdirAll(RemoveAll(disk, dst), dst), dst, s)
  }

  // ---- Every archive stays inside the destination ----

  ghost predicate Comparable(p: Path, q: Path) {
    p <= q || q <= p
  }

  lemma {:induction false} MkdirKeepsOutside(disk: Disk, dst: Path, p: Path)
    requires Comparable(p, dst)
    ensures KeepsOutside(dst, disk, MkdirAll(disk, p))
    decreases |p|
  {
    if p != [] && p !in disk {
      assert Parent(p) <= p;
      MkdirKeepsOutside(disk, dst, Parent(p));
    }
  }

  lemma WriteKeepsOutside(disk: Disk, dst: Path, name: string, data: Bytes)
    requires Normal(dst)
    ensures KeepsOutside(dst, disk, Write(disk, dst, name, data).disk)
  {
    var t := Target(dst, name);
    if t.Some? && t.value != [] {
      JoinIsNormal(dst, Relative(name));
      InsideIsContainment(dst, t.value);
      assert dst <= t.value && Parent(t.value) <= t.value;
      MkdirKeepsOutside(disk, dst, Parent(t.value));
    }
  }

  lemma ExtractKeepsOutside(disk: Disk, dst: Path, e: Entry)
    requires Normal(dst)
    ensures KeepsOutside(dst, disk, Extract(disk, dst, e).disk)
  {
    match e
    case Directory(name) =>
      var t := Target(dst, name);
      if t.Some? {
        JoinIsNormal(dst, Relative(name));
        InsideIsContainment(dst, t.value);
        MkdirKeepsOutside(disk, dst, t.value);
      }
    case Regular(name, data) => WriteKeepsOutside(disk, dst, name, data);
    case Other(_) =>
  }

  lemma KeepsOutsideTransitive(dst: Path, a: Disk, b: Disk, c: Disk)
    requires KeepsOutside(dst, a, b) && KeepsOutside(dst, b, c)
    ensures KeepsOutside(dst, a, c)
  {
  }

  lemma {:induction false} UnpackKeepsOutside(disk: Disk, dst: Path, entries: seq<Entry>)
    requires Normal(dst)
    ensures KeepsOutside(dst, disk, Unpack(disk, dst, entries).disk)
  {
    hide KeepsOutside, Extract;
    if entries == [] {
      assert KeepsOutside(dst, disk, disk) by { KeepsOutsideItself(dst, disk); }
    } else {
      var n := |entries| - 1;
      var o := Unpack(disk, dst, entries[..n]);
      UnpackKeepsOutside(disk, dst, entries[..n]);
      if o.ok {
        ExtractKeepsOutside(o.disk, dst, entries[n]);
        KeepsOutsideTransitive(dst, disk, o.disk, Extract(o.disk, dst, entries[n]).disk);
      }
    }
  }

  lemma KeepsOutsideItself(dst: Path, disk: Disk)
    ensures KeepsOutside(dst, disk, disk)
  {
  }

  /** Whatever an archive names, unpacking it changes nothing outside the
      destination beyond creating the destination's own missing ancestors. */
  lemma UnpackStaysInside(disk: Disk, dst: Path, s: Stream)
    requires Normal(dst)
    ensures KeepsOutside(dst, disk, UnpackStream(disk, dst, s).disk)
  {
    hide KeepsOutside, Unpack, Write;
    var o := Unpack(disk, dst, s.entries);
    UnpackKeepsOutside(disk, dst, s.entries);
    if o.ok && s.ending.Cut? {
      WriteKeepsOutside(o.disk, dst, s.ending.name, s.ending.data);
      KeepsOutsideTransitive(dst, disk, o.disk, Write(o.disk, dst, s.ending.name, s.ending.data).disk);
    }
  }

  lemma RestoreStaysInside(disk: Disk, dst: Path, s: Stream)
    requires Normal(dst)
    ensures KeepsOutside(dst, disk, Restore(disk, dst, s).disk)
  {
    var cleared := RemoveAll(disk, dst);
    var ready := MkdirAll(cleared, dst);
    assert KeepsOutside(dst, disk, cleared);
    MkdirKeepsOutside(cleared, dst, dst);
    KeepsOutsideTransitive(dst, disk, cleared, ready);
    UnpackStaysInside(ready, dst, s);
    KeepsOutsideTransitive(dst, disk, ready, Restore(disk, dst, s).disk);
  }

  /** Reads a stream entry by entry; stops at the first error. */
  method UntarGz(disk: Disk, dst: Path, s: Stream) returns (after: Disk, fileCount: nat, ok: bool)
    requires Normal(dst)
    ensures Outcome(after, fileCount, ok) == UnpackStream(disk, dst, s)
    ensures KeepsOutside(dst, disk, after)
  {
    hide KeepsOutside, Extract, Write;
    UnpackStaysInside(disk, dst, s);
    after, fileCount, ok := disk, 0, true;
    var i := 0;
    while i < |s.entries| && ok
      invariant 0 <= i <= |s.entries|
      invariant Outcome(after, fileCount, ok) == Unpack(disk, dst, s.entries[..i])
      decreases |s.entries| - i
    {
      assert s.entries[..i + 1][..i] == s.entries[..i];
      var r := Extract(after, dst, s.entries[i]);
      after, fileCount, ok := r.disk, fileCount + r.count, r.ok;
      i := i + 1;
    }
    if !ok {
      FailureLasts(disk, dst, s.entries, i);
    } else {
      assert s.entries[..i] == s.entries;
      match s.ending {
        case Clean =>
        case Garbled => ok := false;
        case Cut(name, data) =>
          var r := Write(after, dst, name, data);
          after, ok := r.disk, false;
      }
    }
  }

  // ---- And everything inside arrives ----

  ghost predicate NoFileAbove(disk: Disk, p: Path) {
    forall q: Path :: q <= p && q in disk ==> disk[q].Dir?
  }

  /** Directories can be created where no file is in the way, and nothing else appears. */
  lemma {:induction false} MkdirSucceeds(disk: Disk, p: Path)
    requires NoFileAbove(disk, p)
    ensures IsDir(MkdirAll(disk, p), p)
    ensures forall q: Path :: !(q <= p) && q !in disk ==> q !in MkdirAll(disk, p)
    ensures forall q: Path :: q in disk ==> q in MkdirAll(disk, p) && MkdirAll(disk, p)[q] == disk[q]
    decreases |p|
  {
    if p != [] {
      assert Parent(p) <= p;
      MkdirSucceeds(disk, Parent(p));
    }
  }

  /** Whatever its name looks like, a file that leads strictly below the destination
      arrives there, unless it is too long, a file stands where a directory is
      needed, or a directory where the file should be. */
  lemma EntryArrives(disk: Disk, dst: Path, name: string, data: Bytes)
    requires Normal(dst) && dst != [] && Relative(name) != "" && |data| < MAX_BYTES
    requires var t := Join(dst, Relative(name));
             dst < t && NoFileAbove(disk, Parent(t)) && (t in disk ==> disk[t].File?)
    ensures var t, o := Join(dst, Relative(name)), Write(disk, dst, name, data);
            && o.ok && o.count == 1 && t in o.disk && o.disk[t] == File(data)
            && forall q: Path :: q in disk && q != t ==> q in o.disk && o.disk[q] == disk[q]
  {
    var t := Join(dst, Relative(name));
    JoinIsNormal(dst, Relative(name));
    InsideIsContainment(dst, t);
    MkdirSucceeds(disk, Parent(t));
    assert !(t <= Parent(t));
  }

  /** Under the same conditions a file that is too long leaves its beginning and ends the restore. */
  lemma LongEntryEnds(disk: Disk, dst: Path, name: string, data: Bytes)
    requires Normal(dst) && dst != [] && Relative(name) != "" && |data| >= MAX_BYTES
    requires var t := Join(dst, Relative(name));
             dst < t && NoFileAbove(disk, Parent(t)) && (t in disk ==> disk[t].File?)
    ensures var t, o := Join(dst, Relative(name)), Write(disk, dst, name, data);
            !o.ok && o.count == 0 && t in o.disk && o.disk[t] == File(data[..MAX_BYTES])
  {
    var t := Join(dst, Relative(name));
    JoinIsNormal(dst, Relative(name));
    InsideIsContainment(dst, t);
    MkdirSucceeds(disk, Parent(t));
    assert !(t <= Parent(t));
  }

  /** What leads elsewhere, or has no name left, is skipped without a trace. */
  lemma OutsideIsSkipped(disk: Disk, dst: Path, e: Entry)
    requires Normal(dst) && dst != [] && (Relative(e.name) == "" || !(dst <= Join(dst, Relative(e.name))))
    ensures Extract(disk, dst, e) == Outcome(disk, 0, true)
  {
    JoinIsNormal(dst, Relative(e.name));
    InsideIsContainment(dst, Join(dst, Relative(e.name)));
  }

  /** A stream is restored in full exactly if no entry fails and it ends with its end
      marker; the count is that of the whole entries either way. */
  lemma StreamSucceedsIff(disk: Disk, dst: Path, s: Stream)
    ensures UnpackStream(disk, dst, s).ok <==> Unpack(disk, dst, s.entries).ok && s.ending.Clean?
    ensures UnpackStream(disk, dst, s).count == Unpack(disk, dst, s.entries).count
  {
  }

  /** The part of the name up to its first slash is dropped. */
  lemma {:induction false} RelativeDropsFirst(first: string, rest: string)
    requires SlashFree(first)
    ensures Relative(first + "/" + rest) == rest && Relative(first) == first
  {
    var name := first + "/" + rest;
    assert name[|first|] == '/';
    AfterFirst(first, rest);
  }

  lemma {:induction false} AfterFirst(first: string, rest: string)
    requires SlashFree(first)
    ensures AfterSlash(first + "/" + rest) == rest
  {
    var name := first + "/" + rest;
    if first == "" {
      assert name == "/" + rest;
    } else {
      assert first[0] in first;
      assert SlashFree(first[1..]);
      assert name[1..] == first[1..] + "/" + rest;
      AfterFirst(first[1..], rest);
    }
  }

  /** Restores a volume from its archive. All changes lie below the volumes root if
      the name is a plain one; `.` and `..` are followed where they lead. */
  method RestoreVolume(disk: Disk, volumesRoot: Path, volName: string, s: Stream)
    returns (after: Disk, fileCount: nat, ok: bool)
    requires Normal(volumesRoot)
    ensures Outcome(after, fileCount, ok) == Restore(disk, Join(volumesRoot, volName), s)
    ensures KeepsOutside(Join(volumesRoot, volName), disk, after)
    ensures SlashFree(volName) ==> (volumesRoot < Join(volumesRoot, volName) <==> Plain(volName))
    ensures Plain(volName) ==> Join(volumesRoot, volName) == volumesRoot + [volName]
  {
    hide KeepsOutside;
    var volPath := Join(volumesRoot, volName);
    JoinIsNormal(volumesRoot, volName);
    if SlashFree(volName) { NameLeadsBelowIff(volumesRoot, volName); }
    RestoreStaysInside(disk, volPath, s);
    after := MkdirAll(RemoveAll(disk, volPath), volPath);
    after, fileCount, ok := UntarGz(after, volPath, s);
  }

  lemma {:induction false} FailureLasts(disk: Disk, dst: Path, entries: seq<Entry>, k: nat)
    requires k <= |entries| && !Unpack(disk, dst, entries[..k]).ok
    ensures Unpack(disk, dst, entries) == Unpack(disk, dst, entries[..k])
  {
    var n := |entries|;
    if k == n {
      assert entries[..k] == entries;
    } else {
      assert entries[..n - 1][..k] == entries[..k];
      FailureLasts(disk, dst, entries[..n - 1], k);
    }
  }
}
