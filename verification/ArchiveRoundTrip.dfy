/** Packing a directory tree, and what a restore makes of the resulting stream. */
module ArchiveRoundTrip {
  import opened Common
  import opened Paths
  import opened Archive

  datatype Node = Folder | Document(data: Bytes) | Special

  /** What walking a directory reports, below (or, for [], at) its root. */
  datatype Visit = Visit(rel: Path, node: Node)

  predicate IsRoot(v: Visit) {
    v.node.Folder? && v.rel == []
  }

  /** The walk of a tree: clean names, and nothing at or below a file but the file itself. */
  ghost predicate Tidy(walk: seq<Visit>) {
    && (forall i | 0 <= i < |walk| :: Normal(walk[i].rel) && (walk[i].rel == [] ==> IsRoot(walk[i])))
    && (forall i, j | 0 <= i < |walk| && 0 <= j < |walk| && walk[i].node.Document? && walk[i].rel <= walk[j].rel :: i == j)
  }

  /** The regular files of a walk, by path. */
  function FilesOf(walk: seq<Visit>): map<Path, Bytes> {
    if walk == [] then map[]
    else
      var n := |walk| - 1;
      var files := FilesOf(walk[..n]);
      if walk[n].node.Document? then files[walk[n].rel := walk[n].node.data] else files
  }

  /** A file that comes back: short enough, and read at all when packed. Packing
      reads data only when the tree's root is its own canonical path. */
  predicate Fits(v: Visit, canonical: bool) {
    v.node.Document? ==> |v.node.data| < MAX_BYTES && (canonical || v.node.data == [])
  }

  ghost predicate AllFit(walk: seq<Visit>, canonical: bool) {
    forall i | 0 <= i < |walk| :: Fits(walk[i], canonical)
  }

  function MemberName(prefix: string, rel: Path): string {
    prefix + Slashed(rel)
  }

  function EntryOf(prefix: string, v: Visit): Entry {
    var name := MemberName(prefix, v.rel);
    match v.node
    case Folder => Directory(name)
    case Document(data) => Regular(name, data)
    case Special => Other(name)
  }

  /** A file whose header is written but whose data is not blocks all later headers. */
  function Stored(walk: seq<Visit>, prefix: string, canonical: bool): Stream {
    if walk == [] then Stream([], Clean)
    else
      var n := |walk| - 1;
      var s := Stored(walk[..n], prefix, canonical);
      if !s.ending.Clean? || IsRoot(walk[n]) then s
      else if walk[n].node.Document? && !canonical && walk[n].node.data != [] then
        s.(ending := Cut(MemberName(prefix, walk[n].rel), []))
      else s.(entries := s.entries + [EntryOf(prefix, walk[n])])
  }

  /** Packs the visits one by one; `owed` is the data a header has promised in vain. */
  method TarGzDirectory(walk: seq<Visit>, prefix: string, canonical: bool) returns (s: Stream, fileCount: nat)
    requires Tidy(walk)
    ensures s == Stored(walk, prefix, canonical)
    ensures fileCount == if canonical then |FilesOf(walk)| else 0
  {
    var owed: Option<string> := None;
    s, fileCount := Stream([], Clean), 0;
    for i := 0 to |walk|
      invariant owed.None? <==> s.ending.Clean?
      invariant s == Stored(walk[..i], prefix, canonical)
      invariant canonical ==> s.ending.Clean?
      invariant fileCount == if canonical then |FilesOf(walk[..i])| else 0
    {
      var v := walk[i];
      assert walk[..i + 1][..i] == walk[..i];
      NewFile(walk, i);
      if !IsRoot(v) && owed.None? {
        if v.node.Document? && !canonical && v.node.data != [] {
          owed := Some(MemberName(prefix, v.rel));
          s := s.(ending := Cut(owed.value, []));
        } else {
          s := s.(entries := s.entries + [EntryOf(prefix, v)]);
        }
        if v.node.Document? && canonical {
          fileCount := fileCount + 1;
        }
      }
    }
    assert walk[..|walk|] == walk;
  }

  // ---- The files of a walk ----

  lemma {:induction false} FileWasVisited(walk: seq<Visit>, k: nat, rel: Path)
    requires k <= |walk| && rel in FilesOf(walk[..k])
    ensures exists i :: 0 <= i < k && walk[i] == Visit(rel, Document(FilesOf(walk[..k])[rel]))
  {
    assert k > 0;
    var w := walk[..k];
    assert w[..k - 1] == walk[..k - 1] && w[k - 1] == walk[k - 1];
    if walk[k - 1].node.Document? && walk[k - 1].rel == rel {
      assert walk[k - 1] == Visit(rel, Document(FilesOf(w)[rel]));
    } else {
      FileWasVisited(walk, k - 1, rel);
    }
  }

  lemma NewFile(walk: seq<Visit>, k: nat)
    requires Tidy(walk) && k < |walk|
    ensures walk[k].node.Document? ==> walk[k].rel !in FilesOf(walk[..k])
  {
    if walk[k].node.Document? && walk[k].rel in FilesOf(walk[..k]) {
      FileWasVisited(walk, k, walk[k].rel);
      assert false;
    }
  }

  // ---- Names come back ----

  lemma {:induction false} AfterPrefix(prefix: string, rest: string)
    requires SlashFree(prefix) && rest != "" && rest[0] == '/'
    ensures AfterSlash(prefix + rest) == rest[1..]
  {
    var s := prefix + rest;
    if prefix == "" {
      assert s == rest;
    } else {
      assert prefix[0] in prefix;
      assert s[1..] == prefix[1..] + rest;
      assert SlashFree(prefix[1..]);
      AfterPrefix(prefix[1..], rest);
    }
  }

  /** An archived path leads back to the same place below any destination. */
  lemma MemberTarget(dst: Path, prefix: string, rel: Path)
    requires Normal(dst) && dst != [] && SlashFree(prefix) && Normal(rel) && rel != []
    ensures Target(dst, MemberName(prefix, rel)) == Some(dst + rel)
  {
    var rest := Slashed(rel);
    assert Plain(rel[0]) by { assert rel[0] in rel; }
    assert rest[0] == '/' && |rest| > 1;
    assert MemberName(prefix, rel)[|prefix|] == '/';
    assert '/' in MemberName(prefix, rel);
    AfterPrefix(prefix, rest);
    JoinOfRelative(dst, rel);
    InsideIsContainment(dst, dst + rel);
    assert dst <= dst + rel;
  }

  // ---- One visit at a time ----

  /** Below `dst` lie exactly these files. */
  ghost predicate HoldsExactly(disk: Disk, dst: Path, files: map<Path, Bytes>) {
    forall rel: Path {:trigger dst + rel} {:trigger rel in files} ::
      && (rel in files ==> dst + rel in disk && disk[dst + rel] == File(files[rel]))
      && (dst + rel in disk && disk[dst + rel].File? ==> rel in files)
  }

  /** No file of the walk is at or above this path. */
  ghost predicate Free(walk: seq<Visit>, rel: Path) {
    forall i | 0 <= i < |walk| && walk[i].node.Document? :: !(walk[i].rel <= rel)
  }

  ghost predicate DirsAreFree(disk: Disk, dst: Path, walk: seq<Visit>) {
    forall rel: Path {:trigger dst + rel} | dst + rel in disk && disk[dst + rel].Dir? :: Free(walk, rel)
  }

  /** The disk after the first `k` visits have been restored. */
  ghost predicate Restored(disk: Disk, dst: Path, walk: seq<Visit>, k: nat)
    requires k <= |walk|
  {
    && IsDir(disk, dst)
    && HoldsExactly(disk, dst, FilesOf(walk[..k]))
    && DirsAreFree(disk, dst, walk)
  }

  lemma SamePlace(dst: Path, a: Path, b: Path)
    requires dst + a == dst + b
    ensures a == b
  {
    assert (dst + a)[|dst|..] == a && (dst + b)[|dst|..] == b;
  }

  lemma AddDir(disk: Disk, dst: Path, walk: seq<Visit>, k: nat, q: Path)
    requires k <= |walk| && Restored(disk, dst, walk, k) && Free(walk, q) && q !in FilesOf(walk[..k])
    ensures Restored(disk[dst + q := Dir], dst, walk, k)
  {
    var made := disk[dst + q := Dir];
    forall rel: Path
      ensures dst + rel in made && dst + rel == dst + q ==> rel == q
    {
      if dst + rel == dst + q { SamePlace(dst, rel, q); }
    }
  }

  lemma FreeIsNoFile(walk: seq<Visit>, k: nat, q: Path)
    requires k <= |walk| && Free(walk, q)
    ensures q !in FilesOf(walk[..k])
  {
    if q in FilesOf(walk[..k]) {
      FileWasVisited(walk, k, q);
      assert false;
    }
  }

  /** Directories free of files can always be created. */
  lemma {:induction false} MkdirRestores(disk: Disk, dst: Path, walk: seq<Visit>, k: nat, q: Path)
    requires k <= |walk| && dst != [] && Restored(disk, dst, walk, k) && Free(walk, q)
    ensures Restored(MkdirAll(disk, dst + q), dst, walk, k)
    ensures IsDir(MkdirAll(disk, dst + q), dst + q)
    decreases |q|
  {
    FreeIsNoFile(walk, k, q);
    if q == [] {
      assert dst + q == dst;
    } else if dst + q !in disk {
      var up := Parent(q);
      assert Parent(dst + q) == dst + up;
      assert Free(walk, up) by { assert up <= q; }
      MkdirRestores(disk, dst, walk, k, up);
      AddDir(MkdirAll(disk, dst + up), dst, walk, k, q);
    }
  }

  lemma AddFile(disk: Disk, dst: Path, walk: seq<Visit>, k: nat)
    requires k < |walk| && Restored(disk, dst, walk, k) && walk[k].node.Document?
    requires walk[k].rel != []
    ensures Restored(disk[dst + walk[k].rel := File(walk[k].node.data)], dst, walk, k + 1)
  {
    var rel := walk[k].rel;
    assert walk[..k + 1][..k] == walk[..k];
    forall other: Path
      ensures dst + other == dst + rel ==> other == rel
    {
      if dst + other == dst + rel { SamePlace(dst, other, rel); }
    }
    assert dst != dst + rel by { assert |dst + rel| > |dst|; }
  }

  /** A file of the walk is written unless it is too long. */
  lemma FileStep(disk: Disk, dst: Path, walk: seq<Visit>, k: nat, prefix: string)
    requires Normal(dst) && dst != [] && SlashFree(prefix) && Tidy(walk)
    requires k < |walk| && Restored(disk, dst, walk, k) && walk[k].node.Document?
    ensures var o := Extract(disk, dst, EntryOf(prefix, walk[k]));
            && (o.ok <==> |walk[k].node.data| < MAX_BYTES)
            && (o.ok ==> o.count == 1 && Restored(o.disk, dst, walk, k + 1))
            && (o.ok ==> walk[k].rel != [] && o.disk == MkdirAll(disk, dst + Parent(walk[k].rel))[dst + walk[k].rel := File(walk[k].node.data)])
  {
    hide Restored, Target, Tidy;
    var rel, data := walk[k].rel, walk[k].node.data;
    assert rel != [] && Normal(rel) by { TidyAt(walk, k); }
    MemberTarget(dst, prefix, rel);
    var up := Parent(rel);
    assert Parent(dst + rel) == dst + up;
    FreeAbove(walk, k);
    MkdirRestores(disk, dst, walk, k, up);
    var made := MkdirAll(disk, dst + up);
    NoDirAtFile(made, dst, walk, k);
    assert CanCreate(made, dst + rel);
    AddFile(made, dst, walk, k);
  }

  lemma TidyAt(walk: seq<Visit>, k: nat)
    requires Tidy(walk) && k < |walk|
    ensures Normal(walk[k].rel) && (walk[k].rel == [] ==> IsRoot(walk[k]))
  {
  }

  lemma FreeAbove(walk: seq<Visit>, k: nat)
    requires Tidy(walk) && k < |walk| && walk[k].node.Document? && walk[k].rel != []
    ensures Free(walk, Parent(walk[k].rel))
  {
    var up := Parent(walk[k].rel);
    forall i | 0 <= i < |walk| && walk[i].node.Document?
      ensures !(walk[i].rel <= up)
    {
      var w, rel := walk[i].rel, walk[k].rel;
      assert w <= up ==> w <= rel;
    }
  }

  lemma NoDirAtFile(disk: Disk, dst: Path, walk: seq<Visit>, k: nat)
    requires k < |walk| && Restored(disk, dst, walk, k) && walk[k].node.Document?
    ensures var p := dst + walk[k].rel; p in disk ==> disk[p].File?
  {
    assert walk[k].rel <= walk[k].rel;
  }

  lemma OtherStep(disk: Disk, dst: Path, walk: seq<Visit>, k: nat, prefix: string)
    requires Normal(dst) && dst != [] && SlashFree(prefix) && Tidy(walk)
    requires k < |walk| && Restored(disk, dst, walk, k) && !walk[k].node.Document? && !IsRoot(walk[k])
    ensures var o := Extract(disk, dst, EntryOf(prefix, walk[k]));
            && o.ok && o.count == 0 && Restored(o.disk, dst, walk, k + 1)
            && o.disk == if walk[k].node.Folder? then MkdirAll(disk, dst + walk[k].rel) else disk
  {
    SkipStep(disk, dst, walk, k);
    if walk[k].node.Folder? {
      var rel := walk[k].rel;
      MemberTarget(dst, prefix, rel);
      assert Free(walk, rel);
      MkdirRestores(disk, dst, walk, k, rel);
      SkipStep(MkdirAll(disk, dst + rel), dst, walk, k);
    }
  }

  lemma SkipStep(disk: Disk, dst: Path, walk: seq<Visit>, k: nat)
    requires k < |walk| && !walk[k].node.Document? && Restored(disk, dst, walk, k)
    ensures Restored(disk, dst, walk, k + 1) && FilesOf(walk[..k + 1]) == FilesOf(walk[..k])
  {
    assert walk[..k + 1][..k] == walk[..k];
  }

  // ---- Directories ----

  ghost predicate DirAt(disk: Disk, p: Path) {
    p in disk && disk[p].Dir?
  }

  /** The first `k` visits call for this directory: the root, a folder visited, or
      one above a folder or file visited. */
  ghost predicate Implied(walk: seq<Visit>, k: nat, rel: Path)
    requires k <= |walk|
  {
    rel == [] || exists i :: 0 <= i < k && Needs(walk[i], rel)
  }

  ghost predicate Needs(v: Visit, rel: Path) {
    (v.node.Folder? && rel <= v.rel) || (v.node.Document? && rel < v.rel)
  }

  /** Below `dst` lie exactly the directories that the visits call for. */
  ghost predicate HoldsFolders(disk: Disk, dst: Path, walk: seq<Visit>, k: nat)
    requires k <= |walk|
  {
    forall rel: Path {:trigger dst + rel} :: DirAt(disk, dst + rel) <==> Implied(walk, k, rel)
  }

  lemma ImpliedAbove(walk: seq<Visit>, k: nat, p: Path, q: Path)
    requires k <= |walk| && Implied(walk, k, q) && p <= q
    ensures Implied(walk, k, p)
  {
    if p != [] {
      var i :| 0 <= i < k && Needs(walk[i], q);
      assert Needs(walk[i], p);
    }
  }

  lemma ImpliedNext(walk: seq<Visit>, k: nat, rel: Path)
    requires k < |walk|
    ensures Implied(walk, k + 1, rel) <==> Implied(walk, k, rel) || Needs(walk[k], rel)
  {
    if rel != [] && Implied(walk, k + 1, rel) {
      var i :| 0 <= i < k + 1 && Needs(walk[i], rel);
    }
  }

  /** Creating a directory creates exactly what is missing above it. */
  lemma {:induction false} MkdirFolders(disk: Disk, dst: Path, walk: seq<Visit>, k: nat, q: Path, rel: Path)
    requires k <= |walk| && dst != [] && Restored(disk, dst, walk, k) && HoldsFolders(disk, dst, walk, k) && Free(walk, q)
    ensures DirAt(MkdirAll(disk, dst + q), dst + rel) <==> DirAt(disk, dst + rel) || rel <= q
    decreases |q|
  {
    hide Implied;
    FreeIsNoFile(walk, k, q);
    if q == [] {
      assert dst + q == dst;
    } else if dst + q in disk {
      assert DirAt(disk, dst + q);
      if rel <= q { ImpliedAbove(walk, k, rel, q); }
    } else {
      var up := Parent(q);
      assert Parent(dst + q) == dst + up;
      assert Free(walk, up) by { assert up <= q; }
      MkdirFolders(disk, dst, walk, k, up, rel);
      MkdirRestores(disk, dst, walk, k, up);
      if dst + rel == dst + q { SamePlace(dst, rel, q); }
      assert rel <= q <==> rel <= up || rel == q;
    }
  }

  lemma VisitKeepsFolders(disk: Disk, dst: Path, walk: seq<Visit>, k: nat, prefix: string)
    requires Normal(dst) && dst != [] && SlashFree(prefix) && Tidy(walk) && k < |walk| && !IsRoot(walk[k])
    requires Restored(disk, dst, walk, k) && HoldsFolders(disk, dst, walk, k)
    ensures var o := Extract(disk, dst, EntryOf(prefix, walk[k])); o.ok ==> HoldsFolders(o.disk, dst, walk, k + 1)
  {
    hide Extract, Restored, Implied, Tidy, EntryOf, MkdirAll;
    var o := Extract(disk, dst, EntryOf(prefix, walk[k]));
    var rel := walk[k].rel;
    if walk[k].node.Document? {
      FileStep(disk, dst, walk, k, prefix);
    } else {
      OtherStep(disk, dst, walk, k, prefix);
    }
    if o.ok {
      forall p: Path ensures DirAt(o.disk, dst + p) <==> Implied(walk, k + 1, p) {
        ImpliedNext(walk, k, p);
        if walk[k].node.Document? {
          FileFolders(disk, dst, walk, k, p);
        } else if walk[k].node.Folder? {
          FreeAtFolder(walk, k);
          MkdirFolders(disk, dst, walk, k, rel, p);
        }
      }
    }
  }

  lemma FreeAtFolder(walk: seq<Visit>, k: nat)
    requires Tidy(walk) && k < |walk| && walk[k].node.Folder?
    ensures Free(walk, walk[k].rel)
  {
  }

  lemma FileFolders(disk: Disk, dst: Path, walk: seq<Visit>, k: nat, p: Path)
    requires dst != [] && Tidy(walk) && k < |walk| && walk[k].node.Document? && walk[k].rel != []
    requires Restored(disk, dst, walk, k) && HoldsFolders(disk, dst, walk, k)
    ensures var rel := walk[k].rel;
            var after := MkdirAll(disk, dst + Parent(rel))[dst + rel := File(walk[k].node.data)];
            DirAt(after, dst + p) <==> DirAt(disk, dst + p) || p < rel
  {
    hide Restored, Tidy, Implied;
    var rel := walk[k].rel;
    var up := Parent(rel);
    FreeAbove(walk, k);
    MkdirFolders(disk, dst, walk, k, up, p);
    MkdirRestores(disk, dst, walk, k, up);
    NoDirAtFile(MkdirAll(disk, dst + up), dst, walk, k);
    NoDirAtFile(disk, dst, walk, k);
    if dst + p == dst + rel { SamePlace(dst, p, rel); }
    assert p < rel <==> p <= up;
  }

  // ---- Whole walks ----

  ghost predicate Rebuilt(disk: Disk, dst: Path, walk: seq<Visit>, k: nat)
    requires k <= |walk|
  {
    Restored(disk, dst, walk, k) && HoldsFolders(disk, dst, walk, k)
  }

  /** Unpacking the stored stream of the first `k` visits restores exactly those,
      or fails exactly when one of them does not fit. */
  lemma {:induction false} UnpackStored(disk: Disk, dst: Path, walk: seq<Visit>, k: nat, prefix: string, canonical: bool)
    requires Normal(dst) && dst != [] && SlashFree(prefix) && Tidy(walk)
    requires k <= |walk| && Rebuilt(disk, dst, walk, 0)
    ensures var s := Stored(walk[..k], prefix, canonical);
            var o := UnpackStream(disk, dst, s);
            && (o.ok <==> AllFit(walk[..k], canonical))
            && (o.ok ==> s.ending.Clean? && Rebuilt(o.disk, dst, walk, k) && o.count == |FilesOf(walk[..k])|)
  {
    hide Rebuilt, Tidy, Extract, FilesOf, EntryOf, Stored, Unpack, Write;
    if k == 0 {
      assert walk[..0] == [];
      NothingStored(disk, dst, prefix, canonical);
    } else {
      var n := k - 1;
      StoredStep(walk, n, prefix, canonical);
      UnpackStored(disk, dst, walk, n, prefix, canonical);
      assert AllFit(walk[..k], canonical) <==> AllFit(walk[..n], canonical) && Fits(walk[n], canonical) by {
        assert walk[..k] == walk[..n] + [walk[n]];
      }
      var entries := Stored(walk[..n], prefix, canonical).entries;
      var o := Unpack(disk, dst, entries);
      UnpackAppend(disk, dst, entries, EntryOf(prefix, walk[n]));
      if AllFit(walk[..n], canonical) {
        NextVisit(o.disk, dst, walk, n, prefix);
      }
    }
  }

  lemma NothingStored(disk: Disk, dst: Path, prefix: string, canonical: bool)
    ensures FilesOf([]) == map[] && Stored([], prefix, canonical) == Stream([], Clean)
    ensures Unpack(disk, dst, []) == Outcome(disk, 0, true)
  {
  }

  lemma StoredStep(walk: seq<Visit>, k: nat, prefix: string, canonical: bool)
    requires k < |walk|
    ensures var s, v := Stored(walk[..k], prefix, canonical), walk[k];
            Stored(walk[..k + 1], prefix, canonical) ==
            if !s.ending.Clean? || IsRoot(v) then s
            else if !canonical && !Fits(v, canonical) then
              s.(ending := Cut(MemberName(prefix, v.rel), []))
            else s.(entries := s.entries + [EntryOf(prefix, v)])
  {
    assert walk[..k + 1][..k] == walk[..k];
  }

  lemma UnpackAppend(disk: Disk, dst: Path, entries: seq<Entry>, e: Entry)
    ensures var o := Unpack(disk, dst, entries);
            var r := Extract(o.disk, dst, e);
            Unpack(disk, dst, entries + [e]) ==
            if o.ok then Outcome(r.disk, o.count + r.count, r.ok) else o
  {
    assert (entries + [e])[..|entries|] == entries;
  }

  lemma NextVisit(disk: Disk, dst: Path, walk: seq<Visit>, k: nat, prefix: string)
    requires Normal(dst) && dst != [] && SlashFree(prefix) && Tidy(walk)
    requires k < |walk| && Rebuilt(disk, dst, walk, k)
    ensures IsRoot(walk[k]) ==> Rebuilt(disk, dst, walk, k + 1) && |FilesOf(walk[..k + 1])| == |FilesOf(walk[..k])|
    ensures !IsRoot(walk[k]) ==>
              var o := Extract(disk, dst, EntryOf(prefix, walk[k]));
              && (o.ok <==> Fits(walk[k], true))
              && (o.ok ==> Rebuilt(o.disk, dst, walk, k + 1) && |FilesOf(walk[..k + 1])| == |FilesOf(walk[..k])| + o.count)
  {
    hide Restored, HoldsFolders, Extract, Tidy, EntryOf;
    if walk[k].node.Document? {
      FileStep(disk, dst, walk, k, prefix);
      NewFile(walk, k);
      assert walk[..k + 1][..k] == walk[..k];
      VisitKeepsFolders(disk, dst, walk, k, prefix);
    } else {
      SkipStep(disk, dst, walk, k);
      if !IsRoot(walk[k]) {
        OtherStep(disk, dst, walk, k, prefix);
        VisitKeepsFolders(disk, dst, walk, k, prefix);
      } else {
        RootKeepsFolders(disk, dst, walk, k);
      }
    }
  }

  lemma RootKeepsFolders(disk: Disk, dst: Path, walk: seq<Visit>, k: nat)
    requires k < |walk| && IsRoot(walk[k]) && HoldsFolders(disk, dst, walk, k)
    ensures HoldsFolders(disk, dst, walk, k + 1)
  {
    hide Implied;
    forall p: Path ensures DirAt(disk, dst + p) <==> Implied(walk, k + 1, p) {
      ImpliedNext(walk, k, p);
      if Needs(walk[k], p) { assert Implied(walk, k, p) by { RootIsImplied(walk, k); } }
    }
  }

  lemma RootIsImplied(walk: seq<Visit>, k: nat)
    requires k <= |walk|
    ensures Implied(walk, k, [])
  {
  }

  /** A cleared volume is ready for its first visit. */
  lemma ClearedIsReady(disk: Disk, root: Path, name: string, walk: seq<Visit>)
    requires IsDir(disk, root) && Tidy(walk)
    ensures Rebuilt(MkdirAll(RemoveAll(disk, root + [name]), root + [name]), root + [name], walk, 0)
  {
    var dst := root + [name];
    var cleared := RemoveAll(disk, dst);
    assert Parent(dst) == root;
    assert !(dst <= root);
    assert dst !in cleared;
    assert MkdirAll(cleared, root) == cleared;
    var ready := MkdirAll(cleared, dst);
    assert ready == cleared[dst := Dir];
    forall rel: Path | dst + rel in ready
      ensures rel == []
    {
      assert dst <= dst + rel;
    }
    forall rel: Path | dst + rel in ready && ready[dst + rel].Dir?
      ensures Free(walk, rel)
    {
      assert rel == [];
    }
    assert FilesOf(walk[..0]) == map[];
    forall rel: Path ensures DirAt(ready, dst + rel) <==> Implied(walk, 0, rel) {
      assert rel == [] ==> dst + rel == dst;
    }
  }

  /** Packing a volume and restoring the archive succeeds exactly when every
      regular file fits, and then the volume holds exactly the files and directories
      that were packed, the files are counted, and nothing outside the volume has changed. */
  lemma RestoreUndoesBackup(disk: Disk, root: Path, name: string, walk: seq<Visit>, canonical: bool)
    requires Normal(root) && Plain(name) && IsDir(disk, root) && Tidy(walk)
    ensures Join(root, name) == root + [name]
    ensures var o := Restore(disk, root + [name], Stored(walk, name, canonical));
            && (o.ok <==> AllFit(walk, canonical))
            && (o.ok ==> HoldsExactly(o.disk, root + [name], FilesOf(walk)) && o.count == |FilesOf(walk)|)
            && (o.ok ==> HoldsFolders(o.disk, root + [name], walk, |walk|))
            && KeepsOutside(root + [name], disk, o.disk)
  {
    var dst := root + [name];
    assert Join(root, name) == dst by {
      assert Slashed([name])[1..] == name;
      JoinOfRelative(root, [name]);
    }
    ClearedIsReady(disk, root, name, walk);
    assert walk[..|walk|] == walk;
    UnpackStored(MkdirAll(RemoveAll(disk, dst), dst), dst, walk, |walk|, name, canonical);
    RestoreStaysInside(disk, dst, Stored(walk, name, canonical));
  }

  /** A file of exactly the limit is packed in full, and its restore is refused. */
  lemma FileAtTheLimit(disk: Disk, root: Path, name: string, file: string)
    requires Normal(root) && Plain(name) && Plain(file) && IsDir(disk, root)
    ensures var data: Bytes := seq(MAX_BYTES, _ => 0);
            var s := Stored([Visit([file], Document(data))], name, true);
            && s == Stream([Regular(MemberName(name, [file]), data)], Clean)
            && !Restore(disk, root + [name], s).ok
  {
    hide Restore, KeepsOutside, HoldsExactly, HoldsFolders, FilesOf, Join, IsDir;
    var data: Bytes := seq(MAX_BYTES, _ => 0);
    var walk := [Visit([file], Document(data))];
    assert walk[..0] == [];
    assert Stored(walk[..0], name, true) == Stream([], Clean);
    RestoreUndoesBackup(disk, root, name, walk, true);
    assert !Fits(walk[0], true);
  }
}
