/**
 Size-based log rotation. Renames cascade from the oldest file to the current
 log; the file pushed past the end is removed by a task that may run at any
 later time, even after further rotations. Opening, renaming and removing files
 do not fail; a write may accept only part of its argument.
 */
module RollFile {
  import opened Common

  datatype Name = Current | Numbered(i: int)

  type Directory = map<Name, Bytes>

  /** The file at distance `i` from the current log. */
  function Slot(i: int): Name {
    if i == 0 then Current else Numbered(i)
  }

  function Content(d: Directory, i: int): Bytes {
    if Slot(i) in d then d[Slot(i)] else []
  }

  // ---- The rename cascade ----

  function MoveUp(d: Directory, i: int): Directory {
    if Slot(i - 1) in d then d[Slot(i) := d[Slot(i - 1)]] - {Slot(i - 1)} else d
  }

  /** Moves every file up by one, from file `n - 1` down to the current log. */
  function Cascade(d: Directory, n: int): Directory
    decreases n
  {
    if n < 1 then d else Cascade(MoveUp(d, n), n - 1)
  }

  /** Whatever files are missing, each of the first `n - 1` numbered files ends up
      with the content of the one before it, and nothing beyond `n` is touched. */
  lemma {:induction false} CascadeShifts(d: Directory, n: int)
    requires n >= 1
    ensures var c := Cascade(d, n);
            && Current !in c
            && (forall i :: 1 <= i < n ==> Content(c, i) == Content(d, i - 1))
            && (Slot(n - 1) in d ==> Content(c, n) == Content(d, n - 1))
            && (Slot(n - 1) !in d ==> Content(c, n) == Content(d, n))
            && (forall i :: i > n ==> Content(c, i) == Content(d, i))
    decreases n
  {
    var e := MoveUp(d, n);
    assert Slot(n - 1) !in e;
    assert forall i :: i != n && i != n - 1 ==> Content(e, i) == Content(d, i);
    if n > 1 {
      CascadeShifts(e, n - 1);
    }
  }

  // ---- What is kept ----

  /** Files `k` down to 1, then the current log. */
  function Tail(d: Directory, k: nat): Bytes {
    if k == 0 then Content(d, 0) else Content(d, k) + Tail(d, k - 1)
  }

  function Kept(num: int): nat {
    if num >= 1 then num - 1 else 0
  }

  /** The bytes a reader finds when reading the kept files from old to new. */
  function Retained(d: Directory, num: int): Bytes {
    Tail(d, Kept(num))
  }

  lemma {:induction false} TailDependsOnContent(d: Directory, e: Directory, k: nat)
    requires forall i :: 0 <= i <= k ==> Content(d, i) == Content(e, i)
    ensures Tail(d, k) == Tail(e, k)
  {
    if k > 0 { TailDependsOnContent(d, e, k - 1); }
  }

  /** After a cascade, the tail is what it was, without its oldest file, moved up by one. */
  lemma {:induction false} TailAfterCascade(d: Directory, e: Directory, k: nat)
    requires Content(e, 0) == [] && forall i :: 1 <= i <= k ==> Content(e, i) == Content(d, i - 1)
    ensures Content(d, k) + Tail(e, k) == Tail(d, k)
  {
    if k > 0 {
      TailAfterCascade(d, e, k - 1);
    }
  }

  lemma {:induction false} TailAppend(d: Directory, k: nat, v: Bytes)
    ensures Tail(d[Current := Content(d, 0) + v], k) == Tail(d, k) + v
  {
    var e := d[Current := Content(d, 0) + v];
    if k > 0 {
      TailAppend(d, k - 1, v);
      assert Content(e, k) == Content(d, k);
      ConcatAssociative(Content(d, k), Tail(d, k - 1), v);
    }
  }

  // ---- The writer as a state machine ----

  /** `written` is everything found at the start or accepted since, and `lost`
      what the rotations have pushed past the kept files. */
  datatype Roll = Roll(files: Directory, currSize: int, removals: nat, rotations: nat, written: Bytes, lost: Bytes)

  datatype Event = Write(accepted: Bytes) | Remove

  function Opened(d: Directory): Directory {
    if Current in d then d else d[Current := []]
  }

  function Rotate(r: Roll, num: int): Roll {
    r.(files := Opened(Cascade(r.files, num)), currSize := 0, removals := r.removals + 1, rotations := r.rotations + 1,
       lost := r.lost + if num >= 1 then Content(r.files, num - 1) else [])
  }

  function Grown(r: Roll, v: Bytes): Roll {
    r.(files := r.files[Current := Content(r.files, 0) + v], currSize := r.currSize + |v|, written := r.written + v)
  }

  function Step(r: Roll, num: int, size: int, e: Event): Roll {
    match e
    case Write(v) => if Grown(r, v).currSize >= size then Rotate(Grown(r, v), num) else Grown(r, v)
    case Remove => if r.removals == 0 then r else r.(files := r.files - {Numbered(num)}, removals := r.removals - 1)
  }

  function Start(files: Directory, num: int): Roll {
    Roll(files, |Content(files, 0)|, 0, 0, Retained(files, num), [])
  }

  function Run(files: Directory, num: int, size: int, events: seq<Event>): Roll {
    if events == [] then Start(files, num)
    else Step(Run(files, num, size, events[..|events| - 1]), num, size, events[|events| - 1])
  }

  // ---- Nothing but the oldest is ever lost ----

  /** What one step does to each kept file. */
  lemma StepContents(r: Roll, num: int, size: int, e: Event)
    requires num >= 1
    ensures var r' := Step(r, num, size, e);
            && (r'.rotations == r.rotations ==>
                  && (forall i :: 1 <= i < num ==> Content(r'.files, i) == Content(r.files, i))
                  && (e.Remove? ==> Content(r'.files, 0) == Content(r.files, 0)))
            && (r'.rotations != r.rotations ==>
                  && r'.rotations == r.rotations + 1 && Content(r'.files, 0) == []
                  && (forall i :: 2 <= i < num ==> Content(r'.files, i) == Content(r.files, i - 1))
                  && (num > 1 ==> Content(r'.files, 1) == Content(r.files, 0) + e.accepted))
  {
    var r' := Step(r, num, size, e);
    if e.Write? {
      var g := Grown(r, e.accepted);
      forall i | 1 <= i < num ensures Content(g.files, i) == Content(r.files, i) {}
      RotateContents(g, num);
    } else {
      forall i | 0 <= i < num ensures Content(r.files - {Numbered(num)}, i) == Content(r.files, i) {}
    }
  }

  lemma RotateContents(r: Roll, num: int)
    requires num >= 1
    ensures Content(Rotate(r, num).files, 0) == []
    ensures forall i :: 1 <= i < num ==> Content(Rotate(r, num).files, i) == Content(r.files, i - 1)
  {
    CascadeShifts(r.files, num);
    var c := Cascade(r.files, num);
    forall i | 1 <= i < num ensures Content(Opened(c), i) == Content(r.files, i - 1) {
      assert Content(Opened(c), i) == Content(c, i);
    }
  }

  lemma StepKeepsSuffix(r: Roll, num: int, size: int, e: Event)
    requires r.lost + Retained(r.files, num) == r.written
    ensures var r' := Step(r, num, size, e);
            r'.lost + Retained(r'.files, num) == r'.written
  {
    match e
    case Write(v) =>
      var g := Grown(r, v);
      TailAppend(r.files, Kept(num), v);
      ConcatAssociative(r.lost, Retained(r.files, num), v);
      if g.currSize >= size {
        RotateKeepsSuffix(g, num);
      }
    case Remove =>
      TailDependsOnContent(r.files, r.files - {Numbered(num)}, Kept(num));
  }

  lemma RotateKeepsSuffix(r: Roll, num: int)
    requires r.lost + Retained(r.files, num) == r.written
    ensures Rotate(r, num).lost + Retained(Rotate(r, num).files, num) == r.written
  {
    var e := Rotate(r, num).files;
    if num >= 1 {
      RotateContents(r, num);
      TailAfterCascade(r.files, e, num - 1);
      ConcatAssociative(r.lost, Content(r.files, num - 1), Tail(e, num - 1));
    } else {
      TailDependsOnContent(r.files, e, 0);
    }
  }

  /** Whenever the removals run, the kept files always read as the end of all
      that was written: a reader sees no gap and nothing out of order. */
  lemma {:induction false} RetainedIsSuffix(files: Directory, num: int, size: int, events: seq<Event>)
    ensures var r := Run(files, num, size, events);
            r.lost + Retained(r.files, num) == r.written
  {
    if events != [] {
      RetainedIsSuffix(files, num, size, events[..|events| - 1]);
      StepKeepsSuffix(Run(files, num, size, events[..|events| - 1]), num, size, events[|events| - 1]);
    }
  }

  /** The size counter is the length of the current log, and each file pushed out
      of the current position has at least the rotation size. */
  ghost predicate Filled(r: Roll, num: int, size: int) {
    && r.currSize == |Content(r.files, 0)|
    && forall i :: 1 <= i <= r.rotations && i < num ==> |Content(r.files, i)| >= size
  }

  lemma {:induction false} RunIsFilled(files: Directory, num: int, size: int, events: seq<Event>)
    requires num >= 1
    ensures Filled(Run(files, num, size, events), num, size)
  {
    if events != [] {
      var r, e := Run(files, num, size, events[..|events| - 1]), events[|events| - 1];
      RunIsFilled(files, num, size, events[..|events| - 1]);
      StepContents(r, num, size, e);
    }
  }

  /** A write rotates exactly if it fills the current log up to the rotation size, so
      that after every write the log is shorter than that; each rotation starts one removal. */
  lemma WriteRotatesIff(files: Directory, num: int, size: int, events: seq<Event>, v: Bytes)
    requires num >= 1
    ensures var r, r' := Run(files, num, size, events), Run(files, num, size, events + [Write(v)]);
            var rotates := |Content(r.files, 0)| + |v| >= size;
            && r'.rotations == r.rotations + (if rotates then 1 else 0)
            && r'.removals == r.removals + (if rotates then 1 else 0)
            && Content(r'.files, 0) == (if rotates then [] else Content(r.files, 0) + v)
            && (size > 0 ==> |Content(r'.files, 0)| < size)
  {
    var r := Run(files, num, size, events);
    assert (events + [Write(v)])[..|events|] == events;
    RunIsFilled(files, num, size, events);
    StepContents(r, num, size, Write(v));
  }

  /** A removal that runs leaves no file `num`, and touches no other. */
  lemma RemovalRemoves(files: Directory, num: int, size: int, events: seq<Event>)
    requires Run(files, num, size, events).removals > 0
    ensures var r, r' := Run(files, num, size, events), Run(files, num, size, events + [Remove]);
            && Numbered(num) !in r'.files && r'.removals == r.removals - 1
            && forall n :: n != Numbered(num) ==> (n in r'.files <==> n in r.files) && (n in r.files ==> r'.files[n] == r.files[n])
  {
    assert (events + [Remove])[..|events|] == events;
  }

  lemma {:induction false} TailIsLong(d: Directory, k: nat, size: int)
    requires forall i :: 1 <= i <= k ==> |Content(d, i)| >= size
    ensures |Tail(d, k)| >= k * size
  {
    if k > 0 {
      TailIsLong(d, k - 1, size);
      assert k * size == (k - 1) * size + size;
    }
  }

  /** After `num - 1` rotations, at least the newest `(num - 1) * size` bytes are kept. */
  lemma NewestBytesAreKept(files: Directory, num: int, size: int, events: seq<Event>)
    requires num >= 1 && Run(files, num, size, events).rotations >= num - 1
    ensures |Retained(Run(files, num, size, events).files, num)| >= (num - 1) * size
  {
    RunIsFilled(files, num, size, events);
    TailIsLong(Run(files, num, size, events).files, num - 1, size);
  }

  /** Starting from an empty directory, nothing is lost in the first `num - 1` rotations. */
  lemma {:induction false} NothingLostAtFirst(num: int, size: int, events: seq<Event>)
    requires num >= 1
    ensures var r := Run(map[], num, size, events);
            && (forall i :: r.rotations < i < num ==> Content(r.files, i) == [])
            && (r.rotations <= num - 1 ==> r.lost == [] && Retained(r.files, num) == r.written)
  {
    RetainedIsSuffix(map[], num, size, events);
    if events != [] {
      var r, e := Run(map[], num, size, events[..|events| - 1]), events[|events| - 1];
      NothingLostAtFirst(num, size, events[..|events| - 1]);
      StepContents(r, num, size, e);
    }
  }

  // ---- The writer ----

  const REOPEN_AFTER := 10

  class RollFileWriter {
    const num: int
    const size: int
    var currSize: int
    var isOpen: bool
    var openTime: int
    var files: Directory
    var removals: nat        // removal tasks started but not yet run
    ghost var rotations: nat
    ghost var written: Bytes
    ghost var lost: Bytes

    ghost predicate Valid()
      reads this
    {
      isOpen ==> Current in files
    }

    ghost function Model(): Roll
      reads this
    {
      Roll(files, currSize, removals, rotations, written, lost)
    }

    /** Takes over the files it finds, counting the size of the current log. */
    constructor (num: int, sizeMB: int, files: Directory)
      ensures Valid() && this.num == num && size == sizeMB * 1024 * 1024
      ensures Model() == Start(files, num)
    {
      this.num, size := num, sizeMB * 1024 * 1024;
      this.files := files;
      currSize := if Current in files then |files[Current]| else 0;
      isOpen, openTime, removals := false, 0, 0;
      rotations, written, lost := 0, Retained(files, num), [];
    }

    method Reopen(now: int)
      modifies this`files, this`isOpen, this`openTime
      ensures isOpen && openTime == now && files == Opened(old(files))
    {
      openTime := now;
      if Current !in files {
        files := files[Current := []];
      }
      isOpen := true;
    }

    /** `n` is how much of `v` the file system accepts. */
    method Write(v: Bytes, n: nat, now: int) returns (r: nat)
      requires Valid() && n <= |v|
      modifies this
      ensures Valid() && r == n
      ensures Model() == Step(old(Model()), num, size, Event.Write(v[..n]))
    {
      Append(v[..n], now);
      if currSize >= size {
        RotateFiles(now);
      }
      r := n;
    }

    /** The current log is reopened by name from time to time. */
    method Append(v: Bytes, now: int)
      requires Valid()
      modifies this
      ensures Valid() && Model() == Grown(old(Model()), v)
    {
      if !isOpen || openTime + REOPEN_AFTER < now {
        Reopen(now);
      }
      files := files[Current := files[Current] + v];
      currSize := currSize + |v|;
      written := written + v;
      assert files == old(files)[Current := Content(old(files), 0) + v];
    }

    method RotateFiles(now: int)
      modifies this
      ensures Valid() && Model() == Rotate(old(Model()), num)
    {
      currSize := 0;
      lost := lost + if num >= 1 then Content(files, num - 1) else [];
      RenameAll();
      removals, rotations := removals + 1, rotations + 1;
      Reopen(now);
    }

    method RenameAll()
      modifies this`files
      ensures files == Cascade(old(files), num)
    {
      var i := num;
      while i >= 1
        invariant i <= num && Cascade(files, i) == Cascade(old(files), num)
        decreases i
      {
        var p1, p2 := if i > 1 then Numbered(i - 1) else Current, Numbered(i);
        if p1 in files {
          files := files[p2 := files[p1]] - {p1};
        }
        i := i - 1;
      }
    }

    /** One of the removal tasks runs. */
    method RunRemoval()
      requires Valid() && removals > 0
      modifies this`files, this`removals
      ensures Valid() && Model() == Step(old(Model()), num, size, Remove)
    {
      files := files - {Numbered(num)};
      removals := removals - 1;
    }
  }
}
