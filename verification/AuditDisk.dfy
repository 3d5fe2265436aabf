/**
 The audit log on a disk that may fail.

 An entry and its newline are written by two calls whose errors are ignored, and
 the chain moves on whatever reached the file. Text between two newlines that is
 not exactly one whole entry, such as a cut entry or two entries on a line, is
 malformed.
 */
module AuditDisk {
  import opened Common
  import opened AuditChain

  /** How much of an entry reached the file. */
  datatype Amount = Nothing | Part | All

  /** A call of the logger, and what became of its two writes. */
  datatype Call = Call(entry: Entry, amount: Amount, newline: bool)

  /** The physical lines of the file: the finished ones, and the one still open. */
  datatype Tape = Tape(lines: seq<Line>, open: Line)

  const EMPTY := Tape([], Blank)

  function Lines(t: Tape): seq<Line> {
    t.lines + [t.open]
  }

  function Extend(open: Line, e: Entry, amount: Amount): Line {
    match amount
    case Nothing => open
    case Part => Malformed
    case All => if open.Blank? then Parsed(RereadEntry(e)) else Malformed
  }

  function Append(t: Tape, e: Entry, amount: Amount, newline: bool): Tape {
    var open := Extend(t.open, e, amount);
    if newline then Tape(t.lines + [open], Blank) else Tape(t.lines, open)
  }

  function Given(calls: seq<Call>): seq<Entry> {
    seq(|calls|, i requires 0 <= i < |calls| => calls[i].entry)
  }

  /** The hash the logger holds after these calls. */
  ghost function Head(h: Text -> Text, calls: seq<Call>): Text {
    PrevOf(Session(h, Given(calls)))
  }

  /** The file after a session has appended to it. */
  ghost function Recorded(h: Text -> Text, start: Tape, calls: seq<Call>): Tape {
    if calls == [] then start
    else
      var n := |calls| - 1;
      var c := calls[n];
      Append(Recorded(h, start, calls[..n]), Sealed(h, Head(h, calls[..n]), c.entry), c.amount, c.newline)
  }

  class AuditLogger {
    const h: Text -> Text
    const hasFile: bool
    var prevHash: Text
    var file: Tape
    ghost const start: Tape
    ghost var logged: seq<Call>

    ghost predicate Valid()
      reads this
    {
      prevHash == Head(h, logged) && file == Recorded(h, start, logged)
    }

    /** A session starts from the empty hash, at the end of whatever the file holds. */
    constructor (h: Text -> Text, hasFile: bool, file: Tape)
      ensures Valid() && this.h == h && this.hasFile == hasFile && start == this.file == file && logged == []
    {
      this.h, this.hasFile, this.start := h, hasFile, file;
      this.file, prevHash, logged := file, [], [];
    }

    method Log(entry: Entry, amount: Amount, newline: bool)
      requires Valid()
      modifies this
      ensures Valid() && logged == if hasFile then old(logged) + [Call(entry, amount, newline)] else old(logged)
    {
      if !hasFile {
        return;
      }
      HeadAppend(h, logged, Call(entry, amount, newline));
      var e := entry.(prevHash := prevHash);
      e := e.(hash := h(Payload(e)));
      file := Append(file, e, amount, newline);
      prevHash := e.hash;
      logged := logged + [Call(entry, amount, newline)];
      assert logged[..|logged| - 1] == old(logged);
    }
  }

  lemma HeadAppend(h: Text -> Text, calls: seq<Call>, c: Call)
    ensures Head(h, calls + [c]) == Sealed(h, Head(h, calls), c.entry).hash
  {
    var es := Given(calls + [c]);
    assert es[..|es| - 1] == Given(calls);
  }

  // ---- Sessions are told apart by their hashes ----

  /** No bar in any text before the reason. */
  ghost predicate SeparableText(e: Entry) {
    Separable(e.(prevHash := []))
  }

  ghost predicate AllSeparable(es: seq<Entry>) {
    forall e :: e in es ==> SeparableText(e)
  }

  lemma SealedIsSeparable(h: Text -> Text, prev: Text, e: Entry)
    requires BarFree(prev) && SeparableText(e)
    ensures Separable(Sealed(h, prev, e))
  {
  }

  lemma {:induction false} HeadIsBarFree(h: Text -> Text, es: seq<Entry>)
    requires GoodHash(h)
    ensures BarFree(PrevOf(Session(h, es))) && (es != [] ==> PrevOf(Session(h, es)) != [])
  {
    if es != [] {
      var n := |es| - 1;
      assert PrevOf(Session(h, es)) == Sealed(h, PrevOf(Session(h, es[..n])), es[n]).hash;
    }
  }

  lemma {:induction false} SameHeadSameSession(h: Text -> Text, es: seq<Entry>, fs: seq<Entry>)
    requires GoodHash(h) && AllSeparable(es) && AllSeparable(fs)
    requires PrevOf(Session(h, es)) == PrevOf(Session(h, fs))
    ensures Session(h, es) == Session(h, fs) && |es| == |fs|
  {
    hide Payload, BarFree, Clean, SeparableText, Sealed;
    HeadIsBarFree(h, es);
    HeadIsBarFree(h, fs);
    if es != [] {
      var n, m := |es| - 1, |fs| - 1;
      var p, q := PrevOf(Session(h, es[..n])), PrevOf(Session(h, fs[..m]));
      HeadIsBarFree(h, es[..n]);
      HeadIsBarFree(h, fs[..m]);
      SealedIsInjective(h, p, es[n], q, fs[m]);
      SameHeadSameSession(h, es[..n], fs[..m]);
    }
  }

  lemma SealedIsInjective(h: Text -> Text, p: Text, e: Entry, q: Text, f: Entry)
    requires GoodHash(h) && BarFree(p) && BarFree(q) && SeparableText(e) && SeparableText(f)
    requires Sealed(h, p, e).hash == Sealed(h, q, f).hash
    ensures p == q && Sealed(h, p, e) == Sealed(h, q, f)
  {
    hide Payload, BarFree, SeparableText;
    SealedIsSeparable(h, p, e);
    SealedIsSeparable(h, q, f);
    SealedHash(h, p, e);
    SealedHash(h, q, f);
    PayloadIsInjective(Sealed(h, p, e), Sealed(h, q, f));
  }

  lemma SealedHash(h: Text -> Text, p: Text, e: Entry)
    ensures Sealed(h, p, e).hash == h(Payload(Sealed(h, p, e))) && Sealed(h, p, e).prevHash == p
  {
  }

  // ---- What one call does to the verdict ----

  ghost predicate Verifies(h: Text -> Text, t: Tape) {
    Acceptable(h, Lines(t))
  }

  /** The hash the next entry has to name. */
  ghost function Expected(t: Tape): Text {
    PrevOf(Entries(Lines(t)))
  }

  lemma FreshLineCosts(h: Text -> Text, t: Tape)
    ensures Acceptable(h, t.lines + [t.open, Blank]) <==> Verifies(h, t)
    ensures Entries(t.lines + [t.open, Blank]) == Entries(Lines(t))
    ensures t.open.Blank? ==> (Acceptable(h, t.lines) <==> Verifies(h, t)) && Entries(t.lines) == Entries(Lines(t))
  {
    hide Acceptable, Entries;
    AcceptableAppend(h, t.lines, t.open);
    AcceptableAppend(h, Lines(t), Blank);
    assert Lines(t) + [Blank] == t.lines + [t.open, Blank];
  }

  lemma NewlineIsHarmless(h: Text -> Text, t: Tape, e: Entry, amount: Amount, newline: bool)
    ensures var s := Tape(t.lines, Extend(t.open, e, amount));
            && (Verifies(h, Append(t, e, amount, newline)) <==> Verifies(h, s))
            && Expected(Append(t, e, amount, newline)) == Expected(s)
  {
    hide Acceptable, Entries;
    var s := Tape(t.lines, Extend(t.open, e, amount));
    FreshLineCosts(h, s);
    assert newline ==> Lines(Append(t, e, amount, newline)) == s.lines + [s.open, Blank];
  }

  lemma AppendVerdict(h: Text -> Text, t: Tape, e: Entry, amount: Amount, newline: bool)
    ensures var t', read := Append(t, e, amount, newline), RereadEntry(e);
            match amount
            case Nothing => (Verifies(h, t') <==> Verifies(h, t)) && Expected(t') == Expected(t)
            case Part => !Verifies(h, t')
            case All =>
              && (Verifies(h, t') <==>
                    Verifies(h, t) && t.open.Blank? && read.prevHash == Expected(t) && read.hash == h(Payload(read)))
              && (Verifies(h, t') ==> Expected(t') == read.hash)
  {
    hide Acceptable, Entries, Payload, RereadEntry;
    NewlineIsHarmless(h, t, e, amount, newline);
    FreshLineCosts(h, t);
    AcceptableAppend(h, t.lines, t.open);
    AcceptableAppend(h, t.lines, Extend(t.open, e, amount));
  }

  // ---- Which sessions verify ----

  /** The calls from `a` to `b` reached the file, clean and each on its own line, and
      of the others nothing did. */
  ghost predicate Block(calls: seq<Call>, a: nat, b: nat) {
    && a <= b <= |calls|
    && forall i | 0 <= i < |calls| ::
         if a <= i < b then calls[i].amount.All? && CleanEntry(calls[i].entry) && (i + 1 < b ==> calls[i].newline)
         else calls[i].amount.Nothing?
  }

  ghost predicate FreshLine(start: Tape, calls: seq<Call>, a: nat)
    requires a <= |calls|
  {
    start.open.Blank? || exists i :: 0 <= i < a && calls[i].newline
  }

  /** The block, if not empty, links to what the file held. */
  ghost predicate Fits(h: Text -> Text, start: Tape, calls: seq<Call>, a: nat, b: nat) {
    Block(calls, a, b) && (a < b ==> FreshLine(start, calls, a) && Head(h, calls[..a]) == Expected(start))
  }

  ghost predicate FitsSomewhere(h: Text -> Text, start: Tape, calls: seq<Call>) {
    exists a: nat, b: nat :: Fits(h, start, calls, a, b)
  }

  /** A call of which nothing is kept changes no block. */
  lemma FitsGrows(h: Text -> Text, start: Tape, calls: seq<Call>, c: Call, a: nat, b: nat)
    requires c.amount.Nothing? && Fits(h, start, calls, a, b)
    ensures Fits(h, start, calls + [c], a, b)
  {
    hide Head, Expected;
    var more := calls + [c];
    assert more[..a] == calls[..a];
    assert forall i :: 0 <= i < |calls| ==> more[i] == calls[i];
  }

  lemma FitsShrinks(h: Text -> Text, start: Tape, calls: seq<Call>, c: Call, a: nat, b: nat)
    requires c.amount.Nothing? && Fits(h, start, calls + [c], a, b)
    ensures if a < b then b <= |calls| && Fits(h, start, calls, a, b) else Fits(h, start, calls, 0, 0)
  {
    hide Head, Expected;
    var more := calls + [c];
    assert more[|calls|] == c;
    assert forall i :: 0 <= i < |calls| ==> more[i] == calls[i];
    assert a < b ==> more[..a] == calls[..a];
  }

  /** A kept call ends its block: it begins it after nothing, or prolongs it. */
  lemma FitsEndsHere(h: Text -> Text, start: Tape, calls: seq<Call>, c: Call, a: nat, b: nat)
    requires c.amount.All? && Fits(h, start, calls + [c], a, b)
    ensures b == |calls| + 1 && a <= |calls| && CleanEntry(c.entry)
    ensures if a == |calls| then Block(calls, 0, 0) && FreshLine(start, calls, a) && Head(h, calls) == Expected(start)
            else Fits(h, start, calls, a, |calls|) && calls[|calls| - 1].amount.All? && calls[|calls| - 1].newline
  {
    hide Head, Expected, CleanEntry;
    var more := calls + [c];
    assert more[|calls|] == c;
    assert forall i :: 0 <= i < |calls| ==> more[i] == calls[i];
    assert more[..a] == calls[..a];
    if a == |calls| { assert calls[..a] == calls; }
  }

  lemma FitsProlonged(h: Text -> Text, start: Tape, calls: seq<Call>, c: Call, a: nat)
    requires c.amount.All? && CleanEntry(c.entry) && a < |calls|
    requires Fits(h, start, calls, a, |calls|) && calls[|calls| - 1].newline
    ensures Fits(h, start, calls + [c], a, |calls| + 1)
  {
    hide Head, Expected, CleanEntry;
    var more := calls + [c];
    assert more[|calls|] == c;
    assert forall i :: 0 <= i < |calls| ==> more[i] == calls[i];
    assert more[..a] == calls[..a];
  }

  lemma FitsBegun(h: Text -> Text, start: Tape, calls: seq<Call>, c: Call)
    requires c.amount.All? && CleanEntry(c.entry)
    requires Block(calls, 0, 0) && FreshLine(start, calls, |calls|) && Head(h, calls) == Expected(start)
    ensures Fits(h, start, calls + [c], |calls|, |calls| + 1)
  {
    hide Head, Expected, CleanEntry;
    var more := calls + [c];
    assert more[|calls|] == c;
    assert forall i :: 0 <= i < |calls| ==> more[i] == calls[i];
    assert more[..|calls|] == calls;
  }

  /** Whatever is kept, what a block leaves to be named next is its last hash. */
  ghost predicate Leaves(h: Text -> Text, start: Tape, calls: seq<Call>) {
    forall a: nat, b: nat :: Fits(h, start, calls, a, b) ==>
      Expected(Recorded(h, start, calls)) == if a < b then Head(h, calls[..b]) else Expected(start)
  }

  /** While nothing reaches the file, its open line is fresh once a newline has. */
  lemma {:induction false} OpenAfterNothing(h: Text -> Text, start: Tape, calls: seq<Call>)
    requires Block(calls, 0, 0)
    ensures Recorded(h, start, calls).open.Blank? <==> FreshLine(start, calls, |calls|)
  {
    hide Head, Sealed;
    if calls != [] {
      var n := |calls| - 1;
      OpenAfterNothing(h, start, calls[..n]);
      assert calls[n].amount.Nothing?;
      if FreshLine(start, calls, n + 1) && !start.open.Blank? && !calls[n].newline {
        var i :| 0 <= i < n + 1 && calls[i].newline;
        assert calls[..n][i].newline;
      }
    }
  }

  lemma OpenAfterAll(h: Text -> Text, start: Tape, calls: seq<Call>)
    requires calls != [] && calls[|calls| - 1].amount.All?
    ensures Recorded(h, start, calls).open.Blank? <==> calls[|calls| - 1].newline
  {
  }

  lemma GivenPrefix(calls: seq<Call>, i: nat)
    requires i <= |calls|
    ensures Given(calls)[..i] == Given(calls[..i])
  {
  }

  /** Two different moments of a session have different hashes. */
  lemma HeadsDiffer(h: Text -> Text, calls: seq<Call>, i: nat, j: nat)
    requires GoodHash(h) && AllSeparable(Given(calls)) && i <= |calls| && j <= |calls|
    requires Head(h, calls[..i]) == Head(h, calls[..j])
    ensures i == j
  {
    GivenPrefix(calls, i);
    GivenPrefix(calls, j);
    SameHeadSameSession(h, Given(calls[..i]), Given(calls[..j]));
  }

  lemma HeadIsClean(h: Text -> Text, calls: seq<Call>)
    requires GoodHash(h)
    ensures Clean(Head(h, calls))
  {
    var es := Given(calls);
    if es != [] { assert Head(h, calls) == Sealed(h, PrevOf(Session(h, es[..|es| - 1])), es[|es| - 1]).hash; }
  }

  /** The part of the theorem that an entry kept in full adds. */
  lemma KeptCall(h: Text -> Text, start: Tape, calls: seq<Call>, c: Call)
    requires GoodHash(h) && AllSeparable(Given(calls)) && c.amount.All?
    requires Verifies(h, Recorded(h, start, calls)) <==> Verifies(h, start) && FitsSomewhere(h, start, calls)
    requires Verifies(h, Recorded(h, start, calls)) ==> Leaves(h, start, calls)
    ensures var t := Recorded(h, start, calls);
            Verifies(h, t) && t.open.Blank? && Head(h, calls) == Expected(t) && CleanEntry(c.entry)
            <==> Verifies(h, start) && FitsSomewhere(h, start, calls + [c])
  {
    hide Head, Expected, Recorded, Verifies, CleanEntry, AllSeparable, Block, FreshLine;
    var n := |calls|;
    assert calls[..n] == calls;
    if Verifies(h, Recorded(h, start, calls)) && Recorded(h, start, calls).open.Blank?
       && Head(h, calls) == Expected(Recorded(h, start, calls)) && CleanEntry(c.entry) {
      var a: nat, b: nat :| Fits(h, start, calls, a, b);
      KeptCallFits(h, start, calls, c, a, b);
    }
    if Verifies(h, start) && FitsSomewhere(h, start, calls + [c]) {
      var a: nat, b: nat :| Fits(h, start, calls + [c], a, b);
      FitsEndsHere(h, start, calls, c, a, b);
      if a == n {
        BlockOfNothing(h, start, calls);
        OpenAfterNothing(h, start, calls);
      } else {
        OpenAfterAll(h, start, calls);
      }
    }
  }

  lemma BlockOfNothing(h: Text -> Text, start: Tape, calls: seq<Call>)
    requires Block(calls, 0, 0)
    ensures Fits(h, start, calls, 0, 0)
  {
  }

  lemma KeptCallFits(h: Text -> Text, start: Tape, calls: seq<Call>, c: Call, a: nat, b: nat)
    requires GoodHash(h) && AllSeparable(Given(calls)) && c.amount.All? && CleanEntry(c.entry)
    requires Fits(h, start, calls, a, b) && Leaves(h, start, calls)
    requires Recorded(h, start, calls).open.Blank? && Head(h, calls) == Expected(Recorded(h, start, calls))
    ensures FitsSomewhere(h, start, calls + [c])
  {
    hide Head, Expected, Recorded, CleanEntry, AllSeparable, FreshLine;
    var n := |calls|;
    assert calls[..n] == calls;
    if a < b {
      HeadsDiffer(h, calls, b, n);
      OpenAfterAll(h, start, calls);
      FitsProlonged(h, start, calls, c, a);
    } else {
      OpenAfterNothing(h, start, calls);
      FitsBegun(h, start, calls, c);
    }
  }

  /** A file to which a session has been appended, whatever became of its writes,
      verifies exactly if the file did before and what was kept of the session is one
      block of clean entries, each on a line of its own, that links to the file. */
  lemma {:induction false} AppendedSessionVerifiesIff(h: Text -> Text, start: Tape, calls: seq<Call>)
    requires GoodHash(h) && AllSeparable(Given(calls))
    ensures Verifies(h, Recorded(h, start, calls)) <==> Verifies(h, start) && FitsSomewhere(h, start, calls)
    ensures Verifies(h, Recorded(h, start, calls)) ==> Leaves(h, start, calls)
    decreases |calls|
  {
    if calls == [] {
      BlockOfNothing(h, start, calls);
    } else {
      hide Verifies, Expected, Block, FreshLine, Head, CleanEntry;
      var n := |calls| - 1;
      var init, c := calls[..n], calls[n];
      assert calls == init + [c];
      GivenPrefix(calls, n);
      assert AllSeparable(Given(init));
      AppendedSessionVerifiesIff(h, start, init);
      OneMoreCall(h, start, init, c);
    }
  }

  lemma OneMoreCall(h: Text -> Text, start: Tape, calls: seq<Call>, c: Call)
    requires GoodHash(h) && AllSeparable(Given(calls))
    requires Verifies(h, Recorded(h, start, calls)) <==> Verifies(h, start) && FitsSomewhere(h, start, calls)
    requires Verifies(h, Recorded(h, start, calls)) ==> Leaves(h, start, calls)
    ensures Verifies(h, Recorded(h, start, calls + [c])) <==> Verifies(h, start) && FitsSomewhere(h, start, calls + [c])
    ensures Verifies(h, Recorded(h, start, calls + [c])) ==> Leaves(h, start, calls + [c])
  {
    hide Verifies, Expected, Block, FreshLine, Head, CleanEntry, AllSeparable, Fits, Append, Sealed, Recorded, RereadEntry, Payload;
    var t, e := Recorded(h, start, calls), Sealed(h, Head(h, calls), c.entry);
    RecordedAppend(h, start, calls, c);
    AppendVerdict(h, t, e, c.amount, c.newline);
    HeadIsClean(h, calls);
    SealedRereadsIff(h, Head(h, calls), c.entry);
    HeadAppend(h, calls, c);
    match c.amount
    case Nothing => NothingKept(h, start, calls, c);
    case Part => PartFitsNowhere(h, start, calls, c);
    case All =>
      KeptCall(h, start, calls, c);
      assert (calls + [c])[..|calls + [c]|] == calls + [c];
      forall a: nat, b: nat | Fits(h, start, calls + [c], a, b)
        ensures a < b == |calls + [c]|
      {
        FitsEndsHere(h, start, calls, c, a, b);
      }
  }

  lemma RecordedAppend(h: Text -> Text, start: Tape, calls: seq<Call>, c: Call)
    ensures Recorded(h, start, calls + [c])
         == Append(Recorded(h, start, calls), Sealed(h, Head(h, calls), c.entry), c.amount, c.newline)
  {
    assert (calls + [c])[..|calls|] == calls;
  }

  lemma PartFitsNowhere(h: Text -> Text, start: Tape, calls: seq<Call>, c: Call)
    requires c.amount.Part?
    ensures !FitsSomewhere(h, start, calls + [c])
  {
    forall a: nat, b: nat ensures !Block(calls + [c], a, b) { assert (calls + [c])[|calls|] == c; }
  }

  lemma NothingKept(h: Text -> Text, start: Tape, calls: seq<Call>, c: Call)
    requires c.amount.Nothing?
    requires Expected(Recorded(h, start, calls + [c])) == Expected(Recorded(h, start, calls))
    ensures FitsSomewhere(h, start, calls + [c]) <==> FitsSomewhere(h, start, calls)
    ensures Leaves(h, start, calls) ==> Leaves(h, start, calls + [c])
  {
    hide Fits, Expected, Recorded, Head;
    if FitsSomewhere(h, start, calls) {
      var a: nat, b: nat :| Fits(h, start, calls, a, b);
      FitsGrows(h, start, calls, c, a, b);
    }
    forall a: nat, b: nat | Fits(h, start, calls + [c], a, b)
      ensures if a < b then b <= |calls| && Fits(h, start, calls, a, b) else Fits(h, start, calls, 0, 0)
    {
      FitsShrinks(h, start, calls, c, a, b);
    }
    assert forall b: nat :: b <= |calls| ==> (calls + [c])[..b] == calls[..b];
  }

  // ---- One session, and two ----

  lemma EmptyVerifies(h: Text -> Text)
    ensures Verifies(h, EMPTY) && Expected(EMPTY) == []
  {
    AcceptableAppend(h, [], Blank);
    assert Lines(EMPTY) == [] + [Blank];
  }

  /** A session in a file of its own verifies exactly if its entries reached the file
      up to some point and not at all from there on, those that did were clean, and
      each but the last got its newline. */
  lemma SessionVerifiesDespite(h: Text -> Text, calls: seq<Call>)
    requires GoodHash(h) && AllSeparable(Given(calls))
    ensures Verifies(h, Recorded(h, EMPTY, calls)) <==> exists m: nat :: Block(calls, 0, m)
  {
    hide Verifies, Expected, Recorded, CleanEntry;
    EmptyVerifies(h);
    AppendedSessionVerifiesIff(h, EMPTY, calls);
    if FitsSomewhere(h, EMPTY, calls) {
      var a: nat, b: nat :| Fits(h, EMPTY, calls, a, b);
      BlockFromStart(h, calls, a, b);
    }
    if m: nat :| Block(calls, 0, m) {
      assert calls[..0] == [] && Given([]) == [];
      assert Head(h, calls[..0]) == [];
      assert Fits(h, EMPTY, calls, 0, m);
    }
  }

  lemma BlockFromStart(h: Text -> Text, calls: seq<Call>, a: nat, b: nat)
    requires GoodHash(h) && Block(calls, a, b) && (a < b ==> Head(h, calls[..a]) == [])
    ensures Block(calls, 0, if a < b then b else 0)
  {
    if a < b { HeadIsBarFree(h, Given(calls[..a])); }
  }

  /** With every write whole, the file holds exactly the lines of the session. */
  lemma {:induction false} WholeSession(h: Text -> Text, calls: seq<Call>)
    requires forall i :: 0 <= i < |calls| ==> calls[i].amount.All? && calls[i].newline
    ensures Recorded(h, EMPTY, calls) == Tape(Written(h, Given(calls)), Blank)
  {
    hide Sealed, RereadEntry;
    if calls != [] {
      var n := |calls| - 1;
      WholeSession(h, calls[..n]);
      GivenPrefix(calls, n);
      WrittenAppend(h, Given(calls));
    }
  }

  /** One entry lost before one kept: both valid, and the file does not verify. */
  lemma LostEntryBreaksSession(h: Text -> Text, e: Entry, f: Entry)
    requires GoodHash(h) && SeparableText(e) && SeparableText(f)
    ensures !Verifies(h, Recorded(h, EMPTY, [Call(e, Nothing, false), Call(f, All, true)]))
  {
    hide Verifies, Recorded, CleanEntry, SeparableText;
    var calls := [Call(e, Nothing, false), Call(f, All, true)];
    SessionVerifiesDespite(h, calls);
    forall m: nat ensures !Block(calls, 0, m) {
      assert calls[0].amount.Nothing? && calls[1].amount.All?;
    }
  }

  /** What one session has left to be named by the next. */
  lemma SessionLeaves(h: Text -> Text, calls: seq<Call>, m: nat)
    requires GoodHash(h) && AllSeparable(Given(calls)) && Block(calls, 0, m)
    ensures Expected(Recorded(h, EMPTY, calls)) == Head(h, calls[..m])
  {
    hide Verifies, Expected, Recorded, CleanEntry;
    EmptyVerifies(h);
    AppendedSessionVerifiesIff(h, EMPTY, calls);
    assert calls[..0] == [] && Given([]) == [];
    assert Head(h, calls[..0]) == [];
    assert Fits(h, EMPTY, calls, 0, m);
  }

  /** A second session in the same file verifies with the first exactly if each is
      kept as a block, the first from its start, and the second, if anything of it
      is kept, has lost before that the very entries that the first has kept. With
      no write lost, this leaves only an empty session. */
  lemma TwoSessionsVerifyDespite(h: Text -> Text, first: seq<Call>, second: seq<Call>)
    requires GoodHash(h) && AllSeparable(Given(first)) && AllSeparable(Given(second))
    ensures var file := Recorded(h, EMPTY, first);
            Verifies(h, Recorded(h, file, second)) <==>
            exists m: nat, a: nat, b: nat :: Block(first, 0, m) && Block(second, a, b) && (a < b ==>
              FreshLine(file, second, a) && Session(h, Given(second[..a])) == Session(h, Given(first[..m])))
  {
    hide Verifies, Expected, Recorded, CleanEntry, Session, FreshLine;
    var file := Recorded(h, EMPTY, first);
    SessionVerifiesDespite(h, first);
    AppendedSessionVerifiesIff(h, file, second);
    forall m: nat, a: nat, b: nat | Block(first, 0, m) && Block(second, a, b)
      ensures Head(h, second[..a]) == Expected(file) <==> Session(h, Given(second[..a])) == Session(h, Given(first[..m]))
    {
      SessionLeaves(h, first, m);
      GivenPrefix(second, a);
      GivenPrefix(first, m);
      if Head(h, second[..a]) == Expected(file) {
        SameHeadSameSession(h, Given(second[..a]), Given(first[..m]));
      }
    }
    if Verifies(h, Recorded(h, file, second)) {
      var m: nat :| Block(first, 0, m);
      var a: nat, b: nat :| Fits(h, file, second, a, b);
      assert Block(second, a, b);
    }
    if m: nat, a: nat, b: nat :| Block(first, 0, m) && Block(second, a, b) && (a < b ==>
         FreshLine(file, second, a) && Session(h, Given(second[..a])) == Session(h, Given(first[..m]))) {
      assert Fits(h, file, second, a, b);
    }
  }
}
