/** Exactly which audit entries, and which logs, are determined by their hashes. */
module AuditTwins {
  import opened Common
  import opened AuditChain

  // ---- Bars in joined text ----

  function Bars(t: Text): nat {
    if t == [] then 0 else (if t[0] == BAR then 1 else 0) + Bars(t[1..])
  }

  function AllBars(fs: seq<Text>): nat {
    if fs == [] then 0 else Bars(fs[0]) + AllBars(fs[1..])
  }

  lemma {:induction false} BarsConcat(s: Text, t: Text)
    ensures Bars(s + t) == Bars(s) + Bars(t)
  {
    if s == [] {
      assert s + t == t;
    } else {
      assert (s + t)[1..] == s[1..] + t;
      BarsConcat(s[1..], t);
    }
  }

  lemma {:induction false} NoBarsIsBarFree(t: Text)
    ensures Bars(t) == 0 <==> BarFree(t)
  {
    if t != [] {
      NoBarsIsBarFree(t[1..]);
      assert t == [t[0]] + t[1..];
    }
  }

  lemma {:induction false} BarsOfJoin(fs: seq<Text>)
    requires fs != []
    ensures Bars(Join(fs)) == |fs| - 1 + AllBars(fs)
  {
    if |fs| == 1 {
      assert fs[1..] == [];
    } else {
      BarsOfJoin(fs[1..]);
      BarsConcat(fs[0], [BAR]);
      BarsConcat(fs[0] + [BAR], Join(fs[1..]));
      assert Bars([BAR]) == 1 + Bars([BAR][1..]);
    }
  }

  lemma {:induction false} AllBarFree(fs: seq<Text>)
    ensures AllBars(fs) == 0 <==> forall i :: 0 <= i < |fs| ==> BarFree(fs[i])
  {
    hide BarFree;
    if fs != [] {
      AllBarFree(fs[1..]);
      NoBarsIsBarFree(fs[0]);
      assert forall i :: 0 < i < |fs| ==> fs[i] == fs[1..][i - 1];
    }
  }

  // ---- An entry without bars has no twin ----

  /** No bar in any text, the reason included. */
  ghost predicate Unmistakable(e: Entry) {
    Separable(e) && BarFree(e.reason)
  }

  lemma UnmistakableFields(e: Entry)
    ensures Unmistakable(e) <==> forall i :: 0 <= i < |Fields(e)| ==> BarFree(Fields(e)[i])
  {
    hide BarFree;
    DecimalIsPlain(e.statusCode);
    FlagIsPlain(e.allowed);
    var fs := Fields(e);
    if forall i :: 0 <= i < |fs| ==> BarFree(fs[i]) {
      assert BarFree(fs[0]) && BarFree(fs[1]) && BarFree(fs[2]) && BarFree(fs[3]) && BarFree(fs[4]);
      assert BarFree(fs[6]) && BarFree(fs[8]) && BarFree(fs[9]) && BarFree(fs[10]);
    }
  }

  lemma FieldCount(e: Entry)
    ensures |Fields(e)| == 11
  {
  }

  lemma FlagIsPlain(b: bool)
    ensures BarFree(FromString(Flag(b)))
  {
  }

  /** Whatever the other entry contains, it cannot have the payload of an entry without bars. */
  lemma NoTwin(e: Entry, f: Entry)
    requires Unmistakable(e) && Payload(f) == Payload(e)
    ensures f == e.(hash := f.hash)
  {
    hide Fields, BarFree;
    FieldCount(e);
    FieldCount(f);
    UnmistakableFields(e);
    AllBarFree(Fields(e));
    BarsOfJoin(Fields(e));
    BarsOfJoin(Fields(f));
    AllBarFree(Fields(f));
    UnmistakableFields(f);
    PayloadIsInjective(f, e);
  }

  // ---- An entry with a bar has one ----

  /** A bar at the end of a field can as well stand at the start of the next. */
  lemma {:induction false} MoveBar(fs: seq<Text>, i: nat, a: Text, b: Text)
    requires i + 1 < |fs| && fs[i] == a + [BAR] + b
    ensures Join(fs[i := a][i + 1 := b + [BAR] + fs[i + 1]]) == Join(fs)
  {
    var gs := fs[i := a][i + 1 := b + [BAR] + fs[i + 1]];
    if i > 0 {
      assert gs[1..] == fs[1..][i - 1 := a][i := b + [BAR] + fs[1..][i]];
      MoveBar(fs[1..], i - 1, a, b);
    } else {
      MoveFirstBar(fs, gs, a, b);
    }
  }

  lemma MoveFirstBar(fs: seq<Text>, gs: seq<Text>, a: Text, b: Text)
    requires |fs| > 1 && fs[0] == a + [BAR] + b && gs == fs[0 := a][1 := b + [BAR] + fs[1]]
    ensures Join(gs) == Join(fs)
  {
    assert gs[1..][1..] == fs[1..][1..];
    if |fs| == 2 {
      assert Join(gs[1..]) == b + [BAR] + fs[1];
    } else {
      var tail := Join(fs[1..][1..]);
      assert Join(gs[1..]) == b + [BAR] + fs[1] + [BAR] + tail;
    }
    assert Join(gs[1..]) == b + [BAR] + Join(fs[1..]);
  }

  /** The text fields, by their place in the payload. */
  predicate IsText(i: int) {
    0 <= i <= 4 || 8 <= i <= 10
  }

  function Put(e: Entry, i: nat, t: Text): Entry
    requires IsText(i)
  {
    match i
    case 0 => e.(timestamp := t)
    case 1 => e.(key := t)
    case 2 => e.(role := t)
    case 3 => e.(verb := t)
    case 4 => e.(path := t)
    case 8 => e.(prevHash := t)
    case 9 => e.(tool := t)
    case _ => e.(reason := t)
  }

  lemma PutFields(e: Entry, i: nat, t: Text)
    requires IsText(i)
    ensures Fields(Put(e, i, t)) == Fields(e)[i := t]
  {
    hide Decimal, FromString;
  }

  ghost predicate Twins(e: Entry, f: Entry) {
    f != e && f.hash == e.hash && Payload(f) == Payload(e)
  }

  lemma SplitAtBar(t: Text) returns (a: Text, b: Text)
    requires !BarFree(t)
    ensures t == a + [BAR] + b
  {
    var i :| 0 <= i < |t| && t[i] == BAR;
    a, b := t[..i], t[i + 1..];
  }

  /** Moving a bar from field `i` to the next makes a twin. */
  lemma ForwardTwin(e: Entry, i: nat) returns (f: Entry)
    requires IsText(i) && IsText(i + 1) && !BarFree(Fields(e)[i])
    ensures Twins(e, f) && (i != 8 ==> f.prevHash == e.prevHash)
  {
    hide Fields, Join, BarFree;
    FieldCount(e);
    var fs := Fields(e);
    var a, b := SplitAtBar(fs[i]);
    f := Put(Put(e, i, a), i + 1, b + [BAR] + fs[i + 1]);
    PutFields(e, i, a);
    PutFields(Put(e, i, a), i + 1, b + [BAR] + fs[i + 1]);
    MoveBar(fs, i, a, b);
    assert Fields(f)[i] == a != fs[i] by { assert |a| < |fs[i]|; }
  }

  /** Moving a bar from field `i + 1` to the one before makes a twin. */
  lemma BackwardTwin(e: Entry, i: nat) returns (f: Entry)
    requires IsText(i) && IsText(i + 1) && !BarFree(Fields(e)[i + 1])
    ensures Twins(e, f) && (i != 8 && i + 1 != 8 ==> f.prevHash == e.prevHash)
  {
    hide Fields, Join, BarFree;
    FieldCount(e);
    var fs := Fields(e);
    var a, b := SplitAtBar(fs[i + 1]);
    f := Put(Put(e, i, fs[i] + [BAR] + a), i + 1, b);
    PutFields(e, i, fs[i] + [BAR] + a);
    PutFields(Put(e, i, fs[i] + [BAR] + a), i + 1, b);
    var gs := fs[i := fs[i] + [BAR] + a][i + 1 := b];
    assert Fields(f) == gs;
    MoveBar(gs, i, fs[i], a);
    assert gs[i := fs[i]][i + 1 := a + [BAR] + b] == fs;
    assert gs[i + 1] == b != fs[i + 1] by { assert |b| < |fs[i + 1]|; }
  }

  /** A bar anywhere but in the duration makes a twin, with the same previous hash
      unless the bar is there. */
  lemma BarMakesTwin(e: Entry) returns (f: Entry)
    requires BarFree(e.duration) && !Unmistakable(e)
    ensures Twins(e, f) && (BarFree(e.prevHash) ==> f.prevHash == e.prevHash)
  {
    hide BarFree, Payload;
    if !BarFree(e.timestamp) {
      f := ForwardTwin(e, 0);
    } else if !BarFree(e.key) {
      f := ForwardTwin(e, 1);
    } else if !BarFree(e.role) {
      f := ForwardTwin(e, 2);
    } else if !BarFree(e.verb) {
      f := ForwardTwin(e, 3);
    } else if !BarFree(e.path) {
      f := BackwardTwin(e, 3);
    } else if !BarFree(e.prevHash) {
      f := ForwardTwin(e, 8);
    } else if !BarFree(e.tool) {
      f := ForwardTwin(e, 9);
    } else {
      f := BackwardTwin(e, 9);
    }
  }

  /** The payload determines the entry exactly if no text contains a bar. (The
      duration never does: it is printed from a number.) */
  lemma PayloadDeterminesIff(e: Entry)
    requires BarFree(e.duration)
    ensures (forall f :: Payload(f) == Payload(e) ==> f == e.(hash := f.hash)) <==> Unmistakable(e)
  {
    hide BarFree, Payload, Separable;
    if Unmistakable(e) {
      forall f | Payload(f) == Payload(e) ensures f == e.(hash := f.hash) { NoTwin(e, f); }
    } else {
      var f := BarMakesTwin(e);
      assert Payload(f) == Payload(e) && f != e.(hash := f.hash);
    }
  }

  // ---- Logs ----

  /** Tamper evidence without a condition on the forger: no other unbroken log of the
      same length ends in the same hash as a log without bars. */
  lemma {:induction false} NoOtherLog(h: Text -> Text, es: seq<Entry>, fs: seq<Entry>)
    requires GoodHash(h) && Unbroken(h, es) && Unbroken(h, fs)
    requires |es| == |fs| && PrevOf(es) == PrevOf(fs)
    requires forall e :: e in es ==> Unmistakable(e)
    ensures es == fs
  {
    hide Payload, Unmistakable, BarFree, Clean, Unbroken;
    if es != [] {
      var n := |es| - 1;
      var e, f := es[n], fs[n];
      assert es == es[..n] + [e] && fs == fs[..n] + [f];
      UnbrokenAppend(h, es[..n], e);
      UnbrokenAppend(h, fs[..n], f);
      NoTwin(e, f);
      NoOtherLog(h, es[..n], fs[..n]);
    }
  }

  /** An entry can be exchanged for a twin with the same link. */
  lemma {:induction false} ExchangeKeepsChain(h: Text -> Text, es: seq<Entry>, i: nat, f: Entry)
    requires Unbroken(h, es) && i < |es| && Twins(es[i], f) && f.prevHash == es[i].prevHash
    ensures Unbroken(h, es[i := f]) && PrevOf(es[i := f]) == PrevOf(es)
  {
    hide Payload, Unbroken;
    var n := |es| - 1;
    var init, last := es[..n], es[n];
    assert es == init + [last];
    UnbrokenAppend(h, init, last);
    if i == n {
      assert es[i := f] == init + [f];
      UnbrokenAppend(h, init, f);
    } else {
      ExchangeKeepsChain(h, init, i, f);
      assert es[i := f] == init[i := f] + [last];
      UnbrokenAppend(h, init[i := f], last);
    }
  }

  lemma LinksAreBarFree(h: Text -> Text, es: seq<Entry>, i: nat)
    requires GoodHash(h) && Unbroken(h, es) && i < |es|
    ensures BarFree(es[i].prevHash)
  {
    hide Payload;
    assert es[i].prevHash == PrevOf(es[..i]);
    if i > 0 { assert es[i - 1].hash == h(Payload(es[i - 1])); }
  }

  /** An unbroken log is the only one of its length with its final hash exactly if
      no text in it contains a bar. */
  lemma LogIsDeterminedIff(h: Text -> Text, es: seq<Entry>)
    requires GoodHash(h) && Unbroken(h, es) && forall e :: e in es ==> BarFree(e.duration)
    ensures (forall fs :: Unbroken(h, fs) && |fs| == |es| && PrevOf(fs) == PrevOf(es) ==> fs == es)
       <==> (forall e :: e in es ==> Unmistakable(e))
  {
    hide Payload, BarFree, Clean, Unbroken, Unmistakable, PrevOf;
    if forall e :: e in es ==> Unmistakable(e) {
      forall fs | Unbroken(h, fs) && |fs| == |es| && PrevOf(fs) == PrevOf(es) ensures fs == es {
        NoOtherLog(h, es, fs);
      }
    } else {
      var i :| 0 <= i < |es| && !Unmistakable(es[i]);
      var f := BarMakesTwin(es[i]);
      LinksAreBarFree(h, es, i);
      ExchangeKeepsChain(h, es, i, f);
      assert es[i := f][i] != es[i];
    }
  }
}
