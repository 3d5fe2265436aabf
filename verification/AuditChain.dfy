/**
 The tamper-evident audit log: what a session writes, what verification accepts,
 and what acceptance proves.

 The hash is a parameter. A string is a sequence of code points and of stray
 bytes that belong to none; writing it as JSON and reading it back turns each
 stray byte into the replacement character.
 */
module AuditChain {
  import opened Common

  datatype Unit = Rune(c: char) | Stray(b: Byte)
  type Text = seq<Unit>

  datatype Entry = Entry(timestamp: Text, key: Text, role: Text, verb: Text, path: Text, tool: Text, statusCode: int,
                         duration: Text, allowed: bool, reason: Text, prevHash: Text, hash: Text)

  // ---- Text ----

  const BAR := Rune('|')

  function FromString(s: string): Text {
    seq(|s|, i requires 0 <= i < |s| => Rune(s[i]))
  }

  ghost predicate BarFree(t: Text) {
    BAR !in t
  }

  /** Valid UTF-8 throughout. */
  ghost predicate Clean(t: Text) {
    forall u :: u in t ==> u.Rune?
  }

  ghost predicate Continues(b: Byte) {
    0x80 <= b < 0xC0
  }

  /** The bytes are the UTF-8 form of one code point (table 3-7 of the Unicode standard). */
  ghost predicate IsCodePoint(b: Bytes) {
    || (|b| == 1 && b[0] < 0x80)
    || (|b| == 2 && 0xC2 <= b[0] < 0xE0 && Continues(b[1]))
    || (|b| == 3 && 0xE0 <= b[0] < 0xF0 && Continues(b[1]) && Continues(b[2])
        && (b[0] == 0xE0 ==> b[1] >= 0xA0) && (b[0] == 0xED ==> b[1] < 0xA0))
    || (|b| == 4 && 0xF0 <= b[0] <= 0xF4 && Continues(b[1]) && Continues(b[2]) && Continues(b[3])
        && (b[0] == 0xF0 ==> b[1] >= 0x90) && (b[0] == 0xF4 ==> b[1] < 0x90))
  }

  ghost predicate AllStray(t: Text) {
    forall i :: 0 <= i < |t| ==> t[i].Stray?
  }

  ghost function StrayBytes(t: Text): Bytes
    requires AllStray(t)
  {
    seq(|t|, i requires 0 <= i < |t| => t[i].b)
  }

  /** The form in which the model takes a Go string: its code points as they are
      decoded, so that no stray bytes next to each other make up another one. The
      theorems hold of all texts. */
  ghost predicate Canonical(t: Text) {
    forall i, j :: 0 <= i <= j <= |t| && AllStray(t[i..j]) ==> !IsCodePoint(StrayBytes(t[i..j]))
  }

  function RereadUnit(u: Unit): Unit {
    if u.Rune? then u else Rune('\U{FFFD}')
  }

  function Reread(t: Text): Text {
    seq(|t|, i requires 0 <= i < |t| => RereadUnit(t[i]))
  }

  /** Each stray byte, and nothing else, comes back as the replacement character. */
  lemma RereadReplaces(t: Text, i: nat)
    requires i < |t|
    ensures |Reread(t)| == |t| && Reread(t)[i] == if t[i].Stray? then Rune('\U{FFFD}') else t[i]
  {
  }

  lemma RereadConcat(s: Text, t: Text)
    ensures Reread(s + t) == Reread(s) + Reread(t)
  {
  }

  lemma RereadFixes(t: Text)
    ensures Reread(t) == t <==> Clean(t)
  {
    if Clean(t) {
      forall i | 0 <= i < |t| ensures Reread(t)[i] == t[i] { assert t[i] in t; }
    } else {
      var u :| u in t && u.Stray?;
      var i :| 0 <= i < |t| && t[i] == u;
      assert Reread(t)[i] != t[i];
    }
  }

  // ---- Numbers and flags as the payload prints them ----

  function Digit(d: nat): char
    requires d < 10
  {
    "0123456789"[d]
  }

  function Digits(n: nat): string {
    if n < 10 then [Digit(n)] else Digits(n / 10) + [Digit(n % 10)]
  }

  function Decimal(n: int): string {
    if n < 0 then "-" + Digits(-n) else Digits(n)
  }

  function DigitValue(c: char): nat {
    if '0' <= c <= '9' then c as nat - '0' as nat else 0
  }

  function Value(s: string): nat {
    if s == "" then 0 else 10 * Value(s[..|s| - 1]) + DigitValue(s[|s| - 1])
  }

  lemma {:induction false} ValueOfDigits(n: nat)
    ensures Value(Digits(n)) == n && Digits(n) != "" && Digits(n)[0] != '-'
    ensures forall c :: c in Digits(n) ==> '0' <= c <= '9'
  {
    if n >= 10 {
      ValueOfDigits(n / 10);
      var s := Digits(n);
      assert s[..|s| - 1] == Digits(n / 10) && s[0] == Digits(n / 10)[0];
    } else {
      var s := Digits(n);
      assert s[..0] == "" && Value(s[..0]) == 0;
    }
  }

  lemma DecimalIsInjective(m: int, n: int)
    requires Decimal(m) == Decimal(n)
    ensures m == n
  {
    ValueOfDigits(if m < 0 then -m else m);
    ValueOfDigits(if n < 0 then -n else n);
    assert m < 0 ==> Decimal(m)[1..] == Digits(-m);
    assert n < 0 ==> Decimal(n)[1..] == Digits(-n);
  }

  lemma DecimalIsPlain(n: int)
    ensures BarFree(FromString(Decimal(n)))
  {
    ValueOfDigits(if n < 0 then -n else n);
    var s := Decimal(n);
    forall i | 0 <= i < |s| ensures s[i] != '|' {
      assert n < 0 && i > 0 ==> s[i] in Digits(-n);
      assert n >= 0 ==> s[i] in Digits(n);
    }
  }

  lemma FromStringIsInjective(s: string, t: string)
    requires FromString(s) == FromString(t)
    ensures s == t
  {
    assert |s| == |FromString(s)| == |FromString(t)| == |t|;
    forall i | 0 <= i < |s| ensures s[i] == t[i] {
      assert FromString(s)[i] == FromString(t)[i];
    }
  }

  // ---- The payload ----

  function Flag(b: bool): string {
    if b then "true" else "false"
  }

  /** The fields in the order in which they are hashed. */
  function Fields(e: Entry): seq<Text> {
    [e.timestamp, e.key, e.role, e.verb, e.path, FromString(Decimal(e.statusCode)), e.duration,
     FromString(Flag(e.allowed)), e.prevHash, e.tool, e.reason]
  }

  function Join(fs: seq<Text>): Text
    requires fs != []
  {
    if |fs| == 1 then fs[0] else fs[0] + [BAR] + Join(fs[1..])
  }

  function Payload(e: Entry): Text {
    Join(Fields(e))
  }

  /** Fields can be told apart in the joined text if none but the last contains a bar. */
  lemma {:induction false} JoinIsInjective(fs: seq<Text>, gs: seq<Text>)
    requires fs != [] && |fs| == |gs| && Join(fs) == Join(gs)
    requires forall i :: 0 <= i < |fs| - 1 ==> BarFree(fs[i]) && BarFree(gs[i])
    ensures fs == gs
  {
    if |fs| > 1 {
      var j := Join(fs);
      assert j[..|fs[0]|] == fs[0] && j[|fs[0]|] == BAR && j[|fs[0]| + 1..] == Join(fs[1..]);
      assert j[..|gs[0]|] == gs[0] && j[|gs[0]|] == BAR && j[|gs[0]| + 1..] == Join(gs[1..]);
      forall i | 0 <= i < |fs[0]| ensures j[i] != BAR { assert j[i] == fs[0][i]; }
      forall i | 0 <= i < |gs[0]| ensures j[i] != BAR { assert j[i] == gs[0][i]; }
      JoinIsInjective(fs[1..], gs[1..]);
      assert fs == [fs[0]] + fs[1..] && gs == [gs[0]] + gs[1..];
    }
  }

  /** No bar in any field before the last (which is the reason). */
  ghost predicate Separable(e: Entry) {
    && BarFree(e.timestamp) && BarFree(e.key) && BarFree(e.role) && BarFree(e.verb) && BarFree(e.path)
    && BarFree(e.duration) && BarFree(e.prevHash) && BarFree(e.tool)
  }

  function Then(field: Text, rest: Text): Text {
    field + [BAR] + rest
  }

  lemma JoinFrom(fs: seq<Text>, i: nat)
    requires i + 1 < |fs|
    ensures Join(fs[i..]) == Then(fs[i], Join(fs[i + 1..]))
  {
    assert fs[i..][1..] == fs[i + 1..];
  }

  /** What is hashed, field by field. */
  lemma PayloadSpelled(e: Entry)
    ensures Payload(e) ==
            Then(e.timestamp, Then(e.key, Then(e.role, Then(e.verb, Then(e.path, Then(FromString(Decimal(e.statusCode)),
            Then(e.duration, Then(FromString(if e.allowed then "true" else "false"), Then(e.prevHash, Then(e.tool, e.reason))))))))))
  {
    hide Join, Then, Decimal, FromString;
    var fs := Fields(e);
    assert fs[0..] == fs;
    JoinFrom(fs, 0); JoinFrom(fs, 1); JoinFrom(fs, 2); JoinFrom(fs, 3); JoinFrom(fs, 4);
    JoinFrom(fs, 5); JoinFrom(fs, 6); JoinFrom(fs, 7); JoinFrom(fs, 8); JoinFrom(fs, 9);
    assert Join(fs[10..]) == e.reason by { JoinLast(fs); }
  }

  lemma JoinLast(fs: seq<Text>)
    requires fs != []
    ensures Join(fs[|fs| - 1..]) == fs[|fs| - 1]
  {
  }

  lemma DecimalExamples()
    ensures Decimal(200) == "200" && Decimal(-1) == "-1"
  {
    assert Digits(2) == "2" && Digits(20) == "20" && Digits(200) == "200" && Digits(1) == "1";
  }

  lemma PayloadIsInjective(e: Entry, f: Entry)
    requires Separable(e) && Separable(f) && Payload(e) == Payload(f)
    ensures e == f.(hash := e.hash)
  {
    DecimalIsPlain(e.statusCode);
    DecimalIsPlain(f.statusCode);
    var fs, gs := Fields(e), Fields(f);
    JoinIsInjective(fs, gs);
    assert forall i :: 0 <= i < |fs| ==> fs[i] == gs[i];
    FromStringIsInjective(Decimal(e.statusCode), Decimal(f.statusCode));
    DecimalIsInjective(e.statusCode, f.statusCode);
    FromStringIsInjective(Flag(e.allowed), Flag(f.allowed));
  }

  /** Without that, two different entries can share a payload. */
  lemma BarsMakeEntriesAmbiguous(e: Entry, t: Text, u: Text, v: Text)
    ensures Payload(e.(tool := t + [BAR] + u, reason := v)) == Payload(e.(tool := t, reason := u + [BAR] + v))
    ensures e.(tool := t + [BAR] + u, reason := v) != e.(tool := t, reason := u + [BAR] + v)
  {
    assert |t + [BAR] + u| != |t|;
    var a := Fields(e.(tool := t + [BAR] + u, reason := v));
    var b := Fields(e.(tool := t, reason := u + [BAR] + v));
    assert a[9..] == [t + [BAR] + u, v] && b[9..] == [t, u + [BAR] + v];
    assert a[9..][1..] == [v] && b[9..][1..] == [u + [BAR] + v];
    assert Join(a[9..]) == t + [BAR] + u + [BAR] + v == Join(b[9..]);
    JoinDiffersOnlyInTail(a, b, 9);
  }

  lemma {:induction false} JoinDiffersOnlyInTail(a: seq<Text>, b: seq<Text>, k: nat)
    requires k < |a| && k < |b| && a[..k] == b[..k] && Join(a[k..]) == Join(b[k..])
    ensures Join(a) == Join(b)
  {
    if k == 0 {
      assert a[0..] == a && b[0..] == b;
    } else {
      assert a[0] == a[..k][0] == b[..k][0] == b[0];
      assert a[1..][..k - 1] == a[..k][1..] == b[..k][1..] == b[1..][..k - 1];
      assert a[1..][k - 1..] == a[k..] && b[1..][k - 1..] == b[k..];
      JoinDiffersOnlyInTail(a[1..], b[1..], k - 1);
    }
  }

  lemma RuneBreaksStray(t: Text, i: nat, j: nat, k: nat)
    requires i <= k < j <= |t| && t[k].Rune?
    ensures !AllStray(t[i..j])
  {
    assert t[i..j][k - i] == t[k];
  }

  /** A bar separates: joining canonical fields gives canonical text. */
  lemma BarKeepsCanonical(s: Text, t: Text)
    requires Canonical(s) && Canonical(t)
    ensures Canonical(s + [BAR] + t)
  {
    var u := s + [BAR] + t;
    forall i, j | 0 <= i <= |s| < j <= |u| ensures !AllStray(u[i..j]) { RuneBreaksStray(u, i, j, |s|); }
    forall i, j | 0 <= i <= j <= |u| && AllStray(u[i..j])
      ensures !IsCodePoint(StrayBytes(u[i..j]))
    {
      var n := |s| + 1;
      if j <= |s| {
        assert u[i..j] == s[i..j];
      } else if i > |s| {
        assert u[i..j] == t[i - n..j - n];
      }
    }
  }

  lemma {:induction false} JoinIsCanonical(fs: seq<Text>)
    requires fs != [] && forall i :: 0 <= i < |fs| ==> Canonical(fs[i])
    ensures Canonical(Join(fs))
  {
    hide Canonical;
    if |fs| > 1 {
      forall i | 0 <= i < |fs[1..]| ensures Canonical(fs[1..][i]) { assert fs[1..][i] == fs[i + 1]; }
      JoinIsCanonical(fs[1..]);
      BarKeepsCanonical(fs[0], Join(fs[1..]));
    }
  }

  lemma CleanIsCanonical(t: Text)
    requires Clean(t)
    ensures Canonical(t)
  {
    forall i, j | 0 <= i < j <= |t| ensures !AllStray(t[i..j]) {
      assert t[i] in t;
      RuneBreaksStray(t, i, j, i);
    }
  }

  ghost predicate CanonicalEntry(e: Entry) {
    && Canonical(e.timestamp) && Canonical(e.key) && Canonical(e.role) && Canonical(e.verb) && Canonical(e.path)
    && Canonical(e.tool) && Canonical(e.duration) && Canonical(e.reason) && Canonical(e.prevHash)
  }

  /** What is hashed of strings in decoded form is in decoded form. */
  lemma PayloadIsCanonical(e: Entry)
    requires CanonicalEntry(e)
    ensures Canonical(Payload(e))
  {
    hide Canonical;
    FromStringIsClean(Decimal(e.statusCode));
    CleanIsCanonical(FromString(Decimal(e.statusCode)));
    FromStringIsClean(Flag(e.allowed));
    CleanIsCanonical(FromString(Flag(e.allowed)));
    JoinIsCanonical(Fields(e));
  }

  // ---- The chain ----

  /** What is required of the hash: it has no collisions, and its hex output is
      non-empty text without bars. */
  ghost predicate GoodHash(h: Text -> Text) {
    && (forall p, q :: h(p) == h(q) ==> p == q)
    && (forall p :: h(p) != [] && BarFree(h(p)) && Clean(h(p)))
  }

  ghost function PrevOf(es: seq<Entry>): Text {
    if es == [] then [] else es[|es| - 1].hash
  }

  /** Each entry carries the hash of the one before it, the first the empty hash,
      and its own hash matches its contents. */
  ghost predicate Unbroken(h: Text -> Text, es: seq<Entry>) {
    forall i :: 0 <= i < |es| ==> es[i].prevHash == PrevOf(es[..i]) && es[i].hash == h(Payload(es[i]))
  }

  lemma UnbrokenAppend(h: Text -> Text, es: seq<Entry>, e: Entry)
    ensures Unbroken(h, es + [e]) <==> Unbroken(h, es) && e.prevHash == PrevOf(es) && e.hash == h(Payload(e))
  {
    var fs := es + [e];
    assert fs[..|es|] == es && fs[|es|] == e;
    forall i | 0 <= i < |es| ensures fs[..i] == es[..i] && fs[i] == es[i] {}
    if Unbroken(h, fs) {
      forall i | 0 <= i < |es| ensures es[i].prevHash == PrevOf(es[..i]) && es[i].hash == h(Payload(es[i])) {
        assert fs[i] == es[i];
      }
      assert fs[|es|].prevHash == PrevOf(fs[..|es|]);
    }
  }

  /** Tamper evidence: two unbroken logs of the same length that end in the same
      hash are the same log, entry by entry. */
  lemma {:induction false} SameEndSameLog(h: Text -> Text, es: seq<Entry>, fs: seq<Entry>)
    requires GoodHash(h) && Unbroken(h, es) && Unbroken(h, fs)
    requires |es| == |fs| && PrevOf(es) == PrevOf(fs)
    requires forall e :: e in es || e in fs ==> Separable(e)
    ensures es == fs
  {
    hide Payload, Separable, BarFree, Clean, Unbroken;
    if es != [] {
      var n := |es| - 1;
      var e, f := es[n], fs[n];
      assert es == es[..n] + [e] && fs == fs[..n] + [f];
      UnbrokenAppend(h, es[..n], e);
      UnbrokenAppend(h, fs[..n], f);
      PayloadIsInjective(e, f);
      SameEndSameLog(h, es[..n], fs[..n]);
    }
  }

  // ---- Verification of a file ----

  datatype Line = Blank | Malformed | Parsed(entry: Entry)

  datatype Verdict = Intact(count: nat) | Broken(line: nat)

  function Entries(lines: seq<Line>): seq<Entry> {
    if lines == [] then []
    else
      var earlier := Entries(lines[..|lines| - 1]);
      if lines[|lines| - 1].Parsed? then earlier + [lines[|lines| - 1].entry] else earlier
  }

  /** The log up to here is readable and forms an unbroken chain. */
  ghost predicate Acceptable(h: Text -> Text, lines: seq<Line>) {
    (forall i :: 0 <= i < |lines| ==> !lines[i].Malformed?) && Unbroken(h, Entries(lines))
  }

  lemma AcceptableEmpty(h: Text -> Text)
    ensures Acceptable(h, []) && Entries([]) == []
  {
  }

  lemma AcceptableAppend(h: Text -> Text, lines: seq<Line>, l: Line)
    ensures Entries(lines + [l]) == if l.Parsed? then Entries(lines) + [l.entry] else Entries(lines)
    ensures Acceptable(h, lines + [l]) <==>
      && Acceptable(h, lines)
      && match l
         case Blank => true
         case Malformed => false
         case Parsed(e) => e.prevHash == PrevOf(Entries(lines)) && e.hash == h(Payload(e))
  {
    assert (lines + [l])[..|lines|] == lines;
    if l.Parsed? { UnbrokenAppend(h, Entries(lines), l.entry); }
    if Acceptable(h, lines + [l]) {
      forall i | 0 <= i < |lines| ensures !lines[i].Malformed? { assert (lines + [l])[i] == lines[i]; }
      assert (lines + [l])[|lines|] == l;
    }
  }

  /** Accepts exactly the unbroken chains that start from the empty hash and
      returns their length; otherwise it reports the first line at which the log
      ceases to be one. */
  method VerifyAuditChain(h: Text -> Text, lines: seq<Line>) returns (v: Verdict)
    ensures v.Intact? <==> Acceptable(h, lines)
    ensures v.Intact? ==> v.count == |Entries(lines)|
    ensures v.Broken? ==> v.line < |lines| && Acceptable(h, lines[..v.line]) && !Acceptable(h, lines[..v.line + 1])
  {
    hide Acceptable, Payload, Entries;
    AcceptableEmpty(h);
    assert lines[..0] == [];
    var prevHash: Text := [];
    var count := 0;
    for i := 0 to |lines|
      invariant Acceptable(h, lines[..i]) && prevHash == PrevOf(Entries(lines[..i])) && count == |Entries(lines[..i])|
    {
      AcceptableAppend(h, lines[..i], lines[i]);
      assert lines[..i + 1] == lines[..i] + [lines[i]];
      match lines[i]
      case Blank =>
      case Malformed =>
        PrefixAcceptable(h, lines, i + 1);
        return Broken(i);
      case Parsed(entry) =>
        if entry.prevHash != prevHash || entry.hash != h(Payload(entry)) {
          PrefixAcceptable(h, lines, i + 1);
          return Broken(i);
        }
        prevHash := entry.hash;
        count := count + 1;
    }
    assert lines[..|lines|] == lines;
    return Intact(count);
  }

  /** A log with an unacceptable beginning is unacceptable. */
  lemma {:induction false} PrefixAcceptable(h: Text -> Text, lines: seq<Line>, k: nat)
    requires k <= |lines| && !Acceptable(h, lines[..k])
    ensures !Acceptable(h, lines)
    decreases |lines| - k
  {
    hide *;
    if k < |lines| {
      AcceptableAppend(h, lines[..k], lines[k]);
      assert lines[..k + 1] == lines[..k] + [lines[k]];
      PrefixAcceptable(h, lines, k + 1);
    } else {
      assert lines[..k] == lines;
    }
  }

  // ---- A logging session ----

  /** What is read back of a written entry. */
  function RereadEntry(e: Entry): Entry {
    e.(timestamp := Reread(e.timestamp), key := Reread(e.key), role := Reread(e.role), verb := Reread(e.verb),
       path := Reread(e.path), tool := Reread(e.tool), duration := Reread(e.duration), reason := Reread(e.reason),
       prevHash := Reread(e.prevHash), hash := Reread(e.hash))
  }

  function Sealed(h: Text -> Text, prev: Text, e: Entry): Entry {
    var linked := e.(prevHash := prev);
    linked.(hash := h(Payload(linked)))
  }

  /** The entries of a session as they leave the logger; it starts from the empty hash. */
  ghost function Session(h: Text -> Text, es: seq<Entry>): seq<Entry> {
    if es == [] then []
    else
      var earlier := Session(h, es[..|es| - 1]);
      earlier + [Sealed(h, PrevOf(earlier), es[|es| - 1])]
  }

  /** The lines the session writes, as a reader sees them. */
  ghost function Written(h: Text -> Text, es: seq<Entry>): seq<Line> {
    var sealed := Session(h, es);
    seq(|sealed|, i requires 0 <= i < |sealed| => Parsed(RereadEntry(sealed[i])))
  }

  // ---- Which sessions verify ----

  /** All text the caller supplies is valid UTF-8. */
  ghost predicate CleanEntry(e: Entry) {
    && Clean(e.timestamp) && Clean(e.key) && Clean(e.role) && Clean(e.verb) && Clean(e.path) && Clean(e.tool)
    && Clean(e.duration) && Clean(e.reason)
  }

  lemma {:induction false} RereadJoin(fs: seq<Text>, gs: seq<Text>)
    requires fs != [] && |fs| == |gs| && forall i :: 0 <= i < |fs| ==> gs[i] == Reread(fs[i])
    ensures Join(gs) == Reread(Join(fs))
  {
    if |fs| > 1 {
      RereadJoin(fs[1..], gs[1..]);
      RereadConcat(fs[0], [BAR]);
      RereadConcat(fs[0] + [BAR], Join(fs[1..]));
      assert Reread([BAR]) == [BAR];
    }
  }

  lemma {:induction false} CleanJoin(fs: seq<Text>)
    requires fs != []
    ensures Clean(Join(fs)) <==> forall i :: 0 <= i < |fs| ==> Clean(fs[i])
  {
    if |fs| > 1 {
      CleanJoin(fs[1..]);
      CleanConcat(fs[0], [BAR]);
      CleanConcat(fs[0] + [BAR], Join(fs[1..]));
      assert fs == [fs[0]] + fs[1..];
      assert (forall i :: 0 <= i < |fs| ==> Clean(fs[i])) <==> Clean(fs[0]) && forall i :: 0 <= i < |fs[1..]| ==> Clean(fs[1..][i]);
    }
  }

  lemma CleanConcat(s: Text, t: Text)
    ensures Clean(s + t) <==> Clean(s) && Clean(t)
  {
    assert forall u :: u in s + t <==> u in s || u in t;
  }

  lemma FromStringIsClean(s: string)
    ensures Clean(FromString(s)) && Reread(FromString(s)) == FromString(s)
  {
    RereadFixes(FromString(s));
  }

  /** What is read back hashes the same exactly if nothing was replaced. */
  lemma RereadPayload(e: Entry)
    requires Clean(e.prevHash)
    ensures Payload(RereadEntry(e)) == Payload(e) <==> CleanEntry(e)
  {
    var fs, gs := Fields(e), Fields(RereadEntry(e));
    FromStringIsClean(Decimal(e.statusCode));
    FromStringIsClean(Flag(e.allowed));
    RereadJoin(fs, gs);
    RereadFixes(Payload(e));
    CleanJoin(fs);
    FieldsClean(e);
  }

  lemma FieldsClean(e: Entry)
    requires Clean(e.prevHash)
    ensures (forall i :: 0 <= i < |Fields(e)| ==> Clean(Fields(e)[i])) <==> CleanEntry(e)
  {
    hide Clean;
    var fs := Fields(e);
    FromStringIsClean(Decimal(e.statusCode));
    FromStringIsClean(Flag(e.allowed));
    if forall i :: 0 <= i < |fs| ==> Clean(fs[i]) {
      assert Clean(fs[0]) && Clean(fs[1]) && Clean(fs[2]) && Clean(fs[3]) && Clean(fs[4]) && Clean(fs[6]) && Clean(fs[9]) && Clean(fs[10]);
    }
  }

  lemma {:induction false} SessionIsUnbroken(h: Text -> Text, es: seq<Entry>)
    requires GoodHash(h)
    ensures Unbroken(h, Session(h, es)) && |Session(h, es)| == |es|
    ensures forall e :: e in Session(h, es) ==> Clean(e.prevHash) && Clean(e.hash)
  {
    if es != [] {
      var earlier := Session(h, es[..|es| - 1]);
      SessionIsUnbroken(h, es[..|es| - 1]);
      UnbrokenAppend(h, earlier, Sealed(h, PrevOf(earlier), es[|es| - 1]));
      assert earlier != [] ==> PrevOf(earlier) == earlier[|earlier| - 1].hash && earlier[|earlier| - 1] in earlier;
    }
  }

  lemma WrittenAppend(h: Text -> Text, es: seq<Entry>)
    requires es != []
    ensures var init := es[..|es| - 1];
            Written(h, es) == Written(h, init) + [Parsed(RereadEntry(Sealed(h, PrevOf(Session(h, init)), es[|es| - 1])))]
  {
  }

  /** One written entry still matches its hash exactly if its text was clean. */
  lemma SealedRereadsIff(h: Text -> Text, prev: Text, e: Entry)
    requires GoodHash(h) && Clean(prev)
    ensures var sealed := Sealed(h, prev, e);
            var read := RereadEntry(sealed);
            && read.prevHash == prev && read.hash == sealed.hash
            && (read.hash == h(Payload(read)) <==> CleanEntry(e))
  {
    var sealed := Sealed(h, prev, e);
    RereadFixes(sealed.prevHash);
    RereadFixes(sealed.hash);
    RereadPayload(sealed);
    assert Payload(sealed) == Payload(e.(prevHash := prev));
  }

  lemma SessionStep(h: Text -> Text, es: seq<Entry>)
    requires GoodHash(h) && es != []
    ensures var init, last := es[..|es| - 1], es[|es| - 1];
            && Clean(PrevOf(Session(h, init)))
            && PrevOf(Session(h, es)) == Sealed(h, PrevOf(Session(h, init)), last).hash
            && ((forall e :: e in es ==> CleanEntry(e)) <==> (forall e :: e in init ==> CleanEntry(e)) && CleanEntry(last))
  {
    var init, last := es[..|es| - 1], es[|es| - 1];
    assert es == init + [last];
    SessionIsUnbroken(h, init);
    var earlier := Session(h, init);
    assert earlier != [] ==> earlier[|earlier| - 1] in earlier;
  }

  /** Every session whose text is valid UTF-8 verifies, and no other does: a
      replaced byte changes the hash of its entry for good. */
  lemma {:induction false} SessionVerifiesIff(h: Text -> Text, es: seq<Entry>)
    requires GoodHash(h)
    ensures Acceptable(h, Written(h, es)) <==> forall e :: e in es ==> CleanEntry(e)
    ensures Acceptable(h, Written(h, es)) ==> PrevOf(Entries(Written(h, es))) == PrevOf(Session(h, es))
    decreases es, 1
  {
    if es == [] {
      assert Written(h, es) == [];
    } else {
      SessionVerifiesStep(h, es);
    }
  }

  lemma {:induction false} SessionVerifiesStep(h: Text -> Text, es: seq<Entry>)
    requires GoodHash(h) && es != []
    ensures Acceptable(h, Written(h, es)) <==> forall e :: e in es ==> CleanEntry(e)
    ensures Acceptable(h, Written(h, es)) ==> PrevOf(Entries(Written(h, es))) == PrevOf(Session(h, es))
    decreases es, 0
  {
    hide Acceptable, Payload, Clean, CleanEntry, Written, GoodHash, Session, RereadEntry, Sealed, Entries;
    var init, last := es[..|es| - 1], es[|es| - 1];
    var prev := PrevOf(Session(h, init));
    SessionVerifiesIff(h, init);
    SessionStep(h, es);
    WrittenAppend(h, es);
    AcceptableAppend(h, Written(h, init), Parsed(RereadEntry(Sealed(h, prev, last))));
    SealedRereadsIff(h, prev, last);
  }

  /** A file to which two sessions have been appended verifies exactly if one of
      them is empty, because each starts again from the empty hash, and the text of
      the other is valid UTF-8. */
  lemma TwoSessionsVerifyIff(h: Text -> Text, es: seq<Entry>, fs: seq<Entry>)
    requires GoodHash(h)
    ensures Acceptable(h, Written(h, es) + Written(h, fs))
       <==> (es == [] || fs == []) && forall e :: e in es || e in fs ==> CleanEntry(e)
  {
    hide Acceptable, Payload, Clean, CleanEntry, GoodHash, RereadEntry, Entries;
    SessionVerifiesIff(h, es);
    SessionVerifiesIff(h, fs);
    var a, b := Written(h, es), Written(h, fs);
    if es == [] {
      assert a + b == b;
    } else if fs == [] {
      assert a + b == a;
    } else if Acceptable(h, a) {
      SecondSessionBreaks(h, es, fs);
    } else {
      assert (a + b)[..|a|] == a;
      PrefixAcceptable(h, a + b, |a|);
    }
  }

  lemma SecondSessionBreaks(h: Text -> Text, es: seq<Entry>, fs: seq<Entry>)
    requires GoodHash(h) && es != [] && fs != [] && Acceptable(h, Written(h, es))
    ensures !Acceptable(h, Written(h, es) + Written(h, fs))
  {
    hide Acceptable, Payload, Clean, CleanEntry, RereadEntry, Entries, Unbroken, Separable;
    var a, b := Written(h, es), Written(h, fs);
    SessionVerifiesIff(h, es);
    SessionIsUnbroken(h, fs);
    FirstOfSession(h, fs);
    SessionStep(h, es);
    AcceptableAppend(h, a, b[0]);
    assert (a + b)[..|a| + 1] == a + [b[0]];
    PrefixAcceptable(h, a + b, |a| + 1);
  }

  lemma FirstOfSession(h: Text -> Text, fs: seq<Entry>)
    requires GoodHash(h) && fs != []
    ensures Written(h, fs) != [] && Written(h, fs)[0].Parsed? && Written(h, fs)[0].entry.prevHash == []
  {
    SessionIsUnbroken(h, fs);
    var first := Session(h, fs)[0];
    assert first.prevHash == PrevOf(Session(h, fs)[..0]);
  }
}
