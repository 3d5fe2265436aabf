/** A hash that meets the requirements of the audit chain. */
module AuditExample {
  import opened Common
  import opened AuditChain

  /** Two plain characters for each unit, neither of them a bar. */
  function Code(u: Unit): Text {
    match u
    case Rune(c) => if c == '|' then [Rune('b'), Rune('b')] else [Rune('r'), Rune(c)]
    case Stray(b) => [Rune('s'), Rune((b + 256) as char)]
  }

  function Spell(t: Text): Text {
    if t == [] then [] else Code(t[0]) + Spell(t[1..])
  }

  function SpellingHash(t: Text): Text {
    [Rune('h')] + Spell(t)
  }

  lemma CodeIsInjective(u: Unit, v: Unit)
    requires Code(u) == Code(v)
    ensures u == v
  {
    assert Code(u)[0] == Code(v)[0] && Code(u)[1] == Code(v)[1];
    if u.Stray? && v.Stray? {
      var c, d := (u.b + 256) as char, (v.b + 256) as char;
      assert c as int == u.b + 256 && d as int == v.b + 256;
    }
  }

  lemma {:induction false} SpellIsInjective(s: Text, t: Text)
    requires Spell(s) == Spell(t)
    ensures s == t
  {
    if s != [] && t != [] {
      assert Spell(s)[..2] == Code(s[0]) && Spell(s)[2..] == Spell(s[1..]);
      assert Spell(t)[..2] == Code(t[0]) && Spell(t)[2..] == Spell(t[1..]);
      CodeIsInjective(s[0], t[0]);
      SpellIsInjective(s[1..], t[1..]);
      assert s == [s[0]] + s[1..] && t == [t[0]] + t[1..];
    } else {
      assert s != [] ==> |Spell(s)| >= 2;
      assert t != [] ==> |Spell(t)| >= 2;
    }
  }

  lemma {:induction false} SpellIsPlain(t: Text)
    ensures BarFree(Spell(t)) && Clean(Spell(t))
  {
    if t != [] {
      SpellIsPlain(t[1..]);
      forall u | u in Code(t[0]) ensures u.Rune? && u != BAR { CodeIsPlain(t[0], u); }
    }
  }

  lemma CodeIsPlain(v: Unit, u: Unit)
    requires u in Code(v)
    ensures u.Rune? && u != BAR
  {
    if v.Stray? {
      assert ((v.b + 256) as char) as int == v.b + 256;
    }
  }

  /** What is asked of the hash can be met. */
  lemma SpellingIsAGoodHash()
    ensures GoodHash(SpellingHash)
  {
    forall p, q | SpellingHash(p) == SpellingHash(q) ensures p == q {
      assert SpellingHash(p)[1..] == Spell(p) && SpellingHash(q)[1..] == Spell(q);
      SpellIsInjective(p, q);
    }
    forall p ensures SpellingHash(p) != [] && BarFree(SpellingHash(p)) && Clean(SpellingHash(p)) {
      SpellIsPlain(p);
    }
  }
}
