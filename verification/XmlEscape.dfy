/** XML escaping, against a decoder of the predefined entities of section 4.6 of XML 1.0. */
module XmlEscape {
  import opened Common
  import opened Text

  /** Five whole-string replacements, the ampersand first. */
  function Escape(s: string): string {
    var s1 := ReplaceAll(s, "&", "&amp;");
    var s2 := ReplaceAll(s1, "<", "&lt;");
    var s3 := ReplaceAll(s2, ">", "&gt;");
    var s4 := ReplaceAll(s3, "'", "&apos;");
    ReplaceAll(s4, "\"", "&quot;")
  }

  function Entity(c: char): string {
    if c == '&' then "&amp;"
    else if c == '<' then "&lt;"
    else if c == '>' then "&gt;"
    else if c == '\'' then "&apos;"
    else if c == '"' then "&quot;"
    else [c]
  }

  /** The same in one pass, character by character. */
  function EscapeOnce(s: string): string {
    if s == "" then "" else Entity(s[0]) + EscapeOnce(s[1..])
  }

  /** The replacements as single-character substitutions. */
  function Layers(s: string): string {
    Subst(Subst(Subst(Subst(Subst(s, '&', "&amp;"), '<', "&lt;"), '>', "&gt;"), '\'', "&apos;"), '"', "&quot;")
  }

  lemma EscapeIsLayers(s: string)
    ensures Escape(s) == Layers(s)
  {
    hide ReplaceAll, Subst;
    ReplaceAllIsSubst(s, '&', "&amp;");
    var s1 := Subst(s, '&', "&amp;");
    ReplaceAllIsSubst(s1, '<', "&lt;");
    var s2 := Subst(s1, '<', "&lt;");
    ReplaceAllIsSubst(s2, '>', "&gt;");
    var s3 := Subst(s2, '>', "&gt;");
    ReplaceAllIsSubst(s3, '\'', "&apos;");
    var s4 := Subst(s3, '\'', "&apos;");
    ReplaceAllIsSubst(s4, '"', "&quot;");
  }

  lemma LayersConcat(s: string, t: string)
    ensures Layers(s + t) == Layers(s) + Layers(t)
  {
    hide Subst;
    SubstConcat(s, t, '&', "&amp;");
    var s1, t1 := Subst(s, '&', "&amp;"), Subst(t, '&', "&amp;");
    SubstConcat(s1, t1, '<', "&lt;");
    var s2, t2 := Subst(s1, '<', "&lt;"), Subst(t1, '<', "&lt;");
    SubstConcat(s2, t2, '>', "&gt;");
    var s3, t3 := Subst(s2, '>', "&gt;"), Subst(t2, '>', "&gt;");
    SubstConcat(s3, t3, '\'', "&apos;");
    SubstConcat(Subst(s3, '\'', "&apos;"), Subst(t3, '\'', "&apos;"), '"', "&quot;");
  }

  /** Text without the character is left alone. */
  lemma {:induction false} SubstLeaves(s: string, c: char, sub: string)
    requires c !in s
    ensures Subst(s, c, sub) == s
  {
    if s != "" {
      SubstLeaves(s[1..], c, sub);
      assert s == [s[0]] + s[1..];
    }
  }

  /** One character, whether special or not, comes out of all five replacements as its entity. */
  lemma LayersOfChar(c: char)
    ensures Layers([c]) == Entity(c)
  {
    hide Subst;
    var e := Entity(c);
    SubstOfChar(c, '&', "&amp;");
    SubstOfChar(c, '<', "&lt;");
    SubstOfChar(c, '>', "&gt;");
    SubstOfChar(c, '\'', "&apos;");
    SubstOfChar(c, '"', "&quot;");
    if |e| > 1 {
      SubstLeaves(e, '<', "&lt;");
      SubstLeaves(e, '>', "&gt;");
      SubstLeaves(e, '\'', "&apos;");
      SubstLeaves(e, '"', "&quot;");
    }
  }

  lemma SubstOfChar(c: char, d: char, sub: string)
    ensures Subst([c], d, sub) == if c == d then sub else [c]
  {
    assert [c][1..] == "" && Subst("", d, sub) == "";
  }

  /** The five successive replacements are one character-by-character pass: no
      replacement touches what an earlier one put in. */
  lemma {:induction false} EscapeIsOnePass(s: string)
    ensures Escape(s) == EscapeOnce(s)
  {
    EscapeIsLayers(s);
    if s == "" {
      assert Subst("", '&', "&amp;") == "";
    } else {
      EscapeIsOnePass(s[1..]);
      EscapeIsLayers(s[1..]);
      assert s == [s[0]] + s[1..];
      LayersConcat([s[0]], s[1..]);
      LayersOfChar(s[0]);
    }
  }

  // ---- Decoding ----

  predicate Markup(c: char) {
    c == '<' || c == '>' || c == '\'' || c == '"'
  }

  /** Reads text in which markup characters occur only as predefined entities;
      None if a markup character or any other ampersand occurs. */
  function Decode(s: string): Option<string> {
    if s == "" then Some("")
    else if Markup(s[0]) then None
    else if s[0] != '&' then Prepend(s[0], Decode(s[1..]))
    else if "&amp;" <= s then Prepend('&', Decode(s[5..]))
    else if "&lt;" <= s then Prepend('<', Decode(s[4..]))
    else if "&gt;" <= s then Prepend('>', Decode(s[4..]))
    else if "&apos;" <= s then Prepend('\'', Decode(s[6..]))
    else if "&quot;" <= s then Prepend('"', Decode(s[6..]))
    else None
  }

  function Prepend(c: char, r: Option<string>): Option<string> {
    if r.Some? then Some([c] + r.value) else None
  }

  lemma DecodeEntity(c: char, t: string)
    ensures Decode(Entity(c) + t) == Prepend(c, Decode(t))
  {
    var e := Entity(c);
    var s := e + t;
    assert s[|e|..] == t && e <= s;
    if |e| > 1 {
      assert s[1] == e[1] && s[2] == e[2];
      assert c != '&' ==> !("&amp;" <= s) by { if "&amp;" <= s { assert s[2] == 'm'; } }
      assert c != '<' ==> !("&lt;" <= s) by { if "&lt;" <= s { assert s[1] == 'l'; } }
      assert c != '>' ==> !("&gt;" <= s) by { if "&gt;" <= s { assert s[1] == 'g'; } }
      assert c != '\'' ==> !("&apos;" <= s) by { if "&apos;" <= s { assert s[2] == 'p'; } }
    }
  }

  /** Decoding returns the original string: the output is well formed text, with
      no raw markup character and no ampersand outside an entity, and no two
      strings share it. */
  lemma {:induction false} EscapeRoundTrip(s: string)
    ensures Decode(Escape(s)) == Some(s)
  {
    EscapeIsOnePass(s);
    if s != "" {
      EscapeRoundTrip(s[1..]);
      EscapeIsOnePass(s[1..]);
      DecodeEntity(s[0], EscapeOnce(s[1..]));
      assert s == [s[0]] + s[1..];
    }
  }

  /** What decodes contains no raw markup character. */
  lemma {:induction false} DecodableHasNoMarkup(s: string, i: nat)
    requires Decode(s).Some? && i < |s|
    ensures !Markup(s[i])
  {
    var n := if s[0] != '&' then 1
             else if "&amp;" <= s then 5 else if "&lt;" <= s || "&gt;" <= s then 4 else 6;
    if i >= n {
      DecodableHasNoMarkup(s[n..], i - n);
      assert s[n..][i - n] == s[i];
    }
  }

  predicate StartsEntity(s: string) {
    "&amp;" <= s || "&lt;" <= s || "&gt;" <= s || "&apos;" <= s || "&quot;" <= s
  }

  /** In what decodes, every ampersand starts a predefined entity. */
  lemma {:induction false} AmpersandsStartEntities(s: string, i: nat)
    requires Decode(s).Some? && i < |s| && s[i] == '&'
    ensures StartsEntity(s[i..])
  {
    var n := if s[0] != '&' then 1
             else if "&amp;" <= s then 5 else if "&lt;" <= s || "&gt;" <= s then 4 else 6;
    if i == 0 {
      assert s[0..] == s;
    } else if i >= n {
      assert s[n..][i - n] == s[i] && s[n..][i - n..] == s[i..];
      AmpersandsStartEntities(s[n..], i - n);
    }
  }

  /** The output as XML 1.0 wants it: no raw markup character, and no ampersand
      but at the start of a predefined entity. */
  lemma EscapedIsWellFormed(s: string, i: nat)
    requires i < |Escape(s)|
    ensures !Markup(Escape(s)[i]) && (Escape(s)[i] == '&' ==> StartsEntity(Escape(s)[i..]))
  {
    hide Escape;
    EscapeRoundTrip(s);
    DecodableHasNoMarkup(Escape(s), i);
    if Escape(s)[i] == '&' { AmpersandsStartEntities(Escape(s), i); }
  }

  lemma EscapeIsInjective(s: string, t: string)
    requires Escape(s) == Escape(t)
    ensures s == t
  {
    EscapeRoundTrip(s);
    EscapeRoundTrip(t);
  }
}
