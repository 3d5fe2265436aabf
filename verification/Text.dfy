/** Whole-string replacement, as both escaping functions use it. */
module Text {

  /** Replaces every occurrence of `pat`, from left to right and without overlap. */
  function ReplaceAll(s: string, pat: string, sub: string): string
    requires pat != ""
  {
    if |s| < |pat| then s
    else if s[..|pat|] == pat then sub + ReplaceAll(s[|pat|..], pat, sub)
    else [s[0]] + ReplaceAll(s[1..], pat, sub)
  }

  /** Replaces one character by a string. */
  function Subst(s: string, c: char, sub: string): string {
    if s == "" then "" else (if s[0] == c then sub else [s[0]]) + Subst(s[1..], c, sub)
  }

  lemma {:induction false} ReplaceAllIsSubst(s: string, c: char, sub: string)
    ensures ReplaceAll(s, [c], sub) == Subst(s, c, sub)
  {
    if s != "" {
      ReplaceAllIsSubst(s[1..], c, sub);
    }
  }

  lemma {:induction false} SubstConcat(s: string, t: string, c: char, sub: string)
    ensures Subst(s + t, c, sub) == Subst(s, c, sub) + Subst(t, c, sub)
  {
    if s == "" {
      assert s + t == t;
    } else {
      assert (s + t)[1..] == s[1..] + t;
      SubstConcat(s[1..], t, c, sub);
    }
  }
}
