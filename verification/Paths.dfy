/** Slash-separated absolute paths: joining, cleaning and the containment test. */
module Paths {

  /** The names from the root down. */
  type Path = seq<string>

  predicate SlashFree(c: string) { '/' !in c }

  /** A name that cleaning leaves alone. */
  predicate Plain(c: string) {
    c != "" && c != "." && c != ".." && SlashFree(c)
  }

  ghost predicate Normal(p: Path) {
    forall c :: c in p ==> Plain(c)
  }

  /** Every name preceded by a slash. */
  function Slashed(p: Path): string {
    if p == [] then "" else "/" + p[0] + Slashed(p[1..])
  }

  function Render(p: Path): string {
    if p == [] then "/" else Slashed(p)
  }

  function Split(s: string): (r: seq<string>)
    ensures r != []
  {
    if s == "" then [""]
    else
      var rest := Split(s[1..]);
      if s[0] == '/' then [""] + rest else [[s[0]] + rest[0]] + rest[1..]
  }

  /** Follows names from a directory, as cleaning an absolute path does. */
  function Follow(p: Path, names: seq<string>): Path
    decreases names
  {
    if names == [] then p
    else if names[0] == "" || names[0] == "." then Follow(p, names[1..])
    else if names[0] == ".." then Follow(if p == [] then p else p[..|p| - 1], names[1..])
    else Follow(p + [names[0]], names[1..])
  }

  /** Joining a relative path, however odd, to a directory and cleaning the result. */
  function Join(dst: Path, rel: string): Path {
    Follow(dst, Split(rel))
  }

  /** The textual test that a target stays below a directory. */
  predicate Inside(dst: Path, target: Path) {
    Render(dst) + "/" <= Render(target) + "/"
  }

  // ---- Joining yields clean paths ----

  lemma {:induction false} SplitIsSlashFree(s: string)
    ensures forall c :: c in Split(s) ==> SlashFree(c)
  {
    if s != "" {
      SplitIsSlashFree(s[1..]);
      var rest := Split(s[1..]);
      forall c | c in Split(s) ensures SlashFree(c) {
        if s[0] != '/' && c == [s[0]] + rest[0] {
          assert rest[0] in rest;
        } else if c != "" {
          assert c in rest;
        }
      }
    }
  }

  lemma {:induction false} FollowIsNormal(p: Path, names: seq<string>)
    requires Normal(p) && forall c :: c in names ==> SlashFree(c)
    ensures Normal(Follow(p, names))
    decreases names
  {
    if names != [] {
      var rest := names[1..];
      assert SlashFree(names[0]) by { assert names[0] in names; }
      if names[0] == "" || names[0] == "." {
        FollowIsNormal(p, rest);
      } else if names[0] == ".." {
        FollowIsNormal(if p == [] then p else p[..|p| - 1], rest);
      } else {
        FollowIsNormal(p + [names[0]], rest);
      }
    }
  }

  lemma JoinIsNormal(dst: Path, rel: string)
    requires Normal(dst)
    ensures Normal(Join(dst, rel))
  {
    SplitIsSlashFree(rel);
    FollowIsNormal(dst, Split(rel));
  }

  // ---- The textual test is containment ----

  lemma {:induction false} SlashedConcat(p: Path, q: Path)
    ensures Slashed(p + q) == Slashed(p) + Slashed(q)
  {
    if p == [] {
      assert p + q == q;
    } else {
      assert (p + q)[1..] == p[1..] + q;
      SlashedConcat(p[1..], q);
    }
  }

  /** A slash-free name is cut off by the first slash after it. */
  lemma NamesAgree(c: string, s: string, d: string, t: string)
    requires SlashFree(c) && SlashFree(d) && s != "" && t != "" && s[0] == t[0] == '/'
    requires c + s <= d + t
    ensures c == d && s <= t
  {
    var a, b := c + s, d + t;
    assert b[|c|] == a[|c|] == '/';
    forall i | 0 <= i < |d| ensures b[i] != '/' { assert b[i] == d[i] && d[i] in d; }
    assert |d| <= |c|;
    forall i | 0 <= i < |c| ensures b[i] != '/' { assert b[i] == a[i] == c[i] && c[i] in c; }
    assert b[|d|] == '/';
    assert c == b[..|c|] == b[..|d|] == d;
    assert s == a[|c|..] && t == b[|c|..];
    assert a[|c|..] <= b[|c|..];
  }

  lemma {:induction false} SlashedPrefix(d: Path, t: Path)
    requires Normal(d) && Normal(t) && Slashed(d) + "/" <= Slashed(t) + "/"
    ensures d <= t
  {
    if d != [] {
      var x, y := Slashed(d[1..]) + "/", Slashed(t) + "/";
      assert Plain(d[0]) by { assert d[0] in d; }
      assert Slashed(d) + "/" == "/" + (d[0] + x);
      assert |y| >= 3;
      assert t != [];
      assert Plain(t[0]) by { assert t[0] in t; }
      var z := Slashed(t[1..]) + "/";
      assert y == "/" + (t[0] + z);
      assert d[0] + x == (Slashed(d) + "/")[1..] && t[0] + z == y[1..];
      assert x[0] == '/' && z[0] == '/';
      NamesAgree(d[0], x, t[0], z);
      SlashedPrefix(d[1..], t[1..]);
      assert d == [d[0]] + d[1..] && t == [t[0]] + t[1..];
    }
  }

  /** The test holds exactly for targets at or below the directory, which no
      sibling with a longer name passes; only the root admits nothing but itself. */
  lemma InsideIsContainment(dst: Path, target: Path)
    requires Normal(dst) && Normal(target)
    ensures Inside(dst, target) <==> if dst == [] then target == [] else dst <= target
  {
    if dst == [] {
      if target != [] {
        assert Plain(target[0]) by { assert target[0] in target; }
        var s := Render(target) + "/";
        assert s[1] == target[0][0] && target[0][0] in target[0];
        assert (Render(dst) + "/")[1] == '/';
      }
    } else {
      if target == [] {
        assert Plain(dst[0]) by { assert dst[0] in dst; }
        assert |Render(dst) + "/"| >= 3;
      } else if Inside(dst, target) {
        SlashedPrefix(dst, target);
      }
      if dst <= target {
        var rest := target[|dst|..];
        assert target == dst + rest;
        SlashedConcat(dst, rest);
        assert rest != [] ==> Slashed(rest)[0] == '/';
      }
    }
  }

  // ---- Clean relative paths survive rendering ----

  lemma {:induction false} SplitName(c: string, p: Path)
    requires SlashFree(c) && Normal(p)
    ensures Split(c + Slashed(p)) == [c] + p
    decreases |p|, |c|
  {
    var s := c + Slashed(p);
    if c != "" {
      assert s[1..] == c[1..] + Slashed(p);
      assert c[0] in c;
      assert SlashFree(c[1..]);
      SplitName(c[1..], p);
      assert [c[0]] + c[1..] == c;
    } else if p != [] {
      assert Plain(p[0]) by { assert p[0] in p; }
      assert s[1..] == p[0] + Slashed(p[1..]);
      SplitName(p[0], p[1..]);
      assert p == [p[0]] + p[1..];
    }
  }

  lemma {:induction false} FollowNormal(p: Path, q: Path)
    requires Normal(q)
    ensures Follow(p, q) == p + q
    decreases q
  {
    if q != [] {
      assert Plain(q[0]) by { assert q[0] in q; }
      FollowNormal(p + [q[0]], q[1..]);
      assert p + [q[0]] + q[1..] == p + q;
    }
  }

  /** A clean relative path, written with slashes and joined, is appended name by name. */
  lemma JoinOfRelative(dst: Path, rel: Path)
    requires Normal(rel) && rel != []
    ensures Join(dst, Slashed(rel)[1..]) == dst + rel
  {
    assert Plain(rel[0]) by { assert rel[0] in rel; }
    assert Slashed(rel)[1..] == rel[0] + Slashed(rel[1..]);
    SplitName(rel[0], rel[1..]);
    assert rel == [rel[0]] + rel[1..];
    FollowNormal(dst, rel);
  }

  /** A name without slashes leads below the directory exactly if it is plain; the
      others lead to the directory itself or to the one above it. */
  lemma NameLeadsBelowIff(dst: Path, name: string)
    requires SlashFree(name)
    ensures Join(dst, name) ==
            if Plain(name) then dst + [name] else if name == ".." && dst != [] then dst[..|dst| - 1] else dst
    ensures dst < Join(dst, name) <==> Plain(name)
  {
    SplitName(name, []);
    assert name + Slashed([]) == name && [name] + [] == [name];
    var names := [name];
    assert names[1..] == [];
    assert Plain(name) ==> Follow(dst, names) == Follow(dst + [name], []);
  }
}
