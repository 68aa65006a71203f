/** Expansion of a pattern: its single `**` is replaced by an identifier or another pattern. */
module Expansion {
  import opened Identifiers
  import opened Patterns
  import opened Wrappers

  /** Where the `**` components stand. */
  function DoubleStars(cs: Path): seq<nat> {
    if cs == [] then []
    else DoubleStars(cs[..|cs| - 1]) + if cs[|cs| - 1] == "**" then [|cs| - 1] else []
  }

  /** The expansion, by splicing the other's components in place of `**`. */
  function Splice(p: Path, i: nat, o: Path): Path
    requires i < |p|
  {
    p[..i] + o + p[i + 1..]
  }

  ghost predicate OneDoubleStar(p: Path, i: nat) {
    i < |p| && p[i] == "**" && forall j | 0 <= j < |p| && j != i :: p[j] != "**"
  }

  lemma {:induction false} DoubleStarsFound(cs: Path)
    ensures forall i | 0 <= i < |DoubleStars(cs)| :: DoubleStars(cs)[i] < |cs| && cs[DoubleStars(cs)[i]] == "**"
    ensures forall j | 0 <= j < |cs| && cs[j] == "**" :: j in DoubleStars(cs)
    ensures "**" !in cs ==> DoubleStars(cs) == []
  {
    if cs != [] { DoubleStarsFound(cs[..|cs| - 1]); }
  }

  lemma {:induction false} DoubleStarsUnique(cs: Path, i: nat)
    requires OneDoubleStar(cs, i)
    ensures DoubleStars(cs) == [i]
  {
    var n := |cs| - 1;
    DoubleStarsFound(cs[..n]);
    if i == n {
      assert "**" !in cs[..n];
    } else {
      DoubleStarsUnique(cs[..n], i);
    }
  }

  /** One candidate is found exactly when one component is `**`, and it is that one. */
  lemma OneCandidate(cs: Path)
    ensures |DoubleStars(cs)| == 1 ==> OneDoubleStar(cs, DoubleStars(cs)[0])
    ensures forall i: nat | OneDoubleStar(cs, i) :: DoubleStars(cs) == [i]
  {
    DoubleStarsFound(cs);
    forall i: nat | OneDoubleStar(cs, i) ensures DoubleStars(cs) == [i] {
      DoubleStarsUnique(cs, i);
    }
  }

  /** `Some` of the expanded string exactly when the original holds one `**`; the error otherwise. */
  method Replace1(original: string, other: string) returns (r: Option<string>)
    ensures r.Some? <==> exists i: nat :: OneDoubleStar(Split(original), i)
    ensures forall i: nat | OneDoubleStar(Split(original), i) :: r == Some(Join(Split(original)[i := other]))
  {
    var components := Split(original);
    OneCandidate(components);
    var candidates: seq<nat> := [];
    for idx := 0 to |components|
      invariant candidates == DoubleStars(components[..idx])
    {
      assert components[..idx + 1][..idx] == components[..idx];
      if components[idx] == "**" { candidates := candidates + [idx]; }
    }
    assert components[..|components|] == components;
    if |candidates| != 1 { return None; }
    r := Some(Join(components[candidates[0] := other]));
  }

  lemma {:induction false} JoinConcat(a: Path, b: Path)
    requires a != [] && b != []
    ensures Join(a + b) == Join(a) + "/" + Join(b)
  {
    if |a| > 1 {
      assert (a + b)[1..] == a[1..] + b;
      JoinConcat(a[1..], b);
    } else {
      assert (a + b)[1..] == b;
    }
  }

  lemma JoinNestedFirst(m: Path, b: Path)
    requires m != []
    ensures Join([Join(m)] + b) == Join(m + b)
  {
    if b != [] {
      JoinConcat(m, b);
      JoinConcat([Join(m)], b);
    } else {
      assert m + b == m && [Join(m)] + b == [Join(m)];
    }
  }

  /** Joining does not see whether a middle part was joined before. */
  lemma JoinNested(a: Path, m: Path, b: Path)
    requires m != []
    ensures Join(a + [Join(m)] + b) == Join(a + m + b)
  {
    JoinNestedFirst(m, b);
    assert a + [Join(m)] + b == a + ([Join(m)] + b) && a + m + b == a + (m + b);
    if a == [] {
      assert a + ([Join(m)] + b) == [Join(m)] + b && a + (m + b) == m + b;
    } else {
      JoinConcat(a, [Join(m)] + b);
      JoinConcat(a, m + b);
    }
  }

  /** The expanded string is a valid pattern whose components are those of the original with the other's spliced in. */
  lemma ExpansionIsSplice(p: string, i: nat, o: string)
    requires ValidPattern(p) && ValidPattern(o) && OneDoubleStar(Split(p), i)
    ensures var e := Join(Split(p)[i := o]);
            ValidPattern(e) && Split(e) == Splice(Split(p), i, Split(o))
  {
    PatternTokens(p);
    PatternTokens(o);
    var cs, os := Split(p), Split(o);
    assert cs[i := o] == cs[..i] + [Join(os)] + cs[i + 1..];
    JoinNested(cs[..i], os, cs[i + 1..]);
    TokensPattern(Splice(cs, i, os));
  }

  /** An identifier is a valid pattern, so expansion by an identifier is covered too. */
  lemma IdIsPattern(s: string)
    requires ValidId(s)
    ensures ValidPattern(s) && NoStar(Split(s)) && NoDoubleStar(Split(s))
  {
    IdPaths(s);
    SplitOfNonEmptyComponents(s);
    var cs := Split(s);
    forall j | 0 <= j < |cs| ensures !Wildcard(cs[j]) { ComponentIsNoWildcard(cs[j]); }
  }

  lemma SpliceWithoutStar(cs: Path, i: nat, ids: Path)
    requires OneDoubleStar(cs, i) && Tokens(cs) && NoStar(cs)
    requires forall j | 0 <= j < |ids| :: ValidComponent(ids[j])
    ensures forall j | 0 <= j < |Splice(cs, i, ids)| :: ValidComponent(Splice(cs, i, ids)[j])
  {
    hide ValidComponent;
    var s := Splice(cs, i, ids);
    forall j | 0 <= j < |s| ensures ValidComponent(s[j]) {
      if j < i {
        assert s[j] == cs[j] && cs[j] in cs && ValidToken(cs[j]);
      } else if j >= i + |ids| {
        var k := j - |ids| + 1;
        assert s[j] == cs[k] && cs[k] in cs && ValidToken(cs[k]);
      }
    }
  }

  lemma SpliceKeepsStar(cs: Path, i: nat, ids: Path)
    requires OneDoubleStar(cs, i) && !NoStar(cs)
    ensures exists k :: 0 <= k < |Splice(cs, i, ids)| && !ValidComponent(Splice(cs, i, ids)[k])
  {
    var s := Splice(cs, i, ids);
    var j :| 0 <= j < |cs| && cs[j] == "*";
    var k := if j < i then j else j + |ids| - 1;
    assert s[k] == "*";
    if ValidComponent(s[k]) { ComponentIsNoWildcard(s[k]); }
  }

  /** ExpandID does not validate its result, which is a valid identifier exactly when the pattern has no `*`. */
  lemma ExpandIDValid(p: string, i: nat, id: string)
    requires ValidPattern(p) && ValidId(id) && OneDoubleStar(Split(p), i)
    ensures ValidId(Join(Split(p)[i := id])) <==> NoStar(Split(p))
  {
    IdIsPattern(id);
    IdPaths(id);
    PatternTokens(p);
    ExpansionIsSplice(p, i, id);
    var e := Join(Split(p)[i := id]);
    TokensAreSlashFree(SplitSlash(e));
    SplitOfNonEmptyComponents(e);
    hide SplitSlash, Split, Join, Splice, ValidComponent, OneDoubleStar, Wildcard;
    if NoStar(Split(p)) {
      SpliceWithoutStar(Split(p), i, Split(id));
    } else {
      SpliceKeepsStar(Split(p), i, Split(id));
    }
  }

  // ----- the algebra of expansion -----

  /** Where in the expanded pattern the inner pattern's `**` went. */
  lemma SpliceKeepsOneDoubleStar(p: Path, i: nat, o: Path, j: nat)
    requires OneDoubleStar(p, i) && OneDoubleStar(o, j)
    ensures OneDoubleStar(Splice(p, i, o), i + j)
  {
  }

  /** Expanding by a pattern and then by a third is expanding by their expansion. */
  lemma SpliceAssociative(p: Path, i: nat, o: Path, j: nat, r: Path)
    requires OneDoubleStar(p, i) && OneDoubleStar(o, j)
    ensures Splice(Splice(p, i, o), i + j, r) == Splice(p, i, Splice(o, j, r))
  {
    var e := Splice(p, i, o);
    assert e[..i + j] == p[..i] + o[..j];
    assert e[i + j + 1..] == o[j + 1..] + p[i + 1..];
  }

  lemma SameTokensSamePattern(a: string, b: string)
    requires ValidPattern(a) && ValidPattern(b) && Split(a) == Split(b)
    ensures a == b
  {
    PatternTokens(a);
    PatternTokens(b);
  }

  lemma ExpandTwice(p: string, i: nat, o: string, j: nat, r: string)
    requires ValidPattern(p) && ValidPattern(o) && ValidPattern(r)
    requires OneDoubleStar(Split(p), i) && OneDoubleStar(Split(o), j)
    ensures var e := Join(Split(p)[i := o]);
            && OneDoubleStar(Split(e), i + j) && ValidPattern(Join(Split(e)[i + j := r]))
            && Split(Join(Split(e)[i + j := r])) == Splice(Splice(Split(p), i, Split(o)), i + j, Split(r))
  {
    ExpansionIsSplice(p, i, o);
    SpliceKeepsOneDoubleStar(Split(p), i, Split(o), j);
    ExpansionIsSplice(Join(Split(p)[i := o]), i + j, r);
  }

  lemma ExpandByExpansion(p: string, i: nat, o: string, j: nat, r: string)
    requires ValidPattern(p) && ValidPattern(o) && ValidPattern(r)
    requires OneDoubleStar(Split(p), i) && OneDoubleStar(Split(o), j)
    ensures var inner := Join(Split(o)[j := r]);
            && ValidPattern(Join(Split(p)[i := inner]))
            && Split(Join(Split(p)[i := inner])) == Splice(Split(p), i, Splice(Split(o), j, Split(r)))
  {
    ExpansionIsSplice(o, j, r);
    ExpansionIsSplice(p, i, Join(Split(o)[j := r]));
  }

  /** At the level of the strings the code handles, expansion is associative. */
  lemma ExpansionAssociative(p: string, i: nat, o: string, j: nat, r: string)
    requires ValidPattern(p) && ValidPattern(o) && ValidPattern(r)
    requires OneDoubleStar(Split(p), i) && OneDoubleStar(Split(o), j)
    ensures var e := Join(Split(p)[i := o]);
            && OneDoubleStar(Split(e), i + j)
            && Join(Split(e)[i + j := r]) == Join(Split(p)[i := Join(Split(o)[j := r])])
  {
    ExpandTwice(p, i, o, j, r);
    ExpandByExpansion(p, i, o, j, r);
    SpliceAssociative(Split(p), i, Split(o), j, Split(r));
    var e := Join(Split(p)[i := o]);
    SameTokensSamePattern(Join(Split(e)[i + j := r]), Join(Split(p)[i := Join(Split(o)[j := r])]));
  }

  /** `**` is the unit of expansion on both sides. */
  lemma ExpansionUnit(p: string, i: nat, o: string)
    requires ValidPattern(p) && ValidPattern(o) && OneDoubleStar(Split(p), i)
    ensures Join(Split(p)[i := "**"]) == p
    ensures OneDoubleStar(Split("**"), 0) && Join(Split("**")[0 := o]) == o
  {
    PatternTokens(p);
    assert Split(p)[i := "**"] == Split(p);
    TokensPattern(["**"]);
    assert Join(["**"]) == "**" && ["**"][0 := o] == [o];
  }

  /** Any matching of `b` extends by a common front that takes itself. */
  lemma {:induction false} MatchesUnderPrefix(a: Path, b: Path, path: Path)
    requires Matches(b, path)
    ensures Matches(a + b, a + path)
  {
    if a == [] {
      assert a + b == b && a + path == path;
    } else {
      MatchesUnderPrefix(a[1..], b, path);
      assert (a + b)[1..] == a[1..] + b && (a + path)[1..] == a[1..] + path;
      if a[0] == "**" {
        assert Matches(a + b, (a + path)[1..]);
      }
    }
  }

  lemma MatchesItself(a: Path)
    ensures Matches(a, a)
  {
    MatchesUnderPrefix(a, [], []);
    assert a + [] == a;
  }

  lemma {:induction false} MatchesConcat(a: Path, b: Path, path: Path) returns (k: nat)
    requires Matches(a + b, path)
    ensures k <= |path| && Matches(a, path[..k]) && Matches(b, path[k..])
    decreases |a|, |path|
  {
    if a == [] {
      k := 0;
      assert a + b == b && path[0..] == path && path[..0] == [];
    } else {
      assert (a + b)[1..] == a[1..] + b;
      if a[0] == "**" && Matches(a[1..] + b, path) {
        k := MatchesConcat(a[1..], b, path);
      } else if a[0] == "**" {
        var k' := MatchesConcat(a, b, path[1..]);
        k := k' + 1;
        assert path[..k][1..] == path[1..][..k'] && path[1..][k'..] == path[k..];
      } else {
        var k' := MatchesConcat(a[1..], b, path[1..]);
        k := k' + 1;
        assert path[..k][1..] == path[1..][..k'] && path[1..][k'..] == path[k..];
      }
    }
  }

  lemma {:induction false} ConcatMatches(a: Path, b: Path, u: Path, v: Path)
    requires Matches(a, u) && Matches(b, v)
    ensures Matches(a + b, u + v)
    decreases |a|, |u|
  {
    if a == [] {
      assert a + b == b && u + v == v;
    } else {
      assert (a + b)[1..] == a[1..] + b;
      if a[0] == "**" && Matches(a[1..], u) {
        ConcatMatches(a[1..], b, u, v);
      } else {
        assert (u + v)[1..] == u[1..] + v;
        ConcatMatches(if a[0] == "**" then a else a[1..], b, u[1..], v);
      }
    }
  }

  /** The part of the pattern from its `**` on takes any run followed by what the rest takes. */
  lemma DoubleStarTakes(p: Path, i: nat, run: Path, rest: Path)
    requires OneDoubleStar(p, i) && Matches(p[i + 1..], rest)
    ensures Matches(p[i..], run + rest)
  {
    assert p[i..][1..] == p[i + 1..] && (run + rest)[|run|..] == rest;
    DoubleStarAbsorbs(p[i..], run + rest, |run|);
  }

  /** The pattern with `**` includes each of its expansions, whatever the expansion holds. */
  lemma PatternIncludesExpansion(p: Path, i: nat, o: Path)
    requires OneDoubleStar(p, i)
    ensures Matches(p, Splice(p, i, o))
  {
    MatchesItself(p[..i]);
    MatchesItself(p[i + 1..]);
    DoubleStarTakes(p, i, o, p[i + 1..]);
    ConcatMatches(p[..i], p[i..], p[..i], o + p[i + 1..]);
    assert p == p[..i] + p[i..] && Splice(p, i, o) == p[..i] + (o + p[i + 1..]);
  }

  /** Every identifier an expansion matches is matched by the pattern it came from. */
  lemma ExpansionNarrows(p: Path, i: nat, o: Path)
    requires OneDoubleStar(p, i)
    ensures Included(Splice(p, i, o), p)
  {
    forall w: Path | ValidPath(w) && Matches(Splice(p, i, o), w) ensures Matches(p, w) {
      assert Splice(p, i, o) == p[..i] + (o + p[i + 1..]);
      var k := MatchesConcat(p[..i], o + p[i + 1..], w);
      var m := MatchesConcat(o, p[i + 1..], w[k..]);
      DoubleStarTakes(p, i, w[k..][..m], w[k..][m..]);
      assert w[k..][..m] + w[k..][m..] == w[k..];
      ConcatMatches(p[..i], p[i..], w[..k], w[k..]);
      assert p == p[..i] + p[i..] && w == w[..k] + w[k..];
    }
  }
}
