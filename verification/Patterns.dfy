/** Patterns over secret identifiers: validity, matching, inclusion, overlap and expansion. */
module Patterns {
  import opened Identifiers
  import opened Wrappers

  predicate Wildcard(t: string) { t == "*" || t == "**" }

  predicate ValidToken(t: string) { Wildcard(t) || ValidComponent(t) }

  predicate Tokens(p: Path) {
    forall i | 0 <= i < |p| :: ValidToken(p[i])
  }

  /** The component lists a valid pattern splits into. */
  predicate ValidTokens(p: Path) { p != [] && Tokens(p) }

  predicate NoStar(p: Path) { "*" !in p }

  predicate NoDoubleStar(p: Path) { "**" !in p }

  /** A valid component is never a wildcard, since no identifier contains `*`. */
  lemma ComponentIsNoWildcard(c: string)
    requires ValidComponent(c)
    ensures !Wildcard(c)
  {
    assert IsValidRune(c[0]);
  }

  // ----- the language of a pattern -----

  /** Every valid path matched by `o` is matched by `p`. */
  ghost predicate Included(o: Path, p: Path) {
    forall w: Path | ValidPath(w) && Matches(o, w) :: Matches(p, w)
  }

  /** Some valid path is matched by both. */
  ghost predicate Overlap(p: Path, o: Path) {
    exists w: Path :: ValidPath(w) && Matches(p, w) && Matches(o, w)
  }

  // ----- a component a pattern does not mention -----

  function MaxLength(p: Path): (n: nat)
    ensures forall i | 0 <= i < |p| :: |p[i]| <= n
  {
    if p == [] then 0 else var n := MaxLength(p[1..]); if |p[0]| > n then |p[0]| else n
  }

  /** A well-formed component longer than any of `p`, so `p` has no literal equal to it. */
  function Fresh(p: Path): (x: string)
    ensures ValidComponent(x) && x !in p
  {
    var x := seq(MaxLength(p) + 1, _ => 'x');
    assert forall i | 0 <= i < |p| :: p[i] != x;
    x
  }

  /** `o` with every `*` turned into a component that `p` does not mention; `**` is kept. */
  function Freshen(o: Path, x: string): (r: Path)
    ensures |r| == |o| && forall i | 0 <= i < |o| :: r[i] == if o[i] == "*" then x else o[i]
  {
    if o == [] then [] else [if o[0] == "*" then x else o[0]] + Freshen(o[1..], x)
  }

  /** One identifier of the language of `o`: every wildcard takes the single component `x`. */
  function Instance(o: Path, x: string): (w: Path)
    ensures |w| == |o| && forall i | 0 <= i < |o| :: w[i] == if Wildcard(o[i]) then x else o[i]
  {
    if o == [] then [] else [if Wildcard(o[0]) then x else o[0]] + Instance(o[1..], x)
  }

  lemma InstanceIsValid(o: Path, x: string)
    requires ValidTokens(o) && ValidComponent(x)
    ensures ValidPath(Instance(o, x))
  {
  }

  lemma {:induction false} InstanceIsMatched(o: Path, x: string)
    ensures Matches(o, Instance(o, x))
  {
    if o != [] {
      var w := Instance(o, x);
      InstanceIsMatched(o[1..], x);
      assert w[1..] == Instance(o[1..], x);
      if o[0] == "**" { assert Matches(o, w[1..]); }
    }
  }

  // ----- completeness of Includes, for all patterns -----

  /**
    Where `u` holds a component `p` does not mention, only wildcards of `p` took it, so `v` may hold anything there.
  */
  lemma {:induction false} Relabel(p: Path, u: Path, v: Path, x: string)
    requires |u| == |v| && x !in p && x != "*" && !Wildcard(x)
    requires forall i | 0 <= i < |u| :: v[i] == u[i] || u[i] == x
    requires Matches(p, u)
    ensures Matches(p, v)
    decreases |p|, |u|
  {
    if p != [] {
      assert p[0] != x;
      if p[0] == "**" && Matches(p[1..], u) {
        Relabel(p[1..], u, v, x);
      } else if p[0] == "**" {
        Relabel(p, u[1..], v[1..], x);
      } else {
        Relabel(p[1..], u[1..], v[1..], x);
      }
    }
  }

  /** Inclusion of languages always makes the code answer yes, also after every `*` of `o` is made fresh. */
  lemma InclusionIsReported(p: Path, o: Path)
    requires ValidTokens(o) && Included(o, p)
    ensures Matches(p, o) && Matches(p, Freshen(o, Fresh(p)))
  {
    var x := Fresh(p);
    var w := Instance(o, x);
    InstanceIsValid(o, x);
    InstanceIsMatched(o, x);
    ComponentIsNoWildcard(x);
    Relabel(p, w, o, x);
    Relabel(p, w, Freshen(o, x), x);
  }

  // ----- soundness of Includes -----

  /** `**` may always take a longer run. */
  lemma {:induction false} DoubleStarAbsorbs(p: Path, w: Path, k: nat)
    requires p != [] && p[0] == "**" && k <= |w| && Matches(p, w[k..])
    ensures Matches(p, w)
    decreases k
  {
    if k == 0 {
      assert w[0..] == w;
    } else {
      assert w[1..][k - 1..] == w[k..];
      DoubleStarAbsorbs(p, w[1..], k - 1);
    }
  }

  /** Matching in which `*` takes no `**`, and a literal takes only its equal. */
  predicate StrictMatches(p: Path, o: Path)
    decreases |p|, |o|
  {
    if p == [] then o == []
    else if p[0] == "**" then
      StrictMatches(p[1..], o) || (o != [] && StrictMatches(p, o[1..]))
    else
      o != [] && (if p[0] == "*" then o[0] != "**" else o[0] == p[0]) && StrictMatches(p[1..], o[1..])
  }

  /** What `p` strictly takes of `o` it takes of everything `o` matches. */
  lemma {:induction false} StrictIsSound(p: Path, o: Path, w: Path)
    requires StrictMatches(p, o) && Matches(o, w)
    ensures Matches(p, w)
    decreases |p|, |o|
  {
    if p != [] {
      if p[0] == "**" && StrictMatches(p[1..], o) {
        StrictIsSound(p[1..], o, w);
      } else if p[0] == "**" {
        if o[0] == "**" {
          DoubleStarSkips(o, w);
          var k :| 0 <= k <= |w| && Matches(o[1..], w[k..]);
          StrictIsSound(p, o[1..], w[k..]);
          DoubleStarAbsorbs(p, w, k);
        } else {
          StrictIsSound(p, o[1..], w[1..]);
        }
      } else {
        StrictIsSound(p[1..], o[1..], w[1..]);
      }
    }
  }

  /** On the fragment, the code run on the freshened pattern computes the strict relation. */
  lemma {:induction false} FreshenedIsStrict(p: Path, o: Path, x: string)
    requires NoStar(p) || NoDoubleStar(o)
    requires x !in p && !Wildcard(x)
    requires Matches(p, Freshen(o, x))
    ensures StrictMatches(p, o)
    decreases |p|, |o|
  {
    var f := Freshen(o, x);
    if p != [] {
      assert p[0] in p;
      assert o != [] ==> o[0] in o && f[1..] == Freshen(o[1..], x);
      if p[0] == "**" && Matches(p[1..], f) {
        FreshenedIsStrict(p[1..], o, x);
      } else if p[0] == "**" {
        FreshenedIsStrict(p, o[1..], x);
      } else {
        FreshenedIsStrict(p[1..], o[1..], x);
      }
    }
  }

  /** A strict match is a match, so the strict relation, inclusion and the code's answer are ordered. */
  lemma IncludesSandwich(p: Path, o: Path)
    requires ValidTokens(o)
    ensures StrictMatches(p, o) ==> Included(o, p)
    ensures Included(o, p) ==> Matches(p, o)
  {
    if StrictMatches(p, o) {
      forall w: Path | ValidPath(w) && Matches(o, w) ensures Matches(p, w) {
        StrictIsSound(p, o, w);
      }
    }
    if Included(o, p) { InclusionIsReported(p, o); }
  }

  /** When `p` has no `*` or `o` has no `**`, one matching of `o` with its `*` made fresh decides inclusion. */
  lemma FreshenedTestExact(p: Path, o: Path)
    requires ValidTokens(o)
    requires NoStar(p) || NoDoubleStar(o)
    ensures Included(o, p) <==> Matches(p, Freshen(o, Fresh(p)))
  {
    var x := Fresh(p);
    ComponentIsNoWildcard(x);
    if Included(o, p) { InclusionIsReported(p, o); }
    if Matches(p, Freshen(o, x)) {
      FreshenedIsStrict(p, o, x);
      IncludesSandwich(p, o);
    }
  }

  /** Without `*` in the other pattern nothing is freshened, so the code's own answer is exact. */
  lemma InclusionExactWithoutStars(p: Path, o: Path)
    requires ValidTokens(o) && NoStar(o)
    requires NoStar(p) || NoDoubleStar(o)
    ensures Included(o, p) <==> Matches(p, o)
  {
    FreshenedTestExact(p, o);
    assert forall i | 0 <= i < |o| :: o[i] in o;
    assert Freshen(o, Fresh(p)) == o;
  }

  /** Outside the fragment the code says yes too often: `*` takes the token `**`, and a literal takes the token `*`. */
  lemma IncludesIsNotInclusion()
    ensures Matches(["*"], ["**"]) && !Included(["**"], ["*"])
    ensures Matches(["foo"], ["*"]) && !Included(["*"], ["foo"])
  {
    assert ["**"][1..] == [] && ["*"][1..] == [] && ["foo"][1..] == [];
    var w := ["a", "b"];
    assert w[1..] == ["b"] && ["b"][1..] == [];
    assert ValidPath(w);
    assert Matches(["**"], []);
    assert Matches(["**"], ["b"]);
    assert Matches(["**"], w) && !Matches(["*"], w);
    assert ValidPath(["b"]) && Matches(["*"], ["b"]) && !Matches(["foo"], ["b"]);
  }

  // ----- Filter -----

  /** An identifier read off a successful inclusion test: the literals of either side, `x` for two wildcards. */
  function Common(p: Path, o: Path): (w: Path)
    requires Matches(p, o) && Tokens(p) && Tokens(o)
    ensures |w| == |o| && (forall i | 0 <= i < |w| :: ValidComponent(w[i]))
    ensures Matches(p, w) && Matches(o, w)
    decreases |p|, |o|
  {
    if p == [] then []
    else if p[0] == "**" && Matches(p[1..], o) then Common(p[1..], o)
    else
      var rest := Common(if p[0] == "**" then p else p[1..], o[1..]);
      var c := if !Wildcard(p[0]) then p[0] else if Wildcard(o[0]) then "x" else o[0];
      assert ValidToken(p[0]) && ValidToken(o[0]);
      var w := [c] + rest;
      assert w[1..] == rest;
      assert o[0] == "**" ==> Matches(o, rest);
      w
  }

  /** If neither pattern can shift components through `**`, a shared identifier lines the two patterns up. */
  lemma {:induction false} SharedIdentifierAligns(f: Path, o: Path, w: Path)
    requires NoDoubleStar(o) && Matches(f, w) && Matches(o, w)
    requires forall i | 0 <= i < |w| :: w[i] != "*"
    ensures Matches(f, o)
    decreases |f|, |w|
  {
    assert o != [] ==> o[0] in o;
    if f != [] {
      if f[0] == "**" && Matches(f[1..], w) {
        SharedIdentifierAligns(f[1..], o, w);
      } else if f[0] == "**" {
        SharedIdentifierAligns(f, o[1..], w[1..]);
      } else {
        SharedIdentifierAligns(f[1..], o[1..], w[1..]);
      }
    }
  }

  function Filter(filter: Path, other: Path): Option<Path> {
    if Matches(filter, other) then Some(other)
    else if Matches(other, filter) then Some(filter)
    else None
  }

  /**
    A filtered pattern is never returned for disjoint patterns; without `**` on one side it always is for overlapping
    ones.
  */
  lemma FilterFindsOverlap(filter: Path, other: Path)
    requires ValidTokens(filter) && ValidTokens(other)
    ensures Filter(filter, other).Some? ==> Overlap(filter, other)
    ensures NoDoubleStar(filter) || NoDoubleStar(other) ==>
              (Filter(filter, other).Some? <==> Overlap(filter, other))
  {
    if Matches(filter, other) {
      var w := Common(filter, other);
      assert ValidPath(w);
    } else if Matches(other, filter) {
      var w := Common(other, filter);
      assert ValidPath(w);
    }
    if Overlap(filter, other) && (NoDoubleStar(filter) || NoDoubleStar(other)) {
      var w :| ValidPath(w) && Matches(filter, w) && Matches(other, w);
      forall i | 0 <= i < |w| ensures w[i] != "*" { ComponentIsNoWildcard(w[i]); }
      if NoDoubleStar(other) {
        SharedIdentifierAligns(filter, other, w);
      } else {
        SharedIdentifierAligns(other, filter, w);
      }
    }
  }

  /** With `**` on both sides an overlap can be missed: both patterns match `a/b`. */
  lemma FilterMissesOverlap()
    ensures var f, o := ["a", "**"], ["**", "b"]; Overlap(f, o) && Filter(f, o) == None
  {
    var f, o, w := ["a", "**"], ["**", "b"], ["a", "b"];
    assert f[1..] == ["**"] && o[1..] == ["b"] && w[1..] == ["b"] && ["b"][1..] == [] && ["**"][1..] == [];
    assert Matches(["**"], []) && Matches(["**"], ["b"]);
    assert Matches(f, w);
    assert Matches(["b"], ["b"]) && Matches(o, ["b"]) && Matches(o, w);
    assert ValidPath(w);
    assert !Matches(["b"], o) && !Matches(["b"], ["**"]) && f[2..] == [];
    assert !Matches(["b"], f) && !Matches(["b"], []) && !Matches(o, []) && !Matches(o, ["**"]);
    assert !Matches(o, f);
  }

  /** On patterns without `*`, what Filter returns matches exactly the identifiers both patterns match. */
  lemma FilterIsIntersection(filter: Path, other: Path, w: Path)
    requires ValidTokens(filter) && ValidTokens(other) && NoStar(filter) && NoStar(other)
    requires Filter(filter, other).Some? && ValidPath(w)
    ensures Matches(Filter(filter, other).value, w) <==> Matches(filter, w) && Matches(other, w)
  {
    InclusionExactWithoutStars(filter, other);
    InclusionExactWithoutStars(other, filter);
  }

  // ----- validPattern -----

  predicate IsPatternRune(c: char) { IsValidRune(c) || c == '*' }

  function Stars(c: string): nat {
    if c == "" then 0 else Stars(c[..|c| - 1]) + if c[|c| - 1] == '*' then 1 else 0
  }

  predicate PatternRunes(c: string) {
    forall i | 0 <= i < |c| :: IsPatternRune(c[i])
  }

  predicate ComponentMatcher(componentLen: nat, wildcardLen: nat) {
    wildcardLen <= 2 && (wildcardLen > 0 ==> wildcardLen == componentLen) && componentLen > 0
  }

  predicate ValidPattern(s: string) {
    Tokens(SplitSlash(s))
  }

  lemma {:induction false} StarsCounts(c: string)
    ensures Stars(c) <= |c|
    ensures Stars(c) == 0 <==> forall i | 0 <= i < |c| :: c[i] != '*'
    ensures Stars(c) == |c| <==> forall i | 0 <= i < |c| :: c[i] == '*'
  {
    if c != "" { StarsCounts(c[..|c| - 1]); }
  }

  /** The two counters decide whether a component of pattern runes is `*`, `**` or a literal. */
  lemma TokenByCounts(c: string)
    requires PatternRunes(c)
    ensures ValidToken(c) <==> ComponentMatcher(|c|, Stars(c))
  {
    StarsCounts(c);
    assert c == "*" <==> |c| == 1 && Stars(c) == 1;
    assert c == "**" <==> |c| == 2 && Stars(c) == 2;
    if ValidComponent(c) {
      assert forall i | 0 <= i < |c| :: IsValidRune(c[i]);
    }
    assert Stars(c) == 0 && c != "" ==> ValidComponent(c);
  }

  /** What the scanner knows of the components read so far. */
  predicate Scanned(cs: seq<string>, len: nat, wild: nat) {
    && cs != []
    && var n := |cs| - 1;
    len == |cs[n]| && wild == Stars(cs[n]) && PatternRunes(cs[n]) && Tokens(cs[..n])
  }

  lemma ScanSlash(cs: seq<string>, len: nat, wild: nat)
    requires Scanned(cs, len, wild) && ComponentMatcher(len, wild)
    ensures Scanned(Append(cs, '/'), 0, 0)
  {
    var n := |cs| - 1;
    TokenByCounts(cs[n]);
    assert Append(cs, '/')[..n + 1] == cs == cs[..n] + [cs[n]];
  }

  lemma ScanRune(cs: seq<string>, c: char, len: nat, wild: nat)
    requires Scanned(cs, len, wild) && c != '/' && IsPatternRune(c)
    ensures Scanned(Append(cs, c), len + 1, if c == '*' then wild + 1 else wild)
  {
    var t := cs[|cs| - 1];
    assert (t + [c])[..|t|] == t;
  }

  lemma ScanRejects(s: string, i: nat, len: nat, wild: nat)
    requires i < |s| && Scanned(SplitSlash(s[..i]), len, wild)
    requires if s[i] == '/' then !ComponentMatcher(len, wild) else !IsPatternRune(s[i])
    ensures !ValidPattern(s)
  {
    SplitNext(s, i);
    SplitPrefixStable(s, i + 1);
    var cs := SplitSlash(s[..i]);
    var n := |cs| - 1;
    var all := SplitSlash(s);
    TokenByCounts(cs[n]);
    if s[i] == '/' {
      assert all[..n + 1][n] == cs[n];
    } else {
      assert all[n][len] == s[i];
      assert !ValidComponent(all[n]) && all[n] != "*" && all[n] != "**";
    }
    assert !ValidToken(all[n]);
  }

  lemma ScanAccepts(cs: seq<string>, len: nat, wild: nat)
    requires Scanned(cs, len, wild)
    ensures Tokens(cs) <==> ComponentMatcher(len, wild)
  {
    var n := |cs| - 1;
    TokenByCounts(cs[n]);
    assert cs == cs[..n] + [cs[n]];
  }

  /** The one-pass scanner accepts exactly the strings whose components are `*`, `**` or well-formed literals. */
  method ScanPattern(s: string) returns (ok: bool)
    ensures ok <==> ValidPattern(s)
  {
    if |s| == 0 {
      assert SplitSlash(s)[0] == "";
      return false;
    }
    var componentLen, wildcardLen := 0, 0;
    ghost var cs := [""];
    for i := 0 to |s|
      invariant cs == SplitSlash(s[..i]) && Scanned(cs, componentLen, wildcardLen)
    {
      SplitNext(s, i);
      if s[i] == '/' {
        if !ComponentMatcher(componentLen, wildcardLen) {
          ScanRejects(s, i, componentLen, wildcardLen);
          return false;
        }
        ScanSlash(cs, componentLen, wildcardLen);
        componentLen, wildcardLen := 0, 0;
      } else if IsPatternRune(s[i]) {
        ScanRune(cs, s[i], componentLen, wildcardLen);
        componentLen := componentLen + 1;
        if s[i] == '*' { wildcardLen := wildcardLen + 1; }
      } else {
        ScanRejects(s, i, componentLen, wildcardLen);
        return false;
      }
      cs := Append(cs, s[i]);
    }
    assert s[..|s|] == s;
    ScanAccepts(cs, componentLen, wildcardLen);
    ok := ComponentMatcher(componentLen, wildcardLen);
  }

  lemma TokensAreSlashFree(p: Path)
    requires Tokens(p)
    ensures forall i | 0 <= i < |p| :: SlashFree(p[i]) && p[i] != ""
  {
    forall i | 0 <= i < |p| ensures SlashFree(p[i]) && p[i] != "" {
      assert ValidToken(p[i]);
      assert ValidComponent(p[i]) ==> forall j | 0 <= j < |p[i]| :: IsValidRune(p[i][j]);
    }
  }

  /** Valid pattern strings and valid token lists are in bijection through Split and Join. */
  lemma PatternTokens(s: string)
    requires ValidPattern(s)
    ensures ValidTokens(Split(s)) && Join(Split(s)) == s
  {
    TokensAreSlashFree(SplitSlash(s));
    SplitOfNonEmptyComponents(s);
    JoinUndoesSplit(s);
  }

  lemma TokensPattern(p: Path)
    requires ValidTokens(p)
    ensures ValidPattern(Join(p)) && Split(Join(p)) == p
  {
    TokensAreSlashFree(p);
    SplitUndoesJoin(p);
    SplitOfNonEmptyComponents(Join(p));
  }
}
