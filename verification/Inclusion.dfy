/** Inclusion and overlap of patterns, decided exactly, and with them when Includes and Filter are right. */
module Inclusion {
  import opened Identifiers
  import opened Patterns
  import opened Wrappers

  function Run(x: string, k: nat): (r: Path)
    ensures |r| == k && forall i | 0 <= i < k :: r[i] == x
  {
    seq(k, _ => x)
  }

  // ----- inclusion -----

  /**
    `p` takes `u` followed by anything that comes of `o` when its `*` is `x` and each `**` is a run of at most
    |p| + 1 times `x`. Nothing is asked of the empty path, which no identifier has.
  */
  predicate TakesRuns(p: Path, u: Path, o: Path, x: string)
    decreases |o|
  {
    if o == [] then u == [] || Matches(p, u)
    else if o[0] == "**" then forall k: nat | k <= |p| + 1 :: TakesRuns(p, u + Run(x, k), o[1..], x)
    else TakesRuns(p, u + [if o[0] == "*" then x else o[0]], o[1..], x)
  }

  /** The exact test for inclusion, with a component that `p` does not mention. */
  predicate IncludesExactly(p: Path, o: Path) { TakesRuns(p, [], o, Fresh(p)) }

  /** What comes of `o` when its `*` is `x` and each `**` is a run of `x`, of whatever length. */
  predicate Spread(o: Path, s: Path, x: string)
    decreases |o|, |s|
  {
    if o == [] then s == []
    else if o[0] == "**" then Spread(o[1..], s, x) || (s != [] && s[0] == x && Spread(o, s[1..], x))
    else s != [] && s[0] == (if o[0] == "*" then x else o[0]) && Spread(o[1..], s[1..], x)
  }

  lemma {:induction false} SpreadIsMatched(o: Path, s: Path, x: string)
    requires Tokens(o) && ValidComponent(x) && Spread(o, s, x)
    ensures Matches(o, s) && forall i | 0 <= i < |s| :: ValidComponent(s[i])
    decreases |o|, |s|
  {
    if o != [] {
      if o[0] == "**" && Spread(o[1..], s, x) {
        SpreadIsMatched(o[1..], s, x);
      } else if o[0] == "**" {
        SpreadIsMatched(o, s[1..], x);
      } else {
        assert ValidToken(o[0]);
        SpreadIsMatched(o[1..], s[1..], x);
      }
    }
  }

  /** Whatever `o` matches is one of its spreads with some of the `x` relabelled. */
  lemma {:induction false} MatchIsRelabelledSpread(o: Path, w: Path, x: string) returns (s: Path)
    requires Matches(o, w) && forall i | 0 <= i < |w| :: w[i] != "*"
    ensures Spread(o, s, x) && |s| == |w| && forall i | 0 <= i < |s| :: w[i] == s[i] || s[i] == x
    decreases |o|, |w|
  {
    if o == [] {
      s := [];
    } else if o[0] == "**" && Matches(o[1..], w) {
      s := MatchIsRelabelledSpread(o[1..], w, x);
    } else if o[0] == "**" {
      var rest := MatchIsRelabelledSpread(o, w[1..], x);
      s := [x] + rest;
      assert s[1..] == rest;
    } else {
      var rest := MatchIsRelabelledSpread(o[1..], w[1..], x);
      s := [if o[0] == "*" then x else o[0]] + rest;
      assert s[1..] == rest;
    }
  }

  /** A run of more unmentioned components than the pattern has must run through a `**`, which may take one more. */
  lemma {:induction false} RunGrows(p: Path, u: Path, k: nat, v: Path, x: string)
    requires x !in p && x != "*" && !Wildcard(x) && k > |p| && Matches(p, u + Run(x, k) + v)
    ensures Matches(p, u + Run(x, k + 1) + v)
    decreases |p|, |u|
  {
    var a, b := u + Run(x, k) + v, u + Run(x, k + 1) + v;
    assert |a| > 0;
    if u != [] {
      assert a[1..] == u[1..] + Run(x, k) + v && b[1..] == u[1..] + Run(x, k + 1) + v && a[0] == b[0] == u[0];
      if p[0] != "**" {
        RunGrows(p[1..], u[1..], k, v, x);
      } else if Matches(p[1..], a) {
        RunGrows(p[1..], u, k, v, x);
      } else {
        RunGrows(p, u[1..], k, v, x);
      }
    } else if p[0] == "**" {
      assert b[1..] == a;
    } else {
      assert p[0] in p && a[0] == x;
      assert a[1..] == [] + Run(x, k - 1) + v && b[1..] == [] + Run(x, k) + v;
      RunGrows(p[1..], [], k - 1, v, x);
    }
  }

  lemma {:induction false} LongRun(p: Path, u: Path, k: nat, n: nat, v: Path, x: string)
    requires x !in p && x != "*" && !Wildcard(x) && |p| < k <= n && Matches(p, u + Run(x, k) + v)
    ensures Matches(p, u + Run(x, n) + v)
    decreases n - k
  {
    if k < n {
      RunGrows(p, u, k, v, x);
      LongRun(p, u, k + 1, n, v, x);
    }
  }

  /** How many `x` the first `**` took. */
  lemma {:induction false} FirstRun(o: Path, s: Path, x: string) returns (k: nat)
    requires o != [] && o[0] == "**" && Spread(o, s, x)
    ensures k <= |s| && s[..k] == Run(x, k) && Spread(o[1..], s[k..], x)
    decreases |s|
  {
    if Spread(o[1..], s, x) {
      k := 0;
    } else {
      var n := FirstRun(o, s[1..], x);
      k := n + 1;
      assert s[..k] == [s[0]] + s[1..][..n];
      assert s[1..][n..] == s[k..];
    }
  }

  /** Runs of bounded length stand for runs of any length. */
  lemma {:induction false} BoundedRunsSuffice(p: Path, u: Path, o: Path, x: string, s: Path)
    requires x !in p && x != "*" && !Wildcard(x) && TakesRuns(p, u, o, x) && Spread(o, s, x) && u + s != []
    ensures Matches(p, u + s)
    decreases |o|
  {
    if o == [] {
      assert u + s == u;
    } else if o[0] == "**" {
      var k := FirstRun(o, s, x);
      var n := if k <= |p| + 1 then k else |p| + 1;
      var v := s[k..];
      assert TakesRuns(p, u + Run(x, n), o[1..], x);
      assert s == Run(x, k) + v && u + s == u + Run(x, k) + v;
      BoundedRunsSuffice(p, u + Run(x, n), o[1..], x, v);
      if n < k { LongRun(p, u, n, k, v, x); }
    } else {
      assert u + s == u + [s[0]] + s[1..];
      BoundedRunsSuffice(p, u + [s[0]], o[1..], x, s[1..]);
    }
  }

  lemma {:induction false} RunThenSpread(o: Path, k: nat, s: Path, x: string)
    requires o != [] && o[0] == "**" && Spread(o[1..], s, x)
    ensures Spread(o, Run(x, k) + s, x)
  {
    if k == 0 {
      assert Run(x, 0) + s == s;
    } else {
      RunThenSpread(o, k - 1, s, x);
      assert (Run(x, k) + s)[1..] == Run(x, k - 1) + s;
    }
  }

  lemma {:induction false} SpreadsTaken(p: Path, u: Path, o: Path, x: string)
    requires forall s | Spread(o, s, x) && u + s != [] :: Matches(p, u + s)
    ensures TakesRuns(p, u, o, x)
    decreases |o|
  {
    if o == [] {
      assert Spread(o, [], x) && u + [] == u;
    } else if o[0] == "**" {
      forall k: nat | k <= |p| + 1 ensures TakesRuns(p, u + Run(x, k), o[1..], x) {
        forall s | Spread(o[1..], s, x) && u + Run(x, k) + s != [] ensures Matches(p, u + Run(x, k) + s) {
          RunThenSpread(o, k, s, x);
          assert u + (Run(x, k) + s) == u + Run(x, k) + s;
        }
        SpreadsTaken(p, u + Run(x, k), o[1..], x);
      }
    } else {
      var c := if o[0] == "*" then x else o[0];
      forall s | Spread(o[1..], s, x) && u + [c] + s != [] ensures Matches(p, u + [c] + s) {
        assert ([c] + s)[1..] == s && Spread(o, [c] + s, x);
        assert u + ([c] + s) == u + [c] + s;
      }
      SpreadsTaken(p, u + [c], o[1..], x);
    }
  }

  /** The test decides inclusion, for all patterns. */
  lemma InclusionDecided(p: Path, o: Path)
    requires ValidTokens(o)
    ensures Included(o, p) <==> IncludesExactly(p, o)
  {
    var x := Fresh(p);
    ComponentIsNoWildcard(x);
    assert x != "*";
    if Included(o, p) {
      forall s | Spread(o, s, x) && [] + s != [] ensures Matches(p, [] + s) {
        SpreadIsMatched(o, s, x);
        assert [] + s == s && ValidPath(s);
      }
      SpreadsTaken(p, [], o, x);
    }
    if IncludesExactly(p, o) {
      forall w: Path | ValidPath(w) && Matches(o, w) ensures Matches(p, w) {
        forall i | 0 <= i < |w| ensures w[i] != "*" { ComponentIsNoWildcard(w[i]); }
        var s := MatchIsRelabelledSpread(o, w, x);
        assert [] + s == s;
        BoundedRunsSuffice(p, [], o, x, s);
        Relabel(p, s, w, x);
      }
    }
  }

  /** The code's own answer is right exactly when it is no, or the test agrees. */
  lemma IncludesRightIff(p: Path, o: Path)
    requires ValidTokens(o)
    ensures (Matches(p, o) <==> Included(o, p)) <==> (Matches(p, o) ==> IncludesExactly(p, o))
  {
    InclusionDecided(p, o);
    if Included(o, p) { InclusionIsReported(p, o); }
  }

  // ----- overlap -----

  /** Both patterns can go on to a common path. */
  predicate Meets(p: Path, o: Path)
    decreases |p| + |o|
  {
    if p == [] && o == [] then true
    else if p != [] && p[0] == "**" then Meets(p[1..], o) || (o != [] && Meets(p, o[1..]))
    else if o != [] && o[0] == "**" then Meets(p, o[1..]) || (p != [] && Meets(p[1..], o))
    else p != [] && o != [] && (p[0] == "*" || o[0] == "*" || p[0] == o[0]) && Meets(p[1..], o[1..])
  }

  lemma {:induction false} CommonPathMeets(p: Path, o: Path, w: Path)
    requires Matches(p, w) && Matches(o, w) && forall i | 0 <= i < |w| :: w[i] != "*"
    ensures Meets(p, o)
    decreases |p| + |o| + |w|
  {
    if p != [] && p[0] == "**" {
      if Matches(p[1..], w) {
        CommonPathMeets(p[1..], o, w);
      } else if o[0] == "**" && !Matches(o[1..], w) {
        CommonPathMeets(p, o, w[1..]);
      } else if o[0] == "**" {
        CommonPathMeets(p, o[1..], w);
      } else {
        CommonPathMeets(p, o[1..], w[1..]);
      }
    } else if o != [] && o[0] == "**" {
      if Matches(o[1..], w) {
        CommonPathMeets(p, o[1..], w);
      } else {
        CommonPathMeets(p[1..], o, w[1..]);
      }
    } else if p != [] {
      CommonPathMeets(p[1..], o[1..], w[1..]);
    }
  }

  /** A path that both match: literals where either has one, else a component of its own. */
  function Meeting(p: Path, o: Path): (w: Path)
    requires Meets(p, o) && Tokens(p) && Tokens(o)
    ensures Matches(p, w) && Matches(o, w) && forall i | 0 <= i < |w| :: ValidComponent(w[i])
    decreases |p| + |o|
  {
    if p == [] && o == [] then []
    else if p != [] && p[0] == "**" then
      if Meets(p[1..], o) then Meeting(p[1..], o)
      else
        var rest := Meeting(p, o[1..]);
        assert ValidToken(o[0]);
        if o[0] == "**" then rest
        else Prepended(p, o, if o[0] == "*" then "x" else o[0], rest)
    else if o != [] && o[0] == "**" then
      if Meets(p, o[1..]) then Meeting(p, o[1..])
      else
        var rest := Meeting(p[1..], o);
        assert ValidToken(p[0]);
        Prepended(p, o, if p[0] == "*" then "x" else p[0], rest)
    else
      assert ValidToken(p[0]) && ValidToken(o[0]);
      Prepended(p, o, if p[0] != "*" then p[0] else if o[0] != "*" then o[0] else "x", Meeting(p[1..], o[1..]))
  }

  /** Each pattern either takes the component with its `**` or with its first token. */
  function Prepended(p: Path, o: Path, c: string, rest: Path): (w: Path)
    requires forall q | q in [p, o] ::
      && q != [] && if q[0] == "**" then Matches(q, rest) else TakesOne(q[0], c) && Matches(q[1..], rest)
    ensures w == [c] + rest && Matches(p, w) && Matches(o, w)
  {
    var w := [c] + rest;
    assert w[1..] == rest && p in [p, o] && o in [p, o];
    w
  }

  /** Overlap is decided for all patterns, by a recursion on both. */
  lemma OverlapDecided(p: Path, o: Path)
    requires ValidTokens(p) && ValidTokens(o)
    ensures Overlap(p, o) <==> Meets(p, o)
  {
    if w: Path :| ValidPath(w) && Matches(p, w) && Matches(o, w) {
      forall i | 0 <= i < |w| ensures w[i] != "*" { ComponentIsNoWildcard(w[i]); }
      CommonPathMeets(p, o, w);
    }
    if Meets(p, o) {
      var w := Meeting(p, o);
      if w == [] {
        var v := ["x"];
        assert v[1..] == [];
        assert Matches(p, v) && Matches(o, v);
        assert ValidPath(v);
      } else {
        assert ValidPath(w);
      }
    }
  }

  // ----- when Filter is right -----

  /** Filter's answer is right exactly when it is yes or the patterns do not meet. */
  lemma FilterRightIff(filter: Path, other: Path)
    requires ValidTokens(filter) && ValidTokens(other)
    ensures (Filter(filter, other).Some? <==> Overlap(filter, other))
            <==> (Meets(filter, other) ==> Matches(filter, other) || Matches(other, filter))
  {
    FilterFindsOverlap(filter, other);
    OverlapDecided(filter, other);
  }

  /** What Filter returns is subset equal to the filter exactly when it is the filter or inclusion holds by the test. */
  lemma FilterSubsetIff(filter: Path, other: Path)
    requires ValidTokens(filter) && ValidTokens(other) && Filter(filter, other).Some?
    ensures Included(Filter(filter, other).value, filter) <==>
              (Matches(filter, other) ==> IncludesExactly(filter, other))
  {
    if Matches(filter, other) { InclusionDecided(filter, other); }
  }

  /** What Filter returns matches exactly what both patterns match, if and only if the inclusion it relied on holds. */
  lemma FilterIsIntersectionIff(filter: Path, other: Path)
    requires ValidTokens(filter) && ValidTokens(other) && Filter(filter, other).Some?
    ensures (forall w: Path | ValidPath(w) ::
               Matches(Filter(filter, other).value, w) <==> Matches(filter, w) && Matches(other, w))
            <==> if Matches(filter, other) then IncludesExactly(filter, other) else IncludesExactly(other, filter)
  {
    if Matches(filter, other) {
      InclusionDecided(filter, other);
    } else {
      InclusionDecided(other, filter);
    }
  }

  /** A literal filter is widened to `*`. */
  lemma FilterMayWiden()
    ensures Filter(["foo"], ["*"]) == Some(["*"]) && !Included(["*"], ["foo"])
  {
    IncludesIsNotInclusion();
  }
}
