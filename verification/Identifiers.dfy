/** Secret identifiers: the one-pass scanner, splitting on '/', and the glob matcher. */
module Identifiers {

  type Path = seq<string>

  predicate IsValidRune(c: char) {
    || 'A' <= c <= 'Z'
    || 'a' <= c <= 'z'
    || '0' <= c <= '9'
    || c == '.' || c == '-' || c == '_' || c == ':'
  }

  const UPPER := "ABCDEFGHIJKLMNOPQRSTUVWXYZ"
  const LOWER := "abcdefghijklmnopqrstuvwxyz"
  const DIGITS := "0123456789"

  lemma UpperCase(c: char)
    ensures c in UPPER <==> 'A' <= c <= 'Z'
  {
  }

  lemma LowerCase(c: char)
    ensures c in LOWER <==> 'a' <= c <= 'z'
  {
  }

  lemma Numeral(c: char)
    ensures c in DIGITS <==> '0' <= c <= '9'
  {
  }

  /** The runes of a component are those that the format names. */
  lemma ValidRunes(c: char)
    ensures IsValidRune(c) <==> c in UPPER || c in LOWER || c in DIGITS || c in "._:-"
  {
    UpperCase(c);
    LowerCase(c);
    Numeral(c);
  }

  /** The grammar of one component: `[A-Za-z0-9._:-]+`. */
  predicate ValidComponent(c: string) {
    c != "" && forall i | 0 <= i < |c| :: IsValidRune(c[i])
  }

  /** A path of an identifier: at least one component, all well formed. */
  predicate ValidPath(p: Path) {
    p != [] && forall i | 0 <= i < |p| :: ValidComponent(p[i])
  }

  // ----- splitting and joining -----

  function SplitSlash(s: string): (cs: seq<string>)
    ensures |cs| >= 1
  {
    if s == "" then [""]
    else
      var rest := SplitSlash(s[1..]);
      if s[0] == '/' then [""] + rest else [[s[0]] + rest[0]] + rest[1..]
  }

  function Join(cs: seq<string>): string {
    if |cs| == 0 then "" else if |cs| == 1 then cs[0] else cs[0] + "/" + Join(cs[1..])
  }

  function TrimLeft(s: string): string {
    if s != "" && s[0] == '/' then TrimLeft(s[1..]) else s
  }

  function TrimRight(s: string): string {
    if s != "" && s[|s| - 1] == '/' then TrimRight(s[..|s| - 1]) else s
  }

  function Split(s: string): seq<string> {
    var t := TrimRight(TrimLeft(s));
    if t == "" then [] else SplitSlash(t)
  }

  lemma {:induction false} TrimsEnds(s: string)
    ensures TrimLeft("/" + s) == TrimLeft(s) && TrimRight(s + "/") == TrimRight(s)
  {
    assert ("/" + s)[1..] == s && (s + "/")[..|s|] == s;
  }

  lemma {:induction false} TrimLeftKeepsEnd(s: string)
    ensures TrimLeft(s + "/") == if TrimLeft(s) == "" then "" else TrimLeft(s) + "/"
  {
    if s == "" {
      assert ("" + "/")[1..] == "";
    } else if s[0] == '/' {
      assert (s + "/")[1..] == s[1..] + "/";
      TrimLeftKeepsEnd(s[1..]);
    }
  }

  /** Slashes at the ends make no difference, and nothing else is no component at all. */
  lemma SplitIgnoresEnds(s: string)
    ensures Split("/" + s) == Split(s) && Split(s + "/") == Split(s) && Split("") == []
  {
    TrimsEnds(s);
    TrimLeftKeepsEnd(s);
    TrimsEnds(TrimLeft(s));
    assert TrimRight("") == "";
  }

  predicate SlashFree(c: string) {
    forall i | 0 <= i < |c| :: c[i] != '/'
  }

  lemma {:induction false} JoinUndoesSplit(s: string)
    ensures Join(SplitSlash(s)) == s
  {
    if s != "" {
      JoinUndoesSplit(s[1..]);
      var rest := SplitSlash(s[1..]);
      if s[0] == '/' {
        assert SplitSlash(s)[1..] == rest;
      } else {
        assert SplitSlash(s)[1..] == rest[1..];
      }
    }
  }

  /** Splitting is undone exactly on slash-free components. */
  lemma {:induction false} SplitUndoesJoin(cs: seq<string>)
    requires cs != [] && forall i | 0 <= i < |cs| :: SlashFree(cs[i])
    ensures SplitSlash(Join(cs)) == cs
    decreases |cs|, |cs[0]|
  {
    if |cs[0]| > 0 {
      var ds := [cs[0][1..]] + cs[1..];
      assert [cs[0][0]] + ds[0] == cs[0];
      assert Join(cs)[1..] == Join(ds);
      SplitUndoesJoin(ds);
    } else if |cs| > 1 {
      assert Join(cs)[1..] == Join(cs[1..]);
      SplitUndoesJoin(cs[1..]);
    }
  }

  /** `cs` with one more character read. */
  function Append(cs: seq<string>, c: char): (r: seq<string>)
    requires cs != []
    ensures c == '/' ==> r == cs + [""]
    ensures c != '/' ==> |r| == |cs| && r[..|cs| - 1] == cs[..|cs| - 1] && r[|cs| - 1] == cs[|cs| - 1] + [c]
  {
    if c == '/' then cs + [""] else cs[..|cs| - 1] + [cs[|cs| - 1] + [c]]
  }

  lemma AppendCons(h: string, cs: seq<string>, c: char)
    requires cs != []
    ensures Append([h] + cs, c) == [h] + Append(cs, c)
  {
  }

  /** Appending one character to a string, seen through the split. */
  lemma {:induction false} SplitSnoc(s: string, c: char)
    ensures SplitSlash(s + [c]) == Append(SplitSlash(s), c)
  {
    if s == "" {
      assert s + [c] == [c] && [c][1..] == "" && [c] + "" == [c];
    } else {
      SplitSnoc(s[1..], c);
      assert (s + [c])[1..] == s[1..] + [c];
      var rest := SplitSlash(s[1..]);
      if s[0] == '/' {
        AppendCons("", rest, c);
      } else {
        AppendToHead(s[0], rest, c);
      }
    }
  }

  lemma AppendToHead(h: char, cs: seq<string>, c: char)
    requires cs != []
    ensures var ds := Append(cs, c);
            Append([[h] + cs[0]] + cs[1..], c) == [[h] + ds[0]] + ds[1..]
  {
    var ds := Append(cs, c);
    if c != '/' && |cs| == 1 {
      assert [h] + (cs[0] + [c]) == [h] + cs[0] + [c];
    }
  }

  // ----- validIdentifier -----

  predicate ValidId(s: string) {
    forall i | 0 <= i < |SplitSlash(s)| :: ValidComponent(SplitSlash(s)[i])
  }

  predicate AllRunes(c: string) {
    forall i | 0 <= i < |c| :: IsValidRune(c[i])
  }

  /** `cs` may grow into `ds` by reading more characters: finished components are final, the last may get longer. */
  predicate GrowsInto(cs: seq<string>, ds: seq<string>) {
    0 < |cs| <= |ds| && ds[..|cs| - 1] == cs[..|cs| - 1] && cs[|cs| - 1] <= ds[|cs| - 1]
  }

  lemma AppendGrows(cs: seq<string>, c: char, ds: seq<string>)
    requires cs != [] && GrowsInto(Append(cs, c), ds)
    ensures GrowsInto(cs, ds)
  {
    var n, es := |cs| - 1, Append(cs, c);
    if c == '/' {
      assert ds[..n] == ds[..n + 1][..n];
      assert ds[n] == ds[..n + 1][n] == es[..n + 1][n] == cs[n];
    }
  }

  /** Reading the next character of `s`, seen through the split of what was read. */
  lemma SplitNext(s: string, i: nat)
    requires i < |s|
    ensures SplitSlash(s[..i + 1]) == Append(SplitSlash(s[..i]), s[i])
  {
    SplitSnoc(s[..i], s[i]);
    assert s[..i + 1] == s[..i] + [s[i]];
  }

  /** A component that is already wrong after `i` characters stays wrong whatever follows. */
  lemma {:induction false} SplitPrefixStable(s: string, i: nat)
    requires i <= |s|
    ensures GrowsInto(SplitSlash(s[..i]), SplitSlash(s))
    decreases |s| - i
  {
    if i == |s| {
      assert s[..i] == s;
    } else {
      SplitNext(s, i);
      SplitPrefixStable(s, i + 1);
      AppendGrows(SplitSlash(s[..i]), s[i], SplitSlash(s));
    }
  }

  /**
    What the scanner knows of the components read: the finished ones are well formed, the last has `len` good runes.
  */
  predicate Scanned(cs: seq<string>, len: nat) {
    && cs != []
    && var n := |cs| - 1;
    len == |cs[n]| && AllRunes(cs[n]) && forall j | 0 <= j < n :: ValidComponent(cs[j])
  }

  lemma ScanSlash(cs: seq<string>, len: nat)
    requires Scanned(cs, len) && len > 0
    ensures Scanned(Append(cs, '/'), 0)
  {
  }

  lemma ScanRune(cs: seq<string>, c: char, len: nat)
    requires Scanned(cs, len) && IsValidRune(c)
    ensures Scanned(Append(cs, c), len + 1)
  {
    var n, ds := |cs| - 1, Append(cs, c);
    assert forall j | 0 <= j < n :: ds[j] == ds[..n][j] == cs[..n][j] == cs[j];
  }

  lemma ScanAccepts(cs: seq<string>, len: nat)
    requires Scanned(cs, len)
    ensures len > 0 <==> forall j | 0 <= j < |cs| :: ValidComponent(cs[j])
  {
    assert ValidComponent(cs[|cs| - 1]) <==> len > 0;
  }

  lemma ScanRejects(s: string, i: nat, len: nat)
    requires i < |s| && Scanned(SplitSlash(s[..i]), len)
    requires if s[i] == '/' then len == 0 else !IsValidRune(s[i])
    ensures !ValidId(s)
  {
    SplitNext(s, i);
    SplitPrefixStable(s, i + 1);
    var n := |SplitSlash(s[..i])| - 1;
    var all := SplitSlash(s);
    if s[i] == '/' {
      assert all[..n + 1][n] == "";
    } else {
      assert all[n][len] == s[i];
    }
    assert !ValidComponent(all[n]);
  }

  /** The scanner accepts exactly the strings all of whose slash-separated components are well formed. */
  method ValidIdentifier(s: string) returns (ok: bool)
    ensures ok <==> ValidId(s)
  {
    if |s| == 0 {
      assert SplitSlash(s)[0] == "";
      return false;
    }
    var componentLen := 0;
    ghost var cs := [""];
    for i := 0 to |s|
      invariant cs == SplitSlash(s[..i]) && Scanned(cs, componentLen)
    {
      SplitNext(s, i);
      if s[i] == '/' {
        if componentLen == 0 {
          ScanRejects(s, i, componentLen);
          return false;
        }
        ScanSlash(cs, componentLen);
        componentLen := 0;
      } else if IsValidRune(s[i]) {
        ScanRune(cs, s[i], componentLen);
        componentLen := componentLen + 1;
      } else {
        ScanRejects(s, i, componentLen);
        return false;
      }
      cs := Append(cs, s[i]);
    }
    assert s[..|s|] == s;
    ScanAccepts(cs, componentLen);
    ok := componentLen > 0;
  }

  lemma {:induction false} TrimNothing(s: string)
    requires s != "" && s[0] != '/' && s[|s| - 1] != '/'
    ensures Split(s) == SplitSlash(s)
  {
  }

  /** No slash at either end when no component is empty, so trimming removes nothing. */
  lemma {:induction false} SplitOfNonEmptyComponents(s: string)
    requires forall i | 0 <= i < |SplitSlash(s)| :: SplitSlash(s)[i] != ""
    ensures Split(s) == SplitSlash(s)
  {
    assert SplitSlash(s)[0] != "" && SplitSlash(s)[|SplitSlash(s)| - 1] != "";
    var t := s[..|s| - 1];
    assert s == t + [s[|s| - 1]];
    SplitSnoc(t, s[|s| - 1]);
    TrimNothing(s);
  }

  /** Valid identifier strings and valid paths are in bijection through Split and Join. */
  lemma {:induction false} IdPaths(s: string)
    requires ValidId(s)
    ensures ValidPath(Split(s)) && Join(Split(s)) == s
  {
    SplitOfNonEmptyComponents(s);
    JoinUndoesSplit(s);
  }

  lemma {:induction false} PathIds(p: Path)
    requires ValidPath(p)
    ensures ValidId(Join(p)) && Split(Join(p)) == p
  {
    forall i | 0 <= i < |p| ensures SlashFree(p[i]) {
      assert ValidComponent(p[i]);
      assert forall j | 0 <= j < |p[i]| :: IsValidRune(p[i][j]);
    }
    SplitUndoesJoin(p);
    SplitOfNonEmptyComponents(Join(p));
  }

  // ----- match -----

  predicate TakesOne(tok: string, component: string) {
    tok == "*" || component == tok || component == "*"
  }

  /** The piece of the path that one pattern component may take. */
  predicate Fits(tok: string, piece: Path) {
    tok == "**" || (|piece| == 1 && TakesOne(tok, piece[0]))
  }

  function Flatten(pieces: seq<Path>): Path {
    if pieces == [] then [] else pieces[0] + Flatten(pieces[1..])
  }

  ghost predicate IsSplitInto(pattern: Path, path: Path, pieces: seq<Path>) {
    && |pieces| == |pattern|
    && Flatten(pieces) == path
    && forall i | 0 <= i < |pattern| :: Fits(pattern[i], pieces[i])
  }

  /** The path falls into one piece per pattern component, each of the shape that component takes. */
  ghost predicate SplitsAlong(pattern: Path, path: Path) {
    exists pieces: seq<Path> :: IsSplitInto(pattern, path, pieces)
  }

  /** The same relation by recursion on both sequences. */
  predicate Matches(pattern: Path, path: Path)
    decreases |pattern|, |path|
  {
    if pattern == [] then path == []
    else if pattern[0] == "**" then
      Matches(pattern[1..], path) || (path != [] && Matches(pattern, path[1..]))
    else
      path != [] && TakesOne(pattern[0], path[0]) && Matches(pattern[1..], path[1..])
  }

  lemma {:induction false} MatchesGivesSplit(pattern: Path, path: Path) returns (pieces: seq<Path>)
    requires Matches(pattern, path)
    ensures IsSplitInto(pattern, path, pieces)
    decreases |pattern|, |path|
  {
    if pattern == [] {
      pieces := [];
    } else if pattern[0] == "**" && Matches(pattern[1..], path) {
      var ps := MatchesGivesSplit(pattern[1..], path);
      pieces := [[]] + ps;
      assert pieces[1..] == ps;
    } else if pattern[0] == "**" {
      var ps := MatchesGivesSplit(pattern, path[1..]);
      pieces := [[path[0]] + ps[0]] + ps[1..];
      assert pieces[1..] == ps[1..];
    } else {
      var ps := MatchesGivesSplit(pattern[1..], path[1..]);
      pieces := [[path[0]]] + ps;
      assert pieces[1..] == ps;
    }
  }

  lemma {:induction false} SplitGivesMatches(pattern: Path, path: Path, pieces: seq<Path>)
    requires IsSplitInto(pattern, path, pieces)
    ensures Matches(pattern, path)
    decreases |pattern|, |path|
  {
    if pattern != [] {
      if pattern[0] == "**" && pieces[0] != [] {
        var ps := [pieces[0][1..]] + pieces[1..];
        assert ps[1..] == pieces[1..];
        assert path[1..] == pieces[0][1..] + Flatten(pieces[1..]);
        SplitGivesMatches(pattern, path[1..], ps);
      } else {
        var k := |pieces[0]|;
        assert path[k..] == Flatten(pieces[1..]);
        SplitGivesMatches(pattern[1..], path[k..], pieces[1..]);
        if k == 0 { assert path[0..] == path; }
      }
    }
  }

  lemma MatchesIffSplits(pattern: Path, path: Path)
    ensures Matches(pattern, path) <==> SplitsAlong(pattern, path)
  {
    if Matches(pattern, path) {
      var pieces := MatchesGivesSplit(pattern, path);
    }
    if SplitsAlong(pattern, path) {
      var pieces :| IsSplitInto(pattern, path, pieces);
      SplitGivesMatches(pattern, path, pieces);
    }
  }

  /** `**` takes any run: it may skip a prefix before the rest matches, and only that. */
  lemma {:induction false} DoubleStarSkips(pattern: Path, path: Path)
    requires pattern != [] && pattern[0] == "**"
    ensures Matches(pattern, path) <==> exists k :: 0 <= k <= |path| && Matches(pattern[1..], path[k..])
    decreases |path|
  {
    assert path[0..] == path;
    if path != [] {
      DoubleStarSkips(pattern, path[1..]);
      forall k | 0 <= k <= |path| - 1 ensures path[1..][k..] == path[k + 1..] {}
      if k :| 0 <= k <= |path| - 1 && Matches(pattern[1..], path[1..][k..]) {
        assert Matches(pattern[1..], path[k + 1..]);
      }
      if k :| 1 <= k <= |path| && Matches(pattern[1..], path[k..]) {
        assert path[1..][k - 1..] == path[k..];
        assert Matches(pattern[1..], path[1..][k - 1..]);
      }
    }
  }

  // What one turn of the matcher's loop does to the two suffixes still to be matched.

  lemma AdvanceOne(pattern: Path, path: Path, pi: nat, si: nat)
    requires pi < |pattern| && si < |path| && pattern[pi] != "**"
    ensures Matches(pattern[pi..], path[si..])
       <==> TakesOne(pattern[pi], path[si]) && Matches(pattern[pi + 1..], path[si + 1..])
  {
    assert pattern[pi..][1..] == pattern[pi + 1..];
    assert path[si..][1..] == path[si + 1..];
  }

  lemma AdvanceStars(pattern: Path, path: Path, pi: nat, si: nat)
    requires pi < |pattern| && si <= |path| && pattern[pi] == "**"
    ensures Matches(pattern[pi..], path[si..])
       <==> exists j :: si <= j <= |path| && Matches(pattern[pi + 1..], path[j..])
  {
    var p, q := pattern[pi..], path[si..];
    DoubleStarSkips(p, q);
    assert p[1..] == pattern[pi + 1..];
    forall k | 0 <= k <= |q| ensures q[k..] == path[si + k..] {}
    if j :| si <= j <= |path| && Matches(pattern[pi + 1..], path[j..]) {
      assert q[j - si..] == path[j..];
    }
  }

  /** With the path used up, only further `**` components can still match. */
  lemma {:induction false} OnlyStarsMatchNothing(pattern: Path, pi: nat)
    requires pi <= |pattern|
    ensures Matches(pattern[pi..], []) <==> forall i | pi <= i < |pattern| :: pattern[i] == "**"
    decreases |pattern| - pi
  {
    if pi < |pattern| {
      assert pattern[pi..][1..] == pattern[pi + 1..];
      OnlyStarsMatchNothing(pattern, pi + 1);
    }
  }

  /** The loop over the number of components a `**` skips. */
  method TrySkips(rest: Path, path: Path, si: nat) returns (b: bool)
    requires si <= |path|
    ensures b <==> exists j :: si <= j <= |path| && Matches(rest, path[j..])
    decreases |rest|, 1
  {
    var skip := 0;
    while si + skip <= |path|
      invariant 0 <= skip <= |path| - si + 1
      invariant forall j | si <= j < si + skip :: !Matches(rest, path[j..])
    {
      var found := Match(rest, path[si + skip..]);
      if found { return true; }
      skip := skip + 1;
    }
    b := false;
  }

  /** The backtracking matcher decides exactly whether the path splits along the pattern. */
  method Match(pattern: Path, path: Path) returns (b: bool)
    ensures b <==> Matches(pattern, path)
    ensures b <==> SplitsAlong(pattern, path)
    decreases |pattern|, 0
  {
    MatchesIffSplits(pattern, path);
    ghost var goal := SplitsAlong(pattern, path);
    var pi, si := 0, 0;
    assert pattern[0..] == pattern && path[0..] == path;
    while pi < |pattern| && si < |path|
      invariant 0 <= pi <= |pattern| && 0 <= si <= |path|
      invariant goal == Matches(pattern[pi..], path[si..])
    {
      if pattern[pi] == "**" {
        AdvanceStars(pattern, path, pi, si);
        if pi + 1 == |pattern| {
          assert path[|path|..] == [];
          return true;
        }
        b := TrySkips(pattern[pi + 1..], path, si);
        return;
      } else if pattern[pi] == "*" {
        AdvanceOne(pattern, path, pi, si);
        pi, si := pi + 1, si + 1;
      } else {
        AdvanceOne(pattern, path, pi, si);
        if pattern[pi] != path[si] && path[si] != "*" { return false; }
        pi, si := pi + 1, si + 1;
      }
    }
    ghost var start := pi;
    while pi < |pattern| && pattern[pi] == "**"
      invariant start <= pi <= |pattern|
      invariant forall i | start <= i < pi :: pattern[i] == "**"
    {
      pi := pi + 1;
    }
    if si == |path| {
      assert path[si..] == [];
      OnlyStarsMatchNothing(pattern, start);
    }
    b := pi == |pattern| && si == |path|;
  }

  /** A valid identifier that a pattern matches. */
  predicate Selected(pattern: string, id: string) {
    ValidId(id) && Matches(Split(pattern), Split(id))
  }
}
