/** The release propagator: modules of one repository, their go.mod requirements, and the tags a release run makes. */
module Release {
  import opened Wrappers

  datatype Level = Patch | Minor | Major

  datatype Version = Version(current: string, keepExtra: bool)

  datatype ModData = ModData(downstreams: set<string>, dependencies: set<string>, version: Version)

  type Graph = map<string, ModData>

  /** Per module, the versions its go.mod requires. */
  type Files = map<string, map<string, string>>

  /** A tag and the committed files it captures. */
  datatype Tag = Tag(name: string, release: string, snapshot: Files)

  datatype Error = ModuleNotFound | BadVersion | FsError | NoNextModule

  /** How the next version of a release is computed; fails on a version that is not canonical. */
  type NextVersion = (Version, Level) -> Option<string>

  // ----- the working copy -----

  function Bumped(files: Files, ds: set<string>, mod: string, release: string): (r: Files)
    ensures r.Keys == files.Keys && forall f | f in files :: r[f].Keys == files[f].Keys
  {
    map f | f in files :: if f in ds && mod in files[f] then files[f][mod := release] else files[f]
  }

  /** Some file in `ds` names `mod`, so bumping changes something to commit. */
  predicate Names(files: Files, ds: set<string>, mod: string) {
    exists f :: f in ds && f in files && mod in files[f]
  }

  class FS {
    var working: Files
    var committed: Files
    var tags: seq<Tag>
    /** A reliable FS fails no call on a file that exists. */
    const reliable: bool

    constructor (working: Files, committed: Files, reliable: bool)
      ensures this.working == working && this.committed == committed && tags == [] && this.reliable == reliable
    {
      this.working, this.committed, this.tags, this.reliable := working, committed, [], reliable;
    }

    method GitTag(name: string, release: string) returns (ok: bool)
      modifies this
      ensures reliable ==> ok
      ensures working == old(working) && committed == old(committed)
      ensures tags == if ok then old(tags) + [Tag(name, release, committed)] else old(tags)
    {
      ok := *;
      ok := ok || reliable;
      if ok { tags := tags + [Tag(name, release, committed)]; }
    }

    method GitCommit() returns (ok: bool)
      modifies this
      ensures reliable ==> ok
      ensures working == old(working) && tags == old(tags)
      ensures committed == if ok then working else old(committed)
    {
      ok := *;
      ok := ok || reliable;
      if ok { committed := working; }
    }

    /** Rewrites exactly the named requirement, if the file has it. */
    method BumpModInFile(file: string, mod: string, release: string) returns (ok: bool, modified: bool)
      modifies this
      ensures reliable && file in old(working) ==> ok
      ensures ok ==> file in working && modified == (file in old(working) && mod in old(working)[file])
      ensures committed == old(committed) && tags == old(tags)
      ensures working == if ok then Bumped(old(working), {file}, mod, release) else old(working)
    {
      ok := *;
      ok := file in working && (ok || reliable);
      modified := ok && mod in working[file];
      if ok { working := Bumped(working, {file}, mod, release); }
    }
  }

  lemma BumpedStep(files: Files, ds: set<string>, f: string, mod: string, release: string)
    requires f !in ds
    ensures Bumped(Bumped(files, ds, mod, release), {f}, mod, release) == Bumped(files, ds + {f}, mod, release)
  {
    var once := Bumped(files, ds, mod, release);
    assert f in files ==> once[f] == files[f];
  }

  /** Tag a module, then name the new release in the go.mod of each downstream and commit if any changed. */
  method BumpModule(mod: string, level: Level, data: ModData, next: NextVersion, fs: FS) returns (r: Result<(), Error>)
    modifies fs
    ensures next(data.version, level).None? ==> r == Err(BadVersion)
    ensures next(data.version, level).Some? && fs.reliable && data.downstreams <= old(fs.working).Keys ==> r.Ok?
    ensures r.Err? ==> r.error.BadVersion? || r.error.FsError?
    ensures r.Ok? ==>
              && next(data.version, level).Some?
              && var release := next(data.version, level).value;
              && fs.tags == old(fs.tags) + [Tag(mod, release, old(fs.committed))]
              && data.downstreams <= fs.working.Keys
              && fs.working == Bumped(old(fs.working), data.downstreams, mod, release)
              && fs.committed == if Names(old(fs.working), data.downstreams, mod) then fs.working else old(fs.committed)
  {
    if next(data.version, level).None? { return Err(BadVersion); }
    var release := next(data.version, level).value;
    var ok := fs.GitTag(mod, release);
    if !ok { return Err(FsError); }
    var needsCommit := false;
    var todo := data.downstreams;
    assert fs.working == Bumped(fs.working, {}, mod, release);
    while todo != {}
      invariant todo <= data.downstreams && data.downstreams - todo <= fs.working.Keys
      invariant fs.working == Bumped(old(fs.working), data.downstreams - todo, mod, release)
      invariant needsCommit == Names(old(fs.working), data.downstreams - todo, mod)
      invariant fs.tags == old(fs.tags) + [Tag(mod, release, old(fs.committed))] && fs.committed == old(fs.committed)
      decreases todo
    {
      var dep :| dep in todo;
      BumpedStep(old(fs.working), data.downstreams - todo, dep, mod, release);
      assert data.downstreams - (todo - {dep}) == data.downstreams - todo + {dep};
      var done, modified := fs.BumpModInFile(dep, mod, release);
      if !done { return Err(FsError); }
      needsCommit := needsCommit || modified;
      todo := todo - {dep};
    }
    assert data.downstreams - todo == data.downstreams;
    if !needsCommit { return Ok(()); }
    ok := fs.GitCommit();
    r := if ok then Ok(()) else Err(FsError);
  }

  // ----- the module graph -----

  /** `d` is listed as a dependency of `m` exactly when `m` is listed as a downstream of `d`. */
  ghost predicate Mirrored(g: Graph) {
    && (forall m, d | m in g && d in g[m].dependencies :: d in g && m in g[d].downstreams)
    && (forall m, d | d in g && m in g[d].downstreams :: m in g && d in g[m].dependencies)
  }

  function Entry(g: Graph, m: string): ModData {
    if m in g then g[m] else ModData({}, {}, Version("", false))
  }

  /** The graph after AddMod. */
  function WithModule(g: Graph, mod: string, version: Version, deps: set<string>): Graph {
    map k | k in g.Keys + {mod} + deps ::
      var e := Entry(g, k);
      ModData(
        if k in deps then e.downstreams + {mod} else e.downstreams,
        if k == mod then deps else e.dependencies,
        if k == mod then version else e.version)
  }

  /** The graph with `mod` noted as a downstream of each of `ds`. */
  function WithDownstream(g: Graph, mod: string, ds: set<string>): Graph {
    map k | k in g.Keys + ds ::
      if k in ds then Entry(g, k).(downstreams := Entry(g, k).downstreams + {mod}) else Entry(g, k)
  }

  lemma WithDownstreamStep(g: Graph, mod: string, ds: set<string>, d: string)
    ensures WithDownstream(WithDownstream(g, mod, ds), mod, {d}) == WithDownstream(g, mod, ds + {d})
  {
    var a, b := WithDownstream(WithDownstream(g, mod, ds), mod, {d}), WithDownstream(g, mod, ds + {d});
    assert a.Keys == b.Keys;
    forall k | k in a ensures a[k] == b[k] {
      assert Entry(g, k).downstreams + {mod} + {mod} == Entry(g, k).downstreams + {mod};
    }
  }

  lemma AddModResult(g: Graph, mod: string, version: Version, ds: set<string>)
    ensures var h := WithDownstream(g[mod := Entry(g, mod).(version := version)], mod, ds);
            h[mod := Entry(h, mod).(dependencies := ds)] == WithModule(g, mod, version, ds)
  {
    var h := WithDownstream(g[mod := Entry(g, mod).(version := version)], mod, ds);
    var a, b := h[mod := Entry(h, mod).(dependencies := ds)], WithModule(g, mod, version, ds);
    assert a.Keys == b.Keys;
    forall k | k in a ensures a[k] == b[k] {}
  }

  /** The graph with some modules taken out, also as dependencies of the others. */
  function Without(g: Graph, gone: set<string>): Graph {
    map k | k in g && k !in gone :: g[k].(dependencies := g[k].dependencies - gone)
  }

  /** Adding a module keeps the two directions in step exactly when it drops none of its earlier dependencies. */
  lemma AddModMirrors(g: Graph, mod: string, version: Version, deps: set<string>)
    requires Mirrored(g)
    ensures Mirrored(WithModule(g, mod, version, deps)) <==> Entry(g, mod).dependencies <= deps
  {
    var h := WithModule(g, mod, version, deps);
    if d :| d in Entry(g, mod).dependencies && d !in deps {
      assert mod in h[d].downstreams && h[mod].dependencies == deps;
    } else {
      forall m, d | m in h && d in h[m].dependencies ensures d in h && m in h[d].downstreams {
        if m != mod { assert m in g && d in g[m].dependencies; }
      }
    }
  }

  datatype Addition = Addition(mod: string, version: Version, deps: seq<string>)

  /** The graph built by a series of AddMod calls. */
  function Built(adds: seq<Addition>): Graph {
    if adds == [] then map[]
    else var a := adds[|adds| - 1]; WithModule(Built(adds[..|adds| - 1]), a.mod, a.version, set d | d in a.deps)
  }

  predicate EachOnce(adds: seq<Addition>) {
    forall i, j | 0 <= i < j < |adds| :: adds[i].mod != adds[j].mod
  }

  /** Adding every module once, in any order, keeps the two directions in step. */
  lemma {:induction false} BuiltIsMirrored(adds: seq<Addition>)
    requires EachOnce(adds)
    ensures Mirrored(Built(adds))
    ensures forall k | k in Built(adds) && Built(adds)[k].dependencies != {} ::
              exists i :: 0 <= i < |adds| && adds[i].mod == k
  {
    if adds != [] {
      var n := |adds| - 1;
      var g := Built(adds[..n]);
      BuiltIsMirrored(adds[..n]);
      assert forall i | 0 <= i < n :: adds[..n][i].mod != adds[n].mod;
      AddModMirrors(g, adds[n].mod, adds[n].version, set d | d in adds[n].deps);
      forall k | k in Built(adds) && Built(adds)[k].dependencies != {}
        ensures exists i :: 0 <= i < |adds| && adds[i].mod == k
      {
        if k == adds[n].mod {
          assert adds[n].mod == k;
        } else {
          var i :| 0 <= i < n && adds[..n][i].mod == k;
          assert adds[i].mod == k;
        }
      }
    }
  }

  lemma OthersAsBefore(g: Graph, mod: string, version: Version, deps: set<string>, m: string)
    ensures var h := WithModule(g, mod, version, deps);
            && (m in g ==> m in h)
            && (m in g && m != mod ==> h[m].version == g[m].version && h[m].dependencies == g[m].dependencies)
            && mod in h && h[mod].version == version && h[mod].dependencies == deps
  {
  }

  /** Every module has the version and the dependencies it was added with. */
  lemma {:induction false} BuiltAsAdded(adds: seq<Addition>, i: nat)
    requires EachOnce(adds) && i < |adds|
    ensures var g := Built(adds);
            && adds[i].mod in g && g[adds[i].mod].version == adds[i].version
            && g[adds[i].mod].dependencies == set d | d in adds[i].deps
  {
    hide WithModule;
    var n := |adds| - 1;
    var a := adds[n];
    OthersAsBefore(Built(adds[..n]), a.mod, a.version, (set d | d in a.deps), adds[i].mod);
    if i < n { BuiltAsAdded(adds[..n], i); }
  }

  class RepoData {
    var mods: Graph

    constructor ()
      ensures mods == map[] && Mirrored(mods)
    {
      mods := map[];
    }

    method AddDownstreamDep(mod: string, dep: string)
      modifies this
      ensures mods == WithDownstream(old(mods), mod, {dep})
    {
      var before := Entry(mods, dep);
      mods := mods[dep := before.(downstreams := before.downstreams + {mod})];
    }

    method AddMod(mod: string, version: Version, deps: seq<string>)
      modifies this
      ensures mods == WithModule(old(mods), mod, version, set d | d in deps)
    {
      mods := mods[mod := Entry(mods, mod).(version := version)];
      ghost var g := mods;
      var dependencies: set<string> := {};
      assert mods == WithDownstream(g, mod, {});
      for i := 0 to |deps|
        invariant dependencies == set d | d in deps[..i]
        invariant mods == WithDownstream(g, mod, dependencies)
      {
        assert deps[..i + 1] == deps[..i] + [deps[i]];
        WithDownstreamStep(g, mod, dependencies, deps[i]);
        dependencies := dependencies + {deps[i]};
        AddDownstreamDep(mod, deps[i]);
      }
      assert deps[..|deps|] == deps;
      AddModResult(old(mods), mod, version, dependencies);
      mods := mods[mod := Entry(mods, mod).(dependencies := dependencies)];
    }

    method RemoveModule(mod: string)
      modifies this
      ensures mods == Without(old(mods), {mod})
    {
      mods := mods - {mod};
      var todo := mods.Keys;
      while todo != {}
        invariant mods.Keys == old(mods).Keys - {mod} && todo <= mods.Keys
        invariant forall k | k in mods ::
            mods[k] == if k in todo then old(mods)[k]
                       else old(mods)[k].(dependencies := old(mods)[k].dependencies - {mod})
        decreases todo
      {
        var k :| k in todo;
        mods := mods[k := mods[k].(dependencies := mods[k].dependencies - {mod})];
        todo := todo - {k};
      }
    }

    function GetDependencyCount(mod: string): (n: nat)
      reads this
      ensures n == 0 <==> mod !in mods || mods[mod].dependencies == {}
    {
      if mod in mods then |mods[mod].dependencies| else 0
    }
  }

  lemma WithoutTwice(g: Graph, gone: set<string>, mod: string)
    ensures Without(Without(g, gone), {mod}) == Without(g, gone + {mod})
  {
    var a, b := Without(Without(g, gone), {mod}), Without(g, gone + {mod});
    assert a.Keys == b.Keys;
    forall k | k in a ensures a[k] == b[k] {
      assert g[k].dependencies - gone - {mod} == g[k].dependencies - (gone + {mod});
    }
  }

  lemma WithoutNone(g: Graph)
    ensures Without(g, {}) == g
  {
    var h := Without(g, {});
    forall k | k in h ensures h[k] == g[k] {
      assert g[k].dependencies - {} == g[k].dependencies;
    }
  }

  // ----- cycles -----

  /** A closed walk along dependencies inside `s`. */
  ghost predicate IsCycle(g: Graph, s: set<string>, c: seq<string>) {
    && |c| >= 2 && c[0] == c[|c| - 1]
    && (forall i | 0 <= i < |c| :: c[i] in s && c[i] in g)
    && (forall i | 0 <= i < |c| - 1 :: c[i + 1] in g[c[i]].dependencies)
  }

  ghost predicate Cyclic(g: Graph, s: set<string>) {
    exists c :: IsCycle(g, s, c)
  }

  ghost predicate IsWalk(g: Graph, s: set<string>, p: seq<string>) {
    && (forall i | 0 <= i < |p| :: p[i] in s && p[i] in g)
    && (forall i | 0 <= i < |p| - 1 :: p[i + 1] in g[p[i]].dependencies)
  }

  ghost predicate HasNext(g: Graph, s: set<string>, x: string) {
    x in g && exists y :: y in g[x].dependencies && y in s
  }

  /** Every member depends on another member. */
  ghost predicate Stuck(g: Graph, s: set<string>) {
    s != {} && forall x {:trigger HasNext(g, s, x)} | x in s :: HasNext(g, s, x)
  }

  lemma {:induction false} WalkOn(g: Graph, s: set<string>, n: nat) returns (p: seq<string>)
    requires Stuck(g, s)
    ensures |p| == n + 1 && IsWalk(g, s, p)
    decreases n
  {
    if n == 0 {
      var x :| x in s;
      assert HasNext(g, s, x);
      p := [x];
    } else {
      var q := WalkOn(g, s, n - 1);
      assert HasNext(g, s, q[n - 1]);
      var y :| y in g[q[n - 1]].dependencies && y in s;
      assert HasNext(g, s, y);
      p := q + [y];
    }
  }

  lemma {:induction false} DistinctFit(p: seq<string>, s: set<string>)
    requires forall i | 0 <= i < |p| :: p[i] in s
    requires forall i, j | 0 <= i < j < |p| :: p[i] != p[j]
    ensures |p| <= |s|
    decreases |p|
  {
    if p != [] {
      var n := |p| - 1;
      DistinctFit(p[..n], s - {p[n]});
    }
  }

  /** A walk longer than the set it stays in closes a cycle. */
  lemma StuckIsCyclic(g: Graph, s: set<string>)
    requires Stuck(g, s)
    ensures Cyclic(g, s)
  {
    var p := WalkOn(g, s, |s|);
    if forall i, j | 0 <= i < j < |p| :: p[i] != p[j] {
      DistinctFit(p, s);
    }
    var i, j :| 0 <= i < j < |p| && p[i] == p[j];
    assert IsCycle(g, s, p[i..j + 1]);
  }

  lemma CyclicMonotone(g: Graph, s: set<string>, t: set<string>)
    requires Cyclic(g, s) && s <= t
    ensures Cyclic(g, t)
  {
    var c :| IsCycle(g, s, c);
    assert IsCycle(g, t, c);
  }

  // ----- what a run must achieve -----

  /** The tags name `mods` once each. */
  ghost predicate TagsExactly(ts: seq<Tag>, mods: set<string>) {
    && (forall i, j | 0 <= i < j < |ts| :: ts[i].name != ts[j].name)
    && (forall i | 0 <= i < |ts| :: ts[i].name in mods)
    && (forall m | m in mods :: exists i :: 0 <= i < |ts| && ts[i].name == m)
  }

  /** After the first tag, each comes after the tags of all the modules it depends on. */
  ghost predicate Topological(g: Graph, ts: seq<Tag>) {
    forall i, j | 0 < j < |ts| && 0 <= i < |ts| && ts[j].name in g && ts[i].name in g[ts[j].name].dependencies :: i < j
  }

  /** Each tag after the first captures a go.mod that names the new release of every module released in the run. */
  ghost predicate Consistent(g: Graph, ts: seq<Tag>) {
    forall i, j | 0 < j < |ts| && 0 <= i < |ts| && ts[j].name in g && ts[i].name in g[ts[j].name].dependencies ::
      && ts[j].name in ts[j].snapshot && ts[i].name in ts[j].snapshot[ts[j].name]
      && ts[j].snapshot[ts[j].name][ts[i].name] == ts[i].release
  }

  /** The go.mod of each module names its dependencies. */
  ghost predicate Agrees(g: Graph, files: Files) {
    forall m | m in g && g[m].dependencies != {} :: m in files && g[m].dependencies <= files[m].Keys
  }

  /** Tags in topological order leave no room for a cycle among the modules tagged after the first. */
  lemma TopologicalAcyclic(g: Graph, ts: seq<Tag>, all: set<string>, s: set<string>)
    requires Topological(g, ts) && TagsExactly(ts, all) && s <= all && |ts| > 0 && ts[0].name !in s
    ensures !Cyclic(g, s)
  {
    if c :| IsCycle(g, s, c) {
      var k :| 0 <= k < |ts| && ts[k].name == c[0];
      var at := k;
      for n := 1 to |c|
        invariant 0 <= at < |ts| && ts[at].name == c[n - 1]
        invariant if n == 1 then at == k else at < k
      {
        assert c[(n - 1) + 1] in g[c[n - 1]].dependencies;
        var prev := at;
        at :| 0 <= at < |ts| && ts[at].name == c[n];
        assert ts[prev].name != ts[0].name;
      }
    }
  }

  // ----- the run -----

  predicate SameShape(a: Files, b: Files) {
    a.Keys == b.Keys && forall f | f in a :: a[f].Keys == b[f].Keys
  }

  predicate Requires(files: Files, m: string, dep: string, version: string) {
    m in files && dep in files[m] && files[m][dep] == version
  }

  /** Every go.mod that names a released module names its new release, in the working copy and as committed. */
  ghost predicate Propagated(g: Graph, files: Files, working: Files, committed: Files, ts: seq<Tag>) {
    forall i, m | 0 <= i < |ts| && m in g && ts[i].name in g[m].dependencies && m in files && ts[i].name in files[m] ::
      Requires(working, m, ts[i].name, ts[i].release) && Requires(committed, m, ts[i].name, ts[i].release)
  }

  /** Nothing still to be released is a dependency of what was released after the root. */
  ghost predicate Settled(g: Graph, gone: set<string>, ts: seq<Tag>) {
    forall j | 0 < j < |ts| :: ts[j].name in g && g[ts[j].name].dependencies <= gone
  }

  ghost predicate Versioned(g: Graph, level: Level, next: NextVersion, ts: seq<Tag>) {
    forall i | 0 <= i < |ts| ::
      ts[i].name in g && next(g[ts[i].name].version, if i == 0 then level else Patch) == Some(ts[i].release)
  }

  /**
    What holds of the tags made so far; `gone` are the modules no longer in the graph, `files` the go.mod files at the
    start.
  */
  ghost predicate Progress(g: Graph, root: string, files: Files, gone: set<string>, done: set<string>, ts: seq<Tag>) {
    && |ts| > 0 && ts[0].name == root && root !in done && done <= gone
    && TagsExactly(ts, {root} + done)
    && Topological(g, ts)
    && Settled(g, gone, ts)
    && (Agrees(g, files) ==> Consistent(g, ts))
  }

  lemma PropagateStep(g: Graph, files: Files, working: Files, committed: Files, ts: seq<Tag>, t: Tag)
    requires Mirrored(g) && t.name in g && SameShape(files, working)
    requires Propagated(g, files, working, committed, ts)
    requires forall i | 0 <= i < |ts| :: ts[i].name != t.name
    ensures var after := Bumped(working, g[t.name].downstreams, t.name, t.release);
            && SameShape(files, after)
            && var kept := if Names(working, g[t.name].downstreams, t.name) then after else committed;
            Propagated(g, files, after, kept, ts + [t])
  {
    var ds := g[t.name].downstreams;
    var after := Bumped(working, ds, t.name, t.release);
    var kept := if Names(working, ds, t.name) then after else committed;
    var us := ts + [t];
    forall i, m | 0 <= i < |us| && m in g && us[i].name in g[m].dependencies && m in files && us[i].name in files[m]
      ensures Requires(after, m, us[i].name, us[i].release) && Requires(kept, m, us[i].name, us[i].release)
    {
      if i == |ts| {
        assert m in ds && m in working && t.name in working[m];
      } else {
        assert us[i] == ts[i];
        assert Requires(working, m, ts[i].name, ts[i].release);
      }
    }
  }

  /** Some tag is of a module that the file is a downstream of. */
  ghost predicate Bumps(g: Graph, ts: seq<Tag>, f: string, m: string) {
    exists i :: 0 <= i < |ts| && ts[i].name == m && m in g && f in g[m].downstreams
  }

  ghost predicate Untouched(g: Graph, files: Files, working: Files, ts: seq<Tag>)
    requires SameShape(files, working)
  {
    forall f, m | f in files && m in files[f] && !Bumps(g, ts, f, m) :: working[f][m] == files[f][m]
  }

  /**
    What a run leaves in the go.mod files: each that names a released module it depends on names its new release, as
    committed too; no other requirement has changed; and if nothing was uncommitted before, nothing is after.
  */
  ghost predicate Left(g: Graph, files: Files, recorded: Files, working: Files, committed: Files, ts: seq<Tag>) {
    && SameShape(files, working)
    && Propagated(g, files, working, committed, ts)
    && Untouched(g, files, working, ts)
    && (recorded == files ==> committed == working)
  }

  lemma NothingNamed(files: Files, ds: set<string>, mod: string, release: string)
    requires !Names(files, ds, mod)
    ensures Bumped(files, ds, mod, release) == files
  {
    assert forall f | f in files && f in ds :: mod !in files[f];
  }

  lemma BumpsMore(g: Graph, ts: seq<Tag>, t: Tag, f: string, m: string)
    ensures Bumps(g, ts, f, m) || (t.name == m && m in g && f in g[m].downstreams) ==> Bumps(g, ts + [t], f, m)
  {
    var us := ts + [t];
    assert us[|ts|] == t && forall i | 0 <= i < |ts| :: us[i] == ts[i];
  }

  lemma UntouchedStep(g: Graph, files: Files, working: Files, ts: seq<Tag>, t: Tag)
    requires t.name in g && SameShape(files, working) && Untouched(g, files, working, ts)
    ensures var after := Bumped(working, g[t.name].downstreams, t.name, t.release);
            SameShape(files, after) && Untouched(g, files, after, ts + [t])
  {
    hide Bumps;
    forall f, m ensures Bumps(g, ts, f, m) || (t.name == m && f in g[t.name].downstreams) ==> Bumps(g, ts + [t], f, m) {
      BumpsMore(g, ts, t, f, m);
    }
  }

  lemma LeftStep(g: Graph, files: Files, recorded: Files, working: Files, committed: Files, ts: seq<Tag>, t: Tag)
    requires Mirrored(g) && t.name in g && Left(g, files, recorded, working, committed, ts)
    requires forall i | 0 <= i < |ts| :: ts[i].name != t.name
    ensures var after := Bumped(working, g[t.name].downstreams, t.name, t.release);
            var kept := if Names(working, g[t.name].downstreams, t.name) then after else committed;
            Left(g, files, recorded, after, kept, ts + [t])
  {
    hide Mirrored, Propagated, Untouched, Bumped, Names;
    var ds := g[t.name].downstreams;
    PropagateStep(g, files, working, committed, ts, t);
    UntouchedStep(g, files, working, ts, t);
    if !Names(working, ds, t.name) { NothingNamed(working, ds, t.name, t.release); }
  }

  /** Releasing a module whose remaining dependencies are all gone keeps order and consistency. */
  lemma ReleaseStep(g: Graph, root: string, files: Files, gone: set<string>, done: set<string>, ts: seq<Tag>,
                    working: Files, t: Tag)
    requires Progress(g, root, files, gone, done, ts) && Propagated(g, files, working, t.snapshot, ts)
    requires t.name in g && t.name !in gone && t.name != root && g[t.name].dependencies <= gone
    ensures Progress(g, root, files, gone + {t.name}, done + {t.name}, ts + [t])
  {
    var us := ts + [t];
    var n := |ts|;
    assert us[n] == t;
    assert TagsExactly(us, {root} + (done + {t.name})) by {
      forall m | m in {root} + (done + {t.name}) ensures exists i :: 0 <= i < |us| && us[i].name == m {
        if m == t.name {
          assert us[n].name == m;
        } else {
          var i :| 0 <= i < |ts| && ts[i].name == m;
          assert us[i].name == m;
        }
      }
    }
    assert Topological(g, us);
    if Agrees(g, files) { ConsistentStep(g, files, ts, working, t); }
  }

  lemma ConsistentStep(g: Graph, files: Files, ts: seq<Tag>, working: Files, t: Tag)
    requires Agrees(g, files) && Consistent(g, ts) && Propagated(g, files, working, t.snapshot, ts)
    requires t.name in g && Topological(g, ts + [t])
    ensures Consistent(g, ts + [t])
  {
    var us := ts + [t];
    var n := |ts|;
    forall i, j | 0 < j < |us| && 0 <= i < |us| && us[j].name in g && us[i].name in g[us[j].name].dependencies
      ensures Requires(us[j].snapshot, us[j].name, us[i].name, us[i].release)
    {
      assert i < n;
      if j == n {
        assert t.name in files && ts[i].name in files[t.name];
      } else {
        assert us[i] == ts[i] && us[j] == ts[j];
      }
    }
  }

  /** All a run needs of its surroundings: canonical versions, and a go.mod for every downstream it bumps. */
  ghost predicate GoodInputs(g: Graph, root: string, level: Level, next: NextVersion, files: Files)
    requires root in g
  {
    "" !in g[root].downstreams && Releasable(g, root, level, next, files)
  }

  ghost predicate Releasable(g: Graph, root: string, level: Level, next: NextVersion, files: Files)
    requires root in g
  {
    var q := g[root].downstreams;
    && next(g[root].version, level).Some? && g[root].downstreams <= files.Keys
    && forall m | m in q && m in g :: next(g[m].version, Patch).Some? && g[m].downstreams <= files.Keys
  }

  /** The tags of a complete run: root first, each direct downstream once, in order, on consistent files. */
  ghost predicate Complete(g: Graph, root: string, level: Level, next: NextVersion, files: Files, ts: seq<Tag>)
    requires root in g
  {
    && |ts| > 0 && ts[0].name == root
    && TagsExactly(ts, {root} + g[root].downstreams)
    && Topological(g, ts)
    && Versioned(g, level, next, ts)
    && (Agrees(g, files) ==> Consistent(g, ts))
  }

  /** Keep only the direct downstreams of the root in the graph. */
  method Reduce(repo: RepoData, queue: set<string>)
    modifies repo
    ensures repo.mods == Without(old(repo.mods), old(repo.mods).Keys - queue)
  {
    ghost var g := repo.mods;
    var todo := repo.mods.Keys;
    WithoutNone(g);
    assert g.Keys - queue - todo == {};
    while todo != {}
      invariant todo <= g.Keys
      invariant repo.mods == Without(g, g.Keys - queue - todo)
      decreases todo
    {
      var k :| k in todo;
      if k !in queue {
        WithoutTwice(g, g.Keys - queue - todo, k);
        assert g.Keys - queue - todo + {k} == g.Keys - queue - (todo - {k});
        repo.RemoveModule(k);
      } else {
        assert g.Keys - queue - todo == g.Keys - queue - (todo - {k});
      }
      todo := todo - {k};
    }
    assert g.Keys - queue - todo == g.Keys - queue;
  }

  /** A module none of whose dependencies is left. */
  lemma NoneLeft(g: Graph, gone: set<string>, m: string)
    requires m in g && m !in gone
    ensures |Without(g, gone)[m].dependencies| == 0 <==> g[m].dependencies <= gone
  {
    var left := g[m].dependencies - gone;
    assert Without(g, gone)[m].dependencies == left;
    if g[m].dependencies <= gone {
      assert left == {};
    } else {
      var d :| d in g[m].dependencies && d !in gone;
      assert d in left;
    }
  }

  lemma SomeLeft(g: Graph, gone: set<string>, queue: set<string>, m: string)
    requires Mirrored(g) && queue <= g.Keys && gone == g.Keys - queue && m in queue
    requires |Without(g, gone)[m].dependencies| != 0
    ensures HasNext(g, queue, m)
  {
    NoneLeft(g, gone, m);
    var y :| y in g[m].dependencies && y !in gone;
    assert y in g && y in queue;
  }

  /** When no candidate is ready, what is left of the queue holds a cycle. */
  lemma NothingReady(g: Graph, gone: set<string>, queue: set<string>)
    requires Mirrored(g) && queue != {} && queue <= g.Keys && gone == g.Keys - queue
    requires forall m {:trigger m in queue} | m in queue :: |Without(g, gone)[m].dependencies| != 0
    ensures Cyclic(g, queue)
  {
    forall m | m in queue ensures HasNext(g, queue, m) {
      SomeLeft(g, gone, queue, m);
    }
    StuckIsCyclic(g, queue);
  }

  /** The invariant of the run, on a graph whose two directions agree. */
  ghost predicate Running(g: Graph, root: string, level: Level, next: NextVersion, files: Files, recorded: Files,
                          working: Files, committed: Files, gone: set<string>, done: set<string>, ts: seq<Tag>) {
    && Mirrored(g) && root in g
    && Progress(g, root, files, gone, done, ts) && Versioned(g, level, next, ts)
    && Left(g, files, recorded, working, committed, ts)
  }

  function AfterBump(g: Graph, working: Files, t: Tag): Files
    requires t.name in g
  {
    Bumped(working, g[t.name].downstreams, t.name, t.release)
  }

  ghost function AfterCommit(g: Graph, working: Files, t: Tag): Files
    requires t.name in g
  {
    if Names(working, g[t.name].downstreams, t.name) then AfterBump(g, working, t) else t.snapshot
  }

  lemma RootStep(g: Graph, level: Level, next: NextVersion, files: Files, recorded: Files, t: Tag)
    requires Mirrored(g) && t.name in g && next(g[t.name].version, level) == Some(t.release) && t.snapshot == recorded
    ensures Running(g, t.name, level, next, files, recorded, AfterBump(g, files, t), AfterCommit(g, files, t),
                    g.Keys - g[t.name].downstreams, {}, [t])
  {
    assert Left(g, files, recorded, files, recorded, []);
    LeftStep(g, files, recorded, files, recorded, [], t);
    assert [] + [t] == [t];
    assert [t][0].name == t.name;
  }

  /** A module that depends on itself is never ready, so the root is not released twice. */
  lemma ReadyIsNotRoot(g: Graph, root: string, gone: set<string>, m: string)
    requires Mirrored(g) && root in g && m in g[root].downstreams && m !in gone && m in g && g[m].dependencies <= gone
    ensures m != root
  {
  }

  lemma PickStep(g: Graph, root: string, level: Level, next: NextVersion, files: Files, recorded: Files,
                 working: Files, gone: set<string>, done: set<string>, ts: seq<Tag>, t: Tag)
    requires Running(g, root, level, next, files, recorded, working, t.snapshot, gone, done, ts)
    requires t.name in g && t.name in g[root].downstreams && t.name !in gone && g[t.name].dependencies <= gone
    requires next(g[t.name].version, Patch) == Some(t.release)
    ensures Running(g, root, level, next, files, recorded, AfterBump(g, working, t), AfterCommit(g, working, t),
                    gone + {t.name}, done + {t.name}, ts + [t])
  {
    ReadyIsNotRoot(g, root, gone, t.name);
    ReleaseStep(g, root, files, gone, done, ts, working, t);
    forall i | 0 <= i < |ts| ensures ts[i].name != t.name {
      assert ts[i].name in {root} + done;
    }
    LeftStep(g, files, recorded, working, t.snapshot, ts, t);
  }

  /** A queue worked off completely has released every direct downstream. */
  lemma FinishedIsComplete(g: Graph, root: string, level: Level, next: NextVersion, files: Files, recorded: Files,
                           working: Files, committed: Files, gone: set<string>, done: set<string>, ts: seq<Tag>)
    requires Running(g, root, level, next, files, recorded, working, committed, gone, done, ts)
    requires done == g[root].downstreams
    ensures Complete(g, root, level, next, files, ts) && Left(g, files, recorded, working, committed, ts)
    ensures !Cyclic(g, g[root].downstreams)
  {
    TopologicalAcyclic(g, ts, {root} + done, done);
  }

  /**
    Release the root at the given level and then every direct downstream as a patch, always a module none of
    whose dependencies is left; any ready module may be picked.
  */
  method BumpIterative(mod: string, level: Level, repo: RepoData, next: NextVersion, fs: FS)
    returns (r: Result<(), Error>)
    modifies repo, fs
    ensures mod !in old(repo.mods) ==> r == Err(ModuleNotFound) && unchanged(fs)
    ensures r.Ok? && Mirrored(old(repo.mods)) ==>
              && mod in old(repo.mods)
              && exists ts ::
                  && fs.tags == old(fs.tags) + ts && Complete(old(repo.mods), mod, level, next, old(fs.working), ts)
                  && Left(old(repo.mods), old(fs.working), old(fs.committed), fs.working, fs.committed, ts)
    ensures mod in old(repo.mods) && Mirrored(old(repo.mods)) && fs.reliable
            && GoodInputs(old(repo.mods), mod, level, next, old(fs.working)) ==>
              && (r.Ok? || r == Err(NoNextModule))
              && (r == Err(NoNextModule) <==> Cyclic(old(repo.mods), old(repo.mods)[mod].downstreams))
  {
    hide Mirrored, Running, Cyclic, Complete, Left, Without, Names, Bumped, GoodInputs;
    if mod !in repo.mods { return Err(ModuleNotFound); }
    ghost var g, files, recorded := repo.mods, fs.working, fs.committed;
    var data := repo.mods[mod];
    ghost var snapshot := fs.committed;
    RootBumpSucceeds(g, mod, level, next, files);
    r := BumpModule(mod, level, data, next, fs);
    if r.Err? { return; }
    ghost var t := Tag(mod, next(data.version, level).value, snapshot);
    var queue := data.downstreams;
    Reduce(repo, queue);
    ghost var ts, done, gone := [t], {}, g.Keys - queue;
    if Mirrored(g) { RootStep(g, level, next, files, recorded, t); }
    while queue != {}
      invariant queue == g[mod].downstreams - done && done <= g[mod].downstreams
      invariant gone == g.Keys - queue && repo.mods == Without(g, gone)
      invariant fs.tags == old(fs.tags) + ts
      invariant Mirrored(g) ==> Running(g, mod, level, next, files, recorded, fs.working, fs.committed, gone, done, ts)
      decreases queue
    {
      var nextMod := "";
      if item :| item in queue && repo.GetDependencyCount(item) == 0 {
        nextMod := item;
      } else {
        if Mirrored(g) { StuckRun(g, mod, gone, queue, repo); }
      }
      if nextMod == "" { return Err(NoNextModule); }
      if Mirrored(g) { StillThere(g, mod, gone, queue, nextMod); }
      if nextMod !in repo.mods { return Err(ModuleNotFound); }
      data := repo.mods[nextMod];
      LeftAsBefore(g, gone, nextMod);
      NoneLeft(g, gone, nextMod);
      ghost var working := fs.working;
      snapshot := fs.committed;
      if Mirrored(g) { BumpSucceeds(g, mod, level, next, files, recorded, working, snapshot, gone, done, ts, nextMod); }
      ghost var tags := fs.tags;
      r := BumpModule(nextMod, Patch, data, next, fs);
      if r.Err? { return; }
      t := Tag(nextMod, next(data.version, Patch).value, snapshot);
      if Mirrored(g) { PickStep(g, mod, level, next, files, recorded, working, gone, done, ts, t); }
      WithoutTwice(g, gone, nextMod);
      repo.RemoveModule(nextMod);
      assert tags + [t] == old(fs.tags) + (ts + [t]);
      TakeOut(g.Keys, g[mod].downstreams, done, nextMod);
      ts, done, gone := ts + [t], done + {nextMod}, gone + {nextMod};
      queue := queue - {nextMod};
    }
    if Mirrored(g) {
      assert done == g[mod].downstreams;
      FinishedIsComplete(g, mod, level, next, files, recorded, fs.working, fs.committed, gone, done, ts);
    }
    r := Ok(());
  }

  /** On good inputs no version and no file stands in the way of the next module. */
  lemma BumpSucceeds(g: Graph, root: string, level: Level, next: NextVersion, files: Files, recorded: Files,
                     working: Files, committed: Files, gone: set<string>, done: set<string>, ts: seq<Tag>, m: string)
    requires Running(g, root, level, next, files, recorded, working, committed, gone, done, ts)
    requires m in g && m in g[root].downstreams
    ensures GoodInputs(g, root, level, next, files) ==>
              next(g[m].version, Patch).Some? && g[m].downstreams <= working.Keys
  {
  }

  lemma RootBumpSucceeds(g: Graph, root: string, level: Level, next: NextVersion, files: Files)
    requires root in g
    ensures GoodInputs(g, root, level, next, files) ==>
              next(g[root].version, level).Some? && g[root].downstreams <= files.Keys && "" !in g[root].downstreams
  {
  }

  lemma LeftAsBefore(g: Graph, gone: set<string>, m: string)
    requires m in Without(g, gone)
    ensures m in g && m !in gone
    ensures Without(g, gone)[m].downstreams == g[m].downstreams && Without(g, gone)[m].version == g[m].version
  {
  }

  lemma StillThere(g: Graph, root: string, gone: set<string>, queue: set<string>, m: string)
    requires Mirrored(g) && root in g && m in queue && queue <= g[root].downstreams && gone == g.Keys - queue
    ensures m in Without(g, gone)
  {
  }

  lemma TakeOut(keys: set<string>, all: set<string>, done: set<string>, m: string)
    requires done <= all && m in all - done && m in keys
    ensures all - done - {m} == all - (done + {m}) && done + {m} <= all
    ensures keys - (all - done) + {m} == keys - (all - done - {m})
  {
  }

  lemma StuckRun(g: Graph, root: string, gone: set<string>, queue: set<string>, repo: RepoData)
    requires Mirrored(g) && root in g && queue != {} && queue <= g[root].downstreams
    requires gone == g.Keys - queue && repo.mods == Without(g, gone)
    requires forall m | m in queue :: repo.GetDependencyCount(m) != 0
    ensures Cyclic(g, g[root].downstreams)
  {
    assert queue <= g.Keys;
    forall m {:trigger m in queue} | m in queue ensures |Without(g, gone)[m].dependencies| != 0 {
      assert repo.GetDependencyCount(m) != 0;
    }
    NothingReady(g, gone, queue);
    CyclicMonotone(g, queue, g[root].downstreams);
  }

  // ----- a run on the graph of the modules found -----

  method BuildRepo(adds: seq<Addition>) returns (repo: RepoData)
    ensures fresh(repo) && repo.mods == Built(adds)
  {
    repo := new RepoData();
    for i := 0 to |adds|
      invariant fresh(repo) && repo.mods == Built(adds[..i])
    {
      assert adds[..i + 1][..i] == adds[..i];
      repo.AddMod(adds[i].mod, adds[i].version, adds[i].deps);
    }
    assert adds[..|adds|] == adds;
  }

  /** Modules with names have downstreams with names. */
  lemma NamedDownstreams(adds: seq<Addition>, root: string)
    requires EachOnce(adds) && root in Built(adds) && forall a | a in adds :: a.mod != ""
    ensures "" !in Built(adds)[root].downstreams
  {
    var g := Built(adds);
    BuiltIsMirrored(adds);
    forall k | k in g[root].downstreams ensures k != "" {
      assert root in g[k].dependencies;
      var i :| 0 <= i < |adds| && adds[i].mod == k;
      assert adds[i] in adds;
    }
  }

  /**
    Every module is added once, in any order, and then the root released. A run that succeeds is complete; when no
    version, file or call stands in the way, it fails exactly if the root's downstreams hold a cycle.
  */
  method BuildAndBump(adds: seq<Addition>, mod: string, level: Level, next: NextVersion, fs: FS)
    returns (r: Result<(), Error>)
    requires EachOnce(adds)
    modifies fs
    ensures mod !in Built(adds) ==> r == Err(ModuleNotFound) && unchanged(fs)
    ensures r.Ok? ==>
              && mod in Built(adds)
              && exists ts ::
                  && fs.tags == old(fs.tags) + ts && Complete(Built(adds), mod, level, next, old(fs.working), ts)
                  && Left(Built(adds), old(fs.working), old(fs.committed), fs.working, fs.committed, ts)
    ensures mod in Built(adds) && fs.reliable && (forall a | a in adds :: a.mod != "")
            && Releasable(Built(adds), mod, level, next, old(fs.working)) ==>
              && (r.Ok? || r == Err(NoNextModule))
              && (r == Err(NoNextModule) <==> Cyclic(Built(adds), Built(adds)[mod].downstreams))
  {
    hide Mirrored, Cyclic, Complete, Left, Built, Releasable;
    var repo := BuildRepo(adds);
    BuiltIsMirrored(adds);
    if mod in Built(adds) && forall a | a in adds :: a.mod != "" { NamedDownstreams(adds, mod); }
    r := BumpIterative(mod, level, repo, next, fs);
  }
}
