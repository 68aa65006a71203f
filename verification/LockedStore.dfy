/** The age store used by many callers at once under its file lock: what they do amounts to one operation at a time. */
module LockedStore {
  import opened LockProtocol
  import opened LockSafety
  import opened SecretFiles
  import opened Wrappers
  import DirNames
  import Identifiers
  import AgeStore

  /** What a caller wants of the store, and what it is answered in the end. */
  datatype Use = Use(command: AgeStore.Command, answer: AgeStore.Answer)

  type Uses = Caller -> Use

  /** A step of the lock's protocol, or one call by which a holder reads or changes the directories. */
  datatype Move = Lock(e: Event) | Access(c: Caller, f: Dirs -> Dirs)

  /**
    The lock, the directories, and for each caller what the directories were when it got the lock and what they would
    be by now had it been alone since.
  */
  datatype World = World(lock: State, dirs: Dirs, begun: map<Caller, Dirs>, own: map<Caller, Dirs>)

  predicate Writes(uses: Uses, c: Caller) { uses(c).command.Save? || uses(c).command.Delete? }

  function ModeOf(uses: Uses, c: Caller): Mode { if Writes(uses, c) then Exclusive else Shared }

  predicate Holding(s: State, c: Caller) { c in s.procs && s.procs[c].pc.Holding? }

  /** A change of no directory but the one that a writing command names. */
  ghost predicate Within(uses: Uses, c: Caller, s: Dirs, t: Dirs) {
    if Writes(uses, c) then
      Identifiers.ValidId(uses(c).command.id) &&
      var name := DirNames.IDToDirName(uses(c).command.id);
      t - {name} == s - {name}
    else t == s
  }

  /**
    Writers lock exclusively and readers share; only holders touch the directories, and only as their command does;
    whoever unlocks has kept its command's promise as far as it saw.
  */
  ghost predicate Allowed(store: AgeStore.Store, uses: Uses, w: World, m: Move) {
    match m
    case Lock(e) =>
      && Enabled(w.lock, e)
      && (e.Call? ==> e.mode == ModeOf(uses, e.c) && store.WellFormed(uses(e.c).command))
      && (e.Stop? ==>
            && e.c in w.begun && e.c in w.own && store.WellFormed(uses(e.c).command)
            && store.Obeys(w.begun[e.c], uses(e.c).command, uses(e.c).answer, w.own[e.c]))
    case Access(c, f) =>
      Holding(w.lock, c) && c in w.own && forall d :: Within(uses, c, d, f(d))
  }

  function Next(w: World, m: Move): World {
    match m
    case Lock(e) =>
      var s := Apply(w.lock, e);
      if e.Check? && Holding(s, e.c) then World(s, w.dirs, w.begun[e.c := w.dirs], w.own[e.c := w.dirs])
      else w.(lock := s)
    case Access(c, f) =>
      if c in w.own then w.(dirs := f(w.dirs), own := w.own[c := f(w.own[c])]) else w
  }

  function Play(dirs: Dirs, ms: seq<Move>): World {
    if ms == [] then World(Init, dirs, map[], map[]) else Next(Play(dirs, ms[..|ms| - 1]), ms[|ms| - 1])
  }

  ghost predicate Playable(store: AgeStore.Store, uses: Uses, dirs: Dirs, ms: seq<Move>) {
    ms == [] || (Playable(store, uses, dirs, ms[..|ms| - 1]) &&
                 Allowed(store, uses, Play(dirs, ms[..|ms| - 1]), ms[|ms| - 1]))
  }

  /** The steps of the lock's protocol alone. */
  function Events(ms: seq<Move>): seq<Event> {
    if ms == [] then []
    else Events(ms[..|ms| - 1]) + if ms[|ms| - 1].Lock? then [ms[|ms| - 1].e] else []
  }

  lemma LockStep(store: AgeStore.Store, uses: Uses, w: World, m: Move)
    requires Allowed(store, uses, w, m)
    ensures if m.Lock? then Enabled(w.lock, m.e) && Next(w, m).lock == Apply(w.lock, m.e) else Next(w, m).lock == w.lock
  {
  }

  lemma {:induction false} LockIsProtocol(store: AgeStore.Store, uses: Uses, dirs: Dirs, ms: seq<Move>)
    requires Playable(store, uses, dirs, ms)
    ensures Valid(Init, Events(ms)) && Play(dirs, ms).lock == Exec(Init, Events(ms)) && Inv(Play(dirs, ms).lock)
  {
    assert Inv(Init) && Valid(Init, []) && Exec(Init, []) == Init;
    hide Apply, Enabled, Allowed, Next, Inv, Valid, Exec;
    if ms != [] {
      var n := |ms| - 1;
      LockIsProtocol(store, uses, dirs, ms[..n]);
      LockStep(store, uses, Play(dirs, ms[..n]), ms[n]);
      if ms[n].Lock? {
        ExecSnoc(Init, Events(ms[..n]), ms[n].e);
      } else {
        assert Events(ms[..n]) + [] == Events(ms[..n]);
      }
    }
    RunKeepsInv(Init, Events(ms));
  }

  lemma TimelyPrefix(ms: seq<Move>)
    requires ms != [] && TimelyRun(Events(ms))
    ensures TimelyRun(Events(ms[..|ms| - 1]))
  {
    var es, m := Events(ms[..|ms| - 1]), ms[|ms| - 1];
    if m.Lock? {
      assert Events(ms)[..|es|] == es;
    } else {
      assert Events(ms) == es;
    }
  }

  /** The lock keeps its promise whatever its holders do to the directories. */
  lemma PlayExcludes(store: AgeStore.Store, uses: Uses, dirs: Dirs, ms: seq<Move>)
    requires Playable(store, uses, dirs, ms) && TimelyRun(Events(ms))
    ensures Exclusion(Play(dirs, ms).lock)
  {
    hide Playable, Play, TimelyRun, Exclusion, Valid, Exec, Inv;
    LockIsProtocol(store, uses, dirs, ms);
    MutualExclusion(Events(ms));
  }

  // ----- what the lock gives its holders -----

  /** Only its inode check makes a caller a holder, and nobody else's step unmakes it. */
  lemma HoldersChange(s: State, e: Event, c: Caller)
    requires Inv(s) && Enabled(s, e) && Holding(Apply(s, e), c) && e != Check(c)
    ensures Holding(s, c) && Apply(s, e).procs[c].mode == s.procs[c].mode && e != Stop(c)
  {
    if e.Tick? || e.c != c {
      if c in s.procs { Frame(s, e, c); }
    }
  }

  /** Next to a writer that holds the lock nobody else does. */
  lemma WriterIsAlone(s: State, c: Caller, d: Caller)
    requires Exclusion(s) && Holding(s, c) && Holding(s, d) && s.procs[c].mode == Exclusive
    ensures c == d
  {
    if c != d { assert Clash(s, c, d); }
  }

  /** Every caller asks for the mode its command needs, of a command that is well formed. */
  ghost predicate Modes(uses: Uses, s: State) {
    forall c | c in s.procs ::
      s.procs[c].mode == ModeOf(uses, c) && (Writes(uses, c) ==> Identifiers.ValidId(uses(c).command.id))
  }

  lemma ModeKept(s: State, e: Event, c: Caller)
    requires Inv(s) && Enabled(s, e) && c in Apply(s, e).procs && !(e.Call? && e.c == c)
    ensures c in s.procs && Apply(s, e).procs[c].mode == s.procs[c].mode
  {
    if c in s.procs {
      assert ProcInv(s, c);
      if e.Tick? || e.c != c { Frame(s, e, c); } else { ControlGoes(s, e); }
    }
  }

  /** What every step of the protocol keeps. */
  lemma ProtocolKeeps(store: AgeStore.Store, uses: Uses, w: World, e: Event)
    requires Inv(w.lock) && Modes(uses, w.lock) && Allowed(store, uses, w, Lock(e))
    ensures Enabled(w.lock, e) && Inv(Apply(w.lock, e)) && Modes(uses, Apply(w.lock, e))
    ensures Next(w, Lock(e)) ==
            if e.Check? && Holding(Apply(w.lock, e), e.c)
            then World(Apply(w.lock, e), w.dirs, w.begun[e.c := w.dirs], w.own[e.c := w.dirs])
            else w.(lock := Apply(w.lock, e))
  {
    var s, t := w.lock, Apply(w.lock, e);
    StepKeepsInv(s, e);
    forall c | c in t.procs
      ensures t.procs[c].mode == ModeOf(uses, c) && (Writes(uses, c) ==> Identifiers.ValidId(uses(c).command.id))
    {
      if !(e.Call? && e.c == c) { ModeKept(s, e, c); }
    }
  }

  // ----- the invariant -----

  /** A holder sees the directories as if it were alone, and they were the map's when it got the lock. */
  ghost predicate Isolated(uses: Uses, w: World, v: AgeStore.View, c: Caller) {
    && c in w.begun && c in w.own && w.own[c] == w.dirs
    && AgeStore.Represents(w.begun[c], v) && Within(uses, c, w.begun[c], w.dirs)
  }

  ghost predicate WriterHolds(uses: Uses, s: State) { exists c :: Holding(s, c) && Writes(uses, c) }

  ghost predicate Consistent(uses: Uses, w: World, v: AgeStore.View) {
    && Inv(w.lock) && Modes(uses, w.lock)
    && (forall c | Holding(w.lock, c) :: Isolated(uses, w, v, c))
    && (!WriterHolds(uses, w.lock) ==> AgeStore.Represents(w.dirs, v))
  }

  /**
    How a move changes the map: unlocking completes the caller's command; a writer that dies while it holds the lock
    leaves its identifier in doubt; nothing else changes it.
  */
  ghost predicate Changes(store: AgeStore.Store, uses: Uses, w: World, m: Move, v: AgeStore.View, u: AgeStore.View) {
    if m.Lock? && m.e.Stop? then
      && store.WellFormed(uses(m.e.c).command)
      && store.Follows(v, uses(m.e.c).command, uses(m.e.c).answer, u)
      && (store.Working() ==> store.Succeeds(v, uses(m.e.c).command, uses(m.e.c).answer))
    else if m.Lock? && m.e.Crash? && Holding(w.lock, m.e.c) && Writes(uses, m.e.c) then
      u == AgeStore.Doubting(v, uses(m.e.c).command.id)
    else u == v
  }

  lemma AccessKeeps(store: AgeStore.Store, uses: Uses, w: World, m: Move, v: AgeStore.View)
    requires Consistent(uses, w, v) && Exclusion(w.lock)
    requires m.Access? && Allowed(store, uses, w, m)
    ensures Consistent(uses, Next(w, m), v) && Next(w, m).dirs == m.f(w.dirs)
  {
    hide AgeStore.Represents, Inv;
    var t := Next(w, m);
    assert Isolated(uses, w, v, m.c);
    assert Within(uses, m.c, w.dirs, m.f(w.dirs));
    forall c | Holding(t.lock, c) ensures Isolated(uses, t, v, c) {
      assert Isolated(uses, w, v, c);
      if c != m.c && Writes(uses, m.c) { WriterIsAlone(w.lock, m.c, c); }
    }
    if Writes(uses, m.c) { assert WriterHolds(uses, t.lock); }
  }

  /** Where a caller gets the lock, only readers hold it, and none beside a writer. */
  lemma GrantedAmongReaders(uses: Uses, s: State, e: Event)
    requires Inv(s) && Enabled(s, e) && Modes(uses, Apply(s, e)) && Exclusion(Apply(s, e))
    requires e.Check? && Holding(Apply(s, e), e.c)
    ensures !WriterHolds(uses, s)
    ensures forall c | Holding(Apply(s, e), c) && c != e.c :: Holding(s, c) && !Writes(uses, c) && !Writes(uses, e.c)
  {
    var t := Apply(s, e);
    CheckerIsNoHolder(s, e.c);
    forall c | Holding(s, c) ensures Holding(t, c) { OthersStay(s, e, c); }
    hide Inv, Apply, Enabled, Exclusion;
    forall c | Holding(t, c) && c != e.c ensures Holding(s, c) && !Writes(uses, c) && !Writes(uses, e.c) {
      HoldersChange(s, e, c);
      if Writes(uses, c) { WriterIsAlone(t, c, e.c); }
      if Writes(uses, e.c) { WriterIsAlone(t, e.c, c); }
    }
  }

  /** A caller gets the lock: it begins with what the map says. */
  lemma GrantKeeps(store: AgeStore.Store, uses: Uses, w: World, e: Event, v: AgeStore.View)
    requires Consistent(uses, w, v) && Allowed(store, uses, w, Lock(e))
    requires Exclusion(Apply(w.lock, e)) && e.Check? && Holding(Apply(w.lock, e), e.c)
    ensures Consistent(uses, Next(w, Lock(e)), v)
  {
    hide AgeStore.Represents, Inv, Apply, Enabled, Exclusion, Modes, Next, Allowed, Within;
    ProtocolKeeps(store, uses, w, e);
    GrantedAmongReaders(uses, w.lock, e);
    WithinItself(uses, Apply(w.lock, e), e.c, w.dirs);
    var t := Next(w, Lock(e));
    forall c | Holding(t.lock, c) ensures Isolated(uses, t, v, c) {
      if c != e.c { assert Isolated(uses, w, v, c); }
    }
  }

  lemma WithinItself(uses: Uses, s: State, c: Caller, d: Dirs)
    requires Modes(uses, s) && Holding(s, c)
    ensures Within(uses, c, d, d)
  {
  }

  lemma OthersStay(s: State, e: Event, c: Caller)
    requires Inv(s) && Enabled(s, e) && Holding(s, c) && (e.Tick? || e.c != c)
    ensures Holding(Apply(s, e), c)
  {
    Frame(s, e, c);
  }

  lemma CheckerIsNoHolder(s: State, c: Caller)
    requires Enabled(s, Check(c))
    ensures !Holding(s, c)
  {
  }

  /** A caller gives the lock up, by unlocking or by dying; if it wrote, nobody else holds it. */
  lemma EndKeeps(store: AgeStore.Store, uses: Uses, w: World, e: Event, v: AgeStore.View, u: AgeStore.View)
    requires Consistent(uses, w, v) && Allowed(store, uses, w, Lock(e))
    requires Exclusion(w.lock) && (e.Stop? || e.Crash?) && Holding(w.lock, e.c)
    requires if Writes(uses, e.c) then AgeStore.Represents(w.dirs, u) else u == v
    ensures Consistent(uses, Next(w, Lock(e)), u)
  {
    hide AgeStore.Represents, Inv, Apply, Enabled, Exclusion, Modes, Next, Allowed, Within;
    var s, t := w.lock, Apply(w.lock, e);
    ProtocolKeeps(store, uses, w, e);
    EnderIsNoHolder(s, e);
    assert forall c | Holding(s, c) :: s.procs[c].mode == ModeOf(uses, c) by { ModesSay(uses, s); }
    forall c | Holding(t, c) ensures Holding(s, c) && c != e.c && !Writes(uses, e.c) {
      HoldersChange(s, e, c);
      if Writes(uses, e.c) { WriterIsAlone(s, e.c, c); }
    }
    if !Writes(uses, e.c) && WriterHolds(uses, s) {
      var c :| Holding(s, c) && Writes(uses, c);
      OthersStay(s, e, c);
      assert WriterHolds(uses, t);
    }
  }

  lemma ModesSay(uses: Uses, s: State)
    requires Modes(uses, s)
    ensures forall c | Holding(s, c) :: s.procs[c].mode == ModeOf(uses, c)
  {
  }

  lemma EnderIsNoHolder(s: State, e: Event)
    requires Enabled(s, e) && (e.Stop? || e.Crash?)
    ensures !Holding(Apply(s, e), e.c) && !e.Check?
  {
  }

  /** Any other step of the protocol leaves the holders as they are. */
  lemma OtherKeeps(store: AgeStore.Store, uses: Uses, w: World, e: Event, v: AgeStore.View)
    requires Consistent(uses, w, v) && Allowed(store, uses, w, Lock(e))
    requires !(e.Check? && Holding(Apply(w.lock, e), e.c)) && !e.Stop? && !(e.Crash? && Holding(w.lock, e.c))
    ensures Consistent(uses, Next(w, Lock(e)), v)
  {
    hide AgeStore.Represents, Inv, Apply, Enabled, Modes, Next, Allowed, Within;
    var s, t := w.lock, Apply(w.lock, e);
    ProtocolKeeps(store, uses, w, e);
    forall c | Holding(s, c) ensures Holding(t, c) { HolderStays(s, e, c); }
    forall c | Holding(t, c) ensures Holding(s, c) { HoldersChange(s, e, c); }
  }

  lemma HolderStays(s: State, e: Event, c: Caller)
    requires Inv(s) && Enabled(s, e) && Holding(s, c) && e != Stop(c) && e != Crash(c)
    ensures Holding(Apply(s, e), c)
  {
    if e.Tick? || e.c != c { Frame(s, e, c); }
  }

  /** One move, and the map after it. */
  lemma MoveKeeps(store: AgeStore.Store, uses: Uses, w: World, m: Move, v: AgeStore.View) returns (u: AgeStore.View)
    requires Consistent(uses, w, v) && Allowed(store, uses, w, m)
    requires Exclusion(w.lock) && Exclusion(Next(w, m).lock)
    ensures Consistent(uses, Next(w, m), u) && Changes(store, uses, w, m, v, u)
  {
    hide Consistent, Exclusion, AgeStore.Represents, Apply;
    u := v;
    if m.Access? {
      AccessKeeps(store, uses, w, m, v);
    } else if m.e.Check? && Holding(Apply(w.lock, m.e), m.e.c) {
      GrantKeeps(store, uses, w, m.e, v);
    } else if m.e.Stop? {
      u := Completed(store, uses, w, m.e, v);
      EndKeeps(store, uses, w, m.e, v, u);
    } else if m.e.Crash? && Holding(w.lock, m.e.c) {
      if Writes(uses, m.e.c) { u := Interrupted(store, uses, w, m.e.c, v); }
      EndKeeps(store, uses, w, m.e, v, u);
    } else {
      OtherKeeps(store, uses, w, m.e, v);
    }
  }

  /** The command of a caller that unlocks has taken the map one step. */
  lemma Completed(store: AgeStore.Store, uses: Uses, w: World, e: Event, v: AgeStore.View) returns (u: AgeStore.View)
    requires Consistent(uses, w, v) && e.Stop? && Allowed(store, uses, w, Lock(e))
    ensures Holding(w.lock, e.c) && Changes(store, uses, w, Lock(e), v, u)
    ensures if Writes(uses, e.c) then AgeStore.Represents(w.dirs, u) else u == v
  {
    assert Isolated(uses, w, v, e.c);
    hide AgeStore.Represents, Inv, Modes, Apply, Next, AgeStore.Store.Follows, AgeStore.Store.Succeeds;
    var command, answer := uses(e.c).command, uses(e.c).answer;
    assert store.Steps(w.begun[e.c], command, answer, w.dirs, v);
    u :| AgeStore.Represents(w.dirs, u) && store.Follows(v, command, answer, u) &&
         (store.Working() ==> store.Succeeds(v, command, answer));
  }

  /** The command of a writer that dies leaves its identifier in doubt. */
  lemma Interrupted(store: AgeStore.Store, uses: Uses, w: World, c: Caller, v: AgeStore.View) returns (u: AgeStore.View)
    requires Consistent(uses, w, v) && Holding(w.lock, c) && Writes(uses, c)
    ensures u == AgeStore.Doubting(v, uses(c).command.id) && AgeStore.Represents(w.dirs, u)
  {
    assert Isolated(uses, w, v, c);
    u := AgeStore.Doubting(v, uses(c).command.id);
    store.DoubtRefines(w.begun[c], w.dirs, v, uses(c).command.id);
  }

  /** The maps of a run, one for each move of it. */
  ghost predicate Traces(store: AgeStore.Store, uses: Uses, dirs: Dirs, ms: seq<Move>, views: seq<AgeStore.View>)
  {
    && |views| == |ms| + 1
    && forall i | 0 <= i < |ms| :: Changes(store, uses, Play(dirs, ms[..i]), ms[i], views[i], views[i + 1])
  }

  lemma TraceOn(store: AgeStore.Store, uses: Uses, dirs: Dirs, ms: seq<Move>, m: Move, views: seq<AgeStore.View>,
                u: AgeStore.View)
    requires Traces(store, uses, dirs, ms, views)
    requires Changes(store, uses, Play(dirs, ms), m, views[|ms|], u)
    ensures Traces(store, uses, dirs, ms + [m], views + [u])
  {
    hide Changes, Play;
    var ns, us := ms + [m], views + [u];
    forall i | 0 <= i < |ns| ensures Changes(store, uses, Play(dirs, ns[..i]), ns[i], us[i], us[i + 1]) {
      if i < |ms| {
        assert ns[..i] == ms[..i];
      } else {
        assert ns[..i] == ms;
      }
    }
  }

  /**
    In every interleaving of any number of callers with timely heartbeats and removals of still stale lock files, the
    commands that complete take the map one step each, in the order in which their callers unlock, and are answered as
    the map at that moment demands; a caller's command sees the directories as if it were alone.
  */
  lemma {:induction false} OneAtATime(store: AgeStore.Store, uses: Uses, dirs: Dirs, ms: seq<Move>, v: AgeStore.View)
    returns (views: seq<AgeStore.View>)
    requires Playable(store, uses, dirs, ms) && TimelyRun(Events(ms))
    requires AgeStore.Represents(dirs, v)
    ensures Traces(store, uses, dirs, ms, views) && views[0] == v
    ensures Consistent(uses, Play(dirs, ms), views[|ms|])
  {
    if ms == [] {
      views := [v];
    } else {
      TimelyPrefix(ms);
      var pre, m := ms[..|ms| - 1], ms[|ms| - 1];
      assert Play(dirs, ms) == Next(Play(dirs, pre), m);
      assert Playable(store, uses, dirs, pre) && Allowed(store, uses, Play(dirs, pre), m);
      hide Changes, Consistent, AgeStore.Represents, Allowed, Next, Exclusion, TimelyRun, Events, Play,
           Playable, Traces;
      PlayExcludes(store, uses, dirs, pre);
      PlayExcludes(store, uses, dirs, ms);
      var earlier := OneAtATime(store, uses, dirs, pre, v);
      TracesLength(store, uses, dirs, pre, earlier);
      var u := MoveKeeps(store, uses, Play(dirs, pre), m, earlier[|pre|]);
      TraceOn(store, uses, dirs, pre, m, earlier, u);
      assert pre + [m] == ms;
      views := earlier + [u];
      TracesLength(store, uses, dirs, ms, views);
    }
  }

  lemma TracesLength(store: AgeStore.Store, uses: Uses, dirs: Dirs, ms: seq<Move>, views: seq<AgeStore.View>)
    requires Traces(store, uses, dirs, ms, views)
    ensures |views| == |ms| + 1
  {
  }
}
