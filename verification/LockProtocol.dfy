/**
  The advisory file lock as a step system: any number of callers, each running TryLock or TryRLock and
  later its unlock function, interleaved call by call over one lock-file path.
*/
module LockProtocol {
  import opened Wrappers

  type Caller = nat
  type Inode = nat
  /** An open file description; flock locks belong to it. */
  type Fd = nat

  const STALE_THRESHOLD: int := 30

  datatype Mode = Shared | Exclusive

  datatype File = File(caller: Caller, ino: Inode, lock: Option<Mode>)

  /** Where a caller is; `first` tells tryLock's first attempt from those of the retry loop. */
  datatype Pc =
    | Attempt(first: bool)
    | Opened(first: bool)
    | Locked(first: bool)
    | Truncated(first: bool)
    | Unlocking(first: bool)
    | Closing(first: bool)
    | FirstFailed
    | Recovering
    | Unlinking
    | Backoff
    | Holding
    | Stopping
    | Releasing
    | LastClose(ok: bool)
    | Done(ok: bool)
    | Failed
    | Dead

  /** The heartbeat goroutine of a caller. */
  datatype Beat = NoBeat | Waiting | Checking | Ended

  datatype Proc = Proc(mode: Mode, pc: Pc, fd: Option<Fd>, beat: Beat)

  datatype State = State(
    path: Option<Inode>, nextIno: Inode, mtime: map<Inode, int>, now: int,
    files: map<Fd, File>, nextFd: Fd, procs: map<Caller, Proc>)

  const Init := State(None, 0, map[], 0, map[], 0, map[])

  /**
    One system call, one decision of a caller, or the passing of time; a call that may fail carries its outcome.
    A caller may die at any point, and then the kernel closes its descriptor and with it drops its lock.
  */
  datatype Event =
    | Tick(d: nat)
    | Call(c: Caller, mode: Mode)
    | Open(c: Caller)
    | OpenError(c: Caller)
    | Flock(c: Caller)
    | FlockError(c: Caller)
    | Truncate(c: Caller, ok: bool)
    | Check(c: Caller)
    | CheckError(c: Caller)
    | Release(c: Caller, ok: bool)
    | Close(c: Caller)
    | Cancel(c: Caller)
    | Proceed(c: Caller)
    | StatPath(c: Caller)
    | StatError(c: Caller)
    | Remove(c: Caller)
    | RemoveError(c: Caller)
    | Stop(c: Caller)
    | Join(c: Caller)
    | BeatTruncate(c: Caller, ok: bool)
    | BeatCheck(c: Caller)
    | BeatExit(c: Caller)
    | Crash(c: Caller)

  predicate Enabled(s: State, e: Event) {
    match e
    case Tick(_) => true
    case Call(c, _) => c !in s.procs
    case _ =>
      && e.c in s.procs
      && var p := s.procs[e.c];
      match e
      case Open(_) => p.pc.Attempt?
      case OpenError(_) => p.pc.Attempt?
      case Flock(_) => p.pc.Opened?
      case FlockError(_) => p.pc.Opened?
      case Truncate(_, _) => p.pc.Locked?
      case Check(_) => p.pc.Truncated?
      case CheckError(_) => p.pc.Truncated?
      case Release(_, _) => p.pc.Unlocking? || p.pc.Releasing?
      case Close(_) => p.pc.Closing? || p.pc.LastClose?
      case Cancel(_) => p.pc.FirstFailed? || p.pc.Backoff?
      case Proceed(_) => p.pc.FirstFailed? || p.pc.Backoff?
      case StatPath(_) => p.pc.Recovering?
      case StatError(_) => p.pc.Recovering?
      case Remove(_) => p.pc.Unlinking?
      case RemoveError(_) => p.pc.Unlinking?
      case Stop(_) => p.pc.Holding?
      case Join(_) => p.pc.Stopping? && p.beat.Ended?
      case BeatTruncate(_, _) => p.beat.Waiting?
      case BeatCheck(_) => p.beat.Checking?
      case BeatExit(_) => p.beat.Waiting? && p.pc.Stopping?
      case Crash(_) => !p.pc.Done? && !p.pc.Failed? && !p.pc.Dead?
  }

  // ----- what the kernel does -----

  datatype Effect = Nothing | Advance(d: nat) | CreateFd | DropFd | SetLock(lock: Option<Mode>) | Touch | Unlink

  predicate HasFile(s: State, c: Caller) {
    c in s.procs && s.procs[c].fd.Some? && s.procs[c].fd.value in s.files
  }

  function FileOf(s: State, c: Caller): File
    requires HasFile(s, c)
  {
    s.files[s.procs[c].fd.value]
  }

  predicate Compatible(a: Mode, b: Mode) { a.Shared? && b.Shared? }

  /** flock(LOCK_NB) succeeds unless another description of the same inode holds a conflicting lock. */
  predicate CanLock(s: State, c: Caller) {
    && HasFile(s, c)
    && forall g | g in s.files && g != s.procs[c].fd.value
                  && s.files[g].ino == FileOf(s, c).ino && s.files[g].lock.Some? ::
         Compatible(s.files[g].lock.value, s.procs[c].mode)
  }

  predicate Old(s: State, ino: Inode) {
    ino in s.mtime && s.now - s.mtime[ino] >= STALE_THRESHOLD
  }

  predicate OnPath(s: State, c: Caller) {
    HasFile(s, c) && s.path == Some(FileOf(s, c).ino)
  }

  /** The effect of an event on the path, the inodes and the descriptors; flock fails by having none. */
  function EffectOf(s: State, e: Event): Effect {
    match e
    case Tick(d) => Advance(d)
    case Open(_) => CreateFd
    case Flock(c) => if CanLock(s, c) then SetLock(Some(s.procs[c].mode)) else Nothing
    case Truncate(_, ok) => if ok then Touch else Nothing
    case BeatTruncate(_, ok) => if ok then Touch else Nothing
    case Release(_, ok) => if ok then SetLock(None) else Nothing
    case Close(_) => DropFd
    case Crash(c) => if c in s.procs && s.procs[c].fd.Some? then DropFd else Nothing
    case Remove(_) => Unlink
    case _ => Nothing
  }

  /** Apply an effect asked for by `c`. A missing path gets a fresh inode on open (O_CREATE). */
  function ApplyEffect(s: State, c: Caller, f: Effect): State {
    match f
    case Nothing => s
    case Advance(d) => s.(now := s.now + d)
    case CreateFd =>
      var ino := if s.path.Some? then s.path.value else s.nextIno;
      var t := if s.path.Some? then s
               else s.(path := Some(ino), nextIno := s.nextIno + 1, mtime := s.mtime[ino := s.now]);
      t.(files := s.files[s.nextFd := File(c, ino, None)], nextFd := s.nextFd + 1)
    case DropFd => if HasFile(s, c) then s.(files := s.files - {s.procs[c].fd.value}) else s
    case SetLock(lock) =>
      if HasFile(s, c) then s.(files := s.files[s.procs[c].fd.value := FileOf(s, c).(lock := lock)]) else s
    case Touch => if HasFile(s, c) then s.(mtime := s.mtime[FileOf(s, c).ino := s.now]) else s
    case Unlink => s.(path := None)
  }

  // ----- what the caller does next -----

  function AfterAttempt(first: bool): Pc { if first then FirstFailed else Backoff }

  function Control(s: State, e: Event): Proc
    requires Enabled(s, e) && !e.Tick?
  {
    if e.Call? then Proc(e.mode, Attempt(true), None, NoBeat)
    else
      var p := s.procs[e.c];
      match e
      case Open(_) => p.(pc := Opened(p.pc.first), fd := Some(s.nextFd))
      case OpenError(_) => p.(pc := AfterAttempt(p.pc.first))
      case Flock(c) => p.(pc := if CanLock(s, c) then Locked(p.pc.first) else Closing(p.pc.first))
      case FlockError(_) => p.(pc := Closing(p.pc.first))
      case Truncate(_, _) => p.(pc := Truncated(p.pc.first))
      case Check(c) => if OnPath(s, c) then p.(pc := Holding, beat := Waiting) else p.(pc := Unlocking(p.pc.first))
      case CheckError(_) => p.(pc := Unlocking(p.pc.first))
      case Release(_, ok) => p.(pc := if p.pc.Releasing? then LastClose(ok) else Closing(p.pc.first))
      case Close(_) => p.(pc := if p.pc.LastClose? then Done(p.pc.ok) else AfterAttempt(p.pc.first), fd := None)
      case Cancel(_) => p.(pc := Failed)
      case Proceed(_) => p.(pc := if p.pc.FirstFailed? then Recovering else Attempt(false))
      case StatPath(_) => p.(pc := if s.path.Some? && Old(s, s.path.value) then Unlinking else Attempt(false))
      case StatError(_) => p.(pc := Failed)
      case Remove(_) => p.(pc := Attempt(false))
      case RemoveError(_) => p.(pc := Failed)
      case Stop(_) => p.(pc := Stopping)
      case Join(_) => p.(pc := Releasing)
      case BeatTruncate(_, ok) => p.(beat := if ok then Checking else Waiting)
      case BeatCheck(_) => p.(beat := Waiting)
      case BeatExit(_) => p.(beat := Ended)
      case Crash(_) => p.(pc := Dead, fd := None, beat := NoBeat)
  }

  function Apply(s: State, e: Event): State {
    if !Enabled(s, e) then s
    else if e.Tick? then ApplyEffect(s, 0, EffectOf(s, e))
    else ApplyEffect(s, e.c, EffectOf(s, e)).(procs := s.procs[e.c := Control(s, e)])
  }

  // ----- runs -----

  function Exec(s: State, es: seq<Event>): State {
    if es == [] then s else Apply(Exec(s, es[..|es| - 1]), es[|es| - 1])
  }

  predicate Valid(s: State, es: seq<Event>) {
    es == [] || (Valid(s, es[..|es| - 1]) && Enabled(Exec(s, es[..|es| - 1]), es[|es| - 1]))
  }

  lemma ExecSnoc(s: State, es: seq<Event>, e: Event)
    ensures Exec(s, es + [e]) == Apply(Exec(s, es), e)
    ensures Valid(s, es + [e]) <==> Valid(s, es) && Enabled(Exec(s, es), e)
  {
    assert (es + [e])[..|es|] == es;
  }

  // ----- the invariant -----

  predicate HoldsFd(pc: Pc) {
    pc.Opened? || pc.Closing? || pc.LastClose? || HoldsLock(pc)
  }

  predicate HoldsLock(pc: Pc) {
    pc.Locked? || pc.Truncated? || pc.Unlocking? || Verified(pc)
  }

  /** Past the inode check, with the lock not yet released. */
  predicate Verified(pc: Pc) { pc.Holding? || pc.Stopping? || pc.Releasing? }

  predicate BeatFits(pc: Pc, beat: Beat) {
    match pc
    case Holding => beat.Waiting? || beat.Checking?
    case Stopping => !beat.NoBeat?
    case Releasing => beat.Ended?
    case LastClose(_) => beat.Ended?
    case Done(_) => beat.Ended?
    case _ => beat.NoBeat?
  }

  predicate ProcInv(s: State, c: Caller)
    requires c in s.procs
  {
    var p := s.procs[c];
    && BeatFits(p.pc, p.beat)
    && (HoldsFd(p.pc) <==> p.fd.Some?)
    && (p.fd.Some? ==> HasFile(s, c) && FileOf(s, c).caller == c)
    && (HoldsLock(p.pc) ==> FileOf(s, c).lock == Some(p.mode))
  }

  predicate FileInv(s: State, fd: Fd)
    requires fd in s.files
  {
    var f := s.files[fd];
    fd < s.nextFd && f.ino < s.nextIno && f.ino in s.mtime && f.caller in s.procs && s.procs[f.caller].fd == Some(fd)
  }

  /** No two descriptions of one inode hold conflicting locks: what the kernel guarantees. */
  predicate FlockExclusive(s: State) {
    forall f, g | f in s.files && g in s.files && f != g && s.files[f].ino == s.files[g].ino
                  && s.files[f].lock.Some? && s.files[g].lock.Some? ::
      Compatible(s.files[f].lock.value, s.files[g].lock.value)
  }

  predicate Inv(s: State) {
    && (forall c | c in s.procs :: ProcInv(s, c))
    && (forall fd | fd in s.files :: FileInv(s, fd))
    && (s.path.Some? ==> s.path.value < s.nextIno && s.path.value in s.mtime)
    && FlockExclusive(s)
  }

  /** The caller's next control state goes with the effect it asks for. */
  predicate Goes(p: Proc, f: Effect, q: Proc, nextFd: Fd) {
    && q.mode == p.mode && BeatFits(q.pc, q.beat)
    && match f
       case CreateFd => !HoldsFd(p.pc) && q.pc.Opened? && q.fd == Some(nextFd)
       case DropFd => HoldsFd(p.pc) && !HoldsFd(q.pc) && q.fd == None
       case SetLock(l) =>
         && q.fd == p.fd && HoldsFd(p.pc) && HoldsFd(q.pc)
         && if l.None? then !HoldsLock(q.pc) else p.pc.Opened? && l.value == p.mode
       case _ => q.fd == p.fd && (HoldsFd(q.pc) <==> HoldsFd(p.pc)) && (HoldsLock(q.pc) ==> HoldsLock(p.pc))
  }

  lemma ControlGoes(s: State, e: Event)
    requires Enabled(s, e) && !e.Tick? && !e.Call? && BeatFits(s.procs[e.c].pc, s.procs[e.c].beat)
    requires HoldsFd(s.procs[e.c].pc) <==> s.procs[e.c].fd.Some?
    ensures Goes(s.procs[e.c], EffectOf(s, e), Control(s, e), s.nextFd)
  {
  }

  /** What a step of one caller leaves alone of caller `c`. */
  predicate SameFor(s: State, t: State, c: Caller) {
    && c in s.procs && c in t.procs
    && t.procs[c] == s.procs[c]
    && (HasFile(s, c) ==> HasFile(t, c) && FileOf(t, c) == FileOf(s, c))
  }

  lemma EffectFrame(s: State, d: Caller, f: Effect, c: Caller)
    requires Inv(s) && c in s.procs && d != c
    ensures var t := ApplyEffect(s, d, f); t.procs == s.procs && SameFor(s, t, c)
  {
    if HasFile(s, c) {
      assert ProcInv(s, c) && FileInv(s, s.procs[c].fd.value);
      if HasFile(s, d) { assert ProcInv(s, d); }
    }
  }

  /** Callers do not touch each other's descriptors or locks. */
  lemma Frame(s: State, e: Event, c: Caller)
    requires Inv(s) && Enabled(s, e) && c in s.procs && (e.Tick? || e.c != c)
    ensures SameFor(s, Apply(s, e), c)
  {
    if !e.Tick? { EffectFrame(s, e.c, EffectOf(s, e), c); }
  }

  /** One step, seen as an effect together with the control state that goes with it. */
  function Step(s: State, c: Caller, f: Effect, q: Proc): State {
    ApplyEffect(s, c, f).(procs := s.procs[c := q])
  }

  lemma StepKeepsOwn(s: State, c: Caller, f: Effect, q: Proc)
    requires Inv(s) && c in s.procs && Goes(s.procs[c], f, q, s.nextFd)
    ensures ProcInv(Step(s, c, f, q), c)
  {
    assert ProcInv(s, c);
  }

  lemma StepKeepsFiles(s: State, c: Caller, f: Effect, q: Proc)
    requires Inv(s) && c in s.procs && Goes(s.procs[c], f, q, s.nextFd)
    ensures var t := Step(s, c, f, q);
            && (forall fd | fd in t.files :: FileInv(t, fd))
            && (t.path.Some? ==> t.path.value < t.nextIno && t.path.value in t.mtime)
  {
    var t := Step(s, c, f, q);
    assert ProcInv(s, c);
    forall fd | fd in t.files ensures FileInv(t, fd) {
      if fd in s.files { assert FileInv(s, fd); }
    }
  }

  lemma StepKeepsFlock(s: State, c: Caller, f: Effect, q: Proc)
    requires Inv(s) && c in s.procs && Goes(s.procs[c], f, q, s.nextFd)
    requires f.SetLock? && f.lock.Some? ==> CanLock(s, c)
    ensures FlockExclusive(Step(s, c, f, q))
  {
    assert forall fd | fd in s.files :: FileInv(s, fd);
  }

  lemma StepKeepsInv(s: State, e: Event)
    requires Inv(s) && Enabled(s, e)
    ensures Inv(Apply(s, e))
  {
    var t := Apply(s, e);
    if e.Tick? || e.Call? {
      forall c | c in t.procs ensures ProcInv(t, c) { if c in s.procs { assert ProcInv(s, c); } }
      forall fd | fd in t.files ensures FileInv(t, fd) { assert FileInv(s, fd); }
    } else {
      var c, f, q := e.c, EffectOf(s, e), Control(s, e);
      assert ProcInv(s, c);
      ControlGoes(s, e);
      StepKeepsOwn(s, c, f, q);
      StepKeepsFiles(s, c, f, q);
      StepKeepsFlock(s, c, f, q);
      forall d | d in t.procs ensures ProcInv(t, d) {
        if d != c {
          assert ProcInv(s, d);
          Frame(s, e, d);
        }
      }
    }
  }

  lemma {:induction false} RunKeepsInv(s: State, es: seq<Event>)
    requires Inv(s) && Valid(s, es)
    ensures Inv(Exec(s, es))
  {
    if es != [] {
      RunKeepsInv(s, es[..|es| - 1]);
      StepKeepsInv(Exec(s, es[..|es| - 1]), es[|es| - 1]);
    }
  }
}
