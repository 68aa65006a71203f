/**
  TryLock and its unlock function as sequential code, run while all other callers may step, or die, between any two
  calls. A caller that dies itself runs no further, so its own death is no step of the code.
*/
module LockClient {
  import opened LockProtocol
  import opened Wrappers

  /** A step of caller `c`'s own thread; its heartbeat goroutine runs beside it like the other callers. */
  predicate OwnThread(e: Event, c: Caller) {
    !e.Tick? && e.c == c && !e.BeatTruncate? && !e.BeatCheck? && !e.BeatExit?
  }

  ghost predicate OthersRun(s: State, es: seq<Event>, c: Caller) {
    Valid(s, es) && forall k | 0 <= k < |es| :: !OwnThread(es[k], c)
  }

  /** What the others cannot change of caller `c`: its place in the code, its descriptor, and the lock on it. */
  predicate Mine(s: State, t: State, c: Caller) {
    && c in s.procs && c in t.procs
    && t.procs[c].(beat := s.procs[c].beat) == s.procs[c]
    && (HasFile(s, c) ==> HasFile(t, c) && FileOf(t, c) == FileOf(s, c))
  }

  lemma OneOther(s: State, e: Event, c: Caller)
    requires Inv(s) && Enabled(s, e) && c in s.procs && !OwnThread(e, c)
    ensures Mine(s, Apply(s, e), c)
  {
    if e.Tick? || e.c != c { Frame(s, e, c); }
  }

  lemma {:induction false} OthersKeepMine(s: State, es: seq<Event>, c: Caller)
    requires Inv(s) && c in s.procs && OthersRun(s, es, c)
    ensures Inv(Exec(s, es)) && Mine(s, Exec(s, es), c)
  {
    RunKeepsInv(s, es);
    if es != [] {
      var pre := es[..|es| - 1];
      OthersKeepMine(s, pre, c);
      OneOther(Exec(s, pre), es[|es| - 1], c);
    }
  }

  /** The descriptors the caller has open. */
  ghost function Descriptors(s: State, c: Caller): set<Fd> {
    set fd | fd in s.files && s.files[fd].caller == c
  }

  /** Exactly one descriptor and exactly one flock, of the mode asked for. */
  ghost predicate HasLock(s: State, c: Caller) {
    && c in s.procs && s.procs[c].pc.Holding? && HasFile(s, c)
    && Descriptors(s, c) == {s.procs[c].fd.value}
    && FileOf(s, c).lock == Some(s.procs[c].mode)
  }

  ghost predicate HasNothing(s: State, c: Caller) { Descriptors(s, c) == {} }

  lemma NothingOpen(s: State, c: Caller)
    requires Inv(s) && c in s.procs && !HoldsFd(s.procs[c].pc)
    ensures HasNothing(s, c)
  {
    assert ProcInv(s, c);
    assert forall fd | fd in s.files :: FileInv(s, fd);
  }

  lemma HoldingHasLock(s: State, c: Caller)
    requires Inv(s) && c in s.procs && s.procs[c].pc.Holding?
    ensures HasLock(s, c)
  {
    assert ProcInv(s, c);
    assert forall fd | fd in s.files :: FileInv(s, fd);
  }

  /** `t` comes after `s` in some run of the step system. */
  ghost predicate Reaches(s: State, t: State) {
    exists es :: Valid(s, es) && t == Exec(s, es)
  }

  lemma {:induction false} RunThenRun(s: State, es: seq<Event>, fs: seq<Event>)
    requires Valid(s, es) && Valid(Exec(s, es), fs)
    ensures Valid(s, es + fs) && Exec(s, es + fs) == Exec(Exec(s, es), fs)
    decreases |fs|
  {
    hide Apply, Enabled;
    if fs == [] {
      assert es + fs == es;
    } else {
      var pre := fs[..|fs| - 1];
      RunThenRun(s, es, pre);
      assert (es + fs)[..|es + fs| - 1] == es + pre;
    }
  }

  lemma ReachesOn(s: State, t: State, u: State)
    requires Reaches(s, t) && Reaches(t, u)
    ensures Reaches(s, u)
  {
    hide Exec, Valid;
    var es :| Valid(s, es) && t == Exec(s, es);
    var fs :| Valid(t, fs) && u == Exec(t, fs);
    RunThenRun(s, es, fs);
  }

  lemma OneStepReaches(s: State, e: Event)
    requires Enabled(s, e)
    ensures Reaches(s, Apply(s, e))
  {
    hide Apply, Enabled;
    ExecSnoc(s, [], e);
  }

  /** Where a call may take the thread, whatever it finds. */
  predicate Goto(p: Pc, e: Event, q: Pc) {
    match e
    case Open(_) => p.Attempt? && q == Opened(p.first)
    case OpenError(_) => p.Attempt? && q == AfterAttempt(p.first)
    case Flock(_) => p.Opened? && (q == Locked(p.first) || q == Closing(p.first))
    case FlockError(_) => p.Opened? && q == Closing(p.first)
    case Truncate(_, _) => p.Locked? && q == Truncated(p.first)
    case Check(_) => p.Truncated? && (q == Holding || q == Unlocking(p.first))
    case CheckError(_) => p.Truncated? && q == Unlocking(p.first)
    case Release(_, ok) => if p.Releasing? then q == LastClose(ok) else p.Unlocking? && q == Closing(p.first)
    case Close(_) => if p.LastClose? then q == Done(p.ok) else p.Closing? && q == AfterAttempt(p.first)
    case Cancel(_) => q == Failed
    case Proceed(_) => q == if p.FirstFailed? then Recovering else Attempt(false)
    case StatPath(_) => q == Unlinking || q == Attempt(false)
    case StatError(_) => q == Failed
    case Remove(_) => q == Attempt(false)
    case RemoveError(_) => q == Failed
    case Stop(_) => q == Stopping
    case Join(_) => q == Releasing
    case _ => q == p
  }

  lemma StepGoes(s: State, e: Event)
    requires Enabled(s, e) && !e.Tick? && !e.Call? && !e.Crash?
    ensures var t := Apply(s, e);
            e.c in t.procs && t.procs[e.c].mode == s.procs[e.c].mode && Goto(s.procs[e.c].pc, e, t.procs[e.c].pc)
  {
  }

  lemma StoppingBeat(s: State, c: Caller)
    requires Inv(s) && c in s.procs && s.procs[c].pc.Stopping?
    ensures !s.procs[c].beat.NoBeat?
  {
    assert ProcInv(s, c);
  }

  lemma OwnStep(s: State, e: Event)
    requires Enabled(s, e) && (e.BeatCheck? || e.BeatExit? || e.Join?)
    ensures var p := s.procs[e.c];
            e.c in Apply(s, e).procs && Apply(s, e).procs[e.c] ==
              if e.BeatCheck? then p.(beat := Waiting)
              else if e.BeatExit? then p.(beat := Ended)
              else p.(pc := Releasing)
  {
  }

  // ----- a caller by itself -----

  /** No lock on the file at the path stands in the way of the mode. */
  predicate Free(s: State, mode: Mode) {
    s.path.Some? ==>
      forall g | g in s.files && s.files[g].ino == s.path.value && s.files[g].lock.Some? ::
        Compatible(s.files[g].lock.value, mode)
  }

  predicate Stale(s: State) { s.path.Some? && Old(s, s.path.value) }

  predicate SameWorld(s: State, t: State) {
    t.path == s.path && t.mtime == s.mtime && t.now == s.now && t.files == s.files
  }

  /** The caller has opened the file at the path, which was there or has been created. */
  predicate HasOpened(s: State, t: State, c: Caller, mode: Mode) {
    && c in t.procs && t.procs[c].fd.Some?
    && OnPath(t, c) && t.now == s.now && t.files - {t.procs[c].fd.value} == s.files
    && (CanLock(t, c) <==> Free(s, mode))
    && (s.path.Some? ==> t.path == s.path && t.mtime == s.mtime)
  }

  lemma AloneOpens(s: State, c: Caller)
    requires Inv(s) && c in s.procs && s.procs[c].pc.Attempt?
    ensures HasOpened(s, Apply(s, Open(c)), c, s.procs[c].mode)
  {
    var t := Apply(s, Open(c));
    forall g | g in s.files ensures g != s.nextFd && s.files[g].ino < s.nextIno && t.files[g] == s.files[g] {
      assert FileInv(s, g);
    }
  }

  lemma AloneLocks(s: State, c: Caller)
    requires c in s.procs && s.procs[c].pc.Opened? && OnPath(s, c)
    ensures var t := Apply(s, Flock(c));
            && c in t.procs && t.procs[c].fd == s.procs[c].fd
            && if CanLock(s, c) then t.procs[c].pc.Locked? && OnPath(t, c)
               else t.procs[c].pc.Closing? && SameWorld(s, t)
  {
  }

  lemma AloneTruncates(s: State, c: Caller, ok: bool)
    requires c in s.procs && s.procs[c].pc.Locked? && OnPath(s, c)
    ensures OnPath(Apply(s, Truncate(c, ok)), c)
  {
  }

  lemma AloneChecks(s: State, c: Caller)
    requires c in s.procs && s.procs[c].pc.Truncated? && OnPath(s, c)
    ensures c in Apply(s, Check(c)).procs && Apply(s, Check(c)).procs[c].pc == Holding
  {
  }

  lemma AloneCloses(s: State, c: Caller)
    requires Inv(s) && c in s.procs && s.procs[c].pc.Closing?
    ensures var t := Apply(s, Close(c));
            && s.procs[c].fd.Some? && t.files == s.files - {s.procs[c].fd.value}
            && t.path == s.path && t.mtime == s.mtime && t.now == s.now
  {
    assert ProcInv(s, c);
  }

  lemma AloneJudges(s: State, c: Caller)
    requires c in s.procs && s.procs[c].pc.Recovering?
    ensures var t := Apply(s, StatPath(c));
            && c in t.procs && SameWorld(s, t) && (t.procs[c].pc == Unlinking <==> Stale(s))
  {
  }

  lemma AloneRemoves(s: State, c: Caller)
    requires c in s.procs && s.procs[c].pc.Unlinking?
    ensures Apply(s, Remove(c)).path == None
  {
  }

  lemma AloneWaits(s: State, c: Caller)
    requires Enabled(s, Proceed(c)) || Enabled(s, Cancel(c))
    ensures Enabled(s, Proceed(c)) && SameWorld(s, Apply(s, Proceed(c)))
  {
  }

  class LockFile {
    var s: State
    /** Nobody else takes a step, no call fails, and the context does not end. */
    const calm: bool

    constructor (calm: bool)
      ensures s == Init && this.calm == calm
    {
      s, this.calm := Init, calm;
    }

    /** Whatever the methods do is part of a run of the step system. */
    ghost predicate Sound(c: Caller)
      reads this
    {
      Inv(s) && Reaches(Init, s) && c in s.procs
    }

    /** A caller arrives. */
    method Enter(c: Caller, mode: Mode)
      requires Inv(s) && Reaches(Init, s) && c !in s.procs
      modifies this
      ensures Sound(c) && s.procs[c] == Proc(mode, Attempt(true), None, NoBeat) && SameWorld(old(s), s)
    {
      StepKeepsInv(s, Call(c, mode));
      OneStepReaches(s, Call(c, mode));
      ReachesOn(Init, s, Apply(s, Call(c, mode)));
      s := Apply(s, Call(c, mode));
    }

    /** Everybody else, for as long as they like. */
    method Others(c: Caller)
      requires Sound(c)
      modifies this
      ensures exists es :: OthersRun(old(s), es, c) && s == Exec(old(s), es)
      ensures Sound(c) && Mine(old(s), s, c)
      ensures calm ==> s == old(s)
    {
      assert OthersRun(s, [], c) && s == Exec(s, []);
    }

    /** One call of the thread or of its heartbeat. */
    method Do(e: Event)
      requires !e.Tick? && !e.Call? && !e.Crash? && Sound(e.c) && Enabled(s, e)
      modifies this
      ensures s == Apply(old(s), e) && Sound(e.c)
    {
      hide Exec, Valid, Apply, Enabled;
      StepKeepsInv(s, e);
      StepGoes(s, e);
      OneStepReaches(s, e);
      ReachesOn(Init, s, Apply(s, e));
      s := Apply(s, e);
    }

    /** One call of the thread itself, after any steps of the others. */
    method Next(e: Event)
      requires !e.Tick? && OwnThread(e, e.c) && !e.Call? && !e.Join? && !e.Crash?
      requires Sound(e.c) && Enabled(s, e)
      modifies this
      ensures Sound(e.c) && s.procs[e.c].mode == old(s.procs[e.c].mode)
      ensures Goto(old(s.procs[e.c].pc), e, s.procs[e.c].pc)
      ensures calm ==> s == Apply(old(s), e)
    {
      hide Exec, Valid, Apply, Inv, Reaches;
      Others(e.c);
      StepGoes(s, e);
      Do(e);
    }

    /** Close the descriptor of a failed attempt. */
    method CloseFile(c: Caller)
      requires Sound(c) && s.procs[c].pc.Closing?
      modifies this
      ensures Sound(c) && s.procs[c].mode == old(s.procs[c].mode)
      ensures HasNothing(s, c) && s.procs[c].pc == AfterAttempt(old(s.procs[c].pc.first))
      ensures calm ==>
                && old(s.procs[c].fd).Some? && s.files == old(s.files) - {old(s.procs[c].fd).value}
                && s.path == old(s.path) && s.mtime == old(s.mtime) && s.now == old(s.now)
    {
      hide Inv, Reaches, Apply, Exec, Valid, HasFile, HasNothing, Descriptors;
      AloneCloses(s, c);
      Next(Close(c));
      NothingOpen(s, c);
    }

    /** Release a lock that turned out to be on the wrong file, and close. */
    method Abandon(c: Caller)
      requires Sound(c) && s.procs[c].pc.Unlocking?
      modifies this
      ensures Sound(c) && s.procs[c].mode == old(s.procs[c].mode)
      ensures HasNothing(s, c) && s.procs[c].pc == AfterAttempt(old(s.procs[c].pc.first))
    {
      hide Inv, Reaches, Apply, Exec, Valid, HasNothing;
      var released := *;
      Next(Release(c, released));
      CloseFile(c);
    }

    method OpenFile(c: Caller) returns (ok: bool)
      requires Sound(c) && s.procs[c].pc.Attempt?
      modifies this
      ensures Sound(c) && s.procs[c].mode == old(s.procs[c].mode)
      ensures if ok then s.procs[c].pc == Opened(old(s.procs[c].pc.first))
              else HasNothing(s, c) && s.procs[c].pc == AfterAttempt(old(s.procs[c].pc.first))
      ensures calm ==> ok && HasOpened(old(s), s, c, s.procs[c].mode)
    {
      hide Inv, Reaches, Apply, Exec, Valid, HasOpened, HasNothing, Descriptors, Free;
      AloneOpens(s, c);
      ok := *;
      ok := ok || calm;
      if ok {
        Next(Open(c));
      } else {
        Next(OpenError(c));
        NothingOpen(s, c);
      }
    }

    method FlockFile(c: Caller) returns (ok: bool)
      requires Sound(c) && s.procs[c].pc.Opened?
      modifies this
      ensures Sound(c) && s.procs[c].mode == old(s.procs[c].mode)
      ensures s.procs[c].pc == if ok then Locked(old(s.procs[c].pc.first)) else Closing(old(s.procs[c].pc.first))
      ensures calm && OnPath(old(s), c) ==>
                && (ok <==> CanLock(old(s), c)) && s.procs[c].fd == old(s.procs[c].fd)
                && if ok then OnPath(s, c) else SameWorld(old(s), s)
    {
      hide Inv, Reaches, Apply, Exec, Valid, OnPath, CanLock;
      if OnPath(s, c) { AloneLocks(s, c); }
      var fails := *;
      if fails && !calm { Next(FlockError(c)); } else { Next(Flock(c)); }
      ok := s.procs[c].pc.Locked?;
    }

    /** The truncation may fail without consequence. */
    method TruncateFile(c: Caller)
      requires Sound(c) && s.procs[c].pc.Locked?
      modifies this
      ensures Sound(c) && s.procs[c].mode == old(s.procs[c].mode)
      ensures s.procs[c].pc == Truncated(old(s.procs[c].pc.first))
      ensures calm && OnPath(old(s), c) ==> OnPath(s, c)
    {
      var truncated := *;
      hide Inv, Reaches, Apply, Exec, Valid, OnPath;
      if OnPath(s, c) { AloneTruncates(s, c, truncated); }
      Next(Truncate(c, truncated));
    }

    method IsCurrentLockFile(c: Caller) returns (same: bool)
      requires Sound(c) && s.procs[c].pc.Truncated?
      modifies this
      ensures Sound(c) && s.procs[c].mode == old(s.procs[c].mode)
      ensures s.procs[c].pc == if same then Holding else Unlocking(old(s.procs[c].pc.first))
      ensures calm && OnPath(old(s), c) ==> same
    {
      hide Inv, Reaches, Apply, Exec, Valid, OnPath;
      if OnPath(s, c) { AloneChecks(s, c); }
      var fails := *;
      if fails && !calm { Next(CheckError(c)); } else { Next(Check(c)); }
      same := s.procs[c].pc.Holding?;
    }

    /**
      open, flock, truncate, compare inodes; on any failure release what was taken. By itself an attempt succeeds
      exactly if no lock stands in its way, and otherwise changes nothing.
    */
    method AcquireOnce(c: Caller) returns (ok: bool)
      requires Sound(c) && s.procs[c].pc.Attempt?
      modifies this
      ensures Sound(c) && s.procs[c].mode == old(s.procs[c].mode)
      ensures ok ==> HasLock(s, c)
      ensures !ok ==> HasNothing(s, c) && s.procs[c].pc == AfterAttempt(old(s.procs[c].pc.first))
      ensures calm ==> (ok <==> Free(old(s), old(s.procs[c].mode))) && (!ok ==> SameWorld(old(s), s))
    {
      hide Inv, Reaches, Exec, Valid, Apply, HasLock, HasNothing, Descriptors, FileOf, OnPath, CanLock, Free;
      ghost var before := s;
      FreshIsFree(before, s.procs[c].mode);
      ok := OpenFile(c);
      if !ok { return; }
      ok := FlockFile(c);
      if !ok {
        CloseFile(c);
        return;
      }
      TruncateFile(c);
      ok := IsCurrentLockFile(c);
      if !ok {
        Abandon(c);
        return;
      }
      HoldingHasLock(s, c);
    }

    lemma FreshIsFree(s: State, mode: Mode)
      ensures s.path == None ==> Free(s, mode)
    {
    }

    /** Whether the file at the path is to be unlinked; `failed` if it could not be looked at. */
    method JudgeFile(c: Caller) returns (stale: bool, failed: bool)
      requires Sound(c) && s.procs[c].pc.Recovering?
      modifies this
      ensures Sound(c) && s.procs[c].mode == old(s.procs[c].mode)
      ensures s.procs[c].pc == if failed then Failed else if stale then Unlinking else Attempt(false)
      ensures calm ==> !failed && (stale <==> Stale(old(s))) && SameWorld(old(s), s)
    {
      hide Inv, Reaches, Apply, Exec, Valid, Stale;
      AloneJudges(s, c);
      failed := *;
      failed := failed && !calm;
      if failed { Next(StatError(c)); } else { Next(StatPath(c)); }
      stale := s.procs[c].pc == Unlinking;
    }

    method RemoveFile(c: Caller) returns (ok: bool)
      requires Sound(c) && s.procs[c].pc.Unlinking?
      modifies this
      ensures Sound(c) && s.procs[c].mode == old(s.procs[c].mode)
      ensures s.procs[c].pc == if ok then Attempt(false) else Failed
      ensures calm ==> ok && s.path == None
    {
      hide Inv, Reaches, Apply, Exec, Valid;
      AloneRemoves(s, c);
      ok := *;
      ok := ok || calm;
      if ok { Next(Remove(c)); } else { Next(RemoveError(c)); }
    }

    /**
      Unlink the lock file if its age reached the threshold; false when recovery itself failed. By itself it unlinks
      a stale file, leaves any other, and succeeds.
    */
    method RecoverStaleLock(c: Caller) returns (ok: bool)
      requires Sound(c) && s.procs[c].pc.Recovering?
      modifies this
      ensures Sound(c) && s.procs[c].mode == old(s.procs[c].mode) && HasNothing(s, c)
      ensures s.procs[c].pc == if ok then Attempt(false) else Failed
      ensures calm ==> ok && if Stale(old(s)) then s.path == None else SameWorld(old(s), s)
    {
      hide Inv, Reaches, Apply, Exec, Valid, Stale, HasNothing;
      var stale, failed := JudgeFile(c);
      ok := !failed;
      if stale && ok { ok := RemoveFile(c); }
      NothingOpen(s, c);
    }

    /**
      Fresh attempts until one succeeds or the context ends, here after at most `patience` of them. By itself it
      succeeds exactly if no lock stands in the way.
    */
    method RetryLock(c: Caller, patience: nat) returns (ok: bool)
      requires Sound(c) && s.procs[c].pc == Attempt(false)
      modifies this
      ensures Sound(c) && s.procs[c].mode == old(s.procs[c].mode)
      ensures if ok then HasLock(s, c) else HasNothing(s, c) && s.procs[c].pc.Failed?
      ensures calm ==> (ok <==> Free(old(s), old(s.procs[c].mode)))
    {
      hide Inv, Reaches, Apply, Exec, Valid;
      var left := patience;
      while true
        invariant Sound(c) && s.procs[c].pc == Attempt(false)
        invariant s.procs[c].mode == old(s.procs[c].mode)
        invariant calm ==> SameWorld(old(s), s)
        decreases left
      {
        ok := AcquireOnce(c);
        if ok { return; }
        var ended := *;
        if ended || left == 0 {
          Next(Cancel(c));
          NothingOpen(s, c);
          return;
        }
        AloneWaits(s, c);
        Next(Proceed(c));
        left := left - 1;
      }
    }

    /**
      However many retries: success leaves exactly one descriptor and one flock, failure leaves neither. By itself it
      succeeds exactly if no lock stands in the way or the lock file is stale.
    */
    method TryLock(c: Caller, patience: nat) returns (ok: bool)
      requires Sound(c) && s.procs[c].pc == Attempt(true)
      modifies this
      ensures Sound(c) && s.procs[c].mode == old(s.procs[c].mode)
      ensures if ok then HasLock(s, c) else HasNothing(s, c) && s.procs[c].pc.Failed?
      ensures calm ==> (ok <==> Free(old(s), old(s.procs[c].mode)) || Stale(old(s)))
    {
      hide Inv, Reaches, Apply, Exec, Valid;
      ok := AcquireOnce(c);
      if ok { return; }
      var ended := *;
      if ended && !calm {
        Next(Cancel(c));
        NothingOpen(s, c);
        return;
      }
      AloneWaits(s, c);
      Next(Proceed(c));
      var recovered := RecoverStaleLock(c);
      if !recovered { return; }
      ok := RetryLock(c, patience);
    }

    /** Wait for the heartbeat goroutine: it finishes a tick it is in and then sees the cancelled context. */
    method JoinHeartbeat(c: Caller)
      requires Sound(c) && s.procs[c].pc.Stopping?
      modifies this
      ensures Sound(c) && s.procs[c].pc.Releasing? && s.procs[c].beat.Ended?
    {
      hide Exec, Valid, Reaches, Apply, Inv, ProcInv;
      Others(c);
      StoppingBeat(s, c);
      if s.procs[c].beat.Checking? {
        OwnStep(s, BeatCheck(c));
        Do(BeatCheck(c));
      }
      if s.procs[c].beat.Waiting? {
        OwnStep(s, BeatExit(c));
        Do(BeatExit(c));
      }
      OwnStep(s, Join(c));
      Do(Join(c));
    }

    /**
      The once-only unlock: the first call releases and closes, a later call changes nothing and repeats the result.
    */
    method Unlock(c: Caller) returns (ok: bool)
      requires Sound(c) && (s.procs[c].pc.Holding? || s.procs[c].pc.Done?)
      modifies this
      ensures Sound(c) && s.procs[c].pc == Done(ok) && HasNothing(s, c)
      ensures old(s.procs[c].pc.Done?) ==> s == old(s) && old(s.procs[c].pc.ok) == ok
      ensures calm && old(s.procs[c].pc.Holding?) ==> ok
    {
      hide Inv, Reaches;
      if s.procs[c].pc.Done? {
        NothingOpen(s, c);
        return s.procs[c].pc.ok;
      }
      Next(Stop(c));
      JoinHeartbeat(c);
      ok := *;
      ok := ok || calm;
      Next(Release(c, ok));
      Next(Close(c));
      NothingOpen(s, c);
    }

    /** A whole use of the lock, as the store makes it: whatever happens, nothing of it is left. */
    method LockAndUnlock(c: Caller, mode: Mode, patience: nat) returns (locked: bool)
      requires Inv(s) && Reaches(Init, s) && c !in s.procs
      modifies this
      ensures Sound(c) && HasNothing(s, c) && if locked then s.procs[c].pc.Done? else s.procs[c].pc.Failed?
      ensures calm ==> (locked <==> Free(old(s), mode) || Stale(old(s)))
    {
      Enter(c, mode);
      hide Inv, Reaches;
      locked := TryLock(c, patience);
      if locked {
        var _ := Unlock(c);
      }
    }
  }
}
