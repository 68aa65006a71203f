/** A run in which every heartbeat is on time and recovery still hands one name to two exclusive holders. */
module LockGap {
  import opened LockProtocol
  import opened LockSafety
  import opened Wrappers

  /** Every state of the run has only timely holders. */
  ghost predicate TimelyThroughout(s: State, es: seq<Event>) {
    Timely(Exec(s, es)) && (es == [] || TimelyThroughout(s, es[..|es| - 1]))
  }

  /** One event of the run. */
  ghost predicate Leads(s: State, e: Event, t: State) {
    Enabled(s, e) && Apply(s, e) == t && Timely(t)
  }

  ghost predicate Reached(es: seq<Event>, s: State) {
    Valid(Init, es) && TimelyThroughout(Init, es) && Exec(Init, es) == s
  }

  lemma Start()
    ensures Reached([], Init)
  {
  }

  lemma Extend(es: seq<Event>, s: State, e: Event, t: State)
    requires Reached(es, s) && Leads(s, e, t)
    ensures Reached(es + [e], t)
  {
    ExecSnoc(Init, es, e);
    assert (es + [e])[..|es|] == es;
  }

  lemma ExtendTwice(es: seq<Event>, s: State, e: Event, t: State, f: Event, u: State)
    requires Reached(es, s) && Leads(s, e, t) && Leads(t, f, u)
    ensures Reached(es + [e, f], u)
  {
    hide Reached, Leads;
    Extend(es, s, e, t);
    Extend(es + [e], t, f, u);
    assert es + [e] + [f] == es + [e, f];
  }

  // ----- caller 1 gets the lock of inode 0 and does not come to truncate the file -----

  const Slow := Proc(Exclusive, Locked(true), Some(0), NoBeat)

  const FirstEntered := State(None, 0, map[], 0, map[], 0, map[1 := Proc(Exclusive, Attempt(true), None, NoBeat)])
  const FirstOpened := State(Some(0), 1, map[0 := 0], 0, map[0 := File(1, 0, None)], 1,
                             map[1 := Proc(Exclusive, Opened(true), Some(0), NoBeat)])
  const FirstLocked := State(Some(0), 1, map[0 := 0], 0, map[0 := File(1, 0, Some(Exclusive))], 1, map[1 := Slow])
  const FirstAged := State(Some(0), 1, map[0 := 0], 30, map[0 := File(1, 0, Some(Exclusive))], 1, map[1 := Slow])

  lemma FirstCalls()
    ensures Leads(Init, Call(1, Exclusive), FirstEntered)
  {
  }

  lemma FirstOpens()
    ensures Leads(FirstEntered, Open(1), FirstOpened)
  {
  }

  lemma FirstLocks()
    ensures Leads(FirstOpened, Flock(1), FirstLocked)
  {
  }

  lemma TimePasses()
    ensures Leads(FirstLocked, Tick(30), FirstAged)
  {
  }

  // ----- caller 2 is refused and judges the file stale -----

  function Judging(files: map<Fd, File>, nextFd: Fd, pc: Pc, fd: Option<Fd>): State {
    State(Some(0), 1, map[0 := 0], 30, files, nextFd, map[1 := Slow, 2 := Proc(Exclusive, pc, fd, NoBeat)])
  }

  const One := map[0 := File(1, 0, Some(Exclusive))]
  const Two := map[0 := File(1, 0, Some(Exclusive)), 1 := File(2, 0, None)]

  const SecondEntered := Judging(One, 1, Attempt(true), None)
  const SecondOpened := Judging(Two, 2, Opened(true), Some(1))
  const SecondRefused := Judging(Two, 2, Closing(true), Some(1))
  const SecondBarred := Judging(One, 2, FirstFailed, None)
  const SecondRecovering := Judging(One, 2, Recovering, None)
  const SecondUnlinking := Judging(One, 2, Unlinking, None)

  lemma SecondCalls()
    ensures Leads(FirstAged, Call(2, Exclusive), SecondEntered)
  {
  }

  lemma SecondOpens()
    ensures Leads(SecondEntered, Open(2), SecondOpened)
  {
  }

  lemma SecondIsRefused()
    ensures Leads(SecondOpened, Flock(2), SecondRefused)
  {
    assert SecondOpened.files[0].ino == 0 && !CanLock(SecondOpened, 2);
  }

  lemma SecondCloses()
    ensures Leads(SecondRefused, Close(2), SecondBarred)
  {
  }

  lemma SecondRecovers()
    ensures Leads(SecondBarred, Proceed(2), SecondRecovering)
  {
  }

  lemma SecondJudgesStale()
    ensures Leads(SecondRecovering, StatPath(2), SecondUnlinking)
  {
  }

  // ----- caller 1 truncates and passes its check; the judgement is outdated, but caller 2 still unlinks -----

  function Truncating(path: Option<Inode>, first: Proc, second: Pc): State {
    State(path, 1, map[0 := 30], 30, One, 2, map[1 := first, 2 := Proc(Exclusive, second, None, NoBeat)])
  }

  const Kept := Proc(Exclusive, Holding, Some(0), Waiting)

  const FirstTouched := Truncating(Some(0), Proc(Exclusive, Truncated(true), Some(0), NoBeat), Unlinking)
  const FirstHolding := Truncating(Some(0), Kept, Unlinking)
  const PathUnlinked := Truncating(None, Kept, Attempt(false))

  lemma FirstTruncates()
    ensures Leads(SecondUnlinking, Truncate(1, true), FirstTouched)
  {
  }

  lemma FirstHolds()
    ensures Leads(FirstTouched, Check(1), FirstHolding)
  {
  }

  lemma SecondUnlinks()
    ensures Leads(FirstHolding, Remove(2), PathUnlinked)
  {
  }

  // ----- caller 2 locks a fresh file -----

  function Renewed(lock: Option<Mode>, pc: Pc, beat: Beat): State {
    State(Some(1), 2, map[0 := 30, 1 := 30], 30, map[0 := File(1, 0, Some(Exclusive)), 2 := File(2, 1, lock)], 3,
          map[1 := Kept, 2 := Proc(Exclusive, pc, Some(2), beat)])
  }

  const SecondReopened := Renewed(None, Opened(false), NoBeat)
  const SecondLocked := Renewed(Some(Exclusive), Locked(false), NoBeat)
  const SecondTouched := Renewed(Some(Exclusive), Truncated(false), NoBeat)
  const BothHolding := Renewed(Some(Exclusive), Holding, Waiting)

  lemma SecondOpensAnew()
    ensures Leads(PathUnlinked, Open(2), SecondReopened)
  {
  }

  lemma SecondLocksAnew()
    ensures Leads(SecondReopened, Flock(2), SecondLocked)
  {
  }

  lemma SecondTruncates()
    ensures Leads(SecondLocked, Truncate(2, true), SecondTouched)
  {
  }

  lemma SecondHolds()
    ensures Leads(SecondTouched, Check(2), BothHolding)
  {
  }

  /** Caller 1 has the lock of an inode it has not touched for the threshold. */
  lemma SlowOpener() returns (es: seq<Event>)
    ensures Reached(es, FirstAged)
  {
    hide Reached, Leads;
    Start();
    FirstCalls();
    FirstOpens();
    ExtendTwice([], Init, Call(1, Exclusive), FirstEntered, Open(1), FirstOpened);
    es := [] + [Call(1, Exclusive), Open(1)];
    FirstLocks();
    TimePasses();
    ExtendTwice(es, FirstOpened, Flock(1), FirstLocked, Tick(30), FirstAged);
    es := es + [Flock(1), Tick(30)];
  }

  /** Caller 2 has judged the file stale and is about to unlink it. */
  lemma JudgedStale() returns (es: seq<Event>)
    ensures Reached(es, SecondUnlinking)
  {
    hide Reached, Leads;
    es := SlowOpener();
    SecondCalls();
    SecondOpens();
    ExtendTwice(es, FirstAged, Call(2, Exclusive), SecondEntered, Open(2), SecondOpened);
    es := es + [Call(2, Exclusive), Open(2)];
    SecondIsRefused();
    SecondCloses();
    ExtendTwice(es, SecondOpened, Flock(2), SecondRefused, Close(2), SecondBarred);
    es := es + [Flock(2), Close(2)];
    SecondRecovers();
    SecondJudgesStale();
    ExtendTwice(es, SecondBarred, Proceed(2), SecondRecovering, StatPath(2), SecondUnlinking);
    es := es + [Proceed(2), StatPath(2)];
  }

  /** Caller 2 unlinks the file that caller 1 has made fresh and holds, and opens a new one. */
  lemma Hijacked() returns (es: seq<Event>)
    ensures Reached(es, SecondReopened)
  {
    hide Reached, Leads;
    es := JudgedStale();
    FirstTruncates();
    FirstHolds();
    ExtendTwice(es, SecondUnlinking, Truncate(1, true), FirstTouched, Check(1), FirstHolding);
    es := es + [Truncate(1, true), Check(1)];
    SecondUnlinks();
    SecondOpensAnew();
    ExtendTwice(es, FirstHolding, Remove(2), PathUnlinked, Open(2), SecondReopened);
    es := es + [Remove(2), Open(2)];
  }

  lemma BothHold() returns (es: seq<Event>)
    ensures Reached(es, BothHolding)
  {
    hide Reached, Leads;
    es := Hijacked();
    SecondLocksAnew();
    SecondTruncates();
    ExtendTwice(es, SecondReopened, Flock(2), SecondLocked, Truncate(2, true), SecondTouched);
    es := es + [Flock(2), Truncate(2, true)];
    SecondHolds();
    Extend(es, SecondTouched, Check(2), BothHolding);
    es := es + [Check(2)];
  }

  /** The inode check after the lock does not keep two callers from holding the same name. */
  lemma StatRemoveGap() returns (es: seq<Event>)
    ensures Valid(Init, es) && TimelyThroughout(Init, es)
    ensures var s := Exec(Init, es); Clash(s, 1, 2) && s.procs[1].pc == s.procs[2].pc == Holding
  {
    es := BothHold();
    hide Valid, TimelyThroughout, Exec;
    assert BothHolding.procs[1] == Kept;
  }
}
