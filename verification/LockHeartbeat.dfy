/** What heartbeats are for: they keep a held lock file young, so that holders that beat in time exclude each other. */
module LockHeartbeat {
  import opened LockProtocol
  import opened LockSafety
  import opened Wrappers

  /** A successful truncation of the caller's lock file, on acquiring the lock or by its heartbeat. */
  predicate Refreshes(e: Event, c: Caller) { e == Truncate(c, true) || e == BeatTruncate(c, true) }

  /** A refresh sets the modification time of the caller's own inode to the present, and that of no other. */
  lemma RefreshTouches(s: State, e: Event, c: Caller)
    requires Inv(s) && Enabled(s, e) && Refreshes(e, c)
    ensures var t := Apply(s, e);
            && HasFile(s, c) && HasFile(t, c) && FileOf(t, c) == FileOf(s, c) && t.now == s.now
            && t.mtime == s.mtime[FileOf(s, c).ino := s.now] && !Old(t, FileOf(s, c).ino)
  {
    assert ProcInv(s, c);
  }

  /** A refresh that fails is skipped: nothing has changed, and the heartbeat waits for its next turn. */
  lemma FailedBeatSkipped(s: State, c: Caller)
    requires Enabled(s, BeatTruncate(c, false))
    ensures Apply(s, BeatTruncate(c, false)) == s
  {
    assert s.procs[c].(beat := Waiting) == s.procs[c];
  }

  /** No modification time lies in the future. */
  predicate Past(s: State) { forall i | i in s.mtime :: s.mtime[i] <= s.now }

  lemma EffectTimes(s: State, c: Caller, f: Effect)
    requires Inv(s) && Past(s)
    ensures var t := ApplyEffect(s, c, f);
            && Past(t) && s.now <= t.now && s.nextIno <= t.nextIno
            && forall i | i in s.mtime && i < s.nextIno :: i in t.mtime && s.mtime[i] <= t.mtime[i]
  {
  }

  lemma StepTimes(s: State, e: Event)
    requires Enabled(s, e)
    ensures var f, t := EffectOf(s, e), Apply(s, e);
            exists c :: t.mtime == ApplyEffect(s, c, f).mtime && t.now == ApplyEffect(s, c, f).now
                        && t.nextIno == ApplyEffect(s, c, f).nextIno
  {
    hide EffectOf, ApplyEffect, Control, Enabled;
    var f, t := EffectOf(s, e), Apply(s, e);
    var c := if e.Tick? then 0 else e.c;
    assert t.mtime == ApplyEffect(s, c, f).mtime && t.now == ApplyEffect(s, c, f).now
           && t.nextIno == ApplyEffect(s, c, f).nextIno;
  }

  /** Time only passes, and so do modification times of inodes that exist. */
  lemma TimePasses(s: State, e: Event)
    requires Inv(s) && Enabled(s, e) && Past(s)
    ensures var t := Apply(s, e);
            && Past(t) && s.now <= t.now && s.nextIno <= t.nextIno
            && forall i | i in s.mtime && i < s.nextIno :: i in t.mtime && s.mtime[i] <= t.mtime[i]
  {
    StepTimes(s, e);
    hide Apply, EffectOf, ApplyEffect, Enabled, Inv;
    var f, t := EffectOf(s, e), Apply(s, e);
    var c :| t.mtime == ApplyEffect(s, c, f).mtime && t.now == ApplyEffect(s, c, f).now
             && t.nextIno == ApplyEffect(s, c, f).nextIno;
    EffectTimes(s, c, f);
  }

  lemma {:induction false} AlwaysPast(es: seq<Event>)
    requires Valid(Init, es)
    ensures Past(Exec(Init, es)) && Inv(Exec(Init, es))
  {
    RunKeepsInv(Init, es);
    if es != [] {
      var pre := es[..|es| - 1];
      AlwaysPast(pre);
      hide Apply, Enabled, Past, Inv;
      TimePasses(Exec(Init, pre), es[|es| - 1]);
    }
  }

  /** The last position at which the caller's lock file was refreshed by it, or -1. */
  function LastRefresh(es: seq<Event>, c: Caller): (k: int)
    ensures -1 <= k < |es|
  {
    if es == [] then -1
    else if Refreshes(es[|es| - 1], c) then |es| - 1
    else LastRefresh(es[..|es| - 1], c)
  }

  /** The caller has refreshed the file it opened last, less than the threshold ago. */
  predicate Beating(es: seq<Event>, c: Caller) {
    var k := LastRefresh(es, c);
    0 <= k && Last(es, Open(c)) < k && Exec(Init, es).now - Exec(Init, es[..k]).now < STALE_THRESHOLD
  }

  /** Since a caller's last refresh its inode is at least as young as that. */
  lemma {:induction false} YoungSinceRefresh(es: seq<Event>, c: Caller)
    requires Valid(Init, es) && HasFile(Exec(Init, es), c) && Last(es, Open(c)) < LastRefresh(es, c)
    ensures var s, k := Exec(Init, es), LastRefresh(es, c);
            && 0 <= k < |es| && FileOf(s, c).ino in s.mtime && FileOf(s, c).ino < s.nextIno
            && Exec(Init, es[..k]).now <= s.mtime[FileOf(s, c).ino]
    decreases |es|
  {
    assert -1 <= Last(es, Open(c)) by { LastIs(es, Open(c)); }
    if es != [] {
      var pre, e := es[..|es| - 1], es[|es| - 1];
      var s := Exec(Init, pre);
      AlwaysPast(pre);
      assert Exec(Init, es) == Apply(s, e) && Enabled(s, e) && es[..|es| - 1] == pre;
      hide Apply, Enabled, Inv, Past;
      if Refreshes(e, c) {
        YoungAfterRefresh(s, e, c);
      } else {
        assert LastRefresh(es, c) == LastRefresh(pre, c) && e != Open(c);
        InodeSinceOpen(s, e, c);
        YoungSinceRefresh(pre, c);
        StaysYoung(s, e, c, Exec(Init, pre[..LastRefresh(pre, c)]).now);
        PrefixOfPrefix(es, |es| - 1, LastRefresh(pre, c));
      }
    }
  }

  lemma StaysYoung(s: State, e: Event, c: Caller, since: int)
    requires Inv(s) && Past(s) && Enabled(s, e) && e != Open(c) && HasFile(Apply(s, e), c) && HasFile(s, c)
    requires FileOf(s, c).ino in s.mtime && FileOf(s, c).ino < s.nextIno && since <= s.mtime[FileOf(s, c).ino]
    ensures var t := Apply(s, e);
            FileOf(t, c).ino in t.mtime && FileOf(t, c).ino < t.nextIno && since <= t.mtime[FileOf(t, c).ino]
  {
    hide Apply, Enabled, Inv, Past;
    InodeSinceOpen(s, e, c);
    TimePasses(s, e);
  }

  lemma YoungAfterRefresh(s: State, e: Event, c: Caller)
    requires Inv(s) && Enabled(s, e) && Refreshes(e, c)
    ensures var t := Apply(s, e);
            && HasFile(t, c) && FileOf(t, c).ino in t.mtime && FileOf(t, c).ino < t.nextIno
            && t.mtime[FileOf(t, c).ino] == s.now
  {
    RefreshTouches(s, e, c);
    StepKeepsInv(s, e);
    hide Apply, Enabled;
    FileExists(Apply(s, e), c);
  }

  lemma FileExists(s: State, c: Caller)
    requires Inv(s) && HasFile(s, c)
    ensures FileOf(s, c).ino in s.mtime && FileOf(s, c).ino < s.nextIno
  {
    assert FileInv(s, s.procs[c].fd.value);
  }

  /** If every holder beats in time, every holder is timely. */
  lemma BeatingIsTimely(es: seq<Event>)
    requires Valid(Init, es) && forall c | Holder(Exec(Init, es), c) :: Beating(es, c)
    ensures Timely(Exec(Init, es))
  {
    var s := Exec(Init, es);
    RunKeepsInv(Init, es);
    forall c | Holder(s, c) ensures HasFile(s, c) && !Old(s, FileOf(s, c).ino) {
      assert ProcInv(s, c);
      YoungSinceRefresh(es, c);
    }
  }

  /** At every moment of the run all holders beat in time, and lock files are removed only when they still are stale. */
  ghost predicate BeatingRun(es: seq<Event>) {
    es == [] || (var pre := es[..|es| - 1]; var s := Exec(Init, pre);
                 && BeatingRun(pre) && (forall c | Holder(s, c) :: Beating(pre, c))
                 && StillStale(s, es[|es| - 1]))
  }

  lemma {:induction false} BeatingRunIsTimely(es: seq<Event>)
    requires Valid(Init, es) && BeatingRun(es)
    ensures TimelyRun(es)
  {
    if es != [] {
      BeatingRunIsTimely(es[..|es| - 1]);
      BeatingIsTimely(es[..|es| - 1]);
    }
  }

  /** Callers whose heartbeats succeed in time exclude each other, in every interleaving. */
  lemma HeartbeatsExclude(es: seq<Event>)
    requires Valid(Init, es) && BeatingRun(es)
    ensures AllAtPath(Exec(Init, es)) && Exclusion(Exec(Init, es))
  {
    BeatingRunIsTimely(es);
    MutualExclusion(es);
  }

  /** Recovery spares a lock file that is younger than the threshold and goes on to unlink one that is not. */
  lemma RecoveryJudges(s: State, c: Caller)
    requires Enabled(s, StatPath(c))
    ensures var t := Apply(s, StatPath(c));
            && t == s.(procs := t.procs)
            && t.procs == s.procs[c := s.procs[c].(pc := t.procs[c].pc)]
            && (t.procs[c].pc == Unlinking <==>
                  s.path.Some? && s.path.value in s.mtime && s.mtime[s.path.value] + 30 <= s.now)
            && (t.procs[c].pc != Unlinking ==> t.procs[c].pc == Attempt(false))
  {
  }

  /** So while its holder beats in time, recovery spares the file at the path. */
  lemma BeatingIsSpared(es: seq<Event>, c: Caller, d: Caller)
    requires Valid(Init, es) && Enabled(Exec(Init, es), StatPath(d))
    requires HasFile(Exec(Init, es), c) && OnPath(Exec(Init, es), c) && Beating(es, c)
    ensures Apply(Exec(Init, es), StatPath(d)).procs[d].pc == Attempt(false)
  {
    YoungSinceRefresh(es, c);
    RecoveryJudges(Exec(Init, es), d);
  }

  /** A release lets in whoever else has the file open, unless others still lock it. */
  lemma ReleaseLetsIn(s: State, c: Caller, d: Caller)
    requires Inv(s) && Enabled(s, Release(c, true)) && d != c && HasFile(s, d) && HasFile(s, c)
    requires FileOf(s, d).ino == FileOf(s, c).ino
    requires forall g | g in s.files && s.files[g].ino == FileOf(s, c).ino && s.files[g].lock.Some? ::
              s.files[g].caller == c
    ensures HasFile(Apply(s, Release(c, true)), d) && CanLock(Apply(s, Release(c, true)), d)
  {
    Frame(s, Release(c, true), d);
    forall g | g in s.files && s.files[g].caller == c ensures s.procs[c].fd == Some(g) { assert FileInv(s, g); }
  }

  /** Beside readers a new reader gets the lock of the same file, at once. */
  lemma ReadersShare(s: State, d: Caller) returns (es: seq<Event>)
    requires Inv(s) && s.path.Some? && d !in s.procs
    requires forall g | g in s.files && s.files[g].ino == s.path.value && s.files[g].lock.Some? ::
               s.files[g].lock.value == Shared
    ensures Valid(s, es) && NoRemoval(es) && Holder(Exec(s, es), d) && OnPath(Exec(s, es), d)
    ensures Exec(s, es).path == s.path && Exec(s, es).procs[d].mode == Shared
    ensures forall c | c in s.procs :: c in Exec(s, es).procs && Exec(s, es).procs[c] == s.procs[c]
  {
    hide Exec, Valid, Apply, Enabled;
    es := [Call(d, Shared), Open(d), Flock(d), Truncate(d, true), Check(d)];
    OpenExisting(s, d);
    LockAndCheck(Apply(Apply(s, es[0]), es[1]), d);
    ExecFive(s, es);
    CheckedOnPath(Apply(Apply(s, es[0]), es[1]), d);
  }

  lemma OpenExisting(s: State, d: Caller)
    requires Inv(s) && s.path.Some? && d !in s.procs
    requires forall g | g in s.files && s.files[g].ino == s.path.value && s.files[g].lock.Some? ::
               s.files[g].lock.value == Shared
    ensures var t := Apply(Apply(s, Call(d, Shared)), Open(d));
            && Enabled(s, Call(d, Shared)) && Enabled(Apply(s, Call(d, Shared)), Open(d))
            && t.procs == s.procs[d := Proc(Shared, Opened(true), Some(s.nextFd), NoBeat)]
            && t.path == s.path && OnPath(t, d) && CanLock(t, d)
  {
    var s1 := Apply(s, Call(d, Shared));
    var t := Apply(s1, Open(d));
    forall g | g in s.files ensures g != s.nextFd && t.files[g] == s.files[g] { assert FileInv(s, g); }
  }

  lemma CheckedOnPath(s: State, d: Caller)
    requires d in s.procs && s.procs[d].pc == Opened(true) && OnPath(s, d) && CanLock(s, d)
    ensures var t := Apply(Apply(Apply(s, Flock(d)), Truncate(d, true)), Check(d)); t.path == s.path && OnPath(t, d)
  {
    var s1 := Apply(s, Flock(d));
    assert OnPath(s1, d) && s1.path == s.path && s1.procs[d].pc == Locked(true);
    var s2 := Apply(s1, Truncate(d, true));
    assert OnPath(s2, d) && s2.path == s.path;
  }
}
