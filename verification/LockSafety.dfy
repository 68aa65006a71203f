/** What the lock guarantees over whole runs: with timely heartbeats, without them, and when a removal is safe. */
module LockSafety {
  import opened LockProtocol
  import opened Wrappers

  /** The caller is past its inode check and has not released the lock, whether or not unlock has been called. */
  predicate Holder(s: State, c: Caller) { c in s.procs && Verified(s.procs[c].pc) }

  /** Two callers past their inode checks whose lock modes exclude each other. */
  predicate Clash(s: State, c: Caller, d: Caller) {
    && c != d && Holder(s, c) && Holder(s, d)
    && !Compatible(s.procs[c].mode, s.procs[d].mode)
  }

  ghost predicate AllAtPath(s: State) {
    forall c | Holder(s, c) :: OnPath(s, c)
  }

  ghost predicate Exclusion(s: State) {
    forall c, d | Holder(s, c) && Holder(s, d) :: !Clash(s, c, d)
  }

  /** The kernel lets no two clashing callers share an inode. */
  lemma ClashMeansTwoInodes(s: State, c: Caller, d: Caller)
    requires Inv(s) && Clash(s, c, d)
    ensures HasFile(s, c) && HasFile(s, d) && FileOf(s, c).ino != FileOf(s, d).ino
  {
    assert ProcInv(s, c) && ProcInv(s, d);
  }

  lemma AtPathExcludes(s: State)
    requires Inv(s) && AllAtPath(s)
    ensures Exclusion(s)
  {
    forall c, d | Holder(s, c) && Holder(s, d) ensures !Clash(s, c, d) {
      if Clash(s, c, d) { ClashMeansTwoInodes(s, c, d); }
    }
  }

  // ----- with timely heartbeats -----

  /** Every holder refreshed its inode less than the threshold ago. */
  ghost predicate Timely(s: State) {
    forall c | Holder(s, c) :: HasFile(s, c) && !Old(s, FileOf(s, c).ino)
  }

  /** Recovery's age test, made before the removal, still holds at the removal. */
  predicate StillStale(s: State, e: Event) {
    e.Remove? && s.path.Some? ==> Old(s, s.path.value)
  }

  ghost predicate TimelyRun(es: seq<Event>) {
    es == [] || (var pre := es[..|es| - 1]; var s := Exec(Init, pre);
                 TimelyRun(pre) && Timely(s) && StillStale(s, es[|es| - 1]))
  }

  /** A caller's inode is the one its open found. */
  lemma InodeSinceOpen(s: State, e: Event, c: Caller)
    requires Inv(s) && Enabled(s, e) && e != Open(c) && HasFile(Apply(s, e), c)
    ensures HasFile(s, c) && FileOf(Apply(s, e), c).ino == FileOf(s, c).ino
  {
    if !e.Call? && !e.Tick? && e.c == c {
      ControlGoes(s, e) by { assert ProcInv(s, c); }
      assert ProcInv(s, c);
    } else if c in s.procs {
      Frame(s, e, c);
      assert ProcInv(s, c);
    }
  }

  lemma OnlyCheckVerifies(s: State, e: Event, c: Caller)
    requires Inv(s) && Enabled(s, e) && c in Apply(s, e).procs && Verified(Apply(s, e).procs[c].pc)
    ensures c in s.procs && e != Open(c)
    ensures if e == Check(c) then OnPath(s, c) && OnPath(Apply(s, e), c) else Verified(s.procs[c].pc)
  {
    if e.Tick? || e.c != c {
      if c in s.procs { Frame(s, e, c); }
    }
  }

  /** Only the removal of a holder's inode parts a holder from the path. */
  lemma StepKeepsAtPath(s: State, e: Event)
    requires Inv(s) && Enabled(s, e) && AllAtPath(s)
    requires e.Remove? ==> forall c | Holder(s, c) :: !OnPath(s, c)
    ensures AllAtPath(Apply(s, e))
  {
    var t := Apply(s, e);
    forall c | Holder(t, c) ensures OnPath(t, c) {
      OnlyCheckVerifies(s, e, c);
      if e != Check(c) {
        assert Holder(s, c) && OnPath(s, c);
        assert t.path == s.path;
        StepKeepsInv(s, e);
        assert ProcInv(t, c);
        InodeSinceOpen(s, e, c);
      }
    }
  }

  /** In every interleaving with timely heartbeats and removals of still stale files, every holder is at the path. */
  lemma {:induction false} MutualExclusion(es: seq<Event>)
    requires Valid(Init, es) && TimelyRun(es)
    ensures AllAtPath(Exec(Init, es)) && Exclusion(Exec(Init, es))
  {
    RunKeepsInv(Init, es);
    if es != [] {
      var pre, e := es[..|es| - 1], es[|es| - 1];
      MutualExclusion(pre);
      RunKeepsInv(Init, pre);
      StepKeepsAtPath(Exec(Init, pre), e);
    }
    AtPathExcludes(Exec(Init, es));
  }

  // ----- with no timing assumption -----

  /** The last position of `e` in the run, or -1. */
  function Last(es: seq<Event>, e: Event): int {
    if es == [] then -1 else if es[|es| - 1] == e then |es| - 1 else Last(es[..|es| - 1], e)
  }

  lemma PrefixOfPrefix(es: seq<Event>, b: nat, a: nat)
    requires a <= b <= |es|
    ensures es[..b][..a] == es[..a]
  {
  }

  lemma OpenSeesPath(s: State, c: Caller)
    requires Inv(s) && Enabled(s, Open(c))
    ensures var t := Apply(s, Open(c)); HasFile(t, c) && t.path == Some(FileOf(t, c).ino)
  {
  }

  /** A descriptor in hand was opened by the caller's last open, when the path named its inode. */
  lemma {:induction false} OpenedAt(es: seq<Event>, c: Caller)
    requires Valid(Init, es) && HasFile(Exec(Init, es), c)
    ensures var o := Last(es, Open(c));
            0 <= o < |es| && Exec(Init, es[..o + 1]).path == Some(FileOf(Exec(Init, es), c).ino)
  {
    assert Inv(Init);
    hide Apply, Enabled, Inv;
    if es != [] {
      var pre, e := es[..|es| - 1], es[|es| - 1];
      RunKeepsInv(Init, pre);
      if e == Open(c) {
        assert es[..|es|] == es;
        OpenSeesPath(Exec(Init, pre), c);
      } else {
        InodeSinceOpen(Exec(Init, pre), e, c);
        OpenedAt(pre, c);
        PrefixOfPrefix(es, |es| - 1, Last(pre, Open(c)) + 1);
      }
    }
  }

  /** A verified caller passed its last inode check after its last open, when the path named its inode. */
  lemma {:induction false} CheckedAt(es: seq<Event>, c: Caller)
    requires Valid(Init, es)
    requires var t := Exec(Init, es); HasFile(t, c) && Verified(t.procs[c].pc)
    ensures var k := Last(es, Check(c));
            0 <= Last(es, Open(c)) < k < |es| && Exec(Init, es[..k]).path == Some(FileOf(Exec(Init, es), c).ino)
  {
    if es != [] {
      var pre, e := es[..|es| - 1], es[|es| - 1];
      var s := Exec(Init, pre);
      RunKeepsInv(Init, pre);
      OnlyCheckVerifies(s, e, c);
      InodeSinceOpen(s, e, c);
      OpenedAt(pre, c);
      if e != Check(c) {
        CheckedAt(pre, c);
        PrefixOfPrefix(es, |es| - 1, Last(pre, Check(c)));
      }
    }
  }

  lemma LastIs(es: seq<Event>, e: Event)
    ensures -1 <= Last(es, e) < |es|
    ensures Last(es, e) >= 0 ==> es[Last(es, e)] == e
  {
  }

  lemma StepNamesFresh(s: State, e: Event, i: Inode)
    requires i < s.nextIno
    ensures i < Apply(s, e).nextIno && (s.path != Some(i) ==> Apply(s, e).path != Some(i))
  {
  }

  /** An inode that has left the path never returns to it. */
  lemma {:induction false} GoneForGood(es: seq<Event>, a: nat, i: Inode)
    requires Valid(Init, es) && a <= |es|
    requires i < Exec(Init, es[..a]).nextIno
    ensures i < Exec(Init, es).nextIno
    ensures Exec(Init, es[..a]).path != Some(i) ==> Exec(Init, es).path != Some(i)
  {
    hide Apply, Enabled;
    if a == |es| {
      assert es[..a] == es;
    } else {
      PrefixOfPrefix(es, |es| - 1, a);
      GoneForGood(es[..|es| - 1], a, i);
      StepNamesFresh(Exec(Init, es[..|es| - 1]), es[|es| - 1], i);
    }
  }

  /** If the path named inode `i` and no longer does, a removal in between unlinked it. */
  lemma {:induction false} UnlinkBetween(es: seq<Event>, a: nat, i: Inode) returns (u: nat)
    requires Valid(Init, es) && a <= |es|
    requires Exec(Init, es[..a]).path == Some(i) && Exec(Init, es).path != Some(i)
    ensures a <= u < |es| && es[u].Remove? && Exec(Init, es[..u]).path == Some(i)
  {
    var n := |es| - 1;
    assert es[..|es|] == es;
    if Exec(Init, es[..n]).path == Some(i) {
      u := n;
    } else {
      PrefixOfPrefix(es, n, a);
      u := UnlinkBetween(es[..n], a, i);
      PrefixOfPrefix(es, n, u);
    }
  }

  lemma {:induction false} ValidPrefix(s: State, es: seq<Event>, k: nat)
    requires Valid(s, es) && k <= |es|
    ensures Valid(s, es[..k])
  {
    if k == |es| {
      assert es[..k] == es;
    } else {
      ValidPrefix(s, es[..|es| - 1], k);
      PrefixOfPrefix(es, |es| - 1, k);
    }
  }

  /** What the open and the inode check of a verified caller saw on the path. */
  lemma SeenOnPath(es: seq<Event>, c: Caller)
    requires Valid(Init, es) && c in Exec(Init, es).procs && Verified(Exec(Init, es).procs[c].pc)
    ensures var s, o, k := Exec(Init, es), Last(es, Open(c)), Last(es, Check(c));
            && HasFile(s, c) && 0 <= o < k < |es| && es[k] == Check(c) && es[o] == Open(c)
            && Exec(Init, es[..o + 1]).path == Exec(Init, es[..k]).path == Some(FileOf(s, c).ino)
  {
    RunKeepsInv(Init, es);
    assert ProcInv(Exec(Init, es), c);
    OpenedAt(es, c);
    CheckedAt(es, c);
    LastIs(es, Open(c));
    LastIs(es, Check(c));
  }

  /** A path that named `j` before and after names it all the time between. */
  lemma NamedThroughout(es: seq<Event>, a: nat, m: nat, b: nat, j: Inode)
    requires Valid(Init, es) && a <= m <= b <= |es|
    requires Exec(Init, es[..a]).path == Exec(Init, es[..b]).path == Some(j)
    ensures Exec(Init, es[..m]).path == Some(j)
  {
    ValidPrefix(Init, es, a);
    RunKeepsInv(Init, es[..a]);
    ValidPrefix(Init, es, m);
    PrefixOfPrefix(es, m, a);
    GoneForGood(es[..m], a, j);
    ValidPrefix(Init, es, b);
    PrefixOfPrefix(es, b, m);
    GoneForGood(es[..b], m, j);
  }

  /** Some removal between positions `a` and `b` unlinked `i`. */
  lemma UnlinkedWithin(es: seq<Event>, a: nat, b: nat, i: Inode) returns (u: nat)
    requires Valid(Init, es) && a <= b <= |es|
    requires Exec(Init, es[..a]).path == Some(i) && Exec(Init, es[..b]).path != Some(i)
    ensures a <= u < b && es[u].Remove? && Exec(Init, es[..u]).path == Some(i)
  {
    ValidPrefix(Init, es, b);
    PrefixOfPrefix(es, b, a);
    u := UnlinkBetween(es[..b], a, i);
    PrefixOfPrefix(es, b, u);
  }

  lemma LaterOpensAfterCheck(es: seq<Event>, c: Caller, d: Caller)
    requires Valid(Init, es) && Clash(Exec(Init, es), c, d)
    requires Last(es, Check(c)) <= Last(es, Check(d))
    ensures Last(es, Check(c)) < Last(es, Open(d))
  {
    hide Exec, Valid;
    RunKeepsInv(Init, es);
    hide Inv, Last;
    ClashMeansTwoInodes(Exec(Init, es), c, d);
    SeenOnPath(es, c);
    SeenOnPath(es, d);
    var k, o, kd := Last(es, Check(c)), Last(es, Open(d)), Last(es, Check(d));
    if o < k { NamedThroughout(es, o + 1, k, kd, FileOf(Exec(Init, es), d).ino); }
  }

  /**
    With no assumption on time: if two verified callers clash, they hold different inodes, and between the
    inode check of the earlier one and the open of the later one a removal unlinked the earlier one's inode.
  */
  lemma ClashHistory(es: seq<Event>, c: Caller, d: Caller) returns (u: nat)
    requires Valid(Init, es) && Clash(Exec(Init, es), c, d)
    requires Last(es, Check(c)) <= Last(es, Check(d))
    ensures var s := Exec(Init, es);
            && HasFile(s, c) && HasFile(s, d) && FileOf(s, c).ino != FileOf(s, d).ino
            && 0 <= Last(es, Check(c)) < u < Last(es, Open(d)) < Last(es, Check(d)) < |es|
            && es[u].Remove? && Exec(Init, es[..u]).path == Some(FileOf(s, c).ino)
  {
    hide Exec, Valid;
    var s := Exec(Init, es);
    LaterOpensAfterCheck(es, c, d);
    RunKeepsInv(Init, es);
    ClashMeansTwoInodes(s, c, d);
    SeenOnPath(es, c);
    SeenOnPath(es, d);
    var k, o := Last(es, Check(c)), Last(es, Open(d));
    u := UnlinkedWithin(es, k, o + 1, FileOf(s, c).ino);
  }

  // ----- exactly when a removal is safe -----

  ghost predicate NoRemoval(es: seq<Event>) {
    forall k | 0 <= k < |es| :: !es[k].Remove?
  }

  lemma {:induction false} QuietRunKeepsAtPath(s: State, es: seq<Event>)
    requires Inv(s) && AllAtPath(s) && Valid(s, es) && NoRemoval(es)
    ensures Inv(Exec(s, es)) && AllAtPath(Exec(s, es))
  {
    if es != [] {
      var pre, e := es[..|es| - 1], es[|es| - 1];
      QuietRunKeepsAtPath(s, pre);
      StepKeepsInv(Exec(s, pre), e);
      StepKeepsAtPath(Exec(s, pre), e);
    }
  }

  lemma {:induction false} FreshCaller(cs: set<Caller>) returns (d: Caller)
    ensures forall c | c in cs :: c < d
  {
    if cs == {} {
      d := 0;
    } else {
      var x :| x in cs;
      var e := FreshCaller(cs - {x});
      d := if x < e then e else x + 1;
      assert forall c | c in cs :: c == x || c in cs - {x};
    }
  }

  lemma OpenFresh(s: State, d: Caller, mode: Mode)
    requires Inv(s) && s.path == None && d !in s.procs
    ensures var t := Apply(Apply(s, Call(d, mode)), Open(d));
            && Enabled(s, Call(d, mode)) && Enabled(Apply(s, Call(d, mode)), Open(d))
            && t.procs == s.procs[d := Proc(mode, Opened(true), Some(s.nextFd), NoBeat)]
            && OnPath(t, d) && CanLock(t, d)
  {
    assert forall fd | fd in s.files :: FileInv(s, fd);
  }

  lemma LockAndCheck(s: State, d: Caller)
    requires d in s.procs && s.procs[d].pc == Opened(true) && OnPath(s, d) && CanLock(s, d)
    ensures var s1 := Apply(s, Flock(d)); var s2 := Apply(s1, Truncate(d, true)); var t := Apply(s2, Check(d));
            && Enabled(s, Flock(d)) && Enabled(s1, Truncate(d, true)) && Enabled(s2, Check(d))
            && t.procs == s.procs[d := s.procs[d].(pc := Holding, beat := Waiting)]
  {
    var s1 := Apply(s, Flock(d));
    assert s1.procs == s.procs[d := s.procs[d].(pc := Locked(true))] && OnPath(s1, d);
    var s2 := Apply(s1, Truncate(d, true));
    assert s2.procs == s.procs[d := s.procs[d].(pc := Truncated(true))] && OnPath(s2, d);
  }

  /** With nothing at the path, one undisturbed attempt of a new caller succeeds, whoever holds orphaned inodes. */
  lemma AcquireFresh(s: State, d: Caller, mode: Mode) returns (es: seq<Event>)
    requires Inv(s) && s.path == None && d !in s.procs
    ensures Valid(s, es) && NoRemoval(es)
    ensures Holder(Exec(s, es), d) && Exec(s, es).procs[d].pc == Holding && Exec(s, es).procs[d].mode == mode
    ensures forall c | c in s.procs :: c in Exec(s, es).procs && Exec(s, es).procs[c] == s.procs[c]
  {
    hide Exec, Valid, Apply, Enabled;
    es := [Call(d, mode), Open(d), Flock(d), Truncate(d, true), Check(d)];
    OpenFresh(s, d, mode);
    LockAndCheck(Apply(Apply(s, es[0]), es[1]), d);
    ExecFive(s, es);
  }

  lemma ExecFive(s: State, es: seq<Event>)
    requires |es| == 5
    ensures var s1 := Apply(s, es[0]); var s2 := Apply(s1, es[1]);
            var s3 := Apply(s2, es[2]); var s4 := Apply(s3, es[3]);
            && Exec(s, es) == Apply(s4, es[4])
            && (Valid(s, es) <==>
                  && Enabled(s, es[0]) && Enabled(s1, es[1]) && Enabled(s2, es[2])
                  && Enabled(s3, es[3]) && Enabled(s4, es[4]))
  {
    hide Apply, Enabled;
    ExecSnoc(s, [], es[0]);
    assert [] + [es[0]] == es[..1] && es[..1] + [es[1]] == es[..2] && es[..2] + [es[2]] == es[..3];
    assert es[..3] + [es[3]] == es[..4] && es[..4] + [es[4]] == es;
    ExecSnoc(s, es[..1], es[1]);
    ExecSnoc(s, es[..2], es[2]);
    ExecSnoc(s, es[..3], es[3]);
    ExecSnoc(s, es[..4], es[4]);
  }

  /** No run without further removals ends in two clashing holders. */
  ghost predicate SafeUntilNextRemoval(s: State) {
    forall es | Valid(s, es) && NoRemoval(es) :: Exclusion(Exec(s, es))
  }

  /** Unlinking is safe exactly when no holder has the inode at the path. */
  lemma RemovalSafeIffUnheld(s: State, r: Caller)
    requires Inv(s) && AllAtPath(s) && Enabled(s, Remove(r))
    ensures SafeUntilNextRemoval(Apply(s, Remove(r))) <==> forall c | Holder(s, c) :: !OnPath(s, c)
  {
    var t := Apply(s, Remove(r));
    assert t.path == None && t.procs.Keys == s.procs.Keys;
    hide Exec, Valid, Inv, Apply, Enabled;
    StepKeepsInv(s, Remove(r));
    if forall c | Holder(s, c) :: !OnPath(s, c) {
      StepKeepsAtPath(s, Remove(r));
      forall es | Valid(t, es) && NoRemoval(es) ensures Exclusion(Exec(t, es)) {
        QuietRunKeepsAtPath(t, es);
        AtPathExcludes(Exec(t, es));
      }
    } else {
      var c :| Holder(s, c) && OnPath(s, c);
      var d := FreshCaller(t.procs.Keys);
      RemoverIsNoHolder(s, r);
      Frame(s, Remove(r), c);
      HolderOrphaned(t, c, d);
    }
  }

  lemma RemoverIsNoHolder(s: State, r: Caller)
    requires Enabled(s, Remove(r))
    ensures r in s.procs && !Verified(s.procs[r].pc)
  {
  }

  lemma HolderOrphaned(t: State, c: Caller, d: Caller)
    requires Inv(t) && t.path == None && Holder(t, c) && d !in t.procs
    ensures !SafeUntilNextRemoval(t)
  {
    hide Exec, Valid;
    var es := AcquireFresh(t, d, Exclusive);
    assert Holder(Exec(t, es), c) && Clash(Exec(t, es), c, d);
  }

  // ----- the heartbeat and the end of a lock -----

  /** While the heartbeat runs, the descriptor it touches is open, is the caller's own, and carries the lock. */
  lemma HeartbeatTouchesOwnLock(es: seq<Event>, c: Caller)
    requires Valid(Init, es)
    requires var s := Exec(Init, es); c in s.procs && (s.procs[c].beat.Waiting? || s.procs[c].beat.Checking?)
    ensures var s := Exec(Init, es);
            HasFile(s, c) && FileOf(s, c).caller == c && FileOf(s, c).lock == Some(s.procs[c].mode)
  {
    RunKeepsInv(Init, es);
    assert ProcInv(Exec(Init, es), c);
  }

  /** Unlock closes the descriptor only after the heartbeat has ended. */
  lemma CloseAfterHeartbeat(es: seq<Event>, c: Caller)
    requires Valid(Init, es) && Enabled(Exec(Init, es), Close(c)) && Exec(Init, es).procs[c].pc.LastClose?
    ensures Exec(Init, es).procs[c].beat == Ended && !HasFile(Apply(Exec(Init, es), Close(c)), c)
  {
    RunKeepsInv(Init, es);
    assert ProcInv(Exec(Init, es), c);
  }

  /** A finished caller takes no further step, so its heartbeat and its descriptor are never touched again. */
  lemma {:induction false} DoneIsFinal(s: State, es: seq<Event>, c: Caller)
    requires Inv(s) && Valid(s, es) && c in s.procs && s.procs[c].pc.Done?
    ensures c in Exec(s, es).procs && Exec(s, es).procs[c] == s.procs[c]
    ensures forall k | 0 <= k < |es| :: es[k].Tick? || es[k].c != c
  {
    if es != [] {
      var pre, e := es[..|es| - 1], es[|es| - 1];
      DoneIsFinal(s, pre, c);
      RunKeepsInv(s, pre);
      assert ProcInv(s, c);
      NothingLeft(Exec(s, pre), e, c);
      Frame(Exec(s, pre), e, c);
    }
  }

  /** A caller that dies leaves neither a descriptor nor a lock, and takes nothing of anybody else's along. */
  lemma DeathReleases(s: State, c: Caller, d: Caller)
    requires Inv(s) && Enabled(s, Crash(c)) && d in s.procs && d != c
    ensures var t := Apply(s, Crash(c));
            && Inv(t) && t.path == s.path && SameFor(s, t, d)
            && forall fd | fd in t.files :: t.files[fd].caller != c
  {
    StepKeepsInv(s, Crash(c));
    Frame(s, Crash(c), d);
    var t := Apply(s, Crash(c));
    assert t.procs[c].fd == None;
    forall fd | fd in t.files ensures t.files[fd].caller != c { assert FileInv(t, fd); }
  }

  lemma NothingLeft(s: State, e: Event, c: Caller)
    requires Enabled(s, e) && c in s.procs && s.procs[c].pc.Done? && s.procs[c].beat.Ended?
    ensures e.Tick? || e.c != c
  {
  }
}
