/** The slots that are never given back, and when the ring takes no more. */
module ProtocolJam {
  import opened Words
  import opened Sets
  import opened Protocol
  import opened ProtocolInv
  import opened ProtocolSteps
  import opened ProtocolTheorems
  import opened ProtocolProgress
  import opened ProtocolRounds

  // ----- doomed messages

  /** Some receiver has failed to read the message. */
  ghost predicate Failed(s: State, m: nat) {
    exists i: nat :: i < |s.recvs| && m < |s.recvs[i].done| && s.recvs[i].done[m].None?
  }

  /** Some receiver has died before it read the message, or before it could release it. */
  ghost predicate Bereft(s: State, m: nat) {
    exists i: nat :: i < |s.recvs| && s.recvs[i].life.Dead?
                     && (|s.recvs[i].done| <= m || (s.recvs[i].life.orphan && |s.recvs[i].done| == m + 1))
  }

  /** A message that can never be released, whatever happens: its count is not the number of
      receivers, or some receiver has failed to read it, or has died on it. */
  ghost predicate IsDoomed(s: State, m: nat) {
    m < |s.hist| && (!(0 < s.hist[m].cnt == |s.recvs|) || Failed(s, m) || Bereft(s, m))
  }

  ghost function Doomed(s: State): set<nat> {
    set m: nat | m < |s.hist| && IsDoomed(s, m)
  }

  /** What every action keeps of the history and of the receivers. */
  ghost predicate Grown(s: State, t: State) {
    && |t.recvs| == |s.recvs| && s.hist <= t.hist
    && (forall i: nat :: i < |s.recvs| ==> s.recvs[i].done <= t.recvs[i].done)
    && (forall i: nat :: i < |s.recvs| && s.recvs[i].life.Dead? ==> t.recvs[i] == s.recvs[i])
  }

  lemma RecvGrows(s: State, i: nat, ok: bool)
    requires Enabled(s, Recv(i, ok))
    ensures Grown(s, RecvApply(s, i, ok))
  {
    var t := RecvApply(s, i, ok);
    assert s.recvs[i].done <= t.recvs[i].done;
    assert t.hist == s.hist && t.recvs == s.recvs[i := t.recvs[i]];
  }

  lemma StepGrows(s: State, a: Action)
    requires Enabled(s, a)
    ensures Grown(s, Apply(s, a))
  {
    match a
    case Recv(i, ok) => RecvGrows(s, i, ok);
    case _ =>
  }

  /** A doomed message stays doomed. */
  lemma DoomedStays(s: State, a: Action, m: nat)
    requires Enabled(s, a) && IsDoomed(s, m)
    ensures IsDoomed(Apply(s, a), m)
  {
    var t := Apply(s, a);
    StepGrows(s, a);
    assert t.hist[m] == s.hist[m];
    if i: nat :| i < |s.recvs| && m < |s.recvs[i].done| && s.recvs[i].done[m].None? {
      assert t.recvs[i].done[m].None?;
    }
    if i: nat :| i < |s.recvs| && s.recvs[i].life.Dead?
                 && (|s.recvs[i].done| <= m || (s.recvs[i].life.orphan && |s.recvs[i].done| == m + 1)) {
      assert t.recvs[i] == s.recvs[i];
    }
  }

  /** Finished by all and doomed by then, a message stays so. */
  lemma LostStaysLost(s: State, a: Action, m: nat)
    requires Enabled(s, a) && IsLost(s, m)
    ensures Finished(Apply(s, a), m) && IsDoomed(Apply(s, a), m)
  {
    assert IsDoomed(s, m);
    DoomedStays(s, a, m);
    StepGrows(s, a);
    forall i: nat | i < |s.recvs|
      ensures m < |Apply(s, a).recvs[i].done|
    {
      assert m < |s.recvs[i].done|;
    }
  }

  lemma DoomedNotReleased(s: State, m: nat)
    requires IsDoomed(s, m)
    ensures !Due(s, m) || Pending(s, m)
  {
    if i: nat :| i < |s.recvs| && m < |s.recvs[i].done| && s.recvs[i].done[m].None? {
      assert !Read(s, i, m);
    }
    if i: nat :| i < |s.recvs| && s.recvs[i].life.Dead?
                 && (|s.recvs[i].done| <= m || (s.recvs[i].life.orphan && |s.recvs[i].done| == m + 1)) {
      assert |s.recvs[i].done| <= m ==> !Read(s, i, m);
      assert s.recvs[i].life.orphan ==> Deciding(s.recvs[i]);
    }
  }

  /** Doomed messages are outstanding. */
  lemma DoomedCount(s: State)
    requires ReleasesOk(s)
    ensures Doomed(s) <= Outstanding(s) && |Doomed(s)| <= |s.hist| - |s.releases|
  {
    forall m | m in Doomed(s)
      ensures m in Outstanding(s)
    {
      DoomedNotReleased(s, m);
    }
    SubsetSize(Doomed(s), Outstanding(s));
    OutstandingCount(s);
  }

  // ----- the jam

  /** With 255 doomed messages, no step can be the commit of a push. */
  lemma JammedStep(s: State, a: Action)
    requires Inv(s) && Enabled(s, a) && |Doomed(s)| >= CAPACITY
    ensures Apply(s, a).hist == s.hist
    ensures |Doomed(Apply(s, a))| >= CAPACITY
  {
    DoomedCount(s);
    var t := Apply(s, a);
    assert !s.sender.Stored?;
    forall m | m in Doomed(s)
      ensures m in Doomed(t)
    {
      DoomedStays(s, a, m);
    }
    SubsetSize(Doomed(s), Doomed(t));
  }

  lemma {:induction false} JammedRun(s: State, acts: seq<Action>, t: State)
    requires Inv(s) && |Doomed(s)| >= CAPACITY
    requires AllFit(acts, |s.recvs|) && Runs(s, acts, t)
    ensures t.hist == s.hist
    decreases |acts|
  {
    if acts != [] {
      JammedStep(s, acts[0]);
      StepKeepsInv(s, acts[0]);
      JammedRun(Apply(s, acts[0]), acts[1..], t);
    }
  }

  /** Once 255 messages are doomed, nothing is ever pushed again, whatever the sender and
      the receivers do. */
  lemma JammedForEver(n: nat, s: State, acts: seq<Action>, t: State)
    requires n < WORD && Reachable(n, s) && |Doomed(s)| >= CAPACITY
    requires AllFit(acts, n) && Runs(s, acts, t)
    ensures t.hist == s.hist
  {
    ReachableInv(n, s);
    JammedRun(s, acts, t);
  }

  // ----- as long as it is not jammed, it can be pushed to

  /** Some continuation pushes another message. */
  ghost predicate CanPush(s: State) {
    exists acts: seq<Action>, t: State ::
      AllFit(acts, |s.recvs|) && Runs(s, acts, t) && |s.hist| < |t.hist|
  }

  lemma StepThenPush(s: State, a: Action)
    requires Enabled(s, a) && ActionFits(a, |s.recvs|)
    requires var u := Apply(s, a); |u.hist| >= |s.hist| && |u.recvs| == |s.recvs| && CanPush(u)
    ensures CanPush(s)
  {
    var u := Apply(s, a);
    var acts: seq<Action>, t: State :| AllFit(acts, |u.recvs|) && Runs(u, acts, t) && |u.hist| < |t.hist|;
    RunsCons(s, a, acts, t);
    assert AllFit([a] + acts, |s.recvs|);
  }

  lemma RunThenPush(s: State, t: State)
    requires ReceiversTo(s, t) && |t.hist| >= |s.hist| && |t.recvs| == |s.recvs| && CanPush(t)
    ensures CanPush(s)
  {
    var a: seq<Action> :| OnlyReceivers(a) && Runs(s, a, t);
    var b: seq<Action>, u: State :| AllFit(b, |t.recvs|) && Runs(t, b, u) && |t.hist| < |u.hist|;
    RunsConcat(s, a, t, b, u);
    assert AllFit(a + b, |s.recvs|);
  }

  lemma CommitPushes(s: State)
    requires s.sender.Stored?
    ensures CanPush(s)
  {
    var t := Apply(s, SendCommit);
    assert [SendCommit][1..] == [];
    assert Runs(s, [SendCommit], t) && AllFit([SendCommit], |s.recvs|);
  }

  lemma PassedPushes(s: State)
    requires s.sender.Passed? && s.sender.slot < |s.slots|
    ensures CanPush(s)
  {
    CommitPushes(Apply(s, SendStore));
    StepThenPush(s, SendStore);
  }

  lemma LoadedPushes(s: State)
    requires Inv(s) && s.sender.LoadedW? && |s.hist| - |s.releases| < CAPACITY
    ensures CanPush(s)
  {
    RefusedWhenFull(s);
    PassedPushes(Apply(s, SendLoadR));
    StepThenPush(s, SendLoadR);
  }

  lemma WrittenPushes(s: State)
    requires Inv(s) && s.sender.Written? && |s.hist| - |s.releases| < CAPACITY
    ensures CanPush(s)
  {
    StepKeepsInv(s, SendLoadW);
    LoadedPushes(Apply(s, SendLoadW));
    StepThenPush(s, SendLoadW);
  }

  lemma IdlePushes(s: State)
    requires Inv(s) && s.sender.Idle? && |s.hist| - |s.releases| < CAPACITY
    ensures CanPush(s)
  {
    var msg := FreshMessage(s, 0);
    StepKeepsInv(s, SendWrite(msg));
    WrittenPushes(Apply(s, SendWrite(msg)));
    StepThenPush(s, SendWrite(msg));
  }

  lemma RoomPushes(s: State)
    requires Inv(s) && |s.hist| - |s.releases| < CAPACITY
    ensures CanPush(s)
  {
    match s.sender
    case Idle => IdlePushes(s);
    case Written(_) => WrittenPushes(s);
    case LoadedW(_, _) => LoadedPushes(s);
    case Passed(_, _) => PassedPushes(s);
    case Stored(_) => CommitPushes(s);
  }

  /** Reads that succeed doom nothing. */
  lemma SameDoomed(s: State, t: State)
    requires SameFailures(s, t)
    ensures Doomed(t) <= Doomed(s)
  {
    forall m | m in Doomed(t)
      ensures m in Doomed(s)
    {
      if i: nat :| i < |t.recvs| && m < |t.recvs[i].done| && t.recvs[i].done[m].None? {
        assert Outcomes(s.recvs[i].done, t.recvs[i].done, true);
        assert m < |s.recvs[i].done| && s.recvs[i].done[m].None?;
      }
      if i: nat :| i < |t.recvs| && t.recvs[i].life.Dead?
                   && (|t.recvs[i].done| <= m || (t.recvs[i].life.orphan && |t.recvs[i].done| == m + 1)) {
        DeadSame(s, t, i, m);
      }
    }
  }

  /** A dead receiver dooms no more after than before. */
  lemma DeadSame(s: State, t: State, i: nat, m: nat)
    requires SameFailures(s, t) && i < |s.recvs| && t.recvs[i].life.Dead?
    requires |t.recvs[i].done| <= m || (t.recvs[i].life.orphan && |t.recvs[i].done| == m + 1)
    ensures Bereft(s, m)
  {
    assert t.recvs[i].life == s.recvs[i].life && s.recvs[i].done <= t.recvs[i].done;
  }

  /** When all that are alive have caught up, only doomed messages are outstanding. */
  lemma OnlyDoomedLeft(s: State)
    requires Inv(s) && s.mutex.None? && CaughtUp(s, |s.recvs|)
    ensures |s.hist| - |s.releases| <= |Doomed(s)|
  {
    forall m | m in Outstanding(s)
      ensures m in Doomed(s)
    {
      OutstandingIsDoomed(s, m);
    }
    SubsetSize(Outstanding(s), Doomed(s));
    OutstandingCount(s);
  }

  lemma OutstandingIsDoomed(s: State, m: nat)
    requires Inv(s) && s.mutex.None? && CaughtUp(s, |s.recvs|)
    requires m < |s.hist| && !(Due(s, m) && !Pending(s, m))
    ensures IsDoomed(s, m)
  {
    if !(0 < s.hist[m].cnt == |s.recvs|) {
    } else if Due(s, m) {
      var i: nat :| i < |s.recvs| && Deciding(s.recvs[i]) && |s.recvs[i].done| == m + 1;
      if s.recvs[i].life.Alive? {
        OutsideCursor(s, i);
        assert false;
      }
      assert Bereft(s, m);
    } else {
      var i: nat :| i < |s.recvs| && !Read(s, i, m);
      if m < |s.recvs[i].done| {
        assert Failed(s, m);
      } else {
        if s.recvs[i].life.Alive? {
          AliveFinished(s, i);
          assert false;
        }
        assert Bereft(s, m);
      }
    }
  }

  lemma AliveFinished(s: State, i: nat)
    requires Inv(s) && s.mutex.None? && CaughtUp(s, |s.recvs|) && i < |s.recvs| && s.recvs[i].life.Alive?
    ensures |s.recvs[i].done| == |s.hist|
  {
    assert RecvOk(s.hist, s.base, s.recvs[i]);
    OutsideCursor(s, i);
  }

  /** Some continuation pushes another message if and only if fewer than 255 messages are
      doomed. */
  lemma PushableIff(n: nat, s: State)
    requires n < WORD && Reachable(n, s)
    ensures CanPush(s) <==> |Doomed(s)| < CAPACITY
  {
    ReachableInv(n, s);
    if |Doomed(s)| < CAPACITY {
      var t := CatchUp(s);
      OnlyDoomedLeft(t);
      SameDoomed(s, t);
      SubsetSize(Doomed(t), Doomed(s));
      RoomPushes(t);
      RunThenPush(s, t);
    } else if CanPush(s) {
      var acts: seq<Action>, t: State :| AllFit(acts, |s.recvs|) && Runs(s, acts, t) && |s.hist| < |t.hist|;
      JammedRun(s, acts, t);
      assert false;
    }
  }

  // ----- jams can be reached

  /** k messages for n receivers have been pushed, and nobody has looked at them. */
  ghost predicate Filled(s: State, n: nat, k: nat) {
    && Inv(s) && |s.recvs| == n && |s.hist| == k && s.releases == [] && s.sender.Idle? && s.mutex.None?
    && (forall m :: 0 <= m < k ==> s.hist[m].cnt == n)
    && (forall i :: 0 <= i < n ==> s.recvs[i].done == [] && s.recvs[i].life.Alive?)
  }

  lemma {:induction false} PushMany(n: nat, k: nat, slots: seq<Descriptor>) returns (s: State)
    requires n < WORD && k <= CAPACITY && |slots| == SLOTS
    ensures Reach(n, Start(n, 0, slots), s) && Filled(s, n, k)
  {
    var s0 := Start(n, 0, slots);
    if k == 0 {
      StartInv(n, 0, slots);
      s := s0;
      assert Runs(s, [], s) && AllCount([], n);
    } else {
      var r := PushMany(n, k - 1, slots);
      s := PushOne(n, s0, r);
    }
  }

  /** For any number of receivers there is a run that jams the ring although every message
      was sent to all of them and nobody dies: one receiver fails to open 255 payloads. */
  lemma JamReached(n: nat) returns (s: State)
    requires 0 < n < WORD
    ensures Reachable(n, s) && |s.hist| == CAPACITY && !CanPush(s)
    ensures forall m :: 0 <= m < |s.hist| ==> s.hist[m].cnt == n
    ensures forall i :: 0 <= i < |s.recvs| ==> s.recvs[i].life.Alive? && (i != 0 ==> s.recvs[i].done == [])
  {
    var slots := seq(SLOTS, i => Descriptor(0, 0, 16));
    var full := PushMany(n, CAPACITY, slots);
    s := WholeDrain(full, 0, false);
    ReachThenReceivers(n, Start(n, 0, slots), full, s);
    ReachIsReachable(n, 0, slots, s);
    AllFailed(s);
    PushableIff(n, s);
  }

  lemma AllFailed(s: State)
    requires Inv(s) && s.mutex.None? && |s.recvs| > 0 && s.recvs[0].life.Alive?
    requires |s.recvs[0].taken| == |s.hist| && Outcomes([], s.recvs[0].done, false)
    ensures |Doomed(s)| == |s.hist|
  {
    assert RecvOk(s.hist, s.base, s.recvs[0]);
    OutsideCursor(s, 0);
    assert |s.recvs[0].done| == |s.hist|;
    forall m: nat | m < |s.hist|
      ensures m in Doomed(s)
    {
      assert s.recvs[0].done[m].None?;
    }
    SizeBelow(Doomed(s), |s.hist|);
  }

  // ----- after a death

  /** A receiver that is alive may die anywhere.  The mutex is free after that if it was its own,
      and nothing else is different for the others. */
  lemma DeathFrees(n: nat, s: State, i: nat)
    requires n < WORD && Reachable(n, s) && i < |s.recvs|
    ensures Enabled(s, Die(i)) <==> s.recvs[i].life.Alive?
    ensures s.recvs[i].life.Alive? ==> var t := Apply(s, Die(i));
      && t == s.(recvs := s.recvs[i := t.recvs[i]], mutex := if s.mutex == Some(i) then None else s.mutex)
      && t.recvs[i] == s.recvs[i].(life := t.recvs[i].life) && t.recvs[i].life.Dead?
  {
    ReachableInv(n, s);
  }

  /** Some state of a run that gives a slot back has a receiver about to do so. */
  lemma {:induction false} ReleasedByOne(s: State, acts: seq<Action>, t: State) returns (k: nat, u: State, i: nat)
    requires Runs(s, acts, t) && |s.releases| < |t.releases|
    ensures k <= |acts| && Runs(s, acts[..k], u)
    ensures i < |u.recvs| && u.recvs[i].life.Alive? && u.recvs[i].pc.AtRelease?
    decreases |acts|
  {
    var a := acts[0];
    if a.Recv? && s.recvs[a.i].pc.AtRelease? {
      k, u, i := 0, s, a.i;
    } else {
      QuietRelease(s, a);
      k, u, i := ReleasedByOne(Apply(s, a), acts[1..], t);
      k := k + 1;
      assert acts[..k][1..] == acts[1..][..k - 1];
    }
  }

  lemma QuietRelease(s: State, a: Action)
    requires Enabled(s, a) && !(a.Recv? && s.recvs[a.i].pc.AtRelease?)
    ensures Apply(s, a).releases == s.releases
  {
    match a
    case Recv(i, ok) =>
      match s.recvs[i].pc {
        case AtDecrement(_, _) =>
        case _ =>
      }
    case _ =>
  }

  lemma DiesOrphaning(s: State, i: nat)
    requires i < |s.recvs| && s.recvs[i].life.Alive? && s.recvs[i].pc.AtRelease?
    ensures |Apply(s, Die(i)).recvs| == |s.recvs| && Apply(s, Die(i)).recvs[i].life == Dead(true)
  {
  }

  lemma OrphanIn(t: State, i: nat)
    requires ReleasesOk(t) && i < |t.recvs| && t.recvs[i].life == Dead(true)
    ensures Orphans(t) != {}
  {
    assert DeciderOk(t, i);
    var m: nat := |t.recvs[i].done| - 1;
    assert Orphaned(t, m);
    assert m in Orphans(t);
  }

  /** Such a death happens: for any number of receivers some run leaves a message that all have
      read, and whose slot nobody will give back. */
  lemma OrphanHappens(n: nat) returns (s: State)
    requires 0 < n < WORD
    ensures Reachable(n, s) && Orphans(s) != {}
  {
    var slots := seq(SLOTS, i => Descriptor(0, 0, 16));
    var s0 := Start(n, 0, slots);
    var r := Rounds(n, 1, slots);
    ServedIsReleased(r, n, 1);
    var acts: seq<Action> :| AllCount(acts, n) && Runs(s0, acts, r);
    var k, u, i := ReleasedByOne(s0, acts, r);
    assert AllCount(acts[..k], n);
    assert Reach(n, s0, u);
    ReachIsReachable(n, 0, slots, u);
    ReachableInv(n, u);
    Extend(n, s0, u, Die(i));
    s := Apply(u, Die(i));
    ReachIsReachable(n, 0, slots, s);
    StepKeepsInv(u, Die(i));
    DiesOrphaning(u, i);
    OrphanIn(s, i);
  }

  /** Once a receiver has died, no more than 255 messages are pushed beyond those that it had
      finished with. */
  lemma DeathLimitsHistory(n: nat, s: State, i: nat)
    requires n < WORD && Reachable(n, s) && i < n
    ensures i < |s.recvs| && (s.recvs[i].life.Dead? ==> |s.hist| <= |s.recvs[i].done| + CAPACITY)
  {
    ReachableInv(n, s);
    ReleasedBelow(s, i);
  }

  /** The slot of a message that a dead receiver was to release is never given back. */
  lemma OrphanStays(n: nat, s: State, acts: seq<Action>, t: State, m: nat)
    requires n < WORD && Reachable(n, s) && Orphaned(s, m) && AllFit(acts, n) && Runs(s, acts, t)
    ensures Orphaned(t, m) && m !in t.releases
  {
    ReachableInv(n, s);
    RunKeepsInv(s, acts, t);
    RunGrows(s, acts, t);
    var i: nat :| i < |s.recvs| && s.recvs[i].life == Dead(true) && |s.recvs[i].done| == m + 1;
    assert t.recvs[i] == s.recvs[i];
    OrphanPending(t, m);
  }

  lemma {:induction false} RunGrows(s: State, acts: seq<Action>, t: State)
    requires Runs(s, acts, t)
    ensures Grown(s, t)
    decreases |acts|
  {
    if acts != [] {
      StepGrows(s, acts[0]);
      RunGrows(Apply(s, acts[0]), acts[1..], t);
      assert forall i: nat :: i < |s.recvs| ==> s.recvs[i].done <= Apply(s, acts[0]).recvs[i].done <= t.recvs[i].done;
    }
  }

  lemma DieBeforeAll(n: nat, s0: State, s: State) returns (t: State)
    requires Reach(n, s0, s) && Filled(s, n, CAPACITY) && 0 < n
    ensures Reach(n, s0, t) && t == DieApply(s, 0)
  {
    Extend(n, s0, s, Die(0));
    t := Apply(s, Die(0));
  }

  /** For any number of receivers there is a run that jams the ring although every message was
      sent to all of them and no read fails: one receiver dies before it reads anything. */
  lemma DeathJams(n: nat) returns (s: State)
    requires 0 < n < WORD
    ensures Reachable(n, s) && |s.hist| == CAPACITY && !CanPush(s)
    ensures forall m :: 0 <= m < |s.hist| ==> s.hist[m].cnt == n
    ensures forall i :: 0 <= i < |s.recvs| ==> s.recvs[i].done == []
  {
    var slots := seq(SLOTS, i => Descriptor(0, 0, 16));
    var full := PushMany(n, CAPACITY, slots);
    s := DieBeforeAll(n, Start(n, 0, slots), full);
    ReachIsReachable(n, 0, slots, s);
    assert s.recvs[0].life.Dead?;
    forall m: nat | m < |s.hist|
      ensures m in Doomed(s)
    {
      assert Bereft(s, m);
    }
    SizeBelow(Doomed(s), |s.hist|);
    PushableIff(n, s);
  }
}
