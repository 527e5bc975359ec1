/** When the drains that wait_for runs exclude each other.

The guard in wait_for ignores a lock that fails.  In a run in which no system call fails of
itself, a lock fails only on a mutex that is beyond recovery; and then a call without a timeout
drains all the same.
*/
module WaitDrains {
  import opened Words
  import opened RobustMutex

  predicate NotFaulty(a: Action) {
    a.Call? ==> a.luck != Faulty
  }

  ghost predicate FaultFree(acts: seq<Action>) {
    forall k :: 0 <= k < |acts| ==> NotFaulty(acts[k])
  }

  /** At most one thread is draining. */
  ghost predicate Exclusive(s: State) {
    forall i: nat, j: nat :: i < |s.threads| && j < |s.threads| ==>
      s.threads[i].Draining? && s.threads[j].Draining? ==> i == j
  }

  // ----- what a drain knows

  /** Who drains owns the mutex, or it is ruined; and so it is where a call without a timeout
      is past a failed lock. */
  ghost predicate DrainsOk(s: State) {
    && (forall i: nat :: i < |s.threads| && s.threads[i].Draining? ==>
          s.native.owner == Some(i) || s.native.ruined)
    && (forall i: nat :: i < |s.threads| && s.threads[i] == Refused(WaitFor(false)) ==> s.native.ruined)
  }

  lemma DrainsKept(s: State, a: Action)
    requires Inv(s) && DrainsOk(s) && Enabled(s, a) && NotFaulty(a)
    ensures DrainsOk(Apply(s, a))
  {
    var t := Apply(s, a);
    RuinStays(s, a);
    assert forall i: nat :: i < |s.threads| && i != a.i ==> t.threads[i] == s.threads[i];
    match a
    case Call(i, luck) => CallDrainsOk(s, i, luck);
    case _ =>
  }

  lemma RuinStays(s: State, a: Action)
    requires Inv(s) && Enabled(s, a)
    ensures s.native.ruined ==> Apply(s, a).native.ruined
  {
    StepKeepsInv(s, a);
    DroppedBy(s, a);
  }

  /** A system call starts no drain, and takes the mutex from nobody who drains. */
  lemma CallDrainsOk(s: State, i: nat, luck: Luck)
    requires Inv(s) && Enabled(s, Call(i, luck)) && luck != Faulty
    ensures var t := CallApply(s, i, luck);
      && !t.threads[i].Draining?
      && (t.threads[i] == Refused(WaitFor(false)) ==> t.native.ruined)
      && forall j: nat :: j < |s.threads| && s.threads[j].Draining? && s.native.owner == Some(j) ==>
           t.native.owner == Some(j)
  {
  }

  lemma {:induction false} RunDrainsOk(s: State, acts: seq<Action>, t: State)
    requires Inv(s) && DrainsOk(s) && FaultFree(acts) && Runs(s, acts, t)
    ensures Inv(t) && DrainsOk(t)
    decreases |acts|
  {
    if acts != [] {
      StepKeepsInv(s, acts[0]);
      DrainsKept(s, acts[0]);
      RunDrainsOk(Apply(s, acts[0]), acts[1..], t);
    }
  }

  // ----- when two drain at once

  /** A call without a timeout, past a failed lock, begins to drain while another thread is
      draining. */
  ghost predicate Overlaps(s: State, a: Action) {
    && Enabled(s, a) && a.Drain? && s.threads[a.i].Refused?
    && exists j: nat :: j < |s.threads| && j != a.i && s.threads[j].Draining?
  }

  /** Where that happens the mutex is ruined, and the other has not locked it either. */
  lemma OverlapsOnRuin(s: State, a: Action, j: nat)
    requires Inv(s) && DrainsOk(s) && Overlaps(s, a) && j < |s.threads| && s.threads[j].Draining?
    ensures s.native.ruined && s.native.owner != Some(j)
  {
  }

  lemma StepExclusiveIff(s: State, a: Action)
    requires Inv(s) && DrainsOk(s) && Exclusive(s) && Enabled(s, a)
    ensures Exclusive(Apply(s, a)) <==> !Overlaps(s, a)
  {
    var t := Apply(s, a);
    OthersStay(s, a);
    if a.Drain? {
      if j: nat :| j < |s.threads| && j != a.i && s.threads[j].Draining? {
        assert t.threads[j].Draining? && t.threads[a.i].Draining?;
      }
    }
  }

  lemma OthersStay(s: State, a: Action)
    requires Enabled(s, a)
    ensures var t := Apply(s, a);
      && |t.threads| == |s.threads|
      && (forall i: nat :: i < |s.threads| && i != a.i ==> t.threads[i] == s.threads[i])
      && (t.threads[a.i].Draining? ==> a.Drain?)
  {
  }

  ghost predicate ExclusiveThroughout(s: State, acts: seq<Action>)
    decreases |acts|
  {
    Exclusive(s) && (acts != [] && Enabled(s, acts[0]) ==> ExclusiveThroughout(Apply(s, acts[0]), acts[1..]))
  }

  ghost predicate NeverOverlaps(s: State, acts: seq<Action>)
    decreases |acts|
  {
    acts != [] && Enabled(s, acts[0]) ==>
      !Overlaps(s, acts[0]) && NeverOverlaps(Apply(s, acts[0]), acts[1..])
  }

  lemma {:induction false} ThroughoutIff(s: State, acts: seq<Action>)
    requires Inv(s) && DrainsOk(s) && Exclusive(s) && FaultFree(acts)
    ensures ExclusiveThroughout(s, acts) <==> NeverOverlaps(s, acts)
    decreases |acts|
  {
    if acts != [] && Enabled(s, acts[0]) {
      StepKeepsInv(s, acts[0]);
      DrainsKept(s, acts[0]);
      StepExclusiveIff(s, acts[0]);
      if !Overlaps(s, acts[0]) {
        ThroughoutIff(Apply(s, acts[0]), acts[1..]);
      }
    }
  }

  /** Throughout a run without faults the drains exclude each other if and only if no call
      without a timeout goes past a failed lock while another drain is under way. */
  lemma DrainsExcludeIff(n: nat, acts: seq<Action>)
    requires FaultFree(acts)
    ensures ExclusiveThroughout(Fresh(n), acts) <==> NeverOverlaps(Fresh(n), acts)
  {
    ThroughoutIff(Fresh(n), acts);
  }

  /** As long as the mutex is not ruined, the drains of a run without faults exclude each
      other. */
  lemma ExclusiveUnlessRuined(n: nat, acts: seq<Action>, s: State)
    requires FaultFree(acts) && Runs(Fresh(n), acts, s) && !s.native.ruined
    ensures Exclusive(s)
  {
    RunDrainsOk(Fresh(n), acts, s);
  }

  /** On a ruined mutex only a call without a timeout drains. */
  lemma TimedNeverDrains(n: nat, s: State, i: nat)
    requires Reachable(n, s) && s.native.ruined && Enabled(s, Drain(i))
    ensures s.threads[i] == Refused(WaitFor(false))
  {
    ReachableInv(n, s);
  }

  // ----- how many threads that takes

  /** s is reached without faults. */
  ghost predicate Reached(n: nat, s: State) {
    exists acts: seq<Action> :: FaultFree(acts) && Runs(Fresh(n), acts, s)
  }

  lemma Next(n: nat, s: State, a: Action)
    requires Reached(n, s) && Enabled(s, a) && NotFaulty(a)
    ensures Reached(n, Apply(s, a))
  {
    var acts: seq<Action> :| FaultFree(acts) && Runs(Fresh(n), acts, s);
    RunsAppend(Fresh(n), acts, s, a);
    assert FaultFree(acts + [a]);
  }

  lemma Lock(n: nat, s: State, i: nat, use: Use) returns (t: State)
    requires Reached(n, s) && i < |s.threads| && s.threads[i].Out? && s.native == Native(None, false, false)
    ensures Reached(n, t)
    ensures t == s.(threads := s.threads[i := Owned(use)], native := Native(Some(i), false, false))
  {
    Next(n, s, Begin(i, use));
    var u := Apply(s, Begin(i, use));
    Next(n, u, Call(i, Patient));
    t := Apply(u, Call(i, Patient));
  }

  lemma WaitFirst(n: nat) returns (s: State)
    requires n >= 2
    ensures Reached(n, s) && s == Fresh(n).(threads := Fresh(n).threads[0 := Asleep])
  {
    s := Fresh(n);
    assert Runs(s, [], s) && FaultFree([]);
    s := Lock(n, s, 0, WaitFor(true));
    Next(n, s, Sleep(0));
    s := Apply(s, Sleep(0));
  }

  lemma DieOwning(n: nat, s: State) returns (t: State)
    requires n >= 2 && Reached(n, s) && s == Fresh(n).(threads := Fresh(n).threads[0 := Asleep])
    ensures Reached(n, t) && |t.threads| == n && t.native == Native(Some(1), false, false)
    ensures t.threads[0].Asleep? && t.threads[1].Dead? && forall i :: 2 <= i < n ==> t.threads[i].Out?
  {
    t := Lock(n, s, 1, Plain);
    Next(n, t, Die(1));
    t := Apply(t, Die(1));
  }

  /** One thread waits, another locks and dies, and the first wakes up and unlocks. */
  lemma Ruin(n: nat) returns (s: State)
    requires n >= 2
    ensures Reached(n, s) && s.native == Native(None, false, true) && |s.threads| == n
    ensures s.threads[1].Dead? && forall i :: 0 <= i < n && i != 1 ==> s.threads[i].Out?
  {
    s := WaitFirst(n);
    s := DieOwning(n, s);
    Next(n, s, Wake(0));
    s := Apply(s, Wake(0));
    Next(n, s, Unlock(0));
    s := Apply(s, Unlock(0));
  }

  lemma ReachedIsReachable(n: nat, s: State)
    requires Reached(n, s)
    ensures Reachable(n, s)
  {
  }

  /** Some run makes the mutex unusable, with faults or without, if and only if there are at
      least two threads. */
  lemma CanBeRuinedIff(n: nat)
    ensures (exists s :: Reached(n, s) && s.native.ruined) <==> n >= 2
    ensures (exists s :: Reachable(n, s) && s.native.ruined) <==> n >= 2
  {
    if n >= 2 {
      var s := Ruin(n);
      ReachedIsReachable(n, s);
    } else {
      forall s | Reachable(n, s)
        ensures !s.native.ruined
      {
        ReachableInv(n, s);
      }
    }
  }

  /** On a ruined mutex a call without a timeout comes to drain. */
  lemma DrainPastLock(n: nat, s: State, i: nat) returns (t: State)
    requires Reached(n, s) && s.native.ruined && i < |s.threads| && s.threads[i].Out?
    ensures Reached(n, t) && t == s.(threads := s.threads[i := Draining])
  {
    Next(n, s, Begin(i, WaitFor(false)));
    var u := Apply(s, Begin(i, WaitFor(false)));
    Next(n, u, Call(i, Patient));
    var v := Apply(u, Call(i, Patient));
    Next(n, v, Drain(i));
    t := Apply(v, Drain(i));
  }

  /** A mutex is only ruined where somebody has died. */
  lemma RuinNeedsDeath(s: State)
    requires Inv(s) && s.native.ruined
    ensures exists k: nat :: k < |s.threads| && s.threads[k].Dead?
  {
  }

  lemma ThreeThreads(s: State, i: nat, j: nat, k: nat)
    requires i < |s.threads| && j < |s.threads| && k < |s.threads| && i != j && j != k && i != k
    ensures |s.threads| >= 3
  {
  }

  /** In some run without faults two threads drain at once if and only if there are at least
      three: one to wait, one to die, and two to drain, of which the first may be one. */
  lemma TwoDrainIff(n: nat)
    ensures (exists s :: Reached(n, s) && !Exclusive(s)) <==> n >= 3
  {
    if n >= 3 {
      var s := Ruin(n);
      var t := DrainPastLock(n, s, 0);
      var u := DrainPastLock(n, t, 2);
      assert u.threads[0].Draining? && u.threads[2].Draining?;
    } else if s :| Reached(n, s) && !Exclusive(s) {
      var acts: seq<Action> :| FaultFree(acts) && Runs(Fresh(n), acts, s);
      RunDrainsOk(Fresh(n), acts, s);
      RunKeepsInv(Fresh(n), acts, s);
      RuinNeedsDeath(s);
      var k: nat :| k < |s.threads| && s.threads[k].Dead?;
      var i: nat, j: nat :| i < |s.threads| && j < |s.threads|
                            && s.threads[i].Draining? && s.threads[j].Draining? && i != j;
      ThreeThreads(s, i, j, k);
      assert false;
    }
  }

  lemma DrainOwning(n: nat) returns (s: State)
    requires n >= 1
    ensures Reachable(n, s) && |s.threads| == n && s.threads[0].Draining?
    ensures s.native == Native(Some(0), false, false) && forall i :: 1 <= i < n ==> s.threads[i].Out?
  {
    s := Fresh(n);
    assert Runs(s, [], s) && FaultFree([]);
    s := Lock(n, s, 0, WaitFor(false));
    Next(n, s, Drain(0));
    s := Apply(s, Drain(0));
    ReachedIsReachable(n, s);
  }

  lemma DrainPastFault(n: nat, s: State, i: nat) returns (t: State)
    requires Reachable(n, s) && i < |s.threads| && s.threads[i].Out?
    ensures Reachable(n, t) && t == s.(threads := s.threads[i := Draining])
  {
    Step(n, s, Begin(i, WaitFor(false)));
    var u := Apply(s, Begin(i, WaitFor(false)));
    Step(n, u, Call(i, Faulty));
    var v := Apply(u, Call(i, Faulty));
    Step(n, v, Drain(i));
    t := Apply(v, Drain(i));
  }

  /** With system calls that may fail of themselves, two threads are enough. */
  lemma TwoDrainOnFaultIff(n: nat)
    ensures (exists s :: Reachable(n, s) && !Exclusive(s)) <==> n >= 2
  {
    if n >= 2 {
      var s := DrainOwning(n);
      var t := DrainPastFault(n, s, 1);
      assert t.threads[0].Draining? && t.threads[1].Draining?;
    } else {
      forall s | Reachable(n, s)
        ensures Exclusive(s)
      {
        ReachableInv(n, s);
      }
    }
  }
}
