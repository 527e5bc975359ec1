/** What each call on the robust mutex comes to when nobody interferes, whatever state the
others have left the mutex in. */
module MutexCalls {
  import opened Words
  import opened RobustMutex

  const USABLE: Native := Native(None, false, false)

  /** A system's lock call is never made on any but one of four kinds of mutex. */
  datatype Kind = Usable | LiveOwner | DeadOwner | Ruined

  predicate IsKind(s: State, kind: Kind) {
    match kind
    case Usable => s.native == USABLE
    case LiveOwner => s.native.owner.Some? && !OwnerDead(s)
    case DeadOwner => OwnerDead(s)
    case Ruined => s.native.ruined
  }

  /** In every reachable state the mutex is of exactly one kind. */
  lemma OneKind(n: nat, s: State) returns (kind: Kind)
    requires Reachable(n, s)
    ensures IsKind(s, kind) && forall k :: IsKind(s, k) ==> k == kind
  {
    ReachableInv(n, s);
    kind := if s.native.ruined then Ruined else if s.native.owner.None? then Usable
            else if OwnerDead(s) then DeadOwner else LiveOwner;
  }

  function Calls(i: nat, luck: Luck, k: nat): seq<Action> {
    seq(k, j => Call(i, luck))
  }

  /** How many system calls a lock or try_lock takes. */
  function CallsNeeded(kind: Kind, use: Use): nat {
    if kind != DeadOwner then 1 else if use.Try? then 3 else 4
  }

  /** Where a lock or try_lock by thread i gets to on a mutex that it finds in a state. */
  function Locked(s: State, i: nat, use: Use, kind: Kind, luck: Luck): State
    requires i < |s.threads|
  {
    match kind
    case Usable => At(s, i, Native(Some(i), false, false), Owned(use))
    case LiveOwner =>
      At(s, i, s.native, if use.WaitFor? || (use.Plain? && luck == Patient) then Locking(use) else Refused(use))
    case DeadOwner =>
      (if use.Try? then At(s, i, USABLE, Threw) else At(s, i, Native(Some(i), false, false), Owned(use)))
        .(retries := s.retries + 1)
    case Ruined => At(s, i, s.native, if use.Try? then Threw else Refused(use))
  }

  lemma RunsCons(s: State, a: Action, rest: seq<Action>, t: State)
    requires Enabled(s, a) && Runs(Apply(s, a), rest, t)
    ensures Runs(s, [a] + rest, t)
  {
    assert ([a] + rest)[1..] == rest;
  }

  lemma OneCall(s: State, i: nat, use: Use, kind: Kind, luck: Luck)
    requires Inv(s) && i < |s.threads| && s.threads[i] == Locking(use) && IsKind(s, kind)
    requires luck != Faulty && kind != DeadOwner
    ensures Apply(s, Call(i, luck)) == Locked(s, i, use, kind, luck)
  {
    assert s.threads[i := s.threads[i]] == s.threads;
  }

  lemma CallThen(s: State, i: nat, luck: Luck, k: nat, t: State)
    requires Enabled(s, Call(i, luck)) && Runs(Apply(s, Call(i, luck)), Calls(i, luck, k), t)
    ensures Runs(s, Calls(i, luck, k + 1), t)
  {
    assert Calls(i, luck, k + 1) == [Call(i, luck)] + Calls(i, luck, k);
    RunsCons(s, Call(i, luck), Calls(i, luck, k), t);
  }

  /** The state after the recovery from a dead owner. */
  function Recovered(s: State, i: nat, use: Use): State
    requires i < |s.threads|
  {
    At(s, i, USABLE, if use.Try? then Threw else Locking(use)).(retries := s.retries + 1)
  }

  /** A thread that is told of a dead owner puts the mutex in order and gives it back. */
  lemma Recovers(s: State, i: nat, use: Use, luck: Luck)
    requires Inv(s) && i < |s.threads| && s.threads[i] == Locking(use) && OwnerDead(s) && luck != Faulty
    ensures var a := Call(i, luck); var s1 := Apply(s, a);
      Enabled(s1, a) && var s2 := Apply(s1, a); Enabled(s2, a) && Apply(s2, a) == Recovered(s, i, use)
  {
    var s1 := Apply(s, Call(i, luck));
    assert s1 == At(s, i, Native(Some(i), true, false), Recovering(use)).(retries := s.retries + 1);
    var s2 := Apply(s1, Call(i, luck));
    assert s2.threads == s.threads[i := Releasing(use)] && s2.native == Native(Some(i), false, false);
    assert Apply(s2, Call(i, luck)).threads == Recovered(s, i, use).threads;
  }

  lemma RecoversThen(s: State, i: nat, use: Use, luck: Luck, k: nat, t: State)
    requires Inv(s) && i < |s.threads| && s.threads[i] == Locking(use) && OwnerDead(s) && luck != Faulty
    requires Runs(Recovered(s, i, use), Calls(i, luck, k), t)
    ensures Runs(s, Calls(i, luck, k + 3), t)
  {
    Recovers(s, i, use, luck);
    var a := Call(i, luck);
    CallThen(Apply(Apply(s, a), a), i, luck, k, t);
    CallThen(Apply(s, a), i, luck, k + 1, t);
    CallThen(s, i, luck, k + 2, t);
  }

  lemma LocksRecovered(s: State, i: nat, use: Use, luck: Luck)
    requires i < |s.threads| && !use.Try? && luck != Faulty
    ensures var u := Recovered(s, i, use);
      Enabled(u, Call(i, luck)) && Apply(u, Call(i, luck)) == Locked(s, i, use, DeadOwner, luck)
  {
    assert Recovered(s, i, use).threads[i := Owned(use)] == s.threads[i := Owned(use)];
  }

  lemma LastCall(s: State, i: nat, luck: Luck, t: State)
    requires Enabled(s, Call(i, luck)) && Apply(s, Call(i, luck)) == t
    ensures Runs(s, Calls(i, luck, 1), t)
  {
    assert Runs(t, [], t) && Calls(i, luck, 0) == [];
    CallThen(s, i, luck, 0, t);
  }

  lemma DeadOwnerAlone(s: State, i: nat, use: Use, luck: Luck)
    requires Inv(s) && i < |s.threads| && s.threads[i] == Locking(use) && OwnerDead(s) && luck != Faulty
    ensures Runs(s, Calls(i, luck, CallsNeeded(DeadOwner, use)), Locked(s, i, use, DeadOwner, luck))
  {
    var t := Locked(s, i, use, DeadOwner, luck);
    if use.Try? {
      assert Runs(t, [], t) && Calls(i, luck, 0) == [];
      RecoversThen(s, i, use, luck, 0, t);
    } else {
      LocksRecovered(s, i, use, luck);
      LastCall(Recovered(s, i, use), i, luck, t);
      RecoversThen(s, i, use, luck, 1, t);
    }
  }

  /** From the first system call on. */
  lemma LocksAlone(s: State, i: nat, use: Use, kind: Kind, luck: Luck)
    requires Inv(s) && i < |s.threads| && s.threads[i] == Locking(use) && IsKind(s, kind) && luck != Faulty
    ensures Runs(s, Calls(i, luck, CallsNeeded(kind, use)), Locked(s, i, use, kind, luck))
  {
    if kind == DeadOwner {
      DeadOwnerAlone(s, i, use, luck);
    } else {
      OneCall(s, i, use, kind, luck);
      LastCall(s, i, luck, Locked(s, i, use, kind, luck));
    }
  }

  /** A lock that is not interrupted and in which no system call fails of itself succeeds exactly
      on a mutex that is usable or that a dead owner left, try_lock on one that is usable; a
      dead owner's is put in order either way.  A live owner's is waited for by a lock that has
      the patience, and is otherwise refused; one beyond recovery is refused at once. */
  lemma LockAlone(n: nat, s: State, i: nat, use: Use, kind: Kind, luck: Luck)
    requires Reachable(n, s) && i < |s.threads| && s.threads[i].Out? && IsKind(s, kind) && luck != Faulty
    ensures Runs(s, [Begin(i, use)] + Calls(i, luck, CallsNeeded(kind, use)), Locked(s, i, use, kind, luck))
  {
    ReachableInv(n, s);
    var u := Apply(s, Begin(i, use));
    StepKeepsInv(s, Begin(i, use));
    assert OwnerDead(u) <==> OwnerDead(s);
    LocksAlone(u, i, use, kind, luck);
    var t := Locked(u, i, use, kind, luck);
    assert t.threads == s.threads[i := t.threads[i]];
    assert t == Locked(s, i, use, kind, luck);
    RunsCons(s, Begin(i, use), Calls(i, luck, CallsNeeded(kind, use)), Locked(s, i, use, kind, luck));
  }

  /** A call that fails of itself leaves the mutex as it was. */
  lemma LockFaults(n: nat, s: State, i: nat, use: Use)
    requires Reachable(n, s) && i < |s.threads| && s.threads[i] == Locking(use)
    ensures Apply(s, Call(i, Faulty)) == At(s, i, s.native, if use.Try? then Threw else Refused(use))
  {
  }

  /** What wait_for does with the lock it has: it drains at once, or gives the mutex up and
      drains when it has it back; the guard gives it back in the end. */
  function WaitActions(i: nat, timed: bool): seq<Action> {
    (if timed then [Sleep(i), Wake(i)] else []) + [Drain(i), Unlock(i)]
  }

  lemma WaitAlone(n: nat, s: State, i: nat, timed: bool)
    requires Reachable(n, s) && i < |s.threads| && s.threads[i] == Owned(WaitFor(timed))
    ensures Runs(s, WaitActions(i, timed), At(s, i, USABLE, Out))
  {
    ReachableInv(n, s);
    if timed {
      var u := Apply(s, Sleep(i));
      var v := Apply(u, Wake(i));
      assert v == At(s, i, Native(Some(i), false, false), Woken);
      DrainsAndUnlocks(v, i);
      assert Apply(Apply(v, Drain(i)), Unlock(i)).threads == s.threads[i := Out];
      RunsCons(u, Wake(i), [Drain(i), Unlock(i)], At(s, i, USABLE, Out));
      RunsCons(s, Sleep(i), [Wake(i)] + [Drain(i), Unlock(i)], At(s, i, USABLE, Out));
      assert WaitActions(i, timed) == [Sleep(i)] + ([Wake(i)] + [Drain(i), Unlock(i)]);
    } else {
      DrainsAndUnlocks(s, i);
      assert WaitActions(i, timed) == [Drain(i), Unlock(i)];
    }
  }

  lemma DrainsAndUnlocks(s: State, i: nat)
    requires i < |s.threads| && (s.threads[i] == Owned(WaitFor(false)) || s.threads[i].Woken?)
    requires s.native == Native(Some(i), false, false)
    ensures Runs(s, [Drain(i), Unlock(i)], At(s, i, USABLE, Out))
  {
    var u := Apply(s, Drain(i));
    var t := Apply(u, Unlock(i));
    assert t.threads == s.threads[i := Out];
    assert Runs(t, [], t);
    RunsCons(u, Unlock(i), [], t);
    RunsCons(s, Drain(i), [Unlock(i)] + [], t);
    assert [Drain(i)] + ([Unlock(i)] + []) == [Drain(i), Unlock(i)];
  }

  /** A wait can end exactly where the mutex is not a live owner's.  Then it has the mutex, and
      may drain, if it was usable; it has one that it will only unlock if a dead owner left it;
      and it has nothing if it is beyond recovery. */
  lemma WakeOutcome(n: nat, s: State, i: nat, kind: Kind)
    requires Reachable(n, s) && i < |s.threads| && s.threads[i].Asleep? && IsKind(s, kind)
    ensures Enabled(s, Wake(i)) <==> kind != LiveOwner
    ensures kind != LiveOwner ==> var t := Apply(s, Wake(i)); var pc := t.threads[i];
      match kind
      case Usable => t.native == Native(Some(i), false, false) && pc.Woken? && Enabled(t, Drain(i))
      case DeadOwner => t.native.owner == Some(i) && pc.Abandoning? && !Enabled(t, Drain(i)) && Enabled(t, Unlock(i))
      case Ruined => t.native == s.native && pc.Refused? && !Enabled(t, Drain(i)) && !Enabled(t, Unlock(i))
      case LiveOwner => true
  {
    ReachableInv(n, s);
  }

  /** An unlock by the owner leaves the mutex usable, unless it was a dead owner's that nobody
      put in order; one by anybody else changes nothing. */
  lemma UnlockOutcome(n: nat, s: State, i: nat)
    requires Reachable(n, s) && Enabled(s, Unlock(i))
    ensures var t := Apply(s, Unlock(i));
      && t.threads == s.threads[i := Out]
      && t.native == if s.native.owner != Some(i) then s.native
                     else Native(None, false, s.threads[i].Abandoning?)
  {
    ReachableInv(n, s);
  }

  /** A call that was refused, or that threw, returns without touching the mutex; one that was
      refused in a wait_for without a timeout drains first. */
  lemma RefusedReturns(n: nat, s: State, i: nat)
    requires Reachable(n, s) && i < |s.threads| && (s.threads[i].Refused? || s.threads[i].Threw?)
    ensures Runs(s, if s.threads[i] == Refused(WaitFor(false)) then [Drain(i), Unlock(i)] else [Forget(i)],
                 At(s, i, s.native, Out))
  {
    ReachableInv(n, s);
    var t := At(s, i, s.native, Out);
    assert Runs(t, [], t);
    if s.threads[i] == Refused(WaitFor(false)) {
      var u := Apply(s, Drain(i));
      assert Apply(u, Unlock(i)).threads == t.threads;
      RunsCons(u, Unlock(i), [], t);
      RunsCons(s, Drain(i), [Unlock(i)] + [], t);
      assert [Drain(i)] + ([Unlock(i)] + []) == [Drain(i), Unlock(i)];
    } else {
      RunsCons(s, Forget(i), [], t);
      assert [Forget(i)] + [] == [Forget(i)];
    }
  }

  /** A wait that ran out of time leaves by way of the guard alone. */
  lemma TimedOutReturns(n: nat, s: State, i: nat)
    requires Reachable(n, s) && i < |s.threads| && s.threads[i].Woken?
    ensures Enabled(s, Unlock(i)) && Apply(s, Unlock(i)) == At(s, i, USABLE, Out)
  {
    ReachableInv(n, s);
  }

  /** A thread may die anywhere, once; if it dies as the owner, the next will be told. */
  lemma DeathOutcome(n: nat, s: State, i: nat)
    requires Reachable(n, s) && i < |s.threads|
    ensures Enabled(s, Die(i)) <==> !s.threads[i].Dead?
    ensures !s.threads[i].Dead? ==> var t := Apply(s, Die(i));
      && t.threads == s.threads[i := RobustMutex.Dead] && t.native == s.native
      && (IsKind(t, DeadOwner) <==> IsKind(s, DeadOwner) || s.native.owner == Some(i))
  {
    ReachableInv(n, s);
  }

  /** Nobody is ever without a next step but the dead, and who waits in a condition for a mutex
      that a live owner has. */
  lemma NobodyStuck(n: nat, s: State, i: nat)
    requires Reachable(n, s) && i < |s.threads|
    ensures (exists a :: Enabled(s, a) && a.i == i && !a.Die?)
            <==> !s.threads[i].Dead? && !(s.threads[i].Asleep? && IsKind(s, LiveOwner))
  {
    ReachableInv(n, s);
    var a := match s.threads[i]
      case Out => Begin(i, Plain)
      case Asleep => Wake(i)
      case Refused(use) => if use == WaitFor(false) then Drain(i) else Forget(i)
      case Threw => Forget(i)
      case Owned(use) => if use == WaitFor(false) then Drain(i) else Unlock(i)
      case Woken => Unlock(i)
      case Abandoning => Unlock(i)
      case Draining => Unlock(i)
      case Dead => Die(i)
      case _ => Call(i, Patient);
    if !s.threads[i].Dead? && !(s.threads[i].Asleep? && IsKind(s, LiveOwner)) {
      assert Enabled(s, a) && a.i == i && !a.Die?;
    }
  }

  /** The way through wait_for: without a timeout it drains, whether it has the lock or not; with
      one it waits if it has the lock, and it drains only after a wait that got the mutex back
      usable.  The guard comes last. */
  lemma WaitForSteps(n: nat, s: State, a: Action, timed: bool)
    requires Reachable(n, s) && Enabled(s, a) && !a.Die?
    ensures s.threads[a.i] == Owned(WaitFor(timed)) ==> if timed then a.Sleep? || a.Unlock? else a.Drain?
    ensures s.threads[a.i] == Refused(WaitFor(timed)) ==> if timed then a.Forget? else a.Drain?
    ensures s.threads[a.i].Asleep? ==> a.Wake?
    ensures s.threads[a.i].Woken? ==> a.Drain? || a.Unlock?
    ensures s.threads[a.i].Abandoning? || s.threads[a.i].Draining? ==> a.Unlock?
  {
  }
}
