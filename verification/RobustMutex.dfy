/** The mutex wrapper over a robust POSIX mutex (IEEE Std 1003.1, pthread_mutex_lock and
pthread_cond_wait), and the waiter's condition wait on it.

A thread may die at any point.  When it dies owning the mutex, the next thread to be given it
is told so with EOWNERDEAD, in a state that must be declared consistent before it is unlocked;
an unlock without that makes the mutex unusable for ever.  The wrapper's lock and try_lock do
declare it.  A condition wait gives the mutex up and takes it back inside the system's call: if
that call reports EOWNERDEAD the waiter just returns, and its guard unlocks.  The guard does not
look at what its lock returned: a call of wait_for without a timeout drains in any case.
*/
module RobustMutex {
  import opened Words

  /** What the system keeps: the owner, whether a dead owner's state is still to be declared
      consistent, and whether the mutex is beyond recovery. */
  datatype Native = Native(owner: Option<nat>, inconsistent: bool, ruined: bool)

  datatype Report = Acquired | OwnerDied | TimedOut | Failed

  /** The system's answer to a lock call by i.  TimedOut stands for a live owner. */
  function NativeLock(m: Native, i: nat, ownerDead: bool, fault: bool): (r: (Native, Report)) {
    if fault || m.ruined then (m, Failed)
    else if m.owner.None? then (m.(owner := Some(i)), Acquired)
    else if ownerDead then (m.(owner := Some(i), inconsistent := true), OwnerDied)
    else (m, TimedOut)
  }

  function NativeUnlock(m: Native, i: nat): (r: (Native, bool)) {
    if m.owner == Some(i) then (Native(None, false, m.ruined || m.inconsistent), true) else (m, false)
  }

  function NativeConsistent(m: Native, i: nat): (r: (Native, bool)) {
    if m.owner == Some(i) && m.inconsistent then (m.(inconsistent := false), true) else (m, false)
  }

  /** What a thread calls: try_lock, lock, or wait_for with a timeout or without. */
  datatype Use = Try | Plain | WaitFor(timed: bool)

  datatype Pc =
    | Out                        // does not own the mutex
    | Locking(use: Use)          // about to call the system's lock
    | Recovering(use: Use)       // was told that the owner died; about to declare consistency
    | Releasing(use: Use)        // declared it; about to unlock
    | Owned(use: Use)            // the lock succeeded
    | Asleep                     // in wait_for's condition wait, the mutex given up
    | Woken                      // the wait returned, owning the mutex
    | Abandoning                 // the wait was told that the owner died; the guard will unlock
    | Draining                   // runs what wait_for was given to run
    | Refused(use: Use)          // the lock or the wait failed
    | Threw                      // try_lock threw
    | Dead

  /** The counters are for the run so far: owners that died, times a lock found one, times a
      wait found one, and unlocks of a mutex that was never declared consistent. */
  datatype State = State(native: Native, threads: seq<Pc>, deaths: nat, retries: nat, wakes: nat, dropped: nat)

  /** What becomes of a system's lock call that finds a live owner, or fails outright. */
  datatype Luck = Patient | Impatient | Faulty

  datatype Action =
    | Begin(i: nat, use: Use)
    | Call(i: nat, luck: Luck)   // the system call thread i is at
    | Sleep(i: nat)              // the owner enters the condition wait
    | Wake(i: nat)               // the wait is over, and takes the mutex back
    | Drain(i: nat)              // wait_for begins to run what it was given
    | Unlock(i: nat)             // by the caller, or by the guard at the end of wait_for
    | Forget(i: nat)             // the caller has seen a failure
    | Die(i: nat)

  predicate OwnerDead(s: State) {
    s.native.owner.Some? && s.native.owner.value < |s.threads| && s.threads[s.native.owner.value].Dead?
  }

  predicate Enabled(s: State, a: Action) {
    a.i < |s.threads| &&
    var pc := s.threads[a.i];
    match a
    case Begin(_, _) => pc.Out?
    case Call(_, _) => pc.Locking? || pc.Recovering? || pc.Releasing?
    case Sleep(_) => pc == Owned(WaitFor(true))
    case Wake(_) => pc.Asleep? && (s.native.ruined || s.native.owner.None? || OwnerDead(s))
    case Drain(_) => pc == Owned(WaitFor(false)) || pc.Woken? || pc == Refused(WaitFor(false))
    case Unlock(_) => (pc.Owned? && pc.use != WaitFor(false)) || pc.Woken? || pc.Abandoning? || pc.Draining?
    case Forget(_) => (pc.Refused? && pc.use != WaitFor(false)) || pc.Threw?
    case Die(_) => !pc.Dead?
  }

  function At(s: State, i: nat, native: Native, pc: Pc): State
    requires i < |s.threads|
  {
    s.(native := native, threads := s.threads[i := pc])
  }

  /** The way out of a failed call: lock returns false, try_lock throws. */
  function Failure(use: Use): Pc {
    if use.Try? then Threw else Refused(use)
  }

  /** A live owner is waited for by the lock in wait_for, and by a lock that has the patience. */
  function LockApply(s: State, i: nat, use: Use, luck: Luck): State
    requires i < |s.threads|
  {
    var (m, report) := NativeLock(s.native, i, OwnerDead(s), luck == Faulty);
    match report
    case Acquired => At(s, i, m, Owned(use))
    case OwnerDied => At(s, i, m, Recovering(use)).(retries := s.retries + 1)
    case TimedOut => if use.WaitFor? || (use.Plain? && luck == Patient) then s else At(s, i, m, Refused(use))
    case Failed => At(s, i, m, Failure(use))
  }

  function CallApply(s: State, i: nat, luck: Luck): State
    requires Enabled(s, Call(i, luck))
  {
    match s.threads[i]
    case Locking(use) => LockApply(s, i, use, luck)
    case Recovering(use) =>
      var (m, ok) := NativeConsistent(s.native, i);
      At(s, i, m, if ok then Releasing(use) else Failure(use))
    case Releasing(use) =>
      var (m, ok) := NativeUnlock(s.native, i);
      At(s, i, m, if !ok then Failure(use) else if use.Try? then Threw else Locking(use))
  }

  function WakeApply(s: State, i: nat): State
    requires Enabled(s, Wake(i))
  {
    var (m, report) := NativeLock(s.native, i, OwnerDead(s), false);
    match report
    case Acquired => At(s, i, m, Woken)
    case OwnerDied => At(s, i, m, Abandoning).(wakes := s.wakes + 1)
    case _ => At(s, i, m, Refused(WaitFor(true)))
  }

  function Apply(s: State, a: Action): State
    requires Enabled(s, a)
  {
    match a
    case Begin(i, use) => At(s, i, s.native, Locking(use))
    case Call(i, luck) => CallApply(s, i, luck)
    case Sleep(i) => At(s, i, NativeUnlock(s.native, i).0, Asleep)
    case Wake(i) => WakeApply(s, i)
    case Drain(i) => At(s, i, s.native, Draining)
    case Unlock(i) =>
      At(s, i, NativeUnlock(s.native, i).0, Out)
        .(dropped := s.dropped + if s.threads[i].Abandoning? then 1 else 0)
    case Forget(i) => At(s, i, s.native, Out)
    case Die(i) =>
      At(s, i, s.native, Dead).(deaths := s.deaths + if s.native.owner == Some(i) then 1 else 0)
  }

  ghost predicate Runs(s: State, acts: seq<Action>, t: State)
    decreases |acts|
  {
    if acts == [] then s == t
    else Enabled(s, acts[0]) && Runs(Apply(s, acts[0]), acts[1..], t)
  }

  // ----- invariant

  predicate Holds(pc: Pc) {
    pc.Recovering? || pc.Releasing? || pc.Owned? || pc.Woken? || pc.Abandoning?
  }

  predicate OwnerAbandons(s: State) {
    s.native.owner.Some? && s.native.owner.value < |s.threads| && s.threads[s.native.owner.value].Abandoning?
  }

  ghost predicate NativeOk(s: State) {
    && (s.native.owner.Some? ==> s.native.owner.value < |s.threads|)
    && (forall i: nat :: i < |s.threads| && Holds(s.threads[i]) ==> s.native.owner == Some(i))
    && (forall i: nat :: i < |s.threads| && s.native.owner == Some(i) ==>
          Holds(s.threads[i]) || s.threads[i].Draining? || s.threads[i].Dead?)
    && (s.native.inconsistent ==>
          && s.native.owner.Some?
          && var pc := s.threads[s.native.owner.value]; pc.Recovering? || pc.Abandoning? || pc.Dead?)
    && (forall i: nat :: i < |s.threads| && (s.threads[i].Recovering? || s.threads[i].Abandoning?) ==>
          s.native.inconsistent)
    && (s.native.ruined ==> s.native.owner.None?)
  }

  /** Every death of an owner is found by one lock or one wait, at most; and the mutex is
      ruined exactly if one of those waits has gone on to unlock it. */
  ghost predicate CountsOk(s: State) {
    && s.retries + s.wakes + (if OwnerDead(s) then 1 else 0) <= s.deaths
    && s.dropped + (if OwnerAbandons(s) then 1 else 0) <= s.wakes
    && (s.native.ruined <==> s.dropped > 0)
    && (|s.threads| < 2 ==> s.wakes == 0)
    && (s.deaths > 0 ==> exists k: nat :: k < |s.threads| && s.threads[k].Dead?)
  }

  ghost predicate Inv(s: State) {
    NativeOk(s) && CountsOk(s)
  }

  /** The dead stay dead. */
  lemma DeadStays(s: State, a: Action)
    requires Enabled(s, a)
    ensures var t := Apply(s, a);
      && |t.threads| == |s.threads|
      && forall k: nat :: k < |s.threads| && s.threads[k].Dead? ==> t.threads[k].Dead?
  {
  }

  lemma LockKeepsInv(s: State, i: nat, use: Use, luck: Luck)
    requires Inv(s) && i < |s.threads| && s.threads[i] == Locking(use)
    ensures Inv(LockApply(s, i, use, luck))
  {
    DeadStays(s, Call(i, luck));
  }

  lemma RecoveryKeepsInv(s: State, i: nat, luck: Luck)
    requires Inv(s) && Enabled(s, Call(i, luck)) && !s.threads[i].Locking?
    ensures Inv(CallApply(s, i, luck))
  {
    DeadStays(s, Call(i, luck));
  }

  lemma SleepKeepsInv(s: State, i: nat)
    requires Inv(s) && Enabled(s, Sleep(i))
    ensures Inv(Apply(s, Sleep(i)))
  {
    DeadStays(s, Sleep(i));
  }

  lemma WakeKeepsInv(s: State, i: nat)
    requires Inv(s) && Enabled(s, Wake(i))
    ensures Inv(WakeApply(s, i))
  {
    DeadStays(s, Wake(i));
  }

  lemma UnlockKeepsInv(s: State, i: nat)
    requires Inv(s) && Enabled(s, Unlock(i))
    ensures Inv(Apply(s, Unlock(i)))
  {
    DeadStays(s, Unlock(i));
  }

  lemma DieKeepsInv(s: State, i: nat)
    requires Inv(s) && Enabled(s, Die(i))
    ensures Inv(Apply(s, Die(i)))
  {
    DeadStays(s, Die(i));
    assert Apply(s, Die(i)).threads[i].Dead?;
  }

  lemma MoveKeepsInv(s: State, a: Action)
    requires Inv(s) && Enabled(s, a) && (a.Begin? || a.Drain? || a.Forget?)
    ensures Inv(Apply(s, a))
  {
    DeadStays(s, a);
  }

  lemma StepKeepsInv(s: State, a: Action)
    requires Inv(s) && Enabled(s, a)
    ensures Inv(Apply(s, a)) && |Apply(s, a).threads| == |s.threads|
  {
    match a
    case Call(i, luck) =>
      if s.threads[i].Locking? {
        LockKeepsInv(s, i, s.threads[i].use, luck);
      } else {
        RecoveryKeepsInv(s, i, luck);
      }
    case Sleep(i) => SleepKeepsInv(s, i);
    case Wake(i) => WakeKeepsInv(s, i);
    case Unlock(i) => UnlockKeepsInv(s, i);
    case Die(i) => DieKeepsInv(s, i);
    case _ => MoveKeepsInv(s, a);
  }

  function Fresh(n: nat): State {
    State(Native(None, false, false), seq(n, i => Out), 0, 0, 0, 0)
  }

  lemma {:induction false} RunKeepsInv(s: State, acts: seq<Action>, t: State)
    requires Inv(s) && Runs(s, acts, t)
    ensures Inv(t) && |t.threads| == |s.threads|
    decreases |acts|
  {
    if acts != [] {
      StepKeepsInv(s, acts[0]);
      RunKeepsInv(Apply(s, acts[0]), acts[1..], t);
    }
  }

  ghost predicate Reachable(n: nat, s: State) {
    exists acts: seq<Action> :: Runs(Fresh(n), acts, s)
  }

  lemma ReachableInv(n: nat, s: State)
    requires Reachable(n, s)
    ensures Inv(s) && |s.threads| == n
  {
    var acts: seq<Action> :| Runs(Fresh(n), acts, s);
    RunKeepsInv(Fresh(n), acts, s);
  }

  // ----- what the wrapper promises

  /** Only the one thread that owns the mutex, in a consistent state, has been told that it
      does; whoever got false or an exception does not own it. */
  lemma ResultTellsOwnership(n: nat, s: State, i: nat)
    requires Reachable(n, s) && i < n
    ensures |s.threads| == n
    ensures s.threads[i].Owned? || s.threads[i].Woken? ==> s.native.owner == Some(i) && !s.native.inconsistent
    ensures s.threads[i].Refused? || s.threads[i].Threw? ==> s.native.owner != Some(i)
    ensures forall j: nat :: j < n && s.threads[i].Owned? && s.threads[j].Owned? ==> i == j
  {
    ReachableInv(n, s);
  }

  /** The recovery calls of lock and try_lock never fail, so the paths that give up owning are
      never taken. */
  lemma RecoverySucceeds(n: nat, s: State, i: nat, luck: Luck)
    requires Reachable(n, s) && i < n && |s.threads| == n
    ensures s.threads[i].Recovering? ==> Apply(s, Call(i, luck)).threads[i].Releasing?
    ensures s.threads[i].Releasing? ==> var t := Apply(s, Call(i, luck));
      t.native.owner.None? && t.threads[i] == (if s.threads[i].use.Try? then Threw else Locking(s.threads[i].use))
  {
    ReachableInv(n, s);
  }

  /** Each repetition of lock's loop is owed to an owner's death of its own. */
  lemma RetriesPaidByDeaths(n: nat, s: State)
    requires Reachable(n, s)
    ensures s.retries + s.wakes <= s.deaths
  {
    ReachableInv(n, s);
  }

  // ----- when the mutex is ruined

  /** A wait ends owning an inconsistent mutex exactly when it takes it from a dead owner. */
  lemma WakeAbandonsIff(n: nat, s: State, i: nat)
    requires Reachable(n, s) && Enabled(s, Wake(i))
    ensures Apply(s, Wake(i)).threads[i].Abandoning? <==> OwnerDead(s)
  {
    ReachableInv(n, s);
  }

  /** The one kind of step that puts a mutex beyond recovery is the unlock by the guard of
      such a waiter. */
  lemma RuinsIff(n: nat, s: State, a: Action)
    requires Reachable(n, s) && Enabled(s, a) && !s.native.ruined
    ensures Apply(s, a).native.ruined <==> a.Unlock? && s.threads[a.i].Abandoning?
  {
    ReachableInv(n, s);
    StepKeepsInv(s, a);
    DroppedBy(s, a);
  }

  lemma DroppedBy(s: State, a: Action)
    requires Enabled(s, a)
    ensures Apply(s, a).dropped == s.dropped + if a.Unlock? && s.threads[a.i].Abandoning? then 1 else 0
  {
  }

  /** Some waiter was given the mutex by a dead owner, and lived to unlock it. */
  ghost predicate Drops(s: State, acts: seq<Action>)
    decreases |acts|
  {
    acts != [] && Enabled(s, acts[0])
    && ((acts[0].Unlock? && s.threads[acts[0].i].Abandoning?) || Drops(Apply(s, acts[0]), acts[1..]))
  }

  lemma {:induction false} RunDrops(s: State, acts: seq<Action>, t: State)
    requires Runs(s, acts, t)
    ensures t.dropped >= s.dropped && (t.dropped > s.dropped <==> Drops(s, acts))
    decreases |acts|
  {
    if acts != [] {
      DroppedBy(s, acts[0]);
      RunDrops(Apply(s, acts[0]), acts[1..], t);
    }
  }

  /** A run leaves the mutex ruined if and only if, somewhere in it, a waiter that was given
      the mutex by a dead owner unlocked it. */
  lemma RuinedIff(n: nat, acts: seq<Action>, s: State)
    requires Runs(Fresh(n), acts, s)
    ensures s.native.ruined <==> Drops(Fresh(n), acts)
  {
    RunDrops(Fresh(n), acts, s);
    assert Reachable(n, s);
    ReachableInv(n, s);
  }

  ghost predicate NoSleep(acts: seq<Action>) {
    forall k :: 0 <= k < |acts| ==> !acts[k].Sleep?
  }

  lemma {:induction false} AwakeDropsNothing(s: State, acts: seq<Action>)
    requires NoSleep(acts) && forall i :: 0 <= i < |s.threads| ==> !s.threads[i].Asleep? && !s.threads[i].Abandoning?
    ensures !Drops(s, acts)
    decreases |acts|
  {
    if acts != [] && Enabled(s, acts[0]) {
      AwakeDropsNothing(Apply(s, acts[0]), acts[1..]);
    }
  }

  /** Through lock, try_lock and unlock alone, however the threads die, the mutex never ends up
      beyond recovery. */
  lemma NeverRuined(n: nat, acts: seq<Action>, s: State)
    requires Runs(Fresh(n), acts, s) && NoSleep(acts)
    ensures !s.native.ruined
  {
    RuinedIff(n, acts, s);
    AwakeDropsNothing(Fresh(n), acts);
  }

  lemma Step(n: nat, s: State, a: Action)
    requires Reachable(n, s) && Enabled(s, a)
    ensures Reachable(n, Apply(s, a))
  {
    var acts: seq<Action> :| Runs(Fresh(n), acts, s);
    RunsAppend(Fresh(n), acts, s, a);
  }

  lemma {:induction false} RunsAppend(s: State, acts: seq<Action>, t: State, a: Action)
    requires Runs(s, acts, t) && Enabled(t, a)
    ensures Runs(s, acts + [a], Apply(t, a))
    decreases |acts|
  {
    var more := acts + [a];
    if acts == [] {
      assert more[1..] == [];
    } else {
      RunsAppend(Apply(s, acts[0]), acts[1..], t, a);
      assert more[1..] == acts[1..] + [a];
    }
  }

  /** A ruined mutex stays ruined, and nobody owns it again. */
  lemma RuinedForEver(n: nat, s: State, acts: seq<Action>, t: State)
    requires Reachable(n, s) && s.native.ruined && Runs(s, acts, t)
    ensures t.native.ruined && t.native.owner.None?
    ensures forall i: nat :: i < |t.threads| ==> !t.threads[i].Owned?
  {
    ReachableInv(n, s);
    RunKeepsInv(s, acts, t);
    RunDrops(s, acts, t);
  }

  // ----- the retry loop itself

  /** How the other threads have left the mutex when a lock call by me is answered. */
  datatype World = World(native: Native, ownerDead: bool, fault: bool)

  predicate Found(w: World, me: nat) {
    w.native.owner != Some(me) && (w.native.inconsistent ==> w.native.owner.Some?)
  }

  function Answer(w: World, me: nat): (Native, Report) {
    NativeLock(w.native, me, w.ownerDead, w.fault)
  }

  datatype TryResult = True | False | Throws

  class Mutex {
    var native: Native
    const blank: bool   // all bytes of the native mutex are zero

    constructor (blank: bool)
      ensures native == Native(None, false, false) && this.blank == blank
    {
      native := Native(None, false, false);
      this.blank := blank;
    }

    predicate IsValid() {
      !blank
    }

    method SystemLock(me: nat, w: World) returns (report: Report)
      modifies this
      ensures (native, report) == Answer(w, me)
    {
      native := w.native;
      if w.fault || native.ruined {
        return Failed;
      }
      if native.owner.None? {
        native := native.(owner := Some(me));
        return Acquired;
      }
      if w.ownerDead {
        native := native.(owner := Some(me), inconsistent := true);
        return OwnerDied;
      }
      return TimedOut;
    }

    method SystemConsistent(me: nat) returns (ok: bool)
      modifies this
      ensures (native, ok) == NativeConsistent(old(native), me)
    {
      ok := native.owner == Some(me) && native.inconsistent;
      if ok {
        native := native.(inconsistent := false);
      }
    }

    method SystemUnlock(me: nat) returns (ok: bool)
      modifies this
      ensures (native, ok) == NativeUnlock(old(native), me)
    {
      ok := native.owner == Some(me);
      if ok {
        native := Native(None, false, native.ruined || native.inconsistent);
      }
    }

    /** worlds says how the calls of one lock find the mutex, in order; a dead owner is not
        found for ever.  The loop stops at the first call that does not find one.  A blank mutex
        is refused at once. */
    method Lock(me: nat, worlds: seq<World>) returns (ok: bool, used: nat)
      requires forall k :: 0 <= k < |worlds| ==> Found(worlds[k], me)
      requires exists k :: 0 <= k < |worlds| && Answer(worlds[k], me).1 != OwnerDied
      modifies this
      ensures !IsValid() ==> !ok && native == old(native)
      ensures IsValid() ==>
                && used < |worlds| && Answer(worlds[used], me).1 != OwnerDied
                && (forall k :: 0 <= k < used ==> Answer(worlds[k], me).1 == OwnerDied)
                && (ok <==> !worlds[used].fault && worlds[used].native == Native(None, false, false))
                && native == if ok then Native(Some(me), false, false) else worlds[used].native
    {
      used := 0;
      if !IsValid() {
        return false, 0;
      }
      while true
        invariant used < |worlds| && forall k :: 0 <= k < used ==> Answer(worlds[k], me).1 == OwnerDied
        decreases |worlds| - used
      {
        var report := SystemLock(me, worlds[used]);
        match report {
          case Acquired => return true, used;
          case TimedOut => return false, used;
          case OwnerDied =>
            var consistent := SystemConsistent(me);
            if !consistent {
              return false, used;
            }
            var unlocked := SystemUnlock(me);
            if !unlocked {
              return false, used;
            }
          case Failed => return false, used;
        }
        used := used + 1;
      }
    }

    /** A dead owner's mutex is left free and consistent, but the call throws all the same. */
    method TryLock(me: nat, w: World) returns (result: TryResult)
      requires Found(w, me)
      modifies this
      ensures !IsValid() ==> result == False && native == old(native)
      ensures IsValid() ==>
                && (result == True <==> !w.fault && w.native == Native(None, false, false))
                && (result == False <==> !w.fault && !w.native.ruined && w.native.owner.Some? && !w.ownerDead)
                && native == if result == True then Native(Some(me), false, false)
                             else if Answer(w, me).1 == OwnerDied then Native(None, false, false)
                             else w.native
    {
      if !IsValid() {
        return False;
      }
      var report := SystemLock(me, w);
      match report {
        case Acquired => return True;
        case TimedOut => return False;
        case OwnerDied =>
          var consistent := SystemConsistent(me);
          if consistent {
            var _ := SystemUnlock(me);
          }
        case Failed =>
      }
      result := Throws;
    }

    /** Only the owner unlocks, and a mutex that it never declared consistent is ruined by it. */
    method Unlock(me: nat) returns (ok: bool)
      modifies this
      ensures ok <==> IsValid() && old(native).owner == Some(me)
      ensures native == if ok then Native(None, false, old(native).ruined || old(native).inconsistent) else old(native)
    {
      if !IsValid() {
        return false;
      }
      ok := SystemUnlock(me);
    }
  }
}
