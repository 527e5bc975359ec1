/** When a call of wait_for drains, and when its drain ends. */
module ProtocolWait {
  import opened Words
  import opened Protocol
  import opened ProtocolInv
  import opened ProtocolTheorems
  import opened ProtocolProgress

  /** Inside what wait_for was given to run. */
  predicate InDrain(pc: ReceiverPc) {
    !pc.Outside? && !pc.Locked? && !pc.Waiting? && !pc.Leaving?
  }

  /** A receiver that stands at pc in place of where it stood. */
  function StandsAt(s: State, i: nat, pc: ReceiverPc, mutex: Option<nat>): State
    requires i < |s.recvs|
  {
    s.(recvs := s.recvs[i := s.recvs[i].(pc := pc)], mutex := mutex)
  }

  /** How a step of receiver i bears on its call: caughtUp says whether it has all there is. */
  ghost predicate Bounded(s: State, i: nat, ok: bool, t: State, caughtUp: bool) {
    i < |s.recvs| && i < |t.recvs| &&
    var pc, next := s.recvs[i].pc, t.recvs[i].pc;
    && (InDrain(next) <==> if InDrain(pc) then !(pc.AtEmpty? && caughtUp) else ok && (pc.Locked? || pc.Waiting?))
    && (InDrain(pc) && !InDrain(next) ==> next.Leaving?)
    && t.mutex == (if next.Outside? || next.Waiting? then None else Some(i))
    && (!InDrain(pc) ==> t == StandsAt(s, i, next, t.mutex))
  }

  lemma StepBounds(s: State, i: nat, ok: bool)
    requires TestsTell(s, i) && Enabled(s, Recv(i, ok)) && (Holding(s.recvs[i]) ==> s.mutex == Some(i))
    ensures Bounded(s, i, ok, RecvApply(s, i, ok), |s.recvs[i].taken| == |s.hist|)
  {
    match s.recvs[i].pc
    case AtBump =>
    case AtCopy(_) =>
    case AtRead(_) =>
    case AtDecrement(_, _) =>
    case AtRelease(_) =>
    case _ =>
  }

  /** A drain begins where a call without a timeout has the lock, or where a wait was woken in
      time; it goes on, whether its reads succeed or fail, until the cursor has caught up with
      the history, and nothing else ends it.  The mutex is held throughout a call, but for the
      wait. */
  lemma DrainBounds(n: nat, s: State, i: nat, ok: bool)
    requires n < WORD && Reachable(n, s) && i < n && Enabled(s, Recv(i, ok))
    ensures |s.recvs| == n
    ensures Bounded(s, i, ok, Apply(s, Recv(i, ok)), Cursor(s.recvs[i]) == |s.hist|)
  {
    ReachableInv(n, s);
    TestsDoTell(s, i);
    StepBounds(s, i, ok);
    CursorOf(s, i, ok);
  }

  /** Whether a cursor has caught up only matters where it is not on a copy. */
  lemma CursorOf(s: State, i: nat, ok: bool)
    requires Enabled(s, Recv(i, ok))
    requires Bounded(s, i, ok, RecvApply(s, i, ok), |s.recvs[i].taken| == |s.hist|)
    ensures Bounded(s, i, ok, RecvApply(s, i, ok), Cursor(s.recvs[i]) == |s.hist|)
  {
  }

  /** A wait that is not woken in time does not drain: the two steps left of the call give back
      the mutex, and leave everything as it was before the wait. */
  lemma TimedOutReturns(n: nat, s: State, i: nat, ok: bool)
    requires n < WORD && Reachable(n, s) && i < |s.recvs| && s.recvs[i].pc.Waiting?
    requires Enabled(s, Recv(i, false))
    ensures Runs(s, [Recv(i, false), Recv(i, ok)], StandsAt(s, i, Outside, None))
  {
    var t := Apply(s, Recv(i, false));
    RunsTwo(s, Recv(i, false), Recv(i, ok));
    assert t.recvs[i := t.recvs[i].(pc := Outside)] == s.recvs[i := s.recvs[i].(pc := Outside)];
  }

  /** The actions of one call up to the drain, or up to where it leaves instead. */
  function CallActions(i: nat, timed: bool, woken: bool): seq<Action> {
    [Recv(i, true), Recv(i, !timed)] + if timed then [Recv(i, woken)] else []
  }

  lemma FromLocked(s: State, i: nat, timed: bool)
    requires i < |s.recvs| && s.recvs[i].life.Alive?
    ensures var u := StandsAt(s, i, Locked, Some(i));
      && Enabled(u, Recv(i, !timed))
      && Apply(u, Recv(i, !timed)) == if timed then StandsAt(s, i, Waiting, None) else StandsAt(s, i, AtEmpty, Some(i))
  {
    var t := Apply(StandsAt(s, i, Locked, Some(i)), Recv(i, !timed));
    assert t.recvs == s.recvs[i := t.recvs[i]];
  }

  lemma FromWaiting(s: State, i: nat, woken: bool)
    requires i < |s.recvs| && s.recvs[i].life.Alive?
    ensures var u := StandsAt(s, i, Waiting, None);
      && Enabled(u, Recv(i, woken))
      && Apply(u, Recv(i, woken)) == StandsAt(s, i, if woken then AtEmpty else Leaving, Some(i))
  {
    var t := Apply(StandsAt(s, i, Waiting, None), Recv(i, woken));
    assert t.recvs == s.recvs[i := t.recvs[i]];
  }

  /** A call that finds the mutex free comes to drain if and only if it has no timeout, or was
      woken in time. */
  lemma CallDrainsIff(n: nat, s: State, i: nat, timed: bool, woken: bool)
    requires n < WORD && Reachable(n, s) && i < |s.recvs|
    requires s.recvs[i].pc.Outside? && s.recvs[i].life.Alive? && s.mutex.None?
    ensures Runs(s, CallActions(i, timed, woken),
                 StandsAt(s, i, if timed && !woken then Leaving else AtEmpty, Some(i)))
  {
    var locked, waiting := StandsAt(s, i, Locked, Some(i)), StandsAt(s, i, Waiting, None);
    FromLocked(s, i, timed);
    if timed {
      FromWaiting(s, i, woken);
      RunsTwo(locked, Recv(i, false), Recv(i, woken));
      RunsCons(s, Recv(i, true), [Recv(i, false), Recv(i, woken)], Apply(waiting, Recv(i, woken)));
      assert [Recv(i, true)] + [Recv(i, false), Recv(i, woken)] == CallActions(i, timed, woken);
    } else {
      RunsTwo(s, Recv(i, true), Recv(i, true));
      assert CallActions(i, timed, woken) == [Recv(i, true), Recv(i, true)];
    }
  }

  /** Receiver i only makes calls with a timeout, and none of them is woken in time. */
  ghost predicate NeverWoken(acts: seq<Action>, i: nat) {
    forall k :: 0 <= k < |acts| && acts[k].Recv? && acts[k].i == i ==> !acts[k].ok
  }

  /** A receiver has taken nothing more and has not begun to drain. */
  ghost predicate TookNothing(was: Receiver, now: Receiver) {
    !InDrain(now.pc) && now.cursor == was.cursor && now.taken == was.taken && now.done == was.done
  }

  lemma RecvTakesNothing(s: State, i: nat, j: nat, ok: bool)
    requires i < |s.recvs| && !InDrain(s.recvs[i].pc) && Enabled(s, Recv(j, ok)) && (j == i ==> !ok)
    ensures var t := RecvApply(s, j, ok);
      |t.recvs| == |s.recvs| && TookNothing(s.recvs[i], t.recvs[i])
  {
    var t := RecvApply(s, j, ok);
    assert t.recvs == s.recvs[j := t.recvs[j]];
    if j == i {
      match s.recvs[i].pc
      case Outside =>
      case Locked =>
      case Waiting =>
      case Leaving =>
    }
  }

  lemma StepTakesNothing(s: State, i: nat, a: Action)
    requires i < |s.recvs| && !InDrain(s.recvs[i].pc) && Enabled(s, a) && (a.Recv? && a.i == i ==> !a.ok)
    ensures var t := Apply(s, a);
      |t.recvs| == |s.recvs| && TookNothing(s.recvs[i], t.recvs[i])
  {
    match a
    case Recv(j, ok) => RecvTakesNothing(s, i, j, ok);
    case _ =>
  }

  /** In such a run it takes nothing, whatever the others do meanwhile. */
  lemma {:induction false} NeverWokenTakesNothing(s: State, i: nat, acts: seq<Action>, t: State)
    requires i < |s.recvs| && !InDrain(s.recvs[i].pc) && Runs(s, acts, t) && NeverWoken(acts, i)
    ensures |t.recvs| == |s.recvs| && TookNothing(s.recvs[i], t.recvs[i])
    decreases |acts|
  {
    if acts != [] {
      StepTakesNothing(s, i, acts[0]);
      NeverWokenTakesNothing(Apply(s, acts[0]), i, acts[1..], t);
    }
  }
}
