/** The drains cannot get stuck: with the sender at rest, every receiver can catch up. */
module ProtocolProgress {
  import opened Words
  import opened Protocol
  import opened ProtocolInv
  import opened ProtocolSteps
  import opened ProtocolTheorems

  /** t arises from s by steps of receivers alone. */
  ghost predicate ReceiversTo(s: State, t: State) {
    exists acts: seq<Action> :: OnlyReceivers(acts) && Runs(s, acts, t)
  }

  ghost predicate OnlyReceivers(acts: seq<Action>) {
    forall k :: 0 <= k < |acts| ==> acts[k].Recv?
  }

  lemma {:induction false} RunsConcat(s: State, a: seq<Action>, t: State, b: seq<Action>, u: State)
    requires Runs(s, a, t) && Runs(t, b, u)
    ensures Runs(s, a + b, u)
    decreases |a|
  {
    if a == [] {
      assert a + b == b;
    } else {
      RunsConcat(Apply(s, a[0]), a[1..], t, b, u);
      assert (a + b)[1..] == a[1..] + b;
    }
  }

  lemma Chain(s: State, t: State, u: State)
    requires ReceiversTo(s, t) && ReceiversTo(t, u)
    ensures ReceiversTo(s, u)
  {
    var a: seq<Action> :| OnlyReceivers(a) && Runs(s, a, t);
    var b: seq<Action> :| OnlyReceivers(b) && Runs(t, b, u);
    RunsConcat(s, a, t, b, u);
    assert OnlyReceivers(a + b);
  }

  lemma OneStep(s: State, i: nat, ok: bool)
    requires Enabled(s, Recv(i, ok))
    ensures ReceiversTo(s, RecvApply(s, i, ok))
  {
    var acts := [Recv(i, ok)];
    assert acts[1..] == [];
    assert Runs(s, acts, RecvApply(s, i, ok));
  }

  lemma Stay(s: State)
    ensures ReceiversTo(s, s)
  {
    assert Runs(s, [], s) && OnlyReceivers([]);
  }

  /** The receiver's steps keep the sender's side and the other receivers as they are. */
  lemma RecvFrame(s: State, i: nat, ok: bool)
    requires Enabled(s, Recv(i, ok))
    ensures var t := RecvApply(s, i, ok);
      && t.hist == s.hist && t.sender == s.sender
      && |t.recvs| == |s.recvs| && t.recvs == s.recvs[i := t.recvs[i]]
      && t.recvs[i].life == s.recvs[i].life
  {
    match s.recvs[i].pc
    case AtDecrement(_, _) =>
    case AtRelease(_) =>
    case _ =>
  }

  /** What a receiver decides where its drain leaves it a choice, when all its reads are to
      succeed, or all of them to fail. */
  function Choice(pc: ReceiverPc, good: bool): bool {
    !pc.AtRead? || good
  }

  /** done grows by these outcomes only: successful good, or failed ones. */
  ghost predicate Outcomes(before: seq<Option<Bytes>>, after: seq<Option<Bytes>>, good: bool) {
    before <= after && forall m :: |before| <= m < |after| ==> after[m].Some? == good
  }

  lemma StepOutcomes(s: State, i: nat, good: bool)
    requires i < |s.recvs| && Enabled(s, Recv(i, Choice(s.recvs[i].pc, good)))
    requires good || !s.recvs[i].pc.AtDecrement?
    ensures Outcomes(s.recvs[i].done, RecvApply(s, i, Choice(s.recvs[i].pc, good)).recvs[i].done, good)
  {
    match s.recvs[i].pc
    case AtRead(_) =>
    case AtDecrement(_, _) =>
    case _ =>
  }

  /** Steps left in a drain, for a receiver that lags behind by some messages. */
  function Rank(pc: ReceiverPc): nat {
    match pc
    case Outside => 0
    case Leaving => 1
    case AtCopy(_) => 1
    case AtBump => 2
    case AtPop => 3
    case AtEmpty => 4
    case AtRelease(_) => 5
    case AtLoad(_) => 6
    case AtDecrement(_, _) => 7
    case AtRead(_) => 8
    case Locked => 5
    case Waiting => 5
  }

  function Work(hist: seq<Message>, rv: Receiver): int {
    8 * (|hist| - |rv.taken|) + Rank(rv.pc)
  }

  /** What EmptyTests says, for a receiver whose cursor is not on a copy. */
  ghost predicate TestsTell(s: State, h: nat) {
    h < |s.recvs| &&
    var rv := s.recvs[h];
    && (rv.pc.AtEmpty? ==> (rv.cursor == s.w <==> |rv.taken| == |s.hist|))
    && (rv.pc.AtPop? ==> !EmptyTest8(rv.cursor, s.w))
  }

  lemma TestsDoTell(s: State, h: nat)
    requires Inv(s) && h < |s.recvs|
    ensures TestsTell(s, h) && RecvOk(s.hist, s.base, s.recvs[h])
  {
    assert RecvOk(s.hist, s.base, s.recvs[h]);
    CursorBounds(s, h);
    EmptyTests(s, h);
  }

  lemma WorkFalls(s: State, h: nat, ok: bool)
    requires Enabled(s, Recv(h, ok)) && TestsTell(s, h) && Holding(s.recvs[h])
    requires ok || s.recvs[h].pc.AtRead?
    requires |s.recvs[h].taken| <= |s.hist| && PcOk(s.hist, s.base, s.recvs[h])
    ensures var u := RecvApply(s, h, ok);
      0 <= Work(s.hist, u.recvs[h]) < Work(s.hist, s.recvs[h])
  {
  }

  /** The holder's next step is possible, whether or not its reads succeed, and brings the
      end of its drain closer. */
  lemma HolderAdvances(s: State, h: nat, good: bool)
    requires Inv(s) && h < |s.recvs| && Holding(s.recvs[h])
    ensures var ok := Choice(s.recvs[h].pc, good);
      && Enabled(s, Recv(h, ok))
      && 0 <= Work(s.hist, RecvApply(s, h, ok).recvs[h]) < Work(s.hist, s.recvs[h])
  {
    HolderEnabled(s, h, Choice(s.recvs[h].pc, good));
    TestsDoTell(s, h);
    WorkFalls(s, h, Choice(s.recvs[h].pc, good));
  }

  /** A drain that has entered its loop ends with nothing left to copy. */
  ghost predicate Draining(hist: seq<Message>, rv: Receiver) {
    rv.pc.Leaving? || rv.pc.Outside? ==> |rv.taken| == |hist|
  }

  lemma DrainingKept(s: State, h: nat, ok: bool)
    requires Inv(s) && h < |s.recvs| && Holding(s.recvs[h]) && Draining(s.hist, s.recvs[h])
    requires Enabled(s, Recv(h, ok)) && (ok || s.recvs[h].pc.AtRead?)
    ensures Draining(s.hist, RecvApply(s, h, ok).recvs[h])
  {
    TestsDoTell(s, h);
  }

  /** What steps of receiver h alone leave as it was. */
  ghost predicate OnlyMoved(s: State, t: State, h: nat) {
    && t.hist == s.hist && t.sender == s.sender && h < |s.recvs| == |t.recvs|
    && t.recvs[h].life == s.recvs[h].life
    && forall i :: 0 <= i < |s.recvs| && i != h ==> t.recvs[i] == s.recvs[i]
  }

  /** One step of a drain. */
  lemma DrainStep(s: State, h: nat, good: bool) returns (u: State)
    requires Inv(s) && h < |s.recvs| && Holding(s.recvs[h])
    requires good || !s.recvs[h].pc.AtDecrement?
    ensures Inv(u) && ReceiversTo(s, u) && OnlyMoved(s, u, h)
    ensures 0 <= Work(u.hist, u.recvs[h]) < Work(s.hist, s.recvs[h])
    ensures Outcomes(s.recvs[h].done, u.recvs[h].done, good)
    ensures Draining(s.hist, s.recvs[h]) ==> Draining(u.hist, u.recvs[h])
    ensures if Holding(u.recvs[h]) then good || !u.recvs[h].pc.AtDecrement?
            else u.mutex.None? && u.recvs[h].pc.Outside?
  {
    var ok := Choice(s.recvs[h].pc, good);
    HolderAdvances(s, h, good);
    RecvFrame(s, h, ok);
    StepOutcomes(s, h, good);
    OneStep(s, h, ok);
    StepKeepsInv(s, Recv(h, ok));
    u := RecvApply(s, h, ok);
    if Draining(s.hist, s.recvs[h]) {
      DrainingKept(s, h, ok);
    }
    LeftDrain(s, h, ok);
    NextDecrement(s, h, ok);
  }

  /** A decrement only follows a read that succeeded. */
  lemma NextDecrement(s: State, h: nat, ok: bool)
    requires Enabled(s, Recv(h, ok))
    ensures RecvApply(s, h, ok).recvs[h].pc.AtDecrement? ==> s.recvs[h].pc.AtRead? && ok
  {
    match s.recvs[h].pc
    case AtRead(_) =>
    case _ =>
  }

  /** A drain run to its end, in which every read succeeds, or every read fails. */
  lemma {:induction false} FinishDrain(s: State, h: nat, good: bool) returns (t: State)
    requires Inv(s) && h < |s.recvs| && Holding(s.recvs[h])
    requires good || !s.recvs[h].pc.AtDecrement?
    ensures Inv(t) && ReceiversTo(s, t) && t.mutex.None? && OnlyMoved(s, t, h)
    ensures Outcomes(s.recvs[h].done, t.recvs[h].done, good)
    ensures Draining(s.hist, s.recvs[h]) ==> |t.recvs[h].taken| == |s.hist|
    decreases Work(s.hist, s.recvs[h])
  {
    var u := DrainStep(s, h, good);
    if Holding(u.recvs[h]) {
      t := FinishDrain(u, h, good);
      Chain(s, u, t);
    } else {
      t := u;
    }
  }

  lemma LeftDrain(s: State, h: nat, ok: bool)
    requires Inv(s) && h < |s.recvs| && Holding(s.recvs[h]) && Enabled(s, Recv(h, ok))
    requires ok || s.recvs[h].pc.AtRead?
    ensures !Holding(RecvApply(s, h, ok).recvs[h]) ==>
              RecvApply(s, h, ok).mutex.None? && RecvApply(s, h, ok).recvs[h].pc.Outside?
  {
    match s.recvs[h].pc
    case Leaving =>
    case _ =>
  }

  lemma FreeMutex(s: State) returns (t: State)
    requires Inv(s)
    ensures Inv(t) && ReceiversTo(s, t) && t.mutex.None? && SameFailures(s, t)
  {
    if h: nat :| h < |s.recvs| && Holding(s.recvs[h]) {
      t := FinishDrain(s, h, true);
    } else {
      Stay(s);
      t := s;
    }
  }

  lemma EnterDrain(s: State, i: nat) returns (t: State)
    requires Inv(s) && s.mutex.None? && i < |s.recvs| && s.recvs[i].life.Alive?
    ensures Inv(t) && ReceiversTo(s, t) && OnlyMoved(s, t, i)
    ensures Holding(t.recvs[i]) && Draining(t.hist, t.recvs[i])
    ensures t.recvs[i].done == s.recvs[i].done && !t.recvs[i].pc.AtDecrement?
  {
    assert !Holding(s.recvs[i]);
    OneStep(s, i, true);
    RecvFrame(s, i, true);
    StepKeepsInv(s, Recv(i, true));
    t := RecvApply(s, i, true);
  }

  /** A receiver that is outside goes through a whole drain. */
  lemma WholeDrain(s: State, i: nat, good: bool) returns (t: State)
    requires Inv(s) && s.mutex.None? && i < |s.recvs| && s.recvs[i].life.Alive?
    ensures Inv(t) && ReceiversTo(s, t) && t.mutex.None? && OnlyMoved(s, t, i)
    ensures Outcomes(s.recvs[i].done, t.recvs[i].done, good) && |t.recvs[i].taken| == |s.hist|
  {
    var inside := EnterDrain(s, i);
    t := FinishDrain(inside, i, good);
    Chain(s, inside, t);
  }

  /** The two states have the same history, the same failed reads and the same dead. */
  ghost predicate SameFailures(s: State, t: State) {
    && t.hist == s.hist && t.sender == s.sender && |t.recvs| == |s.recvs|
    && forall i :: 0 <= i < |s.recvs| ==>
         t.recvs[i].life == s.recvs[i].life && Outcomes(s.recvs[i].done, t.recvs[i].done, true)
  }

  lemma SameFailuresChain(s: State, t: State, u: State)
    requires SameFailures(s, t) && SameFailures(t, u)
    ensures SameFailures(s, u)
  {
    forall i | 0 <= i < |s.recvs|
      ensures u.recvs[i].life == s.recvs[i].life && Outcomes(s.recvs[i].done, u.recvs[i].done, true)
    {
      assert Outcomes(s.recvs[i].done, t.recvs[i].done, true) && Outcomes(t.recvs[i].done, u.recvs[i].done, true);
    }
  }

  /** The first k receivers, as far as they are alive, have taken everything. */
  ghost predicate CaughtUp(s: State, k: nat) {
    k <= |s.recvs| && forall i :: 0 <= i < k && s.recvs[i].life.Alive? ==> |s.recvs[i].taken| == |s.hist|
  }

  lemma DrainNext(s: State, k: nat) returns (t: State)
    requires Inv(s) && s.mutex.None? && k < |s.recvs| && CaughtUp(s, k)
    ensures Inv(t) && ReceiversTo(s, t) && t.mutex.None? && SameFailures(s, t) && CaughtUp(t, k + 1)
  {
    if s.recvs[k].life.Alive? {
      t := WholeDrain(s, k, true);
    } else {
      Stay(s);
      t := s;
    }
  }

  /** One after the other, all receivers that are alive drain the ring. */
  lemma {:induction false} DrainInTurn(s: State, k: nat) returns (t: State)
    requires Inv(s) && s.mutex.None? && k <= |s.recvs|
    ensures Inv(t) && ReceiversTo(s, t) && t.mutex.None? && SameFailures(s, t) && CaughtUp(t, k)
  {
    if k == 0 {
      Stay(s);
      t := s;
    } else {
      var u := DrainInTurn(s, k - 1);
      t := DrainNext(u, k - 1);
      Chain(s, u, t);
      SameFailuresChain(s, u, t);
    }
  }

  lemma CatchUp(s: State) returns (t: State)
    requires Inv(s)
    ensures Inv(t) && ReceiversTo(s, t) && t.mutex.None? && SameFailures(s, t) && CaughtUp(t, |s.recvs|)
  {
    var free := FreeMutex(s);
    t := DrainInTurn(free, |s.recvs|);
    Chain(s, free, t);
    SameFailuresChain(s, free, t);
  }

  /** From every reachable state, steps of receivers alone, with no read failing, can bring
      all that are alive to the end of the history together and leave the mutex free. */
  lemma CanCatchUp(n: nat, s: State)
    requires n < WORD && Reachable(n, s)
    ensures exists t :: ReceiversTo(s, t) && t.mutex.None? && SameFailures(s, t) && CaughtUp(t, n)
  {
    ReachableInv(n, s);
    var t := CatchUp(s);
  }
}
