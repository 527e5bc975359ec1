/** Runs that push and drain in turn, and runs with more receivers than take part. */
module ProtocolRounds {
  import opened Words
  import opened Protocol
  import opened ProtocolInv
  import opened ProtocolSteps
  import opened ProtocolTheorems
  import opened ProtocolProgress

  /** Every message of the run is sent with count c. */
  ghost predicate AllCount(acts: seq<Action>, c: nat) {
    forall k :: 0 <= k < |acts| && acts[k].SendWrite? ==> acts[k].msg.cnt == c
  }

  ghost predicate Reach(c: nat, s: State, t: State) {
    exists acts: seq<Action> :: AllCount(acts, c) && Runs(s, acts, t)
  }

  lemma {:induction false} RunsAppend(s: State, acts: seq<Action>, t: State, a: Action)
    requires Runs(s, acts, t) && Enabled(t, a)
    ensures Runs(s, acts + [a], Apply(t, a))
    decreases |acts|
  {
    var more := acts + [a];
    if acts == [] {
      assert more[1..] == [];
    } else {
      RunsAppend(Apply(s, acts[0]), acts[1..], t, a);
      assert more[1..] == acts[1..] + [a];
    }
  }

  lemma Extend(c: nat, s: State, t: State, a: Action)
    requires Reach(c, s, t) && Enabled(t, a) && (a.SendWrite? ==> a.msg.cnt == c)
    ensures Reach(c, s, Apply(t, a))
  {
    var acts: seq<Action> :| AllCount(acts, c) && Runs(s, acts, t);
    RunsAppend(s, acts, t, a);
    assert AllCount(acts + [a], c);
  }

  lemma ReachThenReceivers(c: nat, s0: State, s: State, t: State)
    requires Reach(c, s0, s) && ReceiversTo(s, t)
    ensures Reach(c, s0, t)
  {
    var a: seq<Action> :| AllCount(a, c) && Runs(s0, a, s);
    var b: seq<Action> :| OnlyReceivers(b) && Runs(s, b, t);
    RunsConcat(s0, a, s, b, t);
    assert AllCount(a + b, c);
  }

  lemma ReachIsReachable(n: nat, base: nat, slots: seq<Descriptor>, s: State)
    requires |slots| == SLOTS && Reach(n, Start(n, base, slots), s)
    ensures Reachable(n, s)
  {
    var acts: seq<Action> :| AllCount(acts, n) && Runs(Start(n, base, slots), acts, s);
    assert AllFit(acts, n);
  }

  // ----- a push of one more

  /** There is always a descriptor that has not been used. */
  lemma {:induction false} Unused(ds: set<Descriptor>) returns (bound: nat)
    ensures forall d :: d in ds ==> d.id < bound
  {
    if ds == {} {
      bound := 0;
    } else {
      var d :| d in ds;
      var rest := Unused(ds - {d});
      bound := if rest <= d.id then d.id + 1 else rest;
    }
  }

  lemma FreshMessage(s: State, cnt: nat) returns (msg: Message)
    ensures msg.desc !in s.pool && msg.cnt == cnt
  {
    var bound := Unused(s.pool.Keys);
    msg := Message(Descriptor(bound, 0, 16), cnt, []);
  }

  /** What the sender leaves alone. */
  ghost predicate SenderOnly(s: State, t: State) {
    t.recvs == s.recvs && t.releases == s.releases && t.mutex == s.mutex && t.base == s.base
  }

  lemma SenderStep(c: nat, s0: State, s: State, a: Action)
    requires Reach(c, s0, s) && Inv(s) && Enabled(s, a) && !a.Recv? && !a.Die?
    requires a.SendWrite? ==> a.msg.cnt == c && Fits(c, |s.recvs|)
    ensures var t := Apply(s, a); Reach(c, s0, t) && Inv(t) && SenderOnly(s, t)
  {
    Extend(c, s0, s, a);
    StepKeepsInv(s, a);
  }

  /** The states of the sender's test, for a push that will pass it. */
  ghost predicate Testing(s: State, t: State) {
    && t.hist == s.hist && SenderOnly(s, t)
    && |t.slots| == |s.slots| && !s.sender.Idle? && !t.sender.Idle? && t.sender.msg == s.sender.msg
  }

  lemma LoadW(s: State)
    requires s.sender.Written?
    ensures Testing(s, Apply(s, SendLoadW)) && Apply(s, SendLoadW).sender.LoadedW?
  {
  }

  lemma LoadR(s: State)
    requires Bounds(s) && SenderOk(s) && s.sender.LoadedW? && |s.hist| - |s.releases| < CAPACITY
    ensures Testing(s, Apply(s, SendLoadR)) && Apply(s, SendLoadR).sender.Passed?
    ensures Apply(s, SendLoadR).sender.slot < |s.slots|
  {
    RefusedWhenFull(s);
  }

  lemma TestLater(c: nat, s0: State, s: State) returns (t: State)
    requires Reach(c, s0, s) && Inv(s) && s.sender.Written? && |s.hist| - |s.releases| < CAPACITY
    ensures Reach(c, s0, t) && Inv(t) && Testing(s, t) && t.sender.Passed? && t.sender.slot < |t.slots|
  {
    SenderStep(c, s0, s, SendLoadW);
    LoadW(s);
    var v := Apply(s, SendLoadW);
    LoadR(v);
    SenderStep(c, s0, v, SendLoadR);
    t := Apply(v, SendLoadR);
  }

  lemma WriteKeeps(s: State, msg: Message)
    requires Enabled(s, SendWrite(msg))
    ensures var u := Apply(s, SendWrite(msg)); u.hist == s.hist && u.sender == Written(msg)
  {
  }

  lemma StoreAndCommit(c: nat, s0: State, s: State) returns (t: State)
    requires Reach(c, s0, s) && Inv(s) && s.sender.Passed? && s.sender.slot < |s.slots|
    ensures Reach(c, s0, t) && Inv(t) && SenderOnly(s, t) && t.sender.Idle? && t.hist == s.hist + [s.sender.msg]
  {
    SenderStep(c, s0, s, SendStore);
    var v := Apply(s, SendStore);
    SenderStep(c, s0, v, SendCommit);
    t := Apply(v, SendCommit);
  }

  /** A push of one more message with this count, in the five steps of its sender. */
  lemma PushOne(c: nat, s0: State, s: State) returns (t: State)
    requires c < WORD && Reach(c, s0, s) && Inv(s) && Fits(c, |s.recvs|)
    requires s.sender.Idle? && |s.hist| - |s.releases| < CAPACITY
    ensures Reach(c, s0, t) && Inv(t) && SenderOnly(s, t) && t.sender.Idle?
    ensures |t.hist| == |s.hist| + 1 && s.hist <= t.hist && t.hist[|s.hist|].cnt == c
  {
    var msg := FreshMessage(s, c);
    SenderStep(c, s0, s, SendWrite(msg));
    WriteKeeps(s, msg);
    var u := TestLater(c, s0, Apply(s, SendWrite(msg)));
    t := StoreAndCommit(c, s0, u);
  }

  // ----- rounds

  /** k messages have been pushed for all of the receivers, and all have read them. */
  ghost predicate Served(s: State, c: nat, k: nat) {
    && Inv(s) && |s.recvs| == c && |s.hist| == k && s.base == 0 && s.sender.Idle? && s.mutex.None?
    && AllForAll(s) && CaughtUp(s, c) && (forall i :: 0 <= i < c ==> s.recvs[i].life.Alive?)
  }

  lemma ServedIsReleased(s: State, c: nat, k: nat)
    requires 0 < c && Served(s, c, k)
    ensures |s.releases| == k
  {
    forall i: nat | i < c
      ensures |s.recvs[i].done| == k && !Deciding(s.recvs[i])
    {
      assert RecvOk(s.hist, s.base, s.recvs[i]);
      OutsideCursor(s, i);
    }
    ReleasedUpTo(s, 0);
  }

  lemma ReadsSucceed(s: State, t: State)
    requires AllForAll(s) && SameFailures(s, t)
    ensures AllForAll(t)
  {
    forall i: nat, m: nat | i < |t.recvs| && m < |t.recvs[i].done|
      ensures t.recvs[i].done[m].Some?
    {
      assert Outcomes(s.recvs[i].done, t.recvs[i].done, true);
    }
  }

  lemma BaseStays(s: State, t: State)
    requires ReceiversTo(s, t)
    ensures t.base == s.base
  {
    var acts: seq<Action> :| OnlyReceivers(acts) && Runs(s, acts, t);
    RunsBase(s, acts, t);
  }

  lemma {:induction false} RunsBase(s: State, acts: seq<Action>, t: State)
    requires Runs(s, acts, t)
    ensures t.base == s.base
    decreases |acts|
  {
    if acts != [] {
      StepBase(s, acts[0]);
      RunsBase(Apply(s, acts[0]), acts[1..], t);
    }
  }

  lemma StepBase(s: State, a: Action)
    requires Enabled(s, a)
    ensures Apply(s, a).base == s.base
  {
  }

  /** One more message is pushed, and everybody drains it. */
  lemma OneRound(c: nat, s0: State, s: State, k: nat) returns (t: State)
    requires 0 < c < WORD && Reach(c, s0, s) && Served(s, c, k)
    ensures Reach(c, s0, t) && Served(t, c, k + 1)
  {
    ServedIsReleased(s, c, k);
    var u := PushOne(c, s0, s);
    t := CatchUp(u);
    ReachThenReceivers(c, s0, u, t);
    BaseStays(u, t);
    ReadsSucceed(u, t);
  }

  lemma {:induction false} Rounds(c: nat, k: nat, slots: seq<Descriptor>) returns (s: State)
    requires 0 < c < WORD && |slots| == SLOTS
    ensures Reach(c, Start(c, 0, slots), s) && Served(s, c, k)
  {
    var s0 := Start(c, 0, slots);
    if k == 0 {
      StartInv(c, 0, slots);
      s := s0;
      assert Runs(s, [], s) && AllCount([], c);
    } else {
      var r := Rounds(c, k - 1, slots);
      s := OneRound(c, s0, r, k - 1);
    }
  }

  // ----- receivers that take no part

  /** The same state with more receivers, which have not begun. */
  function Lift(s: State, n: nat): State
    requires |s.recvs| <= n
  {
    s.(recvs := s.recvs + seq(n - |s.recvs|, i => NewReceiver(s.base)))
  }

  lemma LiftStart(c: nat, n: nat, base: nat, slots: seq<Descriptor>)
    requires c <= n
    ensures Lift(Start(c, base, slots), n) == Start(n, base, slots)
  {
    assert Lift(Start(c, base, slots), n).recvs == Start(n, base, slots).recvs;
  }

  lemma LiftSet(s: State, n: nat, i: nat, rv: Receiver)
    requires i < |s.recvs| <= n
    ensures Lift(SetRecv(s, i, rv), n) == SetRecv(Lift(s, n), i, rv)
  {
    assert Lift(SetRecv(s, i, rv), n).recvs == SetRecv(Lift(s, n), i, rv).recvs;
  }

  /** A receiver's step sets that receiver, and does to the rest what depends on it alone. */
  lemma LiftRecv(s: State, n: nat, i: nat, ok: bool)
    requires |s.recvs| <= n && Enabled(s, Recv(i, ok))
    ensures Enabled(Lift(s, n), Recv(i, ok)) && |RecvApply(s, i, ok).recvs| == |s.recvs|
    ensures RecvApply(Lift(s, n), i, ok) == Lift(RecvApply(s, i, ok), n)
  {
    var l := Lift(s, n);
    assert l.recvs[i] == s.recvs[i];
    var rv := RecvApply(s, i, ok).recvs[i];
    LiftSet(s, n, i, rv);
    assert RecvApply(l, i, ok).recvs == l.recvs[i := rv];
    assert RecvApply(s, i, ok).recvs == s.recvs[i := rv];
  }

  lemma LiftStep(s: State, n: nat, a: Action)
    requires |s.recvs| <= n && Enabled(s, a)
    ensures Enabled(Lift(s, n), a) && |Apply(s, a).recvs| == |s.recvs|
    ensures Apply(Lift(s, n), a) == Lift(Apply(s, a), n)
  {
    match a
    case Recv(i, ok) => LiftRecv(s, n, i, ok);
    case Die(i) =>
      assert Lift(s, n).recvs[i] == s.recvs[i];
      LiftSet(s, n, i, DieApply(s, i).recvs[i]);
    case _ =>
  }

  lemma {:induction false} LiftRuns(s: State, n: nat, acts: seq<Action>, t: State)
    requires |s.recvs| <= n && Runs(s, acts, t)
    ensures |t.recvs| == |s.recvs| && Runs(Lift(s, n), acts, Lift(t, n))
    decreases |acts|
  {
    if acts != [] {
      LiftStep(s, n, acts[0]);
      LiftRuns(Apply(s, acts[0]), n, acts[1..], t);
    }
  }

  lemma LiftReach(c: nat, n: nat, slots: seq<Descriptor>, s: State)
    requires c <= n && Reach(c, Start(c, 0, slots), s)
    ensures |s.recvs| == c && Reach(c, Start(n, 0, slots), Lift(s, n))
  {
    var acts: seq<Action> :| AllCount(acts, c) && Runs(Start(c, 0, slots), acts, s);
    LiftRuns(Start(c, 0, slots), n, acts, s);
    LiftStart(c, n, 0, slots);
  }
}
