/** What drains do that are not kept apart.

Two calls of wait_for that have gone past a failed lock run their drains at the same time.  The
steps of a drain are the same as ever, and none of them asks for the mutex.
*/
module ProtocolUnlocked {
  import opened Words
  import opened Protocol
  import opened ProtocolInv
  import opened ProtocolSteps
  import opened ProtocolTheorems
  import opened ProtocolProgress
  import R = ProtocolRounds

  /** The state with the receivers at the start of their drains, and nobody owning the mutex. */
  function Entered(s: State): State {
    s.(recvs := seq(|s.recvs|, i requires 0 <= i < |s.recvs| => s.recvs[i].(pc := AtEmpty)), mutex := None)
  }

  lemma Then(s0: State, s: State, i: nat, ok: bool) returns (t: State)
    requires ReceiversTo(s0, s) && Enabled(s, Recv(i, ok))
    ensures ReceiversTo(s0, t) && t == RecvApply(s, i, ok)
  {
    t := RecvApply(s, i, ok);
    OneStep(s, i, ok);
    Chain(s0, s, t);
  }

  /** One message, with this count, is in the ring, which two receivers drain. */
  ghost predicate OneMessage(s: State, msg: Message, count: nat, a: Receiver, b: Receiver) {
    && s.hist == [msg] && s.w == 1 && s.r == 0 && |s.slots| == SLOTS && s.slots[0] == msg.desc
    && msg.desc in s.pool && s.pool[msg.desc] == Payload(count, msg.data)
    && s.recvs == [a, b] && s.releases == []
  }

  function AtStart(): Receiver {
    Receiver(AtEmpty, 0, [], [], Alive)
  }

  function Copying(): Receiver {
    Receiver(AtCopy(0), 1, [], [], Alive)
  }

  function AboutToLoad(msg: Message): Receiver {
    Receiver(AtLoad(msg.desc), 1, [msg.desc], [Some(msg.data)], Alive)
  }

  lemma ToCopy(s0: State, s: State, i: nat, msg: Message, count: nat, a: Receiver, b: Receiver) returns (t: State)
    requires ReceiversTo(s0, s) && i < 2 && OneMessage(s, msg, count, a, b) && s.recvs[i] == AtStart()
    ensures ReceiversTo(s0, t) && t == s.(recvs := s.recvs[i := Copying()])
  {
    t := Then(s0, s, i, true);
    t := Then(s0, t, i, true);
    t := Then(s0, t, i, true);
    assert t.recvs == s.recvs[i := Copying()];
  }

  function AboutToDecrement(msg: Message): Receiver {
    Receiver(AtDecrement(msg.desc, msg.data), 1, [msg.desc], [], Alive)
  }

  lemma ToDecrement(s0: State, s: State, i: nat, msg: Message, count: nat, a: Receiver, b: Receiver)
    returns (t: State)
    requires ReceiversTo(s0, s) && i < 2 && OneMessage(s, msg, count, a, b) && s.recvs[i] == Copying()
    ensures ReceiversTo(s0, t) && t == s.(recvs := s.recvs[i := AboutToDecrement(msg)])
  {
    t := Then(s0, s, i, true);
    assert t.recvs[i].taken == [msg.desc];
    t := Then(s0, t, i, true);
    assert t.recvs == s.recvs[i := AboutToDecrement(msg)];
  }

  lemma ToLoad(s0: State, s: State, i: nat, msg: Message, count: nat, a: Receiver, b: Receiver) returns (t: State)
    requires ReceiversTo(s0, s) && i < 2 && 0 < count < WORD && OneMessage(s, msg, count, a, b)
    requires s.recvs[i] == AboutToDecrement(msg)
    ensures ReceiversTo(s0, t) && t.recvs == s.recvs[i := AboutToLoad(msg)]
    ensures OneMessage(t, msg, count - 1, t.recvs[0], t.recvs[1])
  {
    t := Then(s0, s, i, true);
    SmallWrap(count - 1);
    assert t.recvs[i].done == [Some(msg.data)];
    assert t.recvs == s.recvs[i := AboutToLoad(msg)];
  }

  lemma Drain(s0: State, s: State, i: nat, msg: Message, count: nat) returns (t: State)
    requires ReceiversTo(s0, s) && i < 2 && 0 < count < WORD && |s.recvs| == 2
    requires OneMessage(s, msg, count, s.recvs[0], s.recvs[1]) && s.recvs[i] == AtStart()
    ensures ReceiversTo(s0, t) && t.recvs == s.recvs[i := AboutToLoad(msg)]
    ensures OneMessage(t, msg, count - 1, t.recvs[0], t.recvs[1])
  {
    t := ToCopy(s0, s, i, msg, count, s.recvs[0], s.recvs[1]);
    t := ToDecrement(s0, t, i, msg, count, t.recvs[0], t.recvs[1]);
    t := ToLoad(s0, t, i, msg, count, t.recvs[0], t.recvs[1]);
    assert t.recvs == s.recvs[i := AboutToLoad(msg)];
  }

  lemma BothLoad(s0: State, s: State, msg: Message) returns (t: State)
    requires ReceiversTo(s0, s) && OneMessage(s, msg, 0, AboutToLoad(msg), AboutToLoad(msg))
    ensures ReceiversTo(s0, t) && t.releases == [] && t.hist == s.hist && |t.recvs| == 2
    ensures forall i :: 0 <= i < 2 ==> t.recvs[i] == AboutToLoad(msg).(pc := AtRelease(msg.desc))
  {
    t := Then(s0, s, 0, true);
    t := Then(s0, t, 1, true);
  }

  /** Both have counted the message down before either loads its count, and both find zero. */
  lemma BothRelease(s0: State, s: State, msg: Message) returns (t: State)
    requires ReceiversTo(s0, s) && OneMessage(s, msg, 0, AboutToLoad(msg), AboutToLoad(msg))
    ensures ReceiversTo(s0, t) && t.releases == [0, 0] && t.hist == s.hist
  {
    t := BothLoad(s0, s, msg);
    t := Then(s0, t, 0, true);
    t := Then(s0, t, 1, true);
  }

  lemma TwoInside(s: State) returns (msg: Message)
    requires Inv(s) && |s.recvs| == 2 && |s.hist| == 1 && s.releases == [] && s.base == 0 && s.hist[0].cnt == 2
    requires forall i :: 0 <= i < 2 ==> s.recvs[i] == NewReceiver(0)
    ensures OneMessage(Entered(s), msg, 2, AtStart(), AtStart())
  {
    msg := s.hist[0];
    assert PayloadOk(s, 0);
    forall i: nat | i < 2
      ensures !Read(s, i, 0)
    {
      assert s.recvs[i].done == [];
    }
    assert Readers(s, 0) == {};
    assert Entered(s).recvs == [AtStart(), AtStart()];
    assert s.slots[Low8(s.base + 0)] == msg.desc;
  }

  /** One message has been pushed for two receivers that have not begun. */
  lemma PushedForTwo() returns (s: State)
    ensures Reachable(2, s) && Inv(s) && |s.recvs| == 2 && |s.hist| == 1 && s.releases == [] && s.base == 0
    ensures s.hist[0].cnt == 2 && forall i :: 0 <= i < 2 ==> s.recvs[i] == NewReceiver(0)
  {
    var slots := seq(SLOTS, i => Descriptor(0, 0, 16));
    var s0 := Start(2, 0, slots);
    StartInv(2, 0, slots);
    assert Runs(s0, [], s0) && R.AllCount([], 2);
    s := R.PushOne(2, s0, s0);
    R.ReachIsReachable(2, 0, slots, s);
  }

  /** From a reachable state, two drains that are not kept apart give the slot of one message
      back twice, so that the read counter overtakes the write counter. */
  lemma UnlockedReleaseTwice() returns (s: State, t: State)
    ensures Reachable(2, s) && ReceiversTo(Entered(s), t)
    ensures t.releases == [0, 0] && |t.hist| == 1
  {
    s := PushedForTwo();
    var msg := TwoInside(s);
    var e := Entered(s);
    Stay(e);
    t := Drain(e, e, 0, msg, 2);
    t := Drain(e, t, 1, msg, 1);
    t := BothRelease(e, t, msg);
  }
}
