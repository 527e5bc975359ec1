/** The invariant of the ring and its preservation by every atomic step. */
module ProtocolInv {
  import opened Words
  import opened Sets
  import opened Protocol

  /** Receiver i has decremented the count of message m. */
  ghost predicate Read(s: State, i: nat, m: nat) {
    i < |s.recvs| && m < |s.recvs[i].done| && s.recvs[i].done[m].Some?
  }

  ghost function Readers(s: State, m: nat): set<nat> {
    set i: nat | i < |s.recvs| && Read(s, i, m)
  }

  ghost predicate ReadByAll(s: State, m: nat) {
    forall i: nat :: i < |s.recvs| ==> Read(s, i, m)
  }

  predicate AtDecision(pc: ReceiverPc) {
    pc.AtLoad? || pc.AtRelease?
  }

  /** Between a decrement and the end of the release decision, or dead there with the release
      left undone. */
  predicate Deciding(rv: Receiver) {
    if rv.life.Dead? then rv.life.orphan else AtDecision(rv.pc)
  }

  ghost predicate Orphaned(s: State, m: nat) {
    exists i: nat :: i < |s.recvs| && s.recvs[i].life == Dead(true) && |s.recvs[i].done| == m + 1
  }

  ghost predicate Pending(s: State, m: nat) {
    exists i: nat :: i < |s.recvs| && Deciding(s.recvs[i]) && |s.recvs[i].done| == m + 1
  }

  /** How many messages a receiver's cursor has passed, unwrapped. */
  function Cursor(rv: Receiver): nat {
    |rv.taken| + if rv.pc.AtCopy? then 1 else 0
  }

  ghost predicate Distinct(xs: seq<int>) {
    forall j, k :: 0 <= j < k < |xs| ==> xs[j] != xs[k]
  }

  ghost predicate Bounds(s: State) {
    && s.w == Wrap32(s.base + |s.hist|)
    && s.r == Wrap32(s.base + |s.releases|)
    && |s.slots| == SLOTS
    && |s.recvs| < WORD
    && |s.releases| <= |s.hist| <= |s.releases| + CAPACITY
  }

  ghost predicate MutexOk(s: State) {
    && (s.mutex.Some? ==> s.mutex.value < |s.recvs|)
    && forall i: nat :: i < |s.recvs| ==> (Holding(s.recvs[i]) <==> s.mutex == Some(i))
  }

  ghost predicate PcOk(hist: seq<Message>, base: nat, rv: Receiver) {
    var t := |rv.taken|;
    match rv.pc
    case AtPop => t < |hist|
    case AtBump => t < |hist|
    case AtCopy(idx) => t < |hist| && idx == Low8(base + t)
    case AtRead(d) => 0 < t && d == rv.taken[t - 1]
    case AtDecrement(d, seen) => 0 < t <= |hist| && d == rv.taken[t - 1] && seen == hist[t - 1].data
    case AtLoad(d) => 0 < t == |rv.done| && d == rv.taken[t - 1] && rv.done[t - 1].Some?
    case AtRelease(d) => 0 < t == |rv.done| && d == rv.taken[t - 1] && rv.done[t - 1].Some?
    case _ => true
  }

  /** What a receiver holds agrees with the history. */
  ghost predicate RecvOk(hist: seq<Message>, base: nat, rv: Receiver) {
    && rv.cursor == Wrap32(base + Cursor(rv))
    && |rv.taken| <= |hist|
    && (forall m :: 0 <= m < |rv.taken| ==> rv.taken[m] == hist[m].desc)
    && |rv.done| == |rv.taken| - (if rv.pc.AtRead? || rv.pc.AtDecrement? then 1 else 0)
    && (forall m :: 0 <= m < |rv.done| && rv.done[m].Some? ==> rv.done[m].value == hist[m].data)
    && PcOk(hist, base, rv)
  }

  ghost predicate RecvsOk(s: State) {
    forall i: nat :: i < |s.recvs| ==> RecvOk(s.hist, s.base, s.recvs[i])
  }

  /** A pushed message's payload: its bytes are as written, and its count is what it
      started from less one for each receiver that has read it. */
  ghost predicate PayloadOk(s: State, m: nat)
    requires m < |s.hist|
  {
    var msg := s.hist[m];
    && msg.desc in s.pool
    && s.pool[msg.desc] == Payload(Wrap32(msg.cnt - |Readers(s, m)|), msg.data)
  }

  ghost predicate PayloadsOk(s: State) {
    && (forall m: nat :: m < |s.hist| ==> PayloadOk(s, m))
    && (forall m: nat :: m < |s.hist| ==> s.hist[m].cnt < WORD && Fits(s.hist[m].cnt, |s.recvs|))
    && (forall m: nat, n: nat :: m < n < |s.hist| ==> s.hist[m].desc != s.hist[n].desc)
  }

  /** The slots hold the last 255 messages. */
  ghost predicate SlotsOk(s: State) {
    |s.slots| == SLOTS &&
    forall m: nat :: m < |s.hist| <= m + CAPACITY ==> s.slots[Low8(s.base + m)] == s.hist[m].desc
  }

  ghost predicate UnpushedOk(s: State, msg: Message) {
    && msg.desc in s.pool
    && s.pool[msg.desc] == Payload(msg.cnt, msg.data)
    && msg.cnt < WORD && Fits(msg.cnt, |s.recvs|)
    && (forall m: nat :: m < |s.hist| ==> s.hist[m].desc != msg.desc)
  }

  ghost predicate SenderOk(s: State) {
    && (!s.sender.Idle? ==> UnpushedOk(s, s.sender.msg))
    && (s.sender.LoadedW? || s.sender.Passed? ==> s.sender.slot == Low8(s.base + |s.hist|))
    && (s.sender.Passed? || s.sender.Stored? ==> |s.hist| < |s.releases| + CAPACITY)
    && (s.sender.Stored? ==> |s.slots| == SLOTS && s.slots[Low8(s.base + |s.hist|)] == s.sender.msg.desc)
  }

  /** Message m has had its slot given back exactly when its count was the number of
      receivers, all of them have read it, and none is still deciding. */
  ghost predicate Due(s: State, m: nat) {
    m < |s.hist| && 0 < s.hist[m].cnt == |s.recvs| && ReadByAll(s, m)
  }

  /** Who is about to release a message, or died before it could, does so rightly; and nobody
      alive decides about what a dead one left. */
  ghost predicate DeciderOk(s: State, i: nat)
    requires i < |s.recvs|
  {
    && (s.recvs[i].pc.AtRelease? || s.recvs[i].life == Dead(true) ==>
          |s.recvs[i].done| > 0 && Due(s, |s.recvs[i].done| - 1))
    && (s.recvs[i].life.Alive? && AtDecision(s.recvs[i].pc) ==>
          |s.recvs[i].done| == 0 || !Orphaned(s, |s.recvs[i].done| - 1))
  }

  ghost predicate ReleasesOk(s: State) {
    && Distinct(s.releases)
    && (forall m :: m in s.releases ==> 0 <= m)
    && (forall m: nat :: m in s.releases <==> Due(s, m) && !Pending(s, m))
    && (forall i: nat :: i < |s.recvs| ==> DeciderOk(s, i))
  }

  ghost predicate Inv(s: State) {
    && Bounds(s)
    && MutexOk(s)
    && RecvsOk(s)
    && PayloadsOk(s)
    && SlotsOk(s)
    && SenderOk(s)
    && ReleasesOk(s)
  }

  // ----- counting

  lemma {:induction false} DistinctBelow(xs: seq<int>, n: nat)
    requires Distinct(xs)
    requires forall x :: x in xs ==> 0 <= x < n
    ensures |xs| <= n
    ensures |xs| == n <==> forall x :: 0 <= x < n ==> x in xs
  {
    DistinctCount(xs);
    var a := set x | x in xs;
    SizeBelow(a, n);
    assert forall x :: x in a <==> x in xs;
  }

  lemma {:induction false} DistinctCount(xs: seq<int>)
    requires Distinct(xs)
    ensures |set x | x in xs| == |xs|
  {
    if xs == [] {
      assert (set x | x in xs) == {};
    } else {
      var k := |xs| - 1;
      DistinctCount(xs[..k]);
      assert (set x | x in xs) == (set x | x in xs[..k]) + {xs[k]};
    }
  }

  /** Every released message was read by all, so no cursor is behind the releases. */
  lemma ReleasedBelow(s: State, i: nat)
    requires ReleasesOk(s) && i < |s.recvs|
    ensures |s.releases| <= |s.recvs[i].done|
  {
    forall m | m in s.releases
      ensures 0 <= m < |s.recvs[i].done|
    {
      assert Due(s, m) && Read(s, i, m);
    }
    DistinctBelow(s.releases, |s.recvs[i].done|);
  }
}
