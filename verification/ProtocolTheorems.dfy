/** What the ring promises in every run. */
module ProtocolTheorems {
  import opened Words
  import opened Sets
  import opened Protocol
  import opened ProtocolInv
  import opened ProtocolSteps

  /** s can be reached with n receivers attached to an empty ring, from any value of the
      counters and any contents of the slots, when every count that is written fits. */
  ghost predicate Reachable(n: nat, s: State) {
    exists base: nat, slots: seq<Descriptor>, acts: seq<Action> ::
      |slots| == SLOTS && AllFit(acts, n) && Runs(Start(n, base, slots), acts, s)
  }

  lemma ReachableInv(n: nat, s: State)
    requires n < WORD && Reachable(n, s)
    ensures Inv(s) && |s.recvs| == n
  {
    var base: nat, slots: seq<Descriptor>, acts: seq<Action> :|
      |slots| == SLOTS && AllFit(acts, n) && Runs(Start(n, base, slots), acts, s);
    StartInv(n, base, slots);
    RunKeepsInv(Start(n, base, slots), acts, s);
  }

  // ----- delivery

  /** Each receiver copies out exactly the descriptors pushed, in order, none lost and
      none repeated, and each read that succeeds shows the bytes that were sent. */
  lemma DeliversHistory(n: nat, s: State, i: nat)
    requires n < WORD && Reachable(n, s) && i < n
    ensures i < |s.recvs|
    ensures var rv := s.recvs[i];
      && |rv.done| <= |rv.taken| <= |s.hist|
      && (forall m :: 0 <= m < |rv.taken| ==> rv.taken[m] == s.hist[m].desc)
      && (forall m :: 0 <= m < |rv.done| ==> rv.done[m] == None || rv.done[m] == Some(s.hist[m].data))
  {
    ReachableInv(n, s);
    assert RecvOk(s.hist, s.base, s.recvs[i]);
  }

  lemma CursorBounds(s: State, i: nat)
    requires Bounds(s) && ReleasesOk(s) && RecvsOk(s) && i < |s.recvs|
    ensures |s.releases| <= Cursor(s.recvs[i]) <= |s.hist| <= |s.releases| + CAPACITY
    ensures s.recvs[i].cursor == Wrap32(s.base + Cursor(s.recvs[i]))
  {
    assert RecvOk(s.hist, s.base, s.recvs[i]);
    ReleasedBelow(s, i);
  }

  /** In unwrapped counters: no cursor is behind the read counter or ahead of the write
      counter, and the two are never more than 255 apart. */
  lemma CountersBracketCursors(n: nat, s: State, i: nat)
    requires n < WORD && Reachable(n, s) && i < n
    ensures i < |s.recvs|
    ensures |s.releases| <= Cursor(s.recvs[i]) <= |s.hist| <= |s.releases| + CAPACITY
    ensures s.r == Wrap32(s.base + |s.releases|) && s.w == Wrap32(s.base + |s.hist|)
    ensures s.recvs[i].cursor == Wrap32(s.base + Cursor(s.recvs[i]))
  {
    ReachableInv(n, s);
    CursorBounds(s, i);
  }

  /** The sender never stores into a slot while a receiver is copying it out. */
  lemma NoSlotRace(n: nat, s: State, i: nat)
    requires n < WORD && Reachable(n, s) && i < n
    ensures i < |s.recvs|
    ensures s.sender.Passed? && s.recvs[i].pc.AtCopy? ==> s.sender.slot != s.recvs[i].pc.idx
  {
    ReachableInv(n, s);
    assert RecvOk(s.hist, s.base, s.recvs[i]);
    ReleasedBelow(s, i);
    if s.sender.Passed? && s.recvs[i].pc.AtCopy? {
      SameSlot(s.base, |s.recvs[i].taken|, |s.hist|);
    }
  }

  /** At most one receiver is inside its drain. */
  lemma DrainsExclude(n: nat, s: State, i: nat, j: nat)
    requires n < WORD && Reachable(n, s) && i < n && j < n
    ensures |s.recvs| == n
    ensures Holding(s.recvs[i]) && Holding(s.recvs[j]) ==> i == j
  {
    ReachableInv(n, s);
  }

  lemma EmptyTests(s: State, i: nat)
    requires i < |s.recvs| && s.w == Wrap32(s.base + |s.hist|)
    requires s.recvs[i].cursor == Wrap32(s.base + Cursor(s.recvs[i]))
    requires Cursor(s.recvs[i]) <= |s.hist| <= Cursor(s.recvs[i]) + CAPACITY
    ensures s.recvs[i].cursor == s.w <==> Cursor(s.recvs[i]) == |s.hist|
    ensures EmptyTest8(s.recvs[i].cursor, s.w) <==> Cursor(s.recvs[i]) == |s.hist|
  {
    EmptyTestMeans(s.base, Cursor(s.recvs[i]), |s.hist|);
  }

  /** The drain's loop test says exactly whether the cursor has caught up, and the test
      that pop repeats right after it never fails. */
  lemma DrainTests(n: nat, s: State, i: nat)
    requires n < WORD && Reachable(n, s) && i < n
    ensures |s.recvs| == n
    ensures s.recvs[i].pc.AtEmpty? ==>
            (RecvApply(s, i, true).recvs[i].pc.Leaving? <==> Cursor(s.recvs[i]) == |s.hist|)
    ensures s.recvs[i].pc.AtPop? ==> RecvApply(s, i, true).recvs[i].pc.AtBump?
  {
    CountersBracketCursors(n, s, i);
    EmptyTests(s, i);
    assert |s.recvs| == n && (s.recvs[i].pc.AtPop? ==> Cursor(s.recvs[i]) < |s.hist|) by {
      ReachableInv(n, s);
      assert RecvOk(s.hist, s.base, s.recvs[i]);
    }
  }

  lemma HolderEnabled(s: State, i: nat, ok: bool)
    requires Inv(s) && i < |s.recvs|
    ensures Enabled(s, Recv(i, ok)) <==> Holding(s.recvs[i]) || (s.recvs[i].life.Alive? && s.mutex.None?)
  {
    var rv := s.recvs[i];
    assert RecvOk(s.hist, s.base, rv);
    if rv.pc.AtRead? || rv.pc.AtDecrement? || rv.pc.AtLoad? {
      assert PayloadOk(s, |rv.taken| - 1);
    }
  }

  /** Whatever a receiver is about to touch exists: no guard of a step is ever what stops a
      receiver that is alive, except a mutex that another receiver holds. */
  lemma OnlyTheMutexBlocks(n: nat, s: State, i: nat, ok: bool)
    requires n < WORD && Reachable(n, s) && i < n
    ensures |s.recvs| == n
    ensures Enabled(s, Recv(i, ok)) <==> Holding(s.recvs[i]) || (s.recvs[i].life.Alive? && s.mutex.None?)
  {
    ReachableInv(n, s);
    HolderEnabled(s, i, ok);
  }

  // ----- release

  /** A message gives its slot back at most once, and it has done so exactly when its
      count was the number of receivers, all have read it and none is still deciding, or has
      died before it could give the slot back. */
  lemma ReleasedAtMostOnce(n: nat, s: State, m: nat)
    requires n < WORD && Reachable(n, s)
    ensures multiset(s.releases)[m] == if Due(s, m) && !Pending(s, m) then 1 else 0
  {
    ReachableInv(n, s);
    DistinctMultiplicity(s.releases, m);
  }

  lemma {:induction false} DistinctMultiplicity(xs: seq<int>, x: int)
    requires Distinct(xs)
    ensures multiset(xs)[x] == if x in xs then 1 else 0
  {
    if xs != [] {
      var k := |xs| - 1;
      assert xs == xs[..k] + [xs[k]];
      DistinctMultiplicity(xs[..k], x);
    }
  }

  /** A payload whose count is zero, so that the sender may forget it, was either read by
      all receivers or was sent to none. */
  lemma ZeroCountMeansRead(n: nat, s: State, m: nat)
    requires n < WORD && Reachable(n, s) && m < |s.hist|
    ensures s.hist[m].desc in s.pool
    ensures s.pool[s.hist[m].desc].count == 0 <==>
            Due(s, m) || (s.hist[m].cnt == 0 && Readers(s, m) == {})
    ensures s.hist[m].cnt == n ==> s.pool[s.hist[m].desc].count == n - |Readers(s, m)|
  {
    ReachableInv(n, s);
    CountZero(s, m);
    ReadersAtMost(s, m);
  }

  lemma ReadersAtMost(s: State, m: nat)
    requires |s.recvs| < WORD
    ensures Wrap32(|s.recvs| - |Readers(s, m)|) == |s.recvs| - |Readers(s, m)|
  {
    SizeBelow(Readers(s, m), |s.recvs|);
  }

  // ----- when every message is for every receiver and no read has failed

  ghost predicate AllForAll(s: State) {
    && (forall m: nat :: m < |s.hist| ==> s.hist[m].cnt == |s.recvs|)
    && (forall i: nat, m: nat :: i < |s.recvs| && m < |s.recvs[i].done| ==> s.recvs[i].done[m].Some?)
  }

  /** Messages are completed in order. */
  lemma CompletedPrefix(n: nat, s: State, m: nat, k: nat)
    requires n < WORD && Reachable(n, s) && AllForAll(s) && k <= m && Due(s, m)
    ensures Due(s, k)
  {
    ReachableInv(n, s);
    forall i: nat | i < |s.recvs|
      ensures Read(s, i, k)
    {
      assert Read(s, i, m);
    }
  }

  ghost predicate NobodyDeciding(s: State) {
    forall i: nat :: i < |s.recvs| ==> !Deciding(s.recvs[i])
  }

  /** While nobody is deciding, everything that all have finished with has been released. */
  lemma ReleasedUpTo(s: State, least: nat)
    requires Inv(s) && AllForAll(s) && NobodyDeciding(s) && least < |s.recvs|
    requires forall i: nat :: i < |s.recvs| ==> |s.recvs[least].done| <= |s.recvs[i].done|
    ensures |s.releases| == |s.recvs[least].done|
  {
    var c := |s.recvs[least].done|;
    assert RecvOk(s.hist, s.base, s.recvs[least]);
    forall m: nat
      ensures m in s.releases <==> m < c
    {
      assert Read(s, least, m) <==> m < c;
      assert m < c ==> ReadByAll(s, m);
      assert !Pending(s, m);
    }
    DistinctBelow(s.releases, c);
  }

  lemma OutsideCursor(s: State, i: nat)
    requires RecvsOk(s) && MutexOk(s) && s.mutex.None? && i < |s.recvs| && s.recvs[i].life.Alive?
    ensures Cursor(s.recvs[i]) == |s.recvs[i].done| && !Deciding(s.recvs[i])
  {
    assert RecvOk(s.hist, s.base, s.recvs[i]);
    assert !Holding(s.recvs[i]);
  }

  lemma LeastDone(s: State) returns (least: nat)
    requires |s.recvs| > 0
    ensures least < |s.recvs|
    ensures forall i: nat :: i < |s.recvs| ==> |s.recvs[least].done| <= |s.recvs[i].done|
  {
    least := 0;
    for k := 1 to |s.recvs|
      invariant least < k
      invariant forall i: nat :: i < k ==> |s.recvs[least].done| <= |s.recvs[i].done|
    {
      if |s.recvs[k].done| < |s.recvs[least].done| {
        least := k;
      }
    }
  }

  /** Even in the middle of drains, as long as nobody is between a decrement and the decision
      after it, the read counter is the least number of messages that a receiver has finished. */
  lemma ReadCounterIsLeastDone(n: nat, s: State)
    requires 0 < n < WORD && Reachable(n, s) && AllForAll(s) && NobodyDeciding(s)
    ensures |s.recvs| == n
    ensures forall i: nat :: i < n ==> |s.releases| <= |s.recvs[i].done|
    ensures exists i: nat :: i < n && |s.releases| == |s.recvs[i].done|
  {
    ReachableInv(n, s);
    var least := LeastDone(s);
    ReleasedUpTo(s, least);
  }

  /** When all are alive and no receiver is inside its drain, the read counter is the smallest
      cursor. */
  lemma ReadCounterIsLeastCursor(n: nat, s: State)
    requires 0 < n < WORD && Reachable(n, s) && AllForAll(s) && s.mutex.None?
    requires forall i: nat :: i < |s.recvs| ==> s.recvs[i].life.Alive?
    ensures |s.recvs| == n
    ensures forall i: nat :: i < n ==> |s.releases| <= Cursor(s.recvs[i])
    ensures exists i: nat :: i < n && |s.releases| == Cursor(s.recvs[i])
  {
    assert |s.recvs| == n && forall i: nat :: i < n ==>
             Cursor(s.recvs[i]) == |s.recvs[i].done| && !Deciding(s.recvs[i]) by {
      ReachableInv(n, s);
      forall i: nat | i < n
        ensures Cursor(s.recvs[i]) == |s.recvs[i].done| && !Deciding(s.recvs[i])
      {
        OutsideCursor(s, i);
      }
    }
    ReadCounterIsLeastDone(n, s);
  }

  // ----- where the slots are

  /** Every receiver has finished with message m, by reading it or by failing to. */
  ghost predicate Finished(s: State, m: nat) {
    forall i: nat :: i < |s.recvs| ==> m < |s.recvs[i].done|
  }

  ghost function Unfinished(s: State): set<nat> {
    set m: nat | m < |s.hist| && !Finished(s, m)
  }

  /** Finished by all, yet never to be released: the count was not the number of
      receivers, or some read failed. */
  ghost predicate IsLost(s: State, m: nat) {
    && m < |s.hist| && Finished(s, m)
    && (!(0 < s.hist[m].cnt == |s.recvs|)
        || exists i: nat :: i < |s.recvs| && m < |s.recvs[i].done| && s.recvs[i].done[m].None?)
  }

  ghost function Lost(s: State): set<nat> {
    set m: nat | m < |s.hist| && IsLost(s, m)
  }

  ghost function BeingReleased(s: State): set<nat> {
    set m: nat | m < |s.hist| && Due(s, m) && Pending(s, m) && !Orphaned(s, m)
  }

  /** Due, but the receiver that was to release it has died. */
  ghost function Orphans(s: State): set<nat> {
    set m: nat | m < |s.hist| && Due(s, m) && Orphaned(s, m)
  }

  lemma LostIffNotDue(s: State, m: nat)
    requires m < |s.hist| && Finished(s, m)
    ensures IsLost(s, m) <==> !Due(s, m)
  {
    if !IsLost(s, m) {
      forall i: nat | i < |s.recvs|
        ensures Read(s, i, m)
      {
        assert m < |s.recvs[i].done|;
      }
    } else if 0 < s.hist[m].cnt == |s.recvs| {
      var i: nat :| i < |s.recvs| && m < |s.recvs[i].done| && s.recvs[i].done[m].None?;
      assert !Read(s, i, m);
    }
  }

  lemma DueIsFinished(s: State, m: nat)
    requires Due(s, m)
    ensures Finished(s, m)
  {
    forall i: nat | i < |s.recvs|
      ensures m < |s.recvs[i].done|
    {
      assert Read(s, i, m);
    }
  }

  lemma OrphanPending(s: State, m: nat)
    requires Orphaned(s, m)
    ensures Pending(s, m)
  {
    var i: nat :| i < |s.recvs| && s.recvs[i].life == Dead(true) && |s.recvs[i].done| == m + 1;
    assert Deciding(s.recvs[i]);
  }

  /** Every outstanding slot belongs to a message that somebody has yet to finish, that
      is lost, whose release is under way, or that a dead receiver left unreleased; and to
      one of these only. */
  lemma SlotsConserved(n: nat, s: State)
    requires n < WORD && Reachable(n, s)
    ensures |s.hist| - |s.releases| == |Unfinished(s)| + |Lost(s)| + |BeingReleased(s)| + |Orphans(s)|
  {
    ReachableInv(n, s);
    SlotsAccounted(s);
  }

  /** The messages whose slots have not been given back. */
  ghost function Outstanding(s: State): set<nat> {
    set m: nat | m < |s.hist| && !(Due(s, m) && !Pending(s, m))
  }

  lemma OutstandingCount(s: State)
    requires ReleasesOk(s)
    ensures |Outstanding(s)| == |s.hist| - |s.releases|
  {
    var gone := set m: nat | m < |s.hist| && Due(s, m) && !Pending(s, m);
    SizeBelow(Outstanding(s) + gone, |s.hist|);
    SameSize(s, gone);
    assert |Outstanding(s) + gone| == |Outstanding(s)| + |gone|;
  }

  /** m is in the whole if it is in some part, and then only in one. */
  ghost predicate PartOf(m: nat, all: set<nat>, a: set<nat>, b: set<nat>, c: set<nat>, d: set<nat>) {
    && (m in all <==> m in a || m in b || m in c || m in d)
    && (m in a ==> m !in b && m !in c && m !in d)
    && (m in b ==> m !in c && m !in d)
    && (m in c ==> m !in d)
  }

  ghost predicate InOnePart(s: State, m: nat) {
    PartOf(m, Outstanding(s), Unfinished(s), Lost(s), BeingReleased(s), Orphans(s))
  }

  lemma IsInOnePart(s: State, m: nat)
    ensures InOnePart(s, m)
  {
    if |s.hist| <= m {
    } else if Finished(s, m) {
      LostIffNotDue(s, m);
    } else if Due(s, m) {
      DueIsFinished(s, m);
    }
    if Orphaned(s, m) {
      OrphanPending(s, m);
    }
  }

  lemma SlotsAccounted(s: State)
    requires ReleasesOk(s)
    ensures |s.hist| - |s.releases| == |Unfinished(s)| + |Lost(s)| + |BeingReleased(s)| + |Orphans(s)|
  {
    forall m: nat
      ensures PartOf(m, Outstanding(s), Unfinished(s), Lost(s), BeingReleased(s), Orphans(s))
    {
      IsInOnePart(s, m);
    }
    OutstandingCount(s);
    FourParts(Outstanding(s), Unfinished(s), Lost(s), BeingReleased(s), Orphans(s));
  }

  lemma FourParts(all: set<nat>, a: set<nat>, b: set<nat>, c: set<nat>, d: set<nat>)
    requires forall m: nat :: PartOf(m, all, a, b, c, d)
    ensures |all| == |a| + |b| + |c| + |d|
  {
    forall m: nat
      ensures m in all <==> m in a + b + c + d
      ensures !(m in a && m in b + c + d) && !(m in b && m in c + d) && !(m in c && m in d)
    {
      assert PartOf(m, all, a, b, c, d);
    }
    assert all == a + (b + (c + d));
  }

  lemma SameSize(s: State, gone: set<nat>)
    requires ReleasesOk(s)
    requires gone == set m: nat | m < |s.hist| && Due(s, m) && !Pending(s, m)
    ensures |gone| == |s.releases|
  {
    DistinctCount(s.releases);
    var a := set x | x in s.releases;
    forall x: int
      ensures x in a <==> 0 <= x && x in gone
    {
    }
    SubsetSize(gone, a);
    SubsetSize(a, gone);
  }

  /** A push is refused exactly when 255 slots are outstanding when it loads r_. */
  lemma RefusedIffFull(n: nat, s: State)
    requires n < WORD && Reachable(n, s) && s.sender.LoadedW?
    ensures Apply(s, SendLoadR).sender.Idle? <==>
            |Unfinished(s)| + |Lost(s)| + |BeingReleased(s)| + |Orphans(s)| == CAPACITY
  {
    assert |s.hist| - |s.releases| == CAPACITY <==> Apply(s, SendLoadR).sender.Idle? by {
      ReachableInv(n, s);
      RefusedWhenFull(s);
    }
    SlotsConserved(n, s);
  }

  /** The sender deals with one message at a time, whatever happens meanwhile: once it is stored
      it is pushed, or refused when 255 slots are outstanding, before the next is stored. */
  lemma OneAtATime(n: nat, s: State, a: Action)
    requires n < WORD && Reachable(n, s) && Enabled(s, a) && !a.Recv? && !a.Die?
    ensures var t := Apply(s, a);
      if a.SendWrite? then s.sender.Idle? && t.sender == Written(a.msg) && t.hist == s.hist
      else
        && !s.sender.Idle?
        && if !t.sender.Idle? then t.sender.msg == s.sender.msg && t.hist == s.hist
           else t.hist == s.hist + (if |s.hist| - |s.releases| == CAPACITY then [] else [s.sender.msg])
  {
    ReachableInv(n, s);
    if s.sender.LoadedW? {
      RefusedWhenFull(s);
    }
  }

  /** The state after an uninterrupted push: the descriptor in its slot, the message in
      the history, the counter one further, and nothing else different. */
  function Pushed(s: State): State
    requires s.sender.Written? && |s.slots| == SLOTS
  {
    s.(hist := s.hist + [s.sender.msg], w := Wrap32(s.w + 1), sender := Idle,
       slots := s.slots[Low8(s.w) := s.sender.msg.desc])
  }

  /** The steps of one push: it stops after the full test if that refuses it. */
  function PushActions(refused: bool): seq<Action> {
    [SendLoadW, SendLoadR] + if refused then [] else [SendStore, SendCommit]
  }

  lemma FullTestTells(s: State)
    requires Bounds(s)
    ensures FullTest(s.w, s.r) <==> |s.hist| - |s.releases| == CAPACITY
  {
    FullTestMeans(s.base, |s.releases|, |s.hist|);
  }

  /** A push that runs without interruption, from the stored payload on, is refused and
      leaves nothing in the ring exactly when 255 slots are outstanding. */
  lemma PushAlone(n: nat, s: State)
    requires n < WORD && Reachable(n, s) && s.sender.Written?
    ensures |s.slots| == SLOTS
    ensures var refused := |s.hist| - |s.releases| == CAPACITY;
      Runs(s, PushActions(refused), if refused then s.(sender := Idle) else Pushed(s))
  {
    ReachableInv(n, s);
    FullTestTells(s);
    PushSteps(s);
  }

  lemma PushSteps(s: State)
    requires s.sender.Written? && |s.slots| == SLOTS
    ensures var refused := FullTest(s.w, s.r);
      Runs(s, PushActions(refused), if refused then s.(sender := Idle) else Pushed(s))
  {
    var s1 := Apply(s, SendLoadW);
    var s2 := Apply(s1, SendLoadR);
    if FullTest(s.w, s.r) {
      RunsTwo(s, SendLoadW, SendLoadR);
    } else {
      var s3 := Apply(s2, SendStore);
      RunsTwo(s2, SendStore, SendCommit);
      RunsCons(s1, SendLoadR, [SendStore, SendCommit], Apply(s3, SendCommit));
      assert [SendLoadR] + [SendStore, SendCommit] == [SendLoadR, SendStore, SendCommit];
      RunsCons(s, SendLoadW, [SendLoadR, SendStore, SendCommit], Apply(s3, SendCommit));
      assert [SendLoadW] + [SendLoadR, SendStore, SendCommit] == [SendLoadW, SendLoadR, SendStore, SendCommit];
    }
  }

  lemma RunsCons(s: State, a: Action, rest: seq<Action>, t: State)
    requires Enabled(s, a) && Runs(Apply(s, a), rest, t)
    ensures Runs(s, [a] + rest, t)
  {
    assert ([a] + rest)[1..] == rest;
  }

  lemma RunsTwo(s: State, a: Action, b: Action)
    requires Enabled(s, a) && Enabled(Apply(s, a), b)
    ensures Runs(s, [a, b], Apply(Apply(s, a), b))
  {
    var u := Apply(s, a);
    assert Runs(Apply(u, b), [], Apply(u, b));
    RunsCons(u, b, [], Apply(u, b));
    RunsCons(s, a, [b], Apply(u, b));
    assert [b] + [] == [b];
    assert [a] + [b] == [a, b];
  }
}
