/** Exactly which counts are safe, and which give slots back at all. */
module ProtocolLimits {
  import opened Words
  import opened Protocol
  import opened ProtocolInv
  import opened ProtocolSteps
  import opened ProtocolTheorems
  import opened ProtocolRounds

  // ----- which counts are safe

  /** Some slot was given back before some receiver passed it. */
  ghost predicate Overtaken(s: State) {
    exists i: nat :: i < |s.recvs| && Cursor(s.recvs[i]) < |s.releases|
  }

  ghost predicate NeverOvertakes(n: nat, c: nat) {
    forall base: nat, slots: seq<Descriptor>, acts: seq<Action>, s: State ::
      |slots| == SLOTS && AllCount(acts, c) && Runs(Start(n, base, slots), acts, s) ==> !Overtaken(s)
  }

  /** For any positive count up to the number of receivers some run gives a slot back: the
      first c receivers read the message, and the others have not begun. */
  lemma SomeRelease(n: nat, c: nat) returns (s: State, u: State)
    requires 0 < c <= n < WORD
    ensures s == Start(n, 0, s.slots) && |s.slots| == SLOTS
    ensures Reach(c, s, u) && |u.releases| == 1 && |u.recvs| == n
    ensures forall i :: c <= i < n ==> u.recvs[i] == NewReceiver(0)
  {
    var slots := seq(SLOTS, i => Descriptor(0, 0, 16));
    s := Start(n, 0, slots);
    var t := Rounds(c, 1, slots);
    ServedIsReleased(t, c, 1);
    LiftReach(c, n, slots, t);
    u := Lift(t, n);
  }

  /** A count that is positive but smaller than the number of receivers lets the slot go
      while some receiver has not passed it. */
  lemma SmallCountOvertakes(n: nat, c: nat) returns (s: State, u: State)
    requires 0 < c < n < WORD
    ensures s == Start(n, 0, s.slots) && |s.slots| == SLOTS
    ensures Reach(c, s, u) && Overtaken(u)
  {
    s, u := SomeRelease(n, c);
    assert Cursor(u.recvs[c]) == 0;
  }

  /** When all messages carry the same count, no slot is ever given back under a receiver
      that has not passed it if and only if that count is zero or at least the number of
      receivers. */
  lemma SafeIffCountFits(n: nat, c: nat)
    requires n < WORD && c < WORD
    ensures NeverOvertakes(n, c) <==> Fits(c, n)
  {
    if Fits(c, n) {
      forall base: nat, slots: seq<Descriptor>, acts: seq<Action>, s: State |
        |slots| == SLOTS && AllCount(acts, c) && Runs(Start(n, base, slots), acts, s)
        ensures !Overtaken(s)
      {
        assert AllFit(acts, n);
        assert Reachable(n, s);
        forall i: nat | i < |s.recvs|
          ensures Cursor(s.recvs[i]) >= |s.releases|
        {
          ReachableInv(n, s);
          CountersBracketCursors(n, s, i);
        }
      }
    } else {
      var s, u := SmallCountOvertakes(n, c);
      var acts: seq<Action> :| AllCount(acts, c) && Runs(s, acts, u);
      assert Runs(Start(n, 0, s.slots), acts, u);
    }
  }

  // ----- which counts deliver

  /** Every receiver has taken the history's descriptors, from the first on. */
  ghost predicate Delivered(s: State) {
    forall i: nat, m: nat :: i < |s.recvs| && m < |s.recvs[i].taken| ==>
      m < |s.hist| && s.recvs[i].taken[m] == s.hist[m].desc
  }

  ghost predicate AlwaysDelivers(n: nat, c: nat) {
    forall base: nat, slots: seq<Descriptor>, acts: seq<Action>, s: State ::
      |slots| == SLOTS && AllCount(acts, c) && Runs(Start(n, base, slots), acts, s) ==> Delivered(s)
  }

  /** What a receiver that has not begun does until it has copied its first slot. */
  lemma CopiesFirst(c: nat, s0: State, s: State, i: nat) returns (t: State)
    requires Reach(c, s0, s) && i < |s.recvs| && s.recvs[i] == NewReceiver(0) && s.mutex.None?
    requires |s.slots| == SLOTS && s.w != 0 && Low8(s.w) != 0
    ensures Reach(c, s0, t) && |t.recvs| == |s.recvs| && t.hist == s.hist
    ensures t.recvs[i].taken == [s.slots[0]]
  {
    t := FirstSteps(c, s0, s, i);
    Extend(c, s0, t, Recv(i, true));
    t := RecvApply(t, i, true);
    Extend(c, s0, t, Recv(i, true));
    t := RecvApply(t, i, true);
    Extend(c, s0, t, Recv(i, true));
    t := RecvApply(t, i, true);
  }

  lemma FirstSteps(c: nat, s0: State, s: State, i: nat) returns (t: State)
    requires Reach(c, s0, s) && i < |s.recvs| && s.recvs[i] == NewReceiver(0) && s.mutex.None? && s.w != 0
    ensures Reach(c, s0, t) && |t.recvs| == |s.recvs|
    ensures t.hist == s.hist && t.slots == s.slots && t.w == s.w
    ensures t.recvs[i] == NewReceiver(0).(pc := AtPop)
  {
    Extend(c, s0, s, Recv(i, true));
    t := RecvApply(s, i, true);
    Extend(c, s0, t, Recv(i, true));
    t := RecvApply(t, i, true);
    Extend(c, s0, t, Recv(i, true));
    t := RecvApply(t, i, true);
  }

  /** After 257 messages the first slot holds the last of them. */
  lemma Overwritten(s: State, c: nat)
    requires Served(s, c, 257)
    ensures s.w == 257 && Low8(s.w) == 1 && |s.slots| == SLOTS && s.mutex.None?
    ensures s.slots[0] == s.hist[256].desc != s.hist[0].desc
  {
    assert Low8(s.base + 256) == 0;
  }

  /** While the first c receivers read 257 messages, the slot of the first message is given
      back and used again, and a receiver that begins only now copies out another message in
      its place. */
  lemma SmallCountMisdelivers(n: nat, c: nat) returns (s: State, u: State)
    requires 0 < c < n < WORD
    ensures s == Start(n, 0, s.slots) && |s.slots| == SLOTS
    ensures Reach(c, s, u) && !Delivered(u)
  {
    var slots := seq(SLOTS, i => Descriptor(0, 0, 16));
    s := Start(n, 0, slots);
    var t := Rounds(c, 257, slots);
    Overwritten(t, c);
    LiftReach(c, n, slots, t);
    u := CopiesFirst(c, s, Lift(t, n), c);
    assert u.recvs[c].taken[0] == t.slots[0];
  }

  /** When all messages carry the same count, every run delivers the history in order to
      every receiver if and only if that count is zero or at least the number of receivers. */
  lemma DeliversIffCountFits(n: nat, c: nat)
    requires n < WORD && c < WORD
    ensures AlwaysDelivers(n, c) <==> Fits(c, n)
  {
    if Fits(c, n) {
      forall base: nat, slots: seq<Descriptor>, acts: seq<Action>, s: State |
        |slots| == SLOTS && AllCount(acts, c) && Runs(Start(n, base, slots), acts, s)
        ensures Delivered(s)
      {
        assert AllFit(acts, n);
        assert Reachable(n, s);
        ReachableInv(n, s);
        forall i: nat | i < |s.recvs|
          ensures forall m: nat :: m < |s.recvs[i].taken| ==>
                    m < |s.hist| && s.recvs[i].taken[m] == s.hist[m].desc
        {
          assert RecvOk(s.hist, s.base, s.recvs[i]);
        }
      }
    } else {
      var s, u := SmallCountMisdelivers(n, c);
      var acts: seq<Action> :| AllCount(acts, c) && Runs(s, acts, u);
      assert Runs(Start(n, 0, s.slots), acts, u);
    }
  }

  // ----- which counts let a drain end early

  /** pop's own test tells a receiver that the ring is empty, right after the loop test has told
      it that it is not. */
  ghost predicate EndsEarly(s: State) {
    exists i: nat :: i < |s.recvs| && s.recvs[i].life.Alive? && s.recvs[i].pc.AtPop?
                     && RecvApply(s, i, true).recvs[i].pc.Leaving?
  }

  ghost predicate NeverEndsEarly(n: nat, c: nat) {
    forall base: nat, slots: seq<Descriptor>, acts: seq<Action>, s: State ::
      |slots| == SLOTS && AllCount(acts, c) && Runs(Start(n, base, slots), acts, s) ==> !EndsEarly(s)
  }

  /** While the first c receivers read 256 messages, the write counter comes round to the slot
      where a receiver that begins only now is to start: its drain ends at once, with 256
      messages outstanding. */
  lemma SmallCountEndsEarly(n: nat, c: nat) returns (s: State, u: State)
    requires 0 < c < n < WORD
    ensures s == Start(n, 0, s.slots) && |s.slots| == SLOTS
    ensures Reach(c, s, u) && EndsEarly(u) && |u.hist| == 256
  {
    var slots := seq(SLOTS, i => Descriptor(0, 0, 16));
    s := Start(n, 0, slots);
    var t := Rounds(c, 256, slots);
    assert t.w == 256 && t.mutex.None?;
    LiftReach(c, n, slots, t);
    u := FirstSteps(c, s, Lift(t, n), c);
    assert RecvApply(u, c, true).recvs[c].pc.Leaving?;
  }

  /** When all messages carry the same count, no drain ends before it has caught up if and only
      if that count is zero or at least the number of receivers. */
  lemma DrainsFullyIffCountFits(n: nat, c: nat)
    requires n < WORD && c < WORD
    ensures NeverEndsEarly(n, c) <==> Fits(c, n)
  {
    if Fits(c, n) {
      forall base: nat, slots: seq<Descriptor>, acts: seq<Action>, s: State |
        |slots| == SLOTS && AllCount(acts, c) && Runs(Start(n, base, slots), acts, s)
        ensures !EndsEarly(s)
      {
        assert AllFit(acts, n);
        assert Reachable(n, s);
        ReachableInv(n, s);
        forall i: nat | i < |s.recvs| && s.recvs[i].pc.AtPop?
          ensures RecvApply(s, i, true).recvs[i].pc.AtBump?
        {
          DrainTests(n, s, i);
        }
      }
    } else {
      var s, u := SmallCountEndsEarly(n, c);
      var acts: seq<Action> :| AllCount(acts, c) && Runs(s, acts, u);
      assert Runs(Start(n, 0, s.slots), acts, u);
    }
  }

  // ----- which counts give slots back

  /** In no run is a slot given back. */
  ghost predicate NeverReleases(n: nat, c: nat) {
    forall base: nat, slots: seq<Descriptor>, acts: seq<Action>, s: State ::
      |slots| == SLOTS && AllCount(acts, c) && Runs(Start(n, base, slots), acts, s) ==> s.releases == []
  }

  ghost predicate Counted(s: State, c: nat) {
    && (forall m :: 0 <= m < |s.hist| ==> s.hist[m].cnt == c)
    && (!s.sender.Idle? ==> s.sender.msg.cnt == c)
  }

  lemma StepCounted(s: State, a: Action, c: nat)
    requires Counted(s, c) && Enabled(s, a) && (a.SendWrite? ==> a.msg.cnt == c)
    ensures Counted(Apply(s, a), c)
  {
  }

  lemma {:induction false} RunCounted(s: State, acts: seq<Action>, t: State, c: nat)
    requires Counted(s, c) && AllCount(acts, c) && Runs(s, acts, t)
    ensures Counted(t, c)
    decreases |acts|
  {
    if acts != [] {
      StepCounted(s, acts[0], c);
      RunCounted(Apply(s, acts[0]), acts[1..], t, c);
    }
  }

  lemma ReleasedIsDue(s: State)
    requires ReleasesOk(s) && s.releases != []
    ensures s.releases[0] >= 0 && Due(s, s.releases[0])
  {
    assert s.releases[0] in s.releases;
  }

  lemma NoneDue(s: State, c: nat)
    requires ReleasesOk(s) && Counted(s, c) && (c == 0 || |s.recvs| < c)
    ensures s.releases == []
  {
    if s.releases != [] {
      ReleasedIsDue(s);
      assert false;
    }
  }

  /** When all messages carry the same count, no slot is ever given back, in any run, if and
      only if the count is zero or more than the number of receivers. */
  lemma NeverReleasesIff(n: nat, c: nat)
    requires n < WORD && c < WORD
    ensures NeverReleases(n, c) <==> c == 0 || n < c
  {
    if c == 0 || n < c {
      forall base: nat, slots: seq<Descriptor>, acts: seq<Action>, s: State |
        |slots| == SLOTS && AllCount(acts, c) && Runs(Start(n, base, slots), acts, s)
        ensures s.releases == []
      {
        assert AllFit(acts, n);
        assert Reachable(n, s);
        ReachableInv(n, s);
        RunCounted(Start(n, base, slots), acts, s, c);
        NoneDue(s, c);
      }
    } else {
      var s, u := SomeRelease(n, c);
      var acts: seq<Action> :| AllCount(acts, c) && Runs(s, acts, u);
      assert Runs(Start(n, 0, s.slots), acts, u);
    }
  }

  /** A ring whose slots are never given back takes 255 messages and no more. */
  lemma AtMostOneFilling(n: nat, c: nat, base: nat, slots: seq<Descriptor>, acts: seq<Action>, s: State)
    requires n < WORD && c < WORD && NeverReleases(n, c) && |slots| == SLOTS
    requires AllCount(acts, c) && Runs(Start(n, base, slots), acts, s)
    ensures |s.hist| <= CAPACITY
  {
    NeverReleasesIff(n, c);
    assert AllFit(acts, n);
    assert Reachable(n, s);
    ReachableInv(n, s);
  }

  /** Slots are given back, and never under a receiver, exactly when the count is the number
      of receivers and there are any. */
  lemma WorksIff(n: nat, c: nat)
    requires n < WORD && c < WORD
    ensures NeverOvertakes(n, c) && !NeverReleases(n, c) <==> 0 < c == n
  {
    SafeIffCountFits(n, c);
    NeverReleasesIff(n, c);
  }
}
