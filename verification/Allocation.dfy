/** Concurrent connects on one table, serialised by its spin lock.

Each thread makes one request.  The lock's exchange and store, every test of a bit and the
setting of a bit are separate steps, so that nothing but the lock keeps two threads from
claiming the same slot.  Nobody disconnects.
*/
module Allocation {
  import opened Sets
  import opened Connection

  datatype Pc =
    | AtExchange             // spinning on the lock
    | Scanning(i: nat)       // owns the lock, about to test slot i
    | Claiming(pos: nat)     // found slot pos free
    | Unlocking(id: nat)     // about to release the lock
    | Done(id: nat)          // connect returned id

  datatype Thread = Thread(mode: Mode, pc: Pc)

  datatype State = State(kind: Kind, lock: nat, bits: seq<bool>, threads: seq<Thread>)

  function Lo(s: State, mode: Mode): nat {
    Low(s.kind, mode, |s.bits|)
  }

  function Hi(s: State, mode: Mode): nat {
    High(s.kind, mode, |s.bits|)
  }

  /** A unicast sender that finds no slot has no defined next step. */
  predicate Enabled(s: State, i: nat) {
    i < |s.threads| &&
    match s.threads[i].pc
    case Scanning(p) => p < Hi(s, s.threads[i].mode) || !MustFind(s.kind, s.threads[i].mode)
    case Claiming(pos) => 0 < pos <= |s.bits|
    case Done(_) => false
    case _ => true
  }

  function Goto(s: State, i: nat, pc: Pc): State
    requires i < |s.threads|
  {
    s.(threads := s.threads[i := s.threads[i].(pc := pc)])
  }

  function Apply(s: State, i: nat): State
    requires Enabled(s, i)
  {
    var mode := s.threads[i].mode;
    match s.threads[i].pc
    case AtExchange => if s.lock != 0 then s.(lock := 1) else Goto(s, i, Scanning(Lo(s, mode))).(lock := 1)
    case Scanning(p) =>
      if Hi(s, mode) <= p then Goto(s, i, Unlocking(0))
      else Goto(s, i, if Taken(s.bits, p) then Scanning(p + 1) else Claiming(p))
    case Claiming(pos) => Goto(s, i, Unlocking(pos)).(bits := s.bits[pos - 1 := true])
    case Unlocking(id) => Goto(s, i, Done(id)).(lock := 0)
  }

  ghost predicate Runs(s: State, schedule: seq<nat>, t: State)
    decreases |schedule|
  {
    if schedule == [] then s == t
    else Enabled(s, schedule[0]) && Runs(Apply(s, schedule[0]), schedule[1..], t)
  }

  function Start(kind: Kind, max: nat, modes: seq<Mode>): State {
    State(kind, 0, seq(max, i => false), seq(|modes|, i requires 0 <= i < |modes| => Thread(modes[i], AtExchange)))
  }

  // ----- invariant

  predicate Inside(pc: Pc) {
    pc.Scanning? || pc.Claiming? || pc.Unlocking?
  }

  /** The slot a thread holds, or zero. */
  function Held(pc: Pc): nat {
    match pc
    case Unlocking(id) => id
    case Done(id) => id
    case _ => 0
  }

  ghost function Holders(s: State, mode: Mode): set<nat> {
    set i: nat | i < |s.threads| && s.threads[i].mode == mode && Held(s.threads[i].pc) != 0
  }

  ghost predicate Full(s: State, mode: Mode) {
    forall p: nat :: Lo(s, mode) <= p < Hi(s, mode) ==> Taken(s.bits, p)
  }

  ghost predicate ThreadOk(s: State, th: Thread) {
    var lo, hi := Lo(s, th.mode), Hi(s, th.mode);
    match th.pc
    case AtExchange => true
    case Scanning(i) => lo <= i <= hi && forall p: nat :: lo <= p < i ==> Taken(s.bits, p)
    case Claiming(pos) => lo <= pos < hi && !Taken(s.bits, pos) && forall p: nat :: lo <= p < pos ==> Taken(s.bits, p)
    case Unlocking(id) => AnswerOk(s, th.mode, id)
    case Done(id) => AnswerOk(s, th.mode, id)
  }

  ghost predicate AnswerOk(s: State, mode: Mode, id: nat) {
    if id == 0 then Full(s, mode) && !MustFind(s.kind, mode)
    else Lo(s, mode) <= id < Hi(s, mode) && Taken(s.bits, id)
  }

  ghost predicate LockOk(s: State) {
    && s.lock <= 1
    && (forall i: nat :: i < |s.threads| && Inside(s.threads[i].pc) ==> s.lock != 0)
    && (s.lock != 0 ==> exists i: nat :: i < |s.threads| && Inside(s.threads[i].pc))
    && (forall i: nat, j: nat :: i < |s.threads| && j < |s.threads| ==>
          Inside(s.threads[i].pc) && Inside(s.threads[j].pc) ==> i == j)
  }

  ghost predicate SlotsDistinct(s: State) {
    forall i: nat, j: nat :: i < |s.threads| && j < |s.threads| && i != j && Held(s.threads[i].pc) != 0 ==>
      Held(s.threads[i].pc) != Held(s.threads[j].pc)
  }

  /** The slots in use within a range are its lowest ones, one for each holder. */
  ghost predicate RangeOk(s: State, mode: Mode)
    requires TableSize(|s.bits|)
  {
    var lo, hi := Lo(s, mode), Hi(s, mode);
    && (forall p: nat, q: nat :: lo <= p < q < hi && Taken(s.bits, q) ==> Taken(s.bits, p))
    && Count(s.bits[lo - 1..hi - 1]) == |Holders(s, mode)|
  }

  ghost predicate Inv(s: State) {
    && TableSize(|s.bits|)
    && LockOk(s)
    && SlotsDistinct(s)
    && (forall i: nat :: i < |s.threads| ==> ThreadOk(s, s.threads[i]))
    && RangeOk(s, Sending) && RangeOk(s, Receiving)
    && (s.kind == Broadcast ==> !Taken(s.bits, |s.bits|))
  }

  lemma RangesApart(s: State)
    requires TableSize(|s.bits|)
    ensures 1 <= Lo(s, Sending) < Hi(s, Sending) <= Lo(s, Receiving) < Hi(s, Receiving) <= |s.bits| + 1
  {
  }

  ghost predicate OnlyThread(s: State, t: State, i: nat) {
    && i < |s.threads| && s.kind == t.kind
    && |t.threads| == |s.threads| && t.threads == s.threads[i := t.threads[i]]
    && t.threads[i].mode == s.threads[i].mode
  }

  lemma SameHolders(s: State, t: State, i: nat)
    requires OnlyThread(s, t, i) && Held(t.threads[i].pc) == Held(s.threads[i].pc)
    ensures Holders(t, Sending) == Holders(s, Sending) && Holders(t, Receiving) == Holders(s, Receiving)
    ensures SlotsDistinct(s) ==> SlotsDistinct(t)
  {
    assert forall j: nat :: j < |s.threads| && j != i ==> t.threads[j] == s.threads[j];
  }

  lemma LockKept(s: State, t: State, i: nat)
    requires LockOk(s) && OnlyThread(s, t, i)
    requires Inside(s.threads[i].pc) || s.lock == 0
    requires t.lock == if Inside(t.threads[i].pc) then 1 else 0
    ensures LockOk(t)
  {
    assert forall j: nat :: j < |s.threads| && j != i ==> t.threads[j] == s.threads[j] && !Inside(t.threads[j].pc);
  }

  lemma ThreadsKept(s: State, t: State, i: nat)
    requires OnlyThread(s, t, i) && s.bits == t.bits
    requires forall j: nat :: j < |s.threads| ==> ThreadOk(s, s.threads[j])
    requires ThreadOk(t, t.threads[i])
    ensures forall j: nat :: j < |t.threads| ==> ThreadOk(t, t.threads[j])
  {
    forall j: nat | j < |t.threads|
      ensures ThreadOk(t, t.threads[j])
    {
      assert ThreadOk(s, s.threads[j]);
      assert j != i ==> t.threads[j] == s.threads[j];
    }
  }

  /** A step that sets no bit. */
  lemma QuietStep(s: State, t: State, i: nat)
    requires Inv(s) && OnlyThread(s, t, i) && s.bits == t.bits
    requires Held(t.threads[i].pc) == Held(s.threads[i].pc)
    requires LockOk(t) && ThreadOk(t, t.threads[i])
    ensures Inv(t)
  {
    SameHolders(s, t, i);
    ThreadsKept(s, t, i);
    SameRange(s, t, Sending);
    SameRange(s, t, Receiving);
  }

  lemma SameRange(s: State, t: State, mode: Mode)
    requires s.kind == t.kind && s.bits == t.bits && TableSize(|s.bits|) && RangeOk(s, mode)
    requires Holders(s, mode) == Holders(t, mode)
    ensures RangeOk(t, mode)
  {
  }

  lemma SameView(s: State, t: State, th: Thread)
    requires s.kind == t.kind && s.bits == t.bits
    ensures ThreadOk(s, th) <==> ThreadOk(t, th)
  {
  }

  /** One turn of the search loop. */
  lemma ScanNext(s: State, mode: Mode, p: nat)
    requires ThreadOk(s, Thread(mode, Scanning(p)))
    ensures Hi(s, mode) <= p && !MustFind(s.kind, mode) ==> ThreadOk(s, Thread(mode, Unlocking(0)))
    ensures p < Hi(s, mode) && Taken(s.bits, p) ==> ThreadOk(s, Thread(mode, Scanning(p + 1)))
    ensures p < Hi(s, mode) && !Taken(s.bits, p) ==> ThreadOk(s, Thread(mode, Claiming(p)))
  {
  }

  lemma ScanOk(s: State, i: nat)
    requires Enabled(s, i) && ThreadOk(s, s.threads[i]) && s.threads[i].pc.Scanning?
    ensures ThreadOk(Apply(s, i), Apply(s, i).threads[i])
  {
    var t := Apply(s, i);
    ScanNext(s, s.threads[i].mode, s.threads[i].pc.i);
    SameView(s, t, t.threads[i]);
  }

  lemma NonClaimStep(s: State, i: nat)
    requires Inv(s) && Enabled(s, i) && !s.threads[i].pc.Claiming?
    ensures Inv(Apply(s, i))
  {
    var t := Apply(s, i);
    assert ThreadOk(s, s.threads[i]);
    if s.threads[i].pc.AtExchange? && s.lock != 0 {
      assert t.threads == s.threads[i := s.threads[i]];
      QuietStep(s, t, i);
    } else {
      assert s.threads[i].pc.AtExchange? || Inside(s.threads[i].pc);
      LockKept(s, t, i);
      if s.threads[i].pc.Scanning? {
        ScanOk(s, i);
      } else {
        RangesApart(s);
      }
      QuietStep(s, t, i);
    }
  }

  // ----- claiming a slot

  /** Everything that was taken stays taken, and so every other thread's view stays right. */
  lemma OthersOk(s: State, t: State, i: nat, pos: nat)
    requires LockOk(s) && OnlyThread(s, t, i) && 0 < pos <= |s.bits| && t.bits == s.bits[pos - 1 := true]
    requires forall j: nat :: j < |s.threads| ==> ThreadOk(s, s.threads[j])
    requires Inside(s.threads[i].pc)
    ensures forall j: nat :: j < |t.threads| && j != i ==> ThreadOk(t, t.threads[j])
  {
    assert forall p: nat :: Taken(s.bits, p) ==> Taken(t.bits, p);
    forall j: nat | j < |t.threads| && j != i
      ensures ThreadOk(t, t.threads[j])
    {
      assert t.threads[j] == s.threads[j] && ThreadOk(s, s.threads[j]) && !Inside(s.threads[j].pc);
    }
  }

  lemma ClaimDistinct(s: State, t: State, i: nat, pos: nat)
    requires SlotsDistinct(s) && OnlyThread(s, t, i) && 0 < pos && !Taken(s.bits, pos)
    requires forall j: nat :: j < |s.threads| ==> ThreadOk(s, s.threads[j])
    requires Held(t.threads[i].pc) == pos
    ensures SlotsDistinct(t)
  {
    forall j: nat | j < |s.threads| && j != i
      ensures Held(t.threads[j].pc) != pos && t.threads[j] == s.threads[j]
    {
      assert ThreadOk(s, s.threads[j]);
    }
  }

  lemma ClaimHolders(s: State, t: State, i: nat, mode: Mode)
    requires OnlyThread(s, t, i) && Held(s.threads[i].pc) == 0 && Held(t.threads[i].pc) != 0
    ensures Holders(t, mode) == (if s.threads[i].mode == mode then Holders(s, mode) + {i} else Holders(s, mode))
    ensures i !in Holders(s, mode)
  {
    assert forall j: nat :: j < |s.threads| && j != i ==> t.threads[j] == s.threads[j];
  }

  lemma RangeCount(bits: seq<bool>, lo: nat, hi: nat, pos: nat)
    requires 0 < lo <= pos < hi <= |bits| + 1 && !Taken(bits, pos)
    ensures Count(bits[pos - 1 := true][lo - 1..hi - 1]) == Count(bits[lo - 1..hi - 1]) + 1
  {
    assert bits[pos - 1 := true][lo - 1..hi - 1] == bits[lo - 1..hi - 1][pos - lo := true];
    CountSet(bits[lo - 1..hi - 1], pos - lo);
  }

  lemma ClaimOwnCount(s: State, t: State, i: nat, pos: nat)
    requires TableSize(|s.bits|) && OnlyThread(s, t, i) && RangeOk(s, s.threads[i].mode)
    requires s.threads[i].pc == Claiming(pos) && ThreadOk(s, s.threads[i])
    requires Held(t.threads[i].pc) == pos && t.bits == s.bits[pos - 1 := true]
    ensures var mode := s.threads[i].mode; var lo, hi := Lo(s, mode), Hi(s, mode);
      0 < lo <= hi <= |t.bits| + 1 && Count(t.bits[lo - 1..hi - 1]) == |Holders(t, mode)|
  {
    var mode := s.threads[i].mode;
    ClaimHolders(s, t, i, mode);
    RangesApart(s);
    RangeCount(s.bits, Lo(s, mode), Hi(s, mode), pos);
  }

  lemma ClaimOwnRange(s: State, t: State, i: nat, pos: nat)
    requires TableSize(|s.bits|) && OnlyThread(s, t, i) && RangeOk(s, s.threads[i].mode)
    requires s.threads[i].pc == Claiming(pos) && ThreadOk(s, s.threads[i])
    requires Held(t.threads[i].pc) == pos && t.bits == s.bits[pos - 1 := true]
    ensures |t.bits| == |s.bits| && RangeOk(t, s.threads[i].mode)
  {
    var mode := s.threads[i].mode;
    ClaimOwnCount(s, t, i, pos);
    assert Lo(t, mode) == Lo(s, mode) && Hi(t, mode) == Hi(s, mode);
    assert forall p: nat :: p != pos ==> (Taken(t.bits, p) <==> Taken(s.bits, p));
    RangeGrows(s, t, mode, pos);
  }

  lemma RangeGrows(s: State, t: State, mode: Mode, pos: nat)
    requires forall p: nat :: p != pos ==> (Taken(t.bits, p) <==> Taken(s.bits, p))
    requires Taken(t.bits, pos) && forall p: nat :: Lo(s, mode) <= p < pos ==> Taken(s.bits, p)
    requires forall p: nat, q: nat :: Lo(s, mode) <= p < q < Hi(s, mode) && Taken(s.bits, q) ==> Taken(s.bits, p)
    ensures forall p: nat, q: nat :: Lo(s, mode) <= p < q < Hi(s, mode) && Taken(t.bits, q) ==> Taken(t.bits, p)
  {
  }

  lemma ClaimOtherRange(s: State, t: State, i: nat, pos: nat, mode: Mode)
    requires TableSize(|s.bits|) && RangeOk(s, mode) && OnlyThread(s, t, i) && s.threads[i].mode != mode
    requires s.threads[i].pc == Claiming(pos) && ThreadOk(s, s.threads[i])
    requires Held(t.threads[i].pc) == pos && t.bits == s.bits[pos - 1 := true]
    ensures |t.bits| == |s.bits| && RangeOk(t, mode)
  {
    var lo, hi := Lo(s, mode), Hi(s, mode);
    RangesApart(s);
    ClaimHolders(s, t, i, mode);
    OtherSide(s, i, pos, mode);
    OutsideRange(s.bits, lo, hi, pos);
    RangeAgrees(s, t, mode);
  }

  /** A slot that is claimed lies outside the range for the other kind of request. */
  lemma OtherSide(s: State, i: nat, pos: nat, mode: Mode)
    requires TableSize(|s.bits|) && i < |s.threads| && s.threads[i].mode != mode
    requires s.threads[i].pc == Claiming(pos) && ThreadOk(s, s.threads[i])
    ensures pos < Lo(s, mode) || Hi(s, mode) <= pos
  {
    RangesApart(s);
  }

  lemma RangeAgrees(s: State, t: State, mode: Mode)
    requires TableSize(|s.bits|) && |t.bits| == |s.bits| && s.kind == t.kind && RangeOk(s, mode)
    requires Holders(s, mode) == Holders(t, mode)
    requires s.bits[Lo(s, mode) - 1..Hi(s, mode) - 1] == t.bits[Lo(s, mode) - 1..Hi(s, mode) - 1]
    requires forall p: nat :: Lo(s, mode) <= p < Hi(s, mode) ==> (Taken(t.bits, p) <==> Taken(s.bits, p))
    ensures RangeOk(t, mode)
  {
  }

  /** Setting a bit outside a range changes nothing within. */
  lemma OutsideRange(bits: seq<bool>, lo: nat, hi: nat, pos: nat)
    requires 0 < lo <= hi <= |bits| + 1 && 0 < pos <= |bits| && (pos < lo || hi <= pos)
    ensures var now := bits[pos - 1 := true];
      && now[lo - 1..hi - 1] == bits[lo - 1..hi - 1]
      && forall p: nat :: lo <= p < hi ==> (Taken(now, p) <==> Taken(bits, p))
  {
  }

  /** What a claim does, read off the code. */
  lemma ClaimShape(s: State, i: nat)
    requires Enabled(s, i) && s.threads[i].pc.Claiming?
    ensures var t := Apply(s, i); var pos := s.threads[i].pc.pos;
      && OnlyThread(s, t, i) && t.lock == s.lock
      && 0 < pos <= |s.bits| && t.bits == s.bits[pos - 1 := true]
      && t.threads[i].pc == Unlocking(pos)
  {
  }

  lemma ClaimedOk(s: State, t: State, i: nat, pos: nat)
    requires OnlyThread(s, t, i) && s.threads[i].pc == Claiming(pos) && ThreadOk(s, s.threads[i])
    requires 0 < pos <= |s.bits| && t.bits == s.bits[pos - 1 := true] && t.threads[i].pc == Unlocking(pos)
    ensures ThreadOk(t, t.threads[i])
    ensures TableSize(|s.bits|) && s.kind == Broadcast && !Taken(s.bits, |s.bits|) ==> !Taken(t.bits, |t.bits|)
  {
  }

  lemma ClaimStep(s: State, i: nat)
    requires Inv(s) && Enabled(s, i) && s.threads[i].pc.Claiming?
    ensures Inv(Apply(s, i))
  {
    ClaimShape(s, i);
    ClaimedInv(s, Apply(s, i), i, s.threads[i].pc.pos);
  }

  lemma ClaimedInv(s: State, t: State, i: nat, pos: nat)
    requires Inv(s) && OnlyThread(s, t, i) && t.lock == s.lock
    requires s.threads[i].pc == Claiming(pos) && t.threads[i].pc == Unlocking(pos)
    requires 0 < pos <= |s.bits| && t.bits == s.bits[pos - 1 := true]
    ensures Inv(t)
  {
    assert ThreadOk(s, s.threads[i]);
    var other := if s.threads[i].mode == Sending then Receiving else Sending;
    assert SlotsDistinct(t) by {
      ClaimDistinct(s, t, i, pos);
    }
    assert RangeOk(t, s.threads[i].mode) && RangeOk(t, other) by {
      ClaimOwnRange(s, t, i, pos);
      ClaimOtherRange(s, t, i, pos, other);
    }
    assert LockOk(t) by {
      ClaimLock(s, t, i);
    }
    ClaimedThreads(s, t, i, pos);
  }

  lemma ClaimedThreads(s: State, t: State, i: nat, pos: nat)
    requires TableSize(|s.bits|) && LockOk(s) && OnlyThread(s, t, i)
    requires s.threads[i].pc == Claiming(pos) && t.threads[i].pc == Unlocking(pos)
    requires 0 < pos <= |s.bits| && t.bits == s.bits[pos - 1 := true]
    requires forall j: nat :: j < |s.threads| ==> ThreadOk(s, s.threads[j])
    ensures forall j: nat :: j < |t.threads| ==> ThreadOk(t, t.threads[j])
    ensures s.kind == Broadcast && !Taken(s.bits, |s.bits|) ==> !Taken(t.bits, |t.bits|)
  {
    OthersOk(s, t, i, pos);
    ClaimedOk(s, t, i, pos);
  }

  lemma ClaimLock(s: State, t: State, i: nat)
    requires LockOk(s) && OnlyThread(s, t, i) && s.lock == t.lock
    requires Inside(s.threads[i].pc) && Inside(t.threads[i].pc)
    ensures LockOk(t)
  {
    LockKept(s, t, i);
  }

  lemma StepKeepsInv(s: State, i: nat)
    requires Inv(s) && Enabled(s, i)
    ensures Inv(Apply(s, i))
    ensures var t := Apply(s, i); t.kind == s.kind && |t.bits| == |s.bits| && OnlyThread(s, t, i)
  {
    if s.threads[i].pc.Claiming? {
      ClaimStep(s, i);
    } else {
      NonClaimStep(s, i);
    }
  }

  lemma EmptyCount(bits: seq<bool>, lo: nat, hi: nat)
    requires lo <= hi <= |bits| && forall p :: 0 <= p < |bits| ==> !bits[p]
    ensures Count(bits[lo..hi]) == 0
  {
    CountNone(bits[lo..hi]);
  }

  lemma EmptyRange(s: State, mode: Mode)
    requires TableSize(|s.bits|) && forall p :: 0 <= p < |s.bits| ==> !s.bits[p]
    requires forall i: nat :: i < |s.threads| ==> s.threads[i].pc == AtExchange
    ensures RangeOk(s, mode)
  {
    RangesApart(s);
    EmptyCount(s.bits, Lo(s, mode) - 1, Hi(s, mode) - 1);
    NoHolders(s, mode);
  }

  lemma NoHolders(s: State, mode: Mode)
    requires forall i: nat :: i < |s.threads| ==> s.threads[i].pc == AtExchange
    ensures Holders(s, mode) == {}
  {
  }

  /** A state in which nobody has begun and no slot is taken. */
  ghost predicate NotBegun(s: State) {
    && s.lock == 0 && (forall p :: 0 <= p < |s.bits| ==> !s.bits[p])
    && forall i: nat :: i < |s.threads| ==> s.threads[i].pc == AtExchange
  }

  lemma EmptyInv(s: State)
    requires TableSize(|s.bits|) && NotBegun(s)
    ensures Inv(s)
  {
    EmptyRange(s, Sending);
    EmptyRange(s, Receiving);
    assert LockOk(s) && SlotsDistinct(s);
    assert forall i: nat :: i < |s.threads| ==> ThreadOk(s, s.threads[i]);
  }

  lemma StartInv(kind: Kind, max: nat, modes: seq<Mode>)
    requires TableSize(max)
    ensures Inv(Start(kind, max, modes))
  {
    assert NotBegun(Start(kind, max, modes));
    EmptyInv(Start(kind, max, modes));
  }

  ghost predicate Same(s: State, t: State) {
    && t.kind == s.kind && |t.bits| == |s.bits| && |t.threads| == |s.threads|
    && forall i :: 0 <= i < |s.threads| ==> t.threads[i].mode == s.threads[i].mode
  }

  lemma {:induction false} RunKeepsInv(s: State, schedule: seq<nat>, t: State)
    requires Inv(s) && Runs(s, schedule, t)
    ensures Inv(t) && Same(s, t)
    decreases |schedule|
  {
    if schedule != [] {
      StepKeepsInv(s, schedule[0]);
      RunKeepsInv(Apply(s, schedule[0]), schedule[1..], t);
    }
  }

  /** t arises from connects alone, by threads with these requests, in some interleaving. */
  ghost predicate Reachable(kind: Kind, max: nat, modes: seq<Mode>, t: State) {
    exists schedule: seq<nat> :: Runs(Start(kind, max, modes), schedule, t)
  }

  lemma ReachableInv(kind: Kind, max: nat, modes: seq<Mode>, t: State)
    requires TableSize(max) && Reachable(kind, max, modes, t)
    ensures Inv(t) && t.kind == kind && |t.bits| == max && |t.threads| == |modes|
    ensures forall i :: 0 <= i < |modes| ==> t.threads[i].mode == modes[i]
  {
    var schedule: seq<nat> :| Runs(Start(kind, max, modes), schedule, t);
    StartInv(kind, max, modes);
    RunKeepsInv(Start(kind, max, modes), schedule, t);
  }

  // ----- what connect promises

  /** No two threads are between the lock's exchange and its store. */
  lemma LockExcludes(kind: Kind, max: nat, modes: seq<Mode>, s: State, i: nat, j: nat)
    requires TableSize(max) && Reachable(kind, max, modes, s) && i < |modes| && j < |modes|
    ensures |s.threads| == |modes|
    ensures Inside(s.threads[i].pc) && Inside(s.threads[j].pc) ==> i == j
  {
    ReachableInv(kind, max, modes, s);
  }

  /** A thread gets past the exchange exactly if nobody is inside, and changes nothing as long as
      somebody is; the store lets the next one in, and connect returns what was decided. */
  lemma SpinLockSteps(kind: Kind, max: nat, modes: seq<Mode>, s: State, i: nat)
    requires TableSize(max) && Reachable(kind, max, modes, s) && Enabled(s, i)
    ensures s.threads[i].pc.AtExchange? ==> var t := Apply(s, i);
      if exists j: nat :: j < |s.threads| && Inside(s.threads[j].pc) then t == s
      else t.bits == s.bits && t.threads[i].pc == Scanning(Low(kind, s.threads[i].mode, max))
    ensures s.threads[i].pc.Unlocking? ==> var t := Apply(s, i);
      && t.bits == s.bits && t.threads[i].pc == Done(s.threads[i].pc.id)
      && forall j: nat :: j < |t.threads| ==> !Inside(t.threads[j].pc)
  {
    ReachableInv(kind, max, modes, s);
    var t := Apply(s, i);
    assert forall j: nat :: j < |s.threads| && j != i ==> t.threads[j] == s.threads[j];
    if s.threads[i].pc.Unlocking? {
      assert Inside(s.threads[i].pc);
    }
  }

  /** Slots that were granted are distinct, and lie in the half their request was for. */
  lemma GrantsDistinct(kind: Kind, max: nat, modes: seq<Mode>, s: State, i: nat, j: nat)
    requires TableSize(max) && Reachable(kind, max, modes, s) && i < |modes| && j < |modes| && i != j
    ensures |s.threads| == |modes|
    ensures var a, b := s.threads[i].pc, s.threads[j].pc;
      a.Done? && b.Done? && a.id != 0 && b.id != 0 ==>
        && a.id != b.id
        && (modes[i] == Sending && modes[j] == Receiving ==> a.id < Low(kind, Receiving, max) <= b.id <= max)
  {
    ReachableInv(kind, max, modes, s);
    assert ThreadOk(s, s.threads[i]) && ThreadOk(s, s.threads[j]);
    TwoGrants(s, i, j);
  }

  lemma TwoGrants(s: State, i: nat, j: nat)
    requires TableSize(|s.bits|) && SlotsDistinct(s) && i < |s.threads| && j < |s.threads| && i != j
    requires ThreadOk(s, s.threads[i]) && ThreadOk(s, s.threads[j])
    ensures var a, b := s.threads[i].pc, s.threads[j].pc;
      a.Done? && b.Done? && a.id != 0 && b.id != 0 ==>
        && a.id != b.id
        && (s.threads[i].mode == Sending && s.threads[j].mode == Receiving ==>
              a.id < Low(s.kind, Receiving, |s.bits|) <= b.id <= |s.bits|)
  {
    RangesApart(s);
  }

  /** The step in which a request is decided gives it the least free slot of its range,
      and zero exactly when the range is full. */
  lemma GrantsLeastFree(kind: Kind, max: nat, modes: seq<Mode>, s: State, i: nat)
    requires TableSize(max) && Reachable(kind, max, modes, s) && Enabled(s, i)
    requires !s.threads[i].pc.Unlocking? && Apply(s, i).threads[i].pc.Unlocking?
    ensures i < |modes| && |s.bits| == max && 0 < Low(kind, modes[i], max) <= High(kind, modes[i], max) <= max + 1
    ensures var id := Apply(s, i).threads[i].pc.id;
      && id == FirstFree(s.bits, Low(kind, modes[i], max), High(kind, modes[i], max))
      && (id == 0 <==> Full(s, modes[i]))
  {
    ReachableInv(kind, max, modes, s);
    RangesApart(s);
    DecidedSlot(s, i);
  }

  /** A thread's position in the search determines the least free slot. */
  lemma DecidedSlot(s: State, i: nat)
    requires Enabled(s, i) && ThreadOk(s, s.threads[i])
    requires var mode := s.threads[i].mode; 0 < Lo(s, mode) <= Hi(s, mode) <= |s.bits| + 1
    requires !s.threads[i].pc.Unlocking? && Apply(s, i).threads[i].pc.Unlocking?
    ensures var mode := s.threads[i].mode; var id := Apply(s, i).threads[i].pc.id;
      id == FirstFree(s.bits, Lo(s, mode), Hi(s, mode)) && (id == 0 <==> Full(s, mode))
  {
    var mode := s.threads[i].mode;
    var id := Apply(s, i).threads[i].pc.id;
    var first := FirstFree(s.bits, Lo(s, mode), Hi(s, mode));
    if s.threads[i].pc.Claiming? {
      assert !Taken(s.bits, id);
    } else {
      assert forall p: nat :: Lo(s, mode) <= p < Hi(s, mode) ==> Taken(s.bits, p);
    }
  }

  /** A thread that was refused still sees its range full. */
  lemma RefusedStaysFull(kind: Kind, max: nat, modes: seq<Mode>, s: State, i: nat)
    requires TableSize(max) && Reachable(kind, max, modes, s) && i < |modes|
    ensures |s.threads| == |modes|
    ensures s.threads[i].pc == Done(0) ==> Full(s, modes[i])
  {
    ReachableInv(kind, max, modes, s);
    assert ThreadOk(s, s.threads[i]);
  }

  lemma CountSplit(s: State)
    requires TableSize(|s.bits|) && (s.kind == Broadcast ==> !Taken(s.bits, |s.bits|))
    ensures Count(s.bits) == Count(s.bits[Lo(s, Sending) - 1..Hi(s, Sending) - 1])
                             + Count(s.bits[Lo(s, Receiving) - 1..Hi(s, Receiving) - 1])
  {
    var k, l := Lo(s, Receiving) - 1, Hi(s, Receiving) - 1;
    CountThree(s.bits, k, l);
    CountNone(s.bits[l..]);
    assert Lo(s, Sending) - 1 == 0 && Hi(s, Sending) - 1 == k;
    assert s.bits[..k] == s.bits[0..k];
  }

  /** connections() is the number of successful connects. */
  lemma ConnectionsCounted(kind: Kind, max: nat, modes: seq<Mode>, s: State)
    requires TableSize(max) && Reachable(kind, max, modes, s)
    ensures Count(s.bits) == |Holders(s, Sending)| + |Holders(s, Receiving)|
  {
    ReachableInv(kind, max, modes, s);
    HoldersCounted(s);
  }

  lemma HoldersCounted(s: State)
    requires TableSize(|s.bits|) && (s.kind == Broadcast ==> !Taken(s.bits, |s.bits|))
    requires RangeOk(s, Sending) && RangeOk(s, Receiving)
    ensures Count(s.bits) == |Holders(s, Sending)| + |Holders(s, Receiving)|
  {
    CountSplit(s);
  }

  // ----- progress

  /** A thread that has neither finished nor a defined next step. */
  predicate Stuck(s: State, i: nat) {
    i < |s.threads| && !Enabled(s, i) && !s.threads[i].pc.Done?
  }

  ghost function Requests(modes: seq<Mode>, mode: Mode): set<nat> {
    set j: nat | j < |modes| && modes[j] == mode
  }

  /** A stuck thread is a unicast sender behind its range, and so the slots of that range
      are all held, by others. */
  lemma StuckMeansHeld(s: State, i: nat)
    requires Inv(s) && Stuck(s, i)
    ensures s.kind == Unicast && s.threads[i].mode == Sending && Held(s.threads[i].pc) == 0
    ensures |Holders(s, Sending)| == |s.bits| - 1
  {
    assert ThreadOk(s, s.threads[i]);
    RangesApart(s);
    var range := s.bits[Lo(s, Sending) - 1..Hi(s, Sending) - 1];
    forall k | 0 <= k < |range|
      ensures range[k]
    {
      assert Taken(s.bits, k + 1);
    }
    CountNone(range);
  }

  lemma FewerHolders(s: State, modes: seq<Mode>, i: nat)
    requires i < |modes| == |s.threads| && modes[i] == Sending && Held(s.threads[i].pc) == 0
    requires forall k :: 0 <= k < |modes| ==> s.threads[k].mode == modes[k]
    ensures |Holders(s, Sending)| < |Requests(modes, Sending)|
  {
    var senders := Requests(modes, Sending);
    assert i in senders && Holders(s, Sending) <= senders - {i};
    SubsetSize(Holders(s, Sending), senders - {i});
  }

  /** When the table is not a unicast table, or has a slot for each sender, nobody is ever
      stuck. */
  lemma NobodyStuck(s: State, modes: seq<Mode>, i: nat)
    requires Inv(s) && |modes| == |s.threads| && forall k :: 0 <= k < |modes| ==> s.threads[k].mode == modes[k]
    requires s.kind == Broadcast || |Requests(modes, Sending)| < |s.bits|
    ensures !Stuck(s, i)
  {
    if Stuck(s, i) {
      StuckMeansHeld(s, i);
      FewerHolders(s, modes, i);
      assert false;
    }
  }

  /** How far a thread is from having finished. */
  function Distance(size: nat, pc: Pc): int {
    match pc
    case AtExchange => size + 5
    case Scanning(p) => if p <= size + 1 then size + 4 - p else 3
    case Claiming(_) => 2
    case Unlocking(_) => 1
    case Done(_) => 0
  }

  function Total(size: nat, threads: seq<Thread>): (d: int)
    ensures d >= 0
  {
    if threads == [] then 0 else Distance(size, threads[0].pc) + Total(size, threads[1..])
  }

  lemma {:induction false} TotalUpdate(size: nat, threads: seq<Thread>, i: nat, th: Thread)
    requires i < |threads|
    ensures Total(size, threads[i := th]) ==
            Total(size, threads) - Distance(size, threads[i].pc) + Distance(size, th.pc)
  {
    var u := threads[i := th];
    if i == 0 {
      assert u[1..] == threads[1..];
    } else {
      assert u[1..] == threads[1..][i - 1 := th];
      TotalUpdate(size, threads[1..], i - 1, th);
    }
  }

  lemma StepNearer(s: State, i: nat)
    requires TableSize(|s.bits|) && Enabled(s, i) && ThreadOk(s, s.threads[i])
    requires s.threads[i].pc.AtExchange? ==> s.lock == 0
    ensures Distance(|s.bits|, Apply(s, i).threads[i].pc) < Distance(|s.bits|, s.threads[i].pc)
  {
    RangesApart(s);
  }

  /** The spin lock always lets somebody on: the thread inside it or, if there is none, any
      that has not finished. */
  lemma SomeoneAdvances(s: State) returns (i: nat)
    requires Inv(s) && (forall j: nat :: !Stuck(s, j))
    requires exists j: nat :: j < |s.threads| && !s.threads[j].pc.Done?
    ensures Enabled(s, i)
    ensures Distance(|s.bits|, Apply(s, i).threads[i].pc) < Distance(|s.bits|, s.threads[i].pc)
  {
    if s.lock != 0 {
      i :| i < |s.threads| && Inside(s.threads[i].pc);
    } else {
      i :| i < |s.threads| && !s.threads[i].pc.Done?;
    }
    assert !Stuck(s, i) && ThreadOk(s, s.threads[i]);
    StepNearer(s, i);
  }

  ghost predicate AllDone(s: State) {
    forall i: nat :: i < |s.threads| ==> s.threads[i].pc.Done?
  }

  lemma Advance(s: State) returns (i: nat)
    requires Inv(s) && (forall j: nat :: !Stuck(s, j)) && !AllDone(s)
    ensures Enabled(s, i) && Inv(Apply(s, i)) && Same(s, Apply(s, i))
    ensures Total(|s.bits|, Apply(s, i).threads) < Total(|s.bits|, s.threads)
  {
    i := SomeoneAdvances(s);
    StepKeepsInv(s, i);
    TotalUpdate(|s.bits|, s.threads, i, Apply(s, i).threads[i]);
  }

  /** A run that goes on for as long as it can ends with all threads finished, or one stuck. */
  lemma {:induction false} RunToEnd(s: State) returns (schedule: seq<nat>, t: State)
    requires Inv(s)
    ensures Runs(s, schedule, t) && Inv(t) && Same(s, t)
    ensures AllDone(t) || exists i: nat :: Stuck(t, i)
    decreases Total(|s.bits|, s.threads)
  {
    if (exists i: nat :: Stuck(s, i)) || AllDone(s) {
      schedule, t := [], s;
    } else {
      var i := Advance(s);
      var rest;
      rest, t := RunToEnd(Apply(s, i));
      schedule := [i] + rest;
      assert schedule[1..] == rest;
    }
  }

  /** From every reachable state of a broadcast table, or of a unicast table with a slot for
      each sender, some schedule finishes every connect. */
  lemma AllCanFinish(kind: Kind, max: nat, modes: seq<Mode>, s: State)
    requires TableSize(max) && Reachable(kind, max, modes, s)
    requires kind == Broadcast || |Requests(modes, Sending)| < max
    ensures exists schedule: seq<nat>, t: State :: Runs(s, schedule, t) && AllDone(t)
  {
    ReachableInv(kind, max, modes, s);
    var schedule, t := RunToEnd(s);
    forall i: nat
      ensures !Stuck(t, i)
    {
      NobodyStuck(t, modes, i);
    }
  }

  /** As long as there are fewer senders than slots, a unicast sender always finds one,
      and the search never runs off its range. */
  lemma UnicastSenderFindsSlot(max: nat, modes: seq<Mode>, s: State, i: nat)
    requires TableSize(max) && Reachable(Unicast, max, modes, s) && i < |modes|
    requires |Requests(modes, Sending)| < max
    ensures |s.threads| == |modes|
    ensures Enabled(s, i) || s.threads[i].pc.Done?
  {
    ReachableInv(Unicast, max, modes, s);
    NobodyStuck(s, modes, i);
  }

  /** When all have finished, every sender of a unicast table has a slot of its own. */
  lemma DoneSendersHold(s: State, modes: seq<Mode>)
    requires Inv(s) && s.kind == Unicast && AllDone(s)
    requires |modes| == |s.threads| && forall k :: 0 <= k < |modes| ==> s.threads[k].mode == modes[k]
    ensures |Requests(modes, Sending)| < |s.bits|
  {
    forall i | i in Requests(modes, Sending)
      ensures i in Holders(s, Sending)
    {
      assert ThreadOk(s, s.threads[i]);
    }
    SubsetSize(Requests(modes, Sending), Holders(s, Sending));
    RangesApart(s);
    CountNone(s.bits[Lo(s, Sending) - 1..Hi(s, Sending) - 1]);
  }

  /** Some interleaving makes a unicast sender write outside the table if and only if there
      are at least as many senders as slots. */
  lemma UnicastStuckIff(max: nat, modes: seq<Mode>)
    requires TableSize(max)
    ensures (exists s: State, i: nat :: Reachable(Unicast, max, modes, s) && Stuck(s, i))
            <==> |Requests(modes, Sending)| >= max
  {
    if |Requests(modes, Sending)| >= max {
      StartInv(Unicast, max, modes);
      var schedule, t := RunToEnd(Start(Unicast, max, modes));
      assert Reachable(Unicast, max, modes, t);
      if AllDone(t) {
        DoneSendersHold(t, modes);
        assert false;
      }
    } else if s: State, i: nat :| Reachable(Unicast, max, modes, s) && Stuck(s, i) {
      ReachableInv(Unicast, max, modes, s);
      NobodyStuck(s, modes, i);
      assert false;
    }
  }

  // ----- how many can connect

  /** How many connections of a kind a table has room for: a unicast table for one receiver and
      otherwise senders, a broadcast table for half receivers and one sender fewer. */
  function Room(kind: Kind, mode: Mode, max: nat): nat
    requires TableSize(max)
  {
    match (kind, mode)
    case (Unicast, Sending) => max - 1
    case (Unicast, Receiving) => 1
    case (Broadcast, Sending) => max / 2 - 1
    case (Broadcast, Receiving) => max / 2
  }

  lemma AllTaken(bits: seq<bool>, lo: nat, hi: nat)
    requires 0 < lo <= hi <= |bits| + 1
    ensures Count(bits[lo - 1..hi - 1]) <= hi - lo
    ensures (forall p: nat :: lo <= p < hi ==> Taken(bits, p)) <==> Count(bits[lo - 1..hi - 1]) == hi - lo
  {
    var range := bits[lo - 1..hi - 1];
    CountNone(range);
    if Count(range) == hi - lo {
      forall p: nat | lo <= p < hi
        ensures Taken(bits, p)
      {
        assert range[p - lo];
      }
    } else if forall p: nat :: lo <= p < hi ==> Taken(bits, p) {
      var k :| 0 <= k < |range| && !range[k];
      assert !Taken(bits, lo + k);
    }
  }

  lemma RangeFullIff(s: State, mode: Mode)
    requires TableSize(|s.bits|) && RangeOk(s, mode)
    ensures |Holders(s, mode)| <= Room(s.kind, mode, |s.bits|)
    ensures Full(s, mode) <==> |Holders(s, mode)| == Room(s.kind, mode, |s.bits|)
  {
    RangesApart(s);
    AllTaken(s.bits, Lo(s, mode), Hi(s, mode));
  }

  /** No more than that ever connect, and only where so many have is a request refused. */
  lemma RefusedIfNoRoom(kind: Kind, max: nat, modes: seq<Mode>, s: State, i: nat)
    requires TableSize(max) && Reachable(kind, max, modes, s) && i < |modes|
    ensures |s.threads| == |modes|
    ensures |Holders(s, modes[i])| <= Room(kind, modes[i], max)
    ensures s.threads[i].pc == Done(0) ==> |Holders(s, modes[i])| == Room(kind, modes[i], max)
  {
    ReachableInv(kind, max, modes, s);
    assert ThreadOk(s, s.threads[i]);
    RangeFullIff(s, modes[i]);
  }

  /** When all have finished, as many have connected as asked to, up to the room there is. */
  lemma ConnectedWhenDone(kind: Kind, max: nat, modes: seq<Mode>, s: State, mode: Mode)
    requires TableSize(max) && Reachable(kind, max, modes, s) && AllDone(s)
    ensures var asked, room := |Requests(modes, mode)|, Room(kind, mode, max);
      |Holders(s, mode)| == if asked <= room then asked else room
  {
    ReachableInv(kind, max, modes, s);
    RangeFullIff(s, mode);
    SubsetSize(Holders(s, mode), Requests(modes, mode));
    if !Full(s, mode) {
      forall i | i in Requests(modes, mode)
        ensures i in Holders(s, mode)
      {
        assert ThreadOk(s, s.threads[i]);
      }
      assert Holders(s, mode) == Requests(modes, mode);
    }
  }

  /** recv_count() of a unicast table is the number of receivers. */
  lemma UnicastReceiverCount(max: nat, modes: seq<Mode>, s: State)
    requires TableSize(max) && Reachable(Unicast, max, modes, s)
    ensures |s.bits| > 0 && ReceiverCount(Unicast, s.bits) == |Holders(s, Receiving)|
  {
    ReachableInv(Unicast, max, modes, s);
    UnicastCount(s);
  }

  lemma UnicastCount(s: State)
    requires TableSize(|s.bits|) && s.kind == Unicast && RangeOk(s, Receiving)
    ensures ReceiverCount(Unicast, s.bits) == |Holders(s, Receiving)|
  {
    CountIsSize(s.bits, |s.bits|, |s.bits| + 1);
  }

  /** recv_count() of a broadcast table shifts the receivers' half out: it is the number
      of senders, plus one when there is any receiver at all. */
  lemma BroadcastReceiverCount(max: nat, modes: seq<Mode>, s: State)
    requires TableSize(max) && Reachable(Broadcast, max, modes, s)
    ensures |s.bits| > 0
    ensures ReceiverCount(Broadcast, s.bits) ==
            |Holders(s, Sending)| + if Holders(s, Receiving) == {} then 0 else 1
  {
    ReachableInv(Broadcast, max, modes, s);
    BroadcastCount(s);
  }

  lemma BroadcastCount(s: State)
    requires TableSize(|s.bits|) && s.kind == Broadcast && RangeOk(s, Sending) && RangeOk(s, Receiving)
    ensures ReceiverCount(Broadcast, s.bits) ==
            |Holders(s, Sending)| + if Holders(s, Receiving) == {} then 0 else 1
  {
    LowHalfCount(s.bits);
    FirstReceiver(s);
    var h := |s.bits| / 2;
    assert s.bits[0..h - 1] == s.bits[..h - 1];
  }

  /** The lower half is the senders' slots and the first of the receivers'. */
  lemma LowHalfCount(bits: seq<bool>)
    requires TableSize(|bits|)
    ensures var h := |bits| / 2;
      ReceiverCount(Broadcast, bits) == Count(bits[..h - 1]) + if bits[h - 1] then 1 else 0
  {
    var h := |bits| / 2;
    assert |bits| - |bits| / 2 == h;
    CountIsSize(bits, 1, h + 1);
    assert bits[0..h] == bits[..h - 1] + [bits[h - 1]];
    CountAppend(bits[..h - 1], [bits[h - 1]]);
    CountOne(bits[h - 1]);
  }

  /** The first receiver slot is in use as soon as any receiver slot is. */
  lemma FirstReceiver(s: State)
    requires TableSize(|s.bits|) && s.kind == Broadcast && RangeOk(s, Receiving)
    ensures s.bits[|s.bits| / 2 - 1] <==> Holders(s, Receiving) != {}
  {
    var lo, hi := Lo(s, Receiving), Hi(s, Receiving);
    var range := s.bits[lo - 1..hi - 1];
    CountNone(range);
    if Holders(s, Receiving) != {} {
      var k :| 0 <= k < |range| && range[k];
      assert Taken(s.bits, lo + k);
      assert k == 0 || Taken(s.bits, lo);
    } else {
      assert !range[0];
    }
  }
}
