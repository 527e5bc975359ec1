/** Slot allocation in a connection table, updated in place.

The table has one bit per slot and hands out slot numbers counted from one.  A unicast
table reserves its last slot for the one receiver; a broadcast table gives the lower half
to senders and the upper half to receivers.
*/
module Connection {

  datatype Kind = Unicast | Broadcast

  datatype Mode = Sending | Receiving

  /** The slots that a request is served from: low to high, high excluded. */
  function Low(kind: Kind, mode: Mode, max: nat): nat {
    if mode == Sending then 1 else if kind == Unicast then max else max / 2
  }

  function High(kind: Kind, mode: Mode, max: nat): nat {
    if kind == Unicast then (if mode == Sending then max else max + 1)
    else if mode == Sending then max / 2 else max
  }

  /** A table size for which the source's own check holds and each half has a slot. */
  predicate TableSize(max: nat) {
    max % 2 == 0 && 4 <= max
  }

  /** Slot p is in use. */
  predicate Taken(bits: seq<bool>, p: nat) {
    0 < p <= |bits| && bits[p - 1]
  }

  /** The least free slot from low on, below high, or zero. */
  function FirstFree(bits: seq<bool>, low: nat, high: nat): (id: nat)
    requires 0 < low <= high <= |bits| + 1
    ensures id == 0 <==> forall p: nat :: low <= p < high ==> Taken(bits, p)
    ensures id != 0 ==> low <= id < high && !Taken(bits, id) && forall p: nat :: low <= p < id ==> Taken(bits, p)
    decreases high - low
  {
    if low == high then 0
    else if !Taken(bits, low) then low
    else FirstFree(bits, low + 1, high)
  }

  function Count(bits: seq<bool>): nat {
    if bits == [] then 0 else (if bits[0] then 1 else 0) + Count(bits[1..])
  }

  /** std::bitset's left shift: towards the higher positions, filling with zeros. */
  function ShiftLeft(bits: seq<bool>, k: nat): seq<bool>
    requires k <= |bits|
  {
    seq(k, i => false) + bits[..|bits| - k]
  }

  /** The slots in use from lo on, below hi. */
  ghost function TakenSlots(bits: seq<bool>, lo: nat, hi: nat): set<nat> {
    set p: nat | lo <= p < hi && Taken(bits, p)
  }

  /** How many slots recv_count() counts: the last one of a unicast table, and the lower half
      of a broadcast table. */
  ghost function ReceiverCount(kind: Kind, bits: seq<bool>): nat {
    if kind == Unicast then |TakenSlots(bits, |bits|, |bits| + 1)|
    else |TakenSlots(bits, 1, |bits| - |bits| / 2 + 1)|
  }

  /** Asking for a slot that the source takes to exist. */
  predicate MustFind(kind: Kind, mode: Mode) {
    kind == Unicast && mode == Sending
  }

  lemma {:induction false} CountAppend(a: seq<bool>, b: seq<bool>)
    ensures Count(a + b) == Count(a) + Count(b)
  {
    if a == [] {
      assert a + b == b;
    } else {
      assert (a + b)[1..] == a[1..] + b;
      CountAppend(a[1..], b);
    }
  }

  lemma {:induction false} CountNone(bits: seq<bool>)
    ensures Count(bits) == 0 <==> forall i :: 0 <= i < |bits| ==> !bits[i]
    ensures Count(bits) == |bits| <==> forall i :: 0 <= i < |bits| ==> bits[i]
    ensures Count(bits) <= |bits|
  {
    if bits != [] {
      CountNone(bits[1..]);
      assert bits == [bits[0]] + bits[1..];
    }
  }

  lemma {:induction false} CountSet(bits: seq<bool>, i: nat)
    requires i < |bits| && !bits[i]
    ensures Count(bits[i := true]) == Count(bits) + 1
  {
    if i == 0 {
      assert bits[i := true][1..] == bits[1..];
    } else {
      assert bits[i := true][1..] == bits[1..][i - 1 := true];
      CountSet(bits[1..], i - 1);
    }
  }

  lemma CountThree(bits: seq<bool>, k: nat, l: nat)
    requires k <= l <= |bits|
    ensures Count(bits) == Count(bits[..k]) + Count(bits[k..l]) + Count(bits[l..])
  {
    assert bits == bits[..k] + bits[k..];
    CountAppend(bits[..k], bits[k..]);
    assert bits[k..] == bits[k..l] + bits[l..];
    CountAppend(bits[k..l], bits[l..]);
  }

  lemma CountOne(b: bool)
    ensures Count([b]) == if b then 1 else 0
  {
    assert [b][1..] == [];
  }

  lemma {:induction false} CountIsSize(bits: seq<bool>, lo: nat, hi: nat)
    requires 1 <= lo <= hi <= |bits| + 1
    ensures Count(bits[lo - 1..hi - 1]) == |TakenSlots(bits, lo, hi)|
  {
    if lo == hi {
      assert TakenSlots(bits, lo, hi) == {};
    } else {
      CountIsSize(bits, lo, hi - 1);
      assert bits[lo - 1..hi - 1] == bits[lo - 1..hi - 2] + [bits[hi - 2]];
      CountAppend(bits[lo - 1..hi - 2], [bits[hi - 2]]);
      CountOne(bits[hi - 2]);
      var fewer := TakenSlots(bits, lo, hi - 1);
      assert TakenSlots(bits, lo, hi) == if bits[hi - 2] then fewer + {hi - 1} else fewer;
    }
  }

  /** The shift drops the upper positions. */
  lemma ShiftedCount(bits: seq<bool>, k: nat)
    requires k <= |bits|
    ensures Count(ShiftLeft(bits, k)) == Count(bits[..|bits| - k])
  {
    var zeros := seq(k, i => false);
    CountAppend(zeros, bits[..|bits| - k]);
    CountNone(zeros);
  }

  class Table {
    const kind: Kind
    const cc: array<bool>

    constructor (kind: Kind, max: nat)
      requires TableSize(max)
      ensures this.kind == kind && cc[..] == seq(max, i => false) && fresh(cc)
    {
      this.kind := kind;
      cc := new bool[max](i => false);
    }

    /** The search loop that both kinds run over a range of slots. */
    method Search(low: nat, high: nat) returns (pos: nat)
      requires 0 < low <= high <= cc.Length + 1
      ensures pos == FirstFree(cc[..], low, high)
    {
      pos := 0;
      var i := low;
      while i < high
        invariant low <= i <= high
        invariant forall p: nat :: low <= p < i ==> Taken(cc[..], p)
      {
        if !cc[i - 1] {
          pos := i;
          assert !Taken(cc[..], pos);
          break;
        }
        assert Taken(cc[..], i);
        i := i + 1;
      }
    }

    /** connect.  The slot returned was the least free one of its range, and is now taken;
        a full range gives zero.  A unicast sender that finds no slot makes the code write at
        index zero less one, which in 32 bits is far behind the table: stray tells that it
        does, and the table stays as it is. */
    method Connect(mode: Mode) returns (id: nat, stray: bool)
      requires TableSize(cc.Length)
      modifies cc
      ensures id == FirstFree(old(cc[..]), Low(kind, mode, cc.Length), High(kind, mode, cc.Length))
      ensures cc[..] == if id == 0 then old(cc[..]) else old(cc[..])[id - 1 := true]
      ensures stray <==> MustFind(kind, mode) && forall p: nat :: 1 <= p < cc.Length ==> Taken(old(cc[..]), p)
    {
      stray := false;
      if kind == Unicast && mode == Receiving {
        if cc[cc.Length - 1] {
          return 0, false;
        }
        id := cc.Length;
      } else {
        id := Search(Low(kind, mode, cc.Length), High(kind, mode, cc.Length));
      }
      if id != 0 {
        cc[id - 1] := true;
      } else {
        stray := MustFind(kind, mode);
      }
    }

    /** recv_count.  In a broadcast table the shift leaves the lower half, which is the
        senders' and the first receiver's. */
    method RecvCount() returns (n: nat)
      requires cc.Length > 0
      ensures kind == Unicast ==> (n == 1 <==> Taken(cc[..], cc.Length)) && n <= 1
      ensures kind == Broadcast ==> n == |set p: nat | 1 <= p <= cc.Length - cc.Length / 2 && Taken(cc[..], p)|
      ensures n == ReceiverCount(kind, cc[..])
    {
      ghost var bits, half := cc[..], cc.Length - cc.Length / 2;
      if kind == Unicast {
        n := if cc[cc.Length - 1] then 1 else 0;
        CountIsSize(bits, |bits|, |bits| + 1);
        assert bits[|bits| - 1..|bits|] == [bits[|bits| - 1]];
        CountOne(bits[|bits| - 1]);
      } else {
        n := Count(ShiftLeft(cc[..], cc.Length / 2));
        ShiftedCount(bits, |bits| / 2);
        CountIsSize(bits, 1, half + 1);
        assert bits[0..half] == bits[..half];
        assert TakenSlots(bits, 1, half + 1) == set p: nat | 1 <= p <= half && Taken(bits, p);
      }
    }

    method Connections() returns (n: nat)
      ensures n == Count(cc[..]) == |TakenSlots(cc[..], 1, cc.Length + 1)|
    {
      n := 0;
      for i := 0 to cc.Length
        invariant n == Count(cc[..i])
      {
        assert cc[..i + 1] == cc[..i] + [cc[i]];
        CountAppend(cc[..i], [cc[i]]);
        if cc[i] {
          n := n + 1;
        }
      }
      assert cc[..] == cc[..cc.Length] == cc[..][0..cc.Length];
      CountIsSize(cc[..], 1, cc.Length + 1);
    }
  }
}
