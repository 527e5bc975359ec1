/** What a receiver's fragment does with a sequence of descriptors, on values. */
module Handover {
  import opened Words
  import opened Payloads

  /** The objects that can be opened, by the sender that owns them. */
  type Memory = map<nat, Bytes>

  /** A descriptor as senders make them: if its object can be opened, it lies within. */
  predicate Inside(obj: Option<Bytes>, d: Descriptor) {
    obj.Some? ==> COUNT_SIZE <= d.length && d.offset + d.length <= |obj.value|
  }

  function Opened(mem: Memory, id: nat): Option<Bytes> {
    if id in mem then Some(mem[id]) else None
  }

  predicate AllInside(mem: Memory, ds: seq<Descriptor>) {
    forall k :: 0 <= k < |ds| ==> Inside(Opened(mem, ds[k].id), ds[k])
  }

  /** Fragment::read on the object it opened: what is left of the object, what the callback
      has been shown so far, and whether the payload's count is now zero.  An empty payload
      is not shown, but counted. */
  function ReadSpec(obj: Option<Bytes>, d: Descriptor, shown: seq<Bytes>): (Option<Bytes>, seq<Bytes>, bool)
    requires Inside(obj, d)
  {
    match obj
    case None => (None, shown, false)
    case Some(b) =>
      var c := CountedDown(b, d.offset);
      (Some(c),
       if d.length == COUNT_SIZE then shown else shown + [Seen(b, d.offset, d.length)],
       Load32(c, d.offset) == 0)
  }

  /** A read of d found this object and left this one. */
  ghost predicate DidRead(d: Descriptor, before: Option<Bytes>, shown: seq<Bytes>,
                          after: Option<Bytes>, now: seq<Bytes>, zero: bool) {
    Inside(before, d) && (after, now, zero) == ReadSpec(before, d, shown)
  }

  /** ReadSpec among all the objects. */
  function ReadIn(mem: Memory, d: Descriptor, shown: seq<Bytes>): (r: (Memory, seq<Bytes>, bool))
    requires Inside(Opened(mem, d.id), d)
    ensures r.0.Keys == mem.Keys && forall id :: id in mem ==> |r.0[id]| == |mem[id]|
  {
    var (obj, seen, zero) := ReadSpec(Opened(mem, d.id), d, shown);
    (if obj.Some? then mem[d.id := obj.value] else mem, seen, zero)
  }

  function ReadNext(sofar: (Memory, seq<Bytes>, nat), d: Descriptor): (r: (Memory, seq<Bytes>, nat))
    requires Inside(Opened(sofar.0, d.id), d)
    ensures r.0.Keys == sofar.0.Keys && forall id :: id in sofar.0 ==> |r.0[id]| == |sofar.0[id]|
  {
    var (m, s, zero) := ReadIn(sofar.0, d, sofar.1);
    (m, s, sofar.2 + if zero then 1 else 0)
  }

  /** Reading the descriptors one after the other; the number counts the zeros found. */
  function HandOver(mem: Memory, ds: seq<Descriptor>, shown: seq<Bytes>): (r: (Memory, seq<Bytes>, nat))
    requires AllInside(mem, ds)
    ensures r.0.Keys == mem.Keys && forall id :: id in mem ==> |r.0[id]| == |mem[id]|
  {
    if ds == [] then (mem, shown, 0)
    else
      var k := |ds| - 1;
      assert Inside(Opened(mem, ds[k].id), ds[k]);
      ReadNext(HandOver(mem, ds[..k], shown), ds[k])
  }

  lemma HandOverNext(mem: Memory, ds: seq<Descriptor>, d: Descriptor, shown: seq<Bytes>)
    requires AllInside(mem, ds) && Inside(Opened(mem, d.id), d)
    ensures AllInside(mem, ds + [d])
    ensures var (m, s, n) := HandOver(mem, ds, shown);
      && Inside(Opened(m, d.id), d)
      && var (m1, s1, zero) := ReadIn(m, d, s);
         HandOver(mem, ds + [d], shown) == (m1, s1, n + if zero then 1 else 0)
  {
    var more := ds + [d];
    assert more[..|ds|] == ds && more[|ds|] == d;
    HandOverLast(mem, more, shown);
  }

  lemma HandOverLast(mem: Memory, ds: seq<Descriptor>, shown: seq<Bytes>)
    requires AllInside(mem, ds) && ds != []
    ensures var k := |ds| - 1;
      var sofar := HandOver(mem, ds[..k], shown);
      Inside(Opened(sofar.0, ds[k].id), ds[k]) && HandOver(mem, ds, shown) == ReadNext(sofar, ds[k])
  {
    InsideKept(mem, ds[..|ds| - 1], shown, ds[|ds| - 1]);
  }

  lemma InsideKept(mem: Memory, ds: seq<Descriptor>, shown: seq<Bytes>, d: Descriptor)
    requires AllInside(mem, ds) && Inside(Opened(mem, d.id), d)
    ensures Inside(Opened(HandOver(mem, ds, shown).0, d.id), d)
  {
    var after := HandOver(mem, ds, shown).0;
    assert d.id in after <==> d.id in mem.Keys;
  }

  // ----- what it means

  /** The payloads of the descriptors whose objects can be opened and that are not empty. */
  function Delivered(mem: Memory, ds: seq<Descriptor>): seq<Bytes>
    requires AllInside(mem, ds)
  {
    if ds == [] then []
    else
      var d := ds[|ds| - 1];
      assert Inside(Opened(mem, d.id), d);
      Delivered(mem, ds[..|ds| - 1])
      + if d.id in mem && d.length != COUNT_SIZE then [Seen(mem[d.id], d.offset, d.length)] else []
  }

  predicate LastUse(mem: Memory, d: Descriptor)
    requires Inside(Opened(mem, d.id), d)
  {
    d.id in mem && Load32(mem[d.id], d.offset) == 1
  }

  /** How many of the descriptors are counted one. */
  function LastUses(mem: Memory, ds: seq<Descriptor>): nat
    requires AllInside(mem, ds)
  {
    if ds == [] then 0
    else
      var d := ds[|ds| - 1];
      assert Inside(Opened(mem, d.id), d);
      LastUses(mem, ds[..|ds| - 1]) + if LastUse(mem, d) then 1 else 0
  }

  predicate Apart(c: Descriptor, d: Descriptor) {
    c.id != d.id || c.offset + c.length <= d.offset || d.offset + d.length <= c.offset
  }

  predicate AllApart(ds: seq<Descriptor>) {
    forall j, k :: 0 <= j < k < |ds| ==> Apart(ds[j], ds[k])
  }

  /** Reading one descriptor leaves the block of another as it is. */
  lemma ReadLeaves(mem: Memory, c: Descriptor, shown: seq<Bytes>, d: Descriptor, i: nat)
    requires Inside(Opened(mem, c.id), c) && Inside(Opened(mem, d.id), d) && d.id in mem
    requires Apart(c, d) && d.offset <= i < d.offset + d.length
    ensures ReadIn(mem, c, shown).0[d.id][i] == mem[d.id][i]
  {
  }

  /** So does reading any number of them. */
  lemma {:induction false} HandOverLeaves(mem: Memory, ds: seq<Descriptor>, shown: seq<Bytes>, d: Descriptor, i: nat)
    requires AllInside(mem, ds) && Inside(Opened(mem, d.id), d) && d.id in mem
    requires forall k :: 0 <= k < |ds| ==> Apart(ds[k], d)
    requires d.offset <= i < d.offset + d.length
    ensures HandOver(mem, ds, shown).0[d.id][i] == mem[d.id][i]
  {
    if ds != [] {
      var k := |ds| - 1;
      var c := ds[k];
      assert Inside(Opened(mem, c.id), c);
      HandOverLeaves(mem, ds[..k], shown, d, i);
      HandOverNext(mem, ds[..k], c, shown);
      assert ds[..k] + [c] == ds;
      var (m, s, _) := HandOver(mem, ds[..k], shown);
      ReadLeaves(m, c, s, d, i);
    }
  }

  lemma CountedDownLoad(b: Bytes, off: nat)
    requires off + COUNT_SIZE <= |b|
    ensures Load32(CountedDown(b, off), off) == Wrap32(Load32(b, off) - 1)
  {
    LoadStored(b, off, Wrap32(Load32(b, off) - 1));
  }

  lemma ZeroIffOne(b: Bytes, off: nat)
    requires off + COUNT_SIZE <= |b|
    ensures Load32(CountedDown(b, off), off) == 0 <==> Load32(b, off) == 1
  {
    CountedDownLoad(b, off);
    Load32Range(b, off);
  }

  /** One read of a block that is as it was at first shows that block, and finds zero
      exactly if the count was one. */
  lemma ReadFirst(mem: Memory, m: Memory, d: Descriptor, shown: seq<Bytes>)
    requires m.Keys == mem.Keys && forall id :: id in mem ==> |m[id]| == |mem[id]|
    requires Inside(Opened(mem, d.id), d)
    requires d.id in mem ==> forall i :: d.offset <= i < d.offset + d.length ==> m[d.id][i] == mem[d.id][i]
    ensures Inside(Opened(m, d.id), d)
    ensures var (m1, s1, zero) := ReadIn(m, d, shown);
      && s1 == shown + (if d.id in mem && d.length != COUNT_SIZE then [Seen(mem[d.id], d.offset, d.length)] else [])
      && (zero <==> LastUse(mem, d))
      && (d.id in mem ==> Load32(m1[d.id], d.offset) == Wrap32(Load32(mem[d.id], d.offset) - 1))
  {
    if d.id in mem {
      assert Seen(m[d.id], d.offset, d.length) == Seen(mem[d.id], d.offset, d.length);
      ZeroIffOne(m[d.id], d.offset);
      CountedDownLoad(m[d.id], d.offset);
    }
  }

  /** By the time the last descriptor is read, its block is still as it was at first. */
  lemma LastRead(mem: Memory, ds: seq<Descriptor>, shown: seq<Bytes>)
    requires AllInside(mem, ds) && AllApart(ds) && ds != []
    ensures var k := |ds| - 1; var d := ds[k];
      var (_, s, n) := HandOver(mem, ds[..k], shown);
      var (m1, s1, n1) := HandOver(mem, ds, shown);
      && Inside(Opened(mem, d.id), d)
      && s1 == s + (if d.id in mem && d.length != COUNT_SIZE then [Seen(mem[d.id], d.offset, d.length)] else [])
      && n1 == n + (if LastUse(mem, d) then 1 else 0)
      && (d.id in mem ==> Load32(m1[d.id], d.offset) == Wrap32(Load32(mem[d.id], d.offset) - 1))
  {
    var k := |ds| - 1;
    var d := ds[k];
    assert Inside(Opened(mem, d.id), d);
    var (m, s, _) := HandOver(mem, ds[..k], shown);
    forall i | d.id in mem && d.offset <= i < d.offset + d.length
      ensures m[d.id][i] == mem[d.id][i]
    {
      HandOverLeaves(mem, ds[..k], shown, d, i);
    }
    ReadFirst(mem, m, d, s);
  }

  /** Descriptors of blocks that lie apart: the callback is shown every payload as it was
      when the first of them was read, in order, and the reads that find zero are those of
      the blocks that were counted one. */
  lemma {:induction false} HandsOverPayloads(mem: Memory, ds: seq<Descriptor>, shown: seq<Bytes>)
    requires AllInside(mem, ds) && AllApart(ds)
    ensures HandOver(mem, ds, shown).1 == shown + Delivered(mem, ds)
    ensures HandOver(mem, ds, shown).2 == LastUses(mem, ds)
  {
    if ds != [] {
      HandsOverPayloads(mem, ds[..|ds| - 1], shown);
      LastRead(mem, ds, shown);
    }
  }

  /** Each of the blocks has been counted down once. */
  lemma {:induction false} HandOverCounts(mem: Memory, ds: seq<Descriptor>, shown: seq<Bytes>, k: nat)
    requires AllInside(mem, ds) && AllApart(ds) && k < |ds| && ds[k].id in mem
    ensures var d := ds[k]; var after := HandOver(mem, ds, shown).0[d.id];
      && Inside(Opened(mem, d.id), d)
      && Load32(after, d.offset) == Wrap32(Load32(mem[d.id], d.offset) - 1)
  {
    var d, last := ds[k], |ds| - 1;
    assert Inside(Opened(mem, d.id), d);
    if k == last {
      LastRead(mem, ds, shown);
    } else {
      HandOverCounts(mem, ds[..last], shown, k);
      assert ds[..last][k] == d;
      BlockLeft(mem, ds, shown, k);
      SameLoad(HandOver(mem, ds, shown).0[d.id], HandOver(mem, ds[..last], shown).0[d.id], d);
    }
  }

  /** The count of a block is in its bytes. */
  lemma SameLoad(a: Bytes, b: Bytes, d: Descriptor)
    requires Inside(Some(a), d) && Inside(Some(b), d)
    requires forall i :: d.offset <= i < d.offset + d.length ==> a[i] == b[i]
    ensures Load32(a, d.offset) == Load32(b, d.offset)
  {
    var s := a[d.offset..d.offset + d.length];
    assert s == b[d.offset..d.offset + d.length];
    assert Load32(a, d.offset) == Load32(s, 0) == Load32(b, d.offset);
  }

  /** The last read leaves the blocks of the earlier ones. */
  lemma BlockLeft(mem: Memory, ds: seq<Descriptor>, shown: seq<Bytes>, k: nat)
    requires AllInside(mem, ds) && AllApart(ds) && k < |ds| - 1 && ds[k].id in mem
    ensures var d := ds[k];
      && Inside(Opened(mem, d.id), d)
      && forall i :: d.offset <= i < d.offset + d.length ==>
           HandOver(mem, ds, shown).0[d.id][i] == HandOver(mem, ds[..|ds| - 1], shown).0[d.id][i]
  {
    var d, c := ds[k], ds[|ds| - 1];
    var (m, s, _) := HandOver(mem, ds[..|ds| - 1], shown);
    assert Inside(Opened(mem, d.id), d) && Inside(Opened(mem, c.id), c) && Apart(d, c);
    forall i | d.offset <= i < d.offset + d.length
      ensures ReadIn(m, c, s).0[d.id][i] == m[d.id][i]
    {
      ReadLeaves(m, c, s, d, i);
    }
  }
}
