/** The segment and the queue that a process keeps on it, updated in place. */
module Ring {
  import opened Words
  import opened Connection
  import H = Handover
  import F = Fragment

  /** The slot of the m-th entry. */
  function SlotFor(base: nat, m: nat): (slot: nat)
    ensures slot < SLOTS
  {
    Low8(base + m)
  }

  /** The slots hold the last 255 entries. */
  ghost predicate Window(slots: seq<Descriptor>, base: nat, pushed: seq<Descriptor>) {
    |slots| == SLOTS &&
    forall m: nat {:trigger SlotFor(base, m)} :: m < |pushed| <= m + CAPACITY ==> slots[SlotFor(base, m)] == pushed[m]
  }

  lemma WindowMoves(slots: seq<Descriptor>, base: nat, pushed: seq<Descriptor>, d: Descriptor)
    requires Window(slots, base, pushed)
    ensures Window(slots[SlotFor(base, |pushed|) := d], base, pushed + [d])
  {
    var more := pushed + [d];
    forall m: nat | m < |more| <= m + CAPACITY
      ensures slots[SlotFor(base, |pushed|) := d][SlotFor(base, m)] == more[m]
    {
      SameSlot(base, m, |pushed|);
    }
  }

  /** Content and Segment: the two counters, the 256 slots and the connection table. */
  class Segment {
    var r: nat
    var w: nat
    const block: array<Descriptor>
    const table: Table
    ghost var base: nat               // what both counters started from
    ghost var pushed: seq<Descriptor> // everything ever pushed
    ghost var freed: nat              // how many slots have been given back

    ghost predicate Valid()
      reads this, block
    {
      && block.Length == SLOTS
      && w == Wrap32(base + |pushed|)
      && r == Wrap32(base + freed)
      && freed <= |pushed| <= freed + CAPACITY
      && Window(block[..], base, pushed)
    }

    constructor (kind: Kind, max: nat, base: nat)
      requires TableSize(max)
      ensures Valid() && this.base == base && pushed == [] && freed == 0
      ensures fresh(block) && fresh(table) && fresh(table.cc)
      ensures table.kind == kind && table.cc[..] == seq(max, i => false)
    {
      block := new Descriptor[SLOTS](i => Descriptor(0, 0, 0));
      table := new Table(kind, max);
      r, w := Wrap32(base), Wrap32(base);
      this.base, pushed, freed := base, [], 0;
    }

    /** push fails exactly when 255 entries are outstanding; otherwise it appends. */
    method Push(d: Descriptor) returns (ok: bool)
      requires Valid()
      modifies this`w, this`pushed, block
      ensures Valid()
      ensures ok <==> old(|pushed|) - freed < CAPACITY
      ensures pushed == if ok then old(pushed) + [d] else old(pushed)
    {
      FullTestMeans(base, freed, |pushed|);
      Low8OfWrap(base + |pushed|);
      WrapStep(base + |pushed|);
      var slot := Low8(w);
      if slot == Low8(Wrap32(r - 1)) {
        return false;
      }
      WindowMoves(block[..], base, pushed, d);
      block[slot] := d;
      w := Wrap32(w + 1);
      pushed := pushed + [d];
      return true;
    }

    /** A slot is given back. */
    method Free()
      requires Valid() && freed < |pushed|
      modifies this`r, this`freed
      ensures Valid() && freed == old(freed) + 1
    {
      WrapStep(base + freed);
      r := Wrap32(r + 1);
      freed := freed + 1;
    }
  }

  /** QueueBase: one process's view of a segment, with its private cursor. */
  class Queue {
    const segment: Segment
    var connectedId: nat
    var cursor: nat
    ghost var taken: nat   // how many entries the cursor has passed

    ghost predicate Valid()
      reads this, segment, segment.block
    {
      && segment.Valid()
      && segment.freed <= taken <= |segment.pushed|
      && cursor == Wrap32(segment.base + taken)
    }

    /** What this queue has still to take. */
    ghost function Outstanding(): seq<Descriptor>
      requires Valid()
      reads this, segment, segment.block
    {
      segment.pushed[taken..]
    }

    constructor (segment: Segment)
      requires segment.Valid()
      ensures this.segment == segment && connectedId == 0
    {
      this.segment := segment;
      connectedId := 0;
      cursor := 0;
      taken := 0;
    }

    /** The first successful connect starts the cursor at the read counter, so that nothing
        still in the ring is missed; a connected queue is left as it is.  stray tells of a
        write outside the table. */
    method Connect(mode: Mode) returns (ok: bool, stray: bool)
      requires segment.Valid() && TableSize(segment.table.cc.Length)
      requires connectedId != 0 ==> Valid()
      modifies this`connectedId, this`cursor, this`taken, segment.table.cc
      ensures ok <==> connectedId != 0
      ensures stray <==> !ok && MustFind(segment.table.kind, mode)
      ensures segment.Valid() && (ok ==> Valid())
      ensures taken == if ok && old(connectedId) == 0 then segment.freed else old(taken)
      ensures old(connectedId) != 0 ==> connectedId == old(connectedId)
                                        && segment.table.cc[..] == old(segment.table.cc[..])
      ensures old(connectedId) == 0 ==>
                var bits := old(segment.table.cc[..]);
                var kind := segment.table.kind;
                && connectedId == FirstFree(bits, Low(kind, mode, |bits|), High(kind, mode, |bits|))
                && segment.table.cc[..] == if ok then bits[connectedId - 1 := true] else bits
    {
      if connectedId != 0 {
        return true, false;
      }
      connectedId, stray := segment.table.Connect(mode);
      if connectedId != 0 {
        cursor := segment.r;
        taken := segment.freed;
      }
      ok := connectedId != 0;
    }

    /** The 32-bit test: empty exactly when nothing is outstanding. */
    predicate Empty()
      requires Valid()
      reads this, segment, segment.block
      ensures Empty() <==> Outstanding() == []
    {
      EmptyTestMeans(segment.base, taken, |segment.pushed|);
      cursor == segment.w
    }

    /** pop's own test, on eight bits, which agrees with it. */
    predicate EmptyAgain()
      requires Valid()
      reads this, segment, segment.block
      ensures EmptyAgain() <==> Outstanding() == []
    {
      EmptyTestMeans(segment.base, taken, |segment.pushed|);
      EmptyTest8(cursor, segment.w)
    }

    /** What the cursor's slot holds: the oldest outstanding entry, if there is one. */
    function Front(): (d: Descriptor)
      requires Valid()
      reads this, segment, segment.block
      ensures Outstanding() != [] ==> d == Outstanding()[0]
    {
      Low8OfWrap(segment.base + taken);
      assert SlotFor(segment.base, taken) == Low8(cursor);
      segment.block[Low8(cursor)]
    }

    /** Copies the oldest outstanding entry out and moves the cursor past it. */
    method Take() returns (item: Descriptor)
      requires Valid() && Outstanding() != []
      modifies this`cursor, this`taken
      ensures Valid() && item == old(Outstanding())[0]
      ensures Outstanding() == old(Outstanding())[1..] && taken == old(taken) + 1
    {
      item := Front();
      WrapStep(segment.base + taken);
      cursor := Wrap32(cursor + 1);
      taken := taken + 1;
    }

    /** What pop does with an entry it has taken: the fragment reads it, and the slot is
        given back if the payload's count is now zero.  stray tells of a descriptor that does not
        lie within its object. */
    method HandOver(item: Descriptor, frag: F.Receiver, found: Option<array<byte>>)
      returns (released: bool, stray: bool)
      requires Valid() && segment.freed < taken
      modifies segment`r, segment`freed, frag, frag.Touched(item.id, found)
      ensures Valid() && Outstanding() == old(Outstanding())
      ensures segment.pushed == old(segment.pushed) && segment.base == old(segment.base)
      ensures segment.freed == old(segment.freed) + if released then 1 else 0
      ensures frag.given == old(frag.given) + [item]
      ensures F.HandlesAfter(old(frag.handles), frag.handles, item, found)
      ensures stray <==> !old(F.Readable(frag, item, found))
      ensures !stray ==>
        H.DidRead(item, old(F.Contents(frag.Source(item.id, found))), old(frag.shown),
                  F.Contents(old(frag.Source(item.id, found))), frag.shown, released)
    {
      released, stray := frag.Read(item, found, true);
      if released {
        segment.Free();
      }
    }

    /** pop takes the oldest outstanding entry and hands it over, if there is one. */
    method Pop(frag: F.Receiver, found: Option<array<byte>>) returns (ok: bool, released: bool, stray: bool)
      requires Valid()
      modifies this`cursor, this`taken, segment`r, segment`freed
      modifies frag, if Outstanding() == [] then {} else frag.Touched(Outstanding()[0].id, found)
      ensures Valid() && segment.pushed == old(segment.pushed) && segment.base == old(segment.base)
      ensures ok <==> old(Outstanding()) != []
      ensures ok ==> Outstanding() == old(Outstanding())[1..] && taken == old(taken) + 1
      ensures ok ==> frag.given == old(frag.given) + [old(Outstanding())[0]]
      ensures ok ==> F.HandlesAfter(old(frag.handles), frag.handles, old(Outstanding())[0], found)
      ensures stray <==> ok && !old(F.Readable(frag, Outstanding()[0], found))
      ensures ok && !stray ==>
        H.DidRead(old(Outstanding())[0],
                  old(F.Contents(frag.Source(Outstanding()[0].id, found))), old(frag.shown),
                  F.Contents(old(frag.Source(Outstanding()[0].id, found))), frag.shown, released)
      ensures !ok ==> frag.given == old(frag.given) && frag.shown == old(frag.shown)
                      && frag.handles == old(frag.handles) && taken == old(taken)
      ensures segment.freed == old(segment.freed) + if released then 1 else 0
    {
      if EmptyAgain() {
        return false, false, false;
      }
      ghost var src := frag.Source(Outstanding()[0].id, found);
      var item := Take();
      assert frag.Source(item.id, found) == src;
      released, stray := HandOver(item, frag, found);
      ok := true;
    }
  }
}
