/** The payload arena of one sender, on values.

A sender thread owns one shared memory object.  It bumps a monotonic pool over the whole
of it, puts a four-byte use counter in front of each payload, and keeps a table of the
blocks it has not yet seen drained.  Receivers write to the same bytes when they count a
payload down, and every handle on the object writes to its last four bytes.
*/
module Payloads {
  import opened Words
  import opened Resource

  const ALIGNMENT: nat := 16
  const COUNT_SIZE: nat := 4

  /** Bytes the pool is asked for: the payload and its counter, aligned. */
  function PoolSize(size: nat): nat {
    (size + COUNT_SIZE + ALIGNMENT - 1) / ALIGNMENT * ALIGNMENT
  }

  lemma PoolSizeBounds(size: nat)
    ensures PoolSize(size) % ALIGNMENT == 0
    ensures size + COUNT_SIZE <= PoolSize(size) < size + COUNT_SIZE + ALIGNMENT
  {
  }

  /** The masking that align_size does on 64-bit words is this rounding, for every
      payload that fits the address space. */
  lemma PoolSizeIsAlignSize(size: nat)
    requires size + COUNT_SIZE + ALIGNMENT <= Pow2(64)
    ensures AlignSize(64, size + COUNT_SIZE, Pow2(4)) == PoolSize(size)
  {
    AlignSizeRoundsUp(64, size + COUNT_SIZE, 4);
    PoolSizeBounds(size);
    OneMultiple(AlignSize(64, size + COUNT_SIZE, Pow2(4)), PoolSize(size), size + COUNT_SIZE);
  }

  lemma OneMultiple(a: nat, b: nat, low: nat)
    requires a % ALIGNMENT == 0 && b % ALIGNMENT == 0
    requires low <= a < low + ALIGNMENT && low <= b < low + ALIGNMENT
    ensures a == b
  {
  }

  // ----- bytes

  function Word32(v: nat): (r: Bytes)
    requires v < WORD
    ensures |r| == 4
  {
    var second := v / 256;
    var third := second / 256;
    [v % 256, second % 256, third % 256, third / 256]
  }

  function Load32(mem: Bytes, off: nat): nat
    requires off + COUNT_SIZE <= |mem|
  {
    mem[off] as int + 0x100 * mem[off + 1] as int
    + 0x1_0000 * mem[off + 2] as int + 0x100_0000 * mem[off + 3] as int
  }

  function Store(mem: Bytes, off: nat, data: Bytes): (r: Bytes)
    requires off + |data| <= |mem|
    ensures |r| == |mem|
    ensures forall i :: 0 <= i < |mem| ==>
              r[i] == if off <= i < off + |data| then data[i - off] else mem[i]
  {
    mem[..off] + data + mem[off + |data|..]
  }

  lemma LoadStored(mem: Bytes, off: nat, v: nat)
    requires off + COUNT_SIZE <= |mem| && v < WORD
    ensures Load32(Store(mem, off, Word32(v)), off) == v
  {
  }

  // ----- the arena

  /** A block the pool handed out: where it starts and the payload written into it. */
  datatype Block = Block(offset: nat, data: Bytes)

  /** mem is the whole object, next the pool's position, live the sender's table of
      block sizes by offset, and blocks the history of the blocks handed out. */
  datatype Arena = Arena(mem: Bytes, next: nat, live: map<nat, nat>, blocks: seq<Block>)

  /** The table without the blocks whose counter is zero. */
  function Recycled(mem: Bytes, live: map<nat, nat>): (r: map<nat, nat>)
    requires forall off :: off in live ==> off + COUNT_SIZE <= |mem|
    ensures forall off :: off in r <==> off in live && Load32(mem, off) != 0
    ensures forall off :: off in r ==> r[off] == live[off]
  {
    map off | off in live && Load32(mem, off) != 0 :: live[off]
  }

  /** Where the pool places its next block. */
  function PoolPosition(next: nat): nat {
    (next + ALIGNMENT - 1) / ALIGNMENT * ALIGNMENT
  }

  ghost predicate LiveOk(a: Arena) {
    forall off :: off in a.live ==> off + COUNT_SIZE <= |a.mem|
  }

  /** Write: recycle, allocate, set the counter, copy the payload and enter the block in
      the table.  None is the exhausted pool, whose upstream allocator throws. */
  function WriteSpec(a: Arena, data: Bytes, cnt: nat): (Arena, Option<nat>)
    requires LiveOk(a) && cnt < WORD
  {
    var live := Recycled(a.mem, a.live);
    var at := PoolPosition(a.next);
    var size := PoolSize(|data|);
    PoolSizeBounds(|data|);
    if at + size > |a.mem| then (a.(live := live), None)
    else
      var mem := Store(Store(a.mem, at, Word32(cnt)), at + COUNT_SIZE, data);
      (Arena(mem, at + size, live[at := size], a.blocks + [Block(at, data)]), Some(at))
  }

  /** What a read of a descriptor shows its callback. */
  function Seen(mem: Bytes, off: nat, len: nat): Bytes
    requires COUNT_SIZE <= len && off + len <= |mem|
  {
    mem[off + COUNT_SIZE..off + len]
  }

  /** What a read leaves in memory: the counter one lower. */
  function CountedDown(mem: Bytes, off: nat): Bytes
    requires off + COUNT_SIZE <= |mem|
  {
    Store(mem, off, Word32(Wrap32(Load32(mem, off) - 1)))
  }

  function End(b: Block): nat {
    b.offset + PoolSize(|b.data|)
  }

  ghost predicate BlockOk(mem: Bytes, next: nat, b: Block) {
    && b.offset % ALIGNMENT == 0
    && b.offset + COUNT_SIZE + |b.data| <= End(b) <= next
    && next <= |mem|
    && mem[b.offset + COUNT_SIZE..][..|b.data|] == b.data
  }

  /** What the counter in front of a block stands at. */
  function CountOf(mem: Bytes, b: Block): nat {
    if b.offset + COUNT_SIZE <= |mem| then Load32(mem, b.offset) else 0
  }

  ghost predicate Spaced(blocks: seq<Block>) {
    forall j, k :: 0 <= j < k < |blocks| ==> End(blocks[j]) <= blocks[k].offset
  }

  ghost predicate InTable(blocks: seq<Block>, off: nat, size: nat) {
    exists k :: 0 <= k < |blocks| && blocks[k].offset == off && size == PoolSize(|blocks[k].data|)
  }

  ghost predicate Tabled(live: map<nat, nat>, blocks: seq<Block>) {
    forall off :: off in live ==> InTable(blocks, off, live[off])
  }

  /** The object ends in the handle's own counter, behind a whole number of alignment
      units; every block holds its payload, and blocks do not meet. */
  ghost predicate Ok(a: Arena) {
    && |a.mem| % ALIGNMENT == COUNT_SIZE
    && a.next % ALIGNMENT == 0 && a.next <= |a.mem|
    && (forall k :: 0 <= k < |a.blocks| ==> BlockOk(a.mem, a.next, a.blocks[k]))
    && Spaced(a.blocks)
    && Tabled(a.live, a.blocks)
  }

  lemma OkLive(a: Arena)
    requires Ok(a)
    ensures LiveOk(a)
    ensures forall off :: off in a.live ==> off < a.next
  {
    forall off | off in a.live
      ensures off + COUNT_SIZE <= |a.mem| && off < a.next
    {
      assert InTable(a.blocks, off, a.live[off]);
      var k :| 0 <= k < |a.blocks| && a.blocks[k].offset == off && a.live[off] == PoolSize(|a.blocks[k].data|);
      assert BlockOk(a.mem, a.next, a.blocks[k]);
    }
  }

  /** The bytes of a block decide whether it is intact. */
  lemma BlockKept(mem: Bytes, next: nat, mem': Bytes, next': nat, b: Block)
    requires BlockOk(mem, next, b) && |mem| == |mem'| && next <= next' <= |mem|
    requires mem[b.offset..End(b)] == mem'[b.offset..End(b)]
    ensures BlockOk(mem', next', b)
    ensures Load32(mem', b.offset) == Load32(mem, b.offset)
  {
    var s := mem[b.offset..End(b)];
    assert forall i :: b.offset <= i < End(b) ==> mem[i] == s[i - b.offset] && mem'[i] == s[i - b.offset];
  }

  /** Blocks below the position survive a change of the bytes from there on. */
  lemma BlocksBelowKept(a: Arena, mem: Bytes, next: nat)
    requires Ok(a) && |mem| == |a.mem| && a.next <= next <= |mem|
    requires forall i :: 0 <= i < a.next ==> mem[i] == a.mem[i]
    ensures forall k :: 0 <= k < |a.blocks| ==>
              BlockOk(mem, next, a.blocks[k]) && CountOf(mem, a.blocks[k]) == CountOf(a.mem, a.blocks[k])
  {
    forall k | 0 <= k < |a.blocks|
      ensures BlockOk(mem, next, a.blocks[k]) && CountOf(mem, a.blocks[k]) == CountOf(a.mem, a.blocks[k])
    {
      var b := a.blocks[k];
      assert BlockOk(a.mem, a.next, b);
      assert mem[b.offset..End(b)] == a.mem[b.offset..End(b)];
      BlockKept(a.mem, a.next, mem, next, b);
    }
  }

  lemma AppendTabled(live: map<nat, nat>, blocks: seq<Block>, b: Block)
    requires Tabled(live, blocks)
    ensures Tabled(live[b.offset := PoolSize(|b.data|)], blocks + [b])
  {
    var live' := live[b.offset := PoolSize(|b.data|)];
    forall off | off in live'
      ensures InTable(blocks + [b], off, live'[off])
    {
      if off == b.offset {
        assert (blocks + [b])[|blocks|] == b;
      } else {
        assert InTable(blocks, off, live[off]);
        var k :| 0 <= k < |blocks| && blocks[k].offset == off && live[off] == PoolSize(|blocks[k].data|);
        assert (blocks + [b])[k] == blocks[k];
      }
    }
  }

  lemma AppendOk(a: Arena, mem: Bytes, next: nat, live: map<nat, nat>, b: Block)
    requires Ok(a) && |mem| == |a.mem| && a.next <= next && next % ALIGNMENT == 0
    requires forall k :: 0 <= k < |a.blocks| ==> BlockOk(mem, next, a.blocks[k])
    requires BlockOk(mem, next, b) && b.offset == a.next
    requires Tabled(live, a.blocks)
    ensures Ok(Arena(mem, next, live[b.offset := PoolSize(|b.data|)], a.blocks + [b]))
  {
    AppendTabled(live, a.blocks, b);
    assert forall j :: 0 <= j < |a.blocks| ==> BlockOk(a.mem, a.next, a.blocks[j]);
  }

  /** The pool position is already aligned, and offsets in use lie below it. */
  lemma PositionAligned(next: nat)
    requires next % ALIGNMENT == 0
    ensures PoolPosition(next) == next
  {
  }

  lemma RecycledTabled(a: Arena)
    requires Ok(a)
    ensures LiveOk(a) && Tabled(Recycled(a.mem, a.live), a.blocks)
  {
    OkLive(a);
    assert forall off :: off in a.live ==> InTable(a.blocks, off, a.live[off]);
  }

  lemma AlignedSum(next: nat, size: nat, len: nat)
    requires next % ALIGNMENT == 0 && size % ALIGNMENT == 0 && len % ALIGNMENT == COUNT_SIZE
    ensures (next + size) % ALIGNMENT == 0
    ensures next + size <= len <==> next + size <= len - COUNT_SIZE
  {
    var sum := ALIGNMENT * (next / ALIGNMENT + size / ALIGNMENT);
    assert next + size == sum;
    assert len == ALIGNMENT * (len / ALIGNMENT) + COUNT_SIZE;
  }

  /** The arena after a write that fits. */
  function Grown(a: Arena, data: Bytes, cnt: nat): Arena
    requires LiveOk(a) && cnt < WORD && a.next + PoolSize(|data|) <= |a.mem|
  {
    PoolSizeBounds(|data|);
    Arena(Store(Store(a.mem, a.next, Word32(cnt)), a.next + COUNT_SIZE, data), a.next + PoolSize(|data|),
          Recycled(a.mem, a.live)[a.next := PoolSize(|data|)], a.blocks + [Block(a.next, data)])
  }

  lemma WriteShape(a: Arena, data: Bytes, cnt: nat)
    requires LiveOk(a) && cnt < WORD && a.next % ALIGNMENT == 0
    ensures WriteSpec(a, data, cnt) ==
            if a.next + PoolSize(|data|) <= |a.mem| then (Grown(a, data, cnt), Some(a.next))
            else (a.(live := Recycled(a.mem, a.live)), None)
  {
    PositionAligned(a.next);
  }

  lemma GrownOk(a: Arena, data: Bytes, cnt: nat)
    requires Ok(a) && LiveOk(a) && cnt < WORD && a.next + PoolSize(|data|) <= |a.mem|
    ensures Ok(Grown(a, data, cnt))
  {
    var c := Grown(a, data, cnt);
    PoolSizeBounds(|data|);
    AlignedSum(a.next, PoolSize(|data|), |a.mem|);
    RecycledTabled(a);
    NewBlockOk(a.mem, a.next, data, cnt);
    BlocksBelowKept(a, c.mem, c.next);
    AppendOk(a, c.mem, c.next, Recycled(a.mem, a.live), Block(a.next, data));
  }

  lemma WriteKeepsOk(a: Arena, data: Bytes, cnt: nat)
    requires Ok(a) && cnt < WORD
    ensures LiveOk(a) && Ok(WriteSpec(a, data, cnt).0)
  {
    OkLive(a);
    RecycledTabled(a);
    WriteShape(a, data, cnt);
    if a.next + PoolSize(|data|) <= |a.mem| {
      GrownOk(a, data, cnt);
    }
  }

  lemma NewBlockOk(mem: Bytes, at: nat, data: Bytes, cnt: nat)
    requires cnt < WORD && at % ALIGNMENT == 0
    requires at + PoolSize(|data|) <= |mem|
    ensures COUNT_SIZE + |data| <= PoolSize(|data|)
    ensures var m := Store(Store(mem, at, Word32(cnt)), at + COUNT_SIZE, data);
      Load32(m, at) == cnt && BlockOk(m, at + PoolSize(|data|), Block(at, data))
  {
    PoolSizeBounds(|data|);
    var m1 := Store(mem, at, Word32(cnt));
    var m := Store(m1, at + COUNT_SIZE, data);
    LoadStored(mem, at, cnt);
    assert Load32(m, at) == Load32(m1, at);
    assert m[at + COUNT_SIZE..][..|data|] == data;
  }

  // ----- runs: the sender writes, receivers read, handles count themselves

  datatype Event =
    | Write(data: Bytes, cnt: nat)
    | ReadBlock(k: nat)
    | CountHandle(refs: nat)

  predicate Possible(a: Arena, e: Event) {
    match e
    case Write(data, cnt) => cnt < WORD
    case ReadBlock(k) => k < |a.blocks|
    case CountHandle(refs) => refs < WORD
  }

  /** What an event leaves. */
  function After(a: Arena, e: Event): Arena
    requires Ok(a) && Possible(a, e)
  {
    OkLive(a);
    match e
    case Write(data, cnt) => WriteSpec(a, data, cnt).0
    case ReadBlock(k) =>
      var b := a.blocks[k];
      assert BlockOk(a.mem, a.next, b);
      a.(mem := CountedDown(a.mem, b.offset))
    case CountHandle(refs) => a.(mem := Store(a.mem, |a.mem| - COUNT_SIZE, Word32(refs)))
  }

  /** The handle's counter lies behind everything the pool can hand out. */
  lemma TrailerClear(a: Arena)
    requires Ok(a)
    ensures COUNT_SIZE <= |a.mem|
    ensures a.next + COUNT_SIZE <= |a.mem|
  {
  }

  lemma CountDownBlock(mem: Bytes, next: nat, b: Block)
    requires BlockOk(mem, next, b)
    ensures BlockOk(CountedDown(mem, b.offset), next, b)
    ensures Load32(CountedDown(mem, b.offset), b.offset) == Wrap32(Load32(mem, b.offset) - 1)
  {
    LoadStored(mem, b.offset, Wrap32(Load32(mem, b.offset) - 1));
    var m := CountedDown(mem, b.offset);
    assert m[b.offset + COUNT_SIZE..][..|b.data|] == mem[b.offset + COUNT_SIZE..][..|b.data|];
  }

  lemma OtherBlockKept(a: Arena, k: nat, j: nat)
    requires Ok(a) && k < |a.blocks| && j < |a.blocks| && j != k
    ensures BlockOk(a.mem, a.next, a.blocks[k])
    ensures BlockOk(CountedDown(a.mem, a.blocks[k].offset), a.next, a.blocks[j])
    ensures Load32(CountedDown(a.mem, a.blocks[k].offset), a.blocks[j].offset) == Load32(a.mem, a.blocks[j].offset)
  {
    assert BlockOk(a.mem, a.next, a.blocks[k]);
    var m := CountedDown(a.mem, a.blocks[k].offset);
    var b := a.blocks[j];
    assert BlockOk(a.mem, a.next, b);
    assert m[b.offset..End(b)] == a.mem[b.offset..End(b)];
    BlockKept(a.mem, a.next, m, a.next, b);
  }

  lemma ReadKeepsOk(a: Arena, k: nat)
    requires Ok(a) && k < |a.blocks|
    ensures Ok(After(a, ReadBlock(k)))
  {
    var c := After(a, ReadBlock(k));
    forall j | 0 <= j < |c.blocks|
      ensures BlockOk(c.mem, c.next, c.blocks[j])
    {
      if j == k {
        assert BlockOk(a.mem, a.next, a.blocks[k]);
        CountDownBlock(a.mem, a.next, a.blocks[k]);
      } else {
        OtherBlockKept(a, k, j);
      }
    }
  }

  lemma EventKeepsOk(a: Arena, e: Event)
    requires Ok(a) && Possible(a, e)
    ensures Ok(After(a, e))
    ensures Extends(a, After(a, e))
  {
    match e
    case Write(data, cnt) => WriteKeepsOk(a, data, cnt);
    case ReadBlock(k) => ReadKeepsOk(a, k);
    case CountHandle(refs) =>
      TrailerClear(a);
      BlocksBelowKept(a, After(a, e).mem, a.next);
  }

  /** c still has a's blocks, at the same places and with the same payloads. */
  ghost predicate Extends(a: Arena, c: Arena) {
    a.blocks <= c.blocks
  }

  ghost predicate Happens(a: Arena, es: seq<Event>, c: Arena)
    requires Ok(a)
    decreases |es|
  {
    if es == [] then a == c
    else Possible(a, es[0]) && (EventKeepsOk(a, es[0]); Happens(After(a, es[0]), es[1..], c))
  }

  lemma {:induction false} HappensKeepsOk(a: Arena, es: seq<Event>, c: Arena)
    requires Ok(a) && Happens(a, es, c)
    ensures Ok(c) && Extends(a, c)
    decreases |es|
  {
    if es != [] {
      EventKeepsOk(a, es[0]);
      HappensKeepsOk(After(a, es[0]), es[1..], c);
    }
  }

  /** Whatever is written, read or counted afterwards, a receiver that is given the
      descriptor of a write sees the bytes written, followed by padding shorter than the
      alignment. */
  lemma PayloadRoundTrip(a: Arena, data: Bytes, cnt: nat, es: seq<Event>, c: Arena)
    requires Ok(a) && cnt < WORD
    ensures LiveOk(a) && Ok(WriteSpec(a, data, cnt).0)
    ensures var (w, at) := WriteSpec(a, data, cnt);
      at.Some? && Happens(w, es, c) ==>
        var len := PoolSize(|data|);
        && COUNT_SIZE <= len && at.value + len <= |c.mem|
        && var seen := Seen(c.mem, at.value, len);
        |data| <= |seen| < |data| + ALIGNMENT && seen[..|data|] == data
  {
    WriteKeepsOk(a, data, cnt);
    var (w, at) := WriteSpec(a, data, cnt);
    if at.Some? && Happens(w, es, c) {
      HappensKeepsOk(w, es, c);
      var k := |a.blocks|;
      assert w.blocks[k].data == data;
      assert BlockOk(c.mem, c.next, c.blocks[k]);
      PoolSizeBounds(|data|);
      SeenPrefix(c.mem, c.blocks[k].offset, data);
    }
  }

  lemma SeenPrefix(mem: Bytes, off: nat, data: Bytes)
    requires COUNT_SIZE + |data| <= PoolSize(|data|) && off + PoolSize(|data|) <= |mem|
    requires mem[off + COUNT_SIZE..][..|data|] == data
    ensures Seen(mem, off, PoolSize(|data|))[..|data|] == data
  {
  }

  // Counters are independent of one another and of everything else.

  /** A write sets the counter of its own block and no other. */
  lemma WriteCounts(a: Arena, data: Bytes, cnt: nat)
    requires Ok(a) && cnt < WORD
    ensures LiveOk(a) && var c := WriteSpec(a, data, cnt).0;
      && (forall k :: 0 <= k < |a.blocks| ==> CountOf(c.mem, a.blocks[k]) == CountOf(a.mem, a.blocks[k]))
      && (|c.blocks| > |a.blocks| ==> CountOf(c.mem, c.blocks[|a.blocks|]) == cnt)
  {
    OkLive(a);
    WriteShape(a, data, cnt);
    if a.next + PoolSize(|data|) <= |a.mem| {
      var c := Grown(a, data, cnt);
      PoolSizeBounds(|data|);
      NewBlockOk(a.mem, a.next, data, cnt);
      BlocksBelowKept(a, c.mem, c.next);
    }
  }

  /** A read takes one from the counter of the block read and from no other. */
  lemma ReadCounts(a: Arena, k: nat, j: nat)
    requires Ok(a) && k < |a.blocks| && j < |a.blocks|
    ensures CountOf(After(a, ReadBlock(k)).mem, a.blocks[j]) ==
            if j == k then Wrap32(CountOf(a.mem, a.blocks[j]) - 1) else CountOf(a.mem, a.blocks[j])
  {
    assert BlockOk(a.mem, a.next, a.blocks[j]) && BlockOk(a.mem, a.next, a.blocks[k]);
    if j == k {
      CountDownBlock(a.mem, a.next, a.blocks[k]);
    } else {
      OtherBlockKept(a, k, j);
    }
  }

  /** A handle counting itself touches no block's counter. */
  lemma HandleCounts(a: Arena, refs: nat, j: nat)
    requires Ok(a) && refs < WORD && j < |a.blocks|
    ensures CountOf(After(a, CountHandle(refs)).mem, a.blocks[j]) == CountOf(a.mem, a.blocks[j])
  {
    TrailerClear(a);
    BlocksBelowKept(a, After(a, CountHandle(refs)).mem, a.next);
  }

  /** In every run: a block is aligned, meets no other block, and stays clear of the
      handle's counter in the object's last bytes. */
  lemma BlocksApart(a: Arena, es: seq<Event>, c: Arena, j: nat, k: nat)
    requires Ok(a) && Happens(a, es, c) && j < |c.blocks| && k < |c.blocks| && j != k
    ensures c.blocks[k].offset % ALIGNMENT == 0
    ensures End(c.blocks[j]) <= c.blocks[k].offset || End(c.blocks[k]) <= c.blocks[j].offset
    ensures End(c.blocks[k]) + COUNT_SIZE <= |c.mem|
  {
    HappensKeepsOk(a, es, c);
    assert BlockOk(c.mem, c.next, c.blocks[k]);
    TrailerClear(c);
  }

  /** The sender's insert never meets an existing key. */
  lemma FreshKey(a: Arena, data: Bytes, cnt: nat)
    requires Ok(a) && LiveOk(a) && cnt < WORD && WriteSpec(a, data, cnt).1.Some?
    ensures WriteSpec(a, data, cnt).1.value !in a.live
    ensures forall k :: 0 <= k < |a.blocks| ==> a.blocks[k].offset != WriteSpec(a, data, cnt).1.value
  {
    OkLive(a);
    forall k | 0 <= k < |a.blocks|
      ensures a.blocks[k].offset < a.next
    {
      assert BlockOk(a.mem, a.next, a.blocks[k]);
      PoolSizeBounds(|a.blocks[k].data|);
    }
  }

  /** A write fails exactly when the aligned block does not fit before the handle's
      counter: the counter's own bytes, though given to the pool, are never enough. */
  lemma FailsIffFull(a: Arena, data: Bytes, cnt: nat)
    requires Ok(a) && LiveOk(a) && cnt < WORD
    ensures WriteSpec(a, data, cnt).1.None? <==>
            a.next + PoolSize(|data|) > |a.mem| - COUNT_SIZE
  {
    PoolSizeBounds(|data|);
    AlignedSum(a.next, PoolSize(|data|), |a.mem|);
    WriteShape(a, data, cnt);
  }

  /** How much of the object the blocks take up. */
  function Used(blocks: seq<Block>): nat {
    if blocks == [] then 0 else Used(blocks[..|blocks| - 1]) + PoolSize(|blocks[|blocks| - 1].data|)
  }

  /** Each block begins where the one before it ends, and the pool is where the last one does. */
  ghost predicate Packed(a: Arena) {
    && a.next == Used(a.blocks)
    && forall k :: 0 <= k < |a.blocks| ==> a.blocks[k].offset == Used(a.blocks[..k])
  }

  lemma EventKeepsPacked(a: Arena, e: Event)
    requires Ok(a) && Possible(a, e) && Packed(a)
    ensures Packed(After(a, e))
  {
    if e.Write? {
      OkLive(a);
      WriteShape(a, e.data, e.cnt);
      var c := After(a, e);
      if |c.blocks| > |a.blocks| {
        assert c.blocks[..|a.blocks|] == a.blocks;
        assert forall k :: 0 <= k < |a.blocks| ==> c.blocks[..k] == a.blocks[..k];
      }
    }
  }

  /** In every run the blocks lie one behind the other without a gap, and so a write fails
      exactly when the sizes of all the blocks so far, and its own, exceed what is in front of
      the handle's counter: nothing that was forgotten is ever used again. */
  lemma {:induction false} UsedUp(a: Arena, es: seq<Event>, c: Arena, data: Bytes, cnt: nat)
    requires Ok(a) && Packed(a) && Happens(a, es, c) && cnt < WORD
    ensures Packed(c) && LiveOk(c)
    ensures WriteSpec(c, data, cnt).1 ==
            if Used(c.blocks) + PoolSize(|data|) <= |c.mem| - COUNT_SIZE then Some(Used(c.blocks)) else None
    decreases |es|
  {
    if es == [] {
      OkLive(a);
      FailsIffFull(a, data, cnt);
      WriteShape(a, data, cnt);
    } else {
      EventKeepsOk(a, es[0]);
      EventKeepsPacked(a, es[0]);
      UsedUp(After(a, es[0]), es[1..], c, data, cnt);
    }
  }

  /** How often block k is read among some events. */
  function ReadsOf(es: seq<Event>, k: nat): nat {
    if es == [] then 0
    else (if es[0] == ReadBlock(k) then 1 else 0) + ReadsOf(es[1..], k)
  }

  lemma StepCount(a: Arena, e: Event, k: nat)
    requires Ok(a) && Possible(a, e) && k < |a.blocks|
    ensures k < |After(a, e).blocks| && After(a, e).blocks[k] == a.blocks[k]
    ensures CountOf(After(a, e).mem, a.blocks[k]) ==
            if e == ReadBlock(k) then Wrap32(CountOf(a.mem, a.blocks[k]) - 1) else CountOf(a.mem, a.blocks[k])
  {
    EventKeepsOk(a, e);
    match e
    case Write(data, cnt) => WriteCounts(a, data, cnt);
    case ReadBlock(j) => ReadCounts(a, j, k);
    case CountHandle(refs) => HandleCounts(a, refs, k);
  }

  lemma WrapDifference(x: int, n: int)
    ensures Wrap32(Wrap32(x - 1) - n) == Wrap32(x - (1 + n))
  {
  }

  ghost predicate CountedSince(before: nat, taken: nat, after: nat) {
    Wrap32(after) == Wrap32(before - taken)
  }

  lemma CountedOn(x: nat, y: nat, z: nat, read: bool, n: nat)
    requires y == (if read then Wrap32(x - 1) else x) && CountedSince(y, n, z)
    ensures CountedSince(x, (if read then 1 else 0) + n, z)
  {
    WrapDifference(x, n);
  }

  lemma {:induction false} CountsAfterRun(a: Arena, es: seq<Event>, c: Arena, k: nat)
    requires Ok(a) && Happens(a, es, c) && k < |a.blocks|
    ensures CountedSince(CountOf(a.mem, a.blocks[k]), ReadsOf(es, k), CountOf(c.mem, a.blocks[k]))
    decreases |es|
  {
    if es != [] {
      var b := After(a, es[0]);
      EventKeepsOk(a, es[0]);
      StepCount(a, es[0], k);
      CountsAfterRun(b, es[1..], c, k);
      CountedOn(CountOf(a.mem, a.blocks[k]), CountOf(b.mem, a.blocks[k]), CountOf(c.mem, a.blocks[k]),
                es[0] == ReadBlock(k), ReadsOf(es[1..], k));
    }
  }

  lemma Load32Range(mem: Bytes, off: nat)
    requires off + COUNT_SIZE <= |mem|
    ensures 0 <= Load32(mem, off) < WORD
  {
  }

  lemma ZeroWhenAllRead(cnt: nat, taken: nat, after: nat)
    requires taken <= cnt < WORD && after < WORD && CountedSince(cnt, taken, after)
    ensures after == cnt - taken
  {
  }

  /** A block written with count cnt stands at cnt less the reads since, as long as it is
      not read more often than that. */
  lemma CountAfterWrite(a: Arena, data: Bytes, cnt: nat, es: seq<Event>, c: Arena)
    requires Ok(a) && cnt < WORD
    ensures LiveOk(a) && Ok(WriteSpec(a, data, cnt).0)
    ensures var (w, at) := WriteSpec(a, data, cnt);
      at.Some? && Happens(w, es, c) && ReadsOf(es, |a.blocks|) <= cnt ==>
        at.value + COUNT_SIZE <= |c.mem| && Load32(c.mem, at.value) == cnt - ReadsOf(es, |a.blocks|)
  {
    WriteKeepsOk(a, data, cnt);
    WriteShape(a, data, cnt);
    var (w, at) := WriteSpec(a, data, cnt);
    if at.Some? && Happens(w, es, c) && ReadsOf(es, |a.blocks|) <= cnt {
      GrownCount(a, data, cnt, es, c);
    }
  }

  lemma GrownCount(a: Arena, data: Bytes, cnt: nat, es: seq<Event>, c: Arena)
    requires Ok(a) && LiveOk(a) && cnt < WORD && a.next + PoolSize(|data|) <= |a.mem|
    requires Ok(Grown(a, data, cnt)) && Happens(Grown(a, data, cnt), es, c)
    requires ReadsOf(es, |a.blocks|) <= cnt
    ensures a.next + COUNT_SIZE <= |c.mem| && Load32(c.mem, a.next) == cnt - ReadsOf(es, |a.blocks|)
  {
    var w := Grown(a, data, cnt);
    var k := |a.blocks|;
    HappensKeepsOk(w, es, c);
    CountsAfterRun(w, es, c, k);
    assert w.blocks[k] == Block(a.next, data);
    assert BlockOk(c.mem, c.next, c.blocks[k]);
    PoolSizeBounds(|data|);
    NewBlockOk(a.mem, a.next, data, cnt);
    Load32Range(c.mem, a.next);
    ZeroWhenAllRead(cnt, ReadsOf(es, k), Load32(c.mem, a.next));
  }

  lemma StepStays(a: Arena, e: Event, k: nat)
    requires Ok(a) && Possible(a, e) && k < |a.blocks|
    requires a.blocks[k].offset in a.live && CountOf(a.mem, a.blocks[k]) != 0
    ensures a.blocks[k].offset in After(a, e).live
  {
    assert BlockOk(a.mem, a.next, a.blocks[k]);
  }

  /** A block stays in the table for as long as reads are outstanding. */
  lemma {:induction false} StaysUntilRead(a: Arena, es: seq<Event>, c: Arena, k: nat)
    requires Ok(a) && Happens(a, es, c) && k < |a.blocks|
    requires a.blocks[k].offset in a.live && ReadsOf(es, k) < CountOf(a.mem, a.blocks[k])
    ensures a.blocks[k].offset in c.live
    decreases |es|
  {
    if es != [] {
      EventKeepsOk(a, es[0]);
      StepStays(a, es[0], k);
      StepCount(a, es[0], k);
      CountRange(a, k);
      StaysUntilRead(After(a, es[0]), es[1..], c, k);
    }
  }

  lemma CountRange(a: Arena, k: nat)
    requires Ok(a) && k < |a.blocks|
    ensures 0 <= CountOf(a.mem, a.blocks[k]) < WORD
    ensures 0 < CountOf(a.mem, a.blocks[k]) ==>
              Wrap32(CountOf(a.mem, a.blocks[k]) - 1) == CountOf(a.mem, a.blocks[k]) - 1
  {
    assert BlockOk(a.mem, a.next, a.blocks[k]);
    Load32Range(a.mem, a.blocks[k].offset);
  }

  lemma WrittenStays(a: Arena, data: Bytes, cnt: nat, es: seq<Event>, c: Arena)
    requires Ok(a) && LiveOk(a) && cnt < WORD && a.next + PoolSize(|data|) <= |a.mem|
    requires Ok(Grown(a, data, cnt)) && Happens(Grown(a, data, cnt), es, c)
    requires ReadsOf(es, |a.blocks|) < cnt
    ensures a.next in c.live
  {
    var w := Grown(a, data, cnt);
    assert w.blocks[|a.blocks|] == Block(a.next, data);
    PoolSizeBounds(|data|);
    NewBlockOk(a.mem, a.next, data, cnt);
    StaysUntilRead(w, es, c, |a.blocks|);
  }

  /** A block written with count cnt is in the sender's table until it has been read cnt
      times, and gone after the next recycling once it has, as long as it is not read more
      often than that. */
  lemma ForgottenWhenRead(a: Arena, data: Bytes, cnt: nat, es: seq<Event>, c: Arena)
    requires Ok(a) && cnt < WORD
    ensures LiveOk(a) && Ok(WriteSpec(a, data, cnt).0)
    ensures var (w, at) := WriteSpec(a, data, cnt);
      at.Some? && Happens(w, es, c) && ReadsOf(es, |a.blocks|) <= cnt ==>
        && LiveOk(c)
        && (at.value !in c.live ==> ReadsOf(es, |a.blocks|) == cnt)
        && (at.value !in Recycled(c.mem, c.live) <==> ReadsOf(es, |a.blocks|) == cnt)
  {
    CountAfterWrite(a, data, cnt, es, c);
    WriteShape(a, data, cnt);
    var (w, at) := WriteSpec(a, data, cnt);
    if at.Some? && Happens(w, es, c) && ReadsOf(es, |a.blocks|) <= cnt {
      HappensKeepsOk(w, es, c);
      OkLive(c);
      if ReadsOf(es, |a.blocks|) < cnt {
        WrittenStays(a, data, cnt, es, c);
      }
    }
  }

  /** A write, whether it succeeds or not, leaves just the blocks in the table that were there
      and have reads outstanding, and the new one. */
  lemma WriteForgets(a: Arena, data: Bytes, cnt: nat)
    requires Ok(a) && cnt < WORD
    ensures LiveOk(a)
    ensures var (c, at) := WriteSpec(a, data, cnt);
      forall off :: off in c.live <==> at == Some(off) || (off in a.live && Load32(a.mem, off) != 0)
  {
    OkLive(a);
  }

  /** The recycling of whatever write comes next forgets a block if and only if it has been read
      as often as its count said. */
  lemma ForgottenByNextWrite(a: Arena, data: Bytes, cnt: nat, es: seq<Event>, c: Arena, more: Bytes, count: nat)
    requires Ok(a) && cnt < WORD && count < WORD
    ensures LiveOk(a) && Ok(WriteSpec(a, data, cnt).0)
    ensures var (w, at) := WriteSpec(a, data, cnt);
      at.Some? && Happens(w, es, c) && ReadsOf(es, |a.blocks|) <= cnt ==>
        LiveOk(c) && (at.value !in WriteSpec(c, more, count).0.live <==> ReadsOf(es, |a.blocks|) == cnt)
  {
    ForgottenWhenRead(a, data, cnt, es, c);
    var (w, at) := WriteSpec(a, data, cnt);
    if at.Some? && Happens(w, es, c) && ReadsOf(es, |a.blocks|) <= cnt {
      HappensKeepsOk(w, es, c);
      WriteForgets(c, more, count);
      WriteShape(a, data, cnt);
      assert w.blocks[|a.blocks|] == Block(at.value, data) == c.blocks[|a.blocks|];
      if WriteSpec(c, more, count).1.Some? {
        FreshKey(c, more, count);
      }
    }
  }
}
