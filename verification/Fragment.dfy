/** The sending and the receiving end of a payload arena, updated in place. */
module Fragment {
  import opened Words
  import opened Payloads
  import opened Handover
  import M = HandleModel

  method LoadCount(mem: array<byte>, off: nat) returns (v: nat)
    requires off + COUNT_SIZE <= mem.Length
    ensures v == Load32(mem[..], off)
  {
    v := mem[off] as int + 0x100 * mem[off + 1] as int
         + 0x1_0000 * mem[off + 2] as int + 0x100_0000 * mem[off + 3] as int;
  }

  method CopyBytes(mem: array<byte>, off: nat, data: Bytes)
    requires off + |data| <= mem.Length
    modifies mem
    ensures mem[..] == Store(old(mem[..]), off, data)
  {
    forall i | 0 <= i < |data| {
      mem[off + i] := data[i];
    }
  }

  /** The decrement of a counter, and the load after it. */
  method CountDown(mem: array<byte>, off: nat) returns (zero: bool)
    requires off + COUNT_SIZE <= mem.Length
    modifies mem
    ensures mem[..] == CountedDown(old(mem[..]), off)
    ensures zero <==> Load32(mem[..], off) == 0
  {
    var count: int := LoadCount(mem, off);
    CopyBytes(mem, off, Word32(Wrap32(count - 1)));
    count := LoadCount(mem, off);
    zero := count == 0;
  }

  /** Fragment<SENDER>: one per sending thread, over the object that thread owns. */
  class Sender {
    const id: nat
    const mem: array<byte>
    var next: nat
    var live: map<nat, nat>
    ghost var blocks: seq<Block>

    ghost function View(): Arena
      reads this, mem
    {
      Arena(mem[..], next, live, blocks)
    }

    /** init: the object is one that a handle mapped for this capacity, and the pool is given
        all of it, its trailing counter included. */
    constructor (id: nat, capacity: nat, mem: array<byte>)
      requires 0 < capacity <= M.SIZE_LIMIT - 8 && capacity % ALIGNMENT == 0
      requires mem.Length == M.MappedSize(capacity)
      ensures this.id == id && this.mem == mem
      ensures View() == Arena(mem[..], 0, map[], []) && Ok(View())
    {
      M.ArenaFits(capacity);
      this.id := id;
      this.mem := mem;
      next := 0;
      live := map[];
      blocks := [];
    }

    /** Erases while iterating, in whatever order the table yields its keys. */
    method RecycleMemory()
      requires LiveOk(View())
      modifies this`live
      ensures live == Recycled(mem[..], old(live))
    {
      if live == map[] {
        return;
      }
      var todo := live.Keys;
      while todo != {}
        invariant todo <= live.Keys <= old(live).Keys
        invariant forall off :: off in live ==> live[off] == old(live)[off]
        invariant forall off :: off in old(live) && off !in todo ==>
                    (off in live <==> Load32(mem[..], off) != 0)
        decreases |todo|
      {
        var off :| off in todo;
        var count := LoadCount(mem, off);
        if count == 0 {
          live := live - {off};
        }
        todo := todo - {off};
      }
    }

    /** None stands for the exception that the exhausted pool raises. */
    method Write(data: Bytes, cnt: nat) returns (res: Option<Descriptor>)
      requires Ok(View()) && cnt < WORD
      modifies this, mem
      ensures LiveOk(old(View()))
      ensures var (view, at) := WriteSpec(old(View()), data, cnt);
        && View() == view
        && res == match at case None => None case Some(off) => Some(Descriptor(id, off, PoolSize(|data|)))
      ensures Ok(View())
    {
      OkLive(View());
      WriteKeepsOk(View(), data, cnt);
      PoolSizeBounds(|data|);
      RecycleMemory();
      var size := PoolSize(|data|);
      var at := PoolPosition(next);
      if at + size > mem.Length {
        return None;
      }
      next := at + size;
      CopyBytes(mem, at, Word32(cnt));
      CopyBytes(mem, at + COUNT_SIZE, data);
      live := live[at := size];
      blocks := blocks + [Block(at, data)];
      res := Some(Descriptor(id, at, size));
    }
  }

  /** Fragment<RECEIVER>: the objects it has opened, by sender. */
  class Receiver {
    var handles: map<nat, array<byte>>
    ghost var given: seq<Descriptor>   // every descriptor handed to Read
    ghost var shown: seq<Bytes>        // every buffer handed to the callback

    constructor ()
      ensures handles == map[] && given == [] && shown == []
    {
      handles := map[];
      given, shown := [], [];
    }

    /** The object a descriptor lies in; found is what opening it yields when it is not
        yet among the handles. */
    function Source(id: nat, found: Option<array<byte>>): Option<array<byte>>
      reads this
    {
      if id in handles then Some(handles[id]) else found
    }

    ghost function Touched(id: nat, found: Option<array<byte>>): set<array<byte>>
      reads this
    {
      match Source(id, found) case None => {} case Some(a) => {a}
    }

    /** The result tells whether the payload's count is now zero.  The code does not check that
        the descriptor lies within the object it names: stray tells that it does not, so that
        the read goes astray in memory, of which nothing more is said.  Without a callback the
        object is opened, and no more. */
    method Read(desc: Descriptor, found: Option<array<byte>>, callback: bool) returns (zero: bool, stray: bool)
      modifies this, Touched(desc.id, found)
      ensures given == old(given) + [desc]
      ensures HandlesAfter(old(handles), handles, desc, found)
      ensures stray <==> callback && !old(Readable(this, desc, found))
      ensures !callback ==> !zero && shown == old(shown)
                            && Contents(old(Source(desc.id, found))) == old(Contents(Source(desc.id, found)))
      ensures callback && !stray ==>
              DidRead(desc, old(Contents(Source(desc.id, found))), old(shown),
                      Contents(old(Source(desc.id, found))), shown, zero)
    {
      given := given + [desc];
      if desc.id !in handles {
        match found
        case None => return false, false;
        case Some(a) => handles := handles[desc.id := a];
      }
      if !callback {
        return false, false;
      }
      var a := handles[desc.id];
      if desc.length < COUNT_SIZE || a.Length < desc.offset + desc.length {
        return false, true;
      }
      zero := ReadObject(a, desc);
      stray := false;
    }

    /** The rest of read, on the object it found. */
    method ReadObject(a: array<byte>, desc: Descriptor) returns (zero: bool)
      requires Inside(Some(a[..]), desc)
      modifies this`shown, a
      ensures DidRead(desc, Some(old(a[..])), old(shown), Some(a[..]), shown, zero)
    {
      if desc.length > COUNT_SIZE {
        Callback(a[desc.offset + COUNT_SIZE..desc.offset + desc.length]);
      }
      zero := CountDown(a, desc.offset);
    }

    /** The user's callback, of which only its argument is recorded. */
    method Callback(buffer: Bytes)
      modifies this`shown
      ensures shown == old(shown) + [buffer]
    {
      shown := shown + [buffer];
    }
  }

  ghost function Contents(src: Option<array<byte>>): Option<Bytes>
    reads match src case None => {} case Some(a) => {a}
  {
    match src case None => None case Some(a) => Some(a[..])
  }

  /** A descriptor lies within the object that a receiver would read it from. */
  ghost predicate Readable(frag: Receiver, desc: Descriptor, found: Option<array<byte>>)
    reads frag, frag.Touched(desc.id, found)
  {
    Inside(Contents(frag.Source(desc.id, found)), desc)
  }

  /** A read adds the object it opened to the handles, unless the sender's was there already. */
  ghost predicate HandlesAfter(before: map<nat, array<byte>>, now: map<nat, array<byte>>,
                               desc: Descriptor, found: Option<array<byte>>) {
    now == if desc.id in before || found.None? then before else before[desc.id := found.value]
  }
}
