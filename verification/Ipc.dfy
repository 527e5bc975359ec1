/** Writing a message and draining the queue, as one process does it. */
module Ipc {
  import opened Words
  import opened Payloads
  import opened Connection
  import F = Fragment
  import R = Ring
  import H = Handover

  /** The objects that can be opened, by sender; handles are only ever on these. */
  type Objects = map<nat, array<byte>>

  function Found(objects: Objects, id: nat): Option<array<byte>> {
    if id in objects then Some(objects[id]) else None
  }

  ghost predicate HandlesFrom(handles: Objects, objects: Objects) {
    forall id :: id in handles ==> id in objects && handles[id] == objects[id]
  }

  ghost predicate Distinct(objects: Objects) {
    forall i, j :: i in objects && j in objects && i != j ==> objects[i] != objects[j]
  }

  ghost function MemoryOf(objects: Objects): H.Memory
    reads objects.Values
  {
    map id | id in objects :: objects[id][..]
  }

  /** What a drain works on: the descriptors still in the ring, the objects they lie in, what
      the callback has been shown, what has been handed to the fragment, how many slots have
      been given back, and the senders whose objects the fragment holds handles of. */
  datatype View = View(outstanding: seq<Descriptor>, mem: H.Memory, shown: seq<Bytes>,
                       given: seq<Descriptor>, freed: nat, held: set<nat>)

  ghost function ViewOf(q: R.Queue, frag: F.Receiver, objects: Objects): View
    requires q.Valid()
    reads q, q.segment, q.segment.block, frag, objects.Values
  {
    View(q.Outstanding(), MemoryOf(objects), frag.shown, frag.given, q.segment.freed, frag.handles.Keys)
  }

  ghost predicate CanRead(v: View) {
    v.outstanding != [] && H.Inside(H.Opened(v.mem, v.outstanding[0].id), v.outstanding[0])
  }

  /** The senders of some descriptors whose objects can be opened. */
  ghost function OpenedFor(mem: H.Memory, ds: seq<Descriptor>): set<nat> {
    set k | 0 <= k < |ds| && ds[k].id in mem :: ds[k].id
  }

  /** One pop. */
  ghost function Popped(v: View): View
    requires CanRead(v)
  {
    var d := v.outstanding[0];
    var (mem, shown, zero) := H.ReadIn(v.mem, d, v.shown);
    View(v.outstanding[1..], mem, shown, v.given + [d], v.freed + if zero then 1 else 0,
         v.held + OpenedFor(v.mem, [d]))
  }

  /** A drain that began with start has handed over this many descriptors; and if they all lie
      within their objects, this is what it has done to them. */
  ghost predicate Along(start: View, rounds: nat, v: View) {
    && rounds <= |start.outstanding|
    && v.outstanding == start.outstanding[rounds..]
    && v.given == start.given + start.outstanding[..rounds]
    && v.mem.Keys == start.mem.Keys && v.held == start.held + OpenedFor(start.mem, start.outstanding[..rounds])
    && (H.AllInside(start.mem, start.outstanding) ==>
          (v.mem, v.shown, v.freed - start.freed) == H.HandOver(start.mem, start.outstanding[..rounds], start.shown))
  }

  /** w arises from v by a pop, of which more is known if the descriptor lies within its object. */
  ghost predicate IsPopped(v: View, w: View) {
    && v.outstanding != [] && w.outstanding == v.outstanding[1..] && w.given == v.given + [v.outstanding[0]]
    && w.mem.Keys == v.mem.Keys && w.held == v.held + OpenedFor(v.mem, [v.outstanding[0]])
    && (CanRead(v) ==> w == Popped(v))
  }

  lemma AlongNext(start: View, rounds: nat, v: View, w: View)
    requires Along(start, rounds, v) && IsPopped(v, w)
    ensures Along(start, rounds + 1, w)
  {
    var all := start.outstanding;
    assert all[..rounds + 1] == all[..rounds] + [all[rounds]];
    assert all[rounds..][1..] == all[rounds + 1..];
    if H.AllInside(start.mem, all) {
      H.HandOverNext(start.mem, all[..rounds], all[rounds], start.shown);
    }
  }

  /** A drain that began with start is over: everything outstanding has been handed over, with
      the effect of reading it one after the other. */
  ghost predicate Drained(start: View, v: View) {
    && v.outstanding == [] && v.given == start.given + start.outstanding
    && v.mem.Keys == start.mem.Keys && v.held == start.held + OpenedFor(start.mem, start.outstanding)
    && (H.AllInside(start.mem, start.outstanding) ==>
          (v.mem, v.shown, v.freed - start.freed) == H.HandOver(start.mem, start.outstanding, start.shown))
  }

  lemma AlongEnds(start: View, rounds: nat, v: View)
    requires Along(start, rounds, v) && v.outstanding == []
    ensures rounds == |start.outstanding| && Drained(start, v)
  {
    assert start.outstanding[..rounds] == start.outstanding;
  }

  lemma AlongBegins(start: View)
    ensures Along(start, 0, start)
  {
  }

  /** The lambda that Ipc::read runs under the mutex, with nobody pushing meanwhile.  It
      hands every outstanding descriptor to the fragment, oldest first and once each, gives
      back a slot for every payload it counted down to zero, ends with an empty queue, and
      never takes the early return on a pop that fails. */
  method Drain(q: R.Queue, frag: F.Receiver, objects: Objects) returns (early: bool, rounds: nat)
    requires q.Valid() && HandlesFrom(frag.handles, objects) && Distinct(objects)
    modifies q`cursor, q`taken, q.segment`r, q.segment`freed, frag, objects.Values
    ensures q.Valid() && q.Empty() && !early && q.taken == |q.segment.pushed|
    ensures rounds == |old(q.Outstanding())| && q.segment.pushed == old(q.segment.pushed)
    ensures Drained(old(ViewOf(q, frag, objects)), ViewOf(q, frag, objects))
  {
    early, rounds := false, 0;
    ghost var start := ViewOf(q, frag, objects);
    AlongBegins(start);
    while !q.Empty()
      invariant q.Valid() && q.segment.pushed == old(q.segment.pushed) && early == false
      invariant HandlesFrom(frag.handles, objects)
      invariant Along(start, rounds, ViewOf(q, frag, objects))
      invariant rounds <= |start.outstanding| && (rounds < |start.outstanding| <==> q.Outstanding() != [])
      decreases |start.outstanding| - rounds
    {
      var ok := Round(q, frag, objects, start, rounds);
      if !ok {
        return true, rounds;
      }
      rounds := rounds + 1;
    }
    AlongEnds(start, rounds, ViewOf(q, frag, objects));
  }

  /** One time round the loop. */
  method Round(q: R.Queue, frag: F.Receiver, objects: Objects, ghost start: View, ghost rounds: nat)
    returns (ok: bool)
    requires q.Valid() && HandlesFrom(frag.handles, objects) && Distinct(objects)
    requires !q.Empty() && Along(start, rounds, ViewOf(q, frag, objects))
    modifies q`cursor, q`taken, q.segment`r, q.segment`freed, frag, objects.Values
    ensures ok && q.Valid() && HandlesFrom(frag.handles, objects) && q.segment.pushed == old(q.segment.pushed)
    ensures Along(start, rounds + 1, ViewOf(q, frag, objects))
  {
    ghost var v := ViewOf(q, frag, objects);
    ok := Next(q, frag, objects);
    AlongNext(start, rounds, v, ViewOf(q, frag, objects));
  }

  /** One pop, with the fragment opening whatever object the descriptor names. */
  method Next(q: R.Queue, frag: F.Receiver, objects: Objects) returns (ok: bool)
    requires q.Valid() && HandlesFrom(frag.handles, objects) && Distinct(objects)
    requires q.Outstanding() != []
    modifies q`cursor, q`taken, q.segment`r, q.segment`freed, frag, objects.Values
    ensures q.Valid() && HandlesFrom(frag.handles, objects) && q.segment.pushed == old(q.segment.pushed)
    ensures ok && IsPopped(old(ViewOf(q, frag, objects)), ViewOf(q, frag, objects))
  {
    ghost var v := ViewOf(q, frag, objects);
    var released;
    ok, released := PopFrom(q, frag, objects);
    HeldAfter(old(frag.handles), frag.handles, v.outstanding[0], objects, v.mem);
    if CanRead(v) {
      OneRead(v.mem, v.outstanding[0], v.shown, MemoryOf(objects), frag.shown, released);
    }
  }

  /** A pop adds the object of its descriptor to those that the fragment holds, if there is one. */
  lemma HeldAfter(before: Objects, now: Objects, d: Descriptor, objects: Objects, mem: H.Memory)
    requires HandlesFrom(before, objects) && mem.Keys == objects.Keys
    requires F.HandlesAfter(before, now, d, Found(objects, d.id))
    ensures HandlesFrom(now, objects) && now.Keys == before.Keys + OpenedFor(mem, [d])
  {
    var one := OpenedFor(mem, [d]);
    assert forall id :: id in one <==> id == d.id && [d][0].id in mem.Keys;
    assert d.id in objects <==> d.id in objects.Keys;
  }

  /** The pop of a descriptor touches the object it names and no other. */
  method PopFrom(q: R.Queue, frag: F.Receiver, objects: Objects) returns (ok: bool, released: bool)
    requires q.Valid() && HandlesFrom(frag.handles, objects) && Distinct(objects)
    requires q.Outstanding() != []
    modifies q`cursor, q`taken, q.segment`r, q.segment`freed, frag, objects.Values
    ensures q.Valid() && q.segment.pushed == old(q.segment.pushed)
    ensures ok && q.Outstanding() == old(q.Outstanding())[1..]
    ensures q.segment.freed == old(q.segment.freed) + if released then 1 else 0
    ensures frag.given == old(frag.given) + [old(q.Outstanding())[0]]
    ensures var d := old(q.Outstanding())[0];
      F.HandlesAfter(old(frag.handles), frag.handles, d, Found(objects, d.id))
    ensures forall id :: id in objects && id != old(q.Outstanding())[0].id ==> objects[id][..] == old(objects[id][..])
    ensures old(CanRead(ViewOf(q, frag, objects))) ==> var d, mem := old(q.Outstanding())[0], old(MemoryOf(objects));
      H.DidRead(d, H.Opened(mem, d.id), old(frag.shown), H.Opened(MemoryOf(objects), d.id), frag.shown, released)
  {
    var d := q.Front();
    ghost var mem := MemoryOf(objects);
    ghost var src := Found(objects, d.id);
    assert frag.Source(d.id, src) == src && F.Contents(src) == H.Opened(mem, d.id);
    var stray;
    ok, released, stray := q.Pop(frag, Found(objects, d.id));
    assert F.Contents(src) == H.Opened(MemoryOf(objects), d.id);
  }

  /** A read changes one object among all of them. */
  lemma OneRead(mem: H.Memory, d: Descriptor, shown: seq<Bytes>, mem1: H.Memory, now: seq<Bytes>, zero: bool)
    requires H.Inside(H.Opened(mem, d.id), d)
    requires H.DidRead(d, H.Opened(mem, d.id), shown, H.Opened(mem1, d.id), now, zero)
    requires mem1.Keys == mem.Keys && forall id :: id in mem && id != d.id ==> mem1[id] == mem[id]
    ensures (mem1, now, zero) == H.ReadIn(mem, d, shown)
  {
    if d.id in mem {
      assert mem1[d.id] == H.ReadIn(mem, d, shown).0[d.id];
    }
    assert mem1 == H.ReadIn(mem, d, shown).0;
  }

  /** How a write ends: the message was pushed; it was not, for want of data, of a connection
      or of a slot; or the arena's pool was exhausted and threw. */
  datatype Outcome = Sent(desc: Descriptor) | NoData | NoConnection | RingFull | OutOfMemory

  /** What a write tells its callback; NullCallback stands for a call through one that is not
      there. */
  datatype Note = Silent | NoInit | NoMem | Inval | Complete | NullCallback

  /** callback says whether there is one, notified whether the waiter's notification succeeded. */
  function NoteOf(outcome: Outcome, callback: bool, notified: bool): Note {
    match outcome
    case Sent(_) => if callback then Complete else if notified then Silent else NullCallback
    case OutOfMemory => Silent
    case NoData => if callback then NoInit else Silent
    case NoConnection => if callback then NoMem else Silent
    case RingFull => if callback then Inval else Silent
  }

  lemma CountIsWord(kind: Kind, bits: seq<bool>)
    requires 0 < |bits| < WORD
    ensures ReceiverCount(kind, bits) < WORD
  {
    var lo := if kind == Unicast then |bits| else 1;
    var hi := if kind == Unicast then |bits| + 1 else |bits| - |bits| / 2 + 1;
    CountIsSize(bits, lo, hi);
    CountNone(bits[lo - 1..hi - 1]);
  }

  /** Ipc::write: connect if need be (as a receiver: that is connect's default), store the
      payload with the table's receiver count, and push its descriptor.  A message that the
      full ring refuses has still been stored, and stays in the sender's table. */
  method Write(q: R.Queue, sender: F.Sender, data: Bytes, callback: bool, notified: bool)
    returns (outcome: Outcome, note: Note)
    requires q.segment.Valid() && (q.connectedId != 0 ==> q.Valid())
    requires TableSize(q.segment.table.cc.Length) && q.segment.table.cc.Length < WORD
    requires Ok(sender.View())
    modifies q`connectedId, q`cursor, q`taken, q.segment.table.cc
    modifies q.segment`w, q.segment`pushed, q.segment.block, sender, sender.mem
    ensures q.segment.Valid() && Ok(sender.View()) && q.segment.freed == old(q.segment.freed)
    ensures q.segment.pushed == old(q.segment.pushed) + match outcome case Sent(d) => [d] case _ => []
    ensures q.connectedId != 0 ==> q.Valid()
    ensures q.taken == if old(q.connectedId) == 0 && q.connectedId != 0 then q.segment.freed else old(q.taken)
    ensures data == [] || old(q.connectedId) != 0 ==>
              q.connectedId == old(q.connectedId) && q.segment.table.cc[..] == old(q.segment.table.cc[..])
    ensures data != [] && old(q.connectedId) == 0 ==>
              ConnectedAs(q.segment.table.kind, old(q.segment.table.cc[..]), q.connectedId, q.segment.table.cc[..])
    ensures data == [] <==> outcome == NoData
    ensures data != [] && (q.connectedId == 0 || Count(q.segment.table.cc[..]) == 0) <==> outcome == NoConnection
    ensures outcome == NoData || outcome == NoConnection ==> sender.View() == old(sender.View())
    ensures callback ==>
              && (note == Complete <==> outcome.Sent?) && (note == Inval <==> outcome == RingFull)
              && (note == NoInit <==> outcome == NoData) && (note == NoMem <==> outcome == NoConnection)
              && (note == Silent <==> outcome == OutOfMemory)
    ensures !callback ==> note == if outcome.Sent? && !notified then NullCallback else Silent
    ensures note == Complete ==> |q.segment.pushed| == old(|q.segment.pushed|) + 1
    ensures note == Inval ==>
              q.segment.pushed == old(q.segment.pushed) && |q.segment.pushed| - q.segment.freed == CAPACITY
    ensures data != [] && q.connectedId != 0 && Count(q.segment.table.cc[..]) != 0 ==>
              Stored(old(sender.View()), sender.View(), sender.id, data,
                     ReceiverCount(q.segment.table.kind, q.segment.table.cc[..]), outcome,
                     old(|q.segment.pushed| - q.segment.freed) < CAPACITY)
  {
    if data == [] {
      return NoData, if callback then NoInit else Silent;
    }
    var ready := Prepare(q);
    if !ready {
      return NoConnection, if callback then NoMem else Silent;
    }
    outcome := StoreCounted(q.segment, sender, data);
    note := NoteOf(outcome, callback, notified);
  }

  /** The payload is counted by the table's receivers. */
  method StoreCounted(segment: R.Segment, sender: F.Sender, data: Bytes) returns (outcome: Outcome)
    requires segment.Valid() && Ok(sender.View()) && 0 < segment.table.cc.Length < WORD
    modifies segment`w, segment`pushed, segment.block, sender, sender.mem
    ensures segment.Valid() && Ok(sender.View()) && segment.freed == old(segment.freed)
    ensures segment.pushed == old(segment.pushed) + match outcome case Sent(d) => [d] case _ => []
    ensures Stored(old(sender.View()), sender.View(), sender.id, data,
                   ReceiverCount(segment.table.kind, segment.table.cc[..]), outcome,
                   old(|segment.pushed| - segment.freed) < CAPACITY)
  {
    var cnt := segment.table.RecvCount();
    CountIsWord(segment.table.kind, segment.table.cc[..]);
    outcome := StoreAndPush(segment, sender, data, cnt);
  }

  /** The tests before a payload is stored: the queue is connected, or can be, and the
      table has connections. */
  method Prepare(q: R.Queue) returns (ready: bool)
    requires q.segment.Valid() && (q.connectedId != 0 ==> q.Valid())
    requires TableSize(q.segment.table.cc.Length)
    modifies q`connectedId, q`cursor, q`taken, q.segment.table.cc
    ensures q.segment.Valid() && (q.connectedId != 0 ==> q.Valid())
    ensures ready <==> q.connectedId != 0 && Count(q.segment.table.cc[..]) != 0
    ensures q.taken == if old(q.connectedId) == 0 && q.connectedId != 0 then q.segment.freed else old(q.taken)
    ensures old(q.connectedId) != 0 ==>
              q.connectedId == old(q.connectedId) && q.segment.table.cc[..] == old(q.segment.table.cc[..])
    ensures old(q.connectedId) == 0 ==>
              ConnectedAs(q.segment.table.kind, old(q.segment.table.cc[..]), q.connectedId, q.segment.table.cc[..])
  {
    var connected, stray := q.Connect(Receiving);
    var connections := q.segment.table.Connections();
    ready := connected && connections != 0;
  }

  /** A receiver's connect: the least free slot of its range, which is then taken. */
  ghost predicate ConnectedAs(kind: Kind, bits: seq<bool>, id: nat, now: seq<bool>) {
    TableSize(|bits|) &&
    id == FirstFree(bits, Low(kind, Receiving, |bits|), High(kind, Receiving, |bits|)) &&
    now == if id == 0 then bits else bits[id - 1 := true]
  }

  /** The payload goes into the arena first and its descriptor into the ring after. */
  method StoreAndPush(segment: R.Segment, sender: F.Sender, data: Bytes, cnt: nat) returns (outcome: Outcome)
    requires segment.Valid() && Ok(sender.View()) && cnt < WORD
    modifies segment`w, segment`pushed, segment.block, sender, sender.mem
    ensures segment.Valid() && Ok(sender.View()) && segment.freed == old(segment.freed)
    ensures segment.pushed == old(segment.pushed) + match outcome case Sent(d) => [d] case _ => []
    ensures Stored(old(sender.View()), sender.View(), sender.id, data, cnt, outcome,
                   old(|segment.pushed| - segment.freed) < CAPACITY)
  {
    var desc := sender.Write(data, cnt);
    if desc.None? {
      return OutOfMemory;
    }
    var pushed := segment.Push(desc.value);
    outcome := if pushed then Sent(desc.value) else RingFull;
  }

  /** The arena took the write, and the descriptor went into the ring if there was room. */
  ghost predicate Stored(before: Arena, now: Arena, id: nat, data: Bytes, cnt: nat, outcome: Outcome, room: bool) {
    LiveOk(before) && cnt < WORD &&
    var (view, at) := WriteSpec(before, data, cnt);
    && now == view
    && outcome == match at
                  case None => OutOfMemory
                  case Some(off) => if room then Sent(Descriptor(id, off, PoolSize(|data|))) else RingFull
  }
}
