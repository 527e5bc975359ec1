/** The ring's payloads, kept in the sender's arena.

The step system of the ring keeps its payloads in a map from descriptors.  Here every step of
it is accompanied by what it does to the arena's bytes, and the map turns out to be what the
arena holds.
*/
module PoolInArena {
  import opened Words
  import opened Protocol
  import opened ProtocolInv
  import opened ProtocolSteps
  import A = Payloads
  import J = ProtocolJam

  /** b is the arena after the action, if a is the arena before. */
  ghost predicate Follows(s: State, act: Action, id: nat, a: A.Arena, b: A.Arena) {
    match act
    case SendWrite(msg) =>
      && A.LiveOk(a) && msg.cnt < WORD
      && A.WriteSpec(a, msg.data, msg.cnt) == (b, Some(msg.desc.offset))
      && msg.desc == Descriptor(id, msg.desc.offset, A.PoolSize(|msg.data|))
    case Recv(i, _) =>
      if i < |s.recvs| && s.recvs[i].pc.AtDecrement? then
        var off := s.recvs[i].pc.desc.offset;
        off + A.COUNT_SIZE <= |a.mem| && b == a.(mem := A.CountedDown(a.mem, off))
      else b == a
    case _ => b == a
  }

  /** Some handle on the arena's object may have set the counter in its last bytes, as one does
      that opens or releases it. */
  ghost predicate HandlesCounted(a: A.Arena, b: A.Arena) {
    b == a || (A.Ok(a) && exists refs: nat :: refs < WORD && b == A.After(a, A.CountHandle(refs)))
  }

  /** A run of the ring, with the arena along, and with handles coming and going. */
  ghost predicate RunsWith(s: State, a: A.Arena, id: nat, acts: seq<Action>, t: State, b: A.Arena)
    decreases |acts|
  {
    if acts == [] then s == t && a == b
    else
      && Enabled(s, acts[0])
      && exists e, c :: HandlesCounted(a, e) && Follows(s, acts[0], id, e, c)
                        && RunsWith(Apply(s, acts[0]), c, id, acts[1..], t, b)
  }

  // ----- the map is what the arena holds

  ghost predicate HeldIn(a: A.Arena, d: Descriptor, p: Payload, k: nat) {
    && k < |a.blocks| && a.blocks[k] == A.Block(d.offset, p.data)
    && d.length == A.PoolSize(|p.data|)
    && A.CountOf(a.mem, a.blocks[k]) == p.count
  }

  ghost predicate Held(a: A.Arena, d: Descriptor, p: Payload) {
    exists k: nat :: HeldIn(a, d, p, k)
  }

  ghost predicate Coupled(pool: map<Descriptor, Payload>, a: A.Arena, id: nat) {
    && A.Ok(a)
    && forall d :: d in pool ==> d.id == id && Held(a, d, pool[d])
  }

  /** A write goes to a place that no payload has. */
  lemma WriteIsFresh(pool: map<Descriptor, Payload>, a: A.Arena, id: nat, msg: Message)
    requires Coupled(pool, a, id) && A.LiveOk(a) && msg.cnt < WORD
    requires A.WriteSpec(a, msg.data, msg.cnt).1 == Some(msg.desc.offset)
    ensures msg.desc !in pool
  {
    A.FreshKey(a, msg.data, msg.cnt);
    forall d | d in pool
      ensures d.offset != msg.desc.offset
    {
      var k: nat :| HeldIn(a, d, pool[d], k);
      assert a.blocks[k].offset == d.offset;
    }
  }

  lemma WriteCoupled(pool: map<Descriptor, Payload>, a: A.Arena, id: nat, msg: Message, b: A.Arena)
    requires Coupled(pool, a, id) && A.LiveOk(a) && msg.cnt < WORD
    requires A.WriteSpec(a, msg.data, msg.cnt) == (b, Some(msg.desc.offset))
    requires msg.desc == Descriptor(id, msg.desc.offset, A.PoolSize(|msg.data|))
    ensures Coupled(pool[msg.desc := Payload(msg.cnt, msg.data)], b, id)
  {
    var more := pool[msg.desc := Payload(msg.cnt, msg.data)];
    A.WriteKeepsOk(a, msg.data, msg.cnt);
    A.WriteCounts(a, msg.data, msg.cnt);
    assert b.blocks == a.blocks + [A.Block(msg.desc.offset, msg.data)];
    forall d | d in more
      ensures Held(b, d, more[d])
    {
      if d == msg.desc {
        assert HeldIn(b, d, more[d], |a.blocks|);
      } else {
        var k: nat :| HeldIn(a, d, pool[d], k);
        assert HeldIn(b, d, more[d], k);
      }
    }
  }

  /** A handle's counter lies clear of every payload. */
  lemma HandlesCoupled(pool: map<Descriptor, Payload>, a: A.Arena, id: nat, b: A.Arena)
    requires Coupled(pool, a, id) && HandlesCounted(a, b)
    ensures Coupled(pool, b, id) && b.live == a.live
  {
    if b != a {
      var refs: nat :| refs < WORD && b == A.After(a, A.CountHandle(refs));
      A.EventKeepsOk(a, A.CountHandle(refs));
      forall d | d in pool
        ensures Held(b, d, pool[d])
      {
        var k: nat :| HeldIn(a, d, pool[d], k);
        A.HandleCounts(a, refs, k);
        assert HeldIn(b, d, pool[d], k);
      }
    }
  }

  /** Two blocks do not begin at the same place. */
  lemma OneBlock(a: A.Arena, j: nat, k: nat)
    requires A.Ok(a) && j < |a.blocks| && k < |a.blocks| && a.blocks[j].offset == a.blocks[k].offset
    ensures j == k
  {
    A.PoolSizeBounds(|a.blocks[j].data|);
    A.PoolSizeBounds(|a.blocks[k].data|);
  }

  function Less(p: Payload): Payload {
    Payload(Wrap32(p.count - 1), p.data)
  }

  /** Counting block k down changes the count of the payload there and of no other. */
  lemma HeldAfterRead(a: A.Arena, d: Descriptor, q: Payload, k: nat, e: Descriptor, p: Payload, j: nat)
    requires A.Ok(a) && HeldIn(a, d, q, k) && HeldIn(a, e, p, j) && d.id == e.id
    ensures HeldIn(A.After(a, A.ReadBlock(k)), e, if e == d then Less(p) else p, j)
  {
    A.ReadCounts(a, k, j);
    if e == d {
      OneBlock(a, j, k);
    }
  }

  lemma ReadAsEvent(a: A.Arena, d: Descriptor, q: Payload, k: nat)
    requires A.Ok(a) && HeldIn(a, d, q, k)
    ensures d.offset + A.COUNT_SIZE <= |a.mem|
    ensures A.After(a, A.ReadBlock(k)) == a.(mem := A.CountedDown(a.mem, d.offset))
    ensures A.Ok(A.After(a, A.ReadBlock(k)))
  {
    assert A.BlockOk(a.mem, a.next, a.blocks[k]);
    A.EventKeepsOk(a, A.ReadBlock(k));
  }

  lemma AllHeldAfterRead(pool: map<Descriptor, Payload>, a: A.Arena, id: nat, d: Descriptor, k: nat)
    requires Coupled(pool, a, id) && d in pool && HeldIn(a, d, pool[d], k)
    ensures forall e :: e in pool ==> Held(A.After(a, A.ReadBlock(k)), e, if e == d then Less(pool[e]) else pool[e])
  {
    forall e | e in pool
      ensures Held(A.After(a, A.ReadBlock(k)), e, if e == d then Less(pool[e]) else pool[e])
    {
      var j: nat :| HeldIn(a, e, pool[e], j);
      HeldAfterRead(a, d, pool[d], k, e, pool[e], j);
    }
  }

  lemma DecrementCoupled(pool: map<Descriptor, Payload>, a: A.Arena, id: nat, d: Descriptor)
    requires Coupled(pool, a, id) && d in pool
    ensures d.offset + A.COUNT_SIZE <= |a.mem|
    ensures Coupled(pool[d := Less(pool[d])], a.(mem := A.CountedDown(a.mem, d.offset)), id)
  {
    var k: nat :| HeldIn(a, d, pool[d], k);
    ReadAsEvent(a, d, pool[d], k);
    AllHeldAfterRead(pool, a, id, d, k);
    LessCoupled(pool, a.(mem := A.CountedDown(a.mem, d.offset)), id, d);
  }

  lemma LessCoupled(pool: map<Descriptor, Payload>, b: A.Arena, id: nat, d: Descriptor)
    requires A.Ok(b) && d in pool && forall e :: e in pool ==> e.id == id
    requires forall e :: e in pool ==> Held(b, e, if e == d then Less(pool[e]) else pool[e])
    ensures Coupled(pool[d := Less(pool[d])], b, id)
  {
    var less := pool[d := Less(pool[d])];
    forall e | e in less
      ensures e.id == id && Held(b, e, less[e])
    {
      assert e in pool;
    }
  }

  lemma RecvPool(s: State, i: nat, ok: bool)
    requires Enabled(s, Recv(i, ok))
    ensures var pool := RecvApply(s, i, ok).pool;
      if s.recvs[i].pc.AtDecrement? then
        var d := s.recvs[i].pc.desc; d in s.pool && pool == s.pool[d := Less(s.pool[d])]
      else pool == s.pool
  {
    match s.recvs[i].pc
    case AtDecrement(d, seen) =>
    case _ =>
  }

  /** What an action does to the payloads. */
  lemma StepPool(s: State, act: Action)
    requires Enabled(s, act)
    ensures var pool := Apply(s, act).pool;
      if act.SendWrite? then pool == s.pool[act.msg.desc := Payload(act.msg.cnt, act.msg.data)]
      else if act.Recv? && s.recvs[act.i].pc.AtDecrement? then
        var d := s.recvs[act.i].pc.desc; d in s.pool && pool == s.pool[d := Less(s.pool[d])]
      else pool == s.pool
  {
    match act
    case Recv(i, ok) => RecvPool(s, i, ok);
    case _ =>
  }

  lemma StepCoupled(s: State, act: Action, id: nat, a: A.Arena, b: A.Arena)
    requires Enabled(s, act) && Coupled(s.pool, a, id) && Follows(s, act, id, a, b)
    ensures Coupled(Apply(s, act).pool, b, id)
  {
    StepPool(s, act);
    var pool := Apply(s, act).pool;
    if act.SendWrite? {
      WriteCoupled(s.pool, a, id, act.msg, b);
    } else if act.Recv? && s.recvs[act.i].pc.AtDecrement? {
      DecrementCoupled(s.pool, a, id, s.recvs[act.i].pc.desc);
    }
  }

  // ----- the table keeps what is still to be read

  /** A payload for all the receivers is in the sender's table until all have read it. */
  ghost predicate Kept(s: State, a: A.Arena) {
    && (forall m: nat :: m < |s.hist| && 0 < s.hist[m].cnt == |s.recvs| ==>
          s.hist[m].desc.offset in a.live || ReadByAll(s, m))
    && (!s.sender.Idle? && 0 < s.sender.msg.cnt ==> s.sender.msg.desc.offset in a.live)
  }

  /** The bytes lie in the arena where the descriptor says, behind this count. */
  ghost predicate HeldAt(a: A.Arena, d: Descriptor, data: Bytes, count: nat) {
    && d.offset + A.COUNT_SIZE + |data| <= |a.mem|
    && a.mem[d.offset + A.COUNT_SIZE..][..|data|] == data
    && A.Load32(a.mem, d.offset) == count
  }

  lemma HeldCount(pool: map<Descriptor, Payload>, a: A.Arena, id: nat, d: Descriptor)
    requires Coupled(pool, a, id) && d in pool
    ensures HeldAt(a, d, pool[d].data, pool[d].count)
  {
    var k: nat :| HeldIn(a, d, pool[d], k);
    assert A.BlockOk(a.mem, a.next, a.blocks[k]);
  }

  /** Recycling drops a pushed payload for all the receivers only when all have read it. */
  lemma DroppedWhenRead(s: State, a: A.Arena, id: nat, m: nat)
    requires Bounds(s) && PayloadsOk(s) && Coupled(s.pool, a, id) && A.LiveOk(a)
    requires m < |s.hist| && 0 < s.hist[m].cnt == |s.recvs|
    ensures var off := s.hist[m].desc.offset;
      off in a.live ==> (off !in A.Recycled(a.mem, a.live) <==> ReadByAll(s, m))
  {
    CountZero(s, m);
    HeldCount(s.pool, a, id, s.hist[m].desc);
  }

  lemma ReadStays(s: State, act: Action, m: nat)
    requires Enabled(s, act) && ReadByAll(s, m)
    ensures ReadByAll(Apply(s, act), m)
  {
    var t := Apply(s, act);
    J.StepGrows(s, act);
    forall i: nat | i < |t.recvs|
      ensures Read(t, i, m)
    {
      assert Read(s, i, m) && s.recvs[i].done <= t.recvs[i].done;
    }
  }

  lemma WriteKept(s: State, id: nat, a: A.Arena, msg: Message, b: A.Arena)
    requires Bounds(s) && PayloadsOk(s) && Coupled(s.pool, a, id) && Kept(s, a)
    requires Enabled(s, SendWrite(msg)) && Follows(s, SendWrite(msg), id, a, b)
    ensures Kept(Apply(s, SendWrite(msg)), b)
  {
    var t := Apply(s, SendWrite(msg));
    forall m: nat | m < |t.hist| && 0 < t.hist[m].cnt == |t.recvs|
      ensures t.hist[m].desc.offset in b.live || ReadByAll(t, m)
    {
      DroppedWhenRead(s, a, id, m);
      if ReadByAll(s, m) {
        ReadStays(s, SendWrite(msg), m);
      }
    }
  }

  lemma OtherKept(s: State, act: Action, a: A.Arena, b: A.Arena)
    requires Enabled(s, act) && Kept(s, a) && !act.SendWrite? && b.live == a.live
    ensures Kept(Apply(s, act), b)
  {
    var t := Apply(s, act);
    J.StepGrows(s, act);
    forall m: nat | m < |t.hist| && 0 < t.hist[m].cnt == |t.recvs|
      ensures t.hist[m].desc.offset in b.live || ReadByAll(t, m)
    {
      if m < |s.hist| && ReadByAll(s, m) {
        ReadStays(s, act, m);
      }
    }
  }

  lemma StepKept(s: State, act: Action, id: nat, a: A.Arena, b: A.Arena)
    requires Inv(s) && Enabled(s, act) && Coupled(s.pool, a, id) && Kept(s, a)
    requires Follows(s, act, id, a, b)
    ensures Kept(Apply(s, act), b)
  {
    if act.SendWrite? {
      WriteKept(s, id, a, act.msg, b);
    } else {
      OtherKept(s, act, a, b);
    }
  }

  lemma {:induction false} RunKept(s: State, a: A.Arena, id: nat, acts: seq<Action>, t: State, b: A.Arena)
    requires Inv(s) && AllFit(acts, |s.recvs|) && RunsWith(s, a, id, acts, t, b)
    requires Coupled(s.pool, a, id) && Kept(s, a)
    ensures Inv(t) && |t.recvs| == |s.recvs| && Coupled(t.pool, b, id) && Kept(t, b)
    decreases |acts|
  {
    if acts != [] {
      var e, c :| HandlesCounted(a, e) && Follows(s, acts[0], id, e, c)
                  && RunsWith(Apply(s, acts[0]), c, id, acts[1..], t, b);
      HandlesCoupled(s.pool, a, id, e);
      StepKeepsInv(s, acts[0]);
      StepCoupled(s, acts[0], id, e, c);
      StepKept(s, acts[0], id, e, c);
      RunKept(Apply(s, acts[0]), c, id, acts[1..], t, b);
    }
  }

  ghost predicate Reached(n: nat, id: nat, acts: seq<Action>, s: State, a: A.Arena) {
    exists base: nat, slots: seq<Descriptor>, empty: A.Arena ::
      && |slots| == SLOTS && AllFit(acts, n) && A.Ok(empty)
      && RunsWith(Start(n, base, slots), empty, id, acts, s, a)
  }

  lemma ReachedKept(n: nat, id: nat, acts: seq<Action>, s: State, a: A.Arena)
    requires n < WORD && Reached(n, id, acts, s, a)
    ensures Inv(s) && |s.recvs| == n && Coupled(s.pool, a, id) && Kept(s, a)
  {
    var base: nat, slots: seq<Descriptor>, empty: A.Arena :|
      && |slots| == SLOTS && AllFit(acts, n) && A.Ok(empty)
      && RunsWith(Start(n, base, slots), empty, id, acts, s, a);
    StartInv(n, base, slots);
    RunKept(Start(n, base, slots), empty, id, acts, s, a);
  }

  lemma PushedPayload(s: State, m: nat) returns (d: Descriptor, p: Payload)
    requires PayloadsOk(s) && m < |s.hist|
    ensures d == s.hist[m].desc && d in s.pool && s.pool[d] == p
    ensures p == Payload(Wrap32(s.hist[m].cnt - |Readers(s, m)|), s.hist[m].data)
  {
    assert PayloadOk(s, m);
    d, p := s.hist[m].desc, s.pool[s.hist[m].desc];
  }

  /** In every run, the arena holds each pushed message where its descriptor says: the bytes
      that were sent, and a count of what it started from less one for each receiver that has
      read it. */
  lemma ArenaHoldsMessages(n: nat, id: nat, acts: seq<Action>, s: State, a: A.Arena, m: nat)
    requires n < WORD && Reached(n, id, acts, s, a) && m < |s.hist|
    ensures HeldAt(a, s.hist[m].desc, s.hist[m].data, Wrap32(s.hist[m].cnt - |Readers(s, m)|))
  {
    ReachedKept(n, id, acts, s, a);
    var d, p := PushedPayload(s, m);
    HeldCount(s.pool, a, id, d);
  }

  /** In every run, a message for all the receivers leaves the sender's table only after every
      one of them has read it, and is gone from it after the next recycling once they have. */
  lemma ForgottenIffReadByAll(n: nat, id: nat, acts: seq<Action>, s: State, a: A.Arena, m: nat)
    requires 0 < n < WORD && Reached(n, id, acts, s, a) && m < |s.hist| && s.hist[m].cnt == n
    ensures A.LiveOk(a)
    ensures s.hist[m].desc.offset !in a.live ==> ReadByAll(s, m)
    ensures s.hist[m].desc.offset !in A.Recycled(a.mem, a.live) <==> ReadByAll(s, m)
  {
    ReachedKept(n, id, acts, s, a);
    A.OkLive(a);
    DroppedWhenRead(s, a, id, m);
  }

  /** In every run, the next write forgets a message for all the receivers if and only if every
      one of them has read it. */
  lemma ForgottenByNextWrite(n: nat, id: nat, acts: seq<Action>, s: State, a: A.Arena, m: nat, msg: Message)
    requires 0 < n < WORD && Reached(n, id, acts, s, a) && m < |s.hist| && s.hist[m].cnt == n && msg.cnt < WORD
    ensures A.LiveOk(a)
    ensures s.hist[m].desc.offset !in A.WriteSpec(a, msg.data, msg.cnt).0.live <==> ReadByAll(s, m)
  {
    ReachedKept(n, id, acts, s, a);
    ForgottenIffReadByAll(n, id, acts, s, a, m);
    A.WriteForgets(a, msg.data, msg.cnt);
    var d, p := PushedPayload(s, m);
    var k: nat :| HeldIn(a, d, p, k);
    if A.WriteSpec(a, msg.data, msg.cnt).1.Some? {
      A.FreshKey(a, msg.data, msg.cnt);
    }
  }

  /** In every run, a place that the arena hands out for a new payload is not that of any
      payload already written. */
  lemma HandedOutFresh(n: nat, id: nat, acts: seq<Action>, s: State, a: A.Arena, msg: Message)
    requires n < WORD && Reached(n, id, acts, s, a) && msg.cnt < WORD
    ensures A.LiveOk(a)
    ensures A.WriteSpec(a, msg.data, msg.cnt).1 == Some(msg.desc.offset) ==> msg.desc !in s.pool
  {
    ReachedKept(n, id, acts, s, a);
    A.OkLive(a);
    if A.WriteSpec(a, msg.data, msg.cnt).1 == Some(msg.desc.offset) {
      WriteIsFresh(s.pool, a, id, msg);
    }
  }
}
