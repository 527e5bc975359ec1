/** Every atomic step keeps the invariant. */
module ProtocolSteps {
  import opened Words
  import opened Sets
  import opened Protocol
  import opened ProtocolInv

  /** s and t differ in receiver i alone, as far as the receivers go. */
  ghost predicate OnlyRecv(s: State, t: State, i: nat) {
    && i < |s.recvs| == |t.recvs|
    && t.recvs == s.recvs[i := t.recvs[i]]
  }

  ghost predicate SameShared(s: State, t: State) {
    t == s.(mutex := t.mutex, recvs := t.recvs)
  }

  lemma SameReads(s: State, t: State, i: nat)
    requires OnlyRecv(s, t, i) && s.hist == t.hist
    requires forall m: nat :: Read(s, i, m) <==> Read(t, i, m)
    ensures forall m: nat :: Readers(s, m) == Readers(t, m)
    ensures forall m: nat :: Due(s, m) <==> Due(t, m)
  {
    forall m: nat
      ensures Readers(s, m) == Readers(t, m)
      ensures Due(s, m) <==> Due(t, m)
    {
      assert forall j: nat :: j < |s.recvs| && j != i ==> t.recvs[j] == s.recvs[j];
      assert forall j: nat :: Read(s, j, m) <==> Read(t, j, m);
    }
  }

  /** The mutex makes the receiver that holds it the only one inside its drain. */
  lemma OnlyHolder(s: State, i: nat, j: nat)
    requires MutexOk(s) && i < |s.recvs| && j < |s.recvs|
    requires Holding(s.recvs[i]) && Holding(s.recvs[j])
    ensures i == j
  {
  }

  lemma MutexKept(s: State, t: State, i: nat)
    requires MutexOk(s) && OnlyRecv(s, t, i)
    requires Holding(s.recvs[i]) || s.mutex.None?
    requires t.mutex == (if Holding(t.recvs[i]) then Some(i) else None)
    ensures MutexOk(t)
  {
    forall j: nat | j < |t.recvs|
      ensures Holding(t.recvs[j]) <==> t.mutex == Some(j)
    {
      assert j != i ==> t.recvs[j] == s.recvs[j];
    }
  }

  lemma RecvsKept(s: State, t: State, i: nat)
    requires RecvsOk(s) && OnlyRecv(s, t, i)
    requires s.hist == t.hist && s.base == t.base
    requires RecvOk(s.hist, s.base, t.recvs[i])
    ensures RecvsOk(t)
  {
    forall j: nat | j < |t.recvs|
      ensures RecvOk(t.hist, t.base, t.recvs[j])
    {
      assert j != i ==> t.recvs[j] == s.recvs[j];
    }
  }

  lemma PayloadsKept(s: State, t: State)
    requires PayloadsOk(s)
    requires s.hist == t.hist && s.pool == t.pool && |s.recvs| == |t.recvs|
    requires forall m: nat :: Readers(s, m) == Readers(t, m)
    ensures PayloadsOk(t)
  {
    forall m: nat | m < |t.hist|
      ensures PayloadOk(t, m)
    {
      assert PayloadOk(s, m);
      assert Readers(s, m) == Readers(t, m);
    }
  }

  /** Receiver i is alive, and is at no decision before or after. */
  ghost predicate Undecided(s: State, t: State, i: nat) {
    && OnlyRecv(s, t, i) && s.recvs[i].life.Alive? && t.recvs[i].life.Alive?
    && !AtDecision(s.recvs[i].pc) && !AtDecision(t.recvs[i].pc)
  }

  /** Only the dead leave orphans. */
  lemma SameOrphans(s: State, t: State, i: nat, m: nat)
    requires OnlyRecv(s, t, i) && s.recvs[i].life.Alive? && t.recvs[i].life.Alive?
    ensures Orphaned(s, m) <==> Orphaned(t, m)
  {
    if Orphaned(s, m) {
      var j: nat :| j < |s.recvs| && s.recvs[j].life == Dead(true) && |s.recvs[j].done| == m + 1;
      assert t.recvs[j] == s.recvs[j];
    }
    if Orphaned(t, m) {
      var j: nat :| j < |t.recvs| && t.recvs[j].life == Dead(true) && |t.recvs[j].done| == m + 1;
      assert t.recvs[j] == s.recvs[j];
    }
  }

  lemma DeciderIsOk(s: State, i: nat)
    requires ReleasesOk(s) && i < |s.recvs|
    ensures DeciderOk(s, i)
  {
  }

  /** Deciders other than i are as they were, if nothing has become less due. */
  lemma DecidersKept(s: State, t: State, i: nat)
    requires ReleasesOk(s) && OnlyRecv(s, t, i) && s.recvs[i].life.Alive? && t.recvs[i].life.Alive?
    requires (forall m: nat :: Due(s, m) ==> Due(t, m)) && DeciderOk(t, i)
    ensures forall j: nat :: j < |t.recvs| ==> DeciderOk(t, j)
  {
    forall j: nat | j < |t.recvs|
      ensures DeciderOk(t, j)
    {
      DeciderIsOk(s, j);
      if j != i {
        assert t.recvs[j] == s.recvs[j];
        if |s.recvs[j].done| > 0 {
          SameOrphans(s, t, i, |s.recvs[j].done| - 1);
        }
      }
    }
  }

  lemma DueKept(s: State, t: State, i: nat)
    requires ReleasesOk(s) && Undecided(s, t, i) && s.releases == t.releases
    requires forall m: nat :: Due(s, m) <==> Due(t, m)
    ensures ReleasesOk(t)
  {
    forall m: nat
      ensures Pending(s, m) <==> Pending(t, m)
    {
      SamePending(s, t, i, m);
    }
    DecidersKept(s, t, i);
  }

  lemma SharedKept(s: State, t: State)
    requires Bounds(s) && SlotsOk(s) && SenderOk(s)
    requires SameShared(s, t) && |s.recvs| == |t.recvs|
    ensures Bounds(t) && SlotsOk(t) && SenderOk(t)
  {
  }

  /** A receiver step that neither copies, finishes nor decides a message. */
  lemma QuietStep(s: State, t: State, i: nat)
    requires Inv(s) && OnlyRecv(s, t, i) && SameShared(s, t) && MutexOk(t)
    requires forall m: nat :: Read(s, i, m) <==> Read(t, i, m)
    requires Undecided(s, t, i)
    requires RecvOk(s.hist, s.base, t.recvs[i])
    ensures Inv(t)
  {
    SameReads(s, t, i);
    SharedKept(s, t);
    PayloadsKept(s, t);
    DueKept(s, t, i);
    RecvsKept(s, t, i);
  }

  lemma SamePending(s: State, t: State, i: nat, m: nat)
    requires OnlyRecv(s, t, i)
    requires !Deciding(s.recvs[i]) && !Deciding(t.recvs[i])
    ensures Pending(s, m) <==> Pending(t, m)
  {
    if Pending(s, m) {
      var j: nat :| j < |s.recvs| && Deciding(s.recvs[j]) && |s.recvs[j].done| == m + 1;
      assert t.recvs[j] == s.recvs[j];
    }
    if Pending(t, m) {
      var j: nat :| j < |t.recvs| && Deciding(t.recvs[j]) && |t.recvs[j].done| == m + 1;
      assert t.recvs[j] == s.recvs[j];
    }
  }

  // ----- the steps of a receiver, from wait_for to the lookup of the payload

  ghost predicate Quiet(pc: ReceiverPc) {
    !pc.AtDecrement? && !AtDecision(pc)
  }

  /** A receiver about to copy finds the message at its cursor still in its slot. */
  lemma SlotIntact(s: State, i: nat)
    requires Inv(s) && i < |s.recvs| && s.recvs[i].pc.AtCopy?
    ensures s.recvs[i].pc.idx < SLOTS
    ensures s.slots[s.recvs[i].pc.idx] == s.hist[|s.recvs[i].taken|].desc
  {
    assert RecvOk(s.hist, s.base, s.recvs[i]);
    ReleasedBelow(s, i);
  }

  /** Receiver i can take a step from this state, whose history it agrees with. */
  ghost predicate AtStep(s: State, i: nat, ok: bool) {
    && Enabled(s, Recv(i, ok))
    && RecvOk(s.hist, s.base, s.recvs[i])
  }

  lemma EmptyRecvOk(s: State, i: nat, ok: bool)
    requires AtStep(s, i, ok) && Bounds(s) && |s.releases| <= |s.recvs[i].taken|
    requires s.recvs[i].pc.AtEmpty? || s.recvs[i].pc.AtPop?
    ensures RecvOk(s.hist, s.base, RecvApply(s, i, ok).recvs[i])
  {
    EmptyTestMeans(s.base, |s.recvs[i].taken|, |s.hist|);
  }

  lemma BumpRecvOk(s: State, i: nat, ok: bool)
    requires AtStep(s, i, ok) && s.recvs[i].pc.AtBump?
    ensures RecvOk(s.hist, s.base, RecvApply(s, i, ok).recvs[i])
  {
    Low8OfWrap(s.base + |s.recvs[i].taken|);
    WrapStep(s.base + |s.recvs[i].taken|);
  }

  lemma CopyRecvOk(s: State, i: nat, ok: bool)
    requires AtStep(s, i, ok) && s.recvs[i].pc.AtCopy?
    requires s.slots[s.recvs[i].pc.idx] == s.hist[|s.recvs[i].taken|].desc
    ensures RecvOk(s.hist, s.base, RecvApply(s, i, ok).recvs[i])
  {
  }

  lemma ReadRecvOk(s: State, i: nat, ok: bool)
    requires AtStep(s, i, ok) && s.recvs[i].pc.AtRead?
    requires PayloadsOk(s)
    ensures RecvOk(s.hist, s.base, RecvApply(s, i, ok).recvs[i])
  {
    assert PayloadOk(s, |s.recvs[i].taken| - 1);
  }

  lemma PlainRecvOk(s: State, i: nat, ok: bool)
    requires AtStep(s, i, ok)
    requires var pc := s.recvs[i].pc; pc.Outside? || pc.Locked? || pc.Waiting? || pc.Leaving?
    ensures RecvOk(s.hist, s.base, RecvApply(s, i, ok).recvs[i])
  {
  }

  lemma QuietRecvOk(s: State, i: nat, ok: bool)
    requires Inv(s) && Enabled(s, Recv(i, ok)) && Quiet(s.recvs[i].pc)
    ensures RecvOk(s.hist, s.base, RecvApply(s, i, ok).recvs[i])
  {
    assert AtStep(s, i, ok);
    match s.recvs[i].pc
    case AtEmpty => ReleasedBelow(s, i); EmptyRecvOk(s, i, ok);
    case AtPop => ReleasedBelow(s, i); EmptyRecvOk(s, i, ok);
    case AtBump => BumpRecvOk(s, i, ok);
    case AtCopy(_) => SlotIntact(s, i); CopyRecvOk(s, i, ok);
    case AtRead(_) => ReadRecvOk(s, i, ok);
    case _ => PlainRecvOk(s, i, ok);
  }

  /** What a quiet step leaves alone, read off the code. */
  lemma QuietShape(s: State, i: nat, ok: bool)
    requires Enabled(s, Recv(i, ok)) && Quiet(s.recvs[i].pc)
    ensures var t := RecvApply(s, i, ok);
      && Undecided(s, t, i) && SameShared(s, t)
      && (forall m: nat :: Read(s, i, m) <==> Read(t, i, m))
  {
  }

  lemma RecvMutex(s: State, i: nat, ok: bool)
    requires MutexOk(s) && Enabled(s, Recv(i, ok))
    ensures MutexOk(RecvApply(s, i, ok))
  {
    var t := RecvApply(s, i, ok);
    assert Holding(s.recvs[i]) ==> s.mutex == Some(i);
    assert t.mutex == if Holding(t.recvs[i]) then Some(i) else None;
    MutexKept(s, t, i);
  }

  lemma RecvQuiet(s: State, i: nat, ok: bool)
    requires Inv(s) && Enabled(s, Recv(i, ok)) && Quiet(s.recvs[i].pc)
    ensures Inv(Apply(s, Recv(i, ok)))
  {
    QuietShape(s, i, ok);
    RecvMutex(s, i, ok);
    QuietRecvOk(s, i, ok);
    QuietStep(s, RecvApply(s, i, ok), i);
  }

  // ----- the steps of a receiver that decide about a message

  /** Only the mutex holder decides, so what is pending is its own message or an orphan. */
  lemma PendingIsMine(s: State, i: nat, m: nat)
    requires MutexOk(s) && i < |s.recvs| && Holding(s.recvs[i])
    ensures Pending(s, m) <==> (AtDecision(s.recvs[i].pc) && |s.recvs[i].done| == m + 1) || Orphaned(s, m)
  {
    if Pending(s, m) {
      var j: nat :| j < |s.recvs| && Deciding(s.recvs[j]) && |s.recvs[j].done| == m + 1;
      if s.recvs[j].life.Alive? {
        OnlyHolder(s, i, j);
      }
    }
    if Orphaned(s, m) {
      var j: nat :| j < |s.recvs| && s.recvs[j].life == Dead(true) && |s.recvs[j].done| == m + 1;
      assert Deciding(s.recvs[j]);
    }
    if AtDecision(s.recvs[i].pc) && |s.recvs[i].done| == m + 1 {
      assert Deciding(s.recvs[i]);
    }
  }

  /** An orphan is due, and so this receiver has long read it. */
  lemma OrphanIsRead(s: State, i: nat, m: nat)
    requires ReleasesOk(s) && i < |s.recvs| && Orphaned(s, m)
    ensures Due(s, m) && m < |s.recvs[i].done|
  {
    var j: nat :| j < |s.recvs| && s.recvs[j].life == Dead(true) && |s.recvs[j].done| == m + 1;
    DeciderIsOk(s, j);
    assert Read(s, i, m);
  }

  lemma DecrementRecvOk(s: State, i: nat, ok: bool)
    requires AtStep(s, i, ok) && s.recvs[i].pc.AtDecrement?
    ensures RecvOk(s.hist, s.base, RecvApply(s, i, ok).recvs[i])
  {
    var rv := s.recvs[i];
    var t := rv.(pc := AtLoad(rv.pc.desc), done := rv.done + [Some(rv.pc.seen)]);
    assert RecvApply(s, i, ok).recvs[i] == t;
    assert Cursor(t) == Cursor(rv);
  }

  lemma TestRecvOk(s: State, i: nat, ok: bool)
    requires AtStep(s, i, ok) && (s.recvs[i].pc.AtLoad? || s.recvs[i].pc.AtRelease?)
    ensures RecvOk(s.hist, s.base, RecvApply(s, i, ok).recvs[i])
  {
    var rv := s.recvs[i];
    assert RecvApply(s, i, ok).recvs[i] == rv.(pc := RecvApply(s, i, ok).recvs[i].pc);
  }

  lemma DecidingRecvOk(s: State, i: nat, ok: bool)
    requires AtStep(s, i, ok) && !Quiet(s.recvs[i].pc)
    ensures RecvOk(s.hist, s.base, RecvApply(s, i, ok).recvs[i])
  {
    if s.recvs[i].pc.AtDecrement? {
      DecrementRecvOk(s, i, ok);
    } else {
      TestRecvOk(s, i, ok);
    }
  }

  lemma DecrementReads(s: State, i: nat, ok: bool, m: nat)
    requires AtStep(s, i, ok) && s.recvs[i].pc.AtDecrement?
    ensures var t := RecvApply(s, i, ok);
      Readers(t, m) == if m == |s.recvs[i].done| then Readers(s, m) + {i} else Readers(s, m)
    ensures i in Readers(s, m) ==> m < |s.recvs[i].done|
  {
    var t := RecvApply(s, i, ok);
    assert forall j: nat :: j < |s.recvs| && j != i ==> t.recvs[j] == s.recvs[j];
  }

  lemma CountedDown(s: State, t: State, k: nat, i: nat)
    requires PayloadsOk(s) && k < |s.hist| && s.hist == t.hist && |s.recvs| == |t.recvs|
    requires s.hist[k].desc in s.pool
    requires t.pool == var p := s.pool[s.hist[k].desc]; s.pool[s.hist[k].desc := Payload(Wrap32(p.count - 1), p.data)]
    requires i !in Readers(s, k)
    requires forall m: nat :: Readers(t, m) == if m == k then Readers(s, m) + {i} else Readers(s, m)
    ensures PayloadsOk(t)
  {
    forall m: nat | m < |t.hist|
      ensures PayloadOk(t, m)
    {
      assert PayloadOk(s, m) && PayloadOk(s, k);
      assert m != k ==> Readers(t, m) == Readers(s, m);
      if m == k {
        assert |Readers(t, m)| == |Readers(s, m)| + 1;
        WrapStep(s.hist[m].cnt - |Readers(s, m)|);
      }
    }
  }

  lemma DecrementPayloads(s: State, i: nat, ok: bool)
    requires AtStep(s, i, ok) && PayloadsOk(s) && s.recvs[i].pc.AtDecrement?
    ensures PayloadsOk(RecvApply(s, i, ok))
  {
    var t := RecvApply(s, i, ok);
    var k := |s.recvs[i].done|;
    forall m: nat
      ensures Readers(t, m) == if m == k then Readers(s, m) + {i} else Readers(s, m)
      ensures i in Readers(s, m) ==> m < k
    {
      DecrementReads(s, i, ok, m);
    }
    CountedDown(s, t, k, i);
  }

  lemma DecrementReleases(s: State, i: nat, ok: bool)
    requires AtStep(s, i, ok) && ReleasesOk(s) && MutexOk(s) && s.recvs[i].pc.AtDecrement?
    requires MutexOk(RecvApply(s, i, ok))
    ensures ReleasesOk(RecvApply(s, i, ok))
  {
    var t := RecvApply(s, i, ok);
    var k := |s.recvs[i].done|;
    DecrementDue(s, i, ok);
    if Orphaned(s, k) {
      OrphanIsRead(s, i, k);
      assert false;
    }
    SameOrphans(s, t, i, k);
    forall m: nat
      ensures m in t.releases <==> Due(t, m) && !Pending(t, m)
    {
      PendingIsMine(s, i, m);
      PendingIsMine(t, i, m);
      SameOrphans(s, t, i, m);
    }
    DecidersKept(s, t, i);
  }

  /** A decrement can make no other message due, and none less due. */
  lemma DecrementDue(s: State, i: nat, ok: bool)
    requires AtStep(s, i, ok) && s.recvs[i].pc.AtDecrement?
    ensures var t := RecvApply(s, i, ok); var k := |s.recvs[i].done|;
      && OnlyRecv(s, t, i) && t.releases == s.releases && !Due(s, k)
      && t.recvs[i].pc.AtLoad? && |t.recvs[i].done| == k + 1
      && (forall m: nat :: m != k ==> (Due(s, m) <==> Due(t, m)))
  {
    var t := RecvApply(s, i, ok);
    var k := |s.recvs[i].done|;
    assert forall j: nat :: j < |s.recvs| && j != i ==> t.recvs[j] == s.recvs[j];
    assert !Read(s, i, k);
    forall m: nat | m != k
      ensures Due(s, m) <==> Due(t, m)
    {
      assert forall j: nat :: Read(s, j, m) <==> Read(t, j, m);
    }
  }

  lemma DecrementShared(s: State, i: nat, ok: bool)
    requires AtStep(s, i, ok) && s.recvs[i].pc.AtDecrement?
    requires Bounds(s) && SlotsOk(s) && SenderOk(s)
    ensures var t := RecvApply(s, i, ok); Bounds(t) && SlotsOk(t) && SenderOk(t)
  {
    var k := |s.recvs[i].taken| - 1;
    assert s.recvs[i].pc.desc == s.hist[k].desc;
  }

  lemma RecvDecrement(s: State, i: nat, ok: bool)
    requires Inv(s) && Enabled(s, Recv(i, ok)) && s.recvs[i].pc.AtDecrement?
    ensures Inv(Apply(s, Recv(i, ok)))
  {
    assert AtStep(s, i, ok);
    RecvMutex(s, i, ok);
    DecidingRecvOk(s, i, ok);
    RecvsKept(s, RecvApply(s, i, ok), i);
    DecrementPayloads(s, i, ok);
    DecrementReleases(s, i, ok);
    DecrementShared(s, i, ok);
  }

  /** A payload's count is zero exactly when it started from zero and nobody has read
      it, or when it started from the number of receivers and all of them have. */
  lemma CountZero(s: State, m: nat)
    requires Bounds(s) && PayloadsOk(s) && m < |s.hist|
    ensures PayloadOk(s, m)
    ensures s.pool[s.hist[m].desc].count == 0 <==>
            Due(s, m) || (s.hist[m].cnt == 0 && Readers(s, m) == {})
  {
    assert PayloadOk(s, m);
    var a := Readers(s, m);
    SizeBelow(a, |s.recvs|);
    assert forall x: nat :: x < |s.recvs| ==> (Read(s, x, m) <==> x in a);
    assert |a| == 0 <==> a == {};
    var d := s.hist[m].cnt - |a|;
    assert -WORD < d < WORD;
    assert Wrap32(d) == 0 <==> d == 0;
  }

  lemma LoadReleases(s: State, i: nat, ok: bool)
    requires AtStep(s, i, ok) && ReleasesOk(s) && MutexOk(s) && s.recvs[i].pc.AtLoad?
    requires var t := RecvApply(s, i, ok); MutexOk(t) && (t.recvs[i].pc.AtRelease? <==> Due(s, |s.recvs[i].done| - 1))
    ensures ReleasesOk(RecvApply(s, i, ok))
  {
    var t := RecvApply(s, i, ok);
    SameReads(s, t, i);
    DeciderIsOk(s, i);
    assert |s.recvs[i].done| > 0;
    SameOrphans(s, t, i, |s.recvs[i].done| - 1);
    forall m: nat
      ensures m in t.releases <==> Due(t, m) && !Pending(t, m)
    {
      PendingIsMine(s, i, m);
      PendingIsMine(t, i, m);
      SameOrphans(s, t, i, m);
    }
    DecidersKept(s, t, i);
  }

  /** The load of the count decides as it should. */
  lemma LoadTells(s: State, i: nat, ok: bool)
    requires AtStep(s, i, ok) && Bounds(s) && PayloadsOk(s) && s.recvs[i].pc.AtLoad?
    ensures |s.recvs[i].done| > 0
    ensures RecvApply(s, i, ok).recvs[i].pc.AtRelease? <==> Due(s, |s.recvs[i].done| - 1)
  {
    var k := |s.recvs[i].done| - 1;
    CountZero(s, k);
    assert Read(s, i, k) && i in Readers(s, k);
  }

  lemma LoadShared(s: State, i: nat, ok: bool)
    requires Inv(s) && AtStep(s, i, ok) && s.recvs[i].pc.AtLoad?
    ensures var t := RecvApply(s, i, ok);
      Bounds(t) && RecvsOk(t) && PayloadsOk(t) && SlotsOk(t) && SenderOk(t)
  {
    var t := RecvApply(s, i, ok);
    DecidingRecvOk(s, i, ok);
    RecvsKept(s, t, i);
    SameReads(s, t, i);
    SharedKept(s, t);
    PayloadsKept(s, t);
  }

  lemma RecvLoad(s: State, i: nat, ok: bool)
    requires Inv(s) && Enabled(s, Recv(i, ok)) && s.recvs[i].pc.AtLoad?
    ensures Inv(Apply(s, Recv(i, ok)))
  {
    assert AtStep(s, i, ok);
    RecvMutex(s, i, ok);
    LoadShared(s, i, ok);
    LoadTells(s, i, ok);
    LoadReleases(s, i, ok);
  }

  lemma DistinctAppend(xs: seq<int>, x: int)
    requires Distinct(xs) && x !in xs
    ensures Distinct(xs + [x])
  {
  }

  /** The message being released had not been released before. */
  lemma FirstRelease(s: State, i: nat)
    requires ReleasesOk(s) && i < |s.recvs| && s.recvs[i].pc.AtRelease? && s.recvs[i].life.Alive?
    ensures |s.recvs[i].done| > 0
    ensures |s.recvs[i].done| - 1 !in s.releases && Due(s, |s.recvs[i].done| - 1)
    ensures !Orphaned(s, |s.recvs[i].done| - 1)
  {
    DeciderIsOk(s, i);
    assert Deciding(s.recvs[i]);
    assert Pending(s, |s.recvs[i].done| - 1);
  }

  lemma ReleaseMembers(s: State, t: State, i: nat, m: nat, k: nat)
    requires MutexOk(s) && MutexOk(t) && OnlyRecv(s, t, i) && s.recvs[i].life.Alive? && t.recvs[i].life.Alive?
    requires s.recvs[i].pc.AtRelease? && |s.recvs[i].done| == k + 1 && t.recvs[i].pc.AtEmpty?
    requires t.releases == s.releases + [k]
    requires m in s.releases <==> Due(s, m) && !Pending(s, m)
    requires Due(s, m) <==> Due(t, m)
    requires Due(s, k) && !Orphaned(s, k)
    ensures m in t.releases <==> Due(t, m) && !Pending(t, m)
  {
    var isDue := Due(t, m);
    PendingIsMine(s, i, m);
    PendingIsMine(t, i, m);
    SameOrphans(s, t, i, m);
    assert m in t.releases <==> m in s.releases || m == k;
  }

  lemma ReleaseReleases(s: State, t: State, i: nat)
    requires ReleasesOk(s) && MutexOk(s) && MutexOk(t) && OnlyRecv(s, t, i) && s.hist == t.hist
    requires s.recvs[i].life.Alive? && t.recvs[i].life.Alive?
    requires s.recvs[i].pc.AtRelease? && t.recvs[i].pc.AtEmpty? && s.recvs[i].done == t.recvs[i].done
    requires t.releases == s.releases + [|s.recvs[i].done| - 1]
    ensures ReleasesOk(t)
  {
    var k := |s.recvs[i].done| - 1;
    FirstRelease(s, i);
    SameReads(s, t, i);
    DistinctAppend(s.releases, k);
    forall m: nat
      ensures m in t.releases <==> Due(t, m) && !Pending(t, m)
    {
      ReleaseMembers(s, t, i, m, k);
    }
    DecidersKept(s, t, i);
  }

  /** A release cannot overtake the writer: what it releases has been pushed. */
  lemma ReleaseShared(s: State, i: nat, ok: bool)
    requires AtStep(s, i, ok) && s.recvs[i].pc.AtRelease?
    requires Bounds(s) && SlotsOk(s) && SenderOk(s)
    requires |s.releases| < |s.hist|
    ensures var t := RecvApply(s, i, ok); Bounds(t) && SlotsOk(t) && SenderOk(t)
  {
    WrapStep(s.base + |s.releases|);
  }

  lemma RecvRelease(s: State, i: nat, ok: bool)
    requires Inv(s) && Enabled(s, Recv(i, ok)) && s.recvs[i].pc.AtRelease?
    ensures Inv(Apply(s, Recv(i, ok)))
  {
    var t := RecvApply(s, i, ok);
    assert AtStep(s, i, ok);
    RecvMutex(s, i, ok);
    DecidingRecvOk(s, i, ok);
    RecvsKept(s, t, i);
    SameReads(s, t, i);
    PayloadsKept(s, t);
    ReleaseReleases(s, t, i);
    ReleasedBelow(t, i);
    ReleaseShared(s, i, ok);
  }

  // ----- the steps of the sender

  lemma SameRecvs(s: State, t: State)
    requires s.recvs == t.recvs
    ensures forall m: nat :: Readers(s, m) == Readers(t, m)
    ensures forall m: nat :: ReadByAll(s, m) <==> ReadByAll(t, m)
    ensures forall m: nat :: Pending(s, m) <==> Pending(t, m)
    ensures forall m: nat :: Orphaned(s, m) <==> Orphaned(t, m)
    ensures MutexOk(s) && s.mutex == t.mutex ==> MutexOk(t)
  {
    forall m: nat
      ensures Readers(s, m) == Readers(t, m) && (ReadByAll(s, m) <==> ReadByAll(t, m))
    {
      assert forall j: nat :: Read(s, j, m) <==> Read(t, j, m);
    }
  }

  lemma SameDeciders(s: State, t: State)
    requires ReleasesOk(s) && s.recvs == t.recvs && forall m: nat :: Due(s, m) ==> Due(t, m)
    ensures forall i: nat :: i < |t.recvs| ==> DeciderOk(t, i)
  {
    SameRecvs(s, t);
    forall i: nat | i < |t.recvs|
      ensures DeciderOk(t, i)
    {
      DeciderIsOk(s, i);
    }
  }

  /** A sender step that leaves the history alone leaves the receivers' part alone. */
  lemma SenderKeepsRest(s: State, t: State)
    requires MutexOk(s) && RecvsOk(s) && ReleasesOk(s)
    requires s.recvs == t.recvs && s.mutex == t.mutex && s.hist == t.hist && s.base == t.base
    requires s.releases == t.releases
    ensures MutexOk(t) && RecvsOk(t) && ReleasesOk(t)
  {
    SameRecvs(s, t);
    assert forall m: nat :: Due(s, m) <==> Due(t, m);
    SameDeciders(s, t);
  }

  lemma SendWriteStep(s: State, a: Action)
    requires Inv(s) && a.SendWrite? && Enabled(s, a) && ActionFits(a, |s.recvs|)
    ensures Inv(Apply(s, a))
  {
    var t := Apply(s, a);
    SameRecvs(s, t);
    SenderKeepsRest(s, t);
    forall m: nat | m < |t.hist|
      ensures PayloadOk(t, m) && t.hist[m].desc != a.msg.desc
    {
      assert PayloadOk(s, m);
      assert Readers(s, m) == Readers(t, m);
    }
  }

  lemma SendLoadWStep(s: State, a: Action)
    requires Inv(s) && a.SendLoadW? && Enabled(s, a)
    ensures Inv(Apply(s, a))
  {
    var t := Apply(s, a);
    SameRecvs(s, t);
    SenderKeepsRest(s, t);
    PayloadsKept(s, t);
    Low8OfWrap(s.base + |s.hist|);
  }

  /** The push is refused exactly when 255 slots are outstanding at this instant. */
  lemma RefusedWhenFull(s: State)
    requires Bounds(s) && s.sender.LoadedW? && s.sender.slot == Low8(s.base + |s.hist|)
    ensures Apply(s, SendLoadR).sender.Idle? <==> |s.hist| - |s.releases| == CAPACITY
  {
    Low8OfWrap(s.base + |s.hist|);
    FullTestMeans(s.base, |s.releases|, |s.hist|);
  }

  lemma SendLoadRStep(s: State, a: Action)
    requires Inv(s) && a.SendLoadR? && Enabled(s, a)
    ensures Inv(Apply(s, a))
  {
    var t := Apply(s, a);
    SameRecvs(s, t);
    SenderKeepsRest(s, t);
    PayloadsKept(s, t);
    RefusedWhenFull(s);
  }

  lemma SendStoreStep(s: State, a: Action)
    requires Inv(s) && a.SendStore? && Enabled(s, a)
    ensures Inv(Apply(s, a))
  {
    var t := Apply(s, a);
    SameRecvs(s, t);
    SenderKeepsRest(s, t);
    PayloadsKept(s, t);
    forall m: nat | m < |t.hist| <= m + CAPACITY
      ensures t.slots[Low8(t.base + m)] == t.hist[m].desc
    {
      SameSlot(s.base, m, |s.hist|);
    }
  }

  lemma CommitRecvs(s: State, t: State, msg: Message)
    requires RecvsOk(s) && s.recvs == t.recvs && s.base == t.base && t.hist == s.hist + [msg]
    ensures RecvsOk(t)
  {
    forall i: nat | i < |t.recvs|
      ensures RecvOk(t.hist, t.base, t.recvs[i])
    {
      assert RecvOk(s.hist, s.base, s.recvs[i]);
    }
  }

  /** Nobody can have read a message that is not yet in the history. */
  lemma UnreadBeyond(s: State, m: nat)
    requires RecvsOk(s) && |s.hist| <= m
    ensures Readers(s, m) == {}
  {
    forall i: nat | i < |s.recvs|
      ensures !Read(s, i, m)
    {
      assert RecvOk(s.hist, s.base, s.recvs[i]);
    }
  }

  lemma CommitPayloads(s: State, t: State, msg: Message)
    requires PayloadsOk(s) && RecvsOk(s) && UnpushedOk(s, msg)
    requires s.recvs == t.recvs && s.pool == t.pool && t.hist == s.hist + [msg]
    ensures PayloadsOk(t)
  {
    SameRecvs(s, t);
    forall m: nat | m < |t.hist|
      ensures PayloadOk(t, m)
    {
      assert Readers(s, m) == Readers(t, m);
      if m < |s.hist| {
        assert PayloadOk(s, m);
      } else {
        UnreadBeyond(s, m);
      }
    }
  }

  lemma CommitReleases(s: State, t: State, msg: Message)
    requires ReleasesOk(s) && RecvsOk(s)
    requires s.recvs == t.recvs && s.releases == t.releases && t.hist == s.hist + [msg]
    ensures ReleasesOk(t)
  {
    SameRecvs(s, t);
    UnreadBeyond(s, |s.hist|);
    forall m: nat
      ensures Due(s, m) <==> Due(t, m)
    {
      if m == |s.hist| {
        assert 0 !in Readers(s, m);
        assert !Read(t, 0, m);
      }
    }
    SameDeciders(s, t);
  }

  lemma CommitSlots(s: State, t: State, msg: Message)
    requires SlotsOk(s) && s.slots == t.slots && s.base == t.base && t.hist == s.hist + [msg]
    requires s.slots[Low8(s.base + |s.hist|)] == msg.desc
    ensures SlotsOk(t)
  {
  }

  lemma SendCommitStep(s: State, a: Action)
    requires Inv(s) && a.SendCommit? && Enabled(s, a)
    ensures Inv(Apply(s, a))
  {
    var t := Apply(s, a);
    var msg := s.sender.msg;
    SameRecvs(s, t);
    CommitRecvs(s, t, msg);
    CommitPayloads(s, t, msg);
    CommitReleases(s, t, msg);
    CommitSlots(s, t, msg);
    WrapStep(s.base + |s.hist|);
  }

  // ----- the death of a receiver

  lemma DieMutex(s: State, i: nat)
    requires MutexOk(s) && Enabled(s, Die(i))
    ensures MutexOk(DieApply(s, i))
  {
    var t := DieApply(s, i);
    assert Holding(s.recvs[i]) ==> s.mutex == Some(i);
    forall j: nat | j < |t.recvs|
      ensures Holding(t.recvs[j]) <==> t.mutex == Some(j)
    {
      assert j != i ==> t.recvs[j] == s.recvs[j];
    }
  }

  /** Whether it leaves an orphan tells whether its message is due. */
  lemma OrphanIffDue(s: State, i: nat)
    requires Bounds(s) && PayloadsOk(s) && ReleasesOk(s) && i < |s.recvs| && RecvOk(s.hist, s.base, s.recvs[i])
    requires AtDecision(s.recvs[i].pc)
    ensures |s.recvs[i].done| > 0
    ensures LeavesOrphan(s, s.recvs[i]) <==> Due(s, |s.recvs[i].done| - 1)
  {
    var k := |s.recvs[i].done| - 1;
    DeciderIsOk(s, i);
    CountZero(s, k);
    assert Read(s, i, k) && i in Readers(s, k);
  }

  lemma DiePending(s: State, i: nat, m: nat)
    requires Bounds(s) && PayloadsOk(s) && ReleasesOk(s) && Enabled(s, Die(i)) && RecvOk(s.hist, s.base, s.recvs[i])
    ensures Due(s, m) ==> (Pending(s, m) <==> Pending(DieApply(s, i), m))
  {
    var t := DieApply(s, i);
    assert forall j: nat :: j < |s.recvs| && j != i ==> t.recvs[j] == s.recvs[j];
    if AtDecision(s.recvs[i].pc) {
      OrphanIffDue(s, i);
    }
    if Due(s, m) {
      if j: nat :| j < |s.recvs| && Deciding(s.recvs[j]) && |s.recvs[j].done| == m + 1 {
        assert Deciding(t.recvs[j]);
      }
      if j: nat :| j < |t.recvs| && Deciding(t.recvs[j]) && |t.recvs[j].done| == m + 1 {
        assert Deciding(s.recvs[j]);
      }
    }
  }

  /** Nobody else is deciding when a receiver dies at its decision. */
  lemma DieDeciders(s: State, i: nat, j: nat)
    requires Bounds(s) && PayloadsOk(s) && ReleasesOk(s) && MutexOk(s) && Enabled(s, Die(i))
    requires RecvOk(s.hist, s.base, s.recvs[i]) && j < |s.recvs|
    requires forall m: nat :: Due(s, m) <==> Due(DieApply(s, i), m)
    ensures DeciderOk(DieApply(s, i), j)
  {
    var t := DieApply(s, i);
    DeciderIsOk(s, j);
    DeciderIsOk(s, i);
    if j == i {
      if AtDecision(s.recvs[i].pc) {
        OrphanIffDue(s, i);
      }
    } else {
      assert t.recvs[j] == s.recvs[j];
      if s.recvs[j].life.Alive? && AtDecision(s.recvs[j].pc) && |s.recvs[j].done| > 0 {
        NoNewOrphan(s, i, j);
      }
    }
  }

  lemma NoNewOrphan(s: State, i: nat, j: nat)
    requires MutexOk(s) && Enabled(s, Die(i)) && j < |s.recvs| && j != i && |s.recvs[j].done| > 0
    requires s.recvs[j].life.Alive? && AtDecision(s.recvs[j].pc)
    requires !Orphaned(s, |s.recvs[j].done| - 1)
    ensures !Orphaned(DieApply(s, i), |s.recvs[j].done| - 1)
  {
    var t := DieApply(s, i);
    assert Holding(s.recvs[j]) && !Holding(s.recvs[i]);
    assert t.recvs[i].life == Dead(false);
    assert forall k: nat :: k < |t.recvs| && t.recvs[k].life == Dead(true) ==> t.recvs[k] == s.recvs[k];
  }

  lemma DieReleases(s: State, i: nat)
    requires Bounds(s) && PayloadsOk(s) && ReleasesOk(s) && MutexOk(s) && Enabled(s, Die(i))
    requires RecvOk(s.hist, s.base, s.recvs[i])
    ensures ReleasesOk(DieApply(s, i))
  {
    var t := DieApply(s, i);
    SameReads(s, t, i);
    forall m: nat
      ensures m in t.releases <==> Due(t, m) && !Pending(t, m)
    {
      DiePending(s, i, m);
    }
    forall j: nat | j < |t.recvs|
      ensures DeciderOk(t, j)
    {
      DieDeciders(s, i, j);
    }
  }

  lemma DieStep(s: State, i: nat)
    requires Inv(s) && Enabled(s, Die(i))
    ensures Inv(DieApply(s, i))
  {
    var t := DieApply(s, i);
    assert RecvOk(s.hist, s.base, s.recvs[i]);
    DieMutex(s, i);
    SameReads(s, t, i);
    RecvsKept(s, t, i);
    SharedKept(s, t);
    PayloadsKept(s, t);
    DieReleases(s, i);
  }

  // ----- every step, every run

  lemma RecvStep(s: State, i: nat, ok: bool)
    requires Inv(s) && Enabled(s, Recv(i, ok))
    ensures Inv(Apply(s, Recv(i, ok)))
  {
    match s.recvs[i].pc
    case AtDecrement(_, _) => RecvDecrement(s, i, ok);
    case AtLoad(_) => RecvLoad(s, i, ok);
    case AtRelease(_) => RecvRelease(s, i, ok);
    case _ => RecvQuiet(s, i, ok);
  }

  lemma StepKeepsInv(s: State, a: Action)
    requires Inv(s) && Enabled(s, a) && ActionFits(a, |s.recvs|)
    ensures Inv(Apply(s, a)) && |Apply(s, a).recvs| == |s.recvs|
  {
    match a
    case SendWrite(_) => SendWriteStep(s, a);
    case SendLoadW => SendLoadWStep(s, a);
    case SendLoadR => SendLoadRStep(s, a);
    case SendStore => SendStoreStep(s, a);
    case SendCommit => SendCommitStep(s, a);
    case Recv(i, ok) => RecvStep(s, i, ok);
    case Die(i) => DieStep(s, i);
  }

  lemma StartInv(n: nat, base: nat, slots: seq<Descriptor>)
    requires n < WORD && |slots| == SLOTS
    ensures Inv(Start(n, base, slots))
  {
  }

  ghost predicate AllFit(acts: seq<Action>, n: nat) {
    forall k :: 0 <= k < |acts| ==> ActionFits(acts[k], n)
  }

  /** The invariant holds throughout every run in which each count fits. */
  lemma {:induction false} RunKeepsInv(s: State, acts: seq<Action>, t: State)
    requires Inv(s) && Runs(s, acts, t) && AllFit(acts, |s.recvs|)
    ensures Inv(t) && |t.recvs| == |s.recvs|
    decreases |acts|
  {
    if acts != [] {
      StepKeepsInv(s, acts[0]);
      RunKeepsInv(Apply(s, acts[0]), acts[1..], t);
    }
  }
}
