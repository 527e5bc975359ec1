/** What the operations of a handle answer, and what they leave behind. */
module HandleAnswers {
  import opened Words
  import opened HandleModel
  import opened HandleRuns

  // ----- acquire, for any table and any handle

  /** The name is not opened: there is none, the call fails, an exclusive creation finds the
      name linked, or a plain opening does not. */
  predicate Refused(os: Os, name: string, mode: Mode, luck: Luck) {
    || name == "" || luck == OpenFails
    || (if "/" + name in os.names then mode == Create else mode == Open)
  }

  /** The object that opening a name yields: the one it is linked to, or a new one. */
  function Target(os: Os, n: string): nat {
    if n in os.names then os.names[n] else |os.objects|
  }

  /** The size of that object before it is truncated. */
  function TargetSize(os: Os, n: string): nat
    requires TableOk(os)
  {
    if n in os.names then |os.objects[os.names[n]]| else 0
  }

  /** The object can be mapped: at the size it has, or at the one that is requested. */
  predicate Maps(os: Os, name: string, size: nat, mode: Mode, luck: Luck)
    requires TableOk(os) && size < SIZE_LIMIT
  {
    && luck != MapFails
    && if mode == Open || size == 0 then OpenAccepts(TargetSize(os, "/" + name))
       else luck != TruncateFails && INFO_SIZE <= MappedSize(size)
  }

  lemma ReleaseKeepsTable(os: Os, h: Handle)
    requires HandleOk(os, h)
    ensures TableOk(ReleaseSpec(os, h).0)
  {
  }

  /** What get does with an object that is open but not mapped: it maps it or leaves it open, and
      keeps the size that it settled on either way. */
  lemma GetAnswers(os: Os, h: Handle, luck: Luck)
    requires HandleOk(os, h) && h.mem.None? && h.fd.Some?
    ensures var (t, h1, ok) := GetSpec(os, h, luck);
      && t.names == os.names && h1.name == h.name && |t.objects| == |os.objects|
      && (ok ==> h1.mem == h.fd && h1.fd.None? && INFO_SIZE <= h1.size <= |t.objects[h.fd.value]|)
      && (!ok ==> h1.mem.None? && h1.fd == h.fd)
      && h1.size == (if h.size == 0 then |os.objects[h.fd.value]| else MappedSize(h.size))
      && (!ok && (h.size == 0 || luck == TruncateFails) ==> t == os)
  {
  }

  lemma OpenedOk(os: Os, n: string, size: nat, mode: Mode, luck: Luck)
    requires TableOk(os) && size < SIZE_LIMIT
    ensures var (os1, fd) := ShmOpen(os, n, mode, luck);
      fd.Some? ==>
        && fd.value == Target(os, n) && n in os1.names && os1.names[n] == fd.value
        && HandleOk(os1, Opened(fd.value, mode, size, n)) && |os1.objects[fd.value]| == TargetSize(os, n)
  {
  }

  /** The handle ends up closed, with false and nothing but its own release done, if and only
      if the name is refused. */
  lemma AcquireRefusedIff(os: Os, h: Handle, name: string, size: nat, mode: Mode, luck: Luck)
    requires HandleOk(os, h) && size < SIZE_LIMIT
    ensures var r := ReleaseSpec(os, h).0; var (t, h1, ok) := AcquireSpec(os, h, name, size, mode, luck);
      && (Refused(r, name, mode, luck) ==> (t, h1, ok) == (r, CLOSED, false))
      && (h1 == CLOSED ==> Refused(r, name, mode, luck))
  {
  }

  /** It answers true if and only if the name is opened and its object can be mapped. */
  lemma AcquireSucceedsIff(os: Os, h: Handle, name: string, size: nat, mode: Mode, luck: Luck)
    requires HandleOk(os, h) && size < SIZE_LIMIT
    ensures TableOk(ReleaseSpec(os, h).0)
    ensures var r := ReleaseSpec(os, h).0;
      AcquireSpec(os, h, name, size, mode, luck).2
      <==> !Refused(r, name, mode, luck) && Maps(r, name, size, mode, luck)
  {
    ReleaseKeepsTable(os, h);
    OpenedOk(ReleaseSpec(os, h).0, "/" + name, size, mode, luck);
  }

  /** The handle maps something exactly if the answer is true, and then that is the object the
      name is linked to; one that is not mapped is still open. */
  lemma AcquireAnswers(os: Os, h: Handle, name: string, size: nat, mode: Mode, luck: Luck)
    requires HandleOk(os, h) && size < SIZE_LIMIT
    ensures var r := ReleaseSpec(os, h).0; var (t, h1, ok) := AcquireSpec(os, h, name, size, mode, luck);
      && (!Refused(r, name, mode, luck) ==>
            && h1.name == "/" + name && h1.name in t.names && t.names[h1.name] == Target(r, h1.name)
            && (if ok then h1.mem else h1.fd) == Some(Target(r, h1.name)))
      && (ok <==> h1.mem.Some?) && (ok ==> h1.fd.None?)
  {
    var r := ReleaseSpec(os, h).0;
    ReleaseKeepsTable(os, h);
    if !Refused(r, name, mode, luck) {
      OpenAnswers(r, "/" + name, size, mode, luck);
    }
  }

  lemma OpenAnswers(os: Os, n: string, size: nat, mode: Mode, luck: Luck)
    requires TableOk(os) && size < SIZE_LIMIT && ShmOpen(os, n, mode, luck).1.Some?
    ensures var (t, h1, ok) := OpenSpec(os, n, size, mode, luck);
      && h1.name == n && n in t.names && t.names[n] == Target(os, n)
      && (if ok then h1.mem else h1.fd) == Some(Target(os, n))
      && (ok <==> h1.mem.Some?) && (ok ==> h1.fd.None?)
  {
    OpenedOk(os, n, size, mode, luck);
    var (os1, fd) := ShmOpen(os, n, mode, luck);
    GetAnswers(os1, Opened(fd.value, mode, size, n), luck);
  }

  // ----- what a handle does to what others see, in any run

  /** All but the counter of one object is as it was. */
  ghost predicate OnlyCounter(os: Os, t: Os, obj: nat) {
    && |t.objects| == |os.objects| && obj < |os.objects| && |t.objects[obj]| == |os.objects[obj]|
    && (forall k :: 0 <= k < |os.objects| && k != obj ==> t.objects[k] == os.objects[k])
    && (forall b :: 0 <= b < |os.objects[obj]| - INFO_SIZE ==> t.objects[obj][b] == os.objects[obj][b])
  }

  lemma CounterOnly(os: Os, obj: nat, v: nat)
    requires obj < |os.objects| && INFO_SIZE <= |os.objects[obj]| && v < WORD
    ensures OnlyCounter(os, WithCounter(os, obj, |os.objects[obj]|, v), obj)
  {
  }

  /** A release answers how many handles mapped the object, or -1 if this one mapped nothing; no
      byte of any object changes but those of the counter, and a second release does nothing
      more. */
  lemma ReleaseAnswers(want: Sizes, s: Sys, i: nat)
    requires Reachable(want, s) && i < |s.handles|
    ensures Inv(s, want) && HandleOk(s.os, s.handles[i])
    ensures var h := s.handles[i]; var t := After(s, want, Release(i));
      && ReleaseSpec(s.os, h).2 == (if h.mem.Some? then |Mapping(s.handles, h.mem.value)| else -1)
      && t.handles == s.handles[i := CLOSED]
      && (if h.mem.Some? then OnlyCounter(s.os, t.os, h.mem.value) else t.os == s.os)
      && HandleOk(t.os, CLOSED) && ReleaseSpec(t.os, CLOSED) == (t.os, CLOSED, -1)
  {
    ReachableInv(want, s);
    FitsOk(s, want, i);
    var h := s.handles[i];
    ReleaseKeepsTable(s.os, h);
    if h.mem.Some? {
      ReleaseShape(s, want, i);
      MappedFacts(s, want, i);
      ReleaseBytes(s.os, h);
    }
  }

  lemma ReleaseBytes(os: Os, h: Handle)
    requires HandleOk(os, h) && h.mem.Some? && h.size != 0 && h.name != ""
    requires |os.objects[h.mem.value]| == h.size
    ensures OnlyCounter(os, ReleaseSpec(os, h).0, h.mem.value)
  {
    ReleaseParts(os, h);
    CounterOnly(os, h.mem.value, Wrap32(Counter(os, h.mem.value, h.size) - 1));
  }

  /** A get of a handle that maps something, or that is closed, changes nothing. */
  lemma GetIsIdle(want: Sizes, s: Sys, i: nat, luck: Luck)
    requires Reachable(want, s) && i < |s.handles|
    ensures HandleOk(s.os, s.handles[i])
    ensures var h := s.handles[i];
      h.mem.Some? || h == CLOSED ==> GetSpec(s.os, h, luck) == (s.os, h, h.mem.Some?)
  {
    ReachableInv(want, s);
    FitsOk(s, want, i);
  }

  /** Acquiring a name that some handle has sized joins its object: what is in it stays, but
      for the counter, and so does everything else. */
  lemma JoinsObject(want: Sizes, s: Sys, e: Event)
    requires Reachable(want, s) && Possible(s, want, e) && e.Acquire? && e.name != ""
    ensures Inv(s, want)
    ensures var r := After(s, want, Release(e.i)); var t := After(s, want, e);
      var n := "/" + e.name;
      n in r.os.names && r.os.names[n] < |r.os.objects| && |r.os.objects[r.os.names[n]]| != 0 ==>
        && t.os.names == r.os.names
        && (t.os == r.os || OnlyCounter(r.os, t.os, r.os.names[n]))
        && (t.handles[e.i].mem.Some? ==> t.handles[e.i].mem == Some(r.os.names[n]))
  {
    ReachableInv(want, s);
    ReleaseKeepsInv(s, want, e.i);
    AcquireShape(s.os, s.handles[e.i], e.name, e.size, e.mode, e.luck);
    var n := "/" + e.name;
    var r := Put(s, ReleaseSpec(s.os, s.handles[e.i]).0, e.i, CLOSED);
    assert r == After(s, want, Release(e.i));
    if n in r.os.names && ShmOpen(r.os, n, e.mode, e.luck).1.Some? {
      OpenAndGet(r, want, e.i, n, e.mode, e.luck);
      if |r.os.objects[r.os.names[n]]| != 0 {
        JoinsSized(r, want, n, e.mode, e.luck);
      }
    }
  }

  lemma JoinsSized(s: Sys, want: Sizes, n: string, mode: Mode, luck: Luck)
    requires Inv(s, want) && n in want && n in s.os.names
    requires s.os.names[n] < |s.os.objects| && |s.os.objects[s.os.names[n]]| != 0
    requires HandleOk(s.os, Opened(s.os.names[n], mode, want[n], n))
    ensures var obj := s.os.names[n];
      var (t, h, _) := GetSpec(s.os, Opened(obj, mode, want[n], n), luck);
      t.names == s.os.names && (t == s.os || OnlyCounter(s.os, t, obj)) && (h.mem.Some? ==> h.mem == Some(obj))
  {
    var obj := s.os.names[n];
    var size := SizeFor(want, n);
    assert ObjectFits(s.os, want, s.handles, n);
    MappedSizeRoom(want[n]);
    CounterOnly(s.os, obj, Wrap32(Counter(s.os, obj, size) + 1));
    if mode == Open {
      GetSized(s.os, obj, n, luck);
    } else {
      GetRequested(s.os, obj, want[n], n, mode, luck);
      SameSize(s.os, obj);
    }
  }

  lemma SameSize(os: Os, obj: nat)
    requires obj < |os.objects|
    ensures Truncated(os, obj, |os.objects[obj]|) == os
  {
    assert Resized(os.objects[obj], |os.objects[obj]|) == os.objects[obj];
  }

  /** A move changes nothing but who has what: the handle that was moved from has nothing left
      to release, and releasing the new one does what releasing the old one would have done. */
  lemma MoveThenRelease(want: Sizes, s: Sys, i: nat)
    requires Reachable(want, s) && i < |s.handles| < MAX_HANDLES
    ensures Inv(s, want) && Inv(After(s, want, MoveFrom(i)), want)
    ensures var t := After(s, want, MoveFrom(i)); var k := |s.handles|;
      && |t.handles| == k + 1 && t.os == s.os
      && After(t, want, Release(i)) == t
      && After(t, want, Release(k)).os == After(s, want, Release(i)).os
      && forall j :: 0 <= j < k && j != i ==> t.handles[j] == s.handles[j]
  {
    ReachableInv(want, s);
    EventKeepsInv(s, want, MoveFrom(i));
    var t := After(s, want, MoveFrom(i));
    FitsOk(t, want, i);
    assert ReleaseSpec(t.os, CLOSED) == (t.os, CLOSED, -1);
    assert t.handles[i := CLOSED] == t.handles;
  }

  // ----- a second get after a failed mapping

  /** get keeps the size it tried to map, and rounds it once more when it is called again: the
      mapping that then succeeds is a counter's width longer than the one of any handle that
      succeeded at once, which looks for the counter elsewhere. */
  lemma SecondGetGrows(os: Os, name: string, size: nat, mode: Mode)
    requires TableOk(os) && 0 < size <= SIZE_LIMIT - 12 && mode != Open && !Refused(os, name, mode, MapFails)
    ensures HandleOk(os, CLOSED)
    ensures var (t, h, ok) := AcquireSpec(os, CLOSED, name, size, mode, MapFails);
      && !ok && HandleOk(t, h)
      && var (_, h1, ok1) := GetSpec(t, h, AllSucceed);
         ok1 && h1.size == MappedSize(size) + INFO_SIZE
  {
    var n := "/" + name;
    var (os1, fd) := ShmOpen(os, n, mode, MapFails);
    OpenedOk(os, n, size, mode, MapFails);
    MappedSizeRoom(size);
    GetRequested(os1, fd.value, size, n, mode, MapFails);
    MappedAgain(size);
    var h := AcquireSpec(os, CLOSED, name, size, mode, MapFails).1;
    assert h == Handle(fd, None, MappedSize(size), n);
    GetRequested(Truncated(os1, fd.value, MappedSize(size)), fd.value, MappedSize(size), n, mode, AllSucceed);
  }

  lemma MappedAgain(size: nat)
    requires 0 < size <= SIZE_LIMIT - 12
    ensures 0 < MappedSize(size) < SIZE_LIMIT && MappedSize(MappedSize(size)) == MappedSize(size) + INFO_SIZE
  {
    MappedSizeRoom(size);
    var m := MappedSize(size);
    RoundedUpBounds(size);
    RoundedUpBounds(m);
    WrapsNot(RoundedUp(size) + INFO_SIZE);
    WholeCounters(RoundedUp(m), m);
    WrapsNot(m + INFO_SIZE);
  }
}
