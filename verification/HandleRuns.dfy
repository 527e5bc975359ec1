/** Any run of handles acquiring, releasing and being moved. */
module HandleRuns {
  import opened Words
  import opened Sets
  import opened Payloads
  import opened HandleModel

  datatype Sys = Sys(os: Os, handles: seq<Handle>)

  datatype Event =
    | New
    | Acquire(i: nat, name: string, size: nat, mode: Mode, luck: Luck)
    | Release(i: nat)
    | MoveFrom(i: nat)

  /** The size everybody requests of an object, by its full name. */
  type Sizes = map<string, nat>

  predicate SizesOk(want: Sizes) {
    forall n :: n in want ==> n != "" && 0 < want[n] <= SIZE_LIMIT - 8
  }

  const MAX_HANDLES: nat := 0x7FFF_FFFF

  predicate Possible(s: Sys, want: Sizes, e: Event) {
    match e
    case New => |s.handles| < MAX_HANDLES
    case Acquire(i, name, size, mode, luck) =>
      i < |s.handles| && (name != "" ==> "/" + name in want && size == want["/" + name]) && size < SIZE_LIMIT
    case Release(i) => i < |s.handles|
    case MoveFrom(i) => i < |s.handles| < MAX_HANDLES
  }

  // ----- invariant

  ghost function Mapping(handles: seq<Handle>, obj: nat): set<nat> {
    set i: nat | i < |handles| && handles[i].mem == Some(obj)
  }

  function SizeFor(want: Sizes, n: string): nat
    requires SizesOk(want) && n in want
  {
    MappedSize(want[n])
  }

  /** A handle that maps an object maps the one its name is linked to, at the agreed size. */
  ghost predicate HandleFits(os: Os, want: Sizes, h: Handle)
    requires SizesOk(want)
  {
    && (h.fd.Some? ==> h.fd.value < |os.objects|)
    && h.size < SIZE_LIMIT
    && (h.mem.Some? ==>
          && h.name in os.names && os.names[h.name] == h.mem.value
          && h.name in want && h.size == SizeFor(want, h.name)
          && h.mem.value < |os.objects| && |os.objects[h.mem.value]| == h.size)
  }

  /** A linked object is still empty or has the agreed size, and then its counter is the
      number of handles that map it. */
  ghost predicate ObjectFits(os: Os, want: Sizes, handles: seq<Handle>, n: string)
    requires SizesOk(want) && n in os.names
  {
    && os.names[n] < |os.objects| && n in want
    && var obj := os.names[n];
    && (|os.objects[obj]| == 0 || |os.objects[obj]| == SizeFor(want, n))
    && (|os.objects[obj]| != 0 ==>
          |os.objects[obj]| >= INFO_SIZE && Counter(os, obj, |os.objects[obj]|) == |Mapping(handles, obj)|)
  }

  ghost predicate NamesApart(os: Os) {
    forall m, n :: m in os.names && n in os.names && m != n ==> os.names[m] != os.names[n]
  }

  ghost predicate Inv(s: Sys, want: Sizes) {
    && SizesOk(want) && |s.handles| <= MAX_HANDLES
    && NamesApart(s.os)
    && (forall i :: 0 <= i < |s.handles| ==> HandleFits(s.os, want, s.handles[i]))
    && (forall n :: n in s.os.names ==> ObjectFits(s.os, want, s.handles, n))
  }

  lemma FitsOk(s: Sys, want: Sizes, i: nat)
    requires Inv(s, want) && i < |s.handles|
    ensures HandleOk(s.os, s.handles[i])
  {
    var h := s.handles[i];
    assert HandleFits(s.os, want, h);
    forall n | n in s.os.names
      ensures s.os.names[n] < |s.os.objects|
    {
      assert ObjectFits(s.os, want, s.handles, n);
    }
    if h.mem.Some? {
      MappedSizeRoom(want[h.name]);
    }
  }

  function Put(s: Sys, os: Os, i: nat, h: Handle): Sys
    requires i < |s.handles|
  {
    Sys(os, s.handles[i := h])
  }

  function After(s: Sys, want: Sizes, e: Event): Sys
    requires Inv(s, want) && Possible(s, want, e)
  {
    match e
    case New => s.(handles := s.handles + [CLOSED])
    case Acquire(i, name, size, mode, luck) =>
      FitsOk(s, want, i);
      var (os, h, _) := AcquireSpec(s.os, s.handles[i], name, size, mode, luck);
      Put(s, os, i, h)
    case Release(i) =>
      FitsOk(s, want, i);
      var (os, h, _) := ReleaseSpec(s.os, s.handles[i]);
      Put(s, os, i, h)
    case MoveFrom(i) =>
      var (h, rest) := MoveSpec(s.handles[i]);
      s.(handles := s.handles[i := rest] + [h])
  }

  // ----- counting the handles of an object

  lemma MappingPut(handles: seq<Handle>, i: nat, h: Handle, obj: nat)
    requires i < |handles|
    ensures Mapping(handles[i := h], obj) ==
            if h.mem == Some(obj) then Mapping(handles, obj) + {i} else Mapping(handles, obj) - {i}
  {
  }

  lemma MappingAppend(handles: seq<Handle>, h: Handle, obj: nat)
    ensures Mapping(handles + [h], obj) ==
            Mapping(handles, obj) + if h.mem == Some(obj) then {|handles|} else {}
  {
    var more := handles + [h];
    assert forall i: nat :: i < |handles| ==> more[i] == handles[i];
    assert more[|handles|] == h;
  }

  // ----- release

  lemma CounterSet(os: Os, obj: nat, size: nat, v: nat)
    requires obj < |os.objects| && INFO_SIZE <= size <= |os.objects[obj]| && v < WORD
    ensures var t := WithCounter(os, obj, size, v);
      && t.names == os.names && |t.objects| == |os.objects|
      && |t.objects[obj]| == |os.objects[obj]| && Counter(t, obj, size) == v
      && (forall k :: 0 <= k < |os.objects| && k != obj ==> t.objects[k] == os.objects[k])
  {
    LoadStored(os.objects[obj], CounterOffset(size), v);
  }

  lemma ReleaseParts(os: Os, h: Handle)
    requires HandleOk(os, h) && h.mem.Some? && h.size != 0 && h.name != ""
    ensures var (t, h1, ret) := ReleaseSpec(os, h);
      var before := Counter(os, h.mem.value, h.size);
      && ret == Signed(before) && h1 == CLOSED
      && t.objects == WithCounter(os, h.mem.value, h.size, Wrap32(before - 1)).objects
      && t.names == if Signed(before) <= 1 then ShmUnlink(os, h.name).names else os.names
  {
  }

  lemma ReleaseValue(os: Os, h: Handle, count: nat)
    requires HandleOk(os, h) && h.mem.Some? && h.size != 0 && h.name != ""
    requires Counter(os, h.mem.value, h.size) == count && 1 <= count < 0x8000_0000
    ensures var (t, h1, ret) := ReleaseSpec(os, h);
      && ret == count && h1 == CLOSED
      && t.objects == WithCounter(os, h.mem.value, h.size, count - 1).objects
      && t.names == if count == 1 then ShmUnlink(os, h.name).names else os.names
  {
    ReleaseParts(os, h);
    SmallWrap(count - 1);
  }

  lemma MappedFacts(s: Sys, want: Sizes, i: nat)
    requires Inv(s, want) && i < |s.handles| && s.handles[i].mem.Some?
    ensures HandleOk(s.os, s.handles[i])
    ensures var h := s.handles[i]; var obj := h.mem.value;
      && h.name in s.os.names && s.os.names[h.name] == obj && h.name != ""
      && obj < |s.os.objects| && |s.os.objects[obj]| == h.size >= INFO_SIZE
      && i in Mapping(s.handles, obj)
      && Counter(s.os, obj, h.size) == |Mapping(s.handles, obj)|
      && 1 <= |Mapping(s.handles, obj)| < 0x8000_0000
  {
    FitsOk(s, want, i);
    var h := s.handles[i];
    var obj := h.mem.value;
    assert HandleFits(s.os, want, h) && ObjectFits(s.os, want, s.handles, h.name);
    SizeBelow(Mapping(s.handles, obj), |s.handles|);
    assert i in Mapping(s.handles, obj);
  }

  /** What a release does in a good state: the counter goes down to the number of mappings
      that are left, and the name goes with the last of them. */
  lemma ReleaseShape(s: Sys, want: Sizes, i: nat)
    requires Inv(s, want) && i < |s.handles| && s.handles[i].mem.Some?
    ensures HandleOk(s.os, s.handles[i])
    ensures var h := s.handles[i]; var obj := h.mem.value; var n := |Mapping(s.handles, obj)|;
      var (os, h1, ret) := ReleaseSpec(s.os, h);
      && i in Mapping(s.handles, obj) && ret == n && h1 == CLOSED
      && obj < |s.os.objects| == |os.objects| && |os.objects[obj]| == |s.os.objects[obj]| == h.size >= INFO_SIZE
      && Counter(os, obj, h.size) == n - 1
      && (forall k :: 0 <= k < |os.objects| && k != obj ==> os.objects[k] == s.os.objects[k])
      && os.names == if n == 1 then ShmUnlink(s.os, h.name).names else s.os.names
  {
    MappedFacts(s, want, i);
    var h := s.handles[i];
    var n := |Mapping(s.handles, h.mem.value)|;
    ReleaseValue(s.os, h, n);
    CounterSet(s.os, h.mem.value, h.size, n - 1);
  }

  /** Frame: a handle or an object that does not concern obj fits as before. */
  lemma OtherHandleFits(s: Os, t: Os, want: Sizes, h: Handle, obj: nat, gone: string)
    requires SizesOk(want) && HandleFits(s, want, h)
    requires |s.objects| <= |t.objects| && obj < |s.objects| && |t.objects[obj]| == |s.objects[obj]|
    requires forall k :: 0 <= k < |s.objects| && k != obj ==> t.objects[k] == s.objects[k]
    requires forall n :: n in s.names && n != gone ==> n in t.names && t.names[n] == s.names[n]
    requires h.mem.Some? ==> h.name != gone
    ensures HandleFits(t, want, h)
  {
  }

  lemma OtherObjectFits(s: Os, t: Os, want: Sizes, hs: seq<Handle>, ht: seq<Handle>, n: string)
    requires SizesOk(want) && n in s.names && n in t.names && s.names[n] == t.names[n]
    requires ObjectFits(s, want, hs, n)
    requires s.names[n] < |t.objects| && t.objects[t.names[n]] == s.objects[s.names[n]]
    requires |Mapping(hs, s.names[n])| == |Mapping(ht, s.names[n])|
    ensures ObjectFits(t, want, ht, n)
  {
  }

  /** A release of a handle that maps nothing only closes it. */
  lemma ClosingKeepsInv(s: Sys, want: Sizes, i: nat)
    requires Inv(s, want) && i < |s.handles| && s.handles[i].mem.None?
    ensures Inv(Put(s, s.os, i, CLOSED), want)
  {
    var t := Put(s, s.os, i, CLOSED);
    forall n | n in s.os.names
      ensures ObjectFits(t.os, want, t.handles, n)
    {
      assert ObjectFits(s.os, want, s.handles, n);
      MappingPut(s.handles, i, CLOSED, s.os.names[n]);
      assert i !in Mapping(s.handles, s.os.names[n]);
      assert Mapping(t.handles, s.os.names[n]) == Mapping(s.handles, s.os.names[n]);
    }
  }

  lemma ReleaseHandles(s: Sys, want: Sizes, i: nat, t: Sys)
    requires Inv(s, want) && i < |s.handles| && s.handles[i].mem.Some?
    requires HandleOk(s.os, s.handles[i]) && t == Put(s, ReleaseSpec(s.os, s.handles[i]).0, i, CLOSED)
    ensures forall j :: 0 <= j < |t.handles| ==> HandleFits(t.os, want, t.handles[j])
  {
    ReleaseShape(s, want, i);
    var h := s.handles[i];
    var obj := h.mem.value;
    forall j | 0 <= j < |t.handles|
      ensures HandleFits(t.os, want, t.handles[j])
    {
      if j != i {
        var g := s.handles[j];
        assert HandleFits(s.os, want, g) && HandleFits(s.os, want, h);
        if |Mapping(s.handles, obj)| == 1 {
          OneMapping(s.handles, obj, i, j);
          OtherHandleFits(s.os, t.os, want, g, obj, h.name);
        } else {
          OtherHandleFits(s.os, t.os, want, g, obj, "");
        }
      }
    }
  }

  lemma OneMapping(handles: seq<Handle>, obj: nat, i: nat, j: nat)
    requires i < |handles| && j < |handles| && i != j
    requires |Mapping(handles, obj)| == 1 && i in Mapping(handles, obj)
    ensures handles[j].mem != Some(obj)
  {
    var rest := Mapping(handles, obj) - {i};
    assert |rest| == 0;
    assert j !in rest;
  }

  lemma ReleaseObjects(s: Sys, want: Sizes, i: nat, t: Sys)
    requires Inv(s, want) && i < |s.handles| && s.handles[i].mem.Some?
    requires HandleOk(s.os, s.handles[i]) && t == Put(s, ReleaseSpec(s.os, s.handles[i]).0, i, CLOSED)
    ensures forall n :: n in t.os.names ==> ObjectFits(t.os, want, t.handles, n)
  {
    ReleaseShape(s, want, i);
    var h := s.handles[i];
    var obj := h.mem.value;
    assert HandleFits(s.os, want, h);
    forall n | n in t.os.names
      ensures ObjectFits(t.os, want, t.handles, n)
    {
      assert ObjectFits(s.os, want, s.handles, n);
      MappingPut(s.handles, i, CLOSED, s.os.names[n]);
      if n == h.name {
        assert |Mapping(t.handles, obj)| == |Mapping(s.handles, obj)| - 1;
      } else {
        assert s.os.names[n] != obj;
        assert Mapping(t.handles, s.os.names[n]) == Mapping(s.handles, s.os.names[n]);
        OtherObjectFits(s.os, t.os, want, s.handles, t.handles, n);
      }
    }
  }

  lemma ReleaseKeepsInv(s: Sys, want: Sizes, i: nat)
    requires Inv(s, want) && i < |s.handles|
    ensures HandleOk(s.os, s.handles[i])
    ensures Inv(Put(s, ReleaseSpec(s.os, s.handles[i]).0, i, CLOSED), want)
    ensures ReleaseSpec(s.os, s.handles[i]).1 == CLOSED
  {
    FitsOk(s, want, i);
    if s.handles[i].mem.None? {
      ClosingKeepsInv(s, want, i);
    } else {
      var t := Put(s, ReleaseSpec(s.os, s.handles[i]).0, i, CLOSED);
      ReleaseHandles(s, want, i, t);
      ReleaseObjects(s, want, i, t);
      ReleaseShape(s, want, i);
    }
  }

  // ----- acquire, one system call at a time

  lemma UnmappedKeepsInv(s: Sys, want: Sizes, i: nat, h: Handle)
    requires Inv(s, want) && i < |s.handles| && s.handles[i].mem.None? && h.mem.None?
    requires h.size < SIZE_LIMIT && (h.fd.Some? ==> h.fd.value < |s.os.objects|)
    ensures Inv(Put(s, s.os, i, h), want)
  {
    var t := Put(s, s.os, i, h);
    forall n | n in s.os.names
      ensures ObjectFits(t.os, want, t.handles, n)
    {
      assert ObjectFits(s.os, want, s.handles, n);
      MappingPut(s.handles, i, h, s.os.names[n]);
      assert Mapping(t.handles, s.os.names[n]) == Mapping(s.handles, s.os.names[n]);
    }
  }

  /** A new empty object under a free name. */
  lemma CreateKeepsInv(s: Sys, want: Sizes, n: string)
    requires Inv(s, want) && n in want && n !in s.os.names
    ensures Inv(s.(os := Os(s.os.names[n := |s.os.objects|], s.os.objects + [[]])), want)
  {
    var t := s.(os := Os(s.os.names[n := |s.os.objects|], s.os.objects + [[]]));
    forall m | m in t.os.names
      ensures ObjectFits(t.os, want, t.handles, m)
      ensures m != n ==> t.os.names[m] < |s.os.objects|
    {
      if m != n {
        assert ObjectFits(s.os, want, s.handles, m);
        OtherObjectFits(s.os, t.os, want, s.handles, t.handles, m);
      }
    }
    forall j | 0 <= j < |t.handles|
      ensures HandleFits(t.os, want, t.handles[j])
    {
      assert HandleFits(s.os, want, s.handles[j]);
    }
  }

  lemma ZerosLoad(n: nat, off: nat)
    requires off + 4 <= n
    ensures Load32(Zeros(n), off) == 0
  {
  }

  lemma EmptyUnmapped(s: Sys, want: Sizes, n: string)
    requires Inv(s, want) && n in s.os.names && s.os.names[n] < |s.os.objects|
    requires |s.os.objects[s.os.names[n]]| == 0
    ensures Mapping(s.handles, s.os.names[n]) == {}
  {
    forall i: nat | i < |s.handles|
      ensures i !in Mapping(s.handles, s.os.names[n])
    {
      assert HandleFits(s.os, want, s.handles[i]);
      if s.handles[i].mem.Some? {
        MappedSizeRoom(want[s.handles[i].name]);
      }
    }
  }

  function Truncated(os: Os, obj: nat, size: nat): Os
    requires obj < |os.objects|
  {
    os.(objects := os.objects[obj := Resized(os.objects[obj], size)])
  }

  lemma TruncateObject(s: Sys, want: Sizes, n: string)
    requires Inv(s, want) && n in s.os.names
    ensures n in want && s.os.names[n] < |s.os.objects|
    ensures ObjectFits(Truncated(s.os, s.os.names[n], SizeFor(want, n)), want, s.handles, n)
  {
    assert ObjectFits(s.os, want, s.handles, n);
    var obj := s.os.names[n];
    var size := SizeFor(want, n);
    MappedSizeRoom(want[n]);
    if |s.os.objects[obj]| == 0 {
      EmptyUnmapped(s, want, n);
      ZerosLoad(size, CounterOffset(size));
      assert Resized(s.os.objects[obj], size) == Zeros(size);
    } else {
      assert Resized(s.os.objects[obj], size) == s.os.objects[obj];
    }
  }

  /** ftruncate to the agreed size gives a new object its size and an old one nothing new. */
  lemma TruncateKeepsInv(s: Sys, want: Sizes, n: string)
    requires Inv(s, want) && n in s.os.names
    ensures n in want && s.os.names[n] < |s.os.objects|
    ensures Inv(s.(os := Truncated(s.os, s.os.names[n], SizeFor(want, n))), want)
  {
    TruncateObject(s, want, n);
    var obj := s.os.names[n];
    var t := s.(os := Truncated(s.os, obj, SizeFor(want, n)));
    forall m | m in t.os.names
      ensures ObjectFits(t.os, want, t.handles, m)
    {
      if m != n {
        assert ObjectFits(s.os, want, s.handles, m);
        assert s.os.names[m] != obj;
        OtherObjectFits(s.os, t.os, want, s.handles, t.handles, m);
      }
    }
    forall j | 0 <= j < |t.handles|
      ensures HandleFits(t.os, want, t.handles[j])
    {
      TruncateHandle(s, want, n, j);
    }
  }

  lemma TruncateHandle(s: Sys, want: Sizes, n: string, j: nat)
    requires Inv(s, want) && n in s.os.names && n in want && s.os.names[n] < |s.os.objects| && j < |s.handles|
    ensures HandleFits(Truncated(s.os, s.os.names[n], SizeFor(want, n)), want, s.handles[j])
  {
    var h := s.handles[j];
    assert HandleFits(s.os, want, h);
    if h.mem.Some? && h.mem.value == s.os.names[n] {
      assert h.name == n;
    }
  }

  /** Mapping a sized object counts the new mapping. */
  lemma MapKeepsInv(s: Sys, want: Sizes, i: nat, n: string)
    requires Inv(s, want) && i < |s.handles| && s.handles[i].mem.None? && n in s.os.names
    requires s.os.names[n] < |s.os.objects| && |s.os.objects[s.os.names[n]]| != 0
    ensures n in want && INFO_SIZE <= SizeFor(want, n) == |s.os.objects[s.os.names[n]]|
    ensures var obj, size := s.os.names[n], SizeFor(want, n);
      && Counter(s.os, obj, size) == |Mapping(s.handles, obj)| < WORD - 1
      && var t := Put(s, WithCounter(s.os, obj, size, Counter(s.os, obj, size) + 1), i,
                      Handle(None, Some(obj), size, n));
         Inv(t, want)
  {
    assert ObjectFits(s.os, want, s.handles, n);
    var obj, size := s.os.names[n], SizeFor(want, n);
    MappedSizeRoom(want[n]);
    SizeBelow(Mapping(s.handles, obj), |s.handles|);
    var count := |Mapping(s.handles, obj)|;
    var h := Handle(None, Some(obj), size, n);
    var t := Put(s, WithCounter(s.os, obj, size, count + 1), i, h);
    CounterSet(s.os, obj, size, count + 1);
    MapObjects(s, want, i, n, t);
    forall j | 0 <= j < |t.handles|
      ensures HandleFits(t.os, want, t.handles[j])
    {
      if j != i {
        assert HandleFits(s.os, want, s.handles[j]);
        OtherHandleFits(s.os, t.os, want, s.handles[j], obj, "");
      }
    }
  }

  lemma MapObjects(s: Sys, want: Sizes, i: nat, n: string, t: Sys)
    requires Inv(s, want) && i < |s.handles| && s.handles[i].mem.None? && n in s.os.names
    requires var obj := s.os.names[n];
      && obj < |s.os.objects| && |s.os.objects[obj]| != 0
      && t.os.names == s.os.names && |t.os.objects| == |s.os.objects|
      && |t.os.objects[obj]| == |s.os.objects[obj]| >= INFO_SIZE
      && (forall k :: 0 <= k < |s.os.objects| && k != obj ==> t.os.objects[k] == s.os.objects[k])
      && Counter(t.os, obj, |t.os.objects[obj]|) == |Mapping(s.handles, obj)| + 1
      && |t.handles| == |s.handles| && t.handles == s.handles[i := t.handles[i]] && t.handles[i].mem == Some(obj)
    ensures forall m :: m in t.os.names ==> ObjectFits(t.os, want, t.handles, m)
  {
    var obj := s.os.names[n];
    forall m | m in t.os.names
      ensures ObjectFits(t.os, want, t.handles, m)
    {
      assert ObjectFits(s.os, want, s.handles, m);
      MappingPut(s.handles, i, t.handles[i], s.os.names[m]);
      assert i !in Mapping(s.handles, s.os.names[m]);
      if m != n {
        assert s.os.names[m] != obj;
        assert Mapping(t.handles, s.os.names[m]) == Mapping(s.handles, s.os.names[m]);
        OtherObjectFits(s.os, t.os, want, s.handles, t.handles, m);
      }
    }
  }

  /** The handle as an acquire leaves it before get. */
  function Opened(fd: nat, mode: Mode, size: nat, n: string): Handle {
    Handle(Some(fd), None, if mode == Open then 0 else size, n)
  }

  lemma MappedCount(os: Os, obj: nat, size: nat)
    requires obj < |os.objects| && INFO_SIZE <= size <= |os.objects[obj]|
    requires Counter(os, obj, size) < WORD - 1
    ensures Mapped(os, obj, size) == WithCounter(os, obj, size, Counter(os, obj, size) + 1)
  {
    SmallWrap(Counter(os, obj, size) + 1);
  }

  lemma GetSized(os: Os, obj: nat, n: string, luck: Luck)
    requires HandleOk(os, Opened(obj, Open, 0, n))
    ensures var size := |os.objects[obj]|;
      && (OpenAccepts(size) && luck != MapFails ==>
            GetSpec(os, Opened(obj, Open, 0, n), luck) ==
              (Mapped(os, obj, size), Handle(None, Some(obj), size, n), true))
      && (!(OpenAccepts(size) && luck != MapFails) ==>
            GetSpec(os, Opened(obj, Open, 0, n), luck) == (os, Handle(Some(obj), None, size, n), false))
  {
  }

  lemma SizedByRequest(os: Os, h: Handle, luck: Luck)
    requires h.fd.Some? && h.fd.value < |os.objects| && 0 < h.size < SIZE_LIMIT
    ensures var size := MappedSize(h.size);
      SizeToMap(os, h, luck) ==
        if luck == TruncateFails then (os, size, false) else (Truncated(os, h.fd.value, size), size, true)
  {
  }

  lemma GetRequested(os: Os, obj: nat, request: nat, n: string, mode: Mode, luck: Luck)
    requires 0 < request < SIZE_LIMIT && mode != Open && INFO_SIZE <= MappedSize(request)
    requires HandleOk(os, Opened(obj, mode, request, n))
    ensures var size := MappedSize(request); var os1 := Truncated(os, obj, size);
      var failed := Handle(Some(obj), None, size, n);
      GetSpec(os, Opened(obj, mode, request, n), luck) ==
        if luck == TruncateFails then (os, failed, false)
        else if luck == MapFails then (os1, failed, false)
        else (Mapped(os1, obj, size), Handle(None, Some(obj), size, n), true)
  {
    var h := Opened(obj, mode, request, n);
    var size := MappedSize(request);
    SizedByRequest(os, h, luck);
    var fits := luck != TruncateFails;
    GetOnceSized(os, h, luck, if fits then Truncated(os, obj, size) else os, size, fits);
  }

  lemma MappedKeepsInv(s: Sys, want: Sizes, i: nat, n: string)
    requires Inv(s, want) && i < |s.handles| && s.handles[i].mem.None? && n in s.os.names
    requires s.os.names[n] < |s.os.objects| && |s.os.objects[s.os.names[n]]| != 0
    ensures n in want && INFO_SIZE <= SizeFor(want, n) == |s.os.objects[s.os.names[n]]|
    ensures var obj, size := s.os.names[n], SizeFor(want, n);
      Inv(Put(s, Mapped(s.os, obj, size), i, Handle(None, Some(obj), size, n)), want)
  {
    MapKeepsInv(s, want, i, n);
    MappedCount(s.os, s.os.names[n], SizeFor(want, n));
  }

  lemma GetBySize(s: Sys, want: Sizes, i: nat, n: string, luck: Luck)
    requires Inv(s, want) && i < |s.handles| && s.handles[i] == CLOSED && n in s.os.names
    requires s.os.names[n] < |s.os.objects|
    requires HandleOk(s.os, Opened(s.os.names[n], Open, 0, n))
    ensures var (os, h, _) := GetSpec(s.os, Opened(s.os.names[n], Open, 0, n), luck); Inv(Put(s, os, i, h), want)
  {
    var obj := s.os.names[n];
    var size := |s.os.objects[obj]|;
    GetSized(s.os, obj, n, luck);
    if OpenAccepts(size) && luck != MapFails {
      MappedKeepsInv(s, want, i, n);
    } else {
      assert size < SIZE_LIMIT by {
        assert ObjectFits(s.os, want, s.handles, n);
      }
      UnmappedKeepsInv(s, want, i, Handle(Some(obj), None, size, n));
    }
  }

  lemma GetByRequest(s: Sys, want: Sizes, i: nat, n: string, mode: Mode, luck: Luck)
    requires Inv(s, want) && i < |s.handles| && s.handles[i] == CLOSED && n in s.os.names && n in want
    requires s.os.names[n] < |s.os.objects| && mode != Open
    requires HandleOk(s.os, Opened(s.os.names[n], mode, want[n], n))
    ensures var (os, h, _) := GetSpec(s.os, Opened(s.os.names[n], mode, want[n], n), luck); Inv(Put(s, os, i, h), want)
  {
    var obj := s.os.names[n];
    var size := SizeFor(want, n);
    MappedSizeRoom(want[n]);
    GetRequested(s.os, obj, want[n], n, mode, luck);
    if luck == TruncateFails {
      UnmappedKeepsInv(s, want, i, Handle(Some(obj), None, size, n));
    } else {
      var s1 := s.(os := Truncated(s.os, obj, size));
      TruncateKeepsInv(s, want, n);
      if luck == MapFails {
        UnmappedKeepsInv(s1, want, i, Handle(Some(obj), None, size, n));
      } else {
        MappedKeepsInv(s1, want, i, n);
      }
    }
  }

  lemma LinkedInRange(s: Sys, want: Sizes)
    requires Inv(s, want)
    ensures forall n :: n in s.os.names ==> s.os.names[n] < |s.os.objects| && n in want
  {
    forall n | n in s.os.names
      ensures s.os.names[n] < |s.os.objects| && n in want
    {
      assert ObjectFits(s.os, want, s.handles, n);
    }
  }

  lemma OpenAndGet(s: Sys, want: Sizes, i: nat, n: string, mode: Mode, luck: Luck)
    requires Inv(s, want) && i < |s.handles| && s.handles[i] == CLOSED && n in want
    requires ShmOpen(s.os, n, mode, luck).1.Some?
    ensures var (os1, fd) := ShmOpen(s.os, n, mode, luck);
      && HandleOk(os1, Opened(fd.value, mode, want[n], n))
      && var (os, h, _) := GetSpec(os1, Opened(fd.value, mode, want[n], n), luck); Inv(Put(s, os, i, h), want)
  {
    var (os1, fd) := ShmOpen(s.os, n, mode, luck);
    LinkedInRange(s, want);
    if n !in s.os.names {
      CreateKeepsInv(s, want, n);
    }
    var s1 := s.(os := os1);
    LinkedInRange(s1, want);
    if mode == Open {
      GetBySize(s1, want, i, n, luck);
    } else {
      GetByRequest(s1, want, i, n, mode, luck);
    }
  }

  /** acquire is a release, an open and a get. */
  lemma AcquireShape(os: Os, h: Handle, name: string, size: nat, mode: Mode, luck: Luck)
    requires HandleOk(os, h) && size < SIZE_LIMIT
    requires ReleaseSpec(os, h).1 == CLOSED
    ensures var r := ReleaseSpec(os, h).0; var (os1, fd) := ShmOpen(r, "/" + name, mode, luck);
      var (t, h1, _) := AcquireSpec(os, h, name, size, mode, luck);
      && (name == "" ==> t == r && h1 == CLOSED)
      && (name != "" && fd.None? ==> t == os1 == r && h1 == CLOSED)
      && (name != "" && fd.Some? && HandleOk(os1, Opened(fd.value, mode, size, "/" + name)) ==>
            (t, h1) == (GetSpec(os1, Opened(fd.value, mode, size, "/" + name), luck).0,
                        GetSpec(os1, Opened(fd.value, mode, size, "/" + name), luck).1))
  {
  }

  lemma AcquireKeepsInv(s: Sys, want: Sizes, e: Event)
    requires Inv(s, want) && Possible(s, want, e) && e.Acquire?
    ensures Inv(After(s, want, e), want)
  {
    var i := e.i;
    ReleaseKeepsInv(s, want, i);
    AcquireShape(s.os, s.handles[i], e.name, e.size, e.mode, e.luck);
    var r := Put(s, ReleaseSpec(s.os, s.handles[i]).0, i, CLOSED);
    if e.name != "" && ShmOpen(r.os, "/" + e.name, e.mode, e.luck).1.Some? {
      OpenAndGet(r, want, i, "/" + e.name, e.mode, e.luck);
      PutTwice(s, r.os, i, CLOSED);
    }
  }

  lemma PutTwice(s: Sys, os: Os, i: nat, h: Handle)
    requires i < |s.handles|
    ensures forall os1, h1 :: Put(Put(s, os, i, h), os1, i, h1) == Put(s, os1, i, h1)
  {
  }

  /** Moving a handle changes who maps an object, not how many do. */
  lemma MoveMapping(handles: seq<Handle>, i: nat, obj: nat)
    requires i < |handles|
    ensures |Mapping(handles[i := CLOSED] + [handles[i]], obj)| == |Mapping(handles, obj)|
  {
    MappingPut(handles, i, CLOSED, obj);
    MappingAppend(handles[i := CLOSED], handles[i], obj);
    if handles[i].mem == Some(obj) {
      assert i in Mapping(handles, obj);
    } else {
      assert i !in Mapping(handles, obj);
    }
  }

  lemma MoveKeepsInv(s: Sys, want: Sizes, i: nat)
    requires Inv(s, want) && i < |s.handles| < MAX_HANDLES
    ensures Inv(After(s, want, MoveFrom(i)), want)
  {
    var t := After(s, want, MoveFrom(i));
    forall n | n in s.os.names
      ensures ObjectFits(t.os, want, t.handles, n)
    {
      assert ObjectFits(s.os, want, s.handles, n);
      MoveMapping(s.handles, i, s.os.names[n]);
    }
    assert forall j :: 0 <= j < |s.handles| ==> HandleFits(s.os, want, s.handles[j]);
  }

  lemma NewKeepsInv(s: Sys, want: Sizes)
    requires Inv(s, want) && |s.handles| < MAX_HANDLES
    ensures Inv(After(s, want, New), want)
  {
    var t := After(s, want, New);
    forall n | n in s.os.names
      ensures ObjectFits(t.os, want, t.handles, n)
    {
      assert ObjectFits(s.os, want, s.handles, n);
      MappingAppend(s.handles, CLOSED, s.os.names[n]);
    }
  }

  lemma EventKeepsInv(s: Sys, want: Sizes, e: Event)
    requires Inv(s, want) && Possible(s, want, e)
    ensures Inv(After(s, want, e), want)
  {
    match e
    case New => NewKeepsInv(s, want);
    case Acquire(_, _, _, _, _) => AcquireKeepsInv(s, want, e);
    case Release(i) => ReleaseKeepsInv(s, want, i);
    case MoveFrom(i) => MoveKeepsInv(s, want, i);
  }

  ghost predicate Happens(s: Sys, want: Sizes, es: seq<Event>, t: Sys)
    requires Inv(s, want)
    decreases |es|
  {
    if es == [] then s == t
    else Possible(s, want, es[0]) && (EventKeepsInv(s, want, es[0]); Happens(After(s, want, es[0]), want, es[1..], t))
  }

  const NOTHING: Sys := Sys(Os(map[], []), [])

  lemma {:induction false} HappensKeepsInv(s: Sys, want: Sizes, es: seq<Event>, t: Sys)
    requires Inv(s, want) && Happens(s, want, es, t)
    ensures Inv(t, want)
    decreases |es|
  {
    if es != [] {
      EventKeepsInv(s, want, es[0]);
      HappensKeepsInv(After(s, want, es[0]), want, es[1..], t);
    }
  }

  ghost predicate Reachable(want: Sizes, t: Sys) {
    SizesOk(want) && exists es: seq<Event> :: Happens(NOTHING, want, es, t)
  }

  lemma ReachableInv(want: Sizes, t: Sys)
    requires Reachable(want, t)
    ensures Inv(t, want)
  {
    var es: seq<Event> :| Happens(NOTHING, want, es, t);
    HappensKeepsInv(NOTHING, want, es, t);
  }

  // ----- what the counter promises

  /** The counter of a mapped object is the number of handles that map it, whichever of
      them reads it: they all find it at the same offset. */
  lemma CounterIsMappings(want: Sizes, s: Sys, i: nat, j: nat)
    requires Reachable(want, s) && i < |s.handles| && j < |s.handles|
    requires s.handles[i].mem.Some? && s.handles[j].mem == s.handles[i].mem
    ensures var h := s.handles[i];
      && h.mem.value < |s.os.objects| && INFO_SIZE <= h.size <= |s.os.objects[h.mem.value]|
      && Counter(s.os, h.mem.value, h.size) == |Mapping(s.handles, h.mem.value)|
      && s.handles[j].size == h.size && s.handles[j].name == h.name
  {
    ReachableInv(want, s);
    MappedFacts(s, want, i);
    MappedFacts(s, want, j);
  }

  /** A release unlinks the name exactly when no other handle maps the object. */
  lemma UnlinkedByLast(want: Sizes, s: Sys, i: nat)
    requires Reachable(want, s) && i < |s.handles| && s.handles[i].mem.Some?
    ensures Inv(s, want)
    ensures var h := s.handles[i]; var t := After(s, want, Release(i));
      && h.name in s.os.names
      && (h.name in t.os.names <==> exists j :: 0 <= j < |s.handles| && j != i && s.handles[j].mem == h.mem)
  {
    ReachableInv(want, s);
    ReleaseShape(s, want, i);
    MappedFacts(s, want, i);
    OthersMap(s.handles, s.handles[i].mem.value, i);
  }

  lemma OthersMap(handles: seq<Handle>, obj: nat, i: nat)
    requires i < |handles| && i in Mapping(handles, obj)
    ensures |Mapping(handles, obj)| != 1 <==> exists j :: 0 <= j < |handles| && j != i && handles[j].mem == Some(obj)
  {
    var others := Mapping(handles, obj) - {i};
    if |others| == 0 {
      forall j: nat | j < |handles| && j != i
        ensures handles[j].mem != Some(obj)
      {
        assert j !in others;
      }
    } else {
      var j :| j in others;
      assert handles[j].mem == Some(obj);
    }
  }

  lemma ReleaseObjectCount(os: Os, h: Handle)
    requires HandleOk(os, h)
    ensures |ReleaseSpec(os, h).0.objects| == |os.objects|
  {
  }

  /** An object that is new, with room for the request, zero but for a counter of one. */
  ghost predicate FreshObject(os: Os, h: Handle, obj: nat, request: nat) {
    && h.mem == Some(obj) && |os.objects| == obj + 1
    && request + INFO_SIZE <= |os.objects[obj]|
    && (forall k :: 0 <= k < |os.objects[obj]| - INFO_SIZE ==> os.objects[obj][k] == 0)
    && Load32(os.objects[obj], |os.objects[obj]| - INFO_SIZE) == 1
  }

  /** Opening a name that is not linked, with a closed handle. */
  lemma OpensFresh(s: Sys, want: Sizes, n: string, mode: Mode)
    requires Inv(s, want) && n in want && n !in s.os.names && mode != Open
    ensures var (os1, fd) := ShmOpen(s.os, n, mode, AllSucceed);
      && fd == Some(|s.os.objects|) && HandleOk(os1, Opened(fd.value, mode, want[n], n))
      && var (t, h, _) := GetSpec(os1, Opened(fd.value, mode, want[n], n), AllSucceed);
         FreshObject(t, h, |s.os.objects|, want[n])
  {
    CreateKeepsInv(s, want, n);
    var os1 := Os(s.os.names[n := |s.os.objects|], s.os.objects + [[]]);
    LinkedInRange(s.(os := os1), want);
    FreshMapping(os1, |s.os.objects|, want[n], n, mode);
  }

  /** An acquire that may create, under a name that is not linked once the handle has released
      what it held, maps an object nobody has seen, which is zero throughout except for its
      counter of one. */
  lemma CreatesZeroed(want: Sizes, s: Sys, i: nat, name: string, mode: Mode)
    requires Reachable(want, s) && i < |s.handles| && name != "" && "/" + name in want && mode != Open
    ensures Inv(s, want) && Possible(s, want, Acquire(i, name, want["/" + name], mode, AllSucceed))
    ensures "/" + name !in After(s, want, Release(i)).os.names ==>
      var size := want["/" + name]; var t := After(s, want, Acquire(i, name, size, mode, AllSucceed));
      FreshObject(t.os, t.handles[i], |s.os.objects|, size)
  {
    ReachableInv(want, s);
    var n := "/" + name;
    ReleaseKeepsInv(s, want, i);
    ReleaseObjectCount(s.os, s.handles[i]);
    var r := Put(s, ReleaseSpec(s.os, s.handles[i]).0, i, CLOSED);
    assert r == After(s, want, Release(i));
    if n !in r.os.names {
      OpensFresh(r, want, n, mode);
      AcquireShape(s.os, s.handles[i], name, want[n], mode, AllSucceed);
    }
  }

  /** Mapping an object of zeros counts to one and changes nothing else. */
  lemma ZeroObjectMapped(os: Os, obj: nat, size: nat)
    requires obj < |os.objects| && INFO_SIZE <= size && os.objects[obj] == Zeros(size)
    ensures var t := Mapped(os, obj, size);
      && |t.objects| == |os.objects| && |t.objects[obj]| == size
      && (forall k :: 0 <= k < size - INFO_SIZE ==> t.objects[obj][k] == 0)
      && Load32(t.objects[obj], size - INFO_SIZE) == 1
  {
    ZerosLoad(size, CounterOffset(size));
    MappedCount(os, obj, size);
    CounterSet(os, obj, size, 1);
  }

  lemma FreshMapping(os: Os, obj: nat, request: nat, n: string, mode: Mode)
    requires 0 < request <= SIZE_LIMIT - 8 && mode != Open
    requires HandleOk(os, Opened(obj, mode, request, n)) && os.objects[obj] == []
    ensures var (t, h, ok) := GetSpec(os, Opened(obj, mode, request, n), AllSucceed);
      && ok && h.mem == Some(obj) && |t.objects| == |os.objects|
      && request + INFO_SIZE <= |t.objects[obj]|
      && (forall k :: 0 <= k < |t.objects[obj]| - INFO_SIZE ==> t.objects[obj][k] == 0)
      && Load32(t.objects[obj], |t.objects[obj]| - INFO_SIZE) == 1
  {
    var size := MappedSize(request);
    MappedSizeRoom(request);
    GetRequested(os, obj, request, n, mode, AllSucceed);
    assert Resized([], size) == Zeros(size);
    ZeroObjectMapped(Truncated(os, obj, size), obj, size);
  }

  // ----- names that stay linked with nobody to unlink them

  /** Every linked name has a handle whose release will unlink it. */
  ghost predicate NoLeaks(s: Sys) {
    forall n :: n in s.os.names ==> Mapping(s.handles, s.os.names[n]) != {}
  }

  lemma ReleaseNoLeaks(s: Sys, want: Sizes, i: nat)
    requires Inv(s, want) && NoLeaks(s) && i < |s.handles|
    ensures HandleOk(s.os, s.handles[i])
    ensures NoLeaks(Put(s, ReleaseSpec(s.os, s.handles[i]).0, i, CLOSED))
  {
    FitsOk(s, want, i);
    var h := s.handles[i];
    var t := Put(s, ReleaseSpec(s.os, h).0, i, CLOSED);
    if h.mem.Some? {
      ReleaseShape(s, want, i);
      MappedFacts(s, want, i);
    }
    forall n | n in t.os.names
      ensures Mapping(t.handles, t.os.names[n]) != {}
    {
      LeftMapping(s, i, n);
    }
  }

  /** A name that a release leaves linked still has a mapping. */
  lemma LeftMapping(s: Sys, i: nat, n: string)
    requires i < |s.handles| && n in s.os.names && Mapping(s.handles, s.os.names[n]) != {}
    requires s.handles[i].mem == Some(s.os.names[n]) ==> |Mapping(s.handles, s.os.names[n])| != 1
    ensures Mapping(s.handles[i := CLOSED], s.os.names[n]) != {}
  {
    var obj := s.os.names[n];
    MappingPut(s.handles, i, CLOSED, obj);
    if s.handles[i].mem == Some(obj) {
      assert |Mapping(s.handles, obj) - {i}| == |Mapping(s.handles, obj)| - 1;
    } else {
      assert i !in Mapping(s.handles, obj);
      assert Mapping(s.handles, obj) - {i} == Mapping(s.handles, obj);
    }
  }

  lemma GetNames(os: Os, h: Handle, luck: Luck)
    requires HandleOk(os, h)
    ensures GetSpec(os, h, luck).0.names == os.names
  {
  }

  /** Opening in the place of a closed handle takes no mapping away. */
  lemma AddedMapping(s: Sys, os: Os, i: nat, h: Handle)
    requires i < |s.handles| && s.handles[i] == CLOSED
    requires forall n :: n in os.names ==>
               Mapping(s.handles, os.names[n]) != {} || h.mem == Some(os.names[n])
    ensures NoLeaks(Put(s, os, i, h))
  {
    forall n | n in os.names
      ensures Mapping(s.handles[i := h], os.names[n]) != {}
    {
      MappingPut(s.handles, i, h, os.names[n]);
      assert i !in Mapping(s.handles, os.names[n]);
      assert Mapping(s.handles, os.names[n]) - {i} == Mapping(s.handles, os.names[n]);
    }
  }

  predicate Fails(luck: Luck) {
    luck == TruncateFails || luck == MapFails
  }

  /** Opening a name that is linked leaks nothing, even if the mapping fails then. */
  lemma ReopenNoLeaks(s: Sys, i: nat, os: Os, h: Handle)
    requires NoLeaks(s) && i < |s.handles| && s.handles[i] == CLOSED && os.names == s.os.names
    ensures NoLeaks(Put(s, os, i, h))
  {
    AddedMapping(s, os, i, h);
  }

  /** A name that is linked to a new object has a mapping exactly if the handle got it. */
  lemma CreateLeaksIff(s: Sys, want: Sizes, i: nat, n: string, os: Os, h: Handle)
    requires Inv(s, want) && NoLeaks(s) && i < |s.handles| && s.handles[i] == CLOSED
    requires os.names == s.os.names[n := |s.os.objects|] && n !in s.os.names
    requires h.mem.None? || h.mem == Some(|s.os.objects|)
    ensures NoLeaks(Put(s, os, i, h)) <==> h.mem.Some?
  {
    var t := Put(s, os, i, h);
    if h.mem.Some? {
      AddedMapping(s, os, i, h);
    } else {
      forall j: nat | j < |t.handles|
        ensures t.handles[j].mem != Some(|s.os.objects|)
      {
        assert HandleFits(s.os, want, s.handles[j]);
      }
      assert Mapping(t.handles, os.names[n]) == {};
      assert n in os.names;
    }
  }

  /** Opening a name and mapping it leaks it exactly if it created the name and failed. */
  lemma OpenLeaksIff(s: Sys, want: Sizes, i: nat, n: string, mode: Mode, luck: Luck)
    requires Inv(s, want) && NoLeaks(s) && i < |s.handles| && s.handles[i] == CLOSED && n in want
    requires ShmOpen(s.os, n, mode, luck).1.Some?
    ensures var (os1, fd) := ShmOpen(s.os, n, mode, luck);
      && HandleOk(os1, Opened(fd.value, mode, want[n], n))
      && var (os, h, _) := GetSpec(os1, Opened(fd.value, mode, want[n], n), luck);
         NoLeaks(Put(s, os, i, h)) <==> n in s.os.names || !Fails(luck)
  {
    OpenAndGet(s, want, i, n, mode, luck);
    var (os1, fd) := ShmOpen(s.os, n, mode, luck);
    var h0 := Opened(fd.value, mode, want[n], n);
    GetNames(os1, h0, luck);
    if n in s.os.names {
      ReopenNoLeaks(s, i, GetSpec(os1, h0, luck).0, GetSpec(os1, h0, luck).1);
    } else {
      MappedSizeRoom(want[n]);
      GetRequested(os1, fd.value, want[n], n, mode, luck);
      CreateLeaksIff(s, want, i, n, GetSpec(os1, h0, luck).0, GetSpec(os1, h0, luck).1);
    }
  }

  /** An acquire that creates its name, once its own release is done, and then cannot set the
      object's size or map it. */
  ghost predicate Leaks(s: Sys, want: Sizes, e: Event)
    requires Inv(s, want) && Possible(s, want, e)
  {
    && e.Acquire? && e.name != "" && e.mode != Open && Fails(e.luck)
    && "/" + e.name !in After(s, want, Release(e.i)).os.names
  }

  lemma AcquireLeaksIff(s: Sys, want: Sizes, e: Event)
    requires Inv(s, want) && NoLeaks(s) && Possible(s, want, e) && e.Acquire?
    ensures NoLeaks(After(s, want, e)) <==> !Leaks(s, want, e)
  {
    var i := e.i;
    ReleaseKeepsInv(s, want, i);
    ReleaseNoLeaks(s, want, i);
    AcquireShape(s.os, s.handles[i], e.name, e.size, e.mode, e.luck);
    var r := Put(s, ReleaseSpec(s.os, s.handles[i]).0, i, CLOSED);
    assert r == After(s, want, Release(i));
    if e.name != "" && ShmOpen(r.os, "/" + e.name, e.mode, e.luck).1.Some? {
      OpenLeaksIff(r, want, i, "/" + e.name, e.mode, e.luck);
      PutTwice(s, r.os, i, CLOSED);
    } else {
      assert After(s, want, e) == r;
    }
  }

  lemma NewAndMoveNoLeaks(s: Sys, want: Sizes, e: Event)
    requires Inv(s, want) && NoLeaks(s) && Possible(s, want, e) && (e.New? || e.MoveFrom?)
    ensures NoLeaks(After(s, want, e))
  {
    forall n | n in s.os.names
      ensures Mapping(After(s, want, e).handles, s.os.names[n]) != {}
    {
      if e.New? {
        MappingAppend(s.handles, CLOSED, s.os.names[n]);
      } else {
        MoveMapping(s.handles, e.i, s.os.names[n]);
      }
    }
  }

  /** From a state without leaks, an event leads to one if and only if it is such an
      acquire. */
  lemma LeaksIff(s: Sys, want: Sizes, e: Event)
    requires Inv(s, want) && NoLeaks(s) && Possible(s, want, e)
    ensures NoLeaks(After(s, want, e)) <==> !Leaks(s, want, e)
  {
    match e
    case Acquire(_, _, _, _, _) => AcquireLeaksIff(s, want, e);
    case Release(i) => ReleaseNoLeaks(s, want, i);
    case _ => NewAndMoveNoLeaks(s, want, e);
  }

  /** No state of the run, from the first to the last, has a leak. */
  ghost predicate NoLeaksThroughout(s: Sys, want: Sizes, es: seq<Event>)
    requires Inv(s, want)
    decreases |es|
  {
    && NoLeaks(s)
    && (es != [] && Possible(s, want, es[0]) ==>
          (EventKeepsInv(s, want, es[0]); NoLeaksThroughout(After(s, want, es[0]), want, es[1..])))
  }

  ghost predicate NoneLeaks(s: Sys, want: Sizes, es: seq<Event>)
    requires Inv(s, want)
    decreases |es|
  {
    es != [] && Possible(s, want, es[0]) ==>
      && !Leaks(s, want, es[0])
      && (EventKeepsInv(s, want, es[0]); NoneLeaks(After(s, want, es[0]), want, es[1..]))
  }

  lemma {:induction false} ThroughoutIff(s: Sys, want: Sizes, es: seq<Event>)
    requires Inv(s, want) && NoLeaks(s)
    ensures NoLeaksThroughout(s, want, es) <==> NoneLeaks(s, want, es)
    decreases |es|
  {
    if es != [] && Possible(s, want, es[0]) {
      EventKeepsInv(s, want, es[0]);
      LeaksIff(s, want, es[0]);
      var t := After(s, want, es[0]);
      if NoLeaks(t) {
        ThroughoutIff(t, want, es[1..]);
      }
    }
  }

  /** Every name is linked exactly as long as some handle maps its object. */
  ghost predicate LinkedIffMapped(s: Sys) {
    forall n :: n in s.os.names <==>
                exists i :: 0 <= i < |s.handles| && s.handles[i].mem.Some? && s.handles[i].name == n
  }

  lemma NoLeaksMeans(s: Sys, want: Sizes)
    requires Inv(s, want)
    ensures NoLeaks(s) <==> LinkedIffMapped(s)
  {
    forall i: nat | i < |s.handles| && s.handles[i].mem.Some?
      ensures s.handles[i].name in s.os.names && s.os.names[s.handles[i].name] == s.handles[i].mem.value
    {
      MappedFacts(s, want, i);
    }
    forall n | n in s.os.names
      ensures Mapping(s.handles, s.os.names[n]) != {}
              <==> exists i :: 0 <= i < |s.handles| && s.handles[i].mem.Some? && s.handles[i].name == n
    {
      MappedByName(s, want, n);
    }
  }

  /** The handles that map the object of a name are those that carry the name. */
  lemma MappedByName(s: Sys, want: Sizes, n: string)
    requires Inv(s, want) && n in s.os.names
    ensures Mapping(s.handles, s.os.names[n]) != {}
            <==> exists i :: 0 <= i < |s.handles| && s.handles[i].mem.Some? && s.handles[i].name == n
  {
    if i :| i in Mapping(s.handles, s.os.names[n]) {
      MappedFacts(s, want, i);
    }
    if i :| 0 <= i < |s.handles| && s.handles[i].mem.Some? && s.handles[i].name == n {
      MappedFacts(s, want, i);
      assert i in Mapping(s.handles, s.os.names[n]);
    }
  }

  ghost predicate LinkedIffMappedThroughout(s: Sys, want: Sizes, es: seq<Event>)
    requires Inv(s, want)
    decreases |es|
  {
    && LinkedIffMapped(s)
    && (es != [] && Possible(s, want, es[0]) ==>
          (EventKeepsInv(s, want, es[0]); LinkedIffMappedThroughout(After(s, want, es[0]), want, es[1..])))
  }

  lemma {:induction false} ThroughoutMeans(s: Sys, want: Sizes, es: seq<Event>)
    requires Inv(s, want)
    ensures LinkedIffMappedThroughout(s, want, es) <==> NoLeaksThroughout(s, want, es)
    decreases |es|
  {
    NoLeaksMeans(s, want);
    if es != [] && Possible(s, want, es[0]) {
      EventKeepsInv(s, want, es[0]);
      ThroughoutMeans(After(s, want, es[0]), want, es[1..]);
    }
  }

  /** In all the states of a run a name is linked exactly as long as some handle maps its
      object, if and only if no acquire of the run creates a name and then fails. */
  lemma LinkedThroughoutIff(want: Sizes, es: seq<Event>, s: Sys)
    requires SizesOk(want) && Happens(NOTHING, want, es, s)
    ensures LinkedIffMappedThroughout(NOTHING, want, es) <==> NoneLeaks(NOTHING, want, es)
  {
    ThroughoutMeans(NOTHING, want, es);
    ThroughoutIff(NOTHING, want, es);
  }

  /** The shortest such run: one handle creates a name, and the mapping fails. */
  lemma LeakHappens() returns (want: Sizes, es: seq<Event>, s: Sys)
    ensures SizesOk(want) && Happens(NOTHING, want, es, s) && |es| == 2
    ensures !LinkedIffMapped(s)
  {
    want := map["/a" := 16];
    var e := Acquire(0, "a", 16, Create, MapFails);
    es := [New, e];
    assert "/" + "a" == "/a";
    EventKeepsInv(NOTHING, want, New);
    var t := After(NOTHING, want, New);
    FitsOk(t, want, 0);
    assert After(t, want, Release(0)).os.names == map[];
    EventKeepsInv(t, want, e);
    s := After(t, want, e);
    LeaksIff(t, want, e);
    NoLeaksMeans(s, want);
    assert es[1..] == [e] && [e][1..] == [];
    assert Happens(s, want, [], s);
    assert Happens(t, want, [e], s);
  }
}
