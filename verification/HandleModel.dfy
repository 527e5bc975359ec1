/** The life of shared memory objects under reference-counting handles, on values.

An object is named through POSIX shm_open and shm_unlink (IEEE Std 1003.1), sized with
ftruncate, and carries in its last four bytes the number of handles that map it.
*/
module HandleModel {
  import opened Words
  import opened Payloads
  import opened Resource

  const INFO_SIZE: nat := 4
  const SIZE_LIMIT: nat := 0x1_0000_0000_0000_0000

  // ----- sizes

  /** The size a creating handle maps for a request, in 64-bit arithmetic. */
  function MappedSize(size: nat): nat
    requires 0 < size < SIZE_LIMIT
  {
    (RoundedUp(size) + INFO_SIZE) % SIZE_LIMIT
  }

  /** The check an opening handle makes on the size it finds. */
  predicate OpenAccepts(size: nat) {
    INFO_SIZE < size && size % INFO_SIZE == 0
  }

  /** Where acc_of puts the counter of a mapping of this size. */
  function CounterOffset(size: nat): nat
    requires INFO_SIZE <= size
  {
    size - INFO_SIZE
  }

  /** The mapping has room for the request before the counter exactly when the rounding
      does not wrap, and then the opener accepts it, and the counter is aligned and sits
      less than four bytes behind the request. */
  lemma MappedSizeRoom(size: nat)
    requires 0 < size < SIZE_LIMIT
    ensures var m := MappedSize(size);
      (INFO_SIZE <= m && size <= CounterOffset(m)) <==> size <= SIZE_LIMIT - 8
    ensures size <= SIZE_LIMIT - 8 ==> var m := MappedSize(size);
      OpenAccepts(m) && CounterOffset(m) % INFO_SIZE == 0 && size <= CounterOffset(m) < size + INFO_SIZE
  {
    var u := RoundedUp(size);
    RoundedUpBounds(size);
    if u + INFO_SIZE < SIZE_LIMIT {
      WrapsNot(u + INFO_SIZE);
      MultipleKept(u);
    } else {
      WrapsOnce(u + INFO_SIZE);
    }
  }

  /** The sizes that an opener accepts are just those that creators map. */
  lemma OpenAcceptsIff(size: nat)
    requires size < SIZE_LIMIT
    ensures OpenAccepts(size) <==>
            exists request: nat :: 0 < request <= SIZE_LIMIT - 8 && MappedSize(request) == size
  {
    if OpenAccepts(size) {
      var request := size - INFO_SIZE;
      RoundedUpBounds(request);
      WholeCounters(RoundedUp(request), request);
      WrapsNot(size);
      assert MappedSize(request) == size;
    }
    if request: nat :| 0 < request <= SIZE_LIMIT - 8 && MappedSize(request) == size {
      MappedSizeRoom(request);
    }
  }

  /** A request that is a whole number of the arena's alignment units is mapped with just the
      counter behind it, which is the shape of object that an arena is laid out in. */
  lemma ArenaFits(capacity: nat)
    requires 0 < capacity <= SIZE_LIMIT - 8 && capacity % ALIGNMENT == 0
    ensures MappedSize(capacity) == capacity + INFO_SIZE
    ensures MappedSize(capacity) % ALIGNMENT == COUNT_SIZE
  {
    RoundedUpBounds(capacity);
    UnitsAreCounters(capacity);
    WholeCounters(RoundedUp(capacity), capacity);
    WrapsNot(capacity + INFO_SIZE);
  }

  lemma UnitsAreCounters(size: nat)
    requires size % ALIGNMENT == 0
    ensures size % INFO_SIZE == 0 && (size + INFO_SIZE) % ALIGNMENT == COUNT_SIZE
  {
    var k := size / ALIGNMENT;
    DivModUnique(size, INFO_SIZE, 4 * k, 0);
    DivModUnique(size + INFO_SIZE, ALIGNMENT, k, COUNT_SIZE);
  }

  lemma WholeCounters(u: nat, size: nat)
    requires u % INFO_SIZE == 0 && size % INFO_SIZE == 0 && size <= u < size + INFO_SIZE
    ensures u == size
  {
  }

  /** The request rounded up to a whole number of counters, before any wrapping. */
  function RoundedUp(size: nat): nat
    requires 0 < size
  {
    ((size - 1) / INFO_SIZE + 1) * INFO_SIZE
  }

  lemma RoundedUpBounds(size: nat)
    requires 0 < size
    ensures size <= RoundedUp(size) < size + INFO_SIZE
    ensures RoundedUp(size) % INFO_SIZE == 0
  {
  }

  lemma WrapsNot(x: nat)
    requires x < SIZE_LIMIT
    ensures x % SIZE_LIMIT == x
  {
  }

  lemma WrapsOnce(x: nat)
    requires SIZE_LIMIT <= x < 2 * SIZE_LIMIT
    ensures x % SIZE_LIMIT == x - SIZE_LIMIT
  {
  }

  lemma MultipleKept(u: nat)
    requires u % INFO_SIZE == 0
    ensures (u + INFO_SIZE) % INFO_SIZE == 0
  {
  }

  // ----- the name table, the objects and the handles

  /** names is the table of linked objects.  Objects are numbered in order of creation and
      outlive their name for as long as they are mapped. */
  datatype Os = Os(names: map<string, nat>, objects: seq<Bytes>)

  datatype Handle = Handle(fd: Option<nat>, mem: Option<nat>, size: nat, name: string)

  const CLOSED: Handle := Handle(None, None, 0, "")

  datatype Mode = Open | Create | CreateOrOpen

  /** How far the system calls of an acquire succeed, beyond what the table decides. */
  datatype Luck = OpenFails | TruncateFails | MapFails | AllSucceed

  function Zeros(n: nat): (r: Bytes)
    ensures |r| == n
  {
    seq(n, i => 0)
  }

  /** ftruncate: cut off, or extend with zeros. */
  function Resized(obj: Bytes, n: nat): (r: Bytes)
    ensures |r| == n
  {
    if n <= |obj| then obj[..n] else obj + Zeros(n - |obj|)
  }

  /** A counter word as the signed integer that the source compares. */
  function Signed(v: nat): int {
    if v < 0x8000_0000 then v else v - WORD
  }

  function ShmOpen(os: Os, name: string, mode: Mode, luck: Luck): (r: (Os, Option<nat>)) {
    if luck == OpenFails then (os, None)
    else if name in os.names then (if mode == Create then (os, None) else (os, Some(os.names[name])))
    else if mode == Open then (os, None)
    else (Os(os.names[name := |os.objects|], os.objects + [[]]), Some(|os.objects|))
  }

  function ShmUnlink(os: Os, name: string): Os {
    os.(names := map n | n in os.names && n != name :: os.names[n])
  }

  /** The counter in an object that is mapped with a size. */
  function Counter(os: Os, obj: nat, size: nat): nat
    requires obj < |os.objects| && INFO_SIZE <= size <= |os.objects[obj]|
  {
    Load32(os.objects[obj], CounterOffset(size))
  }

  function WithCounter(os: Os, obj: nat, size: nat, v: nat): Os
    requires obj < |os.objects| && INFO_SIZE <= size <= |os.objects[obj]| && v < WORD
  {
    os.(objects := os.objects[obj := Store(os.objects[obj], CounterOffset(size), Word32(v))])
  }

  /** What the kernel guarantees of its table. */
  predicate TableOk(os: Os) {
    forall n :: n in os.names ==> os.names[n] < |os.objects|
  }

  /** The same, and what a handle guarantees of its own fields. */
  predicate HandleOk(os: Os, h: Handle) {
    && TableOk(os)
    && (h.fd.Some? ==> h.fd.value < |os.objects|)
    && (h.mem.Some? && h.size != 0 ==>
          h.mem.value < |os.objects| && INFO_SIZE <= h.size <= |os.objects[h.mem.value]|)
    && h.size < SIZE_LIMIT
  }

  /** get, up to the mapping: the size to map, and whether it goes on to map it.  A request that
      wrapped to nothing cannot be mapped. */
  function SizeToMap(os: Os, h: Handle, luck: Luck): (r: (Os, nat, bool))
    requires h.fd.Some? && h.fd.value < |os.objects| && h.size < SIZE_LIMIT
  {
    var obj := os.objects[h.fd.value];
    if h.size == 0 then (os, |obj|, OpenAccepts(|obj|))
    else
      var size := MappedSize(h.size);
      if luck == TruncateFails then (os, size, false)
      else (os.(objects := os.objects[h.fd.value := Resized(obj, size)]), size, true)
  }

  /** The mapping step of get. */
  function Mapped(os: Os, obj: nat, size: nat): Os
    requires obj < |os.objects| && INFO_SIZE <= size <= |os.objects[obj]|
  {
    WithCounter(os, obj, size, Wrap32(Counter(os, obj, size) + 1))
  }

  function GetSpec(os: Os, h: Handle, luck: Luck): (r: (Os, Handle, bool))
    requires HandleOk(os, h)
  {
    if h.mem.Some? then (os, h, true)
    else if h.fd.None? then (os, h, false)
    else
      var (os1, size, fits) := SizeToMap(os, h, luck);
      if !fits || luck == MapFails || size < INFO_SIZE then (os1, h.(size := size), false)
      else
        (Mapped(os1, h.fd.value, size), h.(fd := None, mem := Some(h.fd.value), size := size), true)
  }

  /** get, once the size is settled. */
  lemma GetOnceSized(os: Os, h: Handle, luck: Luck, os1: Os, size: nat, fits: bool)
    requires HandleOk(os, h) && h.mem.None? && h.fd.Some?
    requires SizeToMap(os, h, luck) == (os1, size, fits)
    ensures !fits || luck == MapFails || size < INFO_SIZE ==> GetSpec(os, h, luck) == (os1, h.(size := size), false)
    ensures fits && luck != MapFails && INFO_SIZE <= size ==>
              && h.fd.value < |os1.objects| && size <= |os1.objects[h.fd.value]|
              && GetSpec(os, h, luck) ==
                 (Mapped(os1, h.fd.value, size), h.(fd := None, mem := Some(h.fd.value), size := size), true)
  {
  }

  /** release: the result is the signed counter before it, or -1. */
  function ReleaseSpec(os: Os, h: Handle): (r: (Os, Handle, int))
    requires HandleOk(os, h)
  {
    if h.mem.None? || h.size == 0 then (os, CLOSED, -1)
    else
      var before := Counter(os, h.mem.value, h.size);
      var os1 := WithCounter(os, h.mem.value, h.size, Wrap32(before - 1));
      (if Signed(before) <= 1 && h.name != "" then ShmUnlink(os1, h.name) else os1, CLOSED, Signed(before))
  }

  /** What acquire does once the handle is released: open the name, and map. */
  function OpenSpec(os: Os, name: string, size: nat, mode: Mode, luck: Luck): (r: (Os, Handle, bool))
    requires TableOk(os) && size < SIZE_LIMIT
  {
    var (os1, fd) := ShmOpen(os, name, mode, luck);
    if fd.None? then (os1, CLOSED, false)
    else GetSpec(os1, Handle(fd, None, if mode == Open then 0 else size, name), luck)
  }

  function AcquireSpec(os: Os, h: Handle, name: string, size: nat, mode: Mode, luck: Luck): (r: (Os, Handle, bool))
    requires HandleOk(os, h) && size < SIZE_LIMIT
  {
    var (os1, h1, _) := ReleaseSpec(os, h);
    if name == "" then (os1, h1, false)
    else OpenSpec(os1, "/" + name, size, mode, luck)
  }

  /** Move construction: the new handle, and what is left of the old one. */
  function MoveSpec(h: Handle): (r: (Handle, Handle)) {
    (h, CLOSED)
  }
}
