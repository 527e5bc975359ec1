/** Machine words and the counter arithmetic of the ring.

The ring's counters are 32-bit and wrap; a slot index and the full and empty
tests look at their low eight bits only. Every use of those widths in the
project goes through this module.
*/
module Words {

  const WORD: int := 0x1_0000_0000
  const SLOTS: int := 256
  const CAPACITY: int := 255

  type byte = x: int | 0 <= x < 256

  type Bytes = seq<byte>

  datatype Option<+T> = None | Some(value: T)

  /** What a sender passes through the ring: where a payload lies. */
  datatype Descriptor = Descriptor(id: nat, offset: nat, length: nat)

  /** Conversion to uint32_t, also of a negative difference. */
  function Wrap32(x: int): (r: int)
    ensures 0 <= r < WORD
  {
    x % WORD
  }

  /** A number that fits is not changed. */
  lemma SmallWrap(x: nat)
    requires x < WORD
    ensures Wrap32(x) == x
  {
  }

  /** Conversion to uint8_t. */
  function Low8(x: int): (r: int)
    ensures 0 <= r < SLOTS
  {
    x % SLOTS
  }

  /** The sender's full test, on the two counters as loaded. */
  predicate FullTest(w: int, r: int) {
    Low8(w) == Low8(Wrap32(r - 1))
  }

  /** The empty test inside pop, on eight bits. */
  predicate EmptyTest8(cursor: int, w: int) {
    Low8(cursor) == Low8(w)
  }

  lemma Low8OfWrap(x: int)
    ensures Low8(Wrap32(x)) == Low8(x)
  {
    var q := x / WORD;
    assert x == q * WORD + Wrap32(x);
    Low8Shift(Wrap32(x), q * 0x100_0000);
  }

  lemma Low8Shift(x: int, k: int)
    ensures Low8(x + k * SLOTS) == Low8(x)
  {
  }

  lemma WrapStep(x: int)
    ensures Wrap32(Wrap32(x) + 1) == Wrap32(x + 1)
    ensures Wrap32(Wrap32(x) - 1) == Wrap32(x - 1)
  {
  }

  /** Two positions less than 256 apart share a slot only when they are equal. */
  lemma SameSlot(base: int, m: int, n: int)
    requires m <= n < m + SLOTS
    ensures Low8(base + m) == Low8(base + n) <==> m == n
  {
  }

  /** The eight-bit full test decides whether 255 entries are outstanding, whatever
      the counters started from and however often they have wrapped. */
  lemma FullTestMeans(base: int, r: int, w: int)
    requires r <= w <= r + CAPACITY
    ensures FullTest(Wrap32(base + w), Wrap32(base + r)) <==> w - r == CAPACITY
  {
    Low8OfWrap(base + w);
    WrapStep(base + r);
    Low8OfWrap(base + r - 1);
    if w - r == CAPACITY {
      Low8Shift(base + r - 1, 1);
    } else {
      SameSlot(base, r - 1, w);
    }
  }

  /** The eight-bit empty test in pop and the 32-bit one in empty agree, and both
      say that the cursor has caught up with the writer. */
  lemma EmptyTestMeans(base: int, c: int, w: int)
    requires c <= w <= c + CAPACITY
    ensures EmptyTest8(Wrap32(base + c), Wrap32(base + w)) <==> c == w
    ensures Wrap32(base + c) == Wrap32(base + w) <==> c == w
  {
    Low8OfWrap(base + c);
    Low8OfWrap(base + w);
    SameSlot(base, c, w);
  }
}
