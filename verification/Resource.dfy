/** align_size of the resource header, on machine words of any width. */
module Resource {

  function Pow2(k: nat): (r: nat)
    ensures r > 0
  {
    if k == 0 then 1 else 2 * Pow2(k - 1)
  }

  /** Bitwise and of two naturals. */
  function BitAnd(x: nat, y: nat): nat {
    if x == 0 || y == 0 then 0
    else 2 * BitAnd(x / 2, y / 2) + (x % 2) * (y % 2)
  }

  /** align_size on words of the given width: the sum wraps and the mask is the
      complement of align - 1. */
  function AlignSize(width: nat, size: nat, align: nat): nat
    requires 0 < align <= Pow2(width)
  {
    var mask := Pow2(width) - 1 - (align - 1);
    BitAnd((size + align - 1) % Pow2(width), mask)
  }

  /** Masking with all but the k low bits clears those bits and keeps the rest. */
  lemma {:induction false} MaskClears(width: nat, k: nat, x: nat)
    requires k <= width && x < Pow2(width)
    ensures Pow2(k) <= Pow2(width)
    ensures BitAnd(x, Pow2(width) - Pow2(k)) == x - x % Pow2(k)
    decreases width
  {
    if width == 0 {
    } else {
      var mask := if k == 0 then Pow2(width - 1) - 1 else Pow2(width - 1) - Pow2(k - 1);
      MaskClears(width - 1, if k == 0 then 0 else k - 1, x / 2);
      AndHalves(x, mask, if k == 0 then 1 else 0);
      if k > 0 {
        LowBits(x, k);
      }
    }
  }

  /** The and of a number with one given by its halves. */
  lemma AndHalves(x: nat, half: nat, bit: nat)
    requires bit < 2
    ensures BitAnd(x, 2 * half + bit) == 2 * BitAnd(x / 2, half) + (x % 2) * bit
  {
    var y := 2 * half + bit;
    assert y / 2 == half && y % 2 == bit;
  }

  lemma LowBits(x: nat, k: nat)
    requires 0 < k
    ensures x % Pow2(k) == 2 * ((x / 2) % Pow2(k - 1)) + x % 2
  {
    var p := Pow2(k - 1);
    var h := x / 2;
    var q := h / p;
    assert h == q * p + h % p;
    assert x == q * (2 * p) + (2 * (h % p) + x % 2);
    assert 2 * (h % p) + x % 2 < 2 * p;
    DivModUnique(x, 2 * p, q, 2 * (h % p) + x % 2);
  }

  lemma DivModUnique(x: nat, d: nat, q: nat, r: nat)
    requires x == q * d + r && r < d
    ensures x % d == r && x / d == q
  {
    var e := x / d - q;
    assert x == (x / d) * d + x % d;
    assert e * d == r - x % d;
    MulBound(e, d);
  }

  lemma MulBound(e: int, d: nat)
    ensures e >= 1 ==> e * d >= d
    ensures e <= -1 ==> e * d + d <= 0
  {
  }

  lemma RoundDown(x: nat, d: nat)
    requires 0 < d
    ensures (x - x % d) % d == 0 && x - d < x - x % d <= x
  {
    assert x == (x / d) * d + x % d;
    DivModUnique(x - x % d, d, x / d, 0);
  }

  lemma {:induction false} Pow2Mono(j: nat, k: nat)
    requires j <= k
    ensures Pow2(j) <= Pow2(k)
  {
    if j < k {
      Pow2Mono(j, k - 1);
    }
  }

  /** For a power of two, align_size is the least multiple at or above the size, as long
      as the addition does not wrap. */
  lemma AlignSizeRoundsUp(width: nat, size: nat, k: nat)
    requires k <= width && size + Pow2(k) <= Pow2(width)
    ensures Pow2(k) <= Pow2(width)
    ensures var r := AlignSize(width, size, Pow2(k));
      r % Pow2(k) == 0 && size <= r < size + Pow2(k)
  {
    var x := size + Pow2(k) - 1;
    MaskClears(width, k, x);
    RoundDown(x, Pow2(k));
    ModSmall(x, Pow2(width));
  }

  lemma ModSmall(x: nat, d: nat)
    requires x < d
    ensures x % d == x
  {
  }

  /** The rounded size covers the request exactly when the addition does not wrap; when
      it does wrap, the result is zero. */
  lemma AlignSizeCovers(width: nat, size: nat, k: nat)
    requires k <= width && size < Pow2(width)
    ensures Pow2(k) <= Pow2(width)
    ensures AlignSize(width, size, Pow2(k)) >= size <==> size + Pow2(k) <= Pow2(width)
    ensures size + Pow2(k) > Pow2(width) ==> AlignSize(width, size, Pow2(k)) == 0
  {
    Pow2Mono(k, width);
    if size + Pow2(k) <= Pow2(width) {
      AlignSizeRoundsUp(width, size, k);
    } else {
      var x := size + Pow2(k) - 1 - Pow2(width);
      DivModUnique(size + Pow2(k) - 1, Pow2(width), 1, x);
      MaskClears(width, k, x);
      ModSmall(x, Pow2(k));
    }
  }
}
