// 32-bit words, the loader's bit tricks, and alignment.

module Words {

  const LIMIT: int := 0x1_0000_0000

  type Word = x: int | 0 <= x < 0x1_0000_0000
  type Byte = x: int | 0 <= x < 256

  datatype Option<+T> = None | Some(value: T)

  /** The value a 32-bit register or a cast to uint32_t keeps. */
  function Wrap(x: int): Word {
    x % LIMIT
  }

  /** Bitwise AND of two non-negative numbers. */
  function And(a: int, b: int): (r: int)
    ensures r >= 0
    decreases if a > 0 then a else 0
  {
    if a <= 0 || b <= 0 then 0
    else 2 * And(a / 2, b / 2) + (if a % 2 == 1 && b % 2 == 1 then 1 else 0)
  }

  predicate IsPow2(n: int)
    decreases if n > 0 then n else 0
  {
    n == 1 || (n > 1 && n % 2 == 0 && IsPow2(n / 2))
  }

  /** The test the loader makes on every address and size: no bit below `align` is set. */
  predicate Aligned(x: int, align: int) {
    And(x, align - 1) == 0
  }

  /** `x & ~(align - 1)`: what is left of x without the bits And finds. */
  function MaskLow(x: int, align: int): int {
    x - And(x, align - 1)
  }

  /** `(x + align - 1) & ~(align - 1)`. */
  function AlignUp(x: int, align: int): int {
    MaskLow(x + align - 1, align)
  }

  /** `n & (n - 1)` is zero exactly for the powers of two. */
  lemma {:induction false} PowerOfTwoTest(n: int)
    requires n > 0
    ensures And(n, n - 1) == 0 <==> IsPow2(n)
    decreases n
  {
    if n <= 1 {
    } else {
      if n % 2 == 0 {
        assert (n - 1) / 2 == n / 2 - 1;
        PowerOfTwoTest(n / 2);
      } else {
        assert n / 2 == (n - 1) / 2 && n / 2 > 0;
        AndSelf(n / 2);
      }
    }
  }

  lemma {:induction false} AndSelf(a: int)
    requires a >= 0
    ensures And(a, a) == a
    decreases a
  {
    if a == 0 {
    } else {
      AndSelf(a / 2);
    }
  }

  /** Masking with a power of two less one is the remainder. */
  lemma {:induction false} AndIsRemainder(x: int, align: int)
    requires x >= 0 && IsPow2(align)
    ensures align > 0 && And(x, align - 1) == x % align
  {
    var q := AndDecomposes(x, align);
    hide And;
    DivideUnique(x, align, q, And(x, align - 1));
  }

  lemma {:induction false} AndDecomposes(x: int, align: int) returns (q: int)
    requires x >= 0 && IsPow2(align)
    ensures q >= 0 && x == q * align + And(x, align - 1) && And(x, align - 1) < align
    decreases align
  {
    if align == 1 {
      q := x;
    } else {
      var h := align / 2;
      q := AndDecomposes(x / 2, h);
      AndStep(x, h);
      DoubleProduct(q, h);
    }
  }

  /** One bit of a mask of the form 2h - 1. */
  lemma AndStep(x: int, h: int)
    requires x >= 0 && h >= 1
    ensures And(x, 2 * h - 1) == 2 * And(x / 2, h - 1) + x % 2
  {
    assert (2 * h - 1) / 2 == h - 1 && (2 * h - 1) % 2 == 1;
  }

  lemma DoubleProduct(q: int, h: int)
    ensures q * (2 * h) == 2 * (q * h)
  {}

  lemma ProductGap(a: int, b: int, d: int)
    requires a < b && d > 0
    ensures a * d + d <= b * d
  {
    assert (a + 1) * d <= b * d;
    assert (a + 1) * d == a * d + d;
  }

  lemma DivideUnique(x: int, d: int, q: int, r: int)
    requires 0 <= r < d && x == q * d + r
    ensures x % d == r && x / d == q
  {
    var q' := x / d;
    DivisionEquation(x, d);
    if q' > q {
      ProductGap(q, q', d);
    } else if q' < q {
      ProductGap(q', q, d);
    }
  }

  lemma DivisionEquation(x: int, d: int)
    requires d > 0
    ensures x == (x / d) * d + x % d && 0 <= x % d < d
  {}

  // Alignment is closed under sums and passes to smaller powers of two.

  lemma AlignedHalf(x: int, align: int)
    requires x >= 0 && IsPow2(align) && align > 1
    ensures Aligned(x, align) <==> x % 2 == 0 && Aligned(x / 2, align / 2)
  {
    AndStep(x, align / 2);
    hide And;
  }

  lemma {:induction false} AlignedSum(x: int, y: int, align: int)
    requires x >= 0 && y >= 0 && IsPow2(align) && Aligned(x, align)
    ensures Aligned(x + y, align) <==> Aligned(y, align)
    decreases align
  {
    if align == 1 {
    } else {
      hide Aligned;
      AlignedHalf(x, align);
      AlignedHalf(y, align);
      AlignedHalf(x + y, align);
      assert y % 2 == 0 ==> (x + y) / 2 == x / 2 + y / 2;
      AlignedSum(x / 2, y / 2, align / 2);
    }
  }

  lemma {:induction false} AlignedWeaken(x: int, small: int, big: int)
    requires x >= 0 && IsPow2(small) && IsPow2(big) && small <= big && Aligned(x, big)
    ensures Aligned(x, small)
    decreases big
  {
    if small == 1 {
    } else {
      hide Aligned;
      AlignedHalf(x, big);
      AlignedHalf(x, small);
      AlignedWeaken(x / 2, small / 2, big / 2);
    }
  }

  lemma FourAligned(x: int)
    requires x >= 0
    ensures Aligned(x, 4) <==> x % 4 == 0
  {
    assert IsPow2(1) && IsPow2(2);
    AlignedHalf(x, 4);
    AlignedHalf(x / 2, 2);
  }

  lemma AlignedFour(x: int, align: int)
    requires x >= 0 && IsPow2(align) && align >= 4 && Aligned(x, align)
    ensures x % 4 == 0
  {
    assert IsPow2(4) by { assert IsPow2(2) && IsPow2(1); }
    hide And, IsPow2;
    AlignedWeaken(x, 4, align);
    FourAligned(x);
  }

  lemma {:induction false} AlignedSmall(x: int, align: int)
    requires IsPow2(align) && Aligned(x, align) && 0 <= x < align
    ensures x == 0
    decreases align
  {
    if align == 1 {
    } else {
      hide Aligned;
      AlignedHalf(x, align);
      AlignedSmall(x / 2, align / 2);
    }
  }

  lemma {:induction false} MaskLowAligned(x: int, align: int)
    requires x >= 0 && IsPow2(align)
    ensures Aligned(MaskLow(x, align), align)
    ensures 0 <= MaskLow(x, align) && x - align < MaskLow(x, align) <= x
    decreases align
  {
    if align == 1 {
    } else {
      var h := align / 2;
      AndStep(x, h);
      hide And, Aligned;
      MaskLowAligned(x / 2, h);
      assert MaskLow(x, align) == 2 * MaskLow(x / 2, h);
      AlignedHalf(MaskLow(x, align), align);
    }
  }

  /** Rounding up gives the least aligned value that is not smaller. */
  lemma AlignUpLeast(x: int, align: int)
    requires x >= 0 && IsPow2(align)
    ensures x <= AlignUp(x, align) < x + align
    ensures Aligned(AlignUp(x, align), align)
    ensures forall y :: x <= y && Aligned(y, align) ==> AlignUp(x, align) <= y
  {
    assert align > 0;
    hide And, Aligned, IsPow2;
    MaskLowAligned(x + align - 1, align);
    var r := AlignUp(x, align);
    forall y | x <= y && Aligned(y, align)
      ensures r <= y
    {
      if y < r {
        AlignedSum(y, r - y, align);
        AlignedSmall(r - y, align);
      }
    }
  }

  /** An aligned value is left alone. */
  lemma AlignUpIdentity(x: int, align: int)
    requires x >= 0 && IsPow2(align) && Aligned(x, align)
    ensures AlignUp(x, align) == x
  {
    hide And, Aligned, AlignUp, IsPow2;
    AlignUpLeast(x, align);
  }

  lemma FourIsPow2()
    ensures IsPow2(4)
  {
    assert IsPow2(2) && IsPow2(1);
  }
}
