/** Machine-word arithmetic of `usize` on a 64-bit target, stated over `nat`. */
module Usize {

  /** Number of distinct `usize` values, 2^64. */
  const WordSize: nat := 0x1_0000_0000_0000_0000

  /** `isize::MAX`: `core::alloc::Layout` keeps a size rounded up to its alignment at or below it. */
  const IsizeMax: nat := 0x7fff_ffff_ffff_ffff

  /** `a - b` on `usize` in a build without overflow checks: the difference taken modulo 2^64. */
  function WrappingSub(a: nat, b: nat): (r: nat)
    ensures r < WordSize
    ensures b <= a < b + WordSize ==> r == a - b
    ensures a < WordSize && b < WordSize ==> (r + b) % WordSize == a
    ensures a < WordSize && b < WordSize ==> (r == 0 <==> a == b)
  {
    (a - b) % WordSize
  }

  predicate IsPowerOfTwo(a: nat)
    decreases a
  {
    a == 1 || (a >= 2 && a % 2 == 0 && IsPowerOfTwo(a / 2))
  }

  /** Rounds `pos` up to the next multiple of `align`: the arithmetic reading of `(pos + align - 1) & !(align - 1)`. */
  function AlignUp(pos: nat, align: nat): (r: nat)
    requires align > 0
    ensures r % align == 0
    ensures pos <= r < pos + align
  {
    var q := (pos + align - 1) / align;
    MultipleHasNoRemainder(q, align);
    q * align
  }

  /** Bitwise `x & y` on naturals, taken one bit at a time from the low end. */
  function BitAnd(x: nat, y: nat): (r: nat)
    ensures r <= x && r <= y
    decreases x
  {
    if x == 0 || y == 0 then 0
    else 2 * BitAnd(x / 2, y / 2) + (if x % 2 == 1 && y % 2 == 1 then 1 else 0)
  }

  /** Bitwise `!x` on a 64-bit word. */
  function BitNot(x: nat): (r: nat)
    requires x < WordSize
    ensures r < WordSize && r + x == WordSize - 1
  {
    WordSize - 1 - x
  }

  /**
   * For a power-of-two alignment, the source's mask expression
   * `(pos + align - 1) & !(align - 1)` computes AlignUp(pos, align),
   * as long as `pos + align - 1` itself fits in a word.
   */
  lemma MaskRoundsUp(pos: nat, align: nat)
    requires IsPowerOfTwo(align) && pos + align - 1 < WordSize
    ensures BitAnd(pos + align - 1, BitNot(align - 1)) == AlignUp(pos, align)
  {
    WordSizeIsPowerOfTwo();
    ClearLowBits(pos + align - 1, WordSize, align);
  }

  /** Masking with `m - a` (the bits of a word of size `m` from the bit of `a` upwards) rounds down to a multiple of `a`. */
  lemma {:induction false} ClearLowBits(x: nat, m: nat, a: nat)
    requires IsPowerOfTwo(m) && IsPowerOfTwo(a) && a <= m && x < m
    ensures BitAnd(x, m - a) == (x / a) * a
    decreases m
  {
    if x == 0 {
    } else if a == m {
      BelowDivisor(x, a);
    } else if a == 1 {
      AllOnes(x, m);
    } else {
      HalvesOfPowersOfTwo(a, m);
      ClearLowBits(x / 2, m / 2, a / 2);
      EvenMaskHalves(x, m - a);
      HalvingQuotient(x, a);
    }
  }

  /** Both powers of two are even, so halving keeps them powers of two and their difference halves too. */
  lemma HalvesOfPowersOfTwo(a: nat, m: nat)
    requires IsPowerOfTwo(a) && IsPowerOfTwo(m) && 1 < a < m
    ensures IsPowerOfTwo(a / 2) && IsPowerOfTwo(m / 2) && a / 2 < m / 2
    ensures (m - a) % 2 == 0 && (m - a) / 2 == m / 2 - a / 2
  {
  }

  lemma BelowDivisor(x: nat, a: nat)
    requires x < a
    ensures (x / a) * a == 0
  {
    DivisionUnique(x, a, 0, x);
  }

  /** Masking with an even `y` is masking the halves and shifting back. */
  lemma EvenMaskHalves(x: nat, y: nat)
    requires y % 2 == 0
    ensures BitAnd(x, y) == 2 * BitAnd(x / 2, y / 2)
  {
  }

  /** Masking with `m - 1` keeps every value below `m`. */
  lemma {:induction false} AllOnes(x: nat, m: nat)
    requires IsPowerOfTwo(m) && x < m
    ensures BitAnd(x, m - 1) == x
    decreases m
  {
    if x == 0 {
    } else {
      assert m >= 2;
      AllOnes(x / 2, m / 2);
      assert (m - 1) / 2 == m / 2 - 1 && (m - 1) % 2 == 1;
    }
  }

  /** Dividing by an even `a` is halving, then dividing by `a / 2`. */
  lemma HalvingQuotient(x: nat, a: nat)
    requires a >= 2 && a % 2 == 0
    ensures 2 * ((x / 2) / (a / 2) * (a / 2)) == (x / a) * a
  {
    var h := a / 2;
    var t := (x / 2) / h;
    var rest := (x / 2) % h;
    assert x / 2 == h * t + rest;
    assert x == a * t + (2 * rest + x % 2);
    DivisionUnique(x, a, t, 2 * rest + x % 2);
    assert 2 * (t * h) == t * a;
  }

  lemma DivisionUnique(x: nat, d: nat, q: nat, r: nat)
    requires d > 0 && x == d * q + r && r < d
    ensures x / d == q
  {
    var q' := x / d;
    assert d * q' + x % d == d * q + r;
    if q' < q {
      MultiplyMonotone(d, q' + 1, q);
    } else if q' > q {
      MultiplyMonotone(d, q + 1, q');
    }
  }

  lemma MultiplyMonotone(d: nat, a: nat, b: nat)
    requires a <= b
    ensures d * a <= d * b
  {
  }

  lemma MultipleHasNoRemainder(q: nat, d: nat)
    requires d > 0
    ensures (q * d) % d == 0
  {
    DivisionUnique(q * d, d, q, 0);
  }

  /** 2^64 is a power of two, built up by squaring. */
  lemma WordSizeIsPowerOfTwo()
    ensures IsPowerOfTwo(WordSize)
  {
    assert IsPowerOfTwo(2);
    ProductOfPowersOfTwo(2, 2);
    ProductOfPowersOfTwo(4, 4);
    ProductOfPowersOfTwo(0x10, 0x10);
    ProductOfPowersOfTwo(0x100, 0x100);
    ProductOfPowersOfTwo(0x1_0000, 0x1_0000);
    ProductOfPowersOfTwo(0x1_0000_0000, 0x1_0000_0000);
  }

  lemma {:induction false} ProductOfPowersOfTwo(a: nat, b: nat)
    requires IsPowerOfTwo(a) && IsPowerOfTwo(b)
    ensures IsPowerOfTwo(a * b)
    decreases a
  {
    if a != 1 {
      ProductOfPowersOfTwo(a / 2, b);
      var c := (a / 2) * b;
      assert a * b == 2 * c;
      DoubleIsPowerOfTwo(c);
    }
  }

  lemma DoubleIsPowerOfTwo(c: nat)
    requires IsPowerOfTwo(c)
    ensures IsPowerOfTwo(2 * c)
  {
    assert (2 * c) / 2 == c;
  }
}
