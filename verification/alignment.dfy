/** The alignment helpers of `allocator.h`: `width`-bit unsigned arithmetic with masks
    (32 bits for `unsigned`, the width of `ptrdiff_t` for pointers). */
module Alignment {
  import opened Words

  /** Unsigned addition and subtraction wrap around. */
  function Wrap(width: nat, n: int): (r: nat)
    ensures 0 <= n < Pow2(width) ==> r == n
    ensures r < Pow2(width)
  {
    if 0 <= n < Pow2(width) then n else n % Pow2(width)
  }

  /** The header asks for a power of two; the fixed-size-block arena passes any block size. */
  function AlignUnsigned(width: nat, n: nat, alignment: nat): nat
    requires n < Pow2(width) && alignment < Pow2(width)
  {
    if alignment > 1 then
      And(Wrap(width, n + (alignment - 1)), Not(width, alignment - 1))
    else n
  }

  /** `addr & ~(page_size - 1)`, the mask that finds the page of an address. */
  function MaskDown(width: nat, addr: nat, pageSize: nat): nat
    requires 0 < pageSize <= Pow2(width)
  {
    And(addr, Not(width, pageSize - 1))
  }

  /** As long as the sum does not wrap, aligning never goes down and never up by a whole alignment,
      power of two or not. */
  lemma AlignInRange(width: nat, n: nat, alignment: nat)
    requires n + alignment <= Pow2(width) && alignment < Pow2(width) && n < Pow2(width)
    ensures n <= AlignUnsigned(width, n, alignment)
    ensures alignment <= 1 ==> AlignUnsigned(width, n, alignment) == n
    ensures alignment > 1 ==> AlignUnsigned(width, n, alignment) < n + alignment
  {
    if alignment > 1 {
      var m := alignment - 1;
      AndNotIsMinus(width, n + m, m);
      AndBound(n + m, m);
    }
  }

  /** The result is a multiple of every power of two that divides the alignment. */
  lemma AlignKeepsPowersOfTwo(width: nat, n: nat, alignment: nat, k: nat)
    requires n < Pow2(width) && 0 < alignment < Pow2(width)
    requires alignment % Pow2(k) == 0
    ensures alignment > 1 || k == 0 ==> AlignUnsigned(width, n, alignment) % Pow2(k) == 0
  {
    if alignment > 1 {
      LowBitsCleared(width, Wrap(width, n + (alignment - 1)), alignment, k);
    }
  }

  lemma {:induction false} LowBitsCleared(width: nat, x: nat, a: nat, k: nat)
    requires 0 < a <= Pow2(width) && a % Pow2(k) == 0
    ensures And(x, Not(width, a - 1)) % Pow2(k) == 0
    decreases k
  {
    if k > 0 {
      HalfOfMod(a, Pow2(k - 1));
      assert a % 2 == 0 && (a / 2) % Pow2(k - 1) == 0;
      assert (a - 1) / 2 == a / 2 - 1;
      assert Not(width, a - 1) / 2 == Not(width - 1, a / 2 - 1);
      LowBitsCleared(width - 1, x / 2, a / 2, k - 1);
      HalfOfMod(And(x, Not(width, a - 1)), Pow2(k - 1));
    }
  }

  /** The least multiple of `p` that is not below `n`. */
  function RoundUp(n: nat, p: nat): (r: nat)
    requires 0 < p
    ensures n <= r < n + p && r % p == 0
  {
    var q, rest := n / p, n % p;
    var r := if rest == 0 then n else n - rest + p;
    assert r % p == 0 by {
      if rest == 0 { ModUnique(n, p, q, 0); } else { ModUnique(r, p, q + 1, 0); }
    }
    r
  }

  lemma RoundUpIsLeast(n: nat, p: nat, m: nat)
    requires 0 < p && m % p == 0 && n <= m
    ensures RoundUp(n, p) <= m
  {
    if m < RoundUp(n, p) { MultiplesApart(m, RoundUp(n, p), p); }
  }

  /** Anything between a size and its rounding rounds to the same. */
  lemma SameRounding(n: nat, k: nat, page: nat)
    requires 0 < page && n <= k <= RoundUp(n, page)
    ensures RoundUp(k, page) == RoundUp(n, page)
  {
    RoundUpIsLeast(k, page, RoundUp(n, page));
    RoundUpIsLeast(n, page, RoundUp(k, page));
  }

  /** For a power of two, and away from the wrap, aligning is rounding up. */
  lemma AlignToPow2(width: nat, n: nat, k: nat)
    requires n + Pow2(k) <= Pow2(width) && Pow2(k) < Pow2(width)
    ensures AlignUnsigned(width, n, Pow2(k)) == RoundUp(n, Pow2(k))
  {
    ModUnique(Pow2(k), Pow2(k), 1, 0);
    AlignInRange(width, n, Pow2(k));
    AlignKeepsPowersOfTwo(width, n, Pow2(k), k);
    var r, u := AlignUnsigned(width, n, Pow2(k)), RoundUp(n, Pow2(k));
    if Pow2(k) == 1 { ModUnique(n, 1, n, 0); }
    RoundUpIsLeast(n, Pow2(k), r);
    if u < r { MultiplesApart(u, r, Pow2(k)); }
  }

  /** Aligning gives a multiple of the alignment for every number if and only if the alignment is a power of two. For
      any other alignment it fails at 1. */
  lemma AlignsAllIff(width: nat, alignment: nat)
    requires 0 < alignment < Pow2(width)
    ensures (forall n: nat | n + alignment <= Pow2(width) :: AlignUnsigned(width, n, alignment) % alignment == 0)
            <==> exists k: nat :: alignment == Pow2(k)
    ensures !(exists k: nat :: alignment == Pow2(k)) ==> AlignUnsigned(width, 1, alignment) % alignment != 0
  {
    hide Words.Pow2, AlignUnsigned, RoundUp;
    if exists k: nat :: alignment == Pow2(k) {
      var k: nat :| alignment == Pow2(k);
      PowerAligns(width, k);
    } else {
      NotAlignedAtOne(width, alignment);
    }
  }

  lemma PowerAligns(width: nat, k: nat)
    requires Pow2(k) < Pow2(width)
    ensures forall n: nat | n + Pow2(k) <= Pow2(width) :: AlignUnsigned(width, n, Pow2(k)) % Pow2(k) == 0
  {
    hide AlignUnsigned, RoundUp;
    forall n: nat | n + Pow2(k) <= Pow2(width) ensures AlignUnsigned(width, n, Pow2(k)) % Pow2(k) == 0 {
      AlignToPow2(width, n, k);
    }
  }

  lemma NotAlignedAtOne(width: nat, alignment: nat)
    requires 0 < alignment < Pow2(width) && !exists k: nat :: alignment == Pow2(k)
    ensures AlignUnsigned(width, 1, alignment) % alignment != 0
  {
    hide Words.Pow2, Words.And;
    IsPowerOfTwo(alignment);
    assert alignment != 1 by { OneIsPower(); }
    AlignInRange(width, 1, alignment);
    AndNotIsMinus(width, alignment, alignment - 1);
    AndBound(alignment, alignment - 1);
    SmallMod(AlignUnsigned(width, 1, alignment), alignment);
  }

  lemma OneIsPower()
    ensures Pow2(0) == 1
  {
  }

  lemma MultiplesApart(a: int, b: int, p: int)
    requires 0 < p && a % p == 0 && b % p == 0 && a < b
    ensures a + p <= b
  {
    var i, j := a / p, b / p;
    assert a == p * i && b == p * j;
    if j <= i {
      if j < i { MulGap(p, j, i); }
    } else {
      MulGap(p, i, j);
    }
  }

  /** Masking an address rounds it down to its page. */
  lemma MaskDownIsPageBase(width: nat, addr: nat, k: nat)
    requires addr < Pow2(width) && Pow2(k) <= Pow2(width)
    ensures MaskDown(width, addr, Pow2(k)) == addr - addr % Pow2(k)
  {
    AndNotIsMinus(width, addr, Pow2(k) - 1);
    AndMaskIsMod(addr, k);
  }

  /** The platform's `unsigned` width and page size. */
  datatype Platform = Platform(uintWidth: nat, pageBits: nat) {
    ghost predicate Valid() { 2 * Pow2(pageBits) <= Pow2(uintWidth) }

    /** `sys_page_size` */
    function PageSize(): (p: nat)
      ensures 0 < p
    {
      Pow2(pageBits)
    }

    /** Rounding `n` up to a page does not wrap. */
    ghost predicate Fits(n: nat) { n + PageSize() <= Pow2(uintWidth) }

    /** `align_unsigned(n, sys_page_size)` */
    function AlignToPage(n: nat): (r: nat)
      requires Valid() && Fits(n)
      ensures r == RoundUp(n, PageSize())
    {
      AlignToPow2(uintWidth, n, pageBits);
      AlignUnsigned(uintWidth, n, Pow2(pageBits))
    }

    /** `n & ~(sys_page_size - 1)` */
    function DownToPage(n: nat): (r: nat)
      requires Valid() && Fits(n)
      ensures r == n - n % PageSize()
    {
      MaskDownIsPageBase(uintWidth, n, pageBits);
      MaskDown(uintWidth, n, Pow2(pageBits))
    }
  }

  /** Rounding down what is free is rounding up what is needed. */
  lemma RoundingMeets(size: nat, needed: nat, p: nat)
    requires 0 < p && size % p == 0 && needed <= size
    ensures size - ((size - needed) - (size - needed) % p) == RoundUp(needed, p)
  {
    var x := size - needed;
    var r := size - (x - x % p);
    assert r % p == 0 by {
      ModUnique(r, p, size / p - x / p, 0);
    }
    var u := RoundUp(needed, p);
    if u < r { MultiplesApart(u, r, p); } else if r < u { MultiplesApart(r, u, p); }
  }

  lemma SumOfMultiples(a: nat, b: nat, m: nat)
    requires 0 < m && a % m == 0 && b % m == 0
    ensures (a + b) % m == 0
  {
    MultipleIsProduct(a, m);
    MultipleIsProduct(b, m);
    ModUnique(a + b, m, a / m + b / m, 0);
  }

  lemma MultipleOfMultiple(a: nat, b: nat, m: nat)
    requires 0 < m && b % m == 0
    ensures (a * b) % m == 0
  {
    var q := b / m;
    MultipleIsProduct(b, m);
    assert a * (m * q) == m * (a * q);
    ModUnique(a * b, m, a * q, 0);
  }

  lemma MultipleOfSmallerPower(large: nat, k: nat, base: nat)
    requires k <= large && base % Pow2(large) == 0
    ensures base % Pow2(k) == 0
  {
    Pow2Sum(large - k, k);
    hide Words.Pow2;
    FactorDivides(base, Pow2(large - k), Pow2(k));
  }

  lemma FactorDivides(x: nat, c: nat, m: nat)
    requires 0 < c && 0 < m && 0 < c * m && x % (c * m) == 0
    ensures x % m == 0
  {
    var q := x / (c * m);
    MultipleIsProduct(x, c * m);
    assert (c * m) * q == m * (c * q);
    ModUnique(x, m, c * q, 0);
  }
}
