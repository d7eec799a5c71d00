/** Machine words as bounded natural numbers, and the bit operators the allocators apply to them.
    The operators are given by their arithmetic; the lemmas say what each does to every bit. */
module Words {

  function Pow2(n: nat): (r: nat)
    ensures 1 <= r
  {
    if n == 0 then 1 else 2 * Pow2(n - 1)
  }

  /** Bit `i` of `w`, counting from the least significant. */
  predicate Bit(w: nat, i: nat) {
    if i == 0 then w % 2 == 1 else Bit(w / 2, i - 1)
  }

  function Shr(w: nat, k: nat): nat {
    if k == 0 then w else Shr(w / 2, k - 1)
  }

  /** Left shift of a `width`-bit word: bits pushed past the width are lost. */
  function Shl(width: nat, w: nat, k: nat): nat
    decreases k
  {
    if k == 0 then w else Shl(width, (2 * w) % Pow2(width), k - 1)
  }

  function And(a: nat, b: nat): nat
    decreases a
  {
    if a == 0 then 0 else (if a % 2 == 1 && b % 2 == 1 then 1 else 0) + 2 * And(a / 2, b / 2)
  }

  function Or(a: nat, b: nat): nat
    decreases a + b
  {
    if a + b == 0 then 0 else (if a % 2 == 1 || b % 2 == 1 then 1 else 0) + 2 * Or(a / 2, b / 2)
  }

  function Not(width: nat, w: nat): nat
    requires w < Pow2(width)
  {
    Pow2(width) - 1 - w
  }

  function CountTrailingZeros(w: nat): nat
    requires w != 0
  {
    if w % 2 == 1 then 0 else 1 + CountTrailingZeros(w / 2)
  }

  lemma {:induction false} ZeroHasNoBits(i: nat)
    ensures !Bit(0, i)
  {
    if i > 0 { ZeroHasNoBits(i - 1); }
  }

  lemma {:induction false} BitsBelow(width: nat, w: nat, i: nat)
    requires w < Pow2(width) && width <= i
    ensures !Bit(w, i)
  {
    if width == 0 { ZeroHasNoBits(i); } else { BitsBelow(width - 1, w / 2, i - 1); }
  }

  lemma {:induction false} BitOfShr(w: nat, k: nat, i: nat)
    ensures Bit(Shr(w, k), i) == Bit(w, k + i)
  {
    if k > 0 { BitOfShr(w / 2, k - 1, i); }
  }

  lemma {:induction false} ShrBound(w: nat, k: nat)
    ensures Shr(w, k) <= w
  {
    if k > 0 { ShrBound(w / 2, k - 1); }
  }

  lemma {:induction false} BitOfAnd(a: nat, b: nat, i: nat)
    ensures Bit(And(a, b), i) == (Bit(a, i) && Bit(b, i))
  {
    if a == 0 {
      ZeroHasNoBits(i);
    } else if i > 0 {
      BitOfAnd(a / 2, b / 2, i - 1);
    }
  }

  lemma {:induction false} BitOfOr(a: nat, b: nat, i: nat)
    ensures Bit(Or(a, b), i) == (Bit(a, i) || Bit(b, i))
    decreases i
  {
    if a + b == 0 {
      ZeroHasNoBits(i);
    } else if i > 0 {
      BitOfOr(a / 2, b / 2, i - 1);
    }
  }

  lemma {:induction false} BitOfNot(width: nat, w: nat, i: nat)
    requires w < Pow2(width) && i < width
    ensures Bit(Not(width, w), i) == !Bit(w, i)
  {
    assert Not(width, w) / 2 == Not(width - 1, w / 2);
    if i > 0 { BitOfNot(width - 1, w / 2, i - 1); }
  }

  /** `2^n - 1` is the mask of the lowest `n` bits. */
  lemma {:induction false} BitOfMask(n: nat, i: nat)
    ensures Bit(Pow2(n) - 1, i) == (i < n)
  {
    if n == 0 {
      ZeroHasNoBits(i);
    } else if i > 0 {
      assert (Pow2(n) - 1) / 2 == Pow2(n - 1) - 1;
      BitOfMask(n - 1, i - 1);
    }
  }

  lemma {:induction false} AndBound(a: nat, b: nat)
    ensures And(a, b) <= a && And(a, b) <= b
    decreases a
  {
    if a != 0 { AndBound(a / 2, b / 2); }
  }

  lemma {:induction false} OrBound(width: nat, a: nat, b: nat)
    requires a < Pow2(width) && b < Pow2(width)
    ensures Or(a, b) < Pow2(width)
  {
    if a + b != 0 { OrBound(width - 1, a / 2, b / 2); }
  }

  lemma HalfOfMod(x: nat, p: nat)
    requires p > 0
    ensures (x % (2 * p)) % 2 == x % 2
    ensures (x % (2 * p)) / 2 == (x / 2) % p
  {
    var q, r := x / (2 * p), x % (2 * p);
    assert x == 2 * (p * q) + r by { assert (2 * p) * q == 2 * (p * q); }
    assert x / 2 == p * q + r / 2;
    ModUnique(x / 2, p, q, r / 2);
  }

  lemma ModUnique(x: int, p: int, q: int, r: int)
    requires x == p * q + r && 0 <= r < p
    ensures x % p == r && x / p == q
  {
    var q', r' := x / p, x % p;
    assert x == p * q' + r';
    if q < q' { MulGap(p, q, q'); } else if q' < q { MulGap(p, q', q); }
  }

  lemma {:induction false} MulGap(p: int, a: int, b: int)
    requires 0 < p && a < b
    ensures p * a + p <= p * b
    decreases b - a
  {
    if a + 1 < b { MulGap(p, a, b - 1); }
    assert p * b == p * (b - 1) + p;
  }

  lemma MulGrows(a: nat, b: nat, c: nat)
    requires a <= b
    ensures a * c <= b * c
  {
    if a < b && 0 < c { MulGap(c, a, b); }
  }

  /** A multiple of `p` is `p` times its quotient. */
  lemma MultipleIsProduct(x: int, p: int)
    requires 0 < p && x % p == 0
    ensures x == p * (x / p)
  {
  }

  lemma ModOfOffset(base: int, p: int, r: int)
    requires 0 <= r < p && base % p == 0
    ensures (base + r) % p == r
  {
    MultipleIsProduct(base, p);
    ModUnique(base + r, p, base / p, r);
  }

  lemma SmallMod(x: int, m: int)
    requires 0 <= x < m
    ensures x % m == x
  {
    ModUnique(x, m, 0, x);
  }

  lemma {:induction false} BitOfMod(width: nat, x: nat, i: nat)
    requires i < width
    ensures Bit(x % Pow2(width), i) == Bit(x, i)
  {
    HalfOfMod(x, Pow2(width - 1));
    if i > 0 { BitOfMod(width - 1, x / 2, i - 1); }
  }

  lemma {:induction false} BitOfShl(width: nat, w: nat, k: nat, i: nat)
    requires i < width
    ensures Bit(Shl(width, w, k), i) == (k <= i && Bit(w, i - k))
    decreases k
  {
    if k > 0 {
      var d := (2 * w) % Pow2(width);
      BitOfShl(width, d, k - 1, i);
      if k - 1 <= i {
        BitOfMod(width, 2 * w, i - (k - 1));
        assert (2 * w) / 2 == w && (2 * w) % 2 == 0;
      }
    }
  }

  lemma {:induction false} ShlBound(width: nat, w: nat, k: nat)
    requires w < Pow2(width)
    ensures Shl(width, w, k) < Pow2(width)
    decreases k
  {
    if k > 0 { ShlBound(width, (2 * w) % Pow2(width), k - 1); }
  }

  lemma {:induction false} Pow2Monotone(a: nat, b: nat)
    requires a <= b
    ensures Pow2(a) <= Pow2(b)
  {
    if a < b { Pow2Monotone(a, b - 1); }
  }

  lemma {:induction false} Pow2Sum(a: nat, b: nat)
    ensures Pow2(a + b) == Pow2(a) * Pow2(b)
  {
    if a > 0 { Pow2Sum(a - 1, b); }
  }

  /** `((Word) 1 << n) - 1`, as the bit functions build their masks. */
  lemma {:induction false} ShlOfPow2(width: nat, j: nat, n: nat)
    requires j + n < width
    ensures Shl(width, Pow2(j), n) == Pow2(j + n)
    decreases n
  {
    if n > 0 {
      Pow2Monotone(j + 1, width - 1);
      ShlOfPow2(width, j + 1, n - 1);
      SmallMod(Pow2(j + 1), Pow2(width));
    }
  }

  /** The trailing-zero count is the position of the lowest set bit. */
  lemma {:induction false} TrailingZeros(width: nat, w: nat)
    requires 0 < w < Pow2(width)
    ensures CountTrailingZeros(w) < width && Bit(w, CountTrailingZeros(w))
    ensures forall i | 0 <= i < CountTrailingZeros(w) :: !Bit(w, i)
  {
    if w % 2 == 0 {
      TrailingZeros(width - 1, w / 2);
      forall i | 0 <= i < CountTrailingZeros(w) ensures !Bit(w, i) {
        if i > 0 { assert !Bit(w / 2, i - 1); }
      }
    }
  }

  /** Masking with `2^k - 1` takes the remainder modulo `2^k`. */
  lemma {:induction false} AndMaskIsMod(x: nat, k: nat)
    ensures And(x, Pow2(k) - 1) == x % Pow2(k)
    decreases k
  {
    if k == 0 {
      AndBound(x, 0);
    } else if x != 0 {
      var p := Pow2(k - 1);
      assert (Pow2(k) - 1) / 2 == p - 1 && (Pow2(k) - 1) % 2 == 1;
      AndMaskIsMod(x / 2, k - 1);
      HalfOfMod(x, p);
    }
  }

  /** Masking with a complement removes exactly the masked bits. */
  lemma {:induction false} AndNotIsMinus(width: nat, x: nat, m: nat)
    requires x < Pow2(width) && m < Pow2(width)
    ensures And(x, Not(width, m)) == x - And(x, m)
  {
    if x != 0 {
      assert Not(width, m) / 2 == Not(width - 1, m / 2);
      AndNotIsMinus(width - 1, x / 2, m / 2);
    }
  }

  lemma {:induction false} AndSelf(x: nat)
    ensures And(x, x) == x
  {
    if x != 0 { AndSelf(x / 2); }
  }

  lemma OddHasMore(v: nat)
    requires 1 < v && v % 2 == 1
    ensures And(v, v - 1) > 0
  {
    AndSelf(v / 2);
    assert (v - 1) / 2 == v / 2;
  }

  lemma {:induction false} OneBitIsPower(v: nat) returns (k: nat)
    requires 0 < v && And(v, v - 1) == 0
    ensures v == Pow2(k)
  {
    assert v == 1 || v % 2 == 0 by {
      if v != 1 && v % 2 == 1 { OddHasMore(v); }
    }
    if v == 1 {
      k := 0;
    } else {
      assert (v - 1) / 2 == v / 2 - 1;
      k := OneBitIsPower(v / 2);
      k := k + 1;
    }
  }

  /** `v && !(v & (v - 1))` holds exactly for the powers of two. */
  lemma IsPowerOfTwo(v: nat)
    requires 0 < v
    ensures And(v, v - 1) == 0 <==> exists k: nat :: v == Pow2(k)
  {
    if And(v, v - 1) == 0 { var k := OneBitIsPower(v); }
    hide Pow2, And;
    if k: nat :| v == Pow2(k) {
      AndMaskIsMod(v, k);
      ModUnique(v, v, 1, 0);
    }
  }
}
