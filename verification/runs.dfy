/** Page bitmaps as plain sequences of booleans: runs, the first fit and the longest free block.
    This is the bit-by-bit counterpart that the word-at-a-time code is proved against. */
module Runs {

  type Bits = seq<bool>

  /** Bits `[from, from+n)` exist and all equal `value`. */
  ghost predicate Run(bits: Bits, value: bool, from: nat, n: nat) {
    from + n <= |bits| && forall i | from <= i < from + n :: bits[i] == value
  }

  ghost predicate Free(bits: Bits, from: nat, n: nat) {
    Run(bits, false, from, n)
  }

  /** Sets exactly the bits of `[from, from+n)` to `value`. */
  ghost function Fill(bits: Bits, value: bool, from: nat, n: nat): (r: Bits)
    requires from + n <= |bits|
    ensures |r| == |bits|
    ensures forall i | 0 <= i < |bits| :: r[i] == if from <= i < from + n then value else bits[i]
  {
    bits[..from] + seq(n, _ => value) + bits[from + n..]
  }

  /** Clearing what was just set restores the bitmap when the interval was clear before. */
  lemma FillThenUndo(bits: Bits, value: bool, from: nat, n: nat)
    requires Run(bits, !value, from, n)
    ensures Fill(Fill(bits, value, from, n), !value, from, n) == bits
  {
  }

  /** The lowest offset from `from` on that starts `n` free units; 0 when there is none. */
  ghost function FirstFit(bits: Bits, from: nat, n: nat): nat
    decreases |bits| - from
  {
    if |bits| <= from then 0
    else if Free(bits, from, n) then from
    else FirstFit(bits, from + 1, n)
  }

  /** First fit is sound, complete and lowest. */
  lemma {:induction false} FirstFitIsLowest(bits: Bits, from: nat, n: nat)
    requires 0 < from
    ensures var r := FirstFit(bits, from, n);
            if r == 0 then forall o: nat | from <= o < |bits| :: !Free(bits, o, n)
            else from <= r < |bits| && Free(bits, r, n) && forall o: nat | from <= o < r :: !Free(bits, o, n)
    decreases |bits| - from
  {
    if from < |bits| && !Free(bits, from, n) { FirstFitIsLowest(bits, from + 1, n); }
  }

  lemma {:induction false} FirstFitSkips(bits: Bits, from: nat, to: nat, n: nat)
    requires from <= to <= |bits|
    requires forall o: nat | from <= o < to :: !Free(bits, o, n)
    ensures FirstFit(bits, from, n) == FirstFit(bits, to, n)
    decreases |bits| - from
  {
    if from < to { FirstFitSkips(bits, from + 1, to, n); }
  }

  /** Between a maximal run of zeros and the end of the ones behind it, no interval longer than what
      is left of the zeros is free. */
  lemma NoFit(bits: Bits, from: nat, zeros: nat, ones: nat, o: nat, n: nat)
    requires Run(bits, true, from + zeros, ones)
    requires from + zeros < |bits| ==> bits[from + zeros]
    requires from <= o < from + zeros + ones && from + zeros < o + n && 0 < n
    ensures !Free(bits, o, n)
  {
    var k := if o < from + zeros then from + zeros else o;
    assert o <= k < o + n && (k < |bits| ==> bits[k]);
  }

  ghost predicate HasFree(bits: Bits, from: nat, n: nat) {
    exists o: nat :: from <= o && Free(bits, o, n)
  }

  /** The length of the longest free interval that starts at `from` or later. */
  ghost function LongestFree(bits: Bits, from: nat): nat {
    if |bits| <= from then 0 else LongestUpTo(bits, from, |bits| - from)
  }

  ghost function LongestUpTo(bits: Bits, from: nat, n: nat): nat {
    if n == 0 || HasFree(bits, from, n) then n else LongestUpTo(bits, from, n - 1)
  }

  lemma {:induction false} LongestUpToIsMax(bits: Bits, from: nat, n: nat)
    requires from <= |bits|
    ensures LongestUpTo(bits, from, n) <= n
    ensures HasFree(bits, from, LongestUpTo(bits, from, n))
    ensures forall m: nat | m <= n && HasFree(bits, from, m) :: m <= LongestUpTo(bits, from, n)
  {
    if n == 0 {
      assert Free(bits, from, 0);
    } else if !HasFree(bits, from, n) {
      LongestUpToIsMax(bits, from, n - 1);
    }
  }

  /** An interval of `n` free units exists exactly when the longest free block has `n` or more. */
  lemma HasFreeIffLongest(bits: Bits, from: nat, n: nat)
    requires from <= |bits|
    ensures HasFree(bits, from, n) <==> n <= LongestFree(bits, from)
    ensures LongestFree(bits, from) <= |bits| - from
  {
    LongestUpToIsMax(bits, from, |bits| - from);
    var k := LongestFree(bits, from);
    if n <= k {
      var o: nat :| from <= o && Free(bits, o, k);
      assert Free(bits, o, n);
    }
  }

  /** The characterisation the scanning loop establishes. */
  lemma LongestIsUnique(bits: Bits, from: nat, k: nat)
    requires from <= |bits|
    requires HasFree(bits, from, k) && forall m: nat | HasFree(bits, from, m) :: m <= k
    ensures LongestFree(bits, from) == k
  {
    HasFreeIffLongest(bits, from, k);
    HasFreeIffLongest(bits, from, LongestFree(bits, from));
  }

  /** First fit succeeds exactly when the longest free block is long enough. */
  lemma FitIffLongest(bits: Bits, from: nat, n: nat)
    requires 0 < from <= |bits| && 0 < n
    ensures FirstFit(bits, from, n) != 0 <==> n <= LongestFree(bits, from)
  {
    FirstFitIsLowest(bits, from, n);
    HasFreeIffLongest(bits, from, n);
    if HasFree(bits, from, n) {
      var o: nat :| from <= o && Free(bits, o, n);
      assert o < |bits|;
    }
  }

  /** The longest free block is the whole data area exactly when no data unit is in use. */
  lemma LongestIsWholeIffFree(bits: Bits, from: nat)
    requires from <= |bits|
    ensures LongestFree(bits, from) == |bits| - from <==> Free(bits, from, |bits| - from)
  {
    HasFreeIffLongest(bits, from, |bits| - from);
    if HasFree(bits, from, |bits| - from) {
      var o: nat :| from <= o && Free(bits, o, |bits| - from);
      assert o == from || |bits| == from;
    }
  }
}
