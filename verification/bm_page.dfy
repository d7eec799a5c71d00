/** The data page of the bitmap allocator: word-at-a-time bit functions and the run scanners. */
module BmPages {
  import opened Words
  import opened Runs

  const UINT_MAX: nat := 0xFFFF_FFFF

  /** The two word widths that `word.h` supports. */
  type WordWidth = w: nat | w == 32 || w == 64 witness 64

  /** The first unit of word `j`: `width * j`, by repeated addition. */
  function WordStart(width: nat, j: nat): nat {
    if j == 0 then 0 else WordStart(width, j - 1) + width
  }

  lemma {:induction false} WordStartIsProduct(width: nat, j: nat)
    ensures WordStart(width, j) == width * j
  {
    if j > 0 { WordStartIsProduct(width, j - 1); }
  }

  lemma {:induction false} WordsApart(width: nat, i: nat, j: nat)
    requires i < j
    ensures WordStart(width, i) + width <= WordStart(width, j)
  {
    if i + 1 < j { WordsApart(width, i, j - 1); }
  }

  /** A word boundary below the end of the bitmap leaves room for a whole word. */
  lemma WordBoundary(width: nat, j: nat, n: nat)
    requires 0 < width && WordStart(width, j) < WordStart(width, n)
    ensures j < n && WordStart(width, j) + width <= WordStart(width, n)
    ensures WordStart(width, j + 1) == WordStart(width, j) + width
  {
    if n < j { WordsApart(width, n, j); } else if j < n { WordsApart(width, j, n); }
  }

  /** Every unit is bit `u % width` of word `u / width`. */
  lemma SplitUnit(u: nat, width: nat, n: nat)
    requires 0 < width && u < WordStart(width, n)
    ensures u / width < n && u == WordStart(width, u / width) + u % width
  {
    WordStartIsProduct(width, u / width);
    if n < u / width { WordsApart(width, n, u / width); }
  }

  /** The bitmap held by `width`-bit words, lowest bit of the first word first. */
  ghost function BitsOf(words: seq<nat>, width: nat): (bits: Bits)
    requires 0 < width
    ensures |bits| == WordStart(width, |words|)
  {
    seq(WordStart(width, |words|), u requires 0 <= u < WordStart(width, |words|) =>
      SplitUnit(u, width, |words|);
      Bit(words[u / width], u % width))
  }

  lemma BitOfWord(words: seq<nat>, width: nat, j: nat, i: nat)
    requires i < width && j < |words|
    ensures WordStart(width, j) + width <= WordStart(width, |words|)
    ensures BitsOf(words, width)[WordStart(width, j) + i] == Bit(words[j], i)
  {
    WordsApart(width, j, |words|);
    WordStartIsProduct(width, j);
    ModUnique(WordStart(width, j) + i, width, j, i);
  }

  /** A new word whose bits `[lo, hi)` are `value`, the others as before, fills the same bits of the bitmap. */
  lemma WordFillsBits(words: seq<nat>, width: nat, j: nat, w: nat, value: bool, lo: nat, hi: nat)
    requires j < |words| && lo <= hi <= width && 0 < width
    requires forall i | 0 <= i < width :: Bit(w, i) == if lo <= i < hi then value else Bit(words[j], i)
    ensures WordStart(width, j) + width <= WordStart(width, |words|)
    ensures BitsOf(words[j := w], width) == Fill(BitsOf(words, width), value, WordStart(width, j) + lo, hi - lo)
  {
    WordsApart(width, j, |words|);
    var at := WordStart(width, j);
    var bits, bits' := BitsOf(words, width), BitsOf(words[j := w], width);
    forall u | 0 <= u < |bits| ensures bits'[u] == if at + lo <= u < at + hi then value else bits[u] {
      SplitUnit(u, width, |words|);
      var k, i := u / width, u % width;
      BitOfWord(words, width, k, i);
      BitOfWord(words[j := w], width, k, i);
      if k < j { WordsApart(width, k, j); } else if j < k { WordsApart(width, j, k); }
    }
    assert bits' == Fill(bits, value, at + lo, hi - lo);
  }

  /** `w |= mask` or `w &= ~mask`. */
  function PutWord(width: nat, w: nat, mask: nat, value: bool): nat
    requires mask < Pow2(width)
  {
    if value then Or(w, mask) else And(w, Not(width, mask))
  }

  lemma BitsOfPutWord(width: nat, w: nat, mask: nat, value: bool, lo: nat, hi: nat)
    requires w < Pow2(width) && mask < Pow2(width)
    requires forall i | 0 <= i < width :: Bit(mask, i) == (lo <= i < hi)
    ensures PutWord(width, w, mask, value) < Pow2(width)
    ensures forall i | 0 <= i < width ::
              Bit(PutWord(width, w, mask, value), i) == if lo <= i < hi then value else Bit(w, i)
  {
    if value { OrBound(width, w, mask); } else { AndBound(w, Not(width, mask)); }
    forall i | 0 <= i < width
      ensures Bit(PutWord(width, w, mask, value), i) == if lo <= i < hi then value else Bit(w, i)
    {
      BitOfOr(w, mask, i);
      BitOfNot(width, mask, i);
      BitOfAnd(w, Not(width, mask), i);
    }
  }

  /** The mask of the leading partial word: `n` ones, or all ones, shifted up to the first bit. */
  function HeadMask(width: nat, n: nat, bitIndex: nat): nat
    requires 0 < bitIndex < width
  {
    var ones := if n <= width - bitIndex then And(Pow2(width) - 1, LowMask(width, n)) else Pow2(width) - 1;
    Shl(width, ones, bitIndex)
  }

  /** `(((Word) 1) << n) - 1` */
  function LowMask(width: nat, n: nat): nat
    requires n < width
  {
    ShlOfPow2(width, 0, n);
    Shl(width, 1, n) - 1
  }

  lemma BitsOfLowMask(width: nat, n: nat)
    requires n < width
    ensures LowMask(width, n) < Pow2(width)
    ensures forall i | 0 <= i < width :: Bit(LowMask(width, n), i) == (i < n)
  {
    ShlOfPow2(width, 0, n);
    Pow2Monotone(n, width);
    forall i | 0 <= i < width ensures Bit(LowMask(width, n), i) == (i < n) { BitOfMask(n, i); }
  }

  lemma BitsOfHeadMask(width: nat, n: nat, bitIndex: nat)
    requires 0 < bitIndex < width
    ensures HeadMask(width, n, bitIndex) < Pow2(width)
    ensures var k := if n <= width - bitIndex then n else width - bitIndex;
            forall i | 0 <= i < width :: Bit(HeadMask(width, n, bitIndex), i) == (bitIndex <= i < bitIndex + k)
  {
    var whole := n <= width - bitIndex;
    var ones := if whole then And(Pow2(width) - 1, LowMask(width, n)) else Pow2(width) - 1;
    if whole { AndBound(Pow2(width) - 1, LowMask(width, n)); BitsOfLowMask(width, n); }
    ShlBound(width, ones, bitIndex);
    forall i | 0 <= i < width
      ensures Bit(HeadMask(width, n, bitIndex), i) ==
              (bitIndex <= i < bitIndex + if whole then n else width - bitIndex)
    {
      BitOfShl(width, ones, bitIndex, i);
      if bitIndex <= i {
        BitOfMask(width, i - bitIndex);
        if whole { BitOfAnd(Pow2(width) - 1, LowMask(width, n), i - bitIndex); }
      }
    }
  }

  /** What a run counter reports: a genuine run inside the page, which stops short of `limit` only
      at the end of the page or at a bit of the other value. */
  ghost predicate CountsRun(bits: Bits, value: bool, from: nat, limit: nat, count: nat) {
    && Run(bits, value, from, count)
    && (count < limit && from + count < |bits| ==> bits[from + count] != value)
  }

  /** The run of `value` bits that starts at bit `b` of word `j` ends at the lowest set bit of the
      shifted word, or runs to the end of the word when that is zero. */
  lemma RunInWord(words: seq<nat>, width: nat, value: bool, j: nat, w: nat, b: nat)
    requires j < |words| && b < width && w < Pow2(width)
    requires forall i | 0 <= i < width :: Bit(w, i) == (Bit(words[j], i) != value)
    ensures WordStart(width, j) + width <= WordStart(width, |words|)
    ensures var sh := Shr(w, b);
            if sh == 0 then Run(BitsOf(words, width), value, WordStart(width, j) + b, width - b)
            else var c := CountTrailingZeros(sh);
              && b + c < width
              && Run(BitsOf(words, width), value, WordStart(width, j) + b, c)
              && BitsOf(words, width)[WordStart(width, j) + b + c] != value
  {
    WordsApart(width, j, |words|);
    var sh, bits := Shr(w, b), BitsOf(words, width);
    ShrBound(w, b);
    var c := if sh == 0 then width - b else CountTrailingZeros(sh);
    if sh != 0 {
      TrailingZeros(width, sh);
      BitOfShr(w, b, c);
      if width <= b + c { BitsBelow(width, w, b + c); }
      BitOfWord(words, width, j, b + c);
    }
    forall u | WordStart(width, j) + b <= u < WordStart(width, j) + b + c ensures bits[u] == value {
      var i := u - WordStart(width, j);
      BitOfShr(w, b, i - b);
      if sh == 0 { ZeroHasNoBits(i - b); }
      BitOfWord(words, width, j, i);
    }
  }

  lemma RunsJoin(bits: Bits, value: bool, from: nat, n: nat, m: nat)
    requires Run(bits, value, from, n) && Run(bits, value, from + n, m)
    ensures Run(bits, value, from, n + m)
  {
  }

  lemma FillsJoin(bits: Bits, value: bool, from: nat, n: nat, m: nat)
    requires from + n + m <= |bits|
    ensures Fill(Fill(bits, value, from, n), value, from + n, m) == Fill(bits, value, from, n + m)
  {
  }

  /** `offset & (WORD_WIDTH - 1)` is the bit index. */
  lemma MaskIsRemainder(width: WordWidth, offset: nat)
    ensures And(offset, width - 1) == offset % width
  {
    assert Pow2(5) == 32 && Pow2(6) == 64;
    AndMaskIsMod(offset, if width == 32 then 5 else 6);
  }

  /** A unit that is not on a word boundary lies inside a word. */
  lemma InsideWord(width: WordWidth, offset: nat, n: nat)
    requires offset <= WordStart(width, n)
    ensures var j, b := offset / width, And(offset, width - 1);
            && b < width && offset == WordStart(width, j) + b
            && WordStart(width, j + 1) == WordStart(width, j) + width
            && (b != 0 ==> j < n && WordStart(width, j + 1) <= WordStart(width, n))
  {
    hide Words.And;
    var j := offset / width;
    MaskIsRemainder(width, offset);
    WordStartIsProduct(width, j);
    if n < j { WordsApart(width, n, j); } else if j < n { WordsApart(width, j, n); }
  }

  /** One word of the counting loop: the count grows by a whole word, or ends inside it. */
  lemma CountWord(words: seq<nat>, width: nat, value: bool, from: nat, count: nat, j: nat, b: nat, w: nat, limit: nat)
    requires b < width && from + count == WordStart(width, j) + b && j < |words| && w < Pow2(width)
    requires Run(BitsOf(words, width), value, from, count)
    requires forall i | 0 <= i < width :: Bit(w, i) == (Bit(words[j], i) != value)
    ensures b == 0 ==> Shr(w, b) == w
    ensures var sh := Shr(w, b);
            if sh == 0 then
              && WordStart(width, j + 1) == from + count + (width - b)
              && Run(BitsOf(words, width), value, from, count + (width - b))
            else CountsRun(BitsOf(words, width), value, from, limit, count + CountTrailingZeros(sh))
  {
    RunInWord(words, width, value, j, w, b);
    var more := if Shr(w, b) == 0 then width - b else CountTrailingZeros(Shr(w, b));
    RunsJoin(BitsOf(words, width), value, from, count, more);
  }

  class BmPage {
    const width: WordWidth
    const header: nat     // reserved units at the start of the page
    const bitmap: array<nat>

    ghost predicate Valid()
      reads bitmap
    {
      0 < header <= Units() <= UINT_MAX && forall j | 0 <= j < bitmap.Length :: bitmap[j] < Pow2(width)
    }

    /** `units_per_page` */
    function Units(): nat { WordStart(width, bitmap.Length) }

    ghost function Bits(): Bits
      reads bitmap
    {
      BitsOf(bitmap[..], width)
    }

    /** `ptr` walks the words; `word` is the word, complemented when ones are counted. */
    function Word(value: bool, j: nat): (w: nat)
      requires Valid() && j < bitmap.Length
      reads bitmap
      ensures w < Pow2(width)
      ensures forall i | 0 <= i < width :: Bit(w, i) == (Bit(bitmap[j], i) != value)
    {
      assert forall i | 0 <= i < width :: Bit(Not(width, bitmap[j]), i) == !Bit(bitmap[j], i) by {
        forall i | 0 <= i < width ensures Bit(Not(width, bitmap[j]), i) == !Bit(bitmap[j], i) {
          BitOfNot(width, bitmap[j], i);
        }
      }
      if value then Not(width, bitmap[j]) else bitmap[j]
    }

    /** A mapped page holds whatever the operating system left in it. */
    constructor (width: WordWidth, header: nat, content: seq<nat>)
      requires 0 < header <= WordStart(width, |content|) <= UINT_MAX
      requires forall i | 0 <= i < |content| :: content[i] < Pow2(width)
      ensures this.width == width && this.header == header
      ensures Valid() && fresh(bitmap) && bitmap[..] == content
    {
      this.width := width;
      this.header := header;
      this.bitmap := new nat[|content|](i requires 0 <= i < |content| => content[i]);
    }

    /** The word and the bit of a unit: `ptr = &bitmap[offset / WORD_WIDTH]`, `offset & (WORD_WIDTH - 1)`. */
    method Locate(offset: nat) returns (j: nat, bitIndex: nat)
      requires offset <= Units()
      ensures offset == WordStart(width, j) + bitIndex && bitIndex < width
      ensures WordStart(width, j + 1) == WordStart(width, j) + width
      ensures bitIndex != 0 ==> j < bitmap.Length && WordStart(width, j + 1) <= Units()
    {
      hide Words.Pow2, Words.Bit, Words.And, Words.Or, Words.Shr, Words.CountTrailingZeros, WordStart;
      InsideWord(width, offset, bitmap.Length);
      j, bitIndex := offset / width, And(offset, width - 1);
    }

    /** `count_zero_bits` (value false) and `count_nonzero_bits` (value true). */
    method CountBits(value: bool, offset: nat, limit: nat) returns (count: nat)
      requires Valid() && offset <= Units()
      ensures CountsRun(Bits(), value, offset, limit, count)
    {
      hide Words.Pow2, Words.Bit, Words.And, Words.Or, Words.Shr, Words.CountTrailingZeros, BitsOf, WordStart;
      count := 0;
      ghost var words := bitmap[..];
      var off := offset;
      var j, bitIndex := Locate(offset);
      if bitIndex != 0 {
        var w := Word(value, j);
        CountWord(words, width, value, offset, 0, j, bitIndex, w, limit);
        j := j + 1;
        w := Shr(w, bitIndex);
        if w != 0 {
          return CountTrailingZeros(w);
        }
        count := width - bitIndex;
        off := off + count;
      }
      while off < Units() && count < limit
        invariant off == offset + count == WordStart(width, j)
        invariant Run(BitsOf(words, width), value, offset, count)
        decreases Units() - off
      {
        WordBoundary(width, j, bitmap.Length);
        var w := Word(value, j);
        CountWord(words, width, value, offset, count, j, 0, w, limit);
        j := j + 1;
        if w != 0 {
          count := count + CountTrailingZeros(w);
          return;
        }
        count := count + width;
        off := off + width;
      }
    }

    /** `set_bits` (value true) and `clear_bits` (value false). */
    method PutBits(value: bool, offset: nat, length: nat)
      requires Valid() && offset + length <= Units()
      modifies bitmap
      ensures Valid()
      ensures Bits() == Fill(old(Bits()), value, offset, length)
    {
      hide Words.Pow2, Words.Bit, Words.And, Words.Or, Words.Shr, Words.CountTrailingZeros, WordStart, BitsOf;
      var rest := length;
      var j, bitIndex := Locate(offset);
      if bitIndex != 0 {
        var numBits := if rest <= width - bitIndex then rest else width - bitIndex;
        BitsOfHeadMask(width, rest, bitIndex);
        PutMasked(value, j, HeadMask(width, rest, bitIndex), bitIndex, bitIndex + numBits, offset, numBits);
        j := j + 1;
        rest := rest - numBits;
      }
      ghost var before, done: nat := old(Bits()), length - rest;
      assert Bits() == Fill(before, value, offset, done);
      PutWords(value, j, rest, offset + done);
      FillsJoin(before, value, offset, done, rest);
    }

    /** The words after the partial first one, and the bits in the last. */
    method PutWords(value: bool, first: nat, length: nat, ghost at: nat)
      requires Valid() && at + length <= Units()
      requires length > 0 ==> at == WordStart(width, first)
      modifies bitmap
      ensures Valid()
      ensures Bits() == Fill(old(Bits()), value, at, length)
    {
      hide Words.Pow2, Words.Bit, Words.And, Words.Or, Words.Shr, Words.CountTrailingZeros, BitsOf, WordStart, Fill;
      var j: nat, rest: nat := first, length;
      ghost var to: nat, before := at, Bits();
      while width <= rest
        invariant Valid() && at <= to && to + rest == at + length
        invariant rest > 0 ==> to == WordStart(width, j)
        invariant Bits() == Fill(before, value, at, to - at)
      {
        WordBoundary(width, j, bitmap.Length);
        FillsJoin(before, value, at, to - at, width);
        PutWhole(value, j, to);
        j := j + 1;
        rest := rest - width;
        to := to + width;
      }
      if rest != 0 {
        WordBoundary(width, j, bitmap.Length);
        FillsJoin(before, value, at, to - at, rest);
        BitsOfLowMask(width, rest);
        PutMasked(value, j, LowMask(width, rest), 0, rest, to, rest);
      }
    }

    /** `*ptr = WORD_MAX` or `*ptr = 0` */
    method PutWhole(value: bool, j: nat, ghost at: nat)
      requires Valid() && j < bitmap.Length && at == WordStart(width, j)
      modifies bitmap
      ensures Valid() && at + width <= Units()
      ensures Bits() == Fill(old(Bits()), value, at, width)
    {
      hide Words.Pow2, Words.Bit, Words.And, Words.Or, Words.Shr, Words.CountTrailingZeros, BitsOf, WordStart;
      ghost var was := bitmap[..];
      bitmap[j] := if value then Pow2(width) - 1 else 0;
      assert bitmap[..] == was[j := bitmap[j]];
      forall i | 0 <= i < width ensures Bit(bitmap[j], i) == value {
        BitOfMask(width, i);
        ZeroHasNoBits(i);
      }
      WordFillsBits(was, width, j, bitmap[j], value, 0, width);
    }

    /** `*ptr |= mask` or `*ptr &= ~mask` */
    method PutMasked(value: bool, j: nat, mask: nat, ghost lo: nat, ghost hi: nat, ghost at: nat, ghost n: nat)
      requires Valid() && j < bitmap.Length && lo <= hi <= width && mask < Pow2(width)
      requires at == WordStart(width, j) + lo && n == hi - lo
      requires forall i | 0 <= i < width :: Bit(mask, i) == (lo <= i < hi)
      modifies bitmap
      ensures Valid() && at + n <= Units()
      ensures Bits() == Fill(old(Bits()), value, at, n)
    {
      hide Words.Pow2, Words.Bit, Words.And, Words.Or, Words.Shr, Words.CountTrailingZeros, BitsOf, WordStart;
      ghost var was := bitmap[..];
      BitsOfPutWord(width, bitmap[j], mask, value, lo, hi);
      bitmap[j] := PutWord(width, bitmap[j], mask, value);
      assert bitmap[..] == was[j := bitmap[j]];
      WordFillsBits(was, width, j, bitmap[j], value, lo, hi);
    }

    /** A newly mapped page: the bitmap is cleaned word by word, then the header and the first block are marked. */
    method InitBitmap(numUnits: nat)
      requires Valid() && header + numUnits <= Units()
      modifies bitmap
      ensures Valid()
      ensures forall u | 0 <= u < |Bits()| :: Bits()[u] == (u < header + numUnits)
    {
      hide Words.Pow2, Words.Bit, Words.And, Words.Or, Words.Shr, Words.CountTrailingZeros;
      for i := 0 to bitmap.Length
        invariant Valid()
        invariant forall k | 0 <= k < i :: bitmap[k] == 0
      {
        bitmap[i] := 0;
      }
      forall u | 0 <= u < |Bits()| ensures !Bits()[u] {
        SplitUnit(u, width, bitmap.Length);
        ZeroHasNoBits(u % width);
      }
      PutBits(true, 0, header + numUnits);
    }

    /** `find_free_block`: the first fit in the data area. */
    method FindFreeBlock(blockSize: nat) returns (offset: nat)
      requires Valid()
      ensures offset == FirstFit(Bits(), header, blockSize)
    {
      hide Words.Pow2, Words.Bit, Words.And, Words.Or, Words.Shr, Words.CountTrailingZeros, BitsOf, WordStart;
      var units := Units();
      offset := header;
      while offset < units
        invariant header <= offset <= units
        invariant FirstFit(Bits(), header, blockSize) == FirstFit(Bits(), offset, blockSize)
      {
        var length := CountBits(false, offset, blockSize);
        if length >= blockSize {
          assert Free(Bits(), offset, blockSize);
          return;
        }
        var ones := CountBits(true, offset + length, UINT_MAX);
        ghost var next := offset + length + ones;
        forall o: nat | offset <= o < next ensures !Free(Bits(), o, blockSize) {
          NoFit(Bits(), offset, length, ones, o, blockSize);
        }
        FirstFitSkips(Bits(), offset, next, blockSize);
        offset := offset + length;
        offset := offset + ones;
      }
      offset := 0;
    }

    /** `find_longest_free_block` */
    method FindLongestFreeBlock() returns (lfb: nat)
      requires Valid()
      ensures lfb == LongestFree(Bits(), header)
    {
      hide Words.Pow2, Words.Bit, Words.And, Words.Or, Words.Shr, Words.CountTrailingZeros, BitsOf, WordStart;
      var units := Units();
      var offset, n: nat := header, units - header;
      lfb := 0;
      assert Free(Bits(), header, 0);
      while n != 0
        invariant header <= offset && offset + n == units
        invariant HasFree(Bits(), header, lfb)
        invariant forall o: nat, m: nat | header <= o < offset && Free(Bits(), o, m) :: m <= lfb
        invariant offset == header || n == 0 || (offset <= units && Bits()[offset - 1])
      {
        var length := CountBits(false, offset, n);
        if length > lfb {
          lfb := length;
        }
        ghost var start := offset;
        assert Free(Bits(), start, length);
        offset := offset + length;
        n := n - length;
        var ones := CountBits(true, offset, n);
        forall o: nat, m: nat | start <= o < offset + ones && Free(Bits(), o, m) ensures m <= lfb {
          if m > 0 && o + m > start + length { NoFit(Bits(), start, length, ones, o, m); }
        }
        offset := offset + ones;
        n := n - ones;
      }
      forall m: nat | HasFree(Bits(), header, m) ensures m <= lfb {
        var o: nat :| header <= o && Free(Bits(), o, m);
        if o == units { assert m == 0; }
      }
      LongestIsUnique(Bits(), header, lfb);
    }
  }
}
