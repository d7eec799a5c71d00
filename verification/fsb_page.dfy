/** The bitmap and the counter of one fixed-size-block page. */
module FsbPages {
  import opened Words
  import opened Runs
  import opened BmPages

  /** How many bits are set. */
  function CountSet(bits: Bits): nat {
    if bits == [] then 0 else CountSet(bits[..|bits| - 1]) + if bits[|bits| - 1] then 1 else 0
  }

  lemma {:induction false} CountSetUpdate(bits: Bits, i: nat, value: bool)
    requires i < |bits| && bits[i] != value
    ensures CountSet(bits[i := value]) == if value then CountSet(bits) + 1 else CountSet(bits) - 1
  {
    var n := |bits| - 1;
    if i == n {
      assert bits[i := value][..n] == bits[..n];
    } else {
      assert bits[i := value][..n] == bits[..n][i := value];
      CountSetUpdate(bits[..n], i, value);
    }
  }

  /** All bits set below `n` and none above makes `n`; so fewer than `n` leaves a clear bit below `n`. */
  lemma {:induction false} CountSetAll(bits: Bits, n: nat)
    requires n <= |bits| && forall i | 0 <= i < n :: bits[i]
    ensures n <= CountSet(bits)
  {
    if bits != [] {
      var m := |bits| - 1;
      CountSetAll(bits[..m], if n <= m then n else m);
    }
  }

  lemma {:induction false} CountSetNone(bits: Bits)
    requires forall i | 0 <= i < |bits| :: !bits[i]
    ensures CountSet(bits) == 0
  {
    if bits != [] { CountSetNone(bits[..|bits| - 1]); }
  }

  /** A page: its address, its bitmap words and the counter of free blocks. */
  datatype Body = Body(base: nat, bitmap: seq<nat>, numFree: nat) {

    ghost function Bits(width: nat): Bits
      requires 0 < width
    {
      BitsOf(bitmap, width)
    }

    /** The counter is the number of clear bits among the blocks; no bit beyond the blocks is ever set. */
    ghost predicate Ok(width: WordWidth, blocks: nat) {
      && (forall j | 0 <= j < |bitmap| :: bitmap[j] < Pow2(width))
      && blocks <= |Bits(width)|
      && numFree + CountSet(Bits(width)) == blocks
      && forall i | blocks <= i < |Bits(width)| :: !Bits(width)[i]
    }
  }

  /** A newly mapped page: all blocks are free. */
  method NewBody(base: nat, width: WordWidth, blocks: nat, bitmapSize: nat) returns (body: Body)
    requires blocks <= WordStart(width, bitmapSize)
    ensures body.Ok(width, blocks) && body.numFree == blocks && |body.bitmap| == bitmapSize && body.base == base
    ensures forall i | 0 <= i < |body.Bits(width)| :: !body.Bits(width)[i]
  {
    var bitmap: seq<nat> := [];
    for i := 0 to bitmapSize
      invariant |bitmap| == i && forall k | 0 <= k < i :: bitmap[k] == 0
    {
      bitmap := bitmap + [0];
    }
    body := Body(base, bitmap, blocks);
    forall i | 0 <= i < |body.Bits(width)| ensures !body.Bits(width)[i] {
      SplitUnit(i, width, bitmapSize);
      ZeroHasNoBits(i % width);
    }
    CountSetNone(body.Bits(width));
  }

  /** The word and bit of the lowest clear bit. It is below the number of blocks, so the abort at the end of the
      search is never reached. */
  method FindClear(width: WordWidth, blocks: nat, body: Body) returns (j: nat, b: nat)
    requires body.Ok(width, blocks) && 0 < body.numFree
    ensures j < |body.bitmap| && b < width && WordStart(width, j) + b < blocks
    ensures var bits := body.Bits(width);
            !bits[WordStart(width, j) + b] && forall i | 0 <= i < WordStart(width, j) + b :: bits[i]
  {
    hide Words.Pow2, Words.Bit, Words.Not, Words.CountTrailingZeros, WordStart, CountSet, BitsOf;
    WordStartIsProduct(width, 0);
    ghost var bits := body.Bits(width);
    j, b := 0, 0;
    while j < |body.bitmap|
      invariant j <= |body.bitmap|
      invariant forall i | 0 <= i < WordStart(width, j) && i < |bits| :: bits[i]
    {
      var w := Not(width, body.bitmap[j]);
      WordFull(body.bitmap, width, j);
      if w != 0 {
        b := CountTrailingZeros(w);
        if blocks <= WordStart(width, j) + b { CountSetAll(bits, blocks); }
        return;
      }
      j := j + 1;
    }
    CountSetAll(bits, blocks);
    assert false;
  }

  /** Takes the lowest free block of the page: `bitmap[j] |= 1 << b; num_free--`. */
  method TakeBit(width: WordWidth, blocks: nat, body: Body) returns (body': Body, index: nat)
    requires body.Ok(width, blocks) && 0 < body.numFree
    ensures index < blocks && !body.Bits(width)[index] && (forall i | 0 <= i < index :: body.Bits(width)[i])
    ensures body'.Bits(width) == body.Bits(width)[index := true]
    ensures body'.Ok(width, blocks) && body'.numFree == body.numFree - 1
    ensures |body'.bitmap| == |body.bitmap| && body'.base == body.base
  {
    hide Words.Pow2, WordStart, CountSet, BitsOf, PutOne;
    var j, b := FindClear(width, blocks, body);
    WordStartIsProduct(width, j);
    index := width * j + b;
    PutOneBit(width, body.bitmap, true, j, b, index);
    CountSetUpdate(body.Bits(width), index, true);
    body' := body.(bitmap := PutOne(width, body.bitmap, true, j, b), numFree := body.numFree - 1);
  }

  /** Gives the block back: `bitmap[index / WORD_WIDTH] &= ~(1 << (index & (WORD_WIDTH - 1))); num_free++`. */
  method GiveBit(width: WordWidth, blocks: nat, body: Body, index: nat) returns (body': Body)
    requires body.Ok(width, blocks) && index < blocks && body.Bits(width)[index]
    ensures body'.Bits(width) == body.Bits(width)[index := false]
    ensures body'.Ok(width, blocks) && body'.numFree == body.numFree + 1
    ensures |body'.bitmap| == |body.bitmap| && body'.base == body.base
  {
    hide Words.And, Words.Pow2, WordStart, CountSet, BitsOf, PutOne;
    SplitUnit(index, width, |body.bitmap|);
    MaskIsRemainder(width, index);
    PutOneBit(width, body.bitmap, false, index / width, index % width, index);
    CountSetUpdate(body.Bits(width), index, false);
    body' := body.(bitmap := PutOne(width, body.bitmap, false, index / width, And(index, width - 1)),
        numFree := body.numFree + 1);
  }

  /** `bitmap[j] |= 1 << b` or `bitmap[j] &= ~(1 << b)` */
  function PutOne(width: nat, words: seq<nat>, value: bool, j: nat, b: nat): seq<nat>
    requires j < |words| && b < width
  {
    BitsOfOneBit(width, b);
    words[j := PutWord(width, words[j], Shl(width, 1, b), value)]
  }

  lemma PutOneBit(width: nat, words: seq<nat>, value: bool, j: nat, b: nat, index: nat)
    requires j < |words| && b < width && index == WordStart(width, j) + b
    requires forall k | 0 <= k < |words| :: words[k] < Pow2(width)
    ensures forall k | 0 <= k < |words| :: PutOne(width, words, value, j, b)[k] < Pow2(width)
    ensures |PutOne(width, words, value, j, b)| == |words| && index < |BitsOf(words, width)|
    ensures BitsOf(PutOne(width, words, value, j, b), width) == BitsOf(words, width)[index := value]
  {
    hide WordStart, BitsOf, Words.Pow2, Words.Bit, Words.And, Words.Or, Words.Shl, PutWord;
    var mask := Shl(width, 1, b);
    BitsOfOneBit(width, b);
    BitsOfPutWord(width, words[j], mask, value, b, b + 1);
    WordFillsBits(words, width, j, PutWord(width, words[j], mask, value), value, b, b + 1);
    assert Fill(BitsOf(words, width), value, index, 1) == BitsOf(words, width)[index := value];
  }

  lemma BitsOfOneBit(width: nat, b: nat)
    requires b < width
    ensures Shl(width, 1, b) < Pow2(width)
    ensures forall i | 0 <= i < width :: Bit(Shl(width, 1, b), i) == (b <= i < b + 1)
  {
    ShlBound(width, 1, b);
    forall i | 0 <= i < width ensures Bit(Shl(width, 1, b), i) == (b <= i < b + 1) {
      BitOfShl(width, 1, b, i);
      if b < i { ZeroHasNoBits(i - b - 1); }
    }
  }

  /** A word whose complement is zero is all ones; otherwise the trailing-zero count of the complement is the
      lowest clear bit. */
  lemma WordFull(words: seq<nat>, width: nat, j: nat)
    requires j < |words| && words[j] < Pow2(width) && 0 < width
    ensures WordStart(width, j) + width <= WordStart(width, |words|)
    ensures WordStart(width, j + 1) == WordStart(width, j) + width
    ensures var w, at, bits := Not(width, words[j]), WordStart(width, j), BitsOf(words, width);
            if w == 0 then forall i | at <= i < at + width :: bits[i]
            else var b := CountTrailingZeros(w);
              b < width && !bits[at + b] && forall i | at <= i < at + b :: bits[i]
  {
    WordsApart(width, j, |words|);
    var w, at, bits := Not(width, words[j]), WordStart(width, j), BitsOf(words, width);
    if w != 0 {
      var b := CountTrailingZeros(w);
      TrailingZeros(width, w);
      BitOfNot(width, words[j], b);
      BitOfWord(words, width, j, b);
    }
    forall i | at <= i < at + if w == 0 then width else CountTrailingZeros(w) ensures bits[i] {
      ZeroHasNoBits(i - at);
      BitOfNot(width, words[j], i - at);
      BitOfWord(words, width, j, i - at);
    }
  }
}
