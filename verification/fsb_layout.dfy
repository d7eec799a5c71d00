/** The fixed-size-block page: how header, bitmap and blocks share it, and the address arithmetic. */
module FsbLayouts {
  import opened Common
  import opened Words
  import opened Alignment
  import opened BmPages

  /** A page header takes `fixed` bytes and the bitmap; a word has `width` bits, that is `width / 8` bytes. */
  datatype Layout = Layout(os: Platform, fixed: nat, width: WordWidth, blockSize: nat, blocksPerPage: nat,
      bitmapSize: nat) {

    function WordBytes(): nat { width / 8 }

    /** `align_unsigned(sizeof(FsbaPageHeader) + sizeof(Word) * bitmap_size, block_size)` */
    function HeaderSize(): nat
      requires blockSize < Pow2(os.uintWidth)
    {
      HeaderFor(os.uintWidth, fixed, WordBytes(), blockSize, bitmapSize)
    }

    /** Header and blocks fit the page, and the bitmap has a bit for every block. */
    ghost predicate Valid() {
      && os.Valid() && 0 < blockSize < Pow2(os.uintWidth)
      && 0 < blocksPerPage <= bitmapSize * width
      && HeaderSize() + blocksPerPage * blockSize <= os.PageSize()
      && os.PageSize() < HeaderSize() + (blocksPerPage + 1) * blockSize
    }

    /** The address of block `i` on the page at `base`. */
    function Address(base: nat, i: nat): nat
      requires blockSize < Pow2(os.uintWidth)
    {
      base + HeaderSize() + i * blockSize
    }
  }

  function HeaderFor(uintWidth: nat, fixed: nat, wordBytes: nat, blockSize: nat, bitmapSize: nat): nat
    requires blockSize < Pow2(uintWidth)
  {
    AlignUnsigned(uintWidth, Wrap(uintWidth, fixed + wordBytes * bitmapSize), blockSize)
  }

  /** Unsigned division: how many whole blocks fit. */
  function BlocksIn(space: nat, blockSize: nat): nat
    requires 0 < blockSize
  {
    space / blockSize
  }

  lemma WholeBlocks(space: nat, blockSize: nat)
    requires 0 < blockSize
    ensures var n := BlocksIn(space, blockSize);
            && n * blockSize <= space < (n + 1) * blockSize && n <= space && (blockSize <= space <==> 0 < n)
  {
    var q, r := space / blockSize, space % blockSize;
    assert space == blockSize * q + r && 0 <= r < blockSize;
    assert (q + 1) * blockSize == q * blockSize + blockSize;
    if 0 < q { MulGap(blockSize, 0, q); MulGap(q, 0, blockSize); }
  }

  /** While the bitmap is too small for the blocks, one more word still leaves room for a block. */
  lemma NextHeaderFits(w: nat, fixed: nat, width: WordWidth, blockSize: nat, k: nat, blocks: nat, page: nat)
    requires 0 < blockSize && 0 < k && fixed + width + 2 * blockSize + page <= Pow2(w)
    requires HeaderFor(w, fixed, width / 8, blockSize, k) <= page
    requires fixed + width / 8 * k <= page
    requires blocks * blockSize <= page - HeaderFor(w, fixed, width / 8, blockSize, k) && blocks > k * width
    ensures fixed + width / 8 * (k + 1) <= HeaderFor(w, fixed, width / 8, blockSize, k + 1)
    ensures HeaderFor(w, fixed, width / 8, blockSize, k + 1) + blockSize <= page
  {
    hide Words.And, Words.Pow2;
    var wb := width / 8;
    assert wb * (k + 1) == wb * k + wb;
    AlignInRange(w, fixed + wb * k, blockSize);
    AlignInRange(w, fixed + wb * (k + 1), blockSize);
    var header := HeaderFor(w, fixed, wb, blockSize, k);
    assert blocks * blockSize >= (k * width + 1) * blockSize by { MulGrows(k * width + 1, blocks, blockSize); }
    assert (k * width + 1) * blockSize >= (width + 1) * blockSize by { MulGrows(width + 1, k * width + 1, blockSize); }
    assert (width + 1) * blockSize >= wb + 2 * blockSize;
  }

  /** One round of the sizing loop: the blocks that fit, as unsigned arithmetic has it, behind a header with `n` bitmap
      words. */
  function WithBitmap(layout: Layout, n: nat): Layout
    requires 0 < layout.blockSize < Pow2(layout.os.uintWidth)
  {
    var header := HeaderFor(layout.os.uintWidth, layout.fixed, layout.WordBytes(), layout.blockSize, n);
    layout.(bitmapSize := n, blocksPerPage := BlocksIn(Wrap(layout.os.uintWidth, layout.os.PageSize() - header),
        layout.blockSize))
  }

  /** The sizes that the caller asks for, and room for unsigned arithmetic. */
  ghost predicate Requested(layout: Layout) {
    && layout.os.Valid() && 0 < layout.blockSize && layout.fixed + layout.WordBytes() <= layout.os.PageSize()
    && layout.fixed + layout.width + 2 * layout.blockSize + layout.os.PageSize() <= Pow2(layout.os.uintWidth)
  }

  /** The smallest header fits the page. */
  ghost predicate HeaderFits(layout: Layout)
    requires Requested(layout)
  {
    HeaderFor(layout.os.uintWidth, layout.fixed, layout.WordBytes(), layout.blockSize, 1) <= layout.os.PageSize()
  }

  /** What holds after every round: if the smallest header fits, a block fits behind this one; else this header has not
      wrapped. */
  ghost predicate Round(layout: Layout) {
    && Requested(layout) && 0 < layout.bitmapSize && layout == WithBitmap(layout, layout.bitmapSize)
    && if HeaderFits(layout) then
         && layout.fixed + layout.WordBytes() * layout.bitmapSize <= layout.HeaderSize()
         && layout.HeaderSize() + layout.blockSize <= layout.os.PageSize()
       else layout.fixed + layout.WordBytes() * layout.bitmapSize + layout.blockSize < Pow2(layout.os.uintWidth)
  }

  /** `_init_fsb_arena`. Unsigned subtraction wraps, so the size test passes when a block fits behind the smallest
      header, and also when that header exceeds the page. The layout that comes out is usable exactly in the first case;
      then its bitmap has a bit for every block, lies in the header, and has no more words than that takes. */
  method Solve(os: Platform, fixed: nat, width: WordWidth, size: nat, alignment: nat) returns (ok: bool, layout: Layout)
    requires Requested(Layout(os, fixed, width, Max(size, alignment), 0, 0))
    ensures layout.os == os && layout.fixed == fixed && layout.width == width
    ensures layout.blockSize == Max(size, alignment) && Requested(layout)
    ensures var header := HeaderFor(os.uintWidth, fixed, width / 8, layout.blockSize, 1);
            ok <==> header + layout.blockSize <= os.PageSize() || os.PageSize() < header
    ensures ok ==> (layout.Valid() <==> HeaderFits(layout))
    ensures ok && layout.Valid() ==>
              && fixed + width / 8 * layout.bitmapSize <= layout.HeaderSize()
              && TooFew(layout, layout.bitmapSize)
  {
    hide Words.Pow2, HeaderFor, BlocksIn, Wrap, Layout.Valid, TooFew;
    var blockSize := if size < alignment then alignment else size;
    layout := Layout(os, fixed, width, blockSize, 0, 0);
    FirstRound(layout);
    var header := HeaderFor(os.uintWidth, fixed, width / 8, blockSize, 1);
    var maxBlock := Wrap(os.uintWidth, os.PageSize() - header);
    if blockSize > maxBlock {
      return false, layout;
    }
    layout := WithBitmap(layout, 1);
    NoneTooFew(layout);
    hide Requested, HeaderFits, Round;
    while layout.blocksPerPage > layout.bitmapSize * width
      invariant Round(layout) && layout.os == os && layout.fixed == fixed && layout.width == width
      invariant layout.blockSize == blockSize
      invariant TooFew(layout, layout.bitmapSize)
      decreases Pow2(os.uintWidth) - layout.bitmapSize
    {
      NextRound(layout);
      RoundFacts(layout);
      MoreTooFew(layout);
      layout := WithBitmap(layout, layout.bitmapSize + 1);
    }
    ok := true;
    LastRound(layout);
  }

  /** Bitmaps of fewer than `k` words would have fewer bits than there would be blocks. */
  ghost predicate TooFew(layout: Layout, k: nat)
    requires 0 < layout.blockSize < Pow2(layout.os.uintWidth)
  {
    forall n | 0 < n < k :: n * layout.width < WithBitmap(layout, n).blocksPerPage
  }

  lemma NoneTooFew(layout: Layout)
    requires 0 < layout.blockSize < Pow2(layout.os.uintWidth)
    ensures TooFew(layout, 1)
  {
  }

  lemma RoundFacts(layout: Layout)
    requires Round(layout)
    ensures 0 < layout.blockSize < Pow2(layout.os.uintWidth) && layout == WithBitmap(layout, layout.bitmapSize)
  {
  }

  lemma MoreTooFew(layout: Layout)
    requires 0 < layout.blockSize < Pow2(layout.os.uintWidth) && layout == WithBitmap(layout, layout.bitmapSize)
    requires layout.blocksPerPage > layout.bitmapSize * layout.width && TooFew(layout, layout.bitmapSize)
    ensures TooFew(WithBitmap(layout, layout.bitmapSize + 1), layout.bitmapSize + 1)
  {
    hide Words.Pow2, HeaderFor, BlocksIn, Wrap;
    var more := WithBitmap(layout, layout.bitmapSize + 1);
    assert forall n :: WithBitmap(more, n) == WithBitmap(layout, n);
  }

  lemma FirstRound(layout: Layout)
    requires Requested(layout)
    ensures var w, page := layout.os.uintWidth, layout.os.PageSize();
            var header := HeaderFor(w, layout.fixed, layout.WordBytes(), layout.blockSize, 1);
            && Wrap(w, page - header) == (if page < header then page - header + Pow2(w) else page - header)
            && (layout.blockSize <= Wrap(w, page - header) <==> header + layout.blockSize <= page || page < header)
            && (layout.blockSize <= Wrap(w, page - header) ==> Round(WithBitmap(layout, 1)))
  {
    var w, page := layout.os.uintWidth, layout.os.PageSize();
    FirstHeader(w, layout.fixed, layout.WordBytes(), layout.blockSize);
    hide Words.Pow2, HeaderFor, BlocksIn, Wrap;
    WrapBelow(w, page - HeaderFor(w, layout.fixed, layout.WordBytes(), layout.blockSize, 1));
  }

  /** While the bitmap is too small for the blocks, one more word keeps the round in order; the loop ends. */
  lemma NextRound(layout: Layout)
    requires Round(layout) && layout.blocksPerPage > layout.bitmapSize * layout.width
    ensures Round(WithBitmap(layout, layout.bitmapSize + 1)) && layout.bitmapSize < Pow2(layout.os.uintWidth)
  {
    hide Words.Pow2, HeaderFor, BlocksIn, Wrap;
    BlocksBound(layout);
    var w, page := layout.os.uintWidth, layout.os.PageSize();
    if HeaderFits(layout) {
      NextHeaderFits(w, layout.fixed, layout.width, layout.blockSize, layout.bitmapSize, layout.blocksPerPage, page);
    } else {
      BitmapStaysSmall(w, layout.fixed, layout.width, layout.blockSize, layout.bitmapSize, layout.blocksPerPage, page);
    }
  }

  lemma BlocksBound(layout: Layout)
    requires Round(layout) && layout.blocksPerPage > layout.bitmapSize * layout.width
    ensures layout.bitmapSize < layout.blocksPerPage < Pow2(layout.os.uintWidth)
    ensures layout.blocksPerPage * layout.blockSize < Pow2(layout.os.uintWidth)
    ensures HeaderFits(layout) ==>
              layout.blocksPerPage * layout.blockSize <= layout.os.PageSize() - layout.HeaderSize()
  {
    hide Words.Pow2, HeaderFor, BlocksIn, Wrap, Layout.Valid;
    var space := Wrap(layout.os.uintWidth, layout.os.PageSize() - layout.HeaderSize());
    MoreThanBits(space, layout.blockSize, layout.bitmapSize, layout.width);
  }

  lemma MoreThanBits(space: nat, blockSize: nat, bitmapSize: nat, width: nat)
    requires 0 < blockSize && 0 < width && BlocksIn(space, blockSize) > bitmapSize * width
    ensures var blocks := BlocksIn(space, blockSize); bitmapSize < blocks <= space && blocks * blockSize <= space
  {
    hide BlocksIn;
    WholeBlocks(space, blockSize);
    MulGrows(1, width, bitmapSize);
  }

  lemma LastRound(layout: Layout)
    requires Round(layout) && layout.blocksPerPage <= layout.bitmapSize * layout.width
    ensures Requested(layout) && (layout.Valid() <==> HeaderFits(layout))
  {
    hide Words.Pow2, HeaderFor, BlocksIn, Wrap;
    if HeaderFits(layout) { FoundIsValid(layout, layout.HeaderSize()); } else { NeverUsable(layout); }
  }

  /** While the bitmap is too small for the blocks, one more word does not make the header wrap. */
  lemma BitmapStaysSmall(w: nat, fixed: nat, width: WordWidth, blockSize: nat, bitmapSize: nat, blocks: nat, page: nat)
    requires bitmapSize * width < blocks && blocks * blockSize < Pow2(w) && 0 < blockSize
    requires fixed + width + 2 * blockSize + page <= Pow2(w) && fixed + width / 8 <= page && 2 * page <= Pow2(w)
    ensures fixed + width / 8 * (bitmapSize + 1) + blockSize < Pow2(w)
  {
    hide Words.Pow2;
    MulGrows(1, blockSize, blocks);
    assert 8 * (width / 8 * bitmapSize) == bitmapSize * width;
  }

  /** When the smallest header exceeds the page, a block does not fit behind any header. */
  lemma NeverUsable(layout: Layout)
    requires Requested(layout) && !HeaderFits(layout) && 0 < layout.bitmapSize
    requires layout.fixed + layout.WordBytes() * layout.bitmapSize + layout.blockSize < Pow2(layout.os.uintWidth)
    ensures !layout.Valid()
  {
    hide Words.Pow2, HeaderFor;
    LaterHeader(layout.os.uintWidth, layout.fixed, layout.WordBytes(), layout.blockSize, layout.bitmapSize,
        layout.os.PageSize());
    BlocksBehind(layout.HeaderSize(), layout.blocksPerPage, layout.blockSize, layout.os.PageSize());
  }

  lemma LaterHeader(w: nat, fixed: nat, wordBytes: nat, blockSize: nat, n: nat, page: nat)
    requires 0 < n && 0 < blockSize && fixed + wordBytes * n + blockSize < Pow2(w)
        && fixed + wordBytes + blockSize < Pow2(w)
    requires page < HeaderFor(w, fixed, wordBytes, blockSize, 1)
    ensures page < HeaderFor(w, fixed, wordBytes, blockSize, n) + blockSize
  {
    hide Words.Pow2, Words.And, AlignUnsigned, Wrap;
    MulGrows(1, n, wordBytes);
    FirstHeader(w, fixed, wordBytes, blockSize);
    AlignInRange(w, fixed + wordBytes * n, blockSize);
  }

  lemma BlocksBehind(header: nat, blocks: nat, blockSize: nat, page: nat)
    requires page < header + blockSize
    ensures 0 < blocks ==> page < header + blocks * blockSize
  {
    if 0 < blocks { MulGrows(1, blocks, blockSize); }
  }

  /** A block of 8192 bytes on pages of 4096: the header alone would take 8192, and still the size test passes; the
      layout that comes out is not usable. */
  method OversizedBlockPasses() returns (ok: bool, layout: Layout)
    ensures ok && !layout.Valid() && layout.blockSize == 8192 && layout.os.PageSize() == 4096
  {
    OversizedHeader();
    hide Words.Pow2, HeaderFor;
    ok, layout := Solve(Platform(32, 12), 32, 64, 8192, 8);
  }

  lemma OversizedHeader()
    ensures Pow2(12) == 4096 && 16384 + 4096 + 96 < Pow2(32) && HeaderFor(32, 32, 8, 8192, 1) == 8192
  {
    assert Pow2(13) == 8192 && Pow2(14) == 16384 && Pow2(16) == 65536;
    hide Words.Pow2, AlignUnsigned, RoundUp, Wrap;
    Pow2Monotone(16, 32);
    AlignToPow2(32, 40, 13);
    var header := RoundUp(40, 8192);
    if 8192 < header { MultiplesApart(8192, header, 8192); }
  }

  lemma FoundIsValid(layout: Layout, header: nat)
    requires layout.os.Valid() && 0 < layout.blockSize < Pow2(layout.os.uintWidth) && header == layout.HeaderSize()
    requires header + layout.blockSize <= layout.os.PageSize()
    requires layout.blocksPerPage == BlocksIn(layout.os.PageSize() - header, layout.blockSize)
    requires layout.blocksPerPage <= layout.bitmapSize * layout.width
    ensures layout.Valid()
  {
    hide Words.Pow2, HeaderFor;
    WholeBlocks(layout.os.PageSize() - header, layout.blockSize);
  }

  lemma FirstHeader(w: nat, fixed: nat, wordBytes: nat, blockSize: nat)
    requires 0 < blockSize && fixed + wordBytes + blockSize < Pow2(w)
    ensures fixed + wordBytes <= HeaderFor(w, fixed, wordBytes, blockSize, 1) < fixed + wordBytes + blockSize
  {
    AlignInRange(w, fixed + wordBytes, blockSize);
  }

  lemma WrapBelow(w: nat, n: int)
    requires 0 - Pow2(w) < n < Pow2(w)
    ensures Wrap(w, n) == if n < 0 then n + Pow2(w) else n
  {
    if n < 0 { ModUnique(n, Pow2(w), -1, n + Pow2(w)); }
  }

  /** Every block lies between the header and the end of its page. */
  lemma BlockInPage(layout: Layout, base: nat, i: nat)
    requires layout.Valid() && i < layout.blocksPerPage
    ensures base + layout.HeaderSize() <= layout.Address(base, i)
    ensures layout.Address(base, i) + layout.blockSize <= base + layout.os.PageSize()
  {
    hide Words.Pow2, HeaderFor;
    MulGap(layout.blockSize, i, layout.blocksPerPage);
  }

  /** The page and the index that release computes from an address are those that allocate used. */
  lemma AddressRecovers(layout: Layout, pointerWidth: nat, base: nat, i: nat)
    requires layout.Valid() && i < layout.blocksPerPage && base % layout.os.PageSize() == 0
    requires base + layout.os.PageSize() <= Pow2(pointerWidth)
    ensures MaskDown(pointerWidth, layout.Address(base, i), layout.os.PageSize()) == base
    ensures (layout.Address(base, i) - base - layout.HeaderSize()) / layout.blockSize == i
  {
    hide Words.Pow2, HeaderFor, MaskDown;
    PageRecovers(layout, pointerWidth, base, i);
    IndexRecovers(base, layout.HeaderSize(), i, layout.blockSize);
  }

  lemma PageRecovers(layout: Layout, pointerWidth: nat, base: nat, i: nat)
    requires layout.Valid() && i < layout.blocksPerPage && base % layout.os.PageSize() == 0
    requires base + layout.os.PageSize() <= Pow2(pointerWidth)
    ensures MaskDown(pointerWidth, layout.Address(base, i), layout.os.PageSize()) == base
  {
    hide Words.Pow2, HeaderFor, MaskDown;
    BlockInPage(layout, base, i);
    PageOfAddress(pointerWidth, layout.os.pageBits, base, layout.Address(base, i));
  }

  lemma IndexRecovers(base: nat, header: nat, i: nat, blockSize: nat)
    requires 0 < blockSize
    ensures (base + header + i * blockSize - base - header) / blockSize == i
  {
    ModUnique(i * blockSize, blockSize, i, 0);
  }

  lemma PageOfAddress(pointerWidth: nat, pageBits: nat, base: nat, addr: nat)
    requires base % Pow2(pageBits) == 0 && base <= addr < base + Pow2(pageBits) <= Pow2(pointerWidth)
    ensures MaskDown(pointerWidth, addr, Pow2(pageBits)) == base
  {
    MaskDownIsPageBase(pointerWidth, addr, pageBits);
    hide Words.Pow2, MaskDown;
    ModOfOffset(base, Pow2(pageBits), addr - base);
  }

  /** Different blocks do not overlap. */
  lemma BlocksApart(layout: Layout, base: nat, i: nat, base': nat, i': nat)
    requires layout.Valid() && i < layout.blocksPerPage && i' < layout.blocksPerPage
    requires base % layout.os.PageSize() == 0 && base' % layout.os.PageSize() == 0
    requires base < base' || (base == base' && i < i')
    ensures layout.Address(base, i) + layout.blockSize <= layout.Address(base', i')
  {
    hide Words.Pow2, HeaderFor;
    if base < base' {
      BlockInPage(layout, base, i);
      MultiplesApart(base, base', layout.os.PageSize());
    } else {
      MulGap(layout.blockSize, i, i');
    }
  }

  /** A block is aligned to every power of two, up to the page, that divides the block size; the block size itself
      need not be a power of two. */
  lemma BlockAligned(layout: Layout, base: nat, i: nat, k: nat)
    requires layout.Valid() && base % layout.os.PageSize() == 0
    requires layout.blockSize % Pow2(k) == 0 && k <= layout.os.pageBits
    ensures layout.Address(base, i) % Pow2(k) == 0
  {
    var m := Pow2(k);
    if k == 0 {
      ModUnique(layout.Address(base, i), 1, layout.Address(base, i), 0);
    } else {
      if layout.blockSize == 1 { SmallMod(1, m); }
      AlignKeepsPowersOfTwo(layout.os.uintWidth,
        Wrap(layout.os.uintWidth, layout.fixed + layout.WordBytes() * layout.bitmapSize), layout.blockSize, k);
      MultipleOfSmallerPower(layout.os.pageBits, k, base);
      hide Words.Pow2, HeaderFor;
      var h := layout.HeaderSize();
      MultipleOfMultiple(i, layout.blockSize, m);
      SumOfMultiples(base, h, m);
      SumOfMultiples(base + h, i * layout.blockSize, m);
    }
  }
}
