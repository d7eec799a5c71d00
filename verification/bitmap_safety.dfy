/** The bitmap invariant: what each private edit does to the bits and the live blocks. */
module BitmapSafety {
  import opened Runs
  import opened Protocol

  /** Marking a free interval adds a block that overlaps no live one. */
  lemma MarkKeeps(c: Config, bits: map<PageId, Bits>, blocks: set<Block>, b: Block)
    requires c.Valid() && BitmapInv(c, bits, blocks)
    requires b.page in bits && InData(c, b) && Free(bits[b.page], b.offset, b.len)
    ensures forall a | a in blocks :: Disjoint(a, b)
    ensures BitmapInv(c, bits[b.page := Fill(bits[b.page], true, b.offset, b.len)], blocks + {b})
  {
    var p := b.page;
    var bits', blocks' := bits[p := Fill(bits[p], true, b.offset, b.len)], blocks + {b};
    forall a | a in blocks ensures Disjoint(a, b) {
      if !Disjoint(a, b) {
        var u := if a.offset <= b.offset then b.offset else a.offset;
        assert Covered(blocks, p, u);
      }
    }
    forall q, u: nat | q in bits' && u < c.units ensures bits'[q][u] <==> u < c.header || Covered(blocks', q, u) {
      CoveredByOneMore(blocks, b, q, u);
    }
  }

  lemma CoveredByOneMore(blocks: set<Block>, b: Block, p: PageId, u: nat)
    ensures Covered(blocks + {b}, p, u) <==>
            Covered(blocks, p, u) || (b.page == p && b.offset <= u < b.offset + b.len)
  {
    if b.page == p && b.offset <= u < b.offset + b.len { assert b in blocks + {b}; }
    if Covered(blocks, p, u) {
      var a :| a in blocks && a.page == p && a.offset <= u < a.offset + a.len;
      assert a in blocks + {b};
    }
  }

  /** A unit of a live block is covered by no other block. */
  lemma CoveredByOneLess(c: Config, bits: map<PageId, Bits>, blocks: set<Block>, b: Block, p: PageId, u: nat)
    requires BitmapInv(c, bits, blocks) && b in blocks
    ensures Covered(blocks - {b}, p, u) <==>
            Covered(blocks, p, u) && !(b.page == p && b.offset <= u < b.offset + b.len)
  {
    if Covered(blocks - {b}, p, u) {
      var a :| a in blocks - {b} && a.page == p && a.offset <= u < a.offset + a.len;
      assert a in blocks && Disjoint(a, b);
    }
    if Covered(blocks, p, u) && !(b.page == p && b.offset <= u < b.offset + b.len) {
      var a :| a in blocks && a.page == p && a.offset <= u < a.offset + a.len;
      assert a in blocks - {b};
    }
  }

  /** Clearing exactly a live block's bits removes that block and no other. */
  lemma ReleaseKeeps(c: Config, bits: map<PageId, Bits>, blocks: set<Block>, b: Block)
    requires c.Valid() && BitmapInv(c, bits, blocks) && b in blocks
    ensures BitmapInv(c, bits[b.page := Fill(bits[b.page], false, b.offset, b.len)], blocks - {b})
  {
    var bits', blocks' := bits[b.page := Fill(bits[b.page], false, b.offset, b.len)], blocks - {b};
    forall q, u: nat | q in bits' && u < c.units ensures bits'[q][u] <==> u < c.header || Covered(blocks', q, u) {
      CoveredByOneLess(c, bits, blocks, b, q, u);
    }
  }

  /** Resizing is releasing the block and marking it again with the new length. */
  lemma ResizeKeeps(c: Config, bits: map<PageId, Bits>, blocks: set<Block>, b: Block, m: nat)
    requires c.Valid() && BitmapInv(c, bits, blocks) && b in blocks && 0 < m
    requires b.len < m ==> Free(bits[b.page], b.offset + b.len, m - b.len)
    ensures forall a | a in blocks && a != b :: Disjoint(a, b.(len := m))
    ensures b.(len := m) != b ==> b.(len := m) !in blocks
    ensures var page := if m <= b.len then Fill(bits[b.page], false, b.offset + m, b.len - m)
                        else Fill(bits[b.page], true, b.offset + b.len, m - b.len);
            BitmapInv(c, bits[b.page := page], blocks - {b} + {b.(len := m)})
  {
    var p, b' := b.page, b.(len := m);
    var cleared := bits[p := Fill(bits[p], false, b.offset, b.len)];
    var page := if m <= b.len then Fill(bits[p], false, b.offset + m, b.len - m)
                else Fill(bits[p], true, b.offset + b.len, m - b.len);
    ReleaseKeeps(c, bits, blocks, b);
    MarkKeeps(c, cleared, blocks - {b}, b');
    assert Fill(cleared[p], true, b.offset, m) == page by {
      forall u | b.offset <= u < b.offset + b.len ensures bits[p][u] { assert Covered(blocks, p, u); }
    }
    assert cleared[p := page] == bits[p := page];
  }

  lemma NewPageKeeps(c: Config, bits: map<PageId, Bits>, blocks: set<Block>, p: PageId, n: nat)
    requires c.Valid() && BitmapInv(c, bits, blocks) && p !in bits && SizeOk(c, n)
    ensures BitmapInv(c, bits[p := NewBits(c, n)], blocks + {Block(p, c.header, n)})
  {
    var b := Block(p, c.header, n);
    var bits', blocks' := bits[p := NewBits(c, n)], blocks + {b};
    forall q, u: nat | q in bits' && u < c.units ensures bits'[q][u] <==> u < c.header || Covered(blocks', q, u) {
      CoveredByOneMore(blocks, b, q, u);
    }
  }

  /** A page is wholly free exactly when no live block is on it. */
  lemma WhollyFreeIffNoBlocks(c: Config, bits: map<PageId, Bits>, blocks: set<Block>, p: PageId)
    requires c.Valid() && BitmapInv(c, bits, blocks) && p in bits
    ensures Lfb(c, bits, p) == c.MaxData() <==> NoBlocks(blocks, p)
    ensures Lfb(c, bits, p) <= c.MaxData()
  {
    LongestIsWholeIffFree(bits[p], c.header);
    HasFreeIffLongest(bits[p], c.header, 0);
    if b :| b in blocks && b.page == p {
      assert Covered(blocks, p, b.offset);
      assert bits[p][b.offset];
    }
  }
}
