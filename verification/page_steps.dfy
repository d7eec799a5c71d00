/** The private steps of the protocol, done word by word on the bitmap of a page. */
module PageSteps {
  import opened Common
  import opened Runs
  import opened BmPages
  import opened Protocol

  /** The page object holds the bitmap that the state has for the page. */
  ghost predicate Represents(page: BmPage, c: Config, bits: Bits)
    reads page.bitmap
  {
    page.Valid() && page.header == c.header && page.Units() == c.units && page.Bits() == bits
  }

  /** `bm_grow` between taking the page and handing it back: all units behind the block are marked, or nothing. */
  method Extend(page: BmPage, offset: nat, oldUnits: nat, newUnits: nat) returns (ok: bool)
    requires page.Valid() && oldUnits <= newUnits && offset + oldUnits <= page.Units()
    modifies page.bitmap
    ensures page.Valid() && (ok <==> Free(old(page.Bits()), offset + oldUnits, newUnits - oldUnits))
    ensures ok ==> offset + newUnits <= page.Units()
    ensures page.Bits() ==
            if ok then Fill(old(page.Bits()), true, offset + oldUnits, newUnits - oldUnits) else old(page.Bits())
  {
    var increment := newUnits - oldUnits;
    var length := page.CountBits(false, offset + oldUnits, increment);
    if length < increment {
      return false;
    }
    page.PutBits(true, offset + oldUnits, increment);
    return true;
  }

  /** The thread that holds a page does its next private step on the words of the bitmap. Bitmap and position are then
      those of the protocol's step. */
  method PrivateStep(c: Config, pc: Pc, page: BmPage, ghost s: State) returns (next: Pc)
    requires pc.ScanLru? || pc.ScanSuper? || pc.Mark? || pc.Edit?
    requires c.header < c.units && Safe(c, s, pc) && Represents(page, c, s.bits[Holds(pc).value])
    modifies page.bitmap
    ensures var (s', pc') := Advanced(c, s, pc, None, false);
            next == pc' && Holds(pc).value in s'.bits && Represents(page, c, s'.bits[Holds(pc).value])
  {
    hide Runs.FirstFit, Runs.LongestFree, Runs.Free, Runs.Fill, BmPages.BitsOf, WordStart;
    match pc {
      case ScanLru(n, p) =>
        var offset := page.FindFreeBlock(n);
        if offset != 0 {
          return Mark(n, p, offset);
        }
        var lfb := page.FindLongestFreeBlock();
        return AddSuper(n, p, lfb);
      case ScanSuper(n, p) =>
        var offset := page.FindFreeBlock(n);
        return if offset != 0 then Mark(n, p, offset) else Aborted;
      case Mark(n, p, offset) =>
        page.PutBits(true, offset, n);
        return Unhand(p, Some(Block(p, offset, n)));
      case Edit(op, b) =>
        match op {
          case Release =>
            page.PutBits(false, b.offset, b.len);
            return Unhand(b.page, None);
          case Shrink(m) =>
            page.PutBits(false, b.offset + m, b.len - m);
            return Unhand(b.page, Some(b.(len := m)));
          case Grow(m) =>
            var ok := Extend(page, b.offset, b.len, m);
            return Unhand(b.page, Some(if ok then b.(len := m) else b));
        }
    }
  }

  /** A page fresh from the system, whatever it contained, becomes the page of the protocol's step. */
  method MapStep(c: Config, n: nat, page: BmPage, p: PageId, ghost s: State) returns (next: Pc)
    requires Safe(c, s, MapPage(n)) && page.Valid() && page.header == c.header && page.Units() == c.units
    modifies page.bitmap
    ensures var (s', pc') := Advanced(c, s, MapPage(n), Some(p), false);
            next == pc' && p in s'.bits && Represents(page, c, s'.bits[p])
  {
    page.InitBitmap(n);
    assert page.Bits() == NewBits(c, n);
    return Unhand(p, Some(Block(p, c.header, n)));
  }

  /** What `unhand_page` decides about the page it replaces. */
  method ReplacedPage(c: Config, page: BmPage, q: PageId, ghost s: State) returns (keep: bool, lfb: nat)
    requires s.lru == Some(q) && q in s.bits && Represents(page, c, s.bits[q])
    ensures lfb == Lfb(c, s.bits, q)
    ensures keep <==> lfb < c.MaxData()
    ensures !keep <==> Free(s.bits[q], c.header, c.units - c.header)
  {
    lfb := page.FindLongestFreeBlock();
    LongestIsWholeIffFree(s.bits[q], c.header);
    HasFreeIffLongest(s.bits[q], c.header, lfb);
    keep := lfb < c.MaxData();
  }
}
