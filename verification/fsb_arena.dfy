/** The fixed-size-block arena: pages with free blocks in one ring, full pages in another. */
module FsbArenas {
  import opened Common
  import opened Words
  import opened Alignment
  import opened Rings
  import opened Runs
  import opened BmPages
  import opened FsbLayouts
  import opened FsbLists
  import opened FsbPages

  /** The pages of an arena by address, as values. */
  type Contents = map<nat, Body>

  ghost predicate BodiesOk(layout: Layout, pages: Contents) {
    && layout.Valid()
    && forall a | a in pages ::
         && a % layout.os.PageSize() == 0 && pages[a].base == a && |pages[a].bitmap| == layout.bitmapSize
         && pages[a].Ok(layout.width, layout.blocksPerPage)
  }

  ghost predicate InUse(layout: Layout, body: Body, i: nat) {
    i < |body.Bits(layout.width)| && body.Bits(layout.width)[i]
  }

  /** The blocks in use, by page and index. */
  ghost function Live(layout: Layout, pages: Contents): set<(nat, nat)> {
    set a, i: nat | a in pages && i < layout.blocksPerPage && InUse(layout, pages[a], i) :: (a, i)
  }

  /** Setting a clear bit takes exactly one block into use. */
  lemma LiveTake(layout: Layout, pages: Contents, a: nat, body: Body, i: nat)
    requires BodiesOk(layout, pages) && a in pages && i < layout.blocksPerPage && !InUse(layout, pages[a], i)
    requires body.Bits(layout.width) == pages[a].Bits(layout.width)[i := true]
    ensures Live(layout, pages[a := body]) == Live(layout, pages) + {(a, i)} && (a, i) !in Live(layout, pages)
  {
    hide BitsOf, Layout.Valid;
    forall b, k: nat
      ensures (b, k) in Live(layout, pages[a := body]) <==> (b, k) in Live(layout, pages) || (b, k) == (a, i)
    {
      if b == a && k < |body.Bits(layout.width)| {
        assert InUse(layout, body, k) <==> InUse(layout, pages[a], k) || k == i;
      }
    }
  }

  /** Clearing a set bit takes exactly one block out of use. */
  lemma LiveGive(layout: Layout, pages: Contents, a: nat, body: Body, i: nat)
    requires BodiesOk(layout, pages) && a in pages && i < layout.blocksPerPage && InUse(layout, pages[a], i)
    requires body.Bits(layout.width) == pages[a].Bits(layout.width)[i := false]
    ensures Live(layout, pages[a := body]) == Live(layout, pages) - {(a, i)}
  {
    hide BitsOf, Layout.Valid;
    forall b, k: nat
      ensures (b, k) in Live(layout, pages[a := body]) <==> (b, k) in Live(layout, pages) && (b, k) != (a, i)
    {
      if b == a && k < |body.Bits(layout.width)| {
        assert InUse(layout, body, k) <==> InUse(layout, pages[a], k) && k != i;
      }
    }
  }

  /** A page whose blocks are all free has none in use, so adding or unmapping it changes nothing for the users. */
  lemma LiveWithout(layout: Layout, pages: Contents, a: nat)
    requires BodiesOk(layout, pages) && a in pages && pages[a].numFree == layout.blocksPerPage
    ensures Live(layout, pages - {a}) == Live(layout, pages)
    ensures BodiesOk(layout, pages - {a})
  {
    hide BitsOf, Layout.Valid, CountSet;
    forall k: nat | k < layout.blocksPerPage ensures !InUse(layout, pages[a], k) {
      if InUse(layout, pages[a], k) { CountSetSome(pages[a].Bits(layout.width), k); }
    }
  }

  lemma {:induction false} CountSetSome(bits: Bits, i: nat)
    requires i < |bits| && bits[i]
    ensures 0 < CountSet(bits)
  {
    if i < |bits| - 1 { CountSetSome(bits[..|bits| - 1], i); }
  }

  /** A page with no block in use may be mapped at a new address. */
  lemma LiveWith(layout: Layout, pages: Contents, a: nat, body: Body)
    requires BodiesOk(layout, pages) && a !in pages && a % layout.os.PageSize() == 0
    requires |body.bitmap| == layout.bitmapSize && body.base == a && body.Ok(layout.width, layout.blocksPerPage)
    requires forall i | 0 <= i < |body.Bits(layout.width)| :: !body.Bits(layout.width)[i]
    ensures Live(layout, pages[a := body]) == Live(layout, pages) && BodiesOk(layout, pages[a := body])
  {
    hide BitsOf, Layout.Valid, CountSet;
    forall i: nat ensures !InUse(layout, body, i) {}
  }

  lemma NewPageFits(layout: Layout, pages: Contents)
    requires BodiesOk(layout, pages)
    ensures 0 < layout.blocksPerPage <= WordStart(layout.width, layout.bitmapSize)
  {
    hide HeaderFor, Words.Pow2, Body.Ok;
    WordStartIsProduct(layout.width, layout.bitmapSize);
  }

  class FsbArena {
    const layout: Layout
    const test: LastPageTest
    var pages: Contents          // the mapped pages
    var avail: seq<nat>          // `avail_pages`, head first
    var full: seq<nat>           // `full_pages`, head first
    var strays: map<nat, nat>    // the pages that no list head reaches, by the ring they are linked in
    var drops: nat

    function View(): Lists
      reads this
    {
      Lists(FreeBlocks(pages), avail, full, strays, drops)
    }

    /** Bitmaps and counters are right, and every page is in one place, listed or lost. */
    ghost predicate Shape()
      reads this
    {
      BodiesOk(layout, pages) && View().Ok(layout.blocksPerPage, test)
    }

    /** No page is lost either. */
    ghost predicate Valid()
      reads this
    {
      Shape() && View().Listed()
    }

    ghost function Used(): set<(nat, nat)>
      reads this
    {
      Live(layout, pages)
    }

    constructor (layout: Layout, test: LastPageTest)
      requires layout.Valid()
      ensures this.layout == layout && this.test == test && Valid() && Used() == {} && View() == Empty()
    {
      this.layout, this.test := layout, test;
      pages, avail, full, strays, drops := map[], [], [], map[], 0;
    }

    /** A newly mapped page, with its bitmap cleaned, joins the available ones. */
    method AddPage(base: nat)
      requires BodiesOk(layout, pages) && base !in pages && base % layout.os.PageSize() == 0
      modifies this
      ensures BodiesOk(layout, pages) && Used() == old(Used())
      ensures View() == old(View()).With(base, layout.blocksPerPage)
    {
      hide Words.Pow2, BitsOf, CountSet, WordStart, HeaderFor, Layout.Valid, Live, Body.Ok, BodiesOk;
      NewPageFits(layout, pages);
      var body := NewBody(base, layout.width, layout.blocksPerPage, layout.bitmapSize);
      LiveWith(layout, pages, base, body);
      FreeBlocksUpdate(pages, base, body);
      pages := pages[base := body];
      avail := [base] + avail;
    }

    /** Takes the lowest free block of the first available page, and files the page when that was its last. */
    method TakeFirst() returns (page: nat, index: nat)
      requires BodiesOk(layout, pages) && avail != [] && avail[0] in View().free && View().free[avail[0]] > 0
      modifies this
      ensures BodiesOk(layout, pages) && View() == old(View()).Take(test)
      ensures page == old(avail)[0] && page in pages && index < layout.blocksPerPage
      ensures (page, index) !in old(Used()) && Used() == old(Used()) + {(page, index)}
    {
      hide Words.Pow2, BitsOf, CountSet, WordStart, HeaderFor, Layout.Valid, Live, Deleted, Body.Ok, BodiesOk;
      page := avail[0];
      var body;
      body, index := TakeBlock(page);
      FreeBlocksUpdate(pages, page, body);
      pages := pages[page := body];
      if body.numFree == 0 {
        strays, avail := View().StraysAfter(test, avail, page), View().Remaining(test, avail, page);
        full, drops := [page] + full, drops + 1;
      }
    }

    /** The page after its lowest free block is taken. */
    method TakeBlock(page: nat) returns (body: Body, index: nat)
      requires BodiesOk(layout, pages) && page in pages && 0 < pages[page].numFree
      ensures index < layout.blocksPerPage && body.numFree == pages[page].numFree - 1
      ensures BodiesOk(layout, pages[page := body])
      ensures (page, index) !in Live(layout, pages)
      ensures Live(layout, pages[page := body]) == Live(layout, pages) + {(page, index)}
    {
      hide Words.Pow2, BitsOf, CountSet, WordStart, HeaderFor, Layout.Valid, Live;
      body, index := TakeBit(layout.width, layout.blocksPerPage, pages[page]);
      LiveTake(layout, pages, page, body, index);
    }

    /** `fsb_arena_allocate`, in any state the code can reach. `mapped` is the system's answer when a page is needed.
        The block is one that was not in use; bitmaps and counters stay right, and every page stays in one place. The
        first page is lost exactly when the as-written test deletes one of two available pages. */
    method Allocate(mapped: Option<nat>) returns (block: Option<nat>, ghost page: nat, ghost index: nat)
      requires Shape()
      requires mapped.Some? ==> mapped.value !in View().free && mapped.value % layout.os.PageSize() == 0
      modifies this
      ensures Shape() && block.None? == (old(avail) == [] && mapped.None?)
      ensures block.None? ==> Used() == old(Used())
      ensures block.Some? ==>
                && page in pages && index < layout.blocksPerPage && block.value == layout.Address(page, index)
                && page == (if old(avail) == [] then mapped.value else old(avail)[0])
                && (page, index) !in old(Used()) && Used() == old(Used()) + {(page, index)}
      ensures old(avail) != [] ==> old(avail)[0] in old(View()).free && old(View()).free[old(avail)[0]] > 0
      ensures View() == old(View()).Allocate(mapped, layout.blocksPerPage, test)
      ensures block.None? ==> pages == old(pages) && avail == old(avail)
      ensures block.Some? ==>
                && pages.Keys == old(pages).Keys + {page}
                && (old(avail) == [] ==> pages[page].numFree == layout.blocksPerPage - 1)
                && (old(avail) != [] ==> page in old(pages) && pages[page].numFree == old(pages)[page].numFree - 1)
                && (forall q | q in old(pages) && q != page :: pages[q].numFree == old(pages)[q].numFree)
                && (pages[page].numFree > 0 ==> avail != [] && avail[0] == page)
                && full == (if pages[page].numFree == 0 then [page] + old(full) else old(full))
      ensures old(Valid()) ==>
                (Valid() <==> !BreaksPair(old(View()), Allocated(mapped), layout.blocksPerPage, test))
    {
      hide Words.Pow2, BitsOf, CountSet, HeaderFor, Live, InUse, Body.Ok, Deleted, Lists.Sorted, BodiesOk, FreeBlocks,
        Layout.Valid, Lists.Take;
      block, page, index := None, 0, 0;
      CountsAre(pages);
      ghost var before := View();
      EventKeeps(View(), Allocated(mapped), layout.blocksPerPage, test);
      if avail == [] {
        if mapped.None? {
          return;
        }
        AddPage(mapped.value);
      }
      var p, i := TakeFirst();
      page, index := p, i;
      LayoutFacts(layout, pages);
      block := Some(layout.Address(p, i));
      before.AllocateCounts(mapped, layout.blocksPerPage, test);
      CountsAre(pages);
    }

    /** `fsb_arena_release`, in any state the code can reach. The block given back is exactly the one whose address is
        passed; a null address is left alone. Bitmaps and counters stay right. `fault` is set when the code follows a
        null list, which it does exactly for the last used block of a page when no page is available. */
    method Release(addr: Option<nat>, pointerWidth: nat, ghost page: nat, ghost index: nat) returns (fault: bool)
      requires Shape()
      requires addr.Some? ==> (page, index) in Used() && addr.value == layout.Address(page, index)
      requires addr.Some? ==> page + layout.os.PageSize() <= Pow2(pointerWidth)
      modifies this
      ensures BodiesOk(layout, pages)
      ensures Used() == if addr.Some? then old(Used()) - {(page, index)} else old(Used())
      ensures addr.None? ==> !fault && View() == old(View())
      ensures addr.Some? ==>
                && Enabled(old(View()), Released(page), layout.blocksPerPage)
                && (fault <==> Faults(old(View()), Released(page), layout.blocksPerPage))
                && (!fault ==> View() == old(View()).Release(page, layout.blocksPerPage, test))
      ensures addr.Some? ==>
                && page in old(pages)
                && (fault <==> old(pages)[page].numFree + 1 == layout.blocksPerPage && old(avail) == [])
      ensures addr.Some? && !fault ==>
                && page in old(pages)
                && (page !in pages <==>
                    && old(pages)[page].numFree + 1 == layout.blocksPerPage
                    && |old(avail)| > if test.NextIsPrev? then 2 else 1)
                && pages.Keys == (if page in pages then old(pages).Keys else old(pages).Keys - {page})
                && (page in pages ==> pages[page].numFree == old(pages)[page].numFree + 1)
                && (forall q | q in old(pages) && q != page :: pages[q].numFree == old(pages)[q].numFree)
                && (old(pages)[page].numFree == 0 && layout.blocksPerPage > 1 ==> avail != [] && avail[0] == page)
      ensures !fault ==> Shape()
      ensures addr.Some? && old(Valid()) ==>
                (!fault && Valid() <==>
                 layout.blocksPerPage > 1 && !BreaksPair(old(View()), Released(page), layout.blocksPerPage, test))
    {
      hide Words.Pow2, BitsOf, CountSet, WordStart, HeaderFor, Layout.Valid, Deleted, BodiesOk, Live, Body.Ok,
        Lists.Sorted, Lists.Release, FreeBlocks;
      fault := false;
      CountsAre(pages);
      if addr.None? {
        return;
      }
      var p, i := Locate(addr.value, pointerWidth, page, index);
      var body := GiveBlock(p, i);
      EventKeeps(View(), Released(p), layout.blocksPerPage, test);
      View().ReleaseCounts(p, layout.blocksPerPage, test);
      CountsAre(pages);
      fault := ReleaseOn(p, body);
      CountsAre(pages);
    }

    /** What `fsb_arena_release` does to the lists once the block is free. */
    method ReleaseOn(p: nat, body: Body) returns (fault: bool)
      requires p in pages && BodiesOk(layout, pages[p := body]) && body.numFree == pages[p].numFree + 1
      modifies this
      ensures BodiesOk(layout, pages) && Used() == old(Live(layout, pages[p := body]))
      ensures fault <==> old(View()).NoHead(p, layout.blocksPerPage)
      ensures !fault ==> View() == old(View()).Release(p, layout.blocksPerPage, test)
    {
      hide Words.Pow2, BitsOf, CountSet, WordStart, HeaderFor, Layout.Valid, Deleted, BodiesOk, Live, Body.Ok,
        Lists.Sorted;
      FreeBlocksUpdate(pages, p, body);
      fault := false;
      pages := pages[p := body];
      if body.numFree == layout.blocksPerPage {
        LiveWithout(layout, pages, p);
        if avail == [] {
          return true;
        }
        if View().MoreAvailable(test) {
          strays, avail := View().StraysAfter(test, avail, p), View().Remaining(test, avail, p);
          pages, drops := pages - {p}, drops + 1;
        }
      } else if body.numFree == 1 {
        strays, full := View().StraysAfter(test, full, p), View().Remaining(test, full, p);
        avail, drops := [p] + avail, drops + 1;
      }
    }

    /** The page after one of its blocks is given back. */
    method GiveBlock(p: nat, i: nat) returns (body: Body)
      requires BodiesOk(layout, pages) && p in pages && i < layout.blocksPerPage && InUse(layout, pages[p], i)
      ensures body.numFree == pages[p].numFree + 1 <= layout.blocksPerPage
      ensures BodiesOk(layout, pages[p := body])
      ensures Live(layout, pages[p := body]) == Live(layout, pages) - {(p, i)}
    {
      hide Words.Pow2, BitsOf, CountSet, WordStart, HeaderFor, Layout.Valid, Live;
      body := GiveBit(layout.width, layout.blocksPerPage, pages[p], i);
      LiveGive(layout, pages, p, body, i);
    }

    /** The page of a block, and the number of the block on it. */
    method Locate(addr: nat, pointerWidth: nat, ghost page: nat, ghost index: nat) returns (p: nat, i: nat)
      requires BodiesOk(layout, pages) && (page, index) in Used() && addr == layout.Address(page, index)
      requires page + layout.os.PageSize() <= Pow2(pointerWidth)
      ensures p == page && i == index && p in pages && i < layout.blocksPerPage && InUse(layout, pages[p], i)
    {
      hide Words.Pow2, Words.And, BitsOf, CountSet, HeaderFor, Body.Ok, MaskDown;
      AddressRecovers(layout, pointerWidth, page, index);
      BlockInPage(layout, page, index);
      p := MaskDown(pointerWidth, addr, layout.os.PageSize());
      i := (addr - p - layout.HeaderSize()) / layout.blockSize;
    }
  }

  function FreeBlocks(pages: Contents): map<nat, nat> {
    map a | a in pages :: pages[a].numFree
  }

  lemma LayoutFacts(layout: Layout, pages: Contents)
    requires BodiesOk(layout, pages)
    ensures layout.Valid() && layout.blockSize < Pow2(layout.os.uintWidth)
  {
    hide Body.Ok, HeaderFor;
  }

  lemma CountsAre(pages: Contents)
    ensures FreeBlocks(pages).Keys == pages.Keys
    ensures forall a | a in pages :: FreeBlocks(pages)[a] == pages[a].numFree
  {
  }

  lemma FreeBlocksUpdate(pages: Contents, a: nat, body: Body)
    ensures FreeBlocks(pages[a := body]) == FreeBlocks(pages)[a := body.numFree]
    ensures FreeBlocks(pages[a := body] - {a}) == FreeBlocks(pages) - {a}
  {
  }
}
