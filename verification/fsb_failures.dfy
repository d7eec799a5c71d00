/** Arenas in which the code as written loses pages or follows a null list. */
module FsbFailures {
  import opened Common
  import opened Words
  import opened Alignment
  import opened Rings
  import opened FsbLayouts
  import opened FsbArenas
  import opened FsbLists

  /** Blocks of 2048 bytes on pages of 4096: one block per page. */
  function OneBlock(): Layout { Layout(Platform(32, 12), 32, 64, 2048, 1, 1) }

  /** Blocks of 1024 bytes on pages of 4096: three blocks per page. */
  function ThreeBlocks(): Layout { Layout(Platform(32, 12), 32, 64, 1024, 3, 1) }

  lemma SmallPages()
    ensures Pow2(10) == 1024 && Pow2(11) == 2048 && Pow2(12) == 4096 && 16384 <= Pow2(32) && 16384 <= Pow2(64)
  {
    assert Pow2(14) == 16384;
    Pow2Monotone(14, 32);
    Pow2Monotone(14, 64);
  }

  /** A header of 40 bytes takes one block of 2^k bytes. */
  lemma OneBlockHeader(k: nat)
    requires 10 <= k <= 11
    ensures 0 < Pow2(k) < Pow2(32) && HeaderFor(32, 32, 8, Pow2(k), 1) == Pow2(k)
  {
    SmallPages();
    hide Words.Pow2, AlignUnsigned, RoundUp;
    var size := Pow2(k);
    AlignToPow2(32, 40, k);
    ModUnique(size, size, 1, 0);
    RoundUpIsLeast(40, size, size);
    MultiplesApart(0, RoundUp(40, size), size);
  }

  lemma OneBlockValid()
    ensures OneBlock().Valid()
  {
    SmallPages();
    OneBlockHeader(11);
    hide Words.Pow2, HeaderFor;
  }

  lemma ThreeBlocksValid()
    ensures ThreeBlocks().Valid()
  {
    SmallPages();
    OneBlockHeader(10);
    hide Words.Pow2, HeaderFor;
  }

  /** The lists after the first block of a new page is taken and no other page is available. */
  lemma FirstTaken(lists: Lists, a: nat, blocks: nat, test: LastPageTest)
    requires lists.avail == [] && 1 < blocks
    ensures lists.Allocate(Some(a), blocks, test) == lists.(free := lists.free[a := blocks - 1], avail := [a])
  {
    assert [a] + lists.avail == [a];
    assert lists.free[a := blocks][a := blocks - 1] == lists.free[a := blocks - 1];
  }

  /** The lists after the last block of the only available page is taken. */
  lemma LastTaken(lists: Lists, a: nat, blocks: nat, test: LastPageTest)
    requires lists.avail == [a] && a in lists.free && lists.free[a] == 1 && a !in lists.strays && 0 < blocks
    ensures lists.Allocate(None, blocks, test) ==
            Lists(lists.free[a := 0], [], [a] + lists.full, lists.strays, lists.drops + 1)
  {
    DeletedCases(test, [a], a, false);
    assert lists.StraysAfter(test, [a], a) == lists.strays;
  }

  /** With one block per page, releasing the only block follows a null list, with either deletion test. */
  method OneBlockPerPage(test: LastPageTest) returns (arena: FsbArena, fault: bool)
    ensures arena.layout == OneBlock() && fault
  {
    SmallPages();
    OneBlockValid();
    hide Words.Pow2, HeaderFor, Layout.Valid, BodiesOk, Live, Deleted, Lists.Sorted;
    arena := new FsbArena(OneBlock(), test);
    assert 4096 % 4096 == 0;
    LastTaken(arena.View().With(4096, 1), 4096, 1, test);
    var block, page, index := arena.Allocate(Some(4096));
    assert arena.View().avail == [] && arena.View().free[4096] == 0;
    fault := arena.Release(block, 64, page, index);
  }

  /** The lists when the page at 4096 is full and there is no other. */
  function PageFull(): Lists { Lists(map[4096 := 0], [], [4096], map[], 1) }

  /** An arena whose first page, at 4096, is full; `block` is one of its blocks. */
  method OneFullPage() returns (arena: FsbArena, block: Option<nat>, ghost index: nat)
    ensures fresh(arena) && arena.Valid() && arena.layout == ThreeBlocks() && arena.test == NextIsPrev
    ensures arena.View() == PageFull()
    ensures block == Some(arena.layout.Address(4096, index)) && (4096, index) in arena.Used()
  {
    SmallPages();
    ThreeBlocksValid();
    hide Words.Pow2, HeaderFor, Layout.Valid, BodiesOk, Live, Deleted, Lists.Sorted;
    arena := new FsbArena(ThreeBlocks(), NextIsPrev);
    assert 4096 % 4096 == 0;
    FirstTaken(arena.View(), 4096, 3, NextIsPrev);
    ghost var page, other;
    block, page, index := arena.Allocate(Some(4096));
    var second, third;
    second, page, other := arena.Allocate(None);
    assert arena.View() == Lists(map[4096 := 1], [4096], [], map[], 0);
    LastTaken(arena.View(), 4096, 3, NextIsPrev);
    third, page, other := arena.Allocate(None);
    assert [4096] + [] == [4096];
  }

  /** Two available pages, one of which has one free block: taking it loses the other page, at 8192, with `block` still
      in use on it. */
  method AvailablePair() returns (arena: FsbArena, block: Option<nat>, ghost index: nat)
    ensures fresh(arena) && arena.Shape() && arena.layout == ThreeBlocks()
    ensures arena.View() == Lists(map[4096 := 0, 8192 := 2], [], [4096], map[8192 := 2], 3)
    ensures block == Some(arena.layout.Address(8192, index)) && (8192, index) in arena.Used()
  {
    var first, more;
    ghost var page, other, i;
    arena, first, i := OneFullPage();
    SmallPages();
    hide Words.Pow2, HeaderFor, Layout.Valid, BodiesOk, Live, Lists.Sorted, Deleted;
    assert 8192 % 4096 == 0;
    FirstTaken(arena.View(), 8192, 3, NextIsPrev);
    block, page, index := arena.Allocate(Some(8192));
    GivenBack();
    assert arena.View() == OneOfEach();
    var fault := arena.Release(first, 64, 4096, i);
    PairTaken();
    more, page, other := arena.Allocate(None);
  }

  /** The lists with a full page at 4096 and an available one at 8192. */
  function OneOfEach(): Lists { Lists(map[4096 := 0, 8192 := 2], [8192], [4096], map[], 1) }

  /** The lists with two available pages. */
  function TwoAvailable(): Lists { Lists(map[4096 := 1, 8192 := 2], [4096, 8192], [], map[], 2) }

  lemma GivenBack()
    ensures OneOfEach().Release(4096, 3, NextIsPrev) == TwoAvailable()
  {
    DeletedCases(NextIsPrev, [4096], 4096, false);
    assert [4096] + [8192] == [4096, 8192];
    assert OneOfEach().StraysAfter(NextIsPrev, [4096], 4096) == map[];
  }

  lemma PairTaken()
    ensures TwoAvailable().Allocate(None, 3, NextIsPrev) ==
            Lists(map[4096 := 0, 8192 := 2], [], [4096], map[8192 := 2], 3)
  {
    PairDeleted(TwoAvailable(), [4096, 8192], 4096, 8192);
    assert [4096] + [] == [4096];
  }

  /** Deleting one of two, as written, empties the list and loses the other. */
  lemma PairDeleted(lists: Lists, list: seq<nat>, a: nat, b: nat)
    requires lists.strays == map[] && a != b && (list == [a, b] || list == [b, a])
    ensures lists.Remaining(NextIsPrev, list, a) == []
    ensures lists.StraysAfter(NextIsPrev, list, a) == map[b := lists.drops]
  {
  }

  /** Three blocks per page, and a null list all the same: the only block of the lost page is released while no page is
      available. */
  method LostPageFaults() returns (arena: FsbArena, fault: bool)
    ensures arena.layout == ThreeBlocks() && fault
  {
    var block;
    ghost var index;
    arena, block, index := AvailablePair();
    SmallPages();
    hide Words.Pow2, HeaderFor, Layout.Valid, BodiesOk, Live, Lists.Sorted;
    fault := arena.Release(block, 64, 8192, index);
  }

  /** The lists with two full pages. */
  function TwoFull(): Lists { Lists(map[4096 := 0, 8192 := 0], [], [8192, 4096], map[], 2) }

  lemma SecondFilled()
    ensures OneOfEach().Allocate(None, 3, NextIsPrev).Allocate(None, 3, NextIsPrev) == TwoFull()
    ensures OneOfEach().Allocate(None, 3, NextIsPrev).avail == [8192]
  {
    var one := Lists(map[4096 := 0, 8192 := 1], [8192], [4096], map[], 1);
    assert OneOfEach().Allocate(None, 3, NextIsPrev) == one;
    LastTaken(one, 8192, 3, NextIsPrev);
    assert [8192] + [4096] == [8192, 4096];
  }

  lemma OtherFullLost()
    ensures TwoFull().Release(4096, 3, NextIsPrev) == Lists(map[4096 := 1, 8192 := 0], [4096], [], map[8192 := 2], 3)
  {
    PairDeleted(TwoFull(), [8192, 4096], 4096, 8192);
    assert [4096] + [] == [4096];
  }

  /** Two full pages: giving a block of one back loses the other. */
  method FullPair() returns (arena: FsbArena)
    ensures arena.Shape() && arena.View() == Lists(map[4096 := 1, 8192 := 0], [4096], [], map[8192 := 2], 3)
  {
    var block, more;
    ghost var page, index, other;
    arena, block, index := OneFullPage();
    SmallPages();
    hide Words.Pow2, HeaderFor, Layout.Valid, BodiesOk, Live, Lists.Sorted, Deleted, Lists.Allocate, Lists.Release;
    assert 8192 % 4096 == 0;
    FirstTaken(arena.View(), 8192, 3, NextIsPrev);
    more, page, other := arena.Allocate(Some(8192));
    assert arena.View() == OneOfEach();
    SecondFilled();
    OtherFullLost();
    more, page, other := arena.Allocate(None);
    more, page, other := arena.Allocate(None);
    var fault := arena.Release(block, 64, 4096, index);
  }
}
