/** The region arena: a chain of mapped regions, each handing out memory by moving its tail. */
module Arenas {
  import opened Common
  import opened Words
  import opened Alignment

  /** What the platform decides: `offsetof(Arena, first)`, since an arena embeds its first region; `offsetof(Region,
      data)`; and the largest alignment a caller may ask for, as a power of two. */
  datatype Offsets = Offsets(os: Platform, first: nat, data: nat, maxAlignBits: nat) {
    ghost predicate Valid() { os.Valid() && maxAlignBits <= os.pageBits && data < os.PageSize() }
  }

  /** A region as a value: its address, the offset of its data, how much of it is handed out, and how much it has. */
  datatype Extent = Extent(addr: nat, data: nat, tail: nat, capacity: nat) {
    function Start(): nat { addr + data }
    function End(): nat { addr + data + capacity }
  }

  datatype Block = Block(addr: nat, size: nat)

  predicate Disjoint(a: Block, b: Block) {
    a.addr + a.size <= b.addr || b.addr + b.size <= a.addr
  }

  ghost predicate Apart(e: Extent, f: Extent) {
    e.End() <= f.addr || f.End() <= e.addr
  }

  /** Regions do not overlap, and hand out no more than they have. */
  ghost predicate ExtentsOk(es: seq<Extent>) {
    && (forall i | 0 <= i < |es| :: es[i].tail <= es[i].capacity)
    && (forall i, j | 0 <= i < j < |es| :: Apart(es[i], es[j]))
  }

  ghost predicate HandedOut(e: Extent, b: Block) {
    e.Start() <= b.addr && b.addr + b.size <= e.Start() + e.tail
  }

  /** Every block is in the handed-out part of a region, and blocks do not overlap. */
  ghost predicate BlocksOk(es: seq<Extent>, blocks: set<Block>) {
    && (forall b | b in blocks :: b.size > 0 && exists i | 0 <= i < |es| :: HandedOut(es[i], b))
    && (forall a, b | a in blocks && b in blocks && a != b :: Disjoint(a, b))
  }

  /** Handing out memory beyond the tail of a region. */
  lemma HandOutKeeps(es: seq<Extent>, blocks: set<Block>, i: nat, start: nat, size: nat)
    requires ExtentsOk(es) && BlocksOk(es, blocks) && i < |es| && 0 < size
    requires es[i].tail <= start && start + size <= es[i].capacity
    ensures var b := Block(es[i].Start() + start, size);
            var es' := es[i := es[i].(tail := start + size)];
            && (forall a | a in blocks :: Disjoint(a, b)) && b !in blocks
            && ExtentsOk(es') && BlocksOk(es', blocks + {b})
  {
    var b, es' := Block(es[i].Start() + start, size), es[i := es[i].(tail := start + size)];
    forall a | a in blocks ensures Disjoint(a, b) && exists j | 0 <= j < |es'| :: HandedOut(es'[j], a) {
      var j :| 0 <= j < |es| && HandedOut(es[j], a);
      assert HandedOut(es'[j], a);
      if j < i { assert Apart(es[j], es[i]); } else if i < j { assert Apart(es[i], es[j]); }
    }
    assert HandedOut(es'[i], b);
    forall j, k | 0 <= j < k < |es'| ensures Apart(es'[j], es'[k]) { assert Apart(es[j], es[k]); }
  }

  lemma AppendKeeps(es: seq<Extent>, blocks: set<Block>, e: Extent)
    requires ExtentsOk(es) && BlocksOk(es, blocks) && e.tail <= e.capacity
    requires NewExtent(es, e)
    ensures ExtentsOk(es + [e]) && BlocksOk(es + [e], blocks)
  {
    forall b | b in blocks ensures exists j | 0 <= j < |es + [e]| :: HandedOut((es + [e])[j], b) {
      var j :| 0 <= j < |es| && HandedOut(es[j], b);
      assert HandedOut((es + [e])[j], b);
    }
  }

  /** An extent that no region of the arena overlaps. */
  ghost predicate NewExtent(es: seq<Extent>, e: Extent) {
    forall i | 0 <= i < |es| :: Apart(es[i], e)
  }

  /** The capacity that `create_region` gives a region asked to hold `capacity` bytes. */
  function RoomFor(sizes: Offsets, capacity: nat): (room: nat)
    ensures capacity <= room
  {
    RoundUp(capacity + sizes.data, sizes.os.PageSize()) - sizes.data
  }

  /** A region with `header` bytes in front of its memory holds `capacity` bytes in the fewest whole pages. */
  ghost predicate SizedFor(sizes: Offsets, e: Extent, header: nat, capacity: nat) {
    && capacity <= e.capacity && (e.capacity + header) % sizes.os.PageSize() == 0
    && e.capacity < capacity + sizes.os.PageSize()
  }

  /** Whole pages that do not wrap leave a page below the wrap. */
  lemma PagesFit(os: Platform, n: nat)
    requires os.Valid() && os.Fits(n)
    ensures RoundUp(n, os.PageSize()) + os.PageSize() <= Pow2(os.uintWidth)
  {
    var p, limit := os.PageSize(), Pow2(os.uintWidth);
    if os.uintWidth < os.pageBits { Pow2Monotone(os.uintWidth, os.pageBits); }
    ModUnique(limit, limit, 1, 0);
    MultipleOfSmallerPower(os.uintWidth, os.pageBits, limit);
    hide Words.Pow2, RoundUp;
    MultipleIsProduct(limit, p);
    ModUnique(limit - p, p, limit / p - 1, 0);
    RoundUpIsLeast(n, p, limit - p);
  }

  /** Where `region_alloc` would put a block; it has room when the block ends within the capacity. */
  function StartFor(width: nat, data: nat, tail: nat, alignment: nat): int
    requires alignment < Pow2(width)
  {
    AlignUnsigned(width, Wrap(width, tail + data), alignment) - data
  }

  predicate HasRoom(width: nat, e: Extent, size: nat, alignment: nat)
    requires alignment < Pow2(width)
  {
    var start := StartFor(width, e.data, e.tail, alignment);
    start < e.capacity && start + size <= e.capacity
  }

  /** A power of two up to the largest alignment. */
  ghost predicate AlignmentOk(sizes: Offsets, alignment: nat)
    ensures AlignmentOk(sizes, alignment) ==> 0 < alignment
  {
    exists k: nat :: k <= sizes.maxAlignBits && alignment == Pow2(k)
  }

  lemma AlignmentFits(sizes: Offsets, alignment: nat)
    requires sizes.Valid() && AlignmentOk(sizes, alignment)
    ensures 0 < alignment <= sizes.os.PageSize() && alignment < Pow2(sizes.os.uintWidth)
    ensures sizes.os.PageSize() % alignment == 0
  {
    var k: nat :| k <= sizes.maxAlignBits && alignment == Pow2(k);
    Pow2Monotone(k, sizes.os.pageBits);
    ModUnique(sizes.os.PageSize(), sizes.os.PageSize(), 1, 0);
    MultipleOfSmallerPower(sizes.os.pageBits, k, sizes.os.PageSize());
  }

  /** The offset in the region is the tail rounded up, so a block is aligned exactly when its region is. */
  lemma StartAligned(sizes: Offsets, tail: nat, alignment: nat, addr: nat)
    requires sizes.Valid() && AlignmentOk(sizes, alignment)
    requires tail + sizes.data + sizes.os.PageSize() <= Pow2(sizes.os.uintWidth)
    ensures alignment < Pow2(sizes.os.uintWidth)
    ensures var start := StartFor(sizes.os.uintWidth, sizes.data, tail, alignment);
            && tail <= start == RoundUp(tail + sizes.data, alignment) - sizes.data < tail + alignment
            && ((addr + sizes.data + start) % alignment == 0 <==> addr % alignment == 0)
  {
    AlignmentFits(sizes, alignment);
    var width, offset := sizes.os.uintWidth, tail + sizes.data;
    var k: nat :| k <= sizes.maxAlignBits && alignment == Pow2(k);
    AlignToPow2(width, offset, k);
    hide Words.Pow2, AlignUnsigned;
    AlignedWithBase(addr, RoundUp(offset, alignment), alignment);
  }

  lemma AlignedWithBase(addr: nat, offset: nat, alignment: nat)
    requires 0 < alignment && offset % alignment == 0
    ensures (addr + offset) % alignment == 0 <==> addr % alignment == 0
  {
    MultipleIsProduct(offset, alignment);
    if addr % alignment == 0 { SumOfMultiples(addr, offset, alignment); }
    if (addr + offset) % alignment == 0 {
      MultipleIsProduct(addr + offset, alignment);
      ModUnique(addr, alignment, (addr + offset) / alignment - offset / alignment, 0);
    }
  }

  /** A region refuses a block only when no block of that size, at an offset that is a multiple of the alignment, fits
      behind its tail. */
  lemma HasRoomIffSomeStartFits(sizes: Offsets, e: Extent, size: nat, alignment: nat)
    requires sizes.Valid() && AlignmentOk(sizes, alignment) && e.data == sizes.data && 0 < size
    requires e.tail + sizes.data + sizes.os.PageSize() <= Pow2(sizes.os.uintWidth)
    ensures alignment < Pow2(sizes.os.uintWidth)
    ensures HasRoom(sizes.os.uintWidth, e, size, alignment) <==> exists start: nat :: FitsAt(e, start, size, alignment)
  {
    hide Words.Pow2, AlignUnsigned, AlignmentOk, StartFor, Wrap, RoundUp;
    StartAligned(sizes, e.tail, alignment, e.addr);
    if HasRoom(sizes.os.uintWidth, e, size, alignment) {
      assert FitsAt(e, StartFor(sizes.os.uintWidth, e.data, e.tail, alignment), size, alignment);
    }
    if start: nat :| FitsAt(e, start, size, alignment) {
      RoundUpIsLeast(e.tail + e.data, alignment, start + e.data);
    }
  }

  ghost predicate FitsAt(e: Extent, start: nat, size: nat, alignment: nat)
    requires 0 < alignment
  {
    e.tail <= start && start + size <= e.capacity && (start + e.data) % alignment == 0
  }

  /** The region that `new_region_alloc` makes for a block. */
  function FreshRegion(sizes: Offsets, addr: nat, size: nat, capacity: nat): Extent {
    Extent(addr, sizes.data, 0, RoomFor(sizes, Max(size, capacity)))
  }

  /** A fresh region has room for the block it is made for, whatever the size, if and only if its data is at a multiple
      of the alignment. Otherwise a block that fills it exactly is refused. */
  lemma FreshHasRoomIff(sizes: Offsets, alignment: nat)
    requires sizes.Valid() && AlignmentOk(sizes, alignment)
    ensures alignment < Pow2(sizes.os.uintWidth)
    ensures (forall addr: nat, size: nat, capacity: nat | 0 < size && sizes.os.Fits(Max(size, capacity) + sizes.data) ::
               HasRoom(sizes.os.uintWidth, FreshRegion(sizes, addr, size, capacity), size, alignment))
            <==> sizes.data % alignment == 0
  {
    AlignmentFits(sizes, alignment);
    hide Words.Pow2, AlignmentOk, HasRoom, RoundUp;
    if sizes.data % alignment == 0 {
      forall addr: nat, size: nat, capacity: nat | 0 < size && sizes.os.Fits(Max(size, capacity) + sizes.data)
        ensures HasRoom(sizes.os.uintWidth, FreshRegion(sizes, addr, size, capacity), size, alignment)
      {
        FreshRoom(sizes, addr, size, capacity, alignment);
      }
    } else {
      FilledExactly(sizes, alignment);
    }
  }

  lemma FreshRoom(sizes: Offsets, addr: nat, size: nat, capacity: nat, alignment: nat)
    requires sizes.Valid() && AlignmentOk(sizes, alignment) && sizes.data % alignment == 0
    requires 0 < size && sizes.os.Fits(Max(size, capacity) + sizes.data)
    ensures alignment < Pow2(sizes.os.uintWidth)
    ensures HasRoom(sizes.os.uintWidth, FreshRegion(sizes, addr, size, capacity), size, alignment)
  {
    hide Words.Pow2, AlignUnsigned, AlignmentOk, StartFor, RoundUp;
    StartAligned(sizes, 0, alignment, addr);
    RoundUpIsLeast(sizes.data, alignment, sizes.data);
  }

  /** A block that fills a page behind the region header. */
  lemma FilledExactly(sizes: Offsets, alignment: nat)
    requires sizes.Valid() && AlignmentOk(sizes, alignment) && sizes.data % alignment != 0
    ensures alignment < Pow2(sizes.os.uintWidth)
    ensures var size: nat := sizes.os.PageSize() - sizes.data;
            && 0 < size && sizes.os.Fits(Max(size, 0) + sizes.data)
            && !HasRoom(sizes.os.uintWidth, FreshRegion(sizes, 0, size, 0), size, alignment)
  {
    hide Words.Pow2, AlignUnsigned, AlignmentOk, StartFor, RoundUp;
    var page := sizes.os.PageSize();
    StartAligned(sizes, 0, alignment, 0);
    ModUnique(page, page, 1, 0);
    RoundUpIsLeast(page, page, page);
    assert RoundUp(sizes.data, alignment) != sizes.data;
  }

  datatype Mapping = Mapping(addr: nat, size: nat)

  class Region {
    const addr: nat
    const capacity: nat
    var next: Region?
    var tail: nat

    constructor (addr: nat, capacity: nat)
      ensures this.addr == addr && this.capacity == capacity && next == null && tail == 0
    {
      this.addr, this.capacity, next, tail := addr, capacity, null, 0;
    }

    function View(data: nat): Extent
      reads this`tail
    {
      Extent(addr, data, tail, capacity)
    }
  }

  class Arena {
    const sizes: Offsets
    const first: Region
    var last: Region
    var newRegionCapacity: nat
    ghost var chain: seq<Region>      // the regions from `first` along `next`
    ghost var mappings: seq<Mapping>  // what the system mapped for them
    ghost var blocks: set<Block>      // every block handed out

    ghost function Extents(): seq<Extent>
      reads this`chain, chain
    {
      var c, data := chain, sizes.data;
      seq(|c|, i requires 0 <= i < |c| reads c => c[i].View(data))
    }

    /** The chain starts at `first`, follows `next`, and ends at `last`; so it has no cycle. */
    ghost predicate Linked()
      reads this`chain, this`last, chain`next
    {
      && chain != [] && chain[0] == first && chain[|chain| - 1] == last
      && (forall i {:trigger chain[i].next} | 0 <= i < |chain| ::
            chain[i].next == if i + 1 < |chain| then chain[i + 1] else null)
      && (forall i, j | 0 <= i < j < |chain| :: chain[i] != chain[j])
    }

    /** The capacity and the header of a region make up its mapping, which starts a page; the first region shares its
        mapping with the arena's own header. */
    ghost predicate Sized()
      reads this`chain, this`mappings
    {
      && sizes.Valid() && |mappings| == |chain|
      && (forall i | 0 <= i < |chain| ::
            && mappings[i].addr % sizes.os.PageSize() == 0
            && chain[i].capacity + sizes.data + sizes.os.PageSize() <= Pow2(sizes.os.uintWidth))
      && (forall i | 0 < i < |chain| :: mappings[i] == Mapping(chain[i].addr, chain[i].capacity + sizes.data))
      && (|chain| > 0 ==>
            && chain[0].addr == mappings[0].addr + sizes.first
            && chain[0].capacity + sizes.first + sizes.data == mappings[0].size)
    }

    ghost predicate Valid()
      reads this`chain, this`last, this`mappings, this`blocks, chain
    {
      Linked() && Sized() && ExtentsOk(Extents()) && BlocksOk(Extents(), blocks)
    }

    /** `create_arena`, in a mapping at `base`. */
    constructor (sizes: Offsets, base: nat, capacity: nat)
      requires sizes.Valid() && sizes.os.Fits(capacity + sizes.first + sizes.data) && base % sizes.os.PageSize() == 0
      ensures this.sizes == sizes && newRegionCapacity == capacity && Valid() && blocks == {}
      ensures Extents() == [FirstExtent(sizes, base, capacity)] && first == last
      ensures SizedFor(sizes, Extents()[0], sizes.first + sizes.data, capacity)
      ensures fresh(first)
    {
      hide Words.Pow2, RoundUp, ExtentsOk, BlocksOk, Platform.Valid, Platform.Fits;
      FirstExtentOk(sizes, base, capacity);
      var memSize := sizes.os.AlignToPage(capacity + sizes.first + sizes.data);
      this.sizes := sizes;
      var region := new Region(base + sizes.first, memSize - (sizes.first + sizes.data));
      first, last, newRegionCapacity := region, region, capacity;
      chain, blocks := [region], {};
      mappings := [Mapping(base, memSize)];
      new;
      assert Extents() == [FirstExtent(sizes, base, capacity)];
    }

    /** `region_alloc`: hands out memory beyond the tail exactly when the region has room. The block is aligned in every
        region but the first, and there exactly when the place of the first region in the arena is. */
    method RegionAlloc(region: Region, size: nat, alignment: nat, ghost i: nat) returns (r: Option<nat>)
      requires Valid() && i < |chain| && region == chain[i] && 0 < size && AlignmentOk(sizes, alignment)
      modifies region`tail, this`blocks
      ensures Valid() && alignment < Pow2(sizes.os.uintWidth)
      ensures r.Some? <==> HasRoom(sizes.os.uintWidth, old(region.View(sizes.data)), size, alignment)
      ensures r.None? ==> Extents() == old(Extents()) && blocks == old(blocks)
      ensures r.Some? ==>
                && Granted(old(blocks), r.value, size) && Placed(old(Extents()), i, r.value, size, alignment)
                && (r.value % alignment == 0 <==> i > 0 || sizes.first % alignment == 0)
    {
      hide Words.Pow2, AlignUnsigned, AlignmentOk, StartFor, Wrap, RoundUp, BlocksOk, ExtentsOk, Disjoint, Linked,
        Sized, Offsets.Valid, Valid;
      RegionFacts(i, alignment);
      StartAligned(sizes, region.tail, alignment, region.addr);
      var start := StartFor(sizes.os.uintWidth, sizes.data, region.tail, alignment);
      if start >= region.capacity {
        return None;
      }
      var available := region.capacity - start;
      if size > available {
        return None;
      }
      r := HandOut(region, start, size, i);
    }

    lemma ChainAt(i: nat)
      requires Valid() && i < |chain|
      ensures |Extents()| == |chain| && Extents()[i] == chain[i].View(sizes.data)
      ensures forall j | 0 <= j < |chain| && j != i :: chain[j] != chain[i]
    {
    }

    lemma RegionFacts(i: nat, alignment: nat)
      requires Valid() && i < |chain| && AlignmentOk(sizes, alignment)
      ensures sizes.Valid() && chain[i].tail <= chain[i].capacity
      ensures chain[i].capacity + sizes.data + sizes.os.PageSize() <= Pow2(sizes.os.uintWidth)
      ensures Extents()[i] == chain[i].View(sizes.data)
      ensures chain[i].addr % alignment == 0 <==> i > 0 || sizes.first % alignment == 0
    {
      hide Words.Pow2, AlignmentOk, BlocksOk;
      assert Extents()[i] == chain[i].View(sizes.data);
      AlignmentFits(sizes, alignment);
      PageIsAligned(mappings[i].addr, sizes.os.PageSize(), alignment);
      AlignedWithBase(sizes.first, mappings[i].addr, alignment);
    }

    /** The writes of `region_alloc`. */
    method HandOut(region: Region, start: nat, size: nat, ghost i: nat) returns (r: Option<nat>)
      requires Valid() && i < |chain| && region == chain[i] && 0 < size
      requires region.tail <= start && start + size <= region.capacity
      modifies region`tail, this`blocks
      ensures Valid() && r == Some(region.addr + sizes.data + start) && Granted(old(blocks), r.value, size)
      ensures Extents() == old(Extents())[i := old(region.View(sizes.data)).(tail := start + size)]
    {
      hide ExtentsOk, BlocksOk, Disjoint, Words.Pow2, Linked, Sized;
      ChainAt(i);
      ghost var es := Extents();
      assert es[i] == region.View(sizes.data);
      HandOutKeeps(es, blocks, i, start, size);
      r := Some(region.addr + sizes.data + start);
      region.tail := start + size;
      blocks := blocks + {Block(region.addr + sizes.data + start, size)};
      assert Extents() == es[i := es[i].(tail := start + size)];
    }

    /** The system's answer for a region to hold `size` bytes is page-aligned memory that no region uses. */
    ghost predicate MappingOk(mapped: Option<nat>, size: nat)
      reads this, chain
    {
      && sizes.os.Fits(Max(size, newRegionCapacity) + sizes.data)
      && (mapped.Some? ==>
            && mapped.value % sizes.os.PageSize() == 0
            && NewExtent(Extents(), FreshRegion(sizes, mapped.value, size, newRegionCapacity)))
    }

    /** `create_region` and its linking to the end of the chain. */
    method AddRegion(size: nat, addr: nat) returns (region: Region)
      requires Valid() && MappingOk(Some(addr), size)
      modifies this`last, this`chain, this`mappings, last`next
      ensures Valid() && fresh(region) && chain == old(chain) + [region] && region == last
      ensures region.View(sizes.data) == FreshRegion(sizes, addr, size, newRegionCapacity) && blocks == old(blocks)
      ensures SizedFor(sizes, region.View(sizes.data), sizes.data, Max(size, newRegionCapacity))
      ensures Extents() == old(Extents()) + [region.View(sizes.data)]
    {
      hide Words.Pow2, RoundUp, ExtentsOk, BlocksOk, NewExtent, Linked;
      var capacity := Max(size, newRegionCapacity);
      PagesFit(sizes.os, capacity + sizes.data);
      var memSize := sizes.os.AlignToPage(capacity + sizes.data);
      region := new Region(addr, memSize - sizes.data);
      Link(region);
    }

    /** `arena->last->next = new_region; arena->last = new_region;` */
    method Link(region: Region)
      requires Valid() && region !in chain && region.next == null && region.tail == 0
      requires region.addr % sizes.os.PageSize() == 0 && NewExtent(Extents(), region.View(sizes.data))
      requires region.capacity + sizes.data + sizes.os.PageSize() <= Pow2(sizes.os.uintWidth)
      modifies this`last, this`chain, this`mappings, last`next
      ensures Valid() && chain == old(chain) + [region] && region == last && blocks == old(blocks)
      ensures Extents() == old(Extents()) + [region.View(sizes.data)]
    {
      hide Words.Pow2, ExtentsOk, BlocksOk, NewExtent, Offsets.Valid;
      ghost var before, e := Extents(), region.View(sizes.data);
      AppendKeeps(before, blocks, e);
      last.next := region;
      last := region;
      chain := chain + [region];
      mappings := mappings + [Mapping(region.addr, region.capacity + sizes.data)];
      assert Extents() == before + [e];
    }

    /** `new_region_alloc`: the fresh region is linked; it takes the block, aligned, exactly when it has room. */
    method NewRegionAlloc(size: nat, alignment: nat, mapped: Option<nat>) returns (r: Option<nat>)
      requires Valid() && 0 < size && AlignmentOk(sizes, alignment) && MappingOk(mapped, size)
      modifies this`last, this`chain, this`mappings, this`blocks, last`next
      ensures Valid() && alignment < Pow2(sizes.os.uintWidth)
      ensures Added(old(Extents()), old(blocks), size, alignment, mapped, r)
      ensures NewRegionSized(old(Extents()), size)
    {
      hide Words.Pow2, AlignUnsigned, StartFor, ExtentsOk, BlocksOk, NewExtent, RoundUp, AlignmentOk, Disjoint, HasRoom;
      SizesFit(alignment);
      if mapped.None? {
        return None;
      }
      ghost var es := Extents();
      var region := AddRegion(size, mapped.value);
      r := RegionAlloc(region, size, alignment, |chain| - 1);
    }

    lemma SizesFit(alignment: nat)
      requires Valid() && AlignmentOk(sizes, alignment)
      ensures 0 < alignment < Pow2(sizes.os.uintWidth) && |Extents()| == |chain| > 0
    {
      AlignmentFits(sizes, alignment);
    }

    /** The outcome when a new region is asked for: without a mapping nothing changes. Otherwise the region is added,
        and the block is put into it, aligned, if it has room. */
    ghost predicate Added(before: seq<Extent>, earlier: set<Block>, size: nat, alignment: nat, mapped: Option<nat>,
                          r: Option<nat>)
      requires 0 < alignment < Pow2(sizes.os.uintWidth)
      reads this, chain
    {
      if mapped.None? then r.None? && Extents() == before && blocks == earlier
      else
        var region := FreshRegion(sizes, mapped.value, size, newRegionCapacity);
        && (r.Some? <==> HasRoom(sizes.os.uintWidth, region, size, alignment))
        && (r.None? ==> Extents() == before + [region] && blocks == earlier)
        && (r.Some? ==>
              && Granted(earlier, r.value, size) && Placed(before + [region], |before|, r.value, size, alignment)
              && r.value % alignment == 0)
    }

    /** A region that was added holds the block, and what the arena wants its regions to hold. */
    ghost predicate NewRegionSized(before: seq<Extent>, size: nat)
      reads this, chain
    {
      |Extents()| > |before| ==>
        SizedFor(sizes, Extents()[|before|], sizes.data, Max(size, newRegionCapacity))
    }

    /** The block lies in region `i`, less than an alignment behind the old tail; only that region's tail moved, to the
        end of the block. */
    ghost predicate Placed(before: seq<Extent>, i: nat, addr: nat, size: nat, alignment: nat)
      reads this, chain
    {
      && i < |before|
      && var e := before[i];
         && e.Start() + e.tail <= addr < e.Start() + e.tail + alignment
         && Extents() == before[i := e.(tail := addr + size - e.Start())]
    }

    /** Region `i` took the block; it is aligned in every region but the first, and there exactly when the place of the
        first region in the arena is. */
    ghost predicate Took(before: seq<Extent>, earlier: set<Block>, i: nat, size: nat, alignment: nat, r: Option<nat>)
      requires 0 < alignment
      reads this, chain
    {
      && r.Some? && Granted(earlier, r.value, size) && Placed(before, i, r.value, size, alignment)
      && (r.value % alignment == 0 <==> i > 0 || sizes.first % alignment == 0)
    }

    /** `_arena_alloc`: the last region takes the block if it has room; otherwise a new one is asked for. */
    method Alloc(size: nat, alignment: nat, mapped: Option<nat>) returns (r: Option<nat>)
      requires Valid() && 0 < size && AlignmentOk(sizes, alignment) && MappingOk(mapped, size)
      modifies this`last, this`chain, this`mappings, this`blocks, last
      ensures Valid() && 0 < alignment < Pow2(sizes.os.uintWidth) && old(Extents()) != []
      ensures var es := old(Extents());
              if HasRoom(sizes.os.uintWidth, es[|es| - 1], size, alignment)
              then Took(es, old(blocks), |es| - 1, size, alignment, r)
              else Added(es, old(blocks), size, alignment, mapped, r)
      ensures NewRegionSized(old(Extents()), size)
    {
      hide Words.Pow2, AlignUnsigned, AlignmentOk, StartFor, ExtentsOk, BlocksOk, NewExtent, RoundUp, Disjoint,
        HasRoom, Granted, Placed;
      SizesFit(alignment);
      assert Extents()[|chain| - 1] == last.View(sizes.data);
      r := RegionAlloc(last, size, alignment, |chain| - 1);
      if r.None? {
        r := NewRegionAlloc(size, alignment, mapped);
      }
    }

    /** `_arena_fit`: the first region with room takes the block; a new one is asked for only when none has room. */
    method Fit(size: nat, alignment: nat, mapped: Option<nat>) returns (r: Option<nat>)
      requires Valid() && 0 < size && AlignmentOk(sizes, alignment) && MappingOk(mapped, size)
      modifies this`last, this`chain, this`mappings, this`blocks, chain
      ensures Valid() && 0 < alignment < Pow2(sizes.os.uintWidth)
      ensures var es := old(Extents());
              || (NoRoom(es, |es|, size, alignment) && Added(es, old(blocks), size, alignment, mapped, r))
              || exists i | 0 <= i < |es| ::
                   && NoRoom(es, i, size, alignment) && HasRoom(sizes.os.uintWidth, es[i], size, alignment)
                   && Took(es, old(blocks), i, size, alignment, r)
      ensures NewRegionSized(old(Extents()), size)
    {
      hide Words.Pow2, AlignUnsigned, AlignmentOk, StartFor, ExtentsOk, BlocksOk, NewExtent, RoundUp, Disjoint,
        HasRoom, Granted, Placed;
      SizesFit(alignment);
      ghost var es := Extents();
      ghost var i := 0;
      var region: Region? := first;
      while region != null
        invariant 0 <= i <= |chain| && region == (if i < |chain| then chain[i] else null)
        invariant Valid() && unchanged(this) && Extents() == es && last == chain[|chain| - 1]
        invariant NoRoom(es, i, size, alignment)
        decreases |chain| - i
      {
        assert es[i] == region.View(sizes.data);
        r := RegionAlloc(region, size, alignment, i);
        if r.Some? {
          return;
        }
        region := region.next;
        i := i + 1;
      }
      r := NewRegionAlloc(size, alignment, mapped);
    }

    /** The regions before `n` have no room. */
    ghost predicate NoRoom(es: seq<Extent>, n: nat, size: nat, alignment: nat)
      requires n <= |es| && alignment < Pow2(sizes.os.uintWidth)
    {
      forall i | 0 <= i < n :: !HasRoom(sizes.os.uintWidth, es[i], size, alignment)
    }

    method SetRegionCapacity(capacity: nat)
      requires Valid()
      modifies this`newRegionCapacity
      ensures Valid() && newRegionCapacity == capacity && Extents() == old(Extents())
    {
      newRegionCapacity := capacity;
    }

    /** `delete_arena` unmaps every mapping once, with exactly the size it was made with. */
    method Delete() returns (unmapped: seq<Mapping>)
      requires Valid()
      ensures unmapped == mappings[1..] + [mappings[0]]
    {
      hide Words.Pow2, ExtentsOk, BlocksOk;
      unmapped := [];
      ghost var i := 1;
      var region := first.next;
      while region != null
        invariant 1 <= i <= |chain| && region == (if i < |chain| then chain[i] else null)
        invariant unmapped == mappings[1..i]
        decreases |chain| - i
      {
        unmapped := unmapped + [Mapping(region.addr, region.capacity + sizes.data)];
        region := region.next;
        i := i + 1;
      }
      unmapped := unmapped + [Mapping(first.addr - sizes.first, first.capacity + (sizes.first + sizes.data))];
    }

    /** A block was handed out that overlaps no earlier one. */
    ghost predicate Granted(before: set<Block>, addr: nat, size: nat)
      reads this
    {
      var b := Block(addr, size);
      && b !in before && blocks == before + {b}
      && forall a | a in before :: Disjoint(a, b)
    }
  }

  function FirstExtent(sizes: Offsets, base: nat, capacity: nat): Extent {
    var size := sizes.first + sizes.data;
    Extent(base + sizes.first, sizes.data, 0, RoundUp(capacity + size, sizes.os.PageSize()) - size)
  }

  lemma FirstExtentOk(sizes: Offsets, base: nat, capacity: nat)
    requires sizes.Valid() && sizes.os.Fits(capacity + sizes.first + sizes.data)
    ensures var e := FirstExtent(sizes, base, capacity);
            && ExtentsOk([e]) && BlocksOk([e], {}) && capacity <= e.capacity
            && e.capacity + sizes.data + sizes.os.PageSize() <= Pow2(sizes.os.uintWidth)
  {
    hide Words.Pow2, RoundUp;
    PagesFit(sizes.os, capacity + sizes.first + sizes.data);
  }

  lemma PageIsAligned(addr: nat, page: nat, alignment: nat)
    requires 0 < page && 0 < alignment && addr % page == 0 && page % alignment == 0
    ensures addr % alignment == 0
  {
    MultipleIsProduct(addr, page);
    MultipleOfMultiple(addr / page, page, alignment);
  }

  /** 32-bit pointers, where a largest alignment of 16 meets headers of 8 and 12 bytes. */
  function NarrowOffsets(): Offsets { Offsets(Platform(32, 12), 8, 12, 4) }

  lemma NarrowValid()
    ensures NarrowOffsets().Valid() && NarrowOffsets().os.PageSize() == 4096 && NarrowOffsets().os.Fits(8192)
    ensures AlignmentOk(NarrowOffsets(), 16) && 16 < Pow2(32)
  {
    assert Pow2(4) == 16 && Pow2(12) == 4096 && Pow2(14) == 16384;
    Pow2Monotone(14, 32);
    hide Words.Pow2;
    assert AlignmentOk(NarrowOffsets(), 16);
  }

  lemma NarrowFacts()
    ensures NarrowOffsets().Valid() && NarrowOffsets().os.PageSize() == 4096 && NarrowOffsets().os.Fits(8192)
    ensures AlignmentOk(NarrowOffsets(), 16) && 16 < Pow2(32) && StartFor(32, 12, 0, 16) == 4
    ensures RoundUp(1044, 4096) == 4096 && RoundUp(4096, 4096) == 4096
  {
    hide Words.Pow2, AlignUnsigned, RoundUp, StartFor, AlignmentOk;
    NarrowValid();
    StartAligned(NarrowOffsets(), 0, 16, 0);
    RoundUpIsLeast(12, 16, 16);
    RoundUpIsLeast(1044, 4096, 4096);
    RoundUpIsLeast(4096, 4096, 4096);
    MultiplesApart(0, RoundUp(12, 16), 16);
    MultiplesApart(0, RoundUp(1044, 4096), 4096);
  }

  /** The first block of an arena is not aligned. */
  method MisalignedFirst() returns (arena: Arena, r: Option<nat>)
    ensures arena.sizes == NarrowOffsets() && r.Some? && r.value % 16 != 0
  {
    NarrowFacts();
    hide Words.Pow2, AlignUnsigned, AlignmentOk, StartFor, RoundUp, ExtentsOk, BlocksOk, Platform.Valid;
    arena := new Arena(NarrowOffsets(), 4096, 1024);
    r := arena.Alloc(16, 16, None);
  }

  /** A block of 4084 bytes is refused although the system maps a region for it. */
  method FreshRefuses() returns (arena: Arena, r: Option<nat>)
    ensures r.None? && |arena.Extents()| == 2
  {
    NarrowFacts();
    hide Words.Pow2, AlignUnsigned, AlignmentOk, StartFor, RoundUp, ExtentsOk, BlocksOk, Platform.Valid;
    arena := new Arena(NarrowOffsets(), 4096, 1024);
    assert FreshRegion(NarrowOffsets(), 8192, 4084, 1024) == Extent(8192, 12, 0, 4084);
    r := arena.Alloc(4084, 16, Some(8192));
  }
}
