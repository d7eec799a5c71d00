/** Where the layers meet: the units that the protocol gives to a thread are memory that no live block of the heap
    uses, which is what resizing takes for granted. */
module Layers {
  import opened Common
  import opened Words
  import opened Runs
  import opened Alignment
  import opened Protocol
  import opened BitmapSafety
  import opened ProtocolSafety
  import opened ProtocolRuns
  import opened Reallocation

  /** A page id is the page's number in memory. */
  function PageAt(sizes: Sizes, p: PageId): nat { p * sizes.os.PageSize() }

  function Address(sizes: Sizes, b: Block): nat { PageAt(sizes, b.page) + b.offset * UNIT }

  ghost predicate SameShape(sizes: Sizes, c: Config) {
    sizes.Valid() && c.Valid() && c.header == sizes.header && c.units * UNIT == sizes.os.PageSize()
  }

  ghost predicate IsBlockOf(sizes: Sizes, b: Block, addr: nat, n: nat) {
    addr == Address(sizes, b) && b.len == UnitsOf(n)
  }

  ghost predicate IsHeapBlock(sizes: Sizes, blocks: map<nat, nat>, b: Block) {
    var a := Address(sizes, b);
    a in blocks && sizes.Small(blocks[a]) && b.len == UnitsOf(blocks[a])
  }

  /** The small blocks of the heap are the live blocks of the protocol, and no mapping reaches into a bitmap page. */
  ghost predicate Matches(sizes: Sizes, bits: map<PageId, Bits>, live: set<Block>, length: nat, blocks: map<nat, nat>) {
    && (forall a | a in blocks && sizes.Small(blocks[a]) :: exists b | b in live :: IsBlockOf(sizes, b, a, blocks[a]))
    && (forall b | b in live :: IsHeapBlock(sizes, blocks, b))
    && (forall a, p | a in blocks && p in bits && !sizes.Small(blocks[a]) ::
          a + sizes.Footprint(blocks[a]) <= PageAt(sizes, p) || PageAt(sizes, p) + sizes.os.PageSize() <= a)
    && (forall p | p in bits :: PageAt(sizes, p) + sizes.os.PageSize() <= length)
  }

  /** Where a block with these units is in its page. */
  lemma BlockPlaced(sizes: Sizes, c: Config, b: Block, n: nat)
    requires SameShape(sizes, c) && InData(c, b) && b.len == UnitsOf(n)
    requires sizes.Small(n) && 0 < n && sizes.os.Fits(n)
    ensures sizes.Placed(Address(sizes, b), n) && sizes.Footprint(n) == b.len * UNIT
    ensures PageAt(sizes, b.page) <= Address(sizes, b)
    ensures Address(sizes, b) + b.len * UNIT <= PageAt(sizes, b.page) + sizes.os.PageSize()
  {
    var size := sizes.os.PageSize();
    MultipleOfMultiple(b.page, size, UNIT);
    ModUnique(b.offset * UNIT, UNIT, b.offset, 0);
    SumOfMultiples(PageAt(sizes, b.page), b.offset * UNIT, UNIT);
    ModUnique(Address(sizes, b), size, b.page, b.offset * UNIT);
    hide Words.Pow2, UnitsOf;
  }

  /** Blocks of different pages, or of different units of a page, do not share a byte. */
  lemma UnitsApart(sizes: Sizes, c: Config, a: Block, b: Block)
    requires SameShape(sizes, c) && InData(c, a) && InData(c, b) && Disjoint(a, b)
    ensures var x, y := Address(sizes, a), Address(sizes, b); x + a.len * UNIT <= y || y + b.len * UNIT <= x
  {
    var size := sizes.os.PageSize();
    if a.page < b.page { MulGap(size, a.page, b.page); } else if b.page < a.page { MulGap(size, b.page, a.page); }
    hide Words.Pow2;
  }

  lemma AddressesDiffer(sizes: Sizes, c: Config, s: State, b: Block)
    requires SameShape(sizes, c) && Inv(c, s) && b in s.blocks
    ensures forall a | a in s.blocks - {b} :: Address(sizes, a) != Address(sizes, b)
  {
    hide SameShape, Address, Disjoint, HolderInv, LruInv, RingInv, ThreadInv;
    forall a | a in s.blocks - {b} ensures Address(sizes, a) != Address(sizes, b) {
      UnitsApart(sizes, c, a, b);
    }
  }

  lemma ApartMayPut(sizes: Sizes, c: Config, bits: map<PageId, Bits>, live: set<Block>, length: nat,
                    blocks: map<nat, nat>, b: Block, n: nat)
    requires SameShape(sizes, c) && Matches(sizes, bits, live, length, blocks)
    requires sizes.Small(n) && 0 < n && sizes.os.Fits(n)
    requires b.page in bits && InData(c, b) && b.len == UnitsOf(n)
    requires forall a | a in live :: InData(c, a) && Disjoint(a, b)
    ensures sizes.MayPut(length, blocks, Address(sizes, b), n)
  {
    BlockPlaced(sizes, c, b, n);
    hide Words.Pow2, UnitsOf, Address, PageAt, InData, Sizes.Placed;
    var addr := Address(sizes, b);
    forall a | a in blocks ensures a + sizes.Footprint(blocks[a]) <= addr || addr + sizes.Footprint(n) <= a {
      if sizes.Small(blocks[a]) {
        var x :| x in live && IsBlockOf(sizes, x, a, blocks[a]);
        UnitsApart(sizes, c, x, b);
      }
    }
  }

  /** `bm_allocate` answers with memory that may be put to use: a thread about to mark the units it found. */
  lemma AllocateAnswers(sizes: Sizes, c: Config, s: State, t: nat, length: nat, blocks: map<nat, nat>, n: nat,
      p: PageId, o: nat)
    requires Inv(c, s) && t < |s.pcs| && s.pcs[t] == Mark(UnitsOf(n), p, o)
    requires SameShape(sizes, c) && Matches(sizes, s.bits, s.blocks, length, blocks)
    requires sizes.Small(n) && 0 < n && sizes.os.Fits(n)
    ensures sizes.MayPut(length, blocks, Address(sizes, Block(p, o, UnitsOf(n))), n)
  {
    hide RingInv, LruInv, HolderInv, UnitsOf, Words.Pow2, Matches, Sizes.MayPut, Address, Fill;
    var b := Block(p, o, UnitsOf(n));
    HeldPage(c, s, t, p);
    ThreadFacts(c, s.bits, s.blocks, s.pcs, t);
    MarkKeeps(c, s.bits, s.blocks, b);
    ApartMayPut(sizes, c, s.bits, s.blocks, length, blocks, b, n);
  }

  /** The same for a block on a page that the system has just mapped where no block of the heap is. */
  lemma NewPageAnswers(sizes: Sizes, c: Config, s: State, t: nat, length: nat, blocks: map<nat, nat>, n: nat, p: PageId)
    requires Inv(c, s) && t < |s.pcs| && s.pcs[t] == MapPage(UnitsOf(n)) && p !in s.bits
    requires SameShape(sizes, c) && Matches(sizes, s.bits, s.blocks, length, blocks)
    requires sizes.Vacant(blocks, PageAt(sizes, p), PageAt(sizes, p) + sizes.os.PageSize())
    requires PageAt(sizes, p) + sizes.os.PageSize() <= length
    requires sizes.Small(n) && 0 < n && sizes.os.Fits(n)
    ensures sizes.MayPut(length, blocks, Address(sizes, Block(p, c.header, UnitsOf(n))), n)
  {
    hide RingInv, LruInv, HolderInv, UnitsOf, Words.Pow2, Sizes.MayPut, Sizes.Small, Address, PageAt, Fill, NewBits;
    ThreadFacts(c, s.bits, s.blocks, s.pcs, t);
    ApartMayPut(sizes, c, s.bits[p := NewBits(c, UnitsOf(n))], s.blocks, length, blocks,
        Block(p, c.header, UnitsOf(n)), n);
  }

  /** A block may be resized in place to fewer units, and to more where `bm_grow` succeeds. */
  lemma ResizeAnswers(sizes: Sizes, c: Config, s: State, t: nat, length: nat, blocks: map<nat, nat>, n: nat, op: Op,
      b: Block)
    requires Inv(c, s) && t < |s.pcs| && s.pcs[t] == Edit(op, b) && !op.Release? && op.units == UnitsOf(n)
    requires b.page in s.bits
    requires op.Grow? ==> b.len <= UnitsOf(n) && Free(s.bits[b.page], b.offset + b.len, UnitsOf(n) - b.len)
    requires SameShape(sizes, c) && Matches(sizes, s.bits, s.blocks, length, blocks)
    requires sizes.Small(n) && 0 < n && sizes.os.Fits(n)
    ensures sizes.MayPut(length, blocks - {Address(sizes, b)}, Address(sizes, b), n)
  {
    hide RingInv, LruInv, HolderInv, UnitsOf, Words.Pow2, Sizes.MayPut, Sizes.Small, Address, Fill;
    EditFacts(c, s, t, op, b);
    var b' := b.(len := UnitsOf(n));
    ResizeKeeps(c, s.bits, s.blocks, b, UnitsOf(n));
    AddressesDiffer(sizes, c, s, b);
    MatchesWithout(sizes, s.bits, s.blocks, length, blocks, b);
    hide Matches;
    SameAddress(sizes, b, UnitsOf(n));
    ApartMayPut(sizes, c, s.bits, s.blocks - {b}, length, blocks - {Address(sizes, b)}, b', n);
  }

  lemma SameAddress(sizes: Sizes, b: Block, n: nat)
    ensures Address(sizes, b.(len := n)) == Address(sizes, b)
  {
  }

  // ---------- protocol and heap together ----------

  datatype Change = Same | Put(addr: nat, n: nat) | Remove(addr: nat) {
    function Apply(blocks: map<nat, nat>): map<nat, nat> {
      match this
      case Same => blocks
      case Put(a, m) => blocks[a := m]
      case Remove(a) => blocks - {a}
    }
  }

  /** A step of a thread in the protocol, for a block of `n` bytes; or a change that concerns no bitmap page: a mapping
      comes, goes or moves, or a block changes its size within its units. */
  datatype JointEvent = OfThread(thread: nat, action: Action, n: nat) | OfSystem(change: Change)

  /** What a step of the protocol means for the heap. */
  ghost function HeapChange(sizes: Sizes, c: Config, s: State, t: nat, a: Action, n: nat): Change
    requires Enabled(c, s, t, a) && Safe(c, s, s.pcs[t])
  {
    if !a.Advance? then Same else
    match s.pcs[t]
    case Mark(u, p, o) => Put(Address(sizes, Block(p, o, u)), n)
    case MapPage(u) => if a.mapped.Some? then Put(Address(sizes, Block(a.mapped.value, c.header, u)), n) else Same
    case Edit(op, b) =>
      (match op
       case Release => Remove(Address(sizes, b))
       case Shrink(_) => Put(Address(sizes, b), n)
       case Grow(m) => if Free(s.bits[b.page], b.offset + b.len, m - b.len) then Put(Address(sizes, b), n) else Same)
    case _ => Same
  }

  /** The units that a step puts to use. */
  function UnitsPut(pc: Pc): Option<nat> {
    match pc
    case Mark(u, _, _) => Some(u)
    case MapPage(u) => Some(u)
    case Edit(op, _) => if op.Release? then None else Some(op.units)
    case _ => None
  }

  ghost predicate JointEnabled(sizes: Sizes, c: Config, length: nat, s: State, blocks: map<nat, nat>, e: JointEvent) {
    match e
    case OfThread(t, a, n) =>
      && Enabled(c, s, t, a)
      && (UnitsPut(s.pcs[t]).Some? ==>
            sizes.Small(n) && 0 < n && sizes.os.Fits(n) && UnitsPut(s.pcs[t]) == Some(UnitsOf(n)))
      && (s.pcs[t].MapPage? && a.Advance? && a.mapped.Some? ==> PageVacant(sizes, length, blocks, a.mapped.value))
    case OfSystem(change) =>
      match change
      case Same => true
      case Remove(a) => a in blocks ==> !sizes.Small(blocks[a])
      case Put(a, n) =>
        if a in blocks && UnitsOf(blocks[a]) == UnitsOf(n) then 0 < n && sizes.os.Fits(n)
        else
          && !sizes.Small(n) && (a in blocks ==> !sizes.Small(blocks[a])) && sizes.MayPut(length, blocks - {a}, a, n)
          && ApartFromPages(sizes, s.bits, a, n)
  }

  /** The system maps pages where no block is. */
  ghost predicate PageVacant(sizes: Sizes, length: nat, blocks: map<nat, nat>, p: PageId) {
    && sizes.Vacant(blocks, PageAt(sizes, p), PageAt(sizes, p) + sizes.os.PageSize())
    && PageAt(sizes, p) + sizes.os.PageSize() <= length
  }

  ghost predicate ApartFromPages(sizes: Sizes, bits: map<PageId, Bits>, a: nat, n: nat) {
    forall p | p in bits ::
      a + sizes.Footprint(n) <= PageAt(sizes, p) || PageAt(sizes, p) + sizes.os.PageSize() <= a
  }

  ghost function JointStep(sizes: Sizes, c: Config, s: State, blocks: map<nat, nat>, e: JointEvent)
    : (State, map<nat, nat>)
    requires e.OfThread? ==> Enabled(c, s, e.thread, e.action) && Safe(c, s, s.pcs[e.thread])
  {
    match e
    case OfThread(t, a, n) => (Step(c, s, t, a), HeapChange(sizes, c, s, t, a, n).Apply(blocks))
    case OfSystem(change) => (s, change.Apply(blocks))
  }

  /** The protocol and the heap are in order and agree. */
  ghost predicate JointInv(sizes: Sizes, c: Config, length: nat, s: State, blocks: map<nat, nat>) {
    && SameShape(sizes, c) && Inv(c, s)
    && sizes.BlocksOk(length, blocks) && Matches(sizes, s.bits, s.blocks, length, blocks)
  }

  lemma JointInit(sizes: Sizes, c: Config, length: nat, threads: nat)
    requires SameShape(sizes, c)
    ensures JointInv(sizes, c, length, Init(c, threads), map[])
  {
    InitInv(c, threads);
  }

  /** A block put to use with its units keeps heap and protocol in agreement. */
  lemma MatchesWith(sizes: Sizes, bits: map<PageId, Bits>, live: set<Block>, length: nat, blocks: map<nat, nat>,
      b: Block, n: nat)
    requires Matches(sizes, bits, live, length, blocks) && b.len == UnitsOf(n) && sizes.Small(n)
    requires Address(sizes, b) !in blocks
    ensures Matches(sizes, bits, live + {b}, length, blocks[Address(sizes, b) := n])
  {
    hide UnitsOf, Address, PageAt, Sizes.Small, Sizes.Footprint;
    var live', blocks' := live + {b}, blocks[Address(sizes, b) := n];
    forall a | a in blocks' && sizes.Small(blocks'[a])
      ensures exists x | x in live' :: IsBlockOf(sizes, x, a, blocks'[a])
    {
      if a == Address(sizes, b) {
        assert b in live' && IsBlockOf(sizes, b, a, blocks'[a]);
      } else {
        var x :| x in live && IsBlockOf(sizes, x, a, blocks[a]);
        assert x in live';
      }
    }
  }

  /** A block given back with its units does too. */
  lemma MatchesWithout(sizes: Sizes, bits: map<PageId, Bits>, live: set<Block>, length: nat, blocks: map<nat, nat>,
      b: Block)
    requires Matches(sizes, bits, live, length, blocks)
    requires forall x | x in live - {b} :: Address(sizes, x) != Address(sizes, b)
    ensures Matches(sizes, bits, live - {b}, length, blocks - {Address(sizes, b)})
  {
    hide UnitsOf, Address, PageAt, Sizes.Small, Sizes.Footprint;
    forall a | a in blocks && a != Address(sizes, b) && sizes.Small(blocks[a])
      ensures exists x | x in live - {b} :: IsBlockOf(sizes, x, a, blocks[a])
    {
      var x :| x in live && IsBlockOf(sizes, x, a, blocks[a]);
      assert x in live - {b};
    }
  }

  /** Fewer bitmap pages, or other bits in them, do not matter. */
  lemma MatchesPages(sizes: Sizes, bits: map<PageId, Bits>, bits': map<PageId, Bits>, live: set<Block>, length: nat,
                     blocks: map<nat, nat>)
    requires Matches(sizes, bits, live, length, blocks) && bits'.Keys <= bits.Keys
    ensures Matches(sizes, bits', live, length, blocks)
  {
    hide UnitsOf, Address, PageAt, Sizes.Small, Sizes.Footprint, IsBlockOf;
    assert forall p | p in bits' :: p in bits;
  }

  /** A page that the system maps where no block is does not matter either. */
  lemma MatchesNewPage(sizes: Sizes, bits: map<PageId, Bits>, p: PageId, page: Bits, live: set<Block>, length: nat,
                       blocks: map<nat, nat>)
    requires Matches(sizes, bits, live, length, blocks) && PageVacant(sizes, length, blocks, p)
    ensures Matches(sizes, bits[p := page], live, length, blocks)
  {
    hide UnitsOf, Address, PageAt, Sizes.Small, Sizes.Footprint, IsBlockOf;
  }

  lemma PutAt(sizes: Sizes, length: nat, blocks: map<nat, nat>, a: nat, n: nat)
    requires sizes.BlocksOk(length, blocks) && sizes.MayPut(length, blocks - {a}, a, n)
    ensures sizes.BlocksOk(length, blocks[a := n])
  {
    sizes.RemoveKeeps(length, blocks, a);
    sizes.PutKeeps(length, blocks - {a}, a, n);
    assert (blocks - {a})[a := n] == blocks[a := n];
  }

  lemma NotYet(sizes: Sizes, length: nat, blocks: map<nat, nat>, a: nat, n: nat)
    requires sizes.BlocksOk(length, blocks) && sizes.MayPut(length, blocks, a, n)
    ensures a !in blocks
  {
    sizes.PutKeeps(length, blocks, a, n);
  }

  lemma MayPutWithout(sizes: Sizes, length: nat, blocks: map<nat, nat>, a: nat, n: nat)
    requires sizes.MayPut(length, blocks, a, n)
    ensures sizes.MayPut(length, blocks - {a}, a, n)
  {
    sizes.VacantWithout(blocks, a, a, a + sizes.Footprint(n));
  }

  lemma MarkJoint(sizes: Sizes, c: Config, length: nat, s: State, blocks: map<nat, nat>, t: nat, n: nat, p: PageId,
                  o: nat, page: Bits)
    requires JointInv(sizes, c, length, s, blocks) && t < |s.pcs| && s.pcs[t] == Mark(UnitsOf(n), p, o) && p in s.bits
    requires sizes.Small(n) && 0 < n && sizes.os.Fits(n)
    ensures var b := Block(p, o, UnitsOf(n)); var blocks' := blocks[Address(sizes, b) := n];
            sizes.BlocksOk(length, blocks') && Matches(sizes, s.bits[p := page], s.blocks + {b}, length, blocks')
  {
    hide Inv, Matches, UnitsOf, Address, Sizes.MayPut, Sizes.BlocksOk, Sizes.Small, SameShape, Platform.Fits;
    var b := Block(p, o, UnitsOf(n));
    AllocateAnswers(sizes, c, s, t, length, blocks, n, p, o);
    MayPutWithout(sizes, length, blocks, Address(sizes, b), n);
    NotYet(sizes, length, blocks, Address(sizes, b), n);
    PutAt(sizes, length, blocks, Address(sizes, b), n);
    MatchesWith(sizes, s.bits, s.blocks, length, blocks, b, n);
    MatchesPages(sizes, s.bits, s.bits[p := page], s.blocks + {b}, length, blocks[Address(sizes, b) := n]);
  }

  lemma MapJoint(sizes: Sizes, c: Config, length: nat, s: State, blocks: map<nat, nat>, t: nat, n: nat, p: PageId,
                 page: Bits)
    requires JointInv(sizes, c, length, s, blocks) && t < |s.pcs| && s.pcs[t] == MapPage(UnitsOf(n)) && p !in s.bits
    requires sizes.Small(n) && 0 < n && sizes.os.Fits(n) && PageVacant(sizes, length, blocks, p)
    ensures var b := Block(p, c.header, UnitsOf(n)); var blocks' := blocks[Address(sizes, b) := n];
            sizes.BlocksOk(length, blocks') && Matches(sizes, s.bits[p := page], s.blocks + {b}, length, blocks')
  {
    hide Inv, Matches, UnitsOf, Address, Sizes.MayPut, Sizes.BlocksOk, Sizes.Small, SameShape, Platform.Fits,
      Sizes.Vacant;
    var b := Block(p, c.header, UnitsOf(n));
    NewPageAnswers(sizes, c, s, t, length, blocks, n, p);
    MayPutWithout(sizes, length, blocks, Address(sizes, b), n);
    NotYet(sizes, length, blocks, Address(sizes, b), n);
    PutAt(sizes, length, blocks, Address(sizes, b), n);
    MatchesNewPage(sizes, s.bits, p, page, s.blocks, length, blocks);
    MatchesWith(sizes, s.bits[p := page], s.blocks, length, blocks, b, n);
  }

  lemma ReleaseJoint(sizes: Sizes, c: Config, length: nat, s: State, blocks: map<nat, nat>, b: Block, page: Bits)
    requires JointInv(sizes, c, length, s, blocks) && b.page in s.bits && b in s.blocks
    ensures var blocks' := blocks - {Address(sizes, b)};
            sizes.BlocksOk(length, blocks') && Matches(sizes, s.bits[b.page := page], s.blocks - {b}, length, blocks')
  {
    hide Inv, Matches, Address;
    sizes.RemoveKeeps(length, blocks, Address(sizes, b));
    AddressesDiffer(sizes, c, s, b);
    MatchesWithout(sizes, s.bits, s.blocks, length, blocks, b);
    MatchesPages(sizes, s.bits, s.bits[b.page := page], s.blocks - {b}, length, blocks - {Address(sizes, b)});
  }

  lemma ResizeJoint(sizes: Sizes, c: Config, length: nat, s: State, blocks: map<nat, nat>, t: nat, n: nat, op: Op,
                    b: Block, page: Bits)
    requires JointInv(sizes, c, length, s, blocks) && t < |s.pcs|
    requires s.pcs[t] == Edit(op, b) && !op.Release? && op.units == UnitsOf(n) && b.page in s.bits
    requires op.Grow? ==> b.len <= UnitsOf(n) && Free(s.bits[b.page], b.offset + b.len, UnitsOf(n) - b.len)
    requires sizes.Small(n) && 0 < n && sizes.os.Fits(n)
    ensures var b' := b.(len := UnitsOf(n)); var blocks' := blocks[Address(sizes, b) := n];
            && sizes.BlocksOk(length, blocks')
            && Matches(sizes, s.bits[b.page := page], s.blocks - {b} + {b'}, length, blocks')
  {
    hide Inv, Matches, UnitsOf, Address, Sizes.MayPut, Sizes.BlocksOk, Sizes.Small, SameShape, Platform.Fits, Free;
    var b', a := b.(len := UnitsOf(n)), Address(sizes, b);
    ResizeAnswers(sizes, c, s, t, length, blocks, n, op, b);
    PutAt(sizes, length, blocks, a, n);
    EditFacts(c, s, t, op, b);
    AddressesDiffer(sizes, c, s, b);
    MatchesWithout(sizes, s.bits, s.blocks, length, blocks, b);
    SameAddress(sizes, b, UnitsOf(n));
    MatchesWith(sizes, s.bits, s.blocks - {b}, length, blocks - {a}, b', n);
    assert (blocks - {a})[a := n] == blocks[a := n];
    MatchesPages(sizes, s.bits, s.bits[b.page := page], s.blocks - {b} + {b'}, length, blocks[a := n]);
  }

  /** A step that puts nothing to use and gives nothing back leaves the blocks, and maps no page. */
  lemma QuietStep(c: Config, s: State, t: nat, a: Action)
    requires Enabled(c, s, t, a) && Safe(c, s, s.pcs[t])
    requires !a.Advance? || !(s.pcs[t].Mark? || s.pcs[t].MapPage? || s.pcs[t].Edit?)
    ensures Step(c, s, t, a).blocks == s.blocks && Step(c, s, t, a).bits.Keys <= s.bits.Keys
  {
    hide Lfb, Runs.FirstFit, Fill, FirstList, NewBits;
  }

  lemma ThreadJoint(sizes: Sizes, c: Config, length: nat, s: State, blocks: map<nat, nat>, t: nat, a: Action, n: nat)
    requires JointInv(sizes, c, length, s, blocks) && JointEnabled(sizes, c, length, s, blocks, OfThread(t, a, n))
    requires Safe(c, s, s.pcs[t])
    ensures var (s', blocks') := JointStep(sizes, c, s, blocks, OfThread(t, a, n));
            sizes.BlocksOk(length, blocks') && Matches(sizes, s'.bits, s'.blocks, length, blocks')
  {
    hide Inv, Matches, Sizes.BlocksOk, Sizes.MayPut, Sizes.Small, UnitsOf, Address, Lfb, Runs.FirstFit, Fill, FirstList,
      NewBits, PageVacant, Platform.Fits;
    if !a.Advance? || !(s.pcs[t].Mark? || s.pcs[t].MapPage? || s.pcs[t].Edit?) {
      QuietStep(c, s, t, a);
      MatchesPages(sizes, s.bits, Step(c, s, t, a).bits, s.blocks, length, blocks);
      hide Step;
    } else {
      match s.pcs[t]
      case Mark(u, p, o) => MarkJoint(sizes, c, length, s, blocks, t, n, p, o, Fill(s.bits[p], true, o, u));
      case MapPage(u) =>
        if a.mapped.Some? {
          MapJoint(sizes, c, length, s, blocks, t, n, a.mapped.value, NewBits(c, u));
        }
      case Edit(op, b) => EditJoint(sizes, c, length, s, blocks, t, a, n, op, b);
    }
  }

  lemma EditJoint(sizes: Sizes, c: Config, length: nat, s: State, blocks: map<nat, nat>, t: nat, a: Action, n: nat,
                  op: Op, b: Block)
    requires JointInv(sizes, c, length, s, blocks) && JointEnabled(sizes, c, length, s, blocks, OfThread(t, a, n))
    requires Safe(c, s, s.pcs[t]) && a.Advance? && s.pcs[t] == Edit(op, b)
    ensures var (s', blocks') := JointStep(sizes, c, s, blocks, OfThread(t, a, n));
            sizes.BlocksOk(length, blocks') && Matches(sizes, s'.bits, s'.blocks, length, blocks')
  {
    hide Inv, Matches, Sizes.BlocksOk, Sizes.MayPut, Sizes.Small, UnitsOf, Address, Fill, Platform.Fits;
    EditFacts(c, s, t, op, b);
    match op
    case Release => ReleaseJoint(sizes, c, length, s, blocks, b, Fill(s.bits[b.page], false, b.offset, b.len));
    case Shrink(m) =>
      ResizeJoint(sizes, c, length, s, blocks, t, n, op, b, Fill(s.bits[b.page], false, b.offset + m, b.len - m));
    case Grow(m) =>
      if Free(s.bits[b.page], b.offset + b.len, m - b.len) {
        ResizeJoint(sizes, c, length, s, blocks, t, n, op, b, Fill(s.bits[b.page], true, b.offset + b.len, m - b.len));
      }
  }

  lemma SystemJoint(sizes: Sizes, c: Config, length: nat, s: State, blocks: map<nat, nat>, change: Change)
    requires JointInv(sizes, c, length, s, blocks) && JointEnabled(sizes, c, length, s, blocks, OfSystem(change))
    ensures sizes.BlocksOk(length, change.Apply(blocks))
    ensures Matches(sizes, s.bits, s.blocks, length, change.Apply(blocks))
  {
    hide Inv, UnitsOf, Address, PageAt, Sizes.Placed, Sizes.Footprint, Words.Pow2, Matches, Sizes.BlocksOk,
      ApartFromPages;
    match change
    case Same =>
    case Remove(a) =>
      sizes.RemoveKeeps(length, blocks, a);
      MatchesWithoutMapping(sizes, s.bits, s.blocks, length, blocks, a);
    case Put(a, n) =>
      if a in blocks && UnitsOf(blocks[a]) == UnitsOf(n) {
        SameUnitsJoint(sizes, s.bits, s.blocks, length, blocks, a, n);
      } else {
        PutAt(sizes, length, blocks, a, n);
        MatchesWithMapping(sizes, s.bits, s.blocks, length, blocks, a, n);
      }
  }

  lemma MatchesWithMapping(sizes: Sizes, bits: map<PageId, Bits>, live: set<Block>, length: nat, blocks: map<nat, nat>,
                           a: nat, n: nat)
    requires Matches(sizes, bits, live, length, blocks) && ApartFromPages(sizes, bits, a, n)
    requires !sizes.Small(n) && (a in blocks ==> !sizes.Small(blocks[a]))
    ensures Matches(sizes, bits, live, length, blocks[a := n])
  {
    hide UnitsOf, Address, PageAt, Sizes.Small, Sizes.Footprint, IsBlockOf;
  }

  lemma MatchesWithoutMapping(sizes: Sizes, bits: map<PageId, Bits>, live: set<Block>, length: nat,
                              blocks: map<nat, nat>, a: nat)
    requires Matches(sizes, bits, live, length, blocks) && (a in blocks ==> !sizes.Small(blocks[a]))
    ensures Matches(sizes, bits, live, length, blocks - {a})
  {
    hide UnitsOf, Address, PageAt, Sizes.Small, Sizes.Footprint, IsBlockOf;
  }

  lemma SameUnitsJoint(sizes: Sizes, bits: map<PageId, Bits>, live: set<Block>, length: nat, blocks: map<nat, nat>,
      a: nat, n: nat)
    requires sizes.Valid() && sizes.BlocksOk(length, blocks) && Matches(sizes, bits, live, length, blocks)
    requires a in blocks && UnitsOf(blocks[a]) == UnitsOf(n) && 0 < n && sizes.os.Fits(n)
    ensures sizes.BlocksOk(length, blocks[a := n]) && Matches(sizes, bits, live, length, blocks[a := n])
  {
    hide UnitsOf, Address, PageAt, Sizes.Placed, Words.Pow2, Sizes.Small, Sizes.Footprint, Sizes.Valid, Platform.Fits;
    sizes.PlacedFacts(length, blocks, a);
    SamePlacement(sizes, a, blocks[a], n);
    var blocks' := blocks[a := n];
    forall x | x in blocks' && sizes.Small(blocks'[x])
      ensures exists b | b in live :: IsBlockOf(sizes, b, x, blocks'[x])
    {
      var b :| b in live && IsBlockOf(sizes, b, x, blocks[x]);
      assert IsBlockOf(sizes, b, x, blocks'[x]);
    }
  }

  /** Every step of a thread, and every change by the system or within a block, is safe and keeps protocol and heap in
      order and in agreement. */
  lemma JointKeeps(sizes: Sizes, c: Config, length: nat, s: State, blocks: map<nat, nat>, e: JointEvent)
    requires JointInv(sizes, c, length, s, blocks) && JointEnabled(sizes, c, length, s, blocks, e)
    ensures e.OfThread? ==> Safe(c, s, s.pcs[e.thread])
    ensures var (s', blocks') := JointStep(sizes, c, s, blocks, e); JointInv(sizes, c, length, s', blocks')
  {
    hide Inv, Matches, Sizes.BlocksOk, Sizes.MayPut, Sizes.Small, Step, Safe, Enabled, SameShape;
    match e
    case OfThread(t, a, n) =>
      StepKeeps(c, s, t, a);
      ThreadJoint(sizes, c, length, s, blocks, t, a, n);
    case OfSystem(change) => SystemJoint(sizes, c, length, s, blocks, change);
  }

  /** A run of any number of threads over one heap. */
  ghost predicate IsJointRun(sizes: Sizes, c: Config, length: nat, threads: nat, states: seq<(State, map<nat, nat>)>,
                             events: seq<JointEvent>)
  {
    && SameShape(sizes, c) && |states| == |events| + 1 && states[0] == (Init(c, threads), map[])
    && forall i | 0 <= i < |events| ::
         && JointEnabled(sizes, c, length, states[i].0, states[i].1, events[i])
         && (events[i].OfThread? ==> Safe(c, states[i].0, states[i].0.pcs[events[i].thread]))
         && states[i + 1] == JointStep(sizes, c, states[i].0, states[i].1, events[i])
  }

  /** In every state of every such run no two blocks of the heap share a byte, small or mapped; small blocks lie in the
      data area of a page, mappings start one; and the small blocks are exactly the live blocks of the protocol. */
  lemma {:induction false} JointRunKeeps(sizes: Sizes, c: Config, length: nat, threads: nat,
                                         states: seq<(State, map<nat, nat>)>, events: seq<JointEvent>, i: nat)
    requires IsJointRun(sizes, c, length, threads, states, events) && i < |states|
    ensures JointInv(sizes, c, length, states[i].0, states[i].1)
  {
    hide JointInv, JointEnabled, JointStep, Safe, SameShape;
    if i == 0 {
      JointInit(sizes, c, length, threads);
    } else {
      JointRunKeeps(sizes, c, length, threads, states, events, i - 1);
      JointKeeps(sizes, c, length, states[i - 1].0, states[i - 1].1, events[i - 1]);
    }
  }
}
