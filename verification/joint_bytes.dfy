/** The bytes of the blocks over joint runs: a live block keeps its bytes under the steps of all threads but its
    owner's. */
module JointBytes {
  import opened Common
  import opened Words
  import opened Alignment
  import opened Protocol
  import opened ProtocolSafety
  import opened Reallocation
  import opened Layers

  ghost function ChangeOf(sizes: Sizes, c: Config, s: State, e: JointEvent): Change
    requires e.OfThread? ==> Enabled(c, s, e.thread, e.action) && Safe(c, s, s.pcs[e.thread])
  {
    match e
    case OfThread(t, a, n) => HeapChange(sizes, c, s, t, a, n)
    case OfSystem(change) => change
  }

  /** The block that an event is about: allocated, resized, released, or written by its owner. */
  function Concerns(change: Change, a: nat): bool {
    match change
    case Same => false
    case Put(x, _) => x == a
    case Remove(x) => x == a
  }

  /** The page that a step maps or unmaps. */
  ghost function PageReplaced(s: State, e: JointEvent): Option<PageId>
    requires e.OfThread? ==> e.thread < |s.pcs|
  {
    if !e.OfThread? || !e.action.Advance? then None else
    match s.pcs[e.thread]
    case MapPage(_) => e.action.mapped
    case Unmap(q, _) => Some(q)
    case _ => None
  }

  /** The bytes that an event may write: the block it is about, the headers of bitmap pages, and a page that comes from
      the system or goes back to it. */
  ghost predicate MayWrite(sizes: Sizes, c: Config, s: State, blocks: map<nat, nat>, e: JointEvent, i: nat)
    requires e.OfThread? ==> Enabled(c, s, e.thread, e.action) && Safe(c, s, s.pcs[e.thread])
  {
    || (match ChangeOf(sizes, c, s, e)
        case Same => false
        case Put(a, n) => a <= i < a + sizes.Footprint(n)
        case Remove(a) => a in blocks && a <= i < a + sizes.Footprint(blocks[a]))
    || (exists p | p in s.bits :: PageAt(sizes, p) <= i < PageAt(sizes, p) + sizes.header * UNIT)
    || (PageReplaced(s, e).Some? && InPage(sizes, PageReplaced(s, e).value, i))
  }

  predicate InPage(sizes: Sizes, p: PageId, i: nat) {
    PageAt(sizes, p) <= i < PageAt(sizes, p) + sizes.os.PageSize()
  }

  lemma PagesApart(sizes: Sizes, p: PageId, q: PageId)
    requires p != q
    ensures var size := sizes.os.PageSize();
            PageAt(sizes, p) + size <= PageAt(sizes, q) || PageAt(sizes, q) + size <= PageAt(sizes, p)
  {
    hide Platform.PageSize;
    if p < q { MulGap(sizes.os.PageSize(), p, q); } else { MulGap(sizes.os.PageSize(), q, p); }
  }

  /** A small block lies in the data area of the page of its block in the protocol. */
  lemma SmallInPage(sizes: Sizes, c: Config, length: nat, s: State, blocks: map<nat, nat>, a: nat)
      returns (b: Block)
    requires JointInv(sizes, c, length, s, blocks) && a in blocks && sizes.Small(blocks[a])
    ensures b in s.blocks && PageAt(sizes, b.page) + sizes.header * UNIT <= a
    ensures a + sizes.Footprint(blocks[a]) <= PageAt(sizes, b.page) + sizes.os.PageSize()
  {
    hide Words.Pow2, UnitsOf, HolderInv, RingInv, LruInv, ThreadInv, Platform.PageSize, Sizes.Footprint;
    b :| b in s.blocks && IsBlockOf(sizes, b, a, blocks[a]);
    sizes.PlacedFacts(length, blocks, a);
    BlockPlaced(sizes, c, b, blocks[a]);
  }

  /** No block reaches into the header of a bitmap page. */
  lemma HeaderSpared(sizes: Sizes, c: Config, length: nat, s: State, blocks: map<nat, nat>, a: nat, p: PageId)
    requires JointInv(sizes, c, length, s, blocks) && a in blocks && p in s.bits
    ensures var h := PageAt(sizes, p); a + sizes.Footprint(blocks[a]) <= h || h + sizes.header * UNIT <= a
  {
    HeaderFits(sizes, c);
    if sizes.Small(blocks[a]) {
      var b := SmallInPage(sizes, c, length, s, blocks, a);
      if b.page != p { PagesApart(sizes, b.page, p); }
      hide JointInv, PageAt, Sizes.Footprint, Platform.PageSize;
    } else {
      hide SameShape, Inv, PageAt, Sizes.Footprint, Platform.PageSize, Sizes.BlocksOk, IsBlockOf;
    }
  }

  lemma HeaderFits(sizes: Sizes, c: Config)
    requires SameShape(sizes, c)
    ensures sizes.header * UNIT <= sizes.os.PageSize()
  {
    hide Platform.PageSize;
  }

  /** A page to be unmapped has no block of the heap. */
  lemma UnmapVacant(sizes: Sizes, c: Config, length: nat, s: State, blocks: map<nat, nat>, t: nat, a: nat)
    requires JointInv(sizes, c, length, s, blocks) && t < |s.pcs| && s.pcs[t].Unmap? && a in blocks
    ensures var q, size := PageAt(sizes, s.pcs[t].freed), sizes.os.PageSize();
            a + sizes.Footprint(blocks[a]) <= q || q + size <= a
  {
    hide SameShape, PageAt, Sizes.Footprint, Platform.PageSize, Sizes.BlocksOk, Sizes.Small, Matches, Inv;
    var q := s.pcs[t].freed;
    FreedPage(c, s, t);
    if sizes.Small(blocks[a]) {
      var b := SmallInPage(sizes, c, length, s, blocks, a);
      PagesApart(sizes, b.page, q);
    } else {
      MappingApart(sizes, s, length, blocks, a, q);
    }
  }

  lemma FreedPage(c: Config, s: State, t: nat)
    requires Inv(c, s) && t < |s.pcs| && s.pcs[t].Unmap?
    ensures s.pcs[t].freed in s.bits && NoBlocks(s.blocks, s.pcs[t].freed)
  {
    hide HolderInv, RingInv, BitmapInv, ThreadInv;
    ThreadFacts(c, s.bits, s.blocks, s.pcs, t);
    LruFacts(s.list, s.lru, s.pcs, t);
  }

  lemma MappingApart(sizes: Sizes, s: State, length: nat, blocks: map<nat, nat>, a: nat, p: PageId)
    requires Matches(sizes, s.bits, s.blocks, length, blocks) && a in blocks && !sizes.Small(blocks[a]) && p in s.bits
    ensures a + sizes.Footprint(blocks[a]) <= PageAt(sizes, p) || PageAt(sizes, p) + sizes.os.PageSize() <= a
  {
    hide PageAt, Sizes.Footprint, Platform.PageSize, Sizes.Small, IsBlockOf, IsHeapBlock;
  }

  /** The block that an event is about is apart from the others, before and after it. */
  lemma ConcernApart(sizes: Sizes, length: nat, blocks: map<nat, nat>, change: Change, a: nat)
    requires sizes.BlocksOk(length, blocks) && sizes.BlocksOk(length, change.Apply(blocks))
    requires a in blocks && !Concerns(change, a)
    ensures a in change.Apply(blocks) && change.Apply(blocks)[a] == blocks[a]
    ensures change.Put? ==> a + sizes.Footprint(blocks[a]) <= change.addr ||
                            change.addr + sizes.Footprint(change.n) <= a
    ensures change.Remove? && change.addr in blocks ==>
              a + sizes.Footprint(blocks[a]) <= change.addr ||
              change.addr + sizes.Footprint(blocks[change.addr]) <= a
  {
    hide Sizes.Footprint, Sizes.Placed;
    if change.Put? {
      var blocks' := change.Apply(blocks);
      assert change.addr in blocks' && a in blocks';
    }
  }

  /** An event writes no byte of a block that it is not about, and leaves the block as it is. */
  lemma EventSpares(sizes: Sizes, c: Config, length: nat, s: State, blocks: map<nat, nat>, e: JointEvent, a: nat,
                    i: nat)
    requires JointInv(sizes, c, length, s, blocks) && JointEnabled(sizes, c, length, s, blocks, e)
    requires e.OfThread? ==> Safe(c, s, s.pcs[e.thread])
    requires a in blocks && !Concerns(ChangeOf(sizes, c, s, e), a) && a <= i < a + sizes.Footprint(blocks[a])
    ensures var blocks' := JointStep(sizes, c, s, blocks, e).1; a in blocks' && blocks'[a] == blocks[a]
    ensures !MayWrite(sizes, c, s, blocks, e, i)
  {
    hide Safe, Step, Matches, SameShape, Sizes.Footprint, Sizes.BlocksOk, HeapChange, Concerns, PageAt, Inv,
      Change.Apply, Platform.PageSize;
    JointKeeps(sizes, c, length, s, blocks, e);
    ConcernApart(sizes, length, blocks, ChangeOf(sizes, c, s, e), a);
    forall p | p in s.bits ensures !(PageAt(sizes, p) <= i < PageAt(sizes, p) + sizes.header * UNIT) {
      HeaderSpared(sizes, c, length, s, blocks, a, p);
    }
    if e.OfThread? && e.action.Advance? && s.pcs[e.thread].Unmap? {
      UnmapVacant(sizes, c, length, s, blocks, e.thread, a);
    }
  }

  /** The memory before and after every event of a joint run: an event writes only what it may write. */
  ghost predicate IsMemoryRun(sizes: Sizes, c: Config, length: nat, threads: nat, states: seq<(State, map<nat, nat>)>,
                              events: seq<JointEvent>, mems: seq<seq<Byte>>)
  {
    && IsJointRun(sizes, c, length, threads, states, events) && |mems| == |states|
    && (forall i | 0 <= i < |mems| :: |mems[i]| == length)
    && forall i, x | 0 <= i < |events| && 0 <= x < length && mems[i + 1][x] != mems[i][x] ::
         MayWrite(sizes, c, states[i].0, states[i].1, events[i], x)
  }

  /** From state `i` to state `j` no event is about the block at `a`. */
  ghost predicate Untouched(sizes: Sizes, c: Config, states: seq<(State, map<nat, nat>)>, events: seq<JointEvent>,
                            i: nat, j: nat, a: nat)
    requires i <= j <= |events| < |states|
    requires forall m | i <= m < j && events[m].OfThread? ::
               && Enabled(c, states[m].0, events[m].thread, events[m].action)
               && Safe(c, states[m].0, states[m].0.pcs[events[m].thread])
  {
    forall m | i <= m < j :: !Concerns(ChangeOf(sizes, c, states[m].0, events[m]), a)
  }

  /** Between two states of any run of any number of threads, a live block that no event in between is about stays
      where it is, with its size and with all its bytes. */
  lemma {:induction false} BytesAreKept(sizes: Sizes, c: Config, length: nat, threads: nat,
                                        states: seq<(State, map<nat, nat>)>, events: seq<JointEvent>,
                                        mems: seq<seq<Byte>>, i: nat, j: nat, a: nat)
    requires IsMemoryRun(sizes, c, length, threads, states, events, mems) && i <= j < |states|
    requires a in states[i].1 && Untouched(sizes, c, states, events, i, j, a)
    ensures a in states[j].1 && states[j].1[a] == states[i].1[a] && a + states[i].1[a] <= length
    ensures mems[j][a..a + states[i].1[a]] == mems[i][a..a + states[i].1[a]]
  {
    hide JointInv, JointEnabled, JointStep, Safe, Enabled, SameShape, MayWrite, Concerns, ChangeOf;
    JointRunKeeps(sizes, c, length, threads, states, events, i);
    InMemory(sizes, c, length, states[i].0, states[i].1, a);
    if i < j {
      BytesAreKept(sizes, c, length, threads, states, events, mems, i, j - 1, a);
      JointRunKeeps(sizes, c, length, threads, states, events, j - 1);
      var n := states[i].1[a];
      InMemory(sizes, c, length, states[j - 1].0, states[j - 1].1, a);
      EventSpares(sizes, c, length, states[j - 1].0, states[j - 1].1, events[j - 1], a, a);
      forall x | a <= x < a + n ensures mems[j][x] == mems[j - 1][x] {
        EventSpares(sizes, c, length, states[j - 1].0, states[j - 1].1, events[j - 1], a, x);
      }
    }
  }

  lemma InMemory(sizes: Sizes, c: Config, length: nat, s: State, blocks: map<nat, nat>, a: nat)
    requires JointInv(sizes, c, length, s, blocks) && a in blocks
    ensures a < a + blocks[a] <= a + sizes.Footprint(blocks[a]) <= length
  {
    hide Inv, Matches, SameShape;
    sizes.PlacedFacts(length, blocks, a);
  }
}
