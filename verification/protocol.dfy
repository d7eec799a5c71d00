/** The bitmap allocator's concurrent protocol as a state machine.

    Every section under the lock is one atomic step, and every edit or scan of a bitmap by the thread
    that took the page off the lists is one private step. Any number of threads interleave freely. */
module Protocol {
  import opened Common
  import opened Rings
  import opened Runs

  type PageId = nat

  datatype ListId = Lru | Super(k: nat)

  datatype Block = Block(page: PageId, offset: nat, len: nat)

  datatype Config = Config(units: nat, header: nat, test: LastPageTest) {
    ghost predicate Valid() { 0 < header < units }
    function MaxData(): int { units - header }
  }

  datatype Op = Release | Shrink(units: nat) | Grow(units: nat)

  /** Where a thread stands. A comment says which lock section or private step comes next. */
  datatype Pc =
    | Idle
    | FindPage(n: nat)                          // lock: take the LRU page or search the superblock
    | ScanLru(n: nat, page: PageId)             // private: first fit on the page taken from LRU
    | AddSuper(n: nat, page: PageId, lfb: nat)  // lock: the page is too full, file it by its longest block
    | Search(n: nat)                            // lock: search the superblock
    | ScanSuper(n: nat, page: PageId)           // private: first fit on the page taken from the superblock
    | Mark(n: nat, page: PageId, offset: nat)   // private: set the bits of the new block
    | MapPage(n: nat)                           // private: map and initialise a new page, whose `list` is zero
    | Grab(op: Op, block: Block)                // lock: take the page of the block, or spin
    | Edit(op: Op, block: Block)                // private: clear or set bits
    | Unhand(page: PageId, ret: Option<Block>)  // lock: make the page the LRU page
    | Unmap(freed: PageId, ret: Option<Block>)    // private: return a wholly free page to the system
    | Aborted

  datatype State = State(
    bits: map<PageId, Bits>,
    list: map<PageId, Option<ListId>>,          // the `list` field of every mapped page
    lru: Option<PageId>,
    super: seq<seq<PageId>>,                    // the rings reachable from `superblock[k]`
    blocks: set<Block>,
    pcs: seq<Pc>)

  function Holds(pc: Pc): Option<PageId> {
    match pc
    case ScanLru(_, p) => Some(p)
    case AddSuper(_, p, _) => Some(p)
    case ScanSuper(_, p) => Some(p)
    case Mark(_, p, _) => Some(p)
    case Edit(_, b) => Some(b.page)
    case Unhand(p, _) => Some(p)
    case _ => None
  }

  function Awaits(pc: Pc): Option<PageId> {
    if pc.Unmap? then Some(pc.freed) else None
  }

  /** The block a thread is working on: no other thread may be given it. */
  function Claims(pc: Pc): Option<Block> {
    match pc
    case Grab(_, b) => Some(b)
    case Edit(_, b) => Some(b)
    case Unhand(_, ret) => ret
    case Unmap(_, ret) => ret
    case _ => None
  }

  // ---------- list operations ----------

  /** The page to delete is mapped and points to a list that exists. */
  predicate CanTakeOut(s: State, p: PageId) {
    p in s.list && s.list[p].Some? && (s.list[p].value.Super? ==> s.list[p].value.k < |s.super|)
  }

  function TakeOut(c: Config, s: State, p: PageId, drop: bool): State
    requires CanTakeOut(s, p)
  {
    match s.list[p].value
    case Lru => s.(lru := None, list := s.list[p := None])
    case Super(k) => s.(super := s.super[k := Deleted(c.test, s.super[k], p, drop)], list := s.list[p := None])
  }

  function AddTo(s: State, p: PageId, k: nat): State
    requires k < |s.super|
  {
    s.(super := s.super[k := s.super[k] + [p]], list := s.list[p := Some(Super(k))])
  }

  ghost predicate CanUnhand(c: Config, s: State, p: PageId) {
    && p in s.list
    && (s.lru.Some? ==> s.lru.value in s.bits && Lfb(c, s.bits, s.lru.value) <= c.MaxData() < |s.super|)
  }

  ghost function UnhandPage(c: Config, s: State, p: PageId, ret: Option<Block>): (State, Pc)
    requires CanUnhand(c, s, p)
  {
    var (s1, pc) :=
      if s.lru.None? then (s, Idle)
      else
        var q := s.lru.value;
        var lfb := Lfb(c, s.bits, q);
        if lfb < c.MaxData() then (AddTo(s, q, lfb), Idle) else (s, Unmap(q, ret));
    (s1.(lru := Some(p), list := s1.list[p := Some(Lru)]), pc)
  }

  /** The first non-empty list from `k` on. */
  function FirstList(super: seq<seq<PageId>>, k: nat): (r: nat)
    decreases |super| - k
    ensures k <= r && (r < |super| ==> super[r] != [])
    ensures forall j | k <= j < r && j < |super| :: super[j] == []
  {
    if |super| <= k || super[k] != [] then k else FirstList(super, k + 1)
  }

  predicate CanSearch(s: State, n: nat) {
    var k := FirstList(s.super, n);
    k < |s.super| ==> CanTakeOut(s, s.super[k][0])
  }

  function SearchSuper(c: Config, s: State, n: nat, drop: bool): (State, Pc)
    requires CanSearch(s, n)
  {
    var k := FirstList(s.super, n);
    if k < |s.super| then
      var p := s.super[k][0];
      (TakeOut(c, s, p, drop), ScanSuper(n, p))
    else (s, MapPage(n))
  }

  // ---------- steps ----------

  datatype Action =
    | StartAllocate(n: nat)
    | StartOp(op: Op, block: Block)
    | Advance(mapped: Option<PageId>, drop: bool)

  predicate SizeOk(c: Config, n: nat) { 0 < n < c.MaxData() }

  predicate OpOk(c: Config, op: Op, b: Block) {
    match op
    case Release => true
    case Shrink(m) => 0 < m < b.len
    case Grow(m) => b.len < m < c.MaxData()
  }

  /** Clients release and resize only blocks they own; the system maps only pages that are not mapped. */
  ghost predicate Enabled(c: Config, s: State, t: nat, a: Action) {
    && t < |s.pcs|
    && match a
       case StartAllocate(n) => s.pcs[t].Idle? && SizeOk(c, n)
       case StartOp(op, b) =>
         && s.pcs[t].Idle? && OpOk(c, op, b) && b in s.blocks
         && forall u | 0 <= u < |s.pcs| :: Claims(s.pcs[u]) != Some(b)
       case Advance(mapped, _) => !s.pcs[t].Idle? && !s.pcs[t].Aborted? && (mapped.Some? ==> mapped.value !in s.bits)
  }

  ghost function NewBits(c: Config, n: nat): Bits
    requires c.header + n <= c.units
  {
    Fill(seq(c.units, _ => false), true, 0, c.header + n)
  }

  /** The next step of a thread touches only mapped pages, and only bits and lists that exist. */
  ghost predicate Safe(c: Config, s: State, pc: Pc) {
    match pc
    case FindPage(n) => if s.lru.Some? then CanTakeOut(s, s.lru.value) else CanSearch(s, n)
    case ScanLru(_, p) => p in s.bits
    case AddSuper(_, p, lfb) => p in s.list && lfb < |s.super|
    case Search(n) => CanSearch(s, n)
    case ScanSuper(_, p) => p in s.bits
    case Mark(n, p, o) => p in s.bits && o + n <= |s.bits[p]|
    case MapPage(n) => c.header + n <= c.units
    case Grab(_, b) => b.page in s.list && (s.list[b.page].Some? ==> CanTakeOut(s, b.page))
    case Edit(op, b) =>
      && b.page in s.bits && b.offset + b.len <= |s.bits[b.page]|
      && (op.Shrink? ==> op.units <= b.len) && (op.Grow? ==> b.len <= op.units)
    case Unhand(p, _) => CanUnhand(c, s, p)
    case Unmap(q, _) => q in s.bits
    case Idle => true
    case Aborted => true
  }

  /** The state and the thread's next position after its private step or lock section. */
  ghost function Advanced(c: Config, s: State, pc: Pc, mapped: Option<PageId>, drop: bool): (State, Pc)
    requires Safe(c, s, pc)
  {
    match pc
    case FindPage(n) =>
      if s.lru.Some? then (TakeOut(c, s, s.lru.value, drop), ScanLru(n, s.lru.value)) else SearchSuper(c, s, n, drop)
    case ScanLru(n, p) =>
      var o := FirstFit(s.bits[p], c.header, n);
      (s, if o != 0 then Mark(n, p, o) else AddSuper(n, p, Lfb(c, s.bits, p)))
    case AddSuper(n, p, lfb) => (AddTo(s, p, lfb), Search(n))
    case Search(n) => SearchSuper(c, s, n, drop)
    case ScanSuper(n, p) =>
      var o := FirstFit(s.bits[p], c.header, n);
      (s, if o != 0 then Mark(n, p, o) else Aborted)
    case Mark(n, p, o) =>
      var b := Block(p, o, n);
      (s.(bits := s.bits[p := Fill(s.bits[p], true, o, n)], blocks := s.blocks + {b}), Unhand(p, Some(b)))
    case MapPage(n) =>
      if mapped.None? then (s, Idle)
      else
        var p := mapped.value;
        var b := Block(p, c.header, n);
        (s.(bits := s.bits[p := NewBits(c, n)], list := s.list[p := None], blocks := s.blocks + {b}),
            Unhand(p, Some(b)))
    case Grab(op, b) =>
      if s.list[b.page].Some? then (TakeOut(c, s, b.page, drop), Edit(op, b)) else (s, pc)
    case Edit(op, b) => EditBlock(s, op, b)
    case Unhand(p, ret) => UnhandPage(c, s, p, ret)
    case Unmap(q, _) => (s.(bits := s.bits - {q}, list := s.list - {q}), Idle)
    case Idle => (s, pc)
    case Aborted => (s, pc)
  }

  /** `bm_release`, `bm_shrink` and `bm_grow` between taking the page and handing it back. */
  ghost function EditBlock(s: State, op: Op, b: Block): (State, Pc)
    requires b.page in s.bits
    requires b.offset + b.len <= |s.bits[b.page]|
    requires (op.Shrink? ==> op.units <= b.len) && (op.Grow? ==> b.len <= op.units)
  {
    var p := b.page;
    match op
    case Release =>
      (s.(bits := s.bits[p := Fill(s.bits[p], false, b.offset, b.len)], blocks := s.blocks - {b}), Unhand(p, None))
    case Shrink(m) =>
      var b' := b.(len := m);
      (s.(bits := s.bits[p := Fill(s.bits[p], false, b.offset + m, b.len - m)], blocks := s.blocks - {b} + {b'}),
       Unhand(p, Some(b')))
    case Grow(m) =>
      if Free(s.bits[p], b.offset + b.len, m - b.len) then
        var b' := b.(len := m);
        (s.(bits := s.bits[p := Fill(s.bits[p], true, b.offset + b.len, m - b.len)], blocks := s.blocks - {b} + {b'}),
         Unhand(p, Some(b')))
      else (s, Unhand(p, Some(b)))
  }

  ghost function Step(c: Config, s: State, t: nat, a: Action): State
    requires Enabled(c, s, t, a) && Safe(c, s, s.pcs[t])
  {
    match a
    case StartAllocate(n) => s.(pcs := s.pcs[t := FindPage(n)])
    case StartOp(op, b) => s.(pcs := s.pcs[t := Grab(op, b)])
    case Advance(mapped, drop) =>
      var (s', pc) := Advanced(c, s, s.pcs[t], mapped, drop);
      s'.(pcs := s.pcs[t := pc])
  }

  function Init(c: Config, threads: nat): State
    requires 0 <= c.MaxData()
  {
    State(map[], map[], None, seq(c.MaxData() + 1, _ => []), {}, seq(threads, _ => Idle))
  }

  // ---------- the invariant ----------

  ghost predicate InData(c: Config, b: Block) {
    c.header <= b.offset && 0 < b.len && b.offset + b.len <= c.units
  }

  predicate Disjoint(a: Block, b: Block) {
    a.page != b.page || a.offset + a.len <= b.offset || b.offset + b.len <= a.offset
  }

  ghost predicate Covered(blocks: set<Block>, p: PageId, u: nat) {
    exists b | b in blocks :: b.page == p && b.offset <= u < b.offset + b.len
  }

  /** Each bitmap is the reserved header plus the disjoint union of the live blocks of its page. */
  ghost predicate BitmapInv(c: Config, bits: map<PageId, Bits>, blocks: set<Block>) {
    && (forall b | b in blocks :: b.page in bits && InData(c, b))
    && (forall a, b | a in blocks && b in blocks && a != b :: Disjoint(a, b))
    && (forall p | p in bits :: |bits[p]| == c.units)
    && (forall p, u: nat | p in bits && u < c.units :: bits[p][u] <==> u < c.header || Covered(blocks, p, u))
  }

  /** No two threads hold the same page, and `list` is null exactly for the held pages. */
  ghost predicate HolderInv(list: map<PageId, Option<ListId>>, pcs: seq<Pc>) {
    && (forall p | p in list && list[p] == None :: HeldBySome(pcs, p))
    && (forall t | 0 <= t < |pcs| && Holds(pcs[t]).Some? ::
          Holds(pcs[t]).value in list && list[Holds(pcs[t]).value] == None)
    && (forall t, u | 0 <= t < |pcs| && 0 <= u < |pcs| && t != u ::
          Holds(pcs[t]).Some? ==> Holds(pcs[t]) != Holds(pcs[u]))
  }

  ghost predicate HeldBySome(pcs: seq<Pc>, p: PageId) {
    exists t | 0 <= t < |pcs| :: Holds(pcs[t]) == Some(p)
  }

  /** `list` points to the LRU slot exactly for the page in that slot and for the pages set aside for unmapping,
      each of which one thread unmaps. */
  ghost predicate LruInv(list: map<PageId, Option<ListId>>, lru: Option<PageId>, pcs: seq<Pc>) {
    && (forall p: PageId | lru == Some(p) :: PointsToLru(list, p))
    && (forall p: PageId | PointsToLru(list, p) :: lru == Some(p) || AwaitedBySome(pcs, p))
    && (forall t | 0 <= t < |pcs| && Awaits(pcs[t]).Some? ::
          PointsToLru(list, Awaits(pcs[t]).value) && lru != Awaits(pcs[t]))
    && (forall t, u | 0 <= t < |pcs| && 0 <= u < |pcs| && t != u ::
          Awaits(pcs[t]).Some? ==> Awaits(pcs[t]) != Awaits(pcs[u]))
  }

  predicate PointsToLru(list: map<PageId, Option<ListId>>, p: PageId) {
    p in list && list[p] == Some(Lru)
  }

  ghost predicate AwaitedBySome(pcs: seq<Pc>, p: PageId) {
    exists t | 0 <= t < |pcs| :: Awaits(pcs[t]) == Some(p)
  }

  predicate PointsTo(list: map<PageId, Option<ListId>>, p: PageId, k: nat) {
    p in list && list[p] == Some(Super(k))
  }

  /** A ring member points to its list, and the longest free block of such a page is the index of the list.
      Only the intended deletion test also keeps every page that points to a list in that list. */
  ghost predicate RingInv(c: Config, bits: map<PageId, Bits>, list: map<PageId, Option<ListId>>,
      super: seq<seq<PageId>>) {
    && |super| == c.MaxData() + 1
    && (forall k, p: PageId | 0 <= k < |super| && p in super[k] :: PointsTo(list, p, k))
    && (forall k | 0 <= k < |super| :: Distinct(super[k]))
    && (forall p: PageId, k: nat | PointsTo(list, p, k) :: k < c.MaxData() && Lfb(c, bits, p) == k)
    && (c.test.NextIsSelf? ==> AllListed(list, super))
  }

  /** Membership: a page that points to a list is reachable from it. */
  ghost predicate AllListed(list: map<PageId, Option<ListId>>, super: seq<seq<PageId>>) {
    forall p: PageId, k: nat | PointsTo(list, p, k) :: k < |super| && p in super[k]
  }

  ghost function PageBits(bits: map<PageId, Bits>, p: PageId): Bits {
    if p in bits then bits[p] else []
  }

  ghost function Lfb(c: Config, bits: map<PageId, Bits>, p: PageId): nat {
    LongestFree(PageBits(bits, p), c.header)
  }

  ghost predicate NoBlocks(blocks: set<Block>, p: PageId) {
    forall b | b in blocks :: b.page != p
  }

  /** What a thread knows at its position. */
  ghost predicate PcOk(c: Config, bits: map<PageId, Bits>, blocks: set<Block>, pc: Pc) {
    match pc
    case FindPage(n) => SizeOk(c, n)
    case Search(n) => SizeOk(c, n)
    case MapPage(n) => SizeOk(c, n)
    case ScanLru(n, p) => SizeOk(c, n)
    case AddSuper(n, p, lfb) => SizeOk(c, n) && lfb == Lfb(c, bits, p) && lfb < n
    case ScanSuper(n, p) => SizeOk(c, n) && n <= Lfb(c, bits, p)
    case Mark(n, p, o) => SizeOk(c, n) && c.header <= o && Free(PageBits(bits, p), o, n)
    case Grab(op, b) => OpOk(c, op, b)
    case Edit(op, b) => OpOk(c, op, b)
    case Unmap(q, _) => NoBlocks(blocks, q)
    case Aborted => false
    case _ => true
  }

  /** No block is claimed by two threads. */
  ghost predicate ThreadInv(c: Config, bits: map<PageId, Bits>, blocks: set<Block>, pcs: seq<Pc>) {
    && (forall t | 0 <= t < |pcs| :: PcOk(c, bits, blocks, pcs[t]))
    && (forall t | 0 <= t < |pcs| && Claims(pcs[t]).Some? :: Claims(pcs[t]).value in blocks)
    && (forall t, u | 0 <= t < |pcs| && 0 <= u < |pcs| && t != u ::
          Claims(pcs[t]).Some? ==> Claims(pcs[t]) != Claims(pcs[u]))
  }

  ghost predicate Inv(c: Config, s: State) {
    && c.Valid()
    && s.list.Keys == s.bits.Keys
    && BitmapInv(c, s.bits, s.blocks)
    && HolderInv(s.list, s.pcs)
    && LruInv(s.list, s.lru, s.pcs)
    && RingInv(c, s.bits, s.list, s.super)
    && ThreadInv(c, s.bits, s.blocks, s.pcs)
  }
}
