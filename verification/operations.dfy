/** What a call of the bitmap allocator does over a whole run, whatever the other threads do meanwhile: it takes effect
    in exactly one of its steps, as if the call happened there at once, and a page is asked for only as the last
    resort. Nothing here refers to how a step computes the next state. */
module Operations {
  import opened Common
  import opened Rings
  import opened Runs
  import opened Protocol
  import opened BitmapSafety
  import opened ProtocolSafety
  import opened ProtocolRuns
  import opened ProtocolTheorems

  datatype Call = Allocate(n: nat) | Operate(op: Op, block: Block)

  function CallOf(a: Action): Option<Call> {
    match a
    case StartAllocate(n) => Some(Allocate(n))
    case StartOp(op, b) => Some(Operate(op, b))
    case Advance(_, _) => None
  }

  // ---------- effects ----------

  /** On page `p` exactly the units of the interval change, each from the other value. Other bitmaps stay. */
  ghost predicate UnitsBecome(s: State, s': State, p: PageId, offset: nat, len: nat, value: bool) {
    && p in s.bits && s'.bits.Keys == s.bits.Keys && |s'.bits[p]| == |s.bits[p]| && offset + len <= |s.bits[p]|
    && (forall q | q in s.bits && q != p :: s'.bits[q] == s.bits[q])
    && forall u | 0 <= u < |s.bits[p]| ::
         if offset <= u < offset + len then s.bits[p][u] == !value && s'.bits[p][u] == value
         else s'.bits[p][u] == s.bits[p][u]
  }

  /** Page `p` is new, with exactly the header and the first `n` data units in use. Other bitmaps stay. */
  ghost predicate PageComes(c: Config, s: State, s': State, p: PageId, n: nat) {
    && p !in s.bits && s'.bits.Keys == s.bits.Keys + {p} && |s'.bits[p]| == c.units
    && (forall q | q in s.bits :: s'.bits[q] == s.bits[q])
    && forall u | 0 <= u < c.units :: s'.bits[p][u] <==> u < c.header + n
  }

  /** No bitmap changes, except that a page without blocks may go. */
  ghost predicate Quiet(s: State, s': State) {
    && s'.blocks == s.blocks && s'.bits.Keys <= s.bits.Keys
    && (forall q | q in s'.bits :: s'.bits[q] == s.bits[q])
    && forall q | q in s.bits && q !in s'.bits :: NoBlocks(s.blocks, q)
  }

  ghost predicate HasRoom(c: Config, s: State, p: PageId, n: nat) {
    p in s.bits && HasFree(s.bits[p], c.header, n)
  }

  /** The lowest place for `n` units on the page. */
  ghost predicate IsLowest(c: Config, s: State, p: PageId, offset: nat, n: nat) {
    p in s.bits && c.header <= offset && forall o: nat | c.header <= o < offset :: !Free(s.bits[p], o, n)
  }

  /** One block of `n` units is added, at the lowest place on a mapped page or first on a new one. */
  ghost predicate Allocates(c: Config, s: State, s': State, b: Block, n: nat) {
    && b.len == n && b !in s.blocks && s'.blocks == s.blocks + {b}
    && if b.page in s.bits then UnitsBecome(s, s', b.page, b.offset, n, true) && IsLowest(c, s, b.page, b.offset, n)
       else b.offset == c.header && PageComes(c, s, s', b.page, n)
  }

  /** A block gives way to one with other units at the same place, or to none; the units between change. */
  ghost predicate Replaces(s: State, s': State, b: Block, b': Option<Block>, from: nat, n: nat, value: bool) {
    && b in s.blocks && s'.blocks == s.blocks - {b} + (if b'.Some? then {b'.value} else {})
    && UnitsBecome(s, s', b.page, from, n, value)
  }

  /** The one change that a call makes, and the block that the caller has afterwards. */
  ghost predicate Effect(c: Config, call: Call, s: State, s': State, result: Option<Block>) {
    match call
    case Allocate(n) => if result.Some? then Allocates(c, s, s', result.value, n) else Quiet(s, s')
    case Operate(op, b) =>
      match op
      case Release => result == None && Replaces(s, s', b, None, b.offset, b.len, false)
      case Shrink(m) =>
        result == Some(b.(len := m)) && m < b.len && Replaces(s, s', b, result, b.offset + m, b.len - m, false)
      case Grow(m) =>
        b.len < m &&
        if b.page in s.bits && Free(s.bits[b.page], b.offset + b.len, m - b.len) then
          result == Some(b.(len := m)) && Replaces(s, s', b, result, b.offset + b.len, m - b.len, true)
        else result == Some(b) && Quiet(s, s')
  }

  // ---------- where an allocation looks ----------

  /** There is no LRU page, or it has no `n` free units in a row. */
  ghost predicate LruFull(c: Config, s: State, n: nat) {
    s.lru.Some? ==> !HasRoom(c, s, s.lru.value, n)
  }

  /** No list for pages with `n` free units in a row has a page. */
  ghost predicate NoneListed(s: State, n: nat) {
    forall k | n <= k < |s.super| :: s.super[k] == []
  }

  /** The page is in the first non-empty list for pages with `n` free units in a row. */
  ghost predicate ListedFirst(s: State, n: nat, p: PageId) {
    exists k | n <= k < |s.super| :: p in s.super[k] && forall x | n <= x < k :: s.super[x] == []
  }

  /** The thread took page `p` because it was the LRU page, or the LRU page was full and `p` was listed first. */
  ghost predicate Chosen(c: Config, looked: State, found: State, n: nat, p: PageId) {
    looked.lru == Some(p) || (LruFull(c, looked, n) && ListedFirst(found, n, p))
  }

  /** What a thread at this position of an allocation has seen: `looked` when it asked for the LRU page, `found` when it
      searched the superblock. */
  ghost predicate Seen(c: Config, looked: State, found: State, s: State, pc: Pc) {
    match pc
    case ScanLru(n, p) => looked.lru == Some(p) && p in looked.bits && p in s.bits && looked.bits[p] == s.bits[p]
    case AddSuper(n, _, _) => LruFull(c, looked, n)
    case Search(n) => LruFull(c, looked, n)
    case ScanSuper(n, p) => Chosen(c, looked, found, n, p)
    case Mark(n, p, o) => Chosen(c, looked, found, n, p) && IsLowest(c, s, p, o, n)
    case MapPage(n) => LruFull(c, looked, n) && NoneListed(found, n)
    case _ => true
  }

  /** The call has not taken effect. */
  predicate Pending(call: Call, pc: Pc) {
    match call
    case Allocate(n) =>
      (match pc
       case FindPage(m) => m == n
       case ScanLru(m, _) => m == n
       case AddSuper(m, _, _) => m == n
       case Search(m) => m == n
       case ScanSuper(m, _) => m == n
       case Mark(m, _, _) => m == n
       case MapPage(m) => m == n
       case _ => false)
    case Operate(op, b) => pc == Grab(op, b) || pc == Edit(op, b)
  }

  /** The call has taken effect, and the thread carries the block that it ends with. */
  predicate Finishing(pc: Pc, result: Option<Block>) {
    match pc
    case Unhand(_, ret) => ret == result
    case Unmap(_, ret) => ret == result
    case Idle => true
    case _ => false
  }

  // ---------- single steps ----------

  /** The lock section that asks for the LRU page. */
  lemma LookStep(c: Config, s: State, t: nat, mapped: Option<PageId>, drop: bool)
    requires Inv(c, s) && Enabled(c, s, t, Advance(mapped, drop)) && Safe(c, s, s.pcs[t]) && s.pcs[t].FindPage?
    ensures var s' := Step(c, s, t, Advance(mapped, drop));
            && Quiet(s, s') && Pending(Allocate(s.pcs[t].n), s'.pcs[t]) && Seen(c, s, s, s', s'.pcs[t])
  {
    hide Inv, Lfb, Deleted, FirstList, Free, NewBits, EditBlock, UnhandPage, AddTo, CanUnhand, NoneListed, ListedFirst,
      HasRoom;
    LruIsMapped(c, s);
    FirstListFacts(s, s.pcs[t].n);
  }

  lemma LruIsMapped(c: Config, s: State)
    requires Inv(c, s)
    ensures s.lru.Some? ==> s.lru.value in s.bits
  {
    hide BitmapInv, HolderInv, ThreadInv, RingInv;
  }

  lemma FirstListFacts(s: State, n: nat)
    ensures var k := FirstList(s.super, n);
            if k < |s.super| then s.super[k] != [] && ListedFirst(s, n, s.super[k][0]) else NoneListed(s, n)
  {
    var k := FirstList(s.super, n);
    if k < |s.super| { assert s.super[k][0] in s.super[k]; }
  }

  /** The lock section that searches the superblock. */
  lemma SearchStep(c: Config, looked: State, s: State, t: nat, mapped: Option<PageId>, drop: bool)
    requires Inv(c, s) && Enabled(c, s, t, Advance(mapped, drop)) && Safe(c, s, s.pcs[t]) && s.pcs[t].Search?
    requires LruFull(c, looked, s.pcs[t].n)
    ensures var s' := Step(c, s, t, Advance(mapped, drop));
            && Quiet(s, s') && Pending(Allocate(s.pcs[t].n), s'.pcs[t]) && Seen(c, looked, s, s', s'.pcs[t])
  {
    hide Inv, Lfb, Deleted, FirstList, Free, LruFull, NewBits, EditBlock, UnhandPage, AddTo, CanUnhand, NoneListed,
      ListedFirst;
    FirstListFacts(s, s.pcs[t].n);
  }

  /** Scanning the page taken, LRU or listed. */
  lemma ScanStep(c: Config, looked: State, found: State, s: State, t: nat, mapped: Option<PageId>, drop: bool)
    requires Inv(c, s) && Enabled(c, s, t, Advance(mapped, drop)) && Safe(c, s, s.pcs[t])
    requires s.pcs[t].ScanLru? || s.pcs[t].ScanSuper?
    requires Seen(c, looked, found, s, s.pcs[t])
    ensures var s' := Step(c, s, t, Advance(mapped, drop));
            && Quiet(s, s') && Pending(Allocate(s.pcs[t].n), s'.pcs[t]) && Seen(c, looked, found, s', s'.pcs[t])
  {
    hide Inv, Lfb, Runs.FirstFit, Free, ListedFirst, NewBits, EditBlock, UnhandPage, SearchSuper, TakeOut, AddTo,
      CanUnhand, CanSearch, CanTakeOut, NoneListed;
    var p, n := s.pcs[t].page, s.pcs[t].n;
    StepKeeps(c, s, t, Advance(mapped, drop));
    NotAborted(c, Step(c, s, t, Advance(mapped, drop)), t);
    ScanFacts(c, s, t);
  }

  lemma ScanFacts(c: Config, s: State, t: nat)
    requires Inv(c, s) && t < |s.pcs| && (s.pcs[t].ScanLru? || s.pcs[t].ScanSuper?) && s.pcs[t].page in s.bits
    ensures var p, n := s.pcs[t].page, s.pcs[t].n;
            var o := FirstFit(s.bits[p], c.header, n);
            if o == 0 then !HasRoom(c, s, p, n) else IsLowest(c, s, p, o, n)
  {
    hide BitmapInv, HolderInv, LruInv, RingInv, ThreadInv, Runs.FirstFit, Free, Lfb;
    FirstFitIsLowest(s.bits[s.pcs[t].page], c.header, s.pcs[t].n);
    ThreadFacts(c, s.bits, s.blocks, s.pcs, t);
    BeyondPage(s.bits[s.pcs[t].page], s.pcs[t].n);
  }

  lemma BeyondPage(bits: Bits, n: nat)
    ensures 0 < n ==> forall o: nat | |bits| <= o :: !Free(bits, o, n)
  {
  }

  lemma NotAborted(c: Config, s: State, t: nat)
    requires Inv(c, s) && t < |s.pcs|
    ensures !s.pcs[t].Aborted?
  {
    ThreadFacts(c, s.bits, s.blocks, s.pcs, t);
    hide BitmapInv, HolderInv, LruInv, RingInv, ThreadInv;
  }

  lemma FileStep(c: Config, looked: State, found: State, s: State, t: nat, mapped: Option<PageId>, drop: bool)
    requires Enabled(c, s, t, Advance(mapped, drop)) && Safe(c, s, s.pcs[t]) && s.pcs[t].AddSuper?
    requires Seen(c, looked, found, s, s.pcs[t])
    ensures var s' := Step(c, s, t, Advance(mapped, drop));
            && Quiet(s, s') && Pending(Allocate(s.pcs[t].n), s'.pcs[t]) && Seen(c, looked, found, s', s'.pcs[t])
  {
    hide LruFull, Lfb, Deleted, FirstList, Free, NewBits, EditBlock, UnhandPage, CanUnhand;
  }

  /** An allocation on a page that is mapped takes effect when the bits are set, */
  lemma MarkStep(c: Config, looked: State, found: State, s: State, t: nat, mapped: Option<PageId>, drop: bool)
    requires Inv(c, s) && Enabled(c, s, t, Advance(mapped, drop)) && Safe(c, s, s.pcs[t]) && s.pcs[t].Mark?
    requires Seen(c, looked, found, s, s.pcs[t])
    ensures var s', b := Step(c, s, t, Advance(mapped, drop)), Block(s.pcs[t].page, s.pcs[t].offset, s.pcs[t].n);
            && Effect(c, Allocate(s.pcs[t].n), s, s', Some(b)) && s'.pcs[t] == Unhand(b.page, Some(b))
  {
    hide Inv, Chosen, Lfb, Deleted, FirstList, EditBlock, UnhandPage, SearchSuper, TakeOut, AddTo, NewBits, CanUnhand;
    MarkFacts(c, s, t);
  }

  lemma MarkFacts(c: Config, s: State, t: nat)
    requires Inv(c, s) && t < |s.pcs| && s.pcs[t].Mark?
    ensures s.pcs[t].page in s.bits && Free(s.bits[s.pcs[t].page], s.pcs[t].offset, s.pcs[t].n)
    ensures Block(s.pcs[t].page, s.pcs[t].offset, s.pcs[t].n) !in s.blocks
  {
    HeldPage(c, s, t, s.pcs[t].page);
    hide RingInv, LruInv, HolderInv, BitmapInv;
    ThreadFacts(c, s.bits, s.blocks, s.pcs, t);
    var b := Block(s.pcs[t].page, s.pcs[t].offset, s.pcs[t].n);
    MarkKeeps(c, s.bits, s.blocks, b);
  }

  /** and on a new page when that is mapped; or never, when the system refuses. */
  lemma MapStep(c: Config, s: State, t: nat, mapped: Option<PageId>, drop: bool)
    requires Inv(c, s) && Enabled(c, s, t, Advance(mapped, drop)) && Safe(c, s, s.pcs[t]) && s.pcs[t].MapPage?
    ensures var s', n := Step(c, s, t, Advance(mapped, drop)), s.pcs[t].n;
            var result := if mapped.Some? then Some(Block(mapped.value, c.header, n)) else None;
            && Effect(c, Allocate(n), s, s', result) && Finishing(s'.pcs[t], result)
            && (result.Some? ==> s'.pcs[t] == Unhand(result.value.page, result))
  {
    hide RingInv, LruInv, HolderInv, ThreadInv;
    if mapped.Some? { assert Block(mapped.value, c.header, s.pcs[t].n) !in s.blocks; }
    hide BitmapInv;
  }

  lemma GrabStep(c: Config, s: State, t: nat, mapped: Option<PageId>, drop: bool)
    requires Enabled(c, s, t, Advance(mapped, drop)) && Safe(c, s, s.pcs[t]) && s.pcs[t].Grab?
    ensures var s' := Step(c, s, t, Advance(mapped, drop));
            Quiet(s, s') && Pending(Operate(s.pcs[t].op, s.pcs[t].block), s'.pcs[t])
  {
    hide Deleted;
  }

  /** Releasing and resizing take effect when the bits are edited. */
  lemma EditStep(c: Config, s: State, t: nat, mapped: Option<PageId>, drop: bool) returns (result: Option<Block>)
    requires Inv(c, s) && Enabled(c, s, t, Advance(mapped, drop)) && Safe(c, s, s.pcs[t]) && s.pcs[t].Edit?
    ensures var s' := Step(c, s, t, Advance(mapped, drop));
            && Effect(c, Operate(s.pcs[t].op, s.pcs[t].block), s, s', result)
            && s'.pcs[t] == Unhand(s.pcs[t].block.page, result)
  {
    hide Inv, Lfb, NewBits, UnhandPage, SearchSuper, TakeOut, AddTo, CanUnhand, CanSearch, CanTakeOut;
    var op, b := s.pcs[t].op, s.pcs[t].block;
    EditFacts(c, s, t, op, b);
    BlockIsSet(c, s, b);
    match op
    case Release => result := None;
    case Shrink(m) => result := Some(b.(len := m));
    case Grow(m) =>
      result := Some(if Free(s.bits[b.page], b.offset + b.len, m - b.len) then b.(len := m) else b);
  }

  lemma BlockIsSet(c: Config, s: State, b: Block)
    requires Inv(c, s) && b in s.blocks
    ensures b.page in s.bits && Run(s.bits[b.page], true, b.offset, b.len)
  {
    hide RingInv, LruInv, HolderInv, ThreadInv;
    assert forall u: nat | b.offset <= u < b.offset + b.len :: Covered(s.blocks, b.page, u);
  }

  /** Handing the page back, and unmapping the page it replaces. */
  lemma FinishStep(c: Config, s: State, t: nat, mapped: Option<PageId>, drop: bool, result: Option<Block>)
    requires Inv(c, s) && Enabled(c, s, t, Advance(mapped, drop)) && Safe(c, s, s.pcs[t])
    requires Finishing(s.pcs[t], result)
    ensures var s' := Step(c, s, t, Advance(mapped, drop));
            && Quiet(s, s') && s'.blocks == s.blocks && Finishing(s'.pcs[t], result)
            && (!s.pcs[t].Idle? ==> s'.pcs[t].Idle? || Claims(s'.pcs[t]) == result)
  {
    ThreadFacts(c, s.bits, s.blocks, s.pcs, t);
    hide BitmapInv, HolderInv, LruInv, RingInv, ThreadInv, Lfb;
  }

  lemma ClaimIsLive(c: Config, s: State, t: nat)
    requires Inv(c, s) && t < |s.pcs|
    ensures Claims(s.pcs[t]).Some? ==> Claims(s.pcs[t]).value in s.blocks
  {
    hide BitmapInv, HolderInv, LruInv, RingInv;
  }

  /** A thread's step before its call has taken effect. What it looks at then is the present state, or what it saw. */
  lemma PendingStep(c: Config, call: Call, looked: State, found: State, s: State, t: nat, a: Action)
    returns (looks: bool, finds: bool, done: bool, result: Option<Block>)
    requires Inv(c, s) && Enabled(c, s, t, a) && Safe(c, s, s.pcs[t])
    requires Pending(call, s.pcs[t]) && Seen(c, looked, found, s, s.pcs[t])
    ensures looks ==> finds
    ensures var s' := Step(c, s, t, a);
            if !done then
              && Quiet(s, s') && Pending(call, s'.pcs[t])
              && Seen(c, if looks then s else looked, if finds then s else found, s', s'.pcs[t])
            else
              && Effect(c, call, s, s', result) && Finishing(s'.pcs[t], result)
              && (s'.pcs[t].Idle? || Claims(s'.pcs[t]) == result)
              && (result.Some? ==> result.value in s'.blocks)
              && !looks && !finds && (call.Allocate? ==> PlaceJustified(c, looked, found, s, a, call.n, result))
  {
    hide Inv, Step, Safe, Quiet, Effect, LruFull, NoneListed, ListedFirst, IsLowest;
    looks, finds, done, result := false, false, false, None;
    StepKeeps(c, s, t, a);
    StepMovesOne(c, s, t, a);
    ClaimIsLive(c, Step(c, s, t, a), t);
    var mapped, drop := a.mapped, a.drop;
    match s.pcs[t]
    case FindPage(n) => LookStep(c, s, t, mapped, drop); looks, finds := true, true;
    case Search(n) => SearchStep(c, looked, s, t, mapped, drop); finds := true;
    case ScanLru(n, p) => ScanStep(c, looked, found, s, t, mapped, drop);
    case ScanSuper(n, p) => ScanStep(c, looked, found, s, t, mapped, drop);
    case AddSuper(n, p, lfb) => FileStep(c, looked, found, s, t, mapped, drop);
    case Mark(n, p, o) =>
      MarkStep(c, looked, found, s, t, mapped, drop);
      assert p in s.bits by { HeldPage(c, s, t, p); }
      done, result := true, Some(Block(p, o, n));
    case MapPage(n) =>
      MapStep(c, s, t, mapped, drop);
      done, result := true, if mapped.Some? then Some(Block(mapped.value, c.header, n)) else None;
    case Grab(op, b) => GrabStep(c, s, t, mapped, drop);
    case Edit(op, b) => result := EditStep(c, s, t, mapped, drop); done := true;
  }

  /** Why a block is where it is: on a page that is mapped it is the LRU page, or the LRU page is full and the page is
      the first of the lists; a new page is asked for only when there is neither, and there is no block only when the
      system refuses. */
  ghost predicate PlaceJustified(c: Config, looked: State, found: State, s: State, a: Action, n: nat,
                                 result: Option<Block>) {
    if result.Some? && result.value.page in s.bits then Chosen(c, looked, found, n, result.value.page)
    else
      && LruFull(c, looked, n) && NoneListed(found, n)
      && a.Advance? && a.mapped == if result.Some? then Some(result.value.page) else None
  }

  /** The steps of other threads do not touch the page that a thread holds, nor what it has seen. */
  lemma OthersStep(c: Config, looked: State, found: State, s: State, t: nat, a: Action, u: nat)
    requires Inv(c, s) && Enabled(c, s, t, a) && Safe(c, s, s.pcs[t]) && u < |s.pcs| && u != t
    ensures var s' := Step(c, s, t, a);
            && u < |s'.pcs| && s'.pcs[u] == s.pcs[u]
            && (Seen(c, looked, found, s, s.pcs[u]) ==> Seen(c, looked, found, s', s.pcs[u]))
  {
    hide Inv, Step, Safe, Chosen, LruFull, NoneListed, Free;
    var s' := Step(c, s, t, a);
    StepKeeps(c, s, t, a);
    StepMovesOne(c, s, t, a);
    if Holds(s.pcs[u]).Some? {
      var p := Holds(s.pcs[u]).value;
      HeldPage(c, s, u, p);
      HeldPage(c, s', u, p);
      if s'.bits[p] != s.bits[p] {
        OnlyHolderEdits(c, s, t, a, p);
        OneHolder(c, s, t, u);
      }
    }
  }

  lemma OneHolder(c: Config, s: State, t: nat, u: nat)
    requires Inv(c, s) && t < |s.pcs| && u < |s.pcs| && t != u && Holds(s.pcs[u]).Some?
    ensures Holds(s.pcs[t]) != Holds(s.pcs[u])
  {
    hide BitmapInv, LruInv, RingInv, ThreadInv;
  }

  // ---------- whole calls ----------

  /** From state `i`, in which thread `t` starts the call, it is busy until state `j`. */
  ghost predicate Busy(states: seq<State>, events: seq<Event>, t: nat, i: nat, j: nat, call: Call) {
    && i < j <= |events| < |states| && events[i].thread == t && CallOf(events[i].action) == Some(call)
    && forall m | i < m < j :: t < |states[m].pcs| && !states[m].pcs[t].Idle?
  }

  /** Of the thread's steps from state `i` to state `j`, that in state `k` has the effect of the call, and the others
      have none. The block that the caller has afterwards is live from then on, and no other thread's to work on. */
  ghost predicate TakesEffectAt(c: Config, call: Call, states: seq<State>, events: seq<Event>, t: nat, i: nat, j: nat,
                                k: nat, result: Option<Block>)
  {
    && i < k < j <= |events| < |states| && events[k].thread == t
    && Effect(c, call, states[k], states[k + 1], result)
    && QuietExcept(states, events, t, i, j, k)
    && (result.Some? ==> forall m | k < m <= j :: result.value in states[m].blocks)
    && (forall m | k < m < j :: t < |states[m].pcs| && Claims(states[m].pcs[t]) == result)
  }

  ghost predicate QuietExcept(states: seq<State>, events: seq<Event>, t: nat, i: nat, j: nat, k: nat)
    requires j <= |events| < |states|
  {
    forall m | i <= m < j && m != k && events[m].thread == t :: Quiet(states[m], states[m + 1])
  }

  /** Where a call stands in a state between start and end. `k == j` while it has not taken effect. */
  ghost predicate StandsAt(c: Config, call: Call, states: seq<State>, events: seq<Event>, t: nat, i: nat, j: nat,
                           look: nat, find: nat, k: nat, result: Option<Block>)
    requires i < j <= |events| < |states| && t < |states[j].pcs|
  {
    && i <= look <= find < j && events[look].thread == events[find].thread == t
    && if k < j then
         && TakesEffectAt(c, call, states, events, t, i, j, k, result) && find <= k
         && Finishing(states[j].pcs[t], result)
         && (states[j].pcs[t].Idle? || Claims(states[j].pcs[t]) == result)
         && (call.Allocate? ==>
               PlaceJustified(c, states[look], states[find], states[k], events[k].action, call.n, result))
       else
         && Pending(call, states[j].pcs[t]) && QuietExcept(states, events, t, i, j, j)
         && Seen(c, states[look], states[find], states[j], states[j].pcs[t])
  }

  lemma StartStands(c: Config, threads: nat, call: Call, states: seq<State>, events: seq<Event>, t: nat, i: nat)
    requires IsRun(c, threads, states, events) && Busy(states, events, t, i, i + 1, call)
    ensures t < |states[i + 1].pcs| && StandsAt(c, call, states, events, t, i, i + 1, i, i, i + 1, None)
  {
    hide Safe, Init;
  }

  lemma RunStep(c: Config, threads: nat, states: seq<State>, events: seq<Event>, m: nat)
    requires IsRun(c, threads, states, events) && m < |events|
    ensures |states| == |events| + 1 && Inv(c, states[m])
    ensures Enabled(c, states[m], events[m].thread, events[m].action)
    ensures Safe(c, states[m], states[m].pcs[events[m].thread])
    ensures states[m + 1] == Step(c, states[m], events[m].thread, events[m].action)
    ensures |states[m + 1].pcs| == |states[m].pcs|
  {
    hide Inv, Enabled, Safe, Step;
    RunKeeps(c, threads, states, events, m);
    StepMovesOne(c, states[m], events[m].thread, events[m].action);
  }

  /** One more step of any thread, while the call has not taken effect. */
  lemma PendingStands(c: Config, threads: nat, call: Call, states: seq<State>, events: seq<Event>, t: nat, i: nat,
                      j: nat, look: nat, find: nat)
    returns (look': nat, find': nat, k: nat, result: Option<Block>)
    requires IsRun(c, threads, states, events) && i < j < |events|
    requires t < |states[j].pcs| && StandsAt(c, call, states, events, t, i, j, look, find, j, None)
    ensures t < |states[j + 1].pcs| && StandsAt(c, call, states, events, t, i, j + 1, look', find', k, result)
  {
    hide IsRun, Inv, Safe, Step, Quiet, Effect, Seen, PlaceJustified, Finishing, Pending;
    RunStep(c, threads, states, events, j);
    var s, e := states[j], events[j];
    look', find', k, result := look, find, j + 1, None;
    if e.thread == t {
      var looks, finds, done, after := PendingStep(c, call, states[look], states[find], s, t, e.action);
      if looks { look' := j; }
      if finds { find' := j; }
      if done { k, result := j, after; }
    } else {
      OthersStep(c, states[look], states[find], s, e.thread, e.action, t);
    }
  }

  /** One more step of any thread, while the thread finishes. */
  lemma FinishingStands(c: Config, threads: nat, call: Call, states: seq<State>, events: seq<Event>, t: nat, i: nat,
                        j: nat, look: nat, find: nat, k: nat, result: Option<Block>)
    requires IsRun(c, threads, states, events) && i < k < j < |events|
    requires t < |states[j].pcs| && StandsAt(c, call, states, events, t, i, j, look, find, k, result)
    requires !states[j].pcs[t].Idle?
    ensures t < |states[j + 1].pcs| && StandsAt(c, call, states, events, t, i, j + 1, look, find, k, result)
  {
    hide IsRun, Inv, Safe, Step, Quiet, Effect, Seen, PlaceJustified, Finishing, Pending;
    RunStep(c, threads, states, events, j);
    var s, e := states[j], events[j];
    if e.thread == t {
      FinishStep(c, s, t, e.action.mapped, e.action.drop, result);
    } else {
      OthersStep(c, s, s, s, e.thread, e.action, t);
      StepKeeps(c, s, e.thread, e.action);
      ClaimIsLive(c, states[j + 1], t);
    }
    StillTakesEffect(c, call, states, events, t, i, j, k, result);
    hide TakesEffectAt;
  }

  lemma StillTakesEffect(c: Config, call: Call, states: seq<State>, events: seq<Event>, t: nat, i: nat, j: nat, k: nat,
                         result: Option<Block>)
    requires j < |events| && TakesEffectAt(c, call, states, events, t, i, j, k, result)
    requires events[j].thread == t ==> Quiet(states[j], states[j + 1])
    requires result.Some? ==> result.value in states[j + 1].blocks
    requires t < |states[j].pcs| && Claims(states[j].pcs[t]) == result
    ensures TakesEffectAt(c, call, states, events, t, i, j + 1, k, result)
  {
    hide Quiet, Effect;
  }

  lemma {:induction false} CallStands(c: Config, threads: nat, call: Call, states: seq<State>, events: seq<Event>,
                                      t: nat, i: nat, j: nat)
    returns (look: nat, find: nat, k: nat, result: Option<Block>)
    requires IsRun(c, threads, states, events) && Busy(states, events, t, i, j, call)
    ensures t < |states[j].pcs| && StandsAt(c, call, states, events, t, i, j, look, find, k, result)
    decreases j - i
  {
    hide IsRun, StandsAt, Busy;
    BusyBefore(states, events, t, i, j, call);
    if j == i + 1 {
      StartStands(c, threads, call, states, events, t, i);
      return i, i, j, None;
    }
    look, find, k, result := CallStands(c, threads, call, states, events, t, i, j - 1);
    if k < j - 1 {
      EffectIsLater(c, call, states, events, t, i, j - 1, look, find, k, result);
      FinishingStands(c, threads, call, states, events, t, i, j - 1, look, find, k, result);
    } else {
      StillPending(c, call, states, events, t, i, j - 1, look, find, k, result);
      look, find, k, result := PendingStands(c, threads, call, states, events, t, i, j - 1, look, find);
    }
  }

  lemma EffectIsLater(c: Config, call: Call, states: seq<State>, events: seq<Event>, t: nat, i: nat, j: nat, look: nat,
                      find: nat, k: nat, result: Option<Block>)
    requires i < j <= |events| < |states| && t < |states[j].pcs| && k < j
    requires StandsAt(c, call, states, events, t, i, j, look, find, k, result)
    ensures i < k
  {
  }

  lemma BusyBefore(states: seq<State>, events: seq<Event>, t: nat, i: nat, j: nat, call: Call)
    requires Busy(states, events, t, i, j, call)
    ensures i < j <= |events| < |states|
    ensures i + 1 < j ==> Busy(states, events, t, i, j - 1, call)
    ensures i + 1 < j ==> t < |states[j - 1].pcs| && !states[j - 1].pcs[t].Idle?
  {
  }

  lemma StillPending(c: Config, call: Call, states: seq<State>, events: seq<Event>, t: nat, i: nat, j: nat, look: nat,
                     find: nat, k: nat, result: Option<Block>)
    requires i < j <= |events| < |states| && t < |states[j].pcs| && j <= k
    requires StandsAt(c, call, states, events, t, i, j, look, find, k, result)
    ensures StandsAt(c, call, states, events, t, i, j, look, find, j, None)
  {
    hide QuietExcept, Seen, Pending;
  }

  /** A call that starts in state `i` and is over in state `j` of any run takes effect in exactly one step between. An
      allocation adds one block of the size asked for, unless the system refused a page; it asked for a page only when
      the LRU page was full and no list for pages with so much room had a page. A release removes its block and clears
      its units; shrinking and growing change one block in place, and growing is refused exactly when not all units
      behind the block are free. */
  lemma CallTakesEffectOnce(c: Config, threads: nat, call: Call, states: seq<State>, events: seq<Event>, t: nat, i: nat,
                            j: nat) returns (look: nat, find: nat, k: nat, result: Option<Block>)
    requires IsRun(c, threads, states, events) && Busy(states, events, t, i, j, call)
    requires t < |states[j].pcs| && states[j].pcs[t].Idle?
    ensures TakesEffectAt(c, call, states, events, t, i, j, k, result)
    ensures call.Allocate? ==>
              && i <= look <= find <= k && events[look].thread == events[find].thread == t
              && PlaceJustified(c, states[look], states[find], states[k], events[k].action, call.n, result)
  {
    look, find, k, result := CallStands(c, threads, call, states, events, t, i, j);
    hide IsRun, TakesEffectAt, PlaceJustified, Busy, Seen;
  }

  /** A thread comes to ask the system for a page only from a search that finds no list for pages with so much room to
      have a page; when no page was lost from the lists, then no page that points to one has so much room. */
  lemma AsksLast(c: Config, s: State, t: nat, a: Action, n: nat)
    requires Inv(c, s) && Enabled(c, s, t, a) && Safe(c, s, s.pcs[t])
    requires t < |Step(c, s, t, a).pcs| && Step(c, s, t, a).pcs[t] == MapPage(n) != s.pcs[t]
    ensures NoneListed(s, n)
    ensures AllListed(s.list, s.super) ==> forall p: PageId, k: nat | PointsTo(s.list, p, k) :: !HasRoom(c, s, p, n)
  {
    hide Inv, Lfb, Deleted, Free, NewBits, AddTo, CanUnhand, HasRoom, FirstList, NoneListed, ListedFirst;
    if s.pcs[t].FindPage? || s.pcs[t].Search? { FirstListFacts(s, s.pcs[t].n); }
    if AllListed(s.list, s.super) {
      forall p: PageId, k: nat | PointsTo(s.list, p, k) ensures !HasRoom(c, s, p, n) {
        LittleRoom(c, s, n, p, k);
      }
    }
  }

  lemma LittleRoom(c: Config, s: State, n: nat, p: PageId, k: nat)
    requires Inv(c, s) && NoneListed(s, n) && PointsTo(s.list, p, k) && k < |s.super| && p in s.super[k]
    ensures !HasRoom(c, s, p, n)
  {
    hide HolderInv, LruInv, ThreadInv, Runs.LongestFree;
    HasFreeIffLongest(s.bits[p], c.header, n);
  }

  // ---------- handing pages back ----------

  /** A page handed back becomes the LRU page; the one it replaces goes back to the system if it has no block, and is
      otherwise filed by its longest free block. */
  lemma HandedBack(c: Config, s: State, t: nat, a: Action, p: PageId, ret: Option<Block>)
    requires Inv(c, s) && Enabled(c, s, t, a) && Safe(c, s, s.pcs[t]) && a.Advance? && s.pcs[t] == Unhand(p, ret)
    ensures var s' := Step(c, s, t, a);
            && s'.lru == Some(p)
            && match s.lru
               case None => s'.pcs[t].Idle? && s'.super == s.super
               case Some(q) =>
                 if NoBlocks(s.blocks, q) then s'.pcs[t] == Unmap(q, ret) && s'.super == s.super
                 else
                   var k := Lfb(c, s.bits, q);
                   && s'.pcs[t].Idle? && k < c.MaxData() && PointsTo(s'.list, q, k)
                   && k < |s'.super| && q in s'.super[k]
  {
    LruIsMapped(c, s);
    HeldPage(c, s, t, p);
    HeldIsNotLru(c, s, t, p);
    if s.lru.Some? {
      var q := s.lru.value;
      WhollyFreeIffNoBlocks(c, s.bits, s.blocks, q);
    }
    hide Inv, Lfb, NoBlocks;
  }

  lemma HeldIsNotLru(c: Config, s: State, t: nat, p: PageId)
    requires Inv(c, s) && t < |s.pcs| && Holds(s.pcs[t]) == Some(p)
    ensures s.lru != Some(p)
  {
    hide BitmapInv, RingInv, ThreadInv;
    HolderFacts(s.list, s.pcs, t);
    LruFacts(s.list, s.lru, s.pcs, t);
  }

  /** In every reachable state, with either deletion test, a mapped page without blocks is the LRU page, in a thread's
      hands, or about to be unmapped. So when all threads are idle at most one such page is mapped. */
  lemma WhollyFreePages(c: Config, threads: nat, states: seq<State>, events: seq<Event>, i: nat)
    requires IsRun(c, threads, states, events) && i < |states|
    ensures var s := states[i];
            forall p | p in s.bits && NoBlocks(s.blocks, p) ::
              s.lru == Some(p) || HeldBySome(s.pcs, p) || AwaitedBySome(s.pcs, p)
    ensures var s := states[i];
            (forall t | 0 <= t < |s.pcs| :: s.pcs[t].Idle?) ==>
              forall p, q | p in s.bits && q in s.bits && NoBlocks(s.blocks, p) && NoBlocks(s.blocks, q) :: p == q
  {
    RunKeeps(c, threads, states, events, i);
    var s := states[i];
    forall p | p in s.bits && NoBlocks(s.blocks, p)
      ensures s.lru == Some(p) || HeldBySome(s.pcs, p) || AwaitedBySome(s.pcs, p)
    {
      WhollyFreePlace(c, s, p);
    }
    hide IsRun, Inv, NoBlocks;
  }

  lemma WhollyFreePlace(c: Config, s: State, p: PageId)
    requires Inv(c, s) && p in s.bits && NoBlocks(s.blocks, p)
    ensures s.lru == Some(p) || HeldBySome(s.pcs, p) || AwaitedBySome(s.pcs, p)
  {
    WhollyFreeIffNoBlocks(c, s.bits, s.blocks, p);
    hide BitmapInv, ThreadInv, Lfb;
    assert forall k: nat :: !PointsTo(s.list, p, k);
    assert s.list[p] == None || PointsToLru(s.list, p) || PointsTo(s.list, p, s.list[p].value.k);
  }
}
