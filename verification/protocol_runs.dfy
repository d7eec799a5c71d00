/** The theorems about whole runs of the protocol. */
module ProtocolRuns {
  import opened Common
  import opened Runs
  import opened Protocol
  import opened BitmapSafety
  import opened ProtocolSafety

  // ---------- one step ----------

  /** The holder's page is mapped and its bitmap has one bit per unit. */
  lemma HeldPage(c: Config, s: State, t: nat, p: PageId)
    requires Inv(c, s) && t < |s.pcs| && Holds(s.pcs[t]) == Some(p)
    ensures p in s.bits && p in s.list && |s.bits[p]| == c.units
  {
    hide RingInv, LruInv, ThreadInv;
    HolderFacts(s.list, s.pcs, t);
  }

  lemma MarkStepKeeps(c: Config, s: State, t: nat, n: nat, p: PageId, o: nat)
    requires Inv(c, s) && t < |s.pcs| && s.pcs[t] == Mark(n, p, o)
    ensures Safe(c, s, s.pcs[t])
    ensures var (s', pc) := Advanced(c, s, s.pcs[t], None, false); Inv(c, s'.(pcs := s.pcs[t := pc]))
  {
    HeldPage(c, s, t, p);
    hide RingInv, LruInv, HolderInv, BitmapInv;
    ThreadFacts(c, s.bits, s.blocks, s.pcs, t);
    var b := Block(p, o, n);
    MarkKeeps(c, s.bits, s.blocks, b);
    hide ThreadInv;
    assert b !in s.blocks;
    EditKeeps(c, s, t, p, Fill(s.bits[p], true, o, n), s.blocks + {b}, Some(b));
  }

  /** The part of an edit that resizes a block in place. */
  lemma ResizeStepKeeps(c: Config, s: State, t: nat, b: Block, m: nat, page: Bits)
    requires Inv(c, s) && t < |s.pcs| && Holds(s.pcs[t]) == Some(b.page) && Claims(s.pcs[t]) == Some(b) && 0 < m
    requires b.page in s.bits && b.offset + b.len <= |s.bits[b.page]| && b in s.blocks
    requires b.len < m ==> Free(s.bits[b.page], b.offset + b.len, m - b.len)
    requires page == if m <= b.len then Fill(s.bits[b.page], false, b.offset + m, b.len - m)
                     else Fill(s.bits[b.page], true, b.offset + b.len, m - b.len)
    ensures var b' := b.(len := m);
            Inv(c, s.(bits := s.bits[b.page := page], blocks := s.blocks - {b} + {b'},
                      pcs := s.pcs[t := Unhand(b.page, Some(b'))]))
  {
    hide RingInv, LruInv, HolderInv;
    ResizeKeeps(c, s.bits, s.blocks, b, m);
    ThreadFacts(c, s.bits, s.blocks, s.pcs, t);
    hide BitmapInv, ThreadInv, Fill;
    EditKeeps(c, s, t, b.page, page, s.blocks - {b} + {b.(len := m)}, Some(b.(len := m)));
  }

  lemma ReleaseStepKeeps(c: Config, s: State, t: nat, b: Block)
    requires Inv(c, s) && t < |s.pcs| && Holds(s.pcs[t]) == Some(b.page) && Claims(s.pcs[t]) == Some(b)
    requires b.page in s.bits && b.offset + b.len <= |s.bits[b.page]| && b in s.blocks
    ensures Inv(c, s.(bits := s.bits[b.page := Fill(s.bits[b.page], false, b.offset, b.len)], blocks := s.blocks - {b},
                      pcs := s.pcs[t := Unhand(b.page, None)]))
  {
    hide RingInv, LruInv, HolderInv;
    ReleaseKeeps(c, s.bits, s.blocks, b);
    ThreadFacts(c, s.bits, s.blocks, s.pcs, t);
    hide BitmapInv, ThreadInv, Fill;
    EditKeeps(c, s, t, b.page, Fill(s.bits[b.page], false, b.offset, b.len), s.blocks - {b}, None);
  }

  /** The thread that edits holds the page of a live block of its own, and the sizes fit. */
  lemma EditFacts(c: Config, s: State, t: nat, op: Op, b: Block)
    requires Inv(c, s) && t < |s.pcs| && s.pcs[t] == Edit(op, b)
    ensures Safe(c, s, s.pcs[t]) && OpOk(c, op, b) && b in s.blocks && 0 < b.len
  {
    HeldPage(c, s, t, b.page);
    ThreadFacts(c, s.bits, s.blocks, s.pcs, t);
    hide RingInv, LruInv, HolderInv, ThreadInv;
  }

  lemma CannotGrowKeeps(c: Config, s: State, t: nat, op: Op, b: Block)
    requires Inv(c, s) && t < |s.pcs| && s.pcs[t] == Edit(op, b)
    ensures Inv(c, s.(pcs := s.pcs[t := Unhand(b.page, Some(b))]))
  {
    hide RingInv, LruInv, HolderInv, BitmapInv;
    ThreadFacts(c, s.bits, s.blocks, s.pcs, t);
    hide ThreadInv;
    MoveKeeps(c, s, t, Unhand(b.page, Some(b)));
  }

  lemma EditStepKeeps(c: Config, s: State, t: nat, op: Op, b: Block)
    requires Inv(c, s) && t < |s.pcs| && s.pcs[t] == Edit(op, b)
    ensures Safe(c, s, s.pcs[t])
    ensures var (s', pc) := EditBlock(s, op, b); Inv(c, s'.(pcs := s.pcs[t := pc]))
  {
    EditFacts(c, s, t, op, b);
    assert Safe(c, s, s.pcs[t]);
    hide *;
    var (s', pc) := EditBlock(s, op, b);
    EditCases(c, s, t, op, b, s', pc);
  }

  lemma EditCases(c: Config, s: State, t: nat, op: Op, b: Block, s': State, pc: Pc)
    requires Inv(c, s) && t < |s.pcs| && s.pcs[t] == Edit(op, b)
    requires Safe(c, s, s.pcs[t]) && OpOk(c, op, b) && b in s.blocks && 0 < b.len
    requires (s', pc) == EditBlock(s, op, b)
    ensures Inv(c, s'.(pcs := s.pcs[t := pc]))
  {
    hide Inv, Fill;
    match op
    case Release => ReleaseStepKeeps(c, s, t, b);
    case Shrink(m) =>
      ResizeStepKeeps(c, s, t, b, m, Fill(s.bits[b.page], false, b.offset + m, b.len - m));
    case Grow(m) =>
      if Free(s.bits[b.page], b.offset + b.len, m - b.len) {
        ResizeStepKeeps(c, s, t, b, m, Fill(s.bits[b.page], true, b.offset + b.len, m - b.len));
      } else {
        CannotGrowKeeps(c, s, t, op, b);
      }
  }

  /** A page that carries a live block is never set aside for unmapping. */
  lemma BlockPageNotAwaited(c: Config, s: State, b: Block)
    requires Inv(c, s) && b in s.blocks
    ensures b.page in s.list && !AwaitedBySome(s.pcs, b.page)
  {
    hide RingInv, LruInv, HolderInv;
    forall t | 0 <= t < |s.pcs| ensures Awaits(s.pcs[t]) != Some(b.page) {
      assert PcOk(c, s.bits, s.blocks, s.pcs[t]);
    }
  }

  lemma GrabStepKeeps(c: Config, s: State, t: nat, op: Op, b: Block, drop: bool)
    requires Inv(c, s) && t < |s.pcs| && s.pcs[t] == Grab(op, b)
    ensures Safe(c, s, s.pcs[t])
    ensures var (s', pc) := Advanced(c, s, s.pcs[t], None, drop); Inv(c, s'.(pcs := s.pcs[t := pc]))
  {
    hide RingInv, LruInv, HolderInv, BitmapInv, Lfb;
    ThreadFacts(c, s.bits, s.blocks, s.pcs, t);
    BlockPageNotAwaited(c, s, b);
    hide ThreadInv;
    if s.list[b.page].Some? {
      TakeOutKeeps(c, s, t, b.page, drop, Edit(op, b));
    }
    assert s.pcs[t := s.pcs[t]] == s.pcs;
  }

  lemma FindStepKeeps(c: Config, s: State, t: nat, n: nat, drop: bool)
    requires Inv(c, s) && t < |s.pcs| && s.pcs[t] == FindPage(n)
    ensures Safe(c, s, s.pcs[t])
    ensures var (s', pc) := Advanced(c, s, s.pcs[t], None, drop); Inv(c, s'.(pcs := s.pcs[t := pc]))
  {
    ThreadFacts(c, s.bits, s.blocks, s.pcs, t);
    if s.lru.Some? {
      PlaceOfLru(s.list, s.lru, s.pcs, s.lru.value);
      hide RingInv, LruInv, HolderInv, BitmapInv, ThreadInv;
      TakeOutKeeps(c, s, t, s.lru.value, drop, ScanLru(n, s.lru.value));
    } else {
      hide RingInv, LruInv, HolderInv, BitmapInv, ThreadInv;
      SearchKeeps(c, s, t, n, drop);
    }
  }

  /** Any advance is safe and keeps the invariant. */
  lemma AdvanceKeeps(c: Config, s: State, t: nat, mapped: Option<PageId>, drop: bool)
    requires Inv(c, s) && Enabled(c, s, t, Advance(mapped, drop))
    ensures Safe(c, s, s.pcs[t])
    ensures var (s', pc) := Advanced(c, s, s.pcs[t], mapped, drop); Inv(c, s'.(pcs := s.pcs[t := pc]))
  {
    hide RingInv, LruInv, HolderInv, BitmapInv, Lfb, Runs.FirstFit, NewBits;
    ThreadFacts(c, s.bits, s.blocks, s.pcs, t);
    hide ThreadInv;
    match s.pcs[t]
    case FindPage(n) => FindStepKeeps(c, s, t, n, drop);
    case ScanLru(n, p) => ScanKeeps(c, s, t, n, p);
    case AddSuper(n, p, lfb) =>
      HeldPage(c, s, t, p);
      FileKeeps(c, s, t, p, Search(n));
    case Search(n) => SearchKeeps(c, s, t, n, drop);
    case ScanSuper(n, p) => ScanKeeps(c, s, t, n, p);
    case Mark(n, p, o) => MarkStepKeeps(c, s, t, n, p, o);
    case MapPage(n) =>
      if mapped.Some? { MapKeeps(c, s, t, n, mapped.value); } else { MoveKeeps(c, s, t, Idle); }
    case Grab(op, b) => GrabStepKeeps(c, s, t, op, b, drop);
    case Edit(op, b) => EditStepKeeps(c, s, t, op, b);
    case Unhand(p, ret) => UnhandKeeps(c, s, t, p, ret);
    case Unmap(q, ret) => UnmapFacts(c, s, t, q, ret); UnmapKeeps(c, s, t, q, ret);
  }

  lemma UnmapFacts(c: Config, s: State, t: nat, q: PageId, ret: Option<Block>)
    requires Inv(c, s) && t < |s.pcs| && s.pcs[t] == Unmap(q, ret)
    ensures q in s.bits
  {
    hide RingInv, HolderInv, BitmapInv, ThreadInv;
    LruFacts(s.list, s.lru, s.pcs, t);
  }

  /** Whatever a thread may do next touches only what exists, and keeps the invariant. */
  lemma StepKeeps(c: Config, s: State, t: nat, a: Action)
    requires Inv(c, s) && Enabled(c, s, t, a)
    ensures Safe(c, s, s.pcs[t]) && Inv(c, Step(c, s, t, a))
  {
    hide RingInv, LruInv, HolderInv, BitmapInv, ThreadInv, Advanced, Runs.LongestFree;
    match a
    case StartAllocate(n) => MoveKeeps(c, s, t, FindPage(n));
    case StartOp(op, b) => MoveKeeps(c, s, t, Grab(op, b));
    case Advance(mapped, drop) => AdvanceKeeps(c, s, t, mapped, drop);
  }

  // ---------- runs ----------

  datatype Event = Event(thread: nat, action: Action)

  /** States linked by enabled steps from the initial state, any number of threads, any interleaving. */
  ghost predicate IsRun(c: Config, threads: nat, states: seq<State>, events: seq<Event>) {
    && c.Valid() && |states| == |events| + 1
    && states[0] == Init(c, threads)
    && forall i | 0 <= i < |events| ::
         && Enabled(c, states[i], events[i].thread, events[i].action)
         && Safe(c, states[i], states[i].pcs[events[i].thread])
         && states[i + 1] == Step(c, states[i], events[i].thread, events[i].action)
  }

  lemma InitInv(c: Config, threads: nat)
    requires c.Valid()
    ensures Inv(c, Init(c, threads))
  {
  }

  /** The invariant holds in every state of every run, and no enabled step of a reachable state is unsafe. */
  lemma {:induction false} RunKeeps(c: Config, threads: nat, states: seq<State>, events: seq<Event>, i: nat)
    requires IsRun(c, threads, states, events) && i < |states|
    ensures Inv(c, states[i])
    ensures forall t: nat, a | t < |states[i].pcs| && Enabled(c, states[i], t, a) ::
              Safe(c, states[i], states[i].pcs[t])
  {
    hide Inv, Step, Safe, Enabled;
    if i == 0 {
      InitInv(c, threads);
    } else {
      RunKeeps(c, threads, states, events, i - 1);
      StepKeeps(c, states[i - 1], events[i - 1].thread, events[i - 1].action);
    }
    forall t: nat, a | t < |states[i].pcs| && Enabled(c, states[i], t, a) ensures Safe(c, states[i], states[i].pcs[t]) {
      StepKeeps(c, states[i], t, a);
    }
  }
}
