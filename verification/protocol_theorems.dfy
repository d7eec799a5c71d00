/** What the invariant says to a reader: places, reclaiming, progress, and list membership. */
module ProtocolTheorems {
  import opened Common
  import opened Rings
  import opened Runs
  import opened Protocol
  import opened BitmapSafety
  import opened ListSafety
  import opened ProtocolSafety
  import opened ProtocolRuns

  ghost predicate InSomeRing(super: RingTable, p: PageId) {
    exists k | 0 <= k < |super| :: p in super[k]
  }

  function Count(b: bool): nat { if b then 1 else 0 }

  /** Of the LRU slot, the rings, the hands of the threads, and the pages awaiting unmapping: how many have the page. */
  ghost function Places(s: State, p: PageId): nat {
    Count(s.lru == Some(p)) + Count(InSomeRing(s.super, p)) + Count(HeldBySome(s.pcs, p)) + Count(AwaitedBySome(s.pcs,
        p))
  }

  /** The page is in exactly one place, in no two rings, in the hands of no two threads, and its `list` is null exactly
      while it is held. */
  ghost predicate InOnePlace(s: State, p: PageId) {
    && Places(s, p) == 1
    && (forall j, k | 0 <= j < |s.super| && 0 <= k < |s.super| && p in s.super[j] && p in s.super[k] :: j == k)
    && (forall t, u | 0 <= t < |s.pcs| && 0 <= u < |s.pcs| && Holds(s.pcs[t]) == Some(p) == Holds(s.pcs[u]) :: t == u)
    && p in s.list && (s.list[p] == None <==> HeldBySome(s.pcs, p))
  }

  /** A mapped page is in exactly one place if and only if the list it points to, if any, contains it. It is never in
      two. */
  lemma PlaceOfPage(c: Config, s: State, p: PageId)
    requires Inv(c, s) && p in s.bits
    ensures Places(s, p) <= 1
    ensures InOnePlace(s, p) <==> forall k: nat | PointsTo(s.list, p, k) :: k < |s.super| && p in s.super[k]
  {
    hide BitmapInv, ThreadInv;
    PlaceOfLru(s.list, s.lru, s.pcs, p);
    RingsApart(c, s, p);
    hide RingInv;
    match s.list[p]
    case None =>
    case Some(Lru) => assert PointsToLru(s.list, p);
    case Some(Super(k)) =>
      assert PointsTo(s.list, p, k);
      assert InSomeRing(s.super, p) <==> k < |s.super| && p in s.super[k];
  }

  /** Only the ring a page points to can contain it. */
  lemma RingsApart(c: Config, s: State, p: PageId)
    requires Inv(c, s)
    ensures forall k | 0 <= k < |s.super| && p in s.super[k] :: PointsTo(s.list, p, k)
  {
    hide BitmapInv, ThreadInv, LruInv, HolderInv;
  }

  /** All mapped pages are in one place if and only if every page that points to a list is in it. */
  lemma PlacesIffListed(c: Config, s: State)
    requires Inv(c, s)
    ensures (forall p | p in s.bits :: InOnePlace(s, p)) <==> AllListed(s.list, s.super)
  {
    hide BitmapInv, ThreadInv, LruInv, HolderInv, RingInv, InOnePlace;
    forall p | p in s.bits
      ensures InOnePlace(s, p) <==> forall k: nat | PointsTo(s.list, p, k) :: k < |s.super| && p in s.super[k]
    {
      PlaceOfPage(c, s, p);
    }
    assert forall p: PageId, k: nat | PointsTo(s.list, p, k) :: p in s.bits;
  }

  /** Every live block lies in the data area of a mapped page and overlaps no other; a page's bits are the header and
      the live blocks; no thread ever aborts; the pages set aside for unmapping carry no block, and nobody holds them,
      works on a block of them, or finds them in a list. */
  lemma RunsAreSafe(c: Config, threads: nat, states: seq<State>, events: seq<Event>, i: nat)
    requires IsRun(c, threads, states, events) && i < |states|
    ensures var s := states[i];
            && (forall b | b in s.blocks :: b.page in s.bits && InData(c, b))
            && (forall a, b | a in s.blocks && b in s.blocks && a != b :: Disjoint(a, b))
            && (forall p, u: nat | p in s.bits && u < c.units ::
                  |s.bits[p]| == c.units && (s.bits[p][u] <==> u < c.header || Covered(s.blocks, p, u)))
    ensures var s := states[i]; forall t | 0 <= t < |s.pcs| :: !s.pcs[t].Aborted?
    ensures var s := states[i];
            forall q, t | 0 <= t < |s.pcs| && Awaits(s.pcs[t]) == Some(q) ::
              && q in s.bits && NoBlocks(s.blocks, q) && !HeldBySome(s.pcs, q)
              && (forall u | 0 <= u < |s.pcs| && Claims(s.pcs[u]).Some? :: Claims(s.pcs[u]).value.page != q)
              && (forall k | 0 <= k < |s.super| :: q !in s.super[k]) && s.lru != Some(q)
  {
    RunKeeps(c, threads, states, events, i);
    var s := states[i];
    hide IsRun;
    assert forall t | 0 <= t < |s.pcs| :: PcOk(c, s.bits, s.blocks, s.pcs[t]);
    forall q, t | 0 <= t < |s.pcs| && Awaits(s.pcs[t]) == Some(q)
      ensures q in s.bits && NoBlocks(s.blocks, q) && !HeldBySome(s.pcs, q) && s.lru != Some(q)
      ensures forall k | 0 <= k < |s.super| :: q !in s.super[k]
    {
      hide BitmapInv;
      LruFacts(s.list, s.lru, s.pcs, t);
      forall k | 0 <= k < |s.super| ensures q !in s.super[k] {
        assert !PointsTo(s.list, q, k);
      }
    }
  }

  /** A page in `superblock[k]` has longest free block exactly `k`, less than a wholly free page has. */
  lemma ListedByLongest(c: Config, threads: nat, states: seq<State>, events: seq<Event>, i: nat, k: nat, p: PageId)
    requires IsRun(c, threads, states, events) && i < |states| && k < |states[i].super| && p in states[i].super[k]
    ensures p in states[i].bits && LongestFree(states[i].bits[p], c.header) == k < c.MaxData()
    ensures exists b :: b in states[i].blocks && b.page == p
  {
    RunKeeps(c, threads, states, events, i);
    var s := states[i];
    hide IsRun, HolderInv, LruInv, ThreadInv, Runs.LongestFree;
    assert PointsTo(s.list, p, k);
    WhollyFreeIffNoBlocks(c, s.bits, s.blocks, p);
  }

  /** A step changes the bitmap of a page that stays mapped only if the thread holds that page. */
  lemma OnlyHolderEdits(c: Config, s: State, t: nat, a: Action, p: PageId)
    requires Enabled(c, s, t, a) && Safe(c, s, s.pcs[t])
    requires p in s.bits && p in Step(c, s, t, a).bits && Step(c, s, t, a).bits[p] != s.bits[p]
    ensures Holds(s.pcs[t]) == Some(p)
  {
    hide Lfb, Runs.FirstFit, Fill, FirstList, Deleted;
  }

  // ---------- progress ----------

  /** How many steps a thread needs at most before its operation is done, waiting not counted. */
  function StepsLeft(pc: Pc): nat {
    match pc
    case Idle => 0
    case Aborted => 0
    case Unmap(_, _) => 1
    case Unhand(_, _) => 2
    case Mark(_, _, _) => 3
    case Edit(_, _) => 3
    case MapPage(_) => 3
    case ScanSuper(_, _) => 7
    case Grab(_, _) => 4
    case Search(_) => 8
    case AddSuper(_, _, _) => 9
    case ScanLru(_, _) => 10
    case FindPage(_) => 11
  }

  function TotalSteps(pcs: seq<Pc>): nat {
    if pcs == [] then 0 else StepsLeft(pcs[0]) + TotalSteps(pcs[1..])
  }

  lemma {:induction false} TotalStepsUpdate(pcs: seq<Pc>, t: nat, pc: Pc)
    requires t < |pcs|
    ensures TotalSteps(pcs[t := pc]) == TotalSteps(pcs) - StepsLeft(pcs[t]) + StepsLeft(pc)
  {
    if t == 0 {
      assert pcs[t := pc][1..] == pcs[1..];
    } else {
      assert pcs[t := pc][1..] == pcs[1..][t - 1 := pc];
      TotalStepsUpdate(pcs[1..], t - 1, pc);
    }
  }

  /** A thread waits only in `grab_page`, for a page in another thread's hands; it holds no page itself. */
  ghost predicate Waits(s: State, t: nat) {
    t < |s.pcs| && s.pcs[t].Grab? && HeldBySome(s.pcs, s.pcs[t].block.page)
  }

  /** Any thread that is not idle comes strictly closer to finishing with its next step, unless it waits. */
  lemma AdvanceOrWait(c: Config, s: State, t: nat, mapped: Option<PageId>, drop: bool)
    requires Inv(c, s) && Enabled(c, s, t, Advance(mapped, drop)) && Safe(c, s, s.pcs[t])
    ensures Waits(s, t) || StepsLeft(Step(c, s, t, Advance(mapped, drop)).pcs[t]) < StepsLeft(s.pcs[t])
    ensures Waits(s, t) ==> Step(c, s, t, Advance(mapped, drop)) == s
  {
    hide BitmapInv, HolderInv, RingInv, LruInv, ThreadInv, Lfb, Runs.FirstFit, Fill, FirstList, Deleted, TakeOut,
      AddTo, NewBits;
    assert s.pcs[t := s.pcs[t]] == s.pcs;
    if s.pcs[t].Grab? {
      GrabFacts(c, s, t);
    }
  }

  lemma GrabFacts(c: Config, s: State, t: nat)
    requires Inv(c, s) && t < |s.pcs| && s.pcs[t].Grab?
    ensures s.pcs[t].block.page in s.list
    ensures s.list[s.pcs[t].block.page] == None <==> Waits(s, t)
  {
    hide RingInv, LruInv;
    assert s.pcs[t].block in s.blocks;
  }

  /** No deadlock: while some thread is not idle, some thread has a step that brings the whole system closer to
      all operations being done. */
  lemma SomeThreadAdvances(c: Config, s: State, t: nat, mapped: Option<PageId>, drop: bool) returns (u: nat)
    requires Inv(c, s) && t < |s.pcs| && !s.pcs[t].Idle? && (mapped.Some? ==> mapped.value !in s.bits)
    ensures Enabled(c, s, u, Advance(mapped, drop)) && Safe(c, s, s.pcs[u])
    ensures TotalSteps(Step(c, s, u, Advance(mapped, drop)).pcs) < TotalSteps(s.pcs)
  {
    hide BitmapInv, RingInv, LruInv, Lfb, HolderInv, Safe, Step;
    var p :=  if s.pcs[t].Grab? then s.pcs[t].block.page else 0;
    if Waits(s, t) {
      u :| 0 <= u < |s.pcs| && Holds(s.pcs[u]) == Some(p);
    } else {
      u := t;
    }
    assert !s.pcs[u].Aborted? by { ThreadFacts(c, s.bits, s.blocks, s.pcs, u); }
    assert !Waits(s, u);
    hide ThreadInv, Waits;
    StepKeeps(c, s, u, Advance(mapped, drop));
    AdvanceOrWait(c, s, u, mapped, drop);
    StepMovesOne(c, s, u, Advance(mapped, drop));
    TotalStepsUpdate(s.pcs, u, Step(c, s, u, Advance(mapped, drop)).pcs[u]);
  }

  lemma StepMovesOne(c: Config, s: State, t: nat, a: Action)
    requires Enabled(c, s, t, a) && Safe(c, s, s.pcs[t])
    ensures |Step(c, s, t, a).pcs| == |s.pcs|
    ensures Step(c, s, t, a).pcs == s.pcs[t := Step(c, s, t, a).pcs[t]]
  {
    hide Advanced, Safe;
  }

  // ---------- membership, and what the as-written deletion test does to it ----------

  /** The page that the next step of a thread deletes from a ring of exactly two. */
  ghost predicate DeletesFromPair(s: State, pc: Pc) {
    exists k: nat, p :: DeletesPage(s, pc, p) && PointsTo(s.list, p, k) && k < |s.super| && |s.super[k]| == 2
  }

  predicate DeletesPage(s: State, pc: Pc, p: PageId) {
    match pc
    case FindPage(n) =>
      if s.lru.Some? then p == s.lru.value
      else FirstList(s.super, n) < |s.super| && p == s.super[FirstList(s.super, n)][0]
    case Search(n) => FirstList(s.super, n) < |s.super| && p == s.super[FirstList(s.super, n)][0]
    case Grab(_, b) => p == b.page && p in s.list && s.list[p].Some?
    case _ => false
  }

  /** With every page listed, the invariant does not depend on the deletion test. */
  lemma SwitchTest(c: Config, s: State)
    requires Inv(c, s) && AllListed(s.list, s.super)
    ensures Inv(c.(test := NextIsSelf), s)
  {
    hide HolderInv, LruInv, Runs.LongestFree;
    assert BitmapInv(c.(test := NextIsSelf), s.bits, s.blocks) by { hide RingInv, ThreadInv; }
    assert RingInv(c.(test := NextIsSelf), s.bits, s.list, s.super) by { hide BitmapInv, ThreadInv; }
    assert ThreadInv(c.(test := NextIsSelf), s.bits, s.blocks, s.pcs) by { hide BitmapInv, RingInv; }
  }

  /** Away from rings of two the two deletion tests take the same step. */
  lemma SameStep(c: Config, s: State, t: nat, a: Action)
    requires Inv(c, s) && AllListed(s.list, s.super)
    requires Enabled(c, s, t, a) && Safe(c, s, s.pcs[t])
    requires a.Advance? ==> !DeletesFromPair(s, s.pcs[t])
    ensures var c' := c.(test := NextIsSelf);
            Enabled(c', s, t, a) && Safe(c', s, s.pcs[t]) && Step(c', s, t, a) == Step(c, s, t, a)
  {
    var c' := c.(test := NextIsSelf);
    hide BitmapInv, HolderInv, LruInv, RingInv, ThreadInv, Runs.LongestFree, Runs.FirstFit, Fill, FirstList;
    if a.Advance? {
      forall p: PageId | DeletesPage(s, s.pcs[t], p) && CanTakeOut(s, p)
        ensures TakeOut(c', s, p, a.drop) == TakeOut(c, s, p, a.drop)
      {
        if s.list[p].value.Super? { assert PointsTo(s.list, p, s.list[p].value.k); }
      }
    }
  }

  /** One step with the as-written test loses a page from its list exactly when it deletes from a ring of two. */
  lemma MembershipLostExactly(c: Config, s: State, t: nat, a: Action)
    requires c.test.NextIsPrev? && Inv(c, s) && AllListed(s.list, s.super) && Enabled(c, s, t, a)
    ensures Safe(c, s, s.pcs[t])
    ensures AllListed(Step(c, s, t, a).list, Step(c, s, t, a).super) <==>
            !(a.Advance? && DeletesFromPair(s, s.pcs[t]))
  {
    StepKeeps(c, s, t, a);
    if a.Advance? && DeletesFromPair(s, s.pcs[t]) {
      PairLosesOther(c, s, t, a);
    } else {
      SameStep(c, s, t, a);
      SwitchTest(c, s);
      hide Step, Safe, Enabled, BitmapInv, HolderInv, LruInv, ThreadInv;
      StepKeeps(c.(test := NextIsSelf), s, t, a);
    }
  }

  lemma PairLosesOther(c: Config, s: State, t: nat, a: Action)
    requires c.test.NextIsPrev? && Inv(c, s) && AllListed(s.list, s.super)
    requires Enabled(c, s, t, a) && Safe(c, s, s.pcs[t])
    requires a.Advance? && DeletesFromPair(s, s.pcs[t])
    ensures !AllListed(Step(c, s, t, a).list, Step(c, s, t, a).super)
  {
    hide BitmapInv, HolderInv, LruInv, ThreadInv, Runs.LongestFree, Runs.FirstFit, Fill, FirstList;
    var k: nat, p :| DeletesPage(s, s.pcs[t], p) && PointsTo(s.list, p, k) && k < |s.super| && |s.super[k]| == 2;
    var ring := s.super[k];
    var q := if ring[0] == p then ring[1] else ring[0];
    assert q in s.super[k] && q != p;
    assert PointsTo(s.list, q, k);
    var s' := Step(c, s, t, a);
    ListedIsNotLru(c, s, p, k);
    assert PointsTo(s'.list, q, k) && s'.super[k] == [];
  }

  lemma ListedIsNotLru(c: Config, s: State, p: PageId, k: nat)
    requires Inv(c, s) && PointsTo(s.list, p, k)
    ensures s.lru != Some(p)
  {
    hide BitmapInv, HolderInv, RingInv, ThreadInv;
  }

  /** The event deletes from a ring of two. */
  ghost predicate BreaksPair(s: State, e: Event) {
    e.action.Advance? && e.thread < |s.pcs| && DeletesFromPair(s, s.pcs[e.thread])
  }

  /** With the intended test, and in any run that never deletes from a ring of two, every page that points to a
      list stays reachable from it. */
  lemma {:induction false} RunKeepsMembership(c: Config, threads: nat, states: seq<State>, events: seq<Event>, i: nat)
    requires IsRun(c, threads, states, events) && i < |states|
    requires c.test.NextIsSelf? || forall j | 0 <= j < i :: !BreaksPair(states[j], events[j])
    ensures AllListed(states[i].list, states[i].super)
  {
    RunKeeps(c, threads, states, events, i);
    if c.test.NextIsPrev? && i > 0 {
      hide Step, Safe, DeletesFromPair, BitmapInv, HolderInv, LruInv, ThreadInv, RingInv;
      RunKeepsMembership(c, threads, states, events, i - 1);
      RunKeeps(c, threads, states, events, i - 1);
      MembershipLostExactly(c, states[i - 1], events[i - 1].thread, events[i - 1].action);
    }
  }

  /** Over a whole run with the test as written: list membership holds throughout if and only if no step deletes from a
      ring of two. */
  lemma RunLosesMembershipExactly(c: Config, threads: nat, states: seq<State>, events: seq<Event>)
    requires c.test.NextIsPrev? && IsRun(c, threads, states, events)
    ensures (forall i | 0 <= i < |states| :: AllListed(states[i].list, states[i].super)) <==>
            (forall j | 0 <= j < |events| :: !BreaksPair(states[j], events[j]))
  {
    hide Step, Safe, Enabled, DeletesFromPair, BitmapInv, HolderInv, LruInv, ThreadInv, RingInv, AllListed;
    if forall i | 0 <= i < |states| :: AllListed(states[i].list, states[i].super) {
      forall j | 0 <= j < |events| ensures !BreaksPair(states[j], events[j]) {
        RunKeeps(c, threads, states, events, j);
        MembershipLostExactly(c, states[j], events[j].thread, events[j].action);
        assert AllListed(states[j + 1].list, states[j + 1].super);
      }
    }
    if forall j | 0 <= j < |events| :: !BreaksPair(states[j], events[j]) {
      forall i | 0 <= i < |states| ensures AllListed(states[i].list, states[i].super) {
        RunKeepsMembership(c, threads, states, events, i);
      }
    }
  }

  /** With the intended test, and in any run that never deletes from a ring of two, every mapped page is in exactly one
      place in every state. */
  lemma PageInOnePlace(c: Config, threads: nat, states: seq<State>, events: seq<Event>, i: nat, p: PageId)
    requires IsRun(c, threads, states, events) && i < |states| && p in states[i].bits
    requires c.test.NextIsSelf? || forall j | 0 <= j < i :: !BreaksPair(states[j], events[j])
    ensures InOnePlace(states[i], p)
  {
    hide InOnePlace, BreaksPair, Inv, AllListed;
    RunKeeps(c, threads, states, events, i);
    RunKeepsMembership(c, threads, states, events, i);
    PlacesIffListed(c, states[i]);
  }

  /** Over a whole run with the test as written: every mapped page is in exactly one place throughout if and only if no
      step deletes from a ring of two. */
  lemma PlacesLostExactly(c: Config, threads: nat, states: seq<State>, events: seq<Event>)
    requires c.test.NextIsPrev? && IsRun(c, threads, states, events)
    ensures (forall i, p | 0 <= i < |states| && p in states[i].bits :: InOnePlace(states[i], p)) <==>
            (forall j | 0 <= j < |events| :: !BreaksPair(states[j], events[j]))
  {
    hide InOnePlace, BreaksPair, Inv, AllListed;
    forall i | 0 <= i < |states|
      ensures (forall p | p in states[i].bits :: InOnePlace(states[i], p))
          <==> AllListed(states[i].list, states[i].super)
    {
      RunKeeps(c, threads, states, events, i);
      PlacesIffListed(c, states[i]);
    }
    RunLosesMembershipExactly(c, threads, states, events);
  }
}
