/** The two lists of the fixed-size-block arena, and the pages that the deletion test as written drops from them. */
module FsbLists {
  import opened Common
  import opened Rings

  /** The free-block counters of the mapped pages; the two rings, head first; and the stray pages, which no list head
      reaches any more. Stray pages that were dropped together stay linked to each other: `strays` numbers their
      rings. */
  datatype Lists = Lists(free: map<nat, nat>, avail: seq<nat>, full: seq<nat>, strays: map<nat, nat>, drops: nat) {

    /** Every mapped page is in exactly one place: with the available ones only while it has a free block, with the full
        ones only while it has none, or stray, which takes the as-written test. */
    ghost predicate Sorted(blocks: nat, test: LastPageTest) {
      && Distinct(avail) && Distinct(full)
      && (forall i | 0 <= i < |avail| :: avail[i] in free && free[avail[i]] > 0 && avail[i] !in strays)
      && (forall i | 0 <= i < |full| :: full[i] in free && free[full[i]] == 0 && full[i] !in strays)
      && (forall a | a in strays :: a in free && strays[a] < drops)
      && (forall a | a in free :: free[a] <= blocks && (a in avail || a in full || a in strays))
      && (test.NextIsSelf? ==> strays == map[])
    }

    /** With one block per page a page is full as soon as it is used. */
    ghost predicate Ok(blocks: nat, test: LastPageTest) {
      0 < blocks && Sorted(blocks, test) && (blocks == 1 ==> avail == [])
    }

    /** Every mapped page is in a ring. */
    ghost predicate Listed() { strays == map[] }

    /** The pages still linked to a stray page, itself included. */
    function StrayRing(p: nat): set<nat>
      requires p in strays
    {
      set q | q in strays && strays[q] == strays[p]
    }

    /** A stray page whose `next` and `prev` are equal: it is alone, or one of two. */
    predicate LooksLast(test: LastPageTest, p: nat) {
      test.NextIsPrev? && p in strays && |StrayRing(p)| <= 2
    }

    /** `delete_from_list(list, p)`: what remains of the list. */
    function Remaining(test: LastPageTest, list: seq<nat>, p: nat): seq<nat> {
      Deleted(test, list, p, LooksLast(test, p))
    }

    /** The other pages of the list that the deletion drops are stray now, linked to each other. */
    function StraysAfter(test: LastPageTest, list: seq<nat>, p: nat): map<nat, nat> {
      (strays - {p}) + map a | a in list && a != p && a !in Remaining(test, list, p) :: drops
    }

    /** A new page with all its blocks free. */
    function With(a: nat, blocks: nat): Lists { this.(free := free[a := blocks], avail := [a] + avail) }

    /** One block less on the first available page, which goes to the full ones when that was its last. */
    function Take(test: LastPageTest): Lists
      requires avail != [] && avail[0] in free && free[avail[0]] > 0
    {
      var p := avail[0];
      if free[p] == 1 then
        Lists(free[p := 0], Remaining(test, avail, p), [p] + full, StraysAfter(test, avail, p), drops + 1)
      else this.(free := free[p := free[p] - 1])
    }

    /** `fsb_arena_allocate`, when it is given a page if it asks for one. */
    function Allocate(mapped: Option<nat>, blocks: nat, test: LastPageTest): Lists
      requires avail != [] ==> avail[0] in free && free[avail[0]] > 0
      requires 0 < blocks
    {
      if avail != [] then Take(test)
      else if mapped.Some? then With(mapped.value, blocks).Take(test)
      else this
    }

    /** The head of the available pages is followed to tell whether it is the last, and there is none. */
    predicate NoHead(p: nat, blocks: nat)
      requires p in free
    {
      free[p] + 1 == blocks && avail == []
    }

    /** The test whether the first available page is not the last one. */
    predicate MoreAvailable(test: LastPageTest) {
      if test.NextIsPrev? then |avail| > 2 else |avail| > 1
    }

    /** `fsb_arena_release` of a block of page `p`: a wholly free page goes back to the system unless the test says that
        only one page is available; a full page goes back to the available ones. */
    function Release(p: nat, blocks: nat, test: LastPageTest): Lists
      requires p in free
    {
      if free[p] + 1 == blocks then
        if MoreAvailable(test)
        then Lists(free - {p}, Remaining(test, avail, p), full, StraysAfter(test, avail, p), drops + 1)
        else this.(free := free[p := blocks])
      else if free[p] == 0 then
        Lists(free[p := 1], [p] + avail, Remaining(test, full, p), StraysAfter(test, full, p), drops + 1)
      else this.(free := free[p := free[p] + 1])
    }

    /** What a deletion does, for a page in the list or a stray one. */
    lemma DeletionFacts(test: LastPageTest, list: seq<nat>, p: nat)
      requires Distinct(list) && (p in list || p in strays) && (test.NextIsSelf? ==> strays == map[])
      requires forall i | 0 <= i < |list| :: list[i] !in strays
      ensures var rest, after := Remaining(test, list, p), StraysAfter(test, list, p);
              && Distinct(rest) && p !in rest && p !in after
              && (forall i | 0 <= i < |rest| :: rest[i] in list && rest[i] !in after)
              && (forall a | a in after :: a in strays || a in list)
              && (forall a | a in after ::
                    if a in list then after[a] == drops else a in strays && after[a] == strays[a])
              && (forall a | a in list && a != p :: a in rest || a in after)
              && (forall a | a in strays && a != p :: a in after)
              && (test.NextIsSelf? ==> after == map[])
      ensures Listed() ==>
                (StraysAfter(test, list, p) == map[] <==> !(test.NextIsPrev? && |list| == 2))
    {
      if p in list { DeletedIsSmaller(test, list, p); }
      var rest, after := Remaining(test, list, p), StraysAfter(test, list, p);
      hide Deleted, Without;
      if Listed() {
        assert p in list;
        if test.NextIsPrev? && |list| == 2 {
          var other := if list[0] == p then list[1] else list[0];
          assert other in list && other != p && other in after;
        } else {
          assert forall a | a in after :: false;
          assert after == map[];
        }
      }
    }

    lemma WithKeeps(a: nat, blocks: nat, test: LastPageTest)
      requires Sorted(blocks, test) && a !in free && 0 < blocks
      ensures With(a, blocks).Sorted(blocks, test)
    {
    }

    /** Taking a block keeps every page in one place; the first page is lost exactly when the as-written test deletes
        one of two available pages. */
    lemma TakeKeeps(blocks: nat, test: LastPageTest)
      requires Sorted(blocks, test) && avail != []
      ensures avail[0] in free && free[avail[0]] > 0 && Take(test).Sorted(blocks, test)
      ensures Listed() ==>
                (Take(test).Listed() <==> !(test.NextIsPrev? && |avail| == 2 && free[avail[0]] == 1))
    {
      hide Sorted, Remaining, StraysAfter, Deleted;
      HeadIsFree(blocks, test);
      var p := avail[0];
      if free[p] == 1 { MoveKeeps(blocks, test, p); } else { CountKeeps(blocks, test, p, free[p] - 1); }
    }

    lemma HeadIsFree(blocks: nat, test: LastPageTest)
      requires Sorted(blocks, test) && avail != []
      ensures avail[0] in avail && avail[0] in free && 0 < free[avail[0]] <= blocks
    {
    }

    /** The counter of a page that stays available changes. */
    lemma CountKeeps(blocks: nat, test: LastPageTest, p: nat, n: nat)
      requires Sorted(blocks, test) && p in free && free[p] > 0 && 0 < n <= blocks
      ensures this.(free := free[p := n]).Sorted(blocks, test)
    {
    }

    /** The first available page goes to the full ones. */
    lemma MoveKeeps(blocks: nat, test: LastPageTest, p: nat)
      requires Sorted(blocks, test) && p in avail && free[p] == 1
      ensures Lists(free[p := 0], Remaining(test, avail, p), [p] + full, StraysAfter(test, avail, p), drops + 1)
              .Sorted(blocks, test)
      ensures Listed() ==> (StraysAfter(test, avail, p) == map[] <==> !(test.NextIsPrev? && |avail| == 2))
    {
      hide Remaining, StraysAfter, Deleted;
      DeletionFacts(test, avail, p);
      assert p !in full;
    }

    /** A full page goes back to the available ones. */
    lemma MoveBackKeeps(blocks: nat, test: LastPageTest, p: nat)
      requires Sorted(blocks, test) && p in free && free[p] == 0 && 0 < blocks
      ensures Lists(free[p := 1], [p] + avail, Remaining(test, full, p), StraysAfter(test, full, p), drops + 1)
              .Sorted(blocks, test)
      ensures Listed() ==> (StraysAfter(test, full, p) == map[] <==> !(test.NextIsPrev? && |full| == 2))
    {
      hide Remaining, StraysAfter, Deleted;
      assert p !in avail;
      DeletionFacts(test, full, p);
    }

    /** An available page goes back to the system. */
    lemma UnmapKeeps(blocks: nat, test: LastPageTest, p: nat)
      requires Sorted(blocks, test) && p in free && free[p] > 0
      ensures Lists(free - {p}, Remaining(test, avail, p), full, StraysAfter(test, avail, p), drops + 1)
              .Sorted(blocks, test)
      ensures Listed() ==> (StraysAfter(test, avail, p) == map[] <==> !(test.NextIsPrev? && |avail| == 2))
      ensures Listed() ==> p in avail
    {
      hide Remaining, StraysAfter, Deleted;
      assert p !in full;
      DeletionFacts(test, avail, p);
    }

    /** Allocating keeps the lists in order, lost pages or not. */
    lemma AllocateKeeps(mapped: Option<nat>, blocks: nat, test: LastPageTest)
      requires Ok(blocks, test) && (mapped.Some? ==> mapped.value !in free)
      ensures avail != [] ==> avail[0] in free && free[avail[0]] > 0
      ensures Allocate(mapped, blocks, test).Ok(blocks, test)
      ensures Listed() ==>
                (Allocate(mapped, blocks, test).Listed() <==>
                 !(test.NextIsPrev? && |avail| == 2 && free[avail[0]] == 1))
    {
      hide Sorted;
      if avail != [] {
        TakeKeeps(blocks, test);
      } else if mapped.Some? {
        WithKeeps(mapped.value, blocks, test);
        With(mapped.value, blocks).TakeKeeps(blocks, test);
        assert With(mapped.value, blocks).avail == [mapped.value];
        if blocks == 1 { With(mapped.value, blocks).OnlyTaken(test); }
      }
    }

    lemma OnlyTaken(test: LastPageTest)
      requires |avail| == 1 && avail[0] in free && free[avail[0]] == 1
      ensures Take(test).avail == []
    {
    }

    /** Releasing keeps the lists in order, lost pages or not, unless a null list is followed. From lists without lost
        pages it goes wrong exactly with one block per page, or when the as-written test deletes one of two full
        ones. */
    lemma ReleaseKeeps(p: nat, blocks: nat, test: LastPageTest)
      requires Ok(blocks, test) && p in free && free[p] < blocks
      ensures !NoHead(p, blocks) ==> Release(p, blocks, test).Ok(blocks, test)
      ensures Listed() ==>
                (!NoHead(p, blocks) && Release(p, blocks, test).Listed() <==>
                 blocks > 1 && !(test.NextIsPrev? && |full| == 2 && free[p] == 0))
    {
      hide Sorted, Remaining, StraysAfter, Deleted;
      if free[p] == 0 {
        MoveBackKeeps(blocks, test, p);
      } else {
        UnmapKeeps(blocks, test, p);
        CountKeeps(blocks, test, p, free[p] + 1);
      }
    }

    /** Which pages are mapped after an allocation, how many free blocks they have, and which page is used next. */
    lemma AllocateCounts(mapped: Option<nat>, blocks: nat, test: LastPageTest)
      requires Ok(blocks, test) && (mapped.Some? ==> mapped.value !in free) && (avail != [] || mapped.Some?)
      requires avail != [] ==> avail[0] in free && free[avail[0]] > 0
      ensures var after := Allocate(mapped, blocks, test);
              var p := if avail == [] then mapped.value else avail[0];
              var n := if avail == [] then blocks else free[p];
              && after.free.Keys == free.Keys + {p} && after.free[p] == n - 1
              && (forall q | q in free && q != p :: after.free[q] == free[q])
              && (n > 1 ==> after.avail != [] && after.avail[0] == p)
              && after.full == (if n == 1 then [p] + full else full)
              && (n == 1 && avail == [] ==> after.avail == [])
              && (n == 1 && avail != [] && !(test.NextIsPrev? && |avail| == 2) ==> after.avail == avail[1..])
    {
      hide Deleted, Sorted, StraysAfter;
      var start := if avail == [] then With(mapped.value, blocks) else this;
      if avail != [] { FirstDeleted(blocks, test); }
      DeletedCases(test, start.avail, start.avail[0], start.LooksLast(test, start.avail[0]));
    }

    lemma NothingAllocated(blocks: nat, test: LastPageTest)
      requires avail == [] && 0 < blocks
      ensures Allocate(None, blocks, test) == this
    {
    }

    lemma FirstDeleted(blocks: nat, test: LastPageTest)
      requires Sorted(blocks, test) && avail != []
      ensures Distinct(avail) && Without(avail, avail[0]) == avail[1..]
    {
    }

    /** Which pages are mapped after a release, and how many free blocks they have. A page that became wholly free goes
        back to the system exactly when the ring of available pages has more than the test takes for the last. A page
        that was full is used next. */
    lemma ReleaseCounts(p: nat, blocks: nat, test: LastPageTest)
      requires p in free && free[p] < blocks
      ensures var after := Release(p, blocks, test);
              && (p !in after.free <==> free[p] + 1 == blocks && |avail| > if test.NextIsPrev? then 2 else 1)
              && after.free.Keys == (if p in after.free then free.Keys else free.Keys - {p})
              && (p in after.free ==> after.free[p] == free[p] + 1)
              && (forall q | q in free && q != p :: after.free[q] == free[q])
              && (free[p] + 1 == blocks && p in after.free ==> after.avail == avail && after.full == full)
              && (free[p] == 0 && 1 < blocks ==> after.avail != [] && after.avail[0] == p)
    {
      hide Deleted, StraysAfter, Remaining;
    }

    ghost predicate WhollyFree(p: nat, blocks: nat) { p in free && free[p] == blocks }

    /** With the intended test at most one page is kept that is wholly free; as written, at most two. */
    ghost predicate FewWhollyFree(blocks: nat, test: LastPageTest) {
      forall p, q, r | WhollyFree(p, blocks) && WhollyFree(q, blocks) && WhollyFree(r, blocks) && p != q ::
        test.NextIsPrev? && (r == p || r == q)
    }

    lemma FewOfList(blocks: nat, test: LastPageTest)
      requires Sorted(blocks, test) && Listed() && 0 < blocks && |avail| <= if test.NextIsPrev? then 2 else 1
      ensures FewWhollyFree(blocks, test)
    {
      forall p | WhollyFree(p, blocks) ensures p == avail[0] || (|avail| == 2 && p == avail[1]) {
        assert p in avail;
      }
    }
  }

  // ---------- runs ----------

  /** A block is allocated, on a page from the system if need be, or a block of a page is released. */
  datatype Event = Allocated(mapped: Option<nat>) | Released(page: nat)

  /** The system maps only pages that are not mapped; clients release only blocks in use. */
  predicate Enabled(l: Lists, e: Event, blocks: nat) {
    match e
    case Allocated(mapped) => mapped.Some? ==> mapped.value !in l.free
    case Released(p) => p in l.free && l.free[p] < blocks
  }

  /** The event follows a null list. */
  predicate Faults(l: Lists, e: Event, blocks: nat) {
    e.Released? && e.page in l.free && l.NoHead(e.page, blocks)
  }

  /** The event deletes one of two pages of a list with the test as written. */
  predicate BreaksPair(l: Lists, e: Event, blocks: nat, test: LastPageTest) {
    && test.NextIsPrev?
    && match e
       case Allocated(_) => |l.avail| == 2 && l.avail[0] in l.free && l.free[l.avail[0]] == 1
       case Released(p) => |l.full| == 2 && p in l.free && l.free[p] == 0 && blocks > 1
  }

  function After(l: Lists, e: Event, blocks: nat, test: LastPageTest): Lists
    requires 0 < blocks && Enabled(l, e, blocks) && (l.avail != [] ==> l.avail[0] in l.free && l.free[l.avail[0]] > 0)
  {
    match e
    case Allocated(mapped) => l.Allocate(mapped, blocks, test)
    case Released(p) => l.Release(p, blocks, test)
  }

  function Empty(): Lists { Lists(map[], [], [], map[], 0) }

  /** A run from the empty arena; following a null list ends it. */
  ghost predicate IsRun(states: seq<Lists>, events: seq<Event>, blocks: nat, test: LastPageTest) {
    && 0 < blocks && |states| == |events| + 1 && states[0] == Empty()
    && (forall i | 0 <= i < |events| ::
          && Enabled(states[i], events[i], blocks)
          && (states[i].avail != [] ==> states[i].avail[0] in states[i].free && states[i].free[states[i].avail[0]] > 0)
          && (Faults(states[i], events[i], blocks) ==> i == |events| - 1)
          && states[i + 1] == After(states[i], events[i], blocks, test))
  }

  /** One event keeps the lists in order unless it follows a null list; from lists without lost pages it goes wrong
      exactly when it breaks a pair, or releases with one block per page. */
  lemma EventKeeps(l: Lists, e: Event, blocks: nat, test: LastPageTest)
    requires l.Ok(blocks, test) && Enabled(l, e, blocks)
    ensures l.avail != [] ==> l.avail[0] in l.free && l.free[l.avail[0]] > 0
    ensures !Faults(l, e, blocks) ==> After(l, e, blocks, test).Ok(blocks, test)
    ensures l.Listed() ==>
              (!Faults(l, e, blocks) && After(l, e, blocks, test).Listed() <==>
               !BreaksPair(l, e, blocks, test) && !(blocks == 1 && e.Released?))
  {
    if l.avail != [] { l.HeadIsFree(blocks, test); }
    match e
    case Allocated(mapped) => l.AllocateKeeps(mapped, blocks, test);
    case Released(p) => l.ReleaseKeeps(p, blocks, test);
    hide Lists.Sorted, Lists.Allocate, Lists.Release;
  }

  /** Until a null list is followed, every page is in one place, listed or lost. */
  lemma {:induction false} RunKeeps(states: seq<Lists>, events: seq<Event>, blocks: nat, test: LastPageTest, i: nat)
    requires IsRun(states, events, blocks, test) && i < |states|
    requires i > 0 ==> !Faults(states[i - 1], events[i - 1], blocks)
    ensures states[i].Ok(blocks, test)
    ensures states[i].avail != [] ==> states[i].avail[0] in states[i].free && states[i].free[states[i].avail[0]] > 0
  {
    hide Lists.Sorted, After;
    if states[i].avail != [] && states[i].Ok(blocks, test) { states[i].HeadIsFree(blocks, test); }
    EmptyOk(blocks, test);
    if i > 0 {
      RunKeeps(states, events, blocks, test, i - 1);
      EventKeeps(states[i - 1], events[i - 1], blocks, test);
    }
  }

  /** All pages stay listed and no null list is followed. */
  ghost predicate StaysRight(states: seq<Lists>, events: seq<Event>, blocks: nat)
    requires |states| == |events| + 1
  {
    && (forall i | 0 <= i < |states| :: states[i].Listed())
    && (forall i | 0 <= i < |events| :: !Faults(states[i], events[i], blocks))
  }

  /** No event breaks a pair, and none releases with one block per page. */
  ghost predicate AvoidsFailures(states: seq<Lists>, events: seq<Event>, blocks: nat, test: LastPageTest)
    requires |states| == |events| + 1
  {
    forall i | 0 <= i < |events| ::
      !BreaksPair(states[i], events[i], blocks, test) && !(blocks == 1 && events[i].Released?)
  }

  /** Over a whole run, every mapped page stays in its list and no null list is followed if and only if no event deletes
      one of two pages with the test as written, and none releases a block with one block per page. */
  lemma RightExactly(states: seq<Lists>, events: seq<Event>, blocks: nat, test: LastPageTest)
    requires IsRun(states, events, blocks, test)
    ensures StaysRight(states, events, blocks) <==> AvoidsFailures(states, events, blocks, test)
  {
    hide After, Faults, BreaksPair, Lists.Ok;
    if StaysRight(states, events, blocks) {
      forall i | 0 <= i < |events|
        ensures !BreaksPair(states[i], events[i], blocks, test) && !(blocks == 1 && events[i].Released?)
      {
        RunKeeps(states, events, blocks, test, i);
        EventKeeps(states[i], events[i], blocks, test);
        assert states[i + 1].Listed();
      }
    }
    if AvoidsFailures(states, events, blocks, test) {
      forall i | 0 <= i < |states|
        ensures states[i].Listed() && (i < |events| ==> !Faults(states[i], events[i], blocks))
      {
        AvoidingIsRight(states, events, blocks, test, i);
      }
    }
  }

  lemma {:induction false} AvoidingIsRight(states: seq<Lists>, events: seq<Event>, blocks: nat, test: LastPageTest,
                                           i: nat)
    requires IsRun(states, events, blocks, test) && AvoidsFailures(states, events, blocks, test) && i < |states|
    ensures states[i].Listed() && states[i].Ok(blocks, test)
    ensures i < |events| ==> !Faults(states[i], events[i], blocks)
  {
    hide After, Faults, BreaksPair, Lists.Sorted;
    if i > 0 {
      AvoidingIsRight(states, events, blocks, test, i - 1);
      EventKeeps(states[i - 1], events[i - 1], blocks, test);
    }
    assert states[i].Ok(blocks, test) by { EmptyOk(blocks, test); }
    if i < |events| { EventKeeps(states[i], events[i], blocks, test); }
  }

  lemma EventKeepsFew(l: Lists, e: Event, blocks: nat, test: LastPageTest)
    requires l.Ok(blocks, test) && l.Listed() && l.FewWhollyFree(blocks, test) && Enabled(l, e, blocks)
    requires l.avail != [] ==> l.avail[0] in l.free && l.free[l.avail[0]] > 0
    requires After(l, e, blocks, test).Ok(blocks, test) && After(l, e, blocks, test).Listed()
    ensures After(l, e, blocks, test).FewWhollyFree(blocks, test)
  {
    hide Lists.Sorted, Lists.Allocate, Lists.Release;
    var after := After(l, e, blocks, test);
    match e
    case Allocated(mapped) =>
      if l.avail != [] { l.HeadIsFree(blocks, test); }
      if l.avail != [] || mapped.Some? {
        l.AllocateCounts(mapped, blocks, test);
      } else {
        l.NothingAllocated(blocks, test);
      }
      assert forall p | after.WhollyFree(p, blocks) :: l.WhollyFree(p, blocks);
    case Released(p) =>
      l.ReleaseCounts(p, blocks, test);
      if after.WhollyFree(p, blocks) {
        after.FewOfList(blocks, test);
      } else {
        assert forall q | after.WhollyFree(q, blocks) :: l.WhollyFree(q, blocks);
      }
  }

  /** With the intended test no page gets lost. */
  lemma IntendedIsListed(l: Lists, blocks: nat)
    requires l.Ok(blocks, NextIsSelf)
    ensures l.Listed()
  {
  }

  /** In every state of every run at most one mapped page is wholly free with the intended test; as written, at most two
      as long as no page got lost. */
  lemma {:induction false} RunKeepsFew(states: seq<Lists>, events: seq<Event>, blocks: nat, test: LastPageTest, i: nat)
    requires IsRun(states, events, blocks, test) && i < |states|
    requires test.NextIsPrev? ==> forall j | 0 <= j <= i :: states[j].Listed()
    requires i > 0 ==> !Faults(states[i - 1], events[i - 1], blocks)
    ensures states[i].FewWhollyFree(blocks, test)
  {
    hide Lists.Sorted, After, Lists.FewWhollyFree, Lists.Listed, Faults;
    if i == 0 {
      EmptyHasFew(blocks, test);
    } else {
      RunKeepsFew(states, events, blocks, test, i - 1);
      RunKeeps(states, events, blocks, test, i - 1);
      RunKeeps(states, events, blocks, test, i);
      if test.NextIsSelf? {
        IntendedIsListed(states[i - 1], blocks);
        IntendedIsListed(states[i], blocks);
      }
      EventKeepsFew(states[i - 1], events[i - 1], blocks, test);
    }
  }

  lemma EmptyHasFew(blocks: nat, test: LastPageTest)
    ensures Empty().FewWhollyFree(blocks, test)
  {
  }

  lemma EmptyOk(blocks: nat, test: LastPageTest)
    requires 0 < blocks
    ensures Empty().Ok(blocks, test) && Empty().Listed()
  {
  }
}
