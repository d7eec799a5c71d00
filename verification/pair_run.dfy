/** A run of the protocol as written in which a page is lost from its list: three threads allocate at the same time,
    so that two pages end up in one ring, and then one of them is grabbed. */
module PairRun {
  import opened Common
  import opened Rings
  import opened Runs
  import opened Protocol
  import opened ProtocolRuns
  import opened ProtocolTheorems

  /** Pages of four units, one of them reserved, and the deletion test as written. */
  function Small(): Config { Config(4, 1, NextIsPrev) }

  /** A page with a block of two units; one unit is free. */
  function Used(): Bits { [true, true, true, false] }

  function BlockOn(p: PageId): Block { Block(p, 1, 2) }

  function Handing(p: PageId): Pc { Unhand(p, Some(BlockOn(p))) }

  function EventAt(i: nat): Event {
    if i < 3 then Event(i, StartAllocate(2))
    else if i < 12 then Event(i % 3, Advance(if 6 <= i < 9 then Some(i - 6) else None, false))
    else if i == 12 then Event(0, StartOp(Release, BlockOn(0)))
    else Event(0, Advance(None, false))
  }

  /** The pages `0 .. n`, each with one block. */
  function Pages(n: nat): map<PageId, Bits> { if n == 0 then map[] else Pages(n - 1)[n - 1 := Used()] }

  function Blocks(n: nat): set<Block> { if n == 0 then {} else Blocks(n - 1) + {BlockOn(n - 1)} }

  function Unlisted(n: nat): map<PageId, Option<ListId>> { if n == 0 then map[] else Unlisted(n - 1)[n - 1 := None] }

  function Mapped(n: nat, list: map<PageId, Option<ListId>>, lru: Option<PageId>, super: seq<seq<PageId>>,
      pcs: seq<Pc>): State {
    State(Pages(n), list, lru, super, Blocks(n), pcs)
  }

  function StateAt(i: nat): State {
    var none: seq<seq<PageId>> := [[], [], [], []];
    if i <= 3 then Mapped(0, map[], None, none, seq(3, t => if t < i then FindPage(2) else Idle))
    else if i <= 6 then Mapped(0, map[], None, none, seq(3, t => if t < i - 3 then MapPage(2) else FindPage(2)))
    else if i <= 9 then
      Mapped(i - 6, Unlisted(i - 6), None, none,
              seq(3, t requires 0 <= t => if t < i - 6 then Handing(t) else MapPage(2)))
    else if i == 10 then Mapped(3, map[0 := Some(Lru), 1 := None, 2 := None], Some(0), none,
        [Idle, Handing(1), Handing(2)])
    else if i == 11 then
      Mapped(3, map[0 := Some(Super(1)), 1 := Some(Lru), 2 := None], Some(1), [[], [0], [], []],
          [Idle, Idle, Handing(2)])
    else if i <= 13 then
      Mapped(3, map[0 := Some(Super(1)), 1 := Some(Super(1)), 2 := Some(Lru)], Some(2), [[], [0, 1], [], []],
             [if i == 12 then Idle else Grab(Release, BlockOn(0)), Idle, Idle])
    else
      Mapped(3, map[0 := None, 1 := Some(Super(1)), 2 := Some(Lru)], Some(2), none,
          [Edit(Release, BlockOn(0)), Idle, Idle])
  }

  ghost predicate StepAt(i: nat) {
    var s, e := StateAt(i), EventAt(i);
    && Enabled(Small(), s, e.thread, e.action) && Safe(Small(), s, s.pcs[e.thread])
    && Step(Small(), s, e.thread, e.action) == StateAt(i + 1)
  }

  lemma UsedPage()
    ensures NewBits(Small(), 2) == Used() && LongestFree(Used(), 1) == 1
  {
    assert Free(Used(), 3, 1);
    forall m: nat | HasFree(Used(), 1, m) ensures m <= 1 {
      var o: nat :| 1 <= o && Free(Used(), o, m);
      assert m > 0 ==> !Used()[o];
    }
    LongestIsUnique(Used(), 1, 1);
  }

  lemma AllStart(i: nat)
    requires i < 3
    ensures StepAt(i)
  {
    assert StateAt(i).pcs[i := FindPage(2)] == StateAt(i + 1).pcs;
  }

  lemma AllSearch(i: nat)
    requires 3 <= i < 6
    ensures StepAt(i)
  {
    assert StateAt(i).pcs[i - 3 := MapPage(2)] == StateAt(i + 1).pcs;
  }

  lemma AllMap(i: nat)
    requires 6 <= i < 9
    ensures StepAt(i)
  {
    hide Runs.LongestFree;
    UsedPage();
    var p := i - 6;
    assert StateAt(i).pcs[p := Handing(p)] == StateAt(i + 1).pcs;
  }

  lemma FirstHandsBack()
    ensures StepAt(9)
  {
    hide Runs.LongestFree, Runs.FirstFit;
    assert Unlisted(3) == map[0 := None, 1 := None, 2 := None];
    assert StateAt(9).pcs[0 := Idle] == StateAt(10).pcs;
  }

  /** The page handed back replaces the one in the LRU slot, which is filed by its longest free block. */
  lemma SecondHandsBack()
    ensures StepAt(10)
  {
    hide Runs.LongestFree, Runs.FirstFit;
    UsedPage();
    var s, next := StateAt(10), StateAt(11);
    assert s.pcs[1 := Idle] == next.pcs;
    assert s.super[1] + [0] == next.super[1];
    assert s.super[1 := s.super[1] + [0]] == next.super;
  }

  lemma ThirdHandsBack()
    ensures StepAt(11)
  {
    hide Runs.LongestFree, Runs.FirstFit;
    UsedPage();
    var s, next := StateAt(11), StateAt(12);
    assert s.pcs[2 := Idle] == next.pcs;
    assert s.super[1] + [1] == next.super[1];
    assert s.super[1 := s.super[1] + [1]] == next.super;
  }

  lemma OneReleases(i: nat)
    requires 12 <= i < 14
    ensures StepAt(i)
  {
    hide Runs.LongestFree;
  }

  /** The run: its last step deletes from a ring of two, and page 1 points to a list afterwards but is in no place at
      all. */
  lemma PageIsLost() returns (states: seq<State>, events: seq<Event>)
    ensures IsRun(Small(), 3, states, events) && |events| == 14
    ensures BreaksPair(states[13], events[13])
    ensures PointsTo(states[14].list, 1, 1) && 1 in states[14].bits && Places(states[14], 1) == 0
  {
    hide StateAt, EventAt, BreaksPair, Init, StepAt, IsRun, PointsTo, Places;
    states, events := seq(15, i requires 0 <= i => StateAt(i)), seq(14, i requires 0 <= i => EventAt(i));
    FirstAndLast();
    forall i | 0 <= i < 14 ensures StepAt(i) { EachStep(i); }
    StepsMakeRun(states, events);
  }

  lemma EachStep(i: nat)
    requires i < 14
    ensures StepAt(i)
  {
    hide StepAt;
    if i < 3 { AllStart(i); } else if i < 6 { AllSearch(i); } else if i < 9 { AllMap(i); }
    else if i == 9 { FirstHandsBack(); } else if i == 10 { SecondHandsBack(); } else if i == 11 { ThirdHandsBack(); }
    else { OneReleases(i); }
  }

  lemma StepsMakeRun(states: seq<State>, events: seq<Event>)
    requires |states| == 15 && |events| == 14 && StateAt(0) == Init(Small(), 3)
    requires forall i | 0 <= i < 15 :: states[i] == StateAt(i)
    requires forall i | 0 <= i < 14 :: events[i] == EventAt(i) && StepAt(i)
    ensures IsRun(Small(), 3, states, events)
  {
    hide StateAt, EventAt, Step, Safe, Enabled, Init;
  }

  lemma FirstAndLast()
    ensures StateAt(0) == Init(Small(), 3) && BreaksPair(StateAt(13), EventAt(13))
    ensures var s := StateAt(14); PointsTo(s.list, 1, 1) && 1 in s.bits && Places(s, 1) == 0
  {
    assert StateAt(0).super == Init(Small(), 3).super && StateAt(0).pcs == Init(Small(), 3).pcs;
    assert DeletesPage(StateAt(13), StateAt(13).pcs[0], 0) && PointsTo(StateAt(13).list, 0, 1);
  }
}
