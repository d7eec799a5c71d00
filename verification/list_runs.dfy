/** What becomes of the pages that the deletion test as written loses, over whole runs of the protocol: the page to
    delete is always in its list or in a ring of stray pages, so that the links decide what a deletion does. */
module ListRuns {
  import opened Common
  import opened Rings
  import opened Superblocks
  import opened Protocol
  import opened ProtocolSafety
  import opened ProtocolRuns

  type Table = seq<seq<PageId>>

  ghost function RingOf(table: Table, p: PageId): (j: nat)
    requires InSome(table, p)
    ensures j < |table| && p in table[j]
  {
    var j :| 0 <= j < |table| && p in table[j]; j
  }

  predicate InSuper(list: map<PageId, Option<ListId>>, p: PageId) {
    p in list && list[p].Some? && list[p].value.Super?
  }

  /** The lists of the superblock, then rings of stray pages. These hold the pages that point to a list of the
      superblock, each once; with the intended test no page is astray. */
  ghost predicate TableOk(c: Config, s: State, table: Table) {
    && |s.super| <= |table| && (forall k | 0 <= k < |s.super| :: table[k] == s.super[k])
    && AllApart(table) && (forall i | 0 <= i < |table| :: Distinct(table[i]))
    && (forall i, p: PageId | 0 <= i < |table| && p in table[i] :: InSuper(s.list, p))
    && (forall p: PageId | InSuper(s.list, p) :: InSome(table, p))
    && (c.test.NextIsSelf? ==> forall i | |s.super| <= i < |table| :: table[i] == [])
  }

  /** The page that a thread's next lock section deletes from a list of the superblock. */
  ghost function Taken(s: State, pc: Pc): Option<PageId> {
    match pc
    case FindPage(n) => if s.lru.Some? then None else FirstListed(s, n)
    case Search(n) => FirstListed(s, n)
    case Grab(_, b) => if InSuper(s.list, b.page) then Some(b.page) else None
    case _ => None
  }

  ghost function FirstListed(s: State, n: nat): Option<PageId> {
    var k := FirstList(s.super, n);
    if k < |s.super| then Some(s.super[k][0]) else None
  }

  /** A deletion of a stray page empties the list it points to exactly when its own ring has at most two pages. */
  ghost predicate AsLinked(s: State, table: Table, p: PageId, drop: bool)
    requires InSome(table, p) && InSuper(s.list, p) && s.list[p].value.k < |s.super|
  {
    p in s.super[s.list[p].value.k] || (drop <==> |table[RingOf(table, p)]| <= 2)
  }

  /** What a step that leads to state `s'` makes of the table. */
  ghost function TableAfter(c: Config, s: State, taken: Option<PageId>, s': State, table: Table): Table
    requires |s.super| <= |table|
    requires taken.Some? ==> InSome(table, taken.value) && InSuper(s.list, taken.value)
    requires taken.Some? ==> s.list[taken.value].value.k < |s.super|
  {
    if taken.Some? then RingsAfter(table, c.test, s.list[taken.value].value.k, RingOf(table, taken.value), taken.value)
    else s'.super + table[|s.super|..]
  }

  /** The pages in the table are those that point to a list of the superblock. */
  lemma TableHolds(c: Config, s: State, table: Table, p: PageId)
    requires TableOk(c, s, table)
    ensures InSome(table, p) <==> InSuper(s.list, p)
  {
  }

  /** A deletion, with the links deciding what it does. */
  lemma TakeKeeps(c: Config, s: State, table: Table, p: PageId, k: nat, drop: bool)
    requires Inv(c, s) && TableOk(c, s, table) && PointsTo(s.list, p, k) && k < |s.super|
    requires AsLinked(s, table, p, drop)
    ensures CanTakeOut(s, p)
    ensures TableOk(c, TakeOut(c, s, p, drop), TableAfter(c, s, Some(p), s, table))
  {
    var j := RingOf(table, p);
    var table' := RingsAfter(table, c.test, k, j, p);
    DeletionApart(table, c.test, k, j, p);
    DeletionMembers(table, c.test, k, j, p);
    forall q: PageId | InSuper(s.list[p := None], q) ensures InSome(table', q) {
      TableHolds(c, s, table, q);
    }
    forall i, q: PageId | 0 <= i < |table'| && q in table'[i] ensures InSuper(s.list[p := None], q) {
      assert InSome(table', q);
      TableHolds(c, s, table, q);
    }
  }

  /** A page that no ring holds goes to the end of a list. */
  lemma AddKeeps(c: Config, s: State, table: Table, p: PageId, k: nat)
    requires TableOk(c, s, table) && p in s.list && !InSuper(s.list, p) && k < |s.super|
    ensures TableOk(c, AddTo(s, p, k), AddTo(s, p, k).super + table[|s.super|..])
  {
    var table' := AddTo(s, p, k).super + table[|s.super|..];
    assert table' == table[k := table[k] + [p]];
    TableHolds(c, s, table, p);
    AddApart(table, k, p);
    forall i, q: PageId | 0 <= i < |table'| && q in table'[i] ensures InSuper(s.list[p := Some(Super(k))], q) {
      TableHolds(c, s, table, q);
      assert (q == p && i == k) || q in table[i];
    }
    forall q: PageId | InSuper(s.list[p := Some(Super(k))], q) ensures InSome(table', q) {
      if q == p {
        assert p in table'[k];
      } else {
        TableHolds(c, s, table, q);
        var i :| 0 <= i < |table| && q in table[i];
        assert q in table'[i];
      }
    }
  }

  /** Steps that move no page to or from the superblock. */
  lemma SameKeeps(c: Config, s: State, s': State, table: Table)
    requires TableOk(c, s, table) && s'.super == s.super
    requires forall p: PageId :: InSuper(s'.list, p) <==> InSuper(s.list, p)
    ensures TableOk(c, s', s'.super + table[|s.super|..])
  {
    assert s'.super + table[|s.super|..] == table;
  }

  /** The links decide what a step deletes. */
  ghost predicate LinksDecide(s: State, t: nat, a: Action, table: Table)
    requires t < |s.pcs|
  {
    a.Advance? && Taken(s, s.pcs[t]).Some? ==>
      var p := Taken(s, s.pcs[t]).value;
      InSome(table, p) && InSuper(s.list, p) && s.list[p].value.k < |s.super| && AsLinked(s, table, p, a.drop)
  }

  ghost function StepTable(c: Config, s: State, t: nat, a: Action, table: Table): Table
    requires Enabled(c, s, t, a) && Safe(c, s, s.pcs[t]) && LinksDecide(s, t, a, table) && |s.super| <= |table|
  {
    TableAfter(c, s, if a.Advance? then Taken(s, s.pcs[t]) else None, Step(c, s, t, a), table)
  }

  /** A page to delete is always in the table. */
  lemma TakenIsThere(c: Config, s: State, t: nat, table: Table, p: PageId)
    requires Inv(c, s) && TableOk(c, s, table) && t < |s.pcs| && Taken(s, s.pcs[t]) == Some(p)
    ensures InSome(table, p) && InSuper(s.list, p) && s.list[p].value.k < |s.super|
  {
    hide Lfb, HolderInv, LruInv, BitmapInv, ThreadInv;
    if s.pcs[t].Grab? {
    } else {
      var n := s.pcs[t].n;
      var k := FirstList(s.super, n);
      assert p in s.super[k];
      assert PointsTo(s.list, p, k);
    }
    TableHolds(c, s, table, p);
    assert PointsTo(s.list, p, s.list[p].value.k);
  }

  /** Only `add_to_list` and `delete_from_list` concern the table. */
  lemma TakeStep(c: Config, s: State, t: nat, a: Action, p: PageId)
    requires Inv(c, s) && Enabled(c, s, t, a) && Safe(c, s, s.pcs[t]) && a.Advance? && Taken(s, s.pcs[t]) == Some(p)
    requires CanTakeOut(s, p)
    ensures var s' := Step(c, s, t, a); s'.super == TakeOut(c, s, p, a.drop).super
    ensures var s' := Step(c, s, t, a); s'.list == TakeOut(c, s, p, a.drop).list
  {
    hide Lfb, Inv, Deleted;
  }

  /** The page that a step files in a list of the superblock, and the list. */
  ghost function Filed(c: Config, s: State, pc: Pc): Option<(PageId, nat)> {
    match pc
    case AddSuper(_, p, lfb) => Some((p, lfb))
    case Unhand(_, _) =>
      if s.lru.Some? && Lfb(c, s.bits, s.lru.value) < c.MaxData() then Some((s.lru.value, Lfb(c, s.bits, s.lru.value)))
      else None
    case _ => None
  }

  /** The other steps put a page there that was not, */
  lemma FilingStep(c: Config, s: State, t: nat, a: Action, p: PageId, k: nat)
    requires Inv(c, s) && Enabled(c, s, t, a) && Safe(c, s, s.pcs[t])
    requires a.Advance? && Filed(c, s, s.pcs[t]) == Some((p, k))
    ensures p in s.list && !InSuper(s.list, p) && k < |s.super|
    ensures var s' := Step(c, s, t, a);
            && s'.super == AddTo(s, p, k).super
            && forall q: PageId :: InSuper(s'.list, q) <==> InSuper(AddTo(s, p, k).list, q)
  {
    hide BitmapInv, ThreadInv, RingInv, Lfb;
    HolderFacts(s.list, s.pcs, t);
    LruFacts(s.list, s.lru, s.pcs, t);
    hide HolderInv, LruInv;
  }

  /** Pages that are not mapped, or held, or in the LRU slot, or set aside, are in no list of the superblock. */
  lemma QuietFacts(c: Config, s: State, t: nat)
    requires Inv(c, s) && t < |s.pcs|
    ensures forall p: PageId | p !in s.bits || Holds(s.pcs[t]) == Some(p) :: !InSuper(s.list, p)
    ensures forall p: PageId | s.lru == Some(p) || Awaits(s.pcs[t]) == Some(p) :: !InSuper(s.list, p)
  {
    hide BitmapInv, ThreadInv, RingInv;
    HolderFacts(s.list, s.pcs, t);
    LruFacts(s.list, s.lru, s.pcs, t);
    hide HolderInv, LruInv;
  }

  /** Pages outside of the superblock may change their `list` field. */
  lemma QuietAdvance(c: Config, s: State, pc: Pc, mapped: Option<PageId>, drop: bool)
    requires Safe(c, s, pc) && Taken(s, pc).None? && Filed(c, s, pc).None? && s.list.Keys == s.bits.Keys
    requires forall p: PageId | mapped == Some(p) || Holds(pc) == Some(p) :: !InSuper(s.list, p)
    requires forall p: PageId | s.lru == Some(p) || Awaits(pc) == Some(p) :: !InSuper(s.list, p)
    ensures var s' := Advanced(c, s, pc, mapped, drop).0;
            s'.super == s.super && forall p: PageId :: InSuper(s'.list, p) <==> InSuper(s.list, p)
  {
    hide Lfb, Runs.FirstFit, Runs.Fill, NewBits, FirstList, Runs.Free, Deleted;
  }

  /** or leave the superblock alone. */
  lemma QuietStep(c: Config, s: State, t: nat, a: Action)
    requires Inv(c, s) && Enabled(c, s, t, a) && Safe(c, s, s.pcs[t])
    requires !a.Advance? || (Taken(s, s.pcs[t]).None? && Filed(c, s, s.pcs[t]).None?)
    ensures var s' := Step(c, s, t, a);
            s'.super == s.super && forall p: PageId :: InSuper(s'.list, p) <==> InSuper(s.list, p)
  {
    QuietFacts(c, s, t);
    hide Advanced, Safe, BitmapInv, ThreadInv, RingInv, HolderInv, LruInv, Taken, Filed;
    if a.Advance? { QuietAdvance(c, s, s.pcs[t], a.mapped, a.drop); }
  }

  lemma TableSizes(c: Config, s: State, table: Table, p: PageId, k: nat)
    requires TableOk(c, s, table) && k < |s.super|
    ensures var super := AddTo(s, p, k).super;
            |super| == |s.super| && super + (super + table[|s.super|..])[|super|..] == super + table[|s.super|..]
  {
    hide TableOk;
  }

  lemma StepKeepsTable(c: Config, s: State, t: nat, a: Action, table: Table)
    requires Inv(c, s) && Enabled(c, s, t, a) && Safe(c, s, s.pcs[t]) && TableOk(c, s, table)
    requires LinksDecide(s, t, a, table)
    ensures TableOk(c, Step(c, s, t, a), StepTable(c, s, t, a, table))
  {
    if a.Advance? && Taken(s, s.pcs[t]).Some? {
      hide Step, Inv, Safe;
      var p := Taken(s, s.pcs[t]).value;
      TakeKeeps(c, s, table, p, s.list[p].value.k, a.drop);
      TakeStep(c, s, t, a, p);
    } else if a.Advance? && Filed(c, s, s.pcs[t]).Some? {
      hide Step, Inv, Safe, AddTo, TableOk;
      var (p, k) := Filed(c, s, s.pcs[t]).value;
      FilingStep(c, s, t, a, p, k);
      AddKeeps(c, s, table, p, k);
      SameKeeps(c, AddTo(s, p, k), Step(c, s, t, a), AddTo(s, p, k).super + table[|s.super|..]);
      TableSizes(c, s, table, p, k);
    } else {
      hide Step, Inv, Safe, AddTo, TableOk;
      QuietStep(c, s, t, a);
      SameKeeps(c, s, Step(c, s, t, a), table);
    }
  }

  // ---------- runs ----------

  /** A run in which the links decide every deletion, and the table after each of its steps. */
  ghost predicate IsListRun(c: Config, threads: nat, states: seq<State>, events: seq<Event>, tables: seq<Table>) {
    && IsRun(c, threads, states, events) && |tables| == |states|
    && tables[0] == Init(c, threads).super
    && forall i | 0 <= i < |events| ::
         && |states[i].super| <= |tables[i]|
         && LinksDecide(states[i], events[i].thread, events[i].action, tables[i])
         && tables[i + 1] == StepTable(c, states[i], events[i].thread, events[i].action, tables[i])
  }

  /** In every state of every such run, with either test, the page that any thread is about to delete is in its list or
      in one ring of stray pages; so no deletion follows links into a ring that another page has left. */
  lemma {:induction false} RunKeepsTable(c: Config, threads: nat, states: seq<State>, events: seq<Event>,
                                         tables: seq<Table>, i: nat)
    requires IsListRun(c, threads, states, events, tables) && i < |states|
    ensures TableOk(c, states[i], tables[i])
    ensures forall t: nat, p | t < |states[i].pcs| && Taken(states[i], states[i].pcs[t]) == Some(p) ::
              InSome(tables[i], p) && InSuper(states[i].list, p) && states[i].list[p].value.k < |states[i].super|
  {
    hide Inv, Step, Safe, Enabled, Taken, LinksDecide, StepTable;
    RunKeeps(c, threads, states, events, i);
    if i == 0 {
      hide TableOk;
      InitTable(c, threads);
    } else {
      hide TableOk;
      RunKeepsTable(c, threads, states, events, tables, i - 1);
      RunKeeps(c, threads, states, events, i - 1);
      StepKeepsTable(c, states[i - 1], events[i - 1].thread, events[i - 1].action, tables[i - 1]);
    }
    forall t: nat, p | t < |states[i].pcs| && Taken(states[i], states[i].pcs[t]) == Some(p)
      ensures InSome(tables[i], p) && InSuper(states[i].list, p) && states[i].list[p].value.k < |states[i].super|
    {
      TakenIsThere(c, states[i], t, tables[i], p);
    }
  }

  lemma InitTable(c: Config, threads: nat)
    requires c.Valid()
    ensures TableOk(c, Init(c, threads), Init(c, threads).super)
  {
  }

  // ---------- the links ----------

  type Headers<T> = map<PageId, Node<T>>

  /** The rings consist of the headers of the pages of the table. */
  ghost predicate AreHeaders<T>(nodes: Headers<T>, table: Table, rings: seq<seq<Node<T>>>) {
    && (forall p, q | p in nodes && q in nodes && p != q :: nodes[p] != nodes[q])
    && |table| == |rings| && forall i | 0 <= i < |table| :: Named(nodes, table[i], rings[i])
  }

  ghost predicate Named<T>(nodes: Headers<T>, ids: seq<PageId>, ring: seq<Node<T>>) {
    |ids| == |ring| && forall i | 0 <= i < |ids| :: ids[i] in nodes && nodes[ids[i]] == ring[i]
  }

  lemma {:induction false} NamedWithout<T>(nodes: Headers<T>, ids: seq<PageId>, ring: seq<Node<T>>, p: PageId)
    requires forall x, y | x in nodes && y in nodes && x != y :: nodes[x] != nodes[y]
    requires Named(nodes, ids, ring) && p in nodes
    ensures p in ids <==> nodes[p] in ring
    ensures Named(nodes, Without(ids, p), Without(ring, nodes[p]))
  {
    if ids != [] {
      assert Named(nodes, ids[1..], ring[1..]);
      NamedWithout(nodes, ids[1..], ring[1..], p);
      assert p in ids <==> p == ids[0] || p in ids[1..];
      assert nodes[p] in ring <==> nodes[p] == ring[0] || nodes[p] in ring[1..];
    }
  }

  lemma HeadersAfter<T>(nodes: Headers<T>, table: Table, rings: seq<seq<Node<T>>>, test: LastPageTest, k: nat, j: nat,
                        p: PageId)
    requires AreHeaders(nodes, table, rings) && k < |table| && j < |table| && p in nodes
    ensures AreHeaders(nodes, RingsAfter(table, test, k, j, p), RingsAfter(rings, test, k, j, nodes[p]))
  {
    NamedWithout(nodes, table[k], rings[k], p);
    NamedWithout(nodes, table[j], rings[j], p);
    hide Without;
  }

  /** A page is in the list it points to, or in a ring behind the lists. */
  lemma PlaceInTable(c: Config, s: State, table: Table, p: PageId, k: nat)
    requires Inv(c, s) && TableOk(c, s, table) && PointsTo(s.list, p, k)
    ensures k < |s.super| && InSome(table, p)
    ensures var j := RingOf(table, p); if p in s.super[k] then j == k else |s.super| <= j
  {
    hide HolderInv, LruInv, BitmapInv, ThreadInv, Lfb;
    TableHolds(c, s, table, p);
    var j := RingOf(table, p);
    if j < |s.super| {
      assert p in s.super[j];
      assert PointsTo(s.list, p, j);
    } else {
      assert Separate(table[j], table[k]);
    }
  }

  lemma StrayLooksLast<T>(superblock: Superblock<T>, j: nat, page: Node<T>)
    requires superblock.Valid() && |superblock.lists| <= j < |superblock.rings| && page in superblock.rings[j]
    ensures page.next == page.prev <==> |superblock.rings[j]| <= 2
  {
    var i :| 0 <= i < |superblock.rings[j]| && superblock.rings[j][i] == page;
    LooksLast(superblock.rings[j], i);
  }

  /** `delete_from_list` on the superblock's links makes of them what the protocol makes of the table; for a page that
      the test as written has lost, the two links that the test compares are the protocol's choice. */
  method DeleteHeader<T>(superblock: Superblock<T>, k: nat, page: Node<T>, ghost nodes: Headers<T>, ghost c: Config,
                         ghost s: State, ghost table: Table, ghost p: PageId)
    requires Inv(c, s) && TableOk(c, s, table) && PointsTo(s.list, p, k) && p in nodes && nodes[p] == page
    requires superblock.Valid() && superblock.test == c.test && |superblock.lists| == |s.super|
    requires AreHeaders(nodes, table, superblock.rings)
    modifies superblock`rings, superblock.lists[k], superblock.rings[k], superblock.rings[RingOf(table, p)]
    ensures superblock.Valid() && AreHeaders(nodes, TableAfter(c, s, Some(p), s, table), superblock.rings)
    ensures p !in s.super[k] ==> forall drop :: AsLinked(s, table, p, drop) <==> drop == old(page.next == page.prev)
  {
    hide Inv, TableOk, Superblock.Valid;
    PlaceInTable(c, s, table, p, k);
    ghost var j := RingOf(table, p);
    NamedWithout(nodes, table[j], superblock.rings[j], p);
    if j != k { StrayLooksLast(superblock, j, page); }
    HeadersAfter(nodes, table, superblock.rings, c.test, k, j, p);
    superblock.TakeOut(k, page, j);
  }

  /** `add_to_list` does too, for a page that points to no list of the superblock. */
  method AddHeader<T>(superblock: Superblock<T>, k: nat, page: Node<T>, ghost nodes: Headers<T>, ghost c: Config,
                      ghost s: State, ghost table: Table, ghost p: PageId)
    requires TableOk(c, s, table) && p in s.list && !InSuper(s.list, p) && p in nodes && nodes[p] == page
    requires superblock.Valid() && superblock.test == c.test && k < |superblock.lists| == |s.super|
    requires AreHeaders(nodes, table, superblock.rings)
    modifies superblock`rings, superblock.lists[k], page, superblock.rings[k]
    ensures superblock.Valid() && AreHeaders(nodes, AddTo(s, p, k).super + table[|s.super|..], superblock.rings)
  {
    hide Superblock.Valid;
    TableHolds(c, s, table, p);
    forall i | 0 <= i < |table| ensures page !in superblock.rings[i] {
      NamedWithout(nodes, table[i], superblock.rings[i], p);
    }
    superblock.Add(k, page);
    assert AddTo(s, p, k).super + table[|s.super|..] == table[k := table[k] + [p]];
  }
}
