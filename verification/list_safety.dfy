/** How list moves, hand-overs and edits keep each part of the invariant. Every lemma takes only the parts of
    the state it speaks of; thread `t` moves to position `pc`. */
module ListSafety {
  import opened Common
  import opened Rings
  import opened Runs
  import opened Protocol

  type Lists = map<PageId, Option<ListId>>
  type RingTable = seq<seq<PageId>>

  // ---------- holders ----------

  /** The pages without a list after the step are those held before, less what `t` gave up, plus what it took. */
  lemma HolderStep(list: Lists, list': Lists, pcs: seq<Pc>, t: nat, pc: Pc)
    requires HolderInv(list, pcs) && t < |pcs|
    requires forall p: PageId :: (p in list' && list'[p] == None) <==>
               (Holds(pc) == Some(p) || (p in list && list[p] == None && Holds(pcs[t]) != Some(p)))
    requires forall p: PageId | Holds(pc) == Some(p) && p in list && list[p] == None :: Holds(pcs[t]) == Some(p)
    ensures HolderInv(list', pcs[t := pc])
  {
    var pcs' := pcs[t := pc];
    forall p | p in list' && list'[p] == None ensures HeldBySome(pcs', p) {
      if Holds(pc) == Some(p) {
        assert Holds(pcs'[t]) == Some(p);
      } else {
        var u :| 0 <= u < |pcs| && Holds(pcs[u]) == Some(p);
        assert Holds(pcs'[u]) == Some(p);
      }
    }
  }

  // ---------- the LRU slot and the pages to unmap ----------

  lemma LruStep(list: Lists, lru: Option<PageId>, list': Lists, lru': Option<PageId>, pcs: seq<Pc>, t: nat, pc: Pc)
    requires LruInv(list, lru, pcs) && t < |pcs|
    requires forall p: PageId :: PointsToLru(list', p) <==>
               (lru' == Some(p) || Awaits(pc) == Some(p) ||
                (PointsToLru(list, p) && lru != Some(p) && Awaits(pcs[t]) != Some(p)))
    requires forall p: PageId | lru' == Some(p) :: Awaits(pc) != Some(p) && (PointsToLru(list, p) ==> lru == Some(p))
    requires forall p: PageId | Awaits(pc) == Some(p) :: lru == Some(p) || Awaits(pcs[t]) == Some(p)
    ensures LruInv(list', lru', pcs[t := pc])
  {
    var pcs' := pcs[t := pc];
    forall p: PageId | PointsToLru(list', p) ensures lru' == Some(p) || AwaitedBySome(pcs', p) {
      if Awaits(pc) == Some(p) {
        assert Awaits(pcs'[t]) == Some(p);
      } else if lru' != Some(p) {
        var u :| 0 <= u < |pcs| && Awaits(pcs[u]) == Some(p);
        assert Awaits(pcs'[u]) == Some(p);
      }
    }
  }

  // ---------- rings ----------

  lemma DeletedMembers(test: LastPageTest, ring: seq<PageId>, p: PageId, drop: bool)
    requires Distinct(ring)
    ensures Distinct(Deleted(test, ring, p, drop))
    ensures forall x | x in Deleted(test, ring, p, drop) :: x in ring && x != p
    ensures test.NextIsSelf? && p in ring ==> forall x | x in ring && x != p :: x in Deleted(test, ring, p, drop)
  {
    WithoutMembers(ring, p);
  }

  lemma RingTake(c: Config, bits: map<PageId, Bits>, list: Lists, super: RingTable, p: PageId, k: nat, drop: bool)
    requires RingInv(c, bits, list, super) && PointsTo(list, p, k)
    ensures k < |super|
    ensures RingInv(c, bits, list[p := None], super[k := Deleted(c.test, super[k], p, drop)])
  {
    hide Lfb, Deleted;
    var list', super' := list[p := None], super[k := Deleted(c.test, super[k], p, drop)];
    DeletedMembers(c.test, super[k], p, drop);
    forall j, q: PageId | 0 <= j < |super'| && q in super'[j] ensures PointsTo(list', q, j) {
      assert PointsTo(list, q, j);
    }
    forall q: PageId, j: nat | PointsTo(list', q, j)
      ensures j < c.MaxData() && Lfb(c, bits, q) == j && (c.test.NextIsSelf? ==> q in super'[j])
    {
      assert PointsTo(list, q, j);
    }
  }

  lemma RingAdd(c: Config, bits: map<PageId, Bits>, list: Lists, super: RingTable, p: PageId)
    requires RingInv(c, bits, list, super) && Lfb(c, bits, p) < c.MaxData()
    requires forall k: nat :: !PointsTo(list, p, k)
    ensures var k := Lfb(c, bits, p); RingInv(c, bits, list[p := Some(Super(k))], super[k := super[k] + [p]])
  {
    hide Lfb;
    var k := Lfb(c, bits, p);
    var list', super' := list[p := Some(Super(k))], super[k := super[k] + [p]];
    assert !PointsTo(list, p, k);
    assert p !in super[k];
    forall j, q: PageId | 0 <= j < |super'| && q in super'[j] ensures PointsTo(list', q, j) {
      assert (q == p && j == k) || q in super[j];
      assert (q == p && j == k) || PointsTo(list, q, j);
    }
    forall q: PageId, j: nat | PointsTo(list', q, j)
      ensures j < c.MaxData() && Lfb(c, bits, q) == j && (c.test.NextIsSelf? ==> q in super'[j])
    {
      assert q != p ==> PointsTo(list, q, j);
    }
  }

  /** Changes to pages that no ring refers to, before or after. */
  lemma RingSame(c: Config, bits: map<PageId, Bits>, list: Lists, bits': map<PageId, Bits>, list': Lists,
      super: RingTable)
    requires RingInv(c, bits, list, super)
    requires forall p: PageId, k: nat :: PointsTo(list', p, k) <==> PointsTo(list, p, k)
    requires forall p: PageId, k: nat | PointsTo(list, p, k) :: Lfb(c, bits', p) == Lfb(c, bits, p)
    ensures RingInv(c, bits', list', super)
  {
    hide Lfb;
  }

  // ---------- threads ----------

  lemma ThreadStep(c: Config, bits: map<PageId, Bits>, blocks: set<Block>, bits': map<PageId, Bits>,
                   blocks': set<Block>, pcs: seq<Pc>, t: nat, pc: Pc)
    requires ThreadInv(c, bits, blocks, pcs) && t < |pcs|
    requires PcOk(c, bits', blocks', pc)
    requires forall u | 0 <= u < |pcs| && u != t :: PcOk(c, bits', blocks', pcs[u])
    requires forall u | 0 <= u < |pcs| && u != t && Claims(pcs[u]).Some? :: Claims(pcs[u]).value in blocks'
    requires Claims(pc).Some? ==> Claims(pc).value in blocks'
    requires Claims(pc).Some? ==> forall u | 0 <= u < |pcs| && u != t :: Claims(pcs[u]) != Claims(pc)
    ensures ThreadInv(c, bits', blocks', pcs[t := pc])
  {
    hide PcOk;
  }

  /** The other threads' knowledge survives an edit of a page that none of them holds or is about to unmap. */
  lemma OthersKnow(c: Config, bits: map<PageId, Bits>, blocks: set<Block>, bits': map<PageId, Bits>,
                   blocks': set<Block>, p: PageId, pc: Pc)
    requires PcOk(c, bits, blocks, pc) && Holds(pc) != Some(p) && Awaits(pc) != Some(p)
    requires forall q: PageId | q != p :: PageBits(bits', q) == PageBits(bits, q)
    requires forall b | b in blocks' :: b in blocks || b.page == p
    ensures PcOk(c, bits', blocks', pc)
  {
    hide Runs.LongestFree;
  }
}
