/** Every step of every thread keeps the invariant; so it holds in every state of every run. */
module ProtocolSafety {
  import opened Common
  import opened Rings
  import opened Runs
  import opened Protocol
  import opened BitmapSafety
  import opened ListSafety

  /** Only thread `t` moves; it holds and awaits what it did before. */
  lemma MoveKeeps(c: Config, s: State, t: nat, pc: Pc)
    requires Inv(c, s) && t < |s.pcs|
    requires Holds(pc) == Holds(s.pcs[t]) && Awaits(pc) == Awaits(s.pcs[t]) && PcOk(c, s.bits, s.blocks, pc)
    requires Claims(pc).Some? ==> Claims(pc).value in s.blocks
    requires Claims(pc).Some? ==> forall u | 0 <= u < |s.pcs| && u != t :: Claims(s.pcs[u]) != Claims(pc)
    ensures Inv(c, s.(pcs := s.pcs[t := pc]))
  {
    assert HolderInv(s.list, s.pcs[t := pc]) by {
      hide LruInv, RingInv, ThreadInv, BitmapInv, PcOk;
      HolderFacts(s.list, s.pcs, t);
      HolderStep(s.list, s.list, s.pcs, t, pc);
    }
    assert LruInv(s.list, s.lru, s.pcs[t := pc]) by {
      hide HolderInv, RingInv, ThreadInv, BitmapInv, PcOk;
      LruFacts(s.list, s.lru, s.pcs, t);
      LruStep(s.list, s.lru, s.list, s.lru, s.pcs, t, pc);
    }
    assert ThreadInv(c, s.bits, s.blocks, s.pcs[t := pc]) by {
      hide HolderInv, RingInv, LruInv, BitmapInv, PcOk;
      ThreadFacts(c, s.bits, s.blocks, s.pcs, t);
      ThreadStep(c, s.bits, s.blocks, s.bits, s.blocks, s.pcs, t, pc);
    }
    hide HolderInv, RingInv, LruInv, BitmapInv, ThreadInv, PcOk;
  }

  lemma HolderFacts(list: Lists, pcs: seq<Pc>, t: nat)
    requires HolderInv(list, pcs) && t < |pcs|
    ensures forall p: PageId | Holds(pcs[t]) == Some(p) :: p in list && list[p] == None
  {
  }

  lemma LruFacts(list: Lists, lru: Option<PageId>, pcs: seq<Pc>, t: nat)
    requires LruInv(list, lru, pcs) && t < |pcs|
    ensures forall p: PageId | Awaits(pcs[t]) == Some(p) :: PointsToLru(list, p) && lru != Some(p)
    ensures forall p: PageId | lru == Some(p) :: PointsToLru(list, p)
  {
  }

  lemma ThreadFacts(c: Config, bits: map<PageId, Bits>, blocks: set<Block>, pcs: seq<Pc>, t: nat)
    requires ThreadInv(c, bits, blocks, pcs) && t < |pcs|
    ensures PcOk(c, bits, blocks, pcs[t])
    ensures Claims(pcs[t]).Some? ==> Claims(pcs[t]).value in blocks
    ensures forall u | 0 <= u < |pcs| :: PcOk(c, bits, blocks, pcs[u])
    ensures forall u | 0 <= u < |pcs| && Claims(pcs[u]).Some? :: Claims(pcs[u]).value in blocks
    ensures forall u | 0 <= u < |pcs| && u != t && Claims(pcs[t]).Some? :: Claims(pcs[u]) != Claims(pcs[t])
  {
    hide PcOk;
  }

  /** `delete_from_list`: the page leaves its list and thread `t` holds it. */
  lemma TakeOutKeeps(c: Config, s: State, t: nat, p: PageId, drop: bool, pc: Pc)
    requires Inv(c, s) && t < |s.pcs|
    requires p in s.list && s.list[p].Some? && !AwaitedBySome(s.pcs, p)
    requires Holds(s.pcs[t]).None? && Awaits(s.pcs[t]).None?
    requires Holds(pc) == Some(p) && Awaits(pc).None? && Claims(pc) == Claims(s.pcs[t])
    requires PcOk(c, s.bits, s.blocks, pc)
    ensures CanTakeOut(s, p)
    ensures Inv(c, TakeOut(c, s, p, drop).(pcs := s.pcs[t := pc]))
  {
    var list' := s.list[p := None];
    var lru' := if s.list[p] == Some(Lru) then None else s.lru;
    assert HolderInv(list', s.pcs[t := pc]) by {
      hide LruInv, RingInv, ThreadInv, BitmapInv, PcOk;
      HolderStep(s.list, list', s.pcs, t, pc);
    }
    assert LruInv(list', lru', s.pcs[t := pc]) by {
      hide HolderInv, RingInv, ThreadInv, BitmapInv, PcOk;
      LruFacts(s.list, s.lru, s.pcs, t);
      PlaceOfLru(s.list, s.lru, s.pcs, p);
      LruStep(s.list, s.lru, list', lru', s.pcs, t, pc);
    }
    assert ThreadInv(c, s.bits, s.blocks, s.pcs[t := pc]) by {
      hide HolderInv, RingInv, LruInv, BitmapInv, PcOk;
      ThreadFacts(c, s.bits, s.blocks, s.pcs, t);
      ThreadStep(c, s.bits, s.blocks, s.bits, s.blocks, s.pcs, t, pc);
    }
    hide HolderInv, RingInv, LruInv, BitmapInv, ThreadInv, PcOk, Deleted;
    match s.list[p].value
    case Lru => RingSame(c, s.bits, s.list, s.bits, list', s.super);
    case Super(k) =>
      assert PointsTo(s.list, p, k);
      RingTake(c, s.bits, s.list, s.super, p, k, drop);
  }

  lemma PlaceOfLru(list: Lists, lru: Option<PageId>, pcs: seq<Pc>, p: PageId)
    requires LruInv(list, lru, pcs)
    ensures PointsToLru(list, p) && !AwaitedBySome(pcs, p) ==> lru == Some(p)
    ensures lru == Some(p) ==> PointsToLru(list, p) && !AwaitedBySome(pcs, p)
  {
  }

  /** `add_to_superblock_entry`: the holder files the page by its longest free block. */
  lemma FileKeeps(c: Config, s: State, t: nat, p: PageId, pc: Pc)
    requires Inv(c, s) && t < |s.pcs|
    requires Holds(s.pcs[t]) == Some(p) && Awaits(s.pcs[t]).None?
    requires Holds(pc).None? && Awaits(pc).None? && Claims(pc).None?
    requires Lfb(c, s.bits, p) < c.MaxData() && PcOk(c, s.bits, s.blocks, pc)
    ensures Lfb(c, s.bits, p) < |s.super|
    ensures Inv(c, AddTo(s, p, Lfb(c, s.bits, p)).(pcs := s.pcs[t := pc]))
  {
    var list' := s.list[p := Some(Super(Lfb(c, s.bits, p)))];
    assert HolderInv(list', s.pcs[t := pc]) && p in s.list && s.list[p] == None by {
      hide LruInv, RingInv, ThreadInv, BitmapInv, PcOk, Lfb;
      HolderFacts(s.list, s.pcs, t);
      HolderStep(s.list, list', s.pcs, t, pc);
    }
    assert LruInv(list', s.lru, s.pcs[t := pc]) by {
      hide HolderInv, RingInv, ThreadInv, BitmapInv, PcOk, Lfb;
      LruFacts(s.list, s.lru, s.pcs, t);
      LruStep(s.list, s.lru, list', s.lru, s.pcs, t, pc);
    }
    assert ThreadInv(c, s.bits, s.blocks, s.pcs[t := pc]) by {
      hide HolderInv, RingInv, LruInv, BitmapInv, PcOk, Lfb;
      ThreadFacts(c, s.bits, s.blocks, s.pcs, t);
      ThreadStep(c, s.bits, s.blocks, s.bits, s.blocks, s.pcs, t, pc);
    }
    assert Lfb(c, s.bits, p) < |s.super| by { hide HolderInv, LruInv, BitmapInv, ThreadInv, PcOk, Lfb; }
    hide HolderInv, RingInv, LruInv, BitmapInv, ThreadInv, PcOk, Lfb;
    RingAdd(c, s.bits, s.list, s.super, p);
  }

  /** What the lock section of `unhand_page` finds: the page held, and the LRU page on its list. */
  lemma UnhandFacts(c: Config, s: State, t: nat, p: PageId, ret: Option<Block>)
    requires Inv(c, s) && t < |s.pcs| && s.pcs[t] == Unhand(p, ret)
    ensures p in s.bits && p in s.list && s.list[p] == None
    ensures s.lru.Some? ==> PointsToLru(s.list, s.lru.value) && s.lru.value in s.bits
    ensures CanUnhand(c, s, p)
    ensures s.lru.Some? && Lfb(c, s.bits, s.lru.value) == c.MaxData() ==> NoBlocks(s.blocks, s.lru.value)
  {
    hide ThreadInv, BitmapInv, Lfb;
    HolderFacts(s.list, s.pcs, t);
    LruFacts(s.list, s.lru, s.pcs, t);
    if s.lru.Some? {
      assert PointsToLru(s.list, s.lru.value);
      WhollyFreeIffNoBlocks(c, s.bits, s.blocks, s.lru.value);
    }
  }

  lemma UnhandRings(c: Config, s: State, p: PageId, ret: Option<Block>)
    requires Inv(c, s) && p in s.list && s.list[p] == None
    requires s.lru.Some? ==> PointsToLru(s.list, s.lru.value)
    requires CanUnhand(c, s, p)
    ensures var s' := UnhandPage(c, s, p, ret).0; RingInv(c, s'.bits, s'.list, s'.super)
  {
    hide HolderInv, LruInv, ThreadInv, BitmapInv, Lfb;
    var s' := UnhandPage(c, s, p, ret).0;
    if s.lru.Some? && Lfb(c, s.bits, s.lru.value) < c.MaxData() {
      RingAdd(c, s.bits, s.list, s.super, s.lru.value);
      var s1 := AddTo(s, s.lru.value, Lfb(c, s.bits, s.lru.value));
      RingSame(c, s.bits, s1.list, s.bits, s'.list, s1.super);
    } else {
      RingSame(c, s.bits, s.list, s.bits, s'.list, s.super);
    }
  }

  lemma UnhandPlaces(c: Config, s: State, t: nat, p: PageId, ret: Option<Block>)
    requires Inv(c, s) && t < |s.pcs| && s.pcs[t] == Unhand(p, ret)
    requires p in s.bits && p in s.list && s.list[p] == None
    requires s.lru.Some? ==> PointsToLru(s.list, s.lru.value)
    requires CanUnhand(c, s, p)
    ensures var (s', pc) := UnhandPage(c, s, p, ret);
            HolderInv(s'.list, s.pcs[t := pc]) && LruInv(s'.list, s'.lru, s.pcs[t := pc])
  {
    hide RingInv, ThreadInv, BitmapInv, Lfb;
    var (s', pc) := UnhandPage(c, s, p, ret);
    assert HolderInv(s'.list, s.pcs[t := pc]) by {
      hide LruInv, HolderInv;
      HolderStep(s.list, s'.list, s.pcs, t, pc);
    }
    assert LruInv(s'.list, s'.lru, s.pcs[t := pc]) by {
      hide HolderInv, LruInv;
      LruStep(s.list, s.lru, s'.list, s'.lru, s.pcs, t, pc);
    }
  }

  /** What the thread knows afterwards. */
  lemma UnhandLeaves(c: Config, s: State, t: nat, p: PageId, ret: Option<Block>)
    requires CanUnhand(c, s, p) && s.list.Keys == s.bits.Keys
    requires s.lru.Some? && Lfb(c, s.bits, s.lru.value) >= c.MaxData() ==> NoBlocks(s.blocks, s.lru.value)
    ensures var (s', pc) := UnhandPage(c, s, p, ret);
            && PcOk(c, s.bits, s.blocks, pc) && (pc == Idle || Claims(pc) == ret)
            && s'.bits == s.bits && s'.blocks == s.blocks && s'.list.Keys == s.list.Keys
  {
    hide Lfb;
  }

  /** `unhand_page`: the old LRU page is filed, or set aside when it is wholly free; the held page becomes the LRU
      page. */
  lemma UnhandKeeps(c: Config, s: State, t: nat, p: PageId, ret: Option<Block>)
    requires Inv(c, s) && t < |s.pcs| && s.pcs[t] == Unhand(p, ret)
    ensures CanUnhand(c, s, p)
    ensures var (s', pc) := UnhandPage(c, s, p, ret); Inv(c, s'.(pcs := s.pcs[t := pc]))
  {
    hide HolderInv, RingInv, LruInv, BitmapInv, ThreadInv, Lfb, PcOk;
    UnhandFacts(c, s, t, p, ret);
    UnhandRings(c, s, p, ret);
    UnhandPlaces(c, s, t, p, ret);
    UnhandLeaves(c, s, t, p, ret);
    var (s', pc) := UnhandPage(c, s, p, ret);
    ThreadFacts(c, s.bits, s.blocks, s.pcs, t);
    ThreadStep(c, s.bits, s.blocks, s.bits, s.blocks, s.pcs, t, pc);
  }

  /** The holder edits the bitmap of its page; blocks change on that page only. */
  lemma EditKeeps(c: Config, s: State, t: nat, p: PageId, page: Bits, blocks: set<Block>, ret: Option<Block>)
    requires Inv(c, s) && t < |s.pcs| && Holds(s.pcs[t]) == Some(p)
    requires BitmapInv(c, s.bits[p := page], blocks)
    requires forall b | b in blocks :: b in s.blocks || b.page == p
    requires forall u | 0 <= u < |s.pcs| && u != t && Claims(s.pcs[u]).Some? :: Claims(s.pcs[u]).value in blocks
    requires ret.Some? ==> ret.value in blocks
    requires ret.Some? ==> forall u | 0 <= u < |s.pcs| && u != t :: Claims(s.pcs[u]) != ret
    ensures Inv(c, s.(bits := s.bits[p := page], blocks := blocks, pcs := s.pcs[t := Unhand(p, ret)]))
  {
    var pc, bits' := Unhand(p, ret), s.bits[p := page];
    assert Awaits(s.pcs[t]).None?;
    assert p in s.list && s.list[p] == None && HolderInv(s.list, s.pcs[t := pc]) by {
      hide LruInv, RingInv, ThreadInv, BitmapInv, PcOk, Lfb;
      HolderFacts(s.list, s.pcs, t);
      HolderStep(s.list, s.list, s.pcs, t, pc);
    }
    assert LruInv(s.list, s.lru, s.pcs[t := pc]) by {
      hide HolderInv, RingInv, ThreadInv, BitmapInv, PcOk, Lfb;
      LruFacts(s.list, s.lru, s.pcs, t);
      LruStep(s.list, s.lru, s.list, s.lru, s.pcs, t, pc);
    }
    assert RingInv(c, bits', s.list, s.super) by {
      hide HolderInv, LruInv, ThreadInv, BitmapInv, PcOk;
      RingSame(c, s.bits, s.list, bits', s.list, s.super);
    }
    assert ThreadInv(c, bits', blocks, s.pcs[t := pc]) by {
      hide RingInv, BitmapInv, PcOk, Lfb;
      assert forall u | 0 <= u < |s.pcs| && u != t :: PcOk(c, bits', blocks, s.pcs[u]) by {
        forall u | 0 <= u < |s.pcs| && u != t ensures PcOk(c, bits', blocks, s.pcs[u]) {
          LruFacts(s.list, s.lru, s.pcs, u);
          OthersKnow(c, s.bits, s.blocks, bits', blocks, p, s.pcs[u]);
        }
      }
      assert PcOk(c, bits', blocks, pc) by { UnhandKnows(c, bits', blocks, p, ret); }
      hide HolderInv, LruInv;
      ThreadFacts(c, s.bits, s.blocks, s.pcs, t);
      ThreadStep(c, s.bits, s.blocks, bits', blocks, s.pcs, t, pc);
    }
    hide HolderInv, RingInv, LruInv, BitmapInv, ThreadInv, PcOk, Lfb;
  }

  lemma UnhandKnows(c: Config, bits: map<PageId, Bits>, blocks: set<Block>, p: PageId, ret: Option<Block>)
    ensures PcOk(c, bits, blocks, Unhand(p, ret))
  {
  }

  /** A page fresh from the system is known only to the thread that mapped it. */
  lemma MapKeeps(c: Config, s: State, t: nat, n: nat, p: PageId)
    requires Inv(c, s) && t < |s.pcs| && s.pcs[t] == MapPage(n) && p !in s.bits && SizeOk(c, n)
    ensures var b := Block(p, c.header, n);
            Inv(c, s.(bits := s.bits[p := NewBits(c, n)], list := s.list[p := None], blocks := s.blocks + {b},
                      pcs := s.pcs[t := Unhand(p, Some(b))]))
  {
    var b := Block(p, c.header, n);
    var pc, bits', list', blocks' := Unhand(p, Some(b)), s.bits[p := NewBits(c, n)], s.list[p := None], s.blocks + {b};
    assert BitmapInv(c, bits', blocks') && b !in s.blocks by {
      hide LruInv, RingInv, ThreadInv, HolderInv, NewBits;
      NewPageKeeps(c, s.bits, s.blocks, p, n);
    }
    assert HolderInv(list', s.pcs[t := pc]) by {
      hide LruInv, RingInv, ThreadInv, BitmapInv, PcOk, NewBits;
      HolderStep(s.list, list', s.pcs, t, pc);
    }
    assert LruInv(list', s.lru, s.pcs[t := pc]) by {
      hide HolderInv, RingInv, ThreadInv, BitmapInv, PcOk, NewBits;
      LruFacts(s.list, s.lru, s.pcs, t);
      LruStep(s.list, s.lru, list', s.lru, s.pcs, t, pc);
    }
    assert RingInv(c, bits', list', s.super) by {
      hide HolderInv, LruInv, ThreadInv, BitmapInv, PcOk, NewBits;
      RingSame(c, s.bits, s.list, bits', list', s.super);
    }
    MapKnows(c, s, t, n, p);
    hide HolderInv, RingInv, LruInv, BitmapInv, ThreadInv, PcOk, Lfb, NewBits;
  }

  lemma MapKnows(c: Config, s: State, t: nat, n: nat, p: PageId)
    requires Inv(c, s) && t < |s.pcs| && s.pcs[t] == MapPage(n) && p !in s.bits && SizeOk(c, n)
    requires Block(p, c.header, n) !in s.blocks
    ensures var b := Block(p, c.header, n);
            ThreadInv(c, s.bits[p := NewBits(c, n)], s.blocks + {b}, s.pcs[t := Unhand(p, Some(b))])
  {
    hide RingInv, BitmapInv, PcOk, Lfb, NewBits, HolderInv, LruInv, ThreadInv;
    var b := Block(p, c.header, n);
    var pc, bits', blocks' := Unhand(p, Some(b)), s.bits[p := NewBits(c, n)], s.blocks + {b};
    forall u | 0 <= u < |s.pcs| && u != t ensures PcOk(c, bits', blocks', s.pcs[u]) {
      LruFacts(s.list, s.lru, s.pcs, u);
      HolderFacts(s.list, s.pcs, u);
      ThreadFacts(c, s.bits, s.blocks, s.pcs, u);
      OthersKnow(c, s.bits, s.blocks, bits', blocks', p, s.pcs[u]);
    }
    UnhandKnows(c, bits', blocks', p, Some(b));
    ThreadFacts(c, s.bits, s.blocks, s.pcs, t);
    ThreadStep(c, s.bits, s.blocks, bits', blocks', s.pcs, t, pc);
  }

  /** Unmapping a page that no list, no thread and no block refers to. */
  lemma UnmapKeeps(c: Config, s: State, t: nat, q: PageId, ret: Option<Block>)
    requires Inv(c, s) && t < |s.pcs| && s.pcs[t] == Unmap(q, ret)
    ensures Inv(c, s.(bits := s.bits - {q}, list := s.list - {q}, pcs := s.pcs[t := Idle]))
  {
    var bits', list' := s.bits - {q}, s.list - {q};
    assert PointsToLru(s.list, q) && s.lru != Some(q) && LruInv(list', s.lru, s.pcs[t := Idle]) by {
      hide HolderInv, RingInv, ThreadInv, BitmapInv, PcOk;
      LruFacts(s.list, s.lru, s.pcs, t);
      LruStep(s.list, s.lru, list', s.lru, s.pcs, t, Idle);
    }
    assert HolderInv(list', s.pcs[t := Idle]) by {
      hide LruInv, RingInv, ThreadInv, BitmapInv, PcOk;
      HolderStep(s.list, list', s.pcs, t, Idle);
    }
    assert RingInv(c, bits', list', s.super) by {
      hide HolderInv, LruInv, ThreadInv, BitmapInv, PcOk;
      RingSame(c, s.bits, s.list, bits', list', s.super);
    }
    UnmapKnows(c, s, t, q, ret);
    assert BitmapInv(c, bits', s.blocks) by {
      hide HolderInv, LruInv, RingInv, ThreadInv;
    }
    hide HolderInv, RingInv, LruInv, BitmapInv, ThreadInv, PcOk, Lfb;
  }

  lemma UnmapKnows(c: Config, s: State, t: nat, q: PageId, ret: Option<Block>)
    requires Inv(c, s) && t < |s.pcs| && s.pcs[t] == Unmap(q, ret) && PointsToLru(s.list, q)
    ensures NoBlocks(s.blocks, q) && ThreadInv(c, s.bits - {q}, s.blocks, s.pcs[t := Idle])
  {
    hide RingInv, BitmapInv, Lfb, HolderInv, LruInv, ThreadInv;
    var bits' := s.bits - {q};
    ThreadFacts(c, s.bits, s.blocks, s.pcs, t);
    forall u | 0 <= u < |s.pcs| && u != t ensures PcOk(c, bits', s.blocks, s.pcs[u]) {
      LruDistinct(s.list, s.lru, s.pcs, t, u);
      HolderFacts(s.list, s.pcs, u);
      ThreadFacts(c, s.bits, s.blocks, s.pcs, u);
      OthersKnow(c, s.bits, s.blocks, bits', s.blocks, q, s.pcs[u]);
    }
    ThreadStep(c, s.bits, s.blocks, bits', s.blocks, s.pcs, t, Idle);
  }

  lemma LruDistinct(list: Lists, lru: Option<PageId>, pcs: seq<Pc>, t: nat, u: nat)
    requires LruInv(list, lru, pcs) && t < |pcs| && u < |pcs| && t != u
    ensures Awaits(pcs[t]).Some? ==> Awaits(pcs[t]) != Awaits(pcs[u])
  {
  }

  // ---------- one advance of one thread ----------

  /** The search finds a page whose longest free block is long enough, or no list from `n` on has a page. */
  lemma SearchKeeps(c: Config, s: State, t: nat, n: nat, drop: bool)
    requires Inv(c, s) && t < |s.pcs| && SizeOk(c, n)
    requires s.pcs[t] == Search(n) || s.pcs[t] == FindPage(n)
    ensures CanSearch(s, n)
    ensures var (s', pc) := SearchSuper(c, s, n, drop); Inv(c, s'.(pcs := s.pcs[t := pc]))
  {
    var k := FirstList(s.super, n);
    if k < |s.super| {
      var p := s.super[k][0];
      assert PointsTo(s.list, p, k) && Lfb(c, s.bits, p) == k by { hide HolderInv, LruInv, BitmapInv, ThreadInv, Lfb; }
      assert !AwaitedBySome(s.pcs, p) by { hide HolderInv, RingInv, BitmapInv, ThreadInv, Lfb; }
      hide HolderInv, RingInv, LruInv, BitmapInv, ThreadInv, Lfb;
      TakeOutKeeps(c, s, t, p, drop, ScanSuper(n, p));
    } else {
      hide HolderInv, RingInv, LruInv, BitmapInv, ThreadInv, Lfb;
      MoveKeeps(c, s, t, MapPage(n));
    }
  }

  /** First fit on a page taken from the superblock never fails, so the abort is unreachable. */
  lemma ScanKeeps(c: Config, s: State, t: nat, n: nat, p: PageId)
    requires Inv(c, s) && t < |s.pcs| && (s.pcs[t] == ScanLru(n, p) || s.pcs[t] == ScanSuper(n, p))
    ensures p in s.bits
    ensures var o := FirstFit(s.bits[p], c.header, n);
            var pc := if o != 0 then Mark(n, p, o) else AddSuper(n, p, Lfb(c, s.bits, p));
            && Inv(c, s.(pcs := s.pcs[t := pc]))
            && (s.pcs[t].ScanSuper? ==> o != 0)
  {
    assert p in s.list by { hide RingInv, LruInv, BitmapInv, ThreadInv; HolderFacts(s.list, s.pcs, t); }
    assert |s.bits[p]| == c.units by { hide HolderInv, RingInv, LruInv, ThreadInv; }
    hide HolderInv, RingInv, LruInv, BitmapInv, ThreadInv;
    ThreadFacts(c, s.bits, s.blocks, s.pcs, t);
    FitIffLongest(s.bits[p], c.header, n);
    FirstFitIsLowest(s.bits[p], c.header, n);
    hide Runs.LongestFree, Runs.FirstFit;
    var o := FirstFit(s.bits[p], c.header, n);
    MoveKeeps(c, s, t, if o != 0 then Mark(n, p, o) else AddSuper(n, p, Lfb(c, s.bits, p)));
  }
}
