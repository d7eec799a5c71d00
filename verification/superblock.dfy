/** The superblock: all its lists together, with real links, and the pages that the deletion test as written loses. */
module Superblocks {
  import opened Rings

  /** No page is in two rings. */
  ghost predicate AllApart<T>(rings: seq<seq<T>>) {
    forall i, j | 0 <= i < |rings| && 0 <= j < |rings| && i != j :: Separate(rings[i], rings[j])
  }

  /** The rings after a page of ring `j` is deleted with list `k`. The pages that a list drops are a new ring. */
  ghost function RingsAfter<T>(rings: seq<seq<T>>, test: LastPageTest, k: nat, j: nat, page: T): (r: seq<seq<T>>)
    requires k < |rings| && j < |rings|
    ensures |r| == |rings| + 1
  {
    var rest := Remaining(test, rings[k], if j == k then [] else rings[j], page);
    rings[j := Without(rings[j], page)][k := rest] + [if rest == [] then Without(rings[k], page) else []]
  }

  lemma RingsAfterAt<T>(rings: seq<seq<T>>, test: LastPageTest, k: nat, j: nat, page: T)
    requires k < |rings| && j < |rings|
    ensures var r := RingsAfter(rings, test, k, j, page);
            var rest := Remaining(test, rings[k], if j == k then [] else rings[j], page);
            && (forall i | 0 <= i < |rings| && i != k && i != j :: r[i] == rings[i])
            && r[k] == rest && (j != k ==> r[j] == Without(rings[j], page))
            && r[|rings|] == if rest == [] then Without(rings[k], page) else []
  {
    hide Remaining, Without;
  }

  lemma AddApart<T>(rings: seq<seq<T>>, k: nat, page: T)
    requires AllApart(rings) && k < |rings| && forall i | 0 <= i < |rings| :: page !in rings[i]
    ensures AllApart(rings[k := rings[k] + [page]])
  {
  }

  /** A deletion moves pages between rings, and only the deleted one is in none afterwards. */
  lemma DeletionApart<T>(rings: seq<seq<T>>, test: LastPageTest, k: nat, j: nat, page: T)
    requires AllApart(rings) && k < |rings| && j < |rings| && page in rings[j]
    requires Distinct(rings[k]) && Distinct(rings[j])
    ensures AllApart(RingsAfter(rings, test, k, j, page))
  {
    WithoutWithin(rings[j], page);
    WithoutWithin(rings[k], page);
    RestWithin(test, rings[k], if j == k then [] else rings[j], page);
    hide Without, Remaining;
  }

  lemma WithoutWithin<T>(ring: seq<T>, p: T)
    requires Distinct(ring)
    ensures forall x | x in Without(ring, p) :: x in ring && x != p
  {
    WithoutMembers(ring, p);
  }

  lemma RestWithin<T>(test: LastPageTest, ring: seq<T>, stray: seq<T>, p: T)
    requires Distinct(ring)
    ensures forall x | x in Remaining(test, ring, stray, p) :: x in ring && x != p
  {
    DeletedCases(test, ring, p, p !in ring && |stray| <= 2);
    WithoutWithin(ring, p);
    hide Deleted, Without;
  }

  ghost predicate InSome<T>(rings: seq<seq<T>>, page: T) {
    exists i | 0 <= i < |rings| :: page in rings[i]
  }

  /** No other page gets lost from the table, and none is in a ring twice. */
  lemma DeletionMembers<T>(rings: seq<seq<T>>, test: LastPageTest, k: nat, j: nat, page: T)
    requires AllApart(rings) && k < |rings| && j < |rings| && page in rings[j]
    requires forall i | 0 <= i < |rings| :: Distinct(rings[i])
    ensures var r := RingsAfter(rings, test, k, j, page); forall i | 0 <= i < |r| :: Distinct(r[i])
    ensures forall x :: InSome(RingsAfter(rings, test, k, j, page), x) <==> InSome(rings, x) && x != page
  {
    hide Without, Remaining, RingsAfter, Distinct, InSome, AllApart;
    RingsAfterAt(rings, test, k, j, page);
    RestCases(test, rings[k], if j == k then [] else rings[j], page);
    WithoutMembers(rings[j], page);
    WithoutMembers(rings[k], page);
    EmptyDistinct<T>();
    forall x ensures InSome(RingsAfter(rings, test, k, j, page), x) <==> InSome(rings, x) && x != page {
      StaysSomewhere(rings, test, k, j, page, x);
    }
  }

  lemma EmptyDistinct<T>()
    ensures Distinct<T>([])
  {
  }

  lemma StaysSomewhere<T>(rings: seq<seq<T>>, test: LastPageTest, k: nat, j: nat, page: T, x: T)
    requires AllApart(rings) && k < |rings| && j < |rings| && page in rings[j]
    requires Distinct(rings[k]) && Distinct(rings[j])
    ensures InSome(RingsAfter(rings, test, k, j, page), x) <==> InSome(rings, x) && x != page
  {
    hide Without, Remaining, RingsAfter, Distinct;
    RingsAfterAt(rings, test, k, j, page);
    RestCases(test, rings[k], if j == k then [] else rings[j], page);
    WithoutMembers(rings[j], page);
    WithoutMembers(rings[k], page);
    var r := RingsAfter(rings, test, k, j, page);
    if InSome(rings, x) && x != page {
      var i :| 0 <= i < |rings| && x in rings[i];
      assert x in r[i] || (i == k && x in r[|rings|]);
    }
    if InSome(r, x) {
      var i :| 0 <= i < |r| && x in r[i];
      assert if i < |rings| then x in rings[i] else x in rings[k];
    }
  }

  /** A list is left alone, loses the page, or is emptied. */
  lemma RestCases<T>(test: LastPageTest, ring: seq<T>, stray: seq<T>, p: T)
    requires Distinct(ring)
    ensures var rest := Remaining(test, ring, stray, p);
            (rest == ring && p !in ring) || (rest == Without(ring, p) && p in ring) || rest == []
  {
    DeletedCases(test, ring, p, p !in ring && |stray| <= 2);
    hide Deleted, Without;
  }

  ghost function NodesOf<T>(rings: seq<seq<Node<T>>>): set<Node<T>> {
    set k, i | 0 <= k < |rings| && 0 <= i < |rings[k]| :: rings[k][i]
  }

  class Superblock<T> {
    const test: LastPageTest
    const lists: seq<ListCell<T>>
    ghost var rings: seq<seq<Node<T>>>   // the lists, then the rings of stray pages

    /** Every list is the ring of its pages; stray pages are linked only to stray pages dropped with them, or look as if
        they were the last of a list; no page is in two of these; the intended test leaves no page astray. */
    ghost predicate Valid()
      reads this, lists, NodesOf(rings)
    {
      && |lists| <= |rings| && AllApart(rings)
      && (forall i, j | 0 <= i < j < |lists| :: lists[i] != lists[j])
      && (forall i | 0 <= i < |lists| :: IsRing(lists[i], rings[i]))
      && (forall i | |lists| <= i < |rings| :: StrayRing(rings[i]) && (test.NextIsSelf? ==> rings[i] == []))
    }

    constructor (lists: seq<ListCell<T>>, test: LastPageTest)
      requires forall i, j | 0 <= i < j < |lists| :: lists[i] != lists[j]
      requires forall i | 0 <= i < |lists| :: lists[i].first == null
      ensures this.lists == lists && this.test == test && Valid()
      ensures rings == seq(|lists|, _ => [])
    {
      this.lists, this.test := lists, test;
      rings := seq(|lists|, _ => []);
    }

    /** `add_to_list` for a page that is in none of the lists and not astray. */
    method Add(k: nat, page: Node<T>)
      requires Valid() && k < |lists| && forall i | 0 <= i < |rings| :: page !in rings[i]
      modifies this`rings, lists[k], page`next, page`prev, rings[k]`next, rings[k]`prev
      ensures Valid() && rings == old(rings)[k := old(rings)[k] + [page]]
    {
      hide Linked, StrayRing;
      AddApart(rings, k, page);
      AddToEnd(lists[k], page, rings[k]);
      forall i | 0 <= i < |lists| && i != k ensures IsRing(lists[i], rings[i]) {
        assert lists[i] != lists[k] && Separate(rings[i], rings[k]);
        assert forall x | x in rings[i] :: x !in rings[k] && x != page;
        assert unchanged(lists[i]);
        forall n | 0 <= n < |rings[i]| ensures unchanged(rings[i][n]) { assert rings[i][n] in rings[i]; }
      }
      forall i | |lists| <= i < |rings| ensures StrayRing(rings[i]) {
        assert forall x | x in rings[i] :: x !in rings[k] && x != page;
        forall n | 0 <= n < |rings[i]| ensures unchanged(rings[i][n]) { assert rings[i][n] in rings[i]; }
      }
      rings := rings[k := rings[k] + [page]];
    }

    /** `delete_from_list`, for a page of list `k`, or a stray one whose `list` still points there. The pages that are
        dropped become stray together; the links of no other page change their meaning. */
    method TakeOut(k: nat, page: Node<T>, ghost j: nat)
      requires Valid() && k < |lists| && j < |rings| && page in rings[j] && (j == k || |lists| <= j)
      modifies this`rings, lists[k], rings[k]`next, rings[k]`prev, rings[j]`next, rings[j]`prev
      ensures Valid() && rings == RingsAfter(old(rings), test, k, j, page)
    {
      hide Linked, StrayRing, Remaining, Without, RingsAfter, Distinct, IsRing;
      RingsAfterAt(rings, test, k, j, page);
      ghost var ring, stray := rings[k], if j == k then [] else rings[j];
      NoStrays<T>();
      StrayIsDistinct(rings[k], true, lists[k]);
      StrayIsDistinct(rings[j], j == k, lists[k]);
      DeletionApart(rings, test, k, j, page);
      DeleteFromList(lists[k], page, test, ring, stray);
      forall i | 0 <= i < |lists| && i != k ensures IsRing(lists[i], rings[i]) {
        assert lists[i] != lists[k] && Separate(rings[i], rings[k]);
        assert forall x | x in rings[i] :: x !in rings[k] && x !in rings[j];
        assert unchanged(lists[i]);
        forall n | 0 <= n < |rings[i]| ensures unchanged(rings[i][n]) { assert rings[i][n] in rings[i]; }
      }
      forall i | |lists| <= i < |rings| && i != j ensures StrayRing(rings[i]) {
        assert forall x | x in rings[i] :: x !in rings[k] && x !in rings[j];
        forall n | 0 <= n < |rings[i]| ensures unchanged(rings[i][n]) { assert rings[i][n] in rings[i]; }
      }
      rings := RingsAfter(rings, test, k, j, page);
    }
  }

  lemma StrayIsDistinct<T>(ring: seq<Node<T>>, listed: bool, list: ListCell<T>)
    requires if listed then IsRing(list, ring) else StrayRing(ring)
    ensures Distinct(ring)
  {
  }

  lemma NoStrays<T>()
    ensures StrayRing<T>([])
  {
  }
}
