/** Circular doubly-linked lists of page headers, with real links, and the sequences they stand for. */
module Rings {

  /** How `delete_from_list` decides that it removes the last page of a ring:
      as written by `next == prev`, as meant by `next == page`. */
  datatype LastPageTest = NextIsPrev | NextIsSelf

  function Without<T(==)>(ring: seq<T>, p: T): seq<T> {
    if ring == [] then []
    else if ring[0] == p then ring[1..]
    else [ring[0]] + Without(ring[1..], p)
  }

  /** The ring after `delete_from_list`. A page that the as-written test has dropped earlier is no longer
      in the ring; deleting it empties the list or leaves it alone, as `drop` says. */
  function Deleted<T(==)>(test: LastPageTest, ring: seq<T>, p: T, drop: bool): seq<T> {
    if p in ring then
      if test.NextIsPrev? && |ring| == 2 then [] else Without(ring, p)
    else if drop then [] else ring
  }

  ghost predicate Distinct<T>(ring: seq<T>) {
    forall i, j | 0 <= i < j < |ring| :: ring[i] != ring[j]
  }

  lemma {:induction false} WithoutMembers<T>(ring: seq<T>, p: T)
    requires Distinct(ring)
    ensures Distinct(Without(ring, p))
    ensures forall x :: x in Without(ring, p) <==> x in ring && x != p
    ensures forall i | 0 <= i < |Without(ring, p)| :: Without(ring, p)[i] in ring && Without(ring, p)[i] != p
    ensures |Without(ring, p)| == if p in ring then |ring| - 1 else |ring|
  {
    if ring != [] {
      var tail := ring[1..];
      assert forall x :: x in ring <==> x == ring[0] || x in tail;
      assert Distinct(tail) && ring[0] !in tail;
      WithoutMembers(tail, p);
      if ring[0] != p {
        var rest := Without(tail, p);
        assert Without(ring, p) == [ring[0]] + rest;
        assert ring[0] !in rest;
      }
    }
  }

  /** The list keeps every other page exactly when the test is the intended one or the ring is not a pair. */
  lemma DeletedIsWithoutIff<T>(test: LastPageTest, ring: seq<T>, p: T, drop: bool)
    requires Distinct(ring) && p in ring
    ensures Deleted(test, ring, p, drop) == Without(ring, p) <==> test.NextIsSelf? || |ring| != 2
  {
    WithoutMembers(ring, p);
  }

  lemma {:induction false} WithoutAt<T>(ring: seq<T>, i: nat)
    requires Distinct(ring) && i < |ring|
    ensures Without(ring, ring[i]) == ring[..i] + ring[i + 1..]
  {
    if i > 0 {
      assert ring[1..][i - 1] == ring[i] && Distinct(ring[1..]);
      WithoutAt(ring[1..], i - 1);
      assert ring[..i] + ring[i + 1..] == [ring[0]] + (ring[1..][..i - 1] + ring[1..][i..]);
    }
  }

  /** The links of a page header; `data` stands for the rest of the page. */
  class Node<T> {
    var next: Node?<T>
    var prev: Node?<T>
    var data: T

    constructor (data: T)
      ensures this.data == data
    {
      this.data := data;
      next, prev := null, null;
    }
  }

  /** A list head, the `*list` of the source. */
  class ListCell<T> {
    var first: Node?<T>

    constructor ()
      ensures first == null
    {
      first := null;
    }
  }

  function After(n: nat, i: nat): (r: nat)
    requires i < n
    ensures r < n
  {
    if i + 1 < n then i + 1 else 0
  }

  function Before(n: nat, i: nat): (r: nat)
    requires i < n
    ensures r < n
  {
    if 0 < i then i - 1 else n - 1
  }

  ghost predicate Linked<T>(ring: seq<Node<T>>)
    reads ring
  {
    && (forall i {:trigger ring[i].next} | 0 <= i < |ring| :: ring[i].next == ring[After(|ring|, i)])
    && (forall i {:trigger ring[i].prev} | 0 <= i < |ring| :: ring[i].prev == ring[Before(|ring|, i)])
  }

  /** The list headed by `list` is the ring of these pages, in this order. */
  ghost predicate IsRing<T>(list: ListCell<T>, ring: seq<Node<T>>)
    reads list, ring
  {
    && Distinct(ring) && Linked(ring)
    && list.first == if ring == [] then null else ring[0]
  }

  /** The bitmap allocator's `add_to_list`: the page goes to the end. */
  method AddToEnd<T>(list: ListCell<T>, page: Node<T>, ghost ring: seq<Node<T>>)
    requires IsRing(list, ring) && page !in ring
    modifies list, page`next, page`prev, ring`next, ring`prev
    ensures IsRing(list, ring + [page])
  {
    LinkBefore(list, page, ring);
    if list.first == null {
      list.first := page;
    }
  }

  /** The fixed-size-block arena's `add_to_list`: the page goes to the end of the ring and becomes its head. */
  method AddToFront<T>(list: ListCell<T>, page: Node<T>, ghost ring: seq<Node<T>>)
    requires IsRing(list, ring) && page !in ring
    modifies list, page`next, page`prev, ring`next, ring`prev
    ensures IsRing(list, [page] + ring)
  {
    LinkBefore(list, page, ring);
    list.first := page;
    assert Linked([page] + ring) by {
      var s := ring + [page];
      var r := [page] + ring;
      forall i | 0 <= i < |r|
        ensures r[i].next == r[After(|r|, i)] && r[i].prev == r[Before(|r|, i)]
      {
        var j := Before(|s|, i);
        assert r[i] == s[j];
        assert s[j].next == s[After(|s|, j)] && s[j].prev == s[Before(|s|, j)];
      }
    }
  }

  /** Links `page` between the last and the first page of the ring. */
  method LinkBefore<T>(list: ListCell<T>, page: Node<T>, ghost ring: seq<Node<T>>)
    requires IsRing(list, ring) && page !in ring
    modifies page`next, page`prev, ring`next, ring`prev
    ensures Distinct(ring + [page]) && Linked(ring + [page])
    ensures list.first == old(list.first)
  {
    var first := list.first;
    if first != null {
      page.prev := first.prev;
      page.next := first;
      assert first.prev == ring[|ring| - 1];
      first.prev.next := page;
      first.prev := page;
    } else {
      page.next := page;
      page.prev := page;
    }
  }

  /** Pages that no list head reaches any more but that were dropped together: three or more are still linked in a
      ring; of two, or of the one that is left, `next` and `prev` are equal, whatever they point to. */
  ghost predicate StrayRing<T>(stray: seq<Node<T>>)
    reads stray
  {
    && Distinct(stray)
    && if 3 <= |stray| then Linked(stray)
       else forall i {:trigger stray[i].next} | 0 <= i < |stray| :: stray[i].next == stray[i].prev
  }

  ghost predicate Separate<T>(a: seq<T>, b: seq<T>) {
    forall x | x in a :: x !in b
  }

  /** The index, in the ring with page `i` removed, of the page at index `j` of what remains. */
  function Skip(i: nat, j: nat): nat { if j < i then j else j + 1 }

  lemma SkipNeighbours(n: nat, i: nat, j: nat)
    requires 2 <= n && i < n && j < n - 1
    ensures Skip(i, j) < n && Skip(i, j) != i
    ensures Skip(i, After(n - 1, j)) == if Skip(i, j) == Before(n, i) then After(n, i) else After(n, Skip(i, j))
    ensures Skip(i, Before(n - 1, j)) == if Skip(i, j) == After(n, i) then Before(n, i) else Before(n, Skip(i, j))
  {
  }

  /** Page `k` and its neighbours are linked to each other past page `i`. */
  ghost predicate LinkedPast<T>(ring: seq<Node<T>>, i: nat, k: nat)
    requires i < |ring| && k < |ring|
    reads ring[k]
  {
    && ring[k].next == ring[if k == Before(|ring|, i) then After(|ring|, i) else After(|ring|, k)]
    && ring[k].prev == ring[if k == After(|ring|, i) then Before(|ring|, i) else Before(|ring|, k)]
  }

  /** Pages whose links skip page `i` form the ring without it. */
  lemma LinkedAround<T>(ring: seq<Node<T>>, i: nat)
    requires Distinct(ring) && 2 <= |ring| && i < |ring|
    requires forall k | 0 <= k < |ring| && k != i :: LinkedPast(ring, i, k)
    ensures Linked(Without(ring, ring[i]))
  {
    hide Without, Distinct, Skip, After, Before;
    var n, rest := |ring|, Without(ring, ring[i]);
    WithoutSkips(ring, i);
    forall j | 0 <= j < n - 1
      ensures rest[j].next == rest[After(n - 1, j)] && rest[j].prev == rest[Before(n - 1, j)]
    {
      SkipNeighbours(n, i, j);
      assert LinkedPast(ring, i, Skip(i, j));
    }
  }

  lemma WithoutSkips<T>(ring: seq<T>, i: nat)
    requires Distinct(ring) && i < |ring|
    ensures |Without(ring, ring[i])| == |ring| - 1
    ensures forall j | 0 <= j < |ring| - 1 :: Without(ring, ring[i])[j] == ring[Skip(i, j)]
  {
    WithoutAt(ring, i);
  }

  /** Links the neighbours of a page of a ring to each other. */
  method Unlink<T>(page: Node<T>, ghost ring: seq<Node<T>>, ghost i: nat)
    requires Distinct(ring) && Linked(ring) && 2 <= |ring| && i < |ring| && ring[i] == page
    modifies ring`next, ring`prev
    ensures Linked(Without(ring, page)) && page.next == old(page.next) && page.prev == old(page.prev)
  {
    hide Without, Skip;
    ghost var n, b, f := |ring|, Before(|ring|, i), After(|ring|, i);
    assert page.next == ring[f] && page.prev == ring[b];
    page.next.prev := page.prev;
    page.prev.next := page.next;
    LinkedAround(ring, i);
  }

  /** What `delete_from_list` leaves of a list. For a stray page, in a ring of at most two, it empties the list. */
  ghost function Remaining<T>(test: LastPageTest, ring: seq<T>, stray: seq<T>, page: T): seq<T> {
    Deleted(test, ring, page, page !in ring && |stray| <= 2)
  }

  /** `delete_from_list`, for a page of the list or a stray one, with either test for the last page. The other pages of
      a list that is emptied are stray afterwards. */
  method DeleteFromList<T>(list: ListCell<T>, page: Node<T>, test: LastPageTest, ghost ring: seq<Node<T>>,
                           ghost stray: seq<Node<T>>)
    requires IsRing(list, ring) && StrayRing(stray) && Separate(ring, stray)
    requires page in ring || (page in stray && test.NextIsPrev?)
    modifies list, ring`next, ring`prev, stray`next, stray`prev
    ensures IsRing(list, Remaining(test, ring, stray, page)) && StrayRing(Without(stray, page))
    ensures Remaining(test, ring, stray, page) == [] ==> StrayRing(Without(ring, page))
    ensures page in ring ==>
              (Remaining(test, ring, stray, page) == Without(ring, page) <==> test.NextIsSelf? || |ring| != 2)
  {
    hide Without, Deleted, StrayRing, Linked;
    ghost var mine := if page in ring then ring else stray;
    ghost var i :| 0 <= i < |mine| && mine[i] == page;
    DeletedCases(test, ring, page, page !in ring && |stray| <= 2);
    WithoutFacts(ring, stray, page);
    RingIsStray(ring);
    LooksLast(mine, i);
    if page in ring {
      DeletedIsWithoutIff(test, ring, page, false);
      NextFacts(ring, i);
    }
    if if test.NextIsPrev? then page.next == page.prev else page.next == page {
      list.first := null;
      LessIsStray(mine, page);
      EmptyRing(list);
    } else {
      if list.first == page {
        list.first := page.next;
      }
      Unlink(page, mine, i);
      RingIsStray(Without(mine, page));
      assert page in ring ==> IsRing(list, Without(ring, page));
      assert page !in ring ==> IsRing(list, ring);
    }
  }

  lemma EmptyRing<T>(list: ListCell<T>)
    requires list.first == null
    ensures IsRing(list, [])
  {
  }

  lemma NextFacts<T>(ring: seq<Node<T>>, i: nat)
    requires Distinct(ring) && Linked(ring) && i < |ring|
    ensures ring[i].next == ring[After(|ring|, i)]
    ensures ring[i].next == ring[i] <==> |ring| == 1
    ensures ring[0] == ring[i] <==> i == 0
  {
  }

  /** The tests for the last page, on a ring that is listed or stray. */
  lemma LooksLast<T>(mine: seq<Node<T>>, i: nat)
    requires StrayRing(mine) && i < |mine|
    ensures |mine| <= 2 <==> mine[i].next == mine[i].prev
    ensures Distinct(mine) && (3 <= |mine| ==> Linked(mine))
  {
    if 3 <= |mine| {
      assert mine[i].next == mine[After(|mine|, i)] && mine[i].prev == mine[Before(|mine|, i)];
    }
  }

  /** A listed ring with its links is one that may be dropped as it is. */
  lemma RingIsStray<T>(ring: seq<Node<T>>)
    requires Distinct(ring) && Linked(ring)
    ensures StrayRing(ring)
  {
  }

  lemma LessIsStray<T>(stray: seq<Node<T>>, page: Node<T>)
    requires StrayRing(stray) && page in stray && |stray| <= 2
    ensures StrayRing(Without(stray, page))
  {
    WithoutMembers(stray, page);
  }

  lemma WithoutFacts<T>(ring: seq<Node<T>>, stray: seq<Node<T>>, page: Node<T>)
    requires Distinct(ring) && StrayRing(stray) && Separate(ring, stray) && (page in ring || page in stray)
    ensures Distinct(Without(ring, page)) && Distinct(Without(stray, page))
    ensures page in ring ==> page !in stray && Without(stray, page) == stray && |Without(ring, page)| == |ring| - 1
    ensures page !in ring ==> Without(ring, page) == ring && |Without(stray, page)| == |stray| - 1
    ensures forall i | 0 <= i < |Without(stray, page)| :: Without(stray, page)[i] in stray
    ensures forall i | 0 <= i < |Without(ring, page)| :: Without(ring, page)[i] in ring
    ensures |ring| > 1 && ring[0] != page ==> Without(ring, page)[0] == ring[0]
    ensures |ring| > 1 && ring[0] == page ==> Without(ring, page)[0] == ring[1]
  {
    WithoutMembers(ring, page);
    WithoutMembers(stray, page);
    WithoutAbsent(ring, page);
    WithoutAbsent(stray, page);
  }

  lemma {:induction false} WithoutAbsent<T>(ring: seq<T>, p: T)
    ensures p !in ring ==> Without(ring, p) == ring
  {
    if ring != [] { WithoutAbsent(ring[1..], p); }
  }

  lemma DeletedCases<T>(test: LastPageTest, ring: seq<T>, p: T, drop: bool)
    requires Distinct(ring)
    ensures Deleted(test, ring, p, drop) ==
            if p !in ring then if drop then [] else ring
            else if |ring| == 1 || (test.NextIsPrev? && |ring| == 2) then []
            else Without(ring, p)
  {
  }

  /** Deleting a page leaves only other pages of the ring. */
  lemma DeletedIsSmaller<T>(test: LastPageTest, ring: seq<T>, p: T)
    requires Distinct(ring) && p in ring
    ensures forall i | 0 <= i < |Deleted(test, ring, p, false)| ::
              Deleted(test, ring, p, false)[i] in ring && Deleted(test, ring, p, false)[i] != p
    ensures Distinct(Deleted(test, ring, p, false))
    ensures test.NextIsSelf? || |ring| != 2 ==> forall x | x in ring && x != p :: x in Deleted(test, ring, p, false)
    ensures test.NextIsPrev? && |ring| == 2 ==> Deleted(test, ring, p, false) == []
  {
    WithoutMembers(ring, p);
    DeletedCases(test, ring, p, false);
    hide Without, Deleted;
  }
}
