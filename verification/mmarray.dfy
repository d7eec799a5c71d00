/** The mmap-backed growing array, whose mapping size is recomputed from the stored capacity. */
module MmArrays {
  import opened Common
  import opened Memory
  import opened Words
  import opened Alignment

  /** `sizeof(ArrayHeader)` */
  const HEADER: nat := 16

  /** How many whole items fit behind the header. */
  function CapacityOf(memsize: nat, itemSize: nat): nat
    requires HEADER <= memsize && 0 < itemSize
  {
    (memsize - HEADER) / itemSize
  }

  /** The bytes that `n` items take. */
  function Span(n: nat, itemSize: nat): nat {
    n * itemSize
  }

  /** The bytes that an array of `length` items needs. */
  function Needed(length: nat, itemSize: nat): nat {
    HEADER + Span(length, itemSize)
  }

  /** The capacity derived from a mapping covers the length it was made for, and gives back exactly the size of the
      mapping, for any item size. */
  lemma CapacityRecomputes(length: nat, itemSize: nat, page: nat)
    requires 0 < itemSize && 0 < page
    ensures var m := RoundUp(Needed(length, itemSize), page);
            var c := CapacityOf(m, itemSize);
            length <= c && RoundUp(Needed(c, itemSize), page) == m && Needed(c, itemSize) <= m
  {
    var m := RoundUp(Needed(length, itemSize), page);
    var c := CapacityOf(m, itemSize);
    CapacityBounds(m, itemSize);
    if c < length { MulGap(itemSize, c, length); assert false; }
    if length < c { MulGap(itemSize, length, c); }
    SameRounding(Needed(length, itemSize), Needed(c, itemSize), page);
  }

  lemma CapacityBounds(m: nat, itemSize: nat)
    requires HEADER <= m && 0 < itemSize
    ensures var c := CapacityOf(m, itemSize); Needed(c, itemSize) <= m < Needed(c, itemSize) + itemSize
  {
    var x, c := m - HEADER, (m - HEADER) / itemSize;
    assert x == itemSize * c + x % itemSize;
  }

  /** The header stores the capacity as `unsigned`. The stored value gives back the mapping size exactly when
      nothing was cut off. */
  lemma StoredCapacityRecomputesIff(length: nat, itemSize: nat, page: nat, uintWidth: nat)
    requires 0 < itemSize && 0 < page <= Pow2(uintWidth) && length < Pow2(uintWidth)
    ensures var m := RoundUp(Needed(length, itemSize), page);
            var c := CapacityOf(m, itemSize);
            RoundUp(Needed(Wrap(uintWidth, c), itemSize), page) == m <==> c < Pow2(uintWidth)
  {
    hide Words.Pow2;
    CapacityRecomputes(length, itemSize, page);
    var m := RoundUp(Needed(length, itemSize), page);
    var c := CapacityOf(m, itemSize);
    var w := Wrap(uintWidth, c);
    if Pow2(uintWidth) <= c {
      WrapDrops(uintWidth, c);
      assert c * itemSize >= w * itemSize + page by { MulGapBy(w, c, Pow2(uintWidth), itemSize); }
      assert RoundUp(Needed(w, itemSize), page) < Needed(w, itemSize) + page;
    }
  }

  /** Single-byte items, pages of 4096, and the longest length an `unsigned` can hold: the capacity does not fit. */
  lemma LongestArrayOverflows()
    ensures Pow2(32) <= CapacityOf(RoundUp(Needed(Pow2(32) - 1, 1), 4096), 1)
  {
    assert Pow2(8) == 0x100;
    Pow2Sum(8, 8);
    Pow2Sum(16, 16);
    assert Pow2(32) == 0x1_0000_0000;
    hide Words.Pow2;
    MultiplesApart(0x1_0000_0000, RoundUp(Needed(Pow2(32) - 1, 1), 4096), 4096);
  }

  lemma WrapDrops(width: nat, n: nat)
    requires Pow2(width) <= n
    ensures Wrap(width, n) + Pow2(width) <= n
  {
    var p := Pow2(width);
    var q, r := n / p, n % p;
    assert n == p * q + r;
    if q > 1 { MulGap(p, 1, q); }
    if q == 0 { assert false; }
  }

  lemma MulGapBy(a: nat, b: nat, d: nat, m: nat)
    requires a + d <= b && 0 < m
    ensures a * m + d <= b * m
  {
    assert b * m == a * m + (b - a) * m;
    MulAtLeast(b - a, m);
  }

  lemma {:induction false} MulAtLeast(a: nat, m: nat)
    requires 0 < m
    ensures a <= a * m
  {
    if a > 0 { MulAtLeast(a - 1, m); }
  }

  /** What the constructor and growing need to know about the mapping and the capacity they store. */
  lemma StoredCapacity(sizes: Platform, n: nat, itemSize: nat, uintWidth: nat)
    requires sizes.Valid() && 0 < itemSize && sizes.PageSize() <= Pow2(uintWidth) && n < Pow2(uintWidth)
    requires sizes.Fits(RoundUp(Needed(n, itemSize), sizes.PageSize()))
    ensures var m := RoundUp(Needed(n, itemSize), sizes.PageSize());
            var w := Wrap(uintWidth, CapacityOf(m, itemSize));
            && sizes.Fits(Needed(n, itemSize)) && Span(n, itemSize) <= m - HEADER
            && (n <= w && sizes.Fits(Needed(w, itemSize)) && RoundUp(Needed(w, itemSize), sizes.PageSize()) == m
                <==> CapacityOf(m, itemSize) < Pow2(uintWidth))
  {
    hide Words.Pow2;
    CapacityRecomputes(n, itemSize, sizes.PageSize());
    StoredCapacityRecomputesIff(n, itemSize, sizes.PageSize(), uintWidth);
  }

  lemma FewestPages(n: nat, itemSize: nat, page: nat)
    requires 0 < page
    ensures var m := RoundUp(Needed(n, itemSize), page);
            m % page == 0 && HEADER + n * itemSize <= m < HEADER + n * itemSize + page
  {
    hide RoundUp;
  }

  lemma StoredQuotient(n: nat, itemSize: nat, uintWidth: nat)
    requires 0 < itemSize
    ensures Wrap(uintWidth, CapacityOf(HEADER + n, itemSize)) == (n / itemSize) % Pow2(uintWidth)
  {
    hide Words.Pow2;
  }

  class MmArray {
    const sizes: Platform     // the width of `size_t`, and the page
    const uintWidth: nat
    const itemSize: nat
    var capacity: nat
    var length: nat
    var data: array<Byte>     // the mapping behind the header

    /** `calc_memsize` */
    function MemSize(n: nat): (m: nat)
      requires sizes.Valid() && sizes.Fits(Needed(n, itemSize))
      ensures m == RoundUp(Needed(n, itemSize), sizes.PageSize())
    {
      sizes.AlignToPage(Needed(n, itemSize))
    }

    /** The items are inside the mapping. */
    ghost predicate Shape()
      reads this, data
    {
      && sizes.Valid() && sizes.PageSize() <= Pow2(uintWidth)
      && 0 < itemSize < Pow2(uintWidth) && length < Pow2(uintWidth) && Span(length, itemSize) <= data.Length
    }

    /** The size recomputed from the stored capacity is the size actually mapped, and the items fit the capacity. */
    ghost predicate Valid()
      reads this, data
    {
      && Shape() && length <= capacity
      && sizes.Fits(Needed(capacity, itemSize)) && MemSize(capacity) == HEADER + data.Length
    }

    ghost function Items(): seq<Byte>
      requires Span(length, itemSize) <= data.Length
      reads this, data
    {
      data[..Span(length, itemSize)]
    }

    /** The mapping is the fewest whole pages that hold the header and `n` items, and the capacity is what fits there,
        as far as an `unsigned` holds it. */
    ghost predicate FillsPages(n: nat)
      requires sizes.Valid() && 0 < itemSize
      reads this`capacity, this`data, data
    {
      && (HEADER + data.Length) % sizes.PageSize() == 0 && n * itemSize <= data.Length < n * itemSize + sizes.PageSize()
      && capacity == (data.Length / itemSize) % Pow2(uintWidth)
    }

    lemma MappingFills(n: nat)
      requires sizes.Valid() && 0 < itemSize && HEADER + data.Length == RoundUp(Needed(n, itemSize), sizes.PageSize())
      requires capacity == Wrap(uintWidth, CapacityOf(HEADER + data.Length, itemSize))
      ensures FillsPages(n)
    {
      hide Words.Pow2, RoundUp, CapacityOf, Wrap, Span, Needed;
      FewestPages(n, itemSize, sizes.PageSize());
      StoredQuotient(data.Length, itemSize, uintWidth);
    }

    /** The capacity that a mapping made for `n` items has. */
    ghost function CapacityFor(n: nat): nat
      requires 0 < itemSize
    {
      CapacityOf(RoundUp(Needed(n, itemSize), sizes.PageSize()), itemSize)
    }

    constructor (sizes: Platform, uintWidth: nat, n: nat, itemSize: nat)
      requires sizes.Valid() && sizes.PageSize() <= Pow2(uintWidth)
      requires 0 < itemSize < Pow2(uintWidth) && n < Pow2(uintWidth)
      requires sizes.Fits(RoundUp(Needed(n, itemSize), sizes.PageSize()))
      ensures this.sizes == sizes && this.uintWidth == uintWidth && this.itemSize == itemSize && length == n
      ensures Shape() && fresh(data) && FillsPages(n)
      ensures Valid() <==> CapacityFor(n) < Pow2(uintWidth)
    {
      hide Words.Pow2, RoundUp, CapacityOf, Needed, Wrap, Span, FillsPages;
      StoredCapacity(sizes, n, itemSize, uintWidth);
      var memsize := sizes.AlignToPage(Needed(n, itemSize));
      this.sizes, this.uintWidth, this.itemSize := sizes, uintWidth, itemSize;
      capacity, length := Wrap(uintWidth, CapacityOf(memsize, itemSize)), n;
      data := new Byte[memsize - HEADER];
      new;
      MappingFills(n);
    }

    /** `mmarray_grow`: the items keep their bytes. A new mapping leaves the array in order exactly when its capacity
        can be stored. */
    method Grow(increment: nat)
      requires Valid() && length + increment < Pow2(uintWidth)
      requires sizes.Fits(RoundUp(Needed(length + increment, itemSize), sizes.PageSize()))
      modifies this`capacity, this`length, this`data
      ensures Shape() && length == old(length) + increment && (data == old(data) || fresh(data))
      ensures Span(old(length), itemSize) <= Span(length, itemSize)
      ensures Items()[..Span(old(length), itemSize)] == old(Items())
      ensures if length <= old(capacity) then data == old(data) && capacity == old(capacity) else FillsPages(length)
      ensures Valid() <==> length <= old(capacity) || CapacityFor(length) < Pow2(uintWidth)
    {
      hide Words.Pow2, RoundUp, CapacityOf, Wrap, Span, FillsPages;
      var n := length + increment;
      SpanGrows(length, n, itemSize);
      if n > capacity {
        StoredCapacity(sizes, n, itemSize, uintWidth);
        var memsize := MemSize(n);
        data := Remap(data, memsize - HEADER);
        capacity := Wrap(uintWidth, CapacityOf(memsize, itemSize));
        MappingFills(n);
      } else {
        SpanGrows(n, capacity, itemSize);
        RoundUpNotBelow(Needed(capacity, itemSize), sizes.PageSize());
      }
      length := n;
    }

    /** Where `mmarray_append_item` writes: the product of two `unsigned` wraps. */
    function WriteOffset(index: nat): nat {
      Wrap(uintWidth, Span(index, itemSize))
    }

    /** `mmarray_append_item`. `slot` is what the mapping had in the place of the new item. As long as the byte offset
        of the new item does not wrap, the item is appended. Otherwise it overwrites bytes of earlier items, and its
        own place keeps what it had. */
    method AppendItem(item: seq<Byte>) returns (ghost slot: seq<Byte>)
      requires Valid() && |item| == itemSize && length + 1 < Pow2(uintWidth)
      requires sizes.Fits(RoundUp(Needed(length + 1, itemSize), sizes.PageSize()))
      modifies this`capacity, this`length, this`data, data
      ensures Shape() && length == old(length) + 1 && |slot| == itemSize
      ensures Span(old(length), itemSize) < Pow2(uintWidth) ==> Items() == old(Items()) + item
      ensures Span(old(length), itemSize) >= Pow2(uintWidth) ==>
                var at := WriteOffset(old(length));
                && at + itemSize <= Span(old(length), itemSize)
                && Items() == old(Items())[..at] + item + old(Items())[at + itemSize..] + slot
      ensures if length <= old(capacity) then data == old(data) && capacity == old(capacity) else FillsPages(length)
      ensures Valid() <==> length <= old(capacity) || CapacityFor(length) < Pow2(uintWidth)
    {
      var index := length;
      hide Words.Pow2, RoundUp, CapacityOf, Needed, Wrap, Span, Stored, Platform.Valid, Platform.Fits, Valid,
        FillsPages;
      ItemsInside();
      ghost var items := Items();
      Grow(1);
      NextItem(index, itemSize);
      slot := data[Span(index, itemSize)..Span(length, itemSize)];
      assert Items() == items + slot;
      PutLast(item, items, slot);
    }

    lemma ItemsInside()
      requires Valid()
      ensures Shape()
    {
    }

    /** `memcpy` of the item to where the last one belongs. */
    method PutLast(item: seq<Byte>, ghost items: seq<Byte>, ghost slot: seq<Byte>)
      requires Shape() && 0 < length && |items| == Span(length - 1, itemSize) && |slot| == |item| == itemSize
      requires Items() == items + slot
      modifies data
      ensures Shape() && (Valid() <==> old(Valid())) && (FillsPages(length) <==> old(FillsPages(length)))
      ensures |items| < Pow2(uintWidth) ==> Items() == items + item
      ensures |items| >= Pow2(uintWidth) ==>
                var at := WriteOffset(length - 1);
                at + itemSize <= |items| && Items() == items[..at] + item + items[at + itemSize..] + slot
    {
      hide Words.Pow2, Wrap, Span, Stored, Platform.Valid, Platform.Fits;
      StoredAt(uintWidth, items, slot, length - 1, itemSize, item);
      StoreItem(WriteOffset(length - 1), item);
    }

    method StoreItem(at: nat, item: seq<Byte>)
      requires Shape() && at + |item| <= Span(length, itemSize)
      modifies data
      ensures Shape() && (Valid() <==> old(Valid())) && Items() == Stored(old(Items()), at, item)
    {
      hide Words.Pow2, Span;
      Store(data, at, item);
    }
  }

  /** Where an item for the place behind the others is stored. */
  lemma StoredAt(width: nat, items: seq<Byte>, slot: seq<Byte>, n: nat, m: nat, item: seq<Byte>)
    requires |items| == Span(n, m) && |slot| == |item| == m < Pow2(width)
    ensures var at := Wrap(width, Span(n, m));
            && at <= |items|
            && (|items| < Pow2(width) ==> Stored(items + slot, at, item) == items + item)
            && (|items| >= Pow2(width) ==>
                  && at + m <= |items|
                  && Stored(items + slot, at, item) == items[..at] + item + items[at + m..] + slot)
  {
    OffsetBelow(width, Span(n, m));
    if Pow2(width) <= |items| { WrapDrops(width, |items|); }
    hide Wrap, Words.Pow2, Span;
  }

  /** Storing at the wrapped offset appends every item if and only if the offset does not wrap. */
  lemma AppendsIffNoWrap(width: nat, items: seq<Byte>, slot: seq<Byte>, n: nat, m: nat)
    requires |items| == Span(n, m) && |slot| == m && 0 < m < Pow2(width)
    ensures Wrap(width, Span(n, m)) <= |items|
    ensures (forall item: seq<Byte> | |item| == m ::
               Stored(items + slot, Wrap(width, Span(n, m)), item) == items + item)
            <==> Span(n, m) < Pow2(width)
  {
    hide Wrap, Words.Pow2, Span, Stored;
    OffsetBelow(width, Span(n, m));
    if Span(n, m) < Pow2(width) {
      forall item: seq<Byte> | |item| == m
        ensures Stored(items + slot, Wrap(width, Span(n, m)), item) == items + item
      {
        StoredAt(width, items, slot, n, m, item);
      }
    } else {
      var other := seq(m, i requires 0 <= i < m => if slot[i] == 0 then 1 else 0 as Byte);
      assert other[0] != slot[0];
      StoredAt(width, items, slot, n, m, other);
      var at := Wrap(width, Span(n, m));
      assert (items[..at] + other + items[at + m..] + slot)[|items|] == slot[0];
      assert (items + other)[|items|] == other[0];
    }
  }

  /** 32-bit lengths, and 65536 items of 65536 bytes: the next item goes to the start of the array. */
  lemma AppendThatWraps(items: seq<Byte>, slot: seq<Byte>)
    requires |items| == Span(65536, 65536) && |slot| == 65536
    ensures Wrap(32, Span(65536, 65536)) == 0
    ensures exists item: seq<Byte> :: |item| == 65536 && Stored(items + slot, 0, item) != items + item
  {
    assert Pow2(8) == 0x100;
    Pow2Sum(8, 8);
    Pow2Sum(16, 16);
    assert Pow2(32) == 0x1_0000_0000;
    hide Words.Pow2;
    AppendsIffNoWrap(32, items, slot, 65536, 65536);
  }

  lemma RoundUpNotBelow(n: nat, p: nat)
    requires 0 < p
    ensures n <= RoundUp(n, p)
  {
  }

  lemma SpanGrows(a: nat, b: nat, m: nat)
    requires a <= b
    ensures Span(a, m) <= Span(b, m)
  {
    MulGrows(a, b, m);
  }

  lemma NextItem(n: nat, m: nat)
    ensures Span(n + 1, m) == Span(n, m) + m
  {
  }

  /** A wrapped offset is never beyond the true one, and is the true one exactly when it does not wrap. */
  lemma OffsetBelow(width: nat, n: nat)
    ensures Wrap(width, n) <= n
    ensures Wrap(width, n) == n <==> n < Pow2(width)
  {
    if Pow2(width) <= n { WrapDrops(width, n); }
  }
}
