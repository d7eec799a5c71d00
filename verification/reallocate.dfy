/** Allocation, release and resizing of single blocks over one flat memory: which layer serves a block, and what
    becomes of its bytes. What the bitmap layer and the system answer is passed in; the protocol modules show that the
    bitmap layer answers as assumed here. */
module Reallocation {
  import opened Common
  import opened Words
  import opened Alignment
  import Memory

  /** `UNIT_SIZE` */
  const UNIT: nat := 16

  /** `cleanse`: zeroes the bytes from `start` to `end` of `addr`: single bytes up to a word boundary, then words,
      then the bytes that are left. */
  method Cleanse(mem: array<Byte>, wordBits: nat, addr: nat, start: nat, end: nat)
    requires addr % Pow2(wordBits) == 0 && start <= end && addr + end <= mem.Length
    modifies mem
    ensures forall i | 0 <= i < mem.Length :: mem[i] == if addr + start <= i < addr + end then 0 else old(mem[i])
  {
    var word := Pow2(wordBits);
    AndMaskIsMod(start, wordBits);
    var length := end - start;
    var p := addr + start;
    var nbytes := And(start, word - 1);
    if nbytes != 0 {
      nbytes := Min(word - nbytes, length);
      for i := 0 to nbytes
        invariant p == addr + start + i && length == end - start - i
        invariant forall k | 0 <= k < mem.Length :: mem[k] == if addr + start <= k < p then 0 else old(mem[k])
      {
        mem[p] := 0;
        p, length := p + 1, length - 1;
      }
    }
    if word <= length { HeadEndsOnWord(addr, start, p, word); }
    while length >= word
      invariant addr + start <= p && p + length == addr + end && 0 <= length
      invariant length >= word ==> p % word == 0
      invariant forall k | 0 <= k < mem.Length :: mem[k] == if addr + start <= k < p then 0 else old(mem[k])
    {
      ClearWord(mem, p, word);
      SumOfMultiples(p, word, word);
      p, length := p + word, length - word;
    }
    while length > 0
      invariant p + length == addr + end && 0 <= length && addr + start <= p
      invariant forall k | 0 <= k < mem.Length :: mem[k] == if addr + start <= k < p then 0 else old(mem[k])
    {
      mem[p] := 0;
      p, length := p + 1, length - 1;
    }
  }

  /** A store through a word pointer, which has to be aligned. */
  method ClearWord(mem: array<Byte>, p: nat, word: nat)
    requires 0 < word && p % word == 0 && p + word <= mem.Length
    modifies mem
    ensures forall i | 0 <= i < mem.Length :: mem[i] == if p <= i < p + word then 0 else old(mem[i])
  {
    forall i | p <= i < p + word { mem[i] := 0; }
  }

  lemma HeadEndsOnWord(addr: nat, start: nat, p: nat, word: nat)
    requires 0 < word && addr % word == 0
    requires p == addr + start + (if start % word == 0 then 0 else word - start % word)
    ensures p % word == 0
  {
    var q := start / word;
    MultipleIsProduct(addr, word);
    assert start == word * q + start % word;
    ModUnique(p, word, addr / word + q + (if start % word == 0 then 0 else 1), 0);
  }

  /** `call_munmap`, or `bm_release` of some units of a page: what is given back. */
  datatype Freed = Mapping(addr: nat, size: nat) | PageUnits(page: nat, offset: nat, count: nat) {
    function Start(): nat { if Mapping? then addr else page + offset * UNIT }
    function Size(): nat { if Mapping? then size else count * UNIT }
  }

  /** Exactly the bytes from `from` to `to` were given back, if there are any. */
  predicate GivenBack(freed: Option<Freed>, from: nat, to: nat) {
    if from == to then freed.None? else freed.Some? && freed.value.Start() == from < to == from + freed.value.Size()
  }

  /** What the layers below answer: `bm_allocate`, `mmap`, `bm_grow` and `mremap`. */
  datatype Answers = Answers(small: Option<nat>, mapped: Option<nat>, extended: bool, remapped: Option<nat>)

  /** How a mapping is given up whose block moves to the bitmap allocator: as written, by releasing units of a page
      that has no bitmap; as meant, by unmapping it. */
  datatype GiveUpRule = ByBmRelease | ByUnmap

  datatype Sizes = Sizes(os: Platform, pointerWidth: nat, header: nat) {
    ghost predicate Valid() {
      && os.Valid() && 4 < os.pageBits <= pointerWidth
      && Pow2(os.pageBits) <= Pow2(pointerWidth) && os.PageSize() % UNIT == 0 && 2 * UNIT <= os.PageSize()
      && 0 < header < os.PageSize() / UNIT
    }

    /** `max_data_units` */
    function MaxData(): int { os.PageSize() / UNIT - header }

    /** `bytes_to_units` */
    function Units(n: nat): (u: nat)
      requires Valid() && os.Fits(n)
      ensures u == UnitsOf(n)
    {
      assert Pow2(4) == UNIT;
      AlignToPow2(os.uintWidth, n, 4);
      AlignUnsigned(os.uintWidth, n, UNIT) / UNIT
    }

    /** `align_unsigned_to_page` */
    function WholePages(n: nat): (r: nat)
      requires Valid() && os.Fits(n)
      ensures r == RoundUp(n, os.PageSize())
    {
      os.AlignToPage(n)
    }

    /** `bm_page_by_addr` */
    function PageOf(addr: nat): (p: nat)
      requires Valid() && addr < Pow2(pointerWidth)
      ensures p == addr - addr % os.PageSize()
    {
      MaskDownIsPageBase(pointerWidth, addr, os.pageBits);
      MaskDown(pointerWidth, addr, os.PageSize())
    }

    /** Blocks of so many bytes are served by the bitmap allocator. */
    ghost predicate Small(n: nat) { UnitsOf(n) < MaxData() }

    /** The bytes that a block of `n` takes: whole units, or whole pages. */
    ghost function Footprint(n: nat): nat {
      if Small(n) then UnitsOf(n) * UNIT else RoundUp(n, os.PageSize())
    }

    /** A block is small when a page has a unit more room than it takes behind the header. */
    lemma SmallIff(n: nat)
      requires Valid()
      ensures Small(n) <==> header * UNIT + n + UNIT <= os.PageSize()
    {
      hide Words.Pow2, Platform.PageSize;
      UnitsCover(n);
      UnitsLeast(n, MaxData() - 1);
    }

    /** A block takes the least number of whole units or pages that covers it. */
    lemma FootprintIsLeast(n: nat, m: nat)
      requires Valid() && n <= m && m % (if Small(n) then UNIT else os.PageSize()) == 0
      ensures n <= Footprint(n) <= m && Footprint(n) % (if Small(n) then UNIT else os.PageSize()) == 0
    {
      hide Words.Pow2, Platform.PageSize, Small;
      UnitsCover(n);
      if Small(n) { RoundUpIsLeast(n, UNIT, m); } else { RoundUpIsLeast(n, os.PageSize(), m); }
    }

    /** A block of the bitmap allocator is in the data area of one page; any other starts a page. So an address starts
        a page exactly when the block is not from the bitmap allocator. */
    ghost predicate Placed(addr: nat, n: nat) {
      && 0 < n && os.Fits(n)
      && if Small(n) then
           addr % UNIT == 0 && header * UNIT <= addr % os.PageSize()
               && addr % os.PageSize() + Footprint(n) <= os.PageSize()
         else addr % os.PageSize() == 0
    }

    ghost predicate BlocksOk(length: nat, blocks: map<nat, nat>) {
      && (forall a | a in blocks :: Placed(a, blocks[a]) && a + Footprint(blocks[a]) <= length)
      && (forall a, b | a in blocks && b in blocks && a < b :: a + Footprint(blocks[a]) <= b)
    }

    /** No block has a byte of `[from, to)`. */
    ghost predicate Vacant(blocks: map<nat, nat>, from: nat, to: nat) {
      forall a | a in blocks :: a + Footprint(blocks[a]) <= from || to <= a
    }

    /** A block of `n` bytes may be put at `addr`. */
    ghost predicate MayPut(length: nat, blocks: map<nat, nat>, addr: nat, n: nat) {
      Placed(addr, n) && addr + Footprint(n) <= length && Vacant(blocks, addr, addr + Footprint(n))
    }

    lemma PutKeeps(length: nat, blocks: map<nat, nat>, addr: nat, n: nat)
      requires BlocksOk(length, blocks) && MayPut(length, blocks, addr, n)
      ensures addr !in blocks && BlocksOk(length, blocks[addr := n]) && Vacant(blocks, addr, addr + Footprint(n))
    {
      FootprintCovers(n);
      if addr in blocks { FootprintCovers(blocks[addr]); }
    }

    lemma RemoveKeeps(length: nat, blocks: map<nat, nat>, addr: nat)
      requires BlocksOk(length, blocks)
      ensures BlocksOk(length, blocks - {addr})
    {
    }

    /** Changing the size of a block in place. */
    lemma ResizeKeepsIff(length: nat, blocks: map<nat, nat>, addr: nat, n: nat)
      requires BlocksOk(length, blocks) && addr in blocks
      requires addr + Footprint(n) <= length && Vacant(blocks - {addr}, addr, addr + Footprint(n))
      ensures BlocksOk(length, blocks[addr := n]) <==> Placed(addr, n)
    {
      hide Footprint;
      RemoveKeeps(length, blocks, addr);
      if Placed(addr, n) {
        hide Placed;
        PutKeeps(length, blocks - {addr}, addr, n);
        assert (blocks - {addr})[addr := n] == blocks[addr := n];
      } else {
        assert blocks[addr := n][addr] == n;
      }
    }

    lemma PlacedFacts(length: nat, blocks: map<nat, nat>, addr: nat)
      requires BlocksOk(length, blocks) && addr in blocks
      ensures Placed(addr, blocks[addr]) && addr < addr + blocks[addr] <= addr + Footprint(blocks[addr]) <= length
    {
      FootprintCovers(blocks[addr]);
    }

    /** The bytes of other blocks are elsewhere. */
    lemma OthersElsewhere(length: nat, blocks: map<nat, nat>, addr: nat)
      requires BlocksOk(length, blocks) && addr in blocks
      ensures Vacant(blocks - {addr}, addr, addr + Footprint(blocks[addr]))
    {
    }

    lemma ApartFrom(blocks: map<nat, nat>, addr: nat, n: nat, other: nat)
      requires other in blocks && Vacant(blocks, addr, addr + Footprint(n))
      ensures addr + n <= other || other + blocks[other] <= addr
    {
      FootprintCovers(n);
      FootprintCovers(blocks[other]);
    }

    lemma VacantWithout(blocks: map<nat, nat>, addr: nat, from: nat, to: nat)
      requires Vacant(blocks, from, to)
      ensures Vacant(blocks - {addr}, from, to)
    {
    }

    lemma FootprintCovers(n: nat)
      ensures n <= Footprint(n)
    {
      UnitsCover(n);
    }

    lemma FootprintGrows(m: nat, n: nat)
      requires Valid() && m <= n
      ensures Footprint(m) <= Footprint(n) && UnitsOf(m) <= UnitsOf(n)
    {
      UnitsCover(m);
      UnitsCover(n);
      RoundUpIsLeast(m, UNIT, RoundUp(n, UNIT));
      RoundUpIsLeast(m, os.PageSize(), RoundUp(n, os.PageSize()));
      PageIsUnits(n);
    }

    lemma PageIsUnits(n: nat)
      requires Valid()
      ensures RoundUp(n, UNIT) <= RoundUp(n, os.PageSize())
    {
      MultipleIsProduct(RoundUp(n, os.PageSize()), os.PageSize());
      MultipleOfMultiple(RoundUp(n, os.PageSize()) / os.PageSize(), os.PageSize(), UNIT);
      RoundUpIsLeast(n, UNIT, RoundUp(n, os.PageSize()));
    }

    /** Sizes of the same number of units take the same bytes. */
    lemma SameUnits(m: nat, n: nat)
      requires Valid() && UnitsOf(m) == UnitsOf(n)
      ensures Footprint(m) == Footprint(n)
    {
      UnitsCover(m);
      UnitsCover(n);
      PageIsUnits(m);
      PageIsUnits(n);
      SameRounding(m, RoundUp(m, UNIT), os.PageSize());
      SameRounding(n, RoundUp(n, UNIT), os.PageSize());
    }
  }

  ghost function UnitsOf(n: nat): nat { RoundUp(n, UNIT) / UNIT }

  lemma UnitsCover(n: nat)
    ensures UnitsOf(n) * UNIT == RoundUp(n, UNIT) && n <= UnitsOf(n) * UNIT
  {
    MultipleIsProduct(RoundUp(n, UNIT), UNIT);
  }

  lemma UnitsLeast(n: nat, k: int)
    ensures UnitsOf(n) <= k <==> n <= k * UNIT
  {
    UnitsCover(n);
    if n <= k * UNIT {
      ModUnique(k * UNIT, UNIT, k, 0);
      RoundUpIsLeast(n, UNIT, k * UNIT);
    }
  }

  /** Outside `[from, to)` nothing was written. */
  ghost predicate Wrote(before: seq<Byte>, after: seq<Byte>, from: nat, to: nat) {
    |before| == |after| && forall i | 0 <= i < |before| && !(from <= i < to) :: after[i] == before[i]
  }

  /** The blocks kept their bytes. */
  ghost predicate Kept(before: seq<Byte>, after: seq<Byte>, blocks: map<nat, nat>) {
    |before| == |after| && forall a, i | a in blocks && a <= i < a + blocks[a] && i < |before| :: after[i] == before[i]
  }

  lemma WritingSpares(sizes: Sizes, blocks: map<nat, nat>, before: seq<Byte>, after: seq<Byte>, from: nat, to: nat)
    requires Wrote(before, after, from, to) && sizes.Vacant(blocks, from, to)
    ensures Kept(before, after, blocks)
  {
    forall a, i | a in blocks && a <= i < a + blocks[a] && i < |before| ensures after[i] == before[i] {
      sizes.FootprintCovers(blocks[a]);
    }
  }

  lemma WroteMore(before: seq<Byte>, after: seq<Byte>, from: nat, to: nat, beyond: nat)
    requires Wrote(before, after, from, to) && to <= beyond
    ensures Wrote(before, after, from, beyond)
  {
  }

  /** `memcpy` between blocks, which do not overlap. */
  method Copy(mem: array<Byte>, to: nat, from: nat, n: nat)
    requires to + n <= mem.Length && from + n <= mem.Length && (to + n <= from || from + n <= to)
    modifies mem
    ensures mem[to..to + n] == old(mem[from..from + n]) && Wrote(old(mem[..]), mem[..], to, to + n)
  {
    Memory.Move(mem, from, to, n);
  }

  class Heap {
    const sizes: Sizes
    const wordBits: nat
    const mem: array<Byte>
    ghost var blocks: map<nat, nat>   // address and size of every live block

    ghost predicate Valid()
      reads this`blocks
    {
      && sizes.Valid() && wordBits <= 4 && mem.Length <= Pow2(sizes.pointerWidth)
      && sizes.BlocksOk(mem.Length, blocks)
    }

    constructor (sizes: Sizes, wordBits: nat, mem: array<Byte>)
      requires sizes.Valid() && wordBits <= 4 && mem.Length <= Pow2(sizes.pointerWidth)
      ensures this.sizes == sizes && this.wordBits == wordBits && this.mem == mem && blocks == map[] && Valid()
    {
      this.sizes, this.wordBits, this.mem, blocks := sizes, wordBits, mem, map[];
    }

    /** What `_allocate` may be answered. */
    ghost predicate AllocateAnswersOk(n: nat, answers: Answers)
      reads this`blocks
    {
      && (sizes.Small(n) && answers.small.Some? ==> sizes.MayPut(mem.Length, blocks, answers.small.value, n))
      && (!sizes.Small(n) && answers.mapped.Some? ==> sizes.MayPut(mem.Length, blocks, answers.mapped.value, n))
    }

    /** `_allocate` */
    method Allocate(nbytes: nat, clean: bool, answers: Answers) returns (r: Option<nat>)
      requires Valid() && sizes.os.Fits(nbytes) && AllocateAnswersOk(nbytes, answers)
      modifies this`blocks, mem
      ensures Valid()
      ensures r == if nbytes == 0 then None else if sizes.Small(nbytes) then answers.small else answers.mapped
      ensures r.None? ==> blocks == old(blocks) && mem[..] == old(mem[..])
      ensures r.Some? ==>
                && r.value !in old(blocks) && blocks == old(blocks)[r.value := nbytes]
                && sizes.Vacant(old(blocks), r.value, r.value + sizes.Footprint(nbytes))
                && Kept(old(mem[..]), mem[..], old(blocks)) && (!clean ==> mem[..] == old(mem[..]))
                && r.value + nbytes <= mem.Length
                && (clean ==> forall i | r.value <= i < r.value + nbytes :: mem[i] == 0)
    {
      hide Words.Pow2, RoundUp, UnitsOf, Sizes.Vacant, Sizes.BlocksOk, Kept;
      if nbytes == 0 {
        return None;
      }
      ghost var before := mem[..];
      var units := sizes.Units(nbytes);
      r := if units < sizes.MaxData() then answers.small else answers.mapped;
      if r.None? {
        return;
      }
      var size := if units < sizes.MaxData() then units * UNIT else sizes.WholePages(nbytes);
      sizes.FootprintCovers(nbytes);
      if clean {
        StartsOnWord(sizes, wordBits, r.value, nbytes);
        Cleanse(mem, wordBits, r.value, 0, size);
      }
      WritingSpares(sizes, blocks, before, mem[..], r.value, r.value + size);
      sizes.PutKeeps(mem.Length, blocks, r.value, nbytes);
      blocks := blocks[r.value := nbytes];
    }

    /** `bm_release` of the block at unit `offset` of `page`. It takes the page off the list that its header points to.
        No block of a bitmap page is among the reserved units; when one is released there, the page has no header, and
        a client's bytes are taken for it: if the first word is zero the call waits for ever, else the bytes are
        followed as pointers. That is the fault; it happens exactly for a block not from the bitmap allocator. */
    method BmRelease(page: nat, offset: nat, count: nat) returns (fault: bool)
      requires Valid() && page % sizes.os.PageSize() == 0 && offset < sizes.os.PageSize() / UNIT
      requires page + offset * UNIT in blocks
      requires sizes.Small(blocks[page + offset * UNIT]) ==> count == UnitsOf(blocks[page + offset * UNIT])
      modifies this`blocks
      ensures fault <==> !sizes.Small(old(blocks)[page + offset * UNIT])
      ensures blocks == if fault then old(blocks) else old(blocks) - {page + offset * UNIT}
      ensures Valid()
    {
      hide Words.Pow2, RoundUp, UnitsOf, Sizes.Small, Sizes.Footprint;
      ghost var addr := page + offset * UNIT;
      sizes.PlacedFacts(mem.Length, blocks, addr);
      OffsetTells(sizes, page, offset, blocks[addr]);
      fault := offset < sizes.header;
      if fault {
        return;
      }
      sizes.RemoveKeeps(mem.Length, blocks, addr);
      blocks := blocks - {addr};
    }

    /** `_release`: the page alignment of the address tells which layer has the block, and exactly its bytes are given
        back. A null address is left alone. */
    method Release(addr: Option<nat>, nbytes: nat) returns (freed: Option<Freed>)
      requires Valid() && (addr.Some? ==> addr.value in blocks && blocks[addr.value] == nbytes)
      modifies this`blocks
      ensures Valid() && blocks == if addr.Some? then old(blocks) - {addr.value} else old(blocks)
      ensures freed.Some? <==> addr.Some?
      ensures freed.Some? ==>
                var f := freed.value;
                && GivenBack(freed, addr.value, addr.value + sizes.Footprint(nbytes))
                && (f.PageUnits? <==> sizes.Small(nbytes))
                && (f.PageUnits? ==>
                      && f.page % sizes.os.PageSize() == 0 && sizes.header <= f.offset
                      && f.offset + f.count <= sizes.os.PageSize() / UNIT)
    {
      if addr.None? {
        return None;
      }
      var a := addr.value;
      hide Words.Pow2, RoundUp, UnitsOf, Sizes.Footprint, Sizes.Placed, Sizes.Small, Sizes.BlocksOk, Platform.Fits,
        Sizes.Valid;
      sizes.PlacedFacts(mem.Length, blocks, a);
      PlacedFootprint(sizes, a, nbytes);
      UnitsInPage(sizes, a, nbytes);
      var page := sizes.PageOf(a);
      if a == page {
        freed := Some(Mapping(a, sizes.WholePages(nbytes)));
        sizes.RemoveKeeps(mem.Length, blocks, a);
        blocks := blocks - {a};
      } else {
        freed := Some(PageUnits(page, (a - page) / UNIT, sizes.Units(nbytes)));
        var fault := BmRelease(page, (a - page) / UNIT, sizes.Units(nbytes));
        assert !fault;
      }
    }

    /** The block at `addr` of `before` is now at `to` with `newBytes`: it kept the bytes that both sizes have, the
        bytes gained are zero if they were to be clean, and no other block changed. */
    ghost predicate Resized(before: seq<Byte>, earlier: map<nat, nat>, addr: nat, oldBytes: nat,
                            to: nat, newBytes: nat, clean: bool)
      reads this`blocks, mem
    {
      var n := Min(oldBytes, newBytes);
      && |before| == mem.Length && addr + oldBytes <= |before| && to + newBytes <= |before|
      && blocks == (earlier - {addr})[to := newBytes]
      && mem[to..to + n] == before[addr..addr + n]
      && (clean ==> forall i | to + oldBytes <= i < to + newBytes :: mem[i] == 0)
      && Kept(before, mem[..], earlier - {addr})
    }

    /** What makes a move: the bytes are there, and only memory that no other block uses was written. */
    lemma MoveResizes(before: seq<Byte>, earlier: map<nat, nat>, addr: nat, oldBytes: nat, to: nat, newBytes: nat,
        clean: bool)
      requires |before| == mem.Length && addr + oldBytes <= |before| && to + newBytes <= |before|
      requires blocks == (earlier - {addr})[to := newBytes]
      requires var n := Min(oldBytes, newBytes); mem[to..to + n] == before[addr..addr + n]
      requires clean ==> forall i | to + oldBytes <= i < to + newBytes :: mem[i] == 0
      requires Wrote(before, mem[..], to, to + newBytes)
      requires sizes.Vacant(earlier - {addr}, to, to + sizes.Footprint(newBytes))
      ensures Resized(before, earlier, addr, oldBytes, to, newBytes, clean)
    {
      hide Kept, Sizes.Footprint, Sizes.Vacant;
      sizes.FootprintCovers(newBytes);
      WroteMore(before, mem[..], to, to + newBytes, to + sizes.Footprint(newBytes));
      WritingSpares(sizes, earlier - {addr}, before, mem[..], to, to + sizes.Footprint(newBytes));
    }

    /** The block keeps its address, and grows or shrinks in place. */
    method ResizeInPlace(addr: nat, oldBytes: nat, newBytes: nat, clean: bool)
      requires Valid() && addr in blocks && blocks[addr] == oldBytes
      requires addr + sizes.Footprint(newBytes) <= mem.Length
      requires sizes.Vacant(blocks - {addr}, addr, addr + sizes.Footprint(newBytes))
      modifies this`blocks, mem
      ensures Resized(old(mem[..]), old(blocks), addr, oldBytes, addr, newBytes, clean)
      ensures Valid() <==> sizes.Placed(addr, newBytes)
    {
      hide Words.Pow2, RoundUp, UnitsOf, Sizes.Footprint, Sizes.Placed, Sizes.Small, Sizes.BlocksOk, Sizes.Vacant, Kept;
      sizes.PlacedFacts(mem.Length, blocks, addr);
      StartsOnWord(sizes, wordBits, addr, oldBytes);
      sizes.FootprintCovers(newBytes);
      ghost var before := mem[..];
      if newBytes > oldBytes {
        CleanGained(addr, oldBytes, newBytes, clean);
      }
      WritingSpares(sizes, blocks - {addr}, before, mem[..], addr, addr + sizes.Footprint(newBytes));
      sizes.ResizeKeepsIff(mem.Length, blocks, addr, newBytes);
      assert (blocks - {addr})[addr := newBytes] == blocks[addr := newBytes];
      blocks := blocks[addr := newBytes];
    }

    /** A block that outgrew its page: allocate, copy, release, cleanse. */
    method Move(addr: nat, oldBytes: nat, newBytes: nat, clean: bool, answers: Answers)
      returns (r: Option<nat>, freed: Option<Freed>)
      requires Valid() && addr in blocks && blocks[addr] == oldBytes < newBytes
      requires sizes.os.Fits(newBytes) && AllocateAnswersOk(newBytes, answers)
      modifies this`blocks, mem
      ensures Valid()
      ensures r == if sizes.Small(newBytes) then answers.small else answers.mapped
      ensures r.None? ==> blocks == old(blocks) && mem[..] == old(mem[..])
      ensures r.Some? ==>
                && r.value != addr && Resized(old(mem[..]), old(blocks), addr, oldBytes, r.value, newBytes, clean)
                && GivenBack(freed, addr, addr + sizes.Footprint(oldBytes))
      ensures r.None? ==> freed.None?
    {
      hide Words.Pow2, RoundUp, UnitsOf, Sizes.Footprint, Sizes.Placed, Sizes.Small, Sizes.BlocksOk, Sizes.Vacant, Kept,
        AllocateAnswersOk, Resized, Sizes.Valid, GivenBack;
      ghost var before := mem[..];
      ghost var earlier := blocks;
      r := Allocate(newBytes, false, answers);
      if r.None? {
        return r, None;
      }
      sizes.PlacedFacts(mem.Length, blocks, r.value);
      sizes.PlacedFacts(mem.Length, blocks, addr);
      sizes.ApartFrom(earlier, r.value, newBytes, addr);
      Copy(mem, r.value, addr, oldBytes);
      StartsOnWord(sizes, wordBits, r.value, newBytes);
      freed := Release(Some(addr), oldBytes);
      assert blocks == (earlier - {addr})[r.value := newBytes];
      CleanGained(r.value, oldBytes, newBytes, clean);
      sizes.VacantWithout(earlier, addr, r.value, r.value + sizes.Footprint(newBytes));
      MoveResizes(before, earlier, addr, oldBytes, r.value, newBytes, clean);
    }
  
    /** How the mapping of a block that moved to the bitmap allocator is given up. */
    method GiveUp(addr: nat, oldBytes: nat, newBytes: nat, rule: GiveUpRule)
      returns (fault: bool, freed: Option<Freed>)
      requires Valid() && addr in blocks && blocks[addr] == oldBytes && !sizes.Small(oldBytes)
          && sizes.os.Fits(newBytes)
      modifies this`blocks
      ensures fault <==> rule.ByBmRelease?
      ensures !fault ==>
                Valid() && blocks == old(blocks) - {addr} && GivenBack(freed, addr, addr + sizes.Footprint(oldBytes))
    {
      hide Words.Pow2, RoundUp, UnitsOf, Sizes.Footprint, Sizes.Placed, Sizes.Small, Sizes.BlocksOk;
      sizes.PlacedFacts(mem.Length, blocks, addr);
      if rule.ByUnmap? {
        freed := Release(Some(addr), oldBytes);
        return false, freed;
      }
      MappingStartsPage(sizes, addr, oldBytes);
      var page := sizes.PageOf(addr);
      fault := BmRelease(page, (addr - page) / UNIT, sizes.Units(newBytes));
      freed := None;
    }

    /** A mapping that shrinks to a size of the bitmap allocator. As written, `bm_release` is called for the block,
        which is none of the bitmap allocator's. */
    method MoveToBitmap(addr: nat, oldBytes: nat, newBytes: nat, clean: bool, to: nat, rule: GiveUpRule)
      returns (fault: bool, freed: Option<Freed>)
      requires Valid() && addr in blocks && blocks[addr] == oldBytes && newBytes < oldBytes
      requires !sizes.Small(oldBytes) && sizes.Small(newBytes) && sizes.MayPut(mem.Length, blocks, to, newBytes)
      modifies this`blocks, mem
      ensures fault <==> rule.ByBmRelease?
      ensures !fault ==>
                && Valid() && to != addr && Resized(old(mem[..]), old(blocks), addr, oldBytes, to, newBytes, clean)
                && GivenBack(freed, addr, addr + sizes.Footprint(oldBytes))
    {
      hide Words.Pow2, RoundUp, UnitsOf, Sizes.Footprint, Sizes.Placed, Sizes.Small, Sizes.BlocksOk, Sizes.Vacant, Kept,
        Resized, Sizes.MayPut;
      ghost var before := mem[..];
      ghost var earlier := blocks;
      sizes.PlacedFacts(mem.Length, blocks, addr);
      sizes.PutKeeps(mem.Length, blocks, to, newBytes);
      sizes.ApartFrom(earlier, to, newBytes, addr);
      sizes.PlacedFacts(mem.Length, blocks[to := newBytes], to);
      blocks := blocks[to := newBytes];
      Copy(mem, to, addr, newBytes);
      fault, freed := GiveUp(addr, oldBytes, newBytes, rule);
      if fault {
        return;
      }
      assert blocks == (earlier - {addr})[to := newBytes];
      sizes.VacantWithout(earlier, addr, to, to + sizes.Footprint(newBytes));
      MoveResizes(before, earlier, addr, oldBytes, to, newBytes, clean);
    }

    /** `call_mremap`: the kernel's answer matters only when the mapping grows; a mapping that moves keeps its bytes,
        and one that shrinks gives back its last pages. */
    method CallMremap(addr: nat, oldBytes: nat, newBytes: nat, clean: bool, remapped: Option<nat>)
      returns (r: Option<nat>, freed: Option<Freed>)
      requires Valid() && sizes.Placed(addr, oldBytes) && !sizes.Small(oldBytes) && sizes.os.Fits(newBytes)
      requires addr + RoundUp(oldBytes, sizes.os.PageSize()) <= mem.Length
      requires var page := sizes.os.PageSize();
               RoundUp(oldBytes, page) < RoundUp(newBytes, page) && remapped.Some? ==>
                 && sizes.Placed(remapped.value, newBytes) && remapped.value + newBytes <= mem.Length
                 && (remapped.value == addr || remapped.value + newBytes <= addr || addr + oldBytes <= remapped.value)
      modifies mem
      ensures var page := sizes.os.PageSize();
              r == if RoundUp(oldBytes, page) < RoundUp(newBytes, page) then remapped else Some(addr)
      ensures r.None? || newBytes <= oldBytes ==> mem[..] == old(mem[..])
      ensures var page := sizes.os.PageSize();
              if newBytes <= oldBytes
              then GivenBack(freed, addr + RoundUp(newBytes, page), addr + RoundUp(oldBytes, page))
              else freed.None?
      ensures r.Some? ==>
                var to, n := r.value, Min(oldBytes, newBytes);
                && to + newBytes <= mem.Length && mem[to..to + n] == old(mem[addr..addr + n])
                && (clean ==> forall i | to + oldBytes <= i < to + newBytes :: mem[i] == 0)
                && Wrote(old(mem[..]), mem[..], to, to + newBytes)
    {
      hide Words.Pow2, RoundUp, UnitsOf, Sizes.BlocksOk, Sizes.Footprint, Sizes.Placed, Sizes.Small;
      StartsOnWord(sizes, wordBits, addr, oldBytes);
      PlacedFootprint(sizes, addr, oldBytes);
      var oldSize, newSize := sizes.WholePages(oldBytes), sizes.WholePages(newBytes);
      RoundUpMonotone(oldBytes, newBytes, sizes.os.PageSize());
      if newSize == oldSize {
        if newBytes > oldBytes {
          CleanGained(addr, oldBytes, newBytes, clean);
        }
        return Some(addr), None;
      }
      if newSize < oldSize {
        return Some(addr), Some(Mapping(addr + newSize, oldSize - newSize));
      }
      r, freed := remapped, None;
      if r.None? {
        return;
      }
      StartsOnWord(sizes, wordBits, r.value, newBytes);
      CarryOver(addr, oldBytes, r.value, newBytes, clean);
    }

    /** The bytes a block gained are cleaned if asked. */
    method CleanGained(addr: nat, oldBytes: nat, newBytes: nat, clean: bool)
      requires addr % Pow2(wordBits) == 0 && oldBytes <= newBytes && addr + newBytes <= mem.Length
      modifies mem
      ensures clean ==> forall i | addr + oldBytes <= i < addr + newBytes :: mem[i] == 0
      ensures mem[addr..addr + oldBytes] == old(mem[addr..addr + oldBytes])
      ensures Wrote(old(mem[..]), mem[..], addr, addr + newBytes)
    {
      if clean {
        Cleanse(mem, wordBits, addr, oldBytes, newBytes);
      }
    }

    /** The kernel keeps the bytes of a mapping that moves; the bytes gained are cleaned if asked. */
    method CarryOver(addr: nat, oldBytes: nat, to: nat, newBytes: nat, clean: bool)
      requires oldBytes <= newBytes && to + newBytes <= mem.Length && addr + oldBytes <= mem.Length
      requires to == addr || to + newBytes <= addr || addr + oldBytes <= to
      requires to % Pow2(wordBits) == 0
      modifies mem
      ensures mem[to..to + oldBytes] == old(mem[addr..addr + oldBytes])
      ensures clean ==> forall i | to + oldBytes <= i < to + newBytes :: mem[i] == 0
      ensures Wrote(old(mem[..]), mem[..], to, to + newBytes)
    {
      if to != addr {
        Copy(mem, to, addr, oldBytes);
      }
      CleanGained(to, oldBytes, newBytes, clean);
    }
  
    /** What `_reallocate` may be answered. */
    ghost predicate AnswersOk(addr: Option<nat>, oldBytes: nat, newBytes: nat, answers: Answers)
      reads this`blocks
    {
      && AllocateAnswersOk(newBytes, answers)
      && (addr.Some? ==>
            && (answers.extended && sizes.Small(oldBytes) && sizes.Small(newBytes) ==> RoomAt(addr.value, newBytes))
            && (answers.remapped.Some? && !sizes.Small(newBytes) ==>
                  if answers.remapped.value == addr.value then RoomAt(addr.value, newBytes)
                  else sizes.MayPut(mem.Length, blocks, answers.remapped.value, newBytes)))
    }

    /** The block at `addr` may grow in place. */
    ghost predicate RoomAt(addr: nat, n: nat)
      reads this`blocks
    {
      sizes.MayPut(mem.Length, blocks - {addr}, addr, n)
    }

    /** A mapping is resized to a size of the bitmap allocator. */
    ghost predicate Crosses(oldBytes: nat, newBytes: nat) {
      sizes.Small(newBytes) && !sizes.Small(oldBytes)
    }

    /** The block is unchanged, and nothing was to be done. */
    lemma KeptAsIs(addr: nat, n: nat, clean: bool)
      requires Valid() && addr in blocks && blocks[addr] == n
      ensures Resized(mem[..], blocks, addr, n, addr, n, clean)
    {
      sizes.PlacedFacts(mem.Length, blocks, addr);
      assert (blocks - {addr})[addr := n] == blocks;
    }

    /** The part of `_reallocate` for fewer units. */
    method Shrink(addr: nat, oldBytes: nat, newBytes: nat, clean: bool, small: Option<nat>, rule: GiveUpRule)
      returns (ok: bool, r: Option<nat>, changed: bool, fault: bool, freed: Option<Freed>)
      requires Valid() && addr in blocks && blocks[addr] == oldBytes && 0 < newBytes && sizes.os.Fits(newBytes)
      requires UnitsOf(newBytes) < UnitsOf(oldBytes) && newBytes < oldBytes
      requires sizes.Small(newBytes) && small.Some? ==> sizes.MayPut(mem.Length, blocks, small.value, newBytes)
      modifies this`blocks, mem
      ensures fault <==> Crosses(oldBytes, newBytes) && small.Some? && rule.ByBmRelease?
      ensures ok <==> !fault
      ensures !fault && Valid() <==> !(Crosses(oldBytes, newBytes) && (rule.ByBmRelease? || small.None?))
      ensures ok ==> r.Some? && Resized(old(mem[..]), old(blocks), addr, oldBytes, r.value, newBytes, clean)
      ensures ok ==> r == (if Crosses(oldBytes, newBytes) && small.Some? then small else Some(addr))
      ensures ok ==> (changed <==> r != Some(addr))
      ensures ok && changed ==> GivenBack(freed, addr, addr + sizes.Footprint(oldBytes))
      ensures ok && !changed && !Crosses(oldBytes, newBytes) ==>
                GivenBack(freed, addr + sizes.Footprint(newBytes), addr + sizes.Footprint(oldBytes))
      ensures ok && !changed && Crosses(oldBytes, newBytes) ==>
                var page := sizes.os.PageSize();
                GivenBack(freed, addr + RoundUp(newBytes, page), addr + RoundUp(oldBytes, page))
    {
      sizes.PlacedFacts(mem.Length, blocks, addr);
      sizes.FootprintGrows(newBytes, oldBytes);
      sizes.OthersElsewhere(mem.Length, blocks, addr);
      ShrunkPlacement(sizes, addr, oldBytes, newBytes);
      hide Words.Pow2, RoundUp, UnitsOf, Sizes.Footprint, Sizes.Placed, Sizes.BlocksOk, Kept, Resized;
      var page := sizes.PageOf(addr);
      if sizes.Units(newBytes) < sizes.MaxData() {
        if sizes.Units(oldBytes) < sizes.MaxData() {
          assert addr != page;
          freed := BmShrink(addr, page, oldBytes, newBytes);
          ResizeInPlace(addr, oldBytes, newBytes, clean);
          return true, Some(addr), false, false, freed;
        }
        assert addr == page;
        if small.Some? {
          fault, freed := MoveToBitmap(addr, oldBytes, newBytes, clean, small.value, rule);
          return !fault, small, true, fault, freed;
        }
      } else {
        assert addr == page;
      }
      RoundUpMonotone(newBytes, oldBytes, sizes.os.PageSize());
      PlacedFootprint(sizes, addr, oldBytes);
      var same;
      same, freed := CallMremap(addr, oldBytes, newBytes, false, None);
      if !sizes.Small(newBytes) { LargeFootprint(sizes, newBytes); }
      ResizeInPlace(addr, oldBytes, newBytes, clean);
      return true, Some(addr), false, false, freed;
    }

    /** `bm_shrink`: the units behind the smaller block. */
    method BmShrink(addr: nat, page: nat, oldBytes: nat, newBytes: nat) returns (freed: Option<Freed>)
      requires Valid() && sizes.Placed(addr, oldBytes) && sizes.Small(oldBytes) && sizes.Small(newBytes)
      requires page == addr - addr % sizes.os.PageSize() && sizes.os.Fits(newBytes)
      requires UnitsOf(newBytes) < UnitsOf(oldBytes)
      ensures GivenBack(freed, addr + sizes.Footprint(newBytes), addr + sizes.Footprint(oldBytes))
    {
      hide Words.Pow2, RoundUp, UnitsOf, Platform.PageSize;
      PlacedFootprint(sizes, addr, oldBytes);
      UnitsInPage(sizes, addr, oldBytes);
      var offset, oldUnits, newUnits := (addr - page) / UNIT, sizes.Units(oldBytes), sizes.Units(newBytes);
      freed := Some(PageUnits(page, offset + newUnits, oldUnits - newUnits));
    }

    /** A mapping grows through `mremap`. */
    method RemapUp(addr: nat, oldBytes: nat, newBytes: nat, clean: bool, answers: Answers) returns (r: Option<nat>)
      requires Valid() && addr in blocks && blocks[addr] == oldBytes && sizes.os.Fits(newBytes)
      requires oldBytes < newBytes && !sizes.Small(oldBytes) && !sizes.Small(newBytes)
      requires AnswersOk(Some(addr), oldBytes, newBytes, answers)
      modifies this`blocks, mem
      ensures Valid()
      ensures r == if RoundUp(oldBytes, sizes.os.PageSize()) == RoundUp(newBytes, sizes.os.PageSize()) then Some(addr)
                   else answers.remapped
      ensures r.None? ==> blocks == old(blocks) && mem[..] == old(mem[..])
      ensures r.Some? ==> Resized(old(mem[..]), old(blocks), addr, oldBytes, r.value, newBytes, clean)
    {
      hide Words.Pow2, RoundUp, UnitsOf, Sizes.BlocksOk, Sizes.Footprint, Sizes.Placed, Sizes.Small, Sizes.Vacant, Kept,
        Resized;
      sizes.PlacedFacts(mem.Length, blocks, addr);
      PlacedFootprint(sizes, addr, oldBytes);
      RemapRoom(addr, oldBytes, newBytes, answers);
      hide AnswersOk, AllocateAnswersOk;
      ghost var before, earlier := mem[..], blocks;
      var freed;
      r, freed := CallMremap(addr, oldBytes, newBytes, clean, answers.remapped);
      if r.None? {
        return;
      }
      sizes.RemoveKeeps(mem.Length, blocks, addr);
      sizes.PutKeeps(mem.Length, blocks - {addr}, r.value, newBytes);
      blocks := (blocks - {addr})[r.value := newBytes];
      MoveResizes(before, earlier, addr, oldBytes, r.value, newBytes, clean);
    }

    /** Where a mapping that grows ends up, there is room for it. */
    lemma RemapRoom(addr: nat, oldBytes: nat, newBytes: nat, answers: Answers)
      requires Valid() && addr in blocks && blocks[addr] == oldBytes && sizes.os.Fits(newBytes)
      requires oldBytes < newBytes && !sizes.Small(oldBytes) && !sizes.Small(newBytes)
      requires AnswersOk(Some(addr), oldBytes, newBytes, answers)
      ensures var page := sizes.os.PageSize();
              var to := if RoundUp(oldBytes, page) < RoundUp(newBytes, page) then answers.remapped else Some(addr);
              && RoundUp(oldBytes, page) <= RoundUp(newBytes, page)
              && (to.Some? ==>
                    && sizes.MayPut(mem.Length, blocks - {addr}, to.value, newBytes)
                        && to.value + newBytes <= mem.Length
                    && (to.value == addr || to.value + newBytes <= addr || addr + oldBytes <= to.value))
    {
      RoundUpMonotone(oldBytes, newBytes, sizes.os.PageSize());
      sizes.PlacedFacts(mem.Length, blocks, addr);
      sizes.FootprintCovers(newBytes);
      sizes.OthersElsewhere(mem.Length, blocks, addr);
      hide Words.Pow2, RoundUp, UnitsOf, Sizes.BlocksOk;
      if answers.remapped.Some? && answers.remapped.value != addr {
        sizes.ApartFrom(blocks, answers.remapped.value, newBytes, addr);
        sizes.VacantWithout(blocks, addr, answers.remapped.value, answers.remapped.value + sizes.Footprint(newBytes));
      }
    }

    /** The part of `_reallocate` for more units. */
    method Grow(addr: nat, oldBytes: nat, newBytes: nat, clean: bool, answers: Answers)
      returns (ok: bool, r: Option<nat>, changed: bool, freed: Option<Freed>)
      requires Valid() && addr in blocks && blocks[addr] == oldBytes && sizes.os.Fits(newBytes)
      requires UnitsOf(oldBytes) < UnitsOf(newBytes) && oldBytes < newBytes
      requires AnswersOk(Some(addr), oldBytes, newBytes, answers)
      modifies this`blocks, mem
      ensures Valid()
      ensures sizes.Small(newBytes) ==>
                && (ok <==> answers.extended || answers.small.Some?)
                && (ok ==> r == if answers.extended then Some(addr) else answers.small)
      ensures sizes.Small(oldBytes) && !sizes.Small(newBytes) ==>
                (ok <==> answers.mapped.Some?) && (ok ==> r == answers.mapped)
      ensures !sizes.Small(oldBytes) ==>
                var same := RoundUp(oldBytes, sizes.os.PageSize()) == RoundUp(newBytes, sizes.os.PageSize());
                && !sizes.Small(newBytes) && (ok <==> same || answers.remapped.Some?)
                && (ok ==> r == if same then Some(addr) else answers.remapped)
      ensures if ok && r != Some(addr) && sizes.Small(oldBytes)
              then GivenBack(freed, addr, addr + sizes.Footprint(oldBytes)) else freed.None?
      ensures !ok ==> r == Some(addr) && blocks == old(blocks) && mem[..] == old(mem[..])
      ensures ok ==> r.Some? && Resized(old(mem[..]), old(blocks), addr, oldBytes, r.value, newBytes, clean)
      ensures changed <==> r != Some(addr)
    {
      sizes.PlacedFacts(mem.Length, blocks, addr);
      hide Words.Pow2, RoundUp, UnitsOf, Sizes.Footprint, Sizes.BlocksOk, Sizes.Vacant, Kept, Resized;
      var page := sizes.PageOf(addr);
      if sizes.Units(oldBytes) < sizes.MaxData() {
        if sizes.Units(newBytes) < sizes.MaxData() {
          assert addr != page;
          if answers.extended {
            ResizeInPlace(addr, oldBytes, newBytes, clean);
            return true, Some(addr), false, None;
          }
        }
        r, freed := Move(addr, oldBytes, newBytes, clean, answers);
        if r.None? {
          return false, Some(addr), false, None;
        }
        return true, r, true, freed;
      }
      assert addr == page;
      r := RemapUp(addr, oldBytes, newBytes, clean, answers);
      if r.None? {
        return false, Some(addr), false, None;
      }
      return true, r, r.value != addr, None;
    }

    /** Growing in place is not possible, and the layer asked for other memory refuses. */
    ghost predicate Refused(oldBytes: nat, newBytes: nat, answers: Answers) {
      UnitsOf(oldBytes) < UnitsOf(newBytes) && !StaysPut(oldBytes, newBytes, answers)
          && Asked(oldBytes, newBytes, answers).None?
    }

    ghost predicate StaysPut(oldBytes: nat, newBytes: nat, answers: Answers) {
      if UnitsOf(newBytes) <= UnitsOf(oldBytes) then !(Crosses(oldBytes, newBytes) && answers.small.Some?)
      else if sizes.Small(oldBytes) then sizes.Small(newBytes) && answers.extended
      else RoundUp(oldBytes, sizes.os.PageSize()) == RoundUp(newBytes, sizes.os.PageSize())
    }

    ghost function Asked(oldBytes: nat, newBytes: nat, answers: Answers): Option<nat> {
      if sizes.Small(newBytes) then answers.small else if sizes.Small(oldBytes) then answers.mapped
      else answers.remapped
    }

    ghost predicate FreedRight(addr: nat, oldBytes: nat, newBytes: nat, changed: bool, freed: Option<Freed>) {
      var page := sizes.os.PageSize();
      if changed then
        if !sizes.Small(oldBytes) && !sizes.Small(newBytes) then freed.None?
        else GivenBack(freed, addr, addr + sizes.Footprint(oldBytes))
      else if oldBytes <= newBytes then freed.None?
      else if Crosses(oldBytes, newBytes) then
        GivenBack(freed, addr + RoundUp(newBytes, page), addr + RoundUp(oldBytes, page))
      else GivenBack(freed, addr + sizes.Footprint(newBytes), addr + sizes.Footprint(oldBytes))
    }

    /** The part of `_reallocate` for a block that changes its size. */
    method ResizeBlock(addr: nat, oldBytes: nat, newBytes: nat, clean: bool, answers: Answers, rule: GiveUpRule)
      returns (ok: bool, r: Option<nat>, changed: bool, fault: bool, freed: Option<Freed>)
      requires Valid() && addr in blocks && blocks[addr] == oldBytes && 0 < newBytes != oldBytes
          && sizes.os.Fits(newBytes)
      requires AnswersOk(Some(addr), oldBytes, newBytes, answers)
      modifies this`blocks, mem
      ensures fault <==> Crosses(oldBytes, newBytes) && answers.small.Some? && rule.ByBmRelease?
      ensures !fault && Valid() <==> !(Crosses(oldBytes, newBytes) && (rule.ByBmRelease? || answers.small.None?))
      ensures ok ==> r.Some? && Resized(old(mem[..]), old(blocks), addr, oldBytes, r.value, newBytes, clean)
      ensures !ok && !fault ==> r == Some(addr) && blocks == old(blocks) && mem[..] == old(mem[..])
      ensures !fault ==> (changed <==> r != Some(addr)) && (!ok <==> Refused(oldBytes, newBytes, answers))
      ensures ok ==>
                r == if StaysPut(oldBytes, newBytes, answers) then Some(addr) else Asked(oldBytes, newBytes, answers)
      ensures if ok then FreedRight(addr, oldBytes, newBytes, changed, freed) else !fault ==> freed.None?
    {
      hide Words.Pow2, RoundUp, UnitsOf, Sizes.Footprint, Sizes.Placed, Sizes.Vacant, Sizes.BlocksOk, Kept, Resized,
        Sizes.MayPut, RoomAt;
      var newUnits := sizes.Units(newBytes);
      sizes.PlacedFacts(mem.Length, blocks, addr);
      PlacedFootprint(sizes, addr, oldBytes);
      var oldUnits := sizes.Units(oldBytes);
      if newUnits == oldUnits {
        SamePlacement(sizes, addr, oldBytes, newBytes);
        sizes.OthersElsewhere(mem.Length, blocks, addr);
        ResizeInPlace(addr, oldBytes, newBytes, clean);
        sizes.SameUnits(oldBytes, newBytes);
        return true, Some(addr), false, false, None;
      }
      sizes.FootprintGrows(Min(oldBytes, newBytes), Max(oldBytes, newBytes));
      if newUnits < oldUnits {
        ok, r, changed, fault, freed := Shrink(addr, oldBytes, newBytes, clean, answers.small, rule);
      } else {
        ok, r, changed, freed := Grow(addr, oldBytes, newBytes, clean, answers);
        fault := false;
      }
    }

    /** `_reallocate`. The block keeps its bytes on every path; the heap stays in order, with page-aligned addresses
        exactly for the blocks that are not from the bitmap allocator, unless a mapping crosses over to the bitmap
        allocator: as written never then, as meant only when the bitmap allocator refuses and the block stays. It fails
        only for more units, when the block cannot grow where it is and the one layer that is asked refuses. What the
        block no longer takes is given back: all of it when it moved, else what is behind its new end. */
    method Reallocate(addr: Option<nat>, oldBytes: nat, newBytes: nat, clean: bool, answers: Answers, rule: GiveUpRule)
      returns (ok: bool, r: Option<nat>, changed: bool, fault: bool, freed: Option<Freed>)
      requires Valid() && sizes.os.Fits(newBytes) && AnswersOk(addr, oldBytes, newBytes, answers)
      requires addr.Some? ==> addr.value in blocks && blocks[addr.value] == oldBytes && 0 < newBytes
      modifies this`blocks, mem
      ensures fault <==> addr.Some? && Crosses(oldBytes, newBytes) && answers.small.Some? && rule.ByBmRelease?
      ensures !fault && Valid() <==>
                !(addr.Some? && Crosses(oldBytes, newBytes) && (rule.ByBmRelease? || answers.small.None?))
      ensures ok && addr.Some? ==>
                r.Some? && Resized(old(mem[..]), old(blocks), addr.value, oldBytes, r.value, newBytes, clean)
      ensures ok && addr.None? && oldBytes != newBytes ==>
                && r.Some? && r.value !in old(blocks) && blocks == old(blocks)[r.value := newBytes]
                && Kept(old(mem[..]), mem[..], old(blocks))
                && r.value + newBytes <= mem.Length
                && (clean ==> forall i | r.value <= i < r.value + newBytes :: mem[i] == 0)
      ensures (!ok && !fault) || (addr.None? && oldBytes == newBytes) ==>
                r == addr && blocks == old(blocks) && mem[..] == old(mem[..])
      ensures !fault ==> (changed <==> r != addr)
      ensures addr.Some? && !fault ==>
                (!ok <==>
                 && UnitsOf(oldBytes) < UnitsOf(newBytes)
                 && if sizes.Small(newBytes) then !answers.extended && answers.small.None?
                    else if sizes.Small(oldBytes) then answers.mapped.None?
                    else
                      && RoundUp(oldBytes, sizes.os.PageSize()) != RoundUp(newBytes, sizes.os.PageSize())
                      && answers.remapped.None?)
      ensures addr.Some? && ok && UnitsOf(newBytes) <= UnitsOf(oldBytes) ==>
                r == if sizes.Small(newBytes) && !sizes.Small(oldBytes) && answers.small.Some? then answers.small
                     else addr
      ensures addr.Some? && ok && UnitsOf(oldBytes) < UnitsOf(newBytes) ==>
                if sizes.Small(newBytes) then r == if answers.extended then addr else answers.small
                else if sizes.Small(oldBytes) then r == answers.mapped
                else if RoundUp(oldBytes, sizes.os.PageSize()) == RoundUp(newBytes, sizes.os.PageSize()) then r == addr
                else r == answers.remapped
      ensures addr.None? && oldBytes != newBytes ==>
                (ok <==> oldBytes == 0 && if sizes.Small(newBytes) then answers.small.Some? else answers.mapped.Some?)
      ensures addr.Some? && ok && changed && (sizes.Small(oldBytes) || sizes.Small(newBytes)) ==>
                GivenBack(freed, addr.value, addr.value + sizes.Footprint(oldBytes))
      ensures addr.Some? && ok && !changed && newBytes < oldBytes ==>
                if sizes.Small(oldBytes) || !sizes.Small(newBytes)
                then GivenBack(freed, addr.value + sizes.Footprint(newBytes), addr.value + sizes.Footprint(oldBytes))
                else
                  var page := sizes.os.PageSize();
                  GivenBack(freed, addr.value + RoundUp(newBytes, page), addr.value + RoundUp(oldBytes, page))
      ensures addr.None? || (!ok && !fault) || (!changed && !fault && oldBytes <= newBytes) ==> freed.None?
      ensures changed && !sizes.Small(oldBytes) && !sizes.Small(newBytes) ==> freed.None?
    {
      hide Words.Pow2, RoundUp, UnitsOf, Sizes.Footprint, Sizes.Placed, Sizes.Vacant, Sizes.BlocksOk, Kept, Resized;
      if oldBytes == newBytes {
        if addr.Some? { KeptAsIs(addr.value, oldBytes, clean); }
        return true, addr, false, false, None;
      }
      if addr.None? {
        if oldBytes != 0 {
          return false, addr, false, false, None;
        }
        r := Allocate(newBytes, clean, answers);
        return r.Some?, r, r.Some?, false, None;
      }
      ok, r, changed, fault, freed := ResizeBlock(addr.value, oldBytes, newBytes, clean, answers, rule);
    }
  }

  /** Pages of 4096 bytes with four reserved units, and 64-bit pointers. */
  function CommonSizes(): Sizes { Sizes(Platform(32, 12), 64, 4) }

  lemma CommonSizesValid()
    ensures CommonSizes().Valid() && 16384 <= Pow2(64) && CommonSizes().os.PageSize() == 4096
    ensures 4096 + 4096 <= Pow2(32)
    ensures CommonSizes().Small(16) && !CommonSizes().Small(4096)
    ensures CommonSizes().Footprint(16) == 16 && CommonSizes().Footprint(4096) == 4096
  {
    assert Pow2(12) == 4096 && Pow2(14) == 16384;
    Pow2Monotone(14, 32);
    Pow2Monotone(14, 64);
    hide Words.Pow2;
    UnitsCover(16);
    UnitsCover(4096);
  }

  /** Shrinking 4096 bytes to 16 as written, whatever the bitmap allocator answers: either `bm_release` follows a
      client's bytes, or the block stays where the next call takes it for a mapping. */
  method ShrinkThatCrosses(refused: bool) returns (heap: Heap, fault: bool)
    ensures fault <==> !refused
    ensures !fault ==> !heap.Valid() && heap.blocks == map[4096 := 16]
  {
    CommonSizesValid();
    hide Words.Pow2, RoundUp, UnitsOf, Sizes.Footprint, Sizes.Small, Kept, Sizes.Valid;
    var mem := new Byte[16384];
    heap := new Heap(CommonSizes(), 3, mem);
    var addr := heap.Allocate(4096, false, Answers(None, Some(4096), false, None));
    assert heap.AnswersOk(addr, 4096, 16, Answers(Some(8256), None, false, None)) by { SmallFits(heap); }
    var small := if refused then None else Some(8256);
    var ok, r, changed, freed;
    var answers := Answers(small, None, false, None);
    ok, r, changed, fault, freed := heap.Reallocate(addr, 4096, 16, false, answers, ByBmRelease);
  }

  /** Behind the block at 4096 there is room on the next page. */
  lemma SmallFits(heap: Heap)
    requires heap.sizes == CommonSizes() && heap.blocks == map[4096 := 4096] && heap.mem.Length == 16384
    ensures heap.sizes.MayPut(16384, heap.blocks, 8256, 16)
  {
    CommonSizesValid();
    hide Words.Pow2, RoundUp, UnitsOf, Sizes.Footprint, Sizes.Small;
  }

  lemma StartsOnWord(sizes: Sizes, wordBits: nat, addr: nat, n: nat)
    requires sizes.Valid() && wordBits <= 4 && sizes.Placed(addr, n)
    ensures addr % Pow2(wordBits) == 0
  {
    assert Pow2(4) == UNIT;
    if !sizes.Small(n) { MultipleOfSmallerPower(sizes.os.pageBits, 4, addr); }
    MultipleOfSmallerPower(4, wordBits, addr);
  }

  /** The unit numbers of a bitmap block. */
  lemma UnitsInPage(sizes: Sizes, addr: nat, n: nat)
    requires sizes.Valid() && sizes.Placed(addr, n)
    ensures sizes.Small(n) <==> addr % sizes.os.PageSize() != 0
    ensures sizes.Small(n) ==>
              var page := addr - addr % sizes.os.PageSize();
              var offset := (addr - page) / UNIT;
              && page % sizes.os.PageSize() == 0 && page + offset * UNIT == addr
              && sizes.header <= offset && offset + UnitsOf(n) <= sizes.os.PageSize() / UNIT
  {
    hide Words.Pow2, RoundUp, UnitsOf;
    var p := sizes.os.PageSize();
    PageStart(addr, p);
    if sizes.Small(n) {
      PageOffset(addr, p);
      InUnits(addr % p, sizes.header, UnitsOf(n), p);
    }
  }

  lemma MappingStartsPage(sizes: Sizes, addr: nat, n: nat)
    requires sizes.Placed(addr, n) && !sizes.Small(n)
    ensures addr % sizes.os.PageSize() == 0 && sizes.os.Fits(n)
  {
  }

  /** The reserved units tell whose block it is. */
  lemma OffsetTells(sizes: Sizes, page: nat, offset: nat, n: nat)
    requires sizes.Valid() && sizes.Placed(page + offset * UNIT, n)
    requires page % sizes.os.PageSize() == 0 && offset < sizes.os.PageSize() / UNIT
    ensures offset < sizes.header <==> !sizes.Small(n)
  {
    hide Words.Pow2, RoundUp, UnitsOf, Sizes.Footprint;
    ModOfOffset(page, sizes.os.PageSize(), offset * UNIT);
  }

  lemma PageStart(addr: nat, p: nat)
    requires 0 < p
    ensures addr % p <= addr && (addr - addr % p) % p == 0
  {
    ModUnique(addr - addr % p, p, addr / p, 0);
  }

  lemma InUnits(x: nat, header: nat, units: nat, p: nat)
    requires x % UNIT == 0 && p % UNIT == 0 && header * UNIT <= x && x + units * UNIT <= p
    ensures (x / UNIT) * UNIT == x && header <= x / UNIT && x / UNIT + units <= p / UNIT
  {
  }

  lemma PageOffset(addr: nat, p: nat)
    requires 0 < p && p % UNIT == 0 && addr % UNIT == 0
    ensures (addr % p) % UNIT == 0
  {
    var q := addr / p;
    assert addr == p * q + addr % p;
    MultipleIsProduct(p, UNIT);
    MultipleIsProduct(addr, UNIT);
    assert p * q == UNIT * ((p / UNIT) * q);
    ModUnique(addr % p, UNIT, addr / UNIT - (p / UNIT) * q, 0);
  }

  lemma SamePlacement(sizes: Sizes, addr: nat, m: nat, n: nat)
    requires sizes.Valid() && sizes.Placed(addr, m) && UnitsOf(m) == UnitsOf(n) && 0 < n && sizes.os.Fits(n)
    ensures sizes.Placed(addr, n) && (sizes.Small(m) <==> sizes.Small(n)) && sizes.Footprint(m) == sizes.Footprint(n)
  {
    sizes.SameUnits(m, n);
  }

  lemma LargeFootprint(sizes: Sizes, n: nat)
    requires !sizes.Small(n)
    ensures sizes.Footprint(n) == RoundUp(n, sizes.os.PageSize())
  {
  }

  lemma PlacedFootprint(sizes: Sizes, addr: nat, n: nat)
    requires sizes.Placed(addr, n)
    ensures sizes.os.Fits(n)
    ensures sizes.Footprint(n) == if sizes.Small(n) then UnitsOf(n) * UNIT else RoundUp(n, sizes.os.PageSize())
  {
  }

  /** Fewer units in the same place: still well placed, except when a mapping becomes a small block. */
  lemma ShrunkPlacement(sizes: Sizes, addr: nat, oldBytes: nat, newBytes: nat)
    requires sizes.Valid() && sizes.Placed(addr, oldBytes) && 0 < newBytes < oldBytes
    ensures addr % sizes.os.PageSize() == 0 <==> !sizes.Small(oldBytes)
    ensures sizes.Placed(addr, newBytes) <==> !(sizes.Small(newBytes) && !sizes.Small(oldBytes))
  {
    sizes.FootprintGrows(newBytes, oldBytes);
    hide Words.Pow2, RoundUp, UnitsOf;
  }

  lemma RoundUpMonotone(m: nat, n: nat, p: nat)
    requires 0 < p
    ensures m <= n ==> RoundUp(m, p) <= RoundUp(n, p)
    ensures n <= m ==> RoundUp(n, p) <= RoundUp(m, p)
  {
    if m <= n { RoundUpIsLeast(m, p, RoundUp(n, p)); }
    if n <= m { RoundUpIsLeast(n, p, RoundUp(m, p)); }
  }
}
