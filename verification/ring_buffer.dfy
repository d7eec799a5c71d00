/** The byte ring buffer: wraparound writes and reads, page-granular grow and shrink. */
module RingBuffers {
  import opened Common
  import opened Memory
  import opened Words
  import opened Alignment

  /** How far `shrink_ringbuffer` moves the upper data down: as written by the most that could be
      returned, as meant by what is returned. */
  datatype ShiftRule = ByShrinkable | ByReturned

  /** The queued bytes, oldest first. */
  function Queued(data: seq<Byte>, head: nat, tail: nat): (q: seq<Byte>)
    requires head < |data| && tail < |data|
    ensures |q| == if head <= tail then tail - head else |data| - head + tail
  {
    if head <= tail then data[head..tail] else data[head..] + data[..tail]
  }

  /** `n` bytes on from `at`, around the end of the buffer. */
  function Ahead(at: nat, n: nat, size: nat): nat
    requires at < size && n <= size
  {
    if at + n < size then at + n else at + n - size
  }

  class RingBuffer {
    const os: Platform
    var data: array<Byte>
    var size: nat
    var head: nat
    var tail: nat
    ghost var accepted: seq<Byte>    // every byte ever written
    ghost var delivered: seq<Byte>   // every byte ever read

    /** The buffer is whole pages, and both cursors are inside it. */
    ghost predicate Shape()
      reads this, data
    {
      && os.Valid() && os.Fits(size)
      && size == data.Length && 0 < size && size % os.PageSize() == 0
      && head < size && tail < size
    }

    /** The bytes read are a prefix of the bytes accepted; the rest is queued. */
    ghost predicate Valid()
      reads this, data
    {
      Shape() && accepted == delivered + Contents()
    }

    ghost function Contents(): seq<Byte>
      requires head < data.Length && tail < data.Length
      reads this, data
    {
      Queued(data[..], head, tail)
    }

    /** The page-rounded request, at least one page. */
    function Request(newSize: nat): (r: nat)
      requires os.Valid() && os.Fits(newSize)
      ensures r == Max(RoundUp(newSize, os.PageSize()), os.PageSize())
      ensures r % os.PageSize() == 0 && 0 < r
    {
      SizesOfPages(newSize, os.PageSize());
      var r := os.AlignToPage(newSize);
      if r == 0 then os.PageSize() else r
    }

    constructor (os: Platform, newSize: nat)
      requires os.Valid() && os.Fits(newSize) && os.Fits(Max(RoundUp(newSize, os.PageSize()), os.PageSize()))
      ensures Valid() && fresh(data) && Contents() == [] && accepted == [] && this.os == os
      ensures size == Max(RoundUp(newSize, os.PageSize()), os.PageSize()) && head == 0 && tail == 0
    {
      SizesOfPages(newSize, os.PageSize());
      var r := os.AlignToPage(newSize);
      if r == 0 {
        r := os.PageSize();
      }
      this.os := os;
      size, head, tail := r, 0, 0;
      data := new Byte[r];
      accepted, delivered := [], [];
    }

    method Write(bytes: seq<Byte>) returns (ok: bool)
      requires Valid()
      modifies this`tail, this`accepted, data
      ensures Valid()
      ensures ok <==> |old(Contents())| + |bytes| < size
      ensures Contents() == if ok then old(Contents()) + bytes else old(Contents())
      ensures tail == if ok then Ahead(old(tail), |bytes|, size) else old(tail)
    {
      var tailLen, available;
      if head > tail {
        tailLen := head - tail;
        available := tailLen;
      } else {
        tailLen := size - tail;
        available := head + tailLen;
      }
      hide Words.Pow2;
      if |bytes| >= available {
        return false;
      }
      ConcatAssociates(delivered, Contents(), bytes);
      if |bytes| < tailLen {
        PutStraight(bytes);
      } else {
        PutWrapped(bytes, tailLen);
      }
      accepted := accepted + bytes;
      return true;
    }

    /** The tail does not wrap. */
    method PutStraight(bytes: seq<Byte>)
      requires Shape() && |bytes| < if head > tail then head - tail else size - tail
      modifies this`tail, data
      ensures Shape() && Contents() == old(Contents()) + bytes && tail == old(tail) + |bytes|
    {
      hide Words.Pow2, Queued;
      AppendStraight(data[..], head, tail, bytes);
      Store(data, tail, bytes);
      tail := tail + |bytes|;
    }

    /** The tail wraps around. */
    method PutWrapped(bytes: seq<Byte>, tailLen: nat)
      requires Shape() && head <= tail && tailLen == size - tail && tailLen <= |bytes| < head + tailLen
      modifies this`tail, data
      ensures Shape() && Contents() == old(Contents()) + bytes && tail == |bytes| - tailLen
    {
      hide Words.Pow2, Queued, Stored, Platform.Valid, Platform.Fits;
      AppendWrapped(data[..], head, tail, bytes);
      Store(data, tail, bytes[..tailLen]);
      var headLen := |bytes| - tailLen;
      if headLen != 0 {
        Store(data, 0, bytes[tailLen..]);
      }
      tail := headLen;
    }

    /** The intended read: the upper part ends at `size`, and `head` advances by what was copied. */
    method Read(bufferSize: nat) returns (out: seq<Byte>)
      requires Valid()
      modifies this`head, this`delivered
      ensures Valid()
      ensures out == old(Contents())[..Min(bufferSize, |old(Contents())|)]
      ensures old(Contents()) == out + Contents() && |out| <= size && head == Ahead(old(head), |out|, size)
    {
      hide Words.Pow2;
      out := Take(bufferSize);
      ConcatAssociates(delivered, out, Contents());
      delivered := delivered + out;
    }

    method Take(bufferSize: nat) returns (out: seq<Byte>)
      requires Shape()
      modifies this`head
      ensures Shape()
      ensures out == old(Contents())[..Min(bufferSize, |old(Contents())|)]
      ensures old(Contents()) == out + Contents() && |out| <= size && head == Ahead(old(head), |out|, size)
    {
      hide Words.Pow2, Queued, Platform.Valid, Platform.Fits;
      ghost var n := Min(bufferSize, |Contents()|);
      TakeFront(data[..], head, tail, n);
      if head == tail {
        return [];
      }
      if head < tail {
        var len := if tail - head <= bufferSize then tail - head else bufferSize;
        out := data[head..head + len];
        head := head + len;
      } else {
        out := TakeWrapped(bufferSize);
      }
    }

    /** The queue wraps: first the part up to the end of the buffer, then the part at its start. */
    method TakeWrapped(bufferSize: nat) returns (out: seq<Byte>)
      requires tail < head < size == data.Length
      modifies this`head
      ensures |out| == Min(bufferSize, size - old(head) + tail)
      ensures |out| <= size && head == Ahead(old(head), |out|, size)
      ensures out ==
              if old(head) + |out| <= size then data[old(head)..old(head) + |out|] else data[old(head)..] + data[..head]
    {
      var upperLen := size - head;
      if bufferSize <= upperLen {
        out := data[head..head + bufferSize];
        head := if bufferSize == upperLen then 0 else head + bufferSize;
      } else {
        var rest := bufferSize - upperLen;
        var lowerLen := if tail < rest then tail else rest;
        out := data[head..head + upperLen] + data[..lowerLen];
        head := lowerLen;
      }
    }

    /** The read as written. `fault` is set when it copies from beyond the end of the buffer. Exactly when the
        queued bytes wrap around it goes wrong, whatever the buffer size: it copies from beyond the end if more is asked
        for than is stored up to there, and otherwise moves the head beyond the end. */
    method ReadAsWritten(bufferSize: nat) returns (out: seq<Byte>, fault: bool)
      requires Valid()
      modifies this
      ensures !fault && Valid() && out == old(Contents())[..Min(bufferSize, |old(Contents())|)]
              <==> old(head) <= old(tail)
      ensures fault <==> old(head) > old(tail) && bufferSize > size - old(head)
      ensures !fault ==> out == old(Contents())[..Min(bufferSize, |old(Contents())|)]
      ensures !fault && old(head) > old(tail) ==> size < head == old(head) + (size - old(tail))
      ensures size == old(size) && tail == old(tail) && data == old(data) && data[..] == old(data[..])
    {
      hide Words.Pow2;
      out, fault := [], false;
      ghost var before := Contents();
      if head == tail {
        return;
      }
      if head < tail {
        var len := if tail - head <= bufferSize then tail - head else bufferSize;
        out, fault := CopyOut(head, len);
        head := head + len;
        assert before == out + Contents();
      } else {
        out, fault := ReadWrapped(bufferSize);
      }
      delivered := delivered + out;
    }

    /** The lines for data that wraps, as written. */
    method ReadWrapped(bufferSize: nat) returns (out: seq<Byte>, fault: bool)
      requires Shape() && tail < head
      modifies this`head
      ensures fault <==> bufferSize > size - old(head)
      ensures !fault ==> out == data[old(head)..old(head) + bufferSize] == old(Contents())[..bufferSize]
      ensures !fault ==> size < head == old(head) + (size - tail)
    {
      var upperLen := size - tail;
      if bufferSize <= upperLen {
        out, fault := CopyOut(head, bufferSize);
        head := if bufferSize == upperLen then 0 else head + upperLen;
      } else {
        out, fault := CopyOut(head, upperLen);
        var rest := bufferSize - upperLen;
        var lowerLen := if tail < rest then tail else rest;
        out := out + data[..lowerLen];
        head := lowerLen;
      }
    }

    /** `memcpy` out of the buffer; `fault` tells that it ran past the end. */
    method CopyOut(from: nat, n: nat) returns (out: seq<Byte>, fault: bool)
      ensures fault <==> data.Length < from + n
      ensures !fault ==> out == data[from..from + n]
    {
      fault := data.Length < from + n;
      out := if fault then [] else data[from..from + n];
    }

    /** Growing keeps the queue; without a mapping from the system it changes nothing. */
    method Grow(request: nat, canMap: bool) returns (ok: bool)
      requires Valid() && os.Fits(request) && os.Fits(Max(RoundUp(request, os.PageSize()), os.PageSize()))
      modifies this`data, this`size, this`head, data
      ensures Valid() && Contents() == old(Contents())
      ensures ok <==> canMap || Max(RoundUp(request, os.PageSize()), os.PageSize()) <= old(size)
      ensures size == if ok then Max(old(size), Max(RoundUp(request, os.PageSize()), os.PageSize())) else old(size)
    {
      var newSize := Request(request);
      if newSize <= size {
        return true;
      }
      if !canMap {
        return false;
      }
      GrowTo(newSize);
      return true;
    }

    method GrowTo(newSize: nat)
      requires Shape() && size < newSize && os.Fits(newSize) && newSize % os.PageSize() == 0
      modifies this`data, this`size, this`head, data
      ensures Shape() && Contents() == old(Contents()) && size == newSize
    {
      hide Words.Pow2, Queued;
      ghost var was := data[..];
      data := Remap(data, newSize);
      if head > tail {
        var offset := newSize - size;
        GrowKeepsQueue(was, data[..], head, tail, offset);
        Move(data, head, head + offset, size - head);
        head := head + offset;
      } else {
        GrowKeepsQueue(was, data[..], head, tail, 0);
      }
      size := newSize;
    }

    /** The least whole number of pages that holds the queue and one byte more. */
    ghost function Fit(): nat
      requires Shape()
      reads this, data
    {
      RoundUp(|Contents()| + 1, os.PageSize())
    }

    /** The request that makes the as-written shift of wrapped data go too far: more than the data needs. */
    ghost predicate ShiftsTooFar(newSize: nat)
      requires Shape()
      reads this, data
    {
      head > tail && Fit() < newSize < size
    }

    /** Shrinking ends at the request or at what the queue needs, whichever is more, and keeps the queue; the
        as-written shift does so exactly when it does not move wrapped data too far. */
    method Shrink(request: nat, rule: ShiftRule)
      requires Valid() && os.Fits(request) && os.Fits(Max(RoundUp(request, os.PageSize()), os.PageSize()))
      modifies this`data, this`size, this`head, this`tail, data
      ensures Shape()
      ensures size == (var r := Max(RoundUp(request, os.PageSize()), os.PageSize());
                       if r < old(size) then Max(r, old(Fit())) else old(size))
      ensures Contents() == old(Contents()) <==>
              rule.ByReturned? || !old(ShiftsTooFar(Max(RoundUp(request, os.PageSize()), os.PageSize())))
      ensures Valid() <==> Contents() == old(Contents())
    {
      var newSize := Request(request);
      if newSize >= size {
        return;
      }
      ghost var before := Contents();
      ShrinkTo(newSize, rule);
      ConcatCancels(delivered, before, Contents());
    }

    method ShrinkTo(newSize: nat, rule: ShiftRule)
      requires Shape() && os.PageSize() <= newSize < size && newSize % os.PageSize() == 0
      modifies this`data, this`size, this`head, this`tail, data
      ensures Shape() && size == Max(newSize, old(Fit()))
      ensures Contents() == old(Contents()) <==> rule.ByReturned? || !old(ShiftsTooFar(newSize))
    {
      var shrinkable := Shrinkable();
      hide Words.Pow2, Queued, RoundUp;
      if shrinkable == 0 {
        return;
      }
      var final := Max(newSize, size - shrinkable);
      if head == tail {
        head, tail := 0, 0;
        Truncate(final);
      } else if head > tail {
        ShrinkWrapped(if rule.ByShrinkable? then shrinkable else size - final, final);
      } else {
        ShrinkStraight(final);
      }
    }

    /** The whole pages that the queue, and one byte more, leave free. */
    method Shrinkable() returns (n: nat)
      requires Shape()
      ensures n == size - Fit() && os.PageSize() <= Fit() && |Contents()| < Fit() && Fit() % os.PageSize() == 0
      ensures os.Fits(Fit())
    {
      ghost var needed := |Contents()| + 1;
      RoundingMeets(size, needed, os.PageSize());
      FitsBelow(size, needed, os.PageSize());
      hide Words.Pow2, Queued, RoundUp;
      if head == tail {
        n := size - os.PageSize();
      } else if head > tail {
        n := os.DownToPage(head - tail - 1);
      } else {
        n := os.DownToPage(head + size - tail - 1);
      }
    }

    /** `mremap` to a smaller buffer. */
    method Truncate(newSize: nat)
      requires head < newSize <= size == data.Length && tail < newSize
      modifies this`data, this`size
      ensures fresh(data) && size == data.Length == newSize && data[..] == old(data[..])[..newSize]
    {
      data := Remap(data, newSize);
      size := newSize;
    }

    /** The queue wraps: the upper data moves down by `shift`. */
    method ShrinkWrapped(shift: nat, newSize: nat)
      requires size == data.Length && tail < head < size && shift < head - tail && size - shift <= newSize <= size
      modifies this`data, this`size, this`head, data
      ensures size == data.Length == newSize && head < size
      ensures Contents() == old(Contents()) <==> shift == old(size) - newSize
    {
      hide Queued;
      ShrinkKeepsWrapped(data[..], head, tail, shift, newSize);
      Move(data, head, head - shift, size - head);
      head := head - shift;
      Truncate(newSize);
    }

    /** The queue does not wrap: it moves to the start of the buffer. */
    method ShrinkStraight(newSize: nat)
      requires size == data.Length && head < tail < size && tail - head < newSize <= size
      modifies this`data, this`size, this`head, this`tail, data
      ensures size == data.Length == newSize && head < size && tail < size
      ensures Contents() == old(Contents())
    {
      ghost var was := data[..];
      if head != 0 {
        Move(data, head, 0, tail - head);
        tail := tail - head;
        head := 0;
      }
      Truncate(newSize);
      assert data[..][..tail] == was[old(head)..old(tail)];
    }
  }

  lemma ShrinkKeepsWrapped(was: seq<Byte>, head: nat, tail: nat, shift: nat, newSize: nat)
    requires tail < head < |was| && shift < head - tail && |was| - shift <= newSize <= |was|
    ensures var n := |was| - head;
            var data := Stored(was, head - shift, was[head..head + n])[..newSize];
            Queued(data, head - shift, tail) == Queued(was, head, tail) <==> shift == |was| - newSize
  {
    var n := |was| - head;
    var data := Stored(was, head - shift, was[head..head + n])[..newSize];
    if shift == |was| - newSize {
      assert data[head - shift..] == was[head..];
      assert data[..tail] == was[..tail];
    } else {
      assert |data[head - shift..]| != |was[head..]|;
    }
  }

  /** Moving the upper data to the end of the grown buffer keeps the queue. */
  lemma GrowKeepsQueue(was: seq<Byte>, data: seq<Byte>, head: nat, tail: nat, offset: nat)
    requires head < |was| && tail < |was| && |was| + offset <= |data| && data[..|was|] == was
    requires head > tail ==> |data| == |was| + offset
    ensures head <= tail ==> Queued(data, head, tail) == Queued(was, head, tail)
    ensures head > tail ==>
              Queued(Stored(data, head + offset, data[head..|was|]), head + offset, tail) == Queued(was, head, tail)
  {
  }

  lemma FitsBelow(size: nat, needed: nat, p: nat)
    requires 0 < p && size % p == 0 && 0 < needed <= size
    ensures p <= RoundUp(needed, p) <= size && RoundUp(needed, p) % p == 0
    ensures needed == 1 ==> RoundUp(needed, p) == p
  {
    SizesOfPages(needed, p);
    RoundUpIsLeast(needed, p, size);
    RoundUpIsLeast(1, p, p);
  }

  lemma ConcatAssociates(a: seq<Byte>, b: seq<Byte>, c: seq<Byte>)
    ensures (a + b) + c == a + (b + c)
  {
  }

  lemma ConcatCancels(a: seq<Byte>, b: seq<Byte>, c: seq<Byte>)
    ensures a + b == a + c <==> b == c
  {
    if a + b == a + c { assert (a + b)[|a|..] == b && (a + c)[|a|..] == c; }
  }

  /** Writing below the end of the free space, without wrapping, appends to the queue. */
  lemma AppendStraight(data: seq<Byte>, head: nat, tail: nat, bytes: seq<Byte>)
    requires head < |data| && tail < |data|
    requires |bytes| < if head > tail then head - tail else |data| - tail
    ensures Queued(Stored(data, tail, bytes), head, tail + |bytes|) ==
            Queued(data, head, tail) + bytes
  {
    if head <= tail { AppendsToSlice(data, head, tail, bytes); } else { AppendsBelow(data, head, tail, bytes); }
  }

  lemma AppendsToSlice(data: seq<Byte>, head: nat, tail: nat, bytes: seq<Byte>)
    requires head <= tail && tail + |bytes| <= |data|
    ensures Stored(data, tail, bytes)[head..tail + |bytes|] == data[head..tail] + bytes
  {
    assert Stored(data, tail, bytes)[head..tail + |bytes|] == (data[..tail] + bytes)[head..];
  }

  lemma AppendsBelow(data: seq<Byte>, head: nat, tail: nat, bytes: seq<Byte>)
    requires tail + |bytes| <= head <= |data|
    ensures Stored(data, tail, bytes)[head..] == data[head..]
    ensures Stored(data, tail, bytes)[..tail + |bytes|] == data[..tail] + bytes
  {
  }

  lemma StoredAtEnd(data: seq<Byte>, at: nat, item: seq<Byte>, from: nat)
    requires from <= at && at + |item| == |data|
    ensures Stored(data, at, item)[from..] == data[from..at] + item
  {
  }

  lemma StoredAtStart(data: seq<Byte>, item: seq<Byte>, from: nat)
    requires |item| <= from <= |data|
    ensures Stored(data, 0, item)[from..] == data[from..] && Stored(data, 0, item)[..|item|] == item
  {
  }

  /** Writing up to the end and going on at the start appends to the queue. */
  lemma AppendWrapped(data: seq<Byte>, head: nat, tail: nat, bytes: seq<Byte>)
    requires head <= tail < |data| && |data| - tail <= |bytes| < head + |data| - tail
    ensures var k := |data| - tail;
            var upper := Stored(data, tail, bytes[..k]);
            && |upper| == |data| && (k == |bytes| ==> Queued(upper, head, 0) == Queued(data, head, tail) + bytes)
            && Queued(Stored(upper, 0, bytes[k..]), head, |bytes| - k) == Queued(data, head, tail) + bytes
  {
    var k := |data| - tail;
    var upper := Stored(data, tail, bytes[..k]);
    StoredAtEnd(data, tail, bytes[..k], head);
    StoredAtStart(upper, bytes[k..], head);
    SplitAgain(data[head..tail], bytes, k);
    if k == |bytes| { assert upper[..0] == bytes[k..] == []; }
    hide Stored;
  }

  lemma SplitAgain(a: seq<Byte>, b: seq<Byte>, k: nat)
    requires k <= |b|
    ensures a + b[..k] + b[k..] == a + b
  {
  }

  /** Taking `n` bytes from the front moves the head, past the end of the buffer if need be. */
  lemma TakeFront(data: seq<Byte>, head: nat, tail: nat, n: nat)
    requires head < |data| && tail < |data| && n <= |Queued(data, head, tail)|
    ensures var h, queue := Ahead(head, n, |data|), Queued(data, head, tail);
            && queue == queue[..n] + Queued(data, h, tail)
            && queue[..n] == if head + n <= |data| then data[head..head + n] else data[head..] + data[..h]
  {
    var h, queue := Ahead(head, n, |data|), Queued(data, head, tail);
    assert queue[n..] == Queued(data, h, tail);
  }

  lemma SizesOfPages(n: nat, p: nat)
    requires 0 < p
    ensures p % p == 0
    ensures RoundUp(n, p) == 0 || p <= RoundUp(n, p)
  {
    ModUnique(p, p, 1, 0);
    SmallMod(0, p);
    var r := RoundUp(n, p);
    if 0 < r { MultiplesApart(0, r, p); }
  }

  lemma FourKilobytePages()
    ensures var os := Platform(32, 12); os.Valid() && os.PageSize() == 4096 && os.Fits(12288)
  {
    assert Pow2(12) == 4096 && Pow2(13) == 8192 && Pow2(16) == 65536;
    Pow2Monotone(16, 32);
  }

  /** A queue of 200 bytes that wraps in a buffer of one page: reading it as written goes wrong. */
  method ReadThatFails(bufferSize: nat) returns (ring: RingBuffer, ghost queue: seq<Byte>, out: seq<Byte>, fault: bool)
    ensures |queue| == 200 && !(!fault && ring.Valid() && out == queue[..Min(bufferSize, 200)])
  {
    FourKilobytePages();
    RoundUpIsLeast(4096, 4096, 4096);
    hide Words.Pow2, Queued, Platform.Valid, Platform.Fits, RoundUp;
    ring := new RingBuffer(Platform(32, 12), 4096);
    var ok := ring.Write(seq(4000, _ => 0 as Byte));
    var first := ring.Read(4000);
    ok := ring.Write(seq(200, _ => 1 as Byte));
    queue := ring.Contents();
    out, fault := ring.ReadAsWritten(bufferSize);
  }

  /** A queue of 400 bytes that wraps in a buffer of three pages: shrinking to two pages as written loses it. */
  method ShrinkThatFails() returns (ring: RingBuffer, ghost queue: seq<Byte>)
    ensures ring.Shape() && |queue| == 400 && ring.Contents() != queue
  {
    FourKilobytePages();
    hide Words.Pow2, Queued, Platform.Valid, Platform.Fits, RoundUp;
    RoundUpIsLeast(12288, 4096, 12288);
    RoundUpIsLeast(8192, 4096, 8192);
    RoundUpIsLeast(401, 4096, 4096);
    ring := new RingBuffer(Platform(32, 12), 12288);
    var ok := ring.Write(seq(12200, _ => 0 as Byte));
    var first := ring.Read(12000);
    ok := ring.Write(seq(200, _ => 1 as Byte));
    queue := ring.Contents();
    ring.Shrink(8192, ByShrinkable);
  }
}
