/** Bytes in memory, as `memcpy`, `memmove` and `mremap` leave them. */
module Memory {
  import opened Common

  /** The bytes after `item` was stored at `at`. */
  function Stored(bytes: seq<Byte>, at: nat, item: seq<Byte>): seq<Byte>
    requires at + |item| <= |bytes|
  {
    bytes[..at] + item + bytes[at + |item|..]
  }

  /** `memcpy` into a buffer. */
  method Store(data: array<Byte>, at: nat, bytes: seq<Byte>)
    requires at + |bytes| <= data.Length
    modifies data
    ensures data[..] == Stored(old(data[..]), at, bytes)
  {
    forall i | 0 <= i < |bytes| { data[at + i] := bytes[i]; }
  }

  /** `memmove` within a buffer: all bytes are read before any is written. */
  method Move(data: array<Byte>, from: nat, to: nat, n: nat)
    requires from + n <= data.Length && to + n <= data.Length
    modifies data
    ensures data[..] == Stored(old(data[..]), to, old(data[from..from + n]))
  {
    forall i | 0 <= i < n { data[to + i] := data[from + i]; }
  }

  /** `mremap`: the common prefix survives, the rest is whatever the system provides. */
  method Remap(data: array<Byte>, newSize: nat) returns (r: array<Byte>)
    ensures fresh(r) && r.Length == newSize
    ensures r[..Min(data.Length, newSize)] == data[..Min(data.Length, newSize)]
  {
    r := new Byte[newSize](i requires 0 <= i reads data => if i < data.Length then data[i] else 0);
  }
}
