/**
 Bytes in memory.
 */
module Bytes {
  type byte = n: nat | n < 256

  /** memcpy to a byte address */
  function Splice(bytes: seq<byte>, offset: nat, x: seq<byte>): seq<byte>
    requires offset + |x| <= |bytes|
  {
    bytes[..offset] + x + bytes[offset + |x|..]
  }

  /** What lies wholly before or behind the place is as it was. */
  lemma SpliceElsewhere(bytes: seq<byte>, offset: nat, x: seq<byte>, at: nat, n: nat)
    requires offset + |x| <= |bytes| && at + n <= |bytes| && (at + n <= offset || offset + |x| <= at)
    ensures |Splice(bytes, offset, x)| == |bytes| && Splice(bytes, offset, x)[at..at + n] == bytes[at..at + n]
  {
  }

  lemma SpliceThere(bytes: seq<byte>, offset: nat, x: seq<byte>)
    requires offset + |x| <= |bytes|
    ensures |Splice(bytes, offset, x)| == |bytes| && Splice(bytes, offset, x)[offset..offset + |x|] == x
  {
  }

  lemma SpliceTwice(bytes: seq<byte>, offset: nat, x: seq<byte>, y: seq<byte>)
    requires offset + |x| + |y| <= |bytes|
    ensures Splice(Splice(bytes, offset, x), offset + |x|, y) == Splice(bytes, offset, x + y)
  {
  }

  lemma SpliceNothing(bytes: seq<byte>, offset: nat)
    requires offset <= |bytes|
    ensures Splice(bytes, offset, []) == bytes
  {
  }

  method Memcpy(buffer: array<byte>, offset: nat, x: seq<byte>)
    requires offset + |x| <= buffer.Length
    modifies buffer
    ensures buffer[..] == Splice(old(buffer[..]), offset, x)
    ensures buffer[offset..offset + |x|] == x
    ensures buffer[..offset] == old(buffer[..offset]) && buffer[offset + |x|..] == old(buffer[offset + |x|..])
  {
    for i := 0 to |x|
      invariant buffer[..offset] == old(buffer[..offset]) && buffer[offset..offset + i] == x[..i]
      invariant buffer[offset + i..] == old(buffer[offset + i..])
    {
      buffer[offset + i] := x[i];
    }
    assert buffer[..] == buffer[..offset] + buffer[offset..offset + |x|] + buffer[offset + |x|..];
  }
}
