/**
 FAT entries in the sectors of the file allocation tables: two or four bytes, the lowest first.
 */
module FatBytes {
  import opened Arithmetic
  import opened Bytes
  import opened FatChains

  function EntrySize(kind: Kind): nat {
    if kind.Fat32? then 4 else 2
  }

  /** FF_getShort, or FF_getLong without its upper four bits */
  function Decode(kind: Kind, x: seq<byte>): nat
    requires |x| == EntrySize(kind)
  {
    var low: nat := x[0] as nat + 0x100 * x[1] as nat;
    if kind.Fat32? then (low + 0x1_0000 * x[2] as nat + 0x100_0000 * x[3] as nat) % 0x1000_0000 else low
  }

  /** The part of a value that an entry holds */
  function Held(kind: Kind, value: nat): (v: nat)
    ensures v < Modulus(kind)
  {
    value % Modulus(kind)
  }

  lemma HeldEndMark(kind: Kind)
    ensures Held(kind, 0xFFFF_FFFF) == EndMark(kind) && Held(kind, 0) == 0
    ensures forall v :: 0 <= v < Modulus(kind) ==> Held(kind, v) == v
  {
  }

  /** FF_putShort, or FF_putLong of a value without its upper four bits */
  function Encode(kind: Kind, value: nat): (x: seq<byte>)
    ensures |x| == EntrySize(kind)
  {
    var v := Held(kind, value);
    [v % 0x100, v / 0x100 % 0x100]
    + if kind.Fat32? then [v / 0x100 / 0x100 % 0x100, v / 0x100 / 0x100 / 0x100 % 0x100] else []
  }

  lemma Digits(v: nat)
    ensures v < 0x1_0000 ==> v % 0x100 + 0x100 * (v / 0x100 % 0x100) == v
    ensures v < 0x1000_0000 ==>
      v % 0x100 + 0x100 * (v / 0x100 % 0x100) + 0x1_0000 * (v / 0x100 / 0x100 % 0x100)
      + 0x100_0000 * (v / 0x100 / 0x100 / 0x100 % 0x100) == v
  {
    var a, b := v / 0x100, v / 0x100 / 0x100;
    var c := b / 0x100;
    assert v == 0x100 * a + v % 0x100 && a == 0x100 * b + a % 0x100 && b == 0x100 * c + b % 0x100;
  }

  lemma DecodeEncode(kind: Kind, value: nat)
    ensures Decode(kind, Encode(kind, value)) == Held(kind, value)
  {
    hide Held;
    var v, x := Held(kind, value), Encode(kind, value);
    Digits(v);
    if kind.Fat32? {
      assert x == [v % 0x100, v / 0x100 % 0x100, v / 0x100 / 0x100 % 0x100, v / 0x100 / 0x100 / 0x100 % 0x100];
    } else {
      assert x == [v % 0x100, v / 0x100 % 0x100];
    }
  }

  /** Where the bytes of a value go: the lowest first, without its upper four bits in the last of four */
  lemma EncodeBytes(kind: Kind, value: nat)
    ensures var x := Encode(kind, value);
      && x[0] == value % 0x100 && x[1] == value / 0x100 % 0x100
      && (kind.Fat32? ==> x[2] == value / 0x1_0000 % 0x100 && x[3] == value / 0x100_0000 % 0x10)
  {
    LowDigits(value);
  }

  lemma LowDigits(value: nat)
    ensures var v := value % 0x1_0000; v % 0x100 == value % 0x100 && v / 0x100 % 0x100 == value / 0x100 % 0x100
    ensures var v := value % 0x1000_0000;
      && v % 0x100 == value % 0x100 && v / 0x100 % 0x100 == value / 0x100 % 0x100
      && v / 0x100 / 0x100 % 0x100 == value / 0x1_0000 % 0x100
      && v / 0x100 / 0x100 / 0x100 % 0x100 == value / 0x100_0000 % 0x10
  {
    LowDigit(value, 0x100);
    LowDigit(value, 0x10_0000);
    LowDigit(value / 0x100, 0x1000);
    LowDigit(value / 0x100 / 0x100, 0x10);
    assert value / 0x100 / 0x100 == value / 0x1_0000 && value / 0x1_0000 / 0x100 == value / 0x100_0000;
  }

  lemma LowDigit(value: nat, m: nat)
    requires 0 < m
    ensures value % (0x100 * m) % 0x100 == value % 0x100 && value % (0x100 * m) / 0x100 == value / 0x100 % m
  {
    var a, r := value / 0x100, value % 0x100;
    var q, s := a / m, a % m;
    assert value == q * (0x100 * m) + (0x100 * s + r) by {
      assert q * (0x100 * m) == 0x100 * (q * m);
    }
    Divides(q, 0x100 * s + r, 0x100 * m);
    Divides(s, r, 0x100);
  }

  lemma EntryBytes(kind: Kind, bytes: seq<byte>, at: nat, entry: nat)
    requires HasEntry(kind, bytes, at, entry)
    ensures kind.Fat16? ==> at + 2 <= |bytes| && entry == bytes[at] as nat + 0x100 * bytes[at + 1] as nat
    ensures kind.Fat32? ==>
      && at + 4 <= |bytes|
      && entry == (bytes[at] as nat + 0x100 * bytes[at + 1] as nat + 0x1_0000 * bytes[at + 2] as nat
                   + 0x100_0000 * bytes[at + 3] as nat) % 0x1000_0000
  {
  }

  /** Where copy `k` of the table starts */
  ghost function Start(k: nat, perCopy: nat): nat {
    k * perCopy
  }

  /** The byte at place `j` of copy `k` */
  ghost function ByteOf(bytes: seq<byte>, perCopy: nat, k: nat, j: nat): nat {
    if Start(k, perCopy) + j < |bytes| then bytes[Start(k, perCopy) + j] else 0
  }

  /** The bytes `x` stand at their place in the first `n` copies, and all else is as it was before. */
  ghost predicate Put(before: seq<byte>, bytes: seq<byte>, copies: nat, perCopy: nat, offset: nat, x: seq<byte>,
                      n: nat) {
    forall k: nat, j: nat :: k < copies && j < perCopy ==>
      ByteOf(bytes, perCopy, k, j) ==
        if k < n && offset <= j < offset + |x| then x[j - offset] else ByteOf(before, perCopy, k, j)
  }

  lemma NothingPut(bytes: seq<byte>, copies: nat, perCopy: nat, offset: nat, x: seq<byte>)
    ensures Put(bytes, bytes, copies, perCopy, offset, x, 0)
  {
  }

  lemma PutNext(before: seq<byte>, bytes: seq<byte>, copies: nat, perCopy: nat, offset: nat, x: seq<byte>, n: nat)
    requires Put(before, bytes, copies, perCopy, offset, x, n)
    requires n < copies && |bytes| == copies * perCopy && offset + |x| <= perCopy
    ensures n * perCopy + offset + |x| <= |bytes|
    ensures Put(before, Splice(bytes, n * perCopy + offset, x), copies, perCopy, offset, x, n + 1)
  {
    hide ByteOf, Splice;
    CopiesApart(n, copies, perCopy);
    var after := Splice(bytes, n * perCopy + offset, x);
    forall k: nat, j: nat | k < copies && j < perCopy
      ensures ByteOf(after, perCopy, k, j) ==
        if k < n + 1 && offset <= j < offset + |x| then x[j - offset] else ByteOf(before, perCopy, k, j)
    {
      PutByte(bytes, copies, perCopy, n, offset, x, k, j);
    }
  }

  lemma PutElsewhere(before: seq<byte>, bytes: seq<byte>, copies: nat, perCopy: nat, offset: nat, x: seq<byte>)
    requires Put(before, bytes, copies, perCopy, offset, x, copies)
    ensures forall k: nat, j: nat :: k < copies && j < perCopy && (j < offset || offset + |x| <= j) ==>
      ByteOf(bytes, perCopy, k, j) == ByteOf(before, perCopy, k, j)
  {
    hide ByteOf;
  }

  lemma PutMeans(kind: Kind, before: seq<byte>, bytes: seq<byte>, copies: nat, perCopy: nat, offset: nat, value: nat,
                 k: nat)
    requires Put(before, bytes, copies, perCopy, offset, Encode(kind, value), copies) && k < copies
    requires |bytes| == copies * perCopy && offset + EntrySize(kind) <= perCopy
    ensures var at := k * perCopy + offset;
      && at + EntrySize(kind) <= |bytes|
      && bytes[at] == value % 0x100 && bytes[at + 1] == value / 0x100 % 0x100
      && (kind.Fat32? ==> bytes[at + 2] == value / 0x1_0000 % 0x100 && bytes[at + 3] == value / 0x100_0000 % 0x10)
  {
    hide Encode, Put;
    var x := Encode(kind, value);
    EncodeBytes(kind, value);
    PutAt(before, bytes, copies, perCopy, offset, x, k, 0);
    PutAt(before, bytes, copies, perCopy, offset, x, k, 1);
    if kind.Fat32? {
      PutAt(before, bytes, copies, perCopy, offset, x, k, 2);
      PutAt(before, bytes, copies, perCopy, offset, x, k, 3);
    }
  }

  lemma PutAt(before: seq<byte>, bytes: seq<byte>, copies: nat, perCopy: nat, offset: nat, x: seq<byte>, k: nat, i: nat)
    requires Put(before, bytes, copies, perCopy, offset, x, copies) && k < copies && i < |x|
    requires |bytes| == copies * perCopy && offset + |x| <= perCopy
    ensures k * perCopy + offset + |x| <= |bytes| && bytes[k * perCopy + offset + i] == x[i]
  {
    CopiesApart(k, copies, perCopy);
    assert ByteOf(bytes, perCopy, k, offset + i) == x[i];
  }

  lemma PutByte(bytes: seq<byte>, copies: nat, perCopy: nat, n: nat, offset: nat, x: seq<byte>, k: nat, j: nat)
    requires n < copies && |bytes| == Start(copies, perCopy) && offset + |x| <= perCopy && k < copies && j < perCopy
    requires Start(n, perCopy) + offset + |x| <= |bytes|
    ensures ByteOf(Splice(bytes, Start(n, perCopy) + offset, x), perCopy, k, j) ==
      if k == n && offset <= j < offset + |x| then x[j - offset] else ByteOf(bytes, perCopy, k, j)
  {
    hide Start, Splice;
    StartsApart(k, n, perCopy);
    StartsApart(k, copies, perCopy);
    PutByteAt(bytes, Start(k, perCopy), Start(n, perCopy), perCopy, offset, x, k == n, j);
  }

  lemma StartsApart(j: nat, k: nat, perCopy: nat)
    ensures j < k ==> Start(j, perCopy) + perCopy <= Start(k, perCopy)
    ensures k < j ==> Start(k, perCopy) + perCopy <= Start(j, perCopy)
  {
    CopiesApart(j, k, perCopy);
  }

  lemma PutByteAt(bytes: seq<byte>, here: nat, there: nat, perCopy: nat, offset: nat, x: seq<byte>, same: bool, j: nat)
    requires there + offset + |x| <= |bytes| && here + j < |bytes| && offset + |x| <= perCopy && j < perCopy
    requires if same then here == there else here + perCopy <= there || there + perCopy <= here
    ensures |Splice(bytes, there + offset, x)| == |bytes|
    ensures Splice(bytes, there + offset, x)[here + j] ==
      if same && offset <= j < offset + |x| then x[j - offset] else bytes[here + j]
  {
    hide Splice;
    SpliceAt(bytes, there + offset, x, here + j);
  }

  lemma SpliceAt(bytes: seq<byte>, at: nat, x: seq<byte>, i: nat)
    requires at + |x| <= |bytes| && i < |bytes|
    ensures |Splice(bytes, at, x)| == |bytes|
    ensures Splice(bytes, at, x)[i] == if at <= i < at + |x| then x[i - at] else bytes[i]
  {
  }

  ghost predicate HasEntry(kind: Kind, bytes: seq<byte>, at: nat, entry: nat) {
    at + EntrySize(kind) <= |bytes| && Decode(kind, bytes[at..at + EntrySize(kind)]) == entry
  }

  /** The copy of the table that starts at byte `start` */
  ghost predicate Copy(kind: Kind, bytes: seq<byte>, start: nat, table: seq<nat>) {
    forall c :: 0 <= c < |table| ==> HasEntry(kind, bytes, start + c * EntrySize(kind), table[c])
  }

  /** All the copies of the table on the disk agree. */
  ghost predicate Mirrored(kind: Kind, bytes: seq<byte>, copies: nat, perCopy: nat, table: seq<nat>) {
    && |bytes| == copies * perCopy && |table| * EntrySize(kind) == perCopy
    && forall k :: 0 <= k < copies ==> Copy(kind, bytes, k * perCopy, table)
  }

  lemma PutEntry(kind: Kind, bytes: seq<byte>, at: nat, value: nat, other: nat, entry: nat)
    requires at + EntrySize(kind) <= |bytes|
    ensures HasEntry(kind, Splice(bytes, at, Encode(kind, value)), at, Held(kind, value))
    ensures HasEntry(kind, bytes, other, entry) && (other + EntrySize(kind) <= at || at + EntrySize(kind) <= other) ==>
      HasEntry(kind, Splice(bytes, at, Encode(kind, value)), other, entry)
  {
    hide Decode, Encode, Splice, Held;
    DecodeEncode(kind, value);
    SpliceThere(bytes, at, Encode(kind, value));
    if HasEntry(kind, bytes, other, entry) && (other + EntrySize(kind) <= at || at + EntrySize(kind) <= other) {
      SpliceElsewhere(bytes, at, Encode(kind, value), other, EntrySize(kind));
    }
  }

  /** A write to one copy of the table changes that entry there. */
  lemma PutCopy(kind: Kind, bytes: seq<byte>, start: nat, table: seq<nat>, c: nat, value: nat)
    requires Copy(kind, bytes, start, table) && c < |table|
    ensures start + c * EntrySize(kind) + EntrySize(kind) <= |bytes|
    ensures Copy(kind, Splice(bytes, start + c * EntrySize(kind), Encode(kind, value)), start,
                 table[c := Held(kind, value)])
  {
    hide Decode, Encode, Splice, HasEntry, Held;
    var at := start + c * EntrySize(kind);
    Inside(kind, bytes, at, table[c]);
    forall d | 0 <= d < |table|
      ensures HasEntry(kind, Splice(bytes, at, Encode(kind, value)), start + d * EntrySize(kind),
                       table[c := Held(kind, value)][d])
    {
      PutEntry(kind, bytes, at, value, start + d * EntrySize(kind), table[d]);
    }
  }

  lemma SameEntry(kind: Kind, bytes: seq<byte>, at: nat, entry: nat, other: nat)
    requires HasEntry(kind, bytes, at, entry) && HasEntry(kind, bytes, at, other)
    ensures entry == other
  {
    hide Decode;
  }

  lemma Inside(kind: Kind, bytes: seq<byte>, at: nat, entry: nat)
    requires HasEntry(kind, bytes, at, entry)
    ensures at + EntrySize(kind) <= |bytes|
  {
  }

  lemma PutOtherCopy(kind: Kind, bytes: seq<byte>, start: nat, table: seq<nat>, at: nat, value: nat)
    requires Copy(kind, bytes, start, table) && at + EntrySize(kind) <= |bytes|
    requires at + EntrySize(kind) <= start || start + |table| * EntrySize(kind) <= at
    ensures Copy(kind, Splice(bytes, at, Encode(kind, value)), start, table)
  {
    hide Decode, Encode, Splice, HasEntry, Held;
    forall d | 0 <= d < |table|
      ensures HasEntry(kind, Splice(bytes, at, Encode(kind, value)), start + d * EntrySize(kind), table[d])
    {
      PutEntry(kind, bytes, at, value, start + d * EntrySize(kind), table[d]);
    }
  }

  /** The first `n` copies have been written. */
  ghost predicate PartlyWritten(kind: Kind, bytes: seq<byte>, copies: nat, perCopy: nat, table: seq<nat>,
                                after: seq<nat>, n: nat) {
    && |bytes| == copies * perCopy && |table| * EntrySize(kind) == perCopy
    && forall k :: 0 <= k < copies ==> Copy(kind, bytes, k * perCopy, if k < n then after else table)
  }

  lemma WriteNext(kind: Kind, bytes: seq<byte>, copies: nat, perCopy: nat, table: seq<nat>, c: nat, value: nat, n: nat)
    requires c < |table| && n < copies
    requires PartlyWritten(kind, bytes, copies, perCopy, table, table[c := Held(kind, value)], n)
    ensures n * perCopy + c * EntrySize(kind) + EntrySize(kind) <= |bytes|
    ensures |bytes| == copies * perCopy && c * EntrySize(kind) + EntrySize(kind) <= perCopy
    ensures PartlyWritten(kind, Splice(bytes, n * perCopy + c * EntrySize(kind), Encode(kind, value)), copies, perCopy,
                          table, table[c := Held(kind, value)], n + 1)
  {
    hide Copy, Encode, Splice, Held;
    CopiesApart(c, |table|, EntrySize(kind));
    var at := n * perCopy + c * EntrySize(kind);
    assert Copy(kind, bytes, n * perCopy, table);
    PutCopy(kind, bytes, n * perCopy, table, c, value);
    SpliceThere(bytes, at, Encode(kind, value));
    forall k | 0 <= k < copies
      ensures Copy(kind, Splice(bytes, at, Encode(kind, value)), k * perCopy,
                   if k < n + 1 then table[c := Held(kind, value)] else table)
    {
      if k != n {
        CopiesApart(k, n, perCopy);
        PutOtherCopy(kind, bytes, k * perCopy, if k < n then table[c := Held(kind, value)] else table, at, value);
      }
    }
  }

  lemma Writing(kind: Kind, bytes: seq<byte>, copies: nat, perCopy: nat, table: seq<nat>, after: seq<nat>)
    requires |after| == |table|
    ensures Mirrored(kind, bytes, copies, perCopy, table) ==>
      PartlyWritten(kind, bytes, copies, perCopy, table, after, 0)
    ensures PartlyWritten(kind, bytes, copies, perCopy, table, after, copies) ==>
      Mirrored(kind, bytes, copies, perCopy, after)
  {
    hide Copy;
  }

  lemma CopiesApart(j: nat, k: nat, perCopy: nat)
    ensures j < k ==> j * perCopy + perCopy <= k * perCopy
    ensures k < j ==> k * perCopy + perCopy <= j * perCopy
  {
    Spread(j, k - j, perCopy);
    AtLeastOnce(k - j, perCopy);
    Spread(k, j - k, perCopy);
    AtLeastOnce(j - k, perCopy);
  }

  lemma SplitBy(e: nat, n: nat) returns (a: nat, b: nat)
    requires 0 < n
    ensures e == a * n + b && b < n
  {
    a, b := e / n, e % n;
  }

  lemma InSectors(a: nat, b: nat, perSector: nat, size: nat)
    ensures (a * perSector + b) * size == a * (size * perSector) + b * size
    ensures size * perSector == b * size + (perSector - b) * size
  {
  }

  /** The sector of an entry and the place in that sector */
  lemma SectorOf(offset: nat, size: nat, perSector: nat, sector: nat)
    requires 0 < size && 0 < perSector && sector == size * perSector && offset % size == 0
    ensures 0 < sector && offset / sector * sector + offset % sector == offset
    ensures offset % sector + size <= sector
  {
    var a, b := SplitBy(offset / size, perSector);
    InSectors(a, b, perSector, size);
    AtLeastOnce(perSector - b, size);
    Quotient(offset, a, b * size, sector);
  }

  lemma Quotient(k: nat, q: nat, r: nat, length: nat)
    requires r < length && k == q * length + r
    ensures k / length * length + k % length == k && k % length == r
  {
    Divides(q, r, length);
  }
}
