/**
 Long file names in directory entries, ff_dir.c with plain 8-bit names: a name is cut into pieces of thirteen
 characters, which are stored in entries before the short entry, the last piece first.
 */
module LongNames {
  import opened Arithmetic
  import opened Bytes

  const ENTRY_SIZE: nat := 32
  const MAX_FILENAME: nat := 250
  const ATTR_LFN: byte := 0x0F
  const LFN_NAME_1: nat := 0x01
  const DIRENT_ATTRIB: nat := 0x0B
  const LFN_CHECKSUM: nat := 0x0D
  const LFN_NAME_2: nat := 0x0E
  const LFN_NAME_3: nat := 0x1C

  type Entry = x: seq<byte> | |x| == 32 witness seq(32, _ => 0)

  /** Where the character `j` of a piece lies in its entry; each takes two bytes. */
  function UnitPosition(j: nat): (p: nat)
    ensures j < 13 ==> p + 1 < ENTRY_SIZE
  {
    if j < 5 then LFN_NAME_1 + 2 * j else if j < 11 then LFN_NAME_2 + 2 * (j - 5) else LFN_NAME_3 + 2 * (j - 11)
  }

  /** The low byte of the unit `j` when the piece has `length` characters: they are ended by zero, then come ones. */
  function Unit(piece: seq<byte>, j: nat): byte {
    if j < |piece| then piece[j] else if j == |piece| then 0 else 0xFF
  }

  ghost predicate HoldsPiece(e: seq<byte>, piece: seq<byte>, ord: byte, sum: byte) {
    && |e| == ENTRY_SIZE && e[0] == ord && e[DIRENT_ATTRIB] == ATTR_LFN && e[LFN_CHECKSUM] == sum
    && e[0x0C] == 0 && e[0x1A] == 0 && e[0x1B] == 0
    && (forall j :: 0 <= j < 13 ==> e[UnitPosition(j)] == Unit(piece, j))
    && (forall j :: 0 <= j < 13 ==> e[UnitPosition(j) + 1] == if j <= |piece| then 0 else 0xFF)
  }

  /** Byte `p` of the entry has the unit `j`. */
  ghost predicate HasUnit(e: seq<byte>, piece: seq<byte>, j: nat, p: nat) {
    p + 1 < |e| && e[p] == Unit(piece, j) && e[p + 1] == if j <= |piece| then 0 else 0xFF
  }

  /** The units `first` to `last` lie from byte `position` on. */
  ghost predicate UnitAt(e: seq<byte>, piece: seq<byte>, first: nat, j: nat, position: nat) {
    first <= j && HasUnit(e, piece, j, position + 2 * (j - first))
  }

  ghost predicate HoldsUnits(e: seq<byte>, piece: seq<byte>, first: nat, last: nat, position: nat) {
    && |e| == ENTRY_SIZE && first <= last && position + 2 * (last - first) <= ENTRY_SIZE
    && forall j :: first <= j < last ==> UnitAt(e, piece, first, j, position)
  }

  lemma NoUnits(e: seq<byte>, piece: seq<byte>, first: nat, position: nat)
    requires |e| == ENTRY_SIZE && position <= ENTRY_SIZE
    ensures HoldsUnits(e, piece, first, first, position)
  {
  }

  lemma UnitsNext(e: seq<byte>, f: seq<byte>, piece: seq<byte>, first: nat, index: nat, position: nat)
    requires HoldsUnits(e, piece, first, index, position) && |f| == |e|
    requires var x := position + 2 * (index - first);
      && x + 1 < |f| && f[..x] == e[..x]
      && f[x] == Unit(piece, index) && f[x + 1] == if index <= |piece| then 0 else 0xFF
    ensures HoldsUnits(f, piece, first, index + 1, position)
  {
    hide Unit;
    forall j | first <= j < index + 1 ensures UnitAt(f, piece, first, j, position) {
      var p, x := position + 2 * (j - first), position + 2 * (index - first);
      if j < index {
        assert UnitAt(e, piece, first, j, position);
        assert e[..x][p] == f[..x][p] && e[..x][p + 1] == f[..x][p + 1];
      }
    }
  }

  lemma UnitsKept(e: seq<byte>, f: seq<byte>, piece: seq<byte>, first: nat, last: nat, position: nat)
    requires HoldsUnits(e, piece, first, last, position) && |f| == |e|
    requires forall p :: position <= p < position + 2 * (last - first) ==> f[p] == e[p]
    ensures HoldsUnits(f, piece, first, last, position)
  {
    hide Unit;
    forall j | first <= j < last ensures UnitAt(f, piece, first, j, position) {
      var p := position + 2 * (j - first);
      assert UnitAt(e, piece, first, j, position);
      assert f[p] == e[p] && f[p + 1] == e[p + 1];
    }
  }

  lemma ThreeParts(e: seq<byte>, piece: seq<byte>)
    requires HoldsUnits(e, piece, 0, 5, LFN_NAME_1) && HoldsUnits(e, piece, 5, 11, LFN_NAME_2)
    requires HoldsUnits(e, piece, 11, 13, LFN_NAME_3)
    ensures forall j :: 0 <= j < 13 ==> e[UnitPosition(j)] == Unit(piece, j)
    ensures forall j :: 0 <= j < 13 ==> e[UnitPosition(j) + 1] == if j <= |piece| then 0 else 0xFF
  {
    forall j | 0 <= j < 13
      ensures e[UnitPosition(j)] == Unit(piece, j) && e[UnitPosition(j) + 1] == if j <= |piece| then 0 else 0xFF
    {
      if j < 5 {
        assert UnitAt(e, piece, 0, j, LFN_NAME_1);
      } else if j < 11 {
        assert UnitAt(e, piece, 5, j, LFN_NAME_2);
      } else {
        assert UnitAt(e, piece, 11, j, LFN_NAME_3);
      }
    }
  }

  /** One of the three loops of FF_CreateLFNEntry, for the units `first` to `last` from byte `position` on */
  method WriteUnits(buffer: array<byte>, piece: seq<byte>, first: nat, last: nat, position: nat)
    requires buffer.Length == ENTRY_SIZE && first <= last <= 13 && position + 2 * (last - first) <= ENTRY_SIZE
    requires forall p :: position <= p < position + 2 * (last - first) ==> buffer[p] == 0
    modifies buffer
    ensures HoldsUnits(buffer[..], piece, first, last, position)
    ensures forall p :: 0 <= p < ENTRY_SIZE && !(position <= p < position + 2 * (last - first)) ==>
      buffer[p] == old(buffer[p])
  {
    hide HoldsUnits;
    var index, x := first, position;
    NoUnits(buffer[..], piece, first, position);
    while index < last
      invariant first <= index <= last && x == position + 2 * (index - first)
      invariant HoldsUnits(buffer[..], piece, first, index, position)
      invariant forall p :: x <= p < position + 2 * (last - first) ==> buffer[p] == 0
      invariant forall p :: 0 <= p < ENTRY_SIZE && !(position <= p < position + 2 * (last - first)) ==>
        buffer[p] == old(buffer[p])
    {
      ghost var before := buffer[..];
      if index < |piece| {
        buffer[x] := piece[index];
      } else if index > |piece| {
        buffer[x], buffer[x + 1] := 0xFF, 0xFF;
      }
      UnitsNext(before, buffer[..], piece, first, index, position);
      index, x := index + 1, x + 2;
    }
  }

  /** FF_CreateLFNEntry */
  method CreateLFNEntry(piece: seq<byte>, lfn: byte, checkSum: byte) returns (entry: Entry)
    requires lfn < 0x40
    ensures HoldsPiece(entry, piece, lfn, checkSum)
  {
    var buffer := new byte[ENTRY_SIZE](_ => 0);
    buffer[0], buffer[DIRENT_ATTRIB], buffer[LFN_CHECKSUM] := lfn, ATTR_LFN, checkSum;
    hide HoldsUnits, Unit, UnitPosition;
    WriteUnits(buffer, piece, 0, 5, LFN_NAME_1);
    ghost var one := buffer[..];
    WriteUnits(buffer, piece, 5, 11, LFN_NAME_2);
    ghost var two := buffer[..];
    UnitsKept(one, two, piece, 0, 5, LFN_NAME_1);
    WriteUnits(buffer, piece, 11, 13, LFN_NAME_3);
    entry := buffer[..];
    UnitsKept(two, entry, piece, 0, 5, LFN_NAME_1);
    UnitsKept(two, entry, piece, 5, 11, LFN_NAME_2);
    ThreeParts(entry, piece);
  }

  function Rotate(b: byte): byte {
    (if b % 2 == 1 then 0x80 else 0) + b / 2
  }

  function BitOf(b: byte, j: nat): nat {
    if j == 0 then b % 2 else BitOf(b / 2, j - 1)
  }

  /** Rotated right by one bit: each bit moves one place down, and the lowest becomes the highest. */
  lemma {:induction false} RotateBits(b: byte, j: nat)
    requires j < 8
    ensures BitOf(Rotate(b), j) == BitOf(b, if j == 7 then 0 else j + 1)
  {
    Power2Values();
    AddedBit(b / 2, 7, b % 2 == 1, j);
  }

  function Power2(k: nat): nat {
    if k == 0 then 1 else 2 * Power2(k - 1)
  }

  lemma Power2Values()
    ensures Power2(7) == 0x80
  {
    assert Power2(3) == 8;
  }

  /** A bit added above the others changes none of them. */
  lemma {:induction false} AddedBit(b: nat, k: nat, bit: bool, j: nat)
    requires k <= 7 && b < Power2(k) && j <= k
    ensures b < 0x100 && b + (if bit then Power2(k) else 0) < 0x100
    ensures BitOf(b + if bit then Power2(k) else 0, j) == if j == k then Bit(bit) else BitOf(b, j)
  {
    SmallPower(k);
    if k > 0 {
      var half := if bit then Power2(k - 1) else 0;
      Halves(b, half);
      if j > 0 {
        AddedBit(b / 2, k - 1, bit, j - 1);
      }
    }
  }

  lemma Halves(b: nat, half: nat)
    ensures (b + 2 * half) / 2 == b / 2 + half && (b + 2 * half) % 2 == b % 2
  {
  }

  lemma {:induction false} SmallPower(k: nat)
    requires k <= 7
    ensures Power2(k) <= 0x80
  {
    if k < 7 {
      Power2Grows(k, 7);
    }
    Power2Values();
  }

  lemma {:induction false} Power2Grows(k: nat, n: nat)
    requires k <= n
    ensures Power2(k) <= Power2(n)
  {
    if k < n {
      Power2Grows(k, n - 1);
    }
  }

  /** FF_CreateChkSum: the sum is rotated right by one bit before each byte is added. */
  function CheckSum(shortName: seq<byte>): byte {
    if shortName == [] then 0
    else (Rotate(CheckSum(shortName[..|shortName| - 1])) + shortName[|shortName| - 1]) % 0x100
  }

  method CreateChkSum(shortName: seq<byte>) returns (sum: byte)
    requires |shortName| >= 11
    ensures sum == CheckSum(shortName[..11])
  {
    sum := 0;
    for i := 0 to 11
      invariant sum == CheckSum(shortName[..i])
    {
      assert shortName[..i + 1][..i] == shortName[..i];
      sum := ((if sum % 2 == 1 then 0x80 else 0) + sum / 2 + shortName[i]) % 0x100;
    }
  }

  /** The number of entries for a name */
  function Pieces(length: nat): nat {
    (length + 12) / 13
  }

  function PieceOf(name: seq<byte>, k: nat): seq<byte>
    requires 13 * k <= |name|
  {
    name[13 * k..if 13 * k + 13 <= |name| then 13 * k + 13 else |name|]
  }

  /**
   The entries from `at` on hold the name: piece `k` is number `k + 1`, and the first entry is marked as the last
   piece.
   */
  ghost predicate HoldsName(entries: seq<Entry>, at: nat, name: seq<byte>, sum: byte) {
    && at + Pieces(|name|) <= |entries|
    && forall k :: 0 <= k < Pieces(|name|) ==> HoldsPieceAt(entries, at, name, sum, k)
  }

  ghost predicate HoldsPieceAt(entries: seq<Entry>, at: nat, name: seq<byte>, sum: byte, k: nat) {
    && Pieces(|name|) <= 0x3F && k < Pieces(|name|) && 13 * k <= |name| && at + (Pieces(|name|) - 1 - k) < |entries|
    && HoldsPiece(entries[at + (Pieces(|name|) - 1 - k)], PieceOf(name, k),
                  if k + 1 == Pieces(|name|) then k + 1 + 0x40 else k + 1, sum)
  }

  /** A string ends before its first zero. */
  function CString(buffer: seq<byte>): seq<byte> {
    if buffer == [] || buffer[0] == 0 then [] else [buffer[0]] + CString(buffer[1..])
  }

  lemma {:induction false} CStringIs(buffer: seq<byte>, name: seq<byte>)
    requires |name| < |buffer| && buffer[..|name|] == name && buffer[|name|] == 0 && 0 !in name
    ensures CString(buffer) == name
  {
    if name != [] {
      assert buffer[0] == name[0] && name == [name[0]] + name[1..];
      assert buffer[1..][..|name[1..]|] == name[1..] by {
        assert buffer[..|name|][1..] == buffer[1..][..|name| - 1];
      }
      CStringIs(buffer[1..], name[1..]);
    }
  }

  class Directory {
    const entries: array<Entry>

    constructor (size: nat)
      ensures fresh(entries) && entries.Length == size
      ensures forall i, j :: 0 <= i < size && 0 <= j < 32 ==> entries[i][j] == 0
    {
      entries := new Entry[size](_ => seq(32, _ => 0));
    }

    /** FF_CreateLFNs, with room for the entries found before */
    method CreateLFNs(name: seq<byte>, checkSum: byte, usEntry: nat) returns (error: bool)
      requires usEntry + Pieces(|name|) <= entries.Length
      modifies entries
      ensures error <==> |name| > MAX_FILENAME
      ensures !error ==> HoldsName(entries[..], usEntry, name, checkSum)
      ensures forall i :: 0 <= i < entries.Length && !(!error && usEntry <= i < usEntry + Pieces(|name|)) ==>
        entries[i] == old(entries[i])
    {
      hide HoldsPiece;
      error := |name| > MAX_FILENAME;
      if !error {
        var numLFNs, endPos := |name| / 13, |name| % 13;
        if endPos != 0 {
          numLFNs := numLFNs + 1;
        } else {
          endPos := 13;
        }
        var index := numLFNs;
        while index > 0
          invariant numLFNs == Pieces(|name|) <= 20 && 0 <= index <= numLFNs
          invariant forall k :: index <= k < numLFNs ==> HoldsPieceAt(entries[..], usEntry, name, checkSum, k)
          invariant forall i :: 0 <= i < entries.Length && !(usEntry <= i < usEntry + (numLFNs - index)) ==>
            entries[i] == old(entries[i])
        {
          var length := if index == numLFNs then endPos else 13;
          var at := 13 * (index - 1);
          var entry := CreateLFNEntry(name[at..at + length], index as byte, checkSum);
          if index == numLFNs {
            LastMark(entry, name[at..at + length], index as byte, checkSum);
            entry := entry[0 := index + 0x40];
          }
          assert PieceOf(name, index - 1) == name[at..at + length];
          ghost var before := entries[..];
          entries[usEntry + (numLFNs - index)] := entry;
          forall k | index <= k < numLFNs ensures HoldsPieceAt(entries[..], usEntry, name, checkSum, k) {
            assert HoldsPieceAt(before, usEntry, name, checkSum, k);
          }
          index := index - 1;
        }
      }
    }

    lemma LastMark(entry: Entry, piece: seq<byte>, ord: byte, sum: byte)
      requires HoldsPiece(entry, piece, ord, sum) && ord < 0x40
      ensures HoldsPiece(entry[0 := ord + 0x40], piece, ord + 0x40, sum)
    {
    }

    /** One of the loops that copy the low bytes of an entry's units, within pcFileName */
    method CopyUnits(entry: Entry, position: nat, count: nat, fileName: array<byte>, pointer: nat)
      returns (pointer': nat)
      requires fileName.Length == MAX_FILENAME && position + 2 * count <= ENTRY_SIZE
      modifies fileName
      ensures pointer' == if pointer + count <= MAX_FILENAME then pointer + count
                          else if pointer <= MAX_FILENAME then MAX_FILENAME else pointer
      ensures forall j :: 0 <= j < count && pointer + j < MAX_FILENAME ==>
        fileName[pointer + j] == entry[position + 2 * j]
      ensures forall p :: 0 <= p < MAX_FILENAME && !(pointer <= p < pointer + count) ==> fileName[p] == old(fileName[p])
    {
      var x := 0;
      pointer' := pointer;
      while x < count && pointer' < MAX_FILENAME
        invariant 0 <= x <= count && pointer' == pointer + x && (x > 0 ==> pointer' <= MAX_FILENAME)
        invariant forall j :: 0 <= j < x ==> fileName[pointer + j] == entry[position + 2 * j]
        invariant forall p :: 0 <= p < MAX_FILENAME && !(pointer <= p < pointer + count) ==>
          fileName[p] == old(fileName[p])
      {
        fileName[pointer'] := entry[position + 2 * x];
        pointer', x := pointer' + 1, x + 1;
      }
    }

    /** The characters of one entry go to the place of their piece in pcFileName. */
    method CopyPiece(entry: Entry, k: nat, fileName: array<byte>) returns (pointer: nat)
      requires fileName.Length == MAX_FILENAME
      modifies fileName
      ensures pointer == if 13 * k + 13 <= MAX_FILENAME then 13 * k + 13
                         else if 13 * k <= MAX_FILENAME then MAX_FILENAME else 13 * k
      ensures forall j :: 0 <= j < 13 && 13 * k + j < MAX_FILENAME ==> fileName[13 * k + j] == entry[UnitPosition(j)]
      ensures forall p :: 0 <= p < MAX_FILENAME && !(13 * k <= p < 13 * k + 13) ==> fileName[p] == old(fileName[p])
    {
      pointer := CopyUnits(entry, LFN_NAME_1, 5, fileName, 13 * k);
      ghost var one := fileName[..];
      pointer := CopyUnits(entry, LFN_NAME_2, 6, fileName, pointer);
      ghost var two := fileName[..];
      pointer := CopyUnits(entry, LFN_NAME_3, 2, fileName, pointer);
      forall j | 0 <= j < 13 && 13 * k + j < MAX_FILENAME ensures fileName[13 * k + j] == entry[UnitPosition(j)] {
        if j < 5 {
          assert one[13 * k + j] == entry[LFN_NAME_1 + 2 * j];
        } else if j < 11 {
          assert two[13 * k + 5 + (j - 5)] == entry[LFN_NAME_2 + 2 * (j - 5)];
        } else {
          assert fileName[13 * k + 11 + (j - 11)] == entry[LFN_NAME_3 + 2 * (j - 11)];
        }
      }
    }

    lemma FirstEntry(at: nat, name: seq<byte>, sum: byte)
      requires Readable(at, name, sum)
      ensures at < entries.Length && 1 <= Pieces(|name|) <= 0x3F
      ensures entries[at][0] == Pieces(|name|) + 0x40 && entries[at][LFN_CHECKSUM] == sum
    {
      hide UnitPosition, Unit, PieceOf, CheckSum;
      assert HoldsPieceAt(entries[..], at, name, sum, Pieces(|name|) - 1);
    }

    lemma EntryOf(at: nat, name: seq<byte>, sum: byte, k: nat)
      requires Readable(at, name, sum) && k < Pieces(|name|)
      ensures var i := at + (Pieces(|name|) - 1 - k);
        i < entries.Length && forall j :: 0 <= j < 13 && 13 * k <= |name| ==>
          entries[i][UnitPosition(j)] == Unit(PieceOf(name, k), j)
    {
      hide UnitPosition, Unit, PieceOf, CheckSum;
      assert HoldsPieceAt(entries[..], at, name, sum, k);
    }

    /** The entry of piece `k` has been copied, and the zero set behind the last piece. */
    static lemma PieceRead(entry: Entry, name: seq<byte>, sum: byte, k: nat, before: seq<byte>, after: seq<byte>)
      requires k < Pieces(|name|) && |before| == |after| == MAX_FILENAME
      requires forall j :: 0 <= j < 13 && 13 * k <= |name| ==> entry[UnitPosition(j)] == Unit(PieceOf(name, k), j)
      requires forall j :: 0 <= j < 13 && 13 * k + j < MAX_FILENAME ==> after[13 * k + j] == entry[UnitPosition(j)]
      requires k + 1 == Pieces(|name|) && 13 * k + 13 < MAX_FILENAME ==> after[13 * k + 13] == 0
      requires k + 1 < Pieces(|name|) ==> HoldsFrom(before, name, 13 * (k + 1))
      requires k + 1 < Pieces(|name|) ==> forall p :: 13 * k + 13 <= p < MAX_FILENAME ==> after[p] == before[p]
      ensures HoldsFrom(after, name, 13 * k)
    {
      hide UnitPosition;
      forall p | 13 * k <= p <= |name| && p < MAX_FILENAME ensures after[p] == if p < |name| then name[p] else 0 {
        if p < 13 * k + 13 {
          assert after[13 * k + (p - 13 * k)] == entry[UnitPosition(p - 13 * k)];
        }
      }
    }

    static lemma NameRead(buffer: seq<byte>, name: seq<byte>)
      requires HoldsFrom(buffer, name, 0) && |name| <= MAX_FILENAME && 0 !in name
      ensures CString(buffer) == name && 0 in buffer <==> |name| < MAX_FILENAME
    {
      hide CString;
      if |name| < MAX_FILENAME {
        assert buffer[..|name|] == name && buffer[|name|] == 0;
        CStringIs(buffer, name);
      } else {
        assert buffer == name;
      }
    }

    /** A name of 250 characters fills pcFileName, and there is no zero behind it. */
    static lemma FullName()
      ensures var name := seq(MAX_FILENAME, _ => 0x41 as byte);
        HoldsFrom(name, name, 0) && 0 !in name && !(CString(name) == name && 0 in name)
    {
      NameRead(seq(MAX_FILENAME, _ => 0x41 as byte), seq(MAX_FILENAME, _ => 0x41 as byte));
    }

    /** pcFileName holds the name from `from` on, with the zero behind it if there is room. */
    static ghost predicate HoldsFrom(buffer: seq<byte>, name: seq<byte>, from: nat) {
      && |buffer| == MAX_FILENAME
      && forall p :: from <= p <= |name| && p < MAX_FILENAME ==> buffer[p] == if p < |name| then name[p] else 0
    }

    /** The name that the entries hold for the short entry behind them, read into pcFileName */
    ghost predicate Readable(at: nat, name: seq<byte>, sum: byte)
      reads entries
    {
      && HoldsName(entries[..], at, name, sum) && 0 < |name| <= MAX_FILENAME && 0 !in name
      && at + Pieces(|name|) < entries.Length && sum == CheckSum(entries[at + Pieces(|name|)][..11])
    }

    /** The number of entries for a name, as the first of them has it, without the mark of the last piece */
    function Ordinal(first: Entry): nat {
      if first[0] / 0x40 % 2 == 1 then first[0] - 0x40 else first[0]
    }

    /**
     FF_PopulateLongDirent as far as the name: whatever the entries hold, it stays within pcFileName; entries written
     for a name give that name back exactly if it leaves room for the zero that ends a string.
     */
    method PopulateLongDirent(usEntry: nat, fileName: array<byte>, ghost name: seq<byte>, ghost sum: byte)
      returns (error: bool, isLong: bool)
      requires fileName.Length == MAX_FILENAME
      modifies fileName
      ensures error <==> usEntry >= entries.Length || usEntry + Ordinal(entries[usEntry]) >= entries.Length
      ensures isLong <==>
        !error && entries[usEntry][LFN_CHECKSUM] == CheckSum(entries[usEntry + Ordinal(entries[usEntry])][..11])
      ensures usEntry < entries.Length && Ordinal(entries[usEntry]) < 20 ==> fileName[MAX_FILENAME - 1] == 0
      ensures Readable(usEntry, name, sum) ==>
        !error && isLong && (CString(fileName[..]) == name && 0 in fileName[..] <==> |name| < MAX_FILENAME)
    {
      hide HoldsPiece, UnitPosition, Unit, CString, PieceOf;
      isLong, error := false, usEntry >= entries.Length;
      if error {
        return;
      }
      ghost var readable := Readable(usEntry, name, sum);
      var entry, next := entries[usEntry], usEntry + 1;
      if readable {
        FirstEntry(usEntry, name, sum);
      }
      var numLFNs: nat := if entry[0] / 0x40 % 2 == 1 then entry[0] - 0x40 else entry[0];
      var checkSum := entry[LFN_CHECKSUM];
      fileName[MAX_FILENAME - 1] := 0;
      var all := numLFNs;
      while numLFNs > 0
        invariant 0 <= numLFNs <= all && next == usEntry + (all - numLFNs) + 1 <= entries.Length
        invariant entry == entries[next - 1]
        invariant readable == Readable(usEntry, name, sum) && (readable ==> all == Pieces(|name|) && checkSum == sum)
        invariant all < 20 ==> fileName[MAX_FILENAME - 1] == 0
        invariant readable && numLFNs < all ==> HoldsFrom(fileName[..], name, 13 * numLFNs)
      {
        numLFNs := numLFNs - 1;
        ghost var before := fileName[..];
        var pointer := CopyPiece(entry, numLFNs, fileName);
        if numLFNs == all - 1 && pointer < MAX_FILENAME {
          fileName[pointer] := 0;
        }
        if readable {
          EntryOf(usEntry, name, sum, numLFNs);
          PieceRead(entry, name, sum, numLFNs, before, fileName[..]);
        }
        error := next >= entries.Length;
        if error {
          return;
        }
        entry, next := entries[next], next + 1;
      }
      var shortSum := CreateChkSum(entry);
      isLong := shortSum == checkSum;
      if readable {
        NameRead(fileName[..], name);
      }
    }

    /** A long name with its short entry is stored and found again, including lengths that fill the last entry. */
    method StoreAndFind(name: seq<byte>, shortEntry: Entry, usEntry: nat, fileName: array<byte>)
      returns (error: bool, isLong: bool)
      requires 0 < |name| && 0 !in name && usEntry + Pieces(|name|) < entries.Length
      requires fileName.Length == MAX_FILENAME
      modifies entries, fileName
      ensures error <==> |name| > MAX_FILENAME
      ensures error ==> !isLong
      ensures !error ==> isLong && (CString(fileName[..]) == name && 0 in fileName[..] <==> |name| < MAX_FILENAME)
    {
      hide HoldsPiece, CString, UnitPosition, Unit, PieceOf;
      isLong := false;
      var sum := CreateChkSum(shortEntry);
      error := CreateLFNs(name, sum, usEntry);
      if !error {
        ghost var before := entries[..];
        entries[usEntry + Pieces(|name|)] := shortEntry;
        forall k | 0 <= k < Pieces(|name|) ensures HoldsPieceAt(entries[..], usEntry, name, sum, k) {
          assert HoldsPieceAt(before, usEntry, name, sum, k);
        }
        error, isLong := PopulateLongDirent(usEntry, fileName, name, sum);
      }
    }
  }
}
