/**
 The entries of a directory, ff_dir.c: which of them are files and sub-directories, and what writing one changes.
 */
module DirEntries {
  import opened Bytes
  import opened LongNames

  const MAX_ENTRIES_PER_DIRECTORY: nat := 0xFFFF
  const DELETED: byte := 0xE5

  /** FF_isDeleted, FF_isEndOfDir, and the tests of the attribute byte */
  predicate IsDeleted(e: Entry) {
    e[0] == DELETED
  }

  predicate IsEndOfDir(e: Entry) {
    e[0] == 0
  }

  predicate IsLongPart(e: Entry) {
    e[DIRENT_ATTRIB] % 0x10 == ATTR_LFN
  }

  predicate IsVolumeLabel(e: Entry) {
    e[DIRENT_ATTRIB] / 8 % 2 == 1
  }

  function UpToSpace(s: seq<byte>): seq<byte> {
    if s == [] || s[0] == 0x20 then [] else [s[0]] + UpToSpace(s[1..])
  }

  /** FF_ProcessShortName: the name without its padding, and the extension behind a dot if there is one */
  function ShortString(e: Entry): seq<byte> {
    UpToSpace(e[..8]) + if e[8] == 0x20 then [] else [0x2E] + UpToSpace(e[8..11])
  }

  lemma {:induction false} UpToSpaceIs(s: seq<byte>, k: nat)
    requires k <= |s| && 0x20 !in s[..k] && (k == |s| || s[k] == 0x20)
    ensures UpToSpace(s) == s[..k]
  {
    if k > 0 {
      assert s[..k] == [s[0]] + s[1..][..k - 1] && s[0] in s[..k];
      UpToSpaceIs(s[1..], k - 1);
    }
  }

  /** The loop of FF_ProcessShortName, in which a space skips to the extension */
  method ProcessShortName(e: Entry) returns (name: seq<byte>)
    ensures name == ShortString(e)
  {
    name := [];
    var source := 0;
    ghost var stem, extension := e[..8], e[8..11];
    while source < 8 && e[source] != 0x20
      invariant 0 <= source <= 8 && name == stem[..source] && 0x20 !in name
    {
      Prefix(stem, source);
      name := name + [e[source]];
      source := source + 1;
    }
    UpToSpaceIs(stem, source);
    if e[8] != 0x20 {
      ghost var before := name + [0x2E];
      name := name + [0x2E];
      source := 8;
      while source < 11 && e[source] != 0x20
        invariant 8 <= source <= 11 && name == before + extension[..source - 8] && 0x20 !in extension[..source - 8]
      {
        Prefix(extension, source - 8);
        name := name + [e[source]];
        source := source + 1;
      }
      UpToSpaceIs(extension, source - 8);
    }
  }

  lemma Prefix(s: seq<byte>, i: nat)
    requires i < |s|
    ensures s[..i + 1] == s[..i] + [s[i]]
    ensures forall t: seq<byte> :: t + s[..i] + [s[i]] == t + s[..i + 1]
  {
  }

  /** A file or sub-directory that is found: the first end mark closes a directory, and so does its longest size. */
  ghost predicate LiveAt(entries: seq<Entry>, i: nat) {
    && i < |entries| && i < MAX_ENTRIES_PER_DIRECTORY
    && !IsDeleted(entries[i]) && !IsLongPart(entries[i]) && !IsVolumeLabel(entries[i])
    && forall j :: 0 <= j <= i ==> !IsEndOfDir(entries[j])
  }

  /**
   By the bytes: 0xE5 marks a deleted entry, zero the end, and bit 3 of the attributes is set for a label and, with the
   three bits below, for every entry of a long name.
   */
  lemma LiveBytes(entries: seq<Entry>, i: nat)
    ensures LiveAt(entries, i) <==>
      && i < |entries| && i < 0xFFFF && entries[i][0] != 0xE5 && BitOf(entries[i][11], 3) == 0
      && forall j :: 0 <= j <= i ==> entries[j][0] != 0
    ensures i < |entries| ==>
      (IsLongPart(entries[i]) <==> forall j: nat :: j < 4 ==> BitOf(entries[i][11], j) == 1)
  {
    if i < |entries| {
      AttributeBits(entries[i][11]);
    }
  }

  lemma AttributeBits(a: byte)
    ensures a % 0x10 == 0x0F <==> BitOf(a, 0) == 1 && BitOf(a, 1) == 1 && BitOf(a, 2) == 1 && BitOf(a, 3) == 1
    ensures a / 8 % 2 == 1 <==> BitOf(a, 3) == 1
    ensures BitOf(a, 3) < 2
  {
    hide BitOf;
    LowBits(a);
    Nibble(a, a / 2, a / 2 / 2, a / 2 / 2 / 2);
  }

  lemma LowBits(a: byte)
    ensures BitOf(a, 0) == a % 2 && BitOf(a, 1) == a / 2 % 2 && BitOf(a, 2) == a / 2 / 2 % 2
    ensures BitOf(a, 3) == a / 2 / 2 / 2 % 2
  {
    assert BitOf(a, 3) == BitOf(a / 2, 2) == BitOf(a / 2 / 2, 1) == BitOf(a / 2 / 2 / 2, 0);
    assert BitOf(a, 2) == BitOf(a / 2, 1) == BitOf(a / 2 / 2, 0);
  }

  lemma Nibble(a: nat, b: nat, c: nat, d: nat)
    requires b == a / 2 && c == b / 2 && d == c / 2
    ensures d == a / 8 && a % 0x10 == a % 2 + 2 * (b % 2) + 4 * (c % 2) + 8 * (d % 2)
  {
  }

  ghost predicate NameInUse(entries: seq<Entry>, name: seq<byte>) {
    exists i: nat :: LiveAt(entries, i) && ShortString(entries[i]) == name
  }

  /** The scan for a name comes to an entry that is neither deleted nor of a long name: also to that of a label. */
  ghost predicate Scanned(entries: seq<Entry>, name: seq<byte>) {
    exists i: nat ::
      && i < |entries| && i < MAX_ENTRIES_PER_DIRECTORY && !IsDeleted(entries[i]) && !IsLongPart(entries[i])
      && ShortString(entries[i]) == name
      && forall j :: 0 <= j <= i ==> !IsEndOfDir(entries[j])
  }

  function WithEntry(entries: seq<Entry>, i: nat, e: Entry): seq<Entry>
    requires i < |entries|
  {
    entries[i := e]
  }

  /** FF_RmFile, FF_RmDir and FF_Move leave a short entry so: deleted, and without its first cluster. */
  function Marked(e: Entry): Entry {
    e[0 := DELETED][0x14 := 0][0x15 := 0][0x1A := 0][0x1B := 0]
  }

  function Deleted(e: Entry): Entry {
    e[0 := DELETED]
  }

  /** Only end marks come behind an end mark. */
  ghost predicate Closed(entries: seq<Entry>) {
    forall i, j :: 0 <= i < j < |entries| && IsEndOfDir(entries[i]) ==> IsEndOfDir(entries[j])
  }

  /** The entries FF_HashDir hashes */
  predicate IsHashed(e: Entry) {
    !IsDeleted(e) && !IsLongPart(e) && !IsVolumeLabel(e) && !IsEndOfDir(e)
  }

  lemma StillClosed(entries: seq<Entry>, i: nat, e: Entry)
    requires Closed(entries) && i < |entries| && !IsEndOfDir(e)
    requires forall j :: 0 <= j < i ==> !IsEndOfDir(entries[j])
    ensures Closed(WithEntry(entries, i, e))
  {
    hide IsEndOfDir;
  }

  ghost predicate IsFree(e: Entry) {
    IsDeleted(e) || IsEndOfDir(e)
  }

  /** An entry for a file is written where the directory has not ended before. */
  lemma LiveAfter(entries: seq<Entry>, i: nat, e: Entry, j: nat)
    requires i < |entries| && IsHashed(e) && forall j :: 0 <= j < i ==> !IsEndOfDir(entries[j])
    requires Closed(entries)
    ensures LiveAt(WithEntry(entries, i, e), i) <==> i < MAX_ENTRIES_PER_DIRECTORY
    ensures j != i ==> (LiveAt(WithEntry(entries, i, e), j) <==> LiveAt(entries, j))
  {
    hide IsLongPart, IsVolumeLabel;
    var after := WithEntry(entries, i, e);
    if j != i && j < |entries| {
      assert entries[j] == after[j];
    }
  }

  lemma FreeIsNotLive(entries: seq<Entry>, i: nat)
    requires i < |entries| && IsFree(entries[i])
    ensures !LiveAt(entries, i)
  {
  }

  /** The live entries of both are the same. */
  ghost predicate SameLive(entries: seq<Entry>, after: seq<Entry>) {
    forall j: nat :: (LiveAt(after, j) <==> LiveAt(entries, j)) && (LiveAt(entries, j) ==> after[j] == entries[j])
  }

  lemma SameLiveSelf(a: seq<Entry>)
    ensures SameLive(a, a)
  {
  }

  lemma SameLiveTwice(a: seq<Entry>, b: seq<Entry>, c: seq<Entry>)
    requires SameLive(a, b) && SameLive(b, c)
    ensures SameLive(a, c)
  {
    hide LiveAt;
  }

  lemma SameLiveAt(a: seq<Entry>, b: seq<Entry>, i: nat)
    requires SameLive(a, b) && LiveAt(a, i)
    ensures LiveAt(b, i) && b[i] == a[i]
  {
    hide LiveAt;
  }

  /** FF_CreateLFNs writes one entry of a long name into free room. */
  lemma LongPartWritten(entries: seq<Entry>, i: nat, e: Entry)
    requires Closed(entries) && i < |entries| && IsFree(entries[i])
    requires forall j :: 0 <= j < i ==> !IsEndOfDir(entries[j])
    requires IsLongPart(e) && !IsEndOfDir(e)
    ensures SameLive(entries, WithEntry(entries, i, e)) && Closed(WithEntry(entries, i, e))
  {
    hide IsLongPart, IsVolumeLabel;
    var after := WithEntry(entries, i, e);
    StillClosed(entries, i, e);
    forall j: nat
      ensures (LiveAt(after, j) <==> LiveAt(entries, j)) && (LiveAt(entries, j) ==> after[j] == entries[j])
    {
      if j < |entries| && j != i {
        assert entries[j] == after[j];
      }
    }
  }

  /** What FF_ExtendDirectory appends: a cluster of zeros */
  function Blank(n: nat): (s: seq<Entry>)
    ensures |s| == n && forall i :: 0 <= i < n ==> IsEndOfDir(s[i])
  {
    seq(n, _ => seq(ENTRY_SIZE, _ => 0))
  }

  lemma Extended(entries: seq<Entry>, n: nat)
    requires Closed(entries)
    ensures SameLive(entries, entries + Blank(n)) && Closed(entries + Blank(n))
  {
    hide IsLongPart, IsVolumeLabel, IsDeleted;
    var after := entries + Blank(n);
    forall j: nat
      ensures (LiveAt(after, j) <==> LiveAt(entries, j)) && (LiveAt(entries, j) ==> after[j] == entries[j])
    {
      if j < |entries| {
        assert after[j] == entries[j];
      } else if j < |after| {
        assert after[j] == Blank(n)[j - |entries|];
      }
    }
  }

  lemma EndIsNotDeleted(e: Entry)
    requires IsEndOfDir(e)
    ensures !IsDeleted(e)
  {
  }

  /** `n` deleted entries in a row */
  ghost predicate DeletedRun(entries: seq<Entry>, at: nat, n: nat) {
    at + n <= |entries| && forall j :: at <= j < at + n ==> IsDeleted(entries[j])
  }

  /** No such row begins from `first` on before `end`. */
  ghost predicate NoRun(entries: seq<Entry>, first: nat, end: int, n: nat) {
    forall j :: first <= j < end ==> !DeletedRun(entries, j, n)
  }

  /** The directory does not end before `at`, and as far as it reaches there are `n` free entries from there on. */
  ghost predicate RoomAt(entries: seq<Entry>, at: nat, n: nat) {
    && (forall j :: 0 <= j < at && j < |entries| ==> !IsEndOfDir(entries[j]))
    && forall j :: at <= j < at + n && j < |entries| ==> IsFree(entries[j])
  }

  /** A new file is found, and every other file is found as before. */
  ghost predicate Added(was: seq<Entry>, entries: seq<Entry>, i: nat, e: Entry) {
    && LiveAt(entries, i) && entries[i] == e && !LiveAt(was, i)
    && forall j: nat :: j != i ==> (LiveAt(entries, j) <==> LiveAt(was, j)) && (LiveAt(was, j) ==> entries[j] == was[j])
  }

  lemma IsAdded(was: seq<Entry>, entries: seq<Entry>, i: nat, e: Entry)
    requires SameLive(was, entries) && Closed(entries) && i < |entries| && i < MAX_ENTRIES_PER_DIRECTORY
    requires IsHashed(e) && IsFree(entries[i]) && forall j :: 0 <= j < i ==> !IsEndOfDir(entries[j])
    ensures Added(was, WithEntry(entries, i, e), i, e)
  {
    hide LiveAt, IsEndOfDir, IsHashed, IsFree;
    FreeIsNotLive(entries, i);
    LiveAfter(entries, i, e, i);
    forall j: nat | j != i
      ensures LiveAt(WithEntry(entries, i, e), j) <==> LiveAt(was, j)
      ensures LiveAt(was, j) ==> j < |entries| && j < |was| && WithEntry(entries, i, e)[j] == was[j]
    {
      LiveAfter(entries, i, e, j);
      if LiveAt(entries, j) {
        NothingEndsBefore(entries, j);
        NothingEndsBefore(was, j);
      }
    }
  }

  lemma StillAdded(was: seq<Entry>, room: seq<Entry>, entries: seq<Entry>, i: nat, e: Entry)
    requires SameLive(was, room) && Added(room, entries, i, e)
    ensures Added(was, entries, i, e)
  {
    hide LiveAt;
  }

  /** A file is written over an entry: whatever was found before, there is still a file in its place. */
  lemma Overwritten(was: seq<Entry>, entries: seq<Entry>, i: nat, e: Entry)
    requires SameLive(was, entries) && Closed(entries) && i < |entries| && IsHashed(e)
    requires forall j :: 0 <= j < i ==> !IsEndOfDir(entries[j])
    ensures forall j: nat :: LiveAt(was, j) ==> LiveAt(WithEntry(entries, i, e), j)
  {
    hide IsEndOfDir, IsHashed;
    LiveAfter(entries, i, e, i);
    forall j: nat | LiveAt(was, j) ensures LiveAt(WithEntry(entries, i, e), j) {
      LiveAfter(entries, i, e, j);
    }
  }

  lemma AllLive(was: seq<Entry>, entries: seq<Entry>)
    requires SameLive(was, entries)
    ensures forall j: nat :: LiveAt(was, j) ==> LiveAt(entries, j)
  {
  }

  lemma AddedUnique(was: seq<Entry>, entries: seq<Entry>, i: nat, e: Entry)
    requires Added(was, entries, i, e)
    ensures UniqueNames(entries) <==> UniqueNames(was) && !Taken(was, e[..11])
  {
    hide IsDeleted, IsLongPart, IsVolumeLabel, IsEndOfDir;
    if UniqueNames(entries) {
      forall j: nat, k: nat | LiveAt(was, j) && LiveAt(was, k) && j != k ensures was[j][..11] != was[k][..11] {
        assert LiveAt(entries, j) && LiveAt(entries, k);
      }
      forall j: nat | LiveAt(was, j) ensures was[j][..11] != e[..11] {
        assert LiveAt(entries, j) && entries[j] == was[j];
      }
    }
  }

  /** A file is gone, and every other file is found as before. */
  ghost predicate Removed(was: seq<Entry>, entries: seq<Entry>, i: nat) {
    && LiveAt(was, i) && !LiveAt(entries, i) && |entries| == |was|
    && forall j: nat :: j != i ==> (LiveAt(entries, j) <==> LiveAt(was, j)) && (LiveAt(was, j) ==> entries[j] == was[j])
  }

  lemma NotLive(was: seq<Entry>, entries: seq<Entry>, i: nat)
    requires Removed(was, entries, i)
    ensures !LiveAt(entries, i)
  {
  }

  /** A file has a new entry in the same directory, and every other file is found as before. */
  ghost predicate Renamed(was: seq<Entry>, entries: seq<Entry>, i: nat, k: nat, e: Entry) {
    && LiveAt(was, i) && !LiveAt(was, k) && !LiveAt(entries, i) && LiveAt(entries, k) && entries[k] == e
    && forall j: nat :: j != i && j != k ==>
         (LiveAt(entries, j) <==> LiveAt(was, j)) && (LiveAt(was, j) ==> entries[j] == was[j])
  }

  lemma IsRenamed(was: seq<Entry>, created: seq<Entry>, entries: seq<Entry>, i: nat, k: nat, e: Entry)
    requires LiveAt(was, i) && Added(was, created, k, e) && Removed(created, entries, i)
    ensures Renamed(was, entries, i, k, e) && i != k && LiveAt(entries, k) && entries[k] == e
  {
    hide LiveAt;
  }

  lemma Moved(was: seq<Entry>, created: seq<Entry>, k: nat, e: Entry)
    requires Added(was, created, k, e)
    ensures LiveAt(created, k) && k < |created| && created[k] == e && !LiveAt(was, k)
    ensures !IsLongPart(e) && forall i: nat :: LiveAt(was, i) ==> i != k && i < |created| && created[i] == was[i]
  {
  }

  lemma StillThere(was: seq<Entry>, i: nat)
    requires LiveAt(was, i)
    ensures i < |was| && !IsLongPart(was[i])
  {
  }

  lemma RemovedUnique(was: seq<Entry>, entries: seq<Entry>, i: nat)
    requires Removed(was, entries, i)
    ensures UniqueNames(was) ==> UniqueNames(entries)
  {
    hide LiveAt;
  }

  /** No two files have the same short name. */
  ghost predicate UniqueNames(entries: seq<Entry>) {
    forall i: nat, j: nat :: LiveAt(entries, i) && LiveAt(entries, j) && i != j ==> entries[i][..11] != entries[j][..11]
  }

  /** A file has the short name. */
  ghost predicate Taken(entries: seq<Entry>, name: seq<byte>) {
    exists i: nat :: LiveAt(entries, i) && entries[i][..11] == name
  }

  /** Every entry of a long name that stands directly in front of the entry is deleted. */
  ghost predicate Unnamed(entries: seq<Entry>, i: nat) {
    i < |entries| && forall j :: 0 <= j < i && LongRun(entries, j, i) ==> entries[j][0] == 0xE5
  }

  ghost predicate LongRun(entries: seq<Entry>, j: nat, i: nat) {
    i <= |entries| && forall k :: j <= k < i ==> entries[k][DIRENT_ATTRIB] == ATTR_LFN
  }

  lemma IsUnnamed(was: seq<Entry>, entries: seq<Entry>, from: nat, i: nat)
    requires from <= i < |entries| == |was| && (from > 0 ==> was[from - 1][DIRENT_ATTRIB] != ATTR_LFN)
    requires forall j :: from <= j < i ==> entries[j] == Deleted(was[j])
    requires forall j :: 0 <= j < from ==> entries[j] == was[j]
    ensures Unnamed(entries, i)
  {
    forall j | 0 <= j < i ensures LongRun(entries, j, i) ==> entries[j][0] == 0xE5 {
      if j < from {
        assert entries[from - 1] == was[from - 1];
        assert !LongRun(entries, j, i);
      }
    }
  }

  lemma StillUnnamed(entries: seq<Entry>, i: nat, e: Entry)
    requires Unnamed(entries, i)
    ensures Unnamed(WithEntry(entries, i, e), i)
  {
    forall j | 0 <= j < i && LongRun(WithEntry(entries, i, e), j, i) ensures entries[j][0] == 0xE5 {
      assert LongRun(entries, j, i) by {
        forall k | j <= k < i ensures entries[k][DIRENT_ATTRIB] == ATTR_LFN {
          assert WithEntry(entries, i, e)[k] == entries[k];
        }
      }
    }
  }

  /** FF_RmLFNs marks one entry of a long name. */
  lemma LongPartDeleted(entries: seq<Entry>, i: nat)
    requires Closed(entries) && i < |entries| && IsLongPart(entries[i]) && !IsEndOfDir(entries[i])
    ensures SameLive(entries, WithEntry(entries, i, Deleted(entries[i])))
    ensures Closed(WithEntry(entries, i, Deleted(entries[i])))
  {
    var after := WithEntry(entries, i, Deleted(entries[i]));
    forall j: nat
      ensures (LiveAt(after, j) <==> LiveAt(entries, j)) && (LiveAt(entries, j) ==> after[j] == entries[j])
    {
      assert forall p :: 0 <= p < |entries| ==> (IsEndOfDir(after[p]) <==> IsEndOfDir(entries[p]));
    }
  }

  lemma NothingEndsBefore(entries: seq<Entry>, i: nat)
    requires LiveAt(entries, i)
    ensures i < |entries| && forall j :: 0 <= j <= i ==> !IsEndOfDir(entries[j])
  {
  }

  /** A live entry is marked as deleted. */
  lemma LiveMarked(entries: seq<Entry>, i: nat, j: nat)
    requires LiveAt(entries, i)
    ensures LiveAt(WithEntry(entries, i, Marked(entries[i])), j) <==> j != i && LiveAt(entries, j)
  {
    var after := WithEntry(entries, i, Marked(entries[i]));
    assert forall p :: 0 <= p < |entries| ==> (IsEndOfDir(after[p]) <==> IsEndOfDir(entries[p]));
  }

  lemma MarkedClosed(entries: seq<Entry>, i: nat)
    requires Closed(entries) && LiveAt(entries, i)
    ensures Closed(WithEntry(entries, i, Marked(entries[i])))
  {
    var after := WithEntry(entries, i, Marked(entries[i]));
    assert forall p :: 0 <= p < |entries| ==> (IsEndOfDir(after[p]) <==> IsEndOfDir(entries[p]));
  }
}
