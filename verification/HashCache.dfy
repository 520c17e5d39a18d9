/**
 The cache of hashed directories, ff_dir.c, and the choice of short names that relies on it.
 */
module HashCache {
  import opened Bytes
  import opened DirEntries
  import opened LongNames
  import opened HashBits

  const HASH_CACHE_DEPTH: nat := 64

  datatype HashTable = HashTable(ulDirCluster: nat, ulNumHandles: nat, ulMisses: nat, bits: Bits)

  /**
   What is known of a new short name: it does not fit 8.3; it was looked for before, with or without success; or
   FF_FindEntryInDir looks for it now and returns the cluster of what it finds, or zero.
   */
  datatype Check = NoFit | Checked(found: bool) | Looked(cluster: nat)

  predicate Refused(check: Check) {
    match check
    case NoFit => false
    case Checked(found) => found
    case Looked(cluster) => cluster != 0
  }

  datatype Answer = Found | NotFound | NotHashed

  /** The first slot for the directory, or the number of slots */
  function Slot(cache: seq<HashTable>, d: nat): (k: nat)
    ensures k <= |cache| && (k < |cache| ==> cache[k].ulDirCluster == d)
    ensures forall j :: 0 <= j < k ==> cache[j].ulDirCluster != d
  {
    if cache == [] || cache[0].ulDirCluster == d then 0 else 1 + Slot(cache[1..], d)
  }

  /** No directory has two tables. */
  ghost predicate OneEach(cache: seq<HashTable>) {
    |cache| == HASH_CACHE_DEPTH
    && forall i, j :: 0 <= i < j < |cache| && cache[i].ulDirCluster != 0 ==>
         cache[i].ulDirCluster != cache[j].ulDirCluster
  }

  ghost predicate HashInUse(crc: seq<byte> -> Hash, entries: seq<Entry>, h: Hash) {
    exists i: nat :: LiveAt(entries, i) && crc(ShortString(entries[i])) == h
  }

  /** The table has exactly the hashes of the names in the directory. */
  ghost predicate Exact(bits: Bits, crc: seq<byte> -> Hash, entries: seq<Entry>) {
    forall h: Hash :: IsHashSet(bits, h) <==> HashInUse(crc, entries, h)
  }

  /** The table misses no name of the directory; with `exact` it also has no hash of a name that is gone. */
  ghost predicate Covers(bits: Bits, crc: seq<byte> -> Hash, entries: seq<Entry>, exact: bool) {
    forall h: Hash ::
      && (HashInUse(crc, entries, h) ==> IsHashSet(bits, h))
      && (exact && IsHashSet(bits, h) ==> HashInUse(crc, entries, h))
  }

  /** Every table misses no name of its directory, and those of the directories in `exact` are exact. */
  ghost predicate Sound(cache: seq<HashTable>, crc: seq<byte> -> Hash, dirs: map<nat, seq<Entry>>, exact: set<nat>) {
    && OneEach(cache) && 0 !in dirs && (forall d :: d in dirs ==> Closed(dirs[d]))
    && forall k :: 0 <= k < |cache| && cache[k].ulDirCluster in dirs ==>
         Covers(cache[k].bits, crc, dirs[cache[k].ulDirCluster], cache[k].ulDirCluster in exact)
  }

  /** Only directories have tables. */
  ghost predicate Owned(cache: seq<HashTable>, dirs: set<nat>) {
    forall k :: 0 <= k < |cache| && cache[k].ulDirCluster != 0 ==> cache[k].ulDirCluster in dirs
  }

  /** The directory has no table, or an exact one. */
  ghost predicate ExactFor(cache: seq<HashTable>, crc: seq<byte> -> Hash, dirs: map<nat, seq<Entry>>, d: nat) {
    d in dirs && (Slot(cache, d) < |cache| ==> Exact(cache[Slot(cache, d)].bits, crc, dirs[d]))
  }

  lemma SoundIsExact(cache: seq<HashTable>, crc: seq<byte> -> Hash, dirs: map<nat, seq<Entry>>, exact: set<nat>, d: nat)
    requires Sound(cache, crc, dirs, exact) && d in dirs && d in exact
    ensures ExactFor(cache, crc, dirs, d)
  {
    hide Closed, HashInUse, IsHashSet;
  }

  lemma SlotIs(cache: seq<HashTable>, d: nat, k: nat)
    requires k <= |cache| && (k < |cache| ==> cache[k].ulDirCluster == d)
    requires forall j :: 0 <= j < k ==> cache[j].ulDirCluster != d
    ensures Slot(cache, d) == k
  {
  }

  /** A directory without a table gets an exact one. */
  lemma Replaced(cache: seq<HashTable>, crc: seq<byte> -> Hash, dirs: map<nat, seq<Entry>>, exact: set<nat>, k: nat,
                 table: HashTable)
    requires Sound(cache, crc, dirs, exact) && k < |cache| && Slot(cache, table.ulDirCluster) == |cache|
    requires table.ulDirCluster in dirs ==> Exact(table.bits, crc, dirs[table.ulDirCluster])
    ensures Sound(cache[k := table], crc, dirs, exact + {table.ulDirCluster})
  {
    hide Closed, HashInUse, IsHashSet;
  }

  /** To add the hash of a name in the directory changes nothing; any other hash makes the table inexact at most. */
  lemma Hashed(cache: seq<HashTable>, crc: seq<byte> -> Hash, dirs: map<nat, seq<Entry>>,
               exact: set<nat>, k: nat, h: Hash)
    requires Sound(cache, crc, dirs, exact) && k < |cache|
    ensures var d := cache[k].ulDirCluster;
      Sound(cache[k := cache[k].(bits := SetHash(cache[k].bits, h))], crc, dirs,
            if d in dirs && HashInUse(crc, dirs[d], h) then exact else exact - {d})
  {
    hide Closed, IsHashSet, SetHash, HashInUse;
    forall g: Hash ensures IsHashSet(SetHash(cache[k].bits, h), g) <==> g == h || IsHashSet(cache[k].bits, g) {
      SetExactly(cache[k].bits, h, g);
    }
  }

  /** Free room is written to in a directory without a table. */
  lemma Written(cache: seq<HashTable>, crc: seq<byte> -> Hash, dirs: map<nat, seq<Entry>>,
                exact: set<nat>, d: nat, i: nat, e: Entry)
    requires Sound(cache, crc, dirs, exact) && d in dirs && i < |dirs[d]| && !IsEndOfDir(e) && Slot(cache, d) == |cache|
    requires forall j :: 0 <= j < i ==> !IsEndOfDir(dirs[d][j])
    ensures Sound(cache, crc, dirs[d := WithEntry(dirs[d], i, e)], exact)
  {
    hide Covers, IsEndOfDir;
    assert Closed(dirs[d]);
    StillClosed(dirs[d], i, e);
  }

  lemma WrittenAndHashed(cache: seq<HashTable>, crc: seq<byte> -> Hash, dirs: map<nat, seq<Entry>>,
                         exact: set<nat>, k: nat, i: nat, e: Entry)
    requires Sound(cache, crc, dirs, exact) && k < |cache| && cache[k].ulDirCluster in dirs
    requires i < |dirs[cache[k].ulDirCluster]| && IsHashed(e)
    requires forall j :: 0 <= j < i ==> !IsEndOfDir(dirs[cache[k].ulDirCluster][j])
    ensures var d := cache[k].ulDirCluster;
      Sound(cache[k := cache[k].(bits := SetHash(cache[k].bits, crc(ShortString(e))))], crc,
            dirs[d := WithEntry(dirs[d], i, e)],
            if IsFree(dirs[d][i]) && i < MAX_ENTRIES_PER_DIRECTORY then exact else exact - {d})
  {
    hide Covers, Closed, IsHashSet, SetHash, ShortString, IsEndOfDir, IsFree;
    var d := cache[k].ulDirCluster;
    StillClosed(dirs[d], i, e);
    StillCovers(cache[k].bits, crc, dirs[d], d in exact, i, e);
  }

  /**
   A new entry is written and hashed: no name is missed, and an exact table stays exact if the entry is written into
   free room where it is found.
   */
  lemma StillCovers(bits: Bits, crc: seq<byte> -> Hash, entries: seq<Entry>, exact: bool, i: nat, e: Entry)
    requires Covers(bits, crc, entries, exact) && Closed(entries) && i < |entries| && IsHashed(e)
    requires forall j :: 0 <= j < i ==> !IsEndOfDir(entries[j])
    ensures Covers(SetHash(bits, crc(ShortString(e))), crc, WithEntry(entries, i, e),
                   exact && IsFree(entries[i]) && i < MAX_ENTRIES_PER_DIRECTORY)
  {
    hide IsHashSet, SetHash, ShortString, LiveAt, IsHashed, IsFree, IsEndOfDir, Closed, HashInUse;
    var h, after := crc(ShortString(e)), WithEntry(entries, i, e);
    LiveAfter(entries, i, e, i);
    if IsFree(entries[i]) {
      FreeIsNotLive(entries, i);
    }
    forall j: nat ensures j != i ==> (LiveAt(after, j) <==> LiveAt(entries, j)) {
      LiveAfter(entries, i, e, j);
    }
    forall g: Hash
      ensures HashInUse(crc, after, g) ==> g == h || HashInUse(crc, entries, g)
      ensures LiveAt(after, i) && !LiveAt(entries, i) && (g == h || HashInUse(crc, entries, g)) ==>
        HashInUse(crc, after, g)
      ensures IsHashSet(SetHash(bits, h), g) <==> g == h || IsHashSet(bits, g)
    {
      SetExactly(bits, h, g);
      SameHashes(crc, entries, i, e, g);
    }
  }

  lemma SameLiveCovers(bits: Bits, crc: seq<byte> -> Hash, entries: seq<Entry>, after: seq<Entry>, exact: bool)
    requires Covers(bits, crc, entries, exact) && SameLive(entries, after)
    ensures Covers(bits, crc, after, exact)
  {
    hide LiveAt, IsHashSet, ShortString;
    forall h: Hash ensures HashInUse(crc, after, h) <==> HashInUse(crc, entries, h) {
    }
  }

  lemma SameLiveSound(cache: seq<HashTable>, crc: seq<byte> -> Hash, dirs: map<nat, seq<Entry>>,
                      exact: set<nat>, d: nat, after: seq<Entry>)
    requires Sound(cache, crc, dirs, exact) && d in dirs && SameLive(dirs[d], after) && Closed(after)
    ensures Sound(cache, crc, dirs[d := after], exact)
  {
    hide Covers, SameLive, Closed;
    forall k | 0 <= k < |cache| && cache[k].ulDirCluster == d
      ensures Covers(cache[k].bits, crc, after, d in exact)
    {
      SameLiveCovers(cache[k].bits, crc, dirs[d], after, d in exact);
    }
  }

  /**
   An entry is marked as deleted and its directory keeps the table: it misses no name still, and if it was exact it is
   so exactly if another live entry has the same hash.
   */
  lemma MarkedCovers(bits: Bits, crc: seq<byte> -> Hash, entries: seq<Entry>, exact: bool, i: nat)
    requires Covers(bits, crc, entries, exact) && LiveAt(entries, i)
    ensures var after := WithEntry(entries, i, Marked(entries[i]));
      && Covers(bits, crc, after, exact && HashInUse(crc, after, crc(ShortString(entries[i]))))
      && (exact ==> (Exact(bits, crc, after) <==> HashInUse(crc, after, crc(ShortString(entries[i])))))
  {
    hide LiveAt, IsHashSet, HashInUse, ShortString;
    NothingEndsBefore(entries, i);
    var after, h := WithEntry(entries, i, Marked(entries[i])), crc(ShortString(entries[i]));
    forall g: Hash
      ensures HashInUse(crc, after, g) ==> HashInUse(crc, entries, g)
      ensures g != h && HashInUse(crc, entries, g) ==> HashInUse(crc, after, g)
    {
      MarkedHashes(crc, entries, i, g);
    }
    HashOfLive(crc, entries, i);
  }

  lemma HashOfLive(crc: seq<byte> -> Hash, entries: seq<Entry>, i: nat)
    requires LiveAt(entries, i)
    ensures i < |entries| && HashInUse(crc, entries, crc(ShortString(entries[i])))
  {
    hide ShortString;
  }

  lemma MarkedHashes(crc: seq<byte> -> Hash, entries: seq<Entry>, i: nat, g: Hash)
    requires LiveAt(entries, i)
    ensures i < |entries|
    ensures HashInUse(crc, WithEntry(entries, i, Marked(entries[i])), g) ==> HashInUse(crc, entries, g)
    ensures g != crc(ShortString(entries[i])) && HashInUse(crc, entries, g) ==>
      HashInUse(crc, WithEntry(entries, i, Marked(entries[i])), g)
  {
    hide ShortString, IsLongPart, IsVolumeLabel;
    var after := WithEntry(entries, i, Marked(entries[i]));
    if HashInUse(crc, after, g) {
      var j: nat :| LiveAt(after, j) && crc(ShortString(after[j])) == g;
      LiveMarked(entries, i, j);
      assert after[j] == entries[j];
    }
    if g != crc(ShortString(entries[i])) && HashInUse(crc, entries, g) {
      var j: nat :| LiveAt(entries, j) && crc(ShortString(entries[j])) == g;
      LiveMarked(entries, i, j);
      assert after[j] == entries[j];
    }
  }

  lemma MarkedSound(cache: seq<HashTable>, crc: seq<byte> -> Hash, dirs: map<nat, seq<Entry>>,
                    exact: set<nat>, d: nat, i: nat)
    requires Sound(cache, crc, dirs, exact) && d in dirs && LiveAt(dirs[d], i)
    ensures var after := WithEntry(dirs[d], i, Marked(dirs[d][i]));
      var keeps := Slot(cache, d) == |cache| || HashInUse(crc, after, crc(ShortString(dirs[d][i])));
      && Sound(cache, crc, dirs[d := after], if keeps then exact else exact - {d})
      && (d in exact ==> (ExactFor(cache, crc, dirs[d := after], d) <==> keeps))
  {
    hide Covers, Exact, LiveAt, ShortString, HashInUse, IsHashSet;
    NothingEndsBefore(dirs[d], i);
    var after := WithEntry(dirs[d], i, Marked(dirs[d][i]));
    MarkedClosed(dirs[d], i);
    forall k | 0 <= k < |cache| && cache[k].ulDirCluster == d
      ensures k == Slot(cache, d)
      ensures var same := HashInUse(crc, after, crc(ShortString(dirs[d][i])));
        && Covers(cache[k].bits, crc, after, d in exact && same)
        && (d in exact ==> (Exact(cache[k].bits, crc, after) <==> same))
    {
      MarkedCovers(cache[k].bits, crc, dirs[d], d in exact, i);
    }
  }

  lemma SameHashes(crc: seq<byte> -> Hash, entries: seq<Entry>, i: nat, e: Entry, g: Hash)
    requires i < |entries|
    requires forall j: nat :: j != i ==> (LiveAt(WithEntry(entries, i, e), j) <==> LiveAt(entries, j))
    ensures HashInUse(crc, WithEntry(entries, i, e), g) ==> g == crc(ShortString(e)) || HashInUse(crc, entries, g)
    ensures LiveAt(WithEntry(entries, i, e), i) && !LiveAt(entries, i)
            && (g == crc(ShortString(e)) || HashInUse(crc, entries, g)) ==>
      HashInUse(crc, WithEntry(entries, i, e), g)
  {
    hide ShortString;
    var after := WithEntry(entries, i, e);
    if HashInUse(crc, after, g) {
      var j: nat :| LiveAt(after, j) && crc(ShortString(after[j])) == g;
      assert j != i ==> after[j] == entries[j];
    }
    if HashInUse(crc, entries, g) {
      var j: nat :| LiveAt(entries, j) && crc(ShortString(entries[j])) == g;
      assert j != i ==> LiveAt(after, j) && after[j] == entries[j];
    }
  }

  class HashedDirectories {
    const crc16: seq<byte> -> Hash

    /** The number of entries in a cluster */
    const perCluster: nat

    var xHashCache: seq<HashTable>

    /** The directories on the disk by their first clusters */
    var dirs: map<nat, seq<Entry>>

    /** The directories that are known to have no table or an exact one */
    ghost var exact: set<nat>

    constructor (crc: seq<byte> -> Hash, entriesPerCluster: nat)
      ensures Valid() && dirs == map[] && crc16 == crc && perCluster == entriesPerCluster
      ensures forall k :: 0 <= k < |xHashCache| ==> xHashCache[k] == HashTable(0, 0, 100, NO_BITS)
    {
      crc16, perCluster, dirs := crc, entriesPerCluster, map[];
      xHashCache := seq(HASH_CACHE_DEPTH, _ => HashTable(0, 0, 100, NO_BITS));
      exact := {};
    }

    ghost predicate Valid()
      reads this
    {
      Sound(xHashCache, crc16, dirs, exact) && Owned(xHashCache, dirs.Keys)
    }

    /** The search of FF_DirHashed, FF_UnHashDir, FF_AddDirentHash and FF_CheckDirentHash */
    method FindSlot(d: nat) returns (k: nat)
      ensures k == Slot(xHashCache, d)
    {
      k := 0;
      while k < |xHashCache| && xHashCache[k].ulDirCluster != d
        invariant k <= |xHashCache| && forall j :: 0 <= j < k ==> xHashCache[j].ulDirCluster != d
      {
        k := k + 1;
      }
      SlotIs(xHashCache, d, k);
    }

    /**
     FF_CheckDirentHash: a name in the directory is never reported missing, and the answer is exact if the table is.
     */
    method CheckDirentHash(d: nat, h: Hash) returns (r: Answer)
      requires Valid() && d in dirs
      ensures r == NotHashed <==> forall k :: 0 <= k < |xHashCache| ==> xHashCache[k].ulDirCluster != d
      ensures var k := Slot(xHashCache, d);
        k < |xHashCache| ==> r == if IsHashSet(xHashCache[k].bits, h) then Found else NotFound
      ensures r == NotFound ==> !HashInUse(crc16, dirs[d], h)
      ensures r == Found && ExactFor(xHashCache, crc16, dirs, d) ==> HashInUse(crc16, dirs[d], h)
    {
      hide IsHashSet, HashInUse;
      var k := FindSlot(d);
      r := if k == |xHashCache| then NotHashed else if IsHashSet(xHashCache[k].bits, h) then Found else NotFound;
    }

    /** The table FF_HashDir replaces: of those without handles the first with the most misses */
    method Victim() returns (k: nat)
      ensures k <= |xHashCache| && (k < |xHashCache| ==> xHashCache[k].ulNumHandles == 0)
      ensures forall j :: 0 <= j < |xHashCache| && xHashCache[j].ulNumHandles == 0 ==>
        k < |xHashCache| && xHashCache[j].ulMisses <= xHashCache[k].ulMisses
      ensures forall j :: 0 <= j < k < |xHashCache| && xHashCache[j].ulNumHandles == 0 ==>
        xHashCache[j].ulMisses < xHashCache[k].ulMisses
    {
      k := |xHashCache|;
      for index := 0 to |xHashCache|
        invariant k <= |xHashCache| && (k < |xHashCache| ==> xHashCache[k].ulNumHandles == 0)
        invariant forall j :: 0 <= j < index && xHashCache[j].ulNumHandles == 0 ==>
          k < |xHashCache| && xHashCache[j].ulMisses <= xHashCache[k].ulMisses
        invariant forall j :: 0 <= j < k < |xHashCache| && xHashCache[j].ulNumHandles == 0 ==>
          xHashCache[j].ulMisses < xHashCache[k].ulMisses
      {
        if xHashCache[index].ulNumHandles == 0 {
          if k == |xHashCache| || xHashCache[index].ulMisses > xHashCache[k].ulMisses {
            k := index;
          }
        }
      }
    }

    /** The scan of FF_HashDir: the table holds exactly the hashes of the entries up to the end of the directory. */
    method HashEntries(entries: seq<Entry>) returns (bits: Bits)
      requires Closed(entries)
      ensures Exact(bits, crc16, entries)
    {
      hide IsHashSet, SetHash, ShortString, IsLongPart, IsVolumeLabel;
      bits := NO_BITS;
      forall h: Hash ensures !IsHashSet(bits, h) {
        NoneSet(h);
      }
      assert forall h: Hash :: !IsHashSet(bits, h);
      for i := 0 to if |entries| < MAX_ENTRIES_PER_DIRECTORY then |entries| else MAX_ENTRIES_PER_DIRECTORY
        invariant forall j :: 0 <= j < i && IsEndOfDir(entries[j]) ==>
          IsDeleted(entries[j]) || IsLongPart(entries[j]) || IsVolumeLabel(entries[j])
        invariant forall h: Hash :: IsHashSet(bits, h) <==>
          exists j: nat :: j < i && LiveAt(entries, j) && crc16(ShortString(entries[j])) == h
      {
        var e := entries[i];
        if !IsDeleted(e) && !IsLongPart(e) && !IsVolumeLabel(e) {
          if IsEndOfDir(e) {
            break;
          }
          var name := ProcessShortName(e);
          ghost var was := bits;
          bits := SetHash(bits, crc16(name));
          assert LiveAt(entries, i);
          forall h: Hash ensures IsHashSet(bits, h) <==> h == crc16(name) || IsHashSet(was, h) {
            SetExactly(was, crc16(name), h);
          }
        }
      }
    }

    /** FF_HashDir for a directory without a table, as both its callers have made sure */
    method HashDir(d: nat) returns (error: bool)
      requires Valid() && d in dirs && Slot(xHashCache, d) == |xHashCache|
      modifies `xHashCache, `exact
      ensures exact == old(exact) + {d}
      ensures Valid() && (error <==> forall k :: 0 <= k < |old(xHashCache)| ==> old(xHashCache)[k].ulNumHandles != 0)
      ensures error ==> xHashCache == old(xHashCache)
      ensures !error ==>
        var k := Slot(xHashCache, d);
        && k < |xHashCache| == |old(xHashCache)|
        && xHashCache == old(xHashCache)[k := HashTable(d, 0, 0, xHashCache[k].bits)]
    {
      hide IsHashSet, ShortString, LiveAt;
      var k := Victim();
      error := k == |xHashCache|;
      exact := exact + {d};
      if !error {
        var bits := HashEntries(dirs[d]);
        Replaced(xHashCache, crc16, dirs, exact, k, HashTable(d, 0, 0, bits));
        assert exact + {d} == exact;
        xHashCache := xHashCache[k := HashTable(d, 0, 0, bits)];
        SlotIs(xHashCache, d, k);
      }
    }

    /** FF_UnHashDir */
    method UnHashDir(d: nat)
      requires Valid()
      modifies `xHashCache, `exact
      ensures Valid() && (d != 0 ==> Slot(xHashCache, d) == |xHashCache|)
      ensures exact == if d != 0 then old(exact) + {d} else old(exact)
      ensures forall c :: c != 0 && c != d ==> Slot(xHashCache, c) == Slot(old(xHashCache), c)
    {
      hide IsHashSet, ShortString, LiveAt, Closed, Covers;
      var k := FindSlot(d);
      if k < |xHashCache| {
        xHashCache := xHashCache[k := xHashCache[k].(ulDirCluster := 0)];
      }
      if d != 0 {
        exact := exact + {d};
      }
      SlotIs(xHashCache, d, if d != 0 || k == |xHashCache| then |xHashCache| else k);
      forall c | c != 0 && c != d ensures Slot(xHashCache, c) == Slot(old(xHashCache), c) {
        SlotIs(xHashCache, c, Slot(old(xHashCache), c));
      }
    }

    /** The answer of FF_ShortNameExists: from the table of the directory, or without one from its entries */
    ghost predicate Says(d: nat, name: seq<byte>)
      reads `xHashCache, `dirs
    {
      d in dirs &&
      var k := Slot(xHashCache, d);
      if k < |xHashCache| then IsHashSet(xHashCache[k].bits, crc16(name)) else Scanned(dirs[d], name)
    }

    /** The directory has a table or cannot get one. */
    ghost predicate Final(d: nat)
      reads `xHashCache
    {
      Slot(xHashCache, d) < |xHashCache| || forall k :: 0 <= k < |xHashCache| ==> xHashCache[k].ulNumHandles != 0
    }

    /**
     FF_ShortNameExists: a name in use is always reported, from the table or, if none can be made, from the entries.
     From an exact table the answer is exactly whether the hash is in use.
     */
    method ShortNameExists(d: nat, name: seq<byte>) returns (r: bool)
      requires Valid() && d in dirs
      modifies `xHashCache, `exact
      ensures Valid() && (NameInUse(dirs[d], name) ==> r) && old(exact) <= exact
      ensures Slot(xHashCache, d) < |xHashCache| && r && ExactFor(xHashCache, crc16, dirs, d) ==>
        HashInUse(crc16, dirs[d], crc16(name))
      ensures old(Slot(xHashCache, d) == |xHashCache|) ==> ExactFor(xHashCache, crc16, dirs, d)
      ensures r <==> Says(d, name)
      ensures Final(d) && (old(Final(d)) ==> xHashCache == old(xHashCache))
    {
      hide IsHashSet, ShortString, IsLongPart, IsVolumeLabel, LiveAt, HashInUse, Sound, ExactFor, Scanned;
      var k := FindSlot(d);
      if k == |xHashCache| {
        var error := HashDir(d);
        SoundIsExact(xHashCache, crc16, dirs, exact, d);
      }
      var answer := CheckDirentHash(d, crc16(name));
      r := answer == Found;
      UsedNameHashed(dirs[d], crc16, name);
      if answer == NotHashed {
        SlotIs(xHashCache, d, |xHashCache|);
        DirectoryClosed(d);
        r := ScanEntries(dirs[d], name);
        UsedNameScanned(dirs[d], name);
      }
    }

    lemma DirectoryClosed(d: nat)
      requires Valid() && d in dirs
      ensures Closed(dirs[d])
    {
    }

    static lemma UsedNameHashed(entries: seq<Entry>, crc: seq<byte> -> Hash, name: seq<byte>)
      ensures NameInUse(entries, name) ==> HashInUse(crc, entries, crc(name))
    {
    }

    static lemma UsedNameScanned(entries: seq<Entry>, name: seq<byte>)
      ensures NameInUse(entries, name) ==> Scanned(entries, name)
    {
      hide ShortString, IsLongPart, IsVolumeLabel;
    }

    /** The scan of FF_ShortNameExists, which also finds volume labels */
    method ScanEntries(entries: seq<Entry>, name: seq<byte>) returns (r: bool)
      ensures r <==> Scanned(entries, name)
    {
      hide ShortString, IsLongPart;
      r := false;
      for i := 0 to if |entries| < MAX_ENTRIES_PER_DIRECTORY then |entries| else MAX_ENTRIES_PER_DIRECTORY
        invariant forall j :: 0 <= j < i ==> !IsEndOfDir(entries[j])
        invariant forall j :: 0 <= j < i ==>
          IsDeleted(entries[j]) || IsLongPart(entries[j]) || ShortString(entries[j]) != name
      {
        var e := entries[i];
        if IsEndOfDir(e) {
          return;
        }
        if !IsDeleted(e) && !IsLongPart(e) {
          var mine := ProcessShortName(e);
          if mine == name {
            return true;
          }
        }
      }
    }

    /** FF_ExtendDirectory, which clears the cluster that it appends; `canExtend` is whether it finds one. */
    method ExtendDirectory(d: nat, canExtend: bool) returns (error: bool)
      requires Valid() && d in dirs
      modifies `dirs
      ensures Valid() && d in dirs && dirs == old(dirs)[d := dirs[d]] && SameLive(old(dirs)[d], dirs[d])
      ensures error <==> !canExtend
      ensures dirs[d] == if canExtend then old(dirs)[d] + Blank(perCluster) else old(dirs)[d]
    {
      hide Sound, LiveAt, SameLive;
      error := !canExtend;
      SameLiveSelf(dirs[d]);
      if canExtend {
        DirectoryClosed(d);
        Extended(dirs[d], perCluster);
        SameLiveSound(xHashCache, crc16, dirs, exact, d, dirs[d] + Blank(perCluster));
        dirs := dirs[d := dirs[d] + Blank(perCluster)];
      }
    }

    /**
     FF_FindFreeDirent: the first run of deleted entries that is long enough, or else the end of the directory, which
     grows by one cluster if what is left of it is too short. `first` is where the caller has seen the first free entry.
     */
    method FindFreeDirent(d: nat, first: nat, sequential: nat, canExtend: bool) returns (at: nat, error: bool)
      requires Valid() && d in dirs && first <= |dirs[d]| && 1 <= sequential
      requires forall j :: 0 <= j < first ==> !IsEndOfDir(dirs[d][j])
      modifies `dirs
      ensures Valid() && d in dirs && dirs == old(dirs)[d := dirs[d]] && SameLive(old(dirs)[d], dirs[d])
      ensures !error ==> at < MAX_ENTRIES_PER_DIRECTORY && at <= |old(dirs)[d]| && RoomAt(dirs[d], at, sequential)
      ensures dirs[d] == if !error && at + sequential > |old(dirs)[d]| then old(dirs)[d] + Blank(perCluster)
                         else old(dirs)[d]
      ensures !error ==> at + sequential <= |old(dirs)[d]| || canExtend
      ensures error ==> !canExtend || |old(dirs)[d]| >= MAX_ENTRIES_PER_DIRECTORY
      ensures NoRun(old(dirs)[d], first, if error then MAX_ENTRIES_PER_DIRECTORY - sequential + 1 else at, sequential)
      ensures !error ==>
        || DeletedRun(old(dirs)[d], at, sequential)
        || at == |old(dirs)[d]| || (at < |old(dirs)[d]| && IsEndOfDir(old(dirs)[d][at]))
    {
      hide Sound, Owned, LiveAt, SameLive, IsDeleted, IsEndOfDir;
      ghost var was := dirs[d];
      DirectoryClosed(d);
      SameLiveSelf(dirs[d]);
      var freeCount := 0;
      at, error := first, false;
      while at < MAX_ENTRIES_PER_DIRECTORY
        invariant first <= at <= |dirs[d]| && (first <= MAX_ENTRIES_PER_DIRECTORY ==> at <= MAX_ENTRIES_PER_DIRECTORY)
        invariant freeCount < sequential && freeCount <= at - first
        invariant forall j :: 0 <= j < at ==> !IsEndOfDir(dirs[d][j])
        invariant forall j :: at - freeCount <= j < at ==> IsDeleted(dirs[d][j])
        invariant freeCount == at - first || !IsDeleted(dirs[d][at - freeCount - 1])
        invariant dirs[d] == was && forall j :: first <= j && j + sequential <= at ==> !DeletedRun(was, j, sequential)
      {
        if at == |dirs[d]| {
          error := ExtendDirectory(d, canExtend);
          RoomAtEnd(was, dirs[d], at, sequential);
          return;
        }
        if IsEndOfDir(dirs[d][at]) {
          EndIsNotDeleted(dirs[d][at]);
          if at + sequential > |dirs[d]| {
            error := ExtendDirectory(d, canExtend);
          }
          RoomAtEnd(was, dirs[d], at, sequential);
          return;
        }
        if IsDeleted(dirs[d][at]) {
          freeCount := freeCount + 1;
          if freeCount == sequential {
            at := at - (sequential - 1);
            return;
          }
        } else {
          freeCount := 0;
        }
        at := at + 1;
      }
      error := true;
    }

    static lemma RoomAtEnd(was: seq<Entry>, entries: seq<Entry>, at: nat, n: nat)
      requires Closed(was) && at <= |was| && (at < |was| ==> IsEndOfDir(was[at]))
      requires forall j :: 0 <= j < at ==> !IsEndOfDir(was[j])
      requires entries == was || exists k: nat :: entries == was + Blank(k)
      ensures RoomAt(entries, at, n)
    {
      hide IsDeleted, IsEndOfDir;
    }

    /** FF_PushEntryWithContext for the entries of a long name, one by one until the directory has no more room */
    method PushParts(d: nat, at: nat, parts: seq<Entry>)
      requires Valid() && d in dirs && RoomAt(dirs[d], at, |parts|)
      requires forall k :: 0 <= k < |parts| ==> IsLongPart(parts[k]) && !IsEndOfDir(parts[k])
      modifies `dirs
      ensures Valid() && d in dirs && dirs == old(dirs)[d := dirs[d]] && SameLive(old(dirs)[d], dirs[d])
      ensures |dirs[d]| == |old(dirs)[d]|
      ensures forall j :: 0 <= j < |dirs[d]| ==>
        dirs[d][j] == if at <= j < at + |parts| then parts[j - at] else old(dirs)[d][j]
    {
      hide Sound, LiveAt, SameLive, IsEndOfDir, IsFree, IsLongPart;
      SameLiveSelf(dirs[d]);
      ghost var was := dirs[d];
      var k := 0;
      while k < |parts| && at + k < |dirs[d]|
        invariant 0 <= k <= |parts| && Valid() && d in dirs && dirs == old(dirs)[d := dirs[d]]
        invariant SameLive(was, dirs[d]) && |dirs[d]| == |was|
        invariant forall j :: 0 <= j < |was| ==> dirs[d][j] == if at <= j < at + k then parts[j - at] else was[j]
      {
        DirectoryClosed(d);
        assert forall j :: 0 <= j < at + k ==> !IsEndOfDir(dirs[d][j]);
        LongPartWritten(dirs[d], at + k, parts[k]);
        SameLiveTwice(was, dirs[d], WithEntry(dirs[d], at + k, parts[k]));
        SameLiveSound(xHashCache, crc16, dirs, exact, d, WithEntry(dirs[d], at + k, parts[k]));
        dirs := dirs[d := WithEntry(dirs[d], at + k, parts[k])];
        k := k + 1;
      }
    }

    /**
     FF_CreateLFNs: the pieces of the name are made and pushed one by one. That the directory has no more room for them
     is an error which the clean-up that follows hides.
     */
    method CreateLFNs(d: nat, name: seq<byte>, checkSum: byte, at: nat) returns (error: bool)
      requires Valid() && d in dirs && RoomAt(dirs[d], at, Pieces(|name|))
      modifies `dirs
      ensures Valid() && d in dirs && dirs == old(dirs)[d := dirs[d]] && SameLive(old(dirs)[d], dirs[d])
      ensures |dirs[d]| == |old(dirs)[d]| && (error <==> |name| > MAX_FILENAME) && (error ==> dirs == old(dirs))
      ensures forall j :: 0 <= j < |dirs[d]| && !(at <= j < at + Pieces(|name|)) ==> dirs[d][j] == old(dirs)[d][j]
      ensures !error ==> forall j :: 0 <= j < at + Pieces(|name|) && j < |dirs[d]| ==> !IsEndOfDir(dirs[d][j])
      ensures !error && at + Pieces(|name|) <= |dirs[d]| ==> HoldsName(dirs[d], at, name, checkSum)
    {
      hide Sound, Owned, LiveAt, SameLive, IsEndOfDir, IsFree, IsLongPart, HoldsName;
      var pieces := new Directory(Pieces(|name|));
      error := pieces.CreateLFNs(name, checkSum, 0);
      SameLiveSelf(dirs[d]);
      if !error {
        ghost var was := dirs[d];
        var parts := pieces.entries[..];
        PartsOfName(parts, name, checkSum);
        PushParts(d, at, parts);
        forall j | 0 <= j < at + |parts| && j < |dirs[d]| ensures !IsEndOfDir(dirs[d][j]) {
          assert j < at ==> dirs[d][j] == was[j];
        }
        if at + |parts| <= |dirs[d]| {
          assert dirs[d][at..at + |parts|] == parts;
          NameMoved(parts, dirs[d], at, name, checkSum);
        }
      }
    }

    /** Every piece of a name is in an entry that is neither free nor an end mark. */
    static lemma PartsOfName(parts: seq<Entry>, name: seq<byte>, sum: byte)
      requires |parts| == Pieces(|name|) && HoldsName(parts, 0, name, sum)
      ensures forall k :: 0 <= k < |parts| ==> IsLongPart(parts[k]) && !IsEndOfDir(parts[k])
    {
      hide PieceOf, Unit, UnitPosition;
      forall k | 0 <= k < |parts| ensures IsLongPart(parts[k]) && !IsEndOfDir(parts[k]) {
        assert HoldsPieceAt(parts, 0, name, sum, |parts| - 1 - k);
      }
    }

    static lemma NameMoved(parts: seq<Entry>, entries: seq<Entry>, at: nat, name: seq<byte>, sum: byte)
      requires |parts| == Pieces(|name|) && HoldsName(parts, 0, name, sum)
      requires at + |parts| <= |entries| && entries[at..at + |parts|] == parts
      ensures HoldsName(entries, at, name, sum)
    {
      hide HoldsPiece, PieceOf;
      forall k | 0 <= k < Pieces(|name|) ensures HoldsPieceAt(entries, at, name, sum, k) {
        assert HoldsPieceAt(parts, 0, name, sum, k);
        assert entries[at + (|parts| - 1 - k)] == parts[|parts| - 1 - k];
      }
    }

    /**
     The end of FF_CreateDirent: the short entry is written, and the directory's table gets its hash. An entry that is
     written where no search looks for it, or over another one, leaves a table that misses no name and may be inexact.
     */
    method PutDirent(d: nat, i: nat, e: Entry) returns (error: bool)
      requires Valid() && d in dirs && IsHashed(e)
      requires forall j :: 0 <= j < i && j < |dirs[d]| ==> !IsEndOfDir(dirs[d][j])
      modifies `xHashCache, `dirs, `exact
      ensures Valid() && (error <==> i >= |old(dirs)[d]|)
      ensures error ==> dirs == old(dirs) && exact == old(exact) && xHashCache == old(xHashCache)
      ensures !error ==> dirs == old(dirs)[d := WithEntry(old(dirs)[d], i, e)]
      ensures old(exact) - {d} <= exact <= old(exact) + {d}
      ensures !error && IsFree(old(dirs)[d][i]) && i < MAX_ENTRIES_PER_DIRECTORY ==>
        old(exact) <= exact && (old(Slot(xHashCache, d) == |xHashCache|) ==> d in exact)
    {
      hide IsHashSet, SetHash, ShortString, Exact, Closed, Covers, IsFree;
      error := i >= |dirs[d]|;
      if error {
        return;
      }
      DirectoryClosed(d);
      LiveAfter(dirs[d], i, e, i);
      var k := FindSlot(d);
      var name := ProcessShortName(e);
      if k == |xHashCache| {
        Written(xHashCache, crc16, dirs, exact, d, i, e);
        dirs := dirs[d := WithEntry(dirs[d], i, e)];
        var failed := HashDir(d);
        assert i < MAX_ENTRIES_PER_DIRECTORY ==> HashInUse(crc16, dirs[d], crc16(name));
        AddDirentHash(d, crc16(name));
      } else {
        WrittenAndHashed(xHashCache, crc16, dirs, exact, k, i, e);
        if !(IsFree(dirs[d][i]) && i < MAX_ENTRIES_PER_DIRECTORY) {
          exact := exact - {d};
        }
        dirs := dirs[d := WithEntry(dirs[d], i, e)];
        xHashCache := xHashCache[k := xHashCache[k].(bits := SetHash(xHashCache[k].bits, crc16(name)))];
      }
    }

    /**
     FF_AddDirentHash: no table comes to miss a name, and a table stays exact if the hash is of a name in its
     directory.
     */
    method AddDirentHash(d: nat, h: Hash)
      requires Valid()
      modifies `xHashCache, `exact
      ensures Valid()
      ensures exact == if Slot(old(xHashCache), d) == |old(xHashCache)| || (d in dirs && HashInUse(crc16, dirs[d], h))
                       then old(exact) else old(exact) - {d}
      ensures var k := Slot(old(xHashCache), d);
        && (k == |old(xHashCache)| ==> xHashCache == old(xHashCache))
        && (k < |old(xHashCache)| ==>
             xHashCache == old(xHashCache)[k := old(xHashCache)[k].(bits := SetHash(old(xHashCache)[k].bits, h))])
    {
      hide IsHashSet, SetHash, ShortString, Covers, Closed, HashInUse;
      var k := FindSlot(d);
      if k < |xHashCache| {
        Hashed(xHashCache, crc16, dirs, exact, k, h);
        xHashCache := xHashCache[k := xHashCache[k].(bits := SetHash(xHashCache[k].bits, h))];
        if !(d in dirs && HashInUse(crc16, dirs[d], h)) {
          exact := exact - {d};
        }
      }
    }

    /**
     FF_RmLFNs: of the entries in front of a short entry exactly those are marked as deleted that belong to long names,
     back to the first that does not.
     */
    method RmLFNs(d: nat, i: nat) returns (ghost from: nat)
      requires Valid() && d in dirs && LiveAt(dirs[d], i)
      modifies `dirs
      ensures Valid() && d in dirs && dirs == old(dirs)[d := dirs[d]] && SameLive(old(dirs)[d], dirs[d])
      ensures from <= i < |dirs[d]| == |old(dirs)[d]|
      ensures from > 0 ==> old(dirs)[d][from - 1][DIRENT_ATTRIB] != ATTR_LFN
      ensures forall j :: from <= j < i ==>
        old(dirs)[d][j][DIRENT_ATTRIB] == ATTR_LFN && dirs[d][j] == Deleted(old(dirs)[d][j])
      ensures forall j :: 0 <= j < from || i <= j < |dirs[d]| ==> dirs[d][j] == old(dirs)[d][j]
      ensures Unnamed(dirs[d], i)
    {
      hide Sound, LiveAt, SameLive, Unnamed;
      NothingEndsBefore(dirs[d], i);
      SameLiveSelf(dirs[d]);
      var at := i;
      from := i;
      while at > 0
        invariant 0 <= at == from <= i && Valid() && d in dirs && dirs == old(dirs)[d := dirs[d]]
        invariant SameLive(old(dirs)[d], dirs[d])
        invariant |dirs[d]| == |old(dirs)[d]| && i < |dirs[d]|
        invariant forall j :: 0 <= j <= i ==> !IsEndOfDir(dirs[d][j])
        invariant forall j :: 0 <= j < at || i <= j < |dirs[d]| ==> dirs[d][j] == old(dirs)[d][j]
        invariant forall j :: at <= j < i ==>
          old(dirs)[d][j][DIRENT_ATTRIB] == ATTR_LFN && dirs[d][j] == Deleted(old(dirs)[d][j])
      {
        at := at - 1;
        if dirs[d][at][DIRENT_ATTRIB] != ATTR_LFN {
          break;
        }
        from := at;
        DirectoryClosed(d);
        LongPartDeleted(dirs[d], at);
        SameLiveTwice(old(dirs)[d], dirs[d], WithEntry(dirs[d], at, Deleted(dirs[d][at])));
        SameLiveSound(xHashCache, crc16, dirs, exact, d, WithEntry(dirs[d], at, Deleted(dirs[d][at])));
        dirs := dirs[d := WithEntry(dirs[d], at, Deleted(dirs[d][at]))];
      }
      IsUnnamed(old(dirs)[d], dirs[d], from, i);
    }

    /** FF_RmFile: a file's entry is marked as deleted, once the table of its directory has been given up. */
    method RemoveEntry(d: nat, i: nat)
      requires Valid() && d in dirs && LiveAt(dirs[d], i)
      modifies `xHashCache, `dirs, `exact
      ensures Valid() && d in dirs && dirs == old(dirs)[d := dirs[d]] && Removed(old(dirs)[d], dirs[d], i)
      ensures i < |dirs[d]| && dirs[d][i][0] == 0xE5 && Unnamed(dirs[d], i)
      ensures exact == old(exact) + {d} && ExactFor(xHashCache, crc16, dirs, d)
    {
      hide Sound, Owned, LiveAt, SameLive, ShortString, HashInUse, Removed, Unnamed;
      NothingEndsBefore(dirs[d], i);
      NotZero(d);
      UnHashDir(d);
      ghost var from := RmLFNs(d, i);
      MarkEntry(old(dirs)[d], d, i);
      assert exact + {d} == exact;
      SoundIsExact(xHashCache, crc16, dirs, exact, d);
    }

    lemma NotZero(d: nat)
      requires Valid() && d in dirs
      ensures d != 0
    {
    }

    /** The short entry itself is marked; `before` are the entries as they were before its long name went. */
    method MarkEntry(ghost before: seq<Entry>, d: nat, i: nat)
      requires Valid() && d in dirs && LiveAt(before, i) && SameLive(before, dirs[d]) && i < |dirs[d]| == |before|
      modifies `dirs, `exact
      ensures Valid() && d in dirs && dirs == old(dirs)[d := WithEntry(old(dirs)[d], i, Marked(old(dirs)[d][i]))]
      ensures Removed(before, dirs[d], i) && (old(Unnamed(dirs[d], i)) ==> Unnamed(dirs[d], i))
      ensures dirs[d][i][0] == 0xE5 && dirs[d][i][0x14..0x16] == [0, 0] && dirs[d][i][0x1A..0x1C] == [0, 0]
      ensures dirs[d][i][1..0x14] == old(dirs)[d][i][1..0x14] && dirs[d][i][0x16..0x1A] == old(dirs)[d][i][0x16..0x1A]
      ensures dirs[d][i][0x1C..] == old(dirs)[d][i][0x1C..]
      ensures var keeps := Slot(xHashCache, d) == |xHashCache|
                           || HashInUse(crc16, dirs[d], crc16(ShortString(before[i])));
        && exact == (if keeps then old(exact) else old(exact) - {d})
        && (d in old(exact) ==> (ExactFor(xHashCache, crc16, dirs, d) <==> keeps))
    {
      hide Sound, LiveAt, ShortString, HashInUse, ExactFor, Unnamed;
      SameLiveAt(before, dirs[d], i);
      if Unnamed(dirs[d], i) {
        StillUnnamed(dirs[d], i, Marked(dirs[d][i]));
      }
      NothingEndsBefore(before, i);
      MarkedSound(xHashCache, crc16, dirs, exact, d, i);
      ghost var after := WithEntry(dirs[d], i, Marked(dirs[d][i]));
      ghost var keeps := Slot(xHashCache, d) == |xHashCache| || HashInUse(crc16, after, crc16(ShortString(before[i])));
      forall j: nat
        ensures LiveAt(after, j) <==> j != i && LiveAt(before, j)
        ensures LiveAt(after, j) ==> j < |after| && after[j] == before[j]
      {
        LiveMarked(dirs[d], i, j);
        assert LiveAt(dirs[d], j) <==> LiveAt(before, j);
        if LiveAt(after, j) {
          NothingEndsBefore(before, j);
          NothingEndsBefore(after, j);
        }
      }
      dirs := dirs[d := WithEntry(dirs[d], i, Marked(dirs[d][i]))];
      if !keeps {
        exact := exact - {d};
      }
    }

    /** A directory is removed: its clusters may become another directory later. */
    method RemoveDirectory(d: nat)
      requires Valid() && d in dirs
      modifies `xHashCache, `dirs, `exact
      ensures Valid() && dirs == old(dirs) - {d} && Slot(xHashCache, d) == |xHashCache|
    {
      hide IsHashSet, ShortString, Covers, Closed;
      UnHashDir(d);
      dirs := dirs - {d};
    }

    /** FF_MkDir: the cluster of a new directory has no table of a directory that was there before. */
    method NewDirectory(d: nat, entries: seq<Entry>)
      requires Valid() && d !in dirs && d != 0 && Closed(entries)
      modifies `dirs
      ensures Valid() && dirs == old(dirs)[d := entries] && Slot(xHashCache, d) == |xHashCache|
    {
      hide IsHashSet, ShortString, Covers, Closed;
      dirs := dirs[d := entries];
    }

    /** The digits behind the tilde: a number at first, then a hash that is hashed again in each round */
    method NextTail(index: nat, first: bool, seed: seq<byte>, was: Hash) returns (tail: seq<byte>, hash: Hash)
      requires 0 < index
      ensures index <= 4 ==> tail == [0x30 + index] && hash == was
      ensures index > 4 ==> hash == crc16(if first then seed else [was % 0x100, was / 0x100]) && Shows(tail, hash)
    {
      hash := was;
      if index <= 4 {
        tail := [0x30 + index as byte];
      } else {
        hash := crc16(if first then seed else [was % 0x100, was / 0x100]);
        tail := [HexDigit(hash / 0x1000), HexDigit(hash / 0x100 % 0x10),
                 HexDigit(hash / 0x10 % 0x10), HexDigit(hash % 0x10)];
        HexDigits(hash, tail);
      }
    }

    lemma HexDigits(h: Hash, tail: seq<byte>)
      requires |tail| == 4 && tail[0] == HexDigit(h / 0x1000) && tail[1] == HexDigit(h / 0x100 % 0x10)
      requires tail[2] == HexDigit(h / 0x10 % 0x10) && tail[3] == HexDigit(h % 0x10)
      ensures Shows(tail, h)
    {
      hide HexDigit, DigitValue, IsDigit;
      Nibbles(h, h / 0x10, h / 0x100, h / 0x1000);
      OneDigit(h / 0x1000);
      OneDigit(h / 0x100 % 0x10);
      OneDigit(h / 0x10 % 0x10);
      OneDigit(h % 0x10);
    }

    lemma OneDigit(n: nat)
      requires n < 16
      ensures IsDigit(HexDigit(n)) && DigitValue(HexDigit(n)) == n
    {
    }

    static lemma Nibbles(h: Hash, a: nat, b: nat, c: nat)
      requires a == h / 0x10 && b == h / 0x100 && c == h / 0x1000
      ensures c < 16 && h == 0x1000 * c + 0x100 * (b % 0x10) + 0x10 * (a % 0x10) + h % 0x10
    {
      assert b == a / 0x10 && c == b / 0x10;
    }

    static function DigitValue(b: byte): int {
      if b <= 0x39 then b - 0x30 else b - 0x37
    }

    /** Four hexadecimal digits that make up the number */
    static ghost predicate Shows(tail: seq<byte>, h: Hash) {
      && |tail| == 4 && (forall i :: 0 <= i < 4 ==> IsDigit(tail[i]))
      && h == 0x1000 * DigitValue(tail[0]) + 0x100 * DigitValue(tail[1]) + 0x10 * DigitValue(tail[2])
              + DigitValue(tail[3])
    }

    /** The hash that try `i` shows, from the fifth one on: that of the hash before it, unless the seed is zero */
    ghost function TailHash(seed: nat, i: nat): Hash
      requires seed < 0x1_0000_0000
      decreases i
    {
      if i <= 5 || seed == 0 then crc16(LongBytes(seed))
      else
        var h := TailHash(seed, i - 1);
        crc16([h % 0x100, h / 0x100])
    }

    /** The name of try `i`: without a tail, with the number of the try, or with the digits of a hash */
    ghost predicate Tries(start: Entry, firstTilde: nat, seed: nat, i: nat, buffer: Entry)
      requires seed < 0x1_0000_0000
    {
      if i == 0 then buffer == start
      else exists tail ::
        && HasTail(start, firstTilde, buffer, tail)
        && if i <= 4 then tail == [0x30 + i] else Shows(tail, TailHash(seed, i))
    }

    /** The name is that of try `i`, and those of the tries before it are said to exist. */
    ghost predicate Settles(d: nat, start: Entry, firstTilde: nat, sizeOk: bool, seed: nat, i: nat, buffer: Entry)
      requires seed < 0x1_0000_0000
      reads `xHashCache, `dirs
    {
      && Tries(start, firstTilde, seed, i, buffer) && (i == 0 ==> sizeOk)
      && forall j :: (if sizeOk then 0 else 1) <= j < i ==> TriedInVain(d, start, firstTilde, seed, j)
    }

    /** The name of try `i` is said to exist. */
    ghost predicate TriedInVain(d: nat, start: Entry, firstTilde: nat, seed: nat, i: nat)
      requires seed < 0x1_0000_0000
      reads `xHashCache, `dirs
    {
      exists buffer: Entry :: Tries(start, firstTilde, seed, i, buffer) && Says(d, ShortString(buffer))
    }

    /** A digit of a hexadecimal number, with upper-case letters */
    static predicate IsDigit(b: byte) {
      0x30 <= b <= 0x39 || 0x41 <= b <= 0x46
    }

    /** The start of the name, a tilde and digits that end within eight characters, and the rest of the name */
    static ghost predicate HasTail(start: Entry, firstTilde: nat, buffer: Entry, tail: seq<byte>) {
      && (|tail| == 1 || |tail| == 4) && (forall i :: 0 <= i < |tail| ==> IsDigit(tail[i]))
      && var x := if 7 - |tail| > firstTilde then firstTilde else 7 - |tail|;
         buffer == start[..x] + [0x7E] + tail + start[x + 1 + |tail|..]
    }

    /** The name is as it was, if that is allowed, or has a tail. */
    static ghost predicate Tailed(start: Entry, firstTilde: nat, sizeOk: bool, buffer: Entry) {
      (buffer == start && sizeOk) || exists tail :: HasTail(start, firstTilde, buffer, tail)
    }

    lemma NewTail(start: Entry, firstTilde: nat, buffer: Entry, was: seq<byte>, tail: seq<byte>)
      requires buffer == start || (HasTail(start, firstTilde, buffer, was) && |was| <= |tail|)
      requires (|tail| == 1 || |tail| == 4) && forall i :: 0 <= i < |tail| ==> IsDigit(tail[i])
      ensures var x := if 7 - |tail| > firstTilde then firstTilde else 7 - |tail|;
        HasTail(start, firstTilde, WithTail(buffer, x, tail), tail)
    {
      hide IsDigit;
      var x := if 7 - |tail| > firstTilde then firstTilde else 7 - |tail|;
      if buffer != start {
        var w := if 7 - |was| > firstTilde then firstTilde else 7 - |was|;
        assert x <= w && w + 1 + |was| <= x + 1 + |tail|;
        assert buffer[..x] == start[..x];
        assert buffer[x + 1 + |tail|..] == start[x + 1 + |tail|..];
      }
    }

    function HexDigit(n: nat): byte
      requires n < 16
    {
      if n < 10 then 0x30 + n else 0x37 + n
    }

    /** A name gets the tail of try `index`, in the place of that of the try before. */
    method NextTry(start: Entry, firstTilde: nat, seed: nat, index: nat, was: Entry, wasRand: nat, wasHash: Hash,
                   ghost wasDigits: seq<byte>)
      returns (buffer: Entry, rand: nat, hash: Hash, ghost digits: seq<byte>)
      requires seed < 0x1_0000_0000 && 0 < index && wasRand == (if index <= 5 then 0 else seed)
      requires was == start || HasTail(start, firstTilde, was, wasDigits)
      requires |wasDigits| <= if index <= 5 then 1 else 4
      requires index > 5 ==> wasHash == TailHash(seed, index - 1)
      requires was[8..] == start[8..] && (was[0] == start[0] || was[0] == 0x7E)
      ensures Tries(start, firstTilde, seed, index, buffer) && HasTail(start, firstTilde, buffer, digits)
      ensures |digits| == (if index <= 4 then 1 else 4) && rand == if index <= 4 then 0 else seed
      ensures index > 4 ==> hash == TailHash(seed, index)
      ensures buffer[8..] == start[8..] && (buffer[0] == start[0] || buffer[0] == 0x7E)
    {
      hide HexDigit, IsDigit, HasTail, Shows, TailHash, Tries, LongBytes;
      NextHash(seed, index, wasHash);
      var tail;
      tail, hash := NextTail(index, wasRand == 0, LongBytes(seed), wasHash);
      rand := if index > 4 && wasRand == 0 then seed else wasRand;
      TailDigits(tail, index, hash);
      NewTail(start, firstTilde, was, wasDigits, tail);
      buffer, digits := WithTail(was, if 7 - |tail| > firstTilde then firstTilde else 7 - |tail|, tail), tail;
      IsTry(start, firstTilde, seed, index, buffer, tail);
    }

    /**
     The loop of FF_FindShortName for a name that may need a tail: the search ends, and the name it settles on is that
     of the first try that is not said to exist, so that it is not in use in the directory.
     */
    method FindTail(d: nat, start: Entry, firstTilde: nat, sizeOk: bool, lastFreeCluster: nat)
      returns (error: bool, buffer: Entry, ghost tries: nat)
      requires Valid() && d in dirs && lastFreeCluster < 0x1_0000_0000
      modifies `xHashCache, `exact
      ensures Valid() && old(exact) <= exact
      ensures buffer[8..] == start[8..] && (buffer[0] == start[0] || buffer[0] == 0x7E)
      ensures Tailed(start, firstTilde, sizeOk, buffer)
      ensures Settles(d, start, firstTilde, sizeOk, lastFreeCluster, tries, buffer)
      ensures error <==> Says(d, ShortString(buffer))
      ensures error ==> tries == MAX_ENTRIES_PER_DIRECTORY
      ensures !error ==> !NameInUse(dirs[d], ShortString(buffer))
    {
      hide Sound, Owned, ShortString, HexDigit, IsDigit, HasTail, Says, Final, Shows, TailHash, Tries, TriedInVain;
      hide WithTail, LongBytes;
      ghost var digits := [];
      var index := if sizeOk then 0 else 1;
      var rand, hash: Hash := 0, 0;
      buffer, error := start, false;
      while true
        invariant Valid() && old(exact) <= exact && (if sizeOk then 0 else 1) <= index <= MAX_ENTRIES_PER_DIRECTORY
        invariant buffer[8..] == start[8..] && (buffer[0] == start[0] || buffer[0] == 0x7E)
        invariant if index == 0 then sizeOk && buffer == start
                  else buffer == start || HasTail(start, firstTilde, buffer, digits)
        invariant |digits| <= if index <= 5 then 1 else 4
        invariant rand == if index <= 5 then 0 else lastFreeCluster
        invariant index > 5 ==> hash == TailHash(lastFreeCluster, index - 1)
        invariant index > (if sizeOk then 0 else 1) ==> Final(d)
        invariant forall i :: (if sizeOk then 0 else 1) <= i < index ==>
          TriedInVain(d, start, firstTilde, lastFreeCluster, i)
        decreases MAX_ENTRIES_PER_DIRECTORY - index
      {
        if index != 0 {
          buffer, rand, hash, digits := NextTry(start, firstTilde, lastFreeCluster, index, buffer, rand, hash, digits);
        } else {
          IsTry(start, firstTilde, lastFreeCluster, index, buffer, digits);
        }
        var name := ProcessShortName(buffer);
        var exists_ := ShortNameExists(d, name);
        tries := index;
        if !exists_ {
          break;
        }
        InVain(d, start, firstTilde, lastFreeCluster, index, buffer);
        if index >= MAX_ENTRIES_PER_DIRECTORY {
          error := true;
          break;
        }
        index := index + 1;
      }
    }

    lemma IsTry(start: Entry, firstTilde: nat, seed: nat, i: nat, buffer: Entry, tail: seq<byte>)
      requires seed < 0x1_0000_0000
      requires if i == 0 then buffer == start
               else HasTail(start, firstTilde, buffer, tail)
                    && if i <= 4 then tail == [0x30 + i] else Shows(tail, TailHash(seed, i))
      ensures Tries(start, firstTilde, seed, i, buffer)
    {
      hide HasTail, Shows, TailHash;
    }

    lemma InVain(d: nat, start: Entry, firstTilde: nat, seed: nat, i: nat, buffer: Entry)
      requires seed < 0x1_0000_0000 && Tries(start, firstTilde, seed, i, buffer) && Says(d, ShortString(buffer))
      ensures TriedInVain(d, start, firstTilde, seed, i)
    {
      hide Tries, Says, ShortString;
    }

    lemma NextHash(seed: nat, i: nat, was: Hash)
      requires seed < 0x1_0000_0000 && (i > 5 ==> was == TailHash(seed, i - 1))
      ensures TailHash(seed, i) == crc16(if i <= 5 || seed == 0 then LongBytes(seed) else [was % 0x100, was / 0x100])
    {
    }

    static lemma TailDigits(tail: seq<byte>, index: nat, h: Hash)
      requires 0 < index && if index <= 4 then tail == [0x30 + index] else Shows(tail, h)
      ensures |tail| == (if index <= 4 then 1 else 4) && forall i :: 0 <= i < |tail| ==> IsDigit(tail[i])
    {
    }

    /** The four bytes of a number, the lowest first */
    function LongBytes(v: nat): (x: seq<byte>)
      requires v < 0x1_0000_0000
      ensures |x| == 4
      ensures v == x[0] as nat + 0x100 * x[1] as nat + 0x1_0000 * x[2] as nat + 0x100_0000 * x[3] as nat
    {
      Digits(v, v / 0x100, v / 0x100 / 0x100, v / 0x100 / 0x100 / 0x100);
      [v % 0x100, v / 0x100 % 0x100, v / 0x100 / 0x100 % 0x100, v / 0x100 / 0x100 / 0x100]
    }

    static lemma Digits(v: nat, a: nat, b: nat, c: nat)
      requires v < 0x1_0000_0000 && a == v / 0x100 && b == a / 0x100 && c == b / 0x100
      ensures c < 0x100 && v == v % 0x100 + 0x100 * (a % 0x100) + 0x1_0000 * (b % 0x100) + 0x100_0000 * c
    {
    }

    function WithTail(buffer: Entry, x: nat, tail: seq<byte>): (r: Entry)
      requires x + 1 + |tail| <= 8
      ensures r[8..] == buffer[8..] && (r[0] == buffer[0] || r[0] == 0x7E)
    {
      buffer[..x] + [0x7E] + tail + buffer[x + 1 + |tail|..]
    }

    /** The test of FF_FindEntryInDir whether a file has the short name already */
    method ShortNameFound(entries: seq<Entry>, buffer: Entry) returns (found: bool)
      ensures found <==> Taken(entries, buffer[..11])
    {
      hide IsLongPart, IsVolumeLabel;
      found := false;
      for i := 0 to if |entries| < MAX_ENTRIES_PER_DIRECTORY then |entries| else MAX_ENTRIES_PER_DIRECTORY
        invariant forall j :: 0 <= j < i ==> !IsEndOfDir(entries[j])
        invariant found <==> exists j: nat :: j < i && LiveAt(entries, j) && entries[j][..11] == buffer[..11]
      {
        var e := entries[i];
        if IsEndOfDir(e) {
          break;
        }
        if !IsDeleted(e) && !IsLongPart(e) && !IsVolumeLabel(e) && e[..11] == buffer[..11] {
          assert LiveAt(entries, i);
          found := true;
        }
      }
    }

    /**
     FF_FindShortName: a name that fits 8.3 is taken as it is, unless the check says that it exists; any other gets one
     that is not in use.
     */
    method FindShortName(d: nat, start: Entry, firstTilde: nat, sizeOk: bool, lastFreeCluster: nat, check: Check)
      returns (error: bool, buffer: Entry)
      requires Valid() && d in dirs && lastFreeCluster < 0x1_0000_0000
      modifies `xHashCache, `exact
      ensures Valid() && old(exact) <= exact
      ensures buffer[8..] == start[8..] && (buffer[0] == start[0] || buffer[0] == 0x7E)
      ensures !check.NoFit? ==> buffer == start
      ensures check.Checked? ==> (error <==> check.found)
      ensures check.Looked? ==> (error <==> check.cluster != 0)
      ensures check.NoFit? ==> Tailed(start, firstTilde, sizeOk, buffer) && (error <==> Says(d, ShortString(buffer)))
      ensures check.NoFit? ==> exists i: nat :: Settles(d, start, firstTilde, sizeOk, lastFreeCluster, i, buffer)
      ensures check.NoFit? && !error ==> !NameInUse(dirs[d], ShortString(buffer)) && !Taken(dirs[d], buffer[..11])
    {
      hide Sound, Owned, ShortString, LiveAt, Tailed, Settles, Says;
      error, buffer := Refused(check), start;
      if check.NoFit? {
        ghost var tries;
        error, buffer, tries := FindTail(d, start, firstTilde, sizeOk, lastFreeCluster);
        UnusedIsFree(dirs[d], buffer);
      }
    }

    static lemma UnusedIsFree(entries: seq<Entry>, buffer: Entry)
      ensures !NameInUse(entries, ShortString(buffer)) ==> !Taken(entries, buffer[..11])
    {
      hide IsLongPart, IsVolumeLabel, IsEndOfDir, UpToSpace;
      if Taken(entries, buffer[..11]) {
        var i: nat :| LiveAt(entries, i) && entries[i][..11] == buffer[..11];
        var e := entries[i];
        assert e[..8] == e[..11][..8] && e[8] == e[..11][8] && e[8..11] == e[..11][8..];
        assert buffer[..8] == buffer[..11][..8] && buffer[8] == buffer[..11][8] && buffer[8..11] == buffer[..11][8..];
        assert ShortString(e) == ShortString(buffer);
      }
    }

    /** The fields of a short entry behind its name, as FF_CreateDirent fills them in: not those of a label */
    predicate IsFields(rest: seq<byte>) {
      |rest| == ENTRY_SIZE - 11 && rest[0] / 8 % 2 == 0
    }

    /** The number of entries in front of the short one */
    static function PartsFor(fits: bool, name: seq<byte>): nat {
      if fits then 0 else Pieces(|name|)
    }

    /**
     The end of FF_CreateDirent, with room found from `at` on: the pieces of the long name are written in front of the
     short entry, whose number is cut to 16 bits.
     */
    method WriteDirent(d: nat, at: nat, fits: bool, name: seq<byte>, e: Entry) returns (error: bool)
      requires Valid() && d in dirs && IsHashed(e) && at < MAX_ENTRIES_PER_DIRECTORY
      requires RoomAt(dirs[d], at, PartsFor(fits, name) + 1)
      modifies `xHashCache, `dirs, `exact
      ensures Valid() && d in dirs && dirs == old(dirs)[d := dirs[d]] && |dirs[d]| == |old(dirs)[d]|
      ensures var i := at + PartsFor(fits, name);
        && (error <==> (!fits && |name| > MAX_FILENAME) || i % 0x1_0000 >= |dirs[d]|)
        && (!error && i < MAX_ENTRIES_PER_DIRECTORY ==>
             && Added(old(dirs)[d], dirs[d], i, e) && old(exact) <= exact
             && (!fits ==> HoldsName(dirs[d], at, name, CheckSum(e[..11]))))
        && (!error ==> dirs[d][i % 0x1_0000] == e)
      ensures error ==> SameLive(old(dirs)[d], dirs[d]) && exact == old(exact)
      ensures forall j: nat :: LiveAt(old(dirs)[d], j) ==> LiveAt(dirs[d], j)
    {
      hide Sound, Owned, LiveAt, SameLive, ShortString, IsEndOfDir, IsFree, HoldsName, Pieces, IsHashed, CheckSum;
      ghost var was := dirs[d];
      error := false;
      SameLiveSelf(was);
      AllLive(was, was);
      var pieces := PartsFor(fits, name);
      if pieces > 0 {
        var sum := CreateChkSum(e);
        error := CreateLFNs(d, name, sum, at);
        if error {
          return;
        }
      } else if !fits {
        NoPieces(dirs[d], at, name, CheckSum(e[..11]));
      }
      ghost var named := dirs[d];
      AllLive(was, named);
      DirectoryClosed(d);
      error := PutDirent(d, (at + pieces) % 0x1_0000, e);
      if !error {
        Overwritten(was, named, (at + pieces) % 0x1_0000, e);
        if at + pieces < MAX_ENTRIES_PER_DIRECTORY {
          IsAdded(was, named, at + pieces, e);
          if !fits {
            NameKept(named, at, name, CheckSum(e[..11]), e);
          }
        }
      }
    }

    static lemma NoPieces(entries: seq<Entry>, at: nat, name: seq<byte>, sum: byte)
      requires Pieces(|name|) == 0
      ensures name == [] && (at <= |entries| ==> HoldsName(entries, at, name, sum))
    {
    }

    static lemma NameKept(entries: seq<Entry>, at: nat, name: seq<byte>, sum: byte, e: Entry)
      requires HoldsName(entries, at, name, sum) && at + Pieces(|name|) < |entries|
      ensures HoldsName(WithEntry(entries, at + Pieces(|name|), e), at, name, sum)
    {
      hide HoldsPiece, PieceOf;
      var after := WithEntry(entries, at + Pieces(|name|), e);
      forall k | 0 <= k < Pieces(|name|) ensures HoldsPieceAt(after, at, name, sum, k) {
        assert HoldsPieceAt(entries, at, name, sum, k);
      }
    }

    /**
     FF_CreateDirent: a short name is settled on, then room for the entries is found, and they are written. A name that
     fits 8.3 needs no pieces. Names that are unique in the directory stay so exactly if this one was not taken, which a
     name that does not fit never is.
     */
    method CreateDirent(d: nat, start: Entry, firstTilde: nat, sizeOk: bool, lastFreeCluster: nat, check: Check,
                        name: seq<byte>, rest: seq<byte>, first: nat, canExtend: bool)
      returns (error: bool, refused: bool, at: nat, e: Entry)
      requires Valid() && d in dirs && lastFreeCluster < 0x1_0000_0000
      requires start[0] != 0 && start[0] != DELETED && IsFields(rest)
      requires first <= |dirs[d]| && forall j :: 0 <= j < first ==> !IsEndOfDir(dirs[d][j])
      modifies `xHashCache, `dirs, `exact
      ensures Valid() && d in dirs && dirs == old(dirs)[d := dirs[d]] && e[8..11] == start[8..11] && e[11..] == rest
      ensures !check.NoFit? ==> e[..11] == start[..11]
      ensures check.Checked? ==> (refused <==> check.found)
      ensures check.Looked? ==> (refused <==> check.cluster != 0)
      ensures check.NoFit? ==> Tailed(start, firstTilde, sizeOk, e[..11] + start[11..])
      ensures var i := at + PartsFor(!check.NoFit?, name);
        && (!error && i < MAX_ENTRIES_PER_DIRECTORY ==>
             && Added(old(dirs)[d], dirs[d], i, e) && old(exact) <= exact
             && (UniqueNames(dirs[d]) <==> UniqueNames(old(dirs)[d]) && !Taken(old(dirs)[d], e[..11]))
             && (check.NoFit? ==>
                  && !NameInUse(old(dirs)[d], ShortString(e)) && !Taken(old(dirs)[d], e[..11])
                  && HoldsName(dirs[d], at, name, CheckSum(e[..11]))))
        && (!error ==> i % 0x1_0000 < |dirs[d]| && dirs[d][i % 0x1_0000] == e)
        && (!refused && canExtend && (!check.NoFit? || |name| <= MAX_FILENAME)
            && |old(dirs)[d]| < MAX_ENTRIES_PER_DIRECTORY ==>
              && (error <==> i % 0x1_0000 >= |dirs[d]|) && at <= |old(dirs)[d]|
                && |dirs[d]| == |old(dirs)[d]| + if i < |old(dirs)[d]| then 0 else perCluster)
        && (!error ==> NoRun(old(dirs)[d], first, at, PartsFor(!check.NoFit?, name) + 1))
      ensures refused ==> error
      ensures error ==> SameLive(old(dirs)[d], dirs[d]) && old(exact) <= exact
      ensures forall j: nat :: LiveAt(old(dirs)[d], j) ==> LiveAt(dirs[d], j)
    {
      hide Sound, Owned, LiveAt, SameLive, ShortString, IsEndOfDir, IsFree, HoldsName, UniqueNames, Pieces;
      hide Added, NameInUse, Taken, Tailed, Settles, Says, NoRun;
      error, at := false, 0;
      SameLiveSelf(dirs[d]);
      AllLive(dirs[d], dirs[d]);
      var buffer;
      refused, buffer := FindShortName(d, start, firstTilde, sizeOk, lastFreeCluster, check);
      e := buffer[..11] + rest;
      NameOf(start, buffer, rest);
      assert dirs == old(dirs)[d := dirs[d]];
      if refused {
        error := true;
        return;
      }
      ShortEntry(buffer, rest);
      at, error := PlaceDirent(d, !check.NoFit?, name, e, first, canExtend);
    }

    /** The part of FF_CreateDirent that comes after the choice of the short name */
    method PlaceDirent(d: nat, fits: bool, name: seq<byte>, e: Entry, first: nat, canExtend: bool)
      returns (at: nat, error: bool)
      requires Valid() && d in dirs && IsHashed(e)
      requires first <= |dirs[d]| && forall j :: 0 <= j < first ==> !IsEndOfDir(dirs[d][j])
      modifies `xHashCache, `dirs, `exact
      ensures Valid() && d in dirs && dirs == old(dirs)[d := dirs[d]]
      ensures var i := at + PartsFor(fits, name);
        && (!error && i < MAX_ENTRIES_PER_DIRECTORY ==>
             && Added(old(dirs)[d], dirs[d], i, e) && old(exact) <= exact
             && (UniqueNames(dirs[d]) <==> UniqueNames(old(dirs)[d]) && !Taken(old(dirs)[d], e[..11]))
             && (!fits ==> HoldsName(dirs[d], at, name, CheckSum(e[..11]))))
        && (!error ==> i % 0x1_0000 < |dirs[d]| && dirs[d][i % 0x1_0000] == e)
        && (canExtend && (fits || |name| <= MAX_FILENAME) && |old(dirs)[d]| < MAX_ENTRIES_PER_DIRECTORY ==>
             && (error <==> i % 0x1_0000 >= |dirs[d]|) && at <= |old(dirs)[d]|
             && |dirs[d]| == |old(dirs)[d]| + if i < |old(dirs)[d]| then 0 else perCluster)
        && (!error ==> NoRun(old(dirs)[d], first, at, PartsFor(fits, name) + 1))
      ensures error ==> SameLive(old(dirs)[d], dirs[d]) && old(exact) <= exact
      ensures forall j: nat :: LiveAt(old(dirs)[d], j) ==> LiveAt(dirs[d], j)
    {
      hide Sound, Owned, LiveAt, SameLive, ShortString, IsEndOfDir, IsFree, HoldsName, UniqueNames, Pieces;
      hide Added, NameInUse, Taken, IsHashed, DeletedRun, NoRun;
      ghost var was := dirs[d];
      at, error := FindFreeDirent(d, first, PartsFor(fits, name) + 1, canExtend);
      ghost var room := dirs[d];
      AllLive(was, room);
      if error {
        return;
      }
      error := WriteDirent(d, at, fits, name, e);
      if error {
        SameLiveTwice(was, room, dirs[d]);
        AllLive(was, dirs[d]);
      } else if at + PartsFor(fits, name) < MAX_ENTRIES_PER_DIRECTORY {
        StillAdded(was, room, dirs[d], at + PartsFor(fits, name), e);
        AddedUnique(was, dirs[d], at + PartsFor(fits, name), e);
      }
    }

    static lemma NameOf(start: Entry, buffer: Entry, rest: seq<byte>)
      requires buffer[8..] == start[8..]
      ensures var e := buffer[..11] + rest;
        && e[..11] + start[11..] == buffer && e[8..11] == start[8..11] && e[..11] == buffer[..11] && e[11..] == rest
    {
      assert buffer[11..] == buffer[8..][3..];
      assert buffer[8..11] == buffer[8..][..3] && start[8..11] == start[8..][..3];
    }

    static lemma ShortEntry(buffer: Entry, rest: seq<byte>)
      requires buffer[0] != 0 && buffer[0] != DELETED && |rest| == ENTRY_SIZE - 11 && rest[0] / 8 % 2 == 0
      ensures IsHashed(buffer[..11] + rest) && ShortString(buffer[..11] + rest) == ShortString(buffer)
      ensures (buffer[..11] + rest)[..11] == buffer[..11] && (buffer[..11] + rest)[11..] == rest
    {
      var e := buffer[..11] + rest;
      assert e[..8] == buffer[..8] && e[8..11] == buffer[8..11];
      assert e[DIRENT_ATTRIB] == rest[0];
    }

    /** What FF_Move does to the old entry: the entries of its long name are deleted, and it is marked. */
    method LeaveEntry(d: nat, i: nat) returns (ghost from: nat, ghost cleaned: seq<Entry>)
      requires Valid() && d in dirs && LiveAt(dirs[d], i)
      modifies `dirs, `exact
      ensures from <= i < |cleaned| == |old(dirs)[d]|
      ensures Valid() && d in dirs && dirs == old(dirs)[d := WithEntry(cleaned, i, Marked(cleaned[i]))]
      ensures Removed(old(dirs)[d], dirs[d], i) && i < |dirs[d]| && dirs[d][i][0] == 0xE5 && Unnamed(dirs[d], i)
      ensures forall j :: from <= j < i ==> old(dirs)[d][j][DIRENT_ATTRIB] == ATTR_LFN
      ensures forall j :: 0 <= j < from || i <= j < |cleaned| ==> cleaned[j] == old(dirs)[d][j]
      ensures var keeps := Slot(xHashCache, d) == |xHashCache|
                           || HashInUse(crc16, dirs[d], crc16(ShortString(old(dirs)[d][i])));
        && exact == (if keeps then old(exact) else old(exact) - {d})
        && (d in old(exact) ==> (ExactFor(xHashCache, crc16, dirs, d) <==> keeps))
    {
      hide Sound, Owned, LiveAt, SameLive, ShortString, HashInUse, ExactFor, Removed, Unnamed;
      NothingEndsBefore(dirs[d], i);
      from := RmLFNs(d, i);
      cleaned := dirs[d];
      MarkEntry(old(dirs)[d], d, i);
    }

    /**
     FF_Move: the entry gets a new one in the target directory, and the old one is marked, with no table given up. Every
     table still misses no name; an exact table of the old directory stays exact exactly if another live entry has the
     same hash.
     */
    method MoveEntry(d: nat, i: nat, target: nat, start: Entry, firstTilde: nat, sizeOk: bool, lastFreeCluster: nat,
                     check: Check, name: seq<byte>, rest: seq<byte>, canExtend: bool)
      returns (error: bool, refused: bool, at: nat, e: Entry)
      requires Valid() && d in dirs && target in dirs && LiveAt(dirs[d], i) && lastFreeCluster < 0x1_0000_0000
      requires start[0] != 0 && start[0] != DELETED && IsFields(rest)
      modifies `xHashCache, `dirs, `exact
      ensures Valid() && dirs.Keys == old(dirs.Keys) && e[11..] == rest
      ensures forall c :: c in dirs && c != d && c != target ==> dirs[c] == old(dirs)[c]
      ensures error ==> forall c :: c in dirs ==> SameLive(old(dirs)[c], dirs[c])
      ensures !error ==> !LiveAt(dirs[d], i) && i < |dirs[d]| && dirs[d][i][0] == 0xE5 && Unnamed(dirs[d], i)
      ensures var k := at + PartsFor(!check.NoFit?, name);
        !error && k < MAX_ENTRIES_PER_DIRECTORY ==>
          && LiveAt(dirs[target], k) && dirs[target][k] == e && i < |old(dirs)[d]|
          && (d != target ==> Removed(old(dirs)[d], dirs[d], i) && Added(old(dirs)[target], dirs[target], k, e))
          && (d == target ==> Renamed(old(dirs)[d], dirs[d], i, k, e))
          && (UniqueNames(old(dirs)[target]) && !Taken(old(dirs)[target], e[..11]) ==> UniqueNames(dirs[target]))
          && (check.NoFit? ==>
               !Taken(old(dirs)[target], e[..11]) && HoldsName(dirs[target], at, name, CheckSum(e[..11])))
          && var keeps := Slot(xHashCache, d) == |xHashCache|
                          || HashInUse(crc16, dirs[d], crc16(ShortString(old(dirs)[d][i])));
             && (d in old(exact) ==> (ExactFor(xHashCache, crc16, dirs, d) <==> keeps))
             && old(exact) - {d} <= exact
    {
      hide Sound, Owned, LiveAt, SameLive, ShortString, HashInUse, ExactFor, IsHashed, UniqueNames, HoldsName, Pieces;
      hide Added, Removed, Renamed, NameInUse, Taken, CheckSum, IsEndOfDir, Unnamed;
      ghost var was := dirs;
      forall c | c in dirs ensures SameLive(dirs[c], dirs[c]) {
        SameLiveSelf(dirs[c]);
      }
      NothingEndsBefore(dirs[d], i);
      error, refused, at, e := CreateDirent(target, start, firstTilde, sizeOk, lastFreeCluster, check, name, rest, 0,
                                            canExtend);
      if error {
        return;
      }
      ghost var created, k := dirs, at + PartsFor(!check.NoFit?, name);
      NothingEndsBefore(dirs[d], i);
      ghost var from, cleaned := LeaveEntry(d, i);
      NotLive(created[d], dirs[d], i);
      if k < MAX_ENTRIES_PER_DIRECTORY {
        Moved(was[target], created[target], k, e);
        StillThere(was[d], i);
        if d == target {
          IsRenamed(was[d], created[d], dirs[d], i, k, e);
          RemovedUnique(created[d], dirs[d], i);
          if check.NoFit? {
            NameStays(created[d], cleaned, dirs[d], from, i, at, name, CheckSum(e[..11]));
          }
        }
      }
    }

    /** The entries of a new name, with its short entry behind them, are not among those of an old one. */
    static lemma NameStays(created: seq<Entry>, cleaned: seq<Entry>, entries: seq<Entry>, from: nat, i: nat, at: nat,
                           name: seq<byte>, sum: byte)
      requires HoldsName(created, at, name, sum) && |created| == |cleaned| && from <= i < |created|
      requires var k := at + Pieces(|name|);
        k < |created| && k != i && created[k][DIRENT_ATTRIB] != ATTR_LFN
      requires !IsLongPart(created[i])
      requires forall j :: from <= j < i ==> created[j][DIRENT_ATTRIB] == ATTR_LFN
      requires forall j :: 0 <= j < from || i <= j < |created| ==> cleaned[j] == created[j]
      requires entries == WithEntry(cleaned, i, Marked(cleaned[i]))
      ensures HoldsName(entries, at, name, sum)
    {
      hide PieceOf, Unit, UnitPosition, Pieces;
      var n := Pieces(|name|);
      forall j | at <= j < at + n ensures created[j][DIRENT_ATTRIB] == ATTR_LFN {
        assert HoldsPieceAt(created, at, name, sum, at + n - 1 - j);
      }
      assert created[i][DIRENT_ATTRIB] != ATTR_LFN;
      assert forall j :: at <= j < at + n ==> entries[j] == created[j];
      forall p | 0 <= p < n ensures HoldsPieceAt(entries, at, name, sum, p) {
        assert HoldsPieceAt(created, at, name, sum, p);
      }
    }
  }
}
