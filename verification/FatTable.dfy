/**
 The file allocation table of a mounted FAT16 or FAT32 partition, ff_fat.c, over the sectors that hold its copies.
 */
module FatTable {
  import opened Arithmetic
  import opened Bytes
  import opened FatChains
  import opened FatBytes
  import opened FatFree

  /** The sector that FAT32 keeps for the free cluster count and a hint; `valid` when its signatures are right. */
  datatype FsInfo = FsInfo(valid: bool, freeCount: nat, nextFree: nat)

  const UNKNOWN_COUNT: nat := 0xFFFF_FFFF

  class Partition {
    const ucType: Kind
    const usSectorSize: nat
    const ulEntriesPerSector: nat
    const ulSectorsPerFAT: nat
    const ucNumFATS: nat
    const ulNumClusters: nat
    const ulRootDirCluster: nat
    const fats: array<byte>

    var ulLastFreeCluster: nat
    var ulFreeClusterCount: nat
    var fsInfo: FsInfo

    /** The entries, the chains and the place of each cluster in its chain */
    ghost var table: seq<nat>
    ghost var chains: map<Cluster, seq<Cluster>>
    ghost var home: map<Cluster, Place>

    ghost predicate Geometry()
      reads `table
    {
      && 0 < ulEntriesPerSector && usSectorSize == EntrySize(ucType) * ulEntriesPerSector
      && 0 < ucNumFATS && |table| == ulSectorsPerFAT * ulEntriesPerSector && ulNumClusters <= |table|
      && fats.Length < 0x1_0000_0000
    }

    ghost predicate Stored()
      reads `table, fats
    {
      Geometry() && Mirrored(ucType, fats[..], ucNumFATS, ulSectorsPerFAT * usSectorSize, table)
    }

    ghost predicate Valid()
      reads this, fats
    {
      && Stored() && WellFormed(ucType, table, ulNumClusters, chains, home)
      && SoundHint(table, ulNumClusters, ulLastFreeCluster)
    }

    /** Where FF_FindFreeCluster starts: FAT32 without a hint takes that of the FSINFO sector. */
    function Start(): nat
      reads `ulLastFreeCluster, `fsInfo
    {
      if ucType.Fat32? && ulLastFreeCluster == 0 && fsInfo.valid then fsInfo.nextFree else ulLastFreeCluster
    }

    /** A table found on the disk when the partition is mounted */
    constructor Mount(kind: Kind, sectorSize: nat, perSector: nat, sectors: nat, copies: nat, clusters: nat, root: nat,
                      info: FsInfo, disk: array<byte>, ghost entries: seq<nat>, ghost found: map<Cluster, seq<Cluster>>,
                      ghost places: map<Cluster, Place>)
      requires 0 < perSector && sectorSize == EntrySize(kind) * perSector && 0 < copies && disk.Length < 0x1_0000_0000
      requires |entries| == sectors * perSector && clusters <= |entries|
      requires Mirrored(kind, disk[..], copies, sectors * sectorSize, entries)
      requires WellFormed(kind, entries, clusters, found, places)
      ensures Stored() && Linkage() && fats == disk && table == entries && chains == found && home == places
      ensures ucType == kind && fsInfo == info && ulLastFreeCluster == 0
    {
      hide Mirrored, WellFormed;
      ucType, usSectorSize, ulEntriesPerSector := kind, sectorSize, perSector;
      ulSectorsPerFAT, ucNumFATS := sectors, copies;
      ulNumClusters, ulRootDirCluster, fats := clusters, root, disk;
      ulLastFreeCluster, ulFreeClusterCount, fsInfo := 0, 0, info;
      table, chains, home := entries, found, places;
    }

    /**
     The end of FF_Mount: the hint and the free count of the table found on the disk. The hint is sound exactly if
     none is found or no free cluster lies below the start of the search, and the count is right exactly if the FSINFO
     sector, where it is trusted, has it right.
     */
    method FindFree()
      requires Stored() && Linkage() && ulLastFreeCluster == 0
      modifies `ulLastFreeCluster, `ulFreeClusterCount
      ensures exists error :: HintFound(old(Start()), ulLastFreeCluster, error)
      ensures ulFreeClusterCount == if FsInfoTrusted() then fsInfo.freeCount else FreeClusters()
      ensures Valid() <==> ulLastFreeCluster == 0 || SoundHint(table, ulNumClusters, old(Start()))
      ensures CountRight() <==> !FsInfoTrusted() || fsInfo.freeCount == FreeClusters()
      ensures !(ucType.Fat32? && fsInfo.valid) ==> Valid() && CountRight()
    {
      hide Mirrored, WellFormed, SoundHint, FirstFree, HintFound;
      ReservedEntries();
      HintFromStart(table, ulNumClusters);
      var error: bool;
      ghost var start := Start();
      ulLastFreeCluster, error := FindFreeCluster();
      if error {
        ulLastFreeCluster := 0;
      }
      ulFreeClusterCount := CountFreeClusters();
      assert HintFound(start, ulLastFreeCluster, error);
    }

    lemma EntryAddress(c: nat)
      requires Stored() && c < |table|
      ensures var offset := c * EntrySize(ucType);
        && 0 < usSectorSize && offset % usSectorSize + EntrySize(ucType) <= usSectorSize
        && offset / usSectorSize * usSectorSize + offset % usSectorSize == offset
        && HasEntry(ucType, fats[..], offset, table[c])
    {
      hide HasEntry;
      assert (c * EntrySize(ucType)) % EntrySize(ucType) == 0;
      SectorOf(c * EntrySize(ucType), EntrySize(ucType), ulEntriesPerSector, usSectorSize);
      assert Copy(ucType, fats[..], 0 * (ulSectorsPerFAT * usSectorSize), table);
      assert HasEntry(ucType, fats[..], 0 + c * EntrySize(ucType), table[c]);
    }

    /** FF_getLong or FF_getShort on the buffer of a sector */
    method ReadEntry(sector: nat, position: nat) returns (entry: nat)
      requires sector * usSectorSize + position + EntrySize(ucType) <= fats.Length
      ensures HasEntry(ucType, fats[..], sector * usSectorSize + position, entry)
    {
      hide Decode;
      var at := sector * usSectorSize + position;
      entry := Decode(ucType, fats[at..at + EntrySize(ucType)]);
      assert fats[..][at..at + EntrySize(ucType)] == fats[at..at + EntrySize(ucType)];
    }

    lemma EntryIsBytes(c: nat)
      requires Stored() && c < |table|
      ensures ucType.Fat16? ==>
        2 * c + 1 < fats.Length && table[c] == fats[2 * c] as nat + 0x100 * fats[2 * c + 1] as nat
      ensures ucType.Fat32? ==>
        && 4 * c + 3 < fats.Length
        && table[c] == (fats[4 * c] as nat + 0x100 * fats[4 * c + 1] as nat + 0x1_0000 * fats[4 * c + 2] as nat
                        + 0x100_0000 * fats[4 * c + 3] as nat) % 0x1000_0000
    {
      hide Decode, Mirrored, HasEntry;
      EntryAddress(c);
      EntryBytes(ucType, fats[..], c * EntrySize(ucType), table[c]);
    }

    /** FF_getFATEntry */
    method GetFATEntry(ulCluster: nat) returns (entry: nat, error: bool)
      requires Stored()
      ensures error <==> ulCluster >= ulNumClusters
      ensures entry == if error then 0 else table[ulCluster]
      ensures !error && ucType.Fat16? ==>
        2 * ulCluster + 1 < fats.Length && entry == fats[2 * ulCluster] as nat + 0x100 * fats[2 * ulCluster + 1] as nat
      ensures !error && ucType.Fat32? ==>
        && 4 * ulCluster + 3 < fats.Length
        && entry == (fats[4 * ulCluster] as nat + 0x100 * fats[4 * ulCluster + 1] as nat
                     + 0x1_0000 * fats[4 * ulCluster + 2] as nat + 0x100_0000 * fats[4 * ulCluster + 3] as nat)
                    % 0x1000_0000
    {
      hide Mirrored, HasEntry;
      error, entry := ulCluster >= ulNumClusters, 0;
      if !error {
        EntryAddress(ulCluster);
        var ulFATOffset := ulCluster * EntrySize(ucType);
        var ulFATSector, ulRelClusterEntry := ulFATOffset / usSectorSize, ulFATOffset % usSectorSize;
        Inside(ucType, fats[..], ulFATOffset, table[ulCluster]);
        entry := ReadEntry(ulFATSector, ulRelClusterEntry);
        SameEntry(ucType, fats[..], ulFATOffset, entry, table[ulCluster]);
        EntryIsBytes(ulCluster);
      }
    }

    /** FF_putFATEntry, which writes all the copies of the table */
    method PutFATEntry(ulCluster: nat, ulValue: nat) returns (error: bool)
      requires Stored()
      modifies fats, `table
      ensures Stored() && (error <==> ulCluster == 0 || ulCluster >= ulNumClusters)
      ensures error ==> fats[..] == old(fats[..]) && table == old(table)
      ensures !error ==> table == old(table)[ulCluster := Held(ucType, ulValue)]
      ensures !error ==> forall k :: 0 <= k < ucNumFATS ==>
        var at := CopyStart(k) + ulCluster * EntrySize(ucType);
        && at + EntrySize(ucType) <= fats.Length
        && fats[at] == ulValue % 0x100 && fats[at + 1] == ulValue / 0x100 % 0x100
        && (ucType.Fat32? ==> fats[at + 2] == ulValue / 0x1_0000 % 0x100 && fats[at + 3] == ulValue / 0x100_0000 % 0x10)
      ensures !error ==> forall k: nat, j: nat ::
        k < ucNumFATS && j < PerCopy()
        && (j < ulCluster * EntrySize(ucType) || (ulCluster + 1) * EntrySize(ucType) <= j) ==>
          ByteOf(fats[..], PerCopy(), k, j) == old(ByteOf(fats[..], PerCopy(), k, j))
    {
      hide Mirrored, PartlyWritten, Encode, Held, Splice, Put, ByteOf, CopyStart, PerCopy;
      error := ulCluster == 0 || ulCluster >= ulNumClusters;
      if !error {
        EntryAddress(ulCluster);
        var ulFATOffset := ulCluster * EntrySize(ucType);
        WriteCopies(ulFATOffset / usSectorSize, ulFATOffset % usSectorSize, ulCluster, ulValue);
        EntryWritten(old(fats[..]), ulCluster, ulValue);
      }
    }

    lemma EntryWritten(before: seq<byte>, c: nat, value: nat)
      requires Stored() && c < |table|
      requires Put(before, fats[..], ucNumFATS, PerCopy(), c * EntrySize(ucType), Encode(ucType, value), ucNumFATS)
      ensures forall k :: 0 <= k < ucNumFATS ==>
        var at := CopyStart(k) + c * EntrySize(ucType);
        && at + EntrySize(ucType) <= fats.Length
        && fats[at] == value % 0x100 && fats[at + 1] == value / 0x100 % 0x100
        && (ucType.Fat32? ==> fats[at + 2] == value / 0x1_0000 % 0x100 && fats[at + 3] == value / 0x100_0000 % 0x10)
      ensures forall k: nat, j: nat ::
        k < ucNumFATS && j < PerCopy() && (j < c * EntrySize(ucType) || (c + 1) * EntrySize(ucType) <= j) ==>
          ByteOf(fats[..], PerCopy(), k, j) == ByteOf(before, PerCopy(), k, j)
    {
      hide Copy, Put, Encode, ByteOf;
      Stores();
      CopiesApart(c, |table|, EntrySize(ucType));
      forall k | 0 <= k < ucNumFATS
        ensures var at := CopyStart(k) + c * EntrySize(ucType);
          && at + EntrySize(ucType) <= fats.Length
          && fats[at] == value % 0x100 && fats[at + 1] == value / 0x100 % 0x100
          && (ucType.Fat32? ==> fats[at + 2] == value / 0x1_0000 % 0x100 && fats[at + 3] == value / 0x100_0000 % 0x10)
      {
        PutMeans(ucType, before, fats[..], ucNumFATS, PerCopy(), c * EntrySize(ucType), value, k);
      }
      PutElsewhere(before, fats[..], ucNumFATS, PerCopy(), c * EntrySize(ucType), Encode(ucType, value));
    }

    ghost function PerCopy(): nat {
      ulSectorsPerFAT * usSectorSize
    }

    /** The loop of FF_putFATEntry over the copies of the table */
    method WriteCopies(firstSector: nat, position: nat, ulCluster: nat, ulValue: nat)
      requires Stored() && ulCluster < |table|
      requires firstSector * usSectorSize + position == ulCluster * EntrySize(ucType)
      modifies fats, `table
      ensures Stored() && table == old(table)[ulCluster := Held(ucType, ulValue)]
      ensures Put(old(fats[..]), fats[..], ucNumFATS, PerCopy(), ulCluster * EntrySize(ucType), Encode(ucType, ulValue),
                  ucNumFATS)
    {
      hide Mirrored, PartlyWritten, Encode, Held, Splice, PerCopy, Put;
      ghost var after := table[ulCluster := Held(ucType, ulValue)];
      var ulFATSector := firstSector;
      Stores();
      Writing(ucType, fats[..], ucNumFATS, PerCopy(), table, after);
      NothingPut(fats[..], ucNumFATS, PerCopy(), ulCluster * EntrySize(ucType), Encode(ucType, ulValue));
      for index := 0 to ucNumFATS
        invariant table == old(table)
        invariant ulFATSector * usSectorSize + position == CopyStart(index) + ulCluster * EntrySize(ucType)
        invariant PartlyWritten(ucType, fats[..], ucNumFATS, PerCopy(), table, after, index)
        invariant Put(old(fats[..]), fats[..], ucNumFATS, PerCopy(), ulCluster * EntrySize(ucType),
                      Encode(ucType, ulValue), index)
      {
        hide CopyStart;
        CopyStartIs(index);
        WriteNext(ucType, fats[..], ucNumFATS, PerCopy(), table, ulCluster, ulValue, index);
        PutNext(old(fats[..]), fats[..], ucNumFATS, PerCopy(), ulCluster * EntrySize(ucType), Encode(ucType, ulValue),
                index);
        Memcpy(fats, ulFATSector * usSectorSize + position, Encode(ucType, ulValue));
        NextCopy(index, ulFATSector);
        ulFATSector := ulFATSector + ulSectorsPerFAT;
      }
      Writing(ucType, fats[..], ucNumFATS, PerCopy(), table, after);
      table := after;
      StoresBack();
    }

    ghost function CopyStart(index: nat): nat {
      index * PerCopy()
    }

    lemma CopyStartIs(index: nat)
      ensures CopyStart(index) == index * PerCopy()
    {
    }

    lemma NextCopy(index: nat, sector: nat)
      ensures (sector + ulSectorsPerFAT) * usSectorSize == sector * usSectorSize + PerCopy()
      ensures CopyStart(index + 1) == CopyStart(index) + PerCopy()
    {
    }

    lemma Stores()
      requires Stored()
      ensures Geometry() && Mirrored(ucType, fats[..], ucNumFATS, PerCopy(), table)
    {
      hide Mirrored;
    }

    lemma StoresBack()
      requires Geometry() && Mirrored(ucType, fats[..], ucNumFATS, PerCopy(), table)
      ensures Stored()
    {
      hide Mirrored;
    }

    /** The clusters of one sector, until a free one or the last usable one */
    method ScanSector(sector: nat, cluster: nat, offset: nat, entry: nat)
      returns (cluster': nat, offset': nat, entry': nat)
      requires Stored() && sector < ulSectorsPerFAT && entry != 0
      requires cluster < ulNumClusters ==>
        cluster == sector * ulEntriesPerSector + cluster % ulEntriesPerSector && offset == cluster * EntrySize(ucType)
      ensures cluster <= cluster' && forall d :: cluster <= d < cluster' && d < |table| ==> table[d] != 0
      ensures entry' == 0 ==> cluster' < ulNumClusters && table[cluster'] == 0
      ensures entry' != 0 && cluster' < ulNumClusters ==>
        cluster' == (sector + 1) * ulEntriesPerSector && offset' == cluster' * EntrySize(ucType)
      ensures cluster >= ulNumClusters ==> cluster' == cluster
      ensures cluster <= ulNumClusters ==> cluster' <= ulNumClusters
    {
      hide Mirrored;
      cluster', offset', entry' := cluster, offset, entry;
      var x := cluster % ulEntriesPerSector;
      while x < ulEntriesPerSector
        invariant x <= ulEntriesPerSector && cluster <= cluster' && entry' != 0
        invariant forall d :: cluster <= d < cluster' && d < |table| ==> table[d] != 0
        invariant cluster < ulNumClusters ==>
          && cluster' <= ulNumClusters && cluster' == sector * ulEntriesPerSector + x
          && offset' == cluster' * EntrySize(ucType)
        invariant cluster >= ulNumClusters ==> cluster' == cluster && x < ulEntriesPerSector
      {
        if cluster' >= ulNumClusters {
          break;
        }
        PlaceInSector(sector, x, cluster');
        var ulFATSectorEntry := offset' % usSectorSize;
        EntryAddress(cluster');
        entry' := ReadEntry(sector, ulFATSectorEntry);
        if entry' == 0 {
          break;
        }
        offset' := offset' + EntrySize(ucType);
        cluster' := cluster' + 1;
        x := x + 1;
      }
    }

    lemma PlaceInSector(sector: nat, x: nat, cluster: nat)
      requires Stored() && x < ulEntriesPerSector && cluster == sector * ulEntriesPerSector + x
      ensures 0 < usSectorSize && cluster * EntrySize(ucType) / usSectorSize == sector
      ensures cluster * EntrySize(ucType) % usSectorSize == x * EntrySize(ucType)
    {
      hide Mirrored;
      var size := EntrySize(ucType);
      AtLeastOnce(ulEntriesPerSector - x, size);
      assert usSectorSize == x * size + (ulEntriesPerSector - x) * size;
      assert cluster * size == sector * ulEntriesPerSector * size + x * size;
      assert sector * ulEntriesPerSector * size == sector * usSectorSize;
      Divides(sector, x * size, usSectorSize);
    }

    /** The search of FF_FindFreeCluster, sector by sector; a start behind the table is not noticed. */
    method Search(start: nat) returns (cluster: nat, error: bool)
      requires Stored()
      ensures start < ulNumClusters ==>
        var c := FirstFree(table, start, ulNumClusters);
        (error <==> c == ulNumClusters) && (!error ==> cluster == c)
      ensures start >= ulNumClusters ==>
        && (error <==> SectorOfHint(start) <= ulSectorsPerFAT)
        && (!error ==> cluster == start)
    {
      hide Mirrored;
      var offset: nat, entry: nat := start * EntrySize(ucType) % 0x1_0000_0000, 1;
      cluster := start;
      HintInTable(start);
      var sector := offset / usSectorSize;
      while sector < ulSectorsPerFAT
        invariant SectorOfHint(start) <= ulSectorsPerFAT ==> sector <= ulSectorsPerFAT
        invariant SectorOfHint(start) > ulSectorsPerFAT ==> sector > ulSectorsPerFAT && cluster == start
        invariant entry != 0 && start <= cluster && (start >= ulNumClusters ==> cluster == start)
        invariant start < ulNumClusters ==> cluster <= ulNumClusters
        invariant forall d :: start <= d < cluster && d < |table| ==> table[d] != 0
        invariant cluster < ulNumClusters ==>
          cluster == sector * ulEntriesPerSector + cluster % ulEntriesPerSector && offset == cluster * EntrySize(ucType)
      {
        cluster, offset, entry := ScanSector(sector, cluster, offset, entry);
        if entry == 0 {
          break;
        }
        NextSector(sector, cluster);
        sector := sector + 1;
      }
      error := sector == ulSectorsPerFAT;
      if start < ulNumClusters {
        FirstFreeIs(table, start, ulNumClusters, cluster);
      }
    }

    /** The sector in which the search starts: the offset of the entry is a 32-bit number. */
    function SectorOfHint(start: nat): nat {
      if usSectorSize == 0 then 0 else start * EntrySize(ucType) % 0x1_0000_0000 / usSectorSize
    }

    lemma HintInTable(start: nat)
      requires Stored()
      ensures 0 < usSectorSize
      ensures start < ulNumClusters ==>
        && start * EntrySize(ucType) < 0x1_0000_0000 && SectorOfHint(start) < ulSectorsPerFAT
        && start == SectorOfHint(start) * ulEntriesPerSector + start % ulEntriesPerSector
    {
      AtLeastOnce(ulEntriesPerSector, EntrySize(ucType));
      if start < ulNumClusters {
        hide Mirrored;
        FitsIn32Bits(start);
        PlaceInSector(start / ulEntriesPerSector, start % ulEntriesPerSector, start);
        SectorBelow(start / ulEntriesPerSector, start % ulEntriesPerSector);
      }
    }

    lemma FitsIn32Bits(c: nat)
      requires Stored() && c < |table|
      ensures c * EntrySize(ucType) < 0x1_0000_0000
    {
      EntryAddress(c);
    }

    lemma SectorBelow(sector: nat, x: nat)
      requires Stored() && sector * ulEntriesPerSector + x < |table|
      ensures sector < ulSectorsPerFAT
    {
      hide Mirrored;
      AtLeastOnce(sector - ulSectorsPerFAT + 1, ulEntriesPerSector);
      assert sector * ulEntriesPerSector
          == ulSectorsPerFAT * ulEntriesPerSector + (sector - ulSectorsPerFAT) * ulEntriesPerSector;
    }

    lemma NextSector(sector: nat, cluster: nat)
      requires Stored()
      ensures cluster == (sector + 1) * ulEntriesPerSector ==> cluster % ulEntriesPerSector == 0
      ensures cluster < |table| && cluster == (sector + 1) * ulEntriesPerSector ==> sector + 1 < ulSectorsPerFAT
    {
      hide Mirrored;
      if cluster == (sector + 1) * ulEntriesPerSector {
        Divides(sector + 1, 0, ulEntriesPerSector);
        if cluster < |table| {
          SectorBelow(sector + 1, 0);
        }
      }
    }

    ghost predicate Linkage()
      reads `table, `chains, `home
    {
      WellFormed(ucType, table, ulNumClusters, chains, home)
    }

    /** The number of zero entries that FF_CountFreeClusters counts */
    ghost function FreeClusters(): nat
      reads `table
    {
      ZeroEntries(table, EntriesCounted(|table|))
    }

    /** It stops two entries behind the last usable cluster, or one behind it when that is the end of a sector. */
    function EntriesCounted(entries: nat): nat {
      var n := if 0 < ulEntriesPerSector && (ulNumClusters + 1) % ulEntriesPerSector == 0 then ulNumClusters + 1
               else ulNumClusters + 2;
      if n <= entries then n else entries
    }

    /**
     FF_FindFreeCluster with a claim. On success the first free cluster at or behind the start is a new chain; the new
     hint is sound exactly if no free cluster lay before the start.
     */
    method ClaimFreeCluster() returns (cluster: nat, error: bool)
      requires Stored() && Linkage()
      modifies fats, `table, `chains, `home, `ulLastFreeCluster
      ensures Stored() && Linkage() && (error <==> cluster == 0)
      ensures error <==> old(Start()) >= ulNumClusters
                         || FirstFree(old(table), old(Start()), ulNumClusters) == ulNumClusters
      ensures error ==> table == old(table) && chains == old(chains) && home == old(home)
      ensures error ==> ulLastFreeCluster == old(ulLastFreeCluster) || SectorOfHint(old(Start())) > ulSectorsPerFAT
      ensures !error ==>
        && cluster == FirstFree(old(table), old(Start()), ulNumClusters) && 2 <= cluster < ulNumClusters
        && table == old(table)[cluster := EndMark(ucType)] && ulLastFreeCluster == cluster + 1
        && cluster !in old(chains) && cluster !in old(home)
        && chains == old(chains)[cluster := [cluster]] && home == old(home)[cluster := Place(cluster, 0)]
        && (SoundHint(table, ulNumClusters, ulLastFreeCluster) <==> SoundHint(old(table), ulNumClusters, old(Start())))
        && FreeClusters() == old(FreeClusters()) - 1
    {
      hide WellFormed, Stored, Held, SoundHint, EntriesCounted, ZeroEntries;
      StoredBounds();
      ReservedEntries();
      var start := Start();
      cluster, error := Search(start);
      if error {
        cluster := 0;
      } else {
        ulLastFreeCluster := (cluster + 1) % 0x1_0000_0000;
        if cluster < ulNumClusters {
          ClaimFacts(start);
        }
        error := PutFATEntry(cluster, 0xFFFF_FFFF);
        if error {
          cluster := 0;
        } else {
          chains, home := chains[cluster := [cluster]], home[cluster := Place(cluster, 0)];
        }
      }
    }

    lemma ClaimFacts(start: nat)
      requires Stored() && Linkage() && start < ulNumClusters <= |table|
      requires FirstFree(table, start, ulNumClusters) < ulNumClusters
      ensures var c := FirstFree(table, start, ulNumClusters);
        && 2 <= c && Held(ucType, 0xFFFF_FFFF) == EndMark(ucType) && c !in chains && c !in home
        && WellFormed(ucType, table[c := EndMark(ucType)], ulNumClusters, chains[c := [c]], home[c := Place(c, 0)])
        && (SoundHint(table[c := EndMark(ucType)], ulNumClusters, c + 1) <==> SoundHint(table, ulNumClusters, start))
        && ZeroEntries(table[c := EndMark(ucType)], EntriesCounted(|table|)) == FreeClusters() - 1
    {
      hide WellFormed, Stored, Held, SoundHint;
      var c := FirstFree(table, start, ulNumClusters);
      ReservedEntries();
      HeldEndMark(ucType);
      ClaimKeeps(ucType, table, ulNumClusters, chains, home, c);
      ClaimHint(table, ulNumClusters, start, EndMark(ucType));
      ZeroUpdate(table, c, EndMark(ucType), EntriesCounted(|table|));
    }

    lemma StoredBounds()
      requires Stored()
      ensures ulNumClusters <= |table| < 0x1_0000_0000 && 0 < usSectorSize
    {
      HintInTable(0);
      if |table| > 0 {
        FitsIn32Bits(|table| - 1);
      }
    }

    lemma ReservedEntries()
      requires Linkage()
      ensures 2 <= ulNumClusters <= |table| && table[0] != 0 && table[1] != 0
    {
      hide Disjoint, Linked;
    }

    /** FF_FindFreeCluster without a claim: a start that lies far enough behind the table is returned as if free. */
    method FindFreeCluster() returns (cluster: nat, error: bool)
      requires Stored()
      ensures HintFound(Start(), cluster, error) && (error ==> cluster == 0)
      ensures SoundHint(table, ulNumClusters, cluster) <==> error || SoundHint(table, ulNumClusters, Start())
    {
      hide Mirrored, SoundHint, FirstFree;
      StoredBounds();
      cluster, error := Search(Start());
      if error {
        cluster := 0;
        HintFromStart(table, ulNumClusters);
      } else if Start() < ulNumClusters {
        HintBehind(table, ulNumClusters, Start());
      }
    }

    /** What a search from `start` finds when it claims nothing */
    ghost predicate HintFound(start: nat, cluster: nat, error: bool)
      reads `table
    {
      && ulNumClusters <= |table|
      && if start < ulNumClusters
         then var c := FirstFree(table, start, ulNumClusters);
              (error <==> c == ulNumClusters) && cluster == if error then 0 else c
         else (error <==> SectorOfHint(start) <= ulSectorsPerFAT) && cluster == if error then 0 else start
    }

    ghost predicate FsInfoTrusted()
      reads `fsInfo
    {
      ucType.Fat32? && fsInfo.valid && fsInfo.freeCount != UNKNOWN_COUNT
    }

    /** FF_CountFreeClusters: a FAT32 partition is asked for its own record first. */
    method CountFreeClusters() returns (free: nat)
      requires Stored()
      ensures free == if FsInfoTrusted() then fsInfo.freeCount else FreeClusters()
    {
      hide Mirrored;
      StoredBounds();
      free := 0;
      if ucType.Fat32? && fsInfo.valid && fsInfo.freeCount != UNKNOWN_COUNT {
        free := fsInfo.freeCount;
      } else {
        var clusterNum, index := 0, 0;
        while index < ulSectorsPerFAT
          invariant 0 <= index <= ulSectorsPerFAT && clusterNum == index * ulEntriesPerSector <= ulNumClusters
          invariant clusterNum <= |table| && free == ZeroEntries(table, clusterNum) <= clusterNum
        {
          var stop: bool;
          free, clusterNum, stop := CountSector(index, free, clusterNum);
          if stop {
            return;
          }
          if free > ulNumClusters {
            free := ulNumClusters;
          }
          index := index + 1;
        }
      }
    }

    lemma PlaceInFAT(sector: nat, x: nat)
      requires Stored() && sector < ulSectorsPerFAT && x < ulEntriesPerSector
      ensures sector * ulEntriesPerSector + x < |table|
    {
      hide Mirrored;
      AtLeastOnce(ulSectorsPerFAT - sector, ulEntriesPerSector);
      assert |table| == sector * ulEntriesPerSector + (ulSectorsPerFAT - sector) * ulEntriesPerSector;
    }

    /** The zero entries of one sector, up to two entries behind the last usable cluster */
    method CountSector(index: nat, free: nat, clusterNum: nat) returns (free': nat, clusterNum': nat, stop: bool)
      requires Stored() && index < ulSectorsPerFAT && clusterNum == index * ulEntriesPerSector <= |table|
      requires clusterNum <= ulNumClusters && free == ZeroEntries(table, clusterNum) <= clusterNum
      ensures stop ==> free' == FreeClusters()
      ensures !stop ==>
        && clusterNum' == (index + 1) * ulEntriesPerSector <= |table| && clusterNum' <= ulNumClusters
        && free' == ZeroEntries(table, clusterNum') <= clusterNum'
    {
      hide Mirrored;
      free', clusterNum', stop := free, clusterNum, false;
      var x := 0;
      while x < ulEntriesPerSector
        invariant 0 <= x <= ulEntriesPerSector && clusterNum' == index * ulEntriesPerSector + x <= ulNumClusters + 1
        invariant clusterNum' <= |table| && free' == ZeroEntries(table, clusterNum') <= clusterNum'
      {
        PlaceInFAT(index, x);
        PlaceInSector(index, x, clusterNum');
        EntryAddress(clusterNum');
        var entry := ReadEntry(index, x * EntrySize(ucType));
        if entry == 0 {
          free' := free' + 1;
        }
        if clusterNum' > ulNumClusters {
          Divides(index, x, ulEntriesPerSector);
          stop := true;
          return;
        }
        clusterNum' := clusterNum' + 1;
        x := x + 1;
      }
      if clusterNum' > ulNumClusters {
        Divides(index + 1, 0, ulEntriesPerSector);
        stop := true;
      }
    }

    /** The recorded number of free clusters is right. */
    ghost predicate CountRight()
      reads `ulFreeClusterCount, `table
    {
      ulFreeClusterCount == FreeClusters()
    }

    /** The end of both functions: a missing hint is looked up and the FSINFO sector updated. */
    method UpdateFsInfo() returns (error: bool)
      requires Stored()
      modifies `ulLastFreeCluster, `fsInfo
      ensures old(ulLastFreeCluster) != 0 ==> !error && ulLastFreeCluster == old(ulLastFreeCluster)
      ensures old(ulLastFreeCluster) == 0 ==>
        && HintFound(old(Start()), ulLastFreeCluster, error) && (error ==> ulLastFreeCluster == 0)
        && (SoundHint(table, ulNumClusters, ulLastFreeCluster)
            <==> error || SoundHint(table, ulNumClusters, old(Start())))
      ensures fsInfo == if error || !ucType.Fat32? || !old(fsInfo).valid then old(fsInfo)
                        else FsInfo(true, ulFreeClusterCount, ulLastFreeCluster)
    {
      hide Mirrored, HintFound, SoundHint;
      error := false;
      if ulLastFreeCluster == 0 {
        ulLastFreeCluster, error := FindFreeCluster();
      }
      if !error && ucType.Fat32? && fsInfo.valid {
        fsInfo := FsInfo(true, ulFreeClusterCount, ulLastFreeCluster);
      }
    }

    /** FF_IncreaseFreeClusters: a recorded count of zero is taken for unknown, and the clusters are counted again. */
    method IncreaseFreeClusters(count: nat) returns (error: bool)
      requires Stored()
      modifies `ulFreeClusterCount, `ulLastFreeCluster, `fsInfo
      ensures ulFreeClusterCount == if old(ulFreeClusterCount) != 0 then old(ulFreeClusterCount) + count
                                    else if old(FsInfoTrusted()) then old(fsInfo).freeCount else FreeClusters()
      ensures old(ulLastFreeCluster) != 0 ==> !error && ulLastFreeCluster == old(ulLastFreeCluster)
      ensures old(ulLastFreeCluster) == 0 ==>
        && HintFound(old(Start()), ulLastFreeCluster, error) && (error ==> ulLastFreeCluster == 0)
        && (SoundHint(table, ulNumClusters, ulLastFreeCluster)
            <==> error || SoundHint(table, ulNumClusters, old(Start())))
      ensures fsInfo == if error || !ucType.Fat32? || !old(fsInfo).valid then old(fsInfo)
                        else FsInfo(true, ulFreeClusterCount, ulLastFreeCluster)
    {
      hide Mirrored, HintFound, SoundHint;
      if ulFreeClusterCount == 0 {
        ulFreeClusterCount := CountFreeClusters();
      } else {
        ulFreeClusterCount := ulFreeClusterCount + count;
      }
      error := UpdateFsInfo();
    }

    /** FF_DecreaseFreeClusters */
    method DecreaseFreeClusters(count: nat) returns (error: bool)
      requires Stored()
      modifies `ulFreeClusterCount, `ulLastFreeCluster, `fsInfo
      ensures ulFreeClusterCount == if old(ulFreeClusterCount) != 0
                                    then (old(ulFreeClusterCount) - count) % 0x1_0000_0000
                                    else if old(FsInfoTrusted()) then old(fsInfo).freeCount else FreeClusters()
      ensures old(ulLastFreeCluster) != 0 ==> !error && ulLastFreeCluster == old(ulLastFreeCluster)
      ensures old(ulLastFreeCluster) == 0 ==>
        && HintFound(old(Start()), ulLastFreeCluster, error) && (error ==> ulLastFreeCluster == 0)
        && (SoundHint(table, ulNumClusters, ulLastFreeCluster)
            <==> error || SoundHint(table, ulNumClusters, old(Start())))
      ensures fsInfo == if error || !ucType.Fat32? || !old(fsInfo).valid then old(fsInfo)
                        else FsInfo(true, ulFreeClusterCount, ulLastFreeCluster)
    {
      hide Mirrored, HintFound, SoundHint;
      if ulFreeClusterCount == 0 {
        ulFreeClusterCount := CountFreeClusters();
      } else {
        ulFreeClusterCount := (ulFreeClusterCount - count) % 0x1_0000_0000;
      }
      error := UpdateFsInfo();
    }

    /** FF_CreateClusterChain: the recorded count stays right. */
    method CreateClusterChain() returns (cluster: nat, error: bool)
      requires Stored() && Linkage()
      modifies fats, `table, `chains, `home, `ulLastFreeCluster, `ulFreeClusterCount, `fsInfo
      ensures Stored() && Linkage() && (cluster == 0 ==> error)
      ensures cluster == 0 <==> old(Start()) >= ulNumClusters
                                || FirstFree(old(table), old(Start()), ulNumClusters) == ulNumClusters
      ensures cluster == 0 ==> table == old(table) && chains == old(chains)
      ensures cluster != 0 ==>
        && !error && cluster !in old(chains) && chains == old(chains)[cluster := [cluster]]
        && 2 <= cluster < |old(table)| && old(table)[cluster] == 0
        && table == old(table)[cluster := EndMark(ucType)]
        && (SoundHint(table, ulNumClusters, ulLastFreeCluster) <==> SoundHint(old(table), ulNumClusters, old(Start())))
        && (old(CountRight()) ==> CountRight())
    {
      hide Mirrored, WellFormed, SoundHint;
      StoredBounds();
      cluster, error := ClaimFreeCluster();
      if cluster != 0 {
        CountedBound();
        error := DecreaseFreeClusters(1);
      }
    }

    lemma {:induction false} ZerosAtMost(n: nat)
      requires n <= |table|
      ensures ZeroEntries(table, n) <= n
    {
      if n > 0 {
        ZerosAtMost(n - 1);
      }
    }

    lemma CountedBound()
      requires Stored()
      ensures FreeClusters() <= |table| < 0x1_0000_0000
    {
      StoredBounds();
      ZerosAtMost(EntriesCounted(|table|));
    }

    // Walking along chains

    lemma At(c: Cluster)
      requires Linkage() && c in home
      ensures home[c].chain in chains && home[c].index < |chains[home[c].chain]|
      ensures chains[home[c].chain][home[c].index] == c
    {
      hide Linked, Covered;
    }

    lemma Walk(h: Cluster, i: nat)
      requires Linkage() && h in chains && i < |chains[h]|
      ensures var c := chains[h][i];
        && 2 <= c < ulNumClusters <= |table| && !IsEndOfChain(ucType, c) && c in home && home[c] == Place(h, i)
        && (i + 1 < |chains[h]| ==> table[c] == chains[h][i + 1] && !IsEndOfChain(ucType, table[c]))
        && (i + 1 == |chains[h]| ==> IsEndOfChain(ucType, table[c]))
    {
      hide WellFormed;
      Follow(ucType, table, ulNumClusters, chains, home, h, i);
    }

    lemma ChainFits(h: Cluster)
      requires Linkage() && h in chains
      ensures chains[h] != [] && |chains[h]| <= ulNumClusters
    {
      hide LeadsOn, Linked, Covered;
      forall i | 0 <= i < |chains[h]| ensures chains[h][i] < ulNumClusters && home[chains[h][i]].index == i {
        Walk(h, i);
      }
      DistinctBound(chains[h], ulNumClusters);
    }

    /** A usable cluster in no chain is free or marked as bad. */
    lemma Outside(c: Cluster)
      requires Linkage() && 2 <= c < ulNumClusters && c !in home
      ensures c < |table| && (table[c] == 0 || table[c] == Bad(ucType)) && !IsEndOfChain(ucType, c)
      ensures !IsEndOfChain(ucType, Bad(ucType)) && ulNumClusters < Bad(ucType)
    {
      hide Disjoint, Linked;
    }

    /**
     FF_TraverseFAT: the cluster `count` places further on, or the last one of the chain; a free cluster counts as a
     chain of its own, and from a bad one the walk ends with an error at the latest in its second step.
     */
    method TraverseFAT(start: nat, count: nat) returns (cluster: nat, error: bool)
      requires Stored() && Linkage()
      ensures start in home ==>
        var s, i := chains[home[start].chain], home[start].index;
        !error && cluster == s[if i + count < |s| then i + count else |s| - 1]
      ensures count > 0 && start >= ulNumClusters ==> error && cluster == 0
      ensures 0 < count && 2 <= start < ulNumClusters <= |table| && start !in home ==>
        if table[start] == 0 then !error && cluster == start
        else if count == 1 then !error && cluster == Bad(ucType)
        else error && cluster == 0
      ensures start < 2 <= |table| && IsEndOfChain(ucType, table[start]) ==> !error && cluster == start
    {
      hide Stored, Linkage;
      StoredBounds();
      ReservedEntries();
      cluster, error := start, false;
      var current, index := start, 0;
      if start in home {
        At(start);
      } else if 2 <= start < ulNumClusters {
        Outside(start);
      }
      ghost var s := if start in home then chains[home[start].chain] else [];
      ghost var i := if start in home then home[start].index else 0;
      while index < count
        invariant 0 <= index <= count && cluster == current && !error
        invariant index == 0 ==> current == start
        invariant start >= ulNumClusters || (start < 2 && IsEndOfChain(ucType, table[start])) ==> index == 0
        invariant start in home ==> i + index < |s| && current == s[i + index]
        invariant 2 <= start < ulNumClusters && start !in home ==>
          index <= 1 && (index == 1 ==> table[start] != 0 && current == Bad(ucType))
      {
        if start in home {
          Walk(home[start].chain, i + index);
        }
        cluster, error := GetFATEntry(current);
        if error {
          cluster := 0;
          break;
        }
        if IsEndOfChain(ucType, cluster) {
          cluster := current;
          break;
        }
        current := cluster;
        index := index + 1;
      }
    }

    /** FF_FindEndOfChain: the last cluster of the chain; a free cluster is its own, and a bad one leads to an error. */
    method FindEndOfChain(start: nat) returns (cluster: nat, error: bool)
      requires Stored() && Linkage()
      ensures start == 0 || (start == 1 < |table| && IsEndOfChain(ucType, table[1])) ==> !error && cluster == start
      ensures start in home ==>
        var s := chains[home[start].chain];
        !error && s != [] && cluster == s[|s| - 1]
      ensures 2 <= start < ulNumClusters <= |table| && start !in home ==>
        if table[start] == 0 then !error && cluster == start else error && cluster == 0
      ensures start >= ulNumClusters ==>
        if IsEndOfChain(ucType, start) then !error && cluster == start else error && cluster == 0
    {
      hide Stored, Linkage;
      StoredBounds();
      if start in home {
        At(start);
        Walk(home[start].chain, home[start].index);
        ChainFits(home[start].chain);
      } else if 2 <= start < ulNumClusters {
        Outside(start);
      }
      ReservedEntries();
      cluster, error := start, false;
      if !IsEndOfChain(ucType, start) {
        cluster, error := TraverseFAT(start, 0xFFFF_FFFF);
      }
    }

    /** FF_GetChainLength: the clusters from here to the end of the chain; one for a free cluster, none for a bad one */
    method GetChainLength(start: nat) returns (length: nat)
      requires Stored() && Linkage()
      requires start == 1 < |table| ==> start in home || IsEndOfChain(ucType, table[1])
      ensures start < ulNumClusters ==> start < |table|
      ensures length == if start in home then |chains[home[start].chain]| - home[start].index
                        else if start == 1 || (2 <= start < ulNumClusters && table[start] == 0) then 1 else 0
    {
      hide Stored, Linkage;
      StoredBounds();
      ReservedEntries();
      length := 0;
      var current := start;
      if start in home {
        At(start);
      } else if 2 <= start < ulNumClusters {
        Outside(start);
      }
      ghost var s := if start in home then chains[home[start].chain] else [];
      ghost var i := if start in home then home[start].index else 0;
      while !IsEndOfChain(ucType, current)
        invariant start in home ==>
          && i + length <= |s| && (i + length < |s| ==> current == s[i + length])
          && (i + length == |s| ==> IsEndOfChain(ucType, current))
        invariant start !in home && length == 0 ==> current == start
        invariant start !in home && length != 0 ==>
          length == 1 && 1 <= start < ulNumClusters && current == table[start]
        decreases if start in home then |s| - i - length else 1 - length
      {
        if start in home {
          Walk(home[start].chain, i + length);
        }
        var error: bool;
        current, error := GetFATEntry(current);
        if error {
          length := 0;
          break;
        }
        length := length + 1;
      }
      if start in home && i + length < |s| {
        Walk(home[start].chain, i + length);
      }
    }

    // FF_UnlinkClusterChain

    /** A cluster that is free or marked as bad */
    ghost predicate Lone(c: nat)
      reads `home
    {
      2 <= c < ulNumClusters && c !in home
    }

    lemma InChain(h: Cluster, k: nat)
      requires Disjoint(chains, home) && h in chains && k < |chains[h]|
      ensures chains[h][k] in home && home[chains[h][k]] == Place(h, k)
    {
    }

    lemma ChainsDisjoint()
      requires Linkage()
      ensures Disjoint(chains, home)
    {
      hide Disjoint;
    }

    /**
     The loop: for a cluster in use `freed` counts the entries set to zero, and `lowest` is their least cluster. The
     reserved cluster zero is counted too, though its entry is not written. The entry of a free or bad cluster is
     overwritten, with an error in the second step for a bad one.
     */
    method UnlinkLoop(start: nat, truncate: bool) returns (freed: nat, lowest: nat, error: bool)
      requires Stored() && Linkage() && start != 1
      modifies fats, `table
      ensures Stored() && (start in home ==> !error)
      ensures start == 0 || start >= ulNumClusters ==>
        error && table == old(table) && freed == if start == 0 && !truncate then 1 else 0
      ensures Lone(start) ==>
        && start < |old(table)| && (error <==> old(table)[start] == Bad(ucType)) && lowest == start
        && table == old(table)[start := if truncate then EndMark(ucType) else 0]
        && freed == if truncate then 0 else 1
      ensures start in home ==> FreeClusters() == old(FreeClusters()) + freed && 2 <= lowest
      ensures start in home ==> Unlinks(ucType, old(table), table, home, home[start].chain, home[start].index, truncate)
      ensures start in home ==>
        forall c :: c in home && home[c].chain == home[start].chain && home[c].index >= home[start].index ==>
          lowest <= c
      ensures start in home ==>
        lowest in home && home[lowest].chain == home[start].chain && home[lowest].index >= home[start].index
      ensures start in home ==>
        (freed == 0 <==>
           truncate && home[start].chain in chains && home[start].index + 1 == |chains[home[start].chain]|)
    {
      hide Stored, WellFormed, Held, Unlinks, Unlinking, Disjoint, ZeroEntries, FirstFree;
      ChainsDisjoint();
      StoredBounds();
      ReservedEntries();
      HeldEndMark(ucType);
      ghost var before, n, inUse := table, EntriesCounted(|table|), start in home;
      ghost var h, i := if inUse then home[start].chain else 0, if inUse then home[start].index else 0;
      if inUse {
        At(start);
        Walk(h, i);
        UnlinkingStart(ucType, before, home, h, i, truncate);
      }
      ghost var lone, written := Lone(start), if truncate then EndMark(ucType) else 0;
      if lone {
        Outside(start);
      }
      ghost var s, k := if inUse then chains[h] else if lone then [start, start] else [], i;
      var current, entry := start, start;
      freed, lowest, error := 0, start, false;
      while true
        invariant Stored() && !error && |table| == |before| && current == entry
        invariant inUse ==> i <= k < |s| && current == s[k] && Unlinking(ucType, before, table, home, h, i, k, truncate)
        invariant inUse ==> ZeroEntries(table, n) == ZeroEntries(before, n) + freed
        invariant inUse ==> freed == if truncate && k > i then k - i - 1 else k - i
        invariant inUse ==> 2 <= lowest <= start && forall j :: i <= j < k ==> lowest <= s[j]
        invariant inUse ==> lowest in home && home[lowest].chain == h && home[lowest].index >= i
        invariant !inUse && !lone ==> table == before && current == start && freed == 0
        invariant lone && k == 0 ==> table == before && current == start && freed == 0 && lowest == start
        invariant lone && k != 0 ==>
          && k == 1 && table == before[start := written] && current == before[start] == Bad(ucType) && lowest == start
          && freed == if truncate then 0 else 1
        decreases |s| - k
      {
        if inUse {
          UnlinkStep(ucType, before, table, ulNumClusters, chains, home, h, i, k, truncate, n);
          InChain(h, k);
        }
        entry, error := GetFATEntry(entry);
        if error {
          break;
        }
        if truncate && current == start {
          error := PutFATEntry(current, 0xFFFF_FFFF);
        } else {
          error := PutFATEntry(current, 0);
          freed := freed + 1;
        }
        if error {
          break;
        }
        if lowest > current {
          lowest := current;
        }
        current := entry;
        k := k + 1;
        if IsEndOfChain(ucType, entry) {
          break;
        }
      }
      if inUse {
        UnlinkingEnd(ucType, before, table, ulNumClusters, chains, home, h, i, truncate, lowest);
      }
    }

    /** What unlinking from `start` leaves of the chain it lies in */
    ghost predicate Cut(before: map<Cluster, seq<Cluster>>, was: map<Cluster, Place>, start: Cluster, truncate: bool)
      reads `chains, `home
    {
      && start in was && was[start].chain in before && was[start].index < |before[was[start].chain]|
      && var h, i := was[start].chain, was[start].index;
        if truncate then chains == before[h := before[h][..i + 1]] && home == Remaining(was, h, i + 1)
        else chains == before - {h} && home == Remaining(was, h, 0)
    }

    /**
     FF_UnlinkClusterChain. Truncating leaves the chain up to the given cluster; otherwise the chain must be given by
     its first cluster and is gone. The recorded count stays right unless it was zero and the FSINFO sector, asked
     instead of the table, holds another number than that of the free clusters now. A hint is lowered to the least
     cluster of the part unlinked, and is sound then exactly if no cluster below it was free before; a missing hint is
     looked up, and is sound exactly if none is found or no cluster below the start of the search is free. A cluster
     outside the table is an error that changes nothing; the reserved cluster zero is one too, but unlinking it makes
     the recorded count wrong.
     */
    method UnlinkClusterChain(start: nat, truncate: bool) returns (error: bool)
      requires Stored() && Linkage() && start != 1
      modifies fats, `table, `chains, `home, `ulLastFreeCluster, `ulFreeClusterCount, `fsInfo
      ensures Stored()
      ensures start == 0 || start >= ulNumClusters ==>
        error && table == old(table) && chains == old(chains) && home == old(home)
      ensures start >= ulNumClusters || (start == 0 && truncate) ==>
        ulFreeClusterCount == old(ulFreeClusterCount) && ulLastFreeCluster == old(ulLastFreeCluster)
      ensures start == 0 && !truncate && old(CountRight()) && old(ulFreeClusterCount) != 0 ==> !CountRight()
      ensures start in old(home) ==>
        Unlinks(ucType, old(table), table, old(home), old(home)[start].chain, old(home)[start].index, truncate)
      ensures start in old(home) && (truncate || old(home)[start].index == 0) ==>
        Linkage() && Cut(old(chains), old(home), start, truncate)
      ensures old(Lone(start)) ==> Overwrites(old(table), old(chains), old(home), start, truncate) && Linkage()
      ensures old(Lone(start)) && old(CountRight()) && old(ulFreeClusterCount) != 0 ==>
        start < |old(table)| && (CountRight() <==> old(table)[start] == Bad(ucType))
      ensures old(Lone(start)) && old(ulLastFreeCluster) != 0 ==>
        && start < |old(table)| && (error <==> old(table)[start] == Bad(ucType))
        && ulLastFreeCluster == (if !error && old(ulLastFreeCluster) > start then start else old(ulLastFreeCluster))
      ensures old(ulLastFreeCluster) != 0 && !old(Lone(start)) ==>
        && (error <==> start !in old(home))
        && (start in old(home) ==> Lowered(old(home), start, old(ulLastFreeCluster), ulLastFreeCluster))
        && (SoundHint(table, ulNumClusters, ulLastFreeCluster)
            <==> SoundHint(old(table), ulNumClusters, ulLastFreeCluster))
        && (old(Valid()) ==> SoundHint(table, ulNumClusters, ulLastFreeCluster))
      ensures old(ulLastFreeCluster) == 0 && !old(Lone(start)) && table != old(table)
              && FreeClusters() != old(FreeClusters()) ==>
        HintFound(old(Start()), ulLastFreeCluster, error)
      ensures old(ulLastFreeCluster) == 0 && !old(Lone(start)) ==>
        (SoundHint(table, ulNumClusters, ulLastFreeCluster)
         <==> ulLastFreeCluster == 0 || SoundHint(table, ulNumClusters, old(Start())))
      ensures start in old(home) && old(CountRight()) ==>
        (CountRight() <==>
          || FreeClusters() == old(FreeClusters())
          || old(ulFreeClusterCount) != 0 || !old(FsInfoTrusted()) || old(fsInfo).freeCount == FreeClusters())
    {
      hide Stored, Linkage, Cut, Unlinks, SoundHint, HintFound, Lowered, FreeClusters, Overwrites;
      StoredBounds();
      ReservedEntries();
      HintFromStart(table, ulNumClusters);
      var freed;
      freed, error := ReleaseChain(start, truncate);
      StoredBounds();
      HintFromStart(table, ulNumClusters);
      if freed != 0 {
        var countError := IncreaseFreeClusters(freed);
        error := error || countError;
      }
    }

    /** How the number of free entries changes when the entry of a usable cluster is overwritten */
    lemma LoneCount(before: seq<nat>, start: Cluster, truncate: bool)
      requires 2 <= start < ulNumClusters <= |before|
      requires before[start] == 0 || before[start] == Bad(ucType)
      requires |table| == |before| && table == before[start := if truncate then EndMark(ucType) else 0]
      ensures FreeClusters() == ZeroEntries(before, EntriesCounted(|before|))
                                + (if truncate then 0 else 1) - (if before[start] == 0 then 1 else 0)
    {
      ZeroUpdate(before, start, if truncate then EndMark(ucType) else 0, EntriesCounted(|before|));
    }

    /** The part of FF_UnlinkClusterChain that holds the lock */
    method ReleaseChain(start: nat, truncate: bool) returns (freed: nat, error: bool)
      requires Stored() && Linkage() && start != 1
      modifies fats, `table, `chains, `home, `ulLastFreeCluster
      ensures Stored() && (start in old(home) ==> !error)
      ensures start == 0 || start >= ulNumClusters ==>
        && error && table == old(table) && chains == old(chains) && home == old(home)
        && ulLastFreeCluster == old(ulLastFreeCluster) && freed == if start == 0 && !truncate then 1 else 0
      ensures start in old(home) ==> FreeClusters() == old(FreeClusters()) + freed
      ensures start in old(home) ==>
        Unlinks(ucType, old(table), table, old(home), old(home)[start].chain, old(home)[start].index, truncate)
      ensures start in old(home) && (truncate || old(home)[start].index == 0) ==>
        Linkage() && Cut(old(chains), old(home), start, truncate)
      ensures start in old(home) ==>
        && Lowered(old(home), start, old(ulLastFreeCluster), ulLastFreeCluster)
        && (SoundHint(table, ulNumClusters, ulLastFreeCluster)
            <==> SoundHint(old(table), ulNumClusters, ulLastFreeCluster))
        && (SoundHint(old(table), ulNumClusters, old(ulLastFreeCluster)) ==>
             SoundHint(table, ulNumClusters, ulLastFreeCluster))
        && (ulLastFreeCluster == 0 <==> old(ulLastFreeCluster) == 0)
      ensures old(Lone(start)) ==>
        && Overwrites(old(table), old(chains), old(home), start, truncate) && Linkage()
        && (error <==> old(table)[start] == Bad(ucType)) && freed == (if truncate then 0 else 1)
        && FreeClusters() == old(FreeClusters()) + freed - (if old(table)[start] == 0 then 1 else 0)
        && (error <==> old(table)[start] != 0)
        && ulLastFreeCluster == (if !error && old(ulLastFreeCluster) > start then start else old(ulLastFreeCluster))
    {
      hide Stored, WellFormed, Unlinks, SoundHint, Lowered;
      ghost var before := table;
      if start in home {
        At(start);
        Walk(home[start].chain, home[start].index);
      }
      if Lone(start) {
        Outside(start);
        ReservedEntries();
      }
      var lowest;
      freed, lowest, error := UnlinkLoop(start, truncate);
      ghost var hint := ulLastFreeCluster;
      if !error && ulLastFreeCluster > lowest {
        ulLastFreeCluster := lowest;
      }
      if Lone(start) {
        LoneKeeps(ucType, before, ulNumClusters, chains, home, start);
        LoneCount(before, start, truncate);
        if truncate {
          chains, home := chains[start := [start]], home[start := Place(start, 0)];
        }
      } else if !error {
        ghost var h, i := home[start].chain, home[start].index;
        UnlinkHint(ucType, before, table, home, h, i, truncate, ulNumClusters, hint, lowest);
        LoweredBy(home, start, hint, lowest);
        if truncate {
          TruncateKeeps(ucType, before, ulNumClusters, chains, home, h, i, table);
          chains, home := chains[h := chains[h][..i + 1]], Remaining(home, h, i + 1);
        } else if i == 0 {
          UnlinkKeeps(ucType, before, ulNumClusters, chains, home, h, table);
          chains, home := chains - {h}, Remaining(home, h, 0);
        }
      }
    }

    /** Unlinking a free or bad cluster leaves it free, or, truncating, a chain of its own. */
    ghost predicate Overwrites(before: seq<nat>, was: map<Cluster, seq<Cluster>>, wasHome: map<Cluster, Place>,
                               start: Cluster, truncate: bool)
      reads `table, `chains, `home
    {
      && start < |before| && table == before[start := if truncate then EndMark(ucType) else 0]
      && chains == (if truncate then was[start := [start]] else was)
      && home == (if truncate then wasHome[start := Place(start, 0)] else wasHome)
    }

    /** The new hint is the old one, or the least cluster of the chain from `start` on if that is lower. */
    ghost predicate Lowered(was: map<Cluster, Place>, start: Cluster, old_: nat, hint: nat) {
      && start in was && hint <= old_
      && (forall c :: c in was && was[c].chain == was[start].chain && was[c].index >= was[start].index ==> hint <= c)
      && (hint == old_ || (hint in was && was[hint].chain == was[start].chain && was[hint].index >= was[start].index))
    }

    lemma LoweredBy(was: map<Cluster, Place>, start: Cluster, old_: nat, lowest: nat)
      requires start in was
      requires lowest in was && was[lowest].chain == was[start].chain && was[lowest].index >= was[start].index
      requires forall c :: c in was && was[c].chain == was[start].chain && was[c].index >= was[start].index ==>
        lowest <= c
      ensures Lowered(was, start, old_, if old_ > lowest then lowest else old_)
    {
    }

    lemma JoinFacts(h: Cluster, c: Cluster, last: Cluster)
      requires Stored() && Linkage() && h in chains && c in chains && chains[c] == [c] && h != c
      requires chains[h] != [] && last == chains[h][|chains[h]| - 1]
      ensures 0 < last < ulNumClusters <= |table| && Held(ucType, c) == c && table[last] != 0 && c != 0
      ensures WellFormed(ucType, table[last := c], ulNumClusters, (chains - {c})[h := chains[h] + [c]],
                         home[c := Place(h, |chains[h]|)])
      ensures ZeroEntries(table[last := c], EntriesCounted(|table|)) == FreeClusters()
      ensures forall hint :: SoundHint(table[last := c], ulNumClusters, hint) <==> SoundHint(table, ulNumClusters, hint)
    {
      hide Stored, WellFormed, SoundHint, Held;
      StoredBounds();
      HeldEndMark(ucType);
      Walk(h, |chains[h]| - 1);
      Walk(c, 0);
      Follow(ucType, table, ulNumClusters, chains, home, h, |chains[h]| - 1);
      BelowModulus();
      JoinKeeps(ucType, table, ulNumClusters, chains, home, h, c);
      ZeroUpdate(table, last, c, EntriesCounted(|table|));
      forall hint ensures SoundHint(table[last := c], ulNumClusters, hint) <==> SoundHint(table, ulNumClusters, hint) {
        RewriteHint(table, ulNumClusters, last, c, hint);
      }
    }

    lemma BelowModulus()
      requires Linkage()
      ensures ulNumClusters < Modulus(ucType)
    {
      hide Disjoint, Linked;
    }

    lemma JoinedChains(before: map<Cluster, seq<Cluster>>, claimed: map<Cluster, seq<Cluster>>, h: Cluster, c: Cluster)
      requires h in before && c !in before && claimed == before[c := [c]]
      ensures h != c && (claimed - {c})[h := claimed[h] + [c]] == before[h := before[h] + [c]]
    {
    }

    /** A free cluster is claimed and linked behind the last one of a chain. */
    method AppendCluster(ulDirCluster: nat) returns (cluster: nat, error: bool)
      requires Stored() && Linkage() && ulDirCluster in home
      modifies fats, `table, `chains, `home, `ulLastFreeCluster
      ensures Stored() && Linkage()
      ensures error <==> old(Start()) >= ulNumClusters
                         || FirstFree(old(table), old(Start()), ulNumClusters) == ulNumClusters
      ensures error ==> table == old(table) && chains == old(chains)
      ensures !error ==>
        var h := old(home)[ulDirCluster].chain;
        && cluster !in old(home) && h in old(chains) && old(chains)[h] != []
        && chains == old(chains)[h := old(chains)[h] + [cluster]]
        && cluster < |table| && old(chains)[h][|old(chains)[h]| - 1] < |table|
        && table == old(table)[cluster := EndMark(ucType)][old(chains)[h][|old(chains)[h]| - 1] := cluster]
        && ulLastFreeCluster != 0
        && (SoundHint(table, ulNumClusters, ulLastFreeCluster) <==> SoundHint(old(table), ulNumClusters, old(Start())))
        && FreeClusters() == old(FreeClusters()) - 1
    {
      hide Stored, WellFormed, SoundHint;
      ghost var h := home[ulDirCluster].chain;
      var last: nat;
      last, error := FindEndOfChain(ulDirCluster);
      cluster, error := ClaimFreeCluster();
      if !error {
        At(ulDirCluster);
        JoinFacts(h, cluster, last);
        error := PutFATEntry(last, cluster);
        JoinedChains(old(chains), chains, h, cluster);
        home := home[cluster := Place(h, |chains[h]|)];
        chains := old(chains)[h := old(chains)[h] + [cluster]];
      }
    }

    /** FF_ExtendDirectory up to clearing the new cluster: it becomes the last one of the directory's chain. */
    method ExtendDirectory(ulDirCluster: nat) returns (cluster: nat, error: bool)
      requires Stored() && Linkage() && (ulDirCluster in home || (ulDirCluster == ulRootDirCluster && ucType.Fat16?))
      modifies fats, `table, `chains, `home, `ulLastFreeCluster, `ulFreeClusterCount, `fsInfo
      ensures Stored() && Linkage()
      ensures error ==> table == old(table) && chains == old(chains)
      ensures error <==>
        || (ulDirCluster == ulRootDirCluster && ucType.Fat16?)
        || (old(ulFreeClusterCount) == 0 && (if old(FsInfoTrusted()) then old(fsInfo).freeCount
                                             else old(FreeClusters())) == 0)
        || old(Start()) >= ulNumClusters
        || FirstFree(old(table), old(Start()), ulNumClusters) == ulNumClusters
      ensures !error ==>
        var h := old(home)[ulDirCluster].chain;
        && cluster !in old(home) && h in old(chains)
        && chains == old(chains)[h := old(chains)[h] + [cluster]]
        && (SoundHint(table, ulNumClusters, ulLastFreeCluster) <==> SoundHint(old(table), ulNumClusters, old(Start())))
      ensures !error && old(CountRight()) ==> CountRight()
    {
      hide Stored, WellFormed, SoundHint;
      cluster, error := 0, ulDirCluster == ulRootDirCluster && ucType.Fat16?;
      if !error {
        if ulFreeClusterCount == 0 {
          ulFreeClusterCount := CountFreeClusters();
        }
        error := ulFreeClusterCount == 0;
        if !error {
          CountedBound();
          cluster, error := AppendCluster(ulDirCluster);
          if !error {
            error := DecreaseFreeClusters(1);
          }
        }
      }
    }
  }
}
