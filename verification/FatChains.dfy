/**
 A file allocation table as a sequence of entries, and the cluster chains in it.
 */
module FatChains {
  datatype Kind = Fat16 | Fat32

  /** What the bits of a FAT entry that the format uses can hold */
  function Modulus(kind: Kind): nat {
    if kind.Fat32? then 0x1000_0000 else 0x1_0000
  }

  /** FF_isEndOfChain: an end mark, or zero. A FAT32 entry is looked at without its upper four bits. */
  predicate IsEndOfChain(kind: Kind, entry: nat) {
    entry == 0 || (if kind.Fat32? then entry % 0x1000_0000 >= 0xFFF_FFF8 else entry >= 0xFFF8)
  }

  /** The entry that writing 0xFFFFFFFF leaves */
  function EndMark(kind: Kind): nat {
    Modulus(kind) - 1
  }

  /** An entry that marks a bad cluster belongs to no chain. */
  function Bad(kind: Kind): nat {
    Modulus(kind) - 9
  }

  /** The eight highest values are end marks, the highest of them the one written; the next one marks a bad cluster. */
  lemma EndMarks(entry: nat)
    ensures entry < 0x1_0000 ==>
      && (IsEndOfChain(Fat16, entry) <==> entry == 0 || 0x1_0000 - entry <= 8)
      && (entry == EndMark(Fat16) <==> entry == 0xFFFF) && (entry == Bad(Fat16) <==> 0x1_0000 - entry == 9)
    ensures entry < 0x1_0000_0000 ==>
      && (IsEndOfChain(Fat32, entry) <==> entry == 0 || 0x1000_0000 - entry % 0x1000_0000 <= 8)
      && (entry == EndMark(Fat32) <==> entry == 0x0FFF_FFFF) && (entry == Bad(Fat32) <==> 0x1000_0000 - entry == 9)
  {
  }

  type Cluster = nat

  /** A cluster in use is the one at `index` of the chain that starts at `chain`. */
  datatype Place = Place(chain: Cluster, index: nat)

  /** `home` is the inverse of `chains`: the chains are disjoint and none has a cluster twice. */
  ghost predicate Disjoint(chains: map<Cluster, seq<Cluster>>, home: map<Cluster, Place>) {
    && (forall c :: c in home ==>
          && home[c].chain in chains && home[c].index < |chains[home[c].chain]|
          && chains[home[c].chain][home[c].index] == c)
    && (forall h, i :: h in chains && 0 <= i < |chains[h]| ==>
          chains[h][i] in home && home[chains[h][i]] == Place(h, i))
    && (forall h :: h in chains ==> chains[h] != [] && chains[h][0] == h)
  }

  /** The entry of a cluster leads to the next one of its chain; that of the last one is an end mark. */
  ghost predicate LeadsOn(kind: Kind, table: seq<nat>, clusters: nat, s: seq<Cluster>, i: nat) {
    && i < |s| && 2 <= s[i] < clusters <= |table| && table[s[i]] != 0
    && if i + 1 < |s| then table[s[i]] == s[i + 1] else IsEndOfChain(kind, table[s[i]])
  }

  ghost predicate Linked(kind: Kind, table: seq<nat>, clusters: nat, chains: map<Cluster, seq<Cluster>>,
                         home: map<Cluster, Place>) {
    forall c :: c in home && home[c].chain in chains ==>
      LeadsOn(kind, table, clusters, chains[home[c].chain], home[c].index)
  }

  /** Every usable cluster is free, bad or in a chain; the two reserved entries are not free. */
  ghost predicate Covered(kind: Kind, table: seq<nat>, clusters: nat, home: map<Cluster, Place>) {
    && 2 <= clusters <= |table| && clusters < Bad(kind) && table[0] != 0 && table[1] != 0
    && (forall c :: 0 <= c < |table| ==> table[c] < Modulus(kind))
    && (forall c :: 2 <= c < clusters ==> (c in home <==> table[c] != 0 && table[c] != Bad(kind)))
  }

  /** The table is a set of acyclic, disjoint chains. */
  ghost predicate WellFormed(kind: Kind, table: seq<nat>, clusters: nat, chains: map<Cluster, seq<Cluster>>,
                             home: map<Cluster, Place>) {
    Disjoint(chains, home) && Linked(kind, table, clusters, chains, home) && Covered(kind, table, clusters, home)
  }

  lemma Leads(kind: Kind, table: seq<nat>, clusters: nat, s: seq<Cluster>, i: nat)
    requires LeadsOn(kind, table, clusters, s, i)
    ensures i < |s| && 2 <= s[i] < clusters <= |table| && table[s[i]] != 0
    ensures i + 1 < |s| ==> table[s[i]] == s[i + 1]
    ensures i + 1 == |s| ==> IsEndOfChain(kind, table[s[i]])
  {
  }

  lemma StillLeads(kind: Kind, table: seq<nat>, after: seq<nat>, clusters: nat, s: seq<Cluster>, s': seq<Cluster>,
                   i: nat)
    requires LeadsOn(kind, table, clusters, s, i) && |after| == |table|
    requires i < |s'| && s'[i] == s[i] && (i + 1 < |s'| <==> i + 1 < |s|) && (i + 1 < |s| ==> s'[i + 1] == s[i + 1])
    requires i < |s| && s[i] < |table| ==> after[s[i]] == table[s[i]]
    ensures LeadsOn(kind, after, clusters, s', i)
  {
  }

  lemma LinkOf(kind: Kind, table: seq<nat>, clusters: nat, chains: map<Cluster, seq<Cluster>>,
               home: map<Cluster, Place>, c: Cluster)
    requires Linked(kind, table, clusters, chains, home) && c in home && home[c].chain in chains
    ensures LeadsOn(kind, table, clusters, chains[home[c].chain], home[c].index)
  {
    hide LeadsOn;
  }

  /** What a walk along a chain finds */
  lemma Follow(kind: Kind, table: seq<nat>, clusters: nat, chains: map<Cluster, seq<Cluster>>,
               home: map<Cluster, Place>, h: Cluster, i: nat)
    requires WellFormed(kind, table, clusters, chains, home) && h in chains && i < |chains[h]|
    ensures var c := chains[h][i];
      && 2 <= c < clusters <= |table| && table[c] != 0 && !IsEndOfChain(kind, c)
      && c in home && home[c] == Place(h, i)
      && (i + 1 < |chains[h]| ==> table[c] == chains[h][i + 1] && !IsEndOfChain(kind, table[c]))
      && (i + 1 == |chains[h]| ==> IsEndOfChain(kind, table[c]))
  {
    hide LeadsOn, Linked;
    LinkOf(kind, table, clusters, chains, home, chains[h][i]);
    Leads(kind, table, clusters, chains[h], i);
    if i + 1 < |chains[h]| {
      LinkOf(kind, table, clusters, chains, home, chains[h][i + 1]);
      Leads(kind, table, clusters, chains[h], i + 1);
    }
  }

  /** A step keeps the links of the clusters whose entries and chains it leaves alone up to the next cluster. */
  lemma LinkKept(kind: Kind, table: seq<nat>, after: seq<nat>, clusters: nat, chains: map<Cluster, seq<Cluster>>,
                 chains': map<Cluster, seq<Cluster>>, home: map<Cluster, Place>, c: Cluster)
    requires Linked(kind, table, clusters, chains, home) && c in home && home[c].chain in chains && |after| == |table|
    requires c < |table| ==> after[c] == table[c]
    requires home[c].chain in chains' && home[c].index < |chains[home[c].chain]|
    requires chains[home[c].chain][home[c].index] == c
    requires var s, s', i := chains[home[c].chain], chains'[home[c].chain], home[c].index;
      && i < |s'| && s'[i] == s[i] && (i + 1 < |s'| <==> i + 1 < |s|) && (i + 1 < |s| ==> s'[i + 1] == s[i + 1])
    ensures LeadsOn(kind, after, clusters, chains'[home[c].chain], home[c].index)
  {
    hide LeadsOn, Linked;
    LinkOf(kind, table, clusters, chains, home, c);
    StillLeads(kind, table, after, clusters, chains[home[c].chain], chains'[home[c].chain], home[c].index);
  }

  /** FF_FindFreeCluster claims a free cluster: it becomes a chain of its own. */
  lemma ClaimKeeps(kind: Kind, table: seq<nat>, clusters: nat, chains: map<Cluster, seq<Cluster>>,
                   home: map<Cluster, Place>, c: Cluster)
    requires WellFormed(kind, table, clusters, chains, home) && 2 <= c < clusters && table[c] == 0
    ensures c !in home && c !in chains
    ensures WellFormed(kind, table[c := EndMark(kind)], clusters, chains[c := [c]], home[c := Place(c, 0)])
  {
    hide LeadsOn, Linked, Covered;
    ClaimCovered(kind, table, clusters, home, c);
    if c in chains {
      StartInUse(chains, home, c);
    }
    var after, chains', home' := table[c := EndMark(kind)], chains[c := [c]], home[c := Place(c, 0)];
    ClaimDisjoint(chains, home, c);
    forall x | x in home' ensures LeadsOn(kind, after, clusters, chains'[home'[x].chain], home'[x].index) {
      if x == c {
        NewEnd(kind, after, clusters, [c], 0);
      } else {
        LinkKept(kind, table, after, clusters, chains, chains', home, x);
      }
    }
    AllLinked(kind, after, clusters, chains', home');
  }

  lemma StartInUse(chains: map<Cluster, seq<Cluster>>, home: map<Cluster, Place>, h: Cluster)
    requires Disjoint(chains, home) && h in chains
    ensures h in home && home[h] == Place(h, 0)
  {
    assert chains[h][0] == h;
  }

  lemma ClaimDisjoint(chains: map<Cluster, seq<Cluster>>, home: map<Cluster, Place>, c: Cluster)
    requires Disjoint(chains, home) && c !in home && c !in chains
    ensures Disjoint(chains[c := [c]], home[c := Place(c, 0)])
  {
    var chains', home' := chains[c := [c]], home[c := Place(c, 0)];
    forall h, i | h in chains' && 0 <= i < |chains'[h]|
      ensures chains'[h][i] in home' && home'[chains'[h][i]] == Place(h, i)
    {
      if h != c {
        assert chains[h][i] in home;
      }
    }
  }

  lemma ClaimCovered(kind: Kind, table: seq<nat>, clusters: nat, home: map<Cluster, Place>, c: Cluster)
    requires Covered(kind, table, clusters, home) && 2 <= c < clusters && table[c] == 0
    ensures c !in home && |table| >= clusters
    ensures Covered(kind, table[c := EndMark(kind)], clusters, home[c := Place(c, 0)])
  {
  }

  lemma NewEnd(kind: Kind, table: seq<nat>, clusters: nat, s: seq<Cluster>, i: nat)
    requires i + 1 == |s| && 2 <= s[i] < clusters <= |table| && table[s[i]] == EndMark(kind)
    ensures LeadsOn(kind, table, clusters, s, i)
  {
  }

  lemma AllLinked(kind: Kind, table: seq<nat>, clusters: nat, chains: map<Cluster, seq<Cluster>>,
                  home: map<Cluster, Place>)
    requires forall x :: x in home ==> home[x].chain in chains
    requires forall x :: x in home ==> LeadsOn(kind, table, clusters, chains[home[x].chain], home[x].index)
    ensures Linked(kind, table, clusters, chains, home)
  {
    hide LeadsOn;
  }

  /** The last entry of one chain is made to point to a chain of one cluster. */
  lemma JoinKeeps(kind: Kind, table: seq<nat>, clusters: nat, chains: map<Cluster, seq<Cluster>>,
                  home: map<Cluster, Place>, h: Cluster, c: Cluster)
    requires WellFormed(kind, table, clusters, chains, home) && h in chains && c in chains && chains[c] == [c] && h != c
    ensures var s := chains[h];
      && s != [] && s[|s| - 1] < |table|
      && WellFormed(kind, table[s[|s| - 1] := c], clusters, (chains - {c})[h := s + [c]], home[c := Place(h, |s|)])
  {
    hide LeadsOn, Linked, Covered, Disjoint;
    var s := chains[h];
    StartOfChain(chains, home, h);
    var n := |s| - 1;
    Follow(kind, table, clusters, chains, home, h, n);
    Follow(kind, table, clusters, chains, home, c, 0);
    var after, chains', home' := table[s[n] := c], (chains - {c})[h := s + [c]], home[c := Place(h, |s|)];
    JoinDisjoint(chains, home, h, c);
    InItsChain(chains', home');
    forall x | x in home' ensures LeadsOn(kind, after, clusters, chains'[home'[x].chain], home'[x].index) {
      JoinLinked(kind, table, clusters, chains, home, h, c, x);
    }
    AllLinked(kind, after, clusters, chains', home');
    JoinCovered(kind, table, clusters, home, s[n], c, Place(h, |s|));
  }

  lemma StartOfChain(chains: map<Cluster, seq<Cluster>>, home: map<Cluster, Place>, h: Cluster)
    requires Disjoint(chains, home) && h in chains
    ensures chains[h] != []
  {
  }

  lemma InItsChain(chains: map<Cluster, seq<Cluster>>, home: map<Cluster, Place>)
    requires Disjoint(chains, home)
    ensures forall c :: c in home ==>
      && home[c].chain in chains && home[c].index < |chains[home[c].chain]|
      && chains[home[c].chain][home[c].index] == c
  {
  }

  lemma JoinLinked(kind: Kind, table: seq<nat>, clusters: nat, chains: map<Cluster, seq<Cluster>>,
                   home: map<Cluster, Place>, h: Cluster, c: Cluster, x: Cluster)
    requires WellFormed(kind, table, clusters, chains, home) && h in chains && c in chains && chains[c] == [c] && h != c
    requires x == c || x in home
    ensures var s, home' := chains[h], home[c := Place(h, |chains[h]|)];
      && s != [] && s[|s| - 1] < |table| && (home'[x].chain in (chains - {c})[h := s + [c]])
      && LeadsOn(kind, table[s[|s| - 1] := c], clusters, (chains - {c})[h := s + [c]][home'[x].chain], home'[x].index)
  {
    hide LeadsOn, Linked, Covered, Disjoint;
    var s := chains[h];
    StartOfChain(chains, home, h);
    InItsChain(chains, home);
    var n := |s| - 1;
    Follow(kind, table, clusters, chains, home, h, n);
    Follow(kind, table, clusters, chains, home, c, 0);
    JoinDisjoint(chains, home, h, c);
    var after, chains' := table[s[n] := c], (chains - {c})[h := s + [c]];
    if x == c || x == s[n] {
      LastOfJoined(kind, table, after, clusters, s, c);
    } else {
      LinkKept(kind, table, after, clusters, chains, chains', home, x);
    }
  }

  lemma LastOfJoined(kind: Kind, table: seq<nat>, after: seq<nat>, clusters: nat, s: seq<Cluster>, c: Cluster)
    requires s != [] && 2 <= s[|s| - 1] < clusters <= |table| && 2 <= c < clusters && c != s[|s| - 1]
    requires after == table[s[|s| - 1] := c] && table[c] != 0 && IsEndOfChain(kind, table[c])
    ensures LeadsOn(kind, after, clusters, s + [c], |s| - 1) && LeadsOn(kind, after, clusters, s + [c], |s|)
  {
  }

  lemma JoinDisjoint(chains: map<Cluster, seq<Cluster>>, home: map<Cluster, Place>, h: Cluster, c: Cluster)
    requires Disjoint(chains, home) && h in chains && c in chains && chains[c] == [c] && h != c
    ensures Disjoint((chains - {c})[h := chains[h] + [c]], home[c := Place(h, |chains[h]|)])
    ensures forall x :: x in home && x != c ==> home[x].chain != c
    ensures home[c] == Place(c, 0)
  {
    assert chains[c][0] == c;
    assert forall x :: x in home && home[x].chain == c ==> x == c;
  }

  lemma JoinCovered(kind: Kind, table: seq<nat>, clusters: nat, home: map<Cluster, Place>, last: Cluster, c: Cluster,
                    p: Place)
    requires Covered(kind, table, clusters, home) && 2 <= last < clusters && 2 <= c < clusters && last in home
    requires c in home
    ensures Covered(kind, table[last := c], clusters, home[c := p])
  {
  }

  /**
   The entry of a cluster that is in no chain is overwritten: a zero leaves it free, and an end mark makes it a chain of
   its own.
   */
  lemma LoneKeeps(kind: Kind, table: seq<nat>, clusters: nat, chains: map<Cluster, seq<Cluster>>,
                  home: map<Cluster, Place>, c: Cluster)
    requires WellFormed(kind, table, clusters, chains, home) && 2 <= c < clusters && c !in home
    ensures c < |table| && c !in chains && WellFormed(kind, table[c := 0], clusters, chains, home)
    ensures WellFormed(kind, table[c := EndMark(kind)], clusters, chains[c := [c]], home[c := Place(c, 0)])
  {
    hide LeadsOn, Linked, Covered;
    LoneFreed(kind, table, clusters, chains, home, c);
    ClaimKeeps(kind, table[c := 0], clusters, chains, home, c);
    assert table[c := 0][c := EndMark(kind)] == table[c := EndMark(kind)];
  }

  lemma LoneFreed(kind: Kind, table: seq<nat>, clusters: nat, chains: map<Cluster, seq<Cluster>>,
                  home: map<Cluster, Place>, c: Cluster)
    requires WellFormed(kind, table, clusters, chains, home) && 2 <= c < clusters && c !in home
    ensures c < |table| && WellFormed(kind, table[c := 0], clusters, chains, home)
  {
    hide LeadsOn;
    forall x | x in home ensures LeadsOn(kind, table[c := 0], clusters, chains[home[x].chain], home[x].index) {
      assert LeadsOn(kind, table, clusters, chains[home[x].chain], home[x].index);
      StillLeads(kind, table, table[c := 0], clusters, chains[home[x].chain], chains[home[x].chain], home[x].index);
    }
  }

  /** The table after a chain has been unlinked from its place `i` on, or, truncating, from behind that place */
  ghost predicate Unlinks(kind: Kind, table: seq<nat>, after: seq<nat>, home: map<Cluster, Place>, h: Cluster, i: nat,
                          truncate: bool) {
    && |after| == |table|
    && forall c :: 0 <= c < |table| ==>
         after[c] == if c in home && home[c].chain == h && home[c].index >= i
                     then (if truncate && home[c].index == i then EndMark(kind) else 0) else table[c]
  }

  lemma UnlinkedEntry(kind: Kind, table: seq<nat>, after: seq<nat>, home: map<Cluster, Place>, h: Cluster, i: nat,
                      truncate: bool, c: Cluster)
    requires Unlinks(kind, table, after, home, h, i, truncate) && c < |table|
    ensures |after| == |table|
    ensures after[c] == if c in home && home[c].chain == h && home[c].index >= i
                        then (if truncate && home[c].index == i then EndMark(kind) else 0) else table[c]
  {
  }

  /** What stays of `home` when chain `h` is cut behind its first `n` clusters */
  function Remaining(home: map<Cluster, Place>, h: Cluster, n: nat): map<Cluster, Place> {
    map x | x in home && !(home[x].chain == h && home[x].index >= n) :: home[x]
  }

  /** FF_UnlinkClusterChain from any cluster of a chain with truncation: the chain ends there, others are as before. */
  lemma TruncateKeeps(kind: Kind, table: seq<nat>, clusters: nat, chains: map<Cluster, seq<Cluster>>,
                      home: map<Cluster, Place>, h: Cluster, i: nat, after: seq<nat>)
    requires WellFormed(kind, table, clusters, chains, home) && h in chains && i < |chains[h]|
    requires Unlinks(kind, table, after, home, h, i, true)
    ensures WellFormed(kind, after, clusters, chains[h := chains[h][..i + 1]], Remaining(home, h, i + 1))
  {
    hide LeadsOn, Linked, Covered, Unlinks;
    var chains', home' := chains[h := chains[h][..i + 1]], Remaining(home, h, i + 1);
    CutDisjoint(chains, home, h, i + 1);
    Follow(kind, table, clusters, chains, home, h, i);
    forall x | x in home' ensures LeadsOn(kind, after, clusters, chains'[home'[x].chain], home'[x].index) {
      TruncatedLink(kind, table, clusters, chains, home, h, i, after, x);
    }
    AllLinked(kind, after, clusters, chains', home');
    CutCovered(kind, table, clusters, chains, home, h, i, after, true);
  }

  lemma TruncatedLink(kind: Kind, table: seq<nat>, clusters: nat, chains: map<Cluster, seq<Cluster>>,
                      home: map<Cluster, Place>, h: Cluster, i: nat, after: seq<nat>, x: Cluster)
    requires WellFormed(kind, table, clusters, chains, home) && h in chains && i < |chains[h]|
    requires Unlinks(kind, table, after, home, h, i, true)
    requires x in home && !(home[x].chain == h && home[x].index > i)
    ensures LeadsOn(kind, after, clusters, chains[h := chains[h][..i + 1]][home[x].chain], home[x].index)
  {
    hide LeadsOn, Linked, Covered, Unlinks;
    LinkOf(kind, table, clusters, chains, home, x);
    Leads(kind, table, clusters, chains[home[x].chain], home[x].index);
    UnlinkedEntry(kind, table, after, home, h, i, true, x);
    if home[x] == Place(h, i) {
      NewEnd(kind, after, clusters, chains[h][..i + 1], i);
    } else {
      LinkKept(kind, table, after, clusters, chains, chains[h := chains[h][..i + 1]], home, x);
    }
  }

  lemma RemainingPlaces(home: map<Cluster, Place>, h: Cluster, n: nat)
    ensures forall x :: x in Remaining(home, h, n) <==> x in home && !(home[x].chain == h && home[x].index >= n)
    ensures forall x :: x in Remaining(home, h, n) ==> Remaining(home, h, n)[x] == home[x]
  {
  }

  lemma CutDisjoint(chains: map<Cluster, seq<Cluster>>, home: map<Cluster, Place>, h: Cluster, n: nat)
    requires Disjoint(chains, home) && h in chains && 1 <= n <= |chains[h]|
    ensures Disjoint(chains[h := chains[h][..n]], Remaining(home, h, n))
  {
    hide Remaining;
    RemainingPlaces(home, h, n);
  }

  lemma DropDisjoint(chains: map<Cluster, seq<Cluster>>, home: map<Cluster, Place>, h: Cluster)
    requires Disjoint(chains, home) && h in chains
    ensures Disjoint(chains - {h}, Remaining(home, h, 0))
  {
    hide Remaining;
    RemainingPlaces(home, h, 0);
  }

  lemma Usable(kind: Kind, table: seq<nat>, clusters: nat, chains: map<Cluster, seq<Cluster>>,
               home: map<Cluster, Place>)
    requires WellFormed(kind, table, clusters, chains, home)
    ensures forall c :: c in home ==> 2 <= c < clusters
  {
    hide LeadsOn, Linked, Covered;
    forall c | c in home ensures 2 <= c < clusters {
      LinkOf(kind, table, clusters, chains, home, c);
      Leads(kind, table, clusters, chains[home[c].chain], home[c].index);
    }
  }

  lemma CutCovered(kind: Kind, table: seq<nat>, clusters: nat, chains: map<Cluster, seq<Cluster>>,
                   home: map<Cluster, Place>, h: Cluster, i: nat, after: seq<nat>, truncate: bool)
    requires WellFormed(kind, table, clusters, chains, home) && Unlinks(kind, table, after, home, h, i, truncate)
    ensures Covered(kind, after, clusters, Remaining(home, h, if truncate then i + 1 else i))
  {
    hide LeadsOn, Linked, Disjoint;
    Usable(kind, table, clusters, chains, home);
  }

  /** Without truncation, from the first cluster: the whole chain is free. */
  lemma UnlinkKeeps(kind: Kind, table: seq<nat>, clusters: nat, chains: map<Cluster, seq<Cluster>>,
                    home: map<Cluster, Place>, h: Cluster, after: seq<nat>)
    requires WellFormed(kind, table, clusters, chains, home) && h in chains
    requires Unlinks(kind, table, after, home, h, 0, false)
    ensures WellFormed(kind, after, clusters, chains - {h}, Remaining(home, h, 0))
  {
    hide LeadsOn, Linked, Covered, Unlinks;
    var chains', home' := chains - {h}, Remaining(home, h, 0);
    DropDisjoint(chains, home, h);
    Usable(kind, table, clusters, chains, home);
    CutCovered(kind, table, clusters, chains, home, h, 0, after, false);
    forall x | x in home' ensures LeadsOn(kind, after, clusters, chains'[home'[x].chain], home'[x].index) {
      LinkOf(kind, table, clusters, chains, home, x);
      Leads(kind, table, clusters, chains[home[x].chain], home[x].index);
      UnlinkedEntry(kind, table, after, home, h, 0, false, x);
      LinkKept(kind, table, after, clusters, chains, chains', home, x);
    }
    AllLinked(kind, after, clusters, chains', home');
  }

  /** Without truncation, the table is still a set of chains if and only if the first cluster was given. */
  lemma UnlinkOnlyFromTheStart(kind: Kind, table: seq<nat>, clusters: nat, chains: map<Cluster, seq<Cluster>>,
                               home: map<Cluster, Place>, h: Cluster, i: nat, after: seq<nat>)
    requires WellFormed(kind, table, clusters, chains, home) && h in chains && i < |chains[h]|
    requires Unlinks(kind, table, after, home, h, i, false)
    ensures (exists chains', home' :: WellFormed(kind, after, clusters, chains', home')) <==> i == 0
  {
    hide WellFormed, Unlinks;
    if i == 0 {
      UnlinkKeeps(kind, table, clusters, chains, home, h, after);
    } else {
      Follow(kind, table, clusters, chains, home, h, i - 1);
      Follow(kind, table, clusters, chains, home, h, i);
      UnlinkedEntry(kind, table, after, home, h, i, false, chains[h][i - 1]);
      UnlinkedEntry(kind, table, after, home, h, i, false, chains[h][i]);
      forall chains', home' ensures !WellFormed(kind, after, clusters, chains', home') {
        if WellFormed(kind, after, clusters, chains', home') {
          LeadsToUsed(kind, after, clusters, chains', home', chains[h][i - 1]);
          assert false;
        }
      }
    }
  }

  lemma LeadsToUsed(kind: Kind, table: seq<nat>, clusters: nat, chains: map<Cluster, seq<Cluster>>,
                    home: map<Cluster, Place>, c: Cluster)
    requires WellFormed(kind, table, clusters, chains, home) && 2 <= c < clusters <= |table| && 2 <= table[c] < clusters
    ensures table[table[c]] != 0
  {
    hide LeadsOn, Linked;
    var p := home[c];
    LinkOf(kind, table, clusters, chains, home, c);
    Leads(kind, table, clusters, chains[p.chain], p.index);
    if p.index + 1 < |chains[p.chain]| {
      Follow(kind, table, clusters, chains, home, p.chain, p.index + 1);
    }
  }
}
