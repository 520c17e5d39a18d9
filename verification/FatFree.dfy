/**
 Free clusters: the search for one, the hint where to start it, and how many there are.
 */
module FatFree {
  import opened FatChains
  import opened Sequences

  /** The number of zero entries among the first `n` */
  function ZeroEntries(table: seq<nat>, n: nat): nat
    requires n <= |table|
  {
    if n == 0 then 0 else ZeroEntries(table, n - 1) + if table[n - 1] == 0 then 1 else 0
  }

  lemma {:induction false} ZeroUpdate(table: seq<nat>, c: nat, value: nat, n: nat)
    requires c < |table| && n <= |table|
    ensures ZeroEntries(table[c := value], n) ==
            ZeroEntries(table, n)
            + if c < n then (if value == 0 then 1 else 0) - (if table[c] == 0 then 1 else 0) else 0
  {
    if n != 0 {
      ZeroUpdate(table, c, value, n - 1);
    }
  }

  /** The first free cluster from `from` on, or `limit` */
  function FirstFree(table: seq<nat>, from: nat, limit: nat): (c: nat)
    requires from <= limit <= |table|
    ensures from <= c <= limit && (c < limit ==> table[c] == 0)
    ensures forall d :: from <= d < c ==> table[d] != 0
    decreases limit - from
  {
    if from == limit || table[from] == 0 then from else FirstFree(table, from + 1, limit)
  }

  lemma FirstFreeIs(table: seq<nat>, from: nat, limit: nat, c: nat)
    requires from <= c <= limit <= |table| && (c < limit ==> table[c] == 0)
    requires forall d :: from <= d < c ==> table[d] != 0
    ensures FirstFree(table, from, limit) == c
  {
  }

  /** The hint is sound when no free cluster lies below it. */
  ghost predicate SoundHint(table: seq<nat>, clusters: nat, hint: nat) {
    forall c :: 2 <= c < hint && c < clusters && c < |table| ==> table[c] != 0
  }

  lemma HintFromStart(table: seq<nat>, clusters: nat)
    requires clusters <= |table|
    ensures SoundHint(table, clusters, FirstFree(table, 0, clusters)) && SoundHint(table, clusters, 0)
  {
  }

  /** A hint found by a search is sound exactly if the start of the search is. */
  lemma HintBehind(table: seq<nat>, clusters: nat, start: nat)
    requires start < clusters <= |table| && FirstFree(table, start, clusters) < clusters
    ensures SoundHint(table, clusters, FirstFree(table, start, clusters)) <==> SoundHint(table, clusters, start)
  {
  }

  /** After a claim the next search starts behind the claimed cluster; that is sound exactly if this one's start was. */
  lemma ClaimHint(table: seq<nat>, clusters: nat, start: nat, value: nat)
    requires start <= clusters <= |table| && FirstFree(table, start, clusters) < clusters && value != 0
    ensures var c := FirstFree(table, start, clusters);
      SoundHint(table[c := value], clusters, c + 1) <==> SoundHint(table, clusters, start)
  {
    var c := FirstFree(table, start, clusters);
    if SoundHint(table[c := value], clusters, c + 1) {
      forall d | 2 <= d < start ensures table[d] != 0 {
        assert table[c := value][d] != 0;
      }
    }
  }

  lemma {:induction false} DistinctBound(s: seq<nat>, n: nat)
    requires forall i, j :: 0 <= i < j < |s| ==> s[i] != s[j]
    requires forall i :: 0 <= i < |s| ==> s[i] < n
    ensures |s| <= n
  {
    if s != [] {
      assert s[0] < n;
      var k := IndexOf(s, n - 1);
      if k < |s| {
        DistinctBound(s[..k] + s[k + 1..], n - 1);
      } else {
        DistinctBound(s, n - 1);
      }
    }
  }

  /** The chain has been unlinked from place `i` up to place `k`. */
  ghost predicate Unlinking(kind: Kind, table: seq<nat>, after: seq<nat>, home: map<Cluster, Place>, h: Cluster,
                            i: nat, k: nat, truncate: bool) {
    && |after| == |table|
    && forall c :: 0 <= c < |table| ==>
         after[c] == if c in home && home[c].chain == h && i <= home[c].index < k
                     then (if truncate && home[c].index == i then EndMark(kind) else 0) else table[c]
  }

  lemma UnlinkingNext(kind: Kind, table: seq<nat>, after: seq<nat>, home: map<Cluster, Place>, h: Cluster, i: nat,
                      k: nat, truncate: bool, c: Cluster)
    requires Unlinking(kind, table, after, home, h, i, k, truncate) && c < |table| && c in home
    requires home[c] == Place(h, k)
    requires forall x :: x in home && home[x] == Place(h, k) ==> x == c
    requires i <= k
    ensures |after| == |table| && after[c] == table[c]
    ensures Unlinking(kind, table, after[c := if truncate && k == i then EndMark(kind) else 0], home, h, i, k + 1,
                      truncate)
  {
  }

  /** What one round of the loop finds, and what it leaves */
  lemma UnlinkStep(kind: Kind, table: seq<nat>, after: seq<nat>, clusters: nat, chains: map<Cluster, seq<Cluster>>,
                   home: map<Cluster, Place>, h: Cluster, i: nat, k: nat, truncate: bool, n: nat)
    requires WellFormed(kind, table, clusters, chains, home) && h in chains && i <= k < |chains[h]|
    requires Unlinking(kind, table, after, home, h, i, k, truncate) && clusters <= n <= |table|
    ensures var c, value := chains[h][k], if truncate && k == i then EndMark(kind) else 0;
      && 2 <= c < clusters <= |after| && after[c] == table[c] != 0 && (c == chains[h][i] <==> k == i)
      && (k + 1 < |chains[h]| ==> after[c] == chains[h][k + 1] && !IsEndOfChain(kind, after[c]))
      && (k + 1 == |chains[h]| ==> IsEndOfChain(kind, after[c]))
      && Unlinking(kind, table, after[c := value], home, h, i, k + 1, truncate)
      && ZeroEntries(after[c := value], n) == ZeroEntries(after, n) + if value == 0 then 1 else 0
  {
    hide WellFormed, Unlinking;
    Follow(kind, table, clusters, chains, home, h, k);
    Follow(kind, table, clusters, chains, home, h, i);
    OnlyThere(kind, table, clusters, chains, home, h, k);
    UnlinkingNext(kind, table, after, home, h, i, k, truncate, chains[h][k]);
    ZeroUpdate(after, chains[h][k], if truncate && k == i then EndMark(kind) else 0, n);
  }

  lemma OnlyThere(kind: Kind, table: seq<nat>, clusters: nat, chains: map<Cluster, seq<Cluster>>,
                  home: map<Cluster, Place>, h: Cluster, k: nat)
    requires WellFormed(kind, table, clusters, chains, home) && h in chains && k < |chains[h]|
    ensures forall x :: x in home && home[x] == Place(h, k) ==> x == chains[h][k]
    ensures forall x :: x in home && home[x].chain == h ==> home[x].index < |chains[h]| && x == chains[h][home[x].index]
  {
    hide Linked, Covered;
  }

  lemma UnlinkingStart(kind: Kind, table: seq<nat>, home: map<Cluster, Place>, h: Cluster, i: nat, truncate: bool)
    ensures Unlinking(kind, table, table, home, h, i, i, truncate)
  {
  }

  lemma UnlinkingEnd(kind: Kind, table: seq<nat>, after: seq<nat>, clusters: nat, chains: map<Cluster, seq<Cluster>>,
                     home: map<Cluster, Place>, h: Cluster, i: nat, truncate: bool, lowest: nat)
    requires WellFormed(kind, table, clusters, chains, home) && h in chains && chains[h] != []
    requires Unlinking(kind, table, after, home, h, i, |chains[h]|, truncate)
    requires forall j :: i <= j < |chains[h]| ==> lowest <= chains[h][j]
    ensures Unlinks(kind, table, after, home, h, i, truncate)
    ensures forall c :: c in home && home[c].chain == h && home[c].index >= i ==> lowest <= c
  {
    hide WellFormed;
    OnlyThere(kind, table, clusters, chains, home, h, 0);
  }

  /** Only clusters of the unlinked chain become free: a hint not above any of them is sound exactly if it was so. */
  lemma UnlinkHint(kind: Kind, table: seq<nat>, after: seq<nat>, home: map<Cluster, Place>, h: Cluster, i: nat,
                   truncate: bool, clusters: nat, hint: nat, lowest: nat)
    requires Unlinks(kind, table, after, home, h, i, truncate)
    requires forall c :: c in home && home[c].chain == h && home[c].index >= i ==> lowest <= c
    ensures var lowered := if hint > lowest then lowest else hint;
      && (SoundHint(after, clusters, lowered) <==> SoundHint(table, clusters, lowered))
      && (SoundHint(table, clusters, hint) ==> SoundHint(after, clusters, lowered))
  {
    var lowered := if hint > lowest then lowest else hint;
    forall c | 0 <= c < lowered && c < |table| ensures |after| == |table| && after[c] == table[c] {
      UnlinkedEntry(kind, table, after, home, h, i, truncate, c);
    }
  }

  /** An entry in use that is overwritten with another value in use frees nothing. */
  lemma RewriteHint(table: seq<nat>, clusters: nat, c: nat, value: nat, hint: nat)
    requires c < |table| && table[c] != 0 && value != 0
    ensures SoundHint(table[c := value], clusters, hint) <==> SoundHint(table, clusters, hint)
  {
    forall d | 0 <= d < |table| ensures table[c := value][d] == 0 <==> table[d] == 0 {
    }
  }
}
