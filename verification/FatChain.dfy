/**
 Cluster chains in a file allocation table, independent of how the table is stored. An entry holds the number of the
 next cluster of its file, 0 for a free cluster, or a value from `eoc` on for the last cluster (section 4 of the
 Microsoft FAT Specification: 0xff8 for FAT12, 0xfff8 for FAT16).
 */
module FatChain {
  import opened Bytes

  const FIRST_CLUSTER: nat := 2

  type Fat = seq<nat>
  type Chain = seq<nat>

  predicate IsCluster(f: Fat, eoc: nat, c: nat) {
    FIRST_CLUSTER <= c < |f| && c < eoc
  }

  /** Entry i of the chain leads to entry i + 1, and the last one ends the chain. */
  predicate Links(f: Fat, eoc: nat, ch: Chain, i: nat)
    requires i < |ch|
  {
    && IsCluster(f, eoc, ch[i])
    && if i + 1 < |ch| then f[ch[i]] == ch[i + 1] else eoc <= f[ch[i]]
  }

  ghost predicate IsChain(f: Fat, eoc: nat, ch: Chain) {
    ch != [] && forall i :: 0 <= i < |ch| ==> Links(f, eoc, ch, i)
  }

  /** The two chains have a cluster in common, at these places. */
  predicate Meet(a: Chain, i: nat, b: Chain, j: nat) {
    i < |a| && j < |b| && a[i] == b[j]
  }

  ghost predicate Covered(chains: set<Chain>, c: nat) {
    exists ch :: ch in chains && c in ch
  }

  /** Chains of the table that share no cluster. Other used entries there may be: bad clusters, clusters of no file. */
  ghost predicate Chained(f: Fat, eoc: nat, chains: set<Chain>) {
    && (forall ch :: ch in chains ==> IsChain(f, eoc, ch))
    && (forall a, i, b, j {:trigger Meet(a, i, b, j)} ::
          Meet(a, i, b, j) && a in chains && b in chains ==> a == b && i == j)
  }

  ghost predicate AllOnChains(f: Fat, chains: set<Chain>) {
    forall c {:trigger Covered(chains, c)} :: FIRST_CLUSTER <= c < |f| && f[c] != 0 ==> Covered(chains, c)
  }

  /** Every used cluster lies on one of the chains, and at one place only. */
  ghost predicate WellFormed(f: Fat, eoc: nat, chains: set<Chain>) {
    Chained(f, eoc, chains) && AllOnChains(f, chains)
  }

  // ----- The chains are determined by the table

  lemma ChainEntry(f: Fat, eoc: nat, ch: Chain, i: nat)
    requires IsChain(f, eoc, ch) && i < |ch| && 0 < eoc
    ensures IsCluster(f, eoc, ch[i]) && f[ch[i]] != 0
    ensures i + 1 < |ch| <==> f[ch[i]] < eoc
    ensures i + 1 < |ch| ==> f[ch[i]] == ch[i + 1]
  {
    assert Links(f, eoc, ch, i);
    assert i + 1 < |ch| ==> Links(f, eoc, ch, i + 1);
  }

  /** From the same cluster on, two chains of one table agree. */
  lemma {:induction false} SameTail(f: Fat, eoc: nat, a: Chain, b: Chain, i: nat, j: nat)
    requires IsChain(f, eoc, a) && IsChain(f, eoc, b) && i < |a| && j < |b| && a[i] == b[j] && 0 < eoc
    ensures a[i..] == b[j..]
    decreases |a| - i
  {
    ChainEntry(f, eoc, a, i);
    ChainEntry(f, eoc, b, j);
    if i + 1 < |a| {
      SameTail(f, eoc, a, b, i + 1, j + 1);
      assert a[i..] == [a[i]] + a[i + 1..] && b[j..] == [b[j]] + b[j + 1..];
    }
  }

  lemma HeadOnlyFirst(f: Fat, eoc: nat, chains: set<Chain>, a: Chain, c: Chain, k: nat)
    requires Chained(f, eoc, chains) && a in chains && c in chains && 0 < k < |c|
    ensures c[k] != a[0]
  {
    assert IsChain(f, eoc, a);
    assert c[k] == a[0] ==> Meet(c, k, a, 0);
  }

  lemma HeadHasNoPredecessor(f: Fat, eoc: nat, chains: set<Chain>, a: Chain, p: nat)
    requires WellFormed(f, eoc, chains) && a in chains && FIRST_CLUSTER <= p < |f| && 0 < eoc
    ensures f[p] != a[0]
  {
    ChainEntry(f, eoc, a, 0);
    if f[p] == a[0] {
      assert Covered(chains, p);
      var c :| c in chains && p in c;
      var k :| 0 <= k < |c| && c[k] == p;
      ChainEntry(f, eoc, c, k);
      if k + 1 < |c| { HeadOnlyFirst(f, eoc, chains, a, c, k + 1); }
    }
  }

  /** Each chain is found in any set of chains that covers the table. */
  lemma ChainIn(f: Fat, eoc: nat, xs: set<Chain>, ys: set<Chain>, a: Chain)
    requires WellFormed(f, eoc, xs) && WellFormed(f, eoc, ys) && a in xs && 0 < eoc
    ensures a in ys
  {
    ChainEntry(f, eoc, a, 0);
    assert Covered(ys, a[0]);
    var b :| b in ys && a[0] in b;
    var j :| 0 <= j < |b| && b[j] == a[0];
    SameTail(f, eoc, a, b, 0, j);
    if 0 < j {
      ChainEntry(f, eoc, b, j - 1);
      HeadHasNoPredecessor(f, eoc, xs, a, b[j - 1]);
    }
    assert a[0..] == a && b[0..] == b;
  }

  lemma ChainsUnique(f: Fat, eoc: nat, xs: set<Chain>, ys: set<Chain>)
    requires WellFormed(f, eoc, xs) && WellFormed(f, eoc, ys) && 0 < eoc
    ensures xs == ys
  {
    forall a | a in xs ensures a in ys { ChainIn(f, eoc, xs, ys, a); }
    forall b | b in ys ensures b in xs { ChainIn(f, eoc, ys, xs, b); }
  }

  // ----- Taking a free cluster

  /** Entry `taken` ends a chain; if `cur` is a cluster, it now leads to `taken`. */
  function Update(f: Fat, eoc: nat, taken: nat, cur: nat): (r: Fat)
    requires taken < |f|
    requires FIRST_CLUSTER <= cur < eoc ==> cur < |f|
    ensures |r| == |f|
  {
    var f1 := f[taken := 0xffff];
    if FIRST_CLUSTER <= cur < eoc then f1[cur := taken] else f1
  }

  /** A free cluster lies on no chain. */
  lemma FreeOffChains(f: Fat, eoc: nat, ch: Chain, c: nat)
    requires IsChain(f, eoc, ch) && c < |f| && f[c] == 0 && 0 < eoc
    ensures c !in ch
  {
    if i: nat :| i < |ch| && ch[i] == c {
      ChainEntry(f, eoc, ch, i);
    }
  }

  /** Changing entries off a chain leaves the chain alone. */
  lemma ChainUntouched(f: Fat, g: Fat, eoc: nat, ch: Chain)
    requires IsChain(f, eoc, ch) && |g| == |f|
    requires forall c :: c in ch && c < |f| ==> g[c] == f[c]
    ensures IsChain(g, eoc, ch)
  {
    forall i | 0 <= i < |ch| ensures Links(g, eoc, ch, i) {
      assert Links(f, eoc, ch, i) && ch[i] in ch;
    }
  }

  /** A cluster of one chain is on no other. */
  lemma NotOnOther(f: Fat, eoc: nat, chains: set<Chain>, a: Chain, i: nat, b: Chain)
    requires Chained(f, eoc, chains) && a in chains && b in chains && a != b && i < |a|
    ensures a[i] !in b
  {
    if j: nat :| j < |b| && b[j] == a[i] {
      assert Meet(a, i, b, j);
    }
  }

  /** Called without a predecessor: one new chain of one cluster, all other chains as before. */
  lemma UpdateNewChain(f: Fat, eoc: nat, chains: set<Chain>, taken: nat, cur: nat)
    requires Chained(f, eoc, chains) && IsCluster(f, eoc, taken) && f[taken] == 0 && eoc <= 0xffff
    requires !(FIRST_CLUSTER <= cur < eoc)
    ensures Chained(Update(f, eoc, taken, cur), eoc, chains + {[taken]})
    ensures AllOnChains(f, chains) ==> AllOnChains(Update(f, eoc, taken, cur), chains + {[taken]})
    ensures [taken] !in chains
  {
    var g := Update(f, eoc, taken, cur);
    forall ch | ch in chains ensures taken !in ch && IsChain(g, eoc, ch) {
      FreeOffChains(f, eoc, ch, taken);
      ChainUntouched(f, g, eoc, ch);
    }
    assert Links(g, eoc, [taken], 0);
    if AllOnChains(f, chains) {
      forall c | FIRST_CLUSTER <= c < |g| && g[c] != 0 ensures Covered(chains + {[taken]}, c) {
        if c == taken {
          assert c in [taken];
        } else {
          assert Covered(chains, c);
          var d :| d in chains && c in d;
          assert d in chains + {[taken]};
        }
      }
    }
  }

  /** The extended chain is a chain. */
  lemma ExtendedIsChain(f: Fat, eoc: nat, ch: Chain, taken: nat)
    requires IsChain(f, eoc, ch) && IsCluster(f, eoc, taken) && taken !in ch && eoc <= 0xffff
    requires forall i, j :: 0 <= i < j < |ch| ==> ch[i] != ch[j]
    requires Links(f, eoc, ch, |ch| - 1)
    ensures IsChain(Update(f, eoc, taken, ch[|ch| - 1]), eoc, ch + [taken])
  {
    var ext := ch + [taken];
    var g := Update(f, eoc, taken, ch[|ch| - 1]);
    forall i | 0 <= i < |ext| ensures Links(g, eoc, ext, i) {
      if i < |ch| {
        assert Links(f, eoc, ch, i) && ch[i] in ch;
      }
    }
  }

  /** Called on the tail of a chain: exactly that chain gets one more cluster, all other chains are as before. */
  lemma UpdateExtends(f: Fat, eoc: nat, chains: set<Chain>, ch: Chain, taken: nat)
    requires Chained(f, eoc, chains) && IsCluster(f, eoc, taken) && f[taken] == 0 && eoc <= 0xffff
    requires ch in chains
    ensures IsCluster(f, eoc, ch[|ch| - 1])
    ensures Chained(Update(f, eoc, taken, ch[|ch| - 1]), eoc, chains - {ch} + {ch + [taken]})
    ensures AllOnChains(f, chains) ==>
              AllOnChains(Update(f, eoc, taken, ch[|ch| - 1]), chains - {ch} + {ch + [taken]})
  {
    var tail := ch[|ch| - 1];
    assert Links(f, eoc, ch, |ch| - 1);
    var g := Update(f, eoc, taken, tail);
    forall c | c in chains ensures taken !in c {
      FreeOffChains(f, eoc, c, taken);
    }
    forall c | c in chains && c != ch ensures IsChain(g, eoc, c) {
      NotOnOther(f, eoc, chains, ch, |ch| - 1, c);
      ChainUntouched(f, g, eoc, c);
    }
    forall i, j | 0 <= i < j < |ch| ensures ch[i] != ch[j] {
      assert Meet(ch, i, ch, j) ==> i == j;
    }
    ExtendedIsChain(f, eoc, ch, taken);
    var ext := ch + [taken];
    var after := chains - {ch} + {ext};
    forall c: Chain, i: nat, d: Chain, j: nat | Meet(c, i, d, j) && c in after && d in after ensures c == d && i == j {
      assert c[i] in c && d[j] in d;
      assert i < |ch| && c == ext ==> c[i] == ch[i];
      assert j < |ch| && d == ext ==> d[j] == ch[j];
      var c0, d0 := if c == ext then ch else c, if d == ext then ch else d;
      assert i < |c0| && j < |d0| ==> Meet(c0, i, d0, j);
    }
    if AllOnChains(f, chains) {
      forall c | FIRST_CLUSTER <= c < |g| && g[c] != 0 ensures Covered(after, c) {
        if c == taken {
          assert ext[|ch|] == taken && taken in ext;
        } else {
          assert Covered(chains, c);
          var d :| d in chains && c in d;
          assert d == ch ==> c in ext;
          assert d != ch ==> d in after;
        }
      }
    }
  }

  // ----- Walking

  /** Where reading and writing stop: an end marker, or one of the two reserved numbers. */
  predicate Stops(v: nat, eoc: nat) {
    eoc <= v || v < FIRST_CLUSTER
  }

  /** The cluster k hops after `start`; None once a hop meets a stop value. */
  function Hop(f: Fat, eoc: nat, start: nat, k: nat): (r: Option<nat>)
    ensures r.Some? ==> !Stops(r.value, eoc)
  {
    if k == 0 then if Stops(start, eoc) then None else Some(start)
    else
      match Hop(f, eoc, start, k - 1)
      case None => None
      case Some(c) => if c < |f| && !Stops(f[c], eoc) then Some(f[c]) else None
  }

  /** Once the walk has stopped it stays stopped. */
  lemma {:induction false} HopStops(f: Fat, eoc: nat, start: nat, k: nat, m: nat)
    requires k <= m && Hop(f, eoc, start, k).None?
    ensures Hop(f, eoc, start, m).None?
    decreases m - k
  {
    if k < m {
      HopStops(f, eoc, start, k + 1, m);
    }
  }

  /** Walking from the head of a chain visits its clusters in order, then stops. */
  lemma {:induction false} HopChain(f: Fat, eoc: nat, ch: Chain, k: nat)
    requires IsChain(f, eoc, ch) && |f| <= 0x1_0000
    ensures Hop(f, eoc, ch[0], k) == if k < |ch| then Some(ch[k]) else None
  {
    if k == 0 {
      assert Links(f, eoc, ch, 0);
    } else {
      HopChain(f, eoc, ch, k - 1);
      if k <= |ch| {
        assert Links(f, eoc, ch, k - 1);
        assert k < |ch| ==> Links(f, eoc, ch, k);
      }
    }
  }

  /** Walking follows the entries, as far as they are known to lead on. */
  lemma {:induction false} HopWalk(f: Fat, eoc: nat, ch: Chain, k: nat)
    requires k < |ch| && forall i :: 0 <= i < |ch| ==> IsCluster(f, eoc, ch[i])
    requires forall i :: 0 <= i < |ch| - 1 ==> ch[i] < |f| && f[ch[i]] == ch[i + 1]
    ensures Hop(f, eoc, ch[0], k) == Some(ch[k])
  {
    if k != 0 { HopWalk(f, eoc, ch, k - 1); }
  }

  /** Two hop counts that lead to the same cluster repeat for ever: from the first on, no hop ever stops. */
  lemma {:induction false} HopCycle(f: Fat, eoc: nat, start: nat, i: nat, j: nat, k: nat)
    requires i < j && Hop(f, eoc, start, i).Some? && Hop(f, eoc, start, i) == Hop(f, eoc, start, j)
    ensures Hop(f, eoc, start, k).Some?
    decreases k
  {
    if k <= j {
      if Hop(f, eoc, start, k).None? { HopStops(f, eoc, start, k, j); }
    } else {
      HopCycle(f, eoc, start, i, j, k - (j - i));
      HopPeriod(f, eoc, start, i, j, k);
    }
  }

  lemma {:induction false} HopPeriod(f: Fat, eoc: nat, start: nat, i: nat, j: nat, k: nat)
    requires i < j <= k && Hop(f, eoc, start, i) == Hop(f, eoc, start, j)
    ensures Hop(f, eoc, start, k) == Hop(f, eoc, start, k - (j - i))
    decreases k
  {
    if j < k { HopPeriod(f, eoc, start, i, j, k - 1); }
  }
}
