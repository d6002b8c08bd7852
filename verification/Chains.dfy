/** Cluster chains in a decoded FAT. */
module Chains {

  /** chain follows the links of fat from its first cluster to an end mark; the empty chain is no cluster at all. */
  ghost predicate IsChain(fat: seq<nat>, n: nat, chain: seq<nat>) {
    && n <= |fat|
    && (forall i :: 0 <= i < |chain| ==> 2 <= chain[i] < n)
    && (forall i :: 0 <= i < |chain| - 1 ==> fat[chain[i]] == chain[i + 1])
    && (chain != [] ==> fat[chain[|chain| - 1]] >= n)
  }

  ghost predicate Disjoint(a: seq<nat>, b: seq<nat>) {
    forall c :: c in a ==> c !in b
  }

  /** A chain that ends never meets itself. */
  lemma {:induction false} ChainAcyclic(fat: seq<nat>, n: nat, chain: seq<nat>, i: nat, j: nat)
    requires IsChain(fat, n, chain) && i < j < |chain|
    ensures chain[i] != chain[j]
    decreases |chain| - j
  {
    assert fat[chain[i]] == chain[i + 1];
    if j + 1 < |chain| {
      assert fat[chain[j]] == chain[j + 1];
      ChainAcyclic(fat, n, chain, i + 1, j + 1);
    }
  }

  /** The FAT determines the chain of a cluster. */
  lemma {:induction false} ChainUnique(fat: seq<nat>, n: nat, a: seq<nat>, b: seq<nat>)
    requires IsChain(fat, n, a) && IsChain(fat, n, b) && a != [] && b != [] && a[0] == b[0]
    ensures a == b
    decreases |a|
  {
    assert |a| > 1 ==> fat[a[0]] == a[1];
    assert |b| > 1 ==> fat[b[0]] == b[1];
    if |a| > 1 && |b| > 1 {
      ChainUnique(fat, n, a[1..], b[1..]);
      assert a == [a[0]] + a[1..] && b == [b[0]] + b[1..];
    }
  }

  /** Entries outside a chain do not matter to it. */
  lemma ChainFrame(fat: seq<nat>, fat': seq<nat>, n: nat, chain: seq<nat>)
    requires IsChain(fat, n, chain) && |fat'| == |fat|
    requires forall c :: c in chain ==> fat'[c] == fat[c]
    ensures IsChain(fat', n, chain)
  {
  }

  /** Linking a free cluster behind the tail extends the chain by it. */
  lemma ChainAppend(fat: seq<nat>, n: nat, chain: seq<nat>, c: nat, eoc: nat)
    requires IsChain(fat, n, chain) && 2 <= c < n && fat[c] == 0 && eoc >= n
    ensures c !in chain
    ensures chain == [] ==> IsChain(fat[c := eoc], n, [c])
    ensures chain != [] ==> IsChain(fat[c := eoc][chain[|chain| - 1] := c], n, chain + [c])
  {
    FreeNotInChain(fat, n, chain, c);
    if chain != [] {
      var fat', last := fat[c := eoc][chain[|chain| - 1] := c], |chain| - 1;
      forall i | 0 <= i < last ensures fat'[chain[i]] == chain[i + 1] {
        ChainAcyclic(fat, n, chain, i, last);
      }
    }
  }

  lemma FreeNotInChain(fat: seq<nat>, n: nat, chain: seq<nat>, c: nat)
    requires IsChain(fat, n, chain) && c < |fat| && fat[c] == 0
    ensures c !in chain
  {
    forall i | 0 <= i < |chain|
      ensures chain[i] != c
    {
      assert i + 1 < |chain| ==> fat[chain[i]] == chain[i + 1];
    }
  }

  /** Number of free entries in [lo, hi). */
  function CountFree(fat: seq<nat>, lo: nat, hi: nat): (r: nat)
    requires hi <= |fat|
    ensures r <= if lo <= hi then hi - lo else 0
  {
    if hi <= lo then 0 else CountFree(fat, lo, hi - 1) + if fat[hi - 1] == 0 then 1 else 0
  }

  /** The count is the number of zero entries. */
  lemma {:induction false} CountMeans(fat: seq<nat>, lo: nat, hi: nat)
    requires hi <= |fat|
    ensures CountFree(fat, lo, hi) == |set c | lo <= c < hi && fat[c] == 0|
  {
    var all := set c | lo <= c < hi && fat[c] == 0;
    if lo < hi {
      CountMeans(fat, lo, hi - 1);
      var less := set c | lo <= c < hi - 1 && fat[c] == 0;
      assert all == less + if fat[hi - 1] == 0 then {hi - 1} else {};
    }
  }

  /** What one update does to the count. */
  lemma {:induction false} CountUpdate(fat: seq<nat>, lo: nat, hi: nat, c: nat, v: nat)
    requires hi <= |fat| && c < |fat|
    ensures CountFree(fat[c := v], lo, hi) == CountFree(fat, lo, hi)
              + (if lo <= c < hi && v == 0 then 1 else 0) - (if lo <= c < hi && fat[c] == 0 then 1 else 0)
  {
    if lo < hi {
      CountUpdate(fat, lo, hi - 1, c, v);
    }
  }

  /** A free entry is counted. */
  lemma {:induction false} CountPositive(fat: seq<nat>, lo: nat, hi: nat, c: nat)
    requires lo <= c < hi <= |fat| && fat[c] == 0
    ensures CountFree(fat, lo, hi) > 0
  {
    if c < hi - 1 {
      CountPositive(fat, lo, hi - 1, c);
    }
  }

  lemma {:induction false} CountSplit(fat: seq<nat>, lo: nat, mid: nat, hi: nat)
    requires lo <= mid <= hi <= |fat|
    ensures CountFree(fat, lo, hi) == CountFree(fat, lo, mid) + CountFree(fat, mid, hi)
  {
    if mid < hi {
      CountSplit(fat, lo, mid, hi - 1);
    }
  }

  /** Entries in use, which every freed cluster lessens. */
  function Used(fat: seq<nat>): (r: nat)
  {
    |fat| - CountFree(fat, 0, |fat|)
  }

  /** The FAT after the chain from clst on is released, on any FAT at all: the walk stops at a free entry, at an entry
      of 1 (which is no link), or behind an end mark. */
  function Released(fat: seq<nat>, n: nat, clst: nat): (r: seq<nat>)
    requires clst < n == |fat|
    ensures |r| == |fat|
    decreases Used(fat)
  {
    var nxt := fat[clst];
    if nxt <= 1 then fat
    else
      CountUpdate(fat, 0, |fat|, clst, 0);
      if nxt < n then Released(fat[clst := 0], n, nxt) else fat[clst := 0]
  }

  /** The walk does not meet an entry of 1. */
  predicate ReleaseOk(fat: seq<nat>, n: nat, clst: nat)
    requires clst < n == |fat|
    decreases Used(fat)
  {
    var nxt := fat[clst];
    if nxt <= 1 then nxt == 0
    else
      CountUpdate(fat, 0, |fat|, clst, 0);
      nxt < n ==> ReleaseOk(fat[clst := 0], n, nxt)
  }

  /** On a chain, releasing frees exactly its clusters. */
  lemma {:induction false} ReleasedChain(fat: seq<nat>, n: nat, chain: seq<nat>)
    requires IsChain(fat, n, chain) && chain != [] && n == |fat|
    ensures ReleaseOk(fat, n, chain[0])
    ensures forall c :: 0 <= c < n ==> Released(fat, n, chain[0])[c] == if c in chain then 0 else fat[c]
    decreases |chain|
  {
    var c0 := chain[0];
    if |chain| > 1 {
      var fat', rest := fat[c0 := 0], chain[1..];
      forall i | 0 <= i < |rest| ensures rest[i] != c0 {
        ChainAcyclic(fat, n, chain, 0, i + 1);
      }
      ChainFrame(fat, fat, n, rest);
      ChainFrame(fat, fat', n, rest);
      ReleasedChain(fat', n, rest);
      assert chain == [c0] + rest;
    }
  }

  /** Releasing a chain frees as many clusters as it has. */
  lemma {:induction false} ReleasedCount(fat: seq<nat>, n: nat, chain: seq<nat>)
    requires IsChain(fat, n, chain) && chain != [] && n == |fat|
    ensures CountFree(Released(fat, n, chain[0]), 2, n) == CountFree(fat, 2, n) + |chain|
    decreases |chain|
  {
    var c0 := chain[0];
    assert |chain| > 1 ==> fat[c0] == chain[1];
    ReleaseStep(fat, n, c0);
    if |chain| > 1 {
      var fat', rest := fat[c0 := 0], chain[1..];
      forall i | 0 <= i < |rest| ensures rest[i] != c0 {
        ChainAcyclic(fat, n, chain, 0, i + 1);
      }
      ChainFrame(fat, fat, n, rest);
      ChainFrame(fat, fat', n, rest);
      ReleasedCount(fat', n, rest);
    }
  }

  /** One step of a release: it stops at a free entry and at an entry of 1; else the cluster becomes free and the walk
      goes on behind it. */
  lemma ReleaseStep(fat: seq<nat>, n: nat, cl: nat)
    requires 2 <= cl < n == |fat|
    ensures fat[cl] <= 1 ==> Released(fat, n, cl) == fat && (ReleaseOk(fat, n, cl) <==> fat[cl] == 0)
    ensures fat[cl] > 1 ==>
              var fat', nxt := fat[cl := 0], fat[cl];
              && CountFree(fat', 2, n) == CountFree(fat, 2, n) + 1 && Used(fat') < Used(fat)
              && Released(fat, n, cl) == (if nxt < n then Released(fat', n, nxt) else fat')
              && (ReleaseOk(fat, n, cl) <==> (nxt < n ==> ReleaseOk(fat', n, nxt)))
  {
    CountUpdate(fat, 0, n, cl, 0);
    CountUpdate(fat, 2, n, cl, 0);
  }
}
