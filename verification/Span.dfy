/** Where the sectors and bytes of a file lie: its chain, cluster after cluster. */
module Span {
  import opened Bits
  import opened Geometry
  import opened Chains

  /** a / d and a % d by repeated subtraction, unfolded only one step at a time. */
  function Quot(a: nat, d: nat): nat
    requires d > 0
  {
    if a < d then 0 else 1 + Quot(a - d, d)
  }

  function Rem(a: nat, d: nat): (r: nat)
    requires d > 0
    ensures r < d
  {
    if a < d then a else Rem(a - d, d)
  }

  lemma {:induction false} QuotRem(a: nat, d: nat)
    requires d > 0
    ensures a == Times(d, Quot(a, d)) + Rem(a, d)
  {
    if a >= d {
      QuotRem(a - d, d);
    }
  }

  lemma {:induction false} QuotRemUnique(a: nat, d: nat, q: nat, r: nat)
    requires d > 0 && a == Times(d, q) + r && r < d
    ensures Quot(a, d) == q && Rem(a, d) == r
  {
    if q > 0 {
      QuotRemUnique(a - d, d, q - 1, r);
    }
  }

  lemma QuotIsDiv(a: nat, d: nat)
    requires d > 0
    ensures Quot(a, d) == a / d && Rem(a, d) == a % d
  {
    QuotRem(a, d);
    TimesIsProduct(d, Quot(a, d));
    DivModUnique(a, d, Quot(a, d), Rem(a, d));
  }

  /** The mask the code uses for a remainder by a power of two. */
  lemma MaskIsRem(x: nat, k: nat)
    requires PowerOfTwo(k)
    ensures And(x, k - 1) == Rem(x, k)
  {
    MaskIsRemainder(x, k);
    QuotIsDiv(x, k);
  }

  lemma {:induction false} TimesScale(m: nat, k: nat, n: nat)
    ensures Times(m * k, n) == m * Times(k, n)
  {
    if n != 0 {
      TimesScale(m, k, n - 1);
    }
  }

  /** Dividing bytes by the cluster size in bytes is dividing sectors by the cluster size in sectors. */
  lemma QuotBytes(x: nat, k: nat)
    requires k > 0
    ensures Quot(x, 512 * k) == Quot(x / 512, k)
    ensures Rem(x, 512 * k) == 512 * Rem(x / 512, k) + x % 512
  {
    QuotRem(x / 512, k);
    TimesScale(512, k, Quot(x / 512, k));
    QuotRemUnique(x, 512 * k, Quot(x / 512, k), 512 * Rem(x / 512, k) + x % 512);
  }

  /** Moving on by j stays in the cluster as long as the remainder has room. */
  lemma QuotRun(a: nat, j: nat, d: nat)
    requires d > 0 && Rem(a, d) + j < d
    ensures Quot(a + j, d) == Quot(a, d) && Rem(a + j, d) == Rem(a, d) + j
  {
    QuotRem(a, d);
    QuotRemUnique(a + j, d, Quot(a, d), Rem(a, d) + j);
  }

  /** The first step into the next cluster. */
  lemma QuotNext(a: nat, d: nat)
    requires d > 0 && Rem(a + 1, d) == 0
    ensures Quot(a + 1, d) == Quot(a, d) + 1
  {
    QuotRem(a, d);
    if Rem(a, d) + 1 < d {
      QuotRun(a, 1, d);
    } else {
      QuotRemUnique(a + 1, d, Quot(a, d) + 1, 0);
    }
  }

  lemma {:induction false} QuotBound(a: nat, d: nat, n: nat)
    requires d > 0
    ensures a < Times(d, n) <==> Quot(a, d) < n
  {
    QuotRem(a, d);
    var q := Quot(a, d);
    if q < n {
      TimesStep(d, q, n);
    } else if n < q {
      TimesStep(d, n, q);
    }
  }

  /** First sector of a valid cluster. */
  function Base(g: Geometry, c: nat): nat
    requires c >= 2
  {
    g.database + Times(g.csize, c - 2)
  }

  /** Sector j of cluster c. */
  function Place(g: Geometry, c: nat, j: nat): nat
    requires c >= 2
  {
    Base(g, c) + j
  }

  /** Clusters of the volume, each at most once. */
  ghost predicate Clusters(g: Geometry, chain: seq<nat>) {
    && (forall i :: 0 <= i < |chain| ==> 2 <= chain[i] < g.nFatent)
    && (forall i, j :: 0 <= i < j < |chain| ==> chain[i] != chain[j])
  }

  lemma ChainClusters(g: Geometry, fat: seq<nat>, chain: seq<nat>)
    requires IsChain(fat, g.nFatent, chain)
    ensures Clusters(g, chain)
  {
    forall i, j | 0 <= i < j < |chain| ensures chain[i] != chain[j] {
      ChainAcyclic(fat, g.nFatent, chain, i, j);
    }
  }

  /** Number of sectors the chain holds. */
  function Capacity(g: Geometry, chain: seq<nat>): nat {
    Times(g.csize, |chain|)
  }

  /** The cluster that holds sector k of a file. */
  function ClusterOf(g: Geometry, chain: seq<nat>, k: nat): (c: nat)
    requires g.csize > 0 && k < Capacity(g, chain)
    ensures c in chain
  {
    QuotBound(k, g.csize, |chain|);
    chain[Quot(k, g.csize)]
  }

  /** The place on the disk of sector k of a file. */
  ghost function SectorOf(g: Geometry, chain: seq<nat>, k: nat): nat
    requires g.csize > 0 && Clusters(g, chain) && k < Capacity(g, chain)
  {
    Place(g, ClusterOf(g, chain, k), Rem(k, g.csize))
  }

  /** Every file sector lies in the data area. */
  lemma SectorInData(g: Geometry, volEnd: nat, chain: seq<nat>, k: nat)
    requires WellFormed(g, volEnd) && Clusters(g, chain) && k < Capacity(g, chain)
    ensures g.csize > 0
    ensures g.FatEnd() <= g.database <= SectorOf(g, chain, k) < volEnd
  {
    var c := ClusterOf(g, chain, k);
    ClusterInDataArea(g, volEnd, c);
  }

  /** Different clusters have different sectors. */
  lemma BasesApart(g: Geometry, a: nat, b: nat, i: nat, j: nat)
    requires a >= 2 && b >= 2 && a != b && i < g.csize && j < g.csize
    ensures Place(g, a, i) != Place(g, b, j)
  {
    if a < b {
      TimesStep(g.csize, a - 2, b - 2);
    } else {
      TimesStep(g.csize, b - 2, a - 2);
    }
  }

  /** Different sectors of one file have different places. */
  lemma SectorsApart(g: Geometry, chain: seq<nat>, k: nat, l: nat)
    requires g.csize > 0 && Clusters(g, chain) && k < Capacity(g, chain) && l < Capacity(g, chain) && k != l
    ensures SectorOf(g, chain, k) != SectorOf(g, chain, l)
  {
    var d := g.csize;
    QuotRem(k, d);
    QuotRem(l, d);
    QuotBound(k, d, |chain|);
    QuotBound(l, d, |chain|);
    if Quot(k, d) != Quot(l, d) {
      BasesApart(g, ClusterOf(g, chain, k), ClusterOf(g, chain, l), Rem(k, d), Rem(l, d));
    }
  }

  /** Within a cluster file sectors are neighbours on the disk. */
  lemma SectorRun(g: Geometry, chain: seq<nat>, k: nat, j: nat)
    requires g.csize > 0 && Clusters(g, chain) && k < Capacity(g, chain) && Rem(k, g.csize) + j < g.csize
    ensures k + j < Capacity(g, chain)
    ensures SectorOf(g, chain, k + j) == SectorOf(g, chain, k) + j
    ensures ClusterOf(g, chain, k + j) == ClusterOf(g, chain, k)
  {
    QuotRun(k, j, g.csize);
    QuotBound(k, g.csize, |chain|);
    QuotBound(k + j, g.csize, |chain|);
  }

  /** Byte i of a file. */
  ghost function ByteAt(g: Geometry, store: seq<Sector>, chain: seq<nat>, i: nat): byte
    requires WellFormed(g, |store|) && Clusters(g, chain) && i / 512 < Capacity(g, chain)
  {
    SectorInData(g, |store|, chain, i / 512);
    store[SectorOf(g, chain, i / 512)][i % 512]
  }

  /** The first size bytes of the chain's clusters, one behind the other. */
  ghost function Content(g: Geometry, store: seq<Sector>, chain: seq<nat>, size: nat): (r: seq<byte>)
    requires WellFormed(g, |store|) && Clusters(g, chain) && size <= 512 * Capacity(g, chain)
    ensures |r| == size
  {
    seq(size, i requires 0 <= i < size => ByteAt(g, store, chain, i))
  }

  /** Byte b of sector r of the q-th cluster of a file, and where it lies on the disk. */
  lemma ByteOnDisk(g: Geometry, store: seq<Sector>, chain: seq<nat>, size: nat, q: nat, r: nat, b: nat)
    requires WellFormed(g, |store|) && Clusters(g, chain) && size <= 512 * Capacity(g, chain)
    requires q < |chain| && r < g.csize && b < 512 && 512 * (Times(g.csize, q) + r) + b < size
    ensures chain[q] >= 2
    ensures var i, s := 512 * (Times(g.csize, q) + r) + b, g.database + Times(g.csize, chain[q] - 2) + r;
            s < |store| && Content(g, store, chain, size)[i] == store[s][b]
  {
    hide WellFormed, Times;
    var k := Times(g.csize, q) + r;
    DivModUnique(512 * k + b, 512, k, b);
    QuotRemUnique(k, g.csize, q, r);
    QuotBound(k, g.csize, |chain|);
    SectorInData(g, |store|, chain, k);
  }
}
