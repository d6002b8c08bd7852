/** What reading and writing sectors of a chain means for the bytes of a file, and for all other files. */
module FileBytes {
  import opened Bits
  import opened Geometry
  import opened Chains
  import opened Span

  /** Content c with d written at position p: replaced, and extended where d reaches past the end. */
  function Overwrite(c: seq<byte>, p: nat, d: seq<byte>): (r: seq<byte>)
    requires p <= |c|
    ensures |r| == Max(|c|, p + |d|)
    ensures forall i :: 0 <= i < |r| ==> r[i] == if p <= i < p + |d| then d[i - p] else c[i]
  {
    c[..p] + d + if p + |d| < |c| then c[p + |d|..] else []
  }

  lemma OverwriteTwice(c: seq<byte>, p: nat, d: seq<byte>, e: seq<byte>)
    requires p <= |c|
    ensures Overwrite(Overwrite(c, p, d), p + |d|, e) == Overwrite(c, p, d + e)
  {
  }

  lemma OverwriteNothing(c: seq<byte>, p: nat)
    requires p <= |c|
    ensures forall d: seq<byte> {:trigger Overwrite(c, p, d)} | d == [] :: Overwrite(c, p, d) == c
  {
  }

  /** A run of cc sectors within one cluster lies behind the FATs and on the disk. */
  lemma RunOnDisk(g: Geometry, volEnd: nat, chain: seq<nat>, k: nat, cc: nat)
    requires WellFormed(g, volEnd) && Clusters(g, chain) && k < Capacity(g, chain)
    requires 0 < cc && Rem(k, g.csize) + cc <= g.csize
    ensures g.FatEnd() <= SectorOf(g, chain, k) && SectorOf(g, chain, k) + cc <= volEnd
    ensures k + cc <= Capacity(g, chain)
  {
    SectorInData(g, volEnd, chain, k);
    SectorRun(g, chain, k, cc - 1);
    SectorInData(g, volEnd, chain, k + cc - 1);
  }

  /** cc sectors read within one cluster are the bytes of the file there. */
  lemma ReadRun(g: Geometry, store: seq<Sector>, chain: seq<nat>, size: nat, k: nat, cc: nat)
    requires WellFormed(g, |store|) && Clusters(g, chain) && size <= 512 * Capacity(g, chain)
    requires 0 < cc && 512 * (k + cc) <= size && Rem(k, g.csize) + cc <= g.csize
    ensures g.FatEnd() <= SectorOf(g, chain, k) && SectorOf(g, chain, k) + cc <= |store|
    ensures Flat(store[SectorOf(g, chain, k)..SectorOf(g, chain, k) + cc]) == Content(g, store, chain, size)[512 * k..512 * (k + cc)]
  {
    hide WellFormed, Clusters, Rem, SectorOf;
    RunOnDisk(g, |store|, chain, k, cc);
    var sect := SectorOf(g, chain, k);
    var a, b := Flat(store[sect..sect + cc]), Content(g, store, chain, size)[512 * k..512 * (k + cc)];
    forall i | 0 <= i < 512 * cc ensures a[i] == b[i] {
      ReadByte(g, store, chain, k, cc, i);
      assert b[i] == ByteAt(g, store, chain, 512 * k + i);
    }
  }

  lemma ReadByte(g: Geometry, store: seq<Sector>, chain: seq<nat>, k: nat, cc: nat, i: nat)
    requires WellFormed(g, |store|) && Clusters(g, chain) && k < Capacity(g, chain) && i < 512 * cc
    requires Rem(k, g.csize) + cc <= g.csize && SectorOf(g, chain, k) + cc <= |store|
    ensures var s := SectorOf(g, chain, k);
            (512 * k + i) / 512 < Capacity(g, chain) &&
            Flat(store[s..s + cc])[i] == ByteAt(g, store, chain, 512 * k + i)
  {
    hide WellFormed, Clusters, Rem;
    SectorRun(g, chain, k, i / 512);
    RunByte(k, i);
    var s := SectorOf(g, chain, k);
    assert store[s..s + cc][i / 512] == store[s + i / 512];
  }

  lemma RunByte(k: nat, i: nat)
    ensures (512 * k + i) / 512 == k + i / 512 && (512 * k + i) % 512 == i % 512
  {
  }

  /** Bytes taken from one sector. */
  lemma ReadPart(g: Geometry, store: seq<Sector>, chain: seq<nat>, size: nat, p: nat, m: nat)
    requires WellFormed(g, |store|) && Clusters(g, chain) && size <= 512 * Capacity(g, chain)
    requires 0 < m && p + m <= size && p % 512 + m <= 512
    ensures g.FatEnd() <= SectorOf(g, chain, p / 512) < |store|
    ensures store[SectorOf(g, chain, p / 512)][p % 512..p % 512 + m] == Content(g, store, chain, size)[p..p + m]
  {
    SectorInData(g, |store|, chain, p / 512);
    var a, b := store[SectorOf(g, chain, p / 512)][p % 512..p % 512 + m], Content(g, store, chain, size)[p..p + m];
    forall i | 0 <= i < m ensures a[i] == b[i] {
      assert (p + i) / 512 == p / 512 && (p + i) % 512 == p % 512 + i;
      assert b[i] == ByteAt(g, store, chain, p + i);
    }
  }

  /** Whole sectors written within one cluster. */
  lemma WriteRun(g: Geometry, store: seq<Sector>, chain: seq<nat>, size: nat, k: nat, data: seq<byte>)
    requires WellFormed(g, |store|) && Clusters(g, chain) && size <= 512 * Capacity(g, chain)
    requires 0 < |data| && |data| % 512 == 0 && 512 * k <= size
    requires k < Capacity(g, chain) && Rem(k, g.csize) + |data| / 512 <= g.csize
    ensures g.FatEnd() <= SectorOf(g, chain, k) && SectorOf(g, chain, k) + |data| / 512 <= |store|
    ensures var store', size' := Overlay(store, SectorOf(g, chain, k), data), Max(size, 512 * k + |data|);
            && size' <= 512 * Capacity(g, chain)
            && Content(g, store', chain, size') == Overwrite(Content(g, store, chain, size), 512 * k, data)
            && Owned(g, chain, store, store')
  {
    hide Overlay, ByteAt, SectorOf, Owned, WellFormed, Clusters;
    RunOnDisk(g, |store|, chain, k, |data| / 512);
    var store', size' := Overlay(store, SectorOf(g, chain, k), data), Max(size, 512 * k + |data|);
    var a, b := Content(g, store', chain, size'), Overwrite(Content(g, store, chain, size), 512 * k, data);
    forall i | 0 <= i < size' ensures a[i] == b[i] {
      WrittenByte(g, store, chain, k, data, i);
      assert a[i] == ByteAt(g, store', chain, i);
      assert i < size ==> Content(g, store, chain, size)[i] == ByteAt(g, store, chain, i);
    }
    RunOwned(g, store, chain, k, data);
  }

  lemma WrittenByte(g: Geometry, store: seq<Sector>, chain: seq<nat>, k: nat, data: seq<byte>, i: nat)
    requires WellFormed(g, |store|) && Clusters(g, chain)
    requires 0 < |data| && |data| % 512 == 0 && i / 512 < Capacity(g, chain)
    requires k < Capacity(g, chain) && Rem(k, g.csize) + |data| / 512 <= g.csize
    requires SectorOf(g, chain, k) + |data| / 512 <= |store|
    ensures ByteAt(g, Overlay(store, SectorOf(g, chain, k), data), chain, i) ==
            if 512 * k <= i < 512 * k + |data| then data[i - 512 * k] else ByteAt(g, store, chain, i)
  {
    hide WellFormed, Clusters, Rem, SectorOf, Slice;
    var cc, l, r := |data| / 512, i / 512, i % 512;
    assert i == 512 * l + r && |data| == 512 * cc;
    SectorInData(g, |store|, chain, l);
    if k <= l < k + cc {
      SectorRun(g, chain, k, l - k);
      SliceByte(data, l - k, r);
    } else {
      SectorOutsideRun(g, chain, k, cc, l);
    }
  }

  lemma SliceByte(data: seq<byte>, j: nat, i: nat)
    requires 512 * j + 512 <= |data| && i < 512
    ensures Slice(data, j)[i] == data[512 * j + i]
  {
  }

  lemma RunOwned(g: Geometry, store: seq<Sector>, chain: seq<nat>, k: nat, data: seq<byte>)
    requires g.csize > 0 && Clusters(g, chain) && |data| % 512 == 0
    requires k < Capacity(g, chain) && Rem(k, g.csize) + |data| / 512 <= g.csize
    requires SectorOf(g, chain, k) + |data| / 512 <= |store|
    ensures Owned(g, chain, store, Overlay(store, SectorOf(g, chain, k), data))
  {
    var sect := SectorOf(g, chain, k);
    var store' := Overlay(store, sect, data);
    forall s | 0 <= s < |store| && store'[s] != store[s] ensures OwnSector(g, chain, s) {
      assert s == Place(g, ClusterOf(g, chain, k), Rem(k, g.csize) + (s - sect));
    }
  }

  lemma SectorOutsideRun(g: Geometry, chain: seq<nat>, k: nat, cc: nat, l: nat)
    requires g.csize > 0 && Clusters(g, chain) && k < Capacity(g, chain) && l < Capacity(g, chain)
    requires 0 < cc && Rem(k, g.csize) + cc <= g.csize && !(k <= l < k + cc)
    ensures var sect := SectorOf(g, chain, k); !(sect <= SectorOf(g, chain, l) < sect + cc)
  {
    var sect, s := SectorOf(g, chain, k), SectorOf(g, chain, l);
    if sect <= s < sect + cc {
      SectorRun(g, chain, k, s - sect);
      SectorsApart(g, chain, k + (s - sect), l);
    }
  }

  /** Bytes put into one sector; on the growing edge what follows them in the sector is beyond the end of the file. */
  lemma WritePart(g: Geometry, store: seq<Sector>, store': seq<Sector>, chain: seq<nat>, size: nat, p: nat, data: seq<byte>)
    requires WellFormed(g, |store|) && Clusters(g, chain) && size <= 512 * Capacity(g, chain) && |store'| == |store|
    requires 0 < |data| && p <= size && p / 512 < Capacity(g, chain) && p % 512 + |data| <= 512
    requires SectorOf(g, chain, p / 512) < |store|
    requires var sect := SectorOf(g, chain, p / 512);
             && store' == store[sect := store'[sect]]
             && (forall i :: p % 512 <= i < p % 512 + |data| ==> store'[sect][i] == data[i - p % 512])
             && ((p % 512 == 0 && size <= p)
                 || forall i :: 0 <= i < 512 && !(p % 512 <= i < p % 512 + |data|) ==> store'[sect][i] == store[sect][i])
    ensures var size' := Max(size, p + |data|);
            && size' <= 512 * Capacity(g, chain)
            && Content(g, store', chain, size') == Overwrite(Content(g, store, chain, size), p, data)
            && Owned(g, chain, store, store')
  {
    var size', sect := Max(size, p + |data|), SectorOf(g, chain, p / 512);
    var a, b := Content(g, store', chain, size'), Overwrite(Content(g, store, chain, size), p, data);
    forall i | 0 <= i < size' ensures a[i] == b[i] {
      SectorInData(g, |store|, chain, i / 512);
      if i / 512 != p / 512 {
        SectorsApart(g, chain, i / 512, p / 512);
      }
      assert a[i] == ByteAt(g, store', chain, i);
      assert i < size ==> Content(g, store, chain, size)[i] == ByteAt(g, store, chain, i);
    }
    assert sect == Place(g, ClusterOf(g, chain, p / 512), Rem(p / 512, g.csize));
  }

  /** Sector s belongs to a cluster of own. */
  ghost predicate OwnSector(g: Geometry, own: seq<nat>, s: nat) {
    exists c, j {:trigger Place(g, c, j)} :: 2 <= c < g.nFatent && c in own && 0 <= j < g.csize && s == Place(g, c, j)
  }

  /** Only sectors of own differ. */
  ghost predicate Owned(g: Geometry, own: seq<nat>, store: seq<Sector>, store': seq<Sector>) {
    && |store'| == |store|
    && (forall s :: 0 <= s < |store| && store'[s] != store[s] ==> OwnSector(g, own, s))
  }

  /** One file changed: it had chain, and it touched only the clusters of own, those of chain and formerly free ones. */
  ghost predicate Frame(g: Geometry, chain: seq<nat>, fat: seq<nat>, store: seq<Sector>, own: seq<nat>, fat': seq<nat>, store': seq<Sector>) {
    && |fat| == |fat'| == g.nFatent
    && (forall c :: c in own ==> 2 <= c < g.nFatent && (c in chain || fat[c] == 0))
    && (forall c :: 0 <= c < g.nFatent && c !in own ==> fat'[c] == fat[c])
    && Owned(g, own, store, store')
  }

  lemma FrameWider(g: Geometry, own: seq<nat>, own': seq<nat>, store: seq<Sector>, store': seq<Sector>)
    requires own <= own' && Owned(g, own, store, store')
    ensures Owned(g, own', store, store')
  {
    forall s | 0 <= s < |store| && store'[s] != store[s] ensures OwnSector(g, own', s) {
      var c, j :| 2 <= c < g.nFatent && c in own && 0 <= j < g.csize && s == Place(g, c, j);
      assert c in own';
    }
  }

  /** Two steps in a row, the second one touching at least what the first did. */
  lemma FrameTrans(g: Geometry, chain: seq<nat>, fat: seq<nat>, store: seq<Sector>,
                   mid: seq<nat>, fatM: seq<nat>, storeM: seq<Sector>, own: seq<nat>, fat': seq<nat>, store': seq<Sector>)
    requires Frame(g, chain, fat, store, mid, fatM, storeM) && Frame(g, mid, fatM, storeM, own, fat', store') && mid <= own
    ensures Frame(g, chain, fat, store, own, fat', store')
  {
    FrameWider(g, mid, own, store, storeM);
    forall s | 0 <= s < |store| && store'[s] != store[s] ensures OwnSector(g, own, s) {
      assert storeM[s] != store[s] || store'[s] != storeM[s];
    }
  }

  /** Any other file keeps its chain and its bytes. */
  lemma FrameKeeps(g: Geometry, chain: seq<nat>, fat: seq<nat>, store: seq<Sector>, own: seq<nat>, fat': seq<nat>, store': seq<Sector>,
                   other: seq<nat>, size: nat)
    requires Frame(g, chain, fat, store, own, fat', store') && WellFormed(g, |store|)
    requires IsChain(fat, g.nFatent, other) && Disjoint(chain, other)
    requires Clusters(g, other) && size <= 512 * Capacity(g, other)
    ensures IsChain(fat', g.nFatent, other) && Disjoint(own, other)
    ensures Content(g, store', other, size) == Content(g, store, other, size)
  {
    forall c | c in own ensures c !in other {
      if c !in chain {
        FreeNotInChain(fat, g.nFatent, other, c);
      }
    }
    ChainFrame(fat, fat', g.nFatent, other);
    var a, b := Content(g, store', other, size), Content(g, store, other, size);
    forall i | 0 <= i < size ensures a[i] == b[i] {
      var k := i / 512;
      SectorInData(g, |store|, other, k);
      var s := SectorOf(g, other, k);
      if store'[s] != store[s] {
        var c, j :| 2 <= c < g.nFatent && c in own && 0 <= j < g.csize && s == Place(g, c, j);
        BasesApart(g, c, ClusterOf(g, other, k), j, Rem(k, g.csize));
      }
      assert a[i] == ByteAt(g, store', other, i) && b[i] == ByteAt(g, store, other, i);
    }
  }
}
