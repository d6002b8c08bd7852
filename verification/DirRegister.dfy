/** Storing the entries of a new object in a directory table. */
module DirRegister {
  import opened Bits
  import opened FatCodec
  import opened Geometry
  import opened Volume
  import opened Chains
  import opened Span
  import opened Lfn
  import opened DirScan
  import opened DirRead
  import opened DirFind
  import W = DirWalk

  /** The short entry dir_register writes: name and case flags, everything else cleared. */
  function ShortEntry(fn: seq<byte>, nt: byte): (e: DirEntry)
    requires |fn| == 11
  {
    fn + [0, nt] + seq(19, _ => 0)
  }

  /** Its bytes: name, no attribute, case flags, and no cluster, size or time. */
  lemma ShortEntryBytes(fn: seq<byte>, nt: byte)
    requires |fn| == 11
    ensures var e := ShortEntry(fn, nt);
            && e[..11] == fn && e[11] == 0 && e[12] == nt && forall i :: 13 <= i < 32 ==> e[i] == 0
  {
  }

  /** The clusters of the table form a chain; a static root directory has none. */
  ghost predicate SoundTable(g: Geometry, fat: seq<nat>, sclust: nat, chain: seq<nat>) {
    if W.TableStart(g, sclust) == 0 then chain == []
    else chain != [] && chain[0] == W.TableStart(g, sclust) && IsChain(fat, g.nFatent, chain)
  }

  lemma {:induction false} FollowChain(g: Geometry, fat: seq<nat>, chain: seq<nat>, q: nat)
    requires |fat| == g.nFatent && IsChain(fat, g.nFatent, chain) && chain != []
    ensures W.Follow(g, fat, chain[0], q) == if q < |chain| then W.Cluster(chain[q]) else W.Nowhere
  {
    if q > 0 {
      FollowChain(g, fat, chain, q - 1);
    }
  }

  /** Entry b of sector r of the q-th cluster of a table, and where it lies on the disk. */
  lemma EntryPlace(g: Geometry, volEnd: nat, fat: seq<nat>, sclust: nat, chain: seq<nat>, q: nat, r: nat, b: nat)
    requires WellFormed(g, volEnd) && |fat| == g.nFatent && sclust < TWO32 && g.dirbase < TWO32 && g.csize > 0
    requires IsChain(fat, g.nFatent, chain) && chain != []
    requires chain[0] == if sclust == 0 then g.dirbase else sclust
    requires sclust == 0 ==> g.fmt == Fat32
    requires r < g.csize && b < 16 && 32 * (16 * (Times(g.csize, q) + r) + b) < 0x20_0000
    ensures var ofs := 32 * (16 * (Times(g.csize, q) + r) + b);
            if q < |chain| then
              && chain[q] >= 2
              && W.Sdi(g, fat, sclust, ofs) == W.At(W.Place(ofs, chain[q], g.database + Times(g.csize, chain[q] - 2) + r))
            else W.Sdi(g, fat, sclust, ofs).Failed?
  {
    hide WellFormed, Times, IsChain;
    var k := Times(g.csize, q) + r;
    DivModUnique(32 * (16 * k + b), 512, k, 32 * b);
    DivModUnique(32 * (16 * k + b), 32, 16 * k + b, 0);
    QuotRemUnique(k, g.csize, q, r);
    FollowChain(g, fat, chain, q);
    ChainClusters(g, fat, chain);
    W.Sound(g, volEnd);
    if q < |chain| {
      ClusterInDataArea(g, volEnd, chain[q]);
    }
  }

  lemma EntryPlaceStatic(g: Geometry, fat: seq<nat>, k: nat)
    requires |fat| == g.nFatent && 2 <= g.nFatent < TWO32 && g.csize > 0 && 0 < g.dirbase < TWO32 && g.fmt != Fat32
    requires 32 * k < 0x20_0000
    ensures W.Sdi(g, fat, 0, 32 * k) ==
            if k < g.nRootdir then W.At(W.Place(32 * k, 0, g.dirbase + k / 16)) else W.Failed(IntErr)
  {
    assert 32 * k / 512 == k / 16;
  }

  /** On a sound table the sector of an entry is the one the chain gives for it. */
  lemma PlaceOf(g: Geometry, volEnd: nat, fat: seq<nat>, sclust: nat, chain: seq<nat>, k: nat)
    requires WellFormed(g, volEnd) && |fat| == g.nFatent && sclust < TWO32 && g.dirbase < TWO32 && g.csize > 0
    requires SoundTable(g, fat, sclust, chain) && W.Sdi(g, fat, sclust, 32 * k).At?
    ensures var p := W.Sdi(g, fat, sclust, 32 * k).place;
            p.dptr == 32 * k &&
            if chain == [] then p.sect == g.dirbase + k / 16
            else Clusters(g, chain) && k / 16 < Capacity(g, chain) && p.sect == SectorOf(g, chain, k / 16)
  {
    hide WellFormed, Times, IsChain, Rem;
    assert 32 * k / 512 == k / 16;
    if chain != [] {
      var q := Quot(k / 16, g.csize);
      FollowChain(g, fat, chain, q);
      ChainClusters(g, fat, chain);
      QuotBound(k / 16, g.csize, |chain|);
      W.Sound(g, volEnd);
      ClusterInDataArea(g, volEnd, chain[q]);
    }
  }

  /** Different entries of a sound table lie in different places. */
  lemma PlacesApart(g: Geometry, volEnd: nat, fat: seq<nat>, sclust: nat, chain: seq<nat>, h: nat, k: nat)
    requires WellFormed(g, volEnd) && |fat| == g.nFatent && sclust < TWO32 && g.dirbase < TWO32 && g.csize > 0
    requires SoundTable(g, fat, sclust, chain) && h != k
    requires W.Sdi(g, fat, sclust, 32 * h).At? && W.Sdi(g, fat, sclust, 32 * k).At?
    ensures var p, q := W.Sdi(g, fat, sclust, 32 * h).place, W.Sdi(g, fat, sclust, 32 * k).place;
            p.sect != q.sect || p.dptr % 512 + 32 <= q.dptr % 512 || q.dptr % 512 + 32 <= p.dptr % 512
  {
    hide WellFormed, W.Sdi, SectorOf, IsChain, SoundTable;
    PlaceOf(g, volEnd, fat, sclust, chain, h);
    PlaceOf(g, volEnd, fat, sclust, chain, k);
    if h / 16 != k / 16 && chain != [] {
      SectorsApart(g, chain, h / 16, k / 16);
    }
    SameSector(h, k);
  }

  lemma SameSector(h: nat, k: nat)
    ensures h / 16 == k / 16 && h != k ==> 32 * h % 512 + 32 <= 32 * k % 512 || 32 * k % 512 + 32 <= 32 * h % 512
    ensures 32 * h % 512 == 32 * (h % 16) <= 480
  {
    DivModUnique(32 * h, 512, h / 16, 32 * (h % 16));
    DivModUnique(32 * k, 512, k / 16, 32 * (k % 16));
  }

  /** The sectors after entry k was written. */
  ghost function WithEntry(store: seq<Sector>, p: W.Place, e: DirEntry): seq<Sector>
    requires p.sect < |store| && p.dptr % 512 <= 480
  {
    var s: Sector := Patch(store[p.sect], p.dptr % 512, e);
    store[p.sect := s]
  }

  /** Writing one entry changes that entry of the table and no other. */
  lemma EntryWritten(g: Geometry, fat: seq<nat>, store: seq<Sector>, sclust: nat, chain: seq<nat>,
                     es: seq<DirEntry>, k: nat, e: DirEntry)
    requires WellFormed(g, |store|) && SoundTable(g, fat, sclust, chain) && TableOn(g, fat, store, sclust, es) && k < |es|
    ensures TableOn(g, fat, WithEntry(store, W.Sdi(g, fat, sclust, 32 * k).place, e), sclust, es[k := e])
  {
    hide WellFormed, W.Sdi, SoundTable;
    var p := W.Sdi(g, fat, sclust, 32 * k).place;
    var store' := WithEntry(store, p, e);
    forall h | 0 <= h < |es|
      ensures es[k := e][h] == DirRead.EntryAt(store', W.Sdi(g, fat, sclust, 32 * h).place)
    {
      var q := W.Sdi(g, fat, sclust, 32 * h).place;
      if h != k {
        PlacesApart(g, |store|, fat, sclust, chain, h, k);
      }
      Patched(store, store', p, e, q);
    }
  }

  lemma Patched(store: seq<Sector>, store': seq<Sector>, p: W.Place, e: DirEntry, q: W.Place)
    requires p.sect < |store| && p.dptr % 512 <= 480 && q.sect < |store| && q.dptr % 512 <= 480
    requires store' == WithEntry(store, p, e)
    ensures q.sect == p.sect && q.dptr % 512 == p.dptr % 512 ==> DirRead.EntryAt(store', q) == e
    ensures q.sect != p.sect || q.dptr % 512 + 32 <= p.dptr % 512 || p.dptr % 512 + 32 <= q.dptr % 512 ==>
              DirRead.EntryAt(store', q) == DirRead.EntryAt(store, q)
  {
  }

  // ---------------------------------------------------------------- dir_register's stores

  /** The window, which shows the sector of entry k, has been given the bytes of e there. */
  method Commit(dp: W.Dir, ghost was: seq<byte>, ghost es: seq<DirEntry>, ghost k: nat, ghost e: DirEntry, ghost chain: seq<nat>)
    requires dp.fs.win.Length == |was| == 512 && WellFormed(dp.fs.geo, |dp.fs.disk|)
    requires dp.sclust < TWO32 && dp.fs.geo.dirbase < TWO32 && Decodes(dp.fs.geo, dp.fs.area, dp.fs.fat)
    requires AtEntry(dp, es, k) && SoundTable(dp.fs.geo, dp.fs.fat, dp.sclust, chain)
    requires dp.fs.winsect == dp.sect < |dp.fs.disk| && !dp.fs.geo.InFats(dp.sect) && |dp.fs.store| == |dp.fs.disk|
    requires Tells(dp.fs.geo, dp.fs.disk, dp.fs.winsect, was, dp.fs.area, dp.fs.store) && was == dp.fs.store[dp.sect]
    requires dp.dir + 32 <= 512 && dp.fs.win[..] == Patch(was, dp.dir, e)
    modifies dp.fs`wflag, dp.fs`store
    ensures dp.Ready() && AtEntry(dp, es[k := e], k)
  {
    hide TableOn, W.Sdi, SoundTable, Tells, Decodes, PowerOfTwo, Times;
    WindowTells(dp.fs.geo, dp.fs.disk, dp.fs.winsect, was, dp.fs.win[..], dp.fs.area, dp.fs.store);
    TableWritten(dp, es, k, e, chain);
    dp.fs.wflag := true;
    dp.fs.store := dp.fs.store[dp.sect := dp.fs.win[..]];
    StillThere(dp, es, k, e);
  }

  lemma TableWritten(dp: W.Dir, es: seq<DirEntry>, k: nat, e: DirEntry, chain: seq<nat>)
    requires WellFormed(dp.fs.geo, |dp.fs.store|) && AtEntry(dp, es, k) && SoundTable(dp.fs.geo, dp.fs.fat, dp.sclust, chain)
    ensures dp.sect < |dp.fs.store| && dp.dir + 32 <= 512
    ensures var s: Sector := Patch(dp.fs.store[dp.sect], dp.dir, e);
            TableOn(dp.fs.geo, dp.fs.fat, dp.fs.store[dp.sect := s], dp.sclust, es[k := e])
  {
    hide W.Sdi, SoundTable, WellFormed;
    EntryWritten(dp.fs.geo, dp.fs.fat, dp.fs.store, dp.sclust, chain, es, k, e);
  }

  lemma StillThere(dp: W.Dir, es: seq<DirEntry>, k: nat, e: DirEntry)
    requires k < |es| && TableIs(dp.fs, dp.sclust, es[k := e])
    requires dp.Stands(W.Sdi(dp.fs.geo, dp.fs.fat, dp.sclust, 32 * k).place)
    ensures AtEntry(dp, es[k := e], k)
    ensures |dp.fs.fat| == dp.fs.geo.nFatent && dp.fs.geo.csize > 0 && 2 <= dp.fs.geo.nFatent < TWO32
  {
  }

  /** Bring the sector of entry k into the window. */
  method Fetch(dp: W.Dir, ghost es: seq<DirEntry>, ghost k: nat)
    requires dp.Ready() && AtEntry(dp, es, k)
    modifies dp.fs`disk, dp.fs`wflag, dp.fs`winsect, dp.fs.win
    ensures dp.Ready() && AtEntry(dp, es, k) && |dp.fs.disk| == old(|dp.fs.disk|)
    ensures dp.fs.winsect == dp.sect < |dp.fs.disk| && !dp.fs.geo.InFats(dp.sect) && |dp.fs.store| == |dp.fs.disk|
    ensures dp.fs.win.Length == 512 && dp.fs.win[..] == dp.fs.store[dp.sect] && dp.dir + 32 <= 512
  {
    W.PlaceOnDisk(dp.fs.geo, |dp.fs.disk|, dp.fs.fat, dp.sclust, 32 * k);
    SameSector(k, k);
    dp.fs.MoveWindow(dp.sect);
  }

  /** One round of the storing loop: put_lfn into the window. */
  method StoreLong(dp: W.Dir, name: seq<nat>, ord: nat, sum: byte, ghost es: seq<DirEntry>, ghost k: nat, ghost chain: seq<nat>)
    requires dp.Ready() && AtEntry(dp, es, k) && SoundTable(dp.fs.geo, dp.fs.fat, dp.sclust, chain)
    requires IsName(name) && 1 <= ord <= 20 && (ord - 1) * 13 <= |name|
    modifies dp.fs`disk, dp.fs`wflag, dp.fs`winsect, dp.fs`store, dp.fs.win
    ensures dp.Ready() && AtEntry(dp, es[k := LongEntry(name, ord, sum)], k)
  {
    hide TableOn, W.Sdi, SoundTable, AtEntry, LongEntry;
    Fetch(dp, es, k);
    ghost var was := dp.fs.win[..];
    PutLfn(name, dp.fs.win, dp.dir, ord, sum);
    Commit(dp, was, es, k, LongEntry(name, ord, sum), chain);
  }

  /** The short entry, written into a cleaned entry of the window. */
  method StoreShort(dp: W.Dir, fn: seq<byte>, nt: byte, ghost es: seq<DirEntry>, ghost k: nat, ghost chain: seq<nat>)
    requires dp.Ready() && AtEntry(dp, es, k) && SoundTable(dp.fs.geo, dp.fs.fat, dp.sclust, chain) && |fn| == 11
    modifies dp.fs`disk, dp.fs`wflag, dp.fs`winsect, dp.fs`store, dp.fs.win
    ensures dp.Ready() && AtEntry(dp, es[k := ShortEntry(fn, nt)], k)
  {
    hide TableOn, W.Sdi, SoundTable, AtEntry;
    Fetch(dp, es, k);
    ghost var was := dp.fs.win[..];
    var win, dir := dp.fs.win, dp.dir;
    forall i | dir <= i < dir + 32 {
      win[i] := 0;
    }
    forall i | dir <= i < dir + 11 {
      win[i] := fn[i - dir];
    }
    win[dir + 12] := nt;
    assert win[..] == Patch(was, dir, ShortEntry(fn, nt));
    Commit(dp, was, es, k, ShortEntry(fn, nt), chain);
  }

  /** The table with the first i entries of an object stored from entry at on. */
  ghost function WithObject(es: seq<DirEntry>, at: nat, obj: seq<DirEntry>, i: nat): (r: seq<DirEntry>)
    requires i <= |obj| && at + |obj| <= |es|
    ensures |r| == |es|
  {
    es[..at] + obj[..i] + es[at + i..]
  }

  lemma OneMoreEntry(es: seq<DirEntry>, at: nat, obj: seq<DirEntry>, i: nat)
    requires i < |obj| && at + |obj| <= |es|
    ensures WithObject(es, at, obj, i)[at + i := obj[i]] == WithObject(es, at, obj, i + 1)
  {
  }

  /** The entries of a new object: with long entries for its name, or its short entry alone. */
  function Object(name: seq<nat>, fn: seq<byte>, nt: byte, lfn: bool): (r: seq<DirEntry>)
    requires |fn| == 11 && (lfn ==> IsName(name))
    ensures |r| == (if lfn then EntryCount(name) else 0) + 1 && r[|r| - 1] == ShortEntry(fn, nt)
  {
    if lfn then ObjectEntries(name, ShortEntry(fn, nt)) else [ShortEntry(fn, nt)]
  }

  /** The storing part of dir_register; the object stands at the last of the entries that dir_alloc has found: the long
      entries from the highest order down, then the short entry; the table is otherwise as it was. */
  method Store(dp: W.Dir, name: seq<nat>, fn: seq<byte>, nt: byte, lfn: bool, ghost es: seq<DirEntry>, ghost at: nat,
               ghost chain: seq<nat>) returns (res: FResult)
    requires dp.Ready() && SoundTable(dp.fs.geo, dp.fs.fat, dp.sclust, chain) && |fn| == 11 && (lfn ==> IsName(name))
    requires var obj := Object(name, fn, nt, lfn); at + |obj| <= |es| && AtEntry(dp, es, at + |obj| - 1)
    modifies dp, dp.fs`disk, dp.fs`wflag, dp.fs`winsect, dp.fs`store, dp.fs.win
    ensures res == Ok && dp.Ready() && SoundTable(dp.fs.geo, dp.fs.fat, dp.sclust, chain)
    ensures var obj := Object(name, fn, nt, lfn); AtEntry(dp, WithObject(es, at, obj, |obj|), at + |obj| - 1)
  {
    hide TableOn, TableIs, AtEntry, W.Dir.Ready, SoundTable, ShortEntry, LongEntry, WithObject, Object;
    ghost var obj := Object(name, fn, nt, lfn);
    NothingStored(es, at, obj);
    res := Ok;
    if lfn {
      WholeObject(name, fn, nt);
      res := StoreLongs(dp, name, fn, nt, es, at, chain);
    } else {
      ShortAlone(name, fn, nt);
    }
    StoreShort(dp, fn, nt, WithObject(es, at, obj, |obj| - 1), at + |obj| - 1, chain);
    OneMoreEntry(es, at, obj, |obj| - 1);
  }

  lemma WholeObject(name: seq<nat>, fn: seq<byte>, nt: byte)
    requires |fn| == 11 && IsName(name)
    ensures Object(name, fn, nt, true) == ObjectEntries(name, ShortEntry(fn, nt)) && EntryCount(name) >= 1
  {
    CountFits(name);
  }

  lemma ShortAlone(name: seq<nat>, fn: seq<byte>, nt: byte)
    requires |fn| == 11
    ensures Object(name, fn, nt, false) == [ShortEntry(fn, nt)]
  {
  }

  /** The loop over the long entries. */
  method StoreLongs(dp: W.Dir, name: seq<nat>, fn: seq<byte>, nt: byte, ghost es: seq<DirEntry>, ghost at: nat,
                    ghost chain: seq<nat>) returns (res: FResult)
    requires dp.Ready() && SoundTable(dp.fs.geo, dp.fs.fat, dp.sclust, chain) && |fn| == 11 && IsName(name)
    requires at + EntryCount(name) < |es| && AtEntry(dp, es, at + EntryCount(name))
    modifies dp, dp.fs`disk, dp.fs`wflag, dp.fs`winsect, dp.fs`store, dp.fs.win
    ensures res == Ok && dp.Ready() && SoundTable(dp.fs.geo, dp.fs.fat, dp.sclust, chain)
    ensures var obj := ObjectEntries(name, ShortEntry(fn, nt));
            AtEntry(dp, WithObject(es, at, obj, EntryCount(name)), at + EntryCount(name))
  {
    hide TableOn, TableIs, AtEntry, W.Dir.Ready, SoundTable, LongEntry, ObjectEntries, WithObject, SumSfn;
    CountFits(name);
    OnSector(dp, es, at + EntryCount(name));
    TableOf(dp, es, at + EntryCount(name));
    var nent := EntryCount(name);
    ghost var obj := ObjectEntries(name, ShortEntry(fn, nt));
    var sum := ComputeSum(ShortEntry(fn, nt));
    ObjectParts(name, ShortEntry(fn, nt));
    NothingStored(es, at, obj);
    res := SeekEntry(dp, dp.dptr - nent * 32, es, at);
    ghost var i := 0;
    while true
      invariant 0 < nent && i + nent == EntryCount(name) && res == Ok
      invariant dp.Ready() && AtEntry(dp, WithObject(es, at, obj, i), at + i) && SoundTable(dp.fs.geo, dp.fs.fat, dp.sclust, chain)
      decreases nent
    {
      StoreLong(dp, name, nent, sum, WithObject(es, at, obj, i), at + i, chain);
      OneMoreEntry(es, at, obj, i);
      res := NextEntry(dp, WithObject(es, at, obj, i + 1), at + i);
      i := i + 1;
      nent := nent - 1;
      if nent == 0 {
        break;
      }
    }
  }

  // ---------------------------------------------------------------- finding room

  predicate Free(e: DirEntry) {
    e[0] == 0xE5 || e[0] == 0
  }

  /** The nent entries from at on are free. */
  ghost predicate RoomAt(es: seq<DirEntry>, at: nat, nent: nat) {
    at + nent <= |es| && forall i :: at <= i < at + nent ==> es[i][0] == 0xE5 || es[i][0] == 0
  }

  ghost predicate HasRoom(es: seq<DirEntry>, nent: nat) {
    exists a :: RoomAt(es, a, nent)
  }

  /** They are the first ones. */
  ghost predicate FirstRoom(es: seq<DirEntry>, at: nat, nent: nat) {
    RoomAt(es, at, nent) && forall a :: 0 <= a < at ==> !RoomAt(es, a, nent)
  }

  /** dir_alloc on a table that is not stretched: the object stands at the last of the first nent free entries in a row. */
  method DirAlloc(dp: W.Dir, nent: nat, ghost es: seq<DirEntry>) returns (res: FResult, ghost at: nat)
    requires dp.Ready() && TableIs(dp.fs, dp.sclust, es) && nent > 0
    modifies dp, dp.fs`disk, dp.fs`wflag, dp.fs`winsect, dp.fs.win
    ensures dp.Ready() && TableIs(dp.fs, dp.sclust, es)
    ensures if HasRoom(es, nent) then res == Ok && FirstRoom(es, at, nent) && AtEntry(dp, es, at + nent - 1)
            else res != Ok
  {
    hide TableOn, TableIs, AtEntry, W.Dir.Ready;
    res := Rewind(dp, es);
    var n := 0;
    ghost var i: nat := 0;
    at := 0;
    while res == Ok
      invariant dp.Ready() && TableIs(dp.fs, dp.sclust, es) && i <= |es|
      invariant if res == Ok then AtEntry(dp, es, i) else i == |es|
      invariant n < nent && n <= i && (forall h :: i - n <= h < i ==> Free(es[h])) && (n < i ==> !Free(es[i - n - 1]))
      invariant forall a :: 0 <= a < i - n ==> !RoomAt(es, a, nent)
      decreases |es| - i, if res == Ok then 1 else 0
    {
      Inside(dp, es, i);
      var e := FetchEntry(dp, es, i);
      if Free(e) {
        n := n + 1;
        if n == nent {
          at := i + 1 - n;
          assert RoomAt(es, at, nent);
          return;
        }
      } else {
        NoRoomAcross(es, i, n, nent);
        n := 0;
      }
      res := NextEntry(dp, es, i);
      i := i + 1;
    }
    if res == NoFile {
      res := Denied;
    }
    assert forall a :: i - n <= a ==> !RoomAt(es, a, nent);
  }

  /** No room reaches over an entry in use. */
  lemma NoRoomAcross(es: seq<DirEntry>, i: nat, n: nat, nent: nat)
    requires i < |es| && !Free(es[i]) && n < nent && n <= i
    ensures forall a :: i - n <= a <= i ==> !RoomAt(es, a, nent)
  {
  }

  /** dir_register where the table has room, and the short name has been found: the object lies in the first free entries
      that hold it, and the table is otherwise as it was. */
  method Register(dp: W.Dir, name: seq<nat>, fn: seq<byte>, nt: byte, lfn: bool, ghost es: seq<DirEntry>, ghost chain: seq<nat>)
    returns (res: FResult, ghost at: nat)
    requires dp.Ready() && TableIs(dp.fs, dp.sclust, es) && SoundTable(dp.fs.geo, dp.fs.fat, dp.sclust, chain)
    requires |fn| == 11 && (lfn ==> IsName(name))
    modifies dp, dp.fs`disk, dp.fs`wflag, dp.fs`winsect, dp.fs`store, dp.fs.win
    ensures dp.Ready()
    ensures var obj := Object(name, fn, nt, lfn);
            if HasRoom(es, |obj|) then
              && res == Ok && FirstRoom(es, at, |obj|)
              && AtEntry(dp, WithObject(es, at, obj, |obj|), at + |obj| - 1)
            else res != Ok && TableIs(dp.fs, dp.sclust, es)
  {
    hide TableOn, TableIs, AtEntry, W.Dir.Ready, SoundTable, ObjectEntries, WithObject, Free;
    var nent := if lfn then (|name| + 12) / 13 + 1 else 1;
    assert nent == |Object(name, fn, nt, lfn)|;
    res, at := DirAlloc(dp, nent, es);
    if res == Ok {
      res := Store(dp, name, fn, nt, lfn, es, at, chain);
    }
  }

  lemma ObjectParts(name: seq<nat>, sfn: DirEntry)
    requires IsName(name)
    ensures var obj := ObjectEntries(name, sfn); var n := EntryCount(name);
            |obj| == n + 1 && obj[n] == sfn && 1 <= n <= 20 && (n - 1) * 13 <= |name| &&
            forall i :: 0 <= i < n ==> obj[i] == LongEntry(name, n - i, SumSfn(sfn))
  {
    CountFits(name);
  }

  lemma NothingStored(es: seq<DirEntry>, at: nat, obj: seq<DirEntry>)
    requires at + |obj| <= |es|
    ensures WithObject(es, at, obj, 0) == es
  {
  }

  /** dir_sdi to an entry of the table. */
  method SeekEntry(dp: W.Dir, ofs: nat, ghost es: seq<DirEntry>, ghost k: nat) returns (res: FResult)
    requires dp.Ready() && TableIs(dp.fs, dp.sclust, es) && k < |es| && ofs == 32 * k
    modifies dp, dp.fs`disk, dp.fs`wflag, dp.fs`winsect, dp.fs.win
    ensures res == Ok && dp.Ready() && AtEntry(dp, es, k)
  {
    assert es[k] == DirRead.EntryAt(dp.fs.store, W.Sdi(dp.fs.geo, dp.fs.fat, dp.sclust, 32 * k).place);
    res := dp.DirSdi(ofs);
  }

  // ---------------------------------------------------------------- what is registered can be looked up

  /** Behind the first end mark all entries are free, as FatFs itself leaves a table. */
  ghost predicate WellEnded(es: seq<DirEntry>) {
    forall h, i :: 0 <= h < i < |es| && KindOf(es[h]) == End ==> Free(es[i])
  }

  /** No end mark lies before entry k. */
  ghost predicate Reached(es: seq<DirEntry>, k: nat) {
    k <= |es| && forall h :: 0 <= h < k ==> KindOf(es[h]) != End
  }

  /** On such a table room is never found behind an end mark. */
  lemma RoomReached(es: seq<DirEntry>, at: nat, nent: nat)
    requires WellEnded(es) && FirstRoom(es, at, nent)
    ensures Reached(es, at)
  {
    forall h | 0 <= h < at
      ensures KindOf(es[h]) != End
    {
      if KindOf(es[h]) == End {
        assert Free(es[h]);
        assert RoomAt(es, h, nent);
      }
    }
  }

  /** And registration leaves the table so. */
  lemma StaysWellEnded(es: seq<DirEntry>, at: nat, obj: seq<DirEntry>)
    requires WellEnded(es) && FirstRoom(es, at, |obj|) && forall i :: 0 <= i < |obj| ==> KindOf(obj[i]) != End
    ensures WellEnded(WithObject(es, at, obj, |obj|))
  {
    hide WithObject, Free, KindOf;
    RoomReached(es, at, |obj|);
    FirstBehind(es, at, obj);
  }

  /** dir_find on es finds an object. */
  ghost predicate Finds(es: seq<DirEntry>, t: Target)
    requires |t.buf| == MAX_LFN + 1
  {
    FindEnd(es, t, 0) < |es| && Hit(es, t, FindEnd(es, t, 0))
  }

  /** After dir_register, dir_find by the name, in any case. Where no end mark lies before the new object it is found, or an
      equal one before it, if the name has at most 254 units or the short name is equal; a well-ended table has no such
      mark. Behind an end mark the object is lost: the lookup gives what it gave before. */
  method RegisterThenFind(dp: W.Dir, name: seq<nat>, fn: seq<byte>, nt: byte, t: Target,
                          ghost es: seq<DirEntry>, ghost chain: seq<nat>)
    returns (res: FResult, stored: FResult, ghost at: nat, ghost j: nat)
    requires dp.Ready() && TableIs(dp.fs, dp.sclust, es) && SoundTable(dp.fs.geo, dp.fs.fat, dp.sclust, chain)
    requires IsName(name) && |fn| == 11 && fn[0] != 0 && fn[0] != 0xE5
    requires TargetOk(t) && Buffers(t.buf, name, t.up) && !t.noLfn
    modifies dp, dp.fs`disk, dp.fs`wflag, dp.fs`winsect, dp.fs`store, dp.fs.win
    ensures dp.Ready() && (stored == Ok <==> HasRoom(es, EntryCount(name) + 1))
    ensures stored == Ok ==>
              FirstRoom(es, at, EntryCount(name) + 1) &&
              var obj := Object(name, fn, nt, true); var now := WithObject(es, at, obj, |obj|);
              && (WellEnded(es) ==> Reached(es, at))
              && (res == Ok <==> Finds(now, t)) && (res == Ok ==> AtEntry(dp, now, j) && Hit(now, t, j))
              && (if Reached(es, at) then
                    if |name| <= 254 || (!t.loss && fn == t.fn) then res == Ok && j <= at + EntryCount(name)
                    else res == Ok ==> j != at + EntryCount(name)
                  else (res == Ok <==> Finds(es, t)) && j == FindEnd(es, t, 0) < at)
  {
    hide TableOn, AtEntry, W.Dir.Ready, SoundTable, WithObject, FindEnd, Hit, LongEntry, Free, Object, ObjectEntries;
    ghost var obj := Object(name, fn, nt, true);
    WholeObject(name, fn, nt);
    res, at := Register(dp, name, fn, nt, true, es, chain);
    stored, j := res, 0;
    if stored == Ok {
      ghost var now := WithObject(es, at, obj, |obj|);
      TableOf(dp, now, at + EntryCount(name));
      j := FindEnd(now, t, 0);
      FirstBehind(es, at, obj);
      if WellEnded(es) {
        RoomReached(es, at, |obj|);
      }
      FoundBy(es, at, name, ShortEntry(fn, nt), t);
      res := FindObject(dp, t, now);
    }
  }

  lemma FirstBehind(es: seq<DirEntry>, at: nat, obj: seq<DirEntry>)
    requires at + |obj| <= |es|
    ensures var now := WithObject(es, at, obj, |obj|);
            && now[at..at + |obj|] == obj && |now| == |es| && now[..at] == es[..at]
            && (forall i :: 0 <= i < |es| ==> now[i] == if at <= i < at + |obj| then obj[i - at] else es[i])
  {
  }

  lemma TableOf(dp: W.Dir, es: seq<DirEntry>, k: nat)
    requires AtEntry(dp, es, k)
    ensures TableIs(dp.fs, dp.sclust, es)
  {
  }

  /** Where the search ends after registration. */
  lemma FoundBy(es: seq<DirEntry>, at: nat, name: seq<nat>, sfn: DirEntry, t: Target)
    requires TargetOk(t) && IsName(name) && Buffers(t.buf, name, t.up) && !t.noLfn
    requires at + EntryCount(name) < |es| && KindOf(sfn) == Short
    ensures var obj := ObjectEntries(name, sfn); var now := WithObject(es, at, obj, |obj|);
            var j, last := FindEnd(now, t, 0), at + EntryCount(name);
            if Reached(es, at) then
              if |name| <= 254 || (!t.loss && sfn[..11] == t.fn) then j <= last && Hit(now, t, j)
              else j < |now| && Hit(now, t, j) ==> j != last
            else j == FindEnd(es, t, 0) < at && (Hit(now, t, j) <==> Hit(es, t, j))
  {
    hide FindEnd, Hit, LongEntry, ObjectEntries, WithObject;
    var obj, last := ObjectEntries(name, sfn), at + EntryCount(name);
    var now := WithObject(es, at, obj, |obj|);
    FirstBehind(es, at, obj);
    if Reached(es, at) {
      RegisteredIsFound(now, t, name, sfn, at);
      StoredObject(now, name, sfn, at);
      forall h | 0 <= h <= last
        ensures KindOf(now[h]) != End
      {
        if at <= h < last {
          LongIsLong(now[h]);
        }
      }
      FindsFirst(now, t, 0);
    } else {
      var h :| 0 <= h < at && KindOf(es[h]) == End;
      SamePrefix(es, now, t, 0, h, at);
    }
  }

  /** Two tables that agree up to an end mark and beyond give the same search. */
  lemma {:induction false} SamePrefix(a: seq<DirEntry>, b: seq<DirEntry>, t: Target, i: nat, h: nat, m: nat)
    requires |t.buf| == MAX_LFN + 1 && i <= h < m <= |a| && m <= |b| && a[..m] == b[..m] && KindOf(a[h]) == End
    ensures FindEnd(a, t, i) == FindEnd(b, t, i) <= h
    ensures Hit(a, t, FindEnd(a, t, i)) <==> Hit(b, t, FindEnd(b, t, i))
    decreases h - i
  {
    hide Hit, FindState, Accepts;
    SameState(a, b, t, i, m);
    AcceptsIffHit(a, t, i);
    AcceptsIffHit(b, t, i);
    assert a[i] == a[..m][i] == b[..m][i] == b[i];
    if KindOf(a[i]) != End && !Accepts(FindState(a, t, i), a[i], t) {
      SamePrefix(a, b, t, i + 1, h, m);
    }
  }

  lemma {:induction false} SameState(a: seq<DirEntry>, b: seq<DirEntry>, t: Target, i: nat, m: nat)
    requires |t.buf| == MAX_LFN + 1 && i <= m <= |a| && m <= |b| && a[..m] == b[..m]
    ensures FindState(a, t, i) == FindState(b, t, i)
  {
    hide Compare;
    if i > 0 {
      SameState(a, b, t, i - 1, m);
      assert a[i - 1] == a[..m][i - 1] == b[..m][i - 1] == b[i - 1];
    }
  }

  /** After dir_register, a dir_read that comes to the new object from entry lo on, over blank or long entries, reports it
      with exactly its name, if that has at most 253 units, and with no long name otherwise. */
  method RegisterThenRead(dp: W.Dir, name: seq<nat>, fn: seq<byte>, nt: byte, lfnbuf: array<nat>, lo: nat,
                          ghost es: seq<DirEntry>, ghost chain: seq<nat>) returns (res: FResult, stored: FResult, ghost at: nat)
    requires dp.Ready() && TableIs(dp.fs, dp.sclust, es) && SoundTable(dp.fs.geo, dp.fs.fat, dp.sclust, chain)
    requires IsName(name) && |fn| == 11 && lo < |es|
    requires lfnbuf.Length == MAX_LFN + 1 && fn[0] != 0 && fn[0] != 0xE5 && fn[0] != 0x2E
    modifies dp, dp.fs`disk, dp.fs`wflag, dp.fs`winsect, dp.fs`store, dp.fs.win, lfnbuf
    ensures dp.Ready() && (stored == Ok <==> HasRoom(es, EntryCount(name) + 1))
    ensures stored == Ok ==> FirstRoom(es, at, EntryCount(name) + 1)
    ensures stored == Ok && lo <= at && (forall i :: lo <= i < at ==> Classify(es[i], false) in {Blank, Long}) ==>
              var obj := Object(name, fn, nt, true); var now := WithObject(es, at, obj, |obj|);
              res == Ok && AtEntry(dp, now, at + EntryCount(name)) &&
              if |name| <= 253 then dp.blkOfs == 32 * at && Spells(lfnbuf[..], name) else dp.blkOfs == NO_LFN
  {
    hide TableOn, AtEntry, W.Dir.Ready, SoundTable, WithObject, LongEntry, PickAll, Spells, Stop, StateAt, Reported, Free,
      Object, ObjectEntries;
    ghost var sfn := ShortEntry(fn, nt);
    ghost var obj := Object(name, fn, nt, true);
    WholeObject(name, fn, nt);
    res, at := Register(dp, name, fn, nt, true, es, chain);
    stored := res;
    if stored == Ok {
      ghost var now := WithObject(es, at, obj, |obj|);
      TableOf(dp, now, at + EntryCount(name));
      FirstBehind(es, at, obj);
      OnSector(dp, now, at + EntryCount(name));
      res := SeekEntry(dp, 32 * lo, now, lo);
      OnSector(dp, now, lo);
      ghost var blk, buf0 := dp.blkOfs, lfnbuf[..];
      ghost var clear := lo <= at && forall i :: lo <= i < at ==> Classify(es[i], false) in {Blank, Long};
      if clear {
        NameRoundTrip(now, name, sfn, lo, at, blk, buf0);
      }
      res, buf0 := DirReadEntry(dp, false, lfnbuf, now, lo);
      if clear && dp.blkOfs != NO_LFN {
        NameRoundTrip(now, name, sfn, lo, at, blk, buf0);
      }
    }
  }

  lemma OnSector(dp: W.Dir, es: seq<DirEntry>, k: nat)
    requires dp.Ready() && AtEntry(dp, es, k)
    ensures dp.sect != 0 && dp.dptr == 32 * k && |es| <= 0x1_0000
  {
    W.PlaceOnDisk(dp.fs.geo, |dp.fs.disk|, dp.fs.fat, dp.sclust, 32 * k);
  }
}
