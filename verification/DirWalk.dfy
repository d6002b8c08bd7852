/** Moving in a directory table: by offset (dir_sdi) and entry by entry (dir_next). */
module DirWalk {
  import opened Bits
  import opened FatCodec
  import opened Geometry
  import opened Volume
  import opened Span

  const MAX_DIR: nat := 0x20_0000
  const SZDIRE: nat := 32

  /** A place in a directory table: offset, cluster (0 in a static root directory) and sector. */
  datatype Place = Place(dptr: nat, clust: nat, sect: nat)

  datatype Moved = At(place: Place) | Failed(res: FResult)

  /** get_fat on the decoded table. */
  function Link(g: Geometry, fat: seq<nat>, c: nat): nat
    requires |fat| == g.nFatent
  {
    if 2 <= c < g.nFatent then fat[c] else 1
  }

  datatype Reached = Cluster(c: nat) | Nowhere

  /** q links from a cluster on, if the chain goes that far. */
  function Follow(g: Geometry, fat: seq<nat>, clst: nat, q: nat): Reached
    requires |fat| == g.nFatent
  {
    if q == 0 then Cluster(clst)
    else
      match Follow(g, fat, clst, q - 1)
      case Nowhere => Nowhere
      case Cluster(c) => if 2 <= Link(g, fat, c) < g.nFatent then Cluster(Link(g, fat, c)) else Nowhere
  }

  /** The table's start cluster: 0 stands for the root, which has a chain of its own on FAT32. */
  function TableStart(g: Geometry, sclust: nat): nat {
    if sclust == 0 && g.fmt == Fat32 then g.dirbase else sclust
  }

  /** dir_sdi. */
  function Sdi(g: Geometry, fat: seq<nat>, sclust: nat, ofs: nat): Moved
    requires |fat| == g.nFatent && g.csize > 0 && 2 <= g.nFatent
    requires sclust < TWO32 && g.dirbase < TWO32 && g.nFatent < TWO32
  {
    var start := TableStart(g, sclust);
    if ofs >= MAX_DIR || ofs % SZDIRE != 0 then Failed(IntErr)
    else if start == 0 then
      if ofs / SZDIRE >= g.nRootdir || g.dirbase == 0 then Failed(IntErr)
      else At(Place(ofs, 0, g.dirbase + ofs / 512))
    else
      match Follow(g, fat, start, Quot(ofs / 512, g.csize))
      case Nowhere => Failed(IntErr)
      case Cluster(c) =>
        FollowRange(g, fat, start, Quot(ofs / 512, g.csize));
        if Clst2Sect(g, c) == 0 then Failed(IntErr)
        else At(Place(ofs, c, Clst2Sect(g, c) + Rem(ofs / 512, g.csize)))
  }

  lemma {:induction false} FollowRange(g: Geometry, fat: seq<nat>, clst: nat, q: nat)
    requires |fat| == g.nFatent
    ensures var r := Follow(g, fat, clst, q);
            r.Cluster? ==> (q == 0 && r.c == clst) || 2 <= r.c < g.nFatent
  {
  }

  /** Where the first entry lies: a static root directory begins at sector dirbase, the root of a FAT32 volume at the first
      sector of cluster dirbase, and any other table at that of its own cluster. */
  lemma FirstEntry(g: Geometry, volEnd: nat, fat: seq<nat>, sclust: nat)
    requires WellFormed(g, volEnd) && |fat| == g.nFatent && g.csize > 0 && g.dirbase < TWO32 && sclust < g.nFatent
    ensures sclust == 0 && g.fmt != Fat32 ==> Sdi(g, fat, sclust, 0) == At(Place(0, 0, g.dirbase))
    ensures sclust == 0 && g.fmt == Fat32 ==>
              Sdi(g, fat, sclust, 0) == if 2 <= g.dirbase < g.nFatent then
                                          At(Place(0, g.dirbase, g.database + Times(g.csize, g.dirbase - 2)))
                                        else Failed(IntErr)
    ensures sclust >= 2 ==> Sdi(g, fat, sclust, 0) == At(Place(0, sclust, g.database + Times(g.csize, sclust - 2)))
  {
    hide Times;
    Sound(g, volEnd);
    ClusterInDataArea(g, volEnd, g.dirbase);
    ClusterInDataArea(g, volEnd, sclust);
  }

  /** dir_next without stretching. */
  function Next(g: Geometry, fat: seq<nat>, p: Place): Moved
    requires |fat| == g.nFatent && g.csize > 0 && 2 <= g.nFatent < TWO32
  {
    var ofs := p.dptr + SZDIRE;
    if p.sect == 0 || ofs >= MAX_DIR then Failed(NoFile)
    else if ofs % 512 != 0 then At(p.(dptr := ofs))
    else if p.clust == 0 then
      if ofs / SZDIRE >= g.nRootdir then Failed(NoFile) else At(Place(ofs, 0, p.sect + 1))
    else if Rem(ofs / 512, g.csize) != 0 then At(Place(ofs, p.clust, p.sect + 1))
    else
      var clst := Link(g, fat, p.clust);
      if clst <= 1 then Failed(IntErr)
      else if clst >= g.nFatent then Failed(NoFile)
      else At(Place(ofs, clst, Clst2Sect(g, clst)))
  }

  /** One step agrees: from the place of one entry, dir_next reaches the place of the next, or both report the end. */
  lemma StepAgrees(g: Geometry, volEnd: nat, fat: seq<nat>, sclust: nat, ofs: nat)
    requires WellFormed(g, volEnd) && |fat| == g.nFatent && sclust < TWO32 && g.dirbase < TWO32
    requires g.csize > 0 && Sdi(g, fat, sclust, ofs).At?
    ensures var here, there := Sdi(g, fat, sclust, ofs).place, Sdi(g, fat, sclust, ofs + SZDIRE);
            if there.At? then Next(g, fat, here) == there else Next(g, fat, here).Failed?
  {
    hide WellFormed, Times, Clst2Sect, Quot, Rem;
    var k, next := ofs / 512, ofs + SZDIRE;
    Sound(g, volEnd);
    if next < MAX_DIR && TableStart(g, sclust) == 0 {
      StaticStep(ofs, g.nRootdir);
    } else if next < MAX_DIR {
      EntryStep(ofs);
      FollowRange(g, fat, TableStart(g, sclust), Quot(k, g.csize));
      FollowRange(g, fat, TableStart(g, sclust), Quot(next / 512, g.csize));
      Starts(g, volEnd, Sdi(g, fat, sclust, ofs).place.clust);
      Starts(g, volEnd, Link(g, fat, Sdi(g, fat, sclust, ofs).place.clust));
      if next % 512 == 0 {
        if Rem(k + 1, g.csize) == 0 {
          QuotNext(k, g.csize);
        } else {
          RemStep(k, g.csize);
        }
      }
    }
  }

  lemma Sound(g: Geometry, volEnd: nat)
    requires WellFormed(g, volEnd)
    ensures g.csize > 0 && g.nRootdir % 16 == 0 && 3 <= g.nFatent < TWO32
  {
  }

  lemma Starts(g: Geometry, volEnd: nat, c: nat)
    requires WellFormed(g, volEnd)
    ensures c < TWO32 && g.nFatent >= 2 ==> (Clst2Sect(g, c) != 0 <==> 2 <= c < g.nFatent)
  {
    if c < TWO32 {
      ClusterInDataArea(g, volEnd, c);
    }
  }

  lemma EntryStep(ofs: nat)
    requires ofs % SZDIRE == 0
    ensures (ofs + SZDIRE) / 512 == if (ofs + SZDIRE) % 512 == 0 then ofs / 512 + 1 else ofs / 512
  {
    assert ofs % 512 + 32 <= 512;
  }

  lemma StaticStep(ofs: nat, n: nat)
    requires ofs % SZDIRE == 0 && n % 16 == 0 && ofs / SZDIRE < n
    ensures (ofs + SZDIRE) / 512 == if (ofs + SZDIRE) % 512 == 0 then ofs / 512 + 1 else ofs / 512
    ensures (ofs + SZDIRE) % 512 != 0 ==> (ofs + SZDIRE) / SZDIRE < n
  {
    EntryStep(ofs);
    var e := ofs / 32;
    assert ofs == 32 * e && (ofs + 32) / 32 == e + 1;
    if (e + 1) % 16 == 0 {
      assert (32 * (e + 1)) % 512 == 0;
    }
  }

  lemma RemStep(k: nat, d: nat)
    requires d > 0 && Rem(k + 1, d) != 0
    ensures Rem(k + 1, d) == Rem(k, d) + 1 && Quot(k + 1, d) == Quot(k, d)
  {
    QuotRem(k, d);
    if Rem(k, d) + 1 == d {
      QuotRemUnique(k + 1, d, Quot(k, d) + 1, 0);
    } else {
      QuotRun(k, 1, d);
    }
  }

  /** Every place in a table lies on the disk, behind the FATs. */
  lemma PlaceOnDisk(g: Geometry, volEnd: nat, fat: seq<nat>, sclust: nat, ofs: nat)
    requires WellFormed(g, volEnd) && |fat| == g.nFatent && sclust < TWO32 && g.dirbase < TWO32
    requires g.csize > 0 && Sdi(g, fat, sclust, ofs).At?
    ensures var p := Sdi(g, fat, sclust, ofs).place;
            p.dptr == ofs && ofs < MAX_DIR && ofs % SZDIRE == 0 && 0 < p.sect && g.FatEnd() <= p.sect < volEnd
  {
    var start := TableStart(g, sclust);
    if start == 0 {
      assert ofs / 512 < g.nRootdir / 16;
      assert Times(g.csize, g.nFatent - 2) >= 0;
      RootRoom(g, volEnd);
    } else {
      FollowRange(g, fat, start, Quot(ofs / 512, g.csize));
      ClusterInDataArea(g, volEnd, Sdi(g, fat, sclust, ofs).place.clust);
    }
  }

  lemma RootRoom(g: Geometry, volEnd: nat)
    requires WellFormed(g, volEnd)
    ensures g.database < volEnd
  {
    TimesStep(g.csize, 0, g.nFatent - 2);
  }

  /** k steps of dir_next from the first entry. */
  function Walk(g: Geometry, fat: seq<nat>, sclust: nat, k: nat): Moved
    requires |fat| == g.nFatent && g.csize > 0 && 2 <= g.nFatent < TWO32
    requires sclust < TWO32 && g.dirbase < TWO32
  {
    if k == 0 then Sdi(g, fat, sclust, 0)
    else
      match Walk(g, fat, sclust, k - 1)
      case Failed(r) => Failed(r)
      case At(p) => Next(g, fat, p)
  }

  /** Once dir_sdi is past the end of a table it stays there. */
  lemma EndStays(g: Geometry, volEnd: nat, fat: seq<nat>, sclust: nat, ofs: nat)
    requires WellFormed(g, volEnd) && |fat| == g.nFatent && sclust < TWO32 && g.dirbase < TWO32 && g.csize > 0
    requires ofs % SZDIRE == 0 && Sdi(g, fat, sclust, ofs).Failed?
    ensures Sdi(g, fat, sclust, ofs + SZDIRE).Failed?
  {
    hide WellFormed, Times, Clst2Sect;
    Sound(g, volEnd);
    EntryStep(ofs);
    var k, next, start := ofs / 512, ofs + SZDIRE, TableStart(g, sclust);
    if next < MAX_DIR && start != 0 {
      FollowRange(g, fat, start, Quot(k, g.csize));
      FollowRange(g, fat, start, Quot(next / 512, g.csize));
      Starts(g, volEnd, start);
      if Follow(g, fat, start, Quot(k, g.csize)).Cluster? {
        Starts(g, volEnd, Follow(g, fat, start, Quot(k, g.csize)).c);
      }
      if next % 512 == 0 {
        if Rem(k + 1, g.csize) == 0 {
          QuotNext(k, g.csize);
        } else {
          RemStep(k, g.csize);
        }
      }
    }
  }

  /** Random access agrees with sequential access: the same place for every entry, and the end at the same entry. */
  lemma {:induction false} WalkAgrees(g: Geometry, volEnd: nat, fat: seq<nat>, sclust: nat, k: nat)
    requires WellFormed(g, volEnd) && |fat| == g.nFatent && sclust < TWO32 && g.dirbase < TWO32 && g.csize > 0
    ensures var there := Sdi(g, fat, sclust, SZDIRE * k);
            if there.At? then Walk(g, fat, sclust, k) == there else Walk(g, fat, sclust, k).Failed?
  {
    hide Next, PowerOfTwo;
    if k > 0 {
      WalkAgrees(g, volEnd, fat, sclust, k - 1);
      if Sdi(g, fat, sclust, SZDIRE * (k - 1)).At? {
        StepAgrees(g, volEnd, fat, sclust, SZDIRE * (k - 1));
      } else {
        EndStays(g, volEnd, fat, sclust, SZDIRE * (k - 1));
      }
    }
  }

  /** One cluster less to go. */
  lemma OneLess(rest: nat, k: nat)
    requires k > 0 && rest >= 512 * k
    ensures rest / 512 >= k && (rest - 512 * k) / 512 == rest / 512 - k
    ensures Quot(rest / 512, k) == 1 + Quot((rest - 512 * k) / 512, k) && Rem(rest / 512, k) == Rem((rest - 512 * k) / 512, k)
  {
    DivModUnique(rest - 512 * k, 512, rest / 512 - k, rest % 512);
  }

  /** The directory object. */
  class Dir {
    const fs: FatFs
    const sclust: nat   // start cluster, 0 for the root
    var dptr: nat
    var clust: nat
    var sect: nat       // 0 once reading has ended
    var dir: nat        // offset of the entry in the window
    var blkOfs: nat     // offset of the first entry of a long name

    constructor (fs: FatFs, sclust: nat)
      ensures this.fs == fs && this.sclust == sclust
    {
      this.fs, this.sclust := fs, sclust;
      dptr, clust, sect, dir, blkOfs := 0, 0, 0, 0, 0;
    }

    ghost predicate Ready()
      reads fs, fs.win
    {
      fs.Valid() && sclust < TWO32 && fs.geo.dirbase < TWO32 && |fs.fat| == fs.geo.nFatent && fs.geo.csize > 0
      && 2 <= fs.geo.nFatent < TWO32
    }

    ghost predicate Stands(p: Place)
      reads this`dptr, this`clust, this`sect, this`dir
    {
      dptr == p.dptr && clust == p.clust && sect == p.sect && dir == p.dptr % 512
    }

    /** dir_sdi. */
    method DirSdi(ofs: nat) returns (res: FResult)
      requires Ready() && ofs < TWO32
      modifies this, fs`disk, fs`wflag, fs`winsect, fs.win
      ensures Ready() && |fs.disk| == old(|fs.disk|)
      ensures match Sdi(fs.geo, fs.fat, sclust, ofs)
              case At(p) => res == Ok && Stands(p)
              case Failed(r) => res == r
    {
      if ofs >= MAX_DIR || ofs % SZDIRE != 0 {
        return IntErr;
      }
      dptr := ofs;
      var clst := sclust;
      if clst == 0 && fs.geo.fmt == Fat32 {
        clst := fs.geo.dirbase;
      }
      var rest := ofs;
      if clst == 0 {
        if ofs / SZDIRE >= fs.geo.nRootdir {
          return IntErr;
        }
        sect := fs.geo.dirbase;
      } else {
        var r;
        r, clst, rest := FollowTable(clst, ofs);
        if r != Ok {
          return r;
        }
        sect := Clst2Sect(fs.geo, clst);
      }
      clust := clst;
      if sect == 0 {
        return IntErr;
      }
      sect := sect + rest / 512;
      dir := ofs % 512;
      res := Ok;
    }

    /** The loop of dir_sdi over the clusters before the offset. */
    method FollowTable(start: nat, ofs: nat) returns (res: FResult, clst: nat, rest: nat)
      requires Ready() && start < TWO32
      modifies fs`disk, fs`wflag, fs`winsect, fs.win
      ensures Ready() && |fs.disk| == old(|fs.disk|)
      ensures match Follow(fs.geo, fs.fat, start, Quot(ofs / 512, fs.geo.csize))
              case Cluster(c) => res == Ok && clst == c && rest / 512 == Rem(ofs / 512, fs.geo.csize) && clst < TWO32
              case Nowhere => res == IntErr
    {
      hide FatFs.WindowOk;
      clst, rest := start, ofs;
      var csz := 512 * fs.geo.csize;
      ghost var q, todo := 0, Quot(ofs / 512, fs.geo.csize);
      while rest >= csz
        invariant Ready() && |fs.disk| == old(|fs.disk|) && clst < TWO32
        invariant Follow(fs.geo, fs.fat, start, q) == Cluster(clst)
        invariant q + Quot(rest / 512, fs.geo.csize) == todo && Rem(rest / 512, fs.geo.csize) == Rem(ofs / 512, fs.geo.csize)
      {
        clst := fs.GetFat(clst);
        if clst < 2 || clst >= fs.geo.nFatent {
          Unreached(fs.geo, fs.fat, start, q + 1, todo);
          return IntErr, clst, rest;
        }
        OneLess(rest, fs.geo.csize);
        rest := rest - csz;
        q := q + 1;
      }
      res := Ok;
    }

    /** dir_next without stretching the table. */
    method DirNext(ghost p: Place) returns (res: FResult)
      requires Ready() && Stands(p) && p.dptr < TWO32
      modifies this, fs`disk, fs`wflag, fs`winsect, fs.win
      ensures Ready() && |fs.disk| == old(|fs.disk|)
      ensures match Next(fs.geo, fs.fat, p)
              case At(p') => res == Ok && Stands(p') && blkOfs == old(blkOfs)
              case Failed(r) => res == r && (r == NoFile ==> sect == 0 || dptr + SZDIRE >= MAX_DIR)
    {
      hide FatFs.WindowOk;
      var ofs := dptr + SZDIRE;
      if sect == 0 || ofs >= MAX_DIR {
        return NoFile;
      }
      if ofs % 512 == 0 {
        sect := sect + 1;
        if clust == 0 {
          if ofs / SZDIRE >= fs.geo.nRootdir {
            sect := 0;
            return NoFile;
          }
        } else {
          MaskRem(ofs / 512);
          if And(ofs / 512, fs.geo.csize - 1) == 0 {
            var clst := fs.GetFat(clust);
            if clst <= 1 {
              return IntErr;
            }
            if clst >= fs.geo.nFatent {
              sect := 0;
              return NoFile;
            }
            clust := clst;
            sect := Clst2Sect(fs.geo, clst);
          }
        }
      }
      dptr := ofs;
      dir := ofs % 512;
      res := Ok;
    }

    lemma MaskRem(x: nat)
      requires Ready()
      ensures And(x, fs.geo.csize - 1) == Rem(x, fs.geo.csize)
    {
      MaskIsRem(x, fs.geo.csize);
    }
  }

  /** Where a chain has ended there is nothing further on. */
  lemma {:induction false} Unreached(g: Geometry, fat: seq<nat>, clst: nat, q: nat, q': nat)
    requires |fat| == g.nFatent && q <= q' && Follow(g, fat, clst, q) == Nowhere
    ensures Follow(g, fat, clst, q') == Nowhere
    decreases q' - q
  {
    if q < q' {
      Unreached(g, fat, clst, q, q' - 1);
    }
  }
}
