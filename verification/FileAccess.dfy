/** Open files: f_read, f_write, f_lseek and f_truncate over the window, the FAT and the allocator. */
module FileAccess {
  import opened Bits
  import opened FatCodec
  import opened Geometry
  import opened Volume
  import opened Chains
  import opened Allocator
  import opened Families
  import opened Span
  import opened FileBytes

  class Fil {
    const fs: FatFs
    const canRead: bool    // FA_READ
    const canWrite: bool   // FA_WRITE
    var modified: bool     // FA_MODIFIED
    var err: FResult       // an error that every later operation repeats
    var sclust: nat        // first cluster, 0 when there is none
    var objsize: nat
    var fptr: nat
    var clust: nat         // cluster of byte fptr - 1
    var sect: nat          // sector of byte fptr while that is inside a sector

    /** The clusters of the file. */
    ghost var chain: seq<nat>

    /** The volume's window is sound and chain is the chain of the file. */
    ghost predicate OnVolume()
      reads this`chain, this`sclust, fs, fs.win
    {
      && fs.Valid()
      && IsChain(fs.fat, fs.geo.nFatent, chain)
      && (if chain == [] then sclust == 0 else sclust == chain[0])
    }

    /** The file lies on the volume and its chain holds its bytes. */
    ghost predicate Shape()
      reads this, fs, fs.win
    {
      && OnVolume()
      && WellFormed(fs.geo, |fs.disk|) && |fs.store| == |fs.disk| && |fs.fat| == fs.geo.nFatent
      && fs.geo.csize > 0 && PowerOfTwo(fs.geo.csize)
      && Clusters(fs.geo, chain)
      && objsize <= 512 * Capacity(fs.geo, chain) && objsize < TWO32
    }

    /** The cursor stands in the cluster of sector k of the file. */
    ghost predicate InCluster(k: nat)
      reads this
    {
      fs.geo.csize > 0 && k < Capacity(fs.geo, chain) && clust == ClusterOf(fs.geo, chain, k)
    }

    /** s is the place of sector k of the file. */
    ghost predicate IsSector(s: nat, k: nat)
      reads this
    {
      fs.geo.csize > 0 && Clusters(fs.geo, chain) && k < Capacity(fs.geo, chain) && s == SectorOf(fs.geo, chain, k)
    }

    /** clust holds the byte before the file pointer, sect the byte at it. */
    ghost predicate CursorOk()
      reads this
    {
      && fptr <= objsize
      && (fptr > 0 ==> InCluster((fptr - 1) / 512))
      && (fptr % 512 != 0 ==> IsSector(sect, fptr / 512))
    }

    /** The file can be read and written at the file pointer. */
    ghost predicate Ready()
      reads this, fs, fs.win
    {
      Shape() && CursorOk()
    }

    /** What every operation keeps. After an error that is recorded the cursor is no longer used. */
    ghost predicate Valid()
      reads this, fs, fs.win
    {
      Shape() && (err == Ok ==> CursorOk())
    }

    /** The bytes of the file. */
    ghost function Bytes(): (r: seq<byte>)
      requires Shape()
      reads this, fs, fs.win
      ensures |r| == objsize
    {
      Content(fs.geo, fs.store, chain, objsize)
    }

    /** The fields f_open sets for an existing file; chain is the chain of its first cluster. */
    constructor (fs: FatFs, canRead: bool, canWrite: bool, sclust: nat, objsize: nat, ghost chain: seq<nat>)
      requires fs.Valid()
      requires IsChain(fs.fat, fs.geo.nFatent, chain) && (if chain == [] then sclust == 0 else sclust == chain[0])
      requires objsize <= 512 * Capacity(fs.geo, chain) && objsize < TWO32
      ensures Valid() && err == Ok && this.fs == fs && this.canRead == canRead && this.canWrite == canWrite
      ensures fptr == 0 && this.chain == chain && this.objsize == objsize && Bytes() == Content(fs.geo, fs.store, chain, objsize)
    {
      this.fs, this.canRead, this.canWrite, modified, err := fs, canRead, canWrite, false, Ok;
      this.sclust, this.objsize, fptr, clust, sect := sclust, objsize, 0, 0, 0;
      this.chain := chain;
      ChainClusters(fs.geo, fs.fat, chain);
    }

    /** On a sector boundary: the sector's offset in its cluster. */
    method SectorInCluster() returns (csect: nat)
      requires Shape()
      ensures csect == Rem(fptr / 512, fs.geo.csize)
    {
      MaskIsRem(fptr / 512, fs.geo.csize);
      csect := And(fptr / 512, fs.geo.csize - 1);
    }

    /** Inside a cluster the cursor's cluster is also that of the next sector. */
    lemma SameCluster()
      requires Ready() && fptr % 512 == 0 && fptr > 0 && Rem(fptr / 512, fs.geo.csize) != 0
      ensures InCluster(fptr / 512)
    {
      var k := (fptr - 1) / 512;
      assert fptr / 512 == k + 1;
      StepInside(fs.geo, chain, k);
    }

    /** On a cluster boundary: enter the cluster of the next byte to read. */
    method EnterForRead()
      requires Ready() && fptr % 512 == 0 && fptr < objsize && Rem(fptr / 512, fs.geo.csize) == 0
      modifies fs`disk, fs`wflag, fs`winsect, fs.win, this`clust
      ensures Shape() && |fs.disk| == old(|fs.disk|)
      ensures InCluster(fptr / 512)
    {
      if fptr == 0 {
        clust := sclust;
      } else {
        StepAcross(fs.geo, chain, (fptr - 1) / 512);
        clust := fs.GetFat(clust);
      }
    }

    /** On a sector boundary: bring the cursor into the cluster of the next byte to read and find its sector. */
    method SeatForRead() returns (csect: nat, s: nat)
      requires Ready() && fptr % 512 == 0 && fptr < objsize
      modifies fs`disk, fs`wflag, fs`winsect, fs.win, this`clust
      ensures Shape() && |fs.disk| == old(|fs.disk|)
      ensures InCluster(fptr / 512) && csect == Rem(fptr / 512, fs.geo.csize) && IsSector(s, fptr / 512)
    {
      csect := SectorInCluster();
      if csect == 0 {
        EnterForRead();
      } else {
        SameCluster();
      }
      SectorCode(fs.geo, |fs.disk|, chain, fptr / 512);
      s := Clst2Sect(fs.geo, clust) + csect;
    }

    /** Window accesses, which leave the file sound. */
    method Fetch(s: nat)
      requires OnVolume() && s < |fs.disk| && fs.geo.FatEnd() <= s
      modifies fs`disk, fs`wflag, fs`winsect, fs.win
      ensures OnVolume() && |fs.disk| == old(|fs.disk|) && |fs.store| == old(|fs.disk|) && fs.win.Length == 512
      ensures fs.win[..] == fs.store[s]
    {
      fs.MoveWindow(s);
    }

    method Flush()
      requires OnVolume()
      modifies fs`disk, fs`wflag
      ensures OnVolume() && |fs.disk| == old(|fs.disk|)
    {
      fs.SyncWindow();
    }

    method GetSectors(s: nat, cc: nat) returns (data: seq<byte>)
      requires OnVolume() && fs.geo.FatEnd() <= s && 0 < cc && s + cc <= |fs.disk| && |fs.store| == |fs.disk|
      ensures data == Flat(fs.store[s..s + cc])
    {
      data := fs.ReadSectors(s, cc);
    }

    method PutSectors(s: nat, data: seq<byte>)
      requires OnVolume() && fs.geo.FatEnd() <= s && 0 < |data| && |data| % 512 == 0
      requires s + |data| / 512 <= |fs.disk| && |fs.store| == |fs.disk|
      modifies fs`disk, fs`wflag, fs`winsect, fs`store, fs.win
      ensures OnVolume() && |fs.disk| == old(|fs.disk|)
      ensures fs.store == Overlay(old(fs.store), s, data)
    {
      fs.WriteSectors(s, data);
    }

    method PutBytes(s: nat, off: nat, data: seq<byte>, growing: bool)
      requires OnVolume() && s < |fs.disk| && fs.geo.FatEnd() <= s && off + |data| <= 512 && |fs.store| == |fs.disk|
      modifies fs`disk, fs`wflag, fs`winsect, fs`store, fs.win
      ensures OnVolume() && |fs.disk| == old(|fs.disk|) && |fs.store| == |fs.disk|
      ensures fs.store == old(fs.store)[s := fs.store[s]]
      ensures forall i :: off <= i < off + |data| ==> fs.store[s][i] == data[i - off]
      ensures !growing ==> forall i :: 0 <= i < 512 && !(off <= i < off + |data|) ==> fs.store[s][i] == old(fs.store)[s][i]
    {
      fs.WriteWindow(s, off, data, growing);
    }

    /** Number of whole sectors to transfer at once, clipped at the end of the cluster. */
    method RunLength(count: nat, csect: nat) returns (cc: nat)
      requires 512 <= count && csect < fs.geo.csize
      ensures 0 < cc && csect + cc <= fs.geo.csize && 512 * cc <= count
    {
      cc := count / 512;
      if csect + cc > fs.geo.csize {
        cc := fs.geo.csize - csect;
      }
    }

    /** Whole sectors straight from the disk. */
    method ReadWhole(btr: nat, csect: nat, s: nat) returns (got: seq<byte>)
      requires Shape() && 512 <= btr <= objsize - fptr && fptr % 512 == 0
      requires InCluster(fptr / 512) && csect == Rem(fptr / 512, fs.geo.csize) && IsSector(s, fptr / 512)
      modifies this`fptr
      ensures Ready() && 0 < |got| <= btr && fptr == old(fptr) + |got|
      ensures got == Bytes()[old(fptr)..fptr]
    {
      hide OnVolume, Clusters, WellFormed, PowerOfTwo, Content, Times, Quot, Rem;
      ghost var k := fptr / 512;
      var cc := RunLength(btr, csect);
      ReadRun(fs.geo, fs.store, chain, objsize, k, cc);
      RunCursor(fs.geo, chain, k, cc);
      got := GetSectors(s, cc);
      fptr := fptr + 512 * cc;
      assert fptr == 512 * (k + cc);
    }

    /** Part of a sector through the window. */
    method ReadPartial(btr: nat) returns (got: seq<byte>)
      requires Shape() && 0 < btr <= objsize - fptr && InCluster(fptr / 512) && IsSector(sect, fptr / 512)
      modifies fs`disk, fs`wflag, fs`winsect, fs.win, this`fptr
      ensures Ready() && |fs.disk| == old(|fs.disk|) && 0 < |got| <= btr && fptr == old(fptr) + |got|
      ensures got == Bytes()[old(fptr)..fptr]
    {
      hide OnVolume, Clusters, WellFormed, PowerOfTwo, Content, Times, Quot, Rem;
      var rcnt := Min(512 - fptr % 512, btr);
      ReadPart(fs.geo, fs.store, chain, objsize, fptr, rcnt);
      Fetch(sect);
      got := fs.win[fptr % 512..fptr % 512 + rcnt];
      PartCursor(fptr, rcnt);
      fptr := fptr + rcnt;
    }

    /** One round of f_read. */
    method ReadRound(btr: nat) returns (got: seq<byte>)
      requires Ready() && 0 < btr <= objsize - fptr
      modifies fs`disk, fs`wflag, fs`winsect, fs.win, this`clust, this`sect, this`fptr
      ensures Ready() && |fs.disk| == old(|fs.disk|)
      ensures 0 < |got| <= btr && fptr == old(fptr) + |got|
      ensures got == Bytes()[old(fptr)..fptr]
    {
      hide Quot, Rem, Times, SectorOf, ClusterOf, Content;
      if fptr % 512 == 0 {
        var csect, s := SeatForRead();
        if btr >= 512 {
          got := ReadWhole(btr, csect, s);
          return;
        }
        sect := s;
      }
      got := ReadPartial(btr);
    }

    /** f_read: the bytes from the file pointer on, as many as asked for or as there are. */
    method FRead(count: nat) returns (res: FResult, out: seq<byte>)
      requires Valid() && count < TWO32
      modifies fs`disk, fs`wflag, fs`winsect, fs.win, this`clust, this`sect, this`fptr
      ensures Valid() && |fs.disk| == old(|fs.disk|) && Bytes() == old(Bytes())
      ensures if err != Ok then res == err && fptr == old(fptr) && out == []
              else if canRead then
                res == Ok && fptr == old(fptr) + Min(count, objsize - old(fptr)) && out == Bytes()[old(fptr)..fptr]
              else res == Denied && fptr == old(fptr) && out == []
    {
      hide FatFs.WindowOk, Clusters, WellFormed, FreeCountOk, PowerOfTwo, Content, SectorOf, ClusterOf, Quot, Rem;
      out := [];
      if err != Ok {
        return err, [];
      }
      if !canRead {
        return Denied, [];
      }
      var btr: nat := Min(count, objsize - fptr);
      ghost var p := fptr;
      while btr > 0
        invariant Ready() && |fs.disk| == old(|fs.disk|) && Bytes() == old(Bytes())
        invariant p <= fptr && fptr + btr == p + Min(count, objsize - p)
        invariant out == Bytes()[p..fptr]
      {
        var got := ReadRound(btr);
        out := out + got;
        btr := btr - |got|;
      }
      res := Ok;
    }

    /** What a change of the file's clusters can touch. */
    ghost function Now(): Holding
      requires fs.geo.nFatent <= |fs.fat|
      reads this`chain, fs
    {
      Holding(chain, fs.fat, fs.store, RoomOf(fs))
    }

    /** From an earlier state the file has at most grown. */
    ghost predicate GrewFrom(was: Holding)
      reads this, fs, fs.win
    {
      Shape() && Grew(fs.geo, was, Now())
    }

    /** Where the file must end at the latest: its clusters and all that can still be taken are full. */
    ghost function Reach(): (r: nat)
      requires Shape()
      reads this, fs, fs.win
      ensures objsize <= r
    {
      TimesMonotone(fs.geo.csize, |chain|, |chain| + Supply(fs.geo.nFatent, RoomOf(fs)));
      512 * Times(fs.geo.csize, |chain| + Supply(fs.geo.nFatent, RoomOf(fs)))
    }

    /** The file pointer stands at the end of the file's clusters and no cluster follows: there is none to be taken, or the
        search met an entry of 1. */
    ghost predicate Stopped(clst: nat)
      reads this, fs, fs.win
    {
      && Shape() && fptr == 512 * Capacity(fs.geo, chain)
      && (if clst == 0 then Supply(fs.geo.nFatent, RoomOf(fs)) == 0 else !NoOnes(fs.geo.nFatent, fs.fat))
    }

    lemma SelfFrame()
      requires Shape()
      ensures GrewFrom(Now())
    {
    }

    /** create_chain behind the first pos clusters of the file: the next cluster, taken from the free ones if the chain
        ends here. 0 when none can be taken then, 1 when the search for one meets an entry of 1. */
    method NextCluster(ghost pos: nat, clst: nat) returns (r: nat)
      requires Shape() && pos <= |chain| && clst == (if pos == 0 then 0 else chain[pos - 1]) && (pos == 0 ==> chain == [])
      modifies fs, fs.win, this`sclust, this`chain
      ensures GrewFrom(old(Now())) && fs.store == old(fs.store)
      ensures |fs.disk| == old(|fs.disk|)
      ensures r == 0 ==> Supply(fs.geo.nFatent, RoomOf(fs)) == 0
      ensures r == 1 ==> !NoOnes(fs.geo.nFatent, fs.fat)
      ensures if r <= 1 then pos == |chain| && chain == old(chain)
              else pos < |chain| && r == chain[pos] && |chain| == Max(|old(chain)|, pos + 1)
    {
      hide Clusters, Frame, CountFree, Full, FreeCountOk, FatFs.WindowOk, Content, Times, Quot, Rem, PowerOfTwo, WellFormed,
        Grew;
      ghost var was := Now();
      NoneToTake(fs);
      assert pos > 0 ==> fs.fat[clst] == if pos < |chain| then chain[pos] else fs.fat[chain[|chain| - 1]];
      r := CreateChain(fs, clst);
      if r <= 1 || pos < |chain| {
        GrewNot(fs.geo, was);
      } else {
        TakeCluster(fs.geo, |fs.disk|, was.fat, fs.store, was.chain, r);
        chain := chain + [r];
        GrewByOne(fs.geo, was, Now());
        TimesStep(fs.geo.csize, |was.chain|, |chain|);
      }
      if r > 1 && sclust == 0 {
        sclust := r;
      }
    }

    /** On a cluster boundary: enter the next cluster to write, if there is one. */
    method EnterForWrite() returns (clst: nat)
      requires Ready() && fptr % 512 == 0 && Rem(fptr / 512, fs.geo.csize) == 0
      modifies fs, fs.win, this`clust, this`sclust, this`chain
      ensures GrewFrom(old(Now())) && fs.store == old(fs.store)
      ensures |fs.disk| == old(|fs.disk|)
      ensures if clst <= 1 then Ready() && Stopped(clst) && chain == old(chain)
              else InCluster(fptr / 512) && |chain| == Max(|old(chain)|, Need(fs.geo.csize, fptr + 1))
    {
      hide OnVolume, Clusters, WellFormed, PowerOfTwo, Frame, NoOnes, CountFree, Grew, Need, Times, Quot, ClusterOf,
        SectorOf;
      NextNeeded(fs.geo.csize, |chain|, fptr);
      ghost var q := Quot(fptr / 512, fs.geo.csize);
      if fptr == 0 {
        clst := EnterFirst();
      } else {
        StepAcross(fs.geo, chain, (fptr - 1) / 512);
        clst := NextCluster(q, clust);
      }
      if clst > 1 {
        ClusterAt(fs.geo, chain, fptr / 512);
        clust := clst;
      }
    }

    /** The file's first cluster, allocated if it has none. */
    method EnterFirst() returns (clst: nat)
      requires Shape()
      modifies fs, fs.win, this`sclust, this`chain
      ensures GrewFrom(old(Now())) && fs.store == old(fs.store)
      ensures |fs.disk| == old(|fs.disk|)
      ensures clst == 0 ==> Supply(fs.geo.nFatent, RoomOf(fs)) == 0
      ensures clst == 1 ==> !NoOnes(fs.geo.nFatent, fs.fat)
      ensures if clst <= 1 then chain == old(chain) == []
              else chain != [] && clst == chain[0] && |chain| == Max(|old(chain)|, 1) && (old(chain) != [] ==> chain == old(chain))
    {
      hide FatFs.WindowOk, Clusters, WellFormed, PowerOfTwo, Frame, NoOnes, CountFree, Took;
      SelfFrame();
      clst := sclust;
      if clst == 0 {
        clst := NextCluster(0, 0);
      }
    }

    /** On a sector boundary: bring the cursor into the cluster of the next byte to write and find its sector. */
    method SeatForWrite() returns (clst: nat, csect: nat, s: nat)
      requires Ready() && fptr % 512 == 0
      modifies fs, fs.win, this`clust, this`sclust, this`chain
      ensures GrewFrom(old(Now())) && fs.store == old(fs.store)
      ensures |fs.disk| == old(|fs.disk|)
      ensures if clst <= 1 then Ready() && Stopped(clst) && chain == old(chain)
              else
                && InCluster(fptr / 512) && csect == Rem(fptr / 512, fs.geo.csize) && IsSector(s, fptr / 512)
                && |chain| == Max(|old(chain)|, Need(fs.geo.csize, fptr + 1))
    {
      hide OnVolume, Clusters, WellFormed, PowerOfTwo, Frame, NoOnes, CountFree, Took, Need, SectorOf, Supply;
      csect := SectorInCluster();
      s, clst := 0, 2;
      if csect == 0 {
        clst := EnterForWrite();
        if clst <= 1 {
          return;
        }
      } else {
        SameCluster();
        HeldNeeds(fs.geo, chain, fptr + 1);
        SelfFrame();
      }
      if fs.winsect == sect {
        Flush();
      }
      SectorCode(fs.geo, |fs.disk|, chain, fptr / 512);
      s := Clst2Sect(fs.geo, clust) + csect;
    }

    /** Whole sectors straight to the disk. */
    method WriteWhole(data: seq<byte>, csect: nat, s: nat) returns (n: nat)
      requires Shape() && fptr <= objsize && 512 <= |data| && fptr + |data| < TWO32 && fptr % 512 == 0
      requires InCluster(fptr / 512) && csect == Rem(fptr / 512, fs.geo.csize) && IsSector(s, fptr / 512)
      modifies fs`disk, fs`wflag, fs`winsect, fs`store, fs.win, this`fptr, this`objsize
      ensures Ready() && |fs.disk| == old(|fs.disk|) && Owned(fs.geo, chain, old(fs.store), fs.store)
      ensures 0 < n <= |data| && fptr == old(fptr) + n && Bytes() == Overwrite(old(Bytes()), old(fptr), data[..n])
    {
      hide OnVolume, Clusters, WellFormed, PowerOfTwo, Overlay, Flat, Times, Quot, Rem, Overwrite, Owned, SectorOf,
        ClusterOf, Content;
      ghost var k := fptr / 512;
      var cc := RunLength(|data|, csect);
      n := 512 * cc;
      WriteRun(fs.geo, fs.store, chain, objsize, k, data[..n]);
      RunCursor(fs.geo, chain, k, cc);
      PutSectors(s, data[..n]);
      fptr := fptr + n;
      assert fptr == 512 * (k + cc);
      objsize := if fptr > objsize then fptr else objsize;
    }

    /** The bytes into the cursor's sector. */
    method StorePart(data: seq<byte>)
      requires Shape() && fptr <= objsize && 0 < |data| && fptr % 512 + |data| <= 512
      requires InCluster(fptr / 512) && IsSector(sect, fptr / 512)
      modifies fs`disk, fs`wflag, fs`winsect, fs`store, fs.win
      ensures Shape() && |fs.disk| == old(|fs.disk|) && Owned(fs.geo, chain, old(fs.store), fs.store)
      ensures Max(objsize, fptr + |data|) <= 512 * Capacity(fs.geo, chain)
      ensures Content(fs.geo, fs.store, chain, Max(objsize, fptr + |data|)) == Overwrite(old(Bytes()), fptr, data)
    {
      hide OnVolume, Clusters, WellFormed, PowerOfTwo, Overwrite, Owned, Content, SectorOf, ClusterOf, Times;
      SectorInData(fs.geo, |fs.disk|, chain, fptr / 512);
      ghost var store := fs.store;
      PutBytes(sect, fptr % 512, data, fptr % 512 == 0 && fptr >= objsize);
      WritePart(fs.geo, store, fs.store, chain, objsize, fptr, data);
    }

    /** Part of a sector through the window; on the growing edge of the file the sector is not fetched first. */
    method WritePartial(data: seq<byte>) returns (n: nat)
      requires Shape() && fptr <= objsize && 0 < |data| && fptr + |data| < TWO32
      requires InCluster(fptr / 512) && IsSector(sect, fptr / 512)
      modifies fs`disk, fs`wflag, fs`winsect, fs`store, fs.win, this`fptr, this`objsize
      ensures Ready() && |fs.disk| == old(|fs.disk|) && Owned(fs.geo, chain, old(fs.store), fs.store)
      ensures 0 < n <= |data| && fptr == old(fptr) + n && Bytes() == Overwrite(old(Bytes()), old(fptr), data[..n])
    {
      hide OnVolume, Clusters, WellFormed, PowerOfTwo, Overwrite, Owned, Content, SectorOf, ClusterOf, Times;
      n := Min(512 - fptr % 512, |data|);
      StorePart(data[..n]);
      PartCursor(fptr, n);
      fptr := fptr + n;
      objsize := if fptr > objsize then fptr else objsize;
    }

    /** The transfer of a round, with the cursor in the cluster of the next byte to write and s its sector. */
    method StoreRound(data: seq<byte>, csect: nat, s: nat) returns (n: nat)
      requires Shape() && fptr <= objsize && 0 < |data| && fptr + |data| < TWO32
      requires InCluster(fptr / 512) && IsSector(s, fptr / 512)
      requires if fptr % 512 == 0 then csect == Rem(fptr / 512, fs.geo.csize) else s == sect
      modifies fs`disk, fs`wflag, fs`winsect, fs`store, fs.win, this`sect, this`fptr, this`objsize
      ensures Ready() && |fs.disk| == old(|fs.disk|) && Owned(fs.geo, chain, old(fs.store), fs.store)
      ensures 0 < n <= |data| && fptr == old(fptr) + n && Bytes() == Overwrite(old(Bytes()), old(fptr), data[..n])
    {
      hide OnVolume, Clusters, WellFormed, PowerOfTwo, Overwrite, Rem, Quot, Times, SectorOf, ClusterOf, Content, Owned;
      if fptr % 512 == 0 && |data| >= 512 {
        n := WriteWhole(data, csect, s);
        return;
      }
      sect := s;
      n := WritePartial(data);
    }

    /** One round of f_write; clst is 0 or 1 when it stops the loop. */
    method WriteRound(data: seq<byte>) returns (n: nat, clst: nat)
      requires Ready() && 0 < |data| && fptr + |data| < TWO32
      modifies fs, fs.win, this`clust, this`sclust, this`chain, this`sect, this`fptr, this`objsize
      ensures Ready() && |fs.disk| == old(|fs.disk|)
      ensures GrewFrom(old(Now()))
      ensures if clst <= 1 then n == 0 && Stopped(clst) && chain == old(chain)
              else 0 < n <= |data| && |chain| == Max(|old(chain)|, Need(fs.geo.csize, fptr))
      ensures n <= |data| && fptr == old(fptr) + n && Bytes() == Overwrite(old(Bytes()), old(fptr), data[..n])
    {
      hide OnVolume, Clusters, WellFormed, PowerOfTwo, Frame, Overwrite, NoOnes, CountFree, Took, Need, Quot, Rem,
        Supply, Taken, Times, SectorOf, ClusterOf, Content, Owned, Fil.Stopped;
      ghost var was, p := Now(), fptr;
      n, clst := 0, 2;
      var csect, s := 0, sect;
      if fptr % 512 == 0 {
        clst, csect, s := SeatForWrite();
        ContentPrefix(fs.geo, fs.store, was.chain, chain, objsize);
        if clst <= 1 {
          return;
        }
      } else {
        SelfFrame();
      }
      ghost var seated := Now();
      n := StoreRound(data, csect, s);
      Stored(was, seated);
      NeedMonotone(fs.geo, chain, p + 1, fptr);
    }

    /** A write into clusters the file holds by now. */
    lemma Stored(was: Holding, seated: Holding)
      requires Shape() && Grew(fs.geo, was, seated) && Now() == seated.(store := fs.store)
      requires Owned(fs.geo, chain, seated.store, fs.store)
      ensures GrewFrom(was)
    {
      FrameSame(fs.geo, chain, fs.fat, seated.store);
      GrewTwice(fs.geo, was, seated, Now());
    }

    /** Bytes f_write takes at most: the file cannot reach 4 GiB. */
    function WriteLimit(count: nat): (r: nat)
      requires fptr < TWO32
      reads this
      ensures r == Min(count, 0xFFFF_FFFF - fptr)
    {
      if fptr + count >= TWO32 then 0xFFFF_FFFF - fptr else count
    }

    /** f_write's test for a wrap-around of the file pointer, on 32-bit sums. */
    method ClipWrite(count: nat) returns (btw: nat)
      requires fptr < TWO32 && count < TWO32
      ensures btw == WriteLimit(count)
    {
      btw := count;
      if (fptr + count) % TWO32 < fptr {
        btw := 0xFFFF_FFFF - fptr;
      }
    }

    /** Since the state was, whose file pointer was p and whose bytes were given, done bytes of data have been written. */
    ghost predicate Written(was: Holding, bytes: seq<byte>, p: nat, data: seq<byte>, done: nat)
      reads this, fs, fs.win
    {
      && Ready() && GrewFrom(was) && done <= |data| && p <= |bytes|
      && fptr == p + done && Bytes() == Overwrite(bytes, p, data[..done])
      && |chain| == Max(|was.chain|, Need(fs.geo.csize, fptr))
    }

    lemma NothingWritten(data: seq<byte>)
      requires Ready()
      ensures Written(Now(), Bytes(), fptr, data, 0)
    {
      hide OnVolume, Overwrite, Need;
      SelfFrame();
      HeldNeeds(fs.geo, chain, fptr);
      OverwriteNothing(Bytes(), fptr);
    }

    /** One more round. */
    method WriteNext(data: seq<byte>, done: nat, ghost was: Holding, ghost bytes: seq<byte>, ghost p: nat)
      returns (n: nat, clst: nat)
      requires Written(was, bytes, p, data, done) && done < |data| && p + |data| < TWO32
      modifies fs, fs.win, this`clust, this`sclust, this`chain, this`sect, this`fptr, this`objsize
      ensures Written(was, bytes, p, data, done + n) && |fs.disk| == old(|fs.disk|)
      ensures if clst <= 1 then n == 0 && Stopped(clst) else n > 0
    {
      hide OnVolume, Clusters, WellFormed, PowerOfTwo, Frame, Overwrite, NoOnes, CountFree, Need, Quot, Times, Grew,
        SectorOf, ClusterOf, Content, Fil.Stopped;
      ghost var before := Now();
      n, clst := WriteRound(data[done..]);
      GrewTwice(fs.geo, was, before, Now());
      OverwriteNext(bytes, p, data, done, n);
      NeedMonotone(fs.geo, chain, p + done, fptr);
    }

    /** The rounds of f_write; clst is 0 or 1 when they stop before the end of the data. */
    method WriteAll(data: seq<byte>) returns (bw: nat, clst: nat)
      requires Ready() && fptr + |data| < TWO32
      modifies fs, fs.win, this`clust, this`sclust, this`chain, this`sect, this`fptr, this`objsize
      ensures Written(old(Now()), old(Bytes()), old(fptr), data, bw) && |fs.disk| == old(|fs.disk|)
      ensures if clst <= 1 then bw < |data| && Stopped(clst) else bw == |data|
    {
      hide OnVolume, Frame, Overwrite, NoOnes, CountFree, Need, Grew, Fil.Stopped;
      ghost var was, bytes, p := Now(), Bytes(), fptr;
      NothingWritten(data);
      bw, clst := 0, 2;
      while bw < |data|
        invariant Written(was, bytes, p, data, bw) && |fs.disk| == old(|fs.disk|) && clst > 1
      {
        var n;
        n, clst := WriteNext(data, bw, was, bytes, p);
        bw := bw + n;
        if clst <= 1 {
          return;
        }
      }
    }

    /** f_write on a file that can be written. */
    method WriteData(data: seq<byte>) returns (res: FResult, bw: nat)
      requires Ready() && err == Ok && |data| < TWO32
      modifies fs, fs.win, this`clust, this`sclust, this`chain, this`sect, this`fptr, this`objsize, this`modified, this`err
      ensures Ready() && |fs.disk| == old(|fs.disk|)
      ensures GrewFrom(old(Now())) && fptr == old(fptr) + bw && bw <= |data|
      ensures Bytes() == Overwrite(old(Bytes()), old(fptr), data[..bw])
      ensures bw <= Min(old(WriteLimit(|data|)), old(Reach()) - old(fptr))
      ensures |chain| == Max(|old(chain)|, Need(fs.geo.csize, fptr))
      ensures if res == Ok then err == Ok && modified && bw == Min(old(WriteLimit(|data|)), old(Reach()) - old(fptr))
              else
                && res == err == IntErr && !NoOnes(fs.geo.nFatent, fs.fat)
                && bw < old(WriteLimit(|data|)) && fptr == 512 * Capacity(fs.geo, chain) && modified == old(modified)
    {
      hide OnVolume, Clusters, WellFormed, PowerOfTwo, Frame, Overwrite, NoOnes, CountFree, Need, Took, Supply, Times,
        SectorOf, ClusterOf, Content;
      var btw := ClipWrite(|data|);
      ghost var was := Now();
      var clst;
      bw, clst := WriteAll(data[..btw]);
      assert data[..btw][..bw] == data[..bw];
      ReachedEnd(fs.geo, was, Now());
      if clst == 1 {
        err := IntErr;
        return IntErr, bw;
      }
      modified := true;
      res := Ok;
    }

    /** f_write: the bytes replace or extend the file at the file pointer, all of them up to the last byte that the file's
        clusters and those it can take have room for; it takes no cluster that it does not need. If the search for one
        meets an entry of 1 the write stops there, at the end of the file's clusters, with an internal error, which every
        later operation repeats. */
    method FWrite(data: seq<byte>) returns (res: FResult, bw: nat)
      requires Valid() && |data| < TWO32
      modifies fs, fs.win, this`clust, this`sclust, this`chain, this`sect, this`fptr, this`objsize, this`modified, this`err
      ensures Valid() && |fs.disk| == old(|fs.disk|)
      ensures GrewFrom(old(Now())) && fptr == old(fptr) + bw && bw <= |data|
      ensures old(err) == Ok ==> Bytes() == Overwrite(old(Bytes()), old(fptr), data[..bw])
      ensures if old(err) != Ok || !canWrite then
                && res == (if old(err) != Ok then old(err) else Denied) && err == old(err)
                && bw == 0 && modified == old(modified) && chain == old(chain) && Bytes() == old(Bytes())
              else
                && bw <= Min(old(WriteLimit(|data|)), old(Reach()) - old(fptr))
                && |chain| == Max(|old(chain)|, Need(fs.geo.csize, fptr))
                && (if res == Ok then
                      err == Ok && modified && bw == Min(old(WriteLimit(|data|)), old(Reach()) - old(fptr))
                    else
                      && res == err == IntErr && !old(NoOnes(fs.geo.nFatent, fs.fat))
                      && bw < old(WriteLimit(|data|)) && fptr == 512 * Capacity(fs.geo, chain) && modified == old(modified))
    {
      hide OnVolume, Clusters, WellFormed, PowerOfTwo, Frame, Overwrite, NoOnes, CountFree, Need, Took, Supply, Times,
        SectorOf, ClusterOf, Content;
      if err != Ok || !canWrite {
        SelfFrame();
        if err == Ok {
          OverwriteNothing(Bytes(), fptr);
        }
        return if err != Ok then err else Denied, 0;
      }
      res, bw := WriteData(data);
    }

    /** Where a seek stands: in the chain's cluster m, whose first byte is fptr; rest bytes of the offset are still to go. */
    ghost predicate SeekAt(m: nat, clst: nat, rest: nat, target: nat)
      reads this
    {
      && m < |chain| && clst == clust == chain[m]
      && fptr == 512 * Times(fs.geo.csize, m)
      && rest > 0 && fptr + rest == target
    }

    /** A seek that starts from the current cluster: back to its first byte. */
    method SeekFromHere(ofs: nat) returns (rest: nat, ghost m: nat)
      requires Ready() && 0 < fptr && 0 < ofs
      requires Quot(ofs - 1, 512 * fs.geo.csize) >= Quot(fptr - 1, 512 * fs.geo.csize)
      modifies this`fptr
      ensures Shape() && SeekAt(m, clust, rest, ofs)
    {
      hide OnVolume, Clusters, WellFormed, PowerOfTwo, And;
      m := Quot((fptr - 1) / 512, fs.geo.csize);
      QuotBound((fptr - 1) / 512, fs.geo.csize, |chain|);
      SeekBase(fs.geo.csize, fptr - 1, ofs - 1);
      fptr := fptr - 1 - And(fptr - 1, 512 * fs.geo.csize - 1);
      rest := ofs - fptr;
    }

    /** The start of a seek: the current cluster if the target lies there or behind it, else the first one, which is
        allocated if the file has none. */
    method SeekStart(ofs: nat) returns (clst: nat, rest: nat, ghost m: nat)
      requires Ready() && 0 < ofs < TWO32
      modifies fs, fs.win, this`clust, this`sclust, this`chain, this`fptr
      ensures GrewFrom(old(Now())) && fs.store == old(fs.store)
      ensures |fs.disk| == old(|fs.disk|)
      ensures if clst <= 1 then chain == old(chain) == [] && Stopped(clst)
              else SeekAt(m, clst, rest, ofs) && |chain| == Max(|old(chain)|, m + 1) && (old(chain) != [] ==> chain == old(chain))
    {
      hide FatFs.WindowOk, Clusters, WellFormed, FreeCountOk, PowerOfTwo, Frame, NoOnes, CountFree, Took;
      SelfFrame();
      if fptr > 0 && Quot(ofs - 1, 512 * fs.geo.csize) >= Quot(fptr - 1, 512 * fs.geo.csize) {
        rest, m := SeekFromHere(ofs);
        clst := clust;
        InUse(m);
      } else {
        fptr, rest, m := 0, ofs, 0;
        clst := EnterFirst();
        if clst != 1 {
          clust := clst;
        }
      }
    }

    lemma InUse(m: nat)
      requires Shape() && m < |chain|
      ensures chain[m] > 1
    {
    }

    /** One step of the cluster following loop; with write access the chain is stretched where it ends. */
    method SeekStep(clst: nat, rest: nat, ghost m: nat, ghost target: nat) returns (next: nat)
      requires Shape() && SeekAt(m, clst, rest, target) && rest > 512 * fs.geo.csize && (canWrite || target <= objsize)
      modifies fs, fs.win, this`clust, this`sclust, this`chain, this`fptr
      ensures GrewFrom(old(Now())) && fs.store == old(fs.store)
      ensures |fs.disk| == old(|fs.disk|)
      ensures target <= objsize ==> chain == old(chain) && next > 1
      ensures if next > 1 then SeekAt(m + 1, next, rest - 512 * fs.geo.csize, target) && |chain| == Max(|old(chain)|, m + 2)
              else m + 1 == |chain| && clust == chain[m] && fptr == 512 * Times(fs.geo.csize, m + 1) < target
                   && Stopped(next) && canWrite && chain == old(chain)
    {
      hide FatFs.WindowOk, Clusters, WellFormed, FreeCountOk, PowerOfTwo, Frame, Times, NoOnes, CountFree, Took;
      SelfFrame();
      TimesNext(fs.geo.csize, m);
      TargetAhead(fs.geo.csize, m, |chain|, target, objsize);
      assert m + 1 < |chain| ==> fs.fat[clst] == chain[m + 1];
      fptr := fptr + 512 * fs.geo.csize;
      if canWrite {
        next := NextCluster(m + 1, clst);
      } else {
        next := fs.GetFat(clst);
      }
      if next > 1 {
        clust := next;
      }
    }

    /** Follow the chain to the cluster that holds the byte before the target. */
    method SeekFollow(clst0: nat, rest0: nat, ghost m0: nat, ghost target: nat) returns (clst: nat, rest: nat, ghost m: nat)
      requires Shape() && SeekAt(m0, clst0, rest0, target) && target < TWO32 && clst0 > 1
      requires canWrite || target <= objsize
      modifies fs, fs.win, this`clust, this`sclust, this`chain, this`fptr
      ensures GrewFrom(old(Now())) && fs.store == old(fs.store)
      ensures |fs.disk| == old(|fs.disk|)
      ensures target <= objsize ==> chain == old(chain) && clst > 1
      ensures m0 <= m && |chain| == Max(|old(chain)|, m + 1)
      ensures if clst > 1 then SeekAt(m, clst, rest, target) && rest <= 512 * fs.geo.csize
              else m + 1 == |chain| && clust == chain[m] && fptr == 512 * Times(fs.geo.csize, m + 1) < target
                   && Stopped(clst) && canWrite
    {
      hide OnVolume, Clusters, WellFormed, PowerOfTwo, Frame, Times, NoOnes, CountFree, Took;
      SelfFrame();
      clst, rest, m := clst0, rest0, m0;
      ghost var was := Now();
      while rest > 512 * fs.geo.csize
        invariant GrewFrom(was) && fs.store == was.store && |fs.disk| == old(|fs.disk|)
        invariant target <= objsize ==> chain == was.chain
        invariant m0 <= m && clst > 1 && SeekAt(m, clst, rest, target) && |chain| == Max(|was.chain|, m + 1)
        decreases rest
      {
        ghost var before := Now();
        clst := SeekStep(clst, rest, m, target);
        GrewTwice(fs.geo, was, before, Now());
        if clst <= 1 {
          return;
        }
        rest := rest - 512 * fs.geo.csize;
        m := m + 1;
      }
    }

    /** The end of a seek: the file pointer inside its cluster, and the sector there if it is not on a boundary. */
    method SeekEnd(clst: nat, rest: nat, ghost m: nat, ghost target: nat) returns (nsect: nat)
      requires Shape() && SeekAt(m, clst, rest, target) && rest <= 512 * fs.geo.csize
      modifies this`fptr
      ensures Shape() && fptr == target && target <= 512 * Capacity(fs.geo, chain)
      ensures InCluster((target - 1) / 512) && Need(fs.geo.csize, target) == m + 1
      ensures target % 512 != 0 ==> IsSector(nsect, target / 512)
    {
      hide OnVolume, Clusters, PowerOfTwo;
      SeekCluster(fs.geo, |fs.disk|, chain, m, rest);
      nsect := 0;
      if rest % 512 != 0 {
        nsect := Clst2Sect(fs.geo, clst) + rest / 512;
      }
      fptr := fptr + rest;
    }

    lemma SizeNeedsChain()
      requires Shape()
      ensures objsize > 0 ==> chain != []
    {
    }

    /** The file pointer goes to an offset, as far as the chain reaches or can be stretched; clst is 0 or 1 when it stops
        before. */
    method SeekMove(to: nat) returns (nsect: nat, clst: nat)
      requires Ready() && 0 < to < TWO32 && (canWrite || to <= objsize)
      modifies fs, fs.win, this`clust, this`sclust, this`chain, this`fptr
      ensures GrewFrom(old(Now())) && fs.store == old(fs.store)
      ensures |fs.disk| == old(|fs.disk|)
      ensures fptr <= 512 * Capacity(fs.geo, chain) && (fptr > 0 ==> InCluster((fptr - 1) / 512))
      ensures fptr % 512 != 0 ==> IsSector(nsect, fptr / 512)
      ensures if clst <= 1 then fptr < to && canWrite && Stopped(clst) else fptr == to
      ensures |chain| == Max(|old(chain)|, Need(fs.geo.csize, fptr))
      ensures to <= objsize ==> chain == old(chain) && fptr == to
    {
      hide OnVolume, Clusters, WellFormed, PowerOfTwo, Frame, NoOnes, CountFree, Took, Supply, Taken, SectorOf,
        ClusterOf, Content;
      SizeNeedsChain();
      ghost var was := Now();
      ghost var m;
      var rest;
      nsect := 0;
      clst, rest, m := SeekStart(to);
      if clst > 1 {
        ghost var before := Now();
        clst, rest, m := SeekFollow(clst, rest, m, to);
        GrewTwice(fs.geo, was, before, Now());
        if clst > 1 {
          nsect := SeekEnd(clst, rest, m, to);
        } else {
          EndOfChain(fs.geo, chain, m);
        }
      }
    }

    /** The end of f_lseek: the file reaches the file pointer, and the cursor's sector is set. */
    method Settle(nsect: nat)
      requires Shape() && fptr < TWO32 && fptr <= 512 * Capacity(fs.geo, chain) && (fptr > 0 ==> InCluster((fptr - 1) / 512))
      requires fptr % 512 != 0 ==> IsSector(nsect, fptr / 512)
      modifies this`objsize, this`sect, this`modified
      ensures Ready() && objsize == Max(old(objsize), fptr) && Bytes()[..old(objsize)] == old(Bytes())
    {
      hide OnVolume, Clusters, WellFormed, PowerOfTwo, Content, SectorOf, ClusterOf, Times;
      ContentShorter(fs.geo, fs.store, chain, objsize, Max(objsize, fptr));
      if fptr > objsize {
        objsize := fptr;
        modified := true;
      }
      if fptr % 512 != 0 && nsect != sect {
        sect := nsect;
      }
    }

    /** The movement of f_lseek, to an offset that is allowed; clst is 1 when it breaks off. */
    method SeekTo(to: nat) returns (nsect: nat, clst: nat)
      requires Ready() && to < TWO32 && (canWrite || to <= objsize)
      modifies fs, fs.win, this`clust, this`sclust, this`chain, this`fptr
      ensures GrewFrom(old(Now())) && fs.store == old(fs.store)
      ensures |fs.disk| == old(|fs.disk|)
      ensures if clst == 1 then fptr < to && canWrite && Stopped(clst) else fptr == Min(to, old(Reach()))
      ensures fptr <= 512 * Capacity(fs.geo, chain) && (fptr > 0 ==> InCluster((fptr - 1) / 512))
      ensures fptr % 512 != 0 ==> IsSector(nsect, fptr / 512)
      ensures |chain| == Max(|old(chain)|, Need(fs.geo.csize, fptr))
      ensures Bytes() == old(Bytes())
    {
      hide OnVolume, Clusters, WellFormed, PowerOfTwo, Frame, NoOnes, CountFree, Content, Quot, SectorOf, ClusterOf, Times;
      SelfFrame();
      ghost var was := Now();
      nsect, clst := 0, 2;
      if to == 0 {
        fptr := 0;
      } else {
        nsect, clst := SeekMove(to);
      }
      ReachedEnd(fs.geo, was, Now());
      ContentPrefix(fs.geo, fs.store, was.chain, chain, objsize);
    }

    /** f_lseek: the file pointer goes to the offset. With write access a file that is too short grows to it, its old bytes
        unchanged, or to the end of the clusters it has and can take; it takes no cluster that it does not need. If the
        search for one meets an entry of 1 the seek breaks off at the end of the file's clusters with an internal error,
        which every later operation repeats; size and bytes are then as they were. */
    method FLseek(ofs: nat) returns (res: FResult)
      requires Valid() && ofs < TWO32
      modifies fs, fs.win, this`clust, this`sclust, this`chain, this`sect, this`fptr, this`objsize, this`modified, this`err
      ensures Valid() && |fs.disk| == old(|fs.disk|)
      ensures GrewFrom(old(Now())) && objsize >= old(objsize) && Bytes()[..old(objsize)] == old(Bytes())
      ensures if old(err) != Ok then
                res == err == old(err) && fptr == old(fptr) && chain == old(chain) && objsize == old(objsize)
              else
                && |chain| == Max(|old(chain)|, Need(fs.geo.csize, fptr))
                && (if res == Ok then
                      && err == Ok && fptr == Min(ofs, if canWrite then old(Reach()) else old(objsize))
                      && objsize == Max(old(objsize), fptr)
                    else
                      && res == err == IntErr && canWrite && !old(NoOnes(fs.geo.nFatent, fs.fat))
                      && fptr == 512 * Capacity(fs.geo, chain) < ofs && objsize == old(objsize))
    {
      hide OnVolume, Clusters, WellFormed, PowerOfTwo, Frame, NoOnes, CountFree, Content, Need, SectorOf, ClusterOf,
        Times, Took;
      if err != Ok {
        SelfFrame();
        return err;
      }
      var to := ofs;
      if ofs > objsize && !canWrite {
        to := objsize;
      }
      var nsect, clst := SeekTo(to);
      if clst == 1 {
        err := IntErr;
        return IntErr;
      }
      Settle(nsect);
      res := Ok;
    }

    /** Cut the chain down to its first j clusters. */
    method CutTo(ghost j: nat, clst: nat, pclst: nat) returns (res: FResult)
      requires Shape() && j < |chain| && clst == chain[j] && pclst == (if j == 0 then 0 else chain[j - 1])
      requires objsize <= 512 * Times(fs.geo.csize, j)
      modifies fs, fs.win, this`sclust, this`chain
      ensures CutFrom(j, old(Now())) && |fs.disk| == old(|fs.disk|) && res == Ok
    {
      hide CountFree, Frame, ReleaseOk, Released, Full, FreeCountOk, FatFs.WindowOk, IsChain, PowerOfTwo, WellFormed;
      ghost var fat := fs.fat;
      CutOutcome(fs.geo, |fs.disk|, fat, fs.store, chain, j);
      ghost var fat0 := if j == 0 then fat else fat[chain[j - 1] := Cut(fs.geo.fmt, EOC)];
      assert pclst == 0 <==> j == 0;
      res := RemoveChain(fs, clst, pclst);
      assert fs.fat == Released(fat0, fs.geo.nFatent, chain[j]);
      if pclst == 0 {
        sclust := 0;
      }
      chain := chain[..j];
      assert |chain| == j;
    }

    /** What a cut to j clusters leaves of the old state. */
    ghost predicate CutFrom(j: nat, was: Holding)
      reads this, fs, fs.win
    {
      && Shape() && j <= |was.chain| && chain == was.chain[..j] && fs.store == was.store
      && Frame(fs.geo, was.chain, was.fat, was.store, was.chain, fs.fat, was.store)
      && (forall c :: 2 <= c < fs.geo.nFatent ==> (fs.fat[c] == 0 <==> was.fat[c] == 0 || c in was.chain[j..]))
      && RoomOf(fs) == Given(fs.geo.nFatent, was.room, |was.chain| - j)
      && (NoOnes(fs.geo.nFatent, was.fat) <==> NoOnes(fs.geo.nFatent, fs.fat))
    }

    /** Nothing is cut. */
    lemma Uncut()
      requires Shape()
      ensures CutFrom(|chain|, Now())
    {
      SelfFrame();
      assert chain[..|chain|] == chain;
    }

    /** Free the clusters behind the cursor's. */
    method CutBehind(ghost j: nat) returns (res: FResult)
      requires Shape() && 0 < j <= |chain| && clust == chain[j - 1] && objsize <= 512 * Times(fs.geo.csize, j)
      modifies fs, fs.win, this`sclust, this`chain
      ensures CutFrom(j, old(Now())) && |fs.disk| == old(|fs.disk|) && res == Ok
    {
      hide CountFree, FatFs.WindowOk, Frame, NoOnes;
      Uncut();
      res := Ok;
      var ncl := fs.GetFat(clust);
      assert j < |chain| ==> ncl == chain[j];
      if ncl < fs.geo.nFatent {
        res := CutTo(j, ncl, clust);
      } else {
        assert chain[..j] == chain;
      }
    }

    /** f_truncate: the bytes before the file pointer stay, and exactly the clusters they do not need are free again. */
    method FTruncate() returns (res: FResult)
      requires Valid()
      modifies fs, fs.win, this`sclust, this`chain, this`objsize, this`modified
      ensures Valid() && |fs.disk| == old(|fs.disk|)
      ensures if err == Ok && canWrite then res == Ok && Bytes() == old(Bytes())[..fptr]
              else res == (if err != Ok then err else Denied) && Bytes() == old(Bytes())
      ensures CutFrom(|chain|, old(Now()))
      ensures if err == Ok && canWrite && fptr < old(objsize) then |chain| == Need(fs.geo.csize, fptr) else chain == old(chain)
    {
      hide OnVolume, Clusters, WellFormed, PowerOfTwo, Frame, NoOnes, CountFree, Quot, Times;
      Uncut();
      if err != Ok {
        return err;
      }
      if !canWrite {
        return Denied;
      }
      res := Ok;
      if fptr < objsize {
        ghost var chain0, j := chain, Need(fs.geo.csize, fptr);
        CutPlace(fs.geo, chain, fptr, objsize);
        ContentShorter(fs.geo, fs.store, chain, fptr, objsize);
        objsize := fptr;
        if fptr == 0 {
          res := CutTo(0, FirstCluster(), 0);
        } else {
          res := CutBehind(j);
        }
        assert Bytes() == Content(fs.geo, fs.store, chain, fptr);
        ContentPrefix(fs.geo, fs.store, chain, chain0, fptr);
        modified := true;
      }
    }

    function FirstCluster(): (r: nat)
      requires Shape() && chain != []
      reads this, fs, fs.win
      ensures r == chain[0]
    {
      sclust
    }
  }

  /** A file's chain, and what lies around it: the table, the sectors, and what allocation goes by. */
  datatype Holding = Holding(chain: seq<nat>, fat: seq<nat>, store: seq<Sector>, room: Room)

  /** The file keeps its clusters, the ones it took are accounted for, and everything outside them is as it was; where it
      took none, so is the whole table. */
  ghost predicate Grew(g: Geometry, was: Holding, now: Holding) {
    && was.chain <= now.chain && Frame(g, was.chain, was.fat, was.store, now.chain, now.fat, now.store)
    && Took(g.nFatent, was.room, |now.chain| - |was.chain|, now.room)
    && (now.chain == was.chain ==> now.fat == was.fat)
    && (NoOnes(g.nFatent, was.fat) <==> NoOnes(g.nFatent, now.fat))
  }

  lemma GrewNot(g: Geometry, was: Holding)
    requires |was.fat| == g.nFatent && Clusters(g, was.chain)
    ensures Grew(g, was, was)
  {
    FrameSame(g, was.chain, was.fat, was.store);
  }

  lemma GrewByOne(g: Geometry, was: Holding, now: Holding)
    requires |now.chain| == |was.chain| + 1 && was.chain <= now.chain && Took(g.nFatent, was.room, 1, now.room)
    requires Frame(g, was.chain, was.fat, was.store, now.chain, now.fat, now.store)
    requires NoOnes(g.nFatent, was.fat) <==> NoOnes(g.nFatent, now.fat)
    ensures Grew(g, was, now)
  {
  }

  lemma GrewTwice(g: Geometry, was: Holding, mid: Holding, now: Holding)
    requires Grew(g, was, mid) && Grew(g, mid, now)
    ensures Grew(g, was, now)
  {
    hide Frame, NoOnes;
    FrameTrans(g, was.chain, was.fat, was.store, mid.chain, mid.fat, mid.store, now.chain, now.fat, now.store);
  }

  /** m clusters were taken. */
  predicate Took(n: nat, room0: Room, m: int, room: Room) {
    0 <= m <= Supply(n, room0) && room == Taken(n, room0, m)
  }

  /** Number of clusters that hold the first p bytes. */
  function Need(csize: nat, p: nat): nat
    requires csize > 0
  {
    if p == 0 then 0 else Quot((p - 1) / 512, csize) + 1
  }

  /** The first p bytes fit into as many clusters as they need, and into no fewer. */
  lemma NeedFits(csize: nat, p: nat, k: nat)
    requires csize > 0
    ensures p <= 512 * Times(csize, k) <==> Need(csize, p) <= k
  {
    if p > 0 {
      QuotBound((p - 1) / 512, csize, k);
    }
  }

  lemma HeldNeeds(g: Geometry, chain: seq<nat>, p: nat)
    requires g.csize > 0 && p <= 512 * Capacity(g, chain)
    ensures Need(g.csize, p) <= |chain|
  {
    NeedFits(g.csize, p, |chain|);
  }

  lemma NeedMonotone(g: Geometry, chain: seq<nat>, a: nat, b: nat)
    requires g.csize > 0 && a <= b <= 512 * Capacity(g, chain)
    ensures Need(g.csize, a) <= Need(g.csize, b) <= |chain|
  {
    NeedFits(g.csize, b, Need(g.csize, b));
    NeedFits(g.csize, a, Need(g.csize, b));
    NeedFits(g.csize, b, |chain|);
  }

  lemma TimesMonotone(k: nat, a: nat, b: nat)
    requires a <= b
    ensures Times(k, a) <= Times(k, b)
  {
    if a < b {
      TimesStep(k, a, b);
    }
  }

  lemma ClusterAt(g: Geometry, chain: seq<nat>, k: nat)
    requires g.csize > 0 && Quot(k, g.csize) < |chain|
    ensures k < Capacity(g, chain) && ClusterOf(g, chain, k) == chain[Quot(k, g.csize)]
  {
    QuotBound(k, g.csize, |chain|);
  }

  /** On a cluster boundary the next byte needs one more cluster than lie before it. */
  lemma NextNeeded(csize: nat, len: nat, p: nat)
    requires csize > 0 && p % 512 == 0 && Rem(p / 512, csize) == 0
    ensures Need(csize, p + 1) == Quot(p / 512, csize) + 1 && p == 512 * Times(csize, Quot(p / 512, csize))
    ensures p + 1 <= 512 * Times(csize, len) <==> Quot(p / 512, csize) < len
    ensures p == 0 ==> Quot(p / 512, csize) == 0
  {
    QuotRem(p / 512, csize);
    NeedFits(csize, p + 1, len);
  }

  /** How far a file could reach, and how far it reaches when it has grown. */
  lemma ReachedEnd(g: Geometry, was: Holding, now: Holding)
    requires g.csize > 0 && Grew(g, was, now)
    ensures var reach := 512 * Times(g.csize, |was.chain| + Supply(g.nFatent, was.room));
            && 512 * Capacity(g, now.chain) <= reach
            && (Supply(g.nFatent, now.room) == 0 ==> 512 * Capacity(g, now.chain) == reach)
  {
    hide Frame, NoOnes;
    TimesMonotone(g.csize, |now.chain|, |was.chain| + Supply(g.nFatent, was.room));
  }

  lemma OverwriteNext(bytes: seq<byte>, p: nat, data: seq<byte>, done: nat, n: nat)
    requires p <= |bytes| && done + n <= |data|
    ensures Overwrite(Overwrite(bytes, p, data[..done]), p + done, data[done..][..n]) == Overwrite(bytes, p, data[..done + n])
  {
    OverwriteTwice(bytes, p, data[..done], data[done..][..n]);
    assert data[..done + n] == data[..done] + data[done..][..n];
  }

  /** The clusters of a file up to its position p, which lies before its end. */
  lemma CutPlace(g: Geometry, chain: seq<nat>, p: nat, size: nat)
    requires g.csize > 0 && p < size <= 512 * Capacity(g, chain)
    ensures chain != [] && Need(g.csize, p) <= |chain| && p <= 512 * Times(g.csize, Need(g.csize, p))
    ensures p > 0 ==> (p - 1) / 512 < Capacity(g, chain) && Quot((p - 1) / 512, g.csize) < |chain|
  {
    NeedFits(g.csize, p, |chain|);
    NeedFits(g.csize, p, Need(g.csize, p));
  }

  /** The entries of a chain are links or end marks. */
  lemma ChainLinks(fat: seq<nat>, n: nat, chain: seq<nat>)
    requires IsChain(fat, n, chain)
    ensures forall c :: c in chain ==> fat[c] > 1
  {
    forall i | 0 <= i < |chain| ensures fat[chain[i]] > 1 {
      assert i + 1 < |chain| ==> fat[chain[i]] == chain[i + 1];
    }
  }

  /** A table that differs by a cut of the chain, entry by entry: the frame of the file, and what is free. */
  lemma CutFrame(g: Geometry, fat: seq<nat>, fat': seq<nat>, store: seq<Sector>, chain: seq<nat>, j: nat, eoc: nat)
    requires |fat| == |fat'| == g.nFatent && IsChain(fat, g.nFatent, chain) && Clusters(g, chain) && j < |chain| && eoc > 1
    requires forall c :: 0 <= c < g.nFatent ==>
               fat'[c] == if c in chain[j..] then 0 else if j > 0 && c == chain[j - 1] then eoc else fat[c]
    ensures Frame(g, chain, fat, store, chain, fat', store)
    ensures NoOnes(g.nFatent, fat) <==> NoOnes(g.nFatent, fat')
    ensures forall c :: 2 <= c < g.nFatent ==> (fat'[c] == 0 <==> fat[c] == 0 || c in chain[j..])
    ensures j > 0 ==> 2 <= chain[j - 1] < g.nFatent && fat[chain[j - 1]] != 0
  {
    assert j > 0 ==> chain[j - 1] in chain && fat[chain[j - 1]] == chain[j] != 0;
    assert forall c :: c in chain[j..] ==> c in chain;
    ChainLinks(fat, g.nFatent, chain);
  }

  /** What remove_chain makes of the table when it cuts a file's chain to j clusters. */
  lemma CutOutcome(g: Geometry, volEnd: nat, fat: seq<nat>, store: seq<Sector>, chain: seq<nat>, j: nat)
    requires WellFormed(g, volEnd) && |fat| == g.nFatent && IsChain(fat, g.nFatent, chain) && j < |chain|
    ensures var fat0 := if j == 0 then fat else fat[chain[j - 1] := Cut(g.fmt, EOC)];
            2 <= chain[j] < g.nFatent && ReleaseOk(fat0, g.nFatent, chain[j]) &&
            var fat' := Released(fat0, g.nFatent, chain[j]);
            && IsChain(fat', g.nFatent, chain[..j]) && Clusters(g, chain[..j])
            && Frame(g, chain, fat, store, chain, fat', store)
            && (NoOnes(g.nFatent, fat) <==> NoOnes(g.nFatent, fat'))
            && (forall c :: 2 <= c < g.nFatent ==> (fat'[c] == 0 <==> fat[c] == 0 || c in chain[j..]))
            && CountFree(fat', 2, g.nFatent) == CountFree(fat, 2, g.nFatent) + |chain| - j
    ensures j > 0 ==> 2 <= chain[j - 1] < g.nFatent && fat[chain[j - 1]] != 0
  {
    hide WellFormed, Cut, Released, ReleaseOk, CountFree, Frame, NoOnes;
    CutFacts(g, volEnd, 0);
    ChainClusters(g, fat, chain);
    CutEntries(fat, g.nFatent, chain, j, Cut(g.fmt, EOC));
    CutCount(fat, g.nFatent, chain, j, Cut(g.fmt, EOC));
    CutFrame(g, fat, CutFrom(fat, g.nFatent, chain, j, Cut(g.fmt, EOC)), store, chain, j, Cut(g.fmt, EOC));
  }

  /** The byte before a target in cluster m, and the target's sector. */
  lemma SeekCluster(g: Geometry, volEnd: nat, chain: seq<nat>, m: nat, rest: nat)
    requires WellFormed(g, volEnd) && Clusters(g, chain) && m < |chain| && 0 < rest <= 512 * g.csize
    ensures var target := 512 * Times(g.csize, m) + rest;
            && target <= 512 * Capacity(g, chain) && Need(g.csize, target) == m + 1
            && (target - 1) / 512 < Capacity(g, chain) && ClusterOf(g, chain, (target - 1) / 512) == chain[m]
            && (rest % 512 != 0 ==>
                  && target / 512 < Capacity(g, chain) && chain[m] < TWO32
                  && SectorOf(g, chain, target / 512) == Clst2Sect(g, chain[m]) + rest / 512)
            && target % 512 == rest % 512
  {
    hide Times, Quot, Rem, WellFormed, Clusters, SectorOf, ClusterOf, Clst2Sect;
    var base := Times(g.csize, m);
    TimesStep(g.csize, m, |chain|);
    Offset512(base, rest);
    Below512(rest, g.csize);
    SectorInCluster(g, chain, m, (rest - 1) / 512);
    if rest % 512 != 0 {
      SectorInCluster(g, chain, m, rest / 512);
      SectorCode(g, volEnd, chain, base + rest / 512);
    }
  }

  /** Sector j of cluster m of a chain. */
  lemma SectorInCluster(g: Geometry, chain: seq<nat>, m: nat, j: nat)
    requires m < |chain| && j < g.csize
    ensures var k := Times(g.csize, m) + j;
            k < Capacity(g, chain) && ClusterOf(g, chain, k) == chain[m] && Quot(k, g.csize) == m && Rem(k, g.csize) == j
  {
    hide Times, Quot, Rem;
    TimesStep(g.csize, m, |chain|);
    QuotRemUnique(Times(g.csize, m) + j, g.csize, m, j);
  }

  lemma Below512(rest: nat, k: nat)
    requires 0 < rest <= 512 * k
    ensures (rest - 1) / 512 < k && (rest % 512 != 0 ==> rest / 512 < k)
  {
  }

  lemma TimesNext(k: nat, m: nat)
    ensures Times(k, m + 1) == Times(k, m) + k
  {
  }

  lemma Offset512(base: nat, rest: nat)
    requires rest > 0
    ensures (512 * base + rest - 1) / 512 == base + (rest - 1) / 512
    ensures (512 * base + rest) / 512 == base + rest / 512 && (512 * base + rest) % 512 == rest % 512
  {
  }

  /** The end of the chain, reached when no cluster can be added: the byte before it lies in the last cluster. */
  lemma EndOfChain(g: Geometry, chain: seq<nat>, m: nat)
    requires g.csize > 0 && m + 1 == |chain|
    ensures var p := 512 * Times(g.csize, m + 1);
            p > 0 && p % 512 == 0 && p == 512 * Capacity(g, chain) && Need(g.csize, p) == m + 1
            && (p - 1) / 512 < Capacity(g, chain) && ClusterOf(g, chain, (p - 1) / 512) == chain[m]
  {
    var base := Times(g.csize, m);
    assert Times(g.csize, m + 1) == base + g.csize;
    assert (512 * (base + g.csize) - 1) / 512 == base + g.csize - 1;
    QuotRemUnique(base + g.csize - 1, g.csize, m, g.csize - 1);
  }

  /** Fewer bytes of the same chain. */
  lemma ContentShorter(g: Geometry, store: seq<Sector>, chain: seq<nat>, size: nat, larger: nat)
    requires WellFormed(g, |store|) && Clusters(g, chain) && size <= larger <= 512 * Capacity(g, chain)
    ensures Content(g, store, chain, larger)[..size] == Content(g, store, chain, size)
  {
  }

  /** A target behind cluster m that the file holds: the chain goes on. */
  lemma TargetAhead(k: nat, m: nat, n: nat, target: nat, size: nat)
    requires k > 0 && size <= 512 * Times(k, n) && 512 * Times(k, m + 1) < target
    ensures target <= size ==> m + 1 < n
  {
    if target <= size && n < m + 1 {
      TimesStep(k, n, m + 1);
    }
  }

  /** The start of the current cluster in bytes, by the mask of the code. */
  lemma SeekBase(k: nat, x: nat, y: nat)
    requires PowerOfTwo(k) && Quot(y, 512 * k) >= Quot(x, 512 * k)
    ensures x - And(x, 512 * k - 1) == 512 * Times(k, Quot(x / 512, k)) <= y
  {
    hide PowerOfTwo, And, Quot, Rem, Times;
    PositivePower(k);
    PowerOf512(k);
    MaskIsRem(x, 512 * k);
    QuotRem(x, 512 * k);
    QuotRem(y, 512 * k);
    QuotBytes(x, k);
    TimesScale(512, k, Quot(x / 512, k));
    if Quot(x, 512 * k) < Quot(y, 512 * k) {
      TimesStep(512 * k, Quot(x, 512 * k), Quot(y, 512 * k));
    }
  }

  lemma PositivePower(k: nat)
    requires PowerOfTwo(k)
    ensures k > 0
  {
  }

  lemma PowerOf512(k: nat)
    requires PowerOfTwo(k)
    ensures PowerOfTwo(512 * k)
  {
    hide PowerOfTwo;
    Doubled(k);
    Doubled(2 * k);
    Doubled(4 * k);
    Doubled(8 * k);
    Doubled(16 * k);
    Doubled(32 * k);
    Doubled(64 * k);
    Doubled(128 * k);
    Doubled(256 * k);
  }

  lemma Doubled(k: nat)
    requires PowerOfTwo(k)
    ensures PowerOfTwo(2 * k)
  {
    assert k > 0 && 2 * k / 2 == k;
  }

  /** A longer chain with the same beginning holds the same bytes. */
  lemma ContentPrefix(g: Geometry, store: seq<Sector>, chain: seq<nat>, chain': seq<nat>, size: nat)
    requires WellFormed(g, |store|) && Clusters(g, chain) && Clusters(g, chain') && chain <= chain'
    requires size <= 512 * Capacity(g, chain)
    ensures size <= 512 * Capacity(g, chain') && Content(g, store, chain', size) == Content(g, store, chain, size)
  {
    if |chain| < |chain'| {
      TimesStep(g.csize, |chain|, |chain'|);
    }
    var a, b := Content(g, store, chain', size), Content(g, store, chain, size);
    forall i | 0 <= i < size ensures a[i] == b[i] {
      QuotBound(i / 512, g.csize, |chain|);
      assert a[i] == ByteAt(g, store, chain', i) && b[i] == ByteAt(g, store, chain, i);
    }
  }

  lemma FrameSame(g: Geometry, chain: seq<nat>, fat: seq<nat>, store: seq<Sector>)
    requires |fat| == g.nFatent && Clusters(g, chain)
    ensures Frame(g, chain, fat, store, chain, fat, store)
  {
  }

  /** A file takes a free cluster behind its chain. */
  lemma TakeCluster(g: Geometry, volEnd: nat, fat: seq<nat>, store: seq<Sector>, chain: seq<nat>, r: nat)
    requires WellFormed(g, volEnd) && |fat| == g.nFatent && IsChain(fat, g.nFatent, chain)
    requires 2 <= r < g.nFatent && fat[r] == 0
    ensures var eoc := Cut(g.fmt, EOC);
            var fat' := if chain == [] then fat[r := eoc] else fat[r := eoc][chain[|chain| - 1] := r];
            && IsChain(fat', g.nFatent, chain + [r]) && Clusters(g, chain + [r])
            && (NoOnes(g.nFatent, fat) <==> NoOnes(g.nFatent, fat'))
            && Frame(g, chain, fat, store, chain + [r], fat', store)
  {
    hide WellFormed, Cut;
    CutFacts(g, volEnd, r);
    ChainAppend(fat, g.nFatent, chain, r, Cut(g.fmt, EOC));
    ChainLinks(fat, g.nFatent, chain);
    var eoc := Cut(g.fmt, EOC);
    var fat' := if chain == [] then fat[r := eoc] else fat[r := eoc][chain[|chain| - 1] := r];
    assert chain == [] ==> chain + [r] == [r];
    ChainClusters(g, fat', chain + [r]);
    assert chain != [] ==> chain[|chain| - 1] in chain;
    forall c | 2 <= c < g.nFatent ensures fat'[c] == 1 <==> fat[c] == 1 {
    }
  }

  /** Nothing can be taken. */
  lemma NoneToTake(fs: FatFs)
    requires fs.Valid()
    ensures |fs.fat| == fs.geo.nFatent
    ensures Supply(fs.geo.nFatent, RoomOf(fs)) == 0 <==> fs.freeClst == 0 || Full(fs.geo.nFatent, fs.fat)
    ensures forall c :: 2 <= c < fs.geo.nFatent && fs.fat[c] == 0 ==> !Full(fs.geo.nFatent, fs.fat)
  {
    hide FatFs.WindowOk;
    TableFacts(fs, 0);
    NoSupply(fs.geo.nFatent, fs.freeClst, fs.fat);
  }

  /** What the code computes for the sector of a file. */
  lemma SectorCode(g: Geometry, volEnd: nat, chain: seq<nat>, k: nat)
    requires WellFormed(g, volEnd) && Clusters(g, chain) && k < Capacity(g, chain)
    ensures ClusterOf(g, chain, k) < TWO32 && Clst2Sect(g, ClusterOf(g, chain, k)) != 0
    ensures Clst2Sect(g, ClusterOf(g, chain, k)) + Rem(k, g.csize) == SectorOf(g, chain, k)
  {
    ClusterInDataArea(g, volEnd, ClusterOf(g, chain, k));
  }

  lemma PartCursor(p: nat, m: nat)
    requires 0 < m && p % 512 + m <= 512
    ensures (p + m - 1) / 512 == p / 512
    ensures (p + m) % 512 != 0 ==> (p + m) / 512 == p / 512
  {
  }

  /** After a run of whole sectors the byte before the file pointer is still in the same cluster. */
  lemma RunCursor(g: Geometry, chain: seq<nat>, k: nat, cc: nat)
    requires g.csize > 0 && Clusters(g, chain) && k < Capacity(g, chain) && 0 < cc && Rem(k, g.csize) + cc <= g.csize
    ensures (512 * (k + cc) - 1) / 512 == k + cc - 1 < Capacity(g, chain) && 512 * (k + cc) % 512 == 0
    ensures ClusterOf(g, chain, k + cc - 1) == ClusterOf(g, chain, k)
  {
    SectorRun(g, chain, k, cc - 1);
  }

  /** The next sector of the same cluster. */
  lemma StepInside(g: Geometry, chain: seq<nat>, k: nat)
    requires g.csize > 0 && k < Capacity(g, chain) && Rem(k + 1, g.csize) != 0
    ensures k + 1 < Capacity(g, chain) && ClusterOf(g, chain, k + 1) == ClusterOf(g, chain, k)
  {
    QuotRem(k, g.csize);
    if Rem(k, g.csize) + 1 == g.csize {
      QuotRemUnique(k + 1, g.csize, Quot(k, g.csize) + 1, 0);
    }
    QuotRun(k, 1, g.csize);
    QuotBound(k, g.csize, |chain|);
    QuotBound(k + 1, g.csize, |chain|);
  }

  /** The first sector of the next cluster: the chain goes on there, or ends. */
  lemma StepAcross(g: Geometry, chain: seq<nat>, k: nat)
    requires g.csize > 0 && k < Capacity(g, chain) && Rem(k + 1, g.csize) == 0
    ensures Quot(k + 1, g.csize) == Quot(k, g.csize) + 1 <= |chain|
    ensures chain[Quot(k, g.csize)] == ClusterOf(g, chain, k)
    ensures k + 1 < Capacity(g, chain) <==> Quot(k, g.csize) + 1 < |chain|
  {
    QuotNext(k, g.csize);
    QuotBound(k, g.csize, |chain|);
    QuotBound(k + 1, g.csize, |chain|);
  }
}
