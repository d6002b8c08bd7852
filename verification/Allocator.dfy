/** Stretching, creating, removing and counting cluster chains. */
module Allocator {
  import opened Bits
  import opened FatCodec
  import opened Geometry
  import opened Volume
  import opened Chains

  const EOC: nat := 0xFFFF_FFFF

  /** The free count is unknown (out of range) or exact. */
  ghost predicate FreeCountOk(n: nat, free: nat, fat: seq<nat>) {
    n <= |fat| && (free > n - 2 || free == CountFree(fat, 2, n))
  }

  /** No cluster is free. */
  ghost predicate Full(n: nat, fat: seq<nat>) {
    n <= |fat| && forall c :: 2 <= c < n ==> fat[c] != 0
  }

  /** No entry is 1, which is no link. */
  ghost predicate NoOnes(n: nat, fat: seq<nat>) {
    n <= |fat| && forall c :: 2 <= c < n ==> fat[c] != 1
  }

  /** These in the entries of clusters 2 to n - 1. */
  lemma TableMeans(n: nat, fat: seq<nat>, c: nat)
    requires 2 <= c < n <= |fat|
    ensures Full(n, fat) ==> fat[c] != 0
    ensures NoOnes(n, fat) ==> fat[c] != 1
    ensures fat[c] != 0 && Full(n, fat[c := 1]) ==> Full(n, fat)
    ensures fat[c] != 1 && NoOnes(n, fat[c := 0]) ==> NoOnes(n, fat)
    ensures Full(n, seq(n, _ => 1)) && NoOnes(n, seq(n, _ => 0))
  {
    var zeros := fat[c := 0];
    forall d | 2 <= d < n && NoOnes(n, zeros) && fat[c] != 1 ensures fat[d] != 1 {
      assert zeros[d] != 1;
    }
    var ones := fat[c := 1];
    forall d | 2 <= d < n && Full(n, ones) && fat[c] != 0 ensures fat[d] != 0 {
      assert ones[d] != 0;
    }
  }

  /** What allocation goes by: the free count in memory, unknown when it exceeds n - 2, and the number of free entries. */
  datatype Room = Room(known: nat, free: nat)

  /** How many clusters can still be taken. */
  function Supply(n: nat, room: Room): (r: nat)
    ensures r <= room.free
  {
    if room.known + 2 <= n then Min(room.known, room.free) else room.free
  }

  /** Taking a cluster lowers a count in range; giving one back raises it, but not past n - 2. */
  function Taken(n: nat, room: Room, m: nat): Room
    requires m <= Supply(n, room)
  {
    Room(if room.known + 2 <= n then room.known - m else room.known, room.free - m)
  }

  function Given(n: nat, room: Room, m: nat): Room {
    Room(if room.known + 2 < n then Min(room.known + m, n - 2) else room.known, room.free + m)
  }

  ghost function RoomOf(fs: FatFs): (r: Room)
    requires fs.geo.nFatent <= |fs.fat|
    reads fs
  {
    Room(fs.freeClst, CountFree(fs.fat, 2, fs.geo.nFatent))
  }

  /** Nothing can be taken exactly when the count says so or nothing is free. */
  lemma {:induction false} NoSupply(n: nat, known: nat, fat: seq<nat>)
    requires 2 <= n <= |fat|
    ensures Supply(n, Room(known, CountFree(fat, 2, n))) == 0 <==> known == 0 || Full(n, fat)
  {
    if CountFree(fat, 2, n) == 0 {
      FullCount(fat, n);
    } else if Full(n, fat) {
      NoneFree(fat, 2, n);
    }
  }

  /** The value an end mark is cut to is past every cluster number; a cluster number is not cut. */
  lemma CutFacts(g: Geometry, volEnd: nat, c: nat)
    requires WellFormed(g, volEnd) && c < g.nFatent
    ensures Cut(g.fmt, EOC) >= g.nFatent && Cut(g.fmt, EOC) > 1
    ensures Cut(g.fmt, c) == c
  {
  }

  lemma {:induction false} FullCount(fat: seq<nat>, n: nat)
    requires 2 <= n <= |fat| && CountFree(fat, 2, n) == 0
    ensures Full(n, fat)
  {
    forall c | 2 <= c < n ensures fat[c] != 0 {
      if fat[c] == 0 {
        CountPositive(fat, 2, n, c);
      }
    }
  }

  /** create_chain's search: the first free cluster behind scl, around the table, scl itself last.
      0 when there is none, 1 when an entry of 1 is met first. */
  method FindFree(fs: FatFs, scl: nat) returns (ncl: nat)
    requires fs.Valid() && 1 <= scl < fs.geo.nFatent
    modifies fs`disk, fs`wflag, fs`winsect, fs.win
    ensures fs.Valid() && |fs.disk| == old(|fs.disk|)
    ensures ncl == 0 || ncl == 1 || (2 <= ncl < fs.geo.nFatent && fs.fat[ncl] == 0)
    ensures ncl == 0 ==> Full(fs.geo.nFatent, fs.fat)
    ensures ncl == 1 ==> exists c :: 2 <= c < fs.geo.nFatent && fs.fat[c] == 1
    ensures ncl > scl ==> forall c :: scl < c < ncl ==> fs.fat[c] != 0
    ensures 2 <= ncl <= scl ==> forall c :: scl < c < fs.geo.nFatent || 2 <= c < ncl ==> fs.fat[c] != 0
    ensures old(fs.Mirrored()) ==> fs.Mirrored()
  {
    hide FatFs.WindowOk;
    var n := fs.geo.nFatent;
    ncl := scl;
    ghost var wrapped := false;
    while true
      invariant fs.Valid() && |fs.disk| == old(|fs.disk|) && (old(fs.Mirrored()) ==> fs.Mirrored())
      invariant !wrapped ==> scl <= ncl < n && forall c :: scl < c <= ncl ==> fs.fat[c] != 0
      invariant wrapped ==> 2 <= ncl < scl && forall c :: scl < c < n || 2 <= c <= ncl ==> fs.fat[c] != 0
      decreases if wrapped then scl - ncl else n + n - ncl
    {
      ncl := ncl + 1;
      if ncl >= n {
        ncl := 2;
        if ncl > scl {
          return 0;
        }
        wrapped := true;
      }
      var cs := fs.GetFat(ncl);
      if cs == 0 {
        return ncl;
      }
      if cs == 1 {
        return 1;
      }
      if ncl == scl {
        return 0;
      }
    }
  }

  /** Counts by number: the known one bounds what can be taken while it is at most n - 2, and is kept up to date then. */
  lemma RoomMeans(n: nat, known: nat, free: nat, m: nat)
    requires 2 <= n
    ensures Supply(n, Room(known, free)) == if known <= n - 2 && known < free then known else free
    ensures m <= Supply(n, Room(known, free)) ==>
              Taken(n, Room(known, free), m) == Room(if known <= n - 2 then known - m else known, free - m)
    ensures Given(n, Room(known, free), m) ==
            Room(if known >= n - 2 then known else if known + m <= n - 2 then known + m else n - 2, free + m)
  {
  }

  /** The cluster create_chain takes: the one behind clst if it is free, else what the search finds. */
  method PickFree(fs: FatFs, clst: nat) returns (ncl: nat)
    requires fs.Valid() && (clst == 0 || 2 <= clst < fs.geo.nFatent)
    modifies fs`disk, fs`wflag, fs`winsect, fs.win
    ensures fs.Valid() && |fs.disk| == old(|fs.disk|)
    ensures ncl == 0 || ncl == 1 || (2 <= ncl < fs.geo.nFatent && fs.fat[ncl] == 0)
    ensures ncl == 0 ==> Full(fs.geo.nFatent, fs.fat)
    ensures ncl == 1 ==> exists c :: 2 <= c < fs.geo.nFatent && fs.fat[c] == 1
    ensures clst != 0 ==>
              var next := if clst + 1 < fs.geo.nFatent then clst + 1 else 2;
              next < |fs.fat| && (fs.fat[next] == 0 ==> ncl == next)
    ensures old(fs.Mirrored()) ==> fs.Mirrored()
  {
    hide FatFs.WindowOk, Full, Cut;
    TableFacts(fs, 0);
    var n := fs.geo.nFatent;
    var scl := clst;
    if clst == 0 {
      scl := fs.lastClst;
      if scl == 0 || scl >= n {
        scl := 1;
      }
    } else {
      ncl := scl + 1;
      if ncl >= n {
        ncl := 2;
      }
      var cs := fs.GetFat(ncl);
      if cs == 1 {
        return 1;
      }
      if cs == 0 {
        return ncl;
      }
      cs := fs.lastClst;
      if 2 <= cs < n {
        scl := cs;
      }
    }
    ncl := FindFree(fs, scl);
  }

  /** A cluster taken is one fewer free. */
  lemma TakeCount(fat: seq<nat>, n: nat, clst: nat, r: nat, eoc: nat)
    requires n <= |fat| && 2 <= r < n && fat[r] == 0 && eoc > 1
    requires clst == 0 || (2 <= clst < n && fat[clst] != 0)
    ensures var fat' := if clst == 0 then fat[r := eoc] else fat[r := eoc][clst := r];
            CountFree(fat', 2, n) == CountFree(fat, 2, n) - 1 && CountFree(fat, 2, n) > 0 && fat'[r] != 0
  {
    CountUpdate(fat, 2, n, r, eoc);
    CountPositive(fat, 2, n, r);
    if clst != 0 {
      CountUpdate(fat[r := eoc], 2, n, clst, r);
    }
  }

  /** create_chain: follow the link of clst, or link a free cluster behind it (or behind nothing when clst is 0). */
  method CreateChain(fs: FatFs, clst: nat) returns (r: nat)
    requires fs.Valid()
    modifies fs`disk, fs`wflag, fs`winsect, fs`area, fs`fat, fs`lastClst, fs`freeClst, fs.win
    ensures fs.Valid() && |fs.disk| == old(|fs.disk|)
    ensures var n, fat := fs.geo.nFatent, old(fs.fat);
            var cs := if 2 <= clst < n then fat[clst] else 1;
            if clst != 0 && cs < 2 then r == 1 && fs.fat == fat
            else if clst != 0 && cs < n then r == cs && fs.fat == fat
            else if r == 0 then fs.fat == fat && (old(fs.freeClst) == 0 || Full(n, fat))
            else if r == 1 then fs.fat == fat && exists c :: 2 <= c < n && fat[c] == 1
            else
              && 2 <= r < n && fat[r] == 0
              && fs.fat == (if clst == 0 then fat[r := Cut(fs.geo.fmt, EOC)] else fat[r := Cut(fs.geo.fmt, EOC)][clst := r])
    ensures if fs.fat == old(fs.fat) then fs.freeClst == old(fs.freeClst)
            else Supply(fs.geo.nFatent, old(RoomOf(fs))) > 0 && RoomOf(fs) == Taken(fs.geo.nFatent, old(RoomOf(fs)), 1)
    ensures fs.lastClst == if fs.fat == old(fs.fat) then old(fs.lastClst) else r
    ensures fs.fat != old(fs.fat) && clst != 0 ==>
              var next := if clst + 1 < fs.geo.nFatent then clst + 1 else 2;
              old(fs.fat)[next] == 0 ==> r == next
    ensures FreeCountOk(fs.geo.nFatent, old(fs.freeClst), old(fs.fat)) ==> FreeCountOk(fs.geo.nFatent, fs.freeClst, fs.fat)
    ensures old(fs.Mirrored()) ==> fs.Mirrored()
  {
    hide FatFs.WindowOk, CountFree, Full, FreeCountOk;
    TableFacts(fs, 0);
    var n := fs.geo.nFatent;
    if clst != 0 {
      var cs := fs.GetFat(clst);
      if cs < 2 {
        return 1;
      }
      if cs < n {
        return cs;
      }
    }
    if fs.freeClst == 0 {
      return 0;
    }
    r := PickFree(fs, clst);
    if r >= 2 {
      LinkNew(fs, clst, r);
    }
  }

  /** The end of create_chain: r is marked as the end of a chain and linked behind clst. */
  method LinkNew(fs: FatFs, clst: nat, r: nat)
    requires fs.Valid() && 2 <= r < fs.geo.nFatent && fs.fat[r] == 0 && fs.freeClst != 0
    requires clst == 0 || (2 <= clst < fs.geo.nFatent && fs.fat[clst] != 0)
    modifies fs`disk, fs`wflag, fs`winsect, fs`area, fs`fat, fs`lastClst, fs`freeClst, fs.win
    ensures fs.Valid() && |fs.disk| == old(|fs.disk|) && (old(fs.Mirrored()) ==> fs.Mirrored())
    ensures var fat, eoc := old(fs.fat), Cut(fs.geo.fmt, EOC);
            fs.fat == if clst == 0 then fat[r := eoc] else fat[r := eoc][clst := r]
    ensures fs.fat != old(fs.fat) && fs.lastClst == r
    ensures Supply(fs.geo.nFatent, old(RoomOf(fs))) > 0 && RoomOf(fs) == Taken(fs.geo.nFatent, old(RoomOf(fs)), 1)
    ensures FreeCountOk(fs.geo.nFatent, old(fs.freeClst), old(fs.fat)) ==> FreeCountOk(fs.geo.nFatent, fs.freeClst, fs.fat)
  {
    TableFacts(fs, r);
    hide FatFs.WindowOk, CountFree, Full, Cut;
    var n := fs.geo.nFatent;
    ghost var fat := fs.fat;
    var ok := fs.PutFat(r, EOC);
    if clst != 0 {
      ok := fs.PutFat(clst, r);
    }
    TakeCount(fat, n, clst, r, Cut(fs.geo.fmt, EOC));
    fs.lastClst := r;
    if fs.freeClst <= n - 2 {
      fs.freeClst := fs.freeClst - 1;
    }
  }

  lemma TableFacts(fs: FatFs, c: nat)
    requires fs.Valid()
    ensures 3 <= fs.geo.nFatent == |fs.fat|
    ensures Cut(fs.geo.fmt, EOC) >= fs.geo.nFatent && Cut(fs.geo.fmt, EOC) > 1 && Cut(fs.geo.fmt, 0) == 0
    ensures c < fs.geo.nFatent ==> Cut(fs.geo.fmt, c) == c
  {
    if c < fs.geo.nFatent {
      CutFacts(fs.geo, |fs.disk|, c);
    }
    CutFacts(fs.geo, |fs.disk|, 0);
  }

  /** The walk of remove_chain: free everything from clst on, whatever the FAT holds. Each step frees an entry in use,
      so the walk ends even where the links run in a circle. */
  method FreeFrom(fs: FatFs, clst: nat) returns (res: FResult)
    requires fs.Valid() && 2 <= clst < fs.geo.nFatent
    modifies fs`disk, fs`wflag, fs`winsect, fs`area, fs`fat, fs`freeClst, fs.win
    ensures fs.Valid() && |fs.disk| == old(|fs.disk|)
    ensures fs.fat == Released(old(fs.fat), fs.geo.nFatent, clst)
    ensures res == if ReleaseOk(old(fs.fat), fs.geo.nFatent, clst) then Ok else IntErr
    ensures Raised(fs.geo.nFatent, old(RoomOf(fs)), RoomOf(fs))
    ensures old(fs.Mirrored()) ==> fs.Mirrored()
  {
    hide FatFs.WindowOk, CountFree, Used, Released, ReleaseOk, Cut;
    TableFacts(fs, clst);
    var n := fs.geo.nFatent;
    ghost var fat0, room0 := fs.fat, RoomOf(fs);
    var cl := clst;
    while true
      invariant fs.Valid() && |fs.disk| == old(|fs.disk|) && (old(fs.Mirrored()) ==> fs.Mirrored())
      invariant 2 <= cl < n
      invariant Released(fat0, n, clst) == Released(fs.fat, n, cl) && ReleaseOk(fat0, n, clst) == ReleaseOk(fs.fat, n, cl)
      invariant Raised(n, room0, RoomOf(fs))
      decreases Used(fs.fat)
    {
      var nxt := fs.GetFat(cl);
      ReleaseStep(fs.fat, n, cl);
      if nxt == 0 {
        return Ok;
      }
      if nxt == 1 {
        return IntErr;
      }
      var ok := fs.PutFat(cl, 0);
      if fs.freeClst < n - 2 {
        fs.freeClst := fs.freeClst + 1;
      }
      if nxt >= n {
        return Ok;
      }
      cl := nxt;
    }
  }

  /** Some clusters were given back. */
  ghost predicate Raised(n: nat, room0: Room, room: Room) {
    room0.free <= room.free && room == Given(n, room0, room.free - room0.free)
  }

  /** remove_chain: end the chain at pclst (unless it is 0) and free everything from clst on. */
  method RemoveChain(fs: FatFs, clst: nat, pclst: nat) returns (res: FResult)
    requires fs.Valid()
    modifies fs`disk, fs`wflag, fs`winsect, fs`area, fs`fat, fs`freeClst, fs.win
    ensures fs.Valid() && |fs.disk| == old(|fs.disk|)
    ensures var n, fat := fs.geo.nFatent, old(fs.fat);
            if !(2 <= clst < n) || !(pclst == 0 || 2 <= pclst < n) then res == IntErr && fs.fat == fat
            else
              var fat0 := if pclst == 0 then fat else fat[pclst := Cut(fs.geo.fmt, EOC)];
              fs.fat == Released(fat0, n, clst) && res == if ReleaseOk(fat0, n, clst) then Ok else IntErr
    ensures (2 <= pclst < fs.geo.nFatent ==> old(fs.fat)[pclst] != 0) ==> Raised(fs.geo.nFatent, old(RoomOf(fs)), RoomOf(fs))
    ensures FreeCountOk(fs.geo.nFatent, old(fs.freeClst), old(fs.fat))
            && (2 <= pclst < fs.geo.nFatent ==> old(fs.fat)[pclst] != 0) ==>
              FreeCountOk(fs.geo.nFatent, fs.freeClst, fs.fat)
    ensures old(fs.Mirrored()) ==> fs.Mirrored()
  {
    hide FatFs.WindowOk, CountFree, Released, ReleaseOk;
    var n := fs.geo.nFatent;
    if clst < 2 || clst >= n {
      return IntErr;
    }
    if pclst != 0 {
      if 2 <= pclst < n {
        TableFacts(fs, pclst);
        CountUpdate(fs.fat, 2, n, pclst, Cut(fs.geo.fmt, EOC));
      }
      var ok := fs.PutFat(pclst, EOC);
      if !ok {
        return IntErr;
      }
    }
    res := FreeFrom(fs, clst);
  }

  /** f_getfree on a 12-bit FAT: count by get_fat, stopping at an entry of 1. */
  method CountBy12(fs: FatFs) returns (nfree: nat, res: FResult, ghost stop: nat)
    requires fs.Valid()
    modifies fs`disk, fs`wflag, fs`winsect, fs.win
    ensures fs.Valid() && |fs.disk| == old(|fs.disk|)
    ensures 2 <= stop <= fs.geo.nFatent && nfree == CountFree(fs.fat, 2, stop)
    ensures forall c :: 2 <= c < stop ==> fs.fat[c] != 1
    ensures if stop < fs.geo.nFatent then res == IntErr && fs.fat[stop] == 1 else res == Ok
    ensures old(fs.Mirrored()) ==> fs.Mirrored()
  {
    hide FatFs.WindowOk;
    TableFacts(fs, 0);
    var clst := 2;
    nfree, res, stop := 0, Ok, 2;
    while clst < fs.geo.nFatent
      invariant fs.Valid() && |fs.disk| == old(|fs.disk|) && (old(fs.Mirrored()) ==> fs.Mirrored())
      invariant 2 <= clst == stop <= fs.geo.nFatent && res == Ok
      invariant nfree == CountFree(fs.fat, 2, clst)
      invariant forall c :: 2 <= c < clst ==> fs.fat[c] != 1
    {
      var stat := fs.GetFat(clst);
      if stat == 1 {
        res := IntErr;
        return;
      }
      if stat == 0 {
        nfree := nfree + 1;
      }
      clst := clst + 1;
      stop := clst;
    }
  }

  /** done entries are counted; the next one lies at offset i, in sector sect if that is to be fetched, else in the one before. */
  ghost predicate ScanAt(g: Geometry, done: nat, sect: nat, i: nat) {
    var o := Offset(g.fmt, done);
    i == o % 512 && sect == g.fatbase + o / 512 + (if i == 0 then 0 else 1)
  }

  lemma ScanNext(g: Geometry, done: nat, sect: nat, i: nat)
    requires g.fmt != Fat12 && ScanAt(g, done, sect, i)
    ensures ScanAt(g, done + 1, if i == 0 then sect + 1 else sect, (i + Width(g.fmt)) % 512)
  {
    hide Offset;
    Steady(g.fmt, done);
    NextInSector(Offset(g.fmt, done), Width(g.fmt));
  }

  lemma Steady(fmt: FatType, c: nat)
    requires fmt != Fat12
    ensures Offset(fmt, c + 1) == Offset(fmt, c) + Width(fmt) && Offset(fmt, c) % Width(fmt) == 0
  {
    EntryRoom(fmt, c);
  }

  lemma RoomLeft(o: nat, w: nat)
    requires (w == 2 || w == 4) && o % w == 0
    ensures o % 512 + w <= 512
  {
    if w == 2 {
      DivModUnique(o, 512, o / 2 / 256, 2 * (o / 2 % 256));
    } else {
      DivModUnique(o, 512, o / 4 / 128, 4 * (o / 4 % 128));
    }
  }

  lemma NextInSector(o: nat, w: nat)
    requires (w == 2 || w == 4) && o % w == 0
    ensures (o + w) % 512 == (o % 512 + w) % 512 == if o % 512 + w == 512 then 0 else o % 512 + w
    ensures (o + w) / 512 == if o % 512 + w == 512 then o / 512 + 1 else o / 512
    ensures o % 512 + w <= 512
  {
    var q, r := o / 512, o % 512;
    RoomLeft(o, w);
    if r + w == 512 {
      DivModUnique(o + w, 512, q + 1, 0);
    } else {
      DivModUnique(o + w, 512, q, r + w);
    }
  }

  /** Where the entry lies that the scan stands at, and what its bytes mean. */
  lemma ScanFacts(fs: FatFs, done: nat, sect: nat, i: nat)
    requires fs.Valid() && fs.geo.fmt != Fat12 && done < fs.geo.nFatent && ScanAt(fs.geo, done, sect, i)
    ensures done < |fs.fat|
    ensures var g, top, o := fs.geo, if i == 0 then sect else sect - 1, Offset(fs.geo.fmt, done);
            && g.fatbase <= top < |fs.disk| && !g.InMirror(top)
            && o == 512 * (top - g.fatbase) + i && o + Width(g.fmt) <= g.fsize * 512 && OneSector(g.fmt, o)
            && top == g.fatbase + o / 512
            && fs.fat[done] == if g.fmt == Fat16 then Word(fs.area, o) else DWord(fs.area, o) % 0x1000_0000
  {
    DecodedEntry(fs.geo, fs.area, fs.fat, done);
    EntryInFirstFat(fs.geo, |fs.disk|, done);
  }

  /** Read the entry the scan stands at, fetching its sector first where it begins one. */
  method ScanEntry(fs: FatFs, sect: nat, i: nat, ghost done: nat) returns (val: nat)
    requires fs.Valid() && fs.geo.fmt != Fat12 && done < fs.geo.nFatent && ScanAt(fs.geo, done, sect, i)
    requires i != 0 ==> fs.winsect == sect - 1
    modifies fs`disk, fs`wflag, fs`winsect, fs.win
    ensures fs.Valid() && |fs.disk| == old(|fs.disk|) && (old(fs.Mirrored()) ==> fs.Mirrored())
    ensures val == fs.fat[done] && fs.winsect == if i == 0 then sect else sect - 1
  {
    hide FatFs.WindowOk, Decodes, ScanAt, WellFormed, OneSector, Offset, Width, Word, DWord;
    ScanFacts(fs, done, sect, i);
    var top := if i == 0 then sect else sect - 1;
    var o := 512 * (top - fs.geo.fatbase) + i;
    if i == 0 {
      fs.MoveWindow(sect);
    }
    val := fs.ReadAligned(o);
    if fs.geo.fmt == Fat32 {
      val := val % 0x1000_0000;
    }
  }

  /** f_getfree on a 16 or 32-bit FAT: count over the raw sectors, reserved entries 0 and 1 included. */
  method CountBySector(fs: FatFs) returns (nfree: nat)
    requires fs.Valid() && fs.geo.fmt != Fat12
    modifies fs`disk, fs`wflag, fs`winsect, fs.win
    ensures fs.Valid() && |fs.disk| == old(|fs.disk|)
    ensures nfree == CountFree(fs.fat, 0, fs.geo.nFatent)
    ensures old(fs.Mirrored()) ==> fs.Mirrored()
  {
    hide FatFs.WindowOk, Width;
    var sect: nat, i: nat := fs.geo.fatbase, 0;
    var clst := fs.geo.nFatent;  // entries left
    ghost var done := 0;
    nfree := 0;
    while clst > 0
      invariant fs.Valid() && |fs.disk| == old(|fs.disk|) && (old(fs.Mirrored()) ==> fs.Mirrored())
      invariant done + clst == fs.geo.nFatent && ScanAt(fs.geo, done, sect, i)
      invariant i != 0 ==> fs.winsect == sect - 1
      invariant nfree == CountFree(fs.fat, 0, done)
    {
      var val := ScanEntry(fs, sect, i, done);
      ScanNext(fs.geo, done, sect, i);
      if i == 0 {
        sect := sect + 1;
      }
      if val == 0 {
        nfree := nfree + 1;
      }
      i := (i + Width(fs.geo.fmt)) % 512;
      clst := clst - 1;
      done := done + 1;
    }
  }

  /** f_getfree: the free count, from memory if it is in range, else by a scan that also sets it. */
  method GetFree(fs: FatFs) returns (nfree: nat, res: FResult, ghost stop: nat)
    requires fs.Valid()
    modifies fs`disk, fs`wflag, fs`winsect, fs`freeClst, fs.win
    ensures fs.Valid() && |fs.disk| == old(|fs.disk|) && fs.freeClst == nfree
    ensures var n := fs.geo.nFatent;
            if old(fs.freeClst) <= n - 2 then nfree == old(fs.freeClst) && res == Ok
            else if fs.geo.fmt == Fat12 then
              && 2 <= stop <= n && nfree == CountFree(fs.fat, 2, stop)
              && (forall c :: 2 <= c < stop ==> fs.fat[c] != 1)
              && (if stop < n then res == IntErr && fs.fat[stop] == 1 else res == Ok)
            else nfree == CountFree(fs.fat, 0, n) && res == Ok
    ensures old(fs.Mirrored()) ==> fs.Mirrored()
  {
    nfree, res, stop := fs.freeClst, Ok, 2;
    if fs.freeClst > fs.geo.nFatent - 2 {
      if fs.geo.fmt == Fat12 {
        nfree, res, stop := CountBy12(fs);
      } else {
        nfree := CountBySector(fs);
      }
      fs.freeClst := nfree;
    }
  }

  /** The scan over raw sectors counts the free clusters exactly when the two reserved entries are not zero. */
  lemma {:induction false} SectorCountExact(fat: seq<nat>, n: nat)
    requires 2 <= n <= |fat|
    ensures CountFree(fat, 0, n) == CountFree(fat, 2, n) <==> fat[0] != 0 && fat[1] != 0
  {
    CountSplit(fat, 0, 2, n);
    assert CountFree(fat, 0, 2) == (if fat[0] == 0 then 1 else 0) + (if fat[1] == 0 then 1 else 0) by {
      assert CountFree(fat, 0, 1) == CountFree(fat, 0, 0) + if fat[0] == 0 then 1 else 0;
    }
  }

  /** A 16-bit table whose clusters are all in use and whose reserved entries are zero. */
  function ReservedZero(n: nat): (fat: seq<nat>)
    ensures |fat| == n
  {
    seq(n, i => if i < 2 then 0 else 0xFFFF)
  }

  /** For it, at every size that a 16-bit volume can have, the scan reports two free clusters where there is none. */
  lemma {:induction false} ReservedCounted(n: nat)
    requires MaxClusters(Fat12) + 2 < n <= MaxClusters(Fat16) + 2
    ensures var fat := ReservedZero(n);
            CountFree(fat, 2, n) == 0 && CountFree(fat, 0, n) == 2 && !FreeCountOk(n, CountFree(fat, 0, n), fat)
  {
    var fat := ReservedZero(n);
    NoneFree(fat, 2, n);
    CountSplit(fat, 0, 2, n);
    assert CountFree(fat, 0, 2) == 2 by {
      assert CountFree(fat, 0, 1) == CountFree(fat, 0, 0) + 1;
    }
  }

  /** The 12-bit scan, which keeps the count it had when it met an entry of 1, is right exactly when nothing is free behind it. */
  lemma {:induction false} StoppedCountExact(fat: seq<nat>, n: nat, stop: nat)
    requires 2 <= stop <= n <= |fat|
    ensures FreeCountOk(n, CountFree(fat, 2, stop), fat) <==> forall c :: stop <= c < n ==> fat[c] != 0
  {
    CountSplit(fat, 2, stop, n);
    if c :| stop <= c < n && fat[c] == 0 {
      CountPositive(fat, stop, n, c);
    } else {
      NoneFree(fat, stop, n);
    }
  }

  lemma {:induction false} NoneFree(fat: seq<nat>, lo: nat, hi: nat)
    requires hi <= |fat| && forall c :: lo <= c < hi ==> fat[c] != 0
    ensures CountFree(fat, lo, hi) == 0
  {
    if lo < hi {
      NoneFree(fat, lo, hi - 1);
    }
  }
}
