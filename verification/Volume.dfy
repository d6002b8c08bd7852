/** The filesystem object: a disk seen through one write-back sector window, and the FAT read and written through it. */
module Volume {
  import opened Bits
  import opened FatCodec
  import opened Geometry

  datatype FResult = Ok | IntErr | NoFile | Denied | NotEnoughCore

  /** Sector s as a reader sees it who looks through a window w on sector ws. */
  ghost function Seen(disk: seq<Sector>, ws: nat, w: seq<byte>, s: nat): seq<byte>
    requires s < |disk|
  {
    if s == ws then w else disk[s]
  }

  /** area and store are what a reader sees of the first FAT and of the sectors outside the FATs. */
  ghost predicate Tells(g: Geometry, disk: seq<Sector>, ws: nat, w: seq<byte>, area: seq<byte>, store: seq<Sector>)
    requires g.fatbase + g.fsize <= |disk| && |w| == 512
  {
    && |area| == g.fsize * 512
    && (forall i {:trigger area[i]} :: 0 <= i < |area| ==> area[i] == Seen(disk, ws, w, g.fatbase + i / 512)[i % 512])
    && |store| == |disk|
    && (forall s {:trigger Seen(disk, ws, w, s)} :: 0 <= s < |disk| && !g.InFats(s) ==> store[s] == Seen(disk, ws, w, s))
  }

  /** Every FAT sector has its copy, but for one that is still dirty in the window. */
  ghost predicate Copied(g: Geometry, disk: seq<Sector>, dirty: bool, ws: nat)
    requires g.fatbase + 2 * g.fsize <= |disk|
  {
    forall s: nat {:trigger disk[s]} :: g.InFirstFat(s) && !(dirty && s == ws) ==> disk[s + g.fsize] == disk[s]
  }

  /** The disk after a dirty window has been written back. */
  ghost function Flushed(g: Geometry, disk: seq<Sector>, ws: nat, w: Sector): seq<Sector>
    requires ws < |disk| && g.FatEnd() <= |disk|
  {
    var d := disk[ws := w];
    if g.InFirstFat(ws) && g.nFats == 2 then d[ws + g.fsize := w] else d
  }

  lemma FlushTells(g: Geometry, disk: seq<Sector>, ws: nat, w: Sector, area: seq<byte>, store: seq<Sector>)
    requires ws < |disk| && g.FatEnd() <= |disk| && 1 <= g.nFats <= 2 && !g.InMirror(ws)
    requires Tells(g, disk, ws, w, area, store)
    ensures Tells(g, Flushed(g, disk, ws, w), ws, w, area, store)
    ensures g.nFats == 2 && Copied(g, disk, true, ws) ==> Copied(g, Flushed(g, disk, ws, w), false, ws)
  {
    var d := Flushed(g, disk, ws, w);
    forall s | 0 <= s < |disk| && !g.InMirror(s) ensures Seen(d, ws, w, s) == Seen(disk, ws, w, s) {
    }
    if g.nFats == 2 && Copied(g, disk, true, ws) {
      forall s: nat | g.InFirstFat(s) ensures d[s + g.fsize] == d[s] {
        assert s != ws ==> disk[s + g.fsize] == disk[s];
      }
    }
  }

  /** fat is the table in area. */
  ghost predicate Decodes(g: Geometry, area: seq<byte>, fat: seq<nat>) {
    && |fat| == g.nFatent && TableBytes(g.fmt, g.nFatent) <= |area|
    && (forall c {:trigger Entry(g.fmt, area, c)} :: 0 <= c < g.nFatent ==> fat[c] == Entry(g.fmt, area, c))
  }

  lemma DecodedEntry(g: Geometry, area: seq<byte>, fat: seq<nat>, clst: nat)
    requires Decodes(g, area, fat) && clst < g.nFatent
    ensures Holds(g.fmt, area, clst) && fat[clst] == Entry(g.fmt, area, clst)
  {
    TableGrows(g.fmt, clst + 1, g.nFatent);
  }

  lemma PutDecodes(g: Geometry, area: seq<byte>, fat: seq<nat>, clst: nat, val: nat)
    requires Decodes(g, area, fat) && clst < g.nFatent
    ensures Holds(g.fmt, area, clst)
    ensures Decodes(g, Put(g.fmt, area, clst, val), fat[clst := Cut(g.fmt, val)])
  {
    DecodedEntry(g, area, fat, clst);
    forall c | 0 <= c < g.nFatent
      ensures fat[clst := Cut(g.fmt, val)][c] == Entry(g.fmt, Put(g.fmt, area, clst, val), c)
    {
      DecodedEntry(g, area, fat, c);
      PutGet(g.fmt, area, clst, val, c);
    }
  }

  /** The bytes a stored entry changes. */
  lemma PutBytes(fmt: FatType, area: seq<byte>, clst: nat, val: nat)
    requires Holds(fmt, area, clst)
    ensures var o := Offset(fmt, clst);
            o + Width(fmt) <= |area| &&
            Put(fmt, area, clst, val) ==
            match fmt
            case Fat12 => Store2(area, o, First12(clst, area[o], val), Second12(clst, area[o + 1], val))
            case Fat16 => Store2(area, o, ByteOf(val, 0), ByteOf(val, 1))
            case Fat32 => Store4(area, o, Merged32(DWord(area, o), val))
  {
    hide First12, Second12, Merged32, Store2, Store4, TableBytes, Offset, DWord;
    EntryRoom(fmt, clst);
  }

  /** With a clean window it does not matter where the reader looks through. */
  lemma CleanTells(g: Geometry, disk: seq<Sector>, ws: nat, ws': nat, area: seq<byte>, store: seq<Sector>)
    requires ws < |disk| && ws' < |disk| && g.FatEnd() <= |disk|
    requires Tells(g, disk, ws, disk[ws], area, store)
    ensures Tells(g, disk, ws', disk[ws'], area, store)
  {
    forall s | 0 <= s < |disk| ensures Seen(disk, ws', disk[ws'], s) == Seen(disk, ws, disk[ws], s) {
    }
  }

  lemma PokeTells(g: Geometry, disk: seq<Sector>, ws: nat, w: Sector, area: seq<byte>, store: seq<Sector>, o: nat, b: byte)
    requires g.FatEnd() <= |disk| && o < g.fsize * 512 && ws == g.fatbase + o / 512
    requires Tells(g, disk, ws, w, area, store)
    ensures Tells(g, disk, ws, w[o % 512 := b], area[o := b], store)
  {
    var w', area' := w[o % 512 := b], area[o := b];
    forall i | 0 <= i < |area| ensures area'[i] == Seen(disk, ws, w', g.fatbase + i / 512)[i % 512] {
      assert i != o ==> area'[i] == area[i];
    }
    forall s | 0 <= s < |disk| && !g.InFats(s) ensures store[s] == Seen(disk, ws, w', s) {
      assert store[s] == Seen(disk, ws, w, s);
    }
  }

  /** Writing whole sectors behind the FATs past the window; a window among them takes the new contents. */
  lemma OverlayTells(g: Geometry, disk: seq<Sector>, ws: nat, w: Sector, area: seq<byte>, store: seq<Sector>, sect: nat, data: seq<byte>)
    requires ws < |disk| && g.FatEnd() <= sect && |data| % 512 == 0 && sect + |data| / 512 <= |disk|
    requires Tells(g, disk, ws, w, area, store)
    ensures var w' := if sect <= ws < sect + |data| / 512 then Slice(data, ws - sect) else w;
            Tells(g, Overlay(disk, sect, data), ws, w', area, Overlay(store, sect, data))
  {
    var w' := if sect <= ws < sect + |data| / 512 then Slice(data, ws - sect) else w;
    var disk', store' := Overlay(disk, sect, data), Overlay(store, sect, data);
    forall s | 0 <= s < |disk| && !g.InFats(s) ensures store'[s] == Seen(disk', ws, w', s) {
      assert store[s] == Seen(disk, ws, w, s);
    }
    forall i | 0 <= i < |area| ensures area[i] == Seen(disk', ws, w', g.fatbase + i / 512)[i % 512] {
      assert g.fatbase + i / 512 < g.FatEnd();
    }
  }

  lemma OverlayCopied(g: Geometry, disk: seq<Sector>, dirty: bool, ws: nat, sect: nat, data: seq<byte>)
    requires g.FatEnd() <= sect && |data| % 512 == 0 && sect + |data| / 512 <= |disk|
    ensures g.nFats == 2 && Copied(g, disk, dirty, ws) ==>
              Copied(g, Overlay(disk, sect, data), dirty && !(sect <= ws < sect + |data| / 512), ws)
  {
    if g.nFats == 2 && Copied(g, disk, dirty, ws) {
      var d := Overlay(disk, sect, data);
      forall s: nat | g.InFirstFat(s) && !(dirty && s == ws) ensures d[s + g.fsize] == d[s] {
        assert disk[s + g.fsize] == disk[s];
      }
    }
  }

  /** Changing the window on a sector outside the FATs changes what a reader sees of that sector. */
  lemma WindowTells(g: Geometry, disk: seq<Sector>, ws: nat, w: Sector, w': Sector, area: seq<byte>, store: seq<Sector>)
    requires ws < |disk| && g.FatEnd() <= |disk| && !g.InFats(ws)
    requires Tells(g, disk, ws, w, area, store)
    ensures Tells(g, disk, ws, w', area, store[ws := w'])
  {
    forall s | 0 <= s < |disk| && !g.InFats(s) ensures store[ws := w'][s] == Seen(disk, ws, w', s) {
      assert store[s] == Seen(disk, ws, w, s);
    }
    forall i | 0 <= i < |area| ensures area[i] == Seen(disk, ws, w', g.fatbase + i / 512)[i % 512] {
      assert g.InFats(g.fatbase + i / 512);
    }
  }

  lemma StoreSeen(g: Geometry, disk: seq<Sector>, ws: nat, w: Sector, area: seq<byte>, store: seq<Sector>)
    requires g.FatEnd() <= |disk| && Tells(g, disk, ws, w, area, store)
    ensures |store| == |disk| && forall s :: g.FatEnd() <= s < |disk| ==> store[s] == if s == ws then w else disk[s]
  {
    forall s | g.FatEnd() <= s < |disk| ensures store[s] == if s == ws then w else disk[s] {
      assert store[s] == Seen(disk, ws, w, s);
    }
  }

  /** A direct read, corrected by a dirty window, gives what a reader through the window sees. */
  lemma DirectRead(g: Geometry, disk: seq<Sector>, dirty: bool, ws: nat, w: Sector, area: seq<byte>, store: seq<Sector>, sect: nat, cc: nat)
    requires ws < |disk| && g.FatEnd() <= sect && sect + cc <= |disk|
    requires Tells(g, disk, ws, w, area, store) && (!dirty ==> disk[ws] == w)
    ensures Flat(store[sect..sect + cc]) ==
            if dirty && sect <= ws < sect + cc then Patch(Flat(disk[sect..sect + cc]), 512 * (ws - sect), w)
            else Flat(disk[sect..sect + cc])
  {
    hide Flat, Patch, Tells;
    StoreSeen(g, disk, ws, w, area, store);
    var a, b := disk[sect..sect + cc], store[sect..sect + cc];
    if dirty && sect <= ws < sect + cc {
      assert b == a[ws - sect := w];
      FlatUpdate(a, ws - sect, w);
    } else {
      assert b == a;
    }
  }

  lemma FlatUpdate(a: seq<Sector>, k: nat, w: Sector)
    requires k < |a|
    ensures Flat(a[k := w]) == Patch(Flat(a), 512 * k, w)
  {
    var x, y := Flat(a[k := w]), Patch(Flat(a), 512 * k, w);
    forall i | 0 <= i < 512 * |a| ensures x[i] == y[i] {
      assert x[i] == a[k := w][i / 512][i % 512];
    }
  }

  /** The bytes of the first FAT on a disk. */
  ghost function FirstFat(g: Geometry, disk: seq<Sector>): (r: seq<byte>)
    requires g.fatbase + g.fsize <= |disk|
    ensures |r| == g.fsize * 512
  {
    seq(g.fsize * 512, i requires 0 <= i < g.fsize * 512 => disk[g.fatbase + i / 512][i % 512])
  }

  ghost function Decoded(g: Geometry, area: seq<byte>): (r: seq<nat>)
    requires TableBytes(g.fmt, g.nFatent) <= |area|
    ensures Decodes(g, area, r)
  {
    seq(g.nFatent, c requires 0 <= c < g.nFatent => EntryAt(g, area, c))
  }

  ghost function EntryAt(g: Geometry, area: seq<byte>, c: nat): nat
    requires TableBytes(g.fmt, g.nFatent) <= |area| && c < g.nFatent
  {
    TableGrows(g.fmt, c + 1, g.nFatent);
    Entry(g.fmt, area, c)
  }

  lemma FirstFatTells(g: Geometry, disk: seq<Sector>, ws: nat)
    requires g.FatEnd() <= |disk| && ws < |disk| && 1 <= g.nFats <= 2
    ensures Tells(g, disk, ws, disk[ws], FirstFat(g, disk), disk)
  {
    forall s | 0 <= s < |disk| ensures Seen(disk, ws, disk[ws], s) == disk[s] {
    }
  }

  class FatFs {
    const geo: Geometry
    var winsect: nat          // sector appearing in win
    var wflag: bool           // win is dirty
    const win: array<byte>    // the disk access window
    var disk: seq<Sector>     // the device
    var lastClst: nat         // last allocated cluster
    var freeClst: nat         // number of free clusters; out of range means unknown

    /** The bytes of the first FAT, as a reader through the window sees them. */
    ghost var area: seq<byte>
    /** The decoded FAT. */
    ghost var fat: seq<nat>
    /** Every sector outside the FATs, as a reader through the window sees it. */
    ghost var store: seq<Sector>

    /** The window holds a sector of the disk and differs from it only while dirty; area and store tell what a reader sees. */
    ghost predicate WindowOk()
      reads this`disk, this`wflag, this`winsect, this`area, this`store, win
    {
      && win.Length == 512
      && WellFormed(geo, |disk|)
      && winsect < |disk| && !geo.InMirror(winsect)
      && (!wflag ==> disk[winsect] == win[..])
      && Tells(geo, disk, winsect, win[..], area, store)
    }

    ghost predicate Valid()
      reads this`disk, this`wflag, this`winsect, this`area, this`store, this`fat, win
    {
      WindowOk() && Decodes(geo, area, fat)
    }

    /** The two FATs agree, but for a sector still dirty in the window. */
    ghost predicate Mirrored()
      reads this`disk, this`wflag, this`winsect
    {
      geo.nFats == 2 && geo.FatEnd() <= |disk| && Copied(geo, disk, wflag, winsect)
    }

    /** The object after a mount: a clean window on sector start, and nothing known about free clusters. */
    constructor (g: Geometry, device: seq<Sector>, start: nat)
      requires WellFormed(g, |device|) && start < |device| && !g.InMirror(start)
      ensures Valid() && fresh(win) && geo == g && disk == store == device && !wflag && winsect == start
      ensures freeClst == lastClst == 0xFFFF_FFFF
      ensures win[..] == device[start]
    {
      geo, disk, winsect, wflag := g, device, start, false;
      freeClst, lastClst := 0xFFFF_FFFF, 0xFFFF_FFFF;
      win := new byte[512](i requires 0 <= i < 512 => device[start][i]);
      store := device;
      area := FirstFat(g, device);
      fat := Decoded(g, FirstFat(g, device));
      new;
      assert win[..] == device[start];
      FirstFatTells(g, device, start);
    }

    /** Write the window back if it is dirty, to the second FAT as well. */
    method SyncWindow()
      requires WindowOk()
      modifies this`disk, this`wflag
      ensures WindowOk() && !wflag && |disk| == old(|disk|)
      ensures !old(wflag) ==> disk == old(disk)
      ensures old(Mirrored()) ==> Mirrored()
    {
      if wflag {
        FlushTells(geo, disk, winsect, win[..], area, store);
        ghost var was := disk;
        disk := disk[winsect := win[..]];
        wflag := false;
        if winsect >= geo.fatbase && winsect - geo.fatbase < geo.fsize && geo.nFats == 2 {
          disk := disk[winsect + geo.fsize := win[..]];
        }
        assert disk == Flushed(geo, was, winsect, win[..]);
      }
    }

    /** Bring a sector into the window, writing back what was there. */
    method MoveWindow(sector: nat)
      requires WindowOk() && sector < |disk| && !geo.InMirror(sector)
      modifies this`disk, this`wflag, this`winsect, win
      ensures WindowOk() && |disk| == old(|disk|) && winsect == sector
      ensures !geo.InFats(sector) ==> win[..] == store[sector]
      ensures !old(wflag) ==> disk == old(disk) && !wflag
      ensures old(Mirrored()) ==> Mirrored()
    {
      if sector != winsect {
        SyncWindow();
        CleanTells(geo, disk, winsect, sector, area, store);
        DiskRead(sector);
        winsect := sector;
      }
      assert Seen(disk, winsect, win[..], sector) == win[..];
    }

    /** disk_read of one sector into the window. */
    method DiskRead(sector: nat)
      requires win.Length == 512 && sector < |disk|
      modifies win
      ensures win[..] == disk[sector]
    {
      forall i | 0 <= i < 512 {
        win[i] := disk[sector][i];
      }
    }

    /** Byte o of the first FAT lies in the window. */
    ghost predicate Shows(o: nat)
      reads this
    {
      o < geo.fsize * 512 && winsect == geo.fatbase + o / 512
    }

    method PeekFat(o: nat) returns (b: byte)
      requires WindowOk() && Shows(o)
      ensures b == area[o]
    {
      b := win[o % 512];
    }

    /** Store byte o of the first FAT in the window. */
    method PokeFat(o: nat, b: byte)
      requires WindowOk() && Shows(o)
      modifies this`wflag, this`area, win
      ensures WindowOk() && wflag && area == old(area)[o := b]
      ensures old(Mirrored()) ==> Mirrored()
    {
      PokeTells(geo, disk, winsect, win[..], area, store, o, b);
      ghost var w := win[..];
      win[o % 512] := b;
      assert win[..] == w[o % 512 := b];
      wflag := true;
      area := area[o := b];
    }

    /** ld_word and ld_dword on the window, at byte o of the first FAT. */
    method LdWord(o: nat) returns (v: nat)
      requires WindowOk() && Shows(o) && Shows(o + 1)
      ensures v == Word(area, o)
    {
      var b0 := PeekFat(o);
      var b1 := PeekFat(o + 1);
      v := b0 as int + 0x100 * b1 as int;
    }

    method LdDword(o: nat) returns (v: nat)
      requires WindowOk() && Shows(o) && Shows(o + 1) && Shows(o + 2) && Shows(o + 3)
      ensures v == DWord(area, o)
    {
      var lo := LdWord(o);
      var hi := LdWord(o + 2);
      v := lo + 0x1_0000 * hi;
    }

    /** The two window accesses of a 12-bit entry, which may lie in two sectors. */
    method Load12(o: nat) returns (wc: nat)
      requires WindowOk() && o + 2 <= geo.fsize * 512
      modifies this`disk, this`wflag, this`winsect, win
      ensures WindowOk() && |disk| == old(|disk|)
      ensures wc == Word(area, o)
      ensures old(Mirrored()) ==> Mirrored()
    {
      MoveWindow(geo.fatbase + o / 512);
      var b0 := PeekFat(o);
      MoveWindow(geo.fatbase + (o + 1) / 512);
      var b1 := PeekFat(o + 1);
      wc := b0 as int + 0x100 * b1 as int;
    }

    /** An entry of 16 or 32 bits in the window. */
    method ReadAligned(o: nat) returns (v: nat)
      requires WindowOk() && o + Width(geo.fmt) <= geo.fsize * 512 && geo.fmt != Fat12 && OneSector(geo.fmt, o) && Shows(o)
      ensures v == if geo.fmt == Fat16 then Word(area, o) else DWord(area, o)
    {
      if geo.fmt == Fat16 {
        v := LdWord(o);
      } else {
        v := LdDword(o);
      }
    }

    method LoadAligned(o: nat) returns (v: nat)
      requires WindowOk() && o + Width(geo.fmt) <= geo.fsize * 512 && geo.fmt != Fat12 && OneSector(geo.fmt, o)
      modifies this`disk, this`wflag, this`winsect, win
      ensures WindowOk() && |disk| == old(|disk|) && Shows(o)
      ensures v == if geo.fmt == Fat16 then Word(area, o) else DWord(area, o)
      ensures old(Mirrored()) ==> Mirrored()
    {
      MoveWindow(geo.fatbase + o / 512);
      v := ReadAligned(o);
    }

    /** The byte work of get_fat. */
    method LoadEntry(clst: nat) returns (val: nat)
      requires WindowOk() && clst < geo.nFatent && Holds(geo.fmt, area, clst)
      modifies this`disk, this`wflag, this`winsect, win
      ensures WindowOk() && |disk| == old(|disk|)
      ensures val == Entry(geo.fmt, area, clst)
      ensures old(Mirrored()) ==> Mirrored()
    {
      EntryInFirstFat(geo, |disk|, clst);
      var o := Offset(geo.fmt, clst);
      if geo.fmt == Fat12 {
        var wc := Load12(o);
        val := if clst % 2 == 1 then wc / 0x10 else wc % 0x1000;
      } else {
        val := LoadAligned(o);
        if geo.fmt == Fat32 {
          val := val % 0x1000_0000;
        }
      }
    }

    /** Byte i of the first FAT: in the window, if its sector is there, else on the disk. */
    ghost function FatByte(i: nat): byte
      requires geo.fatbase + i / 512 < |disk| && win.Length == 512
      reads this`disk, this`winsect, win
    {
      if winsect == geo.fatbase + i / 512 then win[i % 512] else disk[geo.fatbase + i / 512][i % 512]
    }

    lemma AreaOnDisk(i: nat)
      requires WindowOk() && i < |area|
      ensures geo.fatbase + i / 512 < |disk| && win.Length == 512 && area[i] == FatByte(i)
    {
    }

    /** Each sector of the second FAT is that of the first, but for one whose new contents are still in the window. */
    lemma MirrorOnDisk(s: nat)
      requires Mirrored() && geo.fatbase <= s < geo.fatbase + geo.fsize
      ensures geo.nFats == 2 && s + geo.fsize < |disk|
      ensures s != winsect || !wflag ==> disk[s + geo.fsize] == disk[s]
    {
      assert geo.InFirstFat(s);
    }

    /** Every sector outside the FATs: in the window, if it is there, else on the disk. */
    lemma StoreOnDisk(s: nat)
      requires WindowOk() && s < |disk| && !geo.InFats(s)
      ensures |store| == |disk| && store[s] == if s == winsect then win[..] else disk[s]
    {
      assert store[s] == Seen(disk, winsect, win[..], s);
    }

    /** The decoded FAT in bytes. */
    lemma FatOnDisk(c: nat)
      requires Valid() && c < geo.nFatent
      ensures |fat| == geo.nFatent && win.Length == 512
      ensures match geo.fmt
              case Fat12 =>
                var o := c / 2 * 3;
                && geo.fatbase + (o + 1 + c % 2) / 512 < |disk|
                && fat[c] == (if c % 2 == 0 then FatByte(o) as int + 0x100 * (FatByte(o + 1) % 0x10) as int
                              else (FatByte(o + 1) / 0x10) as int + 0x10 * FatByte(o + 2) as int)
              case Fat16 =>
                && geo.fatbase + (2 * c + 1) / 512 < |disk|
                && fat[c] == FatByte(2 * c) as int + 0x100 * FatByte(2 * c + 1) as int
              case Fat32 =>
                && geo.fatbase + (4 * c + 3) / 512 < |disk|
                && fat[c] == FatByte(4 * c) as int + 0x100 * FatByte(4 * c + 1) as int
                             + 0x1_0000 * FatByte(4 * c + 2) as int + 0x100_0000 * (FatByte(4 * c + 3) % 0x10) as int
    {
      hide WindowOk, Entry, FatByte;
      DecodedEntry(geo, area, fat, c);
      EntryBytes(geo.fmt, area, c);
      match geo.fmt
      case Fat12 =>
        var o := c / 2 * 3;
        if c % 2 == 0 {
          AreaOnDisk(o);
        } else {
          AreaOnDisk(o + 2);
        }
        AreaOnDisk(o + 1);
      case Fat16 =>
        AreaOnDisk(2 * c);
        AreaOnDisk(2 * c + 1);
      case Fat32 =>
        AreaOnDisk(4 * c);
        AreaOnDisk(4 * c + 1);
        AreaOnDisk(4 * c + 2);
        AreaOnDisk(4 * c + 3);
    }

    /** get_fat: the entry of a cluster, or 1 when the number is out of range. */
    method GetFat(clst: nat) returns (val: nat)
      requires Valid()
      modifies this`disk, this`wflag, this`winsect, win
      ensures Valid() && |disk| == old(|disk|)
      ensures val == if 2 <= clst < geo.nFatent then fat[clst] else 1
      ensures 2 <= clst < geo.nFatent ==>
                match geo.fmt
                case Fat12 =>
                  var o := clst / 2 * 3;
                  && o + 1 + clst % 2 < |area|
                  && val == (if clst % 2 == 0 then area[o] as int + 0x100 * (area[o + 1] % 0x10) as int
                             else (area[o + 1] / 0x10) as int + 0x10 * area[o + 2] as int)
                case Fat16 =>
                  2 * clst + 1 < |area| && val == area[2 * clst] as int + 0x100 * area[2 * clst + 1] as int
                case Fat32 =>
                  && 4 * clst + 3 < |area|
                  && val == area[4 * clst] as int + 0x100 * area[4 * clst + 1] as int
                            + 0x1_0000 * area[4 * clst + 2] as int + 0x100_0000 * (area[4 * clst + 3] % 0x10) as int
      ensures old(Mirrored()) ==> Mirrored()
    {
      hide WindowOk, Entry;
      val := 1;
      if 2 <= clst < geo.nFatent {
        DecodedEntry(geo, area, fat, clst);
        EntryBytes(geo.fmt, area, clst);
        val := LoadEntry(clst);
      }
    }

    /** st_word and st_dword on the window, at byte o of the first FAT. */
    method StWord(o: nat, v: nat)
      requires WindowOk() && Shows(o) && Shows(o + 1)
      modifies this`wflag, this`area, win
      ensures WindowOk() && area == Store2(old(area), o, ByteOf(v, 0), ByteOf(v, 1))
      ensures old(Mirrored()) ==> Mirrored()
    {
      PokeFat(o, ByteOf(v, 0));
      PokeFat(o + 1, ByteOf(v, 1));
    }

    method StDword(o: nat, v: nat)
      requires WindowOk() && Shows(o) && Shows(o + 1) && Shows(o + 2) && Shows(o + 3)
      modifies this`wflag, this`area, win
      ensures WindowOk()
      ensures area == Store4(old(area), o, v)
      ensures old(Mirrored()) ==> Mirrored()
    {
      StWord(o, v);
      PokeFat(o + 2, ByteOf(v, 2));
      PokeFat(o + 3, ByteOf(v, 3));
      assert area == Store4(old(area), o, v);
    }

    method Store12(clst: nat, o: nat, val: nat)
      requires WindowOk() && o + 2 <= geo.fsize * 512
      modifies this`disk, this`wflag, this`winsect, this`area, win
      ensures WindowOk() && |disk| == old(|disk|)
      ensures area == Store2(old(area), o, First12(clst, old(area)[o], val), Second12(clst, old(area)[o + 1], val))
      ensures old(Mirrored()) ==> Mirrored()
    {
      hide PowerOfTwo, Times, TableBytes;
      MoveWindow(geo.fatbase + o / 512);
      var b := PeekFat(o);
      PokeFat(o, First12(clst, b, val));
      MoveWindow(geo.fatbase + (o + 1) / 512);
      b := PeekFat(o + 1);
      PokeFat(o + 1, Second12(clst, b, val));
    }

    method StoreAligned(o: nat, val: nat)
      requires WindowOk() && o + Width(geo.fmt) <= geo.fsize * 512 && geo.fmt != Fat12
      requires OneSector(geo.fmt, o)
      requires val < TWO32
      modifies this`disk, this`wflag, this`winsect, this`area, win
      ensures WindowOk() && |disk| == old(|disk|)
      ensures area == if geo.fmt == Fat16 then Store2(old(area), o, ByteOf(val, 0), ByteOf(val, 1))
                      else Store4(old(area), o, Merged32(DWord(old(area), o), val))
      ensures old(Mirrored()) ==> Mirrored()
    {
      var v := LoadAligned(o);
      if geo.fmt == Fat16 {
        StWord(o, val);
      } else {
        StDword(o, Merged32(v, val));
      }
    }

    /** The byte work of put_fat. */
    method StoreEntry(clst: nat, val: nat)
      requires WindowOk() && clst < geo.nFatent && Holds(geo.fmt, area, clst) && val < TWO32
      modifies this`disk, this`wflag, this`winsect, this`area, win
      ensures WindowOk() && |disk| == old(|disk|)
      ensures area == Put(geo.fmt, old(area), clst, val)
      ensures old(Mirrored()) ==> Mirrored()
    {
      EntryInFirstFat(geo, |disk|, clst);
      PutBytes(geo.fmt, area, clst, val);
      hide WindowOk, WellFormed, Store2, Store4, First12, Second12, Merged32, Mirrored, Put, Offset, Holds;
      var o := Offset(geo.fmt, clst);
      if geo.fmt == Fat12 {
        Store12(clst, o, val);
      } else {
        StoreAligned(o, val);
      }
    }

    /** put_fat: store an entry; false (an internal error) when the number is out of range. */
    method PutFat(clst: nat, val: nat) returns (ok: bool)
      requires Valid() && val < TWO32
      modifies this`disk, this`wflag, this`winsect, this`area, this`fat, win
      ensures Valid() && |disk| == old(|disk|)
      ensures ok <==> 2 <= clst < geo.nFatent
      ensures fat == if ok then old(fat)[clst := Cut(geo.fmt, val)] else old(fat)
      ensures ok ==> Holds(geo.fmt, old(area), clst) && area == Put(geo.fmt, old(area), clst, val)
      ensures !ok ==> area == old(area)
      ensures old(Mirrored()) ==> Mirrored()
    {
      hide WindowOk, Put;
      ok := 2 <= clst < geo.nFatent;
      if ok {
        PutDecodes(geo, area, fat, clst, val);
        StoreEntry(clst, val);
        fat := fat[clst := Cut(geo.fmt, val)];
      }
    }

    /** disk_read of whole sectors past the window; a dirty window among them replaces what the disk gave. */
    method ReadSectors(sect: nat, cc: nat) returns (data: seq<byte>)
      requires Valid() && geo.FatEnd() <= sect && 0 < cc && sect + cc <= |disk|
      ensures data == Flat(store[sect..sect + cc])
    {
      DirectRead(geo, disk, wflag, winsect, win[..], area, store, sect, cc);
      data := Flat(disk[sect..sect + cc]);
      if wflag && Sub32(winsect, sect) < cc {
        data := Patch(data, 512 * Sub32(winsect, sect), win[..]);
      }
    }

    /** The window takes a sector's contents. */
    method Refill(w: Sector)
      requires win.Length == 512
      modifies win
      ensures win[..] == w
    {
      forall i | 0 <= i < 512 {
        win[i] := w[i];
      }
    }

    /** Part of the window takes new contents. */
    method Splice(off: nat, data: seq<byte>)
      requires win.Length == 512 && off + |data| <= 512
      modifies win
      ensures win[..] == Patch(old(win[..]), off, data)
    {
      ghost var w := win[..];
      forall i | off <= i < off + |data| {
        win[i] := data[i - off];
      }
      assert win[..] == Patch(w, off, data);
    }

    /** disk_write of whole sectors past the window; a window among them takes the new contents and is clean. */
    method WriteSectors(sect: nat, data: seq<byte>)
      requires Valid() && geo.FatEnd() <= sect && 0 < |data| && |data| % 512 == 0 && sect + |data| / 512 <= |disk|
      modifies this`disk, this`wflag, this`store, win
      ensures Valid() && |disk| == old(|disk|)
      ensures store == Overlay(old(store), sect, data)
      ensures old(Mirrored()) ==> Mirrored()
    {
      hide Decodes, PowerOfTwo, Times, TableBytes;
      OverlayTells(geo, disk, winsect, win[..], area, store, sect, data);
      OverlayCopied(geo, disk, wflag, winsect, sect, data);
      disk := Overlay(disk, sect, data);
      if Sub32(winsect, sect) < |data| / 512 {
        Refill(Slice(data, winsect - sect));
        wflag := false;
      }
      store := Overlay(store, sect, data);
    }

    /** Put data into sector sect through the window. On the growing edge of a file the sector is not fetched: the
        window keeps the bytes it had. */
    method WriteWindow(sect: nat, off: nat, data: seq<byte>, growing: bool)
      requires Valid() && sect < |disk| && geo.FatEnd() <= sect && off + |data| <= 512
      modifies this`disk, this`wflag, this`winsect, this`store, win
      ensures Valid() && |disk| == old(|disk|)
      ensures store == old(store)[sect := store[sect]]
      ensures forall i :: off <= i < off + |data| ==> store[sect][i] == data[i - off]
      ensures !growing ==> forall i :: 0 <= i < 512 && !(off <= i < off + |data|) ==> store[sect][i] == old(store)[sect][i]
      ensures old(Mirrored()) ==> Mirrored()
    {
      if growing {
        SyncWindow();
        CleanTells(geo, disk, winsect, sect, area, store);
        winsect := sect;
        WindowTells(geo, disk, sect, disk[sect], win[..], area, store);
        store := store[sect := win[..]];
      } else {
        MoveWindow(sect);
      }
      ghost var w := win[..];
      WindowTells(geo, disk, sect, w, Patch(w, off, data), area, store);
      Splice(off, data);
      wflag := true;
      store := store[sect := win[..]];
    }
  }
}
