/** Where the areas of a FAT volume lie on the disk. */
module Geometry {
  import opened Bits
  import opened FatCodec

  /** The layout fields of the filesystem object, fixed while a volume is mounted. */
  datatype Geometry = Geometry(
    fmt: FatType,
    nFats: nat,     // number of FATs
    fsize: nat,     // sectors per FAT
    csize: nat,     // sectors per cluster
    nRootdir: nat,  // entries of the static root directory, 0 on FAT32
    nFatent: nat,   // number of clusters + 2
    volbase: nat,
    fatbase: nat,
    dirbase: nat,   // first sector of the static root directory; a cluster number on FAT32
    database: nat)
  {
    /** Sectors of all FATs: there are one or two. */
    function FatSectors(): nat {
      if nFats == 2 then fsize + fsize else fsize
    }

    function FatEnd(): nat {
      fatbase + FatSectors()
    }

    /** Sector s belongs to one of the FATs. */
    predicate InFats(s: nat) {
      fatbase <= s < FatEnd()
    }

    predicate InFirstFat(s: nat) {
      fatbase <= s < fatbase + fsize
    }

    /** Sector s belongs to the second FAT. */
    predicate InMirror(s: nat) {
      InFats(s) && !InFirstFat(s)
    }
  }

  function MaxClusters(fmt: FatType): nat {
    match fmt
    case Fat12 => 0xFF5
    case Fat16 => 0xFFF5
    case Fat32 => 0x0FFF_FFF5
  }

  /** Reserved area, FATs, root directory and data area follow each other and end by sector volEnd;
      the first FAT has room for every cluster. */
  ghost predicate WellFormed(g: Geometry, volEnd: nat) {
    && 1 <= g.nFats <= 2
    && PowerOfTwo(g.csize) && g.csize <= 128
    && 3 <= g.nFatent <= MaxClusters(g.fmt) + 2
    && TableBytes(g.fmt, g.nFatent) <= g.fsize * 512
    && g.volbase < g.fatbase
    && (if g.fmt == Fat32 then g.nRootdir == 0 && g.FatEnd() == g.database
        else 0 < g.nRootdir && g.nRootdir % 16 == 0
             && g.FatEnd() == g.dirbase && g.dirbase + g.nRootdir / 16 == g.database)
    && g.database + Times(g.csize, g.nFatent - 2) <= volEnd <= TWO32
  }

  /** First sector of a cluster, or 0 when there is no such cluster. */
  function Clst2Sect(g: Geometry, clst: nat): nat
    requires 2 <= g.nFatent && clst < TWO32
  {
    var c := Sub32(clst, 2);
    if c >= g.nFatent - 2 then 0 else g.database + Times(g.csize, c)
  }

  /** What clst2sect gives for a valid cluster lies, with its whole cluster, in the data area; anything else gives 0. */
  lemma ClusterInDataArea(g: Geometry, volEnd: nat, clst: nat)
    requires WellFormed(g, volEnd) && clst < TWO32
    ensures 2 <= clst < g.nFatent <==> Clst2Sect(g, clst) != 0
    ensures 2 <= clst < g.nFatent ==>
              && Clst2Sect(g, clst) == g.database + Times(g.csize, clst - 2)
              && g.FatEnd() <= g.database <= Clst2Sect(g, clst)
              && Clst2Sect(g, clst) + g.csize <= volEnd
  {
    if 2 <= clst < g.nFatent {
      TimesStep(g.csize, clst - 2, g.nFatent - 2);
    }
  }

  /** Two valid clusters share no sector. */
  lemma ClustersDisjoint(g: Geometry, volEnd: nat, a: nat, b: nat)
    requires WellFormed(g, volEnd) && 2 <= a < b < g.nFatent
    ensures Clst2Sect(g, a) + g.csize <= Clst2Sect(g, b)
  {
    TimesStep(g.csize, a - 2, b - 2);
  }

  /** Bytes of an entry that the FAT code touches. */
  function Width(fmt: FatType): nat {
    if fmt == Fat32 then 4 else 2
  }

  lemma EntryRoom(fmt: FatType, c: nat)
    ensures Offset(fmt, c) + Width(fmt) <= TableBytes(fmt, c + 1)
    ensures fmt != Fat12 ==> Offset(fmt, c) % Width(fmt) == 0
  {
    match fmt
    case Fat12 => Fits12(c);
    case Fat16 => DivModUnique(c * 2, 2, c, 0);
    case Fat32 => DivModUnique(c * 4, 4, c, 0);
  }

  /** Every byte get_fat reads for a valid cluster lies in the first FAT; only 12-bit entries straddle two sectors. */
  lemma EntryInFirstFat(g: Geometry, volEnd: nat, clst: nat)
    requires WellFormed(g, volEnd) && clst < g.nFatent
    ensures Offset(g.fmt, clst) + Width(g.fmt) <= g.fsize * 512
    ensures g.InFirstFat(g.fatbase + Offset(g.fmt, clst) / 512)
    ensures g.InFirstFat(g.fatbase + (Offset(g.fmt, clst) + Width(g.fmt) - 1) / 512)
    ensures g.fmt != Fat12 ==> OneSector(g.fmt, Offset(g.fmt, clst))
  {
    TableRoom(g, volEnd, clst);
    hide WellFormed, TableBytes, Offset;
    InsideTable(Offset(g.fmt, clst), Width(g.fmt), g.fsize);
  }

  lemma TableRoom(g: Geometry, volEnd: nat, clst: nat)
    requires WellFormed(g, volEnd) && clst < g.nFatent
    ensures Offset(g.fmt, clst) + Width(g.fmt) <= g.fsize * 512
    ensures g.fmt != Fat12 ==> Offset(g.fmt, clst) % Width(g.fmt) == 0
  {
    hide PowerOfTwo, Times, TableBytes, Offset, Width;
    EntryRoom(g.fmt, clst);
    TableGrows(g.fmt, clst + 1, g.nFatent);
  }

  predicate OneSector(fmt: FatType, o: nat) {
    (o + Width(fmt) - 1) / 512 == o / 512
  }

  lemma InsideTable(o: nat, w: nat, k: nat)
    requires 1 <= w <= 4 && o + w <= k * 512
    ensures o / 512 < k && (o + w - 1) / 512 < k
    ensures o % w == 0 && w != 3 ==> (o + w - 1) / 512 == o / 512
  {
    if o % w == 0 && w != 3 {
      assert w == 1 || w == 2 || w == 4;
      var q, r := o / 512, o % 512;
      assert r + w <= 512;
      DivModUnique(o + w - 1, 512, q, r + w - 1);
    }
  }

  /** The end-of-chain values the standard reserves for each width are never cluster numbers. */
  lemma EndMarksAreNoClusters(g: Geometry, volEnd: nat, v: nat)
    requires WellFormed(g, volEnd)
    requires match g.fmt
             case Fat12 => 0xFF8 <= v <= 0xFFF
             case Fat16 => 0xFFF8 <= v <= 0xFFFF
             case Fat32 => 0x0FFF_FFF8 <= v <= 0x0FFF_FFFF
    ensures g.nFatent < v && Clst2Sect(g, v) == 0
  {
  }
}

/** Mounting: what find_volume makes of a boot sector. */
module Mount {
  import opened Wrappers
  import opened Bits
  import opened FatCodec
  import opened Geometry

  /** The fields of the boot parameter block that decide the layout. */
  datatype Bpb = Bpb(bytsPerSec: nat, fatSz: nat, numFats: nat, secPerClus: nat, rootEntCnt: nat,
                     totSec: nat, rsvdSecCnt: nat, fsVer32: nat, rootClus32: nat)

  /** The fields fit the widths they are stored in. */
  predicate InRange(b: Bpb) {
    && b.fatSz < TWO32 && b.totSec < TWO32 && b.rootClus32 < TWO32
    && b.numFats < 0x100 && b.secPerClus < 0x100 && b.rootEntCnt < 0x1_0000 && b.rsvdSecCnt < 0x1_0000
  }

  /** The fields at their offsets; a 16-bit size of zero defers to its 32-bit twin. */
  function Fields(boot: Sector): (b: Bpb)
    ensures InRange(b)
  {
    var fatSz16, totSec16 := Word(boot, 22), Word(boot, 19);
    Bpb(Word(boot, 11),
        if fatSz16 == 0 then DWord(boot, 36) else fatSz16,
        boot[16], boot[13], Word(boot, 17),
        if totSec16 == 0 then DWord(boot, 32) else totSec16,
        Word(boot, 14), Word(boot, 42), DWord(boot, 44))
  }

  /** Sectors of all FATs: the product with the number of FATs, which is 1 or 2 where it is taken. */
  function FatSectors(b: Bpb): nat {
    if b.numFats == 2 then b.fatSz + b.fatSz else b.fatSz
  }

  /** Size of everything before the data area, without wrap-around. */
  function SystemSectors(b: Bpb): nat {
    b.rsvdSecCnt + FatSectors(b) + b.rootEntCnt / 16
  }

  /** The same sums as the code's 32-bit arithmetic gives them. */
  function FatSectors32(b: Bpb): (r: nat)
    ensures r < TWO32
  {
    FatSectors(b) % TWO32
  }

  function SystemSectors32(b: Bpb): (r: nat)
    ensures r < TWO32
  {
    (b.rsvdSecCnt + FatSectors32(b) + b.rootEntCnt / 16) % TWO32
  }

  function ClusterCount(b: Bpb): nat
    requires b.secPerClus > 0 && SystemSectors32(b) <= b.totSec
  {
    (b.totSec - SystemSectors32(b)) / b.secPerClus
  }

  /** The sub-type the number of clusters decides. */
  function SubType(nclst: nat): FatType {
    if nclst <= MaxClusters(Fat12) then Fat12 else if nclst <= MaxClusters(Fat16) then Fat16 else Fat32
  }

  const FAT_NAME: seq<byte> := [0x46, 0x41, 0x54]
  const FAT32_NAME: seq<byte> := [0x46, 0x41, 0x54, 0x33, 0x32]

  /** check_fs: the signature, a jump instruction, and the type in one of its two places. */
  predicate IsFatBoot(s: Sector) {
    && Word(s, 510) == 0xAA55
    && (s[0] == 0xE9 || s[0] == 0xEB || s[0] == 0xE8)
    && (s[54..57] == FAT_NAME || s[82..87] == FAT32_NAME)
  }

  /** find_volume for a volume that begins at bsect. */
  function FindVolume(boot: Sector, bsect: nat): Option<Geometry>
    requires bsect < TWO32
  {
    if IsFatBoot(boot) then Layout(Fields(boot), bsect) else None
  }

  function Layout(b: Bpb, bsect: nat): Option<Geometry>
    requires bsect < TWO32
  {
    if b.bytsPerSec != 512 then None
    else if b.numFats != 1 && b.numFats != 2 then None
    else if b.secPerClus == 0 || And(b.secPerClus, b.secPerClus - 1) != 0 then None
    else if b.rootEntCnt % 16 != 0 then None
    else if b.rsvdSecCnt == 0 then None
    else if b.totSec < SystemSectors32(b) then None
    else
      var nclst := ClusterCount(b);
      if nclst == 0 || nclst > MaxClusters(Fat32) then None
      else
        var fmt, n := SubType(nclst), nclst + 2;
        var fatbase := (bsect + b.rsvdSecCnt) % TWO32;
        var database := (bsect + SystemSectors32(b)) % TWO32;
        if fmt == Fat32 && (b.fsVer32 != 0 || b.rootEntCnt != 0) then None
        else if fmt != Fat32 && b.rootEntCnt == 0 then None
        else if b.fatSz < (TableBytes(fmt, n) + 511) / 512 then None
        else
          var dirbase := if fmt == Fat32 then b.rootClus32 else (fatbase + FatSectors32(b)) % TWO32;
          Some(Geometry(fmt, b.numFats, b.fatSz, b.secPerClus, b.rootEntCnt, n, bsect, fatbase, dirbase, database))
  }

  /** The boot sector of a volume of 1440 KiB, as on a floppy disk, that gives the size of each of its two FATs, 9 sectors
      and top times 2^24, in the 32-bit field. */
  function FloppyBoot(top: byte): (boot: Sector)
    ensures Fields(boot) == Bpb(512, 9 + 0x100_0000 * top as int, 2, 1, 224, 2880, 1, 0, 0) && IsFatBoot(boot)
  {
    var blank: seq<byte> := seq(512, _ => 0);
    var fields := blank[12 := 2][13 := 1][14 := 1][16 := 2][17 := 224][19 := 0x40][20 := 0x0B][36 := 9][39 := top];
    var boot: Sector := fields[0 := 0xEB][54 := 0x46][55 := 0x41][56 := 0x54][510 := 0x55][511 := 0xAA];
    assert boot[54..57] == FAT_NAME;
    boot
  }

  /** It is accepted, and no sum wraps. */
  lemma FloppyAccepted()
    ensures FindVolume(FloppyBoot(0), 0).Some? && NoWrap(Fields(FloppyBoot(0)), 0)
  {
    hide FloppyBoot, IsFatBoot, Fields;
    assert And(1, 0) == 0;
    assert TableBytes(Fat12, 2849) <= 9 * 512;
  }

  /** With 2^31 added to the size of each FAT it is accepted too, since the doubled size wraps, and its layout is not sound. */
  lemma WrapAccepted()
    ensures var boot := FloppyBoot(0x80);
            && FindVolume(boot, 0).Some? && !NoWrap(Fields(boot), 0)
            && !WellFormed(FindVolume(boot, 0).value, 2880)
  {
    hide FloppyBoot, IsFatBoot, Fields;
    assert And(1, 0) == 0;
    assert TableBytes(Fat12, 2849) <= 9 * 512;
    AcceptedIffNoWrap(FloppyBoot(0x80), 0);
  }

  /** None of the 32-bit sums wraps. */
  predicate NoWrap(b: Bpb, bsect: nat) {
    SystemSectors(b) < TWO32 && bsect + b.totSec <= TWO32
  }

  /** The test the code makes for a cluster size: clearing the lowest bit leaves nothing. */
  lemma {:induction false} SingleBit(k: nat)
    requires k > 0
    ensures And(k, k - 1) == 0 <==> PowerOfTwo(k)
  {
    if k == 1 {
    } else if k % 2 == 0 {
      assert (k - 1) / 2 == k / 2 - 1 && (k - 1) % 2 == 1;
      SingleBit(k / 2);
    } else {
      assert (k - 1) / 2 == k / 2;
      AndSelf(k / 2);
    }
  }

  lemma {:induction false} AndSelf(x: nat)
    ensures And(x, x) == x
  {
    if x != 0 {
      AndSelf(x / 2);
    }
  }

  lemma {:induction false} PowersApart(k: nat, m: nat)
    requires PowerOfTwo(k) && PowerOfTwo(m) && k < 2 * m
    ensures k <= m
  {
    if k > 1 && m > 1 {
      PowersApart(k / 2, m / 2);
    }
  }

  /** An accepted boot sector describes a sound layout exactly when no 32-bit sum wraps. */
  lemma AcceptedIffNoWrap(boot: Sector, bsect: nat)
    requires bsect < TWO32 && FindVolume(boot, bsect).Some?
    ensures WellFormed(FindVolume(boot, bsect).value, bsect + Fields(boot).totSec) <==> NoWrap(Fields(boot), bsect)
  {
    if NoWrap(Fields(boot), bsect) {
      NoWrapIsSound(Fields(boot), bsect);
    }
    if WellFormed(FindVolume(boot, bsect).value, bsect + Fields(boot).totSec) {
      SoundDoesNotWrap(Fields(boot), bsect);
    }
  }

  lemma NoWrapIsSound(b: Bpb, bsect: nat)
    requires InRange(b) && bsect < TWO32 && Layout(b, bsect).Some? && NoWrap(b, bsect)
    ensures WellFormed(Layout(b, bsect).value, bsect + b.totSec)
  {
    hide Layout, And, PowerOfTwo, Times, TableBytes, ClusterCount, SystemSectors32, FatSectors32, SubType;
    var g := Layout(b, bsect).value;
    Accepted(b, bsect);
    SubTypeRoom(ClusterCount(b));
    SingleBit(b.secPerClus);
    SmallPower(b.secPerClus);
    ClustersFit(b);
    SumsExact(b, bsect);
    RoundUp(TableBytes(g.fmt, g.nFatent), b.fatSz);
  }

  /** What an accepted boot sector passes, and the layout it gives. */
  lemma Accepted(b: Bpb, bsect: nat)
    requires bsect < TWO32 && Layout(b, bsect).Some?
    ensures 1 <= b.numFats <= 2 && b.secPerClus > 0 && And(b.secPerClus, b.secPerClus - 1) == 0
    ensures b.rootEntCnt % 16 == 0 && b.rsvdSecCnt > 0 && SystemSectors32(b) <= b.totSec
    ensures var nclst := ClusterCount(b); var fmt := SubType(nclst); var fatbase := (bsect + b.rsvdSecCnt) % TWO32;
            && 0 < nclst <= MaxClusters(Fat32) && (fmt == Fat32 <==> b.rootEntCnt == 0)
            && (TableBytes(fmt, nclst + 2) + 511) / 512 <= b.fatSz
            && Layout(b, bsect).value ==
                 Geometry(fmt, b.numFats, b.fatSz, b.secPerClus, b.rootEntCnt, nclst + 2, bsect, fatbase,
                          if fmt == Fat32 then b.rootClus32 else (fatbase + FatSectors32(b)) % TWO32,
                          (bsect + SystemSectors32(b)) % TWO32)
  {
    hide And, TableBytes, ClusterCount, SystemSectors32, FatSectors32, SubType;
  }

  lemma SubTypeRoom(nclst: nat)
    requires nclst <= MaxClusters(Fat32)
    ensures nclst <= MaxClusters(SubType(nclst))
  {
  }

  lemma SmallPower(k: nat)
    requires PowerOfTwo(k) && k < 0x100
    ensures k <= 128
  {
    PowersApart(k, 128);
  }

  lemma SumsExact(b: Bpb, bsect: nat)
    requires InRange(b) && bsect < TWO32 && NoWrap(b, bsect) && SystemSectors32(b) < b.totSec
    ensures FatSectors32(b) == FatSectors(b) && SystemSectors32(b) == SystemSectors(b)
    ensures (bsect + b.rsvdSecCnt) % TWO32 == bsect + b.rsvdSecCnt
    ensures (bsect + b.rsvdSecCnt + FatSectors(b)) % TWO32 == bsect + b.rsvdSecCnt + FatSectors(b)
    ensures (bsect + SystemSectors(b)) % TWO32 == bsect + SystemSectors(b)
  {
  }

  lemma RoundUp(x: nat, k: nat)
    requires (x + 511) / 512 <= k
    ensures x <= k * 512
  {
  }

  lemma SoundDoesNotWrap(b: Bpb, bsect: nat)
    requires InRange(b) && bsect < TWO32 && Layout(b, bsect).Some?
    requires WellFormed(Layout(b, bsect).value, bsect + b.totSec)
    ensures NoWrap(b, bsect)
  {
    hide PowerOfTwo, Times;
    var g := Layout(b, bsect).value;
    ClustersFit(b);
    SumsTell(bsect, b.rsvdSecCnt, FatSectors(b), b.rootEntCnt / 16, b.totSec, g.fatbase, g.database);
  }

  /** From the 32-bit results alone: where areas follow each other nothing has wrapped. */
  lemma SumsTell(bsect: nat, rsv: nat, f: nat, root: nat, tot: nat, fatbase: nat, database: nat)
    requires bsect + tot <= TWO32 && rsv < 0x1_0000 && root < 0x1_0000
    requires var sys := (rsv + f % TWO32 + root) % TWO32; sys < tot && database == (bsect + sys) % TWO32
    requires fatbase == (bsect + rsv) % TWO32
    requires bsect < fatbase && fatbase + f <= database
    ensures rsv + f + root < TWO32
  {
    var sys := (rsv + f % TWO32 + root) % TWO32;
    assert database == bsect + sys;
    assert f < TWO32;
    assert fatbase == bsect + rsv;
  }

  lemma ClustersFit(b: Bpb)
    requires b.secPerClus > 0 && SystemSectors32(b) <= b.totSec
    ensures Times(b.secPerClus, ClusterCount(b)) <= b.totSec - SystemSectors32(b)
    ensures ClusterCount(b) > 0 ==> SystemSectors32(b) < b.totSec
  {
    var free := b.totSec - SystemSectors32(b);
    assert free == b.secPerClus * (free / b.secPerClus) + free % b.secPerClus;
    TimesIsProduct(b.secPerClus, ClusterCount(b));
  }

  // ---------------------------------------------------------------- mounting in bytes

  lemma ByteBits(k: byte)
    ensures k > 0 && And(k, k - 1) == 0 <==> k in {1, 2, 4, 8, 0x10, 0x20, 0x40, 0x80}
  {
    if k > 0 {
      SingleBit(k);
      assert PowerOfTwo(k) <==> k in {1, 2, 4, 8, 0x10, 0x20, 0x40, 0x80} by {
        SmallPowers(k);
      }
    }
  }

  lemma SmallPowers(k: nat)
    requires 0 < k < 0x100
    ensures PowerOfTwo(k) <==> k in {1, 2, 4, 8, 0x10, 0x20, 0x40, 0x80}
  {
    if k > 1 {
      SmallPowers(k / 2);
    }
  }

  lemma BootMeans(s: Sector)
    ensures IsFatBoot(s) <==>
              && Word(s, 510) == 0xAA55 && s[0] in {0xE8, 0xE9, 0xEB}
              && ((s[54] == 0x46 && s[55] == 0x41 && s[56] == 0x54)
                  || (s[82] == 0x46 && s[83] == 0x41 && s[84] == 0x54 && s[85] == 0x33 && s[86] == 0x32))
  {
    hide Word;
    assert s[54..57] == FAT_NAME <==> s[54] == 0x46 && s[55] == 0x41 && s[56] == 0x54;
    assert s[82..87] == FAT32_NAME <==> s[82] == 0x46 && s[83] == 0x41 && s[84] == 0x54 && s[85] == 0x33 && s[86] == 0x32;
  }

  lemma LayoutAccepts(b: Bpb, bsect: nat)
    requires bsect < TWO32 && InRange(b)
    ensures Layout(b, bsect).Some? <==>
              && b.bytsPerSec == 512 && b.numFats in {1, 2} && b.secPerClus in {1, 2, 4, 8, 0x10, 0x20, 0x40, 0x80}
              && b.rootEntCnt % 16 == 0 && b.rsvdSecCnt != 0 && SystemSectors32(b) <= b.totSec
              && var nclst := (b.totSec - SystemSectors32(b)) / b.secPerClus;
                 && 0 < nclst <= 0x0FFF_FFF5
                 && (if nclst <= 0xFF5 then b.rootEntCnt != 0 && b.fatSz >= ((nclst + 2) * 3 / 2 + (nclst + 2) % 2 + 511) / 512
                     else if nclst <= 0xFFF5 then b.rootEntCnt != 0 && b.fatSz >= ((nclst + 2) * 2 + 511) / 512
                     else b.fsVer32 == 0 && b.rootEntCnt == 0 && b.fatSz >= ((nclst + 2) * 4 + 511) / 512)
  {
    hide And, SystemSectors32;
    ByteBits(b.secPerClus);
  }

  /** Exactly which boot sectors are accepted, field by field at their offsets in the sector; sums are those of 32 bits. */
  lemma AcceptedMeans(boot: Sector, bsect: nat)
    requires bsect < TWO32
    ensures FindVolume(boot, bsect).Some? <==>
              var fsize := if Word(boot, 22) != 0 then Word(boot, 22) else DWord(boot, 36);
              var tot := if Word(boot, 19) != 0 then Word(boot, 19) else DWord(boot, 32);
              var fats := if boot[16] == 2 then 2 * fsize else fsize;
              var sys := (Word(boot, 14) + fats % TWO32 + Word(boot, 17) / 16) % TWO32;
              && Word(boot, 510) == 0xAA55 && boot[0] in {0xE8, 0xE9, 0xEB}
              && ((boot[54] == 0x46 && boot[55] == 0x41 && boot[56] == 0x54)
                  || (boot[82] == 0x46 && boot[83] == 0x41 && boot[84] == 0x54 && boot[85] == 0x33 && boot[86] == 0x32))
              && Word(boot, 11) == 512 && boot[16] in {1, 2} && boot[13] in {1, 2, 4, 8, 0x10, 0x20, 0x40, 0x80}
              && Word(boot, 17) % 16 == 0 && Word(boot, 14) != 0 && sys <= tot
              && var nclst := (tot - sys) / boot[13] as int;
                 && 0 < nclst <= 0x0FFF_FFF5
                 && (if nclst <= 0xFF5 then Word(boot, 17) != 0 && fsize >= ((nclst + 2) * 3 / 2 + (nclst + 2) % 2 + 511) / 512
                     else if nclst <= 0xFFF5 then Word(boot, 17) != 0 && fsize >= ((nclst + 2) * 2 + 511) / 512
                     else Word(boot, 42) == 0 && Word(boot, 17) == 0 && fsize >= ((nclst + 2) * 4 + 511) / 512)
  {
    hide Word, DWord, IsFatBoot, Layout;
    BootMeans(boot);
    LayoutAccepts(Fields(boot), bsect);
  }

  /** And the layout of the volume. */
  lemma LayoutMeans(boot: Sector, bsect: nat)
    requires bsect < TWO32 && FindVolume(boot, bsect).Some?
    ensures boot[13] > 0
    ensures var fsize := if Word(boot, 22) != 0 then Word(boot, 22) else DWord(boot, 36);
            var tot := if Word(boot, 19) != 0 then Word(boot, 19) else DWord(boot, 32);
            var fats := if boot[16] == 2 then 2 * fsize else fsize;
            var sys := (Word(boot, 14) + fats % TWO32 + Word(boot, 17) / 16) % TWO32;
            var g := FindVolume(boot, bsect).value;
            && g.fsize == fsize && g.nFats == boot[16] as int && g.csize == boot[13] as int && g.nRootdir == Word(boot, 17)
            && g.volbase == bsect && g.fatbase == (bsect + Word(boot, 14)) % TWO32 && g.database == (bsect + sys) % TWO32
            && g.nFatent == (tot - sys) / boot[13] as int + 2
            && (g.fmt == Fat12 <==> g.nFatent - 2 <= 0xFF5) && (g.fmt == Fat32 <==> g.nFatent - 2 > 0xFFF5)
            && g.dirbase == if g.fmt == Fat32 then DWord(boot, 44) else (g.fatbase + fats % TWO32) % TWO32
  {
    hide And, Word, DWord;
  }
}
