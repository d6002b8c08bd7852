/** Mounting a volume: from the boot sector to a filesystem object ready for use. */
module Mounting {
  import opened Wrappers
  import opened Bits
  import opened FatCodec
  import opened Geometry
  import opened Mount
  import opened Volume

  /** The FSInfo sector is in use: a FAT32 volume whose boot sector says so. */
  predicate HasFsInfo(g: Geometry, boot: Sector) {
    g.fmt == Fat32 && Word(boot, 48) == 1
  }

  /** The signatures of an FSInfo sector. */
  predicate IsFsInfo(s: Sector) {
    Word(s, 510) == 0xAA55 && DWord(s, 0) == 0x4161_5252 && DWord(s, 484) == 0x6141_7272
  }

  /** find_volume on the volume whose boot sector is at bsect: an accepted one, whose sums do not wrap and which lies on
      the disk, gives a filesystem object that meets its invariant and shows the disk as it is. */
  method MountVolume(disk: seq<Sector>, bsect: nat) returns (fs: FatFs?)
    requires bsect < |disk| <= TWO32
    requires FindVolume(disk[bsect], bsect).Some? ==>
               NoWrap(Fields(disk[bsect]), bsect) && bsect + Fields(disk[bsect]).totSec <= |disk|
    ensures fs == null <==> FindVolume(disk[bsect], bsect).None?
    ensures fs != null ==> fresh(fs) && fresh(fs.win) && fs.Valid() && Some(fs.geo) == FindVolume(disk[bsect], bsect)
    ensures fs != null ==> fs.disk == fs.store == disk && !fs.wflag
    ensures fs != null ==>
              if fs.geo.fmt == Fat32 && Word(disk[bsect], 48) == 1 && Word(disk[bsect + 1], 510) == 0xAA55
                 && DWord(disk[bsect + 1], 0) == 0x4161_5252 && DWord(disk[bsect + 1], 484) == 0x6141_7272 then
                fs.freeClst == DWord(disk[bsect + 1], 488) && fs.lastClst == DWord(disk[bsect + 1], 492)
              else fs.freeClst == fs.lastClst == 0xFFFF_FFFF
  {
    hide FindVolume, NoWrap, Fields, WellFormed, Decodes, Tells, Word, DWord;
    var boot := disk[bsect];
    var layout := FindVolume(boot, bsect);
    if layout.None? {
      return null;
    }
    var g := layout.value;
    AcceptedOnDisk(boot, bsect, |disk|);
    fs := new FatFs(g, disk, bsect);
    if HasFsInfo(g, boot) {
      fs.MoveWindow(bsect + 1);
      var info: Sector := fs.win[..];
      if IsFsInfo(info) {
        fs.freeClst := DWord(info, 488);
        fs.lastClst := DWord(info, 492);
      }
    }
  }

  lemma AcceptedOnDisk(boot: Sector, bsect: nat, size: nat)
    requires bsect < size <= TWO32 && FindVolume(boot, bsect).Some?
    requires NoWrap(Fields(boot), bsect) && bsect + Fields(boot).totSec <= size
    ensures var g := FindVolume(boot, bsect).value;
            g.volbase == bsect && WellFormed(g, size) && bsect + 1 < size && !g.InMirror(bsect) && !g.InMirror(bsect + 1)
  {
    hide Layout, NoWrap, Fields, WellFormed;
    NoWrapIsSound(Fields(boot), bsect);
    LayoutBase(Fields(boot), bsect);
    LargerDisk(FindVolume(boot, bsect).value, bsect + Fields(boot).totSec, size);
  }

  lemma LayoutBase(b: Bpb, bsect: nat)
    requires bsect < TWO32 && Layout(b, bsect).Some?
    ensures Layout(b, bsect).value.volbase == bsect
  {
  }

  /** A volume that fits on a disk has its areas on it. */
  lemma LargerDisk(g: Geometry, volEnd: nat, size: nat)
    requires WellFormed(g, volEnd) && volEnd <= size <= TWO32
    ensures WellFormed(g, size) && g.volbase + 1 < size && !g.InMirror(g.volbase) && !g.InMirror(g.volbase + 1)
  {
  }
}
