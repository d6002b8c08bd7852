/** Several open files on one volume: every run treats each of them as a flat byte sequence of its own. */
module FileRuns {
  import opened Bits
  import opened Geometry
  import opened Volume
  import opened Chains
  import opened Allocator
  import opened Span
  import opened FileBytes
  import opened FileAccess

  /** An open file to its caller: its bytes, its pointer, its access mode, how many clusters it holds, and an error that
      ended its use. */
  datatype FlatFile = FlatFile(bytes: seq<byte>, pos: nat, canRead: bool, canWrite: bool, held: nat, err: FResult)

  /** The open files of a volume, and what allocation goes by. */
  datatype FlatVolume = FlatVolume(files: seq<FlatFile>, room: Room)

  datatype FileOp = Read(k: nat, count: nat) | Write(k: nat, data: seq<byte>) | Seek(k: nat, ofs: nat) | Truncate(k: nat)

  /** Counts and offsets are 32-bit values. */
  predicate Fits(op: FileOp) {
    (op.Read? ==> op.count < TWO32) && (op.Write? ==> |op.data| < TWO32) && (op.Seek? ==> op.ofs < TWO32)
  }

  datatype Outcome = Outcome(res: FResult, data: seq<byte>, n: nat)

  /** How far a file can be written: to the end of the clusters it holds and can take. */
  function FarEnd(g: Geometry, f: FlatFile, room: Room): (r: nat)
  {
    512 * Times(g.csize, f.held + Supply(g.nFatent, room))
  }

  /** How many bytes a write takes at most: the file cannot reach 4 GiB. */
  function Limit(f: FlatFile, count: nat): (r: nat)
    requires f.pos < TWO32
    ensures r == Min(count, 0xFFFF_FFFF - f.pos)
  {
    if f.pos + count >= TWO32 then 0xFFFF_FFFF - f.pos else count
  }

  /** One operation on a flat file; clean tells that no entry of the table is 1. Only the bytes between the old end and the
      target of a seek are left open. On a table that is not clean a write or seek that takes clusters may break off at the
      end of the clusters it has, and the file is out of use from then on. */
  ghost predicate FlatStep(g: Geometry, clean: bool, f: FlatFile, room: Room, op: FileOp, out: Outcome, f': FlatFile, room': Room)
    requires g.csize > 0
  {
    if f.err != Ok then f' == f && room' == room && out == Outcome(f.err, [], 0)
    else
      && f.pos <= |f.bytes| < TWO32 && |f'.bytes| < TWO32
      && match op
         case Read(_, count) =>
           && room' == room
           && (if f.canRead then
                 && f' == f.(pos := f.pos + Min(count, |f.bytes| - f.pos))
                 && out == Outcome(Ok, f.bytes[f.pos..f'.pos], 0)
               else f' == f && out == Outcome(Denied, [], 0))
         case Write(_, data) =>
           if f.canWrite then WriteStep(g, clean, f, room, data, out, f', room')
           else f' == f && room' == room && out == Outcome(Denied, [], 0)
         case Seek(_, ofs) =>
           && out == Outcome(out.res, [], 0)
           && f' == f.(bytes := f'.bytes, pos := f'.pos, held := Max(f.held, Need(g.csize, f'.pos)), err := out.res)
           && Took(g.nFatent, room, f'.held - f.held, room')
           && (if out.res == Ok then
                 && f'.pos == Min(ofs, if f.canWrite then FarEnd(g, f, room) else |f.bytes|)
                 && |f'.bytes| == Max(|f.bytes|, f'.pos) && f'.bytes[..|f.bytes|] == f.bytes
               else f.canWrite && f'.bytes == f.bytes && BrokeOff(g, clean, out, f', ofs))
         case Truncate(_) =>
           if f.canWrite then
             && out == Outcome(Ok, [], 0)
             && f' == f.(bytes := f.bytes[..f.pos], held := if f.pos < |f.bytes| then Need(g.csize, f.pos) else f.held)
             && f'.held <= f.held && room' == Given(g.nFatent, room, f.held - f'.held)
           else f' == f && room' == room && out == Outcome(Denied, [], 0)
  }

  /** A write stores as much of the data as fits, and takes the clusters it needs. */
  ghost predicate WriteStep(g: Geometry, clean: bool, f: FlatFile, room: Room, data: seq<byte>, out: Outcome, f': FlatFile,
                            room': Room)
    requires g.csize > 0 && f.pos <= |f.bytes| < TWO32
  {
    var most := Min(Limit(f, |data|), FarEnd(g, f, room) - f.pos);
    && out == Outcome(out.res, [], out.n) && out.n <= most
    && f' == f.(bytes := Overwrite(f.bytes, f.pos, data[..out.n]), pos := f.pos + out.n,
                held := Max(f.held, Need(g.csize, f.pos + out.n)), err := out.res)
    && Took(g.nFatent, room, f'.held - f.held, room')
    && (if out.res == Ok then out.n == most else BrokeOff(g, clean, out, f', f.pos + Limit(f, |data|)))
  }

  /** An operation that was to come to the offset target broke off before, at the end of the file's clusters. */
  ghost predicate BrokeOff(g: Geometry, clean: bool, out: Outcome, f': FlatFile, target: nat) {
    !clean && out.res == IntErr && f'.pos == 512 * Times(g.csize, f'.held) < target
  }

  /** All files in one step: the one named changes, no other does. */
  ghost predicate Step(g: Geometry, clean: bool, s: FlatVolume, op: FileOp, out: Outcome, s': FlatVolume)
    requires g.csize > 0
  {
    && |s'.files| == |s.files|
    && (if op.k < |s.files| then
          && FlatStep(g, clean, s.files[op.k], s.room, op, out, s'.files[op.k], s'.room)
          && s'.files == s.files[op.k := s'.files[op.k]]
        else s' == s)
  }

  /** What an operation that does not break off does is determined, but for the bytes a seek puts behind the end of a file. */
  lemma StepDetermined(g: Geometry, clean: bool, s: FlatVolume, op: FileOp, out1: Outcome, s1: FlatVolume,
                       out2: Outcome, s2: FlatVolume)
    requires g.csize > 0 && op.k < |s.files|
    requires Step(g, clean, s, op, out1, s1) && Step(g, clean, s, op, out2, s2)
    requires s.files[op.k].err == Ok ==> out1.res != IntErr && out2.res != IntErr
    ensures var f, f1, f2 := s.files[op.k], s1.files[op.k], s2.files[op.k];
            && out1 == out2 && s1.room == s2.room && f1.(bytes := f2.bytes) == f2 && |f1.bytes| == |f2.bytes|
            && (s1 == s2 || (op.Seek? && f.canWrite && op.ofs > |f.bytes| && f.bytes <= f1.bytes && f.bytes <= f2.bytes))
  {
    var f, f1, f2 := s.files[op.k], s1.files[op.k], s2.files[op.k];
    assert f1.pos == f2.pos;
    if op.Seek? && f.err == Ok {
      assert |f1.bytes| == |f.bytes| ==> f1.bytes[..|f.bytes|] == f1.bytes;
      assert |f2.bytes| == |f.bytes| ==> f2.bytes[..|f.bytes|] == f2.bytes;
    }
  }

  /** By numbers, on a table without an entry of 1 and with a free count that is unknown or right: a write to below 4 GiB into
      the clusters that are held or free stores all its bytes, and a seek there gets to its target. */
  lemma RoomIsUsable(g: Geometry, s: FlatVolume, op: FileOp, out: Outcome, s': FlatVolume, to: nat)
    requires g.csize > 0 && op.k < |s.files| && Step(g, true, s, op, out, s') && (op.Write? || op.Seek?)
    requires s.files[op.k].err == Ok && s.files[op.k].canWrite
    requires s.room.known + 2 > g.nFatent || s.room.known == s.room.free
    requires to == (if op.Write? then s.files[op.k].pos + |op.data| else op.ofs)
    requires to < TWO32 && to <= 512 * (g.csize * (s.files[op.k].held + s.room.free))
    ensures var f, f' := s.files[op.k], s'.files[op.k];
            && out == Outcome(Ok, [], if op.Write? then |op.data| else 0) && f'.err == Ok && f'.pos == to
            && |f'.bytes| == (if to > |f.bytes| then to else |f.bytes|)
            && (op.Write? ==> f'.bytes[f.pos..to] == op.data && f'.bytes[..f.pos] == f.bytes[..f.pos]
                              && (to <= |f.bytes| ==> f'.bytes[to..] == f.bytes[to..]))
            && (op.Seek? ==> f'.bytes[..|f.bytes|] == f.bytes)
  {
    var f := s.files[op.k];
    TimesIsProduct(g.csize, f.held + s.room.free);
  }

  /** An operation breaks off only when it has to take clusters, and only on a table with an entry of 1. */
  lemma OnlyGrowthBreaks(g: Geometry, clean: bool, s: FlatVolume, op: FileOp, out: Outcome, s': FlatVolume)
    requires g.csize > 0 && op.k < |s.files| && Step(g, clean, s, op, out, s')
    requires s.files[op.k].err == Ok && out.res == IntErr
    ensures var f := s.files[op.k];
            && !clean && f.canWrite && (op.Write? || op.Seek?)
            && (if op.Write? then f.pos + |op.data| else op.ofs) > 512 * Times(g.csize, f.held)
            && s'.files[op.k].err == IntErr && f.bytes[..f.pos] <= s'.files[op.k].bytes
  {
    TimesMonotone(g.csize, s.files[op.k].held, s'.files[op.k].held);
  }

  /** Where the free count is exact or unknown, the supply is all that is free, and it stays so. */
  ghost predicate Exact(n: nat, room: Room) {
    room.known + 2 > n || room.known == room.free
  }

  lemma StaysExact(g: Geometry, clean: bool, s: FlatVolume, op: FileOp, out: Outcome, s': FlatVolume)
    requires g.csize > 0 && Step(g, clean, s, op, out, s') && Exact(g.nFatent, s.room) && s'.room.free + 2 <= g.nFatent
    ensures Exact(g.nFatent, s'.room)
  {
  }

  /** Open files of one volume, whose chains share no cluster. */
  ghost predicate AllOk(fs: FatFs, files: seq<Fil>)
    reads fs, fs.win, files
  {
    && fs.geo.csize > 0 && 2 <= |fs.fat| == fs.geo.nFatent
    && (forall i :: 0 <= i < |files| ==> files[i].fs == fs && files[i].Valid())
    && (forall i, j :: 0 <= i < j < |files| ==> files[i] != files[j])
    && (forall i, j :: 0 <= i < |files| && 0 <= j < |files| && i != j ==> Disjoint(files[i].chain, files[j].chain))
  }

  ghost function AsFlat(f: Fil): FlatFile
    requires f.Valid()
    reads f, f.fs, f.fs.win
  {
    FlatFile(f.Bytes(), f.fptr, f.canRead, f.canWrite, |f.chain|, f.err)
  }

  ghost function Flats(fs: FatFs, files: seq<Fil>): (r: seq<FlatFile>)
    requires AllOk(fs, files)
    reads fs, fs.win, files
    ensures |r| == |files|
  {
    seq(|files|, i requires 0 <= i < |files| && AllOk(fs, files) reads fs, fs.win, files => AsFlat(files[i]))
  }

  ghost function AsVolume(fs: FatFs, files: seq<Fil>): FlatVolume
    requires AllOk(fs, files)
    reads fs, fs.win, files
  {
    FlatVolume(Flats(fs, files), RoomOf(fs))
  }

  /** A step of the file f, which turned the values chain, fat and store into its present ones, leaves another file as it
      was. */
  lemma OtherKept(f: Fil, g: Fil, chain: seq<nat>, fat: seq<nat>, store: seq<Sector>, own: seq<nat>)
    requires f.Valid() && g.fs == f.fs && (g.err == Ok ==> g.CursorOk()) && Disjoint(chain, g.chain)
    requires IsChain(fat, f.fs.geo.nFatent, g.chain) && (if g.chain == [] then g.sclust == 0 else g.sclust == g.chain[0])
    requires Clusters(g.fs.geo, g.chain) && g.objsize <= 512 * Capacity(g.fs.geo, g.chain) && g.objsize < TWO32
    requires |store| == |f.fs.store| && Frame(f.fs.geo, chain, fat, store, own, f.fs.fat, f.fs.store)
    requires forall c :: c in f.chain ==> c in own
    ensures g.Valid() && g.Bytes() == Content(g.fs.geo, store, g.chain, g.objsize)
    ensures Disjoint(f.chain, g.chain) && Disjoint(g.chain, f.chain)
  {
    FrameKeeps(f.fs.geo, chain, fat, store, own, f.fs.fat, f.fs.store, g.chain, g.objsize);
  }

  /** One operation on the file f turned what it was into what it is, and touched no cluster but its own and free ones. */
  ghost predicate Done(f: Fil, op: FileOp, out: Outcome, flat: FlatFile, was: Holding, own: seq<nat>)
    reads f, f.fs, f.fs.win
  {
    && f.Valid() && FlatStep(f.fs.geo, NoOnes(f.fs.geo.nFatent, was.fat), flat, was.room, op, out, AsFlat(f), RoomOf(f.fs))
    && Frame(f.fs.geo, was.chain, was.fat, was.store, own, f.fs.fat, f.fs.store) && (forall c :: c in f.chain ==> c in own)
    && (NoOnes(f.fs.geo.nFatent, was.fat) <==> NoOnes(f.fs.geo.nFatent, f.fs.fat))
  }

  method PerformRead(f: Fil, k: nat, count: nat) returns (out: Outcome, ghost own: seq<nat>)
    requires f.Valid() && count < TWO32
    modifies f, f.fs, f.fs.win
    ensures |f.fs.disk| == old(|f.fs.disk|) && Done(f, Read(k, count), out, old(AsFlat(f)), old(f.Now()), own)
  {
    hide FatFs.WindowOk, Clusters, WellFormed, PowerOfTwo, Frame, Content, NoOnes, CountFree, Need, Times, Owned, IsChain, Quot;
    var res, data := f.FRead(count);
    FrameSame(f.fs.geo, f.chain, f.fs.fat, f.fs.store);
    out, own := Outcome(res, data, 0), f.chain;
  }

  method PerformWrite(f: Fil, k: nat, data: seq<byte>) returns (out: Outcome, ghost own: seq<nat>)
    requires f.Valid() && |data| < TWO32
    modifies f, f.fs, f.fs.win
    ensures |f.fs.disk| == old(|f.fs.disk|) && Done(f, Write(k, data), out, old(AsFlat(f)), old(f.Now()), own)
  {
    hide FatFs.WindowOk, Clusters, WellFormed, PowerOfTwo, Frame, Content, NoOnes, CountFree, Need, Times, Owned, IsChain,
      Quot, WriteStep;
    PrefixHeld(f);
    ghost var flat, room := AsFlat(f), RoomOf(f.fs);
    ghost var clean, usable := NoOnes(f.fs.geo.nFatent, f.fs.fat), f.err == Ok && f.canWrite;
    var res, n := f.FWrite(data);
    out, own := Outcome(res, [], n), f.chain;
    if usable {
      WriteIs(f.fs.geo, clean, flat, room, data, out, AsFlat(f), RoomOf(f.fs));
    }
  }

  lemma WriteIs(g: Geometry, clean: bool, f: FlatFile, room: Room, data: seq<byte>, out: Outcome, f': FlatFile, room': Room)
    requires g.csize > 0 && f.pos <= |f.bytes| < TWO32 && f.err == Ok
    requires f'.canRead == f.canRead && f'.canWrite == f.canWrite && f'.pos == f.pos + out.n && out.data == []
    requires out.n <= Min(Limit(f, |data|), FarEnd(g, f, room) - f.pos) && f'.bytes == Overwrite(f.bytes, f.pos, data[..out.n])
    requires f'.held == Max(f.held, Need(g.csize, f'.pos)) && Took(g.nFatent, room, f'.held - f.held, room')
    requires f'.err == out.res
    requires if out.res == Ok then out.n == Min(Limit(f, |data|), FarEnd(g, f, room) - f.pos)
             else !clean && out.res == IntErr && out.n < Limit(f, |data|) && f'.pos == 512 * Times(g.csize, f'.held)
    ensures WriteStep(g, clean, f, room, data, out, f', room')
  {
  }

  method PerformSeek(f: Fil, k: nat, ofs: nat) returns (out: Outcome, ghost own: seq<nat>)
    requires f.Valid() && ofs < TWO32
    modifies f, f.fs, f.fs.win
    ensures |f.fs.disk| == old(|f.fs.disk|) && Done(f, Seek(k, ofs), out, old(AsFlat(f)), old(f.Now()), own)
  {
    hide FatFs.WindowOk, Clusters, WellFormed, PowerOfTwo, Frame, Content, NoOnes, CountFree, Need, Times, Owned, IsChain, Quot;
    var res := f.FLseek(ofs);
    WholeBytes(f);
    out, own := Outcome(res, [], 0), f.chain;
  }

  method PerformTruncate(f: Fil, k: nat) returns (out: Outcome, ghost own: seq<nat>)
    requires f.Valid()
    modifies f, f.fs, f.fs.win
    ensures |f.fs.disk| == old(|f.fs.disk|) && Done(f, Truncate(k), out, old(AsFlat(f)), old(f.Now()), own)
  {
    hide FatFs.WindowOk, Clusters, WellFormed, PowerOfTwo, Frame, Content, NoOnes, CountFree, Need, Times, Owned, IsChain, Quot;
    PrefixHeld(f);
    own := f.chain;
    var res := f.FTruncate();
    out := Outcome(res, [], 0);
  }

  /** One operation on the k-th file. */
  method Perform(f: Fil, op: FileOp) returns (out: Outcome, ghost own: seq<nat>)
    requires f.Valid() && Fits(op)
    modifies f, f.fs, f.fs.win
    ensures f.Valid() && |f.fs.disk| == old(|f.fs.disk|)
    ensures FlatStep(f.fs.geo, old(NoOnes(f.fs.geo.nFatent, f.fs.fat)), old(AsFlat(f)), old(RoomOf(f.fs)), op, out,
                     AsFlat(f), RoomOf(f.fs))
    ensures Frame(f.fs.geo, old(f.chain), old(f.fs.fat), old(f.fs.store), own, f.fs.fat, f.fs.store)
    ensures forall c :: c in f.chain ==> c in own
    ensures old(NoOnes(f.fs.geo.nFatent, f.fs.fat)) <==> NoOnes(f.fs.geo.nFatent, f.fs.fat)
  {
    hide FatFs.WindowOk, Clusters, WellFormed, PowerOfTwo, Frame, Content, NoOnes, CountFree, FlatStep, IsChain;
    match op {
      case Read(k, count) =>
        out, own := PerformRead(f, k, count);
      case Write(k, data) =>
        out, own := PerformWrite(f, k, data);
      case Seek(k, ofs) =>
        out, own := PerformSeek(f, k, ofs);
      case Truncate(k) =>
        out, own := PerformTruncate(f, k);
    }
  }

  lemma WholeBytes(f: Fil)
    requires f.Shape()
    ensures f.Bytes()[..f.objsize] == f.Bytes()
  {
  }

  /** The clusters of the bytes before the file pointer are held. */
  lemma PrefixHeld(f: Fil)
    requires f.Valid()
    ensures f.err == Ok ==> Need(f.fs.geo.csize, f.fptr) <= |f.chain|
  {
    NeedFits(f.fs.geo.csize, f.fptr, |f.chain|);
  }

  /** One operation among several open files. */
  method PerformAmong(fs: FatFs, files: seq<Fil>, op: FileOp) returns (out: Outcome)
    requires AllOk(fs, files) && Fits(op)
    modifies fs, fs.win, files
    ensures AllOk(fs, files)
    ensures Step(fs.geo, old(NoOnes(fs.geo.nFatent, fs.fat)), old(AsVolume(fs, files)), op, out, AsVolume(fs, files))
    ensures old(NoOnes(fs.geo.nFatent, fs.fat)) <==> NoOnes(fs.geo.nFatent, fs.fat)
  {
    hide FlatStep, Frame, Content, PowerOfTwo, IsChain, CountFree, NoOnes, FatFs.WindowOk, WellFormed, Clusters, Need, Times;
    out := Outcome(Ok, [], 0);
    if op.k < |files| {
      var f := files[op.k];
      ghost var own;
      out, own := Perform(f, op);
      forall i | 0 <= i < |files| && i != op.k
        ensures files[i].Valid() && AsFlat(files[i]) == old(AsFlat(files[i]))
        ensures Disjoint(f.chain, files[i].chain) && Disjoint(files[i].chain, f.chain)
      {
        OtherKept(f, files[i], old(f.chain), old(fs.fat), old(fs.store), own);
      }
    }
  }

  lemma FreeBound(fs: FatFs)
    requires 2 <= fs.geo.nFatent <= |fs.fat|
    ensures RoomOf(fs).free + 2 <= fs.geo.nFatent
  {
  }

  /** Every run, on any table: a trace of flat files explains every outcome, and ends in what the files hold. */
  method Run(fs: FatFs, files: seq<Fil>, ops: seq<FileOp>) returns (outs: seq<Outcome>, ghost trace: seq<FlatVolume>)
    requires AllOk(fs, files) && forall i :: 0 <= i < |ops| ==> Fits(ops[i])
    modifies fs, fs.win, files
    ensures AllOk(fs, files)
    ensures |outs| == |ops| && |trace| == |ops| + 1
    ensures trace[0] == old(AsVolume(fs, files)) && trace[|ops|] == AsVolume(fs, files)
    ensures var clean := old(NoOnes(fs.geo.nFatent, fs.fat));
            forall i :: 0 <= i < |ops| ==> Step(fs.geo, clean, trace[i], ops[i], outs[i], trace[i + 1])
    ensures FreeCountOk(fs.geo.nFatent, old(fs.freeClst), old(fs.fat)) ==>
              forall i :: 0 <= i < |trace| ==> Supply(fs.geo.nFatent, trace[i].room) == trace[i].room.free
  {
    hide Step, CountFree, NoOnes, Fil.Valid;
    ghost var clean := NoOnes(fs.geo.nFatent, fs.fat);
    outs, trace := [], [AsVolume(fs, files)];
    for i := 0 to |ops|
      invariant AllOk(fs, files) && clean == NoOnes(fs.geo.nFatent, fs.fat)
      invariant |outs| == i && |trace| == i + 1
      invariant trace[0] == old(AsVolume(fs, files)) && trace[i] == AsVolume(fs, files)
      invariant forall j :: 0 <= j < i ==> Step(fs.geo, clean, trace[j], ops[j], outs[j], trace[j + 1])
      invariant FreeCountOk(fs.geo.nFatent, old(fs.freeClst), old(fs.fat)) ==>
                  forall j :: 0 <= j < |trace| ==> Exact(fs.geo.nFatent, trace[j].room)
    {
      var out := PerformAmong(fs, files, ops[i]);
      ghost var was := trace[i];
      FreeBound(fs);
      if Exact(fs.geo.nFatent, was.room) {
        StaysExact(fs.geo, clean, was, ops[i], out, AsVolume(fs, files));
      }
      outs, trace := outs + [out], trace + [AsVolume(fs, files)];
    }
  }
}
