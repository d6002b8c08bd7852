/** dir_read and the storing loop of dir_register over the directory table of a volume. */
module DirRead {
  import opened Bits
  import opened Geometry
  import opened Volume
  import opened Lfn
  import opened DirScan
  import W = DirWalk

  /** The entry at a place of the table. */
  ghost function EntryAt(store: seq<Sector>, p: W.Place): DirEntry
    requires p.sect < |store| && p.dptr % 512 <= 480
  {
    store[p.sect][p.dptr % 512..p.dptr % 512 + 32]
  }

  /** es are the entries of the table, as far as it reaches. */
  ghost predicate TableOn(g: Geometry, fat: seq<nat>, store: seq<Sector>, sclust: nat, es: seq<DirEntry>) {
    && |fat| == g.nFatent && g.csize > 0 && 2 <= g.nFatent < TWO32
    && sclust < TWO32 && g.dirbase < TWO32
    && |es| <= 0x1_0000
    && (forall k :: 0 <= k < |es| ==>
          && W.Sdi(g, fat, sclust, 32 * k).At?
          && W.Sdi(g, fat, sclust, 32 * k).place.sect < |store|
          && W.Sdi(g, fat, sclust, 32 * k).place.dptr % 512 <= 480
          && es[k] == EntryAt(store, W.Sdi(g, fat, sclust, 32 * k).place))
    && W.Sdi(g, fat, sclust, 32 * |es|).Failed?
  }

  ghost predicate TableIs(fs: FatFs, sclust: nat, es: seq<DirEntry>)
    reads fs
  {
    TableOn(fs.geo, fs.fat, fs.store, sclust, es)
  }

  /** The object stands at entry k of its table. */
  ghost predicate AtEntry(dp: W.Dir, es: seq<DirEntry>, k: nat)
    reads dp`dptr, dp`clust, dp`sect, dp`dir, dp.fs
  {
    TableIs(dp.fs, dp.sclust, es) && k < |es| && dp.Stands(W.Sdi(dp.fs.geo, dp.fs.fat, dp.sclust, 32 * k).place)
  }

  /** Fetch the entry the object stands at. */
  method FetchEntry(dp: W.Dir, ghost es: seq<DirEntry>, ghost k: nat) returns (e: DirEntry)
    requires dp.Ready() && AtEntry(dp, es, k)
    modifies dp.fs`disk, dp.fs`wflag, dp.fs`winsect, dp.fs.win
    ensures dp.Ready() && AtEntry(dp, es, k) && e == es[k]
  {
    W.PlaceOnDisk(dp.fs.geo, |dp.fs.disk|, dp.fs.fat, dp.sclust, 32 * k);
    dp.fs.MoveWindow(dp.sect);
    e := dp.fs.win[dp.dir..dp.dir + 32];
  }

  /** Move on to the next entry, or end. */
  method NextEntry(dp: W.Dir, ghost es: seq<DirEntry>, ghost k: nat) returns (res: FResult)
    requires dp.Ready() && AtEntry(dp, es, k)
    modifies dp, dp.fs`disk, dp.fs`wflag, dp.fs`winsect, dp.fs.win
    ensures dp.Ready() && TableIs(dp.fs, dp.sclust, es)
    ensures if k + 1 < |es| then res == Ok && AtEntry(dp, es, k + 1) && dp.blkOfs == old(dp.blkOfs) && dp.sect != 0 else res != Ok
  {
    W.PlaceOnDisk(dp.fs.geo, |dp.fs.disk|, dp.fs.fat, dp.sclust, 32 * k);
    W.StepAgrees(dp.fs.geo, |dp.fs.disk|, dp.fs.fat, dp.sclust, 32 * k);
    assert 32 * (k + 1) == 32 * k + W.SZDIRE;
    if k + 1 < |es| {
      W.PlaceOnDisk(dp.fs.geo, |dp.fs.disk|, dp.fs.fat, dp.sclust, 32 * (k + 1));
    }
    res := dp.DirNext(W.Sdi(dp.fs.geo, dp.fs.fat, dp.sclust, 32 * k).place);
  }

  /** The state is that of the scan, and the buffer holds what has been picked of an unfinished or complete long name. */
  ghost predicate Scanning(st: State, es: seq<DirEntry>, vol: bool, k: nat, i: nat, blk: nat, buf: seq<nat>, buf0: seq<nat>) {
    && k <= i <= |es| && st == StateAt(es, vol, k, i, blk)
    && (forall h :: k <= h < i ==> Classify(es[h], vol) in {Blank, Long})
    && (st.ord != 0xFF ==> st.blk % 32 == 0 && k <= st.blk / 32 < i && Picked(buf, buf0, es, st.blk / 32, i))
  }

  /** The branch of dir_read for a long entry. */
  method TakeLongEntry(st: State, e: DirEntry, dptr: nat, lfnbuf: array<nat>,
                       ghost es: seq<DirEntry>, ghost vol: bool, ghost k: nat, ghost i: nat, ghost blk: nat, ghost buf0: seq<nat>)
    returns (st': State, ghost buf1: seq<nat>)
    requires i < |es| && e == es[i] && Classify(e, vol) == Long && dptr == 32 * i && lfnbuf.Length == MAX_LFN + 1
    requires Scanning(st, es, vol, k, i, blk, lfnbuf[..], buf0)
    modifies lfnbuf
    ensures Scanning(st', es, vol, k, i + 1, blk, lfnbuf[..], buf1)
  {
    hide PickOk, PickInto, PickAll, SumSfn;
    buf1 := buf0;
    st' := st;
    if IsLast(e[0]) {
      st' := State(Order(e[0]), e[13], dptr);
      buf1 := lfnbuf[..];
    }
    ghost var before := lfnbuf[..];
    var ok := false;
    if Order(e[0]) == st'.ord && st'.sum == e[13] {
      ok := PickLfn(lfnbuf, e);
    }
    if ok {
      OrderFits(e);
      PickedMore(before, buf1, es, st'.blk / 32, i);
      st' := st'.(ord := st'.ord - 1);
    } else {
      st' := st'.(ord := 0xFF);
    }
  }

  /** What dir_read does with an entry it does not stop at. */
  method TakeEntry(st: State, e: DirEntry, dptr: nat, vol: bool, lfnbuf: array<nat>,
                   ghost es: seq<DirEntry>, ghost k: nat, ghost i: nat, ghost blk: nat, ghost buf0: seq<nat>)
    returns (st': State, ghost buf1: seq<nat>)
    requires i < |es| && e == es[i] && Classify(e, vol) in {Blank, Long} && dptr == 32 * i && lfnbuf.Length == MAX_LFN + 1
    requires Scanning(st, es, vol, k, i, blk, lfnbuf[..], buf0)
    modifies lfnbuf
    ensures Scanning(st', es, vol, k, i + 1, blk, lfnbuf[..], buf1) && Stop(es, vol, i) == Stop(es, vol, i + 1)
  {
    hide Picked, StateAt, Stop;
    var c, a := e[0], e[11] % 0x40;
    OneMore(es, vol, k, i, blk);
    if c == 0xE5 || c == 0x2E || (a % 0x20 == 0x08) != vol {
      st', buf1 := st.(ord := 0xFF), buf0;
    } else {
      st', buf1 := TakeLongEntry(st, e, dptr, lfnbuf, es, vol, k, i, blk, buf0);
    }
  }

  /** dir_read from entry k on: it stops at the first short entry; a reported long name is in the buffer. In bytes: it
      passes over deleted and dot entries, long entries and those of the other kind, reports an entry that is none of
      these, and fails only at the end mark or the end of the table. */
  method DirReadEntry(dp: W.Dir, vol: bool, lfnbuf: array<nat>, ghost es: seq<DirEntry>, ghost k: nat)
    returns (res: FResult, ghost buf0: seq<nat>)
    requires dp.Ready() && TableIs(dp.fs, dp.sclust, es) && k <= |es|
    requires if dp.sect != 0 then AtEntry(dp, es, k) else k == |es|
    requires lfnbuf.Length == MAX_LFN + 1
    modifies dp, dp.fs`disk, dp.fs`wflag, dp.fs`winsect, dp.fs.win, lfnbuf
    ensures dp.Ready() && TableIs(dp.fs, dp.sclust, es)
    ensures var j := Stop(es, vol, k);
            if j < |es| && Classify(es[j], vol) == Short then
              && res == Ok && AtEntry(dp, es, j) && dp.blkOfs == Reported(es, vol, k, old(dp.blkOfs))
              && (dp.blkOfs != NO_LFN ==>
                    k <= dp.blkOfs / 32 < j && Picked(lfnbuf[..], buf0, es, dp.blkOfs / 32, j))
            else res != Ok && dp.sect == 0
    ensures var j := Stop(es, vol, k);
            && (forall i :: k <= i < j ==>
                  && es[i][0] != 0
                  && (es[i][0] == 0xE5 || es[i][0] == 0x2E || (es[i][11] % 0x20 == 0x08) != vol || es[i][11] % 0x40 == 0x0F))
            && (if res == Ok then
                  && AtEntry(dp, es, j) && es[j][0] != 0 && es[j][0] != 0xE5 && es[j][0] != 0x2E
                  && (es[j][11] % 0x20 == 0x08) == vol && es[j][11] % 0x40 != 0x0F
                else j == |es| || es[j][0] == 0)
  {
    hide TableIs, AtEntry, W.Dir.Ready, StateAt, Picked, Stop;
    var st := State(0xFF, 0xFF, dp.blkOfs);
    buf0 := lfnbuf[..];
    res := NoFile;
    ghost var i, blk := k, dp.blkOfs;
    Begin(es, vol, k, blk);
    StopBytes(es, vol, k);
    while dp.sect != 0
      invariant dp.Ready() && TableIs(dp.fs, dp.sclust, es)
      invariant k <= i <= |es| && if dp.sect != 0 then AtEntry(dp, es, i) else i == |es| && res != Ok
      invariant Stop(es, vol, k) == Stop(es, vol, i)
      invariant Scanning(st, es, vol, k, i, blk, lfnbuf[..], buf0) && st.blk == dp.blkOfs
      decreases |es| - i
    {
      Inside(dp, es, i);
      var e := FetchEntry(dp, es, i);
      var c, a := e[0], e[11] % 0x40;
      if c == 0 {
        dp.sect := 0;
        return NoFile, buf0;
      }
      if c != 0xE5 && c != 0x2E && (a % 0x20 == 0x08) == vol && a != AM_LFN {
        var s := ComputeSum(e);
        if st.ord != 0 || st.sum != s {
          dp.blkOfs := NO_LFN;
        }
        return Ok, buf0;
      }
      st, buf0 := TakeEntry(st, e, dp.dptr, vol, lfnbuf, es, k, i, blk, buf0);
      dp.blkOfs := st.blk;
      res := NextEntry(dp, es, i);
      i := i + 1;
      if res != Ok {
        break;
      }
    }
    dp.sect := 0;
  }

  lemma Begin(es: seq<DirEntry>, vol: bool, k: nat, blk: nat)
    requires k <= |es|
    ensures StateAt(es, vol, k, k, blk) == State(0xFF, 0xFF, blk)
  {
  }

  lemma OneMore(es: seq<DirEntry>, vol: bool, k: nat, i: nat, blk: nat)
    requires k <= i < |es|
    ensures StateAt(es, vol, k, i + 1, blk) == Take(StateAt(es, vol, k, i, blk), es[i], i, vol)
    ensures Classify(es[i], vol) in {Blank, Long} ==> Stop(es, vol, i) == Stop(es, vol, i + 1)
  {
  }

  lemma Inside(dp: W.Dir, es: seq<DirEntry>, i: nat)
    requires dp.Ready() && AtEntry(dp, es, i)
    ensures i < |es| && dp.dptr == 32 * i
  {
    W.PlaceOnDisk(dp.fs.geo, |dp.fs.disk|, dp.fs.fat, dp.sclust, 32 * i);
  }

  /** The buffer is what picking the entries s to k - 1 makes of an earlier buffer. */
  ghost predicate Picked(buf: seq<nat>, buf0: seq<nat>, es: seq<DirEntry>, s: nat, k: nat) {
    && s <= k <= |es| && |buf0| == MAX_LFN + 1 && (forall i :: s <= i < k ==> PickOk(es[i]))
    && buf == PickAll(buf0, es, s, k)
  }

  lemma PickedMore(buf: seq<nat>, buf0: seq<nat>, es: seq<DirEntry>, s: nat, k: nat)
    requires k < |es| && PickOk(es[k]) && |buf0| == MAX_LFN + 1 && s <= k
    requires if s == k then buf == buf0 else Picked(buf, buf0, es, s, k)
    ensures |buf| == MAX_LFN + 1 && Picked(PickInto(buf, es[k]), buf0, es, s, k + 1)
  {
  }
}
