/** The cluster link map of a fast seek: a run-length encoding of a file's chain. */
module LinkMap {
  import opened Bits
  import opened Geometry
  import opened Volume
  import opened Chains
  import opened Span
  import opened FileAccess

  /** Length of the run of consecutive clusters a chain begins with. */
  function RunLength(chain: seq<nat>): (r: nat)
    requires chain != []
    ensures 1 <= r <= |chain|
  {
    if |chain| > 1 && chain[1] == chain[0] + 1 then 1 + RunLength(chain[1..]) else 1
  }

  /** It is the longest such run. */
  lemma {:induction false} RunIsMaximal(chain: seq<nat>)
    requires chain != []
    ensures forall i :: 0 <= i < RunLength(chain) ==> chain[i] == chain[0] + i
    ensures RunLength(chain) < |chain| ==> chain[RunLength(chain)] != chain[0] + RunLength(chain)
  {
    if |chain| > 1 && chain[1] == chain[0] + 1 {
      var rest := chain[1..];
      RunIsMaximal(rest);
      forall i | 1 <= i < RunLength(chain) ensures chain[i] == chain[0] + i {
        assert chain[i] == rest[i - 1];
      }
    }
  }

  datatype Fragment = Fragment(len: nat, top: nat)

  /** The runs of a chain. */
  function Fragments(chain: seq<nat>): seq<Fragment> {
    if chain == [] then []
    else [Fragment(RunLength(chain), chain[0])] + Fragments(chain[RunLength(chain)..])
  }

  /** The runs as the items of the table, before its end mark. */
  function Items(fs: seq<Fragment>): (r: seq<nat>)
    ensures |r| == 2 * |fs|
  {
    if fs == [] then [] else [fs[0].len, fs[0].top] + Items(fs[1..])
  }

  lemma {:induction false} ItemsAppend(fs: seq<Fragment>, f: Fragment)
    ensures Items(fs + [f]) == Items(fs) + [f.len, f.top]
  {
    if fs == [] {
      assert Items([f]) == [f.len, f.top] + Items([]);
    } else {
      ItemsAppend(fs[1..], f);
      assert (fs + [f])[1..] == fs[1..] + [f];
    }
  }

  lemma {:induction false} ItemsAt(fs: seq<Fragment>, k: nat)
    requires k < |fs|
    ensures Items(fs)[2 * k] == fs[k].len && Items(fs)[2 * k + 1] == fs[k].top
  {
    if k > 0 {
      ItemsAt(fs[1..], k - 1);
    }
  }

  /** Decoding a position by its run: what the walk over the table computes. */
  function Decode(fs: seq<Fragment>, cl: nat): nat {
    if fs == [] then 0
    else if cl < fs[0].len then cl + fs[0].top
    else Decode(fs[1..], cl - fs[0].len)
  }

  /** The encoding is faithful: position cl decodes to the chain's cluster there, and to 0 behind the end. */
  lemma {:induction false} DecodeFragments(chain: seq<nat>, cl: nat)
    ensures Decode(Fragments(chain), cl) == if cl < |chain| then chain[cl] else 0
    decreases |chain|
  {
    hide RunLength;
    if chain != [] {
      var r := RunLength(chain);
      var rest := Fragments(chain[r..]);
      RunIsMaximal(chain);
      assert Fragments(chain) == [Fragment(r, chain[0])] + rest && Fragments(chain)[1..] == rest;
      if cl >= r {
        DecodeFragments(chain[r..], cl - r);
      }
    }
  }

  /** The chain ends in the last cluster of the volume with exactly the number behind it as its mark, which the map
      builder takes for one more consecutive link. */
  ghost predicate EndLooksLinked(fs: FatFs, chain: seq<nat>)
    reads fs
  {
    LooksLinked(fs.fat, chain)
  }

  predicate LooksLinked(fat: seq<nat>, chain: seq<nat>) {
    chain != [] && chain[|chain| - 1] < |fat| && fat[chain[|chain| - 1]] == chain[|chain| - 1] + 1
  }

  /** A chain of three clusters that ends in the last one of its volume, with such a mark. */
  lemma OddMark()
    ensures var fat := [9, 9, 3, 4, 5]; IsChain(fat, 5, [2, 3, 4]) && LooksLinked(fat, [2, 3, 4])
  {
  }

  /** No chain with an end mark of the standard, as create_chain and remove_chain write them, is mistaken. */
  lemma StandardMarks(g: Geometry, volEnd: nat, fat: seq<nat>, chain: seq<nat>)
    requires WellFormed(g, volEnd) && IsChain(fat, g.nFatent, chain) && chain != []
    requires chain[|chain| - 1] < |fat| && fat[chain[|chain| - 1]] >= MaxClusters(g.fmt) + 3
    ensures !LooksLinked(fat, chain)
  {
    assert chain[|chain| - 1] < g.nFatent;
  }

  /** The inner loop: one run, from position pos of the chain on. */
  method NextFragment(f: Fil, top: nat, ghost pos: nat) returns (res: FResult, ncl: nat, cl: nat)
    requires f.Valid() && pos < |f.chain| && top == f.chain[pos]
    modifies f.fs`disk, f.fs`wflag, f.fs`winsect, f.fs.win
    ensures f.Valid() && |f.fs.disk| == old(|f.fs.disk|)
    ensures res == Ok || res == IntErr
    ensures var r := RunLength(f.chain[pos..]);
            if res == Ok then
              && ncl == r && (if pos + r < |f.chain| then cl == f.chain[pos + r] < f.fs.geo.nFatent else cl >= f.fs.geo.nFatent)
              && (pos + r == |f.chain| ==> !EndLooksLinked(f.fs, f.chain))
            else pos + r == |f.chain| && EndLooksLinked(f.fs, f.chain)
  {
    hide Fil.Valid, RunLength;
    RunIsMaximal(f.chain[pos..]);
    ncl, cl, res := 0, top, Ok;
    ghost var n := f.fs.geo.nFatent;
    while true
      invariant f.Valid() && |f.fs.disk| == old(|f.fs.disk|)
      invariant pos + ncl <= |f.chain| && ncl <= RunLength(f.chain[pos..])
      invariant pos + ncl < |f.chain| ==> cl == f.chain[pos + ncl] == top + ncl && ncl < RunLength(f.chain[pos..])
      invariant pos + ncl == |f.chain| ==> cl == n == top + ncl && EndLooksLinked(f.fs, f.chain)
      decreases |f.chain| - pos - ncl, if cl < n then 1 else 0
    {
      var pcl := cl;
      cl := ReadLink(f, cl, pos + ncl);
      ncl := ncl + 1;
      if cl <= 1 {
        return IntErr, ncl, cl;
      }
      if cl != pcl + 1 {
        return;
      }
    }
  }

  /** get_fat on position j of the chain, or behind its end. */
  method ReadLink(f: Fil, clst: nat, ghost j: nat) returns (cl: nat)
    requires f.Valid() && j <= |f.chain| && clst == (if j < |f.chain| then f.chain[j] else f.fs.geo.nFatent)
    modifies f.fs`disk, f.fs`wflag, f.fs`winsect, f.fs.win
    ensures f.Valid() && |f.fs.disk| == old(|f.fs.disk|)
    ensures if j == |f.chain| then cl == 1
            else if j + 1 < |f.chain| then cl == f.chain[j + 1] && 2 <= cl < f.fs.geo.nFatent && !(cl <= 1)
            else cl >= f.fs.geo.nFatent > 2 && cl == f.fs.fat[clst] && clst < |f.fs.fat| && clst < f.fs.geo.nFatent
  {
    cl := f.fs.GetFat(clst);
  }

  /** Items a table needs: its size, two for each run, and the end mark. */
  function Needed(chain: seq<nat>): nat {
    2 + 2 * |Fragments(chain)|
  }

  /** The table holds the map of a chain. */
  ghost predicate Maps(tbl: seq<nat>, chain: seq<nat>) {
    Needed(chain) <= |tbl| && tbl[1..Needed(chain)] == Items(Fragments(chain)) + [0]
  }

  /** done are the runs of the first pos clusters. */
  ghost predicate Walked(chain: seq<nat>, pos: nat, done: seq<Fragment>) {
    pos <= |chain| && Fragments(chain) == done + Fragments(chain[pos..])
  }

  lemma WalkOn(chain: seq<nat>, pos: nat, done: seq<Fragment>)
    requires Walked(chain, pos, done) && pos < |chain|
    ensures var r := RunLength(chain[pos..]); Walked(chain, pos + r, done + [Fragment(r, chain[pos])])
  {
    hide RunLength, Fragments;
    var r := RunLength(chain[pos..]);
    var frag := Fragment(r, chain[pos]);
    FirstFragment(chain[pos..]);
    assert chain[pos..][r..] == chain[pos + r..];
    assert done + ([frag] + Fragments(chain[pos + r..])) == (done + [frag]) + Fragments(chain[pos + r..]);
  }

  lemma FirstFragment(chain: seq<nat>)
    requires chain != []
    ensures Fragments(chain) == [Fragment(RunLength(chain), chain[0])] + Fragments(chain[RunLength(chain)..])
  {
  }

  lemma WalkedAll(chain: seq<nat>, done: seq<Fragment>)
    requires Walked(chain, |chain|, done)
    ensures done == Fragments(chain)
  {
    assert chain[|chain|..] == [];
    assert done + [] == done;
  }

  /** The runs stored so far, if they fit. */
  ghost predicate Stored(tbl: seq<nat>, tlen: nat, done: seq<Fragment>) {
    2 + 2 * |done| <= tlen ==> tlen <= |tbl| && tbl[1..1 + 2 * |done|] == Items(done)
  }

  /** Store the length and top of a run if the table still has room for it and the end mark. */
  method StoreRun(tbl: array<nat>, tlen: nat, ulen: nat, i: nat, ncl: nat, tcl: nat, ghost done: seq<Fragment>)
    requires tlen <= tbl.Length && ulen == 4 + 2 * |done| && Stored(tbl[..], tlen, done) && i == ulen - 3 && tbl.Length > 0
    modifies tbl
    ensures Stored(tbl[..], tlen, done + [Fragment(ncl, tcl)]) && tbl[0] == old(tbl[0])
  {
    if ulen <= tlen {
      ghost var was := tbl[..];
      tbl[i] := ncl;
      tbl[i + 1] := tcl;
      ItemsAppend(done, Fragment(ncl, tcl));
      assert tbl[1..i + 2] == was[1..i] + [ncl, tcl];
    }
  }

  /** f_lseek with CREATE_LINKMAP: the table is filled when its given size suffices; the needed size is reported anyway. */
  method CreateLinkMap(f: Fil, tbl: array<nat>) returns (res: FResult)
    requires f.Valid() && 0 < tbl.Length && tbl[0] <= tbl.Length
    modifies f.fs`disk, f.fs`wflag, f.fs`winsect, f.fs.win, f`err, tbl
    ensures f.Valid() && |f.fs.disk| == old(|f.fs.disk|)
    ensures if old(f.err) != Ok then res == f.err == old(f.err) && tbl[..] == old(tbl[..])
            else
              && res == (if EndLooksLinked(f.fs, f.chain) then IntErr
                         else if Needed(f.chain) <= old(tbl[0]) then Ok else NotEnoughCore)
              && (res != IntErr ==> tbl[0] == Needed(f.chain)) && (res == Ok ==> Maps(tbl[..], f.chain))
              && f.err == if res == IntErr then IntErr else Ok
  {
    hide Items, Fragments, RunLength, Maps, Fil.OnVolume, Clusters, WellFormed, PowerOfTwo;
    if f.err != Ok {
      return f.err;
    }
    res := FillMap(f, tbl);
    if res == IntErr {
      f.err := IntErr;
    }
  }

  /** The walk over the chain. */
  method FillMap(f: Fil, tbl: array<nat>) returns (res: FResult)
    requires f.Valid() && 0 < tbl.Length && tbl[0] <= tbl.Length
    modifies f.fs`disk, f.fs`wflag, f.fs`winsect, f.fs.win, tbl
    ensures f.Valid() && |f.fs.disk| == old(|f.fs.disk|)
    ensures res == if EndLooksLinked(f.fs, f.chain) then IntErr
                   else if Needed(f.chain) <= old(tbl[0]) then Ok else NotEnoughCore
    ensures res != IntErr ==> tbl[0] == Needed(f.chain)
    ensures res == Ok ==> Maps(tbl[..], f.chain)
  {
    hide Items, Fragments, RunLength, Fil.Valid;
    Head(f);
    var tlen, ulen, cl := tbl[0], 2, f.sclust;
    ghost var pos, done := 0, [];
    FirstWalk(f.chain);
    if cl != 0 {
      while true
        invariant f.Valid() && |f.fs.disk| == old(|f.fs.disk|) && tlen == tbl[0] == old(tbl[0])
        invariant pos < |f.chain| && cl == f.chain[pos] && Walked(f.chain, pos, done)
        invariant ulen == 2 + 2 * |done| && Stored(tbl[..], tlen, done)
        decreases |f.chain| - pos
      {
        var tcl := cl;
        var r, ncl;
        r, ncl, cl := NextFragment(f, tcl, pos);
        ulen := ulen + 2;
        if r != Ok {
          return r;
        }
        WalkOn(f.chain, pos, done);
        StoreRun(tbl, tlen, ulen, ulen - 3, ncl, tcl, done);
        done := done + [Fragment(ncl, tcl)];
        pos := pos + ncl;
        if cl >= f.fs.geo.nFatent {
          break;
        }
      }
    }
    WalkedAll(f.chain, done);
    res := FinishMap(tbl, tlen, ulen, f.chain);
  }

  lemma Head(f: Fil)
    requires f.Valid()
    ensures if f.chain == [] then f.sclust == 0 else f.sclust == f.chain[0] && f.sclust != 0
    ensures f.chain != [] ==> f.chain[|f.chain| - 1] < |f.fs.fat|
  {
  }

  lemma FirstWalk(chain: seq<nat>)
    ensures Walked(chain, 0, []) && Items([]) == []
  {
    assert chain[0..] == chain;
  }

  /** Report the needed size; end the table if it fits. */
  method FinishMap(tbl: array<nat>, tlen: nat, ulen: nat, ghost chain: seq<nat>) returns (res: FResult)
    requires 0 < tbl.Length && tlen <= tbl.Length && ulen == Needed(chain) && Stored(tbl[..], tlen, Fragments(chain))
    modifies tbl
    ensures res == (if ulen <= tlen then Ok else NotEnoughCore) && tbl[0] == ulen
    ensures res == Ok ==> Maps(tbl[..], chain)
  {
    ghost var was := tbl[..];
    tbl[0] := ulen;
    if ulen <= tlen {
      tbl[ulen - 1] := 0;
      assert tbl[1..ulen] == was[1..ulen - 1] + [0];
      res := Ok;
    } else {
      res := NotEnoughCore;
    }
  }

  /** clmt_clust: the cluster of an offset by the table, 0 behind its end. */
  method ClmtClust(g: Geometry, tbl: array<nat>, ofs: nat, ghost chain: seq<nat>) returns (r: nat)
    requires g.csize > 0 && Maps(tbl[..], chain)
    ensures var cl := Quot(ofs / 512, g.csize); r == if cl < |chain| then chain[cl] else 0
  {
    ghost var frags := Fragments(chain);
    var cl, i := Quot(ofs / 512, g.csize), 1;
    DecodeFragments(chain, cl);
    ghost var k := 0;
    RunsPositive(chain);
    while true
      invariant k <= |frags| && i == 1 + 2 * k
      invariant Decode(frags[k..], cl) == Decode(frags, Quot(ofs / 512, g.csize))
      decreases |frags| - k
    {
      assert tbl[i] == tbl[..][1..Needed(chain)][2 * k];
      assert k == |frags| ==> tbl[i] == 0;
      if k < |frags| {
        ItemsAt(frags, k);
        assert tbl[i + 1] == tbl[..][1..Needed(chain)][2 * k + 1];
        assert frags[k..][1..] == frags[k + 1..];
      }
      var ncl := tbl[i];
      if ncl == 0 {
        return 0;
      }
      if cl < ncl {
        return cl + tbl[i + 1];
      }
      cl := cl - ncl;
      i := i + 2;
      k := k + 1;
    }
  }

  lemma {:induction false} RunsPositive(chain: seq<nat>)
    ensures forall k :: 0 <= k < |Fragments(chain)| ==> Fragments(chain)[k].len > 0
    decreases |chain|
  {
    if chain != [] {
      RunsPositive(chain[RunLength(chain)..]);
    }
  }

  /** The cluster and the sector of the byte before an offset, from the link map. */
  method FastPlace(f: Fil, tbl: array<nat>, to: nat) returns (clust: nat, dsc: nat)
    requires f.Shape() && Maps(tbl[..], f.chain) && 0 < to <= f.objsize
    ensures var k := (to - 1) / 512;
            && k < Capacity(f.fs.geo, f.chain) && clust == ClusterOf(f.fs.geo, f.chain, k)
            && dsc == SectorOf(f.fs.geo, f.chain, k)
  {
    hide Fil.OnVolume, Clusters, WellFormed, PowerOfTwo, And, Maps, Times, Quot, Rem, SectorOf, ClusterOf, Capacity;
    var k := (to - 1) / 512;
    SizeInChain(f.fs.geo, f.chain, to, f.objsize);
    clust := ClmtClust(f.fs.geo, tbl, to - 1, f.chain);
    SectorCode(f.fs.geo, |f.fs.disk|, f.chain, k);
    MaskIsRem(k, f.fs.geo.csize);
    dsc := Clst2Sect(f.fs.geo, clust) + And(k, f.fs.geo.csize - 1);
  }

  /** f_lseek with a link map: the same place a seek along the chain reaches. */
  method FastSeek(f: Fil, tbl: array<nat>, ofs: nat) returns (res: FResult)
    requires f.Valid() && Maps(tbl[..], f.chain) && ofs < TWO32
    modifies f`fptr, f`clust, f`sect
    ensures f.Valid()
    ensures if f.err != Ok then res == f.err && f.fptr == old(f.fptr) else res == Ok && f.fptr == Min(ofs, f.objsize)
  {
    hide Fil.OnVolume, Clusters, WellFormed, PowerOfTwo, Maps, Times, Quot, Rem, SectorOf, ClusterOf, Capacity;
    if f.err != Ok {
      return f.err;
    }
    var to := ofs;
    if to > f.objsize {
      to := f.objsize;
    }
    f.fptr := to;
    if to > 0 {
      var dsc;
      f.clust, dsc := FastPlace(f, tbl, to);
      if to % 512 != 0 && dsc != f.sect {
        assert to / 512 == (to - 1) / 512;
        f.sect := dsc;
      }
    }
    res := Ok;
  }

  lemma SizeInChain(g: Geometry, chain: seq<nat>, to: nat, size: nat)
    requires g.csize > 0 && 0 < to <= size <= 512 * Capacity(g, chain)
    ensures (to - 1) / 512 < Capacity(g, chain) && Quot((to - 1) / 512, g.csize) < |chain|
    ensures ClusterOf(g, chain, (to - 1) / 512) == chain[Quot((to - 1) / 512, g.csize)]
  {
    QuotBound((to - 1) / 512, g.csize, |chain|);
  }

  /** The two seeks side by side, on two usable handles of one file. They agree, down to the cluster and the sector, unless the
      file can be written and the target lies behind its end: there the seek along the chain lets the file grow, the seek
      by the map stops at the end, and they agree only if the file has no room to grow. */
  method SeekBothWays(f: Fil, g: Fil, tbl: array<nat>, ofs: nat) returns (res: FResult)
    requires f.Valid() && g.Valid() && f != g && f.fs == g.fs && f.chain == g.chain && f.objsize == g.objsize
    requires Maps(tbl[..], f.chain) && ofs < TWO32 && f.err == g.err == Ok
    modifies f, f.fs, f.fs.win, g`fptr, g`clust, g`sect
    ensures f.Valid() && g.fptr == Min(ofs, old(f.objsize))
    ensures !f.canWrite || ofs <= old(f.objsize) ==>
              && res == Ok && g.Valid() && f.fptr == g.fptr
              && (f.fptr > 0 ==> f.clust == g.clust) && (f.fptr % 512 != 0 ==> f.sect == g.sect)
    ensures res == Ok ==>
              (f.fptr == g.fptr <==> !f.canWrite || ofs <= old(f.objsize) || old(f.Reach()) == old(f.objsize))
    ensures res != Ok ==>
              && res == IntErr && f.fptr >= g.fptr
              && (f.fptr == g.fptr <==> f.chain == g.chain && old(f.objsize) == 512 * Capacity(g.fs.geo, g.chain))
  {
    hide Clusters, WellFormed, PowerOfTwo, Maps, Times, Need, Content, SectorOf, ClusterOf, IsChain, Quot, Rem;
    ghost var chain, size := f.chain, f.objsize;
    HeldNeeds(f.fs.geo, f.chain, Min(ofs, f.objsize));
    res := FastSeek(g, tbl, ofs);
    res := f.FLseek(ofs);
    if !f.canWrite || ofs <= size {
      Within(f.fs.geo, chain, f.chain, f.fptr, ofs, size);
      SameHandle(f, g);
    }
    CapacityTells(f.fs.geo, chain, f.chain, size);
  }

  /** A seek inside the file takes no cluster and does not break off. */
  lemma Within(g: Geometry, chain: seq<nat>, chain': seq<nat>, fptr: nat, ofs: nat, size: nat)
    requires g.csize > 0 && size <= 512 * Capacity(g, chain) && chain <= chain' && |chain'| == Max(|chain|, Need(g.csize, fptr))
    ensures fptr <= size ==> chain' == chain
    ensures ofs <= size ==> !(512 * Capacity(g, chain') < ofs)
  {
    if fptr <= size {
      HeldNeeds(g, chain, fptr);
    }
    TimesMonotone(g.csize, |chain|, |chain'|);
  }

  /** A longer chain holds more. */
  lemma CapacityTells(g: Geometry, chain: seq<nat>, chain': seq<nat>, size: nat)
    requires g.csize > 0 && chain <= chain' && size <= 512 * Capacity(g, chain)
    ensures 512 * Capacity(g, chain') >= size
    ensures 512 * Capacity(g, chain') == size <==> chain' == chain && size == 512 * Capacity(g, chain)
  {
    if |chain| < |chain'| {
      TimesStep(g.csize, |chain|, |chain'|);
    }
  }

  /** Two handles that agree on the file agree on whether its shape is right. */
  lemma SameHandle(f: Fil, g: Fil)
    requires f.Shape() && f.fs == g.fs && f.chain == g.chain && f.objsize == g.objsize
    requires if g.chain == [] then g.sclust == 0 else g.sclust == g.chain[0]
    ensures g.Shape()
  {
  }
}
