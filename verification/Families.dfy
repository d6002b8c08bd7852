/** The chains of a volume as a family: what every run of allocation and release keeps. */
module Families {
  import opened FatCodec
  import opened Geometry
  import opened Volume
  import opened Chains
  import opened Allocator

  /** Chains that share no cluster. */
  ghost predicate Family(fat: seq<nat>, n: nat, cs: seq<seq<nat>>) {
    && n == |fat|
    && (forall i :: 0 <= i < |cs| ==> IsChain(fat, n, cs[i]))
    && (forall i, j :: 0 <= i < |cs| && 0 <= j < |cs| && i != j ==> Disjoint(cs[i], cs[j]))
  }

  ghost predicate InSome(cs: seq<seq<nat>>, c: nat) {
    exists i :: 0 <= i < |cs| && c in cs[i]
  }

  /** Nothing leaks: the clusters in use are those of the chains and those lost to the family from the start. */
  ghost predicate Accounts(fat: seq<nat>, n: nat, cs: seq<seq<nat>>, lost: set<nat>) {
    && n == |fat|
    && (forall c :: 2 <= c < n ==> (fat[c] != 0 <==> InSome(cs, c) || c in lost))
    && (forall c :: c in lost ==> !InSome(cs, c))
  }

  /** What create_chain does to the table for the chain cs[k] (possibly still empty) when it finds cluster r. */
  function Stretched(fat: seq<nat>, chain: seq<nat>, r: nat, eoc: nat): seq<nat>
    requires r < |fat| && (chain != [] ==> chain[|chain| - 1] < |fat|)
  {
    if chain == [] then fat[r := eoc] else fat[r := eoc][chain[|chain| - 1] := r]
  }

  /** create_chain appends one formerly free cluster to one chain and leaves all others alone. */
  lemma FamilyStretch(fat: seq<nat>, n: nat, cs: seq<seq<nat>>, k: nat, r: nat, eoc: nat)
    requires Family(fat, n, cs) && k < |cs| && 2 <= r < n && fat[r] == 0 && eoc >= n
    ensures Family(Stretched(fat, cs[k], r, eoc), n, cs[k := cs[k] + [r]])
  {
    var fat', cs' := Stretched(fat, cs[k], r, eoc), cs[k := cs[k] + [r]];
    ChainAppend(fat, n, cs[k], r, eoc);
    assert cs[k] == [] ==> [r] == cs[k] + [r];
    forall i | 0 <= i < |cs| && i != k
      ensures IsChain(fat', n, cs'[i]) && Disjoint(cs'[i], cs'[k]) && Disjoint(cs'[k], cs'[i])
    {
      FreeNotInChain(fat, n, cs[i], r);
      assert Disjoint(cs[k], cs[i]) && Disjoint(cs[i], cs[k]);
      assert cs[k] != [] ==> cs[k][|cs[k]| - 1] in cs[k];
      ChainFrame(fat, fat', n, cs[i]);
    }
  }

  lemma StretchAccounts(fat: seq<nat>, n: nat, cs: seq<seq<nat>>, k: nat, r: nat, eoc: nat, lost: set<nat>)
    requires Family(fat, n, cs) && k < |cs| && 2 <= r < n && fat[r] == 0 && eoc >= n
    requires Accounts(fat, n, cs, lost)
    ensures Accounts(Stretched(fat, cs[k], r, eoc), n, cs[k := cs[k] + [r]], lost)
  {
    var cs' := cs[k := cs[k] + [r]];
    assert r !in lost;
    forall c ensures InSome(cs', c) <==> InSome(cs, c) || c == r {
      if i :| 0 <= i < |cs| && c in cs[i] {
        assert c in cs'[i];
      }
      assert r in cs'[k];
    }
    if cs[k] != [] {
      assert cs[k][|cs[k]| - 1] in cs[k];
    }
  }

  /** What remove_chain does to the table for the suffix of a chain from position j on. */
  function CutFrom(fat: seq<nat>, n: nat, chain: seq<nat>, j: nat, eoc: nat): seq<nat>
    requires n == |fat| && j < |chain| && forall i :: 0 <= i < |chain| ==> chain[i] < n
  {
    Released(if j == 0 then fat else fat[chain[j - 1] := eoc], n, chain[j])
  }

  /** The table after a cut, entry by entry: the suffix is free, the new tail is an end, all else as it was. */
  lemma CutEntries(fat: seq<nat>, n: nat, chain: seq<nat>, j: nat, eoc: nat)
    requires n == |fat| && IsChain(fat, n, chain) && j < |chain| && eoc >= n
    ensures ReleaseOk(if j == 0 then fat else fat[chain[j - 1] := eoc], n, chain[j])
    ensures forall c :: 0 <= c < n ==>
              CutFrom(fat, n, chain, j, eoc)[c] ==
                if c in chain[j..] then 0 else if j > 0 && c == chain[j - 1] then eoc else fat[c]
    ensures IsChain(CutFrom(fat, n, chain, j, eoc), n, chain[..j])
  {
    hide Released, ReleaseOk;
    var fat0, rest := if j == 0 then fat else fat[chain[j - 1] := eoc], chain[j..];
    Distinct(fat, n, chain);
    ChainFrame(fat, fat0, n, rest);
    ReleasedChain(fat0, n, rest);
    HeadChain(fat, CutFrom(fat, n, chain, j, eoc), n, chain, j);
  }

  lemma Distinct(fat: seq<nat>, n: nat, chain: seq<nat>)
    requires IsChain(fat, n, chain)
    ensures forall i, l :: 0 <= i < l < |chain| ==> chain[i] != chain[l]
  {
    forall i, l | 0 <= i < l < |chain| ensures chain[i] != chain[l] {
      ChainAcyclic(fat, n, chain, i, l);
    }
  }

  /** The beginning of a chain is a chain where its last entry is an end and the others are as they were. */
  lemma HeadChain(fat: seq<nat>, fat': seq<nat>, n: nat, chain: seq<nat>, j: nat)
    requires IsChain(fat, n, chain) && j < |chain| && |fat'| == |fat|
    requires forall i, l :: 0 <= i < l < |chain| ==> chain[i] != chain[l]
    requires forall c :: 0 <= c < n && c !in chain[j..] ==> if j > 0 && c == chain[j - 1] then fat'[c] >= n else fat'[c] == fat[c]
    ensures IsChain(fat', n, chain[..j])
  {
    var head := chain[..j];
    forall i | 0 <= i < j ensures head[i] !in chain[j..] {
    }
  }

  /** A cut frees as many clusters as it takes off the chain. */
  lemma CutCount(fat: seq<nat>, n: nat, chain: seq<nat>, j: nat, eoc: nat)
    requires n == |fat| && IsChain(fat, n, chain) && j < |chain| && eoc >= n && eoc > 0
    ensures CountFree(CutFrom(fat, n, chain, j, eoc), 2, n) == CountFree(fat, 2, n) + |chain| - j
  {
    hide Released, CountFree;
    var fat0, rest := if j == 0 then fat else fat[chain[j - 1] := eoc], chain[j..];
    Distinct(fat, n, chain);
    ChainFrame(fat, fat0, n, rest);
    ReleasedCount(fat0, n, rest);
    if j > 0 {
      assert fat[chain[j - 1]] == chain[j];
      CountUpdate(fat, 2, n, chain[j - 1], eoc);
    }
  }

  /** remove_chain frees exactly the named suffix and leaves every other chain alone. */
  lemma FamilyCut(fat: seq<nat>, n: nat, cs: seq<seq<nat>>, k: nat, j: nat, eoc: nat)
    requires Family(fat, n, cs) && k < |cs| && j < |cs[k]| && eoc >= n
    ensures Family(CutFrom(fat, n, cs[k], j, eoc), n, cs[k := cs[k][..j]])
  {
    var fat', cs' := CutFrom(fat, n, cs[k], j, eoc), cs[k := cs[k][..j]];
    CutEntries(fat, n, cs[k], j, eoc);
    forall i | 0 <= i < |cs| && i != k
      ensures IsChain(fat', n, cs'[i]) && Disjoint(cs'[i], cs'[k]) && Disjoint(cs'[k], cs'[i])
    {
      assert Disjoint(cs[k], cs[i]) && Disjoint(cs[i], cs[k]);
      forall c | c in cs[i] ensures fat'[c] == fat[c] {
        assert c !in cs[k];
        assert j > 0 ==> cs[k][j - 1] in cs[k];
      }
      ChainFrame(fat, fat', n, cs[i]);
    }
  }

  lemma CutAccounts(fat: seq<nat>, n: nat, cs: seq<seq<nat>>, k: nat, j: nat, eoc: nat, lost: set<nat>)
    requires Family(fat, n, cs) && k < |cs| && j < |cs[k]| && eoc >= n
    requires Accounts(fat, n, cs, lost)
    ensures Accounts(CutFrom(fat, n, cs[k], j, eoc), n, cs[k := cs[k][..j]], lost)
  {
    hide Released, ReleaseOk, InSome;
    var fat', cs' := CutFrom(fat, n, cs[k], j, eoc), cs[k := cs[k][..j]];
    assert forall c :: c in cs[k][j..] ==> c in cs[k];
    assert j > 0 ==> cs[k][j - 1] in cs[k];
    CutEntries(fat, n, cs[k], j, eoc);
    forall c | 2 <= c < n ensures fat'[c] != 0 <==> InSome(cs', c) || c in lost {
      CutMembers(fat, n, cs, k, j, c);
      if c in cs[k] {
        InChain(cs, k, c);
      }
    }
    forall c | c in lost ensures !InSome(cs', c) {
      CutMembers(fat, n, cs, k, j, c);
    }
  }

  lemma InChain(cs: seq<seq<nat>>, k: nat, c: nat)
    requires k < |cs| && c in cs[k]
    ensures InSome(cs, c)
  {
  }

  /** A cluster belongs to some chain after the cut exactly when it did before and is not in the suffix. */
  lemma CutMembers(fat: seq<nat>, n: nat, cs: seq<seq<nat>>, k: nat, j: nat, c: nat)
    requires Family(fat, n, cs) && k < |cs| && j < |cs[k]|
    ensures InSome(cs[k := cs[k][..j]], c) <==> InSome(cs, c) && c !in cs[k][j..]
  {
    var cs' := cs[k := cs[k][..j]];
    if InSome(cs, c) && c !in cs[k][j..] {
      var i :| 0 <= i < |cs| && c in cs[i];
      assert cs[k] == cs[k][..j] + cs[k][j..];
      assert c in cs'[i];
    }
    if InSome(cs', c) {
      var i :| 0 <= i < |cs'| && c in cs'[i];
      assert c in cs[i];
      NotInSuffix(fat, n, cs, k, j, i, c);
    }
  }

  lemma NotInSuffix(fat: seq<nat>, n: nat, cs: seq<seq<nat>>, k: nat, j: nat, i: nat, c: nat)
    requires Family(fat, n, cs) && k < |cs| && i < |cs| && j < |cs[k]| && c in cs[k := cs[k][..j]][i]
    ensures c !in cs[k][j..]
  {
    if i == k {
      var a :| 0 <= a < j && cs[k][a] == c;
      forall b | j <= b < |cs[k]| ensures cs[k][b] != c {
        ChainAcyclic(fat, n, cs[k], a, b);
      }
    } else {
      assert Disjoint(cs[i], cs[k]);
    }
  }

  /** What every allocation step keeps: a family that accounts for every cluster, an exact or unknown free count,
      and no entry of 1, which is no link. */
  ghost predicate Sound(fs: FatFs, cs: seq<seq<nat>>, lost: set<nat>)
    reads fs, fs.win
  {
    && fs.Valid()
    && Family(fs.fat, fs.geo.nFatent, cs)
    && Accounts(fs.fat, fs.geo.nFatent, cs, lost)
    && FreeCountOk(fs.geo.nFatent, fs.freeClst, fs.fat)
    && fs.fat[0] != 0 && fs.fat[1] != 0
    && NoOnes(fs.geo.nFatent, fs.fat)
  }

  /** Stretch (or begin) chain k: it grows by the cluster r, which was free, or r is 0 and no cluster was free. */
  method StretchChain(fs: FatFs, cs: seq<seq<nat>>, k: nat, ghost lost: set<nat>) returns (cs': seq<seq<nat>>, r: nat)
    requires Sound(fs, cs, lost) && k < |cs|
    modifies fs, fs.win
    ensures Sound(fs, cs', lost)
    ensures old(|fs.fat|) == |fs.fat| && AllocStep(fs.geo, old(fs.fat), cs, Stretch(k), r, fs.fat, cs')
    ensures old(fs.Mirrored()) ==> fs.Mirrored()
  {
    hide FatFs.WindowOk, CountFree, Stretched, Accounts, Cut;
    ghost var fat, n, eoc := fs.fat, fs.geo.nFatent, Cut(fs.geo.fmt, EOC);
    NoneLeft(fs);
    TableFacts(fs, 2);
    var tail := if cs[k] == [] then 0 else cs[k][|cs[k]| - 1];
    r := CreateChain(fs, tail);
    cs' := cs;
    if r >= 2 {
      cs' := cs[k := cs[k] + [r]];
      FamilyStretch(fat, n, cs, k, r, eoc);
      StretchAccounts(fat, n, cs, k, r, eoc, lost);
      StretchEntries(fat, n, cs[k], r, eoc);
    }
  }

  /** An exact count of zero. */
  lemma NoneLeft(fs: FatFs)
    requires fs.Valid() && FreeCountOk(fs.geo.nFatent, fs.freeClst, fs.fat)
    ensures fs.freeClst == 0 ==> Full(fs.geo.nFatent, fs.fat)
  {
    if fs.freeClst == 0 {
      FullCount(fs.fat, fs.geo.nFatent);
    }
  }

  lemma StretchEntries(fat: seq<nat>, n: nat, chain: seq<nat>, r: nat, eoc: nat)
    requires IsChain(fat, n, chain) && 2 <= r < n == |fat| && eoc > 1
    ensures var fat' := Stretched(fat, chain, r, eoc);
            && fat' == (if chain == [] then fat[r := eoc] else fat[r := eoc][chain[|chain| - 1] := r])
            && fat'[0] == fat[0] && fat'[1] == fat[1]
            && (NoOnes(n, fat) ==> NoOnes(n, fat'))
  {
  }

  /** The pure side of a cut. */
  lemma CutKeeps(fat: seq<nat>, n: nat, cs: seq<seq<nat>>, k: nat, j: nat, eoc: nat, lost: set<nat>)
    requires Family(fat, n, cs) && k < |cs| && j < |cs[k]| && eoc >= n && eoc > 1 && n >= 2
    requires Accounts(fat, n, cs, lost)
    requires fat[0] != 0 && fat[1] != 0 && NoOnes(n, fat)
    ensures var fat', cs' := CutFrom(fat, n, cs[k], j, eoc), cs[k := cs[k][..j]];
            && Family(fat', n, cs') && Accounts(fat', n, cs', lost)
            && fat'[0] != 0 && fat'[1] != 0 && NoOnes(n, fat')
            && (forall c :: 2 <= c < n ==> (fat'[c] == 0 <==> fat[c] == 0 || c in cs[k][j..]))
    ensures j > 0 ==> 2 <= cs[k][j - 1] < n && fat[cs[k][j - 1]] != 0
    ensures ReleaseOk(if j == 0 then fat else fat[cs[k][j - 1] := eoc], n, cs[k][j])
  {
    hide Accounts, InSome, CutFrom, ReleaseOk;
    CutEntries(fat, n, cs[k], j, eoc);
    FamilyCut(fat, n, cs, k, j, eoc);
    CutAccounts(fat, n, cs, k, j, eoc, lost);
    assert j > 0 ==> fat[cs[k][j - 1]] == cs[k][j];
  }

  /** Cut chain k down to its first j clusters: the rest is free afterwards. */
  method CutChain(fs: FatFs, cs: seq<seq<nat>>, k: nat, j: nat, ghost lost: set<nat>) returns (cs': seq<seq<nat>>)
    requires Sound(fs, cs, lost) && k < |cs| && j < |cs[k]|
    modifies fs, fs.win
    ensures Sound(fs, cs', lost)
    ensures old(|fs.fat|) == |fs.fat| && AllocStep(fs.geo, old(fs.fat), cs, Release(k, j), 0, fs.fat, cs')
    ensures forall c :: 2 <= c < fs.geo.nFatent ==> (fs.fat[c] == 0 <==> old(fs.fat)[c] == 0 || c in cs[k][j..])
    ensures old(fs.Mirrored()) ==> fs.Mirrored()
  {
    hide FatFs.WindowOk, CountFree, Accounts, Released, ReleaseOk, Cut;
    ghost var fat, n, eoc := fs.fat, fs.geo.nFatent, Cut(fs.geo.fmt, EOC);
    TableFacts(fs, 2);
    CutKeeps(fat, n, cs, k, j, eoc, lost);
    var res := RemoveChain(fs, cs[k][j], if j == 0 then 0 else cs[k][j - 1]);
    cs' := cs[k := cs[k][..j]];
  }

  /** The number of free clusters: with an exact or unknown count, reserved entries in use and no entry of 1 the answer is
      exact, and known from then on. */
  method CountClusters(fs: FatFs, cs: seq<seq<nat>>, ghost lost: set<nat>) returns (nfree: nat)
    requires Sound(fs, cs, lost)
    modifies fs, fs.win
    ensures Sound(fs, cs, lost) && fs.fat == old(fs.fat)
    ensures nfree == fs.freeClst == CountFree(fs.fat, 2, fs.geo.nFatent)
    ensures old(fs.Mirrored()) ==> fs.Mirrored()
  {
    hide FatFs.WindowOk, CountFree, Accounts, Family;
    TableFacts(fs, 2);
    SectorCountExact(fs.fat, fs.geo.nFatent);
    var res;
    ghost var stop;
    nfree, res, stop := GetFree(fs);
  }

  datatype AllocOp = Stretch(k: nat) | Release(k: nat, j: nat) | CountFreeClusters

  /** One operation on table and family, with its answer: the cluster taken or 0, or the number of free clusters. An
      operation that names no chain changes nothing. */
  ghost predicate AllocStep(g: Geometry, fat: seq<nat>, cs: seq<seq<nat>>, op: AllocOp, out: nat, fat': seq<nat>,
                            cs': seq<seq<nat>>) {
    var n := g.nFatent;
    && n == |fat|
    && match op
       case Stretch(k) =>
         if k < |cs| && !Full(n, fat) then
           && 2 <= out < n && fat[out] == 0 && cs' == cs[k := cs[k] + [out]]
           && (cs[k] != [] ==> cs[k][|cs[k]| - 1] < n)
           && fat' == Stretched(fat, cs[k], out, Cut(g.fmt, EOC))
         else out == 0 && cs' == cs && fat' == fat
       case Release(k, j) =>
         && out == 0
         && (if k < |cs| && j < |cs[k]| then
               && cs' == cs[k := cs[k][..j]] && (forall i :: 0 <= i < |cs[k]| ==> cs[k][i] < n)
               && fat' == CutFrom(fat, n, cs[k], j, Cut(g.fmt, EOC))
             else cs' == cs && fat' == fat)
       case CountFreeClusters =>
         out == CountFree(fat, 2, n) && cs' == cs && fat' == fat
  }

  /** One operation as the code performs it. */
  method Allocate(fs: FatFs, cs: seq<seq<nat>>, op: AllocOp, ghost lost: set<nat>) returns (cs': seq<seq<nat>>, out: nat)
    requires Sound(fs, cs, lost)
    modifies fs, fs.win
    ensures Sound(fs, cs', lost) && AllocStep(fs.geo, old(fs.fat), cs, op, out, fs.fat, cs')
    ensures old(fs.Mirrored()) ==> fs.Mirrored()
  {
    hide FatFs.WindowOk, Accounts, CountFree, Stretched, CutFrom, Full;
    cs', out := cs, 0;
    match op {
      case Stretch(k) =>
        if k < |cs| {
          cs', out := StretchChain(fs, cs, k, lost);
        }
      case Release(k, j) =>
        if k < |cs| && j < |cs[k]| {
          cs' := CutChain(fs, cs, k, j, lost);
        }
      case CountFreeClusters =>
        out := CountClusters(fs, cs, lost);
    }
  }

  /** A table and the family of its chains. */
  datatype Allocation = Allocation(fat: seq<nat>, cs: seq<seq<nat>>)

  /** Every run of creation, release and counting: a trace explains every answer and ends in the table and the family of
      the volume, and the family accounts for every cluster all the way. */
  method AllocationRun(fs: FatFs, cs: seq<seq<nat>>, ops: seq<AllocOp>, ghost lost: set<nat>)
    returns (now: seq<seq<nat>>, outs: seq<nat>, ghost trace: seq<Allocation>)
    requires Sound(fs, cs, lost)
    modifies fs, fs.win
    ensures Sound(fs, now, lost)
    ensures |outs| == |ops| && |trace| == |ops| + 1
    ensures trace[0] == Allocation(old(fs.fat), cs) && trace[|ops|] == Allocation(fs.fat, now)
    ensures forall i :: 0 <= i < |ops| ==>
              AllocStep(fs.geo, trace[i].fat, trace[i].cs, ops[i], outs[i], trace[i + 1].fat, trace[i + 1].cs)
    ensures forall i :: 0 <= i < |trace| ==>
              Family(trace[i].fat, fs.geo.nFatent, trace[i].cs) && Accounts(trace[i].fat, fs.geo.nFatent, trace[i].cs, lost)
    ensures old(fs.Mirrored()) ==> fs.Mirrored()
  {
    hide AllocStep, FreeCountOk, Family, Accounts, FatFs.WindowOk, NoOnes;
    now, outs, trace := cs, [], [Allocation(fs.fat, cs)];
    for i := 0 to |ops|
      invariant Sound(fs, now, lost)
      invariant |outs| == i && |trace| == i + 1
      invariant trace[0] == Allocation(old(fs.fat), cs) && trace[i] == Allocation(fs.fat, now)
      invariant forall j :: 0 <= j < i ==>
                  AllocStep(fs.geo, trace[j].fat, trace[j].cs, ops[j], outs[j], trace[j + 1].fat, trace[j + 1].cs)
      invariant forall j :: 0 <= j < |trace| ==>
                  Family(trace[j].fat, fs.geo.nFatent, trace[j].cs) && Accounts(trace[j].fat, fs.geo.nFatent, trace[j].cs, lost)
      invariant old(fs.Mirrored()) ==> fs.Mirrored()
    {
      var out;
      now, out := Allocate(fs, now, ops[i], lost);
      outs, trace := outs + [out], trace + [Allocation(fs.fat, now)];
    }
  }

  /** The calls themselves, on any table at all. */
  datatype RawOp = Create(clst: nat) | Remove(clst: nat, pclst: nat) | Count

  /** A call that keeps an exact count: remove_chain is not to end a chain at a free cluster, and a count that has to be
      made anew must be one that comes out right. */
  ghost predicate Careful(fmt: FatType, n: nat, fat: seq<nat>, op: RawOp) {
    && 2 <= n <= |fat|
    && (op.Remove? && 2 <= op.pclst < n ==> fat[op.pclst] != 0)
    && (op.Count? ==> if fmt == Fat12 then NoOnes(n, fat) else fat[0] != 0 && fat[1] != 0)
  }

  method Call(fs: FatFs, op: RawOp)
    requires fs.Valid()
    modifies fs, fs.win
    ensures fs.Valid() && (old(fs.Mirrored()) ==> fs.Mirrored())
    ensures FreeCountOk(fs.geo.nFatent, old(fs.freeClst), old(fs.fat)) && Careful(fs.geo.fmt, fs.geo.nFatent, old(fs.fat), op)
            ==> FreeCountOk(fs.geo.nFatent, fs.freeClst, fs.fat)
  {
    hide FatFs.WindowOk, CountFree, Released, ReleaseOk, Full;
    TableFacts(fs, 0);
    match op {
      case Create(clst) =>
        var r := CreateChain(fs, clst);
      case Remove(clst, pclst) =>
        var res := RemoveChain(fs, clst, pclst);
      case Count =>
        SectorCountExact(fs.fat, fs.geo.nFatent);
        var nfree, res, stop := GetFree(fs);
    }
  }

  /** Every run of calls, whatever the table holds: the volume stays sound and its FATs alike, and an exact or unknown
      count stays one as long as every call is careful. */
  method CountRun(fs: FatFs, ops: seq<RawOp>) returns (ghost fats: seq<seq<nat>>)
    requires fs.Valid()
    modifies fs, fs.win
    ensures fs.Valid() && (old(fs.Mirrored()) ==> fs.Mirrored())
    ensures |fats| == |ops| + 1 && fats[0] == old(fs.fat) && fats[|ops|] == fs.fat
    ensures FreeCountOk(fs.geo.nFatent, old(fs.freeClst), old(fs.fat))
            && (forall i :: 0 <= i < |ops| ==> Careful(fs.geo.fmt, fs.geo.nFatent, fats[i], ops[i]))
            ==> FreeCountOk(fs.geo.nFatent, fs.freeClst, fs.fat)
  {
    hide FreeCountOk, Careful, FatFs.WindowOk;
    fats := [fs.fat];
    for i := 0 to |ops|
      invariant fs.Valid() && (old(fs.Mirrored()) ==> fs.Mirrored())
      invariant |fats| == i + 1 && fats[0] == old(fs.fat) && fats[i] == fs.fat
      invariant FreeCountOk(fs.geo.nFatent, old(fs.freeClst), old(fs.fat))
                && (forall j :: 0 <= j < i ==> Careful(fs.geo.fmt, fs.geo.nFatent, fats[j], ops[j]))
                ==> FreeCountOk(fs.geo.nFatent, fs.freeClst, fs.fat)
    {
      Call(fs, ops[i]);
      fats := fats + [fs.fat];
    }
  }
}
