/** Finding an object in a directory: by its long name, or by its short one. */
module DirFind {
  import opened Bits
  import opened Volume
  import opened Lfn
  import opened DirScan
  import opened DirRead
  import W = DirWalk

  /** What is looked for: the long name, the letters' case mapping, the short name, and whether one of them is not to be
      compared. */
  datatype Target = Target(buf: seq<nat>, up: nat -> nat, fn: seq<byte>, noLfn: bool, loss: bool)

  ghost predicate TargetOk(t: Target) {
    |t.buf| == MAX_LFN + 1 && |t.fn| == 11
  }

  /** How dir_find takes an entry. */
  function KindOf(e: DirEntry): Kind {
    var c, a := e[0], e[11] % 0x40;
    if c == 0 then End
    else if c == 0xE5 || (a / 0x08 % 2 == 1 && a != AM_LFN) then Blank
    else if a == AM_LFN then Long
    else Short
  }

  /** In bytes: attribute bit 3 marks a label, unless bits 0 to 5 are 0x0F, which mark a long entry. */
  lemma KindBytes(e: DirEntry)
    ensures KindOf(e) == End <==> e[0] == 0
    ensures KindOf(e) == Long <==> e[0] != 0 && e[0] != 0xE5 && e[11] % 0x40 == 0x0F
    ensures KindOf(e) == Short <==> e[0] != 0 && e[0] != 0xE5 && e[11] % 0x10 < 0x08
  {
  }

  // ---------------------------------------------------------------- the running state

  const RESET: State := State(0xFF, 0xFF, NO_LFN)

  function CompareLong(st: State, e: DirEntry, k: nat, t: Target): State
    requires |t.buf| == MAX_LFN + 1
  {
    var st1 := if IsLast(e[0]) then State(Order(e[0]), e[13], 32 * k) else st;
    if Order(e[0]) == st1.ord && st1.sum == e[13] && CmpOk(t.buf, t.up, e) then st1.(ord := st1.ord - 1)
    else st1.(ord := 0xFF)
  }

  function Compare(st: State, e: DirEntry, k: nat, t: Target): State
    requires |t.buf| == MAX_LFN + 1
  {
    if KindOf(e) == Long then if t.noLfn then st else CompareLong(st, e, k, t)
    else State(0xFF, st.sum, NO_LFN)
  }

  /** The state before entry k. */
  function FindState(es: seq<DirEntry>, t: Target, k: nat): State
    requires |t.buf| == MAX_LFN + 1 && k <= |es|
  {
    if k == 0 then RESET else Compare(FindState(es, t, k - 1), es[k - 1], k - 1, t)
  }

  function Accepts(st: State, e: DirEntry, t: Target): bool {
    KindOf(e) == Short && ((st.ord == 0 && st.sum == SumSfn(e)) || (!t.loss && e[..11] == t.fn))
  }

  /** Where the search from entry i on ends: at the end mark, at the object, or behind the table. */
  function FindEnd(es: seq<DirEntry>, t: Target, i: nat): (j: nat)
    requires |t.buf| == MAX_LFN + 1 && i <= |es|
    ensures i <= j <= |es|
    decreases |es| - i
  {
    if i == |es| || KindOf(es[i]) == End || Accepts(FindState(es, t, i), es[i], t) then i else FindEnd(es, t, i + 1)
  }

  // ---------------------------------------------------------------- what is found

  /** Entries s to k - 1 are the top of a long name that compares equal, orders counting down to ord + 1. */
  ghost predicate Equal(es: seq<DirEntry>, t: Target, s: nat, k: nat, ord: nat, sum: byte)
    requires |t.buf| == MAX_LFN + 1
  {
    && s < k <= |es| && !t.noLfn && IsLast(es[s][0])
    && (forall i :: s <= i < k ==>
          KindOf(es[i]) == Long && Order(es[i][0]) == ord + (k - i) && es[i][13] == sum && CmpOk(t.buf, t.up, es[i]))
    && (forall i :: s < i < k ==> !IsLast(es[i][0]))
  }

  /** A complete long name of n entries, equal to the one looked for, directly before the short entry j. */
  ghost predicate EqualBlock(es: seq<DirEntry>, t: Target, j: nat, n: nat)
    requires |t.buf| == MAX_LFN + 1
  {
    j < |es| && n <= j && Equal(es, t, j - n, j, 0, SumSfn(es[j]))
  }

  /** The same in bytes. */
  lemma EqualBlockBytes(es: seq<DirEntry>, t: Target, j: nat, n: nat)
    requires |t.buf| == MAX_LFN + 1 && 0 < n <= j < |es|
    ensures EqualBlock(es, t, j, n) <==>
              && !t.noLfn
              && forall i :: j - n <= i < j ==>
                   && es[i][0] as int == (if i == j - n then 0x40 else 0) + (j - i)
                   && es[i][11] % 0x40 == 0x0F && es[i][13] == SumSfn(es[j]) && CmpOk(t.buf, t.up, es[i])
  {
    hide KindOf, SumSfn, CmpOk;
    forall i | 0 <= i < |es|
      ensures KindOf(es[i]) == Long <==> es[i][0] != 0 && es[i][0] != 0xE5 && es[i][11] % 0x40 == 0x0F
      ensures es[i][0] as int == Order(es[i][0]) + (if IsLast(es[i][0]) then 0x40 else 0)
      ensures IsLast(es[i][0]) <==> 0x40 <= es[i][0] < 0x80 || 0xC0 <= es[i][0]
      ensures CmpOk(t.buf, t.up, es[i]) ==> 1 <= es[i][0] as int % 0x40 <= 20
    {
      KindBytes(es[i]);
      OrderByte(es[i][0]);
      CmpOrderSmall(t, es[i]);
    }
    assert n >= 64 ==> |es[j - 64]| == 32;  // the order 64 cannot be written
  }

  lemma CmpOrderSmall(t: Target, e: DirEntry)
    requires |t.buf| == MAX_LFN + 1
    ensures CmpOk(t.buf, t.up, e) ==> 1 <= e[0] as int % 0x40 <= 20
  {
  }

  /** Entry j is an object of the name looked for. */
  ghost predicate Hit(es: seq<DirEntry>, t: Target, j: nat)
    requires |t.buf| == MAX_LFN + 1
  {
    j < |es| && KindOf(es[j]) == Short &&
    ((exists n :: 0 < n <= j && EqualBlock(es, t, j, n)) || (!t.loss && es[j][..11] == t.fn))
  }

  lemma CmpOrder(t: Target, e: DirEntry)
    requires |t.buf| == MAX_LFN + 1 && CmpOk(t.buf, t.up, e)
    ensures 1 <= Order(e[0]) < 0xFF
  {
  }

  lemma {:induction false} StateIsEqual(es: seq<DirEntry>, t: Target, k: nat)
    requires |t.buf| == MAX_LFN + 1 && k <= |es|
    ensures var st := FindState(es, t, k);
            st.ord != 0xFF ==> st.blk % 32 == 0 && Equal(es, t, st.blk / 32, k, st.ord, st.sum)
  {
    hide CmpOk, SumSfn;
    if k > 0 {
      StateIsEqual(es, t, k - 1);
      var st0, st, e := FindState(es, t, k - 1), FindState(es, t, k), es[k - 1];
      if st.ord != 0xFF && KindOf(e) == Long {
        CmpOrder(t, e);
        if IsLast(e[0]) {
          assert Equal(es, t, k - 1, k, st.ord, st.sum);
        } else {
          assert Equal(es, t, st0.blk / 32, k - 1, st0.ord, st0.sum);
        }
      }
    }
  }

  lemma {:induction false} EqualIsState(es: seq<DirEntry>, t: Target, s: nat, k: nat, ord: nat, sum: byte)
    requires |t.buf| == MAX_LFN + 1 && Equal(es, t, s, k, ord, sum)
    ensures FindState(es, t, k) == State(ord, sum, 32 * s)
    decreases k
  {
    hide CmpOk;
    var e := es[k - 1];
    CmpOrder(t, e);
    if s < k - 1 {
      EqualIsState(es, t, s, k - 1, ord + 1, sum);
    }
  }

  /** The running state accepts an entry exactly when it is an object of the name; the offset is then that of its first
      long entry, if the long name was equal. */
  lemma AcceptsIffHit(es: seq<DirEntry>, t: Target, j: nat)
    requires |t.buf| == MAX_LFN + 1 && j < |es|
    ensures Accepts(FindState(es, t, j), es[j], t) <==> Hit(es, t, j)
    ensures forall n :: 0 < n <= j && EqualBlock(es, t, j, n) ==> FindState(es, t, j).blk == 32 * (j - n)
  {
    hide CmpOk, SumSfn;
    var st := FindState(es, t, j);
    forall n | 0 < n <= j && EqualBlock(es, t, j, n)
      ensures st == State(0, SumSfn(es[j]), 32 * (j - n))
    {
      EqualIsState(es, t, j - n, j, 0, SumSfn(es[j]));
    }
    if st.ord == 0 && st.sum == SumSfn(es[j]) {
      StateIsEqual(es, t, j);
      var n := j - st.blk / 32;
      assert EqualBlock(es, t, j, n);
    }
  }

  /** dir_find ends at the first object of the name before the end mark. */
  lemma {:induction false} FindsFirst(es: seq<DirEntry>, t: Target, i: nat)
    requires |t.buf| == MAX_LFN + 1 && i <= |es|
    ensures var j := FindEnd(es, t, i);
            (forall h :: i <= h < j ==> KindOf(es[h]) != End && !Hit(es, t, h)) &&
            (j < |es| ==> KindOf(es[j]) == End || Hit(es, t, j))
    decreases |es| - i
  {
    hide FindState, Hit, Accepts;
    if i < |es| {
      AcceptsIffHit(es, t, i);
      if KindOf(es[i]) != End && !Hit(es, t, i) {
        FindsFirst(es, t, i + 1);
      }
    }
  }

  // ---------------------------------------------------------------- the search

  lemma FindStep(es: seq<DirEntry>, t: Target, i: nat)
    requires |t.buf| == MAX_LFN + 1 && i < |es|
    ensures FindState(es, t, i + 1) == Compare(FindState(es, t, i), es[i], i, t)
    ensures FindEnd(es, t, i) ==
            if KindOf(es[i]) == End || Accepts(FindState(es, t, i), es[i], t) then i else FindEnd(es, t, i + 1)
  {
  }

  /** One round of dir_find's loop on an entry that is not the end mark: found, or the next state. */
  method CompareEntry(st: State, e: DirEntry, dptr: nat, ghost k: nat, t: Target) returns (found: bool, st': State)
    requires TargetOk(t) && dptr == 32 * k && e[0] != 0
    ensures found <==> Accepts(st, e, t)
    ensures st' == if found then st else Compare(st, e, k, t)
  {
    var c, a := e[0], e[11] % 0x40;
    found, st' := false, st;
    if c == 0xE5 || (a / 0x08 % 2 == 1 && a != AM_LFN) {
      st' := State(0xFF, st.sum, NO_LFN);
    } else if a == AM_LFN {
      if !t.noLfn {
        if IsLast(c) {
          st' := State(Order(c), e[13], dptr);
        }
        var ok := false;
        if Order(c) == st'.ord && st'.sum == e[13] {
          ok := CmpLfn(t.buf, t.up, e);
        }
        if ok {
          CmpOrder(t, e);
        }
        st' := st'.(ord := if ok then st'.ord - 1 else 0xFF);
      }
    } else {
      var s := ComputeSum(e);
      if st.ord == 0 && st.sum == s {
        return true, st;
      }
      if !t.loss && e[..11] == t.fn {
        return true, st;
      }
      st' := State(0xFF, st.sum, NO_LFN);
    }
  }

  /** Where the search ends, in bytes. */
  lemma EndBytes(es: seq<DirEntry>, t: Target)
    requires |t.buf| == MAX_LFN + 1
    ensures var j := FindEnd(es, t, 0);
            && (forall i :: 0 <= i < j ==> es[i][0] != 0)
            && (j < |es| ==> if Hit(es, t, j) then es[j][0] != 0 && es[j][0] != 0xE5 && es[j][11] % 0x10 < 0x08
                             else es[j][0] == 0)
  {
    hide FindEnd, KindOf;
    FindsFirst(es, t, 0);
    forall i | 0 <= i < |es|
      ensures KindOf(es[i]) == End <==> es[i][0] == 0
      ensures KindOf(es[i]) == Short <==> es[i][0] != 0 && es[i][0] != 0xE5 && es[i][11] % 0x10 < 0x08
    {
      KindBytes(es[i]);
    }
  }

  /** dir_find: the object stands at the first entry of the name, or no file is found. */
  method FindObject(dp: W.Dir, t: Target, ghost es: seq<DirEntry>) returns (res: FResult)
    requires dp.Ready() && TableIs(dp.fs, dp.sclust, es) && TargetOk(t)
    modifies dp, dp.fs`disk, dp.fs`wflag, dp.fs`winsect, dp.fs.win
    ensures dp.Ready() && TableIs(dp.fs, dp.sclust, es)
    ensures var j := FindEnd(es, t, 0);
            if j < |es| && Hit(es, t, j) then
              res == Ok && AtEntry(dp, es, j) && forall n :: 0 < n <= j && EqualBlock(es, t, j, n) ==> dp.blkOfs == 32 * (j - n)
            else res != Ok
    ensures var j := FindEnd(es, t, 0);
            && (forall i :: 0 <= i < j ==> es[i][0] != 0)
            && (if res == Ok then j < |es| && es[j][0] != 0 && es[j][0] != 0xE5 && es[j][11] % 0x10 < 0x08
                else j == |es| || es[j][0] == 0)
  {
    hide TableIs, AtEntry, W.Dir.Ready, FindState, FindEnd, Hit, Accepts, Compare, EqualBlock;
    EndBytes(es, t);
    res := Rewind(dp, es);
    if res != Ok {
      return;
    }
    var st := RESET;
    dp.blkOfs := NO_LFN;
    ghost var i: nat := 0;
    StartState(es, t);
    while res == Ok
      invariant dp.Ready() && TableIs(dp.fs, dp.sclust, es) && i <= |es|
      invariant if res == Ok then AtEntry(dp, es, i) else i == |es|
      invariant FindEnd(es, t, 0) == FindEnd(es, t, i) && st == FindState(es, t, i)
      invariant res == Ok ==> dp.blkOfs == st.blk
      decreases |es| - i, if res == Ok then 1 else 0
    {
      Inside(dp, es, i);
      var e := FetchEntry(dp, es, i);
      FindStep(es, t, i);
      AcceptsIffHit(es, t, i);
      if e[0] == 0 {
        NoHitAtEnd(es, t, i);
        return NoFile;
      }
      var found;
      found, st := CompareEntry(st, e, dp.dptr, i, t);
      if found {
        return Ok;
      }
      dp.blkOfs := st.blk;
      res := NextEntry(dp, es, i);
      i := i + 1;
    }
    FindsFirst(es, t, i);
  }

  /** dir_sdi to the first entry. */
  method Rewind(dp: W.Dir, ghost es: seq<DirEntry>) returns (res: FResult)
    requires dp.Ready() && TableIs(dp.fs, dp.sclust, es)
    modifies dp, dp.fs`disk, dp.fs`wflag, dp.fs`winsect, dp.fs.win
    ensures dp.Ready() && TableIs(dp.fs, dp.sclust, es)
    ensures if |es| > 0 then res == Ok && AtEntry(dp, es, 0) else res != Ok
  {
    FirstPlace(dp.fs, dp.sclust, es);
    res := dp.DirSdi(0);
  }

  lemma FirstPlace(fs: FatFs, sclust: nat, es: seq<DirEntry>)
    requires TableIs(fs, sclust, es)
    ensures W.Sdi(fs.geo, fs.fat, sclust, 0).At? <==> |es| > 0
  {
    assert 32 * 0 == 0;
    assert |es| > 0 ==> es[0] == DirRead.EntryAt(fs.store, W.Sdi(fs.geo, fs.fat, sclust, 32 * 0).place);
  }

  lemma StartState(es: seq<DirEntry>, t: Target)
    requires TargetOk(t)
    ensures FindState(es, t, 0) == RESET
  {
  }

  lemma NoHitAtEnd(es: seq<DirEntry>, t: Target, i: nat)
    requires TargetOk(t) && i < |es| && es[i][0] == 0
    ensures KindOf(es[i]) == End && !Hit(es, t, i)
  {
  }

  // ---------------------------------------------------------------- lookup after registration

  /** A registered object is found by its long name, in any case, exactly when the name has at most 254 units; a name of
      255 units can only be found by its short form. */
  lemma RegisteredIsFound(es: seq<DirEntry>, t: Target, name: seq<nat>, sfn: DirEntry, lo: nat)
    requires |t.buf| == MAX_LFN + 1 && IsName(name) && Buffers(t.buf, name, t.up) && !t.noLfn
    requires KindOf(sfn) == Short
    requires lo + EntryCount(name) < |es| && es[lo..lo + EntryCount(name) + 1] == ObjectEntries(name, sfn)
    ensures Hit(es, t, lo + EntryCount(name)) <==> |name| <= 254 || (!t.loss && sfn[..11] == t.fn)
  {
    hide CmpOk, SumSfn, LongEntry, ObjectEntries, Classify;
    var n := EntryCount(name);
    var j := lo + n;
    StoredObject(es, name, sfn, lo);
    CountFits(name);
    forall i | lo <= i < j
      ensures KindOf(es[i]) == Long && (CmpOk(t.buf, t.up, es[i]) <==> |name| <= 254 || i > lo)
    {
      LongIsLong(es[i]);
      StoredIs(name, SumSfn(sfn), es, lo, j, i);
      ComparedIffShort(t.buf, name, t.up, j - i, SumSfn(sfn));
    }
    if |name| <= 254 {
      assert EqualBlock(es, t, j, n);
    } else {
      forall m | 0 < m <= j
        ensures !EqualBlock(es, t, j, m)
      {
        OnlyWholeBlock(es, t, lo, j, m);
      }
    }
  }

  lemma LongIsLong(e: DirEntry)
    requires Classify(e, false) == Long
    ensures KindOf(e) == Long
  {
  }

  lemma StoredIs(name: seq<nat>, sum: byte, es: seq<DirEntry>, s: nat, k: nat, i: nat)
    requires Stored(name, sum, es, s, k) && s <= i < k && k - s == EntryCount(name)
    ensures 1 <= k - i <= 20 && es[i] == LongEntry(name, k - i, sum)
  {
  }

  /** No block that misses the entry at lo, or reaches past it, ends at j. */
  lemma OnlyWholeBlock(es: seq<DirEntry>, t: Target, lo: nat, j: nat, m: nat)
    requires |t.buf| == MAX_LFN + 1 && lo < j < |es| && 0 < m <= j
    requires forall i :: lo <= i < j ==> (IsLast(es[i][0]) <==> i == lo)
    requires !CmpOk(t.buf, t.up, es[lo])
    ensures !EqualBlock(es, t, j, m)
  {
    if j - m > lo {
      assert !IsLast(es[j - m][0]);
    }
  }
}
