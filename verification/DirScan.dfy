/** Reading a directory: which long name, if any, dir_read reports with a short entry. */
module DirScan {
  import opened Bits
  import opened Lfn

  const NO_LFN: nat := 0xFFFF_FFFF  // blk_ofs when there is no long name

  datatype Kind = End | Blank | Long | Short

  /** How dir_read takes an entry; vol asks for volume labels instead of files and directories. */
  function Classify(e: DirEntry, vol: bool): Kind {
    var c, a := e[0], e[11] % 0x40;
    if c == 0 then End
    else if c == 0xE5 || c == 0x2E || (a % 0x20 == 0x08) != vol then Blank
    else if a == AM_LFN then Long
    else Short
  }

  /** The kinds in bytes: the first byte is 0 at the end, 0xE5 in a deleted entry and a dot in the dot entries; bits 0 to 4 of
      the attribute are 0x08 in a label, and bits 0 to 5 are 0x0F in a long entry. */
  lemma KindBytes(e: DirEntry, vol: bool)
    ensures Classify(e, vol) == End <==> e[0] == 0
    ensures Classify(e, vol) == Short <==>
              e[0] !in {0, 0xE5, 0x2E} && (e[11] % 0x20 == 0x08 <==> vol) && e[11] % 0x40 != 0x0F
    ensures Classify(e, vol) == Long <==> e[0] !in {0, 0xE5, 0x2E} && !vol && e[11] % 0x40 == 0x0F
  {
  }

  /** Where dir_read stops, in bytes. */
  lemma StopBytes(es: seq<DirEntry>, vol: bool, lo: nat)
    requires lo <= |es|
    ensures var j := Stop(es, vol, lo);
            && (forall i :: lo <= i < j ==>
                  && es[i][0] != 0
                  && (es[i][0] == 0xE5 || es[i][0] == 0x2E || (es[i][11] % 0x20 == 0x08) != vol || es[i][11] % 0x40 == 0x0F))
            && (j < |es| ==>
                  || es[j][0] == 0
                  || (es[j][0] != 0xE5 && es[j][0] != 0x2E && (es[j][11] % 0x20 == 0x08) == vol && es[j][11] % 0x40 != 0x0F))
  {
    hide Stop, Classify;
    var j := Stop(es, vol, lo);
    forall i | lo <= i <= j && i < |es|
      ensures (Classify(es[i], vol) == End <==> es[i][0] == 0) && (Classify(es[i], vol) == Short <==>
                es[i][0] !in {0, 0xE5, 0x2E} && (es[i][11] % 0x20 == 0x08 <==> vol) && es[i][11] % 0x40 != 0x0F)
    {
      KindBytes(es[i], vol);
    }
  }

  /** The running state of dir_read: the order of the entry before the next expected one, the checksum, the block's offset. */
  datatype State = State(ord: nat, sum: byte, blk: nat)

  /** One long entry. */
  function TakeLong(st: State, e: DirEntry, k: nat): State {
    var st1 := if IsLast(e[0]) then State(Order(e[0]), e[13], 32 * k) else st;
    if Order(e[0]) == st1.ord && st1.sum == e[13] && PickOk(e) then st1.(ord := st1.ord - 1) else st1.(ord := 0xFF)
  }

  function Take(st: State, e: DirEntry, k: nat, vol: bool): State {
    match Classify(e, vol)
    case Long => TakeLong(st, e, k)
    case Blank => st.(ord := 0xFF)
    case _ => st
  }

  /** The state before entry k, reading from entry lo on. */
  function StateAt(es: seq<DirEntry>, vol: bool, lo: nat, k: nat, blk: nat): State
    requires lo <= k <= |es|
  {
    if k == lo then State(0xFF, 0xFF, blk) else Take(StateAt(es, vol, lo, k - 1, blk), es[k - 1], k - 1, vol)
  }

  /** The entry dir_read stops at: the first short one or end mark, or the end of the table. */
  function Stop(es: seq<DirEntry>, vol: bool, lo: nat): (j: nat)
    requires lo <= |es|
    ensures lo <= j <= |es|
    ensures forall i :: lo <= i < j ==> Classify(es[i], vol) in {Blank, Long}
    ensures j < |es| ==> Classify(es[j], vol) in {End, Short}
    decreases |es| - lo
  {
    if lo == |es| || Classify(es[lo], vol) in {End, Short} then lo else Stop(es, vol, lo + 1)
  }

  /** The offset dir_read reports with the short entry it stops at. */
  function Reported(es: seq<DirEntry>, vol: bool, lo: nat, blk: nat): nat
    requires lo <= |es| && Stop(es, vol, lo) < |es|
  {
    var j := Stop(es, vol, lo);
    var st := StateAt(es, vol, lo, j, blk);
    if st.ord != 0 || st.sum != SumSfn(es[j]) then NO_LFN else st.blk
  }

  /** Entries s to k - 1 are the top of a long name, orders counting down to ord + 1, with one checksum and nothing read
      before lo. */
  ghost predicate Partial(es: seq<DirEntry>, vol: bool, lo: nat, s: nat, k: nat, ord: nat, sum: byte) {
    && lo <= s < k <= |es|
    && IsLast(es[s][0])
    && (forall i :: s <= i < k ==>
          && Classify(es[i], vol) == Long
          && Order(es[i][0]) == ord + (k - i)
          && PickOk(es[i]) && es[i][13] == sum)
    && (forall i :: s < i < k ==> !IsLast(es[i][0]))
  }

  /** A complete valid long name of n entries directly before the short entry j: a last-flag entry with order n, then
      n - 1 down to 1, all with the checksum of the short entry. */
  ghost predicate LongBlock(es: seq<DirEntry>, vol: bool, lo: nat, j: nat, n: nat) {
    j < |es| && n <= j && Partial(es, vol, lo, j - n, j, 0, SumSfn(es[j]))
  }

  /** The same in bytes. */
  lemma LongBlockBytes(es: seq<DirEntry>, vol: bool, lo: nat, j: nat, n: nat)
    requires 0 < n <= j < |es|
    ensures LongBlock(es, vol, lo, j, n) <==>
              && lo + n <= j && !vol
              && forall i :: j - n <= i < j ==>
                   && es[i][0] as int == (if i == j - n then 0x40 else 0) + (j - i)
                   && es[i][11] % 0x40 == 0x0F && es[i][13] == SumSfn(es[j]) && PickOk(es[i])
  {
    hide Classify, SumSfn, PickOk;
    forall i | 0 <= i < |es|
      ensures Classify(es[i], vol) == Long <==> es[i][0] !in {0, 0xE5, 0x2E} && !vol && es[i][11] % 0x40 == 0x0F
      ensures es[i][0] as int == Order(es[i][0]) + (if IsLast(es[i][0]) then 0x40 else 0)
      ensures IsLast(es[i][0]) <==> 0x40 <= es[i][0] < 0x80 || 0xC0 <= es[i][0]
      ensures PickOk(es[i]) ==> 1 <= Order(es[i][0]) <= 20
    {
      KindBytes(es[i], vol);
      OrderByte(es[i][0]);
      OrderSmall(es[i]);
    }
  }

  lemma OrderSmall(e: DirEntry)
    ensures PickOk(e) ==> 1 <= Order(e[0]) <= 20
  {
  }

  lemma OrderFits(e: DirEntry)
    requires PickOk(e)
    ensures 1 <= Order(e[0]) < 0xFF
  {
  }

  /** A state that has not given up is the state of a partial long name. */
  lemma {:induction false} StateIsPartial(es: seq<DirEntry>, vol: bool, lo: nat, k: nat, blk: nat)
    requires lo <= k <= |es| && forall i :: lo <= i < k ==> Classify(es[i], vol) in {Blank, Long}
    ensures var st := StateAt(es, vol, lo, k, blk);
            st.ord != 0xFF ==> st.blk % 32 == 0 && Partial(es, vol, lo, st.blk / 32, k, st.ord, st.sum)
  {
    hide PickOk, SumSfn, Order, IsLast;
    if k > lo {
      StateIsPartial(es, vol, lo, k - 1, blk);
      var st0, st, e := StateAt(es, vol, lo, k - 1, blk), StateAt(es, vol, lo, k, blk), es[k - 1];
      if st.ord != 0xFF && Classify(e, vol) == Long {
        OrderFits(e);
        if IsLast(e[0]) {
          assert Partial(es, vol, lo, k - 1, k, st.ord, st.sum);
        } else {
          assert Partial(es, vol, lo, st0.blk / 32, k - 1, st0.ord, st0.sum);
        }
      }
    }
  }

  /** And the other way round: a partial long name is what the state says. */
  lemma {:induction false} PartialIsState(es: seq<DirEntry>, vol: bool, lo: nat, s: nat, k: nat, ord: nat, sum: byte, blk: nat)
    requires Partial(es, vol, lo, s, k, ord, sum)
    ensures StateAt(es, vol, lo, k, blk) == State(ord, sum, 32 * s)
    decreases k
  {
    var e := es[k - 1];
    OrderFits(e);
    if s < k - 1 {
      PartialIsState(es, vol, lo, s, k - 1, ord + 1, sum, blk);
    }
  }

  /** dir_read reports a long name with a short entry if and only if a complete valid one directly precedes it, and then
      the offset of its first entry. */
  lemma LongNameIff(es: seq<DirEntry>, vol: bool, lo: nat, blk: nat)
    requires lo <= |es| <= 0x1_0000 && Stop(es, vol, lo) < |es|
    ensures var j := Stop(es, vol, lo);
            && (Reported(es, vol, lo, blk) != NO_LFN <==> exists n :: 0 < n <= j && LongBlock(es, vol, lo, j, n))
            && forall n :: 0 < n <= j && LongBlock(es, vol, lo, j, n) ==> Reported(es, vol, lo, blk) == 32 * (j - n)
  {
    var j := Stop(es, vol, lo);
    var st := StateAt(es, vol, lo, j, blk);
    if st.ord == 0 && st.sum == SumSfn(es[j]) {
      StateIsPartial(es, vol, lo, j, blk);
      assert LongBlock(es, vol, lo, j, j - st.blk / 32);
    }
    forall n | 0 < n <= j && LongBlock(es, vol, lo, j, n) ensures Reported(es, vol, lo, blk) == 32 * (j - n) {
      PartialIsState(es, vol, lo, j - n, j, 0, SumSfn(es[j]), blk);
    }
  }

  /** The name buffer after the entries s to k - 1 have been picked one after the other. */
  function PickAll(buf: seq<nat>, es: seq<DirEntry>, s: nat, k: nat): (r: seq<nat>)
    requires s <= k <= |es| && |buf| == MAX_LFN + 1 && forall i :: s <= i < k ==> PickOk(es[i])
    ensures |r| == |buf|
  {
    if k == s then buf else PickInto(PickAll(buf, es, s, k - 1), es[k - 1])
  }

  /** The long entries of a name, first the one with the highest order: what dir_register stores before the short entry. */
  function NameEntries(name: seq<nat>, sum: byte, n: nat): (r: seq<DirEntry>)
    requires n <= 20 && forall i :: 0 <= i < |name| ==> name[i] < 0x1_0000
    ensures |r| == n
    ensures forall i :: 0 <= i < n ==> r[i] == LongEntry(name, n - i, sum)
  {
    if n == 0 then [] else [LongEntry(name, n, sum)] + NameEntries(name, sum, n - 1)
  }

  /** All entries of an object with a long name. */
  function ObjectEntries(name: seq<nat>, sfn: DirEntry): (r: seq<DirEntry>)
    requires |name| <= MAX_LFN && forall i :: 0 <= i < |name| ==> name[i] < 0x1_0000
    ensures |r| == EntryCount(name) + 1
  {
    NameEntries(name, SumSfn(sfn), EntryCount(name)) + [sfn]
  }

  /** The entries s to k - 1 are the first of those stored for a name. */
  ghost predicate Stored(name: seq<nat>, sum: byte, es: seq<DirEntry>, s: nat, k: nat) {
    && IsName(name) && EntryCount(name) <= 20
    && s <= k <= |es| && k - s <= EntryCount(name)
    && forall i :: s <= i < k ==> es[i] == LongEntry(name, EntryCount(name) - (i - s), sum)
  }

  lemma StoredPicked(name: seq<nat>, sum: byte, es: seq<DirEntry>, s: nat, k: nat)
    requires Stored(name, sum, es, s, k) && |name| <= 253
    ensures forall i :: s <= i < k ==> PickOk(es[i])
  {
    hide LongEntry, PickOk;
    forall i | s <= i < k ensures PickOk(es[i]) {
      PickedIffShort(name, EntryCount(name) - (i - s), sum);
    }
  }

  /** The positions from p0 on are in the buffer. */
  ghost predicate Filled(name: seq<nat>, buf: seq<nat>, p0: nat) {
    |name| < |buf| && forall p :: p0 <= p <= |name| ==> buf[p] == NameUnit(name, p)
  }

  /** Entries of a name picked down to order m + 1 have put everything from position 13 * m on into the buffer. */
  lemma {:induction false} PickedSoFar(name: seq<nat>, sum: byte, buf: seq<nat>, es: seq<DirEntry>, s: nat, k: nat)
    requires Stored(name, sum, es, s, k) && |name| <= 253 && |buf| == MAX_LFN + 1 && s < k
    requires forall i :: s <= i < k ==> PickOk(es[i])
    ensures Filled(name, PickAll(buf, es, s, k), 13 * (EntryCount(name) - (k - s)))
    decreases k
  {
    hide LongEntry, PickOk, PickInto, EntryCount;
    var n := EntryCount(name);
    var ord := n - (k - 1 - s);
    assert es[k - 1] == LongEntry(name, ord, sum);
    PickOne(name, sum, PickAll(buf, es, s, k - 1), ord);
    if s < k - 1 {
      PickedSoFar(name, sum, buf, es, s, k - 1);
    }
  }

  lemma PickOne(name: seq<nat>, sum: byte, buf: seq<nat>, ord: nat)
    requires IsName(name) && |name| <= 253 && |buf| == MAX_LFN + 1 && 1 <= ord <= EntryCount(name) <= 20
    ensures var e := LongEntry(name, ord, sum);
            && PickOk(e)
            && forall p :: 13 * (ord - 1) <= p <= |name| ==>
                 PickInto(buf, e)[p] == if p < 13 * ord || ord == EntryCount(name) then NameUnit(name, p) else buf[p]
  {
    hide LongEntry, EndSlot, FillerOk, Unit;
    var e := LongEntry(name, ord, sum);
    PickedIffShort(name, ord, sum);
    EndSlotOfName(name, ord, sum);
    LongEntryOrder(name, ord, sum);
    forall p | 13 * (ord - 1) <= p <= |name|
      ensures PickInto(buf, e)[p] == if p < 13 * ord || ord == EntryCount(name) then NameUnit(name, p) else buf[p]
    {
      if p < 13 * ord {
        LongEntryUnit(name, ord, sum, p - 13 * (ord - 1));
      }
    }
  }

  /** What a C string in a buffer spells. */
  ghost predicate Spells(buf: seq<nat>, name: seq<nat>) {
    |name| < |buf| && buf[..|name|] == name && buf[|name|] == 0
  }

  lemma FilledSpells(name: seq<nat>, buf: seq<nat>)
    requires Filled(name, buf, 0)
    ensures Spells(buf, name)
  {
  }

  /** The round trip: a read that comes to the entries stored for a name of at most 253 units over blank or long entries
      (deleted ones, remains of other names) gives exactly that name and the offset of the first of them; a longer name is
      not reported at all, whatever lies before it. */
  lemma NameRoundTrip(es: seq<DirEntry>, name: seq<nat>, sfn: DirEntry, lo: nat, at: nat, blk: nat, buf: seq<nat>)
    requires IsName(name) && |es| <= 0x1_0000 && |buf| == MAX_LFN + 1
    requires Classify(sfn, false) == Short
    requires at + EntryCount(name) < |es| && es[at..at + EntryCount(name) + 1] == ObjectEntries(name, sfn)
    requires lo <= at && forall i :: lo <= i < at ==> Classify(es[i], false) in {Blank, Long}
    ensures var j := at + EntryCount(name);
            && Stop(es, false, lo) == j
            && Reported(es, false, lo, blk) == (if |name| <= 253 then 32 * at else NO_LFN)
            && (|name| <= 253 ==>
                  && (forall i :: at <= i < j ==> PickOk(es[i]))
                  && Spells(PickAll(buf, es, at, j), name))
  {
    hide LongEntry, LongByte, PickAll, Stop, PickOk, StateAt;
    var n, sum := EntryCount(name), SumSfn(sfn);
    var j := at + n;
    StoredObject(es, name, sfn, at);
    StopsAt(es, false, lo, j);
    LongNameIff(es, false, lo, blk);
    if |name| <= 253 {
      StoredPicked(name, sum, es, at, j);
      StoredBlock(name, es, lo, at, j);
      PickedSoFar(name, sum, buf, es, at, j);
      FilledSpells(name, PickAll(buf, es, at, j));
    } else {
      forall m | 0 < m <= j ensures !LongBlock(es, false, lo, j, m) {
        TooLong(name, sum, es, lo, at, j, m);
      }
    }
  }

  lemma StoredObject(es: seq<DirEntry>, name: seq<nat>, sfn: DirEntry, lo: nat)
    requires IsName(name) && lo + EntryCount(name) < |es|
    requires es[lo..lo + EntryCount(name) + 1] == ObjectEntries(name, sfn)
    ensures var j := lo + EntryCount(name);
            && es[j] == sfn && Stored(name, SumSfn(sfn), es, lo, j)
            && (forall i :: lo <= i < j ==> Classify(es[i], false) == Long && es[i][13] == SumSfn(sfn)
                                            && Order(es[i][0]) == j - i && (IsLast(es[i][0]) <==> i == lo))
  {
    hide LongEntry;
    var n, os := EntryCount(name), es[lo..lo + EntryCount(name) + 1];
    assert es[lo + n] == os[n];
    forall i | lo <= i < lo + n
      ensures es[i] == LongEntry(name, n - (i - lo), SumSfn(sfn))
      ensures Classify(es[i], false) == Long && es[i][13] == SumSfn(sfn)
      ensures Order(es[i][0]) == lo + n - i && (IsLast(es[i][0]) <==> i == lo)
    {
      assert es[i] == os[i - lo];
      LongEntryOrder(name, n - (i - lo), SumSfn(sfn));
    }
  }

  lemma {:induction false} StopsAt(es: seq<DirEntry>, vol: bool, lo: nat, j: nat)
    requires lo <= j < |es| && Classify(es[j], vol) == Short && forall i :: lo <= i < j ==> Classify(es[i], vol) in {Blank, Long}
    ensures Stop(es, vol, lo) == j
  {
  }

  lemma StoredBlock(name: seq<nat>, es: seq<DirEntry>, lo: nat, at: nat, j: nat)
    requires IsName(name) && lo <= at < j < |es| && j == at + EntryCount(name)
    requires forall i :: at <= i < j ==> PickOk(es[i])
    requires forall i :: at <= i < j ==> Classify(es[i], false) == Long && es[i][13] == SumSfn(es[j])
                                         && Order(es[i][0]) == j - i && (IsLast(es[i][0]) <==> i == at)
    ensures LongBlock(es, false, lo, j, EntryCount(name))
  {
  }

  /** The last-flag entry of a name of 254 or 255 units is not accepted; no other of its entries can begin a block, and none
      before it, since a block has no second last-flag entry. */
  lemma TooLong(name: seq<nat>, sum: byte, es: seq<DirEntry>, lo: nat, at: nat, j: nat, m: nat)
    requires Stored(name, sum, es, at, j) && j == at + EntryCount(name) && |name| > 253 && 0 < m <= j
    requires forall i :: at <= i < j ==> (IsLast(es[i][0]) <==> i == at)
    ensures !LongBlock(es, false, lo, j, m)
  {
    PickedIffShort(name, EntryCount(name), sum);
    assert es[at] == LongEntry(name, EntryCount(name), sum);
  }

  lemma CountFits(name: seq<nat>)
    requires IsName(name)
    ensures 1 <= EntryCount(name) <= 20 && (EntryCount(name) - 1) * 13 <= |name|
  {
  }
}
