/** Long file names: how a name lies in directory entries, and how entries are put, picked, compared and summed. */
module Lfn {
  import opened Bits

  /** A directory entry. */
  type DirEntry = e: seq<byte> | |e| == 32 witness seq(32, _ => 0)

  const MAX_LFN: nat := 255
  const LLEF: nat := 0x40     // last long entry flag
  const AM_LFN: byte := 0x0F

  /** LfnOfs: where the 13 units of a long entry lie. */
  function UnitOfs(s: nat): (o: nat)
    requires s < 13
    ensures 1 <= o <= 30
  {
    if s < 5 then 1 + 2 * s else if s < 11 then 14 + 2 * (s - 5) else 28 + 2 * (s - 11)
  }

  function Unit(e: DirEntry, s: nat): nat
    requires s < 13
  {
    Word(e, UnitOfs(s))
  }

  /** Order byte without the flag; whether the flag is set. */
  function Order(b: byte): nat {
    if b / LLEF % 2 == 1 then b - LLEF else b
  }

  predicate IsLast(b: byte) {
    b / LLEF % 2 == 1
  }

  /** A name that can be stored: at most 255 units, none of them the end mark or the filler. */
  ghost predicate IsName(name: seq<nat>) {
    1 <= |name| <= MAX_LFN && forall i :: 0 <= i < |name| ==> 0 < name[i] < 0xFFFF
  }

  /** The unit stored for position i of a name: the end mark behind it, filler after that. */
  function NameUnit(name: seq<nat>, i: nat): nat {
    if i < |name| then name[i] else if i == |name| then 0 else 0xFFFF
  }

  /** Number of long entries a name takes. */
  function EntryCount(name: seq<nat>): nat {
    (|name| + 12) / 13
  }

  /** Byte b of the long entry with order ord. */
  function LongByte(name: seq<nat>, ord: nat, sum: byte, b: nat): byte
    requires 1 <= ord <= 20 && b < 32
    requires forall i :: 0 <= i < |name| ==> name[i] < 0x1_0000
  {
    if b == 0 then (if ord * 13 >= |name| then ord + LLEF else ord)
    else if b == 11 then AM_LFN
    else if b == 12 then 0
    else if b == 13 then sum
    else if b == 26 || b == 27 then 0
    else
      var s := if b < 11 then (b - 1) / 2 else if b < 26 then 5 + (b - 14) / 2 else 11 + (b - 28) / 2;
      var u := NameUnit(name, (ord - 1) * 13 + s);
      if (b - UnitOfs(s)) == 0 then u % 0x100 else u / 0x100
  }

  /** The long entry with order ord of a name. */
  function LongEntry(name: seq<nat>, ord: nat, sum: byte): (e: DirEntry)
    requires 1 <= ord <= 20
    requires forall i :: 0 <= i < |name| ==> name[i] < 0x1_0000
  {
    seq(32, b requires 0 <= b < 32 => LongByte(name, ord, sum, b))
  }

  lemma LongEntryUnit(name: seq<nat>, ord: nat, sum: byte, s: nat)
    requires 1 <= ord <= 20 && s < 13
    requires forall i :: 0 <= i < |name| ==> name[i] < 0x1_0000
    ensures Unit(LongEntry(name, ord, sum), s) == NameUnit(name, (ord - 1) * 13 + s)
  {
  }

  lemma LongEntryOrder(name: seq<nat>, ord: nat, sum: byte)
    requires 1 <= ord <= 20
    requires forall i :: 0 <= i < |name| ==> name[i] < 0x1_0000
    ensures var e := LongEntry(name, ord, sum);
            && Order(e[0]) == ord && (IsLast(e[0]) <==> ord * 13 >= |name|)
            && e[0] != 0 && e[0] != 0xE5 && e[0] != 0x2E
            && e[0] as int % 0x40 == ord && e[11] == AM_LFN && e[13] == sum && Word(e, 26) == 0
  {
  }

  /** st_word of unit s of an entry. */
  method StoreUnit(win: array<byte>, dir: nat, s: nat, wc: nat)
    requires s < 13 && wc < 0x1_0000 && dir + 32 <= win.Length
    modifies win
    ensures win[dir + UnitOfs(s)] as int == wc % 0x100 && win[dir + UnitOfs(s) + 1] as int == wc / 0x100
    ensures forall b :: 0 <= b < win.Length && b != dir + UnitOfs(s) && b != dir + UnitOfs(s) + 1 ==> win[b] == old(win[b])
  {
    win[dir + UnitOfs(s)] := wc % 0x100;
    win[dir + UnitOfs(s) + 1] := wc / 0x100;
  }

  /** The loop of put_lfn: the thirteen units of an entry; it tells whether the name ends in it. */
  method StoreUnits(lfn: seq<nat>, win: array<byte>, dir: nat, ord: nat) returns (ends: bool)
    requires IsName(lfn) && 1 <= ord <= 20 && (ord - 1) * 13 <= |lfn| && dir + 32 <= win.Length
    modifies win
    ensures forall t :: 0 <= t < 13 ==>
              && win[dir + UnitOfs(t)] as int == NameUnit(lfn, (ord - 1) * 13 + t) % 0x100
              && win[dir + UnitOfs(t) + 1] as int == NameUnit(lfn, (ord - 1) * 13 + t) / 0x100
    ensures forall b :: 0 <= b < win.Length && !(dir + 1 <= b < dir + 32) ==> win[b] == old(win[b])
    ensures win[dir + 11] == old(win[dir + 11]) && win[dir + 12] == old(win[dir + 12]) && win[dir + 13] == old(win[dir + 13])
    ensures win[dir + 26] == old(win[dir + 26]) && win[dir + 27] == old(win[dir + 27])
    ensures ends <==> ord * 13 >= |lfn|
  {
    var i, s, wc := (ord - 1) * 13, 0, 0;
    while s < 13
      invariant 0 <= s <= 13
      invariant if wc == 0xFFFF then i == |lfn| + 1 && (ord - 1) * 13 + s > |lfn| else i == (ord - 1) * 13 + s <= |lfn|
      invariant forall t :: 0 <= t < s ==>
                  && win[dir + UnitOfs(t)] as int == NameUnit(lfn, (ord - 1) * 13 + t) % 0x100
                  && win[dir + UnitOfs(t) + 1] as int == NameUnit(lfn, (ord - 1) * 13 + t) / 0x100
      invariant forall b :: 0 <= b < win.Length && !(dir + 1 <= b < dir + 32) ==> win[b] == old(win[b])
      invariant win[dir + 11] == old(win[dir + 11]) && win[dir + 12] == old(win[dir + 12]) && win[dir + 13] == old(win[dir + 13])
      invariant win[dir + 26] == old(win[dir + 26]) && win[dir + 27] == old(win[dir + 27])
    {
      if wc != 0xFFFF {
        wc := if i < |lfn| then lfn[i] else 0;
        i := i + 1;
      }
      assert wc == NameUnit(lfn, (ord - 1) * 13 + s) < 0x1_0000;
      StoreUnit(win, dir, s, wc);
      if wc == 0 {
        wc := 0xFFFF;
      }
      s := s + 1;
    }
    ends := wc == 0xFFFF || i == |lfn|;
  }

  /** put_lfn: write one long entry at offset dir of the window. */
  method PutLfn(lfn: seq<nat>, win: array<byte>, dir: nat, ord: nat, sum: byte)
    requires IsName(lfn) && 1 <= ord <= 20 && (ord - 1) * 13 <= |lfn| && dir + 32 <= win.Length
    modifies win
    ensures win[..] == Patch(old(win[..]), dir, LongEntry(lfn, ord, sum))
  {
    hide LongEntry, LongByte, NameUnit;
    win[dir + 13] := sum;
    win[dir + 11] := AM_LFN;
    win[dir + 12] := 0;
    win[dir + 26] := 0;
    win[dir + 27] := 0;
    var ends := StoreUnits(lfn, win, dir, ord);
    win[dir] := if ends then ord + LLEF else ord;
    ghost var e := LongEntry(lfn, ord, sum);
    forall b | 0 <= b < 32 ensures win[..][dir + b] == e[b] {
      WrittenByte(win[..], lfn, dir, ord, sum, b);
    }
    assert win[..] == Patch(old(win[..]), dir, e);
  }

  /** Header bytes and units make the entry. */
  lemma WrittenByte(s: seq<byte>, lfn: seq<nat>, dir: nat, ord: nat, sum: byte, b: nat)
    requires IsName(lfn) && 1 <= ord <= 20 && dir + 32 <= |s| && b < 32
    requires s[dir] as int == (if ord * 13 >= |lfn| then ord + LLEF else ord) && s[dir + 11] == AM_LFN && s[dir + 12] == 0
    requires s[dir + 13] == sum && s[dir + 26] == 0 && s[dir + 27] == 0
    requires forall t :: 0 <= t < 13 ==>
               && s[dir + UnitOfs(t)] as int == NameUnit(lfn, (ord - 1) * 13 + t) % 0x100
               && s[dir + UnitOfs(t) + 1] as int == NameUnit(lfn, (ord - 1) * 13 + t) / 0x100
    ensures s[dir + b] == LongEntry(lfn, ord, sum)[b]
  {
    hide NameUnit;
    SlotOfByte(b);
  }

  /** Every byte of an entry is a header byte or half a unit. */
  lemma SlotOfByte(b: nat)
    requires b < 32
    ensures b in {0, 11, 12, 13, 26, 27} || exists s :: 0 <= s < 13 && (b == UnitOfs(s) || b == UnitOfs(s) + 1)
  {
    if 1 <= b <= 10 {
      assert b == UnitOfs((b - 1) / 2) || b == UnitOfs((b - 1) / 2) + 1;
    } else if 14 <= b <= 25 {
      assert b == UnitOfs(5 + (b - 14) / 2) || b == UnitOfs(5 + (b - 14) / 2) + 1;
    } else if 28 <= b {
      assert b == UnitOfs(11 + (b - 28) / 2) || b == UnitOfs(11 + (b - 28) / 2) + 1;
    }
  }

  /** First slot from s on that holds the end mark, or 13. */
  function EndSlot(e: DirEntry, s: nat): (z: nat)
    requires s <= 13
    ensures s <= z <= 13 && (z < 13 ==> Unit(e, z) == 0)
    ensures forall t :: s <= t < z ==> Unit(e, t) != 0
    decreases 13 - s
  {
    if s == 13 || Unit(e, s) == 0 then s else EndSlot(e, s + 1)
  }

  /** Position in the name of the entry's first unit; negative for the order 0. */
  function Start(e: DirEntry): int {
    (Order(e[0]) - 1) * 13
  }

  /** Only filler behind the end mark. */
  predicate FillerOk(e: DirEntry) {
    forall s :: EndSlot(e, 0) < s < 13 ==> Unit(e, s) == 0xFFFF
  }

  /** pick_lfn accepts the entry: its units, and the end mark put behind a last entry, fit below position 255. */
  predicate PickOk(e: DirEntry) {
    var z := EndSlot(e, 0);
    && Word(e, 26) == 0
    && 0 <= Start(e) && Start(e) + Min(z, 12) < MAX_LFN
    && FillerOk(e)
    && (IsLast(e[0]) ==> Start(e) + Min(z + 1, 13) < MAX_LFN)
  }

  /** The buffer after an accepted pick. */
  function PickInto(buf: seq<nat>, e: DirEntry): (r: seq<nat>)
    requires PickOk(e) && |buf| == MAX_LFN + 1
    ensures |r| == |buf|
  {
    var z := EndSlot(e, 0);
    var end := Start(e) + Min(z + 1, 13);
    seq(|buf|, i requires 0 <= i < |buf| =>
      if Start(e) <= i < end then Unit(e, i - Start(e)) else if IsLast(e[0]) && i == end then 0 else buf[i])
  }

  /** pick_lfn. */
  method PickLfn(lfnbuf: array<nat>, e: DirEntry) returns (ok: bool)
    requires lfnbuf.Length == MAX_LFN + 1
    modifies lfnbuf
    ensures ok == PickOk(e)
    ensures ok ==> lfnbuf[..] == PickInto(old(lfnbuf[..]), e)
  {
    hide EndSlot, Unit, Word;
    if Word(e, 26) != 0 {
      return false;
    }
    if Order(e[0]) == 0 {
      return false;  // the unsigned offset of order 0 is far above the bound
    }
    ghost var z, buf := EndSlot(e, 0), lfnbuf[..];
    var i, wc, s := (Order(e[0]) - 1) * 13, 1, 0;
    while s < 13
      invariant 0 <= s <= 13
      invariant wc != 0 ==> s <= z && i == Start(e) + s && (s > 0 ==> i - 1 < MAX_LFN)
      invariant wc == 0 ==> z < s && i == Start(e) + z + 1 <= MAX_LFN && forall t :: z < t < s ==> Unit(e, t) == 0xFFFF
      invariant s == 0 ==> wc != 0
      invariant Start(e) <= i
      invariant forall k :: 0 <= k <= MAX_LFN ==> lfnbuf[k] == if Start(e) <= k < i then Unit(e, k - Start(e)) else buf[k]
    {
      var uc := Unit(e, s);
      if wc != 0 {
        if i >= MAX_LFN {
          return false;
        }
        lfnbuf[i] := uc;
        wc := uc;
        i := i + 1;
      } else if uc != 0xFFFF {
        return false;
      }
      s := s + 1;
    }
    if IsLast(e[0]) {
      if i >= MAX_LFN {
        return false;
      }
      lfnbuf[i] := 0;
    }
    PickedBuffer(buf, e, lfnbuf[..]);
    ok := true;
  }

  lemma PickedBuffer(buf: seq<nat>, e: DirEntry, r: seq<nat>)
    requires PickOk(e) && |buf| == |r| == MAX_LFN + 1
    requires var end := Start(e) + Min(EndSlot(e, 0) + 1, 13);
             forall i :: 0 <= i < |buf| ==>
               r[i] == if Start(e) <= i < end then Unit(e, i - Start(e)) else if IsLast(e[0]) && i == end then 0 else buf[i]
    ensures r == PickInto(buf, e)
  {
  }

  /** Position of the entry's first unit as cmp_lfn computes it, from the low six bits of the order byte. */
  function CmpStart(e: DirEntry): int {
    (e[0] as int % 0x40 - 1) * 13
  }

  /** cmp_lfn accepts the entry for the name in the buffer, letters compared after up. */
  predicate CmpOk(buf: seq<nat>, up: nat -> nat, e: DirEntry)
    requires |buf| == MAX_LFN + 1
  {
    var z, start := EndSlot(e, 0), CmpStart(e);
    && Word(e, 26) == 0
    && 0 <= start && start + Min(z, 12) < MAX_LFN
    && (forall s :: 0 <= s <= z && s < 13 ==> up(Unit(e, s)) == up(buf[start + s]))
    && FillerOk(e)
    && (IsLast(e[0]) && z == 13 ==> buf[start + 13] == 0)
  }

  /** cmp_lfn. */
  method CmpLfn(buf: seq<nat>, up: nat -> nat, e: DirEntry) returns (ok: bool)
    requires |buf| == MAX_LFN + 1
    ensures ok == CmpOk(buf, up, e)
  {
    hide Word, Unit, EndSlot;
    if Word(e, 26) != 0 {
      return false;
    }
    if e[0] % 0x40 == 0 {
      return false;  // the unsigned offset of order 0 is far above the bound
    }
    ghost var z, start := EndSlot(e, 0), CmpStart(e);
    var i: nat, wc, s := CmpStart(e), 1, 0;
    while s < 13
      invariant 0 <= s <= 13
      invariant wc != 0 ==> s <= z && i == start + s && (s > 0 ==> i - 1 < MAX_LFN)
      invariant wc == 0 ==> z < s && i == start + z + 1 <= MAX_LFN && forall t :: z < t < s ==> Unit(e, t) == 0xFFFF
      invariant s == 0 ==> wc != 0
      invariant s > 0 ==> start + Min(s - 1, z) < MAX_LFN
      invariant forall t :: 0 <= t < s && t <= z ==> start + t < MAX_LFN && up(Unit(e, t)) == up(buf[start + t])
    {
      var uc := Unit(e, s);
      if wc != 0 {
        if i >= MAX_LFN || up(uc) != up(buf[i]) {
          return false;
        }
        i := i + 1;
        wc := uc;
      } else if uc != 0xFFFF {
        return false;
      }
      s := s + 1;
    }
    if IsLast(e[0]) && wc != 0 && buf[i] != 0 {
      return false;
    }
    ok := true;
  }

  /** The buffer holds a name, but for the case of its letters, and an end mark. */
  ghost predicate Buffers(buf: seq<nat>, name: seq<nat>, up: nat -> nat) {
    |buf| == MAX_LFN + 1 && |name| <= MAX_LFN && buf[|name|] == 0 && forall p :: 0 <= p < |name| ==> up(buf[p]) == up(name[p])
  }

  /** The checksum of a short name: rotate right, add. */
  function Sum(e: DirEntry, n: nat): byte
    requires n <= 11
  {
    if n == 0 then 0
    else
      var sum := Sum(e, n - 1);
      (sum / 2 + sum * 0x80 % 0x100 + e[n - 1]) % 0x100
  }

  function SumSfn(e: DirEntry): byte {
    Sum(e, 11)
  }

  /** sum_sfn. */
  method ComputeSum(e: DirEntry) returns (sum: byte)
    ensures sum == SumSfn(e)
  {
    sum := 0;
    var n := 0;
    while n < 11
      invariant 0 <= n <= 11 && sum == Sum(e, n)
    {
      sum := (sum / 2 + sum * 0x80 % 0x100 + e[n]) % 0x100;
      n := n + 1;
    }
  }

  /** Where the end mark of a name lies in one of its entries. */
  lemma EndSlotOfName(name: seq<nat>, ord: nat, sum: byte)
    requires IsName(name) && 1 <= ord <= EntryCount(name)
    ensures ord <= 20
    ensures var e := LongEntry(name, ord, sum);
            && EndSlot(e, 0) == (if ord * 13 > |name| then |name| - (ord - 1) * 13 else 13)
            && FillerOk(e)
  {
    hide EndSlot, LongEntry, Unit;
    var e, z := LongEntry(name, ord, sum), if ord * 13 > |name| then |name| - (ord - 1) * 13 else 13;
    forall s | 0 <= s < 13 ensures Unit(e, s) == NameUnit(name, (ord - 1) * 13 + s) {
      LongEntryUnit(name, ord, sum, s);
    }
    EndSlotIs(e, z);
  }

  lemma EndSlotIs(e: DirEntry, z: nat)
    requires z <= 13 && (z < 13 ==> Unit(e, z) == 0) && forall t :: 0 <= t < z ==> Unit(e, t) != 0
    ensures EndSlot(e, 0) == z
  {
  }

  /** An entry of a name is picked except the last one of a name longer than 253 units. */
  lemma PickedIffShort(name: seq<nat>, ord: nat, sum: byte)
    requires IsName(name) && 1 <= ord <= EntryCount(name)
    ensures ord <= 20
    ensures PickOk(LongEntry(name, ord, sum)) <==> (|name| <= 253 || ord < EntryCount(name))
  {
    hide EndSlot, LongEntry, Unit, FillerOk;
    EndSlotOfName(name, ord, sum);
    LongEntryOrder(name, ord, sum);
  }

  /** An entry of a name compares equal to it, in whatever case it is asked for, except the last one of a name of 255
      units. */
  lemma ComparedIffShort(buf: seq<nat>, name: seq<nat>, up: nat -> nat, ord: nat, sum: byte)
    requires IsName(name) && Buffers(buf, name, up) && 1 <= ord <= EntryCount(name)
    ensures ord <= 20
    ensures CmpOk(buf, up, LongEntry(name, ord, sum)) <==> (|name| <= 254 || ord < EntryCount(name))
  {
    hide EndSlot, LongEntry, Unit, FillerOk;
    EndSlotOfName(name, ord, sum);
    LongEntryOrder(name, ord, sum);
    var e, start := LongEntry(name, ord, sum), (ord - 1) * 13;
    assert CmpStart(e) == start;
    forall s | 0 <= s < 13 && start + s <= |name| ensures up(Unit(e, s)) == up(buf[start + s]) {
      LongEntryUnit(name, ord, sum, s);
    }
  }

  // ---------------------------------------------------------------- the bytes of an entry

  /** Where the standard puts the thirteen units. */
  const UNIT_OFFSETS: seq<nat> := [1, 3, 5, 7, 9, 14, 16, 18, 20, 22, 24, 28, 30]

  lemma UnitBytes(e: DirEntry, s: nat)
    requires s < 13
    ensures var o := UNIT_OFFSETS[s]; o + 1 < 32 && Unit(e, s) == e[o] as int + 0x100 * e[o + 1] as int
  {
  }

  /** The long entry with order ord in bytes: order and flag, attribute, type, checksum, cluster field, and the units
      from position 13 * (ord - 1) on. */
  lemma LongEntryBytes(name: seq<nat>, ord: nat, sum: byte)
    requires IsName(name) && 1 <= ord <= EntryCount(name)
    ensures ord <= 20
    ensures var e := LongEntry(name, ord, sum);
            && e[0] as int == (if ord * 13 >= |name| then 0x40 + ord else ord)
            && e[11] == 0x0F && e[12] == 0 && e[13] == sum && e[26] == 0 && e[27] == 0
            && forall s :: 0 <= s < 13 ==>
                 var o, p := UNIT_OFFSETS[s], (ord - 1) * 13 + s;
                 && o + 1 < 32
                 && e[o] as int + 0x100 * e[o + 1] as int
                    == if p < |name| then name[p] else if p == |name| then 0 else 0xFFFF
  {
    hide LongEntry, Unit;
    LongEntryHead(name, ord, sum);
    var e := LongEntry(name, ord, sum);
    forall s | 0 <= s < 13
      ensures var o, p := UNIT_OFFSETS[s], (ord - 1) * 13 + s;
              && o + 1 < 32
              && e[o] as int + 0x100 * e[o + 1] as int
                 == if p < |name| then name[p] else if p == |name| then 0 else 0xFFFF
    {
      UnitBytes(e, s);
      LongEntryUnit(name, ord, sum, s);
    }
  }

  lemma LongEntryHead(name: seq<nat>, ord: nat, sum: byte)
    requires IsName(name) && 1 <= ord <= EntryCount(name)
    ensures ord <= 20
    ensures var e := LongEntry(name, ord, sum);
            && e[0] as int == (if ord * 13 >= |name| then 0x40 + ord else ord)
            && e[11] == 0x0F && e[12] == 0 && e[13] == sum && e[26] == 0 && e[27] == 0
  {
  }

  /** The order byte: the last entry of a name carries 0x40. */
  lemma OrderByte(b: byte)
    ensures b as int == Order(b) + (if IsLast(b) then 0x40 else 0)
    ensures IsLast(b) <==> 0x40 <= b < 0x80 || 0xC0 <= b
  {
  }

  /** What pick_lfn accepts, in bytes: the cluster field is clear, the order is not 0, the units up to the end mark, if there
      is one, end below position 255, only 0xFFFF follows, and a last entry leaves room for an end mark. */
  lemma PickedMeans(e: DirEntry)
    ensures PickOk(e) <==>
              && e[26] == 0 && e[27] == 0
              && exists z ::
                   && 0 <= z <= 13 && EndsAt(e, z)
                   && var first := 13 * (e[0] as int % 0x40 + e[0] as int / 0x80 * 0x80 - 1);
                      && 0 <= first && first + Min(z, 12) < 255
                      && (e[0] as int / 0x40 % 2 == 1 ==> first + Min(z + 1, 13) < 255)
  {
    hide EndSlot, Unit, UnitAt, EndsAt, FillerOk;
    OrderByte(e[0]);
    var z := EndSlot(e, 0);
    EndsOnce(e);
  }

  /** The first end mark is in slot z, or nowhere when z is 13, and behind it stands only filler. */
  ghost predicate EndsAt(e: DirEntry, z: int) {
    && (forall t :: 0 <= t < z && t < 13 ==> UnitAt(e, t) != 0)
    && (forall t :: z == t < 13 && 0 <= t ==> UnitAt(e, t) == 0)
    && (forall t :: 0 <= t && z < t < 13 ==> UnitAt(e, t) == 0xFFFF)
  }

  ghost function UnitAt(e: DirEntry, t: nat): nat
    requires t < 13
  {
    e[UNIT_OFFSETS[t]] as int + 0x100 * e[UNIT_OFFSETS[t] + 1] as int
  }

  lemma SameUnit(e: DirEntry, t: nat)
    requires t < 13
    ensures UnitAt(e, t) == Unit(e, t)
  {
    UnitBytes(e, t);
  }

  lemma EndsOnce(e: DirEntry)
    ensures FillerOk(e) <==> EndsAt(e, EndSlot(e, 0))
    ensures forall z :: 0 <= z <= 13 && EndsAt(e, z) ==> z == EndSlot(e, 0)
  {
    hide EndSlot, Unit, UnitAt;
    var end := EndSlot(e, 0);
    forall t | 0 <= t < 13 ensures UnitAt(e, t) == Unit(e, t) {
      SameUnit(e, t);
    }
    assert end < 13 ==> UnitAt(e, end) == Unit(e, end);
    forall z | 0 <= z <= 13 && EndsAt(e, z) ensures z == end {
      assert z < 13 ==> UnitAt(e, z) == Unit(e, z);
    }
  }

  /** What cmp_lfn accepts, in bytes: the same but for the end, with units equal to the buffer after up. */
  lemma ComparedMeans(buf: seq<nat>, up: nat -> nat, e: DirEntry)
    requires |buf| == MAX_LFN + 1
    ensures CmpOk(buf, up, e) <==>
              && e[26] == 0 && e[27] == 0
              && exists z ::
                   && 0 <= z <= 13 && EndsAt(e, z)
                   && var first := 13 * (e[0] as int % 0x40 - 1);
                      && 0 <= first && first + Min(z, 12) < 255
                      && (forall t :: 0 <= t <= z && t < 13 ==> up(UnitAt(e, t)) == up(buf[first + t]))
                      && (e[0] as int / 0x40 % 2 == 1 && z == 13 ==> buf[first + 13] == 0)
  {
    hide EndSlot, Unit, UnitAt, EndsAt, FillerOk;
    OrderByte(e[0]);
    EndsOnce(e);
    forall t | 0 <= t < 13 ensures UnitAt(e, t) == Unit(e, t) {
      SameUnit(e, t);
    }
  }

  /** Each character turns the sum right by one bit, the lowest bit becoming the highest, and is added to it. */
  lemma SumRotates(e: DirEntry, n: nat)
    requires n < 11
    ensures Sum(e, n + 1) as int
            == (Sum(e, n) as int / 2 + (if Sum(e, n) as int % 2 == 1 then 0x80 else 0) + e[n] as int) % 0x100
    ensures Sum(e, 0) == 0 && SumSfn(e) == Sum(e, 11)
  {
    Rotated(Sum(e, n));
  }

  lemma Rotated(s: byte)
    ensures s as int / 2 + s as int * 0x80 % 0x100 == s as int / 2 + if s as int % 2 == 1 then 0x80 else 0
  {
    var h, b := s as int / 2, s as int % 2;
    assert s as int * 0x80 == h * 0x100 + b * 0x80;
  }

  /** The checksum of README.TXT, step by step: each one turns the sum right by one bit and adds the next character. */
  lemma SumExample()
    ensures var e: DirEntry := [0x52, 0x45, 0x41, 0x44, 0x4D, 0x45, 0x20, 0x20, 0x54, 0x58, 0x54] + seq(21, _ => 0);
            SumSfn(e) == 0x73
  {
    hide SumSfn, Sum;
    var e: DirEntry := [0x52, 0x45, 0x41, 0x44, 0x4D, 0x45, 0x20, 0x20, 0x54, 0x58, 0x54] + seq(21, _ => 0);
    SumRotates(e, 0);
    assert Sum(e, 1) == 0x52;
    SumRotates(e, 1);
    assert Sum(e, 2) == 0x6E;
    SumRotates(e, 2);
    assert Sum(e, 3) == 0x78;
    SumRotates(e, 3);
    assert Sum(e, 4) == 0x80;
    SumRotates(e, 4);
    assert Sum(e, 5) == 0x8D;
    SumRotates(e, 5);
    assert Sum(e, 6) == 0x0B;
    SumRotates(e, 6);
    assert Sum(e, 7) == 0xA5;
    SumRotates(e, 7);
    assert Sum(e, 8) == 0xF2;
    SumRotates(e, 8);
    assert Sum(e, 9) == 0xCD;
    SumRotates(e, 9);
    assert Sum(e, 10) == 0x3E;
    SumRotates(e, 10);
    assert Sum(e, 11) == 0x73;
  }
}
