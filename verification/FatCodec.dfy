/** The packed FAT: how an entry of 12, 16 or 32 bits lies in the bytes of the table. */
module FatCodec {
  import opened Bits

  datatype FatType = Fat12 | Fat16 | Fat32

  /** Bytes an n-entry table takes. */
  function TableBytes(fmt: FatType, n: nat): nat {
    match fmt
    case Fat12 => n * 3 / 2 + n % 2
    case Fat16 => n * 2
    case Fat32 => n * 4
  }

  lemma TableGrows(fmt: FatType, m: nat, n: nat)
    requires m <= n
    ensures TableBytes(fmt, m) <= TableBytes(fmt, n)
  {
    Halves(m);
    Halves(n);
  }

  lemma Halves(n: nat)
    ensures n * 3 / 2 + n % 2 == n + (n + 1) / 2
  {
    DivModUnique(n * 3, 2, n + n / 2, n % 2);
  }

  /** Offset of the first byte that holds part of entry c. */
  function Offset(fmt: FatType, c: nat): nat {
    match fmt
    case Fat12 => c + c / 2
    case Fat16 => c * 2
    case Fat32 => c * 4
  }

  predicate Holds(fmt: FatType, area: seq<byte>, c: nat) {
    TableBytes(fmt, c + 1) <= |area|
  }

  /** The value of a 12-bit entry in the two bytes that hold it. */
  function Unpack12(c: nat, b0: byte, b1: byte): nat {
    var wc := b0 as int + 0x100 * b1 as int;
    if c % 2 == 1 then wc / 0x10 else wc % 0x1000
  }

  /** The value of entry c: what get_fat reads. */
  function Entry(fmt: FatType, area: seq<byte>, c: nat): nat
    requires Holds(fmt, area, c)
  {
    var o := Offset(fmt, c);
    match fmt
    case Fat12 => Unpack12(c, area[o], area[o + 1])
    case Fat16 => Word(area, o)
    case Fat32 => DWord(area, o) % 0x1000_0000
  }

  /** The top four bits of a 32-bit entry, which the standard reserves. */
  function Reserved(area: seq<byte>, c: nat): nat
    requires Holds(Fat32, area, c)
  {
    DWord(area, c * 4) / 0x1000_0000
  }

  /** A value cut to the width of an entry. */
  function Cut(fmt: FatType, v: nat): nat {
    match fmt
    case Fat12 => v % 0x1000
    case Fat16 => v % 0x1_0000
    case Fat32 => v % 0x1000_0000
  }

  /** The two bytes put_fat stores for a 12-bit entry, given the bytes already there. */
  function First12(c: nat, old0: byte, v: nat): byte {
    if c % 2 == 1 then old0 % 0x10 + 0x10 * (v % 0x10) else v % 0x100
  }

  function Second12(c: nat, old1: byte, v: nat): byte {
    if c % 2 == 1 then v / 0x10 % 0x100 else old1 / 0x10 * 0x10 + v / 0x100 % 0x10
  }

  /** The 32-bit word put_fat stores: 28 new bits under the 4 bits already there. */
  function Merged32(old32: nat, v: nat): (r: nat)
    requires old32 < TWO32
    ensures r < TWO32
  {
    v % 0x1000_0000 + old32 / 0x1000_0000 * 0x1000_0000
  }

  /** Bytes stored one behind the other. */
  function Store2(area: seq<byte>, o: nat, b0: byte, b1: byte): (r: seq<byte>)
    requires o + 2 <= |area|
    ensures |r| == |area|
    ensures forall i :: 0 <= i < |r| ==> r[i] == if i == o then b0 else if i == o + 1 then b1 else area[i]
  {
    area[o := b0][o + 1 := b1]
  }

  function Store4(area: seq<byte>, o: nat, w: nat): (r: seq<byte>)
    requires o + 4 <= |area|
    ensures |r| == |area|
    ensures forall i :: 0 <= i < |r| ==> r[i] == if o <= i < o + 4 then ByteOf(w, i - o) else area[i]
  {
    Store2(Store2(area, o, ByteOf(w, 0), ByteOf(w, 1)), o + 2, ByteOf(w, 2), ByteOf(w, 3))
  }

  /** The table after put_fat(c, v). */
  function Put(fmt: FatType, area: seq<byte>, c: nat, v: nat): (r: seq<byte>)
    requires Holds(fmt, area, c)
    ensures |r| == |area|
  {
    var o := Offset(fmt, c);
    match fmt
    case Fat12 => Store2(area, o, First12(c, area[o], v), Second12(c, area[o + 1], v))
    case Fat16 => Store2(area, o, ByteOf(v, 0), ByteOf(v, 1))
    case Fat32 => Store4(area, o, Merged32(DWord(area, o), v))
  }

  /** Where the bits of an entry lie: two 12-bit entries share three bytes, of which the middle one holds the top of the
      lower entry in its low half and the bottom of the upper entry in its high half; wider entries are little-endian. */
  lemma EntryBytes(fmt: FatType, area: seq<byte>, c: nat)
    requires Holds(fmt, area, c)
    ensures match fmt
            case Fat12 =>
              var o := c / 2 * 3;
              if c % 2 == 0 then
                o + 2 <= |area| && Entry(fmt, area, c) == area[o] as int + 0x100 * (area[o + 1] % 0x10) as int
              else
                o + 3 <= |area| && Entry(fmt, area, c) == (area[o + 1] / 0x10) as int + 0x10 * area[o + 2] as int
            case Fat16 =>
              2 * c + 2 <= |area| && Entry(fmt, area, c) == area[2 * c] as int + 0x100 * area[2 * c + 1] as int
            case Fat32 =>
              4 * c + 4 <= |area| &&
              Entry(fmt, area, c) == area[4 * c] as int + 0x100 * area[4 * c + 1] as int + 0x1_0000 * area[4 * c + 2] as int
                                     + 0x100_0000 * (area[4 * c + 3] % 0x10) as int
  {
    match fmt
    case Fat12 =>
      Offset12(c);
      var o := c + c / 2;
      TwoBytes(area[o], area[o + 1]);
    case Fat16 =>
    case Fat32 => TopNibble(area[4 * c], area[4 * c + 1], area[4 * c + 2], area[4 * c + 3]);
  }

  lemma Offset12(c: nat)
    ensures c + c / 2 == c / 2 * 3 + c % 2 && c + c / 2 + 2 <= TableBytes(Fat12, c + 1)
  {
    Fits12(c);
  }

  lemma TwoBytes(b0: byte, b1: byte)
    ensures (b0 as int + 0x100 * b1 as int) / 0x10 == (b0 / 0x10) as int + 0x10 * b1 as int
    ensures (b0 as int + 0x100 * b1 as int) % 0x1000 == b0 as int + 0x100 * (b1 % 0x10) as int
  {
    DivModUnique(b0 as int + 0x100 * b1 as int, 0x10, (b0 / 0x10) as int + 0x10 * b1 as int, b0 % 0x10);
    DivModUnique(b0 as int + 0x100 * b1 as int, 0x1000, b1 / 0x10, b0 as int + 0x100 * (b1 % 0x10) as int);
  }

  lemma TopNibble(b0: byte, b1: byte, b2: byte, b3: byte)
    ensures (b0 as int + 0x100 * b1 as int + 0x1_0000 * b2 as int + 0x100_0000 * b3 as int) % 0x1000_0000
            == b0 as int + 0x100 * b1 as int + 0x1_0000 * b2 as int + 0x100_0000 * (b3 % 0x10) as int
  {
    var low := b0 as int + 0x100 * b1 as int + 0x1_0000 * b2 as int;
    DivModUnique(low + 0x100_0000 * b3 as int, 0x1000_0000, b3 / 0x10, low + 0x100_0000 * (b3 % 0x10) as int);
  }

  /** Two 12-bit entries are the halves of one 24-bit number. */
  lemma EntryPair(area: seq<byte>, k: nat)
    requires 3 * k + 3 <= |area|
    ensures var t := area[3 * k] as int + 0x100 * area[3 * k + 1] as int + 0x1_0000 * area[3 * k + 2] as int;
            && Holds(Fat12, area, 2 * k) && Entry(Fat12, area, 2 * k) == t % 0x1000
            && Holds(Fat12, area, 2 * k + 1) && Entry(Fat12, area, 2 * k + 1) == t / 0x1000
  {
    hide Entry;
    PairHeld(k);
    EntryBytes(Fat12, area, 2 * k);
    EntryBytes(Fat12, area, 2 * k + 1);
    var b0, b1, b2 := area[3 * k], area[3 * k + 1], area[3 * k + 2];
    DivModUnique(b0 as int + 0x100 * b1 as int + 0x1_0000 * b2 as int, 0x1000, (b1 / 0x10) as int + 0x10 * b2 as int,
                 b0 as int + 0x100 * (b1 % 0x10) as int);
  }

  lemma PairHeld(k: nat)
    ensures TableBytes(Fat12, 2 * k + 1) <= 3 * k + 3 && TableBytes(Fat12, 2 * k + 2) <= 3 * k + 3
    ensures 2 * k / 2 * 3 == 3 * k && (2 * k + 1) / 2 * 3 == 3 * k && 2 * k % 2 == 0 && (2 * k + 1) % 2 == 1
  {
    Halves(2 * k + 1);
    Halves(2 * k + 2);
  }

  /** The bytes of the table after put_fat(c, v). */
  lemma StoredBytes(fmt: FatType, area: seq<byte>, c: nat, v: nat)
    requires Holds(fmt, area, c)
    ensures var area' := Put(fmt, area, c, v);
            match fmt
            case Fat12 =>
              var o := c / 2 * 3 + c % 2;
              && o + 2 <= |area| && (forall i :: 0 <= i < |area| && i != o && i != o + 1 ==> area'[i] == area[i])
              && (if c % 2 == 0 then
                    area'[o] as int == v % 0x100 && area'[o + 1] as int == area[o + 1] / 0x10 * 0x10 + v / 0x100 % 0x10
                  else
                    area'[o] as int == v % 0x10 * 0x10 + area[o] % 0x10 && area'[o + 1] as int == v / 0x10 % 0x100)
            case Fat16 =>
              && 2 * c + 2 <= |area|
              && (forall i :: 0 <= i < |area| && i != 2 * c && i != 2 * c + 1 ==> area'[i] == area[i])
              && area'[2 * c] as int == v % 0x100 && area'[2 * c + 1] as int == v / 0x100 % 0x100
            case Fat32 =>
              && 4 * c + 4 <= |area|
              && (forall i :: 0 <= i < |area| && !(4 * c <= i < 4 * c + 4) ==> area'[i] == area[i])
              && area'[4 * c] as int == v % 0x100 && area'[4 * c + 1] as int == v / 0x100 % 0x100
              && area'[4 * c + 2] as int == v / 0x1_0000 % 0x100
              && area'[4 * c + 3] as int == area[4 * c + 3] / 0x10 * 0x10 + v / 0x100_0000 % 0x10
  {
    match fmt
    case Fat12 => Offset12(c);
    case Fat16 =>
    case Fat32 => MergedBytes(area[4 * c], area[4 * c + 1], area[4 * c + 2], area[4 * c + 3], v);
  }

  lemma MergedBytes(b0: byte, b1: byte, b2: byte, b3: byte, v: nat)
    ensures var old32 := b0 as int + 0x100 * b1 as int + 0x1_0000 * b2 as int + 0x100_0000 * b3 as int;
            && old32 < TWO32
            && var w := Merged32(old32, v);
            && ByteOf(w, 0) as int == v % 0x100 && ByteOf(w, 1) as int == v / 0x100 % 0x100
            && ByteOf(w, 2) as int == v / 0x1_0000 % 0x100
            && ByteOf(w, 3) as int == b3 / 0x10 * 0x10 + v / 0x100_0000 % 0x10
  {
    hide ByteOf;
    var low := b0 as int + 0x100 * b1 as int + 0x1_0000 * b2 as int;
    DivModUnique(low + 0x100_0000 * b3 as int, 0x1000_0000, b3 / 0x10, low + 0x100_0000 * (b3 % 0x10) as int);
    SplitV(v);
    ByteAtEach(v % 0x100, v / 0x100 % 0x100, v / 0x1_0000 % 0x100, b3 / 0x10 * 0x10 + v / 0x100_0000 % 0x10);
  }

  lemma SplitV(v: nat)
    ensures v % 0x1000_0000
            == v % 0x100 + 0x100 * (v / 0x100 % 0x100) + 0x1_0000 * (v / 0x1_0000 % 0x100) + 0x100_0000 * (v / 0x100_0000 % 0x10)
  {
    var q1, q2, q3 := v / 0x1_0000, v / 0x100_0000, v / 0x1000_0000;
    DivModUnique(v / 0x100, 0x100, q1, v / 0x100 % 0x100);
    DivModUnique(q1, 0x100, q2, q1 % 0x100);
    DivModUnique(q2, 0x10, q3, q2 % 0x10);
  }

  lemma ByteAtEach(x0: byte, x1: byte, x2: byte, x3: byte)
    ensures var w := x0 as int + 0x100 * x1 as int + 0x1_0000 * x2 as int + 0x100_0000 * x3 as int;
            ByteOf(w, 0) == x0 && ByteOf(w, 1) == x1 && ByteOf(w, 2) == x2 && ByteOf(w, 3) == x3
  {
    var w := x0 as int + 0x100 * x1 as int + 0x1_0000 * x2 as int + 0x100_0000 * x3 as int;
    var t2 := x2 as int + 0x100 * x3 as int;
    var t1 := x1 as int + 0x100 * t2;
    DivModUnique(w, 0x100, t1, x0);
    DivModUnique(t1, 0x100, t2, x1);
    DivModUnique(t2, 0x100, x3, x2);
    DivModUnique(w, 0x1_0000, t2, x0 as int + 0x100 * x1 as int);
    DivModUnique(w, 0x100_0000, x3, x0 as int + 0x100 * x1 as int + 0x1_0000 * x2 as int);
    DivModUnique(x3, 0x100, 0, x3);
  }

  /** The codec's law: a stored entry reads back cut to its width; every other entry, and every reserved nibble, stays. */
  lemma PutGet(fmt: FatType, area: seq<byte>, c: nat, v: nat, d: nat)
    requires Holds(fmt, area, c) && Holds(fmt, area, d)
    ensures Entry(fmt, Put(fmt, area, c, v), d) == if d == c then Cut(fmt, v) else Entry(fmt, area, d)
    ensures fmt == Fat32 ==> Reserved(Put(fmt, area, c, v), d) == Reserved(area, d)
  {
    match fmt
    case Fat12 => PutGet12(area, c, v, d);
    case Fat16 => PutGet16(area, c, v, d);
    case Fat32 => PutGet32(area, c, v, d);
  }

  lemma PutGet16(area: seq<byte>, c: nat, v: nat, d: nat)
    requires Holds(Fat16, area, c) && Holds(Fat16, area, d)
    ensures Entry(Fat16, Put(Fat16, area, c, v), d) == if d == c then Cut(Fat16, v) else Entry(Fat16, area, d)
  {
    if d != c {
      assert d * 2 + 1 < c * 2 || c * 2 + 1 < d * 2;
    }
  }

  lemma PutGet12(area: seq<byte>, c: nat, v: nat, d: nat)
    requires Holds(Fat12, area, c) && Holds(Fat12, area, d)
    ensures Entry(Fat12, Put(Fat12, area, c, v), d) == if d == c then Cut(Fat12, v) else Entry(Fat12, area, d)
  {
    hide Unpack12, First12, Second12, Offset, TableBytes;
    Fits12(c);
    Fits12(d);
    Offsets12(c, d);
    var o, p, area' := Offset(Fat12, c), Offset(Fat12, d), Put(Fat12, area, c, v);
    if d == c {
      Same12(c, area[o], area[o + 1], v);
    } else if d == c + 1 && c % 2 == 0 {
      assert area'[p + 1] == area[p + 1];
      UpperNeighbour(c, area[p], area[p + 1], v);
    } else if c == d + 1 && d % 2 == 0 {
      assert area'[p] == area[p];
      LowerNeighbour(d, area[p], area[o], v);
    } else {
      assert area'[p] == area[p] && area'[p + 1] == area[p + 1];
    }
  }

  /** Two entries share a byte only where the lower number is even. */
  lemma Offsets12(c: nat, d: nat)
    ensures Offset(Fat12, d) == Offset(Fat12, c) <==> d == c
    ensures Offset(Fat12, d) == Offset(Fat12, c) + 1 <==> d == c + 1 && c % 2 == 0
    ensures Offset(Fat12, c) == Offset(Fat12, d) + 1 <==> c == d + 1 && d % 2 == 0
  {
  }

  lemma Fits12(c: nat)
    ensures Offset(Fat12, c) + 2 <= TableBytes(Fat12, c + 1)
  {
  }

  lemma Same12(c: nat, b0: byte, b1: byte, v: nat)
    ensures Unpack12(c, First12(c, b0, v), Second12(c, b1, v)) == v % 0x1000
  {
    if c % 2 == 1 {
      var lo, q := v % 0x10, v / 0x10;
      var t := lo + 0x10 * (q % 0x100);
      DivModUnique(v, 0x1000, q / 0x100, t);
      DivModUnique(b0 % 0x10 + 0x10 * lo + 0x100 * (q % 0x100), 0x10, t, b0 % 0x10);
    } else {
      var lo, q := v % 0x100, v / 0x100;
      var t := lo + 0x100 * (q % 0x10);
      DivModUnique(v, 0x1000, q / 0x10, t);
      DivModUnique(lo + 0x100 * (b1 / 0x10 * 0x10 + q % 0x10), 0x1000, b1 / 0x10, t);
    }
  }

  /** The entry above takes the high nibble of the shared byte. */
  lemma UpperNeighbour(c: nat, b0: byte, b1: byte, v: nat)
    requires c % 2 == 0
    ensures Unpack12(c + 1, Second12(c, b0, v), b1) == Unpack12(c + 1, b0, b1)
  {
    var q, x := b0 / 0x10 + 0x10 * b1 as int, v / 0x100 % 0x10;
    var lo := b0 % 0x10;
    assert b0 == b0 / 0x10 * 0x10 + lo;
    DivModUnique(b0 as int + 0x100 * b1 as int, 0x10, q, lo);
    DivModUnique(b0 / 0x10 * 0x10 + x + 0x100 * b1 as int, 0x10, q, x);
    assert Second12(c, b0, v) as int == b0 / 0x10 * 0x10 + x;
  }

  /** The entry below takes its low nibble. */
  lemma LowerNeighbour(d: nat, b0: byte, b1: byte, v: nat)
    requires d % 2 == 0
    ensures Unpack12(d, b0, First12(d + 1, b1, v)) == Unpack12(d, b0, b1)
  {
    var t, x := b0 as int + 0x100 * (b1 % 0x10), v % 0x10;
    DivModUnique(b0 as int + 0x100 * b1 as int, 0x1000, b1 / 0x10, t);
    DivModUnique(b0 as int + 0x100 * (b1 % 0x10 + 0x10 * x), 0x1000, x, t);
  }

  lemma PutGet32(area: seq<byte>, c: nat, v: nat, d: nat)
    requires Holds(Fat32, area, c) && Holds(Fat32, area, d)
    ensures Entry(Fat32, Put(Fat32, area, c, v), d) == if d == c then Cut(Fat32, v) else Entry(Fat32, area, d)
    ensures Reserved(Put(Fat32, area, c, v), d) == Reserved(area, d)
  {
    if d == c {
      var w := Merged32(DWord(area, c * 4), v);
      BytesOfWord(w);
      assert DWord(Store4(area, c * 4, w), c * 4) == w;
      MergedParts(DWord(area, c * 4), v);
    } else {
      assert d * 4 + 3 < c * 4 || c * 4 + 3 < d * 4;
    }
  }

  lemma MergedParts(old32: nat, v: nat)
    requires old32 < TWO32
    ensures Merged32(old32, v) % 0x1000_0000 == v % 0x1000_0000
    ensures Merged32(old32, v) / 0x1000_0000 == old32 / 0x1000_0000
  {
  }

  lemma BytesOfWord(w: nat)
    requires w < TWO32
    ensures ByteOf(w, 0) + 0x100 * ByteOf(w, 1) + 0x1_0000 * ByteOf(w, 2) + 0x100_0000 * ByteOf(w, 3) == w
  {
    assert w / 0x100_0000 < 0x100;
    assert w / 0x1_0000 == w / 0x1_0000 % 0x100 + 0x100 * (w / 0x100_0000);
    assert w / 0x100 == w / 0x100 % 0x100 + 0x100 * (w / 0x1_0000);
  }
}
