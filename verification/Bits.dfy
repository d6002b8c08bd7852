/** Bytes, little-endian words and the bit masks the FAT code uses. */
module Bits {

  type byte = x: int | 0 <= x < 256

  /** A 512-byte sector; the build fixes the sector size. */
  type Sector = s: seq<byte> | |s| == 512 witness seq(512, _ => 0)

  const TWO32: nat := 0x1_0000_0000

  /** Unsigned 32-bit subtraction, which wraps. */
  function Sub32(a: nat, b: nat): (r: nat)
    requires a < TWO32 && b < TWO32
    ensures r < TWO32
  {
    if a >= b then a - b else TWO32 - (b - a)
  }

  function Min(a: int, b: int): int {
    if a < b then a else b
  }

  function Max(a: int, b: int): int {
    if a > b then a else b
  }

  function Word(s: seq<byte>, i: nat): (r: nat)
    requires i + 2 <= |s|
    ensures r < 0x1_0000
  {
    s[i] as int + 0x100 * s[i + 1] as int
  }

  function DWord(s: seq<byte>, i: nat): (r: nat)
    requires i + 4 <= |s|
    ensures r < TWO32
  {
    s[i] as int + 0x100 * s[i + 1] as int + 0x1_0000 * s[i + 2] as int + 0x100_0000 * s[i + 3] as int
  }

  /** Words begin with their least significant byte. */
  lemma WordBytes(s: seq<byte>, i: nat)
    requires i + 4 <= |s|
    ensures Word(s, i) == s[i] as int + 256 * s[i + 1] as int
    ensures DWord(s, i) == s[i] as int + 256 * (s[i + 1] as int + 256 * (s[i + 2] as int + 256 * s[i + 3] as int))
  {
  }

  /** Byte k of a word, least significant first. */
  function ByteOf(v: nat, k: nat): byte
    requires k < 4
  {
    if k == 0 then v % 0x100
    else if k == 1 then v / 0x100 % 0x100
    else if k == 2 then v / 0x1_0000 % 0x100
    else v / 0x100_0000 % 0x100
  }

  /** Sectors one behind the other. */
  function Flat(ss: seq<Sector>): (r: seq<byte>)
    ensures |r| == 512 * |ss|
  {
    seq(512 * |ss|, i requires 0 <= i < 512 * |ss| => ss[i / 512][i % 512])
  }

  /** Sector j of a run of whole sectors. */
  function Slice(data: seq<byte>, j: nat): Sector
    requires 512 * j + 512 <= |data|
  {
    data[512 * j..512 * j + 512]
  }

  /** Whole sectors of data. */
  function Chunks(data: seq<byte>): (r: seq<Sector>)
    ensures |r| == |data| / 512
  {
    seq(|data| / 512, j requires 0 <= j < |data| / 512 => Slice(data, j))
  }

  /** ss with whole sectors of data laid over it from sector at on. */
  function Overlay(ss: seq<Sector>, at: nat, data: seq<byte>): (r: seq<Sector>)
    requires at + |data| / 512 <= |ss|
    ensures |r| == |ss|
    ensures forall s :: 0 <= s < |ss| ==> r[s] == if at <= s < at + |data| / 512 then Slice(data, s - at) else ss[s]
  {
    ss[..at] + Chunks(data) + ss[at + |data| / 512..]
  }

  /** s with data laid over it from position at on. */
  function Patch(s: seq<byte>, at: nat, data: seq<byte>): (r: seq<byte>)
    requires at + |data| <= |s|
    ensures |r| == |s|
    ensures forall i :: 0 <= i < |s| ==> r[i] == if at <= i < at + |data| then data[i - at] else s[i]
  {
    s[..at] + data + s[at + |data|..]
  }

  /** k * n by repeated addition: a product of two variables that is unfolded only one step at a time. */
  function Times(k: nat, n: nat): nat {
    if n == 0 then 0 else k + Times(k, n - 1)
  }

  lemma {:induction false} TimesIsProduct(k: nat, n: nat)
    ensures Times(k, n) == k * n
  {
    if n != 0 {
      TimesIsProduct(k, n - 1);
      assert k * n == k * (n - 1) + k;
    }
  }

  /** x < y leaves room for one more k. */
  lemma {:induction false} TimesStep(k: nat, x: nat, y: nat)
    requires x < y
    ensures Times(k, x) + k <= Times(k, y)
    decreases y - x
  {
    if x + 1 < y {
      TimesStep(k, x + 1, y);
    }
  }

  /** Bitwise AND of two non-negative integers. */
  function And(a: nat, b: nat): nat {
    if a == 0 || b == 0 then 0 else (a % 2) * (b % 2) + 2 * And(a / 2, b / 2)
  }

  predicate PowerOfTwo(k: nat) {
    k == 1 || (k > 1 && k % 2 == 0 && PowerOfTwo(k / 2))
  }

  /** Masking with a power of two minus one is the remainder. */
  lemma {:induction false} MaskIsRemainder(x: nat, k: nat)
    requires PowerOfTwo(k)
    ensures And(x, k - 1) == x % k
  {
    if k == 1 {
    } else if x == 0 {
    } else {
      MaskIsRemainder(x / 2, k / 2);
      assert (k - 1) % 2 == 1 && (k - 1) / 2 == k / 2 - 1;
      HalvedRemainder(x, k / 2);
    }
  }

  lemma HalvedRemainder(x: nat, h: nat)
    requires h > 0
    ensures x % (2 * h) == x % 2 + 2 * ((x / 2) % h)
  {
    var q, r := (x / 2) / h, (x / 2) % h;
    assert x == (2 * h) * q + (2 * r + x % 2) by {
      assert x / 2 == h * q + r;
      assert x == 2 * (h * q + r) + x % 2;
      assert 2 * (h * q) == (2 * h) * q;
    }
    DivModUnique(x, 2 * h, q, 2 * r + x % 2);
  }

  /** Quotient and remainder are unique. */
  lemma DivModUnique(a: int, d: int, q: int, r: int)
    requires d > 0 && 0 <= r < d && a == d * q + r
    ensures a / d == q && a % d == r
  {
    var e := a / d;
    assert d * (q + 1) == d * q + d && d * (e + 1) == d * e + d;
    if q < e {
      MulMonotone(d, q + 1, e);
    } else if e < q {
      MulMonotone(d, e + 1, q);
    }
  }

  lemma MulMonotone(d: int, x: int, y: int)
    requires d >= 0 && x <= y
    ensures d * x <= d * y
  {
  }
}
