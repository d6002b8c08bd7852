/** The initfs reader: files and directories found in the packed image. */
module Initfs {

  import opened Bits
  import opened PosixPath
  import opened MkInitfs

  /** C's int is 32 bits wide, and so is a pointer: the image is assumed to be shorter than half the address space. */
  const TWO31: int := 0x8000_0000

  datatype Errno = NotSet | Enoent | Einval | Enametoolong | Ebadf | Emfile | Eperm | Eisdir

  // ---------------------------------------------------------------- the image as C sees it

  /** The string at off, up to its end mark. */
  function CString(s: seq<byte>, off: nat): (r: seq<byte>)
    requires off <= |s|
    ensures off + |r| <= |s| && r == s[off..off + |r|] && 0 !in r
    decreases |s| - off
  {
    if off == |s| || s[off] == 0 then [] else
      var r := CString(s, off + 1);
      assert s[off..off + 1 + |r|] == [s[off]] + s[off + 1..off + 1 + |r|];
      [s[off]] + r
  }

  /** Record i holds entry t[i]: where its name string is, where its data is, its size. */
  ghost predicate RowAt(s: seq<byte>, t: seq<Entry>, base: nat, i: nat)
    requires i < |t|
  {
    var e := t[i];
    RECORD * i + RECORD <= |s| &&
    var name, data, size := DWord(s, RECORD * i), DWord(s, RECORD * i + 4), DWord(s, RECORD * i + 8);
    name < |s| && CString(s, name) == e.name && data == base + e.offset && size == e.size &&
    (size != DIRMARK ==> data + size <= |s|)
  }

  /** The image s holds the table t, with the file data from base on. */
  ghost predicate Holds(s: seq<byte>, t: seq<Entry>, base: nat) {
    |s| < TWO31 && RECORD * (|t| + 1) <= |s| && base > 0 && DWord(s, RECORD * |t| + 4) == 0 &&
    forall i :: 0 <= i < |t| ==> RowAt(s, t, base, i)
  }

  lemma SliceOfSlice(s: seq<byte>, a: nat, b: nat, c: nat, d: nat)
    requires a <= b <= |s| && c <= d <= b - a
    ensures s[a..b][c..d] == s[a + c..a + d]
  {
    var l, r := s[a..b][c..d], s[a + c..a + d];
    assert |l| == |r| && forall i :: 0 <= i < |l| ==> l[i] == r[i];
  }

  predicate InTable(s: seq<byte>, i: nat) {
    RECORD * i + RECORD <= |s|
  }

  /** r[i].data_offs */
  function DataAt(s: seq<byte>, i: nat): nat
    requires InTable(s, i)
  {
    DWord(s, RECORD * i + 4)
  }

  /** r[i].size */
  function SizeAt(s: seq<byte>, i: nat): nat
    requires InTable(s, i)
  {
    DWord(s, RECORD * i + 8)
  }

  /** The string at r[i].name_offs; an offset past the image is nobody's. */
  function NameAt(s: seq<byte>, i: nat): Text
    requires InTable(s, i)
  {
    if DWord(s, RECORD * i) <= |s| then CString(s, DWord(s, RECORD * i)) else []
  }

  lemma Reads(s: seq<byte>, t: seq<Entry>, base: nat, i: nat)
    requires Holds(s, t, base) && i <= |t|
    ensures InTable(s, i) && (DataAt(s, i) == 0 <==> i == |t|)
    ensures i < |t| ==> NameAt(s, i) == t[i].name && SizeAt(s, i) == t[i].size && DataAt(s, i) == base + t[i].offset
    ensures i < |t| && t[i].size != DIRMARK ==> base + t[i].offset + t[i].size <= |s| < TWO31
  {
    if i < |t| {
      assert RowAt(s, t, base, i);
    }
  }

  // ---------------------------------------------------------------- files

  /** The first entry of a name from position i on, or the end of the table. */
  function Find(t: seq<Entry>, n: Text, i: nat): (r: nat)
    requires i <= |t|
    ensures i <= r <= |t| && (forall k :: i <= k < r ==> t[k].name != n) && (r < |t| ==> t[r].name == n)
    decreases |t| - i
  {
    if i == |t| || t[i].name == n then i else Find(t, n, i + 1)
  }

  class OpenFile {
    var data: nat
    var pos: int
    var size: int

    constructor ()
    {
      data, pos, size := 0, 0, 0;
    }

    /** The position lies in the file and the file in the image. */
    ghost predicate Inside(s: seq<byte>)
      reads this
    {
      0 <= pos <= size < TWO31 && data + size <= |s|
    }

    method Open(s: seq<byte>, pathname: Text, ghost t: seq<Entry>, ghost base: nat) returns (ret: int, errno: Errno)
      requires Holds(s, t, base)
      modifies this
      ensures var i := Find(t, pathname, 0);
              if i < |t| && t[i].size != DIRMARK then
                ret == 0 && errno == NotSet && data == base + t[i].offset && pos == 0 && size == t[i].size && Inside(s)
              else ret == -1 && errno == (if i < |t| then NotSet else Enoent) && unchanged(this)
    {
      hide Holds, NameAt, DataAt, SizeAt;
      var i := 0;
      while true
        invariant unchanged(this)
        invariant 0 <= i <= |t| && Find(t, pathname, 0) == Find(t, pathname, i)
        decreases |t| - i
      {
        Reads(s, t, base, i);
        if DataAt(s, i) == 0 {
          break;
        }
        if NameAt(s, i) == pathname {
          if SizeAt(s, i) == DIRMARK {
            return -1, NotSet;
          }
          data, pos, size := DataAt(s, i), 0, SizeAt(s, i);
          return 0, NotSet;
        }
        i := i + 1;
      }
      return -1, Enoent;
    }

    /** count is below 2^31, as its cast to int demands. */
    method Read(s: seq<byte>, count: nat) returns (buf: seq<byte>, n: int)
      requires Inside(s) && count < TWO31
      modifies this`pos
      ensures Inside(s) && n == Min(count, size - old(pos)) && pos == old(pos) + n
      ensures buf == s[data..data + size][old(pos)..pos]
    {
      n := size - pos;
      if n > count {
        n := count;
      }
      buf := s[data + pos..data + pos + n];
      SliceOfSlice(s, data, data + size, pos, pos + n);
      pos := pos + n;
    }

    /** The new position, or an error for one that is not before the end. offset + base wraps as 32-bit ints do. */
    method Lseek(s: seq<byte>, offset: int, whence: Whence) returns (ret: int, errno: Errno)
      requires Inside(s) && -TWO31 <= offset < TWO31
      modifies this`pos
      ensures Inside(s)
      ensures var to := match whence
                        case Set => offset
                        case Cur => old(pos) + offset
                        case End => size + offset
                        case Unknown => -1;
              if 0 <= to < size then ret == pos == to && errno == NotSet
              else ret == -1 && errno == Einval && pos == old(pos)
    {
      var base;
      match whence {
        case Set => base := 0;
        case Cur => base := pos;
        case End => base := size;
        case Unknown => return -1, Einval;
      }
      var to := Wrap(offset + base);
      if to >= 0 && to < size {
        pos := to;
        return to, NotSet;
      }
      return -1, Einval;
    }
  }

  datatype Whence = Set | Cur | End | Unknown

  /** Where an offset is counted from: the start of the file, the position, or the end. */
  function WhenceBase(w: Whence, pos: int, size: int): (r: int)
    ensures match w
            case Set => r == 0
            case Cur => r == pos
            case End => r == size
            case Unknown => true
  {
    if w.Cur? then pos else if w.End? then size else 0
  }

  /** A sum of two ints in 32 bits. */
  function Wrap(x: int): int {
    if x >= TWO31 then x - TWO32 else x
  }

  // ---------------------------------------------------------------- directories

  /** The first directory from position i on whose name begins with n, or the end of the table. */
  function FindDir(t: seq<Entry>, n: Text, i: nat): (r: nat)
    requires i <= |t|
    ensures i <= r <= |t| && (r < |t| ==> n <= t[r].name && t[r].size == DIRMARK)
    ensures forall k :: i <= k < r ==> !(n <= t[k].name && t[k].size == DIRMARK)
    decreases |t| - i
  {
    if i == |t| || (n <= t[i].name && t[i].size == DIRMARK) then i else FindDir(t, n, i + 1)
  }

  /** name is parent's name, a separator and one more component. */
  predicate IsChild(parent: Text, name: Text) {
    parent + SEP <= name && Plain(name[|parent| + 1..])
  }

  /** Where a scan of the table for children stops: at a child, at a name that does not begin like the parent's, or at
      the end. */
  function Scan(t: seq<Entry>, parent: Text, i: nat): (r: nat)
    requires i <= |t|
    ensures i <= r <= |t|
    decreases |t| - i
  {
    if i == |t| || !(parent <= t[i].name) || IsChild(parent, t[i].name) then i else Scan(t, parent, i + 1)
  }

  /** What repeated readdir calls list from position i on. */
  function Listing(t: seq<Entry>, parent: Text, i: nat): seq<Text>
    requires i <= |t|
    decreases |t| - i
  {
    var k := Scan(t, parent, i);
    if k < |t| && IsChild(parent, t[k].name) then [t[k].name[|parent| + 1..]] + Listing(t, parent, k + 1) else []
  }

  lemma ListingFrom(t: seq<Entry>, parent: Text, i: nat)
    requires i <= |t|
    ensures var k := Scan(t, parent, i); k < |t| && IsChild(parent, t[k].name) ==> parent <= t[k].name
    ensures var k := Scan(t, parent, i);
            Listing(t, parent, i) ==
            if k < |t| && IsChild(parent, t[k].name) then [t[k].name[|parent| + 1..]] + Listing(t, parent, k + 1) else []
  {
  }

  /** readdir's test of what follows the parent's name. */
  lemma ChildTest(parent: Text, name: Text)
    requires parent <= name
    ensures var sub := name[|parent|..];
            (sub != [] && sub[0] == SLASH && SLASH !in sub[1..] <==> IsChild(parent, name)) &&
            (sub != [] ==> sub[1..] == name[|parent| + 1..]) && (IsChild(parent, name) ==> |name| > |parent|)
  {
    var sub := name[|parent|..];
    if sub != [] {
      assert sub[1..] == name[|parent| + 1..];
      if sub[0] == SLASH {
        assert parent + SEP <= name;
      }
    }
  }

  class Dir {
    var parent: nat
    var cur: nat
    var dName: Text
    var dIno: nat

    constructor ()
    {
      parent, cur, dName, dIno := 0, 0, [], 0;
    }

    method Opendir(s: seq<byte>, pathname: Text, ghost t: seq<Entry>, ghost base: nat) returns (ret: int, errno: Errno)
      requires Holds(s, t, base)
      modifies this
      ensures var i := FindDir(t, Rstrip(pathname), 0);
              if i < |t| then ret == 0 && errno == NotSet && parent == i && cur == i + 1
              else ret == -1 && errno == Enoent && unchanged(this)
    {
      hide Holds, NameAt, DataAt, SizeAt;
      var length := |pathname|;
      assert pathname[..length] == pathname;
      while length > 0 && pathname[length - 1] == SLASH
        invariant 0 <= length <= |pathname| && Rstrip(pathname) == Rstrip(pathname[..length])
      {
        assert pathname[..length][..length - 1] == pathname[..length - 1];
        length := length - 1;
      }
      var n := pathname[..length];
      var i := 0;
      while true
        invariant unchanged(this)
        invariant 0 <= i <= |t| && FindDir(t, n, 0) == FindDir(t, n, i)
        decreases |t| - i
      {
        Reads(s, t, base, i);
        if DataAt(s, i) == 0 {
          break;
        }
        if n <= NameAt(s, i) && SizeAt(s, i) == DIRMARK {
          parent, cur := i, i + 1;
          return 0, NotSet;
        }
        i := i + 1;
      }
      return -1, Enoent;
    }

    /** 0 and the next child, 1 at the end, or -1 for a child whose name does not fit in a directory entry. */
    method Readdir(s: seq<byte>, nameMax: nat, ghost t: seq<Entry>, ghost base: nat) returns (ret: int, errno: Errno)
      requires Holds(s, t, base) && parent < |t| && cur <= |t|
      modifies this
      ensures parent == old(parent) && cur <= |t|
      ensures var p := t[parent].name; var left := Listing(t, p, old(cur));
              if left == [] then ret == 1 && errno == NotSet && Listing(t, p, cur) == []
              else if |left[0]| >= nameMax then ret == -1 && errno == Enametoolong && Listing(t, p, cur) == left
              else ret == 0 && errno == NotSet && dName == left[0] && Listing(t, p, cur) == left[1..]
    {
      hide Holds, NameAt, DataAt, SizeAt, IsChild, Listing, CString, InTable;
      Reads(s, t, base, parent);
      var parentName := NameAt(s, parent);
      var l := |parentName|;
      while true
        invariant old(cur) <= cur <= |t| && parent == old(parent)
        invariant Scan(t, parentName, old(cur)) == Scan(t, parentName, cur)
        decreases |t| - cur
      {
        Reads(s, t, base, cur);
        if DataAt(s, cur) == 0 {
          break;
        }
        var currentName := NameAt(s, cur);
        if !(parentName <= currentName) {
          break;
        }
        var subpath := currentName[l..];
        ChildTest(parentName, currentName);
        if subpath != [] && subpath[0] == SLASH {
          subpath := subpath[1..];
          if SLASH !in subpath {
            ListingFrom(t, parentName, old(cur));
            ListingFrom(t, parentName, cur);
            assert Listing(t, parentName, old(cur)) == Listing(t, parentName, cur) == [subpath] + Listing(t, parentName, cur + 1);
            if |subpath| >= nameMax {
              return -1, Enametoolong;
            }
            dName := subpath;
            dIno := cur;
            cur := cur + 1;
            return 0, NotSet;
          }
        }
        cur := cur + 1;
      }
      ListingFrom(t, parentName, old(cur));
      ListingFrom(t, parentName, cur);
      return 1, NotSet;
    }
  }

  /** Opening a directory and reading it to its end: what a caller that lists a directory does. */
  method ListDir(s: seq<byte>, pathname: Text, nameMax: nat, ghost t: seq<Entry>, ghost base: nat)
    returns (ret: int, names: seq<Text>)
    requires Holds(s, t, base)
    ensures var i := FindDir(t, Rstrip(pathname), 0);
            if i == |t| then ret == -1 && names == []
            else
              var all := Listing(t, t[i].name, i + 1);
              if forall k :: 0 <= k < |all| ==> |all[k]| < nameMax then ret == 1 && names == all
              else ret == -1 && |names| < |all| && names == all[..|names|] && |all[|names|]| >= nameMax
  {
    hide Holds, Listing;
    names := [];
    var dir := new Dir();
    var errno;
    ret, errno := dir.Opendir(s, pathname, t, base);
    if ret != 0 {
      return;
    }
    ghost var p := t[dir.parent].name;
    ghost var all := Listing(t, p, dir.cur);
    while true
      invariant fresh(dir) && dir.parent < |t| && t[dir.parent].name == p && dir.cur <= |t|
      invariant |names| <= |all| && names == all[..|names|] && Listing(t, p, dir.cur) == all[|names|..]
      invariant forall k :: 0 <= k < |names| ==> |all[k]| < nameMax
      decreases |all| - |names|
    {
      ret, errno := dir.Readdir(s, nameMax, t, base);
      if ret != 0 {
        return;
      }
      names := names + [dir.dName];
    }
  }
}
