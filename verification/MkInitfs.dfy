/** The initfs writer: a sorted table of files and directories, their names, and the file data, as one byte image. */
module MkInitfs {

  import opened Wrappers
  import opened Bits
  import opened PosixPath

  /** The size that marks a directory. */
  const DIRMARK: nat := 0xFFFF_FFFF

  /** The bytes of one record of the main table. */
  const RECORD: nat := 12

  datatype Entry = Entry(name: Text, offset: nat, size: nat)

  // ---------------------------------------------------------------- the order of names

  /** Python's order on strings. */
  predicate LexLe(a: Text, b: Text) {
    a == [] || (b != [] && (a[0] < b[0] || (a[0] == b[0] && LexLe(a[1..], b[1..]))))
  }

  /** By the first difference, and a beginning before what it begins. */
  lemma LexMeans(p: Text, c: nat, d: nat, a: Text, b: Text)
    ensures LexLe(p, p + a)
    ensures c < d ==> LexLe(p + [c] + a, p + [d] + b) && !LexLe(p + [d] + b, p + [c] + a)
  {
    if p != [] {
      LexMeans(p[1..], c, d, a, b);
      assert (p + a)[1..] == p[1..] + a;
      assert (p + [c] + a)[1..] == p[1..] + [c] + a && (p + [d] + b)[1..] == p[1..] + [d] + b;
    }
  }

  lemma {:induction false} LexTotal(a: Text, b: Text)
    ensures LexLe(a, b) || LexLe(b, a)
    ensures LexLe(a, b) && LexLe(b, a) ==> a == b
    ensures a == b ==> LexLe(a, b)
  {
    if a != [] && b != [] {
      LexTotal(a[1..], b[1..]);
      if a[0] == b[0] && a[1..] == b[1..] {
        assert a == [a[0]] + a[1..] && b == [b[0]] + b[1..];
      }
    }
  }

  lemma {:induction false} LexTrans(a: Text, b: Text, c: Text)
    requires LexLe(a, b) && LexLe(b, c)
    ensures LexLe(a, c)
  {
    if a != [] && a[0] == b[0] == c[0] {
      LexTrans(a[1..], b[1..], c[1..]);
    }
  }

  /** A prefix comes first, and what lies between two names with a common prefix has that prefix. */
  lemma {:induction false} PrefixFirst(p: Text, a: Text)
    requires p <= a
    ensures LexLe(p, a)
  {
    if p != [] {
      PrefixFirst(p[1..], a[1..]);
    }
  }

  lemma {:induction false} PrefixBetween(p: Text, a: Text, b: Text, c: Text)
    requires p <= a && p <= c && LexLe(a, b) && LexLe(b, c)
    ensures p <= b
  {
    if p != [] {
      PrefixBetween(p[1..], a[1..], b[1..], c[1..]);
      assert p == [p[0]] + p[1..] && b == [b[0]] + b[1..];
    }
  }

  // ---------------------------------------------------------------- the stable sort

  predicate Sorted(t: seq<Entry>) {
    forall i, j :: 0 <= i < j < |t| ==> LexLe(t[i].name, t[j].name)
  }

  /** The entries of one name, in order. */
  function Named(t: seq<Entry>, n: Text): seq<Entry> {
    if t == [] then [] else Named(t[..|t| - 1], n) + if t[|t| - 1].name == n then [t[|t| - 1]] else []
  }

  /** e behind every entry that does not come after it. */
  function Insert(t: seq<Entry>, e: Entry): seq<Entry> {
    if t == [] || LexLe(t[|t| - 1].name, e.name) then t + [e]
    else Insert(t[..|t| - 1], e) + [t[|t| - 1]]
  }

  /** list.sort by name: Python's sort is stable. */
  function StableSort(t: seq<Entry>): seq<Entry> {
    if t == [] then [] else Insert(StableSort(t[..|t| - 1]), t[|t| - 1])
  }

  lemma {:induction false} InsertKeeps(t: seq<Entry>, e: Entry, n: Text)
    requires Sorted(t)
    ensures |Insert(t, e)| == |t| + 1
    ensures Named(Insert(t, e), n) == Named(t, n) + if e.name == n then [e] else []
  {
    var r := Insert(t, e);
    if t == [] || LexLe(t[|t| - 1].name, e.name) {
      assert r[..|r| - 1] == t;
    } else {
      var front, last := t[..|t| - 1], t[|t| - 1];
      InsertKeeps(front, e, n);
      assert r[..|r| - 1] == Insert(front, e);
      LexTotal(e.name, last.name);
      if e.name == n {
        assert last.name != n;
      }
    }
  }

  lemma {:induction false} InsertSorted(t: seq<Entry>, e: Entry)
    requires Sorted(t)
    ensures Sorted(Insert(t, e))
    ensures forall x :: x in Insert(t, e) <==> x in t || x == e
  {
    if t == [] {
    } else if LexLe(t[|t| - 1].name, e.name) {
      forall i | 0 <= i < |t|
        ensures LexLe(t[i].name, e.name)
      {
        if i < |t| - 1 {
          LexTrans(t[i].name, t[|t| - 1].name, e.name);
        }
      }
    } else {
      var front, last := t[..|t| - 1], t[|t| - 1];
      assert t == front + [last];
      InsertSorted(front, e);
      LexTotal(e.name, last.name);
      forall x | x in Insert(front, e)
        ensures LexLe(x.name, last.name)
      {
        if x != e {
          var i :| 0 <= i < |front| && front[i] == x;
          assert t[i] == x;
        }
      }
    }
  }

  /** The sort orders the names and keeps, name by name, the entries and their order. */
  lemma {:induction false} SortIsStable(t: seq<Entry>, n: Text)
    ensures Sorted(StableSort(t)) && |StableSort(t)| == |t|
    ensures Named(StableSort(t), n) == Named(t, n)
    ensures forall x :: x in StableSort(t) <==> x in t
  {
    if t != [] {
      var front, last := t[..|t| - 1], t[|t| - 1];
      assert t == front + [last];
      SortIsStable(front, n);
      InsertSorted(StableSort(front), last);
      InsertKeeps(StableSort(front), last, n);
    }
  }

  // ---------------------------------------------------------------- the directories

  function Parents(s: set<Text>): set<Text> {
    set d | d in s :: Dirname(d)
  }

  /** Every parent of the names, and every parent of those. */
  ghost predicate ClosedOver(names: set<Text>, dirs: set<Text>) {
    Parents(names) <= dirs && Parents(dirs) <= dirs
  }

  /** The directories the table needs and no others. */
  ghost predicate IsClosure(names: set<Text>, dirs: set<Text>) {
    ClosedOver(names, dirs) && forall s :: ClosedOver(names, s) ==> dirs <= s
  }

  /** All prefixes of some names: a finite set that holds every iterated parent. */
  ghost function Prefixes(names: set<Text>): set<Text> {
    set f, k | f in names && 0 <= k <= |f| :: f[..k]
  }

  lemma DirnameIsPrefix(p: Text)
    ensures Dirname(p) <= p
  {
  }

  lemma ParentsArePrefixes(names: set<Text>, s: set<Text>)
    requires s <= Prefixes(names)
    ensures Parents(s) <= Prefixes(names)
  {
    forall d | d in s
      ensures Dirname(d) in Prefixes(names)
    {
      DirnameIsPrefix(d);
      var f, k :| f in names && 0 <= k <= |f| && d == f[..k];
      assert Dirname(d) == f[..|Dirname(d)|];
    }
  }

  lemma NamesArePrefixes(names: set<Text>)
    ensures names <= Prefixes(names)
  {
    forall f | f in names
      ensures f in Prefixes(names)
    {
      assert f == f[..|f|];
    }
  }

  /** What the parent-closure loop keeps: everything but the newest directories has its parent listed. */
  ghost predicate Searching(names: set<Text>, dirs: set<Text>, newdirs: set<Text>) {
    newdirs <= dirs <= Prefixes(names) && Parents(names) <= dirs && Parents(dirs - newdirs) <= dirs &&
    forall s :: ClosedOver(names, s) ==> dirs <= s
  }

  lemma ParentsOfBoth(a: set<Text>, b: set<Text>)
    ensures Parents(a + b) == Parents(a) + Parents(b)
  {
  }

  lemma SearchStep(names: set<Text>, dirs: set<Text>, newdirs: set<Text>)
    requires Searching(names, dirs, newdirs)
    ensures var next := Parents(newdirs);
            Parents(dirs) <= dirs + next && Searching(names, dirs + next, next)
  {
    hide Prefixes, Parents;
    var next := Parents(newdirs);
    assert dirs == (dirs - newdirs) + newdirs;
    ParentsOfBoth(dirs - newdirs, newdirs);
    ParentsArePrefixes(names, newdirs);
    var old' := (dirs + next) - next;
    assert dirs == old' + dirs;
    ParentsOfBoth(old', dirs);
    forall s | ClosedOver(names, s)
      ensures next <= s
    {
      assert s == newdirs + s;
      ParentsOfBoth(newdirs, s);
    }
  }

  /** The parent-closure loop: it stops, and when it stops nothing is missing. */
  method FindDirs(names: set<Text>) returns (dirs: set<Text>)
    ensures IsClosure(names, dirs)
  {
    hide Prefixes, Parents;
    NamesArePrefixes(names);
    ParentsArePrefixes(names, names);
    var newdirs := Parents(names);
    dirs := newdirs;
    NothingAbove(dirs);
    while true
      invariant Searching(names, dirs, newdirs)
      decreases |Prefixes(names) - dirs|
    {
      SearchStep(names, dirs, newdirs);
      newdirs := Parents(newdirs);
      if newdirs - dirs == {} {
        assert dirs + newdirs == dirs;
        break;
      }
      var d :| d in newdirs - dirs;
      assert d in dirs + newdirs;
      SmallerSet(Prefixes(names) - (dirs + newdirs), Prefixes(names) - dirs, d);
      dirs := dirs + newdirs;
    }
  }

  lemma NothingAbove(dirs: set<Text>)
    ensures Parents(dirs - dirs) == {}
  {
  }

  lemma SmallerSet<T>(a: set<T>, b: set<T>, x: T)
    requires a <= b && x in b && x !in a
    ensures |a| < |b|
  {
    assert b == a + (b - a);
    assert x in b - a;
  }

  /** A normalised absolute name other than the root's. */
  predicate Absolute(n: Text) {
    |n| >= 2 && n[0] == SLASH && n[|n| - 1] != SLASH && forall i :: 0 < i < |n| && n[i] == SLASH ==> n[i - 1] != SLASH
  }

  /** The directory that ends at the separator at position k. */
  function DirAt(f: Text, k: nat): Text
    requires k < |f|
  {
    if k == 0 then SEP else f[..k]
  }

  /** Every directory some name lies in, at whatever depth. */
  ghost function SlashDirs(names: set<Text>): set<Text> {
    set f, k | f in names && 0 <= k < |f| && f[k] == SLASH :: DirAt(f, k)
  }

  /** dirname of an absolute name, or of one of its directories, is the directory at the last separator before. */
  lemma {:induction false} DirnameAt(f: Text, m: nat, k: nat)
    requires Absolute(f) && k < m <= |f| && f[k] == SLASH && Plain(f[k + 1..m]) && (m < |f| ==> f[m] == SLASH)
    ensures Dirname(f[..m]) == DirAt(f, k)
  {
    var p := f[..m];
    assert p == f[..k] + SEP + f[k + 1..m];
    if k == 0 {
      assert p == SEP + f[1..m];
      SplitOfPlain(f[1..m]);
    } else {
      assert f[k - 1] != SLASH;
      SplitOfSnoc(f[..k], f[k + 1..m]);
    }
  }

  lemma RootsParent()
    ensures Dirname(SEP) == SEP
  {
    SplitOfPlain([]);
    assert SEP + [] == SEP;
  }

  /** Each separator's directory is found, from the last separator back to the first. */
  lemma {:induction false} HasDir(names: set<Text>, dirs: set<Text>, f: Text, k: nat)
    requires ClosedOver(names, dirs) && f in names && Absolute(f) && k < |f| && f[k] == SLASH
    ensures DirAt(f, k) in dirs
    decreases |f| - k
  {
    var m := k + 1 + FirstSlash(f[k + 1..]);
    assert f[k + 1..m] == f[k + 1..][..m - k - 1];
    DirnameAt(f, m, k);
    if m < |f| {
      assert f[m] == f[k + 1..][m - k - 1];
      HasDir(names, dirs, f, m);
      assert f[..m] in dirs;
    } else {
      assert f[..m] == f;
    }
  }

  lemma {:induction false} SlashDirsClosed(names: set<Text>)
    requires forall f :: f in names ==> Absolute(f)
    ensures ClosedOver(names, SlashDirs(names))
  {
    forall f | f in names
      ensures Dirname(f) in SlashDirs(names)
    {
      LastSlash(f, |f|);
      assert f[..|f|] == f;
    }
    forall d | d in SlashDirs(names)
      ensures Dirname(d) in SlashDirs(names)
    {
      var f, k :| f in names && 0 <= k < |f| && f[k] == SLASH && d == DirAt(f, k);
      if k == 0 {
        RootsParent();
      } else {
        LastSlash(f, k);
      }
    }
  }

  lemma {:induction false} LastSlash(f: Text, m: nat)
    requires Absolute(f) && 0 < m <= |f| && (m < |f| ==> f[m] == SLASH)
    ensures exists k :: 0 <= k < |f| && f[k] == SLASH && Dirname(f[..m]) == DirAt(f, k)
  {
    var p := f[..m];
    var k := AfterLast(p);
    assert p[0..] == p && p[0] == SLASH;
    assert f[k..m] == p[k..] && f[k - 1] == p[k - 1];
    DirnameAt(f, m, k - 1);
  }

  /** For absolute names the closure is exactly the directories the names lie in. */
  lemma ClosureIsSlashDirs(names: set<Text>, dirs: set<Text>)
    requires IsClosure(names, dirs) && forall f :: f in names ==> Absolute(f)
    ensures dirs == SlashDirs(names)
  {
    SlashDirsClosed(names);
    forall d | d in SlashDirs(names)
      ensures d in dirs
    {
      var f, k :| f in names && 0 <= k < |f| && f[k] == SLASH && d == DirAt(f, k);
      HasDir(names, dirs, f, k);
    }
  }

  // ---------------------------------------------------------------- the table

  function NamesOf(t: seq<Entry>): set<Text> {
    set e | e in t :: e.name
  }

  /** The name under which a directory is listed: no name ends in a separator, not even the root's. */
  function ListedAs(d: Text): Text {
    if d == SEP then [] else d
  }

  function DirEntry(n: Text): Entry {
    Entry(n, 0, DIRMARK)
  }

  /** How many of some directories are listed under one name. */
  function DirCount(dirs: set<Text>, n: Text): nat {
    (if n != SEP && n in dirs then 1 else 0) + if n == [] && SEP in dirs then 1 else 0
  }

  function DirRows(dirs: set<Text>, n: Text): seq<Entry> {
    seq(DirCount(dirs, n), _ => DirEntry(n))
  }

  /** The table written for some files and directories: sorted by name; under each name the files first, as they were
      added, then the directory. */
  ghost predicate IsTable(files: seq<Entry>, dirs: set<Text>, t: seq<Entry>) {
    Sorted(t) && |t| == |files| + |dirs| && forall n :: Named(t, n) == Named(files, n) + DirRows(dirs, n)
  }

  lemma {:induction false} NamedConcat(a: seq<Entry>, b: seq<Entry>, n: Text)
    ensures Named(a + b, n) == Named(a, n) + Named(b, n)
    decreases |b|
  {
    if b == [] {
      assert a + b == a;
    } else {
      assert (a + b)[..|a + b| - 1] == a + b[..|b| - 1];
      NamedConcat(a, b[..|b| - 1], n);
    }
  }

  lemma OneMoreDir(done: set<Text>, d: Text, n: Text)
    requires d !in done
    ensures DirRows(done + {d}, n) == DirRows(done, n) + if ListedAs(d) == n then [DirEntry(n)] else []
  {
  }

  method SortTable(files: seq<Entry>, dirs: set<Text>) returns (t: seq<Entry>)
    ensures IsTable(files, dirs, t)
    ensures forall e :: e in t ==> e in files || e.size == DIRMARK
  {
    var filetable := files;
    var rest := dirs;
    while rest != {}
      invariant rest <= dirs && |filetable| + |rest| == |files| + |dirs|
      invariant forall n :: Named(filetable, n) == Named(files, n) + DirRows(dirs - rest, n)
      invariant forall e :: e in filetable ==> e in files || e.size == DIRMARK
      decreases |rest|
    {
      var d :| d in rest;
      forall n
        ensures Named(filetable + [DirEntry(ListedAs(d))], n) == Named(files, n) + DirRows(dirs - (rest - {d}), n)
      {
        OneMoreDir(dirs - rest, d, n);
        assert dirs - (rest - {d}) == dirs - rest + {d};
        NamedConcat(filetable, [DirEntry(ListedAs(d))], n);
      }
      filetable := filetable + [DirEntry(ListedAs(d))];
      rest := rest - {d};
    }
    t := StableSort(filetable);
    assert dirs - rest == dirs;
    SortIsStable(filetable, []);
    forall n
      ensures Named(t, n) == Named(filetable, n)
    {
      SortIsStable(filetable, n);
    }
  }

  // ---------------------------------------------------------------- the image

  predicate IsAscii(n: Text) {
    forall i :: 0 <= i < |n| ==> n[i] < 128
  }

  function AsciiCode(c: nat): byte
    requires c < 128
  {
    c
  }

  /** n.encode('ascii') */
  function Encoded(n: Text): (r: seq<byte>)
    requires IsAscii(n)
    ensures r == n
  {
    seq(|n|, i requires 0 <= i < |n| => AsciiCode(n[i]))
  }

  predicate AllAscii(t: seq<Entry>) {
    forall i :: 0 <= i < |t| ==> IsAscii(t[i].name)
  }

  function NameTable(t: seq<Entry>): seq<byte>
    requires AllAscii(t)
  {
    if t == [] then [] else NameTable(t[..|t| - 1]) + Encoded(t[|t| - 1].name) + [0]
  }

  function LittleEndian(v: nat): seq<byte> {
    [ByteOf(v, 0), ByteOf(v, 1), ByteOf(v, 2), ByteOf(v, 3)]
  }

  function Record(a: nat, b: nat, c: nat): (r: seq<byte>)
    ensures |r| == RECORD
  {
    LittleEndian(a) + LittleEndian(b) + LittleEndian(c)
  }

  function TableSize(t: seq<Entry>): nat {
    (|t| + 1) * RECORD
  }

  function NameOffset(t: seq<Entry>, i: nat): nat
    requires AllAscii(t) && i <= |t|
  {
    TableSize(t) + |NameTable(t[..i])|
  }

  function DataOffset(t: seq<Entry>, i: nat): nat
    requires AllAscii(t) && i < |t|
  {
    TableSize(t) + |NameTable(t)| + t[i].offset
  }

  /** struct.pack raises an error for a value that does not fit. */
  predicate Packs(t: seq<Entry>, i: nat)
    requires AllAscii(t) && i < |t|
  {
    NameOffset(t, i) < TWO32 && DataOffset(t, i) < TWO32 && t[i].size < TWO32
  }

  predicate Encodable(t: seq<Entry>) {
    AllAscii(t) && forall i :: 0 <= i < |t| ==> Packs(t, i)
  }

  function MainTable(t: seq<Entry>, n: nat): (r: seq<byte>)
    requires AllAscii(t) && n <= |t|
    ensures |r| == RECORD * n
  {
    if n == 0 then [] else
      MainTable(t, n - 1) + Record(NameOffset(t, n - 1), DataOffset(t, n - 1), t[n - 1].size)
  }

  function Serialise(t: seq<Entry>, data: seq<byte>): seq<byte>
    requires Encodable(t)
  {
    MainTable(t, |t|) + Record(0, 0, 0) + NameTable(t) + data
  }

  /** tostring's first loop: the name strings and where each begins. */
  method NameStrings(t: seq<Entry>) returns (offsets: Option<seq<nat>>, nametable: seq<byte>)
    ensures offsets.Some? <==> AllAscii(t)
    ensures offsets.Some? ==> nametable == NameTable(t) && |offsets.value| == |t| &&
                              forall j :: 0 <= j < |t| ==> offsets.value[j] == |NameTable(t[..j])|
  {
    var nameoffsets: seq<nat> := [];
    nametable := [];
    for i := 0 to |t|
      invariant AllAscii(t[..i]) && nametable == NameTable(t[..i]) && |nameoffsets| == i
      invariant forall j :: 0 <= j < i ==> AllAscii(t[..j]) && nameoffsets[j] == |NameTable(t[..j])|
    {
      if !IsAscii(t[i].name) {
        return None, [];
      }
      assert t[..i + 1][..i] == t[..i];
      nameoffsets := nameoffsets + [|nametable|];
      nametable := nametable + Encoded(t[i].name) + [0];
    }
    assert t[..|t|] == t;
    offsets := Some(nameoffsets);
  }

  lemma MainTableStep(t: seq<Entry>, n: nat)
    requires AllAscii(t) && n <= |t|
    ensures n == 0 ==> MainTable(t, n) == []
    ensures n > 0 ==> MainTable(t, n) ==
                      MainTable(t, n - 1) + Record(NameOffset(t, n - 1), DataOffset(t, n - 1), t[n - 1].size)
  {
  }

  /** tostring's second loop: the records. */
  method PackTable(t: seq<Entry>, offsets: seq<nat>, nametable: seq<byte>) returns (maintable: Option<seq<byte>>)
    requires AllAscii(t) && nametable == NameTable(t) && |offsets| == |t|
    requires forall j :: 0 <= j < |t| ==> offsets[j] == |NameTable(t[..j])|
    ensures maintable == if Encodable(t) then Some(MainTable(t, |t|)) else None
  {
    hide NameTable, MainTable, Record;
    var maintablesize := (|t| + 1) * RECORD;
    var m := [];
    MainTableStep(t, 0);
    for i := 0 to |t|
      invariant m == MainTable(t, i) && forall j :: 0 <= j < i ==> Packs(t, j)
    {
      MainTableStep(t, i + 1);
      var a, b, c := offsets[i] + maintablesize, t[i].offset + |nametable| + maintablesize, t[i].size;
      if a >= TWO32 || b >= TWO32 || c >= TWO32 {
        assert !Packs(t, i);
        return None;
      }
      m := m + Record(a, b, c);
    }
    maintable := Some(m);
  }

  /** A file as it was added: its name in the image and its bytes. */
  datatype File = File(name: Text, content: seq<byte>)

  /** The file table and the data hold the files. */
  ghost predicate Stored(files: seq<File>, filetable: seq<Entry>, data: seq<byte>) {
    |files| == |filetable| &&
    forall i :: 0 <= i < |files| ==>
      var e := filetable[i];
      e.name == files[i].name && e.size == |files[i].content| && e.offset + e.size <= |data| &&
      data[e.offset..e.offset + e.size] == files[i].content
  }

  /** What tostring makes of a file table and its data, with the directories and the sorted table it goes through. */
  ghost predicate IsImage(filetable: seq<Entry>, data: seq<byte>, dirs: set<Text>, t: seq<Entry>, image: Option<seq<byte>>) {
    IsClosure(NamesOf(filetable), dirs) && IsTable(filetable, dirs, t) &&
    (forall e :: e in t ==> e in filetable || e.size == DIRMARK) &&
    image == if Encodable(t) then Some(Serialise(t, data)) else None
  }

  class InitFs {
    var filetable: seq<Entry>
    var data: seq<byte>
    /** The files added so far. */
    ghost var files: seq<File>

    ghost predicate Valid()
      reads this
    {
      Stored(files, filetable, data)
    }

    constructor ()
      ensures Valid() && files == []
    {
      filetable, data, files := [], [], [];
    }

    /** addfile: data is what was read from the local file. */
    method AddFile(content: seq<byte>, destfile: Text)
      requires Valid()
      modifies this
      ensures Valid() && files == old(files) + [File(destfile, content)]
    {
      filetable := filetable + [Entry(destfile, |data|, |content|)];
      ghost var before := data;
      data := data + content;
      files := files + [File(destfile, content)];
      forall i | 0 <= i < |files|
        ensures var e := filetable[i]; data[e.offset..e.offset + e.size] == files[i].content
      {
        var e := filetable[i];
        if i < |files| - 1 {
          assert data[e.offset..e.offset + e.size] == before[e.offset..e.offset + e.size];
        }
      }
    }

    /** tostring: the image, or no image if a name is not ASCII or a number does not fit. */
    method ToString() returns (image: Option<seq<byte>>)
      requires Valid()
      ensures exists dirs, t :: IsImage(filetable, data, dirs, t, image)
    {
      var dirs := FindDirs(NamesOf(filetable));
      var table := SortTable(filetable, dirs);
      var offsets, nametable := NameStrings(table);
      if offsets.None? {
        image := None;
        assert IsImage(filetable, data, dirs, table, image);
        return;
      }
      var maintable := PackTable(table, offsets.value, nametable);
      if maintable.None? {
        image := None;
        assert IsImage(filetable, data, dirs, table, image);
        return;
      }
      image := Some(maintable.value + Record(0, 0, 0) + nametable + data);
      assert IsImage(filetable, data, dirs, table, image);
    }
  }
}
