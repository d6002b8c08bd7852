/** What the image of a set of files shows to its readers: every file's bytes, and every directory's children. */
module InitfsTree {

  import opened Wrappers
  import opened Bits
  import opened PosixPath
  import opened MkInitfs
  import opened Initfs

  // ---------------------------------------------------------------- positions of the entries of one name

  /** Entry i is among the entries of its name, behind as many as came before it. */
  lemma {:induction false} NamedRank(t: seq<Entry>, i: nat)
    requires i < |t|
    ensures var n := t[i].name; var r := |Named(t[..i], n)|;
            r < |Named(t, n)| && Named(t, n)[r] == t[i]
  {
    var n := t[i].name;
    assert t == t[..i] + ([t[i]] + t[i + 1..]);
    NamedConcat(t[..i], [t[i]] + t[i + 1..], n);
    NamedConcat([t[i]], t[i + 1..], n);
    assert Named([t[i]], n) == [t[i]] by {
      assert [t[i]][..0] == [];
    }
  }

  /** Two entries of one name stand in the table as they stand among the entries of that name. */
  lemma NamedOrder(t: seq<Entry>, i: nat, j: nat)
    requires i < j < |t| && t[i].name == t[j].name
    ensures var n := t[i].name;
            var a, b := |Named(t[..i], n)|, |Named(t[..j], n)|;
            a < b < |Named(t, n)| && Named(t, n)[a] == t[i] && Named(t, n)[b] == t[j]
  {
    NamedRank(t, i);
    NamedRank(t, j);
    NamedRank(t[..j], i);
    assert t[..j][..i] == t[..i];
  }

  lemma {:induction false} NamedElements(t: seq<Entry>, n: Text)
    ensures forall e :: e in Named(t, n) <==> e in t && e.name == n
  {
    if t != [] {
      NamedElements(t[..|t| - 1], n);
      assert t == t[..|t| - 1] + [t[|t| - 1]];
    }
  }

  lemma {:induction false} NoneNamed(t: seq<Entry>, n: Text)
    requires forall i :: 0 <= i < |t| ==> t[i].name != n
    ensures Named(t, n) == []
  {
    if t != [] {
      NoneNamed(t[..|t| - 1], n);
    }
  }

  // ---------------------------------------------------------------- a well-named set of files

  /** A name a file can be added under: absolute, normalised, and a C string in ASCII. */
  predicate ProperName(n: Text) {
    Absolute(n) && IsAscii(n) && 0 !in n
  }

  ghost predicate ProperFiles(files: seq<File>) {
    (forall i :: 0 <= i < |files| ==> ProperName(files[i].name)) &&
    forall i, j :: 0 <= i < j < |files| ==> files[i].name != files[j].name
  }

  ghost predicate IsFile(files: seq<File>, n: Text) {
    exists i :: 0 <= i < |files| && files[i].name == n
  }

  /** Some file lies in the directory n, at whatever depth; the root is the empty name. */
  ghost predicate IsDir(files: seq<File>, n: Text) {
    exists i :: 0 <= i < |files| && n + SEP <= files[i].name
  }

  /** The names and sizes the files were given. */
  ghost predicate Added(files: seq<File>, filetable: seq<Entry>) {
    |files| == |filetable| && forall i :: 0 <= i < |files| ==>
      filetable[i].name == files[i].name && filetable[i].size == |files[i].content|
  }

  /** t is the table of an image of files; their sizes are less than the directory mark. */
  ghost predicate TableOf(files: seq<File>, filetable: seq<Entry>, dirs: set<Text>, t: seq<Entry>) {
    ProperFiles(files) && Added(files, filetable) && IsClosure(NamesOf(filetable), dirs) &&
    IsTable(filetable, dirs, t) && forall e :: e in filetable ==> e.size != DIRMARK
  }

  // ---------------------------------------------------------------- one name in the table

  lemma {:induction false} OneFile(files: seq<File>, filetable: seq<Entry>, n: Text)
    requires ProperFiles(files) && Added(files, filetable)
    ensures Named(filetable, n) == [] <==> !IsFile(files, n)
    ensures |Named(filetable, n)| <= 1
    ensures forall e :: e in Named(filetable, n) ==> e in filetable && e.name == n
  {
    NamedElements(filetable, n);
    if Named(filetable, n) != [] {
      var e := Named(filetable, n)[0];
      assert e in filetable;
      var i :| 0 <= i < |filetable| && filetable[i] == e;
      assert files[i].name == n;
    }
    if i :| 0 <= i < |files| && files[i].name == n {
      assert filetable[i] in Named(filetable, n);
    }
    AtMostOne(files, filetable, n);
  }

  lemma {:induction false} AtMostOne(files: seq<File>, filetable: seq<Entry>, n: Text)
    requires ProperFiles(files) && Added(files, filetable)
    ensures |Named(filetable, n)| <= 1
  {
    if files != [] {
      var k := |files| - 1;
      AtMostOne(files[..k], filetable[..k], n);
      if filetable[k].name == n {
        assert forall i :: 0 <= i < k ==> filetable[i].name == files[i].name != n;
        NoneNamed(filetable[..k], n);
      }
    }
  }

  lemma NamesOfFiles(files: seq<File>, filetable: seq<Entry>)
    requires ProperFiles(files) && Added(files, filetable)
    ensures forall f :: f in NamesOf(filetable) <==> IsFile(files, f)
    ensures forall f :: f in NamesOf(filetable) ==> Absolute(f)
  {
    assert forall i :: 0 <= i < |files| ==> filetable[i] in filetable && filetable[i].name == files[i].name;
    forall f | f in NamesOf(filetable)
      ensures IsFile(files, f) && Absolute(f)
    {
      var e :| e in filetable && e.name == f;
      var i :| 0 <= i < |filetable| && filetable[i] == e;
      assert files[i].name == f;
    }
  }

  /** A directory's name is what stands before a separator of a file's name. */
  lemma DirBefore(f: Text, k: nat)
    requires Absolute(f) && k < |f| && f[k] == SLASH
    ensures f[..k] + SEP <= f && ListedAs(DirAt(f, k)) == f[..k] && DirAt(f, k) != []
  {
    assert f[..k] + SEP == f[..k + 1];
    if k > 0 {
      assert f[k - 1] != SLASH;
      assert f[..k][k - 1] == f[k - 1];
      assert f[..k] != SEP;
    } else {
      assert f[..0] == [];
    }
  }

  lemma BeforeDir(f: Text, n: Text)
    requires Absolute(f) && n + SEP <= f
    ensures f[|n|] == SLASH && f[..|n|] == n
  {
    assert f[|n|] == (n + SEP)[|n|];
    assert n == (n + SEP)[..|n|];
  }

  lemma ListedDir(names: set<Text>, n: Text)
    requires forall f :: f in names ==> Absolute(f)
    ensures (exists f :: f in names && n + SEP <= f) <==> exists d :: d in SlashDirs(names) && ListedAs(d) == n
  {
    if f :| f in names && n + SEP <= f {
      BeforeDir(f, n);
      DirBefore(f, |n|);
      assert DirAt(f, |n|) in SlashDirs(names);
    }
    if d :| d in SlashDirs(names) && ListedAs(d) == n {
      var f, k :| f in names && 0 <= k < |f| && f[k] == SLASH && d == DirAt(f, k);
      DirBefore(f, k);
    }
  }

  lemma NoEmptyDir(names: set<Text>)
    requires forall f :: f in names ==> Absolute(f)
    ensures [] !in SlashDirs(names)
  {
    forall f, k | f in names && 0 <= k < |f| && f[k] == SLASH
      ensures DirAt(f, k) != []
    {
      DirBefore(f, k);
    }
  }

  /** The directories in the table are those some file lies in. */
  lemma OneDir(files: seq<File>, filetable: seq<Entry>, dirs: set<Text>, n: Text)
    requires ProperFiles(files) && Added(files, filetable) && IsClosure(NamesOf(filetable), dirs)
    ensures DirCount(dirs, n) == if IsDir(files, n) then 1 else 0
  {
    hide SlashDirs, IsClosure, ProperFiles, Added, Absolute, NamesOf;
    var names := NamesOf(filetable);
    NamesOfFiles(files, filetable);
    ClosureIsSlashDirs(names, dirs);
    ListedDir(names, n);
    NoEmptyDir(names);
    assert IsDir(files, n) <==> exists f :: f in names && n + SEP <= f by {
      if f :| f in names && n + SEP <= f {
        assert IsFile(files, f);
      }
      if i :| 0 <= i < |files| && n + SEP <= files[i].name {
        assert IsFile(files, files[i].name);
      }
    }
  }

  /** Under each name the table has the file of that name, if there is one, and then the directory, if it is one. */
  lemma EntriesOf(files: seq<File>, filetable: seq<Entry>, dirs: set<Text>, t: seq<Entry>, n: Text)
    requires TableOf(files, filetable, dirs, t)
    ensures Named(t, n) == Named(filetable, n) + if IsDir(files, n) then [DirEntry(n)] else []
    ensures |Named(filetable, n)| == if IsFile(files, n) then 1 else 0
    ensures forall e :: e in Named(filetable, n) ==> e.size != DIRMARK
  {
    OneFile(files, filetable, n);
    OneDir(files, filetable, dirs, n);
  }

  // ---------------------------------------------------------------- opening a directory

  /** Opening a directory that exists finds its own entry, although opendir compares only a prefix. */
  lemma OpensItself(files: seq<File>, filetable: seq<Entry>, dirs: set<Text>, t: seq<Entry>, n: Text)
    requires TableOf(files, filetable, dirs, t) && IsDir(files, n)
    ensures var i := FindDir(t, n, 0); i < |t| && t[i] == DirEntry(n)
  {
    hide Named, LexLe, IsClosure, ProperFiles, Added, IsFile, IsDir;
    var i := FindDir(t, n, 0);
    EntriesOf(files, filetable, dirs, t, n);
    NamedElements(t, n);
    assert Named(t, n)[|Named(t, n)| - 1] == DirEntry(n);
    assert DirEntry(n) in Named(t, n);
    var j :| 0 <= j < |t| && t[j] == DirEntry(n);
    if i < j {
      PrefixFirst(n, t[i].name);
      LexTotal(n, t[i].name);
      assert LexLe(t[i].name, t[j].name);
      NamedOrder(t, i, j);
    }
  }

  /** For any other name, opendir succeeds exactly when some directory's name begins with it. */
  lemma OpensPrefix(files: seq<File>, filetable: seq<Entry>, dirs: set<Text>, t: seq<Entry>, n: Text)
    requires TableOf(files, filetable, dirs, t)
    ensures FindDir(t, n, 0) < |t| <==> exists d :: n <= d && IsDir(files, d)
  {
    var i := FindDir(t, n, 0);
    if i < |t| {
      EntriesOf(files, filetable, dirs, t, t[i].name);
      NamedElements(t, t[i].name);
      assert t[i] in Named(t, t[i].name);
      assert IsDir(files, t[i].name);
    }
    if d :| n <= d && IsDir(files, d) {
      EntriesOf(files, filetable, dirs, t, d);
      NamedElements(t, d);
      assert DirEntry(d) in Named(t, d);
      var j :| 0 <= j < |t| && t[j] == DirEntry(d);
    }
  }

  // ---------------------------------------------------------------- listing a directory

  /** All names with one prefix stand together. */
  lemma PrefixGone(t: seq<Entry>, j: nat, i: nat, k: nat)
    requires Sorted(t) && j <= i <= k < |t| && t[j].name <= t[k].name
    ensures t[j].name <= t[i].name
  {
    LexTotal(t[j].name, t[j].name);
    LexTotal(t[i].name, t[i].name);
    PrefixBetween(t[j].name, t[j].name, t[i].name, t[k].name);
  }

  /** How often a component is listed from position i on: as often as its full name stands there. */
  lemma {:induction false} ListingCounts(t: seq<Entry>, j: nat, i: nat, c: Text)
    requires Sorted(t) && j < i <= |t| && Plain(c)
    ensures multiset(Listing(t, t[j].name, i))[c] == |Named(t[i..], t[j].name + SEP + c)|
    decreases |t| - i
  {
    hide Listing, Named, IsChild, LexLe, Scan, Sorted;
    var p := t[j].name;
    var n := p + SEP + c;
    if i == |t| {
      NoneNamed(t[i..], n);
      ListingHead(t, p, i);
    } else if !(p <= t[i].name) {
      forall k | i <= k < |t|
        ensures t[k].name != n
      {
        if t[k].name == n {
          assert p <= n;
          PrefixGone(t, j, i, k);
        }
      }
      NoneNamed(t[i..], n);
      ListingHead(t, p, i);
    } else {
      ListingCounts(t, j, i + 1, c);
      NamedHead(t, i, n);
      ListingHead(t, p, i);
      ChildName(p, t[i].name, c);
    }
  }

  lemma ListingHead(t: seq<Entry>, p: Text, i: nat)
    requires i <= |t|
    ensures Listing(t, p, i) ==
            if i == |t| || !(p <= t[i].name) then []
            else (if IsChild(p, t[i].name) then [t[i].name[|p| + 1..]] else []) + Listing(t, p, i + 1)
  {
    hide Listing, IsChild;
    ListingFrom(t, p, i);
    if i < |t| && p <= t[i].name {
      ListingFrom(t, p, i + 1);
    }
  }

  lemma ChildName(p: Text, name: Text, c: Text)
    requires Plain(c)
    ensures IsChild(p, name) && name[|p| + 1..] == c <==> name == p + SEP + c
  {
    if IsChild(p, name) {
      assert name == p + SEP + name[|p| + 1..];
    }
    assert (p + SEP + c)[|p| + 1..] == c;
  }

  lemma NamedHead(t: seq<Entry>, i: nat, n: Text)
    requires i < |t|
    ensures Named(t[i..], n) == (if t[i].name == n then [t[i]] else []) + Named(t[i + 1..], n)
  {
    assert t[i..] == [t[i]] + t[i + 1..];
    NamedConcat([t[i]], t[i + 1..], n);
    assert [t[i]][..0] == [];
  }

  /** How often the component c should be listed in the directory n. */
  ghost function ChildCount(files: seq<File>, n: Text, c: Text): nat {
    (if IsFile(files, n + SEP + c) then 1 else 0) + if IsDir(files, n + SEP + c) then 1 else 0
  }

  /** The names of the children come behind that of their directory. */
  lemma NotBefore(files: seq<File>, filetable: seq<Entry>, dirs: set<Text>, t: seq<Entry>, n: Text, c: Text)
    requires TableOf(files, filetable, dirs, t) && FindDir(t, n, 0) < |t| && t[FindDir(t, n, 0)].name == n
    ensures forall k :: 0 <= k <= FindDir(t, n, 0) ==> t[k].name != n + SEP + c
  {
    hide LexLe, FindDir, IsClosure, Added, ProperFiles;
    var full := n + SEP + c;
    forall k | 0 <= k <= FindDir(t, n, 0)
      ensures t[k].name != full
    {
      assert LexLe(t[k].name, n) by {
        LexTotal(n, n);
      }
      PrefixFirst(n, full);
      LexTotal(n, full);
      assert |full| > |n|;
    }
  }

  /** The children of the directory n: each listed once as a file, if it is one, and once as a directory, if it is one. */
  lemma ListingOf(files: seq<File>, filetable: seq<Entry>, dirs: set<Text>, t: seq<Entry>, n: Text, c: Text)
    requires TableOf(files, filetable, dirs, t) && IsDir(files, n) && Plain(c)
    ensures var i := FindDir(t, n, 0);
            i < |t| && t[i].name == n &&
            multiset(Listing(t, n, i + 1))[c] == ChildCount(files, n, c)
  {
    hide Listing, Named, LexLe, IsFile, IsDir, FindDir, IsClosure, Added, ProperFiles, Sorted;
    var i := FindDir(t, n, 0);
    var full := n + SEP + c;
    OpensItself(files, filetable, dirs, t, n);
    ListingCounts(t, i, i + 1, c);
    EntriesOf(files, filetable, dirs, t, full);
    NotBefore(files, filetable, dirs, t, n, c);
    NoneNamed(t[..i + 1], full);
    assert t == t[..i + 1] + t[i + 1..];
    NamedConcat(t[..i + 1], t[i + 1..], full);
  }

  /** Everything listed is a component. */
  lemma {:induction false} ListedPlain(t: seq<Entry>, p: Text, i: nat)
    requires i <= |t|
    ensures forall c :: c in Listing(t, p, i) ==> Plain(c)
    decreases |t| - i
  {
    var k := Scan(t, p, i);
    if k < |t| && IsChild(p, t[k].name) {
      ListedPlain(t, p, k + 1);
    }
  }

  /** The list a caller gets for the directory n. */
  ghost function ListingAt(t: seq<Entry>, n: Text): seq<Text> {
    var i := FindDir(t, n, 0);
    if i < |t| && t[i].name == n then Listing(t, n, i + 1) else []
  }

  /** A file that is also a directory of another file. */
  ghost predicate Conflict(files: seq<File>) {
    exists n :: IsFile(files, n) && IsDir(files, n)
  }

  lemma ListingAtOf(files: seq<File>, filetable: seq<Entry>, dirs: set<Text>, t: seq<Entry>, n: Text, c: Text)
    requires TableOf(files, filetable, dirs, t) && IsDir(files, n) && Plain(c)
    ensures multiset(ListingAt(t, n))[c] == ChildCount(files, n, c)
  {
    hide TableOf, Listing, ChildCount;
    ListingOf(files, filetable, dirs, t, n, c);
  }

  /** A file that is also a directory is listed twice by its parent. */
  lemma ListedTwice(files: seq<File>, filetable: seq<Entry>, dirs: set<Text>, t: seq<Entry>, n: Text)
    returns (p: Text, c: Text)
    requires TableOf(files, filetable, dirs, t) && IsFile(files, n) && IsDir(files, n)
    ensures IsDir(files, p) && Plain(c) && multiset(ListingAt(t, p))[c] == 2
  {
    hide TableOf, Listing, IsFile, IsDir, ListingAt;
    ParentOf(files, filetable, dirs, t, n);
    var k := AfterLast(n) - 1;
    p, c := n[..k], n[k + 1..];
    assert n == p + SEP + c;
    ListingAtOf(files, filetable, dirs, t, p, c);
  }

  /** c is the name of a file or a directory in the directory n. */
  ghost predicate HasChild(files: seq<File>, n: Text, c: Text) {
    IsFile(files, n + SEP + c) || IsDir(files, n + SEP + c)
  }

  /** Every directory lists each of its children exactly once, and nothing else, exactly when no file is also a directory. */
  lemma OnceIffNoConflict(files: seq<File>, filetable: seq<Entry>, dirs: set<Text>, t: seq<Entry>)
    requires TableOf(files, filetable, dirs, t)
    ensures !Conflict(files) <==>
            forall n, c :: IsDir(files, n) && Plain(c) ==>
                     multiset(ListingAt(t, n))[c] == if HasChild(files, n, c) then 1 else 0
  {
    hide TableOf, Listing, IsFile, IsDir, ListingAt;
    if n :| IsFile(files, n) && IsDir(files, n) {
      var p, c := ListedTwice(files, filetable, dirs, t, n);
    } else {
      forall n, c | IsDir(files, n) && Plain(c)
        ensures multiset(ListingAt(t, n))[c] == if HasChild(files, n, c) then 1 else 0
      {
        ListingAtOf(files, filetable, dirs, t, n, c);
      }
    }
  }

  /** Behind its last separator a name that a path is or leads through has one component. */
  lemma LastComponent(f: Text, n: Text)
    requires Absolute(f) && n != [] && (n == f || n + SEP <= f)
    ensures var k := AfterLast(n) - 1; k >= 0 && Plain(n[k + 1..]) && n[..k] + SEP <= f
  {
    assert n <= f by {
      assert n <= n + SEP;
    }
    assert n[0] == f[0] == SLASH && n[0..] == n;
    var k := AfterLast(n) - 1;
    assert n[..k] + SEP == n[..k + 1];
  }

  /** Every file and every directory but the root lies in a directory. */
  lemma ParentOf(files: seq<File>, filetable: seq<Entry>, dirs: set<Text>, t: seq<Entry>, n: Text)
    requires TableOf(files, filetable, dirs, t) && (IsFile(files, n) || (IsDir(files, n) && n != []))
    ensures var k := AfterLast(n) - 1; k >= 0 && Plain(n[k + 1..]) && IsDir(files, n[..k])
  {
    hide IsClosure, IsTable, Added, AfterLast, Plain;
    var i :| 0 <= i < |files| && (files[i].name == n || n + SEP <= files[i].name);
    var f := files[i].name;
    assert ProperName(f);
    LastComponent(f, n);
  }

  /** What a walk from the root can find: the root itself, and whatever a directory that was found lists. */
  ghost predicate Reachable(t: seq<Entry>, n: Text)
    decreases |n|
  {
    n == [] || exists k :: 0 <= k < |n| && FoundAt(t, n, k) && Reachable(t, n[..k])
  }

  ghost predicate FoundAt(t: seq<Entry>, n: Text, k: nat)
    requires k < |n|
  {
    n[k] == SLASH && n[k + 1..] in ListingAt(t, n[..k])
  }

  lemma {:induction false} AllReachable(files: seq<File>, filetable: seq<Entry>, dirs: set<Text>, t: seq<Entry>, n: Text)
    requires TableOf(files, filetable, dirs, t) && (IsFile(files, n) || IsDir(files, n))
    ensures Reachable(t, n)
    decreases |n|
  {
    hide TableOf, Listing, IsFile, IsDir;
    if n != [] {
      ParentOf(files, filetable, dirs, t, n);
      var k := AfterLast(n) - 1;
      var c := n[k + 1..];
      assert n == n[..k] + SEP + c;
      ListingOf(files, filetable, dirs, t, n[..k], c);
      assert FoundAt(t, n, k);
      AllReachable(files, filetable, dirs, t, n[..k]);
    }
  }

  // ---------------------------------------------------------------- opening a file

  lemma OnlyOne(t: seq<Entry>, e: Entry)
    requires e in t && |Named(t, e.name)| == 1
    ensures Named(t, e.name) == [e]
  {
    NamedElements(t, e.name);
    assert e in Named(t, e.name);
  }

  /** Opening an added file finds its own entry, even when a directory has the same name. */
  lemma OpensFile(files: seq<File>, filetable: seq<Entry>, dirs: set<Text>, t: seq<Entry>, k: nat)
    requires TableOf(files, filetable, dirs, t) && k < |files|
    ensures var i := Find(t, files[k].name, 0); i < |t| && t[i] == filetable[k]
  {
    hide Named, LexLe;
    var n, e := files[k].name, filetable[k];
    var i := Find(t, n, 0);
    EntriesOf(files, filetable, dirs, t, n);
    assert IsFile(files, n) && e.name == n && e in filetable;
    OnlyOne(filetable, e);
    assert Named(t, n)[0] == e;
    NamedElements(t, n);
    assert Named(t, n)[0] in Named(t, n);
    NamedRank(t, i);
    NoneNamed(t[..i], n);
  }

  /** A name that was not added is not opened: it is missing or a directory. */
  lemma OpensNoOther(files: seq<File>, filetable: seq<Entry>, dirs: set<Text>, t: seq<Entry>, n: Text)
    requires TableOf(files, filetable, dirs, t) && !IsFile(files, n)
    ensures var i := Find(t, n, 0); (i < |t| <==> IsDir(files, n)) && (i < |t| ==> t[i].size == DIRMARK)
  {
    var i := Find(t, n, 0);
    EntriesOf(files, filetable, dirs, t, n);
    assert Named(filetable, n) == [];
    NamedElements(t, n);
    if i < |t| {
      assert t[i] in Named(t, n);
    }
    if IsDir(files, n) {
      assert DirEntry(n) in Named(t, n);
    }
  }

  // ---------------------------------------------------------------- the bytes of the image

  lemma LittleEndianReads(v: nat)
    requires v < TWO32
    ensures DWord(LittleEndian(v), 0) == v
  {
    var q1 := v / 0x100;
    var q2 := q1 / 0x100;
    DivModUnique(v, 0x1_0000, q2, 0x100 * (q1 % 0x100) + v % 0x100);
    DivModUnique(v, 0x100_0000, q2 / 0x100, 0x1_0000 * (q2 % 0x100) + 0x100 * (q1 % 0x100) + v % 0x100);
  }

  lemma DWordAt(s: seq<byte>, at: nat, v: nat)
    requires at + 4 <= |s| && s[at..at + 4] == LittleEndian(v) && v < TWO32
    ensures DWord(s, at) == v
  {
    LittleEndianReads(v);
    var w := s[at..at + 4];
    assert s[at] == w[0] && s[at + 1] == w[1] && s[at + 2] == w[2] && s[at + 3] == w[3];
  }

  lemma FourBytes(v: nat)
    ensures |LittleEndian(v)| == 4
  {
  }

  lemma RecordReads(s: seq<byte>, at: nat, a: nat, b: nat, c: nat)
    requires at + RECORD <= |s| && s[at..at + RECORD] == Record(a, b, c) && a < TWO32 && b < TWO32 && c < TWO32
    ensures DWord(s, at) == a && DWord(s, at + 4) == b && DWord(s, at + 8) == c
  {
    hide DWord, LittleEndian;
    var r := s[at..at + RECORD];
    SliceOfSlice(s, at, at + RECORD, 0, 4);
    SliceOfSlice(s, at, at + RECORD, 4, 8);
    SliceOfSlice(s, at, at + RECORD, 8, 12);
    assert |LittleEndian(a)| == |LittleEndian(b)| == |LittleEndian(c)| == 4 by {
      FourBytes(a);
      FourBytes(b);
      FourBytes(c);
    }
    assert r[0..4] == LittleEndian(a) && r[4..8] == LittleEndian(b) && r[8..12] == LittleEndian(c);
    DWordAt(s, at, a);
    DWordAt(s, at + 4, b);
    DWordAt(s, at + 8, c);
  }

  lemma {:induction false} RecordOf(t: seq<Entry>, n: nat, i: nat)
    requires AllAscii(t) && i < n <= |t|
    ensures MainTable(t, n)[RECORD * i..RECORD * i + RECORD] == Record(NameOffset(t, i), DataOffset(t, i), t[i].size)
  {
    hide Record, NameTable;
    MainTableStep(t, n);
    if i < n - 1 {
      RecordOf(t, n - 1, i);
      assert MainTable(t, n)[..RECORD * (n - 1)] == MainTable(t, n - 1);
      assert MainTable(t, n)[RECORD * i..RECORD * i + RECORD] == MainTable(t, n - 1)[RECORD * i..RECORD * i + RECORD];
    }
  }

  lemma {:induction false} NameIn(t: seq<Entry>, i: nat)
    requires AllAscii(t) && i < |t|
    ensures var at := |NameTable(t[..i])|; var n := t[i].name;
            at + |n| < |NameTable(t)| && NameTable(t)[at..at + |n|] == n && NameTable(t)[at + |n|] == 0
  {
    var k := |t| - 1;
    var front := NameTable(t[..k]);
    assert NameTable(t) == front + Encoded(t[k].name) + [0];
    if i < k {
      NameIn(t[..k], i);
      assert t[..k][..i] == t[..i];
      var at, n := |NameTable(t[..i])|, t[i].name;
      assert NameTable(t)[at..at + |n|] == front[at..at + |n|];
    }
  }

  lemma {:induction false} CStringAt(s: seq<byte>, off: nat, n: Text)
    requires off + |n| < |s| && s[off..off + |n|] == n && s[off + |n|] == 0 && 0 !in n
    ensures CString(s, off) == n
    decreases |n|
  {
    if n != [] {
      assert s[off] == n[0];
      assert s[off + 1..off + 1 + |n[1..]|] == n[1..];
      CStringAt(s, off + 1, n[1..]);
      assert n == [n[0]] + n[1..];
    }
  }

  /** Where the file data begins. */
  function Base(t: seq<Entry>): nat
    requires AllAscii(t)
  {
    TableSize(t) + |NameTable(t)|
  }

  lemma SerialiseRow(t: seq<Entry>, data: seq<byte>, i: nat)
    requires Encodable(t) && i < |t| && 0 !in t[i].name
    requires t[i].size != DIRMARK ==> t[i].offset + t[i].size <= |data|
    ensures RowAt(Serialise(t, data), t, Base(t), i)
  {
    hide MainTable, NameTable, Record, DWord, Encoded, CString;
    var main, names := MainTable(t, |t|), NameTable(t);
    var s := Serialise(t, data);
    assert s == main + (Record(0, 0, 0) + names + data);
    RecordOf(t, |t|, i);
    assert Packs(t, i);
    assert s[RECORD * i..RECORD * i + RECORD] == main[RECORD * i..RECORD * i + RECORD];
    RecordReads(s, RECORD * i, NameOffset(t, i), DataOffset(t, i), t[i].size);
    NameIn(t, i);
    var at, n, off := |NameTable(t[..i])|, t[i].name, NameOffset(t, i);
    assert s == (main + Record(0, 0, 0)) + names + data && |main + Record(0, 0, 0)| == TableSize(t);
    assert s[off..off + |n|] == names[at..at + |n|] && s[off + |n|] == names[at + |n|];
    CStringAt(s, off, n);
  }

  /** The image holds the table. */
  lemma SerialiseHolds(t: seq<Entry>, data: seq<byte>)
    requires Encodable(t) && |Serialise(t, data)| < TWO31
    requires forall i :: 0 <= i < |t| ==>
               0 !in t[i].name && (t[i].size != DIRMARK ==> t[i].offset + t[i].size <= |data|)
    ensures Holds(Serialise(t, data), t, Base(t)) && Serialise(t, data)[Base(t)..] == data
  {
    hide MainTable, NameTable, Record, DWord, RowAt;
    var s := Serialise(t, data);
    forall i | 0 <= i < |t|
      ensures RowAt(s, t, Base(t), i)
    {
      SerialiseRow(t, data, i);
    }
    var main := MainTable(t, |t|);
    assert s == main + Record(0, 0, 0) + (NameTable(t) + data);
    assert s[|main|..|main| + RECORD] == Record(0, 0, 0);
    RecordReads(s, RECORD * |t|, 0, 0, 0);
  }

  // ---------------------------------------------------------------- end to end

  /** Everything the writer knows about the table t of an image. */
  ghost predicate Written(files: seq<File>, filetable: seq<Entry>, data: seq<byte>, dirs: set<Text>, t: seq<Entry>) {
    ProperFiles(files) && Stored(files, filetable, data) && IsClosure(NamesOf(filetable), dirs) &&
    IsTable(filetable, dirs, t) && (forall e :: e in t ==> e in filetable || e.size == DIRMARK) &&
    Encodable(t) && |Serialise(t, data)| < TWO31
  }

  lemma WrittenTable(files: seq<File>, filetable: seq<Entry>, data: seq<byte>, dirs: set<Text>, t: seq<Entry>)
    requires Written(files, filetable, data, dirs, t)
    ensures TableOf(files, filetable, dirs, t)
  {
    hide ProperFiles, IsClosure, IsTable, MainTable, NameTable, Encodable, Packs;
    assert |data| < TWO31;
    forall e | e in filetable
      ensures e.size != DIRMARK
    {
      var i :| 0 <= i < |filetable| && filetable[i] == e;
      assert e.size <= |data|;
    }
  }

  /** Every name in the table is a C string. */
  lemma NoEndMarks(files: seq<File>, filetable: seq<Entry>, dirs: set<Text>, t: seq<Entry>, i: nat)
    requires TableOf(files, filetable, dirs, t) && i < |t|
    ensures 0 !in t[i].name
  {
    hide IsClosure, IsTable, LexLe;
    var n := t[i].name;
    EntriesOf(files, filetable, dirs, t, n);
    NamedRank(t, i);
    assert IsFile(files, n) || IsDir(files, n);
    var k :| 0 <= k < |files| && (files[k].name == n || n + SEP <= files[k].name);
    assert n <= files[k].name by {
      assert n <= n + SEP;
    }
    assert forall j :: 0 <= j < |n| ==> n[j] == files[k].name[j];
  }

  lemma WrittenHolds(files: seq<File>, filetable: seq<Entry>, data: seq<byte>, dirs: set<Text>, t: seq<Entry>)
    requires Written(files, filetable, data, dirs, t)
    ensures Holds(Serialise(t, data), t, Base(t)) && Serialise(t, data)[Base(t)..] == data
  {
    hide IsClosure, IsTable, LexLe, MainTable, NameTable, Named, RowAt, TableOf;
    WrittenTable(files, filetable, data, dirs, t);
    forall i | 0 <= i < |t|
      ensures 0 !in t[i].name && (t[i].size != DIRMARK ==> t[i].offset + t[i].size <= |data|)
    {
      NoEndMarks(files, filetable, dirs, t, i);
      assert t[i] in t;
    }
    SerialiseHolds(t, data);
  }

  /** The image shows each added file under its name, with its bytes. */
  lemma ImageShows(files: seq<File>, filetable: seq<Entry>, data: seq<byte>, dirs: set<Text>, t: seq<Entry>, k: nat)
    requires Written(files, filetable, data, dirs, t) && k < |files|
    ensures Holds(Serialise(t, data), t, Base(t)) && ShownAt(Serialise(t, data), t, Base(t), files[k])
  {
    hide IsClosure, IsTable, LexLe, MainTable, NameTable, Named, Holds, Serialise;
    WrittenTable(files, filetable, data, dirs, t);
    WrittenHolds(files, filetable, data, dirs, t);
    var s, b := Serialise(t, data), Base(t);
    OpensFile(files, filetable, dirs, t, k);
    var e := filetable[k];
    assert e in filetable;
    SerialiseLength(t, data);
    SliceOfSlice(s, b, |s|, e.offset, e.offset + e.size);
  }

  lemma SerialiseLength(t: seq<Entry>, data: seq<byte>)
    requires Encodable(t)
    ensures |Serialise(t, data)| == Base(t) + |data|
  {
  }

  /** Where open finds the file f, its bytes are those of f. */
  ghost predicate ShownAt(s: seq<byte>, t: seq<Entry>, base: nat, f: File) {
    var i := Find(t, f.name, 0);
    i < |t| && t[i].size == |f.content| != DIRMARK && base + t[i].offset + t[i].size <= |s| &&
    s[base + t[i].offset..base + t[i].offset + t[i].size] == f.content
  }

  lemma OneFileNames(root: Entry, file: Entry)
    requires root.name == [] && file.name == [0x2F, 0x61]
    ensures AllAscii([root, file]) && NameTable([root, file]) == [0, 0x2F, 0x61, 0]
    ensures [root, file][..0] == [] && [root, file][..1] == [root] && NameTable([]) == [] && NameTable([root]) == [0]
  {
    assert [root, file][..1] == [root] && [root][..0] == [];
    assert NameTable([root]) == NameTable([]) + Encoded([]) + [0];
    assert Encoded([0x2F, 0x61]) == [0x2F, 0x61];
    assert NameTable([root, file]) == NameTable([root]) + Encoded(file.name) + [0];
  }

  lemma OneFileRecords()
    ensures Record(36, 40, 0xFFFF_FFFF) == [36, 0, 0, 0, 40, 0, 0, 0, 0xFF, 0xFF, 0xFF, 0xFF]
    ensures Record(37, 40, 2) == [37, 0, 0, 0, 40, 0, 0, 0, 2, 0, 0, 0]
    ensures Record(0, 0, 0) == [0, 0, 0, 0, 0, 0, 0, 0, 0, 0, 0, 0]
  {
  }

  /** The image of one file, /a with the bytes 7 and 8: the records of the root and of the file (name, data, size), the end
      record, the two names, and the data. */
  lemma OneFileImage()
    ensures var t := [Entry([], 0, 0xFFFF_FFFF), Entry([0x2F, 0x61], 0, 2)];
            && Encodable(t)
            && Serialise(t, [7, 8]) ==
                 [36, 0, 0, 0, 40, 0, 0, 0, 0xFF, 0xFF, 0xFF, 0xFF] + [37, 0, 0, 0, 40, 0, 0, 0, 2, 0, 0, 0]
                 + [0, 0, 0, 0, 0, 0, 0, 0, 0, 0, 0, 0] + [0, 0x2F, 0x61, 0] + [7, 8]
  {
    hide Record, NameTable, MainTable;
    var root, file := Entry([], 0, 0xFFFF_FFFF), Entry([0x2F, 0x61], 0, 2);
    var t := [root, file];
    OneFileNames(root, file);
    OneFileRecords();
    MainTableStep(t, 0);
    MainTableStep(t, 1);
    MainTableStep(t, 2);
  }

  /** From the added files to a directory listing read from their image: each child is listed once as a file, if it is one,
      and once as a directory, if it is one, unless some child's name is too long for a directory entry. */
  method ListFrom(fs: InitFs, pathname: Text, nameMax: nat)
    returns (image: Option<seq<byte>>, ret: int, names: seq<Text>)
    requires fs.Valid() && ProperFiles(fs.files)
    ensures image.Some? && |image.value| < TWO31 && IsDir(fs.files, Rstrip(pathname)) ==>
              var n := Rstrip(pathname);
              (ret == 1 <==> forall c :: Plain(c) && ChildCount(fs.files, n, c) > 0 ==>
                                           |c| < nameMax) &&
              (ret == 1 ==>
                (forall c :: c in names ==> Plain(c)) &&
                forall c :: Plain(c) ==>
                  multiset(names)[c] == ChildCount(fs.files, n, c))
  {
    hide ChildCount, IsDir, IsClosure, IsTable, Serialise, Holds, ProperFiles, Stored, NamesOf;
    image := fs.ToString();
    ghost var dirs, t :| IsImage(fs.filetable, fs.data, dirs, t, image);
    ret, names := -1, [];
    if image.None? || |image.value| >= TWO31 {
      return;
    }
    assert Written(fs.files, fs.filetable, fs.data, dirs, t);
    WrittenHolds(fs.files, fs.filetable, fs.data, dirs, t);
    ret, names := ListDir(image.value, pathname, nameMax, t, Base(t));
    ghost var n := Rstrip(pathname);
    if IsDir(fs.files, n) {
      WrittenTable(fs.files, fs.filetable, fs.data, dirs, t);
      OpensItself(fs.files, fs.filetable, dirs, t, n);
      ghost var all := Listing(t, n, FindDir(t, n, 0) + 1);
      ListedPlain(t, n, FindDir(t, n, 0) + 1);
      forall c | Plain(c)
        ensures multiset(all)[c] == ChildCount(fs.files, n, c)
      {
        ListingOf(fs.files, fs.filetable, dirs, t, n, c);
      }
      LongestListed(fs.files, n, all, nameMax);
    }
  }

  lemma LongestListed(files: seq<File>, n: Text, all: seq<Text>, nameMax: nat)
    requires forall c :: c in all ==> Plain(c)
    requires forall c :: Plain(c) ==> multiset(all)[c] == ChildCount(files, n, c)
    ensures (forall k :: 0 <= k < |all| ==> |all[k]| < nameMax) <==>
            forall c :: Plain(c) && ChildCount(files, n, c) > 0 ==> |c| < nameMax
  {
    hide ChildCount, Plain;
    if forall k :: 0 <= k < |all| ==> |all[k]| < nameMax {
      forall c | Plain(c) && ChildCount(files, n, c) > 0
        ensures |c| < nameMax
      {
        assert c in multiset(all);
        assert c in all;
      }
    } else {
      var k :| 0 <= k < |all| && |all[k]| >= nameMax;
      var c := all[k];
      assert c in all && c in multiset(all);
    }
  }

  /** A file and a directory of one name: its parent lists the name twice. */
  lemma ConflictExample()
    ensures var a: Text := [SLASH, 0x61];
            var files := [File(a, []), File(a + SEP + [0x62], [])];
            ProperFiles(files) && Conflict(files)
  {
    var a: Text := [SLASH, 0x61];
    var files := [File(a, []), File(a + SEP + [0x62], [])];
    assert files[0].name == a && IsFile(files, a);
    assert a + SEP <= files[1].name && IsDir(files, a);
  }
}
