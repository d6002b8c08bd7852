/** The descriptor table: files of the initfs image below /boot, the serial line and the framebuffer. */
module Descriptors {

  import opened Wrappers
  import opened Bits
  import opened PosixPath
  import opened MkInitfs
  import opened Initfs
  import opened InitfsTree

  // ---------------------------------------------------------------- which file system serves a path

  const HANDLER_NONE: nat := 0
  const HANDLER_FAT: nat := 1
  const HANDLER_INITFS: nat := 2
  const HANDLER_FRAMEBUFFER: nat := 3
  const HANDLER_SERIAL: nat := 4
  const HANDLER_ROOT: nat := 5
  const HANDLER_CNT: nat := 6

  /** /sd, /boot, /fb and /serial; the other handlers have no name. */
  function HandlerName(h: nat): Option<Text> {
    if h == HANDLER_FAT then Some([0x2F, 0x73, 0x64])
    else if h == HANDLER_INITFS then Some([0x2F, 0x62, 0x6F, 0x6F, 0x74])
    else if h == HANDLER_FRAMEBUFFER then Some([0x2F, 0x66, 0x62])
    else if h == HANDLER_SERIAL then Some([0x2F, 0x73, 0x65, 0x72, 0x69, 0x61, 0x6C])
    else None
  }

  function CodesOf(s: string): Text {
    seq(|s|, i requires 0 <= i < |s| => s[i] as nat)
  }

  lemma HandlerNames()
    ensures HandlerName(HANDLER_FAT) == Some(CodesOf("/sd")) && HandlerName(HANDLER_INITFS) == Some(CodesOf("/boot"))
    ensures HandlerName(HANDLER_FRAMEBUFFER) == Some(CodesOf("/fb")) && HandlerName(HANDLER_SERIAL) == Some(CodesOf("/serial"))
    ensures SEP == CodesOf("/") && CURDIR == CodesOf(".") && PARDIR == CodesOf("..")
  {
    assert CodesOf("/sd") == [0x2F, 0x73, 0x64] && CodesOf("/fb") == [0x2F, 0x66, 0x62];
    assert CodesOf("/boot") == [0x2F, 0x62, 0x6F, 0x6F, 0x74];
    assert CodesOf("/serial") == [0x2F, 0x73, 0x65, 0x72, 0x69, 0x61, 0x6C];
    assert CodesOf("/") == [0x2F] && CodesOf(".") == [0x2E] && CodesOf("..") == [0x2E, 0x2E];
  }

  /** The path is the handler's own or lies below it. */
  predicate Under(h: nat, path: Text) {
    var name := HandlerName(h);
    name.Some? && (path == name.value || name.value + SEP <= path)
  }

  /** handler_for_path's test. */
  lemma UnderTest(h: nat, path: Text)
    requires HandlerName(h).Some?
    ensures var name := HandlerName(h).value; var n := |name|;
            Under(h, path) <==> name <= path && (|path| == n || path[n] == SLASH)
  {
    var name := HandlerName(h).value;
    var n := |name|;
    assert name <= name + SEP && (name + SEP)[n] == SLASH;
    if name <= path && |path| > n && path[n] == SLASH {
      assert name + SEP <= path;
    }
  }

  /** The handler's name ends at the path's second separator. */
  lemma UnderEnds(h: nat, path: Text)
    requires Under(h, path)
    ensures path != [] && |HandlerName(h).value| == 1 + FirstSlash(path[1..]) && HandlerName(h).value <= path
  {
    var name := HandlerName(h).value;
    if path == name {
      FirstSlashAt(name[1..], []);
    } else {
      var rest := path[|name| + 1..];
      assert path[1..] == name[1..] + SEP + rest;
      FirstSlashAt(name[1..], rest);
      assert name <= name + SEP;
    }
  }

  lemma OneHandler(g: nat, h: nat, path: Text)
    requires Under(g, path) && Under(h, path)
    ensures g == h
  {
    UnderEnds(g, path);
    UnderEnds(h, path);
    var a, b := HandlerName(g).value, HandlerName(h).value;
    assert a == b;
    assert a[1] == b[1];
  }

  /** What is left of the path below its handler. */
  function Below(h: nat, path: Text): Text
    requires Under(h, path)
  {
    path[|HandlerName(h).value|..]
  }

  /** The path belongs to some file system, or is the root that lists them. */
  ghost predicate HasHandler(path: Text) {
    path == SEP || exists h :: Under(h, path)
  }

  method HandlerForPath(pathname: Text) returns (handler: nat, fspath: Text)
    ensures forall h :: Under(h, pathname) ==> handler == h
    ensures handler == HANDLER_NONE <==> !HasHandler(pathname)
    ensures handler == HANDLER_ROOT <==> pathname == SEP
    ensures handler == HANDLER_NONE || handler == HANDLER_ROOT ==> forall h :: !Under(h, pathname)
    ensures handler != HANDLER_NONE && handler != HANDLER_ROOT ==>
              Under(handler, pathname) && fspath == Below(handler, pathname)
  {
    handler, fspath := 1, [];
    while handler < HANDLER_CNT
      invariant 1 <= handler <= HANDLER_CNT
      invariant forall h :: 1 <= h < handler ==> !Under(h, pathname)
    {
      var name := HandlerName(handler);
      if name.Some? {
        UnderTest(handler, pathname);
      }
      if name.Some? && name.value <= pathname {
        var n := |name.value|;
        if |pathname| == n || pathname[n] == SLASH {
          forall h | Under(h, pathname)
            ensures h == handler
          {
            OneHandler(h, handler, pathname);
          }
          fspath := pathname[n..];
          return;
        }
      }
      handler := handler + 1;
    }
    if pathname == SEP {
      handler := HANDLER_ROOT;
    } else {
      handler := HANDLER_NONE;
    }
  }

  // ---------------------------------------------------------------- what descriptors mean

  const MAX_OPEN_FILES: nat := 100

  /** A descriptor: closed, at its own position in the bytes of a file, or a character device. */
  datatype Desc = Closed | Boot(content: seq<byte>, pos: nat) | Framebuffer | Serial

  /** What a call returns, what it sets errno to, and the bytes it delivers. */
  datatype Out = Out(ret: int, errno: Errno, bytes: seq<byte>)

  datatype Op =
    | OpenOp(path: Text)
    | ReadOp(fd: nat, count: nat, line: seq<byte>)
    | LseekOp(fd: nat, offset: int, whence: Whence)
    | CloseOp(cfd: int)
    | DupOp(fd: nat)

  /** Calls the model covers: no path below /sd, and a descriptor inside the table where the code does not check it. The
      serial line delivers what a read of it waits for. */
  ghost predicate Covered(op: Op) {
    match op
    case OpenOp(path) => !Under(HANDLER_FAT, path)
    case ReadOp(_, count, line) => count < TWO31 && count <= |line|
    case LseekOp(fd, offset, _) => fd < MAX_OPEN_FILES && -TWO31 <= offset < TWO31
    case CloseOp(_) => true
    case DupOp(fd) => fd < MAX_OPEN_FILES
  }

  /** The lowest closed descriptor from i on, or the size of the table. */
  ghost function FreeFd(state: seq<Desc>, i: nat): (r: nat)
    requires i <= |state|
    ensures i <= r <= |state| && (r < |state| ==> state[r].Closed?) && forall k :: i <= k < r ==> !state[k].Closed?
    decreases |state| - i
  {
    if i == |state| || state[i].Closed? then i else FreeFd(state, i + 1)
  }

  ghost function ContentOf(files: seq<File>, n: Text): seq<byte>
    requires IsFile(files, n)
  {
    var k :| 0 <= k < |files| && files[k].name == n;
    files[k].content
  }

  /** What opening a path gives, if a descriptor is free: a new descriptor, or errno. */
  ghost function Opened(files: seq<File>, path: Text): (Desc, Errno) {
    if Under(HANDLER_INITFS, path) then
      var n := Below(HANDLER_INITFS, path);
      if IsFile(files, n) then (Boot(ContentOf(files, n), 0), NotSet)
      else (Closed, if IsDir(files, n) then NotSet else Enoent)
    else if Under(HANDLER_FRAMEBUFFER, path) then (Framebuffer, NotSet)
    else if Under(HANDLER_SERIAL, path) then
      if Below(HANDLER_SERIAL, path) == [SLASH, 0x30] then (Serial, NotSet) else (Closed, Enoent)
    else (Closed, Eisdir)
  }

  ghost function Fails(state: seq<Desc>, e: Errno): (seq<Desc>, Out) {
    (state, Out(-1, e, []))
  }

  /** A new descriptor at the lowest free place. */
  ghost function Placed(state: seq<Desc>, d: Desc): (seq<Desc>, Out) {
    var fd := FreeFd(state, 0);
    if fd == |state| then Fails(state, Emfile) else (state[fd := d], Out(fd, NotSet, []))
  }

  /** Every position lies in its file, and the standard descriptors are the serial line. */
  ghost predicate Sane(state: seq<Desc>) {
    |state| == MAX_OPEN_FILES && state[0].Serial? && state[1].Serial? && state[2].Serial? &&
    forall i :: 0 <= i < MAX_OPEN_FILES && state[i].Boot? ==> state[i].pos <= |state[i].content|
  }

  /** One call on the abstract table. */
  ghost function Effect(files: seq<File>, state: seq<Desc>, op: Op): (r: (seq<Desc>, Out))
    requires Sane(state) && Covered(op)
    ensures Sane(r.0)
  {
    match op
    case OpenOp(path) =>
      var (d, e) := Opened(files, path);
      if !HasHandler(path) then Fails(state, Enoent)
      else if d.Closed? then Fails(state, if FreeFd(state, 0) == |state| then Emfile else e)
      else Placed(state, d)
    case ReadOp(fd, count, line) =>
      if fd >= MAX_OPEN_FILES then Fails(state, Ebadf)
      else (match state[fd]
        case Boot(content, pos) =>
          var n := Min(count, |content| - pos);
          (state[fd := Boot(content, pos + n)], Out(n, NotSet, content[pos..pos + n]))
        case Serial =>
          var n := if fd == 0 then Min(count, 1) else count;
          (state, Out(n, NotSet, line[..n]))
        case _ => Fails(state, Ebadf))
    case LseekOp(fd, offset, whence) =>
      if state[fd].Boot? then
        var to := offset + WhenceBase(whence, state[fd].pos, |state[fd].content|);
        if !whence.Unknown? && 0 <= to < |state[fd].content| then
          (state[fd := state[fd].(pos := to)], Out(to, NotSet, []))
        else Fails(state, Einval)
      else Fails(state, Ebadf)
    case CloseOp(fd) =>
      if fd <= 2 then Fails(state, NotSet)
      else if fd >= MAX_OPEN_FILES then Fails(state, Ebadf)
      else (state[fd := Closed], Out(0, NotSet, []))
    case DupOp(fd) =>
      if state[fd].Closed? then Fails(state, Ebadf) else Placed(state, state[fd])
  }

  /** What each call means, spelled out. A read delivers the bytes from the position on and moves behind them. */
  lemma ReadMeans(files: seq<File>, state: seq<Desc>, fd: nat, count: nat, line: seq<byte>)
    requires Sane(state) && Covered(ReadOp(fd, count, line))
    ensures var (s, out) := Effect(files, state, ReadOp(fd, count, line));
            if fd >= 100 || state[fd].Closed? || state[fd].Framebuffer? then s == state && out == Out(-1, Ebadf, [])
            else match state[fd]
              case Boot(c, p) =>
                && out.ret == (if count <= |c| - p then count else |c| - p) && out.errno == NotSet
                && out.bytes == c[p..p + out.ret] && s == state[fd := Boot(c, p + out.ret)]
              case Serial =>
                && out.ret == (if fd == 0 && count > 1 then 1 else count) && out.errno == NotSet
                && out.bytes == line[..out.ret] && s == state
  {
  }

  /** Opening takes the lowest free descriptor for a file below /boot, at the start of its bytes, for /fb, and for /serial/0; the
      errors are those the code sets. */
  lemma OpenMeans(files: seq<File>, state: seq<Desc>, path: Text)
    requires Sane(state) && Covered(OpenOp(path))
    ensures var (s, out) := Effect(files, state, OpenOp(path));
            var full := forall i :: 0 <= i < 100 ==> !state[i].Closed?;
            && (out.ret >= 0 ==> out.ret < 100 && state[out.ret].Closed? && forall i :: 0 <= i < out.ret ==> !state[i].Closed?)
            && out.bytes == []
            && (if Under(HANDLER_INITFS, path) && IsFile(files, path[5..]) then
                  if full then s == state && out == Out(-1, Emfile, [])
                  else out.ret >= 0 && out.errno == NotSet && s == state[out.ret := Boot(ContentOf(files, path[5..]), 0)]
                else if Under(HANDLER_INITFS, path) then
                  s == state && out == Out(-1, if full then Emfile else if IsDir(files, path[5..]) then NotSet else Enoent, [])
                else if Under(HANDLER_FRAMEBUFFER, path) then
                  if full then s == state && out == Out(-1, Emfile, [])
                  else out.ret >= 0 && out.errno == NotSet && s == state[out.ret := Framebuffer]
                else if path == CodesOf("/serial/0") then
                  if full then s == state && out == Out(-1, Emfile, [])
                  else out.ret >= 0 && out.errno == NotSet && s == state[out.ret := Serial]
                else if Under(HANDLER_SERIAL, path) then
                  s == state && out == Out(-1, if full then Emfile else Enoent, [])
                else if path == CodesOf("/") then s == state && out == Out(-1, if full then Emfile else Eisdir, [])
                else s == state && out == Out(-1, Enoent, []))
  {
    HandlerNames();
    hide IsFile, IsDir, ContentOf, HandlerName;
    NameLengths();
    OneOfThem(path);
  }

  lemma NameLengths()
    ensures HandlerName(HANDLER_INITFS).Some? && |HandlerName(HANDLER_INITFS).value| == 5
    ensures HandlerName(HANDLER_SERIAL).Some? && |HandlerName(HANDLER_SERIAL).value| == 7
    ensures forall h :: HandlerName(h).Some? ==> h in {HANDLER_FAT, HANDLER_INITFS, HANDLER_FRAMEBUFFER, HANDLER_SERIAL}
    ensures CodesOf("/serial/0") == HandlerName(HANDLER_SERIAL).value + [SLASH, 0x30]
    ensures forall h :: HandlerName(h).Some? ==> |HandlerName(h).value| > 1
  {
    assert CodesOf("/serial/0") == HandlerName(HANDLER_SERIAL).value + [SLASH, 0x30];
  }

  /** A path lies below one handler at most. */
  lemma OneOfThem(path: Text)
    ensures forall g, h :: Under(g, path) && Under(h, path) ==> g == h
    ensures Under(HANDLER_SERIAL, path) ==>
              (Below(HANDLER_SERIAL, path) == [SLASH, 0x30] <==> path == HandlerName(HANDLER_SERIAL).value + [SLASH, 0x30])
    ensures path == HandlerName(HANDLER_SERIAL).value + [SLASH, 0x30] ==> Under(HANDLER_SERIAL, path)
  {
    forall g, h | Under(g, path) && Under(h, path) ensures g == h {
      OneHandler(g, h, path);
    }
    var name := HandlerName(HANDLER_SERIAL).value;
    assert name + [SLASH, 0x30] == name + SEP + [0x30];
    UnderTest(HANDLER_SERIAL, path);
    if Under(HANDLER_SERIAL, path) {
      assert path == path[..|name|] + path[|name|..];
    }
  }

  /** Set counts from the start, Cur from the position, End from the end; the end itself is out of reach. */
  lemma LseekMeans(files: seq<File>, state: seq<Desc>, fd: nat, offset: int, whence: Whence)
    requires Sane(state) && Covered(LseekOp(fd, offset, whence))
    ensures var (s, out) := Effect(files, state, LseekOp(fd, offset, whence));
            match state[fd]
            case Boot(c, p) =>
              var to := match whence
                        case Set => offset
                        case Cur => p + offset
                        case End => |c| + offset
                        case Unknown => -1;
              if 0 <= to < |c| then s == state[fd := Boot(c, to)] && out == Out(to, NotSet, [])
              else s == state && out == Out(-1, Einval, [])
            case _ => s == state && out == Out(-1, Ebadf, [])
  {
  }

  /** Closing frees a descriptor, but for the first three; a copy takes the lowest free descriptor. */
  lemma CloseDupMean(files: seq<File>, state: seq<Desc>, fd: nat)
    requires Sane(state) && fd < 100
    ensures Effect(files, state, CloseOp(fd)) ==
            if fd <= 2 then (state, Out(-1, NotSet, [])) else (state[fd := Closed], Out(0, NotSet, []))
    ensures var (s, out) := Effect(files, state, DupOp(fd));
            if state[fd].Closed? then s == state && out == Out(-1, Ebadf, [])
            else if forall i :: 0 <= i < 100 ==> !state[i].Closed? then s == state && out == Out(-1, Emfile, [])
            else
              && 0 <= out.ret < 100 && state[out.ret].Closed? && (forall i :: 0 <= i < out.ret ==> !state[i].Closed?)
              && s == state[out.ret := state[fd]] && out.errno == NotSet && out.bytes == []
  {
  }

  /** The copy of a file's descriptor goes on where the original stands. */
  lemma DupGoesOn(files: seq<File>, state: seq<Desc>, fd: nat, count: nat, line: seq<byte>)
    requires Sane(state) && fd < 100 && state[fd].Boot? && Covered(ReadOp(fd, count, line))
    ensures var (s, out) := Effect(files, state, DupOp(fd));
            out.ret >= 0 ==>
              var c, p := state[fd].content, state[fd].pos;
              var read := Effect(files, s, ReadOp(out.ret, count, line)).1;
              read.ret == Min(count, |c| - p) && read.bytes == c[p..p + read.ret]
  {
    hide Effect;
    CloseDupMean(files, state, fd);
    var (s, out) := Effect(files, state, DupOp(fd));
    if out.ret >= 0 {
      ReadMeans(files, s, out.ret, count, line);
    }
  }

  /** A seek by nothing tells the position, unless that is the end. */
  lemma SeekTells(files: seq<File>, state: seq<Desc>, fd: nat)
    requires Sane(state) && fd < 100 && state[fd].Boot?
    ensures var c, p := state[fd].content, state[fd].pos;
            Effect(files, state, LseekOp(fd, 0, Cur)) ==
            if p < |c| then (state, Out(p, NotSet, [])) else (state, Out(-1, Einval, []))
  {
    LseekMeans(files, state, fd, 0, Cur);
    assert state[fd := state[fd]] == state;
  }

  /** A seek to k bytes before the end and a read of k bytes deliver the last k bytes of the file. */
  lemma LastBytes(files: seq<File>, state: seq<Desc>, fd: nat, k: nat, line: seq<byte>)
    requires Sane(state) && fd < 100 && state[fd].Boot? && 0 < k <= |state[fd].content|
    requires Covered(ReadOp(fd, k, line)) && Covered(LseekOp(fd, -(k as int), End))
    ensures var c := state[fd].content;
            var (s, out) := Effect(files, state, LseekOp(fd, -(k as int), End));
            && out == Out(|c| - k, NotSet, [])
            && Effect(files, s, ReadOp(fd, k, line)).1 == Out(k, NotSet, c[|c| - k..])
  {
    hide Effect;
    LseekMeans(files, state, fd, -(k as int), End);
    ReadMeans(files, Effect(files, state, LseekOp(fd, -(k as int), End)).0, fd, k, line);
  }

  // ---------------------------------------------------------------- the table

  /** What the image must show: each file's bytes where open finds it, and no file under any other name. */
  ghost predicate Serves(s: seq<byte>, t: seq<Entry>, base: nat, files: seq<File>) {
    Holds(s, t, base) && ProperFiles(files) &&
    (forall k :: 0 <= k < |files| ==> ShownAt(s, t, base, files[k])) &&
    forall n :: !IsFile(files, n) ==>
      var i := Find(t, n, 0); (i < |t| <==> IsDir(files, n)) && (i < |t| ==> t[i].size == DIRMARK)
  }

  /** The image that tostring makes of some files serves them. */
  lemma ImageServes(files: seq<File>, filetable: seq<Entry>, data: seq<byte>, dirs: set<Text>, t: seq<Entry>)
    requires Written(files, filetable, data, dirs, t)
    ensures Serves(Serialise(t, data), t, Base(t), files)
  {
    hide ShownAt, Serialise, IsFile, IsDir, Holds, IsClosure, IsTable, TableOf;
    WrittenHolds(files, filetable, data, dirs, t);
    WrittenTable(files, filetable, data, dirs, t);
    forall k | 0 <= k < |files|
      ensures ShownAt(Serialise(t, data), t, Base(t), files[k])
    {
      ImageShows(files, filetable, data, dirs, t, k);
    }
    forall n | !IsFile(files, n)
      ensures var i := Find(t, n, 0); (i < |t| <==> IsDir(files, n)) && (i < |t| ==> t[i].size == DIRMARK)
    {
      OpensNoOther(files, filetable, dirs, t, n);
    }
  }

  class Slot {
    var handler: nat
    const file: OpenFile

    constructor ()
      ensures handler == HANDLER_NONE && fresh(this) && fresh(file)
    {
      handler := HANDLER_NONE;
      file := new OpenFile();
    }

    /** The slot carries the descriptor d. */
    ghost predicate Carries(image: seq<byte>, d: Desc)
      reads this, file
    {
      Fits(handler, image, d)
    }

    /** With this handler the slot's file carries the descriptor. */
    ghost predicate Fits(handler: nat, image: seq<byte>, d: Desc)
      reads file
    {
      match d
      case Closed => handler == HANDLER_NONE
      case Framebuffer => handler == HANDLER_FRAMEBUFFER
      case Serial => handler == HANDLER_SERIAL
      case Boot(content, pos) =>
        handler == HANDLER_INITFS && file.Inside(image) && file.pos == pos && file.size == |content| &&
        image[file.data..file.data + file.size] == content
    }
  }

  class OsFiles {
    const image: seq<byte>
    const openfiles: seq<Slot>
    ghost const t: seq<Entry>
    ghost const base: nat
    ghost const files: seq<File>
    ghost var state: seq<Desc>

    ghost predicate Distinct() {
      forall i, j :: 0 <= i < j < |openfiles| ==> openfiles[i] != openfiles[j] && openfiles[i].file != openfiles[j].file
    }

    ghost function Slots(): set<object> {
      (set i | 0 <= i < |openfiles| :: openfiles[i]) + (set i | 0 <= i < |openfiles| :: openfiles[i].file)
    }

    ghost predicate Valid()
      reads this, Slots()
    {
      |openfiles| == MAX_OPEN_FILES && Sane(state) && Distinct() && Serves(image, t, base, files) &&
      forall i :: 0 <= i < MAX_OPEN_FILES ==> openfiles[i].Carries(image, state[i])
    }

    /** os_init_stdio on a table of closed slots. */
    constructor (image: seq<byte>, ghost t: seq<Entry>, ghost base: nat, ghost files: seq<File>)
      requires Serves(image, t, base, files)
      ensures Valid() && this.image == image && this.files == files
      ensures state == Standard()
      ensures fresh(Slots())
    {
      hide Serves;
      var slots: seq<Slot> := [];
      for i := 0 to MAX_OPEN_FILES
        invariant |slots| == i
        invariant forall j :: 0 <= j < i ==> fresh(slots[j]) && fresh(slots[j].file)
        invariant forall j :: 0 <= j < i ==> slots[j].handler == if j < 3 then HANDLER_SERIAL else HANDLER_NONE
        invariant forall j, k :: 0 <= j < k < i ==> slots[j] != slots[k] && slots[j].file != slots[k].file
      {
        var slot := new Slot();
        if i < 3 {
          slot.handler := HANDLER_SERIAL;
        }
        slots := slots + [slot];
      }
      this.image, this.t, this.base, this.files := image, t, base, files;
      openfiles := slots;
      state := Standard();
    }

    /** The lowest slot that is not in use. */
    method FindFree() returns (fd: nat)
      requires Valid()
      ensures fd == FreeFd(state, 0)
    {
      fd := 0;
      while fd < MAX_OPEN_FILES && openfiles[fd].handler != HANDLER_NONE
        invariant 0 <= fd <= MAX_OPEN_FILES && FreeFd(state, 0) == FreeFd(state, fd)
      {
        assert openfiles[fd].Carries(image, state[fd]);
        fd := fd + 1;
      }
      if fd < MAX_OPEN_FILES {
        assert openfiles[fd].Carries(image, state[fd]);
      }
    }

    method Open(pathname: Text) returns (fd: int, errno: Errno)
      requires Valid() && Covered(OpenOp(pathname))
      modifies this`state, Slots()
      ensures Valid() && (state, Out(fd, errno, [])) == Effect(files, old(state), OpenOp(pathname))
    {
      hide Serves, Under, Opened;
      var handler, fspath := HandlerForPath(pathname);
      if handler == HANDLER_NONE {
        return -1, Enoent;
      }
      fd := FindFree();
      if fd == MAX_OPEN_FILES {
        return -1, Emfile;
      }
      var slot := openfiles[fd];
      var error;
      error, errno := OpenIn(slot, handler, pathname, fspath);
      if error == 0 {
        slot.handler := handler;
        state := state[fd := Opened(files, pathname).0];
      } else {
        fd := -1;
      }
    }

    /** The open call of the file system that serves the path. */
    method OpenIn(slot: Slot, handler: nat, pathname: Text, fspath: Text) returns (error: int, errno: Errno)
      requires Serves(image, t, base, files) && !Under(HANDLER_FAT, pathname)
      requires if handler == HANDLER_ROOT then pathname == SEP && forall h :: !Under(h, pathname)
               else Under(handler, pathname) && fspath == Below(handler, pathname) && forall h :: Under(h, pathname) ==> h == handler
      modifies slot.file
      ensures var (d, e) := Opened(files, pathname);
              if d.Closed? then error == -1 && errno == e
              else error == 0 && errno == NotSet && slot.Fits(handler, image, d) && (d.Boot? ==> d.pos == 0)
    {
      hide Serves, Under, HandlerName;
      error, errno := 0, NotSet;
      if handler == HANDLER_INITFS {
        error, errno := OpenBoot(slot, fspath);
      } else if handler == HANDLER_FRAMEBUFFER {
      } else if handler == HANDLER_SERIAL {
        if fspath != [SLASH, 0x30] {
          error, errno := -1, Enoent;
        }
      } else {
        error, errno := -1, Eisdir;
      }
    }

    /** initfs_open on a slot that is not in use yet. */
    method OpenBoot(slot: Slot, fspath: Text) returns (error: int, errno: Errno)
      requires Serves(image, t, base, files)
      modifies slot.file
      ensures if IsFile(files, fspath) then
                error == 0 && errno == NotSet && slot.file.Inside(image) && slot.file.pos == 0 &&
                slot.file.size == |ContentOf(files, fspath)| &&
                image[slot.file.data..slot.file.data + slot.file.size] == ContentOf(files, fspath)
              else error == -1 && errno == if IsDir(files, fspath) then NotSet else Enoent
    {
      hide Holds, IsDir, ProperFiles;
      error, errno := slot.file.Open(image, fspath, t, base);
      if IsFile(files, fspath) {
        var k :| 0 <= k < |files| && files[k].name == fspath && files[k].content == ContentOf(files, fspath);
        assert ShownAt(image, t, base, files[k]);
      }
    }

    method Read(fd: nat, count: nat, line: seq<byte>) returns (ret: int, errno: Errno, buf: seq<byte>)
      requires Valid() && Covered(ReadOp(fd, count, line))
      modifies this`state, Slots()
      ensures Valid() && (state, Out(ret, errno, buf)) == Effect(files, old(state), ReadOp(fd, count, line))
    {
      hide Serves, Opened, FreeFd, Placed;
      if fd >= MAX_OPEN_FILES {
        return -1, Ebadf, [];
      }
      var slot := openfiles[fd];
      assert slot.Carries(image, state[fd]);
      if slot.handler == HANDLER_INITFS {
        buf, ret := slot.file.Read(image, count);
        errno := NotSet;
        state := state[fd := Boot(state[fd].content, state[fd].pos + ret)];
      } else if slot.handler == HANDLER_SERIAL {
        var n := if fd == 0 && count > 0 then 1 else count;
        return n, NotSet, line[..n];
      } else {
        return -1, Ebadf, [];
      }
    }

    method Lseek(fd: nat, offset: int, whence: Whence) returns (ret: int, errno: Errno)
      requires Valid() && Covered(LseekOp(fd, offset, whence))
      modifies this`state, Slots()
      ensures Valid() && (state, Out(ret, errno, [])) == Effect(files, old(state), LseekOp(fd, offset, whence))
      ensures match old(state)[fd]
              case Boot(content, pos) =>
                var to := match whence
                          case Set => offset
                          case Cur => pos + offset
                          case End => |content| + offset
                          case Unknown => -1;
                if 0 <= to < |content| then ret == to && errno == NotSet && state == old(state)[fd := Boot(content, to)]
                else ret == -1 && errno == Einval && state == old(state)
              case _ => ret == -1 && errno == Ebadf && state == old(state)
    {
      hide Serves, Effect;
      LseekMeans(files, state, fd, offset, whence);
      var slot := openfiles[fd];
      assert slot.Carries(image, state[fd]);
      if slot.handler == HANDLER_INITFS {
        ret, errno := slot.file.Lseek(image, offset, whence);
        state := if ret == -1 then state else state[fd := state[fd].(pos := ret)];
      } else {
        return -1, Ebadf;
      }
    }

    method Close(fd: int) returns (ret: int, errno: Errno)
      requires Valid()
      modifies this`state, Slots()
      ensures Valid() && (state, Out(ret, errno, [])) == Effect(files, old(state), CloseOp(fd))
    {
      hide Serves;
      if fd <= 2 {
        return -1, NotSet;
      }
      if fd >= MAX_OPEN_FILES {
        return -1, Ebadf;
      }
      openfiles[fd].handler := HANDLER_NONE;
      state := state[fd := Closed];
      return 0, NotSet;
    }

    method Dup(fd: nat) returns (ret: int, errno: Errno)
      requires Valid() && Covered(DupOp(fd))
      modifies this`state, Slots()
      ensures Valid() && (state, Out(ret, errno, [])) == Effect(files, old(state), DupOp(fd))
    {
      hide Serves, HandlerName, Opened, Under, Below, HasHandler, FreeFd;
      var from := openfiles[fd];
      assert from.Carries(image, state[fd]);
      if from.handler == HANDLER_NONE {
        return -1, Ebadf;
      }
      var i := FindFree();
      if i == MAX_OPEN_FILES {
        return -1, Emfile;
      }
      var to := openfiles[i];
      to.handler := from.handler;
      to.file.data, to.file.pos, to.file.size := from.file.data, from.file.pos, from.file.size;
      state := state[i := state[fd]];
      return i, NotSet;
    }

    method Call(op: Op) returns (out: Out)
      requires Valid() && Covered(op)
      modifies this`state, Slots()
      ensures Valid() && (state, out) == Effect(files, old(state), op)
    {
      var ret, errno, bytes := 0, NotSet, [];
      match op {
        case OpenOp(path) => ret, errno := Open(path);
        case ReadOp(fd, count, line) => ret, errno, bytes := Read(fd, count, line);
        case LseekOp(fd, offset, whence) => ret, errno := Lseek(fd, offset, whence);
        case CloseOp(fd) => ret, errno := Close(fd);
        case DupOp(fd) => ret, errno := Dup(fd);
      }
      out := Out(ret, errno, bytes);
    }

    /** Any run of calls does what the abstract table does. */
    method Run(ops: seq<Op>) returns (outs: seq<Out>)
      requires Valid() && forall k :: 0 <= k < |ops| ==> Covered(ops[k])
      modifies this`state, Slots()
      ensures Valid() && (state, outs) == Effects(files, old(state), ops)
    {
      outs := [];
      for k := 0 to |ops|
        invariant Valid() && (state, outs) == Effects(files, old(state), ops[..k])
      {
        var out := Call(ops[k]);
        outs := outs + [out];
        assert ops[..k + 1][..k] == ops[..k];
      }
      assert ops[..|ops|] == ops;
    }
  }

  ghost predicate AllCovered(ops: seq<Op>) {
    forall k :: 0 <= k < |ops| ==> Covered(ops[k])
  }

  /** A run of calls on the abstract table. */
  ghost function Effects(files: seq<File>, state: seq<Desc>, ops: seq<Op>): (r: (seq<Desc>, seq<Out>))
    requires Sane(state) && AllCovered(ops)
    ensures Sane(r.0) && |r.1| == |ops|
  {
    if ops == [] then (state, []) else
      var (s, outs) := Effects(files, state, ops[..|ops| - 1]);
      var (s', out) := Effect(files, s, ops[|ops| - 1]);
      (s', outs + [out])
  }

  // ---------------------------------------------------------------- each descriptor by itself

  predicate IsMine(op: Op, j: nat) {
    (op.ReadOp? || op.LseekOp?) && op.fd == j
  }

  /** Where a call on a file of some size moves its position. */
  function Moved(pos: nat, size: nat, op: Op): (r: nat)
    requires pos <= size
    ensures r <= size
    ensures op.ReadOp? ==> r == if op.count <= size - pos then pos + op.count else size
    ensures op.LseekOp? ==>
              var to := match op.whence
                        case Set => op.offset
                        case Cur => pos + op.offset
                        case End => size + op.offset
                        case Unknown => -1;
              r == if 0 <= to < size then to else pos
  {
    if op.ReadOp? then pos + Min(op.count, size - pos)
    else if op.LseekOp? then
      var to := op.offset + WhenceBase(op.whence, pos, size);
      if !op.whence.Unknown? && 0 <= to < size then to else pos
    else pos
  }

  /** The position a descriptor reaches by its own calls alone. */
  function PosAfter(pos: nat, size: nat, ops: seq<Op>, j: nat): (r: nat)
    requires pos <= size
    ensures r <= size
  {
    if ops == [] then pos else
      var p := PosAfter(pos, size, ops[..|ops| - 1], j);
      var op := ops[|ops| - 1];
      if IsMine(op, j) then Moved(p, size, op) else p
  }

  /** Bytes asked for by the reads of descriptor j. */
  function Asked(ops: seq<Op>, j: nat): nat {
    if ops == [] then 0 else
      var op := ops[|ops| - 1];
      Asked(ops[..|ops| - 1], j) + if op.ReadOp? && op.fd == j then op.count else 0
  }

  /** Reads alone reach the position that the bytes they ask for add up to, or the end. */
  lemma {:induction false} ReadsReach(pos: nat, size: nat, ops: seq<Op>, j: nat)
    requires pos <= size && forall k :: 0 <= k < |ops| && IsMine(ops[k], j) ==> ops[k].ReadOp?
    ensures PosAfter(pos, size, ops, j) == Min(pos + Asked(ops, j), size)
  {
    if ops != [] {
      ReadsReach(pos, size, ops[..|ops| - 1], j);
    }
  }

  /** One call leaves an open file's descriptor alone, unless it is the descriptor's own call or closes it. */
  lemma OneEffect(files: seq<File>, state: seq<Desc>, op: Op, j: nat)
    requires Sane(state) && Covered(op) && j < MAX_OPEN_FILES && state[j].Boot? && op != CloseOp(j)
    ensures var c, p := state[j].content, state[j].pos;
            var (s, out) := Effect(files, state, op);
            s[j] == Boot(c, if IsMine(op, j) then Moved(p, |c|, op) else p) &&
            (IsMine(op, j) && op.ReadOp? ==> out.ret == Min(op.count, |c| - p) && out.bytes == c[p..p + out.ret])
  {
    hide Opened, HasHandler;
  }

  /** Through descriptor j, which stood at p0 in the bytes c, each read delivers the slice at the position that the
      descriptor's own calls have reached. */
  ghost predicate Delivers(c: seq<byte>, p0: nat, ops: seq<Op>, outs: seq<Out>, j: nat) {
    p0 <= |c| && |outs| == |ops| &&
    forall k :: 0 <= k < |ops| && IsMine(ops[k], j) && ops[k].ReadOp? ==>
      var p := PosAfter(p0, |c|, ops[..k], j);
      outs[k].ret == Min(ops[k].count, |c| - p) && outs[k].bytes == c[p..p + outs[k].ret]
  }

  lemma DeliversMore(c: seq<byte>, p0: nat, front: seq<Op>, outs: seq<Out>, op: Op, out: Out, j: nat)
    requires Delivers(c, p0, front, outs, j)
    requires var p := PosAfter(p0, |c|, front, j);
             IsMine(op, j) && op.ReadOp? ==> out.ret == Min(op.count, |c| - p) && out.bytes == c[p..p + out.ret]
    ensures Delivers(c, p0, front + [op], outs + [out], j)
  {
    hide PosAfter, IsMine;
    var ops := front + [op];
    forall k | 0 <= k < |ops|
      ensures ops[..k] == front[..k] && (k < |front| ==> ops[k] == front[k])
    {
    }
    assert front[..|front|] == front;
  }

  /** Over any run of calls that does not close it, a file's descriptor stays in its file, is moved by its own calls only,
      and each read delivers the slice at the position those calls have reached. */
  lemma {:induction false} OwnPosition(files: seq<File>, state: seq<Desc>, ops: seq<Op>, j: nat)
    requires Sane(state) && AllCovered(ops) && j < MAX_OPEN_FILES && state[j].Boot? && CloseOp(j) !in ops
    ensures var c, p0 := state[j].content, state[j].pos;
            var (s, outs) := Effects(files, state, ops);
            s[j] == Boot(c, PosAfter(p0, |c|, ops, j)) && Delivers(c, p0, ops, outs, j)
  {
    hide Effect, Moved, Delivers;
    var c, p0 := state[j].content, state[j].pos;
    if ops == [] {
      NothingDelivered(c, p0, j);
    } else {
      var front, op := ops[..|ops| - 1], ops[|ops| - 1];
      assert ops == front + [op];
      OwnPosition(files, state, front, j);
      var (s, outs) := Effects(files, state, front);
      OneEffect(files, s, op, j);
      DeliversMore(c, p0, front, outs, op, Effect(files, s, op).1, j);
    }
  }

  lemma NothingDelivered(c: seq<byte>, p0: nat, j: nat)
    requires p0 <= |c|
    ensures Delivers(c, p0, [], [], j)
  {
  }

  /** Every open file is one of the added files. */
  ghost predicate FromFiles(files: seq<File>, state: seq<Desc>) {
    forall i :: 0 <= i < |state| && state[i].Boot? ==> exists k :: 0 <= k < |files| && files[k].content == state[i].content
  }

  lemma {:induction false} RunFromFiles(files: seq<File>, state: seq<Desc>, ops: seq<Op>)
    requires Sane(state) && AllCovered(ops) && FromFiles(files, state)
    ensures FromFiles(files, Effects(files, state, ops).0)
  {
    hide HasHandler, Under;
    if ops != [] {
      RunFromFiles(files, state, ops[..|ops| - 1]);
    }
  }

  /** The bytes a file is opened with are those it was added with. */
  lemma OpenedContent(files: seq<File>, k: nat)
    requires ProperFiles(files) && k < |files|
    ensures Opened(files, HandlerName(HANDLER_INITFS).value + files[k].name) == (Boot(files[k].content, 0), NotSet)
  {
    var n := files[k].name;
    var boot := HandlerName(HANDLER_INITFS).value;
    var path := boot + n;
    assert boot + SEP <= path by {
      assert path == boot + SEP + n[1..];
    }
    assert Below(HANDLER_INITFS, path) == n;
    assert IsFile(files, n);
    assert ContentOf(files, n) == files[k].content;
  }

  // ---------------------------------------------------------------- from the added files to the bytes read

  /** Add files, make the image, and start the system on it; after any calls at all open one of the files, and make any more
      calls that do not close its descriptor. Opening fails only when no descriptor is left, and what the descriptor
      delivers are the bytes the file was added with. */
  method ReadFrom(added: seq<File>, which: nat, before: seq<Op>, after: seq<Op>)
    returns (image: Option<seq<byte>>, fd: int, errno: Errno, outs: seq<Out>)
    requires ProperFiles(added) && which < |added| && AllCovered(before) && AllCovered(after)
    ensures image.Some? && |image.value| < TWO31 ==>
              if 0 <= fd then
                2 < fd < MAX_OPEN_FILES && errno == NotSet &&
                (CloseOp(fd) !in after ==> Delivers(added[which].content, 0, after, outs, fd))
              else errno == Emfile && FreeFd(Effects(added, Standard(), before).0, 0) == MAX_OPEN_FILES
  {
    hide Serves, Effects, Effect, Opened, Under, HandlerName, Stored, IsImage, ProperFiles, Serialise, Delivers;
    image := ImageOf(added);
    fd, errno, outs := -1, Emfile, [];
    if image.None? || |image.value| >= TWO31 {
      return;
    }
    ghost var t, base := TableServing(added, image.value);
    var os := new OsFiles(image.value, t, base, added);
    outs := os.Run(before);
    ghost var state := os.state;
    BootCovered(added, which);
    fd, errno := os.Open(HandlerName(HANDLER_INITFS).value + added[which].name);
    OpenedAt(added, which, state);
    ghost var there := os.state;
    outs := os.Run(after);
    if 0 <= fd && CloseOp(fd) !in after {
      OwnPosition(added, there, after, fd);
    }
  }

  /** The table at the start. */
  function Standard(): (r: seq<Desc>)
    ensures Sane(r)
  {
    seq(MAX_OPEN_FILES, i => if i < 3 then Serial else Closed)
  }

  /** The image of files added one after the other. */
  method ImageOf(added: seq<File>) returns (image: Option<seq<byte>>)
    ensures exists filetable, data, dirs, t :: Stored(added, filetable, data) && IsImage(filetable, data, dirs, t, image)
  {
    hide Stored, IsImage;
    var fs := new InitFs();
    for i := 0 to |added|
      invariant fresh(fs) && fs.Valid() && fs.files == added[..i]
    {
      fs.AddFile(added[i].content, added[i].name);
      assert added[..i + 1] == added[..i] + [added[i]];
    }
    image := fs.ToString();
    assert added[..|added|] == added;
  }

  lemma TableServing(added: seq<File>, image: seq<byte>) returns (t: seq<Entry>, base: nat)
    requires ProperFiles(added) && |image| < TWO31
    requires exists filetable, data, dirs, t ::
               Stored(added, filetable, data) && IsImage(filetable, data, dirs, t, Some(image))
    ensures Serves(image, t, base, added)
  {
    hide Stored, Serialise, IsClosure, IsTable, Serves;
    var filetable, data, dirs, t0 :| Stored(added, filetable, data) && IsImage(filetable, data, dirs, t0, Some(image));
    t, base := t0, Base(t0);
    ImageServes(added, filetable, data, dirs, t0);
  }

  lemma BootCovered(added: seq<File>, which: nat)
    requires ProperFiles(added) && which < |added|
    ensures HandlerName(HANDLER_INITFS).Some?
    ensures Covered(OpenOp(HandlerName(HANDLER_INITFS).value + added[which].name))
  {
    var path := HandlerName(HANDLER_INITFS).value + added[which].name;
    assert path[1] == 0x62;
  }

  /** Opening one of the files takes the lowest free descriptor, at the start of the file's bytes. */
  lemma OpenedAt(added: seq<File>, which: nat, state: seq<Desc>)
    requires ProperFiles(added) && which < |added| && Sane(state)
    requires HandlerName(HANDLER_INITFS).Some?
    requires Covered(OpenOp(HandlerName(HANDLER_INITFS).value + added[which].name))
    ensures var fd := FreeFd(state, 0);
            Effect(added, state, OpenOp(HandlerName(HANDLER_INITFS).value + added[which].name)) ==
              if fd == MAX_OPEN_FILES then (state, Out(-1, Emfile, []))
              else (state[fd := Boot(added[which].content, 0)], Out(fd, NotSet, []))
    ensures FreeFd(state, 0) > 2
  {
    var path := HandlerName(HANDLER_INITFS).value + added[which].name;
    OpenedContent(added, which);
    assert Under(HANDLER_INITFS, path) by {
      assert HandlerName(HANDLER_INITFS).value + SEP <= path by {
        assert path == HandlerName(HANDLER_INITFS).value + SEP + added[which].name[1..];
      }
    }
    assert HasHandler(path);
  }
}
