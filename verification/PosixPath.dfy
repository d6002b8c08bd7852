/** Path algebra on POSIX names. A path is a sequence of character codes, so both of Python's kinds, text and bytes. */
module PosixPath {
  import opened Wrappers

  type Text = seq<nat>

  const SLASH: nat := 0x2F
  const SEP: Text := [SLASH]
  const CURDIR: Text := [0x2E]
  const PARDIR: Text := [0x2E, 0x2E]

  /** A component: it holds no separator. */
  predicate Plain(s: Text) {
    SLASH !in s
  }

  predicate IsAbs(s: Text) {
    s != [] && s[0] == SLASH
  }

  predicate EndsInSlash(s: Text) {
    s != [] && s[|s| - 1] == SLASH
  }

  // ---------------------------------------------------------------- splitting at separators

  /** The position of the first separator, or the length. */
  function FirstSlash(p: Text): (r: nat)
    ensures r <= |p| && Plain(p[..r]) && (r < |p| ==> p[r] == SLASH)
  {
    if p == [] || p[0] == SLASH then 0
    else
      var k := FirstSlash(p[1..]);
      assert p[..k + 1] == [p[0]] + p[1..][..k];
      k + 1
  }

  /** p.split('/') */
  function SplitOn(p: Text): (r: seq<Text>)
    ensures |r| >= 1 && forall i :: 0 <= i < |r| ==> Plain(r[i])
    decreases |p|
  {
    var k := FirstSlash(p);
    if k == |p| then [p] else [p[..k]] + SplitOn(p[k + 1..])
  }

  /** '/'.join(cs) */
  function JoinOn(cs: seq<Text>): Text {
    if |cs| == 0 then [] else if |cs| == 1 then cs[0] else cs[0] + SEP + JoinOn(cs[1..])
  }

  lemma {:induction false} FirstSlashAt(c: Text, r: Text)
    requires Plain(c)
    ensures FirstSlash(c + SEP + r) == |c|
    ensures FirstSlash(c) == |c|
  {
    if c != [] {
      FirstSlashAt(c[1..], r);
      assert (c + SEP + r)[1..] == c[1..] + SEP + r;
    }
  }

  lemma SplitAt(c: Text, r: Text)
    requires Plain(c)
    ensures SplitOn(c + SEP + r) == [c] + SplitOn(r)
    ensures SplitOn(c) == [c]
  {
    FirstSlashAt(c, r);
    assert (c + SEP + r)[..|c|] == c && (c + SEP + r)[|c| + 1..] == r;
  }

  lemma {:induction false} SplitOfJoin(cs: seq<Text>)
    requires cs != [] && forall i :: 0 <= i < |cs| ==> Plain(cs[i])
    ensures SplitOn(JoinOn(cs)) == cs
  {
    if |cs| == 1 {
      SplitAt(cs[0], []);
    } else {
      SplitAt(cs[0], JoinOn(cs[1..]));
      SplitOfJoin(cs[1..]);
    }
  }

  // ---------------------------------------------------------------- split and join

  /** p.rfind('/') + 1 */
  function AfterLast(p: Text): (r: nat)
    ensures r <= |p| && Plain(p[r..]) && (r > 0 ==> p[r - 1] == SLASH)
  {
    if p == [] then 0
    else if p[|p| - 1] == SLASH then |p|
    else
      var r := AfterLast(p[..|p| - 1]);
      assert p[r..] == p[..|p| - 1][r..] + [p[|p| - 1]];
      r
  }

  /** p.rstrip('/') */
  function Rstrip(p: Text): (r: Text)
    ensures |r| <= |p| && r == p[..|r|] && !EndsInSlash(r)
  {
    if EndsInSlash(p) then Rstrip(p[..|p| - 1]) else p
  }

  predicate AllSlashes(p: Text) {
    forall i :: 0 <= i < |p| ==> p[i] == SLASH
  }

  function Split(p: Text): (Text, Text) {
    var i := AfterLast(p);
    var head := p[..i];
    (if AllSlashes(head) then head else Rstrip(head), p[i..])
  }

  function Dirname(p: Text): Text {
    Split(p).0
  }

  /** One round of join's loop. */
  function Join2(path: Text, b: Text): Text {
    if IsAbs(b) then b else if path == [] || EndsInSlash(path) then path + b else path + SEP + b
  }

  function JoinMany(a: Text, p: seq<Text>): Text {
    if p == [] then a else Join2(JoinMany(a, p[..|p| - 1]), p[|p| - 1])
  }

  /** join puts one slash between its parts where there is none, and starts over at an absolute part. */
  lemma JoinMeans(path: Text, b: Text)
    ensures Join2(path, b) ==
            if |b| > 0 && b[0] == 0x2F then b
            else if path == [] || path[|path| - 1] == 0x2F then path + b
            else path + [0x2F] + b
  {
  }

  lemma {:induction false} JoinStartsOver(a: Text, p: seq<Text>, i: nat)
    requires i < |p| && |p[i]| > 0 && p[i][0] == 0x2F
    ensures JoinMany(a, p) == JoinMany(p[i], p[i + 1..])
    decreases |p|
  {
    var front, last := p[..|p| - 1], p[|p| - 1];
    if i == |p| - 1 {
      assert p[i + 1..] == [];
    } else {
      JoinStartsOver(a, front, i);
      var tail := p[i + 1..];
      assert tail[..|tail| - 1] == front[i + 1..] && tail[|tail| - 1] == last;
    }
  }

  method Join(a: Text, p: seq<Text>) returns (path: Text)
    ensures path == JoinMany(a, p)
  {
    path := a;
    for k := 0 to |p|
      invariant path == JoinMany(a, p[..k])
    {
      assert p[..k + 1][..k] == p[..k];
      path := Join2(path, p[k]);
    }
    assert p[..|p|] == p;
  }

  /** split takes a path apart at its last separator: head, separators and tail make up the path, and the head is stripped
      of its trailing separators unless it has nothing else. */
  lemma SplitParts(p: Text)
    ensures var (head, tail) := Split(p);
            Plain(tail) && |head| + |tail| <= |p| && p == head + p[|head|..|p| - |tail|] + tail &&
            AllSlashes(p[|head|..|p| - |tail|]) && (AllSlashes(head) || !EndsInSlash(head))
  {
    var i := AfterLast(p);
    if !AllSlashes(p[..i]) {
      StripSlashes(p[..i]);
    }
  }

  lemma {:induction false} StripSlashes(p: Text)
    ensures AllSlashes(p[|Rstrip(p)|..])
  {
    if EndsInSlash(p) {
      StripSlashes(p[..|p| - 1]);
    }
  }

  /** Splitting undoes joining a component to a path that does not end in a separator. */
  lemma {:induction false} SplitOfSnoc(path: Text, name: Text)
    requires Plain(name) && path != [] && !EndsInSlash(path)
    ensures Split(path + SEP + name) == (path, name)
  {
    AfterLastAt(path, name);
    var p := path + SEP + name;
    assert p[..|path| + 1] == path + SEP && p[|path| + 1..] == name;
    var head := path + SEP;
    assert head[|path| - 1] != SLASH;
    assert !AllSlashes(head);
    assert head[..|head| - 1] == path;
    assert Rstrip(head) == Rstrip(path) == path;
  }

  lemma {:induction false} AfterLastAt(path: Text, name: Text)
    requires Plain(name)
    ensures AfterLast(path + SEP + name) == |path| + 1
  {
    var p := path + SEP + name;
    if name != [] {
      AfterLastAt(path, name[..|name| - 1]);
      assert p[..|p| - 1] == path + SEP + name[..|name| - 1];
    }
  }

  lemma {:induction false} SplitOfPlain(name: Text)
    requires Plain(name)
    ensures Split(name) == ([], name)
    ensures Split(SEP + name) == (SEP, name)
  {
    AfterLastAt([], name);
    assert [] + SEP + name == SEP + name;
    assert (SEP + name)[..1] == SEP && (SEP + name)[1..] == name;
    NoSlash(name);
  }

  lemma {:induction false} NoSlash(name: Text)
    requires Plain(name)
    ensures AfterLast(name) == 0
  {
    if name != [] {
      NoSlash(name[..|name| - 1]);
    }
  }

  // ---------------------------------------------------------------- normpath

  /** The leading separators that count: POSIX lets exactly two mean something of their own. */
  function Slashes(p: Text): (r: nat)
    ensures r > 0 <==> IsAbs(p)
    ensures r <= 2
  {
    if !IsAbs(p) then 0
    else if |p| >= 2 && p[1] == SLASH && !(|p| >= 3 && p[2] == SLASH) then 2
    else 1
  }

  /** One round of normpath's loop. */
  function Step(rooted: bool, acc: seq<Text>, c: Text): seq<Text> {
    if c == [] || c == CURDIR then acc
    else if c != PARDIR || (!rooted && acc == []) || (acc != [] && acc[|acc| - 1] == PARDIR) then acc + [c]
    else if acc != [] then acc[..|acc| - 1]
    else acc
  }

  function Steps(rooted: bool, acc: seq<Text>, cs: seq<Text>): seq<Text>
    decreases |cs|
  {
    if cs == [] then acc else Steps(rooted, Step(rooted, acc, cs[0]), cs[1..])
  }

  /** A path from its leading separators and its components. */
  function Render(slashes: nat, acc: seq<Text>): Text {
    seq(slashes, _ => SLASH) + JoinOn(acc)
  }

  function Stack(p: Text): seq<Text> {
    Steps(IsAbs(p), [], SplitOn(p))
  }

  function NormPath(p: Text): Text {
    var r := Render(Slashes(p), Stack(p));
    if r == [] then CURDIR else r
  }

  method Normpath(path: Text) returns (r: Text)
    ensures r == NormPath(path)
  {
    if path == [] {
      assert SplitOn(path) == [[]];
      return CURDIR;
    }
    hide SplitOn, JoinOn, Steps;
    SlashPrefixes(path);
    var slashes := if IsAbs(path) then 1 else 0;
    if slashes > 0 && SEP + SEP <= path && !(SEP + SEP + SEP <= path) {
      slashes := 2;
    }
    var comps, newComps := SplitOn(path), [];
    for i := 0 to |comps|
      invariant Steps(IsAbs(path), [], comps) == Steps(IsAbs(path), newComps, comps[i..])
    {
      var comp := comps[i];
      StepsHead(IsAbs(path), newComps, comps, i);
      if comp == [] || comp == CURDIR {
        continue;
      }
      if comp != PARDIR || (slashes == 0 && newComps == []) || (newComps != [] && newComps[|newComps| - 1] == PARDIR) {
        newComps := newComps + [comp];
      } else if newComps != [] {
        newComps := newComps[..|newComps| - 1];
      }
    }
    StepsDone(IsAbs(path), newComps, comps[|comps|..]);
    r := JoinOn(newComps);
    if slashes > 0 {
      r := seq(slashes, _ => SLASH) + r;
    }
    assert r == Render(slashes, newComps);
    if r == [] {
      r := CURDIR;
    }
  }

  lemma StepsHead(rooted: bool, acc: seq<Text>, cs: seq<Text>, i: nat)
    requires i < |cs|
    ensures Steps(rooted, acc, cs[i..]) == Steps(rooted, Step(rooted, acc, cs[i]), cs[i + 1..])
  {
    assert cs[i..][1..] == cs[i + 1..];
  }

  lemma StepsDone(rooted: bool, acc: seq<Text>, cs: seq<Text>)
    requires cs == []
    ensures Steps(rooted, acc, cs) == acc
  {
  }

  /** startswith on one to three separators. */
  lemma SlashPrefixes(p: Text)
    ensures SEP + SEP <= p <==> |p| >= 2 && p[0] == p[1] == SLASH
    ensures SEP + SEP + SEP <= p <==> |p| >= 3 && p[0] == p[1] == p[2] == SLASH
  {
  }

  // ---------------------------------------------------------------- what a path means

  /** Where one component leads from a directory given by its names from the root down. */
  function Move(at: seq<Text>, c: Text): seq<Text> {
    if c == [] || c == CURDIR then at
    else if c == PARDIR then if at == [] then at else at[..|at| - 1]
    else at + [c]
  }

  function Moves(at: seq<Text>, cs: seq<Text>): seq<Text>
    decreases |cs|
  {
    if cs == [] then at else Moves(Move(at, cs[0]), cs[1..])
  }

  /** An empty component and a dot stay, two dots go to the parent directory or stay at the root, a name enters its directory. */
  lemma MoveMeans(at: seq<Text>, n: Text)
    ensures Move(at, []) == Move(at, [0x2E]) == at
    ensures Move(at, [0x2E, 0x2E]) == if |at| > 0 then at[..|at| - 1] else []
    ensures n != [] && n != [0x2E] && n != [0x2E, 0x2E] ==> Move(at, n) == at + [n]
  {
  }

  /** Exactly two leading slashes are a root of their own. */
  lemma RootMeans(p: Text)
    ensures Slashes(p) == if |p| == 0 || p[0] != 0x2F then 0
                          else if |p| > 1 && p[1] == 0x2F && (|p| == 2 || p[2] != 0x2F) then 2 else 1
  {
  }

  /** The components of a path are what stands between its slashes. */
  lemma {:induction false} PartsOfPath(p: Text)
    ensures JoinOn(SplitOn(p)) == p && forall c :: c in SplitOn(p) ==> 0x2F !in c
    decreases |p|
  {
    hide FirstSlash, JoinOn;
    var k := FirstSlash(p);
    if k < |p| {
      var c, more := p[..k], SplitOn(p[k + 1..]);
      PartsOfPath(p[k + 1..]);
      JoinOnMeans(c, more);
      assert p == c + [0x2F] + p[k + 1..];
      assert SplitOn(p) == [c] + more;
    } else {
      JoinOnMeans(p, []);
    }
  }

  /** join of a list with slashes. */
  lemma JoinOnMeans(c: Text, cs: seq<Text>)
    ensures JoinOn([]) == [] && JoinOn([c]) == c
    ensures cs != [] ==> JoinOn([c] + cs) == c + [0x2F] + JoinOn(cs)
  {
    assert ([c] + cs)[1..] == cs;
  }

  /** The lexical meaning of a path seen from base: which root it starts at (0 for base's own), and the place reached. */
  function Meaning(base: seq<Text>, p: Text): (nat, seq<Text>) {
    (Slashes(p), Moves(if IsAbs(p) then [] else base, SplitOn(p)))
  }

  ghost predicate SameMeaning(p: Text, q: Text) {
    forall base :: Meaning(base, p) == Meaning(base, q)
  }

  /** A component that stays in a normalised path. */
  predicate Proper(c: Text) {
    Plain(c) && c != [] && c != CURDIR
  }

  /** A normalised stack: parent steps only at the front, and none below the root. */
  ghost predicate Normal(rooted: bool, acc: seq<Text>) {
    forall i :: 0 <= i < |acc| ==>
      Proper(acc[i]) && (acc[i] == PARDIR ==> !rooted && forall j :: 0 <= j < i ==> acc[j] == PARDIR)
  }

  lemma StepNormal(rooted: bool, acc: seq<Text>, c: Text)
    requires Normal(rooted, acc) && Plain(c)
    ensures Normal(rooted, Step(rooted, acc, c))
    ensures c == [] || c == CURDIR ==> Step(rooted, acc, c) == acc
    ensures Proper(c) && c != PARDIR ==> Step(rooted, acc, c) == acc + [c]
  {
  }

  lemma {:induction false} StepsNormal(rooted: bool, acc: seq<Text>, cs: seq<Text>)
    requires Normal(rooted, acc) && forall i :: 0 <= i < |cs| ==> Plain(cs[i])
    ensures Normal(rooted, Steps(rooted, acc, cs))
    decreases |cs|
  {
    hide Step, Normal;
    if cs != [] {
      StepNormal(rooted, acc, cs[0]);
      StepsNormal(rooted, Step(rooted, acc, cs[0]), cs[1..]);
    }
  }

  lemma {:induction false} StepsAppend(rooted: bool, acc: seq<Text>, cs: seq<Text>, ds: seq<Text>)
    ensures Steps(rooted, acc, cs + ds) == Steps(rooted, Steps(rooted, acc, cs), ds)
    decreases |cs|
  {
    if cs == [] {
      assert cs + ds == ds;
    } else {
      assert (cs + ds)[1..] == cs[1..] + ds;
      StepsAppend(rooted, Step(rooted, acc, cs[0]), cs[1..], ds);
    }
  }

  lemma {:induction false} MovesAppend(at: seq<Text>, cs: seq<Text>, ds: seq<Text>)
    ensures Moves(at, cs + ds) == Moves(Moves(at, cs), ds)
    decreases |cs|
  {
    if cs == [] {
      assert cs + ds == ds;
    } else {
      assert (cs + ds)[1..] == cs[1..] + ds;
      MovesAppend(Move(at, cs[0]), cs[1..], ds);
    }
  }

  /** One normalisation step is one move. */
  lemma StepIsMove(rooted: bool, base: seq<Text>, acc: seq<Text>, c: Text)
    requires Normal(rooted, acc) && (rooted ==> base == [])
    ensures Moves(base, Step(rooted, acc, c)) == Move(Moves(base, acc), c)
  {
    MovesAppend(base, acc, [c]);
    if acc != [] {
      var front := acc[..|acc| - 1];
      assert acc == front + [acc[|acc| - 1]];
      MovesAppend(base, front, [acc[|acc| - 1]]);
    }
  }

  lemma {:induction false} StepsAreMoves(rooted: bool, base: seq<Text>, acc: seq<Text>, cs: seq<Text>)
    requires Normal(rooted, acc) && (rooted ==> base == []) && forall i :: 0 <= i < |cs| ==> Plain(cs[i])
    ensures Moves(base, Steps(rooted, acc, cs)) == Moves(Moves(base, acc), cs)
    decreases |cs|
  {
    hide Step, Normal, Move;
    if cs != [] {
      StepNormal(rooted, acc, cs[0]);
      StepIsMove(rooted, base, acc, cs[0]);
      StepsAreMoves(rooted, base, Step(rooted, acc, cs[0]), cs[1..]);
    }
  }

  /** A normalised stack is left alone by a second pass. */
  lemma {:induction false} NormalFixed(rooted: bool, acc: seq<Text>, k: nat)
    requires Normal(rooted, acc) && k <= |acc|
    ensures Steps(rooted, [], acc[..k]) == acc[..k]
  {
    if k > 0 {
      NormalFixed(rooted, acc, k - 1);
      assert acc[..k] == acc[..k - 1] + [acc[k - 1]];
      StepsAppend(rooted, [], acc[..k - 1], [acc[k - 1]]);
      assert k >= 2 && acc[k - 1] == PARDIR ==> acc[k - 2] == PARDIR;
    }
  }

  lemma FirstOfJoin(acc: seq<Text>)
    requires acc != [] && Proper(acc[0])
    ensures JoinOn(acc) != [] && JoinOn(acc)[0] == acc[0][0] != SLASH
  {
  }

  /** A leading separator only adds an empty component. */
  lemma LeadingSlash(rooted: bool, p: Text)
    ensures Steps(rooted, [], SplitOn(SEP + p)) == Steps(rooted, [], SplitOn(p))
  {
    SplitAt([], p);
    assert [] + SEP + p == SEP + p;
    assert SplitOn(SEP + p)[1..] == SplitOn(p);
  }

  lemma JoinReads(rooted: bool, acc: seq<Text>)
    requires Normal(rooted, acc)
    ensures Steps(rooted, [], SplitOn(JoinOn(acc))) == acc
  {
    if acc == [] {
      assert SplitOn(JoinOn(acc)) == [[]];
    } else {
      SplitOfJoin(acc);
      NormalFixed(rooted, acc, |acc|);
      assert acc[..|acc|] == acc;
    }
  }

  /** Reading back a rendered stack. */
  lemma Rendered(rooted: bool, k: nat, acc: seq<Text>)
    requires k <= 2 && Normal(rooted, acc)
    ensures Slashes(Render(k, acc)) == k
    ensures Steps(rooted, [], SplitOn(Render(k, acc))) == acc
  {
    hide Steps, SplitOn, JoinOn;
    var body := JoinOn(acc);
    JoinReads(rooted, acc);
    LeadingSlash(rooted, body);
    LeadingSlash(rooted, SEP + body);
    assert body == [] || body[0] != SLASH by {
      EmptyJoin();
      if acc != [] {
        FirstOfJoin(acc);
      }
    }
    assert Render(0, acc) == body && Render(1, acc) == SEP + body && Render(2, acc) == SEP + (SEP + body);
  }

  lemma EmptyJoin()
    ensures JoinOn([]) == []
  {
  }

  /** The normal form: the leading slashes that count, and the components that remain with a slash between each two; a dot
      where there is neither. */
  lemma NormPathMeans(p: Text)
    ensures NormPath(p) == if Slashes(p) == 0 && Stack(p) == [] then [0x2E]
                           else seq(Slashes(p), _ => 0x2F) + JoinOn(Stack(p))
  {
    NormPathReads(p);
    if Stack(p) != [] {
      LastOfJoin(Stack(p));
    }
  }

  /** normpath yields a normal form: its stack is normalised, and reading it back gives the same root and stack. */
  lemma NormPathReads(p: Text)
    ensures Normal(IsAbs(p), Stack(p))
    ensures Slashes(NormPath(p)) == Slashes(p) && Stack(NormPath(p)) == Stack(p)
  {
    StepsNormal(IsAbs(p), [], SplitOn(p));
    Rendered(IsAbs(p), Slashes(p), Stack(p));
    if Render(Slashes(p), Stack(p)) == [] {
      SplitAt(CURDIR, []);
      assert Stack(p) == [] by {
        if Stack(p) != [] {
          FirstOfJoin(Stack(p));
        }
      }
    }
  }

  lemma NormPathIdempotent(p: Text)
    ensures NormPath(NormPath(p)) == NormPath(p)
  {
    NormPathReads(p);
  }

  /** The place the stack of a path leads to from base. */
  function Place(base: seq<Text>, p: Text): seq<Text> {
    Moves(if IsAbs(p) then [] else base, Stack(p))
  }

  /** The place a path leads to is the place its stack leads to. */
  lemma MeaningOfStack(base: seq<Text>, p: Text)
    ensures Meaning(base, p) == (Slashes(p), Place(base, p))
  {
    StepsAreMoves(IsAbs(p), if IsAbs(p) then [] else base, [], SplitOn(p));
  }

  lemma NormPathKeepsMeaning(p: Text)
    ensures SameMeaning(NormPath(p), p)
  {
    NormPathReads(p);
    forall base
      ensures Meaning(base, NormPath(p)) == Meaning(base, p)
    {
      MeaningOfStack(base, p);
      MeaningOfStack(base, NormPath(p));
    }
  }

  /** The parent steps a stack starts with. */
  function Ups(acc: seq<Text>): (k: nat)
    ensures k <= |acc| && (forall i :: 0 <= i < k ==> acc[i] == PARDIR) && (k < |acc| ==> acc[k] != PARDIR)
  {
    if acc == [] || acc[0] != PARDIR then 0 else 1 + Ups(acc[1..])
  }

  lemma NormalTail(rooted: bool, acc: seq<Text>)
    requires Normal(rooted, acc) && acc != []
    ensures Normal(rooted, acc[1..]) && Proper(acc[0])
    ensures acc[0] != PARDIR ==> Ups(acc[1..]) == 0
    ensures Ups(acc) == if acc[0] == PARDIR then 1 + Ups(acc[1..]) else 0
  {
    assert |acc| > 1 && acc[1] == PARDIR ==> acc[0] == PARDIR;
  }

  /** From deep enough down, a normalised stack climbs as often as it says and then names its way down. */
  lemma {:induction false} NormalMoves(rooted: bool, base: seq<Text>, acc: seq<Text>)
    requires Normal(rooted, acc) && Ups(acc) <= |base|
    ensures Moves(base, acc) == base[..|base| - Ups(acc)] + acc[Ups(acc)..]
    decreases |acc|
  {
    hide Normal, Ups;
    if acc != [] {
      NormalTail(rooted, acc);
      var k, rest := Ups(acc), acc[1..];
      if acc[0] == PARDIR {
        NormalMoves(rooted, base[..|base| - 1], rest);
        assert base[..|base| - 1][..|base| - k] == base[..|base| - k] && rest[k - 1..] == acc[k..];
      } else {
        NormalMoves(rooted, base + [acc[0]], rest);
        assert base + [acc[0]] + rest == base + acc;
      }
    }
  }

  lemma NoUps(acc: seq<Text>)
    requires Normal(true, acc)
    ensures Ups(acc) == 0
  {
  }

  lemma RootedMoves(base: seq<Text>, acc: seq<Text>)
    requires Normal(true, acc)
    ensures Moves(base, acc) == base + acc
    ensures base == [] ==> Moves(base, acc) == acc
  {
    hide Moves, Ups;
    NoUps(acc);
    NormalMoves(true, base, acc);
    assert base[..|base|] == base && acc[0..] == acc && [] + acc == acc;
  }

  /** A deep base of one odd name, which is not the first name of b. */
  function OddBase(b: seq<Text>): seq<Text> {
    var n := Ups(b);
    seq(n, _ => if n < |b| then b[n] + [0] else [])
  }

  lemma ClimbsDiffer(a: seq<Text>, b: seq<Text>)
    requires Normal(false, a) && Normal(false, b) && Ups(a) < Ups(b)
    ensures Moves(OddBase(b), a) != Moves(OddBase(b), b)
  {
    hide Moves, Normal, Ups;
    var k, n, base := Ups(a), Ups(b), OddBase(b);
    NormalMoves(false, base, a);
    NormalMoves(false, base, b);
    assert Moves(base, a)[0] == base[0];
    assert base[..0] + b[n..] == b[n..];
    if n < |b| {
      assert |base[0]| == |b[n]| + 1 && b[n..][0] == b[n];
    }
  }

  /** Two relative stacks that mean the same from every base are the same. */
  lemma StacksDiffer(a: seq<Text>, b: seq<Text>)
    requires Normal(false, a) && Normal(false, b) && Ups(a) <= Ups(b)
    requires forall base :: Moves(base, a) == Moves(base, b)
    ensures a == b
  {
    hide Moves, Normal, Ups;
    if Ups(a) < Ups(b) {
      ClimbsDiffer(a, b);
      assert false;
    } else {
      var k, base := Ups(b), OddBase(b);
      NormalMoves(false, base, a);
      NormalMoves(false, base, b);
      assert base[..0] + a[k..] == a[k..] && base[..0] + b[k..] == b[k..];
      assert a == a[..k] + a[k..] && b == b[..k] + b[k..] && a[..k] == b[..k];
    }
  }

  /** normpath decides lexical meaning: two paths have one normal form exactly when they mean the same. */
  lemma NormPathDecides(p: Text, q: Text)
    ensures NormPath(p) == NormPath(q) <==> SameMeaning(p, q)
  {
    NormPathKeepsMeaning(p);
    NormPathKeepsMeaning(q);
    if SameMeaning(p, q) {
      NormPathReads(p);
      NormPathReads(q);
      assert Meaning([], p) == Meaning([], q);
      forall base
        ensures Place(base, p) == Place(base, q)
      {
        assert Meaning(base, p) == Meaning(base, q);
        MeaningOfStack(base, p);
        MeaningOfStack(base, q);
      }
      SameStack(p, q);
    }
  }

  lemma SameStack(p: Text, q: Text)
    requires IsAbs(p) == IsAbs(q) && Normal(IsAbs(p), Stack(p)) && Normal(IsAbs(q), Stack(q))
    requires forall base :: Place(base, p) == Place(base, q)
    ensures Stack(p) == Stack(q)
  {
    hide Moves, Normal, Stack, Ups;
    var a, b := Stack(p), Stack(q);
    if IsAbs(p) {
      RootedMoves([], a);
      RootedMoves([], b);
      assert Place([], p) == Place([], q);
    } else {
      forall base
        ensures Moves(base, a) == Moves(base, b)
      {
        assert Place(base, p) == Place(base, q);
      }
      if Ups(a) <= Ups(b) {
        StacksDiffer(a, b);
      } else {
        StacksDiffer(b, a);
      }
    }
  }

  // ---------------------------------------------------------------- abspath and relpath

  lemma {:induction false} SplitOfConcat(a: Text, b: Text)
    ensures SplitOn(a + SEP + b) == SplitOn(a) + SplitOn(b)
    decreases |a|
  {
    hide SplitOn, FirstSlash;
    var k := FirstSlash(a);
    if k == |a| {
      assert a[..k] == a;
      SplitAt(a, b);
    } else {
      var c, r := a[..k], a[k + 1..];
      SplitOfConcat(r, b);
      SplitAt(c, r + SEP + b);
      SplitAt(c, r);
      assert c + SEP + r == a;
      assert c + SEP + (r + SEP + b) == a + SEP + b;
    }
  }

  lemma EmptySteps(rooted: bool, acc: seq<Text>)
    ensures SplitOn([]) == [[]]
    ensures Steps(rooted, acc, [[]]) == acc
    ensures forall cs :: Steps(rooted, acc, [[]] + cs) == Steps(rooted, acc, cs)
  {
    forall cs: seq<Text>
      ensures Steps(rooted, acc, [[]] + cs) == Steps(rooted, acc, cs)
    {
      assert ([[]] + cs)[1..] == cs;
    }
    assert Steps(rooted, acc, [[]]) == Steps(rooted, acc, []);
  }

  /** Joining a relative path goes on from where the first one ends, and keeps its root. */
  lemma JoinSteps(rooted: bool, path: Text, b: Text)
    requires !IsAbs(b)
    ensures Slashes(Join2(path, b)) == Slashes(path)
    ensures Steps(rooted, [], SplitOn(Join2(path, b))) == Steps(rooted, Steps(rooted, [], SplitOn(path)), SplitOn(b))
  {
    hide Steps, SplitOn;
    EmptySteps(rooted, []);
    if path == [] {
      assert path + b == b;
    } else if EndsInSlash(path) {
      var front := path[..|path| - 1];
      assert front + SEP + b == path + b && front + SEP + [] == path;
      SplitOfConcat(front, b);
      SplitOfConcat(front, []);
      StepsAppend(rooted, [], SplitOn(front), SplitOn(b));
      StepsAppend(rooted, [], SplitOn(front), [[]]);
      EmptySteps(rooted, Steps(rooted, [], SplitOn(front)));
    } else {
      SplitOfConcat(path, b);
      StepsAppend(rooted, [], SplitOn(path), SplitOn(b));
    }
  }

  function AbsPath(cwd: Text, path: Text): Text {
    NormPath(if IsAbs(path) then path else Join2(cwd, path))
  }

  /** [x for x in cs if x] */
  function NonEmpty(cs: seq<Text>): seq<Text> {
    if cs == [] then [] else (if cs[0] == [] then [] else [cs[0]]) + NonEmpty(cs[1..])
  }

  /** len(commonprefix([a, b])) */
  function CommonPrefix(a: seq<Text>, b: seq<Text>): (i: nat)
    ensures i <= |a| && i <= |b| && a[..i] == b[..i]
    ensures i < |a| && i < |b| ==> a[i] != b[i]
  {
    if a == [] || b == [] || a[0] != b[0] then 0 else
      var k := CommonPrefix(a[1..], b[1..]);
      assert a[..k + 1] == [a[0]] + a[1..][..k] && b[..k + 1] == [b[0]] + b[1..][..k];
      k + 1
  }

  function RelList(startList: seq<Text>, pathList: seq<Text>): seq<Text> {
    var i := CommonPrefix(startList, pathList);
    seq(|startList| - i, _ => PARDIR) + pathList[i..]
  }

  /** No value for the empty path: Python raises ValueError. */
  function RelPath(cwd: Text, path: Text, start: Text): Option<Text> {
    if path == [] then None else
      var rel := RelList(NonEmpty(SplitOn(AbsPath(cwd, start))), NonEmpty(SplitOn(AbsPath(cwd, path))));
      Some(if rel == [] then CURDIR else JoinMany(rel[0], rel[1..]))
  }

  lemma {:induction false} NonEmptyFixed(cs: seq<Text>)
    requires forall i :: 0 <= i < |cs| ==> cs[i] != []
    ensures NonEmpty(cs) == cs
  {
    if cs != [] {
      NonEmptyFixed(cs[1..]);
    }
  }

  lemma NonEmptyRendered(k: nat, acc: seq<Text>)
    requires k <= 2 && Normal(true, acc)
    ensures NonEmpty(SplitOn(Render(k, acc))) == acc
  {
    hide NonEmpty, SplitOn, JoinOn;
    var body := JoinOn(acc);
    NonEmptyJoin(acc);
    NonEmptyLeading(body);
    NonEmptyLeading(SEP + body);
    assert Render(0, acc) == body && Render(1, acc) == SEP + body && Render(2, acc) == SEP + (SEP + body);
  }

  lemma NonEmptyJoin(acc: seq<Text>)
    requires Normal(true, acc)
    ensures NonEmpty(SplitOn(JoinOn(acc))) == acc
  {
    if acc == [] {
      assert SplitOn(JoinOn(acc)) == [[]];
    } else {
      SplitOfJoin(acc);
      NonEmptyFixed(acc);
    }
  }

  lemma NonEmptyLeading(p: Text)
    ensures NonEmpty(SplitOn(SEP + p)) == NonEmpty(SplitOn(p))
  {
    SplitAt([], p);
    assert [] + SEP + p == SEP + p;
    assert SplitOn(SEP + p)[1..] == SplitOn(p);
  }

  lemma {:induction false} JoinOnSnoc(cs: seq<Text>, c: Text)
    requires cs != []
    ensures JoinOn(cs + [c]) == JoinOn(cs) + SEP + c
  {
    if |cs| > 1 {
      assert (cs + [c])[1..] == cs[1..] + [c];
      JoinOnSnoc(cs[1..], c);
      assert cs[0] + SEP + (JoinOn(cs[1..]) + SEP + c) == cs[0] + SEP + JoinOn(cs[1..]) + SEP + c;
    }
  }

  lemma {:induction false} LastOfJoin(acc: seq<Text>)
    requires acc != [] && forall i :: 0 <= i < |acc| ==> Proper(acc[i])
    ensures JoinOn(acc) != [] && !EndsInSlash(JoinOn(acc))
  {
    var c := acc[|acc| - 1];
    assert c[|c| - 1] != SLASH;
    if |acc| > 1 {
      assert acc == acc[..|acc| - 1] + [c];
      JoinOnSnoc(acc[..|acc| - 1], c);
    }
  }

  /** join of proper components is the plain concatenation with separators. */
  lemma {:induction false} JoinManyIsJoinOn(a: Text, p: seq<Text>)
    requires Proper(a) && forall i :: 0 <= i < |p| ==> Proper(p[i])
    ensures JoinMany(a, p) == JoinOn([a] + p)
    decreases |p|
  {
    if p != [] {
      var front, c := p[..|p| - 1], p[|p| - 1];
      JoinManyIsJoinOn(a, front);
      assert [a] + p == [a] + front + [c];
      JoinOnSnoc([a] + front, c);
      LastOfJoin([a] + front);
      assert c[0] != SLASH;
    } else {
      assert [a] + p == [a];
    }
  }

  /** Proper components that climb nowhere are pushed one after the other. */
  lemma {:induction false} Descend(s: seq<Text>, q: seq<Text>)
    requires Normal(true, q)
    ensures Steps(true, s, q) == s + q
    decreases |q|
  {
    if q != [] {
      StepNormal(true, [], q[0]);
      assert Step(true, s, q[0]) == s + [q[0]];
      Descend(s + [q[0]], q[1..]);
      assert s + [q[0]] + q[1..] == s + q;
    }
  }

  lemma {:induction false} Climb(s: seq<Text>, n: nat, q: seq<Text>)
    requires n <= |s| && Normal(true, s) && Normal(true, q)
    ensures Steps(true, s, seq(n, _ => PARDIR) + q) == s[..|s| - n] + q
    decreases n
  {
    var cs := seq(n, _ => PARDIR) + q;
    if n > 0 {
      assert cs[0] == PARDIR && cs[1..] == seq(n - 1, _ => PARDIR) + q;
      assert Step(true, s, PARDIR) == s[..|s| - 1];
      Climb(s[..|s| - 1], n - 1, q);
    } else {
      assert cs == q && s[..|s|] == s;
      Descend(s, q);
    }
  }

  lemma AbsPathStack(cwd: Text, path: Text)
    requires IsAbs(cwd)
    ensures var a := AbsPath(cwd, path);
            IsAbs(a) && Normal(true, Stack(a)) && a == Render(Slashes(a), Stack(a)) && NonEmpty(SplitOn(a)) == Stack(a)
  {
    var p := if IsAbs(path) then path else Join2(cwd, path);
    if !IsAbs(path) {
      JoinSteps(true, cwd, path);
    }
    NormPathReads(p);
    NonEmptyRendered(Slashes(p), Stack(p));
  }

  /** abspath leads where the path leads from the current directory. */
  lemma AbsPathLeads(cwd: Text, path: Text)
    requires IsAbs(cwd)
    ensures Stack(AbsPath(cwd, path)) == (if |path| > 0 && path[0] == 0x2F then Stack(path)
                                          else Steps(true, Stack(cwd), SplitOn(path)))
    ensures Slashes(AbsPath(cwd, path)) == if |path| > 0 && path[0] == 0x2F then Slashes(path) else Slashes(cwd)
  {
    hide Steps, SplitOn, NormPath;
    var p := if IsAbs(path) then path else Join2(cwd, path);
    if !IsAbs(path) {
      JoinSteps(true, cwd, path);
    }
    NormPathReads(p);
  }

  lemma DotStays(s: seq<Text>)
    ensures Steps(true, s, SplitOn(CURDIR)) == s == Steps(true, s, [])
  {
    SplitAt(CURDIR, []);
    assert Steps(true, s, [CURDIR]) == Steps(true, s, []);
  }

  ghost predicate AllProper(cs: seq<Text>) {
    forall i :: 0 <= i < |cs| ==> Proper(cs[i])
  }

  /** From the start directory, climbing to the common ancestor and descending again leads to the path. */
  lemma RelListLeads(s: seq<Text>, q: seq<Text>)
    requires Normal(true, s) && Normal(true, q)
    ensures AllProper(RelList(s, q)) && Steps(true, s, RelList(s, q)) == q
  {
    hide Steps, Normal, AllProper;
    var i := CommonPrefix(s, q);
    SuffixNormal(q, i);
    Climb(s, |s| - i, q[i..]);
    UpsProper(|s| - i, q[i..]);
    assert s[..i] + q[i..] == q;
  }

  lemma SuffixNormal(q: seq<Text>, i: nat)
    requires Normal(true, q) && i <= |q|
    ensures Normal(true, q[i..]) && AllProper(q[i..])
  {
  }

  lemma UpsProper(n: nat, q: seq<Text>)
    requires AllProper(q)
    ensures AllProper(seq(n, _ => PARDIR) + q)
  {
  }

  lemma RelListReads(s: seq<Text>, q: seq<Text>)
    requires Normal(true, s) && Normal(true, q)
    ensures var rel := RelList(s, q);
            var r := if rel == [] then CURDIR else JoinMany(rel[0], rel[1..]);
            !IsAbs(r) && Steps(true, s, SplitOn(r)) == q
  {
    hide Steps, SplitOn, JoinOn, JoinMany, RelList, Normal;
    RelListLeads(s, q);
    var rel := RelList(s, q);
    if rel == [] {
      DotStays(s);
    } else {
      assert rel == [rel[0]] + rel[1..];
      JoinManyIsJoinOn(rel[0], rel[1..]);
      SplitOfJoin(rel);
      FirstOfJoin(rel);
    }
  }

  /** Any common beginning is part of the longest one. */
  lemma CommonMost(a: seq<Text>, b: seq<Text>, k: nat)
    requires k <= |a| && k <= |b| && a[..k] == b[..k]
    ensures k <= CommonPrefix(a, b)
  {
    assert forall m :: 0 <= m < k ==> a[m] == a[..k][m] && b[m] == b[..k][m];
  }

  /** One step comes closer by one at most, where the distance of two places is what has to be left and entered. */
  lemma StepCloser(x: seq<Text>, c: Text, q: seq<Text>)
    ensures var y := Step(true, x, c);
            |x| + |q| - 2 * CommonPrefix(x, q) <= |y| + |q| - 2 * CommonPrefix(y, q) + 1
  {
    var y := Step(true, x, c);
    var i, k := CommonPrefix(x, q), CommonPrefix(y, q);
    if y == x + [c] {
      var m := if k <= |x| then k else |x|;
      assert x[..m] == y[..m] && q[..m] == q[..k][..m] && y[..m] == y[..k][..m];
      CommonMost(x, q, m);
    } else if |x| > 0 && y == x[..|x| - 1] {
      assert x[..k] == y[..k];
      CommonMost(x, q, k);
    }
  }

  lemma {:induction false} StepsCloser(x: seq<Text>, cs: seq<Text>, q: seq<Text>)
    requires Steps(true, x, cs) == q
    ensures |cs| >= |x| + |q| - 2 * CommonPrefix(x, q)
    decreases |cs|
  {
    if cs == [] {
      CommonMost(x, q, |q|);
    } else {
      StepCloser(x, cs[0], q);
      StepsCloser(Step(true, x, cs[0]), cs[1..], q);
    }
  }

  /** relpath's list of steps is the shortest one that leads from the start directory to the path. */
  lemma RelListShortest(s: seq<Text>, q: seq<Text>, cs: seq<Text>)
    requires Steps(true, s, cs) == q
    ensures |RelList(s, q)| <= |cs|
  {
    StepsCloser(s, cs, q);
  }

  /** A path below start is named by what follows, and start itself by the dot. */
  lemma RelListBelow(s: seq<Text>, rest: seq<Text>)
    ensures RelList(s, s + rest) == rest
  {
    CommonMost(s, s + rest, |s|);
    assert seq(0, _ => PARDIR) + rest == rest;
  }

  /** The relative path of a path below start, or of start itself. */
  lemma RelPathBelow(cwd: Text, path: Text, start: Text, rest: seq<Text>)
    requires IsAbs(cwd) && path != [] && Stack(AbsPath(cwd, path)) == Stack(AbsPath(cwd, start)) + rest
    ensures RelPath(cwd, path, start) == Some(if rest == [] then [0x2E] else JoinOn(rest))
    ensures [0x2E, 0x2E] !in rest
  {
    hide NormPath, Steps, SplitOn, NonEmpty, JoinMany, AbsPath, JoinOn, RelList;
    var a, b := AbsPath(cwd, start), AbsPath(cwd, path);
    AbsPathStack(cwd, start);
    AbsPathStack(cwd, path);
    RelListBelow(Stack(a), rest);
    assert forall i :: 0 <= i < |rest| ==> rest[i] == Stack(b)[|Stack(a)| + i];
    if rest != [] {
      assert rest == [rest[0]] + rest[1..];
      JoinManyIsJoinOn(rest[0], rest[1..]);
    }
  }

  lemma RelPathOfSelf(cwd: Text, path: Text)
    requires IsAbs(cwd) && path != []
    ensures RelPath(cwd, path, path) == Some([0x2E])
  {
    hide NormPath, Steps, SplitOn, NonEmpty, JoinMany, AbsPath, JoinOn, RelList, RelPath;
    assert Stack(AbsPath(cwd, path)) == Stack(AbsPath(cwd, path)) + [];
    RelPathBelow(cwd, path, path, []);
  }

  /** relpath inverts join: from start, the relative path leads back to path, exactly when the two absolute forms have
      the same kind of root. */
  lemma RelPathInverse(cwd: Text, path: Text, start: Text)
    requires IsAbs(cwd) && path != []
    ensures NormPath(Join2(AbsPath(cwd, start), RelPath(cwd, path, start).value)) == AbsPath(cwd, path) <==>
            Slashes(AbsPath(cwd, start)) == Slashes(AbsPath(cwd, path))
  {
    hide NormPath, Join2, RelList, Steps, SplitOn, NonEmpty, Normal, JoinMany, Slashes, AbsPath, JoinOn;
    var a, b := AbsPath(cwd, start), AbsPath(cwd, path);
    AbsPathStack(cwd, start);
    AbsPathStack(cwd, path);
    RelListReads(Stack(a), Stack(b));
    var r := RelPath(cwd, path, start).value;
    JoinSteps(true, a, r);
    NormOf(Join2(a, r));
    assert Stack(Join2(a, r)) == Stack(b);
  }

  lemma NormOf(p: Text)
    requires IsAbs(p)
    ensures NormPath(p) == Render(Slashes(p), Stack(p))
  {
  }

  // ---------------------------------------------------------------- realpath

  /** The parent step of _joinrealpath on a rendered stack. */
  lemma ParentStep(rooted: bool, acc: seq<Text>)
    requires Normal(rooted, acc)
    ensures var k := if rooted then 1 else 0;
            var path, next := Render(k, acc), Render(k, Step(rooted, acc, PARDIR));
            var (head, name) := Split(path);
            if path == [] then next == PARDIR
            else if name == PARDIR then next == JoinMany(head, [PARDIR, PARDIR])
            else next == head
  {
    var k := if rooted then 1 else 0;
    if |acc| <= 1 {
      ShortParent(rooted, acc);
    } else {
      hide Steps, Split, Render, JoinMany;
      var front, n := acc[..|acc| - 1], acc[|acc| - 1];
      assert acc == front + [n];
      NamedStep(rooted, front, n);
      LastOfRender(k, front);
      SplitOfSnoc(Render(k, front), n);
      if n == PARDIR {
        TwoParents(rooted, front);
      }
    }
  }

  lemma ShortParent(rooted: bool, acc: seq<Text>)
    requires Normal(rooted, acc) && |acc| <= 1
    ensures var k := if rooted then 1 else 0;
            var path, next := Render(k, acc), Render(k, Step(rooted, acc, PARDIR));
            var (head, name) := Split(path);
            if path == [] then next == PARDIR
            else if name == PARDIR then next == JoinMany(head, [PARDIR, PARDIR])
            else next == head
  {
    hide Split, JoinMany;
    assert Render(1, []) == SEP && Render(0, []) == [] && Render(0, [PARDIR]) == PARDIR;
    if acc == [] {
      SplitOfPlain([]);
      assert SEP + [] == SEP;
    } else {
      var n := acc[0];
      assert acc == [n];
      SplitOfPlain(n);
      assert Render(0, acc) == n && Render(1, acc) == SEP + n;
      if n == PARDIR {
        TwoParents(rooted, []);
        assert [] + [PARDIR] + [PARDIR] == acc + [PARDIR];
      }
    }
  }

  lemma LastOfRender(k: nat, acc: seq<Text>)
    requires acc != [] && k <= 1 && forall i :: 0 <= i < |acc| ==> Proper(acc[i])
    ensures Render(k, acc) != [] && !EndsInSlash(Render(k, acc))
  {
    LastOfJoin(acc);
  }

  /** Joining a name to a rendered stack. */
  lemma NamedStep(rooted: bool, acc: seq<Text>, name: Text)
    requires Normal(rooted, acc) && Proper(name)
    ensures var k := if rooted then 1 else 0;
            Join2(Render(k, acc), name) == Render(k, acc + [name])
    ensures var k := if rooted then 1 else 0;
            acc != [] ==> Render(k, acc + [name]) == Render(k, acc) + SEP + name
  {
    var k := if rooted then 1 else 0;
    if acc == [] {
      assert Render(0, acc) == [] && Render(1, acc) == SEP;
      assert acc + [name] == [name];
    } else {
      LastOfRender(k, acc);
      hide Normal, Render;
      RenderSnoc(k, acc, name);
      assert name[0] != SLASH;
    }
  }

  lemma RenderSnoc(k: nat, acc: seq<Text>, name: Text)
    requires acc != []
    ensures Render(k, acc + [name]) == Render(k, acc) + SEP + name
  {
    hide JoinOn;
    JoinOnSnoc(acc, name);
    var s, j := seq(k, _ => SLASH), JoinOn(acc);
    assert s + (j + SEP + name) == s + j + SEP + name;
  }

  lemma TwoParents(rooted: bool, front: seq<Text>)
    requires !rooted && Normal(rooted, front) && forall i :: 0 <= i < |front| ==> front[i] == PARDIR
    ensures JoinMany(Render(0, front), [PARDIR, PARDIR]) == Render(0, front + [PARDIR] + [PARDIR])
  {
    var head := Render(0, front);
    NamedStep(rooted, front, PARDIR);
    NamedStep(rooted, front + [PARDIR], PARDIR);
    assert [PARDIR, PARDIR][..1] == [PARDIR] && [PARDIR][..0] == [];
    assert JoinMany(head, [PARDIR]) == Join2(head, PARDIR);
    assert JoinMany(head, [PARDIR, PARDIR]) == Join2(JoinMany(head, [PARDIR]), PARDIR);
  }

  /** _joinrealpath as realpath calls it, with islink always false: parent steps on strings agree with the stack. */
  method JoinRealPath(filename: Text) returns (path: Text, ok: bool)
    ensures path == Render(if IsAbs(filename) then 1 else 0, Stack(filename)) && ok
  {
    hide Steps, SplitOn, Split, Normal, Join2, JoinMany, Step, Stack, FirstSlash;
    ghost var rooted := IsAbs(filename);
    ghost var k := if rooted then 1 else 0;
    ghost var acc: seq<Text> := [];
    var rest := filename;
    path, ok := [], true;
    StackStarts(filename);
    if IsAbs(rest) {
      assert rest == SEP + rest[1..];
      LeadingSlash(rooted, rest[1..]);
      rest := rest[1..];
      path := SEP;
    }
    while rest != []
      invariant Normal(rooted, acc) && path == Render(k, acc)
      invariant Steps(rooted, acc, SplitOn(rest)) == Stack(filename)
      decreases |rest|
    {
      var slash := FirstSlash(rest);
      var name := rest[..slash];
      assert Steps(rooted, acc, SplitOn(rest)) ==
             Steps(rooted, Step(rooted, acc, name), SplitOn(if slash == |rest| then [] else rest[slash + 1..])) by {
        PartitionStep(rooted, acc, rest);
      }
      rest := if slash == |rest| then [] else rest[slash + 1..];
      ghost var next := Step(rooted, acc, name);
      StepNormal(rooted, acc, name);
      if name == [] || name == CURDIR {
        continue;
      }
      if name == PARDIR {
        ParentStep(rooted, acc);
        acc := next;
        if path != [] {
          var (head, last) := Split(path);
          path := head;
          if last == PARDIR {
            path := JoinMany(path, [PARDIR, PARDIR]);
          }
        } else {
          path := PARDIR;
        }
        continue;
      }
      NamedStep(rooted, acc, name);
      path := Join2(path, name);
      acc := next;
    }
    EmptySteps(rooted, acc);
  }

  lemma StackStarts(p: Text)
    ensures Stack(p) == Steps(IsAbs(p), [], SplitOn(p))
    ensures Normal(IsAbs(p), [])
    ensures Render(0, []) == [] && Render(1, []) == SEP
  {
  }

  /** rest.partition('/') takes the first component off. */
  lemma PartitionStep(rooted: bool, acc: seq<Text>, rest: Text)
    ensures var slash := FirstSlash(rest);
            Steps(rooted, acc, SplitOn(rest)) ==
            Steps(rooted, Step(rooted, acc, rest[..slash]), SplitOn(if slash == |rest| then [] else rest[slash + 1..]))
  {
    var slash := FirstSlash(rest);
    if slash == |rest| {
      EmptySteps(rooted, Step(rooted, acc, rest));
      assert rest[..slash] == rest;
      assert [rest][1..] == [];
      assert Steps(rooted, acc, [rest]) == Steps(rooted, Step(rooted, acc, rest), []);
    } else {
      assert SplitOn(rest)[1..] == SplitOn(rest[slash + 1..]);
    }
  }

  method RealPath(cwd: Text, filename: Text) returns (r: Text)
    requires IsAbs(cwd)
    ensures r == AbsPath(cwd, filename) <==> Slashes(filename) != 2
  {
    var path, ok := JoinRealPath(filename);
    RealPathIsAbsPath(cwd, filename);
    r := AbsPath(cwd, path);
  }

  /** With no links, realpath is abspath, except for a path that begins with exactly two slashes. */
  lemma RealPathIsAbsPath(cwd: Text, f: Text)
    requires IsAbs(cwd)
    ensures AbsPath(cwd, Render(if IsAbs(f) then 1 else 0, Stack(f))) == AbsPath(cwd, f) <==> Slashes(f) != 2
  {
    hide Steps, SplitOn, Normal, Join2, JoinOn, Slashes;
    var k := if IsAbs(f) then 1 else 0;
    var shown := Render(k, Stack(f));
    NormPathReads(f);
    Rendered(IsAbs(f), k, Stack(f));
    if IsAbs(f) {
      NormOf(f);
      NormOf(shown);
    } else {
      JoinSteps(true, cwd, f);
      JoinSteps(true, cwd, shown);
      NormPathReads(cwd);
      RelativeTail(Stack(cwd), f);
    }
  }

  /** A relative path and its rendered stack lead to the same place below a root. */
  lemma RelativeTail(b: seq<Text>, f: Text)
    requires Normal(true, b) && !IsAbs(f)
    ensures Steps(true, b, SplitOn(Render(0, Stack(f)))) == Steps(true, b, SplitOn(f))
  {
    var shown := Render(0, Stack(f));
    StepsNormal(false, [], SplitOn(f));
    Rendered(false, 0, Stack(f));
    MeaningOfStack(b, f);
    MeaningOfStack(b, shown);
    RootedSteps(b, SplitOn(f));
    RootedSteps(b, SplitOn(shown));
  }

  lemma RootedSteps(b: seq<Text>, cs: seq<Text>)
    requires Normal(true, b) && forall i :: 0 <= i < |cs| ==> Plain(cs[i])
    ensures Steps(true, b, cs) == Moves(b, cs)
  {
    hide Moves, Steps, Normal;
    StepsAreMoves(true, [], b, cs);
    StepsNormal(true, b, cs);
    RootedMoves([], b);
    RootedMoves([], Steps(true, b, cs));
  }
}
