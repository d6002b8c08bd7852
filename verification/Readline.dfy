/** The line editor, and what the terminal shows while a line is edited. */
module Readline {

  import opened Wrappers
  import opened Terminal

  const BACKSPACE: nat := 0x08
  const DELETE: nat := 0x7F
  const LETTER_A: nat := 0x41
  const LETTER_B: nat := 0x42

  const CSI: Codes := [ESC, BRACKET]
  const CLEAR: Codes := [ESC, BRACKET, LETTER_K]
  const LEFT: Codes := [ESC, BRACKET, LETTER_D]
  const RIGHT: Codes := [ESC, BRACKET, LETTER_C]
  const UP: Codes := [ESC, BRACKET, LETTER_A]
  const DOWN: Codes := [ESC, BRACKET, LETTER_B]

  /** Characters that fill one cell each. */
  predicate Printable(t: Codes) {
    forall i :: 0 <= i < |t| ==> BLANK <= t[i] < DELETE
  }

  /** str(n) */
  function Decimal(n: nat): Codes {
    if n < 10 then [0x30 + n] else Decimal(n / 10) + [0x30 + n % 10]
  }

  /** The sequence that moves the cursor n cells back. */
  function Back(n: nat): Codes {
    if n > 0 then CSI + Decimal(n) + [LETTER_D] else []
  }

  // ---------------------------------------------------------------- what escape sequences draw

  /** Writing t, with the parser at e, turns the screen s into s' and leaves the parser at e'. */
  ghost predicate Draws(s: Screen, e: Scan, t: Codes, s': Screen, e': Scan, cols: nat) {
    OnScreen(s, cols, |s.lines|) && Tame(e, t) && PutAll(s, e, t, cols) == s' && ScanAll(e, t) == e'
  }

  lemma {:induction false} DrawsBoth(s: Screen, e: Scan, a: Codes, s1: Screen, e1: Scan, b: Codes, s2: Screen, e2: Scan, cols: nat)
    requires Draws(s, e, a, s1, e1, cols) && Draws(s1, e1, b, s2, e2, cols)
    ensures Draws(s, e, a + b, s2, e2, cols)
    decreases |a|
  {
    hide Put, NextScan;
    if a == [] {
      assert a + b == b;
    } else {
      assert (a + b)[0] == a[0] && (a + b)[1..] == a[1..] + b;
      DrawsBoth(Put(s, e, a[0], cols), NextScan(e, a[0]), a[1..], s1, e1, b, s2, e2, cols);
    }
  }

  lemma DrawsOne(s: Screen, e: Scan, c: nat, cols: nat)
    requires OnScreen(s, cols, |s.lines|) && e.param < LIMIT && NextScan(e, c).param < LIMIT
    ensures Draws(s, e, [c], Put(s, e, c, cols), NextScan(e, c), cols)
  {
    var t: Codes := [c];
    assert t[1..] == [];
    assert Tame(NextScan(e, c), []);
    assert PutAll(Put(s, e, c, cols), NextScan(e, c), [], cols) == Put(s, e, c, cols);
    assert ScanAll(NextScan(e, c), []) == NextScan(e, c);
  }

  lemma DrawsOpen(s: Screen, e: Scan, cols: nat)
    requires OnScreen(s, cols, |s.lines|) && e.param < LIMIT
    ensures Draws(s, e, CSI, s, Scan(2, 0), cols)
  {
    DrawsOne(s, e, ESC, cols);
    DrawsOne(s, Scan(1, e.param), BRACKET, cols);
    DrawsBoth(s, e, [ESC], s, Scan(1, e.param), [BRACKET], s, Scan(2, 0), cols);
    assert [ESC] + [BRACKET] == CSI;
  }

  /** The parser reads back the number that str wrote. */
  lemma {:induction false} DrawsNumber(s: Screen, n: nat, cols: nat)
    requires OnScreen(s, cols, |s.lines|) && n < LIMIT
    ensures Draws(s, Scan(2, 0), Decimal(n), s, Scan(2, n), cols)
  {
    if n < 10 {
      DrawsOne(s, Scan(2, 0), 0x30 + n, cols);
    } else {
      DrawsNumber(s, n / 10, cols);
      DrawsOne(s, Scan(2, n / 10), 0x30 + n % 10, cols);
      assert n / 10 * 10 + n % 10 == n;
      DrawsBoth(s, Scan(2, 0), Decimal(n / 10), s, Scan(2, n / 10), [0x30 + n % 10], s, Scan(2, n), cols);
    }
  }

  lemma DrawsBack(s: Screen, e: Scan, n: nat, cols: nat)
    requires OnScreen(s, cols, |s.lines|) && e.state == 0 && e.param < LIMIT && n <= s.x && cols < LIMIT
    ensures Draws(s, e, Back(n), s.(x := s.x - n), if n > 0 then Scan(0, n) else e, cols)
  {
    if n > 0 {
      DrawsOpen(s, e, cols);
      DrawsNumber(s, n, cols);
      DrawsOne(s, Scan(2, n), LETTER_D, cols);
      DrawsBoth(s, e, CSI, s, Scan(2, 0), Decimal(n), s, Scan(2, n), cols);
      DrawsBoth(s, e, CSI + Decimal(n), s, Scan(2, n), [LETTER_D], s.(x := s.x - n), Scan(0, n), cols);
    }
  }

  /** ESC[K, ESC[D and ESC[C without a number. */
  lemma DrawsPlain(s: Screen, e: Scan, c: nat, cols: nat)
    requires OnScreen(s, cols, |s.lines|) && e.param < LIMIT && (c == LETTER_K || c == LETTER_D || c == LETTER_C)
    ensures Draws(s, e, [ESC, BRACKET, c], Put(s, Scan(2, 0), c, cols), NextScan(Scan(2, 0), c), cols)
  {
    DrawsOpen(s, e, cols);
    DrawsOne(s, Scan(2, 0), c, cols);
    DrawsBoth(s, e, CSI, s, Scan(2, 0), [c], Put(s, Scan(2, 0), c, cols), NextScan(Scan(2, 0), c), cols);
    assert CSI + [c] == [ESC, BRACKET, c];
  }

  // ---------------------------------------------------------------- the edited line on the screen

  /** A screen like base except for its current line and the cursor's column. */
  function Show(base: Screen, line: Codes, x: nat): Screen
    requires base.y < |base.lines|
  {
    Screen(base.lines[base.y := line], x, base.y)
  }

  function Line(lead: Codes, text: Codes, cols: nat): (r: Codes)
    requires |lead| + |text| <= cols
    ensures |r| == cols
  {
    lead + text + Blanks(cols - |lead| - |text|)
  }

  /** The current line shows lead, text and blanks, with the cursor behind lead and the first at characters of text. */
  function View(base: Screen, lead: Codes, text: Codes, at: nat, cols: nat): Screen
    requires base.y < |base.lines| && |lead| + |text| < cols && at <= |text|
  {
    Show(base, Line(lead, text, cols), |lead| + at)
  }

  /** Writing text over a line moves the cursor behind it. */
  lemma {:induction false} DrawsText(s: Screen, e: Scan, t: Codes, cols: nat)
    requires OnScreen(s, cols, |s.lines|) && e.state == 0 && e.param < LIMIT && Printable(t) && s.x + |t| < cols
    ensures Draws(s, e, t, Overwritten(s, t), e, cols)
    decreases |t|
  {
    if t == [] {
      assert s.lines[s.y][..s.x] + [] + s.lines[s.y][s.x..] == s.lines[s.y];
      assert Overwritten(s, t) == s;
    } else {
      var next := Put(s, e, t[0], cols);
      assert next == Screen(WithCell(s.lines, s.x, s.y, t[0]), s.x + 1, s.y);
      DrawsOne(s, e, t[0], cols);
      DrawsText(next, e, t[1..], cols);
      OverwrittenStep(s, t);
      DrawsBoth(s, e, [t[0]], next, e, t[1..], Overwritten(s, t), e, cols);
      assert [t[0]] + t[1..] == t;
    }
  }

  function Overwritten(s: Screen, t: Codes): Screen
    requires s.y < |s.lines| && s.x + |t| <= |s.lines[s.y]|
  {
    var line: Codes := s.lines[s.y][..s.x] + t + s.lines[s.y][s.x + |t|..];
    Screen(s.lines[s.y := line], s.x + |t|, s.y)
  }

  lemma OverwrittenStep(s: Screen, t: Codes)
    requires s.y < |s.lines| && s.x + |t| <= |s.lines[s.y]| && t != []
    ensures Overwritten(Screen(WithCell(s.lines, s.x, s.y, t[0]), s.x + 1, s.y), t[1..]) == Overwritten(s, t)
  {
    var l := s.lines[s.y];
    var l1: Codes := l[s.x := t[0]];
    assert l1[..s.x + 1] == l[..s.x] + [t[0]];
    assert l1[s.x + |t|..] == l[s.x + |t|..];
    assert l[..s.x] + [t[0]] + t[1..] == l[..s.x] + t;
  }

  lemma ShowText(base: Screen, line: Codes, x: nat, e: Scan, t: Codes, cols: nat)
    requires OnScreen(base, cols, |base.lines|) && |line| == cols && x + |t| < cols
    requires e.state == 0 && e.param < LIMIT && Printable(t)
    ensures Draws(Show(base, line, x), e, t, Show(base, line[..x] + t + line[x + |t|..], x + |t|), e, cols)
  {
    DrawsText(Show(base, line, x), e, t, cols);
    assert Overwritten(Show(base, line, x), t) == Show(base, line[..x] + t + line[x + |t|..], x + |t|);
  }

  lemma ShowBack(base: Screen, line: Codes, x: nat, e: Scan, n: nat, cols: nat)
    requires OnScreen(base, cols, |base.lines|) && |line| == cols < LIMIT && n <= x < cols
    requires e.state == 0 && e.param < LIMIT
    ensures Draws(Show(base, line, x), e, Back(n), Show(base, line, x - n), if n > 0 then Scan(0, n) else e, cols)
  {
    DrawsBack(Show(base, line, x), e, n, cols);
  }

  lemma ShowClear(base: Screen, line: Codes, x: nat, e: Scan, cols: nat)
    requires OnScreen(base, cols, |base.lines|) && |line| == cols && x < cols
    requires e.param < LIMIT
    ensures Draws(Show(base, line, x), e, CLEAR, Show(base, line[..x] + Blanks(cols - x), x), Scan(0, 0), cols)
  {
    DrawsPlain(Show(base, line, x), e, LETTER_K, cols);
  }

  lemma ShowLeft(base: Screen, line: Codes, x: nat, e: Scan, cols: nat)
    requires OnScreen(base, cols, |base.lines|) && |line| == cols && 0 < x < cols
    requires e.param < LIMIT
    ensures Draws(Show(base, line, x), e, LEFT, Show(base, line, x - 1), Scan(0, 1), cols)
  {
    DrawsPlain(Show(base, line, x), e, LETTER_D, cols);
  }

  lemma ShowRight(base: Screen, line: Codes, x: nat, e: Scan, cols: nat)
    requires OnScreen(base, cols, |base.lines|) && |line| == cols && x + 1 < cols
    requires e.param < LIMIT
    ensures Draws(Show(base, line, x), e, RIGHT, Show(base, line, x + 1), Scan(2, 1), cols)
  {
    DrawsPlain(Show(base, line, x), e, LETTER_C, cols);
  }

  // ---------------------------------------------------------------- the editor's output, command by command

  /** A write that starts outside any escape sequence, as every flush does, turns s into s'. */
  ghost predicate Writes(s: Screen, t: Codes, s': Screen, cols: nat) {
    OnScreen(s, cols, |s.lines|) && Tame(Scan(0, 0), t) && PutAll(s, Scan(0, 0), t, cols) == s'
  }

  /** The prompt, behind whatever the line shows up to the cursor. */
  lemma WritesPrompt(s: Screen, prompt: Codes, cols: nat)
    requires OnScreen(s, cols, |s.lines|) && Printable(prompt) && s.x + |prompt| < cols
    ensures Writes(s, prompt + CLEAR, View(s, s.lines[s.y][..s.x] + prompt, [], 0, cols), cols)
  {
    hide OnScreen, Draws, Show, Blanks;
    ShowSelf(s, cols);
    var e, line, x := Scan(0, 0), s.lines[s.y], s.x + |prompt|;
    var line1 := line[..s.x] + prompt + line[x..];
    var line2 := line1[..x] + Blanks(cols - x);
    ShowText(s, line, s.x, e, prompt, cols);
    ShowClear(s, line1, x, e, cols);
    DrawsBoth(s, e, prompt, Show(s, line1, x), e, CLEAR, Show(s, line2, x), Scan(0, 0), cols);
    assert line2 == Line(line[..s.x] + prompt, [], cols) by {
      assert line1[..x] == line[..s.x] + prompt;
    }
    DrawsWrites(s, prompt + CLEAR, Show(s, line2, x), Scan(0, 0), cols);
  }

  lemma ShowSelf(s: Screen, cols: nat)
    requires OnScreen(s, cols, |s.lines|)
    ensures s.y < |s.lines| && |s.lines[s.y]| == cols && Show(s, s.lines[s.y], s.x) == s
  {
  }

  lemma DrawsWrites(s: Screen, t: Codes, s': Screen, e': Scan, cols: nat)
    requires Draws(s, Scan(0, 0), t, s', e', cols)
    ensures Writes(s, t, s', cols)
  {
  }

  lemma TypedLine(lead: Codes, left: Codes, c: nat, right: Codes, cols: nat)
    requires |lead| + |left| + |right| + 1 < cols
    ensures var line, x, t := Line(lead, left + right, cols), |lead| + |left|, [c] + right;
            line[..x] + t + line[x + |t|..] == Line(lead, left + [c] + right, cols)
  {
    hide Blanks, Line;
    var line, x, n := Line(lead, left + right, cols), |lead| + |left|, |right|;
    LineParts(lead, left, right, cols);
    LineParts(lead, left + [c], right, cols);
    FewerBlanks(cols - x - n, 1);
    assert line[x + n + 1..] == line[x + n..][1..];
  }

  lemma WritesTyped(base: Screen, lead: Codes, left: Codes, c: nat, right: Codes, cols: nat)
    requires OnScreen(base, cols, |base.lines|) && |lead| + |left| + |right| + 1 < cols < LIMIT
    requires Printable([c] + right)
    ensures Writes(View(base, lead, left + right, |left|, cols), [c] + right + Back(|right|),
                   View(base, lead, left + [c] + right, |left| + 1, cols), cols)
  {
    hide OnScreen, Draws, Show, Blanks, Line, Back;
    ShowSelf(base, cols);
    var e, x, t := Scan(0, 0), |lead| + |left|, [c] + right;
    var line, line1 := Line(lead, left + right, cols), Line(lead, left + [c] + right, cols);
    TypedLine(lead, left, c, right, cols);
    ShowText(base, line, x, e, t, cols);
    ShowBack(base, line1, x + |t|, e, |right|, cols);
    DrawsBoth(Show(base, line, x), e, t, Show(base, line1, x + |t|), e, Back(|right|), Show(base, line1, x + 1),
              if |right| > 0 then Scan(0, |right|) else e, cols);
    DrawsWrites(Show(base, line, x), t + Back(|right|), Show(base, line1, x + 1),
                if |right| > 0 then Scan(0, |right|) else e, cols);
  }

  lemma LineParts(lead: Codes, left: Codes, right: Codes, cols: nat)
    requires |lead| + |left| + |right| <= cols
    ensures var x := |lead| + |left|; var line := Line(lead, left + right, cols);
            line[..x] == lead + left && line[x + |right|..] == Blanks(cols - x - |right|) &&
            line == lead + left + right + Blanks(cols - x - |right|)
  {
  }

  lemma FewerBlanks(n: nat, k: nat)
    requires k <= n
    ensures Blanks(n)[k..] == Blanks(n - k)
  {
  }

  lemma WritesErased(base: Screen, lead: Codes, left: Codes, c: nat, right: Codes, cols: nat)
    requires OnScreen(base, cols, |base.lines|) && |lead| + |left| + |right| + 1 < cols < LIMIT
    requires Printable(right)
    ensures Writes(View(base, lead, left + [c] + right, |left| + 1, cols), LEFT + right + CLEAR + Back(|right|),
                   View(base, lead, left + right, |left|, cols), cols)
  {
    hide OnScreen, Draws, Show, Blanks, Line;
    ShowSelf(base, cols);
    var e, x, n := Scan(0, 0), |lead| + |left|, |right|;
    var line, line' := Line(lead, left + [c] + right, cols), Line(lead, left + right, cols);
    var line1 := line[..x] + right + line[x + n..];
    var line2 := line1[..x + n] + Blanks(cols - x - n);
    assert line2 == line' by {
      LineParts(lead, left, right, cols);
      assert left + [c] + right == left + ([c] + right);
      LineParts(lead, left, [c] + right, cols);
      assert line1[..x + n] == line[..x] + right;
    }
    ShowLeft(base, line, x + 1, e, cols);
    ShowText(base, line, x, Scan(0, 1), right, cols);
    ShowClear(base, line1, x + n, Scan(0, 1), cols);
    ShowBack(base, line2, x + n, e, n, cols);
    var last := if n > 0 then Scan(0, n) else e;
    DrawsBoth(Show(base, line, x + 1), e, LEFT, Show(base, line, x), Scan(0, 1), right, Show(base, line1, x + n),
              Scan(0, 1), cols);
    DrawsBoth(Show(base, line, x + 1), e, LEFT + right, Show(base, line1, x + n), Scan(0, 1), CLEAR,
              Show(base, line2, x + n), e, cols);
    DrawsBoth(Show(base, line, x + 1), e, LEFT + right + CLEAR, Show(base, line2, x + n), e, Back(n),
              Show(base, line2, x), last, cols);
    DrawsWrites(Show(base, line, x + 1), LEFT + right + CLEAR + Back(n), Show(base, line2, x), last, cols);
  }

  lemma WritesMoved(base: Screen, lead: Codes, text: Codes, at: nat, cols: nat)
    requires OnScreen(base, cols, |base.lines|) && |lead| + |text| < cols && at < |text|
    ensures Writes(View(base, lead, text, at, cols), RIGHT, View(base, lead, text, at + 1, cols), cols)
    ensures Writes(View(base, lead, text, at + 1, cols), LEFT, View(base, lead, text, at, cols), cols)
  {
    hide OnScreen, Draws, Show, Line;
    ShowSelf(base, cols);
    var line, x := Line(lead, text, cols), |lead| + at;
    ShowRight(base, line, x, Scan(0, 0), cols);
    ShowLeft(base, line, x + 1, Scan(0, 0), cols);
    DrawsWrites(Show(base, line, x), RIGHT, Show(base, line, x + 1), Scan(2, 1), cols);
    DrawsWrites(Show(base, line, x + 1), LEFT, Show(base, line, x), Scan(0, 1), cols);
  }

  lemma WritesRecalled(base: Screen, lead: Codes, text: Codes, at: nat, entry: Codes, cols: nat)
    requires OnScreen(base, cols, |base.lines|) && |lead| + |text| < cols < LIMIT && at <= |text|
    requires |lead| + |entry| < cols && Printable(entry)
    ensures Writes(View(base, lead, text, at, cols), Back(at) + CLEAR + entry,
                   View(base, lead, entry, |entry|, cols), cols)
  {
    hide OnScreen, Draws, Show, Blanks, Line;
    ShowSelf(base, cols);
    var e, x, n := Scan(0, 0), |lead|, |entry|;
    var line, line' := Line(lead, text, cols), Line(lead, entry, cols);
    BlankCount(cols - x);
    var line1 := line[..x] + Blanks(cols - x);
    var line2 := line1[..x] + entry + line1[x + n..];
    assert line2 == line' by {
      LineParts(lead, [], text, cols);
      LineParts(lead, [], entry, cols);
      FewerBlanks(cols - x, 0);
      FewerBlanks(cols - x, n);
      assert [] + text == text && [] + entry == entry && lead + [] == lead;
      assert line1[..x] == lead && line1[x + n..] == Blanks(cols - x)[n..];
    }
    var e1 := if at > 0 then Scan(0, at) else e;
    ShowBack(base, line, x + at, e, at, cols);
    ShowClear(base, line, x, e1, cols);
    ShowText(base, line1, x, e, entry, cols);
    DrawsBoth(Show(base, line, x + at), e, Back(at), Show(base, line, x), e1, CLEAR, Show(base, line1, x), e, cols);
    DrawsBoth(Show(base, line, x + at), e, Back(at) + CLEAR, Show(base, line1, x), e, entry, Show(base, line2, x + n),
              e, cols);
    DrawsWrites(Show(base, line, x + at), Back(at) + CLEAR + entry, Show(base, line2, x + n), e, cols);
  }

  lemma BlankCount(n: nat)
    ensures |Blanks(n)| == n
  {
  }

  /** Nothing written, nothing changed. */
  lemma WritesNothing(s: Screen, cols: nat)
    requires OnScreen(s, cols, |s.lines|)
    ensures Writes(s, [], s, cols)
  {
  }

  lemma WritesNewline(base: Screen, lead: Codes, text: Codes, at: nat, cols: nat)
    requires OnScreen(base, cols, |base.lines|) && |lead| + |text| < cols && at <= |text|
    ensures var v := View(base, lead, text, at, cols);
            Writes(v, [NEWLINE], LineFeed(v.lines, v.y, cols), cols)
  {
    DrawsOne(View(base, lead, text, at, cols), Scan(0, 0), NEWLINE, cols);
  }

  // ---------------------------------------------------------------- what an editor does

  /** The edited text on both sides of the cursor, the place in the history, and the history, whose last entry is the
      line being typed. */
  datatype Ed = Ed(left: Codes, right: Codes, at: nat, hist: seq<Codes>)

  function Text(ed: Ed): Codes {
    ed.left + ed.right
  }

  predicate EdOk(ed: Ed) {
    ed.at < |ed.hist| && Text(ed) == ed.hist[ed.at]
  }

  /** A changed text becomes the line being typed. */
  function Changed(ed: Ed, left: Codes, right: Codes): Ed
    requires ed.hist != []
  {
    Ed(left, right, |ed.hist| - 1, ed.hist[|ed.hist| - 1 := left + right])
  }

  function Recalled(ed: Ed, at: nat): Ed
    requires at < |ed.hist|
  {
    Ed(ed.hist[at], [], at, ed.hist)
  }

  function Init(s: Codes): Codes
    requires s != []
  {
    s[..|s| - 1]
  }

  /** What one command means. */
  function Key(ed: Ed, cmd: Codes): (r: Ed)
    requires EdOk(ed)
    ensures EdOk(r) && |r.hist| == |ed.hist| && r.hist[..|r.hist| - 1] == ed.hist[..|r.hist| - 1]
  {
    if cmd == [BACKSPACE] || cmd == [DELETE] then if ed.left == [] then ed else Changed(ed, Init(ed.left), ed.right)
    else if |cmd| == 1 && cmd[0] >= BLANK then Changed(ed, ed.left + cmd, ed.right)
    else if cmd == LEFT && ed.left != [] then
      assert Init(ed.left) + ([ed.left[|ed.left| - 1]] + ed.right) == Text(ed);
      ed.(left := Init(ed.left), right := [ed.left[|ed.left| - 1]] + ed.right)
    else if cmd == RIGHT && ed.right != [] then
      assert ed.left + [ed.right[0]] + ed.right[1..] == Text(ed);
      ed.(left := ed.left + [ed.right[0]], right := ed.right[1..])
    else if cmd == UP && ed.at > 0 then Recalled(ed, ed.at - 1)
    else if cmd == DOWN && ed.at < |ed.hist| - 1 then Recalled(ed, ed.at + 1)
    else ed
  }

  /** The next command of the input: a character, ESC and a character, or ESC[ and a character. */
  function NextCmd(s: Codes): (r: Option<Codes>)
    ensures r.Some? ==> 1 <= |r.value| <= |s| && r.value == s[..|r.value|]
  {
    if s == [] then None
    else if s[0] != ESC then Some(s[..1])
    else if |s| == 1 then None
    else if s[1] != BRACKET then Some(s[..2])
    else if |s| == 2 then None
    else Some(s[..3])
  }

  /** A command is the shortest beginning of the input that is not a beginning of ESC[; while there is none it is incomplete. */
  lemma CmdMeans(s: Codes)
    ensures NextCmd(s).None? <==> s <= [0x1B, 0x5B]
    ensures NextCmd(s).Some? ==>
              var cmd := NextCmd(s).value;
              && cmd <= s && !(cmd <= [0x1B, 0x5B]) && forall k :: 0 <= k < |cmd| ==> s[..k] <= [0x1B, 0x5B]
  {
  }

  lemma CmdLengths(s: Codes)
    ensures |s| > 0 && s[0] != 0x1B ==> NextCmd(s) == Some([s[0]])
    ensures |s| > 1 && s[0] == 0x1B && s[1] != 0x5B ==> NextCmd(s) == Some(s[..2])
    ensures |s| > 2 && s[0] == 0x1B && s[1] == 0x5B ==> NextCmd(s) == Some(s[..3])
  {
    assert |s| > 0 ==> s[..1] == [s[0]];
  }

  /** What each command does to a text with a cursor and a place in the history, by the codes that arrive: 8 and 127 erase the
      character before the cursor, other characters are put there, ESC[D and ESC[C move the cursor, ESC[A and ESC[B
      recall the entry before and behind; anything else does nothing. A changed text becomes the line being typed. */
  lemma KeyMeans(ed: Ed, cmd: Codes)
    requires EdOk(ed)
    ensures var t, p, to := Text(ed), |ed.left|, Key(ed, cmd);
            if cmd == [8] || cmd == [127] then
              if p == 0 then to == ed
              else Text(to) == t[..p - 1] + t[p..] && |to.left| == p - 1 && TypedInto(ed, to)
            else if |cmd| == 1 && cmd[0] >= 32 then
              Text(to) == t[..p] + cmd + t[p..] && |to.left| == p + 1 && TypedInto(ed, to)
            else if cmd == [0x1B, 0x5B, 0x44] then
              Text(to) == t && |to.left| == (if p > 0 then p - 1 else 0) && to.at == ed.at && to.hist == ed.hist
            else if cmd == [0x1B, 0x5B, 0x43] then
              Text(to) == t && |to.left| == (if p < |t| then p + 1 else p) && to.at == ed.at && to.hist == ed.hist
            else if cmd == [0x1B, 0x5B, 0x41] && ed.at > 0 then
              Text(to) == ed.hist[ed.at - 1] && |to.left| == |Text(to)| && to.at == ed.at - 1 && to.hist == ed.hist
            else if cmd == [0x1B, 0x5B, 0x42] && ed.at + 1 < |ed.hist| then
              Text(to) == ed.hist[ed.at + 1] && |to.left| == |Text(to)| && to.at == ed.at + 1 && to.hist == ed.hist
            else to == ed
  {
    assert Text(ed)[..|ed.left|] == ed.left && Text(ed)[|ed.left|..] == ed.right;
  }

  /** The new text is the last line of the history, and the place in the history is there. */
  ghost predicate TypedInto(ed: Ed, to: Ed) {
    |ed.hist| > 0 && to.hist == ed.hist[..|ed.hist| - 1] + [Text(to)] && to.at == |ed.hist| - 1
  }

  /** A completed line stands at the end of the history, once. */
  lemma FinishedMeans(history: seq<Codes>, line: Codes)
    ensures var h := Finished(history, line);
            && |h| > 0 && h[|h| - 1] == line && history <= h
            && |h| == if |history| > 0 && history[|history| - 1] == line then |history| else |history| + 1
  {
  }

  /** Still waiting for input, or returned with the rest of the input. */
  datatype Outcome = Waiting(ed: Ed) | Returned(ed: Ed, rest: Codes)

  /** Commands up to the end of the line. */
  function Keys(ed: Ed, s: Codes): (r: Outcome)
    requires EdOk(ed)
    ensures EdOk(r.ed)
    ensures |r.ed.hist| == |ed.hist| && r.ed.hist[..|ed.hist| - 1] == ed.hist[..|ed.hist| - 1]
    ensures r.Returned? ==> |r.rest| < |s|
    decreases |s|
  {
    var cmd := NextCmd(s);
    if cmd.None? then Waiting(ed)
    else if cmd.value == [NEWLINE] then Returned(ed, s[1..])
    else Keys(Key(ed, cmd.value), s[|cmd.value|..])
  }

  /** Editing goes on command by command, by the codes that arrive, and returns at a line feed, with what is behind it. */
  lemma KeysMeans(ed: Ed, s: Codes)
    requires EdOk(ed)
    ensures Start(ed.hist).hist == ed.hist + [[]] && Start(ed.hist).at == |ed.hist| && Text(Start(ed.hist)) == []
    ensures s <= [0x1B, 0x5B] ==> Keys(ed, s) == Waiting(ed)
    ensures |s| > 0 && s[0] == 0x0A ==> Keys(ed, s) == Returned(ed, s[1..])
    ensures |s| > 0 && s[0] != 0x0A && s[0] != 0x1B ==> Keys(ed, s) == Keys(Key(ed, [s[0]]), s[1..])
    ensures |s| > 1 && s[0] == 0x1B && s[1] != 0x5B ==> Keys(ed, s) == Keys(Key(ed, s[..2]), s[2..])
    ensures |s| > 2 && s[0] == 0x1B && s[1] == 0x5B ==> Keys(ed, s) == Keys(Key(ed, s[..3]), s[3..])
  {
    hide Keys, Key, NextCmd;
    KeysStep(ed, s);
    CmdMeans(s);
    CmdLengths(s);
  }

  /** A line typed without any editing is entered as it was typed. */
  lemma {:induction false} EnteredAsTyped(ed: Ed, line: Codes, rest: Codes)
    requires EdOk(ed) && ed.right == [] && forall i :: 0 <= i < |line| ==> 32 <= line[i] && line[i] != 127
    ensures Keys(ed, line + [0x0A] + rest).Returned?
    ensures var o := Keys(ed, line + [0x0A] + rest); o.Returned? ==> Text(o.ed) == Text(ed) + line && o.rest == rest
    decreases |line|
  {
    hide Keys, Key;
    var s := line + [0x0A] + rest;
    KeysMeans(ed, s);
    if line == [] {
      assert s[0] == 0x0A && s[1..] == rest;
    } else {
      var next := Key(ed, [line[0]]);
      KeyMeans(ed, [line[0]]);
      assert next.right == [];
      assert s[1..] == line[1..] + [0x0A] + rest;
      assert Text(ed) + [line[0]] + line[1..] == Text(ed) + line;
      EnteredAsTyped(next, line[1..], rest);
    }
  }

  /** All along the way the text is shorter than the room for it. */
  predicate Fits(ed: Ed, s: Codes, room: int)
    requires EdOk(ed)
    decreases |s|
  {
    var cmd := NextCmd(s);
    |Text(ed)| < room &&
    (cmd.Some? && cmd.value != [NEWLINE] ==> Fits(Key(ed, cmd.value), s[|cmd.value|..], room))
  }

  /** A new line below the history. */
  function Start(history: seq<Codes>): (r: Ed)
    ensures EdOk(r)
  {
    Ed([], [], |history|, history + [[]])
  }

  /** The history after a line was completed: no entry is repeated at the end. */
  function Finished(history: seq<Codes>, line: Codes): seq<Codes> {
    if history != [] && history[|history| - 1] == line then history else history + [line]
  }

  /** No two neighbours are equal. */
  predicate NoTwins(history: seq<Codes>) {
    forall i :: 0 < i < |history| ==> history[i] != history[i - 1]
  }

  lemma FinishedNoTwins(history: seq<Codes>, line: Codes)
    requires NoTwins(history)
    ensures NoTwins(Finished(history, line))
  {
  }

  predicate AllPrintable(ts: seq<Codes>) {
    forall i :: 0 <= i < |ts| ==> Printable(ts[i])
  }

  predicate IsAscii(s: Codes) {
    forall i :: 0 <= i < |s| ==> s[i] < 128
  }

  // ---------------------------------------------------------------- the writes of a run

  ghost predicate Tames(ws: seq<Codes>) {
    forall i :: 0 <= i < |ws| ==> Tame(Scan(0, 0), ws[i])
  }

  /** What a screen shows after some writes, each one call of putstring. */
  function DrawAll(s: Screen, ws: seq<Codes>, cols: nat): (r: Screen)
    requires OnScreen(s, cols, |s.lines|)
    ensures OnScreen(r, cols, |s.lines|)
  {
    if ws == [] then s else PutAll(DrawAll(s, ws[..|ws| - 1], cols), Scan(0, 0), ws[|ws| - 1], cols)
  }

  /** The text fits on the line before and after a command. */
  ghost predicate Room(base: Screen, lead: Codes, ed: Ed, cmd: Codes, cols: nat)
    requires EdOk(ed)
  {
    OnScreen(base, cols, |base.lines|) && cols < LIMIT && AllPrintable(ed.hist) && IsAscii(cmd) &&
    |lead| + |Text(ed)| < cols && |lead| + |Text(Key(ed, cmd))| < cols
  }

  lemma PrintableParts(left: Codes, right: Codes)
    requires Printable(left + right)
    ensures Printable(left) && Printable(right)
  {
    assert forall i :: 0 <= i < |left| ==> left[i] == (left + right)[i];
    assert forall i :: 0 <= i < |right| ==> right[i] == (left + right)[|left| + i];
  }

  lemma KeyPrintable(ed: Ed, cmd: Codes)
    requires EdOk(ed) && AllPrintable(ed.hist) && IsAscii(cmd)
    ensures AllPrintable(Key(ed, cmd).hist)
  {
    assert Printable(Text(ed));
    PrintableParts(ed.left, ed.right);
  }

  /** What the terminal shows for an editor state. */
  ghost function Seen(base: Screen, lead: Codes, ed: Ed, cols: nat): Screen
    requires base.y < |base.lines| && |lead| + |Text(ed)| < cols
  {
    View(base, lead, Text(ed), |ed.left|, cols)
  }

  ghost predicate KeyShown(base: Screen, lead: Codes, ed: Ed, cmd: Codes, out: Codes, cols: nat)
    requires EdOk(ed)
  {
    Room(base, lead, ed, cmd, cols) ==> Writes(Seen(base, lead, ed, cols), out, Seen(base, lead, Key(ed, cmd), cols), cols)
  }

  lemma TypedShown(base: Screen, lead: Codes, ed: Ed, cmd: Codes, cols: nat)
    requires EdOk(ed) && |cmd| == 1 && BLANK <= cmd[0] != DELETE
    ensures Key(ed, cmd) == Changed(ed, ed.left + cmd, ed.right)
    ensures KeyShown(base, lead, ed, cmd, cmd + ed.right + Back(|ed.right|), cols)
  {
    hide Writes, View;
    if Room(base, lead, ed, cmd, cols) {
      PrintableParts(ed.left, ed.right);
      assert cmd == [cmd[0]] && Printable(cmd + ed.right);
      WritesTyped(base, lead, ed.left, cmd[0], ed.right, cols);
    }
  }

  lemma ErasedShown(base: Screen, lead: Codes, ed: Ed, cmd: Codes, cols: nat)
    requires EdOk(ed) && (cmd == [BACKSPACE] || cmd == [DELETE]) && ed.left != []
    ensures Key(ed, cmd) == Changed(ed, Init(ed.left), ed.right)
    ensures KeyShown(base, lead, ed, cmd, LEFT + ed.right + CLEAR + Back(|ed.right|), cols)
  {
    hide Writes, View;
    if Room(base, lead, ed, cmd, cols) {
      var left, c := Init(ed.left), ed.left[|ed.left| - 1];
      assert ed.left == left + [c];
      PrintableParts(ed.left, ed.right);
      WritesErased(base, lead, left, c, ed.right, cols);
    }
  }

  lemma MovedShown(base: Screen, lead: Codes, ed: Ed, cmd: Codes, cols: nat)
    requires EdOk(ed) && ((cmd == LEFT && ed.left != []) || (cmd == RIGHT && ed.right != []))
    ensures var to := Key(ed, cmd);
            Text(to) == Text(ed) && |to.left| == |ed.left| + (if cmd == LEFT then -1 else 1) &&
            to.at == ed.at && to.hist == ed.hist
    ensures KeyShown(base, lead, ed, cmd, cmd, cols)
  {
    hide Writes, View;
    if Room(base, lead, ed, cmd, cols) {
      WritesMoved(base, lead, Text(ed), if cmd == LEFT then |ed.left| - 1 else |ed.left|, cols);
    }
  }

  lemma RecalledShown(base: Screen, lead: Codes, ed: Ed, cmd: Codes, cols: nat)
    requires EdOk(ed) && ((cmd == UP && ed.at > 0) || (cmd == DOWN && ed.at < |ed.hist| - 1))
    ensures Key(ed, cmd) == Recalled(ed, if cmd == UP then ed.at - 1 else ed.at + 1)
    ensures Text(Key(ed, cmd)) == ed.hist[Key(ed, cmd).at]
    ensures KeyShown(base, lead, ed, cmd, Back(|ed.left|) + CLEAR + ed.hist[Key(ed, cmd).at], cols)
  {
    hide Writes, View;
    if Room(base, lead, ed, cmd, cols) {
      var entry := ed.hist[Key(ed, cmd).at];
      assert Text(Key(ed, cmd)) == entry;
      WritesRecalled(base, lead, Text(ed), |ed.left|, entry, cols);
    }
  }

  lemma IdleShown(base: Screen, lead: Codes, ed: Ed, cmd: Codes, cols: nat)
    requires EdOk(ed) && (cmd == [BACKSPACE] || cmd == [DELETE] || cmd == LEFT ==> ed.left == [])
    requires (cmd == RIGHT ==> ed.right == []) && (cmd == UP ==> ed.at == 0) && (cmd == DOWN ==> ed.at == |ed.hist| - 1)
    requires |cmd| == 1 ==> cmd[0] < BLANK || cmd == [DELETE]
    ensures Key(ed, cmd) == ed && KeyShown(base, lead, ed, cmd, [], cols)
  {
    if Room(base, lead, ed, cmd, cols) {
      WritesNothing(Seen(base, lead, ed, cols), cols);
    }
  }

  /** One more write, outside any escape sequence. */
  lemma DrawsMore(s: Screen, ws: seq<Codes>, out: Codes, s': Screen, cols: nat)
    requires OnScreen(s, cols, |s.lines|) && Tames(ws) && Writes(DrawAll(s, ws, cols), out, s', cols)
    ensures Tames(ws + [out]) && DrawAll(s, ws + [out], cols) == s'
    ensures out == [] ==> DrawAll(s, ws, cols) == s'
  {
    assert (ws + [out])[..|ws + [out]| - 1] == ws;
  }

  /** The prompt and everything typed, recalled or edited fits on the line the cursor is in. */
  ghost predicate Roomy(base: Screen, prompt: Codes, history: seq<Codes>, input: Codes, cols: nat) {
    OnScreen(base, cols, |base.lines|) && cols < LIMIT && Printable(prompt) && AllPrintable(history) && IsAscii(input) &&
    Fits(Start(history), input, cols - base.x - |prompt|)
  }

  /** What stands before the edited text: what the line showed up to the cursor, and the prompt. */
  ghost function Lead(base: Screen, prompt: Codes): Codes
    requires base.y < |base.lines| && base.x <= |base.lines[base.y]|
  {
    base.lines[base.y][..base.x] + prompt
  }

  /** The screen while a line is edited, and after it was completed. */
  ghost function Final(base: Screen, lead: Codes, o: Outcome, cols: nat): Screen
    requires base.y < |base.lines| && |lead| + |Text(o.ed)| < cols
  {
    var s := Seen(base, lead, o.ed, cols);
    if o.Waiting? then s else LineFeed(s.lines, s.y, cols)
  }

  /** It has what stood before the cursor, the prompt, the text and blanks on the current line, with the cursor in the text;
      a completed line leaves the cursor at the beginning of the next one. */
  lemma FinalMeans(base: Screen, prompt: Codes, o: Outcome, cols: nat)
    requires OnScreen(base, cols, |base.lines|) && EdOk(o.ed) && base.x + |prompt| + |Text(o.ed)| < cols
    ensures |Lead(base, prompt)| + |Text(o.ed)| < cols
    ensures var s, n := Final(base, Lead(base, prompt), o, cols), base.x + |prompt| + |Text(o.ed)|;
            var line: Codes, blank: Codes :=
              base.lines[base.y][..base.x] + prompt + o.ed.left + o.ed.right + seq(cols - n, _ => 32), seq(cols, _ => 32);
            var lines := base.lines[base.y := line];
            if o.Waiting? then s == Screen(lines, base.x + |prompt| + |o.ed.left|, base.y)
            else if base.y + 1 < |lines| then s == Screen(lines, 0, base.y + 1)
            else s == Screen(lines[1..] + [blank], 0, base.y)
  {
    var n := base.x + |prompt| + |Text(o.ed)|;
    assert Lead(base, prompt) + Text(o.ed) + Blanks(cols - n)
           == base.lines[base.y][..base.x] + prompt + o.ed.left + o.ed.right + seq(cols - n, _ => 32);
  }

  // ---------------------------------------------------------------- the editor

  /** Cutting at the ends of the middle one of three pieces. */
  lemma Around(a: Codes, b: Codes, c: Codes)
    ensures var s := a + b + c;
            s[..|a|] == a && s[|a|..] == b + c && s[|a| + |b|..] == c && (a + c)[..|a|] == a && (a + c)[|a|..] == c
  {
  }

  class Editor {
    var history: seq<Codes>

    constructor ()
      ensures history == []
    {
      history := [];
    }

    /** The editor's variables hold the state ed. */
    ghost predicate Holds(ed: Ed, buffer: Codes, pos: int, histpos: int)
      reads this
    {
      buffer == Text(ed) && pos == |ed.left| && histpos == ed.at && history == ed.hist
    }

    /** One command other than the end of the line. */
    method Obey(cmd: Codes, buffer0: Codes, pos0: nat, histpos0: nat,
                ghost ed: Ed, ghost base: Screen, ghost lead: Codes, ghost cols: nat)
      returns (buffer: Codes, pos: nat, histpos: nat, out: Codes)
      requires EdOk(ed) && Holds(ed, buffer0, pos0, histpos0)
      modifies this
      ensures Holds(Key(ed, cmd), buffer, pos, histpos)
      ensures KeyShown(base, lead, ed, cmd, out, cols)
    {
      hide KeyShown, Key, Back;
      buffer, pos, histpos, out := buffer0, pos0, histpos0, [];
      if cmd == [BACKSPACE] || cmd == [DELETE] {
        if pos > 0 {
          ErasedShown(base, lead, ed, cmd, cols);
          Around(Init(ed.left), [ed.left[pos - 1]], ed.right);
          assert ed.left == Init(ed.left) + [ed.left[pos - 1]];
          buffer := buffer[..pos - 1] + buffer[pos..];
          var nback := |buffer| - pos + 1;
          out := LEFT + buffer[pos - 1..] + CLEAR + Back(nback);
          pos := pos - 1;
          history := history[|history| - 1 := buffer];
          histpos := |history| - 1;
        } else {
          IdleShown(base, lead, ed, cmd, cols);
        }
      } else if |cmd| == 1 && cmd[0] >= BLANK {
        TypedShown(base, lead, ed, cmd, cols);
        Around(ed.left, cmd, ed.right);
        buffer := buffer[..pos] + cmd + buffer[pos..];
        var nback := |buffer| - pos - 1;
        out := buffer[pos..] + Back(nback);
        pos := pos + 1;
        history := history[|history| - 1 := buffer];
        histpos := |history| - 1;
      } else if cmd == LEFT {
        if pos > 0 {
          MovedShown(base, lead, ed, cmd, cols);
          pos := pos - 1;
          out := cmd;
        } else {
          IdleShown(base, lead, ed, cmd, cols);
        }
      } else if cmd == RIGHT {
        if pos < |buffer| {
          MovedShown(base, lead, ed, cmd, cols);
          pos := pos + 1;
          out := cmd;
        } else {
          IdleShown(base, lead, ed, cmd, cols);
        }
      } else if cmd == UP {
        if histpos > 0 {
          RecalledShown(base, lead, ed, cmd, cols);
          histpos := histpos - 1;
          var backcmd := Back(pos);
          buffer := history[histpos];
          pos := |buffer|;
          out := backcmd + CLEAR + buffer;
        } else {
          IdleShown(base, lead, ed, cmd, cols);
        }
      } else if cmd == DOWN {
        if histpos < |history| - 1 {
          RecalledShown(base, lead, ed, cmd, cols);
          histpos := histpos + 1;
          var backcmd := Back(pos);
          buffer := history[histpos];
          pos := |buffer|;
          out := backcmd + CLEAR + buffer;
        } else {
          IdleShown(base, lead, ed, cmd, cols);
        }
      } else {
        IdleShown(base, lead, ed, cmd, cols);
      }
    }

    /** Reads one command; the input may end before it is complete, and then more has to be waited for. */
    method ReadCmd(input: Codes) returns (cmd: Codes, rest: Codes, complete: bool)
      ensures complete <==> NextCmd(input).Some?
      ensures complete ==> cmd == NextCmd(input).value && rest == input[|cmd|..]
      ensures complete <==> !(input <= [0x1B, 0x5B])
      ensures complete ==>
                && cmd <= input && !(cmd <= [0x1B, 0x5B])
                && forall k :: 0 <= k < |cmd| ==> input[..k] <= [0x1B, 0x5B]
    {
      CmdMeans(input);
      cmd, rest, complete := [], input, true;
      while cmd <= CSI
        invariant |cmd| <= 3 && |cmd| <= |input| && cmd == input[..|cmd|] && rest == input[|cmd|..]
        invariant cmd == [] || cmd[0] == ESC || !(cmd <= CSI)
        invariant |cmd| == 1 && input[0] != ESC ==> !(cmd <= CSI)
        invariant |cmd| == 2 ==> input[0] == ESC
        invariant |cmd| == 3 ==> input[0] == ESC && input[1] == BRACKET
        decreases 3 - |cmd|
      {
        if rest == [] {
          return cmd, rest, false;
        }
        cmd, rest := cmd + [rest[0]], rest[1..];
      }
    }

    /** readline: the line that was entered, with its end; or nothing yet, when the input ends before the line does. Every
        element of writes is what one flush sends to the terminal. */
    method Readline(prompt: Codes, input: Codes, ghost base: Screen, ghost cols: nat)
      returns (line: Option<Codes>, rest: Codes, writes: seq<Codes>)
      modifies this
      ensures match Keys(Start(old(history)), input)
              case Waiting(ed) => line == None && history == ed.hist
              case Returned(ed, r) =>
                line == Some(Text(ed) + [NEWLINE]) && rest == r && history == Finished(old(history), Text(ed)) &&
                (NoTwins(old(history)) ==> NoTwins(history))
      ensures Roomy(base, prompt, old(history), input, cols) ==>
                Drawn(base, LeadOf(base, prompt, old(history), input, cols), Keys(Start(old(history)), input), writes, cols)
    {
      hide Key, Keys, KeyShown, NextCmd, Finished, NoTwins, Drawing, Roomy, Fits, Drawn, LeadOf;
      ghost var roomy := Roomy(base, prompt, history, input, cols);
      ghost var ed := Start(history);
      ghost var lead: Codes := if roomy then LeadOf(base, prompt, history, input, cols) else [];
      writes := [];
      var out := prompt + CLEAR;
      if roomy {
        DrawingStart(base, prompt, history, input, cols);
      }
      var buffer, pos := [], 0;
      history := history + [[]];
      var histpos := |history| - 1;
      rest := input;
      while true
        invariant EdOk(ed) && Holds(ed, buffer, pos, histpos)
        invariant Keys(Start(old(history)), input) == Keys(ed, rest)
        invariant |ed.hist| == |old(history)| + 1 && ed.hist[..|old(history)|] == old(history)
        invariant roomy ==> Drawing(base, lead, ed, rest, writes, out, cols)
        decreases |rest|
      {
        if roomy {
          DrawingFlush(base, lead, ed, rest, writes, out, cols);
        }
        if out != [] {
          writes := writes + [out];
          out := [];
        }
        KeysStep(ed, rest);
        var cmd, rest', complete := ReadCmd(rest);
        if !complete {
          if roomy {
            DrawingWaits(base, lead, ed, rest, writes, cols);
          }
          return None, rest, writes;
        }
        if cmd == [NEWLINE] {
          history := history[|history| - 1 := buffer];
          if |history| > 1 && history[|history| - 2] == history[|history| - 1] {
            history := history[..|history| - 1];
          }
          Completed(old(history), ed, buffer, history);
          if roomy {
            DrawingEnds(base, lead, ed, rest, writes, rest', cols);
          }
          return Some(buffer + [NEWLINE]), rest', writes + [[NEWLINE]];
        }
        buffer, pos, histpos, out := Obey(cmd, buffer, pos, histpos, ed, base, lead, cols);
        if roomy {
          DrawingNext(base, lead, ed, cmd, out, rest, writes, cols);
        }
        ed := Key(ed, cmd);
        rest := rest';
      }
    }
  }

  lemma KeysStep(ed: Ed, s: Codes)
    requires EdOk(ed)
    ensures NextCmd(s).None? ==> Keys(ed, s) == Waiting(ed)
    ensures NextCmd(s) == Some([NEWLINE]) ==> Keys(ed, s) == Returned(ed, s[1..])
    ensures NextCmd(s).Some? && NextCmd(s).value != [NEWLINE] ==>
              var cmd := NextCmd(s).value;
              |cmd| > 0 && Keys(ed, s) == Keys(Key(ed, cmd), s[|cmd|..]) && |Key(ed, cmd).hist| == |ed.hist| &&
              Key(ed, cmd).hist[..|ed.hist| - 1] == ed.hist[..|ed.hist| - 1]
  {
  }

  ghost function LeadOf(base: Screen, prompt: Codes, history: seq<Codes>, input: Codes, cols: nat): (r: Codes)
    requires Roomy(base, prompt, history, input, cols)
  {
    Lead(base, prompt)
  }

  /** While a line is edited: after the writes so far, the output not yet written makes the screen show the editor's state,
      and the commands to come keep the text short enough. */
  ghost predicate Drawing(base: Screen, lead: Codes, ed: Ed, s: Codes, writes: seq<Codes>, out: Codes, cols: nat)
    requires EdOk(ed)
  {
    OnScreen(base, cols, |base.lines|) && cols < LIMIT && Fits(ed, s, cols - |lead|) && AllPrintable(ed.hist) && IsAscii(s) &&
    Tames(writes) && Writes(DrawAll(base, writes, cols), out, Seen(base, lead, ed, cols), cols)
  }

  lemma DrawingStart(base: Screen, prompt: Codes, history: seq<Codes>, input: Codes, cols: nat)
    requires Roomy(base, prompt, history, input, cols)
    ensures Drawing(base, LeadOf(base, prompt, history, input, cols), Start(history), input, [], prompt + CLEAR, cols)
  {
    WritesPrompt(base, prompt, cols);
  }

  lemma DrawingFlush(base: Screen, lead: Codes, ed: Ed, s: Codes, writes: seq<Codes>, out: Codes, cols: nat)
    requires EdOk(ed) && Drawing(base, lead, ed, s, writes, out, cols)
    ensures Drawing(base, lead, ed, s, if out == [] then writes else writes + [out], [], cols)
  {
    hide View, Tames, DrawAll;
    var now := Seen(base, lead, ed, cols);
    DrawsMore(base, writes, out, now, cols);
    WritesNothing(now, cols);
  }

  lemma DrawingNext(base: Screen, lead: Codes, ed: Ed, cmd: Codes, out: Codes, s: Codes, writes: seq<Codes>, cols: nat)
    requires EdOk(ed) && Drawing(base, lead, ed, s, writes, [], cols) && KeyShown(base, lead, ed, cmd, out, cols)
    requires NextCmd(s) == Some(cmd) && cmd != [NEWLINE]
    ensures Drawing(base, lead, Key(ed, cmd), s[|cmd|..], writes, out, cols)
  {
    hide Key, View, Tames, DrawAll;
    assert DrawAll(base, writes, cols) == Seen(base, lead, ed, cols);
    KeyPrintable(ed, cmd);
    assert Fits(Key(ed, cmd), s[|cmd|..], cols - |lead|);
    assert |Text(Key(ed, cmd))| < cols - |lead|;
    assert Room(base, lead, ed, cmd, cols);
  }

  /** The screen shows the state o of a line being edited or completed. */
  ghost predicate Drawn(base: Screen, lead: Codes, o: Outcome, writes: seq<Codes>, cols: nat) {
    OnScreen(base, cols, |base.lines|) && Tames(writes) && |lead| + |Text(o.ed)| < cols &&
    DrawAll(base, writes, cols) == Final(base, lead, o, cols)
  }

  lemma DrawingWaits(base: Screen, lead: Codes, ed: Ed, s: Codes, writes: seq<Codes>, cols: nat)
    requires EdOk(ed) && Drawing(base, lead, ed, s, writes, [], cols)
    ensures Drawn(base, lead, Waiting(ed), writes, cols)
  {
    hide View, Tames, DrawAll;
  }

  lemma DrawingEnds(base: Screen, lead: Codes, ed: Ed, s: Codes, writes: seq<Codes>, rest: Codes, cols: nat)
    requires EdOk(ed) && Drawing(base, lead, ed, s, writes, [], cols)
    ensures Drawn(base, lead, Returned(ed, rest), writes + [[NEWLINE]], cols)
  {
    hide View, Tames, DrawAll, LineFeed;
    WritesNewline(base, lead, Text(ed), |ed.left|, cols);
    var end := Final(base, lead, Returned(ed, rest), cols);
    assert DrawAll(base, writes, cols) == Seen(base, lead, ed, cols);
    DrawsMore(base, writes, [NEWLINE], end, cols);
  }

  lemma Completed(history: seq<Codes>, ed: Ed, buffer: Codes, result: seq<Codes>)
    requires |ed.hist| == |history| + 1 && ed.hist[..|history|] == history
    requires var h: seq<Codes> := ed.hist[|history| := buffer];
             result == if |h| > 1 && h[|h| - 2] == h[|h| - 1] then h[..|h| - 1] else h
    ensures result == Finished(history, buffer)
    ensures NoTwins(history) ==> NoTwins(result)
  {
    assert ed.hist[|history| := buffer] == history + [buffer];
    if NoTwins(history) {
      FinishedNoTwins(history, buffer);
    }
  }

  // ---------------------------------------------------------------- the editor on the terminal

  /** A line edited on the terminal: it returns what was entered and keeps the history; after the commands so far the
      current line shows what stood before, the prompt, the text and blanks, with the cursor in the text, and the other
      lines are as they were. */
  method Edit(editor: Editor, term: Framebuffer, prompt: Codes, input: Codes) returns (line: Option<Codes>, rest: Codes)
    requires term.Valid() && Roomy(term.Shown(), prompt, editor.history, input, term.Cols())
    modifies editor, term, term.lines
    ensures term.Valid()
    ensures match Keys(Start(old(editor.history)), input)
            case Waiting(ed) => line == None && editor.history == ed.hist
            case Returned(ed, r) =>
              line == Some(Text(ed) + [NEWLINE]) && rest == r && editor.history == Finished(old(editor.history), Text(ed)) &&
              (NoTwins(old(editor.history)) ==> NoTwins(editor.history))
    ensures var base, cols, o := old(term.Shown()), term.Cols(), Keys(Start(old(editor.history)), input);
            var lead := LeadOf(base, prompt, old(editor.history), input, cols);
            |lead| + |Text(o.ed)| < cols && term.Shown() == Final(base, lead, o, cols)
  {
    hide Roomy, Keys, Final, Finished, NoTwins;
    ghost var base, cols := term.Shown(), term.Cols();
    var writes;
    line, rest, writes := editor.Readline(prompt, input, base, cols);
    ghost var hist := editor.history;
    for i := 0 to |writes|
      invariant term.Valid() && OnScreen(base, cols, |base.lines|) && term.Shown() == DrawAll(base, writes[..i], cols)
      invariant editor.history == hist
    {
      assert writes[..i + 1][..i] == writes[..i];
      term.PutString(writes[i]);
    }
    assert writes[..|writes|] == writes;
  }

  // ---------------------------------------------------------------- many lines

  /** The lines an input enters, one after the other, and the history at the end, with the line being typed. */
  function Entered(history: seq<Codes>, s: Codes): (r: (seq<Codes>, seq<Codes>))
    decreases |s|
  {
    match Keys(Start(history), s)
    case Waiting(ed) => ([], ed.hist)
    case Returned(ed, rest) =>
      var (lines, last) := Entered(Finished(history, Text(ed)), rest);
      ([Text(ed) + [NEWLINE]] + lines, last)
  }

  /** A line typed without any editing is the next one that is returned, and the history goes on with it. */
  lemma NextEntered(history: seq<Codes>, line: Codes, rest: Codes)
    requires forall i :: 0 <= i < |line| ==> 32 <= line[i] && line[i] != 127
    ensures Entered(history, line + [0x0A] + rest).0 == [line + [0x0A]] + Entered(Finished(history, line), rest).0
    ensures Entered(history, line + [0x0A] + rest).1 == Entered(Finished(history, line), rest).1
  {
    hide Keys, Key, Finished;
    KeysMeans(Start(history), rest);
    assert [] + line == line;
    EnteredAsTyped(Start(history), line, rest);
  }

  /** Every line fits: the first one into the room behind what stands there, the others into a whole line. */
  predicate LinesFit(history: seq<Codes>, s: Codes, first: int, room: int)
    decreases |s|
  {
    Fits(Start(history), s, first) &&
    var o := Keys(Start(history), s);
    o.Returned? ==> LinesFit(Finished(history, Text(o.ed)), o.rest, room, room)
  }

  /** A terminal and an input on which all lines can be edited. */
  ghost predicate Ready(base: Screen, prompt: Codes, history: seq<Codes>, s: Codes, cols: nat) {
    OnScreen(base, cols, |base.lines|) && cols < LIMIT && Printable(prompt) && AllPrintable(history) && IsAscii(s) &&
    LinesFit(history, s, cols - base.x - |prompt|, cols - |prompt|)
  }

  /** Commands leave the history printable and the text short enough. */
  lemma {:induction false} KeysKeep(ed: Ed, s: Codes, room: int)
    requires EdOk(ed) && AllPrintable(ed.hist) && IsAscii(s) && Fits(ed, s, room)
    ensures var o := Keys(ed, s);
            AllPrintable(o.ed.hist) && |Text(o.ed)| < room && Printable(Text(o.ed)) && (o.Returned? ==> IsAscii(o.rest))
    decreases |s|
  {
    hide Key;
    var cmd := NextCmd(s);
    assert Printable(ed.hist[ed.at]);
    if cmd.Some? && cmd.value != [NEWLINE] {
      KeyPrintable(ed, cmd.value);
      KeysKeep(Key(ed, cmd.value), s[|cmd.value|..], room);
    }
  }

  lemma FinalOnScreen(base: Screen, lead: Codes, o: Outcome, cols: nat)
    requires OnScreen(base, cols, |base.lines|) && EdOk(o.ed) && |lead| + |Text(o.ed)| < cols
    ensures var s := Final(base, lead, o, cols);
            OnScreen(s, cols, |s.lines|) && |s.lines| == |base.lines| && (o.Returned? ==> s.x == 0)
  {
  }

  /** One line of many: it can be edited, and what it leaves is ready for the next. */
  lemma NextLine(base: Screen, prompt: Codes, history: seq<Codes>, s: Codes, cols: nat)
    requires Ready(base, prompt, history, s, cols)
    ensures Roomy(base, prompt, history, s, cols)
    ensures var o := Keys(Start(history), s); var lead := Lead(base, prompt);
            && |lead| + |Text(o.ed)| < cols
            && (o.Returned? ==>
                  Ready(Final(base, lead, o, cols), prompt, Finished(history, Text(o.ed)), o.rest, cols))
  {
    hide Keys, Final, Fits;
    var o, lead := Keys(Start(history), s), Lead(base, prompt);
    KeysKeep(Start(history), s, cols - base.x - |prompt|);
    FinalOnScreen(base, lead, o, cols);
  }

  /** What the terminal shows at the end. */
  ghost function ShownAfter(base: Screen, prompt: Codes, history: seq<Codes>, s: Codes, cols: nat): Screen
    requires Ready(base, prompt, history, s, cols)
    decreases |s|
  {
    NextLine(base, prompt, history, s, cols);
    var o := Keys(Start(history), s);
    var now := Final(base, Lead(base, prompt), o, cols);
    if o.Waiting? then now else ShownAfter(now, prompt, Finished(history, Text(o.ed)), o.rest, cols)
  }

  /** The first line and the others. */
  lemma FirstLine(base: Screen, prompt: Codes, history: seq<Codes>, s: Codes, cols: nat)
    requires Ready(base, prompt, history, s, cols)
    ensures Roomy(base, prompt, history, s, cols)
    ensures var o := Keys(Start(history), s); var lead := LeadOf(base, prompt, history, s, cols);
            |lead| + |Text(o.ed)| < cols &&
            var now := Final(base, lead, o, cols);
            match o
            case Waiting(ed) =>
              Entered(history, s) == ([], ed.hist) && ShownAfter(base, prompt, history, s, cols) == now
            case Returned(ed, rest) =>
              var next := Finished(history, Text(ed));
              && |rest| < |s| && Ready(now, prompt, next, rest, cols)
              && Entered(history, s) == ([Text(ed) + [NEWLINE]] + Entered(next, rest).0, Entered(next, rest).1)
              && ShownAfter(base, prompt, history, s, cols) == ShownAfter(now, prompt, next, rest, cols)
  {
    hide Keys, Final, Finished, Ready, Roomy;
    NextLine(base, prompt, history, s, cols);
  }

  /** Line after line on the terminal, until the input ends: exactly the lines that the input enters are returned, the
      history and the screen are those of editing them one after the other, and the history keeps no equal neighbours. */
  method Session(editor: Editor, term: Framebuffer, prompt: Codes, input: Codes) returns (lines: seq<Codes>)
    requires term.Valid() && Ready(term.Shown(), prompt, editor.history, input, term.Cols())
    modifies editor, term, term.lines
    ensures term.Valid()
    ensures (lines, editor.history) == Entered(old(editor.history), input)
    ensures term.Shown() == ShownAfter(old(term.Shown()), prompt, old(editor.history), input, term.Cols())
  {
    hide Roomy, Ready, Keys, Final, Finished, NoTwins, Entered, ShownAfter, LeadOf;
    ghost var cols, all := term.Cols(), Entered(editor.history, input);
    lines := [];
    var rest := input;
    assert [] + all.0 == all.0;
    while true
      invariant term.Valid() && term.Cols() == cols && Ready(term.Shown(), prompt, editor.history, rest, cols)
      invariant ShownAfter(term.Shown(), prompt, editor.history, rest, cols)
                == ShownAfter(old(term.Shown()), prompt, old(editor.history), input, cols)
      invariant lines + Entered(editor.history, rest).0 == all.0 && Entered(editor.history, rest).1 == all.1
      decreases |rest|
    {
      FirstLine(term.Shown(), prompt, editor.history, rest, cols);
      ghost var more := Entered(editor.history, rest).0;
      var line, rest' := Edit(editor, term, prompt, rest);
      if line.None? {
        assert lines + more == lines;
        return;
      }
      assert lines + more == lines + [line.value] + more[1..];
      lines, rest := lines + [line.value], rest';
    }
  }

  /** Why each command needs a call of its own: behind a move to the right, in the same call, digits are not drawn. */
  lemma MoveSwallowsDigits(s: Screen, d: nat, cols: nat)
    requires OnScreen(s, cols, |s.lines|) && s.x + 2 < cols && IsDigit(d)
    ensures PutAll(s, Scan(0, 0), RIGHT + [d], cols) == s.(x := s.x + 1)
    ensures PutAll(PutAll(s, Scan(0, 0), RIGHT, cols), Scan(0, 0), [d], cols).lines[s.y][s.x + 1] == d
  {
    var e, s1 := Scan(0, 0), s.(x := s.x + 1);
    DrawsPlain(s, e, LETTER_C, cols);
    assert Put(s, Scan(2, 0), LETTER_C, cols) == s1;
    DrawsOne(s1, Scan(2, 1), d, cols);
    DrawsBoth(s, e, RIGHT, s1, Scan(2, 1), [d], s1, NextScan(Scan(2, 1), d), cols);
    DrawsOne(s1, e, d, cols);
    assert Put(s1, e, d, cols).lines == WithCell(s.lines, s.x + 1, s.y, d);
  }
}
