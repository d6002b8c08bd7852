/** The terminal emulator of the framebuffer, at the level of character cells. */
module Terminal {

  const CHARWIDTH: nat := 8
  const CHARHEIGHT: nat := 16

  /** Screens have less than 2^28 columns, and escape parameters are kept below 2^28 too: then no 32-bit sum wraps. */
  const LIMIT: nat := 0x1000_0000

  const ESC: nat := 0x1B
  const BRACKET: nat := 0x5B
  const BLANK: nat := 0x20
  const NEWLINE: nat := 0x0A
  const RETURN: nat := 0x0D
  const TAB: nat := 0x09
  const LETTER_K: nat := 0x4B
  const LETTER_C: nat := 0x43
  const LETTER_D: nat := 0x44

  type Codes = seq<nat>

  /** What is on the screen, and the cell of the cursor. */
  datatype Screen = Screen(lines: seq<Codes>, x: nat, y: nat)

  /** How far into an escape sequence a string is: 0 outside, 1 behind ESC, 2 behind ESC[. */
  datatype Scan = Scan(state: nat, param: nat)

  predicate OnScreen(s: Screen, cols: nat, rows: nat) {
    |s.lines| == rows && s.x < cols && s.y < rows && forall i :: 0 <= i < rows ==> |s.lines[i]| == cols
  }

  predicate IsDigit(c: nat) {
    0x30 <= c <= 0x39
  }

  /** The escape parser's next state. A cursor move to the right leaves it where it is, and so does a character behind ESC
      that does not open a sequence. */
  function NextScan(e: Scan, c: nat): Scan {
    if c == ESC then Scan(1, e.param)
    else if e.state == 1 then if c == BRACKET then Scan(2, 0) else e
    else if e.state == 2 then
      if IsDigit(c) then Scan(2, e.param * 10 + (c - 0x30))
      else if c == LETTER_C then Scan(2, if e.param == 0 then 1 else e.param)
      else if c == LETTER_D then Scan(0, if e.param == 0 then 1 else e.param)
      else Scan(0, e.param)
    else e
  }

  /** Every parameter in s stays below the limit. */
  predicate Tame(e: Scan, s: Codes)
    decreases |s|
  {
    e.param < LIMIT && (s == [] || Tame(NextScan(e, s[0]), s[1..]))
  }

  function Blanks(n: nat): Codes {
    seq(n, _ => BLANK)
  }

  /** Past the right end the cursor goes to the next line, and past the bottom the screen scrolls. */
  function FixCursor(lines: seq<Codes>, x: nat, y: nat, cols: nat): Screen
    requires y < |lines|
  {
    var x', y' := if x + 1 > cols then 0 else x, if x + 1 > cols then y + 1 else y;
    if y' == |lines| then Screen(lines[1..] + [Blanks(cols)], x', y' - 1) else Screen(lines, x', y')
  }

  /** The line feed: past the bottom the screen scrolls. */
  function LineFeed(lines: seq<Codes>, y: nat, cols: nat): Screen
    requires y < |lines|
  {
    if y + 1 == |lines| then Screen(lines[1..] + [Blanks(cols)], 0, y) else Screen(lines, 0, y + 1)
  }

  function WithCell(lines: seq<Codes>, x: nat, y: nat, c: nat): seq<Codes>
    requires y < |lines| && x < |lines[y]|
  {
    var line: Codes := lines[y][x := c];
    lines[y := line]
  }

  /** One character of the output. */
  function Put(s: Screen, e: Scan, c: nat, cols: nat): (r: Screen)
    requires OnScreen(s, cols, |s.lines|)
    ensures OnScreen(r, cols, |s.lines|)
  {
    var param := if e.param == 0 then 1 else e.param;
    if c == ESC || (e.state == 1 && c == BRACKET) || (e.state == 2 && IsDigit(c)) then s
    else if e.state == 2 then
      if c == LETTER_K then s.(lines := s.lines[s.y := s.lines[s.y][..s.x] + Blanks(cols - s.x)])
      else if c == LETTER_D then s.(x := if s.x > param then s.x - param else 0)
      else if c == LETTER_C then FixCursor(s.lines, s.x + param, s.y, cols)
      else s
    else if c >= BLANK then FixCursor(WithCell(s.lines, s.x, s.y, c), s.x + 1, s.y, cols)
    else if c == NEWLINE then LineFeed(s.lines, s.y, cols)
    else if c == RETURN then s.(x := 0)
    else if c == TAB then FixCursor(s.lines, (s.x + 8) / 8 * 8, s.y, cols)
    else s
  }

  /** What the screen is after a character outside an escape sequence, by its code: a printable one goes into the cell of the
      cursor, 10 begins a new line, 13 goes to its beginning, 9 to the next column that is a multiple of 8; behind the
      last column the cursor goes to the next line, and below the last line everything moves up by one line. */
  lemma PlainMeans(s: Screen, e: Scan, c: nat, cols: nat)
    requires OnScreen(s, cols, |s.lines|) && c != 0x1B && e.state == 0
    ensures var r := Put(s, e, c, cols);
            var line: Codes, blank: Codes := s.lines[s.y][s.x := c], seq(cols, _ => 32);
            var written := if c >= 32 then s.lines[s.y := line] else s.lines;
            var x := if c >= 32 then s.x + 1 else if c == 10 || c == 13 then 0 else if c == 9 then (s.x / 8 + 1) * 8 else s.x;
            var down := c == 10 || x >= cols;
            && r.x == (if x >= cols then 0 else x)
            && (if down && s.y + 1 == |s.lines| then r.y == s.y && r.lines == written[1..] + [blank]
                else r.y == (if down then s.y + 1 else s.y) && r.lines == written)
  {
    assert (s.x + 8) / 8 == s.x / 8 + 1;
  }

  /** And at the end of an escape sequence: ESC[K blanks the rest of the line, ESC[nD goes n columns left, at most to the
      first, ESC[nC n columns right, n being at least 1; anything else shows nothing. */
  lemma EscapeMeans(s: Screen, n: nat, c: nat, cols: nat)
    requires OnScreen(s, cols, |s.lines|) && c != 0x1B && !(0x30 <= c <= 0x39)
    ensures var r, m := Put(s, Scan(2, n), c, cols), if n == 0 then 1 else n;
            var line: Codes, blank: Codes := s.lines[s.y][..s.x] + seq(cols - s.x, _ => 32), seq(cols, _ => 32);
            if c == 0x4B then r == s.(lines := s.lines[s.y := line])
            else if c == 0x44 then r == s.(x := if m < s.x then s.x - m else 0)
            else if c == 0x43 && s.x + m < cols then r == s.(x := s.x + m)
            else if c == 0x43 && s.y + 1 < |s.lines| then r == Screen(s.lines, 0, s.y + 1)
            else if c == 0x43 then r == Screen(s.lines[1..] + [blank], 0, s.y)
            else r == s
  {
  }

  /** The escape parser: ESC, [, digits that make up the number, and a character that ends it; ESC[nC does not end it. */
  lemma ScanMeans(e: Scan, c: nat)
    ensures c == 0x1B ==> NextScan(e, c).state == 1
    ensures e.state == 1 && c == 0x5B ==> NextScan(e, c) == Scan(2, 0)
    ensures e.state == 2 && 0x30 <= c <= 0x39 ==> NextScan(e, c) == Scan(2, 10 * e.param + c - 0x30)
    ensures e.state == 2 && c != 0x1B && !(0x30 <= c <= 0x39) ==> NextScan(e, c).state == if c == 0x43 then 2 else 0
    ensures e.state == 0 && c != 0x1B ==> NextScan(e, c) == e
  {
  }

  function PutAll(s: Screen, e: Scan, t: Codes, cols: nat): (r: Screen)
    requires OnScreen(s, cols, |s.lines|)
    ensures OnScreen(r, cols, |s.lines|)
    decreases |t|
  {
    if t == [] then s else PutAll(Put(s, e, t[0], cols), NextScan(e, t[0]), t[1..], cols)
  }

  function ScanAll(e: Scan, t: Codes): Scan
    decreases |t|
  {
    if t == [] then e else ScanAll(NextScan(e, t[0]), t[1..])
  }

  class Framebuffer {
    const virtWidth: nat
    const virtHeight: nat
    /** The lines of the frame buffer, as text. */
    const lines: array<Codes>
    var posx: nat
    var posy: nat

    ghost function Cols(): nat {
      virtWidth / CHARWIDTH
    }

    ghost function Rows(): nat {
      virtHeight / CHARHEIGHT
    }

    ghost function Shown(): Screen
      reads this, lines
    {
      Screen(lines[..], posx, posy)
    }

    ghost predicate Valid()
      reads this, lines
    {
      lines.Length == Rows() && Cols() < LIMIT && Rows() < LIMIT && OnScreen(Shown(), Cols(), Rows())
    }

    /** framebuffer_init: a screen at least one cell large, cleared. */
    constructor (width: nat, height: nat)
      requires CHARWIDTH <= width < CHARWIDTH * LIMIT && CHARHEIGHT <= height < CHARHEIGHT * LIMIT
      ensures Valid() && fresh(lines)
      ensures Shown() == Screen(seq(Rows(), _ => Blanks(Cols())), 0, 0) && Cols() == width / 8 && Rows() == height / 16
    {
      virtWidth, virtHeight, posx, posy := width, height, 0, 0;
      lines := new Codes[height / CHARHEIGHT](_ => Blanks(width / CHARWIDTH));
    }

    /** fixcursorpos: the cursor may stand up to one row below and any number of columns right of the screen. */
    method FixCursorPos()
      requires lines.Length == Rows() > 0 && 0 < Cols() && posy <= Rows() < LIMIT && posx + 1 < 2 * LIMIT
      requires posy == Rows() ==> posx == 0
      requires forall i :: 0 <= i < Rows() ==> |lines[i]| == Cols()
      modifies this, lines
      ensures old(posy) < Rows() ==> Shown() == FixCursor(old(lines[..]), old(posx), old(posy), Cols())
      ensures old(posy) > 0 && old(posx) == 0 ==> Shown() == LineFeed(old(lines[..]), old(posy) - 1, Cols())
    {
      CellsAndPixels(posx + 1, virtWidth, CHARWIDTH);
      if (posx + 1) * CHARWIDTH > virtWidth {
        posx, posy := 0, posy + 1;
      }
      CellsAndPixels(posy + 1, virtHeight, CHARHEIGHT);
      if (posy + 1) * CHARHEIGHT > virtHeight {
        posy := posy - 1;
        ghost var before := lines[..];
        forall i | 0 <= i < posy {
          lines[i] := lines[i + 1];
        }
        lines[posy] := Blanks(virtWidth / CHARWIDTH);
        assert lines[..] == before[1..] + [Blanks(Cols())];
      }
    }

    /** putstring, for the bytes it is to write. */
    method PutString(s: Codes)
      requires Valid() && Tame(Scan(0, 0), s)
      modifies this, lines
      ensures Valid() && Shown() == PutAll(old(Shown()), Scan(0, 0), s, Cols())
    {
      var escapestate, escapeparam := 0, 0;
      for i := 0 to |s|
        invariant Valid() && Tame(Scan(escapestate, escapeparam), s[i..])
        invariant PutAll(old(Shown()), Scan(0, 0), s, Cols()) ==
                  PutAll(Shown(), Scan(escapestate, escapeparam), s[i..], Cols())
      {
        var c := s[i];
        assert s[i..][1..] == s[i + 1..];
        ghost var e := Scan(escapestate, escapeparam);
        ghost var before := Shown();
        escapestate, escapeparam := PutChar(c, escapestate, escapeparam);
      }
    }

    /** One round of putstring's loop. */
    method PutChar(c: nat, state: nat, param: nat) returns (escapestate: nat, escapeparam: nat)
      requires Valid() && param < LIMIT
      modifies this, lines
      ensures Valid() && Shown() == Put(old(Shown()), Scan(state, param), c, Cols())
      ensures Scan(escapestate, escapeparam) == NextScan(Scan(state, param), c)
    {
      escapestate, escapeparam := state, param;
      if c == ESC {
        escapestate := 1;
        return;
      }
      if escapestate == 1 {
        if c == BRACKET {
          escapestate, escapeparam := 2, 0;
          return;
        }
      } else if escapestate == 2 {
        if IsDigit(c) {
          escapeparam := escapeparam * 10 + (c - 0x30);
          return;
        }
        escapestate, escapeparam := Command(c, param);
        return;
      }
      PutPlain(c, state, param);
    }

    /** The end of an escape sequence. */
    method Command(c: nat, param: nat) returns (escapestate: nat, escapeparam: nat)
      requires Valid() && param < LIMIT && c != ESC && !IsDigit(c)
      modifies this, lines
      ensures Valid() && Shown() == Put(old(Shown()), Scan(2, param), c, Cols())
      ensures Scan(escapestate, escapeparam) == NextScan(Scan(2, param), c)
    {
      escapestate, escapeparam := 2, param;
      if c == LETTER_K {
        lines[posy] := lines[posy][..posx] + Blanks(virtWidth / CHARWIDTH - posx);
      } else if c == LETTER_D {
        if escapeparam == 0 {
          escapeparam := 1;
        }
        posx := if posx > escapeparam then posx - escapeparam else 0;
      } else if c == LETTER_C {
        if escapeparam == 0 {
          escapeparam := 1;
        }
        posx := posx + escapeparam;
        FixCursorPos();
        return;
      }
      escapestate := 0;
    }

    /** A character outside an escape sequence. */
    method PutPlain(c: nat, ghost state: nat, ghost param: nat)
      requires Valid() && c != ESC && state != 2 && !(state == 1 && c == BRACKET)
      modifies this, lines
      ensures Valid() && Shown() == Put(old(Shown()), Scan(state, param), c, Cols())
    {
      if c >= BLANK {
        lines[posy] := lines[posy][posx := c];
        posx := posx + 1;
      } else if c == NEWLINE {
        posx, posy := 0, posy + 1;
      } else if c == RETURN {
        posx := 0;
      } else if c == TAB {
        posx := (posx + 8) / 8 * 8;
      } else {
        return;
      }
      FixCursorPos();
    }
  }

  /** Comparing pixels is comparing cells. */
  lemma CellsAndPixels(n: nat, pixels: nat, k: nat)
    requires k > 0
    ensures n * k > pixels <==> n > pixels / k
  {
    var q := pixels / k;
    assert pixels == k * q + pixels % k;
    if n > q {
      assert n * k >= (q + 1) * k == k * q + k;
    } else {
      assert n * k <= q * k;
    }
  }
}
