/** The half-block printer for QR codes, and a decoder that reads its output back. */
module Qr {
  import opened Wrappers

  const QUIET: nat := 2
  const FG_DARK := "\U{1B}[30m"
  const FG_LIGHT := "\U{1B}[97m"
  const BG_DARK := "\U{1B}[40m"
  const BG_LIGHT := "\U{1B}[107m"
  const LINE_END := "\U{1B}[0m\n"
  const HALF_BLOCK := "\U{2580}"

  /** An n-by-n module grid: code[y][x] is true for a dark module. */
  ghost predicate Square(n: nat, code: seq<seq<bool>>) {
    |code| == n && forall y :: 0 <= y < n ==> |code[y]| == n
  }

  /** The module at (x, y) counted with the light margin; everything outside the grid is light. */
  function Black(n: nat, code: seq<seq<bool>>, x: int, y: int): bool
    requires Square(n, code)
  {
    var cx, cy := x - QUIET, y - QUIET;
    if cx < 0 || cy < 0 || cx >= n || cy >= n then false else code[cy][cx]
  }

  /** One printed character: the upper and the lower module. */
  type Cell = (bool, bool)

  function CellText(c: Cell): string {
    (if c.0 then FG_DARK else FG_LIGHT) + (if c.1 then BG_DARK else BG_LIGHT) + HALF_BLOCK
  }

  function LineText(cells: seq<Cell>): string {
    if cells == [] then "" else CellText(cells[0]) + LineText(cells[1..])
  }

  function PageText(lines: seq<seq<Cell>>): string {
    if lines == [] then "" else LineText(lines[0]) + LINE_END + PageText(lines[1..])
  }

  /** The cells of the text line that shows module rows y and y + 1. */
  function Line(n: nat, code: seq<seq<bool>>, y: nat): seq<Cell>
    requires Square(n, code)
  {
    seq(n + 2 * QUIET, x => (Black(n, code, x, y), Black(n, code, x, y + 1)))
  }

  /** What is to be shown: every second module row starts a line. */
  function Page(n: nat, code: seq<seq<bool>>): seq<seq<Cell>>
    requires Square(n, code)
  {
    seq((n + 2 * QUIET + 1) / 2, r requires 0 <= r => Line(n, code, 2 * r))
  }

  method Terminal(n: nat, code: seq<seq<bool>>) returns (out: string)
    requires Square(n, code)
    ensures out == PageText(Page(n, code))
  {
    var total := n + 2 * QUIET;
    ghost var page, r := Page(n, code), 0;
    out := "";
    var y := 0;
    while y < total
      invariant y == 2 * r && r <= |page|
      invariant out == PageText(page[..r])
      decreases total - y
    {
      ghost var line := LineText(page[r]);
      assert page[r] == Line(n, code, y);
      Associate(out, line, LINE_END);
      PageTextExtend(page, r);
      out := WriteLine(n, code, y, out);
      out := out + LINE_END;
      y, r := y + 2, r + 1;
    }
    assert page[..r] == page;
  }

  /** The inner loop of Terminal, appending to what is written already. */
  method WriteLine(n: nat, code: seq<seq<bool>>, y: nat, written: string) returns (out: string)
    requires Square(n, code)
    ensures out == written + LineText(Line(n, code, y))
  {
    var total := n + 2 * QUIET;
    ghost var line := Line(n, code, y);
    out := written;
    for x := 0 to total
      invariant out == written + LineText(line[..x])
    {
      var up, low := Black(n, code, x, y), Black(n, code, x, y + 1);
      var cell;
      if up && low {
        cell := FG_DARK + BG_DARK;
      } else if up && !low {
        cell := FG_DARK + BG_LIGHT;
      } else if !up && low {
        cell := FG_LIGHT + BG_DARK;
      } else {
        cell := FG_LIGHT + BG_LIGHT;
      }
      ghost var text := cell + HALF_BLOCK;
      assert text == CellText(line[x]);
      LineTextExtend(line, x);
      Associate(written, LineText(line[..x]), text);
      out := out + (cell + HALF_BLOCK);
    }
    assert line[..total] == line;
  }

  lemma Associate(a: string, b: string, c: string)
    ensures (a + b) + c == a + (b + c)
  {
  }

  lemma LineTextExtend(line: seq<Cell>, x: nat)
    requires x < |line|
    ensures LineText(line[..x + 1]) == LineText(line[..x]) + CellText(line[x])
  {
    LineTextAppend(line[..x], line[x]);
    assert line[..x + 1] == line[..x] + [line[x]];
  }

  lemma PageTextExtend(page: seq<seq<Cell>>, r: nat)
    requires r < |page|
    ensures PageText(page[..r + 1]) == PageText(page[..r]) + (LineText(page[r]) + LINE_END)
  {
    PageTextAppend(page[..r], page[r]);
    assert page[..r + 1] == page[..r] + [page[r]];
  }

  /** The columns and rows announced before printing. */
  method Dimensions(n: nat, code: seq<seq<bool>>) returns (cols: nat, rows: nat)
    requires Square(n, code)
    ensures rows == |Page(n, code)|
    ensures forall r :: 0 <= r < rows ==> |Page(n, code)[r]| == cols
  {
    var total := n + 2 * QUIET;
    cols, rows := total, (total + 1) / 2;
  }

  lemma {:induction false} LineTextAppend(cells: seq<Cell>, c: Cell)
    ensures LineText(cells + [c]) == LineText(cells) + CellText(c)
  {
    if cells == [] {
      assert [c][1..] == [] && cells + [c] == [c];
      assert LineText([]) == "";
      assert LineText([c]) == CellText(c) + LineText([]);
    } else {
      assert (cells + [c])[1..] == cells[1..] + [c];
      LineTextAppend(cells[1..], c);
    }
  }

  lemma {:induction false} PageTextAppend(lines: seq<seq<Cell>>, line: seq<Cell>)
    ensures PageText(lines + [line]) == PageText(lines) + (LineText(line) + LINE_END)
  {
    if lines == [] {
      assert lines + [line] == [line] && [line][1..] == [];
      assert PageText([line]) == LineText(line) + LINE_END + PageText([]);
    } else {
      assert (lines + [line])[1..] == lines[1..] + [line];
      PageTextAppend(lines[1..], line);
    }
  }

  // ---- A terminal that reads the escape sequences ----

  /** `s` without the prefix `p`, if it starts with it. */
  function Strip(s: string, p: string): Option<string> {
    if p <= s then Some(s[|p|..]) else None
  }

  function ReadColour(s: string, dark: string, light: string): Option<(bool, string)> {
    if dark <= s then Some((true, s[|dark|..]))
    else if light <= s then Some((false, s[|light|..]))
    else None
  }

  /** Foreground and background by their codes, then the upper half block: black on the one, black under the other. */
  function ReadCell(s: string): (r: Option<(Cell, string)>)
    ensures r.Some? ==> |r.value.1| < |s|
  {
    var fg := ReadColour(s, "\U{1B}[30m", "\U{1B}[97m");
    if fg.None? then None
    else
      var bg := ReadColour(fg.value.1, "\U{1B}[40m", "\U{1B}[107m");
      if bg.None? then None
      else
        var rest := Strip(bg.value.1, "\U{2580}");
        if rest.None? then None else Some(((fg.value.0, bg.value.0), rest.value))
  }

  function ReadLine(s: string): (r: Option<(seq<Cell>, string)>)
    ensures r.Some? ==> |r.value.1| < |s|
    decreases |s|
  {
    if LINE_END <= s then Some(([], s[|LINE_END|..]))
    else
      var cell := ReadCell(s);
      if cell.None? then None
      else
        var rest := ReadLine(cell.value.1);
        if rest.None? then None else Some(([cell.value.0] + rest.value.0, rest.value.1))
  }

  function ReadPage(s: string): Option<seq<seq<Cell>>>
    decreases |s|
  {
    if s == "" then Some([])
    else
      var line := ReadLine(s);
      if line.None? then None
      else
        var rest := ReadPage(line.value.1);
        if rest.None? then None else Some([line.value.0] + rest.value)
  }

  lemma ReadCellText(c: Cell, rest: string)
    ensures ReadCell(CellText(c) + rest) == Some((c, rest))
    ensures !(LINE_END <= CellText(c) + rest)
  {
    var s := CellText(c) + rest;
    var fg := if c.0 then FG_DARK else FG_LIGHT;
    var bg := if c.1 then BG_DARK else BG_LIGHT;
    assert s[..5] == fg && s[5..] == bg + HALF_BLOCK + rest;
    assert LINE_END[2] == '0';
    assert ReadColour(s, FG_DARK, FG_LIGHT) == Some((c.0, bg + HALF_BLOCK + rest)) by {
      assert FG_DARK[2] == '3' && FG_LIGHT[2] == '9' && s[2] == fg[2];
    }
    var t := bg + HALF_BLOCK + rest;
    assert ReadColour(t, BG_DARK, BG_LIGHT) == Some((c.1, HALF_BLOCK + rest)) by {
      assert BG_DARK[2] == '4' && BG_LIGHT[2] == '1' && t[2] == bg[2];
      assert t[|bg|..] == HALF_BLOCK + rest;
      assert t[..|bg|] == bg;
    }
    assert (HALF_BLOCK + rest)[1..] == rest;
  }

  lemma {:induction false} ReadLineText(cells: seq<Cell>, rest: string)
    ensures ReadLine(LineText(cells) + LINE_END + rest) == Some((cells, rest))
  {
    var s := LineText(cells) + LINE_END + rest;
    if cells == [] {
      assert s == LINE_END + rest;
    } else {
      var tail := LineText(cells[1..]) + LINE_END + rest;
      assert s == CellText(cells[0]) + tail;
      ReadCellText(cells[0], tail);
      ReadLineText(cells[1..], rest);
      assert cells == [cells[0]] + cells[1..];
    }
  }

  lemma {:induction false} ReadPageText(lines: seq<seq<Cell>>)
    ensures ReadPage(PageText(lines)) == Some(lines)
  {
    if lines != [] {
      assert PageText(lines) == LineText(lines[0]) + LINE_END + PageText(lines[1..]);
      ReadLineText(lines[0], PageText(lines[1..]));
      ReadPageText(lines[1..]);
      assert lines == [lines[0]] + lines[1..];
    }
  }

  /** The module a page shows at column x, half-row y. */
  function Shown(page: seq<seq<Cell>>, x: nat, y: nat): bool
    requires y / 2 < |page| && x < |page[y / 2]|
  {
    if y % 2 == 0 then page[y / 2][x].0 else page[y / 2][x].1
  }

  /** Round trip: the text decodes to a page of the announced size that shows the grid at
      offset (QUIET, QUIET) and light modules everywhere else, the padding row included. */
  lemma TerminalRoundTrip(n: nat, code: seq<seq<bool>>)
    requires Square(n, code)
    ensures var page := ReadPage(PageText(Page(n, code)));
            && page.Some?
            && |page.value| == (n + 2 * QUIET + 1) / 2
            && (forall r :: 0 <= r < |page.value| ==> |page.value[r]| == n + 2 * QUIET)
            && (forall x: nat, y: nat :: x < n + 2 * QUIET && y < 2 * |page.value| ==>
                  Shown(page.value, x, y) ==
                    (QUIET <= x < n + QUIET && QUIET <= y < n + QUIET && code[y - QUIET][x - QUIET]))
  {
    var page := Page(n, code);
    ReadPageText(page);
    forall x: nat, y: nat | x < n + 2 * QUIET && y < 2 * |page|
      ensures Shown(page, x, y) == Black(n, code, x, y)
    {
      ShownIsBlack(n, code, x, y);
    }
  }

  lemma ShownIsBlack(n: nat, code: seq<seq<bool>>, x: nat, y: nat)
    requires Square(n, code) && x < n + 2 * QUIET && y / 2 < |Page(n, code)|
    ensures Shown(Page(n, code), x, y) == Black(n, code, x, y)
  {
    assert Page(n, code)[y / 2] == Line(n, code, 2 * (y / 2));
  }
}
