/** One page of the emulator (the main or the alternate screen): the
    scroll-back lines followed by `height` visible lines, a cursor, a saved
    cursor, and a scrolling region. Rows and columns are 1-based as in
    the emulator; `lines` is indexed from 0, so visible row `r` is
    `lines[scrollback + r - 1]`.

    The screen reads and saves the terminal's current attributes, which it
    holds by reference in the emulator; here the current attributes are
    passed to each method that uses them, and `RestoreCursor` returns the
    attributes it restores. */
module Screens {
  import opened Bytes
  import opened Rendition
  import opened Lines

  /** Lines of scroll-back kept above the page unless configured otherwise. */
  const DEFAULT_SCROLLBACK: nat := 10000

  /** Clamp `x` into `lo..hi` (lower bound first). */
  function Limit(x: int, lo: int, hi: int): int {
    if x < lo then lo else if x > hi then hi else x
  }

  /** How many times a `for (i = 0; i < n; i += 1)` loop runs. */
  function Count(n: int): nat {
    if n > 0 then n else 0
  }

  function Max(a: int, b: int): int {
    if a >= b then a else b
  }

  /** A freshly allocated blank line. */
  function NewLine(width: nat, attrs: Attrs): Line {
    Line(Blanks(width, attrs), false)
  }

  /** The lines after setting their number to `n`: missing lines are
      appended blank and `m` cells wide, surplus lines are evicted. */
  function Fit(lines: seq<Line>, n: nat, m: nat, attrs: Attrs): (r: seq<Line>)
    ensures |r| == n
  {
    if |lines| < n then lines + seq(n - |lines|, _ => NewLine(m, attrs))
    else Evict(lines, n)
  }

  /** The lines of a page of `scrollback` lines and `width` columns
      after it is given `w` columns and `h` rows. */
  function Resized(lines: seq<Line>, scrollback: nat, w: int, h: int, width: int, attrs: Attrs): (r: seq<Line>)
    requires 1 <= w && 1 <= h
    ensures |r| == scrollback + h
  {
    MarkDirty(Widened(lines, scrollback + h, MaxWidth(lines, w), width, attrs), Max(1, scrollback - h) - 1, scrollback + h - 1)
  }

  /** The lines fitted to `n` lines, every one widened to `m` cells when
      `m` exceeds the old width `width`. */
  function Widened(lines: seq<Line>, n: nat, m: int, width: int, attrs: Attrs): (r: seq<Line>)
    requires m >= 0
    ensures |r| == n
  {
    if m > width then WidenAll(Fit(lines, n, m, attrs), m, attrs) else Fit(lines, n, m, attrs)
  }

  /** Every line widened to `m` cells. */
  function WidenAll(lines: seq<Line>, m: int, attrs: Attrs): (r: seq<Line>)
    ensures |r| == |lines|
    ensures forall i :: 0 <= i < |r| ==> |r[i].cells| >= m
  {
    seq(|lines|, i requires 0 <= i < |lines| => Widen(lines[i], m, attrs))
  }

  /** The dirty lines, each as its 1-based buffer row and its rendering,
      from line `from` (0-based) onwards. */
  function Writes(lines: seq<Line>, from: nat): seq<(nat, seq<Glyph>)>
    requires from <= |lines|
    decreases |lines| - from
  {
    if from == |lines| then []
    else if lines[from].dirty then [(from + 1, Render(lines[from].cells))] + Writes(lines, from + 1)
    else Writes(lines, from + 1)
  }

  /** Every line marked clean, its cells kept. */
  function Cleaned(lines: seq<Line>): (r: seq<Line>)
    ensures |r| == |lines|
  {
    seq(|lines|, i requires 0 <= i < |lines| => lines[i].(dirty := false))
  }

  /** The size of a page and its scrolling region, whose bounds
      `scrollT` and `scrollB` are 0 while unset. */
  datatype Geometry = Geometry(scrollback: nat, width: int, height: int, scrollT: int, scrollB: int)
  {
    predicate Proper() {
      && 1 <= width && 1 <= height
      && 0 <= scrollT <= height && 0 <= scrollB <= height
      && (scrollB == 0 || scrollT <= scrollB)
    }

    /** The top row of the scrolling region (1 when unset). */
    function Top(): (r: int)
      ensures Proper() ==> 1 <= r <= Bottom()
    {
      if scrollT != 0 then scrollT else 1
    }

    /** The bottom row of the scrolling region (the last row when unset). */
    function Bottom(): (r: int)
      ensures Proper() ==> 1 <= r <= height
    {
      if scrollB != 0 then scrollB else height
    }

    /** The line that scrolling up removes (0-based): the top of the
        region when one is set, otherwise the oldest scroll-back line. */
    function UpDel(): (r: int)
      ensures Proper() ==> 0 <= r < scrollback + height
    {
      if scrollT != 0 then scrollback + scrollT - 1 else 0
    }
  }

  /** The lines after scrolling the region up one line: the removed
      line's storage comes back blank at the bottom of the region, and the
      region is marked dirty. Without a region the top page line moves
      into the scroll-back and the oldest scroll-back line is lost. */
  function ScrolledUp(ls: seq<Line>, g: Geometry, attrs: Attrs): (r: seq<Line>)
    requires g.Proper() && |ls| == g.scrollback + g.height
    ensures |r| == |ls|
  {
    var del := g.UpDel();
    MarkDirty(Rotate(ls, del, g.scrollback + g.Bottom() - 1, Line(Blanks(g.width, attrs), ls[del].dirty)),
              g.scrollback + g.Top() - 1, g.scrollback + g.Bottom())
  }

  /** The lines after scrolling the region down one line: its bottom line
      is lost, a blank line enters at its top, and the region is marked
      dirty. */
  function ScrolledDown(ls: seq<Line>, g: Geometry, attrs: Attrs): (r: seq<Line>)
    requires g.Proper() && |ls| == g.scrollback + g.height
    ensures |r| == |ls|
  {
    MarkDirty(Rotate(ls, g.scrollback + g.Bottom() - 1, g.scrollback + g.Top() - 1, NewLine(g.width, attrs)),
              g.scrollback + g.Top() - 1, g.scrollback + g.Bottom())
  }

  /** The lines after inserting a blank line at row `row`: the bottom line
      of the region is lost and the region is marked dirty. */
  function LineInserted(ls: seq<Line>, g: Geometry, row: int, attrs: Attrs): (r: seq<Line>)
    requires g.Proper() && |ls| == g.scrollback + g.height && 1 <= row <= g.height
    ensures |r| == |ls|
  {
    MarkDirty(Rotate(ls, g.scrollback + g.Bottom() - 1, g.scrollback + row - 1, NewLine(g.width, attrs)),
              g.scrollback + g.Top() - 1, g.scrollback + g.Bottom())
  }

  /** The lines after deleting row `row`: a blank line enters at the
      bottom of the region, which is marked dirty only when a region has
      been set. */
  function LineDeleted(ls: seq<Line>, g: Geometry, row: int, attrs: Attrs): (r: seq<Line>)
    requires g.Proper() && |ls| == g.scrollback + g.height && 1 <= row <= g.height
    ensures |r| == |ls|
  {
    if g.scrollT != 0 || g.scrollB != 0 then
      MarkDirty(Rotate(ls, g.scrollback + row - 1, g.scrollback + g.Bottom() - 1, NewLine(g.width, attrs)),
                g.scrollback + g.Top() - 1, g.scrollback + g.Bottom())
    else Rotate(ls, g.scrollback + row - 1, g.scrollback + g.Bottom() - 1, NewLine(g.width, attrs))
  }

  /** A line of `width` cleared cells, to be written again. */
  function BlankLine(width: int, attrs: Attrs): Line
    requires 0 <= width
  {
    Line(Blanks(width, attrs), true)
  }

  /** A line after `CSI mode K` with the cursor at column `col`. */
  function LineErased(l: Line, mode: int, col: int, width: nat, attrs: Attrs): (r: Line)
    ensures mode in {0, 1, 2} ==> r.dirty
    ensures mode !in {0, 1, 2} ==> r == l
  {
    if mode == 0 then Line(Filled(l.cells, col - 1, width, BlankCell(attrs)), true)
    else if mode == 1 then Line(Filled(l.cells, 0, col, BlankCell(attrs)), true)
    else if mode == 2 then BlankLine(width, attrs)
    else l
  }

  /** The lines of a page after `CSI mode J` with the cursor at `row`,
      `col`. */
  function DisplayErased(ls: seq<Line>, scrollback: nat, width: nat, height: nat, row: int, col: int, mode: int, attrs: Attrs): (r: seq<Line>)
    requires |ls| == scrollback + height && 1 <= row <= height
    ensures |r| == |ls|
  {
    var i := scrollback + row - 1;
    if mode == 0 then Filled(ls, i + 1, |ls|, BlankLine(width, attrs))[i := LineErased(ls[i], 0, col, width, attrs)]
    else if mode == 1 then Filled(ls, scrollback, i, BlankLine(width, attrs))[i := LineErased(ls[i], 1, col, width, attrs)]
    else if mode == 2 then Filled(ls, scrollback, |ls|, BlankLine(width, attrs))
    else ls
  }

  /** Lines `lo` to `hi - 1` (0-based) with cells `col - 1` to
      `width - 1` replaced by `c` and marked dirty; the others kept. */
  function FilledRows(ls: seq<Line>, lo: int, hi: int, col: int, width: int, c: Cell): (r: seq<Line>)
    ensures |r| == |ls|
  {
    seq(|ls|, j requires 0 <= j < |ls| => if lo <= j < hi then Line(Filled(ls[j].cells, col - 1, width, c), true) else ls[j])
  }

  // ------------------------------------------ line operations repeated n times

  function ScrolledUpTimes(ls: seq<Line>, g: Geometry, attrs: Attrs, n: nat): (r: seq<Line>)
    requires g.Proper() && |ls| == g.scrollback + g.height
    ensures |r| == |ls|
    decreases n
  {
    if n == 0 then ls else ScrolledUp(ScrolledUpTimes(ls, g, attrs, n - 1), g, attrs)
  }

  function ScrolledDownTimes(ls: seq<Line>, g: Geometry, attrs: Attrs, n: nat): (r: seq<Line>)
    requires g.Proper() && |ls| == g.scrollback + g.height
    ensures |r| == |ls|
    decreases n
  {
    if n == 0 then ls else ScrolledDown(ScrolledDownTimes(ls, g, attrs, n - 1), g, attrs)
  }

  function LinesInserted(ls: seq<Line>, g: Geometry, row: int, attrs: Attrs, n: nat): (r: seq<Line>)
    requires g.Proper() && |ls| == g.scrollback + g.height && 1 <= row <= g.height
    ensures |r| == |ls|
    decreases n
  {
    if n == 0 then ls else LineInserted(LinesInserted(ls, g, row, attrs, n - 1), g, row, attrs)
  }

  function LinesDeleted(ls: seq<Line>, g: Geometry, row: int, attrs: Attrs, n: nat): (r: seq<Line>)
    requires g.Proper() && |ls| == g.scrollback + g.height && 1 <= row <= g.height
    ensures |r| == |ls|
    decreases n
  {
    if n == 0 then ls else LineDeleted(LinesDeleted(ls, g, row, attrs, n - 1), g, row, attrs)
  }

  // ------------------------------------------ what the line operations mean

  /** Scrolling up one line: the lines from the removed one to the bottom
      of the region move up a place, the bottom of the region comes back
      blank, every row of the region is to be written again, and every
      other line is kept. */
  lemma ScrolledUpMeaning(ls: seq<Line>, g: Geometry, attrs: Attrs)
    requires g.Proper() && |ls| == g.scrollback + g.height
    ensures var r := ScrolledUp(ls, g, attrs); var del := g.UpDel(); var bot := g.scrollback + g.Bottom() - 1;
      && |r| == |ls| && del <= bot < |ls|
      && (forall j :: 0 <= j < |ls| && (j < del || bot < j) ==> r[j] == ls[j])
      && (forall j :: del <= j < bot ==> r[j].cells == ls[j + 1].cells)
      && r[bot].cells == Blanks(g.width, attrs)
      && (forall j :: g.scrollback + g.Top() - 1 <= j <= bot ==> r[j].dirty)
  {
  }

  /** Scrolling down one line: a blank line enters at the top of the
      region, the lines below it move down a place, the bottom line of the
      region is lost, every row of the region is to be written again, and
      every other line is kept. */
  lemma ScrolledDownMeaning(ls: seq<Line>, g: Geometry, attrs: Attrs)
    requires g.Proper() && |ls| == g.scrollback + g.height
    ensures var r := ScrolledDown(ls, g, attrs); var top := g.scrollback + g.Top() - 1; var bot := g.scrollback + g.Bottom() - 1;
      && |r| == |ls| && top <= bot < |ls|
      && (forall j :: 0 <= j < |ls| && (j < top || bot < j) ==> r[j] == ls[j])
      && r[top].cells == Blanks(g.width, attrs)
      && (forall j :: top < j <= bot ==> r[j].cells == ls[j - 1].cells)
      && (forall j :: top <= j <= bot ==> r[j].dirty)
  {
  }

  /** Inserting a line at a row of the region: a blank line enters there,
      the lines below it move down a place, the bottom line of the region
      is lost, every row of the region is to be written again, and every
      other line is kept. */
  lemma LineInsertedMeaning(ls: seq<Line>, g: Geometry, row: int, attrs: Attrs)
    requires g.Proper() && |ls| == g.scrollback + g.height && g.Top() <= row <= g.Bottom()
    ensures var r := LineInserted(ls, g, row, attrs);
      var top := g.scrollback + g.Top() - 1; var at := g.scrollback + row - 1; var bot := g.scrollback + g.Bottom() - 1;
      && |r| == |ls|
      && (forall j :: 0 <= j < |ls| && (j < top || bot < j) ==> r[j] == ls[j])
      && (forall j :: top <= j < at ==> r[j].cells == ls[j].cells)
      && r[at].cells == Blanks(g.width, attrs)
      && (forall j :: at < j <= bot ==> r[j].cells == ls[j - 1].cells)
      && (forall j :: top <= j <= bot ==> r[j].dirty)
  {
  }

  /** Deleting the line at a row of the region: the lines below it move up
      a place, a blank line enters at the bottom of the region, and every
      other line is kept; the rows of the region are to be written again
      only when a region has been set. */
  lemma LineDeletedMeaning(ls: seq<Line>, g: Geometry, row: int, attrs: Attrs)
    requires g.Proper() && |ls| == g.scrollback + g.height && g.Top() <= row <= g.Bottom()
    ensures var r := LineDeleted(ls, g, row, attrs);
      var top := g.scrollback + g.Top() - 1; var at := g.scrollback + row - 1; var bot := g.scrollback + g.Bottom() - 1;
      && |r| == |ls|
      && (forall j :: 0 <= j < |ls| && (j < top || bot < j) ==> r[j] == ls[j])
      && (forall j :: top <= j < at ==> r[j].cells == ls[j].cells)
      && (forall j :: at <= j < bot ==> r[j].cells == ls[j + 1].cells)
      && r[bot].cells == Blanks(g.width, attrs)
      && (g.scrollT != 0 || g.scrollB != 0 ==> forall j :: top <= j <= bot ==> r[j].dirty)
      && (g.scrollT == 0 && g.scrollB == 0 ==> forall j :: top <= j < at ==> r[j] == ls[j])
  {
  }

  /** The column a tab moves the cursor to from column `col`: the next
      column `c` with `c % tabWidth == 1`, or the right margin when no
      such column comes first. */
  function TabStop(col: int, width: int, tabWidth: int): (c: int)
    requires 1 <= col <= width && 1 <= tabWidth
    ensures col <= c <= width
    ensures col < width ==> col < c
    ensures c == width || c % tabWidth == 1
    ensures forall k :: col < k < c ==> k % tabWidth != 1
    decreases width - col
  {
    if col == width then col
    else if (col + 1) % tabWidth == 1 then col + 1
    else TabStop(col + 1, width, tabWidth)
  }

  /** Every line at least `width` cells wide. */
  predicate Wide(ls: seq<Line>, width: int) {
    forall j :: 0 <= j < |ls| ==> |ls[j].cells| >= width
  }

  /** A page as a value: its lines, its size and scrolling region, the
      cursor (row, column), and the saved cursor (row, column, attributes,
      and whether one is saved). */
  datatype PageState = PageState(lines: seq<Line>, geo: Geometry, cursor: (int, int), saved: (int, int, Attrs, bool))
  {
    /** The lines fit the size, the cursor is on the page, the region is
        proper. */
    predicate Ok() {
      && geo.Proper() && |lines| == geo.scrollback + geo.height
      && 1 <= cursor.0 <= geo.height && 1 <= cursor.1 <= geo.width
      && Wide(lines, geo.width)
    }

    /** The index in `lines` of the cursor row. */
    function CursorLine(): int {
      geo.scrollback + cursor.0 - 1
    }
  }

  /** The page after a horizontal tab: spaces with attributes `attrs`
      from the cursor up to the next tab stop (see `TabStop`), where the
      cursor goes; the row is marked dirty when the cursor moved. */
  function PageTabbed(p: PageState, tabWidth: int, attrs: Attrs): PageState
    requires p.Ok() && 1 <= tabWidth
  {
    var col := p.cursor.1;
    var c := TabStop(col, p.geo.width, tabWidth);
    var l := p.lines[p.CursorLine()];
    p.(cursor := (p.cursor.0, c),
       lines := if c == col then p.lines
                else p.lines[p.CursorLine() := Line(Filled(l.cells, col - 1, c - 1, Cell(SpaceGlyph, attrs)), true)])
  }

  class Screen {
    var lines: seq<Line>
    var width: int
    var height: int
    var cursorRow: int
    var cursorCol: int
    var rowSave: int
    var colSave: int
    var attrsSave: Attrs
    var cursorSaved: bool
    var scrollT: int
    var scrollB: int
    const scrollback: nat

    /** The page has `scrollback + height` lines, each at least `width`
        cells wide; the cursor is on the page; the scrolling region's
        bounds are 0 (unset) or rows of the page, top above bottom. */
    ghost predicate Valid()
      reads this
    {
      && |lines| == scrollback + height
      && 1 <= width && 1 <= height
      && 1 <= cursorRow <= height && 1 <= cursorCol <= width
      && 0 <= scrollT <= height && 0 <= scrollB <= height
      && (scrollB == 0 || scrollT <= scrollB)
      && forall i :: 0 <= i < |lines| ==> |lines[i].cells| >= width
    }

    /** The state before the first resize gives the page its size. */
    ghost predicate Unsized()
      reads this
    {
      && lines == [] && width == 0 && height == 0
      && cursorRow == 1 && cursorCol == 1
      && scrollT == 0 && scrollB == 0
    }

    ghost function Cursor(): (int, int)
      reads this
    {
      (cursorRow, cursorCol)
    }

    function Geo(): (g: Geometry)
      reads this
      ensures Valid() ==> g.Proper()
    {
      Geometry(scrollback, width, height, scrollT, scrollB)
    }

    ghost function Saved(): (int, int, Attrs, bool)
      reads this
    {
      (rowSave, colSave, attrsSave, cursorSaved)
    }

    /** The page as a value. */
    ghost function Val(): PageState
      reads this
    {
      PageState(lines, Geo(), Cursor(), Saved())
    }

    /** The page as a value is well formed exactly when the page is
        valid. */
    lemma ValOk()
      ensures Valid() <==> Val().Ok()
    {
    }

    constructor(scrollback: nat)
      ensures this.scrollback == scrollback
      ensures Unsized()
      ensures Saved() == (1, 1, ZeroAttr, false)
    {
      this.scrollback := scrollback;
      lines := [];
      width := 0;
      height := 0;
      cursorRow := 1;
      cursorCol := 1;
      rowSave := 1;
      colSave := 1;
      attrsSave := ZeroAttr;
      cursorSaved := false;
      scrollT := 0;
      scrollB := 0;
    }

    /** The top row of the scrolling region (1 when unset). */
    function ScTop(): (r: int)
      reads this
      ensures Valid() ==> 1 <= r <= height
      ensures Valid() ==> r <= ScBottom()
    {
      Geo().Top()
    }

    /** The bottom row of the scrolling region (the last row when unset). */
    function ScBottom(): (r: int)
      reads this
      ensures Valid() ==> 1 <= r <= height
    {
      Geo().Bottom()
    }

    method SetCursor(row: int, col: int)
      requires Valid()
      modifies this
      ensures Valid()
      ensures Cursor() == (Limit(row, 1, height), Limit(col, 1, width))
      ensures lines == old(lines) && Geo() == old(Geo()) && Saved() == old(Saved())
    {
      cursorRow := Limit(row, 1, height);
      cursorCol := Limit(col, 1, width);
    }

    method MoveCursor(rows: int, cols: int)
      requires Valid()
      modifies this
      ensures Valid()
      ensures Cursor() == (Limit(old(cursorRow) + rows, 1, height), Limit(old(cursorCol) + cols, 1, width))
      ensures lines == old(lines) && Geo() == old(Geo()) && Saved() == old(Saved())
    {
      SetCursor(cursorRow + rows, cursorCol + cols);
    }

    method SaveCursor(attrs: Attrs)
      requires Valid()
      modifies this
      ensures Valid()
      ensures Saved() == (old(cursorRow), old(cursorCol), attrs, true)
      ensures lines == old(lines) && Geo() == old(Geo()) && Cursor() == old(Cursor())
    {
      rowSave := cursorRow;
      colSave := cursorCol;
      attrsSave := attrs;
      cursorSaved := true;
    }

    /** Restores the saved cursor as the emulator does, without fitting it
        to a page that may have shrunk since it was saved. */
    method RestoreCursorAsWritten() returns (attrs: Attrs)
      modifies this
      ensures Cursor() == (old(rowSave), old(colSave))
      ensures attrs == old(attrsSave)
      ensures !cursorSaved && rowSave == old(rowSave) && colSave == old(colSave) && attrsSave == old(attrsSave)
      ensures lines == old(lines) && Geo() == old(Geo())
    {
      cursorRow := rowSave;
      cursorCol := colSave;
      attrs := attrsSave;
      cursorSaved := false;
    }

    /** Restores the saved cursor, fitted to the current page, and returns
        the saved attributes; a cursor saved on the current page comes back
        exactly. */
    method RestoreCursor() returns (attrs: Attrs)
      requires Valid()
      modifies this
      ensures Valid()
      ensures Cursor() == (Limit(old(rowSave), 1, height), Limit(old(colSave), 1, width))
      ensures 1 <= old(rowSave) <= height && 1 <= old(colSave) <= width ==> Cursor() == (old(rowSave), old(colSave))
      ensures attrs == old(attrsSave)
      ensures !cursorSaved && rowSave == old(rowSave) && colSave == old(colSave) && attrsSave == old(attrsSave)
      ensures lines == old(lines) && Geo() == old(Geo())
    {
      cursorRow := Limit(rowSave, 1, height);
      cursorCol := Limit(colSave, 1, width);
      attrs := attrsSave;
      cursorSaved := false;
    }

    /** Marks every line, scroll-back included, dirty. */
    method MakeDirty()
      requires Valid()
      modifies this
      ensures Valid()
      ensures lines == MarkDirty(old(lines), 0, |old(lines)|)
      ensures Geo() == old(Geo()) && Cursor() == old(Cursor()) && Saved() == old(Saved())
    {
      var i := 0;
      while i < |lines|
        invariant 0 <= i <= |lines| && |lines| == |old(lines)|
        invariant lines == MarkDirty(old(lines), 0, i)
        invariant Valid()
        invariant Geo() == old(Geo()) && Cursor() == old(Cursor()) && Saved() == old(Saved())
      {
        lines := lines[i := lines[i].(dirty := true)];
        i := i + 1;
      }
    }

    /** Marks rows `top` to `bottom` (1-based, inclusive) dirty. */
    method MarkRows(top: int, bottom: int)
      requires Valid() && 1 <= top && bottom <= height
      modifies this
      ensures Valid()
      ensures lines == MarkDirty(old(lines), scrollback + top - 1, scrollback + bottom)
      ensures Geo() == old(Geo()) && Cursor() == old(Cursor()) && Saved() == old(Saved())
    {
      var i := top;
      while i <= bottom
        invariant top <= i <= Max(top, bottom + 1) && |lines| == |old(lines)|
        invariant lines == MarkDirty(old(lines), scrollback + top - 1, scrollback + i - 1)
        invariant Valid()
        invariant Geo() == old(Geo()) && Cursor() == old(Cursor()) && Saved() == old(Saved())
      {
        var j := scrollback + i - 1;
        lines := lines[j := lines[j].(dirty := true)];
        i := i + 1;
      }
      if bottom < top {
        assert forall j :: 0 <= j < |lines| ==>
          MarkDirty(old(lines), scrollback + top - 1, scrollback + bottom)[j] == old(lines)[j] == lines[j];
      }
    }

    method SetScroll(top: int, bottom: int)
      requires Valid()
      modifies this
      ensures scrollT == Limit(top, 0, height) && scrollB == Limit(bottom, 0, height)
      ensures lines == old(lines) && width == old(width) && height == old(height)
      ensures Cursor() == old(Cursor()) && Saved() == old(Saved())
      ensures Valid() <==> (scrollB == 0 || scrollT <= scrollB)
    {
      scrollT := Limit(top, 0, height);
      scrollB := Limit(bottom, 0, height);
    }

    /** Writes glyph `g`, `gw` columns wide, at row `row` and column `col`
        with attributes `attrs`; a position right of or below the page is
        ignored. */
    method Set(row: int, col: int, g: Glyph, gw: nat, attrs: Attrs)
      requires Valid() && 1 <= row && 1 <= col
      modifies this
      ensures Valid()
      ensures Geo() == old(Geo()) && Cursor() == old(Cursor()) && Saved() == old(Saved())
      ensures row > height || col > width ==> lines == old(lines)
      ensures row <= height && col <= width ==>
        var i := scrollback + row - 1;
        lines == old(lines)[i := Line(Put(old(lines)[i].cells, col, g, gw, attrs, width), true)]
    {
      if row > height || col > width {
        return;
      }
      var i := scrollback + row - 1;
      var cells := lines[i].cells;
      cells := cells[col - 1 := cells[col - 1].(glyph := g)];
      var k := 0;
      while k < gw && col + k <= width
        invariant 0 <= k <= gw && |cells| == |lines[i].cells|
        invariant forall j :: 0 <= j < |cells| ==>
          cells[j] == (if j == col - 1 then (if k == 0 then lines[i].cells[j].(glyph := g) else Cell(g, attrs))
                       else if col - 1 < j < col - 1 + k && j < width then lines[i].cells[j].(attrs := attrs)
                       else lines[i].cells[j])
      {
        cells := cells[col - 1 + k := cells[col - 1 + k].(attrs := attrs)];
        k := k + 1;
      }
      assert cells == Put(lines[i].cells, col, g, gw, attrs, width);
      lines := lines[i := Line(cells, true)];
    }

    /** Inserts glyph `g` with attributes `attrs` before column `col` of
        row `row`; the last cell of the line falls off. The line is not
        marked dirty. */
    method Insert(row: int, col: int, g: Glyph, attrs: Attrs)
      requires Valid() && 1 <= row <= height && 1 <= col <= width
      modifies this
      ensures Valid()
      ensures Geo() == old(Geo()) && Cursor() == old(Cursor()) && Saved() == old(Saved())
      ensures var i := scrollback + row - 1;
        lines == old(lines)[i := old(lines)[i].(cells := InsertAt(old(lines)[i].cells, col, Cell(g, attrs)))]
    {
      var i := scrollback + row - 1;
      lines := lines[i := lines[i].(cells := InsertAt(lines[i].cells, col, Cell(g, attrs)))];
    }

    /** Deletes the cell at column `col` of row `row`; a blank cell with
        attributes `attrs` enters at the end of the line. */
    method DelCell(row: int, col: int, attrs: Attrs)
      requires Valid() && 1 <= row <= height && 1 <= col <= width
      modifies this
      ensures Valid()
      ensures Geo() == old(Geo()) && Cursor() == old(Cursor()) && Saved() == old(Saved())
      ensures var i := scrollback + row - 1;
        lines == old(lines)[i := Line(DeleteAt(old(lines)[i].cells, col, BlankCell(attrs)), true)]
    {
      var i := scrollback + row - 1;
      lines := lines[i := Line(DeleteAt(lines[i].cells, col, BlankCell(attrs)), true)];
    }

    /** Replaces row `row` by `width` blank cells with attributes `attrs`. */
    method ClearRow(row: int, attrs: Attrs)
      requires Valid() && 1 <= row <= height
      modifies this
      ensures Valid()
      ensures Geo() == old(Geo()) && Cursor() == old(Cursor()) && Saved() == old(Saved())
      ensures lines == old(lines)[scrollback + row - 1 := Line(Blanks(width, attrs), true)]
    {
      lines := lines[scrollback + row - 1 := Line(Blanks(width, attrs), true)];
    }

    /** Clears rows `lo` to `hi` with attributes `attrs`. (The emulator
        clears some ranges bottom up; the rows are independent, so the
        order does not show.) */
    method ClearRows(lo: int, hi: int, attrs: Attrs)
      requires Valid() && 1 <= lo <= hi + 1 && hi <= height
      modifies this
      ensures Valid()
      ensures Geo() == old(Geo()) && Cursor() == old(Cursor()) && Saved() == old(Saved())
      ensures lines == Filled(old(lines), scrollback + lo - 1, scrollback + hi, BlankLine(width, attrs))
    {
      for row := lo to hi + 1
        invariant Valid()
        invariant Geo() == old(Geo()) && Cursor() == old(Cursor()) && Saved() == old(Saved())
        invariant lines == Filled(old(lines), scrollback + lo - 1, scrollback + row - 1, BlankLine(width, attrs))
      {
        ClearRow(row, attrs);
      }
    }

    /** Inserts `n` copies of glyph `g` with attributes `attrs` before
        column `col` of row `row`, one after the other. */
    method InsertCells(row: int, col: int, n: int, g: Glyph, attrs: Attrs)
      requires Valid() && 1 <= row <= height && 1 <= col <= width
      modifies this
      ensures Valid()
      ensures Geo() == old(Geo()) && Cursor() == old(Cursor()) && Saved() == old(Saved())
      ensures var i := scrollback + row - 1;
        lines == old(lines)[i := old(lines)[i].(cells := InsertTimes(old(lines)[i].cells, col, Cell(g, attrs), Count(n)))]
    {
      ghost var i := scrollback + row - 1;
      ghost var cells0 := lines[i].cells;
      for k := 0 to Count(n)
        invariant Valid()
        invariant Geo() == old(Geo()) && Cursor() == old(Cursor()) && Saved() == old(Saved())
        invariant |lines[i].cells| == |cells0|
        invariant lines == old(lines)[i := old(lines)[i].(cells := lines[i].cells)]
        invariant InsertTimes(lines[i].cells, col, Cell(g, attrs), Count(n) - k) == InsertTimes(cells0, col, Cell(g, attrs), Count(n))
      {
        Insert(row, col, g, attrs);
      }
    }

    /** Deletes `n` cells at column `col` of row `row`, one after the
        other. */
    method DeleteCells(row: int, col: int, n: int, attrs: Attrs)
      requires Valid() && 1 <= row <= height && 1 <= col <= width
      modifies this
      ensures Valid()
      ensures Geo() == old(Geo()) && Cursor() == old(Cursor()) && Saved() == old(Saved())
      ensures var i := scrollback + row - 1;
        lines == old(lines)[i := Line(DeleteTimes(old(lines)[i].cells, col, BlankCell(attrs), Count(n)), old(lines)[i].dirty || n > 0)]
    {
      ghost var i := scrollback + row - 1;
      ghost var cells0 := lines[i].cells;
      for k := 0 to Count(n)
        invariant Valid()
        invariant Geo() == old(Geo()) && Cursor() == old(Cursor()) && Saved() == old(Saved())
        invariant |lines[i].cells| == |cells0|
        invariant lines == old(lines)[i := Line(lines[i].cells, old(lines)[i].dirty || k > 0)]
        invariant DeleteTimes(lines[i].cells, col, BlankCell(attrs), Count(n) - k) == DeleteTimes(cells0, col, BlankCell(attrs), Count(n))
      {
        DelCell(row, col, attrs);
      }
    }

    /** Erases in the page: below the cursor and from it to the right
        margin (mode 0), above it and up to it (mode 1), or everything
        (mode 2); other modes change nothing. */
    method EraseDisplay(mode: int, attrs: Attrs)
      requires Valid()
      modifies this
      ensures Valid()
      ensures Geo() == old(Geo()) && Cursor() == old(Cursor()) && Saved() == old(Saved())
      ensures lines == DisplayErased(old(lines), scrollback, width, height, cursorRow, cursorCol, mode, attrs)
    {
      if mode == 0 {
        ClearRows(cursorRow + 1, height, attrs);
        FillCells(cursorRow, cursorCol, width - cursorCol + 1, EmptyGlyph, attrs);
      } else if mode == 1 {
        ClearRows(1, cursorRow - 1, attrs);
        FillCells(cursorRow, 1, cursorCol, EmptyGlyph, attrs);
      } else if mode == 2 {
        ClearRows(1, height, attrs);
      }
    }

    /** Writes glyph `g`, one column wide, with attributes `attrs` into
        `n` cells of row `row` from column `col` on; columns right of the
        page are skipped. */
    method FillCells(row: int, col: int, n: int, g: Glyph, attrs: Attrs)
      requires Valid() && 1 <= row <= height && 1 <= col <= width
      modifies this
      ensures Valid()
      ensures Geo() == old(Geo()) && Cursor() == old(Cursor()) && Saved() == old(Saved())
      ensures var i := scrollback + row - 1;
        lines == old(lines)[i := Line(Filled(old(lines)[i].cells, col - 1, Min(col - 1 + Count(n), width), Cell(g, attrs)),
                                      old(lines)[i].dirty || n > 0)]
    {
      ghost var i := scrollback + row - 1;
      ghost var line0 := lines[i];
      assert Filled(line0.cells, col - 1, col - 1, Cell(g, attrs)) == line0.cells;
      for k := 0 to Count(n)
        invariant Valid()
        invariant Geo() == old(Geo()) && Cursor() == old(Cursor()) && Saved() == old(Saved())
        invariant lines == old(lines)[i := Line(Filled(line0.cells, col - 1, Min(col - 1 + k, width), Cell(g, attrs)), line0.dirty || k > 0)]
      {
        if col + k <= width {
          PutNarrow(lines[i].cells, col + k, g, attrs, width);
          FilledGrows(line0.cells, col - 1, col - 1 + k, Cell(g, attrs));
        }
        Set(row, col + k, g, 1, attrs);
      }
    }

    /** Writes glyph `g`, one column wide, with attributes `attrs` into
        every row from column `col` to the right margin. */
    method FillRows(col: int, g: Glyph, attrs: Attrs)
      requires Valid() && 1 <= col <= width
      modifies this
      ensures Valid()
      ensures Geo() == old(Geo()) && Cursor() == old(Cursor()) && Saved() == old(Saved())
      ensures lines == FilledRows(old(lines), scrollback, |lines|, col, width, Cell(g, attrs))
    {
      for row := 1 to height + 1
        invariant Valid()
        invariant Geo() == old(Geo()) && Cursor() == old(Cursor()) && Saved() == old(Saved())
        invariant lines == FilledRows(old(lines), scrollback, scrollback + row - 1, col, width, Cell(g, attrs))
      {
        FillCells(row, col, width - col + 1, g, attrs);
      }
    }

    /** Writes spaces with attributes `attrs` from the cursor up to the
        next tab stop and moves the cursor there; at the right margin
        nothing happens. */
    method Tab(tabWidth: int, attrs: Attrs)
      requires Valid() && 1 <= tabWidth
      modifies this
      ensures Valid()
      ensures Geo() == old(Geo()) && Saved() == old(Saved())
      ensures Cursor() == (old(cursorRow), TabStop(old(cursorCol), width, tabWidth))
      ensures var i := scrollback + cursorRow - 1;
        lines == if cursorCol == old(cursorCol) then old(lines)
                 else old(lines)[i := Line(Filled(old(lines)[i].cells, old(cursorCol) - 1, cursorCol - 1, Cell(SpaceGlyph, attrs)), true)]
      ensures old(Valid()) && Val() == PageTabbed(old(Val()), tabWidth, attrs)
    {
      ghost var c0 := cursorCol;
      ghost var i := scrollback + cursorRow - 1;
      ghost var cells := lines[i].cells;
      while cursorCol < width
        invariant Valid() && Geo() == old(Geo()) && Saved() == old(Saved()) && cursorRow == old(cursorRow)
        invariant c0 <= cursorCol && TabStop(cursorCol, width, tabWidth) == TabStop(c0, width, tabWidth)
        invariant lines == if cursorCol == c0 then old(lines)
                           else old(lines)[i := Line(Filled(cells, c0 - 1, cursorCol - 1, Cell(SpaceGlyph, attrs)), true)]
        decreases width - cursorCol
      {
        var col := cursorCol;
        TabFill(cells, c0, col, attrs, width);
        Set(cursorRow, col, SpaceGlyph, 1, attrs);
        MoveCursor(0, 1);
        if cursorCol % tabWidth == 1 {
          break;
        }
      }
      assert cursorCol == TabStop(c0, width, tabWidth);
    }

    /** Scrolls the region up one line: the removed line's storage comes
        back blank at the bottom of the region, and the region is marked
        dirty. Without a region the top page line moves into the
        scroll-back and the oldest scroll-back line is lost. */
    method ScrollUp(attrs: Attrs)
      requires Valid()
      modifies this
      ensures Valid()
      ensures Geo() == old(Geo()) && Cursor() == old(Cursor()) && Saved() == old(Saved())
      ensures lines == ScrolledUp(old(lines), Geo(), attrs)
    {
      var del := Geo().UpDel();
      lines := Rotate(lines, del, scrollback + ScBottom() - 1, Line(Blanks(width, attrs), lines[del].dirty));
      MarkRows(ScTop(), ScBottom());
    }

    /** Scrolls the region down one line: its bottom line is lost, a blank
        line enters at its top, and the region is marked dirty. */
    method ScrollDown(attrs: Attrs)
      requires Valid()
      modifies this
      ensures Valid()
      ensures Geo() == old(Geo()) && Cursor() == old(Cursor()) && Saved() == old(Saved())
      ensures lines == ScrolledDown(old(lines), Geo(), attrs)
    {
      lines := Rotate(lines, scrollback + ScBottom() - 1, scrollback + ScTop() - 1, NewLine(width, attrs));
      MarkRows(ScTop(), ScBottom());
    }

    /** Inserts a blank line at row `row`; the bottom line of the region is
        lost and the region is marked dirty. */
    method InsertLine(row: int, attrs: Attrs)
      requires Valid() && 1 <= row <= height
      modifies this
      ensures Valid()
      ensures Geo() == old(Geo()) && Cursor() == old(Cursor()) && Saved() == old(Saved())
      ensures lines == LineInserted(old(lines), Geo(), row, attrs)
    {
      var g := Geo();
      ghost var target := LineInserted(lines, g, row, attrs);
      var rotated := Rotate(lines, scrollback + g.Bottom() - 1, scrollback + row - 1, NewLine(width, attrs));
      RotateKeepsWidth(lines, scrollback + g.Bottom() - 1, scrollback + row - 1, NewLine(width, attrs), width);
      lines := rotated;
      MarkRows(g.Top(), g.Bottom());
      assert lines == target;
    }

    /** Deletes row `row`; a blank line enters at the bottom of the region,
        which is marked dirty only when a region has been set. */
    method DeleteLine(row: int, attrs: Attrs)
      requires Valid() && 1 <= row <= height
      modifies this
      ensures Valid()
      ensures Geo() == old(Geo()) && Cursor() == old(Cursor()) && Saved() == old(Saved())
      ensures lines == LineDeleted(old(lines), Geo(), row, attrs)
    {
      var g := Geo();
      ghost var target := LineDeleted(lines, g, row, attrs);
      var rotated := Rotate(lines, scrollback + row - 1, scrollback + g.Bottom() - 1, NewLine(width, attrs));
      RotateKeepsWidth(lines, scrollback + row - 1, scrollback + g.Bottom() - 1, NewLine(width, attrs), width);
      lines := rotated;
      if scrollT != 0 || scrollB != 0 {
        MarkRows(g.Top(), g.Bottom());
      }
      assert lines == target;
    }

    /** Inserts `n` blank lines at row `row`, one after the other. */
    method InsertLines(row: int, n: int, attrs: Attrs)
      requires Valid() && 1 <= row <= height
      modifies this
      ensures Valid()
      ensures Geo() == old(Geo()) && Cursor() == old(Cursor()) && Saved() == old(Saved())
      ensures lines == LinesInserted(old(lines), Geo(), row, attrs, Count(n))
    {
      for k := 0 to Count(n)
        invariant Valid()
        invariant Geo() == old(Geo()) && Cursor() == old(Cursor()) && Saved() == old(Saved())
        invariant lines == LinesInserted(old(lines), Geo(), row, attrs, k)
      {
        InsertLine(row, attrs);
      }
    }

    /** Deletes `n` lines at row `row`, one after the other. */
    method DeleteLines(row: int, n: int, attrs: Attrs)
      requires Valid() && 1 <= row <= height
      modifies this
      ensures Valid()
      ensures Geo() == old(Geo()) && Cursor() == old(Cursor()) && Saved() == old(Saved())
      ensures lines == LinesDeleted(old(lines), Geo(), row, attrs, Count(n))
    {
      for k := 0 to Count(n)
        invariant Valid()
        invariant Geo() == old(Geo()) && Cursor() == old(Cursor()) && Saved() == old(Saved())
        invariant lines == LinesDeleted(old(lines), Geo(), row, attrs, k)
      {
        DeleteLine(row, attrs);
      }
    }

    /** Scrolls the region up `n` lines, one after the other. */
    method ScrollUpLines(n: int, attrs: Attrs)
      requires Valid()
      modifies this
      ensures Valid()
      ensures Geo() == old(Geo()) && Cursor() == old(Cursor()) && Saved() == old(Saved())
      ensures lines == ScrolledUpTimes(old(lines), Geo(), attrs, Count(n))
    {
      for k := 0 to Count(n)
        invariant Valid()
        invariant Geo() == old(Geo()) && Cursor() == old(Cursor()) && Saved() == old(Saved())
        invariant lines == ScrolledUpTimes(old(lines), Geo(), attrs, k)
      {
        ScrollUp(attrs);
      }
    }

    /** Scrolls the region down `n` lines, one after the other. */
    method ScrollDownLines(n: int, attrs: Attrs)
      requires Valid()
      modifies this
      ensures Valid()
      ensures Geo() == old(Geo()) && Cursor() == old(Cursor()) && Saved() == old(Saved())
      ensures lines == ScrolledDownTimes(old(lines), Geo(), attrs, Count(n))
    {
      for k := 0 to Count(n)
        invariant Valid()
        invariant Geo() == old(Geo()) && Cursor() == old(Cursor()) && Saved() == old(Saved())
        invariant lines == ScrolledDownTimes(old(lines), Geo(), attrs, k)
      {
        ScrollDown(attrs);
      }
    }

    /** Gives the page `w` columns and `h` rows. The widest line (and at
        least `w`) sets the width of the lines appended when the page
        grows and, when it is wider than before, of every line; surplus
        lines are evicted; the scrolling region and the cursor are fitted
        to the new page; the lines from the `h`-th above the page to the
        next-to-last page row are marked dirty. */
    method SetDimensions(w: int, h: int, attrs: Attrs)
      requires 1 <= w && 1 <= h && (Valid() || Unsized())
      modifies this
      ensures Valid()
      ensures width == w && height == h
      ensures scrollT == Limit(old(scrollT), 0, h) && scrollB == Limit(old(scrollB), 0, h)
      ensures Cursor() == (Limit(old(cursorRow), 1, h), Limit(old(cursorCol), 1, w))
      ensures Saved() == old(Saved())
      ensures lines == Resized(old(lines), scrollback, w, h, old(width), attrs)
    {
      var ls := ResizeLines(lines, scrollback, w, h, width, attrs);
      ResizedWidth(lines, scrollback, w, h, width, attrs);
      width := w;
      height := h;
      scrollT := Limit(scrollT, 0, h);
      scrollB := Limit(scrollB, 0, h);
      cursorRow := Limit(cursorRow, 1, h);
      cursorCol := Limit(cursorCol, 1, w);
      lines := ls;
    }

    /** Writes every dirty line, scroll-back included, to the editor
        buffer and marks it clean; the result lists the writes in order,
        each as a 1-based buffer row and the glyphs written there. */
    method WriteToBuffer() returns (writes: seq<(nat, seq<Glyph>)>)
      requires Valid()
      modifies this
      ensures Valid()
      ensures Geo() == old(Geo()) && Cursor() == old(Cursor()) && Saved() == old(Saved())
      ensures writes == Writes(old(lines), 0)
      ensures lines == Cleaned(old(lines))
    {
      var ls;
      writes, ls := WriteLines(lines);
      assert forall j :: 0 <= j < |ls| ==> ls[j].cells == lines[j].cells;
      lines := ls;
    }
  }

  /** The writes of every dirty line, in order, and the lines marked
      clean. */
  method WriteLines(lines: seq<Line>) returns (writes: seq<(nat, seq<Glyph>)>, ls: seq<Line>)
    ensures writes == Writes(lines, 0)
    ensures ls == Cleaned(lines)
  {
    writes := [];
    ls := lines;
    var i := 0;
    while i < |ls|
      invariant 0 <= i <= |ls| == |lines|
      invariant writes + Writes(lines, i) == Writes(lines, 0)
      invariant forall j :: 0 <= j < |ls| ==> ls[j] == if j < i then lines[j].(dirty := false) else lines[j]
    {
      if ls[i].dirty {
        var text := RenderLine(ls[i].cells);
        writes := writes + [(i + 1, text)];
        ls := ls[i := ls[i].(dirty := false)];
      }
      i := i + 1;
    }
  }

  /** One more space written by a tab extends the run of spaces it has
      written; before the first one the line is as it was. */
  lemma TabFill(cells: seq<Cell>, c0: int, col: int, attrs: Attrs, width: int)
    requires 1 <= c0 <= col <= |cells|
    ensures var sp := Cell(SpaceGlyph, attrs);
      Put(Filled(cells, c0 - 1, col - 1, sp), col, SpaceGlyph, 1, attrs, width) == Filled(cells, c0 - 1, col, sp)
    ensures Filled(cells, c0 - 1, c0 - 1, Cell(SpaceGlyph, attrs)) == cells
  {
    var sp := Cell(SpaceGlyph, attrs);
    PutNarrow(Filled(cells, c0 - 1, col - 1, sp), col, SpaceGlyph, attrs, width);
    FilledGrows(cells, c0 - 1, col - 1, sp);
    assert Filled(cells, c0 - 1, c0 - 1, sp) == cells;
  }

  /** Rotating a line at least `w` cells wide into lines at least `w`
      cells wide keeps them so. */
  lemma RotateKeepsWidth(lines: seq<Line>, del: int, ins: int, blank: Line, w: int)
    requires 0 <= del < |lines| && 0 <= ins < |lines|
    requires forall i :: 0 <= i < |lines| ==> |lines[i].cells| >= w
    requires |blank.cells| >= w
    ensures forall i :: 0 <= i < |lines| ==> |Rotate(lines, del, ins, blank)[i].cells| >= w
  {
  }

  /** The lines of a page resized to `w` columns and `h` rows, computed
      step by step: the widest line, the new number of lines, the widening,
      the dirty marks. */
  method ResizeLines(lines: seq<Line>, scrollback: nat, w: int, h: int, width: int, attrs: Attrs)
    returns (ls: seq<Line>)
    requires 1 <= w && 1 <= h
    ensures ls == Resized(lines, scrollback, w, h, width, attrs)
  {
    var m := Widest(lines, w);
    var widened := FitWiden(lines, scrollback + h, m, width, attrs);
    ls := MarkLines(widened, Max(1, scrollback - h) - 1, scrollback + h - 1);
  }

  /** The lines fitted to `n` lines, then widened to `m` cells when `m`
      exceeds the old width. */
  method FitWiden(lines: seq<Line>, n: nat, m: nat, width: int, attrs: Attrs) returns (widened: seq<Line>)
    ensures widened == Widened(lines, n, m, width, attrs)
  {
    var fitted := FitLines(lines, n, m, attrs);
    widened := fitted;
    if m > width {
      widened := WidenLines(fitted, m, attrs);
    }
  }

  /** Marks lines `lo` to `hi - 1` (0-based) dirty. */
  method MarkLines(lines: seq<Line>, lo: int, hi: int) returns (ls: seq<Line>)
    requires 0 <= lo && hi <= |lines|
    ensures ls == MarkDirty(lines, lo, hi)
  {
    ls := lines;
    var i := lo;
    while i < hi
      invariant lo <= i && |ls| == |lines|
      invariant i <= Max(lo, hi)
      invariant ls == MarkDirty(lines, lo, i)
    {
      ls := ls[i := ls[i].(dirty := true)];
      i := i + 1;
    }
    assert forall j :: 0 <= j < |ls| ==> ls[j] == MarkDirty(lines, lo, hi)[j];
  }

  /** The width of the widest line, and at least `w`. */
  method Widest(lines: seq<Line>, w: int) returns (m: int)
    ensures m == MaxWidth(lines, w)
  {
    m := w;
    var i := 0;
    while i < |lines|
      invariant 0 <= i <= |lines|
      invariant m == MaxWidth(lines[..i], w)
    {
      assert lines[..i + 1][..i] == lines[..i];
      if |lines[i].cells| > m {
        m := |lines[i].cells|;
      }
      i := i + 1;
    }
    assert lines[..i] == lines;
  }

  /** Appends blank lines `m` cells wide, or evicts lines, until there are
      `n`. */
  method FitLines(lines: seq<Line>, n: nat, m: nat, attrs: Attrs) returns (ls: seq<Line>)
    ensures ls == Fit(lines, n, m, attrs)
  {
    ls := lines;
    if |ls| < n {
      while |ls| < n
        invariant |lines| <= |ls| <= n
        invariant ls == lines + seq(|ls| - |lines|, _ => NewLine(m, attrs))
      {
        ls := ls + [NewLine(m, attrs)];
      }
    } else {
      while |ls| > n
        invariant n <= |ls|
        invariant Evict(ls, n) == Evict(lines, n)
      {
        if StartsEmpty(ls[|ls| - 1]) {
          ls := ls[..|ls| - 1];
        } else {
          ls := ls[1..];
        }
      }
    }
  }

  /** Widens every line to `m` cells. */
  method WidenLines(lines: seq<Line>, m: int, attrs: Attrs) returns (ls: seq<Line>)
    ensures ls == WidenAll(lines, m, attrs)
  {
    ls := lines;
    var i := 0;
    while i < |ls|
      invariant 0 <= i <= |ls| == |lines|
      invariant forall j :: 0 <= j < |ls| ==> ls[j] == if j < i then Widen(lines[j], m, attrs) else lines[j]
    {
      ls := ls[i := Widen(ls[i], m, attrs)];
      i := i + 1;
    }
  }

  /** The glyphs written for one line: the trailing trivial cells are
      counted off from the end, then every remaining cell is copied, an
      empty one as a space. */
  method RenderLine(cells: seq<Cell>) returns (text: seq<Glyph>)
    ensures text == Render(cells)
  {
    var n := |cells|;
    while n >= 1 && Trivial(cells[n - 1])
      invariant 0 <= n <= |cells|
      invariant forall j :: n <= j < |cells| ==> Trivial(cells[j])
    {
      n := n - 1;
    }
    TrimmedLengthUnique(cells, n);
    text := [];
    var k := 0;
    while k < n
      invariant 0 <= k <= n && |text| == k
      invariant forall j :: 0 <= j < k ==> text[j] == Shown(cells[j])
    {
      text := text + [Shown(cells[k])];
      k := k + 1;
    }
    RenderShown(cells, text);
  }

  /** The rendering of a line is the glyph each of its cells shows, up to
      its trimmed length. */
  lemma RenderShown(cells: seq<Cell>, text: seq<Glyph>)
    requires |text| == TrimmedLength(cells)
    requires forall j :: 0 <= j < |text| ==> text[j] == Shown(cells[j])
    ensures text == Render(cells)
  {
  }

  /** After resizing, every line is at least `w` cells wide. */
  lemma ResizedWidth(lines: seq<Line>, scrollback: nat, w: int, h: int, width: int, attrs: Attrs)
    requires 1 <= w && 1 <= h
    requires forall i :: 0 <= i < |lines| ==> |lines[i].cells| >= width
    ensures forall i :: 0 <= i < scrollback + h ==> |Resized(lines, scrollback, w, h, width, attrs)[i].cells| >= w
  {
    var m := MaxWidth(lines, w);
    var n := scrollback + h;
    var f := Fit(lines, n, m, attrs);
    var t := if m > width then WidenAll(f, m, attrs) else f;
    forall i | 0 <= i < n
      ensures |t[i].cells| >= w
    {
      if m <= width {
        if |lines| < n {
          if i >= |lines| {
            assert f[i] == NewLine(m, attrs);
          }
        } else {
          EvictWindow(lines, n);
        }
      }
    }
  }

  /** Each write names a dirty line after `from`, as its 1-based row,
      with that line's rendering, and the rows increase. */
  predicate SoundWrites(lines: seq<Line>, from: nat, ws: seq<(nat, seq<Glyph>)>) {
    forall k :: 0 <= k < |ws| ==>
      && from < ws[k].0 <= |lines| && lines[ws[k].0 - 1].dirty
      && ws[k].1 == Render(lines[ws[k].0 - 1].cells)
      && (k + 1 < |ws| ==> ws[k].0 < ws[k + 1].0)
  }

  lemma {:induction false} WritesSound(lines: seq<Line>, from: nat)
    requires from <= |lines|
    ensures SoundWrites(lines, from, Writes(lines, from))
    decreases |lines| - from
  {
    if from < |lines| {
      WritesSound(lines, from + 1);
      var rest := Writes(lines, from + 1);
      if lines[from].dirty {
        SoundCons(lines, from, rest);
      }
    }
  }

  /** A dirty line's write placed in front of sound later writes keeps them sound. */
  lemma SoundCons(lines: seq<Line>, from: nat, rest: seq<(nat, seq<Glyph>)>)
    requires from < |lines| && lines[from].dirty
    requires SoundWrites(lines, from + 1, rest)
    ensures SoundWrites(lines, from, [(from + 1, Render(lines[from].cells))] + rest)
  {
    var head: (nat, seq<Glyph>) := (from + 1, Render(lines[from].cells));
    var ws := [head] + rest;
    forall k | 0 <= k < |ws|
      ensures from < ws[k].0 <= |lines| && lines[ws[k].0 - 1].dirty
      ensures ws[k].1 == Render(lines[ws[k].0 - 1].cells)
      ensures k + 1 < |ws| ==> ws[k].0 < ws[k + 1].0
    {
      if k > 0 {
        assert ws[k] == rest[k - 1];
      } else {
        assert ws[k] == head;
      }
      if k + 1 < |ws| {
        assert ws[k + 1] == rest[k];
      }
    }
  }

  /** Every dirty line at or after `from` is written. */
  lemma {:induction false} WritesComplete(lines: seq<Line>, from: nat, j: int)
    requires from <= j < |lines| && lines[j].dirty
    ensures exists k :: 0 <= k < |Writes(lines, from)| && Writes(lines, from)[k].0 == j + 1
    decreases |lines| - from
  {
    var ws := Writes(lines, from);
    if j == from {
      assert ws[0].0 == j + 1;
    } else {
      WritesComplete(lines, from + 1, j);
      var rest := Writes(lines, from + 1);
      var k :| 0 <= k < |rest| && rest[k].0 == j + 1;
      if lines[from].dirty {
        assert ws[k + 1] == rest[k];
      } else {
        assert ws == rest;
      }
    }
  }

  /** The writes of a page checked against the page once written out:
      each holds the rendering of its row and the rows increase. */
  lemma WritesRendered(lines: seq<Line>)
    ensures var ws := Writes(lines, 0); var after := Cleaned(lines);
      forall k :: 0 <= k < |ws| ==>
        && 1 <= ws[k].0 <= |after| && ws[k].1 == Render(after[ws[k].0 - 1].cells)
        && (k + 1 < |ws| ==> ws[k].0 < ws[k + 1].0)
  {
    WritesSound(lines, 0);
    assert forall j :: 0 <= j < |lines| ==> Cleaned(lines)[j].cells == lines[j].cells;
  }

  /** Writing out and cleaning `lines`: every line clean with its cells
      kept, every write to a row within the lines holding its rendering,
      rows in increasing order, and every dirty line written. */
  lemma CleanedSound(before: seq<Line>)
    ensures var after := Cleaned(before); var ws := Writes(before, 0);
      && |after| == |before|
      && (forall j :: 0 <= j < |after| ==> !after[j].dirty && after[j].cells == before[j].cells)
      && (forall k :: 0 <= k < |ws| ==>
            && 1 <= ws[k].0 <= |after|
            && ws[k].1 == Render(after[ws[k].0 - 1].cells)
            && (k + 1 < |ws| ==> ws[k].0 < ws[k + 1].0))
      && (forall j :: 0 <= j < |before| && before[j].dirty ==> Written(ws, j + 1))
  {
    var after := Cleaned(before);
    assert forall j :: 0 <= j < |after| ==> after[j] == before[j].(dirty := false);
    WritesRendered(before);
    WritesAll(before);
  }

  /** Some write goes to buffer row `row`. */
  predicate Written(ws: seq<(nat, seq<Glyph>)>, row: int) {
    exists k :: 0 <= k < |ws| && ws[k].0 == row
  }

  /** Every dirty line of a page is written. */
  lemma WritesAll(lines: seq<Line>)
    ensures forall j :: 0 <= j < |lines| && lines[j].dirty ==> Written(Writes(lines, 0), j + 1)
  {
    forall j | 0 <= j < |lines| && lines[j].dirty
      ensures Written(Writes(lines, 0), j + 1)
    {
      WritesComplete(lines, 0, j);
    }
  }

  /** Once written out, the lines have nothing left to write: writing to
      the buffer twice writes nothing the second time. */
  lemma {:induction false} WritesCleaned(lines: seq<Line>, from: nat)
    requires from <= |lines|
    ensures Writes(Cleaned(lines), from) == []
    decreases |lines| - from
  {
    if from < |lines| {
      WritesCleaned(lines, from + 1);
    }
  }

  /** When the page grows, resizing keeps every old line where it was,
      its cells a prefix of the possibly widened line, and the new lines
      are blank. */
  lemma ResizedGrows(lines: seq<Line>, scrollback: nat, w: int, h: int, width: int, attrs: Attrs)
    requires 1 <= w && 1 <= h && |lines| <= scrollback + h
    ensures var r := Resized(lines, scrollback, w, h, width, attrs);
      && (forall i :: 0 <= i < |lines| ==> lines[i].cells <= r[i].cells)
      && (forall i, j :: |lines| <= i < |r| && 0 <= j < |r[i].cells| ==> r[i].cells[j] == BlankCell(attrs))
  {
    var n := scrollback + h;
    var m := MaxWidth(lines, w);
    var f := Fit(lines, n, m, attrs);
    var t := if m > width then WidenAll(f, m, attrs) else f;
    var r := Resized(lines, scrollback, w, h, width, attrs);
    assert forall i :: 0 <= i < n ==> r[i].cells == t[i].cells;
    forall i | 0 <= i < |lines|
      ensures lines[i].cells <= r[i].cells
    {
      assert f[i] == lines[i];
      assert t[i].cells[..|f[i].cells|] == f[i].cells;
    }
    forall i, j | |lines| <= i < n && 0 <= j < |r[i].cells|
      ensures r[i].cells[j] == BlankCell(attrs)
    {
      assert f[i] == NewLine(m, attrs);
      assert |f[i].cells| == m;
    }
  }

  /** Line `k + i` of `lines` survives, possibly widened, as line `i` of
      `r`, for every line of `r`. */
  predicate KeptFrom(lines: seq<Line>, k: nat, r: seq<Line>) {
    k + |r| <= |lines| && forall i :: 0 <= i < |r| ==> lines[k + i].cells <= r[i].cells
  }

  /** Widening and marking keep every line's cells as a prefix. */
  lemma KeptCells(f: seq<Line>, i: nat, m: int, width: int, lo: int, hi: int, attrs: Attrs)
    requires i < |f|
    ensures f[i].cells <= MarkDirty(if m > width then WidenAll(f, m, attrs) else f, lo, hi)[i].cells
  {
    var t := if m > width then WidenAll(f, m, attrs) else f;
    assert MarkDirty(t, lo, hi)[i].cells == t[i].cells;
    if m > width {
      assert t[i] == Widen(f[i], m, attrs);
    }
  }

  /** When the page shrinks, a window of consecutive old lines survives,
      each line's cells a prefix of its possibly widened line. */
  lemma ResizedShrinks(lines: seq<Line>, scrollback: nat, w: int, h: int, width: int, attrs: Attrs)
    requires 1 <= w && 1 <= h && |lines| > scrollback + h
    ensures KeptFrom(lines, EvictedAbove(lines, scrollback + h), Resized(lines, scrollback, w, h, width, attrs))
  {
    var n := scrollback + h;
    var m := MaxWidth(lines, w);
    var f := Fit(lines, n, m, attrs);
    var t := if m > width then WidenAll(f, m, attrs) else f;
    var r := Resized(lines, scrollback, w, h, width, attrs);
    assert r == MarkDirty(t, Max(1, scrollback - h) - 1, n - 1);
    EvictWindow(lines, n);
    var k := EvictedAbove(lines, n);
    forall i | 0 <= i < n
      ensures f[i].cells <= r[i].cells
    {
      KeptCells(f, i, m, width, Max(1, scrollback - h) - 1, n - 1, attrs);
    }
    KeptWindow(lines, k, f, r);
  }

  lemma KeptWindow(lines: seq<Line>, k: nat, f: seq<Line>, r: seq<Line>)
    requires k + |f| <= |lines| && f == lines[k..k + |f|] && |r| == |f|
    requires forall i :: 0 <= i < |f| ==> f[i].cells <= r[i].cells
    ensures KeptFrom(lines, k, r)
  {
    assert forall i :: 0 <= i < |f| ==> f[i] == lines[k + i];
  }

  /** The emulator's own restore after a shrink: a cursor saved on the
      last row of a 24-row page comes back on row 24 after the page has
      been cut to 10 rows, off the page. */
  method RestoreAfterShrinkAsWritten() returns (row: int, height: int)
    ensures row == 24 && height == 10 && row > height
  {
    var s := new Screen(0);
    s.SetDimensions(80, 24, ZeroAttr);
    s.SetCursor(24, 1);
    s.SaveCursor(ZeroAttr);
    s.SetDimensions(80, 10, ZeroAttr);
    var _ := s.RestoreCursorAsWritten();
    row, height := s.cursorRow, s.height;
  }

  /** The same steps with the restored cursor fitted to the page: it comes
      back on the last row. */
  method RestoreAfterShrink() returns (row: int, height: int)
    ensures row == 10 && height == 10
  {
    var s := new Screen(0);
    s.SetDimensions(80, 24, ZeroAttr);
    s.SetCursor(24, 1);
    s.SaveCursor(ZeroAttr);
    s.SetDimensions(80, 10, ZeroAttr);
    var _ := s.RestoreCursor();
    row, height := s.cursorRow, s.height;
  }
}
