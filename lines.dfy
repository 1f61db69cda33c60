/** Cells and lines of a screen, and the value-level operations on them
    that the screen's methods apply: inserting and deleting cells in a
    line, rotating a blank line through a range of lines, evicting lines
    when the page shrinks, and rendering a line into the text written to
    the editor buffer. */
module Lines {
  import opened Bytes
  import opened Rendition

  /** The bytes of one glyph (one to four bytes of UTF-8). */
  type Glyph = seq<byte>

  /** The empty glyph of a cleared cell. */
  const EmptyGlyph: Glyph := []
  const SpaceGlyph: Glyph := [SPACE]

  /** A glyph whose first byte is zero, as the cleared cell holds. */
  predicate IsEmptyGlyph(g: Glyph) {
    |g| == 0 || g[0] == NUL
  }

  datatype Cell = Cell(glyph: Glyph, attrs: Attrs)

  /** A row of cells and whether it must be written to the buffer again. */
  datatype Line = Line(cells: seq<Cell>, dirty: bool)

  function BlankCell(attrs: Attrs): Cell {
    Cell(EmptyGlyph, attrs)
  }

  function Blanks(n: nat, attrs: Attrs): (r: seq<Cell>)
    ensures |r| == n
    ensures forall i :: 0 <= i < n ==> r[i] == BlankCell(attrs)
  {
    seq(n, _ => BlankCell(attrs))
  }

  /** `n` copies of one cell. */
  function Repeat(c: Cell, n: nat): (r: seq<Cell>)
    ensures |r| == n
    ensures forall i :: 0 <= i < n ==> r[i] == c
  {
    seq(n, _ => c)
  }

  // ---------------------------------------------------------- within a line

  /** Insert `c` before column `col` (1-based); the last cell falls off. */
  function InsertAt(cells: seq<Cell>, col: int, c: Cell): (r: seq<Cell>)
    requires 1 <= col <= |cells|
    ensures |r| == |cells|
  {
    cells[..col - 1] + [c] + cells[col - 1..|cells| - 1]
  }

  /** Remove the cell at column `col` (1-based); `fill` enters at the end. */
  function DeleteAt(cells: seq<Cell>, col: int, fill: Cell): (r: seq<Cell>)
    requires 1 <= col <= |cells|
    ensures |r| == |cells|
  {
    cells[..col - 1] + cells[col..] + [fill]
  }

  /** `n` insertions at the same column. */
  function InsertTimes(cells: seq<Cell>, col: int, c: Cell, n: nat): (r: seq<Cell>)
    requires 1 <= col <= |cells|
    ensures |r| == |cells|
    decreases n
  {
    if n == 0 then cells else InsertTimes(InsertAt(cells, col, c), col, c, n - 1)
  }

  /** `n` deletions at the same column. */
  function DeleteTimes(cells: seq<Cell>, col: int, fill: Cell, n: nat): (r: seq<Cell>)
    requires 1 <= col <= |cells|
    ensures |r| == |cells|
    decreases n
  {
    if n == 0 then cells else DeleteTimes(DeleteAt(cells, col, fill), col, fill, n - 1)
  }

  function Min(a: int, b: int): int {
    if a <= b then a else b
  }

  /** Inserting a cell shifts the cells from `col` one place right and
      drops the last one; deleting it again restores every cell but the
      last, which becomes the fill cell. */
  lemma InsertDelete(cells: seq<Cell>, col: int, c: Cell, fill: Cell)
    requires 1 <= col <= |cells|
    ensures InsertAt(cells, col, c)[col - 1] == c
    ensures InsertAt(cells, col, c)[col..] == cells[col - 1..|cells| - 1]
    ensures DeleteAt(InsertAt(cells, col, c), col, fill) == cells[..|cells| - 1] + [fill]
  {
    var r := InsertAt(cells, col, c);
    assert r[..col - 1] == cells[..col - 1];
    assert r[col..] == cells[col - 1..|cells| - 1];
    assert cells[..col - 1] + cells[col - 1..|cells| - 1] == cells[..|cells| - 1];
  }

  /** Deleting a cell and inserting at the same column overwrites that
      one cell and leaves every other cell where it was. */
  lemma DeleteInsert(cells: seq<Cell>, col: int, c: Cell, fill: Cell)
    requires 1 <= col <= |cells|
    ensures InsertAt(DeleteAt(cells, col, fill), col, c) == cells[col - 1 := c]
  {
    var d := DeleteAt(cells, col, fill);
    assert d[col - 1..|d| - 1] == cells[col..];
  }

  /** `n` insertions of a cell at column `col` put `k` copies of it there,
      `k` being `n` or the room left to the end of the line, and push the
      cells that were there right, dropping the last `k`. */
  lemma {:induction false} InsertTimesShape(cells: seq<Cell>, col: int, c: Cell, n: nat)
    requires 1 <= col <= |cells|
    ensures var k := Min(n, |cells| - col + 1);
      InsertTimes(cells, col, c, n) == cells[..col - 1] + Repeat(c, k) + cells[col - 1..|cells| - k]
    decreases n
  {
    var k := Min(n, |cells| - col + 1);
    if n == 0 {
      assert cells[..col - 1] + Repeat(c, 0) + cells[col - 1..|cells|] == cells;
    } else {
      var once := InsertAt(cells, col, c);
      InsertTimesShape(once, col, c, n - 1);
      var k' := Min(n - 1, |cells| - col + 1);
      var r := once[..col - 1] + Repeat(c, k') + once[col - 1..|cells| - k'];
      assert once[..col - 1] == cells[..col - 1];
      if k' < |cells| - col + 1 {
        assert k == k' + 1;
        assert once[col - 1..] == [c] + cells[col - 1..|cells| - 1];
        assert once[col - 1..|cells| - k'] == once[col - 1..][..|cells| - k' - col + 1];
        assert once[col - 1..|cells| - k'] == [c] + cells[col - 1..|cells| - k];
        assert Repeat(c, k') + [c] == Repeat(c, k);
        assert r == cells[..col - 1] + Repeat(c, k) + cells[col - 1..|cells| - k];
      } else {
        assert k == k';
        assert once[col - 1..|cells| - k'] == [];
        assert cells[col - 1..|cells| - k] == [];
      }
    }
  }

  /** `n` deletions at column `col` close up the cells right of it by `k`
      places, `k` being `n` or the room left to the end of the line, and
      append `k` fill cells. */
  lemma {:induction false} DeleteTimesShape(cells: seq<Cell>, col: int, fill: Cell, n: nat)
    requires 1 <= col <= |cells|
    ensures var k := Min(n, |cells| - col + 1);
      DeleteTimes(cells, col, fill, n) == cells[..col - 1] + cells[col - 1 + k..] + Repeat(fill, k)
    decreases n
  {
    var k := Min(n, |cells| - col + 1);
    if n == 0 {
      assert cells[..col - 1] + cells[col - 1..] + Repeat(fill, 0) == cells;
    } else {
      var once := DeleteAt(cells, col, fill);
      DeleteTimesShape(once, col, fill, n - 1);
      var k' := Min(n - 1, |cells| - col + 1);
      assert once[..col - 1] == cells[..col - 1];
      if k' < |cells| - col + 1 {
        assert k == k' + 1;
        assert once[col - 1 + k'..] == cells[col - 1 + k..] + [fill];
        assert [fill] + Repeat(fill, k') == Repeat(fill, k);
      } else {
        assert k == k';
        assert once[col - 1 + k'..] == [];
        assert cells[col - 1 + k..] == [];
      }
    }
  }

  /** The cells after writing glyph `g` of width `gw` at column `col`
      with attributes `attrs`: the glyph takes the cell, and the attributes
      are stamped on the cells it covers up to the right margin `width`;
      the glyphs of those further cells are kept. */
  function Put(cells: seq<Cell>, col: int, g: Glyph, gw: nat, attrs: Attrs, width: int): (r: seq<Cell>)
    requires 1 <= col <= |cells|
    ensures |r| == |cells|
  {
    seq(|cells|, j requires 0 <= j < |cells| =>
      if j == col - 1 then (if gw >= 1 then Cell(g, attrs) else cells[j].(glyph := g))
      else if col - 1 < j < col - 1 + gw && j < width then cells[j].(attrs := attrs)
      else cells[j])
  }

  /** A glyph one column wide changes its own cell and no other. */
  lemma PutNarrow(cells: seq<Cell>, col: int, g: Glyph, attrs: Attrs, width: int)
    requires 1 <= col <= |cells|
    ensures Put(cells, col, g, 1, attrs, width) == cells[col - 1 := Cell(g, attrs)]
  {
  }

  /** Items `lo` to `hi - 1` (0-based) replaced by `x`, the others kept:
      cells of a line, or lines of a page. */
  function Filled<T>(xs: seq<T>, lo: int, hi: int, x: T): (r: seq<T>)
    ensures |r| == |xs|
  {
    seq(|xs|, j requires 0 <= j < |xs| => if lo <= j < hi then x else xs[j])
  }

  /** Filling one more item at the end of a filled range. */
  lemma FilledGrows<T>(xs: seq<T>, lo: int, hi: int, x: T)
    requires 0 <= lo <= hi < |xs|
    ensures Filled(xs, lo, hi, x)[hi := x] == Filled(xs, lo, hi + 1, x)
  {
  }

  // ---------------------------------------------------------- lines of a screen

  /** The index a line held before a rotation that removed index `del`
      and inserted at `ins`, for every index but `ins`: the lines between
      the two move one place towards the removed one. */
  function RotateFrom(j: int, del: int, ins: int): int {
    if del <= ins then (if del <= j < ins then j + 1 else j)
    else (if ins < j <= del then j - 1 else j)
  }

  /** Remove line `del` (0-based) and insert `blank` at index `ins` of what
      is left. */
  function Rotate(lines: seq<Line>, del: int, ins: int, blank: Line): (r: seq<Line>)
    requires 0 <= del < |lines| && 0 <= ins < |lines|
    ensures |r| == |lines|
    ensures forall j :: 0 <= j < |r| && j != ins ==> 0 <= RotateFrom(j, del, ins) < |lines|
    ensures forall j :: 0 <= j < |r| ==> r[j] == if j == ins then blank else lines[RotateFrom(j, del, ins)]
  {
    var rest := lines[..del] + lines[del + 1..];
    assert forall k :: 0 <= k < |rest| ==> rest[k] == if k < del then lines[k] else lines[k + 1];
    var r := rest[..ins] + [blank] + rest[ins..];
    assert forall j :: 0 <= j < |r| ==> r[j] == if j < ins then rest[j] else if j == ins then blank else rest[j - 1];
    r
  }

  /** Rotating a line out at `del` and in at `ins`, then back out at
      `ins` and in at `del`, restores every line but the one at `del`. */
  lemma RotateBack(lines: seq<Line>, del: int, ins: int, x: Line, y: Line)
    requires 0 <= del < |lines| && 0 <= ins < |lines|
    ensures Rotate(Rotate(lines, del, ins, x), ins, del, y) == lines[del := y]
  {
    var once := Rotate(lines, del, ins, x);
    var twice := Rotate(once, ins, del, y);
    forall j | 0 <= j < |lines|
      ensures twice[j] == lines[del := y][j]
    {
      if j != del {
        assert RotateFrom(RotateFrom(j, ins, del), del, ins) == j;
      }
    }
  }

  /** Lines `lo` to `hi - 1` (0-based) marked dirty, the others kept. */
  function MarkDirty(lines: seq<Line>, lo: int, hi: int): (r: seq<Line>)
    ensures |r| == |lines|
  {
    seq(|lines|, j requires 0 <= j < |lines| =>
      if lo <= j < hi then lines[j].(dirty := true) else lines[j])
  }

  /** The widest line, and at least `w`. */
  function MaxWidth(lines: seq<Line>, w: int): (m: int)
    ensures m >= w
    ensures forall i :: 0 <= i < |lines| ==> |lines[i].cells| <= m
    ensures m == w || exists i :: 0 <= i < |lines| && |lines[i].cells| == m
    decreases |lines|
  {
    if lines == [] then w
    else
      var m := MaxWidth(lines[..|lines| - 1], w);
      if |lines[|lines| - 1].cells| > m then |lines[|lines| - 1].cells| else m
  }

  /** A line whose first cell is empty counts as unused when the page
      shrinks. */
  predicate StartsEmpty(l: Line) {
    |l.cells| == 0 || IsEmptyGlyph(l.cells[0].glyph)
  }

  /** Shrinking to `n` lines: while there are too many, drop the last line
      when it starts empty, otherwise the first (into the void above the
      scroll-back). */
  function Evict(lines: seq<Line>, n: nat): (r: seq<Line>)
    ensures |lines| >= n ==> |r| == n
    decreases |lines|
  {
    if |lines| <= n then lines
    else if StartsEmpty(lines[|lines| - 1]) then Evict(lines[..|lines| - 1], n)
    else Evict(lines[1..], n)
  }

  /** How many lines `Evict` takes off the top. */
  function EvictedAbove(lines: seq<Line>, n: nat): nat
    decreases |lines|
  {
    if |lines| <= n then 0
    else if StartsEmpty(lines[|lines| - 1]) then EvictedAbove(lines[..|lines| - 1], n)
    else 1 + EvictedAbove(lines[1..], n)
  }

  /** Shrinking keeps a contiguous window of `n` lines, and every line it
      cuts off below that window starts empty. */
  lemma {:induction false} EvictWindow(lines: seq<Line>, n: nat)
    requires n <= |lines|
    ensures var k := EvictedAbove(lines, n);
      && k + n <= |lines|
      && Evict(lines, n) == lines[k..k + n]
      && forall j :: k + n <= j < |lines| ==> StartsEmpty(lines[j])
    decreases |lines|
  {
    if |lines| == n {
      assert lines[0..n] == lines;
    } else if StartsEmpty(lines[|lines| - 1]) {
      var shorter := lines[..|lines| - 1];
      EvictWindow(shorter, n);
      DroppedLast(lines, shorter, EvictedAbove(shorter, n), n);
    } else {
      var shorter := lines[1..];
      EvictWindow(shorter, n);
      DroppedFirst(lines, shorter, EvictedAbove(shorter, n), n);
    }
  }

  /** The window step when the last line, which starts empty, is dropped. */
  lemma DroppedLast(lines: seq<Line>, shorter: seq<Line>, k: nat, n: nat)
    requires |lines| > 0 && shorter == lines[..|lines| - 1] && StartsEmpty(lines[|lines| - 1])
    requires k + n <= |shorter|
    requires forall j :: k + n <= j < |shorter| ==> StartsEmpty(shorter[j])
    ensures shorter[k..k + n] == lines[k..k + n]
    ensures forall j :: k + n <= j < |lines| ==> StartsEmpty(lines[j])
  {
    assert forall j :: k + n <= j < |shorter| ==> lines[j] == shorter[j];
  }

  /** The window step when the first line is dropped because the last one
      does not start empty. */
  lemma DroppedFirst(lines: seq<Line>, shorter: seq<Line>, k: nat, n: nat)
    requires |lines| > n && shorter == lines[1..] && !StartsEmpty(lines[|lines| - 1])
    requires k + n <= |shorter|
    requires forall j :: k + n <= j < |shorter| ==> StartsEmpty(shorter[j])
    ensures k + 1 + n == |lines|
    ensures shorter[k..k + n] == lines[k + 1..k + 1 + n]
  {
    if |shorter| > 0 {
      assert shorter[|shorter| - 1] == lines[|lines| - 1];
    }
  }

  /** A line widened to `w` cells by appending blanks. */
  function Widen(l: Line, w: int, attrs: Attrs): (r: Line)
    ensures |r.cells| >= w
    ensures |l.cells| >= w ==> r == l
    ensures r.cells[..|l.cells|] == l.cells
    ensures r.dirty == l.dirty
  {
    if |l.cells| >= w then l else Line(l.cells + Blanks(w - |l.cells|, attrs), l.dirty)
  }

  // ---------------------------------------------------------- rendering

  /** A cell that contributes nothing at the end of a line: empty glyph
      and no attribute flag. */
  predicate Trivial(c: Cell) {
    IsEmptyGlyph(c.glyph) && FlagsZero(c.attrs)
  }

  /** The length of a line once its trailing trivial cells are trimmed. */
  function TrimmedLength(cells: seq<Cell>): (n: nat)
    ensures n <= |cells|
    ensures forall j :: n <= j < |cells| ==> Trivial(cells[j])
    ensures n > 0 ==> !Trivial(cells[n - 1])
    decreases |cells|
  {
    if cells == [] || !Trivial(cells[|cells| - 1]) then |cells|
    else TrimmedLength(cells[..|cells| - 1])
  }

  /** Trimming stops exactly at the last cell that is not trivial. */
  lemma TrimmedLengthUnique(cells: seq<Cell>, n: nat)
    requires n <= |cells|
    requires forall j :: n <= j < |cells| ==> Trivial(cells[j])
    requires n > 0 ==> !Trivial(cells[n - 1])
    ensures TrimmedLength(cells) == n
  {
  }

  /** The glyph a cell shows: its own, or a space when it is empty. */
  function Shown(c: Cell): (g: Glyph)
    ensures !IsEmptyGlyph(g)
  {
    if IsEmptyGlyph(c.glyph) then SpaceGlyph else c.glyph
  }

  /** The glyphs written to the editor buffer for one line: trailing
      trivial cells are dropped and every other empty cell shows as a
      space. */
  function Render(cells: seq<Cell>): (r: seq<Glyph>)
    ensures |r| == TrimmedLength(cells)
    ensures forall j :: 0 <= j < |r| ==> !IsEmptyGlyph(r[j])
    ensures forall j :: 0 <= j < |r| && !IsEmptyGlyph(cells[j].glyph) ==> r[j] == cells[j].glyph
  {
    seq(TrimmedLength(cells), j requires 0 <= j < TrimmedLength(cells) => Shown(cells[j]))
  }

  /** A run of blanks shows nothing when its attributes carry no flag,
      and otherwise shows as one space per cell. */
  lemma BlanksRendered(n: nat, attrs: Attrs)
    ensures FlagsZero(attrs) ==> Render(Blanks(n, attrs)) == []
    ensures !FlagsZero(attrs) ==> Render(Blanks(n, attrs)) == seq(n, _ => SpaceGlyph)
  {
    var b := Blanks(n, attrs);
    if FlagsZero(attrs) {
      TrimmedLengthUnique(b, 0);
    } else {
      TrimmedLengthUnique(b, n);
    }
  }

  /** Trimming is insensitive to trivial cells added at the end, so a
      line rendered before and after being widened with blanks of zero
      attributes shows the same text. */
  lemma {:induction false} RenderIgnoresTrivialTail(cells: seq<Cell>, tail: seq<Cell>)
    requires forall j :: 0 <= j < |tail| ==> Trivial(tail[j])
    ensures Render(cells + tail) == Render(cells)
    decreases |tail|
  {
    if tail == [] {
      assert cells + tail == cells;
    } else {
      var shorter := tail[..|tail| - 1];
      assert (cells + tail)[..|cells + tail| - 1] == cells + shorter;
      RenderIgnoresTrivialTail(cells, shorter);
      assert TrimmedLength(cells + tail) == TrimmedLength(cells + shorter);
    }
  }
}
