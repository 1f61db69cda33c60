/** The effects of the decoded commands on the terminal, stated on values:
    the replies the terminal writes back to the shell, the line feeds and
    erasures the commands perform, and the whole terminal as a
    `TermState` with one function per operation, so that a command, a
    sequence of commands and an update each have a meaning of their own.
    The `Term` class carries these out in place. */
module Effects {
  import opened Bytes
  import opened Lexers
  import opened Rendition
  import opened Lines
  import opened Screens
  import opened Decoder

  const DEFAULT_WIDTH: int := 80
  const DEFAULT_HEIGHT: int := 24

  /** The first argument of a control sequence, or `d` when it has none. */
  function Arg(args: seq<int>, d: int): int {
    if |args| > 0 then args[0] else d
  }

  /** The lines and the cursor row after a line feed at row `row`: at the
      bottom of the scrolling region the region scrolls up and the cursor
      stays; anywhere else the cursor moves down a row, staying on the
      page. */
  function LineFed(ls: seq<Line>, g: Geometry, row: int, attrs: Attrs): (r: (seq<Line>, int))
    requires g.Proper() && |ls| == g.scrollback + g.height && 1 <= row <= g.height
    requires Wide(ls, g.width)
    ensures |r.0| == |ls| && Wide(r.0, g.width) && 1 <= r.1 <= g.height
  {
    if row == g.Bottom() then
      var r := ScrolledUp(ls, g, attrs);
      assert Wide(r, g.width) by {
        forall j | 0 <= j < |r|
          ensures |r[j].cells| >= g.width
        {
          var ins := g.scrollback + g.Bottom() - 1;
          if j != ins {
            assert |ls[RotateFrom(j, g.UpDel(), ins)].cells| >= g.width;
          }
        }
      }
      (r, row)
    else (ls, Limit(row + 1, 1, g.height))
  }

  /** The lines and the cursor row after a reverse line feed at row `row`:
      at the top of the scrolling region the region scrolls down and the
      cursor stays; anywhere else the cursor moves up a row. */
  function ReverseFed(ls: seq<Line>, g: Geometry, row: int, attrs: Attrs): (r: (seq<Line>, int))
    requires g.Proper() && |ls| == g.scrollback + g.height && 1 <= row <= g.height
    ensures |r.0| == |ls| && 1 <= r.1 <= g.height
  {
    if row == g.Top() then (ScrolledDown(ls, g, attrs), row)
    else (ls, Limit(row - 1, 1, g.height))
  }

  /** Where the next glyph goes: the lines, row and column after a wrap
      left pending at the right margin has been carried out (a line feed
      and a carriage return), or the cursor as it is. */
  function GlyphSpot(ls: seq<Line>, g: Geometry, row: int, col: int, wrapNext: bool, attrs: Attrs): (r: (seq<Line>, int, int))
    requires g.Proper() && |ls| == g.scrollback + g.height && 1 <= row <= g.height && 1 <= col <= g.width
    requires Wide(ls, g.width)
    ensures |r.0| == |ls| && Wide(r.0, g.width) && 1 <= r.1 <= g.height && 1 <= r.2 <= g.width
  {
    if wrapNext && col == g.width then
      var fed := LineFed(ls, g, row, attrs);
      (fed.0, fed.1, 1)
    else (ls, row, col)
  }

  // --------------------------------------------------------- replies

  /** The glyph the alignment test fills the page with. */
  const EGlyph: Glyph := [B('E')]

  const PrimaryAttributes: seq<byte> := [ESC] + Ascii("[?6c")
  const SecondaryAttributes: seq<byte> := [ESC] + Ascii("[>0;0;0c")
  const StatusOk: seq<byte> := [ESC] + Ascii("[0n")

  /** `ESC [ row ; col R`, the cursor position report. */
  function CursorReport(row: nat, col: nat): (r: seq<byte>)
    ensures |r| >= 6 && r[..2] == [ESC, B('[')] && r[|r| - 1] == B('R')
  {
    [ESC, B('[')] + Decimal(row) + [B(';')] + Decimal(col) + [B('R')]
  }

  /** The emulator's answer to a device status report `CSI val n`: it
      compares the argument with the character codes of `5` and `6`. */
  function DsrReplyAsWritten(val: int, row: nat, col: nat): seq<byte>
  {
    if val == '5' as int then StatusOk
    else if val == '6' as int then CursorReport(row, col)
    else []
  }

  /** The answer to a device status report `CSI val n`: status 5 is
      answered "ready", status 6 with the cursor position; other reports
      are not answered. */
  function DsrReply(val: int, row: nat, col: nat): seq<byte>
  {
    if val == 5 then StatusOk
    else if val == 6 then CursorReport(row, col)
    else []
  }

  /** What the control sequence with mode `mode`, command `command` and
      arguments `args` makes the terminal write back to the shell with the
      cursor at `row`, `col`: the device attributes for `c`, a status
      report for `n`, nothing for anything else. */
  function CsiReply(mode: char, command: char, args: seq<int>, row: nat, col: nat): seq<byte>
  {
    if mode == MODE_NONE && command == 'c' then PrimaryAttributes
    else if mode == MODE_XTERM && command == 'c' then SecondaryAttributes
    else if mode == MODE_NONE && command == 'n' then DsrReply(Arg(args, 0), row, col)
    else []
  }

  /** The emulator's test for a colour query `OSC 4`, `10` or `11`: an
      argument that is exactly `?`. */
  predicate ColorQueryAsWritten(arg: seq<byte>) {
    arg == [B('?')]
  }

  /** A colour query: the argument the OSC lexer keeps for `OSC n ; ?`,
      separator included. */
  predicate ColorQuery(arg: seq<byte>) {
    arg == [B(';'), B('?')]
  }

  /** One colour channel at full intensity, printed as two decimal
      `0xff`s. */
  const Channel: seq<byte> := Ascii("255255")
  const White: seq<byte> := Ascii(";rgb:") + Channel + [B('/')] + Channel + [B('/')] + Channel

  /** The colour reported for every query: white, as `rgb:255255/...`
      since each channel is printed as two decimal `0xff`s. */
  function ColorReply(command: nat): (r: seq<byte>)
    ensures |r| >= 4 && r[..2] == [ESC, B(']')] && r[|r| - 1] == BEL
  {
    var head := [ESC, B(']')] + Decimal(command) + White;
    head + [BEL]
  }

  /** What an operating-system command makes the terminal write back. */
  function OscReply(osc: OscSeq): seq<byte>
  {
    if osc.command in {4, 10, 11} && ColorQuery(osc.arg) then ColorReply(osc.command) else []
  }

  /** The commands that may change anything or answer: the rest (cursor
      visibility, window manipulation, key modifier options, unknown
      commands) are ignored. */
  predicate Acts(csi: CsiSeq) {
    || (csi.mode == MODE_NONE && csi.command in "@ABcCDEFdfHGJKLMPmnrSTX")
    || (csi.mode == MODE_PRIV && csi.command in "hl")
    || (csi.mode == MODE_XTERM && csi.command == 'c')
    || (csi.mode == MODE_RESET && csi.command == 'p')
  }

  /** What the emulator as written writes back for an operating-system
      command. */
  function OscReplyAsWritten(osc: OscSeq): seq<byte>
  {
    if osc.command in {4, 10, 11} && ColorQueryAsWritten(osc.arg) then ColorReply(osc.command) else []
  }

  /** What applying one decoded command writes back to the shell. */
  function Answer(ev: Event, row: nat, col: nat): seq<byte> {
    match ev
    case CsiEvent(csi) => CsiReply(csi.mode, csi.command, csi.args, row, col)
    case OscEvent(osc) => OscReply(osc)
    case _ => []
  }

  // ------------------------------------------------------ reply properties

  /** As written, the status requests `CSI 5 n` and `CSI 6 n` go
      unanswered, and the cursor is reported for `CSI 54 n` instead. */
  lemma DsrAsWritten(row: nat, col: nat)
    ensures DsrReplyAsWritten(5, row, col) == [] && DsrReplyAsWritten(6, row, col) == []
    ensures DsrReplyAsWritten(54, row, col) == CursorReport(row, col)
  {
  }

  /** `CSI 5 n` is answered "ready" and `CSI 6 n` with a cursor report
      that the terminal's own CSI lexer reads back as command `R` with the
      row and the column as its two arguments. */
  lemma {:induction false} DsrAnswered(row: nat, col: nat)
    ensures DsrReply(5, row, col) == StatusOk
    ensures var r := DsrReply(6, row, col);
      r[..2] == [ESC, B('[')] && Csi(r[2..]) == CsiSeq([row, col], 'R', |r| - 2, true, MODE_NONE)
  {
    var d1 := Decimal(row);
    var d2 := Decimal(col);
    var p := d1 + [B(';')] + d2;
    var s := p + [B('R')];
    assert CursorReport(row, col)[2..] == s;
    TwoNumbers(d1, d2);
    ParamsEnd(p, [B('R')]);
    CsiScan(s);
    assert s[..ParamEnd(s, 0)] == p;
    assert LeadEnd(s, 0) == 0 by {
      assert s[0] == d1[0];
      LeadEndIs(s, 0);
    }
  }

  /** Two decimal numbers separated by `;` are parameter bytes that read
      back as those two numbers. */
  lemma {:induction false} TwoNumbers(d1: seq<byte>, d2: seq<byte>)
    requires 1 <= |d1| && forall i :: 0 <= i < |d1| ==> IsDigit(d1[i])
    requires 1 <= |d2| && forall i :: 0 <= i < |d2| ==> IsDigit(d2[i])
    ensures Params(d1 + [B(';')] + d2)
    ensures SpecArgs(d1 + [B(';')] + d2) == [DecimalValue(d1), DecimalValue(d2)]
  {
    var p := d1 + [B(';')] + d2;
    var tail := [B(';')] + d2;
    assert p == d1 + tail;
    OneNumber(d2);
    assert Numbers(tail) == [DecimalValue(d2)] by {
      assert tail[1..] == d2;
    }
    assert Params(p) by {
      assert forall j :: 0 <= j < |p| ==> p[j] == if j < |d1| then d1[j] else tail[j - |d1|];
    }
    SpecArgsNoLead(p);
    NumbersDigitRun(p, |d1|);
    assert p[..|d1|] == d1 && p[|d1|..] == tail;
  }

  /** A run of digits alone reads back as one number. */
  lemma {:induction false} OneNumber(d: seq<byte>)
    requires 1 <= |d| && forall i :: 0 <= i < |d| ==> IsDigit(d[i])
    ensures Numbers(d) == [DecimalValue(d)]
  {
    NumbersDigitRun(d, |d|);
    assert d[..|d|] == d && d[|d|..] == [];
  }

  /** As written, a colour query is never answered: the argument the OSC
      lexer reports keeps its leading `;`, so it is never `?` alone. */
  lemma ColorQueryIgnored(s: seq<byte>)
    ensures OscReplyAsWritten(Osc(s)) == []
  {
    OscArgKeepsSemicolon(s);
  }

  /** `OSC n ; ? BEL` for colour `n` (4, 10 or 11) is read as a colour
      query and answered with white; other commands with the same
      argument get no answer. */
  lemma {:induction false} ColorQueryAnswered(n: nat)
    ensures var osc := Osc(Decimal(n) + [B(';'), B('?'), BEL]);
      && osc.complete && osc.command == n && ColorQuery(osc.arg)
      && OscReply(osc) == (if n in {4, 10, 11} then ColorReply(n) else [])
  {
    var d := Decimal(n);
    var s := d + [B(';'), B('?'), BEL];
    assert forall k :: 0 <= k < |d| ==> s[k] == d[k];
    DigitEndIs(s, 0, |d|);
    assert At(s, |d|) == B(';');
    assert TextEnd(s, |d| + 2) == |d| + 2;
    assert TextEnd(s, |d| + 1) == |d| + 2;
    assert TextEnd(s, |d|) == |d| + 2;
    OscScan(s);
    assert s[..|d|] == d;
    assert s[|d|..|d| + 2] == [B(';'), B('?')];
  }

  // ------------------------------------------------------ cursor properties

  /** A line feed inside the scrolling region keeps the cursor inside it:
      it moves down a row and leaves the lines alone above the bottom, and
      scrolls the region at the bottom. */
  lemma LineFeedInRegion(ls: seq<Line>, g: Geometry, row: int, attrs: Attrs)
    requires g.Proper() && |ls| == g.scrollback + g.height && Wide(ls, g.width)
    requires g.Top() <= row <= g.Bottom()
    ensures var fed := LineFed(ls, g, row, attrs);
      && g.Top() <= fed.1 <= g.Bottom()
      && (row < g.Bottom() ==> fed == (ls, row + 1))
      && (row == g.Bottom() ==> fed == (ScrolledUp(ls, g, attrs), row))
  {
  }

  /** A line feed then a reverse line feed inside the region, away from
      its edges, bring the cursor back with the lines untouched. */
  lemma LineFeedReversed(ls: seq<Line>, g: Geometry, row: int, attrs: Attrs)
    requires g.Proper() && |ls| == g.scrollback + g.height && Wide(ls, g.width)
    requires g.Top() <= row < g.Bottom()
    ensures var fed := LineFed(ls, g, row, attrs);
      ReverseFed(fed.0, g, fed.1, attrs) == (ls, row)
  {
  }

  // ------------------------------------------------------ erasing

  /** What `CSI mode J` blanks, cell by cell: mode 0 every page row below
      the cursor row and the cursor row from the cursor on; mode 1 every
      page row above the cursor row and the cursor row up to and including
      the cursor; mode 2 every page row. Scroll-back lines, the other
      cells, and everything under any other mode are kept. */
  lemma DisplayErasedCells(ls: seq<Line>, scrollback: nat, width: nat, height: nat, row: int, col: int,
                           mode: int, attrs: Attrs, j: int, k: int)
    requires |ls| == scrollback + height && 1 <= row <= height && 1 <= col <= width && Wide(ls, width)
    requires 0 <= j < |ls| && 0 <= k < width
    ensures var r := DisplayErased(ls, scrollback, width, height, row, col, mode, attrs);
      var i := scrollback + row - 1;
      var erased := || (mode == 0 && (j > i || (j == i && k >= col - 1)))
                    || (mode == 1 && scrollback <= j && (j < i || (j == i && k < col)))
                    || (mode == 2 && scrollback <= j);
      k < |r[j].cells| && r[j].cells[k] == if erased then BlankCell(attrs) else ls[j].cells[k]
  {
  }

  /** The columns of the cursor row that the emulator's `CSI 1 J` visits,
      as written: from column 1 upwards for as long as the column is at
      or right of the cursor, the first `steps` of them. */
  function AboveColumnsAsWritten(cursorCol: int, steps: nat): (cols: seq<int>)
    ensures |cols| <= steps
  {
    ColumnsFrom(1, cursorCol, steps)
  }

  function ColumnsFrom(col: int, cursorCol: int, steps: nat): (cols: seq<int>)
    ensures |cols| <= steps
    decreases steps
  {
    if steps == 0 || col < cursorCol then [] else [col] + ColumnsFrom(col + 1, cursorCol, steps - 1)
  }

  /** As written, `CSI 1 J` erases nothing on the cursor row when the
      cursor is right of column 1, and with the cursor in column 1 the
      loop never stops: however many steps are taken, it takes another
      (only its integer overflow, undefined in C++, would end it). */
  lemma {:induction false} AboveColumnsAsWrittenWrong(cursorCol: int, steps: nat)
    ensures cursorCol > 1 ==> AboveColumnsAsWritten(cursorCol, steps) == []
    ensures cursorCol == 1 ==> AboveColumnsAsWritten(cursorCol, steps) == seq(steps, k => k + 1)
  {
    if cursorCol == 1 {
      ColumnsRun(1, steps);
    }
  }

  lemma {:induction false} ColumnsRun(col: int, steps: nat)
    requires col >= 1
    ensures ColumnsFrom(col, 1, steps) == seq(steps, k => col + k)
    decreases steps
  {
    if steps > 0 {
      ColumnsRun(col + 1, steps - 1);
      assert [col] + seq(steps - 1, k => col + 1 + k) == seq(steps, k => col + k);
    }
  }

  // ------------------------------------------------------ the state as a value

  /** The columns a glyph takes: two for the multi-byte glyphs in `wide`,
      one for every other glyph. */
  function GlyphWidth(g: Glyph, wide: set<Glyph>): (w: nat)
    ensures w == 1 || w == 2
    ensures |g| <= 1 ==> w == 1
  {
    if |g| > 1 && g in wide then 2 else 1
  }

  /** The whole terminal as a value: both pages, the wide glyphs and the
      tab width it was made with, its modes, the current attributes, the
      title, every byte written to the shell so far, and the decoding
      state kept between updates. */
  datatype TermState = TermState(
    main: PageState, alt: PageState, wide: set<Glyph>, tabWidth: int,
    altActive: bool, attrs: Attrs, appKeys: bool, autoWrap: bool, wrapNext: bool,
    title: seq<byte>, output: seq<byte>, delayUpdate: bool, carry: Carry, inbox: seq<byte>)
  {
    /** Both pages well formed and of one size. */
    predicate Ok() {
      && main.Ok() && alt.Ok()
      && main.geo.width == alt.geo.width && main.geo.height == alt.geo.height
      && 1 <= tabWidth
    }

    /** The page on display. */
    function Shown(): PageState {
      if altActive then alt else main
    }

    /** The same terminal with `p` as the page on display. */
    function WithShown(p: PageState): TermState {
      if altActive then this.(alt := p) else this.(main := p)
    }
  }

  /** The line under the cursor on the page on display. */
  function CursorRow(t: TermState): (l: Line)
    requires t.Ok()
    ensures |l.cells| >= t.Shown().geo.width
  {
    var p := t.Shown();
    p.lines[p.CursorLine()]
  }

  /** The page on display with `ls` for its lines. */
  function LinesSet(t: TermState, ls: seq<Line>): TermState {
    t.WithShown(t.Shown().(lines := ls))
  }

  /** The line under the cursor replaced by `l`. */
  function RowSet(t: TermState, l: Line): TermState
    requires t.Ok()
  {
    var p := t.Shown();
    LinesSet(t, p.lines[p.CursorLine() := l])
  }

  // ------------------------------------------------------ the cursor

  /** `r` is `t` with at most the cursor of the page on display and the
      pending wrap changed. */
  predicate CursorOnly(t: TermState, r: TermState) {
    var p := t.Shown();
    r == t.WithShown(p.(cursor := r.Shown().cursor)).(wrapNext := r.wrapNext)
  }

  /** The cursor put at `row`, `col`, fitted to the page, with no wrap
      pending. */
  function CursorSet(t: TermState, row: int, col: int): (r: TermState)
    ensures t.Ok() ==> r.Ok()
    ensures CursorOnly(t, r)
  {
    var p := t.Shown();
    t.WithShown(p.(cursor := (Limit(row, 1, p.geo.height), Limit(col, 1, p.geo.width)))).(wrapNext := false)
  }

  /** The cursor moved by `rows` and `cols`, staying on the page; the
      move cancels a pending wrap when `cancelWrap` says so. */
  function Moved(t: TermState, rows: int, cols: int, cancelWrap: bool): (r: TermState)
    ensures t.Ok() ==> r.Ok()
    ensures CursorOnly(t, r)
  {
    var p := t.Shown();
    CursorSet(t, p.cursor.0 + rows, p.cursor.1 + cols).(wrapNext := t.wrapNext && !cancelWrap)
  }

  /** The scrolling region of the page on display set to `top`..`bottom`,
      both fitted into `0..height`. */
  function ScrollSet(t: TermState, top: int, bottom: int): (r: TermState)
    ensures t.Ok() && (top <= bottom || bottom <= 0) ==> r.Ok()
  {
    var p := t.Shown();
    var h := p.geo.height;
    t.WithShown(p.(geo := p.geo.(scrollT := Limit(top, 0, h), scrollB := Limit(bottom, 0, h))))
  }

  /** The cursor and the current attributes saved. */
  function CursorSaved(t: TermState): TermState {
    var p := t.Shown();
    t.WithShown(p.(saved := (p.cursor.0, p.cursor.1, t.attrs, true)))
  }

  /** The saved cursor, fitted to the page, and the saved attributes
      restored; the save is used up. */
  function CursorRestored(t: TermState): TermState {
    var p := t.Shown();
    var s := p.saved;
    t.WithShown(p.(cursor := (Limit(s.0, 1, p.geo.height), Limit(s.1, 1, p.geo.width)), saved := (s.0, s.1, s.2, false)))
     .(attrs := s.2)
  }

  /** `ESC 8`: the saved cursor restored; with nothing saved, the cursor
      home and the attributes cleared. */
  function RestoredOrHomed(t: TermState): TermState {
    if t.Shown().saved.3 then CursorRestored(t) else CursorSet(t, 1, 1).(attrs := ZeroAttr)
  }

  // ------------------------------------------------------ the page

  /** Every row of the page on display blank with the current
      attributes. */
  function PageCleared(t: TermState): (r: TermState)
    requires t.Ok()
    ensures r.Ok()
  {
    var p := t.Shown();
    LinesSet(t, Filled(p.lines, p.geo.scrollback, |p.lines|, BlankLine(p.geo.width, t.attrs)))
  }

  /** The full reset: attributes cleared, application keys off, auto-wrap
      on, no wrap pending, the region unset, the cursor home and every row
      of the page on display blank. */
  function ResetDone(t: TermState): TermState
    requires t.Ok()
  {
    var p := t.Shown();
    var g := p.geo;
    t.WithShown(p.(lines := Filled(p.lines, g.scrollback, |p.lines|, BlankLine(g.width, ZeroAttr)),
                   geo := g.(scrollT := 0, scrollB := 0), cursor := (1, 1)))
     .(attrs := ZeroAttr, appKeys := false, autoWrap := true, wrapNext := false)
  }

  /** `ESC # 8`: the full reset, then every row of the page filled with
      `E` in the current (cleared) attributes. */
  function Aligned(t: TermState): TermState
    requires t.Ok()
  {
    var r := ResetDone(t);
    var q := r.Shown();
    LinesSet(r, FilledRows(q.lines, q.geo.scrollback, |q.lines|, 1, q.geo.width, Cell(EGlyph, ZeroAttr)))
  }

  /** `CSI n @`: `n` (default 1) blank cells with zero attributes inserted
      at the cursor; the line is not marked dirty. */
  function BlanksInserted(t: TermState, n: int): TermState
    requires t.Ok()
  {
    var l := CursorRow(t);
    RowSet(t, l.(cells := InsertTimes(l.cells, t.Shown().cursor.1, Cell(SpaceGlyph, ZeroAttr), Count(n))))
  }

  /** `CSI n P`: `n` (default 1) cells deleted at the cursor, blank cells
      in the current attributes entering at the end of the line. */
  function CharsDeleted(t: TermState, n: int): TermState
    requires t.Ok()
  {
    var l := CursorRow(t);
    RowSet(t, Line(DeleteTimes(l.cells, t.Shown().cursor.1, BlankCell(t.attrs), Count(n)), l.dirty || n > 0))
  }

  /** `CSI n X`: `n` (default 1) cells from the cursor on, up to the right
      margin, blank in the current attributes. */
  function CharsErased(t: TermState, n: int): TermState
    requires t.Ok()
  {
    var l := CursorRow(t);
    var col := t.Shown().cursor.1;
    RowSet(t, Line(Filled(l.cells, col - 1, Min(col - 1 + Count(n), t.Shown().geo.width), BlankCell(t.attrs)), l.dirty || n > 0))
  }

  /** `CSI n K`: the cursor row erased as `LineErased` says. */
  function InLineErased(t: TermState, args: seq<int>): TermState
    requires t.Ok()
  {
    var p := t.Shown();
    RowSet(t, LineErased(CursorRow(t), Arg(args, 0), p.cursor.1, p.geo.width, t.attrs))
  }

  /** `CSI n J`: the page erased as `DisplayErased` says. */
  function InDisplayErased(t: TermState, args: seq<int>): TermState
    requires t.Ok()
  {
    var p := t.Shown();
    var g := p.geo;
    LinesSet(t, DisplayErased(p.lines, g.scrollback, g.width, g.height, p.cursor.0, p.cursor.1, Arg(args, 0), t.attrs))
  }

  /** `CSI n L`: `n` (default 1) blank lines inserted at the cursor row. */
  function LinesInsertedAt(t: TermState, n: int): TermState
    requires t.Ok()
  {
    var p := t.Shown();
    LinesSet(t, LinesInserted(p.lines, p.geo, p.cursor.0, t.attrs, Count(n)))
  }

  /** `CSI n M`: `n` (default 1) lines deleted at the cursor row. */
  function LinesDeletedAt(t: TermState, n: int): TermState
    requires t.Ok()
  {
    var p := t.Shown();
    LinesSet(t, LinesDeleted(p.lines, p.geo, p.cursor.0, t.attrs, Count(n)))
  }

  /** `CSI n S`: the region scrolled up `n` (default 1) lines. */
  function ScrolledUpBy(t: TermState, n: int): TermState
    requires t.Ok()
  {
    var p := t.Shown();
    LinesSet(t, ScrolledUpTimes(p.lines, p.geo, t.attrs, Count(n)))
  }

  /** `CSI n T`: the region scrolled down `n` (default 1) lines. */
  function ScrolledDownBy(t: TermState, n: int): TermState
    requires t.Ok()
  {
    var p := t.Shown();
    LinesSet(t, ScrolledDownTimes(p.lines, p.geo, t.attrs, Count(n)))
  }

  /** Glyph `g` written at the cursor in the current attributes. */
  function CellSet(t: TermState, g: Glyph): TermState
    requires t.Ok()
  {
    var l := CursorRow(t);
    var p := t.Shown();
    RowSet(t, Line(Lines.Put(l.cells, p.cursor.1, g, GlyphWidth(g, t.wide), t.attrs, p.geo.width), true))
  }

  // ------------------------------------------------------ line feeds and glyphs

  /** `ESC D` and a line feed: see `LineFed`; a wrap stays pending only
      when the region scrolled. */
  function Indexed(t: TermState): TermState
    requires t.Ok()
  {
    var p := t.Shown();
    var fed := LineFed(p.lines, p.geo, p.cursor.0, t.attrs);
    t.WithShown(p.(lines := fed.0, cursor := (fed.1, p.cursor.1))).(wrapNext := t.wrapNext && p.cursor.0 == p.geo.Bottom())
  }

  /** `ESC M`: see `ReverseFed`; a wrap stays pending only when the region
      scrolled. */
  function ReverseIndexed(t: TermState): TermState
    requires t.Ok()
  {
    var p := t.Shown();
    var fed := ReverseFed(p.lines, p.geo, p.cursor.0, t.attrs);
    t.WithShown(p.(lines := fed.0, cursor := (fed.1, p.cursor.1))).(wrapNext := t.wrapNext && p.cursor.0 == p.geo.Top())
  }

  /** `ESC E`: a line feed and a carriage return. */
  function NextLined(t: TermState): TermState
    requires t.Ok()
  {
    var p := t.Shown();
    var fed := LineFed(p.lines, p.geo, p.cursor.0, t.attrs);
    t.WithShown(p.(lines := fed.0, cursor := (fed.1, 1))).(wrapNext := false)
  }

  /** A wrap left pending at the right margin carried out (see
      `GlyphSpot`) and cleared. */
  function WrapCarried(t: TermState): (r: TermState)
    requires t.Ok()
    ensures r.Ok() && !r.wrapNext
  {
    var p := t.Shown();
    var spot := GlyphSpot(p.lines, p.geo, p.cursor.0, p.cursor.1, t.wrapNext, t.attrs);
    t.WithShown(p.(lines := spot.0, cursor := (spot.1, spot.2))).(wrapNext := false)
  }

  /** Glyph `g` written at the cursor (no wrap pending); then, at the
      right margin with auto-wrap on, a wrap left pending, and elsewhere
      the cursor moved right by the glyph's width, staying on the page. */
  function GlyphPlaced(t: TermState, g: Glyph): TermState
    requires t.Ok() && !t.wrapNext
  {
    var p := t.Shown();
    var c := CellSet(t, g);
    if p.cursor.1 == p.geo.width && t.autoWrap then c.(wrapNext := true)
    else Moved(c, 0, GlyphWidth(g, t.wide), false)
  }

  /** What placing a glyph amounts to: the glyph in the cursor's cell
      of the cursor row, the row marked for redrawing, and either a wrap
      pending with the cursor kept (at the right margin with auto-wrap on)
      or the cursor moved right by the glyph's width, never past the
      margin; nothing else changes. */
  lemma GlyphPlacedMeaning(t: TermState, g: Glyph)
    requires t.Ok() && !t.wrapNext
    ensures var r := GlyphPlaced(t, g); var p := t.Shown(); var col := p.cursor.1;
      var wrap := col == p.geo.width && t.autoWrap;
      var gw := GlyphWidth(g, t.wide);
      && r.Ok() && r.wrapNext == wrap
      && r.Shown().cursor == (p.cursor.0, if wrap then col else Limit(col + gw, 1, p.geo.width))
      && r.Shown().lines == p.lines[p.CursorLine() := Line(Lines.Put(p.lines[p.CursorLine()].cells, col, g, gw, t.attrs, p.geo.width), true)]
      && r.Shown().geo == p.geo && r.Shown().saved == p.saved
      && r == t.WithShown(r.Shown()).(wrapNext := r.wrapNext)
  {
    var p := t.Shown();
    var col := p.cursor.1;
    var l := Line(Lines.Put(p.lines[p.CursorLine()].cells, col, g, GlyphWidth(g, t.wide), t.attrs, p.geo.width), true);
    var c := CellSet(t, g);
    assert c == t.WithShown(p.(lines := p.lines[p.CursorLine() := l]));
    assert c.Shown() == p.(lines := p.lines[p.CursorLine() := l]);
    assert Wide(c.Shown().lines, p.geo.width);
  }

  /** A printable glyph: a pending wrap carried out, then the glyph
      placed. */
  function GlyphWritten(t: TermState, g: Glyph): TermState
    requires t.Ok()
  {
    GlyphPlaced(WrapCarried(t), g)
  }

  /** A horizontal tab: spaces in the current attributes up to the next
      tab stop (see `TabStop`), where the cursor goes; at the right margin
      nothing happens. */
  function Tabbed(t: TermState): TermState
    requires t.Ok()
  {
    var p := t.Shown();
    t.WithShown(PageTabbed(p, t.tabWidth, t.attrs))
     .(wrapNext := t.wrapNext && TabStop(p.cursor.1, p.geo.width, t.tabWidth) == p.cursor.1)
  }

  // ------------------------------------------------------ modes

  /** `CSI args m`: the rendition codes applied in order (see `Sgr`). */
  function RenditionSelected(t: TermState, args: seq<int>): TermState {
    t.(attrs := Sgr(SgrArgs(args), t.attrs))
  }

  /** `CSI ? 1049 h` (`on`): the alternate page shown, its cursor home,
      every row blank in the current attributes and every line marked for
      redrawing, no wrap pending. `CSI ? 1049 l`: the main page shown and
      every line of it marked for redrawing. */
  function PageSwitched(t: TermState, on: bool): TermState
    requires t.Ok()
  {
    if on then
      var a := t.alt;
      var blank := Filled(a.lines, a.geo.scrollback, |a.lines|, BlankLine(a.geo.width, t.attrs));
      t.(altActive := true, wrapNext := false, alt := a.(cursor := (1, 1), lines := MarkDirty(blank, 0, |blank|)))
    else
      t.(altActive := false, main := t.main.(lines := MarkDirty(t.main.lines, 0, |t.main.lines|)))
  }

  /** `CSI ? n h` (`on`) and `CSI ? n l`, `n` 1 when missing: 1 application
      cursor keys, 3 the full reset either way, 7 auto-wrap, 1049 the
      alternate page; any other mode is ignored. */
  function PrivateModeSet(t: TermState, args: seq<int>, on: bool): TermState
    requires t.Ok()
  {
    var m := Arg(args, 1);
    if m == 1 then t.(appKeys := on)
    else if m == 3 then ResetDone(t)
    else if m == 7 then t.(autoWrap := on)
    else if m == 1049 then PageSwitched(t, on)
    else t
  }

  /** `CSI ! p`: the attributes cleared, the cursor home, the region unset
      and every row of the page on display blank; then application keys
      off and the main page shown with every line marked for redrawing.
      Auto-wrap is left alone. */
  function SoftResetDone(t: TermState): TermState
    requires t.Ok()
  {
    var p := t.Shown();
    var g := p.geo;
    var s := t.WithShown(p.(lines := Filled(p.lines, g.scrollback, |p.lines|, BlankLine(g.width, ZeroAttr)),
                            geo := g.(scrollT := 0, scrollB := 0), cursor := (1, 1)));
    s.(main := s.main.(lines := MarkDirty(s.main.lines, 0, |s.main.lines|)),
       attrs := ZeroAttr, appKeys := false, altActive := false, wrapNext := false)
  }

  /** The full reset as the emulator performs it: the modes, then the
      region, the cursor and the page. */
  lemma ResetSteps(t: TermState)
    requires t.Ok()
    ensures var u := t.(attrs := ZeroAttr, appKeys := false, autoWrap := true, wrapNext := false);
      ResetDone(t) == PageCleared(CursorSet(ScrollSet(u, 0, 0), 1, 1))
  {
  }

  /** The soft reset as the emulator performs it: the attributes, the
      cursor, the region, the page, then the keypad and the main page. */
  lemma SoftResetSteps(t: TermState)
    requires t.Ok()
    ensures var c := ScrollSet(CursorSet(t.(attrs := ZeroAttr), 1, 1), 0, 0);
      SoftResetDone(t) == PageSwitched(PageCleared(c).(appKeys := false), false)
  {
  }

  /** `CSI top ; bottom r`: the cursor home, then the region set: no
      arguments unset it, one sets its top, two set both unless the bottom
      is above the top; bounds are fitted into `0..height`. More arguments
      leave it alone. */
  function RegionSet(t: TermState, args: seq<int>): TermState {
    var p := t.Shown();
    var g := p.geo;
    var h := g.height;
    var region :=
      if |args| == 0 then (0, 0)
      else if |args| == 1 then (Limit(args[0], 0, h), 0)
      else if |args| == 2 && args[1] >= args[0] then (Limit(args[0], 0, h), Limit(args[1], 0, h))
      else (g.scrollT, g.scrollB);
    t.WithShown(p.(cursor := (1, 1), geo := g.(scrollT := region.0, scrollB := region.1))).(wrapNext := false)
  }

  /** Setting the region as the emulator performs it: the cursor home,
      then one setting of the region, or none. */
  lemma RegionSteps(t: TermState, args: seq<int>)
    requires t.Ok()
    ensures var c := CursorSet(t, 1, 1);
      && (|args| == 0 ==> RegionSet(t, args) == ScrollSet(c, 0, 0))
      && (|args| == 1 ==> RegionSet(t, args) == ScrollSet(c, args[0], 0))
      && (|args| == 2 && args[1] >= args[0] ==> RegionSet(t, args) == ScrollSet(c, args[0], args[1]))
      && ((|args| == 2 && args[1] < args[0]) || |args| > 2 ==> RegionSet(t, args) == c)
  {
  }

  // ------------------------------------------------------ control sequences

  /** Where the commands that only move the cursor put it, counts
      defaulting to 1: up, down, forward, back, to the start of the next
      or previous line, to a row, to a position (`f`, `H`), and to a column
      (`G` and any other letter); always on the page. */
  function CursorTarget(p: PageState, command: char, args: seq<int>): (r: (int, int))
    ensures p.geo.height >= 1 && p.geo.width >= 1 ==> 1 <= r.0 <= p.geo.height && 1 <= r.1 <= p.geo.width
  {
    var n := Arg(args, 1);
    var h := p.geo.height;
    var w := p.geo.width;
    var row := p.cursor.0;
    var col := p.cursor.1;
    if command == 'A' then (Limit(row - n, 1, h), Limit(col, 1, w))
    else if command == 'B' then (Limit(row + n, 1, h), Limit(col, 1, w))
    else if command == 'C' then (Limit(row, 1, h), Limit(col + n, 1, w))
    else if command == 'D' then (Limit(row, 1, h), Limit(col - n, 1, w))
    else if command == 'E' then (Limit(row + n, 1, h), 1)
    else if command == 'F' then (Limit(row - n, 1, h), 1)
    else if command == 'd' then (Limit(n, 1, h), Limit(col, 1, w))
    else if command == 'f' || command == 'H' then
      if |args| == 0 then (1, 1)
      else if |args| == 1 then (Limit(args[0], 1, h), 1)
      else (Limit(args[0], 1, h), Limit(args[1], 1, w))
    else (Limit(row, 1, h), Limit(n, 1, w))
  }

  /** The commands that only move the cursor, as the emulator performs
      them: a move by the count, for `E` and `F` followed by a carriage
      return; otherwise one placement of the cursor, none for `f` and `H`
      with more than two arguments. */
  function CursorMoved(t: TermState, command: char, args: seq<int>): TermState {
    var n := Arg(args, 1);
    var p := t.Shown();
    if command == 'A' then Moved(t, -n, 0, true)
    else if command == 'B' then Moved(t, n, 0, true)
    else if command == 'C' then Moved(t, 0, n, true)
    else if command == 'D' then Moved(t, 0, -n, true)
    else if command == 'E' || command == 'F' then
      var m := Moved(t, if command == 'E' then n else -n, 0, true);
      CursorSet(m, m.Shown().cursor.0, 1)
    else if command == 'd' then CursorSet(t, n, p.cursor.1)
    else if command == 'f' || command == 'H' then
      if |args| == 0 then CursorSet(t, 1, 1)
      else if |args| == 1 then CursorSet(t, args[0], 1)
      else if |args| == 2 then CursorSet(t, args[0], args[1])
      else t
    else CursorSet(t, p.cursor.0, n)
  }

  /** Up and down put the cursor where `CursorTarget` says, cancel a
      pending wrap and change nothing else. */
  lemma VerticalTargets(t: TermState, command: char, args: seq<int>)
    requires t.Ok() && (command == 'A' || command == 'B')
    ensures var r := CursorMoved(t, command, args);
      && r.Shown().cursor == CursorTarget(t.Shown(), command, args) && !r.wrapNext
      && CursorOnly(t, r) && r.Ok()
  {
  }

  /** So do forward and back. */
  lemma HorizontalTargets(t: TermState, command: char, args: seq<int>)
    requires t.Ok() && (command == 'C' || command == 'D')
    ensures var r := CursorMoved(t, command, args);
      && r.Shown().cursor == CursorTarget(t.Shown(), command, args) && !r.wrapNext
      && CursorOnly(t, r) && r.Ok()
  {
  }

  /** `E` and `F` as two steps: a move by the count, then a carriage
      return on the row reached. */
  lemma LineSteps(t: TermState, command: char, args: seq<int>)
    requires t.Ok() && (command == 'E' || command == 'F')
    ensures var rows := if command == 'E' then Arg(args, 1) else -Arg(args, 1);
      CursorMoved(t, command, args) == CursorSet(Moved(t, rows, 0, true), Moved(t, rows, 0, true).Shown().cursor.0, 1)
  {
  }

  /** So do the moves to the start of the next and the previous line. */
  lemma LineTargets(t: TermState, command: char, args: seq<int>)
    requires t.Ok() && (command == 'E' || command == 'F')
    ensures var r := CursorMoved(t, command, args);
      && r.Shown().cursor == CursorTarget(t.Shown(), command, args) && !r.wrapNext
      && CursorOnly(t, r) && r.Ok()
  {
    var p := t.Shown();
    var rows := if command == 'E' then Arg(args, 1) else -Arg(args, 1);
    LineSteps(t, command, args);
    var m := Moved(t, rows, 0, true);
    assert m.Shown().cursor.0 == Limit(p.cursor.0 + rows, 1, p.geo.height) && m.Shown().geo == p.geo;
  }

  /** So do the moves to a row and to a column. */
  lemma AbsoluteTargets(t: TermState, command: char, args: seq<int>)
    requires t.Ok() && (command == 'd' || command == 'G')
    ensures var r := CursorMoved(t, command, args);
      && r.Shown().cursor == CursorTarget(t.Shown(), command, args) && !r.wrapNext
      && CursorOnly(t, r) && r.Ok()
  {
  }

  /** So do the moves to a position, except that with more than two
      arguments they change nothing at all. */
  lemma PositionTargets(t: TermState, command: char, args: seq<int>)
    requires t.Ok() && (command == 'f' || command == 'H')
    ensures var r := CursorMoved(t, command, args);
      if |args| > 2 then r == t
      else && r.Shown().cursor == CursorTarget(t.Shown(), command, args) && !r.wrapNext
           && CursorOnly(t, r) && r.Ok()
  {
    if |args| <= 2 {
      var p := t.Shown();
      var row := if |args| == 0 then 1 else args[0];
      var col := if |args| == 2 then args[1] else 1;
      PositionSteps(t, command, args);
      CursorSetShown(t, row, col);
      assert CursorTarget(p, command, args) == (Limit(row, 1, p.geo.height), Limit(col, 1, p.geo.width));
    }
  }

  /** Where placing the cursor puts it. */
  lemma CursorSetShown(t: TermState, row: int, col: int)
    ensures var p := t.Shown();
      CursorSet(t, row, col).Shown() == p.(cursor := (Limit(row, 1, p.geo.height), Limit(col, 1, p.geo.width)))
  {
    if t.altActive {
      assert CursorSet(t, row, col).alt == CursorSet(t, row, col).Shown();
    } else {
      assert CursorSet(t, row, col).main == CursorSet(t, row, col).Shown();
    }
  }

  /** `f` and `H` with at most two arguments as one placement of the
      cursor, missing arguments 1. */
  lemma PositionSteps(t: TermState, command: char, args: seq<int>)
    requires (command == 'f' || command == 'H') && |args| <= 2
    ensures CursorMoved(t, command, args)
      == CursorSet(t, if |args| == 0 then 1 else args[0], if |args| == 2 then args[1] else 1)
  {
  }

  /** The commands that change the page or the modes without answering,
      counts defaulting to 1; any other letter changes nothing. */
  function Edited(t: TermState, command: char, args: seq<int>): TermState
    requires t.Ok()
  {
    var n := Arg(args, 1);
    if command == '@' then BlanksInserted(t, n)
    else if command == 'J' then InDisplayErased(t, args)
    else if command == 'K' then InLineErased(t, args)
    else if command == 'L' then LinesInsertedAt(t, n)
    else if command == 'M' then LinesDeletedAt(t, n)
    else if command == 'P' then CharsDeleted(t, n)
    else if command == 'm' then RenditionSelected(t, args)
    else if command == 'r' then RegionSet(t, args)
    else if command == 'S' then ScrolledUpBy(t, n)
    else if command == 'T' then ScrolledDownBy(t, n)
    else if command == 'X' then CharsErased(t, n)
    else t
  }

  /** A control sequence without a mode marker: `c` and `n` answer the
      shell, the cursor commands move the cursor, the rest edit. */
  function CommandDone(t: TermState, command: char, args: seq<int>): TermState
    requires t.Ok()
  {
    var p := t.Shown();
    if command == 'c' then t.(output := t.output + PrimaryAttributes)
    else if command == 'n' then t.(output := t.output + DsrReply(Arg(args, 0), p.cursor.0, p.cursor.1))
    else if command in "ABCDEFdfHG" then CursorMoved(t, command, args)
    else Edited(t, command, args)
  }

  /** A complete control sequence, dispatched on its mode marker and its
      command. */
  function CsiDone(t: TermState, csi: CsiSeq): TermState
    requires t.Ok()
  {
    if csi.mode == MODE_NONE then CommandDone(t, csi.command, csi.args)
    else if csi.mode == MODE_PRIV && csi.command == 'h' then PrivateModeSet(t, csi.args, true)
    else if csi.mode == MODE_PRIV && csi.command == 'l' then PrivateModeSet(t, csi.args, false)
    else if csi.mode == MODE_XTERM && csi.command == 'c' then t.(output := t.output + SecondaryAttributes)
    else if csi.mode == MODE_RESET && csi.command == 'p' then SoftResetDone(t)
    else t
  }

  /** An operating-system command: 0 sets the title to the argument (its
      leading `;` included); a colour query 4, 10 or 11 is answered with
      white; anything else is ignored. */
  function OscDone(t: TermState, osc: OscSeq): TermState {
    if osc.command == 0 then t.(title := osc.arg)
    else if osc.command in {4, 10, 11} && ColorQuery(osc.arg) then t.(output := t.output + ColorReply(osc.command))
    else t
  }

  /** One decoded command applied. */
  function Applied(t: TermState, ev: Event): TermState
    requires t.Ok()
  {
    match ev
    case CsiEvent(csi) => CsiDone(t, csi)
    case OscEvent(osc) => OscDone(t, osc)
    case Align => Aligned(t)
    case Save => CursorSaved(t)
    case Restore => RestoredOrHomed(t)
    case Index => Indexed(t)
    case NextLine => NextLined(t)
    case ReverseIndex => ReverseIndexed(t)
    case CarriageReturn => CursorSet(t, t.Shown().cursor.0, 1)
    case Backspace => Moved(t, 0, -1, true)
    case LineFeed => Indexed(t)
    case Tab => Tabbed(t)
    case Put(g) => GlyphWritten(t, g)
  }

  /** Decoded commands applied in order (a state that is not well formed
      is left as it is). */
  function Replayed(t: TermState, evs: seq<Event>): TermState
    decreases |evs|
  {
    if evs == [] || !t.Ok() then t else Replayed(Applied(t, evs[0]), evs[1..])
  }

  // ------------------------------------------------------ updates

  /** The dirty lines of the page on display written to the editor
      buffer (see `Writes`) and marked clean. */
  function Flushed(t: TermState): (TermState, seq<(nat, seq<Glyph>)>) {
    var p := t.Shown();
    (LinesSet(t, Cleaned(p.lines)), Writes(p.lines, 0))
  }

  /** A flush leaves no line of the page on display dirty and keeps every
      cell; each write goes to a row of the page and holds that row's
      rendering, rows in increasing order; and every line that was dirty
      is written. */
  lemma FlushedSound(t: TermState)
    ensures var (r, ws) := Flushed(t);
      var before := t.Shown().lines;
      var after := r.Shown().lines;
      && |after| == |before|
      && (forall j :: 0 <= j < |after| ==> !after[j].dirty && after[j].cells == before[j].cells)
      && (forall k :: 0 <= k < |ws| ==>
            && 1 <= ws[k].0 <= |after|
            && ws[k].1 == Render(after[ws[k].0 - 1].cells)
            && (k + 1 < |ws| ==> ws[k].0 < ws[k + 1].0))
      && (forall j :: 0 <= j < |before| && before[j].dirty ==> Written(ws, j + 1))
  {
    var before := t.Shown().lines;
    var after := Cleaned(before);
    var r := Flushed(t).0;
    if t.altActive {
      assert r == t.(alt := t.alt.(lines := after));
    } else {
      assert r == t.(main := t.main.(lines := after));
    }
    assert r.Shown().lines == after && Flushed(t).1 == Writes(before, 0);
    CleanedSound(before);
  }

  /** One update: skipped, once, right after a resize; otherwise the bytes
      received decoded after what the last chunk left over, every command
      applied in order, and the page on display flushed. */
  function Updated(t: TermState): (TermState, seq<(nat, seq<Glyph>)>) {
    if t.delayUpdate then (t.(delayUpdate := false), [])
    else
      var d := Decode(t.carry, t.inbox);
      Flushed(Replayed(t.(inbox := [], carry := d.carry), d.events))
  }

  /** A page given `w` columns and `h` rows: the lines as `Resized` says,
      the region's bounds and the cursor fitted to the new size. */
  function PageResized(p: PageState, w: int, h: int, attrs: Attrs): PageState
    requires 1 <= w && 1 <= h
  {
    var g := p.geo;
    PageState(Resized(p.lines, g.scrollback, w, h, g.width, attrs),
              Geometry(g.scrollback, w, h, Limit(g.scrollT, 0, h), Limit(g.scrollB, 0, h)),
              (Limit(p.cursor.0, 1, h), Limit(p.cursor.1, 1, w)), p.saved)
  }

  /** Both pages resized, unless the page on display has that size
      already, and the next update skipped. */
  function ResizeDone(t: TermState, w: int, h: int): TermState
    requires 1 <= w && 1 <= h
  {
    var g := t.Shown().geo;
    if g.width == w && g.height == h then t
    else t.(main := PageResized(t.main, w, h, t.attrs), alt := PageResized(t.alt, w, h, t.attrs), delayUpdate := true)
  }
}
