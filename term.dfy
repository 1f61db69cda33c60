/** The terminal emulator: the main and the alternate page, the modes the
    shell sets, the current attributes, the bytes queued for the shell,
    and the decoding state carried from one update to the next. Control
    sequences and characters are decoded by `Decoder` and their effects
    applied here, in order. */
module Terminal {
  import opened Bytes
  import opened Lexers
  import opened Rendition
  import opened Lines
  import opened Screens
  import opened Decoder
  import opened Keys
  import opened Effects

  class Term {
    const main: Screen
    const alt: Screen
    /** The multi-byte glyphs two columns wide (every other glyph is one
        column wide). */
    const wide: set<Glyph>
    /** The editor's tab width. */
    const tabWidth: int

    var altActive: bool
    var attrs: Attrs
    var appKeys: bool
    var autoWrap: bool
    var wrapNext: bool
    var title: seq<byte>
    /** Every byte written to the shell so far. */
    var output: seq<byte>
    var delayUpdate: bool
    /** What an incomplete chunk left for the next update. */
    var carry: Carry
    /** Bytes read from the shell and not yet decoded. */
    var inbox: seq<byte>

    /** Both pages are valid, distinct and of one size. */
    ghost predicate Valid()
      reads this, main, alt
    {
      && main != alt && main.Valid() && alt.Valid()
      && main.width == alt.width && main.height == alt.height
      && 1 <= tabWidth
    }

    /** Before the first resize both pages are still unsized. */
    ghost predicate Resizable()
      reads this, main, alt
    {
      Valid() || (main != alt && main.Unsized() && alt.Unsized() && 1 <= tabWidth)
    }

    /** The page on display. */
    function Page(): Screen
      reads this
    {
      if altActive then alt else main
    }

    /** The terminal as a value (see `TermState`). */
    ghost function State(): (t: TermState)
      reads this, main, alt
      ensures t.Shown() == Page().Val()
      ensures Valid() ==> t.Ok()
    {
      TermState(main.Val(), alt.Val(), wide, tabWidth, altActive, attrs, appKeys, autoWrap, wrapNext,
                title, output, delayUpdate, carry, inbox)
    }

    /** When only the page on display has changed since the old state,
        the terminal is the old one with that page. */
    twostate lemma ShownChanged()
      requires unchanged(this) && unchanged(if altActive then main else alt)
      ensures State() == old(State()).WithShown(Page().Val())
    {
    }

    /** When only the page on display and the pending wrap have changed
        since the old state, the terminal is the old one with that page
        and that pending wrap. */
    twostate lemma ShownWrapChanged()
      requires unchanged(if altActive then main else alt) && Modes() == old(Modes())
      ensures State() == old(State()).WithShown(Page().Val()).(wrapNext := wrapNext)
    {
    }

    /** When neither page has changed since the old state, the terminal
        is the old one with the current modes. */
    twostate lemma PagesKept()
      requires unchanged(main) && unchanged(alt)
      ensures State() == old(State()).(altActive := altActive, attrs := attrs, appKeys := appKeys,
                                       autoWrap := autoWrap, wrapNext := wrapNext, title := title,
                                       output := output, delayUpdate := delayUpdate, carry := carry,
                                       inbox := inbox)
    {
    }

    /** Everything but the pages and the pending wrap. */
    ghost function Modes(): (bool, Attrs, bool, bool, seq<byte>, seq<byte>, bool, Carry, seq<byte>)
      reads this
    {
      (altActive, attrs, appKeys, autoWrap, title, output, delayUpdate, carry, inbox)
    }

    /** A new terminal of 80 by 24 cells with the cursor at home. */
    constructor(scrollback: nat, wide: set<Glyph>, tabWidth: int)
      requires 1 <= tabWidth
      ensures Valid()
      ensures fresh(main) && fresh(alt)
      ensures this.wide == wide && this.tabWidth == tabWidth
      ensures main.scrollback == scrollback && alt.scrollback == scrollback
      ensures Page() == main && Page().width == DEFAULT_WIDTH && Page().height == DEFAULT_HEIGHT
      ensures Page().Cursor() == (1, 1)
      ensures attrs == ZeroAttr && !appKeys && autoWrap && !wrapNext
      ensures title == [] && output == [] && carry == NoCarry && inbox == []
      ensures delayUpdate
    {
      main := new Screen(scrollback);
      alt := new Screen(scrollback);
      this.wide := wide;
      this.tabWidth := tabWidth;
      altActive := false;
      attrs := ZeroAttr;
      appKeys := false;
      autoWrap := true;
      wrapNext := false;
      title := [];
      output := [];
      delayUpdate := false;
      carry := NoCarry;
      inbox := [];
      new;
      Resize(DEFAULT_WIDTH, DEFAULT_HEIGHT);
      SetCursor(1, 1);
    }

    /** Gives both pages `w` columns and `h` rows, unless the page on
        display has that size already, and skips the next update. */
    method Resize(w: int, h: int)
      requires 1 <= w && 1 <= h && Resizable()
      modifies this, main, alt
      ensures Valid()
      ensures State() == ResizeDone(old(State()), w, h)
    {
      if Page().width == w && Page().height == h {
        return;
      }
      main.SetDimensions(w, h, attrs);
      alt.SetDimensions(w, h, attrs);
      delayUpdate := true;
    }

    method MoveCursor(rows: int, cols: int, cancelWrap: bool)
      requires Valid()
      modifies this, Page()
      ensures Valid()
      ensures Page().Cursor() == (Limit(old(Page().cursorRow) + rows, 1, Page().height),
                                  Limit(old(Page().cursorCol) + cols, 1, Page().width))
      ensures Page().lines == old(Page().lines) && Page().Geo() == old(Page().Geo()) && Page().Saved() == old(Page().Saved())
      ensures wrapNext == (old(wrapNext) && !cancelWrap) && Modes() == old(Modes())
      ensures State() == Moved(old(State()), rows, cols, cancelWrap)
    {
      Page().MoveCursor(rows, cols);
      if cancelWrap {
        wrapNext := false;
      }
      ShownWrapChanged();
    }

    method SetCursor(row: int, col: int)
      requires Valid()
      modifies this, Page()
      ensures Valid()
      ensures Page().Cursor() == (Limit(row, 1, Page().height), Limit(col, 1, Page().width))
      ensures Page().lines == old(Page().lines) && Page().Geo() == old(Page().Geo()) && Page().Saved() == old(Page().Saved())
      ensures !wrapNext && Modes() == old(Modes())
      ensures State() == CursorSet(old(State()), row, col)
    {
      Page().SetCursor(row, col);
      wrapNext := false;
      ShownWrapChanged();
    }

    /** Saves the cursor and the current attributes. */
    method SaveCursor()
      requires Valid()
      modifies Page()
      ensures Valid()
      ensures State() == CursorSaved(old(State()))
    {
      Page().SaveCursor(attrs);
      ShownChanged();
    }

    /** Restores the saved cursor, fitted to the page, and the saved
        attributes. */
    method RestoreCursor()
      requires Valid()
      modifies this, Page()
      ensures Valid()
      ensures State() == CursorRestored(old(State()))
    {
      var a := Page().RestoreCursor();
      ShownChanged();
      SetAttrs(a);
    }

    /** Sets the scrolling region of the page on display, both bounds
        fitted into `0..height`; the callers keep the top at or above the
        bottom, or leave the bottom unset. */
    method SetScroll(top: int, bottom: int)
      requires Valid() && (top <= bottom || bottom <= 0)
      modifies Page()
      ensures Valid()
      ensures State() == ScrollSet(old(State()), top, bottom)
    {
      Page().SetScroll(top, bottom);
      ShownChanged();
    }

    /** Clears every row of the page with the current attributes. */
    method ClearPage()
      requires Valid()
      modifies Page()
      ensures Valid()
      ensures State() == PageCleared(old(State()))
    {
      Page().ClearRows(1, Page().height, attrs);
      ShownChanged();
    }

    /** The full reset: attributes, keypad mode, wrapping, region, cursor
        and page contents. */
    method Reset()
      requires Valid()
      modifies this, Page()
      ensures Valid()
      ensures State() == ResetDone(old(State()))
    {
      ResetSteps(State());
      attrs := ZeroAttr;
      appKeys := false;
      autoWrap := true;
      wrapNext := false;
      PagesKept();
      SetScroll(0, 0);
      SetCursor(1, 1);
      ClearPage();
    }
    // ------------------------------------------------ editing at the cursor

    /** `CSI n @`: inserts `n` (default 1) blank cells with zero attributes
        at the cursor; the cells pushed past the end of the line are lost.
        The line is not marked dirty. */
    method InsertBlanks(n: int)
      requires Valid()
      modifies Page()
      ensures Valid()
      ensures State() == BlanksInserted(old(State()), n)
    {
      Page().InsertCells(Page().cursorRow, Page().cursorCol, n, SpaceGlyph, ZeroAttr);
      ShownChanged();
    }

    /** `CSI n P`: deletes `n` (default 1) cells at the cursor; blank
        cells with the current attributes enter at the end of the line. */
    method DeleteChars(n: int)
      requires Valid()
      modifies Page()
      ensures Valid()
      ensures State() == CharsDeleted(old(State()), n)
    {
      Page().DeleteCells(Page().cursorRow, Page().cursorCol, n, attrs);
      ShownChanged();
    }

    /** `CSI n X`: clears `n` (default 1) cells from the cursor on, up to
        the right margin, with the current attributes. */
    method EraseChars(n: int)
      requires Valid()
      modifies Page()
      ensures Valid()
      ensures State() == CharsErased(old(State()), n)
    {
      Page().FillCells(Page().cursorRow, Page().cursorCol, n, EmptyGlyph, attrs);
      ShownChanged();
    }

    /** `CSI n K`: clears the cursor row from the cursor to the right
        margin (0 or no argument), from the left margin to the cursor (1),
        or whole (2); any other argument does nothing. */
    method EraseInLine(args: seq<int>)
      requires Valid()
      modifies Page()
      ensures Valid()
      ensures State() == InLineErased(old(State()), args)
    {
      ghost var t := State();
      var s := Page();
      var mode := Arg(args, 0);
      ghost var l := LineErased(CursorRow(t), mode, s.cursorCol, s.width, attrs);
      if mode == 0 {
        s.FillCells(s.cursorRow, s.cursorCol, s.width - s.cursorCol + 1, EmptyGlyph, attrs);
      } else if mode == 1 {
        s.FillCells(s.cursorRow, 1, s.cursorCol, EmptyGlyph, attrs);
      } else if mode == 2 {
        s.ClearRow(s.cursorRow, attrs);
      }
      assert s.lines == t.Shown().lines[t.Shown().CursorLine() := l];
      assert s.Val() == t.Shown().(lines := s.lines);
      ShownChanged();
    }

    /** `CSI n J`: clears the page from the cursor to the end (0 or no
        argument), from the start to the cursor (1), or whole (2); any
        other argument does nothing. */
    method EraseInDisplay(args: seq<int>)
      requires Valid()
      modifies Page()
      ensures Valid()
      ensures State() == InDisplayErased(old(State()), args)
    {
      Page().EraseDisplay(Arg(args, 0), attrs);
      ShownChanged();
    }

    // ------------------------------------------------ lines at the cursor

    /** `CSI n L`: inserts `n` (default 1) blank lines at the cursor row. */
    method InsertLines(n: int)
      requires Valid()
      modifies Page()
      ensures Valid()
      ensures State() == LinesInsertedAt(old(State()), n)
    {
      Page().InsertLines(Page().cursorRow, n, attrs);
      ShownChanged();
    }

    /** `CSI n M`: deletes `n` (default 1) lines at the cursor row. */
    method DeleteLines(n: int)
      requires Valid()
      modifies Page()
      ensures Valid()
      ensures State() == LinesDeletedAt(old(State()), n)
    {
      Page().DeleteLines(Page().cursorRow, n, attrs);
      ShownChanged();
    }

    /** `CSI n S`: scrolls the region up `n` (default 1) lines. */
    method ScrollUpTimes(n: int)
      requires Valid()
      modifies Page()
      ensures Valid()
      ensures State() == ScrolledUpBy(old(State()), n)
    {
      Page().ScrollUpLines(n, attrs);
      ShownChanged();
    }

    /** `CSI n T`: scrolls the region down `n` (default 1) lines. */
    method ScrollDownTimes(n: int)
      requires Valid()
      modifies Page()
      ensures Valid()
      ensures State() == ScrolledDownBy(old(State()), n)
    {
      Page().ScrollDownLines(n, attrs);
      ShownChanged();
    }

    // ------------------------------------------------ the cursor and glyphs

    /** Writes glyph `g` at the cursor with the current attributes. */
    method SetCurrentCell(g: Glyph)
      requires Valid()
      modifies Page()
      ensures Valid()
      ensures State() == CellSet(old(State()), g)
    {
      Page().Set(Page().cursorRow, Page().cursorCol, g, GlyphWidth(g, wide), attrs);
      ShownChanged();
    }

    /** `ESC D` and a line feed: see `LineFed`; the move cancels a pending
        wrap. */
    method IndexLine()
      requires Valid()
      modifies this, Page()
      ensures Valid()
      ensures State() == Indexed(old(State()))
    {
      if Page().cursorRow == Page().ScBottom() {
        Page().ScrollUp(attrs);
        ShownChanged();
      } else {
        MoveCursor(1, 0, true);
      }
    }

    /** `ESC M`: see `ReverseFed`. */
    method ReverseIndexLine()
      requires Valid()
      modifies this, Page()
      ensures Valid()
      ensures State() == ReverseIndexed(old(State()))
    {
      if Page().cursorRow == Page().ScTop() {
        Page().ScrollDown(attrs);
        ShownChanged();
      } else {
        MoveCursor(-1, 0, true);
      }
    }

    /** `ESC E`: a line feed and a carriage return. */
    method NextLineStart()
      requires Valid()
      modifies this, Page()
      ensures Valid()
      ensures State() == NextLined(old(State()))
    {
      IndexLine();
      SetCursor(Page().cursorRow, 1);
    }

    /** Carries out a wrap left pending at the right margin, if any (see
        `GlyphSpot`), and clears it. */
    method CarryWrap()
      requires Valid()
      modifies this, Page()
      ensures Valid()
      ensures State() == WrapCarried(old(State()))
    {
      if wrapNext {
        if Page().cursorCol == Page().width {
          NextLineStart();
        }
        wrapNext := false;
      }
    }

    /** Writes a printable glyph. A wrap left pending at the right margin
        is carried out first (see `GlyphSpot`); the glyph is written at
        the cursor; then, at the right margin with auto-wrap on, the wrap
        is left pending, and elsewhere the cursor moves right by the
        glyph's width, staying on the page. */
    method WriteGlyph(g: Glyph)
      requires Valid()
      modifies this, Page()
      ensures Valid()
      ensures State() == GlyphWritten(old(State()), g)
    {
      CarryWrap();
      PlaceGlyph(g);
    }

    /** Writes a glyph at the cursor, then leaves a wrap pending at the
        right margin with auto-wrap on, or moves the cursor right by the
        glyph's width. */
    method PlaceGlyph(g: Glyph)
      requires Valid() && !wrapNext
      modifies this, Page()
      ensures Valid()
      ensures State() == GlyphPlaced(old(State()), g)
    {
      SetCurrentCell(g);
      if Page().cursorCol == Page().width && autoWrap {
        wrapNext := true;
      } else {
        MoveCursor(0, GlyphWidth(g, wide), false);
      }
    }

    /** A horizontal tab: spaces up to the next tab stop (see `TabStop`),
        where the cursor goes; at the right margin nothing happens. */
    method TabForward()
      requires Valid()
      modifies this, Page()
      ensures Valid()
      ensures State() == Tabbed(old(State()))
    {
      ghost var t := State();
      var s := Page();
      var moves := s.cursorCol < s.width;
      s.Tab(tabWidth, attrs);
      if moves {
        wrapNext := false;
      }
      assert s.Val() == PageTabbed(t.Shown(), t.tabWidth, t.attrs);
      ShownWrapChanged();
    }

    /** `ESC # 8`, the alignment test: a full reset, then every row filled
        with `E` from the cursor column (the first, after the reset) to the
        right margin. */
    method AlignmentTest()
      requires Valid()
      modifies this, Page()
      ensures Valid()
      ensures State() == Aligned(old(State()))
    {
      Reset();
      Page().FillRows(Page().cursorCol, EGlyph, attrs);
      var s := Page();
      forall j | s.scrollback <= j < |s.lines|
        ensures s.lines[j] == Line(seq(s.width, _ => Cell(EGlyph, ZeroAttr)), true)
      {
        assert |s.lines[j].cells| == s.width;
      }
    }

    /** `ESC 8`: restores the saved cursor and attributes; with nothing
        saved, homes the cursor and clears the attributes. */
    method RestoreOrHome()
      requires Valid()
      modifies this, Page()
      ensures Valid()
      ensures State() == RestoredOrHomed(old(State()))
    {
      if Page().cursorSaved {
        RestoreCursor();
      } else {
        SetCursor(1, 1);
        attrs := ZeroAttr;
      }
    }

    // ------------------------------------------------------------ modes

    /** `CSI args m`: applies the rendition codes in order (no codes means
        0). An unknown code ends the command; the codes before it keep
        their effect. */
    method SelectRendition(args: seq<int>)
      requires Valid()
      modifies this
      ensures Valid()
      ensures State() == RenditionSelected(old(State()), args)
    {
      var rest := SgrArgs(args);
      while rest != []
        invariant Sgr(rest, attrs) == Sgr(SgrArgs(args), old(attrs))
        invariant Modes() == old(Modes()).(1 := attrs) && wrapNext == old(wrapNext)
        decreases |rest|
      {
        var code := rest[0];
        rest := rest[1..];
        if ExtendedCode(code) {
          if rest == [] {
            break;
          }
          var which := rest[0];
          rest := rest[1..];
          if which == 2 {
            if |rest| < 3 {
              break;
            }
            attrs := Extended(attrs, code == 38, KindRgb, Rgb(rest[0], rest[1], rest[2]));
            rest := rest[3..];
          } else if which == 5 {
            if rest == [] {
              break;
            }
            attrs := Extended(attrs, code == 38, Kind256, Color.Index(rest[0]));
            rest := rest[1..];
          }
        } else if SimpleCode(code) {
          attrs := Simple(code, attrs);
        } else {
          break;
        }
      }
    }

    /** `CSI ? 1049 h` switches to the alternate page, homes its cursor,
        clears it and redraws it; `CSI ? 1049 l` switches back to the main
        page and redraws it. */
    method SwitchPage(on: bool)
      requires Valid()
      modifies this, main, alt
      ensures Valid()
      ensures State() == PageSwitched(old(State()), on)
    {
      if on {
        altActive := true;
        SetCursor(1, 1);
        ClearPage();
        alt.MakeDirty();
      } else {
        altActive := false;
        main.MakeDirty();
      }
    }

    /** `CSI ? n h` (`on`) and `CSI ? n l`, `n` 1 when missing: mode 1 is
        application cursor keys, 3 a full reset either way, 7 auto-wrap,
        1049 the alternate page (see `SwitchPage`); any other mode (cursor
        blinking and visibility among them) is ignored. */
    method SetPrivateMode(args: seq<int>, on: bool)
      requires Valid()
      modifies this, main, alt
      ensures Valid()
      ensures State() == PrivateModeSet(old(State()), args, on)
    {
      var m := Arg(args, 1);
      if m == 1 {
        appKeys := on;
      } else if m == 3 {
        Reset();
      } else if m == 7 {
        autoWrap := on;
      } else if m == 1049 {
        SwitchPage(on);
      }
    }

    /** `CSI ! p`, the soft reset: the page on display cleared (see
        `ClearForSoftReset`), then application keys off and the main page
        shown and redrawn. Auto-wrap is left alone. */
    method SoftReset()
      requires Valid()
      modifies this, main, alt
      ensures Valid()
      ensures State() == SoftResetDone(old(State()))
    {
      SoftResetSteps(State());
      ClearForSoftReset();
      SetAppKeys(false);
      SwitchPage(false);
    }

    /** The attributes of the next glyphs written. */
    method SetAttrs(a: Attrs)
      requires Valid()
      modifies this
      ensures Valid()
      ensures State() == old(State()).(attrs := a)
    {
      attrs := a;
    }

    /** Application cursor keys on or off. */
    method SetAppKeys(on: bool)
      requires Valid()
      modifies this
      ensures Valid()
      ensures State() == old(State()).(appKeys := on)
    {
      appKeys := on;
    }

    /** The first half of the soft reset: attributes cleared, cursor home,
        region unset and every row of the page on display blank. */
    method ClearForSoftReset()
      requires Valid()
      modifies this, Page()
      ensures Valid()
      ensures State() == PageCleared(ScrollSet(CursorSet(old(State()).(attrs := ZeroAttr), 1, 1), 0, 0))
    {
      SetAttrs(ZeroAttr);
      SetCursor(1, 1);
      SetScroll(0, 0);
      ClearPage();
    }

    /** `CSI top ; bottom r`: homes the cursor, then sets the scrolling
        region: no arguments unset it, one sets its top, two set both
        unless the bottom is above the top; bounds are fitted into
        `0..height`. More arguments leave it alone. */
    method SetRegion(args: seq<int>)
      requires Valid()
      modifies this, Page()
      ensures Valid()
      ensures State() == RegionSet(old(State()), args)
    {
      RegionSteps(State(), args);
      SetCursor(1, 1);
      if |args| == 0 {
        SetScroll(0, 0);
      } else if |args| == 1 {
        SetScroll(args[0], 0);
      } else if |args| == 2 && args[1] >= args[0] {
        SetScroll(args[0], args[1]);
      }
    }

    // ------------------------------------------------ control sequences

    /** A control sequence without a mode marker. Counts default to 1;
        cursor moves cancel a pending wrap; `c` and `n` answer the
        shell; the rest is delegated as named. */
    method ExecuteCommand(command: char, args: seq<int>)
      requires Valid()
      modifies this, main, alt
      ensures Valid()
      ensures State() == CommandDone(old(State()), command, args)
    {
      if command == 'c' {
        output := output + PrimaryAttributes;
      } else if command == 'n' {
        output := output + DsrReply(Arg(args, 0), Page().cursorRow, Page().cursorCol);
      } else if command in "ABCDEFdfHG" {
        CursorCommand(command, args);
      } else {
        EditCommand(command, args);
      }
    }

    /** The commands that change the page or the modes without answering:
        insert and delete blanks, lines and characters, erase, select the
        rendition, set the scrolling region, scroll. */
    method EditCommand(command: char, args: seq<int>)
      requires Valid()
      modifies this, main, alt
      ensures Valid()
      ensures State() == Edited(old(State()), command, args)
    {
      var n := Arg(args, 1);
      if command == '@' {
        InsertBlanks(n);
      } else if command == 'J' {
        EraseInDisplay(args);
      } else if command == 'K' {
        EraseInLine(args);
      } else if command == 'L' {
        InsertLines(n);
      } else if command == 'M' {
        DeleteLines(n);
      } else if command == 'P' {
        DeleteChars(n);
      } else if command == 'm' {
        SelectRendition(args);
      } else if command == 'r' {
        SetRegion(args);
      } else if command == 'S' {
        ScrollUpTimes(n);
      } else if command == 'T' {
        ScrollDownTimes(n);
      } else if command == 'X' {
        EraseChars(n);
      }
    }

    /** The commands that only move the cursor (see `CursorMoved`): the
        moves relative to the cursor, `A` to `F`, and the moves to a
        given row, position or column. */
    method CursorCommand(command: char, args: seq<int>)
      requires Valid() && command in "ABCDEFdfHG"
      modifies this, main, alt
      ensures Valid()
      ensures State() == CursorMoved(old(State()), command, args)
    {
      if command == 'A' || command == 'B' || command == 'C' || command == 'D' {
        RelativeMove(command, args);
      } else if command == 'E' || command == 'F' {
        LineMove(command, args);
      } else if command == 'f' || command == 'H' {
        PositionMove(command, args);
      } else {
        AbsoluteMove(command, args);
      }
    }

    /** Up, down, forward and back by a count that defaults to 1. */
    method RelativeMove(command: char, args: seq<int>)
      requires Valid() && (command == 'A' || command == 'B' || command == 'C' || command == 'D')
      modifies this, main, alt
      ensures Valid()
      ensures State() == CursorMoved(old(State()), command, args)
    {
      var n := Arg(args, 1);
      if command == 'A' {
        MoveCursor(-n, 0, true);
      } else if command == 'B' {
        MoveCursor(n, 0, true);
      } else if command == 'C' {
        MoveCursor(0, n, true);
      } else {
        MoveCursor(0, -n, true);
      }
    }

    /** To the start of the next (`E`) or previous (`F`) line, a count
        that defaults to 1 away: a move up or down, then a carriage
        return. */
    method LineMove(command: char, args: seq<int>)
      requires Valid() && (command == 'E' || command == 'F')
      modifies this, main, alt
      ensures Valid()
      ensures State() == CursorMoved(old(State()), command, args)
    {
      var n := Arg(args, 1);
      MoveCursor(if command == 'E' then n else -n, 0, true);
      SetCursor(Page().cursorRow, 1);
    }

    /** To a row (`d`) or to a column (`G`), fitted to the page. */
    method AbsoluteMove(command: char, args: seq<int>)
      requires Valid() && (command == 'd' || command == 'G')
      modifies this, main, alt
      ensures Valid()
      ensures State() == CursorMoved(old(State()), command, args)
    {
      var n := Arg(args, 1);
      if command == 'd' {
        SetCursor(n, Page().cursorCol);
      } else {
        SetCursor(Page().cursorRow, n);
      }
    }

    /** To a position (`f`, `H`), fitted to the page: home without
        arguments, column 1 with one; more than two arguments are
        ignored. */
    method PositionMove(command: char, args: seq<int>)
      requires Valid() && (command == 'f' || command == 'H')
      modifies this, main, alt
      ensures Valid()
      ensures State() == CursorMoved(old(State()), command, args)
    {
      if |args| == 0 {
        SetCursor(1, 1);
      } else if |args| == 1 {
        SetCursor(args[0], 1);
      } else if |args| == 2 {
        SetCursor(args[0], args[1]);
      }
    }

    /** A complete control sequence, dispatched on its mode and command;
        commands outside `Acts` change nothing. */
    method ExecuteCsi(csi: CsiSeq)
      requires Valid()
      modifies this, main, alt
      ensures Valid()
      ensures State() == CsiDone(old(State()), csi)
    {
      if csi.mode == MODE_NONE {
        ExecuteCommand(csi.command, csi.args);
      } else if csi.mode == MODE_PRIV {
        if csi.command == 'h' {
          SetPrivateMode(csi.args, true);
        } else if csi.command == 'l' {
          SetPrivateMode(csi.args, false);
        }
      } else if csi.mode == MODE_XTERM {
        if csi.command == 'c' {
          output := output + SecondaryAttributes;
        }
      } else if csi.mode == MODE_RESET {
        if csi.command == 'p' {
          SoftReset();
        }
      }
    }

    /** An operating-system command: 0 sets the title to the argument (its
        leading `;` included); a colour query 4, 10 or 11 is answered with
        white; anything else is ignored. */
    method ExecuteOsc(osc: OscSeq)
      requires Valid()
      modifies this
      ensures Valid()
      ensures State() == OscDone(old(State()), osc)
    {
      if osc.command == 0 {
        title := osc.arg;
      } else if osc.command in {4, 10, 11} && ColorQuery(osc.arg) {
        output := output + ColorReply(osc.command);
      }
    }

    // ------------------------------------------------------------ updates

    /** Applies one decoded command. */
    method Apply(ev: Event)
      requires Valid()
      modifies this, main, alt
      ensures Valid()
      ensures State() == Applied(old(State()), ev)
    {
      match ev
      case CsiEvent(csi) => ExecuteCsi(csi);
      case OscEvent(osc) => ExecuteOsc(osc);
      case Put(g) => WriteGlyph(g);
      case Align | Save | Restore | Index | NextLine | ReverseIndex => ExecuteEscape(ev);
      case CarriageReturn | Backspace | LineFeed | Tab => ExecuteControl(ev);
    }

    /** The escape sequences of a single letter after `ESC`. */
    method ExecuteEscape(ev: Event)
      requires Valid() && (ev.Align? || ev.Save? || ev.Restore? || ev.Index? || ev.NextLine? || ev.ReverseIndex?)
      modifies this, main, alt
      ensures Valid()
      ensures State() == Applied(old(State()), ev)
    {
      match ev
      case Align => AlignmentTest();
      case Save => SaveCursor();
      case Restore => RestoreOrHome();
      case Index => IndexLine();
      case NextLine => NextLineStart();
      case ReverseIndex => ReverseIndexLine();
    }

    /** The control characters: carriage return, backspace (which cancels
        a pending wrap), line feed and tab. */
    method ExecuteControl(ev: Event)
      requires Valid() && (ev.CarriageReturn? || ev.Backspace? || ev.LineFeed? || ev.Tab?)
      modifies this, Page()
      ensures Valid()
      ensures State() == Applied(old(State()), ev)
    {
      ghost var t := State();
      match ev
      case CarriageReturn =>
        assert Applied(t, ev) == CursorSet(t, Page().cursorRow, 1);
        SetCursor(Page().cursorRow, 1);
      case Backspace =>
        assert Applied(t, ev) == Moved(t, 0, -1, true);
        MoveCursor(0, -1, true);
      case LineFeed =>
        assert Applied(t, ev) == Indexed(t);
        IndexLine();
      case Tab =>
        assert Applied(t, ev) == Tabbed(t);
        TabForward();
    }

    /** One update. Right after a resize it is skipped (once). Otherwise
        the bytes read since the last update are decoded together with
        what the last chunk left over, every command is applied in order,
        and the dirty lines of the page on display are written to the
        editor buffer: each write holds the rendering of its row as it now
        stands, rows in increasing order, and no line is left dirty. */
    method Update() returns (writes: seq<(nat, seq<Glyph>)>)
      requires Valid()
      modifies this, main, alt
      ensures Valid()
      ensures (State(), writes) == Updated(old(State()))
    {
      if delayUpdate {
        delayUpdate := false;
        writes := [];
        return;
      }
      var events := TakeInbox();
      ApplyAll(events);
      writes := Flush();
    }

    /** Decodes the bytes received after what the last chunk left over,
        keeps what this chunk leaves over and empties the queue. */
    method TakeInbox() returns (events: seq<Event>)
      requires Valid()
      modifies this
      ensures Valid()
      ensures var d := Decode(old(carry), old(inbox));
        events == d.events && State() == old(State()).(inbox := [], carry := d.carry)
    {
      var d := Decode(carry, inbox);
      inbox := [];
      carry := d.carry;
      events := d.events;
    }

    /** Applies decoded commands in order. */
    method ApplyAll(events: seq<Event>)
      requires Valid()
      modifies this, main, alt
      ensures Valid()
      ensures State() == Replayed(old(State()), events)
    {
      assert events[0..] == events;
      for k := 0 to |events|
        invariant Valid()
        invariant Replayed(State(), events[k..]) == Replayed(old(State()), events)
      {
        ghost var before := State();
        assert events[k..][0] == events[k] && events[k..][1..] == events[k + 1..];
        assert Replayed(before, events[k..]) == Replayed(Applied(before, events[k]), events[k + 1..]);
        Apply(events[k]);
      }
    }

    /** Writes the dirty lines of the page on display to the editor buffer
        and marks them clean: each write holds the rendering of its row,
        rows in increasing order. */
    method Flush() returns (writes: seq<(nat, seq<Glyph>)>)
      requires Valid()
      modifies Page()
      ensures Valid()
      ensures (State(), writes) == Flushed(old(State()))
    {
      writes := Page().WriteToBuffer();
      ShownChanged();
    }

    /** Bytes read from the shell, queued for the next update. */
    method Receive(data: seq<byte>)
      modifies this
      ensures State() == old(State()).(inbox := old(inbox) + data)
    {
      inbox := inbox + data;
    }

    // ------------------------------------------------------------ input

    /** Sends the keys the user pressed, in order. */
    method SendKeys(ks: seq<Key>)
      modifies this
      ensures State() == old(State()).(output := old(output) + KeysBytes(ks, old(appKeys)))
    {
      var sent := Encode(ks, appKeys);
      output := output + sent;
    }

    /** Sends pasted text between the bracketed-paste markers. */
    method Paste(text: seq<byte>)
      modifies this
      ensures State() == old(State()).(output := old(output) + PasteBytes(text))
    {
      output := output + PasteBytes(text);
    }
  }
}
