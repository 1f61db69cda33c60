/** Properties of the terminal as a value that relate several commands or
    a whole update: what a command writes back to the shell, how
    commands compose, which commands leave the cursor alone, and what a
    complete update does with a given chunk of shell output. */
module Replay {
  import opened Bytes
  import opened Lexers
  import opened Rendition
  import opened Lines
  import opened Screens
  import opened Decoder
  import opened Effects

  // ------------------------------------------------------ helpers on values

  /** Where replacing the lines of the page on display leaves the page. */
  lemma LinesSetShown(t: TermState, ls: seq<Line>)
    ensures LinesSet(t, ls).Shown() == t.Shown().(lines := ls)
    ensures LinesSet(t, ls) == t.WithShown(t.Shown().(lines := ls))
  {
    if t.altActive {
      assert LinesSet(t, ls).alt == LinesSet(t, ls).Shown();
    } else {
      assert LinesSet(t, ls).main == LinesSet(t, ls).Shown();
    }
  }

  /** The page on display, replaced, is the replacement; nothing but that
      page changes. */
  lemma WithShownShown(t: TermState, p: PageState)
    ensures t.WithShown(p).Shown() == p
    ensures t.WithShown(p).altActive == t.altActive && t.WithShown(p).output == t.output
    ensures t.WithShown(p).title == t.title && t.WithShown(p).attrs == t.attrs
    ensures t.WithShown(p).carry == t.carry && t.WithShown(p).inbox == t.inbox
  {
    if t.altActive {
      assert t.WithShown(p) == t.(alt := p);
    } else {
      assert t.WithShown(p) == t.(main := p);
    }
  }

  // ------------------------------------------------------ answers

  /** The one thing a command does to what has been written to the shell:
      it appends its `Answer`, computed at the cursor it finds. */
  lemma AppliedAnswers(t: TermState, ev: Event)
    requires t.Ok()
    ensures var p := t.Shown();
      p.cursor.0 >= 1 && p.cursor.1 >= 1
      && Applied(t, ev).output == t.output + Answer(ev, p.cursor.0, p.cursor.1)
  {
    assert t.Shown().Ok();
    if ev.CsiEvent? {
      CsiAnswers(t, ev.csi);
    } else if ev.Put? {
      GlyphKeepsOutput(t, ev.glyph);
    } else if !ev.OscEvent? {
      KeepsOutput(t, ev);
    }
  }

  /** A control sequence's answer. */
  lemma CsiAnswers(t: TermState, csi: CsiSeq)
    requires t.Ok()
    ensures var p := t.Shown();
      p.cursor.0 >= 1 && p.cursor.1 >= 1
      && CsiDone(t, csi).output == t.output + CsiReply(csi.mode, csi.command, csi.args, p.cursor.0, p.cursor.1)
  {
    var p := t.Shown();
    assert p.Ok();
    if csi.mode == MODE_NONE {
      CommandAnswers(t, csi.command, csi.args);
    } else if csi.mode == MODE_PRIV && (csi.command == 'h' || csi.command == 'l') {
      PrivateModeKeepsOutput(t, csi.args, csi.command == 'h');
    } else if csi.mode == MODE_RESET && csi.command == 'p' {
      var g := p.geo;
      WithShownShown(t, p.(lines := Filled(p.lines, g.scrollback, |p.lines|, BlankLine(g.width, ZeroAttr)),
                           geo := g.(scrollT := 0, scrollB := 0), cursor := (1, 1)));
    }
  }

  /** The answer of a control sequence without a mode marker. */
  lemma CommandAnswers(t: TermState, command: char, args: seq<int>)
    requires t.Ok()
    ensures var p := t.Shown();
      CommandDone(t, command, args).output == t.output + CsiReply(MODE_NONE, command, args, p.cursor.0, p.cursor.1)
  {
    if command == 'c' || command == 'n' {
    } else if command in "ABCDEFdfHG" {
      CursorMovedKeepsOutput(t, command, args);
    } else {
      EditedKeepsOutput(t, command, args);
    }
  }

  /** Setting or resetting a private mode writes nothing to the shell. */
  lemma PrivateModeKeepsOutput(t: TermState, args: seq<int>, on: bool)
    requires t.Ok()
    ensures PrivateModeSet(t, args, on).output == t.output
  {
    if Arg(args, 1) == 3 {
      var p := t.Shown();
      var g := p.geo;
      WithShownShown(t, p.(lines := Filled(p.lines, g.scrollback, |p.lines|, BlankLine(g.width, ZeroAttr)),
                           geo := g.(scrollT := 0, scrollB := 0), cursor := (1, 1)));
    }
  }

  /** A change of the cursor alone writes nothing to the shell. */
  lemma CursorOnlyKeepsOutput(t: TermState, r: TermState)
    requires CursorOnly(t, r)
    ensures r.output == t.output
  {
    WithShownShown(t, t.Shown().(cursor := r.Shown().cursor));
  }

  /** The cursor commands write nothing to the shell. */
  lemma CursorMovedKeepsOutput(t: TermState, command: char, args: seq<int>)
    requires t.Ok() && command in "ABCDEFdfHG"
    ensures CursorMoved(t, command, args).output == t.output
  {
    var r := CursorMoved(t, command, args);
    if command == 'A' || command == 'B' {
      VerticalTargets(t, command, args);
    } else if command == 'C' || command == 'D' {
      HorizontalTargets(t, command, args);
    } else if command == 'E' || command == 'F' {
      LineTargets(t, command, args);
    } else if command == 'd' || command == 'G' {
      AbsoluteTargets(t, command, args);
    } else {
      PositionTargets(t, command, args);
      if |args| > 2 {
        return;
      }
    }
    CursorOnlyKeepsOutput(t, r);
  }

  /** Nor do the editing commands; and they leave the cursor where it
      is, except that setting the region sends it home. */
  lemma EditedKeepsOutput(t: TermState, command: char, args: seq<int>)
    requires t.Ok()
    ensures Edited(t, command, args).output == t.output
    ensures Edited(t, command, args).Shown().cursor == if command == 'r' then (1, 1) else t.Shown().cursor
    ensures Edited(t, command, args).altActive == t.altActive
  {
    if command in "@KPX" {
      RowEditKeeps(t, command, args);
    } else if command in "JLMST" {
      PageEditKeeps(t, command, args);
    } else if command == 'r' {
      WithShownShown(t, RegionSet(t, args).Shown());
    }
  }

  /** The edits of the cursor row keep the output and the cursor. */
  lemma RowEditKeeps(t: TermState, command: char, args: seq<int>)
    requires t.Ok() && command in "@KPX"
    ensures var r := Edited(t, command, args);
      r.output == t.output && r.Shown().cursor == t.Shown().cursor && r.altActive == t.altActive
  {
    var p := t.Shown();
    var n := Arg(args, 1);
    var l := CursorRow(t);
    if command == '@' {
      RowSetKeeps(t, l.(cells := InsertTimes(l.cells, p.cursor.1, Cell(SpaceGlyph, ZeroAttr), Count(n))));
    } else if command == 'K' {
      RowSetKeeps(t, LineErased(l, Arg(args, 0), p.cursor.1, p.geo.width, t.attrs));
    } else if command == 'P' {
      RowSetKeeps(t, Line(DeleteTimes(l.cells, p.cursor.1, BlankCell(t.attrs), Count(n)), l.dirty || n > 0));
    } else {
      RowSetKeeps(t, Line(Filled(l.cells, p.cursor.1 - 1, Min(p.cursor.1 - 1 + Count(n), p.geo.width), BlankCell(t.attrs)), l.dirty || n > 0));
    }
  }

  /** Replacing the cursor row keeps the output and the cursor. */
  lemma RowSetKeeps(t: TermState, l: Line)
    requires t.Ok()
    ensures var r := RowSet(t, l);
      r.output == t.output && r.Shown().cursor == t.Shown().cursor && r.altActive == t.altActive
  {
    var p := t.Shown();
    LinesSetKeeps(t, p.lines[p.CursorLine() := l]);
  }

  /** So do the edits of the whole page. */
  lemma PageEditKeeps(t: TermState, command: char, args: seq<int>)
    requires t.Ok() && command in "JLMST"
    ensures var r := Edited(t, command, args);
      r.output == t.output && r.Shown().cursor == t.Shown().cursor && r.altActive == t.altActive
  {
    var p := t.Shown();
    var n := Arg(args, 1);
    var g := p.geo;
    if command == 'J' {
      LinesSetKeeps(t, DisplayErased(p.lines, g.scrollback, g.width, g.height, p.cursor.0, p.cursor.1, Arg(args, 0), t.attrs));
    } else if command == 'L' {
      LinesSetKeeps(t, LinesInserted(p.lines, g, p.cursor.0, t.attrs, Count(n)));
    } else if command == 'M' {
      LinesSetKeeps(t, LinesDeleted(p.lines, g, p.cursor.0, t.attrs, Count(n)));
    } else if command == 'S' {
      LinesSetKeeps(t, ScrolledUpTimes(p.lines, g, t.attrs, Count(n)));
    } else {
      LinesSetKeeps(t, ScrolledDownTimes(p.lines, g, t.attrs, Count(n)));
    }
  }

  /** Replacing the lines on display writes nothing to the shell and
      keeps the cursor and the page shown. */
  lemma LinesSetKeeps(t: TermState, ls: seq<Line>)
    ensures var r := LinesSet(t, ls);
      r.output == t.output && r.Shown().cursor == t.Shown().cursor && r.altActive == t.altActive
  {
    LinesSetShown(t, ls);
    WithShownShown(t, t.Shown().(lines := ls));
  }

  /** Writing a glyph writes nothing to the shell. */
  lemma GlyphKeepsOutput(t: TermState, g: Glyph)
    requires t.Ok()
    ensures GlyphWritten(t, g).output == t.output
  {
    var w := WrapCarried(t);
    assert w.output == t.output;
    GlyphPlacedMeaning(w, g);
  }

  /** Nor do the escape sequences and the control characters. */
  lemma KeepsOutput(t: TermState, ev: Event)
    requires t.Ok() && !ev.CsiEvent? && !ev.OscEvent? && !ev.Put?
    ensures Applied(t, ev).output == t.output
  {
    if ev.Align? || ev.Save? || ev.Restore? {
      SavesKeepOutput(t, ev);
    } else {
      MovesKeepOutput(t, ev);
    }
  }

  /** `ESC # 8`, `ESC 7` and `ESC 8` write nothing to the shell. */
  lemma SavesKeepOutput(t: TermState, ev: Event)
    requires t.Ok() && (ev.Align? || ev.Save? || ev.Restore?)
    ensures Applied(t, ev).output == t.output
  {
    var p := t.Shown();
    match ev
    case Align =>
      var r := ResetDone(t);
      var q := r.Shown();
      assert r.output == t.output;
      LinesSetKeeps(r, FilledRows(q.lines, q.geo.scrollback, |q.lines|, 1, q.geo.width, Cell(EGlyph, ZeroAttr)));
    case Save =>
      WithShownShown(t, p.(saved := (p.cursor.0, p.cursor.1, t.attrs, true)));
    case Restore =>
      if p.saved.3 {
        var s := p.saved;
        WithShownShown(t, p.(cursor := (Limit(s.0, 1, p.geo.height), Limit(s.1, 1, p.geo.width)), saved := (s.0, s.1, s.2, false)));
      } else {
        CursorOnlyKeepsOutput(t, CursorSet(t, 1, 1));
      }
  }

  /** The line feeds, the carriage return, the backspace and the tab
      write nothing to the shell. */
  lemma MovesKeepOutput(t: TermState, ev: Event)
    requires t.Ok() && (ev.Index? || ev.NextLine? || ev.ReverseIndex? || ev.CarriageReturn? || ev.Backspace? || ev.LineFeed? || ev.Tab?)
    ensures Applied(t, ev).output == t.output
  {
    var p := t.Shown();
    match ev
    case CarriageReturn => CursorOnlyKeepsOutput(t, CursorSet(t, p.cursor.0, 1));
    case Backspace => CursorOnlyKeepsOutput(t, Moved(t, 0, -1, true));
    case _ =>
  }

  /** Replaying commands only ever appends to what was written to the
      shell: the bytes written before stay a prefix. */
  lemma {:induction false} ReplayedOutput(t: TermState, evs: seq<Event>)
    ensures var r := Replayed(t, evs);
      |t.output| <= |r.output| && r.output[..|t.output|] == t.output
    decreases |evs|
  {
    if evs != [] && t.Ok() {
      var u := Applied(t, evs[0]);
      AppliedAnswers(t, evs[0]);
      ReplayedOutput(u, evs[1..]);
      assert u.output[..|t.output|] == t.output;
    }
  }

  // ------------------------------------------------------ composition

  /** Commands replayed in two runs, one after the other, have the effect
      of the whole run: how the shell's output is cut into chunks does not
      matter once the commands are decoded. */
  lemma {:induction false} ReplayedConcat(t: TermState, a: seq<Event>, b: seq<Event>)
    ensures Replayed(t, a + b) == Replayed(Replayed(t, a), b)
    decreases |a|
  {
    if a == [] {
      assert a + b == b;
    } else if t.Ok() {
      assert (a + b)[0] == a[0];
      assert (a + b)[1..] == a[1..] + b;
      ReplayedConcat(Applied(t, a[0]), a[1..], b);
    } else {
      assert Replayed(t, a) == t;
    }
  }

  // ------------------------------------------------------ cursor and pages

  /** `ESC 7` then `ESC 8` give back the cursor and the attributes, with
      the page's lines untouched; the save is used up. */
  lemma SaveRestore(t: TermState)
    requires t.Ok()
    ensures var r := RestoredOrHomed(CursorSaved(t));
      && r.Shown().cursor == t.Shown().cursor && r.attrs == t.attrs
      && r.Shown().lines == t.Shown().lines && r.Shown().geo == t.Shown().geo
      && !r.Shown().saved.3 && r.altActive == t.altActive
  {
    var p := t.Shown();
    assert p.Ok();
    var s := CursorSaved(t);
    WithShownShown(t, p.(saved := (p.cursor.0, p.cursor.1, t.attrs, true)));
    var q := s.Shown();
    var c := (Limit(q.saved.0, 1, q.geo.height), Limit(q.saved.1, 1, q.geo.width));
    assert c == p.cursor;
    WithShownShown(s, q.(cursor := c, saved := (q.saved.0, q.saved.1, q.saved.2, false)));
  }

  /** Switching to the alternate page and back shows the main page as it
      was, every line marked for redrawing; the alternate page is left
      blank with its cursor home. */
  lemma SwitchBack(t: TermState)
    requires t.Ok()
    ensures var r := PageSwitched(PageSwitched(t, true), false);
      && !r.altActive
      && r.main == t.main.(lines := MarkDirty(t.main.lines, 0, |t.main.lines|))
      && r.alt.cursor == (1, 1) && r.alt.geo == t.alt.geo
      && (forall j :: t.alt.geo.scrollback <= j < |r.alt.lines| ==> r.alt.lines[j].cells == BlankLine(t.alt.geo.width, t.attrs).cells)
  {
    var a := t.alt;
    var blank := Filled(a.lines, a.geo.scrollback, |a.lines|, BlankLine(a.geo.width, t.attrs));
    assert forall j :: a.geo.scrollback <= j < |a.lines| ==> blank[j] == BlankLine(a.geo.width, t.attrs);
  }

  // ------------------------------------------------------ whole updates

  /** An update not skipped replays what the chunk decodes to and
      flushes. */
  lemma UpdatedReplays(t: TermState, evs: seq<Event>, c: Carry)
    requires !t.delayUpdate && Decode(t.carry, t.inbox) == Decoded(evs, c)
    ensures Updated(t) == Flushed(Replayed(t.(inbox := [], carry := c), evs))
  {
  }

  /** A flush keeps the cursor, the size, the output, the decoding state
      and the terminal well formed. */
  lemma FlushedKeeps(m: TermState)
    ensures var r := Flushed(m).0;
      && r.Shown().cursor == m.Shown().cursor && r.Shown().geo == m.Shown().geo
      && r.output == m.output && r.carry == m.carry && r.inbox == m.inbox
      && r.delayUpdate == m.delayUpdate
      && (m.Ok() ==> r.Ok())
  {
    var q := m.Shown();
    LinesSetShown(m, Cleaned(q.lines));
    WithShownShown(m, q.(lines := Cleaned(q.lines)));
    CleanedSound(q.lines);
  }

  /** The command `ESC [ 1 ; 2 H` decodes to, replayed alone: the cursor
      placed at row 1, column 2. */
  lemma CursorTo12Replayed(u: TermState)
    requires u.Ok()
    ensures Replayed(u, [CsiEvent(CursorTo12Csi)]) == CursorSet(u, 1, 2)
  {
    var m := CursorSet(u, 1, 2);
    PositionSteps(u, 'H', [1, 2]);
    assert Applied(u, CsiEvent(CursorTo12Csi)) == m;
    assert Replayed(m, []) == m;
  }

  /** The cursor placed at row 1, column 2 and the page flushed. */
  lemma CursorTo12Flushed(u: TermState)
    requires u.Ok()
    ensures var r := Flushed(CursorSet(u, 1, 2)).0;
      && r.Shown().cursor == (1, Limit(2, 1, u.Shown().geo.width))
      && r.output == u.output && r.carry == u.carry && r.inbox == u.inbox
  {
    var m := CursorSet(u, 1, 2);
    CursorSetShown(u, 1, 2);
    CursorOnlyKeepsOutput(u, m);
    WithShownShown(u, m.Shown());
    FlushedKeeps(m);
  }

  /** An update whose chunk is `ESC [ 1 ; 2 H` puts the cursor on row 1,
      column 2 (the last column on a one-column page), writes nothing to
      the shell, and leaves nothing over for the next chunk. */
  lemma UpdateCursorTo12(t: TermState)
    requires t.Ok() && !t.delayUpdate && t.carry == NoCarry && t.inbox == CursorTo12
    ensures var r := Updated(t).0;
      && r.Shown().cursor == (1, Limit(2, 1, t.Shown().geo.width))
      && r.output == t.output && r.carry == NoCarry && r.inbox == []
  {
    CursorTo12Split(1);
    UpdatedReplays(t, [CsiEvent(CursorTo12Csi)], NoCarry);
    var u := t.(inbox := [], carry := NoCarry);
    assert u.Shown() == t.Shown() && u.Ok();
    CursorTo12Replayed(u);
    CursorTo12Flushed(u);
  }

  /** The same sequence cut in two and received by two updates: the first
      update changes nothing on the page but its redraw marks and carries
      the unfinished sequence; the second ends where one update of the
      whole sequence ends. */
  lemma UpdateCursorTo12InTwo(t: TermState, k: nat)
    requires t.Ok() && !t.delayUpdate && t.carry == NoCarry && 1 <= k < |CursorTo12|
    requires t.inbox == CursorTo12[..k]
    ensures var r1 := Updated(t).0;
      && r1.Shown().cursor == t.Shown().cursor && r1.output == t.output
      && r1.carry == SplitCarry(CursorTo12, k) && r1.inbox == []
    ensures var r2 := Updated(Updated(t).0.(inbox := CursorTo12[k..])).0;
      && r2.Shown().cursor == (1, Limit(2, 1, t.Shown().geo.width))
      && r2.output == t.output && r2.carry == NoCarry && r2.inbox == []
  {
    CursorTo12Split(k);
    var c := SplitCarry(CursorTo12, k);
    UpdatedReplays(t, [], c);
    var u := t.(inbox := [], carry := c);
    assert u.Shown() == t.Shown() && u.Ok();
    assert Replayed(u, []) == u;
    FlushedKeeps(u);
    var r1 := Updated(t).0;
    var t2 := r1.(inbox := CursorTo12[k..]);
    assert t2.Shown() == r1.Shown() && t2.Ok();
    UpdatedReplays(t2, [CsiEvent(CursorTo12Csi)], NoCarry);
    var u2 := t2.(inbox := [], carry := NoCarry);
    assert u2.Shown() == t2.Shown() && u2.Ok();
    CursorTo12Replayed(u2);
    CursorTo12Flushed(u2);
  }
}
