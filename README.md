# yed-terminal: the VT100/xterm emulation core, modelled in Dafny

yed-terminal is a terminal emulator plugin for the yed editor. A shell runs
on a pseudo-terminal. Its output is decoded into control sequences and
glyphs. Their effects land on a page of cells: the main page, or the
alternate page that full-screen programs switch to. Lines that changed are
written to an editor buffer.

This project models that core after `terminal.cpp`. Where the code does
not do what it evidently means to, a member named `...AsWritten` (or one
stating the misbehaviour) models the code as it stands, and a corrected
definition, which the rest of the model uses, states the intended
behaviour. The row of every member whose statement rests on a corrected
definition, directly or through the functions it is proved equal to, and
which the code as written would not bear out for every input it covers,
begins "(corrected, see Findings)"; "## Findings" lists each case.

- `bytes.dfy` (`Bytes`): bytes, ASCII digits and the decimal numbers the
  emulator prints.
- `lexers.dfy` (`Lexers`): the three escape-sequence lexers, for control
  sequences (CSI), operating-system commands (OSC) and device control
  strings (DCS). They run over a NUL-terminated window.
- `rendition.dfy` (`Rendition`): cell attributes and the SGR codes of
  `CSI ... m`.
- `lines.dfy` (`Lines`): cells and lines, and the value-level edits the
  page makes on them. This covers inserting and deleting cells, writing a
  glyph, rotating a line through the deque, evicting lines on a shrink,
  widening, and trimming and rendering a line for the buffer.
- `screen.dfy` (`Screens`): the `Screen` class. It holds the lines, the
  size, the cursor, the saved cursor and the scrolling region. Its methods
  change these in place. Each method is proved against a specification
  function on the old state.
- `decoder.dfy` (`Decoder`): one update's decoding of a chunk of shell
  output into commands. It covers the leftovers carried from one chunk to
  the next (a trailing ESC, an unfinished escape sequence, the first bytes
  of a UTF-8 glyph) and the countdown that skips the bytes of a sequence
  already executed.
- `keys.dfy` (`Keys`): the bytes that keys and bracketed pastes send to
  the shell.
- `effects.dfy` (`Effects`): the whole terminal as a value (`TermState`),
  with one function per operation: each command, a run of commands
  (`Replayed`), a flush and an update. It also holds the replies to the
  shell, the line feeds and the erasures.
- `term.dfy` (`Terminal`): the `Term` class with both pages and the modes.
  Each of its methods changes the terminal in place and is proved to leave
  it as the matching `Effects` function of the old state says.
- `replay.dfy` (`Replay`): properties that relate several commands or a
  whole update: what commands write to the shell, running commands in two
  runs, saving and restoring the cursor, switching pages and back, and an
  update of a control sequence received whole or in two chunks.

The buffer, the shell and the pty are outside the model:

- What the emulator writes to the shell is an `output` byte sequence.
- Bytes read from the shell are queued in `inbox`.
- An update returns the buffer writes it makes, each as a 1-based buffer
  row and the glyphs written there.
- A glyph's width comes from a `wide` set of glyphs given to the emulator.
  The editor's tab width is a parameter.

## Model

| member | source | states |
|---|---|---|
| Bytes.Decimal | terminal.cpp:1363-1367 | the digits `std::to_string` prints for a row or column: at least one, all decimal digits, reading back as the number |
| Lexers.LeadEnd | terminal.cpp:198-206 | the leading-delimiter loop stops at the first byte that is not a delimiter; every byte before it is one |
| Lexers.ParamEnd | terminal.cpp:208-223 | the parameter loop stops at the first byte that is neither a digit nor a delimiter; every byte before it is one of those |
| Lexers.CsiScan | terminal.cpp:178-236 | the CSI lexer is complete exactly when the parameter bytes end at a final byte (0x40 to 0x7E); that byte is the command and is counted in `len`. Otherwise there is no command, and a NUL or ESC at the stop is not counted. The mode is the last `!`, `?` or `>` of the leading delimiters. A complete sequence's arguments are a 0 for each leading `;`, then one number per run of digits |
| Lexers.CsiLenBound | terminal.cpp:178-236 | `len` never exceeds the window; a complete sequence's last counted byte is its final byte |
| Lexers.DigitEnd | terminal.cpp:262-266 | the OSC command digits end at the first non-digit |
| Lexers.TextEnd | terminal.cpp:272-279 | the OSC text ends at the first NUL, BEL or ESC |
| Lexers.OscScan | terminal.cpp:245-294 | the OSC lexer reads the command digits. A NUL there leaves it incomplete; any byte other than `;` or BEL ends it incomplete with that byte counted. Otherwise the argument is the text from the `;` up to NUL, BEL or ESC. BEL completes it; ESC completes it only when `\` follows, and `len` counts exactly as the source does |
| Lexers.OscArgKeepsSemicolon | terminal.cpp:270-278 | the argument is empty or starts with the `;` that follows the command, so it is never the one-byte string `?` |
| Lexers.OscLenBound | terminal.cpp:245-294 | an OSC's `len` never exceeds its window |
| Lexers.StringEnd | terminal.cpp:319-331 | the DCS text ends at the first NUL or ESC |
| Lexers.DcsScanSpec | terminal.cpp:302-335 | the DCS lexer captures every byte before the first ESC or NUL. It is complete exactly when that ESC is followed by `\`, and `len` counts the terminator, or only the lone ESC |
| Rendition.Simple | terminal.cpp:1220-1346 | a single-number SGR code keeps attributes well formed, and code 0 clears every flag |
| Rendition.Extended | terminal.cpp:1280-1332 | `38`/`48` with `2;r;g;b` or `5;n` keeps attributes well formed when the colour matches its kind, and clears both light bits |
| Rendition.SgrWellFormed | terminal.cpp:1213-1352 | applying any readable list of codes keeps the attributes well formed: each colour kind matches its colour |
| Rendition.SgrConcat | terminal.cpp:1216-1219 | codes apply one after another: a list is its first part, then the rest applied to the result |
| Rendition.SgrResetForgets | terminal.cpp:1221-1223 | a 0 in the list forgets everything before it |
| Rendition.SgrUnrecognised | terminal.cpp:1347-1350 | an unknown code ends the command; the codes before it keep their effect and those after it are ignored |
| Rendition.SgrSixteen | terminal.cpp:1275-1346 | 30-37 and 90-97 set the same 16-colour index 30+k and differ only in the light bit, and so do 40-47 and 100-107 for the background |
| Rendition.SgrCutShort | terminal.cpp:1280-1332 | a 38 or 48 at the end of the codes whose sub-parameters are missing or cut short stops the processing, the codes before it keeping their effect (the source reads past the argument vector there) |
| Lines.InsertDelete | terminal.cpp:459-475 | inserting a cell puts it at the column and shifts the rest right, dropping the last. Deleting it again gives back the line less its last cell, with the fill cell at the end |
| Lines.DeleteInsert | terminal.cpp:459-475 | deleting a cell and then inserting at the same column overwrites that one cell |
| Lines.InsertTimesShape | terminal.cpp:997-1007 | `n` insertions at a column put `min(n, room)` copies there and push the old cells right, losing the last ones |
| Lines.DeleteTimesShape | terminal.cpp:1131-1136 | `n` deletions at a column close up the cells by `min(n, room)` and append as many fill cells |
| Lines.PutNarrow | terminal.cpp:437-453 | writing a one-column glyph changes its own cell and no other |
| Lines.Rotate | terminal.cpp:424-427 | erasing one line of the deque and inserting a new one at another index keeps the count; the new line takes that index, the lines between the two move one place towards the erased one, and every other line stays |
| Lines.RotateBack | terminal.cpp:535-581 | moving a line out at one index and in at another, then back the other way (as inserting and then deleting a line at a row does), restores every line except the one at the first index, which is the last line inserted |
| Lines.MaxWidth | terminal.cpp:587-592 | the widest line's width and at least the new width: no line is wider, and it is the given width or some line's width |
| Lines.Evict | terminal.cpp:601-611 | shrinking leaves exactly the new number of lines |
| Lines.EvictWindow | terminal.cpp:601-611 | shrinking keeps a window of consecutive lines. Every line cut off below the window starts with an empty cell; the lines above it go to the void |
| Lines.Widen | terminal.cpp:613-619 | widening appends cells and keeps the old cells and the dirty mark; a line already wide enough is unchanged |
| Lines.TrimmedLength | terminal.cpp:650-653 | the trimmed length is followed only by trivial cells (empty glyph, no flags) and ends at a non-trivial one |
| Lines.TrimmedLengthUnique | terminal.cpp:650-653 | that length is the only one with this property |
| Lines.Render | terminal.cpp:650-658 | the glyphs written for a line: as many as the trimmed length, none of them empty, each cell's own glyph where it has one |
| Lines.RenderIgnoresTrivialTail | terminal.cpp:650-658 | trivial cells at the end of a line do not change what is written, so a widened line renders as before |
| Lines.BlanksRendered | terminal.cpp:646-658 | a run of blanks shows nothing when its attributes carry no flag, and one space per cell otherwise |
| Screens.Fit | terminal.cpp:594-611 | setting the number of lines gives exactly that many |
| Screens.TabStop | terminal.cpp:1752-1759 | a tab goes to the next column `c` with `c % tabWidth == 1`, or to the right margin when none comes first. It always moves right unless already at the margin |
| Screens.LineErased | terminal.cpp:1097-1118 | `CSI K` modes 0, 1 and 2 mark the line dirty; any other mode leaves it alone |
| Screens.WidenAll | terminal.cpp:613-619 | every line is at least the new width |
| Screens.Screen.constructor | terminal.cpp:373-388 | a new page has no size yet, the cursor at home and nothing saved |
| Screens.Screen.ScTop | terminal.cpp:434 | the top of the scrolling region is a page row, above the bottom |
| Screens.Screen.ScBottom | terminal.cpp:435 | the bottom of the scrolling region is a page row |
| Screens.Screen.SetCursor | terminal.cpp:397-400 | the cursor goes to the position, clamped into the page; nothing else changes |
| Screens.Screen.MoveCursor | terminal.cpp:402-404 | the cursor moves by the offsets, clamped into the page |
| Screens.Screen.SaveCursor | terminal.cpp:406-411 | the cursor and the current attributes are saved |
| Screens.Screen.RestoreCursorAsWritten | terminal.cpp:413-418 | the emulator's restore: the saved position comes back as it was saved, whatever the page's size now is |
| Screens.Screen.RestoreCursor | terminal.cpp:413-418 | (corrected, see Findings) the restore with the position clamped into the page. A position saved on the current page comes back exactly, and the saved attributes are returned |
| Screens.Screen.MakeDirty | terminal.cpp:420-422 | every line, scroll-back included, is marked dirty |
| Screens.Screen.SetScroll | terminal.cpp:429-432 | both bounds are clamped into `0..height`; the page stays valid exactly when the bottom is unset or not above the top |
| Screens.Screen.Set | terminal.cpp:437-453 | a position right of or below the page changes nothing. Otherwise the glyph takes the cell, the attributes are stamped on the columns it covers up to the margin, and the line is marked dirty |
| Screens.Screen.Insert | terminal.cpp:459-468 | the cell is inserted and the last cell falls off; the line's dirty mark is left as it was |
| Screens.Screen.DelCell | terminal.cpp:470-475 | the cell is removed, a blank enters at the end, and the line is marked dirty |
| Screens.Screen.ClearRow | terminal.cpp:477-485 | the row becomes `width` blank cells and is marked dirty |
| Screens.Screen.ClearRows | terminal.cpp:927-930 | each row in the range is blanked; the other lines are kept |
| Screens.Screen.InsertCells | terminal.cpp:997-1007 | `n` insertions, with the line's dirty mark kept |
| Screens.Screen.DeleteCells | terminal.cpp:1131-1136 | `n` deletions, with the line dirty when any took place |
| Screens.Screen.EraseDisplay | terminal.cpp:1066-1096 | (corrected, see Findings) `CSI J` as the display-erase specification `DisplayErased` states: mode 0 below and from the cursor, mode 1 above and up to the cursor, mode 2 the page, and other modes nothing (mode 1 as intended, see Findings) |
| Screens.Screen.FillCells | terminal.cpp:1426-1431 | `n` cells from the column are cleared up to the margin; columns right of the page are skipped |
| Screens.Screen.FillRows | terminal.cpp:1546-1558 | every page row is filled from the column to the margin |
| Screens.Screen.Tab | terminal.cpp:1752-1759 | the cursor goes to the tab stop and the cells it passes become spaces; at the margin nothing changes |
| Screens.Screen.ScrollUp | terminal.cpp:487-512 | the region scrolls up one line as `ScrolledUp` states. The removed line's storage comes back blank at the bottom and the region is dirty; without a region the oldest scroll-back line is lost |
| Screens.Screen.ScrollDown | terminal.cpp:514-533 | the region scrolls down one line: its bottom line is lost, a blank line enters at its top, and the region is dirty |
| Screens.Screen.InsertLine | terminal.cpp:535-558 | a blank line enters at the row, the region's bottom line is lost, and the region is dirty |
| Screens.Screen.DeleteLine | terminal.cpp:560-581 | the row is removed and a blank line enters at the region's bottom; the region is dirty only when one is set |
| Screens.Screen.InsertLines | terminal.cpp:1119-1124 | `n` line insertions at the row, one after the other |
| Screens.Screen.DeleteLines | terminal.cpp:1125-1130 | `n` line deletions at the row, one after the other |
| Screens.Screen.ScrollUpLines | terminal.cpp:1400-1405 | `n` scrolls up, one after the other |
| Screens.Screen.ScrollDownLines | terminal.cpp:1406-1411 | `n` scrolls down, one after the other |
| Screens.Screen.SetDimensions | terminal.cpp:583-634 | the new size is set and the lines are `Resized`. The region bounds and the cursor are clamped and the saved cursor is kept (see `ResizedGrows`, `ResizedShrinks`, `ResizedWidth`) |
| Screens.Screen.WriteToBuffer | terminal.cpp:636-668 | the writes are those of the dirty lines in order, and every line is marked clean (see `WritesRendered`, `WritesAll`, `WritesCleaned`) |
| Screens.WriteLines | terminal.cpp:641-665 | the loop over the lines produces exactly the writes of the dirty lines and the cleaned lines |
| Screens.ResizeLines | terminal.cpp:587-633 | the step-by-step resize (widest line, fit, widen, dirty marks) computes `Resized` |
| Screens.Widest | terminal.cpp:587-592 | the loop finds the widest line's width, at least the new width |
| Screens.FitLines | terminal.cpp:596-611 | appending blank lines or evicting until the count is right computes `Fit` |
| Screens.WidenLines | terminal.cpp:613-619 | the loop widens every line |
| Screens.MarkLines | terminal.cpp:630-633 | the loop marks exactly the given lines dirty |
| Screens.RenderLine | terminal.cpp:646-658 | trimming from the end, then copying each cell with an empty one as a space, gives `Render` |
| Screens.RenderShown | terminal.cpp:655-658 | a line's rendering is the glyph each cell shows, up to the trimmed length |
| Screens.ResizedWidth | terminal.cpp:583-634 | after a resize every line is at least the new width |
| Screens.ResizedGrows | terminal.cpp:596-619 | when the page grows, every old line stays where it was, its cells a prefix of the possibly widened line; the new lines are blank |
| Screens.ResizedShrinks | terminal.cpp:601-619 | when the page shrinks, a window of consecutive old lines survives in order, each line's cells a prefix of its widened line |
| Screens.WritesSound | terminal.cpp:641-665 | each write names a dirty line by its 1-based row and holds its rendering; the rows increase |
| Screens.WritesComplete | terminal.cpp:641-665 | every dirty line is written |
| Screens.WritesRendered | terminal.cpp:641-665 | against the page as it stands after the write-out, each write holds the rendering of its row, and the rows increase |
| Screens.WritesAll | terminal.cpp:641-665 | every dirty line of the page is written |
| Screens.WritesCleaned | terminal.cpp:662 | once written out, no line is left to write: a second write-out writes nothing |
| Screens.CleanedSound | terminal.cpp:641-665 | writing out and cleaning lines: every line clean with its cells kept, each write to a row of the page holding that row's rendering, rows increasing, every dirty line written |
| Screens.RestoreAfterShrinkAsWritten | terminal.cpp:413-418 | as written, a cursor saved on row 24 comes back on row 24 after the page shrinks to 10 rows, off the page |
| Screens.RestoreAfterShrink | terminal.cpp:413-418 | with the restore clamped, the same cursor comes back on row 10, the last row |
| Screens.ScrolledUpMeaning | terminal.cpp:487-512 | scrolling up moves the lines from the removed one to the region's bottom up a place, blanks the region's bottom, marks every region row for redrawing and keeps every other line |
| Screens.ScrolledDownMeaning | terminal.cpp:514-533 | scrolling down blanks the region's top, moves the region's other lines down a place, losing its bottom line, marks every region row and keeps every other line |
| Screens.LineInsertedMeaning | terminal.cpp:535-558 | inserting a line at a row of the region blanks that row, moves the rows below down a place, losing the region's bottom line, marks every region row and keeps every other line |
| Screens.LineDeletedMeaning | terminal.cpp:560-581 | deleting the line at a row of the region moves the rows below up a place and blanks the region's bottom, keeping every other line; the region rows are marked only when a region is set |
| Decoder.GlyphLen | terminal.cpp:1770 | a glyph is 1 to 4 bytes long, and an ASCII byte is a glyph of its own |
| Decoder.Prepend | terminal.cpp:1493-1506 | only one kind of leftover goes in front of a chunk, in the order ESC, escape sequence, glyph start. The ESC flag is cleared when used; the leftovers not used stay for a later chunk |
| Decoder.Window | terminal.cpp:1770-1777 | `n` bytes of the NUL-terminated window, the chunk's own bytes where it has them |
| Decoder.Saved | terminal.cpp:1589-1596 | an unfinished sequence is saved with its two-byte introducer and the bytes the lexer counted |
| Decoder.EscCarried | terminal.cpp:1508-1511 | what `Chunk` and `Decode` do with a trailing ESC: an ESC ending a chunk begins the next one, so the two chunks decode the bytes they would have decoded together |
| Decoder.DecodeFresh | terminal.cpp:1493-1529 | a chunk not ending in ESC, with nothing carried, is scanned from a fresh start |
| Decoder.ControlsDecoded | terminal.cpp:1730-1765 | each C0 control alone in a chunk decodes to its command: CR a carriage return, BS a backspace, LF, VT and FF a line feed, TAB a tab; BEL and SI to nothing |
| Decoder.EscapesDecoded | terminal.cpp:1546-1692 | `ESC 7`, `ESC 8`, `ESC D`, `ESC E`, `ESC M` and `ESC # 8` alone in a chunk decode to save, restore, index, next line, reverse index and the alignment test |
| Decoder.EscapesIgnored | terminal.cpp:1566-1695 | `ESC =`, `ESC >`, `ESC ( B`, `ESC g` and `ESC \` alone in a chunk decode to nothing |
| Decoder.GlyphWhole | terminal.cpp:1769-1803 | (corrected, see Findings) a multi-byte glyph arriving whole in one chunk is written once |
| Decoder.GlyphStart | terminal.cpp:1769-1777 | (corrected, see Findings) the first bytes of a multi-byte glyph at the end of a chunk write nothing and are carried |
| Decoder.GlyphSplit | terminal.cpp:1769-1777 | (corrected, see Findings) a multi-byte glyph split anywhere between two chunks is written once, as it would be unsplit |
| Decoder.GlyphResumed | terminal.cpp:1502-1506 | a glyph's rest, behind its carried first bytes, decodes as the whole glyph |
| Decoder.SamePrepend | terminal.cpp:1493-1511 | decoding depends only on the bytes formed once the leftovers are put in front |
| Decoder.Skipped | terminal.cpp:1532-1535 | (corrected, see Findings) the countdown skips that many single-byte glyphs and produces nothing |
| Decoder.EscStart | terminal.cpp:1566-1580 | `ESC` and a byte after it at the start of a chunk: the ESC is remembered and yields nothing, and the byte after it is read as an escape command |
| Decoder.CsiPrefixStep | terminal.cpp:1588-1601 | the `[` of an unfinished control sequence saves it whole and counts down all of its bytes |
| Decoder.CsiWhole | terminal.cpp:1579-1603 | a whole control sequence in one chunk yields exactly the command the lexer reads, and nothing is carried |
| Decoder.CsiComplete | terminal.cpp:178-236 | the lexer reads parameter bytes and a final byte as one complete sequence spanning them all |
| Decoder.CsiWholeRun | terminal.cpp:1584-1588 | after the command is executed, the countdown skips its bytes to the end of the chunk |
| Decoder.CsiCut | terminal.cpp:178-236 | parameter bytes alone make an unfinished sequence spanning them all |
| Decoder.CsiPrefix | terminal.cpp:1588-1601 | `ESC [` and parameter bytes at the end of a chunk yield nothing and are carried whole |
| Decoder.CsiPrefixRun | terminal.cpp:1588-1601 | the scan of an unfinished sequence saves it and counts down its bytes |
| Decoder.CsiSplit | terminal.cpp:1493-1601 | a control sequence split anywhere between two chunks yields nothing from the first, then exactly the command of the unsplit sequence |
| Decoder.CsiHead | terminal.cpp:1588-1601 | the first part of a split sequence yields nothing and is carried |
| Decoder.SplitResumed | terminal.cpp:1493-1506 | the second part of any escape sequence split after its ESC, behind what the first part carried, decodes exactly as the whole sequence |
| Decoder.CursorTo12Split | terminal.cpp:1048-1061 | `ESC [ 1 ; 2 H` split anywhere: the first chunk yields nothing and carries what it has seen, and the second yields the one cursor command of the unsplit sequence |
| Decoder.CursorTo12Args | terminal.cpp:178-236 | `1;2H` scans as the arguments 1 and 2 with command `H` |
| Decoder.OscComplete | terminal.cpp:245-294 | the OSC lexer reads `n ; t BEL` as command `n` with the argument `; t`, complete and spanning every byte |
| Decoder.OscCut | terminal.cpp:245-294 | a proper prefix of such a body, cut anywhere, is read as unfinished and spanning every byte |
| Decoder.OscWhole | terminal.cpp:1605-1610 | (corrected, see Findings) a whole operating-system command in one chunk yields exactly the one command the lexer reads, and leaves nothing over |
| Decoder.OscHead | terminal.cpp:1612-1627 | (corrected, see Findings) the first part of a split operating-system command yields nothing and is carried whole |
| Decoder.OscSplit | terminal.cpp:1493-1627 | (corrected, see Findings) an operating-system command split between two chunks at any byte yields nothing from the first and, from the second, the same single command as the unsplit one |
| Decoder.DcsLexed | terminal.cpp:302-335 | a prefix of a device control string's body and `ESC \` is read as spanning every byte, and as complete exactly when whole |
| Decoder.DcsWhole | terminal.cpp:1631-1640 | (corrected, see Findings) a whole device control string in one chunk yields nothing and leaves nothing over |
| Decoder.DcsHead | terminal.cpp:1640-1648 | (corrected, see Findings) the first part of a split device control string yields nothing and is carried: the string so far, or, cut before the final `\`, the string less its ESC with that ESC carried alone |
| Decoder.DcsTail | terminal.cpp:1493-1511 | (corrected, see Findings) the final `\` after such a carry closes the string, and nothing is left |
| Decoder.DcsSplit | terminal.cpp:1493-1651 | (corrected, see Findings) a device control string split between two chunks at any byte yields nothing from either and leaves nothing over, as the unsplit string does |
| Decoder.OscSkipAsWritten | terminal.cpp:1532-1537 | as written, the countdown set to the title command's 5 bytes counts glyphs, so after `OSC 0 ; é BEL` it runs on over the `X` that follows |
| Decoder.TitleTail | terminal.cpp:1532-1537 | skipped a byte at a time, the countdown ends right before `X`, which is written |
| Decoder.OscThenGlyph | terminal.cpp:1605-1610 | (corrected, see Findings) `OSC 0 ; é BEL X` decodes to the title command followed by `X` |
| Decoder.SavedAsWritten | terminal.cpp:1772-1775 | the emulator's save reads `len` bytes from the glyph's start, through the NUL terminator and beyond |
| Decoder.GlyphCarryAsWritten | terminal.cpp:1769-1777 | as written, a whole `é` at the end of a chunk is deferred. When split, `C3 00` is saved, so `é` is never written |
| Keys.CursorLetter | terminal.cpp:1849-1869 | a cursor key's sequence ends in a letter between `A` and `H` |
| Keys.FnBytes | terminal.cpp:1879-1914 | F1-F12 send an escape sequence |
| Keys.Unmouse | terminal.cpp:1821-1832 | wheel events stand for arrow keys; what is left of the mouse is only other buttons |
| Keys.Encode | terminal.cpp:1818-1923 | the loop sends each key's bytes, key after key |
| Keys.CString | terminal.cpp:1927 | the pasted text is everything before its first NUL |
| Keys.CursorKeyModes | terminal.cpp:1835-1869 | a cursor key sends three bytes in either mode, and the modes differ only in the second: `O` with application keys, `[` without |
| Keys.WheelKeys | terminal.cpp:1821-1832 | wheel up and down send exactly what the up and down arrows send; any other mouse event sends nothing |
| Keys.ModeIndependent | terminal.cpp:1868-1921 | every other key sends the same bytes in both modes |
| Keys.PlainKeyByte | terminal.cpp:1918-1920 | any other key sends exactly one byte, its code's low byte: codes 256 apart send the same byte, and a code below 256 is sent as itself |
| Keys.KeysBytesAppend | terminal.cpp:1818-1923 | the bytes of a list of keys are those of its parts, in order |
| Keys.CursorKeyIsCsi | terminal.cpp:1835-1869 | in normal mode a cursor key is a complete control sequence for the emulator's own CSI lexer, its letter the command |
| Keys.PasteShape | terminal.cpp:1925-1929 | a paste sends `ESC [200~`, the text up to its first NUL, and `ESC [201~`; text without NUL goes through whole |
| Keys.CStringWhole | terminal.cpp:1927 | text without NUL is sent whole |
| Keys.TildeKeyIsCsi | terminal.cpp:1870-1917 | Page Up, Page Down, Menu and F5-F12 send, in either mode, a complete control sequence for the emulator's own lexer: command `~` with the key's number as its only argument |
| Keys.TildeKeyBytes | terminal.cpp:1870-1917 | such a key sends `ESC [`, its number in decimal, and `~` |
| Keys.FnTildeBytes | terminal.cpp:1891-1914 | F5-F12 send `ESC [`, their number in decimal, and `~` |
| Keys.NumberTildeCsi | terminal.cpp:178-236 | a number in decimal followed by `~` lexes as a complete `~` command with that number its only argument |
| Keys.DecimalArgs | terminal.cpp:208-223 | the decimal digits of `n` read back as the single argument `n` |
| Effects.LineFed | terminal.cpp:1743-1751 | a line feed keeps the line count, the width and the cursor on the page |
| Effects.ReverseFed | terminal.cpp:1686-1692 | a reverse line feed keeps the line count and the cursor on the page |
| Effects.GlyphSpot | terminal.cpp:1786-1796 | carrying out a pending wrap keeps the page's shape and the cursor on it |
| Effects.CursorReport | terminal.cpp:1362-1369 | the report starts `ESC [` and ends in `R` |
| Effects.ColorReply | terminal.cpp:1446-1457 | the colour answer is an OSC that starts `ESC ]` and ends in BEL |
| Effects.DsrAsWritten | terminal.cpp:1356-1372 | as written, `CSI 5 n` and `CSI 6 n` go unanswered, and `CSI 54 n` gets the cursor report |
| Effects.DsrAnswered | terminal.cpp:1356-1372 | (corrected, see Findings) `CSI 5 n` is answered "ready"; `CSI 6 n` gets a report the emulator's own lexer reads back as `R` with the row and the column |
| Effects.ColorQueryIgnored | terminal.cpp:1446-1457 | as written, no colour query is ever answered, since the lexed argument keeps its `;` |
| Effects.ColorQueryAnswered | terminal.cpp:1446-1457 | (corrected, see Findings) `OSC n ; ? BEL` lexes as a colour query and is answered with white exactly for 4, 10 and 11 |
| Effects.LineFeedInRegion | terminal.cpp:1743-1751 | inside the scrolling region a line feed keeps the cursor inside it: it moves down a row above the bottom and scrolls the region at the bottom |
| Effects.LineFeedReversed | terminal.cpp:1686-1692 | a line feed then a reverse line feed, away from the region's edges, restore the cursor and leave the lines alone |
| Effects.DisplayErasedCells | terminal.cpp:1066-1096 | (corrected, see Findings) `CSI J` cell by cell. Mode 0 blanks the rows below and the cursor row from the cursor; mode 1 the rows above and the cursor row up to and including the cursor; mode 2 every page row. Scroll-back and every other cell are kept |
| Effects.AboveColumnsAsWritten | terminal.cpp:1082-1084 | the columns the mode-1 loop visits, at most the steps taken |
| Effects.AboveColumnsAsWrittenWrong | terminal.cpp:1082-1084 | as written, the loop visits nothing when the cursor is right of column 1, and never stops in column 1 |
| Effects.CursorSet | terminal.cpp:908-911 | placing the cursor keeps a well-formed terminal well formed and changes nothing but the cursor and the pending wrap |
| Effects.Moved | terminal.cpp:903-906 | moving the cursor keeps a well-formed terminal well formed and changes nothing but the cursor and the pending wrap |
| Effects.ScrollSet | terminal.cpp:429-432 | setting the region with the top at or above the bottom, or the bottom unset, keeps the terminal well formed |
| Effects.PageCleared | terminal.cpp:927-930 | blanking the page keeps the terminal well formed |
| Effects.WrapCarried | terminal.cpp:1786-1796 | carrying out a pending wrap keeps the terminal well formed and leaves no wrap pending |
| Effects.GlyphPlacedMeaning | terminal.cpp:1798-1803 | placing a glyph puts it in the cursor's cell of the cursor row and marks that row; at the margin with auto-wrap on a wrap is left pending and the cursor kept, otherwise the cursor moves right by the glyph's width, never past the margin; nothing else changes |
| Effects.ResetSteps | terminal.cpp:932-941 | the full reset is the modes cleared, then the region unset, the cursor home and the page blanked, in the emulator's order |
| Effects.SoftResetSteps | terminal.cpp:1373-1381 | the soft reset is the attributes cleared, the cursor home, the region unset, the page blanked, then application keys off and the main page shown |
| Effects.RegionSteps | terminal.cpp:1382-1399 | setting the region is the cursor home, then one setting of the region for none, one or two ordered arguments, and none otherwise |
| Effects.CursorTarget | terminal.cpp:1008-1065 | where each cursor command puts the cursor, counts defaulting to 1; always on the page |
| Effects.VerticalTargets | terminal.cpp:1008-1015 | up and down put the cursor where `CursorTarget` says, cancel a pending wrap and change nothing else |
| Effects.HorizontalTargets | terminal.cpp:1026-1033 | forward and back do the same |
| Effects.LineSteps | terminal.cpp:1034-1043 | `E` and `F` are a move by the count, then a carriage return on the row reached |
| Effects.LineTargets | terminal.cpp:1034-1043 | `E` and `F` put the cursor where `CursorTarget` says, cancel a pending wrap and change nothing else |
| Effects.AbsoluteTargets | terminal.cpp:1044-1065 | the moves to a row and to a column do the same |
| Effects.PositionSteps | terminal.cpp:1048-1061 | `f` and `H` with at most two arguments are one placement of the cursor, missing arguments 1 |
| Effects.PositionTargets | terminal.cpp:1048-1061 | `f` and `H` do the same with at most two arguments, and with more change nothing at all |
| Effects.FlushedSound | terminal.cpp:636-668 | a flush leaves no line on display dirty and keeps every cell; each write goes to a row of the page and holds its rendering, rows increasing; every line dirty before is written |
| Effects.GlyphWidth | terminal.cpp:445 | a glyph is one or two columns wide, and a one-byte glyph is one |
| Terminal.Term.constructor | terminal.cpp:816-884 | a new terminal is 80 by 24 on the main page, with the cursor home, zero attributes, auto-wrap on, nothing queued and the first update skipped; both pages are newly made, so the new terminal can be driven at once |
| Terminal.Term.Resize | terminal.cpp:770-813 | the new state is `ResizeDone` of the old: the same size changes nothing; otherwise both pages are resized and their cursors clamped, and the next update is skipped |
| Terminal.Term.MoveCursor | terminal.cpp:903-906 | the new state is `Moved` of the old: the cursor moves, clamped into the page, the lines, region and saved cursor are kept, and a pending wrap is cancelled when asked |
| Terminal.Term.SetCursor | terminal.cpp:908-911 | the new state is `CursorSet` of the old: the cursor is set, clamped, the lines, region and saved cursor are kept, and a pending wrap is cancelled |
| Terminal.Term.SaveCursor | terminal.cpp:913 | the new state is `CursorSaved` of the old: the page saves the cursor and the current attributes (see `Replay.SaveRestore`) |
| Terminal.Term.RestoreCursor | terminal.cpp:914 | (corrected, see Findings) the new state is `CursorRestored` of the old: the saved cursor, clamped, and the saved attributes come back, and the save is used up |
| Terminal.Term.SetScroll | terminal.cpp:916 | the new state is `ScrollSet` of the old: the region of the page on display set, both bounds fitted into the page |
| Terminal.Term.ClearPage | terminal.cpp:927-930 | the new state is `PageCleared` of the old: every page row is blanked with the current attributes; scroll-back is kept |
| Terminal.Term.Reset | terminal.cpp:932-941 | the new state is `ResetDone` of the old: attributes, application keys, wrapping, region and cursor are reset, and the page is blanked (see `Effects.ResetSteps`) |
| Terminal.Term.InsertBlanks | terminal.cpp:997-1007 | the new state is `BlanksInserted` of the old: `CSI n @` inserts `n` blanks with zero attributes at the cursor; the line's dirty mark is kept |
| Terminal.Term.DeleteChars | terminal.cpp:1131-1136 | the new state is `CharsDeleted` of the old: `CSI n P` deletes `n` cells at the cursor; blanks with the current attributes enter at the end |
| Terminal.Term.EraseChars | terminal.cpp:1426-1431 | the new state is `CharsErased` of the old: `CSI n X` clears `n` cells from the cursor up to the margin |
| Terminal.Term.EraseInLine | terminal.cpp:1097-1118 | the new state is `InLineErased` of the old: `CSI n K` clears the cursor row as `LineErased` states, by mode |
| Terminal.Term.EraseInDisplay | terminal.cpp:1066-1096 | (corrected, see Findings) the new state is `InDisplayErased` of the old: `CSI n J` clears as `DisplayErased` states (see `Effects.DisplayErasedCells`) |
| Terminal.Term.InsertLines | terminal.cpp:1119-1124 | the new state is `LinesInsertedAt` of the old: `CSI n L` inserts `n` blank lines at the cursor row |
| Terminal.Term.DeleteLines | terminal.cpp:1125-1130 | the new state is `LinesDeletedAt` of the old: `CSI n M` deletes `n` lines at the cursor row |
| Terminal.Term.ScrollUpTimes | terminal.cpp:1400-1405 | the new state is `ScrolledUpBy` of the old: `CSI n S` scrolls the region up `n` lines |
| Terminal.Term.ScrollDownTimes | terminal.cpp:1406-1411 | the new state is `ScrolledDownBy` of the old: `CSI n T` scrolls the region down `n` lines |
| Terminal.Term.SetCurrentCell | terminal.cpp:455-457 | the new state is `CellSet` of the old: the glyph is written at the cursor with the current attributes, and nothing else changes |
| Terminal.Term.IndexLine | terminal.cpp:1675-1685 | the new state is `Indexed` of the old: `ESC D` and a line feed move as `Effects.LineFed` states; a pending wrap survives only a scroll |
| Terminal.Term.ReverseIndexLine | terminal.cpp:1686-1692 | the new state is `ReverseIndexed` of the old: `ESC M` moves as `Effects.ReverseFed` states |
| Terminal.Term.NextLineStart | terminal.cpp:1675-1685 | the new state is `NextLined` of the old: `ESC E` is a line feed and then column 1 |
| Terminal.Term.CarryWrap | terminal.cpp:1786-1796 | the new state is `WrapCarried` of the old: a pending wrap at the margin is carried out as `Effects.GlyphSpot` states, and is always cleared |
| Terminal.Term.WriteGlyph | terminal.cpp:1786-1803 | the new state is `GlyphWritten` of the old: a pending wrap is carried out, then the glyph is placed as `Effects.GlyphPlacedMeaning` states |
| Terminal.Term.PlaceGlyph | terminal.cpp:1798-1803 | the new state is `GlyphPlaced` of the old: the glyph is written at the cursor, then a wrap is left pending at the margin or the cursor advances (see `Effects.GlyphPlacedMeaning`) |
| Terminal.Term.TabForward | terminal.cpp:1752-1759 | the new state is `Tabbed` of the old: a tab writes spaces up to the tab stop and moves there; it cancels a pending wrap only when it moves |
| Terminal.Term.AlignmentTest | terminal.cpp:1546-1558 | the new state is `Aligned` of the old: `ESC # 8` resets, then fills every page row with `E` in zero attributes; scroll-back is kept |
| Terminal.Term.RestoreOrHome | terminal.cpp:1667-1674 | (corrected, see Findings) the new state is `RestoredOrHomed` of the old: `ESC 8` restores the saved cursor, clamped into the page as Finding 1 intends, and the attributes; with nothing saved it homes the cursor and clears the attributes |
| Terminal.Term.SelectRendition | terminal.cpp:1213-1352 | the new state is `RenditionSelected` of the old: `CSI m` applies the codes in order, no codes meaning 0 |
| Terminal.Term.SwitchPage | terminal.cpp:1172-1207 | the new state is `PageSwitched` of the old: `CSI ? 1049 h` shows the alternate page, homed, cleared and dirty; `l` shows the main page, dirty; the other page is untouched (see `Replay.SwitchBack`) |
| Terminal.Term.SetPrivateMode | terminal.cpp:1153-1212 | the new state is `PrivateModeSet` of the old: `CSI ? n h/l` with 1 sets application keys, 3 resets, 7 sets auto-wrap, 1049 switches page; any other mode changes nothing |
| Terminal.Term.SoftReset | terminal.cpp:1373-1381 | the new state is `SoftResetDone` of the old: `CSI ! p` clears attributes, homes the cursor, unsets the region and blanks the page shown; then application keys go off and the main page is shown, dirty. Auto-wrap is left alone (see `Effects.SoftResetSteps`) |
| Terminal.Term.ClearForSoftReset | terminal.cpp:1374-1377 | the new state is the first half of the soft reset: attributes cleared, cursor home, region unset and the page on display blanked |
| Terminal.Term.SetAttrs | terminal.cpp:1374 | the new state is the old with the given attributes and nothing else changed |
| Terminal.Term.SetAppKeys | terminal.cpp:1378 | the new state is the old with application keys set as given and nothing else changed |
| Terminal.Term.SetRegion | terminal.cpp:1382-1399 | the new state is `RegionSet` of the old: `CSI r` homes the cursor; no argument unsets the region, one sets its top, two set both unless the bottom is above the top; anything more leaves it (see `Effects.RegionSteps`) |
| Terminal.Term.ExecuteCommand | terminal.cpp:996-1438 | (corrected, see Findings) the new state is `CommandDone` of the old: `c` answers the shell, and so do `5 n` and `6 n` under Finding 4's corrected status report (as written they get nothing, `Effects.DsrAsWritten`) (`Replay.CommandAnswers`); `J` erases with Finding 3's corrected mode 1; the cursor commands move the cursor, the rest edit; other letters change nothing |
| Terminal.Term.EditCommand | terminal.cpp:997-1431 | (corrected, see Findings) the new state is `Edited` of the old: `@ J K L M P m r S T X` each as its own member states; other letters change nothing (`Replay.EditedKeepsOutput`: nothing is written to the shell) |
| Terminal.Term.CursorCommand | terminal.cpp:1008-1065 | the new state is `CursorMoved` of the old: the cursor goes where `Effects.CursorTarget` says, and nothing but the cursor and the pending wrap changes |
| Terminal.Term.RelativeMove | terminal.cpp:1008-1033 | the new state is `CursorMoved` of the old for up, down, forward and back (see `Effects.VerticalTargets`, `Effects.HorizontalTargets`) |
| Terminal.Term.LineMove | terminal.cpp:1034-1043 | the new state is `CursorMoved` of the old for `E` and `F` (see `Effects.LineTargets`) |
| Terminal.Term.AbsoluteMove | terminal.cpp:1044-1065 | the new state is `CursorMoved` of the old for `d` and `G` (see `Effects.AbsoluteTargets`) |
| Terminal.Term.PositionMove | terminal.cpp:1048-1061 | the new state is `CursorMoved` of the old for `f` and `H` (see `Effects.PositionTargets`) |
| Terminal.Term.ExecuteCsi | terminal.cpp:975-1439 | (corrected, see Findings) the new state is `CsiDone` of the old: a sequence is dispatched on its mode marker and command; unmarked to `CommandDone` (with its corrected `n` and `J`), `?h`/`?l` to `PrivateModeSet`, `>c` answers, `!p` soft-resets, anything else changes nothing |
| Terminal.Term.ExecuteOsc | terminal.cpp:1441-1470 | (corrected, see Findings) the new state is `OscDone` of the old: OSC 0 sets the title to the argument; a colour query `4`, `10` or `11` `; ?` is answered with white under Finding 5's corrected query (as written none is answered, `Effects.ColorQueryIgnored`); nothing else changes |
| Terminal.Term.Apply | terminal.cpp:1575-1806 | (corrected, see Findings) the new state is `Applied` of the old: each kind of decoded command to its own operation; what it writes to the shell is `Answer` (`Replay.AppliedAnswers`) |
| Terminal.Term.ExecuteEscape | terminal.cpp:1652-1692 | (corrected, see Findings) the new state is `Applied` of the old for `ESC # 8`, `ESC 7`, `ESC 8`, `ESC D`, `ESC E` and `ESC M` |
| Terminal.Term.ExecuteControl | terminal.cpp:1737-1759 | the new state is `Applied` of the old for carriage return, backspace, line feed and tab |
| Terminal.Term.Update | terminal.cpp:1472-1811 | (corrected, see Findings) the new state and the writes are `Updated` of the old: right after a resize an update is skipped once; otherwise the queued bytes are decoded after the leftovers, the commands replayed and the page flushed (`Replay.UpdatedReplays`, `Effects.FlushedSound`) |
| Terminal.Term.TakeInbox | terminal.cpp:1490-1511 | (corrected, see Findings) the commands returned and the carry kept are what `Decode` gives for the old carry and queue, and the queue is emptied; nothing else changes |
| Terminal.Term.ApplyAll | terminal.cpp:1531-1807 | (corrected, see Findings) the new state is `Replayed` of the old: the commands applied in order (`Replay.ReplayedConcat`, `Replay.ReplayedOutput`) |
| Terminal.Term.Flush | terminal.cpp:1811 | the new state and the writes are `Flushed` of the old: the dirty lines are written and cleaned, as `Effects.FlushedSound` states |
| Terminal.Term.Receive | terminal.cpp:731-751 | bytes read from the shell are appended to the queue, and nothing else changes |
| Terminal.Term.SendKeys | terminal.cpp:1818-1923 | the keys' bytes, by the application-keys mode, are appended to the output, and nothing else changes |
| Terminal.Term.Paste | terminal.cpp:1925-1929 | the bracketed paste is appended to the output, and nothing else changes |
| Replay.AppliedAnswers | terminal.cpp:1575-1806 | (corrected, see Findings) the cursor is on the page, and the only thing any command writes to the shell is appended: its `Answer`, nothing for all but `c`, `> c` and, under the corrected replies of Findings 4 and 5, `n` and the colour queries |
| Replay.CsiAnswers | terminal.cpp:975-1439 | (corrected, see Findings) a control sequence appends exactly its `CsiReply` to the output |
| Replay.CommandAnswers | terminal.cpp:996-1438 | (corrected, see Findings) an unmarked control sequence appends exactly its `CsiReply`: the attributes for `c`, the corrected status reply for `5 n` and `6 n` (as written, `Effects.DsrAsWritten`, `CSI 6 n` gets nothing), nothing otherwise |
| Replay.PrivateModeKeepsOutput | terminal.cpp:1153-1212 | setting or resetting a private mode writes nothing to the shell |
| Replay.CursorMovedKeepsOutput | terminal.cpp:1008-1065 | the cursor commands write nothing to the shell |
| Replay.EditedKeepsOutput | terminal.cpp:997-1431 | (corrected, see Findings) the editing commands write nothing to the shell, leave the page shown alone, and keep the cursor, except `r`, which homes it |
| Replay.RowEditKeeps | terminal.cpp:997-1007 | the edits of the cursor row (`@ K P X`) keep the output, the cursor and the page shown |
| Replay.PageEditKeeps | terminal.cpp:1066-1411 | (corrected, see Findings) the edits of the whole page (`J L M S T`) keep the output, the cursor and the page shown |
| Replay.GlyphKeepsOutput | terminal.cpp:1786-1803 | writing a glyph writes nothing to the shell |
| Replay.KeepsOutput | terminal.cpp:1652-1759 | the escape commands and the control characters write nothing to the shell |
| Replay.SavesKeepOutput | terminal.cpp:1546-1674 | `ESC # 8`, `ESC 7` and `ESC 8` write nothing to the shell |
| Replay.MovesKeepOutput | terminal.cpp:1675-1759 | the line feeds, the carriage return, the backspace and the tab write nothing to the shell |
| Replay.ReplayedOutput | terminal.cpp:1531-1807 | (corrected, see Findings) replaying commands only ever appends to what was written to the shell |
| Replay.ReplayedConcat | terminal.cpp:1531-1807 | (corrected, see Findings) commands replayed in two runs, one after the other, have the effect of one run of them all |
| Replay.SaveRestore | terminal.cpp:406-418 | `ESC 7` then `ESC 8` give back the cursor, the attributes, the lines and the region, with the save used up |
| Replay.SwitchBack | terminal.cpp:1172-1207 | switching to the alternate page and back shows the main page as it was, every line marked for redrawing, and leaves the alternate page blank with its cursor home |
| Replay.UpdatedReplays | terminal.cpp:1472-1811 | (corrected, see Findings) an update not skipped is the chunk's decoded commands replayed, after the carry, then the page flushed |
| Replay.FlushedKeeps | terminal.cpp:636-668 | a flush keeps the cursor, the size, the output and the decoding state, and keeps the terminal well formed |
| Replay.UpdateCursorTo12 | terminal.cpp:1048-1061 | an update whose chunk is `ESC [ 1 ; 2 H` puts the cursor on row 1, column 2 (fitted to the page), writes nothing to the shell and leaves nothing over |
| Replay.UpdateCursorTo12InTwo | terminal.cpp:1493-1601 | the same sequence cut anywhere and received by two updates: the first keeps the cursor and carries the part seen; the second puts the cursor on row 1, column 2, with nothing left over |

## Left out

- The pty, `fork`/`exec` of the shell, `ioctl(TIOCSWINSZ)` and the reader thread are not modelled. The reader thread's buffer and its mutex are replaced by the `inbox` queue. Every `write` to the shell is an append to `output`.
- A failing `ioctl` in `resize` (it returns early) is not modelled: the resize always takes place.
- The editor side is left out: the buffer's line insertions and deletions that mirror the page's lines, frames, cursor placement in a frame (`set_cursor_in_frame`), `fit_to_frames`, `apply_attrs`, colour tables, the debug log and the plugin's commands and event hooks. The buffer writes are returned by `Update` and `Flush` instead.
- OSC 52 (clipboard, printed on the editor's standard output) is left out.
- `RGB_32` packing of 24-bit colours is kept as a three-channel value.
- Arguments are unbounded integers: `sscanf("%ld")` into a `long` and its truncation to `int` are not modelled.
- A page is never resized below 1 by 1, which the editor's frames never ask for.
- The three leftover buffers are `static` locals of `update`, shared by every terminal; the model keeps them per terminal.
- A glyph's width in the editor is the `wide` set: multi-byte glyphs in it are two columns wide, every other glyph one. The tab width is the terminal's `tabWidth`. `GlyphLen` reads a glyph's length from the top four bits of its first byte.
- Terminal.Term.SelectRendition: with a `38` or `48` whose sub-parameters are missing, the source reads past the end of the argument vector (undefined behaviour). There the model stops applying codes; `Rendition.SgrCutShort` states that the codes before it keep their effect, and nothing is stated about what the source would read.
- Screens.LineInsertedMeaning: stated only for a row inside the scrolling region. `CSI L` on a row outside it still moves a line between that row and the region's bottom; `Screens.LineInserted` models that case, but no lemma describes it.
- Screens.LineDeletedMeaning: stated only for a row inside the scrolling region, for the same reason; `Screens.LineDeleted` models the other rows.
- `Effects.Replayed` leaves a state that is not well formed as it is. Every state a `Term` holds is well formed, so this guard never applies to the terminal.
- The soft reset ends by showing the main page and marking its lines dirty (terminal.cpp:1379-1380); the model writes this as `PageSwitched(..., false)`, which does exactly that.
- Insert (`CSI @`) leaves the line's dirty mark alone, as the source does, so the change is only written out with a later change to the line.
- An incomplete DCS is saved with the introducer `ESC P` even when it began with `ESC k`, as the source does.
- OSC 0 sets the title with the leading `;` included, as the source does.
- Delete sends a bare `P`, as the source does.
- `CSI 3 J`, `CSI h`/`l` without `?`, `CSI t`, `CSI > m`, `CSI > t`, the cursor blink and visibility modes 12 and 25, `ESC =`, `ESC >`, `ESC (` with its charset byte, `ESC g`, BEL, SI and OSC 104/110/111 are ignored by the source and change nothing in the model.

## Findings

| source | as written | input that shows it | evidently intended | confidence | as-written member | corrected member |
|---|---|---|---|---|---|---|
| terminal.cpp:413-418 | `restore_cursor` restores the saved row and column unclamped, although `set_dimensions` (terminal.cpp:583-634) may have shrunk the page since | save the cursor on row 24 of a 24-row page, resize to 10 rows, `ESC 8`: the cursor is on row 24 of 10 | the restored cursor clamped into the page, like every other cursor update | not executed | Screens.RestoreAfterShrinkAsWritten | Screens.RestoreAfterShrink |
| terminal.cpp:1769-1777 | the cut-off test `p + len >= &buff.back()` also defers a glyph that ends exactly at the chunk's end. It then copies `len` bytes, past the terminating NUL | `é` (C3 A9) whole at the end of a chunk is put off; split after C3, the carry is `C3 00` and `é` is never written | a glyph is put off only when the chunk lacks some of its bytes, and only the bytes present are carried | not executed | Decoder.GlyphCarryAsWritten | Decoder.GlyphSplit |
| terminal.cpp:1082-1084 | the `CSI 1 J` loop over the cursor row runs `for (col = 1; col >= this->col(); col += 1)` | cursor in column 5: nothing on the row is erased; cursor in column 1: the loop never ends | erase columns 1 up to and including the cursor | not executed | Effects.AboveColumnsAsWrittenWrong | Effects.DisplayErasedCells |
| terminal.cpp:1359-1362 | the status report compares the numeric argument with the characters `'5'` and `'6'` | `CSI 6 n` gets no cursor report; `CSI 54 n` gets one | answer `CSI 5 n` and `CSI 6 n` | not executed | Effects.DsrAsWritten | Effects.DsrAnswered |
| terminal.cpp:1447 | the colour query compares the OSC argument with `"?"`, but the OSC lexer keeps the `;` before it | `OSC 10 ; ? BEL` is not answered | answer `OSC 4/10/11 ; ?` with the colour | not executed | Effects.ColorQueryIgnored | Effects.ColorQueryAnswered |
| terminal.cpp:1532-1537 | the countdown, set to the number of bytes the lexer counted, is decremented once per glyph of the traversal | `ESC ] 0 ; é BEL X`: the 5 counted bytes are skipped as 5 glyphs, which run on over `X`, so `X` is never written | skip exactly the bytes the lexer counted | not executed | Decoder.OscSkipAsWritten | Decoder.OscThenGlyph |
