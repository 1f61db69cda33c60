/** The byte-level half of the emulator's update: how one chunk of bytes
    from the shell, together with what the previous chunk left over, is
    cut into glyphs and turned into the commands the terminal executes.
    Decoding depends only on the bytes and on the decoder's own state,
    never on the screen, so it is a pure function here; the terminal
    executes the commands it yields one by one. */
module Decoder {
  import opened Bytes
  import opened Lexers

  /** The length in bytes of the glyph a lead byte starts, from its top
      four bits (a stray continuation byte is a glyph of its own). */
  function GlyphLen(lead: byte): (n: nat)
    ensures 1 <= n <= 4
    ensures lead < 0x80 ==> n == 1
  {
    var top := lead as int / 16;
    if top == 0xC || top == 0xD then 2
    else if top == 0xE then 3
    else if top == 0xF then 4
    else 1
  }

  /** What a chunk leaves for the next one: an ESC that ended it, an
      escape sequence cut off by its end (kept with its introducer), and
      the start of a multi-byte glyph cut off by its end. */
  datatype Carry = Carry(esc: bool, pending: seq<byte>, utf8: seq<byte>)

  const NoCarry: Carry := Carry(false, [], [])

  /** The leftovers put in front of a new chunk. Only one kind is used per
      chunk, in the order ESC, escape sequence, glyph start; the others
      stay for a later chunk. */
  function Prepend(c: Carry, data: seq<byte>): (r: (seq<byte>, Carry))
    ensures c.esc ==> r.1 == c.(esc := false)
    ensures !c.esc ==> !r.1.esc && r.1.utf8 == (if c.pending == [] then [] else c.utf8)
    ensures r.0 == [ESC] + data || r.0 == c.pending + data || r.0 == c.utf8 + data
  {
    if c.esc then ([ESC] + data, c.(esc := false))
    else if |c.pending| > 0 then (c.pending + data, c.(pending := []))
    else if |c.utf8| > 0 then (c.utf8 + data, c.(utf8 := []))
    else
      assert data == c.utf8 + data;
      (data, c)
  }

  /** The bytes to decode: the leftovers and the new bytes, less an ESC at
      the very end, which is carried to the next chunk instead. */
  function Chunk(c: Carry, data: seq<byte>): (r: (seq<byte>, Carry))
    ensures var b := Prepend(c, data).0;
      r.1.esc <==> (|b| > 0 && b[|b| - 1] == ESC)
    ensures var b := Prepend(c, data).0;
      r.0 == if r.1.esc then b[..|b| - 1] else b
    ensures r.1.pending == Prepend(c, data).1.pending && r.1.utf8 == Prepend(c, data).1.utf8
  {
    var p := Prepend(c, data);
    if |p.0| > 0 && p.0[|p.0| - 1] == ESC then (p.0[..|p.0| - 1], p.1.(esc := true)) else p
  }

  /** A command for the terminal, decoded from the byte stream. */
  datatype Event =
    | CsiEvent(csi: CsiSeq)       // a complete control sequence
    | OscEvent(osc: OscSeq)       // a complete operating-system command
    | Align                       // ESC # 8: screen alignment test
    | Save                        // ESC 7
    | Restore                     // ESC 8
    | Index                       // ESC D
    | NextLine                    // ESC E
    | ReverseIndex                // ESC M
    | CarriageReturn              // CR
    | Backspace                   // BS
    | LineFeed                    // LF, VT and FF
    | Tab                         // HT
    | Put(glyph: seq<byte>)       // a printable glyph

  /** The decoder's state inside a chunk: how many bytes of an escape
      sequence are still to be skipped, whether the last glyph was `ESC #`
      or `ESC (`, the first byte of the last glyph looked at, and the two
      leftovers that the chunk may set. */
  datatype Scan = Scan(countdown: nat, dectst: bool, setcharset: bool, last: byte,
                       pending: seq<byte>, utf8: seq<byte>)

  function Start(c: Carry): Scan {
    Scan(0, false, false, NUL, c.pending, c.utf8)
  }

  /** `n` bytes of the NUL-terminated window from position `from`. */
  function Window(s: seq<byte>, from: int, n: nat): (r: seq<byte>)
    ensures |r| == n
    ensures 0 <= from && from + n <= |s| ==> r == s[from..from + n]
  {
    var r := seq(n, k => At(s, from + k));
    assert forall i :: 0 <= i < |s| ==> At(s, i) == s[i];
    r
  }

  /** A multi-byte glyph cut off by the end of the chunk: it needs more
      bytes than the chunk has left. */
  predicate Cut(buff: seq<byte>, i: int, n: nat) {
    i + n > |buff|
  }

  /** A glyph at position `i` of the chunk, `n` bytes long: written out,
      or, when it is cut off, its bytes saved for the next chunk. */
  function PutGlyph(buff: seq<byte>, i: int, n: nat, st: Scan): (r: (seq<Event>, Scan))
    requires 0 <= i < |buff| && 1 <= n
  {
    if Cut(buff, i, n) then ([], st.(utf8 := st.utf8 + buff[i..]))
    else ([Put(buff[i..i + n])], st)
  }

  /** A single-byte glyph on the write path: control bytes are dropped. */
  function PutByte(c: byte, st: Scan): (r: (seq<Event>, Scan)) {
    if IsControl(c) then ([], st) else ([Put([c])], st)
  }

  /** The escape sequence cut off at the end of the chunk, saved with its
      two-byte introducer. */
  function Saved(intro: char, buff: seq<byte>, i: int, len: nat): (r: seq<byte>)
    requires intro as int < 256
    ensures |r| == len + 2 && r[0] == ESC && r[1] == B(intro)
  {
    [ESC, B(intro)] + Window(buff, i + 1, len)
  }

  /** The byte after an `ESC` at position `i - 1`. */
  function EscCommand(buff: seq<byte>, i: int, st: Scan): (r: (seq<Event>, Scan))
    requires 0 <= i < |buff|
  {
    var c := buff[i];
    var rest := buff[i + 1..];
    if c == B('\\') then ([], st)
    else if c == B('[') then
      var csi := Csi(rest);
      if csi.complete then ([CsiEvent(csi)], st.(countdown := csi.len))
      else if At(rest, csi.len) == NUL then
        var saved := Saved('[', buff, i, csi.len);
        ([], st.(pending := saved, countdown := |saved|))
      else ([], st.(countdown := |st.pending|))
    else if c == B(']') then
      var osc := Osc(rest);
      if osc.complete then ([OscEvent(osc)], st.(countdown := osc.len))
      else if At(rest, osc.len) == NUL then
        var saved := Saved(']', buff, i, osc.len);
        ([], st.(pending := saved, countdown := |saved|))
      else ([], st.(countdown := |st.pending|))
    else if c == B('k') || c == B('P') then
      var dcs := Dcs(rest);
      if dcs.complete then ([], st.(countdown := dcs.len))
      else ([], st.(pending := Saved('P', buff, i, dcs.len), countdown := dcs.len))
    else if c == B('#') then ([], st.(dectst := true))
    else if c == B('=') || c == B('>') then ([], st)
    else if c == B('(') then ([], st.(setcharset := true))
    else if c == B('7') then ([Save], st)
    else if c == B('8') then ([Restore], st)
    else if c == B('D') then ([Index], st)
    else if c == B('E') then ([NextLine], st)
    else if c == B('M') then ([ReverseIndex], st)
    else if c == B('g') then ([], st)
    else PutByte(c, st)
  }

  /** A single-byte glyph not preceded by `ESC`. */
  function Control(buff: seq<byte>, i: int, st: Scan): (r: (seq<Event>, Scan))
    requires 0 <= i < |buff|
  {
    var c := buff[i];
    if c == NUL then ([], st)
    else if c == ESC then
      ([], st.(pending := if At(buff, i + 1) == NUL then [ESC] else []))
    else if c == CR then ([CarriageReturn], st)
    else if c == BS then ([Backspace], st)
    else if c == FF || c == VT || c == LF then ([LineFeed], st)
    else if c == TAB then ([Tab], st)
    else if c == BEL || c == SI then ([], st)
    else PutByte(c, st)
  }

  /** One glyph of the chunk, the one starting at position `i`: at most
      one command, and the decoder's next state. */
  function Step(buff: seq<byte>, i: int, st: Scan): (r: (seq<Event>, Scan))
    requires 0 <= i < |buff|
    ensures |r.0| <= 1
    ensures st.countdown > 0 ==> r == ([], st.(countdown := st.countdown - 1))
    ensures st.countdown == 0 ==> r.1.last == buff[i]
  {
    var c := buff[i];
    var n := GlyphLen(c);
    if st.countdown > 0 then ([], st.(countdown := st.countdown - 1))
    else
      var prev := st.last;
      var st := st.(last := c);
      if n > 1 then PutGlyph(buff, i, n, st)
      else if st.dectst then (if c == B('8') then [Align] else [], st.(dectst := false))
      else if st.setcharset then ([], st.(setcharset := false))
      else if prev == ESC then EscCommand(buff, i, st)
      else Control(buff, i, st)
  }

  /** The commands of the glyphs from position `i` to the end of the chunk,
      and the state the decoder ends in. The bytes of an escape sequence
      are skipped one byte at a time, since its lexer counts its length in
      bytes; everything else is taken a glyph at a time. */
  function Run(buff: seq<byte>, i: nat, st: Scan): (r: (seq<Event>, Scan))
    decreases |buff| - i
  {
    if i >= |buff| then ([], st)
    else
      var step := Step(buff, i, st);
      var next := if st.countdown > 0 then i + 1 else i + GlyphLen(buff[i]);
      var rest := Run(buff, next, step.1);
      (step.0 + rest.0, rest.1)
  }

  /** The commands a chunk yields and what it leaves for the next one. */
  datatype Decoded = Decoded(events: seq<Event>, carry: Carry)

  function Decode(c: Carry, data: seq<byte>): (r: Decoded)
    ensures r.carry.esc == Chunk(c, data).1.esc
  {
    var chunk := Chunk(c, data);
    var run := Run(chunk.0, 0, Start(chunk.1));
    Decoded(run.0, Carry(chunk.1.esc, run.1.pending, run.1.utf8))
  }

  /** The commands of a sequence of chunks, each decoded with what the one
      before it left. */
  function DecodeAll(c: Carry, chunks: seq<seq<byte>>): (r: Decoded)
    decreases |chunks|
  {
    if chunks == [] then Decoded([], c)
    else
      var first := Decode(c, chunks[0]);
      var rest := DecodeAll(first.carry, chunks[1..]);
      Decoded(first.events + rest.events, rest.carry)
  }

  // ------------------------------------------------------------ properties

  /** An ESC that ends a chunk is not lost: it is decoded as the first
      byte of the next chunk, so the two chunks decode the bytes they would
      have decoded together. */
  lemma EscCarried(c: Carry, x: seq<byte>, y: seq<byte>)
    requires Chunk(c, x).1.esc
    ensures Prepend(Chunk(c, x).1, y).0 == [ESC] + y
    ensures Chunk(c, x).0 + Prepend(Chunk(c, x).1, y).0 == Prepend(c, x).0 + y
  {
    var b := Prepend(c, x).0;
    assert b == b[..|b| - 1] + [ESC];
  }

  /** A chunk that does not end in ESC, decoded with nothing carried, is
      scanned whole from a fresh start. */
  lemma DecodeFresh(x: seq<byte>)
    requires |x| == 0 || x[|x| - 1] != ESC
    ensures var r := Run(x, 0, Start(NoCarry));
      Decode(NoCarry, x) == Decoded(r.0, Carry(false, r.1.pending, r.1.utf8))
  {
    assert Prepend(NoCarry, x).0 == x;
    assert Chunk(NoCarry, x) == (x, NoCarry);
  }

  /** A well-formed multi-byte glyph: a lead byte giving its length, then
      continuation bytes. */
  predicate WholeGlyph(g: seq<byte>) {
    2 <= |g| && GlyphLen(g[0]) == |g|
    && forall j :: 1 <= j < |g| ==> 0x80 <= g[j] < 0xC0
  }

  /** A multi-byte glyph arriving in one chunk is written at once. */
  lemma GlyphWhole(g: seq<byte>)
    requires WholeGlyph(g)
    ensures Decode(NoCarry, g) == Decoded([Put(g)], NoCarry)
  {
    DecodeFresh(g);
    var st := Start(NoCarry).(last := g[0]);
    assert g[0..|g|] == g;
    assert !Cut(g, 0, |g|);
    assert Step(g, 0, Start(NoCarry)) == ([Put(g)], st);
    assert Run(g, 0 + GlyphLen(g[0]), st) == ([], st);
    assert [Put(g)] + [] == [Put(g)];
  }

  /** The first bytes of a multi-byte glyph at the end of a chunk are
      carried, and nothing is written. */
  lemma GlyphStart(x: seq<byte>, n: nat)
    requires 1 <= |x| < n == GlyphLen(x[0]) && x[|x| - 1] != ESC
    ensures Decode(NoCarry, x) == Decoded([], Carry(false, [], x))
  {
    DecodeFresh(x);
    var st := Start(NoCarry).(last := x[0], utf8 := x);
    assert x[0..] == x;
    assert Cut(x, 0, n);
    assert Step(x, 0, Start(NoCarry)) == ([], st);
    assert Run(x, n, st) == ([], st);
  }

  /** A multi-byte glyph split between two chunks at any byte: the first
      chunk writes nothing and carries the glyph's first bytes, the second
      writes the whole glyph, just as the unsplit chunk does. */
  lemma GlyphSplit(g: seq<byte>, k: int)
    requires WholeGlyph(g) && 1 <= k < |g|
    ensures Decode(NoCarry, g[..k]) == Decoded([], Carry(false, [], g[..k]))
    ensures Decode(Carry(false, [], g[..k]), g[k..]) == Decode(NoCarry, g) == Decoded([Put(g)], NoCarry)
  {
    GlyphStart(g[..k], |g|);
    GlyphResumed(g, k);
    GlyphWhole(g);
  }

  /** The rest of a glyph, behind its carried first bytes, is the whole
      glyph again. */
  lemma GlyphResumed(g: seq<byte>, k: int)
    requires 1 <= k < |g|
    ensures Decode(Carry(false, [], g[..k]), g[k..]) == Decode(NoCarry, g)
  {
    var x := g[..k];
    assert x + g[k..] == g;
    assert Prepend(Carry(false, [], x), g[k..]) == (g, NoCarry);
    assert Prepend(NoCarry, g) == (g, NoCarry);
    SamePrepend(Carry(false, [], x), g[k..], NoCarry, g);
  }

  /** Decoding depends only on the bytes and leftovers after the
      leftovers are prepended. */
  lemma SamePrepend(c1: Carry, d1: seq<byte>, c2: Carry, d2: seq<byte>)
    requires Prepend(c1, d1) == Prepend(c2, d2)
    ensures Decode(c1, d1) == Decode(c2, d2)
  {
    assert Chunk(c1, d1) == Chunk(c2, d2);
  }

  /** Bytes still to be skipped produce nothing: the countdown runs over
      them until it reaches zero or the chunk ends, whatever they hold. */
  lemma {:induction false} Skipped(buff: seq<byte>, i: nat, st: Scan)
    requires i <= |buff|
    ensures i + st.countdown <= |buff| ==> Run(buff, i, st) == Run(buff, i + st.countdown, st.(countdown := 0))
    ensures i + st.countdown > |buff| ==> Run(buff, i, st) == ([], st.(countdown := st.countdown - (|buff| - i)))
    decreases st.countdown
  {
    if st.countdown == 0 {
      assert st.(countdown := 0) == st;
    } else if i < |buff| {
      var st' := st.(countdown := st.countdown - 1);
      assert Step(buff, i, st) == ([], st');
      Skipped(buff, i + 1, st');
      assert [] + Run(buff, i + 1, st').0 == Run(buff, i + 1, st').0;
      assert st'.(countdown := 0) == st.(countdown := 0);
    }
  }

  /** Bytes that may stand between `ESC [` and the final byte. */
  predicate Params(p: seq<byte>) {
    forall j :: 0 <= j < |p| ==> IsParam(p[j])
  }

  /** Every byte of a parameter run is a parameter byte up to the end. */
  lemma ParamsEnd(p: seq<byte>, f: seq<byte>)
    requires Params(p) && (f == [] || !IsParam(f[0]))
    ensures ParamEnd(p + f, 0) == |p|
  {
    var s := p + f;
    assert forall k :: 0 <= k < |p| ==> At(s, k) == p[k];
    assert f != [] ==> At(s, |p|) == f[0];
  }

  /** The first two glyphs of an escape sequence after a chunk start:
      the ESC is remembered, and the byte after it is read as an escape
      command. */
  lemma EscStart(d: seq<byte>)
    requires 2 <= |d| && d[0] == ESC && d[1] != NUL && d[1] < 0x80
    ensures Step(d, 0, Start(NoCarry)) == ([], Start(NoCarry).(last := ESC))
    ensures Run(d, 0, Start(NoCarry)) == Run(d, 1, Start(NoCarry).(last := ESC))
    ensures Step(d, 1, Start(NoCarry).(last := ESC)) == EscCommand(d, 1, Start(NoCarry).(last := d[1]))
  {
    var st1 := Start(NoCarry).(last := ESC);
    assert At(d, 1) == d[1];
    assert Step(d, 0, Start(NoCarry)) == ([], st1);
    assert [] + Run(d, 1, st1).0 == Run(d, 1, st1).0;
  }

  /** A control sequence `ESC [ p f`, parameter bytes `p` and final byte
      `f`. */
  function CsiBytes(p: seq<byte>, f: byte): seq<byte> {
    [ESC, 0x5B] + p + [f]
  }

  /** A whole control sequence in one chunk yields exactly one command,
      the one the CSI lexer reads from it, and leaves nothing over. */
  lemma CsiWhole(p: seq<byte>, f: byte)
    requires Params(p) && IsFinal(f)
    ensures Decode(NoCarry, CsiBytes(p, f)) == Decoded([CsiEvent(Csi(p + [f]))], NoCarry)
    ensures Csi(p + [f]).complete && Csi(p + [f]).command == Ch(f)
  {
    var d := CsiBytes(p, f);
    CsiComplete(p, f);
    DecodeFresh(d);
    CsiWholeRun(p, f);
  }

  /** The lexer reads `p f` as one complete sequence spanning it all. */
  lemma CsiComplete(p: seq<byte>, f: byte)
    requires Params(p) && IsFinal(f)
    ensures Csi(p + [f]).complete && Csi(p + [f]).command == Ch(f) && Csi(p + [f]).len == |p| + 1
  {
    var rest := p + [f];
    ParamsEnd(p, [f]);
    CsiScan(rest);
    assert At(rest, |p|) == f;
  }

  /** The scan of a whole control sequence: one command, then its bytes
      skipped to the end of the chunk. */
  lemma CsiWholeRun(p: seq<byte>, f: byte)
    requires Params(p) && IsFinal(f)
    ensures Run(CsiBytes(p, f), 0, Start(NoCarry))
         == ([CsiEvent(Csi(p + [f]))], Start(NoCarry).(last := 0x5B))
  {
    var d := CsiBytes(p, f);
    assert d[2..] == p + [f];
    CsiComplete(p, f);
    var csi := Csi(p + [f]);
    EscStart(d);
    var st2 := Start(NoCarry).(last := 0x5B, countdown := |p| + 1);
    assert Step(d, 1, Start(NoCarry).(last := ESC)) == ([CsiEvent(csi)], st2);
    Skipped(d, 2, st2);
    assert Run(d, 2 + st2.countdown, st2.(countdown := 0)) == ([], st2.(countdown := 0));
    assert [CsiEvent(csi)] + [] == [CsiEvent(csi)];
  }

  /** Parameter bytes alone make an unfinished control sequence that
      spans them all. */
  lemma CsiCut(q: seq<byte>)
    requires Params(q)
    ensures !Csi(q).complete && Csi(q).len == |q|
  {
    ParamsEnd(q, []);
    assert q + [] == q;
    CsiScan(q);
  }

  /** What the first part of an escape sequence split after `k` bytes
      leaves over: the lone ESC, or the sequence so far. */
  function SplitCarry(d: seq<byte>, k: nat): Carry
    requires k <= |d|
  {
    if k == 1 then Carry(true, [], []) else Carry(false, d[..k], [])
  }

  /** `ESC [` and some parameter bytes at the end of a chunk yield nothing
      and are carried whole. */
  lemma CsiPrefix(x: seq<byte>)
    requires 2 <= |x| && x[0] == ESC && x[1] == 0x5B && Params(x[2..])
    ensures Decode(NoCarry, x) == Decoded([], Carry(false, x, []))
  {
    assert x[|x| - 1] != ESC by {
      if |x| > 2 {
        assert x[|x| - 1] == x[2..][|x| - 3];
      }
    }
    DecodeFresh(x);
    CsiPrefixRun(x);
  }

  /** The scan of `ESC [` and parameter bytes: the `[` saves the whole
      sequence and skips its bytes, and the chunk ends with two still to
      skip. */
  lemma CsiPrefixRun(x: seq<byte>)
    requires 2 <= |x| && x[0] == ESC && x[1] == 0x5B && Params(x[2..])
    ensures Run(x, 0, Start(NoCarry)) == ([], Start(NoCarry).(last := 0x5B, pending := x, countdown := 2))
  {
    EscStart(x);
    var st2 := Start(NoCarry).(last := 0x5B, pending := x, countdown := |x|);
    CsiPrefixStep(x);
    Skipped(x, 2, st2);
    var none: seq<Event> := [];
    assert none + none == none;
  }

  /** The `[` of an unfinished control sequence saves it whole. */
  lemma CsiPrefixStep(x: seq<byte>)
    requires 2 <= |x| && x[0] == ESC && x[1] == 0x5B && Params(x[2..])
    ensures Step(x, 1, Start(NoCarry).(last := ESC)) == ([], Start(NoCarry).(last := 0x5B, pending := x, countdown := |x|))
  {
    EscStart(x);
    CsiCut(x[2..]);
    assert Saved('[', x, 1, |x| - 2) == x;
  }

  /** A control sequence split between two chunks at any byte: the first
      chunk yields nothing and carries what it has seen, and the second
      yields the same single command as the unsplit sequence. */
  lemma CsiSplit(p: seq<byte>, f: byte, k: nat)
    requires Params(p) && IsFinal(f) && 1 <= k < |CsiBytes(p, f)|
    ensures var d := CsiBytes(p, f);
      Decode(NoCarry, d[..k]) == Decoded([], SplitCarry(d, k))
    ensures var d := CsiBytes(p, f);
      Decode(SplitCarry(d, k), d[k..]) == Decode(NoCarry, d) == Decoded([CsiEvent(Csi(p + [f]))], NoCarry)
  {
    CsiWhole(p, f);
    SplitResumed(CsiBytes(p, f), k);
    CsiHead(p, f, k);
  }

  /** The first part of a split control sequence yields nothing and is
      carried. */
  lemma CsiHead(p: seq<byte>, f: byte, k: nat)
    requires Params(p) && IsFinal(f) && 1 <= k < |CsiBytes(p, f)|
    ensures Decode(NoCarry, CsiBytes(p, f)[..k]) == Decoded([], SplitCarry(CsiBytes(p, f), k))
  {
    var d := CsiBytes(p, f);
    var x := d[..k];
    if k == 1 {
      assert Prepend(NoCarry, x).0 == [ESC];
      assert Chunk(NoCarry, x) == ([], Carry(true, [], []));
    } else {
      assert x[2..] == p[..k - 2];
      CsiPrefix(x);
    }
  }

  /** The second part of a split escape sequence, behind what the first
      part carried, is the whole sequence again. */
  lemma SplitResumed(d: seq<byte>, k: nat)
    requires 1 <= k < |d| && d[0] == ESC
    ensures Decode(SplitCarry(d, k), d[k..]) == Decode(NoCarry, d)
  {
    assert d[..k] + d[k..] == d;
    assert Prepend(NoCarry, d) == (d, NoCarry);
    if k == 1 {
      assert d[..1] == [ESC];
      assert Prepend(Carry(true, [], []), d[k..]) == (d, NoCarry);
    } else {
      assert Prepend(Carry(false, d[..k], []), d[k..]) == (d, NoCarry);
    }
    SamePrepend(SplitCarry(d, k), d[k..], NoCarry, d);
  }

  /** `ESC [ 1 ; 2 H`: move the cursor to row 1, column 2. */
  const CursorTo12: seq<byte> := [ESC, 0x5B, 0x31, 0x3B, 0x32, 0x48]

  const CursorTo12Csi: CsiSeq := CsiSeq([1, 2], 'H', 4, true, MODE_NONE)

  /** `ESC [ 1 ; 2 H` split anywhere moves the cursor once, to row 1 and
      column 2. */
  lemma CursorTo12Split(k: nat)
    requires 1 <= k < |CursorTo12|
    ensures Decode(NoCarry, CursorTo12[..k]) == Decoded([], SplitCarry(CursorTo12, k))
    ensures Decode(SplitCarry(CursorTo12, k), CursorTo12[k..]) == Decode(NoCarry, CursorTo12)
         == Decoded([CsiEvent(CursorTo12Csi)], NoCarry)
  {
    var p: seq<byte> := [0x31, 0x3B, 0x32];
    assert CursorTo12 == CsiBytes(p, 0x48);
    assert Params(p);
    assert p + [0x48] == CursorTo12[2..];
    CursorTo12Args();
    CsiSplit(p, 0x48, k);
  }

  /** The parameters `1;2H` scan as the arguments 1 and 2 and the final
      byte `H`. */
  lemma CursorTo12Args()
    ensures Csi(CursorTo12[2..]) == CursorTo12Csi
  {
    var s := CursorTo12[2..];
    assert s == [0x31, 0x3B, 0x32, 0x48];
    assert s[0..1] == [0x31] && DecimalValue([0x31]) == 1;
    assert s[2..3] == [0x32] && DecimalValue([0x32]) == 2;
    assert [] + [DecimalValue(s[0..1])] == [1];
    assert [1] + [DecimalValue(s[2..3])] == [1, 2];
    assert CsiParam(s, 3, MODE_NONE, [1, 2]) == CursorTo12Csi;
    assert CsiDelims(s, 3, MODE_NONE, [1, 2]) == CursorTo12Csi;
    assert CsiDigits(s, 2, 2, MODE_NONE, [1]) == CursorTo12Csi;
    assert CsiParam(s, 2, MODE_NONE, [1]) == CursorTo12Csi;
    assert CsiDelims(s, 2, MODE_NONE, [1]) == CursorTo12Csi;
    assert CsiDelims(s, 1, MODE_NONE, [1]) == CursorTo12Csi;
    assert CsiDigits(s, 0, 0, MODE_NONE, []) == CursorTo12Csi;
    assert CsiParam(s, 0, MODE_NONE, []) == CursorTo12Csi;
    assert CsiLead(s, 0, MODE_NONE, []) == CursorTo12Csi;
  }

  // ------------------------------------------------ operating-system commands

  /** Argument text an operating-system command can carry: anything but
      NUL, BEL and ESC. */
  predicate OscText(t: seq<byte>) {
    forall j :: 0 <= j < |t| ==> t[j] != NUL && t[j] != BEL && t[j] != ESC
  }

  /** The bytes after `ESC ]` of `OSC n ; t BEL`. */
  function OscBody(n: nat, t: seq<byte>): seq<byte> {
    Decimal(n) + [B(';')] + t + [BEL]
  }

  /** The operating-system command `ESC ] n ; t BEL`. */
  function OscBytes(n: nat, t: seq<byte>): seq<byte> {
    [ESC, B(']')] + OscBody(n, t)
  }

  /** The lexer reads `n ; t BEL` as command `n` with the argument `; t`,
      complete and spanning every byte. */
  lemma {:induction false} OscComplete(n: nat, t: seq<byte>)
    requires OscText(t)
    ensures Osc(OscBody(n, t)) == OscSeq(n, |OscBody(n, t)|, [B(';')] + t, true)
  {
    var d := Decimal(n);
    var s := OscBody(n, t);
    var m := |d| + 1 + |t|;
    assert forall k :: 0 <= k < |d| ==> s[k] == d[k];
    DigitEndIs(s, 0, |d|);
    assert forall k :: |d| < k < m ==> s[k] == t[k - |d| - 1];
    TextEndIs(s, |d|, m);
    OscScan(s);
    assert s[..|d|] == d;
    assert s[|d|..m] == [B(';')] + t;
  }

  /** A proper prefix of such a command's body, cut in its number, at its
      `;` or in its text, is read as unfinished and spans every byte. */
  lemma {:induction false} OscCut(n: nat, t: seq<byte>, l: nat)
    requires OscText(t) && l < |OscBody(n, t)|
    ensures !Osc(OscBody(n, t)[..l]).complete && Osc(OscBody(n, t)[..l]).len == l
  {
    var d := Decimal(n);
    var s := OscBody(n, t)[..l];
    if l <= |d| {
      assert forall k :: 0 <= k < l ==> s[k] == d[k];
      DigitEndIs(s, 0, l);
    } else {
      assert forall k :: 0 <= k < |d| ==> s[k] == d[k];
      DigitEndIs(s, 0, |d|);
      assert forall k :: |d| < k < l ==> s[k] == t[k - |d| - 1];
      TextEndIs(s, |d|, l);
    }
    OscScan(s);
  }

  /** A whole operating-system command in one chunk yields exactly one
      command, the one the OSC lexer reads from it, whatever bytes its text
      holds, and leaves nothing over. */
  lemma OscWhole(n: nat, t: seq<byte>)
    requires OscText(t)
    ensures Decode(NoCarry, OscBytes(n, t)) == Decoded([OscEvent(Osc(OscBody(n, t)))], NoCarry)
    ensures Osc(OscBody(n, t)) == OscSeq(n, |OscBody(n, t)|, [B(';')] + t, true)
  {
    var d := OscBytes(n, t);
    DecodeFresh(d);
    OscWholeRun(n, t);
  }

  /** The scan of a whole operating-system command: one command, then its
      bytes skipped to the end of the chunk. */
  lemma OscWholeRun(n: nat, t: seq<byte>)
    requires OscText(t)
    ensures Run(OscBytes(n, t), 0, Start(NoCarry))
         == ([OscEvent(Osc(OscBody(n, t)))], Start(NoCarry).(last := B(']')))
    ensures Osc(OscBody(n, t)) == OscSeq(n, |OscBody(n, t)|, [B(';')] + t, true)
  {
    var d := OscBytes(n, t);
    var body := OscBody(n, t);
    assert d[2..] == body;
    OscComplete(n, t);
    EscStart(d);
    var st2 := Start(NoCarry).(last := B(']'), countdown := |body|);
    assert Step(d, 1, Start(NoCarry).(last := ESC)) == ([OscEvent(Osc(body))], st2);
    Skipped(d, 2, st2);
    assert Run(d, 2 + st2.countdown, st2.(countdown := 0)) == ([], st2.(countdown := 0));
    assert [OscEvent(Osc(body))] + [] == [OscEvent(Osc(body))];
  }

  /** The first part of a split operating-system command yields nothing
      and is carried. */
  lemma OscHead(n: nat, t: seq<byte>, k: nat)
    requires OscText(t) && 1 <= k < |OscBytes(n, t)|
    ensures Decode(NoCarry, OscBytes(n, t)[..k]) == Decoded([], SplitCarry(OscBytes(n, t), k))
  {
    var d := OscBytes(n, t);
    var x := d[..k];
    if k == 1 {
      assert Prepend(NoCarry, x).0 == [ESC];
      assert Chunk(NoCarry, x) == ([], Carry(true, [], []));
    } else {
      var body := OscBody(n, t);
      assert x[k - 1] != ESC by {
        if k > 2 {
          assert x[k - 1] == body[k - 3];
          assert forall j :: 0 <= j < |Decimal(n)| ==> body[j] == Decimal(n)[j];
          assert forall j :: |Decimal(n)| < j < |body| - 1 ==> body[j] == t[j - |Decimal(n)| - 1];
        }
      }
      DecodeFresh(x);
      OscPrefixRun(n, t, k);
    }
  }

  /** The scan of the first `k` bytes of an operating-system command: the
      `]` saves them whole and skips them, and the chunk ends with two
      still to skip. */
  lemma OscPrefixRun(n: nat, t: seq<byte>, k: nat)
    requires OscText(t) && 2 <= k < |OscBytes(n, t)|
    ensures var x := OscBytes(n, t)[..k];
      Run(x, 0, Start(NoCarry)) == ([], Start(NoCarry).(last := B(']'), pending := x, countdown := 2))
  {
    var x := OscBytes(n, t)[..k];
    assert x[2..] == OscBody(n, t)[..k - 2];
    OscCut(n, t, k - 2);
    EscStart(x);
    var st2 := Start(NoCarry).(last := B(']'), pending := x, countdown := k);
    assert Saved(']', x, 1, k - 2) == x;
    assert Step(x, 1, Start(NoCarry).(last := ESC)) == ([], st2);
    Skipped(x, 2, st2);
    var none: seq<Event> := [];
    assert none + none == none;
  }

  /** An operating-system command split between two chunks at any byte:
      the first chunk yields nothing and carries what it has seen, and the
      second yields the same single command as the unsplit one. */
  lemma OscSplit(n: nat, t: seq<byte>, k: nat)
    requires OscText(t) && 1 <= k < |OscBytes(n, t)|
    ensures Decode(NoCarry, OscBytes(n, t)[..k]) == Decoded([], SplitCarry(OscBytes(n, t), k))
    ensures Decode(SplitCarry(OscBytes(n, t), k), OscBytes(n, t)[k..]) == Decode(NoCarry, OscBytes(n, t))
    ensures Decode(NoCarry, OscBytes(n, t))
         == Decoded([OscEvent(OscSeq(n, |OscBody(n, t)|, [B(';')] + t, true))], NoCarry)
  {
    OscWhole(n, t);
    SplitResumed(OscBytes(n, t), k);
    OscHead(n, t, k);
  }

  // ------------------------------------------------ device control strings

  /** Text a device control string can carry: anything but NUL and ESC. */
  predicate DcsText(t: seq<byte>) {
    forall j :: 0 <= j < |t| ==> t[j] != NUL && t[j] != ESC
  }

  /** The device control string `ESC P t ESC \`. */
  function DcsBytes(t: seq<byte>): seq<byte> {
    [ESC, B('P')] + t + [ESC, B('\\')]
  }

  /** A prefix of `t ESC \`, whole or not, is read as spanning every byte,
      and it is complete only when whole. */
  lemma DcsLexed(t: seq<byte>, l: nat)
    requires DcsText(t) && l <= |t| + 2
    ensures var s := (t + [ESC, B('\\')])[..l];
      Dcs(s).len == l && Dcs(s).complete == (l == |t| + 2)
  {
    var s := (t + [ESC, B('\\')])[..l];
    var e := if l <= |t| then l else |t|;
    assert forall k :: 0 <= k < e ==> s[k] == t[k];
    StringEndIs(s, 0, e);
    DcsScanSpec(s);
  }

  /** A whole device control string in one chunk yields nothing and
      leaves nothing over. */
  lemma DcsWhole(t: seq<byte>)
    requires DcsText(t)
    ensures Decode(NoCarry, DcsBytes(t)) == Decoded([], NoCarry)
  {
    DecodeFresh(DcsBytes(t));
    DcsWholeRun(t);
  }

  /** The scan of a whole device control string: its bytes are skipped to
      the end of the chunk. */
  lemma DcsWholeRun(t: seq<byte>)
    requires DcsText(t)
    ensures Run(DcsBytes(t), 0, Start(NoCarry)) == ([], Start(NoCarry).(last := B('P')))
  {
    var d := DcsBytes(t);
    assert d[2..] == (t + [ESC, B('\\')])[..|t| + 2];
    DcsLexed(t, |t| + 2);
    EscStart(d);
    var st2 := Start(NoCarry).(last := B('P'), countdown := |t| + 2);
    assert Step(d, 1, Start(NoCarry).(last := ESC)) == ([], st2);
    Skipped(d, 2, st2);
    var none: seq<Event> := [];
    assert none + none == none;
  }

  /** `ESC P` and the first `l` bytes of `t ESC \`, decoded from the
      start: nothing is yielded, the whole prefix is saved, and its bytes
      are skipped exactly to the end. */
  lemma DcsPrefixRun(t: seq<byte>, l: nat)
    requires DcsText(t) && l < |t| + 2
    ensures var x := DcsBytes(t)[..l + 2];
      Run(x, 0, Start(NoCarry)) == ([], Start(NoCarry).(last := B('P'), pending := x))
  {
    var x := DcsBytes(t)[..l + 2];
    assert x[2..] == (t + [ESC, B('\\')])[..l];
    DcsLexed(t, l);
    EscStart(x);
    var st2 := Start(NoCarry).(last := B('P'), pending := x, countdown := l);
    assert Saved('P', x, 1, l) == x;
    assert Step(x, 1, Start(NoCarry).(last := ESC)) == ([], st2);
    Skipped(x, 2, st2);
    var none: seq<Event> := [];
    assert none + none == none;
  }

  /** The first part of a split device control string yields nothing and
      is carried: the lone ESC, the string so far, or, when the cut falls
      between the closing ESC and `\`, the string less that ESC, with the
      ESC carried on its own. */
  lemma DcsHead(t: seq<byte>, k: nat)
    requires DcsText(t) && 1 <= k < |DcsBytes(t)|
    ensures var d := DcsBytes(t);
      Decode(NoCarry, d[..k])
      == Decoded([], if k == |d| - 1 then Carry(true, d[..k - 1], []) else SplitCarry(d, k))
  {
    var d := DcsBytes(t);
    var x := d[..k];
    if k == 1 {
      assert Prepend(NoCarry, x).0 == [ESC];
      assert Chunk(NoCarry, x) == ([], Carry(true, [], []));
    } else if k == |d| - 1 {
      var y := d[..k - 1];
      assert Prepend(NoCarry, x).0 == x == y + [ESC];
      assert Chunk(NoCarry, x) == (y, Carry(true, [], []));
      assert y == DcsBytes(t)[..|t| + 2];
      DcsPrefixRun(t, |t|);
    } else {
      assert x[k - 1] != ESC by {
        if k > 2 {
          assert x[k - 1] == t[k - 3];
        }
      }
      DecodeFresh(x);
      DcsPrefixRun(t, k - 2);
    }
  }

  /** What follows the carried part of a device control string cut just
      before its `\`: the ESC and the `\` close it, and nothing is left. */
  lemma DcsTail(t: seq<byte>)
    requires DcsText(t)
    ensures Decode(Carry(true, DcsBytes(t)[..|t| + 2], []), [B('\\')]) == Decoded([], NoCarry)
  {
    var x := DcsBytes(t)[..|t| + 2];
    var b: seq<byte> := [ESC, B('\\')];
    assert [ESC] + [B('\\')] == b;
    assert Prepend(Carry(true, x, []), [B('\\')]) == (b, Carry(false, x, []));
    assert Chunk(Carry(true, x, []), [B('\\')]) == (b, Carry(false, x, []));
    var st := Start(Carry(false, x, []));
    var st1 := st.(last := ESC, pending := []);
    assert Step(b, 0, st) == ([], st1);
    assert Step(b, 1, st1) == ([], st1.(last := B('\\')));
    assert Run(b, 2, st1.(last := B('\\'))) == ([], st1.(last := B('\\')));
    var none: seq<Event> := [];
    assert none + none == none;
    assert GlyphLen(b[1]) == 1 && GlyphLen(b[0]) == 1;
    assert Run(b, 1, st1) == ([], st1.(last := B('\\')));
    assert Run(b, 0, st) == ([], st1.(last := B('\\')));
  }

  /** A device control string split between two chunks at any byte: the
      first chunk yields nothing, and the second yields nothing and leaves
      nothing over, just as the unsplit string does. */
  lemma DcsSplit(t: seq<byte>, k: nat)
    requires DcsText(t) && 1 <= k < |DcsBytes(t)|
    ensures var first := Decode(NoCarry, DcsBytes(t)[..k]);
      && first.events == []
      && Decode(first.carry, DcsBytes(t)[k..]) == Decode(NoCarry, DcsBytes(t)) == Decoded([], NoCarry)
  {
    var d := DcsBytes(t);
    DcsWhole(t);
    DcsHead(t, k);
    if k == |d| - 1 {
      assert d[k..] == [B('\\')];
      DcsTail(t);
    } else {
      SplitResumed(d, k);
    }
  }

  // ------------------------------------------------- single-byte commands

  /** Each C0 control, alone in a chunk, decodes to the command the
      emulator performs for it: VT and FF are line feeds, and BEL and SI
      yield nothing. */
  lemma ControlsDecoded()
    ensures Decode(NoCarry, [CR]) == Decoded([CarriageReturn], NoCarry)
    ensures Decode(NoCarry, [BS]) == Decoded([Backspace], NoCarry)
    ensures Decode(NoCarry, [LF]) == Decode(NoCarry, [VT]) == Decode(NoCarry, [FF]) == Decoded([LineFeed], NoCarry)
    ensures Decode(NoCarry, [TAB]) == Decoded([Tab], NoCarry)
    ensures Decode(NoCarry, [BEL]) == Decode(NoCarry, [SI]) == Decoded([], NoCarry)
  {
    ControlByte(CR, [CarriageReturn]);
    ControlByte(BS, [Backspace]);
    ControlByte(LF, [LineFeed]);
    ControlByte(VT, [LineFeed]);
    ControlByte(FF, [LineFeed]);
    ControlByte(TAB, [Tab]);
    ControlByte(BEL, []);
    ControlByte(SI, []);
  }

  /** A byte `c` alone in a chunk, when `c` yields `evs` and leaves the
      decoder as it was. */
  lemma ControlByte(c: byte, evs: seq<Event>)
    requires c != NUL && c != ESC && c < 0x80
    requires Control([c], 0, Start(NoCarry).(last := c)) == (evs, Start(NoCarry).(last := c))
    ensures Decode(NoCarry, [c]) == Decoded(evs, NoCarry)
  {
    var d := [c];
    DecodeFresh(d);
    var st := Start(NoCarry).(last := c);
    assert Step(d, 0, Start(NoCarry)) == (evs, st);
    assert Run(d, 1, st) == ([], st);
    assert evs + [] == evs;
  }

  /** Each escape sequence the emulator acts on, alone in a chunk,
      decodes to its command; `ESC # 8` is the alignment test. */
  lemma EscapesDecoded()
    ensures Decode(NoCarry, [ESC, B('7')]) == Decoded([Save], NoCarry)
    ensures Decode(NoCarry, [ESC, B('8')]) == Decoded([Restore], NoCarry)
    ensures Decode(NoCarry, [ESC, B('D')]) == Decoded([Index], NoCarry)
    ensures Decode(NoCarry, [ESC, B('E')]) == Decoded([NextLine], NoCarry)
    ensures Decode(NoCarry, [ESC, B('M')]) == Decoded([ReverseIndex], NoCarry)
    ensures Decode(NoCarry, [ESC, B('#'), B('8')]) == Decoded([Align], NoCarry)
  {
    EscPair(B('7'), [Save]);
    EscPair(B('8'), [Restore]);
    EscPair(B('D'), [Index]);
    EscPair(B('E'), [NextLine]);
    EscPair(B('M'), [ReverseIndex]);
    EscThenByte(B('#'), B('8'), [Align]);
  }

  /** The escape sequences the emulator ignores, alone in a chunk, decode
      to nothing: the keypad modes, a character set choice, `ESC g` and
      the string terminator. */
  lemma EscapesIgnored()
    ensures Decode(NoCarry, [ESC, B('=')]) == Decode(NoCarry, [ESC, B('>')]) == Decoded([], NoCarry)
    ensures Decode(NoCarry, [ESC, B('('), B('B')]) == Decode(NoCarry, [ESC, B('g')]) == Decoded([], NoCarry)
    ensures Decode(NoCarry, [ESC, B('\\')]) == Decoded([], NoCarry)
  {
    EscPair(B('='), []);
    EscPair(B('>'), []);
    EscPair(B('g'), []);
    EscPair(B('\\'), []);
    EscThenByte(B('('), B('B'), []);
  }

  /** `ESC x`, alone in a chunk, when the escape command `x` yields `evs`
      and leaves the decoder as it was. */
  lemma EscPair(x: byte, evs: seq<Event>)
    requires x != NUL && x != ESC && x < 0x80
    requires EscCommand([ESC, x], 1, Start(NoCarry).(last := x)) == (evs, Start(NoCarry).(last := x))
    ensures Decode(NoCarry, [ESC, x]) == Decoded(evs, NoCarry)
  {
    var d := [ESC, x];
    DecodeFresh(d);
    EscStart(d);
    var st := Start(NoCarry).(last := x);
    assert Run(d, 2, st) == ([], st);
    assert evs + [] == evs;
  }

  /** `ESC x y`, alone in a chunk, when `x` is `#` or `(`: the byte after
      it yields `evs`, `[Align]` for `ESC # 8`. */
  lemma EscThenByte(x: byte, y: byte, evs: seq<Event>)
    requires (x == B('#') && evs == (if y == B('8') then [Align] else [])) || (x == B('(') && evs == [])
    requires y != NUL && y != ESC && y < 0x80
    ensures Decode(NoCarry, [ESC, x, y]) == Decoded(evs, NoCarry)
  {
    var d := [ESC, x, y];
    DecodeFresh(d);
    EscStart(d);
    var st1 := if x == B('#') then Start(NoCarry).(last := x, dectst := true) else Start(NoCarry).(last := x, setcharset := true);
    assert Step(d, 1, Start(NoCarry).(last := ESC)) == ([], st1);
    var st2 := Start(NoCarry).(last := y);
    assert Step(d, 2, st1) == (evs, st2);
    assert Run(d, 3, st2) == ([], st2);
    assert Run(d, 2, st1) == (evs + [], st2);
    assert Run(d, 1, Start(NoCarry).(last := ESC)) == ([] + (evs + []), st2);
    assert [] + (evs + []) == evs;
  }

  // ------------------------------------------------- glyph carry as written

  /** The emulator's test for a glyph at the end of a chunk of `len`
      bytes: it compares the glyph's end with the position of the
      terminating NUL, so a glyph that ends exactly at the end of the chunk
      is also put off. */
  predicate CutAsWritten(len: int, i: int, n: nat) {
    i + n >= len
  }

  /** The bytes it then saves: `n` bytes from the glyph's start, read from
      the chunk with its terminating NUL, whether or not the chunk has
      them. */
  function SavedAsWritten(buff: seq<byte>, i: int, n: nat): (r: seq<byte>)
    ensures |r| == n
  {
    Window(buff + [NUL], i, n)
  }

  /** The glyph `é` (0xC3 0xA9) as the emulator carries it. Arriving whole
      at the end of a chunk, it is not written but put off to the next
      chunk. Split after its first byte, the carried bytes are 0xC3 and the
      NUL terminator, and the next chunk then starts with the glyph
      0xC3 0x00 followed by a stray 0xA9: `é` is never written. */
  lemma GlyphCarryAsWritten()
    ensures CutAsWritten(|[0xC3 as byte, 0xA9]|, 0, GlyphLen(0xC3))
    ensures SavedAsWritten([0xC3], 0, GlyphLen(0xC3)) == [0xC3, NUL]
    ensures var next := SavedAsWritten([0xC3], 0, GlyphLen(0xC3)) + [0xA9];
      next[..GlyphLen(next[0])] == [0xC3, NUL] != [0xC3, 0xA9]
  {
    var saved := SavedAsWritten([0xC3], 0, GlyphLen(0xC3));
    assert saved[0] == 0xC3 && saved[1] == NUL;
  }

  // ------------------------------------------- sequence skipping as written

  /** `ESC ] 0 ; é BEL X`: a window title holding the two-byte glyph `é`
      (0xC3 0xA9), then the glyph `X`. */
  const TitleThenX: seq<byte> := [ESC, 0x5D, 0x30, 0x3B, 0xC3, 0xA9, BEL, 0x58]

  /** Where the emulator's countdown ends when it starts at position `i`
      with `n` to skip: it is decremented once per glyph, not once per
      byte. */
  function GlyphsSkipped(buff: seq<byte>, i: nat, n: nat): (r: nat)
    ensures i <= r
    decreases n
  {
    if n == 0 || i >= |buff| then i else GlyphsSkipped(buff, i + GlyphLen(buff[i]), n - 1)
  }

  /** The OSC lexer counts the title command as 5 bytes. As written, those
      5 are skipped as 5 glyphs; the two bytes of `é` count as one, so the
      skip runs on over `X` at position 7 to position 8, and `X` is never
      decoded. */
  lemma OscSkipAsWritten()
    ensures Osc(TitleThenX[2..]).complete && Osc(TitleThenX[2..]).len == 5
    ensures TitleThenX[7] == 0x58 && GlyphsSkipped(TitleThenX, 2, 5) == 8
  {
    var s := TitleThenX[2..];
    assert s == [0x30, 0x3B, 0xC3, 0xA9, BEL, 0x58];
    DigitEndIs(s, 0, 1);
    TextEndIs(s, 1, 4);
    OscScan(s);
    assert GlyphsSkipped(TitleThenX, 7, 1) == 8;
    assert GlyphsSkipped(TitleThenX, 6, 2) == 8;
    assert GlyphsSkipped(TitleThenX, 4, 3) == 8;
    assert GlyphsSkipped(TitleThenX, 3, 4) == 8;
  }

  /** After the title command's introducer, the skipped bytes run out
      right before `X`, which is written. */
  lemma TitleTail()
    ensures Run(TitleThenX, 2, Start(NoCarry).(last := B(']'), countdown := 5)).0 == [Put([0x58])]
  {
    var d := TitleThenX;
    var st2 := Start(NoCarry).(last := B(']'), countdown := 5);
    Skipped(d, 2, st2);
    var st7 := st2.(countdown := 0);
    assert Step(d, 7, st7) == ([Put([0x58])], st7.(last := 0x58));
    assert Run(d, 8, st7.(last := 0x58)) == ([], st7.(last := 0x58));
    assert Run(d, 7, st7).0 == [Put([0x58])];
  }

  /** Skipped a byte at a time, the title command ends right before `X`,
      which is written after it. */
  lemma OscThenGlyph()
    ensures Decode(NoCarry, TitleThenX).events == [OscEvent(Osc(TitleThenX[2..])), Put([0x58])]
  {
    var d := TitleThenX;
    var s := d[2..];
    DigitEndIs(s, 0, 1);
    TextEndIs(s, 1, 4);
    OscScan(s);
    DecodeFresh(d);
    EscStart(d);
    var osc := Osc(s);
    var st2 := Start(NoCarry).(last := B(']'), countdown := 5);
    assert Step(d, 1, Start(NoCarry).(last := ESC)) == ([OscEvent(osc)], st2);
    TitleTail();
    assert Run(d, 1, Start(NoCarry).(last := ESC)).0 == [OscEvent(osc)] + [Put([0x58])];
  }
}
