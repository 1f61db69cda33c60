/** Graphic rendition: the attributes stamped on every cell the emulator
    writes, and the SGR control sequence (`CSI ... m`) that changes them. */
module Rendition {

  /** Which colour space a foreground or background is drawn from. */
  datatype ColorKind = KindNone | Kind16 | Kind256 | KindRgb

  /** A colour: a palette index (the 16-colour codes keep their SGR number
      30-37) or a 24-bit triple. The packing of a triple into one machine
      word is not modelled. */
  datatype Color = Index(n: int) | Rgb(r: int, g: int, b: int)

  /** The attribute word of a cell: three style flags, the two "light"
      flags of the 16-colour palette, the two colour kinds, and the two
      colours. */
  datatype Attrs = Attrs(
    bold: bool,
    underline: bool,
    inverse: bool,
    lightFg: bool,
    lightBg: bool,
    fgKind: ColorKind,
    bgKind: ColorKind,
    fg: Color,
    bg: Color)

  const ZeroAttr: Attrs := Attrs(false, false, false, false, false, KindNone, KindNone, Index(0), Index(0))

  /** The flag word is zero: no style, no light bit and no colour kind set
      (the colour values themselves are not flags). */
  predicate FlagsZero(a: Attrs) {
    !a.bold && !a.underline && !a.inverse && !a.lightFg && !a.lightBg
    && a.fgKind == KindNone && a.bgKind == KindNone
  }

  /** Every colour agrees with its kind: none is index 0, the 16-colour
      palette uses the indices 30-37, 256 colours an index, RGB a triple. */
  predicate KindMatches(k: ColorKind, c: Color) {
    match k
    case KindNone => c == Index(0)
    case Kind16 => c.Index? && 30 <= c.n <= 37
    case Kind256 => c.Index?
    case KindRgb => c.Rgb?
  }

  predicate WellFormed(a: Attrs) {
    KindMatches(a.fgKind, a.fg) && KindMatches(a.bgKind, a.bg)
  }

  /** SGR codes with no parameters that the emulator acts on or
      deliberately ignores; any other code, apart from 38 and 48, makes it
      abandon the rest of the list. */
  predicate SimpleCode(cmd: int) {
    cmd in {0, 1, 2, 3, 4, 5, 6, 7, 8, 9, 22, 23, 24, 25, 26, 27, 28, 29, 39, 49}
    || 30 <= cmd <= 37 || 40 <= cmd <= 47 || 90 <= cmd <= 97 || 100 <= cmd <= 107
  }

  predicate ExtendedCode(cmd: int) {
    cmd == 38 || cmd == 48
  }

  /** The effect of one parameterless SGR code. */
  function Simple(cmd: int, a: Attrs): (r: Attrs)
    requires SimpleCode(cmd)
    ensures WellFormed(a) ==> WellFormed(r)
    ensures cmd == 0 ==> FlagsZero(r)
  {
    if cmd == 0 then ZeroAttr
    else if cmd == 1 then a.(bold := true)
    else if cmd == 4 then a.(underline := true)
    else if cmd == 7 then a.(inverse := true)
    else if cmd == 22 then a.(bold := false)
    else if cmd == 24 then a.(underline := false)
    else if cmd == 27 then a.(inverse := false)
    else if 30 <= cmd <= 37 then a.(lightFg := false, fgKind := Kind16, fg := Index(cmd))
    else if cmd == 39 then a.(fgKind := KindNone, fg := Index(0))
    else if 40 <= cmd <= 47 then a.(lightBg := false, bgKind := Kind16, bg := Index(cmd - 10))
    else if cmd == 49 then a.(bgKind := KindNone, bg := Index(0))
    else if 90 <= cmd <= 97 then a.(fgKind := Kind16, lightFg := true, fg := Index(cmd - 60))
    else if 100 <= cmd <= 107 then a.(bgKind := Kind16, lightBg := true, bg := Index(cmd - 70))
    else a   // dim, italic, blink, hidden, strike-through and their resets are ignored
  }

  /** Code 38 (foreground) or 48 (background) followed by `5;n` or
      `2;r;g;b`: sets the colour and kind and clears both light bits. */
  function Extended(a: Attrs, foreground: bool, kind: ColorKind, c: Color): (r: Attrs)
    ensures !r.lightFg && !r.lightBg
    ensures KindMatches(kind, c) && WellFormed(a) ==> WellFormed(r)
  {
    if foreground then a.(fgKind := kind, fg := c, lightFg := false, lightBg := false)
    else a.(bgKind := kind, bg := c, lightFg := false, lightBg := false)
  }

  /** The list is read to its end: every code is recognised and every 38
      or 48 finds its sub-parameters. */
  predicate SgrWhole(args: seq<int>)
    decreases |args|
  {
    if args == [] then true
    else if ExtendedCode(args[0]) then
      |args| >= 2 &&
      (if args[1] == 2 then |args| >= 5 && SgrWhole(args[5..])
       else if args[1] == 5 then |args| >= 3 && SgrWhole(args[3..])
       else SgrWhole(args[2..]))
    else SimpleCode(args[0]) && SgrWhole(args[1..])
  }

  /** The attributes after applying an SGR argument list from left to
      right; an unrecognised code stops the processing, keeping what the
      codes before it did, and so does a 38 or 48 whose sub-parameters are
      missing. A 38 or 48 followed by anything but 2 or 5 consumes that
      one sub-parameter and does nothing. */
  function Sgr(args: seq<int>, a: Attrs): Attrs
    decreases |args|
  {
    if args == [] then a
    else if ExtendedCode(args[0]) then
      var fore := args[0] == 38;
      if |args| < 2 then a
      else if args[1] == 2 then
        if |args| < 5 then a
        else Sgr(args[5..], Extended(a, fore, KindRgb, Rgb(args[2], args[3], args[4])))
      else if args[1] == 5 then
        if |args| < 3 then a
        else Sgr(args[3..], Extended(a, fore, Kind256, Index(args[2])))
      else Sgr(args[2..], a)
    else if SimpleCode(args[0]) then Sgr(args[1..], Simple(args[0], a))
    else a
  }

  /** `CSI m` with no argument is `CSI 0 m`. */
  function SgrArgs(args: seq<int>): seq<int> {
    if args == [] then [0] else args
  }

  /** Every SGR list keeps the colours consistent with their kinds. */
  lemma {:induction false} SgrWellFormed(args: seq<int>, a: Attrs)
    requires WellFormed(a)
    ensures WellFormed(Sgr(args, a))
    decreases |args|
  {
    if args == [] || (|args| < 2 && ExtendedCode(args[0])) {
    } else if ExtendedCode(args[0]) {
      var fore := args[0] == 38;
      if args[1] == 2 {
        if |args| >= 5 {
          SgrWellFormed(args[5..], Extended(a, fore, KindRgb, Rgb(args[2], args[3], args[4])));
        }
      } else if args[1] == 5 {
        if |args| >= 3 {
          SgrWellFormed(args[3..], Extended(a, fore, Kind256, Index(args[2])));
        }
      } else {
        SgrWellFormed(args[2..], a);
      }
    } else if SimpleCode(args[0]) {
      SgrWellFormed(args[1..], Simple(args[0], a));
    }
  }

  /** Splitting an SGR list after a whole prefix does not change its
      effect: `CSI 1 m CSI 31 m` does what `CSI 1;31 m` does. */
  lemma {:induction false} SgrConcat(xs: seq<int>, ys: seq<int>, a: Attrs)
    requires SgrWhole(xs)
    ensures Sgr(xs + ys, a) == Sgr(ys, Sgr(xs, a))
    decreases |xs|
  {
    if xs != [] {
      assert (xs + ys)[0] == xs[0];
      if ExtendedCode(xs[0]) {
        var fore := xs[0] == 38;
        assert (xs + ys)[1] == xs[1];
        if xs[1] == 2 {
          assert (xs + ys)[5..] == xs[5..] + ys;
          assert (xs + ys)[2] == xs[2] && (xs + ys)[3] == xs[3] && (xs + ys)[4] == xs[4];
          SgrConcat(xs[5..], ys, Extended(a, fore, KindRgb, Rgb(xs[2], xs[3], xs[4])));
        } else if xs[1] == 5 {
          assert (xs + ys)[3..] == xs[3..] + ys;
          assert (xs + ys)[2] == xs[2];
          SgrConcat(xs[3..], ys, Extended(a, fore, Kind256, Index(xs[2])));
        } else {
          assert (xs + ys)[2..] == xs[2..] + ys;
          SgrConcat(xs[2..], ys, a);
        }
      } else {
        assert (xs + ys)[1..] == xs[1..] + ys;
        SgrConcat(xs[1..], ys, Simple(xs[0], a));
      }
    } else {
      assert xs + ys == ys;
    }
  }

  /** A 0 anywhere after a whole prefix forgets everything the prefix did. */
  lemma SgrResetForgets(xs: seq<int>, ys: seq<int>, a: Attrs)
    requires SgrWhole(xs)
    ensures Sgr(xs + [0] + ys, a) == Sgr(ys, ZeroAttr)
  {
    SgrConcat(xs, [0] + ys, a);
    assert xs + [0] + ys == xs + ([0] + ys);
  }

  /** An unrecognised code leaves the attributes as the codes before it
      made them and ignores everything after it. */
  lemma SgrUnrecognised(xs: seq<int>, c: int, ys: seq<int>, a: Attrs)
    requires SgrWhole(xs) && !SimpleCode(c) && !ExtendedCode(c)
    ensures Sgr(xs + [c] + ys, a) == Sgr(xs, a)
  {
    SgrConcat(xs, [c] + ys, a);
    assert xs + [c] + ys == xs + ([c] + ys);
  }

  /** A 38 or 48 at the end of the list, its sub-parameters missing or cut
      short, stops the processing: the codes before it keep their effect. */
  lemma SgrCutShort(xs: seq<int>, ys: seq<int>, a: Attrs)
    requires SgrWhole(xs) && 1 <= |ys| <= 4 && ExtendedCode(ys[0])
    requires |ys| >= 2 ==> ys[1] == 2 || (ys[1] == 5 && |ys| == 2)
    ensures Sgr(xs + ys, a) == Sgr(xs, a)
  {
    SgrConcat(xs, ys, a);
  }

  /** The 16-colour codes: 30-37 and 90-97 select the same foreground
      index 30-37 and differ only in the light bit; likewise 40-47 and
      100-107 for the background. */
  lemma SgrSixteen(k: int, a: Attrs)
    requires 0 <= k < 8
    ensures Sgr([30 + k], a).fg == Sgr([90 + k], a).fg == Index(30 + k)
    ensures Sgr([30 + k], a).fgKind == Sgr([90 + k], a).fgKind == Kind16
    ensures !Sgr([30 + k], a).lightFg && Sgr([90 + k], a).lightFg
    ensures Sgr([40 + k], a).bg == Sgr([100 + k], a).bg == Index(30 + k)
    ensures Sgr([40 + k], a).bgKind == Sgr([100 + k], a).bgKind == Kind16
    ensures !Sgr([40 + k], a).lightBg && Sgr([100 + k], a).lightBg
  {
    assert [30 + k][1..] == [] && [90 + k][1..] == [] && [40 + k][1..] == [] && [100 + k][1..] == [];
  }
}
