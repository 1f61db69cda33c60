/** What the terminal sends to the shell for the keys the user presses and
    for pasted text. */
module Keys {
  import opened Bytes
  import opened Lexers

  type FnNumber = n: int | 1 <= n <= 12 witness 1

  /** The mouse buttons the editor reports; only the wheel means anything
      to the terminal. */
  datatype MouseButton = WheelUp | WheelDown | OtherButton

  /** A key event from the editor: the special keys the terminal encodes,
      a mouse event, or any other key by its code. */
  datatype Key =
    | ArrowUp | ArrowDown | ArrowRight | ArrowLeft
    | Home | End | Delete | PageUp | PageDown | ShiftTab | Menu
    | Fn(n: FnNumber)
    | Mouse(button: MouseButton)
    | Plain(code: int)

  /** The keys sent as `ESC`, then `O` in application-keys mode or `[`
      otherwise, then a letter. */
  predicate IsCursorKey(k: Key) {
    k.ArrowUp? || k.ArrowDown? || k.ArrowRight? || k.ArrowLeft? || k.Home? || k.End?
  }

  /** The letter that ends a cursor key's sequence. */
  function CursorLetter(k: Key): (c: char)
    requires IsCursorKey(k)
    ensures 'A' <= c <= 'H'
  {
    match k
    case ArrowUp => 'A'
    case ArrowDown => 'B'
    case ArrowRight => 'C'
    case ArrowLeft => 'D'
    case Home => 'H'
    case End => 'F'
  }

  /** The sequences of the function keys F1 to F12. */
  function FnBytes(n: FnNumber): (r: seq<byte>)
    ensures |r| >= 3 && r[0] == ESC
  {
    if n == 1 then [ESC] + Ascii("OP")
    else if n == 2 then [ESC] + Ascii("OQ")
    else if n == 3 then [ESC] + Ascii("OR")
    else if n == 4 then [ESC] + Ascii("OS")
    else if n == 5 then [ESC] + Ascii("[15~")
    else if n == 6 then [ESC] + Ascii("[17~")
    else if n == 7 then [ESC] + Ascii("[18~")
    else if n == 8 then [ESC] + Ascii("[19~")
    else if n == 9 then [ESC] + Ascii("[20~")
    else if n == 10 then [ESC] + Ascii("[21~")
    else if n == 11 then [ESC] + Ascii("[23~")
    else [ESC] + Ascii("[24~")
  }

  /** A wheel event stands for an arrow key; other mouse events are
      dropped. */
  function Unmouse(k: Key): (r: Key)
    ensures !r.Mouse? || r.button.OtherButton?
  {
    if k.Mouse? && k.button.WheelUp? then ArrowUp
    else if k.Mouse? && k.button.WheelDown? then ArrowDown
    else k
  }

  /** The bytes one key sends. Delete sends a bare `P`. */
  function KeyBytes(k: Key, appKeys: bool): (r: seq<byte>)
    ensures r == [] <==> Unmouse(k).Mouse?
    ensures |r| <= 5
  {
    var k := Unmouse(k);
    if k.Mouse? then []
    else if IsCursorKey(k) then [ESC, if appKeys then B('O') else B('['), B(CursorLetter(k))]
    else if k.Delete? then [B('P')]
    else if k.PageUp? then [ESC] + Ascii("[5~")
    else if k.PageDown? then [ESC] + Ascii("[6~")
    else if k.ShiftTab? then [ESC] + Ascii("[Z")
    else if k.Fn? then FnBytes(k.n)
    else if k.Menu? then [ESC] + Ascii("[29~")
    else [(k.code % 256) as byte]
  }

  /** The bytes a list of keys sends, in order. */
  function KeysBytes(ks: seq<Key>, appKeys: bool): seq<byte>
    decreases |ks|
  {
    if ks == [] then [] else KeyBytes(ks[0], appKeys) + KeysBytes(ks[1..], appKeys)
  }

  /** The bytes of the keys, key after key. */
  method Encode(ks: seq<Key>, appKeys: bool) returns (sent: seq<byte>)
    ensures sent == KeysBytes(ks, appKeys)
  {
    sent := [];
    for k := 0 to |ks|
      invariant sent == KeysBytes(ks[..k], appKeys)
    {
      KeysBytesAppend(ks[..k], [ks[k]], appKeys);
      assert ks[..k + 1] == ks[..k] + [ks[k]];
      sent := sent + KeyBytes(ks[k], appKeys);
    }
    assert ks[..|ks|] == ks;
  }

  const PasteStart: seq<byte> := [ESC] + Ascii("[200~")
  const PasteEnd: seq<byte> := [ESC] + Ascii("[201~")

  /** The text of a NUL-terminated string: everything before its first
      NUL. */
  function CString(s: seq<byte>): (r: seq<byte>)
    ensures r <= s
    ensures NUL !in r
    ensures |r| < |s| ==> s[|r|] == NUL
  {
    if s == [] || s[0] == NUL then [] else [s[0]] + CString(s[1..])
  }

  /** Pasted text, bracketed so that the shell can tell it from typing. */
  function PasteBytes(text: seq<byte>): (r: seq<byte>)
  {
    PasteStart + CString(text) + PasteEnd
  }

  // ------------------------------------------------------------ properties

  /** A cursor key sends three bytes in either mode, and the two modes
      differ only in the second: `O` in application-keys mode, `[`
      otherwise. */
  lemma CursorKeyModes(k: Key)
    requires IsCursorKey(k)
    ensures |KeyBytes(k, true)| == |KeyBytes(k, false)| == 3
    ensures KeyBytes(k, true)[1] == B('O') && KeyBytes(k, false)[1] == B('[')
    ensures forall i :: 0 <= i < 3 && i != 1 ==> KeyBytes(k, true)[i] == KeyBytes(k, false)[i]
  {
  }

  /** Turning the wheel up or down sends what the up or down arrow sends;
      any other mouse event sends nothing. */
  lemma WheelKeys(appKeys: bool)
    ensures KeyBytes(Mouse(WheelUp), appKeys) == KeyBytes(ArrowUp, appKeys)
    ensures KeyBytes(Mouse(WheelDown), appKeys) == KeyBytes(ArrowDown, appKeys)
    ensures KeyBytes(Mouse(OtherButton), appKeys) == []
  {
  }

  /** Every key other than the cursor keys sends the same bytes in both
      modes. */
  lemma ModeIndependent(k: Key)
    requires !IsCursorKey(Unmouse(k))
    ensures KeyBytes(k, true) == KeyBytes(k, false)
  {
  }

  /** Any other key sends one byte, which depends only on its code modulo
      256 and is the code itself when the code fits a byte. */
  lemma PlainKeyByte(code: int, appKeys: bool)
    ensures |KeyBytes(Plain(code), appKeys)| == 1
    ensures KeyBytes(Plain(code), appKeys) == KeyBytes(Plain(code + 256), appKeys)
    ensures 0 <= code < 256 ==> KeyBytes(Plain(code), appKeys)[0] as int == code
  {
  }

  /** The bytes of a list of keys are those of its parts. */
  lemma {:induction false} KeysBytesAppend(xs: seq<Key>, ys: seq<Key>, appKeys: bool)
    ensures KeysBytes(xs + ys, appKeys) == KeysBytes(xs, appKeys) + KeysBytes(ys, appKeys)
    decreases |xs|
  {
    if xs == [] {
      assert xs + ys == ys;
    } else {
      assert (xs + ys)[1..] == xs[1..] + ys;
      KeysBytesAppend(xs[1..], ys, appKeys);
    }
  }

  /** In the normal mode each cursor key is a complete control sequence
      for the emulator's own lexer, with its letter as the command and no
      arguments. */
  lemma CursorKeyIsCsi(k: Key)
    requires IsCursorKey(k)
    ensures var r := KeyBytes(k, false);
      r[..2] == [ESC, B('[')] && Csi(r[2..]) == CsiSeq([], CursorLetter(k), 1, true, MODE_NONE)
  {
    var r := KeyBytes(k, false);
    var s := r[2..];
    assert s == [B(CursorLetter(k))];
    assert Ch(s[0]) == CursorLetter(k);
    assert CsiParam(s, 0, MODE_NONE, []) == CsiSeq([], CursorLetter(k), 1, true, MODE_NONE);
  }

  /** A paste sends the start marker, the text up to its first NUL, and
      the end marker; text without a NUL goes through whole. */
  lemma PasteShape(text: seq<byte>)
    ensures var r := PasteBytes(text);
      && r[..|PasteStart|] == PasteStart
      && r[|r| - |PasteEnd|..] == PasteEnd
      && r[|PasteStart|..|r| - |PasteEnd|] == CString(text)
    ensures NUL !in text ==> PasteBytes(text) == PasteStart + text + PasteEnd
  {
    if NUL !in text {
      CStringWhole(text);
    }
  }

  lemma {:induction false} CStringWhole(s: seq<byte>)
    requires NUL !in s
    ensures CString(s) == s
    decreases |s|
  {
    if s != [] {
      assert s[0] in s;
      assert forall j :: 0 <= j < |s| - 1 ==> s[1..][j] == s[j + 1];
      CStringWhole(s[1..]);
      assert [s[0]] + s[1..] == s;
    }
  }

  /** The keys that send `ESC [ n ~`, and their number `n` (the numbering
      of the VT220 editing and function keys). */
  function TildeNumber(k: Key): (n: nat)
  {
    match k
    case PageUp => 5
    case PageDown => 6
    case Menu => 29
    case Fn(n) =>
      if n == 5 then 15 else if n == 6 then 17 else if n == 7 then 18
      else if n == 8 then 19 else if n == 9 then 20 else if n == 10 then 21
      else if n == 11 then 23 else if n == 12 then 24 else 0
    case _ => 0
  }

  predicate IsTildeKey(k: Key) {
    k.PageUp? || k.PageDown? || k.Menu? || (k.Fn? && k.n >= 5)
  }

  /** Page Up, Page Down, Menu and F5-F12 send, in either mode, a complete
      control sequence for the emulator's own lexer: command `~`, no mode,
      and the key's number as its only argument. */
  lemma TildeKeyIsCsi(k: Key, appKeys: bool)
    requires IsTildeKey(k)
    ensures var r := KeyBytes(k, appKeys);
      && 2 <= |r| && r[..2] == [ESC, B('[')]
      && Csi(r[2..]) == CsiSeq([TildeNumber(k)], '~', |r| - 2, true, MODE_NONE)
  {
    var r := KeyBytes(k, appKeys);
    var d := Decimal(TildeNumber(k));
    assert r == [ESC, B('[')] + d + [B('~')] by {
      TildeKeyBytes(k, appKeys);
    }
    assert r[2..] == d + [B('~')];
    NumberTildeCsi(TildeNumber(k));
  }

  /** The bytes of such a key are `ESC [`, its number in decimal, and `~`. */
  lemma TildeKeyBytes(k: Key, appKeys: bool)
    requires IsTildeKey(k)
    ensures KeyBytes(k, appKeys) == [ESC, B('[')] + Decimal(TildeNumber(k)) + [B('~')]
  {
    if k.Fn? {
      FnTildeBytes(k.n);
    } else {
      var d := Decimal(TildeNumber(k));
      if k.Menu? {
        assert |d| == 2 && d[0] == B('2') && d[1] == B('9');
      } else {
        assert |d| == 1 && d[0] as int == TildeNumber(k) + '0' as int;
      }
    }
  }

  /** The same for F5-F12. */
  lemma FnTildeBytes(n: FnNumber)
    requires n >= 5
    ensures FnBytes(n) == [ESC, B('[')] + Decimal(TildeNumber(Fn(n))) + [B('~')]
  {
    var m := TildeNumber(Fn(n));
    assert Decimal(m) == Decimal(m / 10) + [((m % 10) + '0' as int) as byte];
    assert Decimal(m / 10) == [((m / 10) + '0' as int) as byte];
  }

  /** `n ~` reads as a complete `~` command with `n` its only argument. */
  lemma NumberTildeCsi(n: nat)
    ensures var s := Decimal(n) + [B('~')];
      Csi(s) == CsiSeq([n], '~', |s|, true, MODE_NONE)
  {
    var d := Decimal(n);
    var s := d + [B('~')];
    assert forall k :: 0 <= k < |d| ==> s[k] == d[k];
    assert At(s, |d|) == B('~');
    assert ParamEnd(s, 0) == |d|;
    assert LeadEnd(s, 0) == 0;
    CsiScan(s);
    assert s[..|d|] == d;
    assert s[..0] == [];
    DecimalArgs(n);
  }

  /** The digits of `n` read as the one argument `n`. */
  lemma DecimalArgs(n: nat)
    ensures SpecArgs(Decimal(n)) == [n]
  {
    var d := Decimal(n);
    SpecArgsNoLead(d);
    DigitRunExact(d, |d|);
    assert d[|d|..] == [];
    assert d[..|d|] == d;
  }
}
