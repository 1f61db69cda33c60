/** The three escape-sequence lexers of the emulator (the `CSI`, `OSC` and
    `DCS` constructors). Each scans forward from the byte just after its
    introducer (`ESC [`, `ESC ]`, `ESC P`/`ESC k`) over a NUL-terminated
    window and reports whether a terminator was reached, how many bytes it
    scanned, and what it parsed. A constructor reads nothing but its own
    input and writes nothing but its own result, so each lexer is given
    here as a recursive function over the window. */
module Lexers {
  import opened Bytes

  const MODE_NONE: char := '\0'
  const MODE_RESET: char := '!'
  const MODE_PRIV: char := '?'
  const MODE_XTERM: char := '>'
  const NO_COMMAND: char := '\0'

  /** Result of scanning a control sequence: `len` counts the bytes that
      belong to it, the final byte included when it is `complete`. */
  datatype CsiSeq = CsiSeq(args: seq<int>, command: char, len: nat, complete: bool, mode: char)

  datatype OscSeq = OscSeq(command: int, len: nat, arg: seq<byte>, complete: bool)

  datatype DcsSeq = DcsSeq(len: nat, complete: bool, str: seq<byte>)

  /** Parameter delimiters; a leading `?`, `>` or `!` also selects a mode. */
  predicate IsDelim(c: byte) {
    c == B(';') || c == B(':') || c == B('?') || c == B(' ') || c == B('>') || c == B('!') || c == B('%')
  }

  /** Final bytes of a control sequence (section 5.4 of ECMA-48). */
  predicate IsFinal(c: byte) {
    0x40 <= c <= 0x7E
  }

  predicate IsParam(c: byte) {
    IsDigit(c) || IsDelim(c)
  }

  function MarkMode(c: byte, mode: char): char {
    if c == B('!') then MODE_RESET
    else if c == B('?') then MODE_PRIV
    else if c == B('>') then MODE_XTERM
    else mode
  }

  // ---------------------------------------------------------------- CSI

  function Csi(s: seq<byte>): CsiSeq {
    if At(s, 0) == NUL then CsiSeq([], NO_COMMAND, 0, false, MODE_NONE)
    else CsiLead(s, 0, MODE_NONE, [])
  }

  /** The run of delimiters right after `ESC [`: mode markers set the
      mode and each `;` pushes a zero argument. */
  function CsiLead(s: seq<byte>, i: nat, mode: char, args: seq<int>): CsiSeq
    requires i < |s| && s[i] != NUL
    decreases |s| - i, 3
  {
    if IsDelim(s[i]) then
      var mode' := MarkMode(s[i], mode);
      var args' := if s[i] == B(';') then args + [0] else args;
      if At(s, i + 1) == NUL then CsiSeq(args', NO_COMMAND, i + 1, false, mode')
      else CsiLead(s, i + 1, mode', args')
    else CsiParam(s, i, mode, args)
  }

  /** The head of the parameter loop: a final byte completes the sequence,
      an ESC aborts it without counting the ESC, any other byte that is not
      a digit aborts it counting that byte. */
  function CsiParam(s: seq<byte>, i: nat, mode: char, args: seq<int>): CsiSeq
    requires i < |s| && s[i] != NUL && !IsDelim(s[i])
    decreases |s| - i, 1
  {
    if IsFinal(s[i]) then CsiSeq(args, Ch(s[i]), i + 1, true, mode)
    else if s[i] == ESC then CsiSeq(args, NO_COMMAND, i, false, mode)
    else if !IsDigit(s[i]) then CsiSeq(args, NO_COMMAND, i + 1, false, mode)
    else CsiDigits(s, i, i, mode, args)
  }

  /** A run of digits `s[start..i+1]`; its value is pushed once a
      non-digit follows, and is lost if the window ends first. */
  function CsiDigits(s: seq<byte>, start: nat, i: nat, mode: char, args: seq<int>): CsiSeq
    requires start <= i < |s|
    requires forall k :: start <= k <= i ==> IsDigit(s[k])
    decreases |s| - i, 0
  {
    if At(s, i + 1) == NUL then CsiSeq(args, NO_COMMAND, i + 1, false, mode)
    else if IsDigit(s[i + 1]) then CsiDigits(s, start, i + 1, mode, args)
    else CsiDelims(s, i + 1, mode, args + [DecimalValue(s[start..i + 1])])
  }

  /** Interior delimiters are skipped without pushing anything. */
  function CsiDelims(s: seq<byte>, i: nat, mode: char, args: seq<int>): CsiSeq
    requires i < |s| && s[i] != NUL
    decreases |s| - i, 2
  {
    if IsDelim(s[i]) then
      if At(s, i + 1) == NUL then CsiSeq(args, NO_COMMAND, i + 1, false, mode)
      else CsiDelims(s, i + 1, mode, args)
    else CsiParam(s, i, mode, args)
  }

  /** The first position at or after `i` that does not hold a parameter
      byte (the terminating NUL at the latest). */
  function ParamEnd(s: seq<byte>, i: nat): (n: nat)
    requires i <= |s|
    ensures i <= n <= |s|
    ensures !IsParam(At(s, n))
    ensures forall k :: i <= k < n ==> IsParam(s[k])
    decreases |s| - i
  {
    if i == |s| || !IsParam(s[i]) then i else ParamEnd(s, i + 1)
  }

  /** The first position at or after `i` that does not hold a delimiter. */
  function LeadEnd(s: seq<byte>, i: nat): (n: nat)
    requires i <= |s|
    ensures i <= n <= |s|
    ensures !IsDelim(At(s, n))
    ensures forall k :: i <= k < n ==> IsDelim(s[k])
    decreases |s| - i
  {
    if i == |s| || !IsDelim(s[i]) then i else LeadEnd(s, i + 1)
  }

  /** What a scan that stops at position `n` reports: it is complete
      exactly when the byte there is a final byte, which becomes the
      command; a NUL or an ESC there is not counted in `len`, any other
      byte is. */
  ghost predicate CsiOutcome(r: CsiSeq, s: seq<byte>, n: nat)
    requires n <= |s|
  {
    && r.complete == IsFinal(At(s, n))
    && (r.complete ==> r.len == n + 1 && r.command == Ch(s[n]))
    && (!r.complete ==> r.command == NO_COMMAND && r.len == (if At(s, n) == NUL || At(s, n) == ESC then n else n + 1))
  }

  /** The last mode marker in a run of delimiters. */
  function LeadMode(lead: seq<byte>, mode: char): char
    decreases |lead|
  {
    if lead == [] then mode else LeadMode(lead[1..], MarkMode(lead[0], mode))
  }

  /** The number of `;` bytes in a run of delimiters. */
  function Semicolons(lead: seq<byte>): nat
    decreases |lead|
  {
    if lead == [] then 0 else (if lead[0] == B(';') then 1 else 0) + Semicolons(lead[1..])
  }

  /** The length of the run of digits at the start of `b`. */
  function DigitRun(b: seq<byte>): (k: nat)
    ensures k <= |b|
    ensures forall j :: 0 <= j < k ==> IsDigit(b[j])
    ensures k < |b| ==> !IsDigit(b[k])
    decreases |b|
  {
    if b == [] || !IsDigit(b[0]) then 0 else 1 + DigitRun(b[1..])
  }

  /** Reference reading of parameter bytes after the leading delimiters:
      every maximal run of digits is one argument; delimiters only
      separate them. */
  function Numbers(b: seq<byte>): seq<int>
    requires forall j :: 0 <= j < |b| ==> IsParam(b[j])
    decreases |b|
  {
    if b == [] then []
    else if IsDelim(b[0]) then Numbers(b[1..])
    else
      var k := DigitRun(b);
      [DecimalValue(b[..k])] + Numbers(b[k..])
  }

  /** Reference reading of the whole parameter string `b`: one zero per
      leading `;`, then one value per run of digits. */
  function SpecArgs(b: seq<byte>): seq<int>
    requires forall j :: 0 <= j < |b| ==> IsParam(b[j])
  {
    var l := LeadEnd(b, 0);
    seq(Semicolons(b[..l]), _ => 0) + Numbers(b[l..])
  }

  lemma {:induction false} CsiParamScan(s: seq<byte>, i: nat, mode: char, args: seq<int>)
    requires i < |s| && s[i] != NUL && !IsDelim(s[i])
    ensures CsiOutcome(CsiParam(s, i, mode, args), s, ParamEnd(s, i))
    ensures CsiParam(s, i, mode, args).mode == mode
    decreases |s| - i, 1
  {
    if IsDigit(s[i]) {
      CsiDigitsScan(s, i, i, mode, args);
    }
  }

  lemma {:induction false} CsiDigitsScan(s: seq<byte>, start: nat, i: nat, mode: char, args: seq<int>)
    requires start <= i < |s|
    requires forall k :: start <= k <= i ==> IsDigit(s[k])
    ensures CsiOutcome(CsiDigits(s, start, i, mode, args), s, ParamEnd(s, i))
    ensures CsiDigits(s, start, i, mode, args).mode == mode
    decreases |s| - i, 0
  {
    if At(s, i + 1) == NUL {
    } else if IsDigit(s[i + 1]) {
      CsiDigitsScan(s, start, i + 1, mode, args);
    } else {
      CsiDelimsScan(s, i + 1, mode, args + [DecimalValue(s[start..i + 1])]);
    }
  }

  lemma {:induction false} CsiDelimsScan(s: seq<byte>, i: nat, mode: char, args: seq<int>)
    requires i < |s| && s[i] != NUL
    ensures CsiOutcome(CsiDelims(s, i, mode, args), s, ParamEnd(s, i))
    ensures CsiDelims(s, i, mode, args).mode == mode
    decreases |s| - i, 2
  {
    if IsDelim(s[i]) {
      if At(s, i + 1) != NUL {
        CsiDelimsScan(s, i + 1, mode, args);
      }
    } else {
      CsiParamScan(s, i, mode, args);
    }
  }

  lemma {:induction false} CsiLeadScan(s: seq<byte>, i: nat, mode: char, args: seq<int>)
    requires i < |s| && s[i] != NUL
    ensures CsiOutcome(CsiLead(s, i, mode, args), s, ParamEnd(s, i))
    ensures CsiLead(s, i, mode, args).mode == LeadMode(s[i..LeadEnd(s, i)], mode)
    decreases |s| - i, 3
  {
    if IsDelim(s[i]) {
      var mode' := MarkMode(s[i], mode);
      var args' := if s[i] == B(';') then args + [0] else args;
      assert s[i..LeadEnd(s, i)][1..] == s[i + 1..LeadEnd(s, i)];
      if At(s, i + 1) != NUL {
        CsiLeadScan(s, i + 1, mode', args');
      }
    } else {
      CsiParamScan(s, i, mode, args);
    }
  }

  /** A leading run of `k` digits is read as one number. */
  lemma {:induction false} NumbersDigitRun(b: seq<byte>, k: nat)
    requires forall j :: 0 <= j < |b| ==> IsParam(b[j])
    requires 0 < k <= |b|
    requires forall j :: 0 <= j < k ==> IsDigit(b[j])
    requires k < |b| ==> !IsDigit(b[k])
    ensures Numbers(b) == [DecimalValue(b[..k])] + Numbers(b[k..])
  {
    DigitRunExact(b, k);
  }

  lemma {:induction false} CsiParamArgs(s: seq<byte>, i: nat, mode: char, args: seq<int>)
    requires i < |s| && s[i] != NUL && !IsDelim(s[i])
    ensures CsiParam(s, i, mode, args).complete ==>
              CsiParam(s, i, mode, args).args == args + Numbers(s[i..ParamEnd(s, i)])
    decreases |s| - i, 1
  {
    if IsDigit(s[i]) {
      CsiDigitsArgs(s, i, i, mode, args);
    }
  }

  lemma {:induction false} CsiDigitsArgs(s: seq<byte>, start: nat, i: nat, mode: char, args: seq<int>)
    requires start <= i < |s|
    requires forall k :: start <= k <= i ==> IsDigit(s[k])
    ensures CsiDigits(s, start, i, mode, args).complete ==>
              CsiDigits(s, start, i, mode, args).args == args + Numbers(s[start..ParamEnd(s, i)])
    decreases |s| - i, 0
  {
    if At(s, i + 1) == NUL {
    } else if IsDigit(s[i + 1]) {
      CsiDigitsArgs(s, start, i + 1, mode, args);
    } else {
      CsiDelimsArgs(s, i + 1, mode, args + [DecimalValue(s[start..i + 1])]);
      if CsiDigits(s, start, i, mode, args).complete {
        DigitsThenRest(s, start, i, ParamEnd(s, i));
      }
    }
  }

  /** A run of digits `s[start..i+1]` followed by a non-digit reads as its
      value, then the numbers after it. */
  lemma {:induction false} DigitsThenRest(s: seq<byte>, start: nat, i: nat, n: nat)
    requires start <= i < n <= |s| && i + 1 < |s|
    requires forall k :: start <= k <= i ==> IsDigit(s[k])
    requires !IsDigit(s[i + 1])
    requires forall k :: start <= k < n ==> IsParam(s[k])
    ensures Numbers(s[start..n]) == [DecimalValue(s[start..i + 1])] + Numbers(s[i + 1..n])
  {
    var b := s[start..n];
    assert b[..i + 1 - start] == s[start..i + 1];
    assert b[i + 1 - start..] == s[i + 1..n];
    NumbersDigitRun(b, i + 1 - start);
  }

  lemma {:induction false} CsiDelimsArgs(s: seq<byte>, i: nat, mode: char, args: seq<int>)
    requires i < |s| && s[i] != NUL
    ensures CsiDelims(s, i, mode, args).complete ==>
              CsiDelims(s, i, mode, args).args == args + Numbers(s[i..ParamEnd(s, i)])
    decreases |s| - i, 2
  {
    if IsDelim(s[i]) {
      if At(s, i + 1) != NUL {
        CsiDelimsArgs(s, i + 1, mode, args);
        var n := ParamEnd(s, i);
        assert s[i..n][1..] == s[i + 1..n];
      }
    } else {
      CsiParamArgs(s, i, mode, args);
    }
  }

  lemma {:induction false} CsiLeadArgs(s: seq<byte>, i: nat, mode: char, args: seq<int>)
    requires i < |s| && s[i] != NUL
    ensures CsiLead(s, i, mode, args).complete ==>
              CsiLead(s, i, mode, args).args == args + SpecArgs(s[i..ParamEnd(s, i)])
    decreases |s| - i, 3
  {
    var n := ParamEnd(s, i);
    if IsDelim(s[i]) {
      var args' := if s[i] == B(';') then args + [0] else args;
      if At(s, i + 1) != NUL {
        CsiLeadArgs(s, i + 1, MarkMode(s[i], mode), args');
        assert s[i..n][1..] == s[i + 1..ParamEnd(s, i + 1)];
        SpecArgsDelim(s[i..n]);
      }
    } else {
      CsiParamArgs(s, i, mode, args);
      SpecArgsNoLead(s[i..n]);
    }
  }

  /** A leading `;` contributes a zero, other leading delimiters nothing. */
  lemma {:induction false} SpecArgsDelim(b: seq<byte>)
    requires forall j :: 0 <= j < |b| ==> IsParam(b[j])
    requires |b| > 0 && IsDelim(b[0])
    ensures SpecArgs(b) == (if b[0] == B(';') then [0] else []) + SpecArgs(b[1..])
  {
    var l := LeadEnd(b, 0);
    LeadEndShift(b);
    var rest := b[1..];
    assert b[..l][1..] == rest[..l - 1];
    assert b[l..] == rest[l - 1..];
    ZerosCons(b[..l]);
  }

  /** The zeros of a lead are those of its first delimiter, then those of
      the rest. */
  lemma ZerosCons(lead: seq<byte>)
    requires |lead| > 0
    ensures seq(Semicolons(lead), _ => 0)
         == (if lead[0] == B(';') then [0] else []) + seq(Semicolons(lead[1..]), _ => 0)
  {
    var first := if lead[0] == B(';') then [0] else [];
    assert Semicolons(lead) == |first| + Semicolons(lead[1..]);
  }

  lemma {:induction false} SpecArgsNoLead(b: seq<byte>)
    requires forall j :: 0 <= j < |b| ==> IsParam(b[j])
    requires |b| == 0 || !IsDelim(b[0])
    ensures SpecArgs(b) == Numbers(b)
  {
    assert LeadEnd(b, 0) == 0;
    assert b[0..] == b;
  }

  lemma {:induction false} DigitRunExact(b: seq<byte>, k: nat)
    requires k <= |b|
    requires forall j :: 0 <= j < k ==> IsDigit(b[j])
    requires k < |b| ==> !IsDigit(b[k])
    ensures DigitRun(b) == k
    decreases |b|
  {
    if k > 0 {
      DigitRunExact(b[1..], k - 1);
    }
  }

  lemma {:induction false} LeadEndShift(b: seq<byte>)
    requires |b| > 0 && IsDelim(b[0])
    ensures LeadEnd(b, 0) >= 1
    ensures LeadEnd(b[1..], 0) == LeadEnd(b, 0) - 1
  {
    var l := LeadEnd(b, 0);
    LeadEndIs(b[1..], l - 1);
  }

  lemma {:induction false} LeadEndIs(b: seq<byte>, l: nat)
    requires l <= |b|
    requires forall k :: 0 <= k < l ==> IsDelim(b[k])
    requires !IsDelim(At(b, l))
    ensures LeadEnd(b, 0) == l
  {
    LeadEndFrom(b, 0, l);
  }

  lemma {:induction false} LeadEndFrom(b: seq<byte>, i: nat, l: nat)
    requires i <= l <= |b|
    requires forall k :: i <= k < l ==> IsDelim(b[k])
    requires !IsDelim(At(b, l))
    ensures LeadEnd(b, i) == l
    decreases l - i
  {
    if i < l {
      LeadEndFrom(b, i + 1, l);
    }
  }

  /** The CSI lexer completes exactly when the first byte after the
      parameter bytes is a final byte in 0x40-0x7E, which becomes the
      command; otherwise `len` stops before a NUL or ESC and just after
      any other offending byte. Its mode is the last of `?`, `>` and `!`
      in the leading run of delimiters, and its arguments are one zero per
      leading `;` followed by one value per run of digits, so `1;;2`
      reads as [1, 2]. */
  lemma {:induction false} CsiScan(s: seq<byte>)
    ensures CsiOutcome(Csi(s), s, ParamEnd(s, 0))
    ensures Csi(s).mode == LeadMode(s[..LeadEnd(s, 0)], MODE_NONE)
    ensures Csi(s).complete ==> Csi(s).args == SpecArgs(s[..ParamEnd(s, 0)])
  {
    if At(s, 0) == NUL {
      assert ParamEnd(s, 0) == 0;
      assert LeadEnd(s, 0) == 0;
    } else {
      CsiLeadScan(s, 0, MODE_NONE, []);
      CsiLeadArgs(s, 0, MODE_NONE, []);
      assert s[0..LeadEnd(s, 0)] == s[..LeadEnd(s, 0)];
      assert s[0..ParamEnd(s, 0)] == s[..ParamEnd(s, 0)];
    }
  }

  /** A control sequence's bytes never exceed the window it was read from. */
  lemma CsiLenBound(s: seq<byte>)
    ensures Csi(s).len <= |s|
    ensures Csi(s).complete ==> 1 <= Csi(s).len && IsFinal(s[Csi(s).len - 1])
  {
    CsiScan(s);
  }

  // ---------------------------------------------------------------- OSC

  function Osc(s: seq<byte>): OscSeq {
    if At(s, 0) == NUL then OscSeq(0, 0, [], false)
    else OscDigits(s, 0)
  }

  /** The numeric command `s[..i+1]` read so far; a NUL inside it leaves
      the command at 0. */
  function OscDigits(s: seq<byte>, i: nat): OscSeq
    requires i < |s| && s[i] != NUL
    requires forall k :: 0 <= k < i ==> IsDigit(s[k])
    decreases |s| - i, 1
  {
    if IsDigit(s[i]) then
      if At(s, i + 1) == NUL then OscSeq(0, i + 1, [], false)
      else OscDigits(s, i + 1)
    else
      var command := DecimalValue(s[..i]);
      if s[i] != B(';') && s[i] != BEL then OscSeq(command, i + 1, [], false)
      else OscArg(s, i, command, [])
  }

  /** The argument text: every byte up to a BEL or ESC, the `;` that
      follows the command included. */
  function OscArg(s: seq<byte>, i: nat, command: int, arg: seq<byte>): OscSeq
    requires i < |s| && s[i] != NUL
    decreases |s| - i, 0
  {
    if s[i] != BEL && s[i] != ESC then
      if At(s, i + 1) == NUL then OscSeq(command, i + 1, arg + [s[i]], false)
      else OscArg(s, i + 1, command, arg + [s[i]])
    else if s[i] == ESC then
      if At(s, i + 1) == B('\\') then OscSeq(command, i + 2, arg, true)
      else OscSeq(command, i + 1, arg, false)
    else OscSeq(command, i + 1, arg, true)
  }

  /** The first position at or after `i` that does not hold a digit. */
  function DigitEnd(s: seq<byte>, i: nat): (n: nat)
    requires i <= |s|
    ensures i <= n <= |s|
    ensures !IsDigit(At(s, n))
    ensures forall k :: i <= k < n ==> IsDigit(s[k])
    decreases |s| - i
  {
    if i == |s| || !IsDigit(s[i]) then i else DigitEnd(s, i + 1)
  }

  /** The first position at or after `i` holding NUL, BEL or ESC. */
  function TextEnd(s: seq<byte>, i: nat): (n: nat)
    requires i <= |s|
    ensures i <= n <= |s|
    ensures At(s, n) == NUL || At(s, n) == BEL || At(s, n) == ESC
    ensures forall k :: i <= k < n ==> s[k] != NUL && s[k] != BEL && s[k] != ESC
    decreases |s| - i
  {
    if i == |s| || s[i] == NUL || s[i] == BEL || s[i] == ESC then i else TextEnd(s, i + 1)
  }

  /** The digits from `i` run exactly up to `n`. */
  lemma {:induction false} DigitEndIs(s: seq<byte>, i: nat, n: nat)
    requires i <= n <= |s|
    requires forall k :: i <= k < n ==> IsDigit(s[k])
    requires !IsDigit(At(s, n))
    ensures DigitEnd(s, i) == n
    decreases n - i
  {
    if i < n {
      DigitEndIs(s, i + 1, n);
    }
  }

  /** The text from `i` runs exactly up to `n`. */
  lemma {:induction false} TextEndIs(s: seq<byte>, i: nat, n: nat)
    requires i <= n <= |s|
    requires forall k :: i <= k < n ==> s[k] != NUL && s[k] != BEL && s[k] != ESC
    requires At(s, n) == NUL || At(s, n) == BEL || At(s, n) == ESC
    ensures TextEnd(s, i) == n
    decreases n - i
  {
    if i < n {
      TextEndIs(s, i + 1, n);
    }
  }

  /** What the OSC argument scan reports once the text ends at `m`. */
  ghost predicate OscTextOutcome(r: OscSeq, s: seq<byte>, m: nat)
    requires m <= |s|
  {
    && (At(s, m) == NUL ==> !r.complete && r.len == m)
    && (At(s, m) == BEL ==> r.complete && r.len == m + 1)
    && (At(s, m) == ESC ==> r.complete == (At(s, m + 1) == B('\\')) && r.len == (if r.complete then m + 2 else m + 1))
  }

  lemma {:induction false} OscArgScan(s: seq<byte>, i: nat, command: int, arg: seq<byte>)
    requires i < |s| && s[i] != NUL
    ensures OscArg(s, i, command, arg).command == command
    ensures OscArg(s, i, command, arg).arg == arg + s[i..TextEnd(s, i)]
    ensures OscTextOutcome(OscArg(s, i, command, arg), s, TextEnd(s, i))
    decreases |s| - i
  {
    if s[i] != BEL && s[i] != ESC && At(s, i + 1) != NUL {
      OscArgScan(s, i + 1, command, arg + [s[i]]);
      assert s[i..TextEnd(s, i)] == [s[i]] + s[i + 1..TextEnd(s, i)];
    }
  }

  lemma {:induction false} OscDigitsScan(s: seq<byte>, i: nat)
    requires i < |s| && s[i] != NUL
    requires forall k :: 0 <= k < i ==> IsDigit(s[k])
    ensures var d := DigitEnd(s, i); var r := OscDigits(s, i);
      && (At(s, d) == NUL ==> !r.complete && r.len == d && r.command == 0 && r.arg == [])
      && (At(s, d) != NUL && At(s, d) != B(';') && At(s, d) != BEL ==>
            !r.complete && r.len == d + 1 && r.command == DecimalValue(s[..d]) && r.arg == [])
      && (At(s, d) == B(';') || At(s, d) == BEL ==>
            r.command == DecimalValue(s[..d]) && r.arg == s[d..TextEnd(s, d)] && OscTextOutcome(r, s, TextEnd(s, d)))
    decreases |s| - i
  {
    if IsDigit(s[i]) {
      if At(s, i + 1) != NUL {
        OscDigitsScan(s, i + 1);
      }
    } else {
      if s[i] == B(';') || s[i] == BEL {
        OscArgScan(s, i, DecimalValue(s[..i]), []);
      }
    }
  }

  /** The OSC lexer: leading digits form the command; after them only `;`
      or BEL may follow; the argument is every byte from that `;` (kept)
      up to the first NUL, BEL or ESC; it completes only on a BEL or on
      ESC `\`, and a NUL or an ESC followed by anything else leaves it
      incomplete. */
  lemma {:induction false} OscScan(s: seq<byte>)
    ensures var d := DigitEnd(s, 0); var r := Osc(s);
      && (At(s, d) == NUL ==> !r.complete && r.len == d && r.command == 0 && r.arg == [])
      && (At(s, d) != NUL && At(s, d) != B(';') && At(s, d) != BEL ==>
            !r.complete && r.len == d + 1 && r.command == DecimalValue(s[..d]) && r.arg == [])
      && (At(s, d) == B(';') || At(s, d) == BEL ==>
            r.command == DecimalValue(s[..d]) && r.arg == s[d..TextEnd(s, d)] && OscTextOutcome(r, s, TextEnd(s, d)))
  {
    if At(s, 0) != NUL {
      OscDigitsScan(s, 0);
    }
  }

  /** The OSC argument keeps the `;` that separates it from the command,
      so it is never the one-byte string "?" that the colour query
      compares it with. */
  lemma OscArgKeepsSemicolon(s: seq<byte>)
    ensures Osc(s).arg == [] || Osc(s).arg[0] == B(';')
    ensures Osc(s).arg != [B('?')]
  {
    OscScan(s);
  }

  /** An OSC never reports more bytes than its window holds. */
  lemma OscLenBound(s: seq<byte>)
    ensures Osc(s).len <= |s|
  {
    OscScan(s);
  }

  // ---------------------------------------------------------------- DCS

  function Dcs(s: seq<byte>): DcsSeq {
    if At(s, 0) == NUL then DcsSeq(0, false, []) else DcsScan(s, 0, [])
  }

  function DcsScan(s: seq<byte>, i: nat, str: seq<byte>): DcsSeq
    requires i < |s| && s[i] != NUL
    decreases |s| - i
  {
    if s[i] == ESC then
      if At(s, i + 1) == B('\\') then DcsSeq(i + 2, true, str)
      else DcsSeq(i + 1, false, str)
    else if At(s, i + 1) == NUL then DcsSeq(i + 1, false, str + [s[i]])
    else DcsScan(s, i + 1, str + [s[i]])
  }

  /** The first position at or after `i` holding NUL or ESC. */
  function StringEnd(s: seq<byte>, i: nat): (n: nat)
    requires i <= |s|
    ensures i <= n <= |s|
    ensures At(s, n) == NUL || At(s, n) == ESC
    ensures forall k :: i <= k < n ==> s[k] != NUL && s[k] != ESC
    decreases |s| - i
  {
    if i == |s| || s[i] == NUL || s[i] == ESC then i else StringEnd(s, i + 1)
  }

  /** The string from `i` runs exactly up to `n`. */
  lemma {:induction false} StringEndIs(s: seq<byte>, i: nat, n: nat)
    requires i <= n <= |s|
    requires forall k :: i <= k < n ==> s[k] != NUL && s[k] != ESC
    requires At(s, n) == NUL || At(s, n) == ESC
    ensures StringEnd(s, i) == n
    decreases n - i
  {
    if i < n {
      StringEndIs(s, i + 1, n);
    }
  }

  lemma {:induction false} DcsScanFrom(s: seq<byte>, i: nat, str: seq<byte>)
    requires i < |s| && s[i] != NUL
    ensures var e := StringEnd(s, i); var r := DcsScan(s, i, str);
      && r.str == str + s[i..e]
      && r.complete == (At(s, e) == ESC && At(s, e + 1) == B('\\'))
      && r.len == (if r.complete then e + 2 else if At(s, e) == ESC then e + 1 else e)
    decreases |s| - i
  {
    if s[i] != ESC && At(s, i + 1) != NUL {
      DcsScanFrom(s, i + 1, str + [s[i]]);
      assert s[i..StringEnd(s, i)] == [s[i]] + s[i + 1..StringEnd(s, i)];
    }
  }

  /** The DCS lexer captures every byte before the first ESC or NUL
      verbatim and completes exactly when that ESC is followed by `\`. */
  lemma {:induction false} DcsScanSpec(s: seq<byte>)
    ensures var e := StringEnd(s, 0); var r := Dcs(s);
      && r.str == s[..e]
      && r.complete == (At(s, e) == ESC && At(s, e + 1) == B('\\'))
      && r.len == (if r.complete then e + 2 else if At(s, e) == ESC then e + 1 else e)
  {
    if At(s, 0) != NUL {
      DcsScanFrom(s, 0, []);
      assert s[0..StringEnd(s, 0)] == s[..StringEnd(s, 0)];
    }
  }
}
