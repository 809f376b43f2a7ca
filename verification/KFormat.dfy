/** rt_vsnprintf: the ideal output of a format, and its printing into a buffer of any size. */
module KFormat {
  import opened CText
  import opened KNumber

  /** A variadic argument, as the word it is and as the C string it points to. */
  datatype Arg = Arg(w: word, text: Option<bytes>)

  const PERCENT: byte := 37
  const HASH: byte := 35
  const NULL_STRING: bytes := [40, 78, 85, 76, 76, 41]
  const CHAR_C: byte := 99
  const CHAR_D: byte := 100
  const CHAR_H: byte := 104
  const CHAR_I: byte := 105
  const CHAR_L: byte := 108
  const CHAR_O: byte := 111
  const CHAR_P: byte := 112
  const CHAR_S: byte := 115
  const CHAR_U: byte := 117
  const CHAR_X: byte := 120
  const LARGE_X: byte := 88

  const NO_FLAGS := Flags(false, false, false, false, false, false)

  // ---------------------------------------------------------------- directives

  /** What stands between a '%' and its conversion character, which is at position `at`; `next` is
      the number of arguments used up so far. */
  datatype Directive = Directive(flags: Flags, width: int, precision: int, qualifier: byte, at: nat, next: nat)

  predicate FlagChar(c: byte) {
    c == MINUS || c == PLUS || c == SPACE || c == HASH || c == ZERO
  }

  /** The flag c added to f; '#' has no effect in this configuration. */
  function WithFlag(f: Flags, c: byte): Flags {
    if c == MINUS then f.(left := true)
    else if c == PLUS then f.(plus := true)
    else if c == SPACE then f.(space := true)
    else if c == ZERO then f.(zeroPad := true)
    else f
  }

  function FlagsEnd(fmt: bytes, j: nat): (e: nat)
    ensures j <= e && (j <= |fmt| ==> e <= |fmt|)
    decreases if j < |fmt| then |fmt| - j else 0
  {
    if FlagChar(At(fmt, j)) then FlagsEnd(fmt, j + 1) else j
  }

  function FlagsAt(fmt: bytes, j: nat, f: Flags): Flags
    decreases if j < |fmt| then |fmt| - j else 0
  {
    if FlagChar(At(fmt, j)) then FlagsAt(fmt, j + 1, WithFlag(f, At(fmt, j))) else f
  }

  /** The number read by skip_atoi at j. */
  function NumberAt(fmt: bytes, j: nat): nat
    requires j <= |fmt|
  {
    RunValue(0, fmt, j, RunEnd(fmt, j))
  }

  /** The directive whose '%' is at i, when k arguments are used up. */
  function DirectiveAt(fmt: bytes, i: nat, args: nat -> Arg, k: nat): (d: Directive)
    requires i < |fmt|
    ensures i < d.at <= |fmt| && d.next >= k
  {
    FromWidth(fmt, FlagsEnd(fmt, i + 1), args, k, FlagsAt(fmt, i + 1, NO_FLAGS))
  }

  function FromWidth(fmt: bytes, j: nat, args: nat -> Arg, k: nat, f: Flags): (d: Directive)
    requires j <= |fmt|
    ensures j <= d.at <= |fmt| && d.next >= k
  {
    if Digit(At(fmt, j)) then FromPrecision(fmt, RunEnd(fmt, j), args, k, f, NumberAt(fmt, j))
    else if At(fmt, j) == STAR then
      var w := Signed(args(k).w);
      FromPrecision(fmt, j + 1, args, k + 1, if w < 0 then f.(left := true) else f, if w < 0 then -w else w)
    else FromPrecision(fmt, j, args, k, f, -1)
  }

  function FromPrecision(fmt: bytes, j: nat, args: nat -> Arg, k: nat, f: Flags, width: int): (d: Directive)
    requires j <= |fmt|
    ensures j <= d.at <= |fmt| && d.next >= k
  {
    if At(fmt, j) != DOT then FromQualifier(fmt, j, k, f, width, -1)
    else if Digit(At(fmt, j + 1)) then FromQualifier(fmt, RunEnd(fmt, j + 1), k, f, width, NumberAt(fmt, j + 1))
    else if At(fmt, j + 1) == STAR then FromQualifier(fmt, j + 2, k + 1, f, width, Max(0, Signed(args(k).w)))
    else FromQualifier(fmt, j + 1, k, f, width, 0)
  }

  function FromQualifier(fmt: bytes, j: nat, k: nat, f: Flags, width: int, precision: int): (d: Directive)
    requires j <= |fmt|
    ensures j <= d.at <= |fmt| && d.next == k
  {
    var c := At(fmt, j);
    if c == CHAR_H || c == CHAR_L then Directive(f, width, precision, c, j + 1, k)
    else Directive(f, width, precision, 0, j, k)
  }

  // ---------------------------------------------------------------- conversions

  /** A text in its field. */
  function Field(text: bytes, width: int, left: bool): bytes {
    if left then text + Repeat(SPACE, width - |text|) else Repeat(SPACE, width - |text|) + text
  }

  /** What "%s" shows of its argument; the precision 0 cuts nothing off. */
  function Shown(a: Arg, precision: int): bytes {
    var s := if a.text.None? then NULL_STRING else a.text.value;
    if 0 < precision < |s| then s[..precision] else s
  }

  /** The argument of an integer conversion as a signed long. */
  function IntegerOf(w: word, qualifier: byte, sign: bool): (n: int)
    ensures -0x8000_0000 <= n < 0x8000_0000
  {
    if qualifier == CHAR_H then
      var low := w % 0x1_0000;
      if sign && low >= 0x8000 then low - 0x1_0000 else low
    else Signed(w)
  }

  predicate IntegerConversion(c: byte) {
    c == CHAR_O || c == LARGE_X || c == CHAR_X || c == CHAR_D || c == CHAR_I || c == CHAR_U
  }

  function Base(c: byte): nat {
    if c == CHAR_O then 8 else if c == CHAR_X || c == LARGE_X then 16 else 10
  }

  /** The flags together with what the conversion character adds to them. */
  function WithConversion(f: Flags, c: byte): Flags {
    f.(sign := c == CHAR_D || c == CHAR_I, large := c == LARGE_X)
  }

  /** The text that a directive produces. */
  function Converted(fmt: bytes, d: Directive, args: nat -> Arg): bytes {
    var c, a := At(fmt, d.at), args(d.next);
    if c == CHAR_C then Field([a.w % 256], d.width, d.flags.left)
    else if c == CHAR_S then Field(Shown(a, d.precision), d.width, d.flags.left)
    else if c == CHAR_P then
      if d.width == -1 then NumberText(Signed(a.w), 16, 8, d.precision, d.flags.(zeroPad := true))
      else NumberText(Signed(a.w), 16, d.width, d.precision, d.flags)
    else if c == PERCENT then [PERCENT]
    else if IntegerConversion(c) then
      var f := WithConversion(d.flags, c);
      NumberText(IntegerOf(a.w, d.qualifier, f.sign), Base(c), d.width, d.precision, f)
    else if c == 0 then [PERCENT]
    else [PERCENT, c]
  }

  predicate TakesArgument(c: byte) {
    c == CHAR_C || c == CHAR_S || c == CHAR_P || IntegerConversion(c)
  }

  /** All of the text that fmt stands for from position i on. */
  function Output(fmt: bytes, i: nat, args: nat -> Arg, k: nat): bytes
    decreases if i < |fmt| then |fmt| - i else 0
  {
    var c := At(fmt, i);
    if c == 0 then []
    else if c != PERCENT then [c] + Output(fmt, i + 1, args, k)
    else
      var d := DirectiveAt(fmt, i, args, k);
      Converted(fmt, d, args) + Output(fmt, After(fmt, d), args, Used(fmt, d))
  }

  /** Where the loop goes on behind a directive: at the end of the format, it stays there. */
  function After(fmt: bytes, d: Directive): nat {
    if At(fmt, d.at) == 0 then d.at else d.at + 1
  }

  function Used(fmt: bytes, d: Directive): nat {
    if TakesArgument(At(fmt, d.at)) then d.next + 1 else d.next
  }

  // ---------------------------------------------------------------- rt_vsnprintf

  /** The flags, width, precision and qualifier of the directive at i. */
  method ScanDirective(fmt: bytes, i: nat, args: nat -> Arg, k: nat) returns (d: Directive)
    requires i < |fmt|
    ensures d == DirectiveAt(fmt, i, args, k)
  {
    hide RunEnd, RunValue;
    hide FromPrecision;
    var f, j, next, width := NO_FLAGS, i + 1, k, -1;
    while FlagChar(Read(fmt, j))
      invariant i < j <= |fmt|
      invariant FlagsEnd(fmt, j) == FlagsEnd(fmt, i + 1) && FlagsAt(fmt, j, f) == FlagsAt(fmt, i + 1, NO_FLAGS)
      decreases |fmt| - j
    {
      f, j := WithFlag(f, Read(fmt, j)), j + 1;
    }
    if Digit(Read(fmt, j)) {
      width, j := ReadDigits(fmt, j, 0);
    } else if Read(fmt, j) == STAR {
      j := j + 1;
      width, next := Signed(args(next).w), next + 1;
      if width < 0 {
        width, f := -width, f.(left := true);
      }
    }
    d := ScanPrecision(fmt, j, args, next, f, width);
  }

  method ScanPrecision(fmt: bytes, start: nat, args: nat -> Arg, k: nat, f: Flags, width: int) returns (d: Directive)
    requires start <= |fmt|
    ensures d == FromPrecision(fmt, start, args, k, f, width)
  {
    hide RunEnd, RunValue;
    var j, next, precision := start, k, -1;
    if Read(fmt, j) == DOT {
      j := j + 1;
      if Digit(Read(fmt, j)) {
        precision, j := ReadDigits(fmt, j, 0);
      } else if Read(fmt, j) == STAR {
        j := j + 1;
        precision, next := Signed(args(next).w), next + 1;
      }
      if precision < 0 {
        precision := 0;
      }
    }
    var qualifier: byte := 0;
    if Read(fmt, j) == CHAR_H || Read(fmt, j) == CHAR_L {
      qualifier, j := Read(fmt, j), j + 1;
    }
    d := Directive(f, width, precision, qualifier, j, next);
  }

  /** Blanks up to the width; the result is what the countdown leaves in it, which is below len. */
  method PadText(out: Sink, width: int, len: int) returns (left: int)
    requires out.Valid()
    modifies out, out.mem
    ensures out.Valid() && out.out == old(out.out) + Repeat(SPACE, width - len)
    ensures left < len
  {
    left := out.Pad(width - len, SPACE);
    left := left + len;
  }

  method PutField(out: Sink, text: bytes, width: int, left: bool)
    requires out.Valid()
    modifies out, out.mem
    ensures out.Valid() && out.out == old(out.out) + Field(text, width, left)
  {
    hide Sink.Holds;
    var w := width;
    if !left {
      w := PadText(out, w, |text|);
    }
    ghost var front := out.out;
    var i := 0;
    while i < |text|
      invariant 0 <= i <= |text| && out.Valid() && out.out == front + text[..i]
    {
      out.Put(text[i]);
      i := i + 1;
    }
    w := PadText(out, w, |text|);
  }

  /** The switch on the conversion character. */
  method Convert(out: Sink, fmt: bytes, d: Directive, args: nat -> Arg)
    requires out.Valid() && d.at <= |fmt|
    modifies out, out.mem
    ensures out.Valid() && out.out == old(out.out) + Converted(fmt, d, args)
  {
    hide Sink.Holds, NumberText, Field;
    var c, a := Read(fmt, d.at), args(d.next);
    if c == CHAR_C {
      PutField(out, [a.w % 256], d.width, d.flags.left);
    } else if c == CHAR_S {
      PutField(out, Shown(a, d.precision), d.width, d.flags.left);
    } else if c == CHAR_P {
      if d.width == -1 {
        PrintNumber(out, Signed(a.w), 16, 8, d.precision, d.flags.(zeroPad := true));
      } else {
        PrintNumber(out, Signed(a.w), 16, d.width, d.precision, d.flags);
      }
    } else if IntegerConversion(c) {
      var f := WithConversion(d.flags, c);
      PrintNumber(out, IntegerOf(a.w, d.qualifier, f.sign), Base(c), d.width, d.precision, f);
    } else {
      out.Put(PERCENT);
      if c != PERCENT && c != 0 {
        out.Put(c);
      }
    }
  }

  /** How many bytes of memory belong to the buffer: one that would run past the end of the address
      space ends at its last byte. */
  function Room(buf: word, size: word): nat {
    if buf + size < WORD then size else WORD - 1 - buf
  }

  /** What is left in memory by printing `text`: its first bytes and a terminator. */
  function Stored(before: bytes, buf: nat, room: nat, text: bytes): bytes
    requires buf + room <= |before|
  {
    if room == 0 then before
    else
      var shown := if |text| < room then text else text[..room - 1];
      before[..buf] + shown + [0]
      + (before[buf + |shown| + 1..])
  }

  /** rt_vsnprintf, with mem for all of memory. */
  method Vsnprintf(mem: array<byte>, buf: word, size: word, fmt: bytes, args: nat -> Arg) returns (n: nat)
    requires mem.Length == WORD
    modifies mem
    ensures n == |Output(fmt, 0, args, 0)|
    ensures mem[..] == Stored(old(mem[..]), buf, Room(buf, size), Output(fmt, 0, args, 0))
  {
    hide Sink.Holds, Output, DirectiveAt, Converted, Stored;
    var end := buf + Room(buf, size);
    ghost var before := mem[..];
    var out := new Sink(mem, buf, end);
    var i, k := 0, 0;
    while Read(fmt, i) != 0
      invariant out.Valid() && 0 <= i <= |fmt| && 0 <= k && fresh(out) && out.mem == mem && out.buf == buf
                && out.end == end
      invariant out.before == before && out.out + Output(fmt, i, args, k) == Output(fmt, 0, args, 0)
      decreases |fmt| - i
    {
      OutputStep(out.out, fmt, i, args, k);
      if Read(fmt, i) != PERCENT {
        out.Put(Read(fmt, i));
        i := i + 1;
      } else {
        var d := ScanDirective(fmt, i, args, k);
        Convert(out, fmt, d, args);
        i, k := After(fmt, d), Used(fmt, d);
      }
    }
    OutputEnds(out.out, fmt, i, args, k);
    n := out.str - buf;
    Terminate(out, before);
  }

  /** One turn of the loop. */
  lemma OutputStep(done: bytes, fmt: bytes, i: nat, args: nat -> Arg, k: nat)
    requires i < |fmt| && At(fmt, i) != 0
    ensures At(fmt, i) != PERCENT ==>
              done + Output(fmt, i, args, k) == (done + [At(fmt, i)]) + Output(fmt, i + 1, args, k)
    ensures At(fmt, i) == PERCENT ==>
              var d := DirectiveAt(fmt, i, args, k);
              && After(fmt, d) <= |fmt| && After(fmt, d) > i
              && done + Output(fmt, i, args, k)
                 == (done + Converted(fmt, d, args)) + Output(fmt, After(fmt, d), args, Used(fmt, d))
  {
    hide DirectiveAt, Converted;
  }

  lemma OutputEnds(done: bytes, fmt: bytes, i: nat, args: nat -> Arg, k: nat)
    requires At(fmt, i) == 0
    ensures done + Output(fmt, i, args, k) == done
  {
  }

  /** The terminator, at the end of the text or in the last byte of the buffer. */
  method Terminate(out: Sink, ghost before: bytes)
    requires out.Valid() && out.before == before
    modifies out.mem
    ensures |before| == out.mem.Length && out.mem[..] == Stored(before, out.buf, out.end - out.buf, out.out)
  {
    if out.end > out.buf {
      if out.str < out.end {
        out.mem[out.str] := 0;
      } else {
        out.mem[out.end - 1] := 0;
      }
    }
  }

  // ---------------------------------------------------------------- what the output is

  /** Byte for byte: as much of the text as fits before a terminator, the terminator, and nothing
      else touched. So a larger buffer only ever shows more of the same text. */
  lemma StoredBytes(before: bytes, buf: nat, room: nat, text: bytes, a: nat)
    requires buf + room <= |before| && a < |before|
    ensures var m := if |text| < room then |text| else room - 1;
            && |Stored(before, buf, room, text)| == |before|
            && Stored(before, buf, room, text)[a] ==
               if room > 0 && buf <= a < buf + m then text[a - buf] else if room > 0
                   && a == buf + m then 0 else before[a]
  {
  }

  /** A format without directives stands for itself. */
  lemma {:induction false} PlainText(fmt: bytes, i: nat, args: nat -> Arg, k: nat)
    requires i <= |fmt| && NulFree(fmt) && PERCENT !in fmt
    ensures Output(fmt, i, args, k) == fmt[i..]
    decreases |fmt| - i
  {
    if i < |fmt| {
      PlainText(fmt, i + 1, args, k);
    }
  }

  /** Plain text before a directive appears before what the rest of the format stands for. */
  lemma {:induction false} PlainPrefix(a: bytes, fmt: bytes, i: nat, args: nat -> Arg, k: nat)
    requires i <= |a| && NulFree(a) && PERCENT !in a
    ensures Output(a + fmt, i, args, k) == a[i..] + Output(a + fmt, |a|, args, k)
    decreases |a| - i
  {
    if i < |a| {
      PlainPrefix(a, fmt, i + 1, args, k);
      assert At(a + fmt, i) == a[i];
    }
  }

  lemma {:induction false} NumeralIsDigits(n: nat, large: bool)
    ensures Numeral(n, 10, large) == Digits(n)
  {
    if n >= 10 {
      NumeralIsDigits(n / 10, large);
    }
  }

  /** Without width, precision and flags, a signed number is shown as printf does. */
  lemma DecimalText(n: int)
    requires -0x8000_0000 <= n < 0x8000_0000
    ensures NumberText(n, 10, -1, -1, NO_FLAGS.(sign := true)) == Decimal(n)
  {
    hide Numeral, Digits, Repeat;
    var f := NO_FLAGS.(sign := true);
    NumeralIsDigits(Magnitude(n, f), false);
    var digits := NumberDigits(n, 10, f);
    NoPadding(-1 - |digits|);
    NoPadding(-1 - |digits| - |SignText(n, f)|);
    assert [] + digits == digits;
    assert [] + SignText(n, f) == SignText(n, f);
  }

  lemma NoPadding(n: int)
    requires n <= 0
    ensures Repeat(SPACE, n) == [] && Repeat(ZERO, n) == []
  {
  }

  /** "%d" and "%i" show the decimal text of their argument, for every 32-bit argument. */
  lemma PlainDecimal(c: byte, args: nat -> Arg, k: nat)
    requires c == CHAR_D || c == CHAR_I
    ensures Output([PERCENT, c], 0, args, k) == Decimal(Signed(args(k).w))
  {
    hide NumberText, Numeral, Decimal, Repeat, Field, Shown, RunValue;
    var fmt := [PERCENT, c];
    BareDirective(c, args, k);
    DecimalText(Signed(args(k).w));
    assert Output(fmt, 2, args, k + 1) == [];
  }

  /** '%' and a conversion character alone. */
  lemma BareDirective(c: byte, args: nat -> Arg, k: nat)
    requires Ends(c, 0) && c != 0
    ensures DirectiveAt([PERCENT, c], 0, args, k) == Directive(NO_FLAGS, -1, -1, 0, 1, k)
  {
    var fmt := [PERCENT, c];
    assert FlagsEnd(fmt, 1) == 1 && FlagsAt(fmt, 1, NO_FLAGS) == NO_FLAGS;
  }

  /** "%s" shows its whole argument. */
  lemma PlainString(args: nat -> Arg, k: nat, s: bytes)
    requires args(k).text == Some(s)
    ensures Output([PERCENT, CHAR_S], 0, args, k) == s
  {
    hide NumberText;
    var fmt := [PERCENT, CHAR_S];
    BareDirective(CHAR_S, args, k);
    assert Output(fmt, 2, args, k + 1) == [];
  }

  // ---------------------------------------------------------------- how directives are spelled

  /** A width or a precision: left out, written in digits, or taken from the next argument. */
  datatype Amount = Absent | Given(n: nat) | Next

  /** What one writes between '%' and the conversion character. */
  datatype Spelling = Spelling(flags: bytes, width: Amount, precision: Option<Amount>, qualifier: byte) {
    predicate Valid() {
      && (forall k :: 0 <= k < |flags| ==> FlagChar(flags[k]))
      && (width.Given? ==> width.n > 0)
      && (qualifier == 0 || qualifier == CHAR_H || qualifier == CHAR_L)
    }

    function FromPrecisionText(): bytes {
      (if precision.None? then [] else [DOT] + AmountText(precision.value)) + if qualifier == 0 then [] else [qualifier]
    }

    function WidthText(): bytes { AmountText(width) + FromPrecisionText() }

    function Text(): bytes { [PERCENT] + (flags + WidthText()) }

    /** What the directive means; a negative width argument asks for alignment to the left, and a
        negative precision counts as 0. */
    function Meaning(args: nat -> Arg, k: nat, at: nat): Directive {
      var w := Signed(args(k).w);
      var k' := if width.Next? then k + 1 else k;
      Directive(
        Flags(MINUS in flags || (width.Next? && w < 0), PLUS in flags, SPACE in flags, ZERO in flags, false, false),
        match width case Absent => -1 case Given(n) => n case Next => if w < 0 then -w else w,
        match precision
        case None => -1
        case Some(Absent) => 0
        case Some(Given(n)) => n
        case Some(Next) => if Signed(args(k').w) < 0 then 0 else Signed(args(k').w),
        qualifier, at, if precision == Some(Next) then k' + 1 else k')
    }
  }

  function AmountText(a: Amount): bytes {
    match a
    case Absent => []
    case Given(n) => Digits(n)
    case Next => [STAR]
  }

  /** A character that ends a directive whatever stands before it. */
  predicate Ends(c: byte, qualifier: byte) {
    !Digit(c) && !FlagChar(c) && c != DOT && c != STAR && (qualifier == 0 ==> c != CHAR_H && c != CHAR_L)
  }

  lemma {:induction false} FlagsRead(fmt: bytes, j: nat, w: bytes, f: Flags)
    requires Has(fmt, j, w) && (forall k :: 0 <= k < |w| ==> FlagChar(w[k])) && !FlagChar(At(fmt, j + |w|))
    ensures FlagsEnd(fmt, j) == j + |w|
    ensures FlagsAt(fmt, j, f) ==
            Flags(f.left || MINUS in w, f.plus || PLUS in w, f.space || SPACE in w, f.zeroPad || ZERO in w, f.sign,
                f.large)
    decreases w
  {
    if w != [] {
      assert At(fmt, j) == w[0];
      assert forall c :: c in w <==> c == w[0] || c in w[1..];
      FlagsRead(fmt, j + 1, w[1..], WithFlag(f, w[0]));
    }
  }

  /** A number that is written out is read back. */
  lemma NumberRead(fmt: bytes, j: nat, n: nat)
    requires Has(fmt, j, Digits(n)) && !Digit(At(fmt, j + |Digits(n)|))
    ensures j <= |fmt| && Digit(At(fmt, j)) && RunEnd(fmt, j) == j + |Digits(n)| && NumberAt(fmt, j) == n
  {
    RunEndOf(fmt, j, Digits(n));
    HasSlice(fmt, j, Digits(n));
    HasAt(fmt, j, Digits(n), 0);
    FoldDigits(n);
  }

  lemma QualifierReads(d: Spelling, fmt: bytes, j: nat, k: nat, f: Flags, width: int, precision: int)
    requires d.Valid() && Has(fmt, j, if d.qualifier == 0 then [] else [d.qualifier])
    requires var at := j + if d.qualifier == 0 then 0 else 1; Ends(At(fmt, at), d.qualifier)
    ensures FromQualifier(fmt, j, k, f, width, precision) ==
            Directive(f, width, precision, d.qualifier, j + (if d.qualifier == 0 then 0 else 1), k)
  {
  }

  lemma PrecisionReads(d: Spelling, fmt: bytes, j: nat, args: nat -> Arg, k: nat, f: Flags, width: int)
    requires d.Valid() && Has(fmt, j, d.FromPrecisionText()) && Ends(At(fmt, j + |d.FromPrecisionText()|), d.qualifier)
    ensures FromPrecision(fmt, j, args, k, f, width) ==
            Directive(f, width,
                      match d.precision
                      case None => -1
                      case Some(Absent) => 0
                      case Some(Given(n)) => n
                      case Some(Next) => if Signed(args(k).w) < 0 then 0 else Signed(args(k).w),
                      d.qualifier, j + |d.FromPrecisionText()|, if d.precision == Some(Next) then k + 1 else k)
  {
    var q := if d.qualifier == 0 then [] else [d.qualifier];
    if d.precision.None? {
      assert d.FromPrecisionText() == q;
      QualifierReads(d, fmt, j, k, f, width, -1);
    } else {
      var a := AmountText(d.precision.value);
      assert d.FromPrecisionText() == [DOT] + (a + q);
      HasSplit(fmt, j, [DOT], a + q);
      HasSplit(fmt, j + 1, a, q);
      assert At(fmt, j) == DOT;
      var e := j + 1 + |a|;
      assert !Digit(At(fmt, e)) && At(fmt, e) != STAR;
      match d.precision.value
      case Absent => QualifierReads(d, fmt, e, k, f, width, 0);
      case Given(n) =>
        NumberRead(fmt, j + 1, n);
        QualifierReads(d, fmt, e, k, f, width, n);
      case Next => QualifierReads(d, fmt, e, k + 1, f, width, Max(0, Signed(args(k).w)));
    }
  }

  lemma WidthReads(d: Spelling, fmt: bytes, j: nat, args: nat -> Arg, k: nat, f: Flags)
    requires d.Valid() && Has(fmt, j, d.WidthText()) && Ends(At(fmt, j + |d.WidthText()|), d.qualifier)
    ensures !FlagChar(At(fmt, j)) && j <= |fmt|
    ensures FromWidth(fmt, j, args, k, f) ==
            d.Meaning(args, k, j + |d.WidthText()|).(flags := if d.width.Next?
                && Signed(args(k).w) < 0 then f.(left := true) else f)
  {
    hide Has, FromPrecision;
    var a := AmountText(d.width);
    HasSplit(fmt, j, a, d.FromPrecisionText());
    FirstOf(d, fmt, j + |a|);
    AmountStart(d, fmt, j);
    InText(fmt, j, d.WidthText());
    var w := Signed(args(k).w);
    match d.width
    case Absent => PrecisionReads(d, fmt, j, args, k, f, -1);
    case Given(n) =>
      NumberRead(fmt, j, n);
      PrecisionReads(d, fmt, j + |a|, args, k, f, n);
    case Next =>
      PrecisionReads(d, fmt, j + 1, args, k + 1, if w < 0 then f.(left := true) else f, if w < 0 then -w else w);
  }

  lemma InText(fmt: bytes, j: nat, w: bytes)
    requires Has(fmt, j, w)
    ensures j <= |fmt|
  {
  }

  /** However a directive is spelled, with any flags in any order, it is read as what it means. */
  lemma DirectiveReads(d: Spelling, fmt: bytes, i: nat, args: nat -> Arg, k: nat)
    requires d.Valid() && Has(fmt, i, d.Text()) && i < |fmt| && Ends(At(fmt, i + |d.Text()|), d.qualifier)
    ensures DirectiveAt(fmt, i, args, k) == d.Meaning(args, k, i + |d.Text()|)
  {
    hide Has, FromWidth, Spelling.WidthText;
    HasSplit(fmt, i, [PERCENT], d.flags + d.WidthText());
    HasSplit(fmt, i + 1, d.flags, d.WidthText());
    var j := i + 1 + |d.flags|;
    var f := FlagsAt(fmt, i + 1, NO_FLAGS);
    WidthReads(d, fmt, j, args, k, f);
    FlagsRead(fmt, i + 1, d.flags, NO_FLAGS);
  }

  /** What follows the width is neither a flag nor part of the width. */
  lemma FirstOf(d: Spelling, fmt: bytes, j: nat)
    requires d.Valid() && Has(fmt, j, d.FromPrecisionText()) && Ends(At(fmt, j + |d.FromPrecisionText()|), d.qualifier)
    ensures !Digit(At(fmt, j)) && !FlagChar(At(fmt, j)) && At(fmt, j) != STAR
  {
    if d.FromPrecisionText() != [] {
      HasAt(fmt, j, d.FromPrecisionText(), 0);
    }
  }

  /** A width does not start with a flag. */
  lemma AmountStart(d: Spelling, fmt: bytes, j: nat)
    requires d.Valid() && Has(fmt, j, AmountText(d.width))
    requires d.width.Absent? ==> !FlagChar(At(fmt, j))
    ensures !FlagChar(At(fmt, j)) && (d.width.Next? ==> At(fmt, j) == STAR)
  {
    if !d.width.Absent? {
      HasAt(fmt, j, AmountText(d.width), 0);
    }
  }

  // ---------------------------------------------------------------- precisions of strings

  /** However "%s" is spelled, its output is the text that is shown, in its field. */
  lemma StringDirective(d: Spelling, args: nat -> Arg, k: nat)
    requires d.Valid()
    ensures var m := d.Meaning(args, k, |d.Text()|);
            Output(d.Text() + [CHAR_S], 0, args, k)
            == Field(Shown(args(m.next), m.precision), m.width, m.flags.left)
  {
    hide Has, DirectiveAt, Field, Shown, Spelling.WidthText;
    var w := d.Text();
    var fmt := w + [CHAR_S];
    HasSlice(fmt, 0, w);
    assert fmt[0..|w|] == w && At(fmt, |w|) == CHAR_S && At(fmt, 0) == PERCENT;
    DirectiveReads(d, fmt, 0, args, k);
    var m := d.Meaning(args, k, |w|);
    assert Output(fmt, |w| + 1, args, m.next + 1) == [];
    assert Converted(fmt, m, args) + [] == Converted(fmt, m, args);
  }

  /** A precision cuts a string to that many bytes, unless it is zero and there is a byte to cut. */
  lemma PrecisionCuts(d: Spelling, args: nat -> Arg, k: nat, s: bytes)
    requires d.Valid() && d.width.Absent? && d.precision.Some?
    requires args(d.Meaning(args, k, |d.Text()|).next).text == Some(s)
    ensures var p := d.Meaning(args, k, |d.Text()|).precision;
            && p >= 0
            && (Output(d.Text() + [CHAR_S], 0, args, k) == (if p < |s| then s[..p] else s) <==> p != 0 || s == [])
  {
    StringDirective(d, args, k);
    hide Spelling.Text;
  }

  /** "%.0s" shows its whole argument. */
  lemma PrecisionZeroString(args: nat -> Arg, k: nat, s: bytes)
    requires args(k).text == Some(s)
    ensures Output([PERCENT, DOT, ZERO, CHAR_S], 0, args, k) == s
  {
    hide *;
    var d := Spelling([], Absent, Some(Given(0)), 0);
    ZeroPrecision(args, k);
    StringDirective(d, args, k);
    WholeField(args(k), s);
    assert [PERCENT, DOT, ZERO] + [CHAR_S] == [PERCENT, DOT, ZERO, CHAR_S];
  }

  lemma WholeField(a: Arg, s: bytes)
    requires a.text == Some(s)
    ensures Field(Shown(a, 0), -1, false) == s
  {
    assert [] + s == s;
  }

  lemma ZeroPrecision(args: nat -> Arg, k: nat)
    ensures var d := Spelling([], Absent, Some(Given(0)), 0);
            d.Valid() && d.Text() == [PERCENT, DOT, ZERO] && |d.Text()| == 3 && NO_FLAGS.left == false
            && d.Meaning(args, k, 3) == Directive(NO_FLAGS, -1, 0, 0, 3, k)
  {
    var d := Spelling([], Absent, Some(Given(0)), 0);
    assert d.FromPrecisionText() == [DOT] + [ZERO] + [];
    assert d.WidthText() == [] + [DOT, ZERO];
    assert d.Text() == [PERCENT] + ([] + [DOT, ZERO]);
  }
}
