/** What rt_vsnprintf puts out, conversion by conversion, and for a whole format. */
module KFormatLaws {
  import opened CText
  import opened KNumber
  import opened KFormat

  // ---------------------------------------------------------------- one directive

  /** A directive alone puts out its conversion. */
  lemma OneDirective(d: Spelling, c: byte, args: nat -> Arg, k: nat)
    requires d.Valid() && Ends(c, d.qualifier) && c != 0
    ensures Output(d.Text() + [c], 0, args, k) ==
            Converted(d.Text() + [c], d.Meaning(args, k, |d.Text()|), args)
  {
    hide Has, DirectiveAt, Converted, Ends, Spelling.WidthText, Spelling.Meaning;
    var w := d.Text();
    var fmt := w + [c];
    HasSlice(fmt, 0, w);
    assert fmt[0..|w|] == w && At(fmt, |w|) == c && At(fmt, 0) == PERCENT;
    DirectiveReads(d, fmt, 0, args, k);
    var m := d.Meaning(args, k, |w|);
    MeaningAt(d, args, k, |w|);
    var e := Output(fmt, |w| + 1, args, Used(fmt, m));
    assert e == [];
    assert Converted(fmt, m, args) + [] == Converted(fmt, m, args);
  }

  lemma MeaningAt(d: Spelling, args: nat -> Arg, k: nat, at: nat)
    ensures d.Meaning(args, k, at).at == at
    ensures d.Meaning(args, k, at) == d.Meaning(args, k, 0).(at := at)
  {
  }

  /** `n` is written in the base, with these digits: no zero in front but that of 0 itself. */
  predicate Writes(digits: bytes, n: nat, base: nat, large: bool) {
    && digits != [] && (|digits| > 1 ==> digits[0] != 48)
    && (forall k :: 0 <= k < |digits| ==> DigitOf(digits[k], base, large))
    && Worth(digits, base) == n
  }

  /** 0 to 9, then the letters from a or from A on. */
  predicate DigitOf(c: byte, base: nat, large: bool) {
    (48 <= c <= 57 && c - 48 < base) || (if large then 65 <= c < 65 + base - 10 else 97 <= c < 97 + base - 10)
  }

  function DigitWorth(c: byte): int {
    if c <= 57 then c - 48 else if c < 97 then c - 55 else c - 87
  }

  function Worth(digits: bytes, base: nat): int {
    if digits == [] then 0 else Worth(digits[..|digits| - 1], base) * base + DigitWorth(digits[|digits| - 1])
  }

  lemma {:induction false} NumeralWrites(n: nat, base: nat, large: bool)
    requires base == 10 || base == 16
    ensures Writes(Numeral(n, base, large), n, base, large)
    ensures n > 0 ==> Numeral(n, base, large)[0] != 48
  {
    var w := Numeral(n, base, large);
    if n < base {
      assert w[..0] == [] && Worth([], base) == 0;
    } else {
      NumeralWrites(n / base, base, large);
      assert w[..|w| - 1] == Numeral(n / base, base, large);
      assert n / base * base + n % base == n;
    }
  }

  /** The number a conversion shows: the argument, or its lower half behind h, as a signed number for d
      and i. */
  function NumberOf(c: byte, qualifier: byte, w: word): int {
    var n := if qualifier == 104 && c != 112 then w % 0x1_0000 else w;
    var half := if qualifier == 104 then 0x8000 else 0x8000_0000;
    if (c == 100 || c == 105) && n >= half then n - 2 * half else n
  }

  function SignOf(c: byte, n: int, f: Flags): bytes {
    if c != 100 && c != 105 then []
    else if n < 0 then [45]
    else if f.plus then [43]
    else if f.space then [32]
    else []
  }

  function Abs(n: int): nat { if n < 0 then -n else n }

  /** Of a number: blanks, its sign, zeros, its digits and blanks. A precision of 0 takes the digits away
      from what would be there otherwise. Blanks stand in front unless the field is aligned to the left
      or filled with zeros, and behind only where it is aligned to the left; there are as many zeros as
      the precision asks for, or as the width does where zeros fill the field. */
  predicate LaidOut(text: bytes, sign: bytes, digits: bytes, width: int, precision: int, left: bool, zeros: bool,
                    a: nat, z: nat, b: nat) {
    && text == Repeat(32, a) + (sign + (Repeat(48, z) + ((if precision == 0 then [] else digits) + Repeat(32, b))))
    && (a > 0 ==> !left && !zeros) && (b > 0 ==> left)
    && (left || !zeros ==> z == if precision > |digits| then precision - |digits| else 0)
    && a + |sign| + z + |digits| + b == Max(width, |sign| + Max(|digits|, precision))
  }

  lemma NumberLaid(num: int, base: nat, width: int, precision: int, f: Flags) returns (a: nat, z: nat, b: nat)
    requires -0x8000_0000 <= num < 0x8000_0000
    ensures LaidOut(NumberText(num, base, width, precision, f), SignText(num, f), NumberDigits(num, base, f), width,
                    precision, f.left, f.zeroPad, a, z, b)
  {
    hide NumberDigits, SignText, Repeat;
    var digits, sign := NumberDigits(num, base, f), SignText(num, f);
    var pad := width - Max(|digits|, precision) - |sign|;
    var zs := precision - |digits|;
    var shown := if precision == 0 then [] else digits;
    a, z, b := 0, Max(0, zs), 0;
    Padding(48, zs);
    Padding(32, pad);
    if f.left {
      b := Max(0, pad);
    } else if f.zeroPad {
      z := Max(0, zs) + Max(0, pad);
      Padding(48, pad);
      TwoPaddings(pad, zs);
    } else {
      a := Max(0, pad);
    }
    NoPadding(0);
    Rejoin(sign, Repeat(48, zs), shown, Repeat(32, pad));
    Rejoin(sign, Repeat(48, pad) + Repeat(48, zs), shown, []);
    RejoinZeros(sign, Repeat(48, pad), Repeat(48, zs), shown);
  }

  lemma Padding(c: byte, n: int)
    ensures Repeat(c, n) == Repeat(c, Max(0, n))
  {
  }

  lemma TwoPaddings(n: int, m: int)
    ensures Repeat(48, n) + Repeat(48, m) == Repeat(48, Max(0, m) + Max(0, n))
  {
  }

  lemma Rejoin(sign: bytes, z: bytes, shown: bytes, b: bytes)
    ensures sign + (z + shown) + b == [] + (sign + (z + (shown + b)))
    ensures b + sign + (z + shown) == b + (sign + (z + (shown + [])))
  {
  }

  lemma RejoinZeros(sign: bytes, p: bytes, z: bytes, shown: bytes)
    ensures sign + p + (z + shown) == [] + (sign + ((p + z) + (shown + [])))
  {
  }

  predicate IsNumber(c: byte) {
    c == 100 || c == 105 || c == 117 || c == 120 || c == 88 || c == 111 || c == 112
  }

  function FlagsOf(c: byte, m: Directive): Flags {
    if c == 112 then m.flags.(zeroPad := m.flags.zeroPad || m.width == -1, sign := false, large := false)
    else m.flags.(sign := c == 100 || c == 105, large := c == 88)
  }

  function BaseOf(c: byte): nat { if c == 100 || c == 105 || c == 117 then 10 else 16 }

  lemma ConvertedNumber(fmt: bytes, m: Directive, args: nat -> Arg, c: byte) returns (num: int)
    requires IsNumber(c) && At(fmt, m.at) == c && !m.flags.sign && !m.flags.large
    ensures -0x8000_0000 <= num < 0x8000_0000
    ensures Converted(fmt, m, args) ==
            NumberText(num, BaseOf(c), if c == 112 && m.width == -1 then 8 else m.width, m.precision, FlagsOf(c, m))
    ensures var n, f := NumberOf(c, m.qualifier, args(m.next).w), FlagsOf(c, m);
            Magnitude(num, f) == Abs(n) && SignText(num, f) == SignOf(c, n, m.flags)
  {
    hide Numeral, Repeat, Body;
    var w := args(m.next).w;
    var f := FlagsOf(c, m);
    num := if c == 112 then Signed(w) else IntegerOf(w, m.qualifier, f.sign);
  }

  /** The integer conversions d, i, u, x, X, o and p: the number in base 10 for d, i and u, in base 16 for
      the others, with capital letters for X only. p takes a width of 8 and zeros where no width is
      given. */
  lemma NumberDirective(d: Spelling, c: byte, args: nat -> Arg, k: nat) returns (digits: bytes, a: nat, z: nat, b: nat)
    requires d.Valid() && IsNumber(c)
    ensures var m := d.Meaning(args, k, |d.Text()|);
            var n := NumberOf(c, m.qualifier, args(m.next).w);
            var pointer := c == 112 && m.width == -1;
            && Writes(digits, Abs(n), if c == 100 || c == 105 || c == 117 then 10 else 16, c == 88)
            && LaidOut(Output(d.Text() + [c], 0, args, k), SignOf(c, n, m.flags), digits,
                       if pointer then 8 else m.width, m.precision, m.flags.left, m.flags.zeroPad || pointer, a, z, b)
  {
    OneDirective(d, c, args, k);
    var m := d.Meaning(args, k, |d.Text()|);
    assert m.at == |d.Text()| && At(d.Text() + [c], |d.Text()|) == c;
    var num := ConvertedNumber(d.Text() + [c], m, args, c);
    var f := FlagsOf(c, m);
    hide *;
    digits := NumberDigits(num, BaseOf(c), f);
    DigitsWritten(num, c, f);
    a, z, b := NumberLaid(num, BaseOf(c), if c == 112 && m.width == -1 then 8 else m.width, m.precision, f);
    FlagFields(c, m);
  }

  lemma DigitsWritten(num: int, c: byte, f: Flags)
    requires -0x8000_0000 <= num < 0x8000_0000
    ensures Writes(NumberDigits(num, BaseOf(c), f), Magnitude(num, f), BaseOf(c), f.large)
    ensures BaseOf(c) == if c == 100 || c == 105 || c == 117 then 10 else 16
  {
    NumeralWrites(Magnitude(num, f), BaseOf(c), f.large);
  }

  lemma FlagFields(c: byte, m: Directive)
    requires IsNumber(c)
    ensures var f := FlagsOf(c, m);
            && f.left == m.flags.left && f.large == (c == 88)
            && f.zeroPad == (m.flags.zeroPad || (c == 112 && m.width == -1))
  {
  }

  // ---------------------------------------------------------------- the other conversions

  /** A text in its field, and what stands around it. */
  predicate InField(text: bytes, shown: bytes, width: int, left: bool, a: nat, b: nat) {
    && text == Repeat(32, a) + (shown + Repeat(32, b))
    && (a > 0 ==> !left) && (b > 0 ==> left) && a + |shown| + b == Max(width, |shown|)
  }

  lemma FieldLaid(shown: bytes, width: int, left: bool) returns (a: nat, b: nat)
    ensures InField(Field(shown, width, left), shown, width, left, a, b)
  {
    var pad := Max(0, width - |shown|);
    a, b := if left then 0 else pad, if left then pad else 0;
  }

  /** %c shows the low byte of its argument. */
  lemma ByteDirective(d: Spelling, args: nat -> Arg, k: nat) returns (a: nat, b: nat)
    requires d.Valid()
    ensures var m := d.Meaning(args, k, |d.Text()|);
            InField(Output(d.Text() + [99], 0, args, k), [args(m.next).w % 256], m.width, m.flags.left, a, b)
  {
    OneDirective(d, 99, args, k);
    var m := d.Meaning(args, k, |d.Text()|);
    hide Output, Spelling.Text, Spelling.Meaning, Field, NumberText;
    MeaningAt(d, args, k, |d.Text()|);
    a, b := FieldLaid([args(m.next).w % 256], m.width, m.flags.left);
  }

  /** %s shows its string, or (NULL), cut to the precision unless that is 0. */
  lemma TextDirective(d: Spelling, args: nat -> Arg, k: nat) returns (a: nat, b: nat)
    requires d.Valid()
    ensures var m := d.Meaning(args, k, |d.Text()|);
            InField(Output(d.Text() + [115], 0, args, k), TextOf(args(m.next), m.precision), m.width, m.flags.left,
                    a, b)
  {
    var m := d.Meaning(args, k, |d.Text()|);
    StringDirective(d, args, k);
    ShownIs(args(m.next), m.precision);
    hide *;
    a, b := FieldLaid(Shown(args(m.next), m.precision), m.width, m.flags.left);
  }

  function TextOf(a: Arg, precision: int): bytes {
    var t := match a.text case None => Ascii("(NULL)") case Some(s) => s;
    if 0 < precision < |t| then t[..precision] else t
  }

  lemma ShownIs(a: Arg, precision: int)
    ensures Shown(a, precision) == TextOf(a, precision)
  {
    assert NULL_STRING == Ascii("(NULL)");
  }

  /** A percent sign behind a directive is put out alone, whatever was asked for; so is that of a
      directive with any other byte behind it, followed by that byte. */
  lemma PercentDirective(d: Spelling, c: byte, args: nat -> Arg, k: nat)
    requires d.Valid() && Ends(c, d.qualifier) && c != 0 && !IsNumber(c) && c != 99 && c != 115
    ensures Output(d.Text() + [c], 0, args, k) == if c == 37 then [37] else [37, c]
  {
    OneDirective(d, c, args, k);
    hide Output, Spelling.Text, Spelling.Meaning;
    MeaningAt(d, args, k, |d.Text()|);
  }

  /** A directive that the end of the format cuts off puts out its percent sign. */
  lemma OpenDirective(d: Spelling, args: nat -> Arg, k: nat)
    requires d.Valid()
    ensures Output(d.Text(), 0, args, k) == [37]
  {
    hide Has, DirectiveAt, Converted, Spelling.WidthText, Spelling.Meaning;
    var fmt := d.Text();
    HasSlice(fmt, 0, fmt);
    assert fmt[0..|fmt|] == fmt && At(fmt, |fmt|) == 0 && At(fmt, 0) == PERCENT;
    DirectiveReads(d, fmt, 0, args, k);
    var m := d.Meaning(args, k, |fmt|);
    MeaningAt(d, args, k, |fmt|);
    assert Output(fmt, |fmt|, args, Used(fmt, m)) == [];
    CutConversion(fmt, m, args);
  }

  lemma CutConversion(fmt: bytes, m: Directive, args: nat -> Arg)
    requires At(fmt, m.at) == 0
    ensures Converted(fmt, m, args) == [37] && After(fmt, m) == m.at
  {
  }

  // ---------------------------------------------------------------- formats

  /** A piece of a format: text without a percent sign, or a directive and its conversion character. */
  datatype Segment = Literal(text: bytes) | Conversion(d: Spelling, c: byte)

  predicate ValidSegment(g: Segment) {
    match g
    case Literal(text) => NulFree(text) && 37 !in text
    case Conversion(d, c) => d.Valid() && Ends(c, d.qualifier) && c != 0
  }

  function SegmentText(g: Segment): bytes {
    match g
    case Literal(text) => text
    case Conversion(d, c) => d.Text() + [c]
  }

  function FormatOf(gs: seq<Segment>): bytes {
    if gs == [] then [] else SegmentText(gs[0]) + FormatOf(gs[1..])
  }

  /** How many arguments a piece uses up: one for each star, and one for what is converted. */
  function Uses(g: Segment): nat {
    match g
    case Literal(_) => 0
    case Conversion(d, c) =>
      (if d.width.Next? then 1 else 0) + (if d.precision == Some(Next) then 1 else 0)
      + if IsNumber(c) || c == 99 || c == 115 then 1 else 0
  }

  /** What a piece puts out by itself. */
  function Piece(g: Segment, args: nat -> Arg, k: nat): bytes {
    match g
    case Literal(text) => text
    case Conversion(d, c) => Output(d.Text() + [c], 0, args, k)
  }

  /** Each piece by itself, with the arguments that are left for it. */
  function Pieces(gs: seq<Segment>, args: nat -> Arg, k: nat): bytes
    decreases gs
  {
    if gs == [] then [] else Piece(gs[0], args, k) + Pieces(gs[1..], args, k + Uses(gs[0]))
  }

  /** The output of a format is the output of its pieces, one after the other. */
  lemma {:induction false} FormatOutput(gs: seq<Segment>, fmt: bytes, i: nat, args: nat -> Arg, k: nat)
    requires (forall g :: g in gs ==> ValidSegment(g)) && Has(fmt, i, FormatOf(gs)) && At(fmt, i + |FormatOf(gs)|) == 0
    ensures Output(fmt, i, args, k) == Pieces(gs, args, k)
    decreases gs
  {
    hide Has, Output, ValidSegment, Piece, SegmentText, Uses;
    if gs == [] {
      OutputEnds([], fmt, i, args, k);
      assert [] + Output(fmt, i, args, k) == Output(fmt, i, args, k);
    } else {
      assert gs[0] in gs;
      var w := SegmentText(gs[0]);
      HasSplit(fmt, i, w, FormatOf(gs[1..]));
      FormatOutput(gs[1..], fmt, i + |w|, args, k + Uses(gs[0]));
      SegmentOutput(gs[0], fmt, i, args, k);
    }
  }

  lemma SegmentOutput(g: Segment, fmt: bytes, i: nat, args: nat -> Arg, k: nat)
    requires ValidSegment(g) && Has(fmt, i, SegmentText(g))
    ensures Output(fmt, i, args, k) == Piece(g, args, k) + Output(fmt, i + |SegmentText(g)|, args, k + Uses(g))
  {
    hide Output, Has, Spelling.Text, Spelling.Valid, Ends, NulFree;
    match g
    case Literal(text) => LiteralOutput(text, fmt, i, args, k);
    case Conversion(d, c) => ConversionOutput(d, c, fmt, i, args, k);
  }

  lemma {:induction false} LiteralOutput(w: bytes, fmt: bytes, i: nat, args: nat -> Arg, k: nat)
    requires Has(fmt, i, w) && NulFree(w) && 37 !in w
    ensures Output(fmt, i, args, k) == w + Output(fmt, i + |w|, args, k)
    decreases w
  {
    hide DirectiveAt, Converted, After, Used, Output;
    if w != [] {
      LiteralByte(w, fmt, i, args, k);
      LiteralOutput(w[1..], fmt, i + 1, args, k);
      assert [w[0]] + (w[1..] + Output(fmt, i + |w|, args, k)) == w + Output(fmt, i + |w|, args, k);
    } else {
      assert [] + Output(fmt, i, args, k) == Output(fmt, i, args, k);
    }
  }

  lemma LiteralByte(w: bytes, fmt: bytes, i: nat, args: nat -> Arg, k: nat)
    requires w != [] && Has(fmt, i, w) && w[0] != 0 && 37 !in w
    ensures Output(fmt, i, args, k) == [w[0]] + Output(fmt, i + 1, args, k)
  {
    hide DirectiveAt, Converted, After, Used;
    assert At(fmt, i) == w[0] && w[0] in w;
  }

  lemma ConversionOutput(d: Spelling, c: byte, fmt: bytes, i: nat, args: nat -> Arg, k: nat)
    requires d.Valid() && Ends(c, d.qualifier) && c != 0 && Has(fmt, i, d.Text() + [c])
    ensures Output(fmt, i, args, k) ==
            Output(d.Text() + [c], 0, args, k) + Output(fmt, i + |d.Text()| + 1, args, k + Uses(Conversion(d, c)))
  {
    hide Has, DirectiveAt, Spelling.Text, Spelling.WidthText, Spelling.Meaning, Converted, Used, After;
    var w := d.Text();
    HasSplit(fmt, i, w, [c]);
    HasAt(fmt, i + |w|, [c], 0);
    PercentFirst(d, fmt, i);
    DirectiveReads(d, fmt, i, args, k);
    OneDirective(d, c, args, k);
    var m := d.Meaning(args, k, i + |w|);
    MeaningAt(d, args, k, i + |w|);
    MeaningAt(d, args, k, |w|);
    SameConversion(fmt, m, w + [c], d.Meaning(args, k, |w|), args);
    UsedUp(d, c, fmt, args, k, i + |w|);
  }

  lemma SameConversion(fmt: bytes, m: Directive, fmt': bytes, m': Directive, args: nat -> Arg)
    requires m' == m.(at := m'.at) && At(fmt, m.at) == At(fmt', m'.at)
    ensures Converted(fmt, m, args) == Converted(fmt', m', args)
  {
    hide NumberText, Field, Shown;
  }

  lemma UsedUp(d: Spelling, c: byte, fmt: bytes, args: nat -> Arg, k: nat, at: nat)
    requires At(fmt, at) == c && c != 0
    ensures Used(fmt, d.Meaning(args, k, at)) == k + Uses(Conversion(d, c))
    ensures After(fmt, d.Meaning(args, k, at)) == at + 1
  {
  }

  lemma PercentFirst(d: Spelling, fmt: bytes, i: nat)
    requires Has(fmt, i, d.Text())
    ensures At(fmt, i) == 37 && i < |fmt|
  {
    HasAt(fmt, i, d.Text(), 0);
  }

  /** A whole format. */
  lemma WholeFormat(gs: seq<Segment>, args: nat -> Arg)
    requires forall g :: g in gs ==> ValidSegment(g)
    ensures Output(FormatOf(gs), 0, args, 0) == Pieces(gs, args, 0)
  {
    hide *;
    WholeText(FormatOf(gs));
    FormatOutput(gs, FormatOf(gs), 0, args, 0);
  }

  lemma WholeText(fmt: bytes)
    ensures Has(fmt, 0, fmt) && At(fmt, 0 + |fmt|) == 0
  {
    HasSlice(fmt, 0, fmt);
    assert fmt[0..|fmt|] == fmt;
  }

  /** A buffer that would run past the end of memory ends at the last byte but one of it. */
  lemma RoomIs(buf: word, size: word)
    ensures Room(buf, size) == if buf + size < 0x1_0000_0000 then size else 0xffff_ffff - buf
  {
  }
}
