/** Parsing what was printed gives back the value, in both formats. */
module JsonRoundTrip {
  import opened CText
  import opened StringCodec
  import opened Json

  /** A character that cannot prolong a number. */
  predicate EndsNumber(c: byte) {
    !Digit(c) && c != DOT && !ExponentMark(c)
  }

  lemma SkipNothing(s: bytes, i: nat)
    requires At(s, i) == 0 || At(s, i) > 32
    ensures Skip(s, i) == i
  {
  }

  lemma {:induction false} SkipBlanks(s: bytes, i: nat, n: nat)
    requires forall k :: i <= k < i + n ==> 0 < At(s, k) <= 32
    ensures Skip(s, i) == Skip(s, i + n)
    decreases n
  {
    if n > 0 {
      SkipBlanks(s, i + 1, n - 1);
    }
  }

  lemma SkipText(s: bytes, i: nat, w: bytes)
    requires Has(s, i, w) && forall k :: 0 <= k < |w| ==> 0 < w[k] <= 32
    ensures Skip(s, i) == Skip(s, i + |w|)
  {
    forall k | i <= k < i + |w| ensures 0 < At(s, k) <= 32 {
      HasAt(s, i, w, k - i);
    }
    SkipBlanks(s, i, |w|);
  }

  lemma FirstByte(s: bytes, i: nat, w: bytes)
    requires Has(s, i, w) && w != []
    ensures At(s, i) == w[0]
  {
    HasAt(s, i, w, 0);
  }

  /** No text starts with a blank or a closing bracket or brace. */
  lemma PrintStart(v: Value, depth: nat, fmt: bool)
    ensures var w := Print(v, depth, fmt); |w| > 0 && w[0] > 32 && w[0] != CLOSE_BRACKET && w[0] != CLOSE_BRACE
  {
    if v.Number? {
      var n := if v.m < 0 then -v.m else v.m;
      assert Digit(Digits(n)[0]);
    }
  }

  /** An integer with an optional fraction and an optional exponent. */
  datatype NumberText = NumberText(minus: bool, whole: bytes, frac: Option<bytes>, exp: Option<Exponent>) {
    /** What parse_number takes for a number: one zero may stand in front of other digits, and the
        digits behind a minus or of an exponent may be missing. */
    predicate Valid() {
      && AllDigits(whole) && (|whole| > 1 && whole[0] == ZERO ==> whole[1] != ZERO) && (minus || whole != [])
      && (frac.Some? ==> AllDigits(frac.value) && frac.value != [])
      && (exp.Some? ==> exp.value.Valid())
    }

    /** Section 6 of RFC 8259. */
    predicate Strict() {
      && Valid() && whole != [] && (whole[0] == ZERO ==> |whole| == 1)
      && (exp.Some? ==> exp.value.digits != [])
    }

    /** What stands at e, right behind the number, does not prolong it. */
    predicate Stops(s: bytes, e: nat) {
      var c := At(s, e);
      if exp.Some? then !Digit(c) && (exp.value.Bare() ==> c != PLUS && c != MINUS)
      else
        && !ExponentMark(c)
        && if frac.Some? then !Digit(c)
           else !(c == DOT && Digit(At(s, e + 1))) && (Digit(c) ==> c == ZERO && whole == [ZERO])
    }

    function Places(): bytes { if frac.None? then [] else frac.value }

    function FracText(): bytes { if frac.None? then [] else [DOT] + frac.value }

    function ExpText(): bytes { if exp.None? then [] else exp.value.Text() }

    function Text(): bytes { (if minus then [MINUS] else []) + (whole + (FracText() + ExpText())) }

    /** All of its digits as an integer. */
    function Mantissa(): int
      requires Valid()
    {
      var n := Fold(0, whole + Places());
      if minus then -1 * n else n
    }

    function Power(): int
      requires Valid()
    {
      (if exp.None? then 0 else exp.value.Amount()) - |Places()|
    }
  }

  datatype Exponent = Exponent(mark: byte, sign: bytes, digits: bytes) {
    predicate Valid() {
      ExponentMark(mark) && (sign == [] || sign == [PLUS] || sign == [MINUS]) && AllDigits(digits)
    }

    function Text(): bytes { [mark] + (sign + digits) }

    predicate Bare() { sign == [] && digits == [] }

    function Amount(): int
      requires Valid()
    {
      if sign == [MINUS] then -1 * Fold(0, digits) else Fold(0, digits)
    }
  }

  /** The exponent, without its sign, can be held by an int. */
  predicate SmallExponent(d: NumberText)
    requires d.Valid()
  {
    d.exp.Some? ==> Fold(0, d.exp.value.digits) <= INT_MAX
  }

  /** A number means its digits times ten to the exponent less the digits of the fraction, if and only
      if the exponent fits an int; where it does not, parse_number overflows. */
  lemma NumberRead(d: NumberText, s: bytes, i: nat)
    requires d.Valid() && Has(s, i, d.Text()) && d.Stops(s, i + |d.Text()|)
    ensures ParseValue(s, i) ==
            if SmallExponent(d) then Ok(Number(d.Mantissa(), d.Power()), i + |d.Text()|) else Broken
  {
    NumberMeaning(d, s, i);
    hide ParseNumber, Fold, NumberText.Mantissa, NumberText.Power;
    NumberFirst(d, s, i);
    OnlyWord(s, i);
  }

  lemma NumberFirst(d: NumberText, s: bytes, i: nat)
    requires d.Valid() && Has(s, i, d.Text())
    ensures At(s, i) == MINUS || Digit(At(s, i))
  {
    hide Has;
    var c := TextParts(d, s, i);
    assert d.whole != [] ==> Digit(d.whole[0]);
  }

  /** A number of RFC 8259 is prolonged by a digit, a point or an exponent mark only. */
  lemma StrictStops(d: NumberText, s: bytes, e: nat)
    requires d.Strict() && EndsNumber(At(s, e))
    ensures d.Stops(s, e)
  {
  }

  /** 1e2147483648 is a number text on which parse_number overflows. */
  lemma LargeExponent()
    ensures var w := [49, 101] + Digits(2147483648); ParseValue(w, 0) == Broken
  {
    hide Digits, Fold, Has, ParseValue, EndsNumber, NumberText.Text, NumberText.Valid, SmallExponent;
    var digits := Digits(2147483648);
    FoldDigits(2147483648);
    LargeText(digits);
    StrictStops(LargeNumber(digits), [49, 101] + digits, 0 + |[49, 101] + digits|);
    NumberRead(LargeNumber(digits), [49, 101] + digits, 0);
  }

  function LargeNumber(digits: bytes): NumberText { NumberText(false, [49], None, Some(Exponent(101, [], digits))) }

  lemma LargeText(digits: bytes)
    requires AllDigits(digits) && digits != [] && Fold(0, digits) > INT_MAX
    ensures var d, w := LargeNumber(digits), [49, 101] + digits;
            && d.Strict() && d.Valid() && d.Text() == w && !SmallExponent(d) && Has(w, 0, w)
            && EndsNumber(At(w, 0 + |w|))
  {
    hide Fold;
    var w := [49, 101] + digits;
    assert [] + ([49] + ([] + ([101] + ([] + digits)))) == w;
    HasSlice(w, 0, w);
    assert w[0..|w|] == w;
  }

  /** The digits of any number text, kept exact. */
  lemma NumberMeaning(d: NumberText, s: bytes, i: nat)
    requires d.Valid() && Has(s, i, d.Text()) && d.Stops(s, i + |d.Text()|)
    ensures ParseNumber(s, i) == Ok(Number(d.Mantissa(), d.Power()), i + |d.Text()|)
    ensures i <= |s| && (ExponentFits(s, i) <==> SmallExponent(d))
  {
    hide Has, Fold, RunValue, IntegerStart, ExponentStart, NumberText.Stops, NumberText.Text, Exponent.Amount,
        ExponentMark, Digit, Exponent.Text;
    NumberParts(d, s, i);
    var b, c := IntegerStart(s, i), IntegerEnd(s, i);
    var e := c + |d.FracText()|;
    FoldThrough(0, d.whole, d.Places());
    var n := RunValue(0, s, b, c);
    var all: int := Fold(0, d.whole + d.Places());
    if d.frac.None? {
      assert d.whole + [] == d.whole;
    } else {
      assert RunValue(n, s, c + 1, e) == all;
    }
    assert (if At(s, i) == MINUS then -all else all) == d.Mantissa();
    assert FractionEnd(s, c) == e && (if e > c then c + 1 - e else 0) == -|d.Places()|;
  }

  /** Where the loops of parse_number stop in such a text, and what they have added up by then. */
  lemma NumberParts(d: NumberText, s: bytes, i: nat)
    requires d.Valid() && Has(s, i, d.Text()) && d.Stops(s, i + |d.Text()|)
    ensures var c, end := IntegerEnd(s, i), i + |d.Text()|;
            && (At(s, i) == MINUS <==> d.minus)
            && IntegerStart(s, i) <= c <= |s| && RunValue(0, s, IntegerStart(s, i), c) == Fold(0, d.whole)
            && FracIs(d, s, c) && ExpIs(d, s, c + |d.FracText()|) && end == c + |d.FracText()| + |d.ExpText()|
  {
    hide Fold, RunValue, RunEnd, IntegerStart, IntegerEnd, FractionEnd, ExponentStart, Has, NumberText.Text,
        NumberText.ExpText, Digit, AllDigits;
    var c := TextParts(d, s, i);
    var e := c + |d.FracText()|;
    Borders(d, s, c);
    FracRead(d, s, c);
    WholeRead(d, s, i);
    ExpRead(d, s, e);
  }

  /** Where the parts of the text stand. */
  lemma TextParts(d: NumberText, s: bytes, i: nat) returns (c: nat)
    requires d.Valid() && Has(s, i, d.Text())
    ensures var a := if d.minus then i + 1 else i;
            && c == a + |d.whole| && Has(s, a, d.whole) && (At(s, i) == MINUS <==> d.minus)
            && (d.minus || At(s, i) == d.whole[0])
    ensures Has(s, c, d.FracText()) && Has(s, c + |d.FracText()|, d.ExpText())
    ensures i + |d.Text()| == c + |d.FracText()| + |d.ExpText()|
  {
    hide Has;
    var lead := if d.minus then [MINUS] else [];
    var a := i + |lead|;
    c := a + |d.whole|;
    HasSplit(s, i, lead, d.whole + (d.FracText() + d.ExpText()));
    HasSplit(s, a, d.whole, d.FracText() + d.ExpText());
    HasSplit(s, c, d.FracText(), d.ExpText());
    if d.minus {
      FirstByte(s, i, lead);
    } else {
      FirstByte(s, a, d.whole);
      assert Digit(d.whole[0]);
    }
  }

  /** What stands behind the integer and behind the fraction. */
  lemma Borders(d: NumberText, s: bytes, c: nat)
    requires d.Valid() && Has(s, c, d.FracText()) && Has(s, c + |d.FracText()|, d.ExpText())
    requires d.Stops(s, c + |d.FracText()| + |d.ExpText()|)
    ensures var e := c + |d.FracText()|;
            && (ExponentMark(At(s, e)) <==> d.exp.Some?) && (d.frac.Some? ==> !Digit(At(s, e)))
            && (d.frac.None? ==> !(At(s, c) == DOT && Digit(At(s, c + 1))))
            && (Digit(At(s, c)) ==> At(s, c) == ZERO && d.whole == [ZERO])
  {
    var e := c + |d.FracText()|;
    if d.exp.Some? {
      FirstByte(s, e, d.ExpText());
    }
    if d.frac.Some? {
      FirstByte(s, c, d.FracText());
    }
  }

  ghost predicate FracIs(d: NumberText, s: bytes, c: nat)
    requires d.Valid()
  {
    && FractionEnd(s, c) == c + |d.FracText()| <= |s|
    && (d.frac.Some? ==> RunValue(Fold(0, d.whole), s, c + 1, c + |d.FracText()|) == Fold(Fold(0, d.whole), d.Places()))
  }

  ghost predicate ExpIs(d: NumberText, s: bytes, e: nat)
    requires d.Valid()
  {
    && (ExponentMark(At(s, e)) <==> d.exp.Some?)
    && (d.exp.Some? ==>
          var f := ExponentStart(s, e);
          && RunEnd(s, f) == e + |d.ExpText()| <= |s|
          && var n: int := RunValue(0, s, f, RunEnd(s, f));
             n == Fold(0, d.exp.value.digits) && d.exp.value.Amount() == if At(s, e + 1) == MINUS then -n else n)
  }

  lemma DigitRun(s: bytes, i: nat, w: bytes, acc: nat)
    requires Has(s, i, w) && AllDigits(w) && !Digit(At(s, i + |w|))
    ensures RunEnd(s, i) == i + |w| <= |s| && RunValue(acc, s, i, i + |w|) == Fold(acc, w)
  {
    RunEndOf(s, i, w);
    HasSlice(s, i, w);
  }

  lemma WholeRead(d: NumberText, s: bytes, i: nat)
    requires d.Valid()
    requires var c := (if d.minus then i + 1 else i) + |d.whole|;
             Digit(At(s, c)) ==> At(s, c) == ZERO && d.whole == [ZERO]
    requires Has(s, if d.minus then i + 1 else i, d.whole) && (At(s, i) == MINUS <==> d.minus)
    ensures var b, c := IntegerStart(s, i), IntegerEnd(s, i);
            c == (if d.minus then i + 1 else i) + |d.whole| && b <= c <= |s|
            && RunValue(0, s, b, c) == Fold(0, d.whole)
  {
    hide RunEnd, RunValue, Fold, Has;
    var a := if d.minus then i + 1 else i;
    if d.whole == [] {
      NoDigit(s, a, d.whole);
    } else {
      FirstByte(s, a, d.whole);
      assert Digit(d.whole[0]);
      if d.whole[0] == ZERO {
        ZeroRead(s, a, d.whole);
      } else {
        DigitRun(s, a, d.whole, 0);
      }
    }
  }

  lemma NoDigit(s: bytes, a: nat, w: bytes)
    requires w == [] && Has(s, a, w)
    ensures a <= |s| && RunValue(0, s, a, a) == Fold(0, w) == 0
  {
    assert s[a..a] == [];
  }

  /** A zero in front is passed over, and the digits behind it are read. */
  lemma ZeroRead(s: bytes, a: nat, w: bytes)
    requires Has(s, a, w) && AllDigits(w) && w != [] && w[0] == ZERO && (|w| > 1 ==> w[1] != ZERO)
    requires Digit(At(s, a + |w|)) ==> At(s, a + |w|) == ZERO && w == [ZERO]
    ensures var c := if ZERO < At(s, a + 1) <= NINE then RunEnd(s, a + 1) else a + 1;
            a + 1 <= c == a + |w| <= |s| && RunValue(0, s, a + 1, c) == Fold(0, w)
  {
    assert Has(s, a + 1, w[1..]) && Fold(0, w) == Fold(0, w[1..]);
    if |w| == 1 {
      NoDigit(s, a + 1, w[1..]);
    } else {
      assert Digit(w[1]);
      FirstByte(s, a + 1, w[1..]);
      DigitRun(s, a + 1, w[1..], 0);
    }
  }

  lemma FracRead(d: NumberText, s: bytes, c: nat)
    requires d.Valid() && Has(s, c, d.FracText()) && (d.frac.Some? ==> !Digit(At(s, c + |d.FracText()|)))
    requires d.frac.None? ==> !(At(s, c) == DOT && Digit(At(s, c + 1)))
    ensures FracIs(d, s, c)
  {
    if d.frac.Some? {
      HasSplit(s, c, [DOT], d.frac.value);
      FirstByte(s, c, [DOT]);
      FirstByte(s, c + 1, d.frac.value);
      DigitRun(s, c + 1, d.frac.value, Fold(0, d.whole));
    }
  }

  lemma ExpRead(d: NumberText, s: bytes, e: nat)
    requires d.Valid() && Has(s, e, d.ExpText()) && d.Stops(s, e + |d.ExpText()|)
    requires ExponentMark(At(s, e)) <==> d.exp.Some?
    ensures ExpIs(d, s, e)
  {
    hide Has, RunValue, RunEnd;
    if d.exp.Some? {
      var x := d.exp.value;
      HasSplit(s, e, [x.mark], x.sign + x.digits);
      HasSplit(s, e + 1, x.sign, x.digits);
      if x.sign != [] {
        FirstByte(s, e + 1, x.sign);
      } else if x.digits != [] {
        FirstByte(s, e + 1, x.digits);
        assert Digit(x.digits[0]);
      }
      assert ExponentStart(s, e) == e + 1 + |x.sign|;
      DigitRun(s, e + 1 + |x.sign|, x.digits, 0);
    }
  }

  /** Whatever starts like a number is one, up to where parse_number stops. */
  lemma NumberStands(s: bytes, i: nat) returns (d: NumberText)
    requires i <= |s| && (At(s, i) == MINUS || Digit(At(s, i)))
    ensures d.Valid() && Has(s, i, d.Text()) && d.Stops(s, i + |d.Text()|)
    ensures ParseNumber(s, i).end == i + |d.Text()|
  {
    hide Has, ParseNumber, RunEnd, ExponentMark, ExponentStart, NumberText.Stops, NumberText.Text, AllDigits,
        FractionEnd, WholeAt, FracAt, ExpAt, Exponent.Valid;
    NumberEnds(s, i);
    var minus := At(s, i) == MINUS;
    var a := if minus then i + 1 else i;
    var c := IntegerEnd(s, i);
    var e := FractionEnd(s, c);
    var whole := WholeOf(s, a, c);
    var frac := FracOf(s, c, e);
    var exp, g := ExpOf(s, e);
    d := NumberText(minus, whole, frac, exp);
    PartsStand(d, s, i, a, c, e, g);
    StopsBehind(d, s, a, c, e, g);
  }

  /** The integer part stands between a and c and is not prolonged there. */
  predicate WholeAt(s: bytes, a: nat, c: nat, w: bytes) {
    Has(s, a, w) && c == a + |w| && (Digit(At(s, c)) ==> At(s, c) == ZERO && w == [ZERO])
  }

  /** The same for the fraction. */
  predicate FracAt(s: bytes, c: nat, e: nat, f: Option<bytes>) {
    match f
    case None => e == c && !(At(s, c) == DOT && Digit(At(s, c + 1)))
    case Some(w) => Has(s, c, [DOT] + w) && e == c + |w| + 1 && !Digit(At(s, e))
  }

  /** The same for the exponent. */
  predicate ExpAt(s: bytes, e: nat, g: nat, x: Option<Exponent>) {
    match x
    case None => g == e && !ExponentMark(At(s, e))
    case Some(y) =>
      && Has(s, e, y.Text()) && g == e + |y.Text()| && !Digit(At(s, g))
      && (y.Bare() ==> At(s, g) != PLUS && At(s, g) != MINUS)
  }

  lemma StopsBehind(d: NumberText, s: bytes, a: nat, c: nat, e: nat, g: nat)
    requires WholeAt(s, a, c, d.whole) && FracAt(s, c, e, d.frac) && ExpAt(s, e, g, d.exp)
    ensures d.Stops(s, g)
  {
    hide Has;
  }

  lemma NumberEnds(s: bytes, i: nat)
    requires i <= |s|
    ensures var e := FractionEnd(s, IntegerEnd(s, i));
            ParseNumber(s, i).end == if ExponentMark(At(s, e)) then RunEnd(s, ExponentStart(s, e)) else e
  {
    hide RunValue;
  }

  lemma PartsStand(d: NumberText, s: bytes, i: nat, a: nat, c: nat, e: nat, g: nat)
    requires i <= |s| && (if d.minus then At(s, i) == MINUS && a == i + 1 else a == i)
    requires WholeAt(s, a, c, d.whole) && FracAt(s, c, e, d.frac) && ExpAt(s, e, g, d.exp)
    ensures Has(s, i, d.Text()) && i + |d.Text()| == g
  {
    PartTexts(d, s, a, c, e, g);
    hide Has, NumberText.FracText, NumberText.ExpText, WholeAt, FracAt, ExpAt;
    var rest := d.FracText() + d.ExpText();
    HasSplit(s, c, d.FracText(), d.ExpText());
    HasSplit(s, a, d.whole, rest);
    if d.minus {
      ByteStands(s, i, MINUS);
    } else {
      Nothing(s, i);
    }
    HasSplit(s, i, if d.minus then [MINUS] else [], d.whole + rest);
  }

  lemma PartTexts(d: NumberText, s: bytes, a: nat, c: nat, e: nat, g: nat)
    requires WholeAt(s, a, c, d.whole) && FracAt(s, c, e, d.frac) && ExpAt(s, e, g, d.exp)
    ensures c == a + |d.whole| && e == c + |d.FracText()| && g == e + |d.ExpText()|
    ensures Has(s, a, d.whole) && Has(s, c, d.FracText()) && Has(s, e, d.ExpText())
  {
    HasEnds(s, a, d.whole);
    hide Has, Exponent.Text;
    Nothing(s, c);
    if d.frac.Some? {
      HasEnds(s, c, d.FracText());
    }
    Nothing(s, e);
  }

  lemma HasEnds(s: bytes, i: nat, w: bytes)
    requires Has(s, i, w)
    ensures i + |w| <= |s|
  {
  }

  lemma Nothing(s: bytes, i: nat)
    requires i <= |s|
    ensures Has(s, i, [])
  {
  }

  lemma ByteStands(s: bytes, i: nat, c: byte)
    requires At(s, i) == c && c != 0
    ensures Has(s, i, [c])
  {
  }

  lemma SliceStands(s: bytes, a: nat, b: nat)
    requires a <= b <= |s|
    ensures Has(s, a, s[a..b]) && (forall k :: a <= k < b ==> At(s, k) == s[a..b][k - a])
  {
    HasSlice(s, a, s[a..b]);
  }

  lemma WholeOf(s: bytes, a: nat, c: nat) returns (w: bytes)
    requires a <= |s|
    requires var b := if At(s, a) == ZERO then a + 1 else a; c == if ZERO < At(s, b) <= NINE then RunEnd(s, b) else b
    ensures WholeAt(s, a, c, w) && c <= |s| && AllDigits(w) && (|w| > 1 && w[0] == ZERO ==> w[1] != ZERO)
    ensures Digit(At(s, a)) ==> w != []
  {
    w := s[a..c];
    SliceStands(s, a, c);
    assert forall k :: 0 <= k < |w| ==> w[k] == At(s, a + k);
  }

  lemma FracOf(s: bytes, c: nat, e: nat) returns (f: Option<bytes>)
    requires c <= |s| && e == FractionEnd(s, c)
    ensures FracAt(s, c, e, f) && e <= |s| && (f.Some? ==> AllDigits(f.value) && f.value != [])
  {
    if At(s, c) == DOT && Digit(At(s, c + 1)) {
      var w := s[c + 1..e];
      SliceStands(s, c + 1, e);
      assert forall k :: 0 <= k < |w| ==> w[k] == At(s, c + 1 + k);
      f := Some(w);
      ByteStands(s, c, DOT);
      HasSplit(s, c, [DOT], w);
    } else {
      f := None;
    }
  }

  lemma ExpOf(s: bytes, e: nat) returns (x: Option<Exponent>, g: nat)
    requires e <= |s|
    ensures ExpAt(s, e, g, x) && (x.Some? ==> x.value.Valid())
    ensures g == if ExponentMark(At(s, e)) then RunEnd(s, ExponentStart(s, e)) else e
  {
    g := e;
    if ExponentMark(At(s, e)) {
      var f := ExponentStart(s, e);
      g := RunEnd(s, f);
      var sign, digits := s[e + 1..f], s[f..g];
      SliceStands(s, e + 1, f);
      SliceStands(s, f, g);
      assert forall k :: 0 <= k < |digits| ==> digits[k] == At(s, f + k);
      x := Some(Exponent(At(s, e), sign, digits));
      ByteStands(s, e, At(s, e));
      HasSplit(s, e + 1, sign, digits);
      HasSplit(s, e, [At(s, e)], sign + digits);
    } else {
      x := None;
    }
  }

  lemma NumberTrip(n: int, s: bytes, i: nat)
    requires Has(s, i, Decimal(n)) && EndsNumber(At(s, i + |Decimal(n)|))
    ensures ParseNumber(s, i) == Ok(Number(n, 0), i + |Decimal(n)|) && i <= |s| && ExponentFits(s, i)
  {
    hide *;
    IntegerText(n);
    StrictStops(IntegerNumber(n), s, i + |Decimal(n)|);
    NumberMeaning(IntegerNumber(n), s, i);
  }

  function IntegerNumber(n: int): NumberText {
    NumberText(n < 0, Digits(if n < 0 then -n else n), None, None)
  }

  lemma IntegerText(n: int)
    ensures var d := IntegerNumber(n);
            d.Strict() && d.Valid() && d.Text() == Decimal(n) && d.Mantissa() == n && d.Power() == 0 && SmallExponent(d)
  {
    hide Fold, Digits, NumberText.Stops;
    var d := IntegerNumber(n);
    SingleZero(if n < 0 then -n else n);
    FoldDigits(if n < 0 then -n else n);
    assert Digit(d.whole[0]);
    assert d.whole + ([] + []) == d.whole && [] + d.whole == d.whole && d.whole + [] == d.whole;
  }

  lemma SingleZero(n: nat)
    ensures Digits(n)[0] == ZERO ==> |Digits(n)| == 1
  {
  }

  lemma WordTrip(v: Value, s: bytes, i: nat)
    requires v.Null? || v.True? || v.False?
    requires Has(s, i, Print(v, 0, false))
    ensures ParseValue(s, i) == Ok(v, i + |Print(v, 0, false)|)
  {
    FirstByte(s, i, Print(v, 0, false));
    OnlyWord(s, i);
  }

  /** The three words are told apart by their first letter. */
  lemma OnlyWord(s: bytes, i: nat)
    ensures Has(s, i, NULL_TEXT) ==> At(s, i) == 110
    ensures Has(s, i, FALSE_TEXT) ==> At(s, i) == 102
    ensures Has(s, i, TRUE_TEXT) ==> At(s, i) == 116
  {
    if Has(s, i, NULL_TEXT) {
      FirstByte(s, i, NULL_TEXT);
    }
    if Has(s, i, FALSE_TEXT) {
      FirstByte(s, i, FALSE_TEXT);
    }
    if Has(s, i, TRUE_TEXT) {
      FirstByte(s, i, TRUE_TEXT);
    }
  }

  /** parse_value undoes print_value wherever the text is not followed by more of a number. */
  lemma {:induction false} ValueTrip(v: Value, depth: nat, fmt: bool, s: bytes, i: nat)
    requires Printable(v) && Has(s, i, Print(v, depth, fmt))
    requires EndsNumber(At(s, i + |Print(v, depth, fmt)|))
    ensures ParseValue(s, i) == Ok(v, i + |Print(v, depth, fmt)|)
    decreases v, 1
  {
    hide Has, ParseItems, ParseMembers, ParseNumber, ParseString, PrintItems, PrintMembers, Escape;
    var w := Print(v, depth, fmt);
    PrintStart(v, depth, fmt);
    FirstByte(s, i, w);
    OnlyWord(s, i);
    match v
    case Number(m, _) => NumberTrip(m, s, i);
    case String(t) => ParseQuoted(s, i, t);
    case Array(items) => ArrayTrip(v, depth, fmt, s, i);
    case Object(members) => ObjectTrip(v, depth, fmt, s, i);
    case _ => WordTrip(v, s, i);
  }

  lemma {:induction false} ArrayTrip(v: Value, depth: nat, fmt: bool, s: bytes, i: nat)
    requires v.Array? && Printable(v) && Has(s, i, Print(v, depth, fmt))
    ensures ParseValue(s, i) == Ok(v, i + |Print(v, depth, fmt)|)
    decreases v, 0
  {
    FirstByte(s, i, Print(v, depth, fmt));
    OnlyWord(s, i);
    if v.items == [] {
      HasAt(s, i, Print(v, depth, fmt), 1);
      SkipNothing(s, i + 1);
    } else {
      var inner := PrintItems(v.items, depth + 1, fmt) + [CLOSE_BRACKET];
      assert Print(v, depth, fmt) == [OPEN_BRACKET] + inner;
      HasSplit(s, i, [OPEN_BRACKET], inner);
      FirstByte(s, i + 1, inner);
      PrintStart(v.items[0], depth + 1, fmt);
      SkipNothing(s, i + 1);
      ItemsTrip(v.items, depth + 1, fmt, s, i + 1);
      ArrayOf(s, i, v.items, i + |Print(v, depth, fmt)|);
    }
  }

  /** Where the parts of a text of items stand. */
  lemma ItemsText(items: seq<Value>, depth: nat, fmt: bool, s: bytes, i: nat) returns (j: nat, end: nat)
    requires items != [] && Has(s, i, PrintItems(items, depth, fmt) + [CLOSE_BRACKET])
    ensures Has(s, i, Print(items[0], depth, fmt)) && j == i + |Print(items[0], depth, fmt)|
    ensures end == i + |PrintItems(items, depth, fmt)|
    ensures |items| == 1 ==> At(s, j) == CLOSE_BRACKET && end == j
    ensures |items| > 1 ==>
              && At(s, j) == COMMA && Has(s, j, ItemSeparator(fmt))
              && Has(s, j + |ItemSeparator(fmt)|, PrintItems(items[1..], depth, fmt) + [CLOSE_BRACKET])
              && end == j + |ItemSeparator(fmt)| + |PrintItems(items[1..], depth, fmt)|
  {
    hide Has, Print;
    var first := Print(items[0], depth, fmt);
    j, end := i + |first|, i + |PrintItems(items, depth, fmt)|;
    if |items| == 1 {
      assert PrintItems(items, depth, fmt) == first;
      HasSplit(s, i, first, [CLOSE_BRACKET]);
      FirstByte(s, j, [CLOSE_BRACKET]);
    } else {
      var rest := PrintItems(items[1..], depth, fmt);
      Regroup(first, ItemSeparator(fmt), rest, [CLOSE_BRACKET]);
      HasSplit(s, i, first, ItemSeparator(fmt) + (rest + [CLOSE_BRACKET]));
      HasSplit(s, j, ItemSeparator(fmt), rest + [CLOSE_BRACKET]);
      FirstByte(s, j, ItemSeparator(fmt));
    }
  }

  lemma Regroup(a: bytes, b: bytes, c: bytes, d: bytes)
    ensures (a + (b + c)) + d == a + (b + (c + d))
    ensures ((a + b) + c) + d == a + (b + (c + d))
  {
  }

  lemma {:induction false} ItemsTrip(items: seq<Value>, depth: nat, fmt: bool, s: bytes, i: nat)
    requires items != [] && (forall x :: x in items ==> Printable(x))
    requires Has(s, i, PrintItems(items, depth, fmt) + [CLOSE_BRACKET])
    ensures ParseItems(s, i) == Ok(items, i + |PrintItems(items, depth, fmt)| + 1)
    decreases items, 1
  {
    hide *;
    var j, end := ItemsText(items, depth, fmt, s, i);
    ItemTrip(items[0], depth, fmt, s, i);
    if |items| == 1 {
      ItemsLast(s, i, items, j);
    } else {
      AfterComma(items[1..], depth, fmt, s, j);
      ItemsMore(s, i, items, j, end + 1);
    }
  }

  lemma {:induction false} ItemTrip(v: Value, depth: nat, fmt: bool, s: bytes, i: nat)
    requires Printable(v) && Has(s, i, Print(v, depth, fmt))
    requires var c := At(s, i + |Print(v, depth, fmt)|); c == COMMA || c == CLOSE_BRACKET
    ensures ParseValue(s, Skip(s, i)) == Ok(v, i + |Print(v, depth, fmt)|)
    ensures Skip(s, i + |Print(v, depth, fmt)|) == i + |Print(v, depth, fmt)|
    decreases v, 2
  {
    PrintStart(v, depth, fmt);
    FirstByte(s, i, Print(v, depth, fmt));
    SkipNothing(s, i);
    SkipNothing(s, i + |Print(v, depth, fmt)|);
    ValueTrip(v, depth, fmt, s, i);
  }

  lemma SkipItems(s: bytes, a: nat, b: nat)
    requires a <= |s| && b <= |s| && Skip(s, a) == Skip(s, b)
    ensures ParseItems(s, a) == ParseItems(s, b)
  {
  }

  /** Parsing the items may start right after the comma, before the blank of the formatted text. */
  lemma {:induction false} AfterComma(items: seq<Value>, depth: nat, fmt: bool, s: bytes, j: nat)
    requires items != [] && (forall x :: x in items ==> Printable(x))
    requires Has(s, j, ItemSeparator(fmt))
    requires Has(s, j + |ItemSeparator(fmt)|, PrintItems(items, depth, fmt) + [CLOSE_BRACKET])
    ensures ParseItems(s, j + 1) == Ok(items, j + |ItemSeparator(fmt)| + |PrintItems(items, depth, fmt)| + 1)
    decreases items, 2
  {
    hide PrintItems, ParseItems, Printable;
    ItemsTrip(items, depth, fmt, s, j + |ItemSeparator(fmt)|);
    if fmt {
      HasAt(s, j, ItemSeparator(fmt), 1);
      SkipBlanks(s, j + 1, 1);
      SkipItems(s, j + 1, j + 2);
    }
  }

  lemma {:induction false} ObjectTrip(v: Value, depth: nat, fmt: bool, s: bytes, i: nat)
    requires v.Object? && Printable(v) && Has(s, i, Print(v, depth, fmt))
    ensures ParseValue(s, i) == Ok(v, i + |Print(v, depth, fmt)|)
    decreases v, 0
  {
    FirstByte(s, i, Print(v, depth, fmt));
    OnlyWord(s, i);
    if v.members == [] {
      EmptyObjectTrip(v, depth, fmt, s, i);
    } else {
      FullObjectTrip(v.members, depth, fmt, s, i);
    }
  }

  lemma {:induction false} FullObjectTrip(members: seq<Member>, depth: nat, fmt: bool, s: bytes, i: nat)
    requires members != [] && (forall x :: x in members ==> NulFree(x.name) && Printable(x.value))
    requires Has(s, i, Print(Object(members), depth, fmt))
    ensures ParseValue(s, i) == Ok(Object(members), i + |Print(Object(members), depth, fmt)|)
    decreases members, 2
  {
    hide PrintMembers, ParseMembers, ParseValue, Printable;
    var open, tabs := [OPEN_BRACE] + if fmt then [NEWLINE] else [], if fmt then depth else 0;
    var inner := PrintMembers(members, depth + 1, fmt) + (Tabs(tabs) + [CLOSE_BRACE]);
    assert Print(Object(members), depth, fmt) == open + inner;
    HasSplit(s, i, open, inner);
    MembersTrip(members, depth + 1, fmt, tabs, s, i + |open|);
    EnterObject(members, depth + 1, fmt, s, i, inner);
    FirstByte(s, i, open);
    ObjectOf(s, i, members, i + |open| + |inner|);
  }

  lemma EmptyObjectTrip(v: Value, depth: nat, fmt: bool, s: bytes, i: nat)
    requires v == Object([]) && Has(s, i, Print(v, depth, fmt))
    ensures Skip(s, i + 1) == i + |Print(v, depth, fmt)| - 1 && At(s, Skip(s, i + 1)) == CLOSE_BRACE
  {
    var blanks := if fmt then [NEWLINE] + Tabs(if depth > 0 then depth - 1 else 0) else [];
    assert Print(v, depth, fmt) == [OPEN_BRACE] + (blanks + [CLOSE_BRACE]);
    HasSplit(s, i, [OPEN_BRACE], blanks + [CLOSE_BRACE]);
    HasSplit(s, i + 1, blanks, [CLOSE_BRACE]);
    SkipText(s, i + 1, blanks);
    FirstByte(s, i + 1 + |blanks|, [CLOSE_BRACE]);
    SkipNothing(s, i + 1 + |blanks|);
  }

  /** The blank after the opening brace changes nothing. */
  lemma EnterObject(members: seq<Member>, depth: nat, fmt: bool, s: bytes, i: nat, inner: bytes)
    requires members != [] && PrintMembers(members, depth, fmt) <= inner
    requires Has(s, i, [OPEN_BRACE] + if fmt then [NEWLINE] else [])
    requires Has(s, i + if fmt then 2 else 1, inner)
    ensures var j := Skip(s, i + 1);
            j <= |s| && At(s, j) == QUOTE && ParseMembers(s, j) == ParseMembers(s, i + if fmt then 2 else 1)
  {
    var k := i + if fmt then 2 else 1;
    if fmt {
      HasAt(s, i, [OPEN_BRACE, NEWLINE], 1);
      SkipBlanks(s, i + 1, 1);
    }
    MemberStart(members, depth, fmt, s, k, inner);
    SkipNothing(s, Skip(s, k));
    SkipMembers(s, Skip(s, k), k);
  }

  function Blank(fmt: bool): bytes { if fmt then [TAB] else [] }

  lemma PrefixShape(name: bytes, depth: nat, fmt: bool, text: bytes)
    ensures NamePrefix(name, depth, fmt) + text ==
            FmtTabs(depth, fmt) + (Quoted(name) + ([COLON] + (Blank(fmt) + text)))
  {
  }

  /** Members start with tabs and a quotation mark. */
  lemma MemberStart(members: seq<Member>, depth: nat, fmt: bool, s: bytes, k: nat, inner: bytes)
    requires members != [] && PrintMembers(members, depth, fmt) <= inner && Has(s, k, inner)
    ensures At(s, Skip(s, k)) == QUOTE
  {
    hide Has, Skip, Print, Quoted, FmtTabs;
    var m := members[0];
    var w := PrintMembers(members, depth, fmt);
    var text := inner[|NamePrefix(m.name, depth, fmt)|..];
    assert w[..|NamePrefix(m.name, depth, fmt)|] == NamePrefix(m.name, depth, fmt);
    assert inner == NamePrefix(m.name, depth, fmt) + text;
    PrefixShape(m.name, depth, fmt, text);
    NameStart(m.name, depth, fmt, s, k, [COLON] + (Blank(fmt) + text));
  }

  lemma NameStart(name: bytes, depth: nat, fmt: bool, s: bytes, k: nat, rest: bytes)
    requires Has(s, k, FmtTabs(depth, fmt) + (Quoted(name) + rest))
    ensures var j := k + |FmtTabs(depth, fmt)|;
            Skip(s, k) == j && At(s, j) == QUOTE && Has(s, j, Quoted(name)) && Has(s, j + |Quoted(name)|, rest)
  {
    var j := k + |FmtTabs(depth, fmt)|;
    HasSplit(s, k, FmtTabs(depth, fmt), Quoted(name) + rest);
    HasSplit(s, j, Quoted(name), rest);
    SkipText(s, k, FmtTabs(depth, fmt));
    FirstByte(s, j, Quoted(name));
    SkipNothing(s, j);
  }

  lemma AfterName(fmt: bool, s: bytes, k: nat, text: bytes)
    requires Has(s, k, [COLON] + (Blank(fmt) + text)) && text != [] && text[0] > 32
    ensures At(s, k) == COLON && Skip(s, k) == k
    ensures Skip(s, k + 1) == k + 1 + |Blank(fmt)| && Has(s, k + 1 + |Blank(fmt)|, text)
  {
    HasSplit(s, k, [COLON], Blank(fmt) + text);
    FirstByte(s, k, [COLON]);
    SkipNothing(s, k);
    HasSplit(s, k + 1, Blank(fmt), text);
    SkipText(s, k + 1, Blank(fmt));
    FirstByte(s, k + 1 + |Blank(fmt)|, text);
    SkipNothing(s, k + 1 + |Blank(fmt)|);
  }

  /** Where the parts of a member's text stand: its name, its colon and its value. */
  lemma MemberTextParts(m: Member, depth: nat, fmt: bool, s: bytes, i: nat) returns (j: nat, k: nat, at: nat)
    requires Has(s, i, MemberText(m, depth, fmt))
    ensures Skip(s, i) == j && Has(s, j, Quoted(m.name)) && k == j + |Quoted(m.name)|
    ensures At(s, k) == COLON && Skip(s, k) == k && Skip(s, k + 1) == at
    ensures Has(s, at, Print(m.value, depth, fmt))
    ensures at + |Print(m.value, depth, fmt)| == i + |MemberText(m, depth, fmt)|
  {
    hide Print, Quoted, Skip, Has, Tabs;
    var text := Print(m.value, depth, fmt);
    j := i + |FmtTabs(depth, fmt)|;
    k := j + |Quoted(m.name)|;
    at := k + 1 + |Blank(fmt)|;
    PrefixShape(m.name, depth, fmt, text);
    PrintStart(m.value, depth, fmt);
    NameStart(m.name, depth, fmt, s, i, [COLON] + (Blank(fmt) + text));
    AfterName(fmt, s, k, text);
  }

  /** One member, from its indentation to the end of its value. */
  lemma {:induction false} MemberTrip(m: Member, depth: nat, fmt: bool, s: bytes, i: nat)
    requires NulFree(m.name) && Printable(m.value)
    requires Has(s, i, MemberText(m, depth, fmt))
    requires EndsNumber(At(s, i + |MemberText(m, depth, fmt)|))
    ensures ParseMember(s, i) == Ok(m, i + |MemberText(m, depth, fmt)|)
    decreases m, 0
  {
    hide *;
    var j, k, at := MemberTextParts(m, depth, fmt, s, i);
    ParseQuoted(s, j, m.name);
    ValueTrip(m.value, depth, fmt, s, at);
    MemberParts(s, i, m, k, i + |MemberText(m, depth, fmt)|);
  }

  function MemberText(m: Member, depth: nat, fmt: bool): bytes {
    NamePrefix(m.name, depth, fmt) + Print(m.value, depth, fmt)
  }

  lemma MembersShape(members: seq<Member>, depth: nat, fmt: bool)
    requires members != []
    ensures PrintMembers(members, depth, fmt) ==
            (MemberText(members[0], depth, fmt) + MemberEnd(|members| == 1, fmt))
            + if |members| == 1 then [] else PrintMembers(members[1..], depth, fmt)
  {
  }

  /** Where the parts of a text of members stand. */
  lemma MembersText(members: seq<Member>, depth: nat, fmt: bool, tail: bytes, s: bytes, i: nat)
    returns (j: nat, k: nat, end: nat)
    requires members != [] && Has(s, i, PrintMembers(members, depth, fmt) + tail)
    ensures Has(s, i, MemberText(members[0], depth, fmt)) && j == i + |MemberText(members[0], depth, fmt)|
    ensures Has(s, j, MemberEnd(|members| == 1, fmt)) && k == j + |MemberEnd(|members| == 1, fmt)|
    ensures end == i + |PrintMembers(members, depth, fmt)|
    ensures |members| == 1 ==> Has(s, k, tail) && end == k
    ensures |members| > 1 ==>
              Has(s, k, PrintMembers(members[1..], depth, fmt) + tail)
              && end == k + |PrintMembers(members[1..], depth, fmt)|
  {
    hide Has, MemberEnd, NamePrefix, Print, MemberText;
    var text, sep := MemberText(members[0], depth, fmt), MemberEnd(|members| == 1, fmt);
    var more := if |members| == 1 then [] else PrintMembers(members[1..], depth, fmt);
    MembersShape(members, depth, fmt);
    Regroup(text, sep, more, tail);
    HasSplit(s, i, text, sep + (more + tail));
    HasSplit(s, i + |text|, sep, more + tail);
    assert [] + tail == tail;
    j, k, end := i + |text|, i + |text| + |sep|, i + |text| + |sep| + |more|;
  }

  lemma {:induction false} MembersTrip(members: seq<Member>, depth: nat, fmt: bool, tabs: nat, s: bytes, i: nat)
    requires members != [] && (forall x :: x in members ==> NulFree(x.name) && Printable(x.value))
    requires Has(s, i, PrintMembers(members, depth, fmt) + (Tabs(tabs) + [CLOSE_BRACE]))
    ensures ParseMembers(s, i) == Ok(members, i + |PrintMembers(members, depth, fmt)| + tabs + 1)
    decreases members, 1
  {
    hide *;
    assert members[0] in members;
    var j, k, end := MembersText(members, depth, fmt, Tabs(tabs) + [CLOSE_BRACE], s, i);
    if |members| == 1 {
      LastMember(fmt, tabs, s, j, k);
      MemberTrip(members[0], depth, fmt, s, i);
      MembersLast(s, i, members, j);
    } else {
      NextMember(fmt, s, j, k);
      MemberTrip(members[0], depth, fmt, s, i);
      MembersTrip(members[1..], depth, fmt, tabs, s, k);
      SkipMembers(s, j + 1, k);
      MembersMore(s, i, members, j, end + tabs + 1);
    }
  }

  lemma LastMember(fmt: bool, tabs: nat, s: bytes, j: nat, k: nat)
    requires Has(s, j, MemberEnd(true, fmt)) && k == j + |MemberEnd(true, fmt)|
    requires Has(s, k, Tabs(tabs) + [CLOSE_BRACE])
    ensures EndsNumber(At(s, j))
    ensures Skip(s, j) == k + tabs && At(s, k + tabs) == CLOSE_BRACE
  {
    SkipText(s, j, MemberEnd(true, fmt));
    HasSplit(s, k, Tabs(tabs), [CLOSE_BRACE]);
    SkipText(s, k, Tabs(tabs));
    SkipNothing(s, k + tabs);
    if !fmt && tabs > 0 {
      FirstByte(s, j, Tabs(tabs));
    }
  }

  lemma NextMember(fmt: bool, s: bytes, j: nat, k: nat)
    requires Has(s, j, MemberEnd(false, fmt)) && k == j + |MemberEnd(false, fmt)|
    ensures At(s, j) == COMMA && EndsNumber(COMMA) && Skip(s, j) == j && j + 1 <= |s| && k <= |s|
    ensures Skip(s, j + 1) == Skip(s, k)
  {
    FirstByte(s, j, MemberEnd(false, fmt));
    SkipNothing(s, j);
    if fmt {
      HasAt(s, j, MemberEnd(false, fmt), 1);
      SkipBlanks(s, j + 1, 1);
    }
  }

  lemma SkipMembers(s: bytes, a: nat, b: nat)
    requires a <= |s| && b <= |s| && Skip(s, a) == Skip(s, b)
    ensures ParseMembers(s, a) == ParseMembers(s, b)
  {
    hide ParseMember, Skip;
    SkipMember(s, a, b);
  }

  lemma SkipMember(s: bytes, a: nat, b: nat)
    requires a <= |s| && b <= |s| && Skip(s, a) == Skip(s, b)
    ensures ParseMember(s, a) == ParseMember(s, b)
  {
    hide ParseString, ParseValue;
  }

  /** cJSON_Print and cJSON_PrintUnformatted lose nothing: parsing their text consumes all of it and
      gives back the value. */
  lemma PrintThenParse(v: Value, fmt: bool, requireTerminated: bool)
    requires Printable(v)
    ensures ParseText(Print(v, 0, fmt), requireTerminated) == Ok(v, |Print(v, 0, fmt)|)
  {
    var s := Print(v, 0, fmt);
    HasSlice(s, 0, s);
    PrintStart(v, 0, fmt);
    SkipNothing(s, 0);
    ValueTrip(v, 0, fmt, s, 0);
    SkipNothing(s, |s|);
  }
}
