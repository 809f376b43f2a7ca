/** The 'f' directive of minmea_scan: decimals as a 32-bit value and a 32-bit scale. */
module MinmeaFloat {
  import opened CText
  import opened MinmeaCheck

  predicate IsField(c: byte) {
    Printing(c) && c != COMMA && c != STAR
  }

  /** What a directive stores. */
  datatype Field =
    | Single(c: byte)
    | Direction(d: int)
    | Float(value: int, scale: int)
    | Number(n: int)
    | Text(t: bytes)
    | Talker(id: bytes)
    | Date(day: int, month: int, year: int)
    | Time(hours: int, minutes: int, seconds: int, microseconds: int)
    | Ignored

  /** What becomes of a directive: it stores a field, makes the scan fail, or multiplies the scale
      beyond 32 bits. */
  datatype Conversion = Done(f: Field) | Reject | Overflow

  // ---------------------------------------------------------------- the directive

  /** The field from p on, with what the loop has found so far; value is -1 before the first digit. */
  function Floating(s: bytes, p: nat, sign: int, value: int, scale: nat): Conversion
    decreases if p < |s| then |s| - p else 0
  {
    var c := At(s, p);
    if !IsField(c) then Finish(sign, value, scale)
    else if c == PLUS && sign == 0 && value == -1 then Floating(s, p + 1, 1, value, scale)
    else if c == MINUS && sign == 0 && value == -1 then Floating(s, p + 1, -1, value, scale)
    else if Digit(c) then
      var digit := c - ZERO;
      var v := if value == -1 then 0 else value;
      if v > (INT_MAX - digit) / 10 then
        if scale != 0 then Finish(sign, v, scale) else Reject
      else if scale > INT_MAX / 10 then Overflow
      else Floating(s, p + 1, sign, 10 * v + digit, 10 * scale)
    else if c == DOT && scale == 0 then Floating(s, p + 1, sign, value, 1)
    else if c == SPACE && sign == 0 && value == -1 && scale == 0 then Floating(s, p + 1, sign, value, scale)
    else Reject
  }

  function Finish(sign: int, value: int, scale: nat): Conversion {
    if value == -1 then
      if sign != 0 || scale != 0 then Reject else Done(Float(0, 0))
    else
      Done(Float(WithSign(value, sign), if scale == 0 then 1 else scale))
  }

  function WithSign(value: int, sign: int): int {
    if sign != 0 then value * sign else value
  }

  /** The loop and the code behind it. Every product and sum stays within 32 bits. */
  method ScanFloat(s: bytes, p: nat) returns (r: Conversion)
    requires p <= |s| && Floating(s, p, 0, -1, 0) != Overflow
    ensures r == Floating(s, p, 0, -1, 0)
    ensures r.Done? ==> r.f.Float? && -0x7fff_ffff <= r.f.value <= INT_MAX && 0 <= r.f.scale <= INT_MAX
  {
    var field, sign, value, scale := p, 0, -1, 0;
    while IsField(Read(s, field))
      invariant p <= field <= |s| && -1 <= value <= INT_MAX && 0 <= scale <= INT_MAX && -1 <= sign <= 1
      invariant Floating(s, field, sign, value, scale) == Floating(s, p, 0, -1, 0)
      decreases |s| - field
    {
      var c := Read(s, field);
      if c == PLUS && sign == 0 && value == -1 {
        sign := 1;
      } else if c == MINUS && sign == 0 && value == -1 {
        sign := -1;
      } else if Digit(c) {
        var digit := c - ZERO;
        if value == -1 {
          value := 0;
        }
        if value > (INT_MAX - digit) / 10 {
          if scale != 0 {
            return Finish(sign, value, scale);
          } else {
            return Reject;
          }
        }
        value := 10 * value + digit;
        if scale != 0 {
          scale := scale * 10;
        }
      } else if c == DOT && scale == 0 {
        scale := 1;
      } else if c == SPACE {
        if sign != 0 || value != -1 || scale != 0 {
          return Reject;
        }
      } else {
        return Reject;
      }
      field := field + 1;
    }
    r := Finish(sign, value, scale);
  }

  // ---------------------------------------------------------------- what it computes

  /** How many of the digits w can follow the value v within 32 bits. */
  function Kept(v: nat, w: bytes): (k: nat)
    requires AllDigits(w)
    ensures k <= |w|
    decreases w
  {
    if w == [] then 0
    else
      assert Digit(w[0]);
      var v' := 10 * v + (w[0] - ZERO);
      if v' > INT_MAX then 0 else 1 + Kept(v', w[1..])
  }

  /** Kept is the largest number of digits with which the value still fits. */
  lemma {:induction false} KeptIsLargest(v: nat, w: bytes, k: nat)
    requires AllDigits(w) && v <= INT_MAX && k <= |w|
    ensures k <= Kept(v, w) <==> Fold(v, w[..k]) <= INT_MAX
    decreases w
  {
    if k > 0 {
      assert Digit(w[0]);
      var v' := v * 10 + (w[0] - ZERO);
      assert w[..k][1..] == w[1..][..k - 1];
      if v' > INT_MAX {
        FoldGrows(v', w[1..][..k - 1]);
      } else {
        KeptIsLargest(v', w[1..], k - 1);
      }
    }
  }

  /** Leaving digits off the end is dividing, rounded down. */
  lemma {:induction false} FoldTruncates(w: bytes, k: nat)
    requires AllDigits(w) && k <= |w|
    ensures Fold(0, w[..|w| - k]) == Fold(0, w) / Power10(k)
    decreases k
  {
    if k == 0 {
      assert w[..|w|] == w;
    } else {
      var u := w[..|w| - 1];
      var c := w[|w| - 1];
      assert w == u + [c];
      FoldSnoc(0, u, c);
      FoldTruncates(u, k - 1);
      assert u[..|u| - (k - 1)] == w[..|w| - k];
      assert Fold(0, u) == Fold(0, w) / 10;
      hide Fold;
      DivTwice(Fold(0, w), Power10(k - 1));
    }
  }

  lemma DivTwice(n: nat, p: nat)
    requires p > 0
    ensures n / 10 / p == n / (10 * p)
  {
    var q := n / 10 / p;
    var r := (n / 10) % p;
    assert n / 10 == q * p + r;
    assert n == 10 * (q * p + r) + n % 10;
    assert n == q * (10 * p) + (10 * r + n % 10);
    DivIs(n, 10 * p, q, 10 * r + n % 10);
  }

  lemma DivIs(n: nat, d: nat, q: nat, r: nat)
    requires n == q * d + r && r < d
    ensures n / d == q
  {
    assert n == n / d * d + n % d;
    assert (q - n / d) * d == n % d - r;
    Multiple(q - n / d, d);
  }

  lemma Multiple(k: int, d: nat)
    requires 0 < k * d + d && k * d < d
    ensures k == 0
  {
  }

  /** The digits before the point are all taken, or the scan fails. */
  lemma {:induction false} IntegerDigits(s: bytes, p: nat, w: bytes, sign: int, value: int, v: nat)
    requires Has(s, p, w) && AllDigits(w) && v <= INT_MAX
    requires value == v || (value == -1 && v == 0)
    ensures Floating(s, p, sign, value, 0) ==
            if w == [] then Floating(s, p, sign, value, 0)
            else if Fold(v, w) <= INT_MAX then Floating(s, p + |w|, sign, Fold(v, w), 0)
            else Reject
    decreases w
  {
    if w != [] {
      assert Digit(w[0]) && At(s, p) == w[0];
      var v' := v * 10 + (w[0] - ZERO);
      if v' > INT_MAX {
        FoldGrows(v', w[1..]);
      } else {
        IntegerDigits(s, p + 1, w[1..], sign, v', v');
        assert w[1..] == [] ==> Fold(v, w) == v';
      }
    }
  }

  /** Of the digits behind the point, those that fit are taken. */
  lemma {:induction false} FractionDigits(s: bytes, p: nat, w: bytes, sign: int, value: int, v: nat, j: nat)
    requires Has(s, p, w) && AllDigits(w) && !IsField(At(s, p + |w|)) && v <= INT_MAX && j <= 9
    requires value == v || (value == -1 && v == 0 && w != [])
    ensures Floating(s, p, sign, value, Power10(j)) ==
            var k := Kept(v, w);
            if j + k <= 9 then Done(Float(WithSign(Fold(v, w[..k]), sign), Power10(j + k))) else Overflow
    decreases w
  {
    hide Floating, WithSign, Power10;
    if w == [] {
      FieldDone(s, p, sign, v, j);
    } else {
      assert Digit(w[0]) && At(s, p) == w[0];
      var v' := v * 10 + (w[0] - ZERO);
      DigitRead(s, p, sign, value, v, j);
      if v' <= INT_MAX {
        var k := Kept(v', w[1..]);
        assert w[..1 + k][1..] == w[1..][..k];
        assert Fold(v, w[..1 + k]) == Fold(v', w[1..][..k]);
        if j < 9 {
          FractionDigits(s, p + 1, w[1..], sign, v', v', j + 1);
        }
      }
    }
  }

  lemma FieldDone(s: bytes, p: nat, sign: int, v: nat, j: nat)
    requires !IsField(At(s, p))
    ensures Floating(s, p, sign, v, Power10(j)) == Done(Float(WithSign(v, sign), Power10(j)))
  {
  }

  /** One digit behind the point: it is left out, it is taken, or the scale overflows. */
  lemma DigitRead(s: bytes, p: nat, sign: int, value: int, v: nat, j: nat)
    requires Digit(At(s, p)) && v <= INT_MAX && j <= 9 && (value == v || (value == -1 && v == 0))
    ensures var v' := v * 10 + (At(s, p) - ZERO);
            Floating(s, p, sign, value, Power10(j)) ==
            if v' > INT_MAX then Done(Float(WithSign(v, sign), Power10(j)))
            else if j == 9 then Overflow
            else Floating(s, p + 1, sign, v', Power10(j + 1))
  {
    hide WithSign;
    Powers();
  }

  lemma Powers()
    ensures Power10(9) == 1_000_000_000 && forall j :: 0 <= j < 9 ==> Power10(j) <= INT_MAX / 10
  {
    assert Power10(3) == 1_000;
    assert Power10(6) == 1_000_000 by {
      assert Power10(5) == 100_000;
    }
    assert Power10(8) == 100_000_000;
    forall j | 0 <= j < 9 ensures Power10(j) <= INT_MAX / 10 {
      Grows(j, 8);
    }
  }

  lemma {:induction false} Grows(j: nat, k: nat)
    requires j <= k
    ensures Power10(j) <= Power10(k)
  {
    if j < k {
      Grows(j, k - 1);
    }
  }

  function Blanks(n: nat): (w: bytes)
    ensures |w| == n
  {
    if n == 0 then [] else [SPACE] + Blanks(n - 1)
  }

  lemma {:induction false} BlanksSkipped(s: bytes, p: nat, n: nat)
    requires Has(s, p, Blanks(n))
    ensures Floating(s, p, 0, -1, 0) == Floating(s, p + n, 0, -1, 0)
    decreases n
  {
    if n > 0 {
      BlanksSkipped(s, p + 1, n - 1);
    }
  }

  /** A decimal: blanks, a sign, digits, and digits behind a point. Where there are no digits before
      the point, the directive takes the sign behind it as well (`late`). */
  datatype Dec = Dec(blanks: nat, sign: bytes, late: bool, whole: bytes, point: bool, frac: bytes) {
    predicate Valid() {
      && (sign == [] || sign == [PLUS] || sign == [MINUS])
      && AllDigits(whole) && AllDigits(frac) && whole + frac != [] && (point || frac == [])
      && (late ==> point && whole == [])
    }

    function Lead(): bytes { if late then [] else sign }

    function Tail(): bytes {
      if point then [DOT] + ((if late then sign else []) + frac) else []
    }

    function Lexeme(): bytes {
      Blanks(blanks) + (Lead() + (whole + Tail()))
    }

    function Sign(): int {
      if sign == [] then 0 else if sign == [PLUS] then 1 else -1
    }

    /** The digits with k of those behind the point, as one number. */
    function Scaled(k: nat): nat
      requires Valid() && k <= |frac|
    {
      Fold(0, whole + frac[..k])
    }

    function Signed(n: nat): int {
      if sign == [MINUS] then
        var m: int := n;
        -m
      else n
    }
  }

  /** The number of digits behind the point that are used. */
  function Precision(d: Dec): (k: nat)
    requires d.Valid()
    ensures k <= |d.frac|
  {
    Kept(Fold(0, d.whole), d.frac)
  }

  /** The precision is the largest with which the number still fits in 32 bits. */
  lemma PrecisionIsLargest(d: Dec, k: nat)
    requires d.Valid() && k <= |d.frac| && d.Scaled(0) <= INT_MAX
    ensures k <= Precision(d) <==> d.Scaled(k) <= INT_MAX
  {
    assert d.whole + d.frac[..0] == d.whole;
    FoldThrough(0, d.whole, d.frac[..k]);
    KeptIsLargest(Fold(0, d.whole), d.frac, k);
  }

  /** What is stored is the decimal truncated toward zero. */
  lemma ScaledTruncates(d: Dec, k: nat)
    requires d.Valid() && k <= |d.frac|
    ensures d.Scaled(k) == d.Scaled(|d.frac|) / Power10(|d.frac| - k)
  {
    var w := d.whole + d.frac;
    assert d.frac[..|d.frac|] == d.frac;
    assert w[..|w| - (|d.frac| - k)] == d.whole + d.frac[..k];
    FoldTruncates(w, |d.frac| - k);
  }

  /** A decimal field is stored truncated at the largest precision that fits, it fails when its
      integer part does not fit, and the scale overflows exactly when ten digits behind the point
      fit. */
  lemma FloatField(s: bytes, p: nat, d: Dec)
    requires d.Valid() && Has(s, p, d.Lexeme()) && !IsField(At(s, p + |d.Lexeme()|))
    ensures Floating(s, p, 0, -1, 0) ==
            if d.Scaled(0) > INT_MAX then Reject
            else if Precision(d) >= 10 then Overflow
            else Done(Float(d.Signed(d.Scaled(Precision(d))), Power10(Precision(d))))
  {
    hide Floating, Has, Fold, Kept, AllDigits;
    Parts(s, p, d);
    hide Dec.Lexeme;
    var r := p + d.blanks + |d.Lead()|;
    ScaledIs(d, 0);
    if d.late {
      LateRead(s, r, d);
    } else {
      WholeRead(s, r, d);
    }
  }

  /** What becomes of the field where the integer digits fit. */
  function Truncated(d: Dec): Conversion
    requires d.Valid()
  {
    if Precision(d) >= 10 then Overflow
    else Done(Float(d.Signed(d.Scaled(Precision(d))), Power10(Precision(d))))
  }

  lemma ScaledIs(d: Dec, k: nat)
    requires d.Valid() && k <= |d.frac|
    ensures d.Scaled(k) == Fold(Fold(0, d.whole), d.frac[..k])
    ensures d.Scaled(0) == Fold(0, d.whole) && (d.late ==> d.Scaled(0) == 0)
  {
    assert d.whole + d.frac[..0] == d.whole;
    FoldThrough(0, d.whole, d.frac[..k]);
  }

  lemma SignedIs(d: Dec, n: nat)
    requires d.Valid()
    ensures WithSign(n, d.Sign()) == d.Signed(n)
  {
  }

  /** The field from its integer digits on. */
  lemma WholeRead(s: bytes, p: nat, d: Dec)
    requires d.Valid() && !d.late && Has(s, p, d.whole) && Has(s, p + |d.whole|, d.Tail())
    requires !IsField(At(s, p + |d.whole + d.Tail()|))
    ensures Floating(s, p, d.Sign(), -1, 0) == if d.Scaled(0) > INT_MAX then Reject else Truncated(d)
  {
    hide Floating, Has, Dec.Tail, Dec.Sign, Kept, Truncated;
    ScaledIs(d, 0);
    var v := Fold(0, d.whole);
    IntegerDigits(s, p, d.whole, d.Sign(), -1, 0);
    var q := p + |d.whole|;
    if v <= INT_MAX {
      if d.point {
        FractionRead(s, q, d, if d.whole == [] then -1 else v);
      } else {
        NoFraction(s, q, d);
      }
    }
  }

  /** Where the parts of a decimal stand, and how its blanks and the sign before its digits are read. */
  lemma Parts(s: bytes, p: nat, d: Dec)
    requires d.Valid() && Has(s, p, d.Lexeme())
    ensures var r := p + d.blanks + |d.Lead()|;
            && Has(s, r, d.whole) && Has(s, r + |d.whole|, d.Tail()) && r + |d.whole + d.Tail()| == p + |d.Lexeme()|
            && Floating(s, p, 0, -1, 0) == Floating(s, r, if d.late then 0 else d.Sign(), -1, 0)
  {
    hide Floating, Has, AllDigits, Blanks, Dec.Tail;
    HasSplit(s, p, Blanks(d.blanks), d.Lead() + (d.whole + d.Tail()));
    BlanksSkipped(s, p, d.blanks);
    var q := p + d.blanks;
    HasSplit(s, q, d.Lead(), d.whole + d.Tail());
    HasSplit(s, q + |d.Lead()|, d.whole, d.Tail());
    if !d.late {
      SignRead(s, q, d.sign, 0);
    }
  }

  lemma SignRead(s: bytes, q: nat, sign: bytes, scale: nat)
    requires (sign == [] || sign == [PLUS] || sign == [MINUS]) && Has(s, q, sign)
    ensures Floating(s, q, 0, -1, scale) ==
            Floating(s, q + |sign|, if sign == [] then 0 else if sign == [PLUS] then 1 else -1, -1, scale)
  {
  }

  /** The point. */
  lemma PointRead(s: bytes, p: nat, sign: int, value: int, rest: bytes)
    requires Has(s, p, [DOT] + rest)
    ensures Has(s, p + 1, rest) && Floating(s, p, sign, value, 0) == Floating(s, p + 1, sign, value, Power10(0))
  {
    assert ([DOT] + rest)[1..] == rest;
  }

  /** The part of the field behind the integer digits. */
  lemma FractionRead(s: bytes, p: nat, d: Dec, value: int)
    requires d.Valid() && !d.late && d.point && Has(s, p, d.Tail()) && !IsField(At(s, p + |d.Tail()|))
    requires Fold(0, d.whole) <= INT_MAX && value == if d.whole == [] then -1 else Fold(0, d.whole)
    ensures Floating(s, p, d.Sign(), value, 0) == Truncated(d)
  {
    EarlyTail(d);
    ScaledIs(d, Precision(d));
    SignedIs(d, d.Scaled(Precision(d)));
    WholeOrNone(d);
    hide Floating, Has, Fold, Kept, Dec.Tail, Dec.Sign, WithSign, AllDigits, Dec.Scaled;
    PointRead(s, p, d.Sign(), value, d.frac);
    FractionDigits(s, p + 1, d.frac, d.Sign(), value, Fold(0, d.whole), 0);
  }

  lemma WholeOrNone(d: Dec)
    requires d.Valid()
    ensures d.whole == [] ==> d.frac != [] && Fold(0, d.whole) == 0
  {
  }

  lemma EarlyTail(d: Dec)
    requires !d.late && d.point
    ensures d.Tail() == [DOT] + d.frac
  {
    assert [] + d.frac == d.frac;
  }

  /** The field without a point. */
  lemma NoFraction(s: bytes, p: nat, d: Dec)
    requires d.Valid() && !d.late && !d.point && !IsField(At(s, p + |d.Tail()|))
    ensures d.whole != [] && Floating(s, p, d.Sign(), Fold(0, d.whole), 0) == Truncated(d)
  {
    assert d.frac == [] && d.Tail() == [] && Precision(d) == 0;
    ScaledIs(d, 0);
    SignedIs(d, Fold(0, d.whole));
    hide Fold, Dec.Sign, WithSign;
  }

  /** The field where the sign stands behind the point. */
  lemma LateRead(s: bytes, p: nat, d: Dec)
    requires d.Valid() && d.late && Has(s, p, d.Tail()) && !IsField(At(s, p + |d.Tail()|))
    ensures Floating(s, p, 0, -1, 0) == Truncated(d)
  {
    hide Floating, Has, Fold, Kept, WithSign, AllDigits, Dec.Scaled, Dec.Signed;
    LateTail(d);
    assert |d.Tail()| == 1 + |d.sign| + |d.frac|;
    ScaledIs(d, Precision(d));
    SignedIs(d, d.Scaled(Precision(d)));
    WholeOrNone(d);
    LateSign(s, p, d.sign, d.frac);
    hide Dec.Tail;
    FractionDigits(s, p + 1 + |d.sign|, d.frac, d.Sign(), -1, 0, 0);
  }

  lemma LateSign(s: bytes, p: nat, sign: bytes, frac: bytes)
    requires (sign == [] || sign == [PLUS] || sign == [MINUS]) && Has(s, p, [DOT] + (sign + frac))
    ensures Has(s, p + 1 + |sign|, frac)
    ensures Floating(s, p, 0, -1, 0) ==
            Floating(s, p + 1 + |sign|, if sign == [] then 0 else if sign == [PLUS] then 1 else -1, -1, Power10(0))
  {
    hide Floating, Has;
    PointRead(s, p, 0, -1, sign + frac);
    HasSplit(s, p + 1, sign, frac);
    SignRead(s, p + 1, sign, Power10(0));
  }

  lemma LateTail(d: Dec)
    requires d.late && d.point
    ensures d.Tail() == [DOT] + (d.sign + d.frac)
  {
  }

  /** Up to nine digits behind the point, the scale never overflows. */
  lemma NineDigitsAreSafe(d: Dec)
    requires d.Valid() && d.Scaled(0) <= INT_MAX
    ensures Precision(d) >= 10 <==> |d.frac| >= 10 && d.Scaled(10) <= INT_MAX
    ensures |d.frac| <= 9 ==> Precision(d) <= 9
  {
    if |d.frac| >= 10 {
      PrecisionIsLargest(d, 10);
    }
  }

  lemma {:induction false} ZerosFold(w: bytes)
    requires forall k :: 0 <= k < |w| ==> w[k] == ZERO
    ensures Fold(0, w) == 0
    decreases w
  {
    if w != [] {
      ZerosFold(w[1..]);
    }
  }

  /** 0.000000000 and one digit more. */
  const TINY := Dec(0, [], false, [ZERO], true, NINE_ZEROS + [49])
  const NINE_ZEROS: bytes := [ZERO, ZERO, ZERO, ZERO, ZERO, ZERO, ZERO, ZERO, ZERO]

  lemma TinyScaled()
    ensures TINY.Valid() && |TINY.frac| == 10 && TINY.Scaled(0) == 0 && TINY.Scaled(10) == 1 <= INT_MAX
  {
    ZerosFold([ZERO]);
    ZerosFold([ZERO] + NINE_ZEROS);
    FoldSnoc(0, [ZERO] + NINE_ZEROS, 49);
    assert [ZERO] + TINY.frac[..0] == [ZERO];
    assert [ZERO] + TINY.frac[..10] == ([ZERO] + NINE_ZEROS) + [49];
  }

  /** The scale of 0.0000000001 overflows. */
  lemma TenDigitsOverflow()
    ensures TINY.Lexeme() == [ZERO, DOT] + NINE_ZEROS + [49]
    ensures Floating(TINY.Lexeme(), 0, 0, -1, 0) == Overflow
  {
    hide *;
    TinyScaled();
    TinyText();
    WholeText(TINY.Lexeme());
    NineDigitsAreSafe(TINY);
    FloatField(TINY.Lexeme(), 0, TINY);
  }

  lemma TinyText()
    ensures TINY.Lexeme() == [ZERO, DOT] + NINE_ZEROS + [49]
  {
    hide Fold;
  }

  lemma WholeText(s: bytes)
    ensures Has(s, 0, s) && !IsField(At(s, |s|))
  {
    HasSlice(s, 0, s);
    assert s[0..|s|] == s;
  }
}
