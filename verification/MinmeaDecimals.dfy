/** Which texts the 'f' directive of minmea_scan takes, well formed or not, and as what. */
module MinmeaDecimals {
  import opened CText
  import opened MinmeaFloat
  import opened MinmeaOverflow

  /** Reading stops at e: the field ends there, or, behind a point, the next digit no longer fits. */
  predicate StopsAt(s: bytes, e: nat, point: bool, n: nat) {
    !IsField(At(s, e)) || (point && Digit(At(s, e)) && 10 * n + (At(s, e) - 48) > 2147483647)
  }

  /** The field at p starts with the decimal d, which fits in 32 bits, and no more of it is read. */
  predicate Taken(s: bytes, p: nat, d: Dec) {
    && d.Valid() && Has(s, p, d.Lexeme()) && |d.frac| <= 9 && d.Scaled(|d.frac|) <= 2147483647
    && StopsAt(s, p + |d.Lexeme()|, d.point, d.Scaled(|d.frac|))
  }

  /** The field holds nothing but n blanks. */
  predicate BlankField(s: bytes, p: nat, n: nat) {
    Has(s, p, Blanks(n)) && !IsField(At(s, p + n))
  }

  /** Digits, and digits behind a point, that follow the number v; reading stops behind them. */
  predicate Digits(s: bytes, p: nat, v: nat, whole: bytes, point: bool, frac: bytes) {
    && AllDigits(whole) && AllDigits(frac) && (point || frac == []) && |frac| <= 9
    && Has(s, p, whole + Fraction(point, frac)) && Fold(Fold(v, whole), frac) <= INT_MAX
    && StopsAt(s, p + |whole + Fraction(point, frac)|, point, Fold(Fold(v, whole), frac))
  }

  function Fraction(point: bool, frac: bytes): bytes { if point then [DOT] + frac else [] }

  /** Digits behind the point, and the end of the reading behind them. */
  predicate Decimals(s: bytes, p: nat, v: nat, w: bytes, j: nat) {
    && Has(s, p, w) && AllDigits(w) && Fold(v, w) <= INT_MAX && j + |w| <= 9
    && StopsAt(s, p + |w|, true, Fold(v, w))
  }

  // ---------------------------------------------------------------- a decimal is taken

  lemma {:induction false} DecimalsTaken(s: bytes, p: nat, w: bytes, sign: int, value: int, v: nat, j: nat)
    requires Decimals(s, p, v, w, j) && (value == v || (value == -1 && v == 0 && w != []))
    ensures Floating(s, p, sign, value, Power10(j)) == Done(Float(WithSign(Fold(v, w), sign), Power10(j + |w|)))
    decreases w
  {
    hide Floating, WithSign, Power10;
    if w == [] {
      if IsField(At(s, p)) {
        DigitRead(s, p, sign, value, v, j);
      } else {
        FieldDone(s, p, sign, v, j);
      }
    } else {
      assert Digit(w[0]) && At(s, p) == w[0];
      var v' := v * 10 + (w[0] - ZERO);
      FoldGrows(v', w[1..]);
      DigitRead(s, p, sign, value, v, j);
      DecimalsTaken(s, p + 1, w[1..], sign, v', v', j + 1);
    }
  }

  lemma DigitsTaken(s: bytes, p: nat, whole: bytes, point: bool, frac: bytes, sign: int)
    requires Digits(s, p, 0, whole, point, frac) && (whole != [] || frac != [])
    ensures Floating(s, p, sign, -1, 0) ==
            Done(Float(WithSign(Fold(Fold(0, whole), frac), sign), Power10(|frac|)))
  {
    hide Floating, Has, WithSign, Power10, StopsAt, Fraction;
    var v := Fold(0, whole);
    var value := if whole == [] then -1 else v;
    HasSplit(s, p, whole, Fraction(point, frac));
    FoldGrows(v, frac);
    assert whole == [] ==> v == 0;
    hide Fold;
    IntegerDigits(s, p, whole, sign, -1, 0);
    assert Floating(s, p, sign, -1, 0) == Floating(s, p + |whole|, sign, value, 0);
    FractionTaken(s, p + |whole|, v, value, point, frac, sign);
  }

  lemma FractionTaken(s: bytes, q: nat, v: nat, value: int, point: bool, frac: bytes, sign: int)
    requires AllDigits(frac) && (point || (frac == [] && value == v)) && |frac| <= 9
    requires value == v || (value == -1 && v == 0 && frac != [])
    requires Has(s, q, Fraction(point, frac)) && Fold(v, frac) <= INT_MAX
    requires StopsAt(s, q + |Fraction(point, frac)|, point, Fold(v, frac))
    ensures Floating(s, q, sign, value, 0) == Done(Float(WithSign(Fold(v, frac), sign), Power10(|frac|)))
  {
    hide Floating, Has, WithSign, Power10, StopsAt;
    if point {
      PointRead(s, q, sign, value, frac);
      DecimalsTaken(s, q + 1, frac, sign, value, v, 0);
    } else {
      NothingBehind(s, q, sign, v);
    }
  }

  lemma NothingBehind(s: bytes, q: nat, sign: int, v: nat)
    requires StopsAt(s, q, false, v)
    ensures Floating(s, q, sign, v, 0) == Done(Float(WithSign(v, sign), Power10(0)))
  {
  }

  lemma TakenIsStored(s: bytes, p: nat, d: Dec)
    requires Taken(s, p, d)
    ensures Floating(s, p, 0, -1, 0) == Done(Float(d.Signed(d.Scaled(|d.frac|)), Power10(|d.frac|)))
  {
    hide Floating, Has, Fold, AllDigits, StopsAt, WithSign, Power10;
    Parts(s, p, d);
    var r := p + d.blanks + |d.Lead()|;
    assert d.frac[..|d.frac|] == d.frac;
    ScaledIs(d, |d.frac|);
    SignedIs(d, d.Scaled(|d.frac|));
    if d.late {
      LateTail(d);
      WholeOrNone(d);
      LateSign(s, r, d.sign, d.frac);
      DecimalsTaken(s, r + 1 + |d.sign|, d.frac, d.Sign(), -1, 0, 0);
    } else {
      EarlyFraction(d);
      HasJoin(s, r, d.whole, d.Tail());
      DigitsTaken(s, r, d.whole, d.point, d.frac, d.Sign());
    }
  }

  lemma EarlyFraction(d: Dec)
    requires d.Valid() && !d.late
    ensures d.Tail() == Fraction(d.point, d.frac)
  {
    assert [] + d.frac == d.frac;
  }

  lemma HasJoin(s: bytes, p: nat, a: bytes, b: bytes)
    requires Has(s, p, a) && Has(s, p + |a|, b)
    ensures Has(s, p, a + b)
  {
    HasSplit(s, p, a, b);
  }

  // ---------------------------------------------------------------- what is stored is a decimal

  lemma {:induction false} DecimalsFound(s: bytes, p: nat, sign: int, value: int, v: nat, j: nat, x: int, scale: int)
    returns (w: bytes)
    requires p <= |s|
    requires Floating(s, p, sign, value, Power10(j)) == Done(Float(x, scale)) && j <= 9 && v <= INT_MAX
    requires value == v || (value == -1 && v == 0 && sign != 0)
    ensures Decimals(s, p, v, w, j) && (value == -1 ==> w != [])
    ensures x == WithSign(Fold(v, w), sign) && scale == Power10(j + |w|)
    decreases 10 - j
  {
    Powers();
    var c := At(s, p);
    if Digit(c) && 10 * v + (c - ZERO) <= INT_MAX {
      var v' := v * 10 + (c - ZERO);
      var rest := DecimalsFound(s, p + 1, sign, v', v', j + 1, x, scale);
      w := [c] + rest;
      assert w[1..] == rest;
    } else {
      w := [];
    }
  }

  lemma {:induction false} DigitsFound(s: bytes, p: nat, sign: int, v: nat, x: int, scale: int)
    returns (whole: bytes, point: bool, frac: bytes)
    requires p <= |s|
    requires Floating(s, p, sign, v, 0) == Done(Float(x, scale)) && v <= INT_MAX
    ensures Digits(s, p, v, whole, point, frac)
    ensures x == WithSign(Fold(Fold(v, whole), frac), sign) && scale == Power10(|frac|)
    decreases if p < |s| then |s| - p else 0
  {
    hide Has, WithSign;
    var c := At(s, p);
    if Digit(c) {
      var v' := v * 10 + (c - ZERO);
      var rest;
      rest, point, frac := DigitsFound(s, p + 1, sign, v', x, scale);
      whole := [c] + rest;
      hide Floating;
      MoreDigits(s, p, v, c, rest, point, frac);
    } else if c == DOT {
      assert Power10(0) == 1;
      frac := DecimalsFound(s, p + 1, sign, v, v, 0, x, scale);
      whole, point := [], true;
      hide Floating;
      PointAt(s, p, v, frac);
    } else {
      whole, point, frac := [], false, [];
      NoDigits(s, p, v);
    }
  }

  lemma NoDigits(s: bytes, p: nat, v: nat)
    requires p <= |s|
    requires !IsField(At(s, p)) && v <= INT_MAX
    ensures Digits(s, p, v, [], false, [])
  {
    assert [] + Fraction(false, []) == [];
  }

  lemma MoreDigits(s: bytes, p: nat, v: nat, c: byte, rest: bytes, point: bool, frac: bytes)
    requires Digit(c) && At(s, p) == c && Digits(s, p + 1, v * 10 + (c - ZERO), rest, point, frac)
    ensures Digits(s, p, v, [c] + rest, point, frac)
    ensures Fold(v, [c] + rest) == Fold(v * 10 + (c - ZERO), rest)
  {
    var whole := [c] + rest;
    var behind := Fraction(point, frac);
    assert whole[1..] == rest;
    assert whole + behind == [c] + (rest + behind);
    hide Fraction, StopsAt, Has;
    ByteBefore(s, p, c, rest + behind);
  }

  lemma PointAt(s: bytes, p: nat, v: nat, frac: bytes)
    requires At(s, p) == DOT && Decimals(s, p + 1, v, frac, 0)
    ensures Digits(s, p, v, [], true, frac)
  {
    assert ([DOT] + frac)[1..] == frac && [] + ([DOT] + frac) == [DOT] + frac;
  }

  /** No digit has been read yet, and none of the blanks or signs that may still come stands there. */
  lemma NumberFound(s: bytes, p: nat, sign: int, x: int, scale: int) returns (whole: bytes, point: bool, frac: bytes)
    requires p <= |s|
    requires Floating(s, p, sign, -1, 0) == Done(Float(x, scale)) && IsField(At(s, p))
    requires Digit(At(s, p)) || (sign != 0 && At(s, p) == DOT)
    ensures Digits(s, p, 0, whole, point, frac) && whole + frac != []
    ensures x == WithSign(Fold(Fold(0, whole), frac), sign) && scale == Power10(|frac|)
  {
    hide Has, WithSign;
    var c := At(s, p);
    if Digit(c) {
      var rest;
      rest, point, frac := DigitsFound(s, p + 1, sign, c - ZERO, x, scale);
      whole := [c] + rest;
      hide Floating;
      MoreDigits(s, p, 0, c, rest, point, frac);
    } else {
      assert Power10(0) == 1;
      frac := DecimalsFound(s, p + 1, sign, -1, 0, 0, x, scale);
      whole, point := [], true;
      hide Floating;
      PointAt(s, p, 0, frac);
    }
  }

  /** d is taken at p, and stored as x and scale. */
  predicate StoredAs(s: bytes, p: nat, d: Dec, x: int, scale: int) {
    Taken(s, p, d) && x == d.Signed(d.Scaled(|d.frac|)) && scale == Power10(|d.frac|)
  }

  lemma Early(s: bytes, p: nat, sign: bytes, whole: bytes, point: bool, frac: bytes) returns (d: Dec)
    requires sign == [] || sign == [PLUS] || sign == [MINUS]
    requires Has(s, p, sign) && Digits(s, p + |sign|, 0, whole, point, frac) && whole + frac != []
    ensures d == Dec(0, sign, false, whole, point, frac) && Taken(s, p, d)
    ensures d.Scaled(|frac|) == Fold(Fold(0, whole), frac)
  {
    hide Has, StopsAt, AllDigits;
    d := Dec(0, sign, false, whole, point, frac);
    EarlyFraction(d);
    var w := whole + Fraction(point, frac);
    HasJoin(s, p, sign, w);
    assert d.Lexeme() == [] + (sign + w) == sign + w;
    assert frac[..|frac|] == frac;
    ScaledIs(d, |frac|);
  }

  /** The point comes first: a sign may follow it. */
  lemma PointFound(s: bytes, p: nat, x: int, scale: int) returns (d: Dec)
    requires p <= |s|
    requires At(s, p) == DOT && Floating(s, p, 0, -1, 0) == Done(Float(x, scale))
    ensures StoredAs(s, p, d, x, scale)
  {
    var sign, frac := FractionFound(s, p, x, scale);
    d := Dec(0, sign, true, [], true, frac);
    hide Floating, WithSign;
    LateIs(s, p, d);
    SignedIs(d, Fold(0, frac));
  }

  lemma FractionFound(s: bytes, p: nat, x: int, scale: int) returns (sign: bytes, frac: bytes)
    requires p <= |s|
    requires At(s, p) == DOT && Floating(s, p, 0, -1, 0) == Done(Float(x, scale))
    ensures (sign == [] || sign == [PLUS] || sign == [MINUS]) && Has(s, p + 1, sign) && frac != []
    ensures Decimals(s, p + 1 + |sign|, 0, frac, 0) && scale == Power10(|frac|)
    ensures x == WithSign(Fold(0, frac), Dec(0, sign, true, [], true, frac).Sign())
  {
    hide WithSign;
    var c := At(s, p + 1);
    assert Power10(0) == 1 && Power10(1) == 10;
    if c == PLUS || c == MINUS {
      sign := [c];
      frac := DecimalsFound(s, p + 2, if c == PLUS then 1 else -1, -1, 0, 0, x, scale);
    } else {
      sign := [];
      assert Digit(c);
      var rest := DecimalsFound(s, p + 2, 0, c - ZERO, c - ZERO, 1, x, scale);
      frac := [c] + rest;
      hide Floating;
      assert frac[1..] == rest;
    }
  }

  lemma LateIs(s: bytes, p: nat, d: Dec)
    requires d.Valid() && d.late && d.blanks == 0 && At(s, p) == DOT && Has(s, p + 1, d.sign)
    requires Decimals(s, p + 1 + |d.sign|, 0, d.frac, 0)
    ensures Taken(s, p, d) && d.Scaled(|d.frac|) == Fold(0, d.frac)
  {
    hide StopsAt, Dec.Lexeme, Dec.Scaled, Fold, Has, Blanks, Dec.Tail, Dec.Lead;
    LateLexemeIs(d);
    HasJoin(s, p + 1, d.sign, d.frac);
    ByteBefore(s, p, DOT, d.sign + d.frac);
  }

  lemma LateLexemeIs(d: Dec)
    requires d.Valid() && d.late && d.blanks == 0
    ensures d.Lexeme() == [DOT] + (d.sign + d.frac) && |d.Lexeme()| == 1 + |d.sign| + |d.frac|
    ensures d.Scaled(|d.frac|) == Fold(0, d.frac)
  {
    hide Fold;
    assert [] + d.frac[..|d.frac|] == d.frac;
    assert Blanks(0) == [];
    var tail := [DOT] + (d.sign + d.frac);
    assert [] + ([] + ([] + tail)) == tail;
  }

  lemma ByteBefore(s: bytes, p: nat, c: byte, w: bytes)
    requires At(s, p) == c != 0 && Has(s, p + 1, w)
    ensures Has(s, p, [c] + w)
  {
    assert ([c] + w)[1..] == w;
  }

  lemma OneBlankMore(s: bytes, p: nat, e: Dec, x: int, scale: int) returns (d: Dec)
    requires At(s, p) == SPACE && StoredAs(s, p + 1, e, x, scale)
    ensures StoredAs(s, p, d, x, scale)
  {
    d := e.(blanks := e.blanks + 1);
    MoreBlanks(d, e);
    assert d.Scaled(|d.frac|) == e.Scaled(|e.frac|);
    hide Dec.Lexeme, Dec.Valid, Dec.Scaled, StopsAt, Power10;
  }

  /** What is stored: nothing, for a field of blanks, or a decimal. */
  lemma {:induction false} StoredIsDecimal(s: bytes, p: nat, x: int, scale: int) returns (n: nat, d: Dec)
    requires p <= |s|
    requires Floating(s, p, 0, -1, 0) == Done(Float(x, scale))
    ensures (BlankField(s, p, n) && x == 0 && scale == 0) || StoredAs(s, p, d, x, scale)
    decreases if p < |s| then |s| - p else 0
  {
    hide Has, StoredAs, BlankField, Digits;
    var c := At(s, p);
    n := 0;
    if c == SPACE {
      var e;
      n, e := StoredIsDecimal(s, p + 1, x, scale);
      n, d := BehindBlank(s, p, n, e, x, scale);
    } else if IsField(c) {
      d := DecimalFound(s, p, x, scale);
    } else {
      d := Dec(0, [], false, [], false, []);
      NoBlank(s, p);
    }
  }

  lemma NoBlank(s: bytes, p: nat)
    requires p <= |s|
    requires !IsField(At(s, p))
    ensures BlankField(s, p, 0)
  {
    assert Blanks(0) == [];
  }

  lemma BehindBlank(s: bytes, p: nat, n: nat, e: Dec, x: int, scale: int) returns (m: nat, d: Dec)
    requires At(s, p) == SPACE
    requires (BlankField(s, p + 1, n) && x == 0 && scale == 0) || StoredAs(s, p + 1, e, x, scale)
    ensures (BlankField(s, p, m) && x == 0 && scale == 0) || StoredAs(s, p, d, x, scale)
  {
    hide StoredAs;
    m, d := n + 1, e;
    if StoredAs(s, p + 1, e, x, scale) {
      d := OneBlankMore(s, p, e, x, scale);
    } else {
      assert Blanks(n + 1)[1..] == Blanks(n);
    }
  }

  lemma DecimalFound(s: bytes, p: nat, x: int, scale: int) returns (d: Dec)
    requires p <= |s|
    requires Floating(s, p, 0, -1, 0) == Done(Float(x, scale)) && IsField(At(s, p)) && At(s, p) != SPACE
    ensures StoredAs(s, p, d, x, scale)
  {
    hide WithSign, Digits;
    var c := At(s, p);
    if c == DOT {
      d := PointFound(s, p, x, scale);
    } else {
      var sign, n := SignFound(s, p, x, scale);
      var whole, point, frac := NumberFound(s, p + |sign|, n, x, scale);
      hide Floating;
      d := Early(s, p, sign, whole, point, frac);
      SignedIs(d, Fold(Fold(0, whole), frac));
    }
  }

  lemma SignFound(s: bytes, p: nat, x: int, scale: int) returns (sign: bytes, n: int)
    requires p <= |s|
    requires Floating(s, p, 0, -1, 0) == Done(Float(x, scale)) && IsField(At(s, p))
    requires At(s, p) != SPACE && At(s, p) != DOT
    ensures (sign == [] && n == 0) || (sign == [PLUS] && n == 1) || (sign == [MINUS] && n == -1)
    ensures Has(s, p, sign) && Floating(s, p + |sign|, n, -1, 0) == Done(Float(x, scale))
    ensures IsField(At(s, p + |sign|)) && (Digit(At(s, p + |sign|)) || (n != 0 && At(s, p + |sign|) == DOT))
  {
    var c := At(s, p);
    sign, n := [], 0;
    if c == PLUS {
      sign, n := [c], 1;
    } else if c == MINUS {
      sign, n := [c], -1;
    }
  }

  /** On any text whatsoever: x and scale are stored if and only if the field is blank and both are 0, or
      it starts with a decimal of at most nine digits behind the point that fits in 32 bits with all of
      them and is x at that scale, and behind it the field ends or, behind a point, the next digit would
      not fit. A field that is neither and does not overflow fails. */
  lemma StoredExactly(s: bytes, p: nat, x: int, scale: int)
    requires p <= |s|
    ensures Floating(s, p, 0, -1, 0) == Done(Float(x, scale)) <==>
            || (x == 0 && scale == 0 && exists n: nat :: BlankField(s, p, n))
            || exists d: Dec :: StoredAs(s, p, d, x, scale)
  {
    if Floating(s, p, 0, -1, 0) == Done(Float(x, scale)) {
      var n, d := StoredIsDecimal(s, p, x, scale);
    }
    forall n: nat | BlankField(s, p, n) ensures Floating(s, p, 0, -1, 0) == Done(Float(0, 0)) {
      BlanksSkipped(s, p, n);
    }
    forall d: Dec | StoredAs(s, p, d, x, scale) ensures Floating(s, p, 0, -1, 0) == Done(Float(x, scale)) {
      TakenIsStored(s, p, d);
    }
  }
}
