/** On which texts, well formed or not, the scale of the 'f' directive leaves 32 bits, and what that
    means for a whole sentence. */
module MinmeaOverflow {
  import opened CText
  import opened MinmeaFloat
  import opened MinmeaScan

  // ---------------------------------------------------------------- from the decimal to the overflow

  /** Ten digits behind the point that fit are all taken, whatever follows them. */
  lemma {:induction false} TenthDigit(s: bytes, p: nat, w: bytes, sign: int, value: int, v: nat, j: nat)
    requires Has(s, p, w) && AllDigits(w) && j <= 9 && |w| == 10 - j && Fold(v, w) <= INT_MAX
    requires value == v || (value == -1 && v == 0)
    ensures Floating(s, p, sign, value, Power10(j)) == Overflow
    decreases w
  {
    Powers();
    assert Digit(w[0]) && At(s, p) == w[0];
    var v' := v * 10 + (w[0] - ZERO);
    FoldGrows(v', w[1..]);
    if j < 9 {
      TenthDigit(s, p + 1, w[1..], sign, v', v', j + 1);
    }
  }

  lemma DecimalOverflows(s: bytes, p: nat, d: Dec)
    requires d.Valid() && |d.frac| == 10 && Has(s, p, d.Lexeme()) && d.Scaled(10) <= INT_MAX
    ensures Floating(s, p, 0, -1, 0) == Overflow
  {
    Parts(s, p, d);
    assert d.frac[..10] == d.frac;
    FoldThrough(0, d.whole, d.frac);
    hide Floating, Fold, Has;
    TailOverflows(s, p + d.blanks + |d.Lead()|, d);
  }

  lemma TailOverflows(s: bytes, r: nat, d: Dec)
    requires d.Valid() && |d.frac| == 10 && Fold(Fold(0, d.whole), d.frac) <= INT_MAX
    requires Has(s, r, d.whole) && Has(s, r + |d.whole|, d.Tail())
    ensures Floating(s, r, if d.late then 0 else d.Sign(), -1, 0) == Overflow
  {
    hide Floating, Has, Dec.Tail;
    if d.late {
      assert d.whole == [];
      LateOverflows(s, r, d);
    } else {
      EarlyOverflows(s, r, d);
    }
  }

  lemma EarlyOverflows(s: bytes, r: nat, d: Dec)
    requires d.Valid() && !d.late && |d.frac| == 10 && Fold(Fold(0, d.whole), d.frac) <= INT_MAX
    requires Has(s, r, d.whole) && Has(s, r + |d.whole|, d.Tail())
    ensures Floating(s, r, d.Sign(), -1, 0) == Overflow
  {
    hide Floating, Has;
    var v := Fold(0, d.whole);
    var value := if d.whole == [] then -1 else v;
    FoldGrows(v, d.frac);
    IntegerDigits(s, r, d.whole, d.Sign(), -1, 0);
    assert Floating(s, r, d.Sign(), -1, 0) == Floating(s, r + |d.whole|, d.Sign(), value, 0);
    EarlyTail(d);
    assert d.whole == [] ==> v == 0;
    hide Fold, Dec.Tail, Dec.Sign, AllDigits;
    PointRead(s, r + |d.whole|, d.Sign(), value, d.frac);
    TenthDigit(s, r + |d.whole| + 1, d.frac, d.Sign(), value, v, 0);
  }

  lemma LateOverflows(s: bytes, r: nat, d: Dec)
    requires d.Valid() && d.late && |d.frac| == 10 && Fold(0, d.frac) <= INT_MAX && Has(s, r, d.Tail())
    ensures Floating(s, r, 0, -1, 0) == Overflow
  {
    hide Floating, Fold, Has;
    LateTail(d);
    LateSign(s, r, d.sign, d.frac);
    TenthDigit(s, r + 1 + |d.sign|, d.frac, d.Sign(), -1, 0, 0);
  }

  // ---------------------------------------------------------------- from the overflow to the decimal

  /** Behind the point and a sign there are the digits that make up the ten. */
  lemma {:induction false} DigitsBehind(s: bytes, p: nat, sign: int, value: int, v: nat, j: nat) returns (w: bytes)
    requires Floating(s, p, sign, value, Power10(j)) == Overflow && j <= 9 && v <= INT_MAX
    requires value == v || (value == -1 && v == 0 && sign != 0)
    ensures Has(s, p, w) && AllDigits(w) && |w| == 10 - j && Fold(v, w) <= INT_MAX
    decreases 10 - j
  {
    Powers();
    var c := At(s, p);
    assert Digit(c);
    var v' := v * 10 + (c - ZERO);
    if j == 9 {
      w := [c];
      assert w[1..] == [];
    } else {
      var rest := DigitsBehind(s, p + 1, sign, v', v', j + 1);
      w := [c] + rest;
      assert w[1..] == rest;
    }
  }

  /** Once a digit is read, there are more digits, the point, and ten digits behind it. */
  lemma {:induction false} AfterDigit(s: bytes, p: nat, sign: int, v: nat) returns (whole: bytes, frac: bytes)
    requires Floating(s, p, sign, v, 0) == Overflow && v <= INT_MAX
    ensures AllDigits(whole) && AllDigits(frac) && |frac| == 10 && Has(s, p, whole + ([DOT] + frac))
    ensures Fold(Fold(v, whole), frac) <= INT_MAX
    decreases if p < |s| then |s| - p else 0
  {
    var c := At(s, p);
    if Digit(c) {
      var v' := v * 10 + (c - ZERO);
      var rest;
      rest, frac := AfterDigit(s, p + 1, sign, v');
      whole := [c] + rest;
      assert whole[1..] == rest && (whole + ([DOT] + frac))[1..] == rest + ([DOT] + frac);
    } else {
      assert c == DOT && Power10(0) == 1;
      frac := DigitsBehind(s, p + 1, sign, v, v, 0);
      whole := [];
      assert ([DOT] + frac)[1..] == frac && [] + ([DOT] + frac) == [DOT] + frac;
    }
  }

  predicate Overflows(s: bytes, p: nat, d: Dec) {
    d.Valid() && |d.frac| == 10 && Has(s, p, d.Lexeme()) && d.Scaled(10) <= INT_MAX
  }

  lemma Digital(s: bytes, p: nat, whole: bytes, frac: bytes, sign: bytes) returns (d: Dec)
    requires sign == [] || sign == [PLUS] || sign == [MINUS]
    requires AllDigits(whole) && AllDigits(frac) && |frac| == 10 && Fold(Fold(0, whole), frac) <= INT_MAX
    requires Has(s, p, sign) && Has(s, p + |sign|, whole + ([DOT] + frac))
    ensures d.blanks == 0 && Overflows(s, p, d)
  {
    d := Dec(0, sign, false, whole, true, frac);
    assert [] + frac == frac;
    HasSplit(s, p, sign, whole + ([DOT] + frac));
    assert d.Lexeme() == [] + (sign + (whole + ([DOT] + frac))) == sign + (whole + ([DOT] + frac));
    assert frac[..10] == frac;
    FoldThrough(0, whole, frac);
  }

  /** A sign has been read, and no digit yet. */
  lemma AfterSign(s: bytes, p: nat, sign: byte) returns (d: Dec)
    requires sign == PLUS || sign == MINUS
    requires At(s, p) == sign && Floating(s, p + 1, if sign == PLUS then 1 else -1, -1, 0) == Overflow
    ensures d.blanks == 0 && Overflows(s, p, d)
  {
    var n := if sign == PLUS then 1 else -1;
    var c := At(s, p + 1);
    var whole, frac;
    if Digit(c) {
      whole, frac := FromDigit(s, p + 1, n);
    } else {
      assert c == DOT && Power10(0) == 1;
      frac := DigitsBehind(s, p + 2, n, -1, 0, 0);
      whole := [];
      assert ([DOT] + frac)[1..] == frac && [] + ([DOT] + frac) == [DOT] + frac;
    }
    d := Digital(s, p, whole, frac, [sign]);
  }

  lemma FromDigit(s: bytes, p: nat, sign: int) returns (whole: bytes, frac: bytes)
    requires Floating(s, p, sign, -1, 0) == Overflow && Digit(At(s, p))
    ensures AllDigits(whole) && AllDigits(frac) && |frac| == 10 && Has(s, p, whole + ([DOT] + frac))
    ensures Fold(Fold(0, whole), frac) <= INT_MAX
  {
    var c := At(s, p);
    var rest;
    rest, frac := AfterDigit(s, p + 1, sign, c - ZERO);
    whole := [c] + rest;
    hide Floating;
    assert whole[1..] == rest;
    assert (whole + ([DOT] + frac))[1..] == rest + ([DOT] + frac);
  }

  lemma LateLexeme(sign: bytes, frac: bytes)
    requires sign == [] || sign == [PLUS] || sign == [MINUS]
    requires AllDigits(frac) && |frac| == 10
    ensures var d := Dec(0, sign, true, [], true, frac);
            d.Valid() && d.Lexeme() == [DOT] + (sign + frac) && d.Scaled(10) == Fold(0, frac)
  {
    hide Fold;
    assert [] + frac[..10] == frac;
    assert Blanks(0) == [];
    var tail := [DOT] + (sign + frac);
    assert [] + ([] + ([] + tail)) == tail;
  }

  lemma Late(s: bytes, p: nat, sign: bytes, frac: bytes) returns (d: Dec)
    requires sign == [] || sign == [PLUS] || sign == [MINUS]
    requires AllDigits(frac) && |frac| == 10 && Fold(0, frac) <= INT_MAX
    requires At(s, p) == DOT && Has(s, p + 1, sign) && Has(s, p + 1 + |sign|, frac)
    ensures d.blanks == 0 && Overflows(s, p, d)
  {
    d := Dec(0, sign, true, [], true, frac);
    LateLexeme(sign, frac);
    HasSplit(s, p + 1, sign, frac);
    assert ([DOT] + (sign + frac))[1..] == sign + frac;
    hide Fold, AllDigits, Blanks;
  }

  /** The point comes first. */
  lemma FromPoint(s: bytes, p: nat) returns (d: Dec)
    requires At(s, p) == DOT && Floating(s, p, 0, -1, 0) == Overflow
    ensures d.blanks == 0 && Overflows(s, p, d)
  {
    var c := At(s, p + 1);
    assert Power10(0) == 1;
    var sign: bytes, frac := [], [];
    if c == PLUS || c == MINUS {
      sign := [c];
      frac := DigitsBehind(s, p + 2, if c == PLUS then 1 else -1, -1, 0, 0);
    } else {
      assert Digit(c) && Power10(1) == 10;
      var rest := DigitsBehind(s, p + 2, 0, c - ZERO, c - ZERO, 1);
      frac := [c] + rest;
      assert frac[1..] == rest;
    }
    d := Late(s, p, sign, frac);
  }

  lemma Shifted(s: bytes, p: nat, e: Dec) returns (d: Dec)
    requires At(s, p) == SPACE && Overflows(s, p + 1, e)
    ensures Overflows(s, p, d)
  {
    d := e.(blanks := e.blanks + 1);
    MoreBlanks(d, e);
    hide Dec.Lexeme, Dec.Valid, Dec.Scaled;
  }

  lemma MoreBlanks(d: Dec, e: Dec)
    requires d == e.(blanks := e.blanks + 1)
    ensures d.Valid() <==> e.Valid()
    ensures d.Valid() && |d.frac| == 10 ==> d.Scaled(10) == e.Scaled(10)
    ensures d.Lexeme() == [SPACE] + e.Lexeme() && d.Lexeme()[1..] == e.Lexeme()
  {
    hide Fold, AllDigits, Has;
    assert d.Lead() == e.Lead() && d.Tail() == e.Tail();
    assert Blanks(d.blanks) == [SPACE] + Blanks(e.blanks);
    hide Dec.Lead, Dec.Tail, Blanks;
  }

  lemma {:induction false} OverflowHasDecimal(s: bytes, p: nat) returns (d: Dec)
    requires Floating(s, p, 0, -1, 0) == Overflow
    ensures Overflows(s, p, d)
    decreases if p < |s| then |s| - p else 0
  {
    var c := At(s, p);
    if c == SPACE {
      var e := OverflowHasDecimal(s, p + 1);
      d := Shifted(s, p, e);
    } else if c == PLUS || c == MINUS {
      d := AfterSign(s, p, c);
    } else if c == DOT {
      d := FromPoint(s, p);
    } else {
      var whole, frac := FromDigit(s, p, 0);
      d := Digital(s, p, whole, frac, []);
    }
  }

  /** On any text whatsoever, the scale overflows if and only if the field starts with a decimal that
      has ten digits behind the point and fits in 32 bits with all of them. */
  lemma OverflowExactly(s: bytes, p: nat)
    ensures Floating(s, p, 0, -1, 0) == Overflow <==> exists d: Dec :: Overflows(s, p, d)
  {
    if Floating(s, p, 0, -1, 0) == Overflow {
      var d := OverflowHasDecimal(s, p);
    }
    forall d: Dec | Overflows(s, p, d) ensures Floating(s, p, 0, -1, 0) == Overflow {
      DecimalOverflows(s, p, d);
    }
  }

  /** .+0000000000 */
  const LATE := Dec(0, [PLUS], true, [], true, NINE_ZEROS + [ZERO])

  lemma LateScaled()
    ensures LATE.Valid() && |LATE.frac| == 10 && LATE.Scaled(10) == 0
  {
    assert [] + LATE.frac[..10] == LATE.frac;
    ZerosFold(LATE.frac);
  }

  /** A sign behind the point is taken as well, and the scale of .+0000000000 overflows. */
  lemma LateSignOverflows()
    ensures LATE.Lexeme() == [DOT, PLUS] + NINE_ZEROS + [ZERO]
    ensures Floating(LATE.Lexeme(), 0, 0, -1, 0) == Overflow
  {
    hide *;
    LateScaled();
    LateText();
    WholeText(LATE.Lexeme());
    DecimalOverflows(LATE.Lexeme(), 0, LATE);
  }

  lemma LateText()
    ensures LATE.Lexeme() == [DOT, PLUS] + NINE_ZEROS + [ZERO]
  {
    hide Fold;
  }

  // ---------------------------------------------------------------- sentences

  /** No point in the field at p has more than nine bytes of the field behind it. */
  predicate FewDecimals(s: bytes, p: nat) {
    forall q :: p <= q < FieldEnd(s, p) && At(s, q) == DOT ==> FieldEnd(s, p) <= q + 10
  }

  lemma FewDecimalsAreSafe(s: bytes, p: nat)
    requires FewDecimals(s, p)
    ensures Floating(s, p, 0, -1, 0) != Overflow
  {
    if Floating(s, p, 0, -1, 0) == Overflow {
      var d := OverflowHasDecimal(s, p);
      var q := PointOf(s, p, d);
    }
  }

  /** Such a decimal has its point, and ten bytes behind it, within the field. */
  lemma PointOf(s: bytes, p: nat, d: Dec) returns (q: nat)
    requires Overflows(s, p, d)
    ensures p <= q && At(s, q) == DOT && q + 11 <= FieldEnd(s, p)
  {
    Parts(s, p, d);
    q := p + d.blanks + |d.Lead()| + |d.whole|;
    HasAt(s, q, d.Tail(), 0);
    LexemeBytes(d);
    FieldReaches(s, p, d.Lexeme());
  }

  lemma LexemeBytes(d: Dec)
    requires d.Valid()
    ensures FieldBytes(d.Lexeme())
  {
    BlankBytes(d.blanks);
    assert FieldBytes(d.whole) && FieldBytes(d.frac) && FieldBytes(d.sign);
    assert FieldBytes(d.Tail());
  }

  lemma {:induction false} BlankBytes(n: nat)
    ensures FieldBytes(Blanks(n))
  {
    if n > 0 {
      BlankBytes(n - 1);
    }
  }

  lemma {:induction false} FieldReaches(s: bytes, p: nat, w: bytes)
    requires Has(s, p, w) && FieldBytes(w)
    ensures p + |w| <= FieldEnd(s, p)
    decreases w
  {
    if w != [] {
      assert At(s, p) == w[0];
      FieldReaches(s, p + 1, w[1..]);
    }
  }

  /** A scan is undefined exactly if some directive overflows its scale and all before it are applied. */
  lemma {:induction false} RunUndefined(s: bytes, ds: seq<Directive>, k: nat)
    ensures Run(s, ds, k).status == Undefined <==>
            exists i :: 0 <= i < |ds| && Step(s, ds[i], k + i) == Overflow
                        && forall j :: 0 <= j < i ==> Step(s, ds[j], k + j).Done?
    decreases ds
  {
    hide Step;
    if ds != [] && Step(s, ds[0], k).Done? {
      RunUndefined(s, ds[1..], k + 1);
      if Run(s, ds, k).status == Undefined {
        var i :| 0 <= i < |ds[1..]| && Step(s, ds[1..][i], k + 1 + i) == Overflow
                 && forall j :: 0 <= j < i ==> Step(s, ds[1..][j], k + 1 + j).Done?;
        forall j | 0 <= j < i + 1 ensures Step(s, ds[j], k + j).Done? {
          if j > 0 {
            assert Step(s, ds[1..][j - 1], k + 1 + (j - 1)).Done?;
          }
        }
        assert Step(s, ds[i + 1], k + (i + 1)) == Overflow;
      }
      if i :| 0 <= i < |ds| && Step(s, ds[i], k + i) == Overflow
              && forall j :: 0 <= j < i ==> Step(s, ds[j], k + j).Done? {
        assert i > 0;
        assert Step(s, ds[1..][i - 1], k + 1 + (i - 1)) == Overflow;
        forall j | 0 <= j < i - 1 ensures Step(s, ds[1..][j], k + 1 + j).Done? {
          assert Step(s, ds[j + 1], k + (j + 1)).Done?;
        }
      }
    } else if ds != [] {
      assert Step(s, ds[0], k + 0) == Step(s, ds[0], k);
    }
  }

  /** A sentence whose 'f' fields have at most nine bytes behind a point is scanned without overflow,
      whatever else is in it. */
  lemma NeverUndefined(s: bytes, ds: seq<Directive>, k: nat)
    requires forall i :: 0 <= i < |ds| && ds[i].kind == DIRECTIVE_F ==>
               match FieldPos(s, k + i)
               case None => true
               case Some(p) => FewDecimals(s, p)
    ensures Run(s, ds, k).status != Undefined
  {
    forall i | 0 <= i < |ds| ensures Step(s, ds[i], k + i) != Overflow {
      match FieldPos(s, k + i)
      case None =>
      case Some(p) =>
        if ds[i].kind == DIRECTIVE_F {
          FewDecimalsAreSafe(s, p);
        }
    }
    RunUndefined(s, ds, k);
  }
}
