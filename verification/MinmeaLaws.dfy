/** What minmea_scan makes of a field, directive by directive, and of the letters of its format. */
module MinmeaLaws {
  import opened CText
  import opened MinmeaFloat
  import opened MinmeaScan

  /** A byte belongs to a field if it is printable and neither a comma nor a star. */
  predicate InField(c: byte) { 32 <= c <= 126 && c != 44 && c != 42 }

  predicate IsDigit(c: byte) { 48 <= c <= 57 }

  /** Two digits as a number. */
  function Pair(s: bytes, p: nat): int { 10 * (At(s, p) - 48) + (At(s, p + 1) - 48) }

  predicate SixDigits(s: bytes, p: nat) {
    && IsDigit(At(s, p)) && IsDigit(At(s, p + 1)) && IsDigit(At(s, p + 2))
    && IsDigit(At(s, p + 3)) && IsDigit(At(s, p + 4)) && IsDigit(At(s, p + 5))
  }

  lemma SixDigitsAt(s: bytes, p: nat)
    ensures DigitsAt(s, p, 6) <==> SixDigits(s, p)
  {
    if DigitsAt(s, p, 6) {
      assert Digit(At(s, p)) && Digit(At(s, p + 1)) && Digit(At(s, p + 2)) && Digit(At(s, p + 3));
    }
  }

  /** c: the first byte of the field, 0 where it is empty. */
  lemma CharField(s: bytes, optional: bool, k: nat, p: nat)
    requires FieldPos(s, k) == Some(p)
    ensures Step(s, Directive(99, optional), k) == Done(Single(if InField(At(s, p)) then At(s, p) else 0))
  {
  }

  /** d: 1 for N and E, -1 for S and W, 0 for an empty field; anything else fails. */
  lemma DirectionField(s: bytes, optional: bool, k: nat, p: nat)
    requires FieldPos(s, k) == Some(p)
    ensures Step(s, Directive(100, optional), k) ==
            if !InField(At(s, p)) then Done(Direction(0))
            else if At(s, p) == Ascii("N")[0] || At(s, p) == Ascii("E")[0] then Done(Direction(1))
            else if At(s, p) == Ascii("S")[0] || At(s, p) == Ascii("W")[0] then Done(Direction(-1))
            else Reject
  {
  }

  /** s: the whole field. */
  lemma TextField(s: bytes, optional: bool, k: nat, p: nat, w: bytes)
    requires FieldPos(s, k) == Some(p) && Has(s, p, w) && !InField(At(s, p + |w|))
    requires forall j :: 0 <= j < |w| ==> InField(w[j])
    ensures Step(s, Directive(115, optional), k) == Done(Text(w))
  {
    FieldPosMeaning(s, k);
    FieldEndOf(s, p, w);
    HasSlice(s, p, w);
  }

  /** t: five bytes of the field behind a dollar sign; it fails where there is none, or fewer. */
  lemma TalkerField(s: bytes, optional: bool, k: nat, p: nat)
    requires FieldPos(s, k) == Some(p)
    ensures Step(s, Directive(116, optional), k) ==
            if At(s, p) == 36 && InField(At(s, p + 1)) && InField(At(s, p + 2)) && InField(At(s, p + 3))
               && InField(At(s, p + 4)) && InField(At(s, p + 5))
            then Done(Talker([At(s, p + 1), At(s, p + 2), At(s, p + 3), At(s, p + 4), At(s, p + 5)]))
            else Reject
  {
    FieldPosMeaning(s, k);
    if At(s, p) == 36 && InField(At(s, p + 1)) && InField(At(s, p + 2)) && InField(At(s, p + 3))
       && InField(At(s, p + 4)) && InField(At(s, p + 5))
    {
      assert FieldBytesAt(s, p + 1, 5);
      assert s[p + 1..p + 6] == [At(s, p + 1), At(s, p + 2), At(s, p + 3), At(s, p + 4), At(s, p + 5)];
    } else if FieldBytesAt(s, p + 1, 5) {
      assert IsField(At(s, p + 1)) && IsField(At(s, p + 2)) && IsField(At(s, p + 3)) && IsField(At(s, p + 4));
      assert IsField(At(s, p + 5));
    }
  }

  /** D: day, month and year are the three pairs of six digits; -1 each for an empty field; any other
      field fails. What stands behind the six digits is not looked at. */
  lemma DateField(s: bytes, optional: bool, k: nat, p: nat)
    requires FieldPos(s, k) == Some(p)
    ensures Step(s, Directive(68, optional), k) ==
            if !InField(At(s, p)) then Done(Date(-1, -1, -1))
            else if SixDigits(s, p) then Done(Date(Pair(s, p), Pair(s, p + 2), Pair(s, p + 4)))
            else Reject
  {
    SixDigitsAt(s, p);
  }

  /** T: the same for hours, minutes and seconds. */
  lemma TimeField(s: bytes, optional: bool, k: nat, p: nat)
    requires FieldPos(s, k) == Some(p)
    ensures match Step(s, Directive(84, optional), k)
            case Done(Time(h, m, sec, u)) =>
              if !InField(At(s, p)) then h == -1 && m == -1 && sec == -1 && u == -1
              else SixDigits(s, p) && h == Pair(s, p) && m == Pair(s, p + 2) && sec == Pair(s, p + 4)
            case r => r == Reject && InField(At(s, p)) && !SixDigits(s, p)
  {
    SixDigitsAt(s, p);
  }

  /** The fraction of a second, behind a point: six digits, cut off or filled up with zeros; 0 where there
      is no point. */
  lemma FractionField(s: bytes, optional: bool, k: nat, p: nat, w: bytes)
    requires FieldPos(s, k) == Some(p) && SixDigits(s, p)
    requires At(s, p + 6) == 46 ==> Has(s, p + 7, w) && AllDigits(w) && !IsDigit(At(s, p + 7 + |w|))
    ensures exists h: int, m: int, sec: int, u: int ::
              && Step(s, Directive(84, optional), k) == Done(Time(h, m, sec, u))
              && if At(s, p + 6) != 46 then u == 0
                 else if |w| >= 6 then u == Fold(0, w[..6])
                 else u == Fold(0, w) * Power10(6 - |w|)
  {
    SixDigitsAt(s, p);
    if At(s, p + 6) == 46 {
      Microseconds(s, p + 7, w);
      if |w| >= 6 {
        FoldTruncates(w, |w| - 6);
      }
    }
    var u := if At(s, p + 6) == DOT then Micro(s, p + 7, 0, 1_000_000) else 0;
    assert Step(s, Directive(84, optional), k) == Done(Time(Two(s, p), Two(s, p + 2), Two(s, p + 4), u));
  }

  /** i: blanks, a sign and digits give their value, or the end of the 32-bit range it is beyond; a byte of
      the field behind them fails. Without digits the value is 0, for an empty field only. */
  lemma IntegerField(s: bytes, optional: bool, k: nat, p: nat, blanks: bytes, sign: bytes, w: bytes)
    requires FieldPos(s, k) == Some(p) && (sign == [] || sign == [43] || sign == [45])
    requires (forall j :: 0 <= j < |blanks| ==> blanks[j] == 32 || 9 <= blanks[j] <= 13)
    requires Has(s, p, blanks) && Has(s, p + |blanks|, sign + w)
    requires AllDigits(w) && !IsDigit(At(s, p + |blanks| + |sign + w|))
    requires sign == [] && w == [] ==> var c := At(s, p + |blanks|); c != 32 && !(9 <= c <= 13) && c != 43 && c != 45
    ensures var n := IntOf(sign, w);
            Step(s, Directive(105, optional), k) ==
            if w == [] then if InField(At(s, p)) then Reject else Done(Number(0))
            else if InField(At(s, p + |blanks| + |sign + w|)) then Reject
            else Done(Number(if n > 2147483647 then 2147483647 else if n < -2147483648 then -2147483648 else n))
  {
    FieldPosMeaning(s, k);
    hide Has, Clamp, Step, FieldPos;
    ghost var r := StrToL(s, p);
    StrToLIs(s, p, blanks, sign, w);
    hide StrToL, IntOf;
    var n := IntOf(sign, w);
    ClampIs(n);
    IntegerStep(s, optional, k, p, r.0, r.1);
  }

  function IntOf(sign: bytes, w: bytes): int
    requires AllDigits(w)
  {
    if sign == [45] then -1 * Fold(0, w) else Fold(0, w)
  }

  lemma IntegerStep(s: bytes, optional: bool, k: nat, p: nat, n: int, e: nat)
    requires FieldPos(s, k) == Some(p) && p <= |s| && StrToL(s, p) == (n, e)
    ensures Step(s, Directive(105, optional), k) == if InField(At(s, e)) then Reject else Done(Number(n))
  {
    hide StrToL;
  }

  lemma ClampIs(n: int)
    ensures Clamp(n) == if n > 2147483647 then 2147483647 else if n < -2147483648 then -2147483648 else n
  {
  }

  lemma StrToLIs(s: bytes, p: nat, blanks: bytes, sign: bytes, w: bytes)
    requires p <= |s| && (sign == [] || sign == [43] || sign == [45])
    requires (forall j :: 0 <= j < |blanks| ==> blanks[j] == 32 || 9 <= blanks[j] <= 13)
    requires Has(s, p, blanks) && Has(s, p + |blanks|, sign + w)
    requires AllDigits(w) && !IsDigit(At(s, p + |blanks| + |sign + w|))
    requires sign == [] && w == [] ==> var c := At(s, p + |blanks|); c != 32 && !(9 <= c <= 13) && c != 43 && c != 45
    ensures StrToL(s, p) ==
            if w == [] then (0, p)
            else (Clamp(IntOf(sign, w)), p + |blanks| + |sign + w|)
  {
    hide Has, Fold, Clamp, SpacesEnd, RunEnd, RunValue;
    HasSplit(s, p + |blanks|, sign, w);
    BlankRun(s, p, blanks, sign, w);
    var q := p + |blanks|;
    if sign != [] {
      HasAt(s, q, sign, 0);
    }
    DigitRun(s, q + |sign|, w);
  }

  lemma DigitRun(s: bytes, i: nat, w: bytes)
    requires Has(s, i, w) && AllDigits(w) && !IsDigit(At(s, i + |w|))
    ensures RunEnd(s, i) == i + |w| <= |s| && RunValue(0, s, i, i + |w|) == Fold(0, w)
    ensures w != [] <==> Digit(At(s, i))
    ensures w != [] ==> At(s, i) == w[0]
  {
    RunEndOf(s, i, w);
    HasSlice(s, i, w);
    if w != [] {
      HasAt(s, i, w, 0);
      assert Digit(w[0]);
    }
  }

  lemma {:induction false} BlankRun(s: bytes, p: nat, blanks: bytes, sign: bytes, w: bytes)
    requires (forall j :: 0 <= j < |blanks| ==> blanks[j] == 32 || 9 <= blanks[j] <= 13)
    requires Has(s, p, blanks) && Has(s, p + |blanks|, sign) && Has(s, p + |blanks| + |sign|, w) && AllDigits(w)
    requires sign == [] || sign == [43] || sign == [45]
    requires sign == [] && w == [] ==> var c := At(s, p + |blanks|); c != 32 && !(9 <= c <= 13)
    ensures SpacesEnd(s, p) == p + |blanks|
    decreases blanks
  {
    if blanks != [] {
      assert At(s, p) == blanks[0];
      BlankRun(s, p + 1, blanks[1..], sign, w);
    } else if sign != [] {
      HasAt(s, p, sign, 0);
    } else if w != [] {
      HasAt(s, p, w, 0);
      assert Digit(w[0]);
    }
  }

  /** The underscore takes any field; a letter that is no directive fails. */
  lemma OtherField(s: bytes, c: byte, optional: bool, k: nat, p: nat)
    requires FieldPos(s, k) == Some(p) && c !in {99, 100, 102, 105, 115, 116, 68, 84}
    ensures Step(s, Directive(c, optional), k) == if c == 95 then Done(Ignored) else Reject
  {
  }

  /** A field that is missing fails, unless a semicolon stands before its directive; then it is stored as
      an empty field is, and t and unknown letters still fail. */
  lemma MissingField(s: bytes, c: byte, optional: bool, k: nat)
    requires FieldPos(s, k) == None
    ensures Step(s, Directive(c, optional), k) ==
            if !optional then Reject
            else if c == 99 then Done(Single(0)) else if c == 100 then Done(Direction(0))
            else if c == 102 then Done(Float(0, 0)) else if c == 105 then Done(Number(0))
            else if c == 115 then Done(Text([])) else if c == 68 then Done(Date(-1, -1, -1))
            else if c == 84 then Done(Time(-1, -1, -1, -1)) else if c == 95 then Done(Ignored)
            else Reject
  {
  }

  /** f: what FloatField says of the field. */
  lemma DecimalField(s: bytes, optional: bool, k: nat, p: nat)
    requires FieldPos(s, k) == Some(p)
    ensures Step(s, Directive(102, optional), k) == Floating(s, p, 0, -1, 0)
  {
  }

  // ---------------------------------------------------------------- the format

  /** The letters of a format other than the semicolon, with what stands before them. */
  function Letters(w: bytes, optional: bool): seq<Directive> {
    if w == [] then [] else [Directive(w[0], optional)] + Letters(w[1..], optional)
  }

  lemma {:induction false} LetterAt(w: bytes, optional: bool, k: nat)
    requires k < |w|
    ensures |Letters(w, optional)| == |w| && Letters(w, optional)[k] == Directive(w[k], optional)
    decreases w
  {
    if k > 0 {
      LetterAt(w[1..], optional, k - 1);
    } else if |w| > 1 {
      LetterAt(w[1..], optional, 0);
    } else {
      assert Letters(w[1..], optional) == [];
    }
  }

  /** The directives are the letters of the format in order, the ones behind a semicolon optional. */
  lemma {:induction false} DirectivesAre(format: bytes, j: nat, w: bytes, optional: bool)
    requires Has(format, j, w) && NulFree(w) && 59 !in w
    ensures Directives(format, j, optional) == Letters(w, optional) + Directives(format, j + |w|, optional)
    ensures At(format, j + |w|) == 0 ==> Directives(format, j, optional) == Letters(w, optional)
    ensures At(format, j + |w|) == 59 ==>
              Directives(format, j, optional) == Letters(w, optional) + Directives(format, j + |w| + 1, true)
    decreases w
  {
    if w == [] {
      assert Letters(w, optional) + Directives(format, j, optional) == Directives(format, j, optional);
      if At(format, j) == 59 {
        var rest := Directives(format, j + 1, true);
        assert [] + rest == rest;
      }
    } else {
      assert At(format, j) == w[0] && w[0] in w;
      DirectivesAre(format, j + 1, w[1..], optional);
      hide Directives;
      assert [Directive(w[0], optional)] + (Letters(w[1..], optional) + Directives(format, j + |w|, optional)) ==
             Letters(w, optional) + Directives(format, j + |w|, optional);
    }
  }
}
