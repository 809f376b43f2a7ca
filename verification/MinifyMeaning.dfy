/** Minifying keeps the value of every text the parser accepts, not only of printed text. */
module MinifyMeaning {
  import opened CText
  import opened StringCodec
  import opened Json
  import opened JsonRoundTrip
  import opened Minify

  /** What is left of s from i on stands in t from k on. */
  predicate Rest(s: bytes, i: nat, t: bytes, k: nat) {
    k <= |t| && Min(s, i) == Text(t[k..])
  }

  /** s[i..e] stands in t, moved by d. */
  predicate Agree(s: bytes, t: bytes, d: int, i: nat, e: nat) {
    0 <= i + d && forall x :: i <= x < e ==> 0 <= x + d && At(t, x + d) == At(s, x)
  }

  /** What may follow a complete value, blanks aside. */
  predicate Delimiter(c: byte) {
    c == 0 || c == COMMA || c == CLOSE_BRACKET || c == CLOSE_BRACE
  }

  lemma RestStep(s: bytes, i: nat, t: bytes, k: nat, e: nat)
    requires Rest(s, i, t, k) && i <= e <= |s| && Min(s, i) == Cat(s[i..e], Min(s, e))
    ensures Rest(s, e, t, k + (e - i)) && Agree(s, t, k - i, i, e)
  {
    hide Min;
    var w := s[i..e];
    var u := Min(s, e).t;
    assert t[k..] == w + u;
    assert t[k + |w|..] == t[k..][|w|..] == u;
    forall x | i <= x < e ensures At(t, x + (k - i)) == At(s, x) {
      assert t[k..][x - i] == w[x - i];
    }
  }

  lemma MinHead(s: bytes, i: nat, t: bytes, k: nat)
    requires Rest(s, i, t, k) && At(s, i) != 0 && !Removed(At(s, i)) && At(s, i) != SLASH && At(s, i) != QUOTE
    ensures k < |t| && t[k] == At(s, i) && Rest(s, i + 1, t, k + 1)
  {
    assert Min(s, i) == Cat([s[i]], Min(s, i + 1));
    assert s[i..i + 1] == [s[i]];
    RestStep(s, i, t, k, i + 1);
    assert At(t, i + (k - i)) == At(s, i);
  }

  /** Skipping blanks on both sides arrives at the same character, unless a comment starts there. */
  lemma {:induction false} SkipKept(s: bytes, i: nat, t: bytes, k: nat)
    requires i <= |s| && Rest(s, i, t, k) && At(s, Skip(s, i)) != SLASH
    ensures Rest(s, Skip(s, i), t, Skip(t, k)) && At(t, Skip(t, k)) == At(s, Skip(s, i))
    decreases |s| - i
  {
    var c := At(s, i);
    if c == 0 {
      SkipNothing(t, k);
    } else if Removed(c) {
      SkipKept(s, i + 1, t, k);
    } else if c <= 32 {
      MinHead(s, i, t, k);
      SkipKept(s, i + 1, t, k + 1);
    } else {
      if c == QUOTE {
        LiteralHead(s, i, t, k);
      } else {
        MinHead(s, i, t, k);
      }
      SkipNothing(t, k);
    }
  }

  lemma LiteralHead(s: bytes, i: nat, t: bytes, k: nat)
    requires At(s, i) == QUOTE && Rest(s, i, t, k)
    ensures LiteralEnd(s, i + 1).Closed?
    ensures var e := LiteralEnd(s, i + 1).end;
            Rest(s, e, t, k + (e - i)) && Agree(s, t, k - i, i, e) && At(t, k) == QUOTE
  {
    var e := LiteralEnd(s, i + 1).end;
    RestStep(s, i, t, k, e);
    assert At(t, i + (k - i)) == At(s, i);
  }

  /** Where a number may stop: no character that could prolong it follows. */
  predicate Stop(c: byte) {
    EndsNumber(c) && c != PLUS && c != MINUS
  }

  lemma NextChar(s: bytes, e: nat, t: bytes, k: nat)
    requires e <= |s| && Rest(s, e, t, k) && Delimiter(At(s, Skip(s, e)))
    ensures Stop(At(s, e)) && Stop(At(t, k))
  {
    SkipKept(s, e, t, k);
  }

  // ---------------------------------------------------------------- literals and numbers

  lemma Hex4Local(s: bytes, i: nat, t: bytes, d: int, e: nat)
    requires Agree(s, t, d, i, e) && i + 4 <= e
    ensures Hex4(t, i + d) == Hex4(s, i) && Inside4(t, i + d) == Inside4(s, i)
  {
    assert At(t, i + d) == At(s, i) && At(t, i + 1 + d) == At(s, i + 1);
    assert At(t, i + 2 + d) == At(s, i + 2) && At(t, i + 3 + d) == At(s, i + 3);
  }

  lemma AgreeFrom(s: bytes, t: bytes, d: int, i: nat, j: nat, e: nat)
    requires Agree(s, t, d, i, e) && i <= j
    ensures Agree(s, t, d, j, e)
  {
  }

  /** What the second loop makes of the bytes it takes does not depend on where they stand. */
  lemma {:induction false} DecodeLocal(s: bytes, i: nat, v: bytes, e: nat, t: bytes, d: int)
    requires Decode(s, i) == Ok(v, e) && Agree(s, t, d, i, e) && (At(s, e) == 0 ==> At(t, e + d) == 0)
    ensures Decode(t, i + d) == Ok(v, e + d)
    decreases e - i, 1
  {
    hide Hex4, Transcode, CombineSurrogates, Inside4;
    var c := At(s, i);
    if c != 0 {
      assert At(t, i + d) == c;
    }
    if c == QUOTE || c == 0 {
    } else if c != BACKSLASH {
      DecodeLocal(s, i + 1, v[1..], e, t, d);
      assert [c] + v[1..] == v;
    } else {
      assert i + 1 < e && At(t, i + 1 + d) == At(s, i + 1);
      if At(s, i + 1) != 117 {
        DecodeLocal(s, i + 2, v[1..], e, t, d);
        assert [v[0]] + v[1..] == v;
      } else {
        UnicodeLocal(s, i, v, e, t, d);
      }
    }
  }

  lemma {:induction false} UnicodeLocal(s: bytes, i: nat, v: bytes, e: nat, t: bytes, d: int)
    requires Decode(s, i) == Ok(v, e) && Agree(s, t, d, i, e) && (At(s, e) == 0 ==> At(t, e + d) == 0)
    requires At(s, i) == BACKSLASH && At(s, i + 1) == 117
    ensures Decode(t, i + d) == Ok(v, e + d)
    decreases e - i, 0
  {
    hide Hex4, Transcode, CombineSurrogates, Inside4;
    assert At(t, i + d) == At(s, i) && At(t, i + 1 + d) == At(s, i + 1);
    Hex4Local(s, i + 2, t, d, e);
    AgreeFrom(s, t, d, i, i + 6, e);
    NextLocal(s, i + 6, e, t, d);
    if HighSurrogate(Hex4(s, i + 2)) && At(s, i + 6) == BACKSLASH && At(s, i + 7) == 117 {
      Hex4Local(s, i + 8, t, d, e);
      match Decode(s, i + 12)
      case Ok(rest, _) => DecodeLocal(s, i + 12, rest, e, t, d);
      case _ =>
    } else {
      match Decode(s, i + 6)
      case Ok(rest, _) => DecodeLocal(s, i + 6, rest, e, t, d);
      case _ =>
    }
  }

  /** The two bytes that the loop looks at before it decides on a surrogate pair. */
  lemma NextLocal(s: bytes, i: nat, e: nat, t: bytes, d: int)
    requires i <= e && Agree(s, t, d, i, e) && (At(s, e) == 0 ==> At(t, e + d) == 0)
    requires i == e ==> At(s, i) == 0
    requires At(s, i) == BACKSLASH ==> i + 2 <= e
    ensures At(t, i + d) == At(s, i) && (At(s, i) == BACKSLASH ==> At(t, i + 1 + d) == At(s, i + 1))
  {
    if At(s, i) == BACKSLASH {
      assert i + 1 < e;
    }
  }

  /** Nor does what the first loop makes of a closed literal. */
  lemma {:induction false} ScanLocal(s: bytes, i: nat, e: nat, t: bytes, d: int)
    requires LiteralEnd(s, i) == Closed(e) && Agree(s, t, d, i, e)
    ensures Count(t, i + d) == Count(s, i) && !FirstLeaves(t, i + d)
    decreases e - i
  {
    var c := At(s, i);
    assert At(t, i + d) == c;
    if c == BACKSLASH {
      assert At(t, i + 1 + d) == At(s, i + 1);
      ScanLocal(s, i + 2, e, t, d);
    } else if c != QUOTE {
      ScanLocal(s, i + 1, e, t, d);
    }
  }

  /** parse_string leaves the literal at q where a scan for its closing quotation mark ends, or, where
      there is none, at the end of the text. */
  predicate Straight(s: bytes, q: nat) {
    match ParseString(s, q)
    case Ok(_, e) => if LiteralEnd(s, q + 1).Closed? then LiteralEnd(s, q + 1) == Closed(e) else At(s, e) == 0
    case _ => true
  }

  /** So it is at every quotation mark of the text. */
  predicate AllStraight(s: bytes) {
    forall q :: 0 <= q < |s| ==> Straight(s, q)
  }

  lemma {:induction false} RunLocal(s: bytes, b: nat, t: bytes, d: int, e: nat)
    requires Agree(s, t, d, b, e) && RunEnd(s, b) <= e && !Digit(At(t, e + d))
    requires b <= e
    ensures RunEnd(t, b + d) == RunEnd(s, b) + d
    decreases e - b
  {
    if b < e {
      assert At(t, b + d) == At(s, b);
      if Digit(At(s, b)) {
        RunLocal(s, b + 1, t, d, e);
      }
    }
  }

  lemma RunValueLocal(acc: nat, s: bytes, b: nat, j: nat, t: bytes, d: int)
    requires b <= j <= |s| && 0 <= b + d && j + d <= |t| && Agree(s, t, d, b, j)
    requires forall x :: b <= x < j ==> Digit(At(s, x))
    requires forall x :: b + d <= x < j + d ==> Digit(At(t, x))
    ensures RunValue(acc, t, b + d, j + d) == RunValue(acc, s, b, j)
  {
    forall x | b <= x < j ensures t[x + d] == s[x] {
      assert At(t, x + d) == At(s, x);
    }
    assert s[b..j] == t[b + d..j + d];
  }

  lemma CopiedLength(s: bytes, i: nat, e: nat, t: bytes, d: int)
    requires Agree(s, t, d, i, e) && i <= e <= |s| && i + d <= |t|
    requires forall x :: i <= x < e ==> At(s, x) != 0
    ensures e + d <= |t|
  {
    if i < e {
      assert At(t, (e - 1) + d) == At(s, e - 1) != 0;
    }
  }

  /** Every character of a number stays. */
  lemma NumberCharacters(s: bytes, i: nat)
    requires i <= |s| && (At(s, i) == MINUS || Digit(At(s, i)))
    ensures forall x :: i <= x < ParseNumber(s, i).end ==>
              Digit(At(s, x)) || At(s, x) == MINUS || At(s, x) == PLUS || At(s, x) == DOT || ExponentMark(At(s, x))
  {
    var b, c := IntegerStart(s, i), IntegerEnd(s, i);
    var d := FractionEnd(s, c);
    if d > c {
      assert forall x :: c + 1 <= x < d ==> Digit(At(s, x));
    }
    assert forall x :: b <= x < c ==> Digit(At(s, x));
    if ExponentMark(At(s, d)) {
      var f := ExponentStart(s, d);
      assert forall x :: f <= x < RunEnd(s, f) ==> Digit(At(s, x));
    }
  }

  lemma NumberPlain(s: bytes, i: nat)
    requires i <= |s| && (At(s, i) == MINUS || Digit(At(s, i)))
    ensures var e := ParseNumber(s, i).end; i < e <= |s| && Has(s, i, s[i..e]) && PlainText(s[i..e])
  {
    var e := ParseNumber(s, i).end;
    assert i < e <= |s|;
    NumberCharacters(s, i);
    hide ParseNumber, Has;
    var w := s[i..e];
    forall k | 0 <= k < |w| ensures w[k] != 0 && !Removed(w[k]) && w[k] != SLASH && w[k] != QUOTE {
      assert w[k] == At(s, i + k);
    }
    HasSlice(s, i, w);
  }

  lemma NumberStays(s: bytes, i: nat)
    requires i <= |s| && (At(s, i) == MINUS || Digit(At(s, i)))
    ensures var e := ParseNumber(s, i).end; i < e <= |s| && Min(s, i) == Cat(s[i..e], Min(s, e))
  {
    hide *;
    NumberPlain(s, i);
    MinPlain(s, i, s[i..ParseNumber(s, i).end]);
  }

  lemma NumberEnd(s: bytes, i: nat)
    requires i <= |s|
    ensures var f := FractionEnd(s, IntegerEnd(s, i));
            ParseNumber(s, i).end == if ExponentMark(At(s, f)) then RunEnd(s, ExponentStart(s, f)) else f
  {
  }

  /** A number reads the same wherever it stands, if nothing behind it prolongs it. */
  lemma NumberLocal(s: bytes, i: nat, t: bytes, d: int)
    requires i <= |s| && (At(s, i) == MINUS || Digit(At(s, i))) && 0 <= i + d <= |t|
    requires var e := ParseNumber(s, i).end; Agree(s, t, d, i, e) && Stop(At(s, e)) && Stop(At(t, e + d))
    ensures ParseNumber(t, i + d) == Ok(ParseNumber(s, i).value, ParseNumber(s, i).end + d)
    ensures ExponentFits(t, i + d) == ExponentFits(s, i)
  {
    hide ParseNumber, RunEnd, RunValue, IntegerStart, IntegerEnd, FractionEnd, ExponentStart;
    var e := ParseNumber(s, i).end;
    assert e + d <= |t| by {
      NumberCharacters(s, i);
      CopiedLength(s, i, e, t, d);
    }
    NumberEnd(s, i);
    NumberBounds(s, i);
    var acc := RunValue(0, s, IntegerStart(s, i), IntegerEnd(s, i));
    IntegerLocal(s, i, t, d, e);
    FractionLocal(s, i, t, d, e, acc);
    var f := FractionEnd(s, IntegerEnd(s, i));
    if ExponentMark(At(s, f)) {
      ExponentLocal(s, f, t, d, e);
      NumberSame(s, i, t, d);
    } else {
      assert f == e && !ExponentMark(At(t, f + d));
      NumberSame(s, i, t, d);
    }
  }

  lemma NumberBounds(s: bytes, i: nat)
    requires i <= |s| && (At(s, i) == MINUS || Digit(At(s, i)))
    ensures var f := FractionEnd(s, IntegerEnd(s, i));
            i < ParseNumber(s, i).end <= |s| && IntegerEnd(s, i) <= f <= ParseNumber(s, i).end
    ensures var f := FractionEnd(s, IntegerEnd(s, i));
            ExponentMark(At(s, f)) ==> f < ParseNumber(s, i).end
    ensures IntegerStart(s, i) <= IntegerEnd(s, i)
    ensures forall x :: IntegerStart(s, i) <= x < IntegerEnd(s, i) ==> Digit(At(s, x))
  {
  }

  ghost predicate SameInteger(s: bytes, i: nat, t: bytes, d: int)
    requires i <= |s| && 0 <= i + d <= |t|
  {
    && IntegerStart(t, i + d) == IntegerStart(s, i) + d && IntegerEnd(t, i + d) == IntegerEnd(s, i) + d
    && RunValue(0, t, IntegerStart(t, i + d), IntegerEnd(t, i + d)) ==
       RunValue(0, s, IntegerStart(s, i), IntegerEnd(s, i))
  }

  ghost predicate SameFraction(s: bytes, c: nat, t: bytes, d: int, acc: nat)
    requires c <= |s| && 0 <= c + d <= |t|
  {
    var f := FractionEnd(s, c);
    && FractionEnd(t, c + d) == f + d
    && (f > c ==> RunValue(acc, t, c + 1 + d, f + d) == RunValue(acc, s, c + 1, f))
  }

  ghost predicate SameExponent(s: bytes, f: nat, t: bytes, d: int)
    requires f <= |s| && 0 <= f + d <= |t|
  {
    && ExponentMark(At(t, f + d)) == ExponentMark(At(s, f))
    && (ExponentMark(At(s, f)) ==>
          var g := ExponentStart(s, f);
          && ExponentStart(t, f + d) == g + d
          && (At(t, f + 1 + d) == MINUS) == (At(s, f + 1) == MINUS)
          && RunEnd(t, g + d) == RunEnd(s, g) + d
          && RunValue(0, t, g + d, RunEnd(t, g + d)) == RunValue(0, s, g, RunEnd(s, g)))
  }

  /** parse_number is determined by its parts. */
  lemma NumberSame(s: bytes, i: nat, t: bytes, d: int)
    requires i <= |s| && 0 <= i + d <= |t| && At(t, i + d) == At(s, i) && SameInteger(s, i, t, d)
    requires var c := IntegerEnd(s, i);
             SameFraction(s, c, t, d, RunValue(0, s, IntegerStart(s, i), c)) && SameExponent(s, FractionEnd(s, c), t, d)
    ensures ParseNumber(t, i + d) == Ok(ParseNumber(s, i).value, ParseNumber(s, i).end + d)
    ensures ExponentFits(t, i + d) == ExponentFits(s, i)
  {
    hide RunValue, RunEnd, IntegerStart, IntegerEnd, ExponentStart, ExponentMark, Digit;
  }

  lemma IntegerLocal(s: bytes, i: nat, t: bytes, d: int, e: nat)
    requires i < e <= |s| && 0 <= i + d && e + d <= |t| && Agree(s, t, d, i, e) && IntegerEnd(s, i) <= e
    requires Stop(At(s, e)) && Stop(At(t, e + d))
    ensures IntegerStart(t, i + d) == IntegerStart(s, i) + d && IntegerStart(s, i) <= IntegerEnd(s, i)
    ensures IntegerEnd(t, i + d) == IntegerEnd(s, i) + d && At(t, i + d) == At(s, i)
    ensures RunValue(0, t, IntegerStart(t, i + d), IntegerEnd(t, i + d)) ==
            RunValue(0, s, IntegerStart(s, i), IntegerEnd(s, i))
  {
    hide RunEnd, RunValue;
    var a := if At(s, i) == MINUS then i + 1 else i;
    var b := IntegerStart(s, i);
    assert At(t, i + d) == At(s, i);
    assert a < e ==> At(t, a + d) == At(s, a);
    assert b < e ==> At(t, b + d) == At(s, b);
    AgreeFrom(s, t, d, i, b, e);
    if ZERO < At(s, b) <= NINE {
      RunLocal(s, b, t, d, e);
    }
    RunValueLocal(0, s, b, IntegerEnd(s, i), t, d);
  }

  lemma FractionLocal(s: bytes, i: nat, t: bytes, d: int, e: nat, acc: nat)
    requires i <= |s| && i < e <= |s| && 0 <= i + d && e + d <= |t| && Agree(s, t, d, i, e)
    requires ParseNumber(s, i).end == e && Stop(At(s, e)) && Stop(At(t, e + d))
    requires IntegerEnd(t, i + d) == IntegerEnd(s, i) + d
    ensures var c := IntegerEnd(s, i);
            var f := FractionEnd(s, c);
            && i <= c <= f <= e
            && FractionEnd(t, c + d) == f + d
            && (f > c ==> RunValue(acc, t, c + 1 + d, f + d) == RunValue(acc, s, c + 1, f))
  {
    var c := IntegerEnd(s, i);
    var f := FractionEnd(s, c);
    if c < e {
      assert At(t, c + d) == At(s, c);
      if At(s, c) == DOT {
        assert c + 1 < e ==> At(t, c + 1 + d) == At(s, c + 1);
        if f > c {
          AgreeFrom(s, t, d, i, c + 1, e);
          RunLocal(s, c + 1, t, d, e);
          RunValueLocal(acc, s, c + 1, f, t, d);
        }
      }
    }
  }

  lemma ExponentLocal(s: bytes, f: nat, t: bytes, d: int, e: nat)
    requires f < e <= |s| && 0 <= f + d && e + d <= |t| && Agree(s, t, d, f, e)
    requires ExponentMark(At(s, f)) && RunEnd(s, ExponentStart(s, f)) == e
    requires Stop(At(s, e)) && Stop(At(t, e + d))
    ensures ExponentMark(At(t, f + d)) && ExponentStart(t, f + d) == ExponentStart(s, f) + d
    ensures (At(t, f + 1 + d) == MINUS) == (At(s, f + 1) == MINUS)
    ensures RunEnd(t, ExponentStart(t, f + d)) == e + d
    ensures RunValue(0, t, ExponentStart(t, f + d), e + d) == RunValue(0, s, ExponentStart(s, f), e)
  {
    assert At(t, f + d) == At(s, f);
    assert f + 1 < e ==> At(t, f + 1 + d) == At(s, f + 1);
    var g := ExponentStart(s, f);
    AgreeFrom(s, t, d, f, g, e);
    RunLocal(s, g, t, d, e);
    RunValueLocal(0, s, g, e, t, d);
  }

  // ---------------------------------------------------------------- values

  /** What a value may start with. */
  predicate Starts(c: byte) {
    c == 110 || c == 102 || c == 116 || c == QUOTE || c == MINUS || Digit(c) || c == OPEN_BRACKET || c == OPEN_BRACE
  }

  lemma ValueStart(s: bytes, i: nat)
    requires i <= |s| && ParseValue(s, i).Ok?
    ensures Starts(At(s, i))
  {
    OnlyWord(s, i);
  }

  lemma WordKept(s: bytes, i: nat, t: bytes, k: nat, w: bytes)
    requires Rest(s, i, t, k) && Has(s, i, w) && PlainText(w)
    ensures Has(t, k, w) && Rest(s, i + |w|, t, k + |w|)
  {
    hide Min;
    MinPlain(s, i, w);
    HasSlice(s, i, w);
    RestStep(s, i, t, k, i + |w|);
    assert t[k..k + |w|] == t[k..][..|w|] == w;
    HasSlice(t, k, w);
  }

  lemma StringKept(s: bytes, i: nat, t: bytes, k: nat) returns (k': nat)
    requires i <= |s| && Rest(s, i, t, k) && ParseString(s, i).Ok? && AllStraight(s)
    ensures k' <= |t| && At(t, k) == QUOTE && ParseString(t, k) == Ok(ParseString(s, i).value, k')
    ensures Rest(s, ParseString(s, i).end, t, k')
  {
    hide Min, AllStraight, Decode, Count, FirstLeaves, LiteralEnd;
    LiteralHead(s, i, t, k);
    StraightAt(s, i);
    var e := LiteralEnd(s, i + 1).end;
    k' := k + (e - i);
    AgreeFrom(s, t, k - i, i, i + 1, e);
    if At(s, e) == 0 {
      NothingLeft(s, e, t, k');
    }
    DecodeLocal(s, i + 1, ParseString(s, i).value, e, t, k - i);
    ScanLocal(s, i + 1, e, t, k - i);
  }

  lemma StraightAt(s: bytes, i: nat)
    requires AllStraight(s) && ParseString(s, i).Ok?
    ensures Straight(s, i) && i < |s|
  {
    assert At(s, i) == QUOTE;
  }

  lemma NumberKept(s: bytes, i: nat, t: bytes, k: nat) returns (k': nat)
    requires i <= |s| && Rest(s, i, t, k) && (At(s, i) == MINUS || Digit(At(s, i)))
    requires Delimiter(At(s, Skip(s, ParseNumber(s, i).end)))
    ensures k' <= |t| && At(t, k) == At(s, i) && ParseNumber(t, k) == Ok(ParseNumber(s, i).value, k')
    ensures ExponentFits(t, k) == ExponentFits(s, i)
    ensures Rest(s, ParseNumber(s, i).end, t, k')
  {
    hide Min, ParseNumber, ExponentFits;
    var e := ParseNumber(s, i).end;
    NumberStays(s, i);
    RestStep(s, i, t, k, e);
    NextChar(s, e, t, k + (e - i));
    assert At(t, i + (k - i)) == At(s, i);
    NumberLocal(s, i, t, k - i);
    k' := k + (e - i);
  }

  /** A bracket, comma, colon or brace stays, and the parser goes on behind it on both sides. */
  lemma MarkKept(s: bytes, i: nat, t: bytes, k: nat)
    requires i <= |s| && Rest(s, i, t, k)
    requires At(s, i) in {OPEN_BRACKET, CLOSE_BRACKET, OPEN_BRACE, CLOSE_BRACE, COMMA, COLON}
    ensures k < |t| && i < |s| && t[k] == s[i] && Rest(s, i + 1, t, k + 1)
  {
    MinHead(s, i, t, k);
  }

  lemma {:induction false} ValueKept(s: bytes, i: nat, t: bytes, k: nat) returns (k': nat)
    requires i <= |s| && Rest(s, i, t, k) && AllStraight(s) && ParseValue(s, i).Ok?
    requires Delimiter(At(s, Skip(s, ParseValue(s, i).end)))
    ensures k' <= |t| && ParseValue(t, k) == Ok(ParseValue(s, i).value, k')
    ensures Rest(s, ParseValue(s, i).end, t, k')
    decreases |s| - i, 1
  {
    var c := At(s, i);
    OnlyWord(s, i);
    OnlyWord(t, k);
    if c == QUOTE {
      k' := StringKept(s, i, t, k);
    } else if c == MINUS || Digit(c) {
      k' := NumberKept(s, i, t, k);
    } else if c == OPEN_BRACKET {
      k' := ArrayKept(s, i, t, k);
    } else if c == OPEN_BRACE {
      k' := ObjectKept(s, i, t, k);
    } else {
      k' := AnyWordKept(s, i, t, k);
    }
  }

  lemma AnyWordKept(s: bytes, i: nat, t: bytes, k: nat) returns (k': nat)
    requires i <= |s| && Rest(s, i, t, k) && AllStraight(s) && ParseValue(s, i).Ok?
    requires At(s, i) == 110 || At(s, i) == 102 || At(s, i) == 116
    ensures k' <= |t| && ParseValue(t, k) == Ok(ParseValue(s, i).value, k')
    ensures Rest(s, ParseValue(s, i).end, t, k')
  {
    OnlyWord(s, i);
    var w := if At(s, i) == 110 then NULL_TEXT else if At(s, i) == 102 then FALSE_TEXT else TRUE_TEXT;
    WordKept(s, i, t, k, w);
    FirstByte(t, k, w);
    OnlyWord(t, k);
    k' := k + |w|;
  }

  lemma {:induction false} ArrayKept(s: bytes, i: nat, t: bytes, k: nat) returns (k': nat)
    requires i <= |s| && Rest(s, i, t, k) && AllStraight(s) && ParseValue(s, i).Ok? && At(s, i) == OPEN_BRACKET
    ensures k' <= |t| && ParseValue(t, k) == Ok(ParseValue(s, i).value, k')
    ensures Rest(s, ParseValue(s, i).end, t, k')
    decreases |s| - i, 0
  {
    hide Min, Has, ParseItems, ParseMembers, ParseNumber, ParseString;
    MarkKept(s, i, t, k);
    OnlyWord(s, i);
    OnlyWord(t, k);
    var j, l := Skip(s, i + 1), Skip(t, k + 1);
    if At(s, j) == CLOSE_BRACKET {
      SkipKept(s, i + 1, t, k + 1);
      MarkKept(s, j, t, l);
      k' := l + 1;
    } else {
      ItemsStart(s, j);
      SkipKept(s, i + 1, t, k + 1);
      k' := ItemsKept(s, j, t, l);
    }
  }

  lemma ItemsStart(s: bytes, i: nat)
    requires i <= |s| && ParseItems(s, i).Ok?
    ensures ParseValue(s, Skip(s, i)).Ok? && Starts(At(s, Skip(s, i)))
    ensures var j := Skip(s, ParseValue(s, Skip(s, i)).end);
            At(s, j) == CLOSE_BRACKET || (At(s, j) == COMMA && ParseItems(s, j + 1).Ok?)
    ensures At(s, i) != 0 && At(s, i) > 32 ==> Skip(s, i) == i
  {
    ValueStart(s, Skip(s, i));
  }

  lemma {:induction false} ItemsKept(s: bytes, i: nat, t: bytes, k: nat) returns (k': nat)
    requires i <= |s| && Rest(s, i, t, k) && AllStraight(s) && ParseItems(s, i).Ok?
    ensures k' <= |t| && ParseItems(t, k) == Ok(ParseItems(s, i).value, k')
    ensures Rest(s, ParseItems(s, i).end, t, k')
    decreases |s| - i, 2
  {
    hide Min, ParseValue, Has, Skip, Rest;
    ItemsStart(s, i);
    SkipKept(s, i, t, k);
    var e := ParseValue(s, Skip(s, i)).end;
    var l := ValueKept(s, Skip(s, i), t, Skip(t, k));
    SkipKept(s, e, t, l);
    MarkKept(s, Skip(s, e), t, Skip(t, l));
    if At(s, Skip(s, e)) == COMMA {
      k' := ItemsKept(s, Skip(s, e) + 1, t, Skip(t, l) + 1);
    } else {
      k' := Skip(t, l) + 1;
    }
  }

  lemma {:induction false} ObjectKept(s: bytes, i: nat, t: bytes, k: nat) returns (k': nat)
    requires i <= |s| && Rest(s, i, t, k) && AllStraight(s) && ParseValue(s, i).Ok? && At(s, i) == OPEN_BRACE
    ensures k' <= |t| && ParseValue(t, k) == Ok(ParseValue(s, i).value, k')
    ensures Rest(s, ParseValue(s, i).end, t, k')
    decreases |s| - i, 0
  {
    hide Min, Has, ParseItems, ParseMembers, ParseNumber, ParseString;
    MarkKept(s, i, t, k);
    OnlyWord(s, i);
    OnlyWord(t, k);
    var j, l := Skip(s, i + 1), Skip(t, k + 1);
    if At(s, j) == CLOSE_BRACE {
      SkipKept(s, i + 1, t, k + 1);
      MarkKept(s, j, t, l);
      k' := l + 1;
    } else {
      SkipNothing(s, j);
      MembersStart(s, j);
      MemberStarts(s, j);
      SkipKept(s, i + 1, t, k + 1);
      k' := MembersKept(s, j, t, l);
    }
  }

  lemma MemberStarts(s: bytes, i: nat)
    requires i <= |s| && ParseMember(s, i).Ok?
    ensures ParseString(s, Skip(s, i)).Ok? && At(s, Skip(s, i)) == QUOTE
    ensures var j := Skip(s, ParseString(s, Skip(s, i)).end);
            At(s, j) == COLON && j < |s| && ParseValue(s, Skip(s, j + 1)).Ok? && Starts(At(s, Skip(s, j + 1)))
  {
    ValueStart(s, Skip(s, Skip(s, ParseString(s, Skip(s, i)).end) + 1));
  }

  lemma {:induction false} MemberKept(s: bytes, i: nat, t: bytes, k: nat) returns (k': nat)
    requires i <= |s| && Rest(s, i, t, k) && AllStraight(s) && ParseMember(s, i).Ok?
    requires Delimiter(At(s, Skip(s, ParseMember(s, i).end)))
    ensures k' <= |t| && ParseMember(t, k) == Ok(ParseMember(s, i).value, k')
    ensures Rest(s, ParseMember(s, i).end, t, k')
    decreases |s| - i, 2
  {
    hide Min, ParseValue, ParseString, Has;
    MemberStarts(s, i);
    SkipKept(s, i, t, k);
    var e := ParseString(s, Skip(s, i)).end;
    var l := StringKept(s, Skip(s, i), t, Skip(t, k));
    SkipKept(s, e, t, l);
    var j, m := Skip(s, e), Skip(t, l);
    MarkKept(s, j, t, m);
    SkipKept(s, j + 1, t, m + 1);
    k' := ValueKept(s, Skip(s, j + 1), t, Skip(t, m + 1));
  }

  lemma MembersStart(s: bytes, i: nat)
    requires i <= |s| && ParseMembers(s, i).Ok?
    ensures ParseMember(s, i).Ok?
    ensures var j := Skip(s, ParseMember(s, i).end);
            At(s, j) == CLOSE_BRACE || (At(s, j) == COMMA && ParseMembers(s, j + 1).Ok?)
  {
  }

  lemma {:induction false} MembersKept(s: bytes, i: nat, t: bytes, k: nat) returns (k': nat)
    requires i <= |s| && Rest(s, i, t, k) && AllStraight(s) && ParseMembers(s, i).Ok?
    ensures k' <= |t| && ParseMembers(t, k) == Ok(ParseMembers(s, i).value, k')
    ensures Rest(s, ParseMembers(s, i).end, t, k')
    decreases |s| - i, 3
  {
    hide Min, ParseMember, Has, Skip, Rest;
    MembersStart(s, i);
    var e := ParseMember(s, i).end;
    var l := MemberKept(s, i, t, k);
    SkipKept(s, e, t, l);
    MarkKept(s, Skip(s, e), t, Skip(t, l));
    if At(s, Skip(s, e)) == COMMA {
      k' := MembersKept(s, Skip(s, e) + 1, t, Skip(t, l) + 1);
    } else {
      k' := Skip(t, l) + 1;
    }
  }

  /** An accepted text that is minified without running past its end keeps its value, and the
      minified text is accepted to its end. */
  lemma AcceptedKept(s: bytes, v: Value, e: nat, t: bytes)
    requires ParseText(s, true) == Ok(v, e) && Min(s, 0) == Text(t) && AllStraight(s)
    ensures ParseText(t, true) == Ok(v, |t|)
  {
    hide Min, ParseValue;
    assert t[0..] == t;
    ValueStart(s, Skip(s, 0));
    SkipKept(s, 0, t, 0);
    var end := ParseValue(s, Skip(s, 0)).end;
    var k := ValueKept(s, Skip(s, 0), t, Skip(t, 0));
    SkipKept(s, end, t, k);
    NothingLeft(s, e, t, Skip(t, k));
  }

  lemma NothingLeft(s: bytes, i: nat, t: bytes, k: nat)
    requires Rest(s, i, t, k) && At(s, i) == 0
    ensures k == |t|
  {
    assert |t[k..]| == 0;
  }
}
