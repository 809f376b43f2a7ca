/** cJSON_Minify on every text that the parser accepts: where it stays inside its buffer, and what it
    leaves there. */
module MinifyAccepted {
  import opened CText
  import opened StringCodec
  import opened Json
  import opened JsonBroken
  import opened JsonRoundTrip
  import opened Minify
  import opened MinifyMeaning
  import opened MinifyRoutine

  /** The text is a string literal without its closing quotation mark. */
  predicate OpenLiteral(s: bytes) {
    At(s, Skip(s, 0)) == QUOTE && LiteralEnd(s, Skip(s, 0) + 1).Unclosed?
  }

  /** Minifying from i on runs past the end of the text exactly if it does so from e on. */
  predicate SameFate(s: bytes, i: nat, e: nat) {
    Min(s, i).Text? <==> Min(s, e).Text?
  }

  // ---------------------------------------------------------------- values

  lemma StringFate(s: bytes, i: nat, v: bytes, e: nat)
    requires ParseString(s, i) == Ok(v, e) && At(s, e) != 0 && AllStraight(s)
    ensures SameFate(s, i, e)
  {
    StraightAt(s, i);
  }

  lemma {:induction false} SkipFate(s: bytes, i: nat)
    ensures SameFate(s, i, Skip(s, i))
    decreases if i < |s| then |s| - i else 0
  {
    if At(s, i) != 0 && At(s, i) <= 32 {
      SkipFate(s, i + 1);
    }
  }

  lemma MarkFate(s: bytes, i: nat)
    requires At(s, i) in {OPEN_BRACKET, CLOSE_BRACKET, OPEN_BRACE, CLOSE_BRACE, COMMA, COLON}
    ensures SameFate(s, i, i + 1)
  {
  }

  lemma WordFate(s: bytes, i: nat, w: bytes)
    requires Has(s, i, w) && PlainText(w)
    ensures SameFate(s, i, i + |w|)
  {
    hide Min;
    MinPlain(s, i, w);
  }

  /** A value, other than a literal that ends the text, is passed without running past the end. */
  lemma {:induction false} ValueFate(s: bytes, i: nat, v: Value, e: nat)
    requires i <= |s| && AllStraight(s) && ParseValue(s, i) == Ok(v, e)
    requires At(s, i) == QUOTE ==> LiteralEnd(s, i + 1).Closed?
    ensures SameFate(s, i, e)
    decreases |s| - i, 1
  {
    hide Min, Has;
    var c := At(s, i);
    OnlyWord(s, i);
    if c == QUOTE {
      LiteralFate(s, i, ParseString(s, i).value, e);
    } else if c == MINUS || Digit(c) {
      NumberStays(s, i);
    } else if c == OPEN_BRACKET {
      MarkFate(s, i);
      SkipFate(s, i + 1);
      ArrayFate(s, i, v, e);
    } else if c == OPEN_BRACE {
      MarkFate(s, i);
      SkipFate(s, i + 1);
      ObjectFate(s, i, v, e);
    } else {
      WordFate(s, i, if c == 110 then NULL_TEXT else if c == 102 then FALSE_TEXT else TRUE_TEXT);
    }
  }

  lemma LiteralFate(s: bytes, i: nat, v: bytes, e: nat)
    requires ParseString(s, i) == Ok(v, e) && LiteralEnd(s, i + 1).Closed? && AllStraight(s)
    ensures SameFate(s, i, e)
  {
    StraightAt(s, i);
  }

  lemma {:induction false} ArrayFate(s: bytes, i: nat, v: Value, e: nat)
    requires i < |s| && AllStraight(s) && ParseValue(s, i) == Ok(v, e) && At(s, i) == OPEN_BRACKET
    ensures SameFate(s, Skip(s, i + 1), e)
    decreases |s| - i, 0
  {
    hide Min;
    OnlyWord(s, i);
    var j := Skip(s, i + 1);
    if At(s, j) == CLOSE_BRACKET {
      MarkFate(s, j);
    } else {
      ItemsFate(s, j, ParseItems(s, j).value, e);
    }
  }

  lemma {:induction false} ItemsFate(s: bytes, i: nat, items: seq<Value>, e: nat)
    requires i <= |s| && AllStraight(s) && ParseItems(s, i) == Ok(items, e)
    ensures SameFate(s, i, e)
    decreases |s| - i, 2
  {
    hide Min, ParseValue, Has;
    ItemsStart(s, i);
    var p := Skip(s, i);
    var v, x := ParseValue(s, p).value, ParseValue(s, p).end;
    SkipFate(s, i);
    NotLast(s, p, v, x);
    ValueFate(s, p, v, x);
    SkipFate(s, x);
    MarkFate(s, Skip(s, x));
    if At(s, Skip(s, x)) == COMMA {
      ItemsFate(s, Skip(s, x) + 1, items[1..], e);
    }
  }

  /** A literal that something follows is closed. */
  lemma NotLast(s: bytes, i: nat, v: Value, e: nat)
    requires i <= |s| && AllStraight(s) && ParseValue(s, i) == Ok(v, e) && At(s, Skip(s, e)) != 0
    ensures At(s, i) == QUOTE ==> LiteralEnd(s, i + 1).Closed?
  {
    hide ParseValue, LiteralEnd, Decode;
    if At(s, i) == QUOTE {
      LiteralParsed(s, i, v, e);
      StraightAt(s, i);
    }
  }

  lemma LiteralParsed(s: bytes, i: nat, v: Value, e: nat)
    requires i <= |s| && ParseValue(s, i) == Ok(v, e) && At(s, i) == QUOTE
    ensures v.String? && ParseString(s, i) == Ok(v.text, e)
  {
    hide ParseString, Has, Skip, ParseNumber, ParseItems, ParseMembers;
    OnlyWord(s, i);
  }

  lemma {:induction false} ObjectFate(s: bytes, i: nat, v: Value, e: nat)
    requires i < |s| && AllStraight(s) && ParseValue(s, i) == Ok(v, e) && At(s, i) == OPEN_BRACE
    ensures SameFate(s, Skip(s, i + 1), e)
    decreases |s| - i, 0
  {
    hide Min;
    OnlyWord(s, i);
    var j := Skip(s, i + 1);
    if At(s, j) == CLOSE_BRACE {
      MarkFate(s, j);
    } else {
      MembersFate(s, j, ParseMembers(s, j).value, e);
    }
  }

  lemma {:induction false} MembersFate(s: bytes, i: nat, members: seq<Member>, e: nat)
    requires i <= |s| && AllStraight(s) && ParseMembers(s, i) == Ok(members, e)
    ensures SameFate(s, i, e)
    decreases |s| - i, 3
  {
    hide Min, ParseMember, Has;
    MembersStart(s, i);
    var x := ParseMember(s, i).end;
    MemberFate(s, i, ParseMember(s, i).value, x);
    SkipFate(s, x);
    MarkFate(s, Skip(s, x));
    if At(s, Skip(s, x)) == COMMA {
      MembersFate(s, Skip(s, x) + 1, members[1..], e);
    }
  }

  lemma {:induction false} MemberFate(s: bytes, i: nat, m: Member, e: nat)
    requires i <= |s| && AllStraight(s) && ParseMember(s, i) == Ok(m, e) && At(s, Skip(s, e)) != 0
    ensures SameFate(s, i, e)
    decreases |s| - i, 2
  {
    hide Min, ParseValue, ParseString, Has;
    MemberStarts(s, i);
    SkipFate(s, i);
    var x := ParseString(s, Skip(s, i)).end;
    SomethingBehind(s, x);
    StringFate(s, Skip(s, i), ParseString(s, Skip(s, i)).value, x);
    SkipFate(s, x);
    var j := Skip(s, x);
    MarkFate(s, j);
    SkipFate(s, j + 1);
    NotLast(s, Skip(s, j + 1), m.value, e);
    ValueFate(s, Skip(s, j + 1), m.value, e);
  }

  lemma SomethingBehind(s: bytes, i: nat)
    requires At(s, Skip(s, i)) != 0
    ensures At(s, i) != 0
  {
  }

  // ---------------------------------------------------------------- straight literals

  lemma EndAfter4(s: bytes, i: nat)
    requires Complete4(s, i)
    ensures LiteralEnd(s, i) == LiteralEnd(s, i + 4) && Cuts(s, i) == Cuts(s, i + 4) && Inside4(s, i)
  {
    CutsBehind(s, i);
    assert LiteralEnd(s, i) == LiteralEnd(s, i + 1);
    assert LiteralEnd(s, i + 1) == LiteralEnd(s, i + 2);
    assert LiteralEnd(s, i + 2) == LiteralEnd(s, i + 3);
  }

  /** The parser leaves a literal behind its closing quotation mark or, without one, at the end. */
  lemma {:induction false} DecodeEnds(s: bytes, i: nat, v: bytes, e: nat)
    requires Decode(s, i) == Ok(v, e) && !Cuts(s, i)
    ensures if LiteralEnd(s, i).Closed? then LiteralEnd(s, i) == Closed(e) else At(s, e) == 0
    decreases if i < |s| then |s| - i else 0
  {
    var c := At(s, i);
    if c == QUOTE || c == 0 {
    } else if c != BACKSLASH {
      DecodeEnds(s, i + 1, v[1..], e);
    } else if At(s, i + 1) != 117 {
      DecodeEnds(s, i + 2, v[1..], e);
    } else {
      EscapeEnds(s, i, v, e);
    }
  }

  lemma {:induction false} EscapeEnds(s: bytes, i: nat, v: bytes, e: nat)
    requires Decode(s, i) == Ok(v, e) && !Cuts(s, i) && At(s, i) == BACKSLASH && At(s, i + 1) == 117
    ensures if LiteralEnd(s, i).Closed? then LiteralEnd(s, i) == Closed(e) else At(s, e) == 0
    decreases if i < |s| then |s| - i else 0, 0
  {
    hide Hex4, Transcode, CombineSurrogates, HexValue;
    EndAfter4(s, i + 2);
    var uc := Hex4(s, i + 2);
    if HighSurrogate(uc) && At(s, i + 6) == BACKSLASH && At(s, i + 7) == 117 {
      EndAfter4(s, i + 8);
      DecodeEnds(s, i + 12, Decode(s, i + 12).value, e);
    } else {
      DecodeEnds(s, i + 6, Decode(s, i + 6).value, e);
    }
  }

  /** A text in which no literal cuts an escape short is of that kind. */
  lemma UncutStraight(s: bytes)
    requires NoneCut(s)
    ensures AllStraight(s)
  {
    forall q | 0 <= q < |s| ensures Straight(s, q) {
      NotCut(s, q);
      match ParseString(s, q)
      case Ok(v, e) => DecodeEnds(s, q + 1, v, e);
      case _ =>
    }
  }

  /** ["\u12"ab","\u12"ab"] : the parser and the scan for quotation marks disagree on where literals
      end, and still the minifier keeps every byte. */
  lemma StrayKept()
    ensures !AllStraight(STRAY) && Min(STRAY, 0) == Text(STRAY)
    ensures ParseText(STRAY, true) == Ok(Array([String([98]), String([98])]), |STRAY|)
  {
    StrayParsed();
    StrayMin();
    StrayEnds();
    StrayBytes();
    assert !Straight(STRAY, 1);
  }

  const STRAY: bytes :=
    [OPEN_BRACKET, QUOTE, BACKSLASH, 117, 49, 50, QUOTE, 97, 98, QUOTE, COMMA,
     QUOTE, BACKSLASH, 117, 49, 50, QUOTE, 97, 98, QUOTE, CLOSE_BRACKET]

  lemma StrayString(s: bytes, q: nat)
    requires q + 9 <= |s| && s[q] == QUOTE && s[q + 1] == BACKSLASH && s[q + 2] == 117 && s[q + 3] == 49
    requires s[q + 4] == 50 && s[q + 5] == QUOTE && s[q + 6] == 97 && s[q + 7] == 98 && s[q + 8] == QUOTE
    ensures ParseString(s, q) == Ok([98], q + 9)
  {
    assert Inside4(s, q + 3) && Hex4(s, q + 3) == 0;
    assert Decode(s, q + 8) == Ok([], q + 9) && [98] + [] == [98];
    assert Decode(s, q + 7) == Prepend([98], Decode(s, q + 8)) == Ok([98], q + 9);
    assert Decode(s, q + 1) == Decode(s, q + 7);
    assert Count(s, q + 5) == 0 && Count(s, q + 4) == 1 && Count(s, q + 3) == 2 && Count(s, q + 1) == 3;
    assert !FirstLeaves(s, q + 5) && !FirstLeaves(s, q + 4) && !FirstLeaves(s, q + 3) && !FirstLeaves(s, q + 1);
  }

  lemma StrayParsed()
    ensures ParseText(STRAY, true) == Ok(Array([String([98]), String([98])]), |STRAY|)
    ensures ParseString(STRAY, 1) == Ok([98], 10)
  {
    StrayBytes();
    hide ParseString, Has, STRAY;
    var s, v := STRAY, String([98]);
    StrayString(s, 1);
    StrayString(s, 11);
    OnlyWord(s, 1);
    OnlyWord(s, 11);
    OnlyWord(s, 0);
    assert ParseValue(s, 1) == Ok(v, 10) && ParseValue(s, 11) == Ok(v, 20);
    ItemsLast(s, 11, [v], 20);
    ItemsMore(s, 1, [v, v], 10, 21);
    ArrayOf(s, 0, [v, v], 21);
  }

  lemma StrayBytes()
    ensures var s := STRAY;
            && |s| == 21 && s[0] == OPEN_BRACKET && s[1] == QUOTE && s[2] == BACKSLASH && s[3] == 117
            && s[4] == 49 && s[5] == 50 && s[6] == QUOTE && s[7] == 97 && s[8] == 98 && s[9] == QUOTE
            && s[10] == COMMA && s[11] == QUOTE && s[12] == BACKSLASH && s[13] == 117 && s[14] == 49
            && s[15] == 50 && s[16] == QUOTE && s[17] == 97 && s[18] == 98 && s[19] == QUOTE
            && s[20] == CLOSE_BRACKET
  {
  }

  lemma StrayEnds()
    ensures var s := STRAY;
            && LiteralEnd(s, 2) == Closed(7) && LiteralEnd(s, 10) == Closed(12) && LiteralEnd(s, 17) == Closed(20)
  {
    StrayBytes();
    hide STRAY;
    var s := STRAY;
    assert LiteralEnd(s, 5) == Closed(7) && LiteralEnd(s, 4) == Closed(7);
    assert LiteralEnd(s, 11) == Closed(12) && LiteralEnd(s, 18) == Closed(20);
  }

  lemma StrayMin()
    ensures Min(STRAY, 0) == Text(STRAY)
  {
    StrayEnds();
    StrayBytes();
    hide STRAY;
    var s := STRAY;
    assert Min(s, 21) == Text(s[21..]);
    hide Min, LiteralEnd;
    KeptByte(s, 20);
    KeptLiteral(s, 16, 20);
    KeptByte(s, 15);
    KeptByte(s, 14);
    KeptByte(s, 13);
    KeptByte(s, 12);
    KeptLiteral(s, 9, 12);
    KeptByte(s, 8);
    KeptByte(s, 7);
    KeptLiteral(s, 1, 7);
    KeptByte(s, 0);
    assert s[0..] == s;
  }

  lemma KeptByte(s: bytes, i: nat)
    requires i < |s| && s[i] > 32 && s[i] != SLASH && s[i] != QUOTE && Min(s, i + 1) == Text(s[i + 1..])
    ensures Min(s, i) == Text(s[i..])
  {
    assert [s[i]] + s[i + 1..] == s[i..];
  }

  lemma KeptLiteral(s: bytes, i: nat, e: nat)
    requires i < |s| && s[i] == QUOTE && LiteralEnd(s, i + 1) == Closed(e) && Min(s, e) == Text(s[e..])
    ensures Min(s, i) == Text(s[i..])
  {
    assert s[i..e] + s[e..] == s[i..];
  }

  // ---------------------------------------------------------------- whole texts

  /** On a text that the parser accepts to its end, and all whose literals end for the parser where
      their quotation marks do, the minifier runs past the end exactly if that text is a literal
      without its closing quotation mark. */
  lemma MinifyStaysInside(s: bytes, v: Value, e: nat)
    requires ParseText(s, true) == Ok(v, e) && AllStraight(s)
    ensures Min(s, 0).Text? <==> !OpenLiteral(s)
  {
    var i := Skip(s, 0);
    SkipFate(s, 0);
    if !OpenLiteral(s) {
      var x := ParseValue(s, i).end;
      ValueFate(s, i, v, x);
      SkipFate(s, x);
    }
  }

  /** The parser accepts `"a`, and the minifier runs past its end. */
  lemma OpenLiteralOverruns()
    ensures ParseText([QUOTE, 97], true) == Ok(String([97]), 2) && Min([QUOTE, 97], 0) == Overrun
  {
    var s: bytes := [QUOTE, 97];
    assert At(s, 2) == 0 && Decode(s, 2) == Ok([], 2);
    var w: bytes := [97];
    assert w + [] == w && At(s, 1) == 97 && Decode(s, 1) == Prepend(w, Decode(s, 2)) == Ok(w, 2);
    OnlyWord(s, 0);
    assert Count(s, 1) == 1 && !FirstLeaves(s, 2) && !FirstLeaves(s, 1);
    assert ParseString(s, 0) == Ok([97], 2);
    assert ParseValue(s, 0) == Ok(String([97]), 2);
    assert Skip(s, 0) == 0 && Skip(s, 2) == 2;
    assert LiteralEnd(s, 2) == Unclosed && LiteralEnd(s, 1) == Unclosed;
  }

  /** The parser accepts "\u12"ab" as the text b, and the minifier runs past its end. */
  lemma CutLiteralOverruns()
    ensures ParseText(Taken([98]), true) == Ok(String([98]), 9) && Min(Taken([98]), 0) == Overrun
  {
    CutAccepted();
    var s := Taken([98]);
    assert LiteralEnd(s, 5) == Closed(6) && LiteralEnd(s, 4) == Closed(6) && LiteralEnd(s, 3) == Closed(6);
    assert LiteralEnd(s, 1) == Closed(6);
    assert LiteralEnd(s, 9) == Unclosed && Min(s, 8) == Overrun;
    assert Min(s, 7) == Cat([98], Min(s, 8)) && Min(s, 6) == Cat([97], Min(s, 7));
  }

  /** Every text that the parser accepts to its end, however it is laid out, all whose literals end for
      the parser where their quotation marks do, but for a literal without its closing quotation mark,
      is minified to a text that is accepted to its end with the same value. */
  lemma MinifyKeepsValue(s: bytes, v: Value, e: nat)
    requires ParseText(s, true) == Ok(v, e) && AllStraight(s) && !OpenLiteral(s)
    ensures Min(s, 0).Text? && ParseText(Min(s, 0).t, true) == Ok(v, |Min(s, 0).t|)
  {
    MinifyStaysInside(s, v, e);
    AcceptedKept(s, v, e, Min(s, 0).t);
  }

  /** cJSON_Minify on such a text: the buffer then holds an accepted text of the same value, and the
      length of that text is the result. */
  method MinifyAcceptedText(a: array<byte>, ghost n: nat, ghost v: Value) returns (ghost m: nat)
    requires n < a.Length && a[n] == 0 && NulFree(a[..n])
    requires ParseText(a[..n], true) == Ok(v, n) && AllStraight(a[..n]) && !OpenLiteral(a[..n])
    modifies a
    ensures m <= n && a[m] == 0 && ParseText(a[..m], true) == Ok(v, m)
    ensures forall x :: m < x < a.Length ==> a[x] == old(a[x])
  {
    MinifyKeepsValue(a[..n], v, n);
    m := |Min(a[..n], 0).t|;
    MinifyInPlace(a, n);
  }
}
