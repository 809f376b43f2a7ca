/** On which texts parse_string, and with it the parser, leaves the text or the block that it fills, and
    on which an exponent overflows. */
module JsonBroken {
  import opened CText
  import opened StringCodec
  import opened Json

  // ---------------------------------------------------------------- literals

  /** Read from i on, the second loop meets the end of the text behind a backslash or among the four
      characters behind a \u. */
  predicate Leaves(s: bytes, i: nat)
    decreases if i < |s| then |s| - i else 0
  {
    if At(s, i) == QUOTE || At(s, i) == 0 then false
    else if At(s, i) != BACKSLASH then Leaves(s, i + 1)
    else if At(s, i + 1) != 117 then At(s, i + 1) == 0 || Leaves(s, i + 2)
    else !Inside4(s, i + 2) || Leaves(s, i + 6)
  }

  /** The second loop reads behind the end of the text exactly there, whatever the escapes mean. */
  lemma {:induction false} DecodeLeaves(s: bytes, i: nat)
    ensures Decode(s, i) == Broken <==> Leaves(s, i)
    decreases if i < |s| then |s| - i else 0
  {
    hide Hex4, Transcode, CombineSurrogates;
    var c := At(s, i);
    if c == QUOTE || c == 0 {
    } else if c != BACKSLASH {
      DecodeLeaves(s, i + 1);
    } else if At(s, i + 1) != 117 {
      DecodeLeaves(s, i + 2);
    } else if Inside4(s, i + 2) {
      DecodeLeaves(s, i + 6);
      if At(s, i + 6) == BACKSLASH && At(s, i + 7) == 117 && Inside4(s, i + 8) {
        DecodeLeaves(s, i + 12);
      }
    }
  }

  /** How many bytes the second loop writes. */
  function Written(s: bytes, i: nat): nat
    decreases if i < |s| then |s| - i else 0
  {
    if At(s, i) == QUOTE || At(s, i) == 0 then 0
    else if At(s, i) != BACKSLASH then 1 + Written(s, i + 1)
    else if At(s, i + 1) != 117 then 1 + Written(s, i + 2)
    else
      var u := Hex4(s, i + 2);
      if HighSurrogate(u) && At(s, i + 6) == BACKSLASH && At(s, i + 7) == 117 then
        (if LowSurrogate(Hex4(s, i + 8)) then 4 else 0) + Written(s, i + 12)
      else
        (if u == 0 || HighSurrogate(u) || LowSurrogate(u) then 0 else EncodedLength(u)) + Written(s, i + 6)
  }

  lemma {:induction false} DecodeWritten(s: bytes, i: nat, v: bytes, e: nat)
    requires Decode(s, i) == Ok(v, e)
    ensures |v| == Written(s, i)
    decreases if i < |s| then |s| - i else 0
  {
    hide Hex4, CombineSurrogates;
    var c := At(s, i);
    if c == QUOTE || c == 0 {
    } else if c != BACKSLASH {
      DecodeWritten(s, i + 1, v[1..], e);
    } else if At(s, i + 1) != 117 {
      DecodeWritten(s, i + 2, v[1..], e);
    } else {
      EscapeWritten(s, i, v, e);
    }
  }

  lemma {:induction false} EscapeWritten(s: bytes, i: nat, v: bytes, e: nat)
    requires Decode(s, i) == Ok(v, e) && At(s, i) == BACKSLASH && At(s, i + 1) == 117
    ensures |v| == Written(s, i)
    decreases if i < |s| then |s| - i else 0, 0
  {
    hide Hex4, Transcode;
    var u := Hex4(s, i + 2);
    var n := if HighSurrogate(u) && At(s, i + 6) == BACKSLASH && At(s, i + 7) == 117 then 12 else 6;
    match Decode(s, i + n)
    case Ok(rest, _) => DecodeWritten(s, i + n, rest, e);
    case _ =>
  }

  /** parse_string leaves its text or its block if and only if the first loop steps over the end of
      the text, or the second one meets it within an escape, or the second one writes more than the
      first has counted; any of these can be only where an escape is cut short. */
  lemma LiteralBroken(s: bytes, i: nat)
    requires At(s, i) == QUOTE
    ensures ParseString(s, i) == Broken <==>
            FirstLeaves(s, i + 1) || Leaves(s, i + 1) || Written(s, i + 1) > Count(s, i + 1)
    ensures ParseString(s, i) == Broken ==> Cuts(s, i + 1)
  {
    if !Cuts(s, i + 1) {
      WholeString(s, i);
    }
    DecodeLeaves(s, i + 1);
    match Decode(s, i + 1)
    case Ok(v, e) => DecodeWritten(s, i + 1, v, e);
    case _ =>
  }

  // ---------------------------------------------------------------- texts

  predicate CutAt(s: bytes, q: nat) {
    At(s, q) == QUOTE && Cuts(s, q + 1)
  }

  /** No quotation mark of the text starts a literal that cuts an escape short. */
  predicate NoneCut(s: bytes) {
    forall q :: 0 <= q < |s| ==> !CutAt(s, q)
  }

  /** No exponent in the text is larger than an int. */
  predicate NoneLarge(s: bytes) {
    forall q :: 0 <= q < |s| ==> !LargeAt(s, q)
  }

  predicate LargeAt(s: bytes, q: nat)
    requires q <= |s|
  {
    ExponentMark(At(s, q)) && var f := ExponentStart(s, q); RunValue(0, s, f, RunEnd(s, f)) > INT_MAX
  }

  lemma NotLarge(s: bytes, i: nat)
    requires i <= |s| && NoneLarge(s)
    ensures ExponentFits(s, i)
  {
    hide RunValue, RunEnd;
    var d := FractionEnd(s, IntegerEnd(s, i));
    if ExponentMark(At(s, d)) {
      assert !LargeAt(s, d);
    }
  }

  lemma NotCut(s: bytes, i: nat)
    requires NoneCut(s)
    ensures ParseString(s, i) != Broken
    ensures At(s, i) == QUOTE ==> !Cuts(s, i + 1) && ParseString(s, i) == Decode(s, i + 1)
  {
    if At(s, i) == QUOTE {
      assert !CutAt(s, i);
      WholeString(s, i);
    }
  }

  lemma {:induction false} ValueWhole(s: bytes, i: nat)
    requires i <= |s| && NoneCut(s) && NoneLarge(s)
    ensures ParseValue(s, i) != Broken
    decreases |s| - i, 0
  {
    hide Has, Decode, Cuts, NoneCut, NoneLarge, ExponentFits;
    if At(s, i) == QUOTE {
      NotCut(s, i);
    } else if At(s, i) == MINUS || Digit(At(s, i)) {
      NotLarge(s, i);
    } else if At(s, i) == OPEN_BRACKET && At(s, Skip(s, i + 1)) != CLOSE_BRACKET {
      ItemsWhole(s, Skip(s, i + 1));
    } else if At(s, i) == OPEN_BRACE && At(s, Skip(s, i + 1)) != CLOSE_BRACE {
      MembersWhole(s, Skip(s, i + 1));
    }
  }

  lemma {:induction false} ItemsWhole(s: bytes, i: nat)
    requires i <= |s| && NoneCut(s) && NoneLarge(s)
    ensures ParseItems(s, i) != Broken
    decreases |s| - i, 1
  {
    hide Has, NoneCut, NoneLarge;
    ValueWhole(s, Skip(s, i));
    match ParseValue(s, Skip(s, i))
    case Ok(v, e) =>
      if At(s, Skip(s, e)) == COMMA {
        ItemsWhole(s, Skip(s, e) + 1);
      }
    case _ =>
  }

  lemma {:induction false} MemberWhole(s: bytes, i: nat)
    requires i <= |s| && NoneCut(s) && NoneLarge(s)
    ensures ParseMember(s, i) != Broken
    decreases |s| - i, 1
  {
    hide Has, Cuts, NoneCut, NoneLarge, ParseString;
    NotCut(s, Skip(s, i));
    match ParseString(s, Skip(s, i))
    case Ok(name, e) =>
      if At(s, Skip(s, e)) == COLON {
        ValueWhole(s, Skip(s, Skip(s, e) + 1));
      }
    case _ =>
  }

  lemma {:induction false} MembersWhole(s: bytes, i: nat)
    requires i <= |s| && NoneCut(s) && NoneLarge(s)
    ensures ParseMembers(s, i) != Broken
    decreases |s| - i, 2
  {
    hide Has, NoneCut, NoneLarge, ParseMember;
    MemberWhole(s, i);
    match ParseMember(s, i)
    case Ok(m, e) =>
      if At(s, Skip(s, e)) == COMMA {
        MembersWhole(s, Skip(s, e) + 1);
      }
    case _ =>
  }

  /** The parser is defined on every text none of whose quotation marks starts a literal that cuts an
      escape short, and none of whose exponents is larger than an int, whether it accepts the text or
      not. */
  lemma TextWhole(s: bytes, requireTerminated: bool)
    requires NoneCut(s) && NoneLarge(s)
    ensures ParseText(s, requireTerminated) != Broken
  {
    ValueWhole(s, Skip(s, 0));
  }

  // ---------------------------------------------------------------- witnesses

  /** "\u12 : the end of the text stands among the four characters. */
  lemma CutEscape()
    ensures ParseString([QUOTE, BACKSLASH, 117, 49, 50], 0) == Broken
  {
    var s: bytes := [QUOTE, BACKSLASH, 117, 49, 50];
    assert !Inside4(s, 3);
  }

  /** "\u123\ : the second loop takes the last backslash for a digit and stops at the end of the text,
      but the first one has stepped over it. */
  lemma FirstLoopLeaves()
    ensures var s := [QUOTE, BACKSLASH, 117, 49, 50, 51, BACKSLASH];
            ParseString(s, 0) == Broken && Decode(s, 1) == Ok([], 7)
  {
    var s: bytes := [QUOTE, BACKSLASH, 117, 49, 50, 51, BACKSLASH];
    assert FirstLeaves(s, 5) && FirstLeaves(s, 3) && FirstLeaves(s, 1);
    assert Inside4(s, 3) && Hex4(s, 3) == 0 && Decode(s, 7) == Ok([], 7);
  }

  /** "\u12"abcde" : a quotation mark and a letter are taken for digits, and four letters are written
      into the space of three characters. */
  lemma CutOverflows()
    ensures ParseString(Taken([98, 99, 100, 101]), 0) == Broken
  {
    var w: bytes := [98, 99, 100, 101];
    var s := Taken(w);
    TakenDecodes(w);
    assert Count(s, 5) == 0 && Count(s, 4) == 1 && Count(s, 3) == 2 && Count(s, 1) == 3;
  }

  /** "\u12"ab" : here they fit, and the literal is accepted as the text b. */
  lemma CutAccepted()
    ensures ParseText(Taken([98]), true) == Ok(String([98]), 9)
  {
    var w: bytes := [98];
    var s := Taken(w);
    TakenDecodes(w);
    assert Count(s, 5) == 0 && Count(s, 4) == 1 && Count(s, 3) == 2 && Count(s, 1) == 3;
    assert Skip(s, 0) == 0 && Skip(s, 9) == 9;
    assert s[0] == QUOTE && !Has(s, 0, NULL_TEXT) && !Has(s, 0, FALSE_TEXT) && !Has(s, 0, TRUE_TEXT);
  }

  /** The text "\u12"a followed by w and a quotation mark. */
  function Taken(w: bytes): bytes {
    [QUOTE, BACKSLASH, 117, 49, 50, QUOTE, 97] + (w + [QUOTE])
  }

  lemma TakenDecodes(w: bytes)
    requires forall k :: 0 <= k < |w| ==> w[k] != 0 && w[k] != QUOTE && w[k] != BACKSLASH
    ensures Decode(Taken(w), 1) == Ok(w, 8 + |w|)
  {
    var s := Taken(w);
    assert Hex4(s, 3) == 0 && Inside4(s, 3);
    assert s[7..] == w + [QUOTE];
    HasSlice(s, 7, w + [QUOTE]);
    PlainDecodes(s, 7, w);
  }

  lemma {:induction false} PlainDecodes(s: bytes, i: nat, w: bytes)
    requires Has(s, i, w + [QUOTE]) && forall k :: 0 <= k < |w| ==> w[k] != 0 && w[k] != QUOTE && w[k] != BACKSLASH
    ensures Decode(s, i) == Ok(w, i + |w| + 1)
    decreases w
  {
    HasAt(s, i, w + [QUOTE], 0);
    if w != [] {
      assert (w + [QUOTE])[1..] == w[1..] + [QUOTE] && [w[0]] + w[1..] == w;
      PlainDecodes(s, i + 1, w[1..]);
    }
  }
}
