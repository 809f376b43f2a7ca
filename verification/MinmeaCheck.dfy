/** The checksum of NMEA 0183 sentences: minmea_checksum and minmea_check. */
module MinmeaCheck {
  import opened Bits
  import opened CText

  const MAX_LENGTH: nat := 80
  const DOLLAR: byte := 36

  /** strlen of what starts at s[i]. */
  function StrLen(s: bytes, i: nat): nat
    decreases if i < |s| then |s| - i else 0
  {
    if At(s, i) == 0 then 0 else 1 + StrLen(s, i + 1)
  }

  predicate Printing(c: byte) {
    32 <= c <= 126
  }

  function HexChar(v: nat): (c: byte)
    requires v < 16
    ensures HexValue(c) == v && Printing(c) && c != STAR
  {
    if v < 10 then ZERO + v else 55 + v
  }

  // ---------------------------------------------------------------- the checksum

  function XorByte(a: byte, b: byte): (r: byte) {
    assert Pow2(8) == 256;
    Bounded(XorOp, a, b, 8);
    Xor(a, b)
  }

  /** The exclusive or of all bytes. */
  function XorAll(acc: byte, w: bytes): byte
    decreases w
  {
    if w == [] then acc else XorAll(XorByte(acc, w[0]), w[1..])
  }

  /** Where a body that starts at i ends: at the first '*', NUL or non-printing byte. */
  function BodyEnd(s: bytes, i: nat): (e: nat)
    ensures i <= e && (i <= |s| ==> e <= |s|)
    ensures forall k :: i <= k < e ==> Printing(At(s, k)) && At(s, k) != STAR
    ensures At(s, e) == STAR || !Printing(At(s, e))
    decreases if i < |s| then |s| - i else 0
  {
    if At(s, i) != 0 && At(s, i) != STAR && Printing(At(s, i)) then BodyEnd(s, i + 1) else i
  }

  /** Nothing but a newline stands at i. */
  predicate AtNewline(s: bytes, i: nat) {
    At(s, i) == 0 || (At(s, i) == NEWLINE && At(s, i + 1) == 0)
    || (At(s, i) == RETURN && At(s, i + 1) == NEWLINE && At(s, i + 2) == 0)
  }

  /** The two digits at i are those of v. */
  predicate HexAt(s: bytes, i: nat, v: nat) {
    HexValue(At(s, i)) >= 0 && HexValue(At(s, i + 1)) >= 0 && 16 * HexValue(At(s, i)) + HexValue(At(s, i + 1)) == v
  }

  /** Which sentences are accepted: '$', printing bytes, and a checksum or in lenient mode perhaps
      none, and perhaps a newline. */
  predicate Accepted(s: bytes, strict: bool) {
    && StrLen(s, 0) <= MAX_LENGTH + 3
    && At(s, 0) == DOLLAR
    && var e := BodyEnd(s, 1);
       if At(s, e) == STAR then HexAt(s, e + 1, XorAll(0, s[1..e])) && AtNewline(s, e + 3)
       else !strict && AtNewline(s, e)
  }

  lemma {:induction false} XorSnoc(acc: byte, w: bytes, c: byte)
    ensures XorAll(acc, w + [c]) == XorByte(XorAll(acc, w), c)
    decreases w
  {
    if w == [] {
      assert [c][1..] == [];
    } else {
      assert (w + [c])[1..] == w[1..] + [c];
      XorSnoc(XorByte(acc, w[0]), w[1..], c);
    }
  }

  /** minmea_checksum */
  method Checksum(sentence: bytes) returns (checksum: byte)
    ensures var i := if At(sentence, 0) == DOLLAR then 1 else 0;
            checksum == XorAll(0, sentence[i..ChecksumEnd(sentence, i)])
  {
    var start := if Read(sentence, 0) == DOLLAR then 1 else 0;
    var i := start;
    checksum := 0;
    assert sentence[i..i] == [];
    while Read(sentence, i) != 0 && Read(sentence, i) != STAR
      invariant start <= i <= |sentence| && ChecksumEnd(sentence, i) == ChecksumEnd(sentence, start)
      invariant checksum == XorAll(0, sentence[start..i])
      decreases |sentence| - i
    {
      XorSnoc(0, sentence[start..i], sentence[i]);
      assert sentence[start..i + 1] == sentence[start..i] + [sentence[i]];
      checksum, i := XorByte(checksum, sentence[i]), i + 1;
    }
  }

  /** Where the bytes minmea_checksum takes in end. */
  function ChecksumEnd(s: bytes, i: nat): (e: nat)
    ensures i <= e && (i <= |s| ==> e <= |s|)
    decreases if i < |s| then |s| - i else 0
  {
    if At(s, i) != 0 && At(s, i) != STAR then ChecksumEnd(s, i + 1) else i
  }

  /** The loop of minmea_check. */
  method BodyChecksum(sentence: bytes) returns (checksum: byte, i: nat)
    requires |sentence| > 0
    ensures i == BodyEnd(sentence, 1) <= |sentence| && checksum == XorAll(0, sentence[1..i])
  {
    i := 1;
    checksum := 0;
    assert sentence[1..1] == [];
    while Read(sentence, i) != 0 && Read(sentence, i) != STAR && Printing(Read(sentence, i))
      invariant 1 <= i <= |sentence| && BodyEnd(sentence, i) == BodyEnd(sentence, 1)
      invariant checksum == XorAll(0, sentence[1..i])
      decreases |sentence| - i
    {
      XorSnoc(0, sentence[1..i], sentence[i]);
      assert sentence[1..i + 1] == sentence[1..i] + [sentence[i]];
      checksum, i := XorByte(checksum, sentence[i]), i + 1;
    }
  }

  /** minmea_check */
  method Check(sentence: bytes, strict: bool) returns (ok: bool)
    ensures ok == Accepted(sentence, strict)
  {
    hide XorAll, XorByte, AtNewline, StrLen, Or, Shl;
    if StrLen(sentence, 0) > MAX_LENGTH + 3 {
      return false;
    }
    if Read(sentence, 0) != DOLLAR {
      return false;
    }
    var checksum, i := BodyChecksum(sentence);
    if Read(sentence, i) == STAR {
      i := i + 1;
      var upper := HexValue(Read(sentence, i));
      i := i + 1;
      if upper == -1 {
        return false;
      }
      var lower := HexValue(Read(sentence, i));
      i := i + 1;
      if lower == -1 {
        return false;
      }
      var expected := Or(Shl(upper, 4), lower);
      Nibbles(upper, lower);
      if checksum != expected {
        return false;
      }
    } else if strict {
      return false;
    }
    ok := AtNewline(sentence, i);
  }

  lemma Nibbles(upper: nat, lower: nat)
    requires upper < 16 && lower < 16
    ensures Or(Shl(upper, 4), lower) == 16 * upper + lower
  {
    assert Pow2(4) == 16;
    ShlIs(upper, 4);
    OrDisjoint(upper, lower, 4);
  }

  // ---------------------------------------------------------------- appending the checksum

  predicate Body(w: bytes) {
    forall k :: 0 <= k < |w| ==> Printing(w[k]) && w[k] != STAR
  }

  lemma {:induction false} BodyEndOf(s: bytes, i: nat, e: nat)
    requires i <= e <= |s| && Body(s[i..e])
    requires At(s, e) == STAR || !Printing(At(s, e))
    ensures BodyEnd(s, i) == e
    decreases e - i
  {
    if i < e {
      assert s[i..e][0] == s[i] && s[i + 1..e] == s[i..e][1..];
      BodyEndOf(s, i + 1, e);
    }
  }

  lemma {:induction false} ChecksumEndOf(s: bytes, i: nat, e: nat)
    requires i <= e <= |s| && Body(s[i..e]) && (At(s, e) == STAR || At(s, e) == 0)
    ensures ChecksumEnd(s, i) == e
    decreases e - i
  {
    if i < e {
      assert s[i..e][0] == s[i] && s[i + 1..e] == s[i..e][1..];
      ChecksumEndOf(s, i + 1, e);
    }
  }

  lemma {:induction false} StrLenOf(s: bytes, i: nat)
    requires i <= |s| && NulFree(s)
    ensures StrLen(s, i) == |s| - i
    decreases |s| - i
  {
    if i < |s| {
      StrLenOf(s, i + 1);
    }
  }

  /** '*' and the two digits of the checksum c. */
  function Suffix(c: byte): bytes {
    [STAR, HexChar(c / 16), HexChar(c % 16)]
  }

  /** Appending the checksum of a '$'-led sentence makes it pass the strict check, also with a
      newline behind it. */
  method AppendChecksum(body: bytes, newline: bytes) returns (sentence: bytes)
    requires Body(body) && (newline == [] || newline == [NEWLINE] || newline == [RETURN, NEWLINE])
    requires 1 + |body| + 3 + |newline| <= MAX_LENGTH + 3
    ensures sentence == [DOLLAR] + body + Suffix(XorAll(0, body)) + newline && Accepted(sentence, true)
  {
    var led := [DOLLAR] + body;
    var c := Checksum(led);
    assert led[1..] == body && led[1..1 + |body|] == body;
    ChecksumEndOf(led, 1, 1 + |body|);
    sentence := led + Suffix(c) + newline;
    Appended(body, c, newline);
  }

  lemma NulFreeParts(body: bytes, c: byte, newline: bytes)
    requires Body(body) && NulFree(newline)
    ensures NulFree([DOLLAR] + body + Suffix(c) + newline)
  {
  }

  lemma SentenceParts(body: bytes, c: byte, newline: bytes)
    ensures var s := [DOLLAR] + body + Suffix(c) + newline;
            var e := 1 + |body|;
            && |s| == e + 3 + |newline| && s[0] == DOLLAR && s[1..e] == body
            && s[e] == STAR && s[e + 1] == HexChar(c / 16) && s[e + 2] == HexChar(c % 16) && s[e + 3..] == newline
  {
    hide HexChar;
  }

  lemma EndsWith(s: bytes, i: nat, newline: bytes)
    requires i <= |s| && s[i..] == newline
    requires newline == [] || newline == [NEWLINE] || newline == [RETURN, NEWLINE]
    ensures AtNewline(s, i)
  {
    assert forall k :: 0 <= k < |newline| ==> s[i + k] == s[i..][k];
  }

  /** A checksum is accepted exactly when it is that of the body. */
  lemma Appended(body: bytes, c: byte, newline: bytes)
    requires Body(body) && (newline == [] || newline == [NEWLINE] || newline == [RETURN, NEWLINE])
    requires 1 + |body| + 3 + |newline| <= MAX_LENGTH + 3
    ensures Accepted([DOLLAR] + body + Suffix(c) + newline, true) <==> c == XorAll(0, body)
  {
    var s := [DOLLAR] + body + Suffix(c) + newline;
    var e := 1 + |body|;
    SentenceParts(body, c, newline);
    NulFreeParts(body, c, newline);
    hide XorAll, BodyEnd, StrLen, AtNewline, Body, Suffix, HexChar, HexValue, NulFree;
    BodyEndOf(s, 1, e);
    StrLenOf(s, 0);
    EndsWith(s, e + 3, newline);
  }

  // ---------------------------------------------------------------- corrupting a sentence

  lemma {:induction false} XorDiffers(acc: byte, acc': byte, w: bytes)
    requires acc != acc'
    ensures XorAll(acc, w) != XorAll(acc', w)
    decreases w
  {
    if w != [] {
      if XorByte(acc, w[0]) == XorByte(acc', w[0]) {
        XorInjective(acc, acc', w[0]);
      }
      XorDiffers(XorByte(acc, w[0]), XorByte(acc', w[0]), w[1..]);
    }
  }

  /** Changing one byte changes the exclusive or. */
  lemma {:induction false} XorChanged(acc: byte, w: bytes, i: nat, c: byte)
    requires i < |w| && c != w[i]
    ensures XorAll(acc, w[i := c]) != XorAll(acc, w)
    decreases w
  {
    if i == 0 {
      if XorByte(acc, w[0]) == XorByte(acc, c) {
        XorInjective(w[0], c, acc);
      }
      assert w[0 := c][1..] == w[1..];
      XorDiffers(XorByte(acc, w[0]), XorByte(acc, c), w[1..]);
    } else {
      assert w[i := c][1..] == w[1..][i - 1 := c];
      XorChanged(XorByte(acc, w[0]), w[1..], i - 1, c);
    }
  }

  lemma BodySlice(s: bytes, e: nat)
    requires 1 <= e <= BodyEnd(s, 1) && e <= |s|
    ensures Body(s[1..e])
  {
    forall k | 0 <= k < e - 1 ensures Printing(s[1..e][k]) && s[1..e][k] != STAR {
      assert s[1..e][k] == At(s, k + 1);
    }
  }

  /** Up to its last checksum digit, a sentence consists of printing bytes. */
  lemma SuffixPrints(s: bytes, e: nat, q: nat)
    requires e == BodyEnd(s, 1) && At(s, e) == STAR && 1 <= q <= e + 2
    requires HexValue(At(s, e + 1)) >= 0 && HexValue(At(s, e + 2)) >= 0
    ensures Printing(At(s, q))
  {
  }

  /** Changing any one body byte of a strictly accepted sentence to any other byte - printing or not,
      '*', NUL - makes the strict check fail. */
  lemma CorruptionFails(s: bytes, i: nat, c: byte)
    requires Accepted(s, true) && 1 <= i < BodyEnd(s, 1) && c != s[i]
    ensures !Accepted(s[i := c], true)
  {
    hide XorAll, BodyEnd, StrLen;
    var e := BodyEnd(s, 1);
    var t := s[i := c];
    assert forall k :: 0 <= k && k != i ==> At(t, k) == At(s, k);
    BodySlice(s, i);
    BodySlice(s, e);
    assert t[1..i] == s[1..i];
    if Printing(c) && c != STAR {
      assert t[1..e] == s[1..e][i - 1 := c];
      BodyEndOf(t, 1, e);
      XorChanged(0, s[1..e], i - 1, c);
    } else {
      BodyEndOf(t, 1, i);
      SuffixPrints(s, e, i + 3);
    }
  }

  // ---------------------------------------------------------------- every sentence

  /** The sentence is a dollar sign, a body of printing bytes without a star, a tail and perhaps a line
      end. The tail is a star and two hexadecimal digits of the checksum of the body; in lenient mode it
      may be missing. */
  predicate IsSentence(s: bytes, body: bytes, tail: bytes, newline: bytes, strict: bool) {
    && s == [36] + body + tail + newline
    && (forall k :: 0 <= k < |body| ==> 32 <= body[k] <= 126 && body[k] != 42)
    && (newline == [] || newline == [10] || newline == [13, 10])
    && if tail == [] then !strict
       else |tail| == 3 && tail[0] == 42 && HexValue(tail[1]) >= 0 && HexValue(tail[2]) >= 0
            && 16 * HexValue(tail[1]) + HexValue(tail[2]) == XorAll(0, body)
  }

  /** minmea_check accepts the sentences of at most 83 bytes, and no other text. */
  lemma AcceptedExactly(s: bytes, strict: bool)
    requires NulFree(s)
    ensures Accepted(s, strict) <==>
            |s| <= 83 && exists body: bytes, tail: bytes, newline: bytes :: IsSentence(s, body, tail, newline, strict)
  {
    StrLenOf(s, 0);
    if Accepted(s, strict) {
      SentenceOf(s, strict);
    }
    if |s| <= 83 {
      forall body: bytes, tail: bytes, newline: bytes | IsSentence(s, body, tail, newline, strict)
        ensures Accepted(s, strict)
      {
        SentenceAccepted(s, body, tail, newline, strict);
      }
    }
  }

  lemma SentenceOf(s: bytes, strict: bool)
    requires NulFree(s) && Accepted(s, strict)
    ensures exists body: bytes, tail: bytes, newline: bytes :: IsSentence(s, body, tail, newline, strict)
  {
    hide XorAll;
    var e := BodyEnd(s, 1);
    var body := s[1..e];
    assert forall k :: 0 <= k < |body| ==> body[k] == At(s, k + 1);
    var f := if At(s, e) == STAR then e + 3 else e;
    var tail, newline := s[e..f], s[f..];
    NewlineIs(s, f);
    assert s == [36] + body + tail + newline;
    assert IsSentence(s, body, tail, newline, strict);
  }

  lemma NewlineIs(s: bytes, f: nat)
    requires NulFree(s) && f <= |s| && AtNewline(s, f)
    ensures s[f..] == [] || s[f..] == [10] || s[f..] == [13, 10]
  {
  }

  lemma SentenceAccepted(s: bytes, body: bytes, tail: bytes, newline: bytes, strict: bool)
    requires NulFree(s) && |s| <= 83 && IsSentence(s, body, tail, newline, strict)
    ensures Accepted(s, strict)
  {
    hide XorAll, StrLen, BodyEnd;
    StrLenOf(s, 0);
    var e := 1 + |body|;
    var f := e + |tail|;
    assert s[1..e] == body && s[e..f] == tail && s[f..] == newline;
    EndsWith(s, f, newline);
    if tail == [] {
      assert e == |s| || At(s, e) == newline[0];
    } else {
      assert At(s, e) == tail[0] && At(s, e + 1) == tail[1] && At(s, e + 2) == tail[2];
    }
    BodyEndOf(s, 1, e);
  }

  // ---------------------------------------------------------------- what the checksum is

  /** How many bytes of w have bit b set. */
  function Ones(w: bytes, b: nat): nat {
    if w == [] then 0 else Ones(w[..|w| - 1], b) + BitAt(w[|w| - 1], b)
  }

  /** A bit of the checksum is set if and only if an odd number of bytes have it set. */
  lemma {:induction false} ChecksumParity(w: bytes, b: nat)
    ensures BitAt(XorAll(0, w), b) == Ones(w, b) % 2
    decreases |w|
  {
    hide XorAll;
    if w == [] {
      NoBytes(b);
    } else {
      var u, c := w[..|w| - 1], w[|w| - 1];
      assert w == u + [c];
      XorSnoc(0, u, c);
      ChecksumParity(u, b);
      BitOf(XorOp, XorAll(0, u), c, b);
    }
  }

  lemma NoBytes(b: nat)
    ensures XorAll(0, []) == 0 && BitAt(0, b) == 0
  {
    ZeroBits(0, 0, b);
  }
}
