/** The JSON string codec of cJSON: parse_string, parse_hex4 and print_string_ptr. */
module StringCodec {
  import opened Bits
  import opened CText

  // ---------------------------------------------------------------- reading

  /** parse_hex4: four hexadecimal digits, or zero where one of the characters is not a digit. */
  function Hex4(s: bytes, i: nat): (h: nat)
    ensures h < 0x10000
  {
    var a, b, c, d := HexValue(At(s, i)), HexValue(At(s, i + 1)), HexValue(At(s, i + 2)), HexValue(At(s, i + 3));
    if a < 0 || b < 0 || c < 0 || d < 0 then 0 else ((a * 16 + b) * 16 + c) * 16 + d
  }

  /** The four characters after \u lie inside the text. */
  predicate Inside4(s: bytes, i: nat) {
    At(s, i) != 0 && At(s, i + 1) != 0 && At(s, i + 2) != 0 && At(s, i + 3) != 0
  }

  /** The four characters after \u lie inside the literal. */
  predicate Complete4(s: bytes, i: nat) {
    forall k :: i <= k < i + 4 ==> At(s, k) != 0 && At(s, k) != QUOTE && At(s, k) != BACKSLASH
  }

  predicate HighSurrogate(u: nat) { 0xD800 <= u <= 0xDBFF }

  predicate LowSurrogate(u: nat) { 0xDC00 <= u <= 0xDFFF }

  function CombineSurrogates(hi: nat, lo: nat): nat {
    0x10000 + Or(Shl(And(hi, 0x3FF), 10), And(lo, 0x3FF))
  }

  function FirstByteMark(len: nat): nat {
    if len == 2 then 0xC0 else if len == 3 then 0xE0 else if len == 4 then 0xF0 else 0
  }

  function Continuation(uc: nat): byte { And(Or(uc, 0x80), 0xBF) % 256 }

  function Leader(uc: nat, len: nat): byte { Or(uc, FirstByteMark(len)) % 256 }

  function EncodedLength(uc: nat): (len: nat)
    ensures 1 <= len <= 4
  {
    if uc < 0x80 then 1 else if uc < 0x800 then 2 else if uc < 0x10000 then 3 else 4
  }

  /** The bytes that the fall-through switch leaves, in the order of the text. */
  function Transcode(uc: nat): (w: bytes)
    ensures |w| == EncodedLength(uc)
  {
    match EncodedLength(uc)
    case 1 => [Leader(uc, 1)]
    case 2 => [Leader(Shr(uc, 6), 2), Continuation(uc)]
    case 3 => [Leader(Shr(Shr(uc, 6), 6), 3), Continuation(Shr(uc, 6)), Continuation(uc)]
    case _ => [Leader(Shr(Shr(Shr(uc, 6), 6), 6), 4), Continuation(Shr(Shr(uc, 6), 6)),
               Continuation(Shr(uc, 6)), Continuation(uc)]
  }

  /** What a backslash and c stand for, for every c but u. */
  function Unescaped(c: byte): byte {
    if c == 98 then 8          // b
    else if c == 102 then 12   // f
    else if c == 110 then 10   // n
    else if c == 114 then 13   // r
    else if c == 116 then 9    // t
    else c
  }

  /** What the second loop writes from i on, and where it stops. The four characters behind a \u are
      not looked at before they are taken: a quotation mark among them does not end the literal. */
  function Decode(s: bytes, i: nat): (r: Parse<bytes>)
    ensures r.Ok? ==> i <= r.end && (i <= |s| ==> r.end <= |s|)
    ensures !r.Fail?
    decreases if i < |s| then |s| - i else 0
  {
    var c := At(s, i);
    if c == QUOTE then Ok([], i + 1)
    else if c == 0 then Ok([], i)
    else if c != BACKSLASH then Prepend([c], Decode(s, i + 1))
    else if At(s, i + 1) == 0 then Broken
    else if At(s, i + 1) != 117 then Prepend([Unescaped(At(s, i + 1))], Decode(s, i + 2))
    else if !Inside4(s, i + 2) then Broken
    else
      var uc := Hex4(s, i + 2);
      if LowSurrogate(uc) || uc == 0 then Decode(s, i + 6)
      else if !HighSurrogate(uc) then Prepend(Transcode(uc), Decode(s, i + 6))
      else if At(s, i + 6) != BACKSLASH || At(s, i + 7) != 117 then Decode(s, i + 6)
      else if !Inside4(s, i + 8) then Broken
      else
        var uc2 := Hex4(s, i + 8);
        if !LowSurrogate(uc2) then Decode(s, i + 12)
        else Prepend(Transcode(CombineSurrogates(uc, uc2)), Decode(s, i + 12))
  }

  function Prepend(w: bytes, r: Parse<bytes>): Parse<bytes> {
    match r
    case Ok(v, e) => Ok(w + v, e)
    case _ => r
  }

  /** parse_string: neither of its loops may leave the text, and what the second one writes has to fit
      into what the first one has counted. */
  function ParseString(s: bytes, i: nat): (r: Parse<bytes>)
    ensures r.Ok? ==> i < r.end && (i <= |s| ==> r.end <= |s|)
    ensures r.Fail? <==> At(s, i) != QUOTE
  {
    if At(s, i) != QUOTE then Fail(i)
    else if FirstLeaves(s, i + 1) then Broken
    else
      match Decode(s, i + 1)
      case Ok(v, e) => if |v| <= Count(s, i + 1) then Ok(v, e) else Broken
      case _ => Broken
  }

  /** The first loop of parse_string: the size it asks for, less the terminator. */
  function Count(s: bytes, i: nat): nat
    decreases if i < |s| then |s| - i else 0
  {
    if At(s, i) == QUOTE || At(s, i) == 0 then 0
    else if At(s, i) == BACKSLASH then 1 + Count(s, i + 2)
    else 1 + Count(s, i + 1)
  }

  /** The first loop, which takes a backslash and the byte behind it in one step, steps over the
      terminator. */
  predicate FirstLeaves(s: bytes, i: nat)
    decreases if i < |s| then |s| - i else 0
  {
    if At(s, i) == QUOTE || At(s, i) == 0 then false
    else if At(s, i) == BACKSLASH then At(s, i + 1) == 0 || FirstLeaves(s, i + 2)
    else FirstLeaves(s, i + 1)
  }

  lemma CountComplete4(s: bytes, i: nat)
    requires Complete4(s, i)
    ensures Count(s, i) == 4 + Count(s, i + 4)
  {
    assert Count(s, i) == 1 + Count(s, i + 1);
    assert Count(s, i + 1) == 1 + Count(s, i + 2);
    assert Count(s, i + 2) == 1 + Count(s, i + 3);
    assert Count(s, i + 3) == 1 + Count(s, i + 4);
  }

  /** Read from i on, a backslash of the literal has nothing behind it, or a \u of it has fewer than
      four characters before the literal ends or the next escape starts. */
  predicate Cuts(s: bytes, i: nat)
    decreases if i < |s| then |s| - i else 0
  {
    if At(s, i) == QUOTE || At(s, i) == 0 then false
    else if At(s, i) != BACKSLASH then Cuts(s, i + 1)
    else At(s, i + 1) == 0 || (At(s, i + 1) == 117 && !Complete4(s, i + 2)) || Cuts(s, i + 2)
  }

  lemma CutsBehind(s: bytes, i: nat)
    requires Complete4(s, i)
    ensures Inside4(s, i) && Cuts(s, i) == Cuts(s, i + 4)
  {
    assert Cuts(s, i) == Cuts(s, i + 1);
    assert Cuts(s, i + 1) == Cuts(s, i + 2);
    assert Cuts(s, i + 2) == Cuts(s, i + 3);
  }

  /** Where no escape is cut short, parse_string stays inside the text and the measuring loop never
      asks for too little. */
  lemma {:induction false} DecodeFits(s: bytes, i: nat)
    requires !Cuts(s, i)
    ensures exists v, e :: Decode(s, i) == Ok(v, e) && |v| <= Count(s, i)
    decreases if i < |s| then |s| - i else 0
  {
    hide Hex4, Transcode, CombineSurrogates, Complete4;
    var c := At(s, i);
    if c == QUOTE || c == 0 {
      assert Decode(s, i) == Ok([], if c == QUOTE then i + 1 else i);
    } else if c != BACKSLASH {
      DecodeFits(s, i + 1);
    } else if At(s, i + 1) != 117 {
      DecodeFits(s, i + 2);
    } else {
      CutsBehind(s, i + 2);
      CountComplete4(s, i + 2);
      var uc := Hex4(s, i + 2);
      DecodeFits(s, i + 6);
      if HighSurrogate(uc) && At(s, i + 6) == BACKSLASH && At(s, i + 7) == 117 {
        CutsBehind(s, i + 8);
        CountComplete4(s, i + 8);
        DecodeFits(s, i + 12);
      }
    }
  }

  lemma {:induction false} FirstStays(s: bytes, i: nat)
    requires !Cuts(s, i)
    ensures !FirstLeaves(s, i)
    decreases if i < |s| then |s| - i else 0
  {
    hide Complete4;
    if At(s, i) != QUOTE && At(s, i) != 0 {
      FirstStays(s, if At(s, i) == BACKSLASH then i + 2 else i + 1);
    }
  }

  /** On such a literal, parse_string does what its second loop does. */
  lemma WholeString(s: bytes, i: nat)
    requires At(s, i) == QUOTE && !Cuts(s, i + 1)
    ensures ParseString(s, i) == Decode(s, i + 1) && ParseString(s, i) != Broken
  {
    FirstStays(s, i + 1);
    DecodeFits(s, i + 1);
  }

  // ---------------------------------------------------------------- RFC 3629 and RFC 2781

  predicate ScalarValue(cp: nat) { cp < 0x110000 && !HighSurrogate(cp) && !LowSurrogate(cp) }

  /** Section 3 of RFC 3629. */
  function Utf8(cp: nat): (w: bytes)
    requires cp < 0x110000
  {
    if cp < 0x80 then [cp]
    else if cp < 0x800 then [0xC0 + cp / 64, 0x80 + cp % 64]
    else if cp < 0x10000 then [0xE0 + cp / 4096, 0x80 + cp / 64 % 64, 0x80 + cp % 64]
    else [0xF0 + cp / 262144, 0x80 + cp / 4096 % 64, 0x80 + cp / 64 % 64, 0x80 + cp % 64]
  }

  /** Section 2.1 of RFC 2781: the surrogate pair of a code point beyond the basic plane. */
  function HighOf(cp: nat): nat
    requires 0x10000 <= cp < 0x110000
  {
    0xD800 + (cp - 0x10000) / 0x400
  }

  function LowOf(cp: nat): nat
    requires 0x10000 <= cp < 0x110000
  {
    0xDC00 + (cp - 0x10000) % 0x400
  }

  lemma SecondBitSet(h: nat)
    ensures And(Or(h, 2), 2) == 2
  {
    var o := Or(h, 2);
    BitStep(OrOp, h, 2);
    BitStep(OrOp, h / 2, 1);
    BitStep(AndOp, o, 2);
    BitStep(AndOp, o / 2, 1);
    WithZero(AndOp, o / 2 / 2);
  }

  lemma Join64(op: Op, h1: nat, l1: nat, h2: nat, l2: nat)
    requires l1 < 64 && l2 < 64
    ensures Bitwise(op, h1 * 64 + l1, h2 * 64 + l2) == Bitwise(op, h1, h2) * 64 + Bitwise(op, l1, l2)
  {
    assert Pow2(6) == 64;
    Joined(op, h1, l1, h2, l2, 6);
  }

  lemma MarkHigh(h: nat, l: nat)
    requires l < 64
    ensures Or(h * 64 + l, 0x80) == Or(h, 2) * 64 + l
  {
    Join64(OrOp, h, l, 2, 0);
    WithZero(OrOp, l);
  }

  lemma ClearHigh(o: nat, l: nat)
    requires l < 64
    ensures And(o * 64 + l, 0xBF) == And(o, 2) * 64 + l
  {
    Join64(AndOp, o, l, 2, 63);
    assert And(l, 63) == l by {
      assert Pow2(6) == 64;
      AndLowOnes(l, 6);
    }
  }

  lemma ContinuationIs(uc: nat)
    ensures Continuation(uc) == 0x80 + uc % 64
  {
    hide Bitwise, Pow2;
    var h, l := uc / 64, uc % 64;
    MarkHigh(h, l);
    ClearHigh(Or(h, 2), l);
    SecondBitSet(h);
  }

  lemma Leader1Is(u: nat)
    requires u < 0x80
    ensures Leader(u, 1) == u
  {
    WithZero(OrOp, u);
  }

  lemma Leader2Is(u: nat)
    requires u < 32
    ensures Leader(u, 2) == 0xC0 + u
  {
    hide Bitwise, Pow2;
    SmallPowers();
    OrMark(u, 6, 5);
  }

  lemma Leader3Is(u: nat)
    requires u < 16
    ensures Leader(u, 3) == 0xE0 + u
  {
    hide Bitwise, Pow2;
    SmallPowers();
    OrMark(u, 14, 4);
  }

  lemma Leader4Is(u: nat)
    requires u < 8
    ensures Leader(u, 4) == 0xF0 + u
  {
    hide Bitwise, Pow2;
    SmallPowers();
    OrMark(u, 30, 3);
  }

  lemma SmallPowers()
    ensures Pow2(3) == 8 && Pow2(4) == 16 && Pow2(5) == 32
  {
  }

  lemma OrMark(u: nat, mark: nat, k: nat)
    requires u < Pow2(k)
    ensures 0 <= mark * Pow2(k) && Or(u, mark * Pow2(k)) == mark * Pow2(k) + u
  {
    Positive(mark, Pow2(k));
    Joined(OrOp, 0, u, mark, 0, k);
    WithZero(OrOp, u);
    WithZero(OrOp, mark);
  }

  lemma ShiftSix(uc: nat)
    ensures Shr(uc, 6) == uc / 64
  {
    assert Shr(uc, 6) == Shr(uc / 2, 5) == Shr(uc / 4, 4) == Shr(uc / 8, 3);
    assert Shr(uc / 8, 3) == Shr(uc / 16, 2) == Shr(uc / 32, 1) == Shr(uc / 64, 0);
  }

  /** The masks, shifts and first-byte marks of the code give exactly the UTF-8 of the code point. */
  lemma TranscodeIsUtf8(uc: nat)
    requires uc < 0x110000
    ensures Transcode(uc) == Utf8(uc)
  {
    hide Bitwise, Shr, Continuation, Leader;
    var a, b, c := uc / 64, uc / 4096, uc / 262144;
    assert a / 64 == b && b / 64 == c;
    ShiftSix(uc);
    ShiftSix(a);
    ShiftSix(b);
    if uc < 0x80 {
      Leader1Is(uc);
    } else {
      ContinuationIs(uc);
      if uc < 0x800 {
        Leader2Is(a);
      } else {
        ContinuationIs(a);
        if uc < 0x10000 {
          Leader3Is(b);
        } else {
          ContinuationIs(b);
          Leader4Is(c);
        }
      }
    }
  }

  /** The code's arithmetic on a surrogate pair inverts section 2.1 of RFC 2781. */
  lemma CombineIsInverse(cp: nat)
    requires 0x10000 <= cp < 0x110000
    ensures HighSurrogate(HighOf(cp)) && LowSurrogate(LowOf(cp))
    ensures CombineSurrogates(HighOf(cp), LowOf(cp)) == cp
  {
    var a, b := (cp - 0x10000) / 0x400, (cp - 0x10000) % 0x400;
    assert Pow2(10) == 0x400;
    AndOnes(54, a, 10);
    AndOnes(55, b, 10);
    ShlIs(a, 10);
    OrDisjoint(a, b, 10);
  }

  // ---------------------------------------------------------------- what a literal denotes

  /** The units of a string literal: a plain byte, a two-character escape, a \u escape or a pair. */
  datatype Unit = Raw(c: byte) | Short(c: byte) | Code(cp: nat)

  predicate Hex4Text(w: bytes, n: nat) {
    && |w| == 4
    && (forall k :: 0 <= k < 4 ==> HexValue(w[k]) >= 0)
    && n == HexValue(w[0]) * 4096 + HexValue(w[1]) * 256 + HexValue(w[2]) * 16 + HexValue(w[3])
  }

  const ShortEscapes: map<byte, byte> :=
    map[34 := 34, 92 := 92, 47 := 47, 98 := 8, 102 := 12, 110 := 10, 114 := 13, 116 := 9]

  predicate EscapedUnit(w: bytes, n: nat) {
    |w| == 6 && w[0] == BACKSLASH && w[1] == 117 && Hex4Text(w[2..], n)
  }

  /** Section 7 of RFC 8259: w is a spelling of u. */
  predicate Spells(u: Unit, w: bytes) {
    match u
    case Raw(c) => w == [c] && c != 0 && c != QUOTE && c != BACKSLASH
    case Short(c) => |w| == 2 && w[0] == BACKSLASH && w[1] in ShortEscapes && ShortEscapes[w[1]] == c
    case Code(cp) =>
      && 0 < cp && ScalarValue(cp)
      && if cp < 0x10000 then EscapedUnit(w, cp)
         else |w| == 12 && EscapedUnit(w[..6], HighOf(cp)) && EscapedUnit(w[6..], LowOf(cp))
  }

  function Meaning(u: Unit): bytes {
    match u
    case Raw(c) => [c]
    case Short(c) => [c]
    case Code(cp) => if cp < 0x110000 then Utf8(cp) else []
  }

  function Meanings(us: seq<Unit>): bytes {
    if us == [] then [] else Meaning(us[0]) + Meanings(us[1..])
  }

  function Concat(ws: seq<bytes>): bytes {
    if ws == [] then [] else ws[0] + Concat(ws[1..])
  }

  lemma ReadHex4(s: bytes, i: nat, w: bytes, n: nat)
    requires Has(s, i, w) && EscapedUnit(w, n)
    ensures At(s, i) == BACKSLASH && At(s, i + 1) == 117 && Complete4(s, i + 2) && Hex4(s, i + 2) == n
    ensures Inside4(s, i + 2) && Cuts(s, i) == Cuts(s, i + 6)
  {
    HasAt(s, i, w, 0);
    HasAt(s, i, w, 1);
    HasAt(s, i, w, 2);
    HasAt(s, i, w, 3);
    HasAt(s, i, w, 4);
    HasAt(s, i, w, 5);
    assert forall k :: 0 <= k < 4 ==> w[2..][k] == w[k + 2];
    assert HexValue(w[2..][0]) >= 0 && HexValue(w[2..][1]) >= 0 && HexValue(w[2..][2]) >= 0 && HexValue(w[2..][3]) >= 0;
    CutsBehind(s, i + 2);
  }

  lemma DecodeUnit(s: bytes, i: nat, u: Unit, w: bytes)
    requires Has(s, i, w) && Spells(u, w)
    ensures Decode(s, i) == Prepend(Meaning(u), Decode(s, i + |w|)) && Cuts(s, i) == Cuts(s, i + |w|)
  {
    hide Hex4, Transcode, CombineSurrogates, Utf8, Has, Hex4Text, Inside4, Complete4;
    match u
    case Raw(c) =>
      HasAt(s, i, w, 0);
    case Short(c) =>
      HasAt(s, i, w, 0);
      HasAt(s, i, w, 1);
    case Code(cp) =>
      if cp < 0x10000 {
        ReadHex4(s, i, w, cp);
        TranscodeIsUtf8(cp);
      } else {
        DecodePair(s, i, cp, w);
      }
  }

  /** A surrogate pair. */
  lemma DecodePair(s: bytes, i: nat, cp: nat, w: bytes)
    requires 0x10000 <= cp < 0x110000 && Has(s, i, w) && |w| == 12
    requires EscapedUnit(w[..6], HighOf(cp)) && EscapedUnit(w[6..], LowOf(cp))
    ensures Decode(s, i) == Prepend(Utf8(cp), Decode(s, i + 12)) && Cuts(s, i) == Cuts(s, i + 12)
  {
    hide Hex4, Transcode, CombineSurrogates, Utf8, Has, Inside4, Complete4;
    assert w == w[..6] + w[6..];
    HasSplit(s, i, w[..6], w[6..]);
    ReadHex4(s, i, w[..6], HighOf(cp));
    ReadHex4(s, i + 6, w[6..], LowOf(cp));
    CombineIsInverse(cp);
    TranscodeIsUtf8(cp);
  }

  lemma DecodeQuote(s: bytes, i: nat)
    requires Has(s, i, [] + [QUOTE])
    ensures Decode(s, i) == Ok([], i + 1) && !Cuts(s, i)
  {
    assert [] + [QUOTE] == [QUOTE];
    HasAt(s, i, [QUOTE], 0);
  }

  /** parse_string writes what the units of the literal denote: plain bytes as they are, and the
      UTF-8 of the code points its escapes name. */
  lemma {:induction false} DecodeUnits(s: bytes, i: nat, us: seq<Unit>, ws: seq<bytes>)
    requires |us| == |ws| && forall k :: 0 <= k < |us| ==> Spells(us[k], ws[k])
    requires Has(s, i, Concat(ws) + [QUOTE])
    ensures Decode(s, i) == Ok(Meanings(us), i + |Concat(ws)| + 1) && !Cuts(s, i)
    decreases us
  {
    hide Decode, Has, Spells, Meaning;
    if us == [] {
      DecodeQuote(s, i);
    } else {
      var rest := Concat(ws[1..]) + [QUOTE];
      assert Concat(ws) + [QUOTE] == ws[0] + rest;
      HasSplit(s, i, ws[0], rest);
      DecodeUnit(s, i, us[0], ws[0]);
      DecodeUnits(s, i + |ws[0]|, us[1..], ws[1..]);
    }
  }

  /** A whole literal of legally spelled units is read to its end, as what the units denote. */
  lemma ParseLiteral(s: bytes, i: nat, us: seq<Unit>, ws: seq<bytes>)
    requires |us| == |ws| && forall k :: 0 <= k < |us| ==> Spells(us[k], ws[k])
    requires Has(s, i, [QUOTE] + (Concat(ws) + [QUOTE]))
    ensures ParseString(s, i) == Ok(Meanings(us), i + |Concat(ws)| + 2)
  {
    hide Spells;
    HasSplit(s, i, [QUOTE], Concat(ws) + [QUOTE]);
    HasAt(s, i, [QUOTE], 0);
    DecodeUnits(s, i + 1, us, ws);
    WholeString(s, i);
  }

  /** The bytes the first loop counts for a unit: one for a byte or a short escape, and one for each
      escaped code unit with its four digits added. */
  function Units(us: seq<Unit>): nat {
    if us == [] then 0
    else (if us[0].Code? then if us[0].cp < 0x10000 then 5 else 10 else 1) + Units(us[1..])
  }

  /** parse_string asks for that many bytes, and one for the terminator. */
  lemma {:induction false} CountUnits(s: bytes, i: nat, us: seq<Unit>, ws: seq<bytes>)
    requires |us| == |ws| && forall k :: 0 <= k < |us| ==> Spells(us[k], ws[k])
    requires Has(s, i, Concat(ws)) && (At(s, i + |Concat(ws)|) == 0 || At(s, i + |Concat(ws)|) == QUOTE)
    ensures Count(s, i) == Units(us)
    decreases us
  {
    hide Has, Spells, Count;
    if us == [] {
      CountNothing(s, i);
    } else {
      HasSplit(s, i, ws[0], Concat(ws[1..]));
      CountUnit(s, i, us[0], ws[0]);
      CountUnits(s, i + |ws[0]|, us[1..], ws[1..]);
    }
  }

  lemma CountNothing(s: bytes, i: nat)
    requires At(s, i) == 0 || At(s, i) == QUOTE
    ensures Count(s, i) == 0
  {
  }

  lemma CountUnit(s: bytes, i: nat, u: Unit, w: bytes)
    requires Has(s, i, w) && Spells(u, w)
    ensures Count(s, i) == (if u.Code? then if u.cp < 0x10000 then 5 else 10 else 1) + Count(s, i + |w|)
  {
    hide Has, Hex4Text, Hex4, Complete4, Inside4;
    match u
    case Raw(c) =>
      HasAt(s, i, w, 0);
    case Short(c) =>
      HasAt(s, i, w, 0);
      HasAt(s, i, w, 1);
    case Code(cp) =>
      if cp < 0x10000 {
        CountEscape(s, i, w, cp);
      } else {
        assert w == w[..6] + w[6..];
        HasSplit(s, i, w[..6], w[6..]);
        CountEscape(s, i, w[..6], HighOf(cp));
        CountEscape(s, i + 6, w[6..], LowOf(cp));
      }
  }

  lemma CountEscape(s: bytes, i: nat, w: bytes, n: nat)
    requires Has(s, i, w) && EscapedUnit(w, n)
    ensures Count(s, i) == 5 + Count(s, i + 6)
  {
    ReadHex4(s, i, w, n);
    CountComplete4(s, i + 2);
  }

  /** A backslash and any byte but u: b, f, n, r and t stand for control characters, every other byte
      for itself. */
  lemma AnyEscape(s: bytes, i: nat, c: byte)
    requires At(s, i) == 92 && At(s, i + 1) == c && c != 117 && c != 0
    ensures Decode(s, i) == Prepend([if c == 98 then 8 else if c == 102 then 12 else if c == 110 then 10
                                     else if c == 114 then 13 else if c == 116 then 9 else c], Decode(s, i + 2))
  {
  }

  /** A literal of legally spelled units that the end of the text cuts off is read like a closed one. */
  lemma {:induction false} DecodeOpen(s: bytes, i: nat, us: seq<Unit>, ws: seq<bytes>)
    requires |us| == |ws| && forall k :: 0 <= k < |us| ==> Spells(us[k], ws[k])
    requires Has(s, i, Concat(ws)) && At(s, i + |Concat(ws)|) == 0
    ensures Decode(s, i) == Ok(Meanings(us), i + |Concat(ws)|)
    decreases us
  {
    hide Has, Spells, Meaning;
    if us == [] {
      assert Decode(s, i) == Ok([], i);
    } else {
      hide Decode;
      HasSplit(s, i, ws[0], Concat(ws[1..]));
      DecodeUnit(s, i, us[0], ws[0]);
      DecodeOpen(s, i + |ws[0]|, us[1..], ws[1..]);
    }
  }

  // ---------------------------------------------------------------- escapes that are dropped

  predicate EscapeAt(s: bytes, i: nat) {
    At(s, i) == BACKSLASH && At(s, i + 1) == 117 && Inside4(s, i + 2)
  }

  /** A high surrogate with a low one right behind it. */
  predicate Paired(s: bytes, i: nat) {
    HighSurrogate(Hex4(s, i + 2)) && EscapeAt(s, i + 6) && LowSurrogate(Hex4(s, i + 8))
  }

  predicate Unpaired(s: bytes, i: nat) {
    LowSurrogate(Hex4(s, i + 2)) || (HighSurrogate(Hex4(s, i + 2)) && !Paired(s, i))
  }

  function CodePoint(s: bytes, i: nat): (cp: nat)
    ensures cp < 0x110000
  {
    var u, v := Hex4(s, i + 2), Hex4(s, i + 8);
    if HighSurrogate(u) && LowSurrogate(v) then 0x10000 + (u - 0xD800) * 0x400 + (v - 0xDC00) else u
  }

  /** Where reading goes on: any escape behind a high surrogate is taken along with it. */
  function BehindEscape(s: bytes, i: nat): nat {
    if HighSurrogate(Hex4(s, i + 2)) && At(s, i + 6) == BACKSLASH && At(s, i + 7) == 117 then i + 12 else i + 6
  }

  /** An escape adds nothing to the string if and only if its value is zero, which is also the value
      of digits that are none, or it is an unpaired surrogate; any other adds its code point. */
  lemma EscapeDropped(s: bytes, i: nat, v: bytes, e: nat)
    requires EscapeAt(s, i) && Decode(s, i) == Ok(v, e)
    ensures exists rest :: Decode(s, BehindEscape(s, i)) == Ok(rest, e)
                           && (v == rest <==> Hex4(s, i + 2) == 0 || Unpaired(s, i))
                           && (v == rest || v == Utf8(CodePoint(s, i)) + rest)
  {
    hide Hex4, Transcode, CombineSurrogates, Utf8;
    var u := Hex4(s, i + 2);
    if HighSurrogate(u) && LowSurrogate(Hex4(s, i + 8)) {
      var cp := CodePoint(s, i);
      PairValue(cp, u, Hex4(s, i + 8));
      CombineIsInverse(cp);
      TranscodeIsUtf8(cp);
    } else {
      TranscodeIsUtf8(u);
    }
    assert |Transcode(CodePoint(s, i))| > 0;
    var rest := match Decode(s, BehindEscape(s, i)) case Ok(r, _) => r case _ => [];
    assert Decode(s, BehindEscape(s, i)) == Ok(rest, e);
  }

  lemma PairValue(cp: nat, u: nat, v: nat)
    requires HighSurrogate(u) && LowSurrogate(v) && cp == 0x10000 + (u - 0xD800) * 0x400 + (v - 0xDC00)
    ensures 0x10000 <= cp < 0x110000 && HighOf(cp) == u && LowOf(cp) == v
  {
  }

  /** "\ud800\u0041b" denotes the text b: the letter A is dropped with the surrogate before it. */
  lemma EscapeTakenAlong()
    ensures ParseString([QUOTE, BACKSLASH, 117, 100, 56, 48, 48, BACKSLASH, 117, 48, 48, 52, 49, 98, QUOTE], 0)
            == Ok([98], 15)
  {
    var s: bytes := [QUOTE, BACKSLASH, 117, 100, 56, 48, 48, BACKSLASH, 117, 48, 48, 52, 49, 98, QUOTE];
    assert Hex4(s, 3) == 0xD800 && Hex4(s, 9) == 0x41;
    assert Inside4(s, 3) && Inside4(s, 9) && Complete4(s, 3) && Complete4(s, 9);
    assert Decode(s, 14) == Ok([], 15) && [98] + [] == [98];
    assert Decode(s, 13) == Prepend([98], Decode(s, 14)) == Ok([98], 15);
    assert Decode(s, 1) == Decode(s, 13);
    assert Count(s, 13) == 1 && Count(s, 1) >= 1;
    assert !FirstLeaves(s, 13) && !FirstLeaves(s, 12) && !FirstLeaves(s, 11) && !FirstLeaves(s, 10);
    assert !FirstLeaves(s, 9) && !FirstLeaves(s, 7) && !FirstLeaves(s, 6) && !FirstLeaves(s, 5);
    assert !FirstLeaves(s, 4) && !FirstLeaves(s, 3);
  }

  /** The six payload bits of the k-th byte of a UTF-8 sequence. */
  function Payload(w: bytes, k: nat): nat {
    At(w, k) % 64
  }

  /** A decoder written from section 3 of RFC 3629. */
  function Utf8Value(w: bytes): nat {
    var lead: nat := At(w, 0);
    if lead < 0x80 then lead
    else if lead < 0xE0 then (lead % 32) * 64 + Payload(w, 1)
    else if lead < 0xF0 then (lead % 16) * 4096 + Payload(w, 1) * 64 + Payload(w, 2)
    else (lead % 8) * 262144 + Payload(w, 1) * 4096 + Payload(w, 2) * 64 + Payload(w, 3)
  }

  lemma PayloadBits(h: nat)
    ensures (0x80 + h % 64) % 64 == h % 64
    ensures h < 32 ==> (0xC0 + h) % 32 == h
    ensures h < 16 ==> (0xE0 + h) % 16 == h
    ensures h < 8 ==> (0xF0 + h) % 8 == h
  {
  }

  lemma Utf8RoundTrip(cp: nat)
    requires cp < 0x110000
    ensures Utf8Value(Utf8(cp)) == cp
  {
    var a, b, c := cp / 64, cp / 4096, cp / 262144;
    assert a / 64 == b && b / 64 == c;
    PayloadBits(cp);
    PayloadBits(a);
    PayloadBits(b);
    PayloadBits(c);
    var w := Utf8(cp);
    if cp < 0x80 {
    } else if cp < 0x800 {
      assert At(w, 0) == 0xC0 + a && Payload(w, 1) == cp % 64;
    } else if cp < 0x10000 {
      assert At(w, 0) == 0xE0 + b && Payload(w, 1) == a % 64 && Payload(w, 2) == cp % 64;
    } else {
      assert At(w, 0) == 0xF0 + c && Payload(w, 1) == b % 64 && Payload(w, 2) == a % 64 && Payload(w, 3) == cp % 64;
    }
  }

  /** The bytes parse_string writes for a \u escape decode, by RFC 3629, to its code point. */
  lemma TranscodeRoundTrip(cp: nat)
    requires cp < 0x110000
    ensures Utf8Value(Transcode(cp)) == cp
  {
    TranscodeIsUtf8(cp);
    Utf8RoundTrip(cp);
  }

  // ---------------------------------------------------------------- printing

  function LowerHex(n: nat): byte
    requires n < 16
  {
    if n < 10 then ZERO + n else 97 + n - 10
  }

  /** "u%04x" of a byte */
  function UnicodeEscape(c: byte): bytes {
    [117, ZERO, ZERO, LowerHex(c / 16), LowerHex(c % 16)]
  }

  predicate Plain(c: byte) {
    c > 31 && c != QUOTE && c != BACKSLASH
  }

  function EscapeByte(c: byte): bytes {
    if Plain(c) then [c]
    else if c == BACKSLASH then [BACKSLASH, BACKSLASH]
    else if c == QUOTE then [BACKSLASH, QUOTE]
    else if c == 8 then [BACKSLASH, 98]
    else if c == 12 then [BACKSLASH, 102]
    else if c == 10 then [BACKSLASH, 110]
    else if c == 13 then [BACKSLASH, 114]
    else if c == 9 then [BACKSLASH, 116]
    else [BACKSLASH] + UnicodeEscape(c)
  }

  /** What each byte is printed as. */
  lemma EscapeTable(c: byte)
    ensures EscapeByte(c) ==
            if c == 34 then [92, 34] else if c == 92 then [92, 92]
            else if c == 8 then [92, 98] else if c == 9 then [92, 116] else if c == 10 then [92, 110]
            else if c == 12 then [92, 102] else if c == 13 then [92, 114]
            else if c < 32 then [92, 117, 48, 48, Ascii("0123456789abcdef")[c / 16], Ascii("0123456789abcdef")[c % 16]]
            else [c]
  {
  }

  function Escape(t: bytes): bytes {
    if t == [] then [] else EscapeByte(t[0]) + Escape(t[1..])
  }

  /** The literal print_string_ptr writes. */
  function Quoted(t: bytes): bytes {
    [QUOTE] + Escape(t) + [QUOTE]
  }

  /** The measuring loop of print_string_ptr. */
  function Measured(t: bytes): nat {
    if t == [] then 0
    else (if t[0] in {QUOTE, BACKSLASH, 8, 12, 10, 13, 9} then 2 else if t[0] < 32 then 6 else 1) + Measured(t[1..])
  }

  lemma {:induction false} MeasuredIsExact(t: bytes)
    ensures |Escape(t)| == Measured(t)
  {
    if t != [] {
      MeasuredIsExact(t[1..]);
    }
  }

  lemma {:induction false} EscapeAppend(a: bytes, b: bytes)
    ensures Escape(a + b) == Escape(a) + Escape(b)
  {
    if a == [] {
      assert a + b == b;
    } else {
      assert (a + b)[1..] == a[1..] + b;
      EscapeAppend(a[1..], b);
    }
  }

  lemma {:induction false} EscapePlain(t: bytes)
    requires forall k :: 0 <= k < |t| ==> Plain(t[k])
    ensures Escape(t) == t
  {
    if t != [] {
      EscapePlain(t[1..]);
    }
  }

  lemma EscapeGrows(a: bytes, c: byte, b: bytes)
    ensures Escape(a + [c] + b) == Escape(a) + EscapeByte(c) + Escape(b)
  {
    EscapeAppend(a + [c], b);
    EscapeAppend(a, [c]);
    assert Escape([c]) == EscapeByte(c);
  }

  lemma {:induction false} EscapeNulFree(t: bytes)
    ensures NulFree(Escape(t))
  {
    if t != [] {
      EscapeNulFree(t[1..]);
    }
  }

  function UnitOf(c: byte): Unit {
    if Plain(c) then Raw(c) else if c in {QUOTE, BACKSLASH, 8, 12, 10, 13, 9} then Short(c) else Code(c)
  }

  lemma EscapeByteSpells(c: byte)
    requires c != 0
    ensures Spells(UnitOf(c), EscapeByte(c)) && Meaning(UnitOf(c)) == [c]
  {
    var w := EscapeByte(c);
    if UnitOf(c).Code? {
      assert w[2..] == [ZERO, ZERO, LowerHex(c / 16), LowerHex(c % 16)];
    }
  }

  /** The printed literal denotes the string it was printed from. */
  lemma {:induction false} DecodeEscape(s: bytes, i: nat, t: bytes)
    requires NulFree(t) && Has(s, i, Escape(t) + [QUOTE])
    ensures Decode(s, i) == Ok(t, i + |Escape(t)| + 1) && !Cuts(s, i)
    decreases t
  {
    hide Decode, Has, Spells, Meaning, EscapeByte;
    if t == [] {
      DecodeQuote(s, i);
    } else {
      var rest := Escape(t[1..]) + [QUOTE];
      assert Escape(t) + [QUOTE] == EscapeByte(t[0]) + rest;
      HasSplit(s, i, EscapeByte(t[0]), rest);
      EscapeByteSpells(t[0]);
      DecodeUnit(s, i, UnitOf(t[0]), EscapeByte(t[0]));
      DecodeEscape(s, i + |EscapeByte(t[0])|, t[1..]);
      assert [t[0]] + t[1..] == t;
    }
  }

  lemma ParseQuoted(s: bytes, i: nat, t: bytes)
    requires NulFree(t) && Has(s, i, Quoted(t))
    ensures ParseString(s, i) == Ok(t, i + |Quoted(t)|)
  {
    assert Quoted(t) == [QUOTE] + (Escape(t) + [QUOTE]);
    HasSplit(s, i, [QUOTE], Escape(t) + [QUOTE]);
    HasAt(s, i, [QUOTE], 0);
    DecodeEscape(s, i + 1, t);
    WholeString(s, i);
  }
}
