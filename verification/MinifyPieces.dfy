/** cJSON_Minify on any text: the pieces that a text consists of, and which of them stay. */
module MinifyPieces {
  import opened CText
  import opened StringCodec
  import opened Json
  import opened JsonRoundTrip
  import opened JsonLayout
  import opened Minify

  // ---------------------------------------------------------------- pieces

  /** A literal between quotation marks, cut into bytes and escapes; a blank, tab, return or line end; a
      comment up to the end of its line, which may be missing at the end of the text; a comment between
      slash-star and star-slash; any other byte. */
  datatype Piece =
    | Literal(units: seq<bytes>)
    | Blank(c: byte)
    | LineComment(body: bytes, ended: bool)
    | BlockComment(text: bytes)
    | Other(c: byte)

  predicate LiteralUnit(w: bytes) {
    || (|w| == 1 && w[0] != 0 && w[0] != 34 && w[0] != 92)
    || (|w| == 2 && w[0] == 92 && w[1] != 0)
  }

  predicate IsBlank(c: byte) { c == 32 || c == 9 || c == 13 || c == 10 }

  /** The first star-slash of the text is at its end; its star may be that of the slash-star. */
  predicate IsBlock(w: bytes) {
    && |w| >= 3 && w[0] == 47 && w[1] == 42 && w[|w| - 2] == 42 && w[|w| - 1] == 47 && NulFree(w)
    && forall k :: 0 <= k < |w| - 2 ==> !(w[k] == 42 && w[k + 1] == 47)
  }

  predicate ValidPiece(p: Piece) {
    match p
    case Literal(units) => forall k :: 0 <= k < |units| ==> LiteralUnit(units[k])
    case Blank(c) => IsBlank(c)
    case LineComment(body, _) => forall k :: 0 <= k < |body| ==> body[k] != 0 && body[k] != 10
    case BlockComment(w) => IsBlock(w)
    case Other(c) => c != 0 && !IsBlank(c) && c != 34
  }

  function PieceText(p: Piece): bytes {
    match p
    case Literal(units) => [34] + (Concat(units) + [34])
    case Blank(c) => [c]
    case LineComment(body, ended) => [47, 47] + (body + if ended then [10] else [])
    case BlockComment(w) => w
    case Other(c) => [c]
  }

  function Joined(ps: seq<Piece>): bytes {
    if ps == [] then [] else PieceText(ps[0]) + Joined(ps[1..])
  }

  /** Literals and other bytes stay. */
  function Kept(ps: seq<Piece>): bytes {
    if ps == [] then []
    else (if ps[0].Literal? || ps[0].Other? then PieceText(ps[0]) else []) + Kept(ps[1..])
  }

  /** A slash that starts no comment, and a comment whose line does not end, by the byte behind them. */
  predicate Fits(p: Piece, next: byte) {
    (p == Other(47) ==> next != 47 && next != 42) && (p.LineComment? && !p.ended ==> next == 0)
  }

  /** The pieces ps are what is written from i on. */
  predicate Consists(s: bytes, i: nat, ps: seq<Piece>)
    decreases ps
  {
    ps == [] || (
      && ValidPiece(ps[0]) && Has(s, i, PieceText(ps[0])) && Fits(ps[0], At(s, i + |PieceText(ps[0])|))
      && Consists(s, i + |PieceText(ps[0])|, ps[1..]))
  }

  // ---------------------------------------------------------------- one piece

  lemma {:induction false} UnitsEnd(s: bytes, i: nat, units: seq<bytes>)
    requires Has(s, i, Concat(units)) && forall k :: 0 <= k < |units| ==> LiteralUnit(units[k])
    ensures LiteralEnd(s, i) == LiteralEnd(s, i + |Concat(units)|)
    decreases units
  {
    hide Has;
    if units != [] {
      var w := units[0];
      assert LiteralUnit(w);
      HasSplit(s, i, w, Concat(units[1..]));
      FirstByte(s, i, w);
      HasAt(s, i, w, |w| - 1);
      UnitsEnd(s, i + |w|, units[1..]);
    }
  }

  lemma MinLiteral(s: bytes, i: nat, units: seq<bytes>)
    requires Has(s, i, PieceText(Literal(units))) && ValidPiece(Literal(units))
    ensures Min(s, i) == Cat(PieceText(Literal(units)), Min(s, i + |PieceText(Literal(units))|))
  {
    hide Has;
    var w := PieceText(Literal(units));
    HasSplit(s, i, [34], Concat(units) + [34]);
    HasSplit(s, i + 1, Concat(units), [34]);
    FirstByte(s, i, [34]);
    FirstByte(s, i + 1 + |Concat(units)|, [34]);
    UnitsEnd(s, i + 1, units);
    hide Concat;
    HasSlice(s, i, w);
  }

  lemma {:induction false} LineRun(s: bytes, i: nat, body: bytes)
    requires Has(s, i, body) && forall k :: 0 <= k < |body| ==> body[k] != 0 && body[k] != 10
    ensures LineEnd(s, i) == LineEnd(s, i + |body|)
    decreases body
  {
    if body != [] {
      LineRun(s, i + 1, body[1..]);
    }
  }

  lemma MinLineComment(s: bytes, i: nat, body: bytes, ended: bool)
    requires var p := LineComment(body, ended);
             Has(s, i, PieceText(p)) && ValidPiece(p) && Fits(p, At(s, i + |PieceText(p)|))
    ensures Min(s, i) == Min(s, i + |PieceText(LineComment(body, ended))|)
  {
    var e := i + 2 + |body|;
    HasSplit(s, i, [47, 47], body + if ended then [10] else []);
    HasSplit(s, i + 2, body, if ended then [10] else []);
    LineRun(s, i, [47, 47]);
    LineRun(s, i + 2, body);
    hide Has;
    HasAt(s, i, [47, 47], 0);
    HasAt(s, i, [47, 47], 1);
    if ended {
      FirstByte(s, e, [10]);
    }
  }

  lemma {:induction false} BlockRun(s: bytes, i: nat, w: bytes)
    requires Has(s, i, w) && |w| >= 2 && w[|w| - 2] == 42 && w[|w| - 1] == 47 && NulFree(w)
    requires forall k :: 0 <= k < |w| - 2 ==> !(w[k] == 42 && w[k + 1] == 47)
    ensures CommentEnd(s, i) == Closed(i + |w|)
    decreases w
  {
    HasAt(s, i, w, 0);
    HasAt(s, i, w, 1);
    if |w| > 2 {
      var v := w[1..];
      assert forall k :: 0 <= k < |v| ==> v[k] == w[k + 1];
      BlockRun(s, i + 1, v);
    }
  }

  lemma MinBlockComment(s: bytes, i: nat, w: bytes)
    requires Has(s, i, w) && IsBlock(w)
    ensures Min(s, i) == Min(s, i + |w|)
  {
    HasAt(s, i, w, 0);
    HasAt(s, i, w, 1);
    BlockRun(s, i, w);
  }

  lemma MinPiece(s: bytes, i: nat, p: Piece)
    requires ValidPiece(p) && Has(s, i, PieceText(p)) && Fits(p, At(s, i + |PieceText(p)|))
    ensures var e := i + |PieceText(p)|;
            Min(s, i) == if p.Literal? || p.Other? then Cat(PieceText(p), Min(s, e)) else Min(s, e)
  {
    hide Has, Min;
    match p
    case Literal(units) => MinLiteral(s, i, units);
    case Blank(c) => MinByte(s, i, c);
    case LineComment(body, ended) => MinLineComment(s, i, body, ended);
    case BlockComment(w) => MinBlockComment(s, i, w);
    case Other(c) => MinByte(s, i, c);
  }

  lemma MinByte(s: bytes, i: nat, c: byte)
    requires Has(s, i, [c]) && c != 0 && c != 34 && (c == 47 ==> At(s, i + 1) != 47 && At(s, i + 1) != 42)
    ensures Min(s, i) == if IsBlank(c) then Min(s, i + 1) else Cat([c], Min(s, i + 1))
  {
    FirstByte(s, i, [c]);
    hide Has, LiteralEnd, LineEnd, CommentEnd;
  }

  /** From each piece on, the minifier goes on with the next. */
  lemma {:induction false} MinConsists(s: bytes, i: nat, ps: seq<Piece>)
    requires Consists(s, i, ps)
    ensures Min(s, i) == Cat(Kept(ps), Min(s, i + |Joined(ps)|))
    decreases ps
  {
    hide Min, Has, Fits, ValidPiece, PieceText;
    CatCat([], [], Min(s, i));
    if ps != [] {
      var w := PieceText(ps[0]);
      MinPiece(s, i, ps[0]);
      MinConsists(s, i + |w|, ps[1..]);
      var rest := Min(s, i + |w| + |Joined(ps[1..])|);
      CatCat(w, Kept(ps[1..]), rest);
      CatCat([], Kept(ps[1..]), rest);
      assert [] + Kept(ps[1..]) == Kept(ps[1..]);
    }
  }

  // ---------------------------------------------------------------- every text

  /** A literal without its closing quotation mark, perhaps cut off behind a backslash. */
  ghost predicate OpenLiteralAt(s: bytes, e: nat) {
    At(s, e) == 34 && exists units: seq<bytes>, cut: bool :: OpenBehind(s, e, units, cut)
  }

  predicate OpenBehind(s: bytes, e: nat, units: seq<bytes>, cut: bool) {
    OpenUnits(s, e + 1, units, cut)
  }

  predicate OpenUnits(s: bytes, i: nat, units: seq<bytes>, cut: bool) {
    && (forall k :: 0 <= k < |units| ==> LiteralUnit(units[k]))
    && Has(s, i, Concat(units) + if cut then [92] else [])
    && At(s, i + |Concat(units) + if cut then [92] else []|) == 0
  }

  /** A slash-star with no star-slash behind it. */
  predicate OpenCommentAt(s: bytes, e: nat) {
    At(s, e) == 47 && At(s, e + 1) == 42 && forall k :: e <= k < |s| ==> !(At(s, k) == 42 && At(s, k + 1) == 47)
  }

  lemma OpenOverruns(s: bytes, e: nat)
    requires NulFree(s) && (OpenLiteralAt(s, e) || OpenCommentAt(s, e))
    ensures Min(s, e) == Overrun
  {
    if OpenLiteralAt(s, e) {
      var units: seq<bytes>, cut: bool :| OpenBehind(s, e, units, cut);
      var tail := if cut then [92] else [];
      HasSplit(s, e + 1, Concat(units), tail);
      UnitsEnd(s, e + 1, units);
      if cut {
        FirstByte(s, e + 1 + |Concat(units)|, tail);
      }
    } else {
      NoStarSlash(s, e, e);
    }
  }

  lemma {:induction false} NoStarSlash(s: bytes, e: nat, i: nat)
    requires OpenCommentAt(s, e) && e <= i
    ensures CommentEnd(s, i) == Unclosed
    decreases if i < |s| then |s| - i else 0
  {
    if At(s, i) != 0 {
      NoStarSlash(s, e, i + 1);
    }
  }

  /** Every text consists of pieces, up to its end or up to a literal or comment that is left open. */
  lemma {:induction false} PiecesOf(s: bytes, i: nat) returns (ps: seq<Piece>)
    requires i <= |s| && NulFree(s)
    ensures Consists(s, i, ps)
    ensures var e := i + |Joined(ps)|; e == |s| || OpenLiteralAt(s, e) || OpenCommentAt(s, e)
    decreases |s| - i
  {
    hide Has, ValidPiece, Fits, PieceText, OpenLiteralAt, OpenCommentAt;
    if i == |s| {
      return [];
    }
    var open, p := FirstPiece(s, i);
    if open {
      return [];
    }
    var rest := PiecesOf(s, i + |PieceText(p)|);
    ps := MorePieces(s, i, p, rest);
  }

  lemma MorePieces(s: bytes, i: nat, p: Piece, rest: seq<Piece>) returns (ps: seq<Piece>)
    requires ValidPiece(p) && Has(s, i, PieceText(p)) && Fits(p, At(s, i + |PieceText(p)|))
    requires Consists(s, i + |PieceText(p)|, rest)
    ensures ps == [p] + rest && Consists(s, i, ps)
    ensures i + |Joined(ps)| == i + |PieceText(p)| + |Joined(rest)|
  {
    hide Has, ValidPiece, Fits, PieceText;
    ps := [p] + rest;
    assert ps[1..] == rest;
  }

  lemma FirstPiece(s: bytes, i: nat) returns (open: bool, p: Piece)
    requires i < |s| && NulFree(s)
    ensures open ==> OpenLiteralAt(s, i) || OpenCommentAt(s, i)
    ensures !open ==>
              && ValidPiece(p) && Has(s, i, PieceText(p)) && Fits(p, At(s, i + |PieceText(p)|))
              && 0 < |PieceText(p)| && i + |PieceText(p)| <= |s|
  {
    var c := s[i];
    open, p := false, Blank(c);
    if c == 34 {
      open, p := LiteralPiece(s, i);
    } else if c == 47 && At(s, i + 1) == 47 {
      p := LinePiece(s, i);
    } else if c == 47 && At(s, i + 1) == 42 {
      open, p := BlockPiece(s, i);
    } else if !IsBlank(c) {
      p := Other(c);
    }
  }

  lemma LiteralPiece(s: bytes, i: nat) returns (open: bool, p: Piece)
    requires i < |s| && NulFree(s) && s[i] == 34
    ensures if open then OpenLiteralAt(s, i)
            else p.Literal? && ValidPiece(p) && Has(s, i, PieceText(p)) && i + |PieceText(p)| <= |s|
  {
    hide Has;
    var units, closed, cut := UnitsOf(s, i + 1);
    p := Literal(units);
    open := !closed;
    ByteStands(s, i, 34);
    if closed {
      HasSplit(s, i, [34], Concat(units) + [34]);
    } else {
      assert OpenBehind(s, i, units, cut);
    }
  }

  lemma {:induction false} UnitsOf(s: bytes, i: nat) returns (units: seq<bytes>, closed: bool, cut: bool)
    requires i <= |s| && NulFree(s)
    ensures forall k :: 0 <= k < |units| ==> LiteralUnit(units[k])
    ensures closed ==> Has(s, i, Concat(units) + [34])
    ensures !closed ==> OpenUnits(s, i, units, cut)
    decreases |s| - i
  {
    hide Has, OpenUnits;
    units, closed, cut := [], false, false;
    if i == |s| {
      NothingOpen(s, i);
    } else if s[i] == 34 {
      closed := true;
      ByteStands(s, i, 34);
      assert [] + [34] == [34];
    } else if s[i] == 92 && i + 1 == |s| {
      cut := true;
      CutOpen(s, i);
    } else {
      var w := if s[i] == 92 then [s[i], s[i + 1]] else [s[i]];
      var rest;
      rest, closed, cut := UnitsOf(s, i + |w|);
      units := [w] + rest;
      UnitStands(s, i, w);
      MoreUnits(s, i, w, rest, closed, cut);
    }
  }

  lemma NothingOpen(s: bytes, i: nat)
    requires i == |s|
    ensures OpenUnits(s, i, [], false)
  {
    assert Concat([]) + [] == [];
  }

  lemma CutOpen(s: bytes, i: nat)
    requires i + 1 == |s| && s[i] == 92
    ensures OpenUnits(s, i, [], true)
  {
    assert Concat([]) + [92] == [92];
    ByteStands(s, i, 92);
  }

  lemma UnitStands(s: bytes, i: nat, w: bytes)
    requires i + |w| <= |s| && (w == [At(s, i)] || w == [At(s, i), At(s, i + 1)])
    ensures Has(s, i, w)
  {
    HasSlice(s, i, w);
  }

  lemma MoreUnits(s: bytes, i: nat, w: bytes, rest: seq<bytes>, closed: bool, cut: bool)
    requires Has(s, i, w) && LiteralUnit(w) && forall k :: 0 <= k < |rest| ==> LiteralUnit(rest[k])
    requires if closed then Has(s, i + |w|, Concat(rest) + [34]) else OpenUnits(s, i + |w|, rest, cut)
    ensures if closed then Has(s, i, Concat([w] + rest) + [34]) else OpenUnits(s, i, [w] + rest, cut)
  {
    hide Has;
    var end := if closed then [34] else if cut then [92] else [];
    assert ([w] + rest)[1..] == rest;
    HasSplit(s, i, w, Concat(rest) + end);
    assert (w + Concat(rest)) + end == w + (Concat(rest) + end);
  }

  lemma LinePiece(s: bytes, i: nat) returns (p: Piece)
    requires i < |s| && NulFree(s) && s[i] == 47 && At(s, i + 1) == 47
    ensures p.LineComment? && ValidPiece(p) && Has(s, i, PieceText(p)) && Fits(p, At(s, i + |PieceText(p)|))
    ensures i + |PieceText(p)| <= |s|
  {
    var e := LineStop(s, i + 2);
    var ended := e < |s|;
    p := LineComment(s[i + 2..e], ended);
    SliceStands(s, i + 2, e);
    UnitStands(s, i, [47, 47]);
    hide Has;
    var tail := if ended then [10] else [];
    if ended {
      ByteStands(s, e, 10);
    } else {
      Nothing(s, e);
    }
    HasSplit(s, i + 2, s[i + 2..e], tail);
    HasSplit(s, i, [47, 47], s[i + 2..e] + tail);
  }

  lemma {:induction false} LineStop(s: bytes, i: nat) returns (e: nat)
    requires i <= |s| && NulFree(s)
    ensures i <= e <= |s| && (forall k :: i <= k < e ==> s[k] != 10) && (e < |s| ==> s[e] == 10)
    decreases |s| - i
  {
    e := i;
    if i < |s| && s[i] != 10 {
      e := LineStop(s, i + 1);
    }
  }

  lemma BlockPiece(s: bytes, i: nat) returns (open: bool, p: Piece)
    requires i < |s| && NulFree(s) && s[i] == 47 && At(s, i + 1) == 42
    ensures if open then OpenCommentAt(s, i)
            else p.BlockComment? && ValidPiece(p) && Has(s, i, PieceText(p)) && i + |PieceText(p)| <= |s|
  {
    var e := BlockStop(s, i + 1);
    open, p := e == |s|, Blank(32);
    if !open {
      var w := s[i..e + 2];
      p := BlockComment(w);
      SliceStands(s, i, e + 2);
      assert forall k :: 0 <= k < |w| ==> w[k] == At(s, i + k);
      assert At(s, i) != 42;
    }
  }

  lemma {:induction false} BlockStop(s: bytes, i: nat) returns (e: nat)
    requires i <= |s| && NulFree(s)
    ensures i <= e <= |s| && forall k :: i <= k < e ==> !(At(s, k) == 42 && At(s, k + 1) == 47)
    ensures e < |s| ==> At(s, e) == 42 && At(s, e + 1) == 47
    decreases |s| - i
  {
    e := i;
    if i < |s| && !(At(s, i) == 42 && At(s, i + 1) == 47) {
      e := BlockStop(s, i + 1);
    }
  }

  /** The minifier keeps the literals and the other bytes of a text and nothing else, and it runs past the
      end exactly if a literal or a comment is left open. */
  lemma MinifiesPieces(s: bytes, ps: seq<Piece>)
    requires NulFree(s) && Consists(s, 0, ps)
    ensures |Joined(ps)| == |s| ==> Min(s, 0) == Text(Kept(ps))
    ensures OpenLiteralAt(s, |Joined(ps)|) || OpenCommentAt(s, |Joined(ps)|) ==> Min(s, 0) == Overrun
  {
    hide Min, Consists, OpenLiteralAt, OpenCommentAt;
    MinConsists(s, 0, ps);
    if |Joined(ps)| == |s| {
      MinAtNul(s, |s|);
      assert Kept(ps) + [] == Kept(ps);
    }
    if OpenLiteralAt(s, |Joined(ps)|) || OpenCommentAt(s, |Joined(ps)|) {
      OpenOverruns(s, |Joined(ps)|);
    }
  }

  // ---------------------------------------------------------------- comments between tokens

  /** Blanks and whole comments. */
  predicate Filler(ps: seq<Piece>) {
    forall p :: p in ps ==> ValidPiece(p) && (p.Blank? || (p.LineComment? && p.ended) || p.BlockComment?)
  }

  /** The tokens, with a filler before each of them and one at the end. */
  function Decorated(ts: seq<Token>, gaps: seq<seq<Piece>>): bytes
    requires |gaps| == |ts| + 1
  {
    if ts == [] then Joined(gaps[0]) else Joined(gaps[0]) + (TokenText(ts[0]) + Decorated(ts[1..], gaps[1..]))
  }

  function Plainly(ts: seq<Token>): bytes {
    if ts == [] then [] else TokenText(ts[0]) + Plainly(ts[1..])
  }

  lemma {:induction false} MinFiller(s: bytes, i: nat, ps: seq<Piece>)
    requires Filler(ps) && Has(s, i, Joined(ps))
    ensures Min(s, i) == Min(s, i + |Joined(ps)|)
    decreases ps
  {
    hide Has, Min, ValidPiece, PieceText;
    if ps != [] {
      assert ps[0] in ps;
      HasSplit(s, i, PieceText(ps[0]), Joined(ps[1..]));
      MinPiece(s, i, ps[0]);
      MinFiller(s, i + |PieceText(ps[0])|, ps[1..]);
    }
  }

  /** A token of printed text. */
  ghost predicate Printed(t: Token) {
    match t
    case Atom(w) => PlainText(w) || exists q: bytes :: NulFree(q) && w == Quoted(q)
    case Mark(c) => PlainText([c])
  }

  lemma MinToken(s: bytes, i: nat, t: Token)
    requires Printed(t) && Has(s, i, TokenText(t))
    ensures Min(s, i) == Cat(TokenText(t), Min(s, i + |TokenText(t)|))
  {
    hide Has, Min, Quoted, PlainText;
    if PlainText(TokenText(t)) {
      MinPlain(s, i, TokenText(t));
    } else {
      var q: bytes :| NulFree(q) && t.text == Quoted(q);
      MinQuoted(s, i, q);
    }
  }

  lemma {:induction false} MinDecorated(s: bytes, i: nat, ts: seq<Token>, gaps: seq<seq<Piece>>)
    requires |gaps| == |ts| + 1 && (forall g :: g in gaps ==> Filler(g)) && (forall t :: t in ts ==> Printed(t))
    requires Has(s, i, Decorated(ts, gaps)) && At(s, i + |Decorated(ts, gaps)|) == 0
    ensures Min(s, i) == Text(Plainly(ts))
    decreases ts
  {
    hide Has, Min, Filler, Printed, TokenText;
    assert gaps[0] in gaps;
    var g := Joined(gaps[0]);
    if ts == [] {
      MinFiller(s, i, gaps[0]);
      MinAtNul(s, i + |g|);
    } else {
      assert ts[0] in ts;
      var w := TokenText(ts[0]);
      HasSplit(s, i, g, w + Decorated(ts[1..], gaps[1..]));
      HasSplit(s, i + |g|, w, Decorated(ts[1..], gaps[1..]));
      MinFiller(s, i, gaps[0]);
      MinToken(s, i + |g|, ts[0]);
      MinDecorated(s, i + |g| + |w|, ts[1..], gaps[1..]);
    }
  }

  lemma MinAtNul(s: bytes, i: nat)
    requires At(s, i) == 0
    ensures Min(s, i) == Text([])
  {
  }

  lemma {:induction false} TokensPrinted(v: Value)
    requires Printable(v)
    ensures forall t :: t in Tokens(v) ==> Printed(t)
    decreases v, 1
  {
    hide Quoted, Decimal;
    match v
    case Null => WordsPlain();
    case True => WordsPlain();
    case False => WordsPlain();
    case Number(m, _) => NumberPlain(m);
    case String(t) =>
    case Array(items) => ItemsPrinted(items);
    case Object(members) => MembersPrinted(members);
  }

  lemma WordsPlain()
    ensures PlainText(Ascii("null")) && PlainText(Ascii("true")) && PlainText(Ascii("false"))
  {
  }

  lemma NumberPlain(m: int)
    ensures PlainText(Decimal(m))
  {
    var w := Digits(if m < 0 then -m else m);
    assert forall k :: 0 <= k < |w| ==> Digit(w[k]);
  }

  lemma {:induction false} ItemsPrinted(items: seq<Value>)
    requires forall x :: x in items ==> Printable(x)
    ensures forall t :: t in ItemTokens(items) ==> Printed(t)
    decreases items, 0
  {
    hide Tokens, Printable;
    if items != [] {
      TokensPrinted(items[0]);
      ItemsPrinted(items[1..]);
    }
  }

  lemma {:induction false} MembersPrinted(members: seq<Member>)
    requires forall x :: x in members ==> NulFree(x.name) && Printable(x.value)
    ensures forall t :: t in MemberTokens(members) ==> Printed(t)
    decreases members, 0
  {
    hide Tokens, Printable, Quoted;
    if members != [] {
      assert members[0] in members;
      TokensPrinted(members[0].value);
      MembersPrinted(members[1..]);
    }
  }

  lemma {:induction false} PlainlyRendered(ts: seq<Token>, before: byte, open: bytes)
    ensures Rendered(ts, before, open, false) == Plainly(ts)
    decreases ts
  {
    if ts != [] {
      PlainlyRendered(ts[1..], Last(ts[0]), Opened(ts[0], open));
    }
  }

  /** Printed text with any blanks and comments between its tokens is minified to the unformatted text. */
  lemma CommentsRemoved(v: Value, gaps: seq<seq<Piece>>)
    requires Printable(v) && |gaps| == |Tokens(v)| + 1 && forall g :: g in gaps ==> Filler(g)
    ensures Min(Decorated(Tokens(v), gaps), 0) == Text(Print(v, 0, false))
  {
    var s := Decorated(Tokens(v), gaps);
    HasSlice(s, 0, s);
    assert s[0..|s|] == s;
    hide *;
    TokensPrinted(v);
    MinDecorated(s, 0, Tokens(v), gaps);
    PlainlyRendered(Tokens(v), 0, []);
    PrintedLayout(v, false);
  }
}
