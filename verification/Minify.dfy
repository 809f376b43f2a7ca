/** cJSON_Minify: the in-place loop, what it makes of printed text, and what it keeps of any text. */
module Minify {
  import opened CText
  import opened StringCodec
  import opened Json
  import opened JsonRoundTrip

  /** The minified text, or `Overrun` where the C function runs past the terminator: in a literal,
      an escape or a comment that is not closed. */
  datatype Minified = Text(t: bytes) | Overrun

  datatype End = Closed(end: nat) | Unclosed

  predicate Removed(c: byte) {
    c == SPACE || c == TAB || c == RETURN || c == NEWLINE
  }

  function Cat(w: bytes, m: Minified): Minified {
    match m
    case Text(t) => Text(w + t)
    case Overrun => Overrun
  }

  /** The position after the closing quotation mark. */
  function LiteralEnd(s: bytes, i: nat): (r: End)
    ensures r.Closed? ==> i < r.end <= |s|
    decreases if i < |s| then |s| - i else 0
  {
    var c := At(s, i);
    if c == 0 then Unclosed
    else if c == QUOTE then Closed(i + 1)
    else if c != BACKSLASH then LiteralEnd(s, i + 1)
    else if At(s, i + 1) == 0 then Unclosed
    else LiteralEnd(s, i + 2)
  }

  function CommentEnd(s: bytes, i: nat): (r: End)
    ensures r.Closed? ==> i < r.end <= |s|
    decreases if i < |s| then |s| - i else 0
  {
    var c := At(s, i);
    if c == 0 then Unclosed
    else if c == STAR && At(s, i + 1) == SLASH then Closed(i + 2)
    else CommentEnd(s, i + 1)
  }

  function LineEnd(s: bytes, i: nat): (j: nat)
    ensures i <= j && (i <= |s| ==> j <= |s|)
    ensures At(s, i) != 0 && At(s, i) != NEWLINE ==> i < j
    decreases if i < |s| then |s| - i else 0
  {
    if At(s, i) == 0 || At(s, i) == NEWLINE then i else LineEnd(s, i + 1)
  }

  /** What is left of the text from position i on. */
  function Min(s: bytes, i: nat): Minified
    decreases if i < |s| then |s| - i else 0
  {
    var c := At(s, i);
    if c == 0 then Text([])
    else if Removed(c) then Min(s, i + 1)
    else if c == SLASH && At(s, i + 1) == SLASH then Min(s, LineEnd(s, i))
    else if c == SLASH && At(s, i + 1) == STAR then
      match CommentEnd(s, i)
      case Unclosed => Overrun
      case Closed(e) => Min(s, e)
    else if c == QUOTE then
      match LiteralEnd(s, i + 1)
      case Unclosed => Overrun
      case Closed(e) => Cat(s[i..e], Min(s, e))
    else Cat([c], Min(s, i + 1))
  }

  lemma CatCat(a: bytes, b: bytes, m: Minified)
    ensures Cat(a, Cat(b, m)) == Cat(a + b, m)
    ensures Cat([], m) == m
  {
    if m.Text? {
      assert a + (b + m.t) == (a + b) + m.t;
      assert [] + m.t == m.t;
    }
  }

  // ---------------------------------------------------------------- printed text

  predicate PlainText(w: bytes) {
    forall k :: 0 <= k < |w| ==> w[k] != 0 && !Removed(w[k]) && w[k] != SLASH && w[k] != QUOTE
  }

  /** Characters outside literals that are neither blank nor a slash stay. */
  lemma {:induction false} MinPlain(s: bytes, i: nat, w: bytes)
    requires Has(s, i, w) && PlainText(w)
    ensures Min(s, i) == Cat(w, Min(s, i + |w|))
    decreases w
  {
    hide LiteralEnd, CommentEnd, LineEnd;
    CatCat([], [], Min(s, i));
    if w != [] {
      MinPlain(s, i + 1, w[1..]);
      CatCat([w[0]], w[1..], Min(s, i + |w|));
      assert [w[0]] + w[1..] == w;
    }
  }

  lemma {:induction false} MinBlanks(s: bytes, i: nat, w: bytes)
    requires Has(s, i, w) && forall k :: 0 <= k < |w| ==> Removed(w[k])
    ensures Min(s, i) == Min(s, i + |w|)
    decreases w
  {
    if w != [] {
      MinBlanks(s, i + 1, w[1..]);
    }
  }

  lemma EscapedEnd(s: bytes, i: nat, c: byte)
    requires c != 0 && Has(s, i, EscapeByte(c))
    ensures LiteralEnd(s, i) == LiteralEnd(s, i + |EscapeByte(c)|)
  {
    var w := EscapeByte(c);
    FirstByte(s, i, w);
    if |w| > 1 {
      HasAt(s, i, w, 1);
    }
    if |w| == 6 {
      HasAt(s, i, w, 2);
      HasAt(s, i, w, 3);
      HasAt(s, i, w, 4);
      HasAt(s, i, w, 5);
      assert LiteralEnd(s, i) == LiteralEnd(s, i + 2) == LiteralEnd(s, i + 3) == LiteralEnd(s, i + 4);
      assert LiteralEnd(s, i + 4) == LiteralEnd(s, i + 5) == LiteralEnd(s, i + 6);
    }
  }

  lemma {:induction false} PrintedEnd(s: bytes, i: nat, t: bytes)
    requires NulFree(t) && Has(s, i, Escape(t) + [QUOTE])
    ensures LiteralEnd(s, i) == Closed(i + |Escape(t)| + 1)
    decreases t
  {
    if t == [] {
      FirstByte(s, i, [QUOTE]);
    } else {
      var rest := Escape(t[1..]) + [QUOTE];
      assert Escape(t) + [QUOTE] == EscapeByte(t[0]) + rest;
      HasSplit(s, i, EscapeByte(t[0]), rest);
      EscapedEnd(s, i, t[0]);
      PrintedEnd(s, i + |EscapeByte(t[0])|, t[1..]);
    }
  }

  lemma MinQuoted(s: bytes, i: nat, t: bytes)
    requires NulFree(t) && Has(s, i, Quoted(t))
    ensures Min(s, i) == Cat(Quoted(t), Min(s, i + |Quoted(t)|))
  {
    hide Escape, LiteralEnd, Has, CommentEnd, LineEnd;
    assert Quoted(t) == [QUOTE] + (Escape(t) + [QUOTE]);
    HasSplit(s, i, [QUOTE], Escape(t) + [QUOTE]);
    FirstByte(s, i, [QUOTE]);
    PrintedEnd(s, i + 1, t);
    HasSlice(s, i, Quoted(t));
  }

  lemma {:induction false} DigitsPlain(n: nat)
    ensures PlainText(Digits(n))
  {
    var w := Digits(n);
    forall k | 0 <= k < |w| ensures w[k] != 0 && !Removed(w[k]) && w[k] != SLASH && w[k] != QUOTE {
      assert Digit(w[k]);
    }
  }

  /** Append what two neighbouring stretches leave. */
  lemma MinChain(s: bytes, i: nat, a: bytes, j: nat, b: bytes, k: nat)
    requires Min(s, i) == Cat(a, Min(s, j)) && Min(s, j) == Cat(b, Min(s, k))
    ensures Min(s, i) == Cat(a + b, Min(s, k))
  {
    CatCat(a, b, Min(s, k));
  }

  lemma MinOne(s: bytes, i: nat, c: byte)
    requires Has(s, i, [c]) && PlainText([c])
    ensures Min(s, i) == Cat([c], Min(s, i + 1))
  {
    MinPlain(s, i, [c]);
  }

  /** Minifying formatted text leaves the unformatted text, wherever the text stands. */
  lemma {:induction false} MinPrint(v: Value, depth: nat, other: nat, s: bytes, i: nat)
    requires Printable(v) && Has(s, i, Print(v, depth, true))
    ensures Min(s, i) == Cat(Print(v, other, false), Min(s, i + |Print(v, depth, true)|))
    decreases v, 1
  {
    hide Min, Has, PrintItems, PrintMembers;
    match v
    case Number(m, _) =>
      DigitsPlain(if m < 0 then -m else m);
      MinPlain(s, i, Decimal(m));
    case String(t) => MinQuoted(s, i, t);
    case Array(items) => MinArray(items, depth, other, s, i);
    case Object(members) => MinObject(members, depth, other, s, i);
    case _ => MinPlain(s, i, Print(v, depth, true));
  }

  lemma {:induction false} MinArray(items: seq<Value>, depth: nat, other: nat, s: bytes, i: nat)
    requires Printable(Array(items)) && Has(s, i, Print(Array(items), depth, true))
    ensures Min(s, i) == Cat(Print(Array(items), other, false), Min(s, i + |Print(Array(items), depth, true)|))
    decreases items, 2
  {
    hide Min, Has, PrintItems;
    if items == [] {
      MinPlain(s, i, [OPEN_BRACKET, CLOSE_BRACKET]);
    } else {
      var w, u := PrintItems(items, depth + 1, true), PrintItems(items, other + 1, false);
      assert Print(Array(items), depth, true) == [OPEN_BRACKET] + (w + [CLOSE_BRACKET]);
      assert Print(Array(items), other, false) == [OPEN_BRACKET] + u + [CLOSE_BRACKET];
      HasSplit(s, i, [OPEN_BRACKET], w + [CLOSE_BRACKET]);
      HasSplit(s, i + 1, w, [CLOSE_BRACKET]);
      MinOne(s, i, OPEN_BRACKET);
      MinItems(items, depth + 1, other + 1, s, i + 1);
      MinOne(s, i + 1 + |w|, CLOSE_BRACKET);
      MinChain(s, i, [OPEN_BRACKET], i + 1, u, i + 1 + |w|);
      MinChain(s, i, [OPEN_BRACKET] + u, i + 1 + |w|, [CLOSE_BRACKET], i + |w| + 2);
    }
  }

  lemma {:induction false} MinItems(items: seq<Value>, depth: nat, other: nat, s: bytes, i: nat)
    requires items != [] && (forall x :: x in items ==> Printable(x))
    requires Has(s, i, PrintItems(items, depth, true))
    ensures Min(s, i) == Cat(PrintItems(items, other, false), Min(s, i + |PrintItems(items, depth, true)|))
    decreases items, 1
  {
    hide Min, Has, Print, Printable;
    var first, u := Print(items[0], depth, true), Print(items[0], other, false);
    if |items| == 1 {
      assert PrintItems(items, depth, true) == first && PrintItems(items, other, false) == u;
      MinPrint(items[0], depth, other, s, i);
    } else {
      var rest, v := PrintItems(items[1..], depth, true), PrintItems(items[1..], other, false);
      var j := i + |first|;
      assert PrintItems(items, depth, true) == first + ([COMMA] + ([SPACE] + rest));
      assert PrintItems(items, other, false) == u + [COMMA] + v;
      HasSplit(s, i, first, [COMMA] + ([SPACE] + rest));
      HasSplit(s, j, [COMMA], [SPACE] + rest);
      HasSplit(s, j + 1, [SPACE], rest);
      MinPrint(items[0], depth, other, s, i);
      MinOne(s, j, COMMA);
      MinBlanks(s, j + 1, [SPACE]);
      MinItems(items[1..], depth, other, s, j + 2);
      MinChain(s, i, u, j, [COMMA], j + 1);
      MinChain(s, i, u + [COMMA], j + 1, v, j + 2 + |rest|);
    }
  }

  /** Blanks, a text that stays, blanks again. */
  lemma MinPadded(s: bytes, i: nat, a: bytes, w: bytes, u: bytes, b: bytes)
    requires Has(s, i, a) && Has(s, i + |a| + |w|, b)
    requires forall k :: 0 <= k < |a| ==> Removed(a[k])
    requires forall k :: 0 <= k < |b| ==> Removed(b[k])
    requires Min(s, i + |a|) == Cat(u, Min(s, i + |a| + |w|))
    ensures Min(s, i) == Cat(u, Min(s, i + |a| + |w| + |b|))
  {
    MinBlanks(s, i, a);
    MinBlanks(s, i + |a| + |w|, b);
  }

  lemma {:induction false} MinObject(members: seq<Member>, depth: nat, other: nat, s: bytes, i: nat)
    requires Printable(Object(members)) && Has(s, i, Print(Object(members), depth, true))
    ensures Min(s, i) == Cat(Print(Object(members), other, false), Min(s, i + |Print(Object(members), depth, true)|))
    decreases members, 3
  {
    if members == [] {
      var blanks := [NEWLINE] + Tabs(if depth > 0 then depth - 1 else 0);
      assert Print(Object(members), depth, true) == [OPEN_BRACE] + (blanks + [CLOSE_BRACE]);
      HasSplit(s, i, [OPEN_BRACE], blanks + [CLOSE_BRACE]);
      HasSplit(s, i + 1, blanks, [CLOSE_BRACE]);
      MinOne(s, i, OPEN_BRACE);
      MinBlanks(s, i + 1, blanks);
      MinOne(s, i + 1 + |blanks|, CLOSE_BRACE);
      MinChain(s, i, [OPEN_BRACE], i + 1, [CLOSE_BRACE], i + |blanks| + 2);
      assert [OPEN_BRACE] + [CLOSE_BRACE] == Print(Object(members), other, false);
    } else {
      MinFullObject(members, depth, other, s, i);
    }
  }

  lemma {:induction false} MinFullObject(members: seq<Member>, depth: nat, other: nat, s: bytes, i: nat)
    requires members != [] && Printable(Object(members)) && Has(s, i, Print(Object(members), depth, true))
    ensures Min(s, i) == Cat(Print(Object(members), other, false), Min(s, i + |Print(Object(members), depth, true)|))
    decreases members, 2
  {
    hide Min, Has, PrintMembers;
    var w, u := PrintMembers(members, depth + 1, true), PrintMembers(members, other + 1, false);
    var tail := Tabs(depth) + [CLOSE_BRACE];
    assert Print(Object(members), depth, true) == [OPEN_BRACE] + ([NEWLINE] + (w + tail));
    assert Print(Object(members), other, false) == [OPEN_BRACE] + u + [CLOSE_BRACE];
    HasSplit(s, i, [OPEN_BRACE], [NEWLINE] + (w + tail));
    HasSplit(s, i + 1, [NEWLINE], w + tail);
    HasSplit(s, i + 2, w, tail);
    var j := i + 2 + |w|;
    HasSplit(s, j, Tabs(depth), [CLOSE_BRACE]);
    MinOne(s, i, OPEN_BRACE);
    MinMembers(members, depth + 1, other + 1, s, i + 2);
    MinPadded(s, i + 1, [NEWLINE], w, u, Tabs(depth));
    MinOne(s, j + depth, CLOSE_BRACE);
    MinChain(s, i, [OPEN_BRACE], i + 1, u, j + depth);
    MinChain(s, i, [OPEN_BRACE] + u, j + depth, [CLOSE_BRACE], j + depth + 1);
  }

  lemma {:induction false} MinMembers(members: seq<Member>, depth: nat, other: nat, s: bytes, i: nat)
    requires members != [] && (forall x :: x in members ==> NulFree(x.name) && Printable(x.value))
    requires Has(s, i, PrintMembers(members, depth, true))
    ensures Min(s, i) == Cat(PrintMembers(members, other, false), Min(s, i + |PrintMembers(members, depth, true)|))
    decreases members, 1
  {
    hide Min, Has, Print, MemberEnd, NamePrefix, PrintMembers, MemberText, Cat;
    var m, last := members[0], |members| == 1;
    assert m in members;
    var w, sep := MemberText(m, depth, true), MemberEnd(last, true);
    var u, sep' := MemberText(m, other, false), MemberEnd(last, false);
    MembersShape(members, depth, true);
    MembersShape(members, other, false);
    var j := i + |w|;
    if last {
      assert PrintMembers(members, depth, true) == w + sep && PrintMembers(members, other, false) == u + sep';
      HasSplit(s, i, w, sep);
      MinMember(m, depth, other, s, i);
      MinMemberEnd(last, s, j);
      MinChain(s, i, u, j, sep', j + |sep|);
    } else {
      var rest, v := PrintMembers(members[1..], depth, true), PrintMembers(members[1..], other, false);
      assert PrintMembers(members, depth, true) == w + (sep + rest);
      HasSplit(s, i, w, sep + rest);
      HasSplit(s, j, sep, rest);
      MinMember(m, depth, other, s, i);
      MinMemberEnd(last, s, j);
      MinMembers(members[1..], depth, other, s, j + |sep|);
      MinChain(s, i, u, j, sep', j + |sep|);
      MinChain(s, i, u + sep', j + |sep|, v, j + |sep| + |rest|);
    }
  }

  lemma MinMemberEnd(last: bool, s: bytes, j: nat)
    requires Has(s, j, MemberEnd(last, true))
    ensures Min(s, j) == Cat(MemberEnd(last, false), Min(s, j + |MemberEnd(last, true)|))
  {
    if last {
      MinBlanks(s, j, [NEWLINE]);
      CatCat([], [], Min(s, j + 1));
    } else {
      HasSplit(s, j, [COMMA], [NEWLINE]);
      MinOne(s, j, COMMA);
      MinBlanks(s, j + 1, [NEWLINE]);
    }
  }

  lemma {:induction false} MinMember(m: Member, depth: nat, other: nat, s: bytes, i: nat)
    requires NulFree(m.name) && Printable(m.value) && Has(s, i, MemberText(m, depth, true))
    ensures Min(s, i) == Cat(MemberText(m, other, false), Min(s, i + |MemberText(m, depth, true)|))
    decreases m, 2
  {
    hide Min, Has, Print, Printable;
    var q, text, u := Quoted(m.name), Print(m.value, depth, true), Print(m.value, other, false);
    var j := i + depth;
    var k := j + |q|;
    assert MemberText(m, depth, true) == Tabs(depth) + (q + ([COLON] + ([TAB] + text)));
    assert MemberText(m, other, false) == q + [COLON] + u;
    HasSplit(s, i, Tabs(depth), q + ([COLON] + ([TAB] + text)));
    HasSplit(s, j, q, [COLON] + ([TAB] + text));
    HasSplit(s, k, [COLON], [TAB] + text);
    HasSplit(s, k + 1, [TAB], text);
    MinBlanks(s, i, Tabs(depth));
    MinQuoted(s, j, m.name);
    MinOne(s, k, COLON);
    MinBlanks(s, k + 1, [TAB]);
    MinPrint(m.value, depth, other, s, k + 2);
    MinChain(s, i, q, k, [COLON], k + 1);
    MinChain(s, i, q + [COLON], k + 1, u, k + 2 + |text|);
  }

  /** cJSON_Minify turns the text of cJSON_Print into that of cJSON_PrintUnformatted. */
  lemma MinifyPrint(v: Value)
    requires Printable(v)
    ensures Min(Print(v, 0, true), 0) == Text(Print(v, 0, false))
  {
    hide *;
    var s := Print(v, 0, true);
    MinAtEnd(s);
    MinPrint(v, 0, 0, s, 0);
    CatText(Print(v, 0, false));
  }

  lemma MinAtEnd(s: bytes)
    ensures Has(s, 0, s) && Min(s, |s|) == Text([])
  {
    HasSlice(s, 0, s);
    assert s[0..|s|] == s;
  }

  lemma CatText(w: bytes)
    ensures Cat(w, Text([])) == Text(w)
  {
    assert w + [] == w;
  }
}
