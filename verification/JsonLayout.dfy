/** What printed text is: the tokens of the value, and which blanks stand between which of them. */
module JsonLayout {
  import opened CText
  import opened StringCodec
  import opened Json

  /** A word, number or literal, or one of the bytes [ ] { } : and comma. */
  datatype Token = Atom(text: bytes) | Mark(c: byte)

  function TokenText(t: Token): bytes {
    match t
    case Atom(text) => text
    case Mark(c) => [c]
  }

  function Tokens(v: Value): seq<Token>
    decreases v
  {
    match v
    case Null => [Atom(Ascii("null"))]
    case False => [Atom(Ascii("false"))]
    case True => [Atom(Ascii("true"))]
    case Number(m, _) => [Atom(Decimal(m))]
    case String(t) => [Atom(Quoted(t))]
    case Array(items) => [Mark(91)] + (ItemTokens(items) + [Mark(93)])
    case Object(members) => [Mark(123)] + (MemberTokens(members) + [Mark(125)])
  }

  function ItemTokens(items: seq<Value>): seq<Token>
    decreases items
  {
    if items == [] then []
    else if |items| == 1 then Tokens(items[0])
    else Tokens(items[0]) + ([Mark(44)] + ItemTokens(items[1..]))
  }

  function MemberTokens(members: seq<Member>): seq<Token>
    decreases members
  {
    if members == [] then []
    else
      var first := [Atom(Quoted(members[0].name)), Mark(58)] + Tokens(members[0].value);
      if |members| == 1 then first else first + ([Mark(44)] + MemberTokens(members[1..]))
  }

  /** A line end and n tabs. */
  function Line(n: int): bytes {
    [10] + seq(if n > 0 then n else 0, _ => 9)
  }

  /** The blanks of formatted text before the token t, where `before` is the byte { or : or a comma if
      that is the last token, and `open` are the brackets and braces that are open, the innermost one
      first: a line for every member, indented by what is open; a line for a closing brace, indented by
      what is open around its object, and by one less where the object is empty; a blank behind a comma
      in an array; a tab behind a colon. */
  function Gap(before: byte, t: Token, open: bytes): bytes {
    if t == Mark(125) then Line(|open| - if before == 123 then 2 else 1)
    else if before == 123 || (before == 44 && open != [] && open[0] == 123) then Line(|open|)
    else if before == 44 then [32]
    else if before == 58 then [9]
    else []
  }

  function Opened(t: Token, open: bytes): bytes {
    if t == Mark(91) then [91] + open
    else if t == Mark(123) then [123] + open
    else if (t == Mark(93) || t == Mark(125)) && open != [] then open[1..]
    else open
  }

  function Last(t: Token): byte {
    if t == Mark(123) || t == Mark(44) || t == Mark(58) then t.c else 0
  }

  /** The tokens as text, with those blanks between them or with none. */
  function Rendered(ts: seq<Token>, before: byte, open: bytes, fmt: bool): bytes
    decreases ts
  {
    if ts == [] then []
    else
      (if fmt then Gap(before, ts[0], open) else [])
      + (TokenText(ts[0]) + Rendered(ts[1..], Last(ts[0]), Opened(ts[0], open), fmt))
  }

  // ---------------------------------------------------------------- the printers give that text

  /** The blanks before a value or a name. */
  function Lead(before: byte, open: bytes, fmt: bool): bytes {
    if fmt then Gap(before, Mark(91), open) else []
  }

  lemma OneToken(t: Token, rest: seq<Token>, before: byte, open: bytes, fmt: bool)
    ensures Rendered([t] + rest, before, open, fmt) ==
            (if fmt then Gap(before, t, open) else [])
            + (TokenText(t) + Rendered(rest, Last(t), Opened(t, open), fmt))
  {
    assert ([t] + rest)[1..] == rest;
  }

  lemma {:induction false} ValueLaid(v: Value, before: byte, open: bytes, rest: seq<Token>, fmt: bool)
    ensures Rendered(Tokens(v) + rest, before, open, fmt) ==
            Lead(before, open, fmt) + (Print(v, |open|, fmt) + Rendered(rest, 0, open, fmt))
    decreases v, 1
  {
    hide Rendered, Print, Tokens, Lead;
    match v
    case Array(_) => ArrayLaid(v, before, open, rest, fmt);
    case Object(_) => ObjectLaid(v, before, open, rest, fmt);
    case _ => AtomLaid(v, before, open, rest, fmt);
  }

  lemma AtomLaid(v: Value, before: byte, open: bytes, rest: seq<Token>, fmt: bool)
    requires !v.Array? && !v.Object?
    ensures Rendered(Tokens(v) + rest, before, open, fmt) ==
            Lead(before, open, fmt) + (Print(v, |open|, fmt) + Rendered(rest, 0, open, fmt))
  {
    hide Rendered, Print, Tokens;
    var w := AtomOf(v, |open|, fmt);
    OneToken(Atom(w), rest, before, open, fmt);
  }

  lemma AtomOf(v: Value, depth: nat, fmt: bool) returns (w: bytes)
    requires !v.Array? && !v.Object?
    ensures Tokens(v) == [Atom(w)] && Print(v, depth, fmt) == w
  {
    w := Print(v, depth, fmt);
    assert NULL_TEXT == Ascii("null") && FALSE_TEXT == Ascii("false") && TRUE_TEXT == Ascii("true");
  }

  lemma BareToken(t: Token, rest: seq<Token>, before: byte, open: bytes, fmt: bool)
    requires Gap(before, t, open) == []
    ensures Rendered([t] + rest, before, open, fmt) == TokenText(t) + Rendered(rest, Last(t), Opened(t, open), fmt)
  {
    OneToken(t, rest, before, open, fmt);
    var w := TokenText(t) + Rendered(rest, Last(t), Opened(t, open), fmt);
    assert [] + w == w;
  }

  lemma {:induction false} ArrayLaid(v: Value, before: byte, open: bytes, rest: seq<Token>, fmt: bool)
    requires v.Array?
    ensures Rendered(Tokens(v) + rest, before, open, fmt) ==
            Lead(before, open, fmt) + (Print(v, |open|, fmt) + Rendered(rest, 0, open, fmt))
    decreases v, 0
  {
    hide Rendered;
    var inner, tail := ItemTokens(v.items), [Mark(93)] + rest;
    var after := Rendered(rest, 0, open, fmt);
    TokensOfArray(v, rest);
    OneToken(Mark(91), inner + tail, before, open, fmt);
    BareToken(Mark(93), rest, 0, [91] + open, fmt);
    assert ([91] + open)[1..] == open;
    if v.items == [] {
      assert inner + tail == tail;
      InBrackets([91], [], [93], after);
    } else {
      ItemsLaid(v.items, 0, [91] + open, tail, fmt);
      hide PrintItems;
      var w := PrintItems(v.items, |open| + 1, fmt);
      assert [] + (w + ([93] + after)) == w + ([93] + after);
      InBrackets([91], w, [93], after);
    }
  }

  lemma TokensOfArray(v: Value, rest: seq<Token>)
    requires v.Array?
    ensures Tokens(v) + rest == [Mark(91)] + (ItemTokens(v.items) + ([Mark(93)] + rest))
  {
  }

  lemma InBrackets(a: bytes, w: bytes, b: bytes, after: bytes)
    ensures a + (w + (b + after)) == ((a + w) + b) + after
    ensures a + (b + after) == (a + b) + after
  {
  }

  lemma {:induction false} ItemsLaid(items: seq<Value>, before: byte, open: bytes, rest: seq<Token>, fmt: bool)
    requires items != [] && open != [] && open[0] == 91 && (before == 0 || before == 44)
    ensures Rendered(ItemTokens(items) + rest, before, open, fmt) ==
            Lead(before, open, fmt) + (PrintItems(items, |open|, fmt) + Rendered(rest, 0, open, fmt))
    decreases items, 0
  {
    hide Rendered, Print, Lead;
    if |items| == 1 {
      ValueLaid(items[0], before, open, rest, fmt);
      assert PrintItems(items, |open|, fmt) == Print(items[0], |open|, fmt);
    } else {
      var more := ItemTokens(items[1..]) + rest;
      TokensOfItems(items, rest);
      ValueLaid(items[0], before, open, [Mark(44)] + more, fmt);
      BareToken(Mark(44), more, 0, open, fmt);
      ItemsLaid(items[1..], 44, open, rest, fmt);
      hide Tokens, ItemTokens;
      SeparatorLead(open, fmt);
      ItemJoin(Print(items[0], |open|, fmt), Lead(44, open, fmt), PrintItems(items[1..], |open|, fmt),
               Rendered(rest, 0, open, fmt));
    }
  }

  lemma TokensOfItems(items: seq<Value>, rest: seq<Token>)
    requires |items| > 1
    ensures ItemTokens(items) + rest == Tokens(items[0]) + ([Mark(44)] + (ItemTokens(items[1..]) + rest))
  {
    hide Tokens;
    TokenJoin(Tokens(items[0]), ItemTokens(items[1..]), rest);
  }

  lemma TokenJoin(a: seq<Token>, b: seq<Token>, rest: seq<Token>)
    ensures (a + ([Mark(44)] + b)) + rest == a + ([Mark(44)] + (b + rest))
  {
  }

  lemma SeparatorLead(open: bytes, fmt: bool)
    requires open != [] && open[0] == 91
    ensures ItemSeparator(fmt) == [44] + Lead(44, open, fmt)
  {
  }

  lemma ItemJoin(p: bytes, b: bytes, w: bytes, r: bytes)
    ensures p + ([44] + (b + (w + r))) == (p + (([44] + b) + w)) + r
  {
  }

  lemma {:induction false} ObjectLaid(v: Value, before: byte, open: bytes, rest: seq<Token>, fmt: bool)
    requires v.Object?
    ensures Rendered(Tokens(v) + rest, before, open, fmt) ==
            Lead(before, open, fmt) + (Print(v, |open|, fmt) + Rendered(rest, 0, open, fmt))
    decreases v, 0
  {
    hide Rendered;
    var inner, tail := MemberTokens(v.members), [Mark(125)] + rest;
    var after := Rendered(rest, 0, open, fmt);
    TokensOfObject(v, rest);
    OneToken(Mark(123), inner + tail, before, open, fmt);
    assert ([123] + open)[1..] == open;
    if v.members == [] {
      assert inner + tail == tail;
      OneToken(Mark(125), rest, 123, [123] + open, fmt);
      LineTabs(|open| - 1);
      EmptyObject(open, fmt, after);
    } else {
      MembersLaid(v.members, 123, [123] + open, rest, fmt);
      hide PrintMembers, FmtTabs;
      FullObject(if fmt then [10] else [], PrintMembers(v.members, |open| + 1, fmt), FmtTabs(|open|, fmt), after);
    }
  }

  lemma TokensOfObject(v: Value, rest: seq<Token>)
    requires v.Object?
    ensures Tokens(v) + rest == [Mark(123)] + (MemberTokens(v.members) + ([Mark(125)] + rest))
  {
  }

  lemma LineTabs(n: int)
    ensures Line(n) == [10] + Tabs(if n > 0 then n else 0)
  {
  }

  lemma EmptyObject(open: bytes, fmt: bool, after: bytes)
    ensures var gap := if fmt then Line(|open| - 1) else [];
            [123] + (gap + ([125] + after)) == Print(Object([]), |open|, fmt) + after
  {
    LineTabs(|open| - 1);
  }

  lemma FullObject(n: bytes, w: bytes, t: bytes, after: bytes)
    ensures [123] + (n + (w + (t + ([125] + after)))) == (((([123] + n) + w) + t) + [125]) + after
  {
  }

  /** The members of an object up to its closing brace. */
  lemma {:induction false} MembersLaid(members: seq<Member>, before: byte, open: bytes, rest: seq<Token>, fmt: bool)
    requires members != [] && open != [] && open[0] == 123 && (before == 123 || before == 44)
    ensures Rendered(MemberTokens(members) + ([Mark(125)] + rest), before, open, fmt) ==
            (if fmt then [10] else []) + (PrintMembers(members, |open|, fmt) + Closing(open, rest, fmt))
    decreases members, 1
  {
    var m := members[0];
    var after := Behind(members, [Mark(125)] + rest);
    TokensOfMembers(members, [Mark(125)] + rest);
    NameLaid(m, before, open, after, fmt);
    BehindLaid(members, open, rest, fmt);
    hide Rendered, Print, Closing, NamePrefix, MemberEnd;
    var n, w := if fmt then [10] else [], Print(m.value, |open|, fmt);
    var more := if |members| == 1 then [] else PrintMembers(members[1..], |open|, fmt);
    MemberJoin(n, NamePrefix(m.name, |open|, fmt), w, MemberEnd(|members| == 1, fmt), more, Closing(open, rest, fmt));
  }

  function Closing(open: bytes, rest: seq<Token>, fmt: bool): bytes
    requires open != []
  {
    FmtTabs(|open| - 1, fmt) + ([125] + Rendered(rest, 0, open[1..], fmt))
  }

  /** The tokens behind the first member. */
  function Behind(members: seq<Member>, tail: seq<Token>): seq<Token>
    requires members != []
  {
    if |members| == 1 then tail else [Mark(44)] + (MemberTokens(members[1..]) + tail)
  }

  lemma {:induction false} BehindLaid(members: seq<Member>, open: bytes, rest: seq<Token>, fmt: bool)
    requires members != [] && open != [] && open[0] == 123
    ensures Rendered(Behind(members, [Mark(125)] + rest), 0, open, fmt) ==
            MemberEnd(|members| == 1, fmt)
            + ((if |members| == 1 then [] else PrintMembers(members[1..], |open|, fmt)) + Closing(open, rest, fmt))
    decreases members, 0
  {
    hide Rendered, Print, Closing, PrintMembers, MemberTokens, MemberEnd;
    var end := Closing(open, rest, fmt);
    if |members| == 1 {
      ClosingLine(open, rest, fmt);
    } else {
      var tail := MemberTokens(members[1..]) + ([Mark(125)] + rest);
      BareToken(Mark(44), tail, 0, open, fmt);
      MembersLaid(members[1..], 44, open, rest, fmt);
      CommaJoin(fmt, PrintMembers(members[1..], |open|, fmt), end);
    }
  }

  lemma CommaJoin(fmt: bool, more: bytes, end: bytes)
    ensures [44] + ((if fmt then [10] else []) + (more + end)) == MemberEnd(false, fmt) + (more + end)
  {
  }

  lemma TokensOfMembers(members: seq<Member>, tail: seq<Token>)
    requires members != []
    ensures MemberTokens(members) + tail ==
            [Atom(Quoted(members[0].name))] + ([Mark(58)] + (Tokens(members[0].value) + Behind(members, tail)))
  {
    hide Tokens, Quoted;
    var first := [Atom(Quoted(members[0].name)), Mark(58)] + Tokens(members[0].value);
    NameJoin(Quoted(members[0].name), Tokens(members[0].value), Behind(members, tail));
    if |members| > 1 {
      TokenJoin(first, MemberTokens(members[1..]), tail);
    }
  }

  lemma NameJoin(name: bytes, value: seq<Token>, behind: seq<Token>)
    ensures ([Atom(name), Mark(58)] + value) + behind == [Atom(name)] + ([Mark(58)] + (value + behind))
  {
  }

  /** The line, the indentation, the name, its colon and the tab. */
  lemma {:induction false} NameLaid(m: Member, before: byte, open: bytes, after: seq<Token>, fmt: bool)
    requires open != [] && open[0] == 123 && (before == 123 || before == 44)
    ensures Rendered([Atom(Quoted(m.name))] + ([Mark(58)] + (Tokens(m.value) + after)), before, open, fmt) ==
            (if fmt then [10] else []) + (NamePrefix(m.name, |open|, fmt)
            + (Print(m.value, |open|, fmt) + Rendered(after, 0, open, fmt)))
    decreases m, 2
  {
    hide Rendered, Tokens, Quoted, Print;
    OneToken(Atom(Quoted(m.name)), [Mark(58)] + (Tokens(m.value) + after), before, open, fmt);
    BareToken(Mark(58), Tokens(m.value) + after, 0, open, fmt);
    ValueLaid(m.value, 58, open, after, fmt);
    LineTabs(|open|);
    var n := if fmt then [10] else [];
    var b := if fmt then [9] else [];
    PrefixJoin(n, FmtTabs(|open|, fmt), Quoted(m.name), b, Print(m.value, |open|, fmt) + Rendered(after, 0, open, fmt));
  }

  lemma PrefixJoin(n: bytes, t: bytes, q: bytes, b: bytes, w: bytes)
    ensures (n + t) + (q + ([58] + (b + w))) == n + ((((t + q) + [58]) + b) + w)
  {
  }

  lemma ClosingLine(open: bytes, rest: seq<Token>, fmt: bool)
    requires open != []
    ensures Rendered([Mark(125)] + rest, 0, open, fmt) == MemberEnd(true, fmt) + ([] + Closing(open, rest, fmt))
  {
    hide Rendered;
    OneToken(Mark(125), rest, 0, open, fmt);
    LineTabs(|open| - 1);
  }

  lemma MemberJoin(n: bytes, prefix: bytes, w: bytes, sep: bytes, more: bytes, end: bytes)
    ensures n + (prefix + (w + (sep + (more + end)))) == n + ((((prefix + w) + sep) + more) + end)
  {
  }

  /** Printed text is the tokens of the value, with these blanks or with none. */
  lemma PrintedLayout(v: Value, fmt: bool)
    ensures Print(v, 0, fmt) == Rendered(Tokens(v), 0, [], fmt)
  {
    ValueLaid(v, 0, [], [], fmt);
    assert Tokens(v) + [] == Tokens(v);
  }
}
