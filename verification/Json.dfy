/** The text format of cJSON: what its parser accepts and what its printers produce. */
module Json {
  import opened CText
  import opened StringCodec

  /** A number is m * 10^e exactly; e is zero for the integers the printer is modelled on. */
  datatype Value =
    | Null
    | False
    | True
    | Number(m: int, e: int)
    | String(text: bytes)
    | Array(items: seq<Value>)
    | Object(members: seq<Member>)

  datatype Member = Member(name: bytes, value: Value)

  const NULL_TEXT: bytes := [110, 117, 108, 108]
  const FALSE_TEXT: bytes := [102, 97, 108, 115, 101]
  const TRUE_TEXT: bytes := [116, 114, 117, 101]
  const OPEN_BRACKET: byte := 91
  const CLOSE_BRACKET: byte := 93
  const OPEN_BRACE: byte := 123
  const CLOSE_BRACE: byte := 125

  // ---------------------------------------------------------------- parsing

  /** skip: blanks and control characters. */
  function Skip(s: bytes, i: nat): (j: nat)
    ensures i <= j && (i <= |s| ==> j <= |s|)
    ensures At(s, j) == 0 || At(s, j) > 32
    decreases if i < |s| then |s| - i else 0
  {
    if At(s, i) != 0 && At(s, i) <= 32 then Skip(s, i + 1) else i
  }

  /** Where parse_number stands after the sign and a leading zero. */
  function IntegerStart(s: bytes, i: nat): nat {
    var a := if At(s, i) == MINUS then i + 1 else i;
    if At(s, a) == ZERO then a + 1 else a
  }

  function IntegerEnd(s: bytes, i: nat): nat {
    var b := IntegerStart(s, i);
    if ZERO < At(s, b) <= NINE then RunEnd(s, b) else b
  }

  function FractionEnd(s: bytes, c: nat): nat {
    if At(s, c) == DOT && Digit(At(s, c + 1)) then RunEnd(s, c + 1) else c
  }

  predicate ExponentMark(c: byte) { c == 101 || c == 69 }

  function ExponentStart(s: bytes, d: nat): nat {
    if At(s, d + 1) == PLUS || At(s, d + 1) == MINUS then d + 2 else d + 1
  }

  /** parse_number, with the decimal kept exact. */
  function ParseNumber(s: bytes, i: nat): (r: Parse<Value>)
    requires i <= |s|
    ensures r.Ok? && r.value.Number? && i <= r.end <= |s|
    ensures At(s, i) == MINUS || Digit(At(s, i)) ==> i < r.end
  {
    var b := IntegerStart(s, i);
    var c := IntegerEnd(s, i);
    var n := RunValue(0, s, b, c);
    var d := FractionEnd(s, c);
    var n2 := if d > c then RunValue(n, s, c + 1, d) else n;
    var scale: int := if d > c then c + 1 - d else 0;
    var m := if At(s, i) == MINUS then -n2 else n2;
    if ExponentMark(At(s, d)) then
      var f := ExponentStart(s, d);
      var g := RunEnd(s, f);
      var sub: int := RunValue(0, s, f, g);
      Ok(Number(m, scale + if At(s, d + 1) == MINUS then -sub else sub), g)
    else
      Ok(Number(m, scale), d)
  }

  /** The exponent fits the int that parse_number adds it up in. */
  predicate ExponentFits(s: bytes, i: nat)
    requires i <= |s|
  {
    var d := FractionEnd(s, IntegerEnd(s, i));
    ExponentMark(At(s, d)) ==>
      var f := ExponentStart(s, d);
      RunValue(0, s, f, RunEnd(s, f)) <= INT_MAX
  }

  /** parse_value */
  function ParseValue(s: bytes, i: nat): (r: Parse<Value>)
    requires i <= |s|
    ensures r.Ok? ==> i < r.end <= |s|
    decreases |s| - i, 0
  {
    if Has(s, i, NULL_TEXT) then Ok(Null, i + 4)
    else if Has(s, i, FALSE_TEXT) then Ok(False, i + 5)
    else if Has(s, i, TRUE_TEXT) then Ok(True, i + 4)
    else if At(s, i) == QUOTE then
      match ParseString(s, i)
      case Ok(t, e) => Ok(String(t), e)
      case Fail(at) => Fail(at)
      case Broken => Broken
    else if At(s, i) == MINUS || Digit(At(s, i)) then
      if ExponentFits(s, i) then ParseNumber(s, i) else Broken
    else if At(s, i) == OPEN_BRACKET then
      var j := Skip(s, i + 1);
      if At(s, j) == CLOSE_BRACKET then Ok(Array([]), j + 1)
      else
        match ParseItems(s, j)
        case Ok(items, e) => Ok(Array(items), e)
        case Fail(at) => Fail(at)
        case Broken => Broken
    else if At(s, i) == OPEN_BRACE then
      var j := Skip(s, i + 1);
      if At(s, j) == CLOSE_BRACE then Ok(Object([]), j + 1)
      else
        match ParseMembers(s, j)
        case Ok(members, e) => Ok(Object(members), e)
        case Fail(at) => Fail(at)
        case Broken => Broken
    else Fail(i)
  }

  /** The items of an array, from the first of them to the closing bracket. */
  function ParseItems(s: bytes, i: nat): (r: Parse<seq<Value>>)
    requires i <= |s|
    ensures r.Ok? ==> i < r.end <= |s| && r.value != []
    decreases |s| - i, 1
  {
    match ParseValue(s, Skip(s, i))
    case Fail(at) => Fail(at)
    case Broken => Broken
    case Ok(v, e) =>
      var j := Skip(s, e);
      if At(s, j) == COMMA then
        match ParseItems(s, j + 1)
        case Ok(rest, e') => Ok([v] + rest, e')
        case Fail(at) => Fail(at)
        case Broken => Broken
      else if At(s, j) == CLOSE_BRACKET then Ok([v], j + 1)
      else Fail(j)
  }

  /** One name, colon and value. */
  function ParseMember(s: bytes, i: nat): (r: Parse<Member>)
    requires i <= |s|
    ensures r.Ok? ==> i < r.end <= |s|
    decreases |s| - i, 1
  {
    match ParseString(s, Skip(s, i))
    case Fail(at) => Fail(at)
    case Broken => Broken
    case Ok(name, e) =>
      var j := Skip(s, e);
      if At(s, j) != COLON then Fail(j)
      else
        match ParseValue(s, Skip(s, j + 1))
        case Fail(at) => Fail(at)
        case Broken => Broken
        case Ok(v, e') => Ok(Member(name, v), e')
  }

  /** The members of an object, from the first of them to the closing brace. */
  function ParseMembers(s: bytes, i: nat): (r: Parse<seq<Member>>)
    requires i <= |s|
    ensures r.Ok? ==> i < r.end <= |s| && r.value != []
    decreases |s| - i, 2
  {
    match ParseMember(s, i)
    case Fail(at) => Fail(at)
    case Broken => Broken
    case Ok(m, e) =>
      var j := Skip(s, e);
      if At(s, j) == COMMA then
        match ParseMembers(s, j + 1)
        case Ok(rest, e') => Ok([m] + rest, e')
        case Fail(at) => Fail(at)
        case Broken => Broken
      else if At(s, j) == CLOSE_BRACE then Ok([m], j + 1)
      else Fail(j)
  }

  lemma ItemsLast(s: bytes, i: nat, items: seq<Value>, e: nat)
    requires |items| == 1 && i <= |s| && ParseValue(s, Skip(s, i)) == Ok(items[0], e)
    requires At(s, Skip(s, e)) == CLOSE_BRACKET
    ensures ParseItems(s, i) == Ok(items, Skip(s, e) + 1)
  {
    assert items == [items[0]];
  }

  lemma ItemsMore(s: bytes, i: nat, items: seq<Value>, e: nat, end: nat)
    requires |items| > 1 && i <= |s| && ParseValue(s, Skip(s, i)) == Ok(items[0], e)
    requires At(s, Skip(s, e)) == COMMA && ParseItems(s, Skip(s, e) + 1) == Ok(items[1..], end)
    ensures ParseItems(s, i) == Ok(items, end)
  {
    hide ParseValue, Skip;
    assert items == [items[0]] + items[1..];
  }

  lemma MemberParts(s: bytes, i: nat, m: Member, e: nat, end: nat)
    requires i <= |s| && ParseString(s, Skip(s, i)) == Ok(m.name, e) && At(s, Skip(s, e)) == COLON
    requires ParseValue(s, Skip(s, Skip(s, e) + 1)) == Ok(m.value, end)
    ensures ParseMember(s, i) == Ok(m, end)
  {
  }

  lemma MembersLast(s: bytes, i: nat, members: seq<Member>, e: nat)
    requires |members| == 1 && i <= |s| && ParseMember(s, i) == Ok(members[0], e)
    requires At(s, Skip(s, e)) == CLOSE_BRACE
    ensures ParseMembers(s, i) == Ok(members, Skip(s, e) + 1)
  {
    assert members == [members[0]];
  }

  lemma MembersMore(s: bytes, i: nat, members: seq<Member>, e: nat, end: nat)
    requires |members| > 1 && i <= |s| && ParseMember(s, i) == Ok(members[0], e)
    requires At(s, Skip(s, e)) == COMMA && ParseMembers(s, Skip(s, e) + 1) == Ok(members[1..], end)
    ensures ParseMembers(s, i) == Ok(members, end)
  {
    hide ParseMember, Skip;
    assert members == [members[0]] + members[1..];
  }

  lemma ObjectOf(s: bytes, i: nat, members: seq<Member>, end: nat)
    requires i < |s| && s[i] == OPEN_BRACE && At(s, Skip(s, i + 1)) != CLOSE_BRACE
    requires ParseMembers(s, Skip(s, i + 1)) == Ok(members, end)
    ensures ParseValue(s, i) == Ok(Object(members), end)
  {
  }

  lemma ArrayOf(s: bytes, i: nat, items: seq<Value>, end: nat)
    requires i < |s| && s[i] == OPEN_BRACKET && At(s, Skip(s, i + 1)) != CLOSE_BRACKET
    requires ParseItems(s, Skip(s, i + 1)) == Ok(items, end)
    ensures ParseValue(s, i) == Ok(Array(items), end)
  {
  }

  /** cJSON_ParseWithOpts */
  function ParseText(s: bytes, requireTerminated: bool): (r: Parse<Value>)
    ensures r.Ok? ==> r.end <= |s|
  {
    match ParseValue(s, Skip(s, 0))
    case Ok(v, e) =>
      if !requireTerminated then Ok(v, e)
      else if At(s, Skip(s, e)) != 0 then Fail(Skip(s, e))
      else Ok(v, Skip(s, e))
    case other => other
  }

  // ---------------------------------------------------------------- printing

  function Tabs(n: nat): (w: bytes)
    ensures |w| == n && forall k :: 0 <= k < n ==> w[k] == TAB
  {
    seq(n, _ => TAB)
  }

  /** The tabs in front of a formatted line. */
  function FmtTabs(n: nat, fmt: bool): bytes { if fmt then Tabs(n) else [] }

  /** The text of an item; depth is the nesting the C function is called with. */
  function Print(v: Value, depth: nat, fmt: bool): (w: bytes)
    decreases v
  {
    match v
    case Null => NULL_TEXT
    case False => FALSE_TEXT
    case True => TRUE_TEXT
    case Number(m, _) => Decimal(m)
    case String(t) => Quoted(t)
    case Array(items) =>
      if items == [] then [OPEN_BRACKET, CLOSE_BRACKET]
      else [OPEN_BRACKET] + PrintItems(items, depth + 1, fmt) + [CLOSE_BRACKET]
    case Object(members) =>
      if members == [] then
        [OPEN_BRACE] + (if fmt then [NEWLINE] + Tabs(if depth > 0 then depth - 1 else 0) else []) + [CLOSE_BRACE]
      else
        [OPEN_BRACE] + (if fmt then [NEWLINE] else []) + PrintMembers(members, depth + 1, fmt)
        + FmtTabs(depth, fmt) + [CLOSE_BRACE]
  }

  function ItemSeparator(fmt: bool): bytes { if fmt then [COMMA, SPACE] else [COMMA] }

  function PrintItems(items: seq<Value>, depth: nat, fmt: bool): bytes
    requires items != []
    decreases items
  {
    Print(items[0], depth, fmt)
    + if |items| > 1 then ItemSeparator(fmt) + PrintItems(items[1..], depth, fmt) else []
  }

  function NamePrefix(name: bytes, depth: nat, fmt: bool): bytes {
    FmtTabs(depth, fmt) + Quoted(name) + [COLON] + (if fmt then [TAB] else [])
  }

  function MemberEnd(last: bool, fmt: bool): bytes {
    (if last then [] else [COMMA]) + (if fmt then [NEWLINE] else [])
  }

  function PrintMembers(members: seq<Member>, depth: nat, fmt: bool): bytes
    requires members != []
    decreases members
  {
    NamePrefix(members[0].name, depth, fmt) + Print(members[0].value, depth, fmt)
    + MemberEnd(|members| == 1, fmt)
    + if |members| > 1 then PrintMembers(members[1..], depth, fmt) else []
  }

  /** The values the printers and parser share: 32-bit integers and NUL-free strings. */
  predicate Printable(v: Value)
    decreases v
  {
    match v
    case Number(m, e) => e == 0 && -0x8000_0000 <= m < 0x8000_0000
    case String(t) => NulFree(t)
    case Array(items) => forall x :: x in items ==> Printable(x)
    case Object(members) => forall x :: x in members ==> NulFree(x.name) && Printable(x.value)
    case _ => true
  }
}
