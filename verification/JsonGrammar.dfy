/** JSON texts as trees with blanks between all tokens: the parser accepts these and no others. */
module JsonGrammar {
  import opened CText
  import opened StringCodec
  import opened Json
  import opened JsonRoundTrip

  // ---------------------------------------------------------------- texts

  /** A value as it is written. A string is kept with what it denotes; the blanks `inner` stand between
      the brackets of an empty array or object. */
  datatype Syntax =
    | Word(v: Value)
    | Num(n: NumberText)
    | Str(literal: bytes, text: bytes)
    | Arr(inner: bytes, items: seq<Element>)
    | Obj(inner: bytes, entries: seq<Entry>)

  /** An item with the blanks around it. */
  datatype Element = Element(before: bytes, value: Syntax, after: bytes)

  /** A member: a name and a value, with blanks around both. */
  datatype Entry = Entry(before: bytes, literal: bytes, name: bytes, gap: bytes, item: Element)

  predicate AllBlank(w: bytes) {
    forall k :: 0 <= k < |w| ==> 1 <= w[k] <= 32
  }

  predicate Valid(d: Syntax)
    decreases d
  {
    match d
    case Word(v) => v.Null? || v.True? || v.False?
    case Num(n) => n.Valid() && SmallExponent(n)
    case Str(_, _) => true
    case Arr(inner, items) => AllBlank(inner) && ValidItems(items)
    case Obj(inner, entries) => AllBlank(inner) && ValidEntries(entries)
  }

  predicate ValidElement(x: Element)
    decreases x
  {
    AllBlank(x.before) && Valid(x.value) && AllBlank(x.after)
  }

  predicate ValidItems(xs: seq<Element>)
    decreases xs
  {
    xs == [] || (ValidElement(xs[0]) && ValidItems(xs[1..]))
  }

  predicate ValidEntries(xs: seq<Entry>)
    decreases xs
  {
    xs == [] || (AllBlank(xs[0].before) && AllBlank(xs[0].gap) && ValidElement(xs[0].item) && ValidEntries(xs[1..]))
  }

  /** The bytes of null, true and false. */
  function WordText(v: Value): bytes {
    if v.Null? then [110, 117, 108, 108] else if v.True? then [116, 114, 117, 101] else [102, 97, 108, 115, 101]
  }

  function Text(d: Syntax): bytes
    decreases d
  {
    match d
    case Word(v) => WordText(v)
    case Num(n) => n.Text()
    case Str(literal, _) => literal
    case Arr(inner, items) => if items == [] then [91] + (inner + [93]) else [91] + (ItemsText(items) + [93])
    case Obj(inner, entries) =>
      if entries == [] then [123] + (inner + [125]) else [123] + (EntriesText(entries) + [125])
  }

  function ElementText(x: Element): bytes
    decreases x
  {
    x.before + (Text(x.value) + x.after)
  }

  function ItemsText(xs: seq<Element>): bytes
    requires xs != []
    decreases xs
  {
    if |xs| == 1 then ElementText(xs[0]) else ElementText(xs[0]) + ([44] + ItemsText(xs[1..]))
  }

  function EntryText(x: Entry): bytes
    decreases x
  {
    x.before + (x.literal + (x.gap + ([58] + ElementText(x.item))))
  }

  function EntriesText(xs: seq<Entry>): bytes
    requires xs != []
    decreases xs
  {
    if |xs| == 1 then EntryText(xs[0]) else EntryText(xs[0]) + ([44] + EntriesText(xs[1..]))
  }

  /** What a text means. */
  function Meant(d: Syntax): Value
    decreases d
  {
    match d
    case Word(v) => v
    case Num(n) => if n.Valid() then Number(n.Mantissa(), n.Power()) else Null
    case Str(_, text) => String(text)
    case Arr(_, items) => Array(ItemsMeant(items))
    case Obj(_, entries) => Object(EntriesMeant(entries))
  }

  function ItemsMeant(xs: seq<Element>): (vs: seq<Value>)
    ensures |vs| == |xs|
    decreases xs
  {
    if xs == [] then [] else [Meant(xs[0].value)] + ItemsMeant(xs[1..])
  }

  function EntriesMeant(xs: seq<Entry>): (ms: seq<Member>)
    ensures |ms| == |xs|
    decreases xs
  {
    if xs == [] then [] else [Member(xs[0].name, Meant(xs[0].item.value))] + EntriesMeant(xs[1..])
  }

  /** Of the text of d at i: its literals are read as what they denote, and its numbers are not
      prolonged by what follows. */
  predicate Leaves(d: Syntax, s: bytes, i: nat)
    decreases d
  {
    match d
    case Word(_) => true
    case Num(n) => n.Stops(s, i + |n.Text()|)
    case Str(literal, text) => ParseString(s, i) == Ok(text, i + |literal|)
    case Arr(_, items) => ItemsLeaves(items, s, i + 1)
    case Obj(_, entries) => EntriesLeaves(entries, s, i + 1)
  }

  predicate ItemsLeaves(xs: seq<Element>, s: bytes, i: nat)
    decreases xs
  {
    xs == [] || (
      && Leaves(xs[0].value, s, i + |xs[0].before|)
      && ItemsLeaves(xs[1..], s, i + |ElementText(xs[0])| + 1))
  }

  predicate EntryLeaves(x: Entry, s: bytes, i: nat)
    decreases x
  {
    var p := i + |x.before|;
    && ParseString(s, p) == Ok(x.name, p + |x.literal|)
    && Leaves(x.item.value, s, p + |x.literal| + |x.gap| + 1 + |x.item.before|)
  }

  predicate EntriesLeaves(xs: seq<Entry>, s: bytes, i: nat)
    decreases xs
  {
    xs == [] || (EntryLeaves(xs[0], s, i) && EntriesLeaves(xs[1..], s, i + |EntryText(xs[0])| + 1))
  }

  /** The tree d is written at position i of s. */
  predicate Stands(d: Syntax, s: bytes, i: nat) {
    Valid(d) && Has(s, i, Text(d)) && Leaves(d, s, i)
  }

  /** An item is written at i. */
  ghost predicate ElementFits(x: Element, s: bytes, i: nat) {
    ValidElement(x) && Has(s, i, ElementText(x)) && Leaves(x.value, s, i + |x.before|)
  }

  ghost predicate EntryFits(x: Entry, s: bytes, i: nat) {
    && AllBlank(x.before) && AllBlank(x.gap) && ValidElement(x.item)
    && Has(s, i, EntryText(x)) && EntryLeaves(x, s, i)
  }

  /** The items xs, commas between them and a bracket behind them are written at i. */
  ghost predicate ItemsStand(xs: seq<Element>, s: bytes, i: nat) {
    xs != [] && ValidItems(xs) && Has(s, i, ItemsText(xs) + [93]) && ItemsLeaves(xs, s, i)
  }

  ghost predicate EntriesStand(xs: seq<Entry>, s: bytes, i: nat) {
    xs != [] && ValidEntries(xs) && Has(s, i, EntriesText(xs) + [125]) && EntriesLeaves(xs, s, i)
  }

  /** The position behind the bracket or brace. */
  ghost function ItemsEnd(xs: seq<Element>, i: nat): nat { if xs == [] then i else i + |ItemsText(xs)| + 1 }

  ghost function EntriesEnd(xs: seq<Entry>, i: nat): nat { if xs == [] then i else i + |EntriesText(xs)| + 1 }

  // ---------------------------------------------------------------- what stands there is read

  predicate Starts(c: byte) {
    c == 110 || c == 102 || c == 116 || c == QUOTE || c == MINUS || Digit(c) || c == 91 || c == 123
  }

  lemma TextStarts(d: Syntax, s: bytes, i: nat)
    requires Stands(d, s, i)
    ensures Starts(At(s, i)) && i < |s|
  {
    match d
    case Word(v) => FirstByte(s, i, WordText(v));
    case Num(n) => NumberFirst(n, s, i);
    case Str(_, _) =>
    case Arr(_, _) => FirstByte(s, i, Text(d));
    case Obj(_, _) => FirstByte(s, i, Text(d));
  }

  lemma SkipTo(s: bytes, i: nat, w: bytes)
    requires Has(s, i, w) && AllBlank(w) && (At(s, i + |w|) == 0 || At(s, i + |w|) > 32)
    ensures Skip(s, i) == i + |w|
  {
    SkipText(s, i, w);
    SkipNothing(s, i + |w|);
  }

  lemma {:induction false} ValueStands(d: Syntax, s: bytes, i: nat)
    requires Stands(d, s, i)
    ensures ParseValue(s, i) == Ok(Meant(d), i + |Text(d)|)
    decreases d, 1
  {
    hide Has;
    OnlyWord(s, i);
    match d
    case Word(v) => WordStands(v, s, i);
    case Num(n) => NumberRead(n, s, i);
    case Str(_, _) =>
    case Arr(_, _) => ArrayStands(d, s, i);
    case Obj(_, _) => ObjectStands(d, s, i);
  }

  lemma WordStands(v: Value, s: bytes, i: nat)
    requires (v.Null? || v.True? || v.False?) && Has(s, i, WordText(v))
    ensures ParseValue(s, i) == Ok(v, i + |WordText(v)|)
  {
    FirstByte(s, i, WordText(v));
    OnlyWord(s, i);
  }

  lemma {:induction false} ArrayStands(d: Syntax, s: bytes, i: nat)
    requires d.Arr? && Stands(d, s, i)
    ensures ParseValue(s, i) == Ok(Meant(d), i + |Text(d)|)
    decreases d, 0
  {
    hide Has, ParseItems, ItemsText;
    OnlyWord(s, i);
    FirstByte(s, i, Text(d));
    var inner := if d.items == [] then d.inner else ItemsText(d.items);
    HasSplit(s, i, [91], inner + [93]);
    if d.items == [] {
      HasSplit(s, i + 1, inner, [93]);
      FirstByte(s, i + 1 + |inner|, [93]);
      SkipTo(s, i + 1, inner);
    } else {
      ItemsParts(d.items, s, i + 1);
      ItemsRead(d.items, s, i + 1);
      SkipItems(s, i + 1, Skip(s, i + 1));
      ArrayOf(s, i, ItemsMeant(d.items), i + |Text(d)|);
    }
  }

  /** Where the parts of a list of items stand. */
  lemma ItemsParts(xs: seq<Element>, s: bytes, i: nat)
    requires ItemsStand(xs, s, i)
    ensures ElementStands(xs[0], s, i)
    ensures var j := i + |ElementText(xs[0])|;
            if |xs| == 1 then At(s, j) == 93 && ItemsEnd(xs, i) == j + 1
            else At(s, j) == 44 && ItemsStand(xs[1..], s, j + 1) && ItemsEnd(xs, i) == ItemsEnd(xs[1..], j + 1)
    ensures ItemsMeant(xs) == [Meant(xs[0].value)] + ItemsMeant(xs[1..]) && (|xs| == 1 ==> ItemsMeant(xs[1..]) == [])
  {
    hide Has, Leaves, Text, Valid, ElementStands;
    var x := xs[0];
    var rest := if |xs| == 1 then [93] else [44] + (ItemsText(xs[1..]) + [93]);
    assert ItemsText(xs) + [93] == ElementText(x) + rest by {
      if |xs| > 1 {
        Regroup(ElementText(x), [44], ItemsText(xs[1..]), [93]);
      }
    }
    HasSplit(s, i, ElementText(x), rest);
    FirstByte(s, i + |ElementText(x)|, rest);
    ElementParts(x, s, i);
    if |xs| > 1 {
      HasSplit(s, i + |ElementText(x)|, [44], ItemsText(xs[1..]) + [93]);
    }
  }

  /** The parser's positions at an item. */
  ghost predicate ElementStands(x: Element, s: bytes, i: nat) {
    var p := i + |x.before|;
    var e := p + |Text(x.value)|;
    && Skip(s, i) == p && Skip(s, p) == p && Stands(x.value, s, p) && Starts(At(s, p))
    && Skip(s, e) == e + |x.after| == i + |ElementText(x)|
  }

  predicate NonBlank(c: byte) { c == 0 || c > 32 }

  /** Where the parts of an item stand. */
  lemma ElementParts(x: Element, s: bytes, i: nat)
    requires ElementFits(x, s, i) && NonBlank(At(s, i + |ElementText(x)|))
    ensures ElementStands(x, s, i)
  {
    hide Has, Leaves, Text, Valid;
    var w, p := Text(x.value), i + |x.before|;
    HasSplit(s, i, x.before, w + x.after);
    HasSplit(s, p, w, x.after);
    TextStarts(x.value, s, p);
    SkipTo(s, i, x.before);
    SkipNothing(s, p);
    SkipTo(s, p + |w|, x.after);
  }

  lemma {:induction false} ItemsRead(xs: seq<Element>, s: bytes, i: nat)
    requires ItemsStand(xs, s, i)
    ensures ParseItems(s, i) == Ok(ItemsMeant(xs), ItemsEnd(xs, i))
    decreases xs, 0
  {
    hide *;
    ItemsParts(xs, s, i);
    var e := ElementRead(xs[0], s, i);
    var j := i + |ElementText(xs[0])|;
    if |xs| > 1 {
      ItemsRead(xs[1..], s, j + 1);
    }
    var vs := ItemsMeant(xs);
    assert vs[0] == Meant(xs[0].value) && vs[1..] == ItemsMeant(xs[1..]);
    ItemsJoin(vs, s, i, e, j, ItemsEnd(xs, i));
  }

  /** An item that ends at e, and what follows it at j. */
  lemma ItemsJoin(vs: seq<Value>, s: bytes, i: nat, e: nat, j: nat, end: nat)
    requires vs != [] && i <= |s| && ParseValue(s, Skip(s, i)) == Ok(vs[0], e) && Skip(s, e) == j
    requires if |vs| == 1 then At(s, j) == 93 && end == j + 1
             else At(s, j) == 44 && ParseItems(s, j + 1) == Ok(vs[1..], end)
    ensures ParseItems(s, i) == Ok(vs, end)
  {
    hide ParseItems, ParseValue, Skip, At;
    if |vs| == 1 {
      ItemsLast(s, i, vs, e);
    } else {
      ItemsMore(s, i, vs, e, end);
    }
  }

  lemma {:induction false} ElementRead(x: Element, s: bytes, i: nat) returns (e: nat)
    requires ElementStands(x, s, i)
    ensures i <= |s| && ParseValue(s, Skip(s, i)) == Ok(Meant(x.value), e) && Skip(s, e) == i + |ElementText(x)|
    decreases x, 0
  {
    hide Has, ParseValue, Text, Skip, Meant, Stands, ElementText;
    var p := i + |x.before|;
    ValueStands(x.value, s, p);
    e := p + |Text(x.value)|;
    WithinText(s, p, Text(x.value));
  }

  lemma Slice(s: bytes, a: nat, b: nat) returns (w: bytes)
    requires a <= b <= |s|
    ensures |w| == b - a && Has(s, a, w)
  {
    w := s[a..b];
    SliceStands(s, a, b);
  }

  lemma WithinText(s: bytes, p: nat, w: bytes)
    ensures Has(s, p, w) ==> p <= |s|
  {
  }

  lemma {:induction false} ObjectStands(d: Syntax, s: bytes, i: nat)
    requires d.Obj? && Stands(d, s, i)
    ensures ParseValue(s, i) == Ok(Meant(d), i + |Text(d)|)
    decreases d, 0
  {
    hide Has, ParseMembers, EntriesText;
    OnlyWord(s, i);
    FirstByte(s, i, Text(d));
    var inner := if d.entries == [] then d.inner else EntriesText(d.entries);
    HasSplit(s, i, [123], inner + [125]);
    if d.entries == [] {
      HasSplit(s, i + 1, inner, [125]);
      FirstByte(s, i + 1 + |inner|, [125]);
      SkipTo(s, i + 1, inner);
    } else {
      EntriesParts(d.entries, s, i + 1);
      EntriesRead(d.entries, s, i + 1);
      SkipMembers(s, i + 1, Skip(s, i + 1));
      ObjectOf(s, i, EntriesMeant(d.entries), i + |Text(d)|);
    }
  }

  /** Where the members of an object stand. */
  lemma EntriesParts(xs: seq<Entry>, s: bytes, i: nat)
    requires EntriesStand(xs, s, i)
    ensures EntryStands(xs[0], s, i) && At(s, Skip(s, i)) == QUOTE
    ensures var e := i + |EntryText(xs[0])|;
            && Skip(s, e) == e
            && if |xs| == 1 then At(s, e) == 125 && EntriesEnd(xs, i) == e + 1
               else At(s, e) == 44 && EntriesStand(xs[1..], s, e + 1) && EntriesEnd(xs, i) == EntriesEnd(xs[1..], e + 1)
    ensures EntriesMeant(xs) == [Member(xs[0].name, Meant(xs[0].item.value))] + EntriesMeant(xs[1..])
    ensures |xs| == 1 ==> EntriesMeant(xs[1..]) == []
  {
    hide Has, Leaves, Text, Valid, EntryStands;
    var x := xs[0];
    var rest := if |xs| == 1 then [125] else [44] + (EntriesText(xs[1..]) + [125]);
    assert EntriesText(xs) + [125] == EntryText(x) + rest by {
      if |xs| > 1 {
        Regroup(EntryText(x), [44], EntriesText(xs[1..]), [125]);
      }
    }
    var e := i + |EntryText(x)|;
    HasSplit(s, i, EntryText(x), rest);
    FirstByte(s, e, rest);
    EntryParts(x, s, i);
    SkipNothing(s, e);
    if |xs| > 1 {
      HasSplit(s, e, [44], EntriesText(xs[1..]) + [125]);
    }
  }

  /** The parser's positions within a member: its name, its colon and its value. */
  ghost predicate EntryStands(x: Entry, s: bytes, i: nat) {
    var p := i + |x.before|;
    var c := p + |x.literal| + |x.gap|;
    var v := c + 1 + |x.item.before|;
    var e := v + |Text(x.item.value)|;
    && Skip(s, i) == p && ParseString(s, p) == Ok(x.name, p + |x.literal|)
    && Skip(s, p + |x.literal|) == c && At(s, c) == COLON && c < |s|
    && Skip(s, c + 1) == v && Stands(x.item.value, s, v)
    && Skip(s, e) == e + |x.item.after| == i + |EntryText(x)|
  }

  lemma EntryParts(x: Entry, s: bytes, i: nat)
    requires EntryFits(x, s, i) && NonBlank(At(s, i + |EntryText(x)|))
    ensures EntryStands(x, s, i) && At(s, Skip(s, i)) == QUOTE
  {
    hide Has, Leaves, Text, Valid, ElementText;
    var tail := ElementText(x.item);
    var p := i + |x.before|;
    var c := p + |x.literal| + |x.gap|;
    HasSplit(s, i, x.before, x.literal + (x.gap + ([58] + tail)));
    HasSplit(s, p, x.literal, x.gap + ([58] + tail));
    HasSplit(s, p + |x.literal|, x.gap, [58] + tail);
    HasSplit(s, c, [58], tail);
    hide EntryText;
    FirstByte(s, c, [58]);
    SkipTo(s, i, x.before);
    SkipTo(s, p + |x.literal|, x.gap);
    ElementParts(x.item, s, c + 1);
  }

  lemma {:induction false} EntriesRead(xs: seq<Entry>, s: bytes, i: nat)
    requires EntriesStand(xs, s, i)
    ensures ParseMembers(s, i) == Ok(EntriesMeant(xs), EntriesEnd(xs, i))
    decreases xs, 0
  {
    hide *;
    EntriesParts(xs, s, i);
    var e := MemberRead(xs[0], s, i);
    var j := i + |EntryText(xs[0])|;
    if |xs| > 1 {
      EntriesRead(xs[1..], s, j + 1);
    }
    var ms := EntriesMeant(xs);
    assert ms[0] == Member(xs[0].name, Meant(xs[0].item.value)) && ms[1..] == EntriesMeant(xs[1..]);
    EntriesJoin(ms, s, i, e, j, EntriesEnd(xs, i));
  }

  /** A member that ends at e, and what follows it at j. */
  lemma EntriesJoin(ms: seq<Member>, s: bytes, i: nat, e: nat, j: nat, end: nat)
    requires ms != [] && i <= |s| && ParseMember(s, i) == Ok(ms[0], e) && Skip(s, e) == j
    requires if |ms| == 1 then At(s, j) == 125 && end == j + 1
             else At(s, j) == 44 && ParseMembers(s, j + 1) == Ok(ms[1..], end)
    ensures ParseMembers(s, i) == Ok(ms, end)
  {
    hide ParseMembers, ParseMember, Skip, At;
    if |ms| == 1 {
      MembersLast(s, i, ms, e);
    } else {
      MembersMore(s, i, ms, e, end);
    }
  }

  lemma {:induction false} MemberRead(x: Entry, s: bytes, i: nat) returns (e: nat)
    requires EntryStands(x, s, i)
    ensures i <= |s| && ParseMember(s, i) == Ok(Member(x.name, Meant(x.item.value)), e)
    ensures Skip(s, e) == i + |EntryText(x)|
    decreases x, 0
  {
    hide Has, ParseMember, ParseValue, Text, Skip, Meant, Stands, EntryText;
    var v := i + |x.before| + |x.literal| + |x.gap| + 1 + |x.item.before|;
    ValueStands(x.item.value, s, v);
    e := v + |Text(x.item.value)|;
    MemberParts(s, i, Member(x.name, Meant(x.item.value)), i + |x.before| + |x.literal|, e);
  }

  // ---------------------------------------------------------------- what is read stands there

  lemma BlankRun(s: bytes, i: nat) returns (w: bytes)
    requires i <= |s|
    ensures AllBlank(w) && Has(s, i, w) && Skip(s, i) == i + |w|
  {
    w := s[i..Skip(s, i)];
    SkipsBlanks(s, i);
    SliceStands(s, i, Skip(s, i));
    assert forall k :: 0 <= k < |w| ==> w[k] == At(s, i + k);
  }

  lemma {:induction false} SkipsBlanks(s: bytes, i: nat)
    requires i <= |s|
    ensures forall k :: i <= k < Skip(s, i) ==> 1 <= At(s, k) <= 32
    decreases |s| - i
  {
    if At(s, i) != 0 && At(s, i) <= 32 {
      SkipsBlanks(s, i + 1);
    }
  }

  lemma {:induction false} ValueFound(s: bytes, i: nat, v: Value, e: nat) returns (d: Syntax)
    requires i <= |s| && ParseValue(s, i) == Ok(v, e)
    ensures Stands(d, s, i) && Meant(d) == v && e == i + |Text(d)|
    decreases |s| - i, 0
  {
    hide Has, ParseValue, Stands, Meant, Text;
    var c := At(s, i);
    if c == QUOTE {
      d := StringFound(s, i, v, e);
    } else if c == MINUS || Digit(c) {
      d := NumberFound(s, i, v, e);
    } else if c == 91 {
      d := ArrayFound(s, i, v, e);
    } else if c == 123 {
      d := ObjectFound(s, i, v, e);
    } else {
      d := WordFound(s, i, v, e);
    }
  }

  lemma NumberFound(s: bytes, i: nat, v: Value, e: nat) returns (d: Syntax)
    requires i <= |s| && ParseValue(s, i) == Ok(v, e) && (At(s, i) == MINUS || Digit(At(s, i)))
    ensures Stands(d, s, i) && Meant(d) == v && e == i + |Text(d)|
  {
    hide Has, ParseValue, ParseNumber;
    var n := NumberStands(s, i);
    NumberRead(n, s, i);
    d := Num(n);
  }

  lemma WordFound(s: bytes, i: nat, v: Value, e: nat) returns (d: Syntax)
    requires i <= |s| && ParseValue(s, i) == Ok(v, e)
    requires var c := At(s, i); c != QUOTE && c != MINUS && !Digit(c) && c != 91 && c != 123
    ensures Stands(d, s, i) && Meant(d) == v && e == i + |Text(d)|
  {
    hide Has, ParseItems, ParseMembers, ParseNumber, ParseString, Skip;
    d := Word(v);
  }

  lemma StringFound(s: bytes, i: nat, v: Value, e: nat) returns (d: Syntax)
    requires i <= |s| && ParseValue(s, i) == Ok(v, e) && At(s, i) == QUOTE
    ensures Stands(d, s, i) && Meant(d) == v && e == i + |Text(d)|
  {
    hide ParseString;
    OnlyWord(s, i);
    d := Str(s[i..e], v.text);
    SliceStands(s, i, e);
  }

  lemma {:induction false} ArrayFound(s: bytes, i: nat, v: Value, e: nat) returns (d: Syntax)
    requires i < |s| && ParseValue(s, i) == Ok(v, e) && At(s, i) == 91
    ensures Stands(d, s, i) && Meant(d) == v && e == i + |Text(d)|
    decreases |s| - i, 0, 0
  {
    hide Has, ParseItems, Leaves, Valid, Text;
    OnlyWord(s, i);
    var j := Skip(s, i + 1);
    if At(s, j) == 93 {
      d := EmptyArray(s, i);
    } else {
      SkipItems(s, i + 1, j);
      var xs := ItemsFound(s, i + 1, v.items, e);
      d := FullArray(s, i, xs);
    }
  }

  lemma EmptyArray(s: bytes, i: nat) returns (d: Syntax)
    requires i < |s| && At(s, i) == 91 && At(s, Skip(s, i + 1)) == 93
    ensures Stands(d, s, i) && d.Arr? && d.items == [] && Skip(s, i + 1) + 1 == i + |Text(d)|
  {
    hide Has;
    var inner := BlankRun(s, i + 1);
    d := Arr(inner, []);
    ByteStands(s, i, 91);
    ByteStands(s, i + 1 + |inner|, 93);
    HasSplit(s, i + 1, inner, [93]);
    HasSplit(s, i, [91], inner + [93]);
    hide Stands;
    assert Valid(d);
    assert Leaves(d, s, i);
  }

  lemma FullArray(s: bytes, i: nat, xs: seq<Element>) returns (d: Syntax)
    requires At(s, i) == 91
    requires ItemsStand(xs, s, i + 1)
    ensures Stands(d, s, i) && d.Arr? && d.items == xs && i + |Text(d)| == ItemsEnd(xs, i + 1)
  {
    hide Has;
    d := Arr([], xs);
    ByteStands(s, i, 91);
    HasSplit(s, i, [91], ItemsText(xs) + [93]);
  }

  /** An item that ends at e1, and what is behind it at j. */
  lemma ItemsCase(s: bytes, i: nat, vs: seq<Value>, e: nat) returns (v: Value, rest: seq<Value>, e1: nat, j: nat)
    requires i <= |s| && ParseItems(s, i) == Ok(vs, e)
    ensures vs == [v] + rest && ParseValue(s, Skip(s, i)) == Ok(v, e1) && Skip(s, e1) == j && i <= j < |s|
    ensures if At(s, j) == 44 then ParseItems(s, j + 1) == Ok(rest, e) else At(s, j) == 93 && rest == [] && e == j + 1
  {
    hide ParseValue;
    e1 := ParseValue(s, Skip(s, i)).end;
    v, rest, j := vs[0], vs[1..], Skip(s, e1);
  }

  lemma {:induction false} ItemsFound(s: bytes, i: nat, vs: seq<Value>, e: nat) returns (xs: seq<Element>)
    requires i <= |s| && ParseItems(s, i) == Ok(vs, e)
    ensures ItemsStand(xs, s, i) && ItemsMeant(xs) == vs && e == ItemsEnd(xs, i)
    decreases |s| - i
  {
    hide *;
    var v, rest, e1, j := ItemsCase(s, i, vs, e);
    var x := ElementFound(s, i, v, e1);
    if At(s, j) == 44 {
      var ys := ItemsFound(s, j + 1, rest, e);
      xs := MoreItems(s, i, x, ys);
    } else {
      xs := OneItem(s, i, x);
    }
  }

  lemma OneItem(s: bytes, i: nat, x: Element) returns (xs: seq<Element>)
    requires ElementFits(x, s, i)
    requires At(s, i + |ElementText(x)|) == 93
    ensures ItemsStand(xs, s, i) && ItemsMeant(xs) == [Meant(x.value)] && ItemsEnd(xs, i) == i + |ElementText(x)| + 1
  {
    hide Has, Leaves, Valid, ElementText;
    xs := [x];
    ByteStands(s, i + |ElementText(x)|, 93);
    HasSplit(s, i, ElementText(x), [93]);
    assert xs[1..] == [];
    assert ValidItems(xs) && ItemsLeaves(xs, s, i);
  }

  lemma MoreItems(s: bytes, i: nat, x: Element, rest: seq<Element>) returns (xs: seq<Element>)
    requires ElementFits(x, s, i)
    requires At(s, i + |ElementText(x)|) == 44 && ItemsStand(rest, s, i + |ElementText(x)| + 1)
    ensures ItemsStand(xs, s, i) && ItemsMeant(xs) == [Meant(x.value)] + ItemsMeant(rest)
    ensures ItemsEnd(xs, i) == ItemsEnd(rest, i + |ElementText(x)| + 1)
  {
    hide Has, Leaves, Valid, ElementText;
    xs := [x] + rest;
    assert xs[1..] == rest;
    var j := i + |ElementText(x)|;
    ByteStands(s, j, 44);
    HasSplit(s, j, [44], ItemsText(rest) + [93]);
    HasSplit(s, i, ElementText(x), [44] + (ItemsText(rest) + [93]));
    Regroup(ElementText(x), [44], ItemsText(rest), [93]);
  }

  lemma {:induction false} ElementFound(s: bytes, i: nat, v: Value, e: nat) returns (x: Element)
    requires i <= |s| && ParseValue(s, Skip(s, i)) == Ok(v, e)
    ensures Skip(s, e) == i + |ElementText(x)| <= |s|
    ensures ElementFits(x, s, i) && Meant(x.value) == v
    decreases |s| - i, 1
  {
    hide Has, ParseValue, Leaves, Text, Meant, Valid, AllBlank, Skip;
    var before := BlankRun(s, i);
    var p := Skip(s, i);
    var d := ValueFound(s, p, v, e);
    WithinText(s, p, Text(d));
    HasEnd(s, p, Text(d));
    var after := BlankRun(s, e);
    x := Element(before, d, after);
    HasSplit(s, p, Text(d), after);
    HasSplit(s, i, before, Text(d) + after);
    HasEnd(s, i, ElementText(x));
  }

  lemma HasEnd(s: bytes, p: nat, w: bytes)
    requires Has(s, p, w)
    ensures p + |w| <= |s|
  {
  }

  lemma {:induction false} ObjectFound(s: bytes, i: nat, v: Value, e: nat) returns (d: Syntax)
    requires i < |s| && ParseValue(s, i) == Ok(v, e) && At(s, i) == 123
    ensures Stands(d, s, i) && Meant(d) == v && e == i + |Text(d)|
    decreases |s| - i, 0, 0
  {
    hide Has, ParseMembers, Leaves, Valid, Text;
    OnlyWord(s, i);
    var j := Skip(s, i + 1);
    if At(s, j) == 125 {
      d := EmptyObject(s, i);
    } else {
      SkipMembers(s, i + 1, j);
      var xs := EntriesFound(s, i + 1, v.members, e);
      d := FullObject(s, i, xs);
    }
  }

  lemma EmptyObject(s: bytes, i: nat) returns (d: Syntax)
    requires i < |s| && At(s, i) == 123 && At(s, Skip(s, i + 1)) == 125
    ensures Stands(d, s, i) && d.Obj? && d.entries == [] && Skip(s, i + 1) + 1 == i + |Text(d)|
  {
    hide Has;
    var inner := BlankRun(s, i + 1);
    d := Obj(inner, []);
    ByteStands(s, i, 123);
    ByteStands(s, i + 1 + |inner|, 125);
    HasSplit(s, i + 1, inner, [125]);
    HasSplit(s, i, [123], inner + [125]);
    hide Stands;
    assert Valid(d);
    assert Leaves(d, s, i);
  }

  lemma FullObject(s: bytes, i: nat, xs: seq<Entry>) returns (d: Syntax)
    requires At(s, i) == 123
    requires EntriesStand(xs, s, i + 1)
    ensures Stands(d, s, i) && d.Obj? && d.entries == xs && i + |Text(d)| == EntriesEnd(xs, i + 1)
  {
    hide Has;
    d := Obj([], xs);
    ByteStands(s, i, 123);
    HasSplit(s, i, [123], EntriesText(xs) + [125]);
  }

  lemma MembersCase(s: bytes, i: nat, ms: seq<Member>, e: nat) returns (m: Member, rest: seq<Member>, e1: nat, j: nat)
    requires i <= |s| && ParseMembers(s, i) == Ok(ms, e)
    ensures ms == [m] + rest && ParseMember(s, i) == Ok(m, e1) && Skip(s, e1) == j && i <= j < |s|
    ensures if At(s, j) == 44 then ParseMembers(s, j + 1) == Ok(rest, e)
            else At(s, j) == 125 && rest == [] && e == j + 1
  {
    hide ParseMember;
    e1 := ParseMember(s, i).end;
    m, rest, j := ms[0], ms[1..], Skip(s, e1);
  }

  lemma {:induction false} EntriesFound(s: bytes, i: nat, ms: seq<Member>, e: nat) returns (xs: seq<Entry>)
    requires i <= |s| && ParseMembers(s, i) == Ok(ms, e)
    ensures EntriesStand(xs, s, i) && EntriesMeant(xs) == ms && e == EntriesEnd(xs, i)
    decreases |s| - i
  {
    hide *;
    var m, rest, e1, j := MembersCase(s, i, ms, e);
    var x := EntryFound(s, i, m, e1);
    if At(s, j) == 44 {
      var ys := EntriesFound(s, j + 1, rest, e);
      xs := MoreEntries(s, i, x, ys);
    } else {
      xs := OneEntry(s, i, x);
    }
  }

  lemma OneEntry(s: bytes, i: nat, x: Entry) returns (xs: seq<Entry>)
    requires EntryFits(x, s, i) && At(s, i + |EntryText(x)|) == 125
    ensures EntriesStand(xs, s, i) && EntriesMeant(xs) == [Member(x.name, Meant(x.item.value))]
    ensures EntriesEnd(xs, i) == i + |EntryText(x)| + 1
  {
    hide Has, EntryLeaves, Valid, EntryText;
    xs := [x];
    ByteStands(s, i + |EntryText(x)|, 125);
    HasSplit(s, i, EntryText(x), [125]);
    assert xs[1..] == [];
    assert ValidEntries(xs) && EntriesLeaves(xs, s, i);
  }

  lemma MoreEntries(s: bytes, i: nat, x: Entry, rest: seq<Entry>) returns (xs: seq<Entry>)
    requires EntryFits(x, s, i) && At(s, i + |EntryText(x)|) == 44
    requires EntriesStand(rest, s, i + |EntryText(x)| + 1)
    ensures EntriesStand(xs, s, i) && EntriesMeant(xs) == [Member(x.name, Meant(x.item.value))] + EntriesMeant(rest)
    ensures EntriesEnd(xs, i) == EntriesEnd(rest, i + |EntryText(x)| + 1)
  {
    hide Has, EntryLeaves, Valid, EntryText;
    xs := [x] + rest;
    assert xs[1..] == rest;
    var j := i + |EntryText(x)|;
    ByteStands(s, j, 44);
    HasSplit(s, j, [44], EntriesText(rest) + [125]);
    HasSplit(s, i, EntryText(x), [44] + (EntriesText(rest) + [125]));
    Regroup(EntryText(x), [44], EntriesText(rest), [125]);
  }

  /** The name, the colon and the value of a member that is read. */
  lemma MemberCase(s: bytes, i: nat, m: Member, e: nat) returns (p: nat, q: nat, c: nat)
    requires i <= |s| && ParseMember(s, i) == Ok(m, e)
    ensures p == Skip(s, i) && c == Skip(s, q) && i <= p <= q <= c < |s|
    ensures ParseString(s, p) == Ok(m.name, q) && At(s, c) == 58 && ParseValue(s, Skip(s, c + 1)) == Ok(m.value, e)
  {
    hide ParseString, ParseValue;
    p := Skip(s, i);
    q := ParseString(s, p).end;
    c := Skip(s, q);
  }

  lemma {:induction false} EntryFound(s: bytes, i: nat, m: Member, e: nat) returns (x: Entry)
    requires i <= |s| && ParseMember(s, i) == Ok(m, e)
    ensures Skip(s, e) == i + |EntryText(x)| <= |s|
    ensures EntryFits(x, s, i) && x.name == m.name && Meant(x.item.value) == m.value
    decreases |s| - i, 1
  {
    hide *;
    var p, q, c := MemberCase(s, i, m, e);
    var item := ElementFound(s, c + 1, m.value, e);
    var before := BlankRun(s, i);
    var gap := BlankRun(s, q);
    var literal := Slice(s, p, q);
    x := MakeEntry(s, i, before, literal, m.name, gap, item);
  }

  lemma MakeEntry(s: bytes, i: nat, before: bytes, literal: bytes, name: bytes, gap: bytes, item: Element)
    returns (x: Entry)
    requires AllBlank(before) && AllBlank(gap)
    requires var p := i + |before|;
             var q := p + |literal|;
             var c := q + |gap|;
             && Has(s, i, before) && Has(s, p, literal) && Has(s, q, gap) && At(s, c) == 58
             && ParseString(s, p) == Ok(name, q) && ElementFits(item, s, c + 1)
    ensures x == Entry(before, literal, name, gap, item) && EntryFits(x, s, i)
    ensures i + |EntryText(x)| == i + |before| + |literal| + |gap| + 1 + |ElementText(item)| <= |s|
  {
    hide Has, ParseString, Leaves, ElementText, Valid, AllBlank;
    x := Entry(before, literal, name, gap, item);
    var p := i + |before|;
    var c := p + |literal| + |gap|;
    ByteStands(s, c, 58);
    HasSplit(s, c, [58], ElementText(item));
    HasSplit(s, p + |literal|, gap, [58] + ElementText(item));
    HasSplit(s, p, literal, gap + ([58] + ElementText(item)));
    HasSplit(s, i, before, literal + (gap + ([58] + ElementText(item))));
    HasEnd(s, i, EntryText(x));
  }

  /** The parser accepts what stands in the text as a tree, and nothing else. */
  lemma ParsesExactly(s: bytes, i: nat, v: Value, e: nat)
    requires i <= |s|
    ensures ParseValue(s, i) == Ok(v, e) <==>
            exists d: Syntax :: Stands(d, s, i) && Meant(d) == v && e == i + |Text(d)|
  {
    if ParseValue(s, i) == Ok(v, e) {
      var d := ValueFound(s, i, v, e);
    }
    forall d: Syntax | Stands(d, s, i) && Meant(d) == v && e == i + |Text(d)|
      ensures ParseValue(s, i) == Ok(v, e)
    {
      ValueStands(d, s, i);
    }
  }

  // ---------------------------------------------------------------- whole texts

  /** Blanks, a value, and anything behind it: without the check for the terminator the text is accepted
      up to the end of the value. With it, only blanks may follow, and the error position is the first
      byte that is none. */
  lemma DocumentRead(s: bytes, lead: bytes, d: Syntax, blanks: bytes)
    requires Has(s, 0, lead) && AllBlank(lead) && Stands(d, s, |lead|)
    requires var e := |lead| + |Text(d)|;
             Has(s, e, blanks) && AllBlank(blanks) && NonBlank(At(s, e + |blanks|))
    ensures var e := |lead| + |Text(d)|;
            && ParseText(s, false) == Ok(Meant(d), e)
            && ParseText(s, true) ==
               if At(s, e + |blanks|) == 0 then Ok(Meant(d), e + |blanks|) else Fail(e + |blanks|)
  {
    hide Has, ParseValue, Leaves, Valid, Text, Meant;
    TextStarts(d, s, |lead|);
    SkipTo(s, 0, lead);
    ValueStands(d, s, |lead|);
    SkipTo(s, |lead| + |Text(d)|, blanks);
  }

  // ---------------------------------------------------------------- legal texts

  /** The text conforms to RFC 8259: its literals are spelled by its rules and its numbers are strict. */
  ghost predicate Legal(d: Syntax)
    decreases d
  {
    match d
    case Word(_) => true
    case Num(n) => n.Strict()
    case Str(literal, text) => LegalString(literal, text)
    case Arr(_, items) => LegalItems(items)
    case Obj(_, entries) => LegalEntries(entries)
  }

  ghost predicate LegalString(literal: bytes, text: bytes) {
    exists us: seq<Unit>, ws: seq<bytes> :: SpelledAs(literal, text, us, ws)
  }

  ghost predicate SpelledAs(literal: bytes, text: bytes, us: seq<Unit>, ws: seq<bytes>) {
    && |us| == |ws| && (forall k :: 0 <= k < |us| ==> Spells(us[k], ws[k]))
    && literal == [34] + (Concat(ws) + [34]) && text == Meanings(us)
  }

  ghost predicate LegalItems(xs: seq<Element>)
    decreases xs
  {
    xs == [] || (Legal(xs[0].value) && LegalItems(xs[1..]))
  }

  ghost predicate LegalEntries(xs: seq<Entry>)
    decreases xs
  {
    xs == [] || (LegalString(xs[0].literal, xs[0].name) && Legal(xs[0].item.value) && LegalEntries(xs[1..]))
  }

  /** The literals and numbers of such a text are read as what they denote, wherever it stands. */
  lemma {:induction false} LegalStands(d: Syntax, s: bytes, i: nat)
    requires Valid(d) && Legal(d) && Has(s, i, Text(d)) && EndsNumber(At(s, i + |Text(d)|))
    ensures Stands(d, s, i)
    decreases d, 2
  {
    hide Has, Legal, Leaves, Valid, Text;
    LegalLeaves(d, s, i);
  }

  lemma {:induction false} LegalLeaves(d: Syntax, s: bytes, i: nat)
    requires Valid(d) && Legal(d) && Has(s, i, Text(d)) && EndsNumber(At(s, i + |Text(d)|))
    ensures Leaves(d, s, i)
    decreases d, 1
  {
    hide Has, LegalString, ParseString, EndsNumber, ItemsText, EntriesText;
    match d
    case Word(_) =>
    case Num(n) => StrictStops(n, s, i + |n.Text()|);
    case Str(literal, text) => LegalLiteral(literal, text, s, i);
    case Arr(_, items) =>
      if items != [] {
        HasSplit(s, i, [91], ItemsText(items) + [93]);
        LegalItemsStand(items, s, i + 1);
      }
      assert ItemsLeaves(items, s, i + 1);
    case Obj(_, entries) =>
      if entries != [] {
        HasSplit(s, i, [123], EntriesText(entries) + [125]);
        LegalEntriesStand(entries, s, i + 1);
      }
      assert EntriesLeaves(entries, s, i + 1);
  }

  lemma LegalLiteral(literal: bytes, text: bytes, s: bytes, i: nat)
    requires LegalString(literal, text) && Has(s, i, literal)
    ensures ParseString(s, i) == Ok(text, i + |literal|)
  {
    hide Has, ParseString, Spells;
    var us: seq<Unit>, ws: seq<bytes> :| SpelledAs(literal, text, us, ws);
    ParseLiteral(s, i, us, ws);
  }

  lemma {:induction false} LegalItemsStand(xs: seq<Element>, s: bytes, i: nat)
    requires xs != [] && ValidItems(xs) && LegalItems(xs) && Has(s, i, ItemsText(xs) + [93])
    ensures ItemsLeaves(xs, s, i)
    decreases xs, 0
  {
    hide Has, Legal, Leaves, Valid, ValidElement, Text, ElementText, AllBlank;
    var x := xs[0];
    var rest := if |xs| == 1 then [93] else [44] + (ItemsText(xs[1..]) + [93]);
    assert ItemsText(xs) + [93] == ElementText(x) + rest by {
      if |xs| > 1 {
        Regroup(ElementText(x), [44], ItemsText(xs[1..]), [93]);
      }
    }
    HasSplit(s, i, ElementText(x), rest);
    FirstByte(s, i + |ElementText(x)|, rest);
    LegalElement(x, s, i);
    if |xs| > 1 {
      HasSplit(s, i + |ElementText(x)|, [44], ItemsText(xs[1..]) + [93]);
      LegalItemsStand(xs[1..], s, i + |ElementText(x)| + 1);
    } else {
      assert xs[1..] == [];
    }
  }

  lemma {:induction false} LegalElement(x: Element, s: bytes, i: nat)
    requires ValidElement(x) && Legal(x.value) && Has(s, i, ElementText(x)) && EndsNumber(At(s, i + |ElementText(x)|))
    ensures Leaves(x.value, s, i + |x.before|)
    decreases x, 0
  {
    hide Has, Legal, Leaves, Valid, Text;
    var w, p := Text(x.value), i + |x.before|;
    HasSplit(s, i, x.before, w + x.after);
    HasSplit(s, p, w, x.after);
    if x.after != [] {
      FirstByte(s, p + |w|, x.after);
      assert 1 <= x.after[0] <= 32;
    }
    LegalStands(x.value, s, p);
  }

  lemma {:induction false} LegalEntriesStand(xs: seq<Entry>, s: bytes, i: nat)
    requires xs != [] && ValidEntries(xs) && LegalEntries(xs) && Has(s, i, EntriesText(xs) + [125])
    ensures EntriesLeaves(xs, s, i)
    decreases xs, 0
  {
    hide Has, Legal, Leaves, Valid, ValidElement, Text, EntryText, EntryLeaves, LegalString, AllBlank;
    var x := xs[0];
    var rest := if |xs| == 1 then [125] else [44] + (EntriesText(xs[1..]) + [125]);
    assert EntriesText(xs) + [125] == EntryText(x) + rest by {
      if |xs| > 1 {
        Regroup(EntryText(x), [44], EntriesText(xs[1..]), [125]);
      }
    }
    HasSplit(s, i, EntryText(x), rest);
    FirstByte(s, i + |EntryText(x)|, rest);
    LegalEntry(x, s, i);
    if |xs| > 1 {
      HasSplit(s, i + |EntryText(x)|, [44], EntriesText(xs[1..]) + [125]);
      LegalEntriesStand(xs[1..], s, i + |EntryText(x)| + 1);
    } else {
      assert xs[1..] == [];
    }
  }

  lemma {:induction false} LegalEntry(x: Entry, s: bytes, i: nat)
    requires ValidElement(x.item) && Legal(x.item.value) && LegalString(x.literal, x.name)
    requires Has(s, i, EntryText(x)) && EndsNumber(At(s, i + |EntryText(x)|))
    ensures EntryLeaves(x, s, i)
    decreases x, 0
  {
    hide Has, Legal, Leaves, Valid, ElementText, LegalString;
    var tail := ElementText(x.item);
    var p := i + |x.before|;
    var c := p + |x.literal| + |x.gap|;
    HasSplit(s, i, x.before, x.literal + (x.gap + ([58] + tail)));
    HasSplit(s, p, x.literal, x.gap + ([58] + tail));
    HasSplit(s, p + |x.literal|, x.gap, [58] + tail);
    HasSplit(s, c, [58], tail);
    LegalLiteral(x.literal, x.name, s, p);
    LegalElement(x.item, s, c + 1);
  }

  /** Every text of RFC 8259 whose exponents fit an int, with blanks around it and anything behind that
      does not prolong it, is accepted with its meaning, in both modes. */
  lemma LegalRead(s: bytes, lead: bytes, d: Syntax, blanks: bytes)
    requires Valid(d) && Legal(d) && Has(s, 0, lead) && AllBlank(lead) && Has(s, |lead|, Text(d))
    requires var e := |lead| + |Text(d)|;
             && Has(s, e, blanks) && AllBlank(blanks) && NonBlank(At(s, e + |blanks|)) && EndsNumber(At(s, e))
    ensures var e := |lead| + |Text(d)|;
            && ParseText(s, false) == Ok(Meant(d), e)
            && ParseText(s, true) ==
               if At(s, e + |blanks|) == 0 then Ok(Meant(d), e + |blanks|) else Fail(e + |blanks|)
  {
    hide *;
    LegalStands(d, s, |lead|);
    DocumentRead(s, lead, d, blanks);
  }

  /** The same for a printed value. */
  lemma PrintedRead(s: bytes, lead: bytes, v: Value, fmt: bool, blanks: bytes)
    requires Printable(v) && Has(s, 0, lead) && AllBlank(lead) && Has(s, |lead|, Print(v, 0, fmt))
    requires var e := |lead| + |Print(v, 0, fmt)|;
             && Has(s, e, blanks) && AllBlank(blanks) && NonBlank(At(s, e + |blanks|)) && EndsNumber(At(s, e))
    ensures var e := |lead| + |Print(v, 0, fmt)|;
            && ParseText(s, false) == Ok(v, e)
            && ParseText(s, true) == if At(s, e + |blanks|) == 0 then Ok(v, e + |blanks|) else Fail(e + |blanks|)
  {
    hide Has, ParseValue, Print, Printable, Skip, EndsNumber, AllBlank;
    PrintStart(v, 0, fmt);
    FirstByte(s, |lead|, Print(v, 0, fmt));
    SkipTo(s, 0, lead);
    ValueTrip(v, 0, fmt, s, |lead|);
    SkipTo(s, |lead| + |Print(v, 0, fmt)|, blanks);
  }

  // ---------------------------------------------------------------- what is refused

  /** The items xs, each with a comma behind it. */
  function DoneText(xs: seq<Element>): bytes {
    if xs == [] then [] else ElementText(xs[0]) + ([44] + DoneText(xs[1..]))
  }

  /** Whatever goes wrong behind some items of an array, the error position is where it goes wrong: at a
      value that fails, or at a byte behind a value that is no comma and no bracket. */
  lemma {:induction false} ItemsFail(xs: seq<Element>, s: bytes, i: nat, q: nat)
    requires ValidItems(xs) && Has(s, i, DoneText(xs)) && ItemsLeaves(xs, s, i)
    requires WrongItem(s, i + |DoneText(xs)|, q)
    ensures ParseItems(s, i) == Fail(q)
    decreases xs
  {
    hide Has, ParseValue, Leaves, Valid, Text, Meant, Skip;
    if xs == [] {
      WrongFails(s, i, q);
    } else {
      var x := xs[0];
      var j := i + |ElementText(x)|;
      HasSplit(s, i, ElementText(x), [44] + DoneText(xs[1..]));
      HasSplit(s, j, [44], DoneText(xs[1..]));
      FirstByte(s, j, [44]);
      ElementParts(x, s, i);
      var e := ElementRead(x, s, i);
      ItemsFail(xs[1..], s, j + 1, q);
    }
  }

  ghost predicate WrongItem(s: bytes, i: nat, q: nat) {
    i <= |s| && (
      || ParseValue(s, Skip(s, i)) == Fail(q)
      || exists x: Element ::
           && ElementFits(x, s, i) && q == i + |ElementText(x)|
           && NonBlank(At(s, q)) && At(s, q) != 44 && At(s, q) != 93)
  }

  lemma WrongFails(s: bytes, i: nat, q: nat)
    requires WrongItem(s, i, q)
    ensures ParseItems(s, i) == Fail(q)
  {
    hide ParseValue, Skip;
    if ParseValue(s, Skip(s, i)) != Fail(q) {
      var x: Element :| ElementFits(x, s, i) && q == i + |ElementText(x)|
                        && NonBlank(At(s, q)) && At(s, q) != 44 && At(s, q) != 93;
      ElementParts(x, s, i);
      var e := ElementRead(x, s, i);
    }
  }

  /** The same for an object: a name that is missing, a byte behind a name that is no colon, a value that
      fails, or a byte behind a value that is no comma and no brace. */
  lemma {:induction false} EntriesFail(xs: seq<Entry>, s: bytes, i: nat, q: nat)
    requires ValidEntries(xs) && Has(s, i, DoneEntries(xs)) && EntriesLeaves(xs, s, i)
    requires WrongEntry(s, i + |DoneEntries(xs)|, q)
    ensures ParseMembers(s, i) == Fail(q)
    decreases xs
  {
    hide Has, ParseMember, Leaves, Valid, Text, Meant, Skip, EntryText, EntryLeaves, WrongEntry;
    if xs == [] {
      WrongEntryFails(s, i, q);
    } else {
      var x := xs[0];
      var j := i + |EntryText(x)|;
      HasSplit(s, i, EntryText(x), [44] + DoneEntries(xs[1..]));
      HasSplit(s, j, [44], DoneEntries(xs[1..]));
      FirstByte(s, j, [44]);
      EntryParts(x, s, i);
      var e := MemberRead(x, s, i);
      EntriesFail(xs[1..], s, j + 1, q);
    }
  }

  function DoneEntries(xs: seq<Entry>): bytes {
    if xs == [] then [] else EntryText(xs[0]) + ([44] + DoneEntries(xs[1..]))
  }

  ghost predicate WrongEntry(s: bytes, i: nat, q: nat) {
    i <= |s| && (
      || (q == Skip(s, i) && At(s, q) != 34)
      || (exists name: bytes, e: nat ::
            ParseString(s, Skip(s, i)) == Ok(name, e) && WrongMember(s, e, q))
      || exists x: Entry ::
           && EntryFits(x, s, i) && q == i + |EntryText(x)|
           && NonBlank(At(s, q)) && At(s, q) != 44 && At(s, q) != 125)
  }

  /** Behind a name there is no colon at q, or behind the colon a value fails at q. */
  predicate WrongMember(s: bytes, e: nat, q: nat) {
    e <= |s| &&
    var c := Skip(s, e);
    if At(s, c) == 58 then c < |s| && ParseValue(s, Skip(s, c + 1)) == Fail(q) else q == c
  }

  lemma WrongEntryFails(s: bytes, i: nat, q: nat)
    requires WrongEntry(s, i, q)
    ensures ParseMembers(s, i) == Fail(q)
  {
    hide ParseValue, Skip, EntryText, ParseString;
    if q == Skip(s, i) && At(s, q) != 34 {
      NoName(s, q);
    } else if name: bytes, e: nat :| ParseString(s, Skip(s, i)) == Ok(name, e) && WrongMember(s, e, q) {
      WrongMemberFails(s, i, name, e, q);
    } else {
      var x: Entry :| EntryFits(x, s, i) && q == i + |EntryText(x)|
                      && NonBlank(At(s, q)) && At(s, q) != 44 && At(s, q) != 125;
      EntryParts(x, s, i);
      var e := MemberRead(x, s, i);
    }
  }

  lemma NoName(s: bytes, q: nat)
    requires At(s, q) != 34
    ensures ParseString(s, q) == Fail(q)
  {
  }

  lemma WrongMemberFails(s: bytes, i: nat, name: bytes, e: nat, q: nat)
    requires i <= |s| && ParseString(s, Skip(s, i)) == Ok(name, e) && WrongMember(s, e, q)
    ensures ParseMember(s, i) == Fail(q) && ParseMembers(s, i) == Fail(q)
  {
    hide ParseValue, Skip, ParseString;
  }

  /** A byte that starts no value fails where it stands; an array or object fails where its items or
      members do. */
  lemma ValueFails(s: bytes, i: nat, q: nat)
    requires i <= |s|
    ensures !Has(s, i, [110, 117, 108, 108]) && !Has(s, i, [116, 114, 117, 101]) && !Has(s, i, [102, 97, 108, 115, 101])
            && At(s, i) != 34 && At(s, i) != 45 && !Digit(At(s, i)) && At(s, i) != 91 && At(s, i) != 123
            ==> ParseValue(s, i) == Fail(i)
    ensures At(s, i) == 91 && At(s, Skip(s, i + 1)) != 93 && ParseItems(s, i + 1) == Fail(q)
            ==> ParseValue(s, i) == Fail(q)
    ensures At(s, i) == 123 && At(s, Skip(s, i + 1)) != 125 && ParseMembers(s, i + 1) == Fail(q)
            ==> ParseValue(s, i) == Fail(q)
  {
    hide Has, ParseItems, ParseMembers;
    OnlyWord(s, i);
    if i < |s| {
      SkipItems(s, i + 1, Skip(s, i + 1));
      SkipMembers(s, i + 1, Skip(s, i + 1));
    }
  }

  /** Where the first value behind leading blanks fails, the text does. */
  lemma TextFails(s: bytes, lead: bytes, q: nat, requireTerminated: bool)
    requires Has(s, 0, lead) && AllBlank(lead) && NonBlank(At(s, |lead|)) && ParseValue(s, |lead|) == Fail(q)
    ensures ParseText(s, requireTerminated) == Fail(q)
  {
    SkipTo(s, 0, lead);
  }
}
