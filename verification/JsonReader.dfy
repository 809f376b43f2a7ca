/** parse_value, parse_array, parse_object and cJSON_ParseWithOpts building items on the heap. */
module JsonReader {
  import opened CText
  import opened StringCodec
  import opened StringRoutines
  import opened Json
  import opened JsonTree
  import opened JsonHeap
  import opened JsonEdit
  import opened JsonBlocks
  import opened JsonDuplicate

  /** An item that has no value yet. */
  ghost predicate Vacant(item: Node)
    reads item
  {
    item.child == null && item.valuestring == null && !item.isReference && !item.stringIsConst
  }

  /** The item and, as its children, us. */
  ghost function TreeOf(item: Node, us: seq<Tree>): Tree
    reads item
  {
    Tree(item, Content(item), us)
  }

  /** The blocks that came in with the value of the item. */
  ghost function ValueBlocks(item: Node, us: seq<Tree>): set<object>
    reads item
  {
    ForestBlocks(us) + if item.valuestring == null then {} else {item.valuestring as object}
  }

  /** Whatever parse_value has made of the item, also when it failed half way, is a proper tree. */
  ghost predicate Made(item: Node, us: seq<Tree>)
    reads item, ForestNodes(us)
  {
    && (TopInForest(us); Linked(us, item.child)) && RealisedAll(us) && SeparateAll(us)
    && (item.valuestring != null ==> item.valuestring !in ForestBlocks(us))
    && !item.isReference && !item.stringIsConst && ForestConstNames(us) == {}
  }

  lemma ConstAppend(ts: seq<Tree>, x: Tree)
    ensures ForestConstNames(ts + [x]) == {} <==> ForestConstNames(ts) == {} && ConstNames(x) == {}
  {
    ForestEmpty(ts);
    ForestEmpty(ts + [x]);
    var us := ts + [x];
    assert us[|ts|] == x;
    assert forall k :: 0 <= k < |ts| ==> us[k] == ts[k];
    assert forall k :: 0 <= k < |us| ==> us[k] == if k < |ts| then ts[k] else x;
  }

  function Onto<T>(done: seq<T>, r: Parse<seq<T>>): Parse<seq<T>> {
    match r
    case Ok(rest, e) => Ok(done + rest, e)
    case other => other
  }

  lemma OntoOnto<T>(a: seq<T>, b: seq<T>, r: Parse<seq<T>>)
    ensures Onto(a, Onto(b, r)) == Onto(a + b, r)
  {
    if r.Ok? {
      assert a + (b + r.value) == (a + b) + r.value;
    }
  }

  /** What parse_array still has to read when it stands behind an item. */
  function ItemsRest(s: bytes, j: nat): Parse<seq<Value>>
    requires j <= |s|
  {
    if At(s, j) == COMMA then ParseItems(s, j + 1)
    else if At(s, j) == CLOSE_BRACKET then Ok([], j + 1)
    else Fail(j)
  }

  lemma ItemsStep(s: bytes, i: nat)
    requires i <= |s|
    ensures ParseItems(s, i) ==
            match ParseValue(s, Skip(s, i))
            case Ok(v, e) => Onto([v], ItemsRest(s, Skip(s, e)))
            case Fail(at) => Fail(at)
            case Broken => Broken
  {
    hide ParseValue, Skip;
    var r := ParseValue(s, Skip(s, i));
    if r.Ok? {
      assert [r.value] + [] == [r.value];
    }
  }

  function MembersRest(s: bytes, j: nat): Parse<seq<Member>>
    requires j <= |s|
  {
    if At(s, j) == COMMA then ParseMembers(s, j + 1)
    else if At(s, j) == CLOSE_BRACE then Ok([], j + 1)
    else Fail(j)
  }

  lemma MembersStep(s: bytes, i: nat)
    requires i <= |s|
    ensures ParseMembers(s, i) ==
            match ParseMember(s, i)
            case Ok(m, e) => Onto([m], MembersRest(s, Skip(s, e)))
            case Fail(at) => Fail(at)
            case Broken => Broken
  {
    hide ParseMember, Skip;
    var r := ParseMember(s, i);
    if r.Ok? {
      assert [r.value] + [] == [r.value];
    }
  }

  /** parse_string, which stores the text it has decoded in a new block. */
  method ParseStringInto(h: Heap, item: Node, s: bytes, i: nat) returns (end: int, ep: nat)
    requires i <= |s| && !ParseString(s, i).Broken?
    modifies h, item`kind, item`valuestring
    ensures match ParseString(s, i)
            case Ok(t, e) =>
              && end == e && item.kind == KString && item.valuestring != null && item.valuestring.text == t
              && fresh(item.valuestring) && h.live == old(h.live) + {item.valuestring}
            case _ =>
              && end < 0 && ParseString(s, i) == Fail(ep) && h.live == old(h.live)
              && item.kind == old(item.kind) && item.valuestring == old(item.valuestring)
  {
    ep := i;
    var out, n;
    end, out, n := ParseStringAt(s, i);
    if end >= 0 {
      var str := h.NewString(out[..n]);
      item.valuestring := str;
      item.kind := KString;
    }
  }

  /** parse_number, as loops over the digits. */
  method ParseNumberInto(item: Node, s: bytes, i: nat) returns (end: nat)
    requires i <= |s| && ExponentFits(s, i)
    modifies item`kind, item`mantissa, item`exponent
    ensures ParseNumber(s, i) == Ok(Number(item.mantissa, item.exponent), end) && item.kind == KNumber
  {
    hide RunEnd, RunValue, IntegerStart, IntegerEnd, FractionEnd, ExponentStart;
    var negative := Read(s, i) == MINUS;
    var n, num, scale;
    var subscale := 0;
    n, num := ReadInteger(s, i);
    n, num, scale := ReadFraction(s, num, n);
    if ExponentMark(Read(s, num)) {
      subscale, num := ReadExponent(s, num);
    }
    var m: int := n;
    item.mantissa := if negative then -m else m;
    item.exponent := scale + subscale;
    item.kind := KNumber;
    end := num;
  }

  /** The sign, a leading zero and the other digits before the point. */
  method ReadInteger(s: bytes, i: nat) returns (n: nat, num: nat)
    requires i <= |s|
    ensures num == IntegerEnd(s, i) && IntegerStart(s, i) <= num <= |s| && n == RunValue(0, s, IntegerStart(s, i), num)
  {
    num := if Read(s, i) == MINUS then i + 1 else i;
    if Read(s, num) == ZERO {
      num := num + 1;
    }
    NoDigits(s, IntegerStart(s, i));
    hide RunEnd, RunValue;
    n := 0;
    if ZERO < Read(s, num) <= NINE {
      n, num := ReadDigits(s, num, 0);
    }
  }

  method ReadFraction(s: bytes, c: nat, n0: nat) returns (n: nat, num: nat, scale: int)
    requires c <= |s|
    ensures num == FractionEnd(s, c) && c <= num <= |s|
    ensures if num > c then n == RunValue(n0, s, c + 1, num) && scale == c + 1 - num else n == n0 && scale == 0
  {
    hide RunEnd, RunValue;
    n, num, scale := n0, c, 0;
    if Read(s, c) == DOT && Digit(Read(s, c + 1)) {
      n, num := ReadDigits(s, c + 1, n0);
      scale := (c as int) + 1 - num;
    }
  }

  /** The exponent; every value that the int subscale takes fits it. */
  method ReadExponent(s: bytes, d: nat) returns (subscale: int, num: nat)
    requires d < |s|
    requires var f := ExponentStart(s, d); f <= |s| ==> RunValue(0, s, f, RunEnd(s, f)) <= INT_MAX
    ensures var f := ExponentStart(s, d);
            && f <= num <= |s| && num == RunEnd(s, f)
            && (if At(s, d + 1) == MINUS then -subscale else subscale) == RunValue(0, s, f, num)
  {
    hide RunEnd, RunValue;
    subscale, num := ReadInt(s, if Read(s, d + 1) == PLUS || Read(s, d + 1) == MINUS then d + 2 else d + 1);
    if Read(s, d + 1) == MINUS {
      subscale := -subscale;
    }
  }

  method ReadInt(s: bytes, start: nat) returns (n: nat, num: nat)
    requires start <= |s| && RunValue(0, s, start, RunEnd(s, start)) <= INT_MAX
    ensures num == RunEnd(s, start) && n == RunValue(0, s, start, num)
  {
    n, num := 0, start;
    assert s[start..start] == [];
    while Digit(Read(s, num))
      invariant start <= num <= |s| && RunEnd(s, num) == RunEnd(s, start)
      invariant forall k :: start <= k < num ==> Digit(At(s, k))
      invariant n == RunValue(0, s, start, num) && n <= INT_MAX
      decreases |s| - num
    {
      OneDigit(s, start, num);
      RunGrows(s, start, num + 1, RunEnd(s, start));
      assert n * 10 + (Read(s, num) - ZERO) <= INT_MAX;
      n, num := n * 10 + (Read(s, num) - ZERO), num + 1;
    }
  }

  lemma OneDigit(s: bytes, start: nat, num: nat)
    requires start <= num < |s| && (forall k :: start <= k < num ==> Digit(At(s, k))) && Digit(At(s, num))
    ensures RunValue(0, s, start, num + 1) == RunValue(0, s, start, num) * 10 + (At(s, num) - ZERO)
  {
    assert forall k :: 0 <= k < num - start ==> s[start..num][k] == At(s, start + k);
    FoldSnoc(0, s[start..num], At(s, num));
    assert s[start..num + 1] == s[start..num] + [At(s, num)];
  }

  /** The digits read so far are worth no more than all of them. */
  lemma RunGrows(s: bytes, i: nat, k: nat, j: nat)
    requires i <= k <= j <= |s| && forall x :: i <= x < j ==> Digit(At(s, x))
    ensures RunValue(0, s, i, k) <= RunValue(0, s, i, j)
  {
    assert forall x :: 0 <= x < j - i ==> s[i..j][x] == At(s, i + x);
    assert s[i..j] == s[i..k] + s[k..j];
    assert forall x :: 0 <= x < j - k ==> s[k..j][x] == At(s, k + x);
    assert forall x :: 0 <= x < k - i ==> s[i..k][x] == At(s, i + x);
    FoldThrough(0, s[i..k], s[k..j]);
    FoldGrows(Fold(0, s[i..k]), s[k..j]);
  }

  lemma NoDigits(s: bytes, i: nat)
    ensures i <= |s| ==> RunValue(0, s, i, i) == 0
  {
    if i <= |s| {
      assert s[i..i] == [];
    }
  }

  /** parse_value: `end` is negative where the C function returns a null pointer, and then `ep` is
      the error position. */
  method ParseValueInto(h: Heap, item: Node, s: bytes, i: nat) returns (end: int, ep: nat, ghost us: seq<Tree>)
    requires i <= |s| && !ParseValue(s, i).Broken? && Vacant(item)
    modifies h, item`child, item`kind, item`valuestring, item`mantissa, item`exponent
    ensures Made(item, us) && fresh(ValueBlocks(item, us)) && h.live == old(h.live) + ValueBlocks(item, us)
    ensures match ParseValue(s, i)
            case Ok(v, e) => end == e && ValueOf(TreeOf(item, us)) == v
            case _ => end < 0 && ParseValue(s, i) == Fail(ep)
    decreases |s| - i, 2
  {
    hide Realised, RealisedAll, Nodes, ForestNodes, TopNodes, Separate, SeparateAll, Blocks, ForestBlocks, Linked;
    hide ParseString, ParseNumber, Skip, ParseItems, ParseMembers, ValuesOf, MembersOf;
    us, ep := [], i;
    LeafMade(item);
    if Has(s, i, NULL_TEXT) {
      item.kind := KNull;
      LeafMade(item);
      return i + 4, ep, us;
    }
    if Has(s, i, FALSE_TEXT) {
      item.kind := KFalse;
      LeafMade(item);
      return i + 5, ep, us;
    }
    if Has(s, i, TRUE_TEXT) {
      item.kind := KTrue;
      LeafMade(item);
      return i + 4, ep, us;
    }
    if Read(s, i) == QUOTE {
      end, ep := ParseStringInto(h, item, s, i);
      LeafMade(item);
      return;
    }
    if Read(s, i) == MINUS || Digit(Read(s, i)) {
      end := ParseNumberInto(item, s, i);
      LeafMade(item);
      return;
    }
    if Read(s, i) == OPEN_BRACKET {
      end, ep, us := ParseArrayInto(h, item, s, i);
      return;
    }
    if Read(s, i) == OPEN_BRACE {
      end, ep, us := ParseObjectInto(h, item, s, i);
      return;
    }
    end := -1;
  }

  lemma LeafMade(item: Node)
    requires item.child == null && !item.isReference && !item.stringIsConst
    ensures Made(item, [])
    ensures ValueBlocks(item, []) == if item.valuestring == null then {} else {item.valuestring as object}
  {
  }

  lemma NothingYet(item: Node)
    requires Vacant(item)
    ensures Made(item, []) && ValueBlocks(item, []) == {} && Reading(item, [], null)
  {
  }

  // ---------------------------------------------------------------- arrays

  /** The children of item so far, and what has been allocated for them. */
  ghost predicate Reading(item: Node, us: seq<Tree>, last: Node?)
    reads item, ForestNodes(us)
  {
    && Growing(item, us, last) && item.valuestring == null && !item.isReference && !item.stringIsConst
    && ForestConstNames(us) == {}
  }

  lemma ReadingIsMade(item: Node, us: seq<Tree>, last: Node?)
    requires Reading(item, us, last)
    ensures Made(item, us) && ValueBlocks(item, us) == ForestBlocks(us)
  {
  }

  /** A blank item behind the last child. */
  method NewChild(h: Heap, item: Node, last: Node?, ghost us: seq<Tree>) returns (child: Node)
    requires Reading(item, us, last)
    modifies h, item`child, Just(last)`next
    ensures fresh(child) && Vacant(child) && Content(child) == BLANK && h.live == old(h.live) + {child}
    ensures Reading(item, us + [Tree(child, BLANK, [])], child)
    ensures Blocks(Tree(child, BLANK, [])) == {child} && child !in ForestBlocks(us)
    ensures ForestBlocks(us + [Tree(child, BLANK, [])]) == ForestBlocks(us) + {child}
  {
    hide Realised, Nodes, ForestNodes, ForestBlocks, SeparateAll, ConstNames, ForestConstNames;
    assert allocated(ForestNodes(us)) && allocated(ForestBlocks(us)) && allocated(TopNodes(us));
    child := h.NewItem();
    BlankTree(child);
    ConstAppend(us, Tree(child, BLANK, []));
    AddChild(item, last, child, us, Tree(child, BLANK, []));
  }

  lemma BlankTree(child: Node)
    requires Content(child) == BLANK && child.child == null && child.next == null && child.prev == null
    ensures var x := Tree(child, BLANK, []); Loose(x) && Separate(x) && Blocks(x) == {child} && ConstNames(x) == {}
  {
  }

  /** Once the value of the last child is read, it takes the place of the blank item. */
  twostate lemma Regrow(item: Node, new us: seq<Tree>, new child: Node, new x0: Tree, new kids: seq<Tree>)
    requires old(allocated(us)) && old(allocated(child)) && old(allocated(x0)) && old(allocated(ForestNodes(us)))
    requires x0.node == child && old(Reading(item, us + [x0], child)) && unchanged(item)
    requires child.next == old(child.next) && child.prev == old(child.prev)
    requires forall n :: n in ForestNodes(us) ==> unchanged(n)
    requires Made(child, kids) && item !in Nodes(TreeOf(child, kids))
    requires Separate(TreeOf(child, kids)) && Blocks(TreeOf(child, kids)) !! ForestBlocks(us)
    ensures Reading(item, us + [TreeOf(child, kids)], child)
    ensures ForestBlocks(us + [TreeOf(child, kids)]) == ForestBlocks(us) + Blocks(TreeOf(child, kids))
  {
    hide Realised, RealisedAll, Nodes, ForestNodes, TopNodes, Separate, SeparateAll, Blocks, ForestBlocks, Linked, Made;
    var x := TreeOf(child, kids);
    LastTop(us, x0);
    ForestNodesAppend(us, x0);
    RelinkLast(us + [x0], us + [x], item.child);
    KeepForest(us, x0);
    ButLast(us, x0);
    ConstAppend(us, x0);
    Regrown(item, us, child, kids);
  }

  lemma Regrown(item: Node, us: seq<Tree>, child: Node, kids: seq<Tree>)
    requires Linked(us + [TreeOf(child, kids)], item.child) && RealisedAll(us)
    requires item.valuestring == null && !item.isReference && !item.stringIsConst
    requires SeparateAll(us) && ForestConstNames(us) == {}
    requires Made(child, kids) && item !in Nodes(TreeOf(child, kids)) && item !in ForestNodes(us)
    requires Separate(TreeOf(child, kids)) && Blocks(TreeOf(child, kids)) !! ForestBlocks(us)
    ensures Reading(item, us + [TreeOf(child, kids)], child)
    ensures ForestBlocks(us + [TreeOf(child, kids)]) == ForestBlocks(us) + Blocks(TreeOf(child, kids))
  {
    hide Realised, RealisedAll, Nodes, ForestNodes, TopNodes, Separate, SeparateAll, Blocks, ForestBlocks, Linked, Made;
    var x := TreeOf(child, kids);
    MadeRealised(child, kids);
    ConstAppend(us, x);
    AllRealised(us, x);
    SeparateAppend(us, x);
    BlocksAppend(us, x);
    ForestNodesAppend(us, x);
    assert (us + [x])[|us|] == x;
  }

  /** Trees at the same nodes are linked alike as long as the sibling links stay. */
  twostate lemma RelinkLast(vs: seq<Tree>, new ws: seq<Tree>, new first: Node?)
    requires old(allocated(TopNodes(vs))) && old(allocated(first)) && old(Linked(vs, first))
    requires |ws| == |vs| && forall k :: 0 <= k < |vs| ==> ws[k].node == vs[k].node
    requires forall n :: n in TopNodes(vs) ==> n.next == old(n.next) && n.prev == old(n.prev)
    ensures Linked(ws, first)
  {
    assert forall k :: 0 <= k < |vs| ==> vs[k].node in TopNodes(vs);
  }

  /** The finished children stay what they are. */
  twostate lemma KeepForest(us: seq<Tree>, new x0: Tree)
    requires old(allocated(ForestNodes(us))) && forall n :: n in ForestNodes(us) ==> unchanged(n)
    requires old(allocated(x0)) && old(allocated(ForestNodes(us + [x0]))) && old(RealisedAll(us + [x0]))
    ensures RealisedAll(us)
  {
    hide Realised;
    var vs := us + [x0];
    assert forall k :: 0 <= k < |us| ==> vs[k] == us[k];
    forall k | 0 <= k < |us| ensures Realised(us[k]) {
      assert Nodes(us[k]) <= ForestNodes(us);
    }
  }

  lemma LastTop(us: seq<Tree>, x0: Tree)
    ensures forall n :: n in TopNodes(us + [x0]) ==> n in ForestNodes(us) || n == x0.node
  {
    TopInForest(us);
  }

  lemma ButLast(us: seq<Tree>, x0: Tree)
    requires SeparateAll(us + [x0])
    ensures SeparateAll(us)
  {
    hide Realised, Separate, Blocks;
    var vs := us + [x0];
    assert forall k :: 0 <= k < |us| ==> vs[k] == us[k];
  }

  lemma MadeRealised(child: Node, kids: seq<Tree>)
    requires Made(child, kids)
    ensures Realised(TreeOf(child, kids)) && ConstNames(TreeOf(child, kids)) == {}
  {
  }

  /** A value read into a vacant item makes a proper tree of that item. */
  lemma MadeSeparate(child: Node, kids: seq<Tree>)
    requires Made(child, kids) && child !in ForestBlocks(kids)
    requires child.name != null ==> child.name !in ValueBlocks(child, kids)
    ensures Separate(TreeOf(child, kids))
    ensures Blocks(TreeOf(child, kids)) == {child} + NameBlocks(child) + ValueBlocks(child, kids)
  {
  }

  ghost function NameBlocks(item: Node): set<object>
    reads item
  {
    if item.name == null then {} else {item.name as object}
  }

  lemma NodesInBlocks(child: Node, kids: seq<Tree>, item: Node)
    requires child != item && item !in ForestBlocks(kids)
    ensures item !in Nodes(TreeOf(child, kids))
  {
    ForestNodesAreBlocks(kids);
  }

  /** One turn of the loop of parse_array: a new child, and its value. */
  method ReadItem(h: Heap, item: Node, last: Node?, s: bytes, i: nat, ghost us: seq<Tree>)
    returns (child: Node, end: int, ep: nat, ghost x: Tree)
    requires i <= |s| && !ParseValue(s, Skip(s, i)).Broken? && Reading(item, us, last)
    modifies h, item`child, Just(last)`next
    ensures Reading(item, us + [x], child) && fresh(child) && fresh(Blocks(x)) && h.live == old(h.live) + Blocks(x)
    ensures ForestBlocks(us + [x]) == ForestBlocks(us) + Blocks(x)
    ensures var r := ParseValue(s, Skip(s, i));
            if r.Ok? then end == r.end && ValueOf(x) == r.value else end < 0 && r == Fail(ep)
    decreases |s| - i, 3
  {
    hide Realised, RealisedAll, Nodes, ForestNodes, TopNodes, Separate, SeparateAll, Blocks, ForestBlocks, Linked, Made;
    hide ParseValue, ValueOf;
    assert allocated(ForestNodes(us)) && allocated(ForestBlocks(us));
    child := NewChild(h, item, last, us);
    label L:
    assert allocated(ForestNodes(us)) && allocated(ForestBlocks(us));
    ghost var kids;
    end, ep, kids := ParseValueInto(h, child, s, Skip(s, i));
    x := TreeOf(child, kids);
    assert child !in ValueBlocks(child, kids) && item !in ValueBlocks(child, kids);
    MadeSeparate(child, kids);
    NodesInBlocks(child, kids, item);
    Regrow@L(item, us, child, Tree(child, BLANK, []), kids);
  }

  /** us hold the values before s[value], in an array that begins at s[start]. */
  ghost predicate ItemsDone(s: bytes, start: nat, value: nat, us: seq<Tree>)
    requires start <= |s| && value <= |s|
  {
    ParseItems(s, start) == Onto(ValuesOf(us), ItemsRest(s, value))
  }

  lemma FirstItem(s: bytes, start: nat, e: nat, x: Tree)
    requires start <= |s| && ParseValue(s, Skip(s, start)) == Ok(ValueOf(x), e)
    ensures ItemsDone(s, start, Skip(s, e), [x])
  {
    ItemsStep(s, start);
    assert ValuesOf([x]) == [ValueOf(x)];
  }

  lemma NextItem(s: bytes, start: nat, value: nat, us: seq<Tree>, e: nat, x: Tree)
    requires start <= |s| && value < |s| && At(s, value) == COMMA && ItemsDone(s, start, value, us)
    requires ParseValue(s, Skip(s, value + 1)) == Ok(ValueOf(x), e)
    ensures ItemsDone(s, start, Skip(s, e), us + [x])
  {
    ItemsStep(s, value + 1);
    ValuesAppend(us, [x]);
    assert ValuesOf([x]) == [ValueOf(x)];
    OntoOnto(ValuesOf(us), [ValueOf(x)], ItemsRest(s, Skip(s, e)));
  }

  lemma NoNextItem(s: bytes, start: nat, value: nat, us: seq<Tree>)
    requires start <= |s| && value < |s| && At(s, value) == COMMA && ItemsDone(s, start, value, us)
    requires !ParseItems(s, start).Broken?
    ensures !ParseValue(s, Skip(s, value + 1)).Broken?
    ensures ParseValue(s, Skip(s, value + 1)).Fail? ==>
            ParseItems(s, start) == Fail(ParseValue(s, Skip(s, value + 1)).at)
  {
  }

  lemma ItemsEnd(s: bytes, start: nat, value: nat, us: seq<Tree>)
    requires start <= |s| && value <= |s| && At(s, value) != COMMA && ItemsDone(s, start, value, us)
    ensures ParseItems(s, start) == if At(s, value) == CLOSE_BRACKET then Ok(ValuesOf(us), value + 1) else Fail(value)
  {
    assert ValuesOf(us) + [] == ValuesOf(us);
  }

  /** What parse_value is to do at an opening bracket. */
  lemma ArrayAt(s: bytes, i: nat)
    requires i < |s| && At(s, i) == OPEN_BRACKET
    ensures ParseValue(s, i) ==
            var j := Skip(s, i + 1);
            if At(s, j) == CLOSE_BRACKET then Ok(Array([]), j + 1)
            else match ParseItems(s, j)
              case Ok(items, e) => Ok(Array(items), e)
              case Fail(at) => Fail(at)
              case Broken => Broken
  {
  }

  /** The loop of parse_array, once it has read us0. */
  method ParseMoreItems(h: Heap, item: Node, last: Node, s: bytes, ghost start: nat, value0: nat,
                        ghost us0: seq<Tree>, ghost live0: set<object>)
    returns (end: int, ep: nat, ghost us: seq<Tree>)
    requires start < value0 <= |s| && !ParseItems(s, start).Broken? && ItemsDone(s, start, value0, us0)
    requires Reading(item, us0, last) && h.live == live0 + ForestBlocks(us0)
    modifies h, item`child, last`next
    ensures Made(item, us) && ValueBlocks(item, us) == ForestBlocks(us)
    ensures fresh(ForestBlocks(us) - ForestBlocks(us0)) && h.live == live0 + ForestBlocks(us)
    ensures var r := ParseItems(s, start);
            if r.Ok? then end == r.end && ValuesOf(us) == r.value else end < 0 && r == Fail(ep)
    decreases |s| - value0, 4
  {
    hide Realised, RealisedAll, Nodes, ForestNodes, TopNodes, Separate, SeparateAll, Blocks, ForestBlocks, Linked, Made;
    hide ParseValue, ParseItems, ValueOf, ValuesOf, ItemsDone, Growing, Reading, Skip, ValueBlocks;
    var child, value := last, value0;
    us, ep, end := us0, value0, -1;
    ReadingIsMade(item, us, child);
    while Read(s, value) == COMMA
      invariant value0 <= value <= |s| && ItemsDone(s, start, value, us)
      invariant Reading(item, us, child) && (child == last || fresh(child))
      invariant fresh(ForestBlocks(us) - ForestBlocks(us0)) && h.live == live0 + ForestBlocks(us)
      decreases |s| - value
    {
      NoNextItem(s, start, value, us);
      var e;
      ghost var x;
      ghost var done := ForestBlocks(us);
      child, e, ep, x := ReadItem(h, item, child, s, value + 1, us);
      UnionAssociative(live0, done, Blocks(x));
      ghost var vs := us;
      us := us + [x];
      ReadingIsMade(item, us, child);
      if e < 0 {
        return;
      }
      NextItem(s, start, value, vs, e, x);
      value := Skip(s, e);
    }
    ItemsEnd(s, start, value, us);
    ReadingIsMade(item, us, child);
    if Read(s, value) == CLOSE_BRACKET {
      return value + 1, ep, us;
    }
    ep := value;
  }

  /** parse_array from the first item on. */
  method ParseItemsInto(h: Heap, item: Node, s: bytes, start: nat) returns (end: int, ep: nat, ghost us: seq<Tree>)
    requires start <= |s| && !ParseItems(s, start).Broken? && Vacant(item)
    modifies h, item`child
    ensures Made(item, us) && fresh(ForestBlocks(us)) && h.live == old(h.live) + ForestBlocks(us)
    ensures var r := ParseItems(s, start);
            if r.Ok? then end == r.end && ValuesOf(us) == r.value else end < 0 && r == Fail(ep)
    decreases |s| - start, 4
  {
    NothingYet(item);
    ItemsStep(s, start);
    hide Realised, RealisedAll, Nodes, ForestNodes, TopNodes, Separate, SeparateAll, Blocks, ForestBlocks, Linked, Made;
    hide ParseValue, ParseItems, ValueOf, ValuesOf, ItemsDone, Growing, Reading, Skip, ItemsRest, Onto, TreeOf;
    var child, e, p;
    ghost var x;
    child, e, p, x := ReadItem(h, item, null, s, start, []);
    assert [] + [x] == [x];
    us := [x];
    ReadingIsMade(item, us, child);
    if e < 0 {
      return -1, p, us;
    }
    FirstItem(s, start, e, x);
    end, ep, us := ParseMoreItems(h, item, child, s, start, Skip(s, e), [x], old(h.live));
  }

  lemma NoValues()
    ensures ValuesOf([]) == [] && MembersOf([]) == [] && ForestBlocks([]) == {}
  {
  }

  /** parse_array */
  method ParseArrayInto(h: Heap, item: Node, s: bytes, i: nat) returns (end: int, ep: nat, ghost us: seq<Tree>)
    requires i < |s| && At(s, i) == OPEN_BRACKET && !ParseValue(s, i).Broken? && Vacant(item)
    modifies h, item`child, item`kind
    ensures Made(item, us) && fresh(ForestBlocks(us)) && h.live == old(h.live) + ForestBlocks(us)
    ensures item.kind == KArray
    ensures match ParseValue(s, i)
            case Ok(v, e) => end == e && Array(ValuesOf(us)) == v
            case _ => end < 0 && ParseValue(s, i) == Fail(ep)
    decreases |s| - i, 1
  {
    hide Realised, RealisedAll, Nodes, ForestNodes, TopNodes, Separate, SeparateAll, Blocks, ForestBlocks, Linked, Made;
    hide ParseValue, ParseItems, ValueOf, ValuesOf, ItemsDone, Growing, Reading, Skip;
    ArrayAt(s, i);
    item.kind := KArray;
    NothingYet(item);
    us, ep := [], i;
    var value := Skip(s, i + 1);
    if Read(s, value) == CLOSE_BRACKET {
      NoValues();
      return value + 1, ep, us;
    }
    end, ep, us := ParseItemsInto(h, item, s, value);
  }

  // ---------------------------------------------------------------- objects

  /** The parts of a member, as parse_object reads them. */
  lemma MemberAt(s: bytes, i: nat)
    requires i <= |s|
    ensures ParseMember(s, i) ==
            match ParseString(s, Skip(s, i))
            case Fail(at) => Fail(at)
            case Broken => Broken
            case Ok(name, e) =>
              var j := Skip(s, e);
              if At(s, j) != COLON then Fail(j)
              else match ParseValue(s, Skip(s, j + 1))
                case Fail(at) => Fail(at)
                case Broken => Broken
                case Ok(v, e') => Ok(Member(name, v), e')
  {
  }

  /** One name, colon and value: the string read for the name moves over to the name field. */
  method ParseMemberInto(h: Heap, child: Node, s: bytes, i: nat) returns (end: int, ep: nat, ghost kids: seq<Tree>)
    requires i <= |s| && !ParseMember(s, i).Broken? && Vacant(child) && child.name == null
    modifies h, child`child, child`kind, child`valuestring, child`mantissa, child`exponent, child`name
    ensures Made(child, kids) && fresh(NameBlocks(child)) && fresh(ValueBlocks(child, kids))
    ensures child.name != null ==> child.name !in ValueBlocks(child, kids)
    ensures h.live == old(h.live) + NameBlocks(child) + ValueBlocks(child, kids)
    ensures var r := ParseMember(s, i);
            if r.Ok? then end == r.end && MemberOf(TreeOf(child, kids)) == r.value else end < 0 && r == Fail(ep)
    decreases |s| - i, 3
  {
    hide Realised, RealisedAll, Nodes, ForestNodes, TopNodes, Separate, SeparateAll, Blocks, ForestBlocks, Linked, Made;
    hide ParseValue, ParseMember, ParseString, ValueOf, ValueBlocks, Skip;
    MemberAt(s, i);
    kids := [];
    NothingYet(child);
    var e;
    e, ep := ParseStringInto(h, child, s, Skip(s, i));
    if e < 0 {
      NothingYet(child);
      return -1, ep, kids;
    }
    child.name := child.valuestring;
    child.valuestring := null;
    NothingYet(child);
    var value := Skip(s, e);
    if Read(s, value) != COLON {
      return -1, value, kids;
    }
    end, ep, kids := ParseValueInto(h, child, s, Skip(s, value + 1));
  }

  /** One turn of the loop of parse_object: a new child, its name and its value. */
  method ReadMember(h: Heap, item: Node, last: Node?, s: bytes, i: nat, ghost us: seq<Tree>)
    returns (child: Node, end: int, ep: nat, ghost x: Tree)
    requires i <= |s| && !ParseMember(s, i).Broken? && Reading(item, us, last)
    modifies h, item`child, Just(last)`next
    ensures Reading(item, us + [x], child) && fresh(child) && fresh(Blocks(x)) && h.live == old(h.live) + Blocks(x)
    ensures ForestBlocks(us + [x]) == ForestBlocks(us) + Blocks(x)
    ensures var r := ParseMember(s, i);
            if r.Ok? then end == r.end && MemberOf(x) == r.value else end < 0 && r == Fail(ep)
    decreases |s| - i, 4
  {
    hide Realised, RealisedAll, Nodes, ForestNodes, TopNodes, Separate, SeparateAll, Blocks, ForestBlocks, Linked, Made;
    hide ParseMember, ValueOf, MemberOf, Skip;
    assert allocated(ForestNodes(us)) && allocated(ForestBlocks(us));
    child := NewChild(h, item, last, us);
    label L:
    assert allocated(ForestNodes(us)) && allocated(ForestBlocks(us));
    ghost var kids;
    end, ep, kids := ParseMemberInto(h, child, s, i);
    x := TreeOf(child, kids);
    assert child !in ValueBlocks(child, kids) && item !in ValueBlocks(child, kids);
    MadeSeparate(child, kids);
    NodesInBlocks(child, kids, item);
    Regrow@L(item, us, child, Tree(child, BLANK, []), kids);
  }

  /** us hold the members before s[value], in an object whose members begin at s[start]. */
  ghost predicate MembersDone(s: bytes, start: nat, value: nat, us: seq<Tree>)
    requires start <= |s| && value <= |s|
  {
    ParseMembers(s, start) == Onto(MembersOf(us), MembersRest(s, value))
  }

  lemma FirstMember(s: bytes, start: nat, e: nat, x: Tree)
    requires start <= |s| && ParseMember(s, start) == Ok(MemberOf(x), e)
    ensures MembersDone(s, start, Skip(s, e), [x])
  {
    MembersStep(s, start);
    assert MembersOf([x]) == [MemberOf(x)];
  }

  lemma NextMember(s: bytes, start: nat, value: nat, us: seq<Tree>, e: nat, x: Tree)
    requires start <= |s| && value < |s| && At(s, value) == COMMA && MembersDone(s, start, value, us)
    requires ParseMember(s, value + 1) == Ok(MemberOf(x), e)
    ensures MembersDone(s, start, Skip(s, e), us + [x])
  {
    MembersStep(s, value + 1);
    MembersAppend(us, [x]);
    assert MembersOf([x]) == [MemberOf(x)];
    OntoOnto(MembersOf(us), [MemberOf(x)], MembersRest(s, Skip(s, e)));
  }

  lemma NoNextMember(s: bytes, start: nat, value: nat, us: seq<Tree>)
    requires start <= |s| && value < |s| && At(s, value) == COMMA && MembersDone(s, start, value, us)
    requires !ParseMembers(s, start).Broken?
    ensures !ParseMember(s, value + 1).Broken?
    ensures ParseMember(s, value + 1).Fail? ==> ParseMembers(s, start) == Fail(ParseMember(s, value + 1).at)
  {
  }

  lemma MembersEnd(s: bytes, start: nat, value: nat, us: seq<Tree>)
    requires start <= |s| && value <= |s| && At(s, value) != COMMA && MembersDone(s, start, value, us)
    ensures ParseMembers(s, start) == if At(s, value) == CLOSE_BRACE then Ok(MembersOf(us), value + 1) else Fail(value)
  {
    assert MembersOf(us) + [] == MembersOf(us);
  }

  /** What parse_value is to do at an opening brace. */
  lemma ObjectAt(s: bytes, i: nat)
    requires i < |s| && At(s, i) == OPEN_BRACE
    ensures ParseValue(s, i) ==
            var j := Skip(s, i + 1);
            if At(s, j) == CLOSE_BRACE then Ok(Object([]), j + 1)
            else match ParseMembers(s, j)
              case Ok(members, e) => Ok(Object(members), e)
              case Fail(at) => Fail(at)
              case Broken => Broken
  {
  }

  /** The loop of parse_object, once it has read us0. */
  method ParseMoreMembers(h: Heap, item: Node, last: Node, s: bytes, ghost start: nat, value0: nat,
                          ghost us0: seq<Tree>, ghost live0: set<object>)
    returns (end: int, ep: nat, ghost us: seq<Tree>)
    requires start < value0 <= |s| && !ParseMembers(s, start).Broken? && MembersDone(s, start, value0, us0)
    requires Reading(item, us0, last) && h.live == live0 + ForestBlocks(us0)
    modifies h, item`child, last`next
    ensures Made(item, us) && ValueBlocks(item, us) == ForestBlocks(us)
    ensures fresh(ForestBlocks(us) - ForestBlocks(us0)) && h.live == live0 + ForestBlocks(us)
    ensures var r := ParseMembers(s, start);
            if r.Ok? then end == r.end && MembersOf(us) == r.value else end < 0 && r == Fail(ep)
    decreases |s| - value0, 5
  {
    hide Realised, RealisedAll, Nodes, ForestNodes, TopNodes, Separate, SeparateAll, Blocks, ForestBlocks, Linked, Made;
    hide ParseMember, ParseMembers, MemberOf, MembersOf, MembersDone, Growing, Reading, Skip, ValueBlocks;
    var child, value := last, value0;
    us, ep, end := us0, value0, -1;
    ReadingIsMade(item, us, child);
    while Read(s, value) == COMMA
      invariant value0 <= value <= |s| && MembersDone(s, start, value, us)
      invariant Reading(item, us, child) && (child == last || fresh(child))
      invariant fresh(ForestBlocks(us) - ForestBlocks(us0)) && h.live == live0 + ForestBlocks(us)
      decreases |s| - value
    {
      NoNextMember(s, start, value, us);
      var e;
      ghost var x;
      ghost var done := ForestBlocks(us);
      child, e, ep, x := ReadMember(h, item, child, s, value + 1, us);
      UnionAssociative(live0, done, Blocks(x));
      ghost var vs := us;
      us := us + [x];
      ReadingIsMade(item, us, child);
      if e < 0 {
        return;
      }
      NextMember(s, start, value, vs, e, x);
      value := Skip(s, e);
    }
    MembersEnd(s, start, value, us);
    ReadingIsMade(item, us, child);
    if Read(s, value) == CLOSE_BRACE {
      return value + 1, ep, us;
    }
    ep := value;
  }

  /** parse_object from the first member on. */
  method ParseMembersInto(h: Heap, item: Node, s: bytes, start: nat) returns (end: int, ep: nat, ghost us: seq<Tree>)
    requires start <= |s| && !ParseMembers(s, start).Broken? && Vacant(item)
    modifies h, item`child
    ensures Made(item, us) && fresh(ForestBlocks(us)) && h.live == old(h.live) + ForestBlocks(us)
    ensures var r := ParseMembers(s, start);
            if r.Ok? then end == r.end && MembersOf(us) == r.value else end < 0 && r == Fail(ep)
    decreases |s| - start, 5
  {
    NothingYet(item);
    MembersStep(s, start);
    hide Realised, RealisedAll, Nodes, ForestNodes, TopNodes, Separate, SeparateAll, Blocks, ForestBlocks, Linked, Made;
    hide ParseMember, ParseMembers, MemberOf, MembersOf, MembersDone, Growing, Reading, Skip, MembersRest, Onto, TreeOf;
    var child, e, p;
    ghost var x;
    child, e, p, x := ReadMember(h, item, null, s, start, []);
    assert [] + [x] == [x];
    us := [x];
    ReadingIsMade(item, us, child);
    if e < 0 {
      return -1, p, us;
    }
    FirstMember(s, start, e, x);
    end, ep, us := ParseMoreMembers(h, item, child, s, start, Skip(s, e), [x], old(h.live));
  }

  /** parse_object */
  method ParseObjectInto(h: Heap, item: Node, s: bytes, i: nat) returns (end: int, ep: nat, ghost us: seq<Tree>)
    requires i < |s| && At(s, i) == OPEN_BRACE && !ParseValue(s, i).Broken? && Vacant(item)
    modifies h, item`child, item`kind
    ensures Made(item, us) && fresh(ForestBlocks(us)) && h.live == old(h.live) + ForestBlocks(us)
    ensures item.kind == KObject
    ensures match ParseValue(s, i)
            case Ok(v, e) => end == e && Object(MembersOf(us)) == v
            case _ => end < 0 && ParseValue(s, i) == Fail(ep)
    decreases |s| - i, 1
  {
    hide Realised, RealisedAll, Nodes, ForestNodes, TopNodes, Separate, SeparateAll, Blocks, ForestBlocks, Linked, Made;
    hide ParseValue, ParseMembers, ValueOf, MembersOf, MembersDone, Growing, Reading, Skip;
    ObjectAt(s, i);
    item.kind := KObject;
    NothingYet(item);
    us, ep := [], i;
    var value := Skip(s, i + 1);
    if Read(s, value) == CLOSE_BRACE {
      NoValues();
      return value + 1, ep, us;
    }
    end, ep, us := ParseMembersInto(h, item, s, value);
  }

  // ---------------------------------------------------------------- cJSON_ParseWithOpts

  /** The tree that a finished item is. */
  lemma WholeTree(c: Node, us: seq<Tree>)
    requires Made(c, us) && c !in ForestBlocks(us) && c.name == null && c.next == null && c.prev == null
    ensures var t := TreeOf(c, us); Loose(t) && Separate(t) && Blocks(t) == {c as object} + ValueBlocks(c, us)
    ensures Own(TreeOf(c, us)) == Blocks(TreeOf(c, us)) && Sole(TreeOf(c, us))
  {
    MadeRealised(c, us);
    MadeSeparate(c, us);
    assert NameBlocks(c) == {};
    BlocksNotOwned(TreeOf(c, us));
    OwnInBlocks(TreeOf(c, us));
  }

  /** cJSON_ParseWithOpts. A parse that fails has freed all it allocated; one that succeeds returns
      a tree with the value of the text, on fresh blocks that cJSON_Delete frees again. */
  method ParseWithOpts(h: Heap, s: bytes, requireTerminated: bool) returns (c: Node?, end: nat, ghost t: Tree)
    requires !ParseText(s, requireTerminated).Broken?
    modifies h
    ensures match ParseText(s, requireTerminated)
            case Ok(v, e) =>
              && c != null && t.node == c && Loose(t) && Separate(t) && Sole(t) && ValueOf(t) == v && end == e
              && fresh(Own(t)) && h.live == old(h.live) + Own(t)
            case _ => c == null && h.live == old(h.live) && ParseText(s, requireTerminated) == Fail(end)
  {
    hide Realised, RealisedAll, Nodes, ForestNodes, TopNodes, Separate, SeparateAll, Blocks, ForestBlocks, Linked, Made;
    hide ParseValue, ValueOf, Skip, Own, Sole;
    var item := h.NewItem();
    var e, p;
    ghost var us;
    e, p, us := ParseValueInto(h, item, s, Skip(s, 0));
    t := TreeOf(item, us);
    WholeTree(item, us);
    UnionAssociative(old(h.live), {item}, ValueBlocks(item, us));
    end := p;
    if e >= 0 {
      end := if requireTerminated then Skip(s, e) else e;
    }
    if e < 0 || (requireTerminated && Read(s, end) != 0) {
      DeleteTree(h, item, t, old(h.live));
      c := null;
    } else {
      c := item;
    }
  }

  /** cJSON_Delete of a single tree. */
  method DeleteTree(h: Heap, c: Node, ghost t: Tree, ghost rest: set<object>)
    requires t.node == c && Loose(t) && Sole(t) && rest !! Own(t) && h.live == rest + Own(t)
    modifies h
    ensures h.live == rest
  {
    OneTree(t);
    Delete(h, c, [t]);
  }

  /** Parsing and then deleting leaves the heap as it was, on every text on which the parser is defined. */
  method ParseThenDelete(h: Heap, s: bytes, requireTerminated: bool)
    requires !ParseText(s, requireTerminated).Broken?
    modifies h
    ensures h.live == old(h.live)
  {
    hide ParseText, Realised, Separate, Own, Sole, Blocks, Nodes, ValueOf;
    var c, end, t := ParseWithOpts(h, s, requireTerminated);
    if c != null {
      DeleteTree(h, c, t, old(h.live));
    }
  }
}
