/** print_value and its parts over a printbuffer: each leaves exactly the text of the unbuffered
    printer behind the offset it was called with. */
module JsonBuffered {
  import opened CText
  import opened StringCodec
  import opened StringRoutines
  import opened Json
  import opened JsonTree
  import opened JsonHeap
  import opened JsonPrinter
  import opened JsonBuffer

  /** print_string_ptr */
  method PrintStringInto(str: bytes, p: PrintBuffer) returns (out: nat)
    requires NulFree(str) && p.Valid() && p.Fits(|Quoted(str)| + SLACK)
    modifies p, p.buffer, p.heap
    ensures Wrote(p, old(p.Done()), Quoted(str)) && out == p.offset == old(p.offset)
    ensures p.Grown()
  {
    hide Escape;
    ghost var before := p.Done();
    var flag, len := MeasureString(str);
    out := Ensure(p, len + 3);
    assert p.buffer[..out] == before;
    FillString(p.buffer, out, str, flag, len);
    assert p.buffer[..out] == before;
    assert p.buffer[..out + len + 2] == p.buffer[..out] + p.buffer[out..out + len + 2];
  }

  /** print_number, for integers */
  method PrintNumberInto(n: int, p: PrintBuffer) returns (out: nat)
    requires -0x8000_0000 <= n < 0x8000_0000 && p.Valid() && p.Fits(SLACK)
    modifies p, p.buffer, p.heap
    ensures Wrote(p, old(p.Done()), Decimal(n)) && out == p.offset == old(p.offset)
    ensures p.Grown()
  {
    DecimalLength(n);
    if n == 0 {
      out := Put(p, [ZERO], 2);
    } else {
      out := Put(p, Decimal(n), 21);
    }
  }

  /** print_value: `out` is where the returned pointer points. For a formatted object with members
      that is the nesting depth, not the start of its text; at the top level they are the same. */
  method PrintValueInto(item: Node, ghost t: Tree, depth: nat, fmt: bool, p: PrintBuffer) returns (out: nat)
    requires t.node == item && Realised(t) && PrintableTree(t)
    requires p.Valid() && p.Fits(|Print(ValueOf(t), depth, fmt)| + SLACK)
    modifies p, p.buffer, p.heap
    ensures Wrote(p, old(p.Done()), Print(ValueOf(t), depth, fmt))
    ensures old(p.offset) <= p.offset <= old(p.offset) + |Print(ValueOf(t), depth, fmt)|
    ensures p.Grown()
    ensures out == if t.item.kind == KObject && t.kids != [] && fmt then depth else old(p.offset)
    decreases t, 1
  {
    match item.kind
    case KNull => out := Put(p, NULL_TEXT, 5);
    case KFalse => out := Put(p, FALSE_TEXT, 6);
    case KTrue => out := Put(p, TRUE_TEXT, 5);
    case KNumber => out := PrintNumberInto(item.mantissa, p);
    case KString => out := PrintStringInto(item.valuestring.text, p);
    case KArray => out := PrintArrayInto(item, t, depth, fmt, p);
    case KObject => out := PrintObjectInto(item, t, depth, fmt, p);
  }

  /** print_value, and the offset moves behind the text. */
  method PrintEntryInto(child: Node, ghost t: Tree, depth: nat, fmt: bool, p: PrintBuffer)
    requires t.node == child && Realised(t) && PrintableTree(t)
    requires p.Valid() && p.Fits(|Print(ValueOf(t), depth, fmt)| + SLACK)
    modifies p, p.buffer, p.heap
    ensures p.Valid() && p.offset == old(p.offset) + |Print(ValueOf(t), depth, fmt)|
    ensures p.Done() == old(p.Done()) + Print(ValueOf(t), depth, fmt)
    ensures p.Grown()
    decreases t, 2
  {
    PrintableTreeValue(t);
    PrintNulFree(ValueOf(t), depth, fmt);
    ghost var before, w := p.Done(), Print(ValueOf(t), depth, fmt);
    var _ := PrintValueInto(child, t, depth, fmt, p);
    Advance(p, before, w);
  }

  lemma Joined3(before: bytes, done: bytes, text: bytes, rest: bytes, total: bytes)
    requires done + (text + rest) == before + total
    ensures (done + text) + rest == before + total
    ensures |done| + |text| + |rest| == |before| + |total|
  {
  }

  /** One turn of the loop of print_array: a child and, unless it is the last, a separator. */
  method PrintItemInto(child: Node, ghost t: Tree, ghost i: nat, depth: nat, fmt: bool, p: PrintBuffer)
    requires Realised(t) && t.item.kind == KArray && PrintableTree(t) && i < |t.kids| && child == t.kids[i].node
    requires var sep := if i + 1 < |t.kids| then ItemSeparator(fmt) else [];
             p.Valid() && p.Fits(|ItemText(t, i, depth, fmt) + sep| + SLACK)
    modifies p, p.buffer, p.heap
    ensures var text := ItemText(t, i, depth, fmt) + if i + 1 < |t.kids| then ItemSeparator(fmt) else [];
            p.Valid() && p.offset == old(p.offset) + |text| && p.Done() == old(p.Done()) + text
    ensures p.Grown()
    decreases t, 0, 0, 0
  {
    AtKid(t, i);
    assert PrintableTree(t.kids[i]);
    assert allocated(Nodes(t));
    hide Realised, RealisedAll, Nodes, ForestNodes, TopNodes, Linked, Print, ValueOf, PrintBuffer.Done;
    ghost var done := p.Done();
    PrintEntryInto(child, t.kids[i], depth, fmt, p);
    AtKid(t, i);
    if child.next != null {
      var len := if fmt then 2 else 1;
      Emit(p, ItemSeparator(fmt), len + 1, true);
      assert (done + ItemText(t, i, depth, fmt)) + ItemSeparator(fmt) ==
          done + (ItemText(t, i, depth, fmt) + ItemSeparator(fmt));
    } else {
      assert ItemText(t, i, depth, fmt) + [] == ItemText(t, i, depth, fmt);
    }
  }

  /** The loop of print_array over the children. */
  method PrintItemsInto(item: Node, ghost t: Tree, depth: nat, fmt: bool, p: PrintBuffer)
    requires t.node == item && t.item.kind == KArray && t.kids != [] && Realised(t) && PrintableTree(t)
    requires p.Valid() && p.Fits(|ItemsLeft(t, 0, depth, fmt)| + SLACK)
    modifies p, p.buffer, p.heap
    ensures p.Valid() && p.offset == old(p.offset) + |ItemsLeft(t, 0, depth, fmt)|
    ensures p.Done() == old(p.Done()) + ItemsLeft(t, 0, depth, fmt)
    ensures p.Grown()
    decreases t, 0, 0
  {
    hide Realised, RealisedAll, Nodes, ForestNodes, TopNodes, Linked, Print, ValueOf, ItemsLeft;
    AtRoot(t);
    assert allocated(Nodes(t));
    ghost var before, total := p.Done(), ItemsLeft(t, 0, depth, fmt);
    assert |before| == p.offset;
    hide PrintBuffer.Done;
    var child := item.child;
    ghost var i := 0;
    while child != null
      invariant Realised(t) && allocated(Nodes(t)) && 0 <= i <= |t.kids| && child == NodeAt(t.kids, i)
      invariant p.Valid() && p.Grown()
      invariant p.Done() + ItemsLeft(t, i, depth, fmt) == before + total
      invariant p.offset + |ItemsLeft(t, i, depth, fmt)| == |before| + |total|
      decreases |t.kids| - i
    {
      ItemsLeftStep(t, i, depth, fmt);
      ghost var done := p.Done();
      ghost var sep := if i + 1 < |t.kids| then ItemSeparator(fmt) else [];
      PrintItemInto(child, t, i, depth, fmt, p);
      AtKid(t, i);
      Joined3(before, done, ItemText(t, i, depth, fmt) + sep, ItemsLeft(t, i + 1, depth, fmt), total);
      child := child.next;
      i := i + 1;
    }
    NoneLeft(t, depth, fmt);
    assert p.Done() + [] == p.Done();
  }

  /** print_array */
  method PrintArrayInto(item: Node, ghost t: Tree, depth: nat, fmt: bool, p: PrintBuffer) returns (out: nat)
    requires t.node == item && t.item.kind == KArray && Realised(t) && PrintableTree(t)
    requires p.Valid() && p.Fits(|Print(ValueOf(t), depth, fmt)| + SLACK)
    modifies p, p.buffer, p.heap
    ensures Wrote(p, old(p.Done()), Print(ValueOf(t), depth, fmt))
    ensures old(p.offset) <= p.offset <= old(p.offset) + |Print(ValueOf(t), depth, fmt)|
    ensures p.Grown()
    ensures out == old(p.offset)
    decreases t, 0
  {
    assert allocated(Nodes(t));
    ArrayText(t, depth, fmt);
    hide Realised, PrintableTree, Nodes, Print, ValueOf, ItemsLeft;
    ghost var before := p.Done();
    var numentries := CountEntries(item, t);
    if numentries == 0 {
      out := Put(p, [OPEN_BRACKET, CLOSE_BRACKET], 3);
      return;
    }
    out := PrintFilledArrayInto(item, t, depth, fmt, p);
  }

  /** print_array where there are children. */
  method PrintFilledArrayInto(item: Node, ghost t: Tree, depth: nat, fmt: bool, p: PrintBuffer) returns (out: nat)
    requires t.node == item && t.item.kind == KArray && t.kids != [] && Realised(t) && PrintableTree(t)
    requires p.Valid()
    requires p.Fits(|[OPEN_BRACKET] + ItemsLeft(t, 0, depth + 1, fmt) + [CLOSE_BRACKET]| + SLACK)
    modifies p, p.buffer, p.heap
    ensures Wrote(p, old(p.Done()), [OPEN_BRACKET] + ItemsLeft(t, 0, depth + 1, fmt) + [CLOSE_BRACKET])
    ensures old(p.offset) <= p.offset <= old(p.offset) + |ItemsLeft(t, 0, depth + 1, fmt)| + 2
    ensures p.Grown()
    ensures out == old(p.offset)
    decreases t, 0, 1
  {
    assert allocated(Nodes(t));
    hide Realised, PrintableTree, Nodes, ItemsLeft, Wrote, PrintBuffer.Done;
    ghost var before, inner := p.Done(), ItemsLeft(t, 0, depth + 1, fmt);
    out := p.offset;
    Emit(p, [OPEN_BRACKET], 1, false);
    PrintItemsInto(item, t, depth + 1, fmt, p);
    var _ := Put(p, [CLOSE_BRACKET], 2);
    Around(p, before, [OPEN_BRACKET], inner, [CLOSE_BRACKET]);
  }

  lemma Around(p: PrintBuffer, before: bytes, open: bytes, inner: bytes, close: bytes)
    requires Wrote(p, (before + open) + inner, close)
    ensures Wrote(p, before, open + inner + close)
  {
    assert ((before + open) + inner) + close == before + (open + inner + close);
  }

  /** The name, the colon and the value of one member, with what comes before and behind. */
  method PrintMemberInto(child: Node, ghost t: Tree, last: bool, depth: nat, fmt: bool, p: PrintBuffer)
    requires t.node == child && Realised(t) && Named(t) && PrintableTree(t) && depth > 0
    requires p.Valid()
    requires p.Fits(|NamePrefix(Text(t.item.name), depth, fmt) + Print(ValueOf(t), depth, fmt)
             + MemberEnd(last, fmt)| + SLACK)
    modifies p, p.buffer, p.heap
    ensures var text := NamePrefix(Text(t.item.name), depth, fmt) + Print(ValueOf(t), depth, fmt)
            + MemberEnd(last, fmt);
            && p.Valid() && p.offset == old(p.offset) + |text|
            && p.Done() == old(p.Done()) + text
    ensures p.Grown()
    decreases t, 3
  {
    assert allocated(Nodes(t));
    assert Content(child) == t.item;
    hide Realised, PrintableTree, Nodes, Print, ValueOf, Quoted;
    ghost var before := p.Done();
    ghost var name := Text(t.item.name);
    PrintPrefixInto(child.name.text, depth, fmt, p);
    PrintEntryInto(child, t, depth, fmt, p);
    var len := (if fmt then 1 else 0) + (if last then 0 else 1);
    Emit(p, MemberEnd(last, fmt), len + 1, true);
    Group(before, NamePrefix(name, depth, fmt), Print(ValueOf(t), depth, fmt), MemberEnd(last, fmt));
  }

  method PrintPrefixInto(name: bytes, depth: nat, fmt: bool, p: PrintBuffer)
    requires NulFree(name) && depth > 0 && p.Valid() && p.Fits(|NamePrefix(name, depth, fmt)| + SLACK)
    modifies p, p.buffer, p.heap
    ensures p.Valid() && p.offset == old(p.offset) + |NamePrefix(name, depth, fmt)|
    ensures p.Done() == old(p.Done()) + NamePrefix(name, depth, fmt)
    ensures p.Grown()
  {
    hide Quoted;
    ghost var before := p.Done();
    if fmt {
      Emit(p, Tabs(depth), depth, false);
    }
    assert p.Done() == before + FmtTabs(depth, fmt);
    PrintNameInto(name, p);
    var len := if fmt then 2 else 1;
    Emit(p, if fmt then [COLON, TAB] else [COLON], len, false);
    Prefixed(before, name, depth, fmt);
  }

  /** print_string_ptr, and the offset moves behind the literal. */
  method PrintNameInto(name: bytes, p: PrintBuffer)
    requires NulFree(name) && p.Valid() && p.Fits(|Quoted(name)| + SLACK)
    modifies p, p.buffer, p.heap
    ensures p.Valid() && p.offset == old(p.offset) + |Quoted(name)| && p.Done() == old(p.Done()) + Quoted(name)
    ensures p.Grown()
  {
    ghost var before := p.Done();
    EscapeNulFree(name);
    var _ := PrintStringInto(name, p);
    Advance(p, before, Quoted(name));
  }

  /** The loop of print_object over the children. */
  method PrintMembersInto(item: Node, ghost t: Tree, depth: nat, fmt: bool, p: PrintBuffer)
    requires t.node == item && t.item.kind == KObject && t.kids != [] && Realised(t) && PrintableTree(t) && depth > 0
    requires p.Valid() && p.Fits(|MembersLeft(t, 0, depth, fmt)| + SLACK)
    modifies p, p.buffer, p.heap
    ensures p.Valid() && p.offset == old(p.offset) + |MembersLeft(t, 0, depth, fmt)|
    ensures p.Done() == old(p.Done()) + MembersLeft(t, 0, depth, fmt)
    ensures p.Grown()
    decreases t, 0, 0
  {
    hide Realised, RealisedAll, Nodes, ForestNodes, TopNodes, Linked, Print, ValueOf, MembersLeft, MemberEnd,
        NamePrefix;
    AtRoot(t);
    assert allocated(Nodes(t));
    ghost var before, total := p.Done(), MembersLeft(t, 0, depth, fmt);
    var child := item.child;
    ghost var i := 0;
    while child != null
      invariant Realised(t) && allocated(Nodes(t)) && 0 <= i <= |t.kids| && child == NodeAt(t.kids, i)
      invariant p.Valid() && p.Grown()
      invariant p.Done() + MembersLeft(t, i, depth, fmt) == before + total
      invariant p.offset + |MembersLeft(t, i, depth, fmt)| == |before| + |total|
      decreases |t.kids| - i
    {
      AtKid(t, i);
      assert Named(t.kids[i]);
      MembersLeftStep(t, i, depth, fmt);
      ghost var done, rest := p.Done(), MembersLeft(t, i + 1, depth, fmt);
      PrintMemberInto(child, t.kids[i], child.next == null, depth, fmt, p);
      AtKid(t, i);
      assert p.Done() == done + Entry(t, i, depth, fmt);
      Joined3(before, done, Entry(t, i, depth, fmt), rest, total);
      child := child.next;
      i := i + 1;
    }
    NoneLeft(t, depth, fmt);
    assert p.Done() + [] == p.Done();
  }

  lemma EmptyObjectLength(depth: nat, fmt: bool)
    ensures |Print(Object([]), depth, fmt)| < if fmt then depth + 4 else 3
    ensures |Print(Object([]), depth, fmt)| + 2 >= if fmt then depth + 4 else 3
  {
  }

  /** print_object */
  method PrintObjectInto(item: Node, ghost t: Tree, depth: nat, fmt: bool, p: PrintBuffer) returns (out: nat)
    requires t.node == item && t.item.kind == KObject && Realised(t) && PrintableTree(t)
    requires p.Valid() && p.Fits(|Print(ValueOf(t), depth, fmt)| + SLACK)
    modifies p, p.buffer, p.heap
    ensures Wrote(p, old(p.Done()), Print(ValueOf(t), depth, fmt))
    ensures old(p.offset) <= p.offset <= old(p.offset) + |Print(ValueOf(t), depth, fmt)|
    ensures p.Grown()
    ensures out == if t.kids != [] && fmt then depth else old(p.offset)
    decreases t, 0
  {
    assert allocated(Nodes(t));
    ObjectText(t, depth, fmt);
    hide Realised, PrintableTree, Nodes, Print, ValueOf, MembersLeft;
    ghost var before := p.Done();
    var numentries := CountEntries(item, t);
    if numentries == 0 {
      EmptyObjectLength(depth, fmt);
      out := Put(p, Print(Object([]), depth, fmt), if fmt then depth + 4 else 3);
      return;
    }
    out := PrintFilledObjectInto(item, t, depth, fmt, p);
  }

  /** print_object where there are children; in formatted text the variable i, which holds the result,
      also counts the tabs before the closing brace. */
  method PrintFilledObjectInto(item: Node, ghost t: Tree, depth: nat, fmt: bool, p: PrintBuffer) returns (out: nat)
    requires t.node == item && t.item.kind == KObject && t.kids != [] && Realised(t) && PrintableTree(t)
    requires p.Valid()
    requires p.Fits(|OpenBrace(fmt) + MembersLeft(t, 0, depth + 1, fmt) + CloseBrace(depth, fmt)|
             + SLACK)
    modifies p, p.buffer, p.heap
    ensures Wrote(p, old(p.Done()), OpenBrace(fmt) + MembersLeft(t, 0, depth + 1, fmt) + CloseBrace(depth, fmt))
    ensures old(p.offset) <= p.offset
    ensures p.offset <= old(p.offset) + |OpenBrace(fmt) + MembersLeft(t, 0, depth + 1, fmt) + CloseBrace(depth, fmt)|
    ensures p.Grown()
    ensures out == if fmt then depth else old(p.offset)
    decreases t, 0, 1
  {
    assert allocated(Nodes(t));
    hide Realised, PrintableTree, Nodes, MembersLeft, Wrote, PrintBuffer.Done;
    var open := OpenBrace(fmt);
    ghost var before, inner, close := p.Done(), MembersLeft(t, 0, depth + 1, fmt), CloseBrace(depth, fmt);
    var i := p.offset;
    var len := if fmt then 2 else 1;
    Emit(p, open, len + 1, true);
    PrintMembersInto(item, t, depth + 1, fmt, p);
    var _ := Put(p, CloseBrace(depth, fmt), if fmt then depth + 2 else 2);
    if fmt {
      i := depth;
    }
    Around(p, before, open, inner, close);
    out := i;
  }

  /** cJSON_PrintBuffered returns the text of cJSON_Print or cJSON_PrintUnformatted, whatever size
      the buffer starts with. The pointer it returns is the start of the one block that is left. */
  method PrintBuffered(h: Heap, item: Node, ghost t: Tree, prebuffer: nat, fmt: bool)
    returns (buffer: array<byte>, out: nat)
    requires t.node == item && Realised(t) && PrintableTree(t)
    requires |Print(ValueOf(t), 0, fmt)| + SLACK <= if prebuffer > MAX_SIZE then prebuffer else MAX_SIZE
    modifies h
    ensures fresh(buffer) && out == 0 && CStringAt(buffer, 0, Print(ValueOf(t), 0, fmt))
    ensures h.live == old(h.live) + {buffer}
  {
    assert allocated(Nodes(t));
    var p := new PrintBuffer(h, prebuffer);
    hide Realised, PrintableTree, Nodes, Print, ValueOf;
    assert p.Done() == [];
    out := PrintValueInto(item, t, 0, fmt, p);
    buffer := p.buffer;
    assert [] + Print(ValueOf(t), 0, fmt) == Print(ValueOf(t), 0, fmt);
  }
}
