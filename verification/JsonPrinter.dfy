/** The unbuffered printers of cJSON: measure every part, allocate, then fill. */
module JsonPrinter {
  import opened CText
  import opened StringCodec
  import opened StringRoutines
  import opened Json
  import opened JsonTree
  import opened JsonHeap

  /** The array holds the C string w from position `at` on. */
  ghost predicate CStringAt(a: array<byte>, at: nat, w: bytes)
    reads a
  {
    at + |w| < a.Length && a[at..at + |w|] == w && a[at + |w|] == 0
  }

  lemma {:induction false} DecimalLength(n: int)
    requires -0x8000_0000 <= n <= 0x8000_0000
    ensures |Decimal(n)| <= 11
  {
    DigitsLength(if n < 0 then -n else n, 10);
  }

  lemma {:induction false} DigitsLength(n: nat, k: nat)
    requires 1 <= k && n < Power10(k)
    ensures |Digits(n)| <= k
  {
    if n >= 10 {
      assert Power10(1) == 10;
      DigitsLength(n / 10, k - 1);
    }
  }

  lemma {:induction false} PrintNulFree(v: Value, depth: nat, fmt: bool)
    requires Printable(v)
    ensures NulFree(Print(v, depth, fmt))
    decreases v, 1
  {
    hide PrintItems, PrintMembers, Escape;
    match v
    case String(t) => EscapeNulFree(t);
    case Array(items) => if items != [] { ItemsNulFree(items, depth + 1, fmt); }
    case Object(members) => if members != [] { MembersNulFree(members, depth + 1, fmt); }
    case _ =>
  }

  lemma {:induction false} ItemsNulFree(items: seq<Value>, depth: nat, fmt: bool)
    requires items != [] && forall x :: x in items ==> Printable(x)
    ensures NulFree(PrintItems(items, depth, fmt))
    decreases items, 0
  {
    PrintNulFree(items[0], depth, fmt);
    if |items| > 1 {
      ItemsNulFree(items[1..], depth, fmt);
    }
  }

  lemma {:induction false} MembersNulFree(members: seq<Member>, depth: nat, fmt: bool)
    requires members != [] && forall x :: x in members ==> NulFree(x.name) && Printable(x.value)
    ensures NulFree(PrintMembers(members, depth, fmt))
    decreases members, 0
  {
    hide Print, Escape;
    var m := members[0];
    assert m in members;
    EscapeNulFree(m.name);
    assert NulFree(NamePrefix(m.name, depth, fmt)) && NulFree(MemberEnd(|members| == 1, fmt));
    hide NamePrefix, MemberEnd;
    PrintNulFree(m.value, depth, fmt);
    if |members| > 1 {
      MembersNulFree(members[1..], depth, fmt);
    }
  }

  lemma CharAt(a: array<byte>, at: nat, w: bytes, n: nat)
    requires CStringAt(a, at, w) && NulFree(w) && n <= |w|
    ensures a[at + n] == 0 <==> n == |w|
  {
    if n < |w| {
      assert a[at + n] == a[at..at + |w|][n];
    }
  }

  /** strlen */
  method StrLen(a: array<byte>, at: nat, ghost w: bytes) returns (n: nat)
    requires CStringAt(a, at, w) && NulFree(w)
    ensures n == |w|
  {
    n := 0;
    CharAt(a, at, w, 0);
    while a[at + n] != 0
      invariant n <= |w| && (a[at + n] == 0 <==> n == |w|)
      decreases |w| - n
    {
      n := n + 1;
      CharAt(a, at, w, n);
    }
  }

  /** cJSON_strdup of a constant, sprintf and strcpy: a new block of the given size that holds w. */
  method NewText(h: Heap, size: nat, w: bytes) returns (out: array<byte>)
    requires |w| < size
    modifies h
    ensures fresh(out) && out.Length == size && CStringAt(out, 0, w) && h.live == old(h.live) + {out}
  {
    out := h.NewBlock(size);
    Store(out, 0, w + [0]);
    assert out[0..|w|] == out[0..|w + [0]|][..|w|] == w;
    assert out[|w|] == out[0..|w + [0]|][|w|];
  }

  /** print_string_ptr without a buffer. */
  method PrintString(h: Heap, str: bytes) returns (out: array<byte>)
    requires NulFree(str)
    modifies h
    ensures fresh(out) && CStringAt(out, 0, Quoted(str)) && out.Length == |Escape(str)| + 3
    ensures h.live == old(h.live) + {out}
  {
    var flag, len := MeasureString(str);
    out := h.NewBlock(len + 3);
    FillString(out, 0, str, flag, len);
  }

  /** print_number without a buffer, for integers. */
  method PrintNumber(h: Heap, n: int) returns (out: array<byte>)
    requires -0x8000_0000 <= n < 0x8000_0000
    modifies h
    ensures fresh(out) && CStringAt(out, 0, Decimal(n)) && h.live == old(h.live) + {out}
  {
    DecimalLength(n);
    if n == 0 {
      out := NewText(h, 2, [ZERO]);
    } else {
      out := NewText(h, 21, Decimal(n));
    }
  }

  /** print_value without a buffer. One block more is live afterwards, the one that holds the text. */
  method PrintValue(h: Heap, item: Node, ghost t: Tree, depth: nat, fmt: bool) returns (out: array<byte>)
    requires t.node == item && Realised(t) && PrintableTree(t)
    modifies h
    ensures fresh(out) && CStringAt(out, 0, Print(ValueOf(t), depth, fmt)) && h.live == old(h.live) + {out}
    decreases t, 1
  {
    match item.kind
    case KNull => out := NewText(h, 5, NULL_TEXT);
    case KFalse => out := NewText(h, 6, FALSE_TEXT);
    case KTrue => out := NewText(h, 5, TRUE_TEXT);
    case KNumber => out := PrintNumber(h, item.mantissa);
    case KString => out := PrintString(h, item.valuestring.text);
    case KArray => out := PrintArray(h, item, t, depth, fmt);
    case KObject => out := PrintObject(h, item, t, depth, fmt);
  }

  /** The loop that counts the entries. */
  method CountEntries(item: Node, ghost t: Tree) returns (n: nat)
    requires t.node == item && Realised(t)
    ensures n == |t.kids|
  {
    hide Realised, Nodes;
    AtRoot(t);
    n := 0;
    var child := item.child;
    while child != null
      invariant Realised(t) && n <= |t.kids| && child == NodeAt(t.kids, n)
      decreases |t.kids| - n
    {
      AtKid(t, n);
      n := n + 1;
      child := child.next;
    }
  }

  /** What is still to be written when the entries from k on are left. */
  ghost function ItemsLeft(t: Tree, k: nat, depth: nat, fmt: bool): bytes {
    if k < |t.kids| then PrintItems(ValuesOf(t.kids)[k..], depth, fmt) else []
  }

  ghost function ItemText(t: Tree, k: nat, depth: nat, fmt: bool): bytes
    requires k < |t.kids|
  {
    Print(ValueOf(t.kids[k]), depth, fmt)
  }

  lemma {:induction false} ValueAt(ts: seq<Tree>, k: nat)
    requires k < |ts|
    ensures ValuesOf(ts)[k] == ValueOf(ts[k])
    decreases ts
  {
    if k > 0 {
      ValueAt(ts[1..], k - 1);
    }
  }

  lemma {:induction false} MemberAt(ts: seq<Tree>, k: nat)
    requires k < |ts|
    ensures MembersOf(ts)[k] == MemberOf(ts[k])
    decreases ts
  {
    if k > 0 {
      MemberAt(ts[1..], k - 1);
    }
  }

  lemma NoneLeft(t: Tree, depth: nat, fmt: bool)
    ensures ItemsLeft(t, |t.kids|, depth, fmt) == [] && MembersLeft(t, |t.kids|, depth, fmt) == []
  {
  }

  lemma ItemsLeftStep(t: Tree, k: nat, depth: nat, fmt: bool)
    requires k < |t.kids|
    ensures ItemsLeft(t, k, depth, fmt) ==
            (ItemText(t, k, depth, fmt) + if k + 1 < |t.kids| then ItemSeparator(fmt) else [])
            + ItemsLeft(t, k + 1, depth, fmt)
  {
    ValueAt(t.kids, k);
    var vs := ValuesOf(t.kids);
    assert vs[k..][1..] == vs[k + 1..];
  }

  // ---------------------------------------------------------------- blocks in a table

  ghost function Elements(bs: seq<array<byte>>): set<object> {
    set k | 0 <= k < |bs| :: bs[k] as object
  }

  ghost predicate Different(bs: seq<array<byte>>) {
    forall j, k :: 0 <= j < k < |bs| ==> bs[j] != bs[k]
  }

  /** The table starts with the blocks bs. */
  ghost predicate Holds(table: array<array?<byte>>, bs: seq<array<byte>>)
    reads table
  {
    |bs| <= table.Length && forall k :: 0 <= k < |bs| ==> table[k] == bs[k]
  }

  /** The first free slot of the table is filled. */
  method Enter(table: array<array?<byte>>, i: nat, b: array<byte>, ghost bs: seq<array<byte>>)
    requires Holds(table, bs) && i == |bs| < table.Length
    modifies table
    ensures Holds(table, bs + [b])
  {
    table[i] := b;
  }

  lemma ElementsAppend(bs: seq<array<byte>>, b: array<byte>)
    ensures Elements(bs + [b]) == Elements(bs) + {b}
  {
    var cs := bs + [b];
    forall o | o in Elements(bs) + {b} ensures o in Elements(cs) {
      if o == b {
        assert cs[|bs|] == b;
      } else {
        var k :| 0 <= k < |bs| && bs[k] == o;
        assert cs[k] == bs[k];
      }
    }
  }

  lemma NoneHeld(table: array<array?<byte>>)
    ensures Holds(table, [])
  {
  }

  lemma NoElements()
    ensures Elements([]) == {}
  {
  }

  lemma InElements(bs: seq<array<byte>>)
    ensures forall k :: 0 <= k < |bs| ==> bs[k] in Elements(bs)
  {
  }

  /** Of the live blocks, the first k of bs are freed: the next one is still live. */
  lemma FreeNext(live: set<object>, bs: seq<array<byte>>, k: nat)
    requires k < |bs| && Different(bs) && Elements(bs) <= live
    ensures bs[k] in live && bs[k] !in Elements(bs[..k])
    ensures Elements(bs[..k + 1]) == Elements(bs[..k]) + {bs[k]}
  {
    assert bs[k] in Elements(bs);
    assert bs[..k + 1] == bs[..k] + [bs[k]];
    ElementsAppend(bs[..k], bs[k]);
  }

  /** The blocks hold the texts of the first entries. */
  ghost predicate ItemTexts(t: Tree, rets: seq<array<byte>>, depth: nat, fmt: bool)
    reads Elements(rets)
  {
    |rets| <= |t.kids| &&
    forall k :: 0 <= k < |rets| ==> (InElements(rets); CStringAt(rets[k], 0, ItemText(t, k, depth, fmt)))
  }

  lemma NoItems(t: Tree, depth: nat, fmt: bool)
    ensures ItemTexts(t, [], depth, fmt)
  {
  }

  lemma OneMoreItem(t: Tree, rets: seq<array<byte>>, ret: array<byte>, depth: nat, fmt: bool)
    requires ItemTexts(t, rets, depth, fmt) && |rets| < |t.kids| && CStringAt(ret, 0, ItemText(t, |rets|, depth, fmt))
    ensures ItemTexts(t, rets + [ret], depth, fmt)
  {
    hide CStringAt, Print;
  }

  lemma Freed(live: set<object>, texts: set<object>, out: object)
    requires texts !! live && out !in texts
    ensures ((live + texts) + {out}) - texts == live + {out}
  {
  }

  /** print_array without a buffer. */
  method PrintArray(h: Heap, item: Node, ghost t: Tree, depth: nat, fmt: bool) returns (out: array<byte>)
    requires t.node == item && t.item.kind == KArray && Realised(t) && PrintableTree(t)
    modifies h
    ensures fresh(out) && CStringAt(out, 0, Print(ValueOf(t), depth, fmt)) && h.live == old(h.live) + {out}
    decreases t, 0
  {
    assert allocated(Nodes(t));
    ArrayText(t, depth, fmt);
    hide Realised, Nodes, Print, ValueOf, ItemsLeft, PrintableTree;
    var numentries := CountEntries(item, t);
    if numentries == 0 {
      out := NewText(h, 3, [OPEN_BRACKET, CLOSE_BRACKET]);
      return;
    }
    out := PrintFilledArray(h, item, t, depth, fmt, numentries);
  }

  /** print_array where there are children. */
  method PrintFilledArray(h: Heap, item: Node, ghost t: Tree, depth: nat, fmt: bool, numentries: nat)
    returns (out: array<byte>)
    requires t.node == item && t.item.kind == KArray && Realised(t) && PrintableTree(t)
    requires numentries == |t.kids| > 0
    modifies h
    ensures fresh(out) && h.live == old(h.live) + {out}
    ensures CStringAt(out, 0, [OPEN_BRACKET] + ItemsLeft(t, 0, depth + 1, fmt) + [CLOSE_BRACKET])
    decreases t, 0, 1
  {
    hide Realised, Nodes, Print, ValueOf, ItemsLeft, PrintableTree, Elements, Holds, ItemTexts, CStringAt, Different;
    assert allocated(Nodes(t));
    var entries := h.NewTable(numentries);
    ghost var live0 := h.live;
    var len, texts := PrintEntries(h, item, t, depth + 1, fmt, entries);
    out := h.NewBlock(len);
    var ptr := FillByteAt(out, 0, OPEN_BRACKET);
    assert out[..0] + [OPEN_BRACKET] == [OPEN_BRACKET];
    ptr := FillItems(h, out, ptr, entries, texts, t, depth + 1, fmt);
    h.Free(entries);
    Freed(live0, Elements(texts), out);
    CloseArray(out, ptr);
  }

  method CloseArray(out: array<byte>, at: nat)
    requires at + 2 <= out.Length
    modifies out
    ensures CStringAt(out, 0, old(out[..at]) + [CLOSE_BRACKET])
  {
    var ptr := FillByteAt(out, at, CLOSE_BRACKET);
    ghost var w := out[..ptr];
    out[ptr] := 0;
    assert out[..ptr] == w;
  }

  /** The text of one entry, and its length. */
  method PrintEntry(h: Heap, child: Node, ghost t: Tree, depth: nat, fmt: bool) returns (ret: array<byte>, l: nat)
    requires t.node == child && Realised(t) && PrintableTree(t)
    modifies h
    ensures h.live == old(h.live) + {ret}
    ensures fresh(ret) && CStringAt(ret, 0, Print(ValueOf(t), depth, fmt)) && l == |Print(ValueOf(t), depth, fmt)|
    decreases t, 2
  {
    PrintableTreeValue(t);
    PrintNulFree(ValueOf(t), depth, fmt);
    ret := PrintValue(h, child, t, depth, fmt);
    l := StrLen(ret, 0, Print(ValueOf(t), depth, fmt));
  }

  /** The first pass of print_array: the text of every entry, and the size of the whole. */
  method PrintEntries(h: Heap, item: Node, ghost t: Tree, depth: nat, fmt: bool, entries: array<array?<byte>>)
    returns (len: nat, ghost texts: seq<array<byte>>)
    requires t.node == item && t.item.kind == KArray && Realised(t) && PrintableTree(t)
    requires entries.Length == |t.kids|
    modifies h, entries
    ensures |texts| == |t.kids| && Holds(entries, texts)
    ensures ItemTexts(t, texts, depth, fmt)
    ensures len >= |ItemsLeft(t, 0, depth, fmt)| + 5
    ensures Different(texts) && fresh(Elements(texts)) && h.live == old(h.live) + Elements(texts)
    decreases t, 0, 0
  {
    hide Realised, RealisedAll, Nodes, ForestNodes, TopNodes, Linked, Print, ValueOf, CStringAt, ItemsLeft,
        Elements, Holds, ItemTexts;
    AtRoot(t);
    assert allocated(Nodes(t));
    texts, len := [], 5;
    NoElements();
    NoItems(t, depth, fmt);
    NoneHeld(entries);
    var child, i := item.child, 0;
    while child != null
      invariant Realised(t) && i == |texts| <= |t.kids| && child == NodeAt(t.kids, i) && Holds(entries, texts)
      invariant ItemTexts(t, texts, depth, fmt)
      invariant len + |ItemsLeft(t, i, depth, fmt)| >= |ItemsLeft(t, 0, depth, fmt)| + 5
      invariant Different(texts) && fresh(Elements(texts)) && h.live == old(h.live) + Elements(texts)
      decreases |t.kids| - i
    {
      AtKid(t, i);
      var ret, l := PrintEntry(h, child, t.kids[i], depth, fmt);
      AtKid(t, i);
      ElementsAppend(texts, ret);
      OneMoreItem(t, texts, ret, depth, fmt);
      Enter(entries, i, ret, texts);
      texts := texts + [ret];
      len := len + l + 2 + (if fmt then 1 else 0);
      ItemsLeftStep(t, i, depth, fmt);
      i, child := i + 1, child.next;
    }
    NoneLeft(t, depth, fmt);
  }

  /** The second pass of print_array, which frees the texts it has copied. */
  method FillItems(h: Heap, out: array<byte>, at: nat, entries: array<array?<byte>>, ghost texts: seq<array<byte>>,
                   ghost t: Tree, depth: nat, fmt: bool) returns (ptr: nat)
    requires PrintableTree(t) && t.item.kind == KArray && entries.Length == |texts| == |t.kids|
    requires Holds(entries, texts) && Different(texts) && Elements(texts) <= h.live
    requires ItemTexts(t, texts, depth, fmt) && out !in Elements(texts)
    requires at + |ItemsLeft(t, 0, depth, fmt)| + 4 <= out.Length
    modifies h, out
    ensures ptr == at + |ItemsLeft(t, 0, depth, fmt)|
    ensures out[..ptr] == old(out[..at]) + ItemsLeft(t, 0, depth, fmt)
    ensures h.live == old(h.live) - Elements(texts)
  {
    hide ItemsLeft, Print, PrintableTree;
    ghost var total := out[..at] + ItemsLeft(t, 0, depth, fmt);
    var i := 0;
    ptr := at;
    assert Elements(texts[..0]) == {};
    while i < entries.Length
      invariant 0 <= i <= entries.Length && ptr + |ItemsLeft(t, i, depth, fmt)| == |total| && ptr + 4 <= out.Length
      invariant out[..ptr] + ItemsLeft(t, i, depth, fmt) == total
      invariant ItemTexts(t, texts, depth, fmt)
      invariant h.live == old(h.live) - Elements(texts[..i])
    {
      ItemsLeftStep(t, i, depth, fmt);
      KidNulFree(t, i, depth, fmt);
      ptr := FillItem(out, ptr, entries[i], ItemText(t, i, depth, fmt), i + 1 == entries.Length, fmt);
      FreeNext(old(h.live), texts, i);
      h.Free(entries[i]);
      i := i + 1;
    }
    assert texts[..i] == texts;
    NoneLeft(t, depth, fmt);
  }

  lemma KidNulFree(t: Tree, k: nat, depth: nat, fmt: bool)
    requires PrintableTree(t) && (t.item.kind == KArray || t.item.kind == KObject) && k < |t.kids|
    ensures NulFree(ItemText(t, k, depth, fmt))
  {
    PrintableTreeValue(t.kids[k]);
    PrintNulFree(ValueOf(t.kids[k]), depth, fmt);
  }

  method FillItem(out: array<byte>, at: nat, entry: array<byte>, ghost w: bytes, last: bool, fmt: bool)
    returns (ptr: nat)
    requires entry != out && CStringAt(entry, 0, w) && NulFree(w) && at + |w| + 4 <= out.Length
    modifies out
    ensures ptr == at + |w + if last then [] else ItemSeparator(fmt)|
    ensures out[..ptr] == old(out[..at]) + (w + if last then [] else ItemSeparator(fmt))
  {
    var tmplen := StrLen(entry, 0, w);
    Store(out, at, entry[..tmplen]);
    ptr := at + tmplen;
    assert out[..ptr] == old(out[..at]) + w;
    if !last {
      out[ptr] := COMMA;
      ptr := ptr + 1;
      if fmt {
        out[ptr] := SPACE;
        ptr := ptr + 1;
      }
      out[ptr] := 0;
    }
  }

  // ---------------------------------------------------------------- objects

  ghost function MembersLeft(t: Tree, k: nat, depth: nat, fmt: bool): bytes {
    if k < |t.kids| then PrintMembers(MembersOf(t.kids)[k..], depth, fmt) else []
  }

  ghost function NameAt(t: Tree, k: nat): bytes
    requires k < |t.kids|
  {
    Text(t.kids[k].item.name)
  }

  ghost function Entry(t: Tree, k: nat, depth: nat, fmt: bool): bytes
    requires k < |t.kids|
  {
    NamePrefix(NameAt(t, k), depth, fmt) + ItemText(t, k, depth, fmt) + MemberEnd(k + 1 == |t.kids|, fmt)
  }

  lemma MembersLeftStep(t: Tree, k: nat, depth: nat, fmt: bool)
    requires k < |t.kids|
    ensures MembersLeft(t, k, depth, fmt) == Entry(t, k, depth, fmt) + MembersLeft(t, k + 1, depth, fmt)
  {
    hide NamePrefix, MemberEnd, Print;
    MemberAt(t.kids, k);
    var ms := MembersOf(t.kids);
    assert ms[k..][1..] == ms[k + 1..];
  }

  function OpenBrace(fmt: bool): bytes { [OPEN_BRACE] + if fmt then [NEWLINE] else [] }

  function CloseBrace(depth: nat, fmt: bool): bytes { FmtTabs(depth, fmt) + [CLOSE_BRACE] }

  lemma ObjectText(t: Tree, depth: nat, fmt: bool)
    requires t.item.kind == KObject
    ensures Print(ValueOf(t), depth, fmt) ==
            if t.kids == [] then Print(Object([]), depth, fmt)
            else OpenBrace(fmt) + MembersLeft(t, 0, depth + 1, fmt) + CloseBrace(depth, fmt)
  {
    hide PrintMembers;
  }

  lemma ArrayText(t: Tree, depth: nat, fmt: bool)
    requires t.item.kind == KArray
    ensures Print(ValueOf(t), depth, fmt) ==
            if t.kids == [] then [OPEN_BRACKET, CLOSE_BRACKET]
            else [OPEN_BRACKET] + ItemsLeft(t, 0, depth + 1, fmt) + [CLOSE_BRACKET]
  {
    hide PrintItems;
  }

  /** print_object without a buffer. */
  method PrintObject(h: Heap, item: Node, ghost t: Tree, depth: nat, fmt: bool) returns (out: array<byte>)
    requires t.node == item && t.item.kind == KObject && Realised(t) && PrintableTree(t)
    modifies h
    ensures fresh(out) && CStringAt(out, 0, Print(ValueOf(t), depth, fmt)) && h.live == old(h.live) + {out}
    decreases t, 0
  {
    assert allocated(Nodes(t));
    ObjectText(t, depth, fmt);
    hide Realised, Nodes, Print, ValueOf, MembersLeft, PrintableTree;
    var numentries := CountEntries(item, t);
    if numentries == 0 {
      out := PrintEmptyObject(h, depth, fmt);
      return;
    }
    out := PrintFilledObject(h, item, t, depth, fmt, numentries);
  }

  /** print_object where there are children. */
  method PrintFilledObject(h: Heap, item: Node, ghost t: Tree, depth: nat, fmt: bool, numentries: nat)
    returns (out: array<byte>)
    requires t.node == item && t.item.kind == KObject && Realised(t) && PrintableTree(t)
    requires numentries == |t.kids|
    modifies h
    ensures fresh(out) && h.live == old(h.live) + {out}
    ensures CStringAt(out, 0, OpenBrace(fmt) + MembersLeft(t, 0, depth + 1, fmt) + CloseBrace(depth, fmt))
    decreases t, 0, 1
  {
    hide Realised, Nodes, Print, ValueOf, MembersLeft, PrintableTree, Elements, Collected, CStringAt;
    assert allocated(Nodes(t));
    var entries := h.NewTable(numentries);
    var names := h.NewTable(numentries);
    ghost var live0 := h.live;
    var len, strs, rets := PrintMemberTexts(h, item, t, depth + 1, fmt, names, entries);
    out := h.NewBlock(len);
    var ptr := FillOpen(out, fmt);
    ptr := FillMembers(h, out, ptr, names, entries, strs, rets, t, depth + 1, fmt);
    Freed(live0, Elements(strs) + Elements(rets), out);
    h.Free(names);
    h.Free(entries);
    CloseObject(out, ptr, depth, fmt);
  }

  method FillOpen(out: array<byte>, fmt: bool) returns (ptr: nat)
    requires |OpenBrace(fmt)| < out.Length
    modifies out
    ensures ptr == |OpenBrace(fmt)| && out[..ptr] == OpenBrace(fmt)
  {
    ptr := FillByteAt(out, 0, OPEN_BRACE);
    if fmt {
      ptr := FillByteAt(out, ptr, NEWLINE);
    }
    ghost var done := out[..ptr];
    out[ptr] := 0;
    assert out[..ptr] == done;
  }

  method PrintEmptyObject(h: Heap, depth: nat, fmt: bool) returns (out: array<byte>)
    modifies h
    ensures fresh(out) && CStringAt(out, 0, Print(Object([]), depth, fmt)) && h.live == old(h.live) + {out}
  {
    out := h.NewBlock(if fmt then depth + 4 else 3);
    var ptr := 0;
    out[ptr] := OPEN_BRACE;
    ptr := ptr + 1;
    if fmt {
      out[ptr] := NEWLINE;
      ptr := ptr + 1;
      ptr := FillTabs(out, ptr, depth - 1);
    }
    assert out[..ptr] + [CLOSE_BRACE] == Print(Object([]), depth, fmt);
    out[ptr] := CLOSE_BRACE;
    out[ptr + 1] := 0;
  }

  /** n tabs from the position `at` on; none where n is negative. */
  method FillTabs(out: array<byte>, at: nat, n: int) returns (ptr: nat)
    requires at + n <= out.Length && at <= out.Length
    modifies out
    ensures ptr == at + (if n > 0 then n else 0)
    ensures out[..ptr] == old(out[..at]) + Tabs(if n > 0 then n else 0)
    ensures OnlyChanged(out, at, ptr)
  {
    ptr := at;
    var i := 0;
    while i < n
      invariant 0 <= i && (n > 0 ==> i <= n) && (n <= 0 ==> i == 0) && ptr == at + i
      invariant out[..ptr] == old(out[..at]) + Tabs(i)
      invariant OnlyChanged(out, at, ptr)
    {
      out[ptr] := TAB;
      assert Tabs(i + 1) == Tabs(i) + [TAB];
      i, ptr := i + 1, ptr + 1;
    }
  }

  /** The closing indentation and brace. */
  method CloseObject(out: array<byte>, at: nat, depth: nat, fmt: bool)
    requires at + (if fmt then depth else 0) + 2 <= out.Length
    modifies out
    ensures CStringAt(out, 0, old(out[..at]) + CloseBrace(depth, fmt))
  {
    var ptr := at;
    if fmt {
      ptr := FillTabs(out, ptr, depth);
    }
    ghost var w := out[..ptr];
    assert w == old(out[..at]) + FmtTabs(depth, fmt);
    out[ptr] := CLOSE_BRACE;
    out[ptr + 1] := 0;
    assert out[..ptr] == w;
  }

  /** The blocks hold the names of the first members. */
  ghost predicate NameTexts(t: Tree, strs: seq<array<byte>>)
    reads Elements(strs)
  {
    |strs| <= |t.kids| &&
    forall k :: 0 <= k < |strs| ==> (InElements(strs); CStringAt(strs[k], 0, Quoted(NameAt(t, k))))
  }

  lemma OneMoreName(t: Tree, strs: seq<array<byte>>, str: array<byte>)
    requires NameTexts(t, strs) && |strs| < |t.kids| && CStringAt(str, 0, Quoted(NameAt(t, |strs|)))
    ensures NameTexts(t, strs + [str])
  {
    hide CStringAt, Quoted;
  }

  /** The tables hold the texts of the first members, each in a block of its own. */
  ghost predicate Collected(t: Tree, names: array<array?<byte>>, entries: array<array?<byte>>,
                            strs: seq<array<byte>>, rets: seq<array<byte>>, depth: nat, fmt: bool)
    reads names, entries, Elements(strs), Elements(rets)
  {
    && Holds(names, strs) && Holds(entries, rets) && NameTexts(t, strs) && ItemTexts(t, rets, depth, fmt)
    && |strs| == |rets| && AllDifferent(strs, rets)
  }

  lemma NoneCollected(t: Tree, names: array<array?<byte>>, entries: array<array?<byte>>, depth: nat, fmt: bool)
    ensures Collected(t, names, entries, [], [], depth, fmt)
  {
  }

  /** The first pass of print_object. */
  method PrintMemberTexts(h: Heap, item: Node, ghost t: Tree, depth: nat, fmt: bool,
                          names: array<array?<byte>>, entries: array<array?<byte>>)
    returns (len: nat, ghost strs: seq<array<byte>>, ghost rets: seq<array<byte>>)
    requires t.node == item && t.item.kind == KObject && Realised(t) && PrintableTree(t)
    requires names.Length == entries.Length == |t.kids| && names != entries
    modifies h, names, entries
    ensures |strs| == |rets| == |t.kids| && Collected(t, names, entries, strs, rets, depth, fmt)
    ensures len >= |MembersLeft(t, 0, depth, fmt)| + 7 + if fmt then depth else 0
    ensures fresh(Elements(strs)) && fresh(Elements(rets))
    ensures h.live == old(h.live) + (Elements(strs) + Elements(rets))
    decreases t, 0, 0
  {
    hide Realised, RealisedAll, Nodes, ForestNodes, TopNodes, Linked, Print, ValueOf, MembersLeft, Entry, Quoted,
        Elements, Collected, NamePrefix, MemberEnd, PrintableTree;
    AtRoot(t);
    assert allocated(Nodes(t));
    strs, rets, len := [], [], 7 + if fmt then depth else 0;
    NoElements();
    NoneCollected(t, names, entries, depth, fmt);
    var child, i := item.child, 0;
    while child != null
      invariant Realised(t) && i == |rets| == |strs| <= |t.kids| && child == NodeAt(t.kids, i)
      invariant Collected(t, names, entries, strs, rets, depth, fmt)
      invariant len + |MembersLeft(t, i, depth, fmt)| >= |MembersLeft(t, 0, depth, fmt)| + 7 + if fmt then depth else 0
      invariant fresh(Elements(strs)) && fresh(Elements(rets))
      invariant h.live == old(h.live) + (Elements(strs) + Elements(rets))
      decreases |t.kids| - i
    {
      AtKid(t, i);
      var l;
      ghost var str, ret;
      str, ret, l := Collect(h, child, t, i, depth, fmt, names, entries, strs, rets);
      TwoMore(old(h.live), strs, rets, str, ret);
      AtKid(t, i);
      strs, rets := strs + [str], rets + [ret];
      len := len + l + 2 + (if fmt then 2 + depth else 0);
      MembersLeftStep(t, i, depth, fmt);
      EntryLength(t, i, depth, fmt);
      i, child := i + 1, child.next;
    }
    NoneLeft(t, depth, fmt);
  }

  /** One turn of that loop: the name and the value of the i-th member. */
  method Collect(h: Heap, child: Node, ghost t: Tree, i: nat, depth: nat, fmt: bool,
                 names: array<array?<byte>>, entries: array<array?<byte>>,
                 ghost strs: seq<array<byte>>, ghost rets: seq<array<byte>>)
    returns (ghost str: array<byte>, ghost ret: array<byte>, l: nat)
    requires t.item.kind == KObject && Realised(t) && PrintableTree(t) && i < |t.kids| && child == t.kids[i].node
    requires names.Length == entries.Length == |t.kids| && names != entries
    requires Collected(t, names, entries, strs, rets, depth, fmt) && i == |strs| == |rets|
    modifies h, names, entries
    ensures Collected(t, names, entries, strs + [str], rets + [ret], depth, fmt)
    ensures fresh(str) && fresh(ret) && h.live == old(h.live) + {str, ret}
    ensures l == |ItemText(t, i, depth, fmt)| + |Quoted(NameAt(t, i))|
    decreases t, 0, 0, 0
  {
    AtKid(t, i);
    assert Named(t.kids[i]) && PrintableTree(t.kids[i]);
    hide Realised, RealisedAll, Nodes, ForestNodes, TopNodes, Print, ValueOf, CStringAt, Quoted, PrintableTree, Named,
        Elements, Collected;
    assert allocated(Elements(strs)) && allocated(Elements(rets));
    var s, r;
    s, r, l := PrintMemberText(h, child, t.kids[i], depth, fmt);
    str, ret := s, r;
    EnterBoth(names, entries, i, s, r, t, depth, fmt, strs, rets);
  }

  /** The two texts go into the tables. */
  method EnterBoth(names: array<array?<byte>>, entries: array<array?<byte>>, i: nat, str: array<byte>, ret: array<byte>,
                   ghost t: Tree, depth: nat, fmt: bool, ghost strs: seq<array<byte>>, ghost rets: seq<array<byte>>)
    requires names.Length == entries.Length == |t.kids| && names != entries && i == |strs| == |rets| < |t.kids|
    requires Collected(t, names, entries, strs, rets, depth, fmt)
    requires CStringAt(str, 0, Quoted(NameAt(t, i))) && CStringAt(ret, 0, ItemText(t, i, depth, fmt))
    requires str != ret && {str, ret} !! Elements(strs) + Elements(rets)
    modifies names, entries
    ensures Collected(t, names, entries, strs + [str], rets + [ret], depth, fmt)
  {
    hide Holds, CStringAt, Quoted, NameTexts, ItemTexts, AllDifferent, Print, ValueOf;
    Enter(names, i, str, strs);
    Enter(entries, i, ret, rets);
    OneMoreName(t, strs, str);
    OneMoreItem(t, rets, ret, depth, fmt);
    StillDifferent(strs, rets, str, ret);
  }

  /** The name and the value of a member, and their lengths together. */
  method PrintMemberText(h: Heap, child: Node, ghost t: Tree, depth: nat, fmt: bool)
    returns (str: array<byte>, ret: array<byte>, l: nat)
    requires t.node == child && Realised(t) && Named(t) && PrintableTree(t)
    modifies h
    ensures fresh(str) && fresh(ret) && str != ret && h.live == old(h.live) + {str, ret}
    ensures CStringAt(str, 0, Quoted(Text(t.item.name))) && CStringAt(ret, 0, Print(ValueOf(t), depth, fmt))
    ensures l == |Print(ValueOf(t), depth, fmt)| + |Quoted(Text(t.item.name))|
    decreases t, 3
  {
    AtRoot(t);
    assert allocated(Nodes(t));
    hide Realised, RealisedAll, Nodes, Print, ValueOf, Quoted;
    var m;
    str, m := PrintName(h, child.name.text);
    ret, l := PrintEntry(h, child, t, depth, fmt);
    l := l + m;
  }

  lemma EntryLength(t: Tree, k: nat, depth: nat, fmt: bool)
    requires k < |t.kids|
    ensures |Entry(t, k, depth, fmt)| <=
            |Quoted(NameAt(t, k))| + |ItemText(t, k, depth, fmt)| + 2 + if fmt then 2 + depth else 0
  {
  }

  method PrintName(h: Heap, name: bytes) returns (str: array<byte>, m: nat)
    requires NulFree(name)
    modifies h
    ensures h.live == old(h.live) + {str}
    ensures fresh(str) && CStringAt(str, 0, Quoted(name)) && m == |Quoted(name)|
  {
    EscapeNulFree(name);
    str := PrintString(h, name);
    m := StrLen(str, 0, Quoted(name));
  }

  /** The second pass of print_object, which frees the texts it has copied. */
  method FillMembers(h: Heap, out: array<byte>, at: nat, names: array<array?<byte>>, entries: array<array?<byte>>,
                     ghost strs: seq<array<byte>>, ghost rets: seq<array<byte>>,
                     ghost t: Tree, depth: nat, fmt: bool) returns (ptr: nat)
    requires PrintableTree(t) && t.item.kind == KObject
    requires names.Length == entries.Length == |strs| == |rets| == |t.kids|
    requires Collected(t, names, entries, strs, rets, depth, fmt) && out !in Elements(strs) + Elements(rets)
    requires Elements(strs) <= h.live && Elements(rets) <= h.live
    requires at + |MembersLeft(t, 0, depth, fmt)| + 1 <= out.Length
    modifies h, out
    ensures ptr == at + |MembersLeft(t, 0, depth, fmt)|
    ensures out[..ptr] == old(out[..at]) + MembersLeft(t, 0, depth, fmt)
    ensures h.live == old(h.live) - (Elements(strs) + Elements(rets))
  {
    hide MembersLeft, NamePrefix, MemberEnd, Print, PrintableTree, Quoted;
    ghost var total := out[..at] + MembersLeft(t, 0, depth, fmt);
    var i := 0;
    ptr := at;
    assert Elements(strs[..0]) == {} && Elements(rets[..0]) == {};
    while i < names.Length
      invariant 0 <= i <= names.Length && ptr + |MembersLeft(t, i, depth, fmt)| == |total| && ptr + 1 <= out.Length
      invariant out[..ptr] + MembersLeft(t, i, depth, fmt) == total
      invariant NameTexts(t, strs) && ItemTexts(t, rets, depth, fmt)
      invariant h.live == old(h.live) - (Elements(strs[..i]) + Elements(rets[..i]))
    {
      MembersLeftStep(t, i, depth, fmt);
      TextsNulFree(t, i, depth, fmt);
      ptr := FillEntry(out, ptr, names[i], NameAt(t, i), entries[i], ItemText(t, i, depth, fmt),
                       i + 1 == names.Length, depth, fmt);
      FreeMember(h, names[i], entries[i], old(h.live), strs, rets, i);
      i := i + 1;
    }
    assert strs[..i] == strs && rets[..i] == rets;
    NoneLeft(t, depth, fmt);
  }

  /** No block occurs twice in the two lists. */
  ghost predicate AllDifferent(strs: seq<array<byte>>, rets: seq<array<byte>>) {
    Different(strs) && Different(rets) && Elements(strs) !! Elements(rets)
  }

  lemma StillDifferent(strs: seq<array<byte>>, rets: seq<array<byte>>, str: array<byte>, ret: array<byte>)
    requires AllDifferent(strs, rets) && str != ret
    requires {str, ret} !! Elements(strs) + Elements(rets)
    ensures AllDifferent(strs + [str], rets + [ret])
  {
    InElements(strs);
    InElements(rets);
    ElementsAppend(strs, str);
    ElementsAppend(rets, ret);
    hide Elements;
  }

  lemma TwoMore(live: set<object>, strs: seq<array<byte>>, rets: seq<array<byte>>, str: array<byte>, ret: array<byte>)
    ensures Elements(strs + [str]) == Elements(strs) + {str} && Elements(rets + [ret]) == Elements(rets) + {ret}
    ensures live + (Elements(strs) + Elements(rets)) + {str, ret}
            == live + (Elements(strs + [str]) + Elements(rets + [ret]))
  {
    ElementsAppend(strs, str);
    ElementsAppend(rets, ret);
    hide Elements;
  }

  /** The two texts of the k-th member are freed. */
  method FreeMember(h: Heap, name: array<byte>, entry: array<byte>, ghost live: set<object>,
                    ghost strs: seq<array<byte>>, ghost rets: seq<array<byte>>, ghost k: nat)
    requires k < |strs| == |rets| && name == strs[k] && entry == rets[k]
    requires AllDifferent(strs, rets) && Elements(strs) <= live && Elements(rets) <= live
    requires h.live == live - (Elements(strs[..k]) + Elements(rets[..k]))
    modifies h
    ensures h.live == live - (Elements(strs[..k + 1]) + Elements(rets[..k + 1]))
  {
    FreeNext(live, strs, k);
    FreeNext(live, rets, k);
    assert Elements(strs[..k]) <= Elements(strs) && Elements(rets[..k]) <= Elements(rets);
    assert strs[k] in Elements(strs) && rets[k] in Elements(rets);
    hide Elements;
    h.Free(name);
    h.Free(entry);
  }

  lemma TextsNulFree(t: Tree, k: nat, depth: nat, fmt: bool)
    requires PrintableTree(t) && t.item.kind == KObject && k < |t.kids|
    ensures NulFree(NameAt(t, k)) && NulFree(Quoted(NameAt(t, k))) && NulFree(ItemText(t, k, depth, fmt))
  {
    assert Named(t.kids[k]);
    EscapeNulFree(NameAt(t, k));
    KidNulFree(t, k, depth, fmt);
  }

  /** One turn of the filling loop: indentation, name, colon, value and what ends the entry. */
  method FillEntry(out: array<byte>, at: nat, nameText: array<byte>, ghost name: bytes,
                   entry: array<byte>, ghost w: bytes, last: bool, depth: nat, fmt: bool) returns (ptr: nat)
    requires nameText != out && CStringAt(nameText, 0, Quoted(name)) && NulFree(Quoted(name))
    requires entry != out && CStringAt(entry, 0, w) && NulFree(w)
    requires at + |NamePrefix(name, depth, fmt) + w + MemberEnd(last, fmt)| + 1 <= out.Length
    modifies out
    ensures var text := NamePrefix(name, depth, fmt) + w + MemberEnd(last, fmt);
            ptr == at + |text| && out[..ptr] == old(out[..at]) + text
  {
    ghost var done := out[..at];
    ptr := FillPrefix(out, at, nameText, name, depth, fmt);
    var n := StrLen(entry, 0, w);
    ptr := FillText(out, ptr, entry[..n]);
    ptr := FillEnd(out, ptr, last, fmt);
    Group(done, NamePrefix(name, depth, fmt), w, MemberEnd(last, fmt));
  }

  lemma Group(a: bytes, b: bytes, c: bytes, d: bytes)
    ensures ((a + b) + c) + d == a + (b + c + d)
  {
  }

  lemma Prefixed(before: bytes, name: bytes, depth: nat, fmt: bool)
    ensures ((before + FmtTabs(depth, fmt)) + Quoted(name)) + (if fmt then [COLON, TAB] else [COLON]) ==
            before + NamePrefix(name, depth, fmt)
  {
    hide Quoted;
  }

  method FillPrefix(out: array<byte>, at: nat, nameText: array<byte>, ghost name: bytes, depth: nat, fmt: bool)
    returns (ptr: nat)
    requires nameText != out && CStringAt(nameText, 0, Quoted(name)) && NulFree(Quoted(name))
    requires at + |NamePrefix(name, depth, fmt)| <= out.Length
    modifies out
    ensures ptr == at + |NamePrefix(name, depth, fmt)|
    ensures out[..ptr] == old(out[..at]) + NamePrefix(name, depth, fmt)
  {
    ghost var done := out[..at];
    ptr := at;
    if fmt {
      ptr := FillTabs(out, ptr, depth);
    }
    hide Quoted;
    assert out[..ptr] == done + FmtTabs(depth, fmt);
    var tmplen := StrLen(nameText, 0, Quoted(name));
    ptr := FillText(out, ptr, nameText[..tmplen]);
    ptr := FillByteAt(out, ptr, COLON);
    if fmt {
      ptr := FillByteAt(out, ptr, TAB);
    }
    assert out[..ptr] == ((done + FmtTabs(depth, fmt)) + Quoted(name)) + (if fmt then [COLON, TAB] else [COLON]);
    Prefixed(done, name, depth, fmt);
  }

  method FillEnd(out: array<byte>, at: nat, last: bool, fmt: bool) returns (ptr: nat)
    requires at + |MemberEnd(last, fmt)| < out.Length
    modifies out
    ensures ptr == at + |MemberEnd(last, fmt)| && out[..ptr] == old(out[..at]) + MemberEnd(last, fmt)
  {
    ptr := at;
    if !last {
      ptr := FillByteAt(out, ptr, COMMA);
    }
    if fmt {
      ptr := FillByteAt(out, ptr, NEWLINE);
    }
    ghost var done := out[..ptr];
    out[ptr] := 0;
    assert out[..ptr] == done;
  }

  method FillText(out: array<byte>, at: nat, w: bytes) returns (ptr: nat)
    requires at + |w| <= out.Length
    modifies out
    ensures ptr == at + |w| && out[..ptr] == old(out[..at]) + w
  {
    Store(out, at, w);
    ptr := at + |w|;
    assert out[..ptr] == out[..at] + out[at..ptr];
  }

  /** One byte is stored and the write position moves behind it. */
  method FillByteAt(out: array<byte>, at: nat, c: byte) returns (ptr: nat)
    requires at < out.Length
    modifies out
    ensures ptr == at + 1 && out[..ptr] == old(out[..at]) + [c]
  {
    out[at] := c;
    ptr := at + 1;
  }

  /** cJSON_Print and cJSON_PrintUnformatted */
  method PrintText(h: Heap, item: Node, ghost t: Tree, fmt: bool) returns (out: array<byte>)
    requires t.node == item && Realised(t) && PrintableTree(t)
    modifies h
    ensures fresh(out) && CStringAt(out, 0, Print(ValueOf(t), 0, fmt)) && h.live == old(h.live) + {out}
  {
    out := PrintValue(h, item, t, 0, fmt);
  }
}
