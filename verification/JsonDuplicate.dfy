/** cJSON_Duplicate: an equal tree on wholly fresh blocks. */
module JsonDuplicate {
  import opened JsonTree
  import opened JsonHeap
  import opened JsonEdit
  import opened JsonBlocks

  // ---------------------------------------------------------------- the copy

  predicate SameString(a: CString?, b: CString?) {
    (a == null <==> b == null) && Text(a) == Text(b)
  }

  /** b is what the copy of the item a holds: no reference any more, strings of its own. */
  predicate SameItem(a: Item, b: Item) {
    && b == a.(isReference := false, str := b.str, name := b.name)
    && SameString(a.str, b.str) && SameString(a.name, b.name)
  }

  ghost predicate CopyOf(t: Tree, u: Tree)
    decreases t
  {
    && SameItem(t.item, u.item) && |u.kids| == |t.kids|
    && forall k :: 0 <= k < |t.kids| ==> CopyOf(t.kids[k], u.kids[k])
  }

  /** The copy has the value of the original. */
  lemma {:induction false} CopyValue(t: Tree, u: Tree)
    requires CopyOf(t, u)
    ensures ValueOf(u) == ValueOf(t) && MemberOf(u) == MemberOf(t)
    decreases t, 1
  {
    CopyValues(t.kids, u.kids);
  }

  lemma {:induction false} CopyValues(ts: seq<Tree>, us: seq<Tree>)
    requires |us| == |ts| && forall k :: 0 <= k < |ts| ==> CopyOf(ts[k], us[k])
    ensures ValuesOf(us) == ValuesOf(ts) && MembersOf(us) == MembersOf(ts)
    decreases ts, 0
  {
    if ts != [] {
      CopyValue(ts[0], us[0]);
      CopyValues(ts[1..], us[1..]);
    }
  }

  /** The copy has constant-flagged names exactly where the original has. */
  lemma {:induction false} CopyConstNames(t: Tree, u: Tree)
    requires CopyOf(t, u)
    ensures ConstNames(u) == {} <==> ConstNames(t) == {}
    decreases t
  {
    forall k | 0 <= k < |t.kids| ensures ConstNames(u.kids[k]) == {} <==> ConstNames(t.kids[k]) == {} {
      CopyConstNames(t.kids[k], u.kids[k]);
    }
    ForestEmpty(t.kids);
    ForestEmpty(u.kids);
  }

  lemma ForestEmpty(ts: seq<Tree>)
    ensures ForestConstNames(ts) == {} <==> forall k :: 0 <= k < |ts| ==> ConstNames(ts[k]) == {}
  {
    if ForestConstNames(ts) == {} {
      forall k | 0 <= k < |ts| ensures ConstNames(ts[k]) == {} {
        assert ConstNames(ts[k]) <= ForestConstNames(ts);
      }
    }
  }

  method CopyString(h: Heap, s: CString?) returns (c: CString?)
    modifies h
    ensures SameString(s, c) && (c != null ==> fresh(c))
    ensures h.live == old(h.live) + if c == null then {} else {c as object}
  {
    c := null;
    if s != null {
      c := h.NewString(s.text);
    }
  }

  /** cJSON_Duplicate */
  method Duplicate(h: Heap, item: Node, ghost t: Tree, recurse: bool) returns (newitem: Node, ghost u: Tree)
    requires t.node == item && Realised(t)
    modifies h
    ensures u.node == newitem && Loose(u) && Separate(u)
    ensures fresh(Blocks(u)) && h.live == old(h.live) + Blocks(u)
    ensures if recurse then CopyOf(t, u) else SameItem(t.item, u.item) && u.kids == []
    decreases t, 1
  {
    AtRoot(t);
    hide Realised, Nodes, ForestNodes, TopNodes, Linked, RealisedAll;
    assert allocated(Nodes(t));
    newitem, u := DuplicateItem(h, item, t.item);
    if recurse {
      ghost var us := DuplicateChildren(h, item, t, newitem);
      u := Assemble(newitem, u.item, us);
    }
  }

  /** The part of cJSON_Duplicate before the children. */
  method DuplicateItem(h: Heap, item: Node, ghost it: Item) returns (newitem: Node, ghost u: Tree)
    requires Content(item) == it
    modifies h
    ensures u.node == newitem && Loose(u) && Separate(u) && u.kids == [] && newitem.child == null
    ensures fresh(Blocks(u)) && h.live == old(h.live) + Blocks(u) && fresh(newitem)
    ensures SameItem(it, u.item)
  {
    hide Loose, Separate, Blocks;
    newitem := h.NewItem();
    var str := CopyString(h, item.valuestring);
    var name := CopyString(h, item.name);
    FillCopy(newitem, item, str, name);
    u := Tree(newitem, Content(newitem), []);
    LoneItem(u);
  }

  /** The fields of the copy. */
  method FillCopy(newitem: Node, item: Node, str: CString?, name: CString?)
    requires newitem != item && newitem.next == null && newitem.prev == null && newitem.child == null
    modifies newitem
    ensures newitem.next == null && newitem.prev == null && newitem.child == null
    ensures Content(newitem) == Content(item).(isReference := false, str := str, name := name)
  {
    newitem.kind, newitem.isReference, newitem.stringIsConst := item.kind, false, item.stringIsConst;
    newitem.mantissa, newitem.exponent := item.mantissa, item.exponent;
    newitem.valuestring := str;
    newitem.name := name;
  }

  /** An item without children is a tree. */
  lemma LoneItem(u: Tree)
    requires u.kids == [] && Content(u.node) == u.item && !u.item.isReference
    requires u.node.next == null && u.node.prev == null && u.node.child == null
    requires u.item.str != null ==> u.item.str != u.item.name
    ensures Loose(u) && Separate(u)
    ensures Blocks(u) == {u.node as object} + (if u.item.str == null then {} else {u.item.str as object})
                         + (if u.item.name == null then {} else {u.item.name as object})
  {
  }

  /** us are copies of the first children. */
  ghost predicate Copies(ts: seq<Tree>, us: seq<Tree>) {
    |us| <= |ts| && forall k :: 0 <= k < |us| ==> CopyOf(ts[k], us[k])
  }

  /** The loop of cJSON_Duplicate over the children. */
  method DuplicateChildren(h: Heap, item: Node, ghost t: Tree, newitem: Node) returns (ghost us: seq<Tree>)
    requires t.node == item && Realised(t) && newitem.child == null && newitem !in Nodes(t)
    modifies h, newitem`child
    ensures Linked(us, newitem.child) && RealisedAll(us) && SeparateAll(us)
    ensures fresh(ForestBlocks(us)) && h.live == old(h.live) + ForestBlocks(us)
    ensures Copies(t.kids, us) && |us| == |t.kids|
    decreases t, 0
  {
    AtRoot(t);
    GrowingFromNothing(newitem);
    hide Realised, Nodes, ForestBlocks, CopyOf, Growing, Blocks, Copies, RealisedAll, SeparateAll, Linked, ForestNodes,
        TopNodes, NodeAt;
    assert allocated(Nodes(t));
    var cptr := item.child;
    var nptr: Node? := null;
    us := [];
    NoCopies(t.kids);
    ghost var live0 := h.live;
    while cptr != null
      invariant Realised(t) && |us| <= |t.kids| && cptr == NodeAt(t.kids, |us|)
      invariant Growing(newitem, us, nptr) && Copies(t.kids, us)
      invariant nptr == null || (fresh(nptr) && nptr !in Nodes(t))
      invariant fresh(ForestBlocks(us)) && h.live == live0 + ForestBlocks(us)
      decreases |t.kids| - |us|
    {
      Within(t.kids, |us|);
      ghost var x;
      nptr, cptr, x := DuplicateNext(h, cptr, t, newitem, nptr, us, live0);
      us := us + [x];
    }
    Within(t.kids, |us|);
    Grown(newitem, us, nptr);
  }

  lemma Within(ts: seq<Tree>, k: nat)
    requires k <= |ts|
    ensures NodeAt(ts, k) == null <==> k == |ts|
  {
  }

  lemma Grown(parent: Node, us: seq<Tree>, last: Node?)
    requires Growing(parent, us, last)
    ensures Linked(us, parent.child) && RealisedAll(us) && SeparateAll(us)
  {
  }

  lemma NoCopies(ts: seq<Tree>)
    ensures Copies(ts, [])
  {
  }

  method DuplicateNext(h: Heap, cptr: Node, ghost t: Tree, newitem: Node, nptr: Node?, ghost us: seq<Tree>,
                       ghost live0: set<object>)
    returns (newchild: Node, next: Node?, ghost x: Tree)
    requires Realised(t) && |us| < |t.kids| && cptr == NodeAt(t.kids, |us|) && newitem !in Nodes(t)
    requires nptr == null || nptr !in Nodes(t)
    requires Growing(newitem, us, nptr) && Copies(t.kids, us) && h.live == live0 + ForestBlocks(us)
    modifies h, newitem`child, Just(nptr)`next
    ensures Realised(t) && next == NodeAt(t.kids, |us| + 1)
    ensures Growing(newitem, us + [x], newchild) && Copies(t.kids, us + [x]) && fresh(newchild)
    ensures fresh(ForestBlocks(us + [x]) - ForestBlocks(us)) && h.live == live0 + ForestBlocks(us + [x])
    decreases t, 0, 0
  {
    hide Realised, Nodes, ForestBlocks, CopyOf, Growing, Blocks, Copies;
    assert allocated(Nodes(t));
    AtKid(t, |us|);
    newchild, x := DuplicateChild(h, cptr, t.kids, newitem, nptr, us);
    AtKid(t, |us|);
    next := cptr.next;
    UnionAssociative(live0, ForestBlocks(us), Blocks(x));
  }

  /** One turn of that loop: copy a child and chain it behind the last copy. */
  method DuplicateChild(h: Heap, cptr: Node, ghost ts: seq<Tree>, newitem: Node, nptr: Node?, ghost us: seq<Tree>)
    returns (newchild: Node, ghost x: Tree)
    requires |us| < |ts| && ts[|us|].node == cptr && Realised(ts[|us|])
    requires Growing(newitem, us, nptr) && Copies(ts, us)
    modifies h, newitem`child, Just(nptr)`next
    ensures Growing(newitem, us + [x], newchild) && Copies(ts, us + [x]) && fresh(newchild)
    ensures fresh(Blocks(x)) && h.live == old(h.live) + Blocks(x)
    ensures ForestBlocks(us + [x]) == ForestBlocks(us) + Blocks(x)
    decreases ts, 0
  {
    hide Realised, Nodes, ForestBlocks, CopyOf, Growing, Blocks;
    assert allocated(ForestNodes(us)) && allocated(ForestBlocks(us));
    newchild, x := Duplicate(h, cptr, ts[|us|], true);
    NodeIsBlock(x);
    AddChild(newitem, nptr, newchild, us, x);
  }

  /** A copy that is deleted again leaves behind exactly its constant-flagged names, so nothing is
      left if and only if no named item of the original carries that flag. */
  method DuplicateThenDelete(h: Heap, item: Node, ghost t: Tree) returns (ghost left: set<object>)
    requires t.node == item && Realised(t)
    modifies h
    ensures fresh(left) && h.live == old(h.live) + left
    ensures left == {} <==> ConstNames(t) == {}
  {
    hide Realised, Nodes, Blocks, Own, ConstNames, CopyOf, Separate, Sole;
    var u, x := Duplicate(h, item, t, true);
    OwnInBlocks(x);
    BlocksNotOwned(x);
    CopyConstNames(t, x);
    left := ConstNames(x);
    OneTree(x);
    Delete(h, u, [x]);
    Leftover(old(h.live), Blocks(x), Own(x));
  }

  lemma OneTree(x: Tree)
    requires Loose(x) && Sole(x)
    ensures Linked([x], x.node) && RealisedAll([x]) && SoleAll([x]) && ForestOwn([x]) == Own(x)
  {
    OwnSingle(x);
  }

  lemma Leftover(a: set<object>, b: set<object>, c: set<object>)
    requires c <= b && a !! b
    ensures (a + b) - c == a + (b - c)
  {
  }

  /** What cJSON_AddItemToObjectCS does to the item before it adds it. */
  method NameConstant(h: Heap, item: Node, name: CString)
    requires !item.stringIsConst && item.name != null ==> item.name in h.live
    modifies h, item
    ensures Content(item) == old(Content(item)).(stringIsConst := true, name := name)
    ensures item.next == old(item.next) && item.prev == old(item.prev) && item.child == old(item.child)
    ensures h.live == old(h.live) - if old(item.stringIsConst) || old(item.name) == null then {} else {old(item.name)}
  {
    if !item.stringIsConst && item.name != null {
      h.Free(item.name);
    }
    item.name, item.stringIsConst := name, true;
  }

  /** An item with a constant name is made, duplicated, and deleted together with its copy: a block
      stays behind that nobody owns. */
  method ConstNameStays(h: Heap, name: CString) returns (ghost left: set<object>)
    modifies h
    ensures left != {} && fresh(left) && h.live == old(h.live) + left
  {
    hide Realised, Loose, Separate, ConstNames, Own, Sole, ForestOwn;
    var item := h.NewItem();
    NameConstant(h, item, name);
    ghost var t := Tree(item, Content(item), []);
    LoneItem(t);
    NamedConst(t);
    assert allocated(Nodes(t));
    left := DuplicateThenDelete(h, item, t);
    OneTree(t);
    Delete(h, item, [t]);
  }

  lemma NamedConst(t: Tree)
    requires t.kids == [] && t.item.stringIsConst && t.item.name != null && !t.item.isReference && t.item.str == null
    ensures ConstNames(t) != {} && Own(t) == {t.node} && Sole(t)
  {
    assert t.item.name in ConstNames(t);
  }
}
