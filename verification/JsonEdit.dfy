/** The sibling chain as a sequence: append, insert, detach, replace; and references. */
module JsonEdit {
  import opened JsonTree
  import opened JsonHeap

  ghost predicate Distinct(ts: seq<Tree>) {
    forall j, k :: 0 <= j < k < |ts| ==> ts[j].node != ts[k].node
  }

  /** No item of the chain occurs twice, or again below the chain. */
  ghost predicate Apart(ts: seq<Tree>) {
    && Distinct(ts)
    && (forall j, k {:trigger ts[j], ts[k]} :: 0 <= j < |ts| && 0 <= k < |ts| ==>
        ts[j].node !in ForestNodes(ts[k].kids))
  }

  /** Setting the sibling links of a tree's root, and nothing below it, keeps the tree. */
  twostate lemma KeepRealised(t: Tree)
    requires old(allocated(Nodes(t))) && old(Realised(t))
    requires forall n :: n in ForestNodes(t.kids) ==> unchanged(n)
    requires Content(t.node) == old(Content(t.node)) && t.node.child == old(t.node.child)
    ensures Realised(t)
  {
    TopInForest(t.kids);
  }

  /** The items of the trees keep all but the sibling links of the roots. */
  twostate predicate OnlyLinks(ts: seq<Tree>)
    requires old(allocated(ForestNodes(ts)))
    reads ForestNodes(ts)
  {
    forall n :: n in ForestNodes(ts) ==>
      if n in TopNodes(ts) then Content(n) == old(Content(n)) && n.child == old(n.child) else unchanged(n)
  }

  /** Setting sibling links of the roots keeps all the trees. */
  twostate lemma KeepAll(ts: seq<Tree>)
    requires old(allocated(ForestNodes(ts))) && old(RealisedAll(ts)) && Apart(ts) && OnlyLinks(ts)
    ensures RealisedAll(ts)
  {
    TopInForest(ts);
    forall k | 0 <= k < |ts| ensures Realised(ts[k]) {
      assert Nodes(ts[k]) <= ForestNodes(ts);
      assert ts[k].node in Nodes(ts[k]);
      forall n | n in ForestNodes(ts[k].kids) ensures unchanged(n) {
        assert n in Nodes(ts[k]);
        assert n !in TopNodes(ts);
      }
      KeepRealised(ts[k]);
    }
  }

  /** An item that hangs nowhere. */
  ghost predicate Loose(x: Tree)
    reads Nodes(x)
  {
    Realised(x) && x.node.next == null && x.node.prev == null
  }

  ghost function Insert<T>(s: seq<T>, k: nat, x: T): seq<T>
    requires k <= |s|
  {
    s[..k] + [x] + s[k..]
  }

  ghost function Without<T>(s: seq<T>, k: nat): seq<T>
    requires k < |s|
  {
    s[..k] + s[k + 1..]
  }

  /** The first loop of the edits: along the chain, to the item at position which or past its end. */
  method Walk(parent: Node, which: int, ghost ts: seq<Tree>) returns (c: Node?, ghost k: nat)
    requires Linked(ts, parent.child)
    ensures c == NodeAt(ts, if which <= 0 then 0 else which)
    ensures k == (if which <= 0 then 0 else if which < |ts| then which else |ts|) && c == NodeAt(ts, k)
  {
    c, k := parent.child, 0;
    var w := which;
    while c != null && w > 0
      invariant k <= |ts| && c == NodeAt(ts, k)
      invariant if which > 0 then w == which - k && w >= 0 else w == which && k == 0
      decreases |ts| - k
    {
      assert ts[k].node == c;
      c, w, k := c.next, w - 1, k + 1;
    }
  }

  lemma InTop(ts: seq<Tree>, k: nat)
    requires k < |ts|
    ensures ts[k].node in TopNodes(ts) && ts[k].node in ForestNodes(ts)
  {
    TopInForest(ts);
  }

  /** cJSON_AddItemToArray */
  method AddItemToArray(parent: Node, item: Node?, ghost ts: seq<Tree>, ghost x: Tree)
    requires Linked(ts, parent.child) && RealisedAll(ts)
    requires item != null ==> item == x.node && Loose(x) && Apart(ts + [x]) && parent !in ForestNodes(ts + [x])
    modifies parent`child, TopNodes(ts + [x])`next, TopNodes(ts + [x])`prev
    ensures item == null ==> unchanged(parent) && forall n :: n in TopNodes(ts + [x]) ==> unchanged(n)
    ensures item != null ==> Linked(ts + [x], parent.child) && RealisedAll(ts + [x])
  {
    if item == null {
      return;
    }
    hide Realised, RealisedAll, Nodes, ForestNodes, TopNodes, Apart;
    ghost var us := ts + [x];
    AllRealised(ts, x);
    assert us[..|us| - 1] == ts;
    AppendAt(parent, item, us);
  }

  method AppendAt(parent: Node, item: Node, ghost us: seq<Tree>)
    requires us != [] && us[|us| - 1].node == item && item.next == null && item.prev == null
    requires Linked(us[..|us| - 1], parent.child) && parent !in ForestNodes(us) && Apart(us) && RealisedAll(us)
    modifies parent`child, TopNodes(us)`next, TopNodes(us)`prev
    ensures Linked(us, parent.child) && RealisedAll(us)
  {
    hide Realised, RealisedAll, Nodes, ForestNodes, TopNodes, Apart, Linked;
    assert allocated(ForestNodes(us));
    AppendLinks(parent, item, us);
    KeepAll(us);
  }

  lemma AllRealised(ts: seq<Tree>, x: Tree)
    requires RealisedAll(ts) && Realised(x)
    ensures RealisedAll(ts + [x])
  {
    var us := ts + [x];
    forall k | 0 <= k < |us| ensures Realised(us[k]) {
      assert us[k] == if k < |ts| then ts[k] else x;
    }
  }

  /** The links of cJSON_AddItemToArray; us is the chain with the new item at its end. */
  method AppendLinks(parent: Node, item: Node, ghost us: seq<Tree>)
    requires us != [] && us[|us| - 1].node == item && item.next == null && item.prev == null
    requires Linked(us[..|us| - 1], parent.child) && parent !in ForestNodes(us) && Apart(us)
    modifies parent`child, TopNodes(us)`next, TopNodes(us)`prev
    ensures Linked(us, parent.child)
  {
    hide ForestNodes, Nodes, TopNodes;
    ghost var ts := us[..|us| - 1];
    assert allocated(ForestNodes(us));
    InTop(us, |us| - 1);
    var c := parent.child;
    if c == null {
      parent.child := item;
    } else {
      ghost var k := 0;
      InTop(us, 0);
      while c.next != null
        invariant 0 <= k < |ts| && c == ts[k].node
        decreases |ts| - k
      {
        assert ts[k].node.next == NodeAt(ts, k + 1);
        c, k := c.next, k + 1;
      }
      assert ts[k].node.next == NodeAt(ts, k + 1);
      InTop(us, k);
      assert us[k] == ts[k];
      c.next := item;
      item.prev := c;
    }
  }

  ghost function Just(n: Node?): set<Node> { if n == null then {} else {n} }

  /** How the parser and cJSON_Duplicate grow a chain whose last item they remember. */
  method LinkLast(parent: Node, last: Node?, child: Node, ghost ts: seq<Tree>, ghost x: Tree)
    requires Linked(ts, parent.child) && RealisedAll(ts) && last == NodeAt(ts, |ts| - 1)
    requires child == x.node && Loose(x) && Apart(ts + [x]) && parent !in ForestNodes(ts + [x])
    modifies parent`child, Just(last)`next, {child}`prev
    ensures Linked(ts + [x], parent.child) && RealisedAll(ts + [x])
    ensures child.next == null
  {
    hide Realised, RealisedAll, Nodes, ForestNodes, TopNodes, Apart, Linked, LinkedBut;
    ghost var us := ts + [x];
    AllRealised(ts, x);
    assert allocated(ForestNodes(us));
    InTop(us, |ts|);
    if ts != [] {
      assert us[|ts| - 1] == ts[|ts| - 1];
      InTop(us, |ts| - 1);
    }
    SetLast(parent, last, child, ts, x);
    KeepAll(us);
    AppendLinked(ts, x, parent.child);
  }

  lemma AppendLinked(ts: seq<Tree>, x: Tree, first: Node?)
    requires LinkedBut(ts, |ts| - 1, x.node, -1, null)
    requires x.node.next == null && x.node.prev == NodeAt(ts, |ts| - 1)
    requires first == if ts == [] then x.node else NodeAt(ts, 0)
    ensures Linked(ts + [x], first)
  {
    var us := ts + [x];
    forall j | 0 <= j < |us|
      ensures us[j].node.next == NodeAt(us, j + 1) && us[j].node.prev == NodeAt(us, j - 1)
    {
      assert us[j] == if j < |ts| then ts[j] else x;
    }
  }

  method SetLast(parent: Node, last: Node?, child: Node, ghost ts: seq<Tree>, ghost x: Tree)
    requires Linked(ts, parent.child) && last == NodeAt(ts, |ts| - 1)
    requires child == x.node && child.next == null && child.prev == null && Apart(ts + [x])
             && parent !in ForestNodes(ts + [x])
    modifies parent`child, Just(last)`next, {child}`prev
    ensures LinkedBut(ts, |ts| - 1, x.node, -1, null) && child.next == null && child.prev == last
    ensures parent.child == if ts == [] then child else NodeAt(ts, 0)
  {
    hide ForestNodes, Nodes, TopNodes, Apart, Distinct;
    if last != null {
      Others(ts, |ts| - 1, x);
      last.next := child;
      child.prev := last;
    } else {
      parent.child := child;
    }
  }

  /** cJSON_InsertItemInArray */
  method InsertItemInArray(parent: Node, which: int, newitem: Node, ghost ts: seq<Tree>, ghost x: Tree)
    returns (ghost k: nat)
    requires Linked(ts, parent.child) && RealisedAll(ts)
    requires newitem == x.node && Loose(x) && Apart(ts + [x]) && parent !in ForestNodes(ts + [x])
    modifies parent`child, TopNodes(ts + [x])`next, TopNodes(ts + [x])`prev
    ensures k == if which <= 0 then 0 else if which < |ts| then which else |ts|
    ensures Linked(Insert(ts, k, x), parent.child) && RealisedAll(Insert(ts, k, x))
  {
    hide Realised, RealisedAll, Nodes, ForestNodes, TopNodes, Apart;
    ghost var all := ts + [x];
    AllRealised(ts, x);
    assert allocated(ForestNodes(all)) && allocated(Nodes(x)) && allocated(TopNodes(ts)) && allocated(TopNodes(all));
    assert allocated(ForestNodes(ts));
    InTop(all, |ts|);
    var c;
    c, k := Walk(parent, which, ts);
    if c == null {
      AddItemToArray(parent, newitem, ts, x);
      assert Insert(ts, k, x) == all;
      return;
    }
    InsertAt(parent, c, newitem, ts, k, x);
  }

  method InsertAt(parent: Node, c: Node, newitem: Node, ghost ts: seq<Tree>, ghost k: nat, ghost x: Tree)
    requires k < |ts| && c == ts[k].node && newitem == x.node && RealisedAll(ts + [x])
    requires Linked(ts, parent.child) && parent !in ForestNodes(ts + [x]) && Apart(ts + [x])
    modifies parent`child, TopNodes(ts + [x])`next, TopNodes(ts + [x])`prev
    ensures Linked(Insert(ts, k, x), parent.child) && RealisedAll(Insert(ts, k, x))
  {
    hide Realised, RealisedAll, Nodes, ForestNodes, TopNodes, Apart, Linked, LinkedBut;
    ghost var all := ts + [x];
    assert allocated(ForestNodes(all));
    InsertLinks(parent, c, newitem, ts, k, x);
    KeepAll(all);
    InsertLinked(ts, k, x, parent.child);
    Reorder(ts, k, x);
    RealisedMembers(all, Insert(ts, k, x));
  }

  lemma Reorder(ts: seq<Tree>, k: nat, x: Tree)
    requires k <= |ts|
    ensures forall y :: y in ts + [x] <==> y in Insert(ts, k, x)
    ensures forall y :: y in Insert(ts, k, x) ==> y in ts || y == x
  {
    forall y | y in ts + [x] ensures y in Insert(ts, k, x) {
      if y in ts {
        var j :| 0 <= j < |ts| && ts[j] == y;
        assert Insert(ts, k, x)[if j < k then j else j + 1] == y;
      } else {
        assert Insert(ts, k, x)[k] == x;
      }
    }
  }

  lemma RealisedMembers(ts: seq<Tree>, us: seq<Tree>)
    requires RealisedAll(ts) && forall y :: y in us ==> y in ts
    ensures RealisedAll(us)
  {
    forall k | 0 <= k < |us| ensures Realised(us[k]) {
      assert us[k] in us;
      var j :| 0 <= j < |ts| && ts[j] == us[k];
    }
  }

  /** Every node of ts points where it should, but for new neighbours at the positions a and b. */
  ghost predicate LinkedBut(ts: seq<Tree>, a: int, next: Node?, b: int, prev: Node?)
    reads TopNodes(ts)
  {
    forall j {:trigger ts[j].node.next} {:trigger ts[j].node.prev} :: 0 <= j < |ts| ==>
      && ts[j].node.next == (if j == a then next else NodeAt(ts, j + 1))
      && ts[j].node.prev == (if j == b then prev else NodeAt(ts, j - 1))
  }

  lemma InsertLinked(ts: seq<Tree>, k: nat, x: Tree, first: Node?)
    requires k < |ts| && LinkedBut(ts, k - 1, x.node, k, x.node)
    requires x.node.next == NodeAt(ts, k) && x.node.prev == NodeAt(ts, k - 1)
    requires first == if k == 0 then x.node else NodeAt(ts, 0)
    ensures Linked(Insert(ts, k, x), first)
  {
    var us := Insert(ts, k, x);
    forall j | 0 <= j < |us|
      ensures us[j].node.next == NodeAt(us, j + 1) && us[j].node.prev == NodeAt(us, j - 1)
    {
      assert us[j] == if j < k then ts[j] else if j == k then x else ts[j - 1];
    }
  }

  /** The links of cJSON_InsertItemInArray where there is an item c at position k. */
  method InsertLinks(parent: Node, c: Node, newitem: Node, ghost ts: seq<Tree>, ghost k: nat, ghost x: Tree)
    requires k < |ts| && c == ts[k].node && newitem == x.node
    requires Linked(ts, parent.child) && parent !in ForestNodes(ts + [x]) && Apart(ts + [x])
    modifies parent`child, TopNodes(ts + [x])`next, TopNodes(ts + [x])`prev
    ensures LinkedBut(ts, k - 1, x.node, k, x.node) && x.node.next == NodeAt(ts, k) && x.node.prev == NodeAt(ts, k - 1)
    ensures parent.child == if k == 0 then x.node else NodeAt(ts, 0)
  {
    hide ForestNodes, Nodes, TopNodes, Apart, Distinct;
    ghost var all := ts + [x];
    assert allocated(ForestNodes(all));
    Others(ts, k, x);
    assert ts[k].node.prev == NodeAt(ts, k - 1);
    newitem.next := c;
    newitem.prev := c.prev;
    c.prev := newitem;
    if c == parent.child {
      parent.child := newitem;
    } else {
      newitem.prev.next := newitem;
    }
  }

  /** What the items next to position k are not. */
  lemma Others(ts: seq<Tree>, k: nat, x: Tree)
    requires k < |ts| && Apart(ts + [x])
    ensures forall j {:trigger ts[j]} :: 0 <= j < |ts| ==>
              && ts[j].node != x.node && (ts[j].node == ts[k].node ==> j == k)
              && (k > 0 && ts[j].node == ts[k - 1].node ==> j == k - 1)
              && (k + 1 < |ts| && ts[j].node == ts[k + 1].node ==> j == k + 1)
    ensures x.node in TopNodes(ts + [x]) && x.node in ForestNodes(ts + [x])
    ensures forall j :: 0 <= j < |ts| ==> ts[j].node in TopNodes(ts + [x]) && ts[j].node in ForestNodes(ts + [x])
  {
    var all := ts + [x];
    assert all[|ts|] == x;
    TopInForest(all);
    forall j | 0 <= j < |ts| ensures all[j] == ts[j] && ts[j].node in TopNodes(all) {
    }
  }

  /** cJSON_DetachItemFromArray */
  method DetachItemFromArray(parent: Node, which: int, ghost ts: seq<Tree>) returns (c: Node?, ghost k: nat)
    requires Linked(ts, parent.child) && RealisedAll(ts) && Apart(ts) && parent !in ForestNodes(ts)
    modifies parent`child, TopNodes(ts)`next, TopNodes(ts)`prev
    ensures k == if which <= 0 then 0 else if which < |ts| then which else |ts|
    ensures k == |ts| ==> c == null && unchanged(parent) && forall n :: n in TopNodes(ts) ==> unchanged(n)
    ensures k < |ts| ==>
              && c == ts[k].node && Loose(ts[k])
              && Linked(Without(ts, k), parent.child) && RealisedAll(Without(ts, k))
  {
    hide Realised, Nodes, ForestNodes, TopNodes, Apart;
    assert allocated(ForestNodes(ts)) && allocated(TopNodes(ts));
    c, k := Walk(parent, which, ts);
    if c != null {
      DetachAt(parent, c, ts, k);
    }
  }

  method DetachAt(parent: Node, c: Node, ghost ts: seq<Tree>, ghost k: nat)
    requires k < |ts| && c == ts[k].node && RealisedAll(ts)
    requires Linked(ts, parent.child) && parent !in ForestNodes(ts) && Apart(ts)
    modifies parent`child, TopNodes(ts)`next, TopNodes(ts)`prev
    ensures Loose(ts[k]) && Linked(Without(ts, k), parent.child) && RealisedAll(Without(ts, k))
  {
    hide Realised, Nodes, ForestNodes, TopNodes, Apart, Linked;
    assert allocated(ForestNodes(ts));
    DetachLinks(parent, c, ts, k);
    KeepAll(ts);
    DetachLinked(ts, k, parent.child);
    RealisedMembers(ts, Without(ts, k));
  }

  lemma DetachLinked(ts: seq<Tree>, k: nat, first: Node?)
    requires k < |ts| && first == if k == 0 then NodeAt(ts, 1) else NodeAt(ts, 0)
    requires forall j {:trigger ts[j].node.next} {:trigger ts[j].node.prev} :: 0 <= j < |ts| && j != k ==>
               && ts[j].node.next == NodeAt(ts, if j == k - 1 then k + 1 else j + 1)
               && ts[j].node.prev == NodeAt(ts, if j == k + 1 then k - 1 else j - 1)
    ensures Linked(Without(ts, k), first)
  {
    var us := Without(ts, k);
    forall j | 0 <= j < |us|
      ensures us[j].node.next == NodeAt(us, j + 1) && us[j].node.prev == NodeAt(us, j - 1)
    {
      var i := if j < k then j else j + 1;
      assert us[j] == ts[i] && ts[i].node.next == NodeAt(ts, if i == k - 1 then k + 1 else i + 1);
      WithoutAt(ts, k, j + 1);
      WithoutAt(ts, k, j - 1);
    }
    WithoutAt(ts, k, 0);
  }

  lemma WithoutAt(ts: seq<Tree>, k: nat, j: int)
    requires k < |ts|
    ensures NodeAt(Without(ts, k), j) == NodeAt(ts, if j < k then j else j + 1)
  {
  }

  method DetachLinks(parent: Node, c: Node, ghost ts: seq<Tree>, ghost k: nat)
    requires k < |ts| && c == ts[k].node
    requires Linked(ts, parent.child) && parent !in ForestNodes(ts) && Apart(ts)
    modifies parent`child, TopNodes(ts)`next, TopNodes(ts)`prev
    ensures c.next == null && c.prev == null
    ensures parent.child == if k == 0 then NodeAt(ts, 1) else NodeAt(ts, 0)
    ensures forall j {:trigger ts[j]} :: 0 <= j < |ts| && j != k ==>
              && ts[j].node.next == NodeAt(ts, if j == k - 1 then k + 1 else j + 1)
              && ts[j].node.prev == NodeAt(ts, if j == k + 1 then k - 1 else j - 1)
  {
    hide ForestNodes, Nodes, TopNodes, Apart, Distinct;
    assert allocated(ForestNodes(ts));
    Neighbours(ts, k);
    assert ts[k].node.prev == NodeAt(ts, k - 1) && ts[k].node.next == NodeAt(ts, k + 1);
    if c.prev != null {
      c.prev.next := c.next;
    }
    if c.next != null {
      c.next.prev := c.prev;
    }
    if c == parent.child {
      parent.child := c.next;
    }
    c.prev := null;
    c.next := null;
  }

  lemma Neighbours(ts: seq<Tree>, k: nat)
    requires k < |ts| && Apart(ts)
    ensures forall j {:trigger ts[j]} :: 0 <= j < |ts| ==>
              && (ts[j].node == ts[k].node ==> j == k)
              && (k > 0 && ts[j].node == ts[k - 1].node ==> j == k - 1)
              && (k + 1 < |ts| && ts[j].node == ts[k + 1].node ==> j == k + 1)
    ensures forall j :: 0 <= j < |ts| ==> ts[j].node in TopNodes(ts) && ts[j].node in ForestNodes(ts)
  {
    TopInForest(ts);
  }

  /** cJSON_ReplaceItemInArray: the replaced item is deleted. */
  method ReplaceItemInArray(h: Heap, parent: Node, which: int, newitem: Node, ghost ts: seq<Tree>, ghost x: Tree)
    returns (ghost k: nat)
    requires Linked(ts, parent.child) && RealisedAll(ts)
    requires newitem == x.node && Loose(x) && Apart(ts + [x]) && parent !in ForestNodes(ts + [x])
    requires SoleAll(ts) && ForestOwn(ts) <= h.live
    modifies h, parent`child, TopNodes(ts + [x])`next, TopNodes(ts + [x])`prev
    ensures k == if which <= 0 then 0 else if which < |ts| then which else |ts|
    ensures k == |ts| ==>
              unchanged(h) && unchanged(parent) && forall n :: n in TopNodes(ts + [x]) ==> unchanged(n)
    ensures k < |ts| ==>
              && Linked(ts[k := x], parent.child) && RealisedAll(ts[k := x])
              && h.live == old(h.live) - Own(ts[k])
  {
    hide Realised, Nodes, ForestNodes, TopNodes, Apart, Own, ForestOwn, Sole;
    ghost var all := ts + [x];
    AllRealised(ts, x);
    assert allocated(ForestNodes(all)) && allocated(Nodes(x)) && allocated(TopNodes(ts)) && allocated(TopNodes(all));
    assert allocated(ForestNodes(ts));
    var c;
    c, k := Walk(parent, which, ts);
    if c == null {
      return;
    }
    ReplaceAt(parent, c, newitem, ts, k, x);
    OwnAt(ts, k);
    OwnSingle(ts[k]);
    assert allocated(ForestNodes(ts[k := x])) by {
      ForestSubset(all, ts[k := x]);
    }
    assert allocated(TopNodes(ts[k := x])) by {
      TopInForest(ts[k := x]);
      ForestSubset(all, ts[k := x]);
    }
    assert Linked([ts[k]], c);
    Delete(h, c, [ts[k]]);
  }

  method ReplaceAt(parent: Node, c: Node, newitem: Node, ghost ts: seq<Tree>, ghost k: nat, ghost x: Tree)
    requires k < |ts| && c == ts[k].node && newitem == x.node && RealisedAll(ts + [x])
    requires Linked(ts, parent.child) && parent !in ForestNodes(ts + [x]) && Apart(ts + [x])
    modifies parent`child, TopNodes(ts + [x])`next, TopNodes(ts + [x])`prev
    ensures Linked(ts[k := x], parent.child) && RealisedAll(ts[k := x])
    ensures c.next == null && c.prev == null && RealisedAll([ts[k]])
  {
    hide Realised, RealisedAll, Nodes, ForestNodes, TopNodes, Apart, Linked;
    ghost var all := ts + [x];
    assert allocated(ForestNodes(all));
    ReplaceLinks(parent, c, newitem, ts, k, x);
    KeepAll(all);
    ReplaceLinked(ts, k, x, parent.child);
    RealisedMembers(all, ts[k := x]);
    RealisedMembers(all, [ts[k]]);
  }

  lemma ForestSubset(ts: seq<Tree>, us: seq<Tree>)
    requires forall y :: y in us ==> y in ts
    ensures ForestNodes(us) <= ForestNodes(ts)
  {
    forall n | n in ForestNodes(us) ensures n in ForestNodes(ts) {
      var k :| 0 <= k < |us| && n in Nodes(us[k]);
      assert us[k] in us;
      var j :| 0 <= j < |ts| && ts[j] == us[k];
    }
  }

  lemma OwnSingle(t: Tree)
    ensures ForestOwn([t]) == Own(t)
  {
    assert [t][0] == t;
  }

  lemma ReplaceLinked(ts: seq<Tree>, k: nat, x: Tree, first: Node?)
    requires k < |ts| && first == if k == 0 then x.node else NodeAt(ts, 0)
    requires x.node.next == NodeAt(ts, k + 1) && x.node.prev == NodeAt(ts, k - 1)
    requires forall j {:trigger ts[j]} :: 0 <= j < |ts| && j != k ==>
               && ts[j].node.next == (if j == k - 1 then x.node else NodeAt(ts, j + 1))
               && ts[j].node.prev == (if j == k + 1 then x.node else NodeAt(ts, j - 1))
    ensures Linked(ts[k := x], first)
  {
    var us := ts[k := x];
    forall j | 0 <= j < |us|
      ensures us[j].node.next == NodeAt(us, j + 1) && us[j].node.prev == NodeAt(us, j - 1)
    {
      assert us[j] == if j == k then x else ts[j];
    }
  }

  method ReplaceLinks(parent: Node, c: Node, newitem: Node, ghost ts: seq<Tree>, ghost k: nat, ghost x: Tree)
    requires k < |ts| && c == ts[k].node && newitem == x.node
    requires Linked(ts, parent.child) && parent !in ForestNodes(ts + [x]) && Apart(ts + [x])
    modifies parent`child, TopNodes(ts + [x])`next, TopNodes(ts + [x])`prev
    ensures c.next == null && c.prev == null && parent.child == if k == 0 then x.node else NodeAt(ts, 0)
    ensures x.node.next == NodeAt(ts, k + 1) && x.node.prev == NodeAt(ts, k - 1)
    ensures forall j {:trigger ts[j]} :: 0 <= j < |ts| && j != k ==>
              && ts[j].node.next == (if j == k - 1 then x.node else NodeAt(ts, j + 1))
              && ts[j].node.prev == (if j == k + 1 then x.node else NodeAt(ts, j - 1))
  {
    hide ForestNodes, Nodes, TopNodes, Apart, Distinct;
    ghost var all := ts + [x];
    assert allocated(ForestNodes(all));
    Others(ts, k, x);
    assert ts[k].node.prev == NodeAt(ts, k - 1) && ts[k].node.next == NodeAt(ts, k + 1);
    newitem.next := c.next;
    newitem.prev := c.prev;
    if newitem.next != null {
      newitem.next.prev := newitem;
    }
    if c == parent.child {
      parent.child := newitem;
    } else {
      newitem.prev.next := newitem;
    }
    c.next := null;
    c.prev := null;
  }

  // ---------------------------------------------------------------- references

  /** The memcpy of create_reference, and what it changes in the copy. */
  method CopyItem(ref: Node, item: Node)
    requires ref != item
    modifies ref
    ensures Content(ref) == Content(item).(isReference := true, name := null)
    ensures ref.child == item.child && ref.next == null && ref.prev == null
  {
    ref.child, ref.kind, ref.isReference := item.child, item.kind, true;
    ref.stringIsConst, ref.valuestring := item.stringIsConst, item.valuestring;
    ref.mantissa, ref.exponent := item.mantissa, item.exponent;
    ref.name, ref.next, ref.prev := null, null, null;
  }

  /** create_reference: a new item that shares the value and the children of another, and owns
      nothing but itself. */
  method CreateReference(h: Heap, item: Node, ghost t: Tree) returns (ref: Node, ghost r: Tree)
    requires t.node == item && Realised(t)
    modifies h
    ensures fresh(ref) && r.node == ref && Loose(r) && h.live == old(h.live) + {ref}
    ensures ValueOf(r) == ValueOf(t) && r.kids == t.kids
    ensures Own(r) == {ref} && Sole(r)
  {
    AtRoot(t);
    hide Realised, Nodes, ForestNodes, ValueOf, Own, Sole;
    assert allocated(Nodes(t));
    ref := h.NewItem();
    CopyItem(ref, item);
    r := Tree(ref, t.item.(isReference := true, name := null), t.kids);
    AtRoot(t);
    SharedKids(t, r);
  }

  /** A reference item shows what the original shows, and owns only itself. */
  lemma SharedKids(t: Tree, r: Tree)
    requires Realised(t) && r.kids == t.kids && r.item == t.item.(isReference := true, name := null)
    requires Content(r.node) == r.item && r.node.child == t.node.child
    ensures Realised(r) && ValueOf(r) == ValueOf(t) && Own(r) == {r.node} && Sole(r)
  {
    TopInForest(t.kids);
  }
}
