/** The blocks of trees that share nothing, and how such trees grow child by child. */
module JsonBlocks {
  import opened JsonTree
  import opened JsonHeap
  import opened JsonEdit

  /** Every block a tree is made of, whoever owns it. */
  ghost function Blocks(t: Tree): set<object>
    decreases t
  {
    {t.node as object}
    + (if t.item.str != null then {t.item.str as object} else {})
    + (if t.item.name != null then {t.item.name as object} else {})
    + ForestBlocks(t.kids)
  }

  ghost function ForestBlocks(ts: seq<Tree>): set<object>
    decreases ts
  {
    set k, o | 0 <= k < |ts| && o in Blocks(ts[k]) :: o
  }

  /** No block occurs twice, and there are no references. */
  ghost predicate Separate(t: Tree)
    decreases t
  {
    && !t.item.isReference
    && (t.item.str != null ==> t.item.str != t.item.name)
    && {t.node as object} !! ForestBlocks(t.kids)
    && (t.item.str != null ==> t.item.str !in ForestBlocks(t.kids))
    && (t.item.name != null ==> t.item.name !in ForestBlocks(t.kids))
    && SeparateAll(t.kids)
  }

  ghost predicate SeparateAll(ts: seq<Tree>)
    decreases ts
  {
    && (forall k :: 0 <= k < |ts| ==> Separate(ts[k]))
    && (forall j, k :: 0 <= j < k < |ts| ==> Blocks(ts[j]) !! Blocks(ts[k]))
  }

  /** The names that cJSON_Delete leaves alone because the item calls them constant. */
  ghost function ConstNames(t: Tree): set<object>
    decreases t
  {
    (if t.item.stringIsConst && t.item.name != null then {t.item.name as object} else {}) + ForestConstNames(t.kids)
  }

  ghost function ForestConstNames(ts: seq<Tree>): set<object>
    decreases ts
  {
    set k, o | 0 <= k < |ts| && o in ConstNames(ts[k]) :: o
  }

  lemma BlocksAppend(ts: seq<Tree>, x: Tree)
    ensures ForestBlocks(ts + [x]) == ForestBlocks(ts) + Blocks(x)
  {
    var us := ts + [x];
    forall o | o in ForestBlocks(us) ensures o in ForestBlocks(ts) + Blocks(x) {
      var k :| 0 <= k < |us| && o in Blocks(us[k]);
      if k < |ts| {
        assert us[k] == ts[k];
      }
    }
    forall o | o in ForestBlocks(ts) ensures o in ForestBlocks(us) {
      var k :| 0 <= k < |ts| && o in Blocks(ts[k]);
      assert us[k] == ts[k];
    }
    assert us[|ts|] == x;
  }

  lemma SeparateAppend(ts: seq<Tree>, x: Tree)
    requires SeparateAll(ts) && Separate(x) && Blocks(x) !! ForestBlocks(ts)
    ensures SeparateAll(ts + [x])
  {
    var us := ts + [x];
    forall k | 0 <= k < |us| ensures Separate(us[k]) {
      assert us[k] == if k < |ts| then ts[k] else x;
    }
    forall j, k | 0 <= j < k < |us| ensures Blocks(us[j]) !! Blocks(us[k]) {
      assert us[j] == ts[j];
      assert Blocks(ts[j]) <= ForestBlocks(ts);
      assert us[k] == if k < |ts| then ts[k] else x;
    }
  }

  lemma {:induction false} NodesAreBlocks(t: Tree)
    ensures forall n :: n in Nodes(t) ==> n in Blocks(t)
    decreases t, 1
  {
    ForestNodesAreBlocks(t.kids);
  }

  lemma {:induction false} ForestNodesAreBlocks(ts: seq<Tree>)
    ensures forall n :: n in ForestNodes(ts) ==> n in ForestBlocks(ts)
    decreases ts, 0
  {
    forall n | n in ForestNodes(ts) ensures n in ForestBlocks(ts) {
      var k :| 0 <= k < |ts| && n in Nodes(ts[k]);
      NodesAreBlocks(ts[k]);
    }
  }

  lemma SeparateApart(ts: seq<Tree>)
    requires SeparateAll(ts)
    ensures Apart(ts)
  {
    forall j, k | 0 <= j < k < |ts| ensures ts[j].node != ts[k].node {
      assert ts[j].node in Blocks(ts[j]) && ts[k].node in Blocks(ts[k]);
    }
    forall j, k | 0 <= j < |ts| && 0 <= k < |ts| ensures ts[j].node !in ForestNodes(ts[k].kids) {
      ForestNodesAreBlocks(ts[k].kids);
      assert Separate(ts[k]);
      assert ts[j].node in Blocks(ts[j]) && ForestBlocks(ts[k].kids) <= Blocks(ts[k]);
      assert j != k ==> Blocks(ts[j]) !! Blocks(ts[k]);
    }
  }

  lemma {:induction false} OwnInBlocks(t: Tree)
    requires Separate(t)
    ensures Own(t) <= Blocks(t) && Sole(t)
    decreases t, 1
  {
    ForestOwnInBlocks(t.kids);
  }

  lemma {:induction false} ForestOwnInBlocks(ts: seq<Tree>)
    requires SeparateAll(ts)
    ensures ForestOwn(ts) <= ForestBlocks(ts) && SoleAll(ts)
    decreases ts, 0
  {
    forall k | 0 <= k < |ts| ensures Sole(ts[k]) && Own(ts[k]) <= Blocks(ts[k]) {
      OwnInBlocks(ts[k]);
    }
    forall j, k | 0 <= j < k < |ts| ensures Own(ts[j]) !! Own(ts[k]) {
      assert Blocks(ts[j]) !! Blocks(ts[k]);
    }
    forall o | o in ForestOwn(ts) ensures o in ForestBlocks(ts) {
      var k :| 0 <= k < |ts| && o in Own(ts[k]);
    }
  }

  /** Deleting a tree frees all its blocks but the names flagged as constant. */
  lemma {:induction false} BlocksNotOwned(t: Tree)
    requires Separate(t)
    ensures Blocks(t) - Own(t) == ConstNames(t)
    decreases t, 1
  {
    ForestBlocksNotOwned(t.kids);
    ForestOwnInBlocks(t.kids);
  }

  lemma {:induction false} ForestBlocksNotOwned(ts: seq<Tree>)
    requires SeparateAll(ts)
    ensures ForestBlocks(ts) - ForestOwn(ts) == ForestConstNames(ts)
    decreases ts, 0
  {
    forall k | 0 <= k < |ts| ensures Blocks(ts[k]) - Own(ts[k]) == ConstNames(ts[k]) && Own(ts[k]) <= Blocks(ts[k]) {
      BlocksNotOwned(ts[k]);
      OwnInBlocks(ts[k]);
    }
    forall o | o in ForestBlocks(ts) - ForestOwn(ts) ensures o in ForestConstNames(ts) {
      var k :| 0 <= k < |ts| && o in Blocks(ts[k]);
      assert o !in Own(ts[k]) by {
        OwnAt(ts, k);
      }
      assert o in ConstNames(ts[k]);
    }
    forall o | o in ForestConstNames(ts) ensures o in ForestBlocks(ts) && o !in ForestOwn(ts) {
      var k :| 0 <= k < |ts| && o in ConstNames(ts[k]);
      assert o in Blocks(ts[k]) && o !in Own(ts[k]);
      forall j | 0 <= j < |ts| ensures o !in Own(ts[j]) {
        assert j != k ==> Blocks(ts[j]) !! Blocks(ts[k]);
      }
    }
  }

  /** An item and the trees below it make a tree. */
  lemma Assemble(n: Node, item: Item, us: seq<Tree>) returns (u: Tree)
    requires Content(n) == item && !item.isReference && n.next == null && n.prev == null
    requires Linked(us, n.child) && RealisedAll(us) && SeparateAll(us)
    requires Blocks(Tree(n, item, [])) !! ForestBlocks(us) && Separate(Tree(n, item, []))
    ensures u == Tree(n, item, us) && Loose(u) && Separate(u)
    ensures Blocks(u) == Blocks(Tree(n, item, [])) + ForestBlocks(us)
  {
    u := Tree(n, item, us);
    TopInForest(us);
  }

  /** us are the finished children of parent; `last` is the last of them. */
  ghost predicate Growing(parent: Node, us: seq<Tree>, last: Node?)
    reads parent, ForestNodes(us)
  {
    && (TopInForest(us); Linked(us, parent.child)) && RealisedAll(us) && SeparateAll(us)
    && last == NodeAt(us, |us| - 1) && parent !in ForestNodes(us)
  }

  lemma GrowingFromNothing(parent: Node)
    requires parent.child == null
    ensures Growing(parent, [], null) && ForestBlocks([]) == {}
  {
  }

  lemma UnionAssociative(a: set<object>, b: set<object>, c: set<object>)
    ensures (a + b) + c == a + (b + c)
  {
  }

  lemma NodeIsBlock(x: Tree)
    ensures x.node in Blocks(x)
  {
  }

  /** Chain a finished tree behind the last child. */
  method AddChild(parent: Node, last: Node?, child: Node, ghost us: seq<Tree>, ghost x: Tree)
    requires Growing(parent, us, last) && child == x.node && Loose(x) && Separate(x)
    requires Blocks(x) !! ForestBlocks(us) && parent !in Blocks(x)
    modifies parent`child, Just(last)`next, {child}`prev
    ensures Growing(parent, us + [x], child) && ForestBlocks(us + [x]) == ForestBlocks(us) + Blocks(x)
  {
    hide Realised, Nodes, ForestNodes, TopNodes, Separate, SeparateAll, Blocks, ForestBlocks, Apart, RealisedAll,
        Linked;
    SeparateAppend(us, x);
    SeparateApart(us + [x]);
    ForestNodesAppend(us, x);
    NodesAreBlocks(x);
    BlocksAppend(us, x);
    LinkLast(parent, last, child, us, x);
  }
}
