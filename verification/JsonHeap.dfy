/** Who owns which block, and cJSON_Delete. */
module JsonHeap {
  import opened CText
  import opened JsonTree

  /** The allocator. Its only state is the set of blocks that are allocated and not yet freed. */
  class Heap {
    ghost var live: set<object>

    constructor ()
      ensures live == {}
    {
      live := {};
    }

    method Free(x: object)
      requires x in live
      modifies this
      ensures live == old(live) - {x}
    {
      live := live - {x};
    }

    method NewBlock(size: nat) returns (b: array<byte>)
      modifies this
      ensures fresh(b) && b.Length == size && live == old(live) + {b}
    {
      b := new byte[size](_ => 0);
      live := live + {b};
    }

    /** A table of pointers, filled with zeroes. */
    method NewTable(n: nat) returns (table: array<array?<byte>>)
      modifies this
      ensures fresh(table) && table.Length == n && live == old(live) + {table}
    {
      table := new array?<byte>[n](_ => null);
      live := live + {table};
    }

    /** cJSON_New_Item */
    method NewItem() returns (n: Node)
      modifies this
      ensures fresh(n) && live == old(live) + {n}
      ensures n.next == null && n.prev == null && n.child == null && Content(n) == BLANK
    {
      n := new Node();
      live := live + {n};
    }

    /** cJSON_strdup, or the block parse_string fills. */
    method NewString(text: bytes) returns (str: CString)
      modifies this
      ensures fresh(str) && str.text == text && live == old(live) + {str}
    {
      str := new CString(text);
      live := live + {str};
    }
  }

  // ---------------------------------------------------------------- ownership

  ghost function Strings(t: Tree): set<object> {
    (if !t.item.isReference && t.item.str != null then {t.item.str as object} else {})
    + (if !t.item.stringIsConst && t.item.name != null then {t.item.name as object} else {})
  }

  /** The blocks that belong to the item: not what a reference item points at, and not a name
      that is flagged as constant. */
  ghost function Own(t: Tree): set<object>
    decreases t
  {
    {t.node as object} + Strings(t) + if t.item.isReference then {} else ForestOwn(t.kids)
  }

  ghost function ForestOwn(ts: seq<Tree>): set<object>
    decreases ts
  {
    set k, o | 0 <= k < |ts| && o in Own(ts[k]) :: o
  }

  /** No block has two owners. */
  ghost predicate Sole(t: Tree)
    decreases t
  {
    && (!t.item.isReference && !t.item.stringIsConst && t.item.str != null ==> t.item.str != t.item.name)
    && (!t.item.isReference ==> {t.node as object} + Strings(t) !! ForestOwn(t.kids) && SoleAll(t.kids))
  }

  ghost predicate SoleAll(ts: seq<Tree>)
    decreases ts
  {
    && (forall k :: 0 <= k < |ts| ==> Sole(ts[k]))
    && (forall j, k :: 0 <= j < k < |ts| ==> Own(ts[j]) !! Own(ts[k]))
  }

  lemma OwnAt(ts: seq<Tree>, k: nat)
    requires k < |ts|
    ensures Own(ts[k]) <= ForestOwn(ts)
  {
  }

  lemma ForestOwnAppend(ts: seq<Tree>, x: Tree)
    ensures ForestOwn(ts + [x]) == ForestOwn(ts) + Own(x)
  {
    var us := ts + [x];
    forall o | o in ForestOwn(us) ensures o in ForestOwn(ts) + Own(x) {
      var k :| 0 <= k < |us| && o in Own(us[k]);
      if k < |ts| {
        assert us[k] == ts[k];
      }
    }
    forall o | o in ForestOwn(ts) ensures o in ForestOwn(us) {
      var k :| 0 <= k < |ts| && o in Own(ts[k]);
      assert us[k] == ts[k];
    }
    assert us[|ts|] == x;
  }

  lemma ForestNodesAppend(ts: seq<Tree>, x: Tree)
    ensures ForestNodes(ts + [x]) == ForestNodes(ts) + Nodes(x)
  {
    var us := ts + [x];
    forall o | o in ForestNodes(us) ensures o in ForestNodes(ts) + Nodes(x) {
      var k :| 0 <= k < |us| && o in Nodes(us[k]);
      if k < |ts| {
        assert us[k] == ts[k];
      }
    }
    forall o | o in ForestNodes(ts) ensures o in ForestNodes(us) {
      var k :| 0 <= k < |ts| && o in Nodes(ts[k]);
      assert us[k] == ts[k];
    }
    assert us[|ts|] == x;
  }

  // ---------------------------------------------------------------- cJSON_Delete

  /** The first k trees of ts own what the first k - 1 own and what the last of them owns. */
  lemma ForestOwnTake(ts: seq<Tree>, k: nat)
    requires k < |ts|
    ensures ForestOwn(ts[..k + 1]) == ForestOwn(ts[..k]) + Own(ts[k])
  {
    assert ts[..k + 1] == ts[..k] + [ts[k]];
    ForestOwnAppend(ts[..k], ts[k]);
  }

  /** cJSON_Delete of a chain of siblings: every block the chain owns is freed, each exactly once
      (freeing asks for a live block), and no other block is. */
  method Delete(h: Heap, first: Node?, ghost ts: seq<Tree>)
    requires Linked(ts, first) && RealisedAll(ts) && SoleAll(ts) && ForestOwn(ts) <= h.live
    modifies h
    ensures h.live == old(h.live) - ForestOwn(ts)
    decreases ts
  {
    hide Realised, Own, Sole, Nodes, ForestNodes, ForestOwn;
    assert allocated(ForestNodes(ts)) && allocated(TopNodes(ts));
    var c := first;
    ghost var i := 0;
    NoneOwned(ts);
    while c != null
      invariant Linked(ts, first) && RealisedAll(ts)
      invariant 0 <= i <= |ts| && c == NodeAt(ts, i)
      invariant h.live == old(h.live) - ForestOwn(ts[..i])
      decreases |ts| - i
    {
      assert Realised(ts[i]);
      StillLive(ts, i, old(h.live));
      ForestOwnTake(ts, i);
      var next := c.next;
      DeleteItem(h, c, ts[i]);
      c := next;
      i := i + 1;
    }
    assert ts[..i] == ts;
  }

  lemma NoneOwned(ts: seq<Tree>)
    ensures ForestOwn(ts[..0]) == {}
  {
  }

  lemma StillLive(ts: seq<Tree>, i: nat, all: set<object>)
    requires i < |ts| && SoleAll(ts) && ForestOwn(ts) <= all
    ensures Own(ts[i]) <= all - ForestOwn(ts[..i]) && Sole(ts[i])
  {
    OwnAt(ts, i);
    forall o | o in ForestOwn(ts[..i]) ensures o !in Own(ts[i]) {
      var k :| 0 <= k < |ts[..i]| && o in Own(ts[..i][k]);
      assert ts[..i][k] == ts[k];
    }
  }

  /** The body of the loop of cJSON_Delete. */
  method DeleteItem(h: Heap, c: Node, ghost t: Tree)
    requires t.node == c && Realised(t) && Sole(t) && Own(t) <= h.live
    modifies h
    ensures h.live == old(h.live) - Own(t)
    decreases t
  {
    AtRoot(t);
    assert allocated(Nodes(t));
    if !c.isReference && c.child != null {
      Delete(h, c.child, t.kids);
    }
    assert c.isReference == t.item.isReference && (c.child == null ==> t.kids == []);
    if !c.isReference && c.valuestring != null {
      h.Free(c.valuestring);
    }
    if !c.stringIsConst && c.name != null {
      h.Free(c.name);
    }
    h.Free(c);
  }
}
