/** cJSON items on the heap, and the trees of items they form. */
module JsonTree {
  import opened CText
  import opened Json

  datatype Kind = KFalse | KTrue | KNull | KNumber | KString | KArray | KObject

  /** A block that holds a string. */
  class CString {
    const text: bytes

    constructor (text: bytes)
      ensures this.text == text
    {
      this.text := text;
    }
  }

  /** struct cJSON. The number is mantissa * 10^exponent; the type's two flag bits are fields. */
  class Node {
    var next: Node?
    var prev: Node?
    var child: Node?
    var kind: Kind
    var isReference: bool
    var stringIsConst: bool
    var valuestring: CString?
    var mantissa: int
    var exponent: int
    var name: CString?

    /** A zeroed item. */
    constructor ()
      ensures next == null && prev == null && child == null && Content(this) == BLANK
    {
      next, prev, child := null, null, null;
      kind, isReference, stringIsConst := KFalse, false, false;
      valuestring, mantissa, exponent, name := null, 0, 0, null;
    }
  }

  /** Everything an item holds but its links. */
  datatype Item = Item(kind: Kind, isReference: bool, stringIsConst: bool, str: CString?,
                       mantissa: int, exponent: int, name: CString?)

  const BLANK := Item(KFalse, false, false, null, 0, 0, null)

  ghost function Content(n: Node): Item
    reads n
  {
    Item(n.kind, n.isReference, n.stringIsConst, n.valuestring, n.mantissa, n.exponent, n.name)
  }

  /** An item with the items below it. */
  datatype Tree = Tree(node: Node, item: Item, kids: seq<Tree>)

  ghost function Nodes(t: Tree): set<Node>
    decreases t
  {
    {t.node} + ForestNodes(t.kids)
  }

  ghost function ForestNodes(ts: seq<Tree>): set<Node>
    decreases ts
  {
    set k, n | 0 <= k < |ts| && n in Nodes(ts[k]) :: n
  }

  ghost function TopNodes(ts: seq<Tree>): set<Node> {
    set k | 0 <= k < |ts| :: ts[k].node
  }

  ghost function NodeAt(ts: seq<Tree>, k: int): Node? {
    if 0 <= k < |ts| then ts[k].node else null
  }

  /** The nodes of ts are chained in order by next, by prev the other way, from `first` on. */
  ghost predicate Linked(ts: seq<Tree>, first: Node?)
    reads TopNodes(ts)
  {
    && first == NodeAt(ts, 0)
    && forall k {:trigger ts[k].node.next} {:trigger ts[k].node.prev} :: 0 <= k < |ts| ==>
         ts[k].node.next == NodeAt(ts, k + 1) && ts[k].node.prev == NodeAt(ts, k - 1)
  }

  /** The heap holds the tree t at t.node. */
  ghost predicate Realised(t: Tree)
    reads Nodes(t)
    decreases t
  {
    && Content(t.node) == t.item
    && (assert TopNodes(t.kids) <= Nodes(t) by { TopInForest(t.kids); }
        Linked(t.kids, t.node.child))
    && RealisedAll(t.kids)
  }

  ghost predicate RealisedAll(ts: seq<Tree>)
    reads ForestNodes(ts)
    decreases ts
  {
    forall k :: 0 <= k < |ts| ==> Realised(ts[k])
  }

  lemma TopInForest(ts: seq<Tree>)
    ensures TopNodes(ts) <= ForestNodes(ts)
  {
    forall k | 0 <= k < |ts| ensures ts[k].node in ForestNodes(ts) {
      assert ts[k].node in Nodes(ts[k]);
    }
  }

  /** What a realised tree says of its own item and of its first child. */
  lemma AtRoot(t: Tree)
    requires Realised(t)
    ensures Content(t.node) == t.item && t.node.child == NodeAt(t.kids, 0)
  {
    TopInForest(t.kids);
  }

  /** What a realised tree says of its k-th child. */
  lemma AtKid(t: Tree, k: nat)
    requires Realised(t) && k < |t.kids|
    ensures Realised(t.kids[k]) && t.kids[k].node.next == NodeAt(t.kids, k + 1)
    ensures Content(t.kids[k].node) == t.kids[k].item
    ensures Nodes(t.kids[k]) <= Nodes(t)
  {
    TopInForest(t.kids);
  }

  // ---------------------------------------------------------------- the value of a tree

  function Text(s: CString?): bytes {
    if s == null then [] else s.text
  }

  ghost function ValueOf(t: Tree): Value
    decreases t
  {
    match t.item.kind
    case KFalse => False
    case KTrue => True
    case KNull => Null
    case KNumber => Number(t.item.mantissa, t.item.exponent)
    case KString => String(Text(t.item.str))
    case KArray => Array(ValuesOf(t.kids))
    case KObject => Object(MembersOf(t.kids))
  }

  ghost function ValuesOf(ts: seq<Tree>): (vs: seq<Value>)
    ensures |vs| == |ts|
    decreases ts
  {
    if ts == [] then [] else [ValueOf(ts[0])] + ValuesOf(ts[1..])
  }

  ghost function MemberOf(t: Tree): Member
    decreases t
  {
    Member(Text(t.item.name), ValueOf(t))
  }

  ghost function MembersOf(ts: seq<Tree>): (ms: seq<Member>)
    ensures |ms| == |ts|
    decreases ts
  {
    if ts == [] then [] else [Member(Text(ts[0].item.name), ValueOf(ts[0]))] + MembersOf(ts[1..])
  }

  lemma {:induction false} ValuesAppend(a: seq<Tree>, b: seq<Tree>)
    ensures ValuesOf(a + b) == ValuesOf(a) + ValuesOf(b)
    decreases a
  {
    if a == [] {
      assert a + b == b;
    } else {
      assert (a + b)[1..] == a[1..] + b;
      ValuesAppend(a[1..], b);
    }
  }

  lemma {:induction false} MembersAppend(a: seq<Tree>, b: seq<Tree>)
    ensures MembersOf(a + b) == MembersOf(a) + MembersOf(b)
    decreases a
  {
    if a == [] {
      assert a + b == b;
    } else {
      assert (a + b)[1..] == a[1..] + b;
      MembersAppend(a[1..], b);
    }
  }

  /** What the printers need of a tree: 32-bit integers, and strings and names that are there. */
  ghost predicate PrintableTree(t: Tree)
    decreases t
  {
    match t.item.kind
    case KNumber => t.item.exponent == 0 && -0x8000_0000 <= t.item.mantissa < 0x8000_0000
    case KString => t.item.str != null && NulFree(t.item.str.text)
    case KArray => forall k :: 0 <= k < |t.kids| ==> PrintableTree(t.kids[k])
    case KObject => forall k :: 0 <= k < |t.kids| ==> Named(t.kids[k]) && PrintableTree(t.kids[k])
    case _ => true
  }

  ghost predicate Named(t: Tree) {
    t.item.name != null && NulFree(t.item.name.text)
  }

  lemma {:induction false} PrintableTreeValue(t: Tree)
    requires PrintableTree(t)
    ensures Printable(ValueOf(t))
    decreases t, 1
  {
    if t.item.kind == KArray {
      PrintableKids(t.kids);
    } else if t.item.kind == KObject {
      PrintableMembers(t.kids);
    }
  }

  lemma {:induction false} PrintableKids(ts: seq<Tree>)
    requires forall k :: 0 <= k < |ts| ==> PrintableTree(ts[k])
    ensures Printable(Array(ValuesOf(ts)))
    decreases ts, 0
  {
    if ts != [] {
      PrintableTreeValue(ts[0]);
      PrintableKids(ts[1..]);
      assert forall x :: x in ValuesOf(ts) ==> x == ValueOf(ts[0]) || x in ValuesOf(ts[1..]);
    }
  }

  lemma {:induction false} PrintableMembers(ts: seq<Tree>)
    requires forall k :: 0 <= k < |ts| ==> Named(ts[k]) && PrintableTree(ts[k])
    ensures Printable(Object(MembersOf(ts)))
    decreases ts, 0
  {
    if ts != [] {
      PrintableTreeValue(ts[0]);
      PrintableMembers(ts[1..]);
      assert forall x :: x in MembersOf(ts) ==> x == MemberOf(ts[0]) || x in MembersOf(ts[1..]);
    }
  }
}
