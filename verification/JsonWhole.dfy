/** Printer and parser together, on the heap. */
module JsonWhole {
  import opened Json
  import opened JsonTree
  import opened JsonHeap
  import opened JsonEdit
  import opened JsonBlocks
  import opened JsonPrinter
  import opened JsonReader
  import opened JsonRoundTrip

  /** A tree that is printed, by cJSON_Print or cJSON_PrintUnformatted, and parsed again, by cJSON_Parse or
      with the check for the terminator, comes back as an equal tree on blocks of its own; the parser uses
      up the whole text, and with the text freed, those blocks are all that is left. */
  method PrintAndParse(h: Heap, item: Node, ghost t: Tree, fmt: bool, requireTerminated: bool)
    returns (c: Node?, end: nat, ghost u: Tree)
    requires t.node == item && Realised(t) && PrintableTree(t)
    modifies h
    ensures c != null && u.node == c && Loose(u) && Separate(u) && Sole(u) && ValueOf(u) == ValueOf(t)
    ensures end == |Print(ValueOf(t), 0, fmt)| && fresh(Own(u)) && h.live == old(h.live) + Own(u)
  {
    hide Realised, PrintableTree, Nodes, Print, ParseText, Own, Separate, Sole, Printable, Loose, ValueOf;
    PrintableTreeValue(t);
    PrintThenParse(ValueOf(t), fmt, requireTerminated);
    PrintNulFree(ValueOf(t), 0, fmt);
    ghost var text := Print(ValueOf(t), 0, fmt);
    var out := PrintText(h, item, t, fmt);
    var n := StrLen(out, 0, text);
    assert out[0..n] == out[..n];
    c, end, u := ParseWithOpts(h, out[..n], requireTerminated);
    assert allocated(Nodes(u));
    h.Free(out);
    OwnRemains(old(h.live), out, Own(u));
  }

  lemma OwnRemains(live: set<object>, out: object, own: set<object>)
    requires out !in live && out !in own
    ensures ((live + {out}) + own) - {out} == live + own
  {
  }
}
