/** The leaf step of `insertElement`: the new item enters the leaf the descent
    reached, at the index the last scan returned. */
module TreeInsert {
  import opened Objects
  import opened TFNodes
  import opened TreeShape
  import opened TreeSearch
  import opened TreeSplit

  /** The one-leaf tree an insertion into an empty tree builds. */
  function FirstLeaf(x: Item): (t: TFNode)
    ensures t.Shaped() && t.items == [x] && t.children == [None, None] && t.parent.None?
  {
    InsertItem(NewNode(), 0, x)
  }

  /** The annotations of the one-leaf tree. */
  function FirstShape(): Shape {
    Shape([0], [None], [None])
  }

  /** An insertion into an empty tree, whatever the key, builds a valid tree
      holding just the new item. */
  lemma FirstLeafIsTree(x: Item)
    ensures Inv([FirstLeaf(x)], FirstShape(), Some(0), None)
    ensures AllItems([FirstLeaf(x)]) == multiset{x}
  {
    var nodes := [FirstLeaf(x)];
    assert nodes[..0] == [];
    assert NodeOk(nodes, FirstShape(), Some(0), None, 0);
  }

  /** The leaf after the insertion. */
  function LeafAfterInsert(t: TFNode, key: Obj, x: Item): TFNode
    requires t.Shaped() && FirstGE(t.items, key).Ok?
  {
    InsertItem(t, FirstGE(t.items, key).value, x)
  }

  /** The leaf's items after the insertion stay sorted and within the leaf's
      bounds, and its second key stays strictly above the lower bound. */
  lemma LeafItemsAfterInsert(items: seq<Item>, lo: Option<Obj>, hi: Option<Obj>, key: Obj, item: Item)
    requires |items| >= 1 && SortedKeys(items) && ItemsWithin(items, lo, hi)
    requires |items| >= 2 ==> Above(lo, items[1].key)
    requires forall j :: 0 <= j < |items| ==> items[j].key.IntObj?
    requires key.IntObj? && item.key == key && Above(lo, key) && AtMost(hi, key)
    ensures FirstGE(items, key).Ok?
    ensures var i := FirstGE(items, key).value;
            var items2 := items[..i] + [item] + items[i..];
            SortedKeys(items2) && ItemsWithin(items2, lo, hi) && Above(lo, items2[1].key)
  {
    var i := FirstGE(items, key).value;
    var items2 := items[..i] + [item] + items[i..];
    InsertKeepsSorted(items, i, item);
    forall j | 0 <= j < |items2|
      ensures AtLeast(lo, items2[j].key) && AtMost(hi, items2[j].key)
    {
      if j < i {
        assert items2[j] == items[j];
      } else if j > i {
        assert items2[j] == items[j - 1];
      }
    }
    if i == 0 {
      assert items2[1] == items[0] && KeyLe(key, items[0].key);
    } else if i >= 2 {
      assert items2[1] == items[1];
    }
  }

  /** The leaf itself stays well formed: its keys stay sorted and within its
      bounds, and it may hold one more item than before. */
  lemma LeafInsertLeafOk(nodes: seq<TFNode>, sh: Shape, root: Option<NodeId>, x: NodeId, key: Obj, item: Item)
    requires Inv(nodes, sh, root, None) && AllInt(nodes) && key.IntObj? && item.key == key
    requires x < |nodes| && sh.level[x] == 0
    requires Above(sh.lo[x], key) && AtMost(sh.hi[x], key)
    ensures nodes[x].Shaped() && FirstGE(nodes[x].items, key).Ok?
    ensures var nodes2 := nodes[x := LeafAfterInsert(nodes[x], key, item)];
            NodeOk(nodes2, sh, root, if |nodes2[x].items| == 4 then Some(x) else None, x)
  {
    var t := nodes[x];
    assert NodeOk(nodes, sh, root, None, x);
    LeafItemsAfterInsert(t.items, sh.lo[x], sh.hi[x], key, item);
    var i := FirstGE(t.items, key).value;
    var t2 := InsertItem(t, i, item);
    assert t2.items == t.items[..i] + [item] + t.items[i..];
    if t.parent.Some? {
      var q := t.parent.value;
      assert NodeOk(nodes, sh, root, None, q);
    }
  }

  /** Every other node keeps its place: only the leaf's items changed. */
  lemma LeafInsertOthersOk(nodes: seq<TFNode>, nodes2: seq<TFNode>, sh: Shape, root: Option<NodeId>,
                           ov: Option<NodeId>, x: NodeId, m: NodeId)
    requires Inv(nodes, sh, root, None) && x < |nodes| && sh.level[x] == 0
    requires |nodes2| == |nodes| && (ov.Some? ==> ov.value == x)
    requires forall q :: 0 <= q < |nodes| && q != x ==> nodes2[q] == nodes[q]
    requires nodes2[x].parent == nodes[x].parent
    requires m < |nodes| && m != x
    ensures NodeOk(nodes2, sh, root, ov, m)
  {
    assert NodeOk(nodes, sh, root, None, m);
    var tm := nodes[m];
    if sh.level[m] > 0 {
      forall j | 0 <= j < |tm.children|
        ensures ChildOk(nodes2, sh, m, j)
      {
        assert ChildOk(nodes, sh, m, j);
      }
    }
    if tm.parent.Some? {
      var q := tm.parent.value;
      assert NodeOk(nodes, sh, root, None, q);
      assert HasChild(nodes2[q], m);
    }
  }

  /** Inserting at the scanned index of a leaf whose bounds admit the key keeps
      the tree valid, with that leaf the only one that may now hold four items,
      and adds exactly the new item. */
  lemma LeafInsertKeepsInv(nodes: seq<TFNode>, sh: Shape, root: Option<NodeId>, x: NodeId, key: Obj, element: Obj)
    requires Inv(nodes, sh, root, None) && AllInt(nodes) && key.IntObj?
    requires x < |nodes| && sh.level[x] == 0
    requires Above(sh.lo[x], key) && AtMost(sh.hi[x], key)
    ensures nodes[x].Shaped() && FirstGE(nodes[x].items, key).Ok?
    ensures var nodes2 := nodes[x := LeafAfterInsert(nodes[x], key, Item(key, element))];
            Inv(nodes2, sh, root, if |nodes2[x].items| == 4 then Some(x) else None) &&
            AllItems(nodes2) == AllItems(nodes) + multiset{Item(key, element)}
  {
    var t := nodes[x];
    var item := Item(key, element);
    LeafInsertLeafOk(nodes, sh, root, x, key, item);
    var i := FirstGE(t.items, key).value;
    var t2 := InsertItem(t, i, item);
    var nodes2 := nodes[x := t2];
    var ov := if |t2.items| == 4 then Some(x) else None;
    forall m | 0 <= m < |nodes2| && m != x
      ensures NodeOk(nodes2, sh, root, ov, m)
    {
      LeafInsertOthersOk(nodes, nodes2, sh, root, ov, x, m);
    }
    assert Inv(nodes2, sh, root, ov);
    InsertAddsItem(nodes, x, i, item);
  }

  /** Inserting an item into one node adds exactly that item to the arena. */
  lemma InsertAddsItem(nodes: seq<TFNode>, x: NodeId, i: nat, item: Item)
    requires x < |nodes| && nodes[x].Shaped() && i <= |nodes[x].items|
    ensures AllItems(nodes[x := InsertItem(nodes[x], i, item)]) == AllItems(nodes) + multiset{item}
  {
    var t := nodes[x];
    var t2 := InsertItem(t, i, item);
    AllItemsUpdate(nodes, x, t2);
    ItemsOfInsert(t.items, i, item);
    var a, b, c := AllItems(nodes[x := t2]), AllItems(nodes), multiset(t.items);
    forall z
      ensures a[z] == (b + multiset{item})[z]
    {
      assert (a + c)[z] == (b + (c + multiset{item}))[z];
    }
  }

  /** The arena once the new item sits in the leaf the descent from the root
      reaches, before any split. */
  ghost function ArenaWithLeafInsert(nodes: seq<TFNode>, sh: Shape, root: Option<NodeId>, key: Obj, element: Obj): (r: seq<TFNode>)
    requires Inv(nodes, sh, root, None) && root.Some? && AllInt(nodes) && key.IntObj?
    ensures |r| == |nodes|
  {
    var x := DescendLeaf(nodes, root.value, key, sh, root);
    LeafInsertKeepsInv(nodes, sh, root, x, key, element);
    nodes[x := LeafAfterInsert(nodes[x], key, Item(key, element))]
  }

  /** Where the descent of `insertElement` stops: at the lone empty root it
      has just created, or at the leaf `DescendLeaf` names, with `index` the
      scan of that leaf. */
  ghost predicate DescentEnded(nodes: seq<TFNode>, sh: Shape, root: Option<NodeId>, x: NodeId, index: nat, key: Obj) {
    (nodes == [NewNode()] && sh == FirstShape() && root == Some(0) && x == 0 && index == 0) ||
    (Inv(nodes, sh, root, None) && root.Some? && AllInt(nodes) && key.IntObj? &&
     x == DescendLeaf(nodes, root.value, key, sh, root) && FirstGE(nodes[x].items, key) == Ok(index))
  }

  /** The loop of `insertElement` (lines 143-147): from the root, scan each
      node and follow the child slot at the returned index, until the slot is
      empty; the last node scanned and its index are where the item goes. It
      starts either from a valid non-empty tree or from the lone empty root an
      insertion into an empty tree creates. */
  method DescendForInsert(ns: seq<TFNode>, start: NodeId, key: Obj, ghost sh: Shape, ghost root: Option<NodeId>)
    returns (r: Result<(NodeId, nat)>)
    requires root == Some(start)
    requires ns == [NewNode()] ==> sh == FirstShape() && start == 0
    requires ns != [NewNode()] ==> Inv(ns, sh, root, None)
    ensures r.Err? <==> ns != [NewNode()] && !(AllInt(ns) && key.IntObj?)
    ensures r.Err? ==> r.error == InvalidObject
    ensures r.Ok? ==> DescentEnded(ns, sh, root, r.value.0, r.value.1, key)
  {
    ghost var wasEmpty := ns == [NewNode()];
    if wasEmpty {
      assert |ns| == 1;
    }
    var currentNode: Option<NodeId> := Some(start);
    ghost var ok := !wasEmpty && AllInt(ns) && key.IntObj?;
    ghost var x := if ok then DescendLeaf(ns, root.value, key, sh, root) else 0;
    var previousNode: NodeId := 0;
    var currentIndex: nat := 0;
    while currentNode.Some?
      invariant root.value < |ns| && Sized(ns, sh)
      invariant !ok && !wasEmpty ==> currentNode == root
      invariant wasEmpty && currentNode.None? ==> previousNode == 0 && currentIndex == 0
      invariant currentNode.Some? ==> currentNode.value < |ns|
      invariant ok && currentNode.Some? ==> DescendLeaf(ns, currentNode.value, key, sh, root) == x
      invariant ok && currentNode.None? ==> previousNode == x && FirstGE(ns[x].items, key) == Ok(currentIndex)
      decreases if currentNode.Some? then sh.level[currentNode.value] + 1 else 0
    {
      var cur := currentNode.value;
      assert wasEmpty ==> cur == 0;
      if !wasEmpty {
        assert NodeOk(ns, sh, root, None, cur);
        if !ok {
          RootComparisonFails(ns, sh, root, None, key);
        }
      }
      assert wasEmpty ==> ns[cur].items == [];
      var found := FindFirstGreaterThanOrEqualTo(ns[cur], key);
      if found.Err? {
        return Err(found.error);
      }
      currentIndex := found.value;
      previousNode := cur;
      assert !wasEmpty && sh.level[cur] > 0 ==> ChildOk(ns, sh, cur, currentIndex);
      currentNode := ns[previousNode].children[currentIndex];
    }
    return Ok((previousNode, currentIndex));
  }

  /** Inserting where the descent stopped: into the empty root this builds the
      one-leaf tree; otherwise it is the leaf insertion above, and only that
      leaf may now hold four items. Either way exactly the new item is added. */
  lemma LeafStep(nodes: seq<TFNode>, sh: Shape, root: Option<NodeId>, x: NodeId, index: nat, key: Obj, element: Obj)
    requires DescentEnded(nodes, sh, root, x, index, key)
    ensures x < |nodes| && nodes[x].Shaped() && index <= |nodes[x].items|
    ensures var nodes1 := nodes[x := InsertItem(nodes[x], index, Item(key, element))];
            Inv(nodes1, sh, root, if |nodes1[x].items| == 4 then Some(x) else None) &&
            AllItems(nodes1) == AllItems(nodes) + multiset{Item(key, element)} &&
            (nodes == [NewNode()] ==> nodes1 == [FirstLeaf(Item(key, element))] && |nodes1[x].items| == 1) &&
            (nodes != [NewNode()] ==> nodes1 == ArenaWithLeafInsert(nodes, sh, root, key, element))
  {
    var item := Item(key, element);
    if nodes == [NewNode()] {
      FirstLeafIsTree(item);
      assert AllItems(nodes) == multiset{} by {
        assert nodes[..0] == [];
      }
    } else {
      LeafInsertKeepsInv(nodes, sh, root, x, key, element);
    }
  }

  /** In a tree that is a single leaf, the descent stops at once at that leaf,
      and the insertion puts the new item into it. */
  lemma InsertIntoLoneLeaf(leaf: TFNode, sh: Shape, key: Obj, element: Obj)
    requires Inv([leaf], sh, Some(0), None) && AllInt([leaf]) && key.IntObj?
    ensures DescendLeaf([leaf], 0, key, sh, Some(0)) == 0
    ensures leaf.Shaped() && FirstGE(leaf.items, key).Ok?
    ensures forall k :: 0 <= k < |leaf.children| ==> leaf.children[k].None?
    ensures ArenaWithLeafInsert([leaf], sh, Some(0), key, element) == [LeafAfterInsert(leaf, key, Item(key, element))]
  {
    assert NodeOk([leaf], sh, Some(0), None, 0);
    if sh.level[0] > 0 {
      assert ChildOk([leaf], sh, 0, 0);
    }
  }
}
