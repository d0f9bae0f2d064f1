/** The 2-4 tree as a dictionary object: its root, its size counter, and the
    arena of nodes the root reaches. */
module TwoFourTrees {
  import opened Objects
  import opened TFNodes
  import opened TreeShape
  import opened TreeSearch
  import opened TreeSplit
  import opened TreeInsert

  class TwoFourTree {
    /** The item counter behind `size()` and `isEmpty()`. */
    var size: int
    /** `treeRoot`; `None` for `null`. */
    var treeRoot: Option<NodeId>
    /** Every node allocated for this tree, named by its index. */
    var nodes: seq<TFNode>
    /** Each node's level and key bounds, for the proofs. */
    ghost var shape: Shape

    /** The tree's invariant between public calls: a balanced 2-4 search tree
        with no node holding four items. */
    ghost predicate Valid()
      reads this
    {
      Inv(nodes, shape, treeRoot, None)
    }

    /** The number of levels: 0 for the empty tree, 1 for a lone leaf. */
    ghost function Height(): nat
      reads this
    {
      if treeRoot.Some? && treeRoot.value < |shape.level| then shape.level[treeRoot.value] + 1 else 0
    }

    /** `new TwoFourTree(comp)`: an empty tree with a zero size counter. */
    constructor ()
      ensures Valid() && size == 0 && treeRoot.None? && nodes == []
    {
      size := 0;
      treeRoot := None;
      nodes := [];
      shape := Shape([], [], []);
    }

    /** `root()`: the root reference, which is `null` exactly when the tree
        has no nodes. */
    function Root(): (r: Option<NodeId>)
      reads this
      ensures Valid() ==> (r.None? <==> nodes == [])
      ensures Valid() && r.Some? ==> r.value < |nodes| && nodes[r.value].parent.None?
    {
      treeRoot
    }

    /** `Valid()` with the counter in step: `size` is the number of items
        stored. */
    ghost predicate ValidCounted()
      reads this
    {
      Valid() && size == |AllItems(nodes)|
    }

    /** `size()`: the item counter; it is the number of items stored whenever
        the counter is kept in step. */
    function Size(): (r: int)
      reads this
      ensures ValidCounted() ==> r == |AllItems(nodes)|
    {
      size
    }

    /** `isEmpty()`: the counter is zero; with the counter in step, exactly
        when the tree has no root. */
    function IsEmpty(): (r: bool)
      reads this
      ensures r <==> Size() == 0
      ensures ValidCounted() ==> (r <==> treeRoot.None?)
    {
      EmptyIffNoItems(nodes, shape, treeRoot);
      size == 0
    }

    /** `findElement(key)`: the item found by the descent from the root; when
        the descent runs off a leaf, `ElementNotFoundException`. Any comparison
        with a key that is not an `Integer` throws. */
    function FindElement(key: Obj): (r: Result<Item>)
      reads this
      requires Valid()
      ensures treeRoot.None? ==> r == Err(ElementNotFound)
      ensures treeRoot.Some? && !(AllInt(nodes) && key.IntObj?) ==> r == Err(InvalidObject)
      ensures AllInt(nodes) && key.IntObj? ==> (r.Ok? <==> Stored(nodes, key))
      ensures AllInt(nodes) && key.IntObj? && r.Err? ==> r.error == ElementNotFound
      ensures r.Ok? ==> r.value.key == key && r.value in AllItems(nodes)
    {
      SearchOutcome(nodes, shape, treeRoot, key);
      match FFGTENode(nodes, treeRoot, key, shape, treeRoot)
      case Err(e) => Err(e)
      case Ok(None) => Err(ElementNotFound)
      case Ok(Some(n)) =>
        var index := FirstGE(nodes[n].items, key).value;
        AllItemsMembers(nodes, nodes[n].items[index]);
        Ok(nodes[n].items[index])
    }

    /** `setRoot(root)`: only the root reference changes. */
    method SetRoot(root: Option<NodeId>)
      modifies this
      ensures treeRoot == root
      ensures size == old(size) && nodes == old(nodes) && shape == old(shape)
    {
      treeRoot := root;
    }

    /** `fixOverflow(node)`: split a node holding four items `[a,b,c,d]` with
        children `c0..c4` into `[a,b]` with `c0,c1,c2` and a new sibling `[d]`
        with `c3,c4`; `c` moves into the parent (a new root when there is
        none) between the two, and the parent is split in turn when that
        fills it. */
    method FixOverflow(node: NodeId)
      requires Overflowing(nodes, shape, treeRoot, node)
      modifies this
      ensures Valid() && size == old(size)
      ensures AllItems(nodes) == AllItems(old(nodes))
      ensures Height() == old(Height()) + (if treeRoot == old(treeRoot) then 0 else 1)
      ensures |old(ParentBefore(nodes, node)).items| < 3 ==>
                IsSplit(old(nodes), old(shape), old(treeRoot), node, nodes, shape, treeRoot)
      decreases shape.level[treeRoot.value] as int - shape.level[node]
    {
      ghost var nodes0, shape0, root0 := nodes, shape, treeRoot;
      var ns, p := SplitArena(nodes, node, shape, treeRoot);
      if nodes[node].parent.None? {
        SetRoot(Some(p));
      }
      nodes := ns;
      shape := SplitShape(nodes0, shape0, node);
      SplitKeepsInv(nodes0, shape0, root0, node, nodes, shape, treeRoot);
      SplitFacts(nodes0, shape0, root0, node);

      if |nodes[p].items| == 4 {
        SplitContext(nodes0, shape0, root0, node);
        assert shape.level[p] == shape0.level[node] + 1;
        assert shape.level[treeRoot.value] == shape0.level[root0.value];
        FixOverflow(p);
      }
    }
 
    /** The last statements of `insertElement`: the new item enters leaf `x`
        at `index`, and the leaf is split when that gives it four items. */
    method InsertIntoLeaf(x: NodeId, index: nat, key: Obj, element: Obj)
      requires DescentEnded(nodes, shape, treeRoot, x, index, key)
      modifies this
      ensures Valid() && size == old(size)
      ensures AllItems(nodes) == AllItems(old(nodes)) + multiset{Item(key, element)}
      ensures Height() == old(Height()) + (if treeRoot == old(treeRoot) then 0 else 1)
      ensures old(nodes) == [NewNode()] ==> nodes == [FirstLeaf(Item(key, element))] && treeRoot == Some(0)
      ensures x < old(|nodes|) && old(nodes[x].Shaped()) && index <= old(|nodes[x].items|)
      ensures LeafSettled(old(nodes[x := InsertItem(nodes[x], index, Item(key, element))]), old(shape), old(treeRoot), x,
                          nodes, shape, treeRoot)
    {
      LeafStep(nodes, shape, treeRoot, x, index, key, element);
      ghost var shape0, root0 := shape, treeRoot;
      nodes := nodes[x := InsertItem(nodes[x], index, Item(key, element))];
      ghost var mid := nodes;
      if |nodes[x].items| == 4 {
        FixOverflow(x);
      }
      assert LeafSettled(mid, shape0, root0, x, nodes, shape, treeRoot);
    }

    /** `insertElement(key, element)`: descend from the root, at each node
        following the child slot at the first item whose key is at least
        `key`, and insert the new item into the leaf where the descent runs
        off, at that index; an empty tree first gets an empty root. A leaf
        that reaches four items is split. Any comparison involving a key that
        is not an `Integer` throws, and it does so at the root, before
        anything changes. The item counter is left as it is. */
    method InsertElement(key: Obj, element: Obj) returns (r: Outcome)
      requires Valid()
      modifies this
      ensures Valid() && size == old(size)
      ensures r.Fail? <==> old(treeRoot).Some? && !(AllInt(old(nodes)) && key.IntObj?)
      ensures r.Fail? ==> r.error == InvalidObject && nodes == old(nodes) && treeRoot == old(treeRoot)
      ensures r.Pass? ==> AllItems(nodes) == AllItems(old(nodes)) + multiset{Item(key, element)}
      ensures r.Pass? ==> Height() == old(Height()) + (if treeRoot == old(treeRoot) then 0 else 1)
      ensures old(treeRoot).None? ==> nodes == [FirstLeaf(Item(key, element))] && treeRoot == Some(0)
      ensures r.Pass? && old(treeRoot).Some? ==>
                LeafSettled(ArenaWithLeafInsert(old(nodes), old(shape), old(treeRoot), key, element), old(shape), old(treeRoot),
                            DescendLeaf(old(nodes), old(treeRoot).value, key, old(shape), old(treeRoot)),
                            nodes, shape, treeRoot)
    {
      var currentNode := Root();
      if currentNode.None? {
        nodes := [NewNode()];
        shape := FirstShape();
        SetRoot(Some(0));
        currentNode := Some(0);
      } else {
        assert NodeOk(nodes, shape, treeRoot, None, treeRoot.value);
      }
      var found := DescendForInsert(nodes, currentNode.value, key, shape, treeRoot);
      if found.Err? {
        return Fail(found.error);
      }
      var (previousNode, currentIndex) := found.value;
      InsertIntoLeaf(previousNode, currentIndex, key, element);
      return Pass;
    }

    /** `insertElement` with the counter kept in step, as the dictionary
        contract intends: one more on every successful insertion, whichever
        path (plain or with splits) it took. */
    method InsertElementCounted(key: Obj, element: Obj) returns (r: Outcome)
      requires ValidCounted()
      modifies this
      ensures ValidCounted()
      ensures r.Fail? <==> old(treeRoot).Some? && !(AllInt(old(nodes)) && key.IntObj?)
      ensures r.Fail? ==> r.error == InvalidObject && size == old(size) && nodes == old(nodes)
      ensures r.Pass? ==> size == old(size) + 1 && AllItems(nodes) == AllItems(old(nodes)) + multiset{Item(key, element)}
    {
      r := InsertElement(key, element);
      if r.Pass? {
        size := size + 1;
      }
    }

    /** Inserting an `Integer` key into a tree of `Integer` keys succeeds, and
        looking the key up afterwards finds an item with that key. */
    method InsertThenFind(key: Obj, element: Obj) returns (r: Outcome, found: Result<Item>)
      requires Valid() && AllInt(nodes) && key.IntObj?
      modifies this
      ensures r == Pass && found.Ok? && found.value.key == key
    {
      AllIntByItems(nodes);
      r := InsertElement(key, element);
      AllIntByItems(nodes);
      StoredByItems(nodes, key);
      assert Item(key, element) in AllItems(nodes);
      found := FindElement(key);
    }
  }

  /** As written, `insertElement` leaves the counter at zero, so a tree that
      holds one item, and finds it, still reports itself empty. */
  method EmptyAfterInsertAsWritten() returns (empty: bool, found: Result<Item>)
    ensures empty && found == Ok(Item(IntObj(7), IntObj(70)))
  {
    var t := new TwoFourTree();
    var r := t.InsertElement(IntObj(7), IntObj(70));
    FirstLeafIsTree(Item(IntObj(7), IntObj(70)));
    empty := t.IsEmpty();
    found := t.FindElement(IntObj(7));
  }

  /** With the counter kept in step, the same insertion makes the tree
      non-empty with size one. */
  method CountedAfterInsert() returns (empty: bool, count: int)
    ensures !empty && count == 1
  {
    var t := new TwoFourTree();
    var r := t.InsertElementCounted(IntObj(7), IntObj(70));
    empty := t.IsEmpty();
    count := t.Size();
  }

  /** The driver's item for `v`: the key is its own element. */
  function SelfItem(v: int32): Item {
    Item(IntObj(v), IntObj(v))
  }

  /** In a tree that is one leaf with room to spare, inserting an `Integer` key
      puts the item into that leaf at its sorted place and changes nothing else. */
  method InsertIntoRootLeaf(t: TwoFourTree, key: Obj, element: Obj) returns (r: Outcome)
    requires t.Valid() && |t.nodes| == 1 && AllInt(t.nodes) && key.IntObj? && |t.nodes[0].items| < 3
    modifies t
    ensures t.Valid() && r == Pass && t.treeRoot == Some(0)
    ensures old(t.nodes[0]).Shaped() && FirstGE(old(t.nodes[0].items), key).Ok?
    ensures t.nodes == [LeafAfterInsert(old(t.nodes[0]), key, Item(key, element))]
  {
    assert t.treeRoot == Some(0) && t.nodes == [t.nodes[0]];
    InsertIntoLoneLeaf(t.nodes[0], t.shape, key, element);
    r := t.InsertElement(key, element);
  }

  /** Inserting into a tree that is one full leaf overflows it: its two
      smallest items stay, the largest moves to a new sibling, and the median
      goes up into a new root above the two. */
  lemma LoneLeafSplit(leaf: TFNode, sh: Shape, key: Obj, element: Obj,
                      nodes2: seq<TFNode>, sh2: Shape, root2: Option<NodeId>)
    requires Inv([leaf], sh, Some(0), None) && AllInt([leaf]) && key.IntObj? && |leaf.items| == 3
    requires LeafSettled(ArenaWithLeafInsert([leaf], sh, Some(0), key, element), sh, Some(0),
                         DescendLeaf([leaf], 0, key, sh, Some(0)), nodes2, sh2, root2)
    ensures leaf.Shaped() && FirstGE(leaf.items, key).Ok?
    ensures var m := LeafAfterInsert(leaf, key, Item(key, element)).items;
            root2 == Some(1) &&
            nodes2 == [TFNode(m[..2], [None, None, None], Some(1)),
                       TFNode([m[2]], [Some(0), Some(2)], None),
                       TFNode([m[3]], [None, None], Some(1))]
  {
    InsertIntoLoneLeaf(leaf, sh, key, element);
    var m := LeafAfterInsert(leaf, key, Item(key, element));
    InsertIntoChildless(leaf, FirstGE(leaf.items, key).value, Item(key, element));
    assert ParentBefore([m], 0) == NewNode();
    SplitOfLoneLeaf(m, sh, nodes2, sh2, root2);
  }

  /** Splitting a lone overflowing root leaf builds the three-node tree. */
  lemma SplitOfLoneLeaf(m: TFNode, sh: Shape, nodes2: seq<TFNode>, sh2: Shape, root2: Option<NodeId>)
    requires Overflowing([m], sh, Some(0), 0) && m.parent.None?
    requires forall k :: 0 <= k < |m.children| ==> m.children[k].None?
    requires IsSplit([m], sh, Some(0), 0, nodes2, sh2, root2)
    ensures root2 == Some(1) &&
            nodes2 == [TFNode(m.items[..2], [None, None, None], Some(1)),
                       TFNode([m.items[2]], [Some(0), Some(2)], None),
                       TFNode([m.items[3]], [None, None], Some(1))]
  {
    assert m.children[..3] == [None, None, None];
    assert m.children[3..] == [None, None];
    assert SplitIndex([m], 0) == 0;
    assert NewNode().children[..0] + [Some(0), Some(2)] + NewNode().children[1..] == [Some(0), Some(2)];
    assert nodes2[1] == TFNode([m.items[2]], [Some(0), Some(2)], None);
  }

  /** In a tree that is one full leaf, inserting an `Integer` key splits the
      leaf under a new root, as `LoneLeafSplit` states. */
  method InsertIntoFullRootLeaf(t: TwoFourTree, key: Obj, element: Obj) returns (r: Outcome)
    requires t.Valid() && |t.nodes| == 1 && AllInt(t.nodes) && key.IntObj? && |t.nodes[0].items| == 3
    modifies t
    ensures t.Valid() && r == Pass && t.treeRoot == Some(1)
    ensures old(t.nodes[0]).Shaped() && FirstGE(old(t.nodes[0].items), key).Ok?
    ensures var m := LeafAfterInsert(old(t.nodes[0]), key, Item(key, element)).items;
            t.nodes == [TFNode(m[..2], [None, None, None], Some(1)),
                        TFNode([m[2]], [Some(0), Some(2)], None),
                        TFNode([m[3]], [None, None], Some(1))]
  {
    assert t.treeRoot == Some(0) && t.nodes == [t.nodes[0]];
    var leaf := t.nodes[0];
    ghost var sh := t.shape;
    r := t.InsertElement(key, element);
    LoneLeafSplit(leaf, sh, key, element, t.nodes, t.shape, t.treeRoot);
  }

  /** The first three insertions of the demonstration driver, each key its
      own element: 47, 83 and 22 fill the root leaf in sorted order. */
  method FirstThreeInsertions() returns (t: TwoFourTree)
    ensures fresh(t) && t.Valid() && t.treeRoot == Some(0)
    ensures t.nodes == [TFNode([SelfItem(22), SelfItem(47), SelfItem(83)], [None, None, None, None], None)]
  {
    t := new TwoFourTree();
    var r := t.InsertElement(IntObj(47), IntObj(47));
    assert t.nodes == [FirstLeaf(SelfItem(47))];
    assert FirstLeaf(SelfItem(47)).children == [None] + [None];
    assert FirstLeaf(SelfItem(47)) == TFNode([SelfItem(47)], [None, None], None);
    r := InsertIntoRootLeaf(t, IntObj(83), IntObj(83));
    assert LeafAfterInsert(TFNode([SelfItem(47)], [None, None], None), IntObj(83), SelfItem(83)) ==
           TFNode([SelfItem(47), SelfItem(83)], [None, None, None], None) by {
      assert FirstGE([SelfItem(47)], IntObj(83)) == Ok(1);
    }
    r := InsertIntoRootLeaf(t, IntObj(22), IntObj(22));
    assert LeafAfterInsert(TFNode([SelfItem(47), SelfItem(83)], [None, None, None], None), IntObj(22), SelfItem(22)) ==
           TFNode([SelfItem(22), SelfItem(47), SelfItem(83)], [None, None, None, None], None) by {
      assert FirstGE([SelfItem(47), SelfItem(83)], IntObj(22)) == Ok(0);
    }
  }

  /** The fourth insertion of the demonstration driver: 16 overflows the root
      leaf, which splits into `[16, 22]` and `[83]` under a new root `[47]`. */
  method FirstFourInsertions() returns (t: TwoFourTree)
    ensures t.Valid() && t.treeRoot == Some(1)
    ensures t.nodes == [TFNode([SelfItem(16), SelfItem(22)], [None, None, None], Some(1)),
                        TFNode([SelfItem(47)], [Some(0), Some(2)], None),
                        TFNode([SelfItem(83)], [None, None], Some(1))]
  {
    t := FirstThreeInsertions();
    var r := InsertIntoFullRootLeaf(t, IntObj(16), IntObj(16));
    assert LeafAfterInsert(TFNode([SelfItem(22), SelfItem(47), SelfItem(83)], [None, None, None, None], None),
                           IntObj(16), SelfItem(16)).items ==
           [SelfItem(16), SelfItem(22), SelfItem(47), SelfItem(83)] by {
      assert FirstGE([SelfItem(22), SelfItem(47), SelfItem(83)], IntObj(16)) == Ok(0);
    }
    assert [SelfItem(16), SelfItem(22), SelfItem(47), SelfItem(83)][..2] == [SelfItem(16), SelfItem(22)];
  }
}
