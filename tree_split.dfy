/** One split of an overflowing node (the body of `fixOverflow` before its
    recursive call): what the arena looks like afterwards, and the proof that
    the tree's invariant survives it with at most the parent left overflowing. */
module TreeSplit {
  import opened Objects
  import opened TFNodes
  import opened TreeShape
  import opened TreeSearch

  /** A tree whose only flaw is node `n` holding four items. */
  ghost predicate Overflowing(nodes: seq<TFNode>, sh: Shape, root: Option<NodeId>, n: NodeId) {
    Inv(nodes, sh, root, Some(n)) && n < |nodes| && |nodes[n].items| == 4
  }

  /** The node that receives the median: the parent, or a new root appended to the arena. */
  function SplitParent(nodes: seq<TFNode>, n: NodeId): NodeId
    requires n < |nodes|
  {
    if nodes[n].parent.None? then |nodes| else nodes[n].parent.value
  }

  /** The new sibling, appended after the new root if there is one. */
  function SplitSibling(nodes: seq<TFNode>, n: NodeId): NodeId
    requires n < |nodes|
  {
    if nodes[n].parent.None? then |nodes| + 1 else |nodes|
  }

  /** The receiving node as it is before it takes the median. */
  function ParentBefore(nodes: seq<TFNode>, n: NodeId): TFNode
    requires n < |nodes|
  {
    if nodes[n].parent.None? || nodes[n].parent.value >= |nodes| then NewNode() else nodes[nodes[n].parent.value]
  }

  /** The index at which the median enters the receiving node (line 93). */
  function SplitIndex(nodes: seq<TFNode>, n: NodeId): nat
    requires n < |nodes| && |nodes[n].items| == 4
  {
    match FirstGE(ParentBefore(nodes, n).items, nodes[n].items[2].key)
    case Ok(i) => i
    case Err(_) => 0
  }

  /** The annotations after splitting `n`: the new root (if any) sits one level
      above `n`, the sibling beside `n`, and the median becomes the bound
      between `n` and the sibling. */
  ghost function SplitShape(nodes: seq<TFNode>, sh: Shape, n: NodeId): Shape
    requires Sized(nodes, sh) && n < |nodes| && |nodes[n].items| == 4
  {
    var newRoot := nodes[n].parent.None?;
    var c := nodes[n].items[2];
    Shape(sh.level + (if newRoot then [sh.level[n] + 1] else []) + [sh.level[n]],
          sh.lo + (if newRoot then [None] else []) + [Some(c.key)],
          sh.hi[n := Some(c.key)] + (if newRoot then [None] else []) + [sh.hi[n]])
  }

  /** The arena, annotations and root after splitting `n`: `n` keeps items 0-1
      and children 0-2, a new sibling takes item 3 and children 3-4, the median
      (item 2) enters the receiving node at `SplitIndex` with `n` and the sibling
      in the two slots around it, and the moved children point at the sibling. */
  ghost predicate IsSplit(nodes: seq<TFNode>, sh: Shape, root: Option<NodeId>, n: NodeId,
                          nodes2: seq<TFNode>, sh2: Shape, root2: Option<NodeId>)
    requires Overflowing(nodes, sh, root, n)
  {
    var t := nodes[n];
    var l := sh.level[n];
    var c := t.items[2];
    var newRoot := t.parent.None?;
    var p := SplitParent(nodes, n);
    var s := SplitSibling(nodes, n);
    var pb := ParentBefore(nodes, n);
    var idx := SplitIndex(nodes, n);
    |t.children| == 5 && pb.Shaped() && idx <= |pb.items| && p < s &&
    |nodes2| == s + 1 &&
    sh2.level == sh.level + (if newRoot then [l + 1] else []) + [l] &&
    sh2.lo == sh.lo + (if newRoot then [None] else []) + [Some(c.key)] &&
    sh2.hi == sh.hi[n := Some(c.key)] + (if newRoot then [None] else []) + [sh.hi[n]] &&
    root2 == (if newRoot then Some(p) else root) &&
    nodes2[n] == TFNode(t.items[..2], t.children[..3], Some(p)) &&
    nodes2[s] == TFNode([t.items[3]], t.children[3..], Some(p)) &&
    nodes2[p] == TFNode(pb.items[..idx] + [c] + pb.items[idx..],
                        pb.children[..idx] + [Some(n), Some(s)] + pb.children[idx + 1..],
                        pb.parent) &&
    (forall k :: 3 <= k < 5 && t.children[k].Some? ==>
       t.children[k].value < |nodes| && nodes2[t.children[k].value] == nodes[t.children[k].value].(parent := Some(s))) &&
    (forall m :: 0 <= m < |nodes| && m != n && m != p && Some(m) != t.children[3] && Some(m) != t.children[4] ==>
       nodes2[m] == nodes[m])
  }

  /** What holds of an overflowing node and its surroundings before the split. */
  lemma SplitContext(nodes: seq<TFNode>, sh: Shape, root: Option<NodeId>, n: NodeId)
    requires Overflowing(nodes, sh, root, n)
    ensures forall i :: 0 <= i < 4 ==> nodes[n].items[i].key.IntObj?
    ensures Above(sh.lo[n], nodes[n].items[2].key) && AtMost(sh.hi[n], nodes[n].items[2].key)
    ensures |nodes[n].children| == 5
    ensures nodes[n].parent.None? ==>
              root == Some(n) && sh.lo[n].None? && sh.hi[n].None? && sh.level[n] == sh.level[root.value]
    ensures nodes[n].parent.Some? ==>
              var p := nodes[n].parent.value;
              p < |nodes| && p != n && sh.level[p] == sh.level[n] + 1 && |nodes[p].items| <= 3 &&
              nodes[p].Shaped() &&
              FirstGE(nodes[p].items, nodes[n].items[2].key) == Ok(SplitIndex(nodes, n)) &&
              SplitIndex(nodes, n) <= |nodes[p].items| &&
              nodes[p].children[SplitIndex(nodes, n)] == Some(n) &&
              ChildOk(nodes, sh, p, SplitIndex(nodes, n))
    ensures sh.level[n] == 0 ==> forall k :: 0 <= k < 5 ==> nodes[n].children[k].None?
    ensures sh.level[n] > 0 ==> forall k :: 0 <= k < 5 ==> ChildOk(nodes, sh, n, k)
    ensures sh.level[n] > 0 ==> nodes[n].children[3] != nodes[n].children[4]
  {
    var t := nodes[n];
    assert NodeOk(nodes, sh, root, Some(n), n);
    SortedPairsAreInt(t.items);
    assert KeyLe(t.items[1].key, t.items[2].key);
    if sh.level[n] > 0 {
      assert ChildOk(nodes, sh, n, 3);
      assert ChildrenDistinct(t.children);
    }
    if t.parent.Some? {
      var p := t.parent.value;
      assert NodeOk(nodes, sh, root, Some(n), p);
      var j :| 0 <= j < |nodes[p].children| && nodes[p].children[j] == Some(n);
      assert ChildOk(nodes, sh, p, j);
      var items := nodes[p].items;
      var c := t.items[2].key;
      assert FirstGE(items, c).Ok?;
      var i := FirstGE(items, c).value;
      assert j > 0 ==> KeyLt(items[j - 1].key, c);
      assert j < |items| ==> KeyLe(c, items[j].key);
      assert forall a, b :: 0 <= a < b < |items| ==> KeyLe(items[a].key, items[b].key);
      assert i == j;
    }
  }

  /** The facts the statements of a split rely on: the node is full, the
      receiving node has room and the scan of it succeeds, and the children
      that move are distinct from each other and from the nodes being rebuilt. */
  lemma SplitFacts(nodes: seq<TFNode>, sh: Shape, root: Option<NodeId>, n: NodeId)
    requires Overflowing(nodes, sh, root, n)
    ensures |nodes[n].items| == 4 && |nodes[n].children| == 5
    ensures nodes[n].parent.Some? ==>
              SplitParent(nodes, n) < |nodes| && SplitParent(nodes, n) != n
    ensures ParentBefore(nodes, n).Shaped() && |ParentBefore(nodes, n).items| <= 3
    ensures FirstGE(ParentBefore(nodes, n).items, nodes[n].items[2].key) == Ok(SplitIndex(nodes, n))
    ensures SplitIndex(nodes, n) <= |ParentBefore(nodes, n).items|
    ensures forall k :: 3 <= k < 5 && nodes[n].children[k].Some? ==>
              nodes[n].children[k].value < |nodes| && nodes[n].children[k].value != n &&
              nodes[n].children[k].value != SplitParent(nodes, n)
    ensures nodes[n].children[3].Some? ==> nodes[n].children[3] != nodes[n].children[4]
  {
    SplitContext(nodes, sh, root, n);
    if sh.level[n] > 0 {
      assert ChildOk(nodes, sh, n, 3) && ChildOk(nodes, sh, n, 4);
    }
  }

  /** After a split only the receiving node may hold four items. */
  function SplitOverflow(nodes2: seq<TFNode>, p: NodeId): Option<NodeId>
    requires p < |nodes2|
  {
    if |nodes2[p].items| == 4 then Some(p) else None
  }

  /** The new arena and its annotations have matching lengths and a root. */
  lemma SplitBasics(nodes: seq<TFNode>, sh: Shape, root: Option<NodeId>, n: NodeId,
                    nodes2: seq<TFNode>, sh2: Shape, root2: Option<NodeId>)
    requires Overflowing(nodes, sh, root, n) && IsSplit(nodes, sh, root, n, nodes2, sh2, root2)
    ensures Sized(nodes2, sh2) && root2.Some? && root2.value < |nodes2|
    ensures |nodes| < |nodes2| && SplitParent(nodes, n) < |nodes2| && SplitSibling(nodes, n) < |nodes2|
    ensures forall m :: 0 <= m < |nodes| ==> sh2.level[m] == sh.level[m] && sh2.lo[m] == sh.lo[m]
    ensures forall m :: 0 <= m < |nodes| && m != n ==> sh2.hi[m] == sh.hi[m]
    ensures sh2.hi[n] == Some(nodes[n].items[2].key)
    ensures sh2.level[SplitSibling(nodes, n)] == sh.level[n]
    ensures sh2.lo[SplitSibling(nodes, n)] == Some(nodes[n].items[2].key)
    ensures sh2.hi[SplitSibling(nodes, n)] == sh.hi[n]
    ensures sh2.level[SplitParent(nodes, n)] == sh.level[n] + 1
    ensures nodes[n].parent.None? ==> sh2.lo[SplitParent(nodes, n)].None? && sh2.hi[SplitParent(nodes, n)].None?
  {
    SplitContext(nodes, sh, root, n);
    assert NodeOk(nodes, sh, root, Some(n), n);
  }

  /** The split node keeps its two smallest items and its first three children. */
  lemma SplitKeepsNode(nodes: seq<TFNode>, sh: Shape, root: Option<NodeId>, n: NodeId,
                       nodes2: seq<TFNode>, sh2: Shape, root2: Option<NodeId>)
    requires Overflowing(nodes, sh, root, n) && IsSplit(nodes, sh, root, n, nodes2, sh2, root2)
    requires Sized(nodes2, sh2) && root2.Some? && root2.value < |nodes2|
    ensures NodeOk(nodes2, sh2, root2, SplitOverflow(nodes2, SplitParent(nodes, n)), n)
  {
    SplitContext(nodes, sh, root, n);
    SplitBasics(nodes, sh, root, n, nodes2, sh2, root2);
    assert NodeOk(nodes, sh, root, Some(n), n);
    var t := nodes[n];
    var p := SplitParent(nodes, n);
    if sh.level[n] > 0 {
      forall i | 0 <= i < 3
        ensures ChildOk(nodes2, sh2, n, i)
      {
        assert ChildOk(nodes, sh, n, i);
        assert ChildOk(nodes, sh, n, 3);
        assert ChildOk(nodes, sh, n, 4);
        var ci := t.children[i].value;
        assert ChildrenDistinct(t.children);
        assert nodes2[ci] == nodes[ci];
      }
    }
    assert nodes2[p].children[SplitIndex(nodes, n)] == Some(n);
    assert HasChild(nodes2[p], n);
  }

  /** The new sibling holds the largest item and the last two children. */
  lemma SplitKeepsSibling(nodes: seq<TFNode>, sh: Shape, root: Option<NodeId>, n: NodeId,
                          nodes2: seq<TFNode>, sh2: Shape, root2: Option<NodeId>)
    requires Overflowing(nodes, sh, root, n) && IsSplit(nodes, sh, root, n, nodes2, sh2, root2)
    requires Sized(nodes2, sh2) && root2.Some? && root2.value < |nodes2|
    ensures NodeOk(nodes2, sh2, root2, SplitOverflow(nodes2, SplitParent(nodes, n)), SplitSibling(nodes, n))
  {
    SplitContext(nodes, sh, root, n);
    SplitBasics(nodes, sh, root, n, nodes2, sh2, root2);
    assert NodeOk(nodes, sh, root, Some(n), n);
    var t := nodes[n];
    var p := SplitParent(nodes, n);
    var s := SplitSibling(nodes, n);
    assert KeyLe(t.items[2].key, t.items[3].key);
    if sh.level[n] > 0 {
      forall i | 0 <= i < 2
        ensures ChildOk(nodes2, sh2, s, i)
      {
        assert ChildOk(nodes, sh, n, 3 + i);
        assert nodes2[s].children[i] == t.children[3 + i];
      }
    }
    assert nodes2[p].children[SplitIndex(nodes, n) + 1] == Some(s);
    assert HasChild(nodes2[p], s);
  }

  /** Inserting an item between its neighbours in key order keeps the keys sorted. */
  lemma InsertKeepsSorted(items: seq<Item>, idx: nat, x: Item)
    requires SortedKeys(items) && idx <= |items| && x.key.IntObj?
    requires idx > 0 ==> KeyLe(items[idx - 1].key, x.key)
    requires idx < |items| ==> KeyLe(x.key, items[idx].key)
    ensures SortedKeys(items[..idx] + [x] + items[idx..])
  {
    var r := items[..idx] + [x] + items[idx..];
    forall a, b | 0 <= a < b < |r|
      ensures KeyLe(r[a].key, r[b].key)
    {
      if a < idx && b == idx {
        assert KeyLe(items[a].key, items[idx - 1].key);
      } else if a == idx && b > idx {
        assert KeyLe(items[idx].key, items[b - 1].key);
      }
    }
  }

  /** A new root holds just the median, with the split node and its sibling
      on either side. */
  lemma SplitKeepsNewRoot(nodes: seq<TFNode>, sh: Shape, root: Option<NodeId>, n: NodeId,
                          nodes2: seq<TFNode>, sh2: Shape, root2: Option<NodeId>)
    requires Overflowing(nodes, sh, root, n) && IsSplit(nodes, sh, root, n, nodes2, sh2, root2)
    requires Sized(nodes2, sh2) && root2.Some? && root2.value < |nodes2|
    requires nodes[n].parent.None?
    ensures NodeOk(nodes2, sh2, root2, SplitOverflow(nodes2, SplitParent(nodes, n)), SplitParent(nodes, n))
  {
    SplitContext(nodes, sh, root, n);
    SplitBasics(nodes, sh, root, n, nodes2, sh2, root2);
    var p := SplitParent(nodes, n);
    assert SplitIndex(nodes, n) == 0;
    assert ChildOk(nodes2, sh2, p, 0);
    assert ChildOk(nodes2, sh2, p, 1);
  }

  /** A node other than the split node and the receiving node that does not
      sit just below the split node is untouched by the split. */
  lemma SplitUnchanged(nodes: seq<TFNode>, sh: Shape, root: Option<NodeId>, n: NodeId,
                       nodes2: seq<TFNode>, sh2: Shape, root2: Option<NodeId>, m: NodeId)
    requires Overflowing(nodes, sh, root, n) && IsSplit(nodes, sh, root, n, nodes2, sh2, root2)
    requires m < |nodes| && m != n && m != SplitParent(nodes, n) && sh.level[m] + 1 != sh.level[n]
    ensures nodes2[m] == nodes[m]
  {
    SplitContext(nodes, sh, root, n);
    var t := nodes[n];
    if sh.level[n] > 0 {
      assert ChildOk(nodes, sh, n, 3) && ChildOk(nodes, sh, n, 4);
    }
    assert Some(m) != t.children[3] && Some(m) != t.children[4];
  }

  /** A child of an existing receiving node other than the split node is
      untouched by the split, annotations included. */
  lemma SplitOldParentChildKept(nodes: seq<TFNode>, sh: Shape, root: Option<NodeId>, n: NodeId,
                                nodes2: seq<TFNode>, sh2: Shape, root2: Option<NodeId>, j: nat)
    requires Overflowing(nodes, sh, root, n) && IsSplit(nodes, sh, root, n, nodes2, sh2, root2)
    requires nodes[n].parent.Some? && nodes[n].parent.value < |nodes| && nodes[nodes[n].parent.value].Shaped()
    requires j < |nodes[nodes[n].parent.value].children| && j != SplitIndex(nodes, n)
    ensures var p := nodes[n].parent.value;
            ChildOk(nodes, sh, p, j) &&
            var cj := nodes[p].children[j].value;
            nodes2[cj] == nodes[cj] &&
            sh2.level[cj] == sh.level[cj] && sh2.lo[cj] == sh.lo[cj] && sh2.hi[cj] == sh.hi[cj]
  {
    SplitContext(nodes, sh, root, n);
    var p := SplitParent(nodes, n);
    assert NodeOk(nodes, sh, root, Some(n), p);
    assert ChildOk(nodes, sh, p, j);
    var cj := nodes[p].children[j].value;
    assert ChildrenDistinct(nodes[p].children);
    SplitUnchanged(nodes, sh, root, n, nodes2, sh2, root2, cj);
  }

  /** A slot of an existing receiving node away from the split keeps its old
      child, whose bounds are unchanged. */
  lemma SplitOldParentOldSlot(nodes: seq<TFNode>, sh: Shape, root: Option<NodeId>, n: NodeId,
                              nodes2: seq<TFNode>, sh2: Shape, root2: Option<NodeId>, i: nat)
    requires Overflowing(nodes, sh, root, n) && IsSplit(nodes, sh, root, n, nodes2, sh2, root2)
    requires Sized(nodes2, sh2)
    requires nodes[n].parent.Some? && i < |nodes2[SplitParent(nodes, n)].children|
    requires i < SplitIndex(nodes, n) || i > SplitIndex(nodes, n) + 1
    ensures ChildOk(nodes2, sh2, SplitParent(nodes, n), i)
  {
    SplitFacts(nodes, sh, root, n);
    SplitBasics(nodes, sh, root, n, nodes2, sh2, root2);
    var p := SplitParent(nodes, n);
    var idx := SplitIndex(nodes, n);
    var pt := nodes[p];
    var pt2 := nodes2[p];
    var j := if i < idx then i else i - 1;
    assert pt == ParentBefore(nodes, n);
    assert pt2.children[i] == pt.children[j];
    SplitOldParentChildKept(nodes, sh, root, n, nodes2, sh2, root2, j);
    if i < idx {
      assert pt2.items[i] == pt.items[i];
      assert i > 0 ==> pt2.items[i - 1] == pt.items[i - 1];
    } else {
      assert pt2.items[i - 1] == pt.items[j - 1];
      assert i < |pt2.items| ==> pt2.items[i] == pt.items[j];
    }
  }

  /** The two slots around the median of an existing receiving node hold the
      split node and its sibling. */
  lemma SplitOldParentNewSlots(nodes: seq<TFNode>, sh: Shape, root: Option<NodeId>, n: NodeId,
                               nodes2: seq<TFNode>, sh2: Shape, root2: Option<NodeId>)
    requires Overflowing(nodes, sh, root, n) && IsSplit(nodes, sh, root, n, nodes2, sh2, root2)
    requires Sized(nodes2, sh2)
    requires nodes[n].parent.Some?
    ensures ChildOk(nodes2, sh2, SplitParent(nodes, n), SplitIndex(nodes, n))
    ensures ChildOk(nodes2, sh2, SplitParent(nodes, n), SplitIndex(nodes, n) + 1)
  {
    SplitContext(nodes, sh, root, n);
    SplitBasics(nodes, sh, root, n, nodes2, sh2, root2);
    var p := SplitParent(nodes, n);
    var idx := SplitIndex(nodes, n);
    var pt := nodes[p];
    var pt2 := nodes2[p];
    var c := nodes[n].items[2];
    assert idx > 0 ==> pt2.items[idx - 1] == pt.items[idx - 1];
    assert pt2.items[idx] == c;
    assert idx + 1 < |pt2.items| ==> pt2.items[idx + 1] == pt.items[idx];
  }

  /** Every slot of an existing receiving node holds a well-placed child after
      the split. */
  lemma SplitOldParentSlot(nodes: seq<TFNode>, sh: Shape, root: Option<NodeId>, n: NodeId,
                           nodes2: seq<TFNode>, sh2: Shape, root2: Option<NodeId>, i: nat)
    requires Overflowing(nodes, sh, root, n) && IsSplit(nodes, sh, root, n, nodes2, sh2, root2)
    requires Sized(nodes2, sh2)
    requires nodes[n].parent.Some? && i < |nodes2[SplitParent(nodes, n)].children|
    ensures ChildOk(nodes2, sh2, SplitParent(nodes, n), i)
  {
    var idx := SplitIndex(nodes, n);
    if i < idx || i > idx + 1 {
      SplitOldParentOldSlot(nodes, sh, root, n, nodes2, sh2, root2, i);
    } else {
      SplitOldParentNewSlots(nodes, sh, root, n, nodes2, sh2, root2);
    }
  }

  /** The items of an existing receiving node stay sorted and within its bounds
      once the median joins them. */
  lemma SplitOldParentItems(nodes: seq<TFNode>, sh: Shape, root: Option<NodeId>, n: NodeId,
                            nodes2: seq<TFNode>, sh2: Shape, root2: Option<NodeId>)
    requires Overflowing(nodes, sh, root, n) && IsSplit(nodes, sh, root, n, nodes2, sh2, root2)
    requires Sized(nodes2, sh2)
    requires nodes[n].parent.Some?
    ensures var p := SplitParent(nodes, n);
            var items2 := nodes2[p].items;
            SortedKeys(items2) && ItemsWithin(items2, sh2.lo[p], sh2.hi[p]) &&
            (|items2| >= 2 ==> Above(sh2.lo[p], items2[1].key)) &&
            (forall i :: 0 <= i < |items2| ==> items2[i].key.IntObj?) &&
            |items2| == |nodes[p].items| + 1
  {
    SplitContext(nodes, sh, root, n);
    SplitBasics(nodes, sh, root, n, nodes2, sh2, root2);
    var c := nodes[n].items[2];
    var p := SplitParent(nodes, n);
    var idx := SplitIndex(nodes, n);
    assert NodeOk(nodes, sh, root, Some(n), p);
    var pt := nodes[p];
    var pt2 := nodes2[p];
    assert pt2.items == pt.items[..idx] + [c] + pt.items[idx..];
    InsertKeepsSorted(pt.items, idx, c);
    ParentBounds(nodes, sh, root, Some(n), n, c.key);
    assert ItemsWithin(pt2.items, sh2.lo[p], sh2.hi[p]);
    if idx == 0 && |pt.items| >= 1 {
      assert pt2.items[1] == pt.items[0];
    } else if idx == 1 {
      assert AtLeast(sh.lo[p], pt.items[0].key);
    } else if idx >= 2 {
      assert pt2.items[1] == pt.items[1];
    }
  }

  /** An existing receiving node still has distinct children: the sibling is
      new and every old child lies inside the old arena. */
  lemma SplitOldParentDistinct(nodes: seq<TFNode>, sh: Shape, root: Option<NodeId>, n: NodeId,
                               nodes2: seq<TFNode>, sh2: Shape, root2: Option<NodeId>)
    requires Overflowing(nodes, sh, root, n) && IsSplit(nodes, sh, root, n, nodes2, sh2, root2)
    requires nodes[n].parent.Some?
    ensures ChildrenDistinct(nodes2[SplitParent(nodes, n)].children)
  {
    SplitContext(nodes, sh, root, n);
    var p := SplitParent(nodes, n);
    var pt := nodes[p];
    assert NodeOk(nodes, sh, root, Some(n), p);
    assert ChildrenDistinct(pt.children);
    forall a | 0 <= a < |pt.children| && pt.children[a].Some?
      ensures pt.children[a].value < |nodes|
    {
      assert ChildOk(nodes, sh, p, a);
    }
  }

  /** An existing receiving node keeps its own parent, which still lists it. */
  lemma SplitOldParentUp(nodes: seq<TFNode>, sh: Shape, root: Option<NodeId>, n: NodeId,
                         nodes2: seq<TFNode>, sh2: Shape, root2: Option<NodeId>)
    requires Overflowing(nodes, sh, root, n) && IsSplit(nodes, sh, root, n, nodes2, sh2, root2)
    requires Sized(nodes2, sh2) && root2.Some? && root2.value < |nodes2|
    requires nodes[n].parent.Some?
    ensures SplitParent(nodes, n) < |nodes2| && ParentOk(nodes2, sh2, root2, SplitParent(nodes, n))
  {
    SplitContext(nodes, sh, root, n);
    SplitBasics(nodes, sh, root, n, nodes2, sh2, root2);
    var p := SplitParent(nodes, n);
    assert NodeOk(nodes, sh, root, Some(n), p);
    match nodes[p].parent
    case None =>
    case Some(g) =>
      assert NodeOk(nodes, sh, root, Some(n), g);
      SplitUnchanged(nodes, sh, root, n, nodes2, sh2, root2, g);
      assert HasChild(nodes2[g], p);
  }

  /** An existing parent takes the median at the split node's own slot: its
      other children keep their places and bounds, shifted past the sibling. */
  lemma SplitKeepsOldParent(nodes: seq<TFNode>, sh: Shape, root: Option<NodeId>, n: NodeId,
                            nodes2: seq<TFNode>, sh2: Shape, root2: Option<NodeId>)
    requires Overflowing(nodes, sh, root, n) && IsSplit(nodes, sh, root, n, nodes2, sh2, root2)
    requires Sized(nodes2, sh2) && root2.Some? && root2.value < |nodes2|
    requires nodes[n].parent.Some?
    ensures NodeOk(nodes2, sh2, root2, SplitOverflow(nodes2, SplitParent(nodes, n)), SplitParent(nodes, n))
  {
    SplitFacts(nodes, sh, root, n);
    SplitBasics(nodes, sh, root, n, nodes2, sh2, root2);
    var p := SplitParent(nodes, n);
    var pt2 := nodes2[p];
    SplitOldParentItems(nodes, sh, root, n, nodes2, sh2, root2);
    forall i | 0 <= i < |pt2.children|
      ensures ChildOk(nodes2, sh2, p, i)
    {
      SplitOldParentSlot(nodes, sh, root, n, nodes2, sh2, root2, i);
    }
    SplitOldParentDistinct(nodes, sh, root, n, nodes2, sh2, root2);
    SplitOldParentUp(nodes, sh, root, n, nodes2, sh2, root2);
  }

  /** Which links the split leaves alone: nodes other than the split node and
      the receiving node keep their items and children, and nodes other than
      the split node and its two moved children keep their parent. */
  lemma SplitLinks(nodes: seq<TFNode>, sh: Shape, root: Option<NodeId>, n: NodeId,
                   nodes2: seq<TFNode>, sh2: Shape, root2: Option<NodeId>)
    requires Overflowing(nodes, sh, root, n) && IsSplit(nodes, sh, root, n, nodes2, sh2, root2)
    ensures forall q :: 0 <= q < |nodes| && q != n && q != SplitParent(nodes, n) ==>
              nodes2[q].items == nodes[q].items && nodes2[q].children == nodes[q].children
    ensures forall q :: 0 <= q < |nodes| && q != n && Some(q) != nodes[n].children[3] && Some(q) != nodes[n].children[4] ==>
              nodes2[q].parent == nodes[q].parent
  {
    SplitContext(nodes, sh, root, n);
  }

  /** A child slot of an untouched node still holds a well-placed child: that
      child is not the split node, and not one of the moved children, whose
      parent is the split node. */
  lemma SplitOtherChild(nodes: seq<TFNode>, sh: Shape, root: Option<NodeId>, n: NodeId,
                        nodes2: seq<TFNode>, sh2: Shape, root2: Option<NodeId>, m: NodeId, i: nat)
    requires Overflowing(nodes, sh, root, n) && IsSplit(nodes, sh, root, n, nodes2, sh2, root2)
    requires Sized(nodes2, sh2)
    requires m < |nodes| && m != n && m != SplitParent(nodes, n)
    requires Some(m) != nodes[n].children[3] && Some(m) != nodes[n].children[4]
    requires sh.level[m] > 0 && nodes[m].Shaped() && i < |nodes[m].children|
    requires ChildOk(nodes, sh, m, i)
    ensures nodes2[m] == nodes[m] && ChildOk(nodes2, sh2, m, i)
  {
    SplitBasics(nodes, sh, root, n, nodes2, sh2, root2);
    SplitLinks(nodes, sh, root, n, nodes2, sh2, root2);
    var t := nodes[n];
    var cm := nodes[m].children[i].value;
    SplitContext(nodes, sh, root, n);
    if sh.level[n] > 0 {
      assert ChildOk(nodes, sh, n, 3) && ChildOk(nodes, sh, n, 4);
    }
    assert cm != n && Some(cm) != t.children[3] && Some(cm) != t.children[4];
    assert nodes2[cm].parent == nodes[cm].parent;
  }

  /** An untouched child of the receiving node keeps a slot there, shifted past
      the sibling when it sat right of the split node. */
  lemma SplitOtherInReceiver(nodes: seq<TFNode>, sh: Shape, root: Option<NodeId>, n: NodeId,
                             nodes2: seq<TFNode>, sh2: Shape, root2: Option<NodeId>, m: NodeId)
    requires Overflowing(nodes, sh, root, n) && IsSplit(nodes, sh, root, n, nodes2, sh2, root2)
    requires m < |nodes| && m != n && nodes[n].parent.Some?
    requires HasChild(nodes[SplitParent(nodes, n)], m)
    ensures HasChild(nodes2[SplitParent(nodes, n)], m)
  {
    SplitContext(nodes, sh, root, n);
    var p := SplitParent(nodes, n);
    var j :| 0 <= j < |nodes[p].children| && nodes[p].children[j] == Some(m);
    var idx := SplitIndex(nodes, n);
    assert NodeOk(nodes, sh, root, Some(n), p);
    assert ChildrenDistinct(nodes[p].children);
    assert j != idx;
    var j2 := if j < idx then j else j + 1;
    assert nodes2[p].children[j2] == Some(m);
  }

  /** The parent of an untouched node still lists it among its children. */
  lemma SplitOtherParent(nodes: seq<TFNode>, sh: Shape, root: Option<NodeId>, n: NodeId,
                         nodes2: seq<TFNode>, sh2: Shape, root2: Option<NodeId>, m: NodeId)
    requires Overflowing(nodes, sh, root, n) && IsSplit(nodes, sh, root, n, nodes2, sh2, root2)
    requires m < |nodes| && m != n && m != SplitParent(nodes, n)
    requires Some(m) != nodes[n].children[3] && Some(m) != nodes[n].children[4]
    requires nodes[m].parent.Some? && nodes[m].parent.value < |nodes| && HasChild(nodes[nodes[m].parent.value], m)
    ensures nodes2[m].parent == nodes[m].parent && HasChild(nodes2[nodes[m].parent.value], m)
  {
    SplitLinks(nodes, sh, root, n, nodes2, sh2, root2);
    var q := nodes[m].parent.value;
    if q == SplitParent(nodes, n) {
      SplitOtherInReceiver(nodes, sh, root, n, nodes2, sh2, root2, m);
    } else {
      var j :| 0 <= j < |nodes[q].children| && nodes[q].children[j] == Some(m);
      if q == n {
        assert j < 3;
        assert nodes2[n].children[j] == Some(m);
      } else {
        assert nodes2[q].children[j] == Some(m);
      }
    }
  }

  /** A node that is neither split, receiving, nor moved keeps its place. */
  lemma SplitKeepsOther(nodes: seq<TFNode>, sh: Shape, root: Option<NodeId>, n: NodeId,
                        nodes2: seq<TFNode>, sh2: Shape, root2: Option<NodeId>, m: NodeId)
    requires Overflowing(nodes, sh, root, n) && IsSplit(nodes, sh, root, n, nodes2, sh2, root2)
    requires Sized(nodes2, sh2) && root2.Some? && root2.value < |nodes2|
    requires m < |nodes| && m != n && m != SplitParent(nodes, n)
    requires Some(m) != nodes[n].children[3] && Some(m) != nodes[n].children[4]
    ensures NodeOk(nodes2, sh2, root2, SplitOverflow(nodes2, SplitParent(nodes, n)), m)
  {
    SplitBasics(nodes, sh, root, n, nodes2, sh2, root2);
    assert NodeOk(nodes, sh, root, Some(n), m);
    var tm := nodes[m];
    if sh.level[m] > 0 {
      forall i | 0 <= i < |tm.children|
        ensures ChildOk(nodes2, sh2, m, i)
      {
        assert ChildOk(nodes, sh, m, i);
        SplitOtherChild(nodes, sh, root, n, nodes2, sh2, root2, m, i);
      }
    }
    match tm.parent
    case None =>
      SplitContext(nodes, sh, root, n);
      SplitLinks(nodes, sh, root, n, nodes2, sh2, root2);
    case Some(q) =>
      SplitOtherParent(nodes, sh, root, n, nodes2, sh2, root2, m);
  }

  /** A child moved from the split node to its sibling keeps its subtree and
      now points at the sibling. */
  lemma SplitKeepsMoved(nodes: seq<TFNode>, sh: Shape, root: Option<NodeId>, n: NodeId,
                        nodes2: seq<TFNode>, sh2: Shape, root2: Option<NodeId>, k: nat)
    requires Overflowing(nodes, sh, root, n) && IsSplit(nodes, sh, root, n, nodes2, sh2, root2)
    requires Sized(nodes2, sh2) && root2.Some? && root2.value < |nodes2|
    requires 3 <= k < 5 && sh.level[n] > 0
    ensures nodes[n].children[k].Some? && nodes[n].children[k].value < |nodes|
    ensures NodeOk(nodes2, sh2, root2, SplitOverflow(nodes2, SplitParent(nodes, n)), nodes[n].children[k].value)
  {
    SplitContext(nodes, sh, root, n);
    SplitBasics(nodes, sh, root, n, nodes2, sh2, root2);
    SplitLinks(nodes, sh, root, n, nodes2, sh2, root2);
    var t := nodes[n];
    var p := SplitParent(nodes, n);
    var s := SplitSibling(nodes, n);
    assert ChildOk(nodes, sh, n, k);
    var m := t.children[k].value;
    assert NodeOk(nodes, sh, root, Some(n), m);
    var tm := nodes[m];
    assert nodes2[m] == tm.(parent := Some(s));
    if sh.level[m] > 0 {
      forall i | 0 <= i < |tm.children|
        ensures ChildOk(nodes2, sh2, m, i)
      {
        assert ChildOk(nodes, sh, m, i);
        assert ChildOk(nodes, sh, n, 3) && ChildOk(nodes, sh, n, 4);
      }
    }
    assert nodes2[s].children[k - 3] == Some(m);
    assert HasChild(nodes2[s], m);
  }

  /** The four items of a full node, as the split distributes them. */
  lemma ItemsOfFullNode(items: seq<Item>)
    requires |items| == 4
    ensures multiset(items) == multiset(items[..2]) + multiset{items[2]} + multiset{items[3]}
  {
    assert items == items[..2] + [items[2]] + [items[3]];
  }

  /** Inserting an item at any index adds exactly that item. */
  lemma ItemsOfInsert(items: seq<Item>, idx: nat, x: Item)
    requires idx <= |items|
    ensures multiset(items[..idx] + [x] + items[idx..]) == multiset(items) + multiset{x}
  {
    assert items == items[..idx] + items[idx..];
  }

  /** Adding the same items to both sides of a multiset equation. */
  lemma AddToBothSides(a: multiset<Item>, x: multiset<Item>, b: multiset<Item>, y: multiset<Item>,
                       w1: multiset<Item>, w2: multiset<Item>)
    requires a + x == b + y
    ensures a + w1 + w2 + x == b + y + w1 + w2
  {
    forall z
      ensures (a + w1 + w2 + x)[z] == (b + y + w1 + w2)[z]
    {
      assert (a + x)[z] == (b + y)[z];
    }
  }

  /** The same, with two items on each side. */
  lemma AddToBothSides2(a: multiset<Item>, x1: multiset<Item>, x2: multiset<Item>,
                        b: multiset<Item>, y1: multiset<Item>, y2: multiset<Item>, w: multiset<Item>)
    requires a + x1 + x2 == b + y1 + y2
    ensures a + w + x1 + x2 == b + y1 + y2 + w
  {
    forall z
      ensures (a + w + x1 + x2)[z] == (b + y1 + y2 + w)[z]
    {
      assert (a + x1 + x2)[z] == (b + y1 + y2)[z];
    }
  }

  /** Items of an arena that changes one node and grows by two nodes. */
  lemma ArenaItemsOneChanged(nodes: seq<TFNode>, nodes2: seq<TFNode>, n: nat)
    requires |nodes2| == |nodes| + 2 && n < |nodes|
    requires forall q :: 0 <= q < |nodes| && q != n ==> nodes2[q].items == nodes[q].items
    ensures AllItems(nodes2) + multiset(nodes[n].items) ==
            AllItems(nodes) + multiset(nodes2[n].items) + multiset(nodes2[|nodes|].items) +
            multiset(nodes2[|nodes| + 1].items)
  {
    var k := |nodes|;
    var u := nodes[n := nodes2[n]];
    AllItemsUpdate(nodes, n, nodes2[n]);
    var front := nodes2[..k + 1];
    assert front[..k] == nodes2[..k];
    AllItemsSameItems(u, nodes2[..k]);
    var all, allU, all2 := AllItems(nodes), AllItems(u), AllItems(nodes2);
    var x, y, a, b := multiset(nodes[n].items), multiset(nodes2[n].items),
                      multiset(nodes2[k].items), multiset(nodes2[k + 1].items);
    assert all2 == AllItems(front) + b;
    assert AllItems(front) == allU + a;
    AddToBothSides(allU, x, all, y, a, b);
  }

  /** Splitting the root: the split node gives up the median to the new root
      and the largest item to the new sibling. */
  lemma SplitItemsNewRoot(nodes: seq<TFNode>, sh: Shape, root: Option<NodeId>, n: NodeId,
                          nodes2: seq<TFNode>, sh2: Shape, root2: Option<NodeId>)
    requires Overflowing(nodes, sh, root, n) && IsSplit(nodes, sh, root, n, nodes2, sh2, root2)
    requires nodes[n].parent.None?
    ensures AllItems(nodes2) == AllItems(nodes)
  {
    SplitLinks(nodes, sh, root, n, nodes2, sh2, root2);
    var t := nodes[n];
    ItemsOfFullNode(t.items);
    ArenaItemsOneChanged(nodes, nodes2, n);
    var base, ms0, ms2, ms3 := AllItems(nodes), multiset(t.items[..2]), multiset{t.items[2]}, multiset{t.items[3]};
    assert multiset(nodes2[|nodes|].items) == ms2;
    assert multiset(nodes2[|nodes| + 1].items) == ms3;
    forall z
      ensures AllItems(nodes2)[z] == base[z]
    {
      assert (AllItems(nodes2) + (ms0 + ms2 + ms3))[z] == (base + ms0 + ms2 + ms3)[z];
    }
  }

  /** Replacing two distinct nodes swaps their items for the replacements'. */
  lemma AllItemsTwoUpdates(nodes: seq<TFNode>, n: nat, p: nat, tn: TFNode, tp: TFNode)
    requires n < |nodes| && p < |nodes| && n != p
    ensures AllItems(nodes[n := tn][p := tp]) + multiset(nodes[n].items) + multiset(nodes[p].items) ==
            AllItems(nodes) + multiset(tn.items) + multiset(tp.items)
  {
    var u := nodes[n := tn];
    AllItemsUpdate(nodes, n, tn);
    AllItemsUpdate(u, p, tp);
    var a, b, a2, b2 := multiset(nodes[n].items), multiset(nodes[p].items), multiset(tn.items), multiset(tp.items);
    var all, allU, allV := AllItems(nodes), AllItems(u), AllItems(u[p := tp]);
    assert allU + a == all + a2;
    assert allV + b == allU + b2;
    forall z
      ensures (allV + a + b)[z] == (all + a2 + b2)[z]
    {
      assert (allU + a)[z] == (all + a2)[z];
      assert (allV + b)[z] == (allU + b2)[z];
    }
  }

  /** Items of an arena that changes two nodes and grows by one node. */
  lemma ArenaItemsTwoChanged(nodes: seq<TFNode>, nodes2: seq<TFNode>, n: nat, p: nat)
    requires |nodes2| == |nodes| + 1 && n < |nodes| && p < |nodes| && n != p
    requires forall q :: 0 <= q < |nodes| && q != n && q != p ==> nodes2[q].items == nodes[q].items
    ensures AllItems(nodes2) + multiset(nodes[n].items) + multiset(nodes[p].items) ==
            AllItems(nodes) + multiset(nodes2[n].items) + multiset(nodes2[p].items) + multiset(nodes2[|nodes|].items)
  {
    var k := |nodes|;
    var v := nodes[n := nodes2[n]][p := nodes2[p]];
    AllItemsTwoUpdates(nodes, n, p, nodes2[n], nodes2[p]);
    AllItemsSameItems(v, nodes2[..k]);
    var all, allV, all2 := AllItems(nodes), AllItems(v), AllItems(nodes2);
    var xn, xp, yn, yp, a := multiset(nodes[n].items), multiset(nodes[p].items),
                             multiset(nodes2[n].items), multiset(nodes2[p].items), multiset(nodes2[k].items);
    assert all2 == allV + a;
    AddToBothSides2(allV, xn, xp, all, yn, yp, a);
  }

  /** Splitting below the root: the parent gains the median and the sibling
      the largest item that the split node gives up. */
  lemma SplitItemsOldParent(nodes: seq<TFNode>, sh: Shape, root: Option<NodeId>, n: NodeId,
                            nodes2: seq<TFNode>, sh2: Shape, root2: Option<NodeId>)
    requires Overflowing(nodes, sh, root, n) && IsSplit(nodes, sh, root, n, nodes2, sh2, root2)
    requires nodes[n].parent.Some?
    ensures AllItems(nodes2) == AllItems(nodes)
  {
    SplitContext(nodes, sh, root, n);
    SplitLinks(nodes, sh, root, n, nodes2, sh2, root2);
    var t := nodes[n];
    var c := t.items[2];
    var p := SplitParent(nodes, n);
    var pb := ParentBefore(nodes, n);
    ItemsOfFullNode(t.items);
    ItemsOfInsert(pb.items, SplitIndex(nodes, n), c);
    ArenaItemsTwoChanged(nodes, nodes2, n, p);
    var base, ms0, ms2, ms3 := AllItems(nodes), multiset(t.items[..2]), multiset{c}, multiset{t.items[3]};
    var msp := multiset(pb.items);
    assert multiset(nodes2[|nodes|].items) == ms3;
    forall z
      ensures AllItems(nodes2)[z] == base[z]
    {
      assert (AllItems(nodes2) + (ms0 + ms2 + ms3) + msp)[z] == (base + ms0 + (msp + ms2) + ms3)[z];
    }
  }

  /** A split moves items between nodes but neither adds nor drops any. */
  lemma SplitKeepsItems(nodes: seq<TFNode>, sh: Shape, root: Option<NodeId>, n: NodeId,
                        nodes2: seq<TFNode>, sh2: Shape, root2: Option<NodeId>)
    requires Overflowing(nodes, sh, root, n) && IsSplit(nodes, sh, root, n, nodes2, sh2, root2)
    ensures AllItems(nodes2) == AllItems(nodes)
  {
    if nodes[n].parent.None? {
      SplitItemsNewRoot(nodes, sh, root, n, nodes2, sh2, root2);
    } else {
      SplitItemsOldParent(nodes, sh, root, n, nodes2, sh2, root2);
    }
  }

  /** Every node of the new arena is well placed. */
  lemma SplitEachNodeOk(nodes: seq<TFNode>, sh: Shape, root: Option<NodeId>, n: NodeId,
                        nodes2: seq<TFNode>, sh2: Shape, root2: Option<NodeId>, m: NodeId)
    requires Overflowing(nodes, sh, root, n) && IsSplit(nodes, sh, root, n, nodes2, sh2, root2)
    requires Sized(nodes2, sh2) && root2.Some? && root2.value < |nodes2| && m < |nodes2|
    ensures NodeOk(nodes2, sh2, root2, SplitOverflow(nodes2, SplitParent(nodes, n)), m)
  {
    SplitContext(nodes, sh, root, n);
    var t := nodes[n];
    if m == n {
      SplitKeepsNode(nodes, sh, root, n, nodes2, sh2, root2);
    } else if m == SplitSibling(nodes, n) {
      SplitKeepsSibling(nodes, sh, root, n, nodes2, sh2, root2);
    } else if m == SplitParent(nodes, n) {
      if t.parent.None? {
        SplitKeepsNewRoot(nodes, sh, root, n, nodes2, sh2, root2);
      } else {
        SplitKeepsOldParent(nodes, sh, root, n, nodes2, sh2, root2);
      }
    } else if sh.level[n] > 0 && Some(m) == t.children[3] {
      SplitKeepsMoved(nodes, sh, root, n, nodes2, sh2, root2, 3);
    } else if sh.level[n] > 0 && Some(m) == t.children[4] {
      SplitKeepsMoved(nodes, sh, root, n, nodes2, sh2, root2, 4);
    } else {
      SplitKeepsOther(nodes, sh, root, n, nodes2, sh2, root2, m);
    }
  }

  /** The new root is a parentless node with no bounds at the top level, one
      level higher than before exactly when the root was split. */
  lemma SplitRoot(nodes: seq<TFNode>, sh: Shape, root: Option<NodeId>, n: NodeId,
                  nodes2: seq<TFNode>, sh2: Shape, root2: Option<NodeId>)
    requires Overflowing(nodes, sh, root, n) && IsSplit(nodes, sh, root, n, nodes2, sh2, root2)
    ensures Sized(nodes2, sh2) && root2.Some? && root2.value < |nodes2|
    ensures nodes2[root2.value].parent.None? && sh2.lo[root2.value].None? && sh2.hi[root2.value].None?
    ensures forall m :: 0 <= m < |nodes2| ==> sh2.level[m] <= sh2.level[root2.value]
    ensures sh2.level[root2.value] == sh.level[root.value] + (if nodes[n].parent.None? then 1 else 0)
  {
    SplitContext(nodes, sh, root, n);
    SplitBasics(nodes, sh, root, n, nodes2, sh2, root2);
    SplitLinks(nodes, sh, root, n, nodes2, sh2, root2);
    var t := nodes[n];
    var r := root.value;
    if t.parent.Some? {
      assert NodeOk(nodes, sh, root, Some(n), r);
      if sh.level[n] > 0 {
        assert ChildOk(nodes, sh, n, 3) && ChildOk(nodes, sh, n, 4);
      }
      assert r != n;
      assert nodes2[r].parent.None?;
    }
  }

  /** One split restores the invariant everywhere except that the receiving
      node may now hold four items; the height grows by one exactly when the
      root was split. */
  lemma SplitKeepsInv(nodes: seq<TFNode>, sh: Shape, root: Option<NodeId>, n: NodeId,
                      nodes2: seq<TFNode>, sh2: Shape, root2: Option<NodeId>)
    requires Overflowing(nodes, sh, root, n) && IsSplit(nodes, sh, root, n, nodes2, sh2, root2)
    ensures Inv(nodes2, sh2, root2, SplitOverflow(nodes2, SplitParent(nodes, n)))
    ensures |nodes2[SplitParent(nodes, n)].items| < 4 ==> Inv(nodes2, sh2, root2, None)
    ensures AllItems(nodes2) == AllItems(nodes)
    ensures |nodes2[SplitParent(nodes, n)].items| == |ParentBefore(nodes, n).items| + 1
    ensures sh2.level[root2.value] == sh.level[root.value] + (if nodes[n].parent.None? then 1 else 0)
  {
    SplitRoot(nodes, sh, root, n, nodes2, sh2, root2);
    SplitKeepsItems(nodes, sh, root, n, nodes2, sh2, root2);
    forall m | 0 <= m < |nodes2|
      ensures NodeOk(nodes2, sh2, root2, SplitOverflow(nodes2, SplitParent(nodes, n)), m)
    {
      SplitEachNodeOk(nodes, sh, root, n, nodes2, sh2, root2, m);
    }
  }

  /** Lines 93-104 of `fixOverflow`: the median `c` of node `n` enters node
      `p` at the scanned index, a new sibling holding the largest item is
      appended, `n` and the sibling fill the child slots around `c`, and both
      point at `p`. */
  method PromoteMedian(ns0: seq<TFNode>, n: NodeId, p: NodeId) returns (ns: seq<TFNode>, sibling: NodeId)
    requires n < |ns0| && p < |ns0| && n != p
    requires |ns0[n].items| == 4 && ns0[p].Shaped()
    requires FirstGE(ns0[p].items, ns0[n].items[2].key).Ok?
    ensures sibling == |ns0| && |ns| == |ns0| + 1
    ensures var pt := ns0[p];
            var idx := FirstGE(pt.items, ns0[n].items[2].key).value;
            ns[p] == TFNode(pt.items[..idx] + [ns0[n].items[2]] + pt.items[idx..],
                            pt.children[..idx] + [Some(n), Some(sibling)] + pt.children[idx + 1..],
                            pt.parent)
    ensures ns[sibling] == TFNode([ns0[n].items[3]], [None, None], Some(p))
    ensures ns[n] == ns0[n].(parent := Some(p))
    ensures forall m :: 0 <= m < |ns0| && m != n && m != p ==> ns[m] == ns0[m]
  {
    ns := ns0;
    var median := ns[n].items[2];
    var found := FindFirstGreaterThanOrEqualTo(ns[p], median.key);
    var index := found.value;
    InsertThenLink(ns0[p], index, median, n, |ns0|);
    ns := ns[p := InsertItem(ns[p], index, median)];

    sibling := |ns|;
    ns := ns + [InsertItem(NewNode(), 0, ns[n].items[3])];

    ns := ns[p := SetChild(ns[p], index, Some(n))];
    ns := ns[p := SetChild(ns[p], index + 1, Some(sibling))];

    ns := ns[sibling := SetParent(ns[sibling], Some(p))];
    ns := ns[n := SetParent(ns[n], Some(p))];
  }

  /** Lines 106-114 of `fixOverflow`: the last two children of `n`, where
      present, become the sibling's two children and point at it. */
  method MoveUpperChildren(ns0: seq<TFNode>, n: NodeId, s: NodeId) returns (ns: seq<TFNode>)
    requires n < |ns0| && s < |ns0| && n != s
    requires |ns0[n].children| == 5 && ns0[s].children == [None, None]
    requires forall k :: 3 <= k < 5 && ns0[n].children[k].Some? ==>
               ns0[n].children[k].value < |ns0| && ns0[n].children[k].value != n && ns0[n].children[k].value != s
    requires ns0[n].children[3].Some? ==> ns0[n].children[3] != ns0[n].children[4]
    ensures |ns| == |ns0|
    ensures ns[s] == ns0[s].(children := ns0[n].children[3..]) && ns[n] == ns0[n]
    ensures forall k :: 3 <= k < 5 && ns0[n].children[k].Some? ==>
              ns[ns0[n].children[k].value] == ns0[ns0[n].children[k].value].(parent := Some(s))
    ensures forall m :: 0 <= m < |ns0| && m != s && Some(m) != ns0[n].children[3] && Some(m) != ns0[n].children[4] ==>
              ns[m] == ns0[m]
  {
    ns := ns0;
    if ns[n].children[3].Some? {
      ns := ns[s := SetChild(ns[s], 0, ns[n].children[3])];
      var moved := ns[s].children[0].value;
      ns := ns[moved := SetParent(ns[moved], Some(s))];
    }
    if ns[n].children[4].Some? {
      ns := ns[s := SetChild(ns[s], 1, ns[n].children[4])];
      var moved := ns[s].children[1].value;
      ns := ns[moved := SetParent(ns[moved], Some(s))];
    }
    assert ns[s].children == ns0[n].children[3..];
  }

  /** The end of the split: items 2 and 3 leave the node (both `removeItem(2)`
      calls) and its third child goes back in slot 2, so the node keeps its
      two smallest items and its first three children. */
  method KeepLowerHalfOf(ns0: seq<TFNode>, n: NodeId) returns (ns: seq<TFNode>)
    requires n < |ns0| && ns0[n].Shaped() && |ns0[n].items| == 4
    ensures ns == ns0[n := TFNode(ns0[n].items[..2], ns0[n].children[..3], ns0[n].parent)]
  {
    ns := ns0;
    KeepLowerHalf(ns[n]);
    var thirdChild := ns[n].children[2];
    ns := ns[n := RemoveItem(ns[n], 2)];
    ns := ns[n := RemoveItem(ns[n], 2)];
    ns := ns[n := SetChild(ns[n], 2, thirdChild)];
  }

  /** The statements of `fixOverflow` up to its recursive call produce exactly
      the split `IsSplit` describes. */
  lemma StepsMakeSplit(nodes0: seq<TFNode>, sh0: Shape, root0: Option<NodeId>, n: NodeId,
                       ns0: seq<TFNode>, p: NodeId, nsA: seq<TFNode>, sibling: NodeId,
                       nsB: seq<TFNode>, nsC: seq<TFNode>)
    requires Overflowing(nodes0, sh0, root0, n)
    requires ns0 == nodes0 + (if nodes0[n].parent.None? then [NewNode()] else [])
    requires p == SplitParent(nodes0, n) && p < |ns0| && n != p
    requires ns0[p].Shaped() && FirstGE(ns0[p].items, nodes0[n].items[2].key).Ok?
    // what PromoteMedian ensures
    requires sibling == |ns0| && |nsA| == |ns0| + 1
    requires var pt := ns0[p];
             var idx := FirstGE(pt.items, ns0[n].items[2].key).value;
             nsA[p] == TFNode(pt.items[..idx] + [ns0[n].items[2]] + pt.items[idx..],
                              pt.children[..idx] + [Some(n), Some(sibling)] + pt.children[idx + 1..],
                              pt.parent)
    requires nsA[sibling] == TFNode([ns0[n].items[3]], [None, None], Some(p))
    requires nsA[n] == ns0[n].(parent := Some(p))
    requires forall m :: 0 <= m < |ns0| && m != n && m != p ==> nsA[m] == ns0[m]
    // what MoveUpperChildren ensures
    requires nsA[n].Shaped() && |nsA[n].items| == 4 && |nsB| == |nsA|
    requires nsB[sibling] == nsA[sibling].(children := nsA[n].children[3..]) && nsB[n] == nsA[n]
    requires forall k :: 3 <= k < 5 && nsA[n].children[k].Some? ==> nsA[n].children[k].value < |nsA|
    requires forall k :: 3 <= k < 5 && nsA[n].children[k].Some? ==>
               nsB[nsA[n].children[k].value] == nsA[nsA[n].children[k].value].(parent := Some(sibling))
    requires forall m :: 0 <= m < |nsA| && m != sibling && Some(m) != nsA[n].children[3] && Some(m) != nsA[n].children[4] ==>
               nsB[m] == nsA[m]
    // what KeepLowerHalfOf ensures
    requires nsC == nsB[n := TFNode(nsB[n].items[..2], nsB[n].children[..3], nsB[n].parent)]
    ensures IsSplit(nodes0, sh0, root0, n, nsC, SplitShape(nodes0, sh0, n),
                    if nodes0[n].parent.None? then Some(p) else root0)
  {
    SplitFacts(nodes0, sh0, root0, n);
    var t := nodes0[n];
    assert ns0[n] == t;
    assert ns0[p] == ParentBefore(nodes0, n);
    assert FirstGE(ns0[p].items, t.items[2].key).value == SplitIndex(nodes0, n);
    assert nsC[n] == TFNode(t.items[..2], t.children[..3], Some(p));
    assert nsC[sibling] == TFNode([t.items[3]], t.children[3..], Some(p));
    forall m | 0 <= m < |nodes0| && m != n && m != p && Some(m) != t.children[3] && Some(m) != t.children[4]
      ensures nsC[m] == nodes0[m]
    {
      assert nsA[m] == ns0[m];
    }
  }

  /** The statements of `fixOverflow` that rebuild the arena: the receiving
      node is the parent, or a new node appended as the future root, and the
      three steps above split `n` around it. */
  method SplitArena(nodes0: seq<TFNode>, n: NodeId, ghost sh0: Shape, ghost root0: Option<NodeId>)
    returns (ns: seq<TFNode>, p: NodeId)
    requires Overflowing(nodes0, sh0, root0, n)
    ensures p == SplitParent(nodes0, n)
    ensures IsSplit(nodes0, sh0, root0, n, ns, SplitShape(nodes0, sh0, n),
                    if nodes0[n].parent.None? then Some(p) else root0)
  {
    SplitFacts(nodes0, sh0, root0, n);
    ns := nodes0;
    var parent := ns[n].parent;
    if parent.None? {
      p := |ns|;
      ns := ns + [NewNode()];
    } else {
      p := parent.value;
    }
    ghost var ns0 := ns;
    assert ns0[n] == nodes0[n] && ns0[p] == ParentBefore(nodes0, n);
    var sibling: NodeId;
    ns, sibling := PromoteMedian(ns, n, p);
    ghost var nsA := ns;
    ns := MoveUpperChildren(ns, n, sibling);
    ghost var nsB := ns;
    ns := KeepLowerHalfOf(ns, n);
    StepsMakeSplit(nodes0, sh0, root0, n, ns0, p, nsA, sibling, nsB, ns);
  }

  /** What `fixOverflow` does when called on a node `x` that may have just
      reached four items: nothing when it has not; otherwise the tree is
      overflowing at `x`, and when the receiving node has room, exactly one
      split happens. */
  ghost predicate LeafSettled(mid: seq<TFNode>, sh: Shape, root: Option<NodeId>, x: NodeId,
                              nodes2: seq<TFNode>, sh2: Shape, root2: Option<NodeId>)
    requires x < |mid|
  {
    (|mid[x].items| < 4 ==> nodes2 == mid && sh2 == sh && root2 == root) &&
    (|mid[x].items| == 4 ==>
       Overflowing(mid, sh, root, x) &&
       (|ParentBefore(mid, x).items| < 3 ==> IsSplit(mid, sh, root, x, nodes2, sh2, root2)))
  }
}
