/** The structural invariant of the 2-4 tree over its arena of nodes, and the
    facts that follow from it: balance, back-link symmetry, key bounds. */
module TreeShape {
  import opened Objects
  import opened TFNodes

  /** Proof-only annotations of the arena, one entry per node: its height
      above the leaves, and the bounds its subtree's keys lie between
      (`None` for unbounded). */
  datatype Shape = Shape(level: seq<nat>, lo: seq<Option<Obj>>, hi: seq<Option<Obj>>)

  /** The comparator's order, as a relation that only `Integer`s stand in. */
  predicate KeyLe(a: Obj, b: Obj) {
    a.IntObj? && b.IntObj? && a.v <= b.v
  }

  predicate KeyLt(a: Obj, b: Obj) {
    a.IntObj? && b.IntObj? && a.v < b.v
  }

  predicate AtLeast(lo: Option<Obj>, k: Obj) {
    lo.None? || KeyLe(lo.value, k)
  }

  predicate Above(lo: Option<Obj>, k: Obj) {
    lo.None? || KeyLt(lo.value, k)
  }

  predicate AtMost(hi: Option<Obj>, k: Obj) {
    hi.None? || KeyLe(k, hi.value)
  }

  /** Keys in non-decreasing order (the source does not reject duplicates). */
  predicate SortedKeys(items: seq<Item>) {
    forall i, j :: 0 <= i < j < |items| ==> KeyLe(items[i].key, items[j].key)
  }

  predicate ItemsWithin(items: seq<Item>, lo: Option<Obj>, hi: Option<Obj>) {
    forall i :: 0 <= i < |items| ==> AtLeast(lo, items[i].key) && AtMost(hi, items[i].key)
  }

  /** No node occupies two child slots of the same parent. */
  predicate ChildrenDistinct(cs: seq<Option<NodeId>>) {
    forall i, j :: 0 <= i < j < |cs| && cs[i].Some? ==> cs[i] != cs[j]
  }

  predicate HasChild(t: TFNode, c: NodeId) {
    exists i :: 0 <= i < |t.children| && t.children[i] == Some(c)
  }

  /** The lower bound of child slot `i`: the item to its left, or the node's own. */
  function LoOf(t: TFNode, lo: Option<Obj>, i: nat): Option<Obj>
    requires i <= |t.items|
  {
    if i == 0 then lo else Some(t.items[i - 1].key)
  }

  /** The upper bound of child slot `i`: the item to its right, or the node's own. */
  function HiOf(t: TFNode, hi: Option<Obj>, i: nat): Option<Obj>
    requires i <= |t.items|
  {
    if i == |t.items| then hi else Some(t.items[i].key)
  }

  predicate Sized(nodes: seq<TFNode>, sh: Shape) {
    |sh.level| == |nodes| && |sh.lo| == |nodes| && |sh.hi| == |nodes|
  }

  /** Child slot `i` of node `n` holds a node one level down whose parent link
      points back at `n` and whose keys are bounded by the items beside the slot. */
  ghost predicate ChildOk(nodes: seq<TFNode>, sh: Shape, n: NodeId, i: nat)
    requires Sized(nodes, sh) && n < |nodes| && nodes[n].Shaped() && i < |nodes[n].children|
  {
    var t := nodes[n];
    t.children[i].Some? &&
    var c := t.children[i].value;
    c < |nodes| &&
    sh.level[c] + 1 == sh.level[n] &&
    nodes[c].parent == Some(n) &&
    sh.lo[c] == LoOf(t, sh.lo[n], i) &&
    sh.hi[c] == HiOf(t, sh.hi[n], i)
  }

  /** A node without a parent is the root; any other node sits one level
      below its parent, in one of the parent's child slots. */
  ghost predicate ParentOk(nodes: seq<TFNode>, sh: Shape, root: Option<NodeId>, n: NodeId)
    requires Sized(nodes, sh) && n < |nodes|
  {
    match nodes[n].parent
    case None => root == Some(n)
    case Some(p) => p < |nodes| && sh.level[p] == sh.level[n] + 1 && HasChild(nodes[p], n)
  }

  /** Everything the tree keeps true of one node. `ov` names the one node that
      may transiently hold four items while an insertion is being repaired. */
  ghost predicate NodeOk(nodes: seq<TFNode>, sh: Shape, root: Option<NodeId>, ov: Option<NodeId>, n: NodeId)
    requires Sized(nodes, sh) && n < |nodes| && root.Some? && root.value < |nodes|
  {
    var t := nodes[n];
    1 <= |t.items| <= (if ov == Some(n) then 4 else 3) &&
    t.Shaped() &&
    SortedKeys(t.items) &&
    ItemsWithin(t.items, sh.lo[n], sh.hi[n]) &&
    (|t.items| >= 2 ==> Above(sh.lo[n], t.items[1].key)) &&
    (sh.level[n] == 0 ==> forall i :: 0 <= i < |t.children| ==> t.children[i].None?) &&
    (sh.level[n] > 0 ==>
       (forall i :: 0 <= i < |t.items| ==> t.items[i].key.IntObj?) &&
       (forall i :: 0 <= i < |t.children| ==> ChildOk(nodes, sh, n, i))) &&
    ChildrenDistinct(t.children) &&
    ParentOk(nodes, sh, root, n)
  }

  /** The arena holds exactly the nodes of one 2-4 tree rooted at `root`. */
  ghost predicate Inv(nodes: seq<TFNode>, sh: Shape, root: Option<NodeId>, ov: Option<NodeId>) {
    Sized(nodes, sh) &&
    (root.None? <==> |nodes| == 0) &&
    (root.Some? ==>
       root.value < |nodes| &&
       nodes[root.value].parent.None? &&
       sh.lo[root.value].None? && sh.hi[root.value].None? &&
       (ov.Some? ==> ov.value < |nodes|) &&
       (forall n :: 0 <= n < |nodes| ==> sh.level[n] <= sh.level[root.value]) &&
       forall n :: 0 <= n < |nodes| ==> NodeOk(nodes, sh, root, ov, n))
  }

  /** Every item stored in the arena. */
  function AllItems(nodes: seq<TFNode>): multiset<Item> {
    if |nodes| == 0 then multiset{} else AllItems(nodes[..|nodes| - 1]) + multiset(nodes[|nodes| - 1].items)
  }

  /** Every key stored in the arena is an `Integer`. */
  predicate AllInt(nodes: seq<TFNode>) {
    forall n, i :: 0 <= n < |nodes| && 0 <= i < |nodes[n].items| ==> nodes[n].items[i].key.IntObj?
  }

  /** Some node of the arena stores an item with this key. */
  predicate Stored(nodes: seq<TFNode>, key: Obj) {
    exists n, i :: 0 <= n < |nodes| && 0 <= i < |nodes[n].items| && nodes[n].items[i].key == key
  }

  /** The ancestor of `m` at level `l`, found by following parent links. */
  ghost function Ancestor(nodes: seq<TFNode>, sh: Shape, root: Option<NodeId>, ov: Option<NodeId>,
                          m: NodeId, l: nat): (a: NodeId)
    requires Inv(nodes, sh, root, ov) && m < |nodes|
    requires sh.level[m] <= l <= sh.level[root.value]
    ensures a < |nodes| && sh.level[a] == l
    decreases l - sh.level[m]
  {
    if sh.level[m] == l then m
    else
      assert NodeOk(nodes, sh, root, ov, m);
      Ancestor(nodes, sh, root, ov, nodes[m].parent.value, l)
  }

  /** The number of parent links from `n` up to the root. */
  ghost function Depth(nodes: seq<TFNode>, sh: Shape, root: Option<NodeId>, ov: Option<NodeId>, n: NodeId): (d: nat)
    requires Inv(nodes, sh, root, ov) && n < |nodes|
    ensures d + sh.level[n] == sh.level[root.value]
    decreases sh.level[root.value] as int - sh.level[n]
  {
    assert NodeOk(nodes, sh, root, ov, n);
    match nodes[n].parent
    case None => 0
    case Some(p) =>
      assert NodeOk(nodes, sh, root, ov, p);
      Depth(nodes, sh, root, ov, p) + 1
  }

  predicate IsLeaf(t: TFNode) {
    forall i :: 0 <= i < |t.children| ==> t.children[i].None?
  }

  /** A node is a leaf exactly when it is at level zero. */
  lemma LeafIffLevelZero(nodes: seq<TFNode>, sh: Shape, root: Option<NodeId>, ov: Option<NodeId>, m: NodeId)
    requires Inv(nodes, sh, root, ov) && m < |nodes|
    ensures IsLeaf(nodes[m]) <==> sh.level[m] == 0
  {
    assert NodeOk(nodes, sh, root, ov, m);
    if sh.level[m] > 0 {
      assert ChildOk(nodes, sh, m, 0);
    }
  }

  /** Balance: every leaf lies at the same depth, the height of the tree. */
  lemma LeavesAtEqualDepth(nodes: seq<TFNode>, sh: Shape, root: Option<NodeId>, ov: Option<NodeId>, m: NodeId)
    requires Inv(nodes, sh, root, ov) && m < |nodes| && IsLeaf(nodes[m])
    ensures Depth(nodes, sh, root, ov, m) == sh.level[root.value]
  {
    LeafIffLevelZero(nodes, sh, root, ov, m);
  }

  /** Following parent links from any node reaches the root. */
  lemma {:induction false} AncestorIsRoot(nodes: seq<TFNode>, sh: Shape, root: Option<NodeId>, ov: Option<NodeId>, m: NodeId)
    requires Inv(nodes, sh, root, ov) && m < |nodes|
    ensures sh.level[m] <= sh.level[root.value]
    ensures Ancestor(nodes, sh, root, ov, m, sh.level[root.value]) == root.value
    decreases sh.level[root.value] as int - sh.level[m]
  {
    assert NodeOk(nodes, sh, root, ov, m);
    match nodes[m].parent
    case None =>
    case Some(p) =>
      assert NodeOk(nodes, sh, root, ov, p);
      AncestorIsRoot(nodes, sh, root, ov, p);
  }

  /** The bounds of a child lie within its parent's: a key its child admits,
      the parent admits too. */
  lemma ParentBounds(nodes: seq<TFNode>, sh: Shape, root: Option<NodeId>, ov: Option<NodeId>, m: NodeId, k: Obj)
    requires Inv(nodes, sh, root, ov) && m < |nodes| && nodes[m].parent.Some?
    ensures nodes[m].parent.value < |nodes|
    ensures AtLeast(sh.lo[m], k) ==> AtLeast(sh.lo[nodes[m].parent.value], k)
    ensures AtMost(sh.hi[m], k) ==> AtMost(sh.hi[nodes[m].parent.value], k)
  {
    assert NodeOk(nodes, sh, root, ov, m);
    var p := nodes[m].parent.value;
    assert NodeOk(nodes, sh, root, ov, p);
    var j :| 0 <= j < |nodes[p].children| && nodes[p].children[j] == Some(m);
    assert ChildOk(nodes, sh, p, j);
    if j > 0 {
      assert AtLeast(sh.lo[p], nodes[p].items[j - 1].key);
    }
    if j < |nodes[p].items| {
      assert AtMost(sh.hi[p], nodes[p].items[j].key);
    }
  }

  /** One step up from the ancestor at level `l` is the ancestor at level `l + 1`. */
  lemma {:induction false} AncestorStep(nodes: seq<TFNode>, sh: Shape, root: Option<NodeId>, ov: Option<NodeId>, m: NodeId, l: nat)
    requires Inv(nodes, sh, root, ov) && m < |nodes|
    requires sh.level[m] <= l < sh.level[root.value]
    ensures nodes[Ancestor(nodes, sh, root, ov, m, l)].parent == Some(Ancestor(nodes, sh, root, ov, m, l + 1))
    decreases l - sh.level[m]
  {
    assert NodeOk(nodes, sh, root, ov, m);
    if sh.level[m] == l {
      AncestorIsRoot(nodes, sh, root, ov, m);
      var p := nodes[m].parent.value;
      assert NodeOk(nodes, sh, root, ov, p);
      assert Ancestor(nodes, sh, root, ov, m, l + 1) == Ancestor(nodes, sh, root, ov, p, l + 1);
    } else {
      AncestorStep(nodes, sh, root, ov, nodes[m].parent.value, l);
    }
  }

  /** A key within a node's bounds is within the bounds of each of its ancestors. */
  lemma {:induction false} WithinAncestorBounds(nodes: seq<TFNode>, sh: Shape, root: Option<NodeId>, ov: Option<NodeId>,
                                                m: NodeId, l: nat, k: Obj)
    requires Inv(nodes, sh, root, ov) && m < |nodes|
    requires sh.level[m] <= l <= sh.level[root.value]
    requires AtLeast(sh.lo[m], k) && AtMost(sh.hi[m], k)
    ensures AtLeast(sh.lo[Ancestor(nodes, sh, root, ov, m, l)], k)
    ensures AtMost(sh.hi[Ancestor(nodes, sh, root, ov, m, l)], k)
    decreases l - sh.level[m]
  {
    if sh.level[m] < l {
      assert NodeOk(nodes, sh, root, ov, m);
      ParentBounds(nodes, sh, root, ov, m, k);
      WithinAncestorBounds(nodes, sh, root, ov, nodes[m].parent.value, l, k);
    }
  }

  /** Two sorted keys have been compared, so both are `Integer`s. */
  lemma SortedPairsAreInt(items: seq<Item>)
    requires SortedKeys(items)
    ensures |items| >= 2 ==> forall j :: 0 <= j < |items| ==> items[j].key.IntObj?
  {
    if |items| >= 2 {
      forall j | 0 <= j < |items|
        ensures items[j].key.IntObj?
      {
        if j == 0 {
          assert KeyLe(items[0].key, items[1].key);
        } else {
          assert KeyLe(items[0].key, items[j].key);
        }
      }
    }
  }

  /** Every node but the root has a bound from an item of its parent. */
  lemma ChildHasBound(nodes: seq<TFNode>, sh: Shape, root: Option<NodeId>, ov: Option<NodeId>, m: NodeId)
    requires Inv(nodes, sh, root, ov) && m < |nodes|
    ensures nodes[m].parent.Some? ==> sh.lo[m].Some? || sh.hi[m].Some?
  {
    assert NodeOk(nodes, sh, root, ov, m);
    if nodes[m].parent.Some? {
      var p := nodes[m].parent.value;
      assert NodeOk(nodes, sh, root, ov, p);
      var j :| 0 <= j < |nodes[p].children| && nodes[p].children[j] == Some(m);
      assert ChildOk(nodes, sh, p, j);
    }
  }

  /** A key that is not an `Integer` can only sit in a tree made of a single
      leaf holding a single item: anywhere else it would have been compared. */
  lemma NonIntOnlyInSingleLeaf(nodes: seq<TFNode>, sh: Shape, root: Option<NodeId>, ov: Option<NodeId>)
    requires Inv(nodes, sh, root, ov) && !AllInt(nodes)
    ensures root == Some(0) && |nodes| == 1 && |nodes[0].items| == 1 && sh.level[0] == 0
  {
    var n, i :| 0 <= n < |nodes| && 0 <= i < |nodes[n].items| && !nodes[n].items[i].key.IntObj?;
    assert NodeOk(nodes, sh, root, ov, n);
    assert sh.lo[n].None? && sh.hi[n].None? by {
      assert AtLeast(sh.lo[n], nodes[n].items[i].key) && AtMost(sh.hi[n], nodes[n].items[i].key);
    }
    SortedPairsAreInt(nodes[n].items);
    ChildHasBound(nodes, sh, root, ov, n);
    forall m | 0 <= m < |nodes|
      ensures sh.level[m] == 0 && m == n
    {
      assert NodeOk(nodes, sh, root, ov, m);
    }
    assert sh.level[0] == 0 && sh.level[|nodes| - 1] == 0;
  }

  /** Replacing one node swaps its items for the replacement's. */
  lemma {:induction false} AllItemsUpdate(nodes: seq<TFNode>, m: nat, t: TFNode)
    requires m < |nodes|
    ensures AllItems(nodes[m := t]) + multiset(nodes[m].items) == AllItems(nodes) + multiset(t.items)
  {
    var last := |nodes| - 1;
    if m < last {
      var u := nodes[m := t];
      assert u[..last] == nodes[..last][m := t];
      assert u[last] == nodes[last];
      AllItemsUpdate(nodes[..last], m, t);
      var a, b, l := AllItems(nodes[..last]), AllItems(u[..last]), multiset(nodes[last].items);
      var x, y := multiset(nodes[m].items), multiset(t.items);
      assert b + x == a + y;
      assert AllItems(u) == b + l;
      assert AllItems(nodes) == a + l;
      forall z
        ensures (b + l + x)[z] == (a + l + y)[z]
      {
        assert (b + x)[z] == (a + y)[z];
      }
    } else {
      assert nodes[m := t][..last] == nodes[..last];
    }
  }

  /** Arenas whose nodes hold the same items, slot by slot, hold the same items. */
  lemma {:induction false} AllItemsSameItems(a: seq<TFNode>, b: seq<TFNode>)
    requires |a| == |b| && forall i :: 0 <= i < |a| ==> a[i].items == b[i].items
    ensures AllItems(a) == AllItems(b)
  {
    if |a| > 0 {
      AllItemsSameItems(a[..|a| - 1], b[..|b| - 1]);
    }
  }

  /** An item sits in some node exactly when it is among all the items. */
  lemma {:induction false} AllItemsMembers(nodes: seq<TFNode>, x: Item)
    ensures x in AllItems(nodes) <==>
              exists n, i :: 0 <= n < |nodes| && 0 <= i < |nodes[n].items| && nodes[n].items[i] == x
  {
    if |nodes| > 0 {
      var last := |nodes| - 1;
      AllItemsMembers(nodes[..last], x);
      if x in AllItems(nodes[..last]) {
        var n, i :| 0 <= n < last && 0 <= i < |nodes[..last][n].items| && nodes[..last][n].items[i] == x;
        assert nodes[n].items[i] == x;
      } else if x in multiset(nodes[last].items) {
        var i :| 0 <= i < |nodes[last].items| && nodes[last].items[i] == x;
      } else {
        forall n, i | 0 <= n < |nodes| && 0 <= i < |nodes[n].items|
          ensures nodes[n].items[i] != x
        {
          if n < last {
            assert nodes[..last][n].items[i] == nodes[n].items[i];
          } else {
            assert nodes[n].items[i] in multiset(nodes[last].items);
          }
        }
      }
    }
  }

  /** A key is stored exactly when some item among all the items carries it. */
  lemma StoredByItems(nodes: seq<TFNode>, key: Obj)
    ensures Stored(nodes, key) <==> exists x :: x in AllItems(nodes) && x.key == key
  {
    if Stored(nodes, key) {
      var n, i :| 0 <= n < |nodes| && 0 <= i < |nodes[n].items| && nodes[n].items[i].key == key;
      AllItemsMembers(nodes, nodes[n].items[i]);
    } else {
      forall x | x in AllItems(nodes)
        ensures x.key != key
      {
        AllItemsMembers(nodes, x);
      }
    }
  }

  /** Every stored key is an `Integer` exactly when every item among all the
      items has one. */
  lemma AllIntByItems(nodes: seq<TFNode>)
    ensures AllInt(nodes) <==> forall x :: x in AllItems(nodes) ==> x.key.IntObj?
  {
    if AllInt(nodes) {
      forall x | x in AllItems(nodes)
        ensures x.key.IntObj?
      {
        AllItemsMembers(nodes, x);
      }
    } else {
      var n, i :| 0 <= n < |nodes| && 0 <= i < |nodes[n].items| && !nodes[n].items[i].key.IntObj?;
      AllItemsMembers(nodes, nodes[n].items[i]);
    }
  }

  /** A valid tree has a root exactly when it holds some item: the root of a
      non-empty tree holds at least one. */
  lemma EmptyIffNoItems(nodes: seq<TFNode>, sh: Shape, root: Option<NodeId>)
    ensures Inv(nodes, sh, root, None) ==> (root.None? <==> |AllItems(nodes)| == 0)
  {
    if Inv(nodes, sh, root, None) && root.Some? {
      assert NodeOk(nodes, sh, root, None, root.value);
      AllItemsMembers(nodes, nodes[root.value].items[0]);
    }
  }
}
