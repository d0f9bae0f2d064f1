/** Searching the 2-4 tree: the scan of one node for the first item whose key
    is at least the search key, and the descent from a node to the node that
    holds the key. */
module TreeSearch {
  import opened Objects
  import opened IntegerComparator
  import opened TFNodes
  import opened TreeShape

  /** The scan of `findFirstGreaterThanOrEqualTo` from index `i` on: each item's
      key is compared with `isGreaterThanOrEqualTo`, which may throw. */
  function FirstGEFrom(items: seq<Item>, key: Obj, i: nat): (r: Result<nat>)
    requires i <= |items|
    ensures r.Ok? ==> i <= r.value <= |items|
    ensures r.Ok? ==> forall j :: i <= j < r.value ==> KeyLt(items[j].key, key)
    ensures r.Ok? && r.value < |items| ==> KeyLe(key, items[r.value].key)
    ensures r.Err? ==> r.error == InvalidObject
    ensures key.IntObj? && (forall j :: i <= j < |items| ==> items[j].key.IntObj?) ==> r.Ok?
    ensures i < |items| && !(key.IntObj? && items[i].key.IntObj?) ==> r.Err?
    decreases |items| - i
  {
    if i == |items| then Ok(i)
    else
      match IsGreaterThanOrEqualTo(items[i].key, key)
      case Err(e) => Err(e)
      case Ok(ge) => if ge then Ok(i) else FirstGEFrom(items, key, i + 1)
  }

  /** The index `findFirstGreaterThanOrEqualTo` returns for a node's items. */
  function FirstGE(items: seq<Item>, key: Obj): Result<nat> {
    FirstGEFrom(items, key, 0)
  }

  /** `findFirstGreaterThanOrEqualTo`: the index of the first item whose key is
      at least `key`, or the number of items when there is none. */
  method FindFirstGreaterThanOrEqualTo(t: TFNode, key: Obj) returns (r: Result<nat>)
    ensures r == FirstGE(t.items, key)
  {
    var i := 0;
    while i < |t.items|
      invariant 0 <= i <= |t.items|
      invariant FirstGEFrom(t.items, key, 0) == FirstGEFrom(t.items, key, i)
    {
      var ge := IsGreaterThanOrEqualTo(t.items[i].key, key);
      if ge.Err? {
        return Err(ge.error);
      }
      if ge.value {
        return Ok(i);
      }
      i := i + 1;
    }
    return Ok(i);
  }

  /** On sorted keys, the scan lands on the first slot whose key is at least
      `key`: a stored key equal to `key` is found at or after every smaller one. */
  lemma FirstGEOnSorted(items: seq<Item>, key: Obj, p: nat)
    requires SortedKeys(items) && p < |items| && items[p].key == key && key.IntObj?
    requires forall j :: 0 <= j < |items| ==> items[j].key.IntObj?
    ensures FirstGE(items, key).Ok?
    ensures FirstGE(items, key).value <= p
    ensures items[FirstGE(items, key).value].key == key
  {
    var i := FirstGE(items, key).value;
    assert !KeyLt(items[p].key, key);
    if i < p {
      assert KeyLe(items[i].key, items[p].key);
    }
  }

  /** `FFGTENode`: descend from node `t` to the node holding an item whose key
      equals `key`; `None` when the descent runs off a leaf. */
  function FFGTENode(nodes: seq<TFNode>, t: Option<NodeId>, key: Obj,
                     ghost sh: Shape, ghost root: Option<NodeId>): (r: Result<Option<NodeId>>)
    requires Inv(nodes, sh, root, None) && (t.Some? ==> t.value < |nodes|)
    ensures t.None? ==> r == Ok(None)
    ensures r.Err? ==> r.error == InvalidObject
    ensures r.Ok? && r.value.Some? ==>
              r.value.value < |nodes| &&
              FirstGE(nodes[r.value.value].items, key).Ok? &&
              FirstGE(nodes[r.value.value].items, key).value < |nodes[r.value.value].items| &&
              nodes[r.value.value].items[FirstGE(nodes[r.value.value].items, key).value].key == key
    decreases if t.Some? then sh.level[t.value] + 1 else 0
  {
    if t.None? then Ok(None)
    else
      assert NodeOk(nodes, sh, root, None, t.value);
      var current := nodes[t.value];
      match FirstGE(current.items, key)
      case Err(e) => Err(e)
      case Ok(index) =>
        assert sh.level[t.value] > 0 ==> ChildOk(nodes, sh, t.value, index);
        if index == |current.items| then
          FFGTENode(nodes, current.children[index], key, sh, root)
        else
          match IsEqual(current.items[index].key, key)
          case Err(e) => Err(e)
          case Ok(eq) =>
            if eq then Ok(t) else FFGTENode(nodes, current.children[index], key, sh, root)
  }

  /** A key stored anywhere below node `n` is found by the descent from `n`:
      at each node the first item at least `key` either equals it or sits just
      right of the child slot whose bounds admit it. */
  lemma {:induction false} FFGTENodeFinds(nodes: seq<TFNode>, sh: Shape, root: Option<NodeId>,
                                          n: NodeId, m: NodeId, p: nat, key: Obj)
    requires Inv(nodes, sh, root, None) && AllInt(nodes) && key.IntObj?
    requires n < |nodes| && m < |nodes| && p < |nodes[m].items| && nodes[m].items[p].key == key
    requires sh.level[m] <= sh.level[n] <= sh.level[root.value]
    requires Ancestor(nodes, sh, root, None, m, sh.level[n]) == n
    ensures FFGTENode(nodes, Some(n), key, sh, root).Ok?
    ensures FFGTENode(nodes, Some(n), key, sh, root).value.Some?
    decreases sh.level[n]
  {
    assert NodeOk(nodes, sh, root, None, n);
    var items := nodes[n].items;
    var i := FirstGE(items, key).value;
    if m == n {
      FirstGEOnSorted(items, key, p);
      return;
    }
    if i < |items| && items[i].key == key {
      return;
    }
    var l := sh.level[n] - 1;
    var c := Ancestor(nodes, sh, root, None, m, l);
    AncestorStep(nodes, sh, root, None, m, l);
    assert NodeOk(nodes, sh, root, None, c);
    var j :| 0 <= j < |nodes[n].children| && nodes[n].children[j] == Some(c);
    assert ChildOk(nodes, sh, n, j);
    assert NodeOk(nodes, sh, root, None, m);
    assert AtLeast(sh.lo[m], key) && AtMost(sh.hi[m], key);
    WithinAncestorBounds(nodes, sh, root, None, m, l, key);
    assert j == i;
    FFGTENodeFinds(nodes, sh, root, c, m, p, key);
  }

  /** Search correctness: on a tree of `Integer` keys, the descent from the root
      never throws, and it finds a node exactly when some node stores the key. */
  lemma SearchFindsStoredKeys(nodes: seq<TFNode>, sh: Shape, root: Option<NodeId>, key: Obj)
    requires Inv(nodes, sh, root, None) && AllInt(nodes) && key.IntObj?
    ensures FFGTENode(nodes, root, key, sh, root).Ok?
    ensures FFGTENode(nodes, root, key, sh, root).value.Some? <==> Stored(nodes, key)
  {
    if Stored(nodes, key) {
      var m, p :| 0 <= m < |nodes| && 0 <= p < |nodes[m].items| && nodes[m].items[p].key == key;
      AncestorIsRoot(nodes, sh, root, None, m);
      FFGTENodeFinds(nodes, sh, root, root.value, m, p, key);
    } else if root.Some? {
      NoFailureOnIntegers(nodes, sh, root, root.value, key);
    }
  }

  /** On `Integer` keys no comparison of the descent throws. */
  lemma {:induction false} NoFailureOnIntegers(nodes: seq<TFNode>, sh: Shape, root: Option<NodeId>, n: NodeId, key: Obj)
    requires Inv(nodes, sh, root, None) && AllInt(nodes) && key.IntObj? && n < |nodes|
    ensures FFGTENode(nodes, Some(n), key, sh, root).Ok?
    decreases sh.level[n]
  {
    assert NodeOk(nodes, sh, root, None, n);
    var i := FirstGE(nodes[n].items, key).value;
    if sh.level[n] > 0 {
      assert ChildOk(nodes, sh, n, i);
      NoFailureOnIntegers(nodes, sh, root, nodes[n].children[i].value, key);
    }
  }

  /** In a tree holding a key that is not an `Integer`, or searched with such a
      key, the very first comparison at the root throws. */
  lemma RootComparisonFails(nodes: seq<TFNode>, sh: Shape, root: Option<NodeId>, ov: Option<NodeId>, key: Obj)
    requires Inv(nodes, sh, root, ov) && root.Some? && !(AllInt(nodes) && key.IntObj?)
    ensures FirstGE(nodes[root.value].items, key).Err?
  {
    assert NodeOk(nodes, sh, root, ov, root.value);
    if key.IntObj? {
      NonIntOnlyInSingleLeaf(nodes, sh, root, ov);
    }
  }

  /** What the descent from the root gives on any valid tree: it throws at
      once when a stored key or the search key is not an `Integer`, and
      otherwise finds a node exactly when the key is stored. */
  lemma SearchOutcome(nodes: seq<TFNode>, sh: Shape, root: Option<NodeId>, key: Obj)
    requires Inv(nodes, sh, root, None)
    ensures root.Some? && !(AllInt(nodes) && key.IntObj?) ==> FFGTENode(nodes, root, key, sh, root).Err?
    ensures AllInt(nodes) && key.IntObj? ==>
              FFGTENode(nodes, root, key, sh, root).Ok? &&
              (FFGTENode(nodes, root, key, sh, root).value.Some? <==> Stored(nodes, key))
  {
    if AllInt(nodes) && key.IntObj? {
      SearchFindsStoredKeys(nodes, sh, root, key);
    } else if root.Some? {
      RootComparisonFails(nodes, sh, root, None, key);
    }
  }

  /** The leaf the descent of `insertElement` reaches from node `t`: at each
      node it follows the child slot at the first item at least `key`. */
  function DescendLeaf(nodes: seq<TFNode>, t: NodeId, key: Obj, ghost sh: Shape, ghost root: Option<NodeId>): (x: NodeId)
    requires Inv(nodes, sh, root, None) && t < |nodes| && AllInt(nodes) && key.IntObj?
    ensures x < |nodes| && sh.level[x] == 0
    ensures Above(sh.lo[t], key) && AtMost(sh.hi[t], key) ==> Above(sh.lo[x], key) && AtMost(sh.hi[x], key)
    decreases sh.level[t]
  {
    assert NodeOk(nodes, sh, root, None, t);
    var i := FirstGE(nodes[t].items, key).value;
    assert sh.level[t] > 0 ==> ChildOk(nodes, sh, t, i);
    if nodes[t].children[i].None? then t
    else
      assert i > 0 ==> KeyLt(nodes[t].items[i - 1].key, key);
      DescendLeaf(nodes, nodes[t].children[i].value, key, sh, root)
  }
}
