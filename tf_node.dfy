/** A node of the 2-4 tree and the handful of node operations the tree calls.
    A node lives in the tree's arena and is named by its index there; `null`
    child and parent references are `None`. */
module TFNodes {
  import opened Objects

  /** A key/element association. */
  datatype Item = Item(key: Obj, element: Obj)

  /** The index of a node in the tree's arena. */
  type NodeId = nat

  /** `items` holds `numItems` entries; `children` holds the child slots
      0..numItems, each a node or `None`. */
  datatype TFNode = TFNode(items: seq<Item>, children: seq<Option<NodeId>>, parent: Option<NodeId>)
  {
    /** The slot layout every node keeps: one more child slot than items. */
    predicate Shaped() {
      |children| == |items| + 1
    }
  }

  /** `new TFNode()`: no items, one empty child slot, no parent. */
  function NewNode(): (t: TFNode)
    ensures t.Shaped() && t.items == [] && t.children == [None] && t.parent.None?
  {
    TFNode([], [None], None)
  }

  /** `insertItem(i, x)`: the items and the child slots at and after `i` move
      one place right; `x` takes item slot `i` and child slot `i` is left empty. */
  function InsertItem(t: TFNode, i: nat, x: Item): (r: TFNode)
    requires t.Shaped() && i <= |t.items|
    ensures r.Shaped() && r.parent == t.parent && |r.items| == |t.items| + 1
    ensures r.items[i] == x && r.children[i].None?
    ensures r.items[..i] == t.items[..i] && r.items[i + 1..] == t.items[i..]
    ensures r.children[..i] == t.children[..i] && r.children[i + 1..] == t.children[i..]
  {
    t.(items := t.items[..i] + [x] + t.items[i..],
       children := t.children[..i] + [None] + t.children[i..])
  }

  /** `removeItem(i)`: item `i` and child slot `i` are dropped and everything
      after them moves one place left. */
  function RemoveItem(t: TFNode, i: nat): (r: TFNode)
    requires t.Shaped() && i < |t.items|
    ensures r.Shaped() && r.parent == t.parent && |r.items| == |t.items| - 1
    ensures r.items[..i] == t.items[..i] && r.items[i..] == t.items[i + 1..]
    ensures r.children[..i] == t.children[..i] && r.children[i..] == t.children[i + 1..]
  {
    t.(items := t.items[..i] + t.items[i + 1..],
       children := t.children[..i] + t.children[i + 1..])
  }

  /** `setChild(i, c)`: a plain write of child slot `i`. */
  function SetChild(t: TFNode, i: nat, c: Option<NodeId>): (r: TFNode)
    requires i < |t.children|
    ensures r.items == t.items && r.parent == t.parent && r.children == t.children[i := c]
  {
    t.(children := t.children[i := c])
  }

  /** `setParent(p)`: a plain write of the parent reference. */
  function SetParent(t: TFNode, p: Option<NodeId>): (r: TFNode)
    ensures r.items == t.items && r.children == t.children && r.parent == p
  {
    t.(parent := p)
  }

  /** Inserting an item and then removing it gives the node back: the two
      shifts are inverse to each other. */
  lemma {:induction false} RemoveUndoesInsert(t: TFNode, i: nat, x: Item)
    requires t.Shaped() && i <= |t.items|
    ensures RemoveItem(InsertItem(t, i, x), i) == t
  {
    var r := RemoveItem(InsertItem(t, i, x), i);
    assert r.items == t.items[..i] + t.items[i..];
    assert r.children == t.children[..i] + t.children[i..];
    assert t.items == t.items[..i] + t.items[i..];
    assert t.children == t.children[..i] + t.children[i..];
  }

  /** Inserting an item at `i` and then filling child slots `i` and `i + 1`
      puts the two new children on either side of the new item. */
  lemma InsertThenLink(t: TFNode, i: nat, x: Item, a: NodeId, b: NodeId)
    requires t.Shaped() && i <= |t.items|
    ensures SetChild(SetChild(InsertItem(t, i, x), i, Some(a)), i + 1, Some(b)) ==
            TFNode(t.items[..i] + [x] + t.items[i..], t.children[..i] + [Some(a), Some(b)] + t.children[i + 1..], t.parent)
  {
    var r := SetChild(SetChild(InsertItem(t, i, x), i, Some(a)), i + 1, Some(b));
    var cs := t.children[..i] + [Some(a), Some(b)] + t.children[i + 1..];
    assert |r.children| == |cs|;
    forall k | 0 <= k < |cs|
      ensures r.children[k] == cs[k]
    {
      if k > i + 1 {
        assert r.children[k] == InsertItem(t, i, x).children[k];
      }
    }
  }

  /** Removing item 2 twice from a four-item node and putting back its third
      child leaves the two smallest items and the first three children. */
  lemma KeepLowerHalf(t: TFNode)
    requires t.Shaped() && |t.items| == 4
    ensures SetChild(RemoveItem(RemoveItem(t, 2), 2), 2, t.children[2]) ==
            TFNode(t.items[..2], t.children[..3], t.parent)
  {
    var r := SetChild(RemoveItem(RemoveItem(t, 2), 2), 2, t.children[2]);
    assert r.items == t.items[..2];
    assert r.children == t.children[..3];
  }

  /** Inserting into a node whose child slots are all empty leaves them all
      empty: the new slot is empty too. */
  lemma InsertIntoChildless(t: TFNode, i: nat, x: Item)
    requires t.Shaped() && i <= |t.items| && forall k :: 0 <= k < |t.children| ==> t.children[k].None?
    ensures forall k :: 0 <= k < |InsertItem(t, i, x).children| ==> InsertItem(t, i, x).children[k].None?
  {
    var cs := InsertItem(t, i, x).children;
    forall k | 0 <= k < |cs|
      ensures cs[k].None?
    {
      if k < i {
        assert cs[k] == t.children[..i][k];
      } else if k > i {
        assert cs[k] == t.children[i..][k - i - 1];
      }
    }
  }
}
