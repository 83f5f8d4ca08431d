/** `insert`, `search` and `minValueNode` (main.py:15-40). */
module SearchTree {
  import opened KeyOrder
  import opened BinaryTree

  /** `insert(root, key, value)`: descend by key; a new key becomes a leaf,
      an existing key has `value` added to its count. The tree is returned
      as the new subtree root, as the source returns `root`. */
  function Insert(t: Tree, k: Key, v: int): (r: Tree)
    ensures r.Node? && Keys(r) == Keys(t) + {k}
  {
    match t
    case Leaf => Node(k, v, Leaf, Leaf)
    case Node(key, value, l, rt) =>
      if Less(k, key) then Node(key, value, Insert(l, k, v), rt)
      else if Less(key, k) then Node(key, value, l, Insert(rt, k, v))
      else
        LessTotal(k, key);
        Node(key, value + v, l, rt)
  }

  lemma {:induction false} InsertPreservesOrder(t: Tree, k: Key, v: int)
    requires BST(t)
    ensures BST(Insert(t, k, v))
  {
    match t
    case Leaf =>
    case Node(key, value, l, rt) =>
      if Less(k, key) {
        InsertPreservesOrder(l, k, v);
      } else if Less(key, k) {
        InsertPreservesOrder(rt, k, v);
      }
  }

  /** Replacing one entry inside the left part of a node's table, when the
      right part and the node itself do not hold that key. */
  lemma UpdateLeftPart(a: map<Key, int>, b: map<Key, int>, key: Key, value: int, k: Key, x: int)
    requires k !in b && k != key
    ensures a[k := x] + b + map[key := value] == (a + b + map[key := value])[k := x]
  {
  }

  /** Replacing one entry inside the right part of a node's table, when the
      node itself does not hold that key. */
  lemma UpdateRightPart(a: map<Key, int>, b: map<Key, int>, key: Key, value: int, k: Key, x: int)
    requires k != key
    ensures a + b[k := x] + map[key := value] == (a + b + map[key := value])[k := x]
  {
  }

  /** Replacing the node's own entry in its table. */
  lemma UpdateTop(a: map<Key, int>, b: map<Key, int>, key: Key, value: int, x: int)
    ensures a + b + map[key := x] == (a + b + map[key := value])[key := x]
  {
  }

  /** The count `insert` leaves under `k`: the old count plus `v`, or `v`
      for a new key. */
  function Accumulated(m: map<Key, int>, k: Key, v: int): int
  {
    if k in m then m[k] + v else v
  }

  /** Inserting a present key adds `v` to its count, inserting a new key adds
      the entry `k := v`; every other entry is unchanged. */
  lemma {:induction false} InsertAccumulates(t: Tree, k: Key, v: int)
    requires BST(t)
    ensures Map(Insert(t, k, v)) == Map(t)[k := Accumulated(Map(t), k, v)]
  {
    match t
    case Leaf =>
    case Node(key, value, l, rt) =>
      if Less(k, key) {
        InsertAccumulates(l, k, v);
        InsertLeftStep(t, k, v);
      } else if Less(key, k) {
        InsertAccumulates(rt, k, v);
        InsertRightStep(t, k, v);
      } else {
        LessTotal(k, key);
        MapLookup(t, k);
        UpdateTop(Map(l), Map(rt), key, value, value + v);
      }
  }

  /** One step of `InsertAccumulates`: the key goes to the left subtree. */
  lemma InsertLeftStep(t: Tree, k: Key, v: int)
    requires BST(t) && t.Node? && Less(k, t.key)
    requires Map(Insert(t.left, k, v)) == Map(t.left)[k := Accumulated(Map(t.left), k, v)]
    ensures Map(Insert(t, k, v)) == Map(t)[k := Accumulated(Map(t), k, v)]
  {
    var x := Accumulated(Map(t), k, v);
    LessIrreflexive(t.key);
    if k in Keys(t.right) {
      LessAsymmetric(k, t.key);
    }
    assert Accumulated(Map(t.left), k, v) == x by {
      MapLookup(t, k);
    }
    calc {
      Map(Insert(t, k, v));
      Map(Insert(t.left, k, v)) + Map(t.right) + map[t.key := t.value];
      Map(t.left)[k := x] + Map(t.right) + map[t.key := t.value];
      { UpdateLeftPart(Map(t.left), Map(t.right), t.key, t.value, k, x); }
      Map(t)[k := x];
    }
  }

  /** One step of `InsertAccumulates`: the key goes to the right subtree. */
  lemma InsertRightStep(t: Tree, k: Key, v: int)
    requires BST(t) && t.Node? && Less(t.key, k)
    requires Map(Insert(t.right, k, v)) == Map(t.right)[k := Accumulated(Map(t.right), k, v)]
    ensures Map(Insert(t, k, v)) == Map(t)[k := Accumulated(Map(t), k, v)]
  {
    var x := Accumulated(Map(t), k, v);
    LessIrreflexive(t.key);
    LessAsymmetric(t.key, k);
    assert Accumulated(Map(t.right), k, v) == x by {
      MapLookup(t, k);
    }
    calc {
      Map(Insert(t, k, v));
      Map(t.left) + Map(Insert(t.right, k, v)) + map[t.key := t.value];
      Map(t.left) + Map(t.right)[k := x] + map[t.key := t.value];
      { UpdateRightPart(Map(t.left), Map(t.right), t.key, t.value, k, x); }
      Map(t)[k := x];
    }
  }

  /** Inserting a present key adds no node; a new key adds exactly one. */
  lemma {:induction false} InsertSize(t: Tree, k: Key, v: int)
    requires BST(t)
    ensures Size(Insert(t, k, v)) == if k in Keys(t) then Size(t) else Size(t) + 1
  {
    match t
    case Leaf =>
    case Node(key, value, l, rt) =>
      LessIrreflexive(key);
      if Less(k, key) {
        InsertSize(l, k, v);
        if k in Keys(rt) {
          LessAsymmetric(k, key);
        }
      } else if Less(key, k) {
        InsertSize(rt, k, v);
        if k in Keys(l) {
          LessAsymmetric(key, k);
        }
      } else {
        LessTotal(k, key);
      }
  }

  /** `search(root, key)`: the node holding `key`, or `Leaf` for Python's
      `None`. The node found is part of the tree and holds the key asked for. */
  function Search(t: Tree, k: Key): (r: Tree)
    ensures r.Node? ==> r.key == k && SubtreeOf(r, t)
  {
    if t == Leaf || t.key == k then t
    else if Less(k, t.key) then Search(t.left, k)
    else Search(t.right, k)
  }

  /** On a search tree, `search` finds exactly the keys of the tree, and the
      node it finds carries that key's count. */
  lemma {:induction false} SearchFindsPresentKeys(t: Tree, k: Key)
    requires BST(t)
    ensures Search(t, k).Node? <==> k in Keys(t)
    ensures Search(t, k).Node? ==> Search(t, k).value == Map(t)[k]
  {
    if t.Node? && t.key != k {
      MapLookup(t, k);
      if Less(k, t.key) {
        SearchFindsPresentKeys(t.left, k);
        if k in Keys(t.right) {
          LessAsymmetric(k, t.key);
        }
      } else {
        SearchFindsPresentKeys(t.right, k);
        LessTotal(k, t.key);
      }
    } else if t.Node? {
      MapLookup(t, k);
    }
  }

  /** The node `minValueNode` stops at: follow `left` until there is none. */
  function Leftmost(t: Tree): (m: Tree)
    requires t.Node?
    ensures m.Node? && m.left == Leaf && m.key in Keys(t) && SubtreeOf(m, t)
  {
    if t.left == Leaf then t else Leftmost(t.left)
  }

  /** On a search tree the leftmost node holds the least key, and its count
      is that key's entry in the table. */
  lemma {:induction false} LeftmostIsMinimum(t: Tree)
    requires BST(t) && t.Node?
    ensures forall x :: x in Keys(t) ==> x == Leftmost(t).key || Less(Leftmost(t).key, x)
    ensures Map(t)[Leftmost(t).key] == Leftmost(t).value
  {
    var m := Leftmost(t);
    MapLookup(t, m.key);
    if t.left != Leaf {
      LeftmostIsMinimum(t.left);
      forall x | x in Keys(t)
        ensures x == m.key || Less(m.key, x)
      {
        if x in Keys(t.right) {
          LessTransitive(m.key, t.key, x);
        }
      }
    }
  }

  /** `minValueNode(node)`: a cursor walks down `left` links. The caller
      passes a node, never `None`. */
  method MinValueNode(node: Tree) returns (current: Tree)
    requires node.Node?
    ensures current == Leftmost(node)
    ensures current.Node? && current.left == Leaf
  {
    current := node;
    while current.left != Leaf
      invariant current.Node? && Leftmost(current) == Leftmost(node)
      decreases current
    {
      current := current.left;
    }
  }
}
