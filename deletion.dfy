/** `deleteNode` (main.py:43-75): deletion by key with an operation counter. */
module Deletion {
  import opened KeyOrder
  import opened BinaryTree
  import opened SearchTree

  /** `deleteNode(root, key, operations)`: returns the new subtree root and
      the counter. Each descent step adds one after the recursive call; a
      node with at most one child is replaced by that child and adds one; a
      node with two children takes the key and count of its in-order
      successor (the leftmost node of its right subtree) and the successor's
      key is then deleted from the right subtree, adding nothing at this
      level. The counter only grows and no key is added. */
  function DeleteNode(t: Tree, k: Key, ops: int): (r: (Tree, int))
    ensures r.1 >= ops && Keys(r.0) <= Keys(t)
  {
    match t
    case Leaf => (Leaf, ops)
    case Node(key, value, l, rt) =>
      if Less(k, key) then
        var (l', n) := DeleteNode(l, k, ops);
        (Node(key, value, l', rt), n + 1)
      else if Less(key, k) then
        var (rt', n) := DeleteNode(rt, k, ops);
        (Node(key, value, l, rt'), n + 1)
      else if l == Leaf then (rt, ops + 1)
      else if rt == Leaf then (l, ops + 1)
      else
        var successor := Leftmost(rt);
        var (rt', n) := DeleteNode(rt, successor.key, ops);
        (Node(successor.key, successor.value, l, rt'), n)
  }

  /** The number of nodes a descent for `k` passes, counting the node that
      holds `k` when it is found. */
  function PathLength(t: Tree, k: Key): nat
  {
    match t
    case Leaf => 0
    case Node(key, _, l, rt) =>
      if Less(k, key) then PathLength(l, k) + 1
      else if Less(key, k) then PathLength(rt, k) + 1
      else 1
  }

  /** The number of nodes on the chain of `left` links from the root. */
  function LeftSpine(t: Tree): nat
  {
    if t == Leaf then 0 else LeftSpine(t.left) + 1
  }

  /** Deleting an absent key (an empty tree included) leaves the tree as it
      was; the counter grows by one per node on the failed descent. */
  lemma {:induction false} DeleteAbsentKey(t: Tree, k: Key, ops: int)
    requires k !in Keys(t)
    ensures DeleteNode(t, k, ops) == (t, ops + PathLength(t, k))
  {
    match t
    case Leaf =>
    case Node(key, value, l, rt) =>
      if Less(k, key) {
        DeleteAbsentKey(l, k, ops);
      } else if Less(key, k) {
        DeleteAbsentKey(rt, k, ops);
      } else {
        LessTotal(k, key);
      }
  }

  /** Removing a key held only in the left part of a node's table. */
  lemma RemoveFromLeftPart(a: map<Key, int>, b: map<Key, int>, key: Key, value: int, k: Key)
    requires k !in b && k != key
    ensures (a - {k}) + b + map[key := value] == (a + b + map[key := value]) - {k}
  {
  }

  /** Removing a key held only in the right part of a node's table. */
  lemma RemoveFromRightPart(a: map<Key, int>, b: map<Key, int>, key: Key, value: int, k: Key)
    requires k !in a && k != key
    ensures a + (b - {k}) + map[key := value] == (a + b + map[key := value]) - {k}
  {
  }

  /** Removing the node's own key by moving the successor's entry up. */
  lemma RemoveBySuccessor(a: map<Key, int>, b: map<Key, int>, key: Key, value: int, s: Key)
    requires key !in a && key !in b && s !in a && s in b
    ensures a + (b - {s}) + map[s := b[s]] == (a + b + map[key := value]) - {key}
  {
  }

  /** Removing the node's own key when it has at most one child. */
  lemma RemoveTop(a: map<Key, int>, b: map<Key, int>, key: Key, value: int)
    requires key !in a && key !in b
    ensures a + b == (a + b + map[key := value]) - {key}
  {
  }

  /** On a search tree, deletion removes exactly the entry for `k`: the
      table afterwards is the old one without `k`, every other count kept. */
  lemma {:induction false} DeleteRemovesKey(t: Tree, k: Key, ops: int)
    requires BST(t)
    ensures Map(DeleteNode(t, k, ops).0) == Map(t) - {k}
  {
    match t
    case Leaf =>
    case Node(key, value, l, rt) =>
      SidesDisjoint(t);
      LessIrreflexive(key);
      if Less(k, key) {
        DeleteRemovesKey(l, k, ops);
        if k in Keys(rt) {
          LessAsymmetric(k, key);
        }
        RemoveFromLeftPart(Map(l), Map(rt), key, value, k);
      } else if Less(key, k) {
        DeleteRemovesKey(rt, k, ops);
        LessAsymmetric(key, k);
        RemoveFromRightPart(Map(l), Map(rt), key, value, k);
      } else {
        LessTotal(k, key);
        if l != Leaf && rt != Leaf {
          var s := Leftmost(rt);
          DeleteRemovesKey(rt, s.key, ops);
          LeftmostIsMinimum(rt);
          RemoveBySuccessor(Map(l), Map(rt), key, value, s.key);
        } else {
          RemoveTop(Map(l), Map(rt), key, value);
        }
      }
  }

  /** Deletion keeps a search tree a search tree. */
  lemma {:induction false} DeletePreservesOrder(t: Tree, k: Key, ops: int)
    requires BST(t)
    ensures BST(DeleteNode(t, k, ops).0)
  {
    match t
    case Leaf =>
    case Node(key, value, l, rt) =>
      if Less(k, key) {
        DeletePreservesOrder(l, k, ops);
      } else if Less(key, k) {
        DeletePreservesOrder(rt, k, ops);
        LessAsymmetric(key, k);
      } else if l != Leaf && rt != Leaf {
        var s := Leftmost(rt);
        var rt' := DeleteNode(rt, s.key, ops).0;
        DeletePreservesOrder(rt, s.key, ops);
        DeleteRemovesKey(rt, s.key, ops);
        LessIrreflexive(key);
        assert DeleteNode(t, k, ops).0 == Node(s.key, s.value, l, rt');
        LeftmostIsMinimum(rt);
        forall x | x in Keys(l)
          ensures Less(x, s.key)
        {
          LessTransitive(x, key, s.key);
        }
        assert Keys(rt') == Keys(rt) - {s.key};
      }
  }

  /** The exact count `deleteNode` returns for a present key: one per node
      on the descent to it, and when that node has two children, one per
      node on the successor's left chain instead of one for the node itself. */
  lemma {:induction false} DeleteCount(t: Tree, k: Key, ops: int)
    requires BST(t) && k in Keys(t)
    ensures var found := Search(t, k);
            found.Node? &&
            DeleteNode(t, k, ops).1 ==
              ops + PathLength(t, k) +
              (if found.left != Leaf && found.right != Leaf then LeftSpine(found.right) - 1 else 0)
  {
    var Node(key, value, l, rt) := t;
    SearchFindsPresentKeys(t, k);
    if Less(k, key) {
      LessAsymmetric(k, key);
      DeleteCount(l, k, ops);
    } else if Less(key, k) {
      LessAsymmetric(key, k);
      DeleteCount(rt, k, ops);
    } else {
      LessTotal(k, key);
      if l != Leaf && rt != Leaf {
        var s := Leftmost(rt);
        DeleteCount(rt, s.key, ops);
        LeftmostSearch(rt);
      }
    }
  }

  /** On a search tree the descent for the least key follows the left chain
      and ends at the leftmost node. */
  lemma {:induction false} LeftmostSearch(t: Tree)
    requires BST(t) && t.Node?
    ensures Search(t, Leftmost(t).key) == Leftmost(t)
    ensures PathLength(t, Leftmost(t).key) == LeftSpine(t)
  {
    if t.left != Leaf {
      LeftmostSearch(t.left);
      var m := Leftmost(t);
      assert m.key in Keys(t.left);
      LessAsymmetric(m.key, t.key);
      LessIrreflexive(t.key);
    }
  }

  /** Deleting a key and then searching for it finds nothing, while every
      other key is still found with its old count. */
  lemma DeleteThenSearch(t: Tree, k: Key, ops: int, other: Key)
    requires BST(t) && other != k
    ensures Search(DeleteNode(t, k, ops).0, k) == Leaf
    ensures Search(DeleteNode(t, k, ops).0, other).Node? <==> Search(t, other).Node?
    ensures Search(t, other).Node? ==>
              Search(DeleteNode(t, k, ops).0, other).value == Search(t, other).value
  {
    var t' := DeleteNode(t, k, ops).0;
    DeleteRemovesKey(t, k, ops);
    DeletePreservesOrder(t, k, ops);
    SearchFindsPresentKeys(t, k);
    SearchFindsPresentKeys(t, other);
    SearchFindsPresentKeys(t', k);
    SearchFindsPresentKeys(t', other);
  }
}
