/** The tree of `TreeNode`s (main.py:7-12) as a value, and the abstractions
    its operations are specified against: the key set, the key-to-count
    table it represents, the search-tree ordering, its size and the
    multiset of its (key, value) pairs. */
module BinaryTree {
  import opened KeyOrder

  /** `Leaf` is Python's `None`; a `Node` is a `TreeNode` with its children. */
  datatype Tree = Leaf | Node(key: Key, value: int, left: Tree, right: Tree)

  function Keys(t: Tree): set<Key>
  {
    match t
    case Leaf => {}
    case Node(k, _, l, r) => Keys(l) + Keys(r) + {k}
  }

  /** The frequency table the tree stands for. */
  function Map(t: Tree): (m: map<Key, int>)
    ensures m.Keys == Keys(t)
  {
    match t
    case Leaf => map[]
    case Node(k, v, l, r) => Map(l) + Map(r) + map[k := v]
  }

  /** Every key in a left subtree is below its node's key, every key in a
      right subtree above it. */
  predicate BST(t: Tree)
  {
    match t
    case Leaf => true
    case Node(k, _, l, r) =>
      BST(l) && BST(r) &&
      (forall x :: x in Keys(l) ==> Less(x, k)) &&
      (forall x :: x in Keys(r) ==> Less(k, x))
  }

  function Size(t: Tree): nat
  {
    match t
    case Leaf => 0
    case Node(_, _, l, r) => Size(l) + Size(r) + 1
  }

  /** The (key, value) pair held at the root, if any. */
  function Top(t: Tree): multiset<(Key, int)>
  {
    if t.Node? then multiset{(t.key, t.value)} else multiset{}
  }

  /** All (key, value) pairs held in the tree, one per node. */
  function Pairs(t: Tree): multiset<(Key, int)>
  {
    if t == Leaf then multiset{} else multiset{(t.key, t.value)} + Pairs(t.left) + Pairs(t.right)
  }

  lemma {:induction false} PairsCount(t: Tree)
    ensures |Pairs(t)| == Size(t)
  {
    if t != Leaf {
      PairsCount(t.left);
      PairsCount(t.right);
    }
  }

  /** `s` is `t` or one of the nodes below it: what a node reference returned
      by a descent points at. */
  predicate SubtreeOf(s: Tree, t: Tree)
  {
    s == t || (t.Node? && (SubtreeOf(s, t.left) || SubtreeOf(s, t.right)))
  }

  lemma {:induction false} SubtreeKeys(s: Tree, t: Tree)
    requires SubtreeOf(s, t)
    ensures Keys(s) <= Keys(t)
  {
    if s != t {
      if SubtreeOf(s, t.left) {
        SubtreeKeys(s, t.left);
      } else {
        SubtreeKeys(s, t.right);
      }
    }
  }

  /** In a search tree the root key is in neither subtree and the two
      subtrees share no key. */
  lemma SidesDisjoint(t: Tree)
    requires BST(t) && t.Node?
    ensures t.key !in Keys(t.left) && t.key !in Keys(t.right)
    ensures Keys(t.left) !! Keys(t.right)
  {
    LessIrreflexive(t.key);
    forall x | x in Keys(t.left) && x in Keys(t.right)
      ensures false
    {
      LessTransitive(x, t.key, x);
      LessIrreflexive(x);
    }
  }

  /** The table of a search tree reads each key from the side its order
      says: the root, the left subtree or the right subtree. */
  lemma MapLookup(t: Tree, x: Key)
    requires BST(t) && t.Node?
    ensures x in Keys(t.left) ==> Map(t)[x] == Map(t.left)[x]
    ensures x in Keys(t.right) ==> Map(t)[x] == Map(t.right)[x]
    ensures Map(t)[t.key] == t.value
  {
    SidesDisjoint(t);
  }

  /** Every pair's key is a key of the tree. */
  lemma {:induction false} PairKeys(t: Tree, p: (Key, int))
    requires p in Pairs(t)
    ensures p.0 in Keys(t)
  {
    if p in Pairs(t.left) {
      PairKeys(t.left, p);
    } else if p in Pairs(t.right) {
      PairKeys(t.right, p);
    }
  }

  /** In a search tree each pair is an entry of the table. */
  lemma {:induction false} PairInTable(t: Tree, p: (Key, int))
    requires BST(t) && p in Pairs(t)
    ensures p.0 in Map(t) && Map(t)[p.0] == p.1
  {
    var Node(k, v, l, r) := t;
    MapLookup(t, p.0);
    if p in Pairs(l) {
      PairInTable(l, p);
      PairKeys(l, p);
    } else if p in Pairs(r) {
      PairInTable(r, p);
      PairKeys(r, p);
    }
  }

  /** In a search tree no pair occurs twice. */
  lemma {:induction false} PairOnce(t: Tree, p: (Key, int))
    requires BST(t)
    ensures Pairs(t)[p] <= 1
  {
    match t
    case Leaf =>
    case Node(k, v, l, r) =>
      PairOnce(l, p);
      PairOnce(r, p);
      SidesDisjoint(t);
      if p in Pairs(l) {
        PairKeys(l, p);
      }
      if p in Pairs(r) {
        PairKeys(r, p);
      }
      assert Pairs(t)[p] == multiset{(k, v)}[p] + Pairs(l)[p] + Pairs(r)[p];
  }

  /** In a search tree every entry of the table is a pair of the tree. */
  lemma {:induction false} EntryInPairs(t: Tree, x: Key)
    requires BST(t) && x in Map(t)
    ensures (x, Map(t)[x]) in Pairs(t)
  {
    var Node(k, v, l, r) := t;
    MapLookup(t, x);
    if x in Keys(l) {
      EntryInPairs(l, x);
    } else if x in Keys(r) {
      EntryInPairs(r, x);
    }
  }
}
