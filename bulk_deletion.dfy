/** `deleteNodesByValue` (main.py:77-125): a breadth-first pass that drops
    every node whose count equals a value, then a rebuild of the tree from
    the nodes kept. */
module BulkDeletion {
  import opened KeyOrder
  import opened BinaryTree
  import opened SearchTree

  /** What `if child: queue.append(child)` adds to the queue. */
  function IfPresent(child: Tree): seq<Tree>
  {
    if child != Leaf then [child] else []
  }

  /** What the loop appends to the recorded parents: the node once per
      present child. */
  function ParentEntries(n: Tree): (ps: seq<Tree>)
    requires n.Node?
    ensures |ps| == |IfPresent(n.left)| + |IfPresent(n.right)|
  {
    (if n.left != Leaf then [n] else []) + (if n.right != Leaf then [n] else [])
  }

  /** The number of nodes in the trees waiting in the queue. */
  function QueueSize(q: seq<Tree>): nat
  {
    if q == [] then 0 else Size(q[0]) + QueueSize(q[1..])
  }

  lemma {:induction false} QueueSizeAppend(q: seq<Tree>, x: Tree)
    ensures QueueSize(q + IfPresent(x)) == QueueSize(q) + Size(x)
  {
    if x == Leaf {
      assert q + [] == q;
    } else if q != [] {
      QueueSizeAppend(q[1..], x);
      assert (q + [x])[1..] == q[1..] + [x];
    }
  }

  /** One turn of the loop on the queue (main.py:91-114): the head is
      dequeued and its present children join the back. No empty child is
      ever queued, and the queue holds one node fewer. */
  function Next(q: seq<Tree>): (r: seq<Tree>)
    requires q != [] && Leaf !in q
    ensures Leaf !in r && QueueSize(r) == QueueSize(q) - 1
  {
    var n := q[0];
    QueueSizeAppend(q[1..], n.left);
    QueueSizeAppend(q[1..] + IfPresent(n.left), n.right);
    q[1..] + IfPresent(n.left) + IfPresent(n.right)
  }

  /** The order in which a breadth-first pass starting from queue `q`
      dequeues nodes. */
  function BfsOrder(q: seq<Tree>): seq<Tree>
    requires Leaf !in q
    decreases QueueSize(q)
  {
    if q == [] then [] else [q[0]] + BfsOrder(Next(q))
  }

  /** What the loop appends to `nodes_to_keep` for a dequeued node. */
  function Kept(n: Tree, v: int): seq<Tree>
  {
    if n.Node? && n.value != v then [n] else []
  }

  /** `nodes_to_keep` after the nodes `ns` are dequeued in order: those
      whose count is not `v`. None of them is empty or has count `v`. */
  function Survivors(ns: seq<Tree>, v: int): (kept: seq<Tree>)
    ensures Leaf !in kept
    ensures forall i :: 0 <= i < |kept| ==> kept[i].value != v
  {
    if ns == [] then [] else Kept(ns[0], v) + Survivors(ns[1..], v)
  }

  /** Insert each node's key and count, in order, into the tree `acc`. */
  function InsertAll(acc: Tree, ns: seq<Tree>): Tree
    requires Leaf !in ns
    decreases |ns|
  {
    if ns == [] then acc else InsertAll(Insert(acc, ns[0].key, ns[0].value), ns[1..])
  }

  /** What `deleteNodesByValue(root, value)` returns, without its clock
      readings: an empty tree gives an empty tree and count 0; when the
      root's count is `v` the whole tree is dropped at its first dequeue;
      otherwise the count is the number of nodes the pass dequeues and the
      tree is rebuilt from those, in pass order, whose count is not `v`. */
  function ByValue(t: Tree, v: int): (Tree, int)
  {
    if t == Leaf then (Leaf, 0)
    else if t.value == v then (Leaf, 1)
    else (InsertAll(Leaf, Survivors(BfsOrder([t]), v)), |BfsOrder([t])|)
  }

  /** `deleteNodesByValue(root, value)`: a breadth-first pass with a queue,
      a list of recorded parents and a list of kept nodes, then the rebuild
      loop. */
  method DeleteNodesByValue(t: Tree, v: int) returns (r: Tree, ops: int)
    ensures (r, ops) == ByValue(t, v)
  {
    if t == Leaf {
      return Leaf, 0;
    }
    var queue := [t];
    var parents: seq<Tree> := [];
    var kept: seq<Tree> := [];
    ops := 0;
    while queue != []
      invariant Leaf !in queue && Leaf !in kept
      invariant kept + Survivors(BfsOrder(queue), v) == Survivors(BfsOrder([t]), v)
      invariant ops + |BfsOrder(queue)| == |BfsOrder([t])|
      invariant |parents| == ops + |queue| - 1
      invariant ops == 0 ==> queue == [t]
      invariant ops > 0 ==> t.value != v
      decreases |BfsOrder(queue)|
    {
      DequeueOrder(t, v, kept, queue);
      var current := queue[0];
      queue := queue[1..];
      ops := ops + 1;
      if current.value == v {
        // The source clears a child slot of the last recorded parent
        // (main.py:98-102); that parent was dequeued already, so this only
        // alters the input tree, which is discarded, and never the traversal.
        if parents == [] {
          return Leaf, ops;
        }
      } else {
        kept := kept + [current];
      }
      queue := queue + IfPresent(current.left) + IfPresent(current.right);
      parents := parents + ParentEntries(current);
    }
    assert kept + [] == kept;
    r := Rebuild(kept);
  }

  /** The rebuild loop (main.py:116-119): `new_root` starts empty and each
      kept node's key and count is inserted in turn. */
  method Rebuild(kept: seq<Tree>) returns (r: Tree)
    requires Leaf !in kept
    ensures r == InsertAll(Leaf, kept)
  {
    r := Leaf;
    for i := 0 to |kept|
      invariant InsertAll(r, kept[i..]) == InsertAll(Leaf, kept)
    {
      assert kept[i..][1..] == kept[i + 1..];
      r := Insert(r, kept[i].key, kept[i].value);
    }
  }

  /** One turn of the loop: the head's kept part moves from the pass still
      to come to `kept`, and the pass still to come shrinks by one node. */
  lemma DequeueOrder(t: Tree, v: int, kept: seq<Tree>, q: seq<Tree>)
    requires t.Node? && q != [] && Leaf !in q
    requires kept + Survivors(BfsOrder(q), v) == Survivors(BfsOrder([t]), v)
    ensures (kept + Kept(q[0], v)) + Survivors(BfsOrder(Next(q)), v) == Survivors(BfsOrder([t]), v)
    ensures |BfsOrder(q)| == 1 + |BfsOrder(Next(q))|
  {
    var rest := BfsOrder(Next(q));
    assert BfsOrder(q) == [q[0]] + rest;
    assert ([q[0]] + rest)[1..] == rest;
    assert Survivors(BfsOrder(q), v) == Kept(q[0], v) + Survivors(rest, v);
  }

  /** `deleteNodesByValue` always returns a search tree. */
  lemma ByValueIsSearchTree(t: Tree, v: int)
    ensures BST(ByValue(t, v).0)
  {
    if t.Node? && t.value != v {
      InsertAllIsSearchTree(Leaf, Survivors(BfsOrder([t]), v));
    }
  }

  /** The count is 0 for an empty tree, 1 when the root is dropped, and
      otherwise the number of nodes: each is dequeued exactly once. */
  lemma ByValueCount(t: Tree, v: int)
    ensures ByValue(t, v).1 == if t == Leaf then 0 else if t.value == v then 1 else Size(t)
  {
    if t.Node? {
      BfsCoversTree(t);
    }
  }

  /** Unless the root itself has count `v`, the result's table is the old
      table without the entries of count `v`: those keys are gone and every
      other key keeps its count. */
  lemma ByValueTable(t: Tree, v: int)
    requires BST(t) && !(t.Node? && t.value == v)
    ensures Map(ByValue(t, v).0) == WithoutValue(Map(t), v)
  {
    IntendedTable(t, v);
  }

  /** When the root has count `v` the source returns an empty tree at once
      (main.py:103-104), so entries of other counts are lost with it: here
      the entry "c" with count 2 disappears. */
  lemma RootMatchLosesEntries()
    ensures var t := Node("b", 1, Leaf, Node("c", 2, Leaf, Leaf));
            BST(t) && Map(ByValue(t, 1).0) != WithoutValue(Map(t), 1)
  {
    var t := Node("b", 1, Leaf, Node("c", 2, Leaf, Leaf));
    assert Less("b", "c");
    assert "c" in WithoutValue(Map(t), 1);
  }

  /** `deleteNodesByValue` as evidently intended: a matching root is dropped
      like any other matching node, and the pass goes on. Where the root does
      not match it is what the source computes. */
  function ByValueIntended(t: Tree, v: int): (r: (Tree, int))
    ensures !(t.Node? && t.value == v) ==> r == ByValue(t, v)
  {
    if t == Leaf then (Leaf, 0)
    else (InsertAll(Leaf, Survivors(BfsOrder([t]), v)), |BfsOrder([t])|)
  }

  /** The intended pass removes exactly the entries of count `v` from any
      search tree, and keeps it a search tree. */
  lemma IntendedTable(t: Tree, v: int)
    requires BST(t)
    ensures BST(ByValueIntended(t, v).0)
    ensures Map(ByValueIntended(t, v).0) == WithoutValue(Map(t), v)
  {
    if t.Node? {
      BfsCoversTree(t);
      SurvivorTable(t, BfsOrder([t]), v);
      InsertAllIsSearchTree(Leaf, Survivors(BfsOrder([t]), v));
    }
  }

  /** Rebuilding from the survivors of a listing of every pair of a search
      tree gives its table without the entries of count `v`. */
  lemma SurvivorTable(t: Tree, ns: seq<Tree>, v: int)
    requires BST(t) && Listing(ns) == Pairs(t)
    ensures Map(InsertAll(Leaf, Survivors(ns, v))) == WithoutValue(Map(t), v)
  {
    ListingIsFresh(t, ns);
    ListingTable(t, ns);
    InsertSurvivors(Leaf, ns, v);
    EmptyUnion(WithoutValue(Map(t), v));
  }

  lemma EmptyUnion(m: map<Key, int>)
    ensures map[] + m == m
  {
  }

  /** The pass from a single root dequeues every node of the tree exactly
      once: its listing is the tree's pairs and its length the tree's size. */
  lemma BfsCoversTree(t: Tree)
    requires t.Node?
    ensures Listing(BfsOrder([t])) == Pairs(t)
    ensures |BfsOrder([t])| == Size(t)
  {
    BfsListing([t]);
    BfsLength([t]);
    assert [t][1..] == [];
  }

  /** The pairs of every tree waiting in the queue. */
  function Forest(q: seq<Tree>): multiset<(Key, int)>
  {
    if q == [] then multiset{} else Pairs(q[0]) + Forest(q[1..])
  }

  lemma {:induction false} ForestAppend(q: seq<Tree>, x: Tree)
    ensures Forest(q + [x]) == Forest(q) + Pairs(x)
    decreases |q|, 1
  {
    if q == [] {
      assert q + [x] == [x] && [x][1..] == [];
    } else {
      ForestAppendStep(q, x);
    }
  }

  lemma {:induction false} ForestAppendStep(q: seq<Tree>, x: Tree)
    requires q != []
    ensures Forest(q + [x]) == Forest(q) + Pairs(x)
    decreases |q|, 0
  {
    ForestAppend(q[1..], x);
    assert (q + [x])[1..] == q[1..] + [x];
  }

  /** A child is queued only when present; an absent one has no pairs. */
  lemma EnqueueIfPresent(q: seq<Tree>, x: Tree)
    ensures Forest(q + IfPresent(x)) == Forest(q) + Pairs(x)
  {
    if x == Leaf {
      assert q + [] == q;
    } else {
      ForestAppend(q, x);
    }
  }

  /** The pairs held by a list of nodes, one per node. */
  function Listing(ns: seq<Tree>): multiset<(Key, int)>
  {
    if ns == [] then multiset{} else Top(ns[0]) + Listing(ns[1..])
  }

  /** A pass dequeues exactly the pairs of the trees in its queue. */
  lemma {:induction false} BfsListing(q: seq<Tree>)
    requires Leaf !in q
    ensures Listing(BfsOrder(q)) == Forest(q)
    decreases QueueSize(q)
  {
    if q != [] {
      var n, rest := q[0], q[1..];
      var own, l, r := Top(n), Pairs(n.left), Pairs(n.right);
      var later := BfsOrder(Next(q));
      BfsListing(Next(q));
      assert ([n] + later)[1..] == later;
      EnqueueIfPresent(rest, n.left);
      EnqueueIfPresent(rest + IfPresent(n.left), n.right);
      assert Pairs(n) == own + l + r;
      calc {
        Listing(BfsOrder(q));
        own + Listing(later);
        own + (Forest(rest) + l + r);
        (own + l + r) + Forest(rest);
        Forest(q);
      }
    }
  }

  /** A pass dequeues as many nodes as its queue's trees hold. */
  lemma {:induction false} BfsLength(q: seq<Tree>)
    requires Leaf !in q
    ensures |BfsOrder(q)| == QueueSize(q)
    decreases QueueSize(q)
  {
    if q != [] {
      BfsLength(Next(q));
    }
  }

  /** The keys of a list of nodes. */
  function ListedKeys(ns: seq<Tree>): set<Key>
  {
    if ns == [] then {}
    else (if ns[0].Node? then {ns[0].key} else {}) + ListedKeys(ns[1..])
  }

  /** The table a list of nodes spells out, an earlier node winning a key. */
  function EntryMap(ns: seq<Tree>): (m: map<Key, int>)
    ensures m.Keys == ListedKeys(ns)
  {
    if ns == [] then map[]
    else if ns[0].Node? then EntryMap(ns[1..])[ns[0].key := ns[0].value]
    else EntryMap(ns[1..])
  }

  /** No key of the list occurs twice. */
  predicate Fresh(ns: seq<Tree>)
  {
    ns == [] ||
    (Fresh(ns[1..]) && (ns[0].Node? ==> ns[0].key !in ListedKeys(ns[1..])))
  }

  /** Every key of the list has an entry whose pair the list holds. */
  lemma {:induction false} EntryInListing(ns: seq<Tree>, k: Key)
    requires k in EntryMap(ns)
    ensures (k, EntryMap(ns)[k]) in Listing(ns)
  {
    if !(ns[0].Node? && ns[0].key == k) {
      EntryInListing(ns[1..], k);
    }
  }

  /** In a list of fresh keys every listed pair is an entry of its table. */
  lemma {:induction false} ListingInEntryMap(ns: seq<Tree>, p: (Key, int))
    requires Fresh(ns) && p in Listing(ns)
    ensures p.0 in EntryMap(ns) && EntryMap(ns)[p.0] == p.1
  {
    if p !in Top(ns[0]) {
      ListingInEntryMap(ns[1..], p);
      PairKeyListed(ns[1..], p);
    }
  }

  lemma {:induction false} PairKeyListed(ns: seq<Tree>, p: (Key, int))
    requires p in Listing(ns)
    ensures p.0 in ListedKeys(ns)
  {
    if p !in Top(ns[0]) {
      PairKeyListed(ns[1..], p);
    }
  }

  /** A list of nodes whose pairs are among a search tree's pairs, each at
      most once, never repeats a key. */
  lemma {:induction false} ListingIsFresh(t: Tree, ns: seq<Tree>)
    requires BST(t) && Listing(ns) <= Pairs(t)
    ensures Fresh(ns)
  {
    if ns != [] {
      var n, rest := ns[0], ns[1..];
      assert Listing(rest) <= Listing(ns);
      ListingIsFresh(t, rest);
      if n.Node? && n.key in ListedKeys(rest) {
        var p := (n.key, n.value);
        var q := (n.key, EntryMap(rest)[n.key]);
        EntryInListing(rest, n.key);
        PairInTable(t, p);
        PairInTable(t, q);
        PairOnce(t, p);
        assert false;
      }
    }
  }

  /** A listing of every pair of a search tree spells out its table. */
  lemma ListingTable(t: Tree, ns: seq<Tree>)
    requires BST(t) && Fresh(ns) && Listing(ns) == Pairs(t)
    ensures EntryMap(ns) == Map(t)
  {
    forall k | k in EntryMap(ns)
      ensures k in Map(t) && Map(t)[k] == EntryMap(ns)[k]
    {
      EntryInListing(ns, k);
      PairInTable(t, (k, EntryMap(ns)[k]));
    }
    forall k | k in Map(t)
      ensures k in EntryMap(ns)
    {
      EntryInPairs(t, k);
      ListingInEntryMap(ns, (k, Map(t)[k]));
    }
  }

  /** Inserting into a search tree always gives a search tree. */
  lemma {:induction false} InsertAllIsSearchTree(acc: Tree, ns: seq<Tree>)
    requires BST(acc) && Leaf !in ns
    ensures BST(InsertAll(acc, ns))
    decreases |ns|
  {
    if ns != [] {
      InsertPreservesOrder(acc, ns[0].key, ns[0].value);
      InsertAllIsSearchTree(Insert(acc, ns[0].key, ns[0].value), ns[1..]);
    }
  }

  /** The table without the entries whose count is `v`. */
  function WithoutValue(m: map<Key, int>, v: int): map<Key, int>
  {
    map k | k in m && m[k] != v :: m[k]
  }

  /** Dropping the entries of count `v` after adding a fresh entry. */
  lemma WithoutValueUpdate(m: map<Key, int>, k: Key, x: int, v: int)
    requires k !in m
    ensures WithoutValue(m[k := x], v) == if x == v then WithoutValue(m, v) else WithoutValue(m, v)[k := x]
  {
  }

  /** Moving a fresh entry from the right part of a union to the left. */
  lemma ShiftEntry(a: map<Key, int>, b: map<Key, int>, k: Key, x: int)
    requires k !in b
    ensures a[k := x] + b == a + b[k := x]
  {
  }

  /** Inserting the survivors of a list of fresh keys, none of them already
      in `acc`, adds exactly the list's entries whose count is not `v`. */
  lemma {:induction false} InsertSurvivors(acc: Tree, ns: seq<Tree>, v: int)
    requires BST(acc) && Fresh(ns) && ListedKeys(ns) !! Keys(acc)
    ensures Map(InsertAll(acc, Survivors(ns, v))) == Map(acc) + WithoutValue(EntryMap(ns), v)
    decreases |ns|, 1
  {
    if ns == [] {
      assert Map(acc) + WithoutValue(map[], v) == Map(acc);
    } else if ns[0].Node? && ns[0].value != v {
      InsertSurvivorsKept(acc, ns, v);
    } else {
      InsertSurvivorsDropped(acc, ns, v);
    }
  }

  /** `InsertSurvivors` when the head is kept and inserted first. */
  lemma {:induction false} InsertSurvivorsKept(acc: Tree, ns: seq<Tree>, v: int)
    requires BST(acc) && Fresh(ns) && ListedKeys(ns) !! Keys(acc)
    requires ns != [] && ns[0].Node? && ns[0].value != v
    ensures Map(InsertAll(acc, Survivors(ns, v))) == Map(acc) + WithoutValue(EntryMap(ns), v)
    decreases |ns|, 0
  {
    var Node(k, x, _, _) := ns[0];
    var rest, kept := ns[1..], Survivors(ns[1..], v);
    var acc' := Insert(acc, k, x);
    var m := EntryMap(rest);
    InsertPreservesOrder(acc, k, x);
    InsertAccumulates(acc, k, x);
    InsertSurvivors(acc', rest, v);
    assert ([ns[0]] + kept)[1..] == kept;
    WithoutValueUpdate(m, k, x, v);
    ShiftEntry(Map(acc), WithoutValue(m, v), k, x);
  }

  /** `InsertSurvivors` when the head is skipped: empty, or of count `v`. */
  lemma {:induction false} InsertSurvivorsDropped(acc: Tree, ns: seq<Tree>, v: int)
    requires BST(acc) && Fresh(ns) && ListedKeys(ns) !! Keys(acc)
    requires ns != [] && !(ns[0].Node? && ns[0].value != v)
    ensures Map(InsertAll(acc, Survivors(ns, v))) == Map(acc) + WithoutValue(EntryMap(ns), v)
    decreases |ns|, 0
  {
    InsertSurvivors(acc, ns[1..], v);
    assert [] + Survivors(ns[1..], v) == Survivors(ns[1..], v);
    if ns[0].Node? {
      WithoutValueUpdate(EntryMap(ns[1..]), ns[0].key, v, v);
    }
  }
}
