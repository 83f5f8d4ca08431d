# Binary search tree of accumulated counts

This project models the binary search tree engine of `main.py`. The tree maps
keys to accumulated counts. Keys are Python strings, either single
characters from the input text or strings typed at the menu, compared with
`<`. Counts are Python `int`s. The model covers:

- `TreeNode` as the value type `BinaryTree.Tree`;
- `insert`, `search` and `minValueNode` in `SearchTree`;
- deletion by key with its operation counter (`deleteNode`) in `Deletion`;
- the breadth-first bulk deletion by count (`deleteNodesByValue`) in
  `BulkDeletion`.

A tree is a value (`Leaf` is `None`). A function that relinks children in
place returns the new subtree as a new value, just as the source returns the
subtree root for the caller to rebind. Keys are compared with
`KeyOrder.Less`, Python's lexicographic string order by code point. Counts
are unbounded integers, as in Python.

Each operation is specified against abstractions of the tree:

- its key set (`Keys`);
- the key-to-count table it stands for (`Map`);
- the search-tree ordering (`BST`);
- its node count (`Size`);
- the multiset of its (key, count) pairs (`Pairs`).

`minValueNode` and `deleteNodesByValue` are loops in the source, and they
are methods here. Each is proved against a specification function:

- `MinValueNode` against `Leftmost`;
- `DeleteNodesByValue` against `ByValue`, which is built on `BfsOrder`, the
  order in which a breadth-first pass dequeues nodes;
- `Rebuild` against `InsertAll`.

## Model

| member | source | states |
|---|---|---|
| KeyOrder.LessTotal | main.py:18-24 | Any two keys are equal or ordered one way, so the final `else` of `insert` (and of `deleteNode`) is reached exactly on an equal key. |
| KeyOrder.LessTransitive | main.py:18-21 | Python's `<` on strings is transitive, which the ordering argument for every descent relies on. |
| KeyOrder.LessAsymmetric | main.py:18-21 | `a < b` and `b < a` never both hold. |
| SearchTree.Insert | main.py:15-25 | `insert` always returns a node, and its key set is the old key set plus the inserted key. |
| SearchTree.InsertPreservesOrder | main.py:15-21 | Inserting into a search tree gives a search tree. |
| SearchTree.InsertAccumulates | main.py:22-25 | On a search tree, the table after `insert(k, v)` is the old table with `k` mapped to the old count plus `v` (or to `v` for a new key); every other entry is unchanged. |
| SearchTree.InsertSize | main.py:16-24 | Inserting a present key adds no node, and a new key adds exactly one. |
| SearchTree.Search | main.py:28-33 | A node returned by `search` holds the key asked for and is part of the tree. |
| SearchTree.SearchFindsPresentKeys | main.py:28-33 | On a search tree, `search` returns a node if and only if the key is in the tree, and that node's count is the key's entry in the table. |
| SearchTree.Leftmost | main.py:36-40 | The node reached by following `left` links has no left child, holds a key of the tree and is part of it. |
| SearchTree.LeftmostIsMinimum | main.py:36-40 | On a search tree, the leftmost node holds the least key, and its count is that key's entry. |
| SearchTree.MinValueNode | main.py:36-40 | The cursor loop stops exactly at the leftmost node of the subtree it is given, a node with no left child. |
| Deletion.DeleteNode | main.py:43-75 | The returned counter never falls below the seed, and deletion adds no key. |
| Deletion.DeleteAbsentKey | main.py:44-55 | Deleting an absent key, including from an empty tree, returns the tree unchanged. The counter is the seed plus the length of the failed descent. |
| Deletion.DeleteRemovesKey | main.py:50-68 | On a search tree, the table after deletion is the old table without the deleted key. The successor copy keeps every other count. |
| Deletion.DeletePreservesOrder | main.py:50-68 | Deletion keeps a search tree a search tree. |
| Deletion.DeleteCount | main.py:50-68 | For a present key, the counter is the seed plus one per node on the descent to the key. For a node with two children, the node's own 1 is replaced by one per node on the left chain of its right subtree. |
| Deletion.LeftmostSearch | main.py:62-68 | On a search tree, the descent for the successor's key follows the left chain of the right subtree to the leftmost node. |
| Deletion.DeleteThenSearch | main.py:43-75 | After deleting `k` from a search tree, `search(k)` finds nothing, while every other key is found exactly when it was before, with its old count. |
| BulkDeletion.Next | main.py:91-114 | One loop turn dequeues the head and queues only present children, so the queue never holds `None`. The nodes in the queued trees drop by exactly one. |
| BulkDeletion.ParentEntries | main.py:108-114 | The recorded-parents list grows by one entry per child queued. |
| BulkDeletion.Survivors | main.py:95-106 | No node kept for the rebuild is empty or has the deleted count. |
| BulkDeletion.DeleteNodesByValue | main.py:77-125 | The method's tree and counter are exactly `ByValue(t, v)`: `(None, 0)` for an empty tree, and `(None, 1)` when the root has count `v`. Otherwise the result is the rebuild from the breadth-first order's nodes of other counts, with the counter equal to the number of dequeues. |
| BulkDeletion.Rebuild | main.py:116-119 | The rebuild loop returns the fold of `insert` over the kept nodes, in order, starting from an empty tree. |
| BulkDeletion.DequeueOrder | main.py:91-106 | One loop turn moves the head's kept part into `nodes_to_keep` and shortens the remaining breadth-first order by one node. |
| BulkDeletion.BfsCoversTree | main.py:91-114 | The pass from the root dequeues every node exactly once: its (key, count) pairs are the tree's pairs, and its length is the tree's size. |
| BulkDeletion.BfsListing | main.py:91-114 | A pass dequeues exactly the pairs of the trees in its queue. |
| BulkDeletion.BfsLength | main.py:91-114 | A pass dequeues as many nodes as its queue's trees hold. |
| BulkDeletion.ByValueIsSearchTree | main.py:116-119 | `deleteNodesByValue` always returns a search tree. |
| BulkDeletion.ByValueCount | main.py:78-104 | The counter is 0 for an empty tree, 1 when the root has count `v`, and otherwise the number of nodes. |
| BulkDeletion.ByValueTable | main.py:91-119 | Unless the root has count `v`, the result's table is the old table without the entries of count `v`. |
| BulkDeletion.ListingIsFresh | main.py:91-106 | The nodes dequeued from a search tree never repeat a key. |
| BulkDeletion.ListingTable | main.py:91-106 | The nodes dequeued from a search tree spell out exactly its table. |
| BulkDeletion.InsertSurvivors | main.py:116-119 | Inserting the kept nodes of fresh keys into a tree without those keys adds exactly the entries whose count is not `v`. |
| BulkDeletion.SurvivorTable | main.py:116-119 | Rebuilding from the kept nodes of a full listing of a search tree gives its table without the entries of count `v`. |
| BulkDeletion.RootMatchLosesEntries | main.py:103-104 | When the root matches, the source returns an empty tree even though other entries survive. |
| BulkDeletion.ByValueIntended | main.py:77-125 | The corrected pass agrees with the source whenever the root does not have count `v`. |
| BulkDeletion.IntendedTable | main.py:91-119 | The corrected pass returns, for every search tree, a search tree whose table is the old one without the entries of count `v`. |

## Left out

- Wall-clock timing: the `timeit.default_timer` readings and the elapsed time each deletion returns (main.py:48, 58, 60, 72-73, 89, 104, 122-123) are floating-point clock values. Only the integer operation counter is modelled.
- In-place update and aliasing: nodes are values, so the model does not capture that `insert` and `deleteNode` relink and rewrite the caller's nodes in place. The returned trees are the same.
- The successor's key write after it is spliced out (main.py:69) touches a node no longer in the tree. Its effect is not modelled.
- The clearing of a child slot of the last recorded parent (main.py:97-102) only alters nodes already dequeued from the discarded input tree. The recorded-parents list is kept, but only its emptiness is used.
- `create_graph` and `visualize_tree` (main.py:129-201): graph layout and plotting through igraph and plotly.
- File reading, encoding detection, the character count and the seeding loop (main.py:204-222): I/O.
- The interactive menu (main.py:225-268): console I/O.
- BulkDeletion.DeleteNodesByValue: the child enqueues are written as appends of `IfPresent` and `ParentEntries`, not as two `if` statements. The values are the same.

## Findings

| source | as written | input that shows it | evidently intended | confidence | as-written member | corrected member |
|---|---|---|---|---|---|---|
| main.py:103-104 | When the root's count equals the value to delete, `deleteNodesByValue` returns `None` at once and drops the whole tree. | Root `b` with count 1 and right child `c` with count 2, deleting count 1: the result is empty, though `c` with count 2 should remain. | Drop a matching root like any other matching node and rebuild from all nodes of other counts. | medium, not executed | BulkDeletion.RootMatchLosesEntries | BulkDeletion.IntendedTable |
