# TestNetwork layer tree, in Dafny

This project models the `TestNetwork` class of `node_tree.py`. The class is a rooted tree that
is built one named node at a time. Each node has a name, an integer id, a layer, one back
pointer to its parent and a list of forward pointers to its children. The first node becomes
the root, and `network`, the list of node lists by depth, is set to hold it alone. Every later
insertion rebuilds `network` from the root. When the parent name resolves, the insertion also
renumbers the ids and recomputes `layer_sizes` and `num_layers`. When it does not, the ids and
the layer sizes stay as they were. The model also covers two pieces of code that use the
class:

- the pair-selection rule of `DAG.add_edges`;
- the `NetTest` scene, which imports a six-node layout and draws it.

The nodes live in an arena. Node `x` is index `x` of every field sequence, and the root is
node 0.

Modules:

- `Seqs`: generic facts about sequences of sequences.
- `Ids`: the id renumbering of `_update_ids`, and the proof that it keeps the ids dense.
- `Tree`: the node arena's shape (back pointers `bp`, forward pointers `kids`), each node's depth, and
  `Layout`, the lists `_update_network` produces. It proves what those lists are: each list
  holds exactly the nodes at its depth, lists appear depth by depth, every node is listed once,
  and any empty lists come last. It also proves how many lists there are.
- `Network`: the value `Net` of a `TestNetwork`, with an invariant `Inv` that every operation keeps.
  - `Add` and `Replay` specify `add_node` and `import_network` on values.
  - The methods `FetchBp`, `Rebuild`/`UpdateNetwork`, `UpdateIds` and `ExportNetwork` use the
    source's loops and recursion. Each is proved to compute its specification function.
  - The class `TestNetwork` holds the source's fields. Its `AddNode` and `ImportNetwork` are
    proved to produce `Add` and `Replay` of the old state.
- `Edges`: `DAG.add_edges`, as a loop over adjacent list pairs in product order and over the
  first node's forward pointers. On a TestNetwork's lists, a group's edges are exactly the pairs
  (parent, child) for the lower list, in that list's order.
- `NetTest`: the scene's layout `{0: {A: None}, 1: {B: A, D: A}, 2: {C: B, E: D, F: D}}`. The
  model imports it into a fresh network and derives the results:
  - `network` is `[[A], [B, D], [C, E, F], []]`;
  - `layer_sizes` is `[1, 2, 3]`;
  - the ids are A=5, B=1, D=4, C=0, E=2, F=3;
  - the edge groups are `[[A-B, A-D], [B-C, D-E, D-F], []]`.

### Notes on how the code behaves

- `_fetch_bp` (node_tree.py:91-101): `break` leaves only the inner loop. So the result is the
  *first* node with the name in the *deepest* list that has one, not the first node overall.
  `Fetch` models exactly this. The parent name `"None"` always gives no parent.
- `_update_network` (node_tree.py:119-136):
  - The test `fp._fpointers is not []` is always true, because a fresh list literal is never
    identical to an existing one. So only the first branch is modelled. The dead `else` branch
    would set the layer and append the node, but would neither open a new list for a first
    child nor recurse.
  - Every node that has children appends one new list at the end of the shared list, on its
    first child. So there are usually more lists than depths: in the scene, three nodes have
    children and the tree has three depths, so the lists are four.
    `Tree.LayoutLength` states the count: one more than the number of nodes that have
    children. `Tree.LayoutLayers` shows that the surplus lists are empty and come last.
- `layer_sizes` and `num_layers` are only set by `_update_ids`, and `_update_ids` only runs when
  a node is attached under a parent. So they stay `[]` and `0` while the root is the only node.
  `Inv` states exactly that.
- A node whose parent name does not resolve gets a back pointer of `None` but is attached
  nowhere. The network rebuilt afterwards is the same as before. `Network.AddUnresolved` proves
  that the whole state is unchanged.
- The source compares several values with identity (`is "None"`, `is -1`, `is not 0`,
  `__flag is 0`). The model reads each of them as equality, which is what the code evidently
  means.

## Model

| member | source | states |
|---|---|---|
| Network.TestNetwork.constructor | node_tree.py:37-42 | a new network has no root, `network == [[]]`, no layer sizes, zero layers, and satisfies the invariant |
| Network.TestNetwork.AddNode | node_tree.py:62-73 | the state after `add_node` is `Add` of the old state; the invariant is kept |
| Network.Insert | node_tree.py:62-73 | the step-by-step insertion (root case, or fetch the parent then attach) computes exactly `Add(n, name, parentName)` |
| Network.AddFirst | node_tree.py:64-70 | the first node becomes root 0 with id 0, layer 0, back pointer None, no children, `network == [[0]]`, `layer_sizes == []`, `num_layers == 0`, whatever the parent name |
| Network.AddInv | node_tree.py:62-84 | every `add_node` keeps the invariant: one tree, `network` is its layout, layers are depths, ids are dense, and layer sizes match the lists |
| Network.AddUnresolved | node_tree.py:83-84 | when `_fetch_bp` finds no parent, `add_node` leaves the whole state unchanged |
| Network.AddResolved | node_tree.py:72-82 | when `_fetch_bp` finds `p`, node `p` carries the requested name and `add_node` attaches the new node under `p` |
| Network.FetchUnique | node_tree.py:91-101 | when exactly one node carries the (non-"None") name, `_fetch_bp` returns that node and `add_node` attaches under it; other names may repeat |
| Network.AttachNode | node_tree.py:75-84 | `_add_node` with a parent gives `Attach`; without one it only rebuilds `network` and the layers from the pointers (`Rebuilt`) |
| Network.AttachInv | node_tree.py:75-82 | attaching a node under any existing node keeps the invariant |
| Network.AttachPointers | node_tree.py:75-80 | the new node is last, with its name and back pointer `p` and no children; it is appended to `p`'s forward pointers; every other node's forward pointers are unchanged |
| Network.AttachLayers | node_tree.py:119-132 | after the rebuild the new node's layer is its parent's plus one; every other node keeps its layer |
| Network.AttachIds | node_tree.py:138-147 | the new node takes the parent's id; ids at or above it, the parent's included, move up by one; the rest stay; the ids stay dense |
| Network.AttachPlaced | node_tree.py:119-132 | after the rebuild the new node is in the list one below its parent's layer |
| Network.FetchBp | node_tree.py:91-101 | the nested loop with its inner `break` computes `Fetch`: the first node with the name in the deepest list containing one, and None for "None" |
| Network.FetchSpec | node_tree.py:91-101 | `Fetch` is None exactly when the name is "None" or no listed node carries it; otherwise it is the first match in the deepest list that has one |
| Network.FirstNamedSpec | node_tree.py:94-100 | the inner loop finds the first node of a list with the name, and nothing exactly when none has it |
| Network.DeepestSpec | node_tree.py:93-100 | the outer loop keeps the match of the last (deepest) list that has one |
| Network.TestNetwork.ImportNetwork | node_tree.py:103-106 | importing a layout is `add_node` on every entry, list by list and in order: the new state is `Replay` of the old one over the entries |
| Network.ReplayAppend | node_tree.py:103-106 | adding the entries `a + b` is adding `a`, then adding `b` to the resulting network |
| Network.ImportByLists | node_tree.py:104-106 | importing the flattened entries gives the same network as importing the layout one list at a time, each list in its own order |
| Network.Replay | node_tree.py:103-106 | any sequence of `add_node` calls keeps the invariant |
| Network.TestNetwork.Export | node_tree.py:108-117 | `export_network` of the stored state is `Exported`: list index to (name to back pointer) |
| Network.ExportNetwork | node_tree.py:108-117 | the nested loop builds `Exported`, one dictionary per list, keyed from 0 |
| Network.LayerDictKeys | node_tree.py:112-115 | a list's dictionary has exactly the names of its nodes as keys |
| Network.LayerDictLast | node_tree.py:113-114 | a repeated name maps to the back pointer of its last node in the list (later `update`s win) |
| Network.Rebuild | node_tree.py:119-136 | `_update_network(root, [[root]])` produces exactly `Layout(bp, kids)` and sets every layer to the node's depth |
| Network.UpdateNetwork | node_tree.py:119-136 | the recursive call places all descendants of `node`, depth first, into the list for their depth; it adds one list per descendant-or-self with children, and sets their layers to their depths |
| Network.UpdateChild | node_tree.py:123-128 | one loop iteration: the first child opens a new list, each child goes into its depth's list, then its subtree is placed |
| Network.SetDepthsAt | node_tree.py:125 | after the rebuild a placed node's layer is its depth; all other layers are unchanged |
| Network.UpdateIds | node_tree.py:138-150 | the loop renumbers the ids around the parent's id (`BumpOn`) and returns the sizes of the non-empty lists, in order |
| Network.IterNetworkOnce | node_tree.py:86-89 | iterating `network` yields every node exactly once; once a node is attached, `layer_sizes` are positive, add up to the node count, and `num_layers` is their number |
| Ids.BumpDense | node_tree.py:138-147 | the renumbering gives the new node (id -1) the parent's id `p`, moves ids `>= p` up by one, leaves the rest, and keeps the ids a permutation of `0..n-1` |
| Ids.DenseOnto | node_tree.py:138-147 | dense ids are exactly the range `0..n-1` |
| Ids.IdSetCard | node_tree.py:138-147 | distinct ids as a set have as many members as there are nodes |
| Tree.RebuildIsLayout | node_tree.py:119-136 | lists built by placing the root's descendants into `[[root]]`, with one list opened per node with children, are exactly `Layout` |
| Tree.LayoutLayers | node_tree.py:119-136 | node x is in list d exactly when x's depth is d; every depth has a list; an empty list is followed only by empty lists |
| Tree.LayoutMembers | node_tree.py:125-127 | list d holds exactly the nodes of depth d |
| Tree.LayoutEmptyAt | node_tree.py:126 | after an empty list every later list is empty |
| Tree.LayoutChildAt | node_tree.py:123-128 | list d+1 is the forward pointers of the nodes of list d, concatenated in list order |
| Tree.LayoutChildren | node_tree.py:123-128 | the same for every d |
| Tree.LayoutLength | node_tree.py:126 | the number of lists is one plus the number of nodes that have children |
| Tree.LayoutPrefix | node_tree.py:119-136 | the first d lists hold distinct nodes, each of depth below d |
| Tree.LayoutOnce | node_tree.py:86-89 | every node appears in the lists exactly once |
| Tree.Coverage | node_tree.py:78-80 | every node of a well-formed arena is in the root's subtree |
| Tree.AttachShape | node_tree.py:78-80 | adding a child under p keeps the arena a tree with distinct children; the child's depth is p's plus one; other depths stay |
| Tree.DepthGrow | node_tree.py:78 | appending a node leaves every existing node's depth unchanged |
| Tree.RootLayout | node_tree.py:69-70 | a lone root is a tree whose layout is `[[0]]` and whose depth is 0 |
| Tree.LayoutByLevels | node_tree.py:119-136 | lists that start at `[root]`, continue level by level through the forward pointers and number one more than the nodes with children are `Layout` |
| Tree.CountKidsSet | node_tree.py:126 | the recursive count of nodes with children equals the size of the set of such nodes |
| Edges.AddEdges | node_tree.py:234-246 | the loop over adjacent list pairs, product order and forward pointers computes `Groups`: one group per adjacent pair |
| Edges.MatchesUnique | node_tree.py:239-242 | with distinct ids, `(n1, n2)` gets one edge exactly when `n2` is a forward pointer of `n1`, otherwise none |
| Edges.LayoutGroup | node_tree.py:236-245 | on a TestNetwork layout the group between lists d and d+1 is (parent, child) for each node of list d+1, in that list's order |
| Edges.LayoutGroups | node_tree.py:234-246 | there is one group fewer than lists, and group d-1 is the parent pairs of list d |
| Edges.LayoutEdge | node_tree.py:236-244 | `(a, b)` is in group d exactly when `a` is in list d and `b` is a child of `a` |
| Edges.GroupsAreParents | node_tree.py:234-246 | on any TestNetwork state, group d-1 is the (parent, child) pairs of list d |
| Edges.EdgeMembers | node_tree.py:234-246 | on any TestNetwork state, `(a, b)` is an edge of group d exactly when `a` is in list d and `b` is one of `a`'s forward pointers |
| NetTest.SceneEntries | node_tree.py:260-264 | `import_network` adds the scene's entries in the order A, B, D, C, E, F, each with its parent name |
| NetTest.Grow | node_tree.py:72-82 | adding under a name exactly one node carries attaches under that node: names, renumbered ids, back and forward pointers as stated |
| NetTest.SceneState | node_tree.py:260-264 | after the import: names A B D C E F, ids 5 1 4 0 2 3, layers 0 1 1 2 2 2, `network == [[A],[B,D],[C,E,F],[]]`, `layer_sizes == [1,2,3]`, `num_layers == 3` |
| NetTest.SceneGroups | node_tree.py:234-246 | the scene's edge groups are `[[A-B, A-D], [B-C, D-E, D-F], []]` |
| NetTest.SceneRun | node_tree.py:289-295 | replaying the scene's layout on an empty network gives the network, ids and layer sizes above, and those edge groups |
| NetTest.AddNetwork | node_tree.py:289-295 | `add_network` on a fresh TestNetwork yields the network, ids and layer sizes above, and the DAG's edge groups above |

## Left out

- `circle_dots.py` and all drawing: the `DAG` layout (`add_nodes`, `get_layer`, `get_node`,
  `get_edge`, `arrange`, braces and dots), `edges_in`/`edges_out` and scene animation
  (`construct`, `play`, `wait`). These are graphics calls with no effect on the tree. The edge groups are
  modelled as lists of (node, node) pairs.
- `Node.__init__`'s random `uuid` id: every node's id is overwritten before anyone reads it.
- `TestNetwork.__str__`, `__iter__` and `__next__` (node_tree.py:44-60): these only format or
  return. `__next__` returns the first listed node every time. `iter_network` is modelled by
  `Flatten(network)`, with `Network.IterNetworkOnce`.
- A node whose parent does not resolve is not stored. The source creates it but nothing refers
  to it, so no later call can reach it.
- Network.Insert: the parent argument is a string. Python's default `None` is not modelled
  separately; in the source it behaves as a name that no node carries.
- Network.TestNetwork.ImportNetwork: the layout dictionary is a sequence of lists of
  (name, parent name) pairs in insertion order. This is the order Python iterates
  dictionaries in. Duplicate keys collapse in Python before the import, so they cannot occur.
- Network.ExportNetwork: values are node references in the source and arena indices here. The
  result is a Dafny `map`, which does not keep the key order of Python's dictionaries
  (node_tree.py:112-115). The keys and values are the same.
- In-place update of the node objects is modelled on values. `AddNode` computes the new `Net`
  and writes all fields at once, so the model does not capture aliasing between node objects.
- The dead `else` branch of `_update_network` (node_tree.py:129-131) is not modelled, because its condition is always true.
