/**
 * `TestNetwork` (node_tree.py:36-150): a rooted tree built one node at a time.  The nodes live
 * in an arena, node `x` at index `x` of every field sequence; the root is node 0.
 *
 * `Net` is the abstract value of a `TestNetwork`: the name, id and layer of every node, its back
 * pointer (`_bpointers[0]`) and forward pointers (`_fpointers`), the layer lists `network`,
 * `layer_sizes` and `num_layers`.  `Add` and `Replay` say what `add_node` and `import_network`
 * do to it; the class `TestNetwork` below carries out the same steps as the source and is proved
 * to produce exactly these values.
 */
module Network {
  import opened Seqs
  import opened Tree
  import opened Ids

  datatype Net = Net(
    root: Option<nat>,
    names: seq<string>,
    ids: seq<int>,
    layer: seq<nat>,
    bp: seq<Option<nat>>,
    kids: seq<seq<nat>>,
    network: seq<seq<nat>>,
    layerSizes: seq<nat>,
    numLayers: nat)

  /** A freshly constructed network: no root, one empty list. */
  function Empty(): Net {
    Net(None, [], [], [], [], [], [[]], [], 0)
  }

  /**
   * The invariant every `TestNetwork` keeps between calls.  Once the root exists, the arena is
   * one tree, `network` is its layout, every node's layer is its depth and the ids are dense.
   * `layer_sizes` is only computed when a node is attached under a parent, so it stays empty
   * while the root is the only node.
   */
  ghost predicate Inv(n: Net) {
    var N := |n.bp|;
    |n.names| == N && |n.ids| == N && |n.layer| == N && |n.kids| == N &&
    (n.root.Some? <==> N > 0) && (n.root.Some? ==> n.root.value == 0) &&
    (N == 0 ==> n.network == [[]]) &&
    (N > 0 ==> WellFormed(n.bp, n.kids) && KidsDistinct(n.kids) &&
               n.network == Layout(n.bp, n.kids) && n.layer == Depths(n.bp) && Dense(n.ids)) &&
    (N <= 1 ==> n.layerSizes == [] && n.numLayers == 0) &&
    (N > 1 ==> n.layerSizes == NonEmptySizes(n.network) && n.numLayers == |n.layerSizes|)
  }

  /** Every node listed in `net` is an index below `n`. */
  predicate Indexed(net: seq<seq<nat>>, n: nat) {
    forall l :: 0 <= l < |net| ==> Within(net[l], n)
  }

  // ---------------------------------------------------------------------------------------------
  // _fetch_bp

  /** The first node of `layer` named `q`. */
  function FirstNamed(layer: seq<nat>, names: seq<string>, q: string): Option<nat>
    requires Within(layer, |names|)
  {
    if layer == [] then None
    else
      match FirstNamed(layer[..|layer| - 1], names, q)
      case Some(x) => Some(x)
      case None => if names[layer[|layer| - 1]] == q then Some(layer[|layer| - 1]) else None
  }

  /** The first node named `q` of the last list of `net` that has one. */
  function Deepest(net: seq<seq<nat>>, names: seq<string>, q: string): Option<nat>
    requires Indexed(net, |names|)
  {
    if net == [] then None
    else
      match FirstNamed(net[|net| - 1], names, q)
      case Some(x) => Some(x)
      case None => Deepest(net[..|net| - 1], names, q)
  }

  /** The parent `_fetch_bp` finds for the name `q`: none for the string "None". */
  function Fetch(net: seq<seq<nat>>, names: seq<string>, q: string): Option<nat>
    requires Indexed(net, |names|)
  {
    if q == "None" then None else Deepest(net, names, q)
  }

  /** Node `net[l][k]` is the first one named `q` in its list and no later list has that name. */
  predicate DeepestFirst(net: seq<seq<nat>>, names: seq<string>, q: string, l: nat, k: nat)
    requires Indexed(net, |names|)
  {
    l < |net| && k < |net[l]| && names[net[l][k]] == q &&
    (forall i :: 0 <= i < k ==> names[net[l][i]] != q) &&
    (forall m, i :: l < m < |net| && 0 <= i < |net[m]| ==> names[net[m][i]] != q)
  }

  lemma {:induction false} FirstNamedSpec(layer: seq<nat>, names: seq<string>, q: string)
    requires Within(layer, |names|)
    ensures FirstNamed(layer, names, q).None? <==> forall i :: 0 <= i < |layer| ==> names[layer[i]] != q
    ensures FirstNamed(layer, names, q).Some? ==>
              exists k :: 0 <= k < |layer| && layer[k] == FirstNamed(layer, names, q).value &&
                names[layer[k]] == q && forall i :: 0 <= i < k ==> names[layer[i]] != q
  {
    if layer != [] {
      var init := layer[..|layer| - 1];
      FirstNamedSpec(init, names, q);
      assert forall i :: 0 <= i < |init| ==> init[i] == layer[i];
      if FirstNamed(init, names, q).Some? {
        var k :| 0 <= k < |init| && init[k] == FirstNamed(init, names, q).value &&
                 names[init[k]] == q && forall i :: 0 <= i < k ==> names[init[i]] != q;
        assert layer[k] == FirstNamed(layer, names, q).value;
      }
    }
  }

  /**
   * `_fetch_bp` finds no parent exactly when asked for "None" or when no listed node has the
   * name; otherwise it finds the first node with that name in the deepest list that has one.
   */
  lemma {:induction false} FetchSpec(net: seq<seq<nat>>, names: seq<string>, q: string)
    requires Indexed(net, |names|)
    ensures Fetch(net, names, q).None? <==>
              q == "None" ||
              forall l, i :: 0 <= l < |net| && 0 <= i < |net[l]| ==> names[net[l][i]] != q
    ensures Fetch(net, names, q).Some? ==>
              exists l: nat, k: nat :: DeepestFirst(net, names, q, l, k) && net[l][k] == Fetch(net, names, q).value
  {
    if q != "None" {
      DeepestSpec(net, names, q);
    }
  }

  lemma {:induction false} DeepestSpec(net: seq<seq<nat>>, names: seq<string>, q: string)
    requires Indexed(net, |names|)
    ensures Deepest(net, names, q).None? <==>
              forall l, i :: 0 <= l < |net| && 0 <= i < |net[l]| ==> names[net[l][i]] != q
    ensures Deepest(net, names, q).Some? ==>
              exists l: nat, k: nat :: DeepestFirst(net, names, q, l, k) && net[l][k] == Deepest(net, names, q).value
  {
    if net != [] {
      var last := |net| - 1;
      var init := net[..last];
      DeepestSpec(init, names, q);
      FirstNamedSpec(net[last], names, q);
      assert forall l :: 0 <= l < last ==> init[l] == net[l];
      match FirstNamed(net[last], names, q)
      case Some(x) =>
        var k :| 0 <= k < |net[last]| && net[last][k] == x &&
                 names[net[last][k]] == q && forall i :: 0 <= i < k ==> names[net[last][i]] != q;
        assert DeepestFirst(net, names, q, last, k);
      case None =>
        if Deepest(init, names, q).Some? {
          var l: nat, k: nat :| DeepestFirst(init, names, q, l, k) && init[l][k] == Deepest(init, names, q).value;
          assert DeepestFirst(net, names, q, l, k);
        }
    }
  }

  // ---------------------------------------------------------------------------------------------
  // add_node, _add_node, import_network

  /** Every listed node of an invariant network is a node of the arena. */
  lemma NetIndexed(n: Net)
    requires Inv(n)
    ensures Indexed(n.network, |n.bp|) && Indexed(n.network, |n.names|)
  {
    if |n.bp| > 0 {
      forall l, i | 0 <= l < |n.network| && 0 <= i < |n.network[l]| ensures n.network[l][i] < |n.bp| {
        LayoutMembers(n.bp, n.kids, l);
        assert n.network[l][i] in n.network[l];
      }
    }
  }

  /** The network after `_add_node` attached a new node named `name` under node `p`. */
  function Attach(n: Net, name: string, p: nat): Net
    requires Inv(n) && p < |n.bp|
  {
    var bp := n.bp + [Some(p)];
    var kids := AddChild(n.kids, p);
    AttachShape(n.bp, n.kids, p);
    var network := Layout(bp, kids);
    var sizes := NonEmptySizes(network);
    Net(n.root, n.names + [name], BumpAll(n.ids + [-1], n.ids[p]), Depths(bp), bp, kids,
        network, sizes, |sizes|)
  }

  /** The network after `_add_node` found no parent: only the rebuild of `network` and the layers. */
  function Rebuilt(n: Net): Net
    requires Inv(n) && |n.bp| > 0
  {
    n.(network := Layout(n.bp, n.kids), layer := Depths(n.bp))
  }

  /** The network after `add_node(name, q)`. */
  function Add(n: Net, name: string, q: string): Net
    requires Inv(n)
  {
    if n.root.None? then
      Net(Some(0), [name], [0], [0], [None], [[]], [[0]], n.layerSizes, n.numLayers)
    else
      NetIndexed(n);
      FetchWithin(n, q);
      match Fetch(n.network, n.names, q)
      case None => Rebuilt(n)
      case Some(p) => Attach(n, name, p)
  }

  lemma FetchWithin(n: Net, q: string)
    requires Inv(n) && Indexed(n.network, |n.bp|) && Indexed(n.network, |n.names|)
    ensures Fetch(n.network, n.names, q).Some? ==> Fetch(n.network, n.names, q).value < |n.bp|
  {
    FetchSpec(n.network, n.names, q);
    if Fetch(n.network, n.names, q).Some? {
      var l: nat, k: nat :| DeepestFirst(n.network, n.names, q, l, k) &&
                            n.network[l][k] == Fetch(n.network, n.names, q).value;
      assert Within(n.network[l], |n.bp|);
    }
  }

  /** Attaching a node under an existing one keeps the invariant, ids included. */
  lemma AttachInv(n: Net, name: string, p: nat)
    requires Inv(n) && p < |n.bp|
    ensures Inv(Attach(n, name, p))
  {
    AttachShape(n.bp, n.kids, p);
    NetIndexed(n);
    BumpDense(n.ids, n.ids[p]);
  }

  lemma {:induction false} AddInv(n: Net, name: string, q: string)
    requires Inv(n)
    ensures Inv(Add(n, name, q))
  {
    if n.root.None? {
      RootLayout([None], [[]]);
    } else {
      NetIndexed(n);
      FetchWithin(n, q);
      match Fetch(n.network, n.names, q)
      case None =>
      case Some(p) => AttachInv(n, name, p);
    }
  }

  /**
   * The first `add_node` creates the root, whatever the parent name: id 0, layer 0, no back
   * pointer, `network == [[root]]`; `layer_sizes` and `num_layers` are not touched.
   */
  lemma AddFirst(name: string, q: string)
    ensures var n := Add(Empty(), name, q);
            n.root == Some(0) && n.names == [name] && n.ids == [0] && n.layer == [0] &&
            n.bp == [None] && n.kids == [[]] && n.network == [[0]] &&
            n.layerSizes == [] && n.numLayers == 0
  {
  }

  /** When the parent does not resolve, `add_node` leaves the network exactly as it was. */
  lemma {:induction false} AddUnresolved(n: Net, name: string, q: string)
    requires Inv(n) && n.root.Some?
    requires Indexed(n.network, |n.names|)
    requires Fetch(n.network, n.names, q).None?
    ensures Add(n, name, q) == n
  {
    NetIndexed(n);
    assert Rebuilt(n) == n;
  }

  /** When the parent resolves, it is a node of the arena carrying the name, and the node is attached under it. */
  lemma {:induction false} AddResolved(n: Net, name: string, q: string, p: nat)
    requires Inv(n) && n.root.Some?
    requires Indexed(n.network, |n.names|)
    requires Fetch(n.network, n.names, q) == Some(p)
    ensures p < |n.bp| && n.names[p] == q && Add(n, name, q) == Attach(n, name, p)
  {
    NetIndexed(n);
    FetchSpec(n.network, n.names, q);
    var l: nat, k: nat :| DeepestFirst(n.network, n.names, q, l, k) && n.network[l][k] == p;
    assert Within(n.network[l], |n.bp|);
  }

  /** Node `p` is named `q`, and no other node is. */
  predicate OnlyNamed(names: seq<string>, q: string, p: nat) {
    p < |names| && names[p] == q && forall x :: 0 <= x < |names| && names[x] == q ==> x == p
  }

  /**
   * When exactly one node is named `q` (other names may repeat), `_fetch_bp` finds that node,
   * and adding a node under `q` attaches it there.
   */
  lemma FetchUnique(n: Net, name: string, q: string, p: nat)
    requires Inv(n) && n.root.Some? && OnlyNamed(n.names, q, p) && q != "None"
    ensures Indexed(n.network, |n.names|) && Fetch(n.network, n.names, q) == Some(p)
    ensures Add(n, name, q) == Attach(n, name, p)
  {
    NetIndexed(n);
    IterNetworkOnce(n);
    assert p in Flatten(n.network);
    var l :| 0 <= l < |n.network| && p in n.network[l];
    var i :| 0 <= i < |n.network[l]| && n.network[l][i] == p;
    FetchListed(n.network, n.names, q, l, i);
    AddResolved(n, name, q, p);
  }

  /** A listed node that alone carries the name `q` is the one `_fetch_bp` finds. */
  lemma FetchListed(net: seq<seq<nat>>, names: seq<string>, q: string, l: nat, i: nat)
    requires Indexed(net, |names|) && q != "None"
    requires l < |net| && i < |net[l]| && OnlyNamed(names, q, net[l][i])
    ensures Fetch(net, names, q) == Some(net[l][i])
  {
    FetchSpec(net, names, q);
    var l': nat, k': nat :| DeepestFirst(net, names, q, l', k') && net[l'][k'] == Fetch(net, names, q).value;
    assert net[l'][k'] < |names| && names[net[l'][k']] == q;
  }

  /**
   * Attaching under `p` makes the new node the last of the arena and the last child of `p`,
   * and changes no other node's pointers.
   */
  lemma AttachPointers(n: Net, name: string, p: nat)
    requires Inv(n) && p < |n.bp|
    ensures var r, x := Attach(n, name, p), |n.bp|;
            |r.bp| == x + 1 && r.names == n.names + [name] && r.bp == n.bp + [Some(p)] &&
            r.kids[p] == n.kids[p] + [x] && r.kids[x] == [] &&
            (forall m :: 0 <= m < x && m != p ==> r.kids[m] == n.kids[m])
  {
  }

  /** The new node's layer is one more than its parent's; no other layer changes. */
  lemma AttachLayers(n: Net, name: string, p: nat)
    requires Inv(n) && p < |n.bp|
    ensures var r, x := Attach(n, name, p), |n.bp|;
            |r.layer| == x + 1 && r.layer[x] == n.layer[p] + 1 &&
            (forall y :: 0 <= y < x ==> r.layer[y] == n.layer[y])
  {
    AttachShape(n.bp, n.kids, p);
  }

  /**
   * The new node takes its parent's old id; every id at or above it, the parent's included,
   * moves up by one, the others stay; the ids remain dense.
   */
  lemma AttachIds(n: Net, name: string, p: nat)
    requires Inv(n) && p < |n.bp|
    ensures var r, x := Attach(n, name, p), |n.bp|;
            |r.ids| == x + 1 && r.ids[x] == n.ids[p] && r.ids[p] == n.ids[p] + 1 &&
            (forall y :: 0 <= y < x ==> r.ids[y] == if n.ids[y] >= n.ids[p] then n.ids[y] + 1 else n.ids[y]) &&
            Dense(r.ids)
  {
    BumpDense(n.ids, n.ids[p]);
  }

  /** After the rebuild the new node sits in the list one below its parent's. */
  lemma AttachPlaced(n: Net, name: string, p: nat)
    requires Inv(n) && p < |n.bp|
    ensures var r, x := Attach(n, name, p), |n.bp|;
            n.layer[p] + 1 < |r.network| && x in r.network[n.layer[p] + 1]
  {
    AttachInv(n, name, p);
    AttachLayers(n, name, p);
    var r, x := Attach(n, name, p), |n.bp|;
    LayoutLayers(r.bp, r.kids);
    assert r.layer[x] == Depth(r.bp, x);
  }

  /** The entries of an imported layout, list by list, each list in its own order. */
  function Entries(layout: seq<seq<(string, string)>>): seq<(string, string)> {
    if layout == [] then [] else Entries(layout[..|layout| - 1]) + layout[|layout| - 1]
  }

  /** The network after `add_node` was called for every entry of `es`, in order. */
  function Replay(n: Net, es: seq<(string, string)>): (r: Net)
    requires Inv(n)
    ensures Inv(r)
  {
    if es == [] then n
    else
      var m := Replay(n, es[..|es| - 1]);
      var e := es[|es| - 1];
      AddInv(m, e.0, e.1);
      Add(m, e.0, e.1)
  }

  // ---------------------------------------------------------------------------------------------
  // Helpers for the layer field set by _update_network and for the renumbering of _update_ids

  /** `lay` with the entry of every node of `s` set to that node's depth. */
  function SetDepths(bp: seq<Option<nat>>, lay: seq<nat>, s: seq<nat>): (r: seq<nat>)
    requires BackOrdered(bp) && Within(s, |bp|) && |lay| == |bp|
    ensures |r| == |lay|
  {
    if s == [] then lay
    else
      var last := s[|s| - 1];
      SetDepths(bp, lay, s[..|s| - 1])[last := Depth(bp, last)]
  }

  lemma {:induction false} SetDepthsAt(bp: seq<Option<nat>>, lay: seq<nat>, s: seq<nat>, x: nat)
    requires BackOrdered(bp) && Within(s, |bp|) && |lay| == |bp| && x < |lay|
    ensures SetDepths(bp, lay, s)[x] == if x in s then Depth(bp, x) else lay[x]
  {
    if s != [] {
      var init := s[..|s| - 1];
      SetDepthsAt(bp, lay, init, x);
      assert s == init + [s[|s| - 1]];
    }
  }

  lemma {:induction false} SetDepthsAppend(bp: seq<Option<nat>>, lay: seq<nat>, a: seq<nat>, b: seq<nat>)
    requires BackOrdered(bp) && Within(a, |bp|) && Within(b, |bp|) && |lay| == |bp|
    ensures Within(a + b, |bp|)
    ensures SetDepths(bp, SetDepths(bp, lay, a), b) == SetDepths(bp, lay, a + b)
  {
    assert Within(a + b, |bp|) by {
      forall i | 0 <= i < |a + b| ensures (a + b)[i] < |bp| {
        if i >= |a| { assert (a + b)[i] == b[i - |a|]; }
      }
    }
    if b != [] {
      InitAppend(a, b);
      SetDepthsAppend(bp, lay, a, b[..|b| - 1]);
    } else {
      assert a + b == a;
    }
  }

  /** `ids` with every node of `s` renumbered around `p` once. */
  function BumpOn(ids: seq<int>, s: seq<nat>, p: int): seq<int> {
    seq(|ids|, i requires 0 <= i < |ids| => if i in s then Bump(ids[i], p) else ids[i])
  }

  // ---------------------------------------------------------------------------------------------
  // export_network

  /** The dictionary built for one list: name to back pointer, a later node overwriting an earlier one. */
  function LayerDict(layer: seq<nat>, names: seq<string>, bp: seq<Option<nat>>): map<string, Option<nat>>
    requires Within(layer, |names|) && Within(layer, |bp|)
  {
    if layer == [] then map[]
    else
      var last := layer[|layer| - 1];
      LayerDict(layer[..|layer| - 1], names, bp)[names[last] := bp[last]]
  }

  /** The layout that `export_network` returns: list index to that list's dictionary. */
  function Exported(net: seq<seq<nat>>, names: seq<string>, bp: seq<Option<nat>>): map<int, map<string, Option<nat>>>
    requires Indexed(net, |names|) && Indexed(net, |bp|)
  {
    map i | 0 <= i < |net| :: LayerDict(net[i], names, bp)
  }

  /** A list's dictionary has one key per name carried by a node of the list. */
  lemma {:induction false} LayerDictKeys(layer: seq<nat>, names: seq<string>, bp: seq<Option<nat>>)
    requires Within(layer, |names|) && Within(layer, |bp|)
    ensures forall v :: v in LayerDict(layer, names, bp) <==>
              exists i :: 0 <= i < |layer| && names[layer[i]] == v
  {
    if layer != [] {
      var init := layer[..|layer| - 1];
      var last := layer[|layer| - 1];
      var d := LayerDict(init, names, bp);
      LayerDictKeys(init, names, bp);
      assert LayerDict(layer, names, bp) == d[names[last] := bp[last]];
      forall v ensures v in LayerDict(layer, names, bp) <==> exists i :: 0 <= i < |layer| && names[layer[i]] == v {
        if v in d {
          var i :| 0 <= i < |init| && names[init[i]] == v;
          assert layer[i] == init[i];
        }
        if exists i :: 0 <= i < |layer| && names[layer[i]] == v {
          var i :| 0 <= i < |layer| && names[layer[i]] == v;
          if i < |init| { assert init[i] == layer[i]; }
        }
      }
    }
  }

  /** A name maps to the back pointer of the last node in the list that carries it. */
  lemma {:induction false} LayerDictLast(layer: seq<nat>, names: seq<string>, bp: seq<Option<nat>>, k: nat)
    requires Within(layer, |names|) && Within(layer, |bp|) && k < |layer|
    requires forall j :: k < j < |layer| ==> names[layer[j]] != names[layer[k]]
    ensures names[layer[k]] in LayerDict(layer, names, bp)
    ensures LayerDict(layer, names, bp)[names[layer[k]]] == bp[layer[k]]
  {
    var init := layer[..|layer| - 1];
    var last := layer[|layer| - 1];
    assert LayerDict(layer, names, bp) == LayerDict(init, names, bp)[names[last] := bp[last]];
    if k < |init| {
      assert init[k] == layer[k];
      assert names[last] != names[layer[k]];
      forall j | k < j < |init| ensures names[init[j]] != names[init[k]] {
        assert init[j] == layer[j];
      }
      LayerDictLast(init, names, bp, k);
    }
  }

  // ---------------------------------------------------------------------------------------------
  // The traversal and the layer sizes

  /**
   * `iter_network` (the layer-major concatenation `Flatten` of `network`) yields every node of
   * the arena exactly once, and once a node has been attached under a parent the layer sizes add
   * up to the number of nodes it yields.
   */
  lemma {:induction false} IterNetworkOnce(n: Net)
    requires Inv(n) && n.root.Some?
    ensures Distinct(Flatten(n.network))
    ensures forall x :: x in Flatten(n.network) <==> 0 <= x < |n.bp|
    ensures |Flatten(n.network)| == |n.bp|
    ensures |n.bp| > 1 ==> Sum(n.layerSizes) == |Flatten(n.network)| && n.numLayers == |n.layerSizes|
    ensures |n.bp| > 1 ==> forall i :: 0 <= i < |n.layerSizes| ==> n.layerSizes[i] > 0
  {
    LayoutOnce(n.bp, n.kids);
    SumNonEmptySizes(n.network);
    var s := Flatten(n.network);
    DistinctCard(s);
    assert Elements(s) == Below(|n.bp|);
  }

  // ---------------------------------------------------------------------------------------------
  // The operations, on values

  /** `_fetch_bp`: every list is searched; a match in a later list replaces an earlier one. */
  method FetchBp(network: seq<seq<nat>>, names: seq<string>, q: string) returns (r: Option<nat>)
    requires Indexed(network, |names|)
    ensures r == Fetch(network, names, q)
  {
    r := None;
    for l := 0 to |network|
      invariant r == Fetch(network[..l], names, q)
    {
      var nodes := network[l];
      assert network[..l + 1][..l] == network[..l];
      for k := 0 to |nodes|
        invariant q != "None" ==> FirstNamed(nodes[..k], names, q).None?
        invariant r == Fetch(network[..l], names, q)
      {
        assert nodes[..k + 1][..k] == nodes[..k];
        if q == "None" {
          r := None;
          break;
        } else if names[nodes[k]] == q {
          r := Some(nodes[k]);
          FirstNamedPrefix(nodes, names, q, k + 1);
          break;
        }
      }
      assert nodes[..|nodes|] == nodes;
    }
    assert network[..|network|] == network;
  }

  /**
   * `_update_network(self.root, [[self.root]])` as the top call of `_add_node` makes it: the
   * layer lists and every node's layer, rebuilt from the root.
   */
  method Rebuild(bp: seq<Option<nat>>, kids: seq<seq<nat>>, layer: seq<nat>)
    returns (network: seq<seq<nat>>, lay: seq<nat>)
    requires WellFormed(bp, kids) && KidsDistinct(kids) && |kids| > 0 && |layer| == |bp| && layer[0] == 0
    ensures network == Layout(bp, kids) && lay == Depths(bp)
  {
    network, lay := UpdateNetwork(bp, kids, 0, [[0]], 0, layer);
    RebuildIsLayout(bp, kids, network);
    forall x | 0 <= x < |bp| ensures lay[x] == Depth(bp, x) {
      SetDepthsAt(bp, layer, Descendants(kids, 0), x);
      if x > 0 {
        Coverage(bp, kids, x);
      }
    }
  }

  /**
   * `_update_ids(p)`: walking `network`, the node with id -1 gets `p` and every other id at or
   * above `p` moves up; the sizes of the non-empty lists become `layer_sizes`.
   */
  method UpdateIds(network: seq<seq<nat>>, ids0: seq<int>, p: int) returns (ids: seq<int>, sizes: seq<nat>)
    requires Distinct(Flatten(network)) && Indexed(network, |ids0|)
    ensures ids == BumpOn(ids0, Flatten(network), p)
    ensures sizes == NonEmptySizes(network)
  {
    ids, sizes := ids0, [];
    for l := 0 to |network|
      invariant |ids| == |ids0|
      invariant ids == BumpOn(ids0, Flatten(network[..l]), p)
      invariant sizes == NonEmptySizes(network[..l])
    {
      var nodes := network[l];
      var size := 0;
      for k := 0 to |nodes|
        invariant |ids| == |ids0| && size == k
        invariant ids == BumpOn(ids0, Flatten(network[..l]) + nodes[..k], p)
      {
        size := size + 1;
        var x := nodes[k];
        BumpStep(network, l, k, ids0, ids, p);
        if ids[x] == -1 {
          ids := ids[x := p];
        } else if ids[x] >= p {
          ids := ids[x := ids[x] + 1];
        }
      }
      WalkListDone(network, l);
      if size != 0 {
        sizes := sizes + [size];
      }
    }
    assert network[..|network|] == network;
  }

  /** `export_network`: list index to the dictionary name to back pointer of that list. */
  method ExportNetwork(network: seq<seq<nat>>, names: seq<string>, bp: seq<Option<nat>>)
    returns (out: map<int, map<string, Option<nat>>>)
    requires Indexed(network, |names|) && Indexed(network, |bp|)
    ensures out == Exported(network, names, bp)
  {
    out := map[];
    var i := 0;
    for l := 0 to |network|
      invariant i == l
      invariant out == map j | 0 <= j < l :: LayerDict(network[j], names, bp)
    {
      var nodes := network[l];
      var d := map[];
      for k := 0 to |nodes|
        invariant d == LayerDict(nodes[..k], names, bp)
      {
        assert nodes[..k + 1][..k] == nodes[..k];
        d := d[names[nodes[k]] := bp[nodes[k]]];
      }
      assert nodes[..|nodes|] == nodes;
      out := out[i := d];
      i := i + 1;
    }
  }

  /** The arena after attaching a node under `p` is a tree whose layout can be walked. */
  lemma AttachReady(n: Net, p: nat)
    requires Inv(n) && p < |n.bp|
    ensures var bp, kids := n.bp + [Some(p)], AddChild(n.kids, p);
            WellFormed(bp, kids) && KidsDistinct(kids) && |kids| == |bp| == |n.ids| + 1 &&
            (n.layer + [0])[0] == 0 &&
            Distinct(Flatten(Layout(bp, kids))) && Indexed(Layout(bp, kids), |bp|) &&
            (forall x :: 0 <= x < |bp| ==> x in Flatten(Layout(bp, kids)))
  {
    var bp, kids := n.bp + [Some(p)], AddChild(n.kids, p);
    AttachShape(n.bp, n.kids, p);
    LayoutOnce(bp, kids);
    LayoutIndexed(bp, kids);
    assert n.layer[0] == Depth(n.bp, 0);
  }

  /** What the steps of `_add_node` compute, put together, is `Attach`. */
  lemma AttachResult(n: Net, name: string, p: nat, network: seq<seq<nat>>, lay: seq<nat>,
                     ids: seq<int>, sizes: seq<nat>)
    requires Inv(n) && p < |n.bp|
    requires network == Attach(n, name, p).network && lay == Attach(n, name, p).layer
    requires ids == BumpOn(n.ids + [-1], Flatten(network), n.ids[p]) && sizes == NonEmptySizes(network)
    ensures Net(n.root, n.names + [name], ids, lay, n.bp + [Some(p)], AddChild(n.kids, p),
                network, sizes, |sizes|) == Attach(n, name, p)
  {
    AttachReady(n, p);
    BumpOnAll(n.ids + [-1], Flatten(network), n.ids[p]);
  }

  /** `_add_node`: the new node goes under `parent` when there is one; the layers are rebuilt either way. */
  method AttachNode(n: Net, name: string, parent: Option<nat>) returns (r: Net)
    requires Inv(n) && n.root.Some? && (parent.Some? ==> parent.value < |n.bp|)
    ensures r == match parent
                 case None => Rebuilt(n)
                 case Some(p) => Attach(n, name, p)
  {
    match parent
    case Some(p) =>
      AttachReady(n, p);
      var bp, kids := n.bp + [Some(p)], AddChild(n.kids, p);
      var network, layer := Rebuild(bp, kids, n.layer + [0]);
      var ids, sizes := UpdateIds(network, n.ids + [-1], n.ids[p]);
      AttachResult(n, name, p, network, layer, ids, sizes);
      r := Net(n.root, n.names + [name], ids, layer, bp, kids, network, sizes, |sizes|);
    case None =>
      assert n.layer[0] == Depth(n.bp, 0);
      var network, layer := Rebuild(n.bp, n.kids, n.layer);
      r := n.(network := network, layer := layer);
  }

  /** `add_node`: the first node becomes the root, every later one goes under the parent named `parentName`. */
  method Insert(n: Net, name: string, parentName: string) returns (r: Net)
    requires Inv(n)
    ensures r == Add(n, name, parentName)
  {
    if n.root.None? {
      r := Net(Some(0), [name], [0], [0], [None], [[]], [[0]], n.layerSizes, n.numLayers);
    } else {
      NetIndexed(n);
      var p := FetchBp(n.network, n.names, parentName);
      FetchWithin(n, parentName);
      r := AttachNode(n, name, p);
    }
  }

  // ---------------------------------------------------------------------------------------------
  // The class

  class TestNetwork {
    var root: Option<nat>
    var names: seq<string>
    var ids: seq<int>
    var layer: seq<nat>
    var bp: seq<Option<nat>>
    var kids: seq<seq<nat>>
    var network: seq<seq<nat>>
    var layerSizes: seq<nat>
    var numLayers: nat

    function State(): Net
      reads this
    {
      Net(root, names, ids, layer, bp, kids, network, layerSizes, numLayers)
    }

    ghost predicate Valid()
      reads this
    {
      Inv(State())
    }

    constructor ()
      ensures Valid() && State() == Empty()
    {
      root, names, ids, layer, bp, kids := None, [], [], [], [], [];
      network, layerSizes, numLayers := [[]], [], 0;
    }

    /** `add_node`: the first node becomes the root, every later one goes under the parent named `parentName`. */
    method AddNode(name: string, parentName: string)
      requires Valid()
      modifies this
      ensures Valid() && State() == Add(old(State()), name, parentName)
    {
      var r := Insert(State(), name, parentName);
      AddInv(State(), name, parentName);
      root, names, ids, layer, bp, kids := r.root, r.names, r.ids, r.layer, r.bp, r.kids;
      network, layerSizes, numLayers := r.network, r.layerSizes, r.numLayers;
      assert State() == r;
    }

    /** `export_network` of this network. */
    method Export() returns (out: map<int, map<string, Option<nat>>>)
      requires Valid()
      ensures Indexed(network, |names|) && Indexed(network, |bp|)
      ensures out == Exported(network, names, bp)
    {
      NetIndexed(State());
      out := ExportNetwork(network, names, bp);
    }

    /** `import_network`: `add_node` for every entry, list by list. */
    method ImportNetwork(layout: seq<seq<(string, string)>>)
      requires Valid()
      modifies this
      ensures Valid() && State() == Replay(old(State()), Entries(layout))
    {
      ghost var n := State();
      for l := 0 to |layout|
        invariant Valid() && State() == Replay(n, Entries(layout[..l]))
      {
        var entries := layout[l];
        assert Entries(layout[..l + 1]) == Entries(layout[..l]) + entries by {
          assert layout[..l + 1][..l] == layout[..l];
        }
        assert Entries(layout[..l]) + entries[..0] == Entries(layout[..l]);
        for k := 0 to |entries|
          invariant Valid() && State() == Replay(n, Entries(layout[..l]) + entries[..k])
        {
          ReplayStep(n, Entries(layout[..l]), entries, k);
          AddNode(entries[k].0, entries[k].1);
        }
        assert entries[..|entries|] == entries;
      }
      assert layout[..|layout|] == layout;
    }
  }

  /**
   * `_update_network(node, net0, flag)`: the children of `node`, in insertion order, each with
   * its own subtree, are placed into the lists depth first.  The nodes' layers are threaded
   * through `lay`.
   */
  method UpdateNetwork(bp: seq<Option<nat>>, kids: seq<seq<nat>>, node: nat, net0: seq<seq<nat>>,
                       flag: nat, lay0: seq<nat>) returns (res: seq<seq<nat>>, lay: seq<nat>)
    requires Linked(bp, kids) && KidsDistinct(kids) && |lay0| == |bp| && node < |kids|
    requires flag == Depth(bp, node) && flag < |net0|
    ensures Placed(bp, net0, Descendants(kids, node), res)
    ensures |res| == |net0| + |HasKids(kids, Subtree(kids, node))|
    ensures lay == SetDepths(bp, lay0, Descendants(kids, node))
    decreases |kids| - node, 1
  {
    res, lay := net0, lay0;
    assert Placed(bp, net0, [], res);
    for i := 0 to |kids[node]|
      invariant Placed(bp, net0, Forest(kids, node, i), res)
      invariant |res| == |net0| + (if i > 0 then 1 else 0) + |HasKids(kids, Forest(kids, node, i))|
      invariant lay == SetDepths(bp, lay0, Forest(kids, node, i))
    {
      res, lay := UpdateChild(bp, kids, node, i, net0, flag, lay0, res, lay);
    }
    SubtreeCount(kids, node);
  }

  /**
   * One pass of the loop of `_update_network` over the forward pointers of `node`: child `i`
   * gets the layer below `flag`, a new list is opened when it is the first child, the child is
   * appended to the list of its layer and the recursive call places its own subtree.
   */
  method UpdateChild(bp: seq<Option<nat>>, kids: seq<seq<nat>>, node: nat, i: nat, net0: seq<seq<nat>>,
                     flag: nat, lay0: seq<nat>, res0: seq<seq<nat>>, lay1: seq<nat>)
    returns (res: seq<seq<nat>>, lay: seq<nat>)
    requires Linked(bp, kids) && KidsDistinct(kids) && |lay0| == |bp| && node < |kids| && i < |kids[node]|
    requires flag == Depth(bp, node) && flag < |net0|
    requires Placed(bp, net0, Forest(kids, node, i), res0)
    requires |res0| == |net0| + (if i > 0 then 1 else 0) + |HasKids(kids, Forest(kids, node, i))|
    requires lay1 == SetDepths(bp, lay0, Forest(kids, node, i))
    ensures Placed(bp, net0, Forest(kids, node, i + 1), res)
    ensures |res| == |net0| + 1 + |HasKids(kids, Forest(kids, node, i + 1))|
    ensures lay == SetDepths(bp, lay0, Forest(kids, node, i + 1))
    decreases |kids| - node, 0
  {
    var next := flag + 1;
    var fps := kids[node];
    var fp := fps[i];
    ghost var grown := if i == 0 then res0 + [[]] else res0;
    PlaceChild(bp, kids, net0, node, i, res0, grown);
    LayerChild(bp, kids, lay0, node, i, lay1);
    // `fp._fpointers is not []` compares identities and always holds: the leaf branch is dead.
    lay := lay1[fp := next];
    FirstChild(fps, i);
    res := res0;
    if fp == fps[0] {
      res := res + [[]];
    }
    res := res[next := res[next] + [fp]];
    ghost var mid, lay2 := res, lay;
    res, lay := UpdateNetwork(bp, kids, fp, res, next, lay);
    ChildDone(bp, kids, net0, node, i, mid, res);
    LayerDone(bp, kids, lay0, node, i, lay2, lay);
  }

  /** A matching node in the prefix is still the first match of the whole list. */
  lemma {:induction false} FirstNamedPrefix(layer: seq<nat>, names: seq<string>, q: string, k: nat)
    requires Within(layer, |names|) && k <= |layer|
    requires FirstNamed(layer[..k], names, q).Some?
    ensures FirstNamed(layer, names, q) == FirstNamed(layer[..k], names, q)
    decreases |layer| - k
  {
    if k < |layer| {
      assert layer[..k + 1][..k] == layer[..k];
      FirstNamedPrefix(layer, names, q, k + 1);
    } else {
      assert layer[..k] == layer;
    }
  }

  /** Renumbering the next node of the walk, not met before, updates just its entry. */
  lemma BumpStep(network: seq<seq<nat>>, l: nat, k: nat, ids0: seq<int>, ids: seq<int>, p: int)
    requires Distinct(Flatten(network)) && Indexed(network, |ids0|) && l < |network| && k < |network[l]|
    requires ids == BumpOn(ids0, Flatten(network[..l]) + network[l][..k], p)
    ensures ids[network[l][k]] == ids0[network[l][k]]
    ensures BumpOn(ids0, Flatten(network[..l]) + network[l][..k + 1], p) ==
            ids[network[l][k] := Bump(ids0[network[l][k]], p)]
  {
    var x := network[l][k];
    FlattenFresh(network, l, k);
    assert network[l][..k + 1] == network[l][..k] + [x];
    AppendAssoc(Flatten(network[..l]), network[l][..k], [x]);
    assert Within(network[l], |ids0|);
  }

  /** Finishing list `l` of the walk. */
  lemma WalkListDone(network: seq<seq<nat>>, l: nat)
    requires l < |network|
    ensures Flatten(network[..l + 1]) == Flatten(network[..l]) + network[l][..|network[l]|]
    ensures NonEmptySizes(network[..l + 1]) ==
            NonEmptySizes(network[..l]) + (if |network[l]| != 0 then [|network[l]|] else [])
  {
    assert network[..l + 1][..l] == network[..l];
    assert network[l][..|network[l]|] == network[l];
  }

  /** When every node is walked, the renumbering walk renumbers every node. */
  lemma BumpOnAll(ids: seq<int>, s: seq<nat>, p: int)
    requires forall x :: 0 <= x < |ids| ==> x in s
    ensures BumpOn(ids, s, p) == BumpAll(ids, p)
  {
  }

  /** Replaying one more entry of the current list is one more `add_node`. */
  lemma ReplayStep(n: Net, done: seq<(string, string)>, entries: seq<(string, string)>, k: nat)
    requires Inv(n) && k < |entries|
    ensures Inv(Replay(n, done + entries[..k]))
    ensures Replay(n, done + entries[..k + 1]) == Add(Replay(n, done + entries[..k]), entries[k].0, entries[k].1)
  {
    var es := done + entries[..k + 1];
    var init := done + entries[..k];
    assert es[..|es| - 1] == init && es[|es| - 1] == entries[k];
    ReplayLast(n, es);
  }

  /** Replaying `a + b` is replaying `a`, then `b` on the result. */
  lemma {:induction false} ReplayAppend(n: Net, a: seq<(string, string)>, b: seq<(string, string)>)
    requires Inv(n)
    ensures Replay(n, a + b) == Replay(Replay(n, a), b)
    decreases |b|
  {
    if b == [] {
      assert a + b == a;
    } else {
      var b' := b[..|b| - 1];
      assert (a + b)[..|a + b| - 1] == a + b' && (a + b)[|a + b| - 1] == b[|b| - 1];
      ReplayAppend(n, a, b');
    }
  }

  /** `import_network`'s outer loop: the lists of `layout` imported one after the other. */
  function ImportLists(n: Net, layout: seq<seq<(string, string)>>): (r: Net)
    requires Inv(n)
    ensures Inv(r)
  {
    if layout == [] then n else Replay(ImportLists(n, layout[..|layout| - 1]), layout[|layout| - 1])
  }

  /** Importing a layout entry by entry is importing it list by list. */
  lemma {:induction false} ImportByLists(n: Net, layout: seq<seq<(string, string)>>)
    requires Inv(n)
    ensures Replay(n, Entries(layout)) == ImportLists(n, layout)
  {
    if layout != [] {
      var init := layout[..|layout| - 1];
      ImportByLists(n, init);
      ReplayAppend(n, Entries(init), layout[|layout| - 1]);
    }
  }

  lemma ReplayLast(n: Net, es: seq<(string, string)>)
    requires Inv(n) && es != []
    ensures Replay(n, es) == Add(Replay(n, es[..|es| - 1]), es[|es| - 1].0, es[|es| - 1].1)
  {
  }

  /** The first child, and only it, is the first entry of a list without repetition. */
  lemma FirstChild(fps: seq<nat>, i: nat)
    requires Distinct(fps) && i < |fps|
    ensures fps[i] == fps[0] <==> i == 0
  {
  }

  /** The layout lists only nodes of the arena. */
  lemma LayoutIndexed(bp: seq<Option<nat>>, kids: seq<seq<nat>>)
    requires WellFormed(bp, kids) && |kids| > 0
    ensures Indexed(Layout(bp, kids), |kids|)
  {
    forall l, i | 0 <= l < |Layout(bp, kids)| && 0 <= i < |Layout(bp, kids)[l]|
      ensures Layout(bp, kids)[l][i] < |kids|
    {
      LayoutMembers(bp, kids, l);
      assert Layout(bp, kids)[l][i] in Layout(bp, kids)[l];
    }
  }

  /** Before the recursive call: the child is placed in the list below its parent's. */
  lemma PlaceChild(bp: seq<Option<nat>>, kids: seq<seq<nat>>, net0: seq<seq<nat>>, node: nat, i: nat,
                   res: seq<seq<nat>>, grown: seq<seq<nat>>)
    requires Linked(bp, kids) && node < |kids| && i < |kids[node]|
    requires Placed(bp, net0, Forest(kids, node, i), res) && Depth(bp, node) < |net0|
    requires |res| == |net0| + (if i > 0 then 1 else 0) + |HasKids(kids, Forest(kids, node, i))|
    requires grown == if i == 0 then res + [[]] else res
    ensures kids[node][i] < |bp| && Depth(bp, kids[node][i]) == Depth(bp, node) + 1
    ensures Depth(bp, node) + 1 < |grown| == |net0| + 1 + |HasKids(kids, Forest(kids, node, i))|
    ensures Placed(bp, net0, Forest(kids, node, i) + [kids[node][i]],
                   grown[Depth(bp, node) + 1 := grown[Depth(bp, node) + 1] + [kids[node][i]]])
  {
    OpenList(bp, net0, Forest(kids, node, i), res, grown, i, |HasKids(kids, Forest(kids, node, i))|);
    ChildDepth(bp, kids, node, i);
    PlaceNode(bp, net0, Forest(kids, node, i), grown, kids[node][i], Depth(bp, node));
  }

  /** A node one below a list of `net0` is appended to the list of its depth. */
  lemma PlaceNode(bp: seq<Option<nat>>, net0: seq<seq<nat>>, s: seq<nat>, res: seq<seq<nat>>, x: nat, d: nat)
    requires Placed(bp, net0, s, res) && x < |bp| && Depth(bp, x) == d + 1 && d < |net0| < |res|
    ensures Placed(bp, net0, s + [x], res[d + 1 := res[d + 1] + [x]])
  {
    PlacedPut(bp, net0, s, res, x);
  }

  /** The first child opens a new list; later children find it open already. */
  lemma OpenList(bp: seq<Option<nat>>, net0: seq<seq<nat>>, s: seq<nat>, res: seq<seq<nat>>,
                 grown: seq<seq<nat>>, i: nat, c: nat)
    requires Placed(bp, net0, s, res) && |res| == |net0| + (if i > 0 then 1 else 0) + c
    requires grown == if i == 0 then res + [[]] else res
    ensures Placed(bp, net0, s, grown) && |grown| == |net0| + 1 + c
  {
    if i == 0 {
      PlacedGrow(bp, net0, s, res);
    }
  }

  /** After the recursive call: the child's subtree is placed as well. */
  lemma ChildDone(bp: seq<Option<nat>>, kids: seq<seq<nat>>, net0: seq<seq<nat>>, node: nat, i: nat,
                  mid: seq<seq<nat>>, res: seq<seq<nat>>)
    requires Linked(bp, kids) && node < |kids| && i < |kids[node]|
    requires Placed(bp, net0, Forest(kids, node, i) + [kids[node][i]], mid)
    requires |mid| == |net0| + 1 + |HasKids(kids, Forest(kids, node, i))|
    requires Placed(bp, mid, Descendants(kids, kids[node][i]), res)
    requires |res| == |mid| + |HasKids(kids, Subtree(kids, kids[node][i]))|
    ensures Placed(bp, net0, Forest(kids, node, i + 1), res)
    ensures |res| == |net0| + 1 + |HasKids(kids, Forest(kids, node, i + 1))|
  {
    var done, fp := Forest(kids, node, i), kids[node][i];
    PlacedCompose(bp, net0, done + [fp], mid, Descendants(kids, fp), res);
    AppendAssoc(done, [fp], Descendants(kids, fp));
    assert Forest(kids, node, i + 1) == done + Subtree(kids, fp);
    HasKidsAppend(kids, done, Subtree(kids, fp));
  }

  /** Before the recursive call: the child's layer is set to its depth. */
  lemma LayerChild(bp: seq<Option<nat>>, kids: seq<seq<nat>>, lay0: seq<nat>, node: nat, i: nat, lay: seq<nat>)
    requires Linked(bp, kids) && node < |kids| && i < |kids[node]| && |lay0| == |bp|
    requires lay == SetDepths(bp, lay0, Forest(kids, node, i))
    ensures kids[node][i] < |lay|
    ensures lay[kids[node][i] := Depth(bp, node) + 1] == SetDepths(bp, lay0, Forest(kids, node, i) + [kids[node][i]])
  {
    var done, fp := Forest(kids, node, i), kids[node][i];
    ChildDepth(bp, kids, node, i);
    assert (done + [fp])[..|done|] == done;
  }

  /** After the recursive call: the layers of the child's subtree are set as well. */
  lemma LayerDone(bp: seq<Option<nat>>, kids: seq<seq<nat>>, lay0: seq<nat>, node: nat, i: nat,
                  lay1: seq<nat>, lay: seq<nat>)
    requires Linked(bp, kids) && node < |kids| && i < |kids[node]| && |lay0| == |bp|
    requires lay1 == SetDepths(bp, lay0, Forest(kids, node, i) + [kids[node][i]])
    requires lay == SetDepths(bp, lay1, Descendants(kids, kids[node][i]))
    ensures lay == SetDepths(bp, lay0, Forest(kids, node, i + 1))
  {
    var done, fp := Forest(kids, node, i), kids[node][i];
    ChildDepth(bp, kids, node, i);
    SetDepthsAppend(bp, lay0, done + [fp], Descendants(kids, fp));
    AppendAssoc(done, [fp], Descendants(kids, fp));
    assert Forest(kids, node, i + 1) == done + Subtree(kids, fp);
  }

  /** A subtree has one node with children per node with children among the descendants, plus its root if it has any. */
  lemma SubtreeCount(kids: seq<seq<nat>>, node: nat)
    requires KidsAfter(kids) && node < |kids|
    ensures |HasKids(kids, Subtree(kids, node))| ==
            (if |kids[node]| > 0 then 1 else 0) + |HasKids(kids, Forest(kids, node, |kids[node]|))|
  {
    HasKidsAppend(kids, [node], Forest(kids, node, |kids[node]|));
    HasKidsOne(kids, node);
  }
}
