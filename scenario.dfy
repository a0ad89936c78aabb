/**
 * The `NetTest` scene (node_tree.py:258-264, 289-295): its layout imported into a fresh
 * TestNetwork, and the edge groups `DAG.add_edges` selects on the result.  Nodes are numbered
 * in the order they are added: A = 0, B = 1, D = 2, C = 3, E = 4, F = 5.
 */
module NetTest {
  import opened Seqs
  import opened Tree
  import opened Ids
  import opened Network
  import opened Edges

  /** Node to the name of its parent, list by list: A at the top, B and D under A, C under B, E and F under D. */
  function SceneLayout(): seq<seq<(string, string)>> {
    [[("A", "None")], [("B", "A"), ("D", "A")], [("C", "B"), ("E", "D"), ("F", "D")]]
  }

  /** `es` holds the scene's entries in order, stated entry by entry. */
  predicate SceneOrder(es: seq<(string, string)>) {
    |es| == 6 && es[0] == ("A", "None") && es[1] == ("B", "A") && es[2] == ("D", "A") &&
    es[3] == ("C", "B") && es[4] == ("E", "D") && es[5] == ("F", "D")
  }

  /** The entries of the scene's layout in the order `import_network` adds them. */
  lemma SceneEntries()
    ensures SceneOrder(Entries(SceneLayout()))
  {
    var l := SceneLayout();
    var l1, l2 := l[..1], l[..2];
    assert Entries(l1) == [("A", "None")] by {
      assert l1[..0] == [];
    }
    assert Entries(l2) == [("A", "None"), ("B", "A"), ("D", "A")] by {
      assert l2[..1] == l1;
    }
    assert l[..2] == l2;
  }

  /** The arena fields of `r`: its names, ids, back pointers and forward pointers. */
  predicate Holds(r: Net, names: seq<string>, ids: seq<int>, bp: seq<Option<nat>>, kids: seq<seq<nat>>) {
    r.root == Some(0) && r.names == names && r.ids == ids && r.bp == bp && r.kids == kids
  }

  /** Node `p` is the only node named `q`, and `q` is not the string "None". */
  predicate NamedOnce(n: Net, q: string, p: nat) {
    n.root.Some? && OnlyNamed(n.names, q, p) && q != "None"
  }

  /** Adding under a name that exactly one node carries. */
  lemma Grow(n: Net, name: string, q: string, p: nat)
    requires Inv(n) && NamedOnce(n, q, p)
    ensures Holds(Add(n, name, q), n.names + [name], BumpAll(n.ids + [-1], n.ids[p]),
                  n.bp + [Some(p)], AddChild(n.kids, p))
  {
    FetchUnique(n, name, q, p);
    AttachPointers(n, name, p);
  }

  /** The scene's first `k` entries replayed on an empty network. */
  function Prefix(es: seq<(string, string)>, k: nat): Net
    requires k <= |es|
  {
    Replay(Empty(), es[..k])
  }

  lemma Next(es: seq<(string, string)>, k: nat)
    requires k < |es|
    ensures Prefix(es, k + 1) == Add(Prefix(es, k), es[k].0, es[k].1)
  {
    assert es[..k + 1][..k] == es[..k];
    ReplayLast(Empty(), es[..k + 1]);
  }

  // Each entry after the first attaches under a node whose name no other node carries.  The
  // lemmas `Stage2` .. `Stage6` do the arithmetic of one step on the arena fields alone.

  lemma Stage2(n: Net, r: Net)
    requires Holds(n, ["A"], [0], [None], [[]])
    requires Holds(r, n.names + ["B"], BumpAll(n.ids + [-1], n.ids[0]), n.bp + [Some(0)], AddChild(n.kids, 0))
    ensures Holds(r, ["A", "B"], [1, 0], [None, Some(0)], [[1], []]) && NamedOnce(r, "A", 0)
  {
    var k: seq<seq<nat>> := [[]];
    var c: seq<nat> := [] + [1];
    assert c == [1];
    assert k[0 := c] + [[]] == [[1], []];
    var v := BumpAll([0] + [-1], 0);
    assert v[0] == 1 && v[1] == 0;
  }

  lemma Stage3(n: Net, r: Net)
    requires Holds(n, ["A", "B"], [1, 0], [None, Some(0)], [[1], []])
    requires Holds(r, n.names + ["D"], BumpAll(n.ids + [-1], n.ids[0]), n.bp + [Some(0)], AddChild(n.kids, 0))
    ensures Holds(r, ["A", "B", "D"], [2, 0, 1], [None, Some(0), Some(0)], [[1, 2], [], []]) &&
            NamedOnce(r, "B", 1)
  {
    var k: seq<seq<nat>> := [[1], []];
    var c: seq<nat> := [1] + [2];
    assert c == [1, 2];
    assert k[0 := c] == [[1, 2], []];
    assert k[0 := c] + [[]] == [[1, 2], [], []];
    var v := BumpAll([1, 0] + [-1], 1);
    assert v[0] == 2 && v[1] == 0 && v[2] == 1;
  }

  lemma Stage4(n: Net, r: Net)
    requires Holds(n, ["A", "B", "D"], [2, 0, 1], [None, Some(0), Some(0)], [[1, 2], [], []])
    requires Holds(r, n.names + ["C"], BumpAll(n.ids + [-1], n.ids[1]), n.bp + [Some(1)], AddChild(n.kids, 1))
    ensures Holds(r, ["A", "B", "D", "C"], [3, 1, 2, 0], [None, Some(0), Some(0), Some(1)],
                  [[1, 2], [3], [], []]) && NamedOnce(r, "D", 2)
  {
    var k: seq<seq<nat>> := [[1, 2], [], []];
    var c: seq<nat> := [] + [3];
    assert c == [3];
    assert k[1 := c] == [[1, 2], [3], []];
    assert k[1 := c] + [[]] == [[1, 2], [3], [], []];
    var v := BumpAll([2, 0, 1] + [-1], 0);
    assert v[0] == 3 && v[1] == 1 && v[2] == 2 && v[3] == 0;
  }

  lemma Stage5(n: Net, r: Net)
    requires Holds(n, ["A", "B", "D", "C"], [3, 1, 2, 0], [None, Some(0), Some(0), Some(1)],
                   [[1, 2], [3], [], []])
    requires Holds(r, n.names + ["E"], BumpAll(n.ids + [-1], n.ids[2]), n.bp + [Some(2)], AddChild(n.kids, 2))
    ensures Holds(r, ["A", "B", "D", "C", "E"], [4, 1, 3, 0, 2],
                  [None, Some(0), Some(0), Some(1), Some(2)], [[1, 2], [3], [4], [], []]) &&
            NamedOnce(r, "D", 2)
  {
    var k: seq<seq<nat>> := [[1, 2], [3], [], []];
    var c: seq<nat> := [] + [4];
    assert c == [4];
    assert k[2 := c] == [[1, 2], [3], [4], []];
    assert k[2 := c] + [[]] == [[1, 2], [3], [4], [], []];
    var v := BumpAll([3, 1, 2, 0] + [-1], 2);
    assert v[0] == 4 && v[1] == 1 && v[2] == 3 && v[3] == 0 && v[4] == 2;
  }

  lemma Stage6(n: Net, r: Net)
    requires Holds(n, ["A", "B", "D", "C", "E"], [4, 1, 3, 0, 2],
                   [None, Some(0), Some(0), Some(1), Some(2)], [[1, 2], [3], [4], [], []])
    requires Holds(r, n.names + ["F"], BumpAll(n.ids + [-1], n.ids[2]), n.bp + [Some(2)], AddChild(n.kids, 2))
    ensures Holds(r, ["A", "B", "D", "C", "E", "F"], [5, 1, 4, 0, 2, 3], FinalBp(), FinalKids())
  {
    var k: seq<seq<nat>> := [[1, 2], [3], [4], [], []];
    var c: seq<nat> := [4] + [5];
    assert c == [4, 5];
    assert k[2 := c] == [[1, 2], [3], [4, 5], [], []];
    assert k[2 := c] + [[]] == FinalKids();
    var v := BumpAll([4, 1, 3, 0, 2] + [-1], 3);
    assert v[0] == 5 && v[1] == 1 && v[2] == 4 && v[3] == 0 && v[4] == 2 && v[5] == 3;
  }

  lemma At1(es: seq<(string, string)>)
    requires SceneOrder(es)
    ensures Holds(Prefix(es, 1), ["A"], [0], [None], [[]]) && NamedOnce(Prefix(es, 1), "A", 0)
  {
    Next(es, 0);
    assert Prefix(es, 0) == Empty();
  }

  lemma At2(es: seq<(string, string)>)
    requires SceneOrder(es)
    ensures Holds(Prefix(es, 2), ["A", "B"], [1, 0], [None, Some(0)], [[1], []]) && NamedOnce(Prefix(es, 2), "A", 0)
  {
    At1(es);
    Next(es, 1);
    Grow(Prefix(es, 1), "B", "A", 0);
    Stage2(Prefix(es, 1), Prefix(es, 2));
  }

  lemma At3(es: seq<(string, string)>)
    requires SceneOrder(es)
    ensures Holds(Prefix(es, 3), ["A", "B", "D"], [2, 0, 1], [None, Some(0), Some(0)], [[1, 2], [], []])
    ensures NamedOnce(Prefix(es, 3), "B", 1)
  {
    At2(es);
    Next(es, 2);
    Grow(Prefix(es, 2), "D", "A", 0);
    Stage3(Prefix(es, 2), Prefix(es, 3));
  }

  lemma At4(es: seq<(string, string)>)
    requires SceneOrder(es)
    ensures Holds(Prefix(es, 4), ["A", "B", "D", "C"], [3, 1, 2, 0], [None, Some(0), Some(0), Some(1)],
                  [[1, 2], [3], [], []])
    ensures NamedOnce(Prefix(es, 4), "D", 2)
  {
    At3(es);
    Next(es, 3);
    Grow(Prefix(es, 3), "C", "B", 1);
    Stage4(Prefix(es, 3), Prefix(es, 4));
  }

  lemma At5(es: seq<(string, string)>)
    requires SceneOrder(es)
    ensures Holds(Prefix(es, 5), ["A", "B", "D", "C", "E"], [4, 1, 3, 0, 2],
                  [None, Some(0), Some(0), Some(1), Some(2)], [[1, 2], [3], [4], [], []])
    ensures NamedOnce(Prefix(es, 5), "D", 2)
  {
    At4(es);
    Next(es, 4);
    Grow(Prefix(es, 4), "E", "D", 2);
    Stage5(Prefix(es, 4), Prefix(es, 5));
  }

  /** The back pointers once the whole layout is imported: B and D under A, C under B, E and F under D. */
  function FinalBp(): seq<Option<nat>> {
    [None, Some(0), Some(0), Some(1), Some(2), Some(2)]
  }

  /** The forward pointers once the whole layout is imported. */
  function FinalKids(): seq<seq<nat>> {
    [[1, 2], [3], [4, 5], [], [], []]
  }

  lemma At6(es: seq<(string, string)>)
    requires SceneOrder(es)
    ensures Holds(Prefix(es, 6), ["A", "B", "D", "C", "E", "F"], [5, 1, 4, 0, 2, 3], FinalBp(), FinalKids())
  {
    At5(es);
    Next(es, 5);
    Grow(Prefix(es, 5), "F", "D", 2);
    Stage6(Prefix(es, 5), Prefix(es, 6));
  }

  lemma Whole(es: seq<(string, string)>)
    ensures Prefix(es, |es|) == Replay(Empty(), es)
  {
    assert es[..|es|] == es;
  }

  /** The lists once the whole layout is imported: [A], [B, D], [C, E, F] and a trailing empty list. */
  function FinalNet(): seq<seq<nat>> {
    [[0], [1, 2], [3, 4, 5], []]
  }

  /** The final forward pointers, stated node by node. */
  predicate FinalShape(kids: seq<seq<nat>>) {
    |kids| == 6 && kids[0] == [1, 2] && kids[1] == [3] && kids[2] == [4, 5] &&
    kids[3] == [] && kids[4] == [] && kids[5] == []
  }

  lemma FinalShapeOf(kids: seq<seq<nat>>)
    requires kids == FinalKids()
    ensures FinalShape(kids)
  {
  }

  lemma FinalLayout(bp: seq<Option<nat>>, kids: seq<seq<nat>>)
    requires WellFormed(bp, kids) && KidsDistinct(kids) && FinalShape(kids)
    ensures Layout(bp, kids) == FinalNet()
  {
    FinalLevels(kids);
    FinalCount(kids);
    LayoutByLevels(bp, kids, FinalNet());
  }

  lemma FinalLevels(kids: seq<seq<nat>>)
    requires FinalShape(kids)
    ensures ConcatKids(kids, [0]) == [1, 2] && ConcatKids(kids, [1, 2]) == [3, 4, 5] &&
            ConcatKids(kids, [3, 4, 5]) == []
  {
    ConcatKidsOne(kids, 0);
    ConcatKidsOne(kids, 1);
    ConcatKidsOne(kids, 2);
    ConcatKidsAppend(kids, [1], [2]);
    assert [1] + [2] == [1, 2];
    assert [3] + [4, 5] == [3, 4, 5];
    ConcatKidsOne(kids, 3);
    ConcatKidsOne(kids, 4);
    ConcatKidsOne(kids, 5);
    ConcatKidsAppend(kids, [3], [4]);
    ConcatKidsAppend(kids, [3, 4], [5]);
    assert [3] + [4] == [3, 4] && [3, 4] + [5] == [3, 4, 5];
  }

  lemma FinalCount(kids: seq<seq<nat>>)
    requires FinalShape(kids)
    ensures CountKids(kids, 6) == 3
  {
    assert |kids[0]| == 2 && |kids[1]| == 1 && |kids[2]| == 2;
    assert CountKids(kids, 1) == 1;
    assert CountKids(kids, 2) == 2;
    assert CountKids(kids, 3) == 3;
    assert CountKids(kids, 4) == 3;
    assert CountKids(kids, 5) == 3;
  }


  lemma FinalDepths(bp: seq<Option<nat>>)
    requires bp == FinalBp()
    ensures BackOrdered(bp) && Depths(bp) == [0, 1, 1, 2, 2, 2]
  {
    var d := Depths(bp);
    assert d[0] == 0 && d[1] == 1 && d[2] == 1 && d[3] == 2 && d[4] == 2 && d[5] == 2;
  }

  lemma FinalSizes()
    ensures NonEmptySizes(FinalNet()) == [1, 2, 3]
  {
    var none: seq<seq<nat>> := [];
    var n1: seq<seq<nat>> := [[0]];
    var n2: seq<seq<nat>> := [[0], [1, 2]];
    var n3: seq<seq<nat>> := [[0], [1, 2], [3, 4, 5]];
    assert n1[..0] == none;
    assert NonEmptySizes(n1) == [1];
    assert n2[..1] == n1;
    assert NonEmptySizes(n2) == [1, 2];
    assert n3[..2] == n2;
    assert NonEmptySizes(n3) == [1, 2, 3];
    assert FinalNet()[..3] == n3;
  }

  /** The edge groups of the final network: A to B and D; B to C, D to E and F; none below. */
  function FinalGroups(): seq<seq<Edge>> {
    [[(0, 1), (0, 2)], [(1, 3), (2, 4), (2, 5)], []]
  }

  /**
   * The network the scene imports: A at the top, B and D, then C, E and F, and an empty list
   * last; `layer_sizes` is [1, 2, 3] and the ids are A = 5, B = 1, D = 4, C = 0, E = 2, F = 3.
   */
  lemma SceneState(es: seq<(string, string)>)
    requires SceneOrder(es)
    ensures var n := Replay(Empty(), es);
            n.names == ["A", "B", "D", "C", "E", "F"] && n.ids == [5, 1, 4, 0, 2, 3] &&
            n.bp == FinalBp() && n.kids == FinalKids() && n.network == FinalNet() &&
            n.layer == [0, 1, 1, 2, 2, 2] && n.layerSizes == [1, 2, 3] && n.numLayers == 3
  {
    Whole(es);
    At6(es);
    var n := Replay(Empty(), es);
    FinalShapeOf(n.kids);
    FinalLayout(n.bp, n.kids);
    FinalDepths(n.bp);
    FinalSizes();
  }

  /** The final lists, stated list by list. */
  predicate FinalLists(net: seq<seq<nat>>) {
    |net| == 4 && net[0] == [0] && net[1] == [1, 2] && net[2] == [3, 4, 5] && net[3] == []
  }

  /** The final back pointers, stated node by node. */
  predicate FinalParents(bp: seq<Option<nat>>) {
    |bp| == 6 && bp[0] == None && bp[1] == Some(0) && bp[2] == Some(0) && bp[3] == Some(1) &&
    bp[4] == Some(2) && bp[5] == Some(2)
  }

  /** `add_edges` on the final network: each node of the lists below the top joined to its parent. */
  lemma SceneGroups(n: Net)
    requires Inv(n) && n.root.Some? && FinalLists(n.network) && FinalParents(n.bp)
    ensures Arena(n.kids, n.ids) && Indexed(n.network, |n.kids|)
    ensures Groups(n.kids, n.ids, n.network) == FinalGroups()
  {
    GroupsAreParents(n);
    ParentsGroups(n.bp, Groups(n.kids, n.ids, n.network), n.network);
  }

  lemma ParentsGroups(bp: seq<Option<nat>>, g: seq<seq<Edge>>, net: seq<seq<nat>>)
    requires FinalLists(net) && FinalParents(bp) && |g| == |net| - 1
    requires forall d :: 1 <= d < |net| ==> HasParents(bp, net[d]) && g[d - 1] == Parented(bp, net[d])
    ensures g == FinalGroups()
  {
    assert g[0] == Parented(bp, net[1]) == [(0, 1), (0, 2)];
    assert g[1] == Parented(bp, net[2]) == [(1, 3), (2, 4), (2, 5)];
    assert g[2] == Parented(bp, net[3]) == [];
  }

  /** The state the scene's import produces, and the edge groups `add_edges` selects on it. */
  lemma SceneRun(n: Net)
    requires n == Replay(Empty(), Entries(SceneLayout()))
    ensures n.network == FinalNet() && n.ids == [5, 1, 4, 0, 2, 3] && n.layerSizes == [1, 2, 3]
    ensures Arena(n.kids, n.ids) && Indexed(n.network, |n.kids|)
    ensures Groups(n.kids, n.ids, n.network) == FinalGroups()
  {
    SceneEntries();
    SceneState(Entries(SceneLayout()));
    SceneGroups(n);
  }

  /**
   * `add_network`: a fresh TestNetwork imports the scene's layout, and the DAG built on its
   * `network` selects the edge groups.
   */
  method AddNetwork() returns (network: seq<seq<nat>>, ids: seq<int>, layerSizes: seq<nat>, groups: seq<seq<Edge>>)
    ensures network == FinalNet() && ids == [5, 1, 4, 0, 2, 3] && layerSizes == [1, 2, 3]
    ensures groups == FinalGroups()
  {
    var obj := new TestNetwork();
    obj.ImportNetwork(SceneLayout());
    SceneRun(obj.State());
    network, ids, layerSizes := obj.network, obj.ids, obj.layerSizes;
    groups := AddEdges(obj.kids, ids, network);
  }
}
