/**
 * The edge selection of `DAG.add_edges` (node_tree.py:234-246): for every two adjacent lists of
 * `network`, every pair of nodes `(n1, n2)` in product order gets one edge per forward pointer
 * of `n1` whose id is `n2`'s.  On the layers of a TestNetwork the edges of a group are exactly
 * the (parent, child) pairs of the lower list, one per child, in the order of the lower list.
 */
module Edges {
  import opened Seqs
  import opened Tree
  import opened Ids
  import opened Network

  /** An edge from a node of one list to a node of the next one. */
  type Edge = (nat, nat)

  /** What the edge rule reads: the forward pointers and the ids of the same nodes. */
  predicate Arena(kids: seq<seq<nat>>, ids: seq<int>) {
    |ids| == |kids| && KidsAfter(kids)
  }

  /** One edge `(n1, n2)` per pointer of `fps` whose id is the id of `n2`. */
  function Matches(ids: seq<int>, fps: seq<nat>, n1: nat, n2: nat): seq<Edge>
    requires Within(fps, |ids|) && n2 < |ids|
  {
    if fps == [] then []
    else
      Matches(ids, fps[..|fps| - 1], n1, n2) +
      (if ids[fps[|fps| - 1]] == ids[n2] then [(n1, n2)] else [])
  }

  /** The edges from `n1` to the nodes of `l2`, in the order of `l2`. */
  function Row(kids: seq<seq<nat>>, ids: seq<int>, n1: nat, l2: seq<nat>): seq<Edge>
    requires Arena(kids, ids) && n1 < |kids| && Within(l2, |kids|)
  {
    if l2 == [] then []
    else Row(kids, ids, n1, l2[..|l2| - 1]) + Matches(ids, kids[n1], n1, l2[|l2| - 1])
  }

  /** The edge group of the lists `l1` and `l2`: the rows of the nodes of `l1`, in order. */
  function Group(kids: seq<seq<nat>>, ids: seq<int>, l1: seq<nat>, l2: seq<nat>): seq<Edge>
    requires Arena(kids, ids) && Within(l1, |kids|) && Within(l2, |kids|)
  {
    if l1 == [] then []
    else Group(kids, ids, l1[..|l1| - 1], l2) + Row(kids, ids, l1[|l1| - 1], l2)
  }

  /** One group per pair of adjacent lists of `net`. */
  function Groups(kids: seq<seq<nat>>, ids: seq<int>, net: seq<seq<nat>>): seq<seq<Edge>>
    requires Arena(kids, ids) && Indexed(net, |kids|)
  {
    seq(if |net| == 0 then 0 else |net| - 1,
        d requires 0 <= d && d + 1 < |net| => Group(kids, ids, net[d], net[d + 1]))
  }

  /** `add_edges`: the loops over the adjacent lists, the product of their nodes and the pointers. */
  method AddEdges(kids: seq<seq<nat>>, ids: seq<int>, network: seq<seq<nat>>)
    returns (groups: seq<seq<Edge>>)
    requires Arena(kids, ids) && Indexed(network, |kids|)
    ensures groups == Groups(kids, ids, network)
  {
    groups := [];
    var pairs := if |network| == 0 then 0 else |network| - 1;
    for d := 0 to pairs
      invariant |groups| == d
      invariant forall e :: 0 <= e < d ==> groups[e] == Group(kids, ids, network[e], network[e + 1])
    {
      var l1, l2 := network[d], network[d + 1];
      assert Within(l1, |kids|) && Within(l2, |kids|);
      var group := [];
      for i := 0 to |l1|
        invariant group == Group(kids, ids, l1[..i], l2)
      {
        var n1 := l1[i];
        var fps := kids[n1];
        assert Within(fps, |ids|);
        ghost var base := group;
        assert Row(kids, ids, n1, l2[..0]) == [];
        for j := 0 to |l2|
          invariant group == base + Row(kids, ids, n1, l2[..j])
        {
          var n2 := l2[j];
          ghost var start := group;
          for k := 0 to |fps|
            invariant group == start + Matches(ids, fps[..k], n1, n2)
          {
            MatchStep(ids, fps, n1, n2, k);
            if ids[fps[k]] == ids[n2] {
              group := group + [(n1, n2)];
            }
          }
          assert fps[..|fps|] == fps;
          RowStep(kids, ids, n1, l2, j);
          AppendAssoc(base, Row(kids, ids, n1, l2[..j]), Matches(ids, fps, n1, n2));
        }
        assert l2[..|l2|] == l2;
        GroupStep(kids, ids, l1, l2, i);
      }
      assert l1[..|l1|] == l1;
      groups := groups + [group];
    }
  }

  lemma MatchStep(ids: seq<int>, fps: seq<nat>, n1: nat, n2: nat, k: nat)
    requires Within(fps, |ids|) && n2 < |ids| && k < |fps|
    ensures Matches(ids, fps[..k + 1], n1, n2) ==
            Matches(ids, fps[..k], n1, n2) + (if ids[fps[k]] == ids[n2] then [(n1, n2)] else [])
  {
    assert fps[..k + 1][..k] == fps[..k];
  }

  lemma RowStep(kids: seq<seq<nat>>, ids: seq<int>, n1: nat, l2: seq<nat>, j: nat)
    requires Arena(kids, ids) && n1 < |kids| && Within(l2, |kids|) && j < |l2|
    ensures Row(kids, ids, n1, l2[..j + 1]) == Row(kids, ids, n1, l2[..j]) + Matches(ids, kids[n1], n1, l2[j])
  {
    assert l2[..j + 1][..j] == l2[..j];
  }

  lemma GroupStep(kids: seq<seq<nat>>, ids: seq<int>, l1: seq<nat>, l2: seq<nat>, i: nat)
    requires Arena(kids, ids) && Within(l1, |kids|) && Within(l2, |kids|) && i < |l1|
    ensures Group(kids, ids, l1[..i + 1], l2) == Group(kids, ids, l1[..i], l2) + Row(kids, ids, l1[i], l2)
  {
    assert l1[..i + 1][..i] == l1[..i];
  }

  // ---------------------------------------------------------------------------------------------
  // The groups of a TestNetwork

  /** The edges from `n1` to each of `cs`, in order. */
  function Pairs(n1: nat, cs: seq<nat>): (r: seq<Edge>)
    ensures |r| == |cs| && forall i :: 0 <= i < |cs| ==> r[i] == (n1, cs[i])
  {
    if cs == [] then [] else Pairs(n1, cs[..|cs| - 1]) + [(n1, cs[|cs| - 1])]
  }

  /** Every node of `s` paired with its children, parent by parent. */
  function AllPairs(kids: seq<seq<nat>>, s: seq<nat>): seq<Edge>
    requires Within(s, |kids|)
  {
    if s == [] then [] else AllPairs(kids, s[..|s| - 1]) + Pairs(s[|s| - 1], kids[s[|s| - 1]])
  }

  /** Every node of `cs` is a node of the arena with a parent. */
  predicate HasParents(bp: seq<Option<nat>>, cs: seq<nat>) {
    forall i :: 0 <= i < |cs| ==> cs[i] < |bp| && bp[cs[i]].Some?
  }

  /** Every node of `cs` paired with its parent, as (parent, node). */
  function Parented(bp: seq<Option<nat>>, cs: seq<nat>): (r: seq<Edge>)
    requires HasParents(bp, cs)
    ensures |r| == |cs| && forall i :: 0 <= i < |cs| ==> r[i] == (bp[cs[i]].value, cs[i])
  {
    if cs == [] then []
    else
      var r := Parented(bp, cs[..|cs| - 1]) + [(bp[cs[|cs| - 1]].value, cs[|cs| - 1])];
      assert forall i :: 0 <= i < |cs| - 1 ==> cs[..|cs| - 1][i] == cs[i];
      r
  }

  /** Ids that are unique make an id match a node match. */
  lemma {:induction false} MatchesUnique(ids: seq<int>, fps: seq<nat>, n1: nat, n2: nat)
    requires Within(fps, |ids|) && n2 < |ids| && Distinct(ids) && Distinct(fps)
    ensures Matches(ids, fps, n1, n2) == if n2 in fps then [(n1, n2)] else []
  {
    if fps != [] {
      var init, last := fps[..|fps| - 1], fps[|fps| - 1];
      assert Distinct(init);
      MatchesUnique(ids, init, n1, n2);
      assert fps == init + [last];
      assert ids[last] == ids[n2] <==> last == n2;
      if last == n2 {
        assert n2 !in init;
      }
    }
  }

  lemma {:induction false} ConcatKidsWithin(kids: seq<seq<nat>>, s: seq<nat>)
    requires KidsAfter(kids) && Within(s, |kids|)
    ensures Within(ConcatKids(kids, s), |kids|)
  {
    if s != [] {
      ConcatKidsWithin(kids, s[..|s| - 1]);
    }
  }

  /** Rows distribute over concatenation of the lower list. */
  lemma {:induction false} RowAppend(kids: seq<seq<nat>>, ids: seq<int>, n1: nat, a: seq<nat>, b: seq<nat>)
    requires Arena(kids, ids) && n1 < |kids| && Within(a, |kids|) && Within(b, |kids|)
    ensures Row(kids, ids, n1, a + b) == Row(kids, ids, n1, a) + Row(kids, ids, n1, b)
  {
    if b == [] {
      assert a + b == a;
    } else {
      var init, last := b[..|b| - 1], b[|b| - 1];
      assert (a + b)[..|a + b| - 1] == a + init && (a + b)[|a + b| - 1] == last;
      var m := Matches(ids, kids[n1], n1, last);
      assert Row(kids, ids, n1, a + b) == Row(kids, ids, n1, a + init) + m;
      RowAppend(kids, ids, n1, a, init);
      AppendAssoc(Row(kids, ids, n1, a), Row(kids, ids, n1, init), m);
    }
  }

  /** The row of `n1` over the children of `m`, up to the `k`th: all of them when `m` is `n1`, none otherwise. */
  lemma {:induction false} RowOfKids(bp: seq<Option<nat>>, kids: seq<seq<nat>>, ids: seq<int>, n1: nat, m: nat, k: nat)
    requires Linked(bp, kids) && KidsDistinct(kids) && |ids| == |kids| && Distinct(ids)
    requires n1 < |kids| && m < |kids| && k <= |kids[m]|
    ensures Row(kids, ids, n1, kids[m][..k]) == if m == n1 then Pairs(n1, kids[m][..k]) else []
  {
    if k > 0 {
      var c := kids[m][k - 1];
      assert kids[m][..k][..k - 1] == kids[m][..k - 1];
      RowOfKids(bp, kids, ids, n1, m, k - 1);
      MatchesUnique(ids, kids[n1], n1, c);
      assert bp[c] == Some(m);
      assert c in kids[n1] ==> bp[c] == Some(n1);
      if m == n1 {
        assert c in kids[n1];
      }
    }
  }

  /** The row of `n1` over the concatenated children of `s`: the children of `n1` when it is in `s` once. */
  lemma {:induction false} RowOfLayer(bp: seq<Option<nat>>, kids: seq<seq<nat>>, ids: seq<int>, n1: nat, s: seq<nat>)
    requires Linked(bp, kids) && KidsDistinct(kids) && |ids| == |kids| && Distinct(ids)
    requires n1 < |kids| && Within(s, |kids|) && Distinct(s)
    ensures Within(ConcatKids(kids, s), |kids|)
    ensures Row(kids, ids, n1, ConcatKids(kids, s)) == if n1 in s then Pairs(n1, kids[n1]) else []
  {
    if s != [] {
      var init, last := s[..|s| - 1], s[|s| - 1];
      assert Distinct(init);
      RowOfLayer(bp, kids, ids, n1, init);
      assert kids[last][..|kids[last]|] == kids[last];
      RowOfKids(bp, kids, ids, n1, last, |kids[last]|);
      RowAppend(kids, ids, n1, ConcatKids(kids, init), kids[last]);
      assert n1 in s <==> n1 in init || n1 == last;
      assert n1 == last ==> n1 !in init;
    }
  }

  /** Over the children of a list without repetition, the group of any part of the list pairs each node with its children. */
  lemma {:induction false} GroupOfLayer(bp: seq<Option<nat>>, kids: seq<seq<nat>>, ids: seq<int>,
                                        s: seq<nat>, l1: seq<nat>)
    requires Linked(bp, kids) && KidsDistinct(kids) && |ids| == |kids| && Distinct(ids)
    requires Within(l1, |kids|) && Distinct(l1) && Within(s, |kids|) && forall i :: 0 <= i < |s| ==> s[i] in l1
    ensures Within(ConcatKids(kids, l1), |kids|)
    ensures Group(kids, ids, s, ConcatKids(kids, l1)) == AllPairs(kids, s)
  {
    ConcatKidsWithin(kids, l1);
    if s != [] {
      var init, last := s[..|s| - 1], s[|s| - 1];
      GroupOfLayer(bp, kids, ids, init, l1);
      RowOfLayer(bp, kids, ids, last, l1);
    }
  }

  /** Each node with its children, parent by parent, is each child of the list with its parent. */
  lemma {:induction false} AllPairsParented(bp: seq<Option<nat>>, kids: seq<seq<nat>>, s: seq<nat>)
    requires Linked(bp, kids) && Within(s, |kids|)
    ensures HasParents(bp, ConcatKids(kids, s))
    ensures AllPairs(kids, s) == Parented(bp, ConcatKids(kids, s))
  {
    if s != [] {
      var init, last := s[..|s| - 1], s[|s| - 1];
      AllPairsParented(bp, kids, init);
      var a, b := ConcatKids(kids, init), kids[last];
      assert ConcatKids(kids, s) == a + b;
      assert forall i :: 0 <= i < |b| ==> bp[b[i]] == Some(last);
      var p := Parented(bp, a + b);
      assert p == Parented(bp, a) + Pairs(last, b) by {
        forall i | 0 <= i < |p| ensures p[i] == (Parented(bp, a) + Pairs(last, b))[i] {
          if i >= |a| {
            assert (a + b)[i] == b[i - |a|];
          } else {
            assert (a + b)[i] == a[i];
          }
        }
      }
    }
  }

  /** A list of the layout has no repetition. */
  lemma LayoutDistinct(bp: seq<Option<nat>>, kids: seq<seq<nat>>, d: nat)
    requires WellFormed(bp, kids) && KidsDistinct(kids) && |kids| > 0 && d < |Layout(bp, kids)|
    ensures Distinct(Layout(bp, kids)[d]) && Within(Layout(bp, kids)[d], |kids|)
  {
    var t := Subtree(kids, 0);
    assert Layout(bp, kids)[d] == AtDepth(bp, t, d);
    SubtreeDistinct(bp, kids, 0);
    AtDepthDistinct(bp, t, d);
    AtDepthWithin(bp, t, d);
  }

  /** On a layout, the group of lists `d` and `d + 1` is each node of list `d + 1` with its parent. */
  lemma LayoutGroup(bp: seq<Option<nat>>, kids: seq<seq<nat>>, ids: seq<int>, d: nat)
    requires WellFormed(bp, kids) && KidsDistinct(kids) && |kids| > 0 && |ids| == |kids| && Distinct(ids)
    requires d + 1 < |Layout(bp, kids)|
    ensures Within(Layout(bp, kids)[d], |kids|) && Within(Layout(bp, kids)[d + 1], |kids|)
    ensures HasParents(bp, Layout(bp, kids)[d + 1])
    ensures Group(kids, ids, Layout(bp, kids)[d], Layout(bp, kids)[d + 1]) == Parented(bp, Layout(bp, kids)[d + 1])
  {
    var l1 := Layout(bp, kids)[d];
    LayoutChildAt(bp, kids, d);
    LayoutDistinct(bp, kids, d);
    GroupOfLayer(bp, kids, ids, l1, l1);
    AllPairsParented(bp, kids, l1);
  }

  /** On a layout, group `d - 1` is each node of list `d` with its parent, for every list but the first. */
  lemma LayoutGroups(bp: seq<Option<nat>>, kids: seq<seq<nat>>, ids: seq<int>)
    requires WellFormed(bp, kids) && KidsDistinct(kids) && |kids| > 0 && |ids| == |kids| && Distinct(ids)
    ensures Arena(kids, ids) && Indexed(Layout(bp, kids), |kids|)
    ensures |Groups(kids, ids, Layout(bp, kids))| == |Layout(bp, kids)| - 1
    ensures forall d :: 1 <= d < |Layout(bp, kids)| ==>
              HasParents(bp, Layout(bp, kids)[d]) &&
              Groups(kids, ids, Layout(bp, kids))[d - 1] == Parented(bp, Layout(bp, kids)[d])
  {
    var net := Layout(bp, kids);
    forall d | 0 <= d < |net| ensures Within(net[d], |kids|) {
      LayoutDistinct(bp, kids, d);
    }
    forall d | 1 <= d < |net|
      ensures HasParents(bp, net[d]) && Groups(kids, ids, net)[d - 1] == Parented(bp, net[d])
    {
      LayoutGroup(bp, kids, ids, d - 1);
    }
  }

  /** On a layout, an edge joins lists `d` and `d + 1` exactly when it goes from a node of list `d` to one of its children. */
  lemma LayoutEdge(bp: seq<Option<nat>>, kids: seq<seq<nat>>, ids: seq<int>, d: nat, a: nat, b: nat)
    requires WellFormed(bp, kids) && KidsDistinct(kids) && |kids| > 0 && |ids| == |kids| && Distinct(ids)
    requires d + 1 < |Layout(bp, kids)|
    ensures Within(Layout(bp, kids)[d], |kids|) && Within(Layout(bp, kids)[d + 1], |kids|)
    ensures (a, b) in Group(kids, ids, Layout(bp, kids)[d], Layout(bp, kids)[d + 1]) <==>
            a in Layout(bp, kids)[d] && b in kids[a]
  {
    LayoutGroup(bp, kids, ids, d);
    var l1, l2 := Layout(bp, kids)[d], Layout(bp, kids)[d + 1];
    var g := Parented(bp, l2);
    LayoutMembers(bp, kids, d);
    LayoutMembers(bp, kids, d + 1);
    if (a, b) in g {
      var i :| 0 <= i < |g| && g[i] == (a, b);
      assert b == l2[i] && bp[b] == Some(a);
      assert b > 0 && b in kids[a];
      assert Depth(bp, b) == Depth(bp, a) + 1;
    }
    if a in l1 && b in kids[a] {
      var k :| 0 <= k < |kids[a]| && kids[a][k] == b;
      ChildDepth(bp, kids, a, k);
      var i :| 0 <= i < |l2| && l2[i] == b;
      assert g[i] == (a, b);
    }
  }

  /**
   * The edge groups of a TestNetwork: one per adjacent pair of lists, and the group of lists
   * `d - 1` and `d` holds, for each node of list `d` in order, the edge from its parent.
   */
  lemma GroupsAreParents(n: Net)
    requires Inv(n) && n.root.Some?
    ensures Arena(n.kids, n.ids) && Indexed(n.network, |n.kids|)
    ensures |Groups(n.kids, n.ids, n.network)| == |n.network| - 1
    ensures forall d :: 1 <= d < |n.network| ==>
              HasParents(n.bp, n.network[d]) &&
              Groups(n.kids, n.ids, n.network)[d - 1] == Parented(n.bp, n.network[d])
  {
    LayoutGroups(n.bp, n.kids, n.ids);
  }

  /** An edge of a TestNetwork joins lists `d` and `d + 1` exactly when its head is in list `d` and its tail is one of the head's forward pointers. */
  lemma EdgeMembers(n: Net, d: nat, a: nat, b: nat)
    requires Inv(n) && n.root.Some? && d + 1 < |n.network|
    ensures Arena(n.kids, n.ids) && Indexed(n.network, |n.kids|)
    ensures (a, b) in Groups(n.kids, n.ids, n.network)[d] <==> a in n.network[d] && b in n.kids[a]
  {
    NetIndexed(n);
    LayoutEdge(n.bp, n.kids, n.ids, d, a, b);
  }
}
