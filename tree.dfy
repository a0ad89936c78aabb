/**
 * The shape of the node arena of a TestNetwork: node `x` is index `x`, the root is node 0,
 * `bp[x]` is its back pointer (`_bpointers[0]`, None for the root) and `kids[x]` its forward
 * pointers (`_fpointers`) in insertion order.  From the shape follow the depth of every node
 * and the layer structure that `_update_network` rebuilds.
 */
module Tree {
  import opened Seqs

  /** Every back pointer points to an earlier node. */
  predicate BackOrdered(bp: seq<Option<nat>>) {
    forall x :: 0 <= x < |bp| && bp[x].Some? ==> bp[x].value < x
  }

  /** Every child comes after its parent in the arena. */
  predicate KidsAfter(kids: seq<seq<nat>>) {
    forall m, k :: 0 <= m < |kids| && 0 <= k < |kids[m]| ==> m < kids[m][k] < |kids|
  }

  /** Every element of `s` is below `n`. */
  predicate Within(s: seq<nat>, n: nat) {
    forall i :: 0 <= i < |s| ==> s[i] < n
  }

  /** Every forward pointer is answered by the child's back pointer. */
  predicate Linked(bp: seq<Option<nat>>, kids: seq<seq<nat>>) {
    |bp| == |kids| && BackOrdered(bp) && KidsAfter(kids) &&
    (forall m, k :: 0 <= m < |kids| && 0 <= k < |kids[m]| ==> bp[kids[m][k]] == Some(m))
  }

  /** A single rooted tree: node 0 is the only node without parent, back and forward pointers agree. */
  predicate WellFormed(bp: seq<Option<nat>>, kids: seq<seq<nat>>) {
    Linked(bp, kids) &&
    (forall x :: 0 <= x < |bp| ==> (bp[x].None? <==> x == 0)) &&
    (forall x :: 0 < x < |bp| ==> x in kids[bp[x].value])
  }

  /** No node lists the same child twice. */
  predicate KidsDistinct(kids: seq<seq<nat>>) {
    forall m :: 0 <= m < |kids| ==> Distinct(kids[m])
  }

  /** Distance from the root, following back pointers. */
  function Depth(bp: seq<Option<nat>>, x: nat): nat
    requires BackOrdered(bp) && x < |bp|
    decreases x
  {
    match bp[x]
    case None => 0
    case Some(p) => Depth(bp, p) + 1
  }


  /** The node `n` itself and its descendants, depth first, children in insertion order. */
  function Subtree(kids: seq<seq<nat>>, n: nat): (r: seq<nat>)
    requires KidsAfter(kids) && n < |kids|
    ensures |r| > 0 && r[0] == n
    ensures forall i :: 0 <= i < |r| ==> n <= r[i] < |kids|
    decreases |kids| - n, 1, 0
  {
    [n] + Forest(kids, n, |kids[n]|)
  }

  /** The subtrees of the first `k` children of `n`, one after the other. */
  function Forest(kids: seq<seq<nat>>, n: nat, k: nat): (r: seq<nat>)
    requires KidsAfter(kids) && n < |kids| && k <= |kids[n]|
    ensures forall i :: 0 <= i < |r| ==> n < r[i] < |kids|
    decreases |kids| - n, 0, k
  {
    if k == 0 then []
    else Forest(kids, n, k - 1) + Subtree(kids, kids[n][k - 1])
  }

  /** The proper descendants of `n`, depth first. */
  function Descendants(kids: seq<seq<nat>>, n: nat): seq<nat>
    requires KidsAfter(kids) && n < |kids|
  {
    Forest(kids, n, |kids[n]|)
  }

  /** The nodes of `s` at depth `d`, in the order of `s`. */
  function AtDepth(bp: seq<Option<nat>>, s: seq<nat>, d: nat): seq<nat>
    requires BackOrdered(bp) && Within(s, |bp|)
  {
    if s == [] then []
    else
      var last := s[|s| - 1];
      AtDepth(bp, s[..|s| - 1], d) + (if Depth(bp, last) == d then [last] else [])
  }

  /** The nodes of `s` that have at least one child, in the order of `s`. */
  function HasKids(kids: seq<seq<nat>>, s: seq<nat>): seq<nat>
    requires Within(s, |kids|)
  {
    if s == [] then []
    else
      var last := s[|s| - 1];
      HasKids(kids, s[..|s| - 1]) + (if kids[last] != [] then [last] else [])
  }

  /** The children of the nodes of `s`, parent by parent, each parent's in insertion order. */
  function ConcatKids(kids: seq<seq<nat>>, s: seq<nat>): seq<nat> {
    if s == [] then []
    else
      var last := s[|s| - 1];
      ConcatKids(kids, s[..|s| - 1]) + (if last < |kids| then kids[last] else [])
  }

  /**
   * The layer structure of a non-empty tree: list `j` holds the nodes at depth `j` in depth-first
   * order; there is one list for the root and one more for every node that has a child.
   */
  function Layout(bp: seq<Option<nat>>, kids: seq<seq<nat>>): seq<seq<nat>>
    requires WellFormed(bp, kids) && |kids| > 0
  {
    var t := Subtree(kids, 0);
    seq(1 + |HasKids(kids, t)|, j requires 0 <= j => AtDepth(bp, t, j))
  }

  /** The list at position `j` of `net0`, or an empty one past its end. */
  function Pad(net0: seq<seq<nat>>, j: nat): seq<nat> {
    if j < |net0| then net0[j] else []
  }

  /**
   * What a partial rebuild has produced: `res` extends the lists of `net0` (padding with empty
   * lists) by the nodes of `s`, each appended to the list of its depth, in the order of `s`.
   */
  ghost predicate Placed(bp: seq<Option<nat>>, net0: seq<seq<nat>>, s: seq<nat>, res: seq<seq<nat>>) {
    BackOrdered(bp) && Within(s, |bp|) &&
    |net0| <= |res| &&
    (forall i :: 0 <= i < |s| ==> Depth(bp, s[i]) < |res|) &&
    (forall j :: 0 <= j < |res| ==> res[j] == Pad(net0, j) + AtDepth(bp, s, j))
  }

  // ---------------------------------------------------------------------------------------------
  // The filters

  lemma {:induction false} AtDepthMembers(bp: seq<Option<nat>>, s: seq<nat>, d: nat)
    requires BackOrdered(bp) && Within(s, |bp|)
    ensures forall x: nat :: x in AtDepth(bp, s, d) <==> x in s && x < |bp| && Depth(bp, x) == d
  {
    if s != [] {
      AtDepthMembers(bp, s[..|s| - 1], d);
      assert s == s[..|s| - 1] + [s[|s| - 1]];
    }
  }

  lemma {:induction false} AtDepthWithin(bp: seq<Option<nat>>, s: seq<nat>, d: nat)
    requires BackOrdered(bp) && Within(s, |bp|)
    ensures Within(AtDepth(bp, s, d), |bp|)
  {
    if s != [] {
      AtDepthWithin(bp, s[..|s| - 1], d);
    }
  }

  lemma {:induction false} HasKidsMembers(kids: seq<seq<nat>>, s: seq<nat>)
    requires Within(s, |kids|)
    ensures forall x: nat :: x in HasKids(kids, s) <==> x in s && x < |kids| && kids[x] != []
  {
    if s != [] {
      HasKidsMembers(kids, s[..|s| - 1]);
      assert s == s[..|s| - 1] + [s[|s| - 1]];
    }
  }

  lemma {:induction false} AtDepthAppend(bp: seq<Option<nat>>, a: seq<nat>, b: seq<nat>, d: nat)
    requires BackOrdered(bp) && Within(a, |bp|) && Within(b, |bp|)
    ensures AtDepth(bp, a + b, d) == AtDepth(bp, a, d) + AtDepth(bp, b, d)
  {
    if b == [] {
      assert a + b == a;
      AppendEmpty(AtDepth(bp, a, d));
    } else {
      InitAppend(a, b);
      AtDepthAppend(bp, a, b[..|b| - 1], d);
      AppendAssoc(AtDepth(bp, a, d), AtDepth(bp, b[..|b| - 1], d), (if Depth(bp, b[|b| - 1]) == d then [b[|b| - 1]] else []));
    }
  }

  lemma {:induction false} HasKidsAppend(kids: seq<seq<nat>>, a: seq<nat>, b: seq<nat>)
    requires Within(a, |kids|) && Within(b, |kids|)
    ensures HasKids(kids, a + b) == HasKids(kids, a) + HasKids(kids, b)
  {
    if b == [] {
      assert a + b == a;
      AppendEmpty(HasKids(kids, a));
    } else {
      InitAppend(a, b);
      HasKidsAppend(kids, a, b[..|b| - 1]);
      AppendAssoc(HasKids(kids, a), HasKids(kids, b[..|b| - 1]), (if kids[b[|b| - 1]] != [] then [b[|b| - 1]] else []));
    }
  }

  lemma {:induction false} ConcatKidsAppend(kids: seq<seq<nat>>, a: seq<nat>, b: seq<nat>)
    ensures ConcatKids(kids, a + b) == ConcatKids(kids, a) + ConcatKids(kids, b)
  {
    if b == [] {
      assert a + b == a;
      AppendEmpty(ConcatKids(kids, a));
    } else {
      InitAppend(a, b);
      ConcatKidsAppend(kids, a, b[..|b| - 1]);
      AppendAssoc(ConcatKids(kids, a), ConcatKids(kids, b[..|b| - 1]), (if b[|b| - 1] < |kids| then kids[b[|b| - 1]] else []));
    }
  }

  lemma ConcatKidsOne(kids: seq<seq<nat>>, n: nat)
    requires n < |kids|
    ensures ConcatKids(kids, [n]) == kids[n]
  {
    var one: seq<nat> := [n];
    assert one[..0] == [];
  }

  /** A filter that keeps nothing yields the empty list. */
  lemma {:induction false} AtDepthNone(bp: seq<Option<nat>>, s: seq<nat>, d: nat)
    requires BackOrdered(bp) && Within(s, |bp|)
    requires forall i :: 0 <= i < |s| ==> Depth(bp, s[i]) != d
    ensures AtDepth(bp, s, d) == []
  {
    if s != [] {
      AtDepthNone(bp, s[..|s| - 1], d);
    }
  }

  lemma {:induction false} AtDepthDistinct(bp: seq<Option<nat>>, s: seq<nat>, d: nat)
    requires BackOrdered(bp) && Within(s, |bp|)
    requires Distinct(s)
    ensures Distinct(AtDepth(bp, s, d))
  {
    if s != [] {
      var init := s[..|s| - 1];
      var last := s[|s| - 1];
      AtDepthDistinct(bp, init, d);
      AtDepthMembers(bp, init, d);
      assert last !in init;
      DistinctAppend(AtDepth(bp, init, d), if Depth(bp, last) == d then [last] else []);
    }
  }

  lemma {:induction false} HasKidsDistinct(kids: seq<seq<nat>>, s: seq<nat>)
    requires Within(s, |kids|)
    requires Distinct(s)
    ensures Distinct(HasKids(kids, s))
  {
    if s != [] {
      var init := s[..|s| - 1];
      var last := s[|s| - 1];
      HasKidsDistinct(kids, init);
      HasKidsMembers(kids, init);
      assert last !in init;
      DistinctAppend(HasKids(kids, init), if kids[last] != [] then [last] else []);
    }
  }

  // ---------------------------------------------------------------------------------------------
  // One step of the rebuild at a time

  /** Opening one more (empty) list keeps a partial rebuild valid. */
  lemma {:induction false} PlacedGrow(bp: seq<Option<nat>>, net0: seq<seq<nat>>, s: seq<nat>, res: seq<seq<nat>>)
    requires Placed(bp, net0, s, res)
    ensures Placed(bp, net0, s, res + [[]])
  {
    AtDepthNone(bp, s, |res|);
    var res' := res + [[]];
    forall j | 0 <= j < |res'|
      ensures res'[j] == Pad(net0, j) + AtDepth(bp, s, j)
    {
      if j < |res| {
        assert res'[j] == res[j];
      }
    }
  }

  /** Appending node `x` to the list of its depth extends the placed nodes by `x`. */
  lemma {:induction false} PlacedPut(bp: seq<Option<nat>>, net0: seq<seq<nat>>, s: seq<nat>, res: seq<seq<nat>>, x: nat)
    requires Placed(bp, net0, s, res)
    requires x < |bp| && Depth(bp, x) < |res|
    ensures Placed(bp, net0, s + [x], res[Depth(bp, x) := res[Depth(bp, x)] + [x]])
  {
    var s' := s + [x];
    var res' := res[Depth(bp, x) := res[Depth(bp, x)] + [x]];
    assert s'[..|s'| - 1] == s;
    forall j | 0 <= j < |res'|
      ensures res'[j] == Pad(net0, j) + AtDepth(bp, s', j)
    {
      assert AtDepth(bp, s', j) == AtDepth(bp, s, j) + (if Depth(bp, x) == j then [x] else []);
    }
  }

  /** Two partial rebuilds, one after the other, place the concatenation of their nodes. */
  lemma {:induction false} PlacedCompose(bp: seq<Option<nat>>, net0: seq<seq<nat>>, s: seq<nat>, res: seq<seq<nat>>,
                      t: seq<nat>, res2: seq<seq<nat>>)
    requires Placed(bp, net0, s, res) && Placed(bp, res, t, res2)
    ensures Placed(bp, net0, s + t, res2)
  {
    WithinAppend(bp, s, t, |res2|);
    forall j | 0 <= j < |res2|
      ensures res2[j] == Pad(net0, j) + AtDepth(bp, s + t, j)
    {
      PlacedComposeAt(bp, net0, s, res, t, res2[j], j);
    }
  }

  lemma {:induction false} WithinAppend(bp: seq<Option<nat>>, s: seq<nat>, t: seq<nat>, h: nat)
    requires BackOrdered(bp) && Within(s, |bp|) && Within(t, |bp|)
    requires forall i :: 0 <= i < |s| ==> Depth(bp, s[i]) < h
    requires forall i :: 0 <= i < |t| ==> Depth(bp, t[i]) < h
    ensures Within(s + t, |bp|)
    ensures forall i :: 0 <= i < |s + t| ==> Depth(bp, (s + t)[i]) < h
  {
    forall i | 0 <= i < |s + t| ensures (s + t)[i] < |bp| && Depth(bp, (s + t)[i]) < h {
      if i >= |s| { assert (s + t)[i] == t[i - |s|]; }
    }
  }

  lemma {:induction false} PlacedComposeAt(bp: seq<Option<nat>>, net0: seq<seq<nat>>, s: seq<nat>,
                                           res: seq<seq<nat>>, t: seq<nat>, r2: seq<nat>, j: nat)
    requires BackOrdered(bp) && Within(s, |bp|) && Within(t, |bp|) && Within(s + t, |bp|)
    requires |net0| <= |res|
    requires forall i :: 0 <= i < |s| ==> Depth(bp, s[i]) < |res|
    requires j < |res| ==> res[j] == Pad(net0, j) + AtDepth(bp, s, j)
    requires r2 == Pad(res, j) + AtDepth(bp, t, j)
    ensures r2 == Pad(net0, j) + AtDepth(bp, s + t, j)
  {
    AtDepthAppend(bp, s, t, j);
    if j >= |res| {
      AtDepthNone(bp, s, j);
      assert Pad(res, j) == [];
      assert Pad(net0, j) == [];
      AppendEmpty(AtDepth(bp, t, j));
    } else {
      assert Pad(res, j) == res[j];
      AppendAssoc(Pad(net0, j), AtDepth(bp, s, j), AtDepth(bp, t, j));
    }
  }

  /** A rebuild from the root that placed all its descendants yields the layer structure. */
  lemma {:induction false} RebuildIsLayout(bp: seq<Option<nat>>, kids: seq<seq<nat>>, res: seq<seq<nat>>)
    requires WellFormed(bp, kids) && |kids| > 0
    requires Placed(bp, [[0]], Descendants(kids, 0), res)
    requires |res| == 1 + |HasKids(kids, Subtree(kids, 0))|
    ensures res == Layout(bp, kids)
  {
    var lay := Layout(bp, kids);
    var one: seq<nat> := [0];
    assert one[..0] == [];
    forall j | 0 <= j < |res|
      ensures res[j] == lay[j]
    {
      AtDepthAppend(bp, one, Descendants(kids, 0), j);
    }
  }

  // ---------------------------------------------------------------------------------------------
  // Ancestors

  /** The ancestor of `x` at depth `d` (`x` itself when it is not deeper than `d`). */
  function AncestorAt(bp: seq<Option<nat>>, x: nat, d: nat): (r: nat)
    requires BackOrdered(bp) && x < |bp|
    ensures r < |bp|
    ensures Depth(bp, x) >= d ==> Depth(bp, r) == d
    decreases x
  {
    if Depth(bp, x) <= d then x else AncestorAt(bp, bp[x].value, d)
  }

  lemma {:induction false} AncestorCompose(bp: seq<Option<nat>>, x: nat, d1: nat, d2: nat)
    requires BackOrdered(bp) && x < |bp| && d1 <= d2
    ensures AncestorAt(bp, x, d1) == AncestorAt(bp, AncestorAt(bp, x, d2), d1)
    decreases x
  {
    if Depth(bp, x) > d2 {
      AncestorCompose(bp, bp[x].value, d1, d2);
    }
  }

  /** Only the root has depth 0. */
  lemma {:induction false} DepthZero(bp: seq<Option<nat>>, kids: seq<seq<nat>>, x: nat)
    requires WellFormed(bp, kids) && x < |bp|
    ensures Depth(bp, x) == 0 <==> x == 0
  {
  }

  /** A child is one deeper than its parent. */
  lemma {:induction false} ChildDepth(bp: seq<Option<nat>>, kids: seq<seq<nat>>, n: nat, i: nat)
    requires Linked(bp, kids) && n < |kids| && i < |kids[n]|
    ensures kids[n][i] < |bp| && bp[kids[n][i]] == Some(n) && Depth(bp, kids[n][i]) == Depth(bp, n) + 1
  {
  }

  lemma {:induction false} SubtreeAncestor(bp: seq<Option<nat>>, kids: seq<seq<nat>>, n: nat)
    requires Linked(bp, kids) && n < |kids|
    ensures forall x :: x in Subtree(kids, n) ==>
              Depth(bp, x) >= Depth(bp, n) && AncestorAt(bp, x, Depth(bp, n)) == n
    decreases |kids| - n, 1, 0
  {
    ForestAncestor(bp, kids, n, |kids[n]|);
  }

  /** Every node of the forest of the first `k` children of `n` lies below one of them and below `n`. */
  lemma {:induction false} ForestAncestor(bp: seq<Option<nat>>, kids: seq<seq<nat>>, n: nat, k: nat)
    requires Linked(bp, kids) && n < |kids| && k <= |kids[n]|
    ensures forall x :: x in Forest(kids, n, k) ==>
              Depth(bp, x) > Depth(bp, n) &&
              AncestorAt(bp, x, Depth(bp, n) + 1) in kids[n][..k] &&
              AncestorAt(bp, x, Depth(bp, n)) == n
    decreases |kids| - n, 0, k
  {
    if k > 0 {
      var c := kids[n][k - 1];
      ForestAncestor(bp, kids, n, k - 1);
      ChildDepth(bp, kids, n, k - 1);
      SubtreeAncestor(bp, kids, c);
      assert kids[n][..k] == kids[n][..k - 1] + [c];
      forall x | x in Subtree(kids, c)
        ensures AncestorAt(bp, x, Depth(bp, n)) == n
      {
        AncestorCompose(bp, x, Depth(bp, n), Depth(bp, c));
      }
    }
  }

  // ---------------------------------------------------------------------------------------------
  // Every node is reached exactly once

  lemma {:induction false} SubtreeDistinct(bp: seq<Option<nat>>, kids: seq<seq<nat>>, n: nat)
    requires Linked(bp, kids) && KidsDistinct(kids) && n < |kids|
    ensures Distinct(Subtree(kids, n))
    decreases |kids| - n, 1, 0
  {
    ForestDistinct(bp, kids, n, |kids[n]|);
    DistinctAppend([n], Forest(kids, n, |kids[n]|));
  }

  lemma {:induction false} ForestDistinct(bp: seq<Option<nat>>, kids: seq<seq<nat>>, n: nat, k: nat)
    requires Linked(bp, kids) && KidsDistinct(kids) && n < |kids| && k <= |kids[n]|
    ensures Distinct(Forest(kids, n, k))
    decreases |kids| - n, 0, k
  {
    if k > 0 {
      var c := kids[n][k - 1];
      ForestDistinct(bp, kids, n, k - 1);
      SubtreeDistinct(bp, kids, c);
      ForestAncestor(bp, kids, n, k - 1);
      ChildDepth(bp, kids, n, k - 1);
      SubtreeAncestor(bp, kids, c);
      DistinctTake(kids[n], k - 1);
      DistinctAppend(Forest(kids, n, k - 1), Subtree(kids, c));
    }
  }

  /** The subtree of child `i` of `n` lies inside the forest of its first `k` children, `i < k`. */
  lemma {:induction false} ForestContains(kids: seq<seq<nat>>, n: nat, k: nat, i: nat)
    requires KidsAfter(kids) && n < |kids| && i < k <= |kids[n]|
    ensures forall y :: y in Subtree(kids, kids[n][i]) ==> y in Forest(kids, n, k)
    decreases k
  {
    if i < k - 1 {
      ForestContains(kids, n, k - 1, i);
    }
  }

  lemma {:induction false} InAncestorSubtree(bp: seq<Option<nat>>, kids: seq<seq<nat>>, x: nat, d: nat)
    requires WellFormed(bp, kids) && x < |bp| && d <= Depth(bp, x)
    ensures x in Subtree(kids, AncestorAt(bp, x, d))
    decreases Depth(bp, x) - d
  {
    if d < Depth(bp, x) {
      InAncestorSubtree(bp, kids, x, d + 1);
      var a := AncestorAt(bp, x, d + 1);
      AncestorCompose(bp, x, d, d + 1);
      DepthZero(bp, kids, a);
      var p := bp[a].value;
      assert AncestorAt(bp, x, d) == p;
      var i :| 0 <= i < |kids[p]| && kids[p][i] == a;
      ForestContains(kids, p, |kids[p]|, i);
    }
  }

  /** Every node of the arena is in the subtree of the root. */
  lemma {:induction false} Coverage(bp: seq<Option<nat>>, kids: seq<seq<nat>>, x: nat)
    requires WellFormed(bp, kids) && x < |bp|
    ensures x in Subtree(kids, 0)
  {
    InAncestorSubtree(bp, kids, x, 0);
    DepthZero(bp, kids, AncestorAt(bp, x, 0));
  }

  // ---------------------------------------------------------------------------------------------
  // The number of lists bounds the depth

  lemma {:induction false} SubtreeDepthBound(bp: seq<Option<nat>>, kids: seq<seq<nat>>, n: nat)
    requires Linked(bp, kids) && n < |kids|
    ensures forall x :: x in Subtree(kids, n) ==>
              Depth(bp, n) <= Depth(bp, x) <= Depth(bp, n) + |HasKids(kids, Subtree(kids, n))|
    decreases |kids| - n, 1, 0
  {
    var f := Forest(kids, n, |kids[n]|);
    ForestDepthBound(bp, kids, n, |kids[n]|);
    ForestAncestor(bp, kids, n, |kids[n]|);
    var one: seq<nat> := [n];
    assert one[..0] == [];
    HasKidsAppend(kids, one, f);
  }

  lemma {:induction false} ForestDepthBound(bp: seq<Option<nat>>, kids: seq<seq<nat>>, n: nat, k: nat)
    requires Linked(bp, kids) && n < |kids| && k <= |kids[n]|
    ensures forall x :: x in Forest(kids, n, k) ==>
              Depth(bp, x) <= Depth(bp, n) + 1 + |HasKids(kids, Forest(kids, n, k))|
    decreases |kids| - n, 0, k
  {
    if k > 0 {
      var c := kids[n][k - 1];
      ForestDepthBound(bp, kids, n, k - 1);
      SubtreeDepthBound(bp, kids, c);
      ChildDepth(bp, kids, n, k - 1);
      HasKidsAppend(kids, Forest(kids, n, k - 1), Subtree(kids, c));
    }
  }

  // ---------------------------------------------------------------------------------------------
  // Layer by layer: the children of one layer, in order, form the next

  /** The first `k` children of `n` are exactly the nodes one below `n` in their forest. */
  lemma {:induction false} TopStep(bp: seq<Option<nat>>, kids: seq<seq<nat>>, n: nat, k: nat)
    requires BackOrdered(bp) && KidsAfter(kids) && |bp| == |kids| && n < |kids| && 0 < k <= |kids[n]|
    requires AtDepth(bp, Forest(kids, n, k - 1), Depth(bp, n) + 1) == kids[n][..k - 1]
    requires AtDepth(bp, Subtree(kids, kids[n][k - 1]), Depth(bp, n) + 1) == [kids[n][k - 1]]
    ensures AtDepth(bp, Forest(kids, n, k), Depth(bp, n) + 1) == kids[n][..k]
  {
    var c := kids[n][k - 1];
    var d := Depth(bp, n) + 1;
    var f := Forest(kids, n, k - 1);
    var sc := Subtree(kids, c);
    assert Forest(kids, n, k) == f + sc;
    AtDepthAppend(bp, f, sc, d);
    TakeLast(kids[n], k);
  }

  lemma {:induction false} ForestTop(bp: seq<Option<nat>>, kids: seq<seq<nat>>, n: nat, k: nat)
    requires Linked(bp, kids) && n < |kids| && k <= |kids[n]|
    ensures AtDepth(bp, Forest(kids, n, k), Depth(bp, n) + 1) == kids[n][..k]
    decreases k
  {
    if k > 0 {
      ForestTop(bp, kids, n, k - 1);
      ChildDepth(bp, kids, n, k - 1);
      SubtreeTop(bp, kids, kids[n][k - 1]);
      TopStep(bp, kids, n, k);
    } else {
      assert kids[n][..0] == [];
    }
  }

  /** The only node of a subtree at the depth of its root is that root. */
  lemma {:induction false} SubtreeTop(bp: seq<Option<nat>>, kids: seq<seq<nat>>, c: nat)
    requires Linked(bp, kids) && c < |kids|
    ensures AtDepth(bp, Subtree(kids, c), Depth(bp, c)) == [c]
  {
    var fc := Forest(kids, c, |kids[c]|);
    var one: seq<nat> := [c];
    assert one[..0] == [];
    AtDepthAppend(bp, one, fc, Depth(bp, c));
    ForestAncestor(bp, kids, c, |kids[c]|);
    forall i | 0 <= i < |fc| ensures Depth(bp, fc[i]) != Depth(bp, c) {
      assert fc[i] in fc;
    }
    AtDepthNone(bp, fc, Depth(bp, c));
  }

  /** One below its root, a subtree holds exactly the root's children. */
  lemma {:induction false} SubtreeNext(bp: seq<Option<nat>>, kids: seq<seq<nat>>, n: nat)
    requires Linked(bp, kids) && n < |kids|
    ensures AtDepth(bp, Subtree(kids, n), Depth(bp, n) + 1) == kids[n]
  {
    var f := Forest(kids, n, |kids[n]|);
    var one: seq<nat> := [n];
    assert one[..0] == [];
    AtDepthAppend(bp, one, f, Depth(bp, n) + 1);
    ForestTop(bp, kids, n, |kids[n]|);
    assert kids[n][..|kids[n]|] == kids[n];
  }

  /** Away from the depth of its root, a subtree and the forest below the root agree. */
  lemma {:induction false} SubtreeBelow(bp: seq<Option<nat>>, kids: seq<seq<nat>>, n: nat, j: nat)
    requires Linked(bp, kids) && n < |kids| && j != Depth(bp, n)
    ensures AtDepth(bp, Subtree(kids, n), j) == AtDepth(bp, Forest(kids, n, |kids[n]|), j)
  {
    var f := Forest(kids, n, |kids[n]|);
    var one: seq<nat> := [n];
    assert one[..0] == [];
    AtDepthAppend(bp, one, f, j);
  }

  /** The level below the root of a subtree is the root's children. */
  lemma {:induction false} SubtreeFirstLevel(bp: seq<Option<nat>>, kids: seq<seq<nat>>, n: nat, j: nat)
    requires Linked(bp, kids) && n < |kids| && j == Depth(bp, n)
    ensures NextLevel(bp, kids, Subtree(kids, n), j)
  {
    SubtreeNext(bp, kids, n);
    SubtreeTop(bp, kids, n);
    ConcatKidsOne(kids, n);
  }

  lemma {:induction false} SubtreeLevels(bp: seq<Option<nat>>, kids: seq<seq<nat>>, n: nat, j: nat)
    requires Linked(bp, kids) && n < |kids| && j >= Depth(bp, n)
    ensures NextLevel(bp, kids, Subtree(kids, n), j)
    decreases |kids| - n, 2, 0
  {
    if j == Depth(bp, n) {
      SubtreeFirstLevel(bp, kids, n, j);
    } else {
      SubtreeDeeperLevels(bp, kids, n, j);
    }
  }

  lemma {:induction false} SubtreeDeeperLevels(bp: seq<Option<nat>>, kids: seq<seq<nat>>, n: nat, j: nat)
    requires Linked(bp, kids) && n < |kids| && j > Depth(bp, n)
    ensures NextLevel(bp, kids, Subtree(kids, n), j)
    decreases |kids| - n, 1, 0
  {
    SubtreeBelow(bp, kids, n, j);
    SubtreeBelow(bp, kids, n, j + 1);
    ForestLevels(bp, kids, n, |kids[n]|, j);
    NextLevelTransfer(bp, kids, Subtree(kids, n), Forest(kids, n, |kids[n]|), j);
  }

  /** Level `j + 1` of the nodes of `s` holds the children of its level `j`, parent by parent. */
  ghost predicate NextLevel(bp: seq<Option<nat>>, kids: seq<seq<nat>>, s: seq<nat>, j: nat)
    requires BackOrdered(bp) && Within(s, |bp|)
  {
    AtDepth(bp, s, j + 1) == ConcatKids(kids, AtDepth(bp, s, j))
  }

  /** Two sequences with the same levels `j` and `j + 1` agree on `NextLevel`. */
  lemma {:induction false} NextLevelTransfer(bp: seq<Option<nat>>, kids: seq<seq<nat>>, s: seq<nat>, t: seq<nat>, j: nat)
    requires BackOrdered(bp) && Within(s, |bp|) && Within(t, |bp|)
    requires AtDepth(bp, s, j) == AtDepth(bp, t, j) && AtDepth(bp, s, j + 1) == AtDepth(bp, t, j + 1)
    requires NextLevel(bp, kids, t, j)
    ensures NextLevel(bp, kids, s, j)
  {
  }

  /** Level `j + 1` of two consecutive pieces is the children of their level `j` when it is so for each. */
  lemma {:induction false} LevelsAppend(bp: seq<Option<nat>>, kids: seq<seq<nat>>, a: seq<nat>, b: seq<nat>, j: nat)
    requires BackOrdered(bp) && Within(a, |bp|) && Within(b, |bp|)
    requires NextLevel(bp, kids, a, j)
    requires NextLevel(bp, kids, b, j)
    ensures NextLevel(bp, kids, a + b, j)
  {
    AtDepthAppend(bp, a, b, j);
    AtDepthAppend(bp, a, b, j + 1);
    ConcatKidsAppend(kids, AtDepth(bp, a, j), AtDepth(bp, b, j));
  }

  lemma {:induction false} ForestLevels(bp: seq<Option<nat>>, kids: seq<seq<nat>>, n: nat, k: nat, j: nat)
    requires Linked(bp, kids) && n < |kids| && k <= |kids[n]| && j > Depth(bp, n)
    ensures NextLevel(bp, kids, Forest(kids, n, k), j)
    decreases |kids| - n, 0, k
  {
    if k > 0 {
      var c := kids[n][k - 1];
      ForestLevels(bp, kids, n, k - 1, j);
      ChildDepth(bp, kids, n, k - 1);
      SubtreeLevels(bp, kids, c, j);
      LevelsAppend(bp, kids, Forest(kids, n, k - 1), Subtree(kids, c), j);
      assert Forest(kids, n, k) == Forest(kids, n, k - 1) + Subtree(kids, c);
    }
  }

  // ---------------------------------------------------------------------------------------------
  // What the layer structure holds

  /** List `d` of the layout holds exactly the nodes at depth `d`. */
  lemma {:induction false} LayoutMembers(bp: seq<Option<nat>>, kids: seq<seq<nat>>, d: nat)
    requires WellFormed(bp, kids) && |kids| > 0 && d < |Layout(bp, kids)|
    ensures forall x: nat :: x in Layout(bp, kids)[d] <==> x < |kids| && Depth(bp, x) == d
  {
    var t := Subtree(kids, 0);
    assert Layout(bp, kids)[d] == AtDepth(bp, t, d);
    AtDepthMembers(bp, t, d);
    forall x: nat | x < |kids| && Depth(bp, x) == d
      ensures x in t
    {
      Coverage(bp, kids, x);
    }
  }

  /** Once a list of the layout is empty, so is every later one. */
  lemma {:induction false} LayoutEmptyAt(bp: seq<Option<nat>>, kids: seq<seq<nat>>, d: nat, e: nat)
    requires WellFormed(bp, kids) && |kids| > 0 && d <= e < |Layout(bp, kids)|
    requires Layout(bp, kids)[d] == []
    ensures Layout(bp, kids)[e] == []
  {
    if Layout(bp, kids)[e] != [] {
      var x := Layout(bp, kids)[e][0];
      LayoutMembers(bp, kids, e);
      LayoutMembers(bp, kids, d);
      assert x in Layout(bp, kids)[e];
      var a := AncestorAt(bp, x, d);
      assert false;
    }
  }

  /**
   * List `d` of the layout holds exactly the nodes at depth `d`; every node's depth has a list;
   * the empty lists all come at the end.
   */
  lemma {:induction false} LayoutLayers(bp: seq<Option<nat>>, kids: seq<seq<nat>>)
    requires WellFormed(bp, kids) && |kids| > 0
    ensures forall d: nat, x: nat :: d < |Layout(bp, kids)| ==>
              (x in Layout(bp, kids)[d] <==> x < |kids| && Depth(bp, x) == d)
    ensures forall x: nat :: x < |kids| ==> Depth(bp, x) < |Layout(bp, kids)|
    ensures forall d: nat, e: nat :: d <= e < |Layout(bp, kids)| && Layout(bp, kids)[d] == [] ==>
              Layout(bp, kids)[e] == []
  {
    forall d: nat | d < |Layout(bp, kids)|
      ensures forall x: nat :: x in Layout(bp, kids)[d] <==> x < |kids| && Depth(bp, x) == d
    {
      LayoutMembers(bp, kids, d);
    }
    SubtreeDepthBound(bp, kids, 0);
    forall x: nat | x < |kids|
      ensures Depth(bp, x) < |Layout(bp, kids)|
    {
      Coverage(bp, kids, x);
    }
    forall d: nat, e: nat | d <= e < |Layout(bp, kids)| && Layout(bp, kids)[d] == []
      ensures Layout(bp, kids)[e] == []
    {
      LayoutEmptyAt(bp, kids, d, e);
    }
  }

  /** List `d + 1` of the layout holds the children of the nodes of list `d`, parent by parent. */
  lemma {:induction false} LayoutChildAt(bp: seq<Option<nat>>, kids: seq<seq<nat>>, d: nat)
    requires WellFormed(bp, kids) && |kids| > 0 && d + 1 < |Layout(bp, kids)|
    ensures Layout(bp, kids)[d + 1] == ConcatKids(kids, Layout(bp, kids)[d])
  {
    var t := Subtree(kids, 0);
    assert Layout(bp, kids)[d] == AtDepth(bp, t, d);
    assert Layout(bp, kids)[d + 1] == AtDepth(bp, t, d + 1);
    SubtreeLevels(bp, kids, 0, d);
  }

  /** Each list after the first holds the children of the previous list's nodes, parent by parent. */
  lemma {:induction false} LayoutChildren(bp: seq<Option<nat>>, kids: seq<seq<nat>>)
    requires WellFormed(bp, kids) && |kids| > 0
    ensures forall d: nat :: d + 1 < |Layout(bp, kids)| ==>
              Layout(bp, kids)[d + 1] == ConcatKids(kids, Layout(bp, kids)[d])
  {
    forall d: nat | d + 1 < |Layout(bp, kids)|
      ensures Layout(bp, kids)[d + 1] == ConcatKids(kids, Layout(bp, kids)[d])
    {
      LayoutChildAt(bp, kids, d);
    }
  }

  /** There is one list for the root and one for every node that has a child. */
  lemma {:induction false} LayoutLength(bp: seq<Option<nat>>, kids: seq<seq<nat>>)
    requires WellFormed(bp, kids) && KidsDistinct(kids) && |kids| > 0
    ensures |Layout(bp, kids)| == 1 + |set x: nat | x < |kids| && kids[x] != []|
  {
    var t := Subtree(kids, 0);
    var h := HasKids(kids, t);
    SubtreeDistinct(bp, kids, 0);
    HasKidsDistinct(kids, t);
    HasKidsMembers(kids, t);
    DistinctCard(h);
    forall x: nat | x < |kids|
      ensures x in t
    {
      Coverage(bp, kids, x);
    }
    assert Elements(h) == set x: nat | x < |kids| && kids[x] != [];
  }

  lemma {:induction false} LayoutPrefix(bp: seq<Option<nat>>, kids: seq<seq<nat>>, d: nat)
    requires WellFormed(bp, kids) && KidsDistinct(kids) && |kids| > 0 && d <= |Layout(bp, kids)|
    ensures Distinct(Flatten(Layout(bp, kids)[..d]))
    ensures forall x :: x in Flatten(Layout(bp, kids)[..d]) ==> x < |kids| && Depth(bp, x) < d
  {
    var lay := Layout(bp, kids);
    if d > 0 {
      var t := Subtree(kids, 0);
      LayoutPrefix(bp, kids, d - 1);
      assert lay[..d][..d - 1] == lay[..d - 1];
      SubtreeDistinct(bp, kids, 0);
      AtDepthDistinct(bp, t, d - 1);
      AtDepthMembers(bp, t, d - 1);
      DistinctAppend(Flatten(lay[..d - 1]), lay[d - 1]);
    }
  }

  /** The layer-major traversal of the layout visits every node of the arena exactly once. */
  lemma {:induction false} LayoutOnce(bp: seq<Option<nat>>, kids: seq<seq<nat>>)
    requires WellFormed(bp, kids) && KidsDistinct(kids) && |kids| > 0
    ensures Distinct(Flatten(Layout(bp, kids)))
    ensures forall x :: x in Flatten(Layout(bp, kids)) <==> 0 <= x < |kids|
  {
    var lay := Layout(bp, kids);
    LayoutPrefix(bp, kids, |lay|);
    assert lay[..|lay|] == lay;
    LayoutLayers(bp, kids);
    forall x: nat | x < |kids|
      ensures x in Flatten(lay)
    {
      assert x in lay[Depth(bp, x)];
    }
  }

  // ---------------------------------------------------------------------------------------------
  // Attaching a node

  /** The depth of every node, in arena order. */
  function Depths(bp: seq<Option<nat>>): seq<nat>
    requires BackOrdered(bp)
  {
    seq(|bp|, x requires 0 <= x < |bp| => Depth(bp, x))
  }

  /** The forward pointers after node `|kids|` is attached as the last child of `p`. */
  function AddChild(kids: seq<seq<nat>>, p: nat): seq<seq<nat>>
    requires p < |kids|
  {
    kids[p := kids[p] + [|kids|]] + [[]]
  }

  /** Appending a back pointer changes the depth of no existing node. */
  lemma {:induction false} DepthGrow(bp: seq<Option<nat>>, o: Option<nat>, y: nat)
    requires BackOrdered(bp) && BackOrdered(bp + [o]) && y < |bp|
    ensures Depth(bp + [o], y) == Depth(bp, y)
    decreases y
  {
    assert (bp + [o])[y] == bp[y];
    if bp[y].Some? {
      DepthGrow(bp, o, bp[y].value);
    }
  }

  /** Attaching a new node under an existing one keeps the arena a single well-formed tree. */
  lemma {:induction false} AttachShape(bp: seq<Option<nat>>, kids: seq<seq<nat>>, p: nat)
    requires WellFormed(bp, kids) && KidsDistinct(kids) && p < |bp|
    ensures WellFormed(bp + [Some(p)], AddChild(kids, p)) && KidsDistinct(AddChild(kids, p))
    ensures Depth(bp + [Some(p)], |bp|) == Depth(bp, p) + 1
    ensures forall y :: 0 <= y < |bp| ==> Depth(bp + [Some(p)], y) == Depth(bp, y)
  {
    var x := |bp|;
    var bp', kids' := bp + [Some(p)], AddChild(kids, p);
    assert kids'[p] == kids[p] + [x];
    assert kids'[x] == [];
    forall m | 0 <= m < |kids| && m != p ensures kids'[m] == kids[m] { }
    assert BackOrdered(bp') by {
      forall y | 0 <= y < |bp'| && bp'[y].Some? ensures bp'[y].value < y {
        if y < x { assert bp'[y] == bp[y]; }
      }
    }
    forall m, k | 0 <= m < |kids'| && 0 <= k < |kids'[m]|
      ensures m < kids'[m][k] < |kids'| && bp'[kids'[m][k]] == Some(m)
    {
      if m == p && k == |kids[p]| {
        assert kids'[m][k] == x;
      } else {
        assert kids'[m][k] == kids[m][k];
        assert bp'[kids[m][k]] == bp[kids[m][k]];
      }
    }
    forall y | 0 <= y < |bp'| ensures (bp'[y].None? <==> y == 0) {
      if y < x { assert bp'[y] == bp[y]; }
    }
    forall y | 0 < y < |bp'| ensures y in kids'[bp'[y].value] {
      if y < x {
        assert bp'[y] == bp[y];
        assert y in kids[bp[y].value];
      } else {
        assert kids'[p][|kids[p]|] == x;
      }
    }
    forall m | 0 <= m < |kids'| ensures Distinct(kids'[m]) {
      if m == p {
        assert Distinct(kids[p]);
        forall i | 0 <= i < |kids[p]| ensures kids[p][i] != x { }
      }
    }
    forall y | 0 <= y < |bp| ensures Depth(bp', y) == Depth(bp, y) {
      DepthGrow(bp, Some(p), y);
    }
    DepthGrow(bp, Some(p), p);
  }

  /** A node contributes itself to the nodes-with-children list exactly when it has a child. */
  lemma HasKidsOne(kids: seq<seq<nat>>, n: nat)
    requires n < |kids|
    ensures HasKids(kids, [n]) == if kids[n] != [] then [n] else []
  {
    assert [n][..0] == [];
  }

  /** The tree of the root alone: one list holding the root, the root at depth 0. */
  lemma RootLayout(bp: seq<Option<nat>>, kids: seq<seq<nat>>)
    requires |bp| == 1 && bp[0].None? && |kids| == 1 && kids[0] == []
    ensures WellFormed(bp, kids) && KidsDistinct(kids)
    ensures Layout(bp, kids) == [[0]] && Depths(bp) == [0]
  {
    assert Distinct(kids[0]);
    assert CountKids(kids, 1) == 0;
    LayoutByLevels(bp, kids, [[0]]);
    assert Depths(bp)[0] == 0;
  }

  /** The number of nodes among the first `n` that have at least one child. */
  function CountKids(kids: seq<seq<nat>>, n: nat): nat
    requires n <= |kids|
  {
    if n == 0 then 0 else CountKids(kids, n - 1) + (if kids[n - 1] != [] then 1 else 0)
  }

  lemma {:induction false} CountKidsSet(kids: seq<seq<nat>>, n: nat)
    requires 0 < n <= |kids|
    ensures |set x: nat | x < n && kids[x] != []| == CountKids(kids, n)
  {
    var b := set x: nat | x < n && kids[x] != [];
    if n > 1 {
      CountKidsSet(kids, n - 1);
      var a := set x: nat | x < n - 1 && kids[x] != [];
      if kids[n - 1] != [] {
        assert b == a + {n - 1};
      } else {
        assert b == a;
      }
    } else if kids[0] != [] {
      assert b == {0};
    } else {
      assert b == {};
    }
  }

  /** The first list of the layout is the root alone. */
  lemma LayoutTop(bp: seq<Option<nat>>, kids: seq<seq<nat>>)
    requires WellFormed(bp, kids) && |kids| > 0
    ensures Layout(bp, kids)[0] == [0]
  {
    var f := Forest(kids, 0, |kids[0]|);
    assert Subtree(kids, 0) == [0] + f;
    AtDepthAppend(bp, [0], f, 0);
    forall i | 0 <= i < |f| ensures Depth(bp, f[i]) != 0 {
      DepthZero(bp, kids, f[i]);
    }
    AtDepthNone(bp, f, 0);
    assert [0][..0] == [];
  }

  /**
   * A list of lists that starts with the root, holds the children of each list in the next
   * one and has one list more than there are nodes with children is the layout.
   */
  lemma LayoutByLevels(bp: seq<Option<nat>>, kids: seq<seq<nat>>, net: seq<seq<nat>>)
    requires WellFormed(bp, kids) && KidsDistinct(kids) && |kids| > 0
    requires |net| == 1 + CountKids(kids, |kids|) && net[0] == [0]
    requires forall d :: 0 <= d < |net| - 1 ==> net[d + 1] == ConcatKids(kids, net[d])
    ensures net == Layout(bp, kids)
  {
    var lay := Layout(bp, kids);
    LayoutLength(bp, kids);
    CountKidsSet(kids, |kids|);
    LayoutTop(bp, kids);
    LayoutChildren(bp, kids);
    forall d | 0 <= d < |net| ensures net[d] == lay[d] {
      LevelsAgree(kids, net, lay, d);
    }
  }

  lemma {:induction false} LevelsAgree(kids: seq<seq<nat>>, a: seq<seq<nat>>, b: seq<seq<nat>>, d: nat)
    requires |a| == |b| && d < |a| && a[0] == b[0]
    requires forall e :: 0 <= e < |a| - 1 ==> a[e + 1] == ConcatKids(kids, a[e])
    requires forall e: nat :: e + 1 < |b| ==> b[e + 1] == ConcatKids(kids, b[e])
    ensures a[d] == b[d]
  {
    if d > 0 {
      LevelsAgree(kids, a, b, d - 1);
    }
  }
}
