/**
 * The integer ids of `_update_ids` (node_tree.py:138-147).  A node freshly attached carries the
 * id -1; renumbering with the parent's id `p` gives it `p` and moves every id at or above `p`,
 * the parent's own included, one up.
 */
module Ids {
  import opened Seqs

  /** The new id of a node whose id was `v`, renumbering around `p`. */
  function Bump(v: int, p: int): int {
    if v == -1 then p else if v >= p then v + 1 else v
  }

  /** Every id renumbered around `p`. */
  function BumpAll(ids: seq<int>, p: int): seq<int> {
    seq(|ids|, i requires 0 <= i < |ids| => Bump(ids[i], p))
  }

  /** The ids of `n` nodes are `0 .. n-1`, each used once. */
  predicate Dense(ids: seq<int>) {
    (forall i :: 0 <= i < |ids| ==> 0 <= ids[i] < |ids|) && Distinct(ids)
  }

  /**
   * Renumbering after one attachment keeps the ids dense: the new node (id -1, last) takes the
   * parent's id `p`, the ids at or above `p` move up by one and the others stay.
   */
  lemma BumpDense(ids: seq<int>, p: int)
    requires Dense(ids) && 0 <= p < |ids|
    ensures var r := BumpAll(ids + [-1], p);
            |r| == |ids| + 1 && r[|ids|] == p &&
            (forall i :: 0 <= i < |ids| ==> r[i] == if ids[i] >= p then ids[i] + 1 else ids[i]) &&
            Dense(r)
  {
    var s := ids + [-1];
    var r := BumpAll(s, p);
    forall i | 0 <= i < |ids| ensures r[i] == if ids[i] >= p then ids[i] + 1 else ids[i] {
      assert s[i] == ids[i];
    }
    forall i, j | 0 <= i < j < |r| ensures r[i] != r[j] {
      if j == |ids| {
        assert r[j] == p;
      } else {
        assert s[i] == ids[i] && s[j] == ids[j];
      }
    }
  }

  /** The set of the values of `ids`. */
  function IdSet(ids: seq<int>): set<int> {
    set i | 0 <= i < |ids| :: ids[i]
  }

  lemma {:induction false} IdSetCard(ids: seq<int>)
    requires Distinct(ids)
    ensures |IdSet(ids)| == |ids|
  {
    if ids != [] {
      var init := ids[..|ids| - 1];
      var last := ids[|ids| - 1];
      assert Distinct(init);
      IdSetCard(init);
      assert IdSet(ids) == IdSet(init) + {last} by {
        forall v | v in IdSet(ids) ensures v in IdSet(init) + {last} {
          var i :| 0 <= i < |ids| && ids[i] == v;
          if i < |ids| - 1 { assert init[i] == v; }
        }
        forall v | v in IdSet(init) ensures v in IdSet(ids) {
          var i :| 0 <= i < |init| && init[i] == v;
          assert ids[i] == v;
        }
      }
      assert last !in IdSet(init);
    } else {
      assert IdSet(ids) == {};
    }
  }

  /** The integers `0 .. n-1`. */
  function Range(n: nat): (r: set<int>)
    ensures forall v :: v in r <==> 0 <= v < n
    ensures |r| == n
  {
    if n == 0 then {} else Range(n - 1) + {n - 1}
  }

  /** Dense ids are exactly `0 .. n-1`: every value in the range is some node's id. */
  lemma DenseOnto(ids: seq<int>)
    requires Dense(ids)
    ensures IdSet(ids) == Range(|ids|)
  {
    var a, b := IdSet(ids), Range(|ids|);
    IdSetCard(ids);
    assert a <= b;
    assert b == (b - a) + a;
    assert |b - a| == 0;
    assert b - a == {};
  }
}
