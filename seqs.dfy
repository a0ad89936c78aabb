/** Generic facts about sequences of sequences, used by the layer structure. */
module Seqs {

  datatype Option<T> = None | Some(value: T)

  /** No element occurs twice. */
  predicate Distinct<T(==)>(s: seq<T>) {
    forall i, j :: 0 <= i < j < |s| ==> s[i] != s[j]
  }

  /** Layer-major concatenation: every list of `ls`, in order. */
  function Flatten(ls: seq<seq<nat>>): (r: seq<nat>)
    ensures forall x :: x in r <==> exists i :: 0 <= i < |ls| && x in ls[i]
  {
    if ls == [] then []
    else
      var r := Flatten(ls[..|ls| - 1]) + ls[|ls| - 1];
      assert forall i :: 0 <= i < |ls| - 1 ==> ls[..|ls| - 1][i] == ls[i];
      r
  }

  function Sum(s: seq<nat>): nat {
    if s == [] then 0 else Sum(s[..|s| - 1]) + s[|s| - 1]
  }

  /** The lengths of the lists of `ls` that are not empty, in order. */
  function NonEmptySizes(ls: seq<seq<nat>>): (r: seq<nat>)
    ensures forall i :: 0 <= i < |r| ==> r[i] > 0
    ensures |r| <= |ls|
  {
    if ls == [] then []
    else NonEmptySizes(ls[..|ls| - 1]) + (if |ls[|ls| - 1]| != 0 then [|ls[|ls| - 1]|] else [])
  }

  /** The sizes of the non-empty lists add up to the length of the concatenation. */
  lemma {:induction false} SumNonEmptySizes(ls: seq<seq<nat>>)
    ensures Sum(NonEmptySizes(ls)) == |Flatten(ls)|
  {
    if ls != [] {
      var init := ls[..|ls| - 1];
      SumNonEmptySizes(init);
      var last := |ls[|ls| - 1]|;
      var ns := NonEmptySizes(init) + (if last != 0 then [last] else []);
      assert NonEmptySizes(ls) == ns;
      assert Flatten(ls) == Flatten(init) + ls[|ls| - 1];
      if last != 0 {
        assert ns[..|ns| - 1] == NonEmptySizes(init);
      } else {
        assert ns == NonEmptySizes(init);
      }
    }
  }

  lemma {:induction false} FlattenAppend(a: seq<seq<nat>>, b: seq<seq<nat>>)
    ensures Flatten(a + b) == Flatten(a) + Flatten(b)
  {
    if b == [] {
      assert a + b == a;
      AppendEmpty(Flatten(a));
    } else {
      var b' := b[..|b| - 1];
      InitAppend(a, b);
      FlattenAppend(a, b');
      AppendAssoc(Flatten(a), Flatten(b'), b[|b| - 1]);
    }
  }

  /** The node at list `l`, position `k` comes right after the nodes before it in layer-major order. */
  lemma FlattenSplit(ls: seq<seq<nat>>, l: nat, k: nat)
    requires l < |ls| && k < |ls[l]|
    ensures var p := |Flatten(ls[..l])| + k;
            p < |Flatten(ls)| &&
            Flatten(ls)[..p] == Flatten(ls[..l]) + ls[l][..k] &&
            Flatten(ls)[p] == ls[l][k]
  {
    assert ls == ls[..l] + [ls[l]] + ls[l + 1..];
    FlattenAppend(ls[..l] + [ls[l]], ls[l + 1..]);
    FlattenAppend(ls[..l], [ls[l]]);
    assert Flatten([ls[l]]) == ls[l] by {
      var one: seq<seq<nat>> := [ls[l]];
      assert one[..0] == [];
    }
  }

  /** In a sequence without repetition, a node has not been met before its own position. */
  lemma FlattenFresh(ls: seq<seq<nat>>, l: nat, k: nat)
    requires l < |ls| && k < |ls[l]|
    requires Distinct(Flatten(ls))
    ensures ls[l][k] !in Flatten(ls[..l]) + ls[l][..k]
  {
    FlattenSplit(ls, l, k);
  }

  lemma DistinctAppend(a: seq<nat>, b: seq<nat>)
    requires Distinct(a) && Distinct(b)
    requires forall x :: x in a ==> x !in b
    ensures Distinct(a + b)
  {
    forall i, j | 0 <= i < j < |a + b|
      ensures (a + b)[i] != (a + b)[j]
    {
      if j < |a| {
      } else if i >= |a| {
        assert (a + b)[i] == b[i - |a|] && (a + b)[j] == b[j - |a|];
      } else {
        assert (a + b)[i] in a && (a + b)[j] == b[j - |a|];
      }
    }
  }

  /** Dropping the last element of `a + b`, for a non-empty `b`, drops it from `b`. */
  lemma InitAppend<T>(a: seq<T>, b: seq<T>)
    requires b != []
    ensures (a + b)[..|a + b| - 1] == a + b[..|b| - 1]
    ensures (a + b)[|a + b| - 1] == b[|b| - 1]
  {
  }

  lemma AppendAssoc<T>(a: seq<T>, b: seq<T>, c: seq<T>)
    ensures (a + b) + c == a + (b + c)
  {
  }

  lemma AppendEmpty(a: seq<nat>)
    ensures [] + a == a && a + [] == a
  {
  }

  /** In a sequence without repetition, no element occurs before its own position. */
  lemma DistinctTake(s: seq<nat>, k: nat)
    requires Distinct(s) && k < |s|
    ensures s[k] !in s[..k]
  {
  }

  /** A prefix is the shorter prefix followed by one more element. */
  lemma TakeLast(s: seq<nat>, k: nat)
    requires 0 < k <= |s|
    ensures s[..k] == s[..k - 1] + [s[k - 1]]
  {
  }

  /** The set of elements of a sequence. */
  function Elements(s: seq<nat>): set<nat> {
    set x | x in s
  }

  /** A sequence without repetition has as many elements as its set of elements. */
  lemma {:induction false} DistinctCard(s: seq<nat>)
    requires Distinct(s)
    ensures |Elements(s)| == |s|
  {
    if s != [] {
      var init := s[..|s| - 1];
      var last := s[|s| - 1];
      assert Distinct(init);
      DistinctCard(init);
      assert last !in init;
      var before := Elements(init);
      assert Elements(s) == before + {last} by {
        assert s == init + [last];
      }
      assert last !in before;
      assert |before + {last}| == |before| + 1;
    } else {
      assert Elements(s) == {};
    }
  }

  /** The naturals below `n`. */
  function Below(n: nat): (r: set<nat>)
    ensures forall x: nat :: x in r <==> x < n
    ensures |r| == n
  {
    if n == 0 then {} else Below(n - 1) + {n - 1}
  }
}
