/** Small facts about sequences used by the traversal proofs. */
module Sequences {

  /** No element occurs twice. */
  ghost predicate Distinct<T>(s: seq<T>)
  {
    forall i, j :: 0 <= i < j < |s| ==> s[i] != s[j]
  }

  /** The concatenation of a sequence of sequences, in order. */
  function Flatten<T>(ss: seq<seq<T>>): seq<T>
  {
    if ss == [] then [] else Flatten(ss[..|ss| - 1]) + ss[|ss| - 1]
  }

  lemma FlattenAppend<T>(ss: seq<seq<T>>, s: seq<T>)
    ensures Flatten(ss + [s]) == Flatten(ss) + s
  {
    assert (ss + [s])[..|ss|] == ss;
  }

  lemma {:induction false} FlattenMember<T>(ss: seq<seq<T>>, i: nat, x: T)
    requires i < |ss| && x in ss[i]
    ensures x in Flatten(ss)
  {
    if i < |ss| - 1 {
      FlattenMember(ss[..|ss| - 1], i, x);
    }
  }

  /** Every element of the concatenation comes from a part; i names one. */
  lemma {:induction false} FlattenSource<T>(ss: seq<seq<T>>, x: T) returns (i: nat)
    requires x in Flatten(ss)
    ensures i < |ss| && x in ss[i]
  {
    var init := ss[..|ss| - 1];
    if x in ss[|ss| - 1] {
      i := |ss| - 1;
    } else {
      i := FlattenSource(init, x);
    }
  }

  lemma DistinctConcat<T>(a: seq<T>, b: seq<T>)
    requires Distinct(a) && Distinct(b)
    requires forall x :: x in a ==> x !in b
    ensures Distinct(a + b)
  {
    forall i, j | 0 <= i < j < |a + b| ensures (a + b)[i] != (a + b)[j] {
      if i < |a| && |a| <= j {
        assert (a + b)[i] in a && (a + b)[j] in b;
      }
    }
  }

  /** When the concatenation has no repetition, the parts are pairwise disjoint. */
  lemma {:induction false} DistinctFlattenDisjoint<T>(ss: seq<seq<T>>, i: nat, j: nat, x: T)
    requires Distinct(Flatten(ss)) && i < j < |ss| && x in ss[i]
    ensures x !in ss[j]
  {
    var init := ss[..|ss| - 1];
    assert Flatten(ss) == Flatten(init) + ss[|ss| - 1];
    if j < |ss| - 1 {
      forall a, b | 0 <= a < b < |Flatten(init)| ensures Flatten(init)[a] != Flatten(init)[b] {
        assert Flatten(init)[a] == Flatten(ss)[a] && Flatten(init)[b] == Flatten(ss)[b];
      }
      DistinctFlattenDisjoint(init, i, j, x);
    } else {
      FlattenMember(init, i, x);
      DistinctConcatDisjoint(Flatten(init), ss[j], x);
    }
  }

  lemma DistinctConcatDisjoint<T>(a: seq<T>, b: seq<T>, x: T)
    requires Distinct(a + b) && x in a
    ensures x !in b
  {
    var ia :| 0 <= ia < |a| && a[ia] == x;
    forall ib | 0 <= ib < |b| ensures b[ib] != x {
      assert (a + b)[ia] == a[ia] && (a + b)[|a| + ib] == b[ib];
    }
  }
}
