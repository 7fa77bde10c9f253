/** How large sets of natural numbers and of list elements are. */
module Cardinality {
  lemma {:induction false} SizeBelow(S: set<nat>, n: nat)
    requires forall x :: x in S ==> x < n
    ensures |S| <= n
  {
    if n == 0 {
      assert S == {};
    } else {
      SizeBelow(S - {n - 1}, n - 1);
      assert S <= (S - {n - 1}) + {n - 1};
    }
  }

  /** The elements of a list. */
  function Members<T(!new)>(l: seq<T>): (S: set<T>)
    ensures forall x :: x in S <==> x in l
  {
    if l == [] then {} else Members(l[..|l| - 1]) + {l[|l| - 1]}
  }

  lemma {:induction false} MembersCount<T(!new)>(l: seq<T>)
    requires forall i, j :: 0 <= i < j < |l| ==> l[i] != l[j]
    ensures |Members(l)| == |l|
  {
    if l == [] {
    } else {
      MembersCount(l[..|l| - 1]);
      assert l[|l| - 1] !in l[..|l| - 1];
    }
  }
}
