/** Parent forests as values: roots, depths, path compression and union by weight. */
module Forest {
  import opened Cardinality
  import opened PowersOfTwo

  /** Every tree edge at least doubles the weight on the way up, so there are no cycles. */
  ghost predicate Inv(p: seq<nat>, w: seq<nat>) {
    && |p| == |w|
    && (forall i :: 0 <= i < |p| ==> p[i] < |p| && 1 <= w[i])
    && (forall i :: 0 <= i < |p| && p[i] != i ==> 2 * w[i] <= w[p[i]])
  }

  ghost function MaxOf(w: seq<nat>): (m: nat)
    ensures forall i :: 0 <= i < |w| ==> w[i] <= m
  {
    if w == [] then 0
    else
      var m := MaxOf(w[1..]);
      assert forall i :: 1 <= i < |w| ==> w[i] == w[1..][i - 1];
      if w[0] > m then w[0] else m
  }

  ghost function Root(p: seq<nat>, w: seq<nat>, i: nat): (r: nat)
    requires Inv(p, w) && i < |p|
    ensures r < |p| && p[r] == r && w[i] <= w[r]
    decreases MaxOf(w) - w[i]
  {
    if p[i] == i then i else Root(p, w, p[i])
  }

  /** The number of edges from i to its root. */
  ghost function Depth(p: seq<nat>, w: seq<nat>, i: nat): nat
    requires Inv(p, w) && i < |p|
    decreases MaxOf(w) - w[i]
  {
    if p[i] == i then 0 else 1 + Depth(p, w, p[i])
  }

  /** j is i or stands above it. */
  ghost predicate OnPath(p: seq<nat>, w: seq<nat>, i: nat, j: nat)
    requires Inv(p, w) && i < |p|
    decreases MaxOf(w) - w[i]
  {
    j == i || (p[i] != i && OnPath(p, w, p[i], j))
  }

  ghost function Tree(p: seq<nat>, w: seq<nat>, r: nat): set<nat>
    requires Inv(p, w)
  {
    set i | 0 <= i < |p| && Root(p, w, i) == r
  }

  /** A root's weight is the number of elements in its tree. */
  ghost predicate Weighed(p: seq<nat>, w: seq<nat>)
    requires Inv(p, w)
  {
    forall r :: 0 <= r < |p| && p[r] == r ==> w[r] == |Tree(p, w, r)|
  }

  lemma MulGrows(d: nat, x: nat, y: nat)
    requires x <= y
    ensures d * x <= d * y
  {
  }

  lemma StepBound(d: nat, x: nat, y: nat, z: nat)
    requires 2 * x <= y && d * y <= z
    ensures (2 * d) * x <= z
  {
    MulGrows(d, 2 * x, y);
    assert (2 * d) * x == d * (2 * x);
  }

  lemma Doubles(n: nat)
    ensures Pow2(n + 1) == 2 * Pow2(n)
  {
  }

  /** 2^depth times an element's weight is at most its root's weight ... */
  lemma {:induction false} DepthBound(p: seq<nat>, w: seq<nat>, i: nat)
    requires Inv(p, w) && i < |p|
    ensures Pow2(Depth(p, w, i)) * w[i] <= w[Root(p, w, i)]
    decreases MaxOf(w) - w[i]
  {
    if p[i] == i {
    } else {
      DepthBound(p, w, p[i]);
      hide Pow2;
      assert Pow2(Depth(p, w, i)) == 2 * Pow2(Depth(p, w, p[i])) by { Doubles(Depth(p, w, p[i])); }
      StepBound(Pow2(Depth(p, w, p[i])), w[i], w[p[i]], w[Root(p, w, i)]);
    }
  }

  /** ... so no tree is higher than the logarithm of the number of elements. */
  lemma LogarithmicHeight(p: seq<nat>, w: seq<nat>, i: nat)
    requires Inv(p, w) && Weighed(p, w) && i < |p|
    ensures Pow2(Depth(p, w, i)) <= w[Root(p, w, i)] <= |p|
  {
    DepthBound(p, w, i);
    MulGrows(Pow2(Depth(p, w, i)), 1, w[i]);
    SizeBelow(Tree(p, w, Root(p, w, i)), |p|);
  }

  /** Pointing i at its root moves no element to another tree and makes none deeper. */
  lemma {:induction false} Compress(p: seq<nat>, w: seq<nat>, i: nat, j: nat)
    requires Inv(p, w) && i < |p| && j < |p|
    ensures var q := p[i := Root(p, w, i)];
            Inv(q, w) && Root(q, w, j) == Root(p, w, j) && Depth(q, w, j) <= Depth(p, w, j)
    decreases MaxOf(w) - w[j]
  {
    var r := Root(p, w, i);
    var q := p[i := r];
    assert p[i] != i ==> r == Root(p, w, p[i]) && w[p[i]] <= w[r];
    assert Inv(q, w);
    if j == i {
      assert q[r] == r;
    } else if p[j] != j {
      Compress(p, w, i, p[j]);
    }
  }

  /** q is p with every element from i up to its root pointing at the root; nothing moves to another
      tree or gets deeper. */
  ghost predicate Flattened(p: seq<nat>, q: seq<nat>, w: seq<nat>, i: nat)
    requires Inv(p, w) && i < |p|
  {
    && Inv(q, w)
    && (forall j :: 0 <= j < |p| ==> q[j] == if OnPath(p, w, i, j) then Root(p, w, i) else p[j])
    && (forall j :: 0 <= j < |p| ==> Root(q, w, j) == Root(p, w, j) && Depth(q, w, j) <= Depth(p, w, j))
  }

  /** Where the recursion ends, and where it goes. */
  lemma FlattenedFirst(p: seq<nat>, w: seq<nat>, i: nat)
    requires Inv(p, w) && i < |p|
    ensures if p[i] == i then i == Root(p, w, i) && Flattened(p, p, w, i)
            else p[i] < |p| && Root(p, w, p[i]) == Root(p, w, i) && w[i] < w[p[i]] <= MaxOf(w)
  {
  }

  lemma PathStep(p: seq<nat>, w: seq<nat>, i: nat)
    requires Inv(p, w) && i < |p| && p[i] != i
    ensures forall j :: 0 <= j < |p| ==> (OnPath(p, w, i, j) <==> j == i || OnPath(p, w, p[i], j))
  {
  }

  lemma CompressAll(q: seq<nat>, w: seq<nat>, i: nat)
    requires Inv(q, w) && i < |q|
    ensures var q' := q[i := Root(q, w, i)];
            Inv(q', w)
            && forall j :: 0 <= j < |q| ==> Root(q', w, j) == Root(q, w, j) && Depth(q', w, j) <= Depth(q, w, j)
  {
    hide Root, Depth;
    forall j | 0 <= j < |q|
      ensures var q' := q[i := Root(q, w, i)];
              Inv(q', w) && Root(q', w, j) == Root(q, w, j) && Depth(q', w, j) <= Depth(q, w, j)
    {
      Compress(q, w, i, j);
    }
  }

  /** On the way back: from the parent of i to i. */
  lemma FlattenedNext(p: seq<nat>, q: seq<nat>, w: seq<nat>, i: nat)
    requires Inv(p, w) && i < |p| && p[i] != i && Flattened(p, q, w, p[i])
    ensures |q| == |p| && Flattened(p, q[i := Root(p, w, i)], w, i)
  {
    hide Inv, Root, Depth, OnPath;
    SameLength(p, q, w);
    FlattenedFirst(p, w, i);
    FlattenedPath(p, q, w, i);
    CompressAll(q, w, i);
  }

  lemma FlattenedPath(p: seq<nat>, q: seq<nat>, w: seq<nat>, i: nat)
    requires Inv(p, w) && i < |p| && p[i] != i && Flattened(p, q, w, p[i])
    ensures |q| == |p| && Root(q, w, i) == Root(p, w, i)
    ensures forall j :: 0 <= j < |p| ==>
      q[i := Root(p, w, i)][j] == if OnPath(p, w, i, j) then Root(p, w, i) else p[j]
  {
    hide Inv, Root, Depth, OnPath;
    SameLength(p, q, w);
    FlattenedFirst(p, w, i);
    PathStep(p, w, i);
  }

  lemma SameLength(p: seq<nat>, q: seq<nat>, w: seq<nat>)
    requires Inv(p, w)
    ensures Inv(q, w) ==> |q| == |p|
  {
  }

  /** Hanging the lighter root a below the root b merges the two trees and touches no other. */
  lemma {:induction false} Link(p: seq<nat>, w: seq<nat>, a: nat, b: nat, j: nat)
    requires Inv(p, w) && a < |p| && b < |p| && a != b && p[a] == a && p[b] == b && w[a] <= w[b] && j < |p|
    ensures var q, v := p[a := b], w[b := w[a] + w[b]];
            Inv(q, v) && Root(q, v, j) == if Root(p, w, j) == a then b else Root(p, w, j)
    decreases MaxOf(w) - w[j]
  {
    var q, v := p[a := b], w[b := w[a] + w[b]];
    assert Inv(q, v);
    if j == a {
      assert q[j] == b && q[b] == b;
    } else if p[j] != j {
      Link(p, w, a, b, p[j]);
    }
  }

  lemma LinkWeighed(p: seq<nat>, w: seq<nat>, a: nat, b: nat)
    requires Inv(p, w) && a < |p| && b < |p| && a != b && p[a] == a && p[b] == b && w[a] <= w[b]
    requires Weighed(p, w)
    ensures var q, v := p[a := b], w[b := w[a] + w[b]]; Inv(q, v) && Weighed(q, v)
  {
    var q, v := p[a := b], w[b := w[a] + w[b]];
    Link(p, w, a, b, a);
    assert forall r :: 0 <= r < |q| && q[r] == r ==> p[r] == r && r != a;
    hide Inv, Root, Tree;
    forall r | 0 <= r < |q| && q[r] == r ensures v[r] == |Tree(q, v, r)| {
      LinkTree(p, w, a, b, r);
    }
  }

  /** The tree of b takes in that of a, the others stay as they are. */
  lemma LinkTree(p: seq<nat>, w: seq<nat>, a: nat, b: nat, r: nat)
    requires Inv(p, w) && a < |p| && b < |p| && a != b && p[a] == a && p[b] == b && w[a] <= w[b] && r != a
    ensures var q, v := p[a := b], w[b := w[a] + w[b]];
            Inv(q, v) && |Tree(q, v, r)| == if r == b then |Tree(p, w, a)| + |Tree(p, w, b)| else |Tree(p, w, r)|
  {
    var q, v := p[a := b], w[b := w[a] + w[b]];
    hide Inv, Root, Tree;
    Link(p, w, a, b, a);
    forall j | 0 <= j < |p| ensures Root(q, v, j) == if Root(p, w, j) == a then b else Root(p, w, j) {
      Link(p, w, a, b, j);
    }
    TreesMerge(p, w, q, v, a, b, r);
  }

  lemma TreesMerge(p: seq<nat>, w: seq<nat>, q: seq<nat>, v: seq<nat>, a: nat, b: nat, r: nat)
    requires Inv(p, w) && Inv(q, v) && |p| == |q| && a != b && r != a
    requires forall j :: 0 <= j < |p| ==> Root(q, v, j) == if Root(p, w, j) == a then b else Root(p, w, j)
    ensures |Tree(q, v, r)| == if r == b then |Tree(p, w, a)| + |Tree(p, w, b)| else |Tree(p, w, r)|
  {
    hide Inv, Root;
    var inA, inB := Tree(p, w, a), Tree(p, w, b);
    assert inA !! inB;
    if r == b {
      assert Tree(q, v, b) == inA + inB;
    } else {
      assert Tree(q, v, r) == Tree(p, w, r);
    }
  }
}

/** The relation a list of connected pairs generates. */
module Connectivity {
  type Pairs = seq<(nat, nat)>

  predicate Linked(pairs: Pairs, i: nat, j: nat) {
    if pairs == [] then i == j
    else
      var before := pairs[..|pairs| - 1];
      var (a, b) := pairs[|pairs| - 1];
      || Linked(before, i, j)
      || (Linked(before, i, a) && Linked(before, b, j))
      || (Linked(before, i, b) && Linked(before, a, j))
  }

  ghost predicate IsEquivalence(R: (nat, nat) -> bool) {
    && (forall i: nat :: R(i, i))
    && (forall i: nat, j: nat :: R(i, j) ==> R(j, i))
    && (forall i: nat, j: nat, k: nat :: R(i, j) && R(j, k) ==> R(i, k))
  }

  lemma {:induction false} LinkedSymmetric(pairs: Pairs, i: nat, j: nat)
    requires Linked(pairs, i, j)
    ensures Linked(pairs, j, i)
    decreases |pairs|
  {
    if pairs == [] {
    } else {
      var before := pairs[..|pairs| - 1];
      var (a, b) := pairs[|pairs| - 1];
      if Linked(before, i, j) {
        LinkedSymmetric(before, i, j);
      } else if Linked(before, i, a) && Linked(before, b, j) {
        LinkedSymmetric(before, i, a);
        LinkedSymmetric(before, b, j);
      } else {
        LinkedSymmetric(before, i, b);
        LinkedSymmetric(before, a, j);
      }
    }
  }

  lemma {:induction false} LinkedReflexive(pairs: Pairs, i: nat)
    ensures Linked(pairs, i, i)
    decreases |pairs|
  {
    if pairs == [] {
    } else {
      LinkedReflexive(pairs[..|pairs| - 1], i);
    }
  }

  lemma {:induction false} LinkedTransitive(pairs: Pairs)
    ensures forall i: nat, j: nat, k: nat :: Linked(pairs, i, j) && Linked(pairs, j, k) ==> Linked(pairs, i, k)
    decreases |pairs|
  {
    if pairs == [] {
    } else {
      var before := pairs[..|pairs| - 1];
      var (a, b) := pairs[|pairs| - 1];
      LinkedTransitive(before);
      forall i: nat, j: nat | Linked(before, i, j) ensures Linked(before, j, i) {
        LinkedSymmetric(before, i, j);
      }
    }
  }

  /** Linked is an equivalence that contains the pairs ... */
  lemma {:induction false} LinkedIsEquivalence(pairs: Pairs)
    ensures IsEquivalence((i: nat, j: nat) => Linked(pairs, i, j))
    ensures forall k :: 0 <= k < |pairs| ==> Linked(pairs, pairs[k].0, pairs[k].1)
    decreases |pairs|
  {
    forall i: nat ensures Linked(pairs, i, i) {
      LinkedReflexive(pairs, i);
    }
    forall i: nat, j: nat | Linked(pairs, i, j) ensures Linked(pairs, j, i) {
      LinkedSymmetric(pairs, i, j);
    }
    LinkedTransitive(pairs);
    if pairs == [] {
    } else {
      var before := pairs[..|pairs| - 1];
      var (a, b) := pairs[|pairs| - 1];
      LinkedIsEquivalence(before);
      LinkedReflexive(before, a);
      LinkedReflexive(before, b);
      assert forall k :: 0 <= k < |before| ==> before[k] == pairs[k];
    }
  }

  /** ... and is contained in every other one: it is their equivalence closure. */
  lemma {:induction false} LinkedIsLeast(pairs: Pairs, R: (nat, nat) -> bool, i: nat, j: nat)
    requires IsEquivalence(R) && forall k :: 0 <= k < |pairs| ==> R(pairs[k].0, pairs[k].1)
    requires Linked(pairs, i, j)
    ensures R(i, j)
    decreases |pairs|
  {
    if pairs == [] {
    } else {
      var before := pairs[..|pairs| - 1];
      var (a, b) := pairs[|pairs| - 1];
      assert forall k :: 0 <= k < |before| ==> before[k] == pairs[k];
      assert R(a, b);
      if Linked(before, i, j) {
        LinkedIsLeast(before, R, i, j);
      } else if Linked(before, i, a) && Linked(before, b, j) {
        LinkedIsLeast(before, R, i, a);
        LinkedIsLeast(before, R, b, j);
        assert R(i, b);
      } else {
        LinkedIsLeast(before, R, i, b);
        LinkedIsLeast(before, R, a, j);
        assert R(b, a) && R(i, a);
      }
    }
  }
}

/** The union-find object on its two arrays. */
module UnionFind {
  import opened Forest
  import opened Connectivity

  class UnionFind {
    const size: nat
    const parent: array<nat>
    const weight: array<nat>
    ghost var pairs: Pairs

    /** The arrays are a weighed forest whose trees are the classes of the connected pairs. */
    ghost predicate Valid()
      reads this, parent, weight
    {
      && parent != weight && parent.Length == size && weight.Length == size
      && Inv(parent[..], weight[..]) && Weighed(parent[..], weight[..])
      && Represents(parent[..], weight[..], pairs)
    }

    ghost function RootOf(i: nat): nat
      requires Valid() && i < size
      reads this, parent, weight
    {
      Forest.Root(parent[..], weight[..], i)
    }

    constructor (n: nat)
      ensures Valid() && size == n && pairs == [] && fresh(parent) && fresh(weight)
    {
      size := n;
      parent := new nat[n];
      weight := new nat[n];
      pairs := [];
      new;
      for i := 0 to size
        invariant pairs == [] && forall k :: 0 <= k < i ==> parent[k] == k && weight[k] == 1
      {
        parent[i] := i;
        weight[i] := 1;
      }
      var p, w := parent[..], weight[..];
      assert forall r :: 0 <= r < size ==> Tree(p, w, r) == {r};
    }

    /** root: recursive search that compresses the path behind it. */
    method Root(i: nat) returns (r: nat)
      requires parent != weight && parent.Length == weight.Length
      requires Inv(parent[..], weight[..]) && i < parent.Length
      modifies parent
      ensures r == parent[i] == Forest.Root(old(parent[..]), weight[..], i)
      ensures Flattened(old(parent[..]), parent[..], weight[..], i)
      decreases MaxOf(weight[..]) - weight[i]
    {
      ghost var p, w := parent[..], weight[..];
      FlattenedFirst(p, w, i);
      if parent[i] != i {
        hide Inv, Flattened, Forest.Root;
        var up := Root(parent[i]);
        FlattenedNext(p, parent[..], w, i);
        ghost var q := parent[..];
        parent[i] := up;
        assert parent[..] == q[i := up];
      }
      return parent[i];
    }

    /** Compression leaves the abstract state alone. */
    method FindRoot(i: nat) returns (r: nat)
      requires Valid() && i < size
      modifies parent
      ensures Valid() && r == old(RootOf(i))
      ensures forall j :: 0 <= j < size ==> RootOf(j) == old(RootOf(j))
    {
      ghost var p, w := parent[..], weight[..];
      hide Inv, Weighed, Represents, Forest.Root;
      r := Root(i);
      Compressed(p, parent[..], w, pairs);
    }

    lemma RootsDecide(p: nat, q: nat)
      requires Valid() && p < size && q < size
      ensures RootOf(p) == RootOf(q) <==> Linked(pairs, p, q)
    {
    }

    method IsConnected(p: nat, q: nat) returns (b: bool)
      requires Valid() && p < size && q < size
      modifies parent
      ensures Valid()
      ensures b <==> Linked(pairs, p, q)
    {
      hide Inv, Weighed, Represents, Linked;
      RootsDecide(p, q);
      var rootp := FindRoot(p);
      var rootq := FindRoot(q);
      return rootp == rootq;
    }

    method Connect(p: nat, q: nat)
      requires Valid() && p < size && q < size
      modifies this, parent, weight
      ensures Valid() && pairs == old(pairs) + [(p, q)]
      ensures var a, b := old(RootOf(p)), old(RootOf(q));
              var top := if old(weight[a]) > old(weight[b]) then a else b;
              forall j :: 0 <= j < size ==> RootOf(j) == if old(RootOf(j)) in {a, b} then top else old(RootOf(j))
    {
      hide Inv, Weighed, Represents, Linked, Forest.Root;
      RootsDecide(p, q);
      var rootp := FindRoot(p);
      var rootq := FindRoot(q);
      if rootp == rootq {
        AlreadyLinked(parent[..], weight[..], pairs, p, q);
        pairs := pairs + [(p, q)];
        return;
      }
      Union(rootp, rootq, p, q);
    }

    /** The rest of connect: the lighter root goes below the heavier one. */
    method Union(rootp: nat, rootq: nat, ghost p: nat, ghost q: nat)
      requires Valid() && p < size && q < size && rootp == RootOf(p) && rootq == RootOf(q) && rootp != rootq
      modifies this, parent, weight
      ensures Valid() && pairs == old(pairs) + [(p, q)]
      ensures var top := if old(weight[rootp]) > old(weight[rootq]) then rootp else rootq;
              forall j :: 0 <= j < size ==>
                RootOf(j) == if old(RootOf(j)) in {rootp, rootq} then top else old(RootOf(j))
    {
      RootsAreRoots(parent[..], weight[..], p, q);
      if weight[rootp] > weight[rootq] {
        Hang(rootq, rootp, p, q);
      } else {
        Hang(rootp, rootq, p, q);
      }
    }

    method Hang(child: nat, top: nat, ghost p: nat, ghost q: nat)
      requires Valid() && p < size && q < size && child < size && top < size && child != top
      requires parent[child] == child && parent[top] == top && weight[child] <= weight[top]
      requires (child == RootOf(p) && top == RootOf(q)) || (child == RootOf(q) && top == RootOf(p))
      modifies this, parent, weight
      ensures Valid() && pairs == old(pairs) + [(p, q)]
      ensures forall j :: 0 <= j < size ==> RootOf(j) == if old(RootOf(j)) == child then top else old(RootOf(j))
    {
      hide Inv, Weighed, Represents, Linked, Forest.Root;
      ghost var f, w := parent[..], weight[..];
      Merge(f, w, child, top, pairs, p, q);
      weight[top] := weight[top] + weight[child];
      parent[child] := top;
      assert parent[..] == f[child := top] && weight[..] == w[top := w[child] + w[top]];
      pairs := pairs + [(p, q)];
    }
  }

  /** A forest with the same roots represents the same pairs. */
  lemma Compressed(p: seq<nat>, q: seq<nat>, w: seq<nat>, pairs: Pairs)
    requires Inv(p, w) && Weighed(p, w) && Represents(p, w, pairs) && Inv(q, w)
    requires forall j :: 0 <= j < |p| ==> Forest.Root(q, w, j) == Forest.Root(p, w, j)
    ensures Weighed(q, w) && Represents(q, w, pairs)
  {
    forall k | 0 <= k < |q| && q[k] == k ensures w[k] == |Tree(q, w, k)| {
      assert Forest.Root(q, w, k) == k;
      SameRootIsRoot(p, w, k);
      hide Inv, Forest.Root;
      assert Tree(q, w, k) == Tree(p, w, k);
    }
  }

  lemma RootsAreRoots(f: seq<nat>, w: seq<nat>, p: nat, q: nat)
    requires Inv(f, w) && p < |f| && q < |f|
    ensures |f| == |w|
    ensures f[Forest.Root(f, w, p)] == Forest.Root(f, w, p) && f[Forest.Root(f, w, q)] == Forest.Root(f, w, q)
  {
  }

  /** An element with itself as root is its own parent. */
  lemma SameRootIsRoot(p: seq<nat>, w: seq<nat>, k: nat)
    requires Inv(p, w) && k < |p| && Forest.Root(p, w, k) == k
    ensures p[k] == k
  {
  }

  /** The trees are the classes of the connected pairs. */
  ghost predicate Represents(f: seq<nat>, w: seq<nat>, pairs: Pairs)
    requires Inv(f, w)
  {
    forall i, j :: 0 <= i < |f| && 0 <= j < |f| ==>
      (Forest.Root(f, w, i) == Forest.Root(f, w, j) <==> Linked(pairs, i, j))
  }

  lemma Decides(f: seq<nat>, w: seq<nat>, pairs: Pairs, i: nat, j: nat)
    requires Inv(f, w) && Represents(f, w, pairs) && i < |f| && j < |f|
    ensures Forest.Root(f, w, i) == Forest.Root(f, w, j) <==> Linked(pairs, i, j)
  {
  }

  lemma OneMorePair(pairs: Pairs, p: nat, q: nat, i: nat, j: nat)
    ensures Linked(pairs + [(p, q)], i, j) <==>
      || Linked(pairs, i, j)
      || (Linked(pairs, i, p) && Linked(pairs, q, j))
      || (Linked(pairs, i, q) && Linked(pairs, p, j))
  {
    assert (pairs + [(p, q)])[..|pairs|] == pairs;
  }

  /** Linking the roots of p and q adds the pair (p, q) to the classes. */
  lemma Merge(f: seq<nat>, w: seq<nat>, child: nat, top: nat, pairs: Pairs, p: nat, q: nat)
    requires Inv(f, w) && child < |f| && top < |f| && child != top && f[child] == child && f[top] == top
    requires |f| == |w| && w[child] <= w[top] && p < |f| && q < |f| && Weighed(f, w) && Represents(f, w, pairs)
    requires (child == Forest.Root(f, w, p) && top == Forest.Root(f, w, q))
          || (child == Forest.Root(f, w, q) && top == Forest.Root(f, w, p))
    ensures var g, v := f[child := top], w[top := w[child] + w[top]];
            && Inv(g, v) && Weighed(g, v) && Represents(g, v, pairs + [(p, q)])
            && forall j :: 0 <= j < |f| ==>
                 Forest.Root(g, v, j) == if Forest.Root(f, w, j) == child then top else Forest.Root(f, w, j)
  {
    LinkWeighed(f, w, child, top);
    var g, v := f[child := top], w[top := w[child] + w[top]];
    forall j | 0 <= j < |f|
      ensures Forest.Root(g, v, j) == if Forest.Root(f, w, j) == child then top else Forest.Root(f, w, j)
    {
      Link(f, w, child, top, j);
    }
    forall i, j | 0 <= i < |f| && 0 <= j < |f|
      ensures Forest.Root(g, v, i) == Forest.Root(g, v, j) <==> Linked(pairs + [(p, q)], i, j)
    {
      hide Inv, Weighed, Represents, Forest.Root, Linked;
      Link(f, w, child, top, i);
      Link(f, w, child, top, j);
      Decides(f, w, pairs, i, j);
      Decides(f, w, pairs, i, p);
      Decides(f, w, pairs, i, q);
      Decides(f, w, pairs, p, j);
      Decides(f, w, pairs, q, j);
      OneMorePair(pairs, p, q, i, j);
    }
  }

  lemma AlreadyLinked(f: seq<nat>, w: seq<nat>, pairs: Pairs, p: nat, q: nat)
    requires Inv(f, w) && Represents(f, w, pairs) && Linked(pairs, p, q)
    ensures Represents(f, w, pairs + [(p, q)])
  {
    assert (pairs + [(p, q)])[..|pairs|] == pairs;
    LinkedTransitive(pairs);
    LinkedSymmetric(pairs, p, q);
  }
}
