/** Labelled graphs, the words their walks spell, and how walks cross a bridge between regions. */
module NfaGraph {
  import opened Language
  import opened RegexAst

  /** g[i][c] lists the targets of the edges of node i labelled c; NUL labels an epsilon edge. */
  type Graph = seq<map<char, seq<nat>>>

  ghost predicate Edge(g: Graph, i: nat, c: char, j: nat) {
    i < |g| && c in g[i] && j in g[i][c]
  }

  function AddEdge(g: Graph, i: nat, c: char, j: nat): (h: Graph)
    requires i < |g|
    ensures |h| == |g|
  {
    g[i := g[i][c := (if c in g[i] then g[i][c] else []) + [j]]]
  }

  lemma EdgesOfAddEdge(g: Graph, i: nat, c: char, j: nat)
    requires i < |g|
    ensures forall p: nat, l, q: nat :: Edge(AddEdge(g, i, c, j), p, l, q) <==>
                              Edge(g, p, l, q) || (p == i && l == c && q == j)
  {
  }

  /** One step from i to k that spells u: silent along an epsilon edge, or one accepted character. */
  ghost predicate Step(g: Graph, i: nat, u: string, k: nat) {
    || (u == "" && Edge(g, i, NUL, k))
    || (|u| == 1 && exists l :: l != NUL && Edge(g, i, l, k) && Accepts(l, u[0]))
  }

  ghost predicate Walk(g: Graph, i: nat, w: string, j: nat, n: nat)
    decreases n
  {
    if n == 0 then i == j && w == ""
    else exists u, k: nat, v :: Step(g, i, u, k) && Walk(g, k, v, j, n - 1) && w == u + v
  }

  ghost predicate Reaches(g: Graph, i: nat, w: string, j: nat) {
    exists n: nat :: Walk(g, i, w, j, n)
  }

  /** The words spelled by the walks from i to j. */
  ghost function Paths(g: Graph, i: nat, j: nat): Lang {
    iset w: string | Reaches(g, i, w, j)
  }

  lemma WalkStep(g: Graph, i: nat, u: string, k: nat, v: string, j: nat, n: nat)
    requires Step(g, i, u, k) && Walk(g, k, v, j, n)
    ensures Walk(g, i, u + v, j, n + 1)
  {
  }

  lemma FirstStep(g: Graph, i: nat, w: string, j: nat, n: nat) returns (u: string, k: nat, v: string)
    requires Walk(g, i, w, j, n) && (i != j || n > 0)
    ensures n > 0 && Step(g, i, u, k) && Walk(g, k, v, j, n - 1) && w == u + v
  {
    u, k, v :| Step(g, i, u, k) && Walk(g, k, v, j, n - 1) && w == u + v;
  }

  lemma NoStep(g: Graph, i: nat, w: string, j: nat)
    requires Walk(g, i, w, j, 0)
    ensures i == j && w == ""
  {
  }

  lemma {:induction false} WalkTrans(g: Graph, i: nat, w1: string, k: nat, m: nat, w2: string, j: nat, n: nat)
    requires Walk(g, i, w1, k, m) && Walk(g, k, w2, j, n)
    ensures Walk(g, i, w1 + w2, j, m + n)
    decreases m
  {
    hide Walk, Step;
    if m == 0 {
      NoStep(g, i, w1, k);
      assert w1 + w2 == w2;
    } else {
      var u, p, v := FirstStep(g, i, w1, k, m);
      WalkTrans(g, p, v, k, m - 1, w2, j, n);
      WalkStep(g, i, u, p, v + w2, j, m - 1 + n);
      assert w1 + w2 == u + (v + w2);
    }
  }

  lemma ReachesTrans(g: Graph, i: nat, u: string, k: nat, v: string, j: nat)
    requires Reaches(g, i, u, k) && Reaches(g, k, v, j)
    ensures Reaches(g, i, u + v, j)
  {
    var m: nat :| Walk(g, i, u, k, m);
    var n: nat :| Walk(g, k, v, j, n);
    WalkTrans(g, i, u, k, m, v, j, n);
  }

  lemma StepReaches(g: Graph, i: nat, u: string, k: nat)
    requires Step(g, i, u, k)
    ensures Reaches(g, i, u, k)
  {
    assert Walk(g, k, "", k, 0);
    assert u == u + "";
    assert Walk(g, i, u, k, 1);
  }

  lemma SelfReaches(g: Graph, i: nat)
    ensures Reaches(g, i, "", i)
  {
    assert Walk(g, i, "", i, 0);
  }

  /** No edge of g leaves the region [lo, hi). */
  ghost predicate Closed(g: Graph, lo: nat, hi: nat) {
    forall i: nat, c, j: nat :: lo <= i < hi && Edge(g, i, c, j) ==> lo <= j < hi
  }

  /** Every edge of g that starts in [lo, hi) is an edge of h. */
  ghost predicate Keeps(g: Graph, h: Graph, lo: nat, hi: nat) {
    forall i: nat, c, j: nat :: lo <= i < hi && Edge(g, i, c, j) ==> Edge(h, i, c, j)
  }

  /** A walk inside a closed region survives in any graph that only adds edges. */
  lemma {:induction false} Lift(g: Graph, h: Graph, lo: nat, hi: nat, i: nat, w: string, j: nat, n: nat)
    requires Closed(g, lo, hi) && Keeps(g, h, lo, hi) && lo <= i < hi
    requires Walk(g, i, w, j, n)
    ensures Walk(h, i, w, j, n)
    decreases n
  {
    if n == 0 {
    } else {
      var u, k: nat, v :| Step(g, i, u, k) && Walk(g, k, v, j, n - 1) && w == u + v;
      Lift(g, h, lo, hi, k, v, j, n - 1);
      assert Step(h, i, u, k);
    }
  }

  lemma Monotone(g: Graph, h: Graph, lo: nat, hi: nat, i: nat, w: string, j: nat)
    requires Closed(g, lo, hi) && Keeps(g, h, lo, hi) && lo <= i < hi
    requires Reaches(g, i, w, j)
    ensures Reaches(h, i, w, j)
  {
    var n: nat :| Walk(g, i, w, j, n);
    Lift(g, h, lo, hi, i, w, j, n);
  }

  /** On [lo, hi) the graph h has the edges of g and an epsilon edge from x to y. */
  ghost predicate AddsBridge(g: Graph, h: Graph, lo: nat, hi: nat, x: nat, y: nat) {
    forall i: nat, c, j: nat :: lo <= i < hi ==>
      (Edge(h, i, c, j) <==> Edge(g, i, c, j) || (i == x && c == NUL && j == y))
  }

  /** A step inside the region, or over the bridge. */
  lemma BridgeStep(g: Graph, h: Graph, lo: nat, hi: nat, x: nat, y: nat, i: nat, s: string, k: nat)
    requires Closed(g, lo, hi) && AddsBridge(g, h, lo, hi, x, y) && lo <= i < hi && !(lo <= y < hi)
    requires Step(h, i, s, k)
    ensures if lo <= k < hi then Step(g, i, s, k) else i == x && k == y && s == ""
  {
  }

  /** A walk that leaves a region whose only way out is the bridge from x to y goes to x inside the
      region, then crosses, and is shorter from there on. */
  lemma {:induction false} CrossBridge(g: Graph, h: Graph, lo: nat, hi: nat, x: nat, y: nat,
                                      i: nat, w: string, j: nat, n: nat)
    returns (u: string, v: string, m: nat)
    requires Closed(g, lo, hi) && AddsBridge(g, h, lo, hi, x, y)
    requires lo <= i < hi && !(lo <= y < hi) && !(lo <= j < hi)
    requires Walk(h, i, w, j, n)
    ensures w == u + v && m < n && Reaches(g, i, u, x) && Walk(h, y, v, j, m)
    decreases n
  {
    hide Walk, Step, Reaches, AddsBridge, Closed;
    var s, k, t := FirstStep(h, i, w, j, n);
    BridgeStep(g, h, lo, hi, x, y, i, s, k);
    if lo <= k < hi {
      u, v, m := CrossBridge(g, h, lo, hi, x, y, k, t, j, n - 1);
      StepReaches(g, i, s, k);
      ReachesTrans(g, i, s, k, u, x);
      assert s + (u + v) == s + u + v;
      u := s + u;
    } else {
      u, v, m := "", t, n - 1;
      SelfReaches(g, i);
    }
  }
}
