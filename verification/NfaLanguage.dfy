/** The automaton the constructor builds, as a value, and the language it accepts. */
module NfaLanguage {
  import opened Language
  import opened RegexAst
  import opened NfaGraph

  predicate NoEmpty(r: Regex) {
    match r
    case Empty => false
    case Null => true
    case Char(_) => true
    case Alt(left, right) => NoEmpty(left) && NoEmpty(right)
    case Seq(first, last) => NoEmpty(first) && NoEmpty(last)
    case Rep(re) => NoEmpty(re)
    case Group(body, _) => NoEmpty(body)
  }

  predicate NoNul(r: Regex) {
    match r
    case Empty => true
    case Null => true
    case Char(ch) => ch != NUL
    case Alt(left, right) => NoNul(left) && NoNul(right)
    case Seq(first, last) => NoNul(first) && NoNul(last)
    case Rep(re) => NoNul(re)
    case Group(body, _) => NoNul(body)
  }

  /** The trees the parser produces: no Empty, and no NUL as a pattern character. */
  predicate Plain(r: Regex) { NoEmpty(r) && NoNul(r) }

  datatype Nfa = Nfa(graph: Graph, start: nat, end: nat)

  /** The nodes, in the order they enter the vector, that visiting r adds behind those of g.
      Fragments share nodes: Null and Rep have start == end. */
  function Build(r: Regex, g: Graph): (a: Nfa)
    requires NoEmpty(r)
    ensures |g| <= a.start < |a.graph| && |g| <= a.end < |a.graph|
    ensures a.graph[..|g|] == g
  {
    match r
    case Null => Nfa(g + [map[]], |g|, |g|)
    case Char(ch) =>
      Nfa(AddEdge(g + [map[], map[]], |g|, ch, |g| + 1), |g|, |g| + 1)
    case Alt(left, right) =>
      var a := Build(left, g);
      var b := Build(right, a.graph);
      Nfa(JoinAlt(a, b), |b.graph|, |b.graph| + 1)
    case Seq(first, last) =>
      var a := Build(first, g);
      var b := Build(last, a.graph);
      Nfa(AddEdge(b.graph, a.end, NUL, b.start), a.start, b.end)
    case Rep(re) =>
      var a := Build(re, g);
      Nfa(LoopRep(a), |a.graph|, |a.graph|)
    case Group(body, _) => Build(body, g)
  }

  /** Edges of g + new empty nodes. */
  lemma EdgesOfGrow(g: Graph, h: Graph)
    requires |g| <= |h| && h[..|g|] == g && (forall i :: |g| <= i < |h| ==> h[i] == map[])
    ensures forall p: nat, l, q: nat :: Edge(h, p, l, q) <==> Edge(g, p, l, q)
  {
    forall p: nat, l, q: nat ensures Edge(h, p, l, q) <==> Edge(g, p, l, q) {
      if p < |g| {
        assert h[p] == h[..|g|][p];
      }
    }
  }

  /** Nodes below |g| keep their edges. */
  lemma OldEdges(g: Graph, h: Graph)
    requires |g| <= |h| && h[..|g|] == g
    ensures forall p: nat, l, q: nat :: p < |g| ==> (Edge(h, p, l, q) <==> Edge(g, p, l, q))
  {
    forall p: nat, l, q: nat | p < |g| ensures Edge(h, p, l, q) <==> Edge(g, p, l, q) {
      assert h[p] == h[..|g|][p];
    }
  }

  lemma ClosedJoin(g: Graph, h: Graph, lo: nat)
    requires lo <= |g| <= |h| && h[..|g|] == g && Closed(g, lo, |g|) && Closed(h, |g|, |h|)
    ensures Closed(h, lo, |h|)
  {
    OldEdges(g, h);
    hide Edge;
  }

  /** The fragment of r is a region of its own: its edges stay among the nodes that r added. */
  lemma {:induction false} BuildClosed(r: Regex, g: Graph)
    requires NoEmpty(r)
    ensures Closed(Build(r, g).graph, |g|, |Build(r, g).graph|)
  {
    hide JoinAlt, LoopRep, AddEdge;
    match r
    case Null => EdgesOfGrow(g, g + [map[]]);
    case Char(ch) =>
      var h := g + [map[], map[]];
      EdgesOfGrow(g, h);
      EdgesOfAddEdge(h, |g|, ch, |g| + 1);
    case Alt(left, right) =>
      var a, b := Build(left, g), Build(right, Build(left, g).graph);
      BuildClosed(left, g);
      BuildClosed(right, a.graph);
      ClosedJoin(a.graph, b.graph, |g|);
      EdgesOfAlt(a, b);
    case Seq(first, last) =>
      var a, b := Build(first, g), Build(last, Build(first, g).graph);
      BuildClosed(first, g);
      BuildClosed(last, a.graph);
      ClosedJoin(a.graph, b.graph, |g|);
      EdgesOfAddEdge(b.graph, a.end, NUL, b.start);
    case Rep(re) =>
      BuildClosed(re, g);
      EdgesOfRep(Build(re, g));
    case Group(body, _) => BuildClosed(body, g);
  }

  /** The graph of an alternation, given those of its two sides. */
  function JoinAlt(a: Nfa, b: Nfa): Graph
    requires a.end < |b.graph| && b.end < |b.graph|
  {
    var s, e := |b.graph|, |b.graph| + 1;
    var h := AddEdge(AddEdge(b.graph + [map[], map[]], s, NUL, a.start), s, NUL, b.start);
    AddEdge(AddEdge(h, a.end, NUL, e), b.end, NUL, e)
  }

  lemma EdgesOfAlt(a: Nfa, b: Nfa)
    requires a.end < |b.graph| && b.end < |b.graph|
    ensures var s := |b.graph|;
            forall p: nat, l, q: nat :: Edge(JoinAlt(a, b), p, l, q) <==>
              || Edge(b.graph, p, l, q)
              || (l == NUL && p == s && (q == a.start || q == b.start))
              || (l == NUL && (p == a.end || p == b.end) && q == s + 1)
  {
    var s, e := |b.graph|, |b.graph| + 1;
    var h0 := b.graph + [map[], map[]];
    EdgesOfGrow(b.graph, h0);
    EdgesOfAddEdge(h0, s, NUL, a.start);
    var h1 := AddEdge(h0, s, NUL, a.start);
    EdgesOfAddEdge(h1, s, NUL, b.start);
    var h2 := AddEdge(h1, s, NUL, b.start);
    EdgesOfAddEdge(h2, a.end, NUL, e);
    EdgesOfAddEdge(AddEdge(h2, a.end, NUL, e), b.end, NUL, e);
  }

  function LoopRep(a: Nfa): Graph
    requires a.end < |a.graph|
  {
    AddEdge(AddEdge(a.graph + [map[]], |a.graph|, NUL, a.start), a.end, NUL, |a.graph|)
  }

  lemma EdgesOfRep(a: Nfa)
    requires a.end < |a.graph|
    ensures var s := |a.graph|;
            forall p: nat, l, q: nat :: Edge(LoopRep(a), p, l, q) <==>
              || Edge(a.graph, p, l, q)
              || (l == NUL && p == s && q == a.start)
              || (l == NUL && p == a.end && q == s)
  {
    var s := |a.graph|;
    var h0 := a.graph + [map[]];
    EdgesOfGrow(a.graph, h0);
    EdgesOfAddEdge(h0, s, NUL, a.start);
    EdgesOfAddEdge(AddEdge(h0, s, NUL, a.start), a.end, NUL, s);
  }

  /** The start-to-end paths of r's fragment behind g spell exactly the words of r. */
  ghost predicate Spelled(r: Regex, g: Graph)
    requires NoEmpty(r)
  {
    var a := Build(r, g);
    Paths(a.graph, a.start, a.end) == L(r)
  }

  lemma UnfoldAlt(left: Regex, right: Regex, g: Graph)
    requires NoEmpty(left) && NoEmpty(right)
    ensures var a, b := Build(left, g), Build(right, Build(left, g).graph);
            && Build(Alt(left, right), g) == Nfa(JoinAlt(a, b), |b.graph|, |b.graph| + 1)
            && L(Alt(left, right)) == L(left) + L(right)
  {
  }

  lemma UnfoldSeq(first: Regex, last: Regex, g: Graph)
    requires NoEmpty(first) && NoEmpty(last)
    ensures var a, b := Build(first, g), Build(last, Build(first, g).graph);
            && Build(Seq(first, last), g) == Nfa(AddEdge(b.graph, a.end, NUL, b.start), a.start, b.end)
            && L(Seq(first, last)) == Cat(L(first), L(last))
  {
  }

  lemma SpelledAlt(left: Regex, right: Regex, g: Graph)
    requires NoEmpty(left) && NoEmpty(right) && Spelled(left, g) && Spelled(right, Build(left, g).graph)
    ensures Spelled(Alt(left, right), g)
  {
    hide JoinAlt, AddEdge, Closed, Paths, Build, L;
    UnfoldAlt(left, right, g);
    var a, b := Build(left, g), Build(right, Build(left, g).graph);
    BuildClosed(left, g);
    BuildClosed(right, a.graph);
    AltLanguage(a, b, |g|);
  }

  lemma SpelledSeq(first: Regex, last: Regex, g: Graph)
    requires NoEmpty(first) && NoEmpty(last) && Spelled(first, g) && Spelled(last, Build(first, g).graph)
    ensures Spelled(Seq(first, last), g)
  {
    hide AddEdge, Closed, Paths, Build, L;
    UnfoldSeq(first, last, g);
    var a, b := Build(first, g), Build(last, Build(first, g).graph);
    BuildClosed(first, g);
    BuildClosed(last, a.graph);
    SeqLanguage(a, b, |g|);
  }

  lemma SpelledRep(re: Regex, g: Graph)
    requires NoEmpty(re) && Spelled(re, g)
    ensures Spelled(Rep(re), g)
  {
    hide LoopRep, Closed, Paths;
    BuildClosed(re, g);
    RepLanguage(Build(re, g), |g|);
  }

  lemma SpelledLeaf(r: Regex, g: Graph)
    requires Plain(r) && (r.Null? || r.Char?)
    ensures Spelled(r, g)
  {
    if r.Null? {
      NullLanguage(g);
    } else {
      CharLanguage(r.ch, g);
    }
  }

  lemma SpelledGroup(body: Regex, group: int, g: Graph)
    requires NoEmpty(body) && Spelled(body, g)
    ensures Spelled(Group(body, group), g)
  {
  }

  /** The automaton of r spells exactly the words of r, wherever its fragment is placed. */
  lemma {:induction false} BuildLanguage(r: Regex, g: Graph)
    requires Plain(r)
    ensures Spelled(r, g)
  {
    hide Spelled, Build;
    match r
    case Null => SpelledLeaf(r, g);
    case Char(_) => SpelledLeaf(r, g);
    case Alt(left, right) =>
      BuildLanguage(left, g);
      BuildLanguage(right, Build(left, g).graph);
      SpelledAlt(left, right, g);
    case Seq(first, last) =>
      BuildLanguage(first, g);
      BuildLanguage(last, Build(first, g).graph);
      SpelledSeq(first, last, g);
    case Rep(re) =>
      BuildLanguage(re, g);
      SpelledRep(re, g);
    case Group(body, group) =>
      BuildLanguage(body, g);
      SpelledGroup(body, group, g);
  }

  lemma NullLanguage(g: Graph)
    ensures Paths(g + [map[]], |g|, |g|) == iset{""}
  {
    var h, s := g + [map[]], |g|;
    SelfReaches(h, s);
    forall w | Reaches(h, s, w, s) ensures w == "" {
      var n: nat :| Walk(h, s, w, s, n);
      DeadEnd(h, s, w, s, n);
    }
  }

  lemma CharLanguage(ch: char, g: Graph)
    requires ch != NUL
    ensures Paths(AddEdge(g + [map[], map[]], |g|, ch, |g| + 1), |g|, |g| + 1) == L(Char(ch))
  {
    var h0, s, e := g + [map[], map[]], |g|, |g| + 1;
    var h := AddEdge(h0, s, ch, e);
    EdgesOfGrow(g, h0);
    EdgesOfAddEdge(h0, s, ch, e);
    forall w | Reaches(h, s, w, e) ensures w in L(Char(ch)) {
      var n: nat :| Walk(h, s, w, e, n);
      var u, k: nat, v :| Step(h, s, u, k) && Walk(h, k, v, e, n - 1) && w == u + v;
      DeadEnd(h, e, v, e, n - 1);
    }
    forall w | w in L(Char(ch)) ensures Reaches(h, s, w, e) {
      assert Edge(h, s, ch, e);
      StepReaches(h, s, w, e);
    }
  }

  /** The fragments a and b, b built behind a, as regions of the graph h that contains both. */
  lemma Regions(a: Nfa, b: Nfa, lo: nat, h: Graph)
    requires lo <= |a.graph| <= |b.graph| && b.graph[..|a.graph|] == a.graph
    requires Closed(a.graph, lo, |a.graph|) && Closed(b.graph, |a.graph|, |b.graph|)
    requires forall p: nat, l, q: nat :: p < |b.graph| && Edge(b.graph, p, l, q) ==> Edge(h, p, l, q)
    ensures forall i: nat, w, j: nat :: lo <= i < |a.graph| && Reaches(a.graph, i, w, j) ==> Reaches(h, i, w, j)
    ensures forall i: nat, w, j: nat :: |a.graph| <= i < |b.graph| && Reaches(b.graph, i, w, j) ==> Reaches(h, i, w, j)
  {
    OldEdges(a.graph, b.graph);
    forall i: nat, w, j: nat | lo <= i < |a.graph| && Reaches(a.graph, i, w, j) ensures Reaches(h, i, w, j) {
      Monotone(a.graph, h, lo, |a.graph|, i, w, j);
    }
    forall i: nat, w, j: nat | |a.graph| <= i < |b.graph| && Reaches(b.graph, i, w, j) ensures Reaches(h, i, w, j) {
      Monotone(b.graph, h, |a.graph|, |b.graph|, i, w, j);
    }
  }

  lemma SeqLanguage(a: Nfa, b: Nfa, lo: nat)
    requires lo <= a.start < |a.graph| && lo <= a.end < |a.graph|
    requires |a.graph| <= b.start < |b.graph| && |a.graph| <= b.end < |b.graph|
    requires b.graph[..|a.graph|] == a.graph
    requires Closed(a.graph, lo, |a.graph|) && Closed(b.graph, |a.graph|, |b.graph|)
    ensures Paths(AddEdge(b.graph, a.end, NUL, b.start), a.start, b.end) ==
            Cat(Paths(a.graph, a.start, a.end), Paths(b.graph, b.start, b.end))
  {
    var h, mid := AddEdge(b.graph, a.end, NUL, b.start), |a.graph|;
    EdgesOfAddEdge(b.graph, a.end, NUL, b.start);
    OldEdges(a.graph, b.graph);
    Regions(a, b, lo, h);
    forall w | Reaches(h, a.start, w, b.end)
      ensures Splits(Paths(a.graph, a.start, a.end), Paths(b.graph, b.start, b.end), w)
    {
      var n: nat :| Walk(h, a.start, w, b.end, n);
      var u, v, m := CrossBridge(a.graph, h, lo, mid, a.end, b.start, a.start, w, b.end, n);
      Monotone(h, b.graph, mid, |b.graph|, b.start, v, b.end);
    }
    forall u, v | Reaches(a.graph, a.start, u, a.end) && Reaches(b.graph, b.start, v, b.end)
      ensures Reaches(h, a.start, u + v, b.end)
    {
      StepReaches(h, a.end, "", b.start);
      ReachesTrans(h, a.end, "", b.start, v, b.end);
      assert "" + v == v;
      ReachesTrans(h, a.start, u, a.end, v, b.end);
    }
  }

  /** A walk out of a region to a node without edges is a walk to the region's end. */
  lemma OutOfRegion(g: Graph, h: Graph, lo: nat, hi: nat, x: nat, e: nat, i: nat, w: string, n: nat)
    requires Closed(g, lo, hi) && AddsBridge(g, h, lo, hi, x, e) && lo <= i < hi && !(lo <= e < hi)
    requires forall l, q: nat :: !Edge(h, e, l, q)
    requires Walk(h, i, w, e, n)
    ensures Reaches(g, i, w, x)
  {
    hide Closed, AddsBridge, Reaches;
    var u, v, m := CrossBridge(g, h, lo, hi, x, e, i, w, e, n);
    DeadEnd(h, e, v, e, m);
    assert u + "" == u;
  }

  /** A walk from the new start to the new end goes through one of the sides. */
  lemma AltSide(a: Nfa, b: Nfa, lo: nat, h: Graph, s: nat, e: nat, w: string)
    requires lo <= a.start < |a.graph| <= b.start < |b.graph| == s < e
    requires Closed(a.graph, lo, |a.graph|) && Closed(b.graph, |a.graph|, |b.graph|)
    requires AddsBridge(a.graph, h, lo, |a.graph|, a.end, e) && AddsBridge(b.graph, h, |a.graph|, s, b.end, e)
    requires forall l, q: nat :: Edge(h, s, l, q) ==> l == NUL && (q == a.start || q == b.start)
    requires forall l, q: nat :: !Edge(h, e, l, q)
    requires Reaches(h, s, w, e)
    ensures Reaches(a.graph, a.start, w, a.end) || Reaches(b.graph, b.start, w, b.end)
  {
    hide AddsBridge, Closed;
    var n: nat :| Walk(h, s, w, e, n);
    var u, k: nat, v :| Step(h, s, u, k) && Walk(h, k, v, e, n - 1) && w == u + v;
    assert u == "" && w == v;
    if k == a.start {
      OutOfRegion(a.graph, h, lo, |a.graph|, a.end, e, k, v, n - 1);
    } else {
      OutOfRegion(b.graph, h, |a.graph|, s, b.end, e, k, v, n - 1);
    }
  }

  lemma AltLanguage(a: Nfa, b: Nfa, lo: nat)
    requires lo <= a.start < |a.graph| && lo <= a.end < |a.graph|
    requires |a.graph| <= b.start < |b.graph| && |a.graph| <= b.end < |b.graph|
    requires b.graph[..|a.graph|] == a.graph
    requires Closed(a.graph, lo, |a.graph|) && Closed(b.graph, |a.graph|, |b.graph|)
    ensures Paths(JoinAlt(a, b), |b.graph|, |b.graph| + 1) ==
            Paths(a.graph, a.start, a.end) + Paths(b.graph, b.start, b.end)
  {
    var h, mid, s, e := JoinAlt(a, b), |a.graph|, |b.graph|, |b.graph| + 1;
    EdgesOfAlt(a, b);
    hide JoinAlt;
    OldEdges(a.graph, b.graph);
    Regions(a, b, lo, h);
    assert AddsBridge(a.graph, h, lo, mid, a.end, e) && AddsBridge(b.graph, h, mid, s, b.end, e);
    hide AddsBridge, Reaches;
    forall w | Reaches(h, s, w, e)
      ensures Reaches(a.graph, a.start, w, a.end) || Reaches(b.graph, b.start, w, b.end)
    {
      AltSide(a, b, lo, h, s, e, w);
    }
    forall w | Reaches(a.graph, a.start, w, a.end) ensures Reaches(h, s, w, e) {
      Through(h, s, a.start, w, a.end, e);
    }
    forall w | Reaches(b.graph, b.start, w, b.end) ensures Reaches(h, s, w, e) {
      Through(h, s, b.start, w, b.end, e);
    }
  }

  /** A silent step, a walk, and a silent step. */
  lemma Through(h: Graph, s: nat, i: nat, w: string, j: nat, e: nat)
    requires Edge(h, s, NUL, i) && Reaches(h, i, w, j) && Edge(h, j, NUL, e)
    ensures Reaches(h, s, w, e)
  {
    StepReaches(h, s, "", i);
    StepReaches(h, j, "", e);
    ReachesTrans(h, i, w, j, "", e);
    ReachesTrans(h, s, "", i, w + "", e);
    assert "" + (w + "") == w;
  }

  lemma DeadEnd(h: Graph, e: nat, w: string, j: nat, n: nat)
    requires Walk(h, e, w, j, n)
    requires forall c, q: nat :: !Edge(h, e, c, q)
    ensures w == "" && j == e
  {
    assert n > 0 ==> exists u, k: nat :: Step(h, e, u, k);
  }

  lemma RepLanguage(a: Nfa, lo: nat)
    requires lo <= a.start < |a.graph| && lo <= a.end < |a.graph|
    requires Closed(a.graph, lo, |a.graph|)
    ensures Paths(LoopRep(a), |a.graph|, |a.graph|) == Star(Paths(a.graph, a.start, a.end))
  {
    var h, s, A := LoopRep(a), |a.graph|, Paths(a.graph, a.start, a.end);
    EdgesOfRep(a);
    forall w | Reaches(h, s, w, s) ensures w in Star(A) {
      var n: nat :| Walk(h, s, w, s, n);
      LoopToStar(a, lo, w, n);
    }
    forall w, k: nat | w in Power(A, k) ensures Reaches(h, s, w, s) {
      PowerToLoop(a, lo, w, k);
    }
  }

  /** Each round trip through the shared node s spells one factor of the star. */
  lemma {:induction false} LoopToStar(a: Nfa, lo: nat, w: string, n: nat)
    requires lo <= a.start < |a.graph| && lo <= a.end < |a.graph|
    requires Closed(a.graph, lo, |a.graph|)
    requires Walk(LoopRep(a), |a.graph|, w, |a.graph|, n)
    ensures w in Star(Paths(a.graph, a.start, a.end))
    decreases n
  {
    var h, s, A := LoopRep(a), |a.graph|, Paths(a.graph, a.start, a.end);
    EdgesOfRep(a);
    if n == 0 {
      assert w in Power(A, 0);
    } else {
      var u, k: nat, v :| Step(h, s, u, k) && Walk(h, k, v, s, n - 1) && w == u + v;
      var x, y, m := CrossBridge(a.graph, h, lo, s, a.end, s, k, v, s, n - 1);
      LoopToStar(a, lo, y, m);
      StarStep(A, x, y);
      assert w == x + y;
    }
  }

  lemma {:induction false} PowerToLoop(a: Nfa, lo: nat, w: string, k: nat)
    requires lo <= a.start < |a.graph| && lo <= a.end < |a.graph|
    requires Closed(a.graph, lo, |a.graph|)
    requires w in Power(Paths(a.graph, a.start, a.end), k)
    ensures Reaches(LoopRep(a), |a.graph|, w, |a.graph|)
    decreases k
  {
    var h, s, A := LoopRep(a), |a.graph|, Paths(a.graph, a.start, a.end);
    EdgesOfRep(a);
    if k == 0 {
      SelfReaches(h, s);
    } else {
      var u, v :| u in A && v in Power(A, k - 1) && w == u + v;
      Monotone(a.graph, h, lo, s, a.start, u, a.end);
      Through(h, s, a.start, u, a.end, s);
      PowerToLoop(a, lo, v, k - 1);
      ReachesTrans(h, s, u, s, v, s);
    }
  }
}
