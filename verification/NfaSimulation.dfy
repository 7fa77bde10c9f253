/** The state-set simulation: which nodes it holds after each character, and what it accepts. */
module NfaSimulation {
  import opened Language
  import opened RegexAst
  import opened NfaGraph
  import opened NfaLanguage

  /** An epsilon-only walk. */
  ghost predicate EpsReaches(g: Graph, i: nat, j: nat) {
    Reaches(g, i, "", j)
  }

  /** From node i, the engine follows an edge for c, then any epsilon edges, and is at j.
      A NUL input character selects the epsilon edges too. */
  ghost predicate Consumes(g: Graph, i: nat, c: char, j: nat) {
    exists l, k: nat :: Edge(g, i, l, k) && Accepts(l, c) && EpsReaches(g, k, j)
  }

  /** Node j is held after the characters of w. */
  ghost predicate Held(g: Graph, start: nat, w: string, j: nat)
    decreases |w|
  {
    if w == "" then EpsReaches(g, start, j)
    else
      var p, c := w[..|w| - 1], w[|w| - 1];
      exists i: nat :: Held(g, start, p, i) && Consumes(g, i, c, j)
  }

  predicate NulFree(w: string) {
    forall k :: 0 <= k < |w| ==> w[k] != NUL
  }

  /** The last character of a walk's word is consumed by one edge, with silent steps behind it. */
  lemma {:induction false} LastCharacter(g: Graph, s: nat, w: string, j: nat, n: nat) returns (i: nat)
    requires w != "" && Walk(g, s, w, j, n)
    ensures Reaches(g, s, w[..|w| - 1], i) && Consumes(g, i, w[|w| - 1], j)
    decreases n
  {
    var u, k: nat, v :| Step(g, s, u, k) && Walk(g, k, v, j, n - 1) && w == u + v;
    if v == "" {
      var l :| l != NUL && Edge(g, s, l, k) && Accepts(l, u[0]);
      i := s;
      assert w[..|w| - 1] == "";
      SelfReaches(g, s);
      assert EpsReaches(g, k, j);
    } else {
      i := LastCharacter(g, k, v, j, n - 1);
      StepReaches(g, s, u, k);
      ReachesTrans(g, s, u, k, v[..|v| - 1], i);
      assert w[..|w| - 1] == u + v[..|v| - 1];
    }
  }

  lemma ConsumesReaches(g: Graph, i: nat, c: char, j: nat)
    requires c != NUL && Consumes(g, i, c, j)
    ensures Reaches(g, i, [c], j)
  {
    var l, k: nat :| Edge(g, i, l, k) && Accepts(l, c) && EpsReaches(g, k, j);
    StepReaches(g, i, [c], k);
    ReachesTrans(g, i, [c], k, "", j);
    assert [c] + "" == [c];
  }

  /** On input without NUL, the nodes held are exactly those reachable on the input read so far. */
  lemma {:induction false} HeldIsReachable(g: Graph, start: nat, w: string, j: nat)
    requires NulFree(w)
    ensures Held(g, start, w, j) <==> Reaches(g, start, w, j)
    decreases |w|
  {
    hide Consumes, Walk;
    if w == "" {
    } else {
      var p, c := w[..|w| - 1], w[|w| - 1];
      if Held(g, start, w, j) {
        var i: nat :| Held(g, start, p, i) && Consumes(g, i, c, j);
        HeldIsReachable(g, start, p, i);
        ConsumesReaches(g, i, c, j);
        ReachesTrans(g, start, p, i, [c], j);
        assert w == p + [c];
      }
      if Reaches(g, start, w, j) {
        var n: nat :| Walk(g, start, w, j, n);
        var i := LastCharacter(g, start, w, j, n);
        HeldIsReachable(g, start, p, i);
      }
    }
  }

  /** The engine's verdict on w for the automaton of r. */
  ghost predicate Accepted(r: Regex, w: string)
    requires NoEmpty(r)
  {
    var a := Build(r, []);
    Held(a.graph, a.start, w, a.end)
  }

  /** For the trees the parser builds and input without NUL, the verdict is membership in L(r). */
  lemma AcceptedIsLanguage(r: Regex, w: string)
    requires Plain(r) && NulFree(w)
    ensures Accepted(r, w) <==> w in L(r)
  {
    var a := Build(r, []);
    HeldIsReachable(a.graph, a.start, w, a.end);
    BuildLanguage(r, []);
    assert w in Paths(a.graph, a.start, a.end) <==> Reaches(a.graph, a.start, w, a.end);
  }
}
