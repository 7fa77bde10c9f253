/** NFAEngine: the work-list epsilon closure and the matching loop over node objects.  The captured
    groups are not modelled, so the maps from nodes to groups are sets of nodes. */
module NfaEngine {
  import opened Language
  import opened RegexAst
  import opened NfaGraph
  import opened NfaLanguage
  import opened NfaConstructor
  import opened NfaSimulation

  class Engine {
    const nfa: NFA
    ghost const re: Regex

    constructor (re: Regex)
      requires NoEmpty(re)
      ensures this.re == re && Valid() && fresh(nfa) && fresh(nfa.repr)
    {
      this.re := re;
      var nfaCons := new NFAConstructor();
      var n := nfaCons.Construct(re);
      nfa := n;
    }

    ghost predicate Valid()
      reads nfa, nfa.nodes
    {
      NoEmpty(re) && nfa.Holds(Build(re, []))
    }

    /** The inner loop of the search: queue, mark and record the targets not visited before. */
    static method Enqueue(newmap: set<Node>, Q: seq<Node>, isVisited: set<Node>, targets: seq<Node>)
      returns (newmap': set<Node>, Q': seq<Node>, isVisited': set<Node>)
      ensures isVisited' == isVisited + set n | n in targets
      ensures newmap' == newmap + (isVisited' - isVisited)
      ensures forall n :: n in Q' <==> n in Q || n in isVisited' - isVisited
      ensures isVisited' == isVisited ==> Q' == Q
    {
      newmap', Q', isVisited' := newmap, Q, isVisited;
      for t := 0 to |targets|
        invariant isVisited' == isVisited + set n | n in targets[..t]
        invariant newmap' == newmap + (isVisited' - isVisited)
        invariant forall n :: n in Q' <==> n in Q || n in isVisited' - isVisited
        invariant isVisited' == isVisited ==> Q' == Q
      {
        var eachNode := targets[t];
        assert targets[..t + 1] == targets[..t] + [eachNode];
        if eachNode in isVisited' {
          continue;
        }
        newmap' := newmap' + {eachNode};
        Q' := Q' + [eachNode];
        isVisited' := isVisited' + {eachNode};
      }
      assert targets[..|targets|] == targets;
    }

    /** Breadth-first search along the epsilon edges from start, the node with index s of g.
        It terminates on cyclic graphs; start itself is left to the caller. */
    static method AddEpsilon(newmap: set<Node>, start: Node, ghost nodes: seq<Node>, ghost g: Graph, ghost s: nat)
      returns (newmap': set<Node>)
      requires Models(nodes, g) && s < |g| && start == nodes[s]
      requires forall n :: n in newmap ==> n in nodes
      ensures forall n :: n in newmap' ==> n in nodes
      ensures forall j :: 0 <= j < |nodes| ==>
        (nodes[j] in newmap' <==> nodes[j] in newmap || (j != s && EpsReaches(g, s, j)))
    {
      hide EpsReaches, Explored, Models;
      ghost var all := set n | n in nodes;
      var Q := [start];
      var isVisited := {start};
      newmap' := newmap;
      StartIsExplored(nodes, g, s);
      while Q != []
        invariant start in isVisited && isVisited <= all && newmap' == newmap + (isVisited - {start})
        invariant Explored(nodes, g, s, isVisited, Q)
        decreases all - isVisited, |Q|
      {
        var n := Q[0];
        ghost var i := Front(nodes, g, s, isVisited, Q);
        ghost var Q0, visited := Q, isVisited;
        ghost var targets := if NUL in n.edges then n.edges[NUL] else [];
        EpsilonTargets(nodes, g, s, i, targets);
        Q := Q[1..];
        if NUL in n.edges {
          newmap', Q, isVisited := Enqueue(newmap', Q, isVisited, n.edges[NUL]);
        }
        ExploreStep(nodes, g, s, i, targets, visited, Q0, isVisited, Q);
      }
      ExploredIsClosure(nodes, g, s, isVisited);
    }

    /** The nodes visited are reached, and so is what the epsilon edges of those no longer queued lead to. */
    static ghost predicate Explored(nodes: seq<Node>, g: Graph, s: nat, visited: set<Node>, Q: seq<Node>) {
      && (forall n :: n in Q ==> n in visited)
      && (forall n :: n in visited ==> n in nodes)
      && (forall j :: 0 <= j < |nodes| && nodes[j] in visited ==> EpsReaches(g, s, j))
      && |nodes| == |g|
      && forall i, j: nat :: 0 <= i < |g| && nodes[i] in visited && nodes[i] !in Q && Edge(g, i, NUL, j) ==>
           j < |g| && nodes[j] in visited
    }

    static lemma StartIsExplored(nodes: seq<Node>, g: Graph, s: nat)
      requires Models(nodes, g) && s < |g|
      ensures Explored(nodes, g, s, {nodes[s]}, [nodes[s]])
      ensures forall j :: 0 <= j < |nodes| && nodes[j] == nodes[s] ==> j == s
    {
      StartIsReached(g, s);
    }

    static lemma Front(nodes: seq<Node>, g: Graph, s: nat, visited: set<Node>, Q: seq<Node>) returns (i: nat)
      requires Q != [] && Explored(nodes, g, s, visited, Q)
      ensures i < |nodes| == |g| && nodes[i] == Q[0] && EpsReaches(g, s, i)
    {
      hide EpsReaches;
      assert Q[0] in Q && Q[0] in nodes;
      i :| 0 <= i < |nodes| && nodes[i] == Q[0];
    }

    static lemma ExploreStep(nodes: seq<Node>, g: Graph, s: nat, i: nat, targets: seq<Node>,
                             visited: set<Node>, Q: seq<Node>, visited': set<Node>, Q': seq<Node>)
      requires Q != [] && Explored(nodes, g, s, visited, Q) && i < |nodes| && nodes[i] == Q[0]
      requires forall j :: 0 <= j < |nodes| && nodes[j] == nodes[i] ==> j == i
      requires visited' == visited + set n | n in targets
      requires forall n :: n in Q' <==> n in Q[1..] || n in visited' - visited
      requires forall n :: n in targets ==> n in nodes
      requires forall j :: 0 <= j < |nodes| && nodes[j] in targets ==> EpsReaches(g, s, j)
      requires forall j: nat :: Edge(g, i, NUL, j) ==> j < |g| && nodes[j] in targets
      ensures Explored(nodes, g, s, visited', Q')
    {
      hide EpsReaches;
      assert forall n :: n in Q <==> n == nodes[i] || n in Q[1..];
    }

    static lemma ExploredIsClosure(nodes: seq<Node>, g: Graph, s: nat, visited: set<Node>)
      requires Explored(nodes, g, s, visited, []) && s < |g| && nodes[s] in visited
      ensures forall n :: n in visited ==> n in nodes
      ensures forall j :: 0 <= j < |nodes| ==> (nodes[j] in visited <==> EpsReaches(g, s, j))
    {
      hide EpsReaches;
      VisitedIsClosure(nodes, g, visited, s);
    }

    static lemma StartIsReached(g: Graph, s: nat)
      ensures EpsReaches(g, s, s)
    {
      SelfReaches(g, s);
    }

    static lemma VisitedIsClosure(nodes: seq<Node>, g: Graph, S: set<Node>, s: nat)
      requires |nodes| == |g| && s < |g| && nodes[s] in S
      requires forall i, j: nat :: 0 <= i < |g| && nodes[i] in S && Edge(g, i, NUL, j) ==> j < |g| && nodes[j] in S
      ensures forall j :: 0 <= j < |nodes| && EpsReaches(g, s, j) ==> nodes[j] in S
    {
      forall j | 0 <= j < |nodes| && EpsReaches(g, s, j) ensures nodes[j] in S {
        var n: nat :| Walk(g, s, "", j, n);
        ClosedUnderEpsilon(nodes, g, S, s, j, n);
      }
    }

    /** The targets of the epsilon edges of a reached node are themselves reached. */
    static lemma EpsilonTargets(nodes: seq<Node>, g: Graph, s: nat, i: nat, targets: seq<Node>)
      requires Models(nodes, g) && i < |g| && EpsReaches(g, s, i)
      requires targets == if NUL in nodes[i].edges then nodes[i].edges[NUL] else []
      ensures forall j :: 0 <= j < |nodes| && nodes[j] == nodes[i] ==> j == i
      ensures forall n :: n in targets ==> n in nodes
      ensures forall j :: 0 <= j < |nodes| && nodes[j] in targets ==> EpsReaches(g, s, j)
      ensures forall j: nat :: Edge(g, i, NUL, j) ==> j < |g| && nodes[j] in targets
    {
      assert SameEdges(nodes, nodes[i].edges, g[i]);
      if NUL !in g[i] {
        return;
      }
      assert Points(nodes, targets, g[i][NUL]);
      forall j | 0 <= j < |nodes| && nodes[j] in targets ensures EpsReaches(g, s, j) {
        assert Edge(g, i, NUL, j);
        StepReaches(g, i, "", j);
        ReachesTrans(g, s, "", i, "", j);
        assert "" + "" == "";
      }
      forall j: nat | Edge(g, i, NUL, j) ensures j < |g| && nodes[j] in targets {
        var k :| 0 <= k < |targets| && g[i][NUL][k] == j;
        assert targets[k] == nodes[j];
      }
    }

    /** A set of nodes closed under epsilon edges holds every node an epsilon walk leads to. */
    static lemma {:induction false} ClosedUnderEpsilon(nodes: seq<Node>, g: Graph, S: set<Node>, i: nat, j: nat, n: nat)
      requires |nodes| == |g| && i < |g| && nodes[i] in S && Walk(g, i, "", j, n)
      requires forall i, j: nat :: 0 <= i < |g| && nodes[i] in S && Edge(g, i, NUL, j) ==> j < |g| && nodes[j] in S
      ensures j < |g| && nodes[j] in S
      decreases n
    {
      if n == 0 {
      } else {
        var u, k: nat, v :| Step(g, i, u, k) && Walk(g, k, v, j, n - 1) && "" == u + v;
        assert u == "" && v == "";
        ClosedUnderEpsilon(nodes, g, S, k, j, n - 1);
      }
    }

    /** Adds each target and what its epsilon edges lead to. */
    static method Follow(newmap: set<Node>, targets: seq<Node>,
                         ghost nodes: seq<Node>, ghost g: Graph, ghost indices: seq<nat>)
      returns (newmap': set<Node>)
      requires Models(nodes, g) && Points(nodes, targets, indices)
      requires forall n :: n in newmap ==> n in nodes
      ensures forall n :: n in newmap' ==> n in nodes
      ensures forall j :: 0 <= j < |nodes| ==>
        (nodes[j] in newmap' <==> nodes[j] in newmap || exists k :: k in indices && EpsReaches(g, k, j))
    {
      newmap' := newmap;
      for t := 0 to |targets|
        invariant forall n :: n in newmap' ==> n in nodes
        invariant forall j :: 0 <= j < |nodes| ==>
          (nodes[j] in newmap' <==> nodes[j] in newmap || exists k :: k in indices[..t] && EpsReaches(g, k, j))
      {
        hide EpsReaches, Models;
        ghost var before := newmap';
        assert nodes[indices[t]] == targets[t];
        newmap' := newmap' + {targets[t]};
        newmap' := AddEpsilon(newmap', targets[t], nodes, g, indices[t]);
        StartIsReached(g, indices[t]);
        assert indices[..t + 1] == indices[..t] + [indices[t]];
      }
      assert indices[..|targets|] == indices;
    }

    /** What one held node, with index i of g, contributes to the next set on the character c. */
    static method Advance(newmap: set<Node>, st: Node, c: char, ghost nodes: seq<Node>, ghost g: Graph, ghost i: nat)
      returns (newmap': set<Node>)
      requires Models(nodes, g) && i < |g| && st == nodes[i]
      requires forall n :: n in newmap ==> n in nodes
      ensures forall n :: n in newmap' ==> n in nodes
      ensures forall j :: 0 <= j < |nodes| ==>
        (nodes[j] in newmap' <==> nodes[j] in newmap || Consumes(g, i, c, j))
    {
      newmap' := newmap;
      assert SameEdges(nodes, st.edges, g[i]);
      if '.' in st.edges {
        newmap' := Follow(newmap', st.edges['.'], nodes, g, g[i]['.']);
      }
      if c in st.edges {
        newmap' := Follow(newmap', st.edges[c], nodes, g, g[i][c]);
      }
      forall j: nat ensures Consumes(g, i, c, j) <==>
        || ('.' in g[i] && exists k :: k in g[i]['.'] && EpsReaches(g, k, j))
        || (c in g[i] && exists k :: k in g[i][c] && EpsReaches(g, k, j))
      {
        assert forall l, k: nat :: Edge(g, i, l, k) <==> l in g[i] && k in g[i][l];
      }
    }

    /** Some node of S leads to j on the character c. */
    static ghost predicate SomeConsumes(nodes: seq<Node>, g: Graph, S: set<Node>, c: char, j: nat) {
      exists k: nat :: k < |nodes| && nodes[k] in S && Consumes(g, k, c, j)
    }

    static lemma OneMore(nodes: seq<Node>, g: Graph, S: set<Node>, i: nat, c: char)
      requires Models(nodes, g) && i < |nodes|
      ensures forall j: nat :: SomeConsumes(nodes, g, S + {nodes[i]}, c, j) <==>
                               SomeConsumes(nodes, g, S, c, j) || Consumes(g, i, c, j)
    {
    }

    /** One turn of the matching loop: every node held contributes, in an arbitrary order. */
    static method NextMap(oldmap: set<Node>, c: char, ghost nodes: seq<Node>, ghost g: Graph)
      returns (newmap: set<Node>)
      requires Models(nodes, g) && forall n :: n in oldmap ==> n in nodes
      ensures forall n :: n in newmap ==> n in nodes
      ensures forall j :: 0 <= j < |nodes| ==> (nodes[j] in newmap <==> SomeConsumes(nodes, g, oldmap, c, j))
    {
      newmap := {};
      var todo := oldmap;
      ghost var done: set<Node> := {};
      while todo != {}
        invariant todo <= oldmap && done == oldmap - todo
        invariant forall n :: n in newmap ==> n in nodes
        invariant forall j :: 0 <= j < |nodes| ==> (nodes[j] in newmap <==> SomeConsumes(nodes, g, done, c, j))
      {
        hide SomeConsumes, Consumes;
        var st :| st in todo;
        assert st in oldmap;
        ghost var i :| 0 <= i < |nodes| && nodes[i] == st;
        newmap := Advance(newmap, st, c, nodes, g, i);
        OneMore(nodes, g, done, i, c);
        todo, done := todo - {st}, done + {st};
      }
      assert done == oldmap;
    }

    /** S is exactly the set of nodes held after the characters of w. */
    static ghost predicate IsHeldSet(nodes: seq<Node>, g: Graph, start: nat, w: string, S: set<Node>) {
      && (forall n :: n in S ==> n in nodes)
      && forall j :: 0 <= j < |nodes| ==> (nodes[j] in S <==> Held(g, start, w, j))
    }

    static lemma HeldNext(nodes: seq<Node>, g: Graph, start: nat, str: string, i: nat,
                          oldmap: set<Node>, newmap: set<Node>)
      requires i < |str| && |nodes| == |g| && IsHeldSet(nodes, g, start, str[..i], oldmap)
      requires forall n :: n in newmap ==> n in nodes
      requires forall j :: 0 <= j < |nodes| ==> (nodes[j] in newmap <==> SomeConsumes(nodes, g, oldmap, str[i], j))
      ensures IsHeldSet(nodes, g, start, str[..i + 1], newmap)
    {
      assert str[..i + 1][..i] == str[..i];
      forall j | 0 <= j < |nodes|
        ensures Held(g, start, str[..i + 1], j) <==> SomeConsumes(nodes, g, oldmap, str[i], j)
      {
      }
    }

    static lemma HeldFirst(nodes: seq<Node>, g: Graph, s: nat, newmap: set<Node>)
      requires s < |nodes|
      requires forall n :: n in newmap ==> n in nodes
      requires forall j :: 0 <= j < |nodes| ==>
        (nodes[j] in newmap <==> nodes[j] == nodes[s] || (j != s && EpsReaches(g, s, j)))
      requires forall i, j :: 0 <= i < j < |nodes| ==> nodes[i] != nodes[j]
      ensures forall w :: w == "" ==> IsHeldSet(nodes, g, s, w, newmap)
    {
      SelfReaches(g, s);
    }

    /** Once no node is held, none is held after the rest of the input. */
    static lemma {:induction false} NoneHeldLater(nodes: seq<Node>, g: Graph, start: nat, str: string, i: nat, j: nat)
      requires i < |str| && |nodes| == |g| && IsHeldSet(nodes, g, start, str[..i], {})
      ensures !Held(g, start, str, j)
      decreases |str|
    {
      var p := str[..|str| - 1];
      forall k: nat | k < |g| ensures !Held(g, start, p, k) {
        assert nodes[k] !in {};
        if i < |p| {
          assert p[..i] == str[..i];
          NoneHeldLater(nodes, g, start, p, i, k);
        } else {
          assert p == str[..i];
        }
      }
    }

    /** One turn, from the nodes held after i characters to those held after one more. */
    static method Round(oldmap: set<Node>, str: string, i: nat,
                        ghost nodes: seq<Node>, ghost g: Graph, ghost start: nat)
      returns (newmap: set<Node>)
      requires i < |str| && Models(nodes, g) && |nodes| == |g| && IsHeldSet(nodes, g, start, str[..i], oldmap)
      ensures IsHeldSet(nodes, g, start, str[..i + 1], newmap)
    {
      hide Held, IsHeldSet, SomeConsumes, Models;
      HeldAreNodes(nodes, g, start, str[..i], oldmap);
      newmap := NextMap(oldmap, str[i], nodes, g);
      HeldNext(nodes, g, start, str, i, oldmap, newmap);
    }

    /** The matching loop: oldmap ends as the nodes held after i characters, and i falls short of the
        input only if there are none. */
    method Simulate(str: string) returns (oldmap: set<Node>, i: nat)
      requires Valid()
      ensures i <= |str| && (i < |str| ==> oldmap == {})
      ensures var a := Build(re, []); IsHeldSet(nfa.nodes, a.graph, a.start, str[..i], oldmap)
    {
      hide Models, IsHeldSet, Build;
      ghost var a := Build(re, []);
      oldmap, i := SimulateFrom(nfa.start, str, nfa.nodes, a.graph, a.start);
    }

    static method SimulateFrom(start: Node, str: string, ghost nodes: seq<Node>, ghost g: Graph, ghost s: nat)
      returns (oldmap: set<Node>, i: nat)
      requires Models(nodes, g) && |nodes| == |g| && s < |g| && start == nodes[s]
      ensures i <= |str| && (i < |str| ==> oldmap == {})
      ensures IsHeldSet(nodes, g, s, str[..i], oldmap)
    {
      ModelsAreDistinct(nodes, g);
      hide Held, IsHeldSet, EpsReaches, Models;
      oldmap := AddEpsilon({start}, start, nodes, g, s);
      HeldFirst(nodes, g, s, oldmap);
      i := 0;
      assert str[..i] == "";
      while i < |str| && oldmap != {}
        invariant 0 <= i <= |str|
        invariant IsHeldSet(nodes, g, s, str[..i], oldmap)
      {
        oldmap := Round(oldmap, str, i, nodes, g, s);
        i := i + 1;
      }
    }

    static lemma ModelsAreDistinct(nodes: seq<Node>, g: Graph)
      requires Models(nodes, g)
      ensures forall i, j :: 0 <= i < j < |nodes| ==> nodes[i] != nodes[j]
    {
    }

    method Match(str: string) returns (b: bool)
      requires Valid()
      ensures b <==> Accepted(re, str)
      ensures Plain(re) && NulFree(str) ==> (b <==> str in L(re))
    {
      ghost var a := Build(re, []);
      if Plain(re) && NulFree(str) {
        AcceptedIsLanguage(re, str);
      }
      var oldmap, i := Simulate(str);
      if i < |str| {
        NoneHeldLater(nfa.nodes, a.graph, a.start, str, i, a.end);
        return false;
      }
      assert str[..i] == str;
      return nfa.end in oldmap;
    }

    static lemma HeldAreNodes(nodes: seq<Node>, g: Graph, start: nat, w: string, S: set<Node>)
      requires IsHeldSet(nodes, g, start, w, S)
      ensures forall n :: n in S ==> n in nodes
      ensures forall j :: 0 <= j < |nodes| ==> (nodes[j] in S <==> Held(g, start, w, j))
    {
    }
  }
}
