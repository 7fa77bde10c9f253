/** Thompson's construction on node objects, refining NfaLanguage.Build. */
module NfaConstructor {
  import opened RegexAst
  import opened NfaGraph
  import opened NfaLanguage

  class Node {
    var edges: map<char, seq<Node>>

    constructor ()
      ensures edges == map[]
    {
      edges := map[];
    }

    method AddEdge(c: char, n: Node)
      modifies this
      ensures edges == old(edges)[c := (if c in old(edges) then old(edges)[c] else []) + [n]]
    {
      if c in edges {
        edges := edges[c := edges[c] + [n]];
      } else {
        edges := edges[c := [n]];
        assert [] + [n] == [n];
      }
    }
  }

  /** The pointers in targets are the nodes with the given indices. */
  ghost predicate Points(nodes: seq<Node>, targets: seq<Node>, indices: seq<nat>) {
    && |targets| == |indices|
    && forall k :: 0 <= k < |indices| ==> indices[k] < |nodes| && targets[k] == nodes[indices[k]]
  }

  ghost predicate SameEdges(nodes: seq<Node>, edges: map<char, seq<Node>>, indexed: map<char, seq<nat>>) {
    && edges.Keys == indexed.Keys
    && forall c :: c in indexed ==> Points(nodes, edges[c], indexed[c])
  }

  /** The node objects, read as a graph on their positions in the vector, are g. */
  ghost predicate Models(nodes: seq<Node>, g: Graph)
    reads nodes
  {
    && |nodes| == |g|
    && (forall i, j :: 0 <= i < j < |nodes| ==> nodes[i] != nodes[j])
    && forall i :: 0 <= i < |g| ==> SameEdges(nodes, nodes[i].edges, g[i])
  }

  /** Appending a new node without edges. */
  lemma PushModels(nodes: seq<Node>, g: Graph, n: Node)
    requires Models(nodes, g) && n !in nodes && n.edges == map[]
    ensures Models(nodes + [n], g + [map[]])
  {
    forall i | 0 <= i < |g| ensures SameEdges(nodes + [n], nodes[i].edges, g[i]) {
      forall c | c in g[i] ensures Points(nodes + [n], nodes[i].edges[c], g[i][c]) {
        assert Points(nodes, nodes[i].edges[c], g[i][c]);
      }
    }
  }

  /** One more target under the label c. */
  lemma LinkEdges(nodes: seq<Node>, edges: map<char, seq<Node>>, indexed: map<char, seq<nat>>, c: char, j: nat)
    requires SameEdges(nodes, edges, indexed) && j < |nodes|
    ensures SameEdges(nodes, edges[c := (if c in edges then edges[c] else []) + [nodes[j]]],
                      indexed[c := (if c in indexed then indexed[c] else []) + [j]])
  {
    if c in indexed {
      assert Points(nodes, edges[c], indexed[c]);
    }
  }

  /** from.AddEdge(c, to), where from and to are the nodes with indices i and j of g. */
  method Link(from: Node, c: char, to: Node, ghost nodes: seq<Node>, ghost g: Graph, ghost i: nat, ghost j: nat)
    requires Models(nodes, g) && i < |g| && j < |g| && from == nodes[i] && to == nodes[j]
    modifies from
    ensures Models(nodes, NfaGraph.AddEdge(g, i, c, j))
  {
    LinkEdges(nodes, from.edges, g[i], c, j);
    from.AddEdge(c, to);
    ghost var h := NfaGraph.AddEdge(g, i, c, j);
    forall k | 0 <= k < |h| ensures SameEdges(nodes, nodes[k].edges, h[k]) {
      assert k != i ==> nodes[k] != from;
    }
  }

  /** The four edges of an alternation. */
  method LinkAlt(start: Node, end: Node, lstart: Node, lend: Node, rstart: Node, rend: Node,
                 ghost nodes: seq<Node>, ghost a: Nfa, ghost b: Nfa)
    requires Models(nodes, b.graph + [map[], map[]]) && |nodes| == |b.graph| + 2
    requires a.start < |b.graph| && a.end < |b.graph| && b.start < |b.graph| && b.end < |b.graph|
    requires start == nodes[|b.graph|] && end == nodes[|b.graph| + 1]
    requires lstart == nodes[a.start] && lend == nodes[a.end] && rstart == nodes[b.start] && rend == nodes[b.end]
    modifies start, lend, rend
    ensures Models(nodes, NfaLanguage.JoinAlt(a, b))
  {
    hide Models, NfaGraph.AddEdge;
    ghost var s, h0 := |b.graph|, b.graph + [map[], map[]];
    Link(start, NUL, lstart, nodes, h0, s, a.start);
    ghost var h1 := NfaGraph.AddEdge(h0, s, NUL, a.start);
    Link(start, NUL, rstart, nodes, h1, s, b.start);
    ghost var h2 := NfaGraph.AddEdge(h1, s, NUL, b.start);
    Link(lend, NUL, end, nodes, h2, a.end, s + 1);
    Link(rend, NUL, end, nodes, NfaGraph.AddEdge(h2, a.end, NUL, s + 1), b.end, s + 1);
  }

  class NFA {
    var start: Node?
    var end: Node?
    var nodes: seq<Node>
    ghost var repr: set<Node>

    constructor ()
      ensures nodes == [] && repr == {}
    {
      start, end, nodes, repr := null, null, [], {};
    }

    ghost predicate Owns()
      reads `nodes, `repr
    {
      forall i :: 0 <= i < |nodes| ==> nodes[i] in repr
    }

    ghost predicate Holds(a: Nfa)
      reads this, nodes
    {
      && Models(nodes, a.graph) && |nodes| == |a.graph|
      && a.start < |nodes| && start == nodes[a.start]
      && a.end < |nodes| && end == nodes[a.end]
    }
  }

  class NFAConstructor {
    var nfa: NFA?

    constructor () {
      nfa := null;
    }

    method Construct(re: Regex) returns (n: NFA)
      requires NoEmpty(re)
      modifies this
      ensures fresh(n) && fresh(n.repr) && n.Owns() && n.Holds(Build(re, []))
    {
      nfa := new NFA();
      Visit(Group(re, 0), []);
      n := nfa;
    }

    /** new Node, pushed on the vector. */
    method NewNode(ghost g: Graph) returns (n: Node)
      requires nfa != null && nfa.Owns() && Models(nfa.nodes, g)
      modifies nfa`nodes, nfa`repr
      ensures |nfa.nodes| == |g| + 1
      ensures fresh(n) && n.edges == map[]
      ensures nfa.Owns() && nfa.repr == old(nfa.repr) + {n} && nfa.nodes == old(nfa.nodes) + [n]
      ensures Models(nfa.nodes, g + [map[]])
    {
      n := new Node();
      PushModels(nfa.nodes, g, n);
      nfa.nodes := nfa.nodes + [n];
      nfa.repr := nfa.repr + {n};
    }

    method BuildNull(ghost g: Graph)
      requires nfa != null && nfa.Owns() && Models(nfa.nodes, g)
      modifies nfa
      ensures nfa.Holds(Build(Null, g))
      ensures nfa.Owns() && fresh(nfa.repr - old(nfa.repr)) && old(nfa.nodes) <= nfa.nodes
    {
      nfa.start := NewNode(g);
      nfa.end := nfa.start;
    }

    method BuildSimpleNFA(ch: char, ghost g: Graph)
      requires nfa != null && nfa.Owns() && Models(nfa.nodes, g)
      modifies nfa
      ensures nfa.Holds(Build(Char(ch), g))
      ensures nfa.Owns() && fresh(nfa.repr - old(nfa.repr)) && old(nfa.nodes) <= nfa.nodes
    {
      nfa.start := NewNode(g);
      nfa.end := NewNode(g + [map[]]);
      assert g + [map[]] + [map[]] == g + [map[], map[]];
      Link(nfa.start, ch, nfa.end, nfa.nodes, g + [map[], map[]], |g|, |g| + 1);
    }

    method Visit(re: Regex, ghost g: Graph)
      requires nfa != null && nfa.Owns() && Models(nfa.nodes, g) && NoEmpty(re)
      modifies nfa, nfa.repr
      ensures nfa.Holds(Build(re, g))
      ensures nfa.Owns() && fresh(nfa.repr - old(nfa.repr)) && old(nfa.nodes) <= nfa.nodes
      decreases re, 1
    {
      hide Models, NFA.Owns, NfaLanguage.JoinAlt, NfaLanguage.LoopRep, NfaGraph.AddEdge;
      match re
      case Null => BuildNull(g);
      case Char(ch) => BuildSimpleNFA(ch, g);
      case Alt(_, _) => VisitAlt(re, g);
      case Seq(_, _) => VisitSeq(re, g);
      case Rep(re') =>
        Visit(re', g);
        LoopRep(nfa.start, nfa.end, Build(re', g));
      case Group(body, _) => Visit(body, g);
    }

    method VisitAlt(re: Regex, ghost g: Graph)
      requires nfa != null && nfa.Owns() && Models(nfa.nodes, g) && NoEmpty(re) && re.Alt?
      modifies nfa, nfa.repr
      ensures nfa.Holds(Build(re, g))
      ensures nfa.Owns() && fresh(nfa.repr - old(nfa.repr)) && old(nfa.nodes) <= nfa.nodes
      decreases re, 0
    {
      hide Models, NFA.Owns, NfaLanguage.JoinAlt, NfaGraph.AddEdge;
      Visit(re.left, g);
      var lstart, lend := nfa.start, nfa.end;
      ghost var a := Build(re.left, g);
      Visit(re.right, a.graph);
      JoinAlt(lstart, lend, nfa.start, nfa.end, a, Build(re.right, a.graph));
    }

    method VisitSeq(re: Regex, ghost g: Graph)
      requires nfa != null && nfa.Owns() && Models(nfa.nodes, g) && NoEmpty(re) && re.Seq?
      modifies nfa, nfa.repr
      ensures nfa.Holds(Build(re, g))
      ensures nfa.Owns() && fresh(nfa.repr - old(nfa.repr)) && old(nfa.nodes) <= nfa.nodes
      decreases re, 0
    {
      hide Models, NFA.Owns, NfaGraph.AddEdge;
      Visit(re.first, g);
      var lstart, lend := nfa.start, nfa.end;
      ghost var a := Build(re.first, g);
      Visit(re.last, a.graph);
      JoinSeq(lstart, lend, nfa.start, nfa.end, a, Build(re.last, a.graph));
    }

    /** What the visitor does with the two sides of an alternation once both are built. */
    method JoinAlt(lstart: Node, lend: Node, rstart: Node, rend: Node, ghost a: Nfa, ghost b: Nfa)
      requires nfa != null && nfa.Owns() && Models(nfa.nodes, b.graph) && |nfa.nodes| == |b.graph|
      requires a.start < |b.graph| && a.end < |b.graph| && b.start < |b.graph| && b.end < |b.graph|
      requires lstart == nfa.nodes[a.start] && lend == nfa.nodes[a.end]
      requires rstart == nfa.nodes[b.start] && rend == nfa.nodes[b.end]
      modifies nfa, nfa.repr
      ensures nfa.Holds(Nfa(NfaLanguage.JoinAlt(a, b), |b.graph|, |b.graph| + 1))
      ensures nfa.Owns() && fresh(nfa.repr - old(nfa.repr)) && old(nfa.nodes) <= nfa.nodes
    {
      hide Models, NfaGraph.AddEdge;
      nfa.start := NewNode(b.graph);
      nfa.end := NewNode(b.graph + [map[]]);
      assert b.graph + [map[]] + [map[]] == b.graph + [map[], map[]];
      LinkAlt(nfa.start, nfa.end, lstart, lend, rstart, rend, nfa.nodes, a, b);
    }

    method JoinSeq(lstart: Node, lend: Node, rstart: Node, rend: Node, ghost a: Nfa, ghost b: Nfa)
      requires nfa != null && nfa.Owns() && Models(nfa.nodes, b.graph) && |nfa.nodes| == |b.graph|
      requires a.start < |b.graph| && a.end < |b.graph| && b.start < |b.graph| && b.end < |b.graph|
      requires lstart == nfa.nodes[a.start] && lend == nfa.nodes[a.end]
      requires rstart == nfa.nodes[b.start] && rend == nfa.nodes[b.end]
      modifies nfa, nfa.repr
      ensures nfa.Holds(Nfa(NfaGraph.AddEdge(b.graph, a.end, NUL, b.start), a.start, b.end))
      ensures nfa.Owns() && nfa.repr == old(nfa.repr) && nfa.nodes == old(nfa.nodes)
    {
      Link(lend, NUL, rstart, nfa.nodes, b.graph, a.end, b.start);
      nfa.start, nfa.end := lstart, rend;
    }

    method LoopRep(rstart: Node, rend: Node, ghost a: Nfa)
      requires nfa != null && nfa.Owns() && Models(nfa.nodes, a.graph) && |nfa.nodes| == |a.graph|
      requires a.start < |a.graph| && a.end < |a.graph|
      requires rstart == nfa.nodes[a.start] && rend == nfa.nodes[a.end]
      modifies nfa, nfa.repr
      ensures nfa.Holds(Nfa(NfaLanguage.LoopRep(a), |a.graph|, |a.graph|))
      ensures nfa.Owns() && fresh(nfa.repr - old(nfa.repr)) && old(nfa.nodes) <= nfa.nodes
    {
      ghost var s, h0 := |a.graph|, a.graph + [map[]];
      nfa.start := NewNode(a.graph);
      nfa.end := nfa.start;
      Link(nfa.start, NUL, rstart, nfa.nodes, h0, s, a.start);
      Link(rend, NUL, nfa.end, nfa.nodes, NfaGraph.AddEdge(h0, s, NUL, a.start), a.end, s);
    }
  }
}
