/** Why the simulation is correct on input without NUL, and on no other: every input that holds a NUL
    is wrongly accepted for some pattern. */
module NulInput {
  import opened Language
  import opened RegexAst
  import opened NfaGraph
  import opened NfaLanguage
  import opened NfaSimulation
  import opened ParserSpec
  import opened GrammarProofs
  import EnginesAgree

  /** h has every edge of g. */
  ghost predicate Extends(g: Graph, h: Graph) {
    forall i: nat, c, j: nat :: Edge(g, i, c, j) ==> Edge(h, i, c, j)
  }

  lemma {:induction false} WalkExtends(g: Graph, h: Graph, i: nat, w: string, j: nat, n: nat)
    requires Extends(g, h) && Walk(g, i, w, j, n)
    ensures Walk(h, i, w, j, n)
    decreases n
  {
    if n == 0 {
    } else {
      var u, k: nat, v :| Step(g, i, u, k) && Walk(g, k, v, j, n - 1) && w == u + v;
      WalkExtends(g, h, k, v, j, n - 1);
      assert Step(h, i, u, k);
    }
  }

  lemma EpsExtends(g: Graph, h: Graph, i: nat, j: nat)
    requires Extends(g, h) && EpsReaches(g, i, j)
    ensures EpsReaches(h, i, j)
  {
    var n: nat :| Walk(g, i, "", j, n);
    WalkExtends(g, h, i, "", j, n);
  }

  lemma {:induction false} HeldExtends(g: Graph, h: Graph, i: nat, w: string, j: nat)
    requires Extends(g, h) && Held(g, i, w, j)
    ensures Held(h, i, w, j)
    decreases |w|
  {
    if w == "" {
      EpsExtends(g, h, i, j);
    } else {
      var p, c := w[..|w| - 1], w[|w| - 1];
      var k: nat :| Held(g, i, p, k) && Consumes(g, k, c, j);
      HeldExtends(g, h, i, p, k);
      var l, m: nat :| Edge(g, k, l, m) && Accepts(l, c) && EpsReaches(g, m, j);
      EpsExtends(g, h, m, j);
      assert Consumes(h, k, c, j);
    }
  }

  /** Epsilon edges may follow. */
  lemma HeldThenEps(g: Graph, i: nat, w: string, k: nat, j: nat)
    requires Held(g, i, w, k) && Held(g, k, "", j)
    ensures Held(g, i, w, j)
  {
    assert "" + "" == "";
    if w == "" {
      ReachesTrans(g, i, "", k, "", j);
    } else {
      var p, c := w[..|w| - 1], w[|w| - 1];
      var q: nat :| Held(g, i, p, q) && Consumes(g, q, c, k);
      var l, m: nat :| Edge(g, q, l, m) && Accepts(l, c) && EpsReaches(g, m, k);
      ReachesTrans(g, m, "", k, "", j);
      assert Consumes(g, q, c, j);
    }
  }

  lemma HeldBefore(g: Graph, i: nat, w: string, j: nat) returns (q: nat)
    requires w != "" && Held(g, i, w, j)
    ensures Held(g, i, w[..|w| - 1], q) && Consumes(g, q, w[|w| - 1], j)
  {
    q :| Held(g, i, w[..|w| - 1], q) && Consumes(g, q, w[|w| - 1], j);
  }

  lemma HeldStep(g: Graph, i: nat, w: string, q: nat, c: char, j: nat)
    requires Held(g, i, w, q) && Consumes(g, q, c, j)
    ensures Held(g, i, w + [c], j)
  {
    assert (w + [c])[..|w|] == w;
  }

  lemma {:induction false} HeldTrans(g: Graph, i: nat, u: string, k: nat, v: string, j: nat)
    requires Held(g, i, u, k) && Held(g, k, v, j)
    ensures Held(g, i, u + v, j)
    decreases |v|
  {
    hide Held, Consumes;
    if v == "" {
      HeldThenEps(g, i, u, k, j);
      assert u + v == u;
    } else {
      var p, c := v[..|v| - 1], v[|v| - 1];
      var q := HeldBefore(g, k, v, j);
      HeldTrans(g, i, u, k, p, q);
      HeldStep(g, i, u + p, q, c, j);
      assert v == p + [c] && u + v == u + p + [c];
    }
  }

  /** The graph of a sequence has the edges of both fragments and the one between them. */
  lemma SeqExtends(a: Nfa, b: Nfa)
    requires |a.graph| <= |b.graph| && b.graph[..|a.graph|] == a.graph && a.end < |b.graph|
    ensures var h := AddEdge(b.graph, a.end, NUL, b.start);
            Extends(a.graph, h) && Extends(b.graph, h) && Edge(h, a.end, NUL, b.start)
  {
    OldEdges(a.graph, b.graph);
    EdgesOfAddEdge(b.graph, a.end, NUL, b.start);
    assert forall i: nat, c, j: nat :: Edge(a.graph, i, c, j) ==> i < |a.graph|;
  }

  /** The sequence of two fragments holds its end after a word of each. */
  lemma HeldSeq(a: Nfa, b: Nfa, u: string, v: string)
    requires |a.graph| <= |b.graph| && b.graph[..|a.graph|] == a.graph && a.end < |b.graph|
    requires Held(a.graph, a.start, u, a.end) && Held(b.graph, b.start, v, b.end)
    ensures Held(AddEdge(b.graph, a.end, NUL, b.start), a.start, u + v, b.end)
  {
    var h := AddEdge(b.graph, a.end, NUL, b.start);
    SeqExtends(a, b);
    HeldExtends(a.graph, h, a.start, u, a.end);
    HeldExtends(b.graph, h, b.start, v, b.end);
    StepReaches(h, a.end, "", b.start);
    HeldThenEps(h, a.start, u, a.end, b.start);
    HeldTrans(h, a.start, u, b.start, v, b.end);
  }

  /** A pattern for words with as many characters as w has other than NUL: '.' for each of those,
      and for each NUL an epsilon edge that it can cross. */
  function Decoy(w: string): (r: Regex)
    ensures Plain(r)
  {
    if w == "" then Null else Seq(Piece(w[0]), Decoy(w[1..]))
  }

  function Piece(c: char): (r: Regex)
    ensures Plain(r)
  {
    if c == NUL then Alt(Null, Null) else Char('.')
  }

  lemma {:induction false} DecoyIsShort(w: string, x: string)
    requires x in L(Decoy(w))
    ensures |x| <= |w| && (|x| == |w| ==> NulFree(w))
  {
    if w == "" {
    } else {
      var a := Piece(w[0]);
      assert Splits(L(a), L(Decoy(w[1..])), x);
      var u, v :| u in L(a) && v in L(Decoy(w[1..])) && x == u + v;
      DecoyIsShort(w[1..], v);
      assert |x| == |w| ==> forall k :: 1 <= k < |w| ==> w[k] == w[1..][k - 1];
    }
  }

  lemma CharHeld(ch: char, c: char, g: Graph)
    requires Accepts(ch, c)
    ensures var a := Build(Char(ch), g); Held(a.graph, a.start, [c], a.end)
  {
    var a, h0 := Build(Char(ch), g), g + [map[], map[]];
    EdgesOfAddEdge(h0, |g|, ch, |g| + 1);
    SelfReaches(a.graph, a.start);
    SelfReaches(a.graph, a.end);
    assert [c][..0] == "" && Held(a.graph, a.start, "", a.start);
    assert Edge(a.graph, a.start, ch, a.end) && Consumes(a.graph, a.start, c, a.end);
  }

  /** A NUL crosses the first epsilon edge as if the edge carried it. */
  lemma NulHeld(g: Graph)
    ensures var a := Build(Alt(Null, Null), g); Held(a.graph, a.start, [NUL], a.end)
  {
    var r := Build(Alt(Null, Null), g);
    var a := Build(Null, g);
    var b := Build(Null, a.graph);
    EdgesOfAlt(a, b);
    SelfReaches(r.graph, r.start);
    assert [NUL][..0] == "" && Held(r.graph, r.start, "", r.start);
    assert Edge(r.graph, r.start, NUL, a.start) && Edge(r.graph, a.start, NUL, r.end);
    StepReaches(r.graph, a.start, "", r.end);
    assert Consumes(r.graph, r.start, NUL, r.end);
  }

  lemma {:induction false} DecoyHeld(w: string, g: Graph)
    ensures var a := Build(Decoy(w), g); Held(a.graph, a.start, w, a.end)
  {
    if w == "" {
      SelfReaches(g + [map[]], |g|);
    } else {
      var a := Build(Piece(w[0]), g);
      if w[0] == NUL {
        NulHeld(g);
      } else {
        CharHeld('.', w[0], g);
      }
      DecoyHeld(w[1..], a.graph);
      HeldSeq(a, Build(Decoy(w[1..]), a.graph), [w[0]], w[1..]);
      assert w == [w[0]] + w[1..];
    }
  }

  /** The pattern whose tree that is. */
  function DecoyText(w: string): string {
    if w == "" then ".{0}" else (if w[0] == NUL then ".{0}?" else ".") + DecoyText(w[1..])
  }

  /** No copies of anything: "{0}" makes the operand disappear. */
  lemma ZeroCopies(s: string, i: nat, re: Regex)
    requires Reads(s, i, "{0}")
    ensures Ops(s, i, re, 0) == Ops(s, i + 3, Null, 0)
  {
    assert "{0}" == "{" + ("0" + "}");
    ReadsCat(s, i, "{", "0" + "}");
    ReadsCat(s, i + 1, "0", "}");
    ReadsOne(s, i, '{');
    ReadsOne(s, i + 1, '0');
    ReadsOne(s, i + 2, '}');
    assert SkipBlanks(s, i + 1) == i + 1 && SkipBlanks(s, i + 2) == i + 2;
    assert Digits(s, i + 1, 0) == Digits(s, i + 2, 0) == Count(0, i + 2);
    assert Range(s, i + 1) == Bounds(0, 0, i + 3);
    assert Counted(0, 0, re) == Null;
  }

  /** ".{0}?" */
  lemma NulPieceParses(s: string, i: nat)
    requires Reads(s, i, ".{0}?") && At(s, i + 5) == '.'
    ensures At(s, i) == '.' && Factor(s, i, 0) == Ok(Alt(Null, Null), i + 5, 0)
  {
    ReadsHead(s, i, ".{0}?");
    assert ".{0}?" == "." + ("{0}" + "?");
    ReadsCat(s, i, ".", "{0}" + "?");
    ReadsCat(s, i + 1, "{0}", "?");
    ReadsHead(s, i + 4, "?");
    ZeroCopies(s, i + 1, Char('.'));
    assert Ops(s, i + 5, Alt(Null, Null), 0) == Ok(Alt(Null, Null), i + 5, 0);
  }

  lemma DecoyPiece(s: string, i: nat, w: string)
    requires w != "" && Reads(s, i, DecoyText(w))
    ensures var n := if w[0] == NUL then 5 else 1;
            && Reads(s, i + n, DecoyText(w[1..])) && At(s, i + n) == '.'
            && At(s, i) == '.' && Factor(s, i, 0) == Ok(Piece(w[0]), i + n, 0)
  {
    var head, rest := if w[0] == NUL then ".{0}?" else ".", DecoyText(w[1..]);
    DotFirst(w[1..]);
    ReadsCat(s, i, head, rest);
    ReadsHead(s, i + |head|, rest);
    ReadsHead(s, i, head);
    if w[0] == NUL {
      NulPieceParses(s, i);
    } else {
      assert Ops(s, i + 1, Char('.'), 0) == Ok(Char('.'), i + 1, 0);
    }
  }

  lemma DotFirst(w: string)
    ensures DecoyText(w) != "" && DecoyText(w)[0] == '.'
  {
  }

  lemma {:induction false} DecoySequence(s: string, i: nat, w: string)
    requires Reads(s, i, DecoyText(w)) && i + |DecoyText(w)| == |s|
    ensures At(s, i) == '.' && Sequence(s, i, 0) == Ok(Decoy(w), |s|, 0)
    decreases |w|
  {
    hide Sequence, Factor, Reads;
    if w == "" {
      LastPieceParses(s, i);
      SequenceOfOne(s, i, Null, i + 4);
    } else {
      DecoyPiece(s, i, w);
      var j := i + (if w[0] == NUL then 5 else 1);
      DecoySequence(s, j, w[1..]);
      SequenceOfMore(s, i, Piece(w[0]), j, Decoy(w[1..]));
    }
  }

  /** ".{0}" at the end of the pattern. */
  lemma LastPieceParses(s: string, i: nat)
    requires Reads(s, i, ".{0}") && i + 4 == |s|
    ensures At(s, i) == '.' && Factor(s, i, 0) == Ok(Null, i + 4, 0)
  {
    assert ".{0}" == "." + "{0}";
    ReadsHead(s, i, ".{0}");
    ReadsCat(s, i, ".", "{0}");
    ZeroCopies(s, i + 1, Char('.'));
  }

  lemma SequenceOfOne(s: string, i: nat, re: Regex, j: nat)
    requires i <= |s| && At(s, i) != NUL && Factor(s, i, 0) == Ok(re, j, 0) && EndsSeq(At(s, j))
    ensures Sequence(s, i, 0) == Ok(re, j, 0)
  {
  }

  lemma SequenceOfMore(s: string, i: nat, re: Regex, j: nat, last: Regex)
    requires i < j <= |s| && At(s, i) != NUL && Factor(s, i, 0) == Ok(re, j, 0) && !EndsSeq(At(s, j))
    requires Sequence(s, j, 0) == Ok(last, |s|, 0)
    ensures Sequence(s, i, 0) == Ok(Seq(re, last), |s|, 0)
  {
  }

  lemma DecoyParses(w: string)
    ensures Parse(DecoyText(w)) == Ok(Decoy(w), |DecoyText(w)|, 0)
  {
    DotFirst(w);
    DecoySequence(DecoyText(w), 0, w);
  }

  /** The engine built from a pattern decides w correctly. */
  ghost predicate DecidesCorrectly(pattern: string, w: string)
    requires Parse(pattern).Ok?
  {
    EnginesAgree.ParsedIsFit(pattern);
    var r := Parse(pattern).re;
    Accepted(r, w) <==> w in L(r)
  }

  /** The engine built from a pattern accepts w, which is not in its language. */
  ghost predicate WronglyAccepts(pattern: string, w: string)
    requires Parse(pattern).Ok?
  {
    EnginesAgree.ParsedIsFit(pattern);
    var r := Parse(pattern).re;
    Accepted(r, w) && w !in L(r)
  }

  /** Exactly the inputs without NUL are decided correctly by the engines of all patterns. */
  lemma CorrectIffNulFree(w: string)
    ensures (forall pattern :: Parse(pattern).Ok? ==> DecidesCorrectly(pattern, w)) <==> NulFree(w)
  {
    if NulFree(w) {
      forall pattern | Parse(pattern).Ok? ensures DecidesCorrectly(pattern, w) {
        EnginesAgree.ParsedIsFit(pattern);
        AcceptedIsLanguage(Parse(pattern).re, w);
      }
    } else {
      DecoyFails(w);
      assert !DecidesCorrectly(DecoyText(w), w);
    }
  }

  lemma DecoyFails(w: string)
    requires !NulFree(w)
    ensures Parse(DecoyText(w)).Ok? && WronglyAccepts(DecoyText(w), w)
  {
    DecoyParses(w);
    DecoyHeld(w, []);
    assert Accepted(Decoy(w), w);
    if w in L(Decoy(w)) {
      DecoyIsShort(w, w);
    }
  }

  /** For instance, a NUL in the input crosses the epsilon edge in the automaton of "ab". */
  lemma NulInputIsAcceptedWrongly()
    ensures Parse("ab").Ok? && WronglyAccepts("ab", ['a', NUL, 'b'])
  {
    hide WronglyAccepts;
    AbParses();
    PairIsWrong("ab", 'a', 'b');
    assert ['a', NUL, 'b'] == ['a'] + [NUL] + ['b'];
  }

  lemma PairIsWrong(pattern: string, x: char, y: char)
    requires Parse(pattern) == Ok(Seq(Char(x), Char(y)), 2, 0)
    ensures WronglyAccepts(pattern, [x] + [NUL] + [y])
  {
    hide Parse, Accepted, L;
    PairAcceptsNul(x, y);
    NotAPair(x, y, [x] + [NUL] + [y]);
  }

  lemma PairAcceptsNul(x: char, y: char)
    ensures Accepted(Seq(Char(x), Char(y)), [x] + [NUL] + [y])
  {
    CharHeld(x, x, []);
    CharHeld(y, y, Build(Char(x), []).graph);
    hide Held, Build, Accepted;
    SequenceAdmitsNul(Char(x), Char(y), [x], [y]);
  }

  lemma NotAPair(x: char, y: char, w: string)
    requires |w| == 3
    ensures w !in L(Seq(Char(x), Char(y)))
  {
    forall u, v | u in L(Char(x)) && v in L(Char(y)) ensures u + v != w {
      assert |u + v| == 2;
    }
  }

  /** Between the two fragments of a sequence, a NUL is accepted as well as nothing. */
  lemma NulCrosses(a: Nfa, b: Nfa, u: string, v: string)
    requires |a.graph| <= |b.graph| && b.graph[..|a.graph|] == a.graph && a.end < |b.graph|
    requires Held(a.graph, a.start, u, a.end) && Held(b.graph, b.start, v, b.end)
    ensures Held(AddEdge(b.graph, a.end, NUL, b.start), a.start, u + [NUL] + v, b.end)
  {
    var h := AddEdge(b.graph, a.end, NUL, b.start);
    SeqExtends(a, b);
    HeldExtends(a.graph, h, a.start, u, a.end);
    HeldExtends(b.graph, h, b.start, v, b.end);
    SelfReaches(h, b.start);
    HeldStep(h, a.start, u, a.end, NUL, b.start);
    HeldTrans(h, a.start, u + [NUL], b.start, v, b.end);
  }

  lemma SequenceAdmitsNul(first: Regex, last: Regex, u: string, v: string)
    requires NoEmpty(first) && NoEmpty(last)
    requires var a := Build(first, []); Held(a.graph, a.start, u, a.end)
    requires var b := Build(last, Build(first, []).graph); Held(b.graph, b.start, v, b.end)
    ensures Accepted(Seq(first, last), u + [NUL] + v)
  {
    var a := Build(first, []);
    NulCrosses(a, Build(last, a.graph), u, v);
  }

  lemma AbParses()
    ensures Parse("ab") == Ok(Seq(Char('a'), Char('b')), 2, 0)
  {
    assert Ops("ab", 1, Char('a'), 0) == Ok(Char('a'), 1, 0);
    assert Ops("ab", 2, Char('b'), 0) == Ok(Char('b'), 2, 0);
    assert Factor("ab", 0, 0) == Ok(Char('a'), 1, 0);
    assert Sequence("ab", 1, 0) == Ok(Char('b'), 2, 0);
    assert Sequence("ab", 0, 0) == Ok(Seq(Char('a'), Char('b')), 2, 0);
  }
}
