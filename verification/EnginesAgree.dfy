/** What ties the three parts together: the trees the parser builds suit both matchers, and on them
    the matchers give the same answer. */
module EnginesAgree {
  import opened Language
  import opened RegexAst
  import opened NfaLanguage
  import opened NfaSimulation
  import opened ParserSpec
  import opened Grammar
  import opened GrammarProofs
  import Derivative
  import DerivativeEngine
  import NfaEngine
  import Parser

  /** The groups of r have numbers in (low, high], and each a greater one than those inside it. */
  predicate Numbered(r: Regex, low: nat, high: nat) {
    match r
    case Alt(left, right) => Numbered(left, low, high) && Numbered(right, low, high)
    case Seq(first, last) => Numbered(first, low, high) && Numbered(last, low, high)
    case Rep(re) => Numbered(re, low, high)
    case Group(body, g) => low < g <= high && Numbered(body, low, g - 1)
    case _ => true
  }

  /** A tree fit for both matchers, with its groups numbered in (low, high]. */
  predicate Fit(r: Regex, low: nat, high: nat) { NfaLanguage.Plain(r) && Numbered(r, low, high) }

  lemma {:induction false} NumberedGrows(r: Regex, low: nat, high: nat, low': nat, high': nat)
    requires Numbered(r, low, high) && low' <= low && high <= high'
    ensures Numbered(r, low', high')
  {
    match r
    case Alt(left, right) =>
      NumberedGrows(left, low, high, low', high');
      NumberedGrows(right, low, high, low', high');
    case Seq(first, last) =>
      NumberedGrows(first, low, high, low', high');
      NumberedGrows(last, low, high, low', high');
    case Rep(re) => NumberedGrows(re, low, high, low', high');
    case Group(body, g) => NumberedGrows(body, low, g - 1, low', g - 1);
    case _ =>
  }

  lemma {:induction false} CopiesFit(cnt: nat, re: Regex, low: nat, high: nat)
    requires Fit(re, low, high)
    ensures Fit(Copies(cnt, re), low, high)
  {
    if cnt == 0 {
    } else {
      CopiesFit(cnt - 1, re, low, high);
    }
  }

  lemma {:induction false} BetweenFit(few: nat, many: nat, re: Regex, low: nat, high: nat)
    requires few <= many && Fit(re, low, high)
    ensures Fit(Between(few, many, re), low, high)
    decreases many - few
  {
    CopiesFit(few, re, low, high);
    if few == many {
    } else {
      BetweenFit(few + 1, many, re, low, high);
    }
  }

  lemma {:induction false} OpsFit(s: string, i: nat, re: Regex, low: nat, group: nat)
    requires i <= |s| && Fit(re, low, group) && Ops(s, i, re, group).Ok?
    ensures Fit(Ops(s, i, re, group).re, low, group)
    decreases |s| - i
  {
    match At(s, i)
    case '*' => OpsFit(s, i + 1, Rep(re), low, group);
    case '+' =>
      assert Fit(Rep(re), low, group);
      OpsFit(s, i + 1, Seq(re, Rep(re)), low, group);
    case '?' =>
      assert Fit(Null, low, group);
      OpsFit(s, i + 1, Alt(Null, re), low, group);
    case '{' =>
      var b := ParserSpec.Range(s, i + 1);
      if b.first < b.second {
        BetweenFit(b.first, b.second, re, low, group);
      } else {
        BetweenFit(b.second, b.first, re, low, group);
      }
      OpsFit(s, b.iter, Counted(b.first, b.second, re), low, group);
    case _ =>
  }

  lemma {:induction false} SetFit(chars: string, low: nat, high: nat)
    requires chars != "" && forall k :: 0 <= k < |chars| ==> chars[k] != NUL
    ensures Fit(SetTree(chars), low, high)
  {
    assert Fit(Char(chars[0]), low, high);
    if |chars| == 1 {
    } else {
      SetFit(chars[1..], low, high);
    }
  }

  lemma AtomFit(s: string, i: nat, group: nat)
    requires i <= |s| && At(s, i) != NUL && ParserSpec.Atom(s, i, group).Ok?
    ensures var p := ParserSpec.Atom(s, i, group); p.group >= group && Fit(p.re, group, p.group)
    decreases |s| - i, 0
  {
    if s[i] == '(' {
      ReFit(s, if At(s, i + 1) == '?' && At(s, i + 2) == ':' then i + 3 else i + 1, group);
    } else if s[i] == '[' {
      SetEndSound(s, i + 1);
      SetFit(s[i + 1..SetEnd(s, i + 1)], group, group);
    }
  }

  lemma SequenceFit(s: string, i: nat, group: nat)
    requires i <= |s| && At(s, i) != NUL && Sequence(s, i, group).Ok?
    ensures var p := Sequence(s, i, group); p.group >= group && Fit(p.re, group, p.group)
    decreases |s| - i, 1
  {
    AtomFit(s, i, group);
    var a := ParserSpec.Atom(s, i, group);
    OpsFit(s, a.iter, a.re, group, a.group);
    var q := Ops(s, a.iter, a.re, a.group);
    if !EndsSeq(At(s, q.iter)) {
      SequenceFit(s, q.iter, q.group);
      var last := Sequence(s, q.iter, q.group);
      NumberedGrows(q.re, group, q.group, group, last.group);
      NumberedGrows(last.re, q.group, last.group, group, last.group);
    }
  }

  /** A pattern parsed from the group counter on. */
  lemma ReFit(s: string, i: nat, group: nat)
    requires i <= |s| && Re(s, i, group).Ok?
    ensures var p := Re(s, i, group); p.group >= group && Fit(p.re, group, p.group)
    decreases |s| - i, 2
  {
    SequenceFit(s, i, group);
    var l := Sequence(s, i, group);
    if At(s, l.iter) == '|' {
      ReFit(s, l.iter + 1, l.group);
      var r := Re(s, l.iter + 1, l.group);
      NumberedGrows(l.re, group, l.group, group, r.group);
      NumberedGrows(r.re, l.group, r.group, group, r.group);
    }
  }

  /** The parser never builds Empty nor a NUL character, and the tags 2g and 2g + 1 that the automaton
      derives from its group numbers are indices of a vector of size 2 * maxGroup. */
  lemma ParsedIsFit(s: string)
    requires Parse(s).Ok?
    ensures var p := Parse(s); NfaLanguage.Plain(p.re) && Numbered(p.re, 0, p.group)
  {
    if s != "" {
      ReFit(s, 0, 0);
    }
  }

  /** The verdict of the derivative matcher: derive by each character, then test for the empty word. */
  function DerivativeVerdict(r: Regex, w: string): bool
    decreases |w|
  {
    if w == "" then Derivative.Nullable(r) else DerivativeVerdict(Derivative.D(r, w[0]), w[1..])
  }

  lemma {:induction false} DerivativeVerdictIsLanguage(r: Regex, w: string)
    ensures DerivativeVerdict(r, w) <==> w in L(r)
    decreases |w|
  {
    if w == "" {
      Derivative.NullableCorrect(r);
    } else {
      Derivative.DerivativeCorrect(r, w[0]);
      DerivativeVerdictIsLanguage(Derivative.D(r, w[0]), w[1..]);
      assert w == [w[0]] + w[1..];
    }
  }

  /** For every pattern the parser accepts and every input without NUL, both engines answer alike. */
  lemma EnginesAgree(pattern: string, w: string)
    requires Parse(pattern).Ok? && NulFree(w)
    ensures var r := Parse(pattern).re;
            NfaLanguage.Plain(r) && (DerivativeVerdict(r, w) <==> Accepted(r, w))
  {
    var r := Parse(pattern).re;
    ParsedIsFit(pattern);
    DerivativeVerdictIsLanguage(r, w);
    AcceptedIsLanguage(r, w);
  }

  /** The same, end to end: each engine answers whether w is in the language the pattern stands for. */
  lemma EnginesMatchGrammar(pattern: string, A: Lang, w: string)
    requires Denotes(pattern, A) && NulFree(w)
    ensures Parse(pattern).Ok? && NfaLanguage.Plain(Parse(pattern).re)
    ensures var r := Parse(pattern).re;
            (DerivativeVerdict(r, w) <==> w in A) && (Accepted(r, w) <==> w in A)
  {
    ParserKeepsMeaning(pattern, A);
    EnginesAgree(pattern, w);
    DerivativeVerdictIsLanguage(Parse(pattern).re, w);
  }

  /** Both engines built from one pattern, as a user runs them; None when the parser aborts. */
  method MatchBoth(pattern: string, w: string) returns (answers: Parser.Option<(bool, bool)>)
    ensures answers.Some? <==> pattern == "" || exists t :: Spells(pattern, t)
    ensures answers.Some? && NulFree(w) ==> answers.value.0 == answers.value.1
    ensures forall A :: Denotes(pattern, A) ==> answers.Some? && (answers.value.0 <==> w in A)
  {
    ParserAcceptsGrammar(pattern);
    var parse := new Parser.Parser(pattern);
    var re, _ := parse.Parse();
    if re.None? {
      return Parser.None;
    }
    ParsedIsFit(pattern);
    var byDerivative := new DerivativeEngine.Engine(re.value);
    var byAutomaton := new NfaEngine.Engine(re.value);
    var d := byDerivative.Match(w);
    var n := byAutomaton.Match(w);
    forall A | Denotes(pattern, A) ensures d <==> w in A {
      ParserKeepsMeaning(pattern, A);
    }
    return Parser.Some((d, n));
  }
}
