/** The parser and the grammar agree in both directions. */
module GrammarProofs {
  import opened Language
  import opened RegexAst
  import opened ParserSpec
  import opened Grammar

  /** The text stands in s at i. */
  ghost predicate Reads(s: string, i: nat, text: string) {
    i + |text| <= |s| && s[i..i + |text|] == text
  }

  lemma ReadsCat(s: string, i: nat, a: string, b: string)
    ensures Reads(s, i, a + b) <==> Reads(s, i, a) && Reads(s, i + |a|, b)
  {
    if Reads(s, i, a + b) {
      assert a == (a + b)[..|a|] == s[i..i + |a|];
      assert b == (a + b)[|a|..] == s[i + |a|..i + |a| + |b|];
    }
    if Reads(s, i, a) && Reads(s, i + |a|, b) {
      assert s[i..i + |a| + |b|] == s[i..i + |a|] + s[i + |a|..i + |a| + |b|];
    }
  }

  lemma ReadsOne(s: string, i: nat, c: char)
    ensures Reads(s, i, [c]) <==> i < |s| && s[i] == c
  {
    if i < |s| {
      assert s[i..i + 1] == [s[i]];
    }
  }

  lemma ReadsNothing(s: string, i: nat)
    requires i <= |s|
    ensures Reads(s, i, "")
  {
  }

  lemma ReadsHead(s: string, i: nat, text: string)
    requires Reads(s, i, text) && text != ""
    ensures i < |s| && s[i] == text[0]
  {
    assert s[i..i + |text|][0] == s[i];
  }

  // ---------------------------------------------------------------- blanks and numbers

  lemma {:induction false} BlanksSound(s: string, i: nat)
    requires i <= |s|
    ensures var j := SkipBlanks(s, i); Blank(s[i..j]) && Reads(s, i, s[i..j]) && !IsBlank(At(s, j))
    decreases |s| - i
  {
    if !IsBlank(At(s, i)) {
    } else {
      BlanksSound(s, i + 1);
      assert s[i..SkipBlanks(s, i)] == [s[i]] + s[i + 1..SkipBlanks(s, i)];
    }
  }

  lemma {:induction false} BlanksComplete(s: string, i: nat, b: string)
    requires Blank(b) && Reads(s, i, b) && !IsBlank(At(s, i + |b|))
    ensures SkipBlanks(s, i) == i + |b|
    decreases |b|
  {
    if b == "" {
    } else {
      assert s[i] == b[0];
      assert s[i + 1..i + 1 + |b[1..]|] == b[1..];
      BlanksComplete(s, i + 1, b[1..]);
    }
  }

  predicate AllDigits(d: string) { forall k :: 0 <= k < |d| ==> IsDigit(d[k]) }

  lemma {:induction false} DigitsSound(s: string, i: nat, sum: nat)
    requires i <= |s|
    ensures var n := Digits(s, i, sum);
            AllDigits(s[i..n.iter]) && n.value == sum + DigitSum(s[i..n.iter]) && !IsDigit(At(s, n.iter))
    decreases |s| - i
  {
    if !IsDigit(At(s, i)) {
    } else {
      var d := s[i] as int - '0' as int;
      DigitsSound(s, i + 1, sum + d);
      var n := Digits(s, i, sum);
      assert s[i..n.iter] == [s[i]] + s[i + 1..n.iter];
      assert s[i..n.iter][1..] == s[i + 1..n.iter];
    }
  }

  lemma {:induction false} DigitsComplete(s: string, i: nat, d: string, sum: nat)
    requires AllDigits(d) && Reads(s, i, d) && !IsDigit(At(s, i + |d|))
    ensures Digits(s, i, sum) == Count(sum + DigitSum(d), i + |d|)
    decreases |d|
  {
    if d == "" {
    } else {
      assert s[i] == d[0] && IsDigit(d[0]);
      assert s[i + 1..i + 1 + |d[1..]|] == d[1..];
      DigitsComplete(s, i + 1, d[1..], sum + (d[0] as int - '0' as int));
    }
  }

  lemma NumShape(s: string, j: nat)
    requires j <= |s| && Num(s, j).Count?
    ensures var c := Digits(s, j, 0);
            j < c.iter && Num(s, j) == Count(c.value, SkipBlanks(s, c.iter))
  {
  }

  lemma NumOf(s: string, j: nat, value: nat, m: nat, e: nat)
    requires j <= m <= |s| && IsDigit(At(s, j)) && Digits(s, j, 0) == Count(value, m) && SkipBlanks(s, m) == e
    requires At(s, e) == ',' || At(s, e) == '}'
    ensures Num(s, j) == Count(value, e)
  {
  }

  lemma ReadsSlice(s: string, i: nat, j: nat)
    requires i <= j <= |s|
    ensures Reads(s, i, s[i..j])
  {
  }

  /** A number as range() reads it: blanks, digits, blanks, and then ',' or '}'. */
  lemma NumberSound(s: string, i: nat) returns (n: Number)
    requires i <= |s| && Num(s, SkipBlanks(s, i)).Count?
    ensures NumberOk(n) && Reads(s, i, NumberText(n))
    ensures Num(s, SkipBlanks(s, i)) == Count(DigitSum(n.digits), i + |NumberText(n)|)
  {
    hide Reads, SkipBlanks, Digits, Num, DigitSum;
    var j := SkipBlanks(s, i);
    BlanksSound(s, i);
    DigitsSound(s, j, 0);
    NumShape(s, j);
    var c := Digits(s, j, 0);
    BlanksSound(s, c.iter);
    var e := SkipBlanks(s, c.iter);
    ReadsSlice(s, j, c.iter);
    n := Number(s[i..j], s[j..c.iter], s[c.iter..e]);
    ReadsCat(s, j, n.digits, n.trail);
    ReadsCat(s, i, n.lead, n.digits + n.trail);
  }

  lemma NumberComplete(s: string, i: nat, n: Number)
    requires NumberOk(n) && Reads(s, i, NumberText(n))
    requires At(s, i + |NumberText(n)|) == ',' || At(s, i + |NumberText(n)|) == '}'
    ensures Num(s, SkipBlanks(s, i)) == Count(DigitSum(n.digits), i + |NumberText(n)|)
  {
    hide Reads, SkipBlanks, Digits, Num, DigitSum;
    var l, d, t := n.lead, n.digits, n.trail;
    ReadsCat(s, i, l, d + t);
    ReadsCat(s, i + |l|, d, t);
    ReadsHead(s, i + |l|, d);
    assert IsDigit(d[0]);
    BlanksComplete(s, i, l);
    if t != "" {
      ReadsHead(s, i + |l| + |d|, t);
      assert IsBlank(t[0]);
    }
    DigitsComplete(s, i + |l|, d, 0);
    BlanksComplete(s, i + |l| + |d|, t);
    ReadsWithin(s, i + |l|, d);
    NumOf(s, i + |l|, DigitSum(d), i + |l| + |d|, i + |l| + |d| + |t|);
  }

  lemma ReadsWithin(s: string, i: nat, text: string)
    requires Reads(s, i, text)
    ensures i + |text| <= |s|
  {
  }

  // ---------------------------------------------------------------- operators

  lemma ExactlyText(s: string, i: nat, n: Number)
    ensures Reads(s, i, OpText(Exactly(n))) <==>
            Reads(s, i, "{") && Reads(s, i + 1, NumberText(n)) && Reads(s, i + 1 + |NumberText(n)|, "}")
  {
    hide Reads;
    ReadsCat(s, i, "{", NumberText(n) + "}");
    ReadsCat(s, i + 1, NumberText(n), "}");
  }

  lemma RangeText(s: string, i: nat, n1: Number, n2: Number)
    ensures var c := i + 1 + |NumberText(n1)|;
            Reads(s, i, OpText(Op.Range(n1, n2))) <==>
              Reads(s, i, "{") && Reads(s, i + 1, NumberText(n1)) && Reads(s, c, ",")
              && Reads(s, c + 1, NumberText(n2)) && Reads(s, c + 1 + |NumberText(n2)|, "}")
  {
    hide Reads;
    var c, t1, t2 := i + 1 + |NumberText(n1)|, NumberText(n1), NumberText(n2);
    ReadsCat(s, i, "{", t1 + ("," + (t2 + "}")));
    ReadsCat(s, i + 1, t1, "," + (t2 + "}"));
    ReadsCat(s, c, ",", t2 + "}");
    ReadsCat(s, c + 1, t2, "}");
  }

  lemma CountedMeaning(n1: nat, n2: nat, re: Regex)
    ensures L(Counted(n1, n2, re)) == PowersBetween(L(re), n1, n2)
    ensures n1 == n2 ==> L(Counted(n1, n2, re)) == Power(L(re), n1)
  {
    if n1 < n2 {
      BetweenMeaning(n1, n2, re);
    } else {
      BetweenMeaning(n2, n1, re);
      CopiesMeaning(n1, re);
    }
  }

  lemma RangeSound(s: string, i: nat, re: Regex) returns (op: Op)
    requires At(s, i) == '{' && ParserSpec.Range(s, i + 1).Bounds?
    ensures var b := ParserSpec.Range(s, i + 1);
            && OpOk(op) && Reads(s, i, OpText(op)) && b.iter == i + |OpText(op)|
            && L(Counted(b.first, b.second, re)) == OpMeaning(L(re), op)
  {
    hide Reads, Num, SkipBlanks, NumberText, NumberOk, L, Counted, PowersBetween, Power;
    var b := ParserSpec.Range(s, i + 1);
    ReadsOne(s, i, '{');
    var n1 := NumberSound(s, i + 1);
    var c := i + 1 + |NumberText(n1)|;
    CountedMeaning(b.first, b.second, re);
    if At(s, c) == '}' {
      op := Exactly(n1);
      ReadsOne(s, c, '}');
      ExactlyText(s, i, n1);
    } else {
      NumberStop(s, SkipBlanks(s, i + 1));
      ReadsOne(s, c, ',');
      var n2 := NumberSound(s, c + 1);
      ReadsOne(s, c + 1 + |NumberText(n2)|, '}');
      op := Op.Range(n1, n2);
      RangeText(s, i, n1, n2);
    }
  }

  lemma NumberStop(s: string, i: nat)
    requires i <= |s| && Num(s, i).Count?
    ensures At(s, Num(s, i).iter) == ',' || At(s, Num(s, i).iter) == '}'
  {
  }

  lemma RangeComplete(s: string, i: nat, op: Op, re: Regex)
    requires op.Exactly? || op.Range?
    requires OpOk(op) && Reads(s, i, OpText(op))
    ensures At(s, i) == '{'
    ensures var b := ParserSpec.Range(s, i + 1);
            b.Bounds? && b.iter == i + |OpText(op)| && L(Counted(b.first, b.second, re)) == OpMeaning(L(re), op)
  {
    hide Reads, Num, SkipBlanks, NumberText, NumberOk, L, Counted, PowersBetween, Power, ParserSpec.Range;
    if op.Exactly? {
      ExactlyBounds(s, i, op.n);
    } else {
      RangeBounds(s, i, op.n1, op.n2);
    }
    var b := ParserSpec.Range(s, i + 1);
    CountedMeaning(b.first, b.second, re);
  }

  lemma ExactlyBounds(s: string, i: nat, n: Number)
    requires NumberOk(n) && Reads(s, i, OpText(Exactly(n)))
    ensures At(s, i) == '{'
    ensures ParserSpec.Range(s, i + 1) == Bounds(DigitSum(n.digits), DigitSum(n.digits), i + |OpText(Exactly(n))|)
  {
    hide Reads, Num, SkipBlanks, NumberText, NumberOk, DigitSum;
    ExactlyText(s, i, n);
    ReadsOne(s, i, '{');
    ReadsOne(s, i + 1 + |NumberText(n)|, '}');
    NumberComplete(s, i + 1, n);
  }

  lemma RangeBounds(s: string, i: nat, n1: Number, n2: Number)
    requires NumberOk(n1) && NumberOk(n2) && Reads(s, i, OpText(Op.Range(n1, n2)))
    ensures At(s, i) == '{'
    ensures ParserSpec.Range(s, i + 1) ==
            Bounds(DigitSum(n1.digits), DigitSum(n2.digits), i + |OpText(Op.Range(n1, n2))|)
  {
    hide Reads, Num, SkipBlanks, NumberText, NumberOk, DigitSum;
    var c := i + 1 + |NumberText(n1)|;
    RangeText(s, i, n1, n2);
    ReadsOne(s, i, '{');
    ReadsOne(s, c, ',');
    ReadsOne(s, c + 1 + |NumberText(n2)|, '}');
    NumberComplete(s, i + 1, n1);
    NumberComplete(s, c + 1, n2);
  }

  lemma OpsTurn(s: string, i: nat, re: Regex, group: nat)
    requires i <= |s|
    ensures At(s, i) == '*' ==> Ops(s, i, re, group) == Ops(s, i + 1, Rep(re), group)
    ensures At(s, i) == '+' ==> Ops(s, i, re, group) == Ops(s, i + 1, Seq(re, Rep(re)), group)
    ensures At(s, i) == '?' ==> Ops(s, i, re, group) == Ops(s, i + 1, Alt(Null, re), group)
    ensures At(s, i) == '{' ==>
      var b := ParserSpec.Range(s, i + 1);
      Ops(s, i, re, group) ==
        if b.NoBounds? then Abort else Ops(s, b.iter, Counted(b.first, b.second, re), group)
  {
  }

  lemma SimpleOpMeaning(re: Regex)
    ensures L(Rep(re)) == OpMeaning(L(re), Star)
    ensures L(Seq(re, Rep(re))) == OpMeaning(L(re), Plus)
    ensures L(Alt(Null, re)) == OpMeaning(L(re), Opt)
  {
  }

  /** One turn of the operator loop, seen from the pattern. */
  lemma OpSound(s: string, i: nat, re: Regex, group: nat) returns (op: Op, next: Regex)
    requires i <= |s| && IsOp(At(s, i)) && Ops(s, i, re, group).Ok?
    ensures OpOk(op) && Reads(s, i, OpText(op)) && OpText(op) != "" && L(next) == OpMeaning(L(re), op)
    ensures i + |OpText(op)| <= |s| && Ops(s, i, re, group) == Ops(s, i + |OpText(op)|, next, group)
  {
    hide Reads, Ops, L, OpMeaning, ParserSpec.Range;
    ReadsOne(s, i, At(s, i));
    OpsTurn(s, i, re, group);
    SimpleOpMeaning(re);
    match At(s, i) {
      case '*' => op, next := Op.Star, Rep(re);
      case '+' => op, next := Op.Plus, Seq(re, Rep(re));
      case '?' => op, next := Op.Opt, Alt(Null, re);
      case '{' =>
        op := RangeSound(s, i, re);
        var b := ParserSpec.Range(s, i + 1);
        next := Counted(b.first, b.second, re);
    }
  }

  /** One turn of the operator loop, seen from the grammar. */
  lemma OpComplete(s: string, i: nat, re: Regex, group: nat, op: Op) returns (next: Regex)
    requires OpOk(op) && Reads(s, i, OpText(op))
    ensures L(next) == OpMeaning(L(re), op)
    ensures i + |OpText(op)| <= |s| && Ops(s, i, re, group) == Ops(s, i + |OpText(op)|, next, group)
  {
    if op.Exactly? || op.Range? {
      next := RangeOpComplete(s, i, re, group, op);
      return;
    }
    hide Reads, Ops, L, OpMeaning, OpText, ParserSpec.Range, Counted;
    SimpleOpText(s, i, op);
    SimpleOpMeaning(re);
    OpsTurn(s, i, re, group);
    next := if op.Star? then Rep(re) else if op.Plus? then Seq(re, Rep(re)) else Alt(Null, re);
  }

  /** An operator of one character. */
  lemma SimpleOpText(s: string, i: nat, op: Op)
    requires !op.Exactly? && !op.Range? && Reads(s, i, OpText(op))
    ensures |OpText(op)| == 1 && i < |s|
    ensures At(s, i) == if op.Star? then '*' else if op.Plus? then '+' else '?'
  {
    ReadsHead(s, i, OpText(op));
  }

  lemma RangeOpComplete(s: string, i: nat, re: Regex, group: nat, op: Op) returns (next: Regex)
    requires op.Exactly? || op.Range?
    requires OpOk(op) && Reads(s, i, OpText(op))
    ensures L(next) == OpMeaning(L(re), op)
    ensures i + |OpText(op)| <= |s| && Ops(s, i, re, group) == Ops(s, i + |OpText(op)|, next, group)
  {
    hide Reads, Ops, L, OpMeaning, OpText, OpOk, ParserSpec.Range, Counted;
    ReadsWithin(s, i, OpText(op));
    RangeComplete(s, i, op, re);
    OpsTurn(s, i, re, group);
    var b := ParserSpec.Range(s, i + 1);
    next := Counted(b.first, b.second, re);
  }

  lemma {:induction false} OpsSound(s: string, i: nat, re: Regex, group: nat) returns (ops: seq<Op>)
    requires i <= |s| && Ops(s, i, re, group).Ok?
    ensures var p := Ops(s, i, re, group);
            && OpsOk(ops) && Reads(s, i, OpsText(ops)) && p.iter == i + |OpsText(ops)|
            && L(p.re) == OpsMeaning(L(re), ops)
    decreases |s| - i
  {
    hide Reads, L, OpText, OpMeaning, OpOk;
    if IsOp(At(s, i)) {
      var op, next := OpSound(s, i, re, group);
      var rest := OpsSound(s, i + |OpText(op)|, next, group);
      ops := [op] + rest;
      assert ops[1..] == rest;
      ReadsCat(s, i, OpText(op), OpsText(rest));
    } else {
      ops := [];
      ReadsNothing(s, i);
    }
  }

  lemma {:induction false} OpsComplete(s: string, i: nat, re: Regex, group: nat, ops: seq<Op>)
    requires OpsOk(ops) && Reads(s, i, OpsText(ops)) && !IsOp(At(s, i + |OpsText(ops)|)) && i <= |s|
    ensures var p := Ops(s, i, re, group);
            p.Ok? && p.iter == i + |OpsText(ops)| && L(p.re) == OpsMeaning(L(re), ops)
    decreases |ops|
  {
    hide Reads, L, OpText, OpMeaning, OpOk;
    if ops == [] {
    } else {
      ReadsCat(s, i, OpText(ops[0]), OpsText(ops[1..]));
      var next := OpComplete(s, i, re, group, ops[0]);
      OpsComplete(s, i + |OpText(ops[0])|, next, group, ops[1..]);
    }
  }

  // ---------------------------------------------------------------- sets, groups, sequences, alternatives

  /** What the parser returned at (s, i) reads the text and means A. */
  ghost predicate Yields(p: Parsed, s: string, i: nat, text: string, A: Lang, group: nat) {
    p.Ok? && Reads(s, i, text) && p.iter == i + |text| && L(p.re) == A && p.group == group
  }

  lemma {:induction false} SetEndComplete(s: string, i: nat, chars: string)
    requires Reads(s, i, chars) && At(s, i + |chars|) == ']'
    requires forall k :: 0 <= k < |chars| ==> chars[k] != NUL && chars[k] != ']'
    ensures SetEnd(s, i) == i + |chars|
    decreases |chars|
  {
    if chars == "" {
    } else {
      ReadsHead(s, i, chars);
      assert s[i + 1..i + 1 + |chars[1..]|] == chars[1..];
      SetEndComplete(s, i + 1, chars[1..]);
    }
  }

  lemma {:induction false} SetEndSound(s: string, i: nat)
    requires i <= |s|
    ensures forall k :: i <= k < SetEnd(s, i) ==> s[k] != NUL && s[k] != ']'
    decreases |s| - i
  {
    if At(s, i) == NUL || At(s, i) == ']' {
    } else {
      SetEndSound(s, i + 1);
    }
  }

  /** "[" chars "]" and "(" inner ")" and "(?:" inner ")" as readings of their parts. */
  lemma BracketText(s: string, i: nat, open: string, inner: string, close: char)
    ensures Reads(s, i, open + (inner + [close])) <==>
            Reads(s, i, open) && Reads(s, i + |open|, inner) && Reads(s, i + |open| + |inner|, [close])
  {
    hide Reads;
    ReadsCat(s, i, open, inner + [close]);
    ReadsCat(s, i + |open|, inner, [close]);
  }

  lemma AtomSound(s: string, i: nat, group: nat, first: bool) returns (a: Atom)
    requires At(s, i) != NUL && At(s, i) != '|' && (At(s, i) == ')' ==> first)
    requires ParserSpec.Atom(s, i, group).Ok?
    ensures AtomOk(a, first)
    ensures Yields(ParserSpec.Atom(s, i, group), s, i, AtomText(a), AtomMeaning(a, first), group + AtomGroups(a))
    decreases |s| - i, 0
  {
    hide Reads, L, CharSet, Captured, AltsText, AltsMeaning, AltsOk;
    if s[i] == '(' {
      CapturedMeaning(s, i, group);
      if At(s, i + 1) == '?' && At(s, i + 2) == ':' {
        var re := AltsSound(s, i + 3, group);
        a := Uncaptured(re);
        CaptureText(s, i, a, re);
      } else {
        var re := AltsSound(s, i + 1, group);
        a := Capture(re);
        CaptureText(s, i, a, re);
      }
    } else if s[i] == '[' {
      a := SetSound(s, i, group);
    } else {
      a := Lit(s[i]);
      ReadsOne(s, i, s[i]);
      CharMeaning(s[i]);
    }
  }

  /** What capturedRe() makes of the pattern between its parentheses. */
  lemma CapturedMeaning(s: string, i: nat, group: nat)
    requires At(s, i) == '('
    ensures var j := if At(s, i + 1) == '?' && At(s, i + 2) == ':' then i + 3 else i + 1;
            var p, q := Captured(s, i + 1, group), Re(s, j, group);
            && (p.Ok? <==> q.Ok? && At(s, q.iter) == ')')
            && (p.Ok? ==> p.iter == q.iter + 1 && L(p.re) == L(q.re))
            && (p.Ok? ==> p.group == if j == i + 1 then q.group + 1 else q.group)
  {
  }

  /** A group's text is its opening, the text inside, and ')'. */
  lemma CaptureText(s: string, i: nat, a: Atom, re: Alts)
    requires a == Capture(re) || a == Uncaptured(re)
    ensures var open := if a.Capture? then 1 else 3;
            Reads(s, i, AtomText(a)) <==>
              && At(s, i) == '(' && (a.Uncaptured? ==> At(s, i + 1) == '?' && At(s, i + 2) == ':')
              && Reads(s, i + open, AltsText(re)) && At(s, i + open + |AltsText(re)|) == ')'
  {
    hide Reads, AltsText;
    if a.Capture? {
      BracketText(s, i, "(", AltsText(re), ')');
      ReadsOne(s, i, '(');
      ReadsOne(s, i + 1 + |AltsText(re)|, ')');
    } else {
      BracketText(s, i, "(?:", AltsText(re), ')');
      PlainOpening(s, i);
      ReadsOne(s, i + 3 + |AltsText(re)|, ')');
    }
  }

  lemma CharMeaning(c: char)
    ensures L(Char(c)) == iset w: string | |w| == 1 && Accepts(c, w[0])
  {
  }

  lemma PlainOpening(s: string, i: nat)
    ensures Reads(s, i, "(?:") <==> At(s, i) == '(' && At(s, i + 1) == '?' && At(s, i + 2) == ':'
  {
    if i + 3 <= |s| {
      assert s[i..i + 3] == [s[i], s[i + 1], s[i + 2]];
    }
  }

  lemma SetSound(s: string, i: nat, group: nat) returns (a: Atom)
    requires At(s, i) == '[' && CharSet(s, i + 1, group).Ok?
    ensures AtomOk(a, false) && AtomOk(a, true)
    ensures forall first :: AtomOk(a, first) ==>
      Yields(CharSet(s, i + 1, group), s, i, AtomText(a), AtomMeaning(a, first), group + AtomGroups(a))
  {
    var j := SetEnd(s, i + 1);
    var chars := s[i + 1..j];
    SetEndSound(s, i + 1);
    a := OneOf(chars);
    OneOfMeaning(chars);
    ReadsOne(s, i, '[');
    ReadsOne(s, j, ']');
    hide Reads, L, SetTree, AtomMeaning;
    BracketText(s, i, "[", chars, ']');
  }

  lemma OneOfMeaning(chars: string)
    requires chars != ""
    ensures forall first :: AtomOk(OneOf(chars), first) ==> L(SetTree(chars)) == AtomMeaning(OneOf(chars), first)
  {
    SetMeaning(chars);
    hide SetTree, L;
  }

  lemma FactorsSound(s: string, i: nat, group: nat, first: bool) returns (f: Factors)
    requires At(s, i) != NUL && At(s, i) != '|' && (At(s, i) == ')' ==> first)
    requires Sequence(s, i, group).Ok?
    ensures FactorsOk(f, first)
    ensures Yields(Sequence(s, i, group), s, i, FactorsText(f), FactorsMeaning(f, first), group + FactorsGroups(f))
    decreases |s| - i, 1
  {
    hide Reads, L, OpsText, OpsMeaning, OpsOk, AtomText, AtomMeaning, AtomOk, Ops, ParserSpec.Atom;
    var a := AtomSound(s, i, group, first);
    var p := ParserSpec.Atom(s, i, group);
    var ops := OpsSound(s, p.iter, p.re, p.group);
    var q := Ops(s, p.iter, p.re, p.group);
    ReadsCat(s, i, AtomText(a), OpsText(ops));
    if EndsSeq(At(s, q.iter)) {
      f := Last(a, ops);
    } else {
      var rest := FactorsSound(s, q.iter, q.group, false);
      f := More(a, ops, rest);
      var r := Sequence(s, q.iter, q.group);
      ReadsCat(s, i, AtomText(a), OpsText(ops) + FactorsText(rest));
      ReadsCat(s, i + |AtomText(a)|, OpsText(ops), FactorsText(rest));
      SeqMeaning(q.re, r.re);
    }
  }

  lemma SeqMeaning(a: Regex, b: Regex)
    ensures L(Seq(a, b)) == Cat(L(a), L(b)) && L(Alt(a, b)) == L(a) + L(b)
  {
  }

  lemma AltsSound(s: string, i: nat, group: nat) returns (t: Alts)
    requires i <= |s| && Re(s, i, group).Ok?
    ensures AltsOk(t)
    ensures Yields(Re(s, i, group), s, i, AltsText(t), AltsMeaning(t), group + AltsGroups(t))
    decreases |s| - i, 2
  {
    hide Reads, L, FactorsText, FactorsMeaning, FactorsOk, Sequence;
    var f := FactorsSound(s, i, group, true);
    var l := Sequence(s, i, group);
    if At(s, l.iter) != '|' {
      t := One(f);
    } else {
      var rest := AltsSound(s, l.iter + 1, l.group);
      t := Or(f, rest);
      var r := Re(s, l.iter + 1, l.group);
      ReadsOne(s, l.iter, '|');
      ReadsCat(s, i, FactorsText(f), "|" + AltsText(rest));
      ReadsCat(s, l.iter, "|", AltsText(rest));
      SeqMeaning(l.re, r.re);
    }
  }

  /** The first character of a factor's text. */
  lemma AtomHead(a: Atom, first: bool)
    requires AtomOk(a, first)
    ensures AtomText(a) != "" && var c := AtomText(a)[0];
            c != NUL && c != '|' && !IsOp(c) && (c == ')' ==> first)
  {
  }

  lemma FactorsHead(f: Factors, first: bool)
    requires FactorsOk(f, first)
    ensures FactorsText(f) != "" && var c := FactorsText(f)[0];
            c != NUL && c != '|' && !IsOp(c) && (c == ')' ==> first)
  {
    AtomHead(f.atom, first);
  }

  lemma AltsHead(t: Alts)
    requires AltsOk(t)
    ensures AltsText(t) != "" && var c := AltsText(t)[0]; c != NUL && c != '|' && !IsOp(c)
  {
    FactorsHead(t.factors, true);
  }

  lemma SetComplete(s: string, i: nat, group: nat, a: Atom, first: bool)
    requires a.OneOf? && AtomOk(a, first) && Reads(s, i, AtomText(a))
    ensures At(s, i) == '['
    ensures Yields(CharSet(s, i + 1, group), s, i, AtomText(a), AtomMeaning(a, first), group + AtomGroups(a))
  {
    BracketText(s, i, "[", a.chars, ']');
    ReadsOne(s, i, '[');
    ReadsOne(s, i + 1 + |a.chars|, ']');
    SetEndComplete(s, i + 1, a.chars);
    SetMeaning(a.chars);
  }

  lemma {:induction false} AtomComplete(s: string, i: nat, group: nat, a: Atom, first: bool)
    requires AtomOk(a, first) && Reads(s, i, AtomText(a))
    ensures At(s, i) != NUL
    ensures Yields(ParserSpec.Atom(s, i, group), s, i, AtomText(a), AtomMeaning(a, first), group + AtomGroups(a))
    decreases a
  {
    hide Reads, L, CharSet, Captured, AltsText, AltsMeaning, AltsOk;
    match a
    case Lit(c) =>
      ReadsOne(s, i, c);
      CharMeaning(c);
    case OneOf(_) => SetComplete(s, i, group, a, first);
    case Capture(re) =>
      CaptureText(s, i, a, re);
      AltsHead(re);
      ReadsHead(s, i + 1, AltsText(re));
      AltsComplete(s, i + 1, group, re);
      CapturedMeaning(s, i, group);
    case Uncaptured(re) =>
      CaptureText(s, i, a, re);
      AltsComplete(s, i + 3, group, re);
      CapturedMeaning(s, i, group);
  }

  lemma {:induction false} FactorsComplete(s: string, i: nat, group: nat, f: Factors, first: bool)
    requires FactorsOk(f, first) && Reads(s, i, FactorsText(f)) && EndsSeq(At(s, i + |FactorsText(f)|))
    ensures At(s, i) != NUL && At(s, i) != '|'
    ensures Yields(Sequence(s, i, group), s, i, FactorsText(f), FactorsMeaning(f, first), group + FactorsGroups(f))
    decreases f
  {
    hide Reads, L, OpsText, OpsMeaning, OpsOk, AtomText, AtomMeaning, AtomOk, Ops, ParserSpec.Atom;
    FactorsHead(f, first);
    ReadsHead(s, i, FactorsText(f));
    var a, ops := f.atom, f.ops;
    var j := i + |AtomText(a)| + |OpsText(ops)|;
    if f.Last? {
      ReadsCat(s, i, AtomText(a), OpsText(ops));
    } else {
      ReadsCat(s, i, AtomText(a), OpsText(ops) + FactorsText(f.rest));
      ReadsCat(s, i + |AtomText(a)|, OpsText(ops), FactorsText(f.rest));
      FactorsHead(f.rest, false);
      ReadsHead(s, j, FactorsText(f.rest));
    }
    AtomComplete(s, i, group, a, first);
    var p := ParserSpec.Atom(s, i, group);
    OpsComplete(s, p.iter, p.re, p.group, ops);
    var q := Ops(s, p.iter, p.re, p.group);
    if f.Last? {
    } else {
      FactorsComplete(s, j, q.group, f.rest, false);
      SeqMeaning(q.re, Sequence(s, j, q.group).re);
    }
  }

  lemma {:induction false} AltsComplete(s: string, i: nat, group: nat, t: Alts)
    requires AltsOk(t) && Reads(s, i, AltsText(t))
    requires At(s, i + |AltsText(t)|) == NUL || At(s, i + |AltsText(t)|) == ')'
    ensures i <= |s| && Yields(Re(s, i, group), s, i, AltsText(t), AltsMeaning(t), group + AltsGroups(t))
    decreases t
  {
    hide Reads, L, FactorsText, FactorsMeaning, FactorsOk, Sequence;
    var f := t.factors;
    var j := i + |FactorsText(f)|;
    if t.Or? {
      ReadsCat(s, i, FactorsText(f), "|" + AltsText(t.rest));
      ReadsCat(s, j, "|", AltsText(t.rest));
      ReadsOne(s, j, '|');
    }
    FactorsComplete(s, i, group, f, true);
    var l := Sequence(s, i, group);
    if t.One? {
    } else {
      AltsComplete(s, j + 1, l.group, t.rest);
      SeqMeaning(l.re, Re(s, j + 1, l.group).re);
    }
  }

  // ---------------------------------------------------------------- whole patterns

  /** s is the text of t, followed by nothing, or by a NUL or an unmatched ')' and anything. */
  ghost predicate Spells(s: string, t: Alts) {
    AltsOk(t) && Reads(s, 0, AltsText(t)) && (At(s, |AltsText(t)|) == NUL || At(s, |AltsText(t)|) == ')')
  }

  /** The parser accepts exactly the patterns of the grammar. */
  lemma ParserAcceptsGrammar(s: string)
    ensures Parse(s).Ok? <==> s == "" || exists t :: Spells(s, t)
  {
    if s != "" {
      if Parse(s).Ok? {
        var t := AltsSound(s, 0, 0);
        assert Spells(s, t);
      }
      forall t | Spells(s, t) ensures Parse(s).Ok? {
        AltsComplete(s, 0, 0, t);
      }
    }
  }

  /** The pattern s stands for the language A; the empty pattern stands for the empty string. */
  ghost predicate Denotes(s: string, A: Lang) {
    if s == "" then A == iset{""} else exists t :: Spells(s, t) && A == AltsMeaning(t)
  }

  /** "a{12}" means three copies: the digits are added up. */
  lemma TwelveMeansThree()
    ensures Parse("a{12}") == Ok(Copies(3, Char('a')), 5, 0)
    ensures L(Parse("a{12}").re) == Power(L(Char('a')), 3)
  {
    var s, re := "a{12}", Char('a');
    assert Digits(s, 4, 3) == Count(3, 4) && Digits(s, 3, 1) == Count(3, 4) && Digits(s, 2, 0) == Count(3, 4);
    assert SkipBlanks(s, 2) == 2 && SkipBlanks(s, 4) == 4;
    assert ParserSpec.Range(s, 2) == Bounds(3, 3, 5);
    assert Counted(3, 3, re) == Copies(3, re);
    hide ParserSpec.Range, Digits, SkipBlanks, Counted, Copies, L;
    assert Ops(s, 5, Copies(3, re), 0) == Ok(Copies(3, re), 5, 0);
    assert Ops(s, 1, re, 0) == Ops(s, 5, Copies(3, re), 0);
    assert Factor(s, 0, 0) == Ok(Copies(3, re), 5, 0);
    assert Sequence(s, 0, 0) == Ok(Copies(3, re), 5, 0);
    CopiesMeaning(3, re);
  }

  /** Desugaring keeps meaning: the tree denotes what the pattern stands for. */
  lemma ParserKeepsMeaning(s: string, A: Lang)
    requires Denotes(s, A)
    ensures Parse(s).Ok? && L(Parse(s).re) == A
  {
    if s != "" {
      var t :| Spells(s, t) && A == AltsMeaning(t);
      AltsComplete(s, 0, 0, t);
    }
  }

  /** The group counter ends at the number of groups that the pattern captures. */
  lemma GroupsAreCounted(s: string, t: Alts)
    requires Spells(s, t)
    ensures Parse(s).Ok? && Parse(s).group == AltsGroups(t)
  {
    AltsComplete(s, 0, 0, t);
  }
}
