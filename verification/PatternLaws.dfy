/** What the parser makes of single characters and of counts, written out, and how it numbers groups. */
module PatternLaws {
  import opened Language
  import opened RegexAst
  import opened NfaSimulation
  import opened ParserSpec
  import opened Grammar
  import opened GrammarProofs
  import EnginesAgree
  import NfaLanguage

  /** Every character is a pattern for itself but the eight that are not; '.' stands for any character. */
  lemma SingleCharacter(c: char)
    ensures Parse([c]) == if c == '\0' || c in "|*+?{([" then Abort else Ok(Char(c), 1, 0)
  {
    var s := [c];
    assert At(s, 1) == NUL && Ops(s, 1, Char(c), 0) == Ok(Char(c), 1, 0);
    assert Captured(s, 1, 0) == Abort by {
      assert Re(s, 1, 0) == Abort;
    }
    assert ParserSpec.CharSet(s, 1, 0) == Abort by {
      assert SetEnd(s, 1) == 1;
    }
    assert c in "|*+?{([" <==> c == '|' || c == '*' || c == '+' || c == '?' || c == '{' || c == '(' || c == '[';
    hide Captured, ParserSpec.CharSet, Ops;
    if c != NUL && c != '|' {
      assert ParserSpec.Atom(s, 0, 0) == if IsOp(c) || c == '(' || c == '[' then Abort else Ok(Char(c), 1, 0);
      assert Sequence(s, 0, 0) == Factor(s, 0, 0) == ParserSpec.Atom(s, 0, 0);
    }
  }

  lemma DotStandsForAny(w: string)
    requires NulFree(w)
    ensures Parse(".") == Ok(Char('.'), 1, 0)
    ensures NfaLanguage.NoEmpty(Char('.'))
    ensures Accepted(Char('.'), w) <==> |w| == 1
    ensures EnginesAgree.DerivativeVerdict(Char('.'), w) <==> |w| == 1
  {
    SingleCharacter('.');
    EnginesAgree.DerivativeVerdictIsLanguage(Char('.'), w);
    AcceptedIsLanguage(Char('.'), w);
  }

  predicate AllIn(s: string, chars: string) { forall k :: 0 <= k < |s| ==> s[k] in chars }

  lemma WrittenNumber(b: string, d: string, e: string)
    requires AllIn(b, " \t") && d != "" && AllIn(d, "0123456789") && AllIn(e, " \t")
    ensures NumberOk(Number(b, d, e))
  {
  }

  /** A count is a non-empty string of the ten digits, with blanks and tabs around it. */
  lemma CountsParse(b: string, d: string, e: string)
    requires AllIn(b, " \t") && d != "" && AllIn(d, "0123456789") && AllIn(e, " \t")
    ensures Parse("a{" + b + d + e + "}").Ok? && forall k :: 0 <= k < |d| ==> IsDigit(d[k])
    ensures L(Parse("a{" + b + d + e + "}").re) == Power(L(Char('a')), DigitSum(d))
  {
    var n := Number(b, d, e);
    WrittenNumber(b, d, e);
    CountText(b, d, e);
    hide Parse, L, OpText;
    OneOperator(Exactly(n));
    ExactlyMeaning(n, L(Char('a')));
  }

  lemma CountText(b: string, d: string, e: string)
    ensures "a{" + b + d + e + "}" == "a" + OpText(Exactly(Number(b, d, e)))
  {
  }

  lemma ExactlyMeaning(n: Number, A: Lang)
    requires NumberOk(n)
    ensures OpMeaning(A, Exactly(n)) == Power(A, DigitSum(n.digits))
  {
  }

  /** Nothing else is a digit, and nothing else may stand around them. */
  lemma OnlyDigitsCount(c: char)
    ensures Parse("a{" + [c] + "}").Ok? <==> c in "0123456789"
    ensures Parse("a{" + [c] + "1}").Ok? <==> c in "0123456789 \t"
  {
    hide Parse;
    if c in "0123456789" {
      CountsParse("", [c], "");
      CountsParse("", [c] + "1", "");
      assert "a{" + "" + [c] + "" + "}" == "a{" + [c] + "}";
      assert "a{" + "" + ([c] + "1") + "" + "}" == "a{" + [c] + "1}";
    } else {
      RefusedCount("a{" + [c] + "}");
      if c in " \t" {
        CountsParse([c], "1", "");
        assert "a{" + [c] + "1" + "" + "}" == "a{" + [c] + "1}";
      } else {
        RefusedCount("a{" + [c] + "1}");
      }
    }
  }

  /** Where no digit comes behind the blanks, the whole pattern is refused. */
  lemma RefusedCount(s: string)
    requires |s| >= 2 && s[..2] == "a{" && !IsDigit(At(s, SkipBlanks(s, 2)))
    ensures Parse(s) == Abort
  {
    assert s[0] == s[..2][0] && s[1] == s[..2][1];
    assert ParserSpec.Range(s, 2) == NoBounds;
    assert Ops(s, 1, Char('a'), 0) == Abort;
    assert Factor(s, 0, 0) == Abort;
    assert Sequence(s, 0, 0) == Abort;
    assert Re(s, 0, 0) == Abort;
  }

  /** Two of them are bounds. */
  lemma RangesParse(d1: string, d2: string)
    requires d1 != "" && AllIn(d1, "0123456789") && d2 != "" && AllIn(d2, "0123456789")
    ensures Parse("a{" + d1 + "," + d2 + "}").Ok?
    ensures (forall k :: 0 <= k < |d1| ==> IsDigit(d1[k])) && (forall k :: 0 <= k < |d2| ==> IsDigit(d2[k]))
    ensures L(Parse("a{" + d1 + "," + d2 + "}").re) == PowersBetween(L(Char('a')), DigitSum(d1), DigitSum(d2))
  {
    var n1, n2 := Number("", d1, ""), Number("", d2, "");
    WrittenNumber("", d1, "");
    WrittenNumber("", d2, "");
    BoundsText(d1, d2);
    hide Parse, L, OpText;
    OneOperator(Op.Range(n1, n2));
  }

  lemma BoundsText(d1: string, d2: string)
    ensures "a{" + d1 + "," + d2 + "}" == "a" + OpText(Op.Range(Number("", d1, ""), Number("", d2, "")))
  {
    Bare(d1);
    Bare(d2);
    hide NumberText;
    var rest := d1 + ("," + (d2 + "}"));
    assert "a{" + d1 + "," + d2 + "}" == "a{" + rest;
    assert "a{" + rest == "a" + ("{" + rest);
  }

  lemma Bare(d: string)
    ensures NumberText(Number("", d, "")) == d
  {
  }

  /** One operator behind one character. */
  lemma OneOperator(op: Op)
    requires OpOk(op)
    ensures Parse("a" + OpText(op)).Ok?
    ensures L(Parse("a" + OpText(op)).re) == OpMeaning(L(Char('a')), op)
  {
    hide OpText, OpMeaning, OpOk, Parse, L, AltsText, AltsMeaning, Spells;
    var s, t := "a" + OpText(op), One(Last(Lit('a'), [op]));
    OneOperatorText(op);
    OneOperatorMeaning(op);
    SpellsItself(t);
    ParserKeepsMeaning(s, AltsMeaning(t));
  }

  lemma OneOperatorText(op: Op)
    ensures AltsText(One(Last(Lit('a'), [op]))) == "a" + OpText(op)
  {
    hide OpText;
    assert [op][1..] == [];
    assert OpsText([op]) == OpText(op) + "" == OpText(op);
    assert AtomText(Lit('a')) == "a";
    assert FactorsText(Last(Lit('a'), [op])) == "a" + OpText(op);
  }

  lemma SpellsItself(t: Alts)
    requires AltsOk(t)
    ensures Spells(AltsText(t), t)
  {
  }

  lemma OneOperatorMeaning(op: Op)
    requires OpOk(op)
    ensures AltsOk(One(Last(Lit('a'), [op])))
    ensures AltsMeaning(One(Last(Lit('a'), [op]))) == OpMeaning(L(Char('a')), op)
  {
    hide OpMeaning, OpOk;
    var f := Last(Lit('a'), [op]);
    assert OpsOk([op]) && OpsOk([]) && [op][1..] == [];
    assert AtomOk(Lit('a'), true) && FactorsOk(f, true) && AltsOk(One(f));
    assert AtomMeaning(Lit('a'), true) == L(Char('a'));
    var A := L(Char('a'));
    assert OpsMeaning(OpMeaning(A, op), []) == OpMeaning(A, op);
    assert OpsMeaning(A, [op]) == OpMeaning(A, op);
    assert FactorsMeaning(f, true) == OpMeaning(A, op);
  }
}
