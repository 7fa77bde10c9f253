/** Languages over characters and the operations regular expressions build them with. */
module Language {
  type Lang = iset<string>

  ghost function Cat(A: Lang, B: Lang): Lang {
    iset w: string | Splits(A, B, w)
  }

  ghost predicate Splits(A: Lang, B: Lang, w: string) {
    exists u, v :: u in A && v in B && w == u + v
  }

  /** The k-fold concatenation of A with itself. */
  ghost function Power(A: Lang, k: nat): Lang {
    if k == 0 then iset{""} else Cat(A, Power(A, k - 1))
  }

  ghost function Star(A: Lang): Lang {
    iset w: string | InSomePower(A, w)
  }

  ghost predicate InSomePower(A: Lang, w: string) {
    exists k: nat :: w in Power(A, k)
  }

  /** The words that follow c in A. */
  ghost function Quotient(A: Lang, c: char): Lang {
    iset w: string | [c] + w in A
  }

  lemma CatIntro(A: Lang, B: Lang, u: string, v: string)
    requires u in A && v in B
    ensures u + v in Cat(A, B)
  {
  }

  lemma StarStep(A: Lang, u: string, v: string)
    requires u in A && v in Star(A)
    ensures u + v in Star(A)
  {
    var k: nat :| v in Power(A, k);
    assert u + v in Power(A, k + 1);
  }

  /** Every word of a star is empty or starts with a non-empty factor. */
  lemma {:induction false} StarUnroll(A: Lang, w: string, k: nat)
    requires w in Power(A, k)
    ensures w == "" || exists u, v :: u != "" && u in A && v in Star(A) && w == u + v
  {
    if k == 0 {
    } else {
      var u, v :| u in A && v in Power(A, k - 1) && w == u + v;
      if u == "" {
        assert w == v;
        StarUnroll(A, v, k - 1);
      } else {
        assert v in Star(A);
      }
    }
  }

  lemma HeadCut(c: char, v: string, x: string, y: string)
    requires [c] + v == x + y && x != ""
    ensures x == [c] + x[1..] && v == x[1..] + y
  {
    assert x[0] == (x + y)[0] == c;
    assert v == ([c] + v)[1..] == (x + y)[1..];
  }

  /** A word c w of a concatenation is cut before c, so that A has the empty word, or after it. */
  lemma CatStartsWith(A: Lang, B: Lang, c: char, w: string)
    requires [c] + w in Cat(A, B)
    ensures w in Cat(Quotient(A, c), B) || ("" in A && w in Quotient(B, c))
  {
    var x, y :| x in A && y in B && [c] + w == x + y;
    if x == "" {
      assert y == [c] + w;
    } else {
      HeadCut(c, w, x, y);
      assert x[1..] in Quotient(A, c);
      CatIntro(Quotient(A, c), B, x[1..], y);
    }
  }

  lemma QuotientThenCat(A: Lang, B: Lang, c: char, w: string)
    requires w in Cat(Quotient(A, c), B)
    ensures [c] + w in Cat(A, B)
  {
    var x, y :| x in Quotient(A, c) && y in B && w == x + y;
    CatIntro(A, B, [c] + x, y);
    assert [c] + w == ([c] + x) + y;
  }

  lemma QuotientOfCat(A: Lang, B: Lang, c: char)
    ensures Quotient(Cat(A, B), c) ==
            Cat(Quotient(A, c), B) + (if "" in A then Quotient(B, c) else iset{})
  {
    var rest := if "" in A then Quotient(B, c) else iset{};
    forall w ensures w in Quotient(Cat(A, B), c) <==> w in Cat(Quotient(A, c), B) || w in rest {
      if [c] + w in Cat(A, B) {
        CatStartsWith(A, B, c, w);
      }
      if w in Cat(Quotient(A, c), B) {
        QuotientThenCat(A, B, c, w);
      }
      if w in rest {
        CatIntro(A, B, "", [c] + w);
        assert "" + ([c] + w) == [c] + w;
      }
    }
  }

  /** A word c w of a star starts with a factor c x of A. */
  lemma StarStartsWith(A: Lang, c: char, w: string)
    requires [c] + w in Star(A)
    ensures w in Cat(Quotient(A, c), Star(A))
  {
    var k: nat :| [c] + w in Power(A, k);
    StarUnroll(A, [c] + w, k);
    var x, y :| x != "" && x in A && y in Star(A) && [c] + w == x + y;
    HeadCut(c, w, x, y);
    assert x[1..] in Quotient(A, c);
    CatIntro(Quotient(A, c), Star(A), x[1..], y);
  }

  lemma QuotientThenStar(A: Lang, c: char, w: string)
    requires w in Cat(Quotient(A, c), Star(A))
    ensures [c] + w in Star(A)
  {
    var x, y :| x in Quotient(A, c) && y in Star(A) && w == x + y;
    StarStep(A, [c] + x, y);
    assert [c] + w == ([c] + x) + y;
  }

  lemma QuotientOfStar(A: Lang, c: char)
    ensures Quotient(Star(A), c) == Cat(Quotient(A, c), Star(A))
  {
    forall w ensures w in Quotient(Star(A), c) <==> w in Cat(Quotient(A, c), Star(A)) {
      if [c] + w in Star(A) {
        StarStartsWith(A, c, w);
      }
      if w in Cat(Quotient(A, c), Star(A)) {
        QuotientThenStar(A, c, w);
      }
    }
  }
}

/** The regular-expression tree shared by both matchers, and what it means. */
module RegexAst {
  import opened Language

  datatype Regex =
    | Empty
    | Null
    | Char(ch: char)
    | Alt(left: Regex, right: Regex)
    | Seq(first: Regex, last: Regex)
    | Rep(re: Regex)
    | Group(body: Regex, group: int)

  /** The byte that ends every C string; the automaton also uses it as its epsilon label. */
  const NUL: char := '\0'

  /** A pattern character accepts an input character: '.' accepts every one of them. */
  predicate Accepts(pat: char, c: char) {
    pat == '.' || pat == c
  }

  /** The language a tree denotes. */
  ghost function L(r: Regex): Lang {
    match r
    case Empty => iset{}
    case Null => iset{""}
    case Char(ch) => iset w: string | |w| == 1 && Accepts(ch, w[0])
    case Alt(left, right) => L(left) + L(right)
    case Seq(first, last) => Cat(L(first), L(last))
    case Rep(re) => Star(L(re))
    case Group(body, _) => L(body)
  }
}
