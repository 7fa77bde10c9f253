/** Nullability and Brzozowski derivatives: the two visitors of the derivative matcher. */
module Derivative {
  import opened Language
  import opened RegexAst

  predicate Nullable(r: Regex) {
    match r
    case Empty => false
    case Null => true
    case Char(_) => false
    case Alt(left, right) => Nullable(left) || Nullable(right)
    case Seq(first, last) => Nullable(first) && Nullable(last)
    case Rep(_) => true
    case Group(body, _) => Nullable(body)
  }

  /** A tree for the rests of the words that begin with c.  Of a sequence whose first part may be empty,
      the second part may begin with c as well; a repetition is unrolled once. */
  function D(r: Regex, c: char): Regex {
    match r
    case Empty => Empty
    case Null => Empty
    case Char(ch) => if ch == c || ch == '.' then Null else Empty
    case Alt(left, right) => Alt(D(left, c), D(right, c))
    case Seq(first, last) =>
      if Nullable(first) then Alt(Seq(D(first, c), last), D(last, c)) else Seq(D(first, c), last)
    case Rep(re) => Seq(D(re, c), r)
    case Group(body, _) => D(body, c)
  }

  lemma {:induction false} NullableCorrect(r: Regex)
    ensures Nullable(r) <==> "" in L(r)
  {
    match r
    case Empty =>
    case Null =>
    case Char(_) =>
    case Alt(left, right) => NullableCorrect(left); NullableCorrect(right);
    case Seq(first, last) =>
      NullableCorrect(first);
      NullableCorrect(last);
      if Nullable(r) {
        assert "" == "" + "";
      }
    case Rep(re) => assert "" in Power(L(re), 0);
    case Group(body, _) => NullableCorrect(body);
  }

  /** D(r, c) denotes { v : cv in L(r) }. */
  lemma {:induction false} DerivativeCorrect(r: Regex, c: char)
    ensures L(D(r, c)) == Quotient(L(r), c)
  {
    match r
    case Empty =>
    case Null =>
    case Char(ch) =>
      forall w ensures w in L(D(r, c)) <==> w in Quotient(L(r), c) {
        assert |[c] + w| == 1 <==> w == "";
      }
    case Alt(left, right) => DerivativeCorrect(left, c); DerivativeCorrect(right, c);
    case Seq(first, last) =>
      NullableCorrect(first);
      DerivativeCorrect(first, c);
      DerivativeCorrect(last, c);
      QuotientOfCat(L(first), L(last), c);
    case Rep(re) =>
      DerivativeCorrect(re, c);
      QuotientOfStar(L(re), c);
    case Group(body, _) => DerivativeCorrect(body, c);
  }

  /** Visitor that leaves its answer in the field containNull. */
  class NullCheck {
    var containNull: bool

    constructor () {
    }

    method Check(re: Regex) returns (b: bool)
      modifies this
      ensures b <==> "" in L(re)
    {
      Visit(re);
      return containNull;
    }

    method Visit(re: Regex)
      modifies this
      ensures containNull <==> "" in L(re)
      decreases re
    {
      NullableCorrect(re);
      match re
      case Empty => containNull := false;
      case Null => containNull := true;
      case Char(_) => containNull := false;
      case Alt(left, right) =>
        Visit(left);
        var leftContainNull := containNull;
        Visit(right);
        containNull := containNull || leftContainNull;
      case Seq(first, last) =>
        Visit(first);
        var leftContainNull := containNull;
        Visit(last);
        NullableCorrect(first);
        NullableCorrect(last);
        containNull := containNull && leftContainNull;
      case Rep(_) => containNull := true;
      case Group(body, _) => Visit(body);
    }
  }

  /** Visitor that leaves the derivative in the field r. */
  class Differentiator {
    var r: Regex
    var c: char
    var containNull: NullCheck?

    constructor () {
    }

    method Drv(re: Regex, ch: char) returns (d: Regex)
      modifies this
      ensures d == D(re, ch)
    {
      containNull := new NullCheck();
      r, c := re, ch;
      Visit(re);
      return r;
    }

    method Visit(re: Regex)
      requires containNull != null
      modifies `r, containNull
      ensures r == D(re, c)
      decreases re
    {
      match re
      case Empty => r := Empty;
      case Null => r := Empty;
      case Char(ch) =>
        if ch == c {
          r := Null;
        } else if ch == '.' {
          r := Null;
        } else {
          r := Empty;
        }
      case Alt(left, right) =>
        Visit(left);
        var l := r;
        Visit(right);
        r := Alt(l, r);
      case Seq(first, last) =>
        Visit(first);
        r := Seq(r, last);
        var f := r;
        var nullable := containNull.Check(first);
        NullableCorrect(first);
        if nullable {
          Visit(last);
          r := Alt(f, r);
        }
      case Rep(re') =>
        Visit(re');
        r := Seq(r, re);
      case Group(body, _) => Visit(body);
    }
  }
}
