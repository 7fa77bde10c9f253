/** Matching and searching by repeated derivatives. */
module DerivativeEngine {
  import opened Language
  import opened RegexAst
  import opened Derivative

  /** str[i..j] is a non-empty match, none starts further left, none from i is longer. */
  ghost predicate LeftmostLongest(re: Regex, str: string, i: int, j: int) {
    && 0 <= i < j <= |str|
    && str[i..j] in L(re)
    && (forall a, b :: 0 <= a < i && a < b <= |str| ==> str[a..b] !in L(re))
    && (forall b :: j < b <= |str| ==> str[i..b] !in L(re))
  }

  /** A match that starts at id is a character and a match of the derivative. */
  lemma FirstDerived(l: Regex, str: string, id: nat)
    requires id < |str|
    ensures forall j :: id < j <= |str| ==> (str[id..j] in L(l) <==> str[id + 1..j] in L(D(l, str[id])))
  {
    DerivativeCorrect(l, str[id]);
    hide L, D;
    forall j | id < j <= |str| ensures str[id..j] in L(l) <==> str[id + 1..j] in L(D(l, str[id])) {
      assert str[id..j] == [str[id]] + str[id + 1..j];
    }
  }

  class Engine {
    const re: Regex
    const deri: Differentiator
    const containNull: NullCheck

    constructor (re: Regex)
      ensures this.re == re && fresh(deri) && fresh(containNull)
    {
      this.re := re;
      deri := new Differentiator();
      containNull := new NullCheck();
    }

    method Match(str: string) returns (b: bool)
      modifies deri, containNull
      ensures b <==> str in L(re)
    {
      b := MatchHelper(re, str, 0);
      assert str[0..] == str;
    }

    method MatchHelper(l: Regex, str: string, id: nat) returns (b: bool)
      requires id <= |str|
      modifies deri, containNull
      ensures b <==> str[id..] in L(l)
      decreases |str| - id
    {
      if id >= |str| {
        b := containNull.Check(l);
        return;
      }
      DerivativeCorrect(l, str[id]);
      var d := deri.Drv(l, str[id]);
      b := MatchHelper(d, str, id + 1);
      assert str[id..] == [str[id]] + str[id + 1..];
    }

    /** The leftmost-longest non-empty match, or "" when no non-empty substring matches. */
    method Search(str: string) returns (found: string)
      modifies deri, containNull
      ensures found == "" ==> forall i, j :: 0 <= i < j <= |str| ==> str[i..j] !in L(re)
      ensures found != "" ==> exists i, j :: LeftmostLongest(re, str, i, j) && found == str[i..j]
    {
      var i := 0;
      while i < |str|
        invariant 0 <= i <= |str|
        invariant forall a, b :: 0 <= a < i && a < b <= |str| ==> str[a..b] !in L(re)
      {
        var tail := SearchHelper(re, str, i);
        if tail > i {
          assert LeftmostLongest(re, str, i, tail);
          return str[i..tail];
        }
        i := i + 1;
      }
      return "";
    }

    /** The end of the longest match that starts at id, or 0 when there is none. */
    method SearchHelper(l: Regex, str: string, id: nat) returns (result: nat)
      requires id <= |str|
      modifies deri, containNull
      ensures result == 0 || (id <= result <= |str| && str[id..result] in L(l))
      ensures forall j :: id <= j <= |str| && str[id..j] in L(l) ==> j <= result
      decreases |str| - id
    {
      var nullable := containNull.Check(l);
      result := if nullable then id else 0;
      assert str[id..id] == "";
      if id >= |str| {
        return;
      }
      var d := deri.Drv(l, str[id]);
      var tmp := SearchHelper(d, str, id + 1);
      FirstDerived(l, str, id);
      result := if result < tmp then tmp else result;
    }
  }
}
