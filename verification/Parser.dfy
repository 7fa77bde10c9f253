/** The parser object: every method advances iter, and None stands for abort() or a failed assert. */
module Parser {
  import opened RegexAst
  import opened ParserSpec

  datatype Option<T> = None | Some(value: T)

  class Parser {
    const str: string
    var iter: nat
    var group: nat

    constructor (str: string)
      ensures this.str == str && iter == 0 && group == 0
    {
      this.str := str;
      iter, group := 0, 0;
    }

    /** The outcome of a method that started at (i, g) agrees with the parsing function. */
    ghost predicate Delivers(re: Option<Regex>, p: Parsed)
      reads this
    {
      match p
      case Abort => re.None?
      case Ok(r, i, g) => re == Some(r) && iter == i && group == g
    }

    /** The whole pattern; maxGroup is one more than the number of captured groups. */
    method Parse() returns (re: Option<Regex>, maxGroup: nat)
      modifies this
      ensures match ParserSpec.Parse(str)
              case Abort => re.None?
              case Ok(r, _, g) => re == Some(r) && maxGroup == g + 1
    {
      if str == "" {
        return Some(Null), 1;
      }
      iter, group := 0, 0;
      re := Regex();
      maxGroup := group + 1;
    }

    method Regex() returns (re: Option<Regex>)
      requires iter <= |str|
      modifies this
      ensures Delivers(re, Re(str, old(iter), old(group)))
      decreases |str| - iter, 4
    {
      if At(str, iter) == NUL || At(str, iter) == '|' {
        return None;
      }
      var lre := Seq();
      if lre.None? || At(str, iter) == NUL || At(str, iter) == ')' {
        return lre;
      }
      if At(str, iter) != '|' {
        return None;
      }
      iter := iter + 1;
      if At(str, iter) == NUL || At(str, iter) == '|' {
        return None;
      }
      var rre := Regex();
      if rre.None? {
        return None;
      }
      return Some(Alt(lre.value, rre.value));
    }

    method Seq() returns (re: Option<Regex>)
      requires iter <= |str| && At(str, iter) != NUL
      modifies this
      ensures Delivers(re, Sequence(str, old(iter), old(group)))
      decreases |str| - iter, 3
    {
      var first := Factor();
      if first.None? || EndsSeq(At(str, iter)) {
        return first;
      }
      var last := Seq();
      if last.None? {
        return None;
      }
      return Some(RegexAst.Seq(first.value, last.value));
    }

    method Factor() returns (re: Option<Regex>)
      requires iter <= |str| && At(str, iter) != NUL
      modifies this
      ensures Delivers(re, ParserSpec.Factor(str, old(iter), old(group)))
      decreases |str| - iter, 2
    {
      hide ParserSpec.Atom, Ops;
      re := Atom();
      if re.None? {
        return None;
      }
      re := Operators(re.value);
    }

    /** The operand of a factor. */
    method Atom() returns (re: Option<Regex>)
      requires iter <= |str| && At(str, iter) != NUL
      modifies this
      ensures Delivers(re, ParserSpec.Atom(str, old(iter), old(group)))
      decreases |str| - iter, 1
    {
      hide Captured, ParserSpec.CharSet;
      if str[iter] == '(' {
        re := CapturedRe();
      } else if str[iter] == '[' {
        re := CharSet();
      } else if str[iter] != '*' && str[iter] != '+' && str[iter] != '?' && str[iter] != '{' {
        re := Some(Char(str[iter]));
        iter := iter + 1;
      } else {
        return None;
      }
    }

    /** The loop of factor() over the postfix operators. */
    method Operators(atom: Regex) returns (result: Option<Regex>)
      requires iter <= |str|
      modifies this
      ensures Delivers(result, Ops(str, old(iter), atom, old(group)))
    {
      var re := atom;
      while true
        invariant iter <= |str| && group == old(group)
        invariant Ops(str, iter, re, group) == Ops(str, old(iter), atom, old(group))
        decreases |str| - iter
      {
        if At(str, iter) == '*' {
          re := Rep(re);
          iter := iter + 1;
        } else if At(str, iter) == '+' {
          re := RegexAst.Seq(re, Rep(re));
          iter := iter + 1;
        } else if At(str, iter) == '?' {
          re := Alt(Null, re);
          iter := iter + 1;
        } else if At(str, iter) == '{' {
          var r := Range();
          if r.None? {
            return None;
          }
          var r1 := if r.value.0 < r.value.1 then r.value.0 else r.value.1;
          var r2 := if r.value.0 < r.value.1 then r.value.1 else r.value.0;
          re := Repeat(r1, r2, re);
        } else {
          break;
        }
      }
      return Some(re);
    }

    /** helper: cnt copies of re in sequence. */
    static method Helper(cnt: nat, re: Regex) returns (tmp: Regex)
      ensures tmp == Copies(cnt, re)
    {
      tmp := Null;
      for i := 0 to cnt
        invariant tmp == Copies(i, re)
      {
        tmp := RegexAst.Seq(re, tmp);
      }
    }

    static method Repeat(r1: nat, r2: nat, re: Regex) returns (tmp: Regex)
      requires r1 <= r2
      ensures tmp == Between(r1, r2, re)
    {
      tmp := Helper(r2, re);
      for i := r2 downto r1
        invariant tmp == Between(i, r2, re)
      {
        var few := Helper(i, re);
        tmp := Alt(few, tmp);
      }
    }

    method Range() returns (r: Option<(nat, nat)>)
      requires At(str, iter) == '{'
      modifies `iter
      ensures match ParserSpec.Range(str, old(iter) + 1)
              case NoBounds => r.None?
              case Bounds(n1, n2, i) => r == Some((n1, n2)) && iter == i
    {
      iter := iter + 1;
      Blanks();
      if At(str, iter) == NUL {
        return None;
      }
      var n1 := Num();
      if n1.None? {
        return None;
      }
      if At(str, iter) == '}' {
        iter := iter + 1;
        return Some((n1.value, n1.value));
      }
      iter := iter + 1;
      Blanks();
      if At(str, iter) == NUL {
        return None;
      }
      var n2 := Num();
      if n2.None? || At(str, iter) != '}' {
        return None;
      }
      iter := iter + 1;
      return Some((n1.value, n2.value));
    }

    method Blanks()
      requires iter <= |str|
      modifies `iter
      ensures iter == SkipBlanks(str, old(iter))
    {
      while At(str, iter) == ' ' || At(str, iter) == '\t'
        invariant iter <= |str| && SkipBlanks(str, iter) == SkipBlanks(str, old(iter))
        decreases |str| - iter
      {
        iter := iter + 1;
      }
    }

    method Num() returns (n: Option<nat>)
      requires iter <= |str|
      modifies `iter
      ensures match ParserSpec.Num(str, old(iter))
              case NoCount => n.None?
              case Count(value, i) => n == Some(value) && iter == i
    {
      if !IsDigit(At(str, iter)) {
        return None;
      }
      var result: nat := 0;
      while IsDigit(At(str, iter))
        invariant iter <= |str| && Digits(str, iter, result) == Digits(str, old(iter), 0)
        decreases |str| - iter
      {
        result := result + (str[iter] as int - '0' as int);
        iter := iter + 1;
      }
      Blanks();
      if At(str, iter) != ',' && At(str, iter) != '}' {
        return None;
      }
      return Some(result);
    }

    method CapturedRe() returns (re: Option<Regex>)
      requires At(str, iter) == '('
      modifies this
      ensures Delivers(re, Captured(str, old(iter) + 1, old(group)))
      decreases |str| - iter, 0
    {
      iter := iter + 1;
      if At(str, iter) == '?' && At(str, iter + 1) == ':' {
        iter := iter + 2;
        re := Regex();
      } else {
        re := Regex();
        if re.Some? {
          group := group + 1;
          re := Some(Group(re.value, group));
        }
      }
      if re.None? || At(str, iter) != ')' {
        return None;
      }
      iter := iter + 1;
    }

    method CharSet() returns (result: Option<Regex>)
      requires At(str, iter) == '['
      modifies `iter
      ensures Delivers(result, ParserSpec.CharSet(str, old(iter) + 1, old(group)))
    {
      iter := iter + 1;
      var chStack := [];
      while At(str, iter) != NUL && At(str, iter) != ']'
        invariant old(iter) < iter <= |str| && chStack == str[old(iter) + 1..iter]
        invariant SetEnd(str, iter) == SetEnd(str, old(iter) + 1)
        decreases |str| - iter
      {
        chStack := chStack + [str[iter]];
        iter := iter + 1;
      }
      if At(str, iter) == NUL {
        return None;
      }
      iter := iter + 1;
      if chStack == [] {
        return None;
      }
      var re := SetFromStack(chStack);
      return Some(re);
    }

    /** The loop that empties the stack, whose top is at its end. */
    static method SetFromStack(chars: string) returns (re: Regex)
      requires chars != ""
      ensures re == SetTree(chars)
    {
      var chStack := chars;
      var n := |chStack| - 1;
      re := Char(chStack[n]);
      chStack := chStack[..n];
      while chStack != []
        invariant chStack <= chars && |chStack| < |chars| && re == SetTree(chars[|chStack|..])
        decreases |chStack|
      {
        n := |chStack| - 1;
        var l := Char(chStack[n]);
        chStack := chStack[..n];
        re := Alt(l, re);
        assert chars[n..][1..] == chars[n + 1..];
      }
      assert chars[0..] == chars;
    }
  }
}
