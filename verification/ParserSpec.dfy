/** The recursive-descent parser as functions of the pattern and a position in it.  Each one aborts
    or delivers a result together with the position behind the text it read. */
module ParserSpec {
  import opened RegexAst

  datatype Parsed = Abort | Ok(re: Regex, iter: nat, group: nat)
  datatype Count = NoCount | Count(value: nat, iter: nat)
  datatype Bounds = NoBounds | Bounds(first: nat, second: nat, iter: nat)

  /** *iter: reading at the end of a string gives its terminating NUL. */
  function At(s: string, i: nat): char {
    if i < |s| then s[i] else NUL
  }

  predicate IsBlank(c: char) { c == ' ' || c == '\t' }

  predicate IsDigit(c: char) { '0' <= c <= '9' }

  /** The characters that may not start a factor. */
  predicate IsOp(c: char) { c == '*' || c == '+' || c == '?' || c == '{' }

  /** The characters at which a sequence of factors stops. */
  predicate EndsSeq(c: char) { c == NUL || c == '|' || c == ')' }

  function SkipBlanks(s: string, i: nat): (j: nat)
    requires i <= |s|
    ensures i <= j <= |s|
    decreases |s| - i
  {
    if IsBlank(At(s, i)) then SkipBlanks(s, i + 1) else i
  }

  /** The digits from i on are added up, not read as a decimal number. */
  function Digits(s: string, i: nat, sum: nat): (c: Count)
    requires i <= |s|
    ensures c.Count? && i <= c.iter <= |s|
    decreases |s| - i
  {
    if IsDigit(At(s, i)) then Digits(s, i + 1, sum + (s[i] as int - '0' as int)) else Count(sum, i)
  }

  function Num(s: string, i: nat): (c: Count)
    requires i <= |s|
    ensures c.Count? ==> i < c.iter < |s|
  {
    if !IsDigit(At(s, i)) then NoCount
    else
      var n := Digits(s, i, 0);
      var j := SkipBlanks(s, n.iter);
      if At(s, j) == ',' || At(s, j) == '}' then Count(n.value, j) else NoCount
  }

  /** The text between braces, from the character behind '{'. */
  function Range(s: string, i: nat): (b: Bounds)
    requires i <= |s|
    ensures b.Bounds? ==> i < b.iter <= |s|
  {
    var n1 := Num(s, SkipBlanks(s, i));
    if n1.NoCount? then NoBounds
    else if At(s, n1.iter) == '}' then Bounds(n1.value, n1.value, n1.iter + 1)
    else
      var n2 := Num(s, SkipBlanks(s, n1.iter + 1));
      if n2.NoCount? || At(s, n2.iter) != '}' then NoBounds
      else Bounds(n1.value, n2.value, n2.iter + 1)
  }

  /** cnt copies of re in sequence. */
  function Copies(cnt: nat, re: Regex): Regex {
    if cnt == 0 then Null else Seq(re, Copies(cnt - 1, re))
  }

  /** The alternatives low, low + 1, ..., high copies. */
  function Between(low: nat, high: nat, re: Regex): Regex
    requires low <= high
    decreases high - low
  {
    if low == high then Copies(high, re) else Alt(Copies(low, re), Between(low + 1, high, re))
  }

  function Counted(n1: nat, n2: nat, re: Regex): Regex {
    if n1 < n2 then Between(n1, n2, re) else Between(n2, n1, re)
  }

  /** The postfix operators from i on, applied to re. */
  function Ops(s: string, i: nat, re: Regex, group: nat): (p: Parsed)
    requires i <= |s|
    ensures p.Ok? ==> i <= p.iter <= |s| && !IsOp(At(s, p.iter)) && p.group == group
    decreases |s| - i
  {
    match At(s, i)
    case '*' => Ops(s, i + 1, Rep(re), group)
    case '+' => Ops(s, i + 1, Seq(re, Rep(re)), group)
    case '?' => Ops(s, i + 1, Alt(Null, re), group)
    case '{' =>
      var b := Range(s, i + 1);
      if b.NoBounds? then Abort else Ops(s, b.iter, Counted(b.first, b.second, re), group)
    case _ => Ok(re, i, group)
  }

  /** The first position from i on that holds ']' or the end of the pattern. */
  function SetEnd(s: string, i: nat): (j: nat)
    requires i <= |s|
    ensures i <= j <= |s| && (At(s, j) == NUL || At(s, j) == ']')
    decreases |s| - i
  {
    if At(s, i) == NUL || At(s, i) == ']' then i else SetEnd(s, i + 1)
  }

  function SetTree(chars: string): Regex
    requires chars != ""
  {
    if |chars| == 1 then Char(chars[0]) else Alt(Char(chars[0]), SetTree(chars[1..]))
  }

  /** From the character behind '['. */
  function CharSet(s: string, i: nat, group: nat): (p: Parsed)
    requires i <= |s|
    ensures p.Ok? ==> i < p.iter <= |s|
  {
    var j := SetEnd(s, i);
    if At(s, j) == NUL || j == i then Abort else Ok(SetTree(s[i..j]), j + 1, group)
  }

  /** From the character behind '('.  A captured group is numbered after those inside it. */
  function Captured(s: string, i: nat, group: nat): (p: Parsed)
    requires i <= |s|
    ensures p.Ok? ==> i < p.iter <= |s|
    decreases |s| - i, 4
  {
    if At(s, i) == '?' && At(s, i + 1) == ':' then
      var p := Re(s, i + 2, group);
      if p.Abort? || At(s, p.iter) != ')' then Abort else Ok(p.re, p.iter + 1, p.group)
    else
      var p := Re(s, i, group);
      if p.Abort? || At(s, p.iter) != ')' then Abort else Ok(Group(p.re, p.group + 1), p.iter + 1, p.group + 1)
  }

  function Atom(s: string, i: nat, group: nat): (p: Parsed)
    requires i <= |s| && At(s, i) != NUL
    ensures p.Ok? ==> i < p.iter <= |s|
    decreases |s| - i, 0
  {
    if IsOp(s[i]) then Abort
    else if s[i] == '(' then Captured(s, i + 1, group)
    else if s[i] == '[' then CharSet(s, i + 1, group)
    else Ok(Char(s[i]), i + 1, group)
  }

  function Factor(s: string, i: nat, group: nat): (p: Parsed)
    requires i <= |s| && At(s, i) != NUL
    ensures p.Ok? ==> i < p.iter <= |s| && !IsOp(At(s, p.iter))
    decreases |s| - i, 1
  {
    var a := Atom(s, i, group);
    if a.Abort? then Abort else Ops(s, a.iter, a.re, a.group)
  }

  function Sequence(s: string, i: nat, group: nat): (p: Parsed)
    requires i <= |s| && At(s, i) != NUL
    ensures p.Ok? ==> i < p.iter <= |s| && EndsSeq(At(s, p.iter))
    decreases |s| - i, 2
  {
    var first := Factor(s, i, group);
    if first.Abort? || EndsSeq(At(s, first.iter)) then first
    else
      var last := Sequence(s, first.iter, first.group);
      if last.Abort? then Abort else Ok(Seq(first.re, last.re), last.iter, last.group)
  }

  function Re(s: string, i: nat, group: nat): (p: Parsed)
    requires i <= |s|
    ensures p.Ok? ==> i < p.iter <= |s| && (At(s, p.iter) == NUL || At(s, p.iter) == ')')
    decreases |s| - i, 3
  {
    if At(s, i) == NUL || At(s, i) == '|' then Abort
    else
      var l := Sequence(s, i, group);
      if l.Abort? || At(s, l.iter) != '|' then l
      else
        var r := Re(s, l.iter + 1, l.group);
        if r.Abort? then Abort else Ok(Alt(l.re, r.re), r.iter, r.group)
  }

  /** Parsing a whole pattern.  Text behind an unmatched ')' is not looked at. */
  function Parse(s: string): Parsed {
    if s == "" then Ok(Null, 0, 0) else Re(s, 0, 0)
  }
}
