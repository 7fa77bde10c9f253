/** The pattern grammar as syntax trees: their text, their meaning, and what the desugared trees of the
    parser denote. */
module Grammar {
  import opened Language
  import opened RegexAst
  import opened ParserSpec

  /** <Num> with the blanks around it, as it was written. */
  datatype Number = Number(lead: string, digits: string, trail: string)

  /** <Op>. */
  datatype Op =
    | Star
    | Plus
    | Opt
    | Exactly(n: Number)
    | Range(n1: Number, n2: Number)

  /** <CapturedRe>, <CharSet> or <Char>. */
  datatype Atom =
    | Lit(c: char)
    | OneOf(chars: string)
    | Capture(re: Alts)
    | Uncaptured(re: Alts)

  /** <Seq>: the factors of one alternative. */
  datatype Factors =
    | Last(atom: Atom, ops: seq<Op>)
    | More(atom: Atom, ops: seq<Op>, rest: Factors)

  /** <Regex>: the alternatives. */
  datatype Alts =
    | One(factors: Factors)
    | Or(factors: Factors, rest: Alts)

  // ---------------------------------------------------------------- text

  function NumberText(n: Number): string {
    n.lead + (n.digits + n.trail)
  }

  function OpText(op: Op): string {
    match op
    case Star => "*"
    case Plus => "+"
    case Opt => "?"
    case Exactly(n) => "{" + (NumberText(n) + "}")
    case Range(n1, n2) => "{" + (NumberText(n1) + ("," + (NumberText(n2) + "}")))
  }

  function OpsText(ops: seq<Op>): string {
    if ops == [] then "" else OpText(ops[0]) + OpsText(ops[1..])
  }

  function AtomText(a: Atom): string {
    match a
    case Lit(c) => [c]
    case OneOf(chars) => "[" + (chars + "]")
    case Capture(re) => "(" + (AltsText(re) + ")")
    case Uncaptured(re) => "(?:" + (AltsText(re) + ")")
  }

  function FactorsText(f: Factors): string {
    match f
    case Last(a, ops) => AtomText(a) + OpsText(ops)
    case More(a, ops, rest) => AtomText(a) + (OpsText(ops) + FactorsText(rest))
  }

  function AltsText(t: Alts): string {
    match t
    case One(f) => FactorsText(f)
    case Or(f, rest) => FactorsText(f) + ("|" + AltsText(rest))
  }

  // ---------------------------------------------------------------- captured groups

  /** How many groups a pattern captures. */
  function AtomGroups(a: Atom): nat {
    match a
    case Lit(_) => 0
    case OneOf(_) => 0
    case Capture(re) => AltsGroups(re) + 1
    case Uncaptured(re) => AltsGroups(re)
  }

  function FactorsGroups(f: Factors): nat {
    match f
    case Last(a, _) => AtomGroups(a)
    case More(a, _, rest) => AtomGroups(a) + FactorsGroups(rest)
  }

  function AltsGroups(t: Alts): nat {
    match t
    case One(f) => FactorsGroups(f)
    case Or(f, rest) => FactorsGroups(f) + AltsGroups(rest)
  }

  // ---------------------------------------------------------------- well-formedness

  predicate Blank(s: string) { forall k :: 0 <= k < |s| ==> IsBlank(s[k]) }

  predicate Numeral(s: string) { s != "" && forall k :: 0 <= k < |s| ==> IsDigit(s[k]) }

  predicate NumberOk(n: Number) { Blank(n.lead) && Numeral(n.digits) && Blank(n.trail) }

  predicate OpOk(op: Op) {
    match op
    case Star => true
    case Plus => true
    case Opt => true
    case Exactly(n) => NumberOk(n)
    case Range(n1, n2) => NumberOk(n1) && NumberOk(n2)
  }

  predicate OpsOk(ops: seq<Op>) { forall k :: 0 <= k < |ops| ==> OpOk(ops[k]) }

  /** A literal is any character that means nothing else; ')' is one where an alternative starts. */
  predicate AtomOk(a: Atom, first: bool) {
    match a
    case Lit(c) => c != '(' && c != '[' && !IsOp(c) && c != NUL && c != '|' && (c == ')' ==> first)
    case OneOf(chars) => chars != "" && forall k :: 0 <= k < |chars| ==> chars[k] != NUL && chars[k] != ']'
    case Capture(re) => AltsOk(re)
    case Uncaptured(re) => AltsOk(re)
  }

  predicate FactorsOk(f: Factors, first: bool) {
    match f
    case Last(a, ops) => AtomOk(a, first) && OpsOk(ops)
    case More(a, ops, rest) => AtomOk(a, first) && OpsOk(ops) && FactorsOk(rest, false)
  }

  predicate AltsOk(t: Alts) {
    match t
    case One(f) => FactorsOk(f, true)
    case Or(f, rest) => FactorsOk(f, true) && AltsOk(rest)
  }

  // ---------------------------------------------------------------- meaning

  function DigitSum(d: string): nat
    requires forall k :: 0 <= k < |d| ==> IsDigit(d[k])
  {
    if d == "" then 0 else assert IsDigit(d[0]); (d[0] as int - '0' as int) + DigitSum(d[1..])
  }

  /** The number a numeral stands for. */
  function Decimal(d: string): nat
    requires forall k :: 0 <= k < |d| ==> IsDigit(d[k])
  {
    if d == "" then 0
    else
      assert IsDigit(d[|d| - 1]);
      10 * Decimal(d[..|d| - 1]) + (d[|d| - 1] as int - '0' as int)
  }

  predicate AllZero(d: string) { forall k :: 0 <= k < |d| ==> d[k] == '0' }

  lemma {:induction false} DigitSumLast(d: string)
    requires d != "" && forall k :: 0 <= k < |d| ==> IsDigit(d[k])
    ensures DigitSum(d) == DigitSum(d[..|d| - 1]) + (d[|d| - 1] as int - '0' as int)
  {
    if |d| == 1 {
    } else {
      DigitSumLast(d[1..]);
      assert d[1..][..|d| - 2] == d[..|d| - 1][1..];
    }
  }

  lemma {:induction false} DecimalAtLeastSum(d: string)
    requires forall k :: 0 <= k < |d| ==> IsDigit(d[k])
    ensures DigitSum(d) <= Decimal(d)
    ensures Decimal(d) == 0 <==> AllZero(d)
  {
    if d == "" {
    } else {
      DigitSumLast(d);
      DecimalAtLeastSum(d[..|d| - 1]);
      assert AllZero(d) <==> AllZero(d[..|d| - 1]) && d[|d| - 1] == '0';
    }
  }

  /** num adds the digits up, so a count means what it says only if all digits before the last are 0. */
  lemma CountIsDecimalIff(d: string)
    requires Numeral(d)
    ensures DigitSum(d) == Decimal(d) <==> AllZero(d[..|d| - 1])
  {
    DigitSumLast(d);
    DecimalAtLeastSum(d[..|d| - 1]);
  }

  /** The words of A repeated between low and high times. */
  ghost function Powers(A: Lang, low: nat, high: nat): Lang {
    iset w: string | InPowers(A, low, high, w)
  }

  ghost predicate InPowers(A: Lang, low: nat, high: nat, w: string) {
    exists k: nat :: low <= k <= high && w in Power(A, k)
  }

  /** The bounds of a range may come in either order. */
  ghost function PowersBetween(A: Lang, a: nat, b: nat): Lang {
    if a < b then Powers(A, a, b) else Powers(A, b, a)
  }

  ghost function OpMeaning(A: Lang, op: Op): Lang
    requires OpOk(op)
  {
    match op
    case Star => Language.Star(A)
    case Plus => Cat(A, Language.Star(A))
    case Opt => iset{""} + A
    case Exactly(n) => Power(A, DigitSum(n.digits))
    case Range(n1, n2) => PowersBetween(A, DigitSum(n1.digits), DigitSum(n2.digits))
  }

  ghost function OpsMeaning(A: Lang, ops: seq<Op>): Lang
    requires OpsOk(ops)
    decreases ops
  {
    if ops == [] then A else OpsMeaning(OpMeaning(A, ops[0]), ops[1..])
  }

  /** A set matches one of its characters; '.' in it still stands for every character. */
  ghost function AtomMeaning(a: Atom, first: bool): Lang
    requires AtomOk(a, first)
  {
    match a
    case Lit(c) => iset w: string | |w| == 1 && Accepts(c, w[0])
    case OneOf(chars) => iset w: string | |w| == 1 && exists k :: 0 <= k < |chars| && Accepts(chars[k], w[0])
    case Capture(re) => AltsMeaning(re)
    case Uncaptured(re) => AltsMeaning(re)
  }

  ghost function FactorsMeaning(f: Factors, first: bool): Lang
    requires FactorsOk(f, first)
  {
    match f
    case Last(a, ops) => OpsMeaning(AtomMeaning(a, first), ops)
    case More(a, ops, rest) => Cat(OpsMeaning(AtomMeaning(a, first), ops), FactorsMeaning(rest, false))
  }

  ghost function AltsMeaning(t: Alts): Lang
    requires AltsOk(t)
  {
    match t
    case One(f) => FactorsMeaning(f, true)
    case Or(f, rest) => FactorsMeaning(f, true) + AltsMeaning(rest)
  }

  // ---------------------------------------------------------------- desugaring keeps meaning

  lemma {:induction false} CopiesMeaning(cnt: nat, re: Regex)
    ensures L(Copies(cnt, re)) == Power(L(re), cnt)
  {
    if cnt == 0 {
    } else {
      CopiesMeaning(cnt - 1, re);
    }
  }

  lemma {:induction false} BetweenMeaning(low: nat, high: nat, re: Regex)
    requires low <= high
    ensures L(Between(low, high, re)) == Powers(L(re), low, high)
    decreases high - low
  {
    CopiesMeaning(low, re);
    if low == high {
    } else {
      BetweenMeaning(low + 1, high, re);
    }
    var A := L(re);
    forall w
      ensures w in Powers(A, low, high) <==> w in Power(A, low) || (low < high && w in Powers(A, low + 1, high))
    {
      if w in Powers(A, low, high) {
        var k: nat :| low <= k <= high && w in Power(A, k);
        assert k == low || low + 1 <= k <= high;
      }
    }
  }

  lemma {:induction false} SetMeaning(chars: string)
    requires chars != ""
    ensures L(SetTree(chars)) == iset w: string | |w| == 1 && exists k :: 0 <= k < |chars| && Accepts(chars[k], w[0])
  {
    if |chars| == 1 {
    } else {
      SetMeaning(chars[1..]);
      forall w: string | |w| == 1
        ensures (exists k :: 0 <= k < |chars| && Accepts(chars[k], w[0])) <==>
                Accepts(chars[0], w[0]) || exists k :: 0 <= k < |chars[1..]| && Accepts(chars[1..][k], w[0])
      {
        if k :| 0 <= k < |chars| && Accepts(chars[k], w[0]) {
          assert k > 0 ==> chars[1..][k - 1] == chars[k];
        }
      }
    }
  }
}
