/** Address decoding, what a trace adds up to, and how that depends on the number of lines. */
module CacheSpec {
  import opened LruSpec
  import opened PowersOfTwo

  type Address = nat

  /** x >> n and the n low bits of x. */
  function Shr(x: nat, n: nat): (q: nat) {
    Quotient(x, Pow2(n))
  }

  function LowBits(x: nat, n: nat): nat {
    x % Pow2(n)
  }

  function Quotient(x: nat, d: nat): (q: nat)
    requires d > 0
  {
    QuotientIsNat(x, d);
    x / d
  }

  lemma QuotientIsNat(x: nat, d: nat)
    requires d > 0
    ensures x / d >= 0
  {
    MulSign(d, x / d);
  }

  /** The s bits above the b block bits: mask the low s + b bits, shift right by b. */
  function SetBits(addr: Address, s: nat, b: nat): nat {
    Shr(LowBits(addr, s + b), b)
  }

  /** The bits above those. */
  function TagBits(addr: Address, s: nat, b: nat): Tag {
    Shr(addr, s + b)
  }

  /** An access with op 'I' is an instruction load, which the simulator skips. */
  datatype Access = Access(op: char, addr: Address)

  datatype Totals = Totals(hit: nat, miss: nat, eviction: nat)

  /** The tags a trace uses in set k, in order. */
  function History(trace: seq<Access>, k: nat, s: nat, b: nat): seq<Tag> {
    if trace == [] then []
    else
      var h, a := History(trace[..|trace| - 1], k, s, b), trace[|trace| - 1];
      if a.op != 'I' && SetBits(a.addr, s, b) == k then h + [TagBits(a.addr, s, b)] else h
  }

  /** Set k after the trace. */
  function SetLines(trace: seq<Access>, k: nat, s: nat, b: nat, E: nat): seq<Tag>
    requires 1 <= E
  {
    Lines(History(trace, k, s, b), E)
  }

  /** Whether the access a hits after the trace. */
  predicate Hits(trace: seq<Access>, a: Access, s: nat, b: nat, E: nat)
    requires 1 <= E
  {
    TagBits(a.addr, s, b) in SetLines(trace, SetBits(a.addr, s, b), s, b, E)
  }

  /** The effect of one access on the totals; 'M' is a load and a store, and the store always hits. */
  function Count(t: Totals, op: char, hit: bool, full: bool): Totals {
    if op == 'I' then t
    else
      var u := if hit then t.(hit := t.hit + 1)
               else if full then t.(miss := t.miss + 1, eviction := t.eviction + 1)
               else t.(miss := t.miss + 1);
      if op == 'M' then u.(hit := u.hit + 1) else u
  }

  function Sum(trace: seq<Access>, s: nat, b: nat, E: nat): Totals
    requires 1 <= E
  {
    if trace == [] then Totals(0, 0, 0)
    else
      var p, a := trace[..|trace| - 1], trace[|trace| - 1];
      Count(Sum(p, s, b, E), a.op, Hits(p, a, s, b, E), |SetLines(p, SetBits(a.addr, s, b), s, b, E)| == E)
  }

  lemma SumNothing(s: nat, b: nat, E: nat)
    requires 1 <= E
    ensures Sum([], s, b, E) == Totals(0, 0, 0)
  {
  }

  lemma SumStep(p: seq<Access>, a: Access, s: nat, b: nat, E: nat)
    requires 1 <= E
    ensures Sum(p + [a], s, b, E) ==
            Count(Sum(p, s, b, E), a.op, Hits(p, a, s, b, E), |SetLines(p, SetBits(a.addr, s, b), s, b, E)| == E)
  {
    hide Hits, SetLines;
    assert (p + [a])[..|p|] == p;
  }

  // ---------------------------------------------------------------- addresses

  lemma {:induction false} Pow2Adds(s: nat, b: nat)
    ensures Pow2(s + b) == Pow2(s) * Pow2(b)
  {
    if s == 0 {
    } else {
      Pow2Adds(s - 1, b);
      assert Pow2(s + b) == 2 * Pow2(s - 1 + b);
      var x, y := Pow2(s - 1), Pow2(b);
      assert Pow2(s) == 2 * x;
      hide Pow2;
      assert 2 * (x * y) == (2 * x) * y;
    }
  }

  lemma MulSign(d: int, q: int)
    ensures d > 0 && q < 0 ==> d * q <= -d
  {
  }

  lemma MulAtLeast(d: int, n: int)
    requires d > 0 && n >= 1
    ensures d * n >= d
  {
  }

  lemma MulDistributes(d: int, x: int, y: int)
    ensures d * (x - y) == d * x - d * y && d * (x + y) == d * x + d * y
  {
  }

  lemma SameQuotient(d: int, q: int, r: int, q': int, r': int)
    requires d > 0 && 0 <= r < d && 0 <= r' < d && d * q + r == d * q' + r'
    ensures q == q' && r == r'
  {
    MulDistributes(d, q, q');
    MulDistributes(d, q', q);
    if q > q' {
      MulAtLeast(d, q - q');
    } else if q < q' {
      MulAtLeast(d, q' - q);
    }
  }

  lemma DivUnique(x: int, d: int, q: int, r: int)
    requires d > 0 && x == d * q + r && 0 <= r < d
    ensures x / d == q && x % d == r
  {
    SameQuotient(d, q, r, x / d, x % d);
  }

  /** Cutting off Q and then P is cutting off P * Q. */
  lemma DivTwice(x: nat, P: nat, Q: nat)
    requires P > 0 && Q > 0
    ensures P * Q > 0 && x / (P * Q) == x / Q / P && x % (P * Q) / Q == x / Q % P
  {
    var q, r := x / Q, x % Q;
    var a, c := q / P, q % P;
    assert P * Q >= Q by { MulAtLeast(Q, P); }
    MulDistributes(Q, P * a, c);
    assert Q * (P * a) == P * Q * a;
    MulDistributes(Q, P - c, c);
    MulAtLeast(Q, P - c);
    DivUnique(x, P * Q, a, Q * c + r);
    DivUnique(Q * c + r, Q, c, r);
  }

  /** Set and tag are the remainder and the quotient of the block number. */
  lemma Decode(addr: Address, s: nat, b: nat)
    ensures SetBits(addr, s, b) == LowBits(Shr(addr, b), s)
    ensures TagBits(addr, s, b) == Shr(Shr(addr, b), s)
  {
    Pow2Adds(s, b);
    DivTwice(addr, Pow2(s), Pow2(b));
  }

  lemma SetBitsInRange(addr: Address, s: nat, b: nat)
    ensures SetBits(addr, s, b) < Pow2(s)
  {
    Decode(addr, s, b);
  }

  lemma SplitBits(u: nat, v: nat, n: nat)
    ensures u == v <==> LowBits(u, n) == LowBits(v, n) && Shr(u, n) == Shr(v, n)
  {
    assert u == Pow2(n) * Shr(u, n) + LowBits(u, n) && v == Pow2(n) * Shr(v, n) + LowBits(v, n);
  }

  /** Two addresses share set and tag exactly when they lie in the same block of 2^b bytes. */
  lemma SameBlock(x: Address, y: Address, s: nat, b: nat)
    ensures SetBits(x, s, b) == SetBits(y, s, b) && TagBits(x, s, b) == TagBits(y, s, b) <==>
            Shr(x, b) == Shr(y, b)
  {
    hide SetBits, TagBits, Shr, LowBits;
    Decode(x, s, b);
    Decode(y, s, b);
    SplitBits(Shr(x, b), Shr(y, b), s);
  }

  /** How one more access changes what a set holds. */
  lemma SetLinesStep(p: seq<Access>, a: Access, k: nat, s: nat, b: nat, E: nat)
    requires 1 <= E
    ensures SetLines(p + [a], k, s, b, E) ==
            if a.op != 'I' && SetBits(a.addr, s, b) == k then Touch(SetLines(p, k, s, b, E), TagBits(a.addr, s, b), E)
            else SetLines(p, k, s, b, E)
  {
    var h, t := History(p, k, s, b), TagBits(a.addr, s, b);
    assert (p + [a])[..|p|] == p && (h + [t])[..|h|] == h;
  }

  // ---------------------------------------------------------------- the number of lines

  /** Every access that hits with E lines per set hits with F >= E lines. */
  lemma HitsGrow(trace: seq<Access>, a: Access, s: nat, b: nat, E: nat, F: nat)
    requires 1 <= E <= F
    ensures Hits(trace, a, s, b, E) ==> Hits(trace, a, s, b, F)
  {
    Inclusion(History(trace, SetBits(a.addr, s, b), s, b), E, F);
  }

  /** So over a whole trace more lines never lose hits, nor gain misses or evictions. */
  lemma {:induction false} MoreLinesNeverHurt(trace: seq<Access>, s: nat, b: nat, E: nat, F: nat)
    requires 1 <= E <= F
    ensures Sum(trace, s, b, E).hit <= Sum(trace, s, b, F).hit
    ensures Sum(trace, s, b, E).miss >= Sum(trace, s, b, F).miss
    ensures Sum(trace, s, b, E).eviction >= Sum(trace, s, b, F).eviction
  {
    if trace == [] {
    } else {
      hide Hits, History, Lines, SetBits;
      var p, a := trace[..|trace| - 1], trace[|trace| - 1];
      MoreLinesNeverHurt(p, s, b, E, F);
      HitsGrow(p, a, s, b, E, F);
      FullWithFewer(History(p, SetBits(a.addr, s, b), s, b), E, F);
    }
  }

  // ---------------------------------------------------------------- conservation

  /** The lines in use in the sets below n. */
  function InUse(trace: seq<Access>, n: nat, s: nat, b: nat, E: nat): nat
    requires 1 <= E
  {
    if n == 0 then 0 else InUse(trace, n - 1, s, b, E) + |SetLines(trace, n - 1, s, b, E)|
  }

  lemma {:induction false} InUseStep(p: seq<Access>, a: Access, n: nat, s: nat, b: nat, E: nat)
    requires 1 <= E
    ensures var k, t := SetBits(a.addr, s, b), p + [a];
            InUse(t, n, s, b, E) ==
              InUse(p, n, s, b, E)
              + (if a.op != 'I' && k < n then |SetLines(t, k, s, b, E)| - |SetLines(p, k, s, b, E)| else 0)
  {
    hide SetLines, SetBits, TagBits, Touch;
    if n == 0 {
    } else {
      InUseStep(p, a, n - 1, s, b, E);
      SetLinesStep(p, a, n - 1, s, b, E);
    }
  }

  /** The set of an access grows by a line on a miss that evicts nothing. */
  lemma LinesAfterAccess(p: seq<Access>, a: Access, s: nat, b: nat, E: nat)
    requires 1 <= E
    ensures var k := SetBits(a.addr, s, b);
            var before := |SetLines(p, k, s, b, E)|;
            a.op != 'I' ==>
              |SetLines(p + [a], k, s, b, E)| == (if Hits(p, a, s, b, E) || before == E then before else before + 1)
  {
    var k := SetBits(a.addr, s, b);
    SetLinesStep(p, a, k, s, b, E);
    hide SetBits, TagBits, History, Lines;
    LinesAreMostRecent(History(p, k, s, b), E);
  }

  /** A line enters a set with a miss and leaves it with an eviction. */
  lemma {:induction false} Conservation(trace: seq<Access>, s: nat, b: nat, E: nat)
    requires 1 <= E
    ensures Sum(trace, s, b, E).eviction + InUse(trace, Pow2(s), s, b, E) == Sum(trace, s, b, E).miss
  {
    if trace == [] {
      NothingInUse(Pow2(s), s, b, E);
    } else {
      var p, a := trace[..|trace| - 1], trace[|trace| - 1];
      hide SetBits, Pow2, InUse, Hits, SetLines;
      assert trace == p + [a];
      Conservation(p, s, b, E);
      InUseStep(p, a, Pow2(s), s, b, E);
      SetBitsInRange(a.addr, s, b);
      LinesAfterAccess(p, a, s, b, E);
    }
  }

  lemma {:induction false} NothingInUse(n: nat, s: nat, b: nat, E: nat)
    requires 1 <= E
    ensures InUse([], n, s, b, E) == 0
  {
    if n == 0 {
    } else {
      NothingInUse(n - 1, s, b, E);
    }
  }
}
