/** What the totals of the simulator count, and when an access hits, said of the trace alone. */
module CacheLaws {
  import opened Cardinality
  import opened LruSpec
  import opened CacheSpec

  ghost function MissesAt(trace: seq<Access>, s: nat, b: nat, E: nat): set<nat>
    requires 1 <= E
  {
    set i | 0 <= i < |trace| && trace[i].op != 'I' && !Hits(trace[..i], trace[i], s, b, E)
  }

  ghost function HitsAt(trace: seq<Access>, s: nat, b: nat, E: nat): set<nat>
    requires 1 <= E
  {
    set i | 0 <= i < |trace| && trace[i].op != 'I' && Hits(trace[..i], trace[i], s, b, E)
  }

  /** The misses in a set whose lines are all in use. */
  ghost function EvictionsAt(trace: seq<Access>, s: nat, b: nat, E: nat): set<nat>
    requires 1 <= E
  {
    set i | 0 <= i < |trace| && i in MissesAt(trace, s, b, E)
            && |SetLines(trace[..i], SetBits(trace[i].addr, s, b), s, b, E)| == E
  }

  ghost function ModifiesAt(trace: seq<Access>): set<nat> {
    set i | 0 <= i < |trace| && trace[i].op == 'M'
  }

  ghost function AccessesAt(trace: seq<Access>): set<nat> {
    set i | 0 <= i < |trace| && trace[i].op != 'I'
  }

  ghost function Last(n: nat, here: bool): set<nat> {
    if here then {n} else {}
  }

  /** How the places grow with one more line. */
  lemma PlacesGrow(p: seq<Access>, a: Access, s: nat, b: nat, E: nat)
    requires 1 <= E
    ensures var t, n, hit := p + [a], |p|, Hits(p, a, s, b, E);
            && MissesAt(t, s, b, E) == MissesAt(p, s, b, E) + Last(n, a.op != 'I' && !hit)
            && HitsAt(t, s, b, E) == HitsAt(p, s, b, E) + Last(n, a.op != 'I' && hit)
            && EvictionsAt(t, s, b, E) == EvictionsAt(p, s, b, E)
                 + Last(n, a.op != 'I' && !hit && |SetLines(p, SetBits(a.addr, s, b), s, b, E)| == E)
            && ModifiesAt(t) == ModifiesAt(p) + Last(n, a.op == 'M')
  {
    hide Hits, SetLines, SetBits;
    var t := p + [a];
    assert t[..|p|] == p;
    assert forall i :: 0 <= i < |p| ==> t[..i] == p[..i] && t[i] == p[i];
  }

  lemma PlacesAreBefore(trace: seq<Access>, s: nat, b: nat, E: nat)
    requires 1 <= E
    ensures |trace| !in MissesAt(trace, s, b, E) && |trace| !in HitsAt(trace, s, b, E)
    ensures |trace| !in EvictionsAt(trace, s, b, E) && |trace| !in ModifiesAt(trace)
  {
  }

  lemma OneMore(S: set<nat>, n: nat, here: bool)
    requires n !in S
    ensures |S + Last(n, here)| == |S| + if here then 1 else 0
  {
  }

  lemma CountIs(t: Totals, op: char, hit: bool, full: bool)
    ensures var u := Count(t, op, hit, full);
            && u.miss == t.miss + (if op != 'I' && !hit then 1 else 0)
            && u.hit == t.hit + (if op != 'I' && hit then 1 else 0) + (if op == 'M' then 1 else 0)
            && u.eviction == t.eviction + (if op != 'I' && !hit && full then 1 else 0)
  {
  }

  /** Counting one more line is adding its place to the sets it belongs to. */
  lemma CountAdds(t: Totals, misses: set<nat>, hits: set<nat>, evictions: set<nat>, modified: set<nat>,
                  n: nat, op: char, hit: bool, full: bool)
    requires n !in misses && n !in hits && n !in evictions && n !in modified
    requires t.miss == |misses| && t.hit == |hits| + |modified| && t.eviction == |evictions|
    ensures var u := Count(t, op, hit, full);
            && u.miss == |misses + Last(n, op != 'I' && !hit)|
            && u.hit == |hits + Last(n, op != 'I' && hit)| + |modified + Last(n, op == 'M')|
            && u.eviction == |evictions + Last(n, op != 'I' && !hit && full)|
  {
    hide Count, Last;
    CountIs(t, op, hit, full);
    OneMore(misses, n, op != 'I' && !hit);
    OneMore(hits, n, op != 'I' && hit);
    OneMore(evictions, n, op != 'I' && !hit && full);
    OneMore(modified, n, op == 'M');
  }

  /** The totals count the hits, the misses and the evictions of a trace; a modify is one more hit. */
  lemma {:induction false} TotalsCount(trace: seq<Access>, s: nat, b: nat, E: nat)
    requires 1 <= E
    ensures Sum(trace, s, b, E).miss == |MissesAt(trace, s, b, E)|
    ensures Sum(trace, s, b, E).hit == |HitsAt(trace, s, b, E)| + |ModifiesAt(trace)|
    ensures Sum(trace, s, b, E).eviction == |EvictionsAt(trace, s, b, E)|
  {
    if trace == [] {
      SumNothing(s, b, E);
    } else {
      hide Sum, Count, Hits, SetLines, SetBits, MissesAt, HitsAt, EvictionsAt, ModifiesAt, Last;
      var p, a := trace[..|trace| - 1], trace[|trace| - 1];
      assert trace == p + [a];
      TotalsCount(p, s, b, E);
      PlacesAreBefore(p, s, b, E);
      CountAdds(Sum(p, s, b, E), MissesAt(p, s, b, E), HitsAt(p, s, b, E), EvictionsAt(p, s, b, E), ModifiesAt(p),
                |p|, a.op, Hits(p, a, s, b, E), |SetLines(p, SetBits(a.addr, s, b), s, b, E)| == E);
      PlacesGrow(p, a, s, b, E);
      SumStep(p, a, s, b, E);
    }
  }

  /** Every access that is not an instruction load hits or misses, and a modify hits once more. */
  lemma NothingIsLost(trace: seq<Access>, s: nat, b: nat, E: nat)
    requires 1 <= E
    ensures Sum(trace, s, b, E).hit + Sum(trace, s, b, E).miss == |AccessesAt(trace)| + |ModifiesAt(trace)|
  {
    TotalsCount(trace, s, b, E);
    var hits, misses := HitsAt(trace, s, b, E), MissesAt(trace, s, b, E);
    assert AccessesAt(trace) == hits + misses;
    assert hits !! misses;
  }

  // ---------------------------------------------------------------- when an access hits

  /** The tags used since t was used last. */
  ghost function Since(h: seq<Tag>, t: Tag): set<Tag> {
    set k | LastUse(h, t) < k < |h| :: h[k]
  }

  lemma {:induction false} LastUseIsLast(h: seq<Tag>, t: Tag, i: nat)
    requires i < |h| && h[i] == t
    ensures LastUse(h, t) >= i
  {
  }

  lemma SinceIsLater(h: seq<Tag>, t: Tag, x: Tag)
    ensures x in Since(h, t) <==> x in h && LastUse(h, x) > LastUse(h, t)
  {
    if x in Since(h, t) {
      var k :| LastUse(h, t) < k < |h| && h[k] == x;
      LastUseIsLast(h, x, k);
    }
    if x in h {
      UsedTagHasUse(h, x);
    }
  }

  lemma UsedTagHasUse(h: seq<Tag>, x: Tag)
    requires x in h
    ensures LastUse(h, x) >= 0 && h[LastUse(h, x)] == x
  {
    var i :| 0 <= i < |h| && h[i] == x;
    LastUseIsLast(h, x, i);
  }

  /** The tags ahead of the k-th of the recency list are those used since it was. */
  lemma AheadIsSince(h: seq<Tag>, k: nat)
    requires k < |Recency(h)|
    ensures Members(Recency(h)[..k]) == Since(h, Recency(h)[k])
  {
    RecencySpec(h);
    var r := Recency(h);
    hide Recency, Since, LastUse;
    forall x ensures x in r[..k] <==> x in Since(h, r[k]) {
      SinceIsLater(h, r[k], x);
      if x in h {
        var i :| 0 <= i < |r| && r[i] == x;
        assert i < k ==> r[..k][i] == x;
      }
    }
  }

  lemma TakeHolds(l: seq<Tag>, k: nat, n: nat)
    requires Distinct(l) && k < |l|
    ensures l[k] in Take(l, n) <==> k < n
  {
    assert k < n <= |l| ==> l[..n][k] == l[k];
  }

  /** A set with E lines holds a tag exactly when it was used and fewer than E others were used since. */
  lemma HeldIff(h: seq<Tag>, t: Tag, E: nat)
    requires 1 <= E
    ensures t in Lines(h, E) <==> t in h && |Since(h, t)| < E
  {
    LinesAreMostRecent(h, E);
    RecencySpec(h);
    hide Lines, Recency, Since, LastUse, Members;
    var r := Recency(h);
    if t in h {
      var k :| 0 <= k < |r| && r[k] == t;
      AheadIsSince(h, k);
      MembersCount(r[..k]);
      TakeHolds(r, k, E);
    } else {
      TakeIsPart(r, E, t);
    }
  }

  lemma TakeIsPart(l: seq<Tag>, n: nat, t: Tag)
    ensures t in Take(l, n) ==> t in l
  {
  }

  /** Line i of the trace uses tag t of set k. */
  predicate UsedAt(trace: seq<Access>, i: nat, k: nat, t: Tag, s: nat, b: nat)
    requires i < |trace|
  {
    trace[i].op != 'I' && SetBits(trace[i].addr, s, b) == k && TagBits(trace[i].addr, s, b) == t
  }

  ghost predicate Used(trace: seq<Access>, k: nat, t: Tag, s: nat, b: nat) {
    exists i :: 0 <= i < |trace| && UsedAt(trace, i, k, t, s, b)
  }

  /** The tags of set k that are used from a line on behind which t is not used any more. */
  ghost predicate UsedSince(trace: seq<Access>, k: nat, t: Tag, x: Tag, s: nat, b: nat) {
    exists i :: 0 <= i < |trace| && UsedAt(trace, i, k, x, s, b)
                && forall j :: i <= j < |trace| ==> !UsedAt(trace, j, k, t, s, b)
  }

  lemma UsedStep(p: seq<Access>, a: Access, k: nat, t: Tag, s: nat, b: nat)
    ensures Used(p + [a], k, t, s, b) <==> Used(p, k, t, s, b) || UsedAt(p + [a], |p|, k, t, s, b)
  {
    SamePlaces(p, a, k, t, s, b);
    hide UsedAt;
    if i :| 0 <= i < |p| && UsedAt(p, i, k, t, s, b) {
      assert UsedAt(p + [a], i, k, t, s, b);
    }
  }

  lemma UsedSinceStep(p: seq<Access>, a: Access, k: nat, t: Tag, x: Tag, s: nat, b: nat)
    ensures UsedSince(p + [a], k, t, x, s, b) <==>
            !UsedAt(p + [a], |p|, k, t, s, b) && (UsedSince(p, k, t, x, s, b) || UsedAt(p + [a], |p|, k, x, s, b))
  {
    SamePlaces(p, a, k, t, s, b);
    SamePlaces(p, a, k, x, s, b);
    hide UsedAt;
    var q := p + [a];
    if !UsedAt(q, |p|, k, t, s, b) && UsedSince(p, k, t, x, s, b) {
      var i :| 0 <= i < |p| && UsedAt(p, i, k, x, s, b) && forall j :: i <= j < |p| ==> !UsedAt(p, j, k, t, s, b);
      assert UsedAt(q, i, k, x, s, b);
    }
  }

  lemma SamePlaces(p: seq<Access>, a: Access, k: nat, t: Tag, s: nat, b: nat)
    ensures forall i :: 0 <= i < |p| ==> (UsedAt(p + [a], i, k, t, s, b) <==> UsedAt(p, i, k, t, s, b))
  {
  }

  lemma LastUseStep(h: seq<Tag>, y: Tag, t: Tag)
    ensures LastUse(h + [y], t) == if y == t then |h| else LastUse(h, t)
  {
    assert (h + [y])[..|h|] == h;
  }

  lemma SinceStep(h: seq<Tag>, y: Tag, t: Tag, x: Tag)
    ensures x in Since(h + [y], t) <==> y != t && (x in Since(h, t) || x == y)
  {
    LastUseStep(h, y, t);
    hide LastUse;
    var n := LastUse(h, t);
    if y != t {
      assert (h + [y])[|h|] == y;
      assert forall k :: n < k < |h| ==> (h + [y])[k] == h[k];
    }
  }

  lemma HistoryStep(p: seq<Access>, a: Access, k: nat, s: nat, b: nat)
    ensures History(p + [a], k, s, b) ==
            History(p, k, s, b) + if a.op != 'I' && SetBits(a.addr, s, b) == k then [TagBits(a.addr, s, b)] else []
  {
    assert (p + [a])[..|p|] == p;
  }

  /** The history of a set says which lines of the trace use it. */
  lemma {:induction false} HistoryIs(trace: seq<Access>, k: nat, t: Tag, x: Tag, s: nat, b: nat)
    ensures var h := History(trace, k, s, b);
            && (t in h <==> Used(trace, k, t, s, b))
            && (x in Since(h, t) <==> UsedSince(trace, k, t, x, s, b))
  {
    if trace == [] {
    } else {
      hide History, SetBits, TagBits, Since, Used, UsedSince;
      var p, a := trace[..|trace| - 1], trace[|trace| - 1];
      assert trace == p + [a];
      HistoryIs(p, k, t, x, s, b);
      HistoryStep(p, a, k, s, b);
      UsedStep(p, a, k, t, s, b);
      UsedSinceStep(p, a, k, t, x, s, b);
      SinceStep(History(p, k, s, b), TagBits(a.addr, s, b), t, x);
    }
  }

  /** So an access hits exactly when its tag was used in its set before, with fewer than E others since. */
  lemma HitsIffReused(trace: seq<Access>, a: Access, s: nat, b: nat, E: nat, since: set<Tag>)
    requires 1 <= E
    requires forall x :: x in since <==> UsedSince(trace, SetBits(a.addr, s, b), TagBits(a.addr, s, b), x, s, b)
    ensures Hits(trace, a, s, b, E) <==>
            Used(trace, SetBits(a.addr, s, b), TagBits(a.addr, s, b), s, b) && |since| < E
  {
    var k, t := SetBits(a.addr, s, b), TagBits(a.addr, s, b);
    var h := History(trace, k, s, b);
    hide History, SetBits, TagBits, Lines, Used, UsedSince, Since;
    HeldIff(h, t, E);
    HistoryIs(trace, k, t, t, s, b);
    forall x ensures x in since <==> x in Since(h, t) {
      HistoryIs(trace, k, t, x, s, b);
    }
    assert since == Since(h, t);
  }
}
