/** The whole simulator: an array of sets and the loop over a trace. */
module Cache {
  import opened LruSpec
  import opened CacheSpec
  import opened PowersOfTwo
  import opened CacheSet

  class Cache {
    const sets: seq<Set>
    const s: nat
    const b: nat
    ghost const E: nat

    /** The lines of all sets. */
    ghost function AllLines(): set<Line>
      reads sets
    {
      set k, l | 0 <= k < |sets| && l in sets[k].repr :: l
    }

    ghost predicate Valid()
      reads sets, AllLines()
    {
      && 1 <= E && |sets| == Pow2(s)
      && (forall k :: 0 <= k < |sets| ==> sets[k].E == E && sets[k].Valid())
      && (forall j, k :: 0 <= j < k < |sets| ==> sets[j] != sets[k] && sets[j].repr !! sets[k].repr)
    }

    /** Every set holds what the trace leaves in it. */
    ghost predicate After(trace: seq<Access>)
      requires Valid()
      reads sets, AllLines()
    {
      forall k :: 0 <= k < |sets| ==> sets[k].Contents() == SetLines(trace, k, s, b, E)
    }

    constructor (bitsSets: nat, totalLinesPerSet: nat, bitsBlocksPerLine: nat)
      requires 1 <= totalLinesPerSet
      ensures s == bitsSets && b == bitsBlocksPerLine && E == totalLinesPerSet
      ensures Valid() && After([])
      ensures fresh(set k | 0 <= k < |sets| :: sets[k]) && fresh(AllLines())
    {
      var made := InitCacheSet(Pow2(bitsSets), totalLinesPerSet);
      sets := made;
      s, b, E := bitsSets, bitsBlocksPerLine, totalLinesPerSet;
    }

    static method InitCacheSet(totalSets: nat, totalLinesPerSet: nat) returns (made: seq<Set>)
      requires 1 <= totalLinesPerSet
      ensures |made| == totalSets
      ensures forall k :: 0 <= k < |made| ==> fresh(made[k]) && fresh(made[k].repr)
      ensures forall k :: 0 <= k < |made| ==>
        made[k].E == totalLinesPerSet && made[k].Valid() && made[k].Contents() == []
      ensures forall j, k :: 0 <= j < k < |made| ==> made[j] != made[k] && made[j].repr !! made[k].repr
    {
      hide Set.Valid, Set.Contents;
      made := [];
      for i := 0 to totalSets
        invariant |made| == i
        invariant forall k :: 0 <= k < i ==> fresh(made[k]) && fresh(made[k].repr)
        invariant forall k :: 0 <= k < i ==>
          made[k].E == totalLinesPerSet && made[k].Valid() && made[k].Contents() == []
        invariant forall j, k :: 0 <= j < k < i ==> made[j] != made[k] && made[j].repr !! made[k].repr
      {
        var cacheSet := new Set(totalLinesPerSet);
        made := made + [cacheSet];
      }
    }

    lemma LinesOf(k: nat)
      requires k < |sets|
      ensures sets[k].repr <= AllLines()
    {
    }

    twostate lemma SameLines()
      requires forall j :: 0 <= j < |sets| ==> sets[j].repr == old(sets[j].repr)
      ensures AllLines() == old(AllLines())
    {
    }

    /** The body of the loop, for one access that is not an instruction load. */
    method Access(k: nat, tag: Tag) returns (hit: bool, evicted: bool)
      requires Valid() && k < |sets|
      modifies sets[k], sets[k].repr
      ensures Valid() && AllLines() == old(AllLines())
      ensures hit <==> tag in old(sets[k].Contents())
      ensures evicted <==> !hit && |old(sets[k].Contents())| == E
      ensures sets[k].Contents() == Touch(old(sets[k].Contents()), tag, E)
      ensures forall j :: 0 <= j < |sets| && j != k ==> sets[j].Contents() == old(sets[j].Contents())
    {
      hide Set.Valid, Set.Contents, Touch;
      LinesOf(k);
      hit, evicted := sets[k].Access(tag);
      forall j | 0 <= j < |sets| && j != k
        ensures sets[j].Valid() && sets[j].Contents() == old(sets[j].Contents()) && sets[j].repr == old(sets[j].repr)
      {
        assert sets[j].repr !! sets[k].repr;
      }
      SameLines();
      hide AllLines;
    }

    /** An access other than an instruction load, behind the trace p. */
    method DataAccess(access: Access, ghost p: seq<Access>) returns (hit: bool, evicted: bool)
      requires Valid() && After(p) && access.op != 'I'
      modifies sets, AllLines()
      ensures Valid() && After(p + [access]) && AllLines() == old(AllLines())
      ensures hit <==> Hits(p, access, s, b, E)
      ensures evicted <==> !hit && |SetLines(p, SetBits(access.addr, s, b), s, b, E)| == E
    {
      var k := SetBits(access.addr, s, b);
      SetBitsInRange(access.addr, s, b);
      LinesOf(k);
      hide Valid, AllLines;
      hit, evicted := Access(k, TagBits(access.addr, s, b));
      hide SetLines, History, Touch;
      forall j | 0 <= j < |sets| ensures sets[j].Contents() == SetLines(p + [access], j, s, b, E) {
        SetLinesStep(p, access, j, s, b, E);
      }
    }

    /** An instruction load changes no set. */
    lemma InstructionLoad(access: Access, p: seq<Access>)
      requires Valid() && After(p) && access.op == 'I'
      ensures After(p + [access])
    {
      hide SetLines;
      forall j | 0 <= j < |sets| ensures sets[j].Contents() == SetLines(p + [access], j, s, b, E) {
        SetLinesStep(p, access, j, s, b, E);
      }
    }

    /** One line of the trace, behind the lines p. */
    method TraceLine(access: Access, before: Totals, ghost p: seq<Access>) returns (result: Totals)
      requires Valid() && After(p) && before == Sum(p, s, b, E)
      modifies sets, AllLines()
      ensures Valid() && After(p + [access]) && AllLines() == old(AllLines())
      ensures result == Sum(p + [access], s, b, E)
    {
      assert 1 <= E;
      hide Valid, AllLines, Hits, SetLines, After, Sum;
      SumStep(p, access, s, b, E);
      result := before;
      if access.op == 'I' {
        InstructionLoad(access, p);
        return;
      }
      var hit, evicted := DataAccess(access, p);
      if hit {
        result := result.(hit := result.hit + 1);
      } else {
        result := result.(miss := result.miss + 1);
        if evicted {
          result := result.(eviction := result.eviction + 1);
        }
      }
      if access.op == 'M' {
        result := result.(hit := result.hit + 1);
      }
    }

    method CacheTrace(trace: seq<Access>) returns (result: Totals)
      requires Valid() && After([])
      modifies sets, AllLines()
      ensures Valid() && After(trace)
      ensures result == Sum(trace, s, b, E)
    {
      result := Totals(0, 0, 0);
      assert 1 <= E && trace[..0] == [];
      hide Valid, AllLines, Hits, SetLines, After, Sum;
      SumNothing(s, b, E);
      for i := 0 to |trace|
        invariant Valid() && AllLines() == old(AllLines())
        invariant After(trace[..i]) && result == Sum(trace[..i], s, b, E)
      {
        assert trace[..i + 1] == trace[..i] + [trace[i]];
        result := TraceLine(trace[i], result, trace[..i]);
      }
      assert trace[..|trace|] == trace;
    }
  }
}
