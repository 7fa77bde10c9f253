/** Orders along a gap, and why sorting along one gap keeps the order along another. */
module GapOrder {
  import opened Comparable

  /** Elements h apart are in order. */
  ghost predicate Ordered<T>(a: seq<T>, h: nat, cmp: (T, T) -> bool) {
    forall i :: 0 <= i && i + h < |a| ==> !cmp(a[i + h], a[i])
  }

  /** How many of a[s], a[s + h], a[s + 2h], ... are at most t. */
  ghost function Count<T>(a: seq<T>, s: nat, h: nat, t: T, cmp: (T, T) -> bool): nat
    requires h > 0
    decreases |a| - s
  {
    if s >= |a| then 0 else (if cmp(t, a[s]) then 0 else 1) + Count(a, s + h, h, t, cmp)
  }

  /** Each of the h columns of b has as many elements below every bound as that of a. */
  ghost predicate SameColumns<T(!new)>(a: seq<T>, b: seq<T>, h: nat, cmp: (T, T) -> bool)
    requires h > 0
  {
    |a| == |b| && forall s: nat, t :: s < h ==> Count(a, s, h, t, cmp) == Count(b, s, h, t, cmp)
  }

  // ---------------------------------------------------------------- exchanging neighbours of a column

  lemma {:induction false} CountTail<T>(a: seq<T>, b: seq<T>, s: nat, h: nat, t: T, cmp: (T, T) -> bool)
    requires h > 0 && |a| == |b| && forall k :: s <= k < |a| ==> a[k] == b[k]
    ensures Count(a, s, h, t, cmp) == Count(b, s, h, t, cmp)
    decreases |a| - s
  {
    if s >= |a| {
    } else {
      CountTail(a, b, s + h, h, t, cmp);
    }
  }

  /** b is a with the neighbours x and x + h of one column exchanged. */
  ghost predicate Exchanged<T>(a: seq<T>, b: seq<T>, x: nat, h: nat) {
    && |a| == |b| && x + h < |a| && b[x] == a[x + h] && b[x + h] == a[x]
    && forall k :: 0 <= k < |a| && k != x && k != x + h ==> b[k] == a[k]
  }

  lemma {:induction false} CountExchanged<T>(a: seq<T>, b: seq<T>, x: nat, s: nat, h: nat, t: T, cmp: (T, T) -> bool)
    requires h > 0 && Exchanged(a, b, x, h) && s <= x
    ensures Count(a, s, h, t, cmp) == Count(b, s, h, t, cmp)
    decreases x - s
  {
    if s == x {
      CountTail(a, b, x + h + h, h, t, cmp);
      assert Count(a, x, h, t, cmp) == (if cmp(t, a[x]) then 0 else 1) + Count(a, x + h, h, t, cmp);
      assert Count(b, x, h, t, cmp) == (if cmp(t, b[x]) then 0 else 1) + Count(b, x + h, h, t, cmp);
    } else if s + h <= x {
      CountExchanged(a, b, x, s + h, h, t, cmp);
    } else {
      CountTail(a, b, s + h + h, h, t, cmp);
      assert x < s + h < x + h;
    }
  }

  lemma ExchangedColumns<T(!new)>(a: seq<T>, b: seq<T>, x: nat, h: nat, cmp: (T, T) -> bool)
    requires h > 0 && Exchanged(a, b, x, h)
    ensures SameColumns(a, b, h, cmp)
  {
    forall s: nat, t | s < h ensures Count(a, s, h, t, cmp) == Count(b, s, h, t, cmp) {
      if s <= x {
        CountExchanged(a, b, x, s, h, t, cmp);
      } else {
        CountTail(a, b, s + h, h, t, cmp);
      }
    }
  }

  lemma ExchangedMultiset<T>(a: seq<T>, b: seq<T>, x: nat, h: nat)
    requires h > 0 && Exchanged(a, b, x, h)
    ensures multiset(a) == multiset(b)
  {
    assert b == a[x := a[x + h]][x + h := a[x]];
  }

  // ---------------------------------------------------------------- counting along ordered columns

  /** Above an element greater than t, an ordered column has nothing at most t. */
  lemma {:induction false} NoneAbove<T(!new)>(b: seq<T>, i: nat, h: nat, t: T, cmp: (T, T) -> bool)
    requires h > 0 && StrictWeak(cmp) && Ordered(b, h, cmp) && i < |b| && cmp(t, b[i])
    ensures Count(b, i, h, t, cmp) == 0
    decreases |b| - i
  {
    if i + h >= |b| {
    } else {
      assert cmp(t, b[i + h]);
      NoneAbove(b, i + h, h, t, cmp);
    }
  }

  lemma {:induction false} CountAtMost<T(!new)>(b: seq<T>, s: nat, p: nat, i: nat, h: nat, t: T, cmp: (T, T) -> bool)
    requires h > 0 && StrictWeak(cmp) && Ordered(b, h, cmp) && i < |b| && cmp(t, b[i]) && i == s + p * h
    ensures Count(b, s, h, t, cmp) <= p
    decreases p
  {
    if p == 0 {
      NoneAbove(b, i, h, t, cmp);
    } else {
      assert s + h + (p - 1) * h == i;
      CountAtMost(b, s + h, p - 1, i, h, t, cmp);
      assert s <= i by { assert p * h >= 0; }
    }
  }

  /** Below an element at most t, everything in an ordered column is at most t. */
  lemma {:induction false} CountAtLeast<T(!new)>(b: seq<T>, r: nat, q: nat, j: nat, h: nat, t: T, cmp: (T, T) -> bool)
    requires h > 0 && StrictWeak(cmp) && Ordered(b, h, cmp) && j < |b| && !cmp(t, b[j]) && j == r + q * h
    ensures Count(b, r, h, t, cmp) >= q + 1 && r < |b| && !cmp(t, b[r])
    decreases q
  {
    if q == 0 {
    } else {
      assert r + h + (q - 1) * h == j;
      CountAtLeast(b, r + h, q - 1, j, h, t, cmp);
    }
  }

  /** Along an order with gap g, the column g further on has no more elements at most t. */
  lemma {:induction false} CountShift<T(!new)>(a: seq<T>, s: nat, g: nat, h: nat, t: T, cmp: (T, T) -> bool)
    requires h > 0 && StrictWeak(cmp) && Ordered(a, g, cmp)
    ensures Count(a, s, h, t, cmp) >= Count(a, s + g, h, t, cmp)
    decreases |a| - s
  {
    if s + g >= |a| {
    } else {
      CountShift(a, s + h, g, h, t, cmp);
    }
  }

  /** Skipping m elements of a column loses at most m. */
  lemma {:induction false} CountSkip<T>(a: seq<T>, r: nat, m: nat, h: nat, t: T, cmp: (T, T) -> bool)
    requires h > 0
    ensures m * h >= 0 && Count(a, r, h, t, cmp) <= m + Count(a, r + m * h, h, t, cmp)
    decreases m
  {
    if m == 0 {
    } else {
      CountSkip(a, r + h, m - 1, h, t, cmp);
      assert r + h + (m - 1) * h == r + m * h;
    }
  }

  lemma {:induction false} ColumnOf(i: nat, h: nat) returns (s: nat, p: nat)
    requires h > 0
    ensures s < h && i == s + p * h
    decreases i
  {
    if i < h {
      s, p := i, 0;
    } else {
      s, p := ColumnOf(i - h, h);
      assert p * h + h == (p + 1) * h;
      p := p + 1;
    }
  }

  lemma LaterColumn(s: nat, p: nat, r: nat, q: nat, g: nat, h: nat)
    requires s < h && r < h && s + p * h + g == r + q * h
    ensures q >= p && r + (q - p) * h == s + g
  {
    assert (q - p) * h == q * h - p * h;
    if q < p {
      Negative(q - p, h);
    }
  }

  lemma Negative(d: int, h: int)
    ensures d < 0 && h > 0 ==> d * h <= -h
  {
  }

  /** Sorting the h columns keeps the order along every other gap g. */
  lemma SortingKeepsOrder<T(!new)>(a: seq<T>, b: seq<T>, h: nat, g: nat, cmp: (T, T) -> bool)
    requires h > 0 && StrictWeak(cmp) && SameColumns(a, b, h, cmp) && Ordered(b, h, cmp) && Ordered(a, g, cmp)
    ensures Ordered(b, g, cmp)
  {
    forall i: nat | i + g < |b| ensures !cmp(b[i + g], b[i]) {
      if cmp(b[i + g], b[i]) {
        var t := b[i + g];
        var s, p := ColumnOf(i, h);
        var r, q := ColumnOf(i + g, h);
        LaterColumn(s, p, r, q, g, h);
        CountAtMost(b, s, p, i, h, t, cmp);
        CountAtLeast(b, r, q, i + g, h, t, cmp);
        CountShift(a, s, g, h, t, cmp);
        CountSkip(a, r, q - p, h, t, cmp);
        assert false;
      }
    }
  }

  /** Order along the gap 1 is sortedness. */
  lemma {:induction false} OrderedOne<T(!new)>(a: seq<T>, i: nat, j: nat, cmp: (T, T) -> bool)
    requires StrictWeak(cmp) && Ordered(a, 1, cmp) && i <= j < |a|
    ensures !cmp(a[j], a[i])
    decreases j - i
  {
    if i == j {
    } else {
      OrderedOne(a, i, j - 1, cmp);
      assert !cmp(a[(j - 1) + 1], a[j - 1]);
    }
  }
}

/** Shell sort in place. */
module ShellSort {
  import opened Comparable
  import opened GapOrder

  /** Order along h on the first n elements, except between j - h and j. */
  ghost predicate OrderedBut<T>(v: seq<T>, n: nat, j: nat, h: nat, cmp: (T, T) -> bool) {
    && n <= |v| && j < n
    && (forall k :: 0 <= k && k + h < n && k + h != j ==> !cmp(v[k + h], v[k]))
    && (j >= h && j + h < n ==> !cmp(v[j + h], v[j - h]))
  }

  lemma FirstHole<T(!new)>(v: seq<T>, i: nat, h: nat, cmp: (T, T) -> bool)
    requires 0 < h <= i < |v| && Ordered(v[..i], h, cmp)
    ensures OrderedBut(v, i + 1, i, h, cmp)
  {
    forall k | 0 <= k && k + h < i ensures !cmp(v[k + h], v[k]) {
      assert !cmp(v[..i][k + h], v[..i][k]);
    }
  }

  lemma HoleMoves<T(!new)>(v: seq<T>, v': seq<T>, n: nat, j: nat, h: nat, cmp: (T, T) -> bool)
    requires StrictWeak(cmp) && h > 0 && OrderedBut(v, n, j, h, cmp) && j >= h
    requires cmp(v[j], v[j - h]) && Exchanged(v, v', j - h, h)
    ensures OrderedBut(v', n, j - h, h, cmp)
  {
    forall k | 0 <= k && k + h < n && k + h != j - h ensures !cmp(v'[k + h], v'[k]) {
      if k + h == j {
        assert k == j - h;
      } else if k == j {
      } else {
        assert k != j - h && v'[k] == v[k] && v'[k + h] == v[k + h];
      }
    }
  }

  lemma HoleFits<T(!new)>(v: seq<T>, n: nat, j: nat, h: nat, cmp: (T, T) -> bool)
    requires OrderedBut(v, n, j, h, cmp) && (j >= h ==> !cmp(v[j], v[j - h]))
    ensures Ordered(v[..n], h, cmp)
  {
    forall k | 0 <= k && k + h < n ensures !cmp(v[..n][k + h], v[..n][k]) {
      assert k + h == j ==> k == j - h;
    }
  }

  lemma ColumnsTrans<T(!new)>(a: seq<T>, b: seq<T>, c: seq<T>, h: nat, cmp: (T, T) -> bool)
    requires h > 0 && SameColumns(a, b, h, cmp) && SameColumns(b, c, h, cmp)
    ensures SameColumns(a, c, h, cmp)
  {
  }

  /** The inner loop: inserts the element at i among those h, 2h, ... before it. */
  method Insert<T(!new)>(a: array<T>, i: nat, h: nat, cmp: (T, T) -> bool)
    requires StrictWeak(cmp) && 0 < h <= i < a.Length && Ordered(a[..i], h, cmp)
    modifies a
    ensures Ordered(a[..i + 1], h, cmp)
    ensures SameColumns(old(a[..]), a[..], h, cmp) && multiset(a[..]) == multiset(old(a[..]))
  {
    hide StrictWeak, Ordered, Inserting;
    var target := a[i];
    var j := i;
    ghost var start, v := a[..], a[..];
    InsertingFirst(start, i, h, cmp);
    while j >= h
      invariant 0 <= j <= i && |v| == a.Length && v[j] == target
      invariant forall k :: 0 <= k < a.Length && k != j ==> a[k] == v[k]
      invariant Inserting(start, v, i, j, h, cmp)
    {
      if cmp(target, a[j - h]) {
        a[j] := a[j - h];
      } else {
        break;
      }
      ghost var v' := v[j := v[j - h]][j - h := target];
      InsertingNext(start, v, v', i, j, h, cmp);
      v := v';
      j := j - h;
    }
    a[j] := target;
    assert a[..] == v;
    InsertingLast(start, v, i, j, h, cmp);
  }

  /** v is start with the element at i moved down to j, ordered but for the place of that element. */
  ghost predicate Inserting<T(!new)>(start: seq<T>, v: seq<T>, i: nat, j: nat, h: nat, cmp: (T, T) -> bool)
    requires h > 0
  {
    OrderedBut(v, i + 1, j, h, cmp) && SameColumns(start, v, h, cmp) && multiset(v) == multiset(start)
  }

  lemma InsertingFirst<T(!new)>(start: seq<T>, i: nat, h: nat, cmp: (T, T) -> bool)
    requires StrictWeak(cmp) && 0 < h <= i < |start| && Ordered(start[..i], h, cmp)
    ensures Inserting(start, start, i, i, h, cmp)
  {
    hide StrictWeak, Ordered, OrderedBut, SameColumns;
    FirstHole(start, i, h, cmp);
    ColumnsSelf(start, h, cmp);
  }

  lemma InsertingNext<T(!new)>(start: seq<T>, v: seq<T>, v': seq<T>, i: nat, j: nat, h: nat, cmp: (T, T) -> bool)
    requires StrictWeak(cmp) && 0 < h <= j <= i < |v| && Inserting(start, v, i, j, h, cmp)
    requires cmp(v[j], v[j - h]) && v' == v[j := v[j - h]][j - h := v[j]]
    ensures Inserting(start, v', i, j - h, h, cmp)
  {
    hide StrictWeak, OrderedBut, SameColumns;
    assert Exchanged(v, v', j - h, h);
    HoleMoves(v, v', i + 1, j, h, cmp);
    ExchangedColumns(v, v', j - h, h, cmp);
    ColumnsTrans(start, v, v', h, cmp);
    ExchangedMultiset(v, v', j - h, h);
  }

  lemma InsertingLast<T(!new)>(start: seq<T>, v: seq<T>, i: nat, j: nat, h: nat, cmp: (T, T) -> bool)
    requires StrictWeak(cmp) && 0 < h && j <= i < |v| && Inserting(start, v, i, j, h, cmp)
    requires j >= h ==> !cmp(v[j], v[j - h])
    ensures Ordered(v[..i + 1], h, cmp) && SameColumns(start, v, h, cmp) && multiset(v) == multiset(start)
  {
    HoleFits(v, i + 1, j, h, cmp);
  }

  lemma ColumnsSelf<T(!new)>(a: seq<T>, h: nat, cmp: (T, T) -> bool)
    requires h > 0
    ensures SameColumns(a, a, h, cmp)
  {
  }

  /** One pass: afterwards the array is ordered along h, and along every gap it was ordered along before. */
  method Pass<T(!new)>(a: array<T>, h: nat, cmp: (T, T) -> bool)
    requires StrictWeak(cmp) && 0 < h
    modifies a
    ensures Ordered(a[..], h, cmp)
    ensures forall g :: Ordered(old(a[..]), g, cmp) ==> Ordered(a[..], g, cmp)
    ensures multiset(a[..]) == multiset(old(a[..]))
  {
    ghost var start := a[..];
    var i := h;
    while i < a.Length
      invariant h <= i && Ordered(a[..if i < a.Length then i else a.Length], h, cmp)
      invariant SameColumns(start, a[..], h, cmp) && multiset(a[..]) == multiset(start)
    {
      Insert(a, i, h, cmp);
      i := i + 1;
    }
    assert a[..a.Length] == a[..];
    forall g: nat | Ordered(start, g, cmp) ensures Ordered(a[..], g, cmp) {
      SortingKeepsOrder(start, a[..], h, g, cmp);
    }
  }

  /** 0, 1, 4, 13, 40, ...: dividing by three steps down through all of them. */
  predicate IsGap(h: nat) {
    h == 0 || (h % 3 == 1 && IsGap(h / 3))
  }

  method ShellSort<T(!new)>(a: array<T>, cmp: (T, T) -> bool)
    requires StrictWeak(cmp)
    modifies a
    ensures forall i, j :: 0 <= i < j < a.Length ==> !cmp(a[j], a[i])
    ensures multiset(a[..]) == multiset(old(a[..]))
  {
    if a.Length == 0 {
      return;
    }
    var N := a.Length;
    var h: nat := 1;
    while h < N / 3
      invariant h >= 1 && IsGap(h)
    {
      h := 3 * h + 1;
    }
    ghost var gaps: set<nat> := {};
    while h >= 1
      invariant IsGap(h) && (h == 0 ==> 1 in gaps)
      invariant forall g :: g in gaps ==> Ordered(a[..], g, cmp)
      invariant multiset(a[..]) == multiset(old(a[..]))
    {
      Pass(a, h, cmp);
      gaps := gaps + {h};
      h := h / 3;
    }
    forall i, j | 0 <= i < j < a.Length ensures !cmp(a[j], a[i]) {
      OrderedOne(a[..], i, j, cmp);
    }
  }
}
