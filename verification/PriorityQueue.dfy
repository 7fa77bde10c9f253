/** Heap order on the slots 1, 2, ..., n of a sequence; slot 0 is outside the heap. */
module HeapOrder {
  import opened Comparable

  /** No parent is less than its child, except possibly the pair above, or the pairs below, slot k. */
  ghost predicate HeapBut<T>(s: seq<T>, n: nat, k: nat, up: bool, cmp: (T, T) -> bool) {
    && n < |s|
    && (forall j :: 2 <= j <= n && (if up then j else j / 2) != k ==> !cmp(s[j / 2], s[j]))
    && (forall j :: 2 <= j <= n && j / 2 == k && k / 2 >= 1 ==> !cmp(s[k / 2], s[j]))
  }

  ghost predicate Heap<T>(s: seq<T>, n: nat, cmp: (T, T) -> bool) {
    n < |s| && forall j :: 2 <= j <= n ==> !cmp(s[j / 2], s[j])
  }

  /** t is s with the slots i and j exchanged. */
  function Swap<T>(s: seq<T>, i: nat, j: nat): (t: seq<T>)
    requires i < |s| && j < |s|
    ensures |t| == |s|
  {
    s[i := s[j]][j := s[i]]
  }

  /** The root is a maximum. */
  lemma {:induction false} RootIsMaximum<T(!new)>(s: seq<T>, n: nat, j: nat, cmp: (T, T) -> bool)
    requires StrictWeak(cmp) && Heap(s, n, cmp) && 1 <= j <= n
    ensures !cmp(s[1], s[j])
    decreases j
  {
    if j == 1 {
    } else {
      RootIsMaximum(s, n, j / 2, cmp);
    }
  }

  lemma SwapUp<T(!new)>(s: seq<T>, n: nat, k: nat, cmp: (T, T) -> bool)
    requires StrictWeak(cmp) && HeapBut(s, n, k, true, cmp) && 2 <= k <= n && cmp(s[k / 2], s[k])
    ensures HeapBut(Swap(s, k, k / 2), n, k / 2, true, cmp)
  {
    var t := Swap(s, k, k / 2);
    forall j | 2 <= j <= n && j != k / 2 ensures !cmp(t[j / 2], t[j]) {
      if j == k {
      } else if j / 2 == k / 2 {
        assert !cmp(s[k / 2], s[j]);
      } else if j / 2 == k {
        assert !cmp(s[k / 2], s[j]);
      }
    }
    forall j | 2 <= j <= n && j / 2 == k / 2 && k / 2 / 2 >= 1 ensures !cmp(t[k / 2 / 2], t[j]) {
      assert !cmp(s[k / 2 / 2], s[k / 2]);
      assert j != k ==> !cmp(s[k / 2], s[j]);
    }
  }

  lemma SwapDown<T(!new)>(s: seq<T>, n: nat, k: nat, c: nat, cmp: (T, T) -> bool)
    requires StrictWeak(cmp) && HeapBut(s, n, k, false, cmp) && 1 <= k && c / 2 == k && c <= n
    requires cmp(s[k], s[c]) && forall j :: 2 <= j <= n && j / 2 == k ==> !cmp(s[c], s[j])
    ensures HeapBut(Swap(s, k, c), n, c, false, cmp)
  {
    var t := Swap(s, k, c);
    forall j | 2 <= j <= n && j / 2 != c ensures !cmp(t[j / 2], t[j]) {
      if j == k {
        assert !cmp(s[k / 2], s[c]);
      }
    }
    forall j | 2 <= j <= n && j / 2 == c ensures !cmp(t[c / 2], t[j]) {
      assert !cmp(s[c], s[j]);
    }
  }

  /** The child sinkdown compares with: the greater one, where k has two. */
  function GreaterChild<T>(s: seq<T>, n: nat, k: nat, cmp: (T, T) -> bool): (c: nat)
    requires 2 * k <= n < |s|
    ensures c <= n && c / 2 == k
  {
    if 2 * k < n && cmp(s[2 * k], s[2 * k + 1]) then 2 * k + 1 else 2 * k
  }

  lemma GreaterChildIsGreatest<T(!new)>(s: seq<T>, n: nat, k: nat, cmp: (T, T) -> bool)
    requires StrictWeak(cmp) && 1 <= k && 2 * k <= n < |s|
    ensures forall j :: 2 <= j <= n && j / 2 == k ==> !cmp(s[GreaterChild(s, n, k, cmp)], s[j])
  {
    forall j | 2 <= j <= n && j / 2 == k ensures !cmp(s[GreaterChild(s, n, k, cmp)], s[j]) {
      assert j == 2 * k || j == 2 * k + 1;
    }
  }

  /** From slot 0 the root is the only child, and comparing slot 0 with itself stops. */
  lemma SinkFromZero<T(!new)>(s: seq<T>, n: nat, cmp: (T, T) -> bool)
    requires StrictWeak(cmp) && Heap(s, n, cmp)
    ensures var c := GreaterChild(s, n, 0, cmp);
            && (cmp(s[0], s[c]) <==> n > 0 && cmp(s[0], s[1]))
            && (cmp(s[0], s[c]) ==> c == 1 && HeapBut(Swap(s, 0, 1), n, 1, false, cmp))
  {
  }

  lemma SinkStops<T(!new)>(s: seq<T>, n: nat, k: nat, cmp: (T, T) -> bool)
    requires StrictWeak(cmp) && 1 <= k && HeapBut(s, n, k, false, cmp)
    requires 2 * k <= n ==> !cmp(s[k], s[GreaterChild(s, n, k, cmp)])
    ensures Heap(s, n, cmp)
  {
    if 2 * k <= n {
      GreaterChildIsGreatest(s, n, k, cmp);
    }
    forall j | 2 <= j <= n ensures !cmp(s[j / 2], s[j]) {
      assert j / 2 == k ==> 2 * k <= n;
    }
  }

  /** The items of the slots 1..n, given slot 0. */
  lemma TailItems<T>(s: seq<T>, n: nat)
    requires n < |s|
    ensures multiset(s[..n + 1]) == multiset{s[0]} + multiset(s[1..n + 1])
  {
    assert s[..n + 1] == [s[0]] + s[1..n + 1];
  }

  lemma SwapItems<T>(s: seq<T>, n: nat, i: nat, j: nat)
    requires i <= n < |s| && j <= n
    ensures multiset(Swap(s, i, j)[..n + 1]) == multiset(s[..n + 1])
  {
    var p := s[..n + 1];
    assert Swap(s, i, j)[..n + 1] == p[i := p[j]][j := p[i]];
  }
}

/** The queue object. */
module PriorityQueue {
  import opened Comparable
  import opened HeapOrder

  class PriorityQueue<T(!new, 0)> {
    var buf: array<T>
    var bufSize: nat
    var itemSize: nat
    const cmp: (T, T) -> bool

    ghost predicate Valid()
      reads this, buf
    {
      && StrictWeak(cmp) && buf.Length == bufSize && itemSize < bufSize
      && Heap(buf[..], itemSize, cmp)
    }

    /** What is in the queue. */
    ghost function Items(): multiset<T>
      requires itemSize < buf.Length
      reads this, buf
    {
      multiset(buf[..][1..itemSize + 1])
    }

    /** The same with slot 0. */
    ghost function AllSlots(): multiset<T>
      requires itemSize < buf.Length
      reads this, buf
    {
      multiset(buf[..][..itemSize + 1])
    }

    lemma DropSlotZero(items: multiset<T>)
      requires itemSize < buf.Length && AllSlots() == multiset{buf[0]} + items
      ensures Items() == items
    {
      TailItems(buf[..], itemSize);
      assert Items() == AllSlots() - multiset{buf[0]};
    }

    constructor (cmp: (T, T) -> bool)
      requires StrictWeak(cmp)
      ensures Valid() && this.cmp == cmp && Items() == multiset{} && fresh(buf)
    {
      this.cmp := cmp;
      buf := new T[1];
      bufSize, itemSize := 1, 0;
    }

    /** realloc: keeps the slots that both sizes have. */
    method Realloc(size: nat)
      modifies `buf
      ensures fresh(buf) && buf.Length == size
      ensures forall n :: 0 <= n <= size && n <= |old(buf[..])| ==> buf[..][..n] == old(buf[..])[..n]
    {
      var grown := new T[size];
      var n := if size < buf.Length then size else buf.Length;
      for i := 0 to n
        invariant buf == old(buf) && fresh(grown) && buf[..] == old(buf[..])
        invariant forall k :: 0 <= k < i ==> grown[k] == buf[k]
      {
        grown[i] := buf[i];
      }
      buf := grown;
    }

    method SwapSlots(i: nat, j: nat)
      requires i < buf.Length && j < buf.Length
      modifies buf
      ensures buf[..] == Swap(old(buf[..]), i, j)
    {
      buf[i], buf[j] := buf[j], buf[i];
    }

    method Push(item: T)
      requires Valid()
      modifies this, buf
      ensures Valid() && Items() == old(Items()) + multiset{item}
      ensures bufSize == if old(itemSize) + 1 == old(bufSize) then 2 * old(bufSize) + 1 else old(bufSize)
      ensures buf == old(buf) || fresh(buf)
    {
      hide Heap, HeapBut, StrictWeak, Items, AllSlots;
      Grow();
      Append(item);
      Swimup(itemSize);
      DropSlotZero(old(Items()) + multiset{item});
    }

    /** The beginning of push(): makes room for one more item. */
    method Grow()
      requires Valid()
      modifies `buf, `bufSize
      ensures Valid() && itemSize + 1 < bufSize && Items() == old(Items())
      ensures bufSize == if old(itemSize) + 1 == old(bufSize) then 2 * old(bufSize) + 1 else old(bufSize)
      ensures buf == old(buf) || fresh(buf)
    {
      hide Heap, StrictWeak;
      ghost var s, n := buf[..], itemSize;
      if itemSize + 1 == bufSize {
        bufSize := 2 * (itemSize + 1) + 1;
        Realloc(bufSize);
        assert buf[..][..n + 1] == s[..n + 1];
        SamePrefix(s, buf[..], n, cmp);
      }
    }

    /** buf_[++itemSize_] = item */
    method Append(item: T)
      requires Valid() && itemSize + 1 < bufSize
      modifies `itemSize, buf
      ensures itemSize == old(itemSize) + 1 && HeapBut(buf[..], itemSize, itemSize, true, cmp)
      ensures AllSlots() == multiset{buf[0]} + (old(Items()) + multiset{item})
    {
      hide Heap, HeapBut, StrictWeak;
      ghost var s, n := buf[..], itemSize;
      itemSize := itemSize + 1;
      buf[itemSize] := item;
      assert buf[..][..n + 1] == s[..n + 1];
      Appended(s, n, buf[..], cmp);
    }

    /** A new item behind the heap may only be out of order with its parent. */
    static lemma Appended(s: seq<T>, n: nat, t: seq<T>, cmp: (T, T) -> bool)
      requires Heap(s, n, cmp) && n + 1 < |t| && t[..n + 1] == s[..n + 1]
      ensures HeapBut(t, n + 1, n + 1, true, cmp)
      ensures multiset(t[..n + 2]) == multiset{t[0]} + (multiset(s[1..n + 1]) + multiset{t[n + 1]})
    {
      assert forall j :: 0 <= j <= n ==> t[j] == t[..n + 1][j] == s[..n + 1][j] == s[j];
      assert t[..n + 2] == [t[0]] + s[1..n + 1] + [t[n + 1]];
    }

    /** Removes one maximum, which ends up in slot 0: the sinking starts there, above the root. */
    method Pop()
      requires Valid() && itemSize > 0
      modifies this, buf
      ensures Valid() && buf.Length > 0
      ensures buf[0] in old(Items()) && Items() == old(Items()) - multiset{buf[0]}
      ensures forall x :: x in old(Items()) ==> !cmp(buf[0], x)
      ensures bufSize == if itemSize <= (old(bufSize) - 1) / 4 then old(bufSize) / 2 else old(bufSize)
      ensures buf == old(buf) || fresh(buf)
    {
      TakeMaximum();
      Shrink();
    }

    /** The end of pop(): halves a buffer of which at most a quarter is in use. */
    method Shrink()
      requires Valid() && bufSize >= 2
      modifies `buf, `bufSize
      ensures Valid() && buf[0] == old(buf[0]) && Items() == old(Items())
      ensures bufSize == if itemSize <= (old(bufSize) - 1) / 4 then old(bufSize) / 2 else old(bufSize)
      ensures buf == old(buf) || fresh(buf)
    {
      hide Heap, StrictWeak;
      ghost var s, n := buf[..], itemSize;
      if itemSize <= (bufSize - 1) / 4 {
        bufSize := bufSize / 2;
        Realloc(bufSize);
        assert buf[..][..n + 1] == s[..n + 1];
        SamePrefix(s, buf[..], n, cmp);
      }
    }

    static lemma SamePrefix(s: seq<T>, t: seq<T>, n: nat, cmp: (T, T) -> bool)
      requires Heap(s, n, cmp) && n < |t| && t[..n + 1] == s[..n + 1]
      ensures Heap(t, n, cmp) && t[1..n + 1] == s[1..n + 1] && t[0] == s[0]
    {
      assert forall j :: 0 <= j <= n ==> t[j] == t[..n + 1][j] == s[..n + 1][j] == s[j];
    }

    /** pop() before it shrinks the buffer. */
    method TakeMaximum()
      requires Valid() && itemSize > 0
      modifies `itemSize, buf
      ensures Valid() && itemSize == old(itemSize) - 1
      ensures buf[0] in old(Items()) && Items() == old(Items()) - multiset{buf[0]}
      ensures forall x :: x in old(Items()) ==> !cmp(buf[0], x)
    {
      hide Heap, StrictWeak, Swap;
      ghost var s, n := buf[..], itemSize;
      MaximumOf(s, n, cmp);
      LastToFront(s, n, cmp);
      SwapSlots(0, itemSize);
      itemSize := itemSize - 1;
      assert AllSlots() == old(Items());
      Sinkdown(0);
      TakeOut(old(Items()), buf[0]);
      DropSlotZero(old(Items()) - multiset{buf[0]});
    }

    static lemma TakeOut(items: multiset<T>, x: T)
      requires x in items
      ensures items == multiset{x} + (items - multiset{x})
    {
    }

    /** Moving the last slot into slot 0 keeps the rest of the heap. */
    static lemma LastToFront(s: seq<T>, n: nat, cmp: (T, T) -> bool)
      requires Heap(s, n, cmp) && 0 < n < |s|
      ensures var t := Swap(s, 0, n);
              && Heap(t, n - 1, cmp) && multiset(t[..n]) == multiset(s[1..n + 1])
              && t[0] == s[n] && (n > 1 ==> t[1] == s[1])
    {
      var t := Swap(s, 0, n);
      assert t[..n] == [s[n]] + s[1..n];
      assert s[1..n + 1] == s[1..n] + [s[n]];
    }

    /** The last slot or the root, whichever the comparison picks, is a maximum of the heap. */
    static lemma MaximumOf(s: seq<T>, n: nat, cmp: (T, T) -> bool)
      requires StrictWeak(cmp) && Heap(s, n, cmp) && n > 0
      ensures var r := if n - 1 > 0 && cmp(s[n], s[1]) then s[1] else s[n];
              r in multiset(s[1..n + 1]) && forall x :: x in multiset(s[1..n + 1]) ==> !cmp(r, x)
    {
      var r := if n - 1 > 0 && cmp(s[n], s[1]) then s[1] else s[n];
      assert s[1..n + 1][0] == s[1] && s[1..n + 1][n - 1] == s[n];
      forall x | x in multiset(s[1..n + 1]) ensures !cmp(r, x) {
        var j :| 1 <= j <= n && s[j] == x;
        RootIsMaximum(s, n, j, cmp);
      }
    }

    method Top() returns (x: T)
      requires Valid() && itemSize > 0
      ensures x in Items() && forall y :: y in Items() ==> !cmp(x, y)
    {
      x := buf[1];
      assert buf[..][1..itemSize + 1][0] == x;
      forall y | y in Items() ensures !cmp(x, y) {
        var j :| 1 <= j <= itemSize && buf[j] == y;
        RootIsMaximum(buf[..], itemSize, j, cmp);
      }
    }

    method Swimup(start: nat)
      requires StrictWeak(cmp) && buf.Length == bufSize && 1 <= start <= itemSize < bufSize
      requires HeapBut(buf[..], itemSize, start, true, cmp)
      modifies buf
      ensures Heap(buf[..], itemSize, cmp) && buf[0] == old(buf[0])
      ensures AllSlots() == old(AllSlots())
    {
      hide StrictWeak, HeapBut, Heap, Swap, Swimming;
      var k := start;
      ghost var s0, n := buf[..], itemSize;
      SwimmingFirst(s0, n, k, cmp);
      while k > 1 && cmp(buf[k / 2], buf[k])
        invariant 1 <= k <= n < |s0| && buf.Length == |s0| && Swimming(s0, buf[..], n, k, cmp)
      {
        SwimmingNext(s0, buf[..], n, k, cmp);
        SwapSlots(k, k / 2);
        k := k / 2;
      }
      SwimmingLast(s0, buf[..], n, k, cmp);
    }

    /** The last item of s0 has swum up to slot k of s: only that slot may be out of order. */
    static ghost predicate Swimming(s0: seq<T>, s: seq<T>, n: nat, k: nat, cmp: (T, T) -> bool)
      requires 1 <= k <= n < |s0| && |s| == |s0|
    {
      s[0] == s0[0] && HeapBut(s, n, k, true, cmp) && multiset(s[..n + 1]) == multiset(s0[..n + 1])
    }

    static lemma SwimmingFirst(s: seq<T>, n: nat, k: nat, cmp: (T, T) -> bool)
      requires 1 <= k <= n < |s| && HeapBut(s, n, k, true, cmp)
      ensures Swimming(s, s, n, k, cmp)
    {
    }

    static lemma SwimmingNext(s0: seq<T>, s: seq<T>, n: nat, k: nat, cmp: (T, T) -> bool)
      requires StrictWeak(cmp) && 2 <= k <= n < |s0| && |s| == |s0| && Swimming(s0, s, n, k, cmp)
      requires cmp(s[k / 2], s[k])
      ensures |Swap(s, k, k / 2)| == |s| && Swimming(s0, Swap(s, k, k / 2), n, k / 2, cmp)
    {
      SwapItems(s, n, k, k / 2);
      hide StrictWeak, HeapBut;
      SwapUp(s, n, k, cmp);
    }

    static lemma SwimmingLast(s0: seq<T>, s: seq<T>, n: nat, k: nat, cmp: (T, T) -> bool)
      requires 1 <= k <= n < |s0| && |s| == |s0| && Swimming(s0, s, n, k, cmp) && (k > 1 ==> !cmp(s[k / 2], s[k]))
      ensures Heap(s, n, cmp) && s[0] == s0[0] && multiset(s[..n + 1]) == multiset(s0[..n + 1])
    {
    }

    method Sinkdown(start: nat)
      requires StrictWeak(cmp) && buf.Length == bufSize && itemSize < bufSize && start == 0
      requires Heap(buf[..], itemSize, cmp)
      modifies buf
      ensures Heap(buf[..], itemSize, cmp)
      ensures AllSlots() == old(AllSlots())
      ensures buf[0] == if itemSize > 0 && cmp(old(buf[0]), old(buf[1])) then old(buf[1]) else old(buf[0])
    {
      hide StrictWeak, Heap, Sinking, GreaterChild;
      ghost var s0, n := buf[..], itemSize;
      var k := Sink(start);
      SinkingLast(s0, buf[..], n, k, cmp);
    }

    /** The loop of sinkdown. */
    method Sink(start: nat) returns (k: nat)
      requires StrictWeak(cmp) && itemSize < buf.Length && start == 0 && Heap(buf[..], itemSize, cmp)
      modifies buf
      ensures k <= itemSize && Sinking(old(buf[..]), buf[..], itemSize, k, cmp)
      ensures 2 * k <= itemSize ==> !cmp(buf[k], buf[GreaterChild(buf[..], itemSize, k, cmp)])
    {
      hide StrictWeak, HeapBut, Heap, Sinking, GreaterChild, Swap;
      k := start;
      ghost var s0, n := buf[..], itemSize;
      SinkingFirst(s0, n, cmp);
      while 2 * k <= itemSize
        invariant k <= n < buf.Length && buf.Length == |s0| && Sinking(s0, buf[..], n, k, cmp)
        decreases n - k, k == 0
      {
        var j := Child(k);
        if !cmp(buf[k], buf[j]) {
          break;
        }
        SinkingNext(s0, buf[..], n, k, cmp);
        SwapSlots(k, j);
        k := j;
      }
    }

    /** The child of k to compare with. */
    method Child(k: nat) returns (j: nat)
      requires 2 * k <= itemSize < buf.Length
      ensures j == GreaterChild(buf[..], itemSize, k, cmp)
    {
      j := 2 * k;
      if j < itemSize && cmp(buf[j], buf[j + 1]) {
        j := j + 1;
      }
    }

    /** The item of slot 0 of s0 has sunk to slot k of s: only that slot may be out of order, and slot 0
        holds what was the root. */
    static ghost predicate Sinking(s0: seq<T>, s: seq<T>, n: nat, k: nat, cmp: (T, T) -> bool)
      requires k <= n < |s0| && |s| == |s0|
    {
      && (if k == 0 then s == s0 else HeapBut(s, n, k, false, cmp))
      && (k > 0 ==> n > 0 && cmp(s0[0], s0[1]) && s[0] == s0[1])
      && multiset(s[..n + 1]) == multiset(s0[..n + 1])
    }

    static lemma SinkingFirst(s: seq<T>, n: nat, cmp: (T, T) -> bool)
      requires n < |s|
      ensures Sinking(s, s, n, 0, cmp)
    {
    }

    static lemma SinkingNext(s0: seq<T>, s: seq<T>, n: nat, k: nat, cmp: (T, T) -> bool)
      requires StrictWeak(cmp) && 2 * k <= n < |s0| && |s| == |s0| && Heap(s0, n, cmp) && Sinking(s0, s, n, k, cmp)
      requires cmp(s[k], s[GreaterChild(s, n, k, cmp)])
      ensures var c := GreaterChild(s, n, k, cmp);
              |Swap(s, k, c)| == |s| && c > k && Sinking(s0, Swap(s, k, c), n, c, cmp)
    {
      var c := GreaterChild(s, n, k, cmp);
      SwapItems(s, n, k, c);
      if k == 0 {
        SinkFromZero(s, n, cmp);
      } else {
        hide StrictWeak, HeapBut, GreaterChild;
        GreaterChildIsGreatest(s, n, k, cmp);
        SwapDown(s, n, k, c, cmp);
      }
    }

    static lemma SinkingLast(s0: seq<T>, s: seq<T>, n: nat, k: nat, cmp: (T, T) -> bool)
      requires StrictWeak(cmp) && k <= n < |s0| && |s| == |s0| && Heap(s0, n, cmp) && Sinking(s0, s, n, k, cmp)
      requires 2 * k <= n ==> !cmp(s[k], s[GreaterChild(s, n, k, cmp)])
      ensures Heap(s, n, cmp) && multiset(s[..n + 1]) == multiset(s0[..n + 1])
      ensures s[0] == if n > 0 && cmp(s0[0], s0[1]) then s0[1] else s0[0]
    {
      if k == 0 {
        SinkFromZero(s, n, cmp);
      } else {
        hide StrictWeak, HeapBut, GreaterChild;
        SinkStops(s, n, k, cmp);
      }
    }
  }
}
