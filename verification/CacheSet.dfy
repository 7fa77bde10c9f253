/** One set of the cache simulator: two doubly linked lists with sentinels, relinked in place. */
module CacheSet {
  import opened LruSpec

  class Line {
    var tag: Tag
    var prev: Line?
    var next: Line?

    constructor ()
      ensures prev == null && next == null
    {
      tag, prev, next := 0, null, null;
    }
  }

  /** nodes, with its first and last element as sentinels, is a doubly linked list. */
  ghost predicate Chain(nodes: seq<Line>)
    reads nodes
  {
    && |nodes| >= 2 && Distinct(nodes)
    && nodes[0].prev == null && nodes[|nodes| - 1].next == null
    && (forall i :: 0 <= i < |nodes| - 1 ==> nodes[i].next == nodes[i + 1])
    && (forall i :: 0 < i < |nodes| ==> nodes[i].prev == nodes[i - 1])
  }

  /** The tags between the sentinels. */
  ghost function Tags(nodes: seq<Line>): (tags: seq<Tag>)
    requires |nodes| >= 2
    reads nodes
    ensures |tags| == |nodes| - 2
  {
    seq(|nodes| - 2, i requires 0 <= i < |nodes| - 2 reads nodes => nodes[i + 1].tag)
  }

  /** nodes without, or with, the line at position k. */
  ghost function Without(nodes: seq<Line>, k: nat): seq<Line>
    requires k < |nodes|
  {
    nodes[..k] + nodes[k + 1..]
  }

  ghost function With(nodes: seq<Line>, k: nat, line: Line): seq<Line>
    requires k <= |nodes|
  {
    nodes[..k] + [line] + nodes[k..]
  }

  lemma WithAt(nodes: seq<Line>, k: nat, line: Line)
    requires k <= |nodes|
    ensures |With(nodes, k, line)| == |nodes| + 1
    ensures forall i :: 0 <= i <= |nodes| ==>
      With(nodes, k, line)[i] == if i < k then nodes[i] else if i == k then line else nodes[i - 1]
    ensures Distinct(nodes) && line !in nodes ==> Distinct(With(nodes, k, line))
  {
  }

  lemma WithoutAt(nodes: seq<Line>, k: nat)
    requires k < |nodes|
    ensures |Without(nodes, k)| == |nodes| - 1
    ensures forall i :: 0 <= i < |nodes| - 1 ==> Without(nodes, k)[i] == nodes[if i < k then i else i + 1]
    ensures Distinct(nodes) ==> Distinct(Without(nodes, k)) && nodes[k] !in Without(nodes, k)
  {
  }

  lemma Apart(nodes: seq<Line>)
    requires Distinct(nodes)
    ensures forall i, j :: 0 <= i < |nodes| && 0 <= j < |nodes| && i != j ==> nodes[i] != nodes[j]
  {
  }

  lemma TagsOfWith(nodes: seq<Line>, k: nat, line: Line)
    requires k < |nodes| - 1
    ensures Tags(With(nodes, k + 1, line)) == Tags(nodes)[..k] + [line.tag] + Tags(nodes)[k..]
  {
  }

  lemma TagsOfWithout(nodes: seq<Line>, k: nat)
    requires 0 < k < |nodes| - 1
    ensures Tags(Without(nodes, k)) == Tags(nodes)[..k - 1] + Tags(nodes)[k..]
  {
  }

  twostate lemma TagsKept(nodes: seq<Line>)
    requires |nodes| >= 2 && forall i :: 0 <= i < |nodes| ==> nodes[i].tag == old(nodes[i].tag)
    ensures Tags(nodes) == old(Tags(nodes))
  {
  }

  lemma ChainWith(nodes: seq<Line>, k: nat, line: Line)
    requires Distinct(nodes) && k + 1 < |nodes| && line !in nodes
    requires nodes[0].prev == null && nodes[|nodes| - 1].next == null
    requires forall i :: 0 <= i < |nodes| - 1 && i != k ==> nodes[i].next == nodes[i + 1]
    requires forall i :: 0 < i < |nodes| && i != k + 1 ==> nodes[i].prev == nodes[i - 1]
    requires nodes[k].next == line && line.next == nodes[k + 1]
    requires line.prev == nodes[k] && nodes[k + 1].prev == line
    ensures Chain(With(nodes, k + 1, line))
  {
    WithAt(nodes, k + 1, line);
    hide With, Distinct;
  }

  lemma ChainWithout(nodes: seq<Line>, k: nat)
    requires Distinct(nodes) && 0 < k && k + 1 < |nodes|
    requires nodes[0].prev == null && nodes[|nodes| - 1].next == null
    requires forall i :: 0 <= i < |nodes| - 1 && i != k - 1 && i != k ==> nodes[i].next == nodes[i + 1]
    requires forall i :: 0 < i < |nodes| && i != k && i != k + 1 ==> nodes[i].prev == nodes[i - 1]
    requires nodes[k - 1].next == nodes[k + 1] && nodes[k + 1].prev == nodes[k - 1]
    ensures Chain(Without(nodes, k)) && nodes[k] !in Without(nodes, k)
  {
    WithoutAt(nodes, k);
    hide Without, Distinct;
  }

  /** Links newLine behind line, the node at position k. */
  method InsertCacheLineAfter(newLine: Line, line: Line, ghost nodes: seq<Line>, ghost k: nat)
    requires Chain(nodes) && k < |nodes| - 1 && nodes[k] == line && newLine !in nodes
    modifies newLine`prev, newLine`next, line`next, (var l: Line := nodes[k + 1]; l)`prev
    ensures Chain(With(nodes, k + 1, newLine))
    ensures Tags(With(nodes, k + 1, newLine)) == old(Tags(nodes))[..k] + [newLine.tag] + old(Tags(nodes))[k..]
  {
    Apart(nodes);
    hide With, Distinct, Tags;
    newLine.next := line.next;
    newLine.prev := line;
    line.next := newLine;
    newLine.next.prev := newLine;
    ChainWith(nodes, k, newLine);
    TagsKept(nodes);
    TagsOfWith(nodes, k, newLine);
  }

  /** Unlinks the node at position k, which is not a sentinel. */
  method DeleteCacheLine(delLine: Line, ghost nodes: seq<Line>, ghost k: nat) returns (line: Line)
    requires Chain(nodes) && 0 < k < |nodes| - 1 && nodes[k] == delLine
    modifies delLine`prev, delLine`next, (var l: Line := nodes[k - 1]; l)`next, (var l: Line := nodes[k + 1]; l)`prev
    ensures line == delLine && Chain(Without(nodes, k)) && line !in Without(nodes, k)
    ensures Tags(Without(nodes, k)) == old(Tags(nodes))[..k - 1] + old(Tags(nodes))[k..]
  {
    Apart(nodes);
    hide Without, Distinct, Tags;
    delLine.prev.next := delLine.next;
    delLine.next.prev := delLine.prev;
    delLine.next, delLine.prev := null, null;
    ChainWithout(nodes, k);
    TagsKept(nodes);
    TagsOfWithout(nodes, k);
    return delLine;
  }

  /** The first line between the sentinels that holds the tag. */
  method SearchCacheLineByTag(tag: Tag, head: Line, tail: Line, ghost nodes: seq<Line>)
    returns (line: Line?, ghost k: nat)
    requires Chain(nodes) && head == nodes[0] && tail == nodes[|nodes| - 1]
    ensures line == null <==> tag !in Tags(nodes)
    ensures line != null ==> 0 < k < |nodes| - 1 && line == nodes[k] && line.tag == tag
    ensures line != null ==> forall i :: 0 < i < k ==> nodes[i].tag != tag
  {
    var curLine := head.next;
    k := 1;
    while curLine != tail
      invariant 0 < k < |nodes| && curLine == nodes[k]
      invariant forall i :: 0 < i < k ==> nodes[i].tag != tag
      decreases |nodes| - k
    {
      if curLine.tag == tag {
        assert Tags(nodes)[k - 1] == tag;
        return curLine, k;
      }
      curLine := curLine.next;
      k := k + 1;
    }
    return null, k;
  }

  /** Two sentinels linked to each other. */
  method InitLinesHeadTail() returns (head: Line, tail: Line)
    ensures fresh(head) && fresh(tail) && Chain([head, tail])
  {
    head := new Line();
    tail := new Line();
    head.prev, head.next := null, tail;
    tail.prev, tail.next := head, null;
  }

  method IsCacheLinesEmpty(head: Line, ghost nodes: seq<Line>) returns (b: bool)
    requires Chain(nodes) && head == nodes[0]
    ensures b <==> |nodes| == 2
  {
    assert head.next == nodes[1] && (|nodes| > 2 ==> nodes[1].next == nodes[2]);
    return head.next.next == null;
  }

  lemma NoTags(nodes: seq<Line>)
    requires |nodes| == 2
    ensures Tags(nodes) == []
  {
  }

  class Set {
    const linesHeadInUse: Line
    const linesTailInUse: Line
    const linesHeadFree: Line
    const linesTailFree: Line

    ghost const E: nat
    ghost var used: seq<Line>
    ghost var free: seq<Line>
    ghost var repr: set<Line>

    ghost predicate Linked()
      reads this, repr
    {
      && |used| >= 2 && |free| >= 2 && Placed(used, free, repr)
      && Chain(used) && Chain(free)
      && used[0] == linesHeadInUse && used[|used| - 1] == linesTailInUse
      && free[0] == linesHeadFree && free[|free| - 1] == linesTailFree
    }

    /** Both lists lie in repr and share no line. */
    static ghost predicate Placed(used: seq<Line>, free: seq<Line>, repr: set<Line>) {
      && (forall i :: 0 <= i < |used| ==> used[i] in repr)
      && (forall i :: 0 <= i < |free| ==> free[i] in repr)
      && (forall j :: 0 <= j < |free| ==> free[j] !in used)
    }

    /** Both lists are well formed and disjoint, and their lengths sum to E. */
    ghost predicate Valid()
      reads this, repr
    {
      1 <= E && Linked() && (|used| - 2) + (|free| - 2) == E
    }

    /** The tags in use, newest first. */
    ghost function Contents(): seq<Tag>
      requires Valid()
      reads this, repr
    {
      Tags(used)
    }

    constructor (totalLinesPerSet: nat)
      requires 1 <= totalLinesPerSet
      ensures Valid() && fresh(repr) && E == totalLinesPerSet && Contents() == []
    {
      var headFree, tailFree := InitLinesHeadTail();
      var headInUse, tailInUse := InitLinesHeadTail();
      linesHeadFree, linesTailFree := headFree, tailFree;
      linesHeadInUse, linesTailInUse := headInUse, tailInUse;
      E := totalLinesPerSet;
      used := [headInUse, tailInUse];
      free := [headFree, tailFree];
      repr := {headInUse, tailInUse, headFree, tailFree};
      new;
      assert Linked();
      for k := 0 to totalLinesPerSet
        invariant Linked() && used == [linesHeadInUse, linesTailInUse] && |free| == k + 2 && fresh(repr)
      {
        AddFreeLine();
      }
      NoTags(used);
    }

    method AddFreeLine()
      requires Linked()
      modifies `free, `repr, repr
      ensures Linked() && |free| == old(|free|) + 1 && used == old(used) && fresh(repr - old(repr))
    {
      assert free[0] in repr && free[1] in repr && free[0] !in used && free[1] !in used;
      assert forall l :: l in used ==> l in repr;
      hide Chain, Tags, Distinct, With, Placed;
      var newFreeLine := new Line();
      NewIsPlaced(used, free, repr, newFreeLine);
      InsertCacheLineAfter(newFreeLine, linesHeadFree, free, 0);
      free := With(free, 1, newFreeLine);
      repr := repr + {newFreeLine};
    }

    /** A new line behind the head of the free list. */
    static lemma NewIsPlaced(used: seq<Line>, free: seq<Line>, repr: set<Line>, line: Line)
      requires |free| >= 2 && Placed(used, free, repr) && line !in repr
      ensures var n := With(free, 1, line);
              && Placed(used, n, repr + {line}) && line !in free
              && |n| == |free| + 1 && n[0] == free[0] && n[|n| - 1] == free[|free| - 1]
    {
    }

    /** The sentinels stay and no line is new. */
    static lemma Promoted(nodes: seq<Line>, k: nat)
      requires 0 < k < |nodes| - 1
      ensures var n := With(Without(nodes, k), 1, nodes[k]);
              && |n| == |nodes| && n[0] == nodes[0] && n[|n| - 1] == nodes[|nodes| - 1]
              && (forall i :: 0 <= i < |n| ==> n[i] in nodes) && forall l :: l in n ==> l in nodes
    {
    }

    /** delete_cache_line and insert_cache_line_after on the line found at position k. */
    method MoveToFront(line: Line, ghost k: nat)
      requires Valid() && 0 < k < |used| - 1 && used[k] == line
      modifies `used, repr
      ensures Valid()
      ensures Contents() == [old(Contents())[k - 1]] + (old(Contents())[..k - 1] + old(Contents())[k..])
    {
      hide Chain, Tags, Distinct, With, Without;
      BeforeMove(k);
      Promoted(used, k);
      var lineFound := DeleteCacheLine(line, used, k);
      used := Without(used, k);
      PushFront(lineFound);
    }

    /** Where the lines that are about to be relinked lie. */
    lemma BeforeMove(k: nat)
      requires Valid() && 0 < k < |used| - 1
      ensures used[k - 1] in repr && used[k] in repr && used[k + 1] in repr
      ensures Tags(used)[k - 1] == used[k].tag
      ensures var n := Without(used, k);
              |n| == |used| - 1 && n[0] == used[0] && n[0] in repr && n[1] in repr && n[1] in used
    {
    }

    /** insert_cache_line_after(line, lines_head_in_use) */
    method PushFront(line: Line)
      requires |used| >= 2 && Chain(used) && used[0] == linesHeadInUse && line !in used
      modifies `used, line`prev, line`next, (var l: Line := used[0]; l)`next, (var l: Line := used[1]; l)`prev
      ensures used == With(old(used), 1, line) && Chain(used)
      ensures Tags(used) == [line.tag] + old(Tags(used))
    {
      hide Chain, Tags, With, Distinct;
      InsertCacheLineAfter(line, linesHeadInUse, used, 0);
      used := With(used, 1, line);
    }

    lemma FirstFree()
      requires Valid() && |free| > 2
      ensures linesHeadFree.next == free[1]
      ensures free[0] in repr && free[1] in repr && free[2] in repr && used[0] in repr && used[1] in repr
    {
    }

    lemma LastUsed()
      requires Valid() && |free| == 2
      ensures linesTailInUse.prev == used[E] && used[E - 1] in repr && used[E] in repr && used[E + 1] in repr
      ensures var n := Without(used, E);
              |n| == |used| - 1 && n[0] == used[0] && n[0] in repr && n[1] in repr && n[1] in used
    {
    }

    method UseFreeLine(tag: Tag)
      requires Valid() && |free| > 2
      modifies `used, `free, repr
      ensures Valid()
      ensures Contents() == [tag] + old(Contents())
    {
      hide Chain, Tags, Distinct;
      FirstFree();
      var lineFound := DeleteCacheLine(linesHeadFree.next, free, 1);
      free := Without(free, 1);
      lineFound.tag := tag;
      assert Tags(used) == old(Tags(used));
      PushFront(lineFound);
    }

    method ReplaceOldest(tag: Tag)
      requires Valid() && |free| == 2
      modifies `used, repr
      ensures Valid()
      ensures Contents() == [tag] + old(Contents())[..E - 1]
    {
      hide Chain, Tags, Distinct, With, Without;
      LastUsed();
      Promoted(used, E);
      ghost var before := Tags(used);
      var lineFound := DeleteCacheLine(linesTailInUse.prev, used, E);
      used := Without(used, E);
      assert before[..E - 1] + before[E..] == before[..E - 1];
      lineFound.tag := tag;
      PushFront(lineFound);
    }

    /** One access: a hit moves its line to the front, a miss fills a free line or the oldest one. */
    method Access(tag: Tag) returns (hit: bool, evicted: bool)
      requires Valid()
      modifies `used, `free, repr
      ensures Valid()
      ensures hit <==> tag in old(Contents())
      ensures evicted <==> !hit && |old(Contents())| == E
      ensures Contents() == Touch(old(Contents()), tag, E)
    {
      hide Chain, Distinct;
      var lineFound, k := SearchCacheLineByTag(tag, linesHeadInUse, linesTailInUse, used);
      hit, evicted := lineFound != null, false;
      if hit {
        RemoveAt(Contents(), tag, k - 1);
        MoveToFront(lineFound, k);
      } else {
        var noneFree := IsCacheLinesEmpty(linesHeadFree, free);
        if !noneFree {
          UseFreeLine(tag);
        } else {
          evicted := true;
          ReplaceOldest(tag);
        }
      }
    }
  }

  lemma {:induction false} RemoveAt(l: seq<Tag>, t: Tag, k: nat)
    requires k < |l| && l[k] == t && forall i :: 0 <= i < k ==> l[i] != t
    ensures t in l && Remove(l, t) == l[..k] + l[k + 1..]
  {
    if k == 0 {
    } else {
      RemoveAt(l[1..], t, k - 1);
      assert l[..k] == [l[0]] + l[1..][..k - 1];
      assert l[k + 1..] == l[1..][k..];
    }
  }
}
