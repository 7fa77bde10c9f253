/** Least-recently-used replacement on lists of tags, newest first. */
module LruSpec {

  type Tag = nat

  predicate Distinct<T(==)>(l: seq<T>) {
    forall i, j :: 0 <= i < j < |l| ==> l[i] != l[j]
  }

  /** l without the first occurrence of t. */
  function Remove(l: seq<Tag>, t: Tag): (r: seq<Tag>)
    ensures |r| == if t in l then |l| - 1 else |l|
  {
    if l == [] then [] else if l[0] == t then l[1..] else [l[0]] + Remove(l[1..], t)
  }

  /** One access to a set of at most E lines. */
  function Touch(l: seq<Tag>, t: Tag, E: nat): seq<Tag>
    requires 1 <= E
  {
    if t in l then [t] + Remove(l, t)
    else if |l| < E then [t] + l
    else [t] + l[..|l| - 1]
  }

  /** The set after a history of accesses. */
  function Lines(h: seq<Tag>, E: nat): seq<Tag>
    requires 1 <= E
  {
    if h == [] then [] else Touch(Lines(h[..|h| - 1], E), h[|h| - 1], E)
  }

  /** Every distinct tag of the history, most recently used first. */
  function Recency(h: seq<Tag>): seq<Tag> {
    if h == [] then [] else [h[|h| - 1]] + Remove(Recency(h[..|h| - 1]), h[|h| - 1])
  }

  function Take<T>(l: seq<T>, n: nat): seq<T> {
    if n <= |l| then l[..n] else l
  }

  /** Where t was last used; -1 when never. */
  function LastUse(h: seq<Tag>, t: Tag): (i: int)
    ensures -1 <= i < |h|
    ensures i >= 0 ==> h[i] == t
    ensures forall k :: i < k < |h| ==> h[k] != t
  {
    if h == [] then -1 else if h[|h| - 1] == t then |h| - 1 else LastUse(h[..|h| - 1], t)
  }

  lemma {:induction false} RemoveFirst(l: seq<Tag>, t: Tag) returns (k: nat)
    requires t in l
    ensures k < |l| && l[k] == t && t !in l[..k] && Remove(l, t) == l[..k] + l[k + 1..]
  {
    if l[0] == t {
      k := 0;
    } else {
      k := RemoveFirst(l[1..], t);
      assert l[..k + 1] == [l[0]] + l[1..][..k];
      assert l[k + 2..] == l[1..][k + 1..];
      k := k + 1;
    }
  }

  lemma {:induction false} RemoveAbsent(l: seq<Tag>, t: Tag)
    requires t !in l
    ensures Remove(l, t) == l
  {
    if l == [] {
    } else {
      RemoveAbsent(l[1..], t);
    }
  }

  lemma RemoveSpec(l: seq<Tag>, t: Tag)
    requires Distinct(l)
    ensures Distinct(Remove(l, t)) && t !in Remove(l, t)
    ensures forall x :: x in Remove(l, t) <==> x in l && x != t
  {
    hide Remove;
    if t in l {
      var k := RemoveFirst(l, t);
      var r := Remove(l, t);
      assert forall i :: 0 <= i < |r| ==> r[i] == l[if i < k then i else i + 1];
      forall x | x in l && x != t ensures x in r {
        var i :| 0 <= i < |l| && l[i] == x;
        assert r[if i < k then i else i - 1] == x;
      }
    } else {
      RemoveAbsent(l, t);
    }
  }

  /** Recency is what its name says: the distinct tags of h, ordered by their last use. */
  lemma {:induction false} RecencySpec(h: seq<Tag>)
    ensures Distinct(Recency(h))
    ensures forall t :: t in Recency(h) <==> t in h
    ensures forall i, j :: 0 <= i < j < |Recency(h)| ==> LastUse(h, Recency(h)[i]) > LastUse(h, Recency(h)[j])
  {
    if h == [] {
    } else {
      var p, t := h[..|h| - 1], h[|h| - 1];
      RecencySpec(p);
      RemoveSpec(Recency(p), t);
      assert h == p + [t];
      RemoveKeepsOrder(Recency(p), t, p);
    }
  }

  lemma RemoveKeepsOrder(l: seq<Tag>, t: Tag, h: seq<Tag>)
    requires Distinct(l)
    requires forall i, j :: 0 <= i < j < |l| ==> LastUse(h, l[i]) > LastUse(h, l[j])
    ensures var r := Remove(l, t);
            forall i, j :: 0 <= i < j < |r| ==> LastUse(h, r[i]) > LastUse(h, r[j])
  {
    if t in l {
      var k := RemoveFirst(l, t);
    } else {
      RemoveAbsent(l, t);
    }
  }

  /** The lines of a set are the E most recently used distinct tags, newest first. */
  lemma {:induction false} LinesAreMostRecent(h: seq<Tag>, E: nat)
    requires 1 <= E
    ensures Lines(h, E) == Take(Recency(h), E)
  {
    if h == [] {
    } else {
      var p, t := h[..|h| - 1], h[|h| - 1];
      LinesAreMostRecent(p, E);
      RecencySpec(p);
      TouchTake(Recency(p), t, E);
    }
  }

  /** Truncating a recency list commutes with using a tag: one that is still held, ... */
  lemma TouchHeld(r: seq<Tag>, t: Tag, E: nat, k: nat)
    requires k < E < |r| && Distinct(r) && r[k] == t && Remove(r, t) == r[..k] + r[k + 1..]
    ensures Touch(r[..E], t, E) == Take([t] + Remove(r, t), E)
  {
    RemoveHeld(r, t, E, k);
    hide Remove, Distinct;
    CutBehind(r, t, E, k);
  }

  lemma RemoveHeld(r: seq<Tag>, t: Tag, E: nat, k: nat)
    requires k < E < |r| && Distinct(r) && r[k] == t
    ensures t in r[..E] && Remove(r[..E], t) == r[..k] + r[k + 1..E]
  {
    hide Remove;
    var l := r[..E];
    assert l[k] == t;
    var k' := RemoveFirst(l, t);
    assert r[k'] == r[k];
    hide Distinct;
    assert k' == k && l[..k] == r[..k] && l[k + 1..] == r[k + 1..E];
  }

  lemma CutBehind(r: seq<Tag>, t: Tag, E: nat, k: nat)
    requires k < E < |r|
    ensures ([t] + (r[..k] + r[k + 1..]))[..E] == [t] + (r[..k] + r[k + 1..E])
  {
  }

  /** ... one that has been dropped, or one that was never held. */
  lemma TouchDropped(r: seq<Tag>, t: Tag, E: nat, r': seq<Tag>)
    requires 1 <= E <= |r| && t !in r[..E] && |r'| >= E - 1 && r'[..E - 1] == r[..E - 1]
    ensures Touch(r[..E], t, E) == Take([t] + r', E)
  {
    assert ([t] + r')[..E] == [t] + r'[..E - 1];
    assert r[..E][..E - 1] == r[..E - 1];
  }

  lemma TouchTake(r: seq<Tag>, t: Tag, E: nat)
    requires 1 <= E && Distinct(r)
    ensures Touch(Take(r, E), t, E) == Take([t] + Remove(r, t), E)
  {
    hide Remove, Distinct;
    if t in r {
      var k := RemoveFirst(r, t);
      if |r| <= E {
        assert Take(r, E) == r;
        TakeAll([t] + Remove(r, t), E);
      } else if k < E {
        TouchHeld(r, t, E, k);
      } else {
        assert r[..k][..E] == r[..E];
        TouchDropped(r, t, E, r[..k] + r[k + 1..]);
      }
    } else {
      RemoveAbsent(r, t);
      if |r| < E {
        TakeAll([t] + r, E);
      } else {
        TouchDropped(r, t, E, r);
      }
    }
  }

  lemma TakeAll<T>(l: seq<T>, n: nat)
    requires |l| <= n
    ensures Take(l, n) == l
  {
  }

  /** The inclusion property: what is held with E lines is held, in the same order, with more. */
  lemma Inclusion(h: seq<Tag>, E: nat, F: nat)
    requires 1 <= E <= F
    ensures Lines(h, E) == Take(Lines(h, F), E)
    ensures forall t :: t in Lines(h, E) ==> t in Lines(h, F)
  {
    LinesAreMostRecent(h, E);
    LinesAreMostRecent(h, F);
  }

  /** A set that is full with F lines is full with E <= F. */
  lemma FullWithFewer(h: seq<Tag>, E: nat, F: nat)
    requires 1 <= E <= F
    ensures |Lines(h, F)| == F ==> |Lines(h, E)| == E
  {
    hide Lines;
    Inclusion(h, E, F);
  }
}
