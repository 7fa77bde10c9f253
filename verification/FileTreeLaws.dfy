/** What the callbacks answer, said of the names that are there and of how the path is written. */
module FileTreeLaws {
  import opened FileTree

  ghost predicate Taken(t: Tree, path: string) {
    exists x :: x in t && x.name == path
  }

  /** path is a last component behind the name of a directory and a '/'; behind the root, "/" is enough. */
  predicate Names(path: string, d: string, base: string) {
    '/' !in base && (path == d + "/" + base || (d == "/" && path == "/" + base))
  }

  ghost predicate HasHome(t: Tree, path: string) {
    exists d, base :: Node(d, true) in t && Names(path, d, base)
  }

  lemma DirnameOf(path: string, d: string, base: string)
    requires d != "" && Names(path, d, base)
    ensures Dirname(path) == d
  {
    if d == "/" && path == "/" + base {
      LastSlashAt(path, 0);
    } else {
      var i := |d|;
      assert path == d + ("/" + base);
      assert path[i] == '/' && path[..i] == d;
      forall j | i < j < |path| ensures path[j] != '/' {
        assert path[j] == base[j - i - 1];
      }
      LastSlashAt(path, i);
    }
  }

  lemma SplitAtLastSlash(path: string)
    requires LastSlash(path) >= 0
    ensures exists base :: Names(path, Dirname(path), base)
  {
    var i := LastSlash(path);
    var base := path[i + 1..];
    assert '/' !in base;
    assert path == path[..i] + "/" + base;
    assert i == 0 ==> path == "/" + base;
    assert Names(path, Dirname(path), base);
  }

  lemma TakenIsFound(t: Tree, path: string)
    ensures Taken(t, path) <==> Find(t, path) < |t|
  {
    if Find(t, path) < |t| {
      assert t[Find(t, path)] in t;
    }
  }

  lemma NamesAreNotEmpty(t: Tree, x: Node)
    requires IsTree(t) && x in t
    ensures x.name != ""
  {
    var i :| 0 <= i < |t| && t[i] == x;
    assert i > 0 ==> Nested(t[i].name);
  }

  lemma HomeIsDirectory(t: Tree, path: string)
    requires IsTree(t) && !Taken(t, path)
    ensures HasHome(t, path) <==> HasDirectory(t, Dirname(path))
  {
    if HasHome(t, path) {
      var d, base :| Node(d, true) in t && Names(path, d, base);
      NamesAreNotEmpty(t, Node(d, true));
      DirnameOf(path, d, base);
      hide Dirname, Names, Housed;
      FindMember(t, Node(d, true));
    }
    if HasDirectory(t, Dirname(path)) {
      TakenIsFound(t, path);
      assert LastSlash(path) >= 0;
      SplitAtLastSlash(path);
      hide LastSlash, Dirname, Names, IsTree;
      var base :| Names(path, Dirname(path), base);
      assert t[Find(t, Dirname(path))] == Node(Dirname(path), true);
      assert Node(Dirname(path), true) in t;
    }
  }

  /** Creating succeeds exactly for a free name in a directory that is there, and then the new entry is
      the last one; the errors change nothing and tell the two reasons apart. */
  lemma MakeAnswers(t: Tree, op: Op)
    requires IsTree(t) && (op.Create? || op.Mkdir?)
    ensures Apply(t, op) ==
            if Taken(t, op.path) then (t, EEXIST)
            else if HasHome(t, op.path) then (t + [Node(op.path, op.Mkdir?)], OK)
            else (t, ENOENT)
  {
    TakenIsFound(t, op.path);
    if !Taken(t, op.path) {
      HomeIsDirectory(t, op.path);
    }
  }

  /** Removing fails exactly for a name that is not there, and never removes the root. */
  lemma RemoveAnswers(t: Tree, op: Op)
    requires IsTree(t) && (op.Unlink? || op.Rmdir?)
    ensures Apply(t, op).1 == if Taken(t, op.path) then OK else ENOENT
    ensures !Taken(t, op.path) || op.path == "/" ==> Apply(t, op).0 == t
    ensures Taken(t, op.path) && op.path != "/" ==>
      forall x :: x in Apply(t, op).0 <==> x in t && !(x.name == op.path || op.path + "/" <= x.name)
  {
    TakenIsFound(t, op.path);
    if Taken(t, op.path) && op.path != "/" {
      forall x ensures x in Apply(t, op).0 <==> x in t && !(x.name == op.path || op.path + "/" <= x.name) {
        RemoveIsExact(t, op.path, x);
      }
    }
  }

  lemma FindInTail(t: Tree, x: Node)
    requires Distinct(t) && t != [] && x in t[1..]
    ensures Find(t, x.name) == 1 + Find(t[1..], x.name) < |t|
  {
    FindFirst(t);
    FindMember(t[1..], x);
  }

  /** The entries that are left keep their order. */
  lemma {:induction false} PruneKeepsOrder(t: Tree, p: string, i: nat, j: nat)
    requires Distinct(t) && i < j < |Prune(t, p)|
    ensures Find(t, Prune(t, p)[i].name) < Find(t, Prune(t, p)[j].name) < |t|
  {
    hide Find, Under, Prune, Distinct;
    PruneFirst(t, p);
    var at := if Under(p, t[0].name) then 0 else 1;
    FindPruned(t, p, j - at);
    if i < at {
      FindFirst(t);
      FindAt(t, 0);
    } else {
      FindFirst(t);
      PruneKeepsOrder(t[1..], p, i - at, j - at);
      FindPruned(t, p, i - at);
    }
  }

  lemma PruneFirst(t: Tree, p: string)
    ensures Prune(t, p) == if t == [] then []
                           else if Under(p, t[0].name) then Prune(t[1..], p)
                           else [t[0]] + Prune(t[1..], p)
  {
  }

  lemma FindPruned(t: Tree, p: string, k: nat)
    requires Distinct(t) && t != [] && k < |Prune(t[1..], p)|
    ensures var n := Prune(t[1..], p)[k].name; Find(t, n) == 1 + Find(t[1..], n) < |t|
  {
    PruneMembers(t[1..], p);
    FindInTail(t, Prune(t[1..], p)[k]);
  }

  // ---------------------------------------------------------------- sizes

  /** The bytes at and under p, one by one: a byte is a place in the content of an entry. */
  ghost function Bytes(t: Tree, sizes: seq<nat>, p: string): set<(string, nat)>
    requires |sizes| == |t|
  {
    set i, k | 0 <= i < |t| && 0 <= k < sizes[i] && Under(p, t[i].name) :: (t[i].name, k)
  }

  ghost function Content(n: string, size: nat): set<(string, nat)> {
    set k | 0 <= k < size :: (n, k)
  }

  lemma {:induction false} ContentSize(n: string, size: nat)
    ensures |Content(n, size)| == size
  {
    if size == 0 {
      assert Content(n, size) == {};
    } else {
      ContentSize(n, size - 1);
      assert Content(n, size) == Content(n, size - 1) + {(n, size - 1)};
    }
  }

  lemma BytesStep(t: Tree, sizes: seq<nat>, p: string)
    requires |sizes| == |t| && t != [] && Distinct(t)
    ensures var rest := Bytes(t[1..], sizes[1..], p);
            var first := if Under(p, t[0].name) then Content(t[0].name, sizes[0]) else {};
            Bytes(t, sizes, p) == first + rest && first !! rest
  {
    hide Under;
    var rest := Bytes(t[1..], sizes[1..], p);
    forall b | b in Bytes(t, sizes, p)
      ensures b in rest || (Under(p, t[0].name) && b in Content(t[0].name, sizes[0]))
    {
      var i, k :| 0 <= i < |t| && 0 <= k < sizes[i] && Under(p, t[i].name) && b == (t[i].name, k);
      if i > 0 {
        assert t[1..][i - 1] == t[i] && sizes[1..][i - 1] == sizes[i];
      }
    }
    forall b | b in rest ensures b in Bytes(t, sizes, p) && b.0 != t[0].name {
      var i, k :| 0 <= i < |t[1..]| && 0 <= k < sizes[1..][i] && Under(p, t[1..][i].name) && b == (t[1..][i].name, k);
      assert t[i + 1] == t[1..][i] && sizes[i + 1] == sizes[1..][i];
    }
  }

  /** The total of p is the number of bytes at and under it. */
  lemma {:induction false} TotalCountsBytes(t: Tree, sizes: seq<nat>, p: string)
    requires |sizes| == |t| && Distinct(t)
    ensures Total(t, sizes, p) == |Bytes(t, sizes, p)|
  {
    if t == [] {
      assert Bytes(t, sizes, p) == {};
    } else {
      FindFirst(t);
      TotalCountsBytes(t[1..], sizes[1..], p);
      BytesStep(t, sizes, p);
      ContentSize(t[0].name, sizes[0]);
      hide Bytes, Content, Under;
    }
  }
}
