/** The entries of SimpleFS as values.  A directory tree is nothing but a list of path names: the
    tree is in the prefixes of the names. */
module FileTree {

  datatype Node = Node(name: string, isDir: bool)

  type Tree = seq<Node>

  const OK: int := 0
  const ENOENT: int := -2
  const EEXIST: int := -17

  /** The index of the last '/', or -1. */
  function LastSlash(n: string): (i: int)
    ensures -1 <= i < |n|
    ensures i >= 0 ==> n[i] == '/'
    ensures forall j :: i < j < |n| ==> n[j] != '/'
  {
    if n == "" then -1 else if n[|n| - 1] == '/' then |n| - 1 else LastSlash(n[..|n| - 1])
  }

  /** The name of the directory in which insert_entry puts n; a name without '/' stays whole. */
  function Dirname(n: string): (d: string)
  {
    var i := LastSlash(n);
    if i == 0 then "/" else if i < 0 then n else n[..i]
  }

  predicate Nested(n: string) { '/' in n && n != "/" }

  lemma DirnameShorter(n: string)
    requires Nested(n)
    ensures |Dirname(n)| < |n|
  {
  }

  /** p is n, or a directory above n. */
  predicate Under(p: string, n: string)
    decreases |n|
  {
    n == p || (Nested(n) && (DirnameShorter(n); Under(p, Dirname(n))))
  }

  predicate IsChild(n: string, d: string) { Nested(n) && Dirname(n) == d }

  lemma PrefixIsNested(p: string, n: string)
    requires p != "" && p + "/" <= n
    ensures Nested(n) && n[|p|] == '/'
  {
    assert n[|p|] == (p + "/")[|p|];
  }

  /** The entries below a path are those that begin with the path and a '/'. */
  lemma {:induction false} UnderIsPrefix(p: string, n: string)
    requires p != "" && p != "/"
    ensures Under(p, n) <==> n == p || p + "/" <= n
    decreases |n|
  {
    if p + "/" <= n {
      PrefixIsNested(p, n);
    }
    if Nested(n) {
      DirnameShorter(n);
      UnderIsPrefix(p, Dirname(n));
      var i := LastSlash(n);
      if n != p && p + "/" <= n {
        assert |p| <= i;
        assert n[..i] == Dirname(n);
        if i == |p| {
          assert Dirname(n) == p;
        } else {
          assert p + "/" <= Dirname(n);
        }
      }
      if n != p && Under(p, n) {
        assert i > 0 ==> Dirname(n) <= n;
        if i > 0 && Dirname(n) == p {
          assert n[..i] + [n[i]] == n[..i + 1];
          assert p + "/" <= n;
        }
      }
    }
  }

  lemma {:induction false} UnderTransitive(p: string, q: string, n: string)
    requires Under(p, q) && Under(q, n)
    ensures Under(p, n)
    decreases |n|
  {
    if n == q {
    } else {
      DirnameShorter(n);
      UnderTransitive(p, q, Dirname(n));
    }
  }

  lemma {:induction false} UnderNotLonger(p: string, n: string)
    requires Under(p, n)
    ensures |p| <= |n| && (p != n ==> |p| < |n|)
    decreases |n|
  {
    if n == p {
    } else {
      DirnameShorter(n);
      UnderNotLonger(p, Dirname(n));
    }
  }

  /** The entry just below d on the way to n. */
  function Branch(d: string, n: string): (k: string)
    requires Under(d, n) && n != d
    ensures IsChild(k, d) && Under(k, n)
    decreases |n|
  {
    DirnameShorter(n);
    if Dirname(n) == d then n else Branch(d, Dirname(n))
  }

  /** A name below d is below exactly one of d's children. */
  lemma {:induction false} OneBranch(d: string, k: string, n: string)
    requires IsChild(k, d)
    ensures Under(k, n) <==> n != d && Under(d, n) && Branch(d, n) == k
    decreases |n|
  {
    DirnameShorter(k);
    if Under(k, n) {
      UnderTransitive(d, k, n);
      UnderNotLonger(k, n);
      DirnameShorter(n);
      if n != k {
        OneBranch(d, k, Dirname(n));
      }
    }
  }

  // ---------------------------------------------------------------- trees

  /** The place of the first entry called n; |t| when there is none. */
  function Find(t: Tree, n: string): (i: nat)
    ensures i <= |t| && (i < |t| ==> t[i].name == n)
    ensures forall j :: 0 <= j < i ==> t[j].name != n
  {
    if t == [] || t[0].name == n then 0 else 1 + Find(t[1..], n)
  }

  predicate HasDirectory(t: Tree, n: string) { var i := Find(t, n); i < |t| && t[i].isDir }

  ghost predicate Distinct(t: Tree) {
    forall i, j :: 0 <= i < j < |t| ==> t[i].name != t[j].name
  }

  /** Every entry but the first lies in a directory of the tree. */
  ghost predicate Housed(t: Tree) {
    forall i :: 1 <= i < |t| ==> Nested(t[i].name) && HasDirectory(t, Dirname(t[i].name))
  }

  ghost predicate IsTree(t: Tree) {
    t != [] && t[0] == Node("/", true) && Distinct(t) && Housed(t)
  }

  lemma FindAt(t: Tree, i: nat)
    requires Distinct(t) && i < |t|
    ensures Find(t, t[i].name) == i
  {
  }

  lemma FindIs(t: Tree, n: string, i: nat)
    requires i <= |t| && (i < |t| ==> t[i].name == n) && forall j :: 0 <= j < i ==> t[j].name != n
    ensures Find(t, n) == i
  {
    assert Find(t, n) < |t| ==> t[Find(t, n)].name == n;
  }

  lemma FindAppend(t: Tree, x: Node, n: string)
    ensures Find(t + [x], n) == if Find(t, n) < |t| then Find(t, n) else if n == x.name then |t| else |t| + 1
  {
    var u := t + [x];
    var i := Find(u, n);
    assert Find(t, n) < |t| ==> u[Find(t, n)].name == n;
    assert u[|t|] == x;
    assert i < |t| ==> t[i].name == n;
    assert i < Find(t, n) && i < |t| ==> false by {
      assert i < |t| ==> u[i] == t[i];
    }
  }

  /** With an entry, all directories above it are in the tree. */
  lemma {:induction false} AncestorPresent(t: Tree, i: nat, p: string)
    requires IsTree(t) && i < |t| && Under(p, t[i].name)
    ensures Find(t, p) < |t|
    ensures p != t[i].name ==> t[Find(t, p)].isDir
    decreases |t[i].name|
  {
    var n := t[i].name;
    FindAt(t, i);
    if n == p {
    } else {
      DirnameShorter(n);
      assert i > 0;
      assert HasDirectory(t, Dirname(n));
      AncestorPresent(t, Find(t, Dirname(n)), p);
    }
  }

  lemma {:induction false} AllUnderRoot(t: Tree, i: nat)
    requires IsTree(t) && i < |t|
    ensures Under("/", t[i].name)
    decreases |t[i].name|
  {
    if i == 0 {
    } else {
      DirnameShorter(t[i].name);
      AllUnderRoot(t, Find(t, Dirname(t[i].name)));
    }
  }

  // ---------------------------------------------------------------- operations

  /** insert_entry */
  function Insert(t: Tree, x: Node): (r: (Tree, int)) {
    if HasDirectory(t, Dirname(x.name)) then (t + [x], OK) else (t, ENOENT)
  }

  /** simplefs_create and simplefs_mkdir: with O_EXCL or-ed in, an existing entry is always an error. */
  function Make(t: Tree, path: string, isDir: bool): (r: (Tree, int)) {
    if Find(t, path) < |t| then (t, EEXIST) else Insert(t, Node(path, isDir))
  }

  /** The entries that do not lie under p. */
  function Prune(t: Tree, p: string): (u: Tree)
    ensures |u| <= |t|
  {
    if t == [] then [] else (if Under(p, t[0].name) then [] else [t[0]]) + Prune(t[1..], p)
  }

  /** rmhelper; the root has no parent and is left alone. */
  function Remove(t: Tree, path: string): (r: (Tree, int)) {
    if Find(t, path) == |t| then (t, ENOENT)
    else if path == "/" then (t, OK)
    else (Prune(t, path), OK)
  }

  /** What main sets up. */
  function Initial(): Tree {
    [Node("/", true), Node("/hello1", false), Node("/hello2", false),
     Node("/hellod1", true), Node("/hellod2", true), Node("/hellod1/hello3", false)]
  }

  lemma LastSlashAt(n: string, i: nat)
    requires i < |n| && n[i] == '/' && forall j :: i < j < |n| ==> n[j] != '/'
    ensures LastSlash(n) == i
  {
  }

  lemma InitialNames()
    ensures IsChild("/hello1", "/") && IsChild("/hello2", "/") && IsChild("/hellod1", "/") && IsChild("/hellod2", "/")
    ensures IsChild("/hellod1/hello3", "/hellod1")
  {
    LastSlashAt("/hello1", 0);
    LastSlashAt("/hello2", 0);
    LastSlashAt("/hellod1", 0);
    LastSlashAt("/hellod2", 0);
    LastSlashAt("/hellod1/hello3", 8);
    assert "/hellod1/hello3"[..8] == "/hellod1";
  }

  lemma InitialChildOf(d: string)
    ensures !IsChild("/", d)
    ensures IsChild("/hello1", d) <==> d == "/"
    ensures IsChild("/hello2", d) <==> d == "/"
    ensures IsChild("/hellod1", d) <==> d == "/"
    ensures IsChild("/hellod2", d) <==> d == "/"
    ensures IsChild("/hellod1/hello3", d) <==> d == "/hellod1"
  {
    hide Dirname;
    InitialNames();
  }

  lemma InitialDistinct()
    ensures Distinct(Initial())
  {
    assert "/hello1"[6] != "/hello2"[6];
    assert "/hellod1"[7] != "/hellod2"[7];
    assert |"/hellod1/hello3"| == 15;
  }

  lemma InitialIsTree()
    ensures IsTree(Initial())
  {
    InitialNames();
    InitialDistinct();
    hide LastSlash, Dirname, HasDirectory, Find;
    var t := Initial();
    InDirectory(t, 0, "/hello1");
    InDirectory(t, 0, "/hello2");
    InDirectory(t, 0, "/hellod1");
    InDirectory(t, 0, "/hellod2");
    InDirectory(t, 3, "/hellod1/hello3");
  }

  lemma InDirectory(t: Tree, k: nat, n: string)
    requires Distinct(t) && k < |t| && t[k].isDir && IsChild(n, t[k].name)
    ensures Nested(n) && HasDirectory(t, Dirname(n))
  {
    FindAt(t, k);
  }

  datatype Op = Create(path: string) | Mkdir(path: string) | Unlink(path: string) | Rmdir(path: string)

  function Apply(t: Tree, op: Op): (Tree, int) {
    match op
    case Create(path) => Make(t, path, false)
    case Mkdir(path) => Make(t, path, true)
    case Unlink(path) => Remove(t, path)
    case Rmdir(path) => Remove(t, path)
  }

  function Run(t: Tree, ops: seq<Op>): Tree
    decreases |ops|
  {
    if ops == [] then t else Run(Apply(t, ops[0]).0, ops[1..])
  }

  lemma MakeKeepsTree(t: Tree, path: string, isDir: bool)
    requires IsTree(t)
    ensures IsTree(Make(t, path, isDir).0)
  {
    hide IsTree, HasDirectory, Dirname, Find;
    if Find(t, path) == |t| && HasDirectory(t, Dirname(path)) {
      NewIsNested(t, path);
      AppendKeepsTree(t, Node(path, isDir));
    }
  }

  /** A name that is not taken, in a directory that is there. */
  lemma NewIsNested(t: Tree, path: string)
    requires IsTree(t) && Find(t, path) == |t| && HasDirectory(t, Dirname(path))
    ensures Nested(path)
  {
    hide Find, Housed, Distinct, LastSlash;
    assert t[0].name == "/" && path != "/" && Dirname(path) != path;
    assert LastSlash(path) >= 0;
  }

  lemma HasDirectoryAppend(t: Tree, x: Node, n: string)
    requires HasDirectory(t, n)
    ensures HasDirectory(t + [x], n)
  {
    FindAppend(t, x, n);
  }

  lemma AppendKeepsTree(t: Tree, x: Node)
    requires IsTree(t) && Nested(x.name) && Find(t, x.name) == |t| && HasDirectory(t, Dirname(x.name))
    ensures IsTree(t + [x])
  {
    hide Nested, Dirname, HasDirectory, Find;
    var u := t + [x];
    forall i | 1 <= i < |u| ensures Nested(u[i].name) && HasDirectory(u, Dirname(u[i].name)) {
      HasDirectoryAppend(t, x, Dirname(u[i].name));
    }
  }

  lemma {:induction false} PruneMembers(t: Tree, p: string)
    ensures forall x :: x in Prune(t, p) <==> x in t && !Under(p, x.name)
    ensures Distinct(t) ==> Distinct(Prune(t, p))
  {
    if t == [] {
    } else {
      PruneMembers(t[1..], p);
      var u := Prune(t[1..], p);
      assert forall x :: x in t <==> x == t[0] || x in t[1..];
      assert Distinct(t) ==> forall x :: x in t[1..] ==> x.name != t[0].name;
      if !Under(p, t[0].name) {
        assert Prune(t, p) == [t[0]] + u;
      }
    }
  }

  /** Removing an entry removes exactly that entry and what is below it. */
  lemma RemoveIsExact(t: Tree, path: string, x: Node)
    requires IsTree(t) && Find(t, path) < |t| && path != "/"
    ensures Remove(t, path).1 == OK
    ensures x in Remove(t, path).0 <==> x in t && !(x.name == path || path + "/" <= x.name)
  {
    assert path != "" by {
      assert forall i :: 1 <= i < |t| ==> Nested(t[i].name);
    }
    UnderIsPrefix(path, x.name);
    PruneMembers(t, path);
  }

  lemma FindMember(t: Tree, x: Node)
    requires Distinct(t) && x in t
    ensures Find(t, x.name) < |t| && t[Find(t, x.name)] == x
  {
    var i :| 0 <= i < |t| && t[i] == x;
    FindAt(t, i);
  }

  lemma PruneKeepsTree(t: Tree, p: string)
    requires IsTree(t) && Nested(p)
    ensures IsTree(Prune(t, p))
  {
    var u := Prune(t, p);
    PruneMembers(t, p);
    assert !Under(p, "/");
    assert u[0] == t[0];
    forall i | 1 <= i < |u| ensures Nested(u[i].name) && HasDirectory(u, Dirname(u[i].name)) {
      var x := u[i];
      assert x in u && x in t && x.name != "/";
      FindMember(t, x);
      var y := t[Find(t, Dirname(x.name))];
      assert y in t && y.isDir && y.name == Dirname(x.name);
      assert !Under(p, y.name);
      FindMember(u, y);
    }
  }

  lemma ApplyKeepsTree(t: Tree, op: Op)
    requires IsTree(t)
    ensures IsTree(Apply(t, op).0)
  {
    match op
    case Create(path) => MakeKeepsTree(t, path, false);
    case Mkdir(path) => MakeKeepsTree(t, path, true);
    case Unlink(path) => RemoveKeepsTree(t, path);
    case Rmdir(path) => RemoveKeepsTree(t, path);
  }

  lemma RemoveKeepsTree(t: Tree, path: string)
    requires IsTree(t)
    ensures IsTree(Remove(t, path).0)
  {
    if Find(t, path) < |t| && path != "/" {
      PruneKeepsTree(t, path);
    }
  }

  /** Whatever is created and removed, the entries form a tree. */
  lemma {:induction false} RunKeepsTree(t: Tree, ops: seq<Op>)
    requires IsTree(t)
    ensures IsTree(Run(t, ops))
    decreases |ops|
  {
    if ops == [] {
    } else {
      ApplyKeepsTree(t, ops[0]);
      RunKeepsTree(Apply(t, ops[0]).0, ops[1..]);
    }
  }

  lemma {:induction false} PruneNothing(t: Tree, p: string)
    requires forall x :: x in t ==> !Under(p, x.name)
    ensures Prune(t, p) == t
  {
    if t == [] {
    } else {
      assert t[0] in t;
      PruneNothing(t[1..], p);
    }
  }

  lemma {:induction false} PruneAppend(t: Tree, x: Node, p: string)
    ensures Prune(t + [x], p) == if Under(p, x.name) then Prune(t, p) else Prune(t, p) + [x]
  {
    if t == [] {
    } else {
      assert (t + [x])[1..] == t[1..] + [x];
      PruneAppend(t[1..], x, p);
    }
  }

  lemma NothingUnder(t: Tree, path: string)
    requires IsTree(t) && Find(t, path) == |t|
    ensures forall x :: x in t ==> !Under(path, x.name)
  {
    forall x | x in t && Under(path, x.name) ensures false {
      var i :| 0 <= i < |t| && t[i] == x;
      AncestorPresent(t, i, path);
    }
  }

  /** Unlinking what was just made restores the tree. */
  lemma MakeThenRemove(t: Tree, path: string, isDir: bool)
    requires IsTree(t) && Make(t, path, isDir).1 == OK
    ensures Remove(Make(t, path, isDir).0, path) == (t, OK)
  {
    var x := Node(path, isDir);
    assert Make(t, path, isDir).0 == t + [x] && path != "/" && Find(t, path) == |t|;
    NothingUnder(t, path);
    PruneAdded(t, x);
  }

  lemma PruneAdded(t: Tree, x: Node)
    requires Find(t, x.name) == |t| && x.name != "/"
    requires forall y :: y in t ==> !Under(x.name, y.name)
    ensures Remove(t + [x], x.name) == (t, OK)
  {
    UnderSelf(x.name);
    hide Under, Find, Prune;
    FindAppend(t, x, x.name);
    PruneNothing(t, x.name);
    PruneAppend(t, x, x.name);
  }

  lemma UnderSelf(p: string)
    ensures Under(p, p)
  {
  }

  // ---------------------------------------------------------------- sizes

  /** The entries directly in d. */
  function Kids(t: Tree, d: string): (u: Tree)
  {
    if t == [] then [] else (if IsChild(t[0].name, d) then [t[0]] else []) + Kids(t[1..], d)
  }

  /** The bytes in the entries at and under p. */
  function Total(t: Tree, sizes: seq<nat>, p: string): nat
    requires |sizes| == |t|
  {
    if t == [] then 0
    else (if Under(p, t[0].name) then sizes[0] else 0) + Total(t[1..], sizes[1..], p)
  }

  function TotalEach(kids: Tree, t: Tree, sizes: seq<nat>): nat
    requires |sizes| == |t|
  {
    if kids == [] then 0 else Total(t, sizes, kids[0].name) + TotalEach(kids[1..], t, sizes)
  }

  /** How many of kids lie above n. */
  function CountAbove(kids: Tree, n: string): nat {
    if kids == [] then 0 else (if Under(kids[0].name, n) then 1 else 0) + CountAbove(kids[1..], n)
  }

  lemma {:induction false} TotalEachStep(kids: Tree, t: Tree, sizes: seq<nat>)
    requires |sizes| == |t| && t != [] && CountAbove(kids, t[0].name) <= 1
    ensures TotalEach(kids, t, sizes) ==
            TotalEach(kids, t[1..], sizes[1..]) + if CountAbove(kids, t[0].name) == 1 then sizes[0] else 0
  {
    if kids == [] {
    } else {
      TotalEachStep(kids[1..], t, sizes);
    }
  }

  lemma FindFirst(t: Tree)
    requires Distinct(t) && t != []
    ensures Distinct(t[1..]) && Find(t[1..], t[0].name) == |t[1..]|
  {
  }

  /** n is below exactly one child of d if it is below d, and below none otherwise. */
  lemma {:induction false} CountBranches(t: Tree, d: string, n: string)
    requires Distinct(t)
    ensures CountAbove(Kids(t, d), n) ==
            if n != d && Under(d, n) && Find(t, Branch(d, n)) < |t| then 1 else 0
  {
    if t == [] {
    } else {
      var rest := t[1..];
      CountBranches(rest, d, n);
      FindFirst(t);
      if IsChild(t[0].name, d) {
        OneBranch(d, t[0].name, n);
        assert Kids(t, d) == [t[0]] + Kids(rest, d);
      } else {
        assert Kids(t, d) == Kids(rest, d);
      }
    }
  }

  lemma {:induction false} KidsTotal(t: Tree, u: Tree, sizes: seq<nat>, d: string)
    requires |sizes| == |u| && Distinct(t)
    requires forall i :: 0 <= i < |u| && u[i].name == d ==> sizes[i] == 0
    requires forall i :: 0 <= i < |u| && u[i].name != d && Under(d, u[i].name) ==> Find(t, Branch(d, u[i].name)) < |t|
    ensures TotalEach(Kids(t, d), u, sizes) == Total(u, sizes, d)
    decreases |u|
  {
    if u != [] {
      CountBranches(t, d, u[0].name);
      TotalEachStep(Kids(t, d), u, sizes);
      KidsTotal(t, u[1..], sizes[1..], d);
    } else {
      TotalEachNothing(Kids(t, d));
    }
  }

  lemma {:induction false} TotalEachNothing(kids: Tree)
    ensures TotalEach(kids, [], []) == 0
  {
    if kids == [] {
    } else {
      TotalEachNothing(kids[1..]);
    }
  }

  /** A directory's total is the sum over its children: what Directory::size adds up. */
  lemma DirectoryTotal(t: Tree, sizes: seq<nat>, d: string)
    requires IsTree(t) && |sizes| == |t|
    requires Find(t, d) < |t| && sizes[Find(t, d)] == 0
    ensures TotalEach(Kids(t, d), t, sizes) == Total(t, sizes, d)
  {
    forall i | 0 <= i < |t| && t[i].name != d && Under(d, t[i].name) ensures Find(t, Branch(d, t[i].name)) < |t| {
      AncestorPresent(t, i, Branch(d, t[i].name));
    }
    KidsTotal(t, t, sizes, d);
  }

  /** A file has nothing below it. */
  lemma FileTotal(t: Tree, sizes: seq<nat>, i: nat)
    requires IsTree(t) && |sizes| == |t| && i < |t| && !t[i].isDir
    ensures Total(t, sizes, t[i].name) == sizes[i]
  {
    forall j | 0 <= j < |t| ensures Under(t[i].name, t[j].name) <==> j == i {
      if Under(t[i].name, t[j].name) {
        AncestorPresent(t, j, t[i].name);
        FindAt(t, i);
      }
    }
    TotalOfOne(t, sizes, t[i].name, i);
  }

  lemma {:induction false} TotalOfOne(t: Tree, sizes: seq<nat>, p: string, i: int)
    requires |sizes| == |t| && -1 <= i < |t|
    requires forall j :: 0 <= j < |t| ==> (Under(p, t[j].name) <==> j == i)
    ensures Total(t, sizes, p) == if i >= 0 then sizes[i] else 0
    decreases |t|
  {
    if t == [] {
    } else {
      TotalOfOne(t[1..], sizes[1..], p, if i >= 1 then i - 1 else -1);
    }
  }
}
