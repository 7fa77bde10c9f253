/** The entries on the heap: every directory lists its children, every entry knows its directory, and
    one global list holds them all. */
module FileSystem {
  import opened FileTree

  class Entry {
    const name: string
    const isDir: bool
    var content: string
    var dirent: seq<Entry>
    var parent: Entry?

    constructor (name: string, isDir: bool, content: string)
      ensures this.name == name && this.isDir == isDir && this.content == content
      ensures dirent == [] && parent == null
    {
      this.name, this.isDir, this.content := name, isDir, content;
      dirent, parent := [], null;
    }

    /** The bytes below a directory, found by recursion; it ends because names get longer. */
    method Size(ghost all: seq<Entry>) returns (sum: nat)
      requires IsTree(View(all)) && Linked(all, "/") && this in all
      ensures sum == Total(View(all), Sizes(all), name)
      decreases Longest(all) - |name|
    {
      hide IsTree, Total, TotalEach, Linked, Longest, Under, Children, View, Sizes;
      LongestBound(all, this);
      OwnTotal(all, this);
      if !isDir {
        return |content|;
      }
      EachOf(dirent, all);
      sum := 0;
      var i := 0;
      while i < |dirent|
        invariant 0 <= i <= |dirent|
        invariant sum + TotalEach(View(dirent[i..]), View(all), Sizes(all)) == Total(View(all), Sizes(all), name)
      {
        ChildBelow(all, name, dirent[i]);
        LongestBound(all, dirent[i]);
        var n := dirent[i].Size(all);
        EachOf(dirent[i..], all);
        assert dirent[i..][1..] == dirent[i + 1..];
        sum := sum + n;
        i := i + 1;
      }
      EachOf(dirent[i..], all);
    }
  }

  /** What the size of an entry has to be. */
  lemma OwnTotal(all: seq<Entry>, e: Entry)
    requires IsTree(View(all)) && Linked(all, "/") && e in all
    ensures e.isDir ==>
      && e.dirent == Children(all, e.name)
      && TotalEach(View(e.dirent), View(all), Sizes(all)) == Total(View(all), Sizes(all), e.name)
    ensures !e.isDir ==> |e.content| == Total(View(all), Sizes(all), e.name)
  {
    hide Total, TotalEach;
    var at :| 0 <= at < |all| && all[at] == e;
    if e.isDir {
      FindAt(View(all), at);
      RootAbove(all, e);
      ChildrenKids(all, e.name);
      DirectoryTotal(View(all), Sizes(all), e.name);
    } else {
      FileTotal(View(all), Sizes(all), at);
    }
  }

  /** Adding up goes on with the tail. */
  lemma EachOf(s: seq<Entry>, all: seq<Entry>)
    ensures TotalEach(View(s), View(all), Sizes(all)) ==
            if s == [] then 0
            else Total(View(all), Sizes(all), s[0].name) + TotalEach(View(s[1..]), View(all), Sizes(all))
  {
    hide Total;
    if s != [] {
      ViewFront(s);
    }
  }

  // ---------------------------------------------------------------- lists of entries

  function View(all: seq<Entry>): (t: Tree)
    ensures |t| == |all|
  {
    seq(|all|, i requires 0 <= i < |all| => Node(all[i].name, all[i].isDir))
  }

  function Sizes(all: seq<Entry>): (s: seq<nat>)
    reads all
    ensures |s| == |all|
    ensures forall i :: 0 <= i < |all| ==> s[i] == if all[i].isDir then 0 else |all[i].content|
  {
    if all == [] then [] else [if all[0].isDir then 0 else |all[0].content|] + Sizes(all[1..])
  }

  /** The entries whose path puts them directly into d, in order. */
  function Children(all: seq<Entry>, d: string): (c: seq<Entry>) {
    if all == [] then [] else (if IsChild(all[0].name, d) then [all[0]] else []) + Children(all[1..], d)
  }

  /** s without the entries in gone. */
  ghost function Minus(s: seq<Entry>, gone: set<Entry>): (r: seq<Entry>) {
    if s == [] then [] else (if s[0] in gone then [] else [s[0]]) + Minus(s[1..], gone)
  }

  ghost predicate NoDuplicates(s: seq<Entry>) {
    forall i, j :: 0 <= i < j < |s| ==> s[i] != s[j]
  }

  /** Every directory at or under p lists exactly its children, each once. */
  ghost predicate Linked(all: seq<Entry>, p: string)
    reads all
  {
    forall d :: d in all && d.isDir && Under(p, d.name) ==> d.dirent == Children(all, d.name)
  }

  ghost predicate InPlace(e: Entry, all: seq<Entry>)
    reads e
  {
    e.parent != null && e.parent in all && e.parent.isDir && e.parent.name == Dirname(e.name)
  }

  ghost predicate Parented(all: seq<Entry>)
    reads all
  {
    forall e :: e in all && e != all[0] ==> InPlace(e, all)
  }

  ghost function Subtree(all: seq<Entry>, p: string): set<Entry> {
    set e | e in all && Under(p, e.name)
  }

  ghost function Subtrees(all: seq<Entry>, kids: seq<Entry>): set<Entry> {
    set e | e in all && exists k :: k in kids && Under(k.name, e.name)
  }

  function Longest(all: seq<Entry>): nat {
    if all == [] then 0
    else if |all[0].name| >= Longest(all[1..]) then |all[0].name| else Longest(all[1..])
  }

  lemma LongestBound(all: seq<Entry>, e: Entry)
    requires e in all
    ensures |e.name| <= Longest(all)
  {
    if e != all[0] {
      LongestBound(all[1..], e);
    }
  }

  lemma ViewFront(s: seq<Entry>)
    requires s != []
    ensures View(s)[0] == Node(s[0].name, s[0].isDir) && View(s)[1..] == View(s[1..])
  {
  }

  lemma SameName(all: seq<Entry>, d: Entry, e: Entry)
    requires Distinct(View(all)) && d in all && e in all && d.name == e.name
    ensures d == e
  {
    var i :| 0 <= i < |all| && all[i] == d;
    var j :| 0 <= j < |all| && all[j] == e;
    assert View(all)[i].name == View(all)[j].name;
  }

  lemma RootAbove(all: seq<Entry>, e: Entry)
    requires IsTree(View(all)) && e in all
    ensures Under("/", e.name)
  {
    var i :| 0 <= i < |all| && all[i] == e;
    AllUnderRoot(View(all), i);
  }

  lemma {:induction false} ChildrenKids(all: seq<Entry>, d: string)
    ensures View(Children(all, d)) == Kids(View(all), d)
  {
    if all == [] {
    } else {
      ChildrenKids(all[1..], d);
      ViewFront(all);
      assert View(Children(all, d)) ==
             View(if IsChild(all[0].name, d) then [all[0]] else []) + View(Children(all[1..], d));
    }
  }

  lemma {:induction false} ChildMembers(all: seq<Entry>, d: string)
    ensures forall e :: e in Children(all, d) <==> e in all && IsChild(e.name, d)
    ensures NoDuplicates(all) ==> NoDuplicates(Children(all, d))
  {
    if all == [] {
    } else {
      ChildMembers(all[1..], d);
      assert forall e :: e in all <==> e == all[0] || e in all[1..];
      assert NoDuplicates(all) ==> all[0] !in all[1..];
    }
  }

  lemma ChildBelow(all: seq<Entry>, d: string, e: Entry)
    requires e in Children(all, d)
    ensures e in all && |e.name| > |d| && Under(d, e.name)
  {
    ChildMembers(all, d);
    DirnameShorter(e.name);
  }

  lemma {:induction false} MinusMembers(s: seq<Entry>, gone: set<Entry>)
    ensures forall e :: e in Minus(s, gone) <==> e in s && e !in gone
    ensures NoDuplicates(s) ==> NoDuplicates(Minus(s, gone))
  {
    if s == [] {
    } else {
      MinusMembers(s[1..], gone);
      assert forall e :: e in s <==> e == s[0] || e in s[1..];
      assert NoDuplicates(s) ==> s[0] !in s[1..];
    }
  }

  lemma {:induction false} MinusTwice(s: seq<Entry>, a: set<Entry>, b: set<Entry>)
    ensures Minus(Minus(s, a), b) == Minus(s, a + b)
  {
    if s == [] {
    } else {
      MinusTwice(s[1..], a, b);
      if s[0] in a {
        assert Minus(s, a) == Minus(s[1..], a);
      } else {
        assert Minus(s, a)[1..] == Minus(s[1..], a);
      }
    }
  }

  lemma {:induction false} MinusSame(s: seq<Entry>, a: set<Entry>, b: set<Entry>)
    requires forall e :: e in s ==> (e in a <==> e in b)
    ensures Minus(s, a) == Minus(s, b)
  {
    if s == [] {
    } else {
      assert s[0] in s;
      MinusSame(s[1..], a, b);
    }
  }

  lemma {:induction false} MinusNothing(s: seq<Entry>, gone: set<Entry>)
    requires forall e :: e in s ==> e !in gone
    ensures Minus(s, gone) == s
  {
    if s == [] {
    } else {
      assert s[0] in s;
      MinusNothing(s[1..], gone);
    }
  }

  lemma {:induction false} MinusOne(s: seq<Entry>, i: nat)
    requires NoDuplicates(s) && i < |s|
    ensures Minus(s, {s[i]}) == s[..i] + s[i + 1..]
  {
    if i == 0 {
      MinusNothing(s[1..], {s[0]});
    } else {
      MinusOne(s[1..], i - 1);
      assert s[..i] == [s[0]] + s[1..][..i - 1];
    }
  }

  lemma {:induction false} ChildrenMinus(all: seq<Entry>, gone: set<Entry>, d: string)
    ensures Children(Minus(all, gone), d) == Minus(Children(all, d), gone)
  {
    if all == [] {
    } else {
      ChildrenMinus(all[1..], gone, d);
      if all[0] in gone {
        assert Minus(all, gone) == Minus(all[1..], gone);
      } else {
        assert Minus(all, gone)[1..] == Minus(all[1..], gone);
      }
      if IsChild(all[0].name, d) {
        assert Children(all, d)[1..] == Children(all[1..], d);
      } else {
        assert Children(all, d) == Children(all[1..], d);
      }
    }
  }

  lemma ChildrenAppend(all: seq<Entry>, e: Entry, d: string)
    ensures Children(all + [e], d) == if IsChild(e.name, d) then Children(all, d) + [e] else Children(all, d)
  {
    ChildrenCat(all, [e], d);
    hide IsChild;
    assert Children([], d) == [] && [e][1..] == [];
  }

  lemma {:induction false} ViewPrune(all: seq<Entry>, gone: set<Entry>, p: string)
    requires forall e :: e in all ==> (e in gone <==> Under(p, e.name))
    ensures View(Minus(all, gone)) == Prune(View(all), p)
  {
    if all == [] {
    } else {
      assert all[0] in all;
      ViewPrune(all[1..], gone, p);
      ViewFront(all);
      if all[0] !in gone {
        ViewFront(Minus(all, gone));
        assert Minus(all, gone)[1..] == Minus(all[1..], gone);
      }
    }
  }

  /** The subtree of a directory is the directory and the subtrees of its children. */
  lemma SubtreeOfDirectory(all: seq<Entry>, d: Entry)
    requires IsTree(View(all)) && d in all
    ensures Subtree(all, d.name) == Subtrees(all, Children(all, d.name)) + {d}
  {
    ChildMembers(all, d.name);
    forall e | e in all
      ensures Under(d.name, e.name) <==> e == d || exists k :: k in Children(all, d.name) && Under(k.name, e.name)
    {
      hide Under, IsTree, Children;
      UnderSelf(d.name);
      if k :| k in Children(all, d.name) && Under(k.name, e.name) {
        OneBranch(d.name, k.name, e.name);
      }
      if Under(d.name, e.name) && e != d {
        var k := ChildAbove(all, d, e);
      }
    }
  }

  lemma ChildAbove(all: seq<Entry>, d: Entry, e: Entry) returns (k: Entry)
    requires IsTree(View(all)) && d in all && e in all && Under(d.name, e.name) && e != d
    ensures k in Children(all, d.name) && Under(k.name, e.name)
  {
    hide Under, Children, Find;
    if e.name == d.name {
      SameName(all, d, e);
    }
    var i :| 0 <= i < |all| && all[i] == e;
    var b := Branch(d.name, e.name);
    AncestorPresent(View(all), i, b);
    hide IsTree;
    k := all[Find(View(all), b)];
    assert View(all)[Find(View(all), b)].name == k.name;
    ChildMembers(all, d.name);
  }

  lemma SubtreeOfFile(all: seq<Entry>, f: Entry)
    requires IsTree(View(all)) && f in all && !f.isDir
    ensures Subtree(all, f.name) == {f}
  {
    forall e | e in all && Under(f.name, e.name) ensures e == f {
      var i :| 0 <= i < |all| && all[i] == e;
      var j :| 0 <= j < |all| && all[j] == f;
      AncestorPresent(View(all), i, f.name);
      FindAt(View(all), j);
      SameName(all, e, f);
    }
  }

  lemma SubtreesStep(all: seq<Entry>, kids: seq<Entry>, i: nat)
    requires i < |kids|
    ensures Subtrees(all, kids[..i + 1]) == Subtrees(all, kids[..i]) + Subtree(all, kids[i].name)
  {
    assert kids[..i + 1] == kids[..i] + [kids[i]];
    forall e | e in all
      ensures (exists k :: k in kids[..i + 1] && Under(k.name, e.name)) <==>
              (exists k :: k in kids[..i] && Under(k.name, e.name)) || Under(kids[i].name, e.name)
    {
      assert forall k :: k in kids[..i + 1] <==> k in kids[..i] || k == kids[i];
    }
  }

  /** std::find and erase */
  method Erase(s: seq<Entry>, x: Entry) returns (r: seq<Entry>)
    requires NoDuplicates(s)
    ensures r == Minus(s, {x})
  {
    var i := 0;
    while i < |s| && s[i] != x
      invariant 0 <= i <= |s| && x !in s[..i]
    {
      i := i + 1;
    }
    if i == |s| {
      assert s[..i] == s;
      MinusNothing(s, {x});
      return s;
    }
    MinusOne(s, i);
    return s[..i] + s[i + 1..];
  }

  // ---------------------------------------------------------------- the file system

  class FileSystem {
    const root: Entry
    var allEntries: seq<Entry>

    ghost predicate Valid()
      reads this, allEntries
    {
      && IsTree(View(allEntries)) && allEntries[0] == root && root.parent == null
      && Linked(allEntries, "/") && Parented(allEntries)
    }

    /** The entries that main sets up. */
    constructor ()
      ensures Valid() && fresh(allEntries) && View(allEntries) == Initial()
    {
      hide *;
      var r, f1, f2, d1, d2, f3 := SetUp();
      root := r;
      allEntries := [r, f1, f2, d1, d2, f3];
      new;
      InitialView(r, f1, f2, d1, d2, f3);
      InitialLinks(r, f1, f2, d1, d2, f3);
      InitialIsTree();
      ValidFrom();
    }

    static method SetUp() returns (r: Entry, f1: Entry, f2: Entry, d1: Entry, d2: Entry, f3: Entry)
      ensures fresh(r) && fresh(f1) && fresh(f2) && fresh(d1) && fresh(d2) && fresh(f3)
      ensures InitialEntries(r, f1, f2, d1, d2, f3) && r.parent == null
      ensures r.dirent == [f1, f2, d1, d2] && d1.dirent == [f3] && d2.dirent == []
      ensures f1.parent == r && f2.parent == r && d1.parent == r && d2.parent == r && f3.parent == d1
    {
      r := new Entry("/", true, "");
      f1 := new Entry("/hello1", false, "hello world1");
      f2 := new Entry("/hello2", false, "hello world2");
      d1 := new Entry("/hellod1", true, "");
      d2 := new Entry("/hellod2", true, "");
      f3 := new Entry("/hellod1/hello3", false, "hello world3");
      f1.parent, f2.parent, d1.parent, d2.parent, f3.parent := r, r, r, r, d1;
      r.dirent := [f1, f2, d1, d2];
      d1.dirent := [f3];
    }

    lemma ValidFrom()
      requires IsTree(View(allEntries)) && allEntries[0] == root && root.parent == null
      requires Linked(allEntries, "/") && Parented(allEntries)
      ensures Valid()
    {
    }

    /** std::find_if by name */
    method FindEntry(path: string) returns (it: nat)
      ensures it == Find(View(allEntries), path)
    {
      ghost var t := View(allEntries);
      it := 0;
      while it < |allEntries| && allEntries[it].name != path
        invariant 0 <= it <= |allEntries| && forall j :: 0 <= j < it ==> t[j].name != path
      {
        it := it + 1;
      }
      FindIs(t, path, it);
    }

    /** The loop of insert_entry that looks for the last '/'. */
    method DirectoryName(name: string) returns (dirname: string)
      ensures dirname == Dirname(name)
    {
      var idx := |name|;
      var found := false;
      while idx > 0 && !found
        invariant 0 <= idx <= |name| && (found ==> idx < |name| && name[idx] == '/')
        invariant forall j :: (if found then idx + 1 else idx) <= j < |name| ==> name[j] != '/'
      {
        idx := idx - 1;
        found := name[idx] == '/';
      }
      return if !found then name else if idx == 0 then "/" else name[..idx];
    }

    /** insert_entry for an entry whose name is not taken. */
    method InsertEntry(ent: Entry) returns (r: int)
      requires Valid() && ent !in allEntries && ent.dirent == []
      requires Find(View(allEntries), ent.name) == |allEntries|
      modifies this`allEntries, ent`parent, allEntries
      ensures Valid()
      ensures (View(allEntries), r) == Insert(old(View(allEntries)), Node(ent.name, ent.isDir))
      ensures allEntries == if r == OK then old(allEntries) + [ent] else old(allEntries)
      ensures ent.content == old(ent.content) && forall e :: e in old(allEntries) ==> e.content == old(e.content)
    {
      hide IsTree, Find, Linked, Parented, Dirname;
      var dirname := DirectoryName(ent.name);
      var it := FindEntry(dirname);
      if it == |allEntries| || !allEntries[it].isDir {
        return ENOENT;
      }
      var dir := allEntries[it];
      assert dir in allEntries && dir.name == dirname;
      InsertFacts(allEntries, ent, dir);
      Attach(ent, dir);
      return OK;
    }

    method Attach(ent: Entry, dir: Entry)
      requires Valid() && ent !in allEntries && ent.dirent == [] && dir in allEntries && dir.isDir
      requires IsChild(ent.name, dir.name) && Find(View(allEntries), ent.name) == |allEntries|
      requires IsTree(View(allEntries + [ent]))
      modifies this`allEntries, ent`parent, dir`dirent
      ensures Valid() && allEntries == old(allEntries) + [ent]
    {
      ghost var all := allEntries;
      hide IsTree, Find, Under, Dirname, View, Children, Nested, HasDirectory;
      ViewFirst(all, ent);
      dir.dirent := dir.dirent + [ent];
      ent.parent := dir;
      allEntries := allEntries + [ent];
      forall d | d in allEntries && d.isDir ensures d.dirent == Children(allEntries, d.name) {
        if d != ent {
          RootAbove(all, d);
          ChildrenAfterInsert(all, ent, dir, d);
        } else {
          ChildrenOfInserted(all, ent);
        }
      }
    }

    /** The destructors: first those of the children, then the entry leaves the global list. */
    method Delete(ent: Entry, ghost all: seq<Entry>)
      requires IsTree(View(all)) && ent in all && Linked(all, ent.name)
      requires NoDuplicates(allEntries)
      modifies this`allEntries
      ensures allEntries == Minus(old(allEntries), Subtree(all, ent.name))
      decreases Longest(all) - |ent.name|
    {
      ghost var s := allEntries;
      if ent.isDir {
        ghost var kids := ent.dirent;
        MinusNothing(s, Subtrees(all, kids[..0]));
        var i := 0;
        while i < |ent.dirent|
          invariant 0 <= i <= |ent.dirent| && NoDuplicates(allEntries)
          invariant allEntries == Minus(s, Subtrees(all, kids[..i]))
        {
          var child := ent.dirent[i];
          ChildBelow(all, ent.name, child);
          LongestBound(all, child);
          LinkedBelow(all, ent.name, child.name);
          Delete(child, all);
          MinusTwice(s, Subtrees(all, kids[..i]), Subtree(all, child.name));
          SubtreesStep(all, kids, i);
          MinusMembers(s, Subtrees(all, kids[..i + 1]));
          i := i + 1;
        }
        assert kids[..i] == kids;
        MinusTwice(s, Subtrees(all, kids), {ent});
        SubtreeOfDirectory(all, ent);
      } else {
        SubtreeOfFile(all, ent);
      }
      allEntries := Erase(allEntries, ent);
    }

    /** rmhelper */
    method RmHelper(path: string) returns (r: int)
      requires Valid()
      modifies this`allEntries, allEntries
      ensures Valid()
      ensures (View(allEntries), r) == Remove(old(View(allEntries)), path)
      ensures allEntries == Remaining(old(allEntries), path)
      ensures fresh((set e | e in allEntries) - old(set e | e in allEntries))
      ensures forall e :: e in allEntries ==> e in old(allEntries)
      ensures forall e :: e in old(allEntries) ==> e.content == old(e.content)
    {
      ghost var all := allEntries;
      RemainingAre(all, path);
      hide IsTree, Linked, Parented, Find, Minus, Subtree, Dirname, Under, IsChild;
      var it := FindEntry(path);
      if it == |allEntries| {
        return ENOENT;
      }
      var ent := allEntries[it];
      assert ent.name == path;
      HasParent(ent);
      if ent.parent == null {
        return OK;
      }
      Detach(ent, ent.parent);
      MinusMembers(all, Subtree(all, path));
      PrunedView(all, path);
      return OK;
    }

    lemma HasParent(ent: Entry)
      requires Valid() && ent in allEntries
      ensures ent.parent == null <==> ent.name == "/"
      ensures ent.parent != null ==> ent.parent in allEntries && ent.parent.isDir && IsChild(ent.name, ent.parent.name)
    {
      NestedUnlessRoot(allEntries, ent);
      assert ent != root ==> InPlace(ent, allEntries);
      assert root.name == View(allEntries)[0].name;
    }

    /** simplefs_create: O_EXCL is or-ed into the flags, so an existing entry is always an error. */
    method Create(path: string) returns (r: int)
      requires Valid()
      modifies this`allEntries, allEntries
      ensures Valid()
      ensures (View(allEntries), r) == Make(old(View(allEntries)), path, false)
      ensures r == OK ==> allEntries[|allEntries| - 1].content == ""
      ensures r != OK ==> allEntries == old(allEntries)
      ensures old(allEntries) <= allEntries && fresh((set e | e in allEntries) - old(set e | e in allEntries))
      ensures forall e :: e in old(allEntries) ==> e.content == old(e.content)
    {
      var it := FindEntry(path);
      if it < |allEntries| {
        return EEXIST;
      }
      var f := new Entry(path, false, "");
      r := InsertEntry(f);
    }

    /** simplefs_mkdir */
    method Mkdir(path: string) returns (r: int)
      requires Valid()
      modifies this`allEntries, allEntries
      ensures Valid()
      ensures (View(allEntries), r) == Make(old(View(allEntries)), path, true)
      ensures r != OK ==> allEntries == old(allEntries)
      ensures old(allEntries) <= allEntries && fresh((set e | e in allEntries) - old(set e | e in allEntries))
      ensures forall e :: e in old(allEntries) ==> e.content == old(e.content)
    {
      var it := FindEntry(path);
      if it < |allEntries| {
        return EEXIST;
      }
      var d := new Entry(path, true, "");
      r := InsertEntry(d);
    }

    /** simplefs_unlink and simplefs_rmdir: either removes whatever is there. */
    method Unlink(path: string) returns (r: int)
      requires Valid()
      modifies this`allEntries, allEntries
      ensures Valid()
      ensures (View(allEntries), r) == Remove(old(View(allEntries)), path)
      ensures allEntries == Remaining(old(allEntries), path)
      ensures fresh((set e | e in allEntries) - old(set e | e in allEntries))
      ensures forall e :: e in allEntries ==> e in old(allEntries)
      ensures forall e :: e in old(allEntries) ==> e.content == old(e.content)
    {
      r := RmHelper(path);
    }

    /** One of the four callbacks. */
    method Perform(op: Op) returns (r: int)
      requires Valid()
      modifies this`allEntries, allEntries
      ensures Valid() && fresh((set e | e in allEntries) - old(set e | e in allEntries))
      ensures (View(allEntries), r) == Apply(old(View(allEntries)), op)
      ensures forall e :: e in old(allEntries) ==> e.content == old(e.content)
    {
      hide IsTree, Linked, Parented, Make, Remove;
      match op
      case Create(path) => r := Create(path);
      case Mkdir(path) => r := Mkdir(path);
      case Unlink(path) => r := Unlink(path);
      case Rmdir(path) => r := Unlink(path);
    }

    /** Any sequence of calls: the objects stay a tree, and it is the one that the specification says. */
    method PerformAll(ops: seq<Op>)
      requires Valid()
      modifies this`allEntries, allEntries
      ensures Valid() && fresh((set e | e in allEntries) - old(set e | e in allEntries))
      ensures View(allEntries) == Run(old(View(allEntries)), ops)
    {
      hide Valid, View;
      for i := 0 to |ops|
        invariant Valid() && fresh((set e | e in allEntries) - old(set e | e in allEntries))
        invariant Run(View(allEntries), ops[i..]) == Run(old(View(allEntries)), ops)
      {
        var r := Perform(ops[i]);
        assert ops[i..][1..] == ops[i + 1..];
      }
    }

    /** st_size of simplefs_getattr. */
    method StatSize(path: string) returns (r: int)
      requires Valid()
      ensures r == if Find(View(allEntries), path) == |allEntries| then ENOENT
                   else Total(View(allEntries), Sizes(allEntries), path)
    {
      var it := FindEntry(path);
      if it == |allEntries| {
        return ENOENT;
      }
      assert allEntries[it].name == path by {
        assert View(allEntries)[it].name == path;
      }
      r := allEntries[it].Size(allEntries);
    }

    method Detach(ent: Entry, parent: Entry)
      requires Valid() && ent in allEntries && parent in allEntries && parent.isDir
      requires IsChild(ent.name, parent.name)
      modifies this`allEntries, parent`dirent
      ensures Valid() && allEntries == Minus(old(allEntries), Subtree(old(allEntries), ent.name))
    {
      ghost var all := allEntries;
      hide IsTree, Find, Under, Dirname, Children, Minus, View;
      RemoveFacts(all, ent, parent);
      parent.dirent := Erase(parent.dirent, ent);
      assert Linked(all, ent.name);
      Delete(ent, all);
      RemoveKeepsValid(all, ent.name, root);
      forall d | d in allEntries && d.isDir ensures d.dirent == Children(allEntries, d.name) {
        RootAbove(all, d);
        ChildrenAfterRemove(all, ent, parent, d);
      }
      forall e | e in allEntries && e != allEntries[0] ensures InPlace(e, allEntries) {
        assert InPlace(e, all);
        ParentStays(all, ent.name, e);
      }
    }
  }

  /** The objects left when path is removed. */
  ghost function Remaining(all: seq<Entry>, path: string): seq<Entry> {
    if path == "/" then all else Minus(all, Subtree(all, path))
  }

  lemma PrunedView(all: seq<Entry>, path: string)
    ensures View(Minus(all, Subtree(all, path))) == Prune(View(all), path)
  {
    ViewPrune(all, Subtree(all, path), path);
  }

  lemma RemainingAre(all: seq<Entry>, path: string)
    requires IsTree(View(all))
    ensures Find(View(all), path) == |all| ==> Remaining(all, path) == all
  {
    hide Minus, Under, IsTree, Find;
    MinusMembers(all, Subtree(all, path));
    if Find(View(all), path) == |all| {
      NothingUnder(View(all), path);
      forall e | e in all ensures e !in Subtree(all, path) {
        ViewMember(all, e);
      }
      MinusNothing(all, Subtree(all, path));
    }
  }

  lemma NestedUnlessRoot(all: seq<Entry>, e: Entry)
    requires IsTree(View(all)) && e in all
    ensures e.name != "/" <==> e != all[0]
    ensures e != all[0] ==> Nested(e.name)
  {
    var i :| 0 <= i < |all| && all[i] == e;
    assert View(all)[i].name == e.name && View(all)[0].name == all[0].name;
  }

  lemma ParentStays(all: seq<Entry>, p: string, e: Entry)
    requires IsTree(View(all)) && e in all && e != all[0] && !Under(p, e.name)
    ensures !Under(p, Dirname(e.name))
  {
    NestedUnlessRoot(all, e);
    DirnameShorter(e.name);
  }

  lemma RemoveKeepsValid(all: seq<Entry>, p: string, root: Entry)
    requires IsTree(View(all)) && Nested(p) && all[0] == root
    ensures IsTree(View(Minus(all, Subtree(all, p))))
    ensures Minus(all, Subtree(all, p)) != [] && Minus(all, Subtree(all, p))[0] == root
    ensures forall e :: e in Minus(all, Subtree(all, p)) <==> e in all && !Under(p, e.name)
  {
    ViewPrune(all, Subtree(all, p), p);
    PruneKeepsTree(View(all), p);
    DistinctObjects(all);
    MinusMembers(all, Subtree(all, p));
    assert root.name == View(all)[0].name == "/";
  }

  predicate InitialEntries(r: Entry, f1: Entry, f2: Entry, d1: Entry, d2: Entry, f3: Entry) {
    && r.name == "/" && f1.name == "/hello1" && f2.name == "/hello2"
    && d1.name == "/hellod1" && d2.name == "/hellod2" && f3.name == "/hellod1/hello3"
    && r.isDir && d1.isDir && d2.isDir && !f1.isDir && !f2.isDir && !f3.isDir
  }

  lemma InitialView(r: Entry, f1: Entry, f2: Entry, d1: Entry, d2: Entry, f3: Entry)
    requires InitialEntries(r, f1, f2, d1, d2, f3)
    ensures View([r, f1, f2, d1, d2, f3]) == Initial()
  {
  }

  lemma InitialLinks(r: Entry, f1: Entry, f2: Entry, d1: Entry, d2: Entry, f3: Entry)
    requires InitialEntries(r, f1, f2, d1, d2, f3)
    requires r.dirent == [f1, f2, d1, d2] && d1.dirent == [f3] && d2.dirent == []
    requires f1.parent == r && f2.parent == r && d1.parent == r && d2.parent == r && f3.parent == d1
    ensures Linked([r, f1, f2, d1, d2, f3], "/") && Parented([r, f1, f2, d1, d2, f3])
  {
    InitialNames();
    InitialChildOf(r.name);
    InitialChildOf(d1.name);
    InitialChildOf(d2.name);
    hide Under, Children, LastSlash;
    ChildrenOfSix(r, f1, f2, d1, d2, f3, r.name);
    ChildrenOfSix(r, f1, f2, d1, d2, f3, d1.name);
    ChildrenOfSix(r, f1, f2, d1, d2, f3, d2.name);
  }

  lemma ChildrenOfSix(r: Entry, f1: Entry, f2: Entry, d1: Entry, d2: Entry, f3: Entry, d: string)
    requires !IsChild(r.name, d)
    requires IsChild(f1.name, d) == IsChild(f2.name, d) == IsChild(d1.name, d) == IsChild(d2.name, d)
    ensures Children([r, f1, f2, d1, d2, f3], d) ==
            (if IsChild(f1.name, d) then [f1, f2, d1, d2] else []) + (if IsChild(f3.name, d) then [f3] else [])
  {
    hide IsChild, Children;
    var four := [f1, f2, d1, d2];
    assert [r, f1, f2, d1, d2, f3] == [r] + (four + [f3]);
    ChildrenCat([r], four + [f3], d);
    ChildrenCat(four, [f3], d);
    ChildrenOfAll([r], d);
    ChildrenOfAll(four, d);
    ChildrenOfAll([f3], d);
  }

  lemma {:induction false} ChildrenCat(a: seq<Entry>, b: seq<Entry>, d: string)
    ensures Children(a + b, d) == Children(a, d) + Children(b, d)
  {
    hide Children, IsChild;
    if a == [] {
      ChildrenFirst(a, d);
      assert a + b == b;
    } else {
      ChildrenFirst(a, d);
      ChildrenFirst(a + b, d);
      assert (a + b)[1..] == a[1..] + b;
      ChildrenCat(a[1..], b, d);
    }
  }

  lemma ChildrenFirst(s: seq<Entry>, d: string)
    ensures Children(s, d) ==
            if s == [] then [] else (if IsChild(s[0].name, d) then [s[0]] else []) + Children(s[1..], d)
  {
  }

  lemma {:induction false} ChildrenOfAll(s: seq<Entry>, d: string)
    ensures (forall e :: e in s ==> IsChild(e.name, d)) ==> Children(s, d) == s
    ensures (forall e :: e in s ==> !IsChild(e.name, d)) ==> Children(s, d) == []
  {
    hide IsChild;
    if s == [] {
    } else {
      assert forall e :: e in s <==> e == s[0] || e in s[1..];
      ChildrenOfAll(s[1..], d);
    }
  }

  /** What insert_entry relies on before it puts ent into dir. */
  lemma InsertFacts(all: seq<Entry>, ent: Entry, dir: Entry)
    requires IsTree(View(all)) && Find(View(all), ent.name) == |all|
    requires HasDirectory(View(all), Dirname(ent.name)) && dir in all && dir.name == Dirname(ent.name)
    ensures View(all + [ent]) == View(all) + [Node(ent.name, ent.isDir)]
    ensures IsTree(View(all + [ent])) && Nested(ent.name)
  {
    MakeKeepsTree(View(all), ent.name, ent.isDir);
    assert View(all + [ent]) == View(all) + [Node(ent.name, ent.isDir)];
    assert View(all + [ent])[|all|].name == ent.name;
  }

  lemma ViewFirst(all: seq<Entry>, ent: Entry)
    requires IsTree(View(all))
    ensures all != [] && (all + [ent])[0] == all[0]
  {
  }

  lemma ChildrenAfterInsert(all: seq<Entry>, ent: Entry, dir: Entry, d: Entry)
    requires IsTree(View(all)) && dir in all && d in all && IsChild(ent.name, dir.name)
    ensures Children(all + [ent], d.name) == if d == dir then Children(all, d.name) + [ent] else Children(all, d.name)
  {
    ChildrenAppend(all, ent, d.name);
    if d.name == dir.name {
      SameName(all, d, dir);
    }
  }

  lemma ChildrenOfInserted(all: seq<Entry>, ent: Entry)
    requires IsTree(View(all)) && Nested(ent.name) && Find(View(all), ent.name) == |all|
    ensures Children(all + [ent], ent.name) == []
  {
    DirnameShorter(ent.name);
    ChildrenAppend(all, ent, ent.name);
    NothingUnder(View(all), ent.name);
    hide Under, Dirname, Children, IsTree, Find;
    ghost var c := Children(all, ent.name);
    if c != [] {
      ChildBelow(all, ent.name, c[0]);
      ViewMember(all, c[0]);
    }
  }

  lemma ViewMember(all: seq<Entry>, e: Entry)
    requires e in all
    ensures Node(e.name, e.isDir) in View(all)
  {
    var i :| 0 <= i < |all| && all[i] == e;
    assert View(all)[i] == Node(e.name, e.isDir);
  }

  lemma ChildrenAfterRemove(all: seq<Entry>, ent: Entry, parent: Entry, d: Entry)
    requires IsTree(View(all)) && ent in all && parent in all && d in all
    requires IsChild(ent.name, parent.name) && !Under(ent.name, d.name)
    ensures Children(Minus(all, Subtree(all, ent.name)), d.name) ==
            if d == parent then Minus(Children(all, d.name), {ent}) else Children(all, d.name)
  {
    var gone := Subtree(all, ent.name);
    ChildrenMinus(all, gone, d.name);
    ChildMembers(all, d.name);
    forall e | e in Children(all, d.name) ensures e in gone <==> e == ent {
      if e in gone && e.name == ent.name {
        SameName(all, e, ent);
      }
    }
    if d == parent {
      MinusSame(Children(all, d.name), gone, {ent});
    } else {
      if ent in Children(all, d.name) {
        SameName(all, d, parent);
      }
      MinusNothing(Children(all, d.name), gone);
    }
  }

  /** What rmhelper relies on before it takes ent out of its directory. */
  lemma RemoveFacts(all: seq<Entry>, ent: Entry, parent: Entry)
    requires IsTree(View(all)) && Linked(all, "/") && ent in all && parent in all && parent.isDir
    requires IsChild(ent.name, parent.name)
    ensures NoDuplicates(all) && NoDuplicates(parent.dirent)
    ensures parent.dirent == Children(all, parent.name) && !Under(ent.name, parent.name)
    ensures Linked(all, ent.name)
  {
    RootAbove(all, ent);
    RootAbove(all, parent);
    DistinctObjects(all);
    ChildMembers(all, parent.name);
    LinkedBelow(all, "/", ent.name);
    DirnameShorter(ent.name);
    if Under(ent.name, parent.name) {
      UnderNotLonger(ent.name, parent.name);
    }
  }

  lemma DistinctObjects(all: seq<Entry>)
    requires Distinct(View(all))
    ensures NoDuplicates(all)
  {
    forall i, j | 0 <= i < j < |all| ensures all[i] != all[j] {
      assert View(all)[i].name != View(all)[j].name;
    }
  }

  lemma LinkedBelow(all: seq<Entry>, p: string, q: string)
    requires Linked(all, p) && Under(p, q)
    ensures Linked(all, q)
  {
    forall d | d in all && d.isDir && Under(q, d.name) ensures d.dirent == Children(all, d.name) {
      UnderTransitive(p, q, d.name);
    }
  }
}
