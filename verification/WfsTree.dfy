/**
 What the log of mount.wfs.c means: the last live version of each inode, and through the directory
 entries a tree of files.  Each operation is a change of one or two inodes; the lemmas say what
 that does to every path.
 */
module WfsTree {
  import opened Blocks
  import opened Options

  datatype Dentry = Dentry(name: string, ino: nat)

  datatype Body = File(bytes: seq<Byte>) | Dir(entries: seq<Dentry>)

  /** The last live version of each inode. */
  type Inodes = map<nat, Body>

  type Path = seq<string>

  /** What a path leads to: a file's contents or a directory's names. */
  datatype Node = FileNode(bytes: seq<Byte>) | DirNode(names: seq<string>)

  /** name_to_inodenum: the first entry with the name. */
  function Find(entries: seq<Dentry>, name: string): (r: Option<nat>)
    ensures r.Some? ==> exists i :: 0 <= i < |entries| && entries[i] == Dentry(name, r.value)
    ensures r.None? ==> forall i :: 0 <= i < |entries| ==> entries[i].name != name
  {
    if entries == [] then None
    else if entries[0].name == name then Some(entries[0].ino)
    else
      var r := Find(entries[1..], name);
      assert r.Some? ==> exists i :: 0 <= i < |entries[1..]| && entries[1..][i] == Dentry(name, r.value);
      r
  }

  /** The inode a path leads to from inode `i`. */
  function Walk(m: Inodes, i: nat, path: Path): Option<nat>
    decreases |path|
  {
    if i !in m then None
    else if path == [] then Some(i)
    else if m[i].File? then None
    else
      match Find(m[i].entries, path[0])
      case None => None
      case Some(c) => Walk(m, c, path[1..])
  }

  function Names(entries: seq<Dentry>): (ns: seq<string>)
    ensures |ns| == |entries| && forall i :: 0 <= i < |ns| ==> ns[i] == entries[i].name
  {
    if entries == [] then [] else Names(entries[..|entries| - 1]) + [entries[|entries| - 1].name]
  }

  function View(b: Body): Node {
    match b
    case File(bytes) => FileNode(bytes)
    case Dir(entries) => DirNode(Names(entries))
  }

  /** What is found under a path. */
  function Lookup(m: Inodes, path: Path): Option<Node> {
    match Walk(m, 0, path)
    case None => None
    case Some(i) => if i in m then Some(View(m[i])) else None
  }

  // ---- the tree ----

  /** Entry `k` of directory `d`. */
  ghost predicate Refers(m: Inodes, d: nat, k: nat, ino: nat) {
    d in m && m[d].Dir? && k < |m[d].entries| && m[d].entries[k].ino == ino
  }

  /** Names differ within a directory; every inode but the root is in at most one place. */
  ghost predicate Tree(m: Inodes) {
    && 0 in m && m[0].Dir?
    && (forall d, k, ino :: Refers(m, d, k, ino) ==> ino in m && ino != 0)
    && (forall d, k, e, l, ino :: Refers(m, d, k, ino) && Refers(m, e, l, ino) ==> d == e && k == l)
    && (forall d :: d in m && m[d].Dir? ==> DifferentNames(m[d].entries))
  }

  ghost predicate DifferentNames(entries: seq<Dentry>) {
    forall i, j :: 0 <= i < j < |entries| ==> entries[i].name != entries[j].name
  }

  lemma {:induction false} InTree(m: Inodes, d: nat)
    requires Tree(m)
    ensures 0 in m && m[0].Dir? && (d in m && m[d].Dir? ==> DifferentNames(m[d].entries))
  {
  }

  lemma {:induction false} RefersLive(m: Inodes, d: nat, k: nat, ino: nat)
    requires Tree(m) && Refers(m, d, k, ino)
    ensures ino in m && ino != 0
  {
  }

  lemma {:induction false} RefersOnce(m: Inodes, d: nat, k: nat, e: nat, l: nat, ino: nat)
    requires Tree(m) && Refers(m, d, k, ino) && Refers(m, e, l, ino)
    ensures d == e && k == l
  {
  }

  lemma {:induction false} FindRefers(m: Inodes, d: nat, name: string) returns (k: nat)
    requires d in m && m[d].Dir? && Find(m[d].entries, name).Some?
    ensures Refers(m, d, k, Find(m[d].entries, name).value) && m[d].entries[k].name == name
  {
    k :| 0 <= k < |m[d].entries| && m[d].entries[k] == Dentry(name, Find(m[d].entries, name).value);
  }

  lemma {:induction false} WalkLive(m: Inodes, i: nat, path: Path)
    ensures Walk(m, i, path).Some? ==> Walk(m, i, path).value in m
    decreases |path|
  {
    if i in m && path != [] && m[i].Dir? && Find(m[i].entries, path[0]).Some? {
      WalkLive(m, Find(m[i].entries, path[0]).value, path[1..]);
    }
  }

  /** The last step of a walk. */
  lemma {:induction false} WalkEnd(m: Inodes, i: nat, path: Path, name: string)
    ensures Walk(m, i, path + [name]) ==
            match Walk(m, i, path)
            case None => None
            case Some(d) => if d in m && m[d].Dir? && Find(m[d].entries, name).Some?
                   then Walk(m, Find(m[d].entries, name).value, []) else None
    decreases |path|
  {
    if path == [] {
      assert ([name])[1..] == [];
      assert path + [name] == [name];
    } else {
      assert (path + [name])[1..] == path[1..] + [name];
      if i in m && m[i].Dir? && Find(m[i].entries, path[0]).Some? {
        WalkEnd(m, Find(m[i].entries, path[0]).value, path[1..], name);
      }
    }
  }

  /** In a tree two paths never lead to the same inode. */
  lemma {:induction false} PathUnique(m: Inodes, p: Path, q: Path)
    requires Tree(m) && Walk(m, 0, p).Some? && Walk(m, 0, q) == Walk(m, 0, p)
    ensures p == q
    decreases |p| + |q|
  {
    if p == [] || q == [] {
      if p != [] {
        NotRoot(m, p);
      } else if q != [] {
        NotRoot(m, q);
      }
    } else {
      var k := LastStep(m, p);
      var l := LastStep(m, q);
      PathUnique(m, p[..|p| - 1], q[..|q| - 1]);
    }
  }

  /** Where the last step of a walk comes from. */
  lemma {:induction false} LastStep(m: Inodes, p: Path) returns (k: nat)
    requires p != [] && Walk(m, 0, p).Some?
    ensures var d := Walk(m, 0, p[..|p| - 1]);
            d.Some? && Refers(m, d.value, k, Walk(m, 0, p).value) && m[d.value].entries[k].name == p[|p| - 1]
  {
    var r, x := p[..|p| - 1], p[|p| - 1];
    assert p == r + [x];
    WalkEnd(m, 0, r, x);
    k := FindRefers(m, Walk(m, 0, r).value, x);
  }

  lemma {:induction false} NotRoot(m: Inodes, p: Path)
    requires Tree(m) && p != [] && Walk(m, 0, p).Some?
    ensures Walk(m, 0, p) != Some(0)
  {
    var k := LastStep(m, p);
  }

  // ---- writing a file ----

  /** Another version of a file does not change where paths lead. */
  lemma {:induction false} RewriteWalk(m: Inodes, k: nat, bytes: seq<Byte>, i: nat, q: Path)
    requires k in m && m[k].File?
    ensures Walk(m[k := File(bytes)], i, q) == Walk(m, i, q)
    decreases |q|
  {
    if i in m && q != [] && m[i].Dir? && Find(m[i].entries, q[0]).Some? {
      RewriteWalk(m, k, bytes, Find(m[i].entries, q[0]).value, q[1..]);
    }
  }

  lemma {:induction false} RewriteTree(m: Inodes, k: nat, bytes: seq<Byte>)
    requires Tree(m) && k in m && m[k].File?
    ensures Tree(m[k := File(bytes)])
  {
    var m' := m[k := File(bytes)];
    assert forall d, j, ino :: Refers(m', d, j, ino) <==> Refers(m, d, j, ino);
  }

  /** Writing a file changes what is found under its path and under no other. */
  lemma {:induction false} RewriteLookup(m: Inodes, path: Path, k: nat, bytes: seq<Byte>, q: Path)
    requires Tree(m) && Walk(m, 0, path) == Some(k) && k in m && m[k].File?
    ensures Lookup(m[k := File(bytes)], q) == if q == path then Some(FileNode(bytes)) else Lookup(m, q)
  {
    RewriteWalk(m, k, bytes, 0, q);
    if Walk(m, 0, q) == Some(k) {
      PathUnique(m, path, q);
    }
  }

  // ---- a new file or directory ----

  /** Inode `n` with body `b` is entered as `name` in directory `d`. */
  function WithChild(m: Inodes, d: nat, name: string, n: nat, b: Body): Inodes
    requires d in m && m[d].Dir?
  {
    m[d := Dir(m[d].entries + [Dentry(name, n)])][n := b]
  }

  ghost predicate Childless(b: Body) {
    b == File([]) || b == Dir([])
  }

  lemma {:induction false} FindAppend(entries: seq<Dentry>, e: Dentry, name: string)
    ensures Find(entries + [e], name) ==
            if Find(entries, name).Some? then Find(entries, name) else if e.name == name then Some(e.ino) else None
  {
    if entries == [] {
      assert entries + [e] == [e] && ([e])[1..] == [];
    } else {
      assert (entries + [e])[1..] == entries[1..] + [e];
      FindAppend(entries[1..], e, name);
    }
  }

  /** Where paths lead once `name` is in directory `d`. */
  lemma {:induction false} ChildWalk(m: Inodes, d: nat, name: string, n: nat, b: Body, i: nat, q: Path)
    requires Tree(m) && d in m && m[d].Dir? && n !in m && Childless(b) && Find(m[d].entries, name).None? && i in m
    ensures var m' := WithChild(m, d, name, n, b);
            && (Walk(m, i, q).Some? ==> Walk(m', i, q) == Walk(m, i, q))
            && (Walk(m, i, q).None? && Walk(m', i, q).Some? ==>
                  Walk(m', i, q) == Some(n) && q != [] && q[|q| - 1] == name && Walk(m, i, q[..|q| - 1]) == Some(d))
    decreases |q|
  {
    hide Tree;
    InTree(m, i);
    var m' := WithChild(m, d, name, n, b);
    if q != [] && m[i].Dir? {
      var rest := q[1..];
      FindAppend(m[d].entries, Dentry(name, n), q[0]);
      var c := Find(m[i].entries, q[0]);
      if c.Some? {
        var k := FindRefers(m, i, q[0]);
        RefersLive(m, i, k, c.value);
        ChildWalk(m, d, name, n, b, c.value, rest);
        assert Walk(m', i, q) == Walk(m', c.value, rest);
        if rest != [] {
          assert q[..|q| - 1][1..] == rest[..|rest| - 1];
        }
      } else if i == d && q[0] == name {
        assert Walk(m', i, q) == Walk(m', n, rest);
        if rest == [] {
          assert q[..|q| - 1] == [];
        }
      }
    }
  }

  lemma {:induction false} ChildTree(m: Inodes, d: nat, name: string, n: nat, b: Body)
    requires Tree(m) && d in m && m[d].Dir? && n !in m && Childless(b) && Find(m[d].entries, name).None?
    ensures Tree(WithChild(m, d, name, n, b))
  {
    var m' := WithChild(m, d, name, n, b);
    forall x, k, ino | Refers(m', x, k, ino)
      ensures (x == d && k == |m[d].entries| && ino == n) || (Refers(m, x, k, ino) && ino != n)
    {
      assert Refers(m, x, k, ino) || (x == d && k == |m[d].entries|);
    }
  }

  /** mknod and mkdir: the new path leads to an empty file or directory, and its parent lists it. */
  lemma {:induction false} ChildLookup(m: Inodes, parent: Path, name: string, n: nat, b: Body, q: Path)
    requires Tree(m) && Walk(m, 0, parent).Some? && Walk(m, 0, parent).value in m && m[Walk(m, 0, parent).value].Dir?
    requires n !in m && Childless(b) && Find(m[Walk(m, 0, parent).value].entries, name).None?
    ensures var d := Walk(m, 0, parent).value;
            Lookup(WithChild(m, d, name, n, b), q) ==
            if q == parent + [name] then Some(View(b))
            else if q == parent then Some(DirNode(Names(m[d].entries) + [name]))
            else Lookup(m, q)
  {
    hide Tree, Find, Walk;
    InTree(m, 0);
    var d := Walk(m, 0, parent).value;
    var m' := WithChild(m, d, name, n, b);
    ChildWalk(m, d, name, n, b, 0, q);
    WalkLive(m, 0, q);
    ChildFound(m, d, parent, name, n, b);
    var es := m[d].entries + [Dentry(name, n)];
    assert es[..|es| - 1] == m[d].entries;
    if Walk(m, 0, q) == Some(d) {
      PathUnique(m, parent, q);
    }
    if Walk(m, 0, q).None? && Walk(m', 0, q).Some? {
      PathUnique(m, parent, q[..|q| - 1]);
      assert q == q[..|q| - 1] + [name];
    }
  }

  lemma {:induction false} ChildFound(m: Inodes, d: nat, parent: Path, name: string, n: nat, b: Body)
    requires Tree(m) && Walk(m, 0, parent) == Some(d) && d in m && m[d].Dir?
    requires n !in m && Childless(b) && Find(m[d].entries, name).None?
    ensures Walk(m, 0, parent + [name]).None? && Walk(WithChild(m, d, name, n, b), 0, parent + [name]) == Some(n)
  {
    var m' := WithChild(m, d, name, n, b);
    ChildWalk(m, d, name, n, b, 0, parent);
    WalkEnd(m, 0, parent, name);
    WalkEnd(m', 0, parent, name);
    FindAppend(m[d].entries, Dentry(name, n), name);
  }

  // ---- unlink ----

  /** delete_dentry: the first entry for inode `ino` taken out. */
  function Without(entries: seq<Dentry>, ino: nat): seq<Dentry> {
    if entries == [] then [] else if entries[0].ino == ino then entries[1..]
         else [entries[0]] + Without(entries[1..], ino)
  }

  lemma {:induction false} WithoutIs(entries: seq<Dentry>, k: nat)
    requires k < |entries| && forall j :: 0 <= j < k ==> entries[j].ino != entries[k].ino
    ensures Without(entries, entries[k].ino) == entries[..k] + entries[k + 1..]
  {
    if k > 0 {
      assert entries[1..][k - 1] == entries[k];
      WithoutIs(entries[1..], k - 1);
      assert entries[..k] == [entries[0]] + entries[1..][..k - 1];
    }
  }

  /** File `n` is no longer entered in directory `d`; of its versions at most another one, `left`, is live. */
  function WithoutChild(m: Inodes, d: nat, n: nat, left: Option<seq<Byte>>): Inodes
    requires d in m && m[d].Dir?
  {
    var m1 := (m - {n})[d := Dir(Without(m[d].entries, n))];
    if left.Some? then m1[n := File(left.value)] else m1
  }

  /** The entries that are left. */
  lemma {:induction false} LeftEntries(m: Inodes, d: nat, k: nat, n: nat)
    requires Tree(m) && Refers(m, d, k, n)
    ensures Without(m[d].entries, n) == m[d].entries[..k] + m[d].entries[k + 1..]
  {
    forall j | 0 <= j < k
      ensures m[d].entries[j].ino != n
    {
      assert Refers(m, d, j, m[d].entries[j].ino);
    }
    WithoutIs(m[d].entries, k);
  }

  lemma {:induction false} DifferentWithout(entries: seq<Dentry>, k: nat)
    requires DifferentNames(entries) && k < |entries|
    ensures DifferentNames(entries[..k] + entries[k + 1..])
  {
    var left := entries[..k] + entries[k + 1..];
    assert forall j :: 0 <= j < |left| ==> left[j] == entries[if j < k then j else j + 1];
  }

  lemma {:induction false} FindWithout(entries: seq<Dentry>, k: nat, name: string)
    requires DifferentNames(entries) && k < |entries|
    ensures DifferentNames(entries[..k] + entries[k + 1..])
    ensures Find(entries[..k] + entries[k + 1..], name) == if name == entries[k].name then None else Find(entries, name)
  {
    hide Find;
    var left := entries[..k] + entries[k + 1..];
    DifferentWithout(entries, k);
    if name != entries[k].name && Find(entries, name).Some? {
      var j :| 0 <= j < |entries| && entries[j] == Dentry(name, Find(entries, name).value);
      assert left[if j < k then j else j - 1] == entries[j];
    }
    if Find(left, name).Some? {
      var l :| 0 <= l < |left| && left[l] == Dentry(name, Find(left, name).value);
      assert left[l] == entries[if l < k then l else l + 1];
    }
  }

  /** The references after an unlink are those before it, but for the one to `n`. */
  lemma {:induction false} UnlinkRefers(m: Inodes, d: nat, k: nat, n: nat, left: Option<seq<Byte>>, x: nat, j: nat,
                                        ino: nat) returns (l: nat)
    requires Tree(m) && Refers(m, d, k, n) && n in m && m[n].File? && Refers(WithoutChild(m, d, n, left), x, j, ino)
    ensures Refers(m, x, l, ino) && ino != n && l == if x == d && j >= k then j + 1 else j
  {
    hide Tree;
    LeftEntries(m, d, k, n);
    l := if x == d && j >= k then j + 1 else j;
    assert Refers(m, x, l, ino);
    if ino == n {
      RefersOnce(m, x, l, d, k, n);
    }
  }

  lemma {:induction false} UnlinkTree(m: Inodes, d: nat, k: nat, n: nat, left: Option<seq<Byte>>)
    requires Tree(m) && Refers(m, d, k, n) && n in m && m[n].File?
    ensures Tree(WithoutChild(m, d, n, left))
  {
    var m' := WithoutChild(m, d, n, left);
    LeftEntries(m, d, k, n);
    FindWithout(m[d].entries, k, "");
    forall x: nat, j: nat, ino: nat | Refers(m', x, j, ino)
      ensures ino in m' && ino != 0
    {
      var l := UnlinkRefers(m, d, k, n, left, x, j, ino);
    }
    forall x: nat, j: nat, y: nat, l: nat, ino: nat | Refers(m', x, j, ino) && Refers(m', y, l, ino)
      ensures x == y && j == l
    {
      var j1 := UnlinkRefers(m, d, k, n, left, x, j, ino);
      var l1 := UnlinkRefers(m, d, k, n, left, y, l, ino);
      RefersOnce(m, x, j1, y, l1, ino);
    }
  }

  /** Where paths lead once `n` is unlinked: as before, except to `n`. */
  lemma {:induction false} UnlinkWalk(m: Inodes, d: nat, k: nat, n: nat, left: Option<seq<Byte>>, i: nat, q: Path)
    requires Tree(m) && Refers(m, d, k, n) && n in m && m[n].File? && i in m && i != n
    ensures Walk(WithoutChild(m, d, n, left), i, q) == if Walk(m, i, q) == Some(n) then None else Walk(m, i, q)
    decreases |q|
  {
    hide Tree;
    InTree(m, i);
    InTree(m, d);
    var m' := WithoutChild(m, d, n, left);
    if q != [] && m[i].Dir? {
      var c := Find(m[i].entries, q[0]);
      LeftEntries(m, d, k, n);
      FindWithout(m[d].entries, k, q[0]);
      if c.Some? {
        var l := FindRefers(m, i, q[0]);
        RefersLive(m, i, l, c.value);
        if c.value != n {
          UnlinkWalk(m, d, k, n, left, c.value, q[1..]);
        } else {
          RefersOnce(m, i, l, d, k, n);
        }
      }
    }
  }

  /** A successful unlink: the path leads nowhere, its parent no longer lists it, nothing else changes. */
  lemma {:induction false} UnlinkLookup(m: Inodes, parent: Path, name: string, n: nat, left: Option<seq<Byte>>, q: Path)
    requires Tree(m) && Walk(m, 0, parent + [name]) == Some(n) && n in m && m[n].File?
    ensures Walk(m, 0, parent).Some? && Walk(m, 0, parent).value in m && m[Walk(m, 0, parent).value].Dir?
    ensures var d := Walk(m, 0, parent).value;
            Lookup(WithoutChild(m, d, n, left), q) ==
            if q == parent + [name] then None
            else if q == parent then Some(DirNode(Names(Without(m[d].entries, n))))
            else Lookup(m, q)
    ensures forall x :: x in Names(Without(m[Walk(m, 0, parent).value].entries, n)) <==>
                        x in Names(m[Walk(m, 0, parent).value].entries) && x != name
  {
    hide Tree, Find, Walk, Without, Names;
    InTree(m, 0);
    var path := parent + [name];
    var k := LastStep(m, path);
    assert path[..|path| - 1] == parent;
    var d := Walk(m, 0, parent).value;
    UnlinkWalk(m, d, k, n, left, 0, q);
    WalkLive(m, 0, q);
    if Walk(m, 0, q) == Some(n) {
      PathUnique(m, path, q);
    } else if Walk(m, 0, q) == Some(d) {
      PathUnique(m, parent, q);
    }
    LeftNames(m, d, k, n);
  }

  lemma {:induction false} LeftNames(m: Inodes, d: nat, k: nat, n: nat)
    requires Tree(m) && Refers(m, d, k, n)
    ensures forall x :: x in Names(Without(m[d].entries, n)) <==> x in Names(m[d].entries) && x != m[d].entries[k].name
  {
    hide Tree, Without, Names;
    LeftEntries(m, d, k, n);
    InTree(m, d);
    var es, less := m[d].entries, Without(m[d].entries, n);
    assert forall j :: 0 <= j < |less| ==> less[j] == es[if j < k then j else j + 1];
    forall x | x in Names(es) && x != es[k].name
      ensures x in Names(less)
    {
      var j :| 0 <= j < |es| && Names(es)[j] == x;
      assert Names(less)[if j < k then j else j - 1] == x;
    }
  }
}
