/**
 What comes of an unlink that fails for space (mount.wfs.c marks the file deleted first): runs from a
 fresh file system that show it, and when the next creation makes two paths lead to one file.
 */
module WfsFaults {
  import opened Blocks
  import opened Options
  import opened WfsTree
  import opened WfsNames
  import opened Wfs

  /** A new entry does not change where the paths that lead somewhere lead. */
  lemma {:induction false} GrownWalk(m: Inodes, d: nat, name: string, c: nat, b: Body, i: nat, q: Path)
    requires d in m && m[d].Dir? && c !in m && Walk(m, i, q).Some?
    ensures Walk(WithChild(m, d, name, c, b), i, q) == Walk(m, i, q)
    decreases |q|
  {
    if q != [] {
      FindAppend(m[d].entries, Dentry(name, c), q[0]);
      GrownWalk(m, d, name, c, b, Find(m[i].entries, q[0]).value, q[1..]);
    }
  }

  /** A path to a file whose inode is gone leads to the new inode exactly if that has the same number. */
  lemma {:induction false} DanglingWalk(m: Inodes, n: nat, d: nat, name: string, c: nat, b: Body, i: nat, q: Path)
    requires n in m && m[n].File? && d in m && d != n && m[d].Dir? && c !in m - {n} && Walk(m, i, q) == Some(n)
    ensures Walk(WithChild(m - {n}, d, name, c, b), i, q) == if c == n then Some(n) else None
    decreases |q|
  {
    if q != [] {
      FindAppend(m[d].entries, Dentry(name, c), q[0]);
      DanglingWalk(m, n, d, name, c, b, Find(m[i].entries, q[0]).value, q[1..]);
    }
  }

  /**
   After a failed unlink that uncovers nothing, the next mknod or mkdir makes two paths lead to one
   inode exactly if the unlinked file's number was one above every other number in use.
   */
  lemma {:induction false} NextCreateAliasesIff(log: seq<LogEntry>, path: Path, k: nat, q: Path, b: Body)
    requires Tree(Live(log)) && SameKinds(log) && path != [] && LatestIn(log, path, k) && log[k].body.File?
    requires Uncovered(log, k).None? && q != []
    requires LeadsToDir(Live(Marked(log, k)), q[..|q| - 1]) && !Listed(Live(Marked(log, k)), q)
    ensures var m, c := Grown(Marked(log, k), q, b), MaxInode(Marked(log, k)) + 1;
            && path != q && Walk(m, 0, q) == Some(c)
            && (c == log[k].ino ==> Walk(m, 0, path) == Walk(m, 0, q))
            && (c != log[k].ino ==> Walk(m, 0, path).None?)
  {
    hide Tree, SameKinds, Live, MaxInode, LatestIndex, Walk, Find, Uncovered, Previous;
    MarkedGone(log, k);
    MaxIsNew(Marked(log, k));
    Aliased(Live(log), log[k].ino, path, q, MaxInode(Marked(log, k)) + 1, b);
  }

  /** Without an older version the inode is gone. */
  lemma {:induction false} MarkedGone(log: seq<LogEntry>, k: nat)
    requires SameKinds(log) && k < |log| && LatestIndex(log, log[k].ino) == Some(k) && log[k].body.File?
    requires Uncovered(log, k).None?
    ensures var n := log[k].ino; n in Live(log) && Live(log)[n].File? && Live(Marked(log, k)) == Live(log) - {n}
  {
    hide Live, LatestIndex;
    LiveIs(log, log[k].ino);
    MarkedLive(log, k);
    PreviousKind(log, k);
  }

  lemma {:induction false} Aliased(m: Inodes, n: nat, path: Path, q: Path, c: nat, b: Body)
    requires Tree(m) && n in m && m[n].File? && path != [] && Walk(m, 0, path) == Some(n) && q != []
    requires c !in m - {n} && LeadsToDir(m - {n}, q[..|q| - 1]) && !Listed(m - {n}, q)
    ensures var m2 := WithChild(m - {n}, Walk(m - {n}, 0, q[..|q| - 1]).value, q[|q| - 1], c, b);
            && path != q && Walk(m2, 0, q) == Some(c)
            && Walk(m2, 0, path) == if c == n then Some(n) else None
  {
    hide Tree, Walk, Find;
    var m1, parent, name := m - {n}, q[..|q| - 1], q[|q| - 1];
    var d := Walk(m1, 0, parent).value;
    var m2 := WithChild(m1, d, name, c, b);
    assert q == parent + [name];
    GrownWalk(m1, d, name, c, b, 0, parent);
    WalkEnd(m2, 0, parent, name);
    FindAppend(m1[d].entries, Dentry(name, c), name);
    WalkSelf(m2, c);
    DanglingWalk(m, n, d, name, c, b, 0, path);
    DanglingListed(m, n, path);
  }

  /** The name of the file is still in its directory. */
  lemma {:induction false} DanglingListed(m: Inodes, n: nat, path: Path)
    requires n in m && m[n].File? && path != [] && Walk(m, 0, path) == Some(n) && Tree(m)
    ensures Listed(m - {n}, path)
  {
    hide Tree, Walk;
    var front, name := path[..|path| - 1], path[|path| - 1];
    assert path == front + [name];
    WalkEnd(m, 0, front, name);
    GoneWalk(m, n, 0, front);
  }

  ghost predicate OneFailsOneFits(head: nat, files: nat, others: nat, maxHead: nat) {
    && head + INODE_SIZE + DENTRY_SIZE * files - DENTRY_SIZE > maxHead
    && head + DENTRY_SIZE * others + CREATE_SIZE <= maxHead
  }

  /**
   A disk can be too full for an unlink in a directory of `files` names and not for a creation in one
   of `others` names exactly if the first lists at least four more.
   */
  lemma {:induction false} RoomToAliasIff(head: nat, files: nat, others: nat)
    ensures (exists maxHead: nat :: OneFailsOneFits(head, files, others, maxHead)) <==> files >= others + 4
  {
    if files >= others + 4 {
      assert OneFailsOneFits(head, files, others, head + DENTRY_SIZE * others + CREATE_SIZE);
    }
  }

  /** An unlink that fails right after a write has undone the write. */
  lemma {:induction false} FailedUnlinkUndoesWrite(log: seq<LogEntry>, path: Path, n: nat, bytes: seq<Byte>)
    requires Tree(Live(log)) && SameKinds(log) && Walk(Live(log), 0, path) == Some(n)
    requires n in Live(log) && Live(log)[n].File?
    ensures var log' := log + [LogEntry(n, false, File(bytes))];
            && LatestIn(log', path, |log|) && Uncovered(log', |log|) == Some(Live(log)[n].bytes)
            && forall q :: Lookup(Live(Marked(log', |log|)), q) == Lookup(Live(log), q)
  {
    var log' := log + [LogEntry(n, false, File(bytes))];
    assert log'[..|log|] == log && Marked(log', |log|)[..|log|] == log;
    LiveIs(log, n);
    RewriteWalk(Live(log), n, bytes, 0, path);
  }

  /** The newest file, unlinked in vain before it was ever written, is aliased by the next creation. */
  lemma {:induction false} FailedUnlinkOfNewest(log: seq<LogEntry>, path: Path)
    requires path != [] && LeadsToDir(Live(log), path[..|path| - 1]) && Tree(Live(log)) && !Listed(Live(log), path)
    ensures var log', n := AfterCreate(log, path, File([])), MaxInode(log) + 1;
            && |log'| == |log| + 2 && log'[|log| + 1] == LogEntry(n, false, File([]))
            && LatestIndex(log', n) == Some(|log| + 1) && Uncovered(log', |log| + 1).None?
            && MaxInode(log') == n && MaxInode(Marked(log', |log| + 1)) + 1 == n
  {
    hide Tree, Walk, Find;
    var log', n := AfterCreate(log, path, File([])), MaxInode(log) + 1;
    var log1, k := log'[..|log| + 1], |log| + 1;
    var d := Walk(Live(log), 0, path[..|path| - 1]).value;
    assert log1 == log + [log'[|log|]] && log' == log1 + [log'[k]];
    MaxAppend(log, log'[|log|]);
    MaxIsNew(log);
    LiveIs(log, n);
    assert log1[..|log|] == log && Marked(log', k)[..k] == log1;
    assert d in Live(log);
  }

  // ---- unlinks that succeed ----

  /** The mark on the newest file and its directory's shorter version bring the largest number down again. */
  lemma {:induction false} NumberFreed(log: seq<LogEntry>, path: Path, d: nat, b: Body)
    requires path != [] && LeadsToDir(Live(log), path[..|path| - 1]) && Tree(Live(log)) && !Listed(Live(log), path)
    requires d in Live(AfterCreate(log, path, File([]))) && d != MaxInode(log) + 1
    ensures var log', k := AfterCreate(log, path, File([])), |log| + 1;
            && k < |log'| && log'[k].ino == MaxInode(log) + 1 && LatestIndex(log', log'[k].ino) == Some(k)
            && Uncovered(log', k).None?
            && MaxInode(Marked(log', k) + [LogEntry(d, false, b)]) == MaxInode(log)
  {
    FailedUnlinkOfNewest(log, path);
    var log', k := AfterCreate(log, path, File([])), |log| + 1;
    hide Tree, Walk, Find, MaxInode, AfterCreate;
    MarkedLive(log', k);
    MaxAppend(Marked(log', k), LogEntry(d, false, b));
  }

  /** mknod, and the number of the file it makes. */
  method NumberedMknod(fs: FileSystem, path: Path) returns (r: int, ghost n: nat)
    requires fs.Valid() && path != [] && |path[|path| - 1]| < MAX_FILE_NAME_LEN
    requires LeadsToDir(fs.Files(), path[..|path| - 1])
    modifies fs
    ensures fs.Valid() && (old(fs.NoLeaks()) ==> fs.NoLeaks()) && n == old(MaxInode(fs.log)) + 1
    ensures old(Listed(fs.Files(), path) <==> Lookup(fs.Files(), path).Some?)
    ensures r == if old(Listed(fs.Files(), path)) then -EEXIST
                 else if old(fs.head + DirSize(fs.Files(), path[..|path| - 1])) + CREATE_SIZE > fs.maxHead then -ENOSPC
                 else 0
    ensures r == 0 ==>
              && fs.log == old(AfterCreate(fs.log, path, File([]))) && NextNumber(old(fs.Files()), n)
              && fs.head == old(fs.head + DirSize(fs.Files(), path[..|path| - 1])) + CREATE_SIZE
              && LatestIn(fs.log, path, |fs.log| - 1) && Walk(fs.Files(), 0, path) == Some(n)
              && |fs.log| == |old(fs.log)| + 2 && fs.log[|fs.log| - 1] == LogEntry(n, false, File([]))
              && Lookup(fs.Files(), path) == Some(FileNode([]))
              && (forall q :: Lookup(fs.Files(), q) == Created(old(fs.Files()), path, File([]), q))
  {
    hide Tree, SameKinds, Walk, Find, Live, MaxInode, Uncovered, LatestIndex, AllNamed;
    ghost var log0 := fs.log;
    n := MaxInode(log0) + 1;
    r := fs.Mknod(path);
    if r == 0 {
      MaxIsNext(log0);
      FailedUnlinkOfNewest(log0, path);
      NewestIsThere(log0, path);
    }
  }

  /** A file that is created and unlinked before it is written gives its number to the next one. */
  method NumberComesBack(fs: FileSystem, path: Path, next: Path) returns (ghost first: nat, ghost second: nat, s: int)
    requires fs.Valid() && path != [] && |path[|path| - 1]| < MAX_FILE_NAME_LEN && !Listed(fs.Files(), path)
    requires next != [] && |next[|next| - 1]| < MAX_FILE_NAME_LEN && LeadsToDir(fs.Files(), path[..|path| - 1])
    requires LeadsToDir(fs.Files(), next[..|next| - 1])
    requires fs.head + 2 * DirSize(fs.Files(), path[..|path| - 1]) + CREATE_SIZE + INODE_SIZE + DENTRY_SIZE
             <= fs.maxHead
    modifies fs
    ensures fs.Valid() && (old(fs.NoLeaks()) ==> fs.NoLeaks())
    ensures NextNumber(old(fs.Files()), first)
    ensures s == 0 ==> Walk(fs.Files(), 0, next) == Some(second) && second == first
  {
    hide Tree, SameKinds, Walk, Find, Names, LessName, Live, MaxInode, Uncovered, LatestIndex, AllNamed, Without,
         Listed, NextNumber, AfterCreate;
    ghost var log0, k := fs.log, 0;
    var r;
    r, first := NumberedMknod(fs, path);
    r, k := fs.Unlink(path);
    NumberFreed(log0, path, fs.log[|fs.log| - 1].ino, fs.log[|fs.log| - 1].body);
    s, second := NumberedMknod(fs, next);
  }

  lemma {:induction false} VersionLost(log: seq<LogEntry>, path: Path, k: nat, n: nat, d: nat, log': seq<LogEntry>)
    requires Tree(Live(log)) && SameKinds(log) && path != [] && LatestIn(log, path, k) && log[k].body.File?
    requires Uncovered(log, k).Some? && n == log[k].ino && Walk(Live(log), 0, path[..|path| - 1]) == Some(d)
    requires d in Live(log) && Live(log)[d].Dir?
    requires log' == Marked(log, k) + [LogEntry(d, false, Dir(Without(Live(log)[d].entries, n)))]
    ensures n in Live(log') && Live(log')[n] == File(Uncovered(log, k).value) && !Named(Live(log'), n)
    ensures !AllNamed(Live(log')) && forall q :: Walk(Live(log'), 0, q) != Some(n)
  {
    hide Tree, SameKinds, Walk, Find, Names, Uncovered, Without;
    var m, left := Live(log), Uncovered(log, k);
    LiveIs(log, n);
    var at := LastStep(m, path);
    assert n in m && m[n].File?;
    assert log'[..|log|] == Marked(log, k);
    MarkedIs(log, k, d);
    UnlinkedNameless(m, d, at, n, left);
    assert Live(log') == WithoutChild(m, d, n, left);
    forall q
      ensures Walk(Live(log'), 0, q) != Some(n)
    {
      NamelessLost(Live(log'), n, q);
    }
  }

  /** A file that is written and then unlinked stays behind: its contents of before are live, under no path. */
  method OldVersionStays(fs: FileSystem, path: Path, buf: seq<Byte>) returns (r: int, s: int, ghost n: nat)
    requires fs.Valid() && path != [] && Lookup(fs.Files(), path).Some? && Lookup(fs.Files(), path).value.FileNode?
    requires |buf| <= MAX_DISK
    requires fs.head + INODE_SIZE + |buf| + |Lookup(fs.Files(), path).value.bytes| + INODE_SIZE +
             DirSize(fs.Files(), path[..|path| - 1]) <= fs.maxHead
    modifies fs
    ensures r == |buf| && s == 0 && fs.Valid() && !fs.NoLeaks()
    ensures old(Walk(fs.Files(), 0, path)) == Some(n) && n in fs.Files()
    ensures fs.Files()[n] == File(old(Lookup(fs.Files(), path)).value.bytes)
    ensures forall q :: Walk(fs.Files(), 0, q) != Some(n)
  {
    hide Tree, SameKinds, Walk, Find, Names, LessName, Live, MaxInode, Uncovered, LatestIndex, AllNamed, Without,
         Written, Named, Unlisted;
    ghost var log0 := fs.log;
    n := Walk(fs.Files(), 0, path).value;
    WrittenIs(Lookup(fs.Files(), path).value.bytes, 0, buf, []);
    WalkLive(fs.Files(), 0, path);
    r := fs.Write(path, buf, 0, []);
    ghost var log1 := fs.log;
    FailedUnlinkUndoesWrite(log0, path, n, log1[|log0|].body.bytes);
    LiveIs(log1, n);
    ghost var k;
    s, k := fs.Unlink(path);
    VersionLost(log1, path, k, n, fs.log[|fs.log| - 1].ino, fs.log);
  }

  // ---- runs from a fresh file system ----

  /** A file is created, written and unlinked on a full disk: its contents of before the write are back. */
  method OldContentsComeBack(f: string) returns (fs: FileSystem, r: int, ghost written: Option<Node>)
    requires |f| < MAX_FILE_NAME_LEN
    ensures fresh(fs) && fs.Valid() && written == Some(FileNode([1])) && r == -ENOSPC
    ensures Lookup(fs.Files(), [f]) == Some(FileNode([]))
  {
    hide Tree, SameKinds, Walk, Find, Names, LessName, Live, MaxInode, Uncovered, LatestIndex;
    var path: Path := [f];
    assert path[..|path| - 1] == [];
    fs := new FileSystem(230);
    r := fs.Mknod(path);
    assert Lookup(fs.Files(), path) == Some(FileNode([])) && DirSize(fs.Files(), []) == DENTRY_SIZE && fs.head == 180;
    ghost var log1, n := fs.log, Walk(fs.Files(), 0, path).value;
    r := fs.Write(path, [1], 0, []);
    assert Written([], 0, [1], []) == [1];
    written := Lookup(fs.Files(), path);
    assert fs.log == log1 + [LogEntry(n, false, File([1]))] && fs.head == 225;
    assert DirSize(fs.Files(), []) == DENTRY_SIZE;
    WalkLive(Live(log1), 0, path);
    FailedUnlinkUndoesWrite(log1, path, n, [1]);
    ghost var k;
    r, k := fs.Unlink(path);
  }

  /** Directory `a` is made and the files `names` in it, on a disk that is still valid. */
  ghost predicate Filled(fs: FileSystem, a: string, names: seq<string>)
    reads fs
  {
    && fs.Valid() && Lookup(fs.Files(), [a]) == Some(DirNode(names)) && Lookup(fs.Files(), []) == Some(DirNode([a]))
  }

  /** One more file in the directory; it is the newest. */
  method AddFile(fs: FileSystem, a: string, names: seq<string>, x: string)
    requires Filled(fs, a, names) && x !in names && |x| < MAX_FILE_NAME_LEN
    requires fs.head + DENTRY_SIZE * |names| + CREATE_SIZE <= fs.maxHead
    modifies fs
    ensures Filled(fs, a, names + [x]) && fs.head == old(fs.head) + DENTRY_SIZE * |names| + CREATE_SIZE
    ensures LeadsToDir(old(fs.Files()), [a, x][..1]) && !Listed(old(fs.Files()), [a, x])
    ensures fs.log == old(AfterCreate(fs.log, [a, x], File([])))
  {
    hide Tree, SameKinds, Walk, Find, Live, MaxInode;
    var path: Path := [a, x];
    assert path[..|path| - 1] == [a] && path[..1] == [a];
    NotListed(fs.Files(), a, names, x);
    var r := fs.Mknod(path);
  }

  lemma {:induction false} NotListed(m: Inodes, a: string, names: seq<string>, x: string)
    requires Lookup(m, [a]) == Some(DirNode(names)) && x !in names
    ensures !Listed(m, [a, x])
  {
    assert [a, x][..1] == [a];
    var d := Walk(m, 0, [a]).value;
    forall i | d in m && m[d].Dir? && 0 <= i < |m[d].entries|
      ensures m[d].entries[i].name != x
    {
      assert Names(m[d].entries)[i] in names;
    }
  }

  /** A new disk with an empty directory. */
  method NewDirectory(a: string) returns (fs: FileSystem)
    requires |a| < MAX_FILE_NAME_LEN
    ensures fresh(fs) && Filled(fs, a, []) && fs.maxHead == 1400 && fs.head == 180
  {
    hide Tree, SameKinds, Walk, Find, Live, MaxInode;
    fs := new FileSystem(1400);
    var root: Path := [a];
    assert root[..|root| - 1] == [];
    assert Lookup(fs.Files(), root) == None && Lookup(fs.Files(), []) == Some(DirNode([]));
    var r := fs.Mkdir(root);
    var none: seq<string> := [];
    assert none + [a] == [a];
    assert Lookup(fs.Files(), root) == Some(DirNode([])) && Lookup(fs.Files(), []) == Some(DirNode([a]));
  }

  /** A new disk with a directory of four files. */
  method FillDirectory(a: string, x: seq<string>) returns (fs: FileSystem)
    requires |a| < MAX_FILE_NAME_LEN && |x| == 5
    requires (forall i :: 0 <= i < 5 ==> |x[i]| < MAX_FILE_NAME_LEN) && forall i, j :: 0 <= i < j < 5 ==> x[i] != x[j]
    ensures fresh(fs) && Filled(fs, a, x[..4]) && fs.maxHead == 1400 && fs.head == 932
  {
    hide Filled;
    fs := NewDirectory(a);
    var heads := [180, 308, 476, 684, 932];
    assert x[..0] == [];
    for i := 0 to 4
      invariant Filled(fs, a, x[..i]) && fs.maxHead == 1400 && fs.head == heads[i]
    {
      AddFile(fs, a, x[..i], x[i]);
      assert x[..i + 1] == x[..i] + [x[i]];
    }
  }

  /**
   A full directory `a` of five files: the unlink of the newest fails for space, there is room for a
   new file `b`, and then both names lead to one file.
   */
  method TwoPathsOneFile(a: string, x: seq<string>, b: string) returns (fs: FileSystem, r: int, s: int)
    requires |a| < MAX_FILE_NAME_LEN && |b| < MAX_FILE_NAME_LEN && a != b && |x| == 5
    requires (forall i :: 0 <= i < 5 ==> |x[i]| < MAX_FILE_NAME_LEN) && forall i, j :: 0 <= i < j < 5 ==> x[i] != x[j]
    ensures fresh(fs) && r == -ENOSPC && s == 0 && !fs.Valid()
    ensures Walk(fs.Files(), 0, [b]).Some? && Walk(fs.Files(), 0, [a, x[4]]) == Walk(fs.Files(), 0, [b])
  {
    hide Tree, SameKinds, Walk, Find, Live, MaxInode, Uncovered, LatestIndex, Names;
    fs := FillDirectory(a, x);
    ghost var log0 := fs.log;
    var path := [a, x[4]];
    AddFile(fs, a, x[..4], x[4]);
    assert x[..4] + [x[4]] == x && path[..1] == [a];
    FailedUnlinkOfNewest(log0, path);
    NewestIsThere(log0, path);
    r, s := UnlinkAndCreate(fs, path, b, |log0| + 1);
  }

  /** The file just created is the one the path leads to. */
  lemma {:induction false} NewestIsThere(log: seq<LogEntry>, path: Path)
    requires path != [] && LeadsToDir(Live(log), path[..|path| - 1]) && Tree(Live(log)) && !Listed(Live(log), path)
    requires LatestIndex(AfterCreate(log, path, File([])), MaxInode(log) + 1) == Some(|log| + 1)
    ensures Live(AfterCreate(log, path, File([]))) == Grown(log, path, File([]))
    ensures LatestIn(AfterCreate(log, path, File([])), path, |log| + 1)
    ensures Lookup(Live(AfterCreate(log, path, File([]))), path) == Some(FileNode([]))
  {
    var log' := AfterCreate(log, path, File([]));
    var log1 := log'[..|log| + 1];
    assert log1 == log + [log'[|log|]] && log' == log1 + [log'[|log| + 1]];
    assert log1[..|log|] == log;
    MaxIsNew(log);
    hide Tree, Walk, Find;
    ChildFound(Live(log), Walk(Live(log), 0, path[..|path| - 1]).value, path[..|path| - 1], path[|path| - 1],
               MaxInode(log) + 1, File([]));
    assert path == path[..|path| - 1] + [path[|path| - 1]];
  }

  method UnlinkAndCreate(fs: FileSystem, path: Path, b: string, ghost k: nat) returns (r: int, s: int)
    requires fs.Valid() && |path| == 2 && LatestIn(fs.log, path, k) && Lookup(fs.Files(), path) == Some(FileNode([]))
    requires Uncovered(fs.log, k).None? && MaxInode(Marked(fs.log, k)) + 1 == fs.log[k].ino && fs.log[k].body.File?
    requires Lookup(fs.Files(), path[..1]).Some? && Lookup(fs.Files(), path[..1]).value.DirNode?
    requires |Lookup(fs.Files(), path[..1]).value.names| == 5 && Lookup(fs.Files(), []) == Some(DirNode(path[..1]))
    requires path[0] != b && |b| < MAX_FILE_NAME_LEN && fs.head == 1220 && fs.maxHead == 1400
    modifies fs
    ensures r == -ENOSPC && s == 0 && !fs.Valid()
    ensures Walk(fs.Files(), 0, [b]).Some? && Walk(fs.Files(), 0, path) == Walk(fs.Files(), 0, [b])
  {
    hide Tree, SameKinds, Walk, Find, Live, MaxInode, Uncovered, LatestIndex, Names;
    ghost var log1, j := fs.log, 0;
    var q: Path := [b];
    assert q[..|q| - 1] == [];
    r, j := fs.Unlink(path);
    FailedUnlink(log1, path, k, []);
    s := fs.Mknod(q);
    NextCreateAliasesIff(log1, path, k, q, File([]));
    if Tree(fs.Files()) { PathUnique(fs.Files(), path, q); }
  }
}
