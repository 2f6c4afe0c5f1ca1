/**
 The log-structured file system of mount.wfs.c.  The log is a sequence of entries; `head` is kept in
 bytes as the source keeps it, and the scans advance by entry sizes until they reach it.

 Paths are sequences of names.  What FUSE checks before it calls is required here: a new path's
 parent is a directory, and data is written to and removed from files only.
 */
module Wfs {
  import opened Blocks
  import opened Options
  import opened WfsTree
  import opened WfsNames

  const SB_SIZE: nat := 8
  const INODE_SIZE: nat := 44
  const DENTRY_SIZE: nat := 40
  const MAX_FILE_NAME_LEN: nat := 32

  const ENOENT: int := 2
  const EEXIST: int := 17
  const ENOSPC: int := 28

  /** Disks up to this size keep the source's 32-bit sums from wrapping around. */
  const MAX_DISK: nat := 0x4000_0000

  datatype LogEntry = LogEntry(ino: nat, deleted: bool, body: Body)

  function Size(b: Body): nat {
    match b
    case File(bytes) => |bytes|
    case Dir(entries) => DENTRY_SIZE * |entries|
  }

  /** Where the log ends on the disk. */
  function HeadOf(log: seq<LogEntry>): (h: nat)
    ensures h >= SB_SIZE
  {
    if log == [] then SB_SIZE else HeadOf(log[..|log| - 1]) + INODE_SIZE + Size(log[|log| - 1].body)
  }

  lemma {:induction false} HeadGrows(log: seq<LogEntry>, i: nat)
    requires i <= |log|
    ensures HeadOf(log[..i]) <= HeadOf(log) && (HeadOf(log[..i]) < HeadOf(log) <==> i < |log|)
    ensures i < |log| ==> HeadOf(log[..i]) + INODE_SIZE + Size(log[i].body) <= HeadOf(log)
  {
    if i < |log| {
      var less := log[..|log| - 1];
      if i < |log| - 1 {
        HeadGrows(less, i);
        assert less[..i] == log[..i];
      }
    } else {
      assert log[..i] == log;
    }
  }

  /** The last version of every inode that is not marked deleted. */
  function Live(log: seq<LogEntry>): Inodes {
    if log == [] then map[]
    else
      var e := log[|log| - 1];
      if e.deleted then Live(log[..|log| - 1]) else Live(log[..|log| - 1])[e.ino := e.body]
  }

  /** The index of that version. */
  function LatestIndex(log: seq<LogEntry>, ino: nat): (r: Option<nat>)
    ensures r.Some? ==> r.value < |log| && log[r.value].ino == ino && !log[r.value].deleted
  {
    if log == [] then None
    else if log[|log| - 1].ino == ino && !log[|log| - 1].deleted then Some(|log| - 1)
    else LatestIndex(log[..|log| - 1], ino)
  }

  lemma {:induction false} LiveIs(log: seq<LogEntry>, ino: nat)
    ensures ino in Live(log) <==> LatestIndex(log, ino).Some?
    ensures ino in Live(log) ==> Live(log)[ino] == log[LatestIndex(log, ino).value].body
  {
    if log != [] && !(log[|log| - 1].ino == ino && !log[|log| - 1].deleted) {
      LiveIs(log[..|log| - 1], ino);
    }
  }

  function MaxInode(log: seq<LogEntry>): nat {
    if log == [] then 0
    else
      var n, e := MaxInode(log[..|log| - 1]), log[|log| - 1];
      if e.ino > n && !e.deleted then e.ino else n
  }

  /** No entry that is not deleted has a number above the maximum. */
  lemma {:induction false} MaxBounds(log: seq<LogEntry>, j: nat)
    requires j < |log| && !log[j].deleted
    ensures log[j].ino <= MaxInode(log)
  {
    if j < |log| - 1 {
      MaxBounds(log[..|log| - 1], j);
    }
  }

  /** A number above the maximum is not in use, whether or not it was before. */
  lemma {:induction false} MaxIsNew(log: seq<LogEntry>)
    ensures MaxInode(log) + 1 !in Live(log)
  {
    LiveIs(log, MaxInode(log) + 1);
    if LatestIndex(log, MaxInode(log) + 1).Some? {
      MaxBounds(log, LatestIndex(log, MaxInode(log) + 1).value);
    }
  }

  /** The number after the largest in use. */
  ghost predicate NextNumber(m: Inodes, n: nat) {
    n > 0 && (forall i :: i in m ==> i < n) && (n == 1 || n - 1 in m)
  }

  lemma {:induction false} MaxIsNext(log: seq<LogEntry>)
    ensures NextNumber(Live(log), MaxInode(log) + 1)
  {
    forall i | i in Live(log)
      ensures i < MaxInode(log) + 1
    {
      LiveIs(log, i);
      MaxBounds(log, LatestIndex(log, i).value);
    }
    MaxIsLive(log);
  }

  lemma {:induction false} MaxIsLive(log: seq<LogEntry>)
    ensures MaxInode(log) == 0 || MaxInode(log) in Live(log)
  {
    if log != [] {
      MaxIsLive(log[..|log| - 1]);
    }
  }

  /** Whether an entry that may come to light belongs to a file or a directory depends on its inode only. */
  ghost predicate SameKinds(log: seq<LogEntry>) {
    forall i, j :: 0 <= i < |log| && 0 <= j < |log| ==> SameKind(log[i], log[j])
  }

  ghost predicate SameKind(a: LogEntry, b: LogEntry) {
    !a.deleted && !b.deleted && a.ino == b.ino ==> a.body.File? == b.body.File?
  }

  // ---- unlink's mark ----

  function Marked(log: seq<LogEntry>, k: nat): (log': seq<LogEntry>)
    requires k < |log|
    ensures |log'| == |log|
  {
    log[k := log[k].(deleted := true)]
  }

  /** The version before the last one, which the mark brings back to light. */
  function Previous(log: seq<LogEntry>, k: nat): Option<nat>
    requires k < |log|
  {
    LatestIndex(log[..k], log[k].ino)
  }

  /** Marking the last version of an inode uncovers the one before it, if there is one. */
  lemma {:induction false} MarkedLive(log: seq<LogEntry>, k: nat)
    requires k < |log| && LatestIndex(log, log[k].ino) == Some(k)
    ensures var n, m' := log[k].ino, Live(Marked(log, k));
            && (forall i :: i != n ==> (i in m' <==> i in Live(log)) && (i in m' ==> m'[i] == Live(log)[i]))
            && (n in m' <==> Previous(log, k).Some?)
            && (n in m' ==> m'[n] == log[Previous(log, k).value].body)
            && HeadOf(Marked(log, k)) == HeadOf(log)
  {
    var l, n := |log| - 1, log[k].ino;
    if k < l {
      assert log[..l][k] == log[k] && log[..l][..k] == log[..k];
      MarkedLive(log[..l], k);
      assert Marked(log, k)[..l] == Marked(log[..l], k);
    } else {
      assert Marked(log, k)[..l] == log[..l];
      LiveIs(log[..l], n);
    }
  }

  lemma {:induction false} MarkedKinds(log: seq<LogEntry>, k: nat)
    requires SameKinds(log) && k < |log|
    ensures SameKinds(Marked(log, k))
  {
    var log' := Marked(log, k);
    forall i, j | 0 <= i < |log'| && 0 <= j < |log'|
      ensures SameKind(log'[i], log'[j])
    {
      assert SameKind(log[i], log[j]);
    }
  }

  /** An entry of an inode that is in use, and of the same kind. */
  lemma {:induction false} AppendKinds(log: seq<LogEntry>, e: LogEntry)
    requires SameKinds(log)
    requires e.ino in Live(log) ==> Live(log)[e.ino].File? == e.body.File?
    requires e.ino !in Live(log) ==> e.ino > MaxInode(log)
    ensures SameKinds(log + [e])
  {
    LiveIs(log, e.ino);
    var log' := log + [e];
    forall i, j | 0 <= i < |log'| && 0 <= j < |log'|
      ensures SameKind(log'[i], log'[j])
    {
      if i < |log| { NewKind(log, e, i); }
      if j < |log| { NewKind(log, e, j); }
      assert i < |log| && j < |log| ==> SameKind(log[i], log[j]);
    }
  }

  lemma {:induction false} NewKind(log: seq<LogEntry>, e: LogEntry, i: nat)
    requires SameKinds(log) && i < |log|
    requires e.ino in Live(log) ==> Live(log)[e.ino].File? == e.body.File?
    requires e.ino !in Live(log) ==> e.ino > MaxInode(log)
    ensures SameKind(log[i], e)
  {
    LiveIs(log, e.ino);
    if e.ino in Live(log) {
      assert SameKind(log[i], log[LatestIndex(log, e.ino).value]);
    } else if !log[i].deleted {
      MaxBounds(log, i);
    }
  }

  /** `bytes` with `buf` written at `offset`; a gap shows what the disk held there before. */
  function Written(bytes: seq<Byte>, offset: nat, buf: seq<Byte>, stale: seq<Byte>): seq<Byte>
    requires offset <= |bytes| + |stale|
  {
    if offset + |buf| > |bytes| then (if offset <= |bytes| then bytes[..offset]
                                      else bytes + stale[..offset - |bytes|]) + buf
    else bytes[..offset] + buf + bytes[offset + |buf|..]
  }

  function ReadBytes(bytes: seq<Byte>, offset: nat, size: nat): seq<Byte> {
    if offset >= |bytes| then [] else if offset + size > |bytes| then bytes[offset..] else bytes[offset..offset + size]
  }

  /** A range just written at an offset not past the end reads back as written; the rest is unchanged. */
  lemma {:induction false} WriteThenRead(bytes: seq<Byte>, offset: nat, buf: seq<Byte>, stale: seq<Byte>)
    requires offset <= |bytes|
    ensures ReadBytes(Written(bytes, offset, buf, stale), offset, |buf|) == buf
    ensures forall k :: 0 <= k < |bytes| && !(offset <= k < offset + |buf|) ==>
              k < |Written(bytes, offset, buf, stale)| && Written(bytes, offset, buf, stale)[k] == bytes[k]
  {
  }

  /** The length of a written file, and each of its bytes. */
  lemma {:induction false} WrittenIs(bytes: seq<Byte>, offset: nat, buf: seq<Byte>, stale: seq<Byte>)
    requires offset <= |bytes| + |stale|
    ensures |Written(bytes, offset, buf, stale)| == if offset + |buf| > |bytes| then offset + |buf| else |bytes|
    ensures forall k :: 0 <= k < |Written(bytes, offset, buf, stale)| ==>
              Written(bytes, offset, buf, stale)[k] ==
                if offset <= k < offset + |buf| then buf[k - offset]
                else if k < |bytes| then bytes[k]
                else stale[k - |bytes|]
  {
  }

  ghost predicate LeadsToDir(m: Inodes, path: Path) {
    Lookup(m, path).Some? && Lookup(m, path).value.DirNode?
  }

  /** Bytes of the directory a path leads to. */
  ghost function DirSize(m: Inodes, path: Path): nat {
    if LeadsToDir(m, path) then DENTRY_SIZE * |Lookup(m, path).value.names| else 0
  }

  /** What mknod and mkdir make of the tree: the new path, its parent's longer listing, and the rest. */
  ghost function Created(m: Inodes, path: Path, b: Body, q: Path): Option<Node>
    requires path != []
  {
    if q == path then Some(View(b))
    else if q == path[..|path| - 1] && LeadsToDir(m, q)
              then Some(DirNode(Lookup(m, q).value.names + [path[|path| - 1]]))
    else Lookup(m, q)
  }

  /** The two entries of mknod and mkdir, beside the parent's names. */
  const CREATE_SIZE: nat := INODE_SIZE + DENTRY_SIZE + INODE_SIZE

  /** The parent directory has an entry of the name. */
  ghost predicate Listed(m: Inodes, path: Path)
    requires path != []
  {
    var d := Walk(m, 0, path[..|path| - 1]);
    d.Some? && d.value in m && m[d.value].Dir? && Find(m[d.value].entries, path[|path| - 1]).Some?
  }

  /** What is live after mknod or mkdir: the inode number is one above the largest live one. */
  ghost function Grown(log: seq<LogEntry>, path: Path, b: Body): Inodes
    requires path != [] && LeadsToDir(Live(log), path[..|path| - 1])
  {
    WithChild(Live(log), Walk(Live(log), 0, path[..|path| - 1]).value, path[|path| - 1], MaxInode(log) + 1, b)
  }

  ghost function AfterCreate(log: seq<LogEntry>, path: Path, b: Body): seq<LogEntry>
    requires path != [] && LeadsToDir(Live(log), path[..|path| - 1])
  {
    var d, n := Walk(Live(log), 0, path[..|path| - 1]).value, MaxInode(log) + 1;
    log + [LogEntry(d, false, Dir(Live(log)[d].entries + [Dentry(path[|path| - 1], n)]))] + [LogEntry(n, false, b)]
  }

  /** The listing without the name. */
  function LessName(names: seq<string>, name: string): seq<string> {
    if names == [] then [] else if names[0] == name then names[1..] else [names[0]] + LessName(names[1..], name)
  }

  /** What unlink makes of the tree. */
  ghost function Removed(m: Inodes, path: Path, q: Path): Option<Node>
    requires path != []
  {
    if q == path then None
    else if q == path[..|path| - 1] && LeadsToDir(m, q)
              then Some(DirNode(LessName(Lookup(m, q).value.names, path[|path| - 1])))
    else Lookup(m, q)
  }

  /** There is room for the shorter directory, but not for the copy it is cut from. */
  predicate Overruns(head: nat, dirSize: nat, maxHead: nat) {
    head + INODE_SIZE + dirSize - DENTRY_SIZE <= maxHead < head + INODE_SIZE + dirSize
  }

  /** Entry `k` is the one the path leads to. */
  ghost predicate LatestIn(log: seq<LogEntry>, path: Path, k: nat) {
    k < |log| && Walk(Live(log), 0, path) == Some(log[k].ino) && LatestIndex(log, log[k].ino) == Some(k)
  }

  /** The name is in the parent exactly if the path leads somewhere. */
  lemma {:induction false} ExistsIff(m: Inodes, path: Path, d: nat)
    requires Tree(m) && path != [] && Walk(m, 0, path[..|path| - 1]) == Some(d) && d in m && m[d].Dir?
    ensures Find(m[d].entries, path[|path| - 1]).Some? <==> Lookup(m, path).Some?
  {
    hide Tree, Walk, Find;
    var parent, name := path[..|path| - 1], path[|path| - 1];
    assert path == parent + [name];
    WalkEnd(m, 0, parent, name);
    WalkLive(m, 0, path);
    if Find(m[d].entries, name).Some? {
      var k := FindRefers(m, d, name);
      RefersLive(m, d, k, Find(m[d].entries, name).value);
      WalkSelf(m, Find(m[d].entries, name).value);
    }
  }

  lemma {:induction false} WalkSelf(m: Inodes, i: nat)
    requires i in m
    ensures Walk(m, i, []) == Some(i)
  {
  }

  lemma {:induction false} MaxAppend(log: seq<LogEntry>, e: LogEntry)
    requires e.ino in Live(log)
    ensures MaxInode(log + [e]) == MaxInode(log)
  {
    assert (log + [e])[..|log|] == log;
    LiveIs(log, e.ino);
    MaxBounds(log, LatestIndex(log, e.ino).value);
  }

  /** The two entries of mknod and mkdir. */
  lemma {:induction false} CreateKinds(log: seq<LogEntry>, p: LogEntry, entries: seq<Dentry>, b: Body)
    requires SameKinds(log) && p.ino in Live(log) && Live(log)[p.ino] == p.body && p.body.Dir? && !p.deleted
    ensures SameKinds(log + [LogEntry(p.ino, p.deleted, Dir(entries))] + [LogEntry(MaxInode(log) + 1, false, b)])
  {
    hide SameKinds;
    var e := LogEntry(p.ino, p.deleted, Dir(entries));
    var n := MaxInode(log) + 1;
    AppendKinds(log, e);
    MaxAppend(log, e);
    MaxIsNew(log);
    AppendKinds(log + [e], LogEntry(n, false, b));
  }

  /** The two entries, one after the other. */
  lemma {:induction false} CreateAppends(log: seq<LogEntry>, p: LogEntry, path: Path, b: Body)
    requires path != [] && LeadsToDir(Live(log), path[..|path| - 1]) && !p.deleted && p.body.Dir?
    requires Walk(Live(log), 0, path[..|path| - 1]) == Some(p.ino) && p.ino in Live(log) && Live(log)[p.ino] == p.body
    ensures var n := MaxInode(log) + 1;
            var e := Dir(p.body.entries + [Dentry(path[|path| - 1], n)]);
            && AfterCreate(log, path, b) == log + [LogEntry(p.ino, p.deleted, e)] + [LogEntry(n, false, b)]
            && Grown(log, path, b) == Live(log)[p.ino := e][n := b]
            && Grown(log, path, b) == WithChild(Live(log), p.ino, path[|path| - 1], n, b)
    ensures DirSize(Live(log), path[..|path| - 1]) == DENTRY_SIZE * |p.body.entries|
  {
  }

  /** mknod and mkdir keep the tree, and change the new path and its parent's listing alone. */
  lemma {:induction false} CreateKeeps(log: seq<LogEntry>, p: LogEntry, path: Path, b: Body)
    requires Tree(Live(log)) && SameKinds(log) && path != [] && Childless(b) && !Listed(Live(log), path)
    requires Walk(Live(log), 0, path[..|path| - 1]) == Some(p.ino)
    requires p.ino in Live(log) && Live(log)[p.ino] == p.body && p.body.Dir? && !p.deleted
    ensures Tree(Grown(log, path, b)) && SameKinds(AfterCreate(log, path, b))
    ensures forall q :: Lookup(Grown(log, path, b), q) == Created(Live(log), path, b, q)
  {
    hide Tree, SameKinds, Walk, Find;
    var m, parent, name, n := Live(log), path[..|path| - 1], path[|path| - 1], MaxInode(log) + 1;
    MaxIsNew(log);
    CreateKinds(log, p, p.body.entries + [Dentry(name, n)], b);
    ChildTree(m, p.ino, name, n, b);
    assert path == parent + [name];
    forall q
      ensures Lookup(Grown(log, path, b), q) == Created(m, path, b, q)
    {
      ChildLookup(m, parent, name, n, b, q);
    }
  }

  lemma {:induction false} LessNameIs(names: seq<string>, k: nat)
    requires k < |names| && forall j :: 0 <= j < k ==> names[j] != names[k]
    ensures LessName(names, names[k]) == names[..k] + names[k + 1..]
  {
    if k > 0 {
      assert names[1..][k - 1] == names[k];
      LessNameIs(names[1..], k - 1);
      assert names[..k] == [names[0]] + names[1..][..k - 1];
    }
  }

  /** Without the entry for the inode the directory lists the other names, in order. */
  lemma {:induction false} NamesWithout(m: Inodes, d: nat, k: nat, n: nat)
    requires Tree(m) && Refers(m, d, k, n)
    ensures Names(Without(m[d].entries, n)) == LessName(Names(m[d].entries), m[d].entries[k].name)
  {
    hide Tree, Without, Names, LessName;
    InTree(m, d);
    LeftEntries(m, d, k, n);
    var es := m[d].entries;
    LessNameIs(Names(es), k);
    var left := Names(Without(es, n));
    assert forall j :: 0 <= j < |left| ==> left[j] == es[if j < k then j else j + 1].name;
    assert left == Names(es)[..k] + Names(es)[k + 1..];
  }

  /** The parent lists the same names but one. */
  ghost predicate Unlisted(m: Inodes, m': Inodes, path: Path)
    requires path != []
  {
    var parent, name := path[..|path| - 1], path[|path| - 1];
    && LeadsToDir(m, parent) && LeadsToDir(m', parent)
    && forall x :: x in Lookup(m', parent).value.names <==> x in Lookup(m, parent).value.names && x != name
  }

  /** What is live once the mark is set and the parent's new version written. */
  lemma {:induction false} UnlinkEnds(log: seq<LogEntry>, k: nat, path: Path, d: nat, at: nat)
    requires Tree(Live(log)) && SameKinds(log) && path != [] && LatestIn(log, path, k)
    requires log[k].ino in Live(log) && Live(log)[log[k].ino] == log[k].body && log[k].body.File?
    requires Walk(Live(log), 0, path[..|path| - 1]) == Some(d) && Refers(Live(log), d, at, log[k].ino)
    requires Live(log)[d].entries[at].name == path[|path| - 1]
    ensures exists j :: 0 <= j < |Live(log)[d].entries| && Live(log)[d].entries[j].ino == log[k].ino
    ensures var m' := Live(Marked(log, k))[d := Dir(Without(Live(log)[d].entries, log[k].ino))];
            && Tree(m') && (forall q :: Lookup(m', q) == Removed(Live(log), path, q))
            && Unlisted(Live(log), m', path)
    ensures SameKinds(Marked(log, k) + [LogEntry(d, false, Dir(Without(Live(log)[d].entries, log[k].ino)))])
  {
    hide Tree, SameKinds, Walk, Find, Without, Names, LessName;
    var m, n, parent, name := Live(log), log[k].ino, path[..|path| - 1], path[|path| - 1];
    assert path == parent + [name];
    var left := Uncovered(log, k);
    MarkedIs(log, k, d);
    UnlinkTree(m, d, at, n, left);
    NamesWithout(m, d, at, n);
    var m' := WithoutChild(m, d, n, left);
    forall q
      ensures Lookup(m', q) == Removed(m, path, q)
    {
      UnlinkLookup(m, parent, name, n, left, q);
    }
    UnlinkLookup(m, parent, name, n, left, parent);
    InTree(m, 0);
    assert parent != path;
    MarkedKinds(log, k);
    AppendKinds(Marked(log, k), LogEntry(d, false, Dir(Without(m[d].entries, n))));
  }

  /** The contents of the version that the mark brings back to light. */
  function Uncovered(log: seq<LogEntry>, k: nat): Option<seq<Byte>>
    requires k < |log|
  {
    var p := Previous(log, k);
    if p.Some? && log[p.value].body.File? then Some(log[p.value].body.bytes) else None
  }

  lemma {:induction false} MarkedIs(log: seq<LogEntry>, k: nat, d: nat)
    requires SameKinds(log) && k < |log| && LatestIndex(log, log[k].ino) == Some(k) && log[k].body.File?
    requires d in Live(log) && Live(log)[d].Dir? && d != log[k].ino
    ensures var m' := Live(Marked(log, k));
            && d in m' && m'[d] == Live(log)[d]
            && m'[d := Dir(Without(Live(log)[d].entries, log[k].ino))]
                 == WithoutChild(Live(log), d, log[k].ino, Uncovered(log, k))
  {
    hide Without, Live, LatestIndex;
    MarkedLive(log, k);
    var p := Previous(log, k);
    if p.Some? {
      assert log[..k][p.value] == log[p.value];
      assert SameKind(log[p.value], log[k]);
    }
  }

  /**
   What a failed unlink leaves: under its path an older version of the file, or nothing; all else is
   the same.
   */
  lemma {:induction false} FailedUnlink(log: seq<LogEntry>, path: Path, k: nat, q: Path)
    requires Tree(Live(log)) && SameKinds(log) && LatestIn(log, path, k) && log[k].body.File?
    ensures Lookup(Live(Marked(log, k)), q) ==
            if q != path then Lookup(Live(log), q)
            else if Uncovered(log, k).Some? then Some(FileNode(Uncovered(log, k).value)) else None
  {
    var m, n, left := Live(log), log[k].ino, Uncovered(log, k);
    LiveIs(log, n);
    MarkedLive(log, k);
    var m' := Live(Marked(log, k));
    if left.Some? {
      assert m' == m[n := File(left.value)];
      RewriteLookup(m, path, n, left.value, q);
    } else {
      assert m' == m - {n};
      GoneWalk(m, n, 0, q);
      if Walk(m, 0, q) == Some(n) {
        PathUnique(m, path, q);
      }
      WalkLive(m, 0, q);
    }
  }

  /** A failed unlink changes nothing to be seen exactly if the version it uncovers has the same contents. */
  lemma {:induction false} FailedUnlinkHarmlessIff(log: seq<LogEntry>, path: Path, k: nat)
    requires Tree(Live(log)) && SameKinds(log) && LatestIn(log, path, k) && log[k].body.File?
    ensures (forall q :: Lookup(Live(Marked(log, k)), q) == Lookup(Live(log), q)) <==>
            Uncovered(log, k) == Some(log[k].body.bytes)
  {
    hide Tree, SameKinds, Walk;
    forall q
      ensures Lookup(Live(Marked(log, k)), q) ==
              if q != path then Lookup(Live(log), q)
              else if Uncovered(log, k).Some? then Some(FileNode(Uncovered(log, k).value)) else None
    {
      FailedUnlink(log, path, k, q);
    }
    LiveIs(log, log[k].ino);
    assert Lookup(Live(log), path) == Some(FileNode(log[k].body.bytes));
    if Uncovered(log, k) == Some(log[k].body.bytes) {
      assert forall q :: Lookup(Live(Marked(log, k)), q) == Lookup(Live(log), q);
    } else {
      assert Lookup(Live(Marked(log, k)), path) != Lookup(Live(log), path);
    }
  }

  /** It leaves a tree exactly if there is an older version; otherwise the name leads to no inode. */
  lemma {:induction false} FailedUnlinkTree(log: seq<LogEntry>, path: Path, k: nat)
    requires Tree(Live(log)) && SameKinds(log) && path != [] && LatestIn(log, path, k) && log[k].body.File?
    ensures SameKinds(Marked(log, k)) && (Tree(Live(Marked(log, k))) <==> Uncovered(log, k).Some?)
  {
    var m, m', n := Live(log), Live(Marked(log, k)), log[k].ino;
    LiveIs(log, n);
    MarkedLive(log, k);
    MarkedKinds(log, k);
    var at := LastStep(m, path);
    var d := Walk(m, 0, path[..|path| - 1]).value;
    hide Tree, Walk;
    if Uncovered(log, k).Some? {
      assert m' == m[n := File(Uncovered(log, k).value)];
      RewriteTree(m, n, Uncovered(log, k).value);
    } else {
      PreviousKind(log, k);
      assert Refers(m', d, at, n);
      if Tree(m') { RefersLive(m', d, at, n); }
    }
  }

  lemma {:induction false} PreviousKind(log: seq<LogEntry>, k: nat)
    requires SameKinds(log) && k < |log| && !log[k].deleted && log[k].body.File?
    ensures Previous(log, k).Some? ==> Uncovered(log, k).Some?
  {
    var p := Previous(log, k);
    if p.Some? {
      assert log[..k][p.value] == log[p.value];
      assert SameKind(log[p.value], log[k]);
    }
  }

  lemma {:induction false} LastStepRefers(m: Inodes, path: Path, at: nat)
    requires path != [] && Walk(m, 0, path).Some? && Walk(m, 0, path[..|path| - 1]).Some?
    requires Refers(m, Walk(m, 0, path[..|path| - 1]).value, at, Walk(m, 0, path).value)
    ensures var es := m[Walk(m, 0, path[..|path| - 1]).value].entries;
            exists j :: 0 <= j < |es| && es[j].ino == Walk(m, 0, path).value
  {
  }

  /** Where paths lead when a file's inode is gone but its name is not. */
  lemma {:induction false} GoneWalk(m: Inodes, n: nat, i: nat, q: Path)
    requires n in m && m[n].File?
    ensures Walk(m - {n}, i, q) == if Walk(m, i, q) == Some(n) then None else Walk(m, i, q)
    decreases |q|
  {
    if i in m && q != [] && m[i].Dir? && Find(m[i].entries, q[0]).Some? {
      GoneWalk(m, n, Find(m[i].entries, q[0]).value, q[1..]);
    }
  }

  class FileSystem {
    const maxHead: nat
    var head: nat
    var log: seq<LogEntry>

    /** The head is where the entries end, on the disk. */
    ghost predicate Mounted()
      reads this
    {
      head == HeadOf(log) && head <= maxHead <= MAX_DISK
    }

    ghost predicate Valid()
      reads this
    {
      Mounted() && Tree(Live(log)) && SameKinds(log)
    }

    /** No inode is live without a name. */
    ghost predicate NoLeaks()
      reads this
    {
      AllNamed(Live(log))
    }

    ghost function Files(): Inodes
      reads this
    {
      Live(log)
    }

    /** What mkfs.wfs leaves: the root directory alone. */
    constructor (maxHead: nat)
      requires SB_SIZE + INODE_SIZE <= maxHead <= MAX_DISK
      ensures Valid() && this.maxHead == maxHead && head == SB_SIZE + INODE_SIZE && log == [LogEntry(0, false, Dir([]))]
      ensures forall q: Path :: Lookup(Files(), q) == if q == [] then Some(DirNode([])) else None
      ensures Files() == map[0 := Dir([])] && NoLeaks()
    {
      this.maxHead := maxHead;
      head := SB_SIZE + INODE_SIZE;
      log := [LogEntry(0, false, Dir([]))];
      new;
      assert log == [] + [LogEntry(0, false, Dir([]))];
      assert Live(log) == map[0 := Dir([])];
    }

    /** inodenum_to_logentry: the last entry of the inode that is not deleted. */
    method InodenumToLogentry(ino: nat) returns (r: Option<nat>)
      requires head == HeadOf(log)
      ensures r == LatestIndex(log, ino)
      ensures r.Some? <==> ino in Live(log)
      ensures r.Some? ==> log[r.value].body == Live(log)[ino]
    {
      var ptr, i := SB_SIZE, 0;
      r := None;
      HeadGrows(log, 0);
      while ptr < head
        invariant i <= |log| && ptr == HeadOf(log[..i]) && r == LatestIndex(log[..i], ino)
        invariant ptr < head <==> i < |log|
        decreases |log| - i
      {
        var lep := log[i];
        if lep.ino == ino && !lep.deleted {
          r := Some(i);
        }
        assert log[..i + 1][..i] == log[..i];
        ptr := ptr + INODE_SIZE + Size(lep.body);
        i := i + 1;
        HeadGrows(log, i);
      }
      assert log[..i] == log;
      LiveIs(log, ino);
    }

    /** find_max_inodenum. */
    method FindMaxInodenum() returns (n: nat)
      requires head == HeadOf(log)
      ensures n == MaxInode(log)
    {
      var ptr, i := SB_SIZE, 0;
      n := 0;
      HeadGrows(log, 0);
      while ptr < head
        invariant i <= |log| && ptr == HeadOf(log[..i]) && n == MaxInode(log[..i])
        invariant ptr < head <==> i < |log|
        decreases |log| - i
      {
        var lep := log[i];
        if lep.ino > n && !lep.deleted {
          n := lep.ino;
        }
        assert log[..i + 1][..i] == log[..i];
        ptr := ptr + INODE_SIZE + Size(lep.body);
        i := i + 1;
        HeadGrows(log, i);
      }
      assert log[..i] == log;
    }

    /** name_to_inodenum. */
    method NameToInodenum(name: string, entries: seq<Dentry>) returns (r: Option<nat>)
      ensures r == Find(entries, name)
    {
      var i := 0;
      while i < |entries|
        invariant i <= |entries| && Find(entries, name) == Find(entries[i..], name)
      {
        if entries[i].name == name {
          return Some(entries[i].ino);
        }
        assert entries[i..][1..] == entries[i + 1..];
        i := i + 1;
      }
      return None;
    }

    /** delete_dentry. */
    method DeleteDentry(ino: nat, entries: seq<Dentry>) returns (r: Option<seq<Dentry>>)
      ensures r.Some? <==> exists k :: 0 <= k < |entries| && entries[k].ino == ino
      ensures r.Some? ==> r.value == Without(entries, ino) && |r.value| == |entries| - 1
    {
      var i := 0;
      while i < |entries|
        invariant i <= |entries| && forall j :: 0 <= j < i ==> entries[j].ino != ino
      {
        if entries[i].ino == ino {
          WithoutIs(entries, i);
          return Some(entries[..i] + entries[i + 1..]);
        }
        i := i + 1;
      }
      return None;
    }

    /** path_to_logentry: the entry the path leads to through the last versions of its directories. */
    method PathToLogentry(path: Path) returns (r: Option<nat>)
      requires head == HeadOf(log)
      ensures r.Some? <==> Walk(Live(log), 0, path).Some?
      ensures r.Some? ==>
                && r.value < |log| && Walk(Live(log), 0, path) == Some(log[r.value].ino) &&
                   LatestIndex(log, log[r.value].ino) == r
                && log[r.value].ino in Live(log) && log[r.value].body == Live(log)[log[r.value].ino]
    {
      ghost var m := Live(log);
      r := InodenumToLogentry(0);
      var k := 0;
      assert path[0..] == path;
      while k < |path|
        invariant k <= |path|
        invariant r.Some? ==>
                    && r.value < |log| && LatestIndex(log, log[r.value].ino) == r
                    && log[r.value].ino in m && log[r.value].body == m[log[r.value].ino]
        invariant Walk(m, 0, path) == if r.None? then None else Walk(m, log[r.value].ino, path[k..])
      {
        if r.None? {
          return None;
        }
        assert path[k..][0] == path[k] && path[k..][1..] == path[k + 1..];
        if log[r.value].body.File? {
          return None;
        }
        var c := NameToInodenum(path[k], log[r.value].body.entries);
        if c.None? {
          return None;
        }
        r := InodenumToLogentry(c.value);
        k := k + 1;
      }
      assert path[k..] == [];
    }

    /** An entry put at the head of the log. */
    method Append(e: LogEntry)
      requires head == HeadOf(log)
      modifies this
      ensures head == HeadOf(log) && head == old(head) + INODE_SIZE + Size(e.body) && log == old(log) + [e]
      ensures Live(log) == if e.deleted then Live(old(log)) else Live(old(log))[e.ino := e.body]
    {
      log := log + [e];
      head := head + INODE_SIZE + Size(e.body);
    }

    /**
     What mknod and mkdir share: the new version of the parent lists the name, and the new inode
     follows it.  On a valid file system that is a change of the path and its parent's listing alone.
     */
    method Create(path: Path, b: Body) returns (r: int)
      requires Mounted() && path != [] && |path[|path| - 1]| < MAX_FILE_NAME_LEN && Childless(b)
      requires LeadsToDir(Files(), path[..|path| - 1])
      modifies this
      ensures Mounted() && (r != 0 ==> log == old(log))
      ensures r == if old(Listed(Files(), path)) then -EEXIST
                   else if old(head + DirSize(Files(), path[..|path| - 1])) + CREATE_SIZE > maxHead then -ENOSPC
                   else 0
      ensures r == 0 ==> log == old(AfterCreate(log, path, b)) && Files() == old(Grown(log, path, b))
      ensures r == 0 ==> head == old(head + DirSize(Files(), path[..|path| - 1])) + CREATE_SIZE
      ensures old(Valid()) ==> Valid() && old(Listed(Files(), path) <==> Lookup(Files(), path).Some?)
      ensures old(Valid()) && r == 0 ==> forall q :: Lookup(Files(), q) == Created(old(Files()), path, b, q)
      ensures old(Valid()) && r == 0 ==>
                var parent := path[..|path| - 1];
                && Lookup(Files(), path) == Some(View(b))
                && Lookup(Files(), parent) ==
                     Some(DirNode(old(Lookup(Files(), parent)).value.names + [path[|path| - 1]]))
                && forall q :: q != path && q != parent ==> Lookup(Files(), q) == old(Lookup(Files(), q))
      ensures r == 0 ==> NextNumber(old(Files()), log[|log| - 1].ino) && (old(NoLeaks()) ==> NoLeaks())
    {
      hide Tree, SameKinds, Walk, Find, AllNamed, NextNumber, MaxInode, LatestIndex, AfterCreate, Grown, DirSize;
      ghost var m := Live(log);
      var parentLog := PathToLogentry(path[..|path| - 1]);
      var max := FindMaxInodenum();
      var n := max + 1;
      var p := log[parentLog.value];
      var found := NameToInodenum(path[|path| - 1], p.body.entries);
      CreateAppends(log, p, path, b);
      if Tree(m) {
        ExistsIff(m, path, p.ino);
      }
      if found.Some? {
        return -EEXIST;
      }
      if head + (INODE_SIZE + Size(p.body) + DENTRY_SIZE + INODE_SIZE) > maxHead {
        return -ENOSPC;
      }
      if Tree(m) && SameKinds(log) {
        CreateKeeps(log, p, path, b);
      }
      MaxIsNext(log);
      if AllNamed(m) { ChildNamed(m, p.ino, path[|path| - 1], n, b); }
      Append(LogEntry(p.ino, p.deleted, Dir(p.body.entries + [Dentry(path[|path| - 1], n)])));
      Append(LogEntry(n, false, b));
      return 0;
    }

    method Mknod(path: Path) returns (r: int)
      requires Mounted() && path != [] && |path[|path| - 1]| < MAX_FILE_NAME_LEN
      requires LeadsToDir(Files(), path[..|path| - 1])
      modifies this
      ensures Mounted() && (r != 0 ==> log == old(log))
      ensures r == 0 ==> log == old(AfterCreate(log, path, File([]))) && Files() == old(Grown(log, path, File([])))
      ensures r == 0 ==> head == old(head + DirSize(Files(), path[..|path| - 1])) + CREATE_SIZE
      ensures r == if old(Listed(Files(), path)) then -EEXIST
                   else if old(head + DirSize(Files(), path[..|path| - 1])) + CREATE_SIZE > maxHead then -ENOSPC
                   else 0
      ensures old(Valid()) ==> Valid() && old(Listed(Files(), path) <==> Lookup(Files(), path).Some?)
      ensures old(Valid()) && r == 0 ==> forall q :: Lookup(Files(), q) == Created(old(Files()), path, File([]), q)
      ensures old(Valid()) && r == 0 ==>
                var parent := path[..|path| - 1];
                && Lookup(Files(), path) == Some(FileNode([]))
                && Lookup(Files(), parent) ==
                     Some(DirNode(old(Lookup(Files(), parent)).value.names + [path[|path| - 1]]))
                && forall q :: q != path && q != parent ==> Lookup(Files(), q) == old(Lookup(Files(), q))
      ensures r == 0 ==> NextNumber(old(Files()), log[|log| - 1].ino) && (old(NoLeaks()) ==> NoLeaks())
    {
      r := Create(path, File([]));
    }

    method Mkdir(path: Path) returns (r: int)
      requires Mounted() && path != [] && |path[|path| - 1]| < MAX_FILE_NAME_LEN
      requires LeadsToDir(Files(), path[..|path| - 1])
      modifies this
      ensures Mounted() && (r != 0 ==> log == old(log))
      ensures r == 0 ==> log == old(AfterCreate(log, path, Dir([]))) && Files() == old(Grown(log, path, Dir([])))
      ensures r == 0 ==> head == old(head + DirSize(Files(), path[..|path| - 1])) + CREATE_SIZE
      ensures r == if old(Listed(Files(), path)) then -EEXIST
                   else if old(head + DirSize(Files(), path[..|path| - 1])) + CREATE_SIZE > maxHead then -ENOSPC
                   else 0
      ensures old(Valid()) ==> Valid() && old(Listed(Files(), path) <==> Lookup(Files(), path).Some?)
      ensures old(Valid()) && r == 0 ==> forall q :: Lookup(Files(), q) == Created(old(Files()), path, Dir([]), q)
      ensures old(Valid()) && r == 0 ==>
                var parent := path[..|path| - 1];
                && Lookup(Files(), path) == Some(DirNode([]))
                && Lookup(Files(), parent) ==
                     Some(DirNode(old(Lookup(Files(), parent)).value.names + [path[|path| - 1]]))
                && forall q :: q != path && q != parent ==> Lookup(Files(), q) == old(Lookup(Files(), q))
      ensures r == 0 ==> NextNumber(old(Files()), log[|log| - 1].ino) && (old(NoLeaks()) ==> NoLeaks())
    {
      r := Create(path, Dir([]));
    }

    /** read: the bytes from `offset`, at most `size` of them. */
    method Read(path: Path, size: nat, offset: nat) returns (r: int, buf: seq<Byte>)
      requires Mounted() && !LeadsToDir(Files(), path)
      ensures r == if Lookup(Files(), path).None? then -ENOENT else |buf|
      ensures r >= 0 ==> buf == ReadBytes(Lookup(Files(), path).value.bytes, offset, size)
      ensures r >= 0 ==>
                var file := Lookup(Files(), path).value.bytes;
                && r == (if offset >= |file| then 0 else if size <= |file| - offset then size else |file| - offset)
                && forall k :: 0 <= k < r ==> buf[k] == file[offset + k]
    {
      hide Tree, SameKinds, Walk, Find;
      buf := [];
      var entry := PathToLogentry(path);
      if entry.None? {
        return -ENOENT, buf;
      }
      var bytes := log[entry.value].body.bytes;
      var len := |bytes|;
      if offset < len {
        var size := size;
        if offset + size > len {
          size := len - offset;
        }
        buf := bytes[offset..offset + size];
        r := size;
      } else {
        r := 0;
      }
    }

    /** write: a new version of the file; `stale` is what the disk holds beyond the head. */
    method Write(path: Path, buf: seq<Byte>, offset: int, stale: seq<Byte>) returns (r: int)
      requires Mounted() && !LeadsToDir(Files(), path) && offset + |buf| <= MAX_DISK && offset <= |stale|
      modifies this
      ensures Mounted() && (old(Valid()) ==> Valid()) && (old(NoLeaks()) ==> NoLeaks())
      ensures r == if offset < 0 then 0
                   else if old(Lookup(Files(), path)).None? then -ENOENT
                   else if old(head) + INODE_SIZE +
                           |Written(old(Lookup(Files(), path)).value.bytes, offset, buf, stale)| > maxHead then -ENOSPC
                   else |buf|
      ensures offset < 0 || r < 0 ==> log == old(log)
      ensures offset >= 0 && r >= 0 ==>
                var n, bytes := old(Walk(Files(), 0, path)).value, old(Lookup(Files(), path)).value.bytes;
                && Files() == old(Files())[n := File(Written(bytes, offset, buf, stale))]
                && log == old(log) + [LogEntry(n, false, File(Written(bytes, offset, buf, stale)))]
                && head == old(head) + INODE_SIZE + |Written(bytes, offset, buf, stale)|
      ensures old(Valid()) && offset >= 0 && r >= 0 ==>
                forall q :: Lookup(Files(), q) ==
                            if q == path
                            then Some(FileNode(Written(old(Lookup(Files(), path)).value.bytes, offset, buf, stale)))
                            else old(Lookup(Files(), q))
    {
      hide Tree, SameKinds, Walk, Find;
      if offset < 0 {
        return 0;
      }
      ghost var m := Live(log);
      var oldLog := PathToLogentry(path);
      if oldLog.None? {
        return -ENOENT;
      }
      var e := log[oldLog.value];
      var newSize := |e.body.bytes|;
      if offset + |buf| > |e.body.bytes| {
        newSize := offset + |buf|;
      }
      if head + INODE_SIZE + newSize > maxHead {
        return -ENOSPC;
      }
      var bytes := Written(e.body.bytes, offset, buf, stale);
      if AllNamed(m) { RewriteNamed(m, e.ino, bytes); }
      if Tree(m) && SameKinds(log) {
        AppendKinds(log, LogEntry(e.ino, e.deleted, File(bytes)));
        RewriteTree(m, e.ino, bytes);
        forall q
          ensures Lookup(m[e.ino := File(bytes)], q) == if q == path then Some(FileNode(bytes)) else Lookup(m, q)
        {
          RewriteLookup(m, path, e.ino, bytes, q);
        }
      }
      Append(LogEntry(e.ino, e.deleted, File(bytes)));
      return |buf|;
    }

    /**
     unlink of a file.  The mark comes before the space check, so a failed call leaves the entry
     marked; and the copy of the parent needs room for all of it although less will be kept.
     */
    method Unlink(path: Path) returns (r: int, ghost k: nat)
      requires Mounted() && path != [] && !LeadsToDir(Files(), path)
      requires Lookup(Files(), path).Some? ==> !Overruns(head, DirSize(Files(), path[..|path| - 1]), maxHead)
      modifies this
      ensures Mounted()
      ensures r == if old(Lookup(Files(), path)).None? then -ENOENT
                   else if old(head + INODE_SIZE + DirSize(Files(), path[..|path| - 1])) - DENTRY_SIZE > maxHead
                             then -ENOSPC
                   else 0
      ensures r == -ENOENT ==> log == old(log)
      ensures r != -ENOENT ==> k < |old(log)| && LatestIn(old(log), path, k) && old(log)[k].body.File?
      ensures r == -ENOSPC ==> log == Marked(old(log), k) && head == old(head)
      ensures r == 0 ==>
                && old(Walk(Files(), 0, path[..|path| - 1])).Some?
                && var d := old(Walk(Files(), 0, path[..|path| - 1])).value;
                   && d in old(Files()) && old(Files())[d].Dir?
                   && log == Marked(old(log), k) +
                             [LogEntry(d, false, Dir(Without(old(Files())[d].entries, old(log)[k].ino)))]
                   && head == old(head) + INODE_SIZE + Size(old(Files())[d]) - DENTRY_SIZE
      ensures old(Valid() && NoLeaks()) && r == 0 ==> (NoLeaks() <==> Uncovered(old(log), k).None?)
      ensures old(Valid()) ==> (Valid() <==> r != -ENOSPC || Uncovered(old(log), k).Some?)
      ensures old(Valid()) && r == 0 ==> forall q :: Lookup(Files(), q) == Removed(old(Files()), path, q)
      ensures old(Valid()) && r == 0 ==>
                var parent := path[..|path| - 1];
                && Lookup(Files(), path).None?
                && Unlisted(old(Files()), Files(), path)
                && forall q :: q != path && q != parent ==> Lookup(Files(), q) == old(Lookup(Files(), q))
    {
      hide Tree, SameKinds, Walk, Find, Without, Refers, Unlisted;
      ghost var m, parent, name := Live(log), path[..|path| - 1], path[|path| - 1];
      assert path == parent + [name];
      var logPtr := PathToLogentry(path);
      k := 0;
      if logPtr.None? {
        return -ENOENT, k;
      }
      k := logPtr.value;
      ghost var at := LastStep(m, path);
      ghost var log0 := log;
      var parentLog := PathToLogentry(path[..|path| - 1]);
      var p := log[parentLog.value];
      log := Marked(log, logPtr.value);
      MarkedLive(log0, k);
      if head + INODE_SIZE + Size(p.body) - DENTRY_SIZE > maxHead {
        if Tree(m) && SameKinds(log0) {
          FailedUnlinkTree(log0, path, k);
        }
        return -ENOSPC, k;
      }
      LastStepRefers(m, path, at);
      var rest := DeleteDentry(log[logPtr.value].ino, p.body.entries);
      if Tree(m) && SameKinds(log0) {
        UnlinkEnds(log0, k, path, p.ino, at);
        MarkedIs(log0, k, p.ino);
        if AllNamed(m) { UnlinkNamedIff(m, p.ino, at, log0[k].ino, Uncovered(log0, k)); }
      }
      Append(LogEntry(p.ino, p.deleted, Dir(rest.value)));
      return 0, k;
    }
  }
}
