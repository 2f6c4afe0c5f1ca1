/**
 filewrite on the log: the chunks of a write are operations of the group commit, and a crash at any
 of its block writes leaves, once recovered, the file with a whole number of chunks written.
 */
module CrashSafety {
  import opened Blocks
  import opened RedoLog
  import opened FileBlocks
  import opened FileContent
  import opened GroupCommit
  import opened FileSystem

  // ---- the run of the log ----

  /** The block numbers that log_write records for the writes `ws`. */
  function LoggedBy(ws: seq<Write>): seq<Word> {
    if ws == [] then [] else Absorb(LoggedBy(ws[..|ws| - 1]), ws[|ws| - 1].block)
  }

  function CacheOf(ws: seq<Write>): map<Word, Block> {
    if ws == [] then map[] else CacheOf(ws[..|ws| - 1])[ws[|ws| - 1].block := ws[|ws| - 1].data]
  }

  /** As many as there are different blocks. */
  lemma {:induction false} LoggedBySize(ws: seq<Write>)
    ensures |LoggedBy(ws)| == |BlocksOf(ws)|
    ensures forall b: Word :: b in LoggedBy(ws) <==> b in BlocksOf(ws)
  {
    if ws != [] {
      var less, b := ws[..|ws| - 1], ws[|ws| - 1].block;
      LoggedBySize(less);
      assert ws == less + [ws[|ws| - 1]];
      assert BlocksOf(ws) == BlocksOf(less) + {b as nat};
    }
  }

  lemma {:induction false} LoggedByGrows(ws: seq<Write>, k: nat)
    requires k <= |ws|
    ensures |LoggedBy(ws[..k])| <= |LoggedBy(ws)|
  {
    if k < |ws| {
      LoggedByGrows(ws[..|ws| - 1], k);
      assert ws[..|ws| - 1][..k] == ws[..k];
    } else {
      assert ws[..k] == ws;
    }
  }

  /** What filewrite keeps to: few blocks, all on the disk and outside the log region. */
  ghost predicate Fits(r: Region, len: nat, op: nat, ws: seq<Write>) {
    && |LoggedBy(ws)| <= MAXOPBLOCKS
    && forall k :: 0 <= k < |ws| ==> ws[k].op == op && ws[k].block < len && !r.Has(ws[k].block)
  }

  /** Between transactions, with nobody in one. */
  ghost predicate AtRest(s: State, n: nat) {
    && s.phase.Idle? && s.active == [] && s.lh == [] && s.pending == [] && s.cache == map[] && s.outstanding == 0
    && forall o :: o in s.ended ==> o < n
  }

  /** Operation `op` has logged the writes `ws`. */
  function Logging(s: State, op: nat, ws: seq<Write>): State {
    s.(lh := LoggedBy(ws), cache := CacheOf(ws), outstanding := 1, active := [Op(op, |LoggedBy(ws)|)], pending := ws)
  }

  ghost predicate GroupsAre(ss: seq<State>, ops: seq<seq<Write>>) {
    forall i :: 0 <= i < |ss| ==> ss[i].groups <= ops
  }

  /** A run of the log whose transactions are the first of `ops`. */
  ghost predicate RunOf(r: Region, init: Image, ops: seq<seq<Write>>, es: seq<Event>, ss: seq<State>) {
    IsRun(r, init, es, ss) && GroupsAre(ss, ops)
  }

  lemma {:induction false} Extend(r: Region, init: Image, ops: seq<seq<Write>>, es: seq<Event>, ss: seq<State>,
                                  e: Event, t: State)
    requires RunOf(r, init, ops, es, ss) && Takes(r, ss[|es|], e, t) && t.groups <= ops
    ensures RunOf(r, init, ops, es + [e], ss + [t])
  {
    hide Takes, Fresh;
    var es', ss' := es + [e], ss + [t];
    forall i | 0 <= i < |es'|
      ensures Takes(r, ss'[i], es'[i], ss'[i + 1])
    {
      assert i < |es| ==> ss'[i + 1] == ss[i + 1] && Takes(r, ss[i], es[i], ss[i + 1]);
    }
  }

  /** The next log_write of the operation. */
  lemma {:induction false} LogStep(r: Region, init: Image, s: State, n: nat, op: nat, ws: seq<Write>, k: nat)
    requires AtRest(s, n) && Fits(r, |s.disk|, op, ws) && k < |ws| && r.size > MAXOPBLOCKS + 1
    requires Inv(r, init, Logging(s, op, ws[..k]))
    ensures Takes(r, Logging(s, op, ws[..k]), LogWrite(op, ws[k].block, ws[k].data), Logging(s, op, ws[..k + 1]))
  {
    hide Inv, Loggable, CommitImage, CachedData;
    var t, b := Logging(s, op, ws[..k]), ws[k].block;
    InvFacts(r, init, t);
    assert t.active[0].id == op;
    assert IndexOf(t.active, op) == 0;
    assert ws[..k + 1][..k] == ws[..k];
    LoggedByGrows(ws, k);
    LoggedByGrows(ws, k + 1);
    assert ws[k] == Write(op, b, ws[k].data);
  }

  /** All its calls of log_write. */
  lemma {:induction false} RunLogging(r: Region, init: Image, ops: seq<seq<Write>>, n: nat, es: seq<Event>,
                                      ss: seq<State>)
    returns (es': seq<Event>, ss': seq<State>)
    requires RunOf(r, init, ops, es, ss) && n < |ops| && AtRest(ss[|es|], n) && ss[|es|].groups == ops[..n]
    requires Fits(r, |init|, n, ops[n]) && r.size > MAXOPBLOCKS + 1
    ensures RunOf(r, init, ops, es', ss') && es <= es' && ss'[|es'|] == Logging(ss[|es|], n, ops[n])
  {
    hide Inv, Fits;
    var s, ws := ss[|es|], ops[n];
    RunKeepsInv(r, init, es, ss, |es|);
    InvFacts(r, init, s);
    assert AfterBegin(s, n) == Logging(s, n, []);
    assert ws[..0] == [];
    Extend(r, init, ops, es, ss, Begin(n), AfterBegin(s, n));
    es', ss' := es + [Begin(n)], ss + [AfterBegin(s, n)];
    hide RunOf;
    for k := 0 to |ws|
      invariant |ss'| == |es'| + 1 && RunOf(r, init, ops, es', ss') && es <= es' && ss'[|es'|] == Logging(s, n, ws[..k])
    {
      RunInv(r, init, ops, es', ss');
      LogStep(r, init, s, n, n, ws, k);
      var e, t := LogWrite(n, ws[k].block, ws[k].data), Logging(s, n, ws[..k + 1]);
      Extend(r, init, ops, es', ss', e, t);
      es', ss' := es' + [e], ss' + [t];
    }
    assert ws[..|ws|] == ws;
    RunInv(r, init, ops, es', ss');
  }

  lemma {:induction false} RunInv(r: Region, init: Image, ops: seq<seq<Write>>, es: seq<Event>, ss: seq<State>)
    requires RunOf(r, init, ops, es, ss)
    ensures |ss| == |es| + 1 && Inv(r, init, ss[|es|]) && ss[|es|].groups <= ops && IsRun(r, init, es, ss)
  {
    RunKeepsInv(r, init, es, ss, |es|);
  }

  /** The state `j` block writes into its commit. */
  ghost predicate InCommit(s: State, n: nat, ops: seq<seq<Write>>, j: nat) {
    && s.phase.Committing? && s.phase.step == j && s.active == [] && s.pending == [] && s.outstanding == 0
    && n < |ops| && s.groups == ops[..n + 1] && forall o :: o in s.ended ==> o < n + 1
  }

  /** end_op, the block writes of the commit, and its end. */
  lemma {:induction false} RunCommit(r: Region, init: Image, ops: seq<seq<Write>>, n: nat, s: State, es: seq<Event>,
                                     ss: seq<State>)
    returns (es': seq<Event>, ss': seq<State>)
    requires RunOf(r, init, ops, es, ss) && n < |ops| && AtRest(s, n) && s.groups == ops[..n]
    requires ss[|es|] == Logging(s, n, ops[n])
    ensures RunOf(r, init, ops, es', ss') && es <= es' && AtRest(ss'[|es'|], n + 1) && ss'[|es'|].groups == ops[..n + 1]
  {
    hide Inv, CommitImage, RunOf;
    RunInv(r, init, ops, es, ss);
    var t := ss[|es|];
    EndStep(r, init, ops, n, s);
    Extend(r, init, ops, es, ss, End(n), AfterEnd(t, n));
    es', ss' := es + [End(n)], ss + [AfterEnd(t, n)];
    var total := CommitWrites(|t.lh|);
    for j := 0 to total
      invariant |ss'| == |es'| + 1 && RunOf(r, init, ops, es', ss') && es <= es'
      invariant InCommit(ss'[|es'|], n, ops, j) && ss'[|es'|].lh == t.lh
    {
      RunInv(r, init, ops, es', ss');
      InvFacts(r, init, ss'[|es'|]);
      var u := AfterCommitBlock(r, ss'[|es'|]);
      Extend(r, init, ops, es', ss', CommitBlock, u);
      es', ss' := es' + [CommitBlock], ss' + [u];
    }
    RunInv(r, init, ops, es', ss');
    InvFacts(r, init, ss'[|es'|]);
    var u := AfterCommitDone(ss'[|es'|]);
    Extend(r, init, ops, es', ss', CommitDone, u);
    es', ss' := es' + [CommitDone], ss' + [u];
    RunInv(r, init, ops, es', ss');
  }

  lemma {:induction false} EndStep(r: Region, init: Image, ops: seq<seq<Write>>, n: nat, s: State)
    requires n < |ops| && AtRest(s, n) && s.groups == ops[..n] && Inv(r, init, Logging(s, n, ops[n]))
    ensures var t := Logging(s, n, ops[n]);
            HasOp(t.active, n) && Takes(r, t, End(n), AfterEnd(t, n)) && InCommit(AfterEnd(t, n), n, ops, 0)
  {
    var t := Logging(s, n, ops[n]);
    InvFacts(r, init, t);
    hide Inv;
    assert t.active[0].id == n;
    assert IndexOf(t.active, n) == 0 && Without(t.active, 0) == [];
    assert ops[..n + 1] == ops[..n] + [ops[n]];
  }

  /** One writer alone commits its operations one by one, and the log never panics. */
  lemma {:induction false} RunWriter(r: Region, init: Image, ops: seq<seq<Write>>)
    returns (es: seq<Event>, ss: seq<State>)
    requires Fresh(r, init) && r.size > MAXOPBLOCKS + 1 && forall n :: 0 <= n < |ops| ==> Fits(r, |init|, n, ops[n])
    ensures RunOf(r, init, ops, es, ss) && ss[|es|].groups == ops
  {
    hide Fits, Fresh;
    es, ss := [], [Start(init)];
    for n := 0 to |ops|
      invariant |ss| == |es| + 1 && RunOf(r, init, ops, es, ss) && AtRest(ss[|es|], n) && ss[|es|].groups == ops[..n]
    {
      var s := ss[|es|];
      es, ss := RunLogging(r, init, ops, n, es, ss);
      es, ss := RunCommit(r, init, ops, n, s, es, ss);
    }
    assert ops[..|ops|] == ops;
  }

  // ---- what a crash leaves ----

  lemma {:induction false} HomeApply(h: Image, r: Region, ws: seq<Write>)
    requires forall k :: 0 <= k < |ws| ==> !r.Has(ws[k].block)
    ensures Home(ApplyWrites(h, ws), r) == ApplyWrites(Home(h, r), ws)
  {
    if ws != [] {
      HomeApply(h, r, ws[..|ws| - 1]);
    }
  }

  /** The states between the chunks are those the transactions lead to. */
  lemma {:induction false} SnapsAreGroups(r: Region, sb: Layout, i: nat, ops: seq<seq<Write>>, snaps: seq<Snap>, j: nat)
    requires Chunked(sb, i, ops, snaps) && r.start + r.size <= sb.inodestart && j <= |ops|
    ensures Home(snaps[j].blocks, r) == ApplyGroups(Home(snaps[0].blocks, r), ops[..j])
  {
    hide SettledSnap, Home, ApplyWrites;
    if j > 0 {
      SnapsAreGroups(r, sb, i, ops, snaps, j - 1);
      var p, ws := j - 1, ops[j - 1];
      assert ChunkDone(sb, snaps[p], snaps[p + 1], p, ws);
      assert forall k :: 0 <= k < |ws| ==> HomeWrite(sb, sb.size, p, ws[k]);
      HomeApply(snaps[p].blocks, r, ws);
      assert ops[..j][..j - 1] == ops[..j - 1];
    }
  }

  /** Only what comes after the log matters to the file system. */
  ghost predicate SameAfterLog(sb: Layout, blocks: Image, e: Image) {
    |e| == |blocks| && forall b: nat :: sb.inodestart <= b < |e| ==> e[b] == blocks[b]
  }

  lemma {:induction false} SoundAfterLog(sb: Layout, s: Snap, i: nat, e: Image)
    requires Sound(sb, s.blocks, s.slots, s.owner, i, s.d) && SameAfterLog(sb, s.blocks, e)
    ensures Sound(sb, e, s.slots, s.owner, i, s.d)
    ensures forall j: nat :: j < sb.ninodes ==> DinodeAt(sb, e, j) == DinodeAt(sb, s.blocks, j)
  {
    assert forall c: nat :: c < sb.size ==> FileBlocks.Used(sb, e, c) == FileBlocks.Used(sb, s.blocks, c);
    BitsKeepOwned(sb, s.blocks, e, s.slots, s.owner);
    assert SameInodes(sb, s.blocks, e);
    hide FileBlocks.Used, Owned, DinodeAt;
    forall j: nat | j < sb.ninodes
      ensures DinodeAt(sb, e, j) == DinodeAt(sb, s.blocks, j) && InodeMatches(sb, e, s.slots, i, s.d, j)
    {
      assert InodeMatches(sb, s.blocks, s.slots, i, s.d, j);
      IndirectOwned(sb, s.blocks, s.slots, s.owner, i, s.d, j);
      SameDinode(sb, s.blocks, e, j);
    }
  }

  lemma {:induction false} FileAfterLog(sb: Layout, s: Snap, i: nat, e: Image, j: nat)
    requires SettledSnap(sb, s, i) && SameAfterLog(sb, s.blocks, e) && j < sb.ninodes
    ensures TightAt(sb, e, s.slots, j) && File(sb, e, s.slots, j) == File(sb, s.blocks, s.slots, j)
  {
    SoundAfterLog(sb, s, i, e);
    assert TightAt(sb, s.blocks, s.slots, j);
    var size := DinodeAt(sb, s.blocks, j).size;
    hide DinodeAt;
    forall o: nat | o < size
      ensures FileByte(e, s.slots[j], o) == FileByte(s.blocks, s.slots[j], o)
    {
      FileContent.Filled(s.slots[j], BlocksFor(size), o);
      PlacesDiffer(sb, s.blocks, s.slots, s.owner, j, PlaceOf(o / BSIZE), j, PlaceOf(o / BSIZE));
    }
  }

  lemma {:induction false} SettledAfterLog(sb: Layout, s: Snap, i: nat, e: Image)
    requires SettledSnap(sb, s, i) && SameAfterLog(sb, s.blocks, e)
    ensures SettledSnap(sb, s.(blocks := e), i) && |s.slots| == sb.ninodes && |s.blocks| == sb.size && sb.WellFormed()
    ensures Files(sb, e, s.slots) == Files(sb, s.blocks, s.slots)
  {
    SoundAfterLog(sb, s, i, e);
    hide Sound, SameAfterLog, File, DinodeAt, TightAt;
    forall j: nat | j < sb.ninodes
      ensures TightAt(sb, e, s.slots, j) && File(sb, e, s.slots, j) == File(sb, s.blocks, s.slots, j)
    {
      FileAfterLog(sb, s, i, e, j);
    }
  }

  /** The log takes the operations of a filewrite one after the other, and never panics. */
  lemma {:induction false} FileWriteRuns(r: Region, init: Image, sb: Layout, i: nat, ops: seq<seq<Write>>,
                                         snaps: seq<Snap>)
    returns (es: seq<Event>, ss: seq<State>)
    requires Chunked(sb, i, ops, snaps) && r.start + r.size <= sb.inodestart && r.size > MAXOPBLOCKS + 1
    requires Fresh(r, init) && |init| == sb.size
    ensures RunOf(r, init, ops, es, ss) && ss[|es|].groups == ops
  {
    hide SettledSnap, Fresh;
    forall n: nat | n < |ops|
      ensures Fits(r, |init|, n, ops[n])
    {
      var ws, next := ops[n], n + 1;
      assert ChunkDone(sb, snaps[n], snaps[next], n, ws);
      LoggedBySize(ws);
      assert forall k :: 0 <= k < |ws| ==> HomeWrite(sb, sb.size, n, ws[k]);
    }
    es, ss := RunWriter(r, init, ops);
  }

  /**
   A crash in any state of the log's run during a filewrite, then any number of interrupted recoveries
   and a complete one: the disk is consistent, the file has a whole number of the chunks of `src`
   written into it, namely those whose transactions had committed, and no other file has changed.
   */
  lemma {:induction false} CrashDuringFileWrite(r: Region, init: Image, sb: Layout, i: nat,
                                                ops: seq<seq<Write>>, snaps: seq<Snap>,
                                                files: seq<seq<Byte>>, off: nat, src: seq<Byte>,
                                                es: seq<Event>, ss: seq<State>, c: nat, ks: seq<nat>, k: nat)
    requires Chunked(sb, i, ops, snaps) && ChunkFiles(sb, i, files, off, src, snaps)
    requires r.start + r.size <= sb.inodestart && Home(init, r) == Home(snaps[0].blocks, r)
    requires RunOf(r, init, ops, es, ss) && c < |ss|
    ensures WellFormed(ss[c].disk, r) && Durable(ss[c]) < |snaps|
    ensures var d, j := Restarts(ss[c].disk, r, ks), Durable(ss[c]);
            k > |HeaderOf(d[r.start])| ==>
              var s := snaps[j].(blocks := RecoverImage(d, r, k));
              SettledSnap(sb, s, i) && FilesAfter(sb, i, files, off, src[..ChunkEnd(j, |src|)], s)
  {
    hide SettledSnap, Files, Restarts, RecoverImage, HeaderOf, Home, Spliced;
    CrashShowsPrefix(r, init, es, ss, c, ks, k);
    var d, j := Restarts(ss[c].disk, r, ks), Durable(ss[c]);
    assert ss[c].groups <= ops;
    assert ss[c].groups[..j] == ops[..j];
    SnapsAreGroups(r, sb, i, ops, snaps, j);
    assert FilesAfter(sb, i, files, off, src[..ChunkEnd(j, |src|)], snaps[j]);
    if k > |HeaderOf(d[r.start])| {
      HomeAfterLog(r, sb, snaps[j].blocks, RecoverImage(d, r, k));
      SettledAfterLog(sb, snaps[j], i, RecoverImage(d, r, k));
    }
  }

  lemma {:induction false} HomeAfterLog(r: Region, sb: Layout, blocks: Image, e: Image)
    requires Home(e, r) == Home(blocks, r) && r.start + r.size <= sb.inodestart
    ensures SameAfterLog(sb, blocks, e)
  {
    assert |Home(e, r)| == |Home(blocks, r)|;
    forall b: nat | sb.inodestart <= b < |e|
      ensures e[b] == blocks[b]
    {
      assert Home(e, r)[b] == e[b] && Home(blocks, r)[b] == blocks[b];
    }
  }
}
