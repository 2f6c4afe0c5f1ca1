/**
 Group commit: every interleaving of begin_op, log_write, end_op and the block writes of commit().

 One step is one region under log.lock or one block write, so a crash can happen before any step.
 A process that would sleep is `Blocked`; the panics of log.c are the outcome `Panic`.
 */
module GroupCommit {
  import opened Blocks
  import opened RedoLog

  const MAXOPBLOCKS: nat := 10

  /** The condition under which begin_op lets one more operation in (log.lh.n is `n`). */
  predicate Admits(n: nat, outstanding: int) {
    n + (outstanding + 1) * MAXOPBLOCKS <= LOGSIZE
  }

  /** The condition under which log_write panics with "too big a transaction". */
  predicate TooBig(n: nat, size: nat) {
    n >= LOGSIZE || n >= size - 1
  }

  /** The logged block numbers after log_write of block `b`. */
  function Absorb(lh: seq<Word>, b: Word): seq<Word> {
    if b in lh then lh else lh + [b]
  }

  datatype Write = Write(op: nat, block: Word, data: Block)

  /** An operation between its begin_op and its end_op, and the new blocks it has added to the log. */
  datatype Op = Op(id: nat, used: nat)

  datatype Phase = Idle | Committing(base: Image, step: nat)

  /**
   `lh` is log.lh.block[..n], `cache` the pinned buffers, `phase` says whether log.committing is set,
   on which image the commit began and how many blocks it has written.  The rest is history:
   writes since the last commit began, the transactions so far, and the transaction of each
   operation that has ended.
   */
  datatype State = State(disk: Image, lh: seq<Word>, cache: map<Word, Block>, outstanding: int, phase: Phase,
                         active: seq<Op>, pending: seq<Write>, groups: seq<seq<Write>>, ended: map<nat, nat>)

  datatype Event = Begin(id: nat) | LogWrite(id: nat, block: Word, data: Block) | End(id: nat) | CommitBlock
    | CommitDone

  datatype Outcome = Blocked | Panic | Next(state: State)

  function Start(init: Image): State {
    State(init, [], map[], 0, Idle, [], [], [], map[])
  }

  /** The cached data of the logged blocks, in log order. */
  function DataOf(lh: seq<Word>, cache: map<Word, Block>): (ds: seq<Block>)
    requires forall i :: 0 <= i < |lh| ==> lh[i] in cache
    ensures |ds| == |lh|
  {
    seq(|lh|, i requires 0 <= i < |lh| => cache[lh[i]])
  }

  function CachedData(s: State): (ds: seq<Block>)
    requires forall i :: 0 <= i < |s.lh| ==> s.lh[i] in s.cache
    ensures |ds| == |s.lh|
  {
    DataOf(s.lh, s.cache)
  }

  /** How many blocks commit() writes for `n` logged blocks. */
  function CommitWrites(n: nat): nat {
    if n == 0 then 0 else 2 * n + 2
  }

  predicate HasOp(active: seq<Op>, id: nat) {
    exists i :: 0 <= i < |active| && active[i].id == id
  }

  function IndexOf(active: seq<Op>, id: nat): (i: nat)
    requires HasOp(active, id)
    ensures i < |active| && active[i].id == id
  {
    if active[0].id == id then 0 else 1 + IndexOf(active[1..], id)
  }

  /** What the system calls themselves keep to. */
  predicate Allowed(r: Region, s: State, e: Event) {
    match e
    case Begin(id) => !HasOp(s.active, id) && id !in s.ended
    case LogWrite(id, b, _) =>
      && HasOp(s.active, id) && b < |s.disk| && !r.Has(b)
      && (b in s.lh || s.active[IndexOf(s.active, id)].used < MAXOPBLOCKS)
    case End(id) => HasOp(s.active, id)
    case _ => true
  }

  /** The states in which a step is defined. */
  ghost predicate Shape(r: Region, s: State) {
    && Loggable(r, |s.disk|, s.lh) && s.cache.Keys == (set b | b in s.lh)
    && (s.phase.Committing? ==> |s.phase.base| == |s.disk|)
  }

  function Without(active: seq<Op>, i: nat): (rest: seq<Op>)
    requires i < |active|
    ensures |rest| == |active| - 1
    ensures forall j :: 0 <= j < |rest| ==> rest[j] == active[if j < i then j else j + 1]
  {
    active[..i] + active[i + 1..]
  }

  function AfterBegin(s: State, id: nat): State {
    s.(outstanding := s.outstanding + 1, active := s.active + [Op(id, 0)])
  }

  function AfterLogWrite(s: State, id: nat, b: Word, data: Block): State
    requires HasOp(s.active, id)
  {
    var i := IndexOf(s.active, id);
    var used := if b in s.lh then s.active[i].used else s.active[i].used + 1;
    s.(lh := Absorb(s.lh, b), cache := s.cache[b := data], pending := s.pending + [Write(id, b, data)],
       active := s.active[i := Op(id, used)])
  }

  function AfterEnd(s: State, id: nat): State
    requires HasOp(s.active, id)
  {
    var i := IndexOf(s.active, id);
    var t := s.(outstanding := s.outstanding - 1, active := Without(s.active, i),
                ended := s.ended[id := |s.groups|]);
    if t.outstanding != 0 then t
    else t.(phase := Committing(s.disk, 0), groups := s.groups + [s.pending], pending := [])
  }

  function AfterCommitBlock(r: Region, s: State): State
    requires Shape(r, s) && s.phase.Committing?
  {
    var step := s.phase.step + 1;
    s.(disk := CommitImage(s.phase.base, r, s.lh, CachedData(s), step), phase := Committing(s.phase.base, step))
  }

  function AfterCommitDone(s: State): State {
    s.(phase := Idle, lh := [], cache := map[])
  }

  function Step(r: Region, s: State, e: Event): Outcome
    requires Allowed(r, s, e) && Shape(r, s)
  {
    match e
    case Begin(id) =>
      if s.phase.Committing? || !Admits(|s.lh|, s.outstanding) then Blocked else Next(AfterBegin(s, id))
    case LogWrite(id, b, data) =>
      if TooBig(|s.lh|, r.size) || s.outstanding < 1 then Panic else Next(AfterLogWrite(s, id, b, data))
    case End(id) =>
      if s.phase.Committing? then Panic else Next(AfterEnd(s, id))
    case CommitBlock =>
      if s.phase.Idle? || s.phase.step >= CommitWrites(|s.lh|) then Blocked else Next(AfterCommitBlock(r, s))
    case CommitDone =>
      if s.phase.Idle? || s.phase.step < CommitWrites(|s.lh|) then Blocked else Next(AfterCommitDone(s))
  }

  // ---- the meaning of transactions ----

  /** The home blocks after the writes `ws`, in order. */
  function ApplyWrites(h: Image, ws: seq<Write>): (h': Image)
    ensures |h'| == |h|
  {
    if ws == [] then h
    else
      var g := ApplyWrites(h, ws[..|ws| - 1]);
      var w := ws[|ws| - 1];
      if w.block < |g| then g[w.block := w.data] else g
  }

  function ApplyGroups(h: Image, gs: seq<seq<Write>>): (h': Image)
    ensures |h'| == |h|
  {
    if gs == [] then h else ApplyWrites(ApplyGroups(h, gs[..|gs| - 1]), gs[|gs| - 1])
  }

  /** Blocks still promised to the operations in progress. */
  function Reserved(active: seq<Op>): int {
    if active == [] then 0 else Reserved(active[..|active| - 1]) + MAXOPBLOCKS - active[|active| - 1].used
  }

  lemma {:induction false} ReservedUpdate(active: seq<Op>, i: nat, o: Op)
    requires i < |active|
    ensures Reserved(active[i := o]) == Reserved(active) + active[i].used - o.used
  {
    var l := |active| - 1;
    if i < l {
      ReservedUpdate(active[..l], i, o);
      assert active[i := o][..l] == active[..l][i := o];
    } else {
      assert active[i := o][..l] == active[..l];
    }
  }

  lemma {:induction false} ReservedRemove(active: seq<Op>, i: nat)
    requires i < |active|
    ensures Reserved(Without(active, i)) == Reserved(active) - MAXOPBLOCKS + active[i].used
  {
    var l := |active| - 1;
    var rest := Without(active, i);
    if i < l {
      ReservedRemove(active[..l], i);
      assert rest[..|rest| - 1] == Without(active[..l], i);
    } else {
      assert rest == active[..l];
    }
  }

  /** Nobody's remaining allowance exceeds what is reserved in all. */
  lemma {:induction false} ReservedBounds(active: seq<Op>)
    requires forall i :: 0 <= i < |active| ==> active[i].used <= MAXOPBLOCKS
    ensures 0 <= Reserved(active) <= |active| * MAXOPBLOCKS
    ensures forall i :: 0 <= i < |active| ==> MAXOPBLOCKS - active[i].used <= Reserved(active)
  {
    if active != [] {
      ReservedBounds(active[..|active| - 1]);
    }
  }

  // ---- the invariant ----

  function BaseOf(s: State): Image {
    if s.phase.Idle? then s.disk else s.phase.base
  }

  /** The transactions that were complete before the present one. */
  function Settled(s: State): seq<seq<Write>> {
    if s.phase.Idle? || s.groups == [] then s.groups else s.groups[..|s.groups| - 1]
  }

  /** The transaction being collected or committed. */
  function Current(s: State): seq<Write> {
    if s.phase.Idle? || s.groups == [] then s.pending else s.groups[|s.groups| - 1]
  }

  ghost predicate Counts(r: Region, s: State) {
    && s.outstanding == |s.active|
    && (forall i, j :: 0 <= i < j < |s.active| ==> s.active[i].id != s.active[j].id)
    && (forall i :: 0 <= i < |s.active| ==> s.active[i].used <= MAXOPBLOCKS && s.active[i].id !in s.ended)
    && |s.lh| + Reserved(s.active) <= LOGSIZE
    && (s.phase.Idle? && s.active == [] ==> s.lh == [])
    && (s.phase.Committing? ==> s.active == [] && s.pending == [] && s.groups != [])
  }

  /** Where the writes of each operation are. */
  ghost predicate Whole(s: State) {
    && (forall g, k :: 0 <= g < |s.groups| && 0 <= k < |s.groups[g]| ==>
          s.groups[g][k].op in s.ended && s.ended[s.groups[g][k].op] == g)
    && (forall k :: 0 <= k < |s.pending| ==>
          var o := s.pending[k].op;
          if o in s.ended then s.ended[o] == |s.groups| else HasOp(s.active, o))
  }

  /** On an image with an empty log, the logged data is exactly what the current transaction wrote. */
  ghost predicate Agrees(r: Region, init: Image, base: Image, lh: seq<Word>, ds: seq<Block>,
                         settled: seq<seq<Write>>, current: seq<Write>)
    requires Loggable(r, |base|, lh) && |ds| == |lh|
  {
    && HeaderOf(base[r.start]) == []
    && Home(base, r) == ApplyGroups(Home(init, r), settled)
    && Overlay(Home(base, r), lh, ds, |lh|) == ApplyWrites(Home(base, r), current)
  }

  /** The disk is where the commit, if there is one, has got to. */
  ghost predicate OnDisk(r: Region, disk: Image, lh: seq<Word>, ds: seq<Block>, phase: Phase)
    requires phase.Committing? ==> Loggable(r, |phase.base|, lh) && |ds| == |lh|
  {
    phase.Committing? ==>
      && phase.step <= CommitWrites(|lh|)
      && disk == (if lh == [] then phase.base else CommitImage(phase.base, r, lh, ds, phase.step))
  }

  /** The cache holds the newest data of every logged block. */
  ghost predicate Data(r: Region, init: Image, s: State) {
    && Shape(r, s) && |s.disk| == |init|
    && Agrees(r, init, BaseOf(s), s.lh, CachedData(s), Settled(s), Current(s))
    && OnDisk(r, s.disk, s.lh, CachedData(s), s.phase)
  }

  ghost predicate Inv(r: Region, init: Image, s: State) {
    Counts(r, s) && Whole(s) && Data(r, init, s)
  }

  /** A freshly recovered disk: an empty log whose region lies on the disk. */
  ghost predicate Fresh(r: Region, init: Image) {
    WellFormed(init, r) && HeaderOf(init[r.start]) == [] && 0 < r.size && r.start + r.size <= |init|
  }

  lemma {:induction false} StartInv(r: Region, init: Image)
    requires Fresh(r, init)
    ensures Inv(r, init, Start(init))
  {
  }

  // ---- every step keeps it ----

  lemma {:induction false} BeginKeepsInv(r: Region, init: Image, s: State, id: nat)
    requires Inv(r, init, s) && Allowed(r, s, Begin(id)) && s.phase.Idle? && Admits(|s.lh|, s.outstanding)
    ensures Inv(r, init, AfterBegin(s, id))
  {
    BeginKeepsCounts(r, s, id);
    hide Counts, Whole, Agrees, OnDisk;
    assert CachedData(AfterBegin(s, id)) == CachedData(s);
  }

  lemma {:induction false} BeginKeepsCounts(r: Region, s: State, id: nat)
    requires Counts(r, s) && Whole(s) && Allowed(r, s, Begin(id)) && s.phase.Idle? && Admits(|s.lh|, s.outstanding)
    ensures Counts(r, AfterBegin(s, id)) && Whole(AfterBegin(s, id))
  {
    var t := AfterBegin(s, id);
    ReservedBounds(s.active);
    assert t.active[..|s.active|] == s.active;
    OpsStay(s.active, t.active);
  }

  lemma {:induction false} OpsStay(ops: seq<Op>, ops': seq<Op>)
    requires |ops| <= |ops'| && forall j :: 0 <= j < |ops| ==> ops'[j].id == ops[j].id
    ensures forall o :: HasOp(ops, o) ==> HasOp(ops', o)
  {
    forall o | HasOp(ops, o)
      ensures HasOp(ops', o)
    {
      var j :| 0 <= j < |ops| && ops[j].id == o;
      assert ops'[j].id == o;
    }
  }

  lemma {:induction false} OpCounts(active: seq<Op>, id: nat)
    requires HasOp(active, id)
    ensures |active| >= 1
  {
  }

  lemma {:induction false} LogWriteKeepsCounts(r: Region, s: State, id: nat, b: Word, data: Block)
    requires Counts(r, s) && Whole(s) && s.phase.Idle? && Allowed(r, s, LogWrite(id, b, data))
    ensures Counts(r, AfterLogWrite(s, id, b, data)) && Whole(AfterLogWrite(s, id, b, data))
  {
    var t := AfterLogWrite(s, id, b, data);
    var i := IndexOf(s.active, id);
    ReservedUpdate(s.active, i, t.active[i]);
    OpsStay(s.active, t.active);
    assert HasOp(t.active, id);
  }

  /** log_write of one more block is one more write on top of the overlaid image. */
  lemma {:induction false} OverlayAbsorb(h: Image, lh: seq<Word>, cache: map<Word, Block>, b: Word, data: Block)
    requires Distinct(lh) && b < |h| && forall i :: 0 <= i < |lh| ==> lh[i] < |h| && lh[i] in cache
    ensures forall i :: 0 <= i < |Absorb(lh, b)| ==> Absorb(lh, b)[i] < |h|
    ensures Overlay(h, Absorb(lh, b), DataOf(Absorb(lh, b), cache[b := data]), |Absorb(lh, b)|)
         == Overlay(h, lh, DataOf(lh, cache), |lh|)[b := data]
  {
    var ds := DataOf(lh, cache);
    if b in lh {
      var i :| 0 <= i < |lh| && lh[i] == b;
      OverlayReplace(h, lh, ds, |lh|, i, data);
      forall k | 0 <= k < |lh| && k != i
        ensures lh[k] != b
      {
        if lh[k] == b { DistinctAt(lh, i, k); }
      }
      assert DataOf(lh, cache[b := data]) == ds[i := data];
    } else {
      OverlayAppend(h, lh, ds, b, data);
      assert DataOf(lh + [b], cache[b := data]) == ds + [data];
    }
  }

  lemma {:induction false} ApplyAppend(h: Image, ws: seq<Write>, w: Write)
    requires w.block < |h|
    ensures ApplyWrites(h, ws + [w]) == ApplyWrites(h, ws)[w.block := w.data]
  {
    assert (ws + [w])[..|ws|] == ws;
  }

  lemma {:induction false} LogWriteAgrees(r: Region, init: Image, base: Image, lh: seq<Word>, cache: map<Word, Block>,
                                          w: Write,
                       settled: seq<seq<Write>>, current: seq<Write>)
    requires forall i :: 0 <= i < |lh| ==> lh[i] in cache
    requires Loggable(r, |base|, lh) && Agrees(r, init, base, lh, DataOf(lh, cache), settled, current)
    requires w.block < |base| && !r.Has(w.block) && !TooBig(|lh|, r.size)
    ensures Loggable(r, |base|, Absorb(lh, w.block))
    ensures Agrees(r, init, base, Absorb(lh, w.block), DataOf(Absorb(lh, w.block), cache[w.block := w.data]), settled,
                   current + [w])
  {
    hide Overlay, ApplyWrites, ApplyGroups, Home, DataOf, Distinct, HeaderOf;
    OverlayAbsorb(Home(base, r), lh, cache, w.block, w.data);
    ApplyAppend(Home(base, r), current, w);
    if w.block !in lh { DistinctAppend(lh, w.block); }
  }

  lemma {:induction false} LogWriteKeepsData(r: Region, init: Image, s: State, id: nat, b: Word, data: Block)
    requires Data(r, init, s) && s.phase.Idle? && Allowed(r, s, LogWrite(id, b, data)) && !TooBig(|s.lh|, r.size)
    ensures Data(r, init, AfterLogWrite(s, id, b, data))
  {
    hide Agrees, Overlay, ApplyWrites, ApplyGroups, Home, HeaderOf, Distinct, CommitImage, IndexOf;
    LogWriteAgrees(r, init, s.disk, s.lh, s.cache, Write(id, b, data), s.groups, s.pending);
  }

  lemma {:induction false} EndKeepsCounts(r: Region, s: State, id: nat)
    requires Counts(r, s) && s.phase.Idle? && Allowed(r, s, End(id))
    ensures Counts(r, AfterEnd(s, id))
  {
    var i := IndexOf(s.active, id);
    var t := AfterEnd(s, id);
    ReservedRemove(s.active, i);
  }

  lemma {:induction false} OthersStay(active: seq<Op>, i: nat)
    requires i < |active|
    ensures forall o :: HasOp(active, o) && o != active[i].id ==> HasOp(Without(active, i), o)
  {
    forall o | HasOp(active, o) && o != active[i].id
      ensures HasOp(Without(active, i), o)
    {
      var j :| 0 <= j < |active| && active[j].id == o;
      assert Without(active, i)[if j < i then j else j - 1].id == o;
    }
  }

  lemma {:induction false} EndKeepsWhole(r: Region, s: State, id: nat)
    requires Counts(r, s) && Whole(s) && s.phase.Idle? && Allowed(r, s, End(id))
    ensures Whole(AfterEnd(s, id))
  {
    hide Reserved;
    var t := AfterEnd(s, id);
    OthersStay(s.active, IndexOf(s.active, id));
    assert id !in s.ended;
    hide Counts, HasOp, IndexOf, Without;
    forall g, k | 0 <= g < |t.groups| && 0 <= k < |t.groups[g]|
      ensures t.groups[g][k].op in t.ended && t.ended[t.groups[g][k].op] == g
    {
      assert g < |s.groups| ==> t.groups[g] == s.groups[g];
      assert g == |s.groups| ==> t.groups[g][k] == s.pending[k];
    }
  }

  lemma {:induction false} EndKeepsData(r: Region, init: Image, s: State, id: nat)
    requires Data(r, init, s) && s.phase.Idle? && Allowed(r, s, End(id))
    ensures Data(r, init, AfterEnd(s, id))
  {
  }

  lemma {:induction false} CommitBlockKeepsData(r: Region, init: Image, s: State)
    requires Inv(r, init, s) && s.phase.Committing? && s.phase.step < CommitWrites(|s.lh|)
    ensures Data(r, init, AfterCommitBlock(r, s))
  {
  }

  /** A finished commit has moved the last transaction to the home blocks. */
  lemma {:induction false} CommitDoneAgrees(r: Region, init: Image, base: Image, lh: seq<Word>, ds: seq<Block>,
                         groups: seq<seq<Write>>, disk: Image)
    requires Loggable(r, |base|, lh) && |ds| == |lh| && groups != []
    requires Agrees(r, init, base, lh, ds, groups[..|groups| - 1], groups[|groups| - 1])
    requires disk == if lh == [] then base else CommitImage(base, r, lh, ds, 2 * |lh| + 2)
    ensures Agrees(r, init, disk, [], [], groups, [])
  {
    if lh != [] {
      CommitIsAtomic(base, r, lh, ds, 2 * |lh| + 2);
    }
  }

  lemma {:induction false} CommitDoneKeepsData(r: Region, init: Image, s: State)
    requires Counts(r, s) && Data(r, init, s) && s.phase.Committing? && s.phase.step >= CommitWrites(|s.lh|)
    ensures Data(r, init, AfterCommitDone(s))
  {
    CommitDoneAgrees(r, init, s.phase.base, s.lh, CachedData(s), s.groups, s.disk);
    assert CachedData(AfterCommitDone(s)) == [];
  }

  lemma {:induction false} CommitDoneKeepsCounts(r: Region, s: State)
    requires Counts(r, s) && s.phase.Committing?
    ensures Counts(r, AfterCommitDone(s))
  {
  }

  /** What the invariant says about the log's own fields. */
  lemma {:induction false} InvFacts(r: Region, init: Image, s: State)
    requires Inv(r, init, s)
    ensures Shape(r, s) && |s.disk| == |init| && s.outstanding == |s.active|
    ensures s.phase.Committing? ==>
              && s.active == [] && s.pending == [] && s.phase.step <= CommitWrites(|s.lh|)
              && s.disk == if s.lh == [] then s.phase.base
                   else CommitImage(s.phase.base, r, s.lh, CachedData(s), s.phase.step)
  {
  }

  lemma {:induction false} StepKeepsInv(r: Region, init: Image, s: State, e: Event)
    requires Inv(r, init, s) && Allowed(r, s, e) && Step(r, s, e).Next?
    ensures Inv(r, init, Step(r, s, e).state)
  {
    match e
    case Begin(id) => BeginKeepsInv(r, init, s, id);
    case LogWrite(id, b, data) =>
      LogWriteKeepsCounts(r, s, id, b, data);
      LogWriteKeepsData(r, init, s, id, b, data);
    case End(id) =>
      EndKeepsCounts(r, s, id);
      EndKeepsWhole(r, s, id);
      EndKeepsData(r, init, s, id);
    case CommitBlock => CommitBlockKeepsData(r, init, s);
    case CommitDone =>
      CommitDoneKeepsCounts(r, s);
      CommitDoneKeepsData(r, init, s);
  }

  // ---- whole runs ----

  /** `ss` are the states of a run of the steps `es` from a freshly recovered disk. */
  ghost predicate IsRun(r: Region, init: Image, es: seq<Event>, ss: seq<State>) {
    && Fresh(r, init)
    && |ss| == |es| + 1 && ss[0] == Start(init)
    && forall i :: 0 <= i < |es| ==> Takes(r, ss[i], es[i], ss[i + 1])
  }

  ghost predicate Takes(r: Region, s: State, e: Event, t: State) {
    Shape(r, s) && Allowed(r, s, e) && Step(r, s, e) == Next(t)
  }

  lemma {:induction false} RunKeepsInv(r: Region, init: Image, es: seq<Event>, ss: seq<State>, i: nat)
    requires IsRun(r, init, es, ss) && i < |ss|
    ensures Inv(r, init, ss[i])
  {
    hide Inv, Step, Allowed, Shape, Fresh, Start;
    if i == 0 {
      StartInv(r, init);
    } else {
      RunKeepsInv(r, init, es, ss, i - 1);
      assert Takes(r, ss[i - 1], es[i - 1], ss[i]);
      StepKeepsInv(r, init, ss[i - 1], es[i - 1]);
    }
  }

  /** How many of the transactions a crash in this state would leave on the disk. */
  function Durable(s: State): (m: nat)
    ensures m <= |s.groups|
  {
    if s.phase.Committing? && s.lh != [] && s.phase.step <= |s.lh| && s.groups != [] then |s.groups| - 1 else |s.groups|
  }

  lemma {:induction false} CommitMeaning(r: Region, init: Image, s: State)
    requires Data(r, init, s) && s.phase.Committing? && s.lh != [] && s.groups != []
    ensures WellFormed(s.disk, r) && Meaning(s.disk, r) == ApplyGroups(Home(init, r), s.groups[..Durable(s)])
  {
    CommitIsAtomic(s.phase.base, r, s.lh, CachedData(s), s.phase.step);
    if s.phase.step > |s.lh| {
      assert s.groups[..|s.groups|] == s.groups;
    }
  }

  lemma {:induction false} InvMeaning(r: Region, init: Image, s: State)
    requires Data(r, init, s) && (s.phase.Committing? ==> s.groups != [])
    ensures WellFormed(s.disk, r)
    ensures Meaning(s.disk, r) == ApplyGroups(Home(init, r), s.groups[..Durable(s)])
  {
    if s.phase.Committing? && s.lh != [] {
      CommitMeaning(r, init, s);
    } else {
      assert s.groups[..|s.groups|] == s.groups;
    }
  }

  /**
   A crash in any state of any run, then any number of interrupted recoveries, then a complete
   one, leaves the home blocks as a prefix of the transactions made them: all of them, or all but
   the one whose header was not yet written.
   */
  lemma {:induction false} CrashShowsPrefix(r: Region, init: Image, es: seq<Event>, ss: seq<State>, i: nat,
                                            ks: seq<nat>, k: nat)
    requires IsRun(r, init, es, ss) && i < |ss|
    ensures WellFormed(ss[i].disk, r)
    ensures var d := Restarts(ss[i].disk, r, ks);
            k > |HeaderOf(d[r.start])| ==>
              Home(RecoverImage(d, r, k), r) == ApplyGroups(Home(init, r), ss[i].groups[..Durable(ss[i])])
  {
    RunKeepsInv(r, init, es, ss, i);
    InvMeaning(r, init, ss[i]);
    if k > |HeaderOf(Restarts(ss[i].disk, r, ks)[r.start])| {
      RecoverAfterRestarts(ss[i].disk, r, ks, k);
    }
  }

  ghost predicate Wrote(ws: seq<Write>, op: nat) {
    exists k :: 0 <= k < |ws| && ws[k].op == op
  }

  /** No operation's writes are split over two transactions, and one that has not ended is in none. */
  lemma {:induction false} OperationsAreWhole(r: Region, init: Image, es: seq<Event>, ss: seq<State>, i: nat, op: nat,
                                              g: nat)
    requires IsRun(r, init, es, ss) && i < |ss|
    requires g < |ss[i].groups| && Wrote(ss[i].groups[g], op)
    ensures forall h :: 0 <= h < |ss[i].groups| && h != g ==> !Wrote(ss[i].groups[h], op)
    ensures !Wrote(ss[i].pending, op) && !HasOp(ss[i].active, op)
  {
    RunKeepsInv(r, init, es, ss, i);
  }

  /** While a commit is in progress no operation is outstanding, and end_op never finds one in progress. */
  lemma {:induction false} CommitsAlone(r: Region, init: Image, es: seq<Event>, ss: seq<State>, i: nat, id: nat)
    requires IsRun(r, init, es, ss) && i < |ss|
    ensures ss[i].phase.Committing? ==> ss[i].outstanding == 0 && ss[i].pending == []
    ensures Shape(r, ss[i])
    ensures Allowed(r, ss[i], End(id)) ==> Step(r, ss[i], End(id)).Next?
  {
    RunKeepsInv(r, init, es, ss, i);
  }

  /** The newest contents of a block: what was logged last, else what is on the disk. */
  function Newest(d: Image, cache: map<Word, Block>, b: Word): Block
    requires b < |d|
  {
    if b in cache then cache[b] else d[b]
  }

  /** The overlaid base image holds the newest data of every home block. */
  lemma {:induction false} NewestIsOverlaid(r: Region, init: Image, s: State, b: Word)
    requires Data(r, init, s) && b < |s.disk| && !r.Has(b)
    ensures Newest(s.disk, s.cache, b) == Overlay(Home(BaseOf(s), r), s.lh, CachedData(s), |s.lh|)[b]
  {
    var h, ds := Home(BaseOf(s), r), CachedData(s);
    assert s.lh[..|s.lh|] == s.lh;
    if b in s.cache {
      var j :| 0 <= j < |s.lh| && s.lh[j] == b;
      OverlayAt(h, s.lh, ds, |s.lh|, j);
    } else {
      OverlayElsewhere(h, s.lh, ds, |s.lh|);
      if s.phase.Committing? && s.lh != [] {
        CommitKeepsOthers(s.phase.base, r, s.lh, ds, s.phase.step, b);
      }
    }
  }

  /** What is newest is the outcome of every write so far, committed or not, whatever a commit has written. */
  lemma {:induction false} NewestIsAllWrites(r: Region, init: Image, s: State, b: Word)
    requires Inv(r, init, s) && b < |s.disk| && !r.Has(b)
    ensures |init| == |s.disk|
    ensures Newest(s.disk, s.cache, b) == ApplyWrites(ApplyGroups(Home(init, r), s.groups), s.pending)[b]
  {
    NewestIsOverlaid(r, init, s, b);
  }

  /** The same for every state of every run. */
  lemma {:induction false} ReadersSeeNewest(r: Region, init: Image, es: seq<Event>, ss: seq<State>, i: nat, b: Word)
    requires IsRun(r, init, es, ss) && i < |ss|
    requires b < |ss[i].disk| && !r.Has(b)
    ensures |init| == |ss[i].disk|
    ensures Newest(ss[i].disk, ss[i].cache, b) == ApplyWrites(ApplyGroups(Home(init, r), ss[i].groups),
                                                              ss[i].pending)[b]
  {
    RunKeepsInv(r, init, es, ss, i);
    NewestIsAllWrites(r, init, ss[i], b);
  }

  /**
   When begin_op makes its caller wait, in any reachable state: while a commit runs, and else exactly if
   the log could overflow, were each operation in progress and the new one to add MAXOPBLOCKS blocks to
   it.  So nobody ever waits for an idle log.
   */
  lemma {:induction false} BeginWaitsIff(r: Region, init: Image, es: seq<Event>, ss: seq<State>, i: nat, id: nat)
    requires IsRun(r, init, es, ss) && i < |ss| && Allowed(r, ss[i], Begin(id))
    ensures Shape(r, ss[i])
    ensures Step(r, ss[i], Begin(id)) == Blocked <==>
              ss[i].phase.Committing? || |ss[i].lh| + MAXOPBLOCKS * |ss[i].active| + MAXOPBLOCKS > LOGSIZE
    ensures Step(r, ss[i], Begin(id)) != Panic
    ensures ss[i].phase.Idle? && ss[i].active == [] ==> Step(r, ss[i], Begin(id)).Next?
  {
    RunKeepsInv(r, init, es, ss, i);
  }

  /** What an operation that is let in finds: it is in progress, and nothing else has changed. */
  lemma {:induction false} BeginAdmits(r: Region, s: State, id: nat, t: State)
    requires Takes(r, s, Begin(id), t)
    ensures t.outstanding == s.outstanding + 1 && HasOp(t.active, id) && t.lh == s.lh && t.disk == s.disk &&
            t.cache == s.cache
    ensures t.phase == s.phase && t.pending == s.pending && t.groups == s.groups && t.ended == s.ended
    ensures forall o :: o != id ==> (HasOp(t.active, o) <==> HasOp(s.active, o))
  {
    assert t.active[|s.active|].id == id;
    OpsStay(s.active, t.active);
  }

  // ---- the reservation of begin_op ----

  /**
   With more than LOGSIZE blocks in the log region, a log_write within the operation's allowance
   never panics: what is logged plus what is reserved always fits.
   */
  lemma {:induction false} RoomForReserved(r: Region, init: Image, es: seq<Event>, ss: seq<State>, i: nat, id: nat,
                                           b: Word, data: Block)
    requires IsRun(r, init, es, ss) && i < |ss| && r.size > LOGSIZE
    requires Allowed(r, ss[i], LogWrite(id, b, data)) && b !in ss[i].lh
    ensures Shape(r, ss[i]) && |ss[i].lh| + Reserved(ss[i].active) <= LOGSIZE
    ensures Step(r, ss[i], LogWrite(id, b, data)).Next?
  {
    RunKeepsInv(r, init, es, ss, i);
    ReservedBounds(ss[i].active);
  }

  /** Three operations begin and the first `k` of the blocks are logged, ten by each. */
  function FillEvents(bs: seq<Word>, k: nat): seq<Event>
    requires k <= |bs|
  {
    if k == 0 then [Begin(0), Begin(1), Begin(2)]
    else FillEvents(bs, k - 1) + [LogWrite((k - 1) / MAXOPBLOCKS, bs[k - 1], ZeroBlock())]
  }

  function Used(k: nat, op: nat): nat {
    if k <= op * MAXOPBLOCKS then 0 else if k >= (op + 1) * MAXOPBLOCKS then MAXOPBLOCKS else k - op * MAXOPBLOCKS
  }

  lemma {:induction false} NotYet(bs: seq<Word>, k: nat)
    requires Distinct(bs) && k < |bs|
    ensures bs[k] !in bs[..k]
  {
    if i :| 0 <= i < k && bs[i] == bs[k] {
      DistinctAt(bs, i, k);
    }
  }

  /** What the states of that run look like. */
  ghost predicate Filled(init: Image, bs: seq<Word>, k: nat, s: State)
    requires k <= |bs|
  {
    && s.lh == bs[..k] && s.phase.Idle? && s.outstanding == 3 && s.disk == init
    && s.cache.Keys == (set b | b in s.lh)
    && s.active == [Op(0, Used(k, 0)), Op(1, Used(k, 1)), Op(2, Used(k, 2))]
  }

  lemma {:induction false} FillBegins(r: Region, init: Image) returns (ss: seq<State>)
    requires Fresh(r, init)
    ensures IsRun(r, init, [Begin(0), Begin(1), Begin(2)], ss) && Filled(init, [], 0, ss[3])
  {
    var s0 := Start(init);
    var s1 := AfterBegin(s0, 0);
    var s2 := AfterBegin(s1, 1);
    var s3 := AfterBegin(s2, 2);
    ss := [s0, s1, s2, s3];
    assert Takes(r, s0, Begin(0), s1);
    assert Takes(r, s1, Begin(1), s2);
    assert Takes(r, s2, Begin(2), s3);
  }

  /** The next block is logged within the allowance of its operation. */
  lemma {:induction false} FillStep(r: Region, init: Image, bs: seq<Word>, k: nat, s: State)
    requires Fresh(r, init) && |bs| == LOGSIZE && Distinct(bs) && k + 1 < r.size && k < LOGSIZE
    requires forall i :: 0 <= i < |bs| ==> bs[i] < |init| && !r.Has(bs[i])
    requires Filled(init, bs, k, s)
    ensures HasOp(s.active, k / MAXOPBLOCKS)
    ensures var t := AfterLogWrite(s, k / MAXOPBLOCKS, bs[k], ZeroBlock());
            Filled(init, bs, k + 1, t) && Takes(r, s, LogWrite(k / MAXOPBLOCKS, bs[k], ZeroBlock()), t)
  {
    var id := k / MAXOPBLOCKS;
    assert s.active[id].id == id;
    assert IndexOf(s.active, id) == id;
    NotYet(bs, k);
    DistinctSlice(bs, 0, k);
    assert bs[0..k] == bs[..k];
    assert bs[..k + 1] == bs[..k] + [bs[k]];
  }

  lemma {:induction false} FillRun(r: Region, init: Image, bs: seq<Word>, k: nat) returns (ss: seq<State>)
    requires Fresh(r, init) && |bs| == LOGSIZE && Distinct(bs) && k < r.size && k <= LOGSIZE
    requires forall i :: 0 <= i < |bs| ==> bs[i] < |init| && !r.Has(bs[i])
    ensures IsRun(r, init, FillEvents(bs, k), ss) && Filled(init, bs, k, ss[|ss| - 1])
  {
    if k == 0 {
      ss := FillBegins(r, init);
    } else {
      var ts := FillRun(r, init, bs, k - 1);
      var s := ts[|ts| - 1];
      FillStep(r, init, bs, k - 1, s);
      ss := ts + [AfterLogWrite(s, (k - 1) / MAXOPBLOCKS, bs[k - 1], ZeroBlock())];
    }
  }

  /**
   The reservation is not enough for a smaller log region: then there is a run whose operations all
   keep to their allowance and whose next log_write panics.
   */
  lemma {:induction false} SmallLogPanics(r: Region, init: Image, bs: seq<Word>)
    returns (es: seq<Event>, ss: seq<State>, e: Event)
    requires Fresh(r, init) && r.size <= LOGSIZE
    requires |bs| == LOGSIZE && Distinct(bs) && forall i :: 0 <= i < |bs| ==> bs[i] < |init| && !r.Has(bs[i])
    ensures IsRun(r, init, es, ss) && Allowed(r, ss[|ss| - 1], e) && Shape(r, ss[|ss| - 1])
    ensures Step(r, ss[|ss| - 1], e) == Panic
  {
    var k := r.size - 1;
    es := FillEvents(bs, k);
    ss := FillRun(r, init, bs, k);
    var id := k / MAXOPBLOCKS;
    e := LogWrite(id, bs[k], ZeroBlock());
    assert ss[|ss| - 1].active[id].id == id;
    NotYet(bs, k);
    DistinctSlice(bs, 0, k);
    assert bs[0..k] == bs[..k];
    assert IndexOf(ss[|ss| - 1].active, id) == id;
  }

  /**
   log_write checks for room before it looks for the block, so a log that the reservation has
   filled makes even the rewriting of a logged block panic, however large the region.
   */
  lemma {:induction false} FullLogPanicsOnRewrite(r: Region, init: Image, bs: seq<Word>)
    returns (es: seq<Event>, ss: seq<State>, e: Event)
    requires Fresh(r, init) && r.size > LOGSIZE
    requires |bs| == LOGSIZE && Distinct(bs) && forall i :: 0 <= i < |bs| ==> bs[i] < |init| && !r.Has(bs[i])
    ensures IsRun(r, init, es, ss) && Allowed(r, ss[|ss| - 1], e) && Shape(r, ss[|ss| - 1])
    ensures e.LogWrite? && e.block in ss[|ss| - 1].lh && Step(r, ss[|ss| - 1], e) == Panic
  {
    es := FillEvents(bs, LOGSIZE);
    ss := FillRun(r, init, bs, LOGSIZE);
    e := LogWrite(0, bs[0], ZeroBlock());
    assert ss[|ss| - 1].active[0].id == 0;
    assert bs[..LOGSIZE] == bs;
  }

  /** Exactly when an allowed log_write panics, in any reachable state. */
  lemma {:induction false} LogWritePanicsIff(r: Region, init: Image, es: seq<Event>, ss: seq<State>, i: nat, id: nat,
                                             b: Word, data: Block)
    requires IsRun(r, init, es, ss) && i < |ss| && Allowed(r, ss[i], LogWrite(id, b, data))
    ensures Shape(r, ss[i])
    ensures Step(r, ss[i], LogWrite(id, b, data)).Panic? <==> |ss[i].lh| >= LOGSIZE || |ss[i].lh| >= r.size - 1
    ensures r.size > LOGSIZE && |ss[i].lh| >= LOGSIZE ==> b in ss[i].lh
  {
    RunKeepsInv(r, init, es, ss, i);
    ReservedBounds(ss[i].active);
  }
}
