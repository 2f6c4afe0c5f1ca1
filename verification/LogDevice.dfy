/**
 The code of log.c over the buffer cache, with other processes reading through the same cache.

 Each method is one region of log.c between the points where others can run, takes the matching
 step of the group commit protocol, and keeps the cache and the disk together at the newest
 contents of every block.
 */
module LogDevice {
  import opened Blocks
  import opened RedoLog
  import opened BufferCache
  import opened PinnedBuffers
  import Protocol = GroupCommit

  function SetOf(bs: seq<Word>): set<Word> {
    set b | b in bs
  }

  /** The logged blocks that are not yet in their home places. */
  function Waiting(s: Protocol.State): seq<Word> {
    var n := |s.lh|;
    if s.phase.Idle? || s.phase.step <= n + 1 then s.lh
    else if s.phase.step <= 2 * n + 1 then s.lh[s.phase.step - n - 1..]
    else []
  }

  /** Only operations in progress change buffers, and none of the log region. */
  ghost predicate Writers(bufs: seq<Buf>, r: Region, writing: map<nat, nat>, active: seq<Protocol.Op>) {
    forall i :: i in writing ==> i < |bufs| && !r.Has(bufs[i].blockno) && Protocol.HasOp(active, writing[i])
  }

  ghost predicate SameRefs(bufs: seq<Buf>, bufs': seq<Buf>) {
    |bufs| == |bufs'| && forall i :: 0 <= i < |bufs| ==> bufs[i].refcnt == bufs'[i].refcnt
  }

  /** The disk has gone through the first `n` images of a commit that began on `d`. */
  ghost predicate Traced(h0: seq<Image>, history: seq<Image>, d: Image, r: Region, lh: seq<Word>, ds: seq<Block>,
                         n: nat)
    requires Loggable(r, |d|, lh) && |ds| == |lh|
  {
    && |history| == |h0| + n && h0 <= history
    && forall i :: |h0| <= i < |history| ==> history[i] == CommitImage(d, r, lh, ds, i - |h0| + 1)
  }

  class Log {
    const cache: Cache
    const region: Region
    var lh: seq<Word>
    var outstanding: int
    var committing: bool
    ghost var init: Image
    ghost var st: Protocol.State
    ghost var writing: map<nat, nat>

    /** Everything but the log's own copy of the block numbers. */
    ghost predicate Following()
      reads this, cache, cache.Repr()
    {
      && cache.Valid() && |cache.disk.blocks| <= UINT
      && Protocol.Inv(region, init, st) && st.disk == cache.disk.blocks
      && st.outstanding == outstanding && st.phase.Committing? == committing
      && Sync(cache.bufs[..], st.disk, st.cache, SetOf(Waiting(st)), writing)
      && Writers(cache.bufs[..], region, writing, st.active)
    }

    /** The log follows the protocol's state `st`, and the cache agrees with it. */
    ghost predicate Ready()
      reads this, cache, cache.Repr()
    {
      Following() && lh == st.lh
    }

    constructor (cache: Cache, region: Region)
      ensures this.cache == cache && this.region == region && lh == [] && outstanding == 0 && !committing
    {
      this.cache := cache;
      this.region := region;
      lh := [];
      outstanding := 0;
      committing := false;
    }

    // ---- bread and brelse ----

    /** bread, for any state of the log. */
    method Get(b: Word, ghost newest: map<Word, Block>, ghost pinned: set<Word>, ghost w: map<nat, nat>)
      returns (ok: bool, i: nat)
      requires cache.Valid() && b < |cache.disk.blocks|
      requires Sync(cache.bufs[..], cache.disk.blocks, newest, pinned, w)
      modifies cache.bufs, cache.disk
      ensures cache.Valid() && Sync(cache.bufs[..], cache.disk.blocks, newest, pinned, w)
      ensures cache.disk.blocks == old(cache.disk.blocks) && cache.disk.history == old(cache.disk.history)
      ensures ok <==> Room(old(cache.bufs[..]), b)
      ensures !ok ==> cache.bufs[..] == old(cache.bufs[..])
      ensures ok ==> i < NBUF && cache.bufs[i].Holds(ROOTDEV, b) && cache.bufs[i].valid
      ensures ok ==> cache.bufs[i].refcnt == old(cache.bufs[i]).refcnt + 1
      ensures ok ==> cache.bufs[..] == old(cache.bufs[..])[i := cache.bufs[i]]
      ensures ok && i in w ==> old(cache.bufs[i]).Holds(ROOTDEV, b)
      ensures ok && IsCached(old(cache.bufs[..]), ROOTDEV, b) ==> old(cache.bufs[i]).Holds(ROOTDEV, b)
      ensures ok && !IsCached(old(cache.bufs[..]), ROOTDEV, b) ==> old(cache.bufs[i]).Free()
      ensures ok && i !in w ==> cache.bufs[i].data == Protocol.Newest(cache.disk.blocks, newest, b)
    {
      hide Linked, Permutes, ByRelease, Unique;
      ghost var before, d := cache.bufs[..], cache.disk.blocks;
      DirtyAreValid(before, d, newest, pinned, w);
      ok, i := cache.Bread(b);
      if ok {
        if IsCached(before, ROOTDEV, b) {
          GotCached(before, d, newest, pinned, w, i);
        } else {
          GotFree(before, d, newest, pinned, w, i, b);
        }
        assert HoldsNewest(cache.bufs[..], d, newest, w, i);
      }
    }

    /** brelse, for any state of the log. */
    method Put(i: nat, ghost newest: map<Word, Block>, ghost pinned: set<Word>, ghost w: map<nat, nat>)
      requires cache.Valid() && i < NBUF && cache.bufs[i].refcnt > 0 && i !in w
      requires Sync(cache.bufs[..], cache.disk.blocks, newest, pinned, w)
      modifies cache, cache.bufs, cache.next, cache.prev
      ensures cache.Valid() && Sync(cache.bufs[..], cache.disk.blocks, newest, pinned, w)
      ensures cache.bufs[..] == old(cache.bufs[..])[i := old(cache.bufs[i]).(refcnt := old(cache.bufs[i]).refcnt - 1)]
    {
      hide Linked, Permutes, ByRelease, Unique;
      ghost var before := cache.bufs[..];
      assert HoldsNewest(before, cache.disk.blocks, newest, w, i);
      cache.Brelse(i);
      Touched(before, cache.disk.blocks, newest, pinned, w, i, before[i].(refcnt := before[i].refcnt - 1));
    }
    // ---- the copies of write_log, write_head and install_trans ----

    /** memmove into the held buffer `t` of a block of the log, and bwrite. */
    method StoreLog(t: nat, data: Block, ghost newest: map<Word, Block>, ghost pinned: set<Word>)
      requires cache.Valid() && Sync(cache.bufs[..], cache.disk.blocks, newest, pinned, map[])
      requires HeldWriter(cache.bufs[..], cache.disk.blocks, t) && cache.bufs[t].blockno !in newest
      modifies cache.bufs, cache.disk
      ensures cache.Valid() && Sync(cache.bufs[..], cache.disk.blocks, newest, pinned, map[])
      ensures cache.bufs[..] == old(cache.bufs[..])[t := old(cache.bufs[t]).(data := data)]
      ensures cache.disk.blocks == old(cache.disk.blocks)[old(cache.bufs[t]).blockno := data]
      ensures cache.disk.history == old(cache.disk.history) + [cache.disk.blocks]
    {
      hide Linked, Permutes, ByRelease, Unique;
      ghost var before := cache.bufs[..];
      WroteLog(before, cache.disk.blocks, newest, pinned, map[], t, data);
      assert DirtyOk(before, pinned, t);
      cache.Modify(t, data, cache.bufs[t].dirty);
      cache.Bwrite(t);
      assert cache.bufs[..] == before[t := before[t].(data := data)];
    }

    /** memmove into the held buffer `t` of a home block, and bwrite: the buffer is not pinned any more. */
    method StoreHome(t: nat, data: Block, ghost newest: map<Word, Block>, ghost pinned: set<Word>)
      requires cache.Valid() && Sync(cache.bufs[..], cache.disk.blocks, newest, pinned, map[])
      requires HeldWriter(cache.bufs[..], cache.disk.blocks, t)
      requires cache.bufs[t].blockno in newest ==> newest[cache.bufs[t].blockno] == data
      modifies cache.bufs, cache.disk
      ensures cache.Valid()
      ensures Sync(cache.bufs[..], cache.disk.blocks, newest, pinned - {old(cache.bufs[t]).blockno}, map[])
      ensures cache.bufs[..] == old(cache.bufs[..])[t := old(cache.bufs[t]).(dirty := false, data := data)]
      ensures cache.disk.blocks == old(cache.disk.blocks)[old(cache.bufs[t]).blockno := data]
      ensures cache.disk.history == old(cache.disk.history) + [cache.disk.blocks]
    {
      hide Linked, Permutes, ByRelease, Unique;
      ghost var before := cache.bufs[..];
      WroteHome(before, cache.disk.blocks, newest, pinned, map[], t, data);
      cache.Modify(t, data, cache.bufs[t].dirty);
      cache.Bwrite(t);
      assert cache.bufs[..] == before[t := before[t].(dirty := false, data := data)];
    }

    /** One turn of write_log; `ok` is false where bget panics with "no buffers". */
    method LogTurn(tail: nat, ghost newest: map<Word, Block>, ghost pinned: set<Word>) returns (ok: bool)
      requires cache.Valid() && Sync(cache.bufs[..], cache.disk.blocks, newest, pinned, map[])
      requires |cache.disk.blocks| <= UINT && Loggable(region, |cache.disk.blocks|, lh) && tail < |lh|
      requires lh[tail] in pinned && newest.Keys <= SetOf(lh)
      modifies cache, cache.Repr()
      ensures cache.Valid() && Sync(cache.bufs[..], cache.disk.blocks, newest, pinned, map[])
      ensures ok <==> Room(old(cache.bufs[..]), region.start + tail + 1)
      ensures SameRefs(old(cache.bufs[..]), cache.bufs[..])
      ensures ok ==> cache.disk.blocks == old(cache.disk.blocks)[region.start + tail + 1 := newest[lh[tail]]]
      ensures ok ==> cache.disk.history == old(cache.disk.history) + [cache.disk.blocks]
      ensures !ok ==> cache.disk.blocks == old(cache.disk.blocks) && cache.disk.history == old(cache.disk.history)
      ensures !ok ==> cache.bufs[..] == old(cache.bufs[..])
    {
      hide Linked, Permutes, ByRelease, Unique, Sync, IsCached, HasFree, Loggable, SameRefs;
      DirtyAreValid(cache.bufs[..], cache.disk.blocks, newest, pinned, map[]);
      SlotKnown(region, |cache.disk.blocks|, lh, tail);
      var slot := region.start + tail + 1;
      ghost var bufs0 := cache.bufs[..];
      var to, from;
      ok, to := Get(slot, newest, pinned, map[]);
      if !ok {
        RefsSame(bufs0);
        return;
      }
      ghost var bufs1 := cache.bufs[..];
      RoomForHome(bufs0, bufs1, cache.disk.blocks, newest, pinned, to, lh[tail]);
      ok, from := Get(lh[tail], newest, pinned, map[]);
      ghost var bufs2 := cache.bufs[..];
      CopyOut(to, from, newest, pinned);
      RefsBack(bufs0, bufs1, bufs2, cache.bufs[..], to, from);
    }

    /** The end of the turn: the pinned data goes to the slot, and both buffers are released. */
    method CopyOut(to: nat, from: nat, ghost newest: map<Word, Block>, ghost pinned: set<Word>)
      requires cache.Valid() && Sync(cache.bufs[..], cache.disk.blocks, newest, pinned, map[]) && to != from
      requires HeldWriter(cache.bufs[..], cache.disk.blocks, to) && cache.bufs[to].blockno !in newest
      requires from < NBUF && cache.bufs[from].refcnt > 0
      modifies cache, cache.Repr()
      ensures cache.Valid() && Sync(cache.bufs[..], cache.disk.blocks, newest, pinned, map[])
      ensures var b, c := old(cache.bufs[to]), old(cache.bufs[from]);
              && cache.bufs[..] == old(cache.bufs[..])[to := b.(refcnt := b.refcnt - 1, data := c.data)]
                                                      [from := c.(refcnt := c.refcnt - 1)]
              && cache.disk.blocks == old(cache.disk.blocks)[b.blockno := c.data]
      ensures cache.disk.history == old(cache.disk.history) + [cache.disk.blocks]
    {
      hide Linked, Permutes, ByRelease, Unique, Sync;
      StoreLog(to, cache.bufs[from].data, newest, pinned);
      Put(from, newest, pinned, map[]);
      Put(to, newest, pinned, map[]);
    }

    /** The loop of write_head: the count and then each block number. */
    method FillHeader(b: Block) returns (hb: Block)
      requires |lh| <= LOGSIZE
      ensures hb == HeaderBlock(b, lh)
    {
      hb := b[0 := |lh|];
      var i := 0;
      while i < |lh|
        invariant 0 <= i <= |lh|
        invariant hb == [|lh|] + lh[..i] + b[1 + i..]
      {
        hb := hb[1 + i := lh[i]];
        i := i + 1;
      }
    }

    /** write_head. */
    method WriteHead(ghost newest: map<Word, Block>, ghost pinned: set<Word>) returns (ok: bool)
      requires cache.Valid() && Sync(cache.bufs[..], cache.disk.blocks, newest, pinned, map[])
      requires |cache.disk.blocks| <= UINT && region.start < |cache.disk.blocks| && |lh| <= LOGSIZE
      requires region.start !in newest
      modifies cache, cache.Repr()
      ensures cache.Valid() && Sync(cache.bufs[..], cache.disk.blocks, newest, pinned, map[])
      ensures ok <==> Room(old(cache.bufs[..]), region.start)
      ensures SameRefs(old(cache.bufs[..]), cache.bufs[..])
      ensures ok ==> cache.disk.blocks == Headed(old(cache.disk.blocks), region, lh)
      ensures ok ==> cache.disk.history == old(cache.disk.history) + [cache.disk.blocks]
      ensures !ok ==> cache.disk.blocks == old(cache.disk.blocks) && cache.disk.history == old(cache.disk.history)
      ensures !ok ==> cache.bufs[..] == old(cache.bufs[..])
    {
      hide Linked, Permutes, ByRelease, Unique, Sync;
      var buf;
      ok, buf := Get(region.start, newest, pinned, map[]);
      if !ok {
        return;
      }
      var hb := FillHeader(cache.bufs[buf].data);
      StoreLog(buf, hb, newest, pinned);
      Put(buf, newest, pinned, map[]);
    }

    /** One turn of install_trans, for blocks that are pinned or, in recovery, on an idle cache. */
    method InstallTurn(tail: nat, ghost newest: map<Word, Block>, ghost pinned: set<Word>) returns (ok: bool)
      requires cache.Valid() && Sync(cache.bufs[..], cache.disk.blocks, newest, pinned, map[])
      requires |cache.disk.blocks| <= UINT && Loggable(region, |cache.disk.blocks|, lh) && tail < |lh|
      requires newest.Keys <= SetOf(lh)
      requires lh[tail] in newest ==> newest[lh[tail]] == cache.disk.blocks[region.start + tail + 1]
      requires lh[tail] in pinned || (pinned == {} && Held(cache.bufs[..]) == {})
      modifies cache, cache.Repr()
      ensures cache.Valid()
      ensures ok <==> Room(old(cache.bufs[..]), region.start + tail + 1)
      ensures SameRefs(old(cache.bufs[..]), cache.bufs[..])
      ensures ok ==> Sync(cache.bufs[..], cache.disk.blocks, newest, pinned - {lh[tail]}, map[])
      ensures ok ==>
                cache.disk.blocks
                == old(cache.disk.blocks)[lh[tail] := old(cache.disk.blocks)[region.start + tail + 1]]
      ensures ok ==> cache.disk.history == old(cache.disk.history) + [cache.disk.blocks]
      ensures !ok ==> cache.disk.blocks == old(cache.disk.blocks) && cache.disk.history == old(cache.disk.history)
      ensures !ok ==> cache.bufs[..] == old(cache.bufs[..])
    {
      hide Linked, Permutes, ByRelease, Unique, Sync, IsCached, HasFree, Loggable;
      SlotKnown(region, |cache.disk.blocks|, lh, tail);
      var slot := region.start + tail + 1;
      var lbuf, dbuf;
      ok, lbuf := Get(slot, newest, pinned, map[]);
      if !ok {
        return;
      }
      RoomForHome(old(cache.bufs[..]), cache.bufs[..], cache.disk.blocks, newest, pinned, lbuf, lh[tail]);
      ok, dbuf := Get(lh[tail], newest, pinned, map[]);
      StoreHome(dbuf, cache.bufs[lbuf].data, newest, pinned);
      Put(lbuf, newest, pinned - {lh[tail]}, map[]);
      Put(dbuf, newest, pinned - {lh[tail]}, map[]);
    }
    // ---- what the rest of the kernel calls ----

    /**
     bread: what it returns is the outcome of every write logged so far, also in the middle of a
     commit.  A buffer that an operation is changing is locked by it until brelse.
     */
    method Bread(b: Word) returns (ok: bool, i: nat)
      requires Ready() && b < |cache.disk.blocks|
      modifies cache.bufs, cache.disk
      ensures Ready() && |init| == |cache.disk.blocks|
      ensures cache.disk.blocks == old(cache.disk.blocks) && cache.disk.history == old(cache.disk.history)
      ensures ok <==> Room(old(cache.bufs[..]), b)
      ensures !ok ==> cache.bufs[..] == old(cache.bufs[..])
      ensures ok ==> i < NBUF && cache.bufs[i].Holds(ROOTDEV, b) && cache.bufs[i].valid
      ensures ok ==> cache.bufs[i].refcnt == old(cache.bufs[i]).refcnt + 1
      ensures ok ==> cache.bufs[..] == old(cache.bufs[..])[i := cache.bufs[i]]
      ensures ok && i !in writing ==> cache.bufs[i].data == Protocol.Newest(st.disk, st.cache, b)
      ensures ok && i !in writing && !region.Has(b) ==>
                cache.bufs[i].data ==
                  Protocol.ApplyWrites(Protocol.ApplyGroups(Home(init, region), st.groups), st.pending)[b]
    {
      hide Linked, Permutes, ByRelease, Unique, Sync, IsCached, HasFree, Protocol.Inv;
      ghost var before := cache.bufs[..];
      ok, i := Get(b, st.cache, SetOf(Waiting(st)), writing);
      if ok { WritersKept(before, region, writing, st.active, i, cache.bufs[i]); }
      Protocol.InvFacts(region, init, st);
      if !region.Has(b) { Protocol.NewestIsAllWrites(region, init, st, b); }
    }

    /** brelse of a buffer whose changes, if any, have been logged. */
    method Brelse(i: nat)
      requires Ready() && i < NBUF && cache.bufs[i].refcnt > 0 && i !in writing
      modifies cache, cache.bufs, cache.next, cache.prev
      ensures Ready()
      ensures cache.bufs[..] == old(cache.bufs[..])[i := old(cache.bufs[i]).(refcnt := old(cache.bufs[i]).refcnt - 1)]
    {
      hide Linked, Permutes, ByRelease, Unique, Sync, Protocol.Inv;
      ghost var before := cache.bufs[..];
      Put(i, st.cache, SetOf(Waiting(st)), writing);
      WritersKept(before, region, writing, st.active, i, cache.bufs[i]);
    }

    /** Operation `id` stores into a buffer that it holds; log_write is still to come. */
    method Change(i: nat, data: Block, ghost id: nat)
      requires Ready() && HeldWriter(cache.bufs[..], cache.disk.blocks, i) && !region.Has(cache.bufs[i].blockno)
      requires Protocol.HasOp(st.active, id)
      modifies this`writing, cache.bufs
      ensures Ready() && writing == old(writing)[i := id]
      ensures cache.bufs[..] == old(cache.bufs[..])[i := old(cache.bufs[i]).(data := data)]
    {
      hide Linked, Permutes, ByRelease, Unique, Sync, Protocol.Inv;
      ghost var before := cache.bufs[..];
      Changed(before, st.disk, st.cache, SetOf(Waiting(st)), writing, i, data, id);
      cache.Modify(i, data, cache.bufs[i].dirty);
      writing := writing[i := id];
      assert cache.bufs[..] == before[i := before[i].(data := data)];
    }

    /** One pass of begin_op's loop; false where the process goes to sleep. */
    method BeginOp(ghost id: nat) returns (admitted: bool)
      requires Ready() && Protocol.Allowed(region, st, Protocol.Begin(id))
      modifies this`outstanding, this`st
      ensures Ready() && Protocol.Shape(region, old(st)) && lh == old(lh) && committing == old(committing)
      ensures admitted <==> !committing && |lh| + (old(outstanding) + 1) * Protocol.MAXOPBLOCKS <= LOGSIZE
      ensures outstanding == old(outstanding) + if admitted then 1 else 0
      ensures admitted ==> Protocol.Takes(region, old(st), Protocol.Begin(id), st)
      ensures !admitted ==> st == old(st) && Protocol.Step(region, st, Protocol.Begin(id)) == Protocol.Blocked
    {
      hide Linked, Permutes, ByRelease, Unique, Sync, Protocol.Inv;
      Protocol.InvFacts(region, init, st);
      if committing {
        return false;
      } else if |lh| + (outstanding + 1) * Protocol.MAXOPBLOCKS > LOGSIZE {
        return false;
      } else {
        Protocol.StepKeepsInv(region, init, st, Protocol.Begin(id));
        outstanding := outstanding + 1;
        st := Protocol.AfterBegin(st, id);
        Protocol.OpsStay(old(st).active, st.active);
        return true;
      }
    }

    /** The search of log_write, which records the block number if it is not there. */
    method Record(b: Word)
      modifies this`lh
      ensures lh == Protocol.Absorb(old(lh), b)
    {
      var k := 0;
      while k < |lh| && lh[k] != b
        invariant 0 <= k <= |lh| && b !in lh[..k]
      {
        k := k + 1;
      }
      if k == |lh| {
        lh := lh + [b];
      } else {
        lh := lh[k := b];
        assert lh == old(lh);
      }
    }

    /** log_write of the buffer that operation `id` has changed. */
    method LogWrite(i: nat, ghost id: nat) returns (ok: bool)
      requires Ready() && i < NBUF && i in writing && writing[i] == id
      requires Protocol.Allowed(region, st, Protocol.Event.LogWrite(id, cache.bufs[i].blockno, cache.bufs[i].data))
      modifies this`lh, this`st, this`writing, cache.bufs
      ensures Ready() && Protocol.Shape(region, old(st))
      ensures var e := Protocol.Event.LogWrite(id, old(cache.bufs[i]).blockno, old(cache.bufs[i]).data);
              if ok then Protocol.Takes(region, old(st), e, st)
              else st == old(st) && Protocol.Step(region, st, e) == Protocol.Panic
      ensures ok <==> |old(lh)| < LOGSIZE && |old(lh)| < region.size - 1
      ensures ok ==> lh == if old(cache.bufs[i]).blockno in old(lh) then old(lh)
                           else old(lh) + [old(cache.bufs[i]).blockno]
      ensures ok ==> writing == old(writing) - {i}
      ensures ok ==> cache.bufs[..] == old(cache.bufs[..])[i := old(cache.bufs[i]).(dirty := true)]
      ensures !ok ==> writing == old(writing) && cache.bufs[..] == old(cache.bufs[..])
    {
      hide Linked, Permutes, ByRelease, Unique, Sync, Protocol.Inv;
      Protocol.InvFacts(region, init, st);
      Protocol.OpCounts(st.active, id);
      if |lh| >= LOGSIZE || |lh| >= region.size - 1 {
        return false;
      }
      if outstanding < 1 {
        return false;
      }
      var b := cache.bufs[i].blockno;
      Record(b);
      ghost var before, e := cache.bufs[..], Protocol.Event.LogWrite(id, b, cache.bufs[i].data);
      LoggedOne(before, st.disk, st.cache, SetOf(Waiting(st)), writing, i);
      Protocol.StepKeepsInv(region, init, st, e);
      WritersLogged(before, region, writing, st.active, Protocol.AfterLogWrite(st, id, b, cache.bufs[i].data).active,
                    i);
      cache.Modify(i, cache.bufs[i].data, true);
      st := Protocol.AfterLogWrite(st, id, b, cache.bufs[i].data);
      writing := writing - {i};
      assert cache.bufs[..] == before[i := before[i].(dirty := true)];
      assert SetOf(Waiting(st)) == SetOf(Waiting(old(st))) + {b};
      ok := true;
    }
    // ---- commit ----

    /**
     Whatever other processes do between two steps of a commit: any number of breads and brelses, in
     any order, by which never more than `crowd` buffers are in use.
     */
    method Others(crowd: nat)
      requires Ready() && writing == map[] && |Held(cache.bufs[..])| <= crowd
      modifies cache, cache.Repr()
      ensures Ready() && |Held(cache.bufs[..])| <= crowd
      ensures cache.disk.blocks == old(cache.disk.blocks) && cache.disk.history == old(cache.disk.history)
    {
      hide Linked, Permutes, ByRelease, Unique, Sync, Protocol.Inv, Held, Room;
      var moves: nat := *;
      while moves > 0
        invariant Ready() && |Held(cache.bufs[..])| <= crowd
        invariant cache.disk.blocks == old(cache.disk.blocks) && cache.disk.history == old(cache.disk.history)
      {
        ghost var before := cache.bufs[..];
        var b: Word, i: nat := *, *;
        if |Held(cache.bufs[..])| < crowd && b < |cache.disk.blocks| {
          var _, j := Bread(b);
          HeldMore(before, cache.bufs[..], j);
        } else if i < cache.bufs.Length && cache.bufs[i].refcnt > 0 {
          Brelse(i);
          HeldLess(before, cache.bufs[..], i);
        }
        moves := moves - 1;
      }
    }

    /** One turn of write_log; `ok` is false where bget panics with "no buffers". */
    method CopyToSlot(tail: nat) returns (ok: bool)
      requires Ready() && st.phase.Committing? && st.phase.step == tail < |lh|
      modifies this`st, cache, cache.Repr()
      ensures Ready() && SameRefs(old(cache.bufs[..]), cache.bufs[..])
      ensures ok <==> Room(old(cache.bufs[..]), region.start + tail + 1)
      ensures ok ==> Protocol.Takes(region, old(st), Protocol.CommitBlock, st)
      ensures ok ==> cache.disk.history == old(cache.disk.history) + [cache.disk.blocks]
      ensures !ok ==>
                st == old(st) && cache.disk.history == old(cache.disk.history) &&
                cache.bufs[..] == old(cache.bufs[..])
    {
      hide Linked, Permutes, ByRelease, Unique, Sync, Protocol.Inv, SameRefs, Room;
      Protocol.InvFacts(region, init, st);
      NobodyWrites(cache.bufs[..], region, writing);
      ok := LogTurn(tail, st.cache, SetOf(Waiting(st)));
      if ok {
        Protocol.StepKeepsInv(region, init, st, Protocol.CommitBlock);
        st := Protocol.AfterCommitBlock(region, st);
      }
    }

    /** The write_head that commits. */
    method CommitHead() returns (ok: bool)
      requires Ready() && st.phase.Committing? && st.phase.step == |lh| > 0
      modifies this`st, cache, cache.Repr()
      ensures Ready() && SameRefs(old(cache.bufs[..]), cache.bufs[..])
      ensures ok <==> Room(old(cache.bufs[..]), region.start)
      ensures ok ==> Protocol.Takes(region, old(st), Protocol.CommitBlock, st)
      ensures ok ==> cache.disk.history == old(cache.disk.history) + [cache.disk.blocks]
      ensures !ok ==>
                st == old(st) && cache.disk.history == old(cache.disk.history) &&
                cache.bufs[..] == old(cache.bufs[..])
    {
      hide Linked, Permutes, ByRelease, Unique, Sync, Protocol.Inv, SameRefs, Room;
      Protocol.InvFacts(region, init, st);
      NobodyWrites(cache.bufs[..], region, writing);
      ok := WriteHead(st.cache, SetOf(Waiting(st)));
      if ok {
        Protocol.StepKeepsInv(region, init, st, Protocol.CommitBlock);
        st := Protocol.AfterCommitBlock(region, st);
      }
    }

    /** One turn of install_trans: slot `tail` goes to its home block, whose buffer is not pinned any more. */
    method InstallOne(tail: nat) returns (ok: bool)
      requires Ready() && st.phase.Committing? && st.phase.step == |lh| + 1 + tail && tail < |lh|
      modifies this`st, cache, cache.Repr()
      ensures Ready() && SameRefs(old(cache.bufs[..]), cache.bufs[..])
      ensures ok <==> Room(old(cache.bufs[..]), region.start + tail + 1)
      ensures ok ==> Protocol.Takes(region, old(st), Protocol.CommitBlock, st)
      ensures ok ==> cache.disk.history == old(cache.disk.history) + [cache.disk.blocks]
      ensures !ok ==>
                st == old(st) && cache.disk.history == old(cache.disk.history) &&
                cache.bufs[..] == old(cache.bufs[..])
    {
      hide Linked, Permutes, ByRelease, Unique, Sync, Protocol.Inv, SameRefs, Room;
      hide Waiting, SetOf, Protocol.AfterCommitBlock, Protocol.Takes, Protocol.Shape, Loggable, CommitImage,
           Protocol.CachedData;
      InstallStep(region, init, st, tail);
      NobodyWrites(cache.bufs[..], region, writing);
      ok := InstallTurn(tail, st.cache, SetOf(Waiting(st)));
      if ok {
        st := Protocol.AfterCommitBlock(region, st);
      }
    }

    /** The write_head that empties the log, once log.lh.n is 0. */
    method Erase() returns (ok: bool)
      requires Ready() && st.phase.Committing? && st.phase.step == 2 * |lh| + 1 && lh != []
      modifies this`lh, this`st, cache, cache.Repr()
      ensures Following() && lh == [] && SameRefs(old(cache.bufs[..]), cache.bufs[..])
      ensures ok <==> Room(old(cache.bufs[..]), region.start)
      ensures ok ==> Protocol.Takes(region, old(st), Protocol.CommitBlock, st)
      ensures ok ==> cache.disk.history == old(cache.disk.history) + [cache.disk.blocks]
      ensures !ok ==>
                st == old(st) && cache.disk.history == old(cache.disk.history) &&
                cache.bufs[..] == old(cache.bufs[..])
    {
      hide Linked, Permutes, ByRelease, Unique, Sync, Protocol.Inv, SameRefs, Room;
      Protocol.InvFacts(region, init, st);
      NobodyWrites(cache.bufs[..], region, writing);
      lh := [];
      ok := WriteHead(st.cache, SetOf(Waiting(st)));
      if ok {
        Protocol.StepKeepsInv(region, init, st, Protocol.CommitBlock);
        st := Protocol.AfterCommitBlock(region, st);
      }
    }
    /** `k` block writes into the commit that began in state `s0`, with at most `crowd` buffers in use. */
    ghost predicate InCommit(s0: Protocol.State, h0: seq<Image>, crowd: nat, k: nat)
      reads this, cache, cache.Repr()
    {
      && Ready() && writing == map[] && |Held(cache.bufs[..])| <= crowd
      && Protocol.Shape(region, s0) && s0.phase.Committing? && st == CommitState(region, s0, k)
      && Traced(h0, cache.disk.history, s0.phase.base, region, s0.lh, Protocol.CachedData(s0), k)
    }

    /** write_log. */
    method WriteLog(crowd: nat, ghost s0: Protocol.State, ghost h0: seq<Image>) returns (ok: bool)
      requires InCommit(s0, h0, crowd, 0)
      modifies this`st, cache, cache.Repr()
      ensures st.phase.Committing? && InCommit(s0, h0, crowd, st.phase.step)
      ensures if ok then st.phase.step == |lh| else !HasFree(cache.bufs[..]) && |lh| + crowd >= NBUF
      ensures ok ==> |lh| < NBUF
    {
      hide Linked, Permutes, ByRelease, Unique, Sync, Protocol.Inv, SameRefs, HasFree, IsCached, CommitImage, Held,
           Protocol.Takes, Traced;
      var tail := 0;
      while tail < |lh|
        invariant 0 <= tail <= |lh| && InCommit(s0, h0, crowd, tail) && (tail > 0 ==> |lh| < NBUF)
      {
        Others(crowd);
        ghost var s1, h1, bufs := st, cache.disk.history, cache.bufs[..];
        FullLog(region, st, bufs, writing, region.start + tail + 1);
        RoomLeft(region, st, bufs, writing, crowd, region.start + tail + 1);
        ok := CopyToSlot(tail);
        SameHeld(bufs, cache.bufs[..]);
        if !ok {
          return;
        }
        Advance(region, s0, h0, h1, cache.disk.history, s1, st);
        tail := tail + 1;
      }
      ok := true;
    }

    /** install_trans. */
    method InstallTrans(crowd: nat, ghost s0: Protocol.State, ghost h0: seq<Image>) returns (ok: bool)
      requires InCommit(s0, h0, crowd, |lh| + 1) && lh != []
      modifies this`st, cache, cache.Repr()
      ensures st.phase.Committing? && InCommit(s0, h0, crowd, st.phase.step)
      ensures if ok then st.phase.step == 2 * |lh| + 1 else !HasFree(cache.bufs[..]) && |lh| + crowd >= NBUF
    {
      hide Linked, Permutes, ByRelease, Unique, Sync, Protocol.Inv, SameRefs, HasFree, IsCached, CommitImage, Held,
           Protocol.Takes, Traced;
      var tail := 0;
      while tail < |lh|
        invariant 0 <= tail <= |lh| && InCommit(s0, h0, crowd, |lh| + 1 + tail)
      {
        Others(crowd);
        ghost var s1, h1, bufs := st, cache.disk.history, cache.bufs[..];
        RoomLeft(region, st, bufs, writing, crowd, region.start + tail + 1);
        ok := InstallOne(tail);
        SameHeld(bufs, cache.bufs[..]);
        if !ok {
          return;
        }
        Advance(region, s0, h0, h1, cache.disk.history, s1, st);
        tail := tail + 1;
      }
      ok := true;
    }

    /** The write_head in between, which commits. */
    method SwitchHead(crowd: nat, ghost s0: Protocol.State, ghost h0: seq<Image>) returns (ok: bool)
      requires InCommit(s0, h0, crowd, |lh|) && lh != []
      modifies this`st, cache, cache.Repr()
      ensures st.phase.Committing? && InCommit(s0, h0, crowd, st.phase.step)
      ensures if ok then st.phase.step == |lh| + 1 else !HasFree(cache.bufs[..]) && |lh| + crowd >= NBUF
    {
      hide Linked, Permutes, ByRelease, Unique, Sync, Protocol.Inv, SameRefs, HasFree, IsCached, CommitImage, Held,
           Protocol.Takes, Traced;
      Others(crowd);
      ghost var s1, h1, bufs := st, cache.disk.history, cache.bufs[..];
      RoomLeft(region, st, bufs, writing, crowd, region.start);
      ok := CommitHead();
      SameHeld(bufs, cache.bufs[..]);
      if ok {
        Advance(region, s0, h0, h1, cache.disk.history, s1, st);
      }
    }

    /**
     commit(), with other processes reading between any two of its steps.  The disk goes through the
     images of the redo log and no others; if bget finds no buffer, which is the only way to fail, it
     has gone through the first of them.
     */
    method Commit(crowd: nat) returns (ok: bool)
      requires Ready() && st.phase.Committing? && st.phase.step == 0 && |Held(cache.bufs[..])| <= crowd
      modifies this`lh, this`st, cache, cache.Repr()
      ensures Following() && st.phase.Committing? && Protocol.Shape(region, old(st))
      ensures st == CommitState(region, old(st), st.phase.step)
      ensures Traced(old(cache.disk.history), cache.disk.history, old(st.phase.base), region, old(lh),
                     old(Protocol.CachedData(st)), st.phase.step)
      ensures ok ==> st.phase.step == Protocol.CommitWrites(|old(lh)|) && lh == []
      ensures !ok ==> !HasFree(cache.bufs[..])
      ensures |old(lh)| + crowd < NBUF ==> ok
      ensures ok ==> |old(lh)| < NBUF
    {
      hide Linked, Permutes, ByRelease, Unique, Sync, Protocol.Inv, SameRefs, HasFree, IsCached, CommitImage, Held,
           Protocol.Takes, Traced;
      Protocol.InvFacts(region, init, st);
      NobodyWrites(cache.bufs[..], region, writing);
      ghost var s0, h0 := st, cache.disk.history;
      CommitStarts(region, s0, h0);
      ok := true;
      if |lh| > 0 {
        ok := WriteLog(crowd, s0, h0);
        if ok { ok := SwitchHead(crowd, s0, h0); }
        if ok { ok := InstallTrans(crowd, s0, h0); }
        if ok {
          Others(crowd);
          ghost var s1, h1 := st, cache.disk.history;
          RoomLeft(region, st, cache.bufs[..], writing, crowd, region.start);
          ok := Erase();
          if ok { Advance(region, s0, h0, h1, cache.disk.history, s1, st); }
        }
      }
    }
    /** The locked part of end_op; `ok` is false where it panics with "log.committing". */
    method Leave() returns (ok: bool, doCommit: bool)
      modifies this`outstanding, this`committing
      ensures outstanding == old(outstanding) - 1
      ensures ok <==> !old(committing)
      ensures doCommit <==> ok && outstanding == 0
      ensures committing <==> old(committing) || doCommit
    {
      outstanding := outstanding - 1;
      if committing {
        return false, false;
      }
      doCommit := outstanding == 0;
      if doCommit {
        committing := true;
      }
      ok := true;
    }

    /**
     end_op of operation `id`, whose changes have all been logged.  The last operation out commits;
     `ok` is false where that runs out of buffers.
     */
    method EndOp(ghost id: nat, crowd: nat) returns (ok: bool)
      requires Ready() && Protocol.Allowed(region, st, Protocol.End(id)) && id !in writing.Values
      requires |Held(cache.bufs[..])| <= crowd
      modifies this`lh, this`outstanding, this`committing, this`st, cache, cache.Repr()
      ensures Protocol.Shape(region, old(st)) && Protocol.Step(region, old(st), Protocol.End(id)).Next?
      ensures Following() && (ok ==> Ready())
      ensures old(outstanding) > 1 ==>
                ok && Protocol.Takes(region, old(st), Protocol.End(id), st) && cache.bufs[..] == old(cache.bufs[..])
      ensures old(outstanding) == 1 ==>
                Ended(old(st), id, old(cache.disk.history), cache.disk.history, region, st, ok)
      ensures ok ==> outstanding == old(outstanding) - 1 && (outstanding == 0 ==> lh == [] && !committing)
      ensures ok && outstanding == 0 ==>
                && |init| == |cache.disk.blocks| && region.start < |init|
                && HeaderOf(cache.disk.blocks[region.start]) == []
                && forall b: Word :: b < |init| && !region.Has(b) ==>
                     cache.disk.blocks[b] ==
                     Protocol.ApplyWrites(Protocol.ApplyGroups(Home(init, region), old(st.groups)), old(st.pending))[b]
      ensures !ok ==> !HasFree(cache.bufs[..])
      ensures |old(lh)| + crowd < NBUF ==> ok
    {
      hide Linked, Permutes, ByRelease, Unique, Sync, Protocol.Inv, HasFree, IsCached, CommitImage, Held, Traced;
      Protocol.InvFacts(region, init, st);
      Protocol.OpCounts(st.active, id);
      Protocol.StepKeepsInv(region, init, st, Protocol.End(id));
      ghost var s0, h0 := st, cache.disk.history;
      var doCommit;
      ok, doCommit := Leave();
      st := Protocol.AfterEnd(st, id);
      WritersLeft(cache.bufs[..], region, writing, s0.active, id);
      if doCommit {
        ok := Commit(crowd);
        if ok {
          CommitEnds(region, init, st, cache.bufs[..], writing);
          committing := false;
          st := Protocol.AfterCommitDone(st);
          assert SetOf(Waiting(st)) == {};
          AllOnDisk(region, init, st, s0.groups, s0.pending);
        }
      }
    }
    // ---- recovery ----

    /** Nothing is in use and nothing is pinned, as on a machine that has just started. */
    ghost predicate Starting()
      reads this, cache, cache.Repr()
    {
      && cache.Valid() && Sync(cache.bufs[..], cache.disk.blocks, map[], {}, map[]) && Held(cache.bufs[..]) == {}
      && |cache.disk.blocks| <= UINT
    }

    /** The loop of read_head. */
    method ParseHeader(hb: Block) returns (block: seq<Word>)
      requires hb[0] <= LOGSIZE
      ensures block == HeaderOf(hb)
    {
      var n := hb[0];
      block := [];
      var i := 0;
      while i < n
        invariant 0 <= i <= n && |block| == i
        invariant forall k :: 0 <= k < i ==> block[k] == hb[1 + k]
      {
        block := block + [hb[1 + i]];
        i := i + 1;
      }
    }

    /** read_head: the logged block numbers of the header block on the disk. */
    method ReadHead()
      requires Starting() && region.start < |cache.disk.blocks| && cache.disk.blocks[region.start][0] <= LOGSIZE
      modifies this`lh, cache, cache.Repr()
      ensures Starting() && cache.disk.blocks == old(cache.disk.blocks) && cache.disk.history == old(cache.disk.history)
      ensures lh == HeaderOf(cache.disk.blocks[region.start])
    {
      hide Linked, Permutes, ByRelease, Unique, Sync, HeaderOf;
      ghost var before := cache.bufs[..];
      IdleRoom(before, cache.disk.blocks, region.start);
      var ok, buf := Get(region.start, map[], {}, map[]);
      lh := ParseHeader(cache.bufs[buf].data);
      Put(buf, map[], {}, map[]);
      assert SameRefs(before, cache.bufs[..]);
      SameHeld(before, cache.bufs[..]);
    }

    /** install_trans on a machine that has just started: nothing is pinned. */
    method InstallAll()
      requires Starting() && Loggable(region, |cache.disk.blocks|, lh)
      modifies cache, cache.Repr()
      ensures Starting() && cache.disk.blocks == Installed(old(cache.disk.blocks), region, lh, |lh|)
      ensures |cache.disk.history| == |old(cache.disk.history)| + |lh| && old(cache.disk.history) <= cache.disk.history
      ensures forall k :: |old(cache.disk.history)| <= k < |cache.disk.history| ==>
                cache.disk.history[k] == Installed(old(cache.disk.blocks), region, lh,
                                                   k - |old(cache.disk.history)| + 1)
    {
      hide Linked, Permutes, ByRelease, Unique, Sync, Room, Held, SameRefs;
      var tail := 0;
      ghost var h0, d0 := cache.disk.history, cache.disk.blocks;
      while tail < |lh|
        invariant 0 <= tail <= |lh| && Starting()
        invariant cache.disk.blocks == Installed(d0, region, lh, tail)
        invariant |cache.disk.history| == |h0| + tail && h0 <= cache.disk.history
        invariant forall k :: |h0| <= k < |h0| + tail ==>
                    cache.disk.history[k] == Installed(d0, region, lh, k - |h0| + 1)
      {
        ghost var before := cache.bufs[..];
        InstallKeepsLog(d0, region, lh, tail);
        IdleRoom(before, cache.disk.blocks, region.start + tail + 1);
        var ok := InstallTurn(tail, map[], {});
        SameHeld(before, cache.bufs[..]);
        assert {} - {lh[tail]} == {};
        tail := tail + 1;
      }
    }

    /** recover_from_log: its block writes are the images of the redo log's recovery, and the log is empty after it. */
    method RecoverFromLog()
      requires Starting() && outstanding == 0 && !committing
      requires WellFormed(cache.disk.blocks, region) && cache.disk.blocks[region.start][0] <= LOGSIZE
      modifies this`lh, this`init, this`st, this`writing, cache, cache.Repr()
      ensures Ready() && init == cache.disk.blocks && st == Protocol.Start(init) && Held(cache.bufs[..]) == {}
      ensures Recovered(old(cache.disk.blocks), region, old(cache.disk.history), cache.disk.blocks, cache.disk.history)
      ensures var d, d' := old(cache.disk.blocks), cache.disk.blocks;
              var n := d[region.start][0];
              var homes := d[region.start][1..n + 1];
              && |d'| == |d| && region.start + n < |d| && d'[region.start][0] == 0
              && (forall k :: 0 <= k < n ==> homes[k] < |d| && d'[homes[k]] == d[region.start + 1 + k])
              && (forall b :: 0 <= b < |d| && b != region.start && b !in homes ==> d'[b] == d[b])
    {
      hide Linked, Permutes, ByRelease, Unique, Sync, Room, Held, SameRefs, RecoverImage, Installed, Protocol.Inv,
           Recovered,
           Headed, HeaderOf, Protocol.Fresh, Meaning;
      ghost var d, h0 := cache.disk.blocks, cache.disk.history;
      ReadHead();
      HeaderFits(d, region);
      InstallAll();
      ghost var h1, before := cache.disk.history, cache.bufs[..];
      lh := [];
      IdleRoom(before, cache.disk.blocks, region.start);
      var ok := WriteHead(map[], {});
      SameHeld(before, cache.bufs[..]);
      Recovers(d, region, h0, h1, cache.disk.history);
      RecoveredIs(d, region, h0, cache.disk.blocks, cache.disk.history);
      init, st, writing := cache.disk.blocks, Protocol.Start(cache.disk.blocks), map[];
      Protocol.StartInv(region, init);
      assert SetOf(Waiting(st)) == {};
    }
  }

  ghost predicate Recovered(d: Image, r: Region, h0: seq<Image>, d': Image, h: seq<Image>)
    requires WellFormed(d, r)
  {
    var n := |HeaderOf(d[r.start])|;
    && d' == RecoverImage(d, r, n + 1) && |h| == |h0| + n + 1 && h0 <= h
    && forall k :: |h0| <= k < |h| ==> h[k] == RecoverImage(d, r, k - |h0| + 1)
  }

  lemma {:induction false} RecoveredIs(d: Image, r: Region, h0: seq<Image>, d': Image, h: seq<Image>)
    requires WellFormed(d, r) && d[r.start][0] <= LOGSIZE && Recovered(d, r, h0, d', h)
    ensures var n := d[r.start][0];
            var homes := d[r.start][1..n + 1];
            && |d'| == |d| && r.start + n < |d| && d'[r.start][0] == 0
            && (forall k :: 0 <= k < n ==> homes[k] < |d| && d'[homes[k]] == d[r.start + 1 + k])
            && (forall b :: 0 <= b < |d| && b != r.start && b !in homes ==> d'[b] == d[b])
  {
    hide RecoverImage, HeaderOf, Loggable;
    RecoveryIs(d, r);
  }

  lemma {:induction false} HeaderFits(d: Image, r: Region)
    requires WellFormed(d, r)
    ensures r.start < |d| && Loggable(r, |d|, HeaderOf(d[r.start]))
  {
  }

  /** Installing everything and clearing the header is a recovery, after which the log is empty. */
  lemma {:induction false} Recovers(d: Image, r: Region, h0: seq<Image>, h1: seq<Image>, h: seq<Image>)
    requires WellFormed(d, r)
    requires var bs := HeaderOf(d[r.start]);
             && |h1| == |h0| + |bs| && h0 <= h1
             && (forall k :: |h0| <= k < |h1| ==> h1[k] == Installed(d, r, bs, k - |h0| + 1))
             && h == h1 + [Headed(Installed(d, r, bs, |bs|), r, [])]
    ensures Recovered(d, r, h0, h[|h| - 1], h) && Protocol.Fresh(r, h[|h| - 1])
  {
    hide Installed, Headed, HeaderOf, Meaning, Home;
    RecoverKeepsMeaning(d, r, |HeaderOf(d[r.start])| + 1);
  }

  lemma {:induction false} IdleRoom(bufs: seq<Buf>, d: Image, b: Word)
    requires Sync(bufs, d, map[], {}, map[]) && Held(bufs) == {}
    ensures Room(bufs, b)
  {
    assert DirtyOk(bufs, {}, 0) && 0 !in Held(bufs);
    assert bufs[0].Free();
  }

  /** The buffers of binit. */
  lemma {:induction false} EmptyCache(bufs: seq<Buf>, d: Image)
    requires |bufs| == NBUF && forall i :: 0 <= i < NBUF ==> bufs[i] == Buf(false, false, 0, 0, 0, ZeroBlock())
    ensures Unique(bufs) && Sync(bufs, d, map[], {}, map[]) && Held(bufs) == {}
  {
  }

  /** Start of the machine: binit and initlog on a disk that may hold an unfinished commit. */
  method Boot(disk: Disk, region: Region) returns (log: Log)
    requires |disk.blocks| <= UINT && WellFormed(disk.blocks, region) && disk.blocks[region.start][0] <= LOGSIZE
    modifies disk
    ensures fresh(log) && fresh(log.cache.Repr() - {disk}) && log.cache.disk == disk && log.region == region
    ensures log.Ready() && log.init == disk.blocks && log.st == Protocol.Start(disk.blocks) &&
            Held(log.cache.bufs[..]) == {}
    ensures Recovered(old(disk.blocks), region, old(disk.history), disk.blocks, disk.history)
  {
    hide Linked, Permutes, ByRelease, Unique, Sync, Held;
    var cache := new Cache(disk);
    log := new Log(cache, region);
    EmptyCache(cache.bufs[..], disk.blocks);
    log.RecoverFromLog();
  }

  /** What the last end_op does to the protocol: all of the commit, or the block writes before it fails. */
  ghost predicate Ended(s: Protocol.State, id: nat, h0: seq<Image>, h: seq<Image>, r: Region, t: Protocol.State,
                        ok: bool)
    requires Protocol.HasOp(s.active, id) && Protocol.Shape(r, s)
  {
    var s1 := Protocol.AfterEnd(s, id);
    && s1.phase.Committing?
    && (ok ==> t == Protocol.AfterCommitDone(CommitState(r, s1, Protocol.CommitWrites(|s.lh|))))
    && (!ok ==> t.phase.Committing? && t == CommitState(r, s1, t.phase.step))
    && var n := if ok then Protocol.CommitWrites(|s.lh|) else t.phase.step;
       Traced(h0, h, s.disk, r, s.lh, Protocol.CachedData(s), n)
  }

  /** With nothing logged, the disk alone has the outcome of all transactions, and its log is empty. */
  lemma {:induction false} AllOnDisk(r: Region, init: Image, s: Protocol.State, groups: seq<seq<Protocol.Write>>,
                                     last: seq<Protocol.Write>)
    requires Protocol.Inv(r, init, s) && s.phase.Idle? && s.lh == [] && s.cache == map[]
    requires s.pending == [] && s.groups == groups + [last]
    ensures |init| == |s.disk| && r.start < |init| && HeaderOf(s.disk[r.start]) == []
    ensures forall b: Word :: b < |init| && !r.Has(b) ==>
              s.disk[b] == Protocol.ApplyWrites(Protocol.ApplyGroups(Home(init, r), groups), last)[b]
  {
    hide HeaderOf, Home;
    assert s.groups[..|s.groups| - 1] == groups;
    assert |init| == |s.disk| && HeaderOf(s.disk[r.start]) == [];
    hide Protocol.Inv;
    forall b: Word | b < |init| && !r.Has(b)
      ensures s.disk[b] == Protocol.ApplyWrites(Protocol.ApplyGroups(Home(init, r), groups), last)[b]
    {
      Protocol.NewestIsAllWrites(r, init, s, b);
    }
  }

  /** The changes of the other operations remain theirs. */
  lemma {:induction false} WritersLeft(bufs: seq<Buf>, r: Region, writing: map<nat, nat>, active: seq<Protocol.Op>,
                                       id: nat)
    requires Writers(bufs, r, writing, active) && Protocol.HasOp(active, id) && id !in writing.Values
    ensures Writers(bufs, r, writing, Protocol.Without(active, Protocol.IndexOf(active, id)))
  {
    hide Protocol.HasOp, Protocol.IndexOf;
    Protocol.OthersStay(active, Protocol.IndexOf(active, id));
  }

  /** After the commit the disk alone has the newest contents of every block. */
  lemma {:induction false} CommitEnds(r: Region, init: Image, s: Protocol.State, bufs: seq<Buf>, writing: map<nat, nat>)
    requires Protocol.Inv(r, init, s) && s.phase.Committing? && s.phase.step == Protocol.CommitWrites(|s.lh|)
    requires Sync(bufs, s.disk, s.cache, SetOf(Waiting(s)), writing)
    ensures Protocol.Inv(r, init, Protocol.AfterCommitDone(s))
    ensures Sync(bufs, s.disk, map[], {}, writing)
  {
    Protocol.InvFacts(r, init, s);
    Protocol.StepKeepsInv(r, init, s, Protocol.CommitDone);
    hide Protocol.Inv;
    assert SetOf(Waiting(s)) == {};
    AllHome(bufs, s.disk, s.cache, writing);
  }

  /** The protocol's state `k` block writes into the commit that begins in `s`. */
  ghost function CommitState(r: Region, s: Protocol.State, k: nat): Protocol.State
    requires Protocol.Shape(r, s) && s.phase.Committing?
  {
    s.(disk := CommitImage(s.phase.base, r, s.lh, Protocol.CachedData(s), k),
       phase := Protocol.Committing(s.phase.base, k))
  }

  lemma {:induction false} CommitStarts(r: Region, s: Protocol.State, h: seq<Image>)
    requires Protocol.Shape(r, s) && s.phase.Committing? && s.phase.step == 0
    requires s.disk == if s.lh == [] then s.phase.base
                       else CommitImage(s.phase.base, r, s.lh, Protocol.CachedData(s), s.phase.step)
    ensures s == CommitState(r, s, 0)
    ensures Traced(h, h, s.phase.base, r, s.lh, Protocol.CachedData(s), 0)
  {
  }

  /** One more block write of the commit. */
  lemma {:induction false} Advance(r: Region, s0: Protocol.State, h0: seq<Image>, h: seq<Image>, h': seq<Image>,
                                   s: Protocol.State, t: Protocol.State)
    requires Protocol.Shape(r, s0) && s0.phase.Committing? && s.phase.Committing? &&
             s == CommitState(r, s0, s.phase.step)
    requires Protocol.Takes(r, s, Protocol.CommitBlock, t) && h' == h + [t.disk]
    requires Traced(h0, h, s0.phase.base, r, s0.lh, Protocol.CachedData(s0), s.phase.step)
    ensures t.phase.Committing? && t.phase.step == s.phase.step + 1 && t == CommitState(r, s0, t.phase.step)
    ensures Traced(h0, h', s0.phase.base, r, s0.lh, Protocol.CachedData(s0), t.phase.step)
  {
    hide CommitImage;
  }

  lemma {:induction false} SetOfSize(bs: seq<Word>)
    ensures |SetOf(bs)| <= |bs|
  {
    if bs != [] {
      SetOfSize(bs[1..]);
      assert bs == [bs[0]] + bs[1..];
      assert SetOf(bs) == SetOf(bs[1..]) + {bs[0]};
    }
  }

  lemma {:induction false} DistinctSize(bs: seq<Word>)
    requires Distinct(bs)
    ensures |SetOf(bs)| == |bs|
  {
    if bs != [] {
      var rest := bs[1..];
      DistinctSlice(bs, 1, |bs|);
      assert bs[1..|bs|] == rest;
      DistinctSize(rest);
      assert bs == [bs[0]] + rest;
      forall k | 0 <= k < |rest|
        ensures rest[k] != bs[0]
      {
        if rest[k] == bs[0] { DistinctAt(bs, 0, k + 1); }
      }
      assert SetOf(bs) == SetOf(rest) + {bs[0]};
    }
  }

  /** write_log never gets past its first bread if NBUF blocks are logged. */
  lemma {:induction false} FullLog(r: Region, s: Protocol.State, bufs: seq<Buf>, writing: map<nat, nat>, slot: Word)
    requires Protocol.Shape(r, s) && Sync(bufs, s.disk, s.cache, SetOf(Waiting(s)), writing)
    requires s.phase.Committing? && s.phase.step < |s.lh| && slot == r.start + s.phase.step + 1
    ensures |s.lh| >= NBUF ==> !Room(bufs, slot)
  {
    hide Sync, Room;
    if |s.lh| >= NBUF {
      DistinctSize(s.lh);
      SlotKnown(r, |s.disk|, s.lh, s.phase.step);
      FullCacheHasNoRoom(bufs, s.disk, s.cache, SetOf(s.lh), writing, slot);
    }
  }

  lemma {:induction false} SameHeld(bufs: seq<Buf>, bufs': seq<Buf>)
    requires SameRefs(bufs, bufs')
    ensures Held(bufs) == Held(bufs')
  {
  }

  /** A small enough transaction beside few enough readers always finds a buffer. */
  lemma {:induction false} RoomLeft(r: Region, s: Protocol.State, bufs: seq<Buf>, writing: map<nat, nat>, crowd: nat,
                                    b: Word)
    requires Protocol.Shape(r, s) && Sync(bufs, s.disk, s.cache, SetOf(Waiting(s)), writing) && |Held(bufs)| <= crowd
    ensures |s.lh| + crowd < NBUF ==> Room(bufs, b)
    ensures !Room(bufs, b) ==> !HasFree(bufs)
  {
    hide Sync;
    FreeIff(bufs, s.disk, s.cache, SetOf(Waiting(s)), writing);
    SetOfSize(Waiting(s));
    SubsetSize(Held(bufs) - Dirty(bufs), Held(bufs));
  }

  /**
   During the installation the newest contents of a logged block, which bread returns, are in its slot,
   and once it is copied also in its home block: it does not matter that its buffer may be recycled.
   */
  lemma {:induction false} InstallShowsSlots(r: Region, init: Image, s: Protocol.State, k: nat)
    requires Protocol.Inv(r, init, s) && s.phase.Committing? && k < |s.lh| < s.phase.step <= 2 * |s.lh| + 1
    ensures r.start + k + 1 < |s.disk| && s.lh[k] < |s.disk|
    ensures Protocol.Newest(s.disk, s.cache, s.lh[k]) == s.disk[r.start + k + 1]
    ensures k < s.phase.step - |s.lh| - 1 ==> s.disk[s.lh[k]] == s.disk[r.start + k + 1]
  {
    hide Protocol.Inv, CommitImage, Distinct;
    Protocol.InvFacts(r, init, s);
    SlotsAndHomes(s.phase.base, r, s.lh, Protocol.CachedData(s), s.phase.step - |s.lh| - 1, k);
  }

  lemma {:induction false} NobodyWrites(bufs: seq<Buf>, r: Region, writing: map<nat, nat>)
    requires Writers(bufs, r, writing, [])
    ensures writing == map[]
  {
    forall i | i in writing
      ensures false
    {
    }
  }

  lemma {:induction false} HeldMore(bufs: seq<Buf>, bufs': seq<Buf>, i: nat)
    requires |bufs| == |bufs'| && (bufs' == bufs || (i < |bufs| && bufs' == bufs[i := bufs'[i]]))
    ensures |Held(bufs')| <= |Held(bufs)| + 1
  {
    SubsetSize(Held(bufs'), Held(bufs) + {i});
  }

  lemma {:induction false} HeldLess(bufs: seq<Buf>, bufs': seq<Buf>, i: nat)
    requires |bufs| == |bufs'| && i < |bufs| && bufs' == bufs[i := bufs'[i]] && bufs[i].refcnt > 0
    ensures |Held(bufs')| <= |Held(bufs)|
  {
    SubsetSize(Held(bufs'), Held(bufs));
  }

  lemma {:induction false} SubsetSize(a: set<nat>, b: set<nat>)
    requires a <= b
    ensures |a| <= |b|
  {
    assert b == a + (b - a);
  }

  lemma {:induction false} OneLess(lh: seq<Word>, tail: nat)
    requires Distinct(lh) && tail < |lh|
    ensures lh[tail] in SetOf(lh[tail..]) && SetOf(lh[tail + 1..]) == SetOf(lh[tail..]) - {lh[tail]}
  {
    assert lh[tail..] == [lh[tail]] + lh[tail + 1..];
    forall k | tail < k < |lh|
      ensures lh[k] != lh[tail]
    {
      assert !SameAt(lh, tail, k);
    }
  }

  /** A turn of install_trans is a step of the protocol, after which one block fewer is waiting. */
  lemma {:induction false} InstallStep(r: Region, init: Image, s: Protocol.State, tail: nat)
    requires Protocol.Inv(r, init, s) && s.phase.Committing? && s.phase.step == |s.lh| + 1 + tail && tail < |s.lh|
    ensures Protocol.Shape(r, s) && Loggable(r, |s.disk|, s.lh) && s.cache.Keys == SetOf(s.lh) && s.active == []
    ensures s.lh[tail] in SetOf(Waiting(s)) && s.lh[tail] < |s.disk| && r.start + tail + 1 < |s.disk|
    ensures s.disk[r.start + tail + 1] == s.cache[s.lh[tail]]
    ensures var t := Protocol.AfterCommitBlock(r, s);
            && Protocol.Takes(r, s, Protocol.CommitBlock, t) && Protocol.Inv(r, init, t)
            && t.disk == s.disk[s.lh[tail] := s.cache[s.lh[tail]]] && t.cache == s.cache && t.lh == s.lh
            && t.outstanding == s.outstanding && t.active == s.active && t.phase.Committing?
            && SetOf(Waiting(t)) == SetOf(Waiting(s)) - {s.lh[tail]}
  {
    hide Protocol.Inv, CommitImage;
    Protocol.InvFacts(r, init, s);
    Protocol.StepKeepsInv(r, init, s, Protocol.CommitBlock);
    NextInstall(s.phase.base, r, s.lh, Protocol.CachedData(s), tail);
    OneLess(s.lh, tail);
  }

  lemma {:induction false} WritersKept(bufs: seq<Buf>, r: Region, writing: map<nat, nat>, active: seq<Protocol.Op>,
                                       i: nat, b: Buf)
    requires Writers(bufs, r, writing, active) && i < |bufs| && (i in writing ==> b.blockno == bufs[i].blockno)
    ensures Writers(bufs[i := b], r, writing, active)
  {
  }

  lemma {:induction false} WritersLogged(bufs: seq<Buf>, r: Region, writing: map<nat, nat>, active: seq<Protocol.Op>,
                                         active': seq<Protocol.Op>, i: nat)
    requires Writers(bufs, r, writing, active) && i < |bufs| && |active| == |active'|
    requires forall j :: 0 <= j < |active| ==> active'[j].id == active[j].id
    ensures Writers(bufs[i := bufs[i].(dirty := true)], r, writing - {i}, active')
  {
    hide Protocol.HasOp;
    Protocol.OpsStay(active, active');
  }

  /** The slots are not themselves logged. */
  lemma {:induction false} SlotKnown(r: Region, len: nat, lh: seq<Word>, tail: nat)
    requires Loggable(r, len, lh) && tail < |lh|
    ensures r.start + tail + 1 < len && r.start + tail + 1 !in lh && lh[tail] < len && !r.Has(lh[tail])
  {
  }

  lemma {:induction false} RefsSame(bufs: seq<Buf>)
    ensures SameRefs(bufs, bufs)
  {
  }

  /** Two buffers got and released leave the references as they were. */
  lemma {:induction false} RefsBack(bufs0: seq<Buf>, bufs1: seq<Buf>, bufs2: seq<Buf>, bufs3: seq<Buf>, i: nat, j: nat)
    requires i < |bufs0| && j < |bufs0| && i != j && |bufs0| == |bufs1| == |bufs2| == |bufs3|
    requires bufs1 == bufs0[i := bufs1[i]] && bufs1[i].refcnt == bufs0[i].refcnt + 1
    requires bufs2 == bufs1[j := bufs2[j]] && bufs2[j].refcnt == bufs1[j].refcnt + 1
    requires bufs3 == bufs2[i := bufs3[i]][j := bufs3[j]]
    requires bufs3[i].refcnt + 1 == bufs2[i].refcnt && bufs3[j].refcnt + 1 == bufs2[j].refcnt
    ensures SameRefs(bufs0, bufs3)
  {
  }

  /** With the slot in buffer `l`, there is still a buffer for the home block. */
  lemma {:induction false} RoomForHome(bufs: seq<Buf>, bufs': seq<Buf>, d: Image, newest: map<Word, Block>,
                                       pinned: set<Word>, l: nat, b: Word)
    requires Sync(bufs', d, newest, pinned, map[]) && l < |bufs| == |bufs'| && bufs' == bufs[l := bufs'[l]]
    requires b in pinned || (pinned == {} && Held(bufs) == {})
    ensures Room(bufs', b)
  {
    if b in pinned {
      PinnedIsCached(bufs', d, newest, pinned, map[], b);
    } else {
      var k: nat := if l == 0 then 1 else 0;
      assert DirtyOk(bufs', pinned, k) && k !in Held(bufs);
      assert bufs'[k].Free();
    }
  }

  lemma {:induction false} DirtyAreValid(bufs: seq<Buf>, d: Image, newest: map<Word, Block>, pinned: set<Word>,
                                         writing: map<nat, nat>)
    requires Sync(bufs, d, newest, pinned, writing)
    ensures |bufs| == NBUF && pinned <= newest.Keys
    ensures forall j :: 0 <= j < |bufs| && bufs[j].dirty ==> bufs[j].valid
  {
    forall j | 0 <= j < |bufs| && bufs[j].dirty
      ensures bufs[j].valid
    {
      assert DirtyOk(bufs, pinned, j);
    }
  }

  // ---- the bound is exact ----

  /** The blocks of a transaction, followed by other blocks of the disk. */
  ghost predicate OnDisk(d: Image, lh: seq<Word>, newest: map<Word, Block>, c: seq<Word>) {
    && newest.Keys == SetOf(lh) && Distinct(lh + c)
    && (forall i :: 0 <= i < |lh| ==> lh[i] < |d| && lh[i] in newest)
    && (forall i :: 0 <= i < |c| ==> c[i] < |d|)
  }

  /** The logged blocks pinned and released, and the blocks `c` held by readers. */
  ghost function CrowdedBufs(d: Image, lh: seq<Word>, newest: map<Word, Block>, c: seq<Word>): (bufs: seq<Buf>)
    requires OnDisk(d, lh, newest, c)
    ensures |bufs| == |lh| + |c|
    ensures forall i :: 0 <= i < |lh| ==> bufs[i] == Buf(true, true, ROOTDEV, lh[i], 0, newest[lh[i]])
    ensures forall i :: |lh| <= i < |bufs| ==> bufs[i] == Buf(true, false, ROOTDEV, c[i - |lh|], 1, d[c[i - |lh|]])
    ensures forall i :: 0 <= i < |bufs| ==> bufs[i].dev == ROOTDEV && bufs[i].blockno == (lh + c)[i] && !bufs[i].Free()
  {
    seq(|lh| + |c|, i requires 0 <= i < |lh| + |c| =>
      if i < |lh| then Buf(true, true, ROOTDEV, lh[i], 0, newest[lh[i]])
      else Buf(true, false, ROOTDEV, c[i - |lh|], 1, d[c[i - |lh|]]))
  }

  lemma {:induction false} CrowdedSync(d: Image, lh: seq<Word>, newest: map<Word, Block>, c: seq<Word>)
    requires OnDisk(d, lh, newest, c) && |lh| + |c| == NBUF
    ensures Sync(CrowdedBufs(d, lh, newest, c), d, newest, SetOf(lh), map[])
  {
    hide CrowdedBufs, Distinct;
    var bufs, all := CrowdedBufs(d, lh, newest, c), lh + c;
    forall i, j | 0 <= i < j < NBUF
      ensures !SameBlock(bufs, i, j)
    {
      if all[i] == all[j] { DistinctAt(all, i, j); }
    }
    forall i: nat | i < NBUF
      ensures DirtyOk(bufs, SetOf(lh), i) && HoldsNewest(bufs, d, newest, map[], i)
    {
      if i >= |lh| && all[i] in lh {
        var k :| 0 <= k < |lh| && lh[k] == all[i];
        DistinctAt(all, k, i);
      }
    }
    forall b | b in SetOf(lh)
      ensures DirtyFor(bufs, b)
    {
      var k: nat :| k < |lh| && lh[k] == b;
      assert bufs[k].dirty && bufs[k].blockno == b;
    }
  }

  lemma {:induction false} CrowdedHeld(d: Image, lh: seq<Word>, newest: map<Word, Block>, c: seq<Word>)
    requires OnDisk(d, lh, newest, c)
    ensures |Held(CrowdedBufs(d, lh, newest, c))| == |c|
  {
    hide OnDisk, CrowdedBufs, UpTo;
    var held, all, n := Held(CrowdedBufs(d, lh, newest, c)), UpTo(|lh| + |c|), UpTo(|lh|);
    assert held == all - n;
    assert all == n + held;
  }

  /**
   Whatever a commit of at least one block has logged, the cache may be in a state in which its first
   bread panics, if other processes hold the NBUF - n remaining buffers: `Commit`'s bound is exact.
   */
  lemma {:induction false} CrowdStopsCommit(r: Region, init: Image, s: Protocol.State, c: seq<Word>)
    returns (bufs: seq<Buf>)
    requires Protocol.Inv(r, init, s) && s.phase.Committing? && s.phase.step == 0 && s.lh != []
    requires Distinct(s.lh + c) && |s.lh| + |c| == NBUF
    requires forall i :: 0 <= i < |c| ==> c[i] < |s.disk| && !r.Has(c[i])
    ensures Sync(bufs, s.disk, s.cache, SetOf(Waiting(s)), map[]) && |Held(bufs)| == |c|
    ensures forall b: Word :: r.Has(b) ==> !Room(bufs, b)
  {
    hide Protocol.Inv, Distinct, CrowdedBufs, Held;
    Protocol.InvFacts(r, init, s);
    bufs := CrowdedBufs(s.disk, s.lh, s.cache, c);
    CrowdedSync(s.disk, s.lh, s.cache, c);
    CrowdedHeld(s.disk, s.lh, s.cache, c);
  }
}
