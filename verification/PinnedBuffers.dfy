/**
 What the buffers of bio.c hold while a transaction is pinned in them: every valid buffer has the
 newest contents of its block, and the blocks that only the cache has are never recycled.
 */
module PinnedBuffers {
  import opened Blocks
  import opened BufferCache
  import opened GroupCommit

  ghost predicate DirtyFor(bufs: seq<Buf>, b: Word) {
    exists i: nat :: i < |bufs| && bufs[i].dirty && bufs[i].blockno == b
  }

  ghost predicate DirtyOk(bufs: seq<Buf>, pinned: set<Word>, i: nat)
    requires i < |bufs|
  {
    bufs[i].dirty ==> bufs[i].valid && bufs[i].dev == ROOTDEV && bufs[i].blockno in pinned
  }

  /** A buffer that nobody is changing shows the newest contents of its block. */
  ghost predicate HoldsNewest(bufs: seq<Buf>, d: Image, newest: map<Word, Block>, writing: map<nat, nat>, i: nat)
    requires i < |bufs|
  {
    bufs[i].valid && bufs[i].dev == ROOTDEV && i !in writing ==>
      bufs[i].blockno < |d| && bufs[i].data == Newest(d, newest, bufs[i].blockno)
  }

  /** Whoever changes a buffer holds it. */
  ghost predicate HeldWriter(bufs: seq<Buf>, d: Image, i: nat) {
    i < |bufs| && bufs[i].refcnt > 0 && bufs[i].valid && bufs[i].dev == ROOTDEV && bufs[i].blockno < |d|
  }

  /**
   The cache and the disk together hold the newest contents of every block: the blocks in `pinned`
   have dirty buffers and nothing else has; of the other blocks in `newest` the disk is up to date;
   `writing` tells which operation has changed a buffer and not yet called log_write.
   */
  ghost predicate Sync(bufs: seq<Buf>, d: Image, newest: map<Word, Block>, pinned: set<Word>, writing: map<nat, nat>) {
    && |bufs| == NBUF && Unique(bufs) && pinned <= newest.Keys
    && (forall b :: b in newest ==> b < |d| && (b !in pinned ==> d[b] == newest[b]))
    && (forall i: nat :: i < |bufs| ==> DirtyOk(bufs, pinned, i))
    && (forall i: nat :: i < |bufs| ==> HoldsNewest(bufs, d, newest, writing, i))
    && (forall b :: b in pinned ==> DirtyFor(bufs, b))
    && (forall i :: i in writing ==> HeldWriter(bufs, d, i))
  }

  function Refs(bufs: seq<Buf>): (refs: seq<nat>) {
    seq(|bufs|, i requires 0 <= i < |bufs| => bufs[i].refcnt)
  }

  /** bget finds a buffer for block `b`. */
  ghost predicate Room(bufs: seq<Buf>, b: Word) {
    IsCached(bufs, ROOTDEV, b) || HasFree(bufs)
  }

  // ---- the cache's own steps ----

  /** A pinned block stays cached: bget never gives its buffer away. */
  lemma {:induction false} PinnedIsCached(bufs: seq<Buf>, d: Image, newest: map<Word, Block>, pinned: set<Word>,
                                          writing: map<nat, nat>, b: Word)
    requires Sync(bufs, d, newest, pinned, writing) && b in pinned
    ensures IsCached(bufs, ROOTDEV, b)
    ensures forall i :: 0 <= i < |bufs| && bufs[i].Holds(ROOTDEV, b) ==> bufs[i].valid && bufs[i].dirty
  {
    assert DirtyFor(bufs, b);
    var i: nat :| i < |bufs| && bufs[i].dirty && bufs[i].blockno == b;
    assert DirtyOk(bufs, pinned, i) && bufs[i].Holds(ROOTDEV, b);
    OnlyBufferOf(bufs, i);
  }

  /** bread of a cached block. */
  lemma {:induction false} GotCached(bufs: seq<Buf>, d: Image, newest: map<Word, Block>, pinned: set<Word>,
                                     writing: map<nat, nat>, i: nat)
    requires Sync(bufs, d, newest, pinned, writing) && i < |bufs| && bufs[i].dev == ROOTDEV && bufs[i].blockno < |d|
    ensures var b := bufs[i];
            var b' := b.(refcnt := b.refcnt + 1, valid := true, data := if b.valid then b.data else d[b.blockno]);
            Sync(bufs[i := b'], d, newest, pinned, writing)
  {
    var b := bufs[i];
    var b' := b.(refcnt := b.refcnt + 1, valid := true, data := if b.valid then b.data else d[b.blockno]);
    assert HoldsNewest(bufs, d, newest, writing, i);
    if b.blockno in pinned {
      PinnedIsCached(bufs, d, newest, pinned, writing, b.blockno);
    }
    Touched(bufs, d, newest, pinned, writing, i, b');
  }

  /** A buffer keeps its block, its dirty flag and its contents; only references and validity change. */
  lemma {:induction false} Touched(bufs: seq<Buf>, d: Image, newest: map<Word, Block>, pinned: set<Word>,
                                   writing: map<nat, nat>, i: nat, b': Buf)
    requires Sync(bufs, d, newest, pinned, writing) && i < |bufs|
    requires b'.dev == bufs[i].dev && b'.blockno == bufs[i].blockno && b'.dirty == bufs[i].dirty
    requires (bufs[i].valid ==> b'.valid) && (i in writing ==> b'.refcnt > 0)
    requires HoldsNewest(bufs[i := b'], d, newest, writing, i)
    ensures Sync(bufs[i := b'], d, newest, pinned, writing)
  {
    var bufs' := bufs[i := b'];
    UniqueKept(bufs, i, b');
    hide Unique, HoldsNewest;
    forall j: nat | j < |bufs'|
      ensures DirtyOk(bufs', pinned, j)
    {
      assert DirtyOk(bufs, pinned, j);
    }
    forall j: nat | j < |bufs'|
      ensures HoldsNewest(bufs', d, newest, writing, j)
    {
      assert HoldsNewest(bufs, d, newest, writing, j);
      if j != i { NewestElsewhere(bufs, bufs', d, newest, writing, j); }
    }
    forall b | b in pinned
      ensures DirtyFor(bufs', b)
    {
      DirtyStays(bufs, i, bufs'[i], b);
    }
    forall j | j in writing
      ensures HeldWriter(bufs', d, j)
    {
      assert HeldWriter(bufs, d, j);
    }
  }

  lemma {:induction false} DirtyStays(bufs: seq<Buf>, i: nat, b': Buf, c: Word)
    requires i < |bufs| && DirtyFor(bufs, c)
    requires bufs[i].dirty && bufs[i].blockno == c ==> b'.dirty && b'.blockno == c
    ensures DirtyFor(bufs[i := b'], c)
  {
    var k: nat :| k < |bufs| && bufs[k].dirty && bufs[k].blockno == c;
    assert bufs[i := b'][k].dirty && bufs[i := b'][k].blockno == c;
  }

  lemma {:induction false} NewestElsewhere(bufs: seq<Buf>, bufs': seq<Buf>, d: Image, newest: map<Word, Block>,
                                           writing: map<nat, nat>, j: nat)
    requires j < |bufs| == |bufs'| && bufs'[j] == bufs[j] && HoldsNewest(bufs, d, newest, writing, j)
    ensures HoldsNewest(bufs', d, newest, writing, j)
  {
  }

  /** bread of a block that no buffer has, into a buffer that may be recycled. */
  lemma {:induction false} GotFree(bufs: seq<Buf>, d: Image, newest: map<Word, Block>, pinned: set<Word>,
                                   writing: map<nat, nat>, i: nat, b: Word)
    requires Sync(bufs, d, newest, pinned, writing) && i < |bufs| && b < |d|
    requires bufs[i].Free() && !IsCached(bufs, ROOTDEV, b)
    ensures i !in writing && Sync(bufs[i := Buf(true, false, ROOTDEV, b, 1, d[b])], d, newest, pinned, writing)
  {
    var bufs' := bufs[i := Buf(true, false, ROOTDEV, b, 1, d[b])];
    assert i in writing ==> HeldWriter(bufs, d, i);
    UniqueAfter(bufs, i, bufs'[i]);
    if b in pinned {
      PinnedIsCached(bufs, d, newest, pinned, writing, b);
    }
    Replaced(bufs, d, newest, pinned, writing, i, bufs'[i]);
  }

  /** A clean buffer that nobody changes is given other contents: the newest of some block. */
  lemma {:induction false} Replaced(bufs: seq<Buf>, d: Image, newest: map<Word, Block>, pinned: set<Word>,
                                    writing: map<nat, nat>, i: nat, b': Buf)
    requires Sync(bufs, d, newest, pinned, writing) && i < |bufs| && !bufs[i].dirty && !b'.dirty && i !in writing
    requires Unique(bufs[i := b']) && HoldsNewest(bufs[i := b'], d, newest, writing, i)
    ensures Sync(bufs[i := b'], d, newest, pinned, writing)
  {
    var bufs' := bufs[i := b'];
    hide Unique, HoldsNewest;
    forall j: nat | j < |bufs'|
      ensures DirtyOk(bufs', pinned, j)
    {
      assert DirtyOk(bufs, pinned, j);
    }
    forall j: nat | j < |bufs'|
      ensures HoldsNewest(bufs', d, newest, writing, j)
    {
      assert HoldsNewest(bufs, d, newest, writing, j);
      if j != i { NewestElsewhere(bufs, bufs', d, newest, writing, j); }
    }
    forall b | b in pinned
      ensures DirtyFor(bufs', b)
    {
      DirtyStays(bufs, i, bufs'[i], b);
    }
    forall j | j in writing
      ensures HeldWriter(bufs', d, j)
    {
      assert HeldWriter(bufs, d, j);
    }
  }

  /** An operation changes the contents of a buffer that it holds. */
  lemma {:induction false} Changed(bufs: seq<Buf>, d: Image, newest: map<Word, Block>, pinned: set<Word>,
                                   writing: map<nat, nat>, i: nat, data: Block, op: nat)
    requires Sync(bufs, d, newest, pinned, writing) && HeldWriter(bufs, d, i)
    ensures Sync(bufs[i := bufs[i].(data := data)], d, newest, pinned, writing[i := op])
  {
    var bufs', writing' := bufs[i := bufs[i].(data := data)], writing[i := op];
    UniqueKept(bufs, i, bufs'[i]);
    hide Unique;
    forall j: nat | j < |bufs'|
      ensures DirtyOk(bufs', pinned, j) && HoldsNewest(bufs', d, newest, writing', j)
    {
      assert DirtyOk(bufs, pinned, j) && HoldsNewest(bufs, d, newest, writing, j);
    }
    forall b | b in pinned
      ensures DirtyFor(bufs', b)
    {
      DirtyStays(bufs, i, bufs'[i], b);
    }
    forall j | j in writing'
      ensures HeldWriter(bufs', d, j)
    {
      assert j != i ==> HeldWriter(bufs, d, j);
    }
  }

  /** log_write: what the operation has put into the buffer is now the newest contents, and pinned. */
  lemma {:induction false} LoggedOne(bufs: seq<Buf>, d: Image, newest: map<Word, Block>, pinned: set<Word>,
                                     writing: map<nat, nat>, i: nat)
    requires Sync(bufs, d, newest, pinned, writing) && i in writing
    ensures HeldWriter(bufs, d, i)
    ensures var b := bufs[i];
            Sync(bufs[i := b.(dirty := true)], d, newest[b.blockno := b.data], pinned + {b.blockno}, writing - {i})
  {
    assert HeldWriter(bufs, d, i);
    var b, bufs' := bufs[i], bufs[i := bufs[i].(dirty := true)];
    var newest', pinned', writing' := newest[b.blockno := b.data], pinned + {b.blockno}, writing - {i};
    OnlyBufferOf(bufs, i);
    UniqueKept(bufs, i, bufs'[i]);
    hide Unique;
    forall j: nat | j < |bufs'|
      ensures DirtyOk(bufs', pinned', j) && HoldsNewest(bufs', d, newest', writing', j)
    {
      assert DirtyOk(bufs, pinned, j) && HoldsNewest(bufs, d, newest, writing, j);
      assert j != i && bufs[j].dev == ROOTDEV ==> bufs[j].blockno != b.blockno;
    }
    assert bufs'[i].dirty && bufs'[i].blockno == b.blockno;
    forall c | c in pinned'
      ensures DirtyFor(bufs', c)
    {
      if c != b.blockno {
        DirtyStays(bufs, i, bufs'[i], c);
      }
    }
    forall j | j in writing'
      ensures HeldWriter(bufs', d, j)
    {
      assert HeldWriter(bufs, d, j);
    }
  }

  // ---- the block writes of a commit ----

  /** bwrite of new contents to a block of the log. */
  lemma {:induction false} WroteLog(bufs: seq<Buf>, d: Image, newest: map<Word, Block>, pinned: set<Word>,
                                    writing: map<nat, nat>, t: nat, data: Block)
    requires Sync(bufs, d, newest, pinned, writing) && HeldWriter(bufs, d, t) && t !in writing &&
             bufs[t].blockno !in newest
    ensures Sync(bufs[t := bufs[t].(data := data)], d[bufs[t].blockno := data], newest, pinned, writing)
  {
    var b, bufs' := bufs[t], bufs[t := bufs[t].(data := data)];
    var d' := d[b.blockno := data];
    assert DirtyOk(bufs, pinned, t);
    OnlyBufferOf(bufs, t);
    UniqueKept(bufs, t, bufs'[t]);
    hide Unique;
    forall j: nat | j < |bufs'|
      ensures DirtyOk(bufs', pinned, j) && HoldsNewest(bufs', d', newest, writing, j)
    {
      assert DirtyOk(bufs, pinned, j) && HoldsNewest(bufs, d, newest, writing, j);
      assert j != t && bufs[j].dev == ROOTDEV ==> bufs[j].blockno != b.blockno;
    }
    forall c | c in pinned
      ensures DirtyFor(bufs', c)
    {
      DirtyStays(bufs, t, bufs'[t], c);
    }
    forall j | j in writing
      ensures HeldWriter(bufs', d', j)
    {
      assert HeldWriter(bufs, d, j);
    }
  }

  /** bwrite of the newest contents of a block to its home: the buffer need not stay. */
  lemma {:induction false} WroteHome(bufs: seq<Buf>, d: Image, newest: map<Word, Block>, pinned: set<Word>,
                                     writing: map<nat, nat>, t: nat, data: Block)
    requires Sync(bufs, d, newest, pinned, writing) && HeldWriter(bufs, d, t) && t !in writing
    requires bufs[t].blockno in newest ==> newest[bufs[t].blockno] == data
    ensures var b := bufs[t];
            Sync(bufs[t := b.(dirty := false, data := data)], d[b.blockno := data], newest, pinned - {b.blockno},
                 writing)
  {
    var b, bufs' := bufs[t], bufs[t := bufs[t].(dirty := false, data := data)];
    var d', pinned' := d[b.blockno := data], pinned - {b.blockno};
    OnlyBufferOf(bufs, t);
    UniqueKept(bufs, t, bufs'[t]);
    hide Unique;
    forall j: nat | j < |bufs'|
      ensures DirtyOk(bufs', pinned', j) && HoldsNewest(bufs', d', newest, writing, j)
    {
      assert DirtyOk(bufs, pinned, j) && HoldsNewest(bufs, d, newest, writing, j);
      assert j != t && bufs[j].dev == ROOTDEV ==> bufs[j].blockno != b.blockno;
    }
    forall c | c in pinned'
      ensures DirtyFor(bufs', c)
    {
      DirtyStays(bufs, t, bufs'[t], c);
    }
    forall j | j in writing
      ensures HeldWriter(bufs', d', j)
    {
      assert HeldWriter(bufs, d, j);
    }
  }

  /** When nothing is pinned any more the disk is up to date. */
  lemma {:induction false} AllHome(bufs: seq<Buf>, d: Image, newest: map<Word, Block>, writing: map<nat, nat>)
    requires Sync(bufs, d, newest, {}, writing)
    ensures Sync(bufs, d, map[], {}, writing)
  {
    hide Unique;
    forall i: nat | i < |bufs|
      ensures DirtyOk(bufs, {}, i) && HoldsNewest(bufs, d, map[], writing, i)
    {
      assert DirtyOk(bufs, {}, i) && HoldsNewest(bufs, d, newest, writing, i);
    }
  }

  // ---- when bget finds no buffer ----

  function Held(bufs: seq<Buf>): (held: set<nat>) {
    set i: nat | i < |bufs| && bufs[i].refcnt > 0
  }

  function Dirty(bufs: seq<Buf>): (dirty: set<nat>) {
    set i: nat | i < |bufs| && bufs[i].dirty
  }

  function UpTo(n: nat): (r: set<nat>)
    ensures |r| == n && forall i: nat :: i in r <==> i < n
  {
    if n == 0 then {} else UpTo(n - 1) + {n - 1}
  }

  lemma {:induction false} SameSize(bufs: seq<Buf>, dirty: set<nat>, pinned: set<Word>)
    requires forall i :: i in dirty ==> i < |bufs| && bufs[i].blockno in pinned
    requires forall i, j :: i in dirty && j in dirty && bufs[i].blockno == bufs[j].blockno ==> i == j
    requires forall b :: b in pinned ==> exists i :: i in dirty && bufs[i].blockno == b
    ensures |dirty| == |pinned|
    decreases dirty
  {
    if dirty == {} {
      assert pinned == {};
    } else {
      var i :| i in dirty;
      SameSize(bufs, dirty - {i}, pinned - {bufs[i].blockno});
    }
  }

  /** There are as many dirty buffers as pinned blocks. */
  lemma {:induction false} DirtySize(bufs: seq<Buf>, d: Image, newest: map<Word, Block>, pinned: set<Word>,
                                     writing: map<nat, nat>)
    requires Sync(bufs, d, newest, pinned, writing)
    ensures |Dirty(bufs)| == |pinned|
  {
    var dirty := Dirty(bufs);
    forall i | i in dirty
      ensures i < |bufs| && bufs[i].blockno in pinned
    {
      assert DirtyOk(bufs, pinned, i);
    }
    forall i, j | i in dirty && j in dirty && bufs[i].blockno == bufs[j].blockno
      ensures i == j
    {
      assert DirtyOk(bufs, pinned, i) && DirtyOk(bufs, pinned, j);
      OnlyBufferOf(bufs, i);
      assert bufs[j].Holds(ROOTDEV, bufs[i].blockno);
    }
    forall b | b in pinned
      ensures exists i :: i in dirty && bufs[i].blockno == b
    {
      assert DirtyFor(bufs, b);
      var k: nat :| k < |bufs| && bufs[k].dirty && bufs[k].blockno == b;
      assert k in dirty;
    }
    SameSize(bufs, dirty, pinned);
  }

  lemma {:induction false} FreeCount(bufs: seq<Buf>, n: nat)
    requires |bufs| == n
    ensures HasFree(bufs) <==> |Dirty(bufs)| + |Held(bufs) - Dirty(bufs)| < n
  {
    var all, used := UpTo(n), Dirty(bufs) + (Held(bufs) - Dirty(bufs));
    assert used <= all;
    if HasFree(bufs) {
      var i: nat :| i < |bufs| && bufs[i].Free();
      SmallerSet(used, all, i);
    } else {
      forall i | i in all
        ensures i in used
      {
        assert !bufs[i].Free();
      }
      assert used == all;
    }
  }

  /** A buffer can be recycled exactly if the pinned blocks and the clean buffers in use are fewer than NBUF. */
  lemma {:induction false} FreeIff(bufs: seq<Buf>, d: Image, newest: map<Word, Block>, pinned: set<Word>,
                                   writing: map<nat, nat>)
    requires Sync(bufs, d, newest, pinned, writing)
    ensures |bufs| == NBUF && (HasFree(bufs) <==> |pinned| + |Held(bufs) - Dirty(bufs)| < NBUF)
  {
    hide HasFree, Held, Dirty;
    DirtySize(bufs, d, newest, pinned, writing);
    FreeCount(bufs, NBUF);
  }

  /** When NBUF blocks are pinned no other block can be cached. */
  lemma {:induction false} FullCacheHasNoRoom(bufs: seq<Buf>, d: Image, newest: map<Word, Block>, pinned: set<Word>,
                                              writing: map<nat, nat>, b: Word)
    requires Sync(bufs, d, newest, pinned, writing) && |pinned| >= NBUF && b !in pinned
    ensures !Room(bufs, b)
  {
    FreeIff(bufs, d, newest, pinned, writing);
    DirtySize(bufs, d, newest, pinned, writing);
    forall i: nat | i < |bufs|
      ensures !bufs[i].Holds(ROOTDEV, b)
    {
      assert DirtyOk(bufs, pinned, i);
      if !bufs[i].dirty { FewerDirty(bufs, |bufs|, i); }
    }
  }

  lemma {:induction false} FewerDirty(bufs: seq<Buf>, n: nat, i: nat)
    requires i < |bufs| == n && !bufs[i].dirty
    ensures |Dirty(bufs)| < n
  {
    SmallerSet(Dirty(bufs), UpTo(n), i);
  }

  lemma {:induction false} SmallerSet(a: set<nat>, b: set<nat>, x: nat)
    requires a <= b && x in b && x !in a
    ensures |a| < |b|
  {
    assert b == a + (b - a) && x in b - a;
  }
}
