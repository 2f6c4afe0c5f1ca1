/**
 The disk of memide.c and the buffer cache of bio.c: NBUF buffers on a circular doubly linked list,
 most recently released first.  Pointers to buffers are indexes; `HEAD` is the list head.
 */
module BufferCache {
  import opened Blocks

  const NBUF: nat := 30
  const HEAD: nat := 30
  const ROOTDEV: Word := 1

  /** The disk, and every image it has had since power-on, one per block write. */
  class Disk {
    var blocks: Image
    ghost var history: seq<Image>

    constructor (image: Image)
      ensures blocks == image && history == [image]
    {
      blocks := image;
      history := [image];
    }

    method Write(b: nat, data: Block)
      requires b < |blocks|
      modifies this
      ensures blocks == old(blocks)[b := data] && history == old(history) + [blocks]
    {
      blocks := blocks[b := data];
      history := history + [blocks];
    }
  }

  datatype Buf = Buf(valid: bool, dirty: bool, dev: Word, blockno: Word, refcnt: nat, data: Block) {
    predicate Holds(d: Word, b: Word) {
      dev == d && blockno == b
    }

    /** bget may give this buffer to another block. */
    predicate Free() {
      refcnt == 0 && !dirty
    }
  }

  /** Some buffer caches block `b` of device `d`. */
  ghost predicate IsCached(bufs: seq<Buf>, d: Word, b: Word) {
    exists i :: 0 <= i < |bufs| && bufs[i].Holds(d, b)
  }

  ghost predicate HasFree(bufs: seq<Buf>) {
    exists i :: 0 <= i < |bufs| && bufs[i].Free()
  }

  /** At most one buffer for each block of the root device. */
  ghost predicate Unique(bufs: seq<Buf>) {
    forall i, j :: 0 <= i < j < |bufs| ==> !SameBlock(bufs, i, j)
  }

  ghost predicate SameBlock(bufs: seq<Buf>, i: nat, j: nat)
    requires i < |bufs| && j < |bufs|
  {
    bufs[i].dev == ROOTDEV && bufs[j].dev == ROOTDEV && bufs[i].blockno == bufs[j].blockno
  }

  lemma {:induction false} OnlyBufferOf(bufs: seq<Buf>, i: nat)
    requires Unique(bufs) && i < |bufs|
    ensures bufs[i].dev == ROOTDEV ==> forall j :: 0 <= j < |bufs| && bufs[j].Holds(ROOTDEV, bufs[i].blockno) ==> j == i
  {
    if bufs[i].dev == ROOTDEV {
      forall j | 0 <= j < |bufs| && bufs[j].Holds(ROOTDEV, bufs[i].blockno)
        ensures j == i
      {
        assert (j < i ==> !SameBlock(bufs, j, i)) && (i < j ==> !SameBlock(bufs, i, j));
      }
    }
  }

  /** A buffer may take over a block that no other buffer caches. */
  lemma {:induction false} UniqueAfter(bufs: seq<Buf>, i: nat, b: Buf)
    requires Unique(bufs) && i < |bufs|
    requires b.dev == ROOTDEV ==> forall j :: 0 <= j < |bufs| && j != i ==> !bufs[j].Holds(ROOTDEV, b.blockno)
    ensures Unique(bufs[i := b])
  {
    var bufs' := bufs[i := b];
    forall j, k | 0 <= j < k < |bufs'|
      ensures !SameBlock(bufs', j, k)
    {
      assert !SameBlock(bufs, j, k);
    }
  }

  /** A buffer may change anything but its block. */
  lemma {:induction false} UniqueKept(bufs: seq<Buf>, i: nat, b: Buf)
    requires Unique(bufs) && i < |bufs| && b.dev == bufs[i].dev && b.blockno == bufs[i].blockno
    ensures Unique(bufs[i := b])
  {
    OnlyBufferOf(bufs, i);
    UniqueAfter(bufs, i, b);
  }

  /** The k-th element of the ring: the head, then the buffers in order, then the head again. */
  function Nth(order: seq<nat>, k: nat): nat
    requires k <= |order| + 1
  {
    if k == 0 || k == |order| + 1 then HEAD else order[k - 1]
  }

  /** The pointers link the head and the buffers of `order` into one ring, in both directions. */
  ghost predicate Linked(next: seq<nat>, prev: seq<nat>, order: seq<nat>) {
    && |next| == |prev| == NBUF + 1
    && (forall k :: 0 <= k < |order| ==> order[k] < NBUF)
    && (forall k :: 0 <= k <= |order| ==> next[Nth(order, k)] == Nth(order, k + 1))
    && (forall k :: 1 <= k <= |order| + 1 ==> prev[Nth(order, k)] == Nth(order, k - 1))
  }

  /** `order` lists every buffer once; `pos` is its inverse. */
  ghost predicate Permutes(order: seq<nat>, pos: seq<nat>) {
    && |order| == |pos| == NBUF
    && (forall k :: 0 <= k < NBUF ==> order[k] < NBUF && pos[order[k]] == k)
    && (forall i :: 0 <= i < NBUF ==> pos[i] < NBUF && order[pos[i]] == i)
  }

  /** Later in the list means released (for the last time) no later. */
  ghost predicate ByRelease(order: seq<nat>, released: seq<nat>, clock: nat) {
    && |order| == |released| == NBUF
    && (forall k :: 0 <= k < NBUF ==> order[k] < NBUF)
    && (forall i :: 0 <= i < NBUF ==> released[i] < clock)
    && (forall j, k :: 0 <= j < k < NBUF ==> NoEarlier(order, released, j, k))
  }

  ghost predicate NoEarlier(order: seq<nat>, released: seq<nat>, j: nat, k: nat)
    requires j < |order| && k < |order| && order[j] < |released| && order[k] < |released|
  {
    released[order[j]] >= released[order[k]]
  }

  /** `b` moved to the front. */
  function ToFront(order: seq<nat>, p: nat): seq<nat>
    requires p < |order|
  {
    [order[p]] + order[..p] + order[p + 1..]
  }

  function PosAfter(pos: seq<nat>, p: nat): seq<nat> {
    seq(|pos|, i requires 0 <= i < |pos| => if pos[i] == p then 0 else if pos[i] < p then pos[i] + 1 else pos[i])
  }

  lemma {:induction false} ToFrontPermutes(order: seq<nat>, pos: seq<nat>, p: nat)
    requires Permutes(order, pos) && p < NBUF
    ensures Permutes(ToFront(order, p), PosAfter(pos, p))
  {
    var o, q := ToFront(order, p), PosAfter(pos, p);
    forall k | 0 <= k < NBUF
      ensures o[k] < NBUF && q[o[k]] == k
    {
      assert o[k] == if k == 0 then order[p] else if k <= p then order[k - 1] else order[k];
    }
    forall i | 0 <= i < NBUF
      ensures q[i] < NBUF && o[q[i]] == i
    {
    }
  }

  /** Where the k-th buffer (k > 0) was before the one at `p` moved to the front. */
  function Before(p: nat, k: nat): nat {
    if 0 < k <= p then k - 1 else k
  }

  /** Releasing `b` for the last time at `clock` keeps the list in order of release. */
  lemma {:induction false} ToFrontByRelease(order: seq<nat>, pos: seq<nat>, released: seq<nat>, clock: nat, p: nat)
    requires Permutes(order, pos) && ByRelease(order, released, clock) && p < NBUF
    ensures ByRelease(ToFront(order, p), released[order[p] := clock], clock + 1)
  {
    var o, r := ToFront(order, p), released[order[p] := clock];
    forall k | 0 <= k < NBUF
      ensures o[k] < NBUF
    {
    }
    hide ToFront;
    forall j, k | 0 <= j < k < NBUF
      ensures NoEarlier(o, r, j, k)
    {
      if j > 0 {
        assert NoEarlier(order, released, Before(p, j), Before(p, k));
      }
    }
  }

  /** The order binit leaves: the last buffer first, none released yet. */
  function FirstOrder(n: nat): seq<nat> {
    seq(n, k requires 0 <= k < n => n - 1 - k)
  }

  lemma {:induction false} FirstOrderGrows(b: nat)
    ensures FirstOrder(b + 1) == [b] + FirstOrder(b) && b !in FirstOrder(b) && Distinct(FirstOrder(b))
  {
  }

  lemma {:induction false} FirstOrderIs(released: seq<nat>)
    requires |released| == NBUF && forall i :: 0 <= i < NBUF ==> released[i] == 0
    ensures Permutes(FirstOrder(NBUF), FirstOrder(NBUF)) && ByRelease(FirstOrder(NBUF), released, 1)
  {
  }

  class Cache {
    const disk: Disk
    const bufs: array<Buf>
    const next: array<nat>
    const prev: array<nat>
    ghost var order: seq<nat>
    ghost var pos: seq<nat>
    ghost var released: seq<nat>
    ghost var clock: nat

    ghost function Repr(): set<object> {
      {this, disk, bufs, next, prev}
    }

    ghost predicate Valid()
      reads Repr()
    {
      && bufs.Length == NBUF && next.Length == prev.Length == NBUF + 1 && next != prev
      && Linked(next[..], prev[..], order)
      && Permutes(order, pos)
      && ByRelease(order, released, clock)
      && Unique(bufs[..])
    }

    /** binit: the empty ring, then each buffer put at its front. */
    constructor (disk: Disk)
      ensures Valid() && this.disk == disk && fresh(Repr() - {disk})
      ensures forall i :: 0 <= i < NBUF ==> bufs[i] == Buf(false, false, 0, 0, 0, ZeroBlock())
      ensures order == FirstOrder(NBUF)
    {
      this.disk := disk;
      this.bufs := new Buf[NBUF](_ => Buf(false, false, 0, 0, 0, ZeroBlock()));
      this.next := new nat[NBUF + 1](_ => 0);
      this.prev := new nat[NBUF + 1](_ => 0);
      order := [];
      new;
      prev[HEAD] := HEAD;
      next[HEAD] := HEAD;
      for b := 0 to NBUF
        invariant order == FirstOrder(b)
        invariant Linked(next[..], prev[..], order)
        invariant fresh(next) && fresh(prev) && next.Length == prev.Length == NBUF + 1
        invariant forall i :: 0 <= i < NBUF ==> bufs[i] == Buf(false, false, 0, 0, 0, ZeroBlock())
      {
        ghost var before := order;
        ghost var n0, p0 := next[..], prev[..];
        assert Nth(order, 0) == HEAD == Nth(order, b + 1) && next[HEAD] == Nth(order, 1);
        next[b] := next[HEAD];
        prev[b] := HEAD;
        prev[next[HEAD]] := b;
        next[HEAD] := b;
        order := [b] + before;
        FirstOrderGrows(b);
        PushLinked(n0, p0, next[..], prev[..], before, b);
      }
      hide Linked, Permutes, ByRelease;
      pos := FirstOrder(NBUF);
      released := seq(NBUF, i => 0);
      clock := 1;
      FirstOrderIs(released);
    }

    /**
     bget: the buffer that caches the block, or else the one among the free buffers that was
     released longest ago.  `ok` is false where the source panics with "bget: no buffers".
     */
    method Bget(dev: Word, blockno: Word) returns (ok: bool, i: nat)
      requires Valid()
      modifies bufs
      ensures Valid()
      ensures ok <==> IsCached(old(bufs[..]), dev, blockno) || HasFree(old(bufs[..]))
      ensures ok ==> i < NBUF && bufs[i].Holds(dev, blockno)
      ensures ok && IsCached(old(bufs[..]), dev, blockno) ==>
                && old(bufs[i].Holds(dev, blockno))
                && bufs[..] == old(bufs[..])[i := old(bufs[i]).(refcnt := old(bufs[i]).refcnt + 1)]
      ensures ok && !IsCached(old(bufs[..]), dev, blockno) ==>
                && old(bufs[i].Free())
                && (forall j :: 0 <= j < NBUF && old(bufs[j].Free()) ==> released[i] <= released[j])
                && bufs[..] == old(bufs[..])[i := Buf(false, false, dev, blockno, 1, old(bufs[i]).data)]
      ensures !ok ==> bufs[..] == old(bufs[..])
    {
      assert Nth(order, 0) == HEAD == Nth(order, NBUF + 1);
      ghost var k := 1;
      var b := next[HEAD];
      while b != HEAD
        invariant 1 <= k <= NBUF + 1 && b == Nth(order, k)
        invariant forall j :: 1 <= j < k ==> !bufs[Nth(order, j)].Holds(dev, blockno)
        decreases NBUF + 1 - k
      {
        if bufs[b].Holds(dev, blockno) {
          UniqueKept(bufs[..], b, bufs[b].(refcnt := bufs[b].refcnt + 1));
          bufs[b] := bufs[b].(refcnt := bufs[b].refcnt + 1);
          assert bufs[..] == old(bufs[..])[b := bufs[b]];
          return true, b;
        }
        b := next[b];
        k := k + 1;
      }
      forall j | 0 <= j < NBUF
        ensures !bufs[j].Holds(dev, blockno)
      {
        assert Nth(order, pos[j] + 1) == j;
      }
      k := NBUF;
      b := prev[HEAD];
      while b != HEAD
        invariant 0 <= k <= NBUF && b == Nth(order, k)
        invariant forall j :: k < j <= NBUF ==> !bufs[Nth(order, j)].Free()
        invariant bufs[..] == old(bufs[..])
        decreases k
      {
        if bufs[b].Free() {
          forall j | 0 <= j < NBUF && bufs[j].Free()
            ensures released[b] <= released[j]
          {
            assert Nth(order, pos[j] + 1) == j;
            assert pos[j] < k - 1 ==> NoEarlier(order, released, pos[j], k - 1);
          }
          UniqueAfter(bufs[..], b, Buf(false, false, dev, blockno, 1, bufs[b].data));
          bufs[b] := Buf(false, false, dev, blockno, 1, bufs[b].data);
          assert bufs[..] == old(bufs[..])[b := bufs[b]];
          return true, b;
        }
        b := prev[b];
        k := k - 1;
      }
      forall j | 0 <= j < NBUF
        ensures !bufs[j].Free()
      {
        assert Nth(order, pos[j] + 1) == j;
      }
      return false, 0;
    }

    /** iderw on a locked buffer that is dirty or not yet valid; the panics are preconditions. */
    method Iderw(i: nat)
      requires Valid() && i < NBUF && bufs[i].refcnt > 0
      requires bufs[i].dirty || !bufs[i].valid
      requires bufs[i].dev == ROOTDEV && bufs[i].blockno < |disk.blocks|
      modifies bufs, disk
      ensures Valid()
      ensures old(bufs[i]).dirty ==>
                && disk.blocks == old(disk.blocks)[old(bufs[i]).blockno := old(bufs[i]).data]
                && disk.history == old(disk.history) + [disk.blocks]
                && bufs[..] == old(bufs[..])[i := old(bufs[i]).(dirty := false, valid := true)]
      ensures !old(bufs[i]).dirty ==>
                && disk.blocks == old(disk.blocks) && disk.history == old(disk.history)
                && bufs[..] == old(bufs[..])[i := old(bufs[i]).(data := disk.blocks[old(bufs[i]).blockno],
                                                                valid := true)]
    {
      var b := bufs[i];
      UniqueKept(bufs[..], i, b.(dirty := false, valid := true));
      UniqueKept(bufs[..], i, b.(data := disk.blocks[b.blockno], valid := true));
      if b.dirty {
        disk.Write(b.blockno, b.data);
        bufs[i] := b.(dirty := false, valid := true);
      } else {
        bufs[i] := b.(data := disk.blocks[b.blockno], valid := true);
      }
      assert bufs[..] == old(bufs[..])[i := bufs[i]];
    }

    /** bread: the block's buffer, filled from the disk if it is not valid. */
    method Bread(blockno: Word) returns (ok: bool, i: nat)
      requires Valid() && blockno < |disk.blocks|
      requires forall j :: 0 <= j < NBUF && bufs[j].Holds(ROOTDEV, blockno) && !bufs[j].valid ==> !bufs[j].dirty
      modifies bufs, disk
      ensures Valid() && disk.blocks == old(disk.blocks) && disk.history == old(disk.history)
      ensures ok <==> IsCached(old(bufs[..]), ROOTDEV, blockno) || HasFree(old(bufs[..]))
      ensures !ok ==> bufs[..] == old(bufs[..])
      ensures ok ==> i < NBUF && forall j :: 0 <= j < NBUF && old(bufs[j]).Holds(ROOTDEV, blockno) ==> j == i
      ensures ok && IsCached(old(bufs[..]), ROOTDEV, blockno) ==>
                var b := old(bufs[i]);
                && b.Holds(ROOTDEV, blockno)
                && bufs[..] == old(bufs[..])[i := b.(refcnt := b.refcnt + 1, valid := true,
                                                     data := if b.valid then b.data else disk.blocks[blockno])]
      ensures ok && !IsCached(old(bufs[..]), ROOTDEV, blockno) ==>
                && old(bufs[i].Free())
                && bufs[..] == old(bufs[..])[i := Buf(true, false, ROOTDEV, blockno, 1, disk.blocks[blockno])]
    {
      ok, i := Bget(ROOTDEV, blockno);
      if ok && IsCached(old(bufs[..]), ROOTDEV, blockno) {
        OnlyBufferOf(old(bufs[..]), i);
      }
      if ok && !bufs[i].valid {
        Iderw(i);
      }
    }

    /** A change of the held buffer's data or of its dirty flag, in memory only. */
    method Modify(i: nat, data: Block, dirty: bool)
      requires Valid() && i < NBUF && bufs[i].refcnt > 0
      modifies bufs
      ensures Valid()
      ensures bufs[..] == old(bufs[..])[i := old(bufs[i]).(data := data, dirty := dirty)]
    {
      UniqueKept(bufs[..], i, bufs[i].(data := data, dirty := dirty));
      bufs[i] := bufs[i].(data := data, dirty := dirty);
      assert bufs[..] == old(bufs[..])[i := bufs[i]];
    }

    /** bwrite: the held buffer's data goes to the disk. */
    method Bwrite(i: nat)
      requires Valid() && i < NBUF && bufs[i].refcnt > 0
      requires bufs[i].dev == ROOTDEV && bufs[i].blockno < |disk.blocks|
      modifies bufs, disk
      ensures Valid()
      ensures disk.blocks == old(disk.blocks)[old(bufs[i]).blockno := old(bufs[i]).data]
      ensures disk.history == old(disk.history) + [disk.blocks]
      ensures bufs[..] == old(bufs[..])[i := old(bufs[i]).(dirty := false, valid := true)]
    {
      Modify(i, bufs[i].data, true);
      Iderw(i);
    }

    /** brelse: the last release of a buffer makes it the most recently used one. */
    method Brelse(i: nat)
      requires Valid() && i < NBUF && bufs[i].refcnt > 0
      modifies this, bufs, next, prev
      ensures Valid()
      ensures bufs[..] == old(bufs[..])[i := old(bufs[i]).(refcnt := old(bufs[i]).refcnt - 1)]
      ensures old(bufs[i]).refcnt > 1 ==> order == old(order) && released == old(released)
      ensures old(bufs[i]).refcnt == 1 ==>
                order == ToFront(old(order), old(pos[i])) &&
                released == old(released)[i := old(clock)]
    {
      hide ByRelease, Linked, Permutes;
      UniqueKept(bufs[..], i, bufs[i].(refcnt := bufs[i].refcnt - 1));
      bufs[i] := bufs[i].(refcnt := bufs[i].refcnt - 1);
      assert bufs[..] == old(bufs[..])[i := bufs[i]];
      hide Unique;
      if bufs[i].refcnt == 0 {
        ghost var p := PosOf(order, pos, released, clock, i);
        Relink(i);
        ToFrontPermutes(order, pos, p);
        ToFrontByRelease(order, pos, released, clock, p);
        order, released, pos, clock := ToFront(order, p), released[i := clock], PosAfter(pos, p), clock + 1;
      }
    }

    /** The pointer stores of brelse: the buffer is unlinked and put right after the head. */
    method Relink(i: nat)
      requires next.Length == prev.Length == NBUF + 1 && next != prev && i < NBUF
      requires Linked(next[..], prev[..], order) && Permutes(order, pos)
      modifies next, prev
      ensures Linked(next[..], prev[..], ToFront(order, pos[i]))
    {
      ghost var o, p := order, pos[i];
      ghost var n0, p0 := next[..], prev[..];
      assert Nth(o, p + 1) == i && Nth(o, p) == prev[i] && Nth(o, p + 2) == next[i];
      assert Nth(o, 0) == HEAD && next[HEAD] == Nth(o, 1) && HEAD == Nth(o, NBUF + 1);
      prev[next[i]] := prev[i];
      next[prev[i]] := next[i];
      next[i] := next[HEAD];
      prev[i] := HEAD;
      prev[next[HEAD]] := i;
      next[HEAD] := i;
      UnlinkLinked(n0, p0, o, pos, p);
      DroppedRing(o, pos, p);
      PushLinked(n0[p0[i] := n0[i]], p0[n0[i] := p0[i]], next[..], prev[..], Dropped(o, p), i);
      assert ToFront(o, p) == [i] + Dropped(o, p);
    }
  }

  /** Where buffer `i` is on the list. */
  ghost function PosOf(order: seq<nat>, pos: seq<nat>, released: seq<nat>, clock: nat, i: nat): (p: nat)
    requires Permutes(order, pos) && ByRelease(order, released, clock) && i < NBUF
    ensures |pos| == |order| == |released| == NBUF && p == pos[i] < NBUF && order[p] == i
  {
    pos[i]
  }

  /** Linking a new buffer in after the head. */
  lemma {:induction false} PushLinked(next: seq<nat>, prev: seq<nat>, next': seq<nat>, prev': seq<nat>,
                                      order: seq<nat>, b: nat)
    requires Linked(next, prev, order) && Distinct(order) && b < NBUF && b !in order
    requires next[HEAD] <= HEAD
    requires next' == next[b := next[HEAD]][HEAD := b] && prev' == prev[b := HEAD][next[HEAD] := b]
    ensures Linked(next', prev', [b] + order)
  {
    var o := [b] + order;
    assert Nth(order, 0) == HEAD == Nth(order, |order| + 1) && next[HEAD] == Nth(order, 1);
    assert Nth(o, 0) == HEAD == Nth(o, |o| + 1) && Nth(o, 1) == b && Nth(o, 2) == Nth(order, 1);
    forall k | 2 <= k <= |o|
      ensures next'[Nth(o, k)] == Nth(o, k + 1)
    {
      assert Nth(o, k) == Nth(order, k - 1) && Nth(o, k + 1) == Nth(order, k);
    }
    forall k | 3 <= k <= |o| + 1
      ensures prev'[Nth(o, k)] == Nth(o, k - 1)
    {
      assert Nth(o, k) == Nth(order, k - 1) && Nth(o, k - 1) == Nth(order, k - 2);
      assert Nth(order, k - 1) != Nth(order, 1);
    }
  }

  function Dropped(order: seq<nat>, p: nat): (o: seq<nat>)
    requires p < |order|
    ensures |o| == |order| - 1
    ensures forall k :: 0 <= k < |o| ==> o[k] == order[if k < p then k else k + 1]
  {
    order[..p] + order[p + 1..]
  }

  lemma {:induction false} DroppedRing(order: seq<nat>, pos: seq<nat>, p: nat)
    requires Permutes(order, pos) && p < NBUF
    ensures order[p] !in Dropped(order, p) && Distinct(Dropped(order, p))
    ensures forall k :: 0 <= k <= NBUF ==> Nth(Dropped(order, p), k) == Nth(order, if k <= p then k else k + 1)
  {
    var o := Dropped(order, p);
    assert forall k :: 0 <= k < |o| ==> pos[o[k]] == if k < p then k else k + 1;
  }

  /** Unlinking the buffer at `p` leaves the ring of the others. */
  lemma {:induction false} UnlinkLinked(next: seq<nat>, prev: seq<nat>, order: seq<nat>, pos: seq<nat>, p: nat)
    requires Linked(next, prev, order) && Permutes(order, pos) && p < NBUF
    requires next[order[p]] <= HEAD && prev[order[p]] <= HEAD
    ensures var i := order[p];
            Linked(next[prev[i] := next[i]], prev[next[i] := prev[i]], Dropped(order, p))
  {
    var i, o := order[p], Dropped(order, p);
    assert Nth(order, p + 1) == i && Nth(order, p) == prev[i] && Nth(order, p + 2) == next[i];
    DroppedRing(order, pos, p);
    var n1, p1 := next[prev[i] := next[i]], prev[next[i] := prev[i]];
    forall k | 0 <= k <= |o|
      ensures n1[Nth(o, k)] == Nth(o, k + 1)
    {
    }
    forall k | 1 <= k <= |o| + 1
      ensures p1[Nth(o, k)] == Nth(o, k - 1)
    {
    }
  }
}
