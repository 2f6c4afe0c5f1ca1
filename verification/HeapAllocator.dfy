/**
 The Kernighan and Ritchie allocator of umalloc.c.

 Addresses count units of one Header (8 bytes).  Payload bytes are not modelled: a header is all
 the allocator reads or writes.  The answer of sbrk() is a parameter of `Malloc`.
 */
module HeapAllocator {
  import opened Blocks
  import opened Options

  const HEADER_BYTES: nat := 8
  const MIN_UNITS: nat := 4096

  datatype Header = Header(ptr: nat, size: nat)

  /** A block of `size` units at `addr`, its header included. */
  datatype Blk = Blk(addr: nat, size: nat) {
    function End(): nat {
      addr + size
    }

    predicate Covers(u: nat) {
      addr <= u < addr + size
    }
  }

  // ---- sizes in C arithmetic ----

  /** nunits of malloc, in 32-bit arithmetic. */
  function NUnits(nbytes: nat): (n: nat)
    ensures 1 <= n <= UINT / HEADER_BYTES
  {
    (nbytes + HEADER_BYTES - 1) % UINT / HEADER_BYTES + 1
  }

  /** The block malloc takes has room for the request, unless adding 7 to it wraps around. */
  lemma {:induction false} NUnitsFit(nbytes: nat)
    requires nbytes < UINT
    ensures HEADER_BYTES * (NUnits(nbytes) - 1) >= nbytes <==> nbytes <= UINT - HEADER_BYTES
  {
  }

  /** The units morecore asks for. */
  function MoreUnits(nunits: nat): nat {
    if nunits < MIN_UNITS then MIN_UNITS else nunits
  }

  /** The argument sbrk() receives: the 32-bit product, as a signed int. */
  function SbrkBytes(nu: nat): int {
    var n := nu * HEADER_BYTES % UINT;
    if n < UINT / 2 then n else n - UINT
  }

  /** sbrk() is asked for all of the units exactly when they are fewer than 2^28. */
  lemma {:induction false} SbrkBytesExact(nbytes: nat)
    requires nbytes < UINT
    ensures var nu := MoreUnits(NUnits(nbytes));
            SbrkBytes(nu) == HEADER_BYTES * nu <==> NUnits(nbytes) < 0x1000_0000
  {
  }

  // ---- the free list as a sequence of blocks ----

  /** Ascending addresses, with a gap after every block: no two free blocks touch. */
  ghost predicate Apart(blocks: seq<Blk>) {
    forall i: nat :: i < |blocks| ==> GapAfter(blocks, i)
  }

  ghost predicate GapAfter(blocks: seq<Blk>, i: nat) {
    i + 1 < |blocks| ==> blocks[i].End() < blocks[i + 1].addr
  }

  function NextIndex(n: nat, i: nat): (j: nat)
    requires i < n
    ensures j < n
  {
    if i + 1 == n then 0 else i + 1
  }

  /** The headers link the blocks in order, the last one back to the first: one wrap point. */
  ghost predicate Linked(hdr: map<nat, Header>, blocks: seq<Blk>) {
    && (forall i :: 0 <= i < |blocks| ==> blocks[i].addr in hdr && hdr[blocks[i].addr].size == blocks[i].size)
    && (forall i: nat :: i < |blocks| ==> LinkAt(hdr, blocks, i))
  }

  ghost predicate LinkAt(hdr: map<nat, Header>, blocks: seq<Blk>, i: nat)
    requires i < |blocks| && blocks[i].addr in hdr
  {
    hdr[blocks[i].addr].ptr == blocks[NextIndex(|blocks|, i)].addr
  }

  ghost predicate FreeAt(blocks: seq<Blk>, u: nat) {
    exists i :: 0 <= i < |blocks| && blocks[i].Covers(u)
  }

  ghost predicate LiveAt(live: map<nat, nat>, u: nat) {
    exists a :: a in live && Blk(a, live[a]).Covers(u)
  }

  ghost predicate Disjoint(a: Blk, b: Blk) {
    a.End() <= b.addr || b.End() <= a.addr
  }

  lemma {:induction false} ApartFar(blocks: seq<Blk>, i: nat, j: nat)
    requires Apart(blocks) && i < j < |blocks|
    ensures blocks[i].End() < blocks[j].addr
    decreases j
  {
    assert GapAfter(blocks, j - 1);
    if i + 1 < j {
      ApartFar(blocks, i, j - 1);
    }
  }

  /** Different blocks of the list have different addresses. */
  lemma {:induction false} ApartDistinct(blocks: seq<Blk>, i: nat, j: nat)
    requires Apart(blocks) && i < |blocks| && j < |blocks|
    ensures i != j ==> blocks[i].addr != blocks[j].addr && Disjoint(blocks[i], blocks[j])
    ensures blocks[i].addr == blocks[j].addr ==> i == j
  {
    if i < j {
      ApartFar(blocks, i, j);
    } else if j < i {
      ApartFar(blocks, j, i);
    }
  }

  /** Ascending addresses; neighbours may touch. */
  ghost predicate Ascending(blocks: seq<Blk>) {
    forall i: nat :: i < |blocks| ==> AscendsAfter(blocks, i)
  }

  ghost predicate AscendsAfter(blocks: seq<Blk>, i: nat) {
    i + 1 < |blocks| ==> blocks[i].End() <= blocks[i + 1].addr && blocks[i].addr < blocks[i + 1].addr
  }

  lemma {:induction false} AscendingFar(blocks: seq<Blk>, i: nat, j: nat)
    requires Ascending(blocks) && i < j < |blocks|
    ensures blocks[i].End() <= blocks[j].addr && blocks[i].addr < blocks[j].addr
    decreases j
  {
    assert AscendsAfter(blocks, j - 1);
    if i + 1 < j {
      AscendingFar(blocks, i, j - 1);
    }
  }

  /** Block `i` and the one after it made one. */
  function Merge(blocks: seq<Blk>, i: nat): (m: seq<Blk>)
    requires i + 1 < |blocks|
    ensures |m| == |blocks| - 1
  {
    blocks[..i] + [Blk(blocks[i].addr, blocks[i].size + blocks[i + 1].size)] + blocks[i + 2..]
  }

  /** The elements of `Merge`. */
  function MergedAt(blocks: seq<Blk>, i: nat, k: nat): Blk
    requires i + 1 < |blocks| && k + 1 < |blocks|
  {
    if k < i then blocks[k]
    else if k == i then Blk(blocks[i].addr, blocks[i].size + blocks[i + 1].size)
    else blocks[k + 1]
  }

  lemma {:induction false} MergeAt(blocks: seq<Blk>, i: nat, k: nat)
    requires i + 1 < |blocks| && k + 1 < |blocks|
    ensures Merge(blocks, i)[k] == MergedAt(blocks, i, k)
  {
  }

  function MergeIfTouching(blocks: seq<Blk>, i: nat): seq<Blk> {
    if i + 1 < |blocks| && blocks[i].End() == blocks[i + 1].addr then Merge(blocks, i) else blocks
  }

  function Add(blocks: seq<Blk>, t: nat, b: Blk): (l: seq<Blk>)
    requires t < |blocks|
    ensures |l| == |blocks| + 1
  {
    blocks[..t + 1] + [b] + blocks[t + 1..]
  }

  /** The elements of `Add`. */
  function AddedAt(blocks: seq<Blk>, t: nat, b: Blk, k: nat): Blk
    requires t < |blocks| && k <= |blocks|
  {
    if k <= t then blocks[k] else if k == t + 1 then b else blocks[k - 1]
  }

  lemma {:induction false} AddAt(blocks: seq<Blk>, t: nat, b: Blk, k: nat)
    requires t < |blocks| && k <= |blocks|
    ensures Add(blocks, t, b)[k] == AddedAt(blocks, t, b, k)
  {
  }

  /** `b` put in after the t-th block and joined with the neighbours it touches, upper one first. */
  function Insert(blocks: seq<Blk>, t: nat, b: Blk): seq<Blk>
    requires t < |blocks|
  {
    MergeIfTouching(MergeIfTouching(Add(blocks, t, b), t + 1), t)
  }

  /** `b` fits between the t-th block and the one after it. */
  ghost predicate Between(blocks: seq<Blk>, t: nat, b: Blk) {
    && t < |blocks|
    && blocks[t].addr < b.addr && blocks[t].End() <= b.addr && b.size > 0
    && (t + 1 < |blocks| ==> b.End() <= blocks[t + 1].addr)
  }

  /** Joining block `i` to its neighbour, if they touch, closes the only place without a gap there. */
  lemma {:induction false} MergeKeepsOrder(blocks: seq<Blk>, i: nat)
    requires Ascending(blocks) && i < |blocks|
    requires forall k: nat :: k > i && k < |blocks| ==> GapAfter(blocks, k)
    ensures var m := MergeIfTouching(blocks, i);
            && Ascending(m) && i < |m| && m[i].addr == blocks[i].addr
            && (forall k: nat :: k < i ==> m[k] == blocks[k])
            && (forall k: nat :: k >= i && k < |m| ==> GapAfter(m, k))
  {
    var m := MergeIfTouching(blocks, i);
    var touching := i + 1 < |blocks| && blocks[i].End() == blocks[i + 1].addr;
    assert AscendsAfter(blocks, i) && (i + 1 < |blocks| ==> GapAfter(blocks, i + 1) && AscendsAfter(blocks, i + 1));
    forall k: nat | k < |m|
      ensures AscendsAfter(m, k) && (k >= i ==> GapAfter(m, k))
      ensures k < i ==> m[k] == blocks[k]
      ensures m[i].addr == blocks[i].addr
    {
      if touching {
        MergeAt(blocks, i, k);
        MergeAt(blocks, i, i);
        if k + 1 < |m| { MergeAt(blocks, i, k + 1); }
      }
      assert AscendsAfter(blocks, k) && (k + 1 < |blocks| ==> AscendsAfter(blocks, k + 1));
      assert k > i ==> GapAfter(blocks, k) && (k + 1 < |blocks| ==> GapAfter(blocks, k + 1));
    }
  }

  lemma {:induction false} AddKeepsOrder(blocks: seq<Blk>, t: nat, b: Blk)
    requires Apart(blocks) && Between(blocks, t, b)
    ensures Ascending(Add(blocks, t, b))
    ensures forall k: nat :: k > t + 1 && k < |blocks| + 1 ==> GapAfter(Add(blocks, t, b), k)
  {
    var l := Add(blocks, t, b);
    forall k: nat | k < |l|
      ensures AscendsAfter(l, k) && (k > t + 1 ==> GapAfter(l, k))
    {
      AddAt(blocks, t, b, k);
      if k + 1 < |l| { AddAt(blocks, t, b, k + 1); }
      assert k < |blocks| ==> GapAfter(blocks, k);
      assert k > 0 ==> GapAfter(blocks, k - 1);
    }
  }

  lemma {:induction false} InsertApart(blocks: seq<Blk>, t: nat, b: Blk)
    requires Apart(blocks) && Between(blocks, t, b)
    ensures Apart(Insert(blocks, t, b)) && |Insert(blocks, t, b)| > t
    ensures forall k: nat :: k < t ==> Insert(blocks, t, b)[k] == blocks[k]
    ensures Insert(blocks, t, b)[t].addr == blocks[t].addr
  {
    var l := Add(blocks, t, b);
    AddKeepsOrder(blocks, t, b);
    MergeKeepsOrder(l, t + 1);
    var m := MergeIfTouching(l, t + 1);
    MergeKeepsOrder(m, t);
    var after := MergeIfTouching(m, t);
    forall k: nat | k <= t
      ensures l[k] == blocks[k]
    {
      AddAt(blocks, t, b, k);
    }
    forall k: nat | k < |after|
      ensures GapAfter(after, k)
    {
      if k < t {
        assert GapAfter(blocks, k);
      }
    }
  }

  lemma {:induction false} AddFreeAt(blocks: seq<Blk>, t: nat, b: Blk, u: nat)
    requires t < |blocks|
    ensures FreeAt(Add(blocks, t, b), u) <==> FreeAt(blocks, u) || b.Covers(u)
  {
    var l := Add(blocks, t, b);
    if i :| 0 <= i < |blocks| && blocks[i].Covers(u) {
      AddAt(blocks, t, b, if i <= t then i else i + 1);
    }
    AddAt(blocks, t, b, t + 1);
    if k :| 0 <= k < |l| && l[k].Covers(u) {
      AddAt(blocks, t, b, k);
    }
  }

  lemma {:induction false} MergeFreeAt(blocks: seq<Blk>, i: nat, u: nat)
    ensures FreeAt(MergeIfTouching(blocks, i), u) <==> FreeAt(blocks, u)
  {
    if i + 1 < |blocks| && blocks[i].End() == blocks[i + 1].addr {
      var m := Merge(blocks, i);
      if j :| 0 <= j < |blocks| && blocks[j].Covers(u) {
        MergeAt(blocks, i, if j <= i then j else j - 1);
        assert m[if j <= i then j else j - 1].Covers(u);
      }
      if k :| 0 <= k < |m| && m[k].Covers(u) {
        MergeAt(blocks, i, k);
        assert blocks[if k < i then k else k + 1].Covers(u) || blocks[i].Covers(u);
      }
    }
  }

  lemma {:induction false} InsertFreeAt(blocks: seq<Blk>, t: nat, b: Blk, u: nat)
    requires t < |blocks|
    ensures FreeAt(Insert(blocks, t, b), u) <==> FreeAt(blocks, u) || b.Covers(u)
  {
    var l := Add(blocks, t, b);
    AddFreeAt(blocks, t, b, u);
    MergeFreeAt(l, t + 1, u);
    MergeFreeAt(MergeIfTouching(l, t + 1), t, u);
  }

  /** What is disjoint from every block and from `b` is disjoint from the list with `b`. */
  lemma {:induction false} InsertDisjoint(blocks: seq<Blk>, t: nat, b: Blk, c: Blk)
    requires t < |blocks| && c.size > 0
    requires Disjoint(c, b) && forall i :: 0 <= i < |blocks| ==> Disjoint(c, blocks[i])
    ensures forall i :: 0 <= i < |Insert(blocks, t, b)| ==> Disjoint(c, Insert(blocks, t, b)[i])
  {
    var l := Add(blocks, t, b);
    forall k | 0 <= k < |l|
      ensures Disjoint(c, l[k])
    {
      AddAt(blocks, t, b, k);
    }
  }

  lemma {:induction false} InsertSizes(blocks: seq<Blk>, t: nat, b: Blk)
    requires Between(blocks, t, b) && blocks[0].size == 0
    requires forall i :: 0 < i < |blocks| ==> blocks[i].size > 0
    ensures Insert(blocks, t, b)[0] == blocks[0]
    ensures forall i :: 0 < i < |Insert(blocks, t, b)| ==> Insert(blocks, t, b)[i].size > 0
  {
    var l := Add(blocks, t, b);
    forall k | 0 <= k < |l|
      ensures k > 0 ==> l[k].size > 0
      ensures l[0] == blocks[0]
    {
      AddAt(blocks, t, b, k);
      AddAt(blocks, t, b, 0);
    }
    AddAt(blocks, t, b, t);
    AddAt(blocks, t, b, t + 1);
    var m := MergeIfTouching(l, t + 1);
    if m != l && t + 2 < |l| {
      MergeAt(l, t + 1, t);
      MergeAt(l, t + 1, t + 1);
    }
  }

  /** Joining in the headers: the lower block takes the upper one's link and its size. */
  lemma {:induction false} MergeLinked(hdr: map<nat, Header>, blocks: seq<Blk>, i: nat)
    requires Ascending(blocks) && Linked(hdr, blocks) && i + 1 < |blocks|
    ensures var p, q := blocks[i].addr, blocks[i + 1].addr;
            Linked(hdr[p := Header(hdr[q].ptr, hdr[p].size + hdr[q].size)], Merge(blocks, i))
  {
    var p, q, m := blocks[i].addr, blocks[i + 1].addr, Merge(blocks, i);
    var h := hdr[p := Header(hdr[q].ptr, hdr[p].size + hdr[q].size)];
    assert LinkAt(hdr, blocks, i) && LinkAt(hdr, blocks, i + 1);
    forall k: nat | k < |m|
      ensures m[k].addr in h && h[m[k].addr].size == m[k].size && LinkAt(h, m, k)
    {
      var j := if k <= i then k else k + 1;
      MergeAt(blocks, i, k);
      MergeAt(blocks, i, NextIndex(|m|, k));
      if j < i { AscendingFar(blocks, j, i); } else if j > i { AscendingFar(blocks, i, j); }
      assert LinkAt(hdr, blocks, j);
    }
  }

  lemma {:induction false} AddLinked(hdr: map<nat, Header>, blocks: seq<Blk>, t: nat, b: Blk)
    requires Apart(blocks) && Between(blocks, t, b) && Linked(hdr, blocks)
    requires forall k :: 0 <= k < |blocks| ==> blocks[k].addr != b.addr
    ensures var p := blocks[t].addr;
            Linked(hdr[b.addr := Header(hdr[p].ptr, b.size)][p := Header(b.addr, hdr[p].size)], Add(blocks, t, b))
  {
    var p, l := blocks[t].addr, Add(blocks, t, b);
    var h := hdr[b.addr := Header(hdr[p].ptr, b.size)][p := Header(b.addr, hdr[p].size)];
    assert LinkAt(hdr, blocks, t);
    forall k: nat | k < |l|
      ensures l[k].addr in h && h[l[k].addr].size == l[k].size && LinkAt(h, l, k)
    {
      AddAt(blocks, t, b, k);
      AddAt(blocks, t, b, NextIndex(|l|, k));
      if k != t + 1 {
        var j := if k <= t then k else k - 1;
        ApartDistinct(blocks, j, t);
        assert LinkAt(hdr, blocks, j);
      }
    }
  }

  /** The last of the first `k` blocks that lies below `a`. */
  ghost function PlaceOf(blocks: seq<Blk>, a: nat, k: nat): (t: nat)
    requires 0 < k <= |blocks| && blocks[0].addr < a
    ensures t < k && blocks[t].addr < a
    ensures forall j :: t < j < k ==> blocks[j].addr >= a
  {
    if blocks[k - 1].addr < a then k - 1 else PlaceOf(blocks, a, k - 1)
  }

  /** Memory outside the free list, as a live block or as fresh memory from sbrk(). */
  ghost predicate Outside(blocks: seq<Blk>, b: Blk) {
    && 0 < |blocks| && blocks[0].addr < b.addr && b.size > 0
    && (forall i :: 0 <= i < |blocks| ==> Disjoint(b, blocks[i]))
    && (forall i :: 0 < i < |blocks| ==> blocks[i].size > 0)
  }

  /** The tests of free()'s loop at block `i` find exactly the place of the freed block. */
  lemma {:induction false} LoopStopsAtPlace(blocks: seq<Blk>, b: Blk, i: nat)
    requires Apart(blocks) && Outside(blocks, b) && i < |blocks|
    ensures var p, q := blocks[i].addr, blocks[NextIndex(|blocks|, i)].addr;
            i == PlaceOf(blocks, b.addr, |blocks|) <==>
              (b.addr > p && b.addr < q) ||
              (p >= q && (b.addr > p || b.addr < q))
  {
    var n, t := |blocks|, PlaceOf(blocks, b.addr, |blocks|);
    if i + 1 < n {
      ApartFar(blocks, i, i + 1);
    }
    if i < t {
      ApartDistinct(blocks, i + 1, t);
      if i + 1 < t { ApartFar(blocks, i + 1, t); }
    } else if i > t && i + 1 == n && n > 1 {
      ApartFar(blocks, 0, i);
    } else if i == t && i + 1 == n && n > 1 {
      ApartFar(blocks, 0, i);
    }
  }

  /** The headers after the two joining steps of free(). */
  function AfterFree(hdr: map<nat, Header>, p: nat, bp: nat): map<nat, Header>
    requires p in hdr && bp in hdr && hdr[p].ptr in hdr
  {
    var next := hdr[p].ptr;
    var h1 := if bp + hdr[bp].size == next then hdr[bp := Header(hdr[next].ptr, hdr[bp].size + hdr[next].size)]
              else hdr[bp := Header(next, hdr[bp].size)];
    if p + h1[p].size == bp then h1[p := Header(h1[bp].ptr, h1[p].size + h1[bp].size)]
    else h1[p := Header(bp, h1[p].size)]
  }

  /** First the freed block is linked in, ... */
  function LinkedIn(hdr: map<nat, Header>, p: nat, bp: nat): map<nat, Header>
    requires p in hdr && bp in hdr
  {
    hdr[bp := Header(hdr[p].ptr, hdr[bp].size)][p := Header(bp, hdr[p].size)]
  }

  /** ... and then a block takes over the one its link leads to. */
  function TakesOver(hdr: map<nat, Header>, p: nat): map<nat, Header>
    requires p in hdr && hdr[p].ptr in hdr
  {
    hdr[p := Header(hdr[hdr[p].ptr].ptr, hdr[p].size + hdr[hdr[p].ptr].size)]
  }

  ghost predicate Touches(blocks: seq<Blk>, i: nat) {
    i + 1 < |blocks| && blocks[i].End() == blocks[i + 1].addr
  }

  lemma {:induction false} TakesOverLinked(hdr: map<nat, Header>, blocks: seq<Blk>, i: nat)
    requires Ascending(blocks) && Linked(hdr, blocks) && Touches(blocks, i)
    ensures hdr[blocks[i].addr].ptr == blocks[i + 1].addr
    ensures Linked(TakesOver(hdr, blocks[i].addr), MergeIfTouching(blocks, i))
  {
    assert LinkAt(hdr, blocks, i);
    MergeLinked(hdr, blocks, i);
  }

  /** The two comparisons of free() are the two questions whether the freed block touches a neighbour. */
  lemma {:induction false} ComparisonsAreTouches(hdr: map<nat, Header>, blocks: seq<Blk>, t: nat, b: Blk)
    requires Apart(blocks) && Linked(hdr, blocks) && Between(blocks, t, b) && Outside(blocks, b)
    ensures var l, next := Add(blocks, t, b), hdr[blocks[t].addr].ptr;
            && next in hdr && next != b.addr && blocks[t].addr != b.addr
            && (b.End() == next <==> Touches(l, t + 1)) && (b.End() == next ==> next != blocks[t].addr)
            && l[t] == blocks[t] && l[t + 1] == b && Ascending(l)
  {
    assert LinkAt(hdr, blocks, t);
    assert Disjoint(b, blocks[t]) && Disjoint(b, blocks[NextIndex(|blocks|, t)]);
    AddKeepsOrder(blocks, t, b);
    AddAt(blocks, t, b, t);
    AddAt(blocks, t, b, t + 1);
    if t + 1 < |blocks| {
      AddAt(blocks, t, b, t + 2);
      ApartFar(blocks, t, t + 1);
    }
  }

  /** The stores of free() are those two steps. */
  lemma {:induction false} AfterFreeIs(hdr: map<nat, Header>, p: nat, bp: nat)
    requires p in hdr && bp in hdr && hdr[p].ptr in hdr && p != bp && hdr[p].ptr != bp
    requires bp + hdr[bp].size == hdr[p].ptr ==> hdr[p].ptr != p
    ensures var h0 := LinkedIn(hdr, p, bp);
            var h1 := if bp + hdr[bp].size == hdr[p].ptr then TakesOver(h0, bp) else h0;
            AfterFree(hdr, p, bp) == if p + hdr[p].size == bp then TakesOver(h1, p) else h1
  {
  }

  lemma {:induction false} AfterFreeLinked(hdr: map<nat, Header>, blocks: seq<Blk>, t: nat, b: Blk)
    requires Apart(blocks) && Linked(hdr, blocks) && Between(blocks, t, b) && Outside(blocks, b)
    requires b.addr in hdr && hdr[b.addr].size == b.size
    ensures hdr[blocks[t].addr].ptr in hdr
    ensures Linked(AfterFree(hdr, blocks[t].addr, b.addr), Insert(blocks, t, b))
  {
    var p, l, h0 := blocks[t].addr, Add(blocks, t, b), LinkedIn(hdr, blocks[t].addr, b.addr);
    ComparisonsAreTouches(hdr, blocks, t, b);
    AddLinked(hdr, blocks, t, b);
    AddKeepsOrder(blocks, t, b);
    AfterFreeIs(hdr, p, b.addr);
    assert hdr[p].size == blocks[t].size;
    hide Ascending, Apart, Merge, AfterFree;
    if Touches(l, t + 1) {
      TakesOverLinked(h0, l, t + 1);
      JoinDown(TakesOver(h0, b.addr), l, t);
    } else {
      JoinDown(h0, l, t);
    }
  }

  lemma {:induction false} JoinDown(h1: map<nat, Header>, l: seq<Blk>, t: nat)
    requires t + 1 < |l| && Ascending(l) && (forall k: nat :: k > t + 1 && k < |l| ==> GapAfter(l, k))
    requires Linked(h1, MergeIfTouching(l, t + 1))
    ensures var p, m := l[t].addr, MergeIfTouching(l, t + 1);
            && p in h1 && h1[p].ptr in h1
            && Linked(if l[t].End() == l[t + 1].addr then TakesOver(h1, p) else h1, MergeIfTouching(m, t))
  {
    var m := MergeIfTouching(l, t + 1);
    MergeKeepsOrder(l, t + 1);
    assert m[t] == l[t] && m[t + 1].addr == l[t + 1].addr && LinkAt(h1, m, t);
    if Touches(m, t) {
      TakesOverLinked(h1, m, t);
    }
  }

  /** `after` is `before` with `b` in its place, joined with what it touches; `p` is the block below. */
  ghost predicate Joined(before: seq<Blk>, after: seq<Blk>, b: Blk, p: nat) {
    exists t: nat :: Between(before, t, b) && after == Insert(before, t, b) && p == before[t].addr
  }

  /**
   The free list holds `base`, which is lowest and empty, and otherwise blocks of memory from
   sbrk(); free and live blocks together are that memory, and no unit is in two of them.
   */
  ghost predicate Consistent(base: nat, freep: nat, hdr: map<nat, Header>, blocks: seq<Blk>, live: map<nat, nat>,
                             owned: set<nat>) {
    && blocks != [] && blocks[0] == Blk(base, 0) && OnList(blocks, freep)
    && Apart(blocks) && Linked(hdr, blocks)
    && (forall i :: 0 < i < |blocks| ==> blocks[i].size > 0)
    && LiveHeaders(base, hdr, live)
    && (forall a :: a in live ==> OffList(blocks, Blk(a, live[a])))
    && (forall a, b :: a in live && b in live && a != b ==> Disjoint(Blk(a, live[a]), Blk(b, live[b])))
    && (forall u: nat :: u in owned <==> FreeAt(blocks, u) || LiveAt(live, u))
  }

  ghost predicate LiveHeaders(base: nat, hdr: map<nat, Header>, live: map<nat, nat>) {
    forall a :: a in live ==> a > base && live[a] > 0 && a in hdr && hdr[a].size == live[a]
  }

  ghost predicate OffList(blocks: seq<Blk>, b: Blk) {
    forall i :: 0 <= i < |blocks| ==> Disjoint(b, blocks[i])
  }

  ghost predicate OnList(blocks: seq<Blk>, p: nat) {
    exists i :: 0 <= i < |blocks| && blocks[i].addr == p
  }

  // ---- malloc on the list ----

  /** The k-th block of the walk that starts after block `s`. */
  function Visited(n: nat, s: nat, k: nat): (i: nat)
    requires s < n && k < n
    ensures i < n
  {
    if s + 1 + k < n then s + 1 + k else s + 1 + k - n
  }

  function PrevIndex(n: nat, i: nat): (j: nat)
    requires i < n
    ensures j < n && NextIndex(n, j) == i
  {
    if i == 0 then n - 1 else i - 1
  }

  /** The first `c` blocks of the walk are too small. */
  ghost predicate Passed(blocks: seq<Blk>, s: nat, c: nat, nunits: nat)
    requires s < |blocks| && c <= |blocks|
  {
    forall k: nat :: k < c ==> blocks[Visited(|blocks|, s, k)].size < nunits
  }

  ghost predicate AllSmall(blocks: seq<Blk>, nunits: nat) {
    forall i :: 0 <= i < |blocks| ==> blocks[i].size < nunits
  }

  /** malloc's loop is at the block after `c` others. */
  ghost predicate Walking(blocks: seq<Blk>, s: nat, c: nat, prevp: nat, p: nat, nunits: nat) {
    && s < |blocks| && c < |blocks| && Passed(blocks, s, c, nunits)
    && p == blocks[Visited(|blocks|, s, c)].addr
    && prevp == blocks[PrevIndex(|blocks|, Visited(|blocks|, s, c))].addr
  }

  lemma {:induction false} WalkStarts(blocks: seq<Blk>, s: nat, nunits: nat)
    requires s < |blocks|
    ensures Walking(blocks, s, 0, blocks[s].addr, blocks[NextIndex(|blocks|, s)].addr, nunits)
  {
  }

  lemma {:induction false} WalkIsAt(blocks: seq<Blk>, s: nat, c: nat, prevp: nat, p: nat, nunits: nat)
    requires Walking(blocks, s, c, prevp, p, nunits)
    ensures p == blocks[Visited(|blocks|, s, c)].addr
  {
  }

  /** A step of the walk; only the last one comes back to its start. */
  lemma {:induction false} WalkSteps(blocks: seq<Blk>, s: nat, c: nat, prevp: nat, p: nat, nunits: nat)
    requires Walking(blocks, s, c, prevp, p, nunits) && blocks[Visited(|blocks|, s, c)].size < nunits
    ensures var i := Visited(|blocks|, s, c);
            && (i == s ==> AllSmall(blocks, nunits))
            && (i != s ==> c + 1 < |blocks| && Walking(blocks, s, c + 1, p, blocks[NextIndex(|blocks|, i)].addr,
                                                       nunits))
  {
    if Visited(|blocks|, s, c) == s {
      assert Passed(blocks, s, |blocks|, nunits);
      PassedAll(blocks, s, nunits);
    }
  }

  lemma {:induction false} AllSmallIs(blocks: seq<Blk>, nunits: nat)
    ensures AllSmall(blocks, nunits) <==> forall i :: 0 <= i < |blocks| ==> blocks[i].size < nunits
  {
  }

  lemma {:induction false} NotAllSmall(blocks: seq<Blk>, i: nat, nunits: nat)
    requires i < |blocks| && blocks[i].size >= nunits
    ensures !AllSmall(blocks, nunits)
  {
  }

  /** A walk of |blocks| steps has been everywhere. */
  lemma {:induction false} PassedAll(blocks: seq<Blk>, s: nat, nunits: nat)
    requires s < |blocks| && Passed(blocks, s, |blocks|, nunits)
    ensures AllSmall(blocks, nunits)
  {
    forall i: nat | i < |blocks|
      ensures blocks[i].size < nunits
    {
      assert Visited(|blocks|, s, if i > s then i - s - 1 else i + |blocks| - s - 1) == i;
    }
  }

  /** Where malloc cuts its block: at the tail of the free block. */
  function CutAt(b: Blk, nunits: nat): nat
    requires b.size >= nunits
  {
    b.addr + (b.size - nunits)
  }

  /** The free list after malloc has taken `nunits` from block `i`. */
  function Take(blocks: seq<Blk>, i: nat, nunits: nat): seq<Blk>
    requires i < |blocks| && blocks[i].size >= nunits
  {
    if blocks[i].size == nunits then blocks[..i] + blocks[i + 1..]
    else blocks[i := Blk(blocks[i].addr, blocks[i].size - nunits)]
  }

  function LinkOf(hdr: map<nat, Header>, p: nat): nat {
    if p in hdr then hdr[p].ptr else 0
  }

  /** The headers after malloc has taken `nunits` from the block at `p`, which `prevp` leads to. */
  function AfterTake(hdr: map<nat, Header>, prevp: nat, p: nat, nunits: nat): map<nat, Header>
    requires prevp in hdr && p in hdr && hdr[p].size >= nunits
  {
    if hdr[p].size == nunits then hdr[prevp := Header(hdr[p].ptr, hdr[prevp].size)]
    else
      var q := p + (hdr[p].size - nunits);
      hdr[p := Header(hdr[p].ptr, hdr[p].size - nunits)][q := Header(LinkOf(hdr, q), nunits)]
  }

  /** malloc took its block from the first that is large enough on the walk from `freep`. */
  ghost predicate TookFirstFit(before: seq<Blk>, freep: nat, after: seq<Blk>, newFreep: nat, nunits: nat, a: nat) {
    exists s: nat, c: nat :: s < |before| && c < |before| && before[s].addr == freep &&
      TookAt(before, s, c, after, newFreep, nunits, a)
  }

  ghost predicate TookAt(before: seq<Blk>, s: nat, c: nat, after: seq<Blk>, newFreep: nat, nunits: nat, a: nat)
    requires s < |before| && c < |before|
  {
    var i := Visited(|before|, s, c);
    && Passed(before, s, c, nunits) && before[i].size >= nunits
    && after == Take(before, i, nunits) && a == CutAt(before[i], nunits)
    && newFreep == before[PrevIndex(|before|, i)].addr
  }

  /** The elements of the list after an exact fit. */
  lemma {:induction false} TakeAt(blocks: seq<Blk>, i: nat, nunits: nat, k: nat)
    requires i < |blocks| && blocks[i].size >= nunits && k < |Take(blocks, i, nunits)|
    ensures var exact := blocks[i].size == nunits;
            && |Take(blocks, i, nunits)| == (if exact then |blocks| - 1 else |blocks|)
            && Take(blocks, i, nunits)[k] == (if exact then (if k < i then blocks[k] else blocks[k + 1])
                                              else if k == i then Blk(blocks[i].addr, blocks[i].size - nunits)
                                                        else blocks[k])
  {
  }

  lemma {:induction false} TakeApart(blocks: seq<Blk>, i: nat, nunits: nat)
    requires Apart(blocks) && i < |blocks| && blocks[i].size >= nunits
    ensures Apart(Take(blocks, i, nunits))
  {
    var l := Take(blocks, i, nunits);
    forall k: nat | k < |l|
      ensures GapAfter(l, k)
    {
      TakeAt(blocks, i, nunits, k);
      if k + 1 < |l| { TakeAt(blocks, i, nunits, k + 1); }
      assert GapAfter(blocks, k) && (k + 1 < |blocks| ==> GapAfter(blocks, k + 1));
    }
  }

  lemma {:induction false} TakeLinked(hdr: map<nat, Header>, blocks: seq<Blk>, i: nat, nunits: nat)
    requires Apart(blocks) && Linked(hdr, blocks) && 0 < i < |blocks| && blocks[i].size >= nunits > 0
    ensures var prevp, p := blocks[PrevIndex(|blocks|, i)].addr, blocks[i].addr;
            prevp in hdr && p in hdr && Linked(AfterTake(hdr, prevp, p, nunits), Take(blocks, i, nunits))
  {
    var prevp, p, l := blocks[i - 1].addr, blocks[i].addr, Take(blocks, i, nunits);
    var h := AfterTake(hdr, prevp, p, nunits);
    assert LinkAt(hdr, blocks, i) && LinkAt(hdr, blocks, i - 1);
    forall k: nat | k < |l|
      ensures l[k].addr in h && h[l[k].addr].size == l[k].size && LinkAt(h, l, k)
    {
      var j := if blocks[i].size == nunits && k >= i then k + 1 else k;
      TakeAt(blocks, i, nunits, k);
      TakeAt(blocks, i, nunits, NextIndex(|l|, k));
      ApartDistinct(blocks, j, i);
      ApartDistinct(blocks, j, i - 1);
      assert LinkAt(hdr, blocks, j);
    }
  }

  /** Taking a block moves exactly its units out of the free list. */
  lemma {:induction false} TakeFreeAt(blocks: seq<Blk>, i: nat, nunits: nat, u: nat)
    requires Apart(blocks) && i < |blocks| && blocks[i].size >= nunits
    ensures var b := Blk(CutAt(blocks[i], nunits), nunits);
            FreeAt(Take(blocks, i, nunits), u) <==> FreeAt(blocks, u) && !b.Covers(u)
  {
    var l, b := Take(blocks, i, nunits), Blk(CutAt(blocks[i], nunits), nunits);
    var exact := blocks[i].size == nunits;
    if j :| 0 <= j < |blocks| && blocks[j].Covers(u) {
      ApartDistinct(blocks, j, i);
      if !b.Covers(u) {
        var k := if exact && j > i then j - 1 else j;
        TakeAt(blocks, i, nunits, k);
        assert l[k].Covers(u);
      }
    }
    if k :| 0 <= k < |l| && l[k].Covers(u) {
      var j := if exact && k >= i then k + 1 else k;
      TakeAt(blocks, i, nunits, k);
      ApartDistinct(blocks, j, i);
      assert blocks[j].Covers(u);
    }
  }

  lemma {:induction false} TakenOffList(blocks: seq<Blk>, i: nat, nunits: nat)
    requires Apart(blocks) && i < |blocks| && blocks[i].size >= nunits
    ensures OffList(Take(blocks, i, nunits), Blk(CutAt(blocks[i], nunits), nunits))
  {
    var l := Take(blocks, i, nunits);
    forall k | 0 <= k < |l|
      ensures Disjoint(Blk(CutAt(blocks[i], nunits), nunits), l[k])
    {
      TakeAt(blocks, i, nunits, k);
      ApartDistinct(blocks, if blocks[i].size == nunits && k >= i then k + 1 else k, i);
    }
  }

  lemma {:induction false} TakeKeepsUnits(blocks: seq<Blk>, live: map<nat, nat>, owned: set<nat>, i: nat, nunits: nat)
    requires Apart(blocks) && i < |blocks| && blocks[i].size >= nunits && CutAt(blocks[i], nunits) !in live
    requires forall u: nat :: u in owned <==> FreeAt(blocks, u) || LiveAt(live, u)
    ensures forall u: nat :: u in owned <==>
              FreeAt(Take(blocks, i, nunits), u) ||
              LiveAt(live[CutAt(blocks[i], nunits) := nunits], u)
  {
    var q := CutAt(blocks[i], nunits);
    var live' := live[q := nunits];
    forall u: nat
      ensures u in owned <==> FreeAt(Take(blocks, i, nunits), u) || LiveAt(live', u)
    {
      TakeFreeAt(blocks, i, nunits, u);
      if Blk(q, nunits).Covers(u) {
        assert blocks[i].Covers(u) && Blk(q, live'[q]).Covers(u);
      }
      if a :| a in live && Blk(a, live[a]).Covers(u) {
        assert Blk(a, live'[a]).Covers(u);
      }
      if a :| a in live' && Blk(a, live'[a]).Covers(u) {
        assert a == q || Blk(a, live[a]).Covers(u);
      }
    }
  }

  lemma {:induction false} TakeSizes(blocks: seq<Blk>, i: nat, nunits: nat)
    requires 0 < i < |blocks| && blocks[i].size >= nunits && forall k :: 0 < k < |blocks| ==> blocks[k].size > 0
    ensures var after := Take(blocks, i, nunits);
            after != [] && after[0] == blocks[0] && forall k :: 0 < k < |after| ==> after[k].size > 0
  {
    var after := Take(blocks, i, nunits);
    TakeAt(blocks, i, nunits, 0);
    forall k | 0 < k < |after|
      ensures after[k].size > 0
    {
      TakeAt(blocks, i, nunits, k);
    }
  }

  lemma {:induction false} TakeLiveHeaders(base: nat, hdr: map<nat, Header>, live: map<nat, nat>, prevp: nat, p: nat,
                                           nunits: nat)
    requires prevp in hdr && p in hdr && hdr[p].size >= nunits > 0 && base < p && prevp != p
    requires LiveHeaders(base, hdr, live) && prevp !in live && p !in live && CutAt(Blk(p, hdr[p].size), nunits) !in live
    ensures LiveHeaders(base, AfterTake(hdr, prevp, p, nunits), live[CutAt(Blk(p, hdr[p].size), nunits) := nunits])
  {
  }

  /** Taking a block keeps the heap consistent. */
  lemma {:induction false} TakeConsistent(base: nat, freep: nat, hdr: map<nat, Header>, blocks: seq<Blk>,
                                          live: map<nat, nat>,
                                          owned: set<nat>, i: nat, nunits: nat)
    requires Consistent(base, freep, hdr, blocks, live, owned)
    requires i < |blocks| && blocks[i].size >= nunits > 0
    ensures i > 0 && CutAt(blocks[i], nunits) !in live
    ensures var prevp, p := blocks[PrevIndex(|blocks|, i)].addr, blocks[i].addr;
            && prevp in hdr && p in hdr && base <= prevp
            && Consistent(base, prevp, AfterTake(hdr, prevp, p, nunits), Take(blocks, i, nunits),
                          live[CutAt(blocks[i], nunits) := nunits], owned)
  {
    var p, q, after := blocks[i].addr, CutAt(blocks[i], nunits), Take(blocks, i, nunits);
    var prevp := blocks[i - 1].addr;
    var hdr' := AfterTake(hdr, prevp, p, nunits);
    TakeApart(blocks, i, nunits);
    TakeLinked(hdr, blocks, i, nunits);
    TakenOffList(blocks, i, nunits);
    TakeSizes(blocks, i, nunits);
    ApartFar(blocks, 0, i);
    ApartFar(blocks, i - 1, i);
    if i > 1 { ApartFar(blocks, 0, i - 1); }
    forall a | a in live
      ensures OffList(after, Blk(a, live[a])) && Disjoint(Blk(a, live[a]), Blk(q, nunits))
      ensures a != q && a != p && a != prevp
    {
      assert OffList(blocks, Blk(a, live[a]));
      assert Disjoint(Blk(a, live[a]), blocks[i]) && Disjoint(Blk(a, live[a]), blocks[i - 1]);
    }
    assert Blk(p, hdr[p].size) == blocks[i] && q !in live && p !in live && prevp !in live;
    TakeLiveHeaders(base, hdr, live, prevp, p, nunits);
    TakeAt(blocks, i, nunits, i - 1);
    assert after[i - 1].addr == prevp;
    TakeKeepsUnits(blocks, live, owned, i, nunits);
  }

  function Span(a: nat, n: nat): set<nat> {
    set u: nat | a <= u < a + n && Blk(a, n).Covers(u)
  }

  lemma {:induction false} GrowApart(blocks: seq<Blk>, live: map<nat, nat>, owned: set<nat>, hp: nat, nu: nat, a: nat)
    requires nu > 0 && Span(hp, nu) !! owned && a in live && live[a] > 0
    requires forall u: nat :: LiveAt(live, u) ==> u in owned
    ensures Disjoint(Blk(a, live[a]), Blk(hp, nu)) && a != hp
  {
    var u := if a <= hp then hp else a;
    assert Blk(a, live[a]).Covers(u) ==> LiveAt(live, u);
    assert u in Span(hp, nu) <==> Blk(hp, nu).Covers(u);
  }

  lemma {:induction false} GrowKeepsUnits(blocks: seq<Blk>, live: map<nat, nat>, owned: set<nat>, hp: nat, nu: nat)
    requires hp !in live && forall u: nat :: u in owned <==> FreeAt(blocks, u) || LiveAt(live, u)
    ensures forall u: nat :: u in owned + Span(hp, nu) <==> FreeAt(blocks, u) || LiveAt(live[hp := nu], u)
  {
    var live' := live[hp := nu];
    forall u: nat
      ensures u in owned + Span(hp, nu) <==> FreeAt(blocks, u) || LiveAt(live', u)
    {
      assert u in Span(hp, nu) <==> Blk(hp, live'[hp]).Covers(u);
      if a :| a in live && Blk(a, live[a]).Covers(u) {
        assert Blk(a, live'[a]).Covers(u);
      }
      if a :| a in live' && Blk(a, live'[a]).Covers(u) {
        assert a == hp || Blk(a, live[a]).Covers(u);
      }
    }
  }

  /** A store to a header off the list does not touch the links. */
  lemma {:induction false} StoreElsewhere(hdr: map<nat, Header>, blocks: seq<Blk>, a: nat, h: Header)
    requires Linked(hdr, blocks) && forall i :: 0 <= i < |blocks| ==> blocks[i].addr != a
    ensures Linked(hdr[a := h], blocks)
  {
    var hdr' := hdr[a := h];
    forall i: nat | i < |blocks|
      ensures LinkAt(hdr', blocks, i)
    {
      assert LinkAt(hdr, blocks, i);
    }
  }

  lemma {:induction false} GrowKeepsLinks(base: nat, hdr: map<nat, Header>, blocks: seq<Blk>, owned: set<nat>,
                                          hp: nat, nu: nat, h: Header)
    requires blocks != [] && blocks[0] == Blk(base, 0) && Linked(hdr, blocks) && base < hp && nu > 0 &&
             Span(hp, nu) !! owned
    requires forall i :: 0 < i < |blocks| ==> blocks[i].size > 0
    requires forall u: nat :: FreeAt(blocks, u) ==> u in owned
    ensures Linked(hdr[hp := h], blocks) && OffList(blocks, Blk(hp, nu))
  {
    forall i | 0 <= i < |blocks|
      ensures Disjoint(Blk(hp, nu), blocks[i]) && blocks[i].addr != hp
    {
      FreeApart(blocks, owned, hp, nu, i);
    }
    StoreElsewhere(hdr, blocks, hp, h);
  }

  /** Fresh memory, handed to the heap as a live block that is about to be freed. */
  lemma {:induction false} GrowConsistent(base: nat, freep: nat, hdr: map<nat, Header>, blocks: seq<Blk>,
                                          live: map<nat, nat>,
                                          owned: set<nat>, hp: nat, nu: nat)
    requires Consistent(base, freep, hdr, blocks, live, owned)
    requires base < hp && nu > 0 && Span(hp, nu) !! owned
    ensures hp !in live
    ensures Consistent(base, freep, hdr[hp := Header(LinkOf(hdr, hp), nu)], blocks, live[hp := nu],
                       owned + Span(hp, nu))
  {
    forall a | a in live
      ensures Disjoint(Blk(a, live[a]), Blk(hp, nu)) && a != hp
    {
      GrowApart(blocks, live, owned, hp, nu, a);
    }
    GrowKeepsLinks(base, hdr, blocks, owned, hp, nu, Header(LinkOf(hdr, hp), nu));
    GrowKeepsUnits(blocks, live, owned, hp, nu);
    forall a | a in live
      ensures OffList(blocks, Blk(a, live[a]))
    {
    }
  }

  lemma {:induction false} FreeApart(blocks: seq<Blk>, owned: set<nat>, hp: nat, nu: nat, i: nat)
    requires i < |blocks| && nu > 0 && blocks[0].size == 0 && blocks[0].addr < hp && Span(hp, nu) !! owned
    requires i > 0 ==> blocks[i].size > 0
    requires forall u: nat :: FreeAt(blocks, u) ==> u in owned
    ensures Disjoint(Blk(hp, nu), blocks[i]) && blocks[i].addr != hp
  {
    if i > 0 {
      assert blocks[i].Covers(blocks[i].addr);
      assert FreeAt(blocks, blocks[i].addr);
      assert blocks[i].Covers(hp) ==> FreeAt(blocks, hp);
      assert hp in Span(hp, nu);
    }
  }

  /** A block of fresh memory, once freed, leaves a free block at least as large. */
  lemma {:induction false} InsertHasFit(blocks: seq<Blk>, t: nat, b: Blk)
    requires Between(blocks, t, b)
    ensures exists i :: 0 <= i < |Insert(blocks, t, b)| && Insert(blocks, t, b)[i].size >= b.size
  {
    var l := Add(blocks, t, b);
    AddAt(blocks, t, b, t + 1);
    var m := MergeIfTouching(l, t + 1);
    if m != l { MergeAt(l, t + 1, t + 1); }
    assert m[t + 1].size >= b.size;
    var a := MergeIfTouching(m, t);
    assert a == Insert(blocks, t, b);
    if Touches(m, t) {
      MergeAt(m, t, t);
      assert a[t].size >= b.size;
    } else {
      assert a[t + 1].size >= b.size;
    }
  }

  /** Every unit obtained from sbrk() is in exactly one block, free or live. */
  lemma {:induction false} UnitsPartitioned(base: nat, freep: nat, hdr: map<nat, Header>, blocks: seq<Blk>,
                                            live: map<nat, nat>,
                                            owned: set<nat>, u: nat)
    requires Consistent(base, freep, hdr, blocks, live, owned) && u in owned
    ensures FreeAt(blocks, u) <==> !LiveAt(live, u)
    ensures forall i, j :: 0 <= i < |blocks| && 0 <= j < |blocks| && blocks[i].Covers(u) && blocks[j].Covers(u) ==>
              i == j
    ensures forall a, b :: a in live && b in live && Blk(a, live[a]).Covers(u) && Blk(b, live[b]).Covers(u) ==> a == b
  {
    forall i: nat, j: nat | i < |blocks| && j < |blocks| && blocks[i].Covers(u) && blocks[j].Covers(u)
      ensures i == j
    {
      ApartDistinct(blocks, i, j);
    }
    forall i, a | 0 <= i < |blocks| && a in live
      ensures !blocks[i].Covers(u) || !Blk(a, live[a]).Covers(u)
    {
      assert OffList(blocks, Blk(a, live[a]));
      assert Disjoint(Blk(a, live[a]), blocks[i]);
    }
  }

  class Heap {
    const base: nat
    var freep: nat
    var hdr: map<nat, Header>
    ghost var blocks: seq<Blk>
    ghost var live: map<nat, nat>
    ghost var owned: set<nat>

    /** Before the first malloc `freep` is null and there is no list. */
    ghost predicate Valid()
      reads this
    {
      && 0 < base
      && if freep == 0 then blocks == [] && live == map[] && owned == {}
         else Consistent(base, freep, hdr, blocks, live, owned)
    }

    constructor (base: nat)
      requires base > 0
      ensures Valid() && this.base == base && freep == 0
    {
      this.base := base;
      freep := 0;
      hdr := map[];
      blocks, live, owned := [], map[], {};
    }

    /** The loop of free(): the block below the freed one. */
    method FindPlace(bp: nat) returns (p: nat)
      requires freep != 0 && Consistent(base, freep, hdr, blocks, live, owned) && bp in live
      ensures p == blocks[PlaceOf(blocks, bp, |blocks|)].addr
    {
      ghost var n, b := |blocks|, Blk(bp, live[bp]);
      assert OffList(blocks, b) && Outside(blocks, b);
      ghost var t := PlaceOf(blocks, bp, n);
      ghost var i :| 0 <= i < n && blocks[i].addr == freep;
      p := freep;
      LoopStopsAtPlace(blocks, b, i);
      assert LinkAt(hdr, blocks, i);
      while !(bp > p && bp < hdr[p].ptr)
        invariant 0 <= i < n && p == blocks[i].addr && LinkAt(hdr, blocks, i)
        invariant i == t <==> (bp > p && bp < hdr[p].ptr) || (p >= hdr[p].ptr && (bp > p || bp < hdr[p].ptr))
        decreases if i <= t then t - i else n - i + t
      {
        if p >= hdr[p].ptr && (bp > p || bp < hdr[p].ptr) {
          break;
        }
        p := hdr[p].ptr;
        i := NextIndex(n, i);
        LoopStopsAtPlace(blocks, b, i);
        assert LinkAt(hdr, blocks, i);
      }
    }

    /** The stores of free(): the freed block takes its link, joined with what it touches. */
    method StoreFree(p: nat, bp: nat)
      requires p in hdr && bp in hdr && hdr[p].ptr in hdr
      modifies `hdr, `freep
      ensures hdr == AfterFree(old(hdr), p, bp) && freep == p
    {
      if bp + hdr[bp].size == hdr[p].ptr {
        hdr := hdr[bp := Header(hdr[hdr[p].ptr].ptr, hdr[bp].size + hdr[hdr[p].ptr].size)];
      } else {
        hdr := hdr[bp := Header(hdr[p].ptr, hdr[bp].size)];
      }
      if p + hdr[p].size == bp {
        hdr := hdr[p := Header(hdr[bp].ptr, hdr[p].size + hdr[bp].size)];
      } else {
        hdr := hdr[p := Header(bp, hdr[p].size)];
      }
      freep := p;
    }

    /** free() of the block whose header is at `bp`. */
    method Free(bp: nat)
      requires Valid() && freep != 0 && bp in live
      modifies this
      ensures Valid() && freep != 0
      ensures live == old(live) - {bp} && owned == old(owned)
      ensures Joined(old(blocks), blocks, Blk(bp, old(live)[bp]), freep)
    {
      var p := FindPlace(bp);
      FreeConsistent(base, freep, hdr, blocks, live, owned, bp);
      StoreFree(p, bp);
      blocks := Insert(blocks, PlaceOf(blocks, bp, |blocks|), Blk(bp, live[bp]));
      live := live - {bp};
    }

    /** morecore(): `sbrk` is the address the system call answers with. */
    method MoreCore(nunits: nat, sbrk: Option<nat>) returns (p: Option<nat>)
      requires Valid() && freep != 0 && nunits > 0
      requires sbrk.Some? ==> base < sbrk.value && Span(sbrk.value, MoreUnits(nunits)) !! owned
      modifies this
      ensures Valid() && freep != 0 && live == old(live)
      ensures p == if sbrk.None? then None else Some(freep)
      ensures sbrk.None? ==> freep == old(freep) && hdr == old(hdr) && blocks == old(blocks) && owned == old(owned)
      ensures sbrk.Some? ==> owned == old(owned) + Span(sbrk.value, MoreUnits(nunits)) && !AllSmall(blocks, nunits)
      ensures sbrk.Some? ==> Joined(old(blocks), blocks, Blk(sbrk.value, MoreUnits(nunits)), freep)
    {
      hide Consistent;
      var nu := nunits;
      if nu < MIN_UNITS {
        nu := MIN_UNITS;
      }
      if sbrk.None? {
        return None;
      }
      var hp := sbrk.value;
      GrowConsistent(base, freep, hdr, blocks, live, owned, hp, nu);
      hdr := hdr[hp := Header(LinkOf(hdr, hp), nu)];
      live, owned := live[hp := nu], owned + Span(hp, nu);
      Free(hp);
      assert live == old(live);
      JoinedHasFit(old(blocks), blocks, Blk(hp, nu), freep, nunits);
      p := Some(freep);
    }

    /** The stores of malloc() once it has found a block. */
    method StoreTake(prevp: nat, p: nat, nunits: nat) returns (q: nat)
      requires prevp in hdr && p in hdr && hdr[p].size >= nunits
      modifies `hdr, `freep
      ensures hdr == AfterTake(old(hdr), prevp, p, nunits) && freep == prevp
      ensures q == CutAt(Blk(p, old(hdr)[p].size), nunits)
    {
      q := p;
      if hdr[p].size == nunits {
        hdr := hdr[prevp := Header(hdr[p].ptr, hdr[prevp].size)];
      } else {
        hdr := hdr[p := Header(hdr[p].ptr, hdr[p].size - nunits)];
        q := p + hdr[p].size;
        hdr := hdr[q := Header(LinkOf(hdr, q), nunits)];
      }
      freep := prevp;
    }

    /** Takes the block at `p`, the one after `c` blocks of a walk from `freep`. */
    method TakeBlock(prevp: nat, p: nat, nunits: nat, ghost s: nat, ghost c: nat) returns (q: nat)
      requires Valid() && freep != 0 && nunits > 0 && s < |blocks| && c < |blocks|
      requires blocks[s].addr == freep && Walking(blocks, s, c, prevp, p, nunits)
      requires blocks[Visited(|blocks|, s, c)].size >= nunits
      modifies this
      ensures Valid() && freep != 0 && q !in old(live) && live == old(live)[q := nunits] && owned == old(owned)
      ensures TookFirstFit(old(blocks), old(freep), blocks, freep, nunits, q)
    {
      ghost var i := Visited(|blocks|, s, c);
      TakeConsistent(base, freep, hdr, blocks, live, owned, i, nunits);
      q := StoreTake(prevp, p, nunits);
      blocks, live := Take(blocks, i, nunits), live[q := nunits];
      assert TookAt(old(blocks), s, c, blocks, freep, nunits, q);
    }

    /** The first use of the heap: the list is `base` alone. */
    method StartList() returns (prevp: nat)
      requires Valid()
      modifies this
      ensures Valid() && freep != 0 && prevp == freep && live == old(live) && owned == old(owned)
      ensures old(freep) != 0 ==> blocks == old(blocks) && hdr == old(hdr) && freep == old(freep)
      ensures forall n: nat :: n > 0 ==>
                (AllSmall(blocks, n) <==> AllSmall(old(blocks), n)) &&
                (old(freep) == 0 ==> AllSmall(blocks, n))
    {
      prevp := freep;
      if prevp == 0 {
        InitConsistent(base, hdr);
        hdr := hdr[base := Header(base, 0)];
        freep, prevp := base, base;
        blocks := [Blk(base, 0)];
      }
    }

    /** The index of the block `freep` points to. */
    ghost function FreepIndex(): (i: nat)
      requires Valid() && freep != 0
      reads this
      ensures i < |blocks| && blocks[i].addr == freep
    {
      var i :| 0 <= i < |blocks| && blocks[i].addr == freep;
      i
    }

    /** The header of block `i` leads to the next block, and no other block has its address. */
    lemma {:induction false} LinkFollows(i: nat, s: nat)
      requires Valid() && freep != 0 && i < |blocks| && s < |blocks|
      ensures blocks[i].addr in hdr && hdr[blocks[i].addr].size == blocks[i].size
      ensures hdr[blocks[i].addr].ptr == blocks[NextIndex(|blocks|, i)].addr
      ensures blocks[i].addr == blocks[s].addr <==> i == s
    {
      assert LinkAt(hdr, blocks, i);
      ApartDistinct(blocks, i, s);
    }

    /** malloc(): the block's header is at the address returned. */
    method Malloc(nbytes: nat, sbrk: Option<nat>) returns (r: Option<nat>, ghost grew: bool)
      requires Valid() && nbytes < UINT && NUnits(nbytes) < 0x1000_0000
      requires sbrk.Some? ==> base < sbrk.value && Span(sbrk.value, MoreUnits(NUnits(nbytes))) !! owned
      modifies this
      ensures Valid() && freep != 0
      ensures grew <==> AllSmall(old(blocks), NUnits(nbytes)) && sbrk.Some?
      ensures r.None? <==> AllSmall(old(blocks), NUnits(nbytes)) && sbrk.None?
      ensures owned == if grew then old(owned) + Span(sbrk.value, MoreUnits(NUnits(nbytes))) else old(owned)
      ensures grew || r.None? <==> forall i :: 0 <= i < |old(blocks)| ==> old(blocks)[i].size < NUnits(nbytes)
      ensures r.None? ==> live == old(live) && (old(freep) != 0 ==>
                blocks == old(blocks) && hdr == old(hdr) &&
                freep == old(freep))
      ensures r.Some? ==> r.value !in old(live) && live == old(live)[r.value := NUnits(nbytes)]
      ensures r.Some? && !grew ==> TookFirstFit(old(blocks), old(freep), blocks, freep, NUnits(nbytes), r.value)
    {
      hide Valid, Consistent, AllSmall, TookFirstFit, Walking, Visited, NextIndex, Span, NUnits, MoreUnits;
      var nunits := NUnits(nbytes);
      var prevp := StartList();
      ghost var first, start := blocks, freep;
      assert AllSmall(first, nunits) <==> AllSmall(old(blocks), nunits);
      assert old(freep) == 0 ==> AllSmall(first, nunits);
      AllSmallIs(old(blocks), nunits);
      ghost var s: nat := FreepIndex();
      ghost var c: nat := 0;
      grew := false;
      LinkFollows(s, s);
      WalkStarts(blocks, s, nunits);
      var p := hdr[prevp].ptr;
      while true
        invariant Valid() && freep != 0 && live == old(live)
        invariant s < |blocks| && c < |blocks| && blocks[s].addr == freep
        invariant Walking(blocks, s, c, prevp, p, nunits)
        invariant !grew ==>
                    blocks == first && freep == start && owned == old(owned) &&
                    (old(freep) != 0 ==> hdr == old(hdr))
        invariant grew ==> sbrk.Some? && owned == old(owned) + Span(sbrk.value, MoreUnits(nunits))
        invariant grew ==> AllSmall(first, nunits) && !AllSmall(blocks, nunits)
        decreases !grew, |blocks| - c
      {
        ghost var i: nat := Visited(|blocks|, s, c);
        WalkIsAt(blocks, s, c, prevp, p, nunits);
        LinkFollows(i, s);
        if hdr[p].size >= nunits {
          NotAllSmall(blocks, i, nunits);
          var q := TakeBlock(prevp, p, nunits, s, c);
          return Some(q), grew;
        }
        WalkSteps(blocks, s, c, prevp, p, nunits);
        if p == freep {
          assert AllSmall(first, nunits);
          var more := MoreCore(nunits, sbrk);
          if more.None? {
            return None, grew;
          }
          p, grew := more.value, true;
          s, c := FreepIndex(), 0;
          LinkFollows(s, s);
          WalkStarts(blocks, s, nunits);
        } else {
          c := c + 1;
        }
        prevp := p;
        p := hdr[p].ptr;
      }
    }
  }

  lemma {:induction false} AfterFreeElsewhere(hdr: map<nat, Header>, p: nat, bp: nat, a: nat)
    requires p in hdr && bp in hdr && hdr[p].ptr in hdr && a in hdr && a != p && a != bp
    ensures a in AfterFree(hdr, p, bp) && AfterFree(hdr, p, bp)[a] == hdr[a]
  {
  }

  lemma {:induction false} FreeConsistent(base: nat, freep: nat, hdr: map<nat, Header>, blocks: seq<Blk>,
                                          live: map<nat, nat>,
                                          owned: set<nat>, bp: nat)
    requires Consistent(base, freep, hdr, blocks, live, owned) && bp in live
    ensures base < bp && bp in hdr && Outside(blocks, Blk(bp, live[bp]))
    ensures var t, b := PlaceOf(blocks, bp, |blocks|), Blk(bp, live[bp]);
            var p := blocks[t].addr;
            && p in hdr && hdr[p].ptr in hdr && base <= p
            && Joined(blocks, Insert(blocks, t, b), b, p)
            && Consistent(base, p, AfterFree(hdr, p, bp), Insert(blocks, t, b), live - {bp}, owned)
  {
    hide Insert, AfterFree, FreeAt, LiveAt, Apart;
    var t, b := PlaceOf(blocks, bp, |blocks|), Blk(bp, live[bp]);
    var p, after := blocks[t].addr, Insert(blocks, t, b);
    assert OffList(blocks, b) && Outside(blocks, b);
    AfterFreeLinked(hdr, blocks, t, b);
    hide Linked, LinkAt;
    InsertApart(blocks, t, b);
    InsertSizes(blocks, t, b);
    FreeKeepsUnits(blocks, live, owned, t, bp);
    assert after[t].addr == p;
    if t > 0 { ApartFar(blocks, 0, t); }
    FreeKeepsLive(base, hdr, blocks, live, t, bp);
  }

  /** The other live blocks stay off the list, and their headers stay. */
  lemma {:induction false} FreeKeepsLive(base: nat, hdr: map<nat, Header>, blocks: seq<Blk>, live: map<nat, nat>,
                                         t: nat, bp: nat)
    requires bp in live && t < |blocks| && LiveHeaders(base, hdr, live)
    requires forall a :: a in live ==> OffList(blocks, Blk(a, live[a]))
    requires forall a, b :: a in live && b in live && a != b ==> Disjoint(Blk(a, live[a]), Blk(b, live[b]))
    requires blocks[t].addr in hdr && hdr[blocks[t].addr].ptr in hdr && blocks[t].addr < bp
    requires blocks[t].size > 0 || blocks[t].addr <= base
    ensures LiveHeaders(base, AfterFree(hdr, blocks[t].addr, bp), live - {bp})
    ensures forall a :: a in live - {bp} ==> OffList(Insert(blocks, t, Blk(bp, live[bp])), Blk(a, live[a]))
  {
    hide Insert, AfterFree;
    var p, b := blocks[t].addr, Blk(bp, live[bp]);
    forall a | a in live - {bp}
      ensures OffList(Insert(blocks, t, b), Blk(a, live[a]))
      ensures a in AfterFree(hdr, p, bp) && AfterFree(hdr, p, bp)[a] == hdr[a]
    {
      assert OffList(blocks, Blk(a, live[a]));
      assert Disjoint(Blk(a, live[a]), b) && Disjoint(Blk(a, live[a]), blocks[t]);
      AfterFreeElsewhere(hdr, p, bp, a);
      InsertDisjoint(blocks, t, b, Blk(a, live[a]));
    }
  }

  /** Which units are free or live after a live block has moved to the free list. */
  lemma {:induction false} FreeKeepsUnits(blocks: seq<Blk>, live: map<nat, nat>, owned: set<nat>, t: nat, bp: nat)
    requires bp in live && t < |blocks|
    requires forall u: nat :: u in owned <==> FreeAt(blocks, u) || LiveAt(live, u)
    ensures forall u: nat :: u in owned <==> FreeAt(Insert(blocks, t, Blk(bp, live[bp])), u) || LiveAt(live - {bp}, u)
  {
    var b := Blk(bp, live[bp]);
    forall u: nat
      ensures u in owned <==> FreeAt(Insert(blocks, t, b), u) || LiveAt(live - {bp}, u)
    {
      InsertFreeAt(blocks, t, b, u);
      if a :| a in live && Blk(a, live[a]).Covers(u) {
        assert a == bp || Blk(a, (live - {bp})[a]).Covers(u);
      }
      if a :| a in live - {bp} && Blk(a, (live - {bp})[a]).Covers(u) {
        assert Blk(a, live[a]).Covers(u);
      }
    }
  }

  lemma {:induction false} JoinedHasFit(before: seq<Blk>, after: seq<Blk>, b: Blk, p: nat, nunits: nat)
    requires Joined(before, after, b, p) && b.size >= nunits
    ensures !AllSmall(after, nunits)
  {
    var t: nat :| Between(before, t, b) && after == Insert(before, t, b) && p == before[t].addr;
    InsertHasFit(before, t, b);
  }

  lemma {:induction false} InitConsistent(base: nat, hdr: map<nat, Header>)
    ensures Consistent(base, base, hdr[base := Header(base, 0)], [Blk(base, 0)], map[], {})
  {
    var l := [Blk(base, 0)];
    assert l[0].addr == base;
    assert LinkAt(hdr[base := Header(base, 0)], l, 0);
  }
}
