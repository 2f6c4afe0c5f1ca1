/**
 Files as byte sequences on top of the places of FileBlocks: which places a file of a given size
 fills, what it contains, and what one turn of writei's loop does to that.
 */
module FileContent {
  import opened Blocks
  import opened BlockViews
  import opened FileBlocks

  /** Blocks a file of `size` bytes fills. */
  function BlocksFor(size: nat): nat {
    (size + BSIZE - 1) / BSIZE
  }

  /** Exactly the first `n` blocks of the file are there, and an indirect block if they need one. */
  ghost predicate HoleFree(slots: seq<Word>, n: nat) {
    && |slots| == PLACES && n <= MAXFILE
    && (forall bn: nat :: bn < MAXFILE ==> FilledAt(slots, bn, n))
    && (slots[INDIRECT] != 0 <==> n > NDIRECT)
  }

  ghost predicate FilledAt(slots: seq<Word>, bn: nat, n: nat)
    requires |slots| == PLACES && bn < MAXFILE
  {
    slots[PlaceOf(bn)] != 0 <==> bn < n
  }

  /** Byte `o` of the file with these places. */
  function FileByte(blocks: Image, slots: seq<Word>, o: nat): Byte
    requires |slots| == PLACES && o < MAXFILE * BSIZE
  {
    var a := slots[PlaceOf(o / BSIZE)];
    if a < |blocks| then ByteAt(blocks[a], o % BSIZE) else 0
  }

  function Content(blocks: Image, slots: seq<Word>, size: nat): (c: seq<Byte>)
    requires |slots| == PLACES && size <= MAXFILE * BSIZE
    ensures |c| == size
  {
    seq<Byte>(size, o requires 0 <= o < size => FileByte(blocks, slots, o))
  }

  /** What bmap(bn) did to inode `i`: nothing if the block was there, else one or two allocations. */
  ghost predicate Mapped(sb: Layout, blocks: Image, slots: seq<seq<Word>>, owner: map<nat, Place>,
                         blocks': Image, slots': seq<seq<Word>>, owner': map<nat, Place>, i: nat, bn: nat)
    requires sb.WellFormed() && |blocks| == |blocks'| == sb.size && i < |slots| && |slots[i]| == PLACES && bn < MAXFILE
  {
    if slots[i][PlaceOf(bn)] != 0 then
      blocks' == blocks && slots' == slots && owner' == owner
    else
      && |slots'| == |slots| && |slots'[i]| == PLACES
      && Grown(sb, blocks, slots, owner, blocks', slots', owner', i, bn, slots'[i][INDIRECT], slots'[i][PlaceOf(bn)])
  }

  /** bmap has to allocate the indirect block before the block it is asked for. */
  predicate NeedsIndirect(slots: seq<Word>, bn: nat)
    requires |slots| == PLACES
  {
    bn >= NDIRECT && slots[INDIRECT] == 0
  }

  ghost predicate Grown(sb: Layout, blocks: Image, slots: seq<seq<Word>>, owner: map<nat, Place>,
                        blocks': Image, slots': seq<seq<Word>>, owner': map<nat, Place>, i: nat, bn: nat, a: Word,
                        b: Word)
    requires sb.WellFormed() && |blocks| == |blocks'| == sb.size && i < |slots| && |slots[i]| == PLACES && bn < MAXFILE
  {
    && b !in owner && b != 0 && b < sb.size && blocks'[b] == ZeroBlock()
    && (NeedsIndirect(slots[i], bn) ==> a !in owner && a != 0)
    && slots' ==
         SetSlot(if NeedsIndirect(slots[i], bn) then SetSlot(slots, i, INDIRECT, a) else slots, i, PlaceOf(bn), b)
    && owner' ==
         (if NeedsIndirect(slots[i], bn) then owner[a := Place(i, INDIRECT)] else owner)[b := Place(i, PlaceOf(bn))]
    && SameInodes(sb, blocks, blocks')
    && forall c :: c in owner && c != a ==> c < sb.size && blocks'[c] == blocks[c]
  }

  /** Blocks that bmap passes to log_write. */
  function MapLogs(sb: Layout, slots: seq<seq<Word>>, slots': seq<seq<Word>>, i: nat, bn: nat): set<nat>
    requires i < |slots| == |slots'| && |slots[i]| == |slots'[i]| == PLACES && bn < MAXFILE
  {
    if slots[i][PlaceOf(bn)] != 0 then {}
    else
      var a, b := slots'[i][INDIRECT], slots'[i][PlaceOf(bn)];
      {b, sb.BBlock(b)} + (if bn >= NDIRECT then {a} else {}) +
      (if NeedsIndirect(slots[i], bn) then {sb.BBlock(a)} else {})
  }

  lemma {:induction false} MappedAlready(sb: Layout, blocks: Image, slots: seq<seq<Word>>, owner: map<nat, Place>,
                                         i: nat, bn: nat)
    requires sb.WellFormed() && |blocks| == sb.size && i < |slots| && |slots[i]| == PLACES && bn < MAXFILE &&
             slots[i][PlaceOf(bn)] != 0
    ensures Mapped(sb, blocks, slots, owner, blocks, slots, owner, i, bn) && MapLogs(sb, slots, slots, i, bn) == {}
  {
  }

  /** bmap of a direct block. */
  lemma {:induction false} MappedDirect(sb: Layout, blocks: Image, slots: seq<seq<Word>>, owner: map<nat, Place>,
                                        i: nat, d: Dinode,
                                        bn: nat, b: Word)
    requires Sound(sb, blocks, slots, owner, i, d) && bn < NDIRECT && |slots[i]| == PLACES && slots[i][bn] == 0
    requires b < sb.size && !Used(sb, blocks, b)
    ensures var slots' := SetSlot(slots, i, bn, b);
            && Mapped(sb, blocks, slots, owner, Allocated(sb, blocks, b), slots', owner[b := Place(i, bn)], i, bn)
            && MapLogs(sb, slots, slots', i, bn) == {b, sb.BBlock(b)}
  {
    AllocatedElsewhere(sb, blocks, slots, owner, b);
    hide Used, Owned, SameInodes;
  }

  lemma {:induction false} EntryLogs(sb: Layout, slots: seq<seq<Word>>, i: nat, j: nat, a: Word, b: Word)
    requires i < |slots| && j < NINDIRECT && |slots[i]| == PLACES
    requires slots[i][INDIRECT] == a != 0 == slots[i][PlaceOf(NDIRECT + j)]
    ensures var slots' := SetSlot(slots, i, PlaceOf(NDIRECT + j), b);
            && |slots'[i]| == PLACES && slots'[i][INDIRECT] == a && slots'[i][PlaceOf(NDIRECT + j)] == b
            && MapLogs(sb, slots, slots', i, NDIRECT + j) == {b, sb.BBlock(b), a}
  {
  }

  /** bmap of a block listed in the indirect block. */
  lemma {:induction false} MappedEntry(sb: Layout, blocks: Image, slots: seq<seq<Word>>, owner: map<nat, Place>,
                                       i: nat, d: Dinode,
                                       j: nat, a: Word, b: Word)
    requires Sound(sb, blocks, slots, owner, i, d) && j < NINDIRECT && |slots[i]| == PLACES
    requires slots[i][INDIRECT] == a != 0 && a < sb.size && slots[i][PlaceOf(NDIRECT + j)] == 0
    requires b < sb.size && !Used(sb, blocks, b)
    ensures var slots' := SetSlot(slots, i, PlaceOf(NDIRECT + j), b);
            && Mapped(sb, blocks, slots, owner, AllocatedEntry(sb, blocks, a, j, b), slots',
                      owner[b := Place(i, PlaceOf(NDIRECT + j))], i, NDIRECT + j)
            && MapLogs(sb, slots, slots', i, NDIRECT + j) == {b, sb.BBlock(b), a}
  {
    IndirectOwned(sb, blocks, slots, owner, i, d, i);
    AllocatedElsewhere(sb, blocks, slots, owner, b);
    hide Used, Sound, Owned, Allocated, SetWord;
    EntryLogs(sb, slots, i, j, a, b);
    assert SameInodes(sb, blocks, AllocatedEntry(sb, blocks, a, j, b));
    hide SameInodes, MapLogs, SetSlot;
  }

  /** The blocks logged when both the indirect block and an entry are new. */
  lemma {:induction false} BothLogs(sb: Layout, slots: seq<seq<Word>>, i: nat, j: nat, a: Word, b: Word)
    requires i < |slots| && j < NINDIRECT && |slots[i]| == PLACES
    requires slots[i][INDIRECT] == 0 == slots[i][PlaceOf(NDIRECT + j)]
    ensures var slots' := SetSlot(SetSlot(slots, i, INDIRECT, a), i, PlaceOf(NDIRECT + j), b);
            && slots'[i][INDIRECT] == a && slots'[i][PlaceOf(NDIRECT + j)] == b
            && MapLogs(sb, slots, slots', i, NDIRECT + j) == {a, sb.BBlock(a), b, sb.BBlock(b)}
  {
  }

  lemma {:induction false} SameInodesTwice(sb: Layout, blocks: Image, blocks1: Image, blocks2: Image, a: nat, x: Block)
    requires sb.WellFormed() && |blocks| == |blocks1| == |blocks2| == sb.size && sb.DataStart() <= a < sb.size
    requires SameInodes(sb, blocks, blocks1) && SameInodes(sb, blocks1, blocks2)
    ensures SameInodes(sb, blocks, blocks2[a := x])
  {
  }

  /** bmap of the first block that needs the indirect block, which is allocated before it. */
  lemma {:induction false} MappedBoth(sb: Layout, blocks: Image, slots: seq<seq<Word>>, owner: map<nat, Place>,
                                      i: nat, d: Dinode,
                                      j: nat, a: Word, b: Word)
    requires Sound(sb, blocks, slots, owner, i, d) && j < NINDIRECT && |slots[i]| == PLACES
    requires slots[i][INDIRECT] == 0 == slots[i][PlaceOf(NDIRECT + j)]
    requires a < sb.size && !Used(sb, blocks, a) && d.WellFormed() && d.addrs[INDIRECT] == 0
    requires b < sb.size && !Used(sb, Allocated(sb, blocks, a), b)
    ensures var slots1, owner1 := SetSlot(slots, i, INDIRECT, a), owner[a := Place(i, INDIRECT)];
            var slots' := SetSlot(slots1, i, PlaceOf(NDIRECT + j), b);
            && Mapped(sb, blocks, slots, owner, AllocatedEntry(sb, Allocated(sb, blocks, a), a, j, b), slots',
                      owner1[b := Place(i, PlaceOf(NDIRECT + j))], i, NDIRECT + j)
            && MapLogs(sb, slots, slots', i, NDIRECT + j) == {a, sb.BBlock(a), b, sb.BBlock(b)}
  {
    hide Used, Owned, Allocated, MapLogs;
    var blocks1, slots1, owner1 := Allocated(sb, blocks, a), SetSlot(slots, i, INDIRECT, a),
        owner[a := Place(i, INDIRECT)];
    AllocatedElsewhere(sb, blocks, slots, owner, a);
    AllocDirect(sb, blocks, slots, owner, i, d, INDIRECT, a);
    AllocatedElsewhere(sb, blocks1, slots1, owner1, b);
    SameInodesTwice(sb, blocks, blocks1, Allocated(sb, blocks1, b), a, SetWord(blocks1[a], j, b));
    BothLogs(sb, slots, i, j, a, b);
    hide Sound, SameInodes, SetSlot;
    assert a in owner1 && b !in owner1;
  }

  function Max(a: nat, b: nat): nat {
    if a < b then b else a
  }

  /** bmap of a block at the end of a hole-free file leaves it hole-free. */
  lemma {:induction false} MappedHoleFree(sb: Layout, blocks: Image, slots: seq<seq<Word>>, owner: map<nat, Place>,
                                          blocks': Image, slots': seq<seq<Word>>, owner': map<nat, Place>, i: nat,
                                          bn: nat, n: nat)
    requires sb.WellFormed() && |blocks| == |blocks'| == sb.size && i < |slots| && bn < MAXFILE && bn <= n
    requires HoleFree(slots[i], n) && Mapped(sb, blocks, slots, owner, blocks', slots', owner', i, bn)
    ensures |slots'| == |slots| && HoleFree(slots'[i], Max(n, bn + 1))
    ensures slots[i][PlaceOf(bn)] != 0 <==> bn < n
  {
    assert FilledAt(slots[i], bn, n);
    var filled, n' := slots'[i], Max(n, bn + 1);
    forall x: nat | x < MAXFILE
      ensures FilledAt(filled, x, n')
    {
      assert FilledAt(slots[i], x, n);
    }
  }

  /** What one turn of writei leaves alone: everything of the other inodes. */
  ghost predicate OthersKept(blocks: Image, slots: seq<seq<Word>>, owner: map<nat, Place>,
                             blocks': Image, slots': seq<seq<Word>>, owner': map<nat, Place>, i: nat) {
    && |blocks'| == |blocks| && |slots'| == |slots|
    && (forall j :: 0 <= j < |slots| && j != i ==> slots'[j] == slots[j])
    && (forall c :: c in owner ==> c in owner' && owner'[c] == owner[c])
    && (forall c :: c in owner && owner[c].inum != i ==> c < |blocks| && blocks'[c] == blocks[c])
  }

  /** The bytes of the first `n` blocks are those of `was` (zero past its `n0` blocks), with `src` put in at `off`. */
  ghost predicate BytesAre(blocks: Image, slots: seq<Word>, n: nat, was: Image, slots0: seq<Word>, n0: nat, off: nat,
                           src: seq<Byte>) {
    && |slots| == |slots0| == PLACES && n0 <= n <= MAXFILE
    && forall o: nat :: o < n * BSIZE ==> FileByte(blocks, slots, o) == Expected(was, slots0, n0, off, src, o)
  }

  function Expected(was: Image, slots0: seq<Word>, n0: nat, off: nat, src: seq<Byte>, o: nat): Byte
    requires |slots0| == PLACES && o < MAXFILE * BSIZE
  {
    if off <= o < off + |src| then src[o - off]
    else if o < n0 * BSIZE then FileByte(was, slots0, o)
    else 0
  }

  /** What place of a file holds after bmap(bn): the block it held, or the new block, zeroed. */
  lemma {:induction false} MappedPlace(sb: Layout, blocks: Image, slots: seq<seq<Word>>, owner: map<nat, Place>,
                                       blocks': Image, slots': seq<seq<Word>>, owner': map<nat, Place>, i: nat, n: nat,
                                       bn: nat, x: nat)
    requires sb.WellFormed() && |blocks| == |blocks'| == sb.size && i < |slots| && bn < MAXFILE && bn <= n
    requires HoleFree(slots[i], n) && Mapped(sb, blocks, slots, owner, blocks', slots', owner', i, bn)
    requires Owned(sb, blocks, slots, owner) && Owned(sb, blocks', slots', owner')
    requires x < Max(n, bn + 1)
    ensures |slots'| == |slots| && |slots'[i]| == PLACES
    ensures var a := slots'[i][PlaceOf(x)];
            && 0 < a < sb.size && (a == slots'[i][PlaceOf(bn)] <==> x == bn)
            && (x < n ==> a == slots[i][PlaceOf(x)] && blocks'[a] == blocks[a])
            && (x >= n ==> x == bn && blocks'[a] == ZeroBlock())
  {
    hide Used;
    MappedHoleFree(sb, blocks, slots, owner, blocks', slots', owner', i, bn, n);
    var a, b, ind := slots'[i][PlaceOf(x)], slots'[i][PlaceOf(bn)], slots'[i][INDIRECT];
    assert FilledAt(slots'[i], x, Max(n, bn + 1)) && FilledAt(slots'[i], bn, Max(n, bn + 1)) &&
           FilledAt(slots[i], x, n);
    PlacesDiffer(sb, blocks', slots', owner', i, PlaceOf(x), i, PlaceOf(x));
    assert Knows(slots', owner', i, PlaceOf(x)) && Knows(slots', owner', i, PlaceOf(bn)) &&
           Knows(slots', owner', i, INDIRECT);
    if x < n {
      assert Knows(slots, owner, i, PlaceOf(x));
      hide Owned;
      assert a == slots[i][PlaceOf(x)] && a in owner && a != ind;
    }
  }

  /** The same for consistent disks. */
  lemma {:induction false} MappedAt(sb: Layout, blocks: Image, slots: seq<seq<Word>>, owner: map<nat, Place>,
                                    blocks': Image, slots': seq<seq<Word>>, owner': map<nat, Place>, i: nat,
                                    d: Dinode, d': Dinode,
                                    n: nat, bn: nat, x: nat)
    requires Sound(sb, blocks, slots, owner, i, d) && Sound(sb, blocks', slots', owner', i, d') && bn < MAXFILE &&
             bn <= n
    requires HoleFree(slots[i], n) && Mapped(sb, blocks, slots, owner, blocks', slots', owner', i, bn)
    requires x < Max(n, bn + 1)
    ensures |slots'| == |slots| && |slots'[i]| == PLACES
    ensures var a := slots'[i][PlaceOf(x)];
            && 0 < a < sb.size && (a == slots'[i][PlaceOf(bn)] <==> x == bn)
            && (x < n ==> a == slots[i][PlaceOf(x)] && blocks'[a] == blocks[a])
            && (x >= n ==> x == bn && blocks'[a] == ZeroBlock())
  {
    MappedPlace(sb, blocks, slots, owner, blocks', slots', owner', i, n, bn, x);
  }

  lemma {:induction false} MappedSound(sb: Layout, blocks: Image, slots: seq<seq<Word>>, owner: map<nat, Place>,
                                       blocks': Image, slots': seq<seq<Word>>, owner': map<nat, Place>, i: nat,
                                       d: Dinode, d': Dinode,
                                       n: nat, bn: nat)
    requires Sound(sb, blocks, slots, owner, i, d) && Sound(sb, blocks', slots', owner', i, d') && bn < MAXFILE &&
             bn <= n
    requires HoleFree(slots[i], n) && Mapped(sb, blocks, slots, owner, blocks', slots', owner', i, bn)
    ensures sb.WellFormed() && |blocks| == |blocks'| == sb.size && |slots| == |slots'| &&
            |slots[i]| == |slots'[i]| == PLACES
    ensures 0 < slots'[i][PlaceOf(bn)] < sb.size && n <= MAXFILE
  {
    MappedPlace(sb, blocks, slots, owner, blocks', slots', owner', i, n, bn, bn);
  }

  /** The data write of one turn changes the bytes it is meant to change, in this block only. */
  lemma {:induction false} TurnBytes(sb: Layout, blocks: Image, slots: seq<seq<Word>>, owner: map<nat, Place>,
                                     blocks': Image, slots': seq<seq<Word>>, owner': map<nat, Place>, i: nat,
                                     d: Dinode, d': Dinode, n: nat,
                                     bn: nat, at: nat, bs: seq<Byte>, o: nat)
    requires sb.WellFormed() && |blocks| == |blocks'| == sb.size && i < |slots| && bn < MAXFILE && bn <= n
    requires HoleFree(slots[i], n) && Mapped(sb, blocks, slots, owner, blocks', slots', owner', i, bn)
    requires Sound(sb, blocks, slots, owner, i, d) && Sound(sb, blocks', slots', owner', i, d')
    requires at + |bs| <= BSIZE && o < Max(n, bn + 1) * BSIZE
    ensures |slots'| == |slots| && |slots'[i]| == PLACES && slots'[i][PlaceOf(bn)] < sb.size
    ensures var b := slots'[i][PlaceOf(bn)];
            FileByte(blocks'[b := PutBytes(blocks'[b], at, bs)], slots'[i], o)
            == if o / BSIZE == bn && at <= o % BSIZE < at + |bs| then bs[o % BSIZE - at]
               else if o < n * BSIZE then FileByte(blocks, slots[i], o) else 0
  {
    hide Sound, Mapped, HoleFree, PutBytes, ByteAt;
    var x := o / BSIZE;
    MappedSound(sb, blocks, slots, owner, blocks', slots', owner', i, d, d', n, bn);
    MappedAt(sb, blocks, slots, owner, blocks', slots', owner', i, d, d', n, bn, x);
    PutBytesAt(blocks'[slots'[i][PlaceOf(bn)]], at, bs, o % BSIZE);
    ZeroBytes(o % BSIZE);
    assert x < n <==> o < n * BSIZE;
  }

  // ---- writei ----

  /** writei has stored the first `tot` bytes of `src`, starting at byte `off` of a file of `n0` blocks. */
  ghost predicate Writing(sb: Layout, was: Image, slots0: seq<seq<Word>>, owner0: map<nat, Place>,
                          blocks: Image, slots: seq<seq<Word>>, owner: map<nat, Place>, i: nat, d: Dinode,
                          n0: nat, off: nat, src: seq<Byte>, tot: nat) {
    && sb.WellFormed() && |was| == |blocks| == sb.size && i < |slots| == |slots0| && tot <= |src|
    && |slots[i]| == |slots0[i]| == PLACES
    && Sound(sb, blocks, slots, owner, i, d)
    && OthersKept(was, slots0, owner0, blocks, slots, owner, i) && SameInodes(sb, was, blocks)
    && HoleFree(slots[i], Reached(n0, off + tot))
    && BytesAre(blocks, slots[i], Reached(n0, off + tot), was, slots0[i], n0, off, src[..tot])
  }

  /** Blocks of a file of `n0` blocks written up to byte `end`. */
  function Reached(n0: nat, end: nat): nat {
    Max(n0, BlocksFor(end))
  }

  /** The bytes of one turn: up to the end of the block or of the data. */
  function TurnSize(off: nat, left: nat): (m: nat)
    ensures m <= left && off % BSIZE + m <= BSIZE && (left > 0 ==> m > 0)
    ensures m < left ==> (off + m) % BSIZE == 0
  {
    if left < BSIZE - off % BSIZE then left else BSIZE - off % BSIZE
  }

  lemma {:induction false} TurnReaches(n0: nat, off: nat, left: nat)
    requires left > 0
    ensures var m := TurnSize(off, left);
            && BlocksFor(off + m) == off / BSIZE + 1
            && Reached(n0, off + m) == Max(Reached(n0, off), off / BSIZE + 1)
            && off / BSIZE <= Reached(n0, off)
            && (off / BSIZE == Reached(n0, off) ==> off % BSIZE == 0)
  {
  }

  lemma {:induction false} OwnedFacts(sb: Layout, blocks: Image, slots: seq<seq<Word>>, owner: map<nat, Place>,
                                      blocks': Image, slots': seq<seq<Word>>, owner': map<nat, Place>, i: nat,
                                      d: Dinode, d': Dinode, k: nat)
    requires Sound(sb, blocks, slots, owner, i, d) && Sound(sb, blocks', slots', owner', i, d')
    requires i < |slots'| && |slots'[i]| == PLACES && k < PLACES && slots'[i][k] != 0
    ensures 0 !in owner && Knows(slots', owner', i, k) && Knows(slots', owner', i, INDIRECT)
    ensures slots'[i][k] in owner' && owner'[slots'[i][k]] == Place(i, k) && sb.DataStart() <= slots'[i][k] < sb.size
  {
    forall c | c in owner
      ensures c != 0
    {
      assert OwnedAt(sb, blocks, slots, owner[c], c);
    }
    assert Knows(slots', owner', i, k);
    assert OwnedAt(sb, blocks', slots', owner'[slots'[i][k]], slots'[i][k]);
  }

  /** One byte after one more turn. */
  lemma {:induction false} TurnByte(sb: Layout, was: Image, slots0: seq<Word>,
                                        blocks: Image, slots: seq<seq<Word>>, owner: map<nat, Place>,
                                        blocks': Image, slots': seq<seq<Word>>, owner': map<nat, Place>,
                                        i: nat, d: Dinode, d': Dinode, n0: nat, off: nat, src: seq<Byte>, tot: nat,
                                        o: nat)
    requires sb.WellFormed() && |blocks| == |blocks'| == sb.size && i < |slots| && tot < |src|
    requires HoleFree(slots[i], Reached(n0, off + tot))
    requires BytesAre(blocks, slots[i], Reached(n0, off + tot), was, slots0, n0, off, src[..tot])
    requires BlocksFor(off) <= n0 && (tot > 0 ==> (off + tot) % BSIZE == 0) && off + |src| <= MAXFILE * BSIZE
    requires Mapped(sb, blocks, slots, owner, blocks', slots', owner', i, (off + tot) / BSIZE)
    requires Sound(sb, blocks, slots, owner, i, d) && Sound(sb, blocks', slots', owner', i, d')
    requires o < Reached(n0, off + tot + TurnSize(off + tot, |src| - tot)) * BSIZE
    ensures |slots'| == |slots| && |slots'[i]| == PLACES && 0 < slots'[i][PlaceOf((off + tot) / BSIZE)] < sb.size
    ensures var m, b := TurnSize(off + tot, |src| - tot), slots'[i][PlaceOf((off + tot) / BSIZE)];
            o < MAXFILE * BSIZE && FileByte(blocks'[b := PutBytes(blocks'[b], (off + tot) % BSIZE,
                                                                  src[tot..tot + m])], slots'[i], o)
            == Expected(was, slots0, n0, off, src[..tot + m], o)
  {
    hide Sound, Used, HoleFree, FileByte, Expected, Mapped, PutBytes, TurnSize;
    var at, bn := off + tot, (off + tot) / BSIZE;
    TurnReaches(n0, at, |src| - tot);
    MappedSound(sb, blocks, slots, owner, blocks', slots', owner', i, d, d', Reached(n0, at), bn);
    TurnBytes(sb, blocks, slots, owner, blocks', slots', owner', i, d, d', Reached(n0, at), bn, at % BSIZE,
              src[tot..tot + TurnSize(at, |src| - tot)], o);
    TurnExpects(blocks, slots[i], was, slots0, n0, off, src, tot, o);
  }

  /** The bytes after one more turn. */
  lemma {:induction false} TurnBytesAre(sb: Layout, was: Image, slots0: seq<Word>,
                                        blocks: Image, slots: seq<seq<Word>>, owner: map<nat, Place>,
                                        blocks': Image, slots': seq<seq<Word>>, owner': map<nat, Place>,
                                        i: nat, d: Dinode, d': Dinode, n0: nat, off: nat, src: seq<Byte>, tot: nat)
    requires sb.WellFormed() && |blocks| == |blocks'| == sb.size && i < |slots| && tot < |src|
    requires HoleFree(slots[i], Reached(n0, off + tot))
    requires BytesAre(blocks, slots[i], Reached(n0, off + tot), was, slots0, n0, off, src[..tot])
    requires BlocksFor(off) <= n0 && (tot > 0 ==> (off + tot) % BSIZE == 0) && off + |src| <= MAXFILE * BSIZE
    requires Mapped(sb, blocks, slots, owner, blocks', slots', owner', i, (off + tot) / BSIZE)
    requires Sound(sb, blocks, slots, owner, i, d) && Sound(sb, blocks', slots', owner', i, d')
    ensures |slots'| == |slots| && |slots'[i]| == PLACES && 0 < slots'[i][PlaceOf((off + tot) / BSIZE)] < sb.size
    ensures var m, b := TurnSize(off + tot, |src| - tot), slots'[i][PlaceOf((off + tot) / BSIZE)];
            && HoleFree(slots'[i], Reached(n0, off + tot + m))
            && BytesAre(blocks'[b := PutBytes(blocks'[b], (off + tot) % BSIZE, src[tot..tot + m])], slots'[i],
                        Reached(n0, off + tot + m), was, slots0, n0, off, src[..tot + m])
  {
    hide Sound, Used, HoleFree, FileByte, Expected, Mapped, PutBytes;
    var at, bn := off + tot, (off + tot) / BSIZE;
    var m, n := TurnSize(at, |src| - tot), Reached(n0, at);
    TurnReaches(n0, at, |src| - tot);
    MappedHoleFree(sb, blocks, slots, owner, blocks', slots', owner', i, bn, n);
    MappedSound(sb, blocks, slots, owner, blocks', slots', owner', i, d, d', n, bn);
    var b := slots'[i][PlaceOf(bn)];
    var after := blocks'[b := PutBytes(blocks'[b], at % BSIZE, src[tot..tot + m])];
    forall o: nat | o < Reached(n0, at + m) * BSIZE
      ensures FileByte(after, slots'[i], o) == Expected(was, slots0, n0, off, src[..tot + m], o)
    {
      TurnByte(sb, was, slots0, blocks, slots, owner, blocks', slots', owner', i, d, d', n0, off, src, tot, o);
    }
  }

  /** One turn keeps `Writing`. */
  lemma {:induction false} TurnWrites(sb: Layout, was: Image, slots0: seq<seq<Word>>, owner0: map<nat, Place>,
                                      blocks: Image, slots: seq<seq<Word>>, owner: map<nat, Place>, d: Dinode,
                                      blocks': Image, slots': seq<seq<Word>>, owner': map<nat, Place>, d': Dinode,
                                      i: nat, n0: nat, off: nat, src: seq<Byte>, tot: nat)
    requires sb.WellFormed() && |was| == |blocks'| == sb.size && i < |slots0| && tot < |src|
    requires Writing(sb, was, slots0, owner0, blocks, slots, owner, i, d, n0, off, src, tot)
    requires BlocksFor(off) <= n0 && (tot > 0 ==> (off + tot) % BSIZE == 0) && off + |src| <= MAXFILE * BSIZE
    requires Mapped(sb, blocks, slots, owner, blocks', slots', owner', i, (off + tot) / BSIZE)
    requires Sound(sb, blocks', slots', owner', i, d')
    ensures |slots'[i]| == PLACES && 0 < slots'[i][PlaceOf((off + tot) / BSIZE)] < sb.size
    ensures var m, b := TurnSize(off + tot, |src| - tot), slots'[i][PlaceOf((off + tot) / BSIZE)];
            Writing(sb, was, slots0, owner0, blocks'[b := PutBytes(blocks'[b], (off + tot) % BSIZE, src[tot..tot + m])],
                    slots', owner', i, d', n0, off, src, tot + m)
  {
    hide Sound, Owned, Used, HoleFree, BytesAre, OthersKept, SameInodes, Mapped, Knows, PutBytes, Reached;
    var m, bn := TurnSize(off + tot, |src| - tot), (off + tot) / BSIZE;
    TurnReaches(n0, off + tot, |src| - tot);
    TurnBytesAre(sb, was, slots0[i], blocks, slots, owner, blocks', slots', owner', i, d, d', n0, off, src, tot);
    OwnedFacts(sb, blocks, slots, owner, blocks', slots', owner', i, d, d', PlaceOf(bn));
    var b := slots'[i][PlaceOf(bn)];
    var x := PutBytes(blocks'[b], (off + tot) % BSIZE, src[tot..tot + m]);
    WriteData(sb, blocks', slots', owner', i, d', b, x);
    TurnKeepsOthers(sb, was, slots0, owner0, blocks, slots, owner, blocks', slots', owner', i, bn, x);
    TurnKeepsInodes(sb, was, blocks, slots, owner, blocks', slots', owner', i, bn, x);
  }

  /** The expectation of one more turn, byte by byte. */
  lemma {:induction false} TurnExpects(blocks: Image, slots: seq<Word>, was: Image, slots0: seq<Word>, n0: nat,
                                       off: nat,
                                       src: seq<Byte>, tot: nat, o: nat)
    requires |slots| == |slots0| == PLACES && tot < |src| && o < MAXFILE * BSIZE
    requires BlocksFor(off) <= n0 && (tot > 0 ==> (off + tot) % BSIZE == 0) && off + |src| <= MAXFILE * BSIZE
    requires o < Reached(n0, off + tot) * BSIZE ==>
               FileByte(blocks, slots, o) == Expected(was, slots0, n0, off, src[..tot], o)
    requires o < Reached(n0, off + tot + TurnSize(off + tot, |src| - tot)) * BSIZE
    ensures var at, m, n := off + tot, TurnSize(off + tot, |src| - tot), Reached(n0, off + tot);
            Expected(was, slots0, n0, off, src[..tot + m], o)
            == if o / BSIZE == at / BSIZE && at % BSIZE <= o % BSIZE < at % BSIZE + m
              then src[tot..tot + m][o % BSIZE - at % BSIZE]
               else if o < n * BSIZE then FileByte(blocks, slots, o) else 0
  {
    hide FileByte;
    var at, m := off + tot, TurnSize(off + tot, |src| - tot);
    TurnReaches(n0, at, |src| - tot);
    assert o / BSIZE == at / BSIZE && at % BSIZE <= o % BSIZE < at % BSIZE + m <==> at <= o < at + m;
  }

  lemma {:induction false} TurnKeepsOthers(sb: Layout, was: Image, slots0: seq<seq<Word>>, owner0: map<nat, Place>,
                                           blocks: Image, slots: seq<seq<Word>>, owner: map<nat, Place>,
                                           blocks': Image, slots': seq<seq<Word>>, owner': map<nat, Place>, i: nat,
                                           bn: nat, x: Block)
    requires sb.WellFormed() && |was| == |blocks| == |blocks'| == sb.size && i < |slots| && |slots[i]| == PLACES &&
             bn < MAXFILE
    requires OthersKept(was, slots0, owner0, blocks, slots, owner, i)
    requires Mapped(sb, blocks, slots, owner, blocks', slots', owner', i, bn)
    requires |slots'| == |slots| && |slots'[i]| == PLACES
    requires Knows(slots', owner', i, PlaceOf(bn)) && Knows(slots', owner', i, INDIRECT)
    requires 0 < slots'[i][PlaceOf(bn)] < sb.size && 0 !in owner
    ensures OthersKept(was, slots0, owner0, blocks'[slots'[i][PlaceOf(bn)] := x], slots', owner', i)
  {
    var a, b := slots'[i][INDIRECT], slots'[i][PlaceOf(bn)];
    assert forall c :: c in owner && owner[c].inum != i ==> c != b && (a != 0 ==> c != a);
  }

  lemma {:induction false} TurnKeepsInodes(sb: Layout, was: Image, blocks: Image, slots: seq<seq<Word>>,
                                           owner: map<nat, Place>,
                                           blocks': Image, slots': seq<seq<Word>>, owner': map<nat, Place>, i: nat,
                                           bn: nat, x: Block)
    requires sb.WellFormed() && |was| == |blocks| == |blocks'| == sb.size && i < |slots| && |slots[i]| == PLACES &&
             bn < MAXFILE
    requires SameInodes(sb, was, blocks) && Mapped(sb, blocks, slots, owner, blocks', slots', owner', i, bn)
    requires i < |slots'| && |slots'[i]| == PLACES && sb.DataStart() <= slots'[i][PlaceOf(bn)] < sb.size
    ensures SameInodes(sb, was, blocks'[slots'[i][PlaceOf(bn)] := x])
  {
    assert SameInodes(sb, blocks, blocks');
  }

  // ---- the files ----

  ghost predicate TightAt(sb: Layout, blocks: Image, slots: seq<seq<Word>>, j: nat)
    requires sb.WellFormed() && |blocks| == sb.size && j < sb.ninodes == |slots|
  {
    var size := DinodeAt(sb, blocks, j).size;
    size <= MAXFILE * BSIZE && HoleFree(slots[j], BlocksFor(size))
  }

  /** Between operations: the inode in memory is the one on disk, and no file has holes or spare blocks. */
  ghost predicate Steady(sb: Layout, blocks: Image, slots: seq<seq<Word>>, owner: map<nat, Place>, i: nat, d: Dinode) {
    && Sound(sb, blocks, slots, owner, i, d) && DinodeAt(sb, blocks, i) == d
    && forall j: nat :: j < sb.ninodes ==> TightAt(sb, blocks, slots, j)
  }

  ghost function File(sb: Layout, blocks: Image, slots: seq<seq<Word>>, j: nat): seq<Byte>
    requires sb.WellFormed() && |blocks| == sb.size && j < |slots| == sb.ninodes
  {
    var size := DinodeAt(sb, blocks, j).size;
    if |slots[j]| == PLACES && size <= MAXFILE * BSIZE then Content(blocks, slots[j], size) else []
  }

  /** The contents of every file. */
  ghost function Files(sb: Layout, blocks: Image, slots: seq<seq<Word>>): (fs: seq<seq<Byte>>)
    requires sb.WellFormed() && |blocks| == sb.size && |slots| == sb.ninodes
    ensures |fs| == sb.ninodes
  {
    seq<seq<Byte>>(sb.ninodes, j requires 0 <= j < sb.ninodes => File(sb, blocks, slots, j))
  }

  /** `c` with `src` written over it at `off`, growing it if need be. */
  function Spliced(c: seq<Byte>, off: nat, src: seq<Byte>): seq<Byte>
    requires off <= |c|
  {
    c[..off] + src + (if off + |src| < |c| then c[off + |src|..] else [])
  }

  /** Writing on from where a write ended is one longer write. */
  lemma {:induction false} SplicedTwice(c: seq<Byte>, off: nat, a: seq<Byte>, b: seq<Byte>)
    requires off <= |c|
    ensures off + |a| <= |Spliced(c, off, a)|
    ensures Spliced(Spliced(c, off, a), off + |a|, b) == Spliced(c, off, a + b)
  {
  }

  /** What was written is read back, and nothing else has changed. */
  lemma {:induction false} SplicedReads(c: seq<Byte>, off: nat, src: seq<Byte>)
    requires off <= |c|
    ensures var c' := Spliced(c, off, src);
            && |c'| == Max(|c|, off + |src|) && c'[off..off + |src|] == src
            && forall k :: 0 <= k < |c| && !(off <= k < off + |src|) ==> c'[k] == c[k]
  {
  }

  /** A file whose places, blocks and inode are untouched has the same contents. */
  lemma {:induction false} FileKept(sb: Layout, was: Image, slots0: seq<seq<Word>>, owner0: map<nat, Place>, i: nat,
                                    d0: Dinode,
                                    blocks: Image, slots: seq<seq<Word>>, j: nat)
    requires Sound(sb, was, slots0, owner0, i, d0) && |blocks| == |was| && j < sb.ninodes == |slots|
    requires TightAt(sb, was, slots0, j) && slots[j] == slots0[j] && DinodeAt(sb, blocks, j) == DinodeAt(sb, was, j)
    requires forall c :: c in owner0 && owner0[c].inum == j ==> c < sb.size && blocks[c] == was[c]
    ensures File(sb, blocks, slots, j) == File(sb, was, slots0, j) && TightAt(sb, blocks, slots, j)
  {
    var size := DinodeAt(sb, was, j).size;
    forall o: nat | o < size
      ensures FileByte(blocks, slots[j], o) == FileByte(was, slots0[j], o)
    {
      assert FilledAt(slots0[j], o / BSIZE, BlocksFor(size));
      assert Knows(slots0, owner0, j, PlaceOf(o / BSIZE));
    }
  }

  /** Data blocks are not where inodes are stored. */
  lemma {:induction false} UpdatedElsewhere(sb: Layout, blocks: Image, i: nat, d: Dinode)
    requires sb.WellFormed() && |blocks| == sb.size && i < sb.ninodes && d.WellFormed()
    ensures forall c: nat :: sb.DataStart() <= c < sb.size ==> Updated(sb, blocks, i, d)[c] == blocks[c]
  {
  }

  /** The disk writei leaves: its inode is written only if the file has grown. */
  function Ended(sb: Layout, blocks: Image, i: nat, d: Dinode, end: nat): Image
    requires sb.WellFormed() && |blocks| == sb.size && i < sb.ninodes && d.WellFormed() && end < 0x1_0000_0000
  {
    if end > d.size then Updated(sb, blocks, i, d.(size := end)) else blocks
  }

  function Grow(d: Dinode, end: nat): Dinode
    requires end < 0x1_0000_0000
  {
    if end > d.size then d.(size := end) else d
  }

  /** The other files after writei. */
  lemma {:induction false} WriteKeepsOthers(sb: Layout, was: Image, slots0: seq<seq<Word>>, owner0: map<nat, Place>,
                                            d0: Dinode,
                                            blocks: Image, slots: seq<seq<Word>>, owner: map<nat, Place>, i: nat,
                                            d: Dinode, end: nat, j: nat)
    requires Steady(sb, was, slots0, owner0, i, d0) && |slots| == |slots0| && |blocks| == |was| && j < sb.ninodes &&
             j != i
    requires OthersKept(was, slots0, owner0, blocks, slots, owner, i) && SameInodes(sb, was, blocks)
    requires d.WellFormed() && end < 0x1_0000_0000
    ensures var blocks' := Ended(sb, blocks, i, d, end);
            && |blocks'| == sb.size && DinodeAt(sb, blocks', j) == DinodeAt(sb, was, j)
            && File(sb, blocks', slots, j) == File(sb, was, slots0, j) && TightAt(sb, blocks', slots, j)
  {
    var blocks' := Ended(sb, blocks, i, d, end);
    SameDinode(sb, was, blocks, j);
    if end > d.size {
      DinodeAtUpdated(sb, blocks, i, d.(size := end), j);
      UpdatedElsewhere(sb, blocks, i, d.(size := end));
    }
    forall c | c in owner0 && owner0[c].inum == j
      ensures c < sb.size && blocks'[c] == was[c]
    {
      assert OwnedAt(sb, was, slots0, owner0[c], c);
    }
    FileKept(sb, was, slots0, owner0, i, d0, blocks', slots, j);
  }

  lemma {:induction false} Shape(sb: Layout, blocks: Image, slots: seq<seq<Word>>, owner: map<nat, Place>, i: nat,
                                 d: Dinode)
    requires Sound(sb, blocks, slots, owner, i, d)
    ensures sb.WellFormed() && |blocks| == sb.size && i < sb.ninodes == |slots| && |slots[i]| == PLACES &&
            d.WellFormed()
  {
    assert InodeMatches(sb, blocks, slots, i, d, i);
  }

  lemma {:induction false} Filled(slots: seq<Word>, n: nat, o: nat)
    requires HoleFree(slots, n) && o < n * BSIZE
    ensures slots[PlaceOf(o / BSIZE)] != 0
  {
    assert FilledAt(slots, o / BSIZE, n);
  }

  /** The written file after writei. */
  lemma {:induction false} WriteSplices(sb: Layout, was: Image, slots0: seq<seq<Word>>, owner0: map<nat, Place>,
                                        d0: Dinode,
                                        blocks: Image, slots: seq<seq<Word>>, owner: map<nat, Place>, i: nat, d: Dinode,
                                        off: nat, src: seq<Byte>)
    requires Steady(sb, was, slots0, owner0, i, d0) && off <= d0.size && off + |src| <= MAXFILE * BSIZE
    requires Writing(sb, was, slots0, owner0, blocks, slots, owner, i, d, BlocksFor(d0.size), off, src, |src|)
    requires d.size == d0.size && (Reached(BlocksFor(d0.size), off + |src|) == BlocksFor(d0.size) ==> d == d0)
    ensures var blocks' := Ended(sb, blocks, i, d, off + |src|);
            && Sound(sb, blocks', slots, owner, i, Grow(d, off + |src|))
            && DinodeAt(sb, blocks', i) == Grow(d, off + |src|) && TightAt(sb, blocks', slots, i)
            && |File(sb, was, slots0, i)| == d0.size
            && File(sb, blocks', slots, i) == Spliced(File(sb, was, slots0, i), off, src)
  {
    hide Sound, Used, HoleFree, FileByte, OthersKept, SameInodes;
    Shape(sb, was, slots0, owner0, i, d0);
    Shape(sb, blocks, slots, owner, i, d);
    assert TightAt(sb, was, slots0, i);
    var n0, end := BlocksFor(d0.size), off + |src|;
    var d', blocks' := Grow(d, end), Ended(sb, blocks, i, d, end);
    assert src[..|src|] == src && Reached(n0, end) == BlocksFor(d'.size);
    WriteSettles(sb, was, blocks, slots, owner, i, d, end);
    forall o: nat | o < d'.size
      ensures FileByte(blocks', slots[i], o) == Expected(was, slots0[i], n0, off, src, o)
    {
      Filled(slots[i], Reached(n0, end), o);
      WriteLeaves(sb, blocks, slots, owner, i, d, end, o);
    }
  }

  /** iupdate at the end of writei leaves the inode consistent ... */
  lemma {:induction false} WriteSettles(sb: Layout, was: Image, blocks: Image, slots: seq<seq<Word>>,
                                        owner: map<nat, Place>, i: nat, d: Dinode, end: nat)
    requires Sound(sb, blocks, slots, owner, i, d) && |was| == |blocks| && SameInodes(sb, was, blocks) &&
             end < 0x1_0000_0000
    requires end > d.size || DinodeAt(sb, was, i) == d
    ensures Sound(sb, Ended(sb, blocks, i, d, end), slots, owner, i, Grow(d, end))
    ensures DinodeAt(sb, Ended(sb, blocks, i, d, end), i) == Grow(d, end)
  {
    if end > d.size {
      SoundResized(sb, blocks, slots, owner, i, d, end);
      UpdateInode(sb, blocks, slots, owner, i, d.(size := end));
    } else {
      SameDinode(sb, was, blocks, i);
    }
  }

  lemma {:induction false} SoundResized(sb: Layout, blocks: Image, slots: seq<seq<Word>>, owner: map<nat, Place>,
                                        i: nat, d: Dinode, size: Word)
    requires Sound(sb, blocks, slots, owner, i, d)
    ensures Sound(sb, blocks, slots, owner, i, d.(size := size))
  {
    hide Owned, Matches, DinodeAt;
    forall j: nat | j < sb.ninodes
      ensures InodeMatches(sb, blocks, slots, i, d.(size := size), j)
    {
      assert InodeMatches(sb, blocks, slots, i, d, j);
    }
  }

  /** ... and its bytes as they were. */
  lemma {:induction false} WriteLeaves(sb: Layout, blocks: Image, slots: seq<seq<Word>>, owner: map<nat, Place>,
                                       i: nat, d: Dinode, end: nat, o: nat)
    requires Sound(sb, blocks, slots, owner, i, d) && |slots[i]| == PLACES && end < 0x1_0000_0000 && o < MAXFILE * BSIZE
    requires slots[i][PlaceOf(o / BSIZE)] != 0
    ensures FileByte(Ended(sb, blocks, i, d, end), slots[i], o) == FileByte(blocks, slots[i], o)
  {
    PlacesDiffer(sb, blocks, slots, owner, i, PlaceOf(o / BSIZE), i, PlaceOf(o / BSIZE));
    hide Sound, Owned, Used, ByteAt;
    if end > d.size {
      UpdatedElsewhere(sb, blocks, i, d.(size := end));
    }
  }

  lemma {:induction false} WritingStarts(sb: Layout, was: Image, slots0: seq<seq<Word>>, owner0: map<nat, Place>,
                                         i: nat, d0: Dinode,
                                         off: nat, src: seq<Byte>)
    requires Steady(sb, was, slots0, owner0, i, d0) && off <= d0.size
    ensures Writing(sb, was, slots0, owner0, was, slots0, owner0, i, d0, BlocksFor(d0.size), off, src, 0)
    ensures Reached(BlocksFor(d0.size), off) == BlocksFor(d0.size)
  {
    Shape(sb, was, slots0, owner0, i, d0);
    assert TightAt(sb, was, slots0, i);
    hide Owned, Sound, HoleFree, FileByte;
    SteadyKeepsOthers(sb, was, slots0, owner0, i, d0);
  }

  lemma {:induction false} SteadyKeepsOthers(sb: Layout, was: Image, slots0: seq<seq<Word>>, owner0: map<nat, Place>,
                                             i: nat, d0: Dinode)
    requires Steady(sb, was, slots0, owner0, i, d0)
    ensures OthersKept(was, slots0, owner0, was, slots0, owner0, i)
  {
    forall c | c in owner0
      ensures c < sb.size
    {
      assert OwnedAt(sb, was, slots0, owner0[c], c);
    }
  }

  /** What the loop of writei needs to know to make its next turn. */
  lemma {:induction false} WritingShape(sb: Layout, was: Image, slots0: seq<seq<Word>>, owner0: map<nat, Place>,
                                        blocks: Image, slots: seq<seq<Word>>, owner: map<nat, Place>, i: nat, d: Dinode,
                                        n0: nat, off: nat, src: seq<Byte>, tot: nat)
    requires Writing(sb, was, slots0, owner0, blocks, slots, owner, i, d, n0, off, src, tot)
    ensures sb.WellFormed() && |was| == |blocks| == sb.size && i < |slots| == |slots0| && tot <= |src|
    ensures |slots[i]| == |slots0[i]| == PLACES
    ensures Sound(sb, blocks, slots, owner, i, d) && HoleFree(slots[i], Reached(n0, off + tot))
  {
  }

  // ---- how many blocks a write logs ----

  function IndirectSet(slots: seq<Word>): set<nat>
    requires |slots| == PLACES
  {
    if slots[INDIRECT] == 0 then {} else {slots[INDIRECT]}
  }

  /** All that was logged since `logged0` is among `data` blocks, `maps` bitmap blocks and the indirect block. */
  ghost predicate LogBound(logged0: set<nat>, logged: set<nat>, data: set<nat>, maps: set<nat>, slots: seq<Word>,
                           turns: nat, taken: int)
    requires |slots| == PLACES
  {
    logged <= logged0 + data + maps + IndirectSet(slots) && |data| <= turns && |maps| <= taken
  }

  /** Blocks allocated while a file grew from places `slots0` with `n0` blocks to `slots` with `n`. */
  function Allocations(slots0: seq<Word>, n0: nat, slots: seq<Word>, n: nat): int
    requires |slots0| == |slots| == PLACES
  {
    n - n0 + if slots0[INDIRECT] == 0 && slots[INDIRECT] != 0 then 1 else 0
  }

  /** The bitmap blocks bmap(bn) has changed. */
  function MapBlocks(sb: Layout, slots: seq<Word>, slots': seq<Word>, bn: nat): set<nat>
    requires |slots| == |slots'| == PLACES && bn < MAXFILE
  {
    if slots[PlaceOf(bn)] != 0 then {}
    else {sb.BBlock(slots'[PlaceOf(bn)])} + if NeedsIndirect(slots, bn) then {sb.BBlock(slots'[INDIRECT])} else {}
  }

  /** How bmap changes the places of the inode, seen from the outside. */
  lemma {:induction false} MappedSlots(sb: Layout, blocks: Image, slots: seq<seq<Word>>, owner: map<nat, Place>,
                                       mid: Image, slots': seq<seq<Word>>, owner': map<nat, Place>, i: nat, n: nat,
                                       bn: nat)
    requires sb.WellFormed() && |blocks| == |mid| == sb.size && i < |slots| && |slots[i]| == PLACES && bn < MAXFILE &&
             bn <= n
    requires HoleFree(slots[i], n) && Mapped(sb, blocks, slots, owner, mid, slots', owner', i, bn)
    ensures |slots'| == |slots| && |slots'[i]| == PLACES && (slots[i][PlaceOf(bn)] != 0 <==> bn < n)
    ensures NeedsIndirect(slots[i], bn) && bn >= n ==> slots'[i][INDIRECT] != 0
    ensures !NeedsIndirect(slots[i], bn) || bn < n ==> slots'[i][INDIRECT] == slots[i][INDIRECT]
  {
    assert FilledAt(slots[i], bn, n);
  }

  /** One turn logs one data block, and one bitmap block for each block it allocates. */
  lemma {:induction false} LogTurn(sb: Layout, slots0: seq<Word>, n0: nat, slots: seq<seq<Word>>,
                                   slots': seq<seq<Word>>, i: nat, n: nat, bn: nat,
                                   logged0: set<nat>, logged: set<nat>, data: set<nat>, maps: set<nat>, turns: nat)
    requires i < |slots| == |slots'| && |slots0| == |slots[i]| == |slots'[i]| == PLACES && bn < MAXFILE && bn <= n &&
             n0 <= n
    requires slots[i][PlaceOf(bn)] != 0 <==> bn < n
    requires NeedsIndirect(slots[i], bn) && bn >= n ==> slots'[i][INDIRECT] != 0
    requires !NeedsIndirect(slots[i], bn) || bn < n ==> slots'[i][INDIRECT] == slots[i][INDIRECT]
    requires slots0[INDIRECT] != 0 ==> slots[i][INDIRECT] != 0
    requires LogBound(logged0, logged, data, maps, slots[i], turns, Allocations(slots0, n0, slots[i], n))
    ensures slots0[INDIRECT] != 0 ==> slots'[i][INDIRECT] != 0
    ensures var b := slots'[i][PlaceOf(bn)];
            LogBound(logged0, logged + MapLogs(sb, slots, slots', i, bn) + {b}, data + {b},
                     maps + MapBlocks(sb, slots[i], slots'[i], bn),
                     slots'[i], turns + 1, Allocations(slots0, n0, slots'[i], Max(n, bn + 1)))
  {
  }

  /**
   Nowhere does the chunk of filewrite log more than the reservation allows: four data blocks at
   most, one bitmap block for each of at most three new data blocks and a new indirect block, the
   indirect block and the inode.
   */
  lemma {:induction false} ChunkFits(size0: nat, off: nat, n: nat, slots0: seq<Word>, slots: seq<Word>,
                                     logged: set<nat>,
                                     data: set<nat>, maps: set<nat>, turns: nat, inode: nat)
    requires |slots0| == |slots| == PLACES && off <= size0 && 0 < n <= 3 * BSIZE
    requires turns == BlocksFor(off + n) - off / BSIZE
    requires LogBound({}, logged, data, maps, slots, turns, Allocations(slots0, BlocksFor(size0), slots,
               Reached(BlocksFor(size0), off + n)))
    ensures |logged + {inode}| <= 10 && |logged| <= 10
    ensures off % BSIZE == 0 ==> |logged + {inode}| <= 9 && |logged| <= 9
  {
    var all := data + maps + IndirectSet(slots);
    SubsetSize(logged, all);
    SubsetSize(logged, logged + {inode});
    assert |IndirectSet(slots)| <= 1;
    assert |all| <= |data| + |maps| + 1;
  }

  lemma {:induction false} SubsetSize(a: set<nat>, b: set<nat>)
    requires a <= b
    ensures |a| <= |b|
  {
    assert b == a + (b - a);
  }

  /** A finished writei: the file has been spliced, all others are the same, and the disk is settled. */
  lemma {:induction false} WriteEnds(sb: Layout, was: Image, slots0: seq<seq<Word>>, owner0: map<nat, Place>,
                                     d0: Dinode,
                                     blocks: Image, slots: seq<seq<Word>>, owner: map<nat, Place>, i: nat, d: Dinode,
                                     off: nat, src: seq<Byte>)
    requires Steady(sb, was, slots0, owner0, i, d0) && off <= d0.size && off + |src| <= MAXFILE * BSIZE
    requires Writing(sb, was, slots0, owner0, blocks, slots, owner, i, d, BlocksFor(d0.size), off, src, |src|)
    requires d.size == d0.size && (Reached(BlocksFor(d0.size), off + |src|) == BlocksFor(d0.size) ==> d == d0)
    ensures sb.WellFormed() && |was| == |blocks| == sb.size && i < sb.ninodes == |slots0| == |slots| && d.WellFormed()
    ensures var blocks' := Ended(sb, blocks, i, d, off + |src|);
            && Steady(sb, blocks', slots, owner, i, Grow(d, off + |src|))
            && |Files(sb, was, slots0)[i]| == d0.size
            && Files(sb, blocks', slots) == Files(sb, was, slots0)[i := Spliced(Files(sb, was, slots0)[i], off, src)]
  {
    hide Sound, HoleFree, OthersKept, SameInodes, BytesAre, File, TightAt;
    Shape(sb, was, slots0, owner0, i, d0);
    WritingShape(sb, was, slots0, owner0, blocks, slots, owner, i, d, BlocksFor(d0.size), off, src, |src|);
    Shape(sb, blocks, slots, owner, i, d);
    var blocks' := Ended(sb, blocks, i, d, off + |src|);
    WriteSplices(sb, was, slots0, owner0, d0, blocks, slots, owner, i, d, off, src);
    forall j: nat | j < sb.ninodes && j != i
      ensures File(sb, blocks', slots, j) == File(sb, was, slots0, j) && TightAt(sb, blocks', slots, j)
    {
      WriteKeepsOthers(sb, was, slots0, owner0, d0, blocks, slots, owner, i, d, off + |src|, j);
    }
  }

  /** A disk with its places and owners and the copy of the inode that is being worked on. */
  datatype Snap = Snap(blocks: Image, slots: seq<seq<Word>>, owner: map<nat, Place>, d: Dinode)

  /** What writei has logged and how many turns it has taken. */
  datatype Tally = Tally(data: set<nat>, maps: set<nat>, turns: nat)

  ghost predicate SettledSnap(sb: Layout, s: Snap, i: nat) {
    Steady(sb, s.blocks, s.slots, s.owner, i, s.d)
  }

  /** The loop invariant of writei, which began in the settled state `was`. */
  ghost predicate Underway(sb: Layout, was: Snap, now: Snap, i: nat, off: nat, src: seq<Byte>, tot: nat,
                           logged0: set<nat>, logged: set<nat>, t: Tally) {
    var n0 := BlocksFor(was.d.size);
    && SettledSnap(sb, was, i) && off <= was.d.size && off + |src| <= MAXFILE * BSIZE
    && Writing(sb, was.blocks, was.slots, was.owner, now.blocks, now.slots, now.owner, i, now.d, n0, off, src, tot)
    && now.d.size == was.d.size && (Reached(n0, off + tot) == n0 ==> now.d == was.d)
    && (0 < tot < |src| ==> (off + tot) % BSIZE == 0)
    && (was.slots[i][INDIRECT] != 0 ==> now.slots[i][INDIRECT] != 0)
    && LogBound(logged0, logged, t.data, t.maps, now.slots[i], t.turns,
                Allocations(was.slots[i], n0, now.slots[i], Reached(n0, off + tot)))
    && (if tot == 0 then t.turns == 0 else t.turns == BlocksFor(off + tot) - off / BSIZE)
  }

  lemma {:induction false} UnderwayStarts(sb: Layout, was: Snap, i: nat, off: nat, src: seq<Byte>, logged: set<nat>)
    requires SettledSnap(sb, was, i) && off <= was.d.size && off + |src| <= MAXFILE * BSIZE
    ensures Underway(sb, was, was, i, off, src, 0, logged, logged, Tally({}, {}, 0))
  {
    hide Writing, Steady;
    WritingStarts(sb, was.blocks, was.slots, was.owner, i, was.d, off, src);
    WritingShape(sb, was.blocks, was.slots, was.owner, was.blocks, was.slots, was.owner, i, was.d,
                 BlocksFor(was.d.size), off, src, 0);
  }

  lemma {:induction false} UnderwayShape(sb: Layout, was: Snap, now: Snap, i: nat, off: nat, src: seq<Byte>, tot: nat,
                                         logged0: set<nat>, logged: set<nat>, t: Tally)
    requires Underway(sb, was, now, i, off, src, tot, logged0, logged, t)
    ensures sb.WellFormed() && |was.blocks| == |now.blocks| == sb.size &&
            i < sb.ninodes == |now.slots| == |was.slots| && tot <= |src|
    ensures Sound(sb, now.blocks, now.slots, now.owner, i, now.d) && now.d.WellFormed() && now.d.size == was.d.size
  {
    hide Steady, HoleFree, LogBound;
    Shape(sb, now.blocks, now.slots, now.owner, i, now.d);
  }

  /** One turn: bmap, which leads to `mid`, and the copy into the block, which leads to `next`. */
  ghost predicate Turned(sb: Layout, now: Snap, mid: Snap, next: Snap, i: nat, o: nat, bs: seq<Byte>,
                         logged: set<nat>, logged': set<nat>) {
    && sb.WellFormed() && |now.blocks| == |mid.blocks| == sb.size && o < MAXFILE * BSIZE && o % BSIZE + |bs| <= BSIZE
    && i < |now.slots| == |mid.slots| && |now.slots[i]| == |mid.slots[i]| == PLACES
    && Mapped(sb, now.blocks, now.slots, now.owner, mid.blocks, mid.slots, mid.owner, i, o / BSIZE)
    && Sound(sb, mid.blocks, mid.slots, mid.owner, i, mid.d)
    && mid.d.size == now.d.size && mid.d.head == now.d.head
    && (now.slots[i][PlaceOf(o / BSIZE)] != 0 ==> mid.d == now.d)
    && var b := mid.slots[i][PlaceOf(o / BSIZE)];
    && 0 < b < sb.size && next == mid.(blocks := mid.blocks[b := PutBytes(mid.blocks[b], o % BSIZE, bs)])
    && logged' == logged + MapLogs(sb, now.slots, mid.slots, i, o / BSIZE) + {b}
  }

  function Counted(sb: Layout, t: Tally, slots: seq<Word>, slots': seq<Word>, bn: nat): Tally
    requires |slots| == |slots'| == PLACES && bn < MAXFILE
  {
    Tally(t.data + {slots'[PlaceOf(bn)]}, t.maps + MapBlocks(sb, slots, slots', bn), t.turns + 1)
  }

  lemma {:induction false} UnderwayTurn(sb: Layout, was: Snap, now: Snap, mid: Snap, next: Snap, i: nat, off: nat,
                                        src: seq<Byte>, tot: nat,
                                        logged0: set<nat>, logged: set<nat>, logged': set<nat>, t: Tally)
    requires Underway(sb, was, now, i, off, src, tot, logged0, logged, t) && tot < |src|
    requires Turned(sb, now, mid, next, i, off + tot, src[tot..tot + TurnSize(off + tot, |src| - tot)], logged, logged')
    ensures i < |now.slots| == |next.slots| && |now.slots[i]| == |next.slots[i]| == PLACES
    ensures Underway(sb, was, next, i, off, src, tot + TurnSize(off + tot, |src| - tot), logged0, logged',
                     Counted(sb, t, now.slots[i], next.slots[i], (off + tot) / BSIZE))
  {
    hide Steady, Writing, Sound, HoleFree, LogBound, Mapped, MapLogs, Allocations, PutBytes, MapBlocks, SetSlot,
         NeedsIndirect, TurnSize;
    var n0, o := BlocksFor(was.d.size), off + tot;
    WritingShape(sb, was.blocks, was.slots, was.owner, now.blocks, now.slots, now.owner, i, now.d, n0, off, src, tot);
    TurnReaches(n0, o, |src| - tot);
    TurnWrites(sb, was.blocks, was.slots, was.owner, now.blocks, now.slots, now.owner, now.d,
               mid.blocks, mid.slots, mid.owner, mid.d, i, n0, off, src, tot);
    MappedSlots(sb, now.blocks, now.slots, now.owner, mid.blocks, mid.slots, mid.owner, i, Reached(n0, o), o / BSIZE);
    LogTurn(sb, was.slots[i], n0, now.slots, mid.slots, i, Reached(n0, o), o / BSIZE, logged0, logged, t.data, t.maps,
            t.turns);
  }

  /** The end of writei. */
  lemma {:induction false} UnderwayEnds(sb: Layout, was: Snap, now: Snap, i: nat, off: nat, src: seq<Byte>,
                                        logged0: set<nat>, logged: set<nat>, t: Tally)
    requires Underway(sb, was, now, i, off, src, |src|, logged0, logged, t)
    ensures sb.WellFormed() && |was.blocks| == |now.blocks| == sb.size &&
            i < sb.ninodes == |was.slots| == |now.slots| && now.d.WellFormed()
    ensures var blocks' := Ended(sb, now.blocks, i, now.d, off + |src|);
            && Steady(sb, blocks', now.slots, now.owner, i, Grow(now.d, off + |src|))
            && |Files(sb, was.blocks, was.slots)[i]| == was.d.size
            && Files(sb, blocks', now.slots)
               == Files(sb, was.blocks, was.slots)[i := Spliced(Files(sb, was.blocks, was.slots)[i], off, src)]
    ensures logged0 == {} && 0 < |src| <= 3 * BSIZE ==>
              && |logged + {sb.IBlock(i)}| <= 10 && |logged| <= 10
              && (off % BSIZE == 0 ==> |logged + {sb.IBlock(i)}| <= 9 && |logged| <= 9)
  {
    hide Steady, Writing, LogBound, File, Spliced, Ended;
    WriteEnds(sb, was.blocks, was.slots, was.owner, was.d, now.blocks, now.slots, now.owner, i, now.d, off, src);
    if logged0 == {} && 0 < |src| <= 3 * BSIZE {
      WritingShape(sb, was.blocks, was.slots, was.owner, now.blocks, now.slots, now.owner, i, now.d,
                   BlocksFor(was.d.size), off, src, |src|);
      ChunkFits(was.d.size, off, |src|, was.slots[i], now.slots[i], logged, t.data, t.maps, t.turns, sb.IBlock(i));
    }
  }

  // ---- readi ----

  /** The bytes one turn of readi copies out. */
  lemma {:induction false} TurnReads(blocks: Image, slots: seq<Word>, size: nat, o: nat, m: nat)
    requires |slots| == PLACES && o + m <= size <= MAXFILE * BSIZE && o % BSIZE + m <= BSIZE && m > 0
    requires slots[PlaceOf(o / BSIZE)] < |blocks|
    ensures GetBytes(blocks[slots[PlaceOf(o / BSIZE)]], o % BSIZE, m) == Content(blocks, slots, size)[o..o + m]
  {
    hide ByteAt, GetBytes;
    var b, c := blocks[slots[PlaceOf(o / BSIZE)]], Content(blocks, slots, size)[o..o + m];
    var bs := GetBytes(b, o % BSIZE, m);
    forall k | 0 <= k < m
      ensures bs[k] == c[k]
    {
      GetBytesAt(b, o % BSIZE, m, k);
      assert (o + k) / BSIZE == o / BSIZE && (o + k) % BSIZE == o % BSIZE + k;
      assert c[k] == FileByte(blocks, slots, o + k);
    }
  }

  // ---- itrunc ----

  /** When itrunc frees a place: the direct blocks, then what the indirect block lists, then that block. */
  function FreeOrder(k: nat): nat {
    if k < INDIRECT then k else if k == INDIRECT then PLACES - 1 else k - 1
  }

  /** The first `m` places of inode `i` have been freed and nothing else has changed hands. */
  ghost predicate Freed(slots0: seq<seq<Word>>, owner0: map<nat, Place>, slots: seq<seq<Word>>,
                        owner: map<nat, Place>, i: nat, m: nat) {
    && i < |slots| == |slots0| && |slots[i]| == |slots0[i]| == PLACES
    && (forall j :: 0 <= j < |slots| && j != i ==> slots[j] == slots0[j])
    && (forall k: nat :: k < PLACES ==> slots[i][k] == if FreeOrder(k) < m then 0 else slots0[i][k])
    && (forall c :: c in owner <==> c in owner0 && !(owner0[c].inum == i && FreeOrder(owner0[c].k) < m))
    && (forall c :: c in owner ==> owner[c] == owner0[c])
  }

  /** Place `k`, the next one, is empty. */
  lemma {:induction false} FreedNothing(sb: Layout, was: Image, slots0: seq<seq<Word>>, owner0: map<nat, Place>,
                                        slots: seq<seq<Word>>, owner: map<nat, Place>, i: nat, k: nat)
    requires sb.WellFormed() && |was| == sb.size && Owned(sb, was, slots0, owner0)
    requires k < PLACES && Freed(slots0, owner0, slots, owner, i, FreeOrder(k)) && slots0[i][k] == 0
    ensures Freed(slots0, owner0, slots, owner, i, FreeOrder(k) + 1)
  {
    forall c | c in owner0
      ensures !(owner0[c].inum == i && FreeOrder(owner0[c].k) == FreeOrder(k))
    {
      assert OwnedAt(sb, was, slots0, owner0[c], c);
    }
  }

  /** Place `k`, the next one, is emptied. */
  lemma {:induction false} FreedOne(sb: Layout, was: Image, slots0: seq<seq<Word>>, owner0: map<nat, Place>,
                                    slots: seq<seq<Word>>, owner: map<nat, Place>, i: nat, k: nat)
    requires sb.WellFormed() && |was| == sb.size && Owned(sb, was, slots0, owner0)
    requires k < PLACES && Freed(slots0, owner0, slots, owner, i, FreeOrder(k)) && slots0[i][k] != 0
    ensures Freed(slots0, owner0, SetSlot(slots, i, k, 0), owner - {slots0[i][k]}, i, FreeOrder(k) + 1)
  {
    var b := slots0[i][k];
    assert Knows(slots0, owner0, i, k);
    forall c | c in owner0 && owner0[c].inum == i && FreeOrder(owner0[c].k) == FreeOrder(k)
      ensures c == b
    {
      assert OwnedAt(sb, was, slots0, owner0[c], c);
    }
  }

  /** Only bitmap blocks differ. */
  ghost predicate OnlyBitmap(sb: Layout, blocks: Image, blocks': Image) {
    && |blocks'| == |blocks|
    && forall c: nat :: c < |blocks| && (c < sb.bmapstart || c >= sb.DataStart()) ==> blocks'[c] == blocks[c]
  }

  lemma {:induction false} SetUsedOnlyBitmap(sb: Layout, was: Image, blocks: Image, b: nat, on: bool)
    requires sb.WellFormed() && |was| == |blocks| == sb.size && b < sb.size && OnlyBitmap(sb, was, blocks)
    ensures OnlyBitmap(sb, was, SetUsed(sb, blocks, b, on)) && BitsBut(sb, blocks, SetUsed(sb, blocks, b, on), b, on)
  {
    forall c: nat | c < sb.size
      ensures Used(sb, SetUsed(sb, blocks, b, on), c) == if c == b then on else Used(sb, blocks, c)
    {
      UsedSetUsed(sb, blocks, b, on, c);
    }
  }

  function NoBlocks(): (addrs: seq<Word>)
    ensures |addrs| == NDIRECT + 1 && forall k :: 0 <= k < NDIRECT + 1 ==> addrs[k] == 0
  {
    seq<Word>(NDIRECT + 1, _ => 0)
  }

  /** itrunc at its end, but for iupdate: consistent again, with all other files as they were. */
  lemma {:induction false} FreedAll(sb: Layout, was: Snap, now: Snap, i: nat)
    requires SettledSnap(sb, was, i) && OnlyBitmap(sb, was.blocks, now.blocks) &&
             Owned(sb, now.blocks, now.slots, now.owner)
    requires Freed(was.slots, was.owner, now.slots, now.owner, i, PLACES)
    requires now.d.WellFormed() && now.d.addrs == NoBlocks()
    ensures Sound(sb, now.blocks, now.slots, now.owner, i, now.d)
    ensures OthersLeft(sb, was, now, i)
    ensures i < |now.slots| == |was.slots| && |now.slots[i]| == PLACES && forall k :: 0 <= k < PLACES ==>
              now.slots[i][k] == 0
  {
    hide Owned, Used, HoleFree, DinodeAt;
    FreedOthers(sb, was, now, i);
    assert forall k: nat :: k < PLACES ==> now.slots[i][k] == 0;
    OthersMatch(sb, was.blocks, now.blocks, was.slots, now.slots, was.owner, i, was.d, now.d);
    assert InodeMatches(sb, now.blocks, now.slots, i, now.d, i);
  }

  /** What belongs to the other inodes is as it was. */
  ghost predicate OthersLeft(sb: Layout, was: Snap, now: Snap, i: nat) {
    && sb.WellFormed() && |was.blocks| == |now.blocks| == sb.size && |was.slots| == |now.slots|
    && SameInodes(sb, was.blocks, now.blocks)
    && (forall j :: 0 <= j < |was.slots| && j != i ==> now.slots[j] == was.slots[j])
    && (forall c :: c in was.owner && was.owner[c].inum != i ==> c < sb.size && now.blocks[c] == was.blocks[c])
  }

  lemma {:induction false} FreedOthers(sb: Layout, was: Snap, now: Snap, i: nat)
    requires SettledSnap(sb, was, i) && OnlyBitmap(sb, was.blocks, now.blocks)
    requires Freed(was.slots, was.owner, now.slots, now.owner, i, PLACES)
    ensures OthersLeft(sb, was, now, i)
  {
    forall c | c in was.owner
      ensures sb.DataStart() <= c < sb.size
    {
      assert OwnedAt(sb, was.blocks, was.slots, was.owner[c], c);
    }
  }

  /** itrunc's result: the file is empty, every other one is the same, and the disk is settled. */
  lemma {:induction false} TruncateEnds(sb: Layout, was: Snap, now: Snap, i: nat)
    requires SettledSnap(sb, was, i) && OthersLeft(sb, was, now, i) &&
             Sound(sb, now.blocks, now.slots, now.owner, i, now.d)
    requires now.d.size == 0 && forall k :: 0 <= k < |now.slots[i]| ==> now.slots[i][k] == 0
    ensures var blocks' := Updated(sb, now.blocks, i, now.d);
            && Steady(sb, blocks', now.slots, now.owner, i, now.d)
            && Files(sb, blocks', now.slots) == Files(sb, was.blocks, was.slots)[i := []]
  {
    hide Sound, HoleFree, File, DinodeAt, Updated;
    Shape(sb, was.blocks, was.slots, was.owner, i, was.d);
    Shape(sb, now.blocks, now.slots, now.owner, i, now.d);
    UpdateInode(sb, now.blocks, now.slots, now.owner, i, now.d);
    EmptyFile(sb, Updated(sb, now.blocks, i, now.d), now.slots, i);
    forall j: nat | j < sb.ninodes && j != i
      ensures File(sb, Updated(sb, now.blocks, i, now.d), now.slots, j) == File(sb, was.blocks, was.slots, j)
      ensures TightAt(sb, Updated(sb, now.blocks, i, now.d), now.slots, j)
    {
      assert TightAt(sb, was.blocks, was.slots, j);
      SameDinode(sb, was.blocks, now.blocks, j);
      DinodeAtUpdated(sb, now.blocks, i, now.d, j);
      UpdatedLeaves(sb, was, now, i, j);
      FileKept(sb, was.blocks, was.slots, was.owner, i, was.d, Updated(sb, now.blocks, i, now.d), now.slots, j);
    }
  }

  lemma {:induction false} UpdatedLeaves(sb: Layout, was: Snap, now: Snap, i: nat, j: nat)
    requires Sound(sb, was.blocks, was.slots, was.owner, i, was.d) && OthersLeft(sb, was, now, i) &&
             now.d.WellFormed() && j != i
    ensures forall c :: c in was.owner && was.owner[c].inum == j ==>
              c < sb.size &&
              Updated(sb, now.blocks, i, now.d)[c] == was.blocks[c]
  {
    UpdatedElsewhere(sb, now.blocks, i, now.d);
    forall c | c in was.owner && was.owner[c].inum == j
      ensures c < sb.size && Updated(sb, now.blocks, i, now.d)[c] == was.blocks[c]
    {
      assert OwnedAt(sb, was.blocks, was.slots, was.owner[c], c);
    }
  }

  lemma {:induction false} EmptyFile(sb: Layout, blocks: Image, slots: seq<seq<Word>>, i: nat)
    requires sb.WellFormed() && |blocks| == sb.size && i < sb.ninodes == |slots| && |slots[i]| == PLACES
    requires DinodeAt(sb, blocks, i).size == 0 && forall k :: 0 <= k < PLACES ==> slots[i][k] == 0
    ensures TightAt(sb, blocks, slots, i) && File(sb, blocks, slots, i) == []
  {
    forall bn: nat | bn < MAXFILE
      ensures FilledAt(slots[i], bn, 0)
    {
    }
  }

  /** The next place of itrunc, full or empty. */
  lemma {:induction false} NextFreed(sb: Layout, was: Snap, slots: seq<seq<Word>>, owner: map<nat, Place>, i: nat,
                                     k: nat)
    requires SettledSnap(sb, was, i) && k < PLACES && Freed(was.slots, was.owner, slots, owner, i, FreeOrder(k))
    ensures |slots| == |was.slots| && |slots[i]| == |was.slots[i]| == PLACES && slots[i][k] == was.slots[i][k]
    ensures was.slots[i][k] == 0 ==> Freed(was.slots, was.owner, slots, owner, i, FreeOrder(k) + 1)
    ensures was.slots[i][k] != 0 ==>
              Freed(was.slots, was.owner, SetSlot(slots, i, k, 0), owner - {was.slots[i][k]}, i, FreeOrder(k) + 1)
  {
    if was.slots[i][k] == 0 {
      FreedNothing(sb, was.blocks, was.slots, was.owner, slots, owner, i, k);
    } else {
      FreedOne(sb, was.blocks, was.slots, was.owner, slots, owner, i, k);
    }
  }

  /** Without an indirect block the rest of the places are empty. */
  lemma {:induction false} NoIndirect(sb: Layout, was: Snap, slots: seq<seq<Word>>, owner: map<nat, Place>, i: nat,
                                      m: nat)
    requires SettledSnap(sb, was, i) && was.d.addrs[INDIRECT] == 0 && NDIRECT <= m <= PLACES
    requires Freed(was.slots, was.owner, slots, owner, i, m)
    ensures Freed(was.slots, was.owner, slots, owner, i, PLACES)
    decreases PLACES - m
  {
    if m < PLACES {
      var k := if m == PLACES - 1 then INDIRECT else m + 1;
      hide Steady, Sound, Freed;
      SnapPlaces(sb, was, i);
      NextFreed(sb, was, slots, owner, i, k);
      NoIndirect(sb, was, slots, owner, i, m + 1);
    }
  }

  lemma {:induction false} SnapPlaces(sb: Layout, was: Snap, i: nat)
    requires SettledSnap(sb, was, i)
    ensures sb.WellFormed() && |was.blocks| == sb.size && i < sb.ninodes == |was.slots| && |was.slots[i]| == PLACES &&
            was.d.WellFormed()
    ensures Owned(sb, was.blocks, was.slots, was.owner)
    ensures forall k :: 0 <= k < NDIRECT + 1 ==> was.slots[i][k] == was.d.addrs[k]
    ensures was.d.addrs[INDIRECT] < sb.size && (was.d.addrs[INDIRECT] != 0 ==> was.d.addrs[INDIRECT] >= sb.DataStart())
    ensures was.d.addrs[INDIRECT] != 0 ==>
              forall k :: NDIRECT + 1 <= k < PLACES ==>
                       was.slots[i][k] == was.blocks[was.d.addrs[INDIRECT]][k - NDIRECT - 1]
    ensures was.d.addrs[INDIRECT] == 0 ==> forall k :: NDIRECT + 1 <= k < PLACES ==> was.slots[i][k] == 0
  {
    InodePlaces(sb, was.blocks, was.slots, was.owner, i, was.d);
    IndirectOwned(sb, was.blocks, was.slots, was.owner, i, was.d, i);
  }

  lemma {:induction false} TruncateStarts(sb: Layout, was: Snap, i: nat)
    requires SettledSnap(sb, was, i)
    ensures Freed(was.slots, was.owner, was.slots, was.owner, i, 0) && OnlyBitmap(sb, was.blocks, was.blocks)
  {
    SnapPlaces(sb, was, i);
  }

  lemma {:induction false} BlockFreed(sb: Layout, was: Snap, now: Snap, i: nat, c: nat)
    requires SettledSnap(sb, was, i) && Sound(sb, now.blocks, now.slots, now.owner, i, now.d)
    requires Freed(was.slots, was.owner, now.slots, now.owner, i, PLACES)
    ensures c in now.owner <==> c in was.owner && was.owner[c].inum != i
    ensures sb.DataStart() <= c < sb.size ==>
              (Used(sb, now.blocks, c) <==> Used(sb, was.blocks, c) && !(c in was.owner && was.owner[c].inum == i))
  {
    hide Used, HoleFree, Matches, DinodeAt;
    SnapPlaces(sb, was, i);
    if c in was.owner {
      assert OwnedAt(sb, was.blocks, was.slots, was.owner[c], c);
      PlacesOf(sb, was, i, was.owner[c].inum);
      assert FreeOrder(was.owner[c].k) < PLACES;
    }
    if c in now.owner {
      assert OwnedAt(sb, now.blocks, now.slots, now.owner[c], c);
    }
  }

  lemma {:induction false} PlacesOf(sb: Layout, was: Snap, i: nat, j: nat)
    requires SettledSnap(sb, was, i) && j < |was.slots|
    ensures |was.slots[j]| == PLACES
  {
    assert InodeMatches(sb, was.blocks, was.slots, i, was.d, j);
  }

  /** What itrunc frees is exactly what the inode owned. */
  lemma {:induction false} TruncateFrees(sb: Layout, was: Snap, now: Snap, i: nat)
    requires SettledSnap(sb, was, i) && Sound(sb, now.blocks, now.slots, now.owner, i, now.d)
    requires Freed(was.slots, was.owner, now.slots, now.owner, i, PLACES)
    ensures sb.WellFormed() && |was.blocks| == |now.blocks| == sb.size && i < sb.ninodes && now.d.WellFormed()
    ensures forall c :: c in now.owner <==> c in was.owner && was.owner[c].inum != i
    ensures forall c: nat :: sb.DataStart() <= c < sb.size ==>
              (Used(sb, Updated(sb, now.blocks, i, now.d), c) <==>
                Used(sb, was.blocks, c) &&
                !(c in was.owner && was.owner[c].inum == i))
  {
    hide Sound, Used, Steady, Freed;
    SnapPlaces(sb, was, i);
    Shape(sb, now.blocks, now.slots, now.owner, i, now.d);
    InodeWriteKeepsBits(sb, now.blocks, i, now.d);
    hide Updated;
    forall c: nat
      ensures c in now.owner <==> c in was.owner && was.owner[c].inum != i
      ensures sb.DataStart() <= c < sb.size ==>
                (Used(sb, now.blocks, c) <==> Used(sb, was.blocks, c) && !(c in was.owner && was.owner[c].inum == i))
    {
      BlockFreed(sb, was, now, i, c);
    }
  }
}
