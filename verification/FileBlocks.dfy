/**
 Which disk block belongs to which file: the free bitmap, the on-disk inodes with their direct and
 indirect block numbers, and what allocating, freeing and writing a block does to them (fs.c).

 Block numbers lead to a `Place` and places to block numbers; the two maps are inverse to each
 other, so that no block has two owners and no allocated data block has none.
 */
module FileBlocks {
  import opened Blocks
  import opened BlockViews

  const BPB: nat := 4096
  const IPB: nat := 8
  const DINODE_WORDS: nat := 16
  const NDIRECT: nat := 12
  const NINDIRECT: nat := 128
  const MAXFILE: nat := NDIRECT + NINDIRECT

  /** The superblock. */
  datatype Layout = Layout(size: nat, ninodes: nat, inodestart: nat, bmapstart: nat) {
    function DataStart(): nat {
      bmapstart + size / BPB + 1
    }

    function BBlock(b: nat): nat {
      b / BPB + bmapstart
    }

    function IBlock(i: nat): nat {
      i / IPB + inodestart
    }

    /** The areas mkfs lays out one after the other. */
    predicate WellFormed() {
      && 2 <= inodestart && inodestart + ninodes / IPB + 1 <= bmapstart
      && DataStart() <= size < 0x8000_0000
    }
  }

  // ---- the free bitmap ----

  predicate Used(sb: Layout, blocks: Image, b: nat)
    requires sb.WellFormed() && |blocks| == sb.size && b < sb.size
  {
    BitAt(blocks[sb.BBlock(b)], b % BPB)
  }

  function SetUsed(sb: Layout, blocks: Image, b: nat, on: bool): (blocks': Image)
    requires sb.WellFormed() && |blocks| == sb.size && b < sb.size
    ensures |blocks'| == |blocks|
  {
    blocks[sb.BBlock(b) := SetBit(blocks[sb.BBlock(b)], b % BPB, on)]
  }

  lemma {:induction false} UsedSetUsed(sb: Layout, blocks: Image, b: nat, on: bool, c: nat)
    requires sb.WellFormed() && |blocks| == sb.size && b < sb.size && c < sb.size
    ensures Used(sb, SetUsed(sb, blocks, b, on), c) == if c == b then on else Used(sb, blocks, c)
  {
    if sb.BBlock(b) == sb.BBlock(c) {
      BitAtSetBit(blocks[sb.BBlock(b)], b % BPB, on, c % BPB);
    }
  }

  /** What balloc leaves: the bit of `b` set and the block zeroed. */
  function Allocated(sb: Layout, blocks: Image, b: nat): (blocks': Image)
    requires sb.WellFormed() && |blocks| == sb.size && b < sb.size
    ensures |blocks'| == |blocks|
  {
    SetUsed(sb, blocks, b, true)[b := ZeroBlock()]
  }

  // ---- inodes on disk ----

  /** struct dinode; `head` holds type, major, minor and nlink. */
  datatype Dinode = Dinode(head: seq<Word>, size: Word, addrs: seq<Word>) {
    predicate WellFormed() {
      |head| == 2 && |addrs| == NDIRECT + 1
    }
  }

  function DinodeAt(sb: Layout, blocks: Image, i: nat): (d: Dinode)
    requires sb.WellFormed() && |blocks| == sb.size && i < sb.ninodes
    ensures d.WellFormed()
  {
    var b, o := blocks[sb.IBlock(i)], i % IPB * DINODE_WORDS;
    Dinode(b[o..o + 2], b[o + 2], b[o + 3..o + DINODE_WORDS])
  }

  /** The stores of iupdate into the inode's place in the block. */
  function PutDinode(b: Block, i: nat, d: Dinode): Block
    requires d.WellFormed()
  {
    var o := i % IPB * DINODE_WORDS;
    b[..o] + d.head + [d.size] + d.addrs + b[o + DINODE_WORDS..]
  }

  function Updated(sb: Layout, blocks: Image, i: nat, d: Dinode): (blocks': Image)
    requires sb.WellFormed() && |blocks| == sb.size && i < sb.ninodes && d.WellFormed()
    ensures |blocks'| == |blocks|
  {
    blocks[sb.IBlock(i) := PutDinode(blocks[sb.IBlock(i)], i, d)]
  }

  lemma {:induction false} DinodeAtUpdated(sb: Layout, blocks: Image, i: nat, d: Dinode, j: nat)
    requires sb.WellFormed() && |blocks| == sb.size && i < sb.ninodes && j < sb.ninodes && d.WellFormed()
    ensures DinodeAt(sb, Updated(sb, blocks, i, d), j) == if j == i then d else DinodeAt(sb, blocks, j)
  {
    if sb.IBlock(i) == sb.IBlock(j) {
      var b := blocks[sb.IBlock(i)];
      var p, o, q := PutDinode(b, i, d), i % IPB * DINODE_WORDS, j % IPB * DINODE_WORDS;
      if i == j {
        assert p[o..o + 2] == d.head && p[o + 3..o + DINODE_WORDS] == d.addrs;
      } else {
        assert q + DINODE_WORDS <= o || o + DINODE_WORDS <= q;
        assert p[q..q + 2] == b[q..q + 2] && p[q + 3..q + DINODE_WORDS] == b[q + 3..q + DINODE_WORDS];
      }
    }
  }

  // ---- places ----

  /** Place 0-11 of an inode holds a direct block, 12 the indirect block, 13-140 what that one lists. */
  const INDIRECT: nat := NDIRECT
  const PLACES: nat := NDIRECT + 1 + NINDIRECT

  datatype Place = Place(inum: nat, k: nat)

  /** The place of the `bn`-th block of a file. */
  function PlaceOf(bn: nat): nat {
    if bn < NDIRECT then bn else bn + 1
  }

  function Entry(blocks: Image, a: nat, j: nat): Word
    requires j < NINDIRECT
  {
    if a == 0 || a >= |blocks| then 0 else blocks[a][j]
  }

  /** `slots` is what the places of an inode with these `addrs` hold. */
  ghost predicate Matches(blocks: Image, addrs: seq<Word>, slots: seq<Word>) {
    && |addrs| == NDIRECT + 1 && |slots| == PLACES
    && (forall k :: 0 <= k < NDIRECT + 1 ==> slots[k] == addrs[k])
    && forall k :: NDIRECT + 1 <= k < PLACES ==> slots[k] == Entry(blocks, addrs[INDIRECT], k - NDIRECT - 1)
  }

  ghost predicate OwnedAt(sb: Layout, blocks: Image, slots: seq<seq<Word>>, p: Place, b: nat)
    requires sb.WellFormed() && |blocks| == sb.size
  {
    && sb.DataStart() <= b < sb.size && Used(sb, blocks, b)
    && p.inum < |slots| && p.k < |slots[p.inum]| && slots[p.inum][p.k] == b
  }

  /** What place `k` of inode `i` holds is a block that knows it. */
  ghost predicate Knows(slots: seq<seq<Word>>, owner: map<nat, Place>, i: nat, k: nat)
    requires i < |slots| && k < |slots[i]|
  {
    slots[i][k] != 0 ==> slots[i][k] in owner && owner[slots[i][k]] == Place(i, k)
  }

  /** Every block is free, or metadata, or in exactly one place of one inode. */
  ghost predicate Owned(sb: Layout, blocks: Image, slots: seq<seq<Word>>, owner: map<nat, Place>)
    requires sb.WellFormed() && |blocks| == sb.size
  {
    && (forall b :: b in owner ==> OwnedAt(sb, blocks, slots, owner[b], b))
    && (forall i: nat, k: nat :: i < |slots| && k < |slots[i]| ==> Knows(slots, owner, i, k))
    && (forall b: nat :: b < sb.size && Used(sb, blocks, b) ==> b < sb.DataStart() || b in owner)
    && (forall b: nat :: b < sb.DataStart() ==> Used(sb, blocks, b))
  }

  /** Two different places never hold the same block. */
  lemma {:induction false} PlacesDiffer(sb: Layout, blocks: Image, slots: seq<seq<Word>>, owner: map<nat, Place>,
                                        i: nat, k: nat, j: nat, l: nat)
    requires sb.WellFormed() && |blocks| == sb.size && Owned(sb, blocks, slots, owner)
    requires i < |slots| && k < |slots[i]| && j < |slots| && l < |slots[j]|
    requires slots[i][k] == slots[j][l] != 0
    ensures i == j && k == l && sb.DataStart() <= slots[i][k] < sb.size && Used(sb, blocks, slots[i][k])
  {
    assert Knows(slots, owner, i, k) && Knows(slots, owner, j, l);
    assert OwnedAt(sb, blocks, slots, owner[slots[i][k]], slots[i][k]);
  }

  function SetSlot(slots: seq<seq<Word>>, i: nat, k: nat, b: Word): (slots': seq<seq<Word>>)
    requires i < |slots| && k < |slots[i]|
    ensures |slots'| == |slots|
  {
    var s: seq<Word> := slots[i][k := b];
    slots[i := s]
  }

  /** Only the bit of `b` differs. */
  ghost predicate BitsBut(sb: Layout, blocks: Image, blocks': Image, b: nat, on: bool)
    requires sb.WellFormed() && |blocks| == |blocks'| == sb.size && b < sb.size
  {
    forall c: nat :: c < sb.size ==> Used(sb, blocks', c) == if c == b then on else Used(sb, blocks, c)
  }

  lemma {:induction false} OwnMore(sb: Layout, blocks: Image, blocks': Image, slots: seq<seq<Word>>,
                                   owner: map<nat, Place>,
                                   i: nat, k: nat, b: Word)
    requires sb.WellFormed() && |blocks| == |blocks'| == sb.size && Owned(sb, blocks, slots, owner)
    requires i < |slots| && k < |slots[i]| && slots[i][k] == 0 && b < sb.size && !Used(sb, blocks, b)
    requires BitsBut(sb, blocks, blocks', b, true)
    ensures b !in owner && b >= sb.DataStart()
    ensures Owned(sb, blocks', SetSlot(slots, i, k, b), owner[b := Place(i, k)])
  {
    var slots', owner' := SetSlot(slots, i, k, b), owner[b := Place(i, k)];
    assert b in owner ==> OwnedAt(sb, blocks, slots, owner[b], b);
    hide Used;
    forall c | c in owner'
      ensures OwnedAt(sb, blocks', slots', owner'[c], c)
    {
      if c != b {
        assert OwnedAt(sb, blocks, slots, owner[c], c);
      }
    }
    forall j: nat, l: nat | j < |slots'| && l < |slots'[j]|
      ensures Knows(slots', owner', j, l)
    {
      assert Knows(slots, owner, j, l);
    }
  }

  lemma {:induction false} OwnLess(sb: Layout, blocks: Image, blocks': Image, slots: seq<seq<Word>>,
                                   owner: map<nat, Place>,
                                   i: nat, k: nat)
    requires sb.WellFormed() && |blocks| == |blocks'| == sb.size && Owned(sb, blocks, slots, owner)
    requires i < |slots| && k < |slots[i]| && slots[i][k] != 0
    ensures sb.DataStart() <= slots[i][k] < sb.size && Used(sb, blocks, slots[i][k])
    ensures slots[i][k] in owner && owner[slots[i][k]] == Place(i, k)
    ensures BitsBut(sb, blocks, blocks', slots[i][k], false) ==>
              Owned(sb, blocks', SetSlot(slots, i, k, 0), owner - {slots[i][k]})
  {
    var b, slots', owner' := slots[i][k], SetSlot(slots, i, k, 0), owner - {slots[i][k]};
    assert Knows(slots, owner, i, k) && OwnedAt(sb, blocks, slots, owner[b], b);
    hide Used;
    if BitsBut(sb, blocks, blocks', b, false) {
      forall c | c in owner'
        ensures OwnedAt(sb, blocks', slots', owner'[c], c)
      {
        assert OwnedAt(sb, blocks, slots, owner[c], c);
      }
      forall j: nat, l: nat | j < |slots'| && l < |slots'[j]|
        ensures Knows(slots', owner', j, l)
      {
        assert Knows(slots, owner, j, l);
      }
    }
  }

  // ---- the whole disk, with the inode in memory that is being worked on ----

  /** Inode `j` matches its places; the copy `d` of inode `i` in memory counts for that inode. */
  ghost predicate InodeMatches(sb: Layout, blocks: Image, slots: seq<seq<Word>>, i: nat, d: Dinode, j: nat)
    requires sb.WellFormed() && |blocks| == sb.size && j < sb.ninodes == |slots|
  {
    Matches(blocks, (if j == i then d else DinodeAt(sb, blocks, j)).addrs, slots[j])
  }

  ghost predicate Sound(sb: Layout, blocks: Image, slots: seq<seq<Word>>, owner: map<nat, Place>, i: nat, d: Dinode) {
    && sb.WellFormed() && |blocks| == sb.size && i < sb.ninodes == |slots| && d.WellFormed()
    && Owned(sb, blocks, slots, owner)
    && forall j: nat :: j < sb.ninodes ==> InodeMatches(sb, blocks, slots, i, d, j)
  }

  ghost predicate SameInodes(sb: Layout, blocks: Image, blocks': Image)
    requires sb.WellFormed() && |blocks| == |blocks'| == sb.size
  {
    forall c: nat :: sb.inodestart <= c < sb.bmapstart ==> blocks'[c] == blocks[c]
  }

  /** An inode whose indirect block is untouched still matches. */
  lemma {:induction false} OtherMatches(sb: Layout, blocks: Image, blocks': Image, slots: seq<seq<Word>>,
                                        slots': seq<seq<Word>>,
                                        i: nat, d: Dinode, d': Dinode, j: nat)
    requires sb.WellFormed() && |blocks| == |blocks'| == sb.size && j < sb.ninodes == |slots| == |slots'| && j != i
    requires InodeMatches(sb, blocks, slots, i, d, j) && SameInodes(sb, blocks, blocks') && slots'[j] == slots[j]
    requires var a := slots[j][INDIRECT]; a != 0 ==> a < sb.size && blocks'[a] == blocks[a]
    ensures InodeMatches(sb, blocks', slots', i, d', j)
  {
    assert blocks'[sb.IBlock(j)] == blocks[sb.IBlock(j)];
    assert DinodeAt(sb, blocks', j) == DinodeAt(sb, blocks, j);
  }

  /** An allocation touches no owned block and no inode block. */
  lemma {:induction false} AllocatedElsewhere(sb: Layout, blocks: Image, slots: seq<seq<Word>>,
                                              owner: map<nat, Place>, b: nat)
    requires sb.WellFormed() && |blocks| == sb.size && Owned(sb, blocks, slots, owner)
    requires b < sb.size && !Used(sb, blocks, b)
    ensures b >= sb.DataStart() && b !in owner && SameInodes(sb, blocks, Allocated(sb, blocks, b))
    ensures forall c :: c in owner ==> c < sb.size && Allocated(sb, blocks, b)[c] == blocks[c]
    ensures Allocated(sb, blocks, b)[b] == ZeroBlock()
  {
    assert b in owner ==> OwnedAt(sb, blocks, slots, owner[b], b);
    forall c | c in owner
      ensures c < sb.size && c != b && c != sb.BBlock(b)
    {
      assert OwnedAt(sb, blocks, slots, owner[c], c);
    }
  }

  lemma {:induction false} AllocatedBits(sb: Layout, blocks: Image, b: nat)
    requires sb.WellFormed() && |blocks| == sb.size && sb.DataStart() <= b < sb.size
    ensures BitsBut(sb, blocks, Allocated(sb, blocks, b), b, true)
  {
    forall c: nat | c < sb.size
      ensures Used(sb, Allocated(sb, blocks, b), c) == if c == b then true else Used(sb, blocks, c)
    {
      UsedSetUsed(sb, blocks, b, true, c);
    }
  }

  /** The indirect block of an inode, if it has one, is a block it owns. */
  lemma {:induction false} IndirectOwned(sb: Layout, blocks: Image, slots: seq<seq<Word>>, owner: map<nat, Place>,
                                         i: nat, d: Dinode, j: nat)
    requires Sound(sb, blocks, slots, owner, i, d) && j < sb.ninodes
    ensures |slots[j]| == PLACES
    ensures var a := slots[j][INDIRECT];
            a != 0 ==> a in owner && owner[a] == Place(j, INDIRECT) && sb.DataStart() <= a < sb.size
  {
    assert InodeMatches(sb, blocks, slots, i, d, j);
    assert Knows(slots, owner, j, INDIRECT);
    var a := slots[j][INDIRECT];
    assert a != 0 ==> OwnedAt(sb, blocks, slots, owner[a], a);
  }

  /** What belongs to inode `i` may change; the other inodes still match. */
  lemma {:induction false} OthersMatch(sb: Layout, blocks: Image, blocks': Image, slots: seq<seq<Word>>,
                                       slots': seq<seq<Word>>,
                                       owner: map<nat, Place>, i: nat, d: Dinode, d': Dinode)
    requires Sound(sb, blocks, slots, owner, i, d) && |blocks'| == |blocks| && |slots'| == |slots|
    requires SameInodes(sb, blocks, blocks') && forall j :: 0 <= j < |slots| && j != i ==> slots'[j] == slots[j]
    requires forall c :: c in owner && owner[c].inum != i ==> c < sb.size && blocks'[c] == blocks[c]
    ensures forall j: nat :: j < sb.ninodes && j != i ==> InodeMatches(sb, blocks', slots', i, d', j)
  {
    hide Owned, DinodeAt, Matches, SameInodes;
    forall j: nat | j < sb.ninodes && j != i
      ensures InodeMatches(sb, blocks', slots', i, d', j)
    {
      assert InodeMatches(sb, blocks, slots, i, d, j);
      IndirectOwned(sb, blocks, slots, owner, i, d, j);
      OtherMatches(sb, blocks, blocks', slots, slots', i, d, d', j);
    }
  }

  lemma {:induction false} EntryMatches(blocks: Image, blocks': Image, addrs: seq<Word>, slots: seq<Word>, j: nat,
                                        b: Word)
    requires Matches(blocks, addrs, slots) && |blocks'| == |blocks| && j < NINDIRECT
    requires var a := addrs[INDIRECT]; 0 < a < |blocks| && blocks'[a] == SetWord(blocks[a], j, b)
    ensures Matches(blocks', addrs, slots[PlaceOf(NDIRECT + j) := b])
  {
  }

  lemma {:induction false} FreeIsData(sb: Layout, blocks: Image, slots: seq<seq<Word>>, owner: map<nat, Place>, i: nat,
                                      d: Dinode, b: nat)
    requires Sound(sb, blocks, slots, owner, i, d) && b < sb.size && !Used(sb, blocks, b)
    ensures b >= sb.DataStart()
  {
  }

  /** bmap gives an empty direct place, or the empty place of the indirect block, a new block. */
  lemma {:induction false} AllocDirect(sb: Layout, blocks: Image, slots: seq<seq<Word>>, owner: map<nat, Place>,
                                       i: nat, d: Dinode,
                                       k: nat, b: Word)
    requires Sound(sb, blocks, slots, owner, i, d) && k <= INDIRECT && d.addrs[k] == 0
    requires b < sb.size && !Used(sb, blocks, b)
    ensures |slots[i]| == PLACES && slots[i][k] == 0 && b !in owner && b > 0 &&
            Allocated(sb, blocks, b)[b] == ZeroBlock()
    ensures Sound(sb, Allocated(sb, blocks, b), SetSlot(slots, i, k, b), owner[b := Place(i, k)], i,
                  d.(addrs := d.addrs[k := b]))
  {
    assert InodeMatches(sb, blocks, slots, i, d, i);
    var blocks', slots', d' := Allocated(sb, blocks, b), SetSlot(slots, i, k, b), d.(addrs := d.addrs[k := b]);
    AllocatedElsewhere(sb, blocks, slots, owner, b);
    AllocatedBits(sb, blocks, b);
    OwnMore(sb, blocks, blocks', slots, owner, i, k, b);
    hide Used, Owned, BitsBut;
    IndirectOwned(sb, blocks, slots, owner, i, d, i);
    assert InodeMatches(sb, blocks', slots', i, d', i);
    OthersMatch(sb, blocks, blocks', slots, slots', owner, i, d, d');
  }

  function SetWord(b: Block, j: nat, w: Word): Block
    requires j < WORDS
  {
    b[j := w]
  }

  /** What bmap leaves when it has filled entry `j` of the indirect block `a`. */
  function AllocatedEntry(sb: Layout, blocks: Image, a: nat, j: nat, b: Word): (blocks': Image)
    requires sb.WellFormed() && |blocks| == sb.size && b < sb.size && a < sb.size && j < NINDIRECT
    ensures |blocks'| == |blocks|
  {
    Allocated(sb, blocks, b)[a := SetWord(blocks[a], j, b)]
  }

  lemma {:induction false} AllocEntry(sb: Layout, blocks: Image, slots: seq<seq<Word>>, owner: map<nat, Place>,
                                      i: nat, d: Dinode,
                                      j: nat, b: Word)
    requires Sound(sb, blocks, slots, owner, i, d) && j < NINDIRECT && b < sb.size && !Used(sb, blocks, b)
    requires var a := d.addrs[INDIRECT]; 0 < a < sb.size && blocks[a][j] == 0
    ensures |slots[i]| == PLACES && slots[i][INDIRECT] == d.addrs[INDIRECT] && slots[i][PlaceOf(NDIRECT + j)] == 0
    ensures b !in owner && b > 0 && Allocated(sb, blocks, b)[d.addrs[INDIRECT]] == blocks[d.addrs[INDIRECT]]
    ensures Sound(sb, AllocatedEntry(sb, blocks, d.addrs[INDIRECT], j, b), SetSlot(slots, i, PlaceOf(NDIRECT + j), b),
                  owner[b := Place(i, PlaceOf(NDIRECT + j))], i, d)
  {
    var a, k := d.addrs[INDIRECT], PlaceOf(NDIRECT + j);
    assert InodeMatches(sb, blocks, slots, i, d, i);
    var mid, blocks', slots' := Allocated(sb, blocks, b), AllocatedEntry(sb, blocks, a, j, b), SetSlot(slots, i, k, b);
    assert slots[i][k] == Entry(blocks, a, j);
    IndirectOwned(sb, blocks, slots, owner, i, d, i);
    AllocatedElsewhere(sb, blocks, slots, owner, b);
    AllocatedBits(sb, blocks, b);
    OwnMore(sb, blocks, blocks', slots, owner, i, k, b);
    hide Used, Owned, BitsBut, Allocated, DinodeAt;
    EntryMatches(blocks, blocks', d.addrs, slots[i], j, b);
    hide Matches;
    OthersMatch(sb, blocks, blocks', slots, slots', owner, i, d, d);
  }

  /** The inode in memory and its indirect block show what its places hold. */
  lemma {:induction false} InodePlaces(sb: Layout, blocks: Image, slots: seq<seq<Word>>, owner: map<nat, Place>,
                                       i: nat, d: Dinode)
    requires Sound(sb, blocks, slots, owner, i, d)
    ensures |slots[i]| == PLACES && |d.addrs| == NDIRECT + 1
    ensures forall k :: 0 <= k < NDIRECT + 1 ==> slots[i][k] == d.addrs[k]
    ensures d.addrs[INDIRECT] < sb.size
    ensures d.addrs[INDIRECT] != 0 ==>
              forall k :: NDIRECT + 1 <= k < PLACES ==> slots[i][k] == blocks[d.addrs[INDIRECT]][k - NDIRECT - 1]
    ensures d.addrs[INDIRECT] == 0 ==> forall k :: NDIRECT + 1 <= k < PLACES ==> slots[i][k] == 0
  {
    assert InodeMatches(sb, blocks, slots, i, d, i);
    IndirectOwned(sb, blocks, slots, owner, i, d, i);
  }

  lemma {:induction false} SameDinode(sb: Layout, blocks: Image, blocks': Image, j: nat)
    requires sb.WellFormed() && |blocks| == |blocks'| == sb.size && j < sb.ninodes && SameInodes(sb, blocks, blocks')
    ensures DinodeAt(sb, blocks', j) == DinodeAt(sb, blocks, j)
  {
    assert blocks'[sb.IBlock(j)] == blocks[sb.IBlock(j)];
  }

  /** Writing file data changes nobody's block numbers. */
  lemma {:induction false} WriteData(sb: Layout, blocks: Image, slots: seq<seq<Word>>, owner: map<nat, Place>, i: nat,
                                     d: Dinode,
                                     b: nat, x: Block)
    requires Sound(sb, blocks, slots, owner, i, d) && b in owner && owner[b].k != INDIRECT
    ensures sb.DataStart() <= b < sb.size && Sound(sb, blocks[b := x], slots, owner, i, d)
  {
    var blocks' := blocks[b := x];
    assert OwnedAt(sb, blocks, slots, owner[b], b);
    BitsKeepOwned(sb, blocks, blocks', slots, owner);
    hide Used, Owned, DinodeAt, Matches;
    forall j: nat | j < sb.ninodes
      ensures InodeMatches(sb, blocks', slots, i, d, j)
    {
      var addrs := (if j == i then d else DinodeAt(sb, blocks, j)).addrs;
      assert InodeMatches(sb, blocks, slots, i, d, j);
      IndirectOwned(sb, blocks, slots, owner, i, d, j);
      SameDinode(sb, blocks, blocks', j);
    }
  }

  lemma {:induction false} BitsKeepOwned(sb: Layout, blocks: Image, blocks': Image, slots: seq<seq<Word>>,
                                         owner: map<nat, Place>)
    requires sb.WellFormed() && |blocks| == |blocks'| == sb.size && Owned(sb, blocks, slots, owner)
    requires forall c: nat :: c < sb.size ==> Used(sb, blocks', c) == Used(sb, blocks, c)
    ensures Owned(sb, blocks', slots, owner)
  {
    hide Used;
    forall c | c in owner
      ensures OwnedAt(sb, blocks', slots, owner[c], c)
    {
      assert OwnedAt(sb, blocks, slots, owner[c], c);
    }
  }

  lemma {:induction false} InodeWriteKeepsBits(sb: Layout, blocks: Image, i: nat, d: Dinode)
    requires sb.WellFormed() && |blocks| == sb.size && i < sb.ninodes && d.WellFormed()
    ensures forall c: nat :: c < sb.size ==> Used(sb, Updated(sb, blocks, i, d), c) == Used(sb, blocks, c)
  {
    assert forall c: nat :: c < sb.size ==> sb.BBlock(c) != sb.IBlock(i);
  }

  /** iupdate brings the disk up to date with the inode in memory and changes no other inode. */
  lemma {:induction false} UpdateInode(sb: Layout, blocks: Image, slots: seq<seq<Word>>, owner: map<nat, Place>,
                                       i: nat, d: Dinode)
    requires Sound(sb, blocks, slots, owner, i, d)
    ensures Sound(sb, Updated(sb, blocks, i, d), slots, owner, i, d)
    ensures DinodeAt(sb, Updated(sb, blocks, i, d), i) == d
  {
    var blocks' := Updated(sb, blocks, i, d);
    InodeWriteKeepsBits(sb, blocks, i, d);
    BitsKeepOwned(sb, blocks, blocks', slots, owner);
    DinodeAtUpdated(sb, blocks, i, d, i);
    hide Used, Owned, DinodeAt, PutDinode;
    forall j: nat | j < sb.ninodes
      ensures InodeMatches(sb, blocks', slots, i, d, j)
    {
      var addrs := (if j == i then d else DinodeAt(sb, blocks, j)).addrs;
      assert InodeMatches(sb, blocks, slots, i, d, j);
      IndirectOwned(sb, blocks, slots, owner, i, d, j);
      DinodeAtUpdated(sb, blocks, i, d, j);
    }
  }
}
