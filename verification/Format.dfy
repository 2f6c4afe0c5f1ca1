/** The disk mkfs lays out, before any file is on it: it is consistent, and every file is empty. */
module Format {
  import opened Blocks
  import opened BlockViews
  import opened FileBlocks
  import opened FileContent
  import opened FileSystem
  import Protocol = GroupCommit

  function EmptyInode(): Dinode {
    Dinode([0, 0], 0, seq(NDIRECT + 1, _ => 0))
  }

  function NoPlaces(sb: Layout): seq<seq<Word>> {
    seq(sb.ninodes, _ => seq(PLACES, _ => 0))
  }

  /** Zeroed blocks, the first `n` marked used. */
  function Formatted(sb: Layout, n: nat): (d: Image)
    requires sb.WellFormed() && n <= sb.size
    ensures |d| == sb.size
  {
    if n == 0 then seq(sb.size, _ => ZeroBlock()) else SetUsed(sb, Formatted(sb, n - 1), n - 1, true)
  }

  lemma {:induction false} FormattedUsed(sb: Layout, n: nat, c: nat)
    requires sb.WellFormed() && n <= sb.size && c < sb.size
    ensures Used(sb, Formatted(sb, n), c) <==> c < n
    ensures c < sb.bmapstart ==> Formatted(sb, n)[c] == ZeroBlock()
  {
    hide BitAt, SetBit;
    if n == 0 {
      ZeroBit(c % BPB);
    } else {
      FormattedUsed(sb, n - 1, c);
      UsedSetUsed(sb, Formatted(sb, n - 1), n - 1, true, c);
      hide Used;
      assert sb.BBlock(n - 1) >= sb.bmapstart;
    }
  }

  lemma {:induction false} ZeroBit(bi: nat)
    requires bi < 8 * BSIZE
    ensures !BitAt(ZeroBlock(), bi)
  {
    ZeroBytes(bi / 8);
    ZeroBits(bi % 8);
  }

  lemma {:induction false} ZeroBits(k: nat)
    ensures !Bit(0, k)
  {
    if k > 0 {
      ZeroBits(k - 1);
    }
  }

  lemma {:induction false} FormattedInode(sb: Layout, j: nat)
    requires sb.WellFormed() && j < sb.ninodes
    ensures DinodeAt(sb, Formatted(sb, sb.DataStart()), j) == EmptyInode()
  {
    hide Formatted, Used;
    assert j / IPB <= sb.ninodes / IPB;
    FormattedUsed(sb, sb.DataStart(), sb.IBlock(j));
  }

  lemma {:induction false} FormattedOwned(sb: Layout)
    requires sb.WellFormed()
    ensures Owned(sb, Formatted(sb, sb.DataStart()), NoPlaces(sb), map[])
  {
    hide Formatted, Used;
    forall c: nat | c < sb.size
      ensures Used(sb, Formatted(sb, sb.DataStart()), c) <==> c < sb.DataStart()
    {
      FormattedUsed(sb, sb.DataStart(), c);
    }
  }

  /** It is settled, whichever inode is in memory. */
  lemma {:induction false} FormattedSettled(sb: Layout, i: nat)
    requires sb.WellFormed() && i < sb.ninodes
    ensures var d := Formatted(sb, sb.DataStart());
            Steady(sb, d, NoPlaces(sb), map[], i, EmptyInode()) &&
              Files(sb, d, NoPlaces(sb)) == seq(sb.ninodes, _ => [])
  {
    hide Formatted, Used, DinodeAt, Owned, InodeMatches, TightAt, File;
    var d, slots := Formatted(sb, sb.DataStart()), NoPlaces(sb);
    FormattedOwned(sb);
    forall j: nat | j < sb.ninodes
      ensures InodeMatches(sb, d, slots, i, EmptyInode(), j) && TightAt(sb, d, slots, j) && File(sb, d, slots, j) == []
    {
      FormattedAt(sb, i, j);
    }
    FormattedInode(sb, i);
  }

  lemma {:induction false} FormattedAt(sb: Layout, i: nat, j: nat)
    requires sb.WellFormed() && i < sb.ninodes && j < sb.ninodes
    ensures var d, slots := Formatted(sb, sb.DataStart()), NoPlaces(sb);
            InodeMatches(sb, d, slots, i, EmptyInode(), j) && TightAt(sb, d, slots, j) && File(sb, d, slots, j) == []
  {
    hide Formatted, DinodeAt;
    FormattedInode(sb, j);
  }

  /** A file system on such a disk. */
  method Mkfs(sb: Layout) returns (disk: Disk)
    requires sb.WellFormed()
    ensures fresh(disk) && disk.sb == sb && |disk.blocks| == sb.size && |disk.slots| == sb.ninodes
    ensures forall i: nat :: i < sb.ninodes ==> Steady(sb, disk.blocks, disk.slots, disk.owner, i, EmptyInode())
    ensures disk.AllFiles() == seq(sb.ninodes, _ => [])
  {
    hide Steady, Files, SetUsed;
    var blocks := seq(sb.size, _ => ZeroBlock());
    for b := 0 to sb.DataStart()
      invariant blocks == Formatted(sb, b)
    {
      blocks := SetUsed(sb, blocks, b, true);
    }
    forall i: nat | i < sb.ninodes
      ensures Steady(sb, blocks, NoPlaces(sb), map[], i, EmptyInode())
    {
      FormattedSettled(sb, i);
    }
    disk := new Disk(sb, blocks, NoPlaces(sb), map[]);
    if sb.ninodes > 0 {
      FormattedSettled(sb, 0);
    }
  }

  // ---- a file whose truncation is too long for one transaction ----

  /** The first block of each of `n` bitmap blocks after the first one, and no others. */
  function SpreadAddrs(n: nat): (addrs: seq<Word>)
    requires n <= NDIRECT
    ensures |addrs| == NDIRECT + 1
    ensures forall k :: 0 <= k <= NDIRECT ==> addrs[k] == if k < n then (k + 1) * BPB else 0
  {
    seq(NDIRECT + 1, k requires 0 <= k <= NDIRECT => if k < n then (k + 1) * BPB else 0)
  }

  /** Inode `i` has these blocks, and no other inode has any. */
  ghost predicate Spread(sb: Layout, i: nat, n: nat, s: Snap)
    requires n <= NDIRECT
  {
    && Sound(sb, s.blocks, s.slots, s.owner, i, s.d) && s.d == EmptyInode().(addrs := SpreadAddrs(n))
    && SameInodes(sb, Formatted(sb, sb.DataStart()), s.blocks)
    && (forall j :: 0 <= j < sb.ninodes && j != i ==> s.slots[j] == NoPlaces(sb)[j])
    && (forall b :: b in s.owner <==> exists k :: SpreadTo(n, k, b))
    && (forall b :: b in s.owner ==> s.owner[b].inum == i)
  }

  ghost predicate SpreadTo(n: nat, k: int, b: nat) {
    0 <= k < n && b == (k + 1) * BPB
  }

  lemma {:induction false} SpreadOne(sb: Layout, i: nat, n: nat, s: Snap) returns (t: Snap)
    requires n < NDIRECT && Spread(sb, i, n, s) && sb.DataStart() <= BPB && (n + 1) * BPB < sb.size
    ensures Spread(sb, i, n + 1, t)
  {
    hide Sound, SameInodes, Formatted, Allocated, Used;
    var b: Word, m := (n + 1) * BPB, n + 1;
    SpreadFree(sb, i, n, s, b);
    AllocDirect(sb, s.blocks, s.slots, s.owner, i, s.d, n, b);
    t := Snap(Allocated(sb, s.blocks, b), SetSlot(s.slots, i, n, b), s.owner[b := Place(i, n)],
              s.d.(addrs := s.d.addrs[n := b]));
    assert t.d.addrs == SpreadAddrs(m);
    forall c
      ensures c in t.owner <==> exists k :: SpreadTo(m, k, c)
    {
      assert SpreadTo(m, n, b);
      if k :| SpreadTo(n, k, c) { assert SpreadTo(m, k, c); }
      if k :| SpreadTo(m, k, c) { assert k < n ==> SpreadTo(n, k, c); }
    }
  }

  /** The next block is free, and giving it to the file touches no inode. */
  lemma {:induction false} SpreadFree(sb: Layout, i: nat, n: nat, s: Snap, b: nat)
    requires n < NDIRECT && Spread(sb, i, n, s) && sb.DataStart() <= BPB && b == (n + 1) * BPB < sb.size
    ensures sb.WellFormed() && |s.blocks| == sb.size && i < |s.slots| == sb.ninodes && |s.slots[i]| == PLACES
    ensures !Used(sb, s.blocks, b) && SameInodes(sb, Formatted(sb, sb.DataStart()), Allocated(sb, s.blocks, b))
  {
    hide Used, Formatted, DinodeAt, Matches;
    assert InodeMatches(sb, s.blocks, s.slots, i, s.d, i);
    IndirectOwned(sb, s.blocks, s.slots, s.owner, i, s.d, i);
    forall k | SpreadTo(n, k, b)
      ensures false
    {
    }
    AllocatedElsewhere(sb, s.blocks, s.slots, s.owner, b);
  }

  lemma {:induction false} SpreadStart(sb: Layout, i: nat)
    requires sb.WellFormed() && i < sb.ninodes
    ensures Spread(sb, i, 0, Snap(Formatted(sb, sb.DataStart()), NoPlaces(sb), map[], EmptyInode()))
  {
    FormattedSettled(sb, i);
    hide Sound, Formatted;
    assert EmptyInode().addrs == SpreadAddrs(0);
  }

  /** The inode gets its size; the disk is settled, and the file owns blocks of twelve bitmap blocks. */
  lemma {:induction false} SpreadSettles(sb: Layout, i: nat, s: Snap) returns (t: Snap)
    requires Spread(sb, i, NDIRECT, s) && sb.WellFormed()
    ensures SettledSnap(sb, t, i) && |Bitmaps(sb, t.owner, i)| == NDIRECT
  {
    var end, was := NDIRECT * BSIZE, Formatted(sb, sb.DataStart());
    t := s.(blocks := Ended(sb, s.blocks, i, s.d, end), d := Grow(s.d, end));
    WriteSettles(sb, was, s.blocks, s.slots, s.owner, i, s.d, end);
    SpreadPlaces(sb, i, s);
    hide Sound, Formatted, SameInodes, DinodeAt, HoleFree;
    forall j: nat | j < sb.ninodes
      ensures TightAt(sb, t.blocks, t.slots, j)
    {
      if j != i {
        SpreadOther(sb, i, s, j);
      } else {
        assert BlocksFor(end) == NDIRECT;
      }
    }
    SpreadMaps(sb, i, s);
  }

  lemma {:induction false} SpreadPlaces(sb: Layout, i: nat, s: Snap)
    requires Spread(sb, i, NDIRECT, s)
    ensures i < |s.slots| && HoleFree(s.slots[i], NDIRECT)
  {
    InodePlaces(sb, s.blocks, s.slots, s.owner, i, s.d);
  }

  lemma {:induction false} SpreadOther(sb: Layout, i: nat, s: Snap, j: nat)
    requires Spread(sb, i, NDIRECT, s) && sb.WellFormed() && j < sb.ninodes && j != i
    ensures TightAt(sb, Ended(sb, s.blocks, i, s.d, NDIRECT * BSIZE), s.slots, j)
  {
    FormattedInode(sb, j);
    SameDinode(sb, Formatted(sb, sb.DataStart()), s.blocks, j);
    DinodeAtUpdated(sb, s.blocks, i, s.d.(size := NDIRECT * BSIZE), j);
  }

  lemma {:induction false} SpreadMaps(sb: Layout, i: nat, s: Snap)
    requires Spread(sb, i, NDIRECT, s)
    ensures |Bitmaps(sb, s.owner, i)| == NDIRECT
  {
    hide Sound, SameInodes, Interval;
    var maps, all := Bitmaps(sb, s.owner, i), Interval(sb.bmapstart + 1, NDIRECT);
    forall m | m in all
      ensures m in maps
    {
      var k := m - sb.bmapstart - 1;
      assert SpreadTo(NDIRECT, k, (k + 1) * BPB);
      assert (k + 1) * BPB in s.owner && sb.BBlock((k + 1) * BPB) == m;
    }
    forall m | m in maps
      ensures m in all
    {
      var b :| b in s.owner && m == sb.BBlock(b);
      var k :| SpreadTo(NDIRECT, k, b);
    }
    assert maps == all;
  }

  lemma {:induction false} SpreadAll(sb: Layout, i: nat) returns (t: Snap)
    requires sb.WellFormed() && i < sb.ninodes && sb.DataStart() <= BPB && NDIRECT * BPB < sb.size
    ensures SettledSnap(sb, t, i) && |Bitmaps(sb, t.owner, i)| == NDIRECT
  {
    hide Spread;
    SpreadStart(sb, i);
    var s := Snap(Formatted(sb, sb.DataStart()), NoPlaces(sb), map[], EmptyInode());
    for n := 0 to NDIRECT
      invariant Spread(sb, i, n, s)
    {
      s := SpreadOne(sb, i, n, s);
    }
    t := SpreadSettles(sb, i, s);
  }

  /** On every disk of more than twelve bitmap blocks some file's truncation logs more than an operation may. */
  lemma {:induction false} TruncateTooLong(sb: Layout, i: nat) returns (s: Snap)
    requires sb.WellFormed() && i < sb.ninodes && sb.DataStart() <= BPB && NDIRECT * BPB < sb.size
    ensures SettledSnap(sb, s, i) && |Bitmaps(sb, s.owner, i) + {sb.IBlock(i)}| > Protocol.MAXOPBLOCKS
  {
    hide Bitmaps;
    s := SpreadAll(sb, i);
    TruncateLogs(sb, s, i);
  }
}
