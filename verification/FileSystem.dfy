/**
 The block allocator and the inode operations of fs.c, and filewrite of file.c.

 `blocks` is what bread() returns for each block, the newest contents; `logged` collects the blocks
 handed to log_write in the transaction under way.  A panic is the outcome `ok == false`.
 */
module FileSystem {
  import opened Blocks
  import opened BlockViews
  import opened FileBlocks
  import opened FileContent
  import Protocol = GroupCommit

  /** An inode in memory: its number and the copy of its disk structure. */
  class Inode {
    const inum: nat
    var d: Dinode

    constructor (inum: nat, d: Dinode)
      ensures this.inum == inum && this.d == d
    {
      this.inum := inum;
      this.d := d;
    }
  }

  function BlocksOf(ws: seq<Protocol.Write>): set<nat> {
    set k: nat | k < |ws| :: ws[k].block as nat
  }

  /** A write of operation `op` to a block after the log. */
  ghost predicate HomeWrite(sb: Layout, len: nat, op: nat, w: Protocol.Write) {
    w.op == op && sb.inodestart <= w.block < len
  }

  /** Since `logged0` and `owner0` only blocks were freed; what that logged are their bitmap blocks. */
  ghost predicate Since(sb: Layout, logged0: set<nat>, owner0: map<nat, Place>, logged: set<nat>,
                        owner: map<nat, Place>) {
    owner.Keys <= owner0.Keys && logged == logged0 + set b | b in owner0 && b !in owner :: sb.BBlock(b)
  }

  lemma {:induction false} SinceNow(sb: Layout, logged: set<nat>, owner: map<nat, Place>)
    ensures Since(sb, logged, owner, logged, owner)
  {
  }

  lemma {:induction false} FreedMore(sb: Layout, logged0: set<nat>, owner0: map<nat, Place>, logged: set<nat>,
                                     owner: map<nat, Place>, b: nat)
    requires Since(sb, logged0, owner0, logged, owner) && b in owner
    ensures Since(sb, logged0, owner0, logged + {sb.BBlock(b)}, owner - {b})
  {
  }

  function Interval(lo: nat, n: nat): (r: set<nat>)
    ensures |r| == n && forall k: nat :: k in r <==> lo <= k < lo + n
  {
    if n == 0 then {} else Interval(lo, n - 1) + {lo + n - 1}
  }

  /** The bitmap blocks of the blocks that inode `i` owns. */
  ghost function Bitmaps(sb: Layout, owner: map<nat, Place>, i: nat): set<nat> {
    set b | b in owner && owner[b].inum == i :: sb.BBlock(b)
  }

  /** itrunc logs the inode's block beside the bitmap blocks, of which the disk has size / BPB + 1. */
  lemma {:induction false} TruncateLogs(sb: Layout, s: Snap, i: nat)
    requires SettledSnap(sb, s, i)
    ensures |Bitmaps(sb, s.owner, i) + {sb.IBlock(i)}| == |Bitmaps(sb, s.owner, i)| + 1
    ensures |Bitmaps(sb, s.owner, i)| <= sb.size / BPB + 1
  {
    hide Used, Matches, DinodeAt, TightAt, InodeMatches, Interval;
    var maps := Bitmaps(sb, s.owner, i);
    assert i / IPB <= sb.ninodes / IPB;
    forall m | m in maps
      ensures sb.bmapstart <= m < sb.bmapstart + (sb.size / BPB + 1)
    {
      var b :| b in s.owner && m == sb.BBlock(b);
      assert OwnedAt(sb, s.blocks, s.slots, s.owner[b], b);
    }
    assert sb.IBlock(i) !in maps;
    SubsetSize(maps, Interval(sb.bmapstart, sb.size / BPB + 1));
  }

  /** All that one inode owned is freed. */
  lemma {:induction false} FreedBitmaps(sb: Layout, logged0: set<nat>, owner0: map<nat, Place>, logged: set<nat>,
                                        owner: map<nat, Place>, i: nat)
    requires Since(sb, logged0, owner0, logged, owner)
    requires forall c :: c in owner <==> c in owner0 && owner0[c].inum != i
    ensures logged == logged0 + Bitmaps(sb, owner0, i)
  {
  }

  class Disk {
    const sb: Layout
    var blocks: Image
    var logged: set<nat>
    ghost var slots: seq<seq<Word>>
    ghost var owner: map<nat, Place>
    ghost var base: Image
    ghost var writes: seq<Protocol.Write>
    ghost var op: nat

    constructor (sb: Layout, blocks: Image, ghost slots: seq<seq<Word>>, ghost owner: map<nat, Place>)
      ensures this.sb == sb && this.blocks == blocks && logged == {} && this.slots == slots && this.owner == owner
      ensures Tracing(blocks, 0) && writes == []
    {
      this.sb := sb;
      this.blocks := blocks;
      logged := {};
      this.slots := slots;
      this.owner := owner;
      base, writes, op := blocks, [], 0;
    }

    /**
     The transaction under way is operation `o` of the log and began on the image `b`: `writes` are
     its calls of log_write so far, and nothing else has changed a block.
     */
    ghost predicate Tracing(b: Image, o: nat)
      reads this`blocks, this`logged, this`base, this`writes, this`op
    {
      && base == b && op == o && blocks == Protocol.ApplyWrites(base, writes) && logged == BlocksOf(writes)
      && forall k :: 0 <= k < |writes| ==> HomeWrite(sb, |blocks|, op, writes[k])
    }

    /** A new transaction. */
    method Begin(ghost o: nat)
      modifies this`logged, this`base, this`writes, this`op
      ensures logged == {} && Tracing(blocks, o) && writes == []
    {
      logged := {};
      base, writes, op := blocks, [], o;
    }

    ghost predicate Formatted()
      reads this`blocks
    {
      sb.WellFormed() && |blocks| == sb.size
    }

    /** Every block has its one owner, counting `ip` as it is in memory. */
    ghost predicate Consistent(ip: Inode)
      reads this, ip
    {
      Sound(sb, blocks, slots, owner, ip.inum, ip.d)
    }

    /** bread, a change of the buffer to `x`, and log_write. */
    method Log(b: nat, x: Block)
      requires b < |blocks| < UINT && Tracing(base, op)
      modifies this`blocks, this`logged, this`writes
      ensures blocks == old(blocks)[b := x] && logged == old(logged) + {b}
      ensures b >= sb.inodestart ==> Tracing(base, op)
    {
      Protocol.ApplyAppend(base, writes, Protocol.Write(op, b, x));
      blocks := blocks[b := x];
      logged := logged + {b};
      writes := writes + [Protocol.Write(op, b, x)];
    }

    /** balloc: the first free block, marked and zeroed; it panics exactly when none is free. */
    method Balloc() returns (ok: bool, b: nat)
      requires Formatted()
      requires Tracing(base, op)
      modifies this`blocks, this`logged, this`writes
      ensures !ok || b >= sb.inodestart ==> Tracing(base, op)
      ensures ok <==> exists c: nat :: c < sb.size && !Used(sb, old(blocks), c)
      ensures ok ==> b < sb.size && !Used(sb, old(blocks), b) && forall c: nat :: c < b ==> Used(sb, old(blocks), c)
      ensures ok ==>
                |blocks| == sb.size && blocks == Allocated(sb, old(blocks), b) &&
                logged == old(logged) + {b, sb.BBlock(b)}
      ensures !ok ==> blocks == old(blocks) && logged == old(logged)
    {
      hide Tracing, BitAt, SetBit;
      b := 0;
      ghost var q := 0;
      while b < sb.size
        invariant b == q * BPB && Tracing(base, op)
        invariant blocks == old(blocks) && logged == old(logged)
        invariant forall c: nat :: c < b && c < sb.size ==> Used(sb, blocks, c)
      {
        var bp := blocks[sb.BBlock(b)];
        var bi := 0;
        while bi < BPB && b + bi < sb.size
          invariant 0 <= bi <= BPB && Tracing(base, op)
          invariant blocks == old(blocks) && logged == old(logged)
          invariant forall c: nat :: c < b + bi && c < sb.size ==> Used(sb, blocks, c)
        {
          assert sb.BBlock(b + bi) == sb.BBlock(b) && (b + bi) % BPB == bi;
          if !BitAt(bp, bi) {
            assert !Used(sb, blocks, b + bi);
            Log(sb.BBlock(b), SetBit(bp, bi, true));
            Log(b + bi, ZeroBlock());
            return true, b + bi;
          }
          bi := bi + 1;
        }
        b := b + BPB;
        q := q + 1;
      }
      ok := false;
    }

    /** bfree: clears the bit; it panics exactly when the block is free already. */
    method Bfree(b: nat) returns (ok: bool)
      requires Formatted() && b < sb.size
      requires Tracing(base, op)
      modifies this`blocks, this`logged, this`writes
      ensures Tracing(base, op)
      ensures ok <==> Used(sb, old(blocks), b)
      ensures ok ==>
                |blocks| == sb.size && blocks == SetUsed(sb, old(blocks), b, false) &&
                logged == old(logged) + {sb.BBlock(b)}
      ensures !ok ==> blocks == old(blocks) && logged == old(logged)
    {
      var bp := blocks[sb.BBlock(b)];
      var bi := b % BPB;
      if !BitAt(bp, bi) {
        return false;
      }
      Log(sb.BBlock(b), SetBit(bp, bi, false));
      ok := true;
    }

    /** bmap's allocation for a place in the inode itself. */
    method FillDirect(ip: Inode, k: nat) returns (ok: bool, b: nat)
      requires Consistent(ip) && k <= INDIRECT && ip.d.addrs[k] == 0
      requires Tracing(base, op)
      modifies this, ip
      ensures Tracing(base, op) && base == old(base) && op == old(op)
      ensures !ok ==> blocks == old(blocks) && forall c: nat :: c < sb.size ==> Used(sb, old(blocks), c)
      ensures ok ==> Consistent(ip) && 0 < b < sb.size && !Used(sb, old(blocks), b) && b !in old(owner)
      ensures ok ==> |blocks| == sb.size && blocks[b] == ZeroBlock()
      ensures ok ==> blocks == Allocated(sb, old(blocks), b) && logged == old(logged) + {b, sb.BBlock(b)}
      ensures ok ==> |old(slots)[ip.inum]| == PLACES && old(slots)[ip.inum][k] == 0
      ensures ok ==> slots == SetSlot(old(slots), ip.inum, k, b) && owner == old(owner)[b := Place(ip.inum, k)]
      ensures ok ==> ip.d == old(ip.d).(addrs := old(ip.d).addrs[k := b])
    {
      hide Tracing, Sound, Used, Allocated, SetSlot;
      BmapStart(ip);
      ok, b := Balloc();
      if ok {
        FreeIsData(sb, old(blocks), slots, owner, ip.inum, ip.d, b);
        AllocDirect(sb, old(blocks), slots, owner, ip.inum, ip.d, k, b);
        ip.d := ip.d.(addrs := ip.d.addrs[k := b]);
        slots, owner := SetSlot(slots, ip.inum, k, b), owner[b := Place(ip.inum, k)];
      }
    }

    /** bmap's allocation for an entry of the indirect block. */
    method FillEntry(ip: Inode, j: nat) returns (ok: bool, b: nat)
      requires Consistent(ip) && j < NINDIRECT && 0 < ip.d.addrs[INDIRECT] < sb.size &&
               blocks[ip.d.addrs[INDIRECT]][j] == 0
      requires Tracing(base, op)
      modifies this
      ensures Tracing(base, op) && base == old(base) && op == old(op)
      ensures !ok ==> blocks == old(blocks) && forall c: nat :: c < sb.size ==> Used(sb, old(blocks), c)
      ensures ok ==> Consistent(ip) && 0 < b < sb.size && !Used(sb, old(blocks), b) && b !in old(owner)
      ensures ok ==> blocks == AllocatedEntry(sb, old(blocks), ip.d.addrs[INDIRECT], j, b)
      ensures ok ==> logged == old(logged) + {b, sb.BBlock(b), ip.d.addrs[INDIRECT]}
      ensures ok ==> |old(slots)[ip.inum]| == PLACES && old(slots)[ip.inum][PlaceOf(NDIRECT + j)] == 0
      ensures ok ==> slots == SetSlot(old(slots), ip.inum, PlaceOf(NDIRECT + j), b)
      ensures ok ==> owner == old(owner)[b := Place(ip.inum, PlaceOf(NDIRECT + j))]
    {
      var a := ip.d.addrs[INDIRECT];
      hide Tracing, Sound, Used, Allocated, SetSlot, SetWord;
      BmapStart(ip);
      ok, b := Balloc();
      if ok {
        FreeIsData(sb, old(blocks), slots, owner, ip.inum, ip.d, b);
        AllocEntry(sb, old(blocks), slots, owner, ip.inum, ip.d, j, b);
        Log(a, SetWord(blocks[a], j, b));
        slots, owner := SetSlot(slots, ip.inum, PlaceOf(NDIRECT + j), b),
          owner[b := Place(ip.inum, PlaceOf(NDIRECT + j))];
      }
    }

    /** bmap: the block number of the `bn`-th block of the file, allocated if there is none. */
    method Bmap(ip: Inode, bn: nat) returns (ok: bool, addr: nat)
      requires Consistent(ip)
      requires Tracing(base, op)
      modifies this, ip
      ensures Tracing(base, op) && base == old(base) && op == old(op)
      ensures sb.WellFormed() && |blocks| == sb.size && ip.inum < |old(slots)| && |old(slots)[ip.inum]| == PLACES
      ensures !ok ==> bn >= MAXFILE || forall c: nat :: c < sb.size ==> Used(sb, blocks, c)
      ensures bn < MAXFILE && old(slots)[ip.inum][PlaceOf(bn)] != 0 ==> ok
      ensures ok ==> bn < MAXFILE && Consistent(ip)
      ensures ok ==> Mapped(sb, old(blocks), old(slots), old(owner), blocks, slots, owner, ip.inum, bn)
      ensures ok ==> addr == slots[ip.inum][PlaceOf(bn)] != 0
      ensures ok ==> logged == old(logged) + MapLogs(sb, old(slots), slots, ip.inum, bn)
      ensures ok ==> ip.d.size == old(ip.d).size && ip.d.head == old(ip.d).head
      ensures ok && old(slots)[ip.inum][PlaceOf(bn)] != 0 ==> Now(ip) == old(Now(ip)) && logged == old(logged)
    {
      hide Tracing, Used, Sound, Mapped, MapLogs, Allocated, AllocatedEntry;
      BmapStart(ip);
      ghost var i, d0 := ip.inum, ip.d;
      var bn := bn;
      if bn < NDIRECT {
        addr := ip.d.addrs[bn];
        if addr == 0 {
          ok, addr := FillDirect(ip, bn);
          if ok {
            MappedDirect(sb, old(blocks), old(slots), old(owner), i, d0, bn, addr);
          }
          return;
        }
        MappedAlready(sb, blocks, slots, owner, i, bn);
        return true, addr;
      }
      bn := bn - NDIRECT;
      if bn < NINDIRECT {
        addr := ip.d.addrs[INDIRECT];
        ghost var first := addr == 0;
        if addr == 0 {
          ok, addr := FillDirect(ip, INDIRECT);
          if !ok {
            return;
          }
          BmapStart(ip);
        }
        ghost var ind, mid := addr, blocks;
        var a := blocks[addr];
        addr := a[bn];
        if addr == 0 {
          ok, addr := FillEntry(ip, bn);
          if ok && first {
            MappedBoth(sb, old(blocks), old(slots), old(owner), i, d0, bn, ind, addr);
          } else if ok {
            MappedEntry(sb, old(blocks), old(slots), old(owner), i, d0, bn, ind, addr);
          }
          return;
        }
        MappedAlready(sb, blocks, slots, owner, i, NDIRECT + bn);
        return true, addr;
      }
      ok, addr := false, 0;
    }

    /** InodePlaces, for the inode in memory. */
    lemma {:induction false} BmapStart(ip: Inode)
      requires Consistent(ip)
      ensures sb.WellFormed() && |blocks| == sb.size && ip.inum < |slots| == sb.ninodes &&
              |slots[ip.inum]| == PLACES && ip.d.WellFormed()
      ensures forall k :: 0 <= k < NDIRECT + 1 ==> slots[ip.inum][k] == ip.d.addrs[k]
      ensures ip.d.addrs[INDIRECT] < sb.size && (ip.d.addrs[INDIRECT] != 0 ==> ip.d.addrs[INDIRECT] >= sb.inodestart)
      ensures ip.d.addrs[INDIRECT] != 0 ==>
                forall k :: NDIRECT + 1 <= k < PLACES ==>
                         slots[ip.inum][k] == blocks[ip.d.addrs[INDIRECT]][k - NDIRECT - 1]
      ensures ip.d.addrs[INDIRECT] == 0 ==> forall k :: NDIRECT + 1 <= k < PLACES ==> slots[ip.inum][k] == 0
    {
      InodePlaces(sb, blocks, slots, owner, ip.inum, ip.d);
      if ip.d.addrs[INDIRECT] != 0 {
        PlacesDiffer(sb, blocks, slots, owner, ip.inum, INDIRECT, ip.inum, INDIRECT);
      }
    }

    /** Between operations. */
    ghost predicate Settled(ip: Inode)
      reads this, ip
    {
      Steady(sb, blocks, slots, owner, ip.inum, ip.d)
    }

    ghost function AllFiles(): seq<seq<Byte>>
      requires Formatted() && |slots| == sb.ninodes
      reads this
    {
      Files(sb, blocks, slots)
    }

    /** iupdate. */
    method Iupdate(ip: Inode)
      requires Formatted() && ip.inum < sb.ninodes && ip.d.WellFormed()
      requires Tracing(base, op)
      modifies this`blocks, this`logged, this`writes
      ensures Tracing(base, op)
      ensures blocks == Updated(sb, old(blocks), ip.inum, ip.d) && logged == old(logged) + {sb.IBlock(ip.inum)}
    {
      var b := sb.IBlock(ip.inum);
      Log(b, PutDinode(blocks[b], ip.inum, ip.d));
    }

    ghost function Now(ip: Inode): Snap
      reads this, ip
    {
      Snap(blocks, slots, owner, ip.d)
    }

    /** One turn of writei's loop; `mid` is the state after bmap. */
    method WriteTurn(ip: Inode, o: nat, bs: seq<Byte>) returns (ok: bool, ghost mid: Snap)
      requires Consistent(ip) && o % BSIZE + |bs| <= BSIZE && o < MAXFILE * BSIZE
      requires Tracing(base, op)
      modifies this, ip
      ensures Tracing(base, op) && base == old(base) && op == old(op)
      ensures Formatted()
      ensures !ok ==> forall c: nat :: c < sb.size ==> Used(sb, blocks, c)
      ensures ok ==> Turned(sb, old(Now(ip)), mid, Now(ip), ip.inum, o, bs, old(logged), logged)
    {
      hide Tracing, Sound, Used, Mapped, MapLogs, PutBytes;
      BmapStart(ip);
      var b;
      ok, b := Bmap(ip, o / BSIZE);
      mid := Now(ip);
      if ok {
        BmapStart(ip);
        PlaceInRange(ip, o / BSIZE);
        Log(b, PutBytes(blocks[b], o % BSIZE, bs));
      }
    }

    lemma {:induction false} PlaceInRange(ip: Inode, bn: nat)
      requires Consistent(ip) && bn < MAXFILE
      ensures |slots[ip.inum]| == PLACES && slots[ip.inum][PlaceOf(bn)] < sb.size
      ensures slots[ip.inum][PlaceOf(bn)] != 0 ==> slots[ip.inum][PlaceOf(bn)] >= sb.inodestart
    {
      InodePlaces(sb, blocks, slots, owner, ip.inum, ip.d);
      if slots[ip.inum][PlaceOf(bn)] != 0 {
        PlacesDiffer(sb, blocks, slots, owner, ip.inum, PlaceOf(bn), ip.inum, PlaceOf(bn));
      }
    }

    lemma {:induction false} SettledShape(ip: Inode)
      requires Settled(ip)
      ensures Formatted() && ip.inum < sb.ninodes == |slots| && |slots[ip.inum]| == PLACES && Consistent(ip)
      ensures |AllFiles()[ip.inum]| == ip.d.size <= MAXFILE * BSIZE
    {
      assert TightAt(sb, blocks, slots, ip.inum);
    }

    /**
     writei: r is -1 exactly when the range starts past the end of the file or would make the file
     too long; otherwise the whole of `src` is written, and no other file changes.
     */
    method Writei(ip: Inode, src: seq<Byte>, off: nat) returns (ok: bool, r: int)
      requires Settled(ip) && off < UINT && |src| < UINT
      requires Tracing(base, op)
      modifies this, ip
      ensures Tracing(base, op) && base == old(base) && op == old(op)
      ensures Formatted()
      ensures !ok ==> forall c: nat :: c < sb.size ==> Used(sb, blocks, c)
      ensures ok ==> Settled(ip) && |slots| == |old(slots)| == sb.ninodes && ip.inum < sb.ninodes
      ensures |old(AllFiles())[ip.inum]| == old(ip.d).size
      ensures ok ==> r == if off > old(ip.d).size || off + |src| > MAXFILE * BSIZE then -1 else |src|
      ensures ok && r < 0 ==> Now(ip) == old(Now(ip)) && logged == old(logged)
      ensures ok && r >= 0 ==>
                && off <= |old(AllFiles())[ip.inum]|
                && AllFiles() == old(AllFiles())[ip.inum := Spliced(old(AllFiles())[ip.inum], off, src)]
      ensures ok && old(logged) == {} && |src| <= 3 * BSIZE ==>
                |logged| <= Protocol.MAXOPBLOCKS && (off % BSIZE == 0 ==> |logged| <= Protocol.MAXOPBLOCKS - 1)
    {
      hide Tracing, Steady, Sound, Used, Underway, Turned, File, Spliced, Updated, Counted;
      SettledShape(ip);
      var n := |src|;
      if off > ip.d.size || (off + n) % UINT < off {
        return true, -1;
      }
      if (off + n) % UINT > MAXFILE * BSIZE {
        return true, -1;
      }
      ghost var i, was, t := ip.inum, Now(ip), Tally({}, {}, 0);
      UnderwayStarts(sb, was, i, off, src, logged);
      var tot, o := 0, off;
      while tot < n
        invariant tot <= n && o == off + tot && Tracing(base, op) && base == old(base) && op == old(op)
        invariant Underway(sb, was, Now(ip), i, off, src, tot, old(logged), logged, t)
        invariant tot == 0 ==> logged == old(logged)
      {
        ghost var now, logged1, m0 := Now(ip), logged, TurnSize(o, n - tot);
        UnderwayShape(sb, was, now, i, off, src, tot, old(logged), logged, t);
        var m := if n - tot < BSIZE - o % BSIZE then n - tot else BSIZE - o % BSIZE;
        ghost var mid;
        ok, mid := WriteTurn(ip, o, src[tot..tot + m]);
        if !ok {
          return false, 0;
        }
        UnderwayTurn(sb, was, now, mid, Now(ip), i, off, src, tot, old(logged), logged1, logged, t);
        t := Counted(sb, t, now.slots[i], slots[i], o / BSIZE);
        tot, o := tot + m, o + m;
      }
      UnderwayShape(sb, was, Now(ip), i, off, src, n, old(logged), logged, t);
      UnderwayEnds(sb, was, Now(ip), i, off, src, old(logged), logged, t);
      if n > 0 && o > ip.d.size {
        ip.d := ip.d.(size := o);
        Iupdate(ip);
      }
      return true, n;
    }

    /** readi: the bytes of the file from `off`, as many of `n` as there are; it changes nothing. */
    method Readi(ip: Inode, off: nat, n: nat) returns (r: int, dst: seq<Byte>)
      requires Settled(ip) && off < UINT && n < UINT
      requires Tracing(base, op)
      modifies this, ip
      ensures Tracing(base, op) && base == old(base) && op == old(op)
      ensures Settled(ip) && blocks == old(blocks) && slots == old(slots) && owner == old(owner) &&
              ip.d == old(ip.d) && logged == old(logged)
      ensures Formatted() && ip.inum < |slots| == sb.ninodes && |AllFiles()[ip.inum]| == ip.d.size
      ensures r == if off > ip.d.size || off + n >= UINT then -1 else if off + n > ip.d.size then ip.d.size - off else n
      ensures r >= 0 ==> off + r <= ip.d.size && dst == AllFiles()[ip.inum][off..off + r]
    {
      hide Tracing, Steady, Sound, Used, HoleFree, FileByte, DinodeAt, GetBytes, Content, Mapped, MapLogs, Files;
      SettledShape(ip);
      FileIs(ip);
      dst := [];
      if off > ip.d.size || (off + n) % UINT < off {
        return -1, dst;
      }
      var n := n;
      if (off + n) % UINT > ip.d.size {
        n := ip.d.size - off;
      }
      ghost var file := AllFiles()[ip.inum];
      var tot, o := 0, off;
      while tot < n
        invariant tot <= n && o == off + tot && Tracing(base, op) && base == old(base) && op == old(op)
        invariant Settled(ip) && blocks == old(blocks) && slots == old(slots) && owner == old(owner)
        invariant ip.d == old(ip.d) && logged == old(logged)
        invariant dst == file[off..o]
      {
        InFile(ip, o);
        var ok, b := Bmap(ip, o / BSIZE);
        var m := if n - tot < BSIZE - o % BSIZE then n - tot else BSIZE - o % BSIZE;
        TurnReads(blocks, slots[ip.inum], ip.d.size, o, m);
        dst := dst + GetBytes(blocks[b], o % BSIZE, m);
        assert file[off..o + m] == file[off..o] + file[o..o + m];
        tot, o := tot + m, o + m;
      }
      r := n;
    }

    lemma {:induction false} FileIs(ip: Inode)
      requires Settled(ip)
      ensures Formatted() && ip.inum < sb.ninodes == |slots| && |slots[ip.inum]| == PLACES &&
              ip.d.size <= MAXFILE * BSIZE
      ensures AllFiles()[ip.inum] == Content(blocks, slots[ip.inum], ip.d.size)
    {
      assert TightAt(sb, blocks, slots, ip.inum);
    }

    /** A byte of the file is in a block that is there. */
    lemma {:induction false} InFile(ip: Inode, o: nat)
      requires Settled(ip) && o < ip.d.size
      ensures Consistent(ip) && o < MAXFILE * BSIZE && ip.inum < |slots| && |slots[ip.inum]| == PLACES
      ensures 0 < slots[ip.inum][PlaceOf(o / BSIZE)] < sb.size
    {
      assert TightAt(sb, blocks, slots, ip.inum);
      Filled(slots[ip.inum], BlocksFor(ip.d.size), o);
      PlaceInRange(ip, o / BSIZE);
    }

    /** bfree of what place `k` holds. */
    method FreePlace(b: nat, ghost was: Image, ghost i: nat, ghost k: nat, ghost logged0: set<nat>,
                     ghost owner0: map<nat, Place>)
      requires Formatted() && Owned(sb, blocks, slots, owner) && |was| == sb.size && OnlyBitmap(sb, was, blocks)
      requires i < |slots| && k < |slots[i]| && b == slots[i][k] != 0
      requires Since(sb, logged0, owner0, logged, owner)
      requires Tracing(base, op)
      modifies this
      ensures Tracing(base, op) && base == old(base) && op == old(op)
      ensures Formatted() && Owned(sb, blocks, slots, owner) && OnlyBitmap(sb, was, blocks)
      ensures slots == SetSlot(old(slots), i, k, 0) && owner == old(owner) - {b}
      ensures Since(sb, logged0, owner0, logged, owner)
    {
      hide Tracing, Used, Owned, OnlyBitmap, BitsBut, Since;
      OwnLess(sb, blocks, blocks, slots, owner, i, k);
      SetUsedOnlyBitmap(sb, was, blocks, b, false);
      OwnLess(sb, blocks, SetUsed(sb, blocks, b, false), slots, owner, i, k);
      var ok := Bfree(b);
      FreedMore(sb, logged0, owner0, old(logged), owner, b);
      slots, owner := SetSlot(slots, i, k, 0), owner - {b};
    }

    /** itrunc's second half: what the indirect block lists, and then that block. */
    method FreeIndirect(ip: Inode, ghost was: Snap, ghost logged0: set<nat>)
      requires SettledSnap(sb, was, ip.inum) && Formatted() && |was.blocks| == sb.size
      requires Owned(sb, blocks, slots, owner) && OnlyBitmap(sb, was.blocks, blocks)
      requires Freed(was.slots, was.owner, slots, owner, ip.inum, NDIRECT) &&
               Since(sb, logged0, was.owner, logged, owner)
      requires |ip.d.addrs| == |was.d.addrs| == NDIRECT + 1 && ip.d.addrs[INDIRECT] == was.d.addrs[INDIRECT] != 0
      requires Tracing(base, op)
      modifies this, ip
      ensures Tracing(base, op) && base == old(base) && op == old(op)
      ensures Formatted() && Owned(sb, blocks, slots, owner) && OnlyBitmap(sb, was.blocks, blocks)
      ensures Freed(was.slots, was.owner, slots, owner, ip.inum, PLACES)
      ensures Since(sb, logged0, was.owner, logged, owner)
      ensures ip.d == old(ip.d).(addrs := old(ip.d).addrs[INDIRECT := 0])
    {
      hide Tracing, Sound, Used, Owned, Steady, Freed, OnlyBitmap, SetSlot, Since;
      SnapPlaces(sb, was, ip.inum);
      ghost var i := ip.inum;
      IndirectKept(sb, was.blocks, blocks, ip.d.addrs[INDIRECT]);
      var a := blocks[ip.d.addrs[INDIRECT]];
      var j := 0;
      while j < NINDIRECT
        invariant Tracing(base, op) && base == old(base) && op == old(op)
        invariant Since(sb, logged0, was.owner, logged, owner)
        invariant j <= NINDIRECT && Formatted() && Owned(sb, blocks, slots, owner) && OnlyBitmap(sb, was.blocks, blocks)
        invariant Freed(was.slots, was.owner, slots, owner, i, NDIRECT + j) && ip.d == old(ip.d)
      {
        NextFreed(sb, was, slots, owner, i, NDIRECT + 1 + j);
        if a[j] != 0 {
          FreePlace(a[j], was.blocks, i, NDIRECT + 1 + j, logged0, was.owner);
        }
        j := j + 1;
      }
      NextFreed(sb, was, slots, owner, i, INDIRECT);
      FreePlace(ip.d.addrs[INDIRECT], was.blocks, i, INDIRECT, logged0, was.owner);
      ip.d := ip.d.(addrs := ip.d.addrs[INDIRECT := 0]);
    }

    lemma {:induction false} IndirectKept(sb: Layout, was: Image, blocks: Image, a: nat)
      requires sb.WellFormed() && OnlyBitmap(sb, was, blocks) && sb.DataStart() <= a < |was|
      ensures |blocks| == |was| && blocks[a] == was[a]
    {
    }

    /** itrunc: the inode gives up exactly the blocks it has; bfree never finds one free already. */
    method Itrunc(ip: Inode)
      requires Settled(ip)
      requires Tracing(base, op)
      modifies this, ip
      ensures Tracing(base, op) && base == old(base) && op == old(op)
      ensures Settled(ip) && ip.d == old(ip.d).(size := 0, addrs := NoBlocks())
      ensures logged == old(logged) + Bitmaps(sb, old(owner), ip.inum) + {sb.IBlock(ip.inum)}
      ensures old(logged) == {} ==> |logged| == |Bitmaps(sb, old(owner), ip.inum)| + 1
      ensures |Bitmaps(sb, old(owner), ip.inum)| <= sb.size / BPB + 1
      ensures Formatted() && ip.inum < |slots| == |old(slots)| == sb.ninodes
      ensures AllFiles() == old(AllFiles())[ip.inum := []]
      ensures forall c :: c in owner <==> c in old(owner) && old(owner)[c].inum != ip.inum
      ensures forall c: nat :: sb.DataStart() <= c < sb.size ==>
                (Used(sb, blocks, c) <==>
                  Used(sb, old(blocks), c) &&
                  !(c in old(owner) && old(owner)[c].inum == ip.inum))
    {
      hide Tracing, Sound, Used, Owned, Steady, Freed, OnlyBitmap, SetSlot, File, Updated, OthersLeft, Since, Bitmaps;
      SinceNow(sb, logged, owner);
      ghost var i, was := ip.inum, Now(ip);
      SnapPlaces(sb, was, i);
      TruncateStarts(sb, was, i);
      var k := 0;
      while k < NDIRECT
        invariant Tracing(base, op) && base == old(base) && op == old(op)
        invariant Since(sb, old(logged), was.owner, logged, owner)
        invariant k <= NDIRECT && Formatted() && Owned(sb, blocks, slots, owner) && OnlyBitmap(sb, was.blocks, blocks)
        invariant Freed(was.slots, was.owner, slots, owner, i, k)
        invariant ip.d == was.d.(addrs := ip.d.addrs) && |ip.d.addrs| == NDIRECT + 1
        invariant forall l :: 0 <= l < NDIRECT + 1 ==> ip.d.addrs[l] == if l < k then 0 else was.d.addrs[l]
      {
        NextFreed(sb, was, slots, owner, i, k);
        if ip.d.addrs[k] != 0 {
          FreePlace(ip.d.addrs[k], was.blocks, i, k, old(logged), was.owner);
          ip.d := ip.d.(addrs := ip.d.addrs[k := 0]);
        }
        k := k + 1;
      }
      if ip.d.addrs[INDIRECT] != 0 {
        FreeIndirect(ip, was, old(logged));
      } else {
        NoIndirect(sb, was, slots, owner, i, NDIRECT);
      }
      ip.d := ip.d.(size := 0);
      assert ip.d.addrs == NoBlocks();
      FreedAll(sb, was, Now(ip), i);
      TruncateEnds(sb, was, Now(ip), i);
      TruncateFrees(sb, was, Now(ip), i);
      FreedBitmaps(sb, old(logged), was.owner, logged, owner, i);
      TruncateLogs(sb, was, i);
      Iupdate(ip);
    }

    /**
     filewrite: the data goes in chunks of three blocks, each a transaction of its own.  `w` bytes
     are written; `sizes` are the numbers of blocks the transactions logged; `ops` are what the
     complete chunks wrote through the log, and `snaps` the states between them.
     */
    method FileWrite(f: OpenFile, src: seq<Byte>, n: int)
      returns (ok: bool, r: int, ghost w: nat, ghost sizes: seq<nat>, ghost ops: seq<seq<Protocol.Write>>,
               ghost snaps: seq<Snap>)
      requires Settled(f.ip) && f.off < UINT && n <= |src| < UINT / 2
      modifies this, f, f.ip
      ensures Formatted() && f.ip.inum < |old(slots)| == sb.ninodes
      ensures !ok ==> forall c: nat :: c < sb.size ==> Used(sb, blocks, c)
      ensures ok ==> Settled(f.ip) && |slots| == sb.ninodes && w <= |src|
      ensures ok ==> r == (if w == n then n else -1) && f.off == old(f.off) + w && (n >= 0 ==> w <= n)
      ensures |old(AllFiles())[f.ip.inum]| == old(f.ip.d).size
      ensures ok && old(f.off) > old(f.ip.d).size ==> w == 0 && AllFiles() == old(AllFiles())
      ensures ok && old(f.off) <= old(f.ip.d).size ==>
                AllFiles() == old(AllFiles())[f.ip.inum := Spliced(old(AllFiles())[f.ip.inum], old(f.off), src[..w])]
      ensures ok && w < n ==>
                || old(f.off) > old(f.ip.d).size
                || (w == (|sizes| - 1) * CHUNK && f.off + (if n - w < CHUNK then n - w else CHUNK) > MAXFILE * BSIZE)
      ensures ok ==> forall k :: 0 <= k < |sizes| ==> sizes[k] <= Protocol.MAXOPBLOCKS
      ensures ok && w == n > 0 ==> (|sizes| - 1) * 1536 < n <= |sizes| * 1536
      ensures w <= |src| && Chunked(sb, f.ip.inum, ops, snaps) && snaps[0] == old(Now(f.ip))
      ensures old(f.off) <= old(f.ip.d).size ==>
                ChunkFiles(sb, f.ip.inum, old(AllFiles()), old(f.off), src[..w], snaps)
      ensures ok ==> snaps[|ops|] == Now(f.ip)
    {
      hide Tracing, Steady, Sound, TightAt, HoleFree, Used, File, Files, Spliced, Chunked, ChunkFiles;
      SettledShape(f.ip);
      var ip := f.ip;
      ghost var file := AllFiles()[ip.inum];
      ghost var within := f.off <= ip.d.size;
      var i := 0;
      assert CHUNK == 3 * BSIZE;
      w, sizes, ops, snaps := 0, [], [], [Now(ip)];
      if within { SplicedNothing(AllFiles(), ip.inum, f.off, src); }
      ChunksStart(sb, ip.inum, Now(ip), f.off, src);
      while i < n
        invariant i == w <= |src| && (n >= 0 ==> i <= n) && f.off == old(f.off) + w < UINT && f.ip == ip
        invariant i < n ==> i == |sizes| * CHUNK && |ops| == |sizes|
        invariant i == n > 0 ==> (|sizes| - 1) * CHUNK < n <= |sizes| * CHUNK
        invariant |snaps| == |ops| + 1 && Chunked(sb, ip.inum, ops, snaps) && snaps[0] == old(Now(ip)) &&
                  snaps[|ops|] == Now(ip)
        invariant within ==> ChunkFiles(sb, ip.inum, old(AllFiles()), old(f.off), src[..w], snaps)
        invariant Settled(ip) && Formatted() && |slots| == sb.ninodes && ip.inum < sb.ninodes
        invariant !within ==> w == 0 && AllFiles() == old(AllFiles()) && ip.d == old(ip.d)
        invariant within ==> AllFiles() == old(AllFiles())[ip.inum := Spliced(file, old(f.off), src[..w])]
        invariant within ==> f.off <= ip.d.size
        invariant forall k :: 0 <= k < |sizes| ==> sizes[k] <= Protocol.MAXOPBLOCKS
      {
        var n1 := n - i;
        if n1 > CHUNK {
          n1 := CHUNK;
        }
        Begin(|sizes|);
        SettledShape(ip);
        ghost var last := Now(ip);
        ok, r := Writei(ip, src[i..i + n1], f.off);
        if !ok {
          return;
        }
        if r > 0 {
          f.off := f.off + r;
        }
        sizes := sizes + [|logged|];
        if r < 0 {
          break;
        }
        assert r == n1;
        SettledShape(ip);
        MoreSpliced(old(AllFiles()), ip.inum, old(f.off), src, i, n1);
        TracedChunk(ip, last, |ops|);
        ChunkEnds(sb, ip.inum, ops, snaps, writes, Now(ip));
        if within { MoreChunkFiles(sb, ip.inum, old(AllFiles()), old(f.off), src, w, n1, snaps, Now(ip)); }
        ops, snaps := ops + [writes], snaps + [Now(ip)];
        i := i + r;
        w := i;
      }
      ok := true;
      r := if i == n then n else -1;
    }

    /** What the trace says about a complete chunk. */
    lemma {:induction false} TracedChunk(ip: Inode, s: Snap, j: nat)
      requires Tracing(s.blocks, j) && |logged| <= Protocol.MAXOPBLOCKS && |blocks| == sb.size
      ensures ChunkDone(sb, s, Now(ip), j, writes)
    {
    }
  }

  /** One chunk of filewrite as operation `j` of the log: what it writes leads from one state to the next. */
  ghost predicate ChunkDone(sb: Layout, s: Snap, t: Snap, j: nat, ws: seq<Protocol.Write>) {
    && t.blocks == Protocol.ApplyWrites(s.blocks, ws) && |BlocksOf(ws)| <= Protocol.MAXOPBLOCKS
    && forall k :: 0 <= k < |ws| ==> HomeWrite(sb, sb.size, j, ws[k])
  }

  /** The operations lead from state to state, and the disk is settled in each. */
  ghost predicate Chunked(sb: Layout, i: nat, ops: seq<seq<Protocol.Write>>, snaps: seq<Snap>) {
    && |snaps| == |ops| + 1
    && (forall j: nat :: j < |snaps| ==> SettledSnap(sb, snaps[j], i))
    && forall j: nat :: j < |ops| ==> ChunkDone(sb, snaps[j], snaps[j + 1], j, ops[j])
  }

  /** How far the first `j` chunks of `w` bytes reach. */
  function ChunkEnd(j: nat, w: nat): (e: nat)
    ensures e <= w
  {
    if j * CHUNK < w then j * CHUNK else w
  }

  ghost predicate FilesAfter(sb: Layout, i: nat, files: seq<seq<Byte>>, off: nat, src: seq<Byte>, s: Snap) {
    && sb.WellFormed() && |s.blocks| == sb.size && |s.slots| == sb.ninodes && i < |files| && off <= |files[i]|
    && Files(sb, s.blocks, s.slots) == files[i := Spliced(files[i], off, src)]
  }

  /** In state `j` the file has the first `j` chunks of `src` spliced in, and no other file has changed. */
  ghost predicate ChunkFiles(sb: Layout, i: nat, files: seq<seq<Byte>>, off: nat, src: seq<Byte>, snaps: seq<Snap>) {
    forall j: nat :: j < |snaps| ==> FilesAfter(sb, i, files, off, src[..ChunkEnd(j, |src|)], snaps[j])
  }

  lemma {:induction false} ChunksStart(sb: Layout, i: nat, s: Snap, off: nat, src: seq<Byte>)
    requires SettledSnap(sb, s, i)
    ensures Chunked(sb, i, [], [s]) && sb.WellFormed() && |s.blocks| == sb.size && |s.slots| == sb.ninodes &&
            i < sb.ninodes
    ensures var files := Files(sb, s.blocks, s.slots);
            off <= |files[i]| ==> ChunkFiles(sb, i, files, off, src[..0], [s])
  {
    hide Files, Spliced;
    var files := Files(sb, s.blocks, s.slots);
    if off <= |files[i]| {
      SplicedNothing(files, i, off, src);
    }
  }

  lemma {:induction false} ChunkEnds(sb: Layout, i: nat, ops: seq<seq<Protocol.Write>>, snaps: seq<Snap>,
                                     ws: seq<Protocol.Write>, t: Snap)
    requires Chunked(sb, i, ops, snaps) && SettledSnap(sb, t, i) && ChunkDone(sb, snaps[|ops|], t, |ops|, ws)
    ensures Chunked(sb, i, ops + [ws], snaps + [t])
  {
    hide SettledSnap, ChunkDone;
  }

  lemma {:induction false} MoreChunkFiles(sb: Layout, i: nat, files: seq<seq<Byte>>, off: nat, src: seq<Byte>, w: nat,
                                          n: nat,
                                          snaps: seq<Snap>, t: Snap)
    requires w + n <= |src| && snaps != [] && w == (|snaps| - 1) * CHUNK && 0 < n <= CHUNK
    requires ChunkFiles(sb, i, files, off, src[..w], snaps) && FilesAfter(sb, i, files, off, src[..w + n], t)
    ensures ChunkFiles(sb, i, files, off, src[..w + n], snaps + [t])
  {
    hide FilesAfter;
    var all := src[..w + n];
    forall j: nat | j < |snaps + [t]|
      ensures FilesAfter(sb, i, files, off, all[..ChunkEnd(j, w + n)], (snaps + [t])[j])
    {
      if j < |snaps| {
        assert FilesAfter(sb, i, files, off, src[..w][..ChunkEnd(j, w)], snaps[j]);
        assert j * CHUNK <= w;
        assert src[..w][..ChunkEnd(j, w)] == all[..ChunkEnd(j, w + n)];
      } else {
        assert all[..ChunkEnd(j, w + n)] == all;
      }
    }
  }

  /** What filewrite does in one transaction: ((MAXOPBLOCKS-1-1-2) / 2) * 512. */
  const CHUNK: nat := (Protocol.MAXOPBLOCKS - 1 - 1 - 2) / 2 * 512

  class OpenFile {
    const ip: Inode
    var off: nat

    constructor (ip: Inode)
      ensures this.ip == ip && off == 0
    {
      this.ip := ip;
      off := 0;
    }
  }

  lemma {:induction false} SplicedNothing(files: seq<seq<Byte>>, i: nat, off: nat, src: seq<Byte>)
    requires i < |files| && off <= |files[i]|
    ensures files == files[i := Spliced(files[i], off, src[..0])]
  {
    assert src[..0] == [] && Spliced(files[i], off, []) == files[i];
  }

  /** One more chunk, written where the last one ended. */
  lemma {:induction false} MoreSpliced(files: seq<seq<Byte>>, i: nat, off: nat, src: seq<Byte>, w: nat, n: nat)
    requires i < |files| && off <= |files[i]| && w + n <= |src|
    ensures var now := files[i := Spliced(files[i], off, src[..w])];
            && off + w <= |now[i]| && off + w + n <= |Spliced(files[i], off, src[..w + n])|
            && now[i := Spliced(now[i], off + w, src[w..w + n])] == files[i := Spliced(files[i], off, src[..w + n])]
  {
    SplicedTwice(files[i], off, src[..w], src[w..w + n]);
    assert src[..w] + src[w..w + n] == src[..w + n];
  }
}
