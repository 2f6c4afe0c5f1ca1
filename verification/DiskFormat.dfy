/**
 Where things are on the disk, in words and bits: the header of the log, the free bitmap and the
 inodes.  Each law is about the words of a block alone, so that a disk written by one side can be
 read by the other (the kernel's log.c and fs.c, and mkfs.c).
 */
module DiskFormat {
  import opened Blocks
  import opened BlockViews
  import RedoLog
  import FileBlocks
  import FileContent

  function Power2(k: nat): (p: nat)
    ensures p > 0
  {
    if k == 0 then 1 else 2 * Power2(k - 1)
  }

  /** A number is the sum of its bytes, the lowest first. */
  lemma {:induction false} WordOfBytes(w: Word)
    ensures w == ByteOf(w, 0) + 0x100 * ByteOf(w, 1) + 0x1_0000 * ByteOf(w, 2) + 0x100_0000 * ByteOf(w, 3)
  {
    assert ByteOf(w, 0) == w % 0x100 && ByteOf(w, 1) == w / 0x100 % 0x100;
    assert ByteOf(w, 2) == ByteOf(w / 0x100, 1) == w / 0x100 / 0x100 % 0x100;
    assert ByteOf(w, 3) == ByteOf(w / 0x100, 2) == ByteOf(w / 0x100 / 0x100, 1) == w / 0x100 / 0x100 / 0x100 % 0x100;
  }

  lemma {:induction false} Multiples(p: nat, a: nat, b: nat)
    requires a <= b
    ensures p * a <= p * b
  {
  }

  lemma {:induction false} Quotient(x: nat, p: nat, q: nat, r: nat)
    requires r < p && x == p * q + r
    ensures x / p == q
  {
    if x / p > q {
      Multiples(p, q + 1, x / p);
      assert false;
    }
    if x / p < q {
      Multiples(p, x / p + 1, q);
      assert false;
    }
  }

  lemma {:induction false} HalfFirst(v: nat, p: nat)
    requires p > 0
    ensures v / 2 / p == v / (2 * p)
  {
    var q, r := v / 2 / p, v / 2 % p;
    var x := p * q;
    assert v / 2 == x + r && v == 2 * x + (2 * r + v % 2);
    assert 2 * x == 2 * p * q;
    Quotient(v, 2 * p, q, 2 * r + v % 2);
  }

  /** Bit `k` is that of weight 2^k. */
  lemma {:induction false} BitIs(v: nat, k: nat)
    ensures Bit(v, k) <==> v / Power2(k) % 2 == 1
  {
    if k > 0 {
      BitIs(v / 2, k - 1);
      HalfFirst(v, Power2(k - 1));
    } else {
      assert v / 1 == v;
    }
  }

  lemma {:induction false} TwoBitsUp(w: nat, m: nat)
    ensures Bit(w, m + 2) == Bit(w / 4, m)
  {
    assert Bit(w, m + 2) == Bit(w / 2, m + 1) == Bit(w / 2 / 2, m);
  }

  lemma {:induction false} FourBitsUp(w: nat, m: nat)
    ensures Bit(w, m + 4) == Bit(w / 0x10, m)
  {
    hide Bit;
    TwoBitsUp(w, m + 2);
    TwoBitsUp(w / 4, m);
    assert w / 4 / 4 == w / 0x10;
  }

  lemma {:induction false} EightBitsUp(w: nat, m: nat)
    ensures Bit(w, m + 8) == Bit(w / 0x100, m)
  {
    hide Bit;
    FourBitsUp(w, m + 4);
    FourBitsUp(w / 0x10, m);
    assert w / 0x10 / 0x10 == w / 0x100;
  }

  lemma {:induction false} ByteBits()
    ensures Power2(8) == 0x100
  {
    assert Power2(4) == 2 * Power2(3) == 4 * Power2(2) == 16;
    assert Power2(8) == 2 * Power2(7) == 4 * Power2(6) == 8 * Power2(5);
  }

  /** Bit `k` of byte `j` is bit 8j + k. */
  lemma {:induction false} BitOfByte(w: nat, j: nat, k: nat)
    requires k < 8
    ensures Bit(ByteOf(w, j), k) == Bit(w, 8 * j + k)
  {
    if j == 0 {
      BitOfLowByte(w, k);
    } else {
      BitOfByte(w / 0x100, j - 1, k);
      EightBitsUp(w, 8 * (j - 1) + k);
    }
  }

  lemma {:induction false} LowBits(h: nat, l: nat, n: nat, k: nat)
    requires k < n
    ensures Bit(Power2(n) * h + l, k) == Bit(l, k)
  {
    var y := Power2(n - 1) * h;
    assert Power2(n) * h == 2 * y;
    if k > 0 {
      assert (2 * y + l) / 2 == y + l / 2;
      LowBits(h, l / 2, n - 1, k - 1);
    }
  }

  lemma {:induction false} BitOfLowByte(w: nat, k: nat)
    requires k < 8
    ensures Bit(w % 0x100, k) == Bit(w, k)
  {
    ByteBits();
    LowBits(w / 0x100, w % 0x100, 8, k);
  }

  lemma {:induction false} BitAtIs(b: Block, bi: nat)
    requires bi < 4096
    ensures BitAt(b, bi) <==> Bit(b[bi / 32], bi % 32)
  {
    hide ByteOf, Bit;
    var i, k := bi / 8, bi % 8;
    assert i / 4 == bi / 32 && 8 * (i % 4) + k == bi % 32;
    BitOfByte(b[i / 4], i % 4, k);
  }

  /** The bitmap starts at block `bmapstart`; the bit of block `b` is bit `b` of it, counted from the lowest. */
  lemma {:induction false} UsedIs(sb: FileBlocks.Layout, blocks: Image, b: nat)
    requires sb.WellFormed() && |blocks| == sb.size && b < sb.size
    ensures FileBlocks.Used(sb, blocks, b) <==>
            blocks[sb.bmapstart + b / 4096][b % 4096 / 32] / Power2(b % 32) % 2 == 1
  {
    hide ByteOf, Bit, Power2, BitAt;
    var bi := b % 4096;
    BitAtIs(blocks[sb.bmapstart + b / 4096], bi);
    assert bi % 32 == b % 32;
    BitIs(blocks[sb.bmapstart + b / 4096][bi / 32], b % 32);
  }

  /** A header block holds the count in word 0 and the block numbers from word 1 on. */
  lemma {:induction false} HeaderWords(b: Block, bs: seq<Word>, i: nat)
    requires |bs| <= 30 && i < 128
    ensures RedoLog.HeaderBlock(b, bs)[i] == if i == 0 then |bs| else if i <= |bs| then bs[i - 1] else b[i]
  {
  }

  lemma {:induction false} HeaderRead(b: Block)
    ensures b[0] <= 30 ==>
              |RedoLog.HeaderOf(b)| == b[0] && forall k :: 0 <= k < b[0] ==> RedoLog.HeaderOf(b)[k] == b[k + 1]
  {
  }

  /** Eight inodes of sixteen words a block: type to nlink in two words, the size, thirteen block numbers. */
  lemma {:induction false} DinodeWords(sb: FileBlocks.Layout, blocks: Image, i: nat)
    requires sb.WellFormed() && |blocks| == sb.size && i < sb.ninodes
    ensures var d, b, o := FileBlocks.DinodeAt(sb, blocks, i), blocks[sb.inodestart + i / 8], 16 * (i % 8);
            && d.head == [b[o], b[o + 1]] && d.size == b[o + 2]
            && |d.addrs| == 13 && forall k :: 0 <= k < 13 ==> d.addrs[k] == b[o + 3 + k]
  {
  }

  /**
   Byte `o` of file `j`: block o / 512 of the file is listed in the inode, from the thirteenth on in the
   block that the inode's last number names.
   */
  lemma {:induction false} FileByteIs(sb: FileBlocks.Layout, blocks: Image, slots: seq<seq<Word>>,
                                      owner: map<nat, FileBlocks.Place>, i: nat, d: FileBlocks.Dinode, j: nat, o: nat)
    requires FileContent.Steady(sb, blocks, slots, owner, i, d) && j < sb.ninodes
    requires o < |FileContent.File(sb, blocks, slots, j)|
    ensures var addrs, k := FileBlocks.DinodeAt(sb, blocks, j).addrs, o / 512;
            && k < 140 && (k >= 12 ==> 0 < addrs[12] < |blocks|)
            && var a := if k < 12 then addrs[k] else blocks[addrs[12]][k - 12];
               0 < a < |blocks| && FileContent.File(sb, blocks, slots, j)[o] == ByteAt(blocks[a], o % 512)
  {
    hide FileBlocks.Used, FileBlocks.DinodeAt, ByteAt;
    var s, k := slots[j], o / 512;
    assert FileBlocks.InodeMatches(sb, blocks, slots, i, d, j) && FileContent.TightAt(sb, blocks, slots, j);
    assert FileContent.FilledAt(s, k, FileContent.BlocksFor(FileBlocks.DinodeAt(sb, blocks, j).size));
    PlaceIs(sb, blocks, slots, owner, j, FileBlocks.PlaceOf(k));
    PlaceIs(sb, blocks, slots, owner, j, FileBlocks.INDIRECT);
  }

  lemma {:induction false} PlaceIs(sb: FileBlocks.Layout, blocks: Image, slots: seq<seq<Word>>,
                                   owner: map<nat, FileBlocks.Place>, j: nat, k: nat)
    requires sb.WellFormed() && |blocks| == sb.size && FileBlocks.Owned(sb, blocks, slots, owner)
    requires j < |slots| && k < |slots[j]|
    ensures 0 <= slots[j][k] < |blocks|
  {
    assert FileBlocks.Knows(slots, owner, j, k);
    if slots[j][k] != 0 {
      FileBlocks.PlacesDiffer(sb, blocks, slots, owner, j, k, j, k);
    }
  }
}
