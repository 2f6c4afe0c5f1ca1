/** A block read and written as bytes and as bits, on top of its little-endian words. */
module BlockViews {
  import opened Blocks

  /** Byte `k` of a number, the lowest first. */
  function ByteOf(w: nat, k: nat): Byte {
    if k == 0 then w % 0x100 else ByteOf(w / 0x100, k - 1)
  }

  /** `w` with byte `k` replaced. */
  function WithByte(w: nat, k: nat, v: Byte): nat {
    if k == 0 then w / 0x100 * 0x100 + v else WithByte(w / 0x100, k - 1, v) * 0x100 + w % 0x100
  }

  lemma {:induction false} ByteOfWithByte(w: nat, k: nat, v: Byte, j: nat)
    ensures ByteOf(WithByte(w, k, v), j) == if j == k then v else ByteOf(w, j)
  {
    var q, low := w / 0x100, w % 0x100;
    if k == 0 {
      HighAndLow(q, v);
      assert j > 0 ==> ByteOf(q * 0x100 + v, j) == ByteOf(q, j - 1) == ByteOf(w, j);
    } else {
      var x := WithByte(q, k - 1, v);
      HighAndLow(x, low);
      if j > 0 {
        ByteOfWithByte(q, k - 1, v, j - 1);
        assert ByteOf(x * 0x100 + low, j) == ByteOf(x, j - 1) && ByteOf(w, j) == ByteOf(q, j - 1);
      }
    }
  }

  lemma {:induction false} HighAndLow(q: nat, low: Byte)
    ensures (q * 0x100 + low) / 0x100 == q && (q * 0x100 + low) % 0x100 == low
  {
  }

  /** Numbers of `n` bytes stay below this. */
  function Limit(n: nat): nat {
    if n == 0 then 1 else 0x100 * Limit(n - 1)
  }

  lemma {:induction false} WithByteFits(w: nat, k: nat, v: Byte, n: nat)
    requires k < n && w < Limit(n)
    ensures WithByte(w, k, v) < Limit(n)
  {
    var l := Limit(n - 1);
    assert Limit(n) == 0x100 * l;
    if k == 0 {
      assert WithByte(w, k, v) == w / 0x100 * 0x100 + v;
    } else {
      assert w / 0x100 < l;
      WithByteFits(w / 0x100, k - 1, v, n - 1);
      var x := WithByte(w / 0x100, k - 1, v);
      assert WithByte(w, k, v) == x * 0x100 + w % 0x100;
    }
  }

  function ByteAt(b: Block, i: nat): Byte
    requires i < BSIZE
  {
    ByteOf(b[i / 4], i % 4)
  }

  function SetByte(b: Block, i: nat, v: Byte): Block
    requires i < BSIZE
  {
    WithByteFits(b[i / 4], i % 4, v, 4);
    b[i / 4 := WithByte(b[i / 4], i % 4, v)]
  }

  lemma {:induction false} ByteAtSetByte(b: Block, i: nat, v: Byte, j: nat)
    requires i < BSIZE && j < BSIZE
    ensures ByteAt(SetByte(b, i, v), j) == if j == i then v else ByteAt(b, j)
  {
    if i / 4 == j / 4 {
      ByteOfWithByte(b[i / 4], i % 4, v, j % 4);
    }
  }

  /** v & (1 << k) is not zero. */
  predicate Bit(v: nat, k: nat) {
    if k == 0 then v % 2 == 1 else Bit(v / 2, k - 1)
  }

  /** v | (1 << k) if `on`, else v & ~(1 << k). */
  function WithBit(v: nat, k: nat, on: bool): nat {
    if k == 0 then v / 2 * 2 + (if on then 1 else 0) else WithBit(v / 2, k - 1, on) * 2 + v % 2
  }

  lemma {:induction false} BitWithBit(v: nat, k: nat, on: bool, j: nat)
    ensures Bit(WithBit(v, k, on), j) == if j == k then on else Bit(v, j)
  {
    if k > 0 && j > 0 {
      BitWithBit(v / 2, k - 1, on, j - 1);
    }
  }

  /** Numbers of `n` bits stay below this. */
  function BitLimit(n: nat): nat {
    if n == 0 then 1 else 2 * BitLimit(n - 1)
  }

  lemma {:induction false} WithBitFits(v: nat, k: nat, on: bool, n: nat)
    requires k < n && v < BitLimit(n)
    ensures WithBit(v, k, on) < BitLimit(n)
  {
    var l := BitLimit(n - 1);
    assert BitLimit(n) == 2 * l;
    if k == 0 {
      assert v / 2 < l;
    } else {
      assert v / 2 < l;
      WithBitFits(v / 2, k - 1, on, n - 1);
      var x := WithBit(v / 2, k - 1, on);
      assert WithBit(v, k, on) == x * 2 + v % 2;
    }
  }

  predicate BitAt(b: Block, bi: nat)
    requires bi < 8 * BSIZE
  {
    Bit(ByteAt(b, bi / 8), bi % 8)
  }

  function SetBit(b: Block, bi: nat, on: bool): Block
    requires bi < 8 * BSIZE
  {
    WithBitFits(ByteAt(b, bi / 8), bi % 8, on, 8);
    SetByte(b, bi / 8, WithBit(ByteAt(b, bi / 8), bi % 8, on))
  }

  lemma {:induction false} BitAtSetBit(b: Block, bi: nat, on: bool, j: nat)
    requires bi < 8 * BSIZE && j < 8 * BSIZE
    ensures BitAt(SetBit(b, bi, on), j) == if j == bi then on else BitAt(b, j)
  {
    var v := ByteAt(b, bi / 8);
    WithBitFits(v, bi % 8, on, 8);
    ByteAtSetByte(b, bi / 8, WithBit(v, bi % 8, on), j / 8);
    if bi / 8 == j / 8 {
      BitWithBit(v, bi % 8, on, j % 8);
    }
  }

  /** memmove of `bs` into the block at byte `o`. */
  function PutBytes(b: Block, o: nat, bs: seq<Byte>): Block
    requires o + |bs| <= BSIZE
  {
    if bs == [] then b else SetByte(PutBytes(b, o, bs[..|bs| - 1]), o + |bs| - 1, bs[|bs| - 1])
  }

  lemma {:induction false} PutBytesAt(b: Block, o: nat, bs: seq<Byte>, j: nat)
    requires o + |bs| <= BSIZE && j < BSIZE
    ensures ByteAt(PutBytes(b, o, bs), j) == if o <= j < o + |bs| then bs[j - o] else ByteAt(b, j)
  {
    if bs != [] {
      var l := |bs| - 1;
      PutBytesAt(b, o, bs[..l], j);
      ByteAtSetByte(PutBytes(b, o, bs[..l]), o + l, bs[l], j);
    }
  }

  /** memmove of `m` bytes out of the block, from byte `o`. */
  function GetBytes(b: Block, o: nat, m: nat): (bs: seq<Byte>)
    requires o + m <= BSIZE
    ensures |bs| == m
  {
    if m == 0 then [] else GetBytes(b, o, m - 1) + [ByteAt(b, o + m - 1)]
  }

  lemma {:induction false} GetBytesAt(b: Block, o: nat, m: nat, j: nat)
    requires o + m <= BSIZE && j < m
    ensures GetBytes(b, o, m)[j] == ByteAt(b, o + j)
  {
    if j < m - 1 {
      GetBytesAt(b, o, m - 1, j);
    }
  }

  lemma {:induction false} ZeroByteOf(k: nat)
    ensures ByteOf(0, k) == 0
  {
    if k > 0 {
      ZeroByteOf(k - 1);
    }
  }

  lemma {:induction false} ZeroBytes(i: nat)
    requires i < BSIZE
    ensures ByteAt(ZeroBlock(), i) == 0
  {
    ZeroByteOf(i % 4);
  }
}
