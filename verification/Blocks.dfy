/** Disk blocks of BSIZE bytes, held as little-endian 32-bit words. */
module Blocks {
  type Byte = x: int | 0 <= x < 0x100
  type Word = x: int | 0 <= x < 0x1_0000_0000

  /** Numbers of C's unsigned int stay below this. */
  const UINT: nat := 0x1_0000_0000

  const BSIZE: nat := 512
  const WORDS: nat := 128

  type Block = b: seq<Word> | |b| == 128 witness seq(128, _ => 0)

  /** The whole contents of a disk, indexed by block number. */
  type Image = seq<Block>

  function ZeroBlock(): Block {
    seq(WORDS, _ => 0)
  }

  ghost predicate SameAt<T>(s: seq<T>, i: nat, j: nat)
    requires i < |s| && j < |s|
  {
    s[i] == s[j]
  }

  /** No element occurs twice; stated so that it is looked up only where `SameAt` is mentioned. */
  ghost predicate Distinct<T>(s: seq<T>) {
    forall i, j :: 0 <= i < j < |s| ==> !SameAt(s, i, j)
  }

  lemma {:induction false} DistinctAt<T>(s: seq<T>, i: nat, j: nat)
    requires Distinct(s) && i < |s| && j < |s| && s[i] == s[j]
    ensures i == j
  {
    assert i < j ==> !SameAt(s, i, j);
    assert j < i ==> !SameAt(s, j, i);
  }

  lemma {:induction false} DistinctAppend<T>(s: seq<T>, x: T)
    requires Distinct(s) && x !in s
    ensures Distinct(s + [x])
  {
    var t := s + [x];
    forall i, j | 0 <= i < j < |t|
      ensures !SameAt(t, i, j)
    {
      assert j < |s| ==> !SameAt(s, i, j);
    }
  }

  lemma {:induction false} DistinctSlice<T>(s: seq<T>, lo: nat, hi: nat)
    requires Distinct(s) && lo <= hi <= |s|
    ensures Distinct(s[lo..hi])
  {
    var t := s[lo..hi];
    forall i, j | 0 <= i < j < |t|
      ensures !SameAt(t, i, j)
    {
      assert !SameAt(s, lo + i, lo + j);
    }
  }

  /** More than `n` numbers below `n` cannot all be different. */
  lemma {:induction false} Pigeonhole(f: seq<nat>, n: nat)
    requires Distinct(f) && forall k :: 0 <= k < |f| ==> f[k] < n
    ensures |f| <= n
    decreases n
  {
    if f != [] {
      assert f[0] < n;
      if j :| 0 <= j < |f| && f[j] == n - 1 {
        var g := f[..j] + f[j + 1..];
        assert forall k :: 0 <= k < |g| ==> g[k] == f[if k < j then k else k + 1];
        forall k, l | 0 <= k < l < |g|
          ensures !SameAt(g, k, l)
        {
          assert !SameAt(f, if k < j then k else k + 1, if l < j then l else l + 1);
        }
        forall k | 0 <= k < |g|
          ensures g[k] != n - 1
        {
          if g[k] == n - 1 { DistinctAt(f, j, if k < j then k else k + 1); }
        }
        Pigeonhole(g, n - 1);
      } else {
        Pigeonhole(f, n - 1);
      }
    }
  }
}
