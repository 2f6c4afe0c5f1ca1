/**
 What the sizes and choices of umalloc.c mean: how many units a request takes, how much memory is
 asked for, and which free block is cut.
 */
module HeapLaws {
  import opened Blocks
  import opened HeapAllocator

  /** It is the least that has, header included; a request whose rounding up wraps around gets the header alone. */
  lemma {:induction false} NUnitsLeast(nbytes: nat)
    requires nbytes < UINT
    ensures nbytes <= UINT - 8 ==> 8 * (NUnits(nbytes) - 2) < nbytes <= 8 * (NUnits(nbytes) - 1)
    ensures nbytes > UINT - 8 ==> NUnits(nbytes) == 1
  {
  }

  /** The memory obtained: a piece for the request, of at least 4096 units. */
  lemma {:induction false} SpanIs(a: nat, nunits: nat, u: nat)
    ensures u in Span(a, MoreUnits(nunits)) <==> a <= u < a + 4096 || a <= u < a + nunits
  {
    assert u in Span(a, MoreUnits(nunits)) <==> Blk(a, MoreUnits(nunits)).Covers(u);
  }

  /**
   First fit, block by block: on the way round from the one after freep, all before block `i` are too
   small; what is taken is the end of block `i`, of which the rest, if any, stays on the list.
   */
  lemma {:induction false} FirstFitIs(before: seq<Blk>, freep: nat, after: seq<Blk>, newFreep: nat, nunits: nat,
                                      a: nat)
    returns (s: nat, i: nat)
    requires TookFirstFit(before, freep, after, newFreep, nunits, a)
    ensures s < |before| && i < |before| && before[s].addr == freep && before[i].size >= nunits
    ensures forall j :: 0 <= j < |before| && (if s < i then s < j < i else j > s || j < i) ==> before[j].size < nunits
    ensures a + nunits == before[i].addr + before[i].size
    ensures newFreep == before[if i == 0 then |before| - 1 else i - 1].addr
    ensures |after| == if before[i].size == nunits then |before| - 1 else |before|
    ensures forall j :: 0 <= j < |after| ==>
              after[j] == if before[i].size == nunits then before[if j < i then j else j + 1]
                          else if j == i then Blk(before[i].addr, before[i].size - nunits)
                          else before[j]
  {
    var s': nat, c: nat :| s' < |before| && c < |before| && before[s'].addr == freep &&
      TookAt(before, s', c, after, newFreep, nunits, a);
    s, i := s', Visited(|before|, s', c);
    assert PrevIndex(|before|, i) == if i == 0 then |before| - 1 else i - 1;
    forall j | 0 <= j < |before| && (if s < i then s < j < i else j > s || j < i)
      ensures before[j].size < nunits
    {
      SmallBefore(before, s, c, nunits, j);
    }
    forall j | 0 <= j < |after|
      ensures after[j] == if before[i].size == nunits then before[if j < i then j else j + 1]
                          else if j == i then Blk(before[i].addr, before[i].size - nunits)
                          else before[j]
    {
      TakeAt(before, i, nunits, j);
    }
  }

  lemma {:induction false} SmallBefore(before: seq<Blk>, s: nat, c: nat, nunits: nat, j: nat)
    requires s < |before| && c < |before| && j < |before| && Passed(before, s, c, nunits)
    requires var i := Visited(|before|, s, c); if s < i then s < j < i else j > s || j < i
    ensures before[j].size < nunits
  {
    var k: nat := if j > s then j - s - 1 else j + |before| - s - 1;
    assert Visited(|before|, s, k) == j;
  }
}
