/**
 The on-disk redo log as a relation between disk images: what a commit and a recovery write,
 block by block, and what a disk means, which is what recovery would make of it.

 A disk image here is always the image between two one-block writes, so "every image of the
 commit" and "a crash at any point of the commit" are the same thing.
 */
module RedoLog {
  import opened Blocks

  const LOGSIZE: nat := 30

  /** The log region of the disk: the header block at `start`, then `size - 1` slots. */
  datatype Region = Region(start: nat, size: nat) {
    predicate Has(b: int) {
      start <= b < start + size
    }
  }

  /** Block numbers that may form one transaction on a disk of `len` blocks. */
  ghost predicate Loggable(r: Region, len: nat, bs: seq<Word>) {
    && r.start + r.size <= len
    && |bs| <= LOGSIZE && |bs| < r.size
    && Distinct(bs)
    && forall k :: 0 <= k < |bs| ==> bs[k] < len && !r.Has(bs[k])
  }

  /** The header block after the count and the block numbers `bs` are stored over its old words. */
  function HeaderBlock(b: Block, bs: seq<Word>): Block
    requires |bs| <= LOGSIZE
  {
    [|bs|] + bs + b[1 + |bs|..]
  }

  /** The block numbers a header block lists; an impossible count lists nothing. */
  function HeaderOf(b: Block): (bs: seq<Word>)
    ensures |bs| <= LOGSIZE
  {
    if b[0] > LOGSIZE then [] else b[1..1 + b[0]]
  }

  lemma {:induction false} HeaderRoundTrip(b: Block, bs: seq<Word>)
    requires |bs| <= LOGSIZE
    ensures HeaderOf(HeaderBlock(b, bs)) == bs
  {
  }

  /** `d` with the first `k` of the blocks `bs` replaced by `ds`, in order. */
  function Overlay(d: Image, bs: seq<Word>, ds: seq<Block>, k: nat): (d': Image)
    requires k <= |bs| <= |ds| && forall i :: 0 <= i < |bs| ==> bs[i] < |d|
    ensures |d'| == |d|
  {
    if k == 0 then d else Overlay(d, bs, ds, k - 1)[bs[k - 1] := ds[k - 1]]
  }

  lemma {:induction false} OverlayElsewhere(d: Image, bs: seq<Word>, ds: seq<Block>, k: nat)
    requires k <= |bs| <= |ds| && forall i :: 0 <= i < |bs| ==> bs[i] < |d|
    ensures forall b :: 0 <= b < |d| && b !in bs[..k] ==> Overlay(d, bs, ds, k)[b] == d[b]
  {
    if k > 0 {
      OverlayElsewhere(d, bs, ds, k - 1);
      assert bs[..k] == bs[..k - 1] + [bs[k - 1]];
    }
  }

  lemma {:induction false} OverlayAt(d: Image, bs: seq<Word>, ds: seq<Block>, k: nat, i: nat)
    requires i < k <= |bs| <= |ds| && Distinct(bs) && forall j :: 0 <= j < |bs| ==> bs[j] < |d|
    ensures Overlay(d, bs, ds, k)[bs[i]] == ds[i]
  {
    assert i < k - 1 ==> !SameAt(bs, i, k - 1);
    if i < k - 1 {
      OverlayAt(d, bs, ds, k - 1, i);
    }
  }

  /** Two images on which the first blocks of an overlay may already be in place overlay alike. */
  lemma {:induction false} OverlaySame(d: Image, e: Image, bs: seq<Word>, ds: seq<Block>)
    requires |d| == |e| && |bs| <= |ds| && Distinct(bs) && forall i :: 0 <= i < |bs| ==> bs[i] < |d|
    requires forall b :: 0 <= b < |d| && b !in bs ==> d[b] == e[b]
    ensures Overlay(d, bs, ds, |bs|) == Overlay(e, bs, ds, |bs|)
  {
    var n := |bs|;
    var x, y := Overlay(d, bs, ds, n), Overlay(e, bs, ds, n);
    assert bs[..n] == bs;
    OverlayElsewhere(d, bs, ds, n);
    OverlayElsewhere(e, bs, ds, n);
    forall b | 0 <= b < |d|
      ensures x[b] == y[b]
    {
      if b in bs {
        var i :| 0 <= i < n && bs[i] == b;
        OverlayAt(d, bs, ds, n, i);
        OverlayAt(e, bs, ds, n, i);
      }
    }
  }

  /** An overlay depends only on the blocks it has taken. */
  lemma {:induction false} OverlayPrefix(d: Image, bs: seq<Word>, ds: seq<Block>, b: Word, data: Block, k: nat)
    requires k <= |bs| == |ds| && b < |d| && forall i :: 0 <= i < |bs| ==> bs[i] < |d|
    ensures Overlay(d, bs + [b], ds + [data], k) == Overlay(d, bs, ds, k)
  {
    if k > 0 {
      OverlayPrefix(d, bs, ds, b, data, k - 1);
    }
  }

  /** Logging one more block overlays that block last. */
  lemma {:induction false} OverlayAppend(d: Image, bs: seq<Word>, ds: seq<Block>, b: Word, data: Block)
    requires |bs| == |ds| && b < |d| && forall i :: 0 <= i < |bs| ==> bs[i] < |d|
    ensures Overlay(d, bs + [b], ds + [data], |bs| + 1) == Overlay(d, bs, ds, |bs|)[b := data]
  {
    OverlayPrefix(d, bs, ds, b, data, |bs|);
  }

  /** Logging a block again replaces its data. */
  lemma {:induction false} OverlayReplace(d: Image, bs: seq<Word>, ds: seq<Block>, k: nat, i: nat, data: Block)
    requires i < k <= |bs| == |ds| && Distinct(bs) && forall j :: 0 <= j < |bs| ==> bs[j] < |d|
    ensures Overlay(d, bs, ds[i := data], k) == Overlay(d, bs, ds, k)[bs[i] := data]
  {
    if i < k - 1 {
      OverlayReplace(d, bs, ds, k - 1, i, data);
      assert !SameAt(bs, i, k - 1);
      var x: Image := Overlay(d, bs, ds, k - 1);
      var y: Image, z: Image := x[bs[i] := data], x[bs[k - 1] := ds[k - 1]];
      assert y[bs[k - 1] := ds[k - 1]] == z[bs[i] := data];
    } else {
      OverlayUntouched(d, bs, ds, i, data, i);
      var x: Image := Overlay(d, bs, ds, i);
      var y: Image := x[bs[i] := ds[i]];
      assert y[bs[i] := data] == x[bs[i] := data];
    }
  }

  lemma {:induction false} OverlayUntouched(d: Image, bs: seq<Word>, ds: seq<Block>, i: nat, data: Block, k: nat)
    requires k <= i < |bs| == |ds| && forall j :: 0 <= j < |bs| ==> bs[j] < |d|
    ensures Overlay(d, bs, ds[i := data], k) == Overlay(d, bs, ds, k)
  {
    if k > 0 {
      OverlayUntouched(d, bs, ds, i, data, k - 1);
    }
  }

  // ---- the images a commit and a recovery go through ----

  /** After write_log has copied `k` blocks into the slots. */
  function Logged(d: Image, r: Region, ds: seq<Block>, k: nat): (d': Image)
    requires k <= |ds| < r.size && r.start + r.size <= |d|
    ensures |d'| == |d|
  {
    if k == 0 then d else Logged(d, r, ds, k - 1)[r.start + k := ds[k - 1]]
  }

  /** After write_head has stored the block numbers `bs`. */
  function Headed(d: Image, r: Region, bs: seq<Word>): (d': Image)
    requires |bs| <= LOGSIZE && r.start < |d|
    ensures |d'| == |d|
  {
    d[r.start := HeaderBlock(d[r.start], bs)]
  }

  /** The first `n` slots of the log. */
  function Slots(d: Image, r: Region, n: nat): seq<Block>
    requires n < r.size && r.start + r.size <= |d|
  {
    d[r.start + 1..r.start + 1 + n]
  }

  /** After install_trans has copied `k` slots to their home blocks. */
  function Installed(d: Image, r: Region, bs: seq<Word>, k: nat): (d': Image)
    requires Loggable(r, |d|, bs) && k <= |bs|
    ensures |d'| == |d|
  {
    Overlay(d, bs, Slots(d, r, |bs|), k)
  }

  /** The disk after `k` block writes of commit(), for logged blocks `bs` with cached data `ds`. */
  function CommitImage(d: Image, r: Region, bs: seq<Word>, ds: seq<Block>, k: nat): (d': Image)
    requires Loggable(r, |d|, bs) && |ds| == |bs|
    ensures |d'| == |d|
  {
    var n := |bs|;
    var full := Headed(Logged(d, r, ds, n), r, bs);
    if k <= n then Logged(d, r, ds, k)
    else if k <= 2 * n + 1 then Installed(full, r, bs, k - n - 1)
    else Headed(Installed(full, r, bs, n), r, [])
  }

  /** The disk after `k` block writes of recover_from_log(). */
  function RecoverImage(d: Image, r: Region, k: nat): (d': Image)
    requires WellFormed(d, r)
    ensures |d'| == |d|
  {
    var bs := HeaderOf(d[r.start]);
    if k <= |bs| then Installed(d, r, bs, k) else Headed(Installed(d, r, bs, |bs|), r, [])
  }

  // ---- what a disk means ----

  /** A disk whose log header lists a transaction that can be installed. */
  ghost predicate WellFormed(d: Image, r: Region) {
    r.start < |d| && Loggable(r, |d|, HeaderOf(d[r.start]))
  }

  /** The blocks outside the log; the log region itself is blanked. */
  function Home(d: Image, r: Region): (h: Image)
    ensures |h| == |d|
  {
    seq(|d|, b requires 0 <= b < |d| => if r.Has(b) then ZeroBlock() else d[b])
  }

  /** The home blocks as recovery would leave them: with the logged transaction in place. */
  function Meaning(d: Image, r: Region): (h: Image)
    requires WellFormed(d, r)
    ensures |h| == |d|
  {
    var bs := HeaderOf(d[r.start]);
    Overlay(Home(d, r), bs, Slots(d, r, |bs|), |bs|)
  }

  /** Installing touches neither the header nor the slots. */
  lemma {:induction false} InstallKeepsLog(d: Image, r: Region, bs: seq<Word>, k: nat)
    requires Loggable(r, |d|, bs) && k <= |bs|
    ensures forall b :: r.Has(b) ==> Installed(d, r, bs, k)[b] == d[b]
    ensures Slots(Installed(d, r, bs, k), r, |bs|) == Slots(d, r, |bs|)
  {
    OverlayElsewhere(d, bs, Slots(d, r, |bs|), k);
    assert forall b :: r.Has(b) ==> b !in bs[..k];
  }

  lemma {:induction false} HomeOverlay(d: Image, r: Region, bs: seq<Word>, ds: seq<Block>, k: nat)
    requires Loggable(r, |d|, bs) && k <= |bs| <= |ds|
    ensures Home(Overlay(d, bs, ds, k), r) == Overlay(Home(d, r), bs, ds, k)
  {
    var x, y := Home(Overlay(d, bs, ds, k), r), Overlay(Home(d, r), bs, ds, k);
    OverlayElsewhere(d, bs, ds, k);
    OverlayElsewhere(Home(d, r), bs, ds, k);
    forall b | 0 <= b < |d|
      ensures x[b] == y[b]
    {
      if b in bs[..k] {
        var i :| 0 <= i < k && bs[i] == b;
        OverlayAt(d, bs, ds, k, i);
        OverlayAt(Home(d, r), bs, ds, k, i);
      }
    }
  }

  /** An image partly installed from the log it lists means what it meant before. */
  lemma {:induction false} InstallKeepsMeaning(d: Image, r: Region, k: nat)
    requires WellFormed(d, r) && k <= |HeaderOf(d[r.start])|
    ensures var e := Installed(d, r, HeaderOf(d[r.start]), k);
            WellFormed(e, r) && e[r.start] == d[r.start] && Meaning(e, r) == Meaning(d, r)
  {
    var bs := HeaderOf(d[r.start]);
    var ds := Slots(d, r, |bs|);
    var e := Installed(d, r, bs, k);
    InstallKeepsLog(d, r, bs, k);
    HomeOverlay(d, r, bs, ds, k);
    OverlayElsewhere(Home(d, r), bs, ds, k);
    OverlaySame(Home(e, r), Home(d, r), bs, ds);
  }

  /** Clearing the header after everything is installed makes the home blocks the meaning. */
  lemma {:induction false} ClearKeepsMeaning(d: Image, r: Region)
    requires WellFormed(d, r)
    ensures var bs := HeaderOf(d[r.start]);
            var e := Headed(Installed(d, r, bs, |bs|), r, []);
            && WellFormed(e, r) && HeaderOf(e[r.start]) == []
            && Meaning(e, r) == Home(e, r) == Meaning(d, r)
  {
    var bs := HeaderOf(d[r.start]);
    var full := Installed(d, r, bs, |bs|);
    var e := Headed(full, r, []);
    HeaderRoundTrip(full[r.start], []);
    HomeOverlay(d, r, bs, Slots(d, r, |bs|), |bs|);
    HeadedKeepsHome(full, r, [], 0);
  }

  /**
   A crash at any point of recovery, at most `|bs| + 1` block writes in, leaves a disk of the same
   meaning; a recovery that completes has installed that meaning and emptied the log.
   */
  lemma {:induction false} RecoverKeepsMeaning(d: Image, r: Region, k: nat)
    requires WellFormed(d, r)
    ensures var e := RecoverImage(d, r, k);
            && WellFormed(e, r) && Meaning(e, r) == Meaning(d, r)
            && (k > |HeaderOf(d[r.start])| ==> HeaderOf(e[r.start]) == [] && Home(e, r) == Meaning(d, r))
  {
    if k <= |HeaderOf(d[r.start])| {
      InstallKeepsMeaning(d, r, k);
    } else {
      ClearKeepsMeaning(d, r);
    }
  }

  /** A finished recovery has put each listed slot into its home block, and changed no other block but the header. */
  lemma {:induction false} RecoveryIs(d: Image, r: Region)
    requires WellFormed(d, r) && d[r.start][0] <= LOGSIZE
    ensures var n := d[r.start][0];
            var homes, e := d[r.start][1..n + 1], RecoverImage(d, r, n + 1);
            && r.start + n < |d| && |HeaderOf(d[r.start])| == n && e[r.start][0] == 0
            && (forall k :: 0 <= k < n ==> homes[k] < |d| && e[homes[k]] == d[r.start + 1 + k])
            && (forall b :: 0 <= b < |d| && b != r.start && b !in homes ==> e[b] == d[b])
  {
    var n, bs := d[r.start][0], HeaderOf(d[r.start]);
    var ds := Slots(d, r, n);
    hide Loggable;
    SlotsFit(d, r, bs);
    assert bs[..n] == bs == d[r.start][1..n + 1];
    OverlayElsewhere(d, bs, ds, n);
    forall k | 0 <= k < n
      ensures d[r.start][k + 1] == bs[k] && Overlay(d, bs, ds, n)[bs[k]] == d[r.start + 1 + k]
    {
      OverlayAt(d, bs, ds, n, k);
    }
  }

  lemma {:induction false} SlotsFit(d: Image, r: Region, bs: seq<Word>)
    requires Loggable(r, |d|, bs)
    ensures r.start + |bs| < |d| && |bs| < r.size && r.start + r.size <= |d| && Distinct(bs) && r.start !in bs
    ensures forall k :: 0 <= k < |bs| ==> bs[k] < |d|
  {
  }

  /** Recovery attempts one after the other, the i-th cut short after `ks[i]` block writes. */
  function Restarts(d: Image, r: Region, ks: seq<nat>): (e: Image)
    requires WellFormed(d, r)
    ensures WellFormed(e, r) && |e| == |d|
    decreases |ks|
  {
    if ks == [] then d
    else
      RecoverKeepsMeaning(d, r, ks[0]);
      Restarts(RecoverImage(d, r, ks[0]), r, ks[1..])
  }

  /** However many recoveries crash, and wherever, the next complete one installs the same blocks. */
  lemma {:induction false} RecoverAfterRestarts(d: Image, r: Region, ks: seq<nat>, k: nat)
    requires WellFormed(d, r)
    requires k > |HeaderOf(Restarts(d, r, ks)[r.start])|
    ensures Home(RecoverImage(Restarts(d, r, ks), r, k), r) == Meaning(d, r)
    decreases |ks|
  {
    RecoverKeepsMeaning(Restarts(d, r, ks), r, k);
    if ks != [] {
      RecoverKeepsMeaning(d, r, ks[0]);
      RecoverAfterRestarts(RecoverImage(d, r, ks[0]), r, ks[1..], k);
    }
  }

  lemma {:induction false} LoggedAt(d: Image, r: Region, ds: seq<Block>, k: nat, b: nat)
    requires k <= |ds| < r.size && r.start + r.size <= |d| && b < |d|
    ensures Logged(d, r, ds, k)[b] == if r.start < b <= r.start + k then ds[b - r.start - 1] else d[b]
  {
    if k > 0 {
      LoggedAt(d, r, ds, k - 1, b);
    }
  }

  /** Filling slots leaves the header and the home blocks alone. */
  lemma {:induction false} LoggedKeepsHome(d: Image, r: Region, ds: seq<Block>, k: nat)
    requires k <= |ds| < r.size && r.start + r.size <= |d|
    ensures Logged(d, r, ds, k)[r.start] == d[r.start]
    ensures Home(Logged(d, r, ds, k), r) == Home(d, r)
    ensures Slots(Logged(d, r, ds, k), r, k) == ds[..k]
  {
    forall b | 0 <= b < |d|
      ensures Logged(d, r, ds, k)[b] == if r.start < b <= r.start + k then ds[b - r.start - 1] else d[b]
    {
      LoggedAt(d, r, ds, k, b);
    }
  }

  /** The header is part of the log, so writing it leaves the home blocks and the slots alone. */
  lemma {:induction false} HeadedKeepsHome(d: Image, r: Region, bs: seq<Word>, n: nat)
    requires |bs| <= LOGSIZE && n < r.size && r.start + r.size <= |d|
    ensures Home(Headed(d, r, bs), r) == Home(d, r)
    ensures Slots(Headed(d, r, bs), r, n) == Slots(d, r, n)
  {
  }

  /** Once the header is written, the disk means the old blocks overlaid with the transaction. */
  lemma {:induction false} HeaderCommits(d: Image, r: Region, bs: seq<Word>, ds: seq<Block>)
    requires Loggable(r, |d|, bs) && |ds| == |bs|
    ensures var e := Headed(Logged(d, r, ds, |bs|), r, bs);
            && WellFormed(e, r) && HeaderOf(e[r.start]) == bs
            && Meaning(e, r) == Overlay(Home(d, r), bs, ds, |bs|)
  {
    var l := Logged(d, r, ds, |bs|);
    var e := Headed(l, r, bs);
    HeaderRoundTrip(l[r.start], bs);
    LoggedKeepsHome(d, r, ds, |bs|);
    HeadedKeepsHome(l, r, bs, |bs|);
    assert ds[..|bs|] == ds;
  }

  /** The disk while install_trans runs, and after the header is cleared. */
  lemma {:induction false} InstallingMeans(d: Image, r: Region, bs: seq<Word>, ds: seq<Block>, j: nat)
    requires Loggable(r, |d|, bs) && |ds| == |bs| && j <= |bs|
    ensures var full := Headed(Logged(d, r, ds, |bs|), r, bs);
            var e := Installed(full, r, bs, j);
            WellFormed(e, r) && Meaning(e, r) == Overlay(Home(d, r), bs, ds, |bs|)
  {
    HeaderCommits(d, r, bs, ds);
    InstallKeepsMeaning(Headed(Logged(d, r, ds, |bs|), r, bs), r, j);
  }

  lemma {:induction false} NextInstalled(d: Image, r: Region, bs: seq<Word>, ds: seq<Block>, k: nat)
    requires Loggable(r, |d|, bs) && k < |bs| && Slots(d, r, |bs|) == ds
    ensures Installed(d, r, bs, k)[r.start + k + 1] == ds[k]
    ensures Installed(d, r, bs, k + 1) == Installed(d, r, bs, k)[bs[k] := ds[k]]
  {
    InstallKeepsLog(d, r, bs, k);
    assert r.Has(r.start + k + 1) && Slots(d, r, |bs|)[k] == d[r.start + k + 1];
  }

  /** install_trans copies slot `k` to its home block: that is the next image of the commit. */
  lemma {:induction false} NextInstall(d: Image, r: Region, bs: seq<Word>, ds: seq<Block>, k: nat)
    requires Loggable(r, |d|, bs) && |ds| == |bs| && k < |bs|
    ensures var e := CommitImage(d, r, bs, ds, |bs| + 1 + k);
            && e[r.start + k + 1] == ds[k]
            && CommitImage(d, r, bs, ds, |bs| + 1 + k + 1) == e[bs[k] := ds[k]]
  {
    var full := Headed(Logged(d, r, ds, |bs|), r, bs);
    hide Logged, Headed, Home, Installed, Loggable, Slots;
    LoggedKeepsHome(d, r, ds, |bs|);
    HeadedKeepsHome(Logged(d, r, ds, |bs|), r, bs, |bs|);
    assert ds[..|bs|] == ds;
    NextInstalled(full, r, bs, ds, k);
  }

  /** While install_trans runs the slots hold the data, and so do the homes of the blocks already copied. */
  lemma {:induction false} SlotsAndHomes(d: Image, r: Region, bs: seq<Word>, ds: seq<Block>, j: nat, k: nat)
    requires Loggable(r, |d|, bs) && |ds| == |bs| && j <= |bs| && k < |bs|
    ensures var e := CommitImage(d, r, bs, ds, |bs| + 1 + j);
            e[r.start + k + 1] == ds[k] && (k < j ==> e[bs[k]] == ds[k])
  {
    var full := Headed(Logged(d, r, ds, |bs|), r, bs);
    hide Logged, Headed, Home;
    LoggedKeepsHome(d, r, ds, |bs|);
    HeadedKeepsHome(Logged(d, r, ds, |bs|), r, bs, |bs|);
    assert ds[..|bs|] == ds;
    InstallKeepsLog(full, r, bs, j);
    assert Slots(full, r, |bs|)[k] == full[r.start + k + 1] && r.Has(r.start + k + 1);
    if k < j {
      OverlayAt(full, bs, ds, j, k);
    }
  }

  lemma {:induction false} ClearedMeans(d: Image, r: Region, bs: seq<Word>, ds: seq<Block>)
    requires Loggable(r, |d|, bs) && |ds| == |bs|
    ensures var full := Headed(Logged(d, r, ds, |bs|), r, bs);
            var e := Headed(Installed(full, r, bs, |bs|), r, []);
            && WellFormed(e, r) && HeaderOf(e[r.start]) == []
            && Meaning(e, r) == Home(e, r) == Overlay(Home(d, r), bs, ds, |bs|)
  {
    HeaderCommits(d, r, bs, ds);
    ClearKeepsMeaning(Headed(Logged(d, r, ds, |bs|), r, bs), r);
  }

  lemma {:induction false} LoggingMeans(d: Image, r: Region, ds: seq<Block>, k: nat)
    requires WellFormed(d, r) && HeaderOf(d[r.start]) == [] && k <= |ds| < r.size
    ensures WellFormed(Logged(d, r, ds, k), r) && Meaning(Logged(d, r, ds, k), r) == Home(d, r)
  {
    LoggedKeepsHome(d, r, ds, k);
  }

  /**
   Crash atomicity of commit(): the image after any number of its block writes means the home
   blocks of before if the header write had not happened, and all of the transaction if it had.
   */
  lemma {:induction false} CommitIsAtomic(d: Image, r: Region, bs: seq<Word>, ds: seq<Block>, k: nat)
    requires WellFormed(d, r) && HeaderOf(d[r.start]) == []
    requires Loggable(r, |d|, bs) && |ds| == |bs|
    ensures WellFormed(CommitImage(d, r, bs, ds, k), r)
    ensures k <= |bs| ==> Meaning(CommitImage(d, r, bs, ds, k), r) == Home(d, r)
    ensures k > |bs| ==> Meaning(CommitImage(d, r, bs, ds, k), r) == Overlay(Home(d, r), bs, ds, |bs|)
    ensures k > 2 * |bs| + 1 ==>
              var e := CommitImage(d, r, bs, ds, k);
              HeaderOf(e[r.start]) == [] && Home(e, r) == Overlay(Home(d, r), bs, ds, |bs|)
  {
    if k <= |bs| {
      LoggingMeans(d, r, ds, k);
    } else if k <= 2 * |bs| + 1 {
      InstallingMeans(d, r, bs, ds, k - |bs| - 1);
    } else {
      ClearedMeans(d, r, bs, ds);
    }
  }

  /** The home blocks themselves stay as they were until the header is on the disk. */
  lemma {:induction false} HomeUntouchedBeforeHeader(d: Image, r: Region, bs: seq<Word>, ds: seq<Block>, k: nat)
    requires Loggable(r, |d|, bs) && |ds| == |bs| && k <= |bs| + 1
    ensures Home(CommitImage(d, r, bs, ds, k), r) == Home(d, r)
  {
    if k <= |bs| {
      LoggedKeepsHome(d, r, ds, k);
    } else {
      LoggedKeepsHome(d, r, ds, |bs|);
      HeadedKeepsHome(Logged(d, r, ds, |bs|), r, bs, |bs|);
    }
  }

  /** A commit never writes a home block that is not in the transaction. */
  lemma {:induction false} CommitKeepsOthers(d: Image, r: Region, bs: seq<Word>, ds: seq<Block>, k: nat, b: Word)
    requires Loggable(r, |d|, bs) && |ds| == |bs| && b < |d| && b !in bs && !r.Has(b)
    ensures CommitImage(d, r, bs, ds, k)[b] == d[b]
  {
    var n := |bs|;
    var full := Headed(Logged(d, r, ds, n), r, bs);
    var m := if k <= 2 * n + 1 then (if k <= n then 0 else k - n - 1) else n;
    OverlayElsewhere(full, bs, Slots(full, r, n), m);
    assert b !in bs[..m];
    LoggedAt(d, r, ds, if k <= n then k else n, b);
  }
}
