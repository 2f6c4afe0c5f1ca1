/**
 Which live inodes of mount.wfs.c have a name in some directory, and what each change of the tree
 makes of that.
 */
module WfsNames {
  import opened Blocks
  import opened Options
  import opened WfsTree

  ghost predicate Named(m: Inodes, i: nat) {
    exists d: nat, k: nat :: Refers(m, d, k, i)
  }

  /** Every inode but the root has a name in some directory. */
  ghost predicate AllNamed(m: Inodes) {
    forall i: nat :: i in m && i != 0 ==> Named(m, i)
  }

  /** No path leads to an inode without a name. */
  lemma {:induction false} NamelessLost(m: Inodes, i: nat, q: Path)
    requires i != 0 && !Named(m, i)
    ensures Walk(m, 0, q) != Some(i)
  {
    if q != [] && Walk(m, 0, q) == Some(i) {
      var k := LastStep(m, q);
    }
  }

  lemma {:induction false} ChildNamed(m: Inodes, d: nat, name: string, n: nat, b: Body)
    requires AllNamed(m) && d in m && m[d].Dir? && n !in m
    ensures AllNamed(WithChild(m, d, name, n, b))
  {
    var m' := WithChild(m, d, name, n, b);
    assert Refers(m', d, |m[d].entries|, n);
    forall i: nat | i in m' && i != 0 && i != n
      ensures Named(m', i)
    {
      assert Named(m, i);
      var e: nat, k: nat :| Refers(m, e, k, i);
      assert Refers(m', e, k, i);
    }
  }

  lemma {:induction false} RewriteNamed(m: Inodes, n: nat, bytes: seq<Byte>)
    requires AllNamed(m) && n in m && m[n].File?
    ensures AllNamed(m[n := File(bytes)])
  {
    var m' := m[n := File(bytes)];
    forall i: nat | i in m' && i != 0
      ensures Named(m', i)
    {
      assert Named(m, i);
      var e: nat, k: nat :| Refers(m, e, k, i);
      assert Refers(m', e, k, i);
    }
  }

  /** Whoever else had a name keeps it in an unlink. */
  lemma {:induction false} UnlinkKeepsNamed(m: Inodes, d: nat, k: nat, n: nat, left: Option<seq<Byte>>, i: nat)
    requires Tree(m) && Refers(m, d, k, n) && n in m && m[n].File? && i != n && Named(m, i)
    ensures Named(WithoutChild(m, d, n, left), i)
  {
    hide Tree;
    var m' := WithoutChild(m, d, n, left);
    LeftEntries(m, d, k, n);
    var e: nat, l: nat :| Refers(m, e, l, i);
    if e == d && l > k {
      assert Refers(m', e, l - 1, i);
    } else {
      assert Refers(m', e, l, i);
    }
  }

  /** The file itself has none. */
  lemma {:induction false} UnlinkedNameless(m: Inodes, d: nat, k: nat, n: nat, left: Option<seq<Byte>>)
    requires Tree(m) && Refers(m, d, k, n) && n in m && m[n].File?
    ensures n != 0 && !Named(WithoutChild(m, d, n, left), n)
  {
    RefersLive(m, d, k, n);
    hide Tree, Refers, Without;
    forall e: nat, l: nat | Refers(WithoutChild(m, d, n, left), e, l, n)
      ensures false
    {
      var j := UnlinkRefers(m, d, k, n, left, e, l, n);
    }
  }

  /** An unlink leaves every inode with a name exactly if it leaves no other version of the file. */
  lemma {:induction false} UnlinkNamedIff(m: Inodes, d: nat, k: nat, n: nat, left: Option<seq<Byte>>)
    requires Tree(m) && AllNamed(m) && Refers(m, d, k, n) && n in m && m[n].File?
    ensures AllNamed(WithoutChild(m, d, n, left)) <==> left.None?
  {
    var m' := WithoutChild(m, d, n, left);
    UnlinkedNameless(m, d, k, n, left);
    hide Tree, Refers, Without;
    forall i: nat | i in m && i != 0 && i != n
      ensures Named(m', i)
    {
      UnlinkKeepsNamed(m, d, k, n, left, i);
    }
    if left.Some? {
      assert n in m' && !Named(m', n);
    }
  }
}
