/**
 Physical frames, the two-level page tables stored in them, and who owns each frame (vm.c, kalloc.c).

 Every frame of the pool is on the free list or has exactly one use, and the page directories and
 page tables in memory say the same: a frame is never mapped twice, in one process or in two.
 Virtual addresses are page numbers here; entries keep the 12 flag bits apart from the frame.
 */
module PageFrames {
  import opened Blocks

  const ENTRIES: nat := 1024

  /** Pages below KERNBASE. */
  const USER_PAGES: nat := 0x8_0000

  const PTE_P: nat := 1
  const PTE_W: nat := 2
  const PTE_U: nat := 4

  /** A page directory or page table entry. */
  datatype Entry = Entry(frame: nat, flags: nat) {
    predicate Present() {
      flags % 2 == 1
    }

    predicate Writable() {
      flags / 2 % 2 == 1
    }

    predicate User() {
      flags / 4 % 2 == 1
    }
  }

  const EMPTY: Entry := Entry(0, 0)

  type Entries = es: seq<Entry> | |es| == 1024 witness seq(1024, _ => Entry(0, 0))

  function NoEntries(): (es: Entries)
    ensures forall i :: 0 <= i < 1024 ==> es[i] == EMPTY
  {
    seq(1024, _ => EMPTY)
  }

  function SetEntry(es: Entries, i: nat, e: Entry): Entries
    requires i < ENTRIES
  {
    es[i := e]
  }

  /** What a frame holds, as whoever uses it sees it. */
  datatype Page = Data(bytes: seq<Byte>) | Table(es: Entries)

  function ZeroPage(): Page {
    Data(seq<Byte>(4096, _ => 0))
  }

  function JunkPage(): Page {
    Data(seq<Byte>(4096, _ => 1))
  }

  /** flags | PTE_P */
  function WithP(flags: nat): nat {
    if flags % 2 == 1 then flags else flags + 1
  }

  /** Entry `i` of the table in frame `f`. */
  function EntryAt(pages: seq<Page>, f: nat, i: nat): Entry {
    if f < |pages| && pages[f].Table? && i < ENTRIES then pages[f].es[i] else EMPTY
  }

  /** What the page directory in frame `d` maps page `v` to. */
  function Lookup(pages: seq<Page>, d: nat, v: nat): Entry {
    var pde := EntryAt(pages, d, v / ENTRIES);
    if pde.Present() then EntryAt(pages, pde.frame, v % ENTRIES) else EMPTY
  }

  /** The hardware allows what the entries of both levels allow. */
  predicate CanWrite(pages: seq<Page>, d: nat, v: nat) {
    Lookup(pages, d, v).Present() && EntryAt(pages, d, v / ENTRIES).Writable() && Lookup(pages, d, v).Writable()
  }

  predicate UserCanAccess(pages: seq<Page>, d: nat, v: nat) {
    Lookup(pages, d, v).Present() && EntryAt(pages, d, v / ENTRIES).User() && Lookup(pages, d, v).User()
  }

  datatype Use = Directory | TableOf(dir: nat, i: nat) | UserPage(dir: nat, v: nat) | Held

  datatype Pool = Pool(lo: nat, hi: nat) {
    predicate Has(f: nat) {
      lo <= f < hi
    }
  }

  /** The frame is used as its owner says. */
  ghost predicate UsedAs(pages: seq<Page>, owner: map<nat, Use>, f: nat)
    requires f in owner && f < |pages|
  {
    match owner[f]
    case Directory => pages[f].Table?
    case TableOf(d, i) =>
      pages[f].Table? && d in owner && owner[d].Directory? && i < ENTRIES
      && EntryAt(pages, d, i).Present() && EntryAt(pages, d, i).frame == f
    case UserPage(d, v) =>
      pages[f].Data? && d in owner && owner[d].Directory? && v < USER_PAGES
      && Lookup(pages, d, v).Present() && Lookup(pages, d, v).frame == f
    case Held => true
  }

  /** A page table of the directory, through which the hardware lets writes and user accesses pass. */
  ghost predicate TableKnown(pages: seq<Page>, owner: map<nat, Use>, d: nat, i: nat) {
    var e := EntryAt(pages, d, i);
    e.Present() ==> e.frame in owner && owner[e.frame] == TableOf(d, i) && e.Writable() && e.User()
  }

  ghost predicate PageKnown(pages: seq<Page>, owner: map<nat, Use>, d: nat, v: nat) {
    var e := Lookup(pages, d, v);
    e.Present() ==> e.frame in owner && owner[e.frame] == UserPage(d, v)
  }

  ghost predicate IsDirectory(owner: map<nat, Use>, d: nat) {
    d in owner && owner[d].Directory?
  }

  ghost predicate FreeListOk(pool: Pool, free: seq<nat>, owner: map<nat, Use>) {
    && Distinct(free)
    && (forall f :: f in free ==> pool.Has(f) && f !in owner)
    && (forall f: nat :: pool.Has(f) ==> f in owner || f in free)
  }

  /** Owners and page tables agree. */
  ghost predicate TablesOk(pool: Pool, pages: seq<Page>, owner: map<nat, Use>) {
    && pool.hi <= |pages|
    && (forall f :: f in owner ==> pool.Has(f) && UsedAs(pages, owner, f))
    && (forall d: nat, i: nat :: IsDirectory(owner, d) && i < ENTRIES ==> TableKnown(pages, owner, d, i))
    && (forall d: nat, v: nat :: IsDirectory(owner, d) && v < USER_PAGES ==> PageKnown(pages, owner, d, v))
  }

  ghost predicate Owned(pool: Pool, pages: seq<Page>, free: seq<nat>, owner: map<nat, Use>) {
    TablesOk(pool, pages, owner) && FreeListOk(pool, free, owner)
  }

  /** No frame is mapped at two places, of one process or of two. */
  lemma {:induction false} NoSharing(pool: Pool, pages: seq<Page>, free: seq<nat>, owner: map<nat, Use>, d: nat,
                                     v: nat, e: nat, w: nat)
    requires Owned(pool, pages, free, owner) && IsDirectory(owner, d) && IsDirectory(owner, e) && v < USER_PAGES &&
             w < USER_PAGES
    requires Lookup(pages, d, v).Present() && Lookup(pages, e, w).Present() &&
             Lookup(pages, d, v).frame == Lookup(pages, e, w).frame
    ensures d == e && v == w && Lookup(pages, d, v).frame !in free
  {
    assert PageKnown(pages, owner, d, v) && PageKnown(pages, owner, e, w);
  }

  /** A page can be written, and reached by a user, exactly if the bits of its page table entry say so. */
  lemma {:induction false} AccessIs(pool: Pool, pages: seq<Page>, owner: map<nat, Use>, d: nat, v: nat)
    requires TablesOk(pool, pages, owner) && IsDirectory(owner, d) && v < ENTRIES * ENTRIES
    requires Lookup(pages, d, v).Present()
    ensures CanWrite(pages, d, v) <==> Lookup(pages, d, v).flags / 2 % 2 == 1
    ensures UserCanAccess(pages, d, v) <==> Lookup(pages, d, v).flags / 4 % 2 == 1
  {
    assert TableKnown(pages, owner, d, v / ENTRIES);
  }

  /** The set of free frames is determined by the owners. */
  lemma {:induction false} SameOwnersSameFree(pool: Pool, free: seq<nat>, free': seq<nat>, owner: map<nat, Use>)
    requires FreeListOk(pool, free, owner) && FreeListOk(pool, free', owner)
    ensures forall f :: f in free <==> f in free'
  {
  }

  // ---- the steps ----

  /** Tables and directories are as before, and so are all lookups. */
  lemma {:induction false} LookupKept(pool: Pool, pages: seq<Page>, pages': seq<Page>, owner: map<nat, Use>, d: nat,
                                      v: nat)
    requires TablesOk(pool, pages, owner) && IsDirectory(owner, d) && |pages'| == |pages| && v < ENTRIES * ENTRIES
    requires forall f :: f in owner && (owner[f].Directory? || owner[f].TableOf?) ==>
               f < |pages| &&
               pages'[f] == pages[f]
    ensures Lookup(pages', d, v) == Lookup(pages, d, v)
    ensures forall i: nat :: i < ENTRIES ==> EntryAt(pages', d, i) == EntryAt(pages, d, i)
  {
    assert TableKnown(pages, owner, d, v / ENTRIES);
  }

  /** A frame that holds no table may be rewritten and its use may change between held and free. */
  lemma {:induction false} DataStep(pool: Pool, pages: seq<Page>, pages': seq<Page>, owner: map<nat, Use>,
                                    owner': map<nat, Use>, f: nat)
    requires TablesOk(pool, pages, owner) && |pages'| == |pages| && pool.Has(f)
    requires f in owner ==> owner[f].Held?
    requires f in owner' ==> owner'[f].Held?
    requires owner' - {f} == owner - {f} && forall g :: 0 <= g < |pages| && g != f ==> pages'[g] == pages[g]
    ensures TablesOk(pool, pages', owner')
  {
    forall d: nat, i: nat | IsDirectory(owner', d) && i < ENTRIES
      ensures TableKnown(pages', owner', d, i)
    {
      Kept(owner, owner', f, d);
      LookupKept(pool, pages, pages', owner, d, 0);
      assert TableKnown(pages, owner, d, i);
      Kept(owner, owner', f, EntryAt(pages, d, i).frame);
    }
    forall d: nat, v: nat | IsDirectory(owner', d) && v < USER_PAGES
      ensures PageKnown(pages', owner', d, v)
    {
      Kept(owner, owner', f, d);
      LookupKept(pool, pages, pages', owner, d, v);
      assert PageKnown(pages, owner, d, v);
      Kept(owner, owner', f, Lookup(pages, d, v).frame);
    }
    forall g | g in owner'
      ensures pool.Has(g) && UsedAs(pages', owner', g)
    {
      Kept(owner, owner', f, g);
      DataUsed(pool, pages, pages', owner, owner', f, g);
    }
  }

  lemma {:induction false} Kept(owner: map<nat, Use>, owner': map<nat, Use>, f: nat, g: nat)
    requires owner' - {f} == owner - {f}
    ensures g != f ==> (g in owner' <==> g in owner) && (g in owner ==> owner'[g] == owner[g])
  {
    assert g != f ==> (g in owner' - {f} <==> g in owner') && (g in owner - {f} <==> g in owner);
    assert g != f && g in owner ==> (owner' - {f})[g] == owner'[g] && (owner - {f})[g] == owner[g];
  }

  lemma {:induction false} DataUsed(pool: Pool, pages: seq<Page>, pages': seq<Page>, owner: map<nat, Use>,
                                    owner': map<nat, Use>, f: nat, g: nat)
    requires TablesOk(pool, pages, owner) && |pages'| == |pages| && pool.Has(f) && g in owner'
    requires f in owner ==> owner[f].Held?
    requires f in owner' ==> owner'[f].Held?
    requires owner' - {f} == owner - {f} && forall g :: 0 <= g < |pages| && g != f ==> pages'[g] == pages[g]
    ensures pool.Has(g) && UsedAs(pages', owner', g)
  {
    Kept(owner, owner', f, g);
    if g != f {
      assert UsedAs(pages, owner, g);
      match owner[g]
      case Directory =>
      case TableOf(d, i) =>
        Kept(owner, owner', f, d);
        LookupKept(pool, pages, pages', owner, d, 0);
      case UserPage(d, v) =>
        Kept(owner, owner', f, d);
        LookupKept(pool, pages, pages', owner, d, v);
      case Held =>
    }
  }

  function WithEntry(pages: seq<Page>, f: nat, i: nat, e: Entry): (pages': seq<Page>)
    requires f < |pages| && pages[f].Table? && i < ENTRIES
    ensures |pages'| == |pages|
  {
    pages[f := Table(SetEntry(pages[f].es, i, e))]
  }

  /** A store to a page table changes one lookup of one directory. */
  lemma {:induction false} TableEdit(pool: Pool, pages: seq<Page>, owner: map<nat, Use>, t: nat, i: nat, j: nat,
                                     e: Entry, dir: nat,
                                     d: nat, v: nat)
    requires TablesOk(pool, pages, owner) && t in owner && owner[t] == TableOf(dir, i) && j < ENTRIES
    requires IsDirectory(owner, d) && v < ENTRIES * ENTRIES
    ensures t < |pages| && pages[t].Table? && i < ENTRIES
    ensures forall k: nat :: k < ENTRIES ==> EntryAt(WithEntry(pages, t, j, e), d, k) == EntryAt(pages, d, k)
    ensures Lookup(WithEntry(pages, t, j, e), d, v) == if d == dir && v == i * ENTRIES + j then e
              else Lookup(pages, d, v)
  {
    assert UsedAs(pages, owner, t) && TableKnown(pages, owner, d, v / ENTRIES);
  }

  /** What a store to a page table leaves of the uses of frames. */
  lemma {:induction false} EditUsed(pool: Pool, pages: seq<Page>, owner: map<nat, Use>, t: nat, i: nat, j: nat,
                                    e: Entry, dir: nat, g: nat)
    requires TablesOk(pool, pages, owner) && t in owner && owner[t] == TableOf(dir, i) && j < ENTRIES && g in owner
    ensures t < |pages| && pages[t].Table? && pool.Has(g) && g < |pages|
    ensures owner[g] == UserPage(dir, i * ENTRIES + j) || UsedAs(WithEntry(pages, t, j, e), owner, g)
  {
    assert UsedAs(pages, owner, t) && UsedAs(pages, owner, g);
    match owner[g]
    case Directory =>
    case TableOf(d, k) => TableEdit(pool, pages, owner, t, i, j, e, dir, d, 0);
    case UserPage(d, v) => TableEdit(pool, pages, owner, t, i, j, e, dir, d, v);
    case Held =>
  }

  /** A held frame becomes user page `v`, whose entry was empty. */
  lemma {:induction false} InstallUser(pool: Pool, pages: seq<Page>, owner: map<nat, Use>, t: nat, d: nat, v: nat,
                                       f: nat, flags: nat)
    requires TablesOk(pool, pages, owner) && IsDirectory(owner, d) && v < USER_PAGES && flags % 2 == 1
    requires t in owner && owner[t] == TableOf(d, v / ENTRIES) && !Lookup(pages, d, v).Present()
    requires f in owner && owner[f].Held? && f < |pages| && pages[f].Data?
    ensures t < |pages| && pages[t].Table?
    ensures TablesOk(pool, WithEntry(pages, t, v % ENTRIES, Entry(f, flags)), owner[f := UserPage(d, v)])
  {
    var e, owner' := Entry(f, flags), owner[f := UserPage(d, v)];
    TableEdit(pool, pages, owner, t, v / ENTRIES, v % ENTRIES, e, d, d, v);
    var pages' := WithEntry(pages, t, v % ENTRIES, e);
    forall x: nat, i: nat | IsDirectory(owner', x) && i < ENTRIES
      ensures TableKnown(pages', owner', x, i)
    {
      TableEdit(pool, pages, owner, t, v / ENTRIES, v % ENTRIES, e, d, x, v);
      assert TableKnown(pages, owner, x, i);
    }
    forall x: nat, w: nat | IsDirectory(owner', x) && w < USER_PAGES
      ensures PageKnown(pages', owner', x, w)
    {
      TableEdit(pool, pages, owner, t, v / ENTRIES, v % ENTRIES, e, d, x, w);
      assert PageKnown(pages, owner, x, w);
    }
    forall g | g in owner'
      ensures pool.Has(g) && UsedAs(pages', owner', g)
    {
      EditUsed(pool, pages, owner, t, v / ENTRIES, v % ENTRIES, e, d, g);
      assert UsedAs(pages, owner, g);
    }
  }

  /** A mapping above the user pages concerns no frame's owner. */
  lemma {:induction false} InstallKernel(pool: Pool, pages: seq<Page>, owner: map<nat, Use>, t: nat, d: nat, v: nat,
                                         e: Entry)
    requires TablesOk(pool, pages, owner) && IsDirectory(owner, d) && USER_PAGES <= v < ENTRIES * ENTRIES
    requires t in owner && owner[t] == TableOf(d, v / ENTRIES)
    ensures t < |pages| && pages[t].Table? && TablesOk(pool, WithEntry(pages, t, v % ENTRIES, e), owner)
  {
    TableEdit(pool, pages, owner, t, v / ENTRIES, v % ENTRIES, e, d, d, v);
    var pages' := WithEntry(pages, t, v % ENTRIES, e);
    forall x: nat, i: nat | IsDirectory(owner, x) && i < ENTRIES
      ensures TableKnown(pages', owner, x, i)
    {
      TableEdit(pool, pages, owner, t, v / ENTRIES, v % ENTRIES, e, d, x, v);
      assert TableKnown(pages, owner, x, i);
    }
    forall x: nat, w: nat | IsDirectory(owner, x) && w < USER_PAGES
      ensures PageKnown(pages', owner, x, w)
    {
      TableEdit(pool, pages, owner, t, v / ENTRIES, v % ENTRIES, e, d, x, w);
      assert PageKnown(pages, owner, x, w);
    }
    forall g | g in owner
      ensures pool.Has(g) && UsedAs(pages', owner, g)
    {
      EditUsed(pool, pages, owner, t, v / ENTRIES, v % ENTRIES, e, d, g);
      assert UsedAs(pages, owner, g);
    }
  }

  /** User page `v` is unmapped; its frame is held until it is freed. */
  lemma {:induction false} RemoveUser(pool: Pool, pages: seq<Page>, owner: map<nat, Use>, d: nat, v: nat)
    requires TablesOk(pool, pages, owner) && IsDirectory(owner, d) && v < USER_PAGES && Lookup(pages, d, v).Present()
    ensures var t, f := EntryAt(pages, d, v / ENTRIES).frame, Lookup(pages, d, v).frame;
            && t < |pages| && pages[t].Table? && f in owner && t in owner && f != t && pool.Has(f)
            && owner[f] == UserPage(d, v) && owner[t] == TableOf(d, v / ENTRIES)
            && TablesOk(pool, WithEntry(pages, t, v % ENTRIES, EMPTY), owner[f := Held])
  {
    var t, f := EntryAt(pages, d, v / ENTRIES).frame, Lookup(pages, d, v).frame;
    assert TableKnown(pages, owner, d, v / ENTRIES) && PageKnown(pages, owner, d, v);
    TableEdit(pool, pages, owner, t, v / ENTRIES, v % ENTRIES, EMPTY, d, d, v);
    var pages', owner' := WithEntry(pages, t, v % ENTRIES, EMPTY), owner[f := Held];
    assert UsedAs(pages, owner, f);
    forall x: nat, i: nat | IsDirectory(owner', x) && i < ENTRIES
      ensures TableKnown(pages', owner', x, i)
    {
      TableEdit(pool, pages, owner, t, v / ENTRIES, v % ENTRIES, EMPTY, d, x, v);
      assert TableKnown(pages, owner, x, i);
    }
    forall x: nat, w: nat | IsDirectory(owner', x) && w < USER_PAGES
      ensures PageKnown(pages', owner', x, w)
    {
      TableEdit(pool, pages, owner, t, v / ENTRIES, v % ENTRIES, EMPTY, d, x, w);
      assert PageKnown(pages, owner, x, w);
    }
    forall g | g in owner'
      ensures pool.Has(g) && UsedAs(pages', owner', g)
    {
      EditUsed(pool, pages, owner, t, v / ENTRIES, v % ENTRIES, EMPTY, d, g);
      assert UsedAs(pages, owner, g);
    }
  }

  /** An empty table in a held frame becomes a page table of `d`; no lookup changes. */
  lemma {:induction false} InstallTable(pool: Pool, pages: seq<Page>, owner: map<nat, Use>, d: nat, i: nat, t: nat,
                                        flags: nat)
    requires TablesOk(pool, pages, owner) && IsDirectory(owner, d) && i < ENTRIES
    requires flags % 2 == 1 && flags / 2 % 2 == 1 && flags / 4 % 2 == 1
    requires !EntryAt(pages, d, i).Present()
    requires t in owner && owner[t].Held? && t < |pages| && pages[t] == Table(NoEntries())
    ensures d < |pages| && pages[d].Table?
    ensures var pages', owner' := WithEntry(pages, d, i, Entry(t, flags)), owner[t := TableOf(d, i)];
            && TablesOk(pool, pages', owner')
            && (forall x: nat, v: nat :: IsDirectory(owner, x) && v < ENTRIES * ENTRIES ==>
                Lookup(pages', x, v) == Lookup(pages, x, v))
  {
    assert UsedAs(pages, owner, d);
    var pages', owner' := WithEntry(pages, d, i, Entry(t, flags)), owner[t := TableOf(d, i)];
    forall x: nat, k: nat | IsDirectory(owner', x) && k < ENTRIES
      ensures TableKnown(pages', owner', x, k)
    {
      assert TableKnown(pages, owner, x, k);
    }
    forall x: nat, v: nat | IsDirectory(owner, x) && v < ENTRIES * ENTRIES
      ensures Lookup(pages', x, v) == Lookup(pages, x, v)
    {
      assert TableKnown(pages, owner, x, v / ENTRIES);
    }
    forall x: nat, w: nat | IsDirectory(owner', x) && w < USER_PAGES
      ensures PageKnown(pages', owner', x, w)
    {
      assert PageKnown(pages, owner, x, w);
    }
    forall g | g in owner'
      ensures pool.Has(g) && UsedAs(pages', owner', g)
    {
      assert UsedAs(pages, owner, g);
    }
  }

  /** A fresh empty table in a held frame becomes a page directory. */
  lemma {:induction false} InstallDirectory(pool: Pool, pages: seq<Page>, owner: map<nat, Use>, d: nat)
    requires TablesOk(pool, pages, owner) && d in owner && owner[d].Held? && d < |pages| &&
             pages[d] == Table(NoEntries())
    ensures TablesOk(pool, pages, owner[d := Directory])
    ensures forall v: nat :: v < ENTRIES * ENTRIES ==> Lookup(pages, d, v) == EMPTY
  {
    var owner' := owner[d := Directory];
    forall x: nat, i: nat | IsDirectory(owner', x) && i < ENTRIES
      ensures TableKnown(pages, owner', x, i)
    {
      assert x != d ==> TableKnown(pages, owner, x, i);
    }
    forall x: nat, w: nat | IsDirectory(owner', x) && w < USER_PAGES
      ensures PageKnown(pages, owner', x, w)
    {
      assert x != d ==> PageKnown(pages, owner, x, w);
    }
    forall g | g in owner'
      ensures pool.Has(g) && UsedAs(pages, owner', g)
    {
      assert UsedAs(pages, owner, g);
    }
  }

  /** The owners once directory `d` is given up: it and its page tables are only held. */
  function Abandoned(owner: map<nat, Use>, d: nat): (owner': map<nat, Use>)
    ensures owner'.Keys == owner.Keys
  {
    map f | f in owner :: if f == d || (owner[f].TableOf? && owner[f].dir == d) then Held else owner[f]
  }

  lemma {:induction false} Abandon(pool: Pool, pages: seq<Page>, owner: map<nat, Use>, d: nat)
    requires TablesOk(pool, pages, owner) && IsDirectory(owner, d)
    requires forall v: nat :: v < USER_PAGES ==> !Lookup(pages, d, v).Present()
    ensures TablesOk(pool, pages, Abandoned(owner, d))
  {
    var owner' := Abandoned(owner, d);
    forall x: nat, i: nat | IsDirectory(owner', x) && i < ENTRIES
      ensures TableKnown(pages, owner', x, i)
    {
      assert IsDirectory(owner, x) && TableKnown(pages, owner, x, i);
    }
    forall x: nat, w: nat | IsDirectory(owner', x) && w < USER_PAGES
      ensures PageKnown(pages, owner', x, w)
    {
      assert IsDirectory(owner, x) && PageKnown(pages, owner, x, w);
    }
    forall g | g in owner'
      ensures pool.Has(g) && UsedAs(pages, owner', g)
    {
      assert UsedAs(pages, owner, g);
    }
  }

  // ---- the free list ----

  /** kalloc: the first free frame is held. */
  lemma {:induction false} TakeFree(pool: Pool, pages: seq<Page>, free: seq<nat>, owner: map<nat, Use>)
    requires Owned(pool, pages, free, owner) && free != []
    ensures pool.Has(free[0]) && free[0] < |pages| && free[0] !in owner
    ensures Owned(pool, pages, free[1..], owner[free[0] := Held])
  {
    var f, rest := free[0], free[1..];
    DataStep(pool, pages, pages, owner, owner[f := Held], f);
    DistinctSlice(free, 1, |free|);
    assert free[1..|free|] == rest && free == [f] + rest;
    forall g | g in rest
      ensures g != f && g in free
    {
      var k :| 0 <= k < |rest| && rest[k] == g;
      assert free[k + 1] == g;
      if g == f { DistinctAt(free, 0, k + 1); }
    }
  }

  /** kfree of a held frame. */
  lemma {:induction false} GiveBack(pool: Pool, pages: seq<Page>, free: seq<nat>, owner: map<nat, Use>, f: nat)
    requires Owned(pool, pages, free, owner) && f in owner && owner[f].Held?
    ensures pool.Has(f) && f < |pages| && Owned(pool, pages[f := JunkPage()], [f] + free, owner - {f})
  {
    DataStep(pool, pages, pages[f := JunkPage()], owner, owner - {f}, f);
    DistinctPrepend(free, f);
  }

  lemma {:induction false} DistinctPrepend(free: seq<nat>, f: nat)
    requires Distinct(free) && f !in free
    ensures Distinct([f] + free)
  {
    var l := [f] + free;
    forall i, j | 0 <= i < j < |l|
      ensures !SameAt(l, i, j)
    {
      assert i > 0 ==> !SameAt(free, i - 1, j - 1);
      assert l[j] == free[j - 1];
    }
  }

  /** memset or memmove into a held frame. */
  lemma {:induction false} FillHeld(pool: Pool, pages: seq<Page>, free: seq<nat>, owner: map<nat, Use>, f: nat, x: Page)
    requires Owned(pool, pages, free, owner) && f in owner && owner[f].Held?
    ensures f < |pages| && Owned(pool, pages[f := x], free, owner)
  {
    DataStep(pool, pages, pages[f := x], owner, owner, f);
  }

  // ---- unmapping, one page at a time ----

  datatype Mem = Mem(pages: seq<Page>, free: seq<nat>)

  /** Page `v` of directory `d` unmapped and its frame freed, if it is mapped. */
  function UnmapPage(m: Mem, d: nat, v: nat): (m': Mem)
    ensures |m'.pages| == |m.pages|
  {
    var e, t := Lookup(m.pages, d, v), EntryAt(m.pages, d, v / ENTRIES).frame;
    if !e.Present() || e.frame >= |m.pages| || e.frame == t then m
    else Mem(WithEntry(m.pages[e.frame := JunkPage()], t, v % ENTRIES, EMPTY), [e.frame] + m.free)
  }

  /** The pages from `lo` up to `hi` unmapped, page by page. */
  function UnmapRange(m: Mem, d: nat, lo: nat, hi: nat): (m': Mem)
    ensures |m'.pages| == |m.pages|
    decreases hi - lo
  {
    if lo >= hi then m else UnmapRange(UnmapPage(m, d, lo), d, lo + 1, hi)
  }

  /** The owners once `d` has no pages from `lo` up to `hi`. */
  function OwnersLeft(owner: map<nat, Use>, d: nat, lo: nat, hi: nat): map<nat, Use> {
    map f | f in owner && !(owner[f].UserPage? && owner[f].dir == d && lo <= owner[f].v < hi) :: owner[f]
  }

  ghost predicate GoneOrKept(pages: seq<Page>, pages': seq<Page>, d: nat, lo: nat, hi: nat, x: nat, w: nat) {
    if x == d && lo <= w < hi then !Lookup(pages', x, w).Present() else Lookup(pages', x, w) == Lookup(pages, x, w)
  }

  /** Only the pages from `lo` up to `hi` of `d` are gone; page directories are untouched. */
  ghost predicate Unmapped(owner: map<nat, Use>, pages: seq<Page>, pages': seq<Page>, d: nat, lo: nat, hi: nat) {
    && (forall x: nat, w: nat :: IsDirectory(owner, x) && w < ENTRIES * ENTRIES ==>
        GoneOrKept(pages, pages', d, lo, hi, x, w))
    && (forall x: nat, i: nat :: IsDirectory(owner, x) && i < ENTRIES ==> EntryAt(pages', x, i) == EntryAt(pages, x, i))
    && (forall g :: g in OwnersLeft(owner, d, lo, hi) && !(owner[g].TableOf? && owner[g].dir == d) ==>
          g < |pages| && g < |pages'| && pages'[g] == pages[g])
  }

  lemma {:induction false} UnmapPageOk(pool: Pool, m: Mem, owner: map<nat, Use>, d: nat, v: nat)
    requires Owned(pool, m.pages, m.free, owner) && IsDirectory(owner, d) && v < USER_PAGES
    ensures var m' := UnmapPage(m, d, v);
            && Owned(pool, m'.pages, m'.free, OwnersLeft(owner, d, v, v + 1))
            && Unmapped(owner, m.pages, m'.pages, d, v, v + 1)
  {
    hide FreeListOk;
    var e, t, left := Lookup(m.pages, d, v), EntryAt(m.pages, d, v / ENTRIES).frame, OwnersLeft(owner, d, v, v + 1);
    UsersMapped(pool, m.pages, m.free, owner, d, v);
    if e.Present() {
      var f := e.frame;
      RemoveUser(pool, m.pages, owner, d, v);
      var mid := WithEntry(m.pages, t, v % ENTRIES, EMPTY);
      HeldFree(pool, m.free, owner, f);
      GiveBack(pool, mid, m.free, owner[f := Held], f);
      assert owner[f := Held] - {f} == left;
      assert UnmapPage(m, d, v).pages == mid[f := JunkPage()];
      UnmapPageLooks(pool, m, owner, d, v);
    } else {
      assert left == owner;
      assert forall g :: g in owner ==> UsedAs(m.pages, owner, g);
    }
  }

  lemma {:induction false} HeldFree(pool: Pool, free: seq<nat>, owner: map<nat, Use>, f: nat)
    requires FreeListOk(pool, free, owner) && f in owner
    ensures FreeListOk(pool, free, owner[f := Held])
  {
  }

  /** The only frame used as page `v` of `d` is the one mapped there. */
  lemma {:induction false} UsersMapped(pool: Pool, pages: seq<Page>, free: seq<nat>, owner: map<nat, Use>, d: nat,
                                       v: nat)
    requires Owned(pool, pages, free, owner) && IsDirectory(owner, d) && v < USER_PAGES
    ensures forall f :: f in owner && owner[f] == UserPage(d, v) ==>
              Lookup(pages, d, v).frame == f &&
              Lookup(pages, d, v).Present()
    ensures Lookup(pages, d, v).Present() ==>
              Lookup(pages, d, v).frame in owner &&
              owner[Lookup(pages, d, v).frame] == UserPage(d, v)
  {
    forall f | f in owner && owner[f] == UserPage(d, v)
      ensures Lookup(pages, d, v).frame == f && Lookup(pages, d, v).Present()
    {
      assert UsedAs(pages, owner, f);
    }
    assert PageKnown(pages, owner, d, v);
  }

  lemma {:induction false} UnmapPageLook(pool: Pool, m: Mem, owner: map<nat, Use>, d: nat, v: nat, x: nat, w: nat)
    requires TablesOk(pool, m.pages, owner) && IsDirectory(owner, d) && v < USER_PAGES &&
             Lookup(m.pages, d, v).Present()
    requires IsDirectory(owner, x) && w < ENTRIES * ENTRIES
    ensures GoneOrKept(m.pages, UnmapPage(m, d, v).pages, d, v, v + 1, x, w)
    ensures forall i: nat :: i < ENTRIES ==> EntryAt(UnmapPage(m, d, v).pages, x, i) == EntryAt(m.pages, x, i)
  {
    var f, t := Lookup(m.pages, d, v).frame, EntryAt(m.pages, d, v / ENTRIES).frame;
    RemoveUser(pool, m.pages, owner, d, v);
    var mid, pages' := WithEntry(m.pages, t, v % ENTRIES, EMPTY), UnmapPage(m, d, v).pages;
    assert pages' == mid[f := JunkPage()];
    TableEdit(pool, m.pages, owner, t, v / ENTRIES, v % ENTRIES, EMPTY, d, x, w);
    LookupKept(pool, mid, pages', owner[f := Held], x, w);
  }

  lemma {:induction false} UnmapPageLooks(pool: Pool, m: Mem, owner: map<nat, Use>, d: nat, v: nat)
    requires TablesOk(pool, m.pages, owner) && IsDirectory(owner, d) && v < USER_PAGES &&
             Lookup(m.pages, d, v).Present()
    ensures Unmapped(owner, m.pages, UnmapPage(m, d, v).pages, d, v, v + 1)
  {
    hide TablesOk, Lookup, EntryAt, UnmapPage;
    var pages', next := UnmapPage(m, d, v).pages, v + 1;
    forall x: nat, w: nat | IsDirectory(owner, x) && w < ENTRIES * ENTRIES
      ensures GoneOrKept(m.pages, pages', d, v, next, x, w)
    {
      UnmapPageLook(pool, m, owner, d, v, x, w);
    }
    forall x: nat, i: nat | IsDirectory(owner, x) && i < ENTRIES
      ensures EntryAt(pages', x, i) == EntryAt(m.pages, x, i)
    {
      UnmapPageLook(pool, m, owner, d, v, x, 0);
    }
    forall g | g in OwnersLeft(owner, d, v, v + 1) && !(owner[g].TableOf? && owner[g].dir == d)
      ensures g < |m.pages| && pages'[g] == m.pages[g]
    {
      UnmapPageKeeps(pool, m, owner, d, v, g);
    }
  }

  lemma {:induction false} UnmapPageKeeps(pool: Pool, m: Mem, owner: map<nat, Use>, d: nat, v: nat, g: nat)
    requires TablesOk(pool, m.pages, owner) && IsDirectory(owner, d) && v < USER_PAGES &&
             Lookup(m.pages, d, v).Present()
    requires g in OwnersLeft(owner, d, v, v + 1) && !(owner[g].TableOf? && owner[g].dir == d)
    ensures g < |m.pages| && UnmapPage(m, d, v).pages[g] == m.pages[g]
  {
    RemoveUser(pool, m.pages, owner, d, v);
    assert UsedAs(m.pages, owner, g);
  }

  lemma {:induction false} UnmappedNone(pool: Pool, pages: seq<Page>, free: seq<nat>, owner: map<nat, Use>, d: nat,
                                        lo: nat, hi: nat)
    requires Owned(pool, pages, free, owner) && lo >= hi
    ensures Unmapped(owner, pages, pages, d, lo, hi)
  {
    assert forall g :: g in owner ==> UsedAs(pages, owner, g);
  }

  lemma {:induction false} UnmappedTwice(owner: map<nat, Use>, p0: seq<Page>, p1: seq<Page>, p2: seq<Page>, d: nat,
                                         lo: nat, mid: nat, hi: nat)
    requires Unmapped(owner, p0, p1, d, lo, mid) && Unmapped(OwnersLeft(owner, d, lo, mid), p1, p2, d, mid, hi) &&
             lo <= mid <= hi
    ensures Unmapped(owner, p0, p2, d, lo, hi)
  {
    hide Lookup, EntryAt;
    var left := OwnersLeft(owner, d, lo, mid);
    assert forall x: nat :: IsDirectory(owner, x) ==> IsDirectory(left, x);
    forall x: nat, w: nat | IsDirectory(owner, x) && w < ENTRIES * ENTRIES
      ensures GoneOrKept(p0, p2, d, lo, hi, x, w)
    {
      assert GoneOrKept(p0, p1, d, lo, mid, x, w) && GoneOrKept(p1, p2, d, mid, hi, x, w);
    }
    forall g | g in OwnersLeft(owner, d, lo, hi) && !(owner[g].TableOf? && owner[g].dir == d)
      ensures g < |p0| && g < |p2| && p2[g] == p0[g]
    {
      assert g in OwnersLeft(left, d, mid, hi);
    }
  }

  /** Page by page, exactly the mapped pages of the range are unmapped and exactly their frames freed. */
  lemma {:induction false} UnmapRangeOk(pool: Pool, m: Mem, owner: map<nat, Use>, d: nat, lo: nat, hi: nat)
    requires Owned(pool, m.pages, m.free, owner) && IsDirectory(owner, d) && hi <= USER_PAGES
    ensures var m' := UnmapRange(m, d, lo, hi);
            && Owned(pool, m'.pages, m'.free, OwnersLeft(owner, d, lo, hi))
            && Unmapped(owner, m.pages, m'.pages, d, lo, hi)
    decreases hi - lo
  {
    hide TablesOk, FreeListOk, Unmapped, UnmapPage;
    if lo >= hi {
      assert OwnersLeft(owner, d, lo, hi) == owner;
      UnmappedNone(pool, m.pages, m.free, owner, d, lo, hi);
    } else {
      var m1, left := UnmapPage(m, d, lo), OwnersLeft(owner, d, lo, lo + 1);
      UnmapPageOk(pool, m, owner, d, lo);
      UnmapRangeOk(pool, m1, left, d, lo + 1, hi);
      assert OwnersLeft(left, d, lo + 1, hi) == OwnersLeft(owner, d, lo, hi);
      UnmappedTwice(owner, m.pages, m1.pages, UnmapRange(m1, d, lo + 1, hi).pages, d, lo, lo + 1, hi);
    }
  }

  /** Where there is no page table there is nothing to unmap: the jump to the next directory entry. */
  lemma {:induction false} SkipTable(m: Mem, d: nat, lo: nat, hi: nat, next: nat)
    requires !EntryAt(m.pages, d, lo / ENTRIES).Present() && lo <= next <= (lo / ENTRIES + 1) * ENTRIES
    ensures UnmapRange(m, d, lo, hi) == UnmapRange(m, d, next, hi)
    decreases next - lo
  {
    if lo < next && lo < hi {
      assert UnmapPage(m, d, lo) == m;
      if (lo + 1) / ENTRIES == lo / ENTRIES {
        SkipTable(m, d, lo + 1, hi, next);
      }
    }
  }

  // ---- mapping ----

  /** `d` may have got new, empty page tables; nothing else has changed. */
  ghost predicate Extended(owner0: map<nat, Use>, pages0: seq<Page>, owner: map<nat, Use>, pages: seq<Page>, d: nat) {
    && |pages| == |pages0|
    && (forall g :: g in owner0 ==> g in owner && owner[g] == owner0[g])
    && (forall g :: g in owner && g !in owner0 ==> owner[g].TableOf? && owner[g].dir == d)
    && (forall x: nat, w: nat :: IsDirectory(owner0, x) && w < ENTRIES * ENTRIES ==>
        Lookup(pages, x, w) == Lookup(pages0, x, w))
    && (forall g :: g in owner0 && g != d && !(owner0[g].TableOf? && owner0[g].dir == d) ==>
         g < |pages0| &&
         pages[g] == pages0[g])
  }

  /** walkpgdir's allocation, from the frame it takes to the entry in the page directory. */
  lemma {:induction false} NewTable(pool: Pool, pages: seq<Page>, free: seq<nat>, owner: map<nat, Use>, d: nat,
                                    i: nat, flags: nat)
    requires Owned(pool, pages, free, owner) && IsDirectory(owner, d) && i < ENTRIES
    requires flags % 2 == 1 && flags / 2 % 2 == 1 && flags / 4 % 2 == 1
    requires !EntryAt(pages, d, i).Present() && free != []
    ensures var t := free[0];
            && t < |pages| && d < |pages| && d != t && t !in owner && pages[d].Table?
            && var pages', owner' := WithEntry(pages[t := Table(NoEntries())], d, i, Entry(t, flags)),
               owner[t := TableOf(d, i)];
            && Owned(pool, pages', free[1..], owner') && Extended(owner, pages, owner', pages', d)
            && EntryAt(pages', d, i) == Entry(t, flags)
  {
    hide FreeListOk;
    var t := free[0];
    TakeFree(pool, pages, free, owner);
    var owner1, pages1 := owner[t := Held], pages[t := Table(NoEntries())];
    FillHeld(pool, pages, free[1..], owner1, t, Table(NoEntries()));
    assert UsedAs(pages, owner, d);
    InstallTable(pool, pages1, owner1, d, i, t, flags);
    var pages', owner' := WithEntry(pages1, d, i, Entry(t, flags)), owner[t := TableOf(d, i)];
    assert owner1[t := TableOf(d, i)] == owner';
    TableFree(pool, free[1..], owner, t, d, i);
    forall x: nat, w: nat | IsDirectory(owner, x) && w < ENTRIES * ENTRIES
      ensures Lookup(pages', x, w) == Lookup(pages, x, w)
    {
      LookupKept(pool, pages, pages1, owner, x, w);
      assert IsDirectory(owner1, x);
    }
    forall g | g in owner && g != d
      ensures g < |pages| && pages'[g] == pages[g]
    {
      assert UsedAs(pages, owner, g);
    }
  }

  lemma {:induction false} TableFree(pool: Pool, free: seq<nat>, owner: map<nat, Use>, t: nat, d: nat, i: nat)
    requires FreeListOk(pool, free, owner[t := Held])
    ensures FreeListOk(pool, free, owner[t := TableOf(d, i)])
  {
    assert owner[t := Held].Keys == owner[t := TableOf(d, i)].Keys;
  }

  /** Pages `v`, ..., `v + k - 1` of `d` have been mapped to the frames from `pf` on, with new page tables as needed. */
  ghost predicate Mapping(owner0: map<nat, Use>, pages0: seq<Page>, owner: map<nat, Use>, pages: seq<Page>,
                          d: nat, v: nat, pf: nat, flags: nat, k: nat) {
    && |pages| == |pages0|
    && (forall g :: g in owner0 ==> g in owner && KeptOrMapped(owner0, owner, d, v, pf, k, g))
    && (forall g :: g in owner && g !in owner0 ==> owner[g].TableOf? && owner[g].dir == d)
    && (forall x: nat, w: nat :: IsDirectory(owner0, x) && w < ENTRIES * ENTRIES ==>
        MappedOrKept(pages0, pages, d, v, pf, flags, k, x, w))
    && (forall g :: g in owner0 && g != d && !(owner0[g].TableOf? && owner0[g].dir == d) ==>
         g < |pages0| &&
         pages[g] == pages0[g])
  }

  ghost predicate KeptOrMapped(owner0: map<nat, Use>, owner: map<nat, Use>, d: nat, v: nat, pf: nat, k: nat, g: nat)
    requires g in owner0 && g in owner
  {
    if v < USER_PAGES && pf <= g < pf + k then owner0[g].Held? && owner[g] == UserPage(d, v + (g - pf))
         else owner[g] == owner0[g]
  }

  ghost predicate MappedOrKept(pages0: seq<Page>, pages: seq<Page>, d: nat, v: nat, pf: nat, flags: nat, k: nat,
                               x: nat, w: nat) {
    Lookup(pages, x, w) == if x == d && v <= w < v + k then Entry(pf + (w - v), flags) else Lookup(pages0, x, w)
  }

  lemma {:induction false} MappingStarts(pool: Pool, pages: seq<Page>, free: seq<nat>, owner: map<nat, Use>, d: nat,
                                         v: nat, pf: nat, flags: nat)
    requires Owned(pool, pages, free, owner)
    ensures Mapping(owner, pages, owner, pages, d, v, pf, flags, 0)
  {
    assert forall g :: g in owner ==> UsedAs(pages, owner, g);
  }

  /** New page tables are no harm to `Mapping`. */
  lemma {:induction false} MappingExtends(owner0: map<nat, Use>, pages0: seq<Page>, owner: map<nat, Use>,
                                          pages: seq<Page>,
                                          owner': map<nat, Use>, pages': seq<Page>, d: nat, v: nat, pf: nat,
                                          flags: nat, k: nat)
    requires Mapping(owner0, pages0, owner, pages, d, v, pf, flags, k) && Extended(owner, pages, owner', pages', d)
    ensures Mapping(owner0, pages0, owner', pages', d, v, pf, flags, k)
  {
    hide Lookup;
    forall x: nat, w: nat | IsDirectory(owner0, x) && w < ENTRIES * ENTRIES
      ensures MappedOrKept(pages0, pages', d, v, pf, flags, k, x, w)
    {
      assert MappedOrKept(pages0, pages, d, v, pf, flags, k, x, w) && KeptOrMapped(owner0, owner, d, v, pf, k, x);
    }
    forall g | g in owner0
      ensures g in owner' && KeptOrMapped(owner0, owner', d, v, pf, k, g)
    {
      assert KeptOrMapped(owner0, owner, d, v, pf, k, g);
    }
    forall g | g in owner0 && g != d && !(owner0[g].TableOf? && owner0[g].dir == d)
      ensures g < |pages0| && pages'[g] == pages0[g]
    {
      assert KeptOrMapped(owner0, owner, d, v, pf, k, g);
    }
  }

  /** The owners after page `w` of `d` has been mapped to `f`. */
  function OwnersMapped(owner: map<nat, Use>, d: nat, w: nat, f: nat): map<nat, Use> {
    if w < USER_PAGES then owner[f := UserPage(d, w)] else owner
  }

  lemma {:induction false} MappingStepLooks(pool: Pool, owner0: map<nat, Use>, pages0: seq<Page>,
                                            owner: map<nat, Use>, pages: seq<Page>,
                                            d: nat, v: nat, pf: nat, flags: nat, k: nat, t: nat, x: nat, y: nat)
    requires TablesOk(pool, pages, owner) && Mapping(owner0, pages0, owner, pages, d, v, pf, flags, k)
    requires t in owner && owner[t] == TableOf(d, (v + k) / ENTRIES)
    requires IsDirectory(owner0, x) && y < ENTRIES * ENTRIES
    ensures t < |pages| && pages[t].Table?
    ensures MappedOrKept(pages0, WithEntry(pages, t, (v + k) % ENTRIES, Entry(pf + k, flags)), d, v, pf, flags, k + 1,
                         x, y)
  {
    assert MappedOrKept(pages0, pages, d, v, pf, flags, k, x, y) && KeptOrMapped(owner0, owner, d, v, pf, k, x);
    TableEdit(pool, pages, owner, t, (v + k) / ENTRIES, (v + k) % ENTRIES, Entry(pf + k, flags), d, x, y);
  }

  lemma {:induction false} MappingStepOwners(owner0: map<nat, Use>, pages0: seq<Page>, owner: map<nat, Use>,
                                             pages: seq<Page>,
                                             d: nat, v: nat, pf: nat, flags: nat, k: nat, t: nat, e: Entry)
    requires Mapping(owner0, pages0, owner, pages, d, v, pf, flags, k)
    requires t in owner && owner[t] == TableOf(d, (v + k) / ENTRIES) && t < |pages| && pages[t].Table?
    requires (v < USER_PAGES ==> v + k < USER_PAGES)
    requires v < USER_PAGES ==> pf + k in owner0 && owner0[pf + k].Held?
    ensures var pages', owner' := WithEntry(pages, t, (v + k) % ENTRIES, e), OwnersMapped(owner, d, v + k, pf + k);
            && (forall g :: g in owner0 ==> g in owner' && KeptOrMapped(owner0, owner', d, v, pf, k + 1, g))
            && (forall g :: g in owner' && g !in owner0 ==> owner'[g].TableOf? && owner'[g].dir == d)
            && (forall g :: g in owner0 && g != d && !(owner0[g].TableOf? && owner0[g].dir == d) ==>
                 g < |pages0| &&
                 pages'[g] == pages0[g])
  {
    hide Lookup, EntryAt;
    var pages', owner', k1 := WithEntry(pages, t, (v + k) % ENTRIES, e), OwnersMapped(owner, d, v + k, pf + k), k + 1;
    forall g | g in owner0
      ensures g in owner' && KeptOrMapped(owner0, owner', d, v, pf, k1, g)
    {
      assert KeptOrMapped(owner0, owner, d, v, pf, k, g);
    }
    forall g | g in owner0 && g != d && !(owner0[g].TableOf? && owner0[g].dir == d)
      ensures g < |pages0| && pages'[g] == pages0[g]
    {
      assert KeptOrMapped(owner0, owner, d, v, pf, k, g);
    }
  }

  /** One more entry. */
  lemma {:induction false} MappingStep(pool: Pool, owner0: map<nat, Use>, pages0: seq<Page>, owner: map<nat, Use>,
                                       pages: seq<Page>,
                                       d: nat, v: nat, pf: nat, flags: nat, k: nat, t: nat)
    requires TablesOk(pool, pages, owner) && IsDirectory(owner0, d) && IsDirectory(owner, d) && flags % 2 == 1
    requires Mapping(owner0, pages0, owner, pages, d, v, pf, flags, k)
    requires v + k < ENTRIES * ENTRIES && (v < USER_PAGES ==> v + k < USER_PAGES)
    requires t in owner && owner[t] == TableOf(d, (v + k) / ENTRIES) && !Lookup(pages, d, v + k).Present()
    requires v < USER_PAGES ==> pf + k in owner0 && owner0[pf + k].Held? && pf + k < |pages| && pages[pf + k].Data?
    ensures t < |pages| && pages[t].Table?
    ensures var pages', owner' := WithEntry(pages, t, (v + k) % ENTRIES, Entry(pf + k, flags)),
            OwnersMapped(owner, d, v + k, pf + k);
            TablesOk(pool, pages', owner') && Mapping(owner0, pages0, owner', pages', d, v, pf, flags, k + 1)
  {
    hide TablesOk, Lookup, EntryAt;
    var w, f, e, k1 := v + k, pf + k, Entry(pf + k, flags), k + 1;
    MappingStepLooks(pool, owner0, pages0, owner, pages, d, v, pf, flags, k, t, d, w);
    if v < USER_PAGES {
      assert KeptOrMapped(owner0, owner, d, v, pf, k, f);
      InstallUser(pool, pages, owner, t, d, w, f, flags);
    } else {
      InstallKernel(pool, pages, owner, t, d, w, e);
    }
    var pages' := WithEntry(pages, t, w % ENTRIES, e);
    forall x: nat, y: nat | IsDirectory(owner0, x) && y < ENTRIES * ENTRIES
      ensures MappedOrKept(pages0, pages', d, v, pf, flags, k1, x, y)
    {
      MappingStepLooks(pool, owner0, pages0, owner, pages, d, v, pf, flags, k, t, x, y);
    }
    MappingStepOwners(owner0, pages0, owner, pages, d, v, pf, flags, k, t, e);
  }
}
