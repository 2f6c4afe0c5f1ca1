/**
 The frame allocator and the operations on page tables of kalloc.c and vm.c, and what fork does
 with memory.  Addresses are in bytes where the source rounds them and page numbers otherwise.
 A panic is the outcome `ok == false`.
 */
module PageTables {
  import opened Blocks
  import opened Options
  import opened PageFrames

  const PGSIZE: nat := 4096
  const KERNBASE: nat := 0x8000_0000
  const MMAPBASE: nat := 0x6000_0000

  /** EXTMEM, PHYSTOP and DEVSPACE in pages. */
  const EXT_PAGES: nat := 0x100
  const PHYS_PAGES: nat := 0xE000
  const DEV_PAGE: nat := 0xF_E000

  /** The page PGROUNDUP(a) begins. */
  function PageUp(a: nat): nat {
    (a + PGSIZE - 1) / PGSIZE
  }

  /** The first page boundary not below the address. */
  lemma {:induction false} PageUpIs(a: nat)
    ensures PageUp(a) * 4096 >= a && forall p: nat :: p * 4096 >= a ==> PageUp(a) <= p
  {
    assert PageUp(a) * 4096 >= a && PageUp(a) * 4096 < a + 4096;
  }

  /** Frame `f` lies whole between the two addresses. */
  ghost predicate InRange(vstart: nat, vend: nat, f: nat) {
    PageUp(vstart) <= f && (f + 1) * PGSIZE <= vend
  }

  /** An entry of kmap[]: `n` pages from page `v` on, mapped to the frames from `frame` on. */
  datatype Kmap = Kmap(v: nat, n: int, frame: nat, perm: nat)

  /** kmap[k], where the kernel's symbol `data` begins frame `data`. */
  function KmapAt(data: nat, k: nat): Kmap {
    if k == 0 then Kmap(USER_PAGES, EXT_PAGES, 0, PTE_W)
    else if k == 1 then Kmap(USER_PAGES + EXT_PAGES, data - EXT_PAGES, EXT_PAGES, 0)
    else if k == 2 then Kmap(USER_PAGES + data, PHYS_PAGES - data, data, PTE_W)
    else Kmap(DEV_PAGE, 0x2000, DEV_PAGE, PTE_W)
  }

  /** What page `w` is mapped to by the first `k` entries of kmap[]. */
  function KernelEntry(data: nat, k: nat, w: nat): Entry {
    if k == 0 then EMPTY
    else
      var m := KmapAt(data, k - 1);
      if m.v <= w < m.v + m.n then Entry(m.frame + (w - m.v), WithP(m.perm)) else KernelEntry(data, k - 1, w)
  }

  /** The entries of kmap[] do not overlap each other or user memory. */
  lemma {:induction false} KmapApart(data: nat, k: nat, w: nat)
    requires EXT_PAGES < data < PHYS_PAGES && k < 4
    ensures var m := KmapAt(data, k); m.n > 0 && USER_PAGES <= m.v && m.v + m.n <= ENTRIES * ENTRIES
    ensures var m := KmapAt(data, k); m.v <= w < m.v + m.n || w < USER_PAGES ==> KernelEntry(data, k, w) == EMPTY
  {
    assert KernelEntry(data, 0, w) == EMPTY;
    assert k > 1 ==> KernelEntry(data, 1, w) == if USER_PAGES <= w < USER_PAGES + EXT_PAGES
             then Entry(w - USER_PAGES, 3) else EMPTY;
  }

  /**
   The kernel's part of every address space: physical memory from KERNBASE on and the devices at their
   own addresses, all but the kernel's text and read-only data writable, nothing for users.
   */
  lemma {:induction false} KernelEntryIs(data: nat, w: nat)
    requires EXT_PAGES < data < PHYS_PAGES && w < ENTRIES * ENTRIES
    ensures var e := KernelEntry(data, 4, w);
            && (e.Present() <==> 0x8_0000 <= w < 0x8_E000 || 0xF_E000 <= w)
            && (0x8_0000 <= w < 0x8_E000 ==> e.frame == w - 0x8_0000)
            && (0xF_E000 <= w ==> e.frame == w)
            && (e.Present() ==> (e.flags / 2 % 2 == 1 <==> !(0x8_0100 <= w < 0x8_0000 + data)))
            && e.flags / 4 % 2 == 0
  {
    var k0, k1, k2, k3 := KmapAt(data, 0), KmapAt(data, 1), KmapAt(data, 2), KmapAt(data, 3);
    assert KernelEntry(data, 0, w) == EMPTY;
    assert KernelEntry(data, 1, w) == if k0.v <= w < k0.v + k0.n then Entry(w - k0.v, 3) else EMPTY;
    assert KernelEntry(data, 2, w) ==
           if k1.v <= w < k1.v + k1.n then Entry(k1.frame + (w - k1.v), 1) else KernelEntry(data, 1, w);
    assert KernelEntry(data, 3, w) ==
           if k2.v <= w < k2.v + k2.n then Entry(k2.frame + (w - k2.v), 3) else KernelEntry(data, 2, w);
  }

  /** What the hardware makes of the kernel's part. */
  lemma {:induction false} KernelAccess(pool: Pool, pages: seq<Page>, owner: map<nat, Use>, d: nat, data: nat)
    requires TablesOk(pool, pages, owner) && IsDirectory(owner, d) && EXT_PAGES < data < PHYS_PAGES
    requires forall w: nat :: w < ENTRIES * ENTRIES ==> Lookup(pages, d, w) == KernelEntry(data, 4, w)
    ensures forall w: nat :: w < ENTRIES * ENTRIES ==>
              && !UserCanAccess(pages, d, w)
              && (Lookup(pages, d, w).Present() <==> 0x8_0000 <= w < 0x8_E000 || 0xF_E000 <= w)
    ensures forall w: nat :: 0x8_0000 <= w < 0x8_E000 ==>
              && Lookup(pages, d, w).frame == w - 0x8_0000
              && (CanWrite(pages, d, w) <==> !(0x8_0100 <= w < 0x8_0000 + data))
    ensures forall w: nat :: 0xF_E000 <= w < ENTRIES * ENTRIES ==>
              Lookup(pages, d, w).frame == w && CanWrite(pages, d, w)
  {
    hide TablesOk, Lookup, EntryAt, KernelEntry, CanWrite, UserCanAccess;
    forall w: nat | w < ENTRIES * ENTRIES
      ensures !UserCanAccess(pages, d, w)
      ensures Lookup(pages, d, w).Present() <==> 0x8_0000 <= w < 0x8_E000 || 0xF_E000 <= w
      ensures 0x8_0000 <= w < 0x8_E000 ==>
                && Lookup(pages, d, w).frame == w - 0x8_0000
                && (CanWrite(pages, d, w) <==> !(0x8_0100 <= w < 0x8_0000 + data))
      ensures 0xF_E000 <= w ==> Lookup(pages, d, w).frame == w && CanWrite(pages, d, w)
    {
      KernelEntryIs(data, w);
      if Lookup(pages, d, w).Present() {
        AccessIs(pool, pages, owner, d, w);
      } else {
        NoAccess(pages, d, w);
      }
    }
  }

  lemma {:induction false} NoAccess(pages: seq<Page>, d: nat, w: nat)
    requires !Lookup(pages, d, w).Present()
    ensures !CanWrite(pages, d, w) && !UserCanAccess(pages, d, w)
  {
  }

  /** PTE_P leaves the other flags alone. */
  lemma {:induction false} WithPBits(flags: nat)
    ensures WithP(flags) % 2 == 1 && WithP(flags) / 2 == flags / 2
    ensures WithP(flags) / 2 % 2 == flags / 2 % 2 && WithP(flags) / 4 % 2 == flags / 4 % 2
  {
    assert WithP(flags) / 4 == flags / 2 / 2;
  }

  /** The access that mappages gives is what `perm` asks for. */
  lemma {:induction false} MappedAccess(pool: Pool, owner0: map<nat, Use>, pages0: seq<Page>, owner: map<nat, Use>,
                                        pages: seq<Page>, d: nat, v: nat, pf: nat, perm: nat, k: nat)
    requires TablesOk(pool, pages, owner) && IsDirectory(owner0, d) && v + k <= ENTRIES * ENTRIES
    requires Mapping(owner0, pages0, owner, pages, d, v, pf, WithP(perm), k)
    ensures forall w: nat :: v <= w < v + k ==>
              && Lookup(pages, d, w).Present() && Lookup(pages, d, w).frame == pf + (w - v)
              && (CanWrite(pages, d, w) <==> perm / 2 % 2 == 1)
              && (UserCanAccess(pages, d, w) <==> perm / 4 % 2 == 1)
  {
    hide TablesOk, Lookup, EntryAt, CanWrite, UserCanAccess, WithP;
    WithPBits(perm);
    assert KeptOrMapped(owner0, owner, d, v, pf, k, d);
    forall w: nat | v <= w < v + k
      ensures Lookup(pages, d, w).Present() && Lookup(pages, d, w).frame == pf + (w - v)
      ensures CanWrite(pages, d, w) <==> perm / 2 % 2 == 1
      ensures UserCanAccess(pages, d, w) <==> perm / 4 % 2 == 1
    {
      assert MappedOrKept(pages0, pages, d, v, pf, WithP(perm), k, d, w);
      AccessIs(pool, pages, owner, d, w);
    }
  }

  /** The owners without directory `d` and everything that belongs to it. */
  function OwnersWithout(owner: map<nat, Use>, d: nat): map<nat, Use> {
    map f | f in owner && f != d && !(owner[f].TableOf? && owner[f].dir == d) &&
      !(owner[f].UserPage? && owner[f].dir == d) :: owner[f]
  }

  /** `d` is a new directory; all that was owned before is untouched, and all that is new belongs to `d`. */
  ghost predicate Grew(owner0: map<nat, Use>, pages0: seq<Page>, owner: map<nat, Use>, pages: seq<Page>, d: nat) {
    && |pages| == |pages0| && d !in owner0 && IsDirectory(owner, d)
    && (forall g :: g in owner0 ==> g in owner && owner[g] == owner0[g] && g < |pages0| && pages[g] == pages0[g])
    && (forall g :: g in owner0 ==> !BelongsTo(owner0, g, d))
    && (forall g :: g in owner && g !in owner0 ==> BelongsTo(owner, g, d))
  }

  ghost predicate BelongsTo(owner: map<nat, Use>, g: nat, d: nat)
    requires g in owner
  {
    g == d || (owner[g].TableOf? && owner[g].dir == d) || (owner[g].UserPage? && owner[g].dir == d)
  }

  /** What was owned before a new directory came, is what is left when it goes. */
  lemma {:induction false} GrewWithout(owner0: map<nat, Use>, pages0: seq<Page>, owner: map<nat, Use>,
                                       pages: seq<Page>, d: nat)
    requires Grew(owner0, pages0, owner, pages, d)
    ensures OwnersWithout(owner, d) == owner0
  {
    forall g | g in owner0
      ensures !BelongsTo(owner, g, d)
    {
      assert !BelongsTo(owner0, g, d);
    }
  }

  class Memory {
    const pool: Pool
    const data: nat
    var pages: seq<Page>
    var free: seq<nat>
    ghost var owner: map<nat, Use>

    ghost predicate Valid()
      reads this
    {
      && Owned(pool, pages, free, owner)
      && 0 < pool.lo && pool.hi <= PHYS_PAGES && EXT_PAGES < data < PHYS_PAGES
    }

    /** Before kinit1 every frame is the kernel's own. */
    constructor (pool: Pool, data: nat, pages: seq<Page>)
      requires 0 < pool.lo && pool.hi <= PHYS_PAGES && pool.hi <= |pages| && EXT_PAGES < data < PHYS_PAGES
      ensures Valid() && this.pool == pool && this.data == data && this.pages == pages && free == []
      ensures forall f: nat :: pool.Has(f) ==> f in owner && owner[f].Held?
    {
      this.pool := pool;
      this.data := data;
      this.pages := pages;
      free := [];
      owner := map f: nat | 0 <= f < pool.hi && pool.Has(f) :: Held;
    }

    /** freerange: the whole frames between two addresses go to the free list. */
    method Freerange(vstart: nat, vend: nat)
      requires Valid() && forall f: nat :: InRange(vstart, vend, f) ==> f in owner && owner[f].Held?
      modifies this`pages, this`free, this`owner
      ensures Valid() && |pages| == |old(pages)|
      ensures forall f :: f in owner <==> f in old(owner) && !InRange(vstart, vend, f)
      ensures forall f :: f in owner ==> owner[f] == old(owner)[f]
      ensures forall f :: f in old(owner) ==> (f in owner <==> !(vstart <= f * 4096 && f * 4096 + 4096 <= vend))
    {
      hide TablesOk, FreeListOk;
      var p := PageUp(vstart) * PGSIZE;
      ghost var q := PageUp(vstart);
      while p + PGSIZE <= vend
        invariant p == q * PGSIZE && Valid() && |pages| == |old(pages)|
        invariant forall f :: f in owner <==> f in old(owner) && !(InRange(vstart, vend, f) && f < q)
        invariant forall f :: f in owner ==> owner[f] == old(owner)[f]
      {
        assert InRange(vstart, vend, q);
        FreeHeld(p / PGSIZE);
        p, q := p + PGSIZE, q + 1;
      }
    }

    method Kalloc() returns (f: Option<nat>)
      requires Valid()
      modifies this`free, this`owner
      ensures Valid()
      ensures old(free) == [] ==> f == None && free == [] && owner == old(owner)
      ensures old(free) != [] ==>
                && f == Some(old(free)[0]) && free == old(free)[1..] && owner == old(owner)[f.value := Held]
                && f.value !in old(owner) && f.value < |pages|
    {
      if free == [] {
        return None;
      }
      TakeFree(pool, pages, free, owner);
      f := Some(free[0]);
      owner := owner[free[0] := Held];
      free := free[1..];
    }

    /** kfree; `ok` is false where it panics. */
    method Kfree(f: nat) returns (ok: bool)
      requires pool.hi <= |pages|
      modifies this`pages, this`free
      ensures ok <==> pool.Has(f)
      ensures ok ==> f < |old(pages)| && pages == old(pages)[f := JunkPage()] && free == [f] + old(free)
      ensures !ok ==> pages == old(pages) && free == old(free)
    {
      if !pool.Has(f) {
        return false;
      }
      pages := pages[f := JunkPage()];
      free := [f] + free;
      ok := true;
    }

    /** kfree of a frame that is held: it never panics. */
    method FreeHeld(f: nat)
      requires Valid() && f in owner && owner[f].Held?
      modifies this`pages, this`free, this`owner
      ensures Valid() && f < |old(pages)| && pages == old(pages)[f := JunkPage()] && free == [f] + old(free) &&
              owner == old(owner) - {f}
    {
      GiveBack(pool, pages, free, owner, f);
      var ok := Kfree(f);
      owner := owner - {f};
    }

    /** memset or memmove to a frame that is held. */
    method Fill(f: nat, x: Page)
      requires Valid() && f in owner && owner[f].Held?
      modifies this`pages
      ensures Valid() && f < |old(pages)| && pages == old(pages)[f := x]
    {
      FillHeld(pool, pages, free, owner, f, x);
      pages := pages[f := x];
    }

    /** walkpgdir for page `v`: the frame of the page table, made if `alloc` and there is none. */
    method Walkpgdir(d: nat, v: nat, alloc: bool) returns (t: Option<nat>)
      requires Valid() && IsDirectory(owner, d) && v < ENTRIES * ENTRIES
      modifies this
      ensures Valid()
      ensures old(EntryAt(pages, d, v / ENTRIES)).Present() ==>
                t == Some(old(EntryAt(pages, d, v / ENTRIES)).frame) && pages == old(pages) && free == old(free) &&
                  owner == old(owner)
      ensures !old(EntryAt(pages, d, v / ENTRIES)).Present() && (!alloc || old(free) == []) ==>
                t == None && pages == old(pages) && free == old(free) && owner == old(owner)
      ensures !old(EntryAt(pages, d, v / ENTRIES)).Present() && alloc && old(free) != [] ==>
                && t == Some(old(free)[0]) && free == old(free)[1..]
                && Extended(old(owner), old(pages), owner, pages, d)
                && EntryAt(pages, d, v / ENTRIES) == Entry(old(free)[0], 7)
      ensures t.Some? ==>
                && t.value in owner && owner[t.value] == TableOf(d, v / ENTRIES) && t.value < |pages| &&
                   pages[t.value].Table?
                && Lookup(pages, d, v) == pages[t.value].es[v % ENTRIES] == old(Lookup(pages, d, v))
    {
      DirectoryIs(d, v);
      var pde := pages[d].es[v / ENTRIES];
      if pde.Present() {
        t := Some(pde.frame);
      } else {
        if !alloc {
          return None;
        }
        ghost var owner0 := owner;
        if free != [] {
          NewTable(pool, pages, free, owner, d, v / ENTRIES, PTE_P + PTE_W + PTE_U);
        }
        t := Kalloc();
        if t.None? {
          return;
        }
        pages := pages[t.value := Table(NoEntries())];
        pages := WithEntry(pages, d, v / ENTRIES, Entry(t.value, PTE_P + PTE_W + PTE_U));
        owner := owner0[t.value := TableOf(d, v / ENTRIES)];
        DirectoryIs(d, v);
      }
    }

    lemma {:induction false} DirectoryIs(d: nat, v: nat)
      requires Valid() && IsDirectory(owner, d) && v < ENTRIES * ENTRIES
      ensures d < |pages| && pages[d].Table?
      ensures var e := EntryAt(pages, d, v / ENTRIES);
              e.Present() ==>
                e.frame in owner && owner[e.frame] == TableOf(d, v / ENTRIES) && e.frame < |pages| &&
                pages[e.frame].Table?
    {
      assert UsedAs(pages, owner, d) && TableKnown(pages, owner, d, v / ENTRIES);
      assert EntryAt(pages, d, v / ENTRIES).Present() ==> UsedAs(pages, owner, EntryAt(pages, d, v / ENTRIES).frame);
    }

    /**
     mappages of `n` pages from page `v` on to the frames from `frame` on.  It panics only on a page
     that is mapped already; r is -1 only when no frame is left for a page table.
     */
    method Mappages(d: nat, v: nat, n: nat, frame: nat, perm: nat) returns (ok: bool, r: int, ghost k: nat)
      requires Valid() && IsDirectory(owner, d) && n > 0 &&
               v + n <= (if v < USER_PAGES then USER_PAGES else ENTRIES * ENTRIES)
      requires v < USER_PAGES ==> HeldFrames(owner, pages, frame, n)
      modifies this
      ensures Valid() && Mapping(old(owner), old(pages), owner, pages, d, v, frame, WithP(perm), k)
      ensures ok ==> (r == 0 && k == n) || (r == -1 && k < n && free == [])
      ensures !ok ==> k < n && old(Lookup(pages, d, v + k)).Present()
      ensures forall w: nat :: v <= w < v + k ==>
                && Lookup(pages, d, w).Present() && Lookup(pages, d, w).frame == frame + (w - v)
                && (CanWrite(pages, d, w) <==> perm / 2 % 2 == 1)
                && (UserCanAccess(pages, d, w) <==> perm / 4 % 2 == 1)
    {
      hide TablesOk, FreeListOk, Extended, Lookup, EntryAt, HeldFrames, Mapping, CanWrite, UserCanAccess;
      ghost var pages0, owner0 := pages, owner;
      MappingStarts(pool, pages, free, owner, d, v, frame, WithP(perm));
      var a, last, pa := v, v + n - 1, frame;
      k := 0;
      while true
        invariant Valid() && k < n && a == v + k && pa == frame + k && |pages| == |pages0|
        invariant Mapping(owner0, pages0, owner, pages, d, v, frame, WithP(perm), k)
        decreases n - k
      {
        StillMapping(owner0, pages0, owner, pages, d, v, frame, WithP(perm), k, n);
        ghost var owner1, pages1 := owner, pages;
        var t := Walkpgdir(d, a, true);
        if t.None? {
          MappedAccess(pool, owner0, pages0, owner, pages, d, v, frame, perm, k);
          return true, -1, k;
        }
        if owner != owner1 || pages != pages1 {
          MappingExtends(owner0, pages0, owner1, pages1, owner, pages, d, v, frame, WithP(perm), k);
        }
        StillMapping(owner0, pages0, owner, pages, d, v, frame, WithP(perm), k, n);
        if pages[t.value].es[a % ENTRIES].Present() {
          MappedAccess(pool, owner0, pages0, owner, pages, d, v, frame, perm, k);
          return false, 0, k;
        }
        MappingStep(pool, owner0, pages0, owner, pages, d, v, frame, WithP(perm), k, t.value);
        MappedFree(pool, free, owner, d, a, pa);
        pages := WithEntry(pages, t.value, a % ENTRIES, Entry(pa, WithP(perm)));
        owner := OwnersMapped(owner, d, a, pa);
        k := k + 1;
        if a == last {
          break;
        }
        a, pa := a + 1, pa + 1;
      }
      MappedAccess(pool, owner0, pages0, owner, pages, d, v, frame, perm, k);
      ok, r := true, 0;
    }

    /** kfree of the frame of a mapped page, and the store that unmaps it. */
    method Unmap(d: nat, v: nat, t: nat)
      requires Valid() && IsDirectory(owner, d) && v < USER_PAGES && Lookup(pages, d, v).Present()
      requires t == EntryAt(pages, d, v / ENTRIES).frame
      modifies this
      ensures Valid() && Mem(pages, free) == UnmapPage(Mem(old(pages), old(free)), d, v) &&
              owner == OwnersLeft(old(owner), d, v, v + 1)
    {
      hide TablesOk, FreeListOk;
      DirectoryIs(d, v);
      UnmapPageOk(pool, Mem(pages, free), owner, d, v);
      UnmapReady(pool, pages, free, owner, d, v);
      var ok := Kfree(pages[t].es[v % ENTRIES].frame);
      pages := WithEntry(pages, t, v % ENTRIES, EMPTY);
      owner := OwnersLeft(owner, d, v, v + 1);
    }

    /** deallocuvm: the jump over missing page tables unmaps what the page-by-page loop would. */
    method Deallocuvm(d: nat, oldsz: nat, newsz: nat) returns (r: nat)
      requires Valid() && IsDirectory(owner, d) && oldsz <= KERNBASE
      modifies this
      ensures Valid() && r == if newsz >= oldsz then oldsz else newsz
      ensures Mem(pages, free) == UnmapRange(Mem(old(pages), old(free)), d, PageUp(newsz), PageUp(oldsz))
      ensures owner == OwnersLeft(old(owner), d, PageUp(newsz), PageUp(oldsz))
      ensures Unmapped(old(owner), old(pages), pages, d, PageUp(newsz), PageUp(oldsz))
      ensures forall w: nat :: PageUp(newsz) <= w < PageUp(oldsz) ==> !Lookup(pages, d, w).Present()
      ensures forall x: nat, w: nat ::
                (IsDirectory(old(owner), x) && w < ENTRIES * ENTRIES &&
                 !(x == d && PageUp(newsz) <= w < PageUp(oldsz))) ==>
                  Lookup(pages, x, w) == old(Lookup(pages, x, w))
    {
      hide TablesOk, FreeListOk, Unmapped, UnmapPage, Lookup, EntryAt;
      ghost var m0, owner0, hi := Mem(pages, free), owner, PageUp(oldsz);
      UnmapRangeOk(pool, m0, owner0, d, PageUp(newsz), hi);
      UnmappedIs(owner0, m0.pages, UnmapRange(m0, d, PageUp(newsz), hi).pages, d, PageUp(newsz), hi);
      if newsz >= oldsz {
        assert OwnersLeft(owner, d, PageUp(newsz), hi) == owner;
        return oldsz;
      }
      var a := PageUp(newsz) * PGSIZE;
      ghost var p := PageUp(newsz);
      while a < oldsz
        invariant a == p * PGSIZE && Valid() && IsDirectory(owner, d)
        invariant UnmapRange(Mem(pages, free), d, p, hi) == UnmapRange(m0, d, PageUp(newsz), hi)
        decreases oldsz - a
      {
        var t := Walkpgdir(d, a / PGSIZE, false);
        if t.None? {
          a := (a / 0x40_0000 + 1) * 0x40_0000 - PGSIZE;
          SkipTable(Mem(pages, free), d, p, hi, (p / ENTRIES + 1) * ENTRIES);
          p := (p / ENTRIES + 1) * ENTRIES - 1;
        } else {
          UnmapMissing(Mem(pages, free), d, p);
          if pages[t.value].es[a / PGSIZE % ENTRIES].Present() {
            Unmap(d, a / PGSIZE, t.value);
          }
        }
        a, p := a + PGSIZE, p + 1;
      }
      owner := OwnersLeft(owner0, d, PageUp(newsz), hi);
      r := newsz;
    }

    /**
     allocuvm.  On success (`done`) the pages between the sizes are mapped to fresh zeroed frames;
     if memory runs out r is 0 and every data frame it took is free again.  It panics only on a page
     that was mapped before.
     */
    method Allocuvm(d: nat, oldsz: nat, newsz: nat) returns (ok: bool, r: nat, ghost done: bool)
      requires Valid() && IsDirectory(owner, d)
      modifies this
      ensures Valid()
      ensures newsz >= KERNBASE || newsz < oldsz ==>
                ok && !done && pages == old(pages) && free == old(free) &&
                owner == old(owner)
      ensures newsz >= KERNBASE ==> r == 0
      ensures newsz < oldsz && newsz < KERNBASE ==> r == oldsz
      ensures oldsz <= newsz < KERNBASE && ok && done ==>
                r == newsz && Allocating(old(owner), old(pages), owner, pages, d, PageUp(oldsz), PageUp(newsz))
      ensures oldsz <= newsz < KERNBASE && ok && done ==>
                forall w: nat :: PageUp(oldsz) <= w < PageUp(newsz) ==>
                  && CanWrite(pages, d, w) && UserCanAccess(pages, d, w)
                  && Zeroed(pages, Lookup(pages, d, w).frame)
      ensures oldsz <= newsz < KERNBASE && ok && !done ==>
                r == 0 && Released(old(owner), old(pages), owner, pages, d, PageUp(oldsz), PageUp(newsz))
      ensures oldsz <= newsz < KERNBASE && ok && !done ==>
                forall w: nat :: PageUp(oldsz) <= w < PageUp(newsz) ==> !Lookup(pages, d, w).Present()
      ensures !ok ==> exists w: nat :: PageUp(oldsz) <= w < PageUp(newsz) && old(Lookup(pages, d, w)).Present()
    {
      hide TablesOk, FreeListOk, Unmapped, Mapping, Allocating, Released, Lookup, EntryAt, UnmapRange, CanWrite,
           UserCanAccess, Zeroed;
      done := false;
      if newsz >= KERNBASE {
        return true, 0, false;
      }
      if newsz < oldsz {
        return true, oldsz, false;
      }
      ghost var pages0, free0, owner0, lo, hi := pages, free, owner, PageUp(oldsz), PageUp(newsz);
      AllocatingNothing(pool, owner0, pages0, free0, d, lo);
      var a := PageUp(oldsz) * PGSIZE;
      ghost var p := lo;
      while a < newsz
        invariant a == p * PGSIZE && lo <= p && (lo <= hi ==> p <= hi) && Valid() && IsDirectory(owner, d)
        invariant Allocating(owner0, pages0, owner, pages, d, lo, p)
      {
        ghost var owner1, pages1 := owner, pages;
        var mem := Kalloc();
        if mem.None? {
          var _ := Deallocuvm(d, newsz, oldsz);
          AllocatingReleased(owner0, pages0, owner1, pages1, owner, pages, d, lo, p, hi);
          ReleasedLooks(owner0, pages0, owner, pages, d, lo, hi);
          return true, 0, false;
        }
        KallocKeeps(owner1, mem.value, d);
        Fill(mem.value, ZeroPage());
        ghost var owner2, pages2 := owner, pages;
        var r1: int;
        ghost var k;
        ok, r1, k := Mappages(d, a / PGSIZE, 1, mem.value, PTE_W + PTE_U);
        if !ok {
          AllocatingLooks(owner0, pages0, owner1, pages1, owner2, pages2, mem.value, d, lo, p, pool, free0);
          return false, 0, false;
        }
        if r1 < 0 {
          ghost var owner3, pages3 := owner, pages;
          MappedNothing(owner2, pages2, owner3, pages3, d, p, mem.value);
          var _ := Deallocuvm(d, newsz, oldsz);
          ghost var pages4, owner4, free4 := pages, owner, free;
          assert Owned(pool, pages4, free4, owner4);
          FreeHeld(mem.value);
          AllocatingStuck(pool, owner0, pages0, owner1, pages1, owner3, pages3, owner4, pages4, free4, mem.value, d,
                          lo, p, hi);
          ReleasedLooks(owner0, pages0, owner, pages, d, lo, hi);
          return true, 0, false;
        }
        AllocatingStep(pool, owner0, pages0, owner1, pages1, owner, pages, mem.value, d, lo, p);
        StillDirectory(owner2, pages2, owner, pages, d, p, mem.value);
        a := a + PGSIZE;
        p := p + 1;
      }
      AllocatedAccess(pool, owner0, pages0, owner, pages, d, lo, p);
      return true, newsz, true;
    }

    /** freevm: every frame of the directory goes back to the pool once, and no other. */
    method Freevm(d: nat)
      requires Valid() && IsDirectory(owner, d)
      modifies this
      ensures Valid() && |pages| == |old(pages)| && owner == OwnersWithout(old(owner), d)
      ensures forall g :: g in owner ==> g < |pages| && pages[g] == old(pages)[g]
    {
      hide TablesOk, FreeListOk, Lookup, EntryAt, UnmapRange, OwnersLeft;
      ghost var owner0, pages0 := owner, pages;
      var _ := Deallocuvm(d, KERNBASE, 0);
      ghost var owner1, pages1 := owner, pages;
      NoneMapped(pool, owner0, pages0, owner1, pages1, free, d);
      Abandon(pool, pages, owner, d);
      AbandonedFree(pool, free, owner, d);
      owner := Abandoned(owner, d);
      TablesLeft(pool, pages1, free, owner1, d);
      var i := 0;
      while i < ENTRIES
        invariant i <= ENTRIES && Valid() && d < |pages| == |pages1| && pages[d] == pages1[d] && pages[d].Table?
        invariant owner == TablesGone(owner1, d, i)
        invariant forall g :: g in OwnersWithout(owner1, d) ==> g < |pages| && pages[g] == pages1[g]
      {
        if pages[d].es[i].Present() {
          TableHeld(pool, pages1, owner1, d, i);
          FreeHeld(pages[d].es[i].frame);
        } else {
          TableMissing(pool, pages1, owner1, d, i);
        }
        i := i + 1;
      }
      FreeHeld(d);
      AllGone(pool, pages1, owner1, d);
      WithoutLeft(pool, pages0, owner0, d);
    }

    /** setupkvm: a new directory with the kernel's mappings alone, or no frame taken at all. */
    method Setupkvm() returns (r: Option<nat>)
      requires Valid()
      modifies this
      ensures Valid() && |pages| == |old(pages)|
      ensures r.None? ==> owner == old(owner) && forall g :: g in owner ==> g < |pages| && pages[g] == old(pages)[g]
      ensures r.Some? ==> Grew(old(owner), old(pages), owner, pages, r.value)
      ensures r.Some? ==> forall w: nat :: w < ENTRIES * ENTRIES ==>
                Lookup(pages, r.value, w) == KernelEntry(data, 4, w)
      ensures r.Some? ==> forall w: nat :: w < ENTRIES * ENTRIES ==>
                && !UserCanAccess(pages, r.value, w)
                && (Lookup(pages, r.value, w).Present() <==> 0x8_0000 <= w < 0x8_E000 || 0xF_E000 <= w)
      ensures r.Some? ==> forall w: nat :: 0x8_0000 <= w < 0x8_E000 ==>
                && Lookup(pages, r.value, w).frame == w - 0x8_0000
                && (CanWrite(pages, r.value, w) <==> !(0x8_0100 <= w < 0x8_0000 + data))
      ensures r.Some? ==> forall w: nat :: 0xF_E000 <= w < ENTRIES * ENTRIES ==>
                Lookup(pages, r.value, w).frame == w && CanWrite(pages, r.value, w)
    {
      hide TablesOk, FreeListOk, Lookup, EntryAt, Mapping, Grew, KernelEntry, KmapAt, CanWrite, UserCanAccess;
      ghost var owner0, pages0, free0 := owner, pages, free;
      AllAllocated(pool, pages, free, owner);
      var pgdir := Kalloc();
      if pgdir.None? {
        return None;
      }
      var d := pgdir.value;
      Fill(d, Table(NoEntries()));
      InstallDirectory(pool, pages, owner, d);
      DirectoryFree(pool, free, owner0, d);
      GrewStarts(pool, owner0, pages0, free0, d, Table(NoEntries()));
      owner := owner0[d := Directory];
      assert owner == owner0[d := Held][d := Directory];
      var k := 0;
      NoKernelEntry(data);
      while k < 4
        invariant k <= 4 && Valid() && Grew(owner0, pages0, owner, pages, d) && IsDirectory(owner, d) &&
                  |pages| == |pages0|
        invariant forall w: nat :: w < ENTRIES * ENTRIES ==> Lookup(pages, d, w) == KernelEntry(data, k, w)
      {
        ghost var owner1, pages1 := owner, pages;
        var m := KmapAt(data, k);
        KmapApart(data, k, 0);
        ghost var n;
        var ok, r1;
        ok, r1, n := Mappages(d, m.v, m.n, m.frame, m.perm);
        if !ok {
          KmapApart(data, k, m.v + n);
          assert false;
        }
        GrewMapped(owner0, pages0, owner1, pages1, owner, pages, d, m.v, m.frame, WithP(m.perm), n);
        if r1 < 0 {
          GrewWithout(owner0, pages0, owner, pages, d);
          ghost var owner2, pages2 := owner, pages;
          Freevm(d);
          GrewKept(owner0, pages0, owner2, pages2, pages, d);
          return None;
        }
        KernelMapped(owner1, pages1, owner, pages, d, data, k);
        k := k + 1;
      }
      KernelAccess(pool, pages, owner, d, data);
      r := Some(d);
    }

    /**
     One page of the parent copied to the child, as both copying loops do it; r is -1 if memory runs
     out.  `owner0` and `pages0` are what the parent's copy is made from.
     */
    method CopyPage(src: nat, dst: nat, v: nat, pte: Entry, ghost owner0: map<nat, Use>, ghost pages0: seq<Page>,
                    ghost free0: seq<nat>,
                    ghost a: nat, ghost c: nat)
      returns (r: int)
      requires Valid() && Owned(pool, pages0, free0, owner0) && Copied(owner0, pages0, owner, pages, src, dst, a, c)
      requires v < USER_PAGES && pte == Lookup(pages0, src, v) && pte.Present() && !InCopy(a, c, v)
      modifies this
      ensures Valid() && |pages| == |pages0| && Grew(owner0, pages0, owner, pages, dst) && (r == 0 || r == -1)
      ensures r == 0 ==>
                && (v == a ==> Copied(owner0, pages0, owner, pages, src, dst, a + 1, c))
                && (v == c ==> Copied(owner0, pages0, owner, pages, src, dst, a, c + 1))
    {
      hide TablesOk, FreeListOk, Lookup, EntryAt, Mapping, Grew, Copied;
      CopySource(pool, owner0, pages0, free0, owner, pages, src, dst, a, c, v);
      ghost var owner1, pages1 := owner, pages;
      var mem := Kalloc();
      if mem.None? {
        return -1;
      }
      Fill(mem.value, pages[pte.frame]);
      ghost var owner2, pages2 := owner, pages;
      CopyNotMapped(pool, owner0, pages0, owner1, pages1, owner2, pages2, src, dst, a, c, v, mem.value);
      ghost var k;
      var ok;
      ok, r, k := Mappages(dst, v, 1, mem.value, pte.flags);
      if !ok {
        assert false;
      }
      if r < 0 {
        ghost var owner3, pages3 := owner, pages;
        MappedNone(owner2, pages2, owner3, pages3, dst, v, mem.value, WithP(pte.flags));
        FreeHeld(mem.value);
        CopyFailed(owner0, pages0, owner1, pages1, owner3, pages3, src, dst, a, c, v, mem.value, pages2[mem.value],
                   WithP(pte.flags));
        return -1;
      }
      CopyDone(pool, owner0, pages0, owner1, pages1, owner, pages, src, dst, a, c, v, mem.value);
    }

    /**
     copyuvm: a new directory with copies of the parent's pages below `sz`.  It panics only on a
     page that is not there; out of memory, it has given back every frame.
     */
    method Copyuvm(src: nat, sz: nat) returns (ok: bool, r: Option<nat>)
      requires Valid() && IsDirectory(owner, src) && sz <= KERNBASE
      modifies this
      ensures ok ==> Valid() && |pages| == |old(pages)|
      ensures !ok ==> exists w: nat :: w < PageUp(sz) && !old(Lookup(pages, src, w)).Present()
      ensures ok && r.None? ==> owner == old(owner) && forall g :: g in owner ==>
                g < |pages| &&
                pages[g] == old(pages)[g]
      ensures ok && r.Some? ==> Copied(old(owner), old(pages), owner, pages, src, r.value, PageUp(sz), MMAP_PAGE)
      ensures ok && r.Some? ==> forall w: nat :: w < PageUp(sz) && old(Lookup(pages, src, w).Present()) ==>
                SamePage(old(pages), src, pages, r.value, w)
    {
      hide TablesOk, FreeListOk, Lookup, EntryAt, Mapping, Grew, Copied, CopiedAt, KernelEntry, SamePage, CanWrite,
           UserCanAccess;
      ghost var owner0, pages0, free0 := owner, pages, free;
      AllAllocated(pool, pages, free, owner);
      var pgdir := Setupkvm();
      if pgdir.None? {
        return true, None;
      }
      var d := pgdir.value;
      NothingCopied(owner0, pages0, owner, pages, src, d, data);
      var i := 0;
      ghost var p := 0;
      while i < sz
        invariant i == p * PGSIZE && p <= PageUp(sz) && Valid() && |pages| == |pages0|
        invariant Copied(owner0, pages0, owner, pages, src, d, p, MMAP_PAGE)
      {
        CopiedIs(owner0, pages0, owner, pages, src, d, p, MMAP_PAGE);
        LooksKept(pool, owner0, pages0, free0, owner, pages, src, d, p);
        var t := Walkpgdir(src, i / PGSIZE, false);
        if t.None? {
          NoTable(pages, src, p);
          return false, None;
        }
        var pte := pages[t.value].es[i / PGSIZE % ENTRIES];
        if !pte.Present() {
          return false, None;
        }
        var r1 := CopyPage(src, d, i / PGSIZE, pte, owner0, pages0, free0, p, MMAP_PAGE);
        if r1 < 0 {
          ghost var owner1, pages1 := owner, pages;
          CopiedDirectory(owner0, pages0, owner, pages, d);
          Freevm(d);
          GrewKept(owner0, pages0, owner1, pages1, pages, d);
          return true, None;
        }
        i, p := i + PGSIZE, p + 1;
      }
      CopiedAccess(pool, owner0, pages0, free0, owner, pages, src, d, p, MMAP_PAGE);
      return true, Some(d);
    }

    /** copyrange: the pages that are there between the addresses; -1 leaves the child half copied. */
    method Copyrange(src: nat, dst: nat, start: nat, end: nat, ghost owner0: map<nat, Use>, ghost pages0: seq<Page>,
                     ghost free0: seq<nat>,
                     ghost a: nat)
      returns (r: int)
      requires Valid() && Owned(pool, pages0, free0, owner0) && a <= MMAP_PAGE && |pages| == |pages0|
      requires MMAPBASE <= start <= end <= KERNBASE && start % PGSIZE == 0 && end % PGSIZE == 0
      requires Copied(owner0, pages0, owner, pages, src, dst, a, start / PGSIZE)
      modifies this
      ensures Valid() && |pages| == |pages0| && (r == 0 || r == -1)
      ensures r == 0 ==> Copied(owner0, pages0, owner, pages, src, dst, a, end / PGSIZE)
      ensures Grew(owner0, pages0, owner, pages, dst)
    {
      hide TablesOk, FreeListOk, Lookup, EntryAt, Mapping, Grew, Copied, CopiedAt;
      var i := start;
      ghost var p := start / PGSIZE;
      CopiedIs(owner0, pages0, owner, pages, src, dst, a, p);
      while i < end
        invariant i == p * PGSIZE && MMAP_PAGE <= p <= end / PGSIZE && Valid() && |pages| == |pages0|
        invariant Copied(owner0, pages0, owner, pages, src, dst, a, p)
      {
        CopiedIs(owner0, pages0, owner, pages, src, dst, a, p);
        LooksKept(pool, owner0, pages0, free0, owner, pages, src, dst, p);
        var t := Walkpgdir(src, i / PGSIZE, false);
        if t.Some? && pages[t.value].es[i / PGSIZE % ENTRIES].Present() {
          r := CopyPage(src, dst, i / PGSIZE, pages[t.value].es[i / PGSIZE % ENTRIES], owner0, pages0, free0, a, p);
          if r < 0 {
            return -1;
          }
        } else {
          if t.None? { NoTable(pages, src, p); }
          NotThere(owner0, pages0, owner, pages, src, dst, a, p);
        }
        i, p := i + PGSIZE, p + 1;
      }
      CopiedIs(owner0, pages0, owner, pages, src, dst, a, p);
      r := 0;
    }

    /**
     The memory of fork: a kernel stack and a copy of the address space, or no frame at all.  `r` is
     the child's directory and the frame of its kernel stack.
     */
    method Fork(src: nat, sz: nat) returns (ok: bool, r: Option<(nat, nat)>)
      requires Valid() && IsDirectory(owner, src) && sz <= MMAPBASE
      modifies this
      ensures ok ==> Valid() && |pages| == |old(pages)|
      ensures !ok ==> exists w: nat :: w < PageUp(sz) && !old(Lookup(pages, src, w)).Present()
      ensures ok && r.None? ==> owner == old(owner) && (forall f :: f in free <==> f in old(free))
      ensures ok && r.None? ==> forall g :: g in owner ==> g < |pages| && pages[g] == old(pages)[g]
      ensures ok && r.Some? ==>
                && r.value.1 !in old(owner)
                && Copied(old(owner)[r.value.1 := Held], old(pages), owner, pages, src, r.value.0, PageUp(sz),
                          USER_PAGES)
      ensures ok && r.Some? ==> forall w: nat ::
                w < USER_PAGES && (w < PageUp(sz) || MMAPBASE <= w * PGSIZE) && old(Lookup(pages, src, w).Present())
                ==> SamePage(old(pages), src, pages, r.value.0, w)
    {
      hide TablesOk, FreeListOk, Lookup, EntryAt, Grew, Copied, SamePage, CanWrite, UserCanAccess;
      ghost var owner0, pages0, free0 := owner, pages, free;
      AllAllocated(pool, pages, free, owner);
      var kstack := Kalloc();
      if kstack.None? {
        return true, None;
      }
      ghost var owner1, free1 := owner, free;
      assert owner1 - {kstack.value} == owner0;
      var pgdir;
      ok, pgdir := Copyuvm(src, sz);
      if !ok {
        return false, None;
      }
      if pgdir.None? {
        FreeHeld(kstack.value);
        SameOwnersSameFree(pool, free0, free, owner0);
        return true, None;
      }
      var d := pgdir.value;
      var r1 := Copyrange(src, d, MMAPBASE, KERNBASE, owner1, pages0, free1, PageUp(sz));
      if r1 == -1 {
        ghost var owner2, pages2 := owner, pages;
        CopiedDirectory(owner1, pages0, owner, pages, d);
        Freevm(d);
        GrewKept(owner1, pages0, owner2, pages2, pages, d);
        FreeHeld(kstack.value);
        SameOwnersSameFree(pool, free0, free, owner0);
        return true, None;
      }
      CopiedAccess(pool, owner1, pages0, free1, owner, pages, src, d, PageUp(sz), USER_PAGES);
      return true, Some((d, kstack.value));
    }
  }

  lemma {:induction false} AllAllocated(pool: Pool, pages: seq<Page>, free: seq<nat>, owner: map<nat, Use>)
    requires Owned(pool, pages, free, owner)
    ensures forall g :: g in owner ==> g < |pages|
  {
    assert forall g :: g in owner ==> UsedAs(pages, owner, g);
  }

  lemma {:induction false} DirectoryFree(pool: Pool, free: seq<nat>, owner: map<nat, Use>, d: nat)
    requires FreeListOk(pool, free, owner[d := Held])
    ensures FreeListOk(pool, free, owner[d := Directory])
  {
    assert owner[d := Held].Keys == owner[d := Directory].Keys;
  }

  lemma {:induction false} NoKernelEntry(data: nat)
    ensures forall w: nat :: KernelEntry(data, 0, w) == EMPTY
  {
  }

  lemma {:induction false} GrewStarts(pool: Pool, owner0: map<nat, Use>, pages0: seq<Page>, free0: seq<nat>, d: nat,
                                      x: Page)
    requires Owned(pool, pages0, free0, owner0) && d !in owner0 && d < |pages0|
    ensures Grew(owner0, pages0, owner0[d := Directory], pages0[d := x], d)
  {
    forall g | g in owner0
      ensures g < |pages0| && !BelongsTo(owner0, g, d)
    {
      assert UsedAs(pages0, owner0, g);
    }
  }

  /** Mappings above the user pages add only page tables. */
  lemma {:induction false} GrewMapped(owner0: map<nat, Use>, pages0: seq<Page>, owner1: map<nat, Use>,
                                      pages1: seq<Page>,
                                      owner: map<nat, Use>, pages: seq<Page>, d: nat, v: nat, pf: nat, flags: nat,
                                      k: nat)
    requires Grew(owner0, pages0, owner1, pages1, d) && Mapping(owner1, pages1, owner, pages, d, v, pf, flags, k) &&
             v >= USER_PAGES
    ensures Grew(owner0, pages0, owner, pages, d) && IsDirectory(owner, d) && |pages| == |pages0|
  {
    hide Lookup, EntryAt;
    forall g | g in owner1
      ensures g in owner && owner[g] == owner1[g]
    {
      assert KeptOrMapped(owner1, owner, d, v, pf, k, g);
    }
    forall g | g in owner0
      ensures g < |pages0| && pages[g] == pages0[g]
    {
      assert !BelongsTo(owner0, g, d);
    }
    forall g | g in owner && g !in owner0
      ensures BelongsTo(owner, g, d)
    {
      assert g in owner1 ==> BelongsTo(owner1, g, d);
    }
  }

  lemma {:induction false} GrewKept(owner0: map<nat, Use>, pages0: seq<Page>, owner: map<nat, Use>, pages: seq<Page>,
                                    pages': seq<Page>, d: nat)
    requires Grew(owner0, pages0, owner, pages, d) && |pages'| == |pages|
    requires forall g :: g in OwnersWithout(owner, d) ==> g < |pages'| && pages'[g] == pages[g]
    ensures OwnersWithout(owner, d) == owner0 && forall g :: g in owner0 ==> g < |pages'| && pages'[g] == pages0[g]
  {
    GrewWithout(owner0, pages0, owner, pages, d);
  }

  lemma {:induction false} KernelMapped(owner1: map<nat, Use>, pages1: seq<Page>, owner: map<nat, Use>,
                                        pages: seq<Page>, d: nat, data: nat, k: nat)
    requires IsDirectory(owner1, d) && EXT_PAGES < data < PHYS_PAGES && k < 4
    requires forall w: nat :: w < ENTRIES * ENTRIES ==> Lookup(pages1, d, w) == KernelEntry(data, k, w)
    requires KmapAt(data, k).n > 0
    requires var m := KmapAt(data, k); Mapping(owner1, pages1, owner, pages, d, m.v, m.frame, WithP(m.perm), m.n)
    ensures forall w: nat :: w < ENTRIES * ENTRIES ==> Lookup(pages, d, w) == KernelEntry(data, k + 1, w)
  {
    hide Lookup, EntryAt, KmapAt;
    var m := KmapAt(data, k);
    forall w: nat | w < ENTRIES * ENTRIES
      ensures Lookup(pages, d, w) == KernelEntry(data, k + 1, w)
    {
      assert MappedOrKept(pages1, pages, d, m.v, m.frame, WithP(m.perm), m.n, d, w);
    }
  }

  // ---- copying an address space ----

  const MMAP_PAGE: nat := 0x6_0000

  /** The pages copied so far: those below `a`, and from MMAPBASE up to `c`. */
  ghost predicate InCopy(a: nat, c: nat, w: nat) {
    w < a || MMAP_PAGE <= w < c
  }

  /** Page `w` of the child has the bytes and flags of the parent's, on a frame of its own; or there is none. */
  ghost predicate CopiedAt(owner0: map<nat, Use>, pages0: seq<Page>, pages: seq<Page>, src: nat, dst: nat, a: nat,
                           c: nat, w: nat) {
    var o, e := Lookup(pages0, src, w), Lookup(pages, dst, w);
    if InCopy(a, c, w) && o.Present() then
      && e.Present() && e.flags == o.flags && e.frame !in owner0
      && e.frame < |pages| && o.frame < |pages0| && pages[e.frame] == pages0[o.frame]
    else !e.Present()
  }

  ghost predicate Copied(owner0: map<nat, Use>, pages0: seq<Page>, owner: map<nat, Use>, pages: seq<Page>, src: nat,
                         dst: nat, a: nat, c: nat) {
    && Grew(owner0, pages0, owner, pages, dst) && IsDirectory(owner0, src) && c >= MMAP_PAGE
    && forall w: nat :: w < USER_PAGES ==> CopiedAt(owner0, pages0, pages, src, dst, a, c, w)
  }

  /** The child can do with its copy of a page what the parent can do with the page. */
  lemma {:induction false} CopiedAccess(pool: Pool, owner0: map<nat, Use>, pages0: seq<Page>, free0: seq<nat>,
                                        owner: map<nat, Use>, pages: seq<Page>, src: nat, dst: nat, a: nat, c: nat)
    requires Owned(pool, pages0, free0, owner0) && Copied(owner0, pages0, owner, pages, src, dst, a, c)
    requires TablesOk(pool, pages, owner)
    ensures forall w: nat :: w < USER_PAGES && (w < a || MMAP_PAGE <= w < c) && Lookup(pages0, src, w).Present() ==>
              SamePage(pages0, src, pages, dst, w)
  {
    hide TablesOk, FreeListOk, Lookup, EntryAt, CanWrite, UserCanAccess, Grew;
    forall w: nat | w < USER_PAGES && (w < a || MMAP_PAGE <= w < c) && Lookup(pages0, src, w).Present()
      ensures SamePage(pages0, src, pages, dst, w)
    {
      assert CopiedAt(owner0, pages0, pages, src, dst, a, c, w);
      CopiedDirectory(owner0, pages0, owner, pages, dst);
      AccessIs(pool, pages, owner, dst, w);
      AccessIs(pool, pages0, owner0, src, w);
    }
  }

  /** Page `w` holds the same bytes for both, and both have the same access to it. */
  ghost predicate SamePage(pages0: seq<Page>, src: nat, pages: seq<Page>, dst: nat, w: nat) {
    var f0, f := Lookup(pages0, src, w).frame, Lookup(pages, dst, w).frame;
    && f0 < |pages0| && f < |pages| && pages[f] == pages0[f0]
    && Lookup(pages, dst, w).Present()
    && (CanWrite(pages, dst, w) <==> CanWrite(pages0, src, w))
    && (UserCanAccess(pages, dst, w) <==> UserCanAccess(pages0, src, w))
  }

  /** Nothing the parent and the child have mapped is on the same frame. */
  lemma {:induction false} CopyIsolates(pool: Pool, owner0: map<nat, Use>, pages0: seq<Page>, free0: seq<nat>,
                                        owner: map<nat, Use>, pages: seq<Page>,
                                        src: nat, dst: nat, a: nat, c: nat, v: nat, w: nat)
    requires Owned(pool, pages0, free0, owner0) && Copied(owner0, pages0, owner, pages, src, dst, a, c)
    requires v < USER_PAGES && w < USER_PAGES && Lookup(pages, src, v).Present() && Lookup(pages, dst, w).Present()
    ensures Lookup(pages, src, v) == Lookup(pages0, src, v) &&
            Lookup(pages, src, v).frame != Lookup(pages, dst, w).frame
  {
    LooksKept(pool, owner0, pages0, free0, owner, pages, src, dst, v);
    assert CopiedAt(owner0, pages0, pages, src, dst, a, c, w);
    assert PageKnown(pages0, owner0, src, v);
  }

  /** A new directory changes no lookup of an old one. */
  lemma {:induction false} LooksKept(pool: Pool, owner0: map<nat, Use>, pages0: seq<Page>, free0: seq<nat>,
                                     owner: map<nat, Use>, pages: seq<Page>,
                                     src: nat, dst: nat, v: nat)
    requires Owned(pool, pages0, free0, owner0) && Grew(owner0, pages0, owner, pages, dst) &&
             IsDirectory(owner0, src) && v < ENTRIES * ENTRIES
    ensures IsDirectory(owner, src) && Lookup(pages, src, v) == Lookup(pages0, src, v)
  {
    LookupKept(pool, pages0, pages, owner0, src, v);
  }

  /** The parent's page is there to be copied, unchanged. */
  lemma {:induction false} CopySource(pool: Pool, owner0: map<nat, Use>, pages0: seq<Page>, free0: seq<nat>,
                                      owner: map<nat, Use>, pages: seq<Page>,
                                      src: nat, dst: nat, a: nat, c: nat, v: nat)
    requires Owned(pool, pages0, free0, owner0) && Copied(owner0, pages0, owner, pages, src, dst, a, c)
    requires v < USER_PAGES && Lookup(pages0, src, v).Present()
    ensures IsDirectory(owner, dst) && Grew(owner0, pages0, owner, pages, dst) && |pages| == |pages0|
    ensures var o := Lookup(pages0, src, v);
            o.frame < |pages0| && pages[o.frame] == pages0[o.frame] &&
            pages0[o.frame].Data? && o.frame in owner
  {
    assert PageKnown(pages0, owner0, src, v);
    assert UsedAs(pages0, owner0, Lookup(pages0, src, v).frame);
  }

  lemma {:induction false} CopyNotMapped(pool: Pool, owner0: map<nat, Use>, pages0: seq<Page>, owner1: map<nat, Use>,
                                         pages1: seq<Page>,
                                         owner2: map<nat, Use>, pages2: seq<Page>, src: nat, dst: nat, a: nat, c: nat,
                                         v: nat, f: nat)
    requires Copied(owner0, pages0, owner1, pages1, src, dst, a, c) && v < USER_PAGES && !InCopy(a, c, v)
    requires TablesOk(pool, pages2, owner2) && owner2 == owner1[f := Held] && f !in owner1 && f < |pages1|
    requires |pages2| == |pages1| && pages2[f].Data? && pages2 == pages1[f := pages2[f]]
    ensures IsDirectory(owner2, dst) && HeldFrames(owner2, pages2, f, 1)
    ensures !Lookup(pages2, dst, v + 0).Present()
  {
    assert CopiedAt(owner0, pages0, pages1, src, dst, a, c, v);
    HeldLooks(pool, owner1, pages1, owner2, pages2, f, dst, v);
  }

  lemma {:induction false} MappedNone(owner0: map<nat, Use>, pages0: seq<Page>, owner: map<nat, Use>,
                                      pages: seq<Page>, d: nat, v: nat, f: nat, flags: nat)
    requires Mapping(owner0, pages0, owner, pages, d, v, f, flags, 0) && f in owner0 && owner0[f].Held?
    ensures f in owner && owner[f].Held?
  {
    assert KeptOrMapped(owner0, owner, d, v, f, 0, f);
  }

  lemma {:induction false} CopyFailed(owner0: map<nat, Use>, pages0: seq<Page>, owner1: map<nat, Use>,
                                      pages1: seq<Page>,
                                      owner3: map<nat, Use>, pages3: seq<Page>, src: nat, dst: nat, a: nat, c: nat,
                                      v: nat, f: nat, x: Page, flags: nat)
    requires Copied(owner0, pages0, owner1, pages1, src, dst, a, c) && f !in owner1 && f < |pages1|
    requires Mapping(owner1[f := Held], pages1[f := x], owner3, pages3, dst, v, f, flags, 0)
    ensures f < |pages3| == |pages0| && Grew(owner0, pages0, owner3 - {f}, pages3[f := JunkPage()], dst)
  {
    hide Lookup, EntryAt;
    var owner2 := owner1[f := Held];
    forall g | g in owner2
      ensures g in owner3 && owner3[g] == owner2[g]
    {
      assert KeptOrMapped(owner2, owner3, dst, v, f, 0, g);
    }
    forall g | g in owner0
      ensures g < |pages0| && g != f && pages3[g] == pages0[g]
    {
      assert !BelongsTo(owner0, g, dst);
    }
    forall g | g in owner3 - {f} && g !in owner0
      ensures BelongsTo(owner3 - {f}, g, dst)
    {
      assert g in owner1 ==> BelongsTo(owner1, g, dst);
    }
  }

  /** One more page copied. */
  lemma {:induction false} CopyDone(pool: Pool, owner0: map<nat, Use>, pages0: seq<Page>, owner1: map<nat, Use>,
                                    pages1: seq<Page>,
                                    owner: map<nat, Use>, pages: seq<Page>, src: nat, dst: nat, a: nat, c: nat,
                                    v: nat, f: nat)
    requires Copied(owner0, pages0, owner1, pages1, src, dst, a, c) && v < USER_PAGES && !InCopy(a, c, v)
    requires Lookup(pages0, src, v).Present() && Lookup(pages0, src, v).frame < |pages1| == |pages0| &&
             f !in owner1 && f < |pages1|
    requires pages1[Lookup(pages0, src, v).frame] == pages0[Lookup(pages0, src, v).frame]
    requires var x, flags := pages1[Lookup(pages0, src, v).frame], WithP(Lookup(pages0, src, v).flags);
             && TablesOk(pool, pages1[f := x], owner1[f := Held])
             && Mapping(owner1[f := Held], pages1[f := x], owner, pages, dst, v, f, flags, 1)
    ensures Grew(owner0, pages0, owner, pages, dst) && |pages| == |pages0|
    ensures v == a ==> Copied(owner0, pages0, owner, pages, src, dst, a + 1, c)
    ensures v == c ==> Copied(owner0, pages0, owner, pages, src, dst, a, c + 1)
  {
    hide TablesOk, Lookup, EntryAt, Mapping, Grew;
    var x, flags := pages1[Lookup(pages0, src, v).frame], WithP(Lookup(pages0, src, v).flags);
    CopyGrows(owner0, pages0, owner1, pages1, owner, pages, dst, v, f, x, flags);
    var a', c' := a + 1, c + 1;
    forall w: nat | w < USER_PAGES
      ensures v == a ==> CopiedAt(owner0, pages0, pages, src, dst, a', c, w)
      ensures v == c ==> CopiedAt(owner0, pages0, pages, src, dst, a, c', w)
    {
      CopyDoneAt(pool, owner0, pages0, owner1, pages1, owner, pages, src, dst, a, c, v, f, w);
    }
  }

  /** setupkvm's directory has no user pages. */
  lemma {:induction false} NothingCopied(owner0: map<nat, Use>, pages0: seq<Page>, owner: map<nat, Use>,
                                         pages: seq<Page>, src: nat, d: nat, data: nat)
    requires Grew(owner0, pages0, owner, pages, d) && IsDirectory(owner0, src) && EXT_PAGES < data < PHYS_PAGES
    requires forall w: nat :: w < ENTRIES * ENTRIES ==> Lookup(pages, d, w) == KernelEntry(data, 4, w)
    ensures Copied(owner0, pages0, owner, pages, src, d, 0, MMAP_PAGE)
  {
    hide Lookup, EntryAt, Grew, KernelEntry;
    forall w: nat | w < USER_PAGES
      ensures CopiedAt(owner0, pages0, pages, src, d, 0, MMAP_PAGE, w)
    {
      NoUserEntry(data, w);
    }
  }

  lemma {:induction false} NoUserEntry(data: nat, w: nat)
    requires EXT_PAGES < data < PHYS_PAGES && w < USER_PAGES
    ensures KernelEntry(data, 4, w) == EMPTY
  {
    KmapApart(data, 3, w);
  }

  lemma {:induction false} CopiedIs(owner0: map<nat, Use>, pages0: seq<Page>, owner: map<nat, Use>, pages: seq<Page>,
                                    src: nat, dst: nat, a: nat, c: nat)
    requires Copied(owner0, pages0, owner, pages, src, dst, a, c)
    ensures Grew(owner0, pages0, owner, pages, dst) && IsDirectory(owner0, src) && IsDirectory(owner, dst) &&
            c >= MMAP_PAGE
  {
  }

  lemma {:induction false} CopiedDirectory(owner0: map<nat, Use>, pages0: seq<Page>, owner: map<nat, Use>,
                                           pages: seq<Page>, d: nat)
    requires Grew(owner0, pages0, owner, pages, d)
    ensures IsDirectory(owner, d)
  {
  }

  lemma {:induction false} NoTable(pages: seq<Page>, d: nat, v: nat)
    requires !EntryAt(pages, d, v / ENTRIES).Present()
    ensures !Lookup(pages, d, v).Present()
  {
  }

  /** A page that is not there is copied by doing nothing. */
  lemma {:induction false} NotThere(owner0: map<nat, Use>, pages0: seq<Page>, owner: map<nat, Use>, pages: seq<Page>,
                                    src: nat, dst: nat, a: nat, c: nat)
    requires Copied(owner0, pages0, owner, pages, src, dst, a, c) && !Lookup(pages0, src, c).Present()
    ensures Copied(owner0, pages0, owner, pages, src, dst, a, c + 1)
  {
    hide Lookup, EntryAt, Grew;
    var c' := c + 1;
    forall w: nat | w < USER_PAGES
      ensures CopiedAt(owner0, pages0, pages, src, dst, a, c', w)
    {
      assert CopiedAt(owner0, pages0, pages, src, dst, a, c, w);
    }
  }

  /** Copying page `v` leaves the child's other pages and their bytes alone. */
  lemma {:induction false} ChildPage(pool: Pool, owner0: map<nat, Use>, pages0: seq<Page>, owner1: map<nat, Use>,
                                     pages1: seq<Page>,
                                     owner: map<nat, Use>, pages: seq<Page>, dst: nat, v: nat, f: nat, x: Page,
                                     flags: nat, w: nat)
    requires Grew(owner0, pages0, owner1, pages1, dst) && f !in owner1 && f < |pages1| && v < USER_PAGES &&
             w < USER_PAGES
    requires TablesOk(pool, pages1[f := x], owner1[f := Held])
    requires Mapping(owner1[f := Held], pages1[f := x], owner, pages, dst, v, f, flags, 1)
    ensures |pages| == |pages1| && f !in owner0
    ensures w == v ==> Lookup(pages, dst, w) == Entry(f, flags) && pages[f] == x
    ensures w != v ==> Lookup(pages, dst, w) == Lookup(pages1, dst, w)
    ensures w != v && Lookup(pages1, dst, w).Present() ==>
              Lookup(pages1, dst, w).frame < |pages1| &&
                pages[Lookup(pages1, dst, w).frame] == pages1[Lookup(pages1, dst, w).frame]
  {
    var owner2, pages2 := owner1[f := Held], pages1[f := x];
    assert MappedOrKept(pages2, pages, dst, v, f, flags, 1, dst, w);
    HeldLooks(pool, owner1, pages1, owner2, pages2, f, dst, w);
    assert PageKnown(pages2, owner2, dst, w);
  }

  lemma {:induction false} CopyDoneAt(pool: Pool, owner0: map<nat, Use>, pages0: seq<Page>, owner1: map<nat, Use>,
                                      pages1: seq<Page>,
                                      owner: map<nat, Use>, pages: seq<Page>, src: nat, dst: nat, a: nat, c: nat,
                                      v: nat, f: nat, w: nat)
    requires Copied(owner0, pages0, owner1, pages1, src, dst, a, c) && v < USER_PAGES && !InCopy(a, c, v) &&
             w < USER_PAGES
    requires Lookup(pages0, src, v).Present() && Lookup(pages0, src, v).frame < |pages1| == |pages0| &&
             f !in owner1 && f < |pages1|
    requires pages1[Lookup(pages0, src, v).frame] == pages0[Lookup(pages0, src, v).frame]
    requires var x, flags := pages1[Lookup(pages0, src, v).frame], WithP(Lookup(pages0, src, v).flags);
             && TablesOk(pool, pages1[f := x], owner1[f := Held])
             && Mapping(owner1[f := Held], pages1[f := x], owner, pages, dst, v, f, flags, 1)
    ensures v == a ==> CopiedAt(owner0, pages0, pages, src, dst, a + 1, c, w)
    ensures v == c ==> CopiedAt(owner0, pages0, pages, src, dst, a, c + 1, w)
  {
    hide TablesOk, Lookup, EntryAt, Mapping, Grew;
    var x, flags := pages1[Lookup(pages0, src, v).frame], WithP(Lookup(pages0, src, v).flags);
    assert CopiedAt(owner0, pages0, pages1, src, dst, a, c, w);
    CopyGrows(owner0, pages0, owner1, pages1, owner, pages, dst, v, f, x, flags);
    ChildPage(pool, owner0, pages0, owner1, pages1, owner, pages, dst, v, f, x, flags, w);
  }

  lemma {:induction false} CopyGrows(owner0: map<nat, Use>, pages0: seq<Page>, owner1: map<nat, Use>, pages1: seq<Page>,
                                     owner: map<nat, Use>, pages: seq<Page>, dst: nat, v: nat, f: nat, x: Page,
                                     flags: nat)
    requires Grew(owner0, pages0, owner1, pages1, dst) && f !in owner1 && f < |pages1| && v < USER_PAGES
    requires Mapping(owner1[f := Held], pages1[f := x], owner, pages, dst, v, f, flags, 1)
    ensures Grew(owner0, pages0, owner, pages, dst) && |pages| == |pages0|
  {
    hide Lookup, EntryAt;
    var owner2 := owner1[f := Held];
    forall g | g in owner2
      ensures g in owner && KeptOrMapped(owner2, owner, dst, v, f, 1, g)
    {
    }
    forall g | g in owner0
      ensures g < |pages0| && g != f && pages[g] == pages0[g]
    {
      assert !BelongsTo(owner0, g, dst);
    }
    forall g | g in owner && g !in owner0
      ensures BelongsTo(owner, g, dst)
    {
      assert g in owner1 ==> BelongsTo(owner1, g, dst);
      assert g in owner2 ==> KeptOrMapped(owner2, owner, dst, v, f, 1, g);
    }
  }

  /** The owners when the first `i` page tables of the abandoned directory `d` have been freed. */
  function TablesGone(owner1: map<nat, Use>, d: nat, i: nat): map<nat, Use> {
    map f | f in owner1 && !(owner1[f].TableOf? && owner1[f].dir == d && owner1[f].i < i) :: Abandoned(owner1, d)[f]
  }

  /** Unmapping a range leaves every other page of every directory as it was. */
  lemma {:induction false} UnmappedIs(owner0: map<nat, Use>, pages0: seq<Page>, pages: seq<Page>, d: nat, lo: nat,
                                      hi: nat)
    requires IsDirectory(owner0, d) && hi <= USER_PAGES && Unmapped(owner0, pages0, pages, d, lo, hi)
    ensures forall w: nat :: lo <= w < hi ==> !Lookup(pages, d, w).Present()
    ensures forall x: nat, w: nat :: IsDirectory(owner0, x) && w < ENTRIES * ENTRIES && !(x == d && lo <= w < hi) ==>
              Lookup(pages, x, w) == Lookup(pages0, x, w)
  {
    hide Lookup, EntryAt;
    forall w: nat | lo <= w < hi
      ensures !Lookup(pages, d, w).Present()
    {
      assert GoneOrKept(pages0, pages, d, lo, hi, d, w);
    }
    forall x: nat, w: nat | IsDirectory(owner0, x) && w < ENTRIES * ENTRIES && !(x == d && lo <= w < hi)
      ensures Lookup(pages, x, w) == Lookup(pages0, x, w)
    {
      assert GoneOrKept(pages0, pages, d, lo, hi, x, w);
    }
  }

  /** deallocuvm(pgdir, KERNBASE, 0) leaves no user page. */
  lemma {:induction false} NoneMapped(pool: Pool, owner0: map<nat, Use>, pages0: seq<Page>, owner: map<nat, Use>,
                                      pages: seq<Page>, free: seq<nat>, d: nat)
    requires IsDirectory(owner0, d) && Unmapped(owner0, pages0, pages, d, PageUp(0), PageUp(KERNBASE))
    requires owner == OwnersLeft(owner0, d, PageUp(0), PageUp(KERNBASE))
    ensures PageUp(0) == 0 && PageUp(KERNBASE) == USER_PAGES && IsDirectory(owner, d)
    ensures forall v: nat :: v < USER_PAGES ==> !Lookup(pages, d, v).Present()
    ensures forall g :: g in owner && !(owner[g].TableOf? && owner[g].dir == d) ==>
              g < |pages0| && g < |pages| &&
              pages[g] == pages0[g]
  {
    forall v: nat | v < USER_PAGES
      ensures !Lookup(pages, d, v).Present()
    {
      assert GoneOrKept(pages0, pages, d, 0, USER_PAGES, d, v);
    }
  }

  lemma {:induction false} AbandonedFree(pool: Pool, free: seq<nat>, owner: map<nat, Use>, d: nat)
    requires FreeListOk(pool, free, owner)
    ensures FreeListOk(pool, free, Abandoned(owner, d))
  {
  }

  lemma {:induction false} TablesLeft(pool: Pool, pages: seq<Page>, free: seq<nat>, owner: map<nat, Use>, d: nat)
    requires Owned(pool, pages, free, owner) && IsDirectory(owner, d)
    ensures d < |pages| && pages[d].Table? && TablesGone(owner, d, 0) == Abandoned(owner, d)
    ensures forall g :: g in owner ==> g < |pages|
  {
    assert forall g :: g in owner ==> UsedAs(pages, owner, g);
    assert UsedAs(pages, owner, d);
  }

  lemma {:induction false} TableHeld(pool: Pool, pages1: seq<Page>, owner1: map<nat, Use>, d: nat, i: nat)
    requires TablesOk(pool, pages1, owner1) && IsDirectory(owner1, d) && i < ENTRIES
    requires d < |pages1| && pages1[d].Table? && pages1[d].es[i].Present()
    ensures var t := pages1[d].es[i].frame;
            && t in TablesGone(owner1, d, i) && TablesGone(owner1, d, i)[t].Held? && t != d && owner1[t].TableOf?
            && TablesGone(owner1, d, i + 1) == TablesGone(owner1, d, i) - {t}
  {
    var t := EntryAt(pages1, d, i).frame;
    assert TableKnown(pages1, owner1, d, i);
    forall f | f in owner1 && owner1[f] == TableOf(d, i)
      ensures f == t
    {
      assert UsedAs(pages1, owner1, f);
    }
  }

  lemma {:induction false} TableMissing(pool: Pool, pages1: seq<Page>, owner1: map<nat, Use>, d: nat, i: nat)
    requires TablesOk(pool, pages1, owner1) && IsDirectory(owner1, d) && i < ENTRIES
    requires d < |pages1| && pages1[d].Table? && !pages1[d].es[i].Present()
    ensures TablesGone(owner1, d, i + 1) == TablesGone(owner1, d, i)
  {
    forall f | f in owner1
      ensures owner1[f] != TableOf(d, i)
    {
      assert UsedAs(pages1, owner1, f);
    }
  }

  lemma {:induction false} AllGone(pool: Pool, pages1: seq<Page>, owner1: map<nat, Use>, d: nat)
    requires TablesOk(pool, pages1, owner1) && IsDirectory(owner1, d)
    requires forall v: nat :: v < USER_PAGES ==> !Lookup(pages1, d, v).Present()
    ensures TablesGone(owner1, d, ENTRIES) - {d} == OwnersWithout(owner1, d)
  {
    forall f | f in owner1
      ensures owner1[f].TableOf? && owner1[f].dir == d ==> owner1[f].i < ENTRIES
      ensures !(owner1[f].UserPage? && owner1[f].dir == d)
    {
      assert UsedAs(pages1, owner1, f);
    }
  }

  lemma {:induction false} WithoutLeft(pool: Pool, pages: seq<Page>, owner: map<nat, Use>, d: nat)
    requires TablesOk(pool, pages, owner)
    ensures OwnersWithout(OwnersLeft(owner, d, 0, USER_PAGES), d) == OwnersWithout(owner, d)
  {
    forall f | f in owner
      ensures owner[f].UserPage? ==> owner[f].v < USER_PAGES
    {
      assert UsedAs(pages, owner, f);
    }
  }

  /** Pages `lo`, ..., `p - 1` of `d` have been mapped to fresh zeroed frames. */
  ghost predicate Allocating(owner0: map<nat, Use>, pages0: seq<Page>, owner: map<nat, Use>, pages: seq<Page>, d: nat,
                             lo: nat, p: nat) {
    && |pages| == |pages0|
    && (forall g :: g in owner0 ==> g in owner && owner[g] == owner0[g])
    && (forall g :: g in owner && g !in owner0 ==> NewFor(owner, d, lo, p, g))
    && (forall x: nat, w: nat :: IsDirectory(owner0, x) && w < ENTRIES * ENTRIES ==>
        FreshOrKept(owner0, pages0, pages, d, lo, p, x, w))
    && (forall g :: g in owner0 && g != d && !(owner0[g].TableOf? && owner0[g].dir == d) ==>
         g < |pages0| &&
         pages[g] == pages0[g])
  }

  ghost predicate NewFor(owner: map<nat, Use>, d: nat, lo: nat, p: nat, g: nat)
    requires g in owner
  {
    (owner[g].TableOf? && owner[g].dir == d) || (owner[g].UserPage? && owner[g].dir == d && lo <= owner[g].v < p)
  }

  ghost predicate FreshOrKept(owner0: map<nat, Use>, pages0: seq<Page>, pages: seq<Page>, d: nat, lo: nat, p: nat,
                              x: nat, w: nat) {
    var e := Lookup(pages, x, w);
    if x == d && lo <= w < p then e.flags == PTE_P + PTE_W + PTE_U && e.frame !in owner0 && e.frame < |pages| &&
       pages[e.frame] == ZeroPage()
    else e == Lookup(pages0, x, w)
  }

  /** The frame holds a page of zeros. */
  ghost predicate Zeroed(pages: seq<Page>, f: nat) {
    f < |pages| && pages[f].Data? && |pages[f].bytes| == 4096 && forall i :: 0 <= i < 4096 ==> pages[f].bytes[i] == 0
  }

  /** The new pages are zeroed, and the user may read and write them. */
  lemma {:induction false} AllocatedAccess(pool: Pool, owner0: map<nat, Use>, pages0: seq<Page>, owner: map<nat, Use>,
                                           pages: seq<Page>, d: nat, lo: nat, p: nat)
    requires TablesOk(pool, pages, owner) && IsDirectory(owner0, d) && p <= USER_PAGES
    requires Allocating(owner0, pages0, owner, pages, d, lo, p)
    ensures forall w: nat :: lo <= w < p ==>
              CanWrite(pages, d, w) && UserCanAccess(pages, d, w) && Zeroed(pages, Lookup(pages, d, w).frame)
  {
    hide TablesOk, Lookup, EntryAt, CanWrite, UserCanAccess;
    forall w: nat | lo <= w < p
      ensures CanWrite(pages, d, w) && UserCanAccess(pages, d, w) && Zeroed(pages, Lookup(pages, d, w).frame)
    {
      assert FreshOrKept(owner0, pages0, pages, d, lo, p, d, w);
      AccessIs(pool, pages, owner, d, w);
    }
  }

  /** Nothing but page tables of `d` is left of an attempt to map the pages from `lo` up to `hi`. */
  ghost predicate Released(owner0: map<nat, Use>, pages0: seq<Page>, owner: map<nat, Use>, pages: seq<Page>, d: nat,
                           lo: nat, hi: nat) {
    && |pages| == |pages0|
    && (forall g :: g in owner0 && !(owner0[g].UserPage? && owner0[g].dir == d && lo <= owner0[g].v < hi) ==>
        g in owner && owner[g] == owner0[g])
    && (forall g :: g in owner && g !in owner0 ==> owner[g].TableOf? && owner[g].dir == d)
    && (forall x: nat, w: nat :: IsDirectory(owner0, x) && w < ENTRIES * ENTRIES ==>
        GoneOrKept(pages0, pages, d, lo, hi, x, w))
    && (forall g :: g in OwnersLeft(owner0, d, lo, hi) && g != d && !(owner0[g].TableOf? && owner0[g].dir == d) ==>
          g < |pages0| && pages[g] == pages0[g])
  }

  /** None of the pages is mapped any more. */
  lemma {:induction false} ReleasedLooks(owner0: map<nat, Use>, pages0: seq<Page>, owner: map<nat, Use>,
                                         pages: seq<Page>, d: nat, lo: nat, hi: nat)
    requires Released(owner0, pages0, owner, pages, d, lo, hi) && IsDirectory(owner0, d) && hi <= USER_PAGES
    ensures forall w: nat :: lo <= w < hi ==> !Lookup(pages, d, w).Present()
  {
    hide Lookup, EntryAt;
    forall w: nat | lo <= w < hi
      ensures !Lookup(pages, d, w).Present()
    {
      assert GoneOrKept(pages0, pages, d, lo, hi, d, w);
    }
  }

  /** If the pages were not mapped before, all that a failed allocuvm keeps is page tables. */
  lemma {:induction false} ReleasedKeepsOwners(pool: Pool, owner0: map<nat, Use>, pages0: seq<Page>, free0: seq<nat>,
                                               owner: map<nat, Use>, pages: seq<Page>, free: seq<nat>, d: nat,
                                               lo: nat, hi: nat)
    requires Owned(pool, pages0, free0, owner0) && Owned(pool, pages, free, owner) &&
             Released(owner0, pages0, owner, pages, d, lo, hi)
    requires forall w: nat :: lo <= w < hi ==> !Lookup(pages0, d, w).Present()
    ensures forall f :: f in owner0 ==> f in owner && owner[f] == owner0[f]
    ensures forall f :: f in free0 && f !in free ==> f in owner && owner[f].TableOf? && owner[f].dir == d
  {
    forall f | f in owner0
      ensures f in owner && owner[f] == owner0[f]
    {
      assert UsedAs(pages0, owner0, f);
    }
  }

  lemma {:induction false} AllocatingNothing(pool: Pool, owner: map<nat, Use>, pages: seq<Page>, free: seq<nat>,
                                             d: nat, lo: nat)
    requires Owned(pool, pages, free, owner)
    ensures Allocating(owner, pages, owner, pages, d, lo, lo)
  {
    assert forall g :: g in owner ==> UsedAs(pages, owner, g);
  }

  lemma {:induction false} KallocKeeps(owner: map<nat, Use>, f: nat, d: nat)
    requires f !in owner && IsDirectory(owner, d)
    ensures IsDirectory(owner[f := Held], d)
  {
  }

  lemma {:induction false} MappedNothing(owner0: map<nat, Use>, pages0: seq<Page>, owner: map<nat, Use>,
                                         pages: seq<Page>, d: nat, v: nat, f: nat)
    requires Mapping(owner0, pages0, owner, pages, d, v, f, 7, 0) && f in owner0 && owner0[f].Held? &&
             IsDirectory(owner0, d)
    ensures f in owner && owner[f].Held? && IsDirectory(owner, d)
  {
    assert KeptOrMapped(owner0, owner, d, v, f, 0, f) && KeptOrMapped(owner0, owner, d, v, f, 0, d);
  }

  lemma {:induction false} StillDirectory(owner0: map<nat, Use>, pages0: seq<Page>, owner: map<nat, Use>,
                                          pages: seq<Page>, d: nat, v: nat, f: nat)
    requires Mapping(owner0, pages0, owner, pages, d, v, f, 7, 1) && IsDirectory(owner0, d)
    ensures IsDirectory(owner, d)
  {
    assert KeptOrMapped(owner0, owner, d, v, f, 1, d);
  }

  /** A page beyond the mapped ones is mapped if it was before. */
  lemma {:induction false} AllocatingLooks(owner0: map<nat, Use>, pages0: seq<Page>, owner1: map<nat, Use>,
                                           pages1: seq<Page>,
                                           owner2: map<nat, Use>, pages2: seq<Page>, f: nat, d: nat, lo: nat, p: nat,
                                           pool: Pool, free0: seq<nat>)
    requires Allocating(owner0, pages0, owner1, pages1, d, lo, p) && IsDirectory(owner0, d) && p < ENTRIES * ENTRIES
    requires TablesOk(pool, pages2, owner2) && IsDirectory(owner2, d)
    requires f < |pages1| && pages2 == pages1[f := ZeroPage()] && owner2 == owner1[f := Held] && f !in owner1
    ensures Lookup(pages2, d, p) == Lookup(pages0, d, p)
  {
    assert FreshOrKept(owner0, pages0, pages1, d, lo, p, d, p);
    HeldLooks(pool, owner1, pages1, owner2, pages2, f, d, p);
  }

  /** Looking a page up does not depend on what a held frame contains. */
  lemma {:induction false} HeldLooks(pool: Pool, owner1: map<nat, Use>, pages1: seq<Page>, owner2: map<nat, Use>,
                                     pages2: seq<Page>, f: nat, x: nat, w: nat)
    requires TablesOk(pool, pages2, owner2) && owner2 == owner1[f := Held] && f !in owner1 && f < |pages1| == |pages2|
    requires IsDirectory(owner1, x) && w < ENTRIES * ENTRIES && forall g :: 0 <= g < |pages1| && g != f ==>
               pages2[g] == pages1[g]
    ensures Lookup(pages2, x, w) == Lookup(pages1, x, w)
  {
    forall g | g in owner2
      ensures g < |pages2|
    {
      assert UsedAs(pages2, owner2, g);
    }
    LookupKept(pool, pages2, pages1, owner2, x, w);
  }

  lemma {:induction false} AllocatingStep(pool: Pool, owner0: map<nat, Use>, pages0: seq<Page>, owner1: map<nat, Use>,
                                          pages1: seq<Page>,
                                          owner: map<nat, Use>, pages: seq<Page>, f: nat, d: nat, lo: nat, p: nat)
    requires Allocating(owner0, pages0, owner1, pages1, d, lo, p) && IsDirectory(owner0, d) && lo <= p < USER_PAGES
    requires f !in owner1 && f < |pages1| && TablesOk(pool, pages1[f := ZeroPage()], owner1[f := Held])
    requires Mapping(owner1[f := Held], pages1[f := ZeroPage()], owner, pages, d, p, f, 7, 1)
    ensures Allocating(owner0, pages0, owner, pages, d, lo, p + 1)
  {
    var owner2, pages2, q := owner1[f := Held], pages1[f := ZeroPage()], p + 1;
    forall x: nat, w: nat | IsDirectory(owner0, x) && w < ENTRIES * ENTRIES
      ensures FreshOrKept(owner0, pages0, pages, d, lo, q, x, w)
    {
      AllocatingLook(pool, owner0, pages0, owner1, pages1, owner, pages, f, d, lo, p, x, w);
    }
    hide Lookup, EntryAt, TablesOk;
    forall g | g in owner0
      ensures g in owner && owner[g] == owner0[g]
    {
      assert KeptOrMapped(owner2, owner, d, p, f, 1, g);
    }
    forall g | g in owner && g !in owner0
      ensures NewFor(owner, d, lo, q, g)
    {
      if g in owner2 {
        assert KeptOrMapped(owner2, owner, d, p, f, 1, g);
        assert g != f ==> NewFor(owner1, d, lo, p, g);
      }
    }
  }

  lemma {:induction false} AllocatingLook(pool: Pool, owner0: map<nat, Use>, pages0: seq<Page>, owner1: map<nat, Use>,
                                          pages1: seq<Page>,
                                          owner: map<nat, Use>, pages: seq<Page>, f: nat, d: nat, lo: nat, p: nat,
                                          x: nat, w: nat)
    requires Allocating(owner0, pages0, owner1, pages1, d, lo, p) && IsDirectory(owner0, d) && lo <= p < USER_PAGES
    requires f !in owner1 && f < |pages1| && TablesOk(pool, pages1[f := ZeroPage()], owner1[f := Held])
    requires Mapping(owner1[f := Held], pages1[f := ZeroPage()], owner, pages, d, p, f, 7, 1)
    requires IsDirectory(owner0, x) && w < ENTRIES * ENTRIES
    ensures FreshOrKept(owner0, pages0, pages, d, lo, p + 1, x, w)
  {
    var owner2, pages2 := owner1[f := Held], pages1[f := ZeroPage()];
    assert FreshOrKept(owner0, pages0, pages1, d, lo, p, x, w) && MappedOrKept(pages2, pages, d, p, f, 7, 1, x, w);
    HeldLooks(pool, owner1, pages1, owner2, pages2, f, x, w);
    if x == d && lo <= w < p {
      var e := Lookup(pages1, d, w);
      assert PageKnown(pages2, owner2, d, w);
      assert KeptOrMapped(owner2, owner, d, p, f, 1, e.frame);
    }
  }

  /** deallocuvm undoes what allocuvm has done. */
  lemma {:induction false} AllocatingReleased(owner0: map<nat, Use>, pages0: seq<Page>, owner1: map<nat, Use>,
                                              pages1: seq<Page>,
                                              owner: map<nat, Use>, pages: seq<Page>, d: nat, lo: nat, p: nat, hi: nat)
    requires Allocating(owner0, pages0, owner1, pages1, d, lo, p) && IsDirectory(owner0, d) && p <= hi
    requires owner == OwnersLeft(owner1, d, lo, hi) && Unmapped(owner1, pages1, pages, d, lo, hi) && |pages| == |pages1|
    ensures Released(owner0, pages0, owner, pages, d, lo, hi)
  {
    hide Lookup, EntryAt;
    forall x: nat, w: nat | IsDirectory(owner0, x) && w < ENTRIES * ENTRIES
      ensures GoneOrKept(pages0, pages, d, lo, hi, x, w)
    {
      assert FreshOrKept(owner0, pages0, pages1, d, lo, p, x, w) && GoneOrKept(pages1, pages, d, lo, hi, x, w);
    }
    forall g | g in owner && g !in owner0
      ensures owner[g].TableOf? && owner[g].dir == d
    {
      assert NewFor(owner1, d, lo, p, g);
    }
    forall g | g in OwnersLeft(owner0, d, lo, hi) && g != d && !(owner0[g].TableOf? && owner0[g].dir == d)
      ensures g < |pages0| && pages[g] == pages0[g]
    {
      assert g in OwnersLeft(owner1, d, lo, hi);
    }
  }

  /** Without memory for the next page table, the data page just taken goes back as well. */
  lemma {:induction false} AllocatingStuck(pool: Pool, owner0: map<nat, Use>, pages0: seq<Page>,
                                           owner1: map<nat, Use>, pages1: seq<Page>,
                                           owner3: map<nat, Use>, pages3: seq<Page>, owner4: map<nat, Use>,
                                           pages4: seq<Page>, free4: seq<nat>,
                                           f: nat, d: nat, lo: nat, p: nat, hi: nat)
    requires Allocating(owner0, pages0, owner1, pages1, d, lo, p) && IsDirectory(owner0, d) && lo <= p <= hi &&
             p < USER_PAGES
    requires f !in owner1 && f < |pages1| && TablesOk(pool, pages1[f := ZeroPage()], owner1[f := Held])
    requires Mapping(owner1[f := Held], pages1[f := ZeroPage()], owner3, pages3, d, p, f, 7, 0)
    requires owner4 == OwnersLeft(owner3, d, lo, hi) && Unmapped(owner3, pages3, pages4, d, lo, hi) &&
             |pages4| == |pages3|
    requires Owned(pool, pages4, free4, owner4) && f in owner4 && owner4[f].Held?
    ensures Released(owner0, pages0, owner4 - {f}, pages4[f := JunkPage()], d, lo, hi)
  {
    hide Owned, TablesOk, Lookup, EntryAt, Mapping, Unmapped;
    MappingNothing(pool, owner0, pages0, owner1, pages1, owner3, pages3, f, d, lo, p);
    UnmappedLess(owner3, pages3, pages4, d, lo, hi, f);
    assert OwnersLeft(owner3 - {f}, d, lo, hi) == owner4 - {f};
    AllocatingReleased(owner0, pages0, owner3 - {f}, pages3, owner4 - {f}, pages4, d, lo, p, hi);
    ReleasedJunk(pool, owner0, pages0, owner4, pages4, free4, d, lo, hi, f);
  }

  lemma {:induction false} MappingNothing(pool: Pool, owner0: map<nat, Use>, pages0: seq<Page>, owner1: map<nat, Use>,
                                          pages1: seq<Page>,
                                          owner3: map<nat, Use>, pages3: seq<Page>, f: nat, d: nat, lo: nat, p: nat)
    requires Allocating(owner0, pages0, owner1, pages1, d, lo, p) && IsDirectory(owner0, d) && lo <= p < USER_PAGES
    requires f !in owner1 && f < |pages1| && TablesOk(pool, pages1[f := ZeroPage()], owner1[f := Held])
    requires Mapping(owner1[f := Held], pages1[f := ZeroPage()], owner3, pages3, d, p, f, 7, 0)
    ensures Allocating(owner0, pages0, owner3 - {f}, pages3, d, lo, p) && f !in owner0
  {
    hide Lookup, EntryAt, TablesOk, FreshOrKept;
    var owner2 := owner1[f := Held];
    forall x: nat, w: nat | IsDirectory(owner0, x) && w < ENTRIES * ENTRIES
      ensures FreshOrKept(owner0, pages0, pages3, d, lo, p, x, w)
    {
      MappingNothingLook(pool, owner0, pages0, owner1, pages1, owner3, pages3, f, d, lo, p, x, w);
    }
    forall g | g in owner2
      ensures g in owner3 && owner3[g] == owner2[g]
    {
      assert KeptOrMapped(owner2, owner3, d, p, f, 0, g);
    }
    forall g | g in owner3 - {f} && g !in owner0
      ensures NewFor(owner3 - {f}, d, lo, p, g)
    {
      assert g in owner1 ==> NewFor(owner1, d, lo, p, g);
    }
  }

  lemma {:induction false} MappingNothingLook(pool: Pool, owner0: map<nat, Use>, pages0: seq<Page>,
                                              owner1: map<nat, Use>, pages1: seq<Page>, owner3: map<nat, Use>,
                                              pages3: seq<Page>, f: nat, d: nat, lo: nat, p: nat, x: nat, w: nat)
    requires Allocating(owner0, pages0, owner1, pages1, d, lo, p) && IsDirectory(owner0, d) && lo <= p < USER_PAGES
    requires f !in owner1 && f < |pages1| && TablesOk(pool, pages1[f := ZeroPage()], owner1[f := Held])
    requires Mapping(owner1[f := Held], pages1[f := ZeroPage()], owner3, pages3, d, p, f, 7, 0)
    requires IsDirectory(owner0, x) && w < ENTRIES * ENTRIES
    ensures FreshOrKept(owner0, pages0, pages3, d, lo, p, x, w)
  {
    hide EntryAt;
    var owner2, pages2 := owner1[f := Held], pages1[f := ZeroPage()];
    assert FreshOrKept(owner0, pages0, pages1, d, lo, p, x, w) && MappedOrKept(pages2, pages3, d, p, f, 7, 0, x, w);
    HeldLooks(pool, owner1, pages1, owner2, pages2, f, x, w);
    if x == d && lo <= w < p {
      assert PageKnown(pages2, owner2, d, w);
      assert KeptOrMapped(owner2, owner3, d, p, f, 0, Lookup(pages1, d, w).frame);
    }
  }

  /** Unmapping pages has nothing to do with a held frame. */
  lemma {:induction false} UnmappedLess(owner: map<nat, Use>, pages: seq<Page>, pages': seq<Page>, d: nat, lo: nat,
                                        hi: nat, f: nat)
    requires Unmapped(owner, pages, pages', d, lo, hi)
    ensures Unmapped(owner - {f}, pages, pages', d, lo, hi)
  {
    hide Lookup, EntryAt;
    assert forall x: nat :: IsDirectory(owner - {f}, x) ==> IsDirectory(owner, x);
    forall g | g in OwnersLeft(owner - {f}, d, lo, hi) && !(owner[g].TableOf? && owner[g].dir == d)
      ensures g < |pages| && g < |pages'| && pages'[g] == pages[g]
    {
      assert g in OwnersLeft(owner, d, lo, hi);
    }
  }

  /** What is left does not depend on the contents of the frame that goes back to the pool. */
  lemma {:induction false} ReleasedJunk(pool: Pool, owner0: map<nat, Use>, pages0: seq<Page>, owner: map<nat, Use>,
                                        pages: seq<Page>, free: seq<nat>,
                                        d: nat, lo: nat, hi: nat, f: nat)
    requires Released(owner0, pages0, owner - {f}, pages, d, lo, hi) && f !in owner0 && f in owner && owner[f].Held?
    requires Owned(pool, pages, free, owner) && f < |pages|
    ensures Released(owner0, pages0, owner - {f}, pages[f := JunkPage()], d, lo, hi)
  {
    var pages' := pages[f := JunkPage()];
    assert owner == (owner - {f})[f := Held];
    forall x: nat, w: nat | IsDirectory(owner0, x) && w < ENTRIES * ENTRIES
      ensures GoneOrKept(pages0, pages', d, lo, hi, x, w)
    {
      assert GoneOrKept(pages0, pages, d, lo, hi, x, w);
      HeldLooks(pool, owner - {f}, pages', owner, pages, f, x, w);
    }
  }

  /** The frame of a mapped user page may be freed, and is not the page table. */
  lemma {:induction false} UnmapReady(pool: Pool, pages: seq<Page>, free: seq<nat>, owner: map<nat, Use>, d: nat,
                                      v: nat)
    requires Owned(pool, pages, free, owner) && IsDirectory(owner, d) && v < USER_PAGES && Lookup(pages, d, v).Present()
    ensures var t, f := EntryAt(pages, d, v / ENTRIES).frame, Lookup(pages, d, v).frame;
            && pool.Has(f) && f != t && t < |pages| && pages[t].Table? && pool.hi <= |pages| &&
               f == pages[t].es[v % ENTRIES].frame
  {
    RemoveUser(pool, pages, owner, d, v);
  }

  lemma {:induction false} UnmapMissing(m: Mem, d: nat, v: nat)
    ensures !Lookup(m.pages, d, v).Present() ==> UnmapPage(m, d, v) == m
  {
  }

  ghost predicate HeldData(owner: map<nat, Use>, pages: seq<Page>, f: nat) {
    f in owner && owner[f].Held? && f < |pages| && pages[f].Data?
  }

  /** `n` frames from `pf` on that are held and hold data. */
  ghost predicate HeldFrames(owner: map<nat, Use>, pages: seq<Page>, pf: nat, n: nat) {
    forall f: nat :: pf <= f < pf + n ==> HeldData(owner, pages, f)
  }

  /** What Mapping says about the next page to be mapped. */
  lemma {:induction false} StillMapping(owner0: map<nat, Use>, pages0: seq<Page>, owner: map<nat, Use>,
                                        pages: seq<Page>,
                                        d: nat, v: nat, pf: nat, flags: nat, k: nat, n: nat)
    requires Mapping(owner0, pages0, owner, pages, d, v, pf, flags, k) && k < n && IsDirectory(owner0, d)
    requires v + n <= (if v < USER_PAGES then USER_PAGES else ENTRIES * ENTRIES)
    requires v < USER_PAGES ==> HeldFrames(owner0, pages0, pf, n)
    ensures |pages| == |pages0| && IsDirectory(owner, d) && Lookup(pages, d, v + k) == Lookup(pages0, d, v + k)
    ensures v < USER_PAGES ==> HeldData(owner0, pages0, pf + k) && HeldData(owner, pages, pf + k)
  {
    assert MappedOrKept(pages0, pages, d, v, pf, flags, k, d, v + k) && KeptOrMapped(owner0, owner, d, v, pf, k, d);
    assert v < USER_PAGES ==> HeldData(owner0, pages0, pf + k) && KeptOrMapped(owner0, owner, d, v, pf, k, pf + k);
  }

  lemma {:induction false} MappedFree(pool: Pool, free: seq<nat>, owner: map<nat, Use>, d: nat, w: nat, f: nat)
    requires FreeListOk(pool, free, owner) && (w < USER_PAGES ==> f in owner)
    ensures FreeListOk(pool, free, OwnersMapped(owner, d, w, f))
  {
    assert OwnersMapped(owner, d, w, f).Keys == owner.Keys;
  }
}
