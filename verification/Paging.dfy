/** The physical page allocator (kernel/kalloc.c) and the virtual memory operations
    (kernel/vm.c) over it. */
module Paging {
  import opened Wrappers
  import opened PageTables
  import opened PageSteps

  class Machine {
    var mem: Mem
    var freelist: nat       // kmem.freelist as a page number, 0 for null
    const lo: nat           // first page after the kernel (end)
    ghost var free: seq<nat>

    ghost predicate Valid()
      reads this
    {
      Shape(mem) && 0 < lo <= NPAGES && Chain(mem, freelist, free, lo)
    }

    ghost function Free(): set<nat>
      reads this
    {
      Set(free)
    }

    /** The address space d of a process is in good order. */
    ghost predicate Running(d: nat)
      reads this
    {
      Valid() && Space(mem, Free(), d, lo) && UserTable(mem, d)
    }

    /** kinit: every page from the end of the kernel to PHYSTOP is freed once. */
    constructor (end: nat, m: Mem)
      requires 0 < end <= NPAGES && Shape(m)
      ensures Valid() && lo == end && |free| == NPAGES - end
      ensures forall p :: p in Free() <==> end <= p < NPAGES
      ensures forall i :: 0 <= i < |free| ==> free[i] == NPAGES - 1 - i
      ensures forall p :: 0 <= p < end ==> mem[p] == m[p]
    {
      lo := end;
      mem := m;
      freelist := 0;
      free := [];
      new;
      Seed(end, m);
    }

    /** Pages lo..p are free. */
    ghost predicate Seeded(m: Mem, p: nat)
      reads this
    {
      && Valid() && Shape(m) && lo <= p <= NPAGES && |free| == p - lo && (forall i :: 0 <= i < |free| ==> free[i] == p - 1 - i)
      && (forall q :: q in free <==> lo <= q < p)
      && (forall q :: 0 <= q < lo ==> mem[q] == m[q])
    }

    method Seed(end: nat, ghost m: Mem)
      requires Seeded(m, end)
      modifies this`mem, this`freelist, this`free
      ensures Seeded(m, NPAGES)
    {
      var p := end;
      assert end <= NPAGES;
      hide Shape, Chain;
      while p < NPAGES
        invariant p <= NPAGES && Seeded(m, p)
      {
        SeedOne(p, m);
        p := p + 1;
      }
    }

    method SeedOne(p: nat, ghost m: Mem)
      requires Seeded(m, p) && p < NPAGES
      modifies this`mem, this`freelist, this`free
      ensures Seeded(m, p + 1)
    {
      hide Chain;
      Kfree(p);
    }

    /** kalloc: the page at the head of the free list, or 0. */
    method Kalloc() returns (p: nat)
      requires Valid()
      modifies this`freelist, this`free
      ensures Valid() && (p == 0 <==> old(free) == [])
      ensures p == 0 ==> free == old(free)
      ensures p != 0 ==> lo <= p < NPAGES && p in old(free) && free == old(free)[1..] && p !in free
      ensures Free() == old(Free()) - {p}
    {
      p := freelist;
      if p != 0 {
        freelist := PageOf(mem[p][0]);
        ChainPop(mem, p, free, lo);
        free := free[1..];
      }
    }

    /** kfree: fill the page with junk and push it. */
    method Kfree(p: nat)
      requires Valid() && lo <= p < NPAGES && p !in free
      modifies this`mem, this`freelist, this`free
      ensures Valid() && free == [p] + old(free) && Free() == old(Free()) + {p}
      ensures mem == old(mem)[p := JunkPage(old(freelist))] && freelist == p
      ensures mem[p][0] == 4096 * old(freelist) && forall i :: 0 < i < 1024 ==> mem[p][i] == 0x01010101
    {
      ghost var m0, f0 := mem, free;
      mem := mem[p := JunkPage(freelist)];
      freelist := p;
      free := [p] + free;
      ChainPush(m0, mem, f0, p, lo);
    }

    /** walkpgdir: the table page that holds the entry of virtual page vp. */
    method Walk(d: nat, vp: nat, create: bool) returns (t: Option<nat>)
      requires Valid() && TablesOk(mem, Free(), d, lo) && vp < VPAGES
      modifies this
      ensures Valid() && TablesOk(mem, Free(), d, lo) && Grew(old(mem), old(Free()), mem, Free(), d)
      ensures SamePtes(old(mem), mem, d)
      ensures t.Some? ==> HasTable(mem, d, vp / ENTRIES) && TableOf(mem, d, vp / ENTRIES) == t.value
      ensures HasTable(old(mem), d, vp / ENTRIES) || !create ==> mem == old(mem) && free == old(free) && freelist == old(freelist)
      ensures t.None? <==> !HasTable(old(mem), d, vp / ENTRIES) && (!create || old(free) == [])
      ensures t.None? ==> mem == old(mem) && free == old(free)
      ensures t.Some? && !HasTable(old(mem), d, vp / ENTRIES) ==>
        && old(free) != [] && old(free)[0] == t.value != d && free == old(free)[1..]
        && mem == old(mem)[t.value := Zeros()][d := old(mem)[d][vp / ENTRIES := 4096 * t.value + 7]]
      ensures Paid(old(mem), |old(free)|, mem, |free|, d, vp / ENTRIES, vp / ENTRIES)
    {
      GrewRefl(mem, Free(), d);
      PaidSame(mem, mem, |free|, d, vp / ENTRIES, vp / ENTRIES);
      var i := vp / ENTRIES;
      if Present(mem[d][i]) {
        return Some(PageOf(mem[d][i]));
      }
      if !create {
        return None;
      }
      ghost var m0, f0 := mem, Free();
      var p := Kalloc();
      if p == 0 {
        return None;
      }
      NewTableOk(m0, f0, freelist, free, d, lo, i, p);
      PaidTable(m0, d, i, p, |free| + 1);
      hide Shape, Chain, TablesOk, Grew, SamePtes, SetWord, Entry, Paid;
      mem := mem[p := Zeros()];
      mem := SetWord(mem, d, i, Entry(p, PTE_P + PTE_W + PTE_U));
      return Some(p);
    }

    /** One turn of mappages. */
    method MapOne(d: nat, a: nat, page: nat, perm: nat, ghost m0: Mem, ghost f0: set<nat>, ghost first: nat, ghost page0: nat)
      returns (r: MapResult)
      requires Valid() && TablesOk(mem, Free(), d, lo) && perm < PGSIZE - 1 && first <= a < VPAGES && page == page0 + (a - first)
      requires Shape(m0) && Grew(m0, f0, mem, Free(), d) && Mapped(m0, mem, d, first, a, page0, perm)
      modifies this
      ensures Valid() && TablesOk(mem, Free(), d, lo) && Grew(m0, f0, mem, Free(), d)
      ensures r.MapDone? ==> Mapped(m0, mem, d, first, a + 1, page0, perm) && !Present(Pte(m0, d, a))
      ensures r.NoMemory? ==> free == [] && a / ENTRIES !in TableSet(mem, d)
      ensures r.Remap? ==> Present(Pte(m0, d, a))
      ensures Paid(old(mem), |old(free)|, mem, |free|, d, a / ENTRIES, a / ENTRIES)
      ensures HasTable(old(mem), d, a / ENTRIES) ==> !r.NoMemory? && free == old(free)
    {
      assert d < NPAGES;
      hide Shape, Chain, TablesOk, IsTable, Grew, HasTable, TableOf, Mapped, SamePtes, Pte, SetWord, Updated, Present, PageOf, Entry, Paid;
      ghost var m1, f1, n1 := mem, Free(), |free|;
      var t := Walk(d, a, true);
      GrewTrans(m0, f0, m1, f1, mem, Free(), d);
      if t.None? {
        NoTable(mem, d, a / ENTRIES);
        return NoMemory;
      }
      PteWord(m0, m1, mem, Free(), d, lo, first, a, page0, perm, t.value);
      if Present(mem[t.value][a % ENTRIES]) {
        return Remap;
      }
      ghost var m2, n2 := mem, |free|;
      PutEntry(d, a, page, perm, m0, m1, f0, first, page0, t.value);
      PaidSame(m2, mem, n2, d, a / ENTRIES, a / ENTRIES);
      PaidTrans(m1, n1, m2, n2, mem, |free|, d, a / ENTRIES, a / ENTRIES, a / ENTRIES);
      return MapDone;
    }

    /** The table entry gets the page and its flags. */
    method PutEntry(d: nat, a: nat, page: nat, perm: nat, ghost m0: Mem, ghost m1: Mem, ghost f0: set<nat>,
                    ghost first: nat, ghost page0: nat, t: nat)
      requires Valid() && TablesOk(mem, Free(), d, lo) && perm < PGSIZE - 1 && first <= a < VPAGES && page == page0 + (a - first)
      requires Shape(m0) && Shape(m1) && Grew(m0, f0, mem, Free(), d)
      requires Mapped(m0, m1, d, first, a, page0, perm) && SamePtes(m1, mem, d)
      requires HasTable(mem, d, a / ENTRIES) && TableOf(mem, d, a / ENTRIES) == t
      modifies this`mem
      ensures Valid() && TablesOk(mem, Free(), d, lo) && Grew(m0, f0, mem, Free(), d)
      ensures Mapped(m0, mem, d, first, a + 1, page0, perm) && mem[d] == old(mem)[d]
    {
      PutEntryOk(m0, m1, mem, f0, freelist, free, d, lo, first, a, page0, perm, t);
      hide Shape, Chain, TablesOk, Grew, Mapped, SetWord;
      mem := SetWord(mem, t, a % ENTRIES, Entry(page, perm + PTE_P));
    }

    /** Pages first..a were given back. */
    ghost predicate Dropping(d: nat, m0: Mem, f0: set<nat>, first: nat, a: nat)
      reads this
    {
      && Valid() && Space(mem, Free(), d, lo) && Shape(m0) && first <= a <= USERPAGES
      && Released(m0, f0, mem, Free(), d, first, a)
    }

    /** One turn of deallocuvm: free the page behind vp and clear its entry. */
    method DropPage(d: nat, vp: nat, ghost m0: Mem, ghost f0: set<nat>, ghost first: nat)
      requires Dropping(d, m0, f0, first, vp) && vp < USERPAGES
      modifies this
      ensures Dropping(d, m0, f0, first, vp + 1)
    {
      assert d < NPAGES;
      var t := Walk(d, vp, false);
      if t.None? {
        ReleasedSkip(m0, f0, mem, Free(), d, first, vp);
        return;
      }
      EntryWord(mem, Free(), d, lo, vp, t.value);
      if !Present(mem[t.value][vp % ENTRIES]) {
        ReleasedSkip(m0, f0, mem, Free(), d, first, vp);
        return;
      }
      hide Shape, Chain, Space, Released, Pte, Set;
      Release(d, vp, t.value, m0, f0, first);
    }

    /** The page behind vp is freed, then its entry cleared. */
    method Release(d: nat, vp: nat, t: nat, ghost m0: Mem, ghost f0: set<nat>, ghost first: nat)
      requires Dropping(d, m0, f0, first, vp) && vp < USERPAGES
      requires Present(Pte(mem, d, vp)) && TableOf(mem, d, vp / ENTRIES) == t && HasTable(mem, d, vp / ENTRIES)
      modifies this
      ensures Dropping(d, m0, f0, first, vp + 1)
    {
      hide Chain, TablesOk, UserOk, Space, Released, IsTable, Pte, SetWord;
      ReleaseOk(mem, freelist, free, m0, f0, d, lo, first, vp, t);
      var p := PageOf(mem[t][vp % ENTRIES]);
      ghost var m1, h1 := mem, freelist;
      Kfree(p);
      mem := SetWord(mem, t, vp % ENTRIES, 0);
    }

    /** deallocuvm: frees and unmaps the user pages from newsz up to oldsz. */
    method Deallocuvm(d: nat, oldsz: nat, newsz: nat) returns (r: nat)
      requires Valid() && Space(mem, Free(), d, lo) && oldsz <= USERPAGES * PGSIZE
      modifies this
      ensures Valid() && Space(mem, Free(), d, lo)
      ensures r == if newsz >= oldsz then oldsz else newsz
      ensures newsz >= oldsz ==> mem == old(mem) && free == old(free)
      ensures newsz < oldsz ==> Released(old(mem), old(Free()), mem, Free(), d, RoundUp(newsz), RoundUp(oldsz))
    {
      if newsz >= oldsz {
        return oldsz;
      }
      BelowUser(newsz, oldsz);
      ReleasedNone(mem, Free(), d, RoundUp(newsz));
      hide Shape, Chain, Space, Released, Set, RoundUp;
      DropFrom(d, oldsz, RoundUp(newsz), mem, Free());
      return newsz;
    }

    method DropFrom(d: nat, oldsz: nat, first: nat, ghost m0: Mem, ghost f0: set<nat>)
      requires Dropping(d, m0, f0, first, first) && first <= RoundUp(oldsz) <= USERPAGES
      modifies this
      ensures Dropping(d, m0, f0, first, RoundUp(oldsz))
    {
      hide *;
      var a := first;
      while Address(a) < oldsz
        invariant first <= a <= RoundUp(oldsz) && Dropping(d, m0, f0, first, a)
        decreases RoundUp(oldsz) - a
      {
        BelowTop(a, oldsz);
        DropPage(d, a, m0, f0, first);
        a := a + 1;
      }
      BelowTop(a, oldsz);
    }

    /** One turn of allocuvm: a zeroed page mapped at virtual page a. */
    method AllocOne(d: nat, a: nat, ghost m0: Mem, ghost f0: set<nat>, ghost n: nat, ghost first: nat) returns (ok: bool)
      requires Granting(d, m0, f0, n, first, a) && a < USERPAGES && !Present(Pte(m0, d, a))
      modifies this
      ensures if ok then Granting(d, m0, f0, n, first, a + 1) else Granting(d, m0, f0, n, first, a) && free == []
    {
      assert d < NPAGES;
      hide Shape, Chain, TablesOk, Space, Allocated, Grew, Mapped, TablesFor, Unmapped, Pte, UserTable, Present, Set;
      ghost var m1, f1 := mem, Free();
      var p := Kalloc();
      if p == 0 {
        return false;
      }
      StillVacant(m0, f0, mem, f1, d, first, a);
      FillPageOk(mem, freelist, free, f1, d, lo, a, p, Zeros());
      MapZeroed(d, a, p, m0, f0, f1, first);
      return true;
    }

    /** memset(mem, 0, PGSIZE), then mappages of one page. */
    method MapZeroed(d: nat, a: nat, p: nat, ghost m0: Mem, ghost f0: set<nat>, ghost f1: set<nat>, ghost first: nat)
      requires Valid() && Space(mem, f1, d, lo) && UserTable(mem, d) && first <= a < USERPAGES
      requires p in f1 && lo <= p < NPAGES && Free() == f1 - {p}
      requires Shape(m0) && Allocated(m0, f0, mem, f1, d, first, a)
      requires Mappable(mem, freelist, free, d, lo, a, p, Zeros())
      modifies this
      ensures Running(d) && free == old(free)
      ensures Allocated(m0, f0, mem, Free(), d, first, a + 1)
    {
      assert p < |mem|;
      hide Shape, Chain, TablesOk, Allocated, Grew, Mapped, Pte, UserTable, Set, UserOk, Mappable;
      ghost var m1 := mem;
      MapPage(d, a, p, Zeros());
      AllocStep(m0, f0, m1, f1, m1[p := Zeros()], mem, Free(), d, lo, first, a, p);
    }

    /** Fill page p with the given words and map it, user-writable, at virtual page a. */
    method MapPage(d: nat, a: nat, p: nat, page: seq<nat>)
      requires Valid() && p < NPAGES && a < USERPAGES && |page| == ENTRIES && Mappable(mem, freelist, free, d, lo, a, p, page)
      modifies this
      ensures Valid() && TablesOk(mem, Free(), d, lo) && free == old(free) && Shape(old(mem)[p := page])
      ensures Grew(old(mem)[p := page], Free(), mem, Free(), d)
      ensures Mapped(old(mem)[p := page], mem, d, a, a + 1, p, PTE_W + PTE_U)
    {
      mem := mem[p := page];
      assert d < NPAGES;
      hide Shape, Chain, TablesOk, Grew, Mapped, TablesFor, Unmapped, Set;
      assert (a * PGSIZE + PGSIZE - 1) / PGSIZE == a && a * PGSIZE / PGSIZE == a && PageOf(p * PGSIZE) == p;
      var _ := Mappages(d, a * PGSIZE, PGSIZE, p * PGSIZE, PTE_W + PTE_U);
    }

    /** allocuvm: new zeroed pages behind oldsz..newsz, or everything as it was. */
    method Allocuvm(d: nat, oldsz: nat, newsz: nat) returns (r: nat)
      requires Running(d)
      requires newsz <= USERTOP ==> Vacant(mem, d, RoundUp(oldsz), RoundUp(newsz))
      modifies this
      ensures Running(d)
      ensures newsz > USERTOP ==> r == 0 && mem == old(mem) && free == old(free)
      ensures newsz < oldsz && newsz <= USERTOP ==> r == oldsz && mem == old(mem) && free == old(free)
      ensures oldsz <= newsz <= USERTOP ==>
        var need := RoundUp(newsz) - RoundUp(oldsz);
        if need <= |old(free)|
        then r == newsz && |free| == |old(free)| - need
          && Allocated(old(mem), old(Free()), mem, Free(), d, RoundUp(oldsz), RoundUp(newsz))
        else r == 0 && Restored(old(mem), old(Free()), mem, Free(), d)
    {
      if newsz > USERTOP {
        return 0;
      }
      if newsz < oldsz {
        return oldsz;
      }
      hide Shape, Chain, Space, Allocated, Restored, Vacant, UserTable, Set, RoundUp;
      r := AllocRange(d, oldsz, newsz);
    }

    /** The loop of allocuvm and its way out. */
    method AllocRange(d: nat, oldsz: nat, newsz: nat) returns (r: nat)
      requires Running(d) && oldsz <= newsz <= USERTOP && Vacant(mem, d, RoundUp(oldsz), RoundUp(newsz))
      modifies this
      ensures Running(d)
      ensures RoundUp(newsz) - RoundUp(oldsz) <= |old(free)| ==>
        && r == newsz && |free| == |old(free)| - (RoundUp(newsz) - RoundUp(oldsz))
        && Allocated(old(mem), old(Free()), mem, Free(), d, RoundUp(oldsz), RoundUp(newsz))
      ensures RoundUp(newsz) - RoundUp(oldsz) > |old(free)| ==> r == 0 && Restored(old(mem), old(Free()), mem, Free(), d)
    {
      hide Shape, Chain, Space, Allocated, Restored, Vacant, UserTable, Set, RoundUp;
      ghost var m0, f0 := mem, Free();
      var ok, mid := AllocPages(d, oldsz, newsz);
      if ok {
        return newsz;
      }
      Rollback(d, newsz, oldsz, m0, f0, mid);
      return 0;
    }

    /** Pages first..a are mapped; n is what the free list held before. */
    ghost predicate Granting(d: nat, m0: Mem, f0: set<nat>, n: nat, first: nat, a: nat)
      reads this
    {
      && Running(d) && Shape(m0) && first <= a <= USERPAGES && |free| == n - (a - first)
      && Allocated(m0, f0, mem, Free(), d, first, a)
    }

    method AllocPages(d: nat, oldsz: nat, newsz: nat) returns (ok: bool, ghost mid: nat)
      requires Running(d) && oldsz <= newsz <= USERTOP && Vacant(mem, d, RoundUp(oldsz), RoundUp(newsz))
      modifies this
      ensures RoundUp(oldsz) <= mid <= RoundUp(newsz)
      ensures Granting(d, old(mem), old(Free()), |old(free)|, RoundUp(oldsz), mid)
      ensures if ok then mid == RoundUp(newsz) else mid < RoundUp(newsz) && free == []
    {
      BelowUser(oldsz, newsz);
      AllocatedNone(mem, Free(), d, RoundUp(oldsz));
      hide Shape, Chain, Space, Allocated, Vacant, UserTable, Set, RoundUp;
      ok, mid := AllocFrom(d, RoundUp(oldsz), newsz, mem, Free(), |free|);
    }

    method AllocFrom(d: nat, first: nat, newsz: nat, ghost m0: Mem, ghost f0: set<nat>, ghost n: nat) returns (ok: bool, ghost mid: nat)
      requires Granting(d, m0, f0, n, first, first)
      requires first <= RoundUp(newsz) <= USERPAGES && Vacant(m0, d, first, RoundUp(newsz))
      modifies this
      ensures first <= mid <= RoundUp(newsz) && Granting(d, m0, f0, n, first, mid)
      ensures if ok then mid == RoundUp(newsz) else mid < RoundUp(newsz) && free == []
    {
      assert Shape(m0) && d < NPAGES;
      hide *;
      var a := first;
      while Address(a) < newsz
        invariant first <= a <= RoundUp(newsz) && Granting(d, m0, f0, n, first, a)
        decreases RoundUp(newsz) - a
      {
        BelowTop(a, newsz);
        VacantAt(m0, d, first, RoundUp(newsz), a);
        ok := AllocOne(d, a, m0, f0, n, first);
        if !ok {
          return false, a;
        }
        a := a + 1;
      }
      BelowTop(a, newsz);
      return true, a;
    }

    /** deallocuvm(pgdir, newsz, oldsz) after the pages up to mid were mapped. */
    method Rollback(d: nat, newsz: nat, oldsz: nat, ghost m0: Mem, ghost f0: set<nat>, ghost mid: nat)
      requires Running(d) && oldsz <= newsz <= USERTOP
      requires RoundUp(oldsz) <= mid <= RoundUp(newsz) && Shape(m0) && Vacant(m0, d, RoundUp(oldsz), RoundUp(newsz))
      requires Allocated(m0, f0, mem, Free(), d, RoundUp(oldsz), mid)
      modifies this
      ensures Running(d) && Restored(m0, f0, mem, Free(), d)
    {
      assert d < NPAGES;
      ghost var m1, f1 := mem, Free();
      hide Shape, Chain, Space, Allocated, Released, Restored, Vacant, Pte, UserTable, Set, Present;
      var _ := Deallocuvm(d, newsz, oldsz);
      if newsz == oldsz {
        ReleasedNone(m1, f1, d, mid);
      }
      DeallocUndoes(m0, f0, m1, f1, mem, Free(), d, RoundUp(oldsz), mid, RoundUp(newsz));
    }

    /** Growing a process and shrinking it again. */
    method AllocThenDealloc(d: nat, oldsz: nat, newsz: nat)
      requires Running(d) && oldsz <= newsz <= USERTOP
      requires Vacant(mem, d, RoundUp(oldsz), RoundUp(newsz))
      modifies this
      ensures Running(d)
      ensures Restored(old(mem), old(Free()), mem, Free(), d)
    {
      assert d < NPAGES;
      hide Shape, Chain, Space, Allocated, Released, Restored, Vacant, Pte, UserTable, Set, RoundUp;
      ghost var m0, f0 := mem, Free();
      var r := AllocRange(d, oldsz, newsz);
      if r == newsz {
        Rollback(d, newsz, oldsz, m0, f0, RoundUp(newsz));
      }
    }

    /** mappages over the pages that hold la .. la+size-1: -1 is NoMemory, the panic Remap. */
    method Mappages(d: nat, la: nat, size: nat, pa: nat, perm: nat) returns (r: MapResult)
      requires Valid() && TablesOk(mem, Free(), d, lo) && perm < PGSIZE - 1
      requires 0 < size && la + size <= VPAGES * PGSIZE && pa % PGSIZE == 0
      modifies this
      ensures Valid() && TablesOk(mem, Free(), d, lo) && Grew(old(mem), old(Free()), mem, Free(), d)
      ensures r.MapDone? ==> Mapped(old(mem), mem, d, la / PGSIZE, (la + size - 1) / PGSIZE + 1, PageOf(pa), perm)
      ensures r.NoMemory? ==> free == [] && Lacks(mem, d, la / PGSIZE / ENTRIES, (la + size - 1) / PGSIZE / ENTRIES)
      ensures Paid(old(mem), |old(free)|, mem, |free|, d, la / PGSIZE / ENTRIES, (la + size - 1) / PGSIZE / ENTRIES)
      ensures r.MapDone? ==> Unmapped(old(mem), d, la / PGSIZE, (la + size - 1) / PGSIZE)
      ensures r.Remap? ==> !Unmapped(old(mem), d, la / PGSIZE, (la + size - 1) / PGSIZE)
      ensures TablesFor(old(mem), d, la / PGSIZE, (la + size - 1) / PGSIZE) ==> !r.NoMemory? && free == old(free)
    {
      assert d < NPAGES;
      hide Shape, Chain, TablesOk, Pte, IsTable, Grew, Mapped, HasTable, TableOf, TablesFor, Unmapped, Paid, TableSet;
      ghost var m0, f0, l0 := mem, Free(), free;
      var a := la / PGSIZE;
      var last := (la + size - 1) / PGSIZE;
      var page := PageOf(pa);
      GrewRefl(mem, f0, d);
      MappedNone(mem, d, a, page, perm);
      ghost var first := a;
      ghost var i0, i1 := first / ENTRIES, last / ENTRIES;
      PaidSame(mem, mem, |free|, d, i0, i1);
      while true
        invariant first <= a <= last && page == PageOf(pa) + (a - first)
        invariant Valid() && TablesOk(mem, Free(), d, lo) && Grew(m0, f0, mem, Free(), d)
        invariant Mapped(m0, mem, d, first, a, PageOf(pa), perm)
        invariant a == first || Unmapped(m0, d, first, a - 1)
        invariant TablesFor(m0, d, first, last) ==> free == l0
        invariant Paid(m0, |l0|, mem, |free|, d, i0, i1)
        decreases last - a
      {
        if TablesFor(m0, d, first, last) {
          HasTableKept(m0, f0, mem, Free(), d, lo, first, last, a);
        }
        ghost var m1, n1 := mem, |free|;
        r := MapOne(d, a, page, perm, m0, f0, first, PageOf(pa));
        Between(first, a, last);
        PaidTrans(m0, |l0|, m1, n1, mem, |free|, d, i0, i1, a / ENTRIES);
        UnmappedStep(m0, d, first, a, last);
        if !r.MapDone? {
          return;
        }
        if a == last {
          break;
        }
        a := a + 1;
        page := page + 1;
      }
    }

    /** The kernel part of d is being built: rows 0..k of kmap are in place, out of n free pages. */
    ghost predicate Building(d: nat, data: nat, k: nat, m0: Mem, f0: set<nat>, n: nat)
      reads this
    {
      && Valid() && TablesOk(mem, Free(), d, lo) && Shape(m0) && 256 < data < NPAGES && k <= KMAPS
      && Kernel(mem, d, data, k) && Built(m0, f0, mem, Free(), d) && Tally(mem, d, |free|, n)
    }

    /** setupkvm gave up: the pages it took are lost. */
    ghost predicate Partial(d: nat, m0: Mem, f0: set<nat>)
      reads this
    {
      Valid() && d < NPAGES && Shape(m0) && Built(m0, f0, mem, Free(), d)
    }

    /** setupkvm: a directory with the kernel's own mappings and no user pages. It needs exactly
        KERNELPAGES pages; with fewer it uses up the free list and gives nothing back. */
    method Setupkvm(data: nat) returns (d: nat)
      requires Valid() && 256 < data < NPAGES
      modifies this
      ensures Valid() && Free() <= old(Free())
      ensures d != 0 <==> |old(free)| >= KERNELPAGES
      ensures |free| == if d != 0 then |old(free)| - KERNELPAGES else 0
      ensures forall q :: 0 <= q < NPAGES && q !in old(Free()) ==> mem[q] == old(mem)[q]
      ensures d != 0 ==> Running(d) && Kernel(mem, d, data, KMAPS) && Built(old(mem), old(Free()), mem, Free(), d)
    {
      ghost var m0, f0, n := mem, Free(), |free|;
      d := Kalloc();
      if d == 0 {
        return;
      }
      NewDirectory(m0, f0, freelist, free, d, lo, data);
      mem := mem[d := Zeros()];
      TallyNone(mem, d, |free|);
      hide Shape, Chain, TablesOk, Kernel, Built, Set, Tally;
      var ok := MapKernel(d, data, m0, f0, n);
      BuiltKeeps(m0, f0, mem, Free(), d);
      if !ok {
        return 0;
      }
      TallyAll(mem, d, data, |free|, n);
      KernelSpace(mem, Free(), d, lo, data);
    }

    method MapKernel(d: nat, data: nat, ghost m0: Mem, ghost f0: set<nat>, ghost n: nat) returns (ok: bool)
      requires Building(d, data, 0, m0, f0, n)
      modifies this
      ensures if ok then Building(d, data, KMAPS, m0, f0, n) else Partial(d, m0, f0) && free == [] && n < KERNELPAGES
    {
      hide Shape, Chain, TablesOk, Kernel, Built, Set, Tally;
      var k := 0;
      while k < KMAPS
        invariant 0 <= k <= KMAPS && Building(d, data, k, m0, f0, n)
        decreases KMAPS - k
      {
        ok := MapRow(d, data, k, m0, f0, n);
        if !ok {
          return;
        }
        k := k + 1;
      }
      ok := true;
    }

    method MapRow(d: nat, data: nat, k: nat, ghost m0: Mem, ghost f0: set<nat>, ghost n: nat) returns (ok: bool)
      requires Building(d, data, k, m0, f0, n) && k < KMAPS
      modifies this
      ensures if ok then Building(d, data, k + 1, m0, f0, n) else Partial(d, m0, f0) && free == [] && n < KERNELPAGES
    {
      assert d < NPAGES;
      ghost var m1, f1, n1 := mem, Free(), |free|;
      var row := Kmap(data, k);
      RowFree(mem, d, data, k);
      RowBytes(data, k);
      hide Shape, Chain, TablesOk, Kernel, Built, Set, Grew, Mapped, Unmapped, Pte, Kmap, Tally, Paid, Lacks;
      var r := Mappages(d, Address(row.lo), Address(row.hi) - Address(row.lo), Address(row.lo), row.perm);
      RowMapped(m0, f0, m1, f1, mem, Free(), d, data, k);
      TallyRow(m1, n1, mem, |free|, d, data, k, n);
      return r.MapDone?;
    }

    /** The tables behind entries 0..i of d were freed. */
    ghost predicate Clearing(d: nat, m1: Mem, f1: set<nat>, i: nat)
      reads this
    {
      Valid() && Shape(m1) && TablesOk(m1, f1, d, lo) && i <= ENTRIES && Cleared(m1, f1, mem, Free(), d, i)
    }

    /** freevm: every page of the space is freed, once. */
    method Freevm(d: nat)
      requires Valid() && Space(mem, Free(), d, lo)
      modifies this
      ensures Valid() && Gone(old(mem), old(Free()), mem, Free(), d)
    {
      assert d < NPAGES;
      assert RoundUp(0) == 0 && RoundUp(USERTOP) == USERPAGES;
      ghost var m0, f0 := mem, Free();
      hide Shape, Chain, TablesOk, UserOk, Released, Cleared, Gone, Set, RoundUp;
      var _ := Deallocuvm(d, USERTOP, 0);
      ghost var m1, f1 := mem, Free();
      ClearedNone(m1, f1, d);
      FreeTables(d, m1, f1);
      ClearedAll(m0, f0, m1, f1, mem, Free(), d, lo);
      FreeDirectory(d, m0, f0);
    }

    method FreeTables(d: nat, ghost m1: Mem, ghost f1: set<nat>)
      requires Clearing(d, m1, f1, 0)
      modifies this
      ensures Clearing(d, m1, f1, ENTRIES)
    {
      hide Shape, Chain, TablesOk, Cleared, Set;
      var i := 0;
      while i < ENTRIES
        invariant 0 <= i <= ENTRIES && Clearing(d, m1, f1, i)
      {
        FreeTable(d, i, m1, f1);
        i := i + 1;
      }
    }

    method FreeTable(d: nat, i: nat, ghost m1: Mem, ghost f1: set<nat>)
      requires Clearing(d, m1, f1, i) && i < ENTRIES
      modifies this
      ensures Clearing(d, m1, f1, i + 1)
    {
      assert d < NPAGES;
      ClearedStep(m1, f1, mem, Free(), d, lo, i);
      hide Chain, TablesOk, Cleared;
      if Present(mem[d][i]) {
        Kfree(PageOf(mem[d][i]));
      }
    }

    /** kfree((char*)pgdir). */
    method FreeDirectory(d: nat, ghost m0: Mem, ghost f0: set<nat>)
      requires Valid() && lo <= d < NPAGES && d !in free && Shape(m0)
      requires forall page | |page| == ENTRIES :: Shape(mem[d := page]) && Gone(m0, f0, mem[d := page], Free() + {d}, d)
      modifies this
      ensures Valid() && Gone(m0, f0, mem, Free(), d)
    {
      hide Chain, Gone;
      Kfree(d);
    }

    /** Pages below i are in the child c; the parent d is as it was. */
    ghost predicate Copying(d: nat, c: nat, data: nat, i: nat, m0: Mem, f0: set<nat>)
      reads this
    {
      && Running(c) && Running(d) && Shape(m0) && Space(m0, f0, d, lo) && UserTable(m0, d) && 256 < data < NPAGES && i <= USERPAGES
      && Copied(m0, f0, mem, Free(), d, c, data, i)
    }

    /** copyuvm: a child with the parent's contents on pages of its own, given enough free pages.
        When the kernel part could be built, a failure gives every page back. */
    method Copyuvm(d: nat, sz: nat, data: nat) returns (c: nat)
      requires Running(d) && sz <= USERTOP && 256 < data < NPAGES && Populated(mem, d, RoundUp(sz))
      modifies this
      ensures c != 0 <==> |old(free)| >= KERNELPAGES + RoundUp(sz)
      ensures c != 0 ==> Copying(d, c, data, RoundUp(sz), old(mem), old(Free()))
      ensures c == 0 ==> Running(d) && Back(old(mem), old(Free()), mem, Free(), |old(free)| >= KERNELPAGES)
      ensures |old(free)| < KERNELPAGES ==> free == []
    {
      assert d < NPAGES;
      BelowUser(sz, sz);
      ghost var m0, f0 := mem, Free();
      hide Shape, Chain, Space, Kernel, Built, Copied, Gone, UserTable, Set, RoundUp, Populated;
      c := Setupkvm(data);
      ParentKept(m0, f0, mem, Free(), d, lo);
      if c == 0 {
        return;
      }
      CopiedNone(m0, f0, mem, Free(), d, c, lo, data);
      var ok := CopyPages(d, c, sz, data, m0, f0);
      if !ok {
        FreeChild(d, c, data, m0, f0);
        return 0;
      }
    }

    /** The loop of copyuvm. */
    method CopyPages(d: nat, c: nat, sz: nat, data: nat, ghost m0: Mem, ghost f0: set<nat>) returns (ok: bool)
      requires Copying(d, c, data, 0, m0, f0) && RoundUp(sz) <= USERPAGES && Populated(m0, d, RoundUp(sz))
      modifies this
      ensures if ok then Copying(d, c, data, RoundUp(sz), m0, f0) else exists i :: Copying(d, c, data, i, m0, f0)
      ensures ok <==> RoundUp(sz) <= |old(free)|
    {
      hide *;
      var i := 0;
      while Address(i) < sz
        invariant 0 <= i <= RoundUp(sz) && Copying(d, c, data, i, m0, f0) && |free| == |old(free)| - i
        decreases RoundUp(sz) - i
      {
        BelowTop(i, sz);
        ok := CopyOne(d, c, data, i, m0, f0, RoundUp(sz));
        if !ok {
          return;
        }
        i := i + 1;
      }
      BelowTop(i, sz);
      ok := true;
    }

    /** One turn: a page with the parent's words, mapped into the child. */
    method CopyOne(d: nat, c: nat, data: nat, i: nat, ghost m0: Mem, ghost f0: set<nat>, ghost hi: nat) returns (ok: bool)
      requires Copying(d, c, data, i, m0, f0) && i < hi <= USERPAGES && Populated(m0, d, hi)
      modifies this
      ensures if ok then Copying(d, c, data, i + 1, m0, f0) else Copying(d, c, data, i, m0, f0)
      ensures if ok then |free| == |old(free)| - 1 else old(free) == []
    {
      assert d < NPAGES && c < NPAGES;
      ParentWord(m0, f0, mem, Free(), d, c, lo, data, i, hi);
      hide Shape, Chain, TablesOk, UserOk, Copied, UserTable, Set, Pte;
      var page := Fetch(d, i);
      ghost var m1, f1 := mem, Free();
      var p := Kalloc();
      if p == 0 {
        return false;
      }
      FillPageOk(mem, freelist, free, f1, c, lo, i, p, page);
      MapPage(c, i, p, page);
      CopyStep(m0, f0, m1, f1, mem, Free(), d, c, lo, data, i, p, page);
      return true;
    }

    /** The words of the page behind user page i. */
    method Fetch(d: nat, i: nat) returns (page: seq<nat>)
      requires Valid() && TablesOk(mem, Free(), d, lo) && UserTable(mem, d) && i < USERPAGES && PageOf(Pte(mem, d, i)) < NPAGES
      modifies this
      ensures mem == old(mem) && free == old(free) && freelist == old(freelist)
      ensures Shape(mem) && page == mem[PageOf(Pte(mem, d, i))] && |page| == ENTRIES
    {
      var t := Walk(d, i, false);
      EntryWord(mem, Free(), d, lo, i, t.value);
      page := mem[PageOf(mem[t.value][i % ENTRIES])];
    }

    /** freevm(d) on the way out. */
    method FreeChild(d: nat, c: nat, data: nat, ghost m0: Mem, ghost f0: set<nat>)
      requires exists i :: Copying(d, c, data, i, m0, f0)
      modifies this
      ensures Running(d) && Shape(m0) && Back(m0, f0, mem, Free(), true)
    {
      ghost var i :| Copying(d, c, data, i, m0, f0);
      assert d < NPAGES && c < NPAGES;
      hide Shape, Chain, Space, Copied, UserTable, Set, Gone, Back;
      ghost var m1, f1 := mem, Free();
      Freevm(c);
      ChildGone(m0, f0, m1, f1, mem, Free(), d, c, data, i);
      ParentKept(m0, f0, mem, Free(), d, lo);
    }

    /** A copy that is thrown away leaves no trace, if and only if its kernel part could be
        built or there was nothing to lose. */
    method CopyThenFree(d: nat, sz: nat, data: nat)
      requires Running(d) && sz <= USERTOP && 256 < data < NPAGES && Populated(mem, d, RoundUp(sz))
      modifies this
      ensures Running(d) && Back(old(mem), old(Free()), mem, Free(), |old(free)| >= KERNELPAGES)
      ensures Free() == old(Free()) <==> old(free) == [] || |old(free)| >= KERNELPAGES
    {
      ghost var m0, f0, l0 := mem, Free(), free;
      var c := Copyuvm(d, sz, data);
      if c != 0 {
        FreeChild(d, c, data, m0, f0);
      } else if |l0| < KERNELPAGES {
        assert l0 != [] ==> l0[0] in f0;
      }
    }
  }

  /** With five free pages setupkvm takes them all, fails, and keeps them. */
  method SetupkvmLosesPages(m: Mem) returns (k: Machine, d: nat)
    requires Shape(m)
    ensures fresh(k) && d == 0 && k.free == []
  {
    k := new Machine(NPAGES - 5, m);
    assert |k.free| == 5;
    d := k.Setupkvm(300);
  }
}
