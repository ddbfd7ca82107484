/** Physical pages, page-table words and two-level tables (kernel/mmu.h, kernel/vm.c,
    kernel/kalloc.c), on values. Addresses below 2^32 are split into page number and offset. */
module PageTables {

  const PGSIZE := 4096
  const NPAGES := 4096      // PHYSTOP / PGSIZE
  const ENTRIES := 1024     // entries of a directory or a table, words of a page
  const USERPAGES := 160    // USERTOP / PGSIZE
  const VPAGES := 1048576   // pages of the 32-bit address space
  const JUNK := 0x01010101  // a word of memset(v, 1, PGSIZE)

  const PTE_P := 1
  const PTE_W := 2
  const PTE_U := 4

  /** Physical memory: the words of every page below PHYSTOP. */
  type Mem = seq<seq<nat>>

  ghost predicate Shape(m: Mem) {
    |m| == NPAGES && forall p :: 0 <= p < NPAGES ==> |m[p]| == ENTRIES
  }

  /** A page-table word: page number, with flags in the low bits. */
  function Entry(page: nat, flags: nat): (w: nat)
    requires flags < PGSIZE
    ensures PageOf(w) == page && w % PGSIZE == flags
  {
    page * PGSIZE + flags
  }

  function PageOf(w: nat): nat { w / PGSIZE }

  predicate Present(w: nat) { w % 2 == 1 }

  function Zeros(): (z: seq<nat>)
    ensures |z| == ENTRIES && forall i :: 0 <= i < ENTRIES ==> z[i] == 0
  {
    seq(ENTRIES, _ => 0)
  }

  // ----- a two-level table -----

  /** Directory entry i names a table page. */
  predicate HasTable(m: Mem, d: nat, i: nat)
    requires d < |m| && i < |m[d]|
  {
    Present(m[d][i])
  }

  function TableOf(m: Mem, d: nat, i: nat): nat
    requires d < |m| && i < |m[d]|
  {
    PageOf(m[d][i])
  }

  /** The table word for virtual page vp; 0 when its table does not exist. This is the partial
      map that directory and tables implement. */
  ghost function Pte(m: Mem, d: nat, vp: nat): nat
    requires Shape(m) && d < NPAGES && vp < VPAGES
  {
    if HasTable(m, d, vp / ENTRIES) && TableOf(m, d, vp / ENTRIES) < NPAGES
    then m[TableOf(m, d, vp / ENTRIES)][vp % ENTRIES] else 0
  }

  /** Page p is the directory or one of the tables of d. */
  ghost predicate IsTable(m: Mem, d: nat, p: nat)
    requires Shape(m) && d < NPAGES
  {
    p == d || exists i :: 0 <= i < ENTRIES && HasTable(m, d, i) && TableOf(m, d, i) == p
  }

  /** Page p backs a user page of d. */
  ghost predicate IsUser(m: Mem, d: nat, p: nat)
    requires Shape(m) && d < NPAGES
  {
    exists vp :: 0 <= vp < USERPAGES && Present(Pte(m, d, vp)) && PageOf(Pte(m, d, vp)) == p
  }

  ghost predicate Owned(m: Mem, d: nat, p: nat)
    requires Shape(m) && d < NPAGES
  {
    IsTable(m, d, p) || IsUser(m, d, p)
  }

  /** Directory and tables are distinct pages of the pool, none of them free; every entry of the
      directory gives full rights, which the entries of the tables restrict. */
  ghost predicate TablesOk(m: Mem, free: set<nat>, d: nat, lo: nat)
    requires Shape(m)
  {
    && lo <= d < NPAGES && d !in free
    && (forall i :: 0 <= i < ENTRIES && HasTable(m, d, i) ==>
          lo <= TableOf(m, d, i) < NPAGES && TableOf(m, d, i) !in free && TableOf(m, d, i) != d)
    && (forall i :: 0 <= i < ENTRIES && HasTable(m, d, i) ==> m[d][i] % 4096 == 7)
    && (forall i, j :: 0 <= i < j < ENTRIES && HasTable(m, d, i) && HasTable(m, d, j) ==> TableOf(m, d, i) != TableOf(m, d, j))
  }

  /** User pages are distinct pages of the pool, not free and not tables. */
  ghost predicate UserOk(m: Mem, free: set<nat>, d: nat, lo: nat)
    requires Shape(m) && d < NPAGES
  {
    && (forall vp :: 0 <= vp < USERPAGES && Present(Pte(m, d, vp)) ==>
          lo <= PageOf(Pte(m, d, vp)) < NPAGES && PageOf(Pte(m, d, vp)) !in free && !IsTable(m, d, PageOf(Pte(m, d, vp))))
    && (forall vp, vq :: 0 <= vp < vq < USERPAGES && Present(Pte(m, d, vp)) && Present(Pte(m, d, vq)) ==>
          PageOf(Pte(m, d, vp)) != PageOf(Pte(m, d, vq)))
  }

  /** An address space in good order. */
  ghost predicate Space(m: Mem, free: set<nat>, d: nat, lo: nat)
    requires Shape(m)
  {
    TablesOk(m, free, d, lo) && UserOk(m, free, d, lo)
  }

  /** The two memories agree on page p. */
  ghost predicate Same(a: Mem, b: Mem, p: nat)
    requires Shape(a) && Shape(b)
  {
    p < NPAGES ==> a[p] == b[p]
  }

  /** TablesOk looks at the directory page only. */
  lemma DirSame(a: Mem, b: Mem, free: set<nat>, d: nat, lo: nat)
    requires Shape(a) && Shape(b) && TablesOk(a, free, d, lo) && b[d] == a[d]
    ensures TablesOk(b, free, d, lo)
  {
    forall i | 0 <= i < ENTRIES ensures HasTable(b, d, i) == HasTable(a, d, i) && TableOf(b, d, i) == TableOf(a, d, i) {
    }
  }

  /** A memory that agrees on all of a space's tables has the same space. */
  lemma SameTables(a: Mem, b: Mem, free: set<nat>, d: nat, lo: nat)
    requires Shape(a) && Shape(b) && TablesOk(a, free, d, lo)
    requires forall p :: 0 <= p < NPAGES && IsTable(a, d, p) ==> Same(a, b, p)
    ensures forall vp :: 0 <= vp < VPAGES ==> Pte(b, d, vp) == Pte(a, d, vp)
    ensures forall p :: IsTable(b, d, p) <==> IsTable(a, d, p)
    ensures TablesOk(b, free, d, lo)
  {
    assert IsTable(a, d, d);
    assert Same(a, b, d);
    DirSame(a, b, free, d, lo);
    forall vp | 0 <= vp < VPAGES ensures Pte(b, d, vp) == Pte(a, d, vp) {
      var i := vp / ENTRIES;
      if HasTable(a, d, i) {
        assert IsTable(a, d, TableOf(a, d, i));
      }
    }
    forall p ensures IsTable(b, d, p) <==> IsTable(a, d, p) {
      SameIsTable(a, b, d, p);
    }
  }

  lemma SameIsTable(a: Mem, b: Mem, d: nat, p: nat)
    requires Shape(a) && Shape(b) && d < NPAGES && a[d] == b[d]
    ensures IsTable(b, d, p) <==> IsTable(a, d, p)
  {
    if i :| 0 <= i < ENTRIES && HasTable(a, d, i) && TableOf(a, d, i) == p {
      assert HasTable(b, d, i) && TableOf(b, d, i) == p;
    }
    if i :| 0 <= i < ENTRIES && HasTable(b, d, i) && TableOf(b, d, i) == p {
      assert HasTable(a, d, i) && TableOf(a, d, i) == p;
    }
  }

  lemma SameUser(a: Mem, b: Mem, free: set<nat>, d: nat, lo: nat)
    requires Shape(a) && Shape(b) && d < NPAGES && UserOk(a, free, d, lo)
    requires forall vp :: 0 <= vp < USERPAGES ==> Pte(b, d, vp) == Pte(a, d, vp)
    requires forall p :: IsTable(b, d, p) <==> IsTable(a, d, p)
    ensures UserOk(b, free, d, lo)
    ensures forall p :: IsUser(b, d, p) <==> IsUser(a, d, p)
  {
    hide IsTable, Shape;
    forall p ensures IsUser(b, d, p) <==> IsUser(a, d, p) {
      if vp :| 0 <= vp < USERPAGES && Present(Pte(a, d, vp)) && PageOf(Pte(a, d, vp)) == p {
        assert Present(Pte(b, d, vp)) && PageOf(Pte(b, d, vp)) == p;
      }
      if vp :| 0 <= vp < USERPAGES && Present(Pte(b, d, vp)) && PageOf(Pte(b, d, vp)) == p {
        assert Present(Pte(a, d, vp)) && PageOf(Pte(a, d, vp)) == p;
      }
    }
  }

  /** Memory that agrees on the tables of d, with the free set moved away from what d owns. */
  lemma SpaceKept(a: Mem, b: Mem, free: set<nat>, free': set<nat>, d: nat, lo: nat)
    requires Shape(a) && Shape(b) && Space(a, free, d, lo)
    requires forall p :: 0 <= p < NPAGES && IsTable(a, d, p) ==> Same(a, b, p)
    requires forall p :: p in free' ==> !Owned(a, d, p)
    ensures Space(b, free', d, lo)
    ensures forall p :: Owned(b, d, p) <==> Owned(a, d, p)
  {
    SameTables(a, b, free, d, lo);
    SameUser(a, b, free, d, lo);
    FreeMoved(b, free, free', d, lo);
  }

  lemma FreeMoved(m: Mem, free: set<nat>, free': set<nat>, d: nat, lo: nat)
    requires Shape(m) && Space(m, free, d, lo) && forall p :: p in free' ==> !Owned(m, d, p)
    ensures Space(m, free', d, lo)
  {
    assert IsTable(m, d, d);
    forall i | 0 <= i < ENTRIES && HasTable(m, d, i) ensures TableOf(m, d, i) !in free' {
      assert IsTable(m, d, TableOf(m, d, i));
    }
    forall vp | 0 <= vp < USERPAGES && Present(Pte(m, d, vp)) ensures PageOf(Pte(m, d, vp)) !in free' {
      assert IsUser(m, d, PageOf(Pte(m, d, vp)));
    }
  }

  // ----- elementary changes -----

  function Updated(page: seq<nat>, k: nat, w: nat): (r: seq<nat>)
    requires k < |page|
    ensures |r| == |page|
  {
    page[k := w]
  }

  /** Word k of page t set to w. */
  function SetWord(m: Mem, t: nat, k: nat, w: nat): Mem
    requires t < |m| && k < |m[t]|
  {
    m[t := Updated(m[t], k, w)]
  }

  /** Writing one table word changes exactly one entry of the map. */
  lemma SetPte(m: Mem, free: set<nat>, d: nat, lo: nat, vp: nat, w: nat)
    requires Shape(m) && TablesOk(m, free, d, lo) && vp < VPAGES && HasTable(m, d, vp / ENTRIES)
    ensures TableOf(m, d, vp / ENTRIES) < NPAGES && Shape(SetWord(m, TableOf(m, d, vp / ENTRIES), vp % ENTRIES, w))
    ensures var m' := SetWord(m, TableOf(m, d, vp / ENTRIES), vp % ENTRIES, w);
      && TablesOk(m', free, d, lo) && m'[d] == m[d]
      && forall vq :: 0 <= vq < VPAGES ==> Pte(m', d, vq) == if vq == vp then w else Pte(m, d, vq)
  {
    var t := TableOf(m, d, vp / ENTRIES);
    var m' := SetWord(m, t, vp % ENTRIES, w);
    DirSame(m, m', free, d, lo);
    forall vq | 0 <= vq < VPAGES ensures Pte(m', d, vq) == if vq == vp then w else Pte(m, d, vq) {
      if vq / ENTRIES == vp / ENTRIES {
        assert vq % ENTRIES == vp % ENTRIES <==> vq == vp;
      }
    }
  }

  /** A zeroed page hung into an empty directory entry. */
  function AddTable(m: Mem, d: nat, i: nat, p: nat): Mem
    requires d < |m| && p < |m| && i < |m[d]| && p != d
  {
    SetWord(m[p := Zeros()], d, i, Entry(p, PTE_P + PTE_W + PTE_U))
  }

  /** A new table maps nothing: the partial map is unchanged. */
  lemma AddTableOk(m: Mem, free: set<nat>, d: nat, lo: nat, i: nat, p: nat)
    requires Shape(m) && TablesOk(m, free, d, lo) && i < ENTRIES && !HasTable(m, d, i)
    requires p in free && lo <= p < NPAGES
    ensures Shape(AddTable(m, d, i, p)) && TablesOk(AddTable(m, d, i, p), free - {p}, d, lo)
    ensures HasTable(AddTable(m, d, i, p), d, i) && TableOf(AddTable(m, d, i, p), d, i) == p
    ensures forall vq :: 0 <= vq < VPAGES ==> Pte(AddTable(m, d, i, p), d, vq) == Pte(m, d, vq)
    ensures forall q :: IsTable(AddTable(m, d, i, p), d, q) <==> q == p || IsTable(m, d, q)
    ensures forall j :: 0 <= j < ENTRIES && j != i ==> AddTable(m, d, i, p)[d][j] == m[d][j]
  {
    var m' := AddTable(m, d, i, p);
    forall j | 0 <= j < ENTRIES && j != i ensures HasTable(m', d, j) == HasTable(m, d, j) && TableOf(m', d, j) == TableOf(m, d, j) {
    }
    AddTablePtes(m, free, d, lo, i, p);
    AddTableIs(m, d, i, p);
  }

  lemma AddTablePtes(m: Mem, free: set<nat>, d: nat, lo: nat, i: nat, p: nat)
    requires Shape(m) && TablesOk(m, free, d, lo) && i < ENTRIES && !HasTable(m, d, i) && p in free && lo <= p < NPAGES
    ensures Shape(AddTable(m, d, i, p))
    ensures forall vq :: 0 <= vq < VPAGES ==> Pte(AddTable(m, d, i, p), d, vq) == Pte(m, d, vq)
  {
    forall vq | 0 <= vq < VPAGES ensures Pte(AddTable(m, d, i, p), d, vq) == Pte(m, d, vq) {
    }
  }

  lemma AddTableIs(m: Mem, d: nat, i: nat, p: nat)
    requires Shape(m) && d < NPAGES && i < ENTRIES && !HasTable(m, d, i) && p < NPAGES && p != d
    ensures Shape(AddTable(m, d, i, p))
    ensures forall q :: IsTable(AddTable(m, d, i, p), d, q) <==> q == p || IsTable(m, d, q)
  {
    forall q ensures IsTable(AddTable(m, d, i, p), d, q) <==> q == p || IsTable(m, d, q) {
      AddTableGains(m, d, i, p, q);
      AddTableOnly(m, d, i, p, q);
    }
  }

  lemma AddTableGains(m: Mem, d: nat, i: nat, p: nat, q: nat)
    requires Shape(m) && d < NPAGES && i < ENTRIES && !HasTable(m, d, i) && p < NPAGES && p != d
    ensures Shape(AddTable(m, d, i, p))
    ensures q == p || IsTable(m, d, q) ==> IsTable(AddTable(m, d, i, p), d, q)
  {
    var m' := AddTable(m, d, i, p);
    assert HasTable(m', d, i) && TableOf(m', d, i) == p;
    if j :| 0 <= j < ENTRIES && HasTable(m, d, j) && TableOf(m, d, j) == q {
      assert HasTable(m', d, j) && TableOf(m', d, j) == q;
    }
  }

  lemma AddTableOnly(m: Mem, d: nat, i: nat, p: nat, q: nat)
    requires Shape(m) && d < NPAGES && i < ENTRIES && p < NPAGES && p != d
    ensures Shape(AddTable(m, d, i, p))
    ensures IsTable(AddTable(m, d, i, p), d, q) ==> q == p || IsTable(m, d, q)
  {
    var m' := AddTable(m, d, i, p);
    if j :| 0 <= j < ENTRIES && HasTable(m', d, j) && TableOf(m', d, j) == q && q != p {
      assert HasTable(m, d, j) && TableOf(m, d, j) == q;
    }
  }
}
