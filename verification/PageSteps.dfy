/** What the page allocator (kernel/kalloc.c) and the virtual memory operations (kernel/vm.c) do
    to memory, step by step, on values. */
module PageSteps {
  import opened PageTables
  import opened Sets

  /** The free list threaded through the first words of the free pages. */
  ghost predicate Chain(m: Mem, head: nat, free: seq<nat>, lo: nat)
    requires Shape(m)
  {
    && (forall i :: 0 <= i < |free| ==> lo <= free[i] < NPAGES)
    && (forall i, j :: 0 <= i < j < |free| ==> free[i] != free[j])
    && head == (if free == [] then 0 else free[0])
    && (forall i {:trigger Linked(m, free, i)} :: 0 <= i < |free| ==> Linked(m, free, i))
  }

  /** Free page i points to the next one. */
  ghost predicate Linked(m: Mem, free: seq<nat>, i: nat)
    requires Shape(m) && i < |free| && free[i] < NPAGES
  {
    m[free[i]][0] == NextOf(free, i) * PGSIZE
  }

  function NextOf(free: seq<nat>, i: nat): nat
    requires i < |free|
  {
    if i + 1 < |free| then free[i + 1] else 0
  }

  ghost function Set(free: seq<nat>): (r: set<nat>)
    ensures forall p :: p in r <==> p in free
  {
    set p | p in free
  }

  /** A page filled with 1s, its first word the link to the next free page. */
  function JunkPage(next: nat): (r: seq<nat>)
    ensures |r| == ENTRIES && r[0] == next * PGSIZE
  {
    seq(ENTRIES, i => if i == 0 then next * PGSIZE else JUNK)
  }

  /** PGROUNDUP(sz) / PGSIZE. */
  function RoundUp(sz: nat): nat {
    (sz + PGSIZE - 1) / PGSIZE
  }

  function Address(page: nat): nat { page * PGSIZE }

  lemma BelowTop(a: nat, sz: nat)
    ensures Address(a) < sz <==> a < RoundUp(sz)
  {
  }

  lemma BelowUser(a: nat, b: nat)
    requires a <= b <= USERTOP
    ensures RoundUp(a) <= RoundUp(b) <= USERPAGES
  {
  }

  const USERTOP := USERPAGES * PGSIZE

  lemma EntryWord(m: Mem, free: set<nat>, d: nat, lo: nat, vp: nat, t: nat)
    requires Shape(m) && TablesOk(m, free, d, lo) && vp < VPAGES && HasTable(m, d, vp / ENTRIES) && TableOf(m, d, vp / ENTRIES) == t
    ensures t < NPAGES && m[t][vp % ENTRIES] == Pte(m, d, vp)
  {
  }

  datatype MapResult = MapDone | NoMemory | Remap

  /** The partial map is the same. */
  ghost predicate SamePtes(a: Mem, b: Mem, d: nat)
    requires Shape(a) && Shape(b) && d < NPAGES
  {
    forall vq :: 0 <= vq < VPAGES ==> Pte(b, d, vq) == Pte(a, d, vq)
  }

  ghost predicate Unmapped(m: Mem, d: nat, first: nat, last: nat)
    requires Shape(m) && d < NPAGES && last < VPAGES
  {
    forall vq :: first <= vq <= last ==> !Present(Pte(m, d, vq))
  }

  /** The word about to be written is the old entry of page a. */
  lemma PteWord(m0: Mem, m1: Mem, m2: Mem, free: set<nat>, d: nat, lo: nat, first: nat, a: nat, page: nat, perm: nat, t: nat)
    requires Shape(m0) && Shape(m1) && Shape(m2) && TablesOk(m2, free, d, lo) && first <= a < VPAGES && perm < PGSIZE - 1
    requires HasTable(m2, d, a / ENTRIES) && TableOf(m2, d, a / ENTRIES) == t
    requires Mapped(m0, m1, d, first, a, page, perm) && SamePtes(m1, m2, d)
    ensures t < |m2| && a % ENTRIES < |m2[t]| && m2[t][a % ENTRIES] == Pte(m0, d, a)
  {
  }

  lemma UnmappedStep(m: Mem, d: nat, first: nat, a: nat, last: nat)
    requires Shape(m) && d < NPAGES && first <= a <= last < VPAGES
    requires a == first || Unmapped(m, d, first, a - 1)
    ensures !Present(Pte(m, d, a)) ==> Unmapped(m, d, first, a)
    ensures Present(Pte(m, d, a)) ==> !Unmapped(m, d, first, last)
  {
  }

  lemma ChainPop(m: Mem, head: nat, free: seq<nat>, lo: nat)
    requires Shape(m) && Chain(m, head, free, lo) && head != 0
    ensures free != [] && head == free[0] && Chain(m, PageOf(m[head][0]), free[1..], lo) && head !in free[1..]
  {
    assert Linked(m, free, 0);
    forall i | 0 <= i < |free[1..]| ensures Linked(m, free[1..], i) {
      assert Linked(m, free, i + 1);
      assert free[1..][i] == free[i + 1] && NextOf(free[1..], i) == NextOf(free, i + 1);
    }
  }

  lemma ChainPush(m: Mem, m': Mem, free: seq<nat>, p: nat, lo: nat)
    requires Shape(m) && lo <= p < NPAGES && 0 < lo && p !in free
    requires Chain(m, if free == [] then 0 else free[0], free, lo)
    requires m' == m[p := JunkPage(if free == [] then 0 else free[0])]
    ensures Shape(m') && Chain(m', p, [p] + free, lo)
  {
    var f := [p] + free;
    forall i | 0 <= i < |f| ensures Linked(m', f, i) {
      if i > 0 {
        assert Linked(m, free, i - 1);
        assert f[i] == free[i - 1] && NextOf(f, i) == NextOf(free, i - 1);
      }
    }
  }

  /** Pages off the free list may be written freely. */
  lemma ChainKept(m: Mem, m': Mem, head: nat, free: seq<nat>, lo: nat)
    requires Shape(m) && Shape(m') && Chain(m, head, free, lo)
    requires forall p :: p in free && 0 <= p < NPAGES ==> m'[p] == m[p]
    ensures Chain(m', head, free, lo)
  {
    forall i | 0 <= i < |free| ensures Linked(m', free, i) {
      assert Linked(m, free, i);
      assert free[i] in free;
    }
  }

  // ----- what mapping does to the tables -----

  /** Pages taken from the free set became tables of d; only those and tables of d changed. */
  ghost predicate Grew(a: Mem, fa: set<nat>, b: Mem, fb: set<nat>, d: nat)
    requires Shape(a) && Shape(b) && d < NPAGES
  {
    && fb <= fa
    && (forall q :: IsTable(b, d, q) <==> IsTable(a, d, q) || (q in fa && q !in fb))
    && (forall q :: 0 <= q < NPAGES && q !in fa && !IsTable(a, d, q) ==> b[q] == a[q])
    && (forall i :: 0 <= i < ENTRIES && HasTable(a, d, i) ==> HasTable(b, d, i))
    && (fb == fa ==> b[d] == a[d])
  }

  /** Entries lo..hi were set to consecutive pages from page on, the others kept. */
  ghost predicate Mapped(a: Mem, b: Mem, d: nat, lo: nat, hi: nat, page: nat, perm: nat)
    requires Shape(a) && Shape(b) && d < NPAGES && perm < PGSIZE - 1
  {
    forall vq :: 0 <= vq < VPAGES ==>
      Pte(b, d, vq) == if lo <= vq < hi then Entry(page + (vq - lo), perm + PTE_P) else Pte(a, d, vq)
  }

  /** Every table that the range needs exists. */
  ghost predicate TablesFor(m: Mem, d: nat, first: nat, last: nat)
    requires Shape(m) && d < NPAGES && last < VPAGES
  {
    forall vq :: first <= vq <= last ==> HasTable(m, d, vq / ENTRIES)
  }

  lemma GrewRefl(a: Mem, fa: set<nat>, d: nat)
    requires Shape(a) && d < NPAGES
    ensures Grew(a, fa, a, fa, d)
  {
  }

  lemma GrewTrans(a: Mem, fa: set<nat>, b: Mem, fb: set<nat>, c: Mem, fc: set<nat>, d: nat)
    requires Shape(a) && Shape(b) && Shape(c) && d < NPAGES
    requires Grew(a, fa, b, fb, d) && Grew(b, fb, c, fc, d)
    ensures Grew(a, fa, c, fc, d)
  {
    hide Shape, IsTable;
  }

  lemma GrewTable(a: Mem, fa: set<nat>, b: Mem, fb: set<nat>, d: nat, p: nat)
    requires Shape(a) && Shape(b) && d < NPAGES && p in fa && fb == fa - {p} && p < NPAGES
    requires forall q :: IsTable(b, d, q) <==> q == p || IsTable(a, d, q)
    requires forall q :: 0 <= q < NPAGES && q != p && q != d ==> b[q] == a[q]
    requires forall i :: 0 <= i < ENTRIES && HasTable(a, d, i) ==> HasTable(b, d, i)
    ensures Grew(a, fa, b, fb, d)
  {
    assert IsTable(a, d, d);
  }

  lemma NewTableOk(m: Mem, f: set<nat>, head: nat, free: seq<nat>, d: nat, lo: nat, i: nat, p: nat)
    requires Shape(m) && TablesOk(m, f, d, lo) && Chain(m, head, free, lo) && i < ENTRIES && !HasTable(m, d, i)
    requires p in f && lo <= p < NPAGES && p !in free && Set(free) == f - {p}
    ensures p != d
    ensures var m' := AddTable(m, d, i, p);
      && Shape(m') && TablesOk(m', Set(free), d, lo) && Chain(m', head, free, lo) && Grew(m, f, m', Set(free), d) && SamePtes(m, m', d)
      && HasTable(m', d, i) && TableOf(m', d, i) == p
  {
    var m' := AddTable(m, d, i, p);
    AddTableOk(m, f, d, lo, i, p);
    ChainKept(m, m', head, free, lo);
    hide IsTable, TablesOk, Chain, Pte;
    GrewTable(m, f, m', Set(free), d, p);
  }

  // ----- what mapping costs -----

  /** The directory entries that name a table. */
  ghost function TableSet(m: Mem, d: nat): set<int>
    requires Shape(m) && d < NPAGES
  {
    set i | 0 <= i < ENTRIES && HasTable(m, d, i)
  }

  /** Each page that left the free list became one more table, at an entry within lo..hi. */
  ghost predicate Paid(a: Mem, na: nat, b: Mem, nb: nat, d: nat, lo: int, hi: int)
    requires Shape(a) && Shape(b) && d < NPAGES
  {
    && na + |TableSet(a, d)| == nb + |TableSet(b, d)|
    && TableSet(a, d) <= TableSet(b, d)
    && forall i :: i in TableSet(b, d) ==> i in TableSet(a, d) || lo <= i <= hi
  }

  lemma PaidSame(a: Mem, b: Mem, n: nat, d: nat, lo: int, hi: int)
    requires Shape(a) && Shape(b) && d < NPAGES && a[d] == b[d]
    ensures Paid(a, n, b, n, d, lo, hi)
  {
    assert TableSet(a, d) == TableSet(b, d);
  }

  lemma PaidTrans(a: Mem, na: nat, b: Mem, nb: nat, c: Mem, nc: nat, d: nat, lo: int, hi: int, i: int)
    requires Shape(a) && Shape(b) && Shape(c) && d < NPAGES && lo <= i <= hi
    requires Paid(a, na, b, nb, d, lo, hi) && Paid(b, nb, c, nc, d, i, i)
    ensures Paid(a, na, c, nc, d, lo, hi)
  {
    hide TableSet;
  }

  lemma PaidTable(m: Mem, d: nat, i: nat, p: nat, n: nat)
    requires Shape(m) && d < NPAGES && p < NPAGES && i < ENTRIES && p != d && !HasTable(m, d, i) && 0 < n
    ensures Shape(AddTable(m, d, i, p)) && Paid(m, n, AddTable(m, d, i, p), n - 1, d, i, i)
  {
    var m' := AddTable(m, d, i, p);
    forall j | 0 <= j < ENTRIES ensures HasTable(m', d, j) <==> j == i || HasTable(m, d, j) {
    }
    assert TableSet(m', d) == TableSet(m, d) + {i};
  }

  /** A table is missing among the entries lo..hi. */
  ghost predicate Lacks(m: Mem, d: nat, lo: int, hi: int)
    requires Shape(m) && d < NPAGES
  {
    exists i :: lo <= i <= hi && i !in TableSet(m, d)
  }

  lemma NoTable(m: Mem, d: nat, i: nat)
    requires Shape(m) && d < NPAGES && i < ENTRIES && !HasTable(m, d, i)
    ensures i !in TableSet(m, d)
  {
  }

  lemma Between(first: nat, a: nat, last: nat)
    requires first <= a <= last
    ensures first / ENTRIES <= a / ENTRIES <= last / ENTRIES
  {
  }

  lemma MappedNone(m: Mem, d: nat, lo: nat, page: nat, perm: nat)
    requires Shape(m) && d < NPAGES && perm < PGSIZE - 1
    ensures Mapped(m, m, d, lo, lo, page, perm)
  {
  }

  lemma HasTableKept(a: Mem, fa: set<nat>, b: Mem, fb: set<nat>, d: nat, lo: nat, first: nat, last: nat, vp: nat)
    requires Shape(a) && Shape(b) && d < NPAGES && last < VPAGES && Grew(a, fa, b, fb, d)
    requires TablesFor(a, d, first, last) && first <= vp <= last
    ensures HasTable(b, d, vp / ENTRIES)
  {
  }

  lemma ChainKeptTable(m: Mem, head: nat, free: seq<nat>, d: nat, lo: nat, t: nat, k: nat, w: nat)
    requires Shape(m) && Chain(m, head, free, lo) && t < NPAGES && t !in free && k < ENTRIES
    ensures Shape(SetWord(m, t, k, w)) && Chain(SetWord(m, t, k, w), head, free, lo)
  {
    ChainKept(m, SetWord(m, t, k, w), head, free, lo);
  }

  /** Setting the next entry of the range. */
  lemma MapStep(m0: Mem, m1: Mem, m2: Mem, f0: set<nat>, f2: set<nat>, d: nat, lo: nat, first: nat, a: nat, page: nat, perm: nat, t: nat)
    requires Shape(m0) && Shape(m1) && Shape(m2) && TablesOk(m2, f2, d, lo) && perm < PGSIZE - 1
    requires first <= a < VPAGES && HasTable(m2, d, a / ENTRIES) && TableOf(m2, d, a / ENTRIES) == t
    requires Mapped(m0, m1, d, first, a, page, perm) && Grew(m0, f0, m2, f2, d)
    requires SamePtes(m1, m2, d)
    ensures t < NPAGES && t !in f2
    ensures var m3 := SetWord(m2, t, a % ENTRIES, Entry(page + (a - first), perm + PTE_P));
      && Shape(m3) && TablesOk(m3, f2, d, lo) && Mapped(m0, m3, d, first, a + 1, page, perm) && Grew(m0, f0, m3, f2, d)
  {
    var w := Entry(page + (a - first), perm + PTE_P);
    SetPte(m2, f2, d, lo, a, w);
    var m3 := SetWord(m2, t, a % ENTRIES, w);
    assert IsTable(m2, d, t);
    forall q ensures IsTable(m3, d, q) <==> IsTable(m2, d, q) {
      SameIsTable(m2, m3, d, q);
    }
    forall i | 0 <= i < ENTRIES ensures HasTable(m3, d, i) == HasTable(m2, d, i) {}
  }

  lemma PutEntryOk(m0: Mem, m1: Mem, m2: Mem, f0: set<nat>, head: nat, free: seq<nat>, d: nat, lo: nat, first: nat, a: nat, page: nat, perm: nat, t: nat)
    requires Shape(m0) && Shape(m1) && Shape(m2) && Chain(m2, head, free, lo) && TablesOk(m2, Set(free), d, lo)
    requires perm < PGSIZE - 1 && first <= a < VPAGES && HasTable(m2, d, a / ENTRIES) && TableOf(m2, d, a / ENTRIES) == t
    requires Mapped(m0, m1, d, first, a, page, perm) && Grew(m0, f0, m2, Set(free), d) && SamePtes(m1, m2, d)
    ensures t < |m2| && a % ENTRIES < |m2[t]|
    ensures var m3 := SetWord(m2, t, a % ENTRIES, Entry(page + (a - first), perm + PTE_P));
      && Shape(m3) && Chain(m3, head, free, lo) && TablesOk(m3, Set(free), d, lo)
      && Mapped(m0, m3, d, first, a + 1, page, perm) && Grew(m0, f0, m3, Set(free), d) && m3[d] == m2[d]
  {
    SetPte(m2, Set(free), d, lo, a, Entry(page + (a - first), perm + PTE_P));
    hide Chain, TablesOk, IsTable, Grew, HasTable, TableOf, Mapped, SamePtes, Pte, SetWord, Entry;
    MapStep(m0, m1, m2, f0, Set(free), d, lo, first, a, page, perm, t);
    ChainKeptTable(m2, head, free, d, lo, t, a % ENTRIES, Entry(page + (a - first), perm + PTE_P));
  }

  // ----- taking user pages away -----

  /** Page q backs one of the virtual pages first..hi. */
  ghost predicate UserIn(m: Mem, d: nat, first: nat, hi: nat, q: nat)
    requires Shape(m) && d < NPAGES && hi <= VPAGES
  {
    exists vq :: first <= vq < hi && Present(Pte(m, d, vq)) && PageOf(Pte(m, d, vq)) == q
  }

  /** The pages behind first..hi were freed and unmapped; nothing else changed. */
  ghost predicate Released(a: Mem, fa: set<nat>, b: Mem, fb: set<nat>, d: nat, first: nat, hi: nat)
    requires Shape(a) && Shape(b) && d < NPAGES && hi <= USERPAGES
  {
    && (forall vq :: 0 <= vq < VPAGES ==>
          Pte(b, d, vq) == if first <= vq < hi && Present(Pte(a, d, vq)) then 0 else Pte(a, d, vq))
    && (forall q :: q in fb <==> q in fa || UserIn(a, d, first, hi, q))
    && (forall q :: IsTable(b, d, q) <==> IsTable(a, d, q))
    && (forall q :: 0 <= q < NPAGES && !IsTable(a, d, q) && !UserIn(a, d, first, hi, q) ==> b[q] == a[q])
    && b[d] == a[d]
  }

  lemma ReleasedNone(m: Mem, f: set<nat>, d: nat, first: nat)
    requires Shape(m) && d < NPAGES && first <= USERPAGES
    ensures Released(m, f, m, f, d, first, first)
  {
  }

  /** One page given back: junk over the page, then a cleared entry. */
  function Unmapped1(m: Mem, p: nat, next: nat, t: nat, k: nat): Mem
    requires p < |m| && t < |m| && k < |m[t]| && p != t
  {
    SetWord(m[p := JunkPage(next)], t, k, 0)
  }

  lemma TablesMoved(m: Mem, free: set<nat>, free': set<nat>, d: nat, lo: nat)
    requires Shape(m) && TablesOk(m, free, d, lo) && forall p :: p in free' ==> !IsTable(m, d, p)
    ensures TablesOk(m, free', d, lo)
  {
    assert IsTable(m, d, d);
    forall i | 0 <= i < ENTRIES && HasTable(m, d, i) ensures TableOf(m, d, i) !in free' {
      assert IsTable(m, d, TableOf(m, d, i));
    }
  }

  lemma UnmapTables(m: Mem, free: set<nat>, d: nat, lo: nat, vp: nat, p: nat, next: nat, t: nat)
    requires Shape(m) && Space(m, free, d, lo) && vp < USERPAGES && Present(Pte(m, d, vp)) && PageOf(Pte(m, d, vp)) == p
    requires TableOf(m, d, vp / ENTRIES) == t
    ensures lo <= p < NPAGES && p !in free && !IsTable(m, d, p) && t < NPAGES && p != t && Shape(Unmapped1(m, p, next, t, vp % ENTRIES))
    ensures var m' := Unmapped1(m, p, next, t, vp % ENTRIES);
      && TablesOk(m', free + {p}, d, lo) && m'[d] == m[d]
      && (forall vq :: 0 <= vq < VPAGES ==> Pte(m', d, vq) == if vq == vp then 0 else Pte(m, d, vq))
      && (forall q :: IsTable(m', d, q) <==> IsTable(m, d, q))
      && (forall q :: 0 <= q < NPAGES && q != p && !IsTable(m, d, q) ==> m'[q] == m[q])
  {
    assert IsTable(m, d, t);
    assert IsTable(m, d, d);
    var m1 := m[p := JunkPage(next)];
    SameTables(m, m1, free, d, lo);
    SetPte(m1, free, d, lo, vp, 0);
    var m2 := SetWord(m1, t, vp % ENTRIES, 0);
    forall q ensures IsTable(m2, d, q) <==> IsTable(m, d, q) {
      SameIsTable(m1, m2, d, q);
    }
    TablesMoved(m2, free, free + {p}, d, lo);
  }

  /** After the step the space owns one page less and is still in order. */
  lemma UnmapSpace(m: Mem, m': Mem, free: set<nat>, d: nat, lo: nat, vp: nat, p: nat)
    requires Shape(m) && Shape(m') && Space(m, free, d, lo) && vp < USERPAGES && Present(Pte(m, d, vp)) && PageOf(Pte(m, d, vp)) == p
    requires TablesOk(m', free + {p}, d, lo)
    requires forall vq :: 0 <= vq < VPAGES ==> Pte(m', d, vq) == if vq == vp then 0 else Pte(m, d, vq)
    requires forall q :: IsTable(m', d, q) <==> IsTable(m, d, q)
    ensures Space(m', free + {p}, d, lo)
  {
    hide IsTable, Shape, TablesOk;
  }

  lemma ReleasedStep(a: Mem, fa: set<nat>, b: Mem, fb: set<nat>, c: Mem, d: nat, first: nat, vp: nat, p: nat)
    requires Shape(a) && Shape(b) && Shape(c) && d < NPAGES && first <= vp < USERPAGES && Released(a, fa, b, fb, d, first, vp)
    requires Present(Pte(b, d, vp)) && PageOf(Pte(b, d, vp)) == p
    requires forall vq :: 0 <= vq < VPAGES ==> Pte(c, d, vq) == if vq == vp then 0 else Pte(b, d, vq)
    requires forall q :: IsTable(c, d, q) <==> IsTable(b, d, q)
    requires forall q :: 0 <= q < NPAGES && q != p && !IsTable(b, d, q) ==> c[q] == b[q]
    requires c[d] == b[d]
    ensures Released(a, fa, c, fb + {p}, d, first, vp + 1)
  {
    hide IsTable, Shape, Pte;
    forall q ensures UserIn(a, d, first, vp + 1, q) <==> UserIn(a, d, first, vp, q) || q == p {
      UserInStep(a, d, first, vp, q);
    }
  }

  lemma UserInStep(m: Mem, d: nat, first: nat, vp: nat, q: nat)
    requires Shape(m) && d < NPAGES && first <= vp < VPAGES
    ensures UserIn(m, d, first, vp + 1, q) <==>
      UserIn(m, d, first, vp, q) || (Present(Pte(m, d, vp)) && PageOf(Pte(m, d, vp)) == q)
  {
  }

  lemma ReleasedSkip(a: Mem, fa: set<nat>, b: Mem, fb: set<nat>, d: nat, first: nat, vp: nat)
    requires Shape(a) && Shape(b) && d < NPAGES && first <= vp < USERPAGES && Released(a, fa, b, fb, d, first, vp)
    requires !Present(Pte(b, d, vp))
    ensures Released(a, fa, b, fb, d, first, vp + 1)
  {
    hide IsTable, Shape;
    forall q ensures UserIn(a, d, first, vp + 1, q) <==> UserIn(a, d, first, vp, q) {
      UserInStep(a, d, first, vp, q);
    }
  }

  lemma ReleaseOk(m: Mem, head: nat, free: seq<nat>, m0: Mem, f0: set<nat>, d: nat, lo: nat, first: nat, vp: nat, t: nat)
    requires Shape(m) && 0 < lo && Chain(m, head, free, lo) && Space(m, Set(free), d, lo) && first <= vp < USERPAGES
    requires Shape(m0) && Released(m0, f0, m, Set(free), d, first, vp)
    requires Present(Pte(m, d, vp)) && HasTable(m, d, vp / ENTRIES) && TableOf(m, d, vp / ENTRIES) == t
    ensures t < NPAGES
    ensures var p := PageOf(m[t][vp % ENTRIES]);
      && lo <= p < NPAGES && p !in free && p != t && Shape(Unmapped1(m, p, head, t, vp % ENTRIES))
      && var m' := Unmapped1(m, p, head, t, vp % ENTRIES);
      && Chain(m', p, [p] + free, lo) && Space(m', Set([p] + free), d, lo)
      && Released(m0, f0, m', Set([p] + free), d, first, vp + 1)
  {
    EntryWord(m, Set(free), d, lo, vp, t);
    var p := PageOf(m[t][vp % ENTRIES]);
    UnmapTables(m, Set(free), d, lo, vp, p, head, t);
    assert IsTable(m, d, t);
    hide IsTable, TablesOk, UserOk, Pte, Released, Chain, Space, SetWord, HasTable, TableOf;
    ReleaseChain(m, head, free, lo, p, t, vp % ENTRIES);
    var m' := Unmapped1(m, p, head, t, vp % ENTRIES);
    assert Set([p] + free) == Set(free) + {p};
    UnmapSpace(m, m', Set(free), d, lo, vp, p);
    ReleasedStep(m0, f0, m, Set(free), m', d, first, vp, p);
  }

  lemma ReleaseChain(m: Mem, head: nat, free: seq<nat>, lo: nat, p: nat, t: nat, k: nat)
    requires Shape(m) && 0 < lo && Chain(m, head, free, lo) && lo <= p < NPAGES && p !in free && t < NPAGES && t != p && t !in free && k < ENTRIES
    ensures Shape(Unmapped1(m, p, head, t, k)) && Chain(Unmapped1(m, p, head, t, k), p, [p] + free, lo)
  {
    var m1 := m[p := JunkPage(head)];
    ChainPush(m, m1, free, p, lo);
    ChainKeptTable(m1, p, [p] + free, t, lo, t, k, 0);
  }

  // ----- giving user pages -----

  ghost predicate Vacant(m: Mem, d: nat, first: nat, hi: nat)
    requires Shape(m) && d < NPAGES && hi <= VPAGES
  {
    forall vq :: first <= vq < hi ==> Pte(m, d, vq) == 0
  }

  lemma VacantAt(m: Mem, d: nat, first: nat, hi: nat, vq: nat)
    requires Shape(m) && d < NPAGES && hi <= VPAGES && Vacant(m, d, first, hi) && first <= vq < hi
    ensures !Present(Pte(m, d, vq))
  {
  }

  /** w maps a zeroed page, writable by the user, that was free before. */
  ghost predicate Backed(fa: set<nat>, b: Mem, fb: set<nat>, w: nat)
    requires Shape(b)
  {
    w % 4096 == 7 && PageOf(w) < NPAGES && PageOf(w) in fa && PageOf(w) !in fb && b[PageOf(w)] == Zeros()
  }

  /** Virtual pages first..hi were given fresh zeroed pages, exactly those left the free set,
      and nothing but the tables of d and the pages handed out changed. */
  ghost predicate Allocated(a: Mem, fa: set<nat>, b: Mem, fb: set<nat>, d: nat, first: nat, hi: nat)
    requires Shape(a) && Shape(b) && d < NPAGES && hi <= USERPAGES
  {
    && (forall vq :: first <= vq < hi ==> Backed(fa, b, fb, Pte(b, d, vq)))
    && (forall vq :: 0 <= vq < VPAGES && !(first <= vq < hi) ==> Pte(b, d, vq) == Pte(a, d, vq))
    && (forall q :: q in fa <==> q in fb || UserIn(b, d, first, hi, q))
    && (forall q :: IsTable(b, d, q) <==> IsTable(a, d, q))
    && (forall q :: 0 <= q < NPAGES && q !in fa && !IsTable(a, d, q) ==> b[q] == a[q])
    && b[d] == a[d]
  }

  /** Same map, same free set, and every page that is not free holds the same words. */
  ghost predicate Restored(a: Mem, fa: set<nat>, b: Mem, fb: set<nat>, d: nat)
    requires Shape(a) && Shape(b) && d < NPAGES
  {
    SamePtes(a, b, d) && fb == fa && forall q :: 0 <= q < NPAGES && q !in fa ==> b[q] == a[q]
  }

  lemma AllocatedNone(m: Mem, f: set<nat>, d: nat, first: nat)
    requires Shape(m) && d < NPAGES && first <= USERPAGES
    ensures Allocated(m, f, m, f, d, first, first)
  {
  }

  /** The table for the user addresses exists. */
  ghost predicate UserTable(m: Mem, d: nat)
    requires Shape(m) && d < NPAGES
  {
    HasTable(m, d, 0)
  }

  /** With page p filled, it can be mapped at virtual page a. */
  ghost predicate Mappable(m: Mem, head: nat, free: seq<nat>, d: nat, lo: nat, a: nat, p: nat, page: seq<nat>)
    requires Shape(m) && p < NPAGES && a < USERPAGES && |page| == ENTRIES
  {
    var m' := m[p := page];
    Shape(m') && Chain(m', head, free, lo) && TablesOk(m', Set(free), d, lo) && TablesFor(m', d, a, a) && Unmapped(m', d, a, a)
  }

  lemma FillPageOk(m: Mem, head: nat, free: seq<nat>, f: set<nat>, d: nat, lo: nat, a: nat, p: nat, page: seq<nat>)
    requires Shape(m) && Chain(m, head, free, lo) && Space(m, f, d, lo) && UserTable(m, d) && |page| == ENTRIES
    requires p in f && p < NPAGES && p !in free && Set(free) == f - {p} && a < USERPAGES && !Present(Pte(m, d, a))
    ensures Mappable(m, head, free, d, lo, a, p, page)
  {
    var m' := m[p := page];
    ChainKept(m, m', head, free, lo);
    PteKept(m, m', f, d, lo, p, a, page);
    FillTables(m, m', f, d, lo, p);
  }

  lemma FillTables(m: Mem, m': Mem, f: set<nat>, d: nat, lo: nat, p: nat)
    requires Shape(m) && Shape(m') && TablesOk(m, f, d, lo) && p in f && p < NPAGES && forall q :: 0 <= q < NPAGES && q != p ==> m'[q] == m[q]
    ensures TablesOk(m', f - {p}, d, lo)
  {
    DirSame(m, m', f, d, lo);
  }

  lemma StillVacant(m0: Mem, f0: set<nat>, m: Mem, f: set<nat>, d: nat, first: nat, a: nat)
    requires Shape(m0) && Shape(m) && d < NPAGES && first <= a < USERPAGES
    requires Allocated(m0, f0, m, f, d, first, a) && !Present(Pte(m0, d, a))
    ensures !Present(Pte(m, d, a))
  {
  }

  lemma FreeNotOwned(m: Mem, f: set<nat>, d: nat, lo: nat, q: nat)
    requires Shape(m) && Space(m, f, d, lo) && q in f
    ensures !Owned(m, d, q)
  {
  }

  lemma PteKept(m: Mem, m': Mem, f: set<nat>, d: nat, lo: nat, p: nat, a: nat, page: seq<nat>)
    requires Shape(m) && TablesOk(m, f, d, lo) && p in f && p < NPAGES && a < USERPAGES && |page| == ENTRIES && m' == m[p := page] && HasTable(m, d, 0)
    ensures Shape(m') && Pte(m', d, a) == Pte(m, d, a) && HasTable(m', d, 0)
  {
  }

  /** One entry was set, to page p; p left the free set. */
  ghost predicate Gave(a: Mem, fa: set<nat>, b: Mem, fb: set<nat>, d: nat, vp: nat, p: nat)
    requires Shape(a) && Shape(b) && d < NPAGES
  {
    && p in fa && fb == fa - {p} && b[d] == a[d]
    && (forall vq :: 0 <= vq < VPAGES ==> Pte(b, d, vq) == if vq == vp then Entry(p, PTE_P + PTE_W + PTE_U) else Pte(a, d, vq))
    && (forall q :: IsTable(b, d, q) <==> IsTable(a, d, q))
    && (forall q :: 0 <= q < NPAGES && q != p && q !in fb && !IsTable(a, d, q) ==> b[q] == a[q])
  }

  lemma GaveOne(m1: Mem, f1: set<nat>, m2: Mem, m3: Mem, f3: set<nat>, d: nat, lo: nat, vp: nat, p: nat, page: seq<nat>)
    requires Shape(m1) && TablesOk(m1, f1, d, lo) && p in f1 && p < NPAGES && vp < VPAGES && |page| == ENTRIES
    requires m2 == m1[p := page] && Shape(m2) && Shape(m3) && f3 == f1 - {p}
    requires Grew(m2, f3, m3, f3, d) && Mapped(m2, m3, d, vp, vp + 1, p, PTE_W + PTE_U)
    ensures Gave(m1, f1, m3, f3, d, vp, p) && m3[p] == page && !IsTable(m1, d, p)
  {
    SameTables(m1, m2, f1, d, lo);
    assert m2[d] == m1[d];
    hide IsTable, Pte, Shape;
  }

  lemma GaveSpace(a: Mem, fa: set<nat>, b: Mem, fb: set<nat>, d: nat, lo: nat, vp: nat, p: nat)
    requires Shape(a) && Shape(b) && Space(a, fa, d, lo) && Gave(a, fa, b, fb, d, vp, p) && lo <= p < NPAGES
    requires TablesOk(b, fb, d, lo) && !IsTable(a, d, p)
    ensures Space(b, fb, d, lo)
  {
    hide IsTable, TablesOk, Pte, Shape;
  }

  lemma AllocStep(m0: Mem, f0: set<nat>, m1: Mem, f1: set<nat>, m2: Mem, m3: Mem, f3: set<nat>, d: nat, lo: nat, first: nat, a: nat, p: nat)
    requires Shape(m0) && Shape(m1) && Space(m1, f1, d, lo) && UserTable(m1, d) && p in f1 && lo <= p < NPAGES
    requires m2 == m1[p := Zeros()] && Shape(m2) && Shape(m3) && f3 == f1 - {p} && first <= a < USERPAGES
    requires Allocated(m0, f0, m1, f1, d, first, a)
    requires TablesOk(m3, f3, d, lo) && Grew(m2, f3, m3, f3, d) && Mapped(m2, m3, d, a, a + 1, p, PTE_W + PTE_U)
    ensures Space(m3, f3, d, lo) && UserTable(m3, d) && Allocated(m0, f0, m3, f3, d, first, a + 1)
  {
    GaveOne(m1, f1, m2, m3, f3, d, lo, a, p, Zeros());
    assert UserTable(m3, d);
    hide IsTable, Pte, Mapped, Grew, TablesOk;
    GaveSpace(m1, f1, m3, f3, d, lo, a, p);
    GaveAllocated(m0, f0, m1, f1, m3, f3, d, lo, first, a, p);
  }

  lemma GaveAllocated(m0: Mem, f0: set<nat>, m1: Mem, f1: set<nat>, m3: Mem, f3: set<nat>, d: nat, lo: nat, first: nat, a: nat, p: nat)
    requires Shape(m0) && Shape(m1) && Shape(m3) && d < NPAGES && p < NPAGES && first <= a < USERPAGES
    requires Allocated(m0, f0, m1, f1, d, first, a) && Gave(m1, f1, m3, f3, d, a, p) && m3[p] == Zeros()
    requires UserOk(m1, f1, d, lo)
    ensures Allocated(m0, f0, m3, f3, d, first, a + 1)
  {
    forall vq | first <= vq < a + 1 ensures Backed(f0, m3, f3, Pte(m3, d, vq)) {
      GaveBacked(m0, f0, m1, f1, m3, f3, d, lo, first, a, p, vq);
    }
    forall q ensures UserIn(m3, d, first, a + 1, q) <==> UserIn(m1, d, first, a, q) || q == p {
      GaveUserIn(m1, f1, m3, f3, d, first, a, p, q);
    }
    hide IsTable, Pte, UserIn, UserOk, Backed, Entry, PageOf, Present;
    forall q ensures q in f0 <==> q in f3 || UserIn(m3, d, first, a + 1, q) {
      assert q in f0 <==> q in f1 || UserIn(m1, d, first, a, q);
      assert p in f1 && f3 == f1 - {p};
      assert UserIn(m3, d, first, a + 1, q) <==> UserIn(m1, d, first, a, q) || q == p;
    }
    forall q | 0 <= q < NPAGES && q !in f0 && !IsTable(m0, d, q) ensures m3[q] == m0[q] {
      assert q !in f1;
    }
  }

  lemma GaveBacked(m0: Mem, f0: set<nat>, m1: Mem, f1: set<nat>, m3: Mem, f3: set<nat>, d: nat, lo: nat, first: nat, a: nat, p: nat, vq: nat)
    requires Shape(m0) && Shape(m1) && Shape(m3) && d < NPAGES && p < NPAGES && first <= vq <= a < USERPAGES
    requires Allocated(m0, f0, m1, f1, d, first, a) && Gave(m1, f1, m3, f3, d, a, p) && m3[p] == Zeros()
    requires UserOk(m1, f1, d, lo)
    ensures Backed(f0, m3, f3, Pte(m3, d, vq))
  {
    hide IsTable, Pte, UserIn;
    if vq < a {
      assert Backed(f0, m1, f1, Pte(m1, d, vq));
      FlagsPresent(Pte(m1, d, vq));
      var q := PageOf(Pte(m1, d, vq));
      assert Present(Pte(m1, d, vq)) && q != p && !IsTable(m1, d, q);
    } else {
      assert p in f0;
    }
  }

  lemma FlagsPresent(w: nat)
    requires w % PGSIZE == PTE_P + PTE_W + PTE_U
    ensures Present(w)
  {
  }

  lemma GaveUserIn(a: Mem, fa: set<nat>, b: Mem, fb: set<nat>, d: nat, first: nat, vp: nat, p: nat, q: nat)
    requires Shape(a) && Shape(b) && d < NPAGES && first <= vp < USERPAGES && Gave(a, fa, b, fb, d, vp, p)
    ensures UserIn(b, d, first, vp + 1, q) <==> UserIn(a, d, first, vp, q) || q == p
  {
    hide IsTable, Pte, Shape;
    FlagsPresent(Entry(p, PTE_P + PTE_W + PTE_U));
    assert Present(Pte(b, d, vp)) && PageOf(Pte(b, d, vp)) == p;
    if vq :| first <= vq < vp && Present(Pte(a, d, vq)) && PageOf(Pte(a, d, vq)) == q {
      assert Present(Pte(b, d, vq)) && PageOf(Pte(b, d, vq)) == q;
    }
    if vq :| first <= vq < vp + 1 && Present(Pte(b, d, vq)) && PageOf(Pte(b, d, vq)) == q && vq != vp {
      assert Present(Pte(a, d, vq)) && PageOf(Pte(a, d, vq)) == q;
    }
  }

  /** deallocuvm undoes allocuvm, whole or cut short. */
  lemma DeallocUndoes(a: Mem, fa: set<nat>, b: Mem, fb: set<nat>, c: Mem, fc: set<nat>, d: nat, first: nat, mid: nat, hi: nat)
    requires Shape(a) && Shape(b) && Shape(c) && d < NPAGES && first <= mid <= hi <= USERPAGES && Vacant(a, d, first, hi)
    requires Allocated(a, fa, b, fb, d, first, mid) && Released(b, fb, c, fc, d, first, hi)
    ensures Restored(a, fa, c, fc, d) && UserTable(c, d) == UserTable(b, d) == UserTable(a, d)
  {
    UndoPtes(a, fa, b, fb, c, fc, d, first, mid, hi);
    hide IsTable, Pte, Shape, Backed, Vacant;
    forall q ensures UserIn(b, d, first, hi, q) <==> UserIn(b, d, first, mid, q) {
      UndoUserIn(a, fa, b, fb, d, first, mid, hi, q);
    }
    forall q | 0 <= q < NPAGES && q !in fa ensures c[q] == a[q] {
      if IsTable(a, d, q) {
        TablePageSame(a, c, d, q);
      }
    }
  }

  lemma UndoPtes(a: Mem, fa: set<nat>, b: Mem, fb: set<nat>, c: Mem, fc: set<nat>, d: nat, first: nat, mid: nat, hi: nat)
    requires Shape(a) && Shape(b) && Shape(c) && d < NPAGES && first <= mid <= hi <= USERPAGES && Vacant(a, d, first, hi)
    requires Allocated(a, fa, b, fb, d, first, mid) && Released(b, fb, c, fc, d, first, hi)
    ensures SamePtes(a, c, d)
  {
    hide IsTable, Pte, Shape;
    forall vq | 0 <= vq < VPAGES ensures Pte(c, d, vq) == Pte(a, d, vq) {
      if first <= vq < mid {
        assert Backed(fa, b, fb, Pte(b, d, vq));
        FlagsPresent(Pte(b, d, vq));
      }
    }
  }

  lemma UndoUserIn(a: Mem, fa: set<nat>, b: Mem, fb: set<nat>, d: nat, first: nat, mid: nat, hi: nat, q: nat)
    requires Shape(a) && Shape(b) && d < NPAGES && first <= mid <= hi <= USERPAGES && Vacant(a, d, first, hi)
    requires Allocated(a, fa, b, fb, d, first, mid)
    ensures UserIn(b, d, first, hi, q) <==> UserIn(b, d, first, mid, q)
  {
    hide IsTable, Pte, Shape, Backed;
  }

  /** The partial map determines every table page. */
  lemma TablePageSame(a: Mem, b: Mem, d: nat, q: nat)
    requires Shape(a) && Shape(b) && d < NPAGES && a[d] == b[d] && SamePtes(a, b, d) && IsTable(a, d, q) && q < NPAGES
    ensures b[q] == a[q]
  {
    if q != d {
      var i :| 0 <= i < ENTRIES && HasTable(a, d, i) && TableOf(a, d, i) == q;
      forall k | 0 <= k < ENTRIES ensures b[q][k] == a[q][k] {
        var vp := i * ENTRIES + k;
        assert vp / ENTRIES == i && vp % ENTRIES == k;
        assert Pte(b, d, vp) == Pte(a, d, vp);
      }
    }
  }

  // ----- the kernel's mappings -----

  const KMAPS := 4

  /** A row of kmap, in pages: mapped one to one. */
  datatype Row = Row(lo: nat, hi: nat, perm: nat)

  function Kmap(data: nat, k: nat): (r: Row)
    requires k < KMAPS && 256 < data < NPAGES
    ensures r.lo < r.hi <= VPAGES && r.perm < PGSIZE - 1
  {
    if k == 0 then Row(USERPAGES, 256, PTE_W)
    else if k == 1 then Row(256, data, 0)
    else if k == 2 then Row(data, NPAGES, PTE_W)
    else Row(0xFE000, VPAGES, PTE_W)
  }

  /** The entry of virtual page vp once rows 0..k are mapped. */
  function KernelPte(data: nat, k: nat, vp: nat): nat
    requires k <= KMAPS && 256 < data < NPAGES
  {
    if k == 0 then 0
    else if Kmap(data, k - 1).lo <= vp < Kmap(data, k - 1).hi then Entry(vp, Kmap(data, k - 1).perm + PTE_P)
    else KernelPte(data, k - 1, vp)
  }

  ghost predicate Kernel(m: Mem, d: nat, data: nat, k: nat)
    requires Shape(m) && d < NPAGES && k <= KMAPS && 256 < data < NPAGES
  {
    forall vp :: 0 <= vp < VPAGES ==> Pte(m, d, vp) == KernelPte(data, k, vp)
  }

  /** What left the free set became tables of d; no other page changed. */
  ghost predicate Built(m0: Mem, f0: set<nat>, m: Mem, f: set<nat>, d: nat)
    requires Shape(m0) && Shape(m) && d < NPAGES
  {
    && (forall q :: q in f0 <==> q in f || IsTable(m, d, q))
    && (forall q :: 0 <= q < NPAGES && q !in f0 ==> m[q] == m0[q])
  }

  /** User addresses are unmapped; everything else is mapped to itself, kernel text for reading
      only, or not at all. */
  lemma KernelPtes(data: nat, vp: nat)
    requires 256 < data < NPAGES && vp < VPAGES
    ensures KernelPte(data, KMAPS, vp) ==
      if vp < 160 || 4096 <= vp < 0xFE000 then 0
      else 4096 * vp + if 256 <= vp < data then 1 else 3
  {
    assert KernelPte(data, 4, vp) == if 0xFE000 <= vp then Entry(vp, PTE_W + PTE_P) else KernelPte(data, 3, vp);
    assert KernelPte(data, 3, vp) == if data <= vp < NPAGES then Entry(vp, PTE_W + PTE_P) else KernelPte(data, 2, vp);
    assert KernelPte(data, 2, vp) == if 256 <= vp < data then Entry(vp, PTE_P) else KernelPte(data, 1, vp);
    assert KernelPte(data, 1, vp) == if USERPAGES <= vp < 256 then Entry(vp, PTE_W + PTE_P) else KernelPte(data, 0, vp);
  }

  /** Rows do not overlap. */
  lemma {:induction false} RowsApart(data: nat, j: nat, k: nat, vp: nat)
    requires j <= k < KMAPS && 256 < data < NPAGES && Kmap(data, k).lo <= vp < Kmap(data, k).hi
    ensures KernelPte(data, j, vp) == 0
  {
    if j > 0 {
      RowsApart(data, j - 1, k, vp);
    }
  }

  lemma RowFree(m: Mem, d: nat, data: nat, k: nat)
    requires Shape(m) && d < NPAGES && k < KMAPS && 256 < data < NPAGES && Kernel(m, d, data, k)
    ensures Unmapped(m, d, Kmap(data, k).lo, Kmap(data, k).hi - 1)
  {
    forall vp | Kmap(data, k).lo <= vp <= Kmap(data, k).hi - 1 ensures !Present(Pte(m, d, vp)) {
      RowsApart(data, k, k, vp);
    }
  }

  lemma RowBytes(data: nat, k: nat)
    requires k < KMAPS && 256 < data < NPAGES
    ensures var r := Kmap(data, k); var la := Address(r.lo); var size := Address(r.hi) - Address(r.lo);
      && 0 < size && la + size <= VPAGES * PGSIZE && la % PGSIZE == 0 && la / PGSIZE == r.lo && PageOf(la) == r.lo
      && (la + size - 1) / PGSIZE == r.hi - 1
  {
  }

  lemma RowMapped(m0: Mem, f0: set<nat>, m1: Mem, f1: set<nat>, m2: Mem, f2: set<nat>, d: nat, data: nat, k: nat)
    requires Shape(m0) && Shape(m1) && Shape(m2) && d < NPAGES && k < KMAPS && 256 < data < NPAGES
    requires Kernel(m1, d, data, k) && Built(m0, f0, m1, f1, d) && Grew(m1, f1, m2, f2, d)
    ensures Built(m0, f0, m2, f2, d)
    ensures var r := Kmap(data, k); Mapped(m1, m2, d, r.lo, r.hi, r.lo, r.perm) ==> Kernel(m2, d, data, k + 1)
  {
    hide IsTable, Pte;
  }

  /** A zeroed directory. */
  lemma NewDirectory(m: Mem, f: set<nat>, head: nat, free: seq<nat>, d: nat, lo: nat, data: nat)
    requires Shape(m) && d in f && lo <= d < NPAGES && d !in free && Set(free) == f - {d} && Chain(m, head, free, lo) && 256 < data < NPAGES
    ensures var m' := m[d := Zeros()];
      && Shape(m') && Chain(m', head, free, lo) && TablesOk(m', Set(free), d, lo) && Kernel(m', d, data, 0) && Built(m, f, m', Set(free), d)
  {
    var m' := m[d := Zeros()];
    ChainKept(m, m', head, free, lo);
    forall i | 0 <= i < ENTRIES ensures !HasTable(m', d, i) {}
  }

  lemma BuiltKeeps(m0: Mem, f0: set<nat>, m: Mem, f: set<nat>, d: nat)
    requires Shape(m0) && Shape(m) && d < NPAGES && Built(m0, f0, m, f, d)
    ensures f <= f0 && forall q :: 0 <= q < NPAGES && q !in f0 ==> m[q] == m0[q]
  {
  }

  /** The finished kernel part is an address space without user pages. */
  lemma KernelSpace(m: Mem, f: set<nat>, d: nat, lo: nat, data: nat)
    requires Shape(m) && TablesOk(m, f, d, lo) && 256 < data < NPAGES && Kernel(m, d, data, KMAPS)
    ensures Space(m, f, d, lo) && UserTable(m, d)
    ensures forall q :: !IsUser(m, d, q)
  {
    hide IsTable;
    forall vp | 0 <= vp < USERPAGES ensures !Present(Pte(m, d, vp)) {
      KernelPtes(data, vp);
    }
    KernelPtes(data, USERPAGES);
  }

  // ----- giving a whole space back -----

  /** Page q is one of the tables behind directory entries 0..i. */
  ghost predicate TableIn(m: Mem, d: nat, i: nat, q: nat)
    requires Shape(m) && d < NPAGES && i <= ENTRIES
  {
    exists j :: 0 <= j < i && HasTable(m, d, j) && TableOf(m, d, j) == q
  }

  /** The tables behind entries 0..i of d were freed, nothing else changed. */
  ghost predicate Cleared(a: Mem, fa: set<nat>, b: Mem, fb: set<nat>, d: nat, i: nat)
    requires Shape(a) && Shape(b) && d < NPAGES && i <= ENTRIES
  {
    && (forall q :: q in fb <==> q in fa || TableIn(a, d, i, q))
    && (forall q :: 0 <= q < NPAGES && !TableIn(a, d, i, q) ==> b[q] == a[q])
  }

  lemma ClearedNone(m: Mem, f: set<nat>, d: nat)
    requires Shape(m) && d < NPAGES
    ensures Cleared(m, f, m, f, d, 0)
  {
  }

  /** The next table may be freed, and freeing it makes progress. */
  lemma ClearedStep(a: Mem, fa: set<nat>, b: Mem, fb: set<nat>, d: nat, lo: nat, i: nat)
    requires Shape(a) && Shape(b) && TablesOk(a, fa, d, lo) && i < ENTRIES && Cleared(a, fa, b, fb, d, i)
    ensures b[d] == a[d]
    ensures var t := TableOf(a, d, i);
      if HasTable(a, d, i) then
        && lo <= t < NPAGES && t !in fb
        && forall page | |page| == ENTRIES :: Shape(b[t := page]) && Cleared(a, fa, b[t := page], fb + {t}, d, i + 1)
      else Cleared(a, fa, b, fb, d, i + 1)
  {
    forall q ensures TableIn(a, d, i + 1, q) <==> TableIn(a, d, i, q) || (HasTable(a, d, i) && TableOf(a, d, i) == q) {
    }
    assert !TableIn(a, d, i, d);
    if HasTable(a, d, i) {
      assert !TableIn(a, d, i, TableOf(a, d, i));
    }
  }

  /** Exactly what d owned was given back, and only that and free pages changed. */
  ghost predicate Gone(a: Mem, fa: set<nat>, b: Mem, fb: set<nat>, d: nat)
    requires Shape(a) && Shape(b) && d < NPAGES
  {
    && (forall q :: q in fb <==> q in fa || Owned(a, d, q))
    && (forall q :: 0 <= q < NPAGES && !Owned(a, d, q) ==> b[q] == a[q])
  }

  lemma ClearedAll(a: Mem, fa: set<nat>, b: Mem, fb: set<nat>, c: Mem, fc: set<nat>, d: nat, lo: nat)
    requires Shape(a) && Shape(b) && Shape(c) && TablesOk(b, fb, d, lo)
    requires Released(a, fa, b, fb, d, 0, USERPAGES) && Cleared(b, fb, c, fc, d, ENTRIES)
    ensures d !in fc
    ensures forall page | |page| == ENTRIES :: Shape(c[d := page]) && Gone(a, fa, c[d := page], fc + {d}, d)
  {
    assert !TableIn(b, d, ENTRIES, d);
    forall q ensures IsTable(b, d, q) <==> q == d || TableIn(b, d, ENTRIES, q) {}
    hide Pte, HasTable, TableOf, IsTable, TableIn;
    forall q ensures UserIn(a, d, 0, USERPAGES, q) <==> IsUser(a, d, q) {}
  }

  // ----- copying a space -----

  /** Virtual pages below i of child c hold what the parent's held in m0; the rest of c is the
      kernel part. What left the free set is owned by c, and no other page changed. */
  ghost predicate Copied(m0: Mem, f0: set<nat>, m: Mem, f: set<nat>, d: nat, c: nat, data: nat, i: nat)
    requires Shape(m0) && Shape(m) && d < NPAGES && c < NPAGES && 256 < data < NPAGES && i <= USERPAGES
  {
    && (forall vq :: 0 <= vq < i ==> CopyOf(m0, Pte(m0, d, vq), m, Pte(m, c, vq)))
    && (forall vq :: i <= vq < VPAGES ==> Pte(m, c, vq) == KernelPte(data, KMAPS, vq))
    && (forall q :: q in f0 <==> q in f || Owned(m, c, q))
    && (forall q :: 0 <= q < NPAGES && q !in f0 ==> m[q] == m0[q])
  }

  /** The child's word maps, user-writable, a page with the contents of the parent's page. */
  ghost predicate CopyOf(m0: Mem, w0: nat, m: Mem, w: nat)
    requires Shape(m0) && Shape(m)
  {
    w % 4096 == 7 && PageOf(w0) < NPAGES && PageOf(w) < NPAGES && m[PageOf(w)] == m0[PageOf(w0)]
  }

  lemma CopiedNone(m0: Mem, f0: set<nat>, m: Mem, f: set<nat>, d: nat, c: nat, lo: nat, data: nat)
    requires Shape(m0) && Shape(m) && d < NPAGES && TablesOk(m, f, c, lo) && 256 < data < NPAGES
    requires Kernel(m, c, data, KMAPS) && Built(m0, f0, m, f, c)
    ensures Copied(m0, f0, m, f, d, c, data, 0)
  {
    KernelSpace(m, f, c, lo, data);
    hide IsTable, IsUser, Pte, KernelPte;
  }

  /** The parent is untouched while pages that were free change hands. */
  lemma ParentKept(m0: Mem, f0: set<nat>, m: Mem, f: set<nat>, d: nat, lo: nat)
    requires Shape(m0) && Shape(m) && Space(m0, f0, d, lo) && UserTable(m0, d) && f <= f0
    requires forall q :: 0 <= q < NPAGES && q !in f0 ==> m[q] == m0[q]
    ensures Space(m, f, d, lo) && UserTable(m, d) && SamePtes(m0, m, d)
    ensures forall q :: Owned(m, d, q) <==> Owned(m0, d, q)
  {
    forall q | q in f0 ensures !Owned(m0, d, q) {
      FreeNotOwned(m0, f0, d, lo, q);
    }
    forall q | 0 <= q < NPAGES && IsTable(m0, d, q) ensures Same(m0, m, q) {
      assert Owned(m0, d, q);
    }
    assert IsTable(m0, d, d);
    assert Same(m0, m, d);
    SpaceKept(m0, m, f0, f, d, lo);
    SameTables(m0, m, f0, d, lo);
  }

  lemma GaveCopied(m0: Mem, f0: set<nat>, m1: Mem, f1: set<nat>, m2: Mem, f2: set<nat>, d: nat, c: nat, lo: nat, data: nat, i: nat, p: nat)
    requires Shape(m0) && Shape(m1) && Shape(m2) && d < NPAGES && c < NPAGES && p < NPAGES && 256 < data < NPAGES && i < USERPAGES
    requires Copied(m0, f0, m1, f1, d, c, data, i) && Gave(m1, f1, m2, f2, c, i, p) && UserOk(m1, f1, c, lo)
    requires PageOf(Pte(m0, d, i)) < NPAGES && m2[p] == m0[PageOf(Pte(m0, d, i))]
    ensures Copied(m0, f0, m2, f2, d, c, data, i + 1)
  {
    KernelPtes(data, i);
    hide IsTable, Pte, KernelPte, IsUser;
    forall q ensures Owned(m2, c, q) <==> Owned(m1, c, q) || q == p {
      GaveUser(m1, f1, m2, f2, c, i, p, q);
    }
    forall vq | 0 <= vq < i ensures CopyOf(m0, Pte(m0, d, vq), m2, Pte(m2, c, vq)) {
      assert CopyOf(m0, Pte(m0, d, vq), m1, Pte(m1, c, vq));
      FlagsPresent(Pte(m1, c, vq));
      var q := PageOf(Pte(m1, c, vq));
      assert q !in f1 && q != p && !IsTable(m1, c, q);
      assert m2[q] == m1[q];
    }
    assert CopyOf(m0, Pte(m0, d, i), m2, Pte(m2, c, i));
  }

  lemma GaveUser(a: Mem, fa: set<nat>, b: Mem, fb: set<nat>, d: nat, vp: nat, p: nat, q: nat)
    requires Shape(a) && Shape(b) && d < NPAGES && vp < USERPAGES && Gave(a, fa, b, fb, d, vp, p) && !Present(Pte(a, d, vp))
    ensures IsUser(b, d, q) <==> IsUser(a, d, q) || q == p
  {
    hide IsTable, Pte, Shape;
    FlagsPresent(Entry(p, PTE_P + PTE_W + PTE_U));
    assert Present(Pte(b, d, vp)) && PageOf(Pte(b, d, vp)) == p;
    if vq :| 0 <= vq < USERPAGES && Present(Pte(a, d, vq)) && PageOf(Pte(a, d, vq)) == q {
      assert Present(Pte(b, d, vq)) && PageOf(Pte(b, d, vq)) == q;
    }
    if vq :| 0 <= vq < USERPAGES && Present(Pte(b, d, vq)) && PageOf(Pte(b, d, vq)) == q && vq != vp {
      assert Present(Pte(a, d, vq)) && PageOf(Pte(a, d, vq)) == q;
    }
  }

  /** Pages that were not free are as before; the free set too when `whole`. */
  ghost predicate Back(m0: Mem, f0: set<nat>, m: Mem, f: set<nat>, whole: bool)
    requires Shape(m0) && Shape(m)
  {
    f <= f0 && (whole ==> f == f0) && forall q :: 0 <= q < NPAGES && q !in f0 ==> m[q] == m0[q]
  }

  /** Every virtual page below hi is mapped. */
  ghost predicate Populated(m: Mem, d: nat, hi: nat)
    requires Shape(m) && d < NPAGES && hi <= USERPAGES
  {
    forall vq :: 0 <= vq < hi ==> Present(Pte(m, d, vq))
  }

  /** Where page i of the parent is found while the copy is under way. */
  lemma ParentWord(m0: Mem, f0: set<nat>, m: Mem, f: set<nat>, d: nat, c: nat, lo: nat, data: nat, i: nat, hi: nat)
    requires Shape(m0) && Shape(m) && Space(m0, f0, d, lo) && UserTable(m0, d) && TablesOk(m, f, c, lo) && 256 < data < NPAGES
    requires i < hi <= USERPAGES && Copied(m0, f0, m, f, d, c, data, i) && Populated(m0, d, hi)
    ensures UserTable(m, d) && Pte(m, d, i) == Pte(m0, d, i) && PageOf(Pte(m0, d, i)) < NPAGES
    ensures m[PageOf(Pte(m0, d, i))] == m0[PageOf(Pte(m0, d, i))] && !Present(Pte(m, c, i))
  {
    assert f <= f0;
    ParentKept(m0, f0, m, f, d, lo);
    KernelPtes(data, i);
    hide IsTable, Pte, KernelPte, IsUser;
  }

  lemma CopyStep(m0: Mem, f0: set<nat>, m1: Mem, f1: set<nat>, m2: Mem, f2: set<nat>, d: nat, c: nat, lo: nat, data: nat, i: nat, p: nat, page: seq<nat>)
    requires Shape(m0) && Shape(m1) && Shape(m2) && Space(m0, f0, d, lo) && UserTable(m0, d) && 256 < data < NPAGES && i < USERPAGES
    requires Space(m1, f1, c, lo) && UserTable(m1, c) && Copied(m0, f0, m1, f1, d, c, data, i) && |page| == ENTRIES
    requires p in f1 && f2 == f1 - {p} && lo <= p < NPAGES && Shape(m1[p := page])
    requires TablesOk(m2, f2, c, lo) && Grew(m1[p := page], f2, m2, f2, c) && Mapped(m1[p := page], m2, c, i, i + 1, p, PTE_W + PTE_U)
    requires PageOf(Pte(m0, d, i)) < NPAGES && page == m0[PageOf(Pte(m0, d, i))]
    ensures Space(m2, f2, c, lo) && UserTable(m2, c) && Copied(m0, f0, m2, f2, d, c, data, i + 1)
    ensures Space(m2, f2, d, lo) && UserTable(m2, d)
  {
    GaveOne(m1, f1, m1[p := page], m2, f2, c, lo, i, p, page);
    assert UserTable(m2, c);
    hide IsTable, Pte, Mapped, Grew, TablesOk, KernelPte, Copied;
    GaveSpace(m1, f1, m2, f2, c, lo, i, p);
    GaveCopied(m0, f0, m1, f1, m2, f2, d, c, lo, data, i, p);
    CopiedKeeps(m0, f0, m2, f2, d, c, data, i + 1);
    ParentKept(m0, f0, m2, f2, d, lo);
  }

  lemma CopiedKeeps(m0: Mem, f0: set<nat>, m: Mem, f: set<nat>, d: nat, c: nat, data: nat, i: nat)
    requires Shape(m0) && Shape(m) && d < NPAGES && c < NPAGES && 256 < data < NPAGES && i <= USERPAGES
    requires Copied(m0, f0, m, f, d, c, data, i)
    ensures f <= f0 && forall q :: 0 <= q < NPAGES && q !in f0 ==> m[q] == m0[q]
  {
  }

  lemma ChildGone(m0: Mem, f0: set<nat>, m1: Mem, f1: set<nat>, m2: Mem, f2: set<nat>, d: nat, c: nat, data: nat, i: nat)
    requires Shape(m0) && Shape(m1) && Shape(m2) && d < NPAGES && c < NPAGES && 256 < data < NPAGES && i <= USERPAGES
    requires Copied(m0, f0, m1, f1, d, c, data, i) && Gone(m1, f1, m2, f2, c)
    ensures Back(m0, f0, m2, f2, true) && f2 == f0
    ensures forall q :: 0 <= q < NPAGES && q !in f0 ==> m2[q] == m0[q]
  {
    hide Owned, Pte, KernelPte, CopyOf;
  }

  /** Parent and child: equal contents on disjoint pages. */
  lemma CopyAgrees(m0: Mem, f0: set<nat>, m: Mem, f: set<nat>, d: nat, c: nat, lo: nat, data: nat, hi: nat)
    requires Shape(m0) && Shape(m) && Space(m0, f0, d, lo) && UserTable(m0, d) && c < NPAGES && 256 < data < NPAGES && hi <= USERPAGES
    requires Copied(m0, f0, m, f, d, c, data, hi) && Populated(m0, d, hi)
    ensures forall q :: Owned(m, c, q) ==> !Owned(m, d, q)
    ensures forall vq :: 0 <= vq < hi ==> CopyOf(m, Pte(m, d, vq), m, Pte(m, c, vq))
  {
    ParentKept(m0, f0, m, f, d, lo);
    forall q | q in f0 ensures !Owned(m0, d, q) {
      FreeNotOwned(m0, f0, d, lo, q);
    }
    hide IsTable, Pte, KernelPte, IsUser;
    forall vq | 0 <= vq < hi ensures CopyOf(m, Pte(m, d, vq), m, Pte(m, c, vq)) {
      assert CopyOf(m0, Pte(m0, d, vq), m, Pte(m, c, vq)) && Present(Pte(m0, d, vq));
    }
  }

  // ----- what the kernel part costs -----

  /** The directory entries that kmap needs: four for memory below PHYSTOP, eight for devices. */
  ghost function KernelTables(): (r: set<int>)
    ensures |r| == 12 && forall i :: i in r <==> 0 <= i < 4 || 1016 <= i < 1024
  {
    {0, 1, 2, 3} + {1016, 1017, 1018, 1019, 1020, 1021, 1022, 1023}
  }

  /** setupkvm takes the directory and one page for each of its tables. */
  const KERNELPAGES := 13

  /** Of n free pages the directory and the tables were taken, none of them needlessly. */
  ghost predicate Tally(m: Mem, d: nat, left: nat, n: nat)
    requires Shape(m) && d < NPAGES
  {
    TableSet(m, d) <= KernelTables() && left + 1 + |TableSet(m, d)| == n
  }

  lemma TallyNone(m: Mem, d: nat, left: nat)
    requires Shape(m) && d < NPAGES && m[d] == Zeros()
    ensures Tally(m, d, left, left + 1)
  {
    assert TableSet(m, d) == {};
  }

  lemma TallyRow(a: Mem, na: nat, b: Mem, nb: nat, d: nat, data: nat, k: nat, n: nat)
    requires Shape(a) && Shape(b) && d < NPAGES && 256 < data < NPAGES && k < KMAPS && Tally(a, d, na, n)
    requires Paid(a, na, b, nb, d, Kmap(data, k).lo / ENTRIES, (Kmap(data, k).hi - 1) / ENTRIES)
    ensures Tally(b, d, nb, n)
    ensures nb == 0 && Lacks(b, d, Kmap(data, k).lo / ENTRIES, (Kmap(data, k).hi - 1) / ENTRIES) ==> n < KERNELPAGES
  {
    RowIndices(data, k);
    hide TableSet, Kmap;
    if i :| Kmap(data, k).lo / ENTRIES <= i <= (Kmap(data, k).hi - 1) / ENTRIES && i !in TableSet(b, d) {
      SubsetSize(TableSet(b, d), KernelTables() - {i});
    }
  }

  lemma RowIndices(data: nat, k: nat)
    requires 256 < data < NPAGES && k < KMAPS
    ensures forall i :: Kmap(data, k).lo / ENTRIES <= i <= (Kmap(data, k).hi - 1) / ENTRIES ==> i in KernelTables()
  {
  }

  /** With all four rows mapped, every one of the twelve tables exists. */
  lemma TallyAll(m: Mem, d: nat, data: nat, left: nat, n: nat)
    requires Shape(m) && d < NPAGES && 256 < data < NPAGES && Kernel(m, d, data, KMAPS) && Tally(m, d, left, n)
    ensures left + KERNELPAGES == n
  {
    forall i | i in KernelTables() ensures i in TableSet(m, d) {
      var vp := i * ENTRIES + 512;
      KernelPtes(data, vp);
      assert vp / ENTRIES == i;
    }
    assert TableSet(m, d) == KernelTables();
  }
}
