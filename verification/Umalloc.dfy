/** The user-level allocator (user/umalloc.c): the circular, address-ordered, coalescing free
    list of Kernighan and Ritchie, section 8.7. Addresses count header-sized units. */
module Umalloc {
  import opened Wrappers
  import opened Sets

  /** A free block: the address of its header and its size, both in units. */
  datatype Block = Block(addr: nat, size: nat)

  // ----- free lists as sequences -----

  /** Unit u lies in one of the blocks. */
  ghost predicate Covers(list: seq<Block>, u: nat) {
    exists i :: 0 <= i < |list| && list[i].addr <= u < list[i].addr + list[i].size
  }

  /** Address order, with a gap of at least one unit between neighbours; only the first block
      (the static `base`) is empty. */
  ghost predicate Ordered(list: seq<Block>) {
    && (forall i, j :: 0 <= i < j < |list| ==> list[i].addr + list[i].size < list[j].addr)
    && (forall i :: 0 < i < |list| ==> 0 < list[i].size)
  }

  /** The list index after which a block at this address belongs. */
  ghost predicate GapAt(list: seq<Block>, t: nat, b: Block) {
    && t < |list| && 0 < b.size
    && list[t].addr + list[t].size <= b.addr && list[t].addr < b.addr
    && (t + 1 < |list| ==> b.addr + b.size <= list[t + 1].addr)
  }

  /** The list with b put in after index t, joined to a neighbour it touches. */
  function Insert(list: seq<Block>, t: nat, b: Block): seq<Block>
    requires t < |list|
  {
    var joins := t + 1 < |list| && b.addr + b.size == list[t + 1].addr;
    var b' := if joins then Block(b.addr, b.size + list[t + 1].size) else b;
    var rest := if joins then list[t + 2..] else list[t + 1..];
    if list[t].addr + list[t].size == b.addr
    then list[..t] + [Block(list[t].addr, list[t].size + b'.size)] + rest
    else list[..t + 1] + [b'] + rest
  }

  lemma CoversConcat(a: seq<Block>, b: seq<Block>, u: nat)
    ensures Covers(a + b, u) <==> Covers(a, u) || Covers(b, u)
  {
    if Covers(a, u) {
      var i :| 0 <= i < |a| && a[i].addr <= u < a[i].addr + a[i].size;
      assert (a + b)[i] == a[i];
    }
    if Covers(b, u) {
      var i :| 0 <= i < |b| && b[i].addr <= u < b[i].addr + b[i].size;
      assert (a + b)[|a| + i] == b[i];
    }
  }

  lemma CoversOne(b: Block, u: nat)
    ensures Covers([b], u) <==> b.addr <= u < b.addr + b.size
  {
    assert [b][0] == b;
  }

  /** Coverage of a list cut at index t. */
  lemma CoversCut(list: seq<Block>, t: nat, u: nat)
    requires t < |list|
    ensures Covers(list, u) <==>
      Covers(list[..t], u) || list[t].addr <= u < list[t].addr + list[t].size || Covers(list[t + 1..], u)
  {
    assert list == list[..t] + ([list[t]] + list[t + 1..]);
    CoversConcat(list[..t], [list[t]] + list[t + 1..], u);
    CoversConcat([list[t]], list[t + 1..], u);
    CoversOne(list[t], u);
  }

  lemma CoversAround(a: seq<Block>, b: Block, c: seq<Block>, u: nat)
    ensures Covers(a + [b] + c, u) <==> Covers(a, u) || b.addr <= u < b.addr + b.size || Covers(c, u)
  {
    CoversConcat(a + [b], c, u);
    CoversConcat(a, [b], u);
    CoversOne(b, u);
  }

  lemma InsertCovers(list: seq<Block>, t: nat, b: Block, u: nat)
    requires Ordered(list) && GapAt(list, t, b)
    ensures Covers(Insert(list, t, b), u) <==> Covers(list, u) || b.addr <= u < b.addr + b.size
  {
    hide Covers, Ordered;
    var joins := t + 1 < |list| && b.addr + b.size == list[t + 1].addr;
    var b' := if joins then Block(b.addr, b.size + list[t + 1].size) else b;
    var rest := if joins then list[t + 2..] else list[t + 1..];
    CoversCut(list, t, u);
    if joins {
      CoversCut(list[t + 1..], 0, u);
      assert list[t + 1..][1..] == rest && list[t + 1..][..0] == [];
      CoversEmpty(u);
    }
    if list[t].addr + list[t].size == b.addr {
      CoversAround(list[..t], Block(list[t].addr, list[t].size + b'.size), rest, u);
    } else {
      CoversAround(list[..t + 1], b', rest, u);
      assert list[..t + 1] == list[..t] + [list[t]];
      CoversConcat(list[..t], [list[t]], u);
      CoversOne(list[t], u);
    }
  }

  lemma CoversEmpty(u: nat)
    ensures !Covers([], u)
  {
  }

  /** Pasting ordered pieces: every block of a ends before every block of b starts. */
  lemma OrderedConcat(a: seq<Block>, b: seq<Block>)
    requires Ordered(a) && Ordered(b) && a != [] && (b != [] ==> 0 < b[0].size)
    requires b != [] ==> a[|a| - 1].addr + a[|a| - 1].size < b[0].addr
    ensures Ordered(a + b)
  {
    forall i, j | 0 <= i < |a| && 0 <= j < |b| ensures a[i].addr + a[i].size < b[j].addr {
    }
  }

  lemma OrderedPieces(list: seq<Block>, t: nat)
    requires Ordered(list) && t <= |list|
    ensures Ordered(list[..t]) && Ordered(list[t..])
    ensures 0 < t < |list| ==> 0 < list[t].size && list[t - 1].addr + list[t - 1].size < list[t].addr
  {
  }

  /** The piece that follows b after insertion at t. */
  lemma InsertRest(list: seq<Block>, t: nat, b: Block, rest: seq<Block>, b': Block)
    requires Ordered(list) && GapAt(list, t, b)
    requires var joins := t + 1 < |list| && b.addr + b.size == list[t + 1].addr;
      && b' == (if joins then Block(b.addr, b.size + list[t + 1].size) else b)
      && rest == if joins then list[t + 2..] else list[t + 1..]
    ensures Ordered(rest) && (rest != [] ==> 0 < rest[0].size && b'.addr + b'.size < rest[0].addr)
  {
  }

  lemma InsertOrdered(list: seq<Block>, t: nat, b: Block)
    requires Ordered(list) && GapAt(list, t, b) && list[0].size == 0
    ensures Ordered(Insert(list, t, b))
  {
    var joins := t + 1 < |list| && b.addr + b.size == list[t + 1].addr;
    var b' := if joins then Block(b.addr, b.size + list[t + 1].size) else b;
    var rest := if joins then list[t + 2..] else list[t + 1..];
    hide Ordered, Insert;
    InsertRest(list, t, b, rest, b');
    InsertShape(list, t, b, rest, b');
    if list[t].addr + list[t].size == b.addr {
      assert 0 < t;
      OrderedPieces(list, t);
      OrderedAround(list[..t], Block(list[t].addr, list[t].size + b'.size), rest);
    } else {
      OrderedPieces(list, t + 1);
      OrderedAround(list[..t + 1], b', rest);
    }
  }

  lemma InsertShape(list: seq<Block>, t: nat, b: Block, rest: seq<Block>, b': Block)
    requires t < |list|
    requires var joins := t + 1 < |list| && b.addr + b.size == list[t + 1].addr;
      && b' == (if joins then Block(b.addr, b.size + list[t + 1].size) else b)
      && rest == if joins then list[t + 2..] else list[t + 1..]
    ensures Insert(list, t, b) ==
      if list[t].addr + list[t].size == b.addr then list[..t] + [Block(list[t].addr, list[t].size + b'.size)] + rest
      else list[..t + 1] + [b'] + rest
  {
  }

  lemma InsertHead(list: seq<Block>, t: nat, b: Block)
    requires Ordered(list) && GapAt(list, t, b) && list[0].size == 0
    ensures |Insert(list, t, b)| > 0 && Insert(list, t, b)[0] == list[0]
    ensures t < |Insert(list, t, b)| && Insert(list, t, b)[t].addr == list[t].addr
  {
  }

  lemma OrderedAround(a: seq<Block>, b: Block, c: seq<Block>)
    requires Ordered(a) && a != [] && 0 < b.size && a[|a| - 1].addr + a[|a| - 1].size < b.addr
    requires Ordered(c) && (c != [] ==> 0 < c[0].size && b.addr + b.size < c[0].addr)
    ensures Ordered(a + [b] + c)
  {
    OrderedConcat(a, [b]);
    OrderedConcat(a + [b], c);
  }

  /** The list after taking n units from the end of block i. */
  function Carve(list: seq<Block>, i: nat, n: nat): seq<Block>
    requires i < |list| && n <= list[i].size
  {
    if list[i].size == n then list[..i] + list[i + 1..]
    else list[i := Block(list[i].addr, list[i].size - n)]
  }

  lemma CarveOrdered(list: seq<Block>, i: nat, n: nat)
    requires Ordered(list) && 0 < i < |list| && 0 < n <= list[i].size
    ensures Ordered(Carve(list, i, n)) && |Carve(list, i, n)| > 0 && Carve(list, i, n)[0] == list[0]
  {
  }

  lemma CarveCovers(list: seq<Block>, i: nat, n: nat, u: nat)
    requires Ordered(list) && 0 < i < |list| && 0 < n <= list[i].size
    ensures var a := list[i].addr + list[i].size - n;
      Covers(Carve(list, i, n), u) <==> Covers(list, u) && !(a <= u < a + n)
  {
    hide Covers;
    CoversCut(list, i, u);
    CarveApart(list, i, u);
    if list[i].size == n {
      CoversConcat(list[..i], list[i + 1..], u);
    } else {
      var b := Block(list[i].addr, list[i].size - n);
      assert list[i := b] == list[..i] + [b] + list[i + 1..];
      CoversAround(list[..i], b, list[i + 1..], u);
    }
  }

  lemma CarveApart(list: seq<Block>, i: nat, u: nat)
    requires Ordered(list) && i < |list|
    ensures list[i].addr <= u < list[i].addr + list[i].size ==> !Covers(list[..i], u) && !Covers(list[i + 1..], u)
  {
  }

  // ----- a free list is determined by the units it covers -----

  lemma TailCovers(list: seq<Block>, u: nat)
    requires Ordered(list) && list != [] && 0 < list[0].size
    ensures Ordered(list[1..])
    ensures Covers(list[1..], u) <==> Covers(list, u) && !(list[0].addr <= u < list[0].addr + list[0].size)
  {
    if Covers(list, u) && !(list[0].addr <= u < list[0].addr + list[0].size) {
      var k :| 0 <= k < |list| && list[k].addr <= u < list[k].addr + list[k].size;
      assert list[1..][k - 1] == list[k];
    }
    if Covers(list[1..], u) {
      var k :| 0 <= k < |list[1..]| && list[1..][k].addr <= u < list[1..][k].addr + list[1..][k].size;
      assert list[k + 1] == list[1..][k];
    }
  }

  lemma FirstCovered(list: seq<Block>)
    requires Ordered(list) && list != [] && 0 < list[0].size
    ensures Covers(list, list[0].addr) && !Covers(list, list[0].addr + list[0].size)
    ensures Covers(list, list[0].addr + list[0].size - 1)
    ensures forall u :: Covers(list, u) ==> list[0].addr <= u
    ensures forall u :: list[0].addr <= u < list[0].addr + list[0].size ==> Covers(list, u)
  {
    assert list[0].addr <= list[0].addr < list[0].addr + list[0].size;
  }

  /** Two ordered, coalesced lists of non-empty blocks that cover the same units are equal. */
  lemma {:induction false} ListIsCanonical(x: seq<Block>, y: seq<Block>)
    requires Ordered(x) && Ordered(y)
    requires (x != [] ==> 0 < x[0].size) && (y != [] ==> 0 < y[0].size)
    requires forall u: nat :: Covers(x, u) <==> Covers(y, u)
    ensures x == y
    decreases |x|
  {
    if x == [] {
      if y != [] {
        FirstCovered(y);
      }
    } else {
      FirstCovered(x);
      if y != [] {
        FirstCovered(y);
        assert Covers(y, x[0].addr) && Covers(x, y[0].addr);
        assert x[0].addr == y[0].addr;
        assert !Covers(y, x[0].addr + x[0].size) && !Covers(x, y[0].addr + y[0].size);
        assert x[0] == y[0];
        forall u: nat ensures Covers(x[1..], u) <==> Covers(y[1..], u) {
          TailCovers(x, u);
          TailCovers(y, u);
        }
        TailCovers(x, 0);
        TailCovers(y, 0);
        ListIsCanonical(x[1..], y[1..]);
      }
    }
  }

  // ----- the linked ring -----

  function Succ(list: seq<Block>, i: nat): nat
    requires i < |list|
  {
    if i + 1 < |list| then list[i + 1].addr else list[0].addr
  }

  ghost predicate NodeOk(list: seq<Block>, next: map<nat, nat>, size: map<nat, nat>, i: nat)
    requires i < |list|
  {
    var a := list[i].addr;
    a in next && a in size && size[a] == list[i].size && next[a] == Succ(list, i)
  }

  /** The headers in memory form exactly the ring of the list. */
  ghost predicate Ring(list: seq<Block>, next: map<nat, nat>, size: map<nat, nat>) {
    forall i :: 0 <= i < |list| ==> NodeOk(list, next, size, i)
  }

  /** The stop test of the search loop in free holds at exactly the gap of the block. */
  lemma StopsAtGap(list: seq<Block>, t: nat, b: Block, i: nat)
    requires Ordered(list) && GapAt(list, t, b) && i < |list|
    ensures var p, q := list[i].addr, Succ(list, i);
      i == t <==> (b.addr > p && b.addr < q) || (p >= q && (b.addr > p || b.addr < q))
  {
  }

  lemma GapExists(list: seq<Block>, b: Block, n: nat) returns (t: nat)
    requires Ordered(list) && 0 < n <= |list| && 0 < b.size && list[0].addr < b.addr && list[0].size == 0
    requires forall u :: b.addr <= u < b.addr + b.size ==> !Covers(list, u)
    requires n < |list| ==> b.addr < list[n].addr
    ensures GapAt(list, t, b)
  {
    var i := n - 1;
    if b.addr < list[i].addr {
      t := GapExists(list, b, i);
    } else {
      t := i;
      assert list[i].addr <= b.addr < list[i].addr + list[i].size ==> Covers(list, b.addr);
      assert i + 1 < |list| ==> Covers(list, list[i + 1].addr);
    }
  }

  /** The four header updates at the end of free, as one change of the two fields. */
  function FreeNext(next: map<nat, nat>, size: map<nat, nat>, p: nat, bp: nat): map<nat, nat>
    requires p in next && bp in size && p in size && next[p] in next
  {
    var q := next[p];
    var n1 := next[bp := if bp + size[bp] == q then next[q] else q];
    n1[p := if p + size[p] == bp then n1[bp] else bp]
  }

  function FreeSize(next: map<nat, nat>, size: map<nat, nat>, p: nat, bp: nat): map<nat, nat>
    requires p in next && bp in size && p in size && next[p] in size
  {
    var q := next[p];
    var s1 := if bp + size[bp] == q then size[bp := size[bp] + size[q]] else size;
    if p + size[p] == bp then s1[p := size[p] + s1[bp]] else s1
  }

  lemma NotListed(list: seq<Block>, t: nat, b: Block, i: nat)
    requires Ordered(list) && GapAt(list, t, b) && i < |list|
    ensures list[i].addr != b.addr && (list[i].addr == list[t].addr <==> i == t)
    ensures i > t ==> b.addr + b.size <= list[i].addr
  {
  }

  ghost predicate FreeReady(list: seq<Block>, t: nat, b: Block, next: map<nat, nat>, size: map<nat, nat>) {
    && Ordered(list) && GapAt(list, t, b) && list[0].size == 0 && Ring(list, next, size)
    && b.addr in size && size[b.addr] == b.size
    && NodeOk(list, next, size, t) && Succ(list, t) in next && Succ(list, t) in size
  }

  /** Nodes other than p and bp keep their headers. */
  lemma FreeKeeps(list: seq<Block>, t: nat, b: Block, next: map<nat, nat>, size: map<nat, nat>, i: nat)
    requires FreeReady(list, t, b, next, size) && i < |list| && i != t
    ensures var p := list[t].addr; var a := list[i].addr;
      && a in next && a in size
      && a in FreeNext(next, size, p, b.addr) && FreeNext(next, size, p, b.addr)[a] == next[a] == Succ(list, i)
      && a in FreeSize(next, size, p, b.addr) && FreeSize(next, size, p, b.addr)[a] == size[a] == list[i].size
  {
    assert NodeOk(list, next, size, i);
    NotListed(list, t, b, i);
  }

  lemma NodeBefore(list: seq<Block>, t: nat, b: Block, next: map<nat, nat>, size: map<nat, nat>, k: nat)
    requires FreeReady(list, t, b, next, size) && k < t
    ensures k < |Insert(list, t, b)|
    ensures NodeOk(Insert(list, t, b), FreeNext(next, size, list[t].addr, b.addr), FreeSize(next, size, list[t].addr, b.addr), k)
  {
    FreeKeeps(list, t, b, next, size, k);
    InsertHead(list, t, b);
    hide Ring, Ordered, FreeNext, FreeSize;
    var r := Insert(list, t, b);
    assert r[k] == list[k] && r[k + 1].addr == list[k + 1].addr;
  }

  lemma NodeAfter(list: seq<Block>, t: nat, b: Block, next: map<nat, nat>, size: map<nat, nat>, i: nat, k: nat)
    requires FreeReady(list, t, b, next, size) && t < i < |list|
    requires var joinsR := t + 1 < |list| && b.addr + b.size == list[t + 1].addr;
      (joinsR ==> i > t + 1) &&
      k == i + (if list[t].addr + list[t].size == b.addr then 0 else 1) - (if joinsR then 1 else 0)
    ensures k < |Insert(list, t, b)|
    ensures NodeOk(Insert(list, t, b), FreeNext(next, size, list[t].addr, b.addr), FreeSize(next, size, list[t].addr, b.addr), k)
  {
    FreeKeeps(list, t, b, next, size, i);
    InsertHead(list, t, b);
    hide Ring, Ordered, FreeNext, FreeSize;
    var r := Insert(list, t, b);
    assert r[k] == list[i];
    assert i + 1 < |list| ==> r[k + 1] == list[i + 1];
  }

  /** The headers of p and of bp after free. */
  lemma NodeHere(list: seq<Block>, t: nat, b: Block, next: map<nat, nat>, size: map<nat, nat>)
    requires FreeReady(list, t, b, next, size)
    ensures t < |Insert(list, t, b)|
    ensures NodeOk(Insert(list, t, b), FreeNext(next, size, list[t].addr, b.addr), FreeSize(next, size, list[t].addr, b.addr), t)
    ensures list[t].addr + list[t].size != b.addr ==>
      t + 1 < |Insert(list, t, b)| &&
      NodeOk(Insert(list, t, b), FreeNext(next, size, list[t].addr, b.addr), FreeSize(next, size, list[t].addr, b.addr), t + 1)
  {
    var joinsR := t + 1 < |list| && b.addr + b.size == list[t + 1].addr;
    if t + 1 < |list| {
      assert NodeOk(list, next, size, t + 1);
    }
    NotListed(list, t, b, 0);
    NotListed(list, t, b, t);
    InsertHead(list, t, b);
    hide Ring, Ordered;
    assert joinsR <==> b.addr + b.size == Succ(list, t);
  }

  /** free rewrites the ring into the ring of the list with the block inserted. */
  lemma InsertRing(list: seq<Block>, t: nat, b: Block, next: map<nat, nat>, size: map<nat, nat>)
    requires FreeReady(list, t, b, next, size)
    ensures Ring(Insert(list, t, b), FreeNext(next, size, list[t].addr, b.addr), FreeSize(next, size, list[t].addr, b.addr))
  {
    var next', size' := FreeNext(next, size, list[t].addr, b.addr), FreeSize(next, size, list[t].addr, b.addr);
    hide FreeNext, FreeSize, NodeOk;
    var r := Insert(list, t, b);
    var joinsL := list[t].addr + list[t].size == b.addr;
    var joinsR := t + 1 < |list| && b.addr + b.size == list[t + 1].addr;
    forall k | 0 <= k < |r|
      ensures NodeOk(r, next', size', k)
    {
      if k < t {
        NodeBefore(list, t, b, next, size, k);
      } else if k == t || (k == t + 1 && !joinsL) {
        NodeHere(list, t, b, next, size);
      } else {
        NodeAfter(list, t, b, next, size, k - (if joinsL then 0 else 1) + (if joinsR then 1 else 0), k);
      }
    }
  }

  // ----- taking a block out of the ring -----

  /** On an exact fit the node before p skips it. */
  function TakeNext(next: map<nat, nat>, size: map<nat, nat>, prev: nat, p: nat, n: nat): map<nat, nat>
    requires p in next && p in size
  {
    if size[p] == n then next[prev := next[p]] else next
  }

  /** The size fields after splitting the tail off a larger block. */
  function TakeSize(size: map<nat, nat>, p: nat, n: nat): map<nat, nat>
    requires p in size && n <= size[p]
  {
    if size[p] == n then size else size[p := size[p] - n][p + size[p] - n := n]
  }

  ghost predicate TakeReady(list: seq<Block>, i: nat, n: nat, next: map<nat, nat>, size: map<nat, nat>) {
    && Ordered(list) && 0 < i < |list| && 0 < n <= list[i].size && Ring(list, next, size)
    && NodeOk(list, next, size, i) && NodeOk(list, next, size, i - 1)
  }

  lemma TakeWhole(list: seq<Block>, i: nat, n: nat, next: map<nat, nat>, size: map<nat, nat>, k: nat)
    requires TakeReady(list, i, n, next, size) && k < |list| && list[i].size == n && k != i
    ensures var k' := if k > i then k - 1 else k;
      k' < |Carve(list, i, n)| && NodeOk(Carve(list, i, n), TakeNext(next, size, list[i - 1].addr, list[i].addr, n), size, k')
  {
    assert NodeOk(list, next, size, k);
    Apart(list, i - 1, k);
    Apart(list, i, 0);
    CutSucc(list, i, k);
    hide Ordered, Ring, Succ;
  }

  /** Successors once block i is cut out. */
  lemma CutSucc(list: seq<Block>, i: nat, k: nat)
    requires 0 < i < |list| && k < |list| && k != i
    ensures var r := list[..i] + list[i + 1..]; var k' := if k > i then k - 1 else k;
      && k' < |r| && r[k'] == list[k]
      && Succ(r, k') == if k == i - 1 then Succ(list, i) else Succ(list, k)
  {
    var r := list[..i] + list[i + 1..];
    var k' := if k > i then k - 1 else k;
    if k == i - 1 {
      assert i + 1 < |list| ==> r[i] == list[i + 1];
    } else {
      assert k' + 1 < |r| ==> r[k' + 1] == list[k + 1];
    }
  }

  lemma TakePart(list: seq<Block>, i: nat, n: nat, next: map<nat, nat>, size: map<nat, nat>, k: nat)
    requires TakeReady(list, i, n, next, size) && k < |list| && list[i].size != n
    ensures NodeOk(Carve(list, i, n), next, TakeSize(size, list[i].addr, n), k)
  {
    assert NodeOk(list, next, size, k);
    Apart(list, i, k);
    hide Ordered, Ring;
    var r := Carve(list, i, n);
    assert k + 1 < |r| ==> r[k + 1].addr == list[k + 1].addr;
  }

  lemma Apart(list: seq<Block>, i: nat, k: nat)
    requires Ordered(list) && i < |list| && k < |list|
    ensures i != k ==> list[i].addr != list[k].addr && !(list[i].addr <= list[k].addr < list[i].addr + list[i].size)
  {
  }

  lemma CarveRing(list: seq<Block>, i: nat, n: nat, next: map<nat, nat>, size: map<nat, nat>)
    requires TakeReady(list, i, n, next, size)
    ensures Ring(Carve(list, i, n), TakeNext(next, size, list[i - 1].addr, list[i].addr, n), TakeSize(size, list[i].addr, n))
  {
    var next', size' := TakeNext(next, size, list[i - 1].addr, list[i].addr, n), TakeSize(size, list[i].addr, n);
    var r := Carve(list, i, n);
    hide TakeNext, TakeSize, NodeOk;
    TakeTrivial(next, size, list[i - 1].addr, list[i].addr, n);
    forall k' | 0 <= k' < |r| ensures NodeOk(r, next', size', k') {
      if list[i].size == n {
        TakeWhole(list, i, n, next, size, if k' >= i then k' + 1 else k');
      } else {
        TakePart(list, i, n, next, size, k');
      }
    }
  }

  lemma TakeTrivial(next: map<nat, nat>, size: map<nat, nat>, prev: nat, p: nat, n: nat)
    requires p in next && p in size && n <= size[p]
    ensures size[p] == n ==> TakeSize(size, p, n) == size
    ensures size[p] != n ==> TakeNext(next, size, prev, p, n) == next
  {
  }

  // ----- live blocks -----

  ghost predicate LiveAt(live: map<nat, nat>, u: nat) {
    exists a :: a in live && a <= u < a + live[a]
  }

  ghost predicate LiveApart(live: map<nat, nat>) {
    forall a, b :: a in live && b in live && a < b ==> a + live[a] <= b
  }

  /** Every unit ever obtained is in exactly one free or live block. */
  ghost predicate Accounted(list: seq<Block>, live: map<nat, nat>, heap: set<nat>) {
    && (forall u :: u in heap <==> Covers(list, u) || LiveAt(live, u))
    && (forall u :: !(Covers(list, u) && LiveAt(live, u)))
    && LiveApart(live) && (forall a :: a in live ==> 0 < live[a])
  }

  lemma AccountedFree(list: seq<Block>, live: map<nat, nat>, heap: set<nat>, list': seq<Block>, bp: nat)
    requires Accounted(list, live, heap) && bp in live
    requires forall u: nat :: Covers(list', u) <==> Covers(list, u) || bp <= u < bp + live[bp]
    ensures Accounted(list', live - {bp}, heap)
  {
    hide Covers;
    forall u: nat ensures LiveAt(live - {bp}, u) <==> LiveAt(live, u) && !(bp <= u < bp + live[bp]) {
      if LiveAt(live, u) && !(bp <= u < bp + live[bp]) {
        var a :| a in live && a <= u < a + live[a];
        assert a in live - {bp};
      }
      if LiveAt(live - {bp}, u) {
        var a :| a in live - {bp} && a <= u < a + live[a];
        assert a in live;
      }
    }
    assert forall u :: bp <= u < bp + live[bp] ==> LiveAt(live, u);
  }

  lemma AccountedTake(list: seq<Block>, live: map<nat, nat>, heap: set<nat>, list': seq<Block>, a: nat, n: nat)
    requires Accounted(list, live, heap) && 0 < n
    requires forall u :: a <= u < a + n ==> Covers(list, u)
    requires forall u: nat :: Covers(list', u) <==> Covers(list, u) && !(a <= u < a + n)
    ensures a !in live && Accounted(list', live[a := n], heap)
  {
    hide Covers;
    assert a in live ==> LiveAt(live, a);
    LiveAdd(live, a, n);
    forall b | b in live ensures b + live[b] <= a || a + n <= b {
      assert LiveAt(live, b);
      assert b < a < b + live[b] ==> LiveAt(live, a);
    }
  }

  lemma LiveAdd(live: map<nat, nat>, a: nat, n: nat)
    requires a !in live
    ensures forall u: nat :: LiveAt(live[a := n], u) <==> LiveAt(live, u) || a <= u < a + n
  {
    var live' := live[a := n];
    forall u: nat ensures LiveAt(live', u) <==> LiveAt(live, u) || a <= u < a + n {
      if LiveAt(live, u) {
        var b :| b in live && b <= u < b + live[b];
        assert b in live' && live'[b] == live[b];
      }
      if a <= u < a + n {
        assert a in live' && live'[a] == n;
      }
    }
  }

  /** Fresh memory beyond everything obtained so far, taken as one live block. */
  lemma AccountedGrow(list: seq<Block>, live: map<nat, nat>, heap: set<nat>, a: nat, n: nat)
    requires Accounted(list, live, heap) && 0 < n && forall u :: u in heap ==> u < a
    ensures a !in live && Accounted(list, live[a := n], heap + Range(a, n))
  {
    hide Covers, Range;
    assert a in live ==> LiveAt(live, a);
    LiveAdd(live, a, n);
    forall b | b in live ensures b + live[b] <= a {
      assert LiveAt(live, b + live[b] - 1);
    }
  }

  // ----- the allocator -----

  const MINUNITS := 4096
  const UINT := 0x1_0000_0000
  const INT := 0x8000_0000 // one more than the largest int, the argument type of sbrk

  /** Units for a request of nbytes, header included (8-byte headers). */
  function UnitsFor(nbytes: nat): (n: nat)
    ensures 0 < n && nbytes + 8 <= 8 * n < nbytes + 16
  {
    (nbytes + 8 - 1) / 8 + 1
  }

  /** The header of every live block still holds its size. */
  ghost predicate LiveSized(live: map<nat, nat>, size: map<nat, nat>) {
    forall a :: a in live ==> a in size && size[a] == live[a]
  }

  ghost predicate Known(list: seq<Block>, a: nat) {
    exists k :: 0 <= k < |list| && list[k].addr == a
  }

  /** What sbrk takes a 32-bit word for. */
  function AsInt(x: nat): int {
    if x % UINT < INT then x % UINT else x % UINT - UINT
  }

  /** sbrk gets the number of bytes wanted exactly up to 2^31 - 16; from there on it gets none or
      a negative number, and provides nothing. */
  lemma SizeFits(nbytes: nat)
    requires nbytes + 8 <= UINT
    ensures 8 * UnitsFor(nbytes) < INT <==> nbytes + 16 <= INT
    ensures AsInt(8 * UnitsFor(nbytes)) == 8 * UnitsFor(nbytes) <==> nbytes + 16 <= INT
    ensures nbytes + 16 > INT ==> AsInt(8 * UnitsFor(nbytes)) <= 0
  {
  }

  class Allocator {
    const base: nat
    var freep: nat            // 0 until the first malloc
    var next: map<nat, nat>   // s.ptr of each header
    var size: map<nat, nat>   // s.size of each header
    ghost var list: seq<Block>
    ghost var live: map<nat, nat>
    ghost var heap: set<nat>

    ghost predicate Valid()
      reads this
    {
      && 0 < base
      && (if freep == 0 then list == [] && live == map[] else
          list != [] && list[0] == Block(base, 0) && Known(list, freep))
      && Ordered(list) && Ring(list, next, size)
      && Accounted(list, live, heap)
      && LiveSized(live, size)
      && (forall u :: u in heap ==> base < u)
    }

    constructor (base: nat)
      requires 0 < base
      ensures Valid() && freep == 0 && live == map[] && heap == {} && list == []
    {
      this.base := base;
      freep, next, size := 0, map[], map[];
      list, live, heap := [], map[], {};
    }

    /** free. The search stops at the one gap where the block belongs; afterwards the list
        covers the block too, is coalesced, and everything else is as it was. */
    method Free(bp: nat)
      requires Valid() && bp in live
      modifies this
      ensures Valid() && freep != 0 && live == old(live) - {bp} && heap == old(heap)
      ensures forall u: nat :: Covers(list, u) <==> Covers(old(list), u) || bp <= u < bp + old(live)[bp]
      ensures NodeBelow(old(list), bp, freep) && Inserted(old(list), Block(bp, old(live)[bp]), list, freep)
    {
      ghost var b := Block(bp, live[bp]);
      var p;
      ghost var t;
      p, t := FindGap(bp);
      GapBelow(list, t, b);
      ghost var list0 := list;
      hide Accounted, Covers, Ordered, Ring, GapAt, Insert, NodeBelow;
      Link(p, bp, t, b);
      assert InsertedAt(list0, t, b, list, freep);
    }

    /** The search loop of free. */
    method FindGap(bp: nat) returns (p: nat, ghost t: nat)
      requires Valid() && bp in live
      ensures t < |list| && GapAt(list, t, Block(bp, live[bp])) && p == list[t].addr
    {
      ghost var b := Block(bp, live[bp]);
      t := FreeGap(list, live, heap, base, bp);
      ghost var k :| 0 <= k < |list| && list[k].addr == freep;
      hide Accounted, Covers, GapAt;
      p := freep;
      NodeAt(list, next, size, k);
      StopsAtGap(list, t, b, k);
      while !(bp > p && bp < next[p])
        invariant 0 <= k < |list| && list[k].addr == p
        invariant p in next && next[p] == Succ(list, k)
        invariant k == t <==> (bp > p && bp < next[p]) || (p >= next[p] && (bp > p || bp < next[p]))
        decreases if k <= t then t - k else t + |list| - k
      {
        if p >= next[p] && (bp > p || bp < next[p]) {
          break;
        }
        k := if k + 1 < |list| then k + 1 else 0;
        p := next[p];
        NodeAt(list, next, size, k);
        StopsAtGap(list, t, b, k);
      }
    }

    /** The pointer surgery of free. */
    method Relink(p: nat, bp: nat)
      requires p in next && p in size && bp in size && next[p] in next && next[p] in size && p != bp
      modifies this`next, this`size, this`freep
      ensures next == FreeNext(old(next), old(size), p, bp) && size == FreeSize(old(next), old(size), p, bp)
      ensures freep == p
    {
      if bp + size[bp] == next[p] {
        var q := next[p];
        size := size[bp := size[bp] + size[q]];
        next := next[bp := next[q]];
      } else {
        next := next[bp := next[p]];
      }
      if p + size[p] == bp {
        size := size[p := size[p] + size[bp]];
        next := next[p := next[bp]];
      } else {
        next := next[p := bp];
      }
      freep := p;
    }

    method Link(p: nat, bp: nat, ghost t: nat, ghost b: Block)
      requires Valid() && bp in live && b == Block(bp, live[bp]) && freep != 0
      requires t < |list| && GapAt(list, t, b) && p == list[t].addr
      modifies this
      ensures Valid() && freep == p && freep != 0 && live == old(live) - {bp} && heap == old(heap)
      ensures forall u: nat :: Covers(list, u) <==> Covers(old(list), u) || bp <= u < bp + old(live)[bp]
      ensures list == Insert(old(list), t, b)
    {
      NodeAt(list, next, size, t);
      NodeAt(list, next, size, if t + 1 < |list| then t + 1 else 0);
      InsertRing(list, t, b, next, size);
      InsertOrdered(list, t, b);
      InsertHead(list, t, b);
      forall u: nat ensures Covers(Insert(list, t, b), u) <==> Covers(list, u) || bp <= u < bp + live[bp] {
        InsertCovers(list, t, b, u);
      }
      AccountedFree(list, live, heap, Insert(list, t, b), bp);
      LiveKept(list, live, heap, base, next, size, t, b);
      assert p != bp && 0 < p by {
        LiveUnlisted(list, live, heap, base, bp, t);
        assert 0 < t ==> list[0].addr + list[0].size < list[t].addr;
      }
      hide Accounted, Covers, Ordered, Ring, GapAt, Insert, FreeNext, FreeSize;
      Relink(p, bp);
      list := Insert(list, t, b);
      live := live - {bp};
      assert list[t].addr == freep;
    }

    /** morecore: obtain at least nu units from sbrk and free them into the list. */
    method Morecore(nu: nat, core: nat)
      requires Valid() && freep != 0 && base < core && 0 < nu && 8 * nu < INT && forall u :: u in heap ==> u < core
      modifies this
      ensures Valid() && freep != 0 && live == old(live)
      ensures heap == old(heap) + Range(core, if nu < 4096 then 4096 else nu)
      ensures forall u: nat :: Covers(list, u) <==>
        Covers(old(list), u) || core <= u < core + (if nu < 4096 then 4096 else nu)
      ensures NodeBelow(old(list), core, freep)
      ensures Inserted(old(list), Block(core, if nu < 4096 then 4096 else nu), list, freep)
    {
      hide Accounted, Covers, Ordered, Ring, Range, NodeBelow, Inserted;
      var n := if nu < MINUNITS then MINUNITS else nu;
      Adopt(core, n);
      Free(core);
    }

    /** Fresh memory gets its header; it counts as one live block until it is freed. */
    method Adopt(core: nat, n: nat)
      requires Valid() && freep != 0 && base < core && 0 < n && forall u :: u in heap ==> u < core
      modifies this`size, this`live, this`heap
      ensures Valid() && core !in old(live) && live == old(live)[core := n] && heap == old(heap) + Range(core, n)
    {
      hide Accounted, Covers, Ordered, Ring, Range, Known;
      GrowFacts(list, live, heap, base, next, size, core, n);
      size := size[core := n];
      live := live[core := n];
      heap := heap + Range(core, n);
    }

    /** The block is unlinked, or its tail split off; freep moves to the node before. */
    method Unlink(prevp: nat, p: nat, n: nat)
      requires p in next && p in size && 0 < n <= size[p]
      modifies this`next, this`size, this`freep
      ensures next == TakeNext(old(next), old(size), prevp, p, n) && size == TakeSize(old(size), p, n)
      ensures freep == prevp
    {
      if size[p] == n {
        next := next[prevp := next[p]];
      } else {
        size := size[p := size[p] - n];
        size := size[p + size[p] := n];
      }
      freep := prevp;
    }

    /** Hand out n units of block i: the whole block, or its tail. */
    method Take(prevp: nat, p: nat, n: nat, ghost i: nat) returns (a: nat)
      requires Valid() && freep != 0 && 0 < i < |list| && list[i].addr == p && list[i - 1].addr == prevp
      requires 0 < n <= list[i].size
      modifies this
      ensures Valid() && freep == prevp && heap == old(heap) && a !in old(live) && live == old(live)[a := n]
      ensures a == old(list)[i].addr + old(list)[i].size - n
      ensures list == Carve(old(list), i, n)
      ensures forall u: nat :: Covers(list, u) <==> Covers(old(list), u) && !(a <= u < a + n)
      ensures forall u :: a <= u < a + n ==> Covers(old(list), u)
    {
      NodeAt(list, next, size, i);
      NodeAt(list, next, size, i - 1);
      a := p + size[p] - n;
      CarveRing(list, i, n, next, size);
      CarveOrdered(list, i, n);
      forall u: nat ensures Covers(Carve(list, i, n), u) <==> Covers(list, u) && !(a <= u < a + n) {
        CarveCovers(list, i, n, u);
      }
      AccountedTake(list, live, heap, Carve(list, i, n), a, n);
      TakeKeepsLive(list, live, heap, base, size, i, n);
      CarvePrev(list, i, n);
      hide Accounted, Covers, Ordered, Ring, Carve, TakeNext, TakeSize;
      Unlink(prevp, p, n);
      list := Carve(list, i, n);
      live := live[a := n];
    }

    /** The first call makes the one-node ring of the static header. */
    method Start()
      requires Valid()
      modifies this
      ensures Valid() && freep != 0 && live == old(live) && heap == old(heap)
      ensures old(freep) == 0 ==> old(list) == [] && list == [Block(base, 0)] && freep == base
      ensures list == Started(old(list), base)
      ensures old(freep) != 0 ==> list == old(list) && freep == old(freep)
    {
      if freep == 0 {
        next, size, freep := next[base := base], size[base := 0], base;
        list := [Block(base, 0)];
        StartAccounted(live, heap, base);
        assert list[0].addr == freep;
        assert NodeOk(list, next, size, 0);
      }
    }

    /** malloc, with `core` the address sbrk would return if asked, None its failure. sbrk is
        asked at most once, and exactly when no free block is large enough. */
    method Malloc(nbytes: nat, core: Option<nat>) returns (r: Option<nat>, calls: nat)
      requires Valid() && nbytes + 8 <= UINT && (HasBig(list, UnitsFor(nbytes)) || 8 * UnitsFor(nbytes) < INT)
      requires core.Some? ==> base < core.value && forall u :: u in heap ==> u < core.value
      modifies this
      ensures Valid() && freep != 0 && calls <= 1
      ensures calls == 0 <==> HasBig(old(list), UnitsFor(nbytes))
      ensures r.None? <==> calls == 1 && core.None?
      ensures r.None? ==> live == old(live) && heap == old(heap) && CoversSame(old(list), list)
      ensures r.None? ==> list == Started(old(list), base) && freep == if old(freep) == 0 then base else old(freep)
      ensures r.Some? ==> r.value !in old(live) && live == old(live)[r.value := UnitsFor(nbytes)]
      ensures r.Some? ==> heap == old(heap) + if calls == 0 then {} else Range(core.value, MoreUnits(nbytes))
      ensures r.Some? && calls == 0 ==> NextFit(old(list), old(freep), UnitsFor(nbytes), r.value, list, freep)
      ensures r.Some? && calls == 1 ==> EndOfCore(Started(old(list), base), core.value, MoreUnits(nbytes), UnitsFor(nbytes), r.value, freep)
      ensures r.Some? ==>
        Took(old(list), if calls == 0 then Block(0, 0) else Block(core.value, MoreUnits(nbytes)), list, Block(r.value, UnitsFor(nbytes)))
    {
      hide Accounted, Covers, Ordered, Ring, Range, SmallSoFar, BigAhead, HasBig, Added, Took, CoversSame, Around, NextFit, Carve, Known,
        Topped, Above, Inserted, NodeBelow, EndOfCore, Started, GapAt, Insert;
      var n := UnitsFor(nbytes);
      ghost var list0, heap0, live0, freep0 := list, heap, live, freep;
      Start();
      ghost var list1 := list;
      StartCovers(list0, list1, base, n);
      ghost var k := FreepIndex();
      ghost var j := 1;
      AroundFirst(list, k, n);
      NodeAt(list, next, size, k);
      calls := 0;
      ghost var x := Block(0, 0);
      Added0(list0, list1);
      var prevp := freep;
      var p := next[prevp];
      while true
        invariant Valid() && freep != 0 && calls <= 1 && live == live0
        invariant 0 <= k < |list| && list[k].addr == freep && 1 <= j <= |list|
        invariant prevp == list[Around(k, j - 1, |list|)].addr && p == list[Around(k, j, |list|)].addr
        invariant calls == 0 ==> list == list1 && heap == heap0 && SmallSoFar(list, k, j, n)
        invariant calls == 0 && freep0 != 0 ==> list1 == list0 && freep == freep0
        invariant freep0 == 0 ==> !HasBig(list0, n)
        invariant calls == 1 ==> core.Some? && heap == heap0 + Range(core.value, MoreUnits(nbytes))
        invariant calls == 1 ==> !HasBig(list0, n) && BigAhead(list, k, j, n)
        invariant x == if calls == 0 then Block(0, 0) else Block(core.value, MoreUnits(nbytes))
        invariant Added(list0, x, list)
        invariant calls == 0 ==> list == Started(list0, base) && freep == if freep0 == 0 then base else freep0
        invariant calls == 1 ==> Topped(list1, x, list)
        decreases 1 - calls, |list| - j
      {
        ghost var i := Around(k, j, |list|);
        NodeAt(list, next, size, i);
        if size[p] >= n {
          var a := Allot(prevp, p, n, k, j, list0, list1, x);
          return Some(a), calls;
        }
        if p == freep {
          BackAtStart(list, k, j);
          WholeRound(list, k, j, n);
          assert calls == 0;
          calls := 1;
          if core.None? {
            return None, calls;
          }
          CoreAbove(list1, live0, heap0, core.value);
          Morecore(n, core.value);
          x := Block(core.value, MoreUnits(nbytes));
          TopInserted(list1, x, list, freep);
          Added1(list0, list1, x, list);
          p := freep;
          k := FreepIndex();
          j := 0;
          NodeAt(list, next, size, k);
          NewBlockAhead(list0, list, x, k, n);
        } else {
          NotBack(list, k, j, n);
        }
        AroundNext(list, k, j, n);
        prevp := p;
        p := next[p];
        j := j + 1;
      }
    }

    /** malloc at a block that is large enough. */
    method Allot(prevp: nat, p: nat, n: nat, ghost k: nat, ghost j: nat, ghost list0: seq<Block>, ghost list1: seq<Block>, ghost x: Block)
      returns (a: nat)
      requires Valid() && freep != 0 && k < |list| && list[k].addr == freep && 1 <= j <= |list|
      requires prevp == list[Around(k, j - 1, |list|)].addr && p == list[Around(k, j, |list|)].addr
      requires 0 < n <= list[Around(k, j, |list|)].size && Added(list0, x, list)
      modifies this
      ensures Valid() && freep == prevp && freep != 0 && heap == old(heap) && a !in old(live) && live == old(live)[a := n]
      ensures Took(list0, x, list, Block(a, n)) && HasBig(old(list), n)
      ensures SmallSoFar(old(list), k, j, n) ==> NextFit(old(list), old(freep), n, a, list, freep)
      ensures Topped(list1, x, old(list)) && !HasBig(list1, n) ==> EndOfCore(list1, x.addr, x.size, n, a, freep)
    {
      hide Accounted, Covers, Ordered, Ring, SmallSoFar, BigAhead, HasBig, Added, Took, Around, NextFit, Carve, Known;
      ghost var i := Around(k, j, |list|);
      PrevNode(list, k, j);
      SizedNotBase(list, i, n);
      IsBig(list, i, n);
      ghost var mid := list;
      if Topped(list1, x, mid) && !HasBig(list1, n) {
        TopCut(list1, x, mid, i, n);
      }
      a := Take(prevp, p, n, i);
      assert a in live;
      Took1(list0, x, mid, list, Block(a, n));
      if SmallSoFar(mid, k, j, n) {
        FitFound(mid, old(freep), n, a, list, prevp, k, j);
      }
    }

    ghost method FreepIndex() returns (k: nat)
      requires Valid() && freep != 0
      ensures k < |list| && list[k].addr == freep
    {
      k :| 0 <= k < |list| && list[k].addr == freep;
    }
  }

  lemma NodeAt(list: seq<Block>, next: map<nat, nat>, size: map<nat, nat>, i: nat)
    requires Ring(list, next, size) && i < |list|
    ensures NodeOk(list, next, size, i)
  {
  }

  /** A live block belongs in exactly one gap of the list. */
  lemma FreeGap(list: seq<Block>, live: map<nat, nat>, heap: set<nat>, base: nat, bp: nat) returns (t: nat)
    requires Ordered(list) && list != [] && list[0] == Block(base, 0) && Accounted(list, live, heap) && bp in live
    requires forall u :: u in heap ==> base < u
    ensures GapAt(list, t, Block(bp, live[bp]))
  {
    assert forall u :: bp <= u < bp + live[bp] ==> LiveAt(live, u);
    assert LiveAt(live, bp);
    t := GapExists(list, Block(bp, live[bp]), |list|);
  }

  lemma LiveUnlisted(list: seq<Block>, live: map<nat, nat>, heap: set<nat>, base: nat, a: nat, i: nat)
    requires Ordered(list) && list != [] && list[0] == Block(base, 0) && Accounted(list, live, heap)
    requires (forall u :: u in heap ==> base < u) && a in live && i < |list|
    ensures list[i].addr != a && !(list[i].addr <= a < list[i].addr + list[i].size)
  {
    assert LiveAt(live, a);
    assert list[i].addr <= a < list[i].addr + list[i].size ==> Covers(list, a);
  }

  /** The header updates touch no other live block's size. */
  lemma LiveKept(list: seq<Block>, live: map<nat, nat>, heap: set<nat>, base: nat, next: map<nat, nat>, size: map<nat, nat>, t: nat, b: Block)
    requires FreeReady(list, t, b, next, size) && list[0] == Block(base, 0) && Accounted(list, live, heap)
    requires forall u :: u in heap ==> base < u
    requires LiveSized(live, size)
    ensures forall a :: a in live && a != b.addr ==>
      a in FreeSize(next, size, list[t].addr, b.addr) && FreeSize(next, size, list[t].addr, b.addr)[a] == live[a]
  {
    forall a | a in live && a != b.addr
      ensures a in FreeSize(next, size, list[t].addr, b.addr) && FreeSize(next, size, list[t].addr, b.addr)[a] == live[a]
    {
      LiveUnlisted(list, live, heap, base, a, t);
    }
  }

  lemma GrowFacts(list: seq<Block>, live: map<nat, nat>, heap: set<nat>, base: nat, next: map<nat, nat>, size: map<nat, nat>, core: nat, n: nat)
    requires Ordered(list) && list != [] && list[0] == Block(base, 0) && Ring(list, next, size) && Accounted(list, live, heap)
    requires base < core && 0 < n && (forall u :: u in heap ==> base < u < core)
    requires LiveSized(live, size)
    ensures core !in live && Ring(list, next, size[core := n]) && Accounted(list, live[core := n], heap + Range(core, n))
    ensures forall u :: u in heap + Range(core, n) ==> base < u
    ensures LiveSized(live[core := n], size[core := n])
  {
    hide Accounted, Covers, Ring;
    AccountedGrow(list, live, heap, core, n);
    GrowRing(list, live, heap, base, next, size, core, n);
    SpanAbove(base, core, n);
  }

  lemma SpanAbove(base: nat, a: nat, n: nat)
    requires base < a
    ensures forall u :: u in Range(a, n) ==> base < u
  {
  }

  lemma CarvePrev(list: seq<Block>, i: nat, n: nat)
    requires Ordered(list) && 0 < i < |list| && 0 < n <= list[i].size
    ensures i - 1 < |Carve(list, i, n)| && Carve(list, i, n)[i - 1] == list[i - 1]
    ensures Known(Carve(list, i, n), list[i - 1].addr)
    ensures 0 < i - 1 ==> list[0].addr < list[i - 1].addr
  {
    assert Carve(list, i, n)[i - 1] == list[i - 1];
  }

  lemma TakeKeepsLive(list: seq<Block>, live: map<nat, nat>, heap: set<nat>, base: nat, size: map<nat, nat>, i: nat, n: nat)
    requires Ordered(list) && list != [] && list[0] == Block(base, 0) && Accounted(list, live, heap)
    requires forall u :: u in heap ==> base < u
    requires 0 < i < |list| && 0 < n <= list[i].size && list[i].addr in size && size[list[i].addr] == list[i].size
    requires LiveSized(live, size)
    ensures var a := list[i].addr + list[i].size - n; var size' := TakeSize(size, list[i].addr, n);
      forall b :: b in live[a := n] ==> b in size' && size'[b] == live[a := n][b]
  {
    forall b | b in live ensures !(list[i].addr <= b < list[i].addr + list[i].size) {
      LiveUnlisted(list, live, heap, base, b, i);
    }
  }

  /** A header written beyond the heap disturbs no node of the ring. */
  lemma GrowRing(list: seq<Block>, live: map<nat, nat>, heap: set<nat>, base: nat, next: map<nat, nat>, size: map<nat, nat>, core: nat, n: nat)
    requires Ordered(list) && list != [] && list[0] == Block(base, 0) && Ring(list, next, size) && Accounted(list, live, heap)
    requires base < core && forall u :: u in heap ==> u < core
    ensures Ring(list, next, size[core := n])
    ensures core !in live
  {
    forall i | 0 <= i < |list| ensures list[i].addr != core {
      if i > 0 {
        assert Covers(list, list[i].addr);
      }
    }
    var size' := size[core := n];
    forall i | 0 <= i < |list| ensures NodeOk(list, next, size', i) {
      assert NodeOk(list, next, size, i);
    }
    assert core in live ==> LiveAt(live, core);
    assert core in live ==> core in heap;
  }

  /** A covered stretch lies inside a single block. */
  lemma StretchInBlock(list: seq<Block>, a: nat, n: nat) returns (i: nat)
    requires Ordered(list) && 0 < n && forall u :: a <= u < a + n ==> Covers(list, u)
    ensures i < |list| && list[i].addr <= a && a + n <= list[i].addr + list[i].size
  {
    assert Covers(list, a);
    i :| 0 <= i < |list| && list[i].addr <= a < list[i].addr + list[i].size;
    assert !Covers(list, list[i].addr + list[i].size);
  }

  /** Position j steps after index k on a ring of n nodes. */
  function Around(k: nat, j: nat, n: nat): (r: nat)
    requires k < n && j <= n
    ensures r < n
  {
    if k + j < n then k + j else k + j - n
  }

  // ----- the walk of malloc -----

  function MoreUnits(nbytes: nat): nat {
    if UnitsFor(nbytes) < 4096 then 4096 else UnitsFor(nbytes)
  }

  ghost predicate HasBig(list: seq<Block>, n: nat) {
    exists i :: 0 <= i < |list| && list[i].size >= n
  }

  ghost predicate CoversSame(a: seq<Block>, b: seq<Block>) {
    forall u: nat :: Covers(b, u) <==> Covers(a, u)
  }

  /** b covers what a covers and the units of x. */
  ghost predicate Added(a: seq<Block>, x: Block, b: seq<Block>) {
    forall u: nat :: Covers(b, u) <==> Covers(a, u) || x.addr <= u < x.addr + x.size
  }

  /** After adding x to a, the block y was taken out, leaving b. */
  ghost predicate Took(a: seq<Block>, x: Block, b: seq<Block>, y: Block) {
    && (forall u: nat :: y.addr <= u < y.addr + y.size ==> Covers(a, u) || x.addr <= u < x.addr + x.size)
    && (forall u: nat :: Covers(b, u) <==>
          (Covers(a, u) || x.addr <= u < x.addr + x.size) && !(y.addr <= u < y.addr + y.size))
  }

  ghost predicate SmallSoFar(list: seq<Block>, k: nat, j: nat, n: nat)
    requires k < |list| && j <= |list| + 1
  {
    forall i :: 1 <= i < j ==> list[Around(k, i, |list|)].size < n
  }

  ghost predicate BigAhead(list: seq<Block>, k: nat, j: nat, n: nat)
    requires k < |list|
  {
    exists i :: j <= i <= |list| && list[Around(k, i, |list|)].size >= n
  }

  /** The policy: walking the ring from the block after freep, the first block with at least n
      units gives up its last n, and the next search starts at the block before it. */
  ghost predicate NextFit(list: seq<Block>, freep: nat, n: nat, a: nat, list': seq<Block>, freep': nat) {
    exists k, j :: 0 <= k < |list| && list[k].addr == freep && 1 <= j <= |list| && FitAt(list, k, j, n, a, list', freep')
  }

  ghost predicate FitAt(list: seq<Block>, k: nat, j: nat, n: nat, a: nat, list': seq<Block>, freep': nat)
    requires k < |list| && 1 <= j <= |list|
  {
    var b := list[Around(k, j, |list|)];
    && SmallSoFar(list, k, j, n) && n <= b.size && a == b.addr + b.size - n && list' == Carve(list, Around(k, j, |list|), n)
    && freep' == list[Around(k, j - 1, |list|)].addr
  }

  lemma FitFound(list: seq<Block>, freep: nat, n: nat, a: nat, list': seq<Block>, freep': nat, k: nat, j: nat)
    requires k < |list| && list[k].addr == freep && 1 <= j <= |list| && SmallSoFar(list, k, j, n)
    requires var b := list[Around(k, j, |list|)]; n <= b.size && a == b.addr + b.size - n
    requires list' == Carve(list, Around(k, j, |list|), n) && freep' == list[Around(k, j - 1, |list|)].addr
    ensures NextFit(list, freep, n, a, list', freep')
  {
    assert FitAt(list, k, j, n, a, list', freep');
  }

  // ----- where freep is left -----

  /** p is the greatest address in the list below a. */
  ghost predicate NodeBelow(list: seq<Block>, a: nat, p: nat) {
    Known(list, p) && p < a && forall i :: 0 <= i < |list| && list[i].addr < a ==> list[i].addr <= p
  }

  ghost predicate InsertedAt(list: seq<Block>, t: nat, b: Block, list': seq<Block>, freep: nat) {
    GapAt(list, t, b) && list' == Insert(list, t, b) && freep == list[t].addr
  }

  /** b was put in at its gap, and freep is the node before the gap. */
  ghost predicate Inserted(list: seq<Block>, b: Block, list': seq<Block>, freep: nat) {
    exists t: nat :: InsertedAt(list, t, b, list', freep)
  }

  lemma GapBelow(list: seq<Block>, t: nat, b: Block)
    requires Ordered(list) && GapAt(list, t, b)
    ensures NodeBelow(list, b.addr, list[t].addr)
  {
  }

  /** The list that the search goes over: that of the static header alone at the first call. */
  function Started(list: seq<Block>, base: nat): seq<Block> {
    if list == [] then [Block(base, 0)] else list
  }

  /** Where the block begins that new memory at core is part of: it joins a last block that ends
      there. */
  function JoinedAt(list: seq<Block>, core: nat): nat
    requires list != []
  {
    var last := list[|list| - 1];
    if last.addr + last.size == core then last.addr else core
  }

  /** n units were cut from the end of m new ones at core, and freep is the node below the block
      from which they were cut. */
  ghost predicate EndOfCore(list: seq<Block>, core: nat, m: nat, n: nat, a: nat, freep: nat) {
    a + n == core + m && list != [] && NodeBelow(list, JoinedAt(list, core), freep)
  }

  /** The blocks of the list lie below core. */
  ghost predicate Above(list: seq<Block>, core: nat) {
    list != [] && Ordered(list) && list[0].size == 0 && forall i :: 0 <= i < |list| ==> list[i].addr < core
  }

  /** mid is the list with x put in above all of it. */
  ghost predicate Topped(list: seq<Block>, x: Block, mid: seq<Block>) {
    Above(list, x.addr) && GapAt(list, |list| - 1, x) && mid == Insert(list, |list| - 1, x)
  }

  lemma CoreAbove(list: seq<Block>, live: map<nat, nat>, heap: set<nat>, core: nat)
    requires Ordered(list) && list != [] && list[0].size == 0 && list[0].addr < core && Accounted(list, live, heap)
    requires forall u :: u in heap ==> u < core
    ensures Above(list, core)
  {
    forall i | 0 < i < |list| ensures list[i].addr < core {
      assert Covers(list, list[i].addr);
    }
  }

  lemma TopInserted(list: seq<Block>, x: Block, mid: seq<Block>, freep: nat)
    requires Above(list, x.addr) && Inserted(list, x, mid, freep)
    ensures Topped(list, x, mid)
  {
    var t: nat :| InsertedAt(list, t, x, mid, freep);
  }

  /** Where no block was large enough before x was added, the last is now the only one. */
  lemma TopCut(list: seq<Block>, x: Block, mid: seq<Block>, i: nat, n: nat)
    requires Topped(list, x, mid) && !HasBig(list, n) && i < |mid| && n <= mid[i].size
    ensures 0 < i && mid[i].addr + mid[i].size == x.addr + x.size
    ensures NodeBelow(list, JoinedAt(list, x.addr), mid[i - 1].addr)
  {
    var t := |list| - 1;
    assert forall k :: 0 <= k < |list| ==> list[k].size < n;
    assert i == |mid| - 1 && 0 < i;
    var k := i - 1;
    assert mid[k] == list[k];
    forall m | 0 <= m < |list| && list[m].addr < JoinedAt(list, x.addr) ensures list[m].addr <= list[k].addr {
    }
  }

  lemma StartAccounted(live: map<nat, nat>, heap: set<nat>, base: nat)
    requires Accounted([], live, heap)
    ensures Accounted([Block(base, 0)], live, heap)
  {
    forall u: nat ensures !Covers([], u) && !Covers([Block(base, 0)], u) {
      CoversOne(Block(base, 0), u);
    }
  }

  lemma StartCovers(list0: seq<Block>, list1: seq<Block>, base: nat, n: nat)
    requires 0 < n && (list1 == list0 || (list0 == [] && list1 == [Block(base, 0)]))
    ensures list0 == [] ==> !HasBig(list0, n)
    ensures CoversSame(list0, list1) && (HasBig(list1, n) <==> HasBig(list0, n))
  {
    if list1 != list0 {
      assert list1[0].size == 0;
      forall u: nat ensures !Covers(list1, u) {
        CoversOne(Block(base, 0), u);
      }
    }
  }

  lemma AroundFirst(list: seq<Block>, k: nat, n: nat)
    requires k < |list|
    ensures list[Around(k, 0, |list|)] == list[k] && list[Around(k, 1, |list|)].addr == Succ(list, k)
    ensures SmallSoFar(list, k, 1, n)
  {
  }

  lemma AroundNext(list: seq<Block>, k: nat, j: nat, n: nat)
    requires k < |list| && j < |list|
    ensures list[Around(k, j + 1, |list|)].addr == Succ(list, Around(k, j, |list|))
    ensures Around(k, 0, |list|) == k
  {
  }

  lemma PrevNode(list: seq<Block>, k: nat, j: nat)
    requires k < |list| && 1 <= j <= |list|
    ensures Around(k, j, |list|) > 0 ==> Around(k, j - 1, |list|) == Around(k, j, |list|) - 1
  {
  }

  lemma SizedNotBase(list: seq<Block>, i: nat, n: nat)
    requires i < |list| && list[0].size == 0 && list[i].size >= n > 0
    ensures 0 < i
  {
  }

  lemma IsBig(list: seq<Block>, i: nat, n: nat)
    requires i < |list| && list[i].size >= n
    ensures HasBig(list, n)
  {
  }

  lemma BackAtStart(list: seq<Block>, k: nat, j: nat)
    requires Ordered(list) && k < |list| && 1 <= j <= |list| && list[Around(k, j, |list|)].addr == list[k].addr
    ensures j == |list| && Around(k, j, |list|) == k
  {
    NotListed0(list, Around(k, j, |list|), k);
  }

  lemma NotListed0(list: seq<Block>, a: nat, b: nat)
    requires Ordered(list) && a < |list| && b < |list| && list[a].addr == list[b].addr
    ensures a == b
  {
  }

  /** Back at the start with the last node too small: no block is large enough, so this is
      not the second round. */
  lemma WholeRound(list: seq<Block>, k: nat, j: nat, n: nat)
    requires k < |list| && j == |list| && list[k].size < n && Around(k, j, |list|) == k
    ensures SmallSoFar(list, k, j, n) ==> !HasBig(list, n)
    ensures !BigAhead(list, k, j, n)
  {
    if SmallSoFar(list, k, j, n) {
      forall m | 0 <= m < |list| ensures list[m].size < n {
        var i := if m > k then m - k else m - k + |list|;
        assert Around(k, i, |list|) == m;
      }
    }
  }

  lemma NotBack(list: seq<Block>, k: nat, j: nat, n: nat)
    requires k < |list| && 1 <= j <= |list| && list[Around(k, j, |list|)].addr != list[k].addr
    requires list[Around(k, j, |list|)].size < n
    ensures j < |list|
    ensures SmallSoFar(list, k, j, n) ==> SmallSoFar(list, k, j + 1, n)
    ensures BigAhead(list, k, j, n) ==> BigAhead(list, k, j + 1, n)
  {
  }

  lemma NewBlockAhead(list0: seq<Block>, list: seq<Block>, x: Block, k: nat, n: nat)
    requires Ordered(list) && k < |list| && Added(list0, x, list) && 0 < n <= x.size
    ensures BigAhead(list, k, 1, n)
  {
    var m := StretchInBlock(list, x.addr, x.size);
    var i := if m > k then m - k else m - k + |list|;
    assert Around(k, i, |list|) == m;
  }

  lemma Added1(list0: seq<Block>, list1: seq<Block>, x: Block, list: seq<Block>)
    requires CoversSame(list0, list1) && forall u: nat :: Covers(list, u) <==> Covers(list1, u) || x.addr <= u < x.addr + x.size
    ensures Added(list0, x, list)
  {
  }

  lemma Added0(list0: seq<Block>, list1: seq<Block>)
    requires CoversSame(list0, list1)
    ensures Added(list0, Block(0, 0), list1)
  {
  }

  lemma Took1(list0: seq<Block>, x: Block, mid: seq<Block>, list: seq<Block>, y: Block)
    requires Added(list0, x, mid)
    requires forall u: nat :: Covers(list, u) <==> Covers(mid, u) && !(y.addr <= u < y.addr + y.size)
    requires forall u :: y.addr <= u < y.addr + y.size ==> Covers(mid, u)
    ensures Took(list0, x, list, y)
  {
  }

  // ----- malloc undone by free -----

  /** Two free lists with the same header and the same units are the same list. */
  lemma SameUnitsSameList(x: seq<Block>, y: seq<Block>)
    requires Ordered(x) && Ordered(y) && x != [] && y != [] && x[0] == y[0] && x[0].size == 0
    requires CoversSame(x, y)
    ensures x == y
  {
    OrderedPieces(x, 1);
    OrderedPieces(y, 1);
    forall u: nat ensures Covers(x[1..], u) <==> Covers(y[1..], u) {
      CoversCut(x, 0, u);
      CoversCut(y, 0, u);
      CoversEmpty(u);
      assert x[..0] == [] && y[..0] == [];
    }
    ListIsCanonical(x[1..], y[1..]);
    assert x == [x[0]] + x[1..] && y == [y[0]] + y[1..];
  }

  lemma TookBack(list0: seq<Block>, mid: seq<Block>, list: seq<Block>, y: Block)
    requires Took(list0, Block(0, 0), mid, y)
    requires forall u: nat :: Covers(list, u) <==> Covers(mid, u) || y.addr <= u < y.addr + y.size
    ensures CoversSame(list0, list)
  {
    hide Covers;
  }

  /** Freeing the block that a malloc without sbrk has just returned restores the free list
      exactly (only freep may be elsewhere on the ring). */
  method MallocThenFree(h: Allocator, nbytes: nat)
    requires h.Valid() && nbytes + 8 <= UINT && HasBig(h.list, UnitsFor(nbytes))
    modifies h
    ensures h.Valid() && h.list == old(h.list) && h.live == old(h.live) && h.heap == old(h.heap)
  {
    assert h.list != [];
    hide Accounted, Ordered, Ring, HasBig, Covers, Took, CoversSame;
    ghost var list0 := h.list;
    var r, calls := h.Malloc(nbytes, None);
    ghost var mid := h.list;
    h.Free(r.value);
    TookBack(list0, mid, h.list, Block(r.value, UnitsFor(nbytes)));
    SameUnitsSameList(list0, h.list);
  }

  // ----- counting units -----

  function Sizes(list: seq<Block>): nat {
    if list == [] then 0 else Sizes(list[..|list| - 1]) + list[|list| - 1].size
  }

  ghost function FreeUnits(list: seq<Block>): set<nat> {
    if list == [] then {} else FreeUnits(list[..|list| - 1]) + Range(list[|list| - 1].addr, list[|list| - 1].size)
  }

  lemma {:induction false} FreeUnitsAre(list: seq<Block>)
    requires Ordered(list)
    ensures forall u: nat :: u in FreeUnits(list) <==> Covers(list, u)
  {
    if list != [] {
      var n := |list| - 1;
      OrderedPieces(list, n);
      LastCovers(list, n);
      hide Ordered, Covers, Range;
      FreeUnitsAre(list[..n]);
    }
  }

  lemma {:induction false} FreeUnitsCount(list: seq<Block>)
    requires Ordered(list)
    ensures |FreeUnits(list)| == Sizes(list)
  {
    if list != [] {
      var n := |list| - 1;
      OrderedPieces(list, n);
      LastCovers(list, n);
      hide Ordered, Covers, Range;
      FreeUnitsAre(list[..n]);
      FreeUnitsCount(list[..n]);
      RangeAdds(FreeUnits(list[..n]), list[n].addr, list[n].size);
    }
  }

  lemma LastCovers(list: seq<Block>, n: nat)
    requires Ordered(list) && |list| == n + 1
    ensures forall u: nat :: Covers(list, u) <==> Covers(list[..n], u) || list[n].addr <= u < list[n].addr + list[n].size
    ensures forall u: nat :: !(Covers(list[..n], u) && list[n].addr <= u < list[n].addr + list[n].size)
  {
    hide Covers;
    forall u: nat
      ensures Covers(list, u) <==> Covers(list[..n], u) || list[n].addr <= u < list[n].addr + list[n].size
      ensures !(Covers(list[..n], u) && list[n].addr <= u < list[n].addr + list[n].size)
    {
      CoversCut(list, n, u);
      CoversEmpty(u);
      assert list[n + 1..] == [];
      CarveApart(list, n, u);
    }
  }

  /** The sizes on the free list and the units of the live blocks add up to the units obtained
      from sbrk. */
  lemma UnitsConserved(list: seq<Block>, live: map<nat, nat>, heap: set<nat>)
    requires Ordered(list) && Accounted(list, live, heap)
    ensures |heap| == Sizes(list) + |set u | u in heap && LiveAt(live, u)|
  {
    FreeUnitsAre(list);
    FreeUnitsCount(list);
    hide Covers, Ordered, FreeUnits, Sizes, LiveApart, LiveAt;
    var l := set u | u in heap && LiveAt(live, u);
    assert heap == FreeUnits(list) + l;
    assert FreeUnits(list) !! l;
  }
}
