/** The buffer cache (kernel/bio.c) over the disk driver's request queue (kernel/ide.c). Every
    method is one critical section; a process that sleeps calls again when it wakes. */
module BufferCache {
  import opened Wrappers
  import opened BlockFormat
  import opened Sets

  const NBUF := 10
  const HEAD := NBUF            // bcache.head, the list's anchor
  const NONE := NBUF + 1        // the null pointer
  const NODEV := 0xFFFF_FFFF    // (uint)-1, the device of a buffer never used

  type Data = seq<byte>
  datatype Block = Block(dev: nat, sector: nat)

  /** The sectors that the controller's 1-bit drive and 28-bit sector registers can name. */
  predicate Real(x: Block) { x.dev < 2 && x.sector < 0x1000_0000 }

  // ----- the list through prev and next -----

  /** Stop i of the walk from the anchor along `order` and back to the anchor. */
  function At(order: seq<nat>, i: int): nat {
    if 1 <= i <= |order| then order[i - 1] else HEAD
  }

  ghost predicate Joined(prev: seq<nat>, next: seq<nat>, order: seq<nat>, i: int) {
    && At(order, i) < |next| && next[At(order, i)] == At(order, i + 1)
    && At(order, i + 1) < |prev| && prev[At(order, i + 1)] == At(order, i)
  }

  ghost predicate Distinct(s: seq<nat>) {
    && (forall i :: 0 <= i < |s| ==> s[i] < NBUF)
    && (forall i, j :: 0 <= i < j < |s| ==> s[i] != s[j])
  }

  /** prev and next form one ring through the anchor and `order`. */
  ghost predicate Ring(prev: seq<nat>, next: seq<nat>, order: seq<nat>) {
    && |prev| == |next| == NBUF + 1 && Distinct(order)
    && forall i {:trigger Joined(prev, next, order, i)} :: 0 <= i <= |order| ==> Joined(prev, next, order, i)
  }

  lemma AtDistinct(order: seq<nat>, i: int, j: int)
    requires Distinct(order) && 0 <= i < j <= |order|
    ensures At(order, i) != At(order, j) && At(order, i) <= HEAD && At(order, j) < HEAD
  {
  }

  function Without(order: seq<nat>, k: nat): seq<nat>
    requires k < |order|
  {
    order[..k] + order[k + 1..]
  }

  /** A field of one buffer set; a sequence update that keeps the element type. */
  function Put(s: seq<nat>, i: nat, v: nat): (r: seq<nat>)
    requires i < |s|
    ensures |r| == |s| && forall j :: 0 <= j < |s| ==> r[j] == if j == i then v else s[j]
  {
    s[i := v]
  }

  /** Taking a buffer out of the ring. */
  lemma UnlinkRing(prev: seq<nat>, next: seq<nat>, order: seq<nat>, k: nat)
    requires Ring(prev, next, order) && k < |order|
    ensures var b := order[k];
      && b < NBUF && next[b] <= HEAD && prev[b] <= HEAD && next[b] != b && prev[b] != b
      && Ring(Put(prev, next[b], prev[b]), Put(next, prev[b], next[b]), Without(order, k))
  {
    var b, rest := order[k], Without(order, k);
    assert Joined(prev, next, order, k) && Joined(prev, next, order, k + 1);
    AtDistinct(order, k, k + 1);
    if k + 1 < |order| {
      AtDistinct(order, k + 1, k + 2);
    }
    var p, n := Put(prev, next[b], prev[b]), Put(next, prev[b], next[b]);
    forall i | 0 <= i <= |rest| ensures Joined(p, n, rest, i) {
      UnlinkJoin(prev, next, order, k, i);
    }
  }

  lemma UnlinkJoin(prev: seq<nat>, next: seq<nat>, order: seq<nat>, k: nat, i: nat)
    requires Ring(prev, next, order) && k < |order| && i <= |order| - 1
    requires var b := order[k]; b < NBUF && next[b] <= HEAD && prev[b] <= HEAD
    ensures var b := order[k]; Joined(Put(prev, next[b], prev[b]), Put(next, prev[b], next[b]), Without(order, k), i)
  {
    var b, rest := order[k], Without(order, k);
    assert Joined(prev, next, order, k) && Joined(prev, next, order, k + 1);
    var j := if i <= k then i else i + 1;
    assert At(rest, i) == At(order, j);
    assert At(rest, i + 1) == At(order, if i < k then i + 1 else i + 2);
    assert Joined(prev, next, order, j);
    if i != k {
      if j < k { AtDistinct(order, j, k); } else { AtDistinct(order, k, j); }
      var a, z := j + 1, k + 2;
      if a <= |order| && z <= |order| {
        if a < z { AtDistinct(order, a, z); } else { AtDistinct(order, z, a); }
      } else if a <= |order| {
        AtDistinct(order, 0, a);
      } else if z <= |order| {
        AtDistinct(order, 0, z);
      }
    }
  }

  /** Putting a buffer right behind the anchor. */
  lemma PushRing(prev: seq<nat>, next: seq<nat>, order: seq<nat>, b: nat)
    requires Ring(prev, next, order) && b < NBUF && b !in order
    ensures next[HEAD] <= HEAD && next[HEAD] != b
    ensures var n := Put(next, b, next[HEAD]); var p := Put(prev, b, HEAD);
      Ring(Put(p, n[HEAD], b), Put(n, HEAD, b), [b] + order)
  {
    assert Joined(prev, next, order, 0);
    var order' := [b] + order;
    var n := Put(next, b, next[HEAD]);
    var p := Put(Put(prev, b, HEAD), n[HEAD], b);
    n := Put(n, HEAD, b);
    forall i | 0 <= i <= |order'| ensures Joined(p, n, order', i) {
      if i >= 1 {
        assert Joined(prev, next, order, i - 1);
        assert At(order', i + 1) == At(order, i);
        if i >= 2 {
          assert At(order', i) == At(order, i - 1);
          AtDistinct(order, 0, i - 1);
          if i <= |order| {
            AtDistinct(order, 1, i);
          } else {
            AtDistinct(order, 0, 1);
          }
        }
      }
    }
  }

  // ----- recency -----

  /** The list runs from the latest release to the earliest. */
  ghost predicate Recent(order: seq<nat>, stamp: seq<nat>, clock: nat) {
    && |stamp| == NBUF
    && (forall i :: 0 <= i < |order| ==> order[i] < NBUF && stamp[order[i]] < clock)
    && (forall i, j :: 0 <= i < j < |order| ==> order[i] < NBUF && order[j] < NBUF && stamp[order[i]] > stamp[order[j]])
  }

  // ----- what buffers hold -----

  ghost predicate Unique(dev: seq<nat>, sector: seq<nat>) {
    && |dev| == |sector| == NBUF
    && (forall i :: 0 <= i < NBUF && dev[i] != NODEV ==> Real(Block(dev[i], sector[i])))
    && (forall i, j :: 0 <= i < j < NBUF && dev[i] != NODEV ==> Block(dev[i], sector[i]) != Block(dev[j], sector[j]))
  }

  ghost predicate Holds(dev: seq<nat>, sector: seq<nat>, b: nat, x: Block) {
    b < |dev| && b < |sector| && Block(dev[b], sector[b]) == x
  }

  ghost predicate Missing(dev: seq<nat>, sector: seq<nat>, x: Block) {
    forall c :: 0 <= c < NBUF ==> !Holds(dev, sector, c, x)
  }

  ghost predicate AllBusy(busy: seq<bool>) {
    |busy| == NBUF && forall c :: 0 <= c < NBUF ==> busy[c]
  }

  /** Of the buffers not in use, b was released first. */
  ghost predicate Oldest(busy: seq<bool>, stamp: seq<nat>, b: nat) {
    |busy| == |stamp| == NBUF && b < NBUF && !busy[b] && forall c :: 0 <= c < NBUF && !busy[c] ==> stamp[b] <= stamp[c]
  }

  /** Buffers that may differ from their sectors: changed by their holders and not yet written,
      or marked valid and clean by a transfer that failed; and how many transfers have failed. */
  datatype Stale = Stale(changed: set<nat>, failed: set<nat>, faults: nat)

  function Change(s: Stale, b: nat): Stale { s.(changed := s.changed + {b}) }

  function Renew(s: Stale, b: nat): Stale { s.(changed := s.changed - {b}, failed := s.failed - {b}) }

  function Fault(s: Stale, b: nat): Stale { Stale(s.changed - {b}, s.failed + {b}, s.faults + 1) }

  /** A valid buffer that is neither dirty nor stale holds the words of its sector. */
  ghost predicate Synced(valid: seq<bool>, dirty: seq<bool>, dev: seq<nat>, sector: seq<nat>, data: seq<Data>, disk: Block -> Data, stale: Stale) {
    && |valid| == |dirty| == |dev| == |sector| == |data| == NBUF
    && forall i :: 0 <= i < NBUF && valid[i] ==>
         dev[i] != NODEV && (!dirty[i] && i !in stale.changed && i !in stale.failed ==> data[i] == disk(Block(dev[i], sector[i])))
  }

  // ----- the request queue -----

  function QAt(queue: seq<nat>, i: int): nat {
    if 0 <= i < |queue| then queue[i] else NONE
  }

  ghost predicate Linked(qnext: seq<nat>, queue: seq<nat>, i: int) {
    0 <= i < |queue| && queue[i] < |qnext| && qnext[queue[i]] == QAt(queue, i + 1)
  }

  /** idequeue and qnext list the queue. */
  ghost predicate Chain(idequeue: nat, qnext: seq<nat>, queue: seq<nat>) {
    && |qnext| == NBUF && Distinct(queue) && idequeue == QAt(queue, 0)
    && forall i {:trigger Linked(qnext, queue, i)} :: 0 <= i < |queue| ==> Linked(qnext, queue, i)
  }

  /** Requests wait for busy buffers that need the disk; only they are dirty (but for `ex`). */
  ghost predicate Pending(queue: seq<nat>, busy: seq<bool>, valid: seq<bool>, dirty: seq<bool>, dev: seq<nat>, ex: nat) {
    && |busy| == |valid| == |dirty| == |dev| == NBUF && Distinct(queue)
    && (forall i :: 0 <= i < |queue| ==> busy[queue[i]] && (dirty[queue[i]] || !valid[queue[i]]) && dev[queue[i]] != NODEV)
    && (forall b :: 0 <= b < NBUF && dirty[b] && b != ex ==> b in queue)
  }

  /** Requests are finished in the order in which they were made. */
  ghost predicate Fifo(requested: seq<nat>, completed: seq<nat>, queue: seq<nat>) {
    requested == completed + queue
  }

  lemma FifoPop(requested: seq<nat>, completed: seq<nat>, queue: seq<nat>)
    requires Fifo(requested, completed, queue) && queue != []
    ensures Fifo(requested, completed + [queue[0]], queue[1..])
  {
    assert queue == [queue[0]] + queue[1..];
  }

  lemma FifoAppend(requested: seq<nat>, completed: seq<nat>, queue: seq<nat>, b: nat)
    requires Fifo(requested, completed, queue)
    ensures Fifo(requested + [b], completed, queue + [b])
  {
  }

  /** Only busy buffers hold changes that are not written back. */
  ghost predicate Clean(busy: seq<bool>, stale: Stale) {
    |busy| == NBUF && forall b :: b in stale.changed ==> b < NBUF && busy[b]
  }

  lemma ChainAppend(idequeue: nat, qnext: seq<nat>, queue: seq<nat>, b: nat)
    requires Chain(idequeue, qnext, queue) && b < NBUF && b !in queue
    ensures var q := Put(qnext, b, NONE);
      if queue == [] then Chain(b, q, [b])
      else queue[|queue| - 1] < NBUF && Chain(idequeue, Put(q, queue[|queue| - 1], b), queue + [b])
  {
    var q, queue' := Put(qnext, b, NONE), queue + [b];
    if queue != [] {
      q := Put(q, queue[|queue| - 1], b);
    }
    forall i | 0 <= i < |queue'| ensures Linked(q, queue', i) {
      if i < |queue| {
        assert Linked(qnext, queue, i);
      }
    }
  }

  lemma ChainPop(idequeue: nat, qnext: seq<nat>, queue: seq<nat>)
    requires Chain(idequeue, qnext, queue) && queue != []
    ensures idequeue == queue[0] && idequeue < NBUF && Chain(qnext[idequeue], qnext, queue[1..])
  {
    assert Linked(qnext, queue, 0);
    forall i | 0 <= i < |queue[1..]| ensures Linked(qnext, queue[1..], i) {
      assert Linked(qnext, queue, i + 1);
    }
  }

  lemma PendingAppend(queue: seq<nat>, busy: seq<bool>, valid: seq<bool>, dirty: seq<bool>, dev: seq<nat>, b: nat)
    requires Pending(queue, busy, valid, dirty, dev, b) && b < NBUF && b !in queue
    requires busy[b] && (dirty[b] || !valid[b]) && dev[b] != NODEV
    ensures Pending(queue + [b], busy, valid, dirty, dev, NONE)
  {
  }

  /** What bwrite does to the flags. */
  lemma DirtyOk(queue: seq<nat>, busy: seq<bool>, valid: seq<bool>, dirty: seq<bool>, dev: seq<nat>, sector: seq<nat>, data: seq<Data>,
                disk: Block -> Data, stale: Stale, b: nat)
    requires Pending(queue, busy, valid, dirty, dev, NONE) && Synced(valid, dirty, dev, sector, data, disk, stale) && b < NBUF && b !in queue
    ensures Pending(queue, busy, valid, dirty[b := true], dev, b) && Synced(valid, dirty[b := true], dev, sector, data, disk, stale)
  {
  }

  function Stored(disk: Block -> Data, x: Block, v: Data): Block -> Data {
    y => if y == x then v else disk(y)
  }

  /** One transfer: a dirty buffer is stored in its sector, another one is filled from it, unless
      the device reports an error; the flags are set all the same. */
  ghost predicate Carried(b: nat, ok: bool, dev: seq<nat>, sector: seq<nat>, valid0: seq<bool>, valid: seq<bool>, dirty0: seq<bool>, dirty: seq<bool>,
                          data0: seq<Data>, data: seq<Data>, disk0: Block -> Data, disk: Block -> Data, stale0: Stale, stale: Stale) {
    && |dev| == |sector| == |valid0| == |dirty0| == |data0| == NBUF && b < NBUF
    && var x := Block(dev[b], sector[b]);
    && valid == valid0[b := true] && dirty == dirty0[b := false]
    && disk == (if dirty0[b] && ok then Stored(disk0, x, data0[b]) else disk0)
    && data == (if !dirty0[b] && ok then data0[b := disk0(x)] else data0)
    && stale == if ok then Renew(stale0, b) else Fault(stale0, b)
  }

  /** After a transfer valid, clean buffers still equal their sectors, but for the failed ones. */
  lemma TransferOk(queue: seq<nat>, busy: seq<bool>, ok: bool, dev: seq<nat>, sector: seq<nat>, valid0: seq<bool>, valid: seq<bool>,
                   dirty0: seq<bool>, dirty: seq<bool>, data0: seq<Data>, data: seq<Data>, disk0: Block -> Data, disk: Block -> Data,
                   stale0: Stale, stale: Stale)
    requires queue != [] && Pending(queue, busy, valid0, dirty0, dev, NONE) && Synced(valid0, dirty0, dev, sector, data0, disk0, stale0)
    requires Unique(dev, sector)
    requires Carried(queue[0], ok, dev, sector, valid0, valid, dirty0, dirty, data0, data, disk0, disk, stale0, stale)
    ensures Pending(queue[1..], busy, valid, dirty, dev, NONE) && Synced(valid, dirty, dev, sector, data, disk, stale)
    ensures Clean(busy, stale0) ==> Clean(busy, stale)
  {
    var b := queue[0];
    var rest := queue[1..];
    forall c | 0 <= c < NBUF && dirty[c] ensures c in rest {
      assert c in queue;
    }
    forall i | 0 <= i < |rest| ensures rest[i] != b {
      assert rest[i] == queue[i + 1];
    }
  }

  lemma BusyOk(queue: seq<nat>, busy: seq<bool>, valid: seq<bool>, dirty: seq<bool>, dev: seq<nat>, b: nat)
    requires Pending(queue, busy, valid, dirty, dev, NONE) && b < NBUF
    ensures Pending(queue, busy[b := true], valid, dirty, dev, NONE)
  {
  }

  lemma IdleOk(queue: seq<nat>, busy: seq<bool>, valid: seq<bool>, dirty: seq<bool>, dev: seq<nat>, b: nat)
    requires Pending(queue, busy, valid, dirty, dev, NONE) && b < NBUF && b !in queue
    ensures Pending(queue, busy[b := false], valid, dirty, dev, NONE)
  {
  }

  lemma RecycleOk(queue: seq<nat>, busy: seq<bool>, valid: seq<bool>, dirty: seq<bool>, dev: seq<nat>, sector: seq<nat>,
                  data: seq<Data>, disk: Block -> Data, stale: Stale, b: nat, x: Block)
    requires Pending(queue, busy, valid, dirty, dev, NONE) && Synced(valid, dirty, dev, sector, data, disk, stale) && Unique(dev, sector)
    requires b < NBUF && !busy[b] && Real(x) && Missing(dev, sector, x)
    ensures var dev', sector' := Put(dev, b, x.dev), Put(sector, b, x.sector);
      && Unique(dev', sector')
      && Synced(valid[b := false], dirty[b := false], dev', sector', data, disk, Renew(stale, b))
      && Pending(queue, busy[b := true], valid[b := false], dirty[b := false], dev', NONE)
  {
    forall c | 0 <= c < NBUF ensures Block(dev[c], sector[c]) != x {
      assert !Holds(dev, sector, c, x);
    }
  }

  /** The state that binit leaves, apart from the list. */
  lemma StartsClean(dev: seq<nat>, sector: seq<nat>, busy: seq<bool>, valid: seq<bool>, dirty: seq<bool>, data: seq<Data>,
                    qnext: seq<nat>, disk: Block -> Data)
    requires |dev| == |sector| == |busy| == |valid| == |dirty| == |data| == |qnext| == NBUF
    requires forall b :: 0 <= b < NBUF ==> dev[b] == NODEV && !valid[b] && !dirty[b]
    ensures Unique(dev, sector) && Synced(valid, dirty, dev, sector, data, disk, Stale({}, {}, 0))
    ensures Chain(NONE, qnext, []) && Pending([], busy, valid, dirty, dev, NONE) && Clean(busy, Stale({}, {}, 0)) && Fifo([], [], [])
  {
  }

  lemma StartsRing(prev: seq<nat>, next: seq<nat>)
    requires |prev| == |next| == NBUF + 1 && prev[HEAD] == HEAD && next[HEAD] == HEAD
    ensures Ring(prev, next, [])
  {
  }

  /** The six assignments of brelse. */
  lemma MovedRing(prev: seq<nat>, next: seq<nat>, order: seq<nat>, k: nat)
    requires Ring(prev, next, order) && k < |order|
    ensures var b := order[k];
      && b < NBUF && next[b] <= HEAD && prev[b] <= HEAD
      && var p1 := Put(prev, next[b], prev[b]);
      && p1[b] <= HEAD
      && var n1 := Put(next, p1[b], next[b]);
      && var n2 := Put(n1, b, n1[HEAD]);
      && var p2 := Put(p1, b, HEAD);
      && n2[HEAD] <= HEAD
      && Ring(Put(p2, n2[HEAD], b), Put(n2, HEAD, b), [b] + Without(order, k))
  {
    UnlinkRing(prev, next, order, k);
    var b := order[k];
    PushRing(Put(prev, next[b], prev[b]), Put(next, prev[b], next[b]), Without(order, k), b);
  }

  lemma MovedRecent(order: seq<nat>, stamp: seq<nat>, clock: nat, k: nat)
    requires Recent(order, stamp, clock) && Distinct(order) && k < |order|
    ensures Recent([order[k]] + Without(order, k), Put(stamp, order[k], clock), clock + 1)
    ensures |order| == NBUF ==> forall c :: 0 <= c < NBUF ==> stamp[c] < clock
  {
    var b, rest := order[k], Without(order, k);
    forall i | 0 <= i < |rest| ensures rest[i] == order[if i < k then i else i + 1] && rest[i] != b {
    }
    if |order| == NBUF {
      forall c | 0 <= c < NBUF ensures stamp[c] < clock {
        Covers(order, c);
      }
    }
  }

  datatype Got = Have(b: nat) | Wait(b: nat) | NoBuffers
  datatype Io = Queued | Panic

  class Cache {
    var prev: seq<nat>
    var next: seq<nat>
    var busy: seq<bool>
    var valid: seq<bool>
    var dirty: seq<bool>
    var dev: seq<nat>
    var sector: seq<nat>
    var data: seq<Data>
    var qnext: seq<nat>
    var idequeue: nat
    var active: nat               // the request given to the device, NONE when it is idle
    var disk: Block -> Data
    const havedisk1: bool
    ghost var order: seq<nat>     // the list from head.next on
    ghost var stamp: seq<nat>     // when each buffer was last put at the front
    ghost var clock: nat
    ghost var stale: Stale
    ghost var queue: seq<nat>
    ghost var requested: seq<nat> // every request ever made, in order
    ghost var completed: seq<nat> // every request ever finished, in order

    ghost predicate ValidBut(ex: nat)
      reads this
    {
      && Ring(prev, next, order) && |order| == NBUF && Recent(order, stamp, clock)
      && Unique(dev, sector) && Synced(valid, dirty, dev, sector, data, disk, stale)
      && Chain(idequeue, qnext, queue) && Pending(queue, busy, valid, dirty, dev, ex)
      && active == idequeue && Fifo(requested, completed, queue) && (stale.faults == 0 ==> stale.failed == {})
    }

    ghost predicate Valid()
      reads this
    {
      ValidBut(NONE)
    }

    /** Holders write their changes back before they release. */
    ghost predicate Disciplined()
      reads this
    {
      Clean(busy, stale)
    }

    /** binit. */
    constructor (disk0: Block -> Data, data0: seq<Data>, two: bool)
      requires |data0| == NBUF
      ensures Valid() && Disciplined() && disk == disk0 && data == data0 && havedisk1 == two && requested == queue == [] && stale == Stale({}, {}, 0)
      ensures |busy| == |valid| == |dev| == NBUF == 10 && forall b :: 0 <= b < NBUF ==> !busy[b] && !valid[b] && dev[b] == 0xFFFF_FFFF
      ensures forall i :: 0 <= i < NBUF ==> order[i] == NBUF - 1 - i
    {
      disk, data, havedisk1 := disk0, data0, two;
      busy, valid, dirty := seq(NBUF, _ => false), seq(NBUF, _ => false), seq(NBUF, _ => false);
      dev, sector, qnext := seq(NBUF, _ => NODEV), seq(NBUF, _ => 0), seq(NBUF, _ => 0);
      idequeue, active := NONE, NONE;
      prev, next := seq(NBUF + 1, _ => HEAD), seq(NBUF + 1, _ => HEAD);
      order, stamp, clock := [], seq(NBUF, i => i), NBUF;
      queue, requested, completed, stale := [], [], [], Stale({}, {}, 0);
      new;
      StartsClean(dev, sector, busy, valid, dirty, data, qnext, disk);
      StartsRing(prev, next);
      hide Ring, Unique, Synced, Chain, Pending, Clean, Fifo;
      LinkAll();
    }

    /** The loop of binit. */
    method LinkAll()
      requires order == [] && Ring(prev, next, order)
      modifies this`prev, this`next, this`order
      ensures Ring(prev, next, order) && |order| == NBUF
      ensures forall i :: 0 <= i < NBUF ==> order[i] == NBUF - 1 - i
    {
      var b := 0;
      while b < NBUF
        invariant 0 <= b <= NBUF && Ring(prev, next, order) && |order| == b
        invariant forall i :: 0 <= i < b ==> order[i] == b - 1 - i
      {
        PushRing(prev, next, order, b);
        next := Put(next, b, next[HEAD]);
        prev := Put(prev, b, HEAD);
        prev := Put(prev, next[HEAD], b);
        next := Put(next, HEAD, b);
        order := [b] + order;
        b := b + 1;
      }
    }

    /** The cache is the disk: with changes written back, every buffer that is free and valid
        holds the bytes of its sector, but for those whose last transfer failed; with no failed
        transfer, every one. */
    lemma CacheIsDisk()
      requires Valid() && Disciplined()
      ensures stale.faults == 0 ==> stale.failed == {}
      ensures forall b :: 0 <= b < NBUF && valid[b] && !busy[b] && b !in stale.failed ==> data[b] == disk(Block(dev[b], sector[b]))
    {
      hide Ring, Chain;
      forall b | 0 <= b < NBUF && valid[b] && !busy[b] && b !in stale.failed ensures data[b] == disk(Block(dev[b], sector[b])) {
        assert dirty[b] ==> b in queue;
      }
    }

    /** First loop of bget. */
    method FindBlock(x: Block) returns (b: nat)
      requires Valid()
      ensures if b == NONE then Missing(dev, sector, x) else b < NBUF && Holds(dev, sector, b, x)
    {
      assert |dev| == |sector| == NBUF;
      hide Recent, Unique, Synced, Chain, Pending;
      b := next[HEAD];
      ghost var i := 1;
      assert Joined(prev, next, order, 0);
      while b != HEAD
        invariant 1 <= i <= NBUF + 1 && b == At(order, i)
        invariant forall j :: 0 <= j < i - 1 ==> !Holds(dev, sector, order[j], x)
        decreases NBUF + 1 - i
      {
        if Block(dev[b], sector[b]) == x {
          return;
        }
        assert Joined(prev, next, order, i);
        b := next[b];
        i := i + 1;
      }
      forall c | 0 <= c < NBUF ensures !Holds(dev, sector, c, x) {
        Covers(order, c);
      }
      b := NONE;
    }

    /** Second loop of bget: from the far end, the first buffer that is not busy. */
    method FindVictim() returns (b: nat)
      requires Valid()
      ensures if b == NONE then AllBusy(busy) else Oldest(busy, stamp, b)
    {
      assert |busy| == NBUF;
      hide Unique, Synced, Chain, Pending;
      b := prev[HEAD];
      ghost var i := NBUF;
      assert Joined(prev, next, order, NBUF);
      while b != HEAD
        invariant 0 <= i <= NBUF && b == At(order, i)
        invariant forall j :: i <= j < NBUF ==> busy[order[j]]
        decreases i
      {
        if !busy[b] {
          forall c | 0 <= c < NBUF && !busy[c] ensures stamp[b] <= stamp[c] {
            Covers(order, c);
          }
          return;
        }
        assert Joined(prev, next, order, i - 1);
        b := prev[b];
        i := i - 1;
      }
      forall c | 0 <= c < NBUF ensures busy[c] {
        Covers(order, c);
      }
      b := NONE;
    }

    /** bget: the buffer of sector x, made busy; on a miss the least recently released one. */
    method Bget(x: Block) returns (r: Got)
      requires Valid() && Real(x)
      modifies this`busy, this`valid, this`dirty, this`dev, this`sector, this`stale
      ensures Valid() && (old(Disciplined()) ==> Disciplined())
      ensures r.NoBuffers? ==> Missing(dev, sector, x) && AllBusy(busy) && unchanged(this)
      ensures r.Wait? ==> r.b < NBUF && Holds(dev, sector, r.b, x) && busy[r.b] && unchanged(this)
      ensures r.Have? ==> r.b < NBUF && !old(busy)[r.b] && Holds(dev, sector, r.b, x) && busy == old(busy)[r.b := true]
      ensures r.Have? && Holds(old(dev), old(sector), r.b, x) ==>
        valid == old(valid) && dirty == old(dirty) && dev == old(dev) && sector == old(sector) && stale == old(stale)
      ensures r.Have? && !Holds(old(dev), old(sector), r.b, x) ==>
        && Missing(old(dev), old(sector), x) && Oldest(old(busy), stamp, r.b)
        && valid == old(valid)[r.b := false] && dirty == old(dirty)[r.b := false] && stale == Renew(old(stale), r.b)
        && dev == Put(old(dev), r.b, x.dev) && sector == Put(old(sector), r.b, x.sector)
    {
      assert |busy| == |valid| == |dirty| == |dev| == |sector| == NBUF;
      var b := FindBlock(x);
      if b != NONE {
        if busy[b] {
          return Wait(b);
        }
        BusyOk(queue, busy, valid, dirty, dev, b);
        hide Ring, Recent, Unique, Synced, Chain, Pending, Fifo;
        busy := busy[b := true];
        return Have(b);
      }
      b := FindVictim();
      if b == NONE {
        return NoBuffers;
      }
      hide Ring, Recent, Unique, Synced, Chain, Pending, Fifo;
      Recycle(b, x);
      return Have(b);
    }

    /** Buffer b, which nobody uses, becomes the empty buffer of sector x. */
    method Recycle(b: nat, x: Block)
      requires Valid() && Real(x) && b < NBUF && |busy| == NBUF && !busy[b] && Missing(dev, sector, x)
      requires |valid| == |dirty| == |dev| == |sector| == NBUF
      modifies this`busy, this`valid, this`dirty, this`dev, this`sector, this`stale
      ensures Valid() && busy == old(busy)[b := true] && valid == old(valid)[b := false] && dirty == old(dirty)[b := false]
      ensures stale == Renew(old(stale), b) && dev == Put(old(dev), b, x.dev) && sector == Put(old(sector), b, x.sector)
    {
      RecycleOk(queue, busy, valid, dirty, dev, sector, data, disk, stale, b, x);
      hide Ring, Recent, Unique, Synced, Chain, Pending, Fifo;
      Rename(b, x);
      busy, valid, dirty := busy[b := true], valid[b := false], dirty[b := false];
      stale := Renew(stale, b);
    }

    method Rename(b: nat, x: Block)
      requires b < |dev| && b < |sector|
      modifies this`dev, this`sector
      ensures dev == Put(old(dev), b, x.dev) && sector == Put(old(sector), b, x.sector)
    {
      dev := Put(dev, b, x.dev);
      sector := Put(sector, b, x.sector);
    }

    /** Appending to the queue: the walk to its last link. */
    method Append(b: nat)
      requires Chain(idequeue, qnext, queue) && b < NBUF && b !in queue
      modifies this`qnext, this`idequeue, this`queue
      ensures queue == old(queue) + [b] && Chain(idequeue, qnext, queue)
      ensures idequeue == b <==> old(queue) == []
    {
      ChainAppend(idequeue, qnext, queue, b);
      ghost var q0 := qnext;
      qnext := Put(qnext, b, NONE);
      var last, p := NONE, idequeue;
      ghost var i := 0;
      while p != NONE
        invariant 0 <= i <= |queue| && p == QAt(queue, i) && last == QAt(queue, i - 1)
        decreases |queue| - i
      {
        assert Linked(q0, queue, i);
        last, p := p, qnext[p];
        i := i + 1;
      }
      if last == NONE {
        idequeue := b;
      } else {
        qnext := Put(qnext, last, b);
      }
      queue := queue + [b];
    }

    /** iderw up to the wait: the holder of b asks for a transfer. */
    method Iderw(b: nat) returns (r: Io)
      requires ValidBut(b) && b < NBUF && b !in queue && dev[b] != NODEV
      modifies this`qnext, this`idequeue, this`active, this`queue, this`requested
      ensures r.Panic? <==> !busy[b] || (valid[b] && !dirty[b]) || (dev[b] != 0 && !havedisk1)
      ensures r.Queued? ==> Valid() && queue == old(queue) + [b] && requested == old(requested) + [b]
      ensures r.Panic? ==> unchanged(this)
    {
      if !busy[b] {
        return Panic;
      }
      if valid[b] && !dirty[b] {
        return Panic;
      }
      if dev[b] != 0 && !havedisk1 {
        return Panic;
      }
      hide Ring, Recent, Unique, Synced, Chain, Pending, Fifo;
      Enqueue(b);
      return Queued;
    }

    method Enqueue(b: nat)
      requires ValidBut(b) && b < NBUF && b !in queue && |busy| == |valid| == |dirty| == |dev| == NBUF
      requires dev[b] != NODEV && busy[b] && (dirty[b] || !valid[b])
      modifies this`qnext, this`idequeue, this`active, this`queue, this`requested
      ensures Valid() && queue == old(queue) + [b] && requested == old(requested) + [b]
    {
      PendingAppend(queue, busy, valid, dirty, dev, b);
      FifoAppend(requested, completed, queue, b);
      hide Ring, Recent, Unique, Synced, Chain, Pending, Fifo;
      Append(b);
      Start(b);
    }

    /** The device starts on a request that does not have to wait. */
    method Start(b: nat)
      modifies this`active, this`requested
      ensures active == (if idequeue == b then b else old(active)) && requested == old(requested) + [b]
    {
      if idequeue == b {
        active := b; // idestart(b)
      }
      requested := requested + [b];
    }

    /** ideintr: the oldest request is done; `ok` tells whether the transfer
        succeeded, which the code asks only for reads, and then only to skip the copying. */
    method Ideintr(ok: bool)
      requires Valid()
      modifies this`data, this`valid, this`dirty, this`idequeue, this`active, this`disk, this`queue, this`completed, this`stale
      ensures Valid() && (old(Disciplined()) ==> Disciplined())
      ensures old(queue) == [] ==> unchanged(this)
      ensures old(queue) != [] ==>
        && queue == old(queue)[1..] && completed == old(completed) + [old(queue)[0]]
        && Carried(old(queue)[0], ok, dev, sector, old(valid), valid, old(dirty), dirty, old(data), data, old(disk), disk, old(stale), stale)
      ensures old(queue) != [] ==> var b := old(queue)[0];
        && b < |dev| == |sector| == |old(dirty)| == |data| == |old(data)|
        && (forall y :: disk(y) == if ok && old(dirty)[b] && y == Block(dev[b], sector[b]) then old(data)[b] else old(disk)(y))
        && data == if ok && !old(dirty)[b] then old(data)[b := old(disk)(Block(dev[b], sector[b]))] else old(data)
    {
      if idequeue == NONE {
        return;
      }
      assert queue != [];
      hide Ring, Recent, Chain, Pending, Synced, Unique, Carried, Fifo, Clean;
      Complete(ok);
    }

    method Complete(ok: bool)
      requires Valid() && queue != []
      modifies this`data, this`valid, this`dirty, this`idequeue, this`active, this`disk, this`queue, this`completed, this`stale
      ensures Valid() && (old(Disciplined()) ==> Disciplined())
      ensures queue == old(queue)[1..] && completed == old(completed) + [old(queue)[0]]
      ensures Carried(old(queue)[0], ok, dev, sector, old(valid), valid, old(dirty), dirty, old(data), data, old(disk), disk, old(stale), stale)
    {
      ChainPop(idequeue, qnext, queue);
      FifoPop(requested, completed, queue);
      assert |qnext| == NBUF;
      hide Ring, Recent, Chain, Pending, Synced, Unique, Carried, Fifo, Clean;
      var b := idequeue;
      Transfer(b, ok);
      Advance(b);
    }

    /** The next request becomes the head, and the device starts on it. */
    method Advance(b: nat)
      requires b < |qnext|
      modifies this`idequeue, this`active, this`completed
      ensures idequeue == active == qnext[b] && completed == old(completed) + [b]
    {
      idequeue := qnext[b];
      active := idequeue; // idestart(idequeue), if there is one
      completed := completed + [b];
    }

    /** The device's part: the request at the head of the queue is carried out. */
    method Transfer(b: nat, ok: bool)
      requires queue != [] && b == queue[0] && Pending(queue, busy, valid, dirty, dev, NONE) && Unique(dev, sector)
      requires Synced(valid, dirty, dev, sector, data, disk, stale)
      modifies this`data, this`valid, this`dirty, this`disk, this`stale, this`queue
      ensures queue == old(queue)[1..] && Pending(queue, busy, valid, dirty, dev, NONE)
      ensures Synced(valid, dirty, dev, sector, data, disk, stale) && (old(Disciplined()) ==> Disciplined())
      ensures Carried(b, ok, dev, sector, old(valid), valid, old(dirty), dirty, old(data), data, old(disk), disk, old(stale), stale)
    {
      assert b < NBUF && |dev| == |sector| == |valid| == |dirty| == |data| == NBUF;
      hide Pending, Synced, Unique, Carried, Clean;
      ghost var valid0, dirty0, data0, disk0, stale0, queue0 := valid, dirty, data, disk, stale, queue;
      Carry(b, ok);
      TransferOk(queue0, busy, ok, dev, sector, valid0, valid, dirty0, dirty, data0, data, disk0, disk, stale0, stale);
    }

    method Carry(b: nat, ok: bool)
      requires b < NBUF && queue != [] && |dev| == |sector| == |valid| == |dirty| == |data| == NBUF
      modifies this`data, this`valid, this`dirty, this`disk, this`stale, this`queue
      ensures queue == old(queue)[1..]
      ensures Carried(b, ok, dev, sector, old(valid), valid, old(dirty), dirty, old(data), data, old(disk), disk, old(stale), stale)
    {
      MoveBytes(b, ok);
      Finish(b);
    }

    /** The flags of a finished request, which leaves the queue. */
    method Finish(b: nat)
      requires b < |valid| && b < |dirty| && queue != []
      modifies this`valid, this`dirty, this`queue
      ensures valid == old(valid)[b := true] && dirty == old(dirty)[b := false] && queue == old(queue)[1..]
    {
      valid := valid[b := true];
      dirty := dirty[b := false];
      queue := queue[1..];
    }

    /** A write stores the buffer, a read fills it, unless the device reports an error. */
    method MoveBytes(b: nat, ok: bool)
      requires b < |dev| && b < |sector| && b < |dirty| && b < |data|
      modifies this`data, this`disk, this`stale
      ensures disk == if dirty[b] && ok then Stored(old(disk), Block(dev[b], sector[b]), old(data)[b]) else old(disk)
      ensures data == if !dirty[b] && ok then old(data)[b := old(disk)(Block(dev[b], sector[b]))] else old(data)
      ensures stale == if ok then Renew(old(stale), b) else Fault(old(stale), b)
    {
      if dirty[b] && ok {
        disk := Stored(disk, Block(dev[b], sector[b]), data[b]);
      } else if !dirty[b] && ok {
        data := data[b := disk(Block(dev[b], sector[b]))];
      }
      stale := if ok then Renew(stale, b) else Fault(stale, b);
    }

    /** The holder of a buffer changes its bytes. */
    method SetData(b: nat, v: Data)
      requires Valid() && b < NBUF && busy[b] && b !in queue
      modifies this`data, this`stale
      ensures Valid() && data == old(data)[b := v] && stale == Change(old(stale), b) && (old(Disciplined()) ==> Disciplined())
    {
      hide Ring, Recent, Unique, Chain, Fifo;
      data := data[b := v];
      stale := Change(stale, b);
    }

    /** bread up to the wait: the list, the bytes and the disk stay as they are; a read is queued
        exactly when the buffer is not valid. */
    method Bread(x: Block) returns (r: Got, io: Option<Io>)
      requires Valid() && Real(x)
      modifies this`busy, this`valid, this`dirty, this`dev, this`sector, this`stale
      modifies this`qnext, this`idequeue, this`active, this`queue, this`requested
      ensures old(Disciplined()) ==> Disciplined()
      ensures stale.faults == old(stale.faults) && stale.changed <= old(stale.changed) && stale.failed <= old(stale.failed)
      ensures r.NoBuffers? ==> Missing(dev, sector, x) && AllBusy(busy) && unchanged(this)
      ensures r.Wait? ==> r.b < NBUF && Holds(dev, sector, r.b, x) && |busy| == NBUF && busy[r.b] && unchanged(this)
      ensures r.Have? ==> r.b < NBUF && |old(valid)| == |old(dirty)| == |data| == NBUF && |old(busy)| == |old(dev)| == |old(sector)| == NBUF
      ensures r.Have? ==> !old(busy)[r.b] && busy == old(busy)[r.b := true] && Holds(dev, sector, r.b, x)
      ensures r.Have? && Holds(old(dev), old(sector), r.b, x) ==>
        valid == old(valid) && dirty == old(dirty) && dev == old(dev) && sector == old(sector) && stale == old(stale)
      ensures r.Have? && !Holds(old(dev), old(sector), r.b, x) ==>
        && Missing(old(dev), old(sector), x) && Oldest(old(busy), stamp, r.b)
        && valid == old(valid)[r.b := false] && dirty == old(dirty)[r.b := false] && stale == Renew(old(stale), r.b)
        && dev == Put(old(dev), r.b, x.dev) && sector == Put(old(sector), r.b, x.sector)
      ensures r.Have? ==> (io.None? <==> Holds(old(dev), old(sector), r.b, x) && old(valid)[r.b])
      ensures io.None? ==> Valid() && queue == old(queue) && requested == old(requested)
      ensures r.Have? && io.None? ==> valid[r.b] && (old(Disciplined()) && r.b !in stale.failed ==> data[r.b] == disk(x))
      ensures io == Some(Queued) ==> r.Have? && Valid() && queue == old(queue) + [r.b] && requested == old(requested) + [r.b]
      ensures io == Some(Queued) ==> !valid[r.b] && !dirty[r.b]
      ensures io == Some(Panic) <==> r.Have? && !io.None? && x.dev != 0 && !havedisk1
      ensures io == Some(Panic) ==> queue == old(queue) && requested == old(requested) && qnext == old(qnext) && idequeue == active == old(idequeue)
    {
      io := None;
      HitIsDisk(x);
      assert |busy| == |valid| == |dirty| == |dev| == |sector| == |data| == NBUF;
      hide Ring, Recent, Unique, Synced, Chain, Fifo, Missing, Clean, Oldest;
      r := Bget(x);
      if !r.Have? {
        return;
      }
      if !valid[r.b] {
        var got := Iderw(r.b);
        io := Some(got);
      }
    }

    /** What a hit in bget finds. */
    lemma HitIsDisk(x: Block)
      requires Valid()
      ensures Disciplined() ==> forall b ::
        0 <= b < NBUF && Holds(dev, sector, b, x) && valid[b] && !busy[b] && b !in stale.failed ==> data[b] == disk(x)
    {
      hide Ring, Chain, Recent, Unique, Synced, Pending, Fifo, Clean;
      if Disciplined() {
        CacheIsDisk();
      }
    }

    /** bwrite up to the wait. */
    method Bwrite(b: nat) returns (r: Io)
      requires Valid() && b < NBUF && b !in queue && dev[b] != NODEV
      modifies this`dirty, this`qnext, this`idequeue, this`active, this`queue, this`requested
      ensures r.Panic? <==> !busy[b] || (dev[b] != 0 && !havedisk1)
      ensures r.Queued? ==> Valid() && queue == old(queue) + [b] && requested == old(requested) + [b] && dirty == old(dirty)[b := true]
      ensures r.Panic? ==> queue == old(queue) && requested == old(requested) && dirty == if busy[b] then old(dirty)[b := true] else old(dirty)
    {
      if !busy[b] {
        return Panic;
      }
      DirtyOk(queue, busy, valid, dirty, dev, sector, data, disk, stale, b);
      hide Ring, Recent, Unique, Synced, Chain, Pending, Fifo;
      dirty := dirty[b := true];
      r := Iderw(b);
    }

    /** brelse: b moves to the front of the list. */
    method Brelse(b: nat) returns (panicked: bool)
      requires Valid() && b < NBUF && b !in queue
      modifies this`prev, this`next, this`busy, this`order, this`stamp, this`clock
      ensures panicked <==> !old(busy[b])
      ensures panicked ==> unchanged(this)
      ensures Valid() && busy == old(busy)[b := false]
      ensures !panicked ==> exists k :: 0 <= k < |old(order)| && old(order)[k] == b && order == [b] + Without(old(order), k)
      ensures !panicked ==> |old(stamp)| == |stamp| && forall c :: 0 <= c < NBUF && c != b ==> stamp[c] == old(stamp[c]) < stamp[b]
      ensures old(Disciplined()) && b !in stale.changed ==> Disciplined()
    {
      if !busy[b] {
        return true;
      }
      IdleOk(queue, busy, valid, dirty, dev, b);
      MoveToFront(b);
      hide Pending, Ring, Recent, Unique, Synced, Chain, Fifo;
      busy := busy[b := false];
      return false;
    }

    method MoveToFront(b: nat)
      requires Valid() && b < NBUF
      modifies this`prev, this`next, this`order, this`stamp, this`clock
      ensures Valid()
      ensures exists k :: 0 <= k < |old(order)| && old(order)[k] == b && order == [b] + Without(old(order), k)
      ensures |old(stamp)| == |stamp| == NBUF && forall c :: 0 <= c < NBUF && c != b ==> stamp[c] == old(stamp)[c] < stamp[b]
    {
      ghost var k := Place(order, b);
      MovedRecent(order, stamp, clock, k);
      hide Ring, Recent, Unique, Synced, Chain, Pending, Fifo;
      Splice(b, k);
      Stamp(b);
    }

    ghost method Stamp(b: nat)
      requires b < |stamp|
      modifies this`stamp, this`clock
      ensures stamp == Put(old(stamp), b, old(clock)) && clock == old(clock) + 1
    {
      stamp := Put(stamp, b, clock);
      clock := clock + 1;
    }

    /** The six pointer assignments of brelse. */
    method Splice(b: nat, ghost k: nat)
      requires Ring(prev, next, order) && k < |order| && order[k] == b
      modifies this`prev, this`next, this`order
      ensures Ring(prev, next, order) && order == [b] + Without(old(order), k)
    {
      MovedRing(prev, next, order, k);
      hide Ring;
      prev := Put(prev, next[b], prev[b]);
      next := Put(next, prev[b], next[b]);
      next := Put(next, b, next[HEAD]);
      prev := Put(prev, b, HEAD);
      prev := Put(prev, next[HEAD], b);
      next := Put(next, HEAD, b);
      order := [b] + Without(order, k);
    }
  }

  /** A read that fails leaves a valid buffer, free for anyone, that differs from its sector. */
  method FailedReadIsKept(disk0: Block -> Data, data0: seq<Data>) returns (c: Cache, b: nat)
    requires |data0| == NBUF && forall i :: 0 <= i < NBUF ==> data0[i] != disk0(Block(0, 0))
    ensures fresh(c) && c.Valid() && c.Disciplined() && c.stale.faults == 1
    ensures b < NBUF && |c.valid| == |c.busy| == |c.dev| == |c.sector| == |c.data| == NBUF
    ensures c.valid[b] && !c.busy[b] && c.data[b] != c.disk(Block(c.dev[b], c.sector[b]))
  {
    c, b := FirstRead(disk0, data0);
    hide Ring, Recent, Unique, Synced, Chain, Fifo, Clean, Pending;
    assert c.queue[0] == b;
    c.Ideintr(false);
    assert |c.valid| == |c.busy| == NBUF && c.valid[b] && c.data == data0 && c.queue == [] && c.stale == Stale({}, {b}, 1);
    var _ := c.Brelse(b);
  }

  /** So does a write that fails: the new bytes are in the cache and not in the sector. */
  method FailedWriteIsKept(disk0: Block -> Data, data0: seq<Data>, v: Data) returns (c: Cache, b: nat)
    requires |data0| == NBUF && v != disk0(Block(0, 0))
    ensures fresh(c) && c.Valid() && c.Disciplined() && c.stale.faults == 1
    ensures b < NBUF && |c.valid| == |c.busy| == |c.dev| == |c.sector| == |c.data| == NBUF
    ensures c.valid[b] && !c.busy[b] && c.data[b] == v != c.disk(Block(c.dev[b], c.sector[b]))
  {
    c, b := FirstRead(disk0, data0);
    assert c.queue[0] == b;
    hide Ring, Recent, Unique, Synced, Chain, Fifo, Clean, Pending;
    c.Ideintr(true);
    WriteFails(c, b, v);
    var _ := c.Brelse(b);
  }

  /** A holder changes buffer b and writes it, and the device reports an error. */
  method WriteFails(c: Cache, b: nat, v: Data)
    requires c.Valid() && c.Disciplined() && c.queue == [] && c.stale == Stale({}, {}, 0)
    requires b < NBUF && Holds(c.dev, c.sector, b, Block(0, 0)) && |c.busy| == NBUF && c.busy[b]
    modifies c
    ensures c.Valid() && c.Disciplined() && c.queue == [] && c.stale == Stale({}, {b}, 1) && c.disk == old(c.disk)
    ensures |c.busy| == |c.valid| == |c.data| == NBUF && c.busy == old(c.busy) && c.valid[b] && c.data[b] == v
    ensures Holds(c.dev, c.sector, b, Block(0, 0))
  {
    hide Ring, Recent, Unique, Synced, Chain, Fifo, Clean, Pending;
    ChangeAndWrite(c, b, v);
    assert c.queue[0] == b;
    c.Ideintr(false);
  }

  method ChangeAndWrite(c: Cache, b: nat, v: Data)
    requires c.Valid() && c.Disciplined() && c.queue == [] && c.stale == Stale({}, {}, 0)
    requires b < NBUF && Holds(c.dev, c.sector, b, Block(0, 0)) && |c.busy| == NBUF && c.busy[b]
    modifies c`data, c`stale, c`dirty, c`qnext, c`idequeue, c`active, c`queue, c`requested
    ensures c.Valid() && c.Disciplined() && c.queue == [b] && c.stale == Stale({b}, {}, 0)
    ensures |c.data| == |c.dirty| == NBUF && c.data[b] == v && c.dirty[b]
  {
    assert |c.data| == |c.dirty| == |c.dev| == NBUF;
    hide Ring, Recent, Unique, Synced, Chain, Fifo, Clean, Pending;
    c.SetData(b, v);
    var _ := c.Bwrite(b);
  }

  /** The first read on a fresh cache. */
  method FirstRead(disk0: Block -> Data, data0: seq<Data>) returns (c: Cache, b: nat)
    requires |data0| == NBUF
    ensures fresh(c) && c.Valid() && c.Disciplined() && c.stale == Stale({}, {}, 0) && c.disk == disk0 && c.data == data0
    ensures b < NBUF && Holds(c.dev, c.sector, b, Block(0, 0)) && c.queue == [b] && b < |c.dirty| && !c.dirty[b] && b < |c.busy| && c.busy[b]
  {
    c := new Cache(disk0, data0, true);
    hide Ring, Recent, Unique, Synced, Chain, Fifo, Clean, Missing, Pending;
    ghost var busy0, valid0 := c.busy, c.valid;
    assert forall i :: 0 <= i < NBUF ==> !valid0[i] && !busy0[i];
    assert !busy0[0] && |busy0| == NBUF;
    var r, io := c.Bread(Block(0, 0));
    assert !AllBusy(busy0);
    assert r.Have?;
    b := r.b;
    assert !valid0[b];
    assert io.Some? && (io.value == Queued || io.value == Panic);
  }

  /** NBUF distinct buffers are all the buffers. */
  lemma Covers(order: seq<nat>, c: nat)
    requires Distinct(order) && |order| == NBUF && c < NBUF
    ensures c in order
  {
    if c !in order {
      CardOf(order);
      hide Distinct;
      OneMissing(Elements(order), NBUF, c);
    }
  }

  lemma Place(order: seq<nat>, c: nat) returns (k: nat)
    requires Distinct(order) && |order| == NBUF && c < NBUF
    ensures k < |order| && order[k] == c
  {
    Covers(order, c);
    k :| 0 <= k < |order| && order[k] == c;
  }

  ghost function Elements(s: seq<nat>): set<nat> {
    set x | x in s
  }

  lemma {:induction false} CardOf(order: seq<nat>)
    requires Distinct(order)
    ensures |Elements(order)| == |order|
  {
    if order == [] {
      assert Elements([]) == {};
    } else {
      var n := |order| - 1;
      CardOf(order[..n]);
      assert Elements(order) == Elements(order[..n]) + {order[n]};
    }
  }
}
