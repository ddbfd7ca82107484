/** What the operations of FileStore add up to: a file is a byte sequence, writes splice it,
    reads return it, and truncation gives back exactly the blocks taken. */
module FileLaws {
  import opened BlockFormat
  import opened FileStore

  /** The byte sequence a file holds. */
  ghost function Contents(st: Store, j: nat): (r: seq<byte>)
    requires Wf(st) && Sized(st) && j < |st.inodes|
    ensures |r| == st.inodes[j].size
  {
    Slice(st, j, 0, st.inodes[j].size)
  }

  /** data laid over s at offset off, which is at most the end of s. */
  function Splice(s: seq<byte>, off: nat, data: seq<byte>): (r: seq<byte>)
    requires off <= |s|
    ensures |r| == Max(|s|, off + |data|)
  {
    s[..off] + data + s[Min(|s|, off + |data|)..]
  }

  /** What a completed writei promises about the two states (see FileSystem.Writei). */
  ghost predicate WriteDone(a: Store, b: Store, j: nat, off: nat, data: seq<byte>) {
    && Wf(a) && Sized(a) && Wf(b) && Sized(b) && j < |a.inodes|
    && off <= a.inodes[j].size && off + |data| <= MAXBYTES
    && Wrote(a, b, j, off, data) && b.inodes[j].size == Max(a.inodes[j].size, off + |data|)
  }

  lemma ContentsAt(st: Store, j: nat, p: nat)
    requires Wf(st) && Sized(st) && j < |st.inodes| && p < st.inodes[j].size
    ensures Contents(st, j)[p] == ByteAt(st, j, p)
  {
  }

  /** A completed write splices the data into the file. */
  lemma WriteSplices(a: Store, b: Store, j: nat, off: nat, data: seq<byte>)
    requires WriteDone(a, b, j, off, data)
    ensures Contents(b, j) == Splice(Contents(a, j), off, data)
  {
    hide Wf, Bytes, ByteAt, Contents;
    var l, r := Contents(b, j), Splice(Contents(a, j), off, data);
    forall p | 0 <= p < |l| ensures l[p] == r[p] {
      ContentsAt(b, j, p);
      WroteByte(a, b, j, off, data, j, p);
      if p < a.inodes[j].size {
        ContentsAt(a, j, p);
      }
    }
  }

  /** A completed write leaves every other file's contents alone. */
  lemma WriteKeepsOthers(a: Store, b: Store, j: nat, off: nat, data: seq<byte>, k: nat)
    requires WriteDone(a, b, j, off, data) && k < |a.inodes| && k != j
    ensures Contents(b, k) == Contents(a, k)
  {
    hide Wf, Bytes, ByteAt, Contents;
    var l, r := Contents(b, k), Contents(a, k);
    forall p | 0 <= p < |l| ensures l[p] == r[p] {
      ContentsAt(b, k, p);
      WroteByte(a, b, j, off, data, k, p);
      ContentsAt(a, k, p);
    }
  }

  /** Reading any range after a write, with any block allocations in between, returns that
      range of the spliced contents. `Slice` over the later store is what readi returns. */
  lemma ReadAfterWrite(a: Store, b: Store, c: Store, j: nat, off: nat, data: seq<byte>, o: nat, n: nat)
    requires WriteDone(a, b, j, off, data) && Wf(c) && Grown(b, c, j)
    requires o + n <= b.inodes[j].size
    ensures Slice(c, j, o, n) == Splice(Contents(a, j), off, data)[o..o + n]
  {
    hide Wf, Splice, Grown, Bytes, Slice, Contents, Sized;
    WriteSplices(a, b, j, off, data);
    LaterSlice(b, c, j, o, n);
  }

  lemma LaterSlice(b: Store, c: Store, j: nat, o: nat, n: nat)
    requires Wf(b) && Sized(b) && Wf(c) && j < |b.inodes| && Grown(b, c, j)
    requires o + n <= b.inodes[j].size
    ensures Slice(c, j, o, n) == Contents(b, j)[o..o + n]
  {
    hide Owned, OwnersHold, FreeIsZero, View, ByteAt, Contents, Addr;
    var l, r := Slice(c, j, o, n), Contents(b, j);
    forall i | 0 <= i < n ensures l[i] == r[o + i] {
      GrownBytes(b, c, j, j, o + i);
      ContentsAt(b, j, o + i);
    }
  }

  /** Every byte that could be read past the end of the file is zero. */
  ghost predicate TailZero(st: Store, j: nat)
    requires Wf(st) && j < |st.inodes|
  {
    forall p :: st.inodes[j].size <= p < MAXBYTES ==> ByteAt(st, j, p) == 0
  }

  lemma WriteKeepsTail(a: Store, b: Store, j: nat, off: nat, data: seq<byte>, k: nat)
    requires WriteDone(a, b, j, off, data) && k < |a.inodes| && TailZero(a, k)
    ensures TailZero(b, k)
  {
    hide Wf, Bytes, ByteAt;
    forall p | b.inodes[k].size <= p < MAXBYTES ensures ByteAt(b, k, p) == 0 {
      WroteByte(a, b, j, off, data, k, p);
    }
  }

  /** A truncated inode holds no block at all and reads as zeros everywhere. */
  lemma TruncatedIsEmpty(a: Store, b: Store, j: nat, s: nat, p: nat)
    requires Wf(a) && Wf(b) && j < |a.inodes| && Truncated(a, b, j) && s < SLOTS && p < MAXBYTES
    ensures Addr(b, j, s) == 0 && ByteAt(b, j, p) == 0
  {
    hide Owned, OwnersHold, FreeIsZero;
    assert b.inodes[j].addrs == Cleared(a.inodes[j].addrs, NDIRECT + 1);
  }

  // ----- whole runs -----

  /** A run in which only inode j is read and written: each step may allocate (see Extends in
      the contracts of Bmap, Readi and Writei, completed or halted). */
  ghost predicate Run(run: seq<Store>, j: nat) {
    && run != []
    && (forall i :: 0 <= i < |run| ==> Wf(run[i]) && j < |run[i].inodes|)
    && (forall i :: 0 < i < |run| ==> Linked(run, i, j))
  }

  ghost predicate Linked(run: seq<Store>, i: nat, j: nat)
    requires 0 < i < |run| && Wf(run[i - 1]) && Wf(run[i]) && j < |run[i - 1].inodes|
  {
    Extends(run[i - 1], run[i], j)
  }

  lemma {:induction false} RunExtends(run: seq<Store>, j: nat)
    requires Run(run, j)
    ensures Extends(run[0], run[|run| - 1], j)
  {
    if |run| > 1 {
      var n := |run| - 1;
      var front := run[..n];
      forall i | 0 < i < n ensures Linked(front, i, j) {
        assert Linked(run, i, j) && front[i] == run[i] && front[i - 1] == run[i - 1];
      }
      RunExtends(front, j);
      assert Linked(run, n, j);
      ExtendsTrans(run[0], run[n - 1], run[n], j);
    }
  }

  /** Any run of reads and writes of an inode that started without blocks, followed by itrunc,
      leaves exactly the blocks in use that were in use before. */
  lemma TruncRestoresBitmap(run: seq<Store>, j: nat, end: Store)
    requires Run(run, j) && Wf(end) && Truncated(run[|run| - 1], end, j)
    requires forall c :: c in run[0].owner ==> run[0].owner[c].0 != j
    ensures forall c :: Used(end, c) <==> Used(run[0], c)
  {
    RunExtends(run, j);
    var a, b := run[0], run[|run| - 1];
    forall c: nat ensures Used(end, c) <==> Used(a, c) {
      if c in b.owner {
        GainedByGrower(a, b, j, c);
      }
    }
  }

  // ----- images -----

  /** What an image on disk must satisfy, files and all: no two slots hold the same block, every
      block held is marked used, and every free block is zero. */
  ghost predicate Consistent(st: Store) {
    && Shape(st) && Used(st, 0) && FreeIsZero(st)
    && (forall j, s :: 0 <= j < |st.inodes| && 0 <= s < SLOTS && Addr(st, j, s) != 0 ==> Used(st, Addr(st, j, s)))
    && (forall j, s, k, t ::
          0 <= j < |st.inodes| && 0 <= s < SLOTS && 0 <= k < |st.inodes| && 0 <= t < SLOTS && Addr(st, j, s) != 0 ==>
          Addr(st, j, s) == Addr(st, k, t) ==> j == k && s == t)
  }

  /** The slot that holds block b. */
  ghost predicate HeldAt(st: Store, b: nat, o: (nat, nat))
    requires Shape(st)
  {
    b != 0 && o.0 < |st.inodes| && o.1 < SLOTS && Addr(st, o.0, o.1) == b
  }

  ghost function HolderOf(st: Store, b: nat): (o: (nat, nat))
    requires Shape(st) && exists o :: HeldAt(st, b, o)
    ensures HeldAt(st, b, o)
  {
    var o :| HeldAt(st, b, o);
    o
  }

  ghost function Owners(st: Store): map<nat, (nat, nat)>
    requires Shape(st)
  {
    map b: nat | b < |st.disk| && exists o :: HeldAt(st, b, o) :: HolderOf(st, b)
  }

  /** A store is well formed, with suitable owners, exactly when its image is consistent; from
      there the contracts of FileSystem keep it so. */
  lemma ImageIsWf(st: Store)
    ensures Consistent(st) <==> exists owner :: Wf(st.(owner := owner))
  {
    if Consistent(st) {
      ConsistentIsWf(st);
    }
    if owner :| Wf(st.(owner := owner)) {
      WfIsConsistent(st, owner);
    }
  }

  lemma SameStore(st: Store, owner: map<nat, (nat, nat)>)
    requires Shape(st)
    ensures Shape(st.(owner := owner))
    ensures forall b: nat :: Used(st.(owner := owner), b) <==> Used(st, b)
    ensures forall j: nat, s: nat :: j < |st.inodes| && s < SLOTS ==> Addr(st.(owner := owner), j, s) == Addr(st, j, s)
    ensures FreeIsZero(st.(owner := owner)) <==> FreeIsZero(st)
  {
    var t := st.(owner := owner);
    forall b: nat ensures Used(t, b) <==> Used(st, b) {}
    forall j: nat, s: nat | j < |st.inodes| && s < SLOTS ensures Addr(t, j, s) == Addr(st, j, s) {}
  }

  lemma ConsistentIsWf(st: Store)
    requires Consistent(st)
    ensures Wf(st.(owner := Owners(st)))
  {
    SameStore(st, Owners(st));
    hide Addr, Used, FreeIsZero, Shape;
    var t := st.(owner := Owners(st));
    forall j, s | 0 <= j < |t.inodes| && 0 <= s < SLOTS && Addr(t, j, s) != 0
      ensures Addr(t, j, s) in t.owner && t.owner[Addr(t, j, s)] == (j, s)
    {
      Recorded(st, j, s);
    }
    assert Owned(t);
    assert OwnersHold(t);
  }

  lemma Recorded(st: Store, j: nat, s: nat)
    requires Consistent(st) && j < |st.inodes| && s < SLOTS && Addr(st, j, s) != 0
    ensures Addr(st, j, s) in Owners(st) && Owners(st)[Addr(st, j, s)] == (j, s)
  {
    var b := Addr(st, j, s);
    assert Used(st, b);
    hide Addr;
    assert HeldAt(st, b, (j, s));
    var o := HolderOf(st, b);
  }

  lemma WfIsConsistent(st: Store, owner: map<nat, (nat, nat)>)
    requires Wf(st.(owner := owner))
    ensures Consistent(st)
  {
    var t := st.(owner := owner);
    assert st == t.(owner := st.owner);
    SameStore(t, st.owner);
    hide Addr, Used, FreeIsZero, Shape;
    forall j, s | 0 <= j < |st.inodes| && 0 <= s < SLOTS && Addr(st, j, s) != 0 ensures Used(st, Addr(st, j, s)) {
      AddressesDistinct(t, j, s, j, s);
    }
    forall j, s, k, u | 0 <= j < |st.inodes| && 0 <= s < SLOTS && 0 <= k < |st.inodes| && 0 <= u < SLOTS
      && Addr(st, j, s) != 0 && Addr(st, j, s) == Addr(st, k, u) ensures j == k && s == u
    {
      AddressesDistinct(t, j, s, k, u);
    }
  }
}
