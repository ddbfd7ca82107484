/** The block layer and the regular-file layer of fs.c: bitmap allocator, direct and
    indirect block map, truncation, reading and writing. */
module FileStore {
  import opened Wrappers
  import opened BlockFormat
  import opened Sets

  datatype Kind = Free | Dir | File | Dev | Mirrored

  /** In-core inode: twelve direct addresses and one indirect-block address. */
  datatype Inode = Inode(kind: Kind, size: nat, addrs: seq<nat>)

  /** Address slots of one inode: 0..11 direct, 12 the indirect block, 13.. its entries. */
  const SLOTS := 141

  function SlotOf(bn: nat): (s: nat)
    requires bn < MAXFILE
    ensures s < SLOTS && s != NDIRECT
  {
    if bn < NDIRECT then bn else bn + 1
  }

  /** All that the file system keeps. `owner` records which address slot holds a block. */
  datatype Store = Store(bitmap: seq<bv8>, disk: seq<seq<byte>>, inodes: seq<Inode>, owner: map<nat, (nat, nat)>)

  ghost predicate Shape(st: Store) {
    && |st.disk| < 0x1_0000_0000
    && |st.disk| <= 8 * |st.bitmap|
    && |st.bitmap| % BSIZE == 0
    && 0 < |st.disk|
    && (forall b :: 0 <= b < |st.disk| ==> |st.disk[b]| == BSIZE)
    && (forall j :: 0 <= j < |st.inodes| ==> |st.inodes[j].addrs| == NDIRECT + 1)
    && (forall j :: 0 <= j < |st.inodes| ==> st.inodes[j].addrs[NDIRECT] < |st.disk|)
  }

  /** The block address held in slot s of inode j, 0 when there is none. */
  ghost function Addr(st: Store, j: nat, s: nat): nat
    requires Shape(st) && j < |st.inodes| && s < SLOTS
  {
    var a := st.inodes[j].addrs;
    if s <= NDIRECT then a[s] else if a[NDIRECT] == 0 then 0 else Word(st.disk[a[NDIRECT]], s - NDIRECT - 1)
  }

  /** The inode itself holds the addresses of the first twelve blocks, the block named by its
      thirteenth address those of the next 128. */
  ghost predicate AddressAt(st: Store, j: nat, bn: nat, a: nat)
    requires Shape(st) && j < |st.inodes| && bn < 140
  {
    if bn < 12 then st.inodes[j].addrs[bn] == a
    else st.inodes[j].addrs[12] != 0 && Word(st.disk[st.inodes[j].addrs[12]], bn - 12) == a
  }

  lemma AddrIsThere(st: Store, j: nat, bn: nat)
    requires Shape(st) && j < |st.inodes| && bn < 140 && Addr(st, j, SlotOf(bn)) != 0
    ensures AddressAt(st, j, bn, Addr(st, j, SlotOf(bn)))
  {
  }

  ghost predicate Used(st: Store, b: nat)
    requires Shape(st)
  {
    b < |st.disk| && Bit(st.bitmap, b)
  }

  /** Every address held anywhere is recorded under exactly its slot. */
  ghost predicate Owned(st: Store)
    requires Shape(st)
  {
    forall j, s :: 0 <= j < |st.inodes| && 0 <= s < SLOTS && Addr(st, j, s) != 0 ==>
      Addr(st, j, s) in st.owner && st.owner[Addr(st, j, s)] == (j, s)
  }

  /** Every recorded block is a used block of the device, held by the slot recorded. */
  ghost predicate OwnersHold(st: Store)
    requires Shape(st)
  {
    forall b :: b in st.owner ==>
      && 0 < b && Used(st, b)
      && st.owner[b].0 < |st.inodes| && st.owner[b].1 < SLOTS
      && Addr(st, st.owner[b].0, st.owner[b].1) == b
  }

  /** From a to b the block x was taken, the lowest that was free. */
  ghost predicate FirstFit(a: Store, b: Store, x: nat)
    requires Shape(a) && Shape(b)
  {
    && x < |a.disk| && !Used(a, x) && (forall c :: 0 <= c < x ==> Used(a, c))
    && forall c: nat :: Used(b, c) <==> c == x || Used(a, c)
  }

  lemma SetBitFits(a: Store, b: Store, x: nat)
    requires Shape(a) && Shape(b) && |b.disk| == |a.disk| && x < |a.disk| && b.bitmap == SetBit(a.bitmap, x)
    requires !Used(a, x) && forall c :: 0 <= c < x ==> Used(a, c)
    ensures FirstFit(a, b, x)
  {
    AllBits(a.bitmap, x);
  }

  ghost predicate FreeIsZero(st: Store)
    requires Shape(st)
  {
    forall b :: 0 <= b < |st.disk| && !Used(st, b) ==> st.disk[b] == Zeros()
  }

  ghost predicate Wf(st: Store) {
    Shape(st) && Used(st, 0) && Owned(st) && OwnersHold(st) && FreeIsZero(st)
  }

  /** What block bn of inode j reads as: an unmapped block reads as zeros. */
  ghost function View(st: Store, j: nat, bn: nat): (v: seq<byte>)
    requires Wf(st) && j < |st.inodes| && bn < MAXFILE
    ensures |v| == BSIZE
  {
    var a := Addr(st, j, SlotOf(bn));
    if a == 0 then Zeros() else st.disk[a]
  }

  /** In a well-formed store all addresses held by all inodes are pairwise distinct, lie on
      the device and are marked used. */
  lemma AddressesDistinct(st: Store, j: nat, s: nat, j': nat, s': nat)
    requires Wf(st) && j < |st.inodes| && j' < |st.inodes| && s < SLOTS && s' < SLOTS
    ensures Addr(st, j, s) != 0 ==> Used(st, Addr(st, j, s))
    ensures Addr(st, j, s) != 0 && Addr(st, j, s) == Addr(st, j', s') ==> j == j' && s == s'
  {
  }

  // ----- the elementary changes, on values -----

  function SetAddr(inodes: seq<Inode>, j: nat, s: nat, b: nat): seq<Inode>
    requires j < |inodes| && s < |inodes[j].addrs|
  {
    inodes[j := inodes[j].(addrs := inodes[j].addrs[s := b])]
  }

  ghost function TakeDirect(st: Store, j: nat, s: nat, b: nat): Store
    requires Wf(st) && j < |st.inodes| && s <= NDIRECT && b < |st.disk|
  {
    Store(SetBit(st.bitmap, b), st.disk, SetAddr(st.inodes, j, s, b), st.owner[b := (j, s)])
  }

  ghost function TakeIndirect(st: Store, j: nat, i: nat, b: nat): Store
    requires Wf(st) && j < |st.inodes| && i < NINDIRECT && b < |st.disk|
    requires st.inodes[j].addrs[NDIRECT] != 0
  {
    var a := st.inodes[j].addrs[NDIRECT];
    Store(SetBit(st.bitmap, b), st.disk[a := SetWord(st.disk[a], i, b)], st.inodes, st.owner[b := (j, i + NDIRECT + 1)])
  }

  ghost function PutBlock(st: Store, b: nat, data: seq<byte>): Store
    requires b < |st.disk|
  {
    st.(disk := st.disk[b := data])
  }

  lemma AllBits(bitmap: seq<bv8>, b: nat)
    requires b < 8 * |bitmap|
    ensures forall c :: 0 <= c < 8 * |bitmap| ==>
      (Bit(SetBit(bitmap, b), c) <==> b == c || Bit(bitmap, c)) && (Bit(ClearBit(bitmap, b), c) <==> b != c && Bit(bitmap, c))
  {
    forall c | 0 <= c < 8 * |bitmap|
      ensures (Bit(SetBit(bitmap, b), c) <==> b == c || Bit(bitmap, c)) && (Bit(ClearBit(bitmap, b), c) <==> b != c && Bit(bitmap, c))
    {
      BitUpdates(bitmap, b, c);
    }
  }

  /** Addresses after TakeDirect: slot s of inode j now holds b, nothing else moves. A new
      indirect block brings no entries, because a free block is all zeros. */
  lemma TakeDirectAddr(st: Store, j: nat, s: nat, b: nat, j': nat, s': nat)
    requires Wf(st) && j < |st.inodes| && s <= NDIRECT && 0 < b < |st.disk| && !Used(st, b)
    requires Addr(st, j, s) == 0
    requires j' < |st.inodes| && s' < SLOTS
    ensures Shape(TakeDirect(st, j, s, b))
    ensures Addr(TakeDirect(st, j, s, b), j', s') == if j' == j && s' == s then b else Addr(st, j', s')
  {
    if s' > NDIRECT {
      ZeroWords(s' - NDIRECT - 1);
    }
  }

  /** A store that differs from st by one block b gained in slot (j, s) is well formed. */
  lemma GainWf(st: Store, t: Store, j: nat, s: nat, b: nat)
    requires Wf(st) && Shape(t) && j < |st.inodes| && s < SLOTS && 0 < b < |st.disk| && !Used(st, b)
    requires Addr(st, j, s) == 0
    requires |t.disk| == |st.disk| && |t.inodes| == |st.inodes| && |t.bitmap| == |st.bitmap|
    requires forall k :: 0 <= k < |st.inodes| ==> t.inodes[k].kind == st.inodes[k].kind
    requires forall k :: 0 <= k < |st.inodes| ==> t.inodes[k].size == st.inodes[k].size
    requires forall k, s' :: 0 <= k < |st.inodes| && 0 <= s' < SLOTS ==>
      Addr(t, k, s') == if k == j && s' == s then b else Addr(st, k, s')
    requires t.bitmap == SetBit(st.bitmap, b) && t.owner == st.owner[b := (j, s)]
    requires FreeIsZero(t)
    ensures Wf(t) && Extends(st, t, j)
  {
    AllBits(st.bitmap, b);
    forall c: nat ensures Used(t, c) <==> c == b || Used(st, c) {}
  }

  lemma TakeDirectWf(st: Store, j: nat, s: nat, b: nat)
    requires Wf(st) && j < |st.inodes| && s <= NDIRECT && 0 < b < |st.disk| && !Used(st, b)
    requires Addr(st, j, s) == 0
    ensures Wf(TakeDirect(st, j, s, b))
    ensures Grown(st, TakeDirect(st, j, s, b), j)
  {
    var t := TakeDirect(st, j, s, b);
    AllBits(st.bitmap, b);
    forall j', s' | 0 <= j' < |st.inodes| && 0 <= s' < SLOTS
      ensures Shape(t) && Addr(t, j', s') == if j' == j && s' == s then b else Addr(st, j', s')
    {
      TakeDirectAddr(st, j, s, b, j', s');
    }
    TakeDirectAddr(st, j, s, b, j, s);
    GainWf(st, t, j, s, b);
  }

  /** Addresses after TakeIndirect: entry i of the indirect block now holds b. */
  lemma TakeIndirectAddr(st: Store, j: nat, i: nat, b: nat, j': nat, s': nat)
    requires Wf(st) && j < |st.inodes| && i < NINDIRECT && 0 < b < |st.disk| && !Used(st, b)
    requires st.inodes[j].addrs[NDIRECT] != 0 && Addr(st, j, i + NDIRECT + 1) == 0
    requires j' < |st.inodes| && s' < SLOTS
    ensures Shape(TakeIndirect(st, j, i, b))
    ensures Addr(TakeIndirect(st, j, i, b), j', s') == if j' == j && s' == i + NDIRECT + 1 then b else Addr(st, j', s')
  {
    var a := st.inodes[j].addrs[NDIRECT];
    AddressesDistinct(st, j, NDIRECT, j', NDIRECT);
    if s' > NDIRECT {
      WordRoundTrip(st.disk[a], i, b, s' - NDIRECT - 1);
    }
  }

  lemma TakeIndirectWf(st: Store, j: nat, i: nat, b: nat)
    requires Wf(st) && j < |st.inodes| && i < NINDIRECT && 0 < b < |st.disk| && !Used(st, b)
    requires st.inodes[j].addrs[NDIRECT] != 0 && Addr(st, j, i + NDIRECT + 1) == 0
    ensures Wf(TakeIndirect(st, j, i, b))
    ensures Grown(st, TakeIndirect(st, j, i, b), j)
  {
    var t := TakeIndirect(st, j, i, b);
    AllBits(st.bitmap, b);
    assert Used(st, Addr(st, j, NDIRECT));
    forall j', s' | 0 <= j' < |st.inodes| && 0 <= s' < SLOTS
      ensures Shape(t) && Addr(t, j', s') == if j' == j && s' == i + NDIRECT + 1 then b else Addr(st, j', s')
    {
      TakeIndirectAddr(st, j, i, b, j', s');
    }
    TakeIndirectAddr(st, j, i, b, j, 0);
    GainWf(st, t, j, i + NDIRECT + 1, b);
    forall k, n | 0 <= k < |st.inodes| && 0 <= n < MAXFILE
      ensures View(t, k, n) == View(st, k, n)
    {
      TakeIndirectView(st, t, j, i, b, k, n);
    }
  }

  lemma FreshIsZero(st: Store, b: nat)
    requires Wf(st) && b < |st.disk| && !Used(st, b)
    ensures st.disk[b] == Zeros()
  {
  }

  lemma TakeIndirectView(st: Store, t: Store, j: nat, i: nat, b: nat, k: nat, n: nat)
    requires Wf(st) && j < |st.inodes| && i < NINDIRECT && 0 < b < |st.disk| && !Used(st, b)
    requires st.inodes[j].addrs[NDIRECT] != 0 && Addr(st, j, i + NDIRECT + 1) == 0
    requires t == TakeIndirect(st, j, i, b) && Wf(t)
    requires k < |st.inodes| && n < MAXFILE
    ensures View(t, k, n) == View(st, k, n)
  {
    hide Owned, OwnersHold, FreeIsZero;
    TakeIndirectAddr(st, j, i, b, k, SlotOf(n));
    AddressesDistinct(st, k, SlotOf(n), j, NDIRECT);
    if k == j && SlotOf(n) == i + NDIRECT + 1 {
      assert t.disk[b] == Zeros() by {
        FreshIsZero(st, b);
        AddressesDistinct(st, j, NDIRECT, j, NDIRECT);
      }
    }
  }

  /** Writing the data block in slot SlotOf(bn) changes that one view and nothing else. */
  lemma PutBlockWf(st: Store, j: nat, bn: nat, data: seq<byte>)
    requires Wf(st) && j < |st.inodes| && bn < MAXFILE && |data| == BSIZE
    requires Addr(st, j, SlotOf(bn)) != 0
    ensures Wf(PutBlock(st, Addr(st, j, SlotOf(bn)), data))
    ensures var t := PutBlock(st, Addr(st, j, SlotOf(bn)), data);
      && Extends(st, t, j) && t.inodes == st.inodes
      && forall k, n :: 0 <= k < |st.inodes| && 0 <= n < MAXFILE ==>
           View(t, k, n) == if k == j && n == bn then data else View(st, k, n)
  {
    var a := Addr(st, j, SlotOf(bn));
    AddressesDistinct(st, j, SlotOf(bn), j, SlotOf(bn));
    var t := PutBlock(st, a, data);
    forall k, s | 0 <= k < |st.inodes| && 0 <= s < SLOTS
      ensures Shape(t) && Addr(t, k, s) == Addr(st, k, s)
    {
      AddressesDistinct(st, j, SlotOf(bn), k, NDIRECT);
    }
    forall c ensures Used(t, c) <==> Used(st, c) {}
    assert Wf(t);
    forall k, n | 0 <= k < |st.inodes| && 0 <= n < MAXFILE
      ensures View(t, k, n) == if k == j && n == bn then data else View(st, k, n)
    {
      AddressesDistinct(st, j, SlotOf(bn), k, SlotOf(n));
    }
  }

  /** Only inode j gained addresses; every address already held stays; the bitmap grew by
      exactly the blocks gained. */
  ghost predicate Extends(a: Store, b: Store, j: nat)
    requires Wf(a) && Wf(b) && j < |a.inodes|
  {
    && |b.disk| == |a.disk| && |b.inodes| == |a.inodes| && |b.bitmap| == |a.bitmap|
    && (forall k :: 0 <= k < |a.inodes| ==> b.inodes[k].kind == a.inodes[k].kind)
    && (forall k :: 0 <= k < |a.inodes| && k != j ==> b.inodes[k].size == a.inodes[k].size)
    && (forall k, s :: 0 <= k < |a.inodes| && 0 <= s < SLOTS && (k != j || Addr(a, k, s) != 0) ==> Addr(b, k, s) == Addr(a, k, s))
    && (forall c :: c in a.owner ==> c in b.owner)
    && (forall c :: Used(b, c) <==> Used(a, c) || (c in b.owner && c !in a.owner))
    && (forall c :: c in b.owner && c !in a.owner ==> !Used(a, c))
  }

  /** One inode gained blocks and nothing a reader can see changed. */
  ghost predicate Grown(a: Store, b: Store, j: nat)
    requires Wf(a) && Wf(b) && j < |a.inodes|
  {
    && Extends(a, b, j) && b.inodes[j].size == a.inodes[j].size
    && forall k, n :: 0 <= k < |a.inodes| && 0 <= n < MAXFILE ==> View(b, k, n) == View(a, k, n)
  }

  lemma ExtendsTrans(a: Store, b: Store, c: Store, j: nat)
    requires Wf(a) && Wf(b) && Wf(c) && j < |a.inodes|
    requires Extends(a, b, j) && Extends(b, c, j)
    ensures Extends(a, c, j)
  {
    forall k, s | 0 <= k < |a.inodes| && 0 <= s < SLOTS && (k != j || Addr(a, k, s) != 0)
      ensures Addr(c, k, s) == Addr(a, k, s)
    {
      assert Addr(b, k, s) == Addr(a, k, s);
    }
  }

  lemma GrownTrans(a: Store, b: Store, c: Store, j: nat)
    requires Wf(a) && Wf(b) && Wf(c) && j < |a.inodes|
    requires Grown(a, b, j) && Grown(b, c, j)
    ensures Grown(a, c, j)
  {
    ExtendsTrans(a, b, c, j);
    forall k, n | 0 <= k < |a.inodes| && 0 <= n < MAXFILE
      ensures View(c, k, n) == View(a, k, n)
    {
      assert View(b, k, n) == View(a, k, n);
    }
  }

  // ----- files as byte sequences -----

  const MAXBYTES := 71680  // MAXFILE * BSIZE

  ghost function ByteAt(st: Store, j: nat, p: nat): byte
    requires Wf(st) && j < |st.inodes| && p < MAXBYTES
  {
    View(st, j, p / BSIZE)[p % BSIZE]
  }

  /** The n bytes of inode j from offset off. */
  ghost function Slice(st: Store, j: nat, off: nat, n: nat): (r: seq<byte>)
    requires Wf(st) && j < |st.inodes| && off + n <= MAXBYTES
    ensures |r| == n
  {
    seq(n, i requires 0 <= i < n => ByteAt(st, j, off + i))
  }

  /** data was stored at offset off of inode j; no byte of any inode changed elsewhere. */
  ghost predicate Wrote(a: Store, b: Store, j: nat, off: nat, data: seq<byte>)
    requires Wf(a) && Wf(b) && j < |a.inodes|
  {
    Extends(a, b, j) && Bytes(a, b, j, off, data)
  }

  ghost predicate Bytes(a: Store, b: Store, j: nat, off: nat, data: seq<byte>)
    requires Wf(a) && Wf(b) && |a.inodes| == |b.inodes|
  {
    forall k, p :: 0 <= k < |a.inodes| && 0 <= p < MAXBYTES ==>
      ByteAt(b, k, p) == if k == j && off <= p < off + |data| then data[p - off] else ByteAt(a, k, p)
  }

  /** No byte of an inode other than j changed. */
  ghost predicate Others(a: Store, b: Store, j: nat)
    requires Wf(a) && Wf(b) && |a.inodes| == |b.inodes|
  {
    forall k, p :: 0 <= k < |a.inodes| && k != j && 0 <= p < MAXBYTES ==> ByteAt(b, k, p) == ByteAt(a, k, p)
  }

  lemma GrownBytes(a: Store, b: Store, j: nat, k: nat, p: nat)
    requires Wf(a) && Wf(b) && j < |a.inodes| && Grown(a, b, j)
    requires k < |a.inodes| && p < MAXBYTES
    ensures ByteAt(b, k, p) == ByteAt(a, k, p)
  {
    assert View(b, k, p / BSIZE) == View(a, k, p / BSIZE);
  }

  /** memmove of a chunk into a block at offset k. */
  function Patch(block: seq<byte>, k: nat, chunk: seq<byte>): (r: seq<byte>)
    requires k + |chunk| <= |block|
    ensures |r| == |block|
  {
    block[..k] + chunk + block[k + |chunk|..]
  }

  lemma PatchAt(block: seq<byte>, o: nat, chunk: seq<byte>, p: nat)
    requires |block| == BSIZE && o % BSIZE + |chunk| <= BSIZE
    ensures p / BSIZE == o / BSIZE ==>
      Patch(block, o % BSIZE, chunk)[p % BSIZE] == if o <= p < o + |chunk| then chunk[p - o] else block[p % BSIZE]
    ensures p / BSIZE != o / BSIZE ==> !(o <= p < o + |chunk|)
  {
  }

  lemma WroteByte(a: Store, b: Store, j: nat, off: nat, data: seq<byte>, k: nat, p: nat)
    requires Wf(a) && Wf(b) && j < |a.inodes| && Wrote(a, b, j, off, data)
    requires k < |a.inodes| && p < MAXBYTES
    ensures ByteAt(b, k, p) == if k == j && off <= p < off + |data| then data[p - off] else ByteAt(a, k, p)
  {
  }

  /** memmove of a chunk into the disk block x at file offset o. */
  ghost function Stored(st: Store, x: nat, o: nat, chunk: seq<byte>): Store
    requires x < |st.disk| && |st.disk[x]| == BSIZE && o % BSIZE + |chunk| <= BSIZE
  {
    PutBlock(st, x, Patch(st.disk[x], o % BSIZE, chunk))
  }

  ghost predicate ChunkFits(st: Store, j: nat, o: nat, chunk: seq<byte>, x: nat)
    requires Wf(st)
  {
    && j < |st.inodes| && chunk != [] && o + |chunk| <= MAXBYTES && o % BSIZE + |chunk| <= BSIZE
    && 0 < x < |st.disk| && Addr(st, j, SlotOf(o / BSIZE)) == x
  }

  /** Patching the block that holds offset o changes exactly the bytes o .. o+|chunk|. */
  lemma PutBytes(st: Store, j: nat, o: nat, chunk: seq<byte>, x: nat)
    requires Wf(st) && ChunkFits(st, j, o, chunk, x)
    ensures Wf(Stored(st, x, o, chunk))
    ensures Wrote(st, Stored(st, x, o, chunk), j, o, chunk)
  {
    var data := Patch(st.disk[x], o % BSIZE, chunk);
    PutBlockWf(st, j, o / BSIZE, data);
    var t := PutBlock(st, x, data);
    forall k, p | 0 <= k < |st.inodes| && 0 <= p < MAXBYTES
      ensures ByteAt(t, k, p) == if k == j && o <= p < o + |chunk| then chunk[p - o] else ByteAt(st, k, p)
    {
      assert View(t, k, p / BSIZE) == if k == j && p / BSIZE == o / BSIZE then data else View(st, k, p / BSIZE);
      PatchAt(st.disk[x], o, chunk, p);
    }
  }

  lemma GrownWrote(a: Store, b: Store, c: Store, j: nat, off: nat, data: seq<byte>)
    requires Wf(a) && Wf(b) && Wf(c) && j < |a.inodes|
    requires Wrote(a, b, j, off, data) && Grown(b, c, j)
    ensures Wrote(a, c, j, off, data)
  {
    ExtendsTrans(a, b, c, j);
    forall k, p | 0 <= k < |a.inodes| && 0 <= p < MAXBYTES
      ensures ByteAt(c, k, p) == if k == j && off <= p < off + |data| then data[p - off] else ByteAt(a, k, p)
    {
      GrownBytes(b, c, j, k, p);
      WroteByte(a, b, j, off, data, k, p);
    }
  }

  lemma JoinByte(x: byte, y: byte, z: byte, off: nat, first: seq<byte>, second: seq<byte>, p: nat)
    requires y == if off <= p < off + |first| then first[p - off] else x
    requires z == if off + |first| <= p < off + |first| + |second| then second[p - off - |first|] else y
    ensures z == if off <= p < off + |first + second| then (first + second)[p - off] else x
  {
  }

  lemma BytesTrans(a: Store, b: Store, c: Store, j: nat, off: nat, first: seq<byte>, second: seq<byte>, data: seq<byte>)
    requires Wf(a) && Wf(b) && Wf(c) && |a.inodes| == |b.inodes| == |c.inodes|
    requires Bytes(a, b, j, off, first) && Bytes(b, c, j, off + |first|, second)
    requires data == first + second
    ensures Bytes(a, c, j, off, data)
  {
    forall k, p | 0 <= k < |a.inodes| && 0 <= p < MAXBYTES
      ensures ByteAt(c, k, p) == if k == j && off <= p < off + |data| then data[p - off] else ByteAt(a, k, p)
    {
      var x, y, z := ByteAt(a, k, p), ByteAt(b, k, p), ByteAt(c, k, p);
      if k == j {
        JoinByte(x, y, z, off, first, second, p);
      }
    }
  }

  /** Two writes that meet are one longer write. */
  lemma WroteTrans(a: Store, b: Store, c: Store, j: nat, off: nat, first: seq<byte>, second: seq<byte>)
    requires Wf(a) && Wf(b) && Wf(c) && j < |a.inodes|
    requires Wrote(a, b, j, off, first) && Wrote(b, c, j, off + |first|, second)
    ensures Wrote(a, c, j, off, first + second)
  {
    ExtendsTrans(a, b, c, j);
    BytesTrans(a, b, c, j, off, first, second, first + second);
  }

  // ----- the running file system -----

  datatype Allocation = Got(b: nat) | OffDevice(b: nat) | Exhausted

  /** Done(n): the call returned n. Refused: it returned -1. Halted: no block could be had. */
  datatype Outcome = Done(n: nat) | Refused | Halted

  ghost predicate Full(st: Store)
    requires Shape(st)
  {
    forall b :: 0 <= b < |st.disk| ==> Used(st, b)
  }

  ghost predicate Sized(st: Store) {
    forall j :: 0 <= j < |st.inodes| ==> st.inodes[j].size <= MAXBYTES
  }

  const UINT := 0x1_0000_0000

  function Min(a: nat, b: nat): nat { if a < b then a else b }

  function Max(a: nat, b: nat): nat { if a < b then b else a }

  // ----- what a transfer costs -----

  /** Blocks lo..hi of a file need slot s: each its own, and those past the direct ones the
      indirect block. */
  predicate Needs(s: nat, lo: nat, hi: nat) {
    lo < hi && ((s < NDIRECT && lo <= s < hi) || (s == NDIRECT && NDIRECT < hi) || (s > NDIRECT && lo <= s - 1 < hi))
  }

  function Wanted(lo: nat, hi: nat): set<nat> {
    set s: nat | s < SLOTS && Needs(s, lo, hi)
  }

  /** The wanted slots that inode j does not have. */
  ghost function Lacking(st: Store, j: nat, want: set<nat>): set<nat>
    requires Shape(st) && j < |st.inodes|
  {
    set s | s in want && s < SLOTS && Addr(st, j, s) == 0
  }

  ghost function FreeBlocks(st: Store): set<nat>
    requires Shape(st)
  {
    set b: nat | b < |st.disk| && !Used(st, b)
  }

  /** The device has a free block for every wanted slot that is lacking. */
  ghost predicate Supplies(st: Store, j: nat, want: set<nat>)
    requires Shape(st) && j < |st.inodes|
  {
    |Lacking(st, j, want)| <= |FreeBlocks(st)|
  }

  /** The device has a free block for every slot that blocks lo..hi lack. */
  ghost predicate Affords(st: Store, j: nat, lo: nat, hi: nat)
    requires Shape(st) && j < |st.inodes|
  {
    Supplies(st, j, Wanted(lo, hi))
  }

  ghost predicate GainsOnly(a: Store, b: Store, want: set<nat>) {
    forall c :: c in b.owner && c !in a.owner ==> b.owner[c].1 in want
  }

  ghost predicate GainsIn(a: Store, b: Store, lo: nat, hi: nat) {
    forall c :: c in b.owner && c !in a.owner ==> Needs(b.owner[c].1, lo, hi)
  }

  ghost predicate MapsAll(st: Store, j: nat, lo: nat, hi: nat)
    requires Shape(st) && j < |st.inodes|
  {
    forall bn :: lo <= bn < hi && bn < MAXFILE ==> Addr(st, j, SlotOf(bn)) != 0
  }

  /** From a to b inode j gained only slots for blocks lo..hi, and blocks lo..mid are mapped. */
  ghost predicate Progress(a: Store, b: Store, j: nat, lo: nat, mid: nat, hi: nat)
    requires Wf(a) && Wf(b) && j < |a.inodes|
  {
    Extends(a, b, j) && GainsIn(a, b, lo, hi) && MapsAll(b, j, lo, mid)
  }

  /** From a to b inode j gained only slots for blocks lo..hi, one of those blocks is still not
      mapped, and the device is full. */
  ghost predicate Starved(a: Store, b: Store, j: nat, lo: nat, hi: nat)
    requires Wf(a) && Wf(b) && j < |a.inodes|
  {
    Extends(a, b, j) && GainsIn(a, b, lo, hi) && Full(b) && !MapsAll(b, j, lo, hi)
  }

  /** How an attempt to map blocks lo..hi ends. */
  ghost predicate Settled(a: Store, b: Store, j: nat, lo: nat, hi: nat, ok: bool)
    requires Wf(a) && Wf(b) && j < |a.inodes|
  {
    if ok then Progress(a, b, j, lo, hi, hi) else Starved(a, b, j, lo, hi)
  }

  lemma ProgressNone(a: Store, j: nat, lo: nat, hi: nat)
    requires Wf(a) && j < |a.inodes|
    ensures Progress(a, a, j, lo, lo, hi)
  {
  }

  /** Owners are never reassigned while j grows, and what is gained is j's. */
  lemma GainedByGrower(a: Store, b: Store, j: nat, c: nat)
    requires Wf(a) && Wf(b) && j < |a.inodes| && Extends(a, b, j) && c in b.owner
    ensures c in a.owner ==> b.owner[c] == a.owner[c]
    ensures c !in a.owner ==> b.owner[c].0 == j && Addr(a, j, b.owner[c].1) == 0
  {
    if c in a.owner {
      assert Addr(a, a.owner[c].0, a.owner[c].1) == c;
      assert Addr(b, a.owner[c].0, a.owner[c].1) == c;
    } else {
      assert Addr(b, b.owner[c].0, b.owner[c].1) == c;
    }
  }

  /** An address once held is kept. */
  lemma StaysMapped(a: Store, b: Store, j: nat, s: nat)
    requires Wf(a) && Wf(b) && j < |a.inodes| && s < SLOTS && Extends(a, b, j)
    ensures j < |b.inodes| && (Addr(a, j, s) != 0 ==> Addr(b, j, s) == Addr(a, j, s))
  {
    hide Wf, Addr, Used;
  }

  lemma MapsKept(a: Store, b: Store, j: nat, lo: nat, mid: nat, bn: nat)
    requires Wf(a) && Wf(b) && j < |a.inodes| && Extends(a, b, j) && MapsAll(a, j, lo, mid) && bn <= mid
    ensures j < |b.inodes| && MapsAll(b, j, lo, bn)
  {
    assert j < |b.inodes| && Shape(b);
    hide Wf, Extends, Addr, Shape, SlotOf;
    forall n | lo <= n < bn && n < MAXFILE ensures Addr(b, j, SlotOf(n)) != 0 {
      MappedStays(a, b, j, lo, mid, n);
    }
  }

  lemma MappedStays(a: Store, b: Store, j: nat, lo: nat, mid: nat, n: nat)
    requires Wf(a) && Wf(b) && j < |a.inodes| && Extends(a, b, j) && MapsAll(a, j, lo, mid) && lo <= n < mid && n < MAXFILE
    ensures j < |b.inodes| && Addr(b, j, SlotOf(n)) != 0
  {
    assert Addr(a, j, SlotOf(n)) != 0;
    hide Extends, Addr, Owned, OwnersHold, FreeIsZero, Used, MapsAll, SlotOf;
    StaysMapped(a, b, j, SlotOf(n));
  }

  lemma MapsJoin(b: Store, j: nat, lo: nat, mid: nat, top: nat)
    requires Shape(b) && j < |b.inodes| && MapsAll(b, j, lo, mid) && MapsAll(b, j, mid, top)
    ensures MapsAll(b, j, lo, top)
  {
    hide Addr, Shape;
  }

  lemma MapsPart(b: Store, j: nat, lo: nat, hi: nat, k: nat, top: nat)
    requires Shape(b) && j < |b.inodes| && lo <= k && top <= hi
    ensures MapsAll(b, j, lo, hi) ==> MapsAll(b, j, k, top)
  {
    hide Addr, Shape;
  }

  lemma GainsJoin(a: Store, b: Store, c: Store, j: nat, lo: nat, hi: nat, k: nat, top: nat)
    requires Wf(a) && Wf(b) && Wf(c) && j < |a.inodes| && Extends(a, b, j) && Extends(b, c, j)
    requires GainsIn(a, b, lo, hi) && GainsIn(b, c, k, top) && lo <= k && top <= hi
    ensures GainsIn(a, c, lo, hi)
  {
    forall d | d in c.owner && d !in a.owner ensures Needs(c.owner[d].1, lo, hi) {
      GainedByGrower(b, c, j, d);
    }
  }

  lemma ProgressWiden(a: Store, b: Store, j: nat, lo: nat, mid: nat, hi: nat, top: nat)
    requires Wf(a) && Wf(b) && j < |a.inodes| && Progress(a, b, j, lo, mid, hi) && hi <= top
    ensures Progress(a, b, j, lo, mid, top)
  {
    hide Wf, Extends, MapsAll;
  }

  /** An attempt to map blocks k..top, within lo..hi and no later than where the first gap can
      be, continues what was reached, or ends it. */
  lemma ProgressThen(a: Store, b: Store, c: Store, j: nat, lo: nat, mid: nat, hi: nat, k: nat, top: nat, ok: bool)
    requires Wf(a) && Wf(b) && Wf(c) && j < |a.inodes| && Progress(a, b, j, lo, mid, hi)
    requires j < |b.inodes| ==> Settled(b, c, j, k, top, ok)
    requires lo <= k <= mid && top <= hi
    ensures if ok then Progress(a, c, j, lo, top, hi) && Progress(a, c, j, lo, mid, hi) else Starved(a, c, j, lo, hi)
  {
    assert j < |b.inodes| && |c.inodes| == |b.inodes| && Shape(b) && Shape(c);
    hide Wf, Extends, GainsIn, MapsAll, Addr, Full, Shape;
    ExtendsTrans(a, b, c, j);
    GainsJoin(a, b, c, j, lo, hi, k, top);
    if ok {
      MapsKept(b, c, j, lo, mid, mid);
      MapsPart(c, j, lo, mid, lo, k);
      MapsJoin(c, j, lo, k, top);
    } else {
      MapsPart(c, j, lo, hi, k, top);
    }
  }

  /** Changes that leave the owners alone leave the addresses alone. */
  lemma OwnersFix(a: Store, b: Store, j: nat, s: nat)
    requires Wf(a) && Wf(b) && a.owner == b.owner && j < |a.inodes| && j < |b.inodes| && s < SLOTS
    ensures Addr(b, j, s) == Addr(a, j, s)
  {
    hide Addr, Used, FreeIsZero;
  }

  lemma ProgressPut(a: Store, b: Store, c: Store, j: nat, lo: nat, mid: nat, hi: nat)
    requires Wf(a) && Wf(b) && Wf(c) && j < |a.inodes| && Progress(a, b, j, lo, mid, hi)
    requires Extends(a, c, j) && c.owner == b.owner
    ensures Progress(a, c, j, lo, mid, hi)
  {
    hide Addr, Used, FreeIsZero, Owned, OwnersHold;
    forall bn | lo <= bn < mid && bn < MAXFILE ensures Addr(c, j, SlotOf(bn)) != 0 {
      OwnersFix(b, c, j, SlotOf(bn));
    }
  }

  /** Every wanted slot that was filled was filled from a block that had been free. */
  lemma HeldAll(a: Store, b: Store, j: nat, want: set<nat>)
    requires Wf(a) && Wf(b) && j < |a.inodes| && Extends(a, b, j)
    requires forall s :: s in want && s < SLOTS ==> Addr(b, j, s) != 0
    ensures Supplies(a, j, want)
  {
    forall s | s in Lacking(a, j, want) ensures s < SLOTS && Addr(b, j, s) in FreeBlocks(a) && Addr(b, j, s) != 0 {
      SlotGained(a, b, j, s);
    }
    hide Extends, Addr, FreeBlocks, Lacking, Owned, OwnersHold, FreeIsZero, Used;
    var m := map s | s in Lacking(a, j, want) :: Addr(b, j, s);
    forall s, t | s in m && t in m && s != t ensures m[s] != m[t] {
      AddressesDistinct(b, j, s, j, t);
    }
    InjectionSize(m, FreeBlocks(a));
    assert m.Keys == Lacking(a, j, want);
  }

  lemma SlotGained(a: Store, b: Store, j: nat, s: nat)
    requires Wf(a) && Wf(b) && j < |a.inodes| && Extends(a, b, j) && s < SLOTS && Addr(a, j, s) == 0 && Addr(b, j, s) != 0
    ensures Addr(b, j, s) in FreeBlocks(a)
  {
    var c := Addr(b, j, s);
    hide Addr, FreeIsZero, Used;
    assert c in b.owner && b.owner[c] == (j, s);
    if c in a.owner {
      GainedByGrower(a, b, j, c);
    }
    NewlyUsed(a, b, j, c);
  }

  lemma NewlyUsed(a: Store, b: Store, j: nat, c: nat)
    requires Wf(a) && Wf(b) && j < |a.inodes| && Extends(a, b, j) && c in b.owner && c !in a.owner
    ensures c in FreeBlocks(a)
  {
    hide Addr, FreeIsZero, Owned;
    assert Used(b, c);
  }

  /** On a full device with a wanted slot still empty, the free blocks had been too few. */
  lemma OneShort(a: Store, c: Store, j: nat, want: set<nat>, s: nat)
    requires Wf(a) && Wf(c) && j < |a.inodes| && Extends(a, c, j) && GainsOnly(a, c, want)
    requires s in want && s < SLOTS && Addr(c, j, s) == 0 && Full(c)
    ensures !Supplies(a, j, want)
  {
    StillLacks(a, c, j, want, s);
    var rest := Lacking(a, j, want) - {s};
    hide Wf, Extends, GainsOnly, Addr, Full, FreeBlocks, Lacking, Shape;
    forall d | d in FreeBlocks(a) ensures d in c.owner && c.owner[d].1 < SLOTS && c.owner[d].1 in rest && Addr(c, j, c.owner[d].1) == d {
      BlockGained(a, c, j, want, s, d);
    }
    InjectsInto(FreeBlocks(a), c.owner, c, j, rest);
  }

  /** Blocks held in different slots of one inode are different. */
  lemma InjectsInto(blocks: set<nat>, owner: map<nat, (nat, nat)>, c: Store, j: nat, slots: set<nat>)
    requires Shape(c) && j < |c.inodes|
    requires forall d :: d in blocks ==> d in owner && owner[d].1 < SLOTS && owner[d].1 in slots && Addr(c, j, owner[d].1) == d
    ensures |blocks| <= |slots|
  {
    hide Shape, Addr;
    var m := map d | d in blocks :: owner[d].1;
    InjectionSize(m, slots);
    assert m.Keys == blocks;
  }

  lemma StillLacks(a: Store, c: Store, j: nat, want: set<nat>, s: nat)
    requires Wf(a) && Wf(c) && j < |a.inodes| && Extends(a, c, j) && s in want && s < SLOTS && Addr(c, j, s) == 0
    ensures s in Lacking(a, j, want)
  {
    StaysMapped(a, c, j, s);
    hide Addr, Used, Owned, OwnersHold, FreeIsZero, Extends;
  }

  lemma BlockGained(a: Store, c: Store, j: nat, want: set<nat>, s: nat, d: nat)
    requires Wf(a) && Wf(c) && j < |a.inodes| && Extends(a, c, j) && GainsOnly(a, c, want)
    requires s < SLOTS && Addr(c, j, s) == 0 && Full(c) && d in FreeBlocks(a)
    ensures d in c.owner && c.owner[d].1 < SLOTS && Addr(c, j, c.owner[d].1) == d
    ensures c.owner[d].1 in Lacking(a, j, want) && c.owner[d].1 != s
  {
    assert Used(c, d) && !Used(a, d);
    hide Addr, FreeIsZero, Owned, Used;
    GainedByGrower(a, c, j, d);
  }

  /** When blocks lo..hi got mapped, there had been enough free blocks. */
  lemma ProgressDone(a: Store, b: Store, j: nat, lo: nat, hi: nat)
    requires Wf(a) && Wf(b) && j < |a.inodes| && Progress(a, b, j, lo, hi, hi) && hi <= MAXFILE
    ensures Affords(a, j, lo, hi)
  {
    assert j < |b.inodes| && Shape(b);
    hide Wf, Extends, Addr, Shape, MapsAll, GainsIn, Needs, Supplies;
    forall s | s in Wanted(lo, hi) && s < SLOTS ensures Addr(b, j, s) != 0 {
      SlotMapped(b, j, lo, hi, s);
    }
    HeldAll(a, b, j, Wanted(lo, hi));
  }

  lemma SlotMapped(b: Store, j: nat, lo: nat, hi: nat, s: nat)
    requires Shape(b) && j < |b.inodes| && MapsAll(b, j, lo, hi) && hi <= MAXFILE && s < SLOTS && Needs(s, lo, hi)
    ensures Addr(b, j, s) != 0
  {
    var bn := if s == NDIRECT then hi - 1 else if s < NDIRECT then s else s - 1;
    assert Addr(b, j, SlotOf(bn)) != 0;
  }

  /** When one of them could not be mapped, there had been too few. */
  lemma ProgressStuck(a: Store, b: Store, j: nat, lo: nat, hi: nat)
    requires Wf(a) && Wf(b) && j < |a.inodes| && Starved(a, b, j, lo, hi)
    ensures !Affords(a, j, lo, hi)
  {
    assert j < |b.inodes| && Shape(b);
    GainsWanted(a, b, lo, hi);
    var bn :| lo <= bn < hi && bn < MAXFILE && Addr(b, j, SlotOf(bn)) == 0;
    assert SlotOf(bn) in Wanted(lo, hi);
    hide Wf, Extends, Addr, Shape, GainsIn, Needs, Supplies, Full, Wanted, GainsOnly;
    OneShort(a, b, j, Wanted(lo, hi), SlotOf(bn));
  }

  lemma GainsWanted(a: Store, b: Store, lo: nat, hi: nat)
    requires Wf(b) && GainsIn(a, b, lo, hi)
    ensures GainsOnly(a, b, Wanted(lo, hi))
  {
    hide Addr, Used, FreeIsZero, Owned, Needs;
  }

  /** An attempt succeeds exactly when the free blocks sufficed before it. */
  lemma SettledMeans(a: Store, b: Store, j: nat, lo: nat, hi: nat, ok: bool)
    requires Wf(a) && Wf(b) && j < |a.inodes| && hi <= MAXFILE && Settled(a, b, j, lo, hi, ok)
    ensures ok <==> Affords(a, j, lo, hi)
  {
    hide Wf, Progress, Starved, Affords;
    if ok {
      ProgressDone(a, b, j, lo, hi);
    } else {
      ProgressStuck(a, b, j, lo, hi);
    }
  }

  /** An attempt to fill slot s of inode j, and nothing else. */
  ghost predicate Taken(a: Store, b: Store, j: nat, s: nat, ok: bool)
    requires Wf(a) && Wf(b) && j < |a.inodes| && s < SLOTS
  {
    && Extends(a, b, j) && (forall c :: c in b.owner && c !in a.owner ==> b.owner[c].1 == s)
    && if ok then Addr(b, j, s) != 0 else Full(b) && Addr(b, j, s) == 0
  }

  /** Two slots filled one after the other, the second only if the first could be. */
  lemma TwoTaken(a: Store, b: Store, c: Store, j: nat, s: nat, t: nat, first: bool, ok: bool)
    requires Wf(a) && Wf(b) && Wf(c) && j < |a.inodes| && s < SLOTS && t < SLOTS && Taken(a, b, j, s, first)
    requires j < |b.inodes| && (if first then Taken(b, c, j, t, ok) else c == b && !ok)
    ensures Extends(a, c, j) && GainsOnly(a, c, {s, t}) && (ok <==> Supplies(a, j, {s, t}))
    ensures if ok then Addr(c, j, t) != 0 else Full(c) && (Addr(c, j, s) == 0 || Addr(c, j, t) == 0)
  {
    hide Addr, Extends, Wf, GainsOnly, Supplies, Taken, Full;
    TwoGained(a, b, c, j, s, t, first, ok);
    TwoFilled(a, b, c, j, s, t, first, ok);
    TwoMeans(a, c, j, s, t, {s, t}, ok);
  }

  lemma TwoMeans(a: Store, c: Store, j: nat, s: nat, t: nat, want: set<nat>, ok: bool)
    requires Wf(a) && Wf(c) && j < |a.inodes| && j < |c.inodes| && Extends(a, c, j) && GainsOnly(a, c, want)
    requires s < SLOTS && t < SLOTS && s in want && t in want && forall x :: x in want ==> x == s || x == t
    requires if ok then Addr(c, j, s) != 0 && Addr(c, j, t) != 0 else Full(c) && (Addr(c, j, s) == 0 || Addr(c, j, t) == 0)
    ensures ok <==> Supplies(a, j, want)
  {
    hide Addr, Extends, GainsOnly, Supplies, Full, Owned, OwnersHold, FreeIsZero, Used;
    if ok {
      HeldAll(a, c, j, want);
    } else {
      OneShort(a, c, j, want, if Addr(c, j, s) == 0 then s else t);
    }
  }

  lemma TwoFilled(a: Store, b: Store, c: Store, j: nat, s: nat, t: nat, first: bool, ok: bool)
    requires Wf(a) && Wf(b) && Wf(c) && j < |a.inodes| && s < SLOTS && t < SLOTS && Taken(a, b, j, s, first)
    requires j < |b.inodes| && (if first then Taken(b, c, j, t, ok) else c == b && !ok)
    ensures Extends(a, c, j) && j < |c.inodes|
    ensures if ok then Addr(c, j, s) != 0 && Addr(c, j, t) != 0 else Full(c) && (Addr(c, j, s) == 0 || Addr(c, j, t) == 0)
  {
    hide Addr, Extends, Wf, Full;
    if first {
      ExtendsTrans(a, b, c, j);
      StaysMapped(b, c, j, s);
    }
  }

  lemma TwoGained(a: Store, b: Store, c: Store, j: nat, s: nat, t: nat, first: bool, ok: bool)
    requires Wf(a) && Wf(b) && Wf(c) && j < |a.inodes| && s < SLOTS && t < SLOTS && Taken(a, b, j, s, first)
    requires j < |b.inodes| && (if first then Taken(b, c, j, t, ok) else c == b && !ok)
    ensures GainsOnly(a, c, {s, t})
  {
    hide Addr, Owned, OwnersHold, FreeIsZero, Used, Full;
    forall d | d in c.owner && d !in a.owner ensures c.owner[d].1 in {s, t} {
      if first {
        GainedByGrower(b, c, j, d);
      }
    }
  }

  lemma StarvedFull(a: Store, b: Store, j: nat, lo: nat, hi: nat)
    requires Wf(a) && Wf(b) && j < |a.inodes| && Starved(a, b, j, lo, hi)
    ensures Full(b) && Extends(a, b, j) && |b.inodes| == |a.inodes|
  {
  }

  lemma WroteExtends(a: Store, b: Store, j: nat, off: nat, data: seq<byte>)
    requires Wf(a) && Wf(b) && j < |a.inodes| && Wrote(a, b, j, off, data)
    ensures Extends(a, b, j)
  {
  }

  /** What is mapped can be had, on a full device too. */
  lemma MappedAffords(st: Store, j: nat, lo: nat, hi: nat)
    requires Wf(st) && j < |st.inodes| && MapsAll(st, j, lo, hi) && hi <= MAXFILE
    ensures Affords(st, j, lo, hi)
  {
    GrownRefl(st, j);
    assert Progress(st, st, j, lo, hi, hi);
    hide Wf, Progress, Affords, MapsAll;
    ProgressDone(st, st, j, lo, hi);
  }

  lemma BlockSettled(a: Store, b: Store, j: nat, bn: nat, ok: bool)
    requires Wf(a) && Wf(b) && j < |a.inodes| && bn < MAXFILE && Grown(a, b, j) && GainsIn(a, b, bn, bn + 1)
    requires if ok then Addr(b, j, SlotOf(bn)) != 0 else Full(b) && Addr(b, j, SlotOf(bn)) == 0
    ensures Settled(a, b, j, bn, bn + 1, ok)
  {
    hide Addr, Full, GainsIn, View, Owned, OwnersHold, FreeIsZero, Used, SlotOf;
  }

  lemma GainsTwice(a: Store, b: Store, c: Store, j: nat, bn: nat)
    requires Wf(a) && Wf(b) && Wf(c) && j < |a.inodes| && Extends(a, b, j) && Extends(b, c, j) && NDIRECT <= bn < MAXFILE
    requires forall d :: d in b.owner && d !in a.owner ==> b.owner[d].1 == NDIRECT
    requires forall d :: d in c.owner && d !in b.owner ==> c.owner[d].1 == SlotOf(bn)
    ensures GainsIn(a, c, bn, bn + 1)
  {
    forall d | d in c.owner && d !in a.owner ensures Needs(c.owner[d].1, bn, bn + 1) {
      GainedByGrower(b, c, j, d);
    }
  }

  /** Which blocks bmap takes: none where x was there, otherwise the lowest free one, after the
      lowest free one for an indirect block that was missing. */
  ghost predicate Chosen(a: Store, b: Store, j: nat, bn: nat, x: nat)
    requires Shape(a) && Shape(b) && j < |a.inodes| && j < |b.inodes| && bn < MAXFILE
  {
    if Addr(a, j, SlotOf(bn)) != 0 then b == a && x == Addr(a, j, SlotOf(bn))
    else if bn < NDIRECT || Addr(a, j, NDIRECT) != 0 then FirstFit(a, b, x)
    else FirstTwoFit(a, b, Addr(b, j, NDIRECT), x)
  }

  ghost predicate FirstTwoFit(a: Store, b: Store, i: nat, x: nat)
    requires Shape(a) && Shape(b)
  {
    && i < x < |a.disk| && !Used(a, i) && !Used(a, x)
    && (forall c :: 0 <= c < x && c != i ==> Used(a, c))
    && forall c: nat :: Used(b, c) <==> c == i || c == x || Used(a, c)
  }

  lemma ChosenTwice(a: Store, mid: Store, b: Store, j: nat, bn: nat, x: nat)
    requires Wf(a) && Wf(mid) && Wf(b) && j < |a.inodes| && NDIRECT <= bn < MAXFILE && Extends(a, mid, j) && Extends(mid, b, j)
    requires if Addr(a, j, NDIRECT) != 0 then mid == a else FirstFit(a, mid, Addr(mid, j, NDIRECT))
    requires if Addr(mid, j, SlotOf(bn)) != 0 then b == mid && x == Addr(mid, j, SlotOf(bn)) else FirstFit(mid, b, x)
    requires Addr(mid, j, NDIRECT) != 0 && (Addr(a, j, NDIRECT) == 0 ==> Addr(mid, j, SlotOf(bn)) == 0)
    ensures Chosen(a, b, j, bn, x)
  {
    hide Owned, OwnersHold, FreeIsZero, Word;
  }

  /** The blocks that hold n bytes from offset off. */
  function HiBlock(off: nat, n: nat): nat {
    if n == 0 then off / BSIZE else (off + n - 1) / BSIZE + 1
  }

  lemma HiBlockStep(off: nat, tot: nat, m: nat, n: nat)
    requires tot < n && m == Min(n - tot, BSIZE - (off + tot) % BSIZE)
    ensures off / BSIZE <= (off + tot) / BSIZE <= HiBlock(off, tot)
    ensures (off + tot) / BSIZE < HiBlock(off, n)
    ensures HiBlock(off, tot + m) == (off + tot) / BSIZE + 1
  {
    var o := off + tot;
    assert (o + m - 1) / BSIZE == o / BSIZE;
  }

  class FileSystem {
    var bitmap: seq<bv8>
    var disk: seq<seq<byte>>
    var inodes: seq<Inode>
    ghost var owner: map<nat, (nat, nat)>

    ghost function S(): Store
      reads this
    {
      Store(bitmap, disk, inodes, owner)
    }

    ghost predicate Valid()
      reads this
    {
      Wf(S()) && Sized(S())
    }

    /** balloc: mark the first clear bit and return its block. */
    method Balloc() returns (r: Allocation)
      requires Valid()
      modifies this`bitmap
      ensures r.Got? ==> r.b < |disk| && !Used(old(S()), r.b) && bitmap == SetBit(old(bitmap), r.b)
      ensures r.Got? ==> forall c :: 0 <= c < r.b ==> Used(old(S()), c)
      ensures !r.Got? <==> Full(old(S()))
      ensures r.OffDevice? <==> Full(old(S())) && StrayBit(old(S()))
      ensures r.OffDevice? ==> |disk| <= r.b < Scanned(|disk|) && !Bit(old(bitmap), r.b) && bitmap == SetBit(old(bitmap), r.b)
      ensures r.OffDevice? ==> forall c :: 0 <= c < r.b ==> Bit(old(bitmap), c)
      ensures r.Exhausted? <==> forall c :: 0 <= c < Scanned(|disk|) ==> Bit(old(bitmap), c)
      ensures r.Exhausted? ==> bitmap == old(bitmap)
      ensures |bitmap| == |old(bitmap)|
      ensures !r.Exhausted? ==> r.b / 8 < |old(bitmap)| && bitmap[r.b / 8] as int == old(bitmap)[r.b / 8] as int + Power(r.b % 8)
      ensures !r.Got? ==> Valid() && Full(S()) && Unmarked(old(S()), S())
    {
      var f := FirstClear(bitmap, |disk|);
      if f.None? {
        return Exhausted;
      }
      ghost var st := S();
      assert !Bit(bitmap, f.value);
      BitWeighs(bitmap[f.value / 8], f.value % 8);
      hide On, TurnOn;
      bitmap := SetBit(bitmap, f.value);
      if f.value < |disk| {
        assert !Used(st, f.value);
        return Got(f.value);
      }
      BeyondDevice(st, S(), f.value);
      return OffDevice(f.value);
    }

    /** The address in slot s of the inode itself, taken from balloc if there is none. */
    method UseSlot(ip: nat, s: nat) returns (r: Option<nat>)
      requires Valid() && ip < |inodes| && s <= NDIRECT
      modifies this
      ensures Valid() && Grown(old(S()), S(), ip)
      ensures r.Some? ==> Addr(S(), ip, s) == r.value && 0 < r.value < |disk|
      ensures r.None? ==> Full(S()) && Addr(S(), ip, s) == 0
      ensures forall c :: c in owner && c !in old(owner) ==> owner[c].1 == s
      ensures Addr(old(S()), ip, s) != 0 ==> r.Some? && S() == old(S())
      ensures Addr(old(S()), ip, s) == 0 && r.Some? ==> FirstFit(old(S()), S(), r.value)
    {
      hide Owned, OwnersHold, FreeIsZero, View, Grown, Extends, FirstFit;
      ghost var st := S();
      if inodes[ip].addrs[s] != 0 {
        GrownRefl(st, ip);
        AddressesDistinct(st, ip, s, ip, s);
        return Some(inodes[ip].addrs[s]);
      }
      var a := Balloc();
      if !a.Got? {
        UnmarkedGrown(st, S(), ip);
        return None;
      }
      assert Used(st, 0);
      TakeDirectWf(st, ip, s, a.b);
      inodes := SetAddr(inodes, ip, s, a.b);
      owner := owner[a.b := (ip, s)];
      assert S() == TakeDirect(st, ip, s, a.b);
      SetBitFits(st, S(), a.b);
      return Some(a.b);
    }

    /** bmap: the disk address of block bn of inode ip, allocated if there is none. Whatever
        it allocates, no byte of any file changes. */
    method Bmap(ip: nat, bn: nat) returns (r: Option<nat>)
      requires Valid() && ip < |inodes|
      modifies this
      ensures Valid() && Grown(old(S()), S(), ip)
      ensures |inodes| == |old(inodes)| && |disk| == |old(disk)|
      ensures inodes[ip].size == old(inodes[ip].size) && inodes[ip].kind == old(inodes[ip].kind)
      ensures r.Some? <==> bn < MAXFILE && Affords(old(S()), ip, bn, bn + 1)
      ensures r.Some? ==> Addr(S(), ip, SlotOf(bn)) == r.value && 0 < r.value < |disk| && AddressAt(S(), ip, bn, r.value)
      ensures bn < MAXFILE ==> Settled(old(S()), S(), ip, bn, bn + 1, r.Some?)
      ensures r.Some? ==> Chosen(old(S()), S(), ip, bn, r.value)
    {
      hide Owned, OwnersHold, FreeIsZero, View, Addr, Used, Full, GainsIn, Settled, Affords, SlotOf, AddressAt, Chosen;
      ghost var st := S();
      if bn >= MAXFILE {
        GrownRefl(st, ip);
        return None;
      }
      r := MapBlock(ip, bn);
      if r.Some? {
        AddrIsThere(S(), ip, bn);
      }
      BlockSettled(st, S(), ip, bn, r.Some?);
      SettledMeans(st, S(), ip, bn, bn + 1, r.Some?);
    }

    /** The two cases of bmap, for a block that a file can have. */
    method MapBlock(ip: nat, bn: nat) returns (r: Option<nat>)
      requires Valid() && ip < |inodes| && bn < MAXFILE
      modifies this
      ensures Valid() && Grown(old(S()), S(), ip) && GainsIn(old(S()), S(), bn, bn + 1)
      ensures r.Some? ==> Addr(S(), ip, SlotOf(bn)) == r.value && 0 < r.value < |disk|
      ensures r.None? ==> Full(S()) && Addr(S(), ip, SlotOf(bn)) == 0
      ensures r.Some? ==> Chosen(old(S()), S(), ip, bn, r.value)
    {
      if bn < NDIRECT {
        r := UseSlot(ip, bn);
      } else {
        ghost var st := S();
        r := UseSlot(ip, NDIRECT);
        if r.Some? {
          ghost var mid := S();
          r := UseEntry(ip, bn);
          GrownTrans(st, mid, S(), ip);
          GainsTwice(st, mid, S(), ip, bn);
          if r.Some? {
            ChosenTwice(st, mid, S(), ip, bn, r.value);
          }
        }
      }
    }

    /** The indirect half of bmap, once the indirect block exists. */
    method UseEntry(ip: nat, bn: nat) returns (r: Option<nat>)
      requires Valid() && ip < |inodes| && NDIRECT <= bn < MAXFILE && Addr(S(), ip, NDIRECT) != 0
      modifies this
      ensures Valid() && Grown(old(S()), S(), ip)
      ensures r.Some? ==> Addr(S(), ip, SlotOf(bn)) == r.value && 0 < r.value < |disk|
      ensures r.None? ==> Full(S()) && Addr(S(), ip, SlotOf(bn)) == 0
      ensures forall c :: c in owner && c !in old(owner) ==> owner[c].1 == SlotOf(bn)
      ensures Addr(old(S()), ip, SlotOf(bn)) != 0 ==> r.Some? && S() == old(S())
      ensures Addr(old(S()), ip, SlotOf(bn)) == 0 && r.Some? ==> FirstFit(old(S()), S(), r.value)
    {
      hide Owned, OwnersHold, FreeIsZero, View, Grown, Extends, FirstFit;
      ghost var st := S();
      var i := bn - NDIRECT;
      var block := inodes[ip].addrs[NDIRECT];
      var entry := Word(disk[block], i);
      if entry != 0 {
        GrownRefl(st, ip);
        AddressesDistinct(st, ip, SlotOf(bn), ip, SlotOf(bn));
        return Some(entry);
      }
      var a := Balloc();
      if !a.Got? {
        UnmarkedGrown(st, S(), ip);
        return None;
      }
      assert Used(st, 0);
      TakeIndirectWf(st, ip, i, a.b);
      disk := disk[block := SetWord(disk[block], i, a.b)];
      owner := owner[a.b := (ip, i + NDIRECT + 1)];
      assert S() == TakeIndirect(st, ip, i, a.b);
      SetBitFits(st, S(), a.b);
      TakeIndirectAddr(st, ip, i, a.b, ip, i + NDIRECT + 1);
      return Some(a.b);
    }

    /** bfree: zero the block, then clear its bit. False is the panic "freeing free block". */
    method Bfree(b: nat) returns (ok: bool)
      requires b < |disk| && b < 8 * |bitmap|
      modifies this`disk, this`bitmap
      ensures disk == old(disk)[b := Zeros()]
      ensures ok == old(Bit(bitmap, b))
      ensures bitmap == if ok then ClearBit(old(bitmap), b) else old(bitmap)
      ensures ok ==> bitmap[b / 8] as int == old(bitmap)[b / 8] as int - Power(b % 8)
    {
      BitWeighs(bitmap[b / 8], b % 8);
      hide On, TurnOff, Power;
      disk := disk[b := Zeros()];
      if !On(bitmap[b / 8], b % 8) {
        return false;
      }
      bitmap := bitmap[b / 8 := TurnOff(bitmap[b / 8], b % 8)];
      return true;
    }

    /** itrunc: frees each block the inode owns, never one that is already free. */
    method Itrunc(ip: nat) returns (ok: bool)
      requires Valid() && ip < |inodes|
      modifies this
      ensures ok && Valid() && Truncated(old(S()), S(), ip)
    {
      hide Owned, OwnersHold, FreeIsZero, Freeing, Belongs, Range, Truncated;
      ghost var st := S();
      ok := FreeDirect(ip, st);
      if !ok {
        return;
      }
      if inodes[ip].addrs[NDIRECT] != 0 {
        ok := FreeIndirect(ip, st);
        if !ok {
          return;
        }
      } else {
        FreeSkipRest(st, bitmap, disk, ip);
      }
      assert inodes[ip].addrs == Cleared(st.inodes[ip].addrs, NDIRECT + 1);
      inodes := inodes[ip := inodes[ip].(size := 0)];
      owner := map c | c in owner && owner[c].0 != ip :: owner[c];
      TruncWf(st, S(), ip);
    }

    method FreeDirect(ip: nat, ghost st: Store) returns (ok: bool)
      requires Valid() && ip < |inodes| && st == S()
      modifies this`inodes, this`disk, this`bitmap
      ensures ok && |disk| == |st.disk| && |bitmap| == |st.bitmap|
      ensures Freeing(st, bitmap, disk, ip, Range(0, NDIRECT))
      ensures inodes == st.inodes[ip := st.inodes[ip].(addrs := Cleared(st.inodes[ip].addrs, NDIRECT))]
    {
      hide Owned, OwnersHold, FreeIsZero, Freeing, Belongs, Range;
      FreeingNone(st, ip);
      assert Cleared(st.inodes[ip].addrs, 0) == st.inodes[ip].addrs;
      var i := 0;
      while i < NDIRECT
        invariant 0 <= i <= NDIRECT
        invariant |disk| == |st.disk| && |bitmap| == |st.bitmap| && Freeing(st, bitmap, disk, ip, Range(0, i))
        invariant inodes == st.inodes[ip := st.inodes[ip].(addrs := Cleared(st.inodes[ip].addrs, i))]
      {
        if inodes[ip].addrs[i] != 0 {
          FreeStep(st, bitmap, disk, ip, Range(0, i), i);
          ok := Bfree(inodes[ip].addrs[i]);
          if !ok {
            return;
          }
          inodes := SetAddr(inodes, ip, i, 0);
        } else {
          FreeSkip(st, bitmap, disk, ip, Range(0, i), i);
        }
        assert Range(0, i) + {i} == Range(0, i + 1);
        assert Cleared(st.inodes[ip].addrs, i + 1) == inodes[ip].addrs;
        i := i + 1;
      }
      return true;
    }

    method FreeIndirect(ip: nat, ghost st: Store) returns (ok: bool)
      requires Wf(st) && ip < |st.inodes| && |disk| == |st.disk| && |bitmap| == |st.bitmap|
      requires Freeing(st, bitmap, disk, ip, Range(0, NDIRECT))
      requires inodes == st.inodes[ip := st.inodes[ip].(addrs := Cleared(st.inodes[ip].addrs, NDIRECT))]
      requires inodes[ip].addrs[NDIRECT] != 0
      modifies this`inodes, this`disk, this`bitmap
      ensures ok && |disk| == |st.disk| && |bitmap| == |st.bitmap|
      ensures Freeing(st, bitmap, disk, ip, Range(0, SLOTS))
      ensures inodes == st.inodes[ip := st.inodes[ip].(addrs := Cleared(st.inodes[ip].addrs, NDIRECT + 1))]
    {
      hide Owned, OwnersHold, FreeIsZero, Freeing, Belongs, Range;
      var block := inodes[ip].addrs[NDIRECT];
      ghost var freed := Range(0, NDIRECT);
      var i := 0;
      while i < NINDIRECT
        invariant 0 <= i <= NINDIRECT
        invariant freed == Range(0, NDIRECT) + Range(NDIRECT + 1, i)
        invariant |disk| == |st.disk| && |bitmap| == |st.bitmap| && Freeing(st, bitmap, disk, ip, freed)
        invariant inodes == old(inodes)
      {
        NotFreed(st, bitmap, disk, ip, freed, NDIRECT);
        var entry := Word(disk[block], i);
        if entry != 0 {
          FreeStep(st, bitmap, disk, ip, freed, i + NDIRECT + 1);
          ok := Bfree(entry);
          if !ok {
            return;
          }
        } else {
          FreeSkip(st, bitmap, disk, ip, freed, i + NDIRECT + 1);
        }
        freed := freed + {i + NDIRECT + 1};
        i := i + 1;
      }
      FreeStep(st, bitmap, disk, ip, freed, NDIRECT);
      ok := Bfree(block);
      if !ok {
        return;
      }
      inodes := SetAddr(inodes, ip, NDIRECT, 0);
      assert freed + {NDIRECT} == Range(0, SLOTS);
      assert inodes[ip].addrs == Cleared(st.inodes[ip].addrs, NDIRECT + 1);
    }

    /** readi on a regular file or directory: the bytes of the clipped range. Blocks it has to
        allocate on the way change nothing that can be read. */
    method Readi(ip: nat, off: nat, count: nat) returns (r: Outcome, dst: seq<byte>)
      requires Valid() && ip < |inodes| && (inodes[ip].kind.File? || inodes[ip].kind.Dir?)
      requires off < UINT && count < UINT
      modifies this
      ensures Valid() && Grown(old(S()), S(), ip)
      ensures |inodes| == |old(inodes)| && inodes[ip].kind == old(inodes[ip].kind)
      ensures r.Refused? <==> off > old(inodes[ip].size) || off + count >= UINT
      ensures r.Done? ==> r.n == Min(count, old(inodes[ip].size) - off) && dst == Slice(old(S()), ip, off, r.n)
      ensures r.Halted? ==> Full(S())
      ensures !r.Refused? ==>
        var hi := HiBlock(off, Min(count, old(inodes[ip].size) - off));
        (r.Done? <==> Affords(old(S()), ip, off / BSIZE, hi)) && Settled(old(S()), S(), ip, off / BSIZE, hi, r.Done?)
    {
      hide Extends, Owned, OwnersHold, FreeIsZero, Grown, View, Used, Progress, Affords, Full, GainsIn, Starved;
      ghost var st := S();
      GrownRefl(st, ip);
      dst := [];
      if off > inodes[ip].size || (off + count) % UINT < off {
        return Refused, dst;
      }
      var n := if off + count > inodes[ip].size then inodes[ip].size - off else count;
      var tot := 0;
      ProgressNone(st, ip, off / BSIZE, HiBlock(off, n));
      while tot < n
        invariant 0 <= tot <= n && Reading(ip, st, off, tot, n) && dst == Slice(st, ip, off, tot)
      {
        var m := Min(n - tot, BSIZE - (off + tot) % BSIZE);
        var ok, chunk := ReadChunk(ip, off, tot, m, n, st);
        if !ok {
          SettledMeans(st, S(), ip, off / BSIZE, HiBlock(off, n), false);
          return Halted, dst;
        }
        dst := dst + chunk;
        tot := tot + m;
      }
      SettledMeans(st, S(), ip, off / BSIZE, HiBlock(off, n), true);
      return Done(n), dst;
    }

    /** tot of n bytes from off have been read: nothing visible changed. */
    ghost predicate Reading(ip: nat, st: Store, off: nat, tot: nat, n: nat)
      reads this
    {
      && Valid() && Wf(st) && ip < |st.inodes| == |inodes| && inodes[ip].kind == st.inodes[ip].kind
      && tot <= n && off + n <= MAXBYTES && HiBlock(off, n) <= MAXFILE
      && Grown(st, S(), ip) && Progress(st, S(), ip, off / BSIZE, HiBlock(off, tot), HiBlock(off, n))
    }

    /** One turn of the read loop. */
    method ReadChunk(ip: nat, off: nat, tot: nat, m: nat, n: nat, ghost st: Store) returns (ok: bool, chunk: seq<byte>)
      requires Reading(ip, st, off, tot, n) && tot < n && m == Min(n - tot, BSIZE - (off + tot) % BSIZE)
      modifies this
      ensures ok ==> Reading(ip, st, off, tot + m, n) && Slice(st, ip, off, tot) + chunk == Slice(st, ip, off, tot + m)
      ensures !ok ==> Valid() && |inodes| == |st.inodes| && inodes[ip].kind == st.inodes[ip].kind && Grown(st, S(), ip)
      ensures !ok ==> Full(S()) && Starved(st, S(), ip, off / BSIZE, HiBlock(off, n))
    {
      hide Extends, Owned, OwnersHold, FreeIsZero, View, Used, Progress, Affords, Full, GainsIn, Slice, Addr, Starved, Settled;
      var o := off + tot;
      ghost var mid := S();
      HiBlockStep(off, tot, m, n);
      var a := Bmap(ip, o / BSIZE);
      GrownTrans(st, mid, S(), ip);
      ProgressThen(st, mid, S(), ip, off / BSIZE, HiBlock(off, tot), HiBlock(off, n), o / BSIZE, o / BSIZE + 1, a.Some?);
      if a.None? {
        StarvedFull(st, S(), ip, off / BSIZE, HiBlock(off, n));
        return false, [];
      }
      ReadStep(st, S(), ip, off, tot, o, m, a.value);
      return true, disk[a.value][o % BSIZE..o % BSIZE + m];
    }

    /** writei on a regular file or directory. */
    method Writei(ip: nat, off: nat, src: seq<byte>) returns (r: Outcome)
      requires Valid() && ip < |inodes| && (inodes[ip].kind.File? || inodes[ip].kind.Dir?)
      requires off < UINT && |src| < UINT
      modifies this
      ensures Valid() && |inodes| == |old(inodes)|
      ensures r.Refused? <==> off > old(inodes[ip].size) || off + |src| >= UINT
      ensures r.Refused? ==> S() == old(S())
      ensures r.Done? ==> r.n == Min(|src|, MAXBYTES - off) && Wrote(old(S()), S(), ip, off, src[..r.n])
      ensures r.Done? ==> inodes[ip].size == Max(old(inodes[ip].size), off + r.n)
      ensures r.Halted? ==> Full(S()) && Extends(old(S()), S(), ip)
      ensures !r.Refused? ==>
        var hi := HiBlock(off, Min(|src|, MAXBYTES - off));
        (r.Done? <==> Affords(old(S()), ip, off / BSIZE, hi)) && Settled(old(S()), S(), ip, off / BSIZE, hi, r.Done?)
    {
      hide Extends, Owned, OwnersHold, FreeIsZero, Grown, View, Bytes, Used, Progress, Affords, Full, GainsIn, Starved;
      if off > inodes[ip].size || (off + |src|) % UINT < off {
        return Refused;
      }
      var n := if off + |src| > MAXBYTES then MAXBYTES - off else |src|;
      ghost var st := S();
      WroteNothing(st, ip, off);
      var tot := 0;
      ProgressNone(st, ip, off / BSIZE, HiBlock(off, n));
      while tot < n
        invariant 0 <= tot <= n && Writing(ip, st, off, src, tot, n)
      {
        var m := Min(n - tot, BSIZE - (off + tot) % BSIZE);
        var ok := WriteChunk(ip, off, src, tot, m, n, st);
        if !ok {
          SettledMeans(st, S(), ip, off / BSIZE, HiBlock(off, n), false);
          return Halted;
        }
        tot := tot + m;
      }
      SettledMeans(st, S(), ip, off / BSIZE, HiBlock(off, n), true);
      if n > 0 && off + n > inodes[ip].size {
        ResizeWf(st, S(), ip, off, src[..n], off + n);
        WroteExtends(st, S().(inodes := inodes[ip := inodes[ip].(size := off + n)]), ip, off, src[..n]);
        ProgressPut(st, S(), S().(inodes := inodes[ip := inodes[ip].(size := off + n)]), ip, off / BSIZE, HiBlock(off, n), HiBlock(off, n));
        inodes := inodes[ip := inodes[ip].(size := off + n)];
      }
      return Done(n);
    }

    /** tot of n bytes have been written at off. */
    ghost predicate Writing(ip: nat, st: Store, off: nat, src: seq<byte>, tot: nat, n: nat)
      reads this
    {
      && Valid() && Wf(st) && ip < |st.inodes| == |inodes| && inodes[ip].size == st.inodes[ip].size
      && tot <= n <= |src| && off + n <= MAXBYTES && HiBlock(off, n) <= MAXFILE
      && Wrote(st, S(), ip, off, src[..tot]) && Progress(st, S(), ip, off / BSIZE, HiBlock(off, tot), HiBlock(off, n))
    }

    /** One turn of the write loop. */
    method WriteChunk(ip: nat, off: nat, src: seq<byte>, tot: nat, m: nat, n: nat, ghost st: Store) returns (ok: bool)
      requires Writing(ip, st, off, src, tot, n) && tot < n && m == Min(n - tot, BSIZE - (off + tot) % BSIZE)
      modifies this
      ensures ok ==> Writing(ip, st, off, src, tot + m, n)
      ensures !ok ==> Valid() && |inodes| == |st.inodes| && Full(S()) && Extends(st, S(), ip)
      ensures !ok ==> Starved(st, S(), ip, off / BSIZE, HiBlock(off, n))
    {
      hide Extends, Owned, OwnersHold, FreeIsZero, View, Bytes, Used, Progress, Affords, Full, GainsIn, Addr, Starved, Settled;
      var o := off + tot;
      ghost var mid := S();
      HiBlockStep(off, tot, m, n);
      var a := Bmap(ip, o / BSIZE);
      ProgressThen(st, mid, S(), ip, off / BSIZE, HiBlock(off, tot), HiBlock(off, n), o / BSIZE, o / BSIZE + 1, a.Some?);
      if a.None? {
        StarvedFull(st, S(), ip, off / BSIZE, HiBlock(off, n));
        return false;
      }
      var chunk := src[tot..tot + m];
      ghost var cur := S();
      WriteStep(st, mid, cur, ip, off, src[..tot], o, chunk, a.value);
      assert src[..tot] + chunk == src[..tot + m];
      disk := disk[a.value := Patch(disk[a.value], o % BSIZE, chunk)];
      ProgressPut(st, cur, S(), ip, off / BSIZE, HiBlock(off, tot + m), HiBlock(off, n));
      return true;
    }
  }

  /** How many bits balloc looks at: those of whole bitmap blocks. */
  function Scanned(size: nat): nat {
    (size + 4095) / 4096 * 4096
  }

  lemma ScannedFits(size: nat, len: nat)
    requires size <= 8 * len && len % BSIZE == 0
    ensures size <= Scanned(size) <= 8 * len
  {
    assert 8 * len == len / BSIZE * BPB;
  }

  lemma ScannedNext(size: nat, b: nat)
    requires b < size && b % BPB == 0
    ensures b + BPB <= Scanned(size)
  {
    assert b == b / BPB * BPB;
  }

  /** The code's view of bit b + bi of the bitmap. */
  lemma BitHere(bitmap: seq<bv8>, b: nat, bi: nat)
    requires b % BPB == 0 && b + bi < 8 * |bitmap|
    ensures b / 8 + bi / 8 < |bitmap| && (Bit(bitmap, b + bi) <==> On(bitmap[b / 8 + bi / 8], bi % 8))
  {
    hide On;
    assert b % 8 == 0;
    assert (b + bi) / 8 == b / 8 + bi / 8 && (b + bi) % 8 == bi % 8;
  }

  /** A bit past the device that balloc looks at is clear. */
  ghost predicate StrayBit(st: Store)
    requires Shape(st)
  {
    exists c :: |st.disk| <= c < Scanned(|st.disk|) && c < 8 * |st.bitmap| && !Bit(st.bitmap, c)
  }

  /** The scan of balloc: over whole bitmap blocks, so it does not stop at the size of the
      device. */
  method FirstClear(bitmap: seq<bv8>, size: nat) returns (r: Option<nat>)
    requires size <= 8 * |bitmap| && |bitmap| % BSIZE == 0
    ensures Scanned(size) <= 8 * |bitmap|
    ensures r.Some? ==> r.value < Scanned(size) && !Bit(bitmap, r.value)
    ensures forall c :: 0 <= c < (if r.Some? then r.value else Scanned(size)) ==> Bit(bitmap, c)
  {
    hide On, Bit;
    ScannedFits(size, |bitmap|);
    var b := 0;
    while b < size
      invariant b % BPB == 0 && b <= Scanned(size)
      invariant forall c :: 0 <= c < b ==> Bit(bitmap, c)
    {
      ScannedNext(size, b);
      var bi := 0;
      while bi < BPB
        invariant 0 <= bi <= BPB
        invariant forall c :: 0 <= c < b + bi ==> Bit(bitmap, c)
      {
        BitHere(bitmap, b, bi);
        if !On(bitmap[b / 8 + bi / 8], bi % 8) {
          return Some(b + bi);
        }
        bi := bi + 1;
      }
      b := b + BPB;
    }
    return None;
  }

  /** The two stores have the same blocks of the device marked used and agree otherwise. */
  ghost predicate Unmarked(a: Store, b: Store)
    requires Shape(a) && Shape(b)
  {
    b.disk == a.disk && b.inodes == a.inodes && b.owner == a.owner && forall c :: Used(b, c) <==> Used(a, c)
  }

  /** On a full device of 1024 blocks as mkfs makes it, under one bitmap block with the bits past
      the device clear, balloc hands out block 1024, and the next bits after it. */
  method FullDeviceOverruns(fs: FileSystem, taken: nat) returns (r: Allocation)
    requires fs.Valid() && |fs.disk| == 1024 && |fs.bitmap| == BSIZE && 1024 <= taken < 4096
    requires forall c :: 0 <= c < 4096 ==> (Bit(fs.bitmap, c) <==> c < taken)
    modifies fs
    ensures r == OffDevice(taken)
  {
    assert Shape(fs.S());
    hide Wf, Shape, On;
    assert Scanned(1024) == 4096;
    assert Full(fs.S()) && StrayBit(fs.S()) by {
      assert !Bit(fs.bitmap, taken);
    }
    r := fs.Balloc();
  }

  /** An inode that holds such an address is not in order, whoever is recorded as its owner. */
  lemma StrayAddress(st: Store, j: nat, s: nat)
    requires Shape(st) && j < |st.inodes| && s < SLOTS && |st.disk| <= Addr(st, j, s)
    ensures !Wf(st)
  {
    if Wf(st) {
      AddressesDistinct(st, j, s, j, s);
    }
  }

  /** Marking a bit beyond the device leaves every block of the device as it was. */
  lemma BeyondDevice(st: Store, t: Store, b: nat)
    requires Wf(st) && |st.disk| <= b < 8 * |st.bitmap|
    requires t == st.(bitmap := SetBit(st.bitmap, b))
    ensures Wf(t) && Unmarked(st, t)
  {
    AllBits(st.bitmap, b);
    forall c: nat ensures Used(t, c) <==> Used(st, c) {}
    forall k, s | 0 <= k < |st.inodes| && 0 <= s < SLOTS ensures Addr(t, k, s) == Addr(st, k, s) {}
  }

  lemma UnmarkedGrown(a: Store, b: Store, j: nat)
    requires Wf(a) && Wf(b) && Unmarked(a, b) && |b.bitmap| == |a.bitmap| && j < |a.inodes|
    ensures Grown(a, b, j)
  {
    forall k, s | 0 <= k < |a.inodes| && 0 <= s < SLOTS ensures Addr(b, k, s) == Addr(a, k, s) {}
    forall k, n | 0 <= k < |a.inodes| && 0 <= n < MAXFILE ensures View(b, k, n) == View(a, k, n) {}
  }

  lemma GrownRefl(a: Store, j: nat)
    requires Wf(a) && j < |a.inodes|
    ensures Grown(a, a, j)
  {
  }

  lemma ReadByte(st: Store, cur: Store, j: nat, o: nat, m: nat, x: nat, i: nat)
    requires Wf(st) && Wf(cur) && j < |st.inodes| && Grown(st, cur, j)
    requires o + m <= MAXBYTES && o % BSIZE + m <= BSIZE && i < m
    requires |cur.inodes| == |st.inodes| && 0 < x < |cur.disk| && Addr(cur, j, SlotOf(o / BSIZE)) == x
    ensures cur.disk[x][o % BSIZE + i] == ByteAt(st, j, o + i)
  {
    hide Owned, OwnersHold, FreeIsZero, Extends, Word;
    GrownBytes(st, cur, j, j, o + i);
    assert (o + i) / BSIZE == o / BSIZE && (o + i) % BSIZE == o % BSIZE + i;
  }

  lemma ReadStep(st: Store, cur: Store, j: nat, off: nat, tot: nat, o: nat, m: nat, x: nat)
    requires Wf(st) && Wf(cur) && j < |st.inodes| && Grown(st, cur, j)
    requires o == off + tot && 0 < m && o + m <= MAXBYTES && o % BSIZE + m <= BSIZE
    requires |cur.inodes| == |st.inodes| && 0 < x < |cur.disk| && Addr(cur, j, SlotOf(o / BSIZE)) == x
    ensures Slice(st, j, off, tot) + cur.disk[x][o % BSIZE..o % BSIZE + m] == Slice(st, j, off, tot + m)
  {
    hide Extends, Owned, OwnersHold, FreeIsZero, Grown, View, ByteAt, Addr;
    var l := Slice(st, j, off, tot) + cur.disk[x][o % BSIZE..o % BSIZE + m];
    var r := Slice(st, j, off, tot + m);
    forall i | 0 <= i < tot + m ensures l[i] == r[i] {
      if i >= tot {
        ReadByte(st, cur, j, o, m, x, i - tot);
        assert o + (i - tot) == off + i;
      }
    }
  }

  lemma WroteNothing(st: Store, j: nat, off: nat)
    requires Wf(st) && j < |st.inodes|
    ensures Wrote(st, st, j, off, [])
  {
  }

  lemma WriteStep(st: Store, mid: Store, cur: Store, j: nat, off: nat, done: seq<byte>, o: nat, chunk: seq<byte>, x: nat)
    requires Wf(st) && Wf(mid) && Wf(cur) && j < |st.inodes|
    requires Wrote(st, mid, j, off, done) && Grown(mid, cur, j)
    requires o == off + |done| && ChunkFits(cur, j, o, chunk, x)
    ensures Wf(Stored(cur, x, o, chunk))
    ensures Wrote(st, Stored(cur, x, o, chunk), j, off, done + chunk)
  {
    hide Extends, Bytes, Owned, OwnersHold, FreeIsZero, Grown;
    GrownWrote(st, mid, cur, j, off, done);
    PutBytes(cur, j, o, chunk, x);
    WroteTrans(st, cur, Stored(cur, x, o, chunk), j, off, done, chunk);
  }

  lemma ResizeAddr(cur: Store, t: Store, j: nat, size: nat)
    requires Wf(cur) && j < |cur.inodes| && t == cur.(inodes := cur.inodes[j := cur.inodes[j].(size := size)])
    ensures Wf(t)
    ensures forall k, s :: 0 <= k < |cur.inodes| && 0 <= s < SLOTS ==> Addr(t, k, s) == Addr(cur, k, s)
    ensures forall c :: Used(t, c) <==> Used(cur, c)
  {
    forall k, s | 0 <= k < |cur.inodes| && 0 <= s < SLOTS ensures Shape(t) && Addr(t, k, s) == Addr(cur, k, s) {}
    forall c: nat ensures Used(t, c) <==> Used(cur, c) {}
  }

  /** Setting the size of an inode touches no address and no byte. */
  lemma ResizeWf(st: Store, cur: Store, j: nat, off: nat, data: seq<byte>, size: nat)
    requires Wf(st) && Wf(cur) && j < |st.inodes| && Wrote(st, cur, j, off, data)
    ensures var t := cur.(inodes := cur.inodes[j := cur.inodes[j].(size := size)]);
      Wf(t) && Wrote(st, t, j, off, data)
  {
    var t := cur.(inodes := cur.inodes[j := cur.inodes[j].(size := size)]);
    ResizeAddr(cur, t, j, size);
    forall k, p | 0 <= k < |cur.inodes| && 0 <= p < MAXBYTES ensures ByteAt(t, k, p) == ByteAt(cur, k, p) {}
  }

  // ----- truncation -----

  function Cleared(addrs: seq<nat>, i: nat): (r: seq<nat>)
    requires |addrs| == NDIRECT + 1
    ensures |r| == NDIRECT + 1
  {
    seq(NDIRECT + 1, k requires 0 <= k < NDIRECT + 1 => if k < i then 0 else addrs[k])
  }

  /** Block c is owned by inode j, in one of the given slots. */
  ghost predicate Belongs(st: Store, j: nat, slots: set<nat>, c: nat) {
    c in st.owner && st.owner[c].0 == j && st.owner[c].1 in slots
  }

  /** The blocks of the given slots of inode j have been zeroed and unmarked, no others. */
  ghost predicate Freeing(st: Store, bitmap: seq<bv8>, disk: seq<seq<byte>>, j: nat, slots: set<nat>)
    requires Wf(st) && |disk| == |st.disk| && |bitmap| == |st.bitmap|
  {
    forall c :: 0 <= c < |disk| ==>
      && (Bit(bitmap, c) <==> Bit(st.bitmap, c) && !Belongs(st, j, slots, c))
      && disk[c] == if Belongs(st, j, slots, c) then Zeros() else st.disk[c]
  }

  ghost predicate Truncated(a: Store, b: Store, j: nat)
    requires Wf(a) && Wf(b) && j < |a.inodes|
  {
    && |b.disk| == |a.disk|
    && b.inodes == a.inodes[j := a.inodes[j].(size := 0, addrs := Cleared(a.inodes[j].addrs, NDIRECT + 1))]
    && (forall c :: c in b.owner <==> c in a.owner && a.owner[c].0 != j)
    && (forall c :: Used(b, c) <==> Used(a, c) && !(c in a.owner && a.owner[c].0 == j))
    && (forall k, n :: 0 <= k < |a.inodes| && k != j && 0 <= n < MAXFILE ==> View(b, k, n) == View(a, k, n))
  }

  lemma FreeingNone(st: Store, j: nat)
    requires Wf(st)
    ensures Freeing(st, st.bitmap, st.disk, j, Range(0, 0))
  {
  }

  lemma NotFreed(st: Store, bitmap: seq<bv8>, disk: seq<seq<byte>>, j: nat, slots: set<nat>, s: nat)
    requires Wf(st) && |disk| == |st.disk| && |bitmap| == |st.bitmap| && Freeing(st, bitmap, disk, j, slots)
    requires j < |st.inodes| && s < SLOTS && s !in slots && Addr(st, j, s) != 0
    ensures var b := Addr(st, j, s); b < |disk| && disk[b] == st.disk[b] && Bit(bitmap, b) && |disk[b]| == BSIZE
  {
    AddressesDistinct(st, j, s, j, s);
  }

  lemma FreeStep(st: Store, bitmap: seq<bv8>, disk: seq<seq<byte>>, j: nat, slots: set<nat>, s: nat)
    requires Wf(st) && |disk| == |st.disk| && |bitmap| == |st.bitmap| && Freeing(st, bitmap, disk, j, slots)
    requires j < |st.inodes| && s < SLOTS && s !in slots && Addr(st, j, s) != 0
    ensures var b := Addr(st, j, s);
      && b < |disk| && Bit(bitmap, b)
      && Freeing(st, ClearBit(bitmap, b), disk[b := Zeros()], j, slots + {s})
  {
    NotFreed(st, bitmap, disk, j, slots, s);
    var b := Addr(st, j, s);
    AllBits(bitmap, b);
    forall c | 0 <= c < |disk|
      ensures Belongs(st, j, slots + {s}, c) <==> c == b || Belongs(st, j, slots, c)
    {
    }
  }

  lemma FreeSkip(st: Store, bitmap: seq<bv8>, disk: seq<seq<byte>>, j: nat, slots: set<nat>, s: nat)
    requires Wf(st) && |disk| == |st.disk| && |bitmap| == |st.bitmap| && Freeing(st, bitmap, disk, j, slots)
    requires j < |st.inodes| && s < SLOTS && Addr(st, j, s) == 0
    ensures Freeing(st, bitmap, disk, j, slots + {s})
  {
    forall c | 0 <= c < |disk| ensures Belongs(st, j, slots + {s}, c) <==> Belongs(st, j, slots, c) {}
  }

  /** Without an indirect block there is nothing in the remaining slots. */
  lemma FreeSkipRest(st: Store, bitmap: seq<bv8>, disk: seq<seq<byte>>, j: nat)
    requires Wf(st) && |disk| == |st.disk| && |bitmap| == |st.bitmap| && Freeing(st, bitmap, disk, j, Range(0, NDIRECT))
    requires j < |st.inodes| && st.inodes[j].addrs[NDIRECT] == 0
    ensures Freeing(st, bitmap, disk, j, Range(0, SLOTS))
  {
    hide Range;
    forall c | 0 <= c < |disk| ensures Belongs(st, j, Range(0, SLOTS), c) <==> Belongs(st, j, Range(0, NDIRECT), c) {}
  }

  /** The store t is st with all blocks of inode j given back. */
  ghost predicate GaveBack(st: Store, t: Store, j: nat)
    requires Wf(st) && j < |st.inodes|
  {
    && |t.disk| == |st.disk| && |t.bitmap| == |st.bitmap|
    && Freeing(st, t.bitmap, t.disk, j, Range(0, SLOTS))
    && t.inodes == st.inodes[j := st.inodes[j].(size := 0, addrs := Cleared(st.inodes[j].addrs, NDIRECT + 1))]
    && t.owner == map c | c in st.owner && st.owner[c].0 != j :: st.owner[c]
  }

  lemma GaveBackBlocks(st: Store, t: Store, j: nat)
    requires Wf(st) && j < |st.inodes| && GaveBack(st, t, j)
    ensures Shape(t) && FreeIsZero(t)
    ensures forall c :: Used(t, c) <==> Used(st, c) && !(c in st.owner && st.owner[c].0 == j)
    ensures forall c: nat :: Used(t, c) ==> t.disk[c] == st.disk[c]
  {
    hide Range;
    forall c | 0 <= c < |t.disk|
      ensures Belongs(st, j, Range(0, SLOTS), c) <==> c in st.owner && st.owner[c].0 == j
    {
    }
  }

  lemma GaveBackAddr(st: Store, t: Store, j: nat, k: nat, s: nat)
    requires Wf(st) && j < |st.inodes| && GaveBack(st, t, j) && k < |st.inodes| && s < SLOTS
    ensures Shape(t) && Addr(t, k, s) == if k == j then 0 else Addr(st, k, s)
  {
    hide Range;
    GaveBackBlocks(st, t, j);
    AddressesDistinct(st, k, NDIRECT, k, NDIRECT);
  }

  lemma TruncWf(st: Store, t: Store, j: nat)
    requires Wf(st) && j < |st.inodes| && GaveBack(st, t, j)
    ensures Wf(t) && Truncated(st, t, j)
  {
    hide Range, Freeing;
    GaveBackBlocks(st, t, j);
    forall k, s | 0 <= k < |st.inodes| && 0 <= s < SLOTS
      ensures Addr(t, k, s) == if k == j then 0 else Addr(st, k, s)
    {
      GaveBackAddr(st, t, j, k, s);
    }
    assert Wf(t);
    forall k, n | 0 <= k < |st.inodes| && k != j && 0 <= n < MAXFILE
      ensures View(t, k, n) == View(st, k, n)
    {
      AddressesDistinct(st, k, SlotOf(n), k, SlotOf(n));
    }
  }
}
