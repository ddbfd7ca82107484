/** Mirrored files (T_MIRRORED in fs.c): three copies of each logical block, compared and
    repaired when read. */
module Mirror {
  import opened Wrappers
  import opened BlockFormat
  import opened FileStore
  import opened FileLaws
  import opened CString

  /** Logical blocks whose three address slots all lie inside the indirect block. */
  const MBLOCKS := 46
  const MBYTES := 23552  // MBLOCKS * BSIZE

  /** Position in the block map of byte p of copy c. */
  function Raw(c: nat, p: nat): (r: nat)
    requires c < 3 && p < MBYTES
    ensures r < MAXBYTES
    ensures r % BSIZE == p % BSIZE && r / BSIZE == 3 * (p / BSIZE) + c
  {
    (3 * (p / BSIZE) + c) * BSIZE + p % BSIZE
  }

  /** Byte p of copy c. */
  ghost function CopyByte(st: Store, j: nat, c: nat, p: nat): byte
    requires Wf(st) && j < |st.inodes| && c < 3 && p < MBYTES
  {
    ByteAt(st, j, Raw(c, p))
  }

  /** The three copies agree everywhere: the uncorrupted state. */
  ghost predicate Agree(st: Store, j: nat)
    requires Wf(st) && j < |st.inodes|
  {
    forall p :: 0 <= p < MBYTES ==> CopyByte(st, j, 0, p) == CopyByte(st, j, 1, p) == CopyByte(st, j, 2, p)
  }

  /** The three copies of one logical block never share a disk block. */
  lemma CopiesApart(st: Store, j: nat, k: nat, c: nat, k': nat, c': nat)
    requires Wf(st) && j < |st.inodes| && k < MBLOCKS && k' < MBLOCKS && c < 3 && c' < 3
    requires Addr(st, j, SlotOf(3 * k + c)) != 0 && (k, c) != (k', c')
    ensures Addr(st, j, SlotOf(3 * k + c)) != Addr(st, j, SlotOf(3 * k' + c'))
  {
    AddressesDistinct(st, j, SlotOf(3 * k + c), j, SlotOf(3 * k' + c'));
  }

  /** The address slots that mbmap looks at. */
  function RowSlots(bn: nat, mbn: nat): set<nat>
    requires bn < 3 * MBLOCKS && mbn < 3
  {
    if bn < NDIRECT then {bn, bn + mbn} else {NDIRECT, SlotOf(bn + mbn)}
  }

  /** mbmap: address of copy mbn of the logical block whose first slot is bn, allocated if
      there is none; in the direct range the first copy is allocated along with any other. */
  method Mbmap(fs: FileSystem, ip: nat, bn: nat, mbn: nat) returns (r: Option<nat>)
    requires fs.Valid() && ip < |fs.inodes| && bn % 3 == 0 && bn < 3 * MBLOCKS && mbn < 3
    modifies fs
    ensures fs.Valid() && Grown(old(fs.S()), fs.S(), ip)
    ensures |fs.inodes| == |old(fs.inodes)| && |fs.disk| == |old(fs.disk)|
    ensures r.Some? <==> Supplies(old(fs.S()), ip, RowSlots(bn, mbn))
    ensures r.Some? ==> Addr(fs.S(), ip, SlotOf(bn + mbn)) == r.value && 0 < r.value < |fs.disk| && AddressAt(fs.S(), ip, bn + mbn, r.value)
    ensures r.None? ==> Full(fs.S()) && !MapsAll(fs.S(), ip, bn, bn + 3)
    ensures GainsIn(old(fs.S()), fs.S(), bn, bn + 3)
    ensures MapsAll(old(fs.S()), ip, bn, bn + 3) ==> r.Some? && fs.S() == old(fs.S())
  {
    hide Owned, OwnersHold, FreeIsZero, Used, Full, View, Addr, SlotOf, MapsAll, GainsIn, Supplies, Extends, Taken, AddressAt;
    ghost var st := fs.S();
    RowHeld(st, ip, bn, mbn);
    if bn < NDIRECT {
      r := fs.UseSlot(ip, bn);
    } else {
      r := fs.UseSlot(ip, NDIRECT);
    }
    ghost var mid, first := fs.S(), r.Some?;
    SlotTaken(st, mid, ip, if bn < NDIRECT then bn else NDIRECT, first);
    if r.Some? && bn >= NDIRECT {
      r := fs.UseEntry(ip, bn + mbn);
    } else if r.Some? && mbn != 0 {
      r := fs.UseSlot(ip, bn + mbn);
    }
    MbmapDone(st, mid, fs.S(), ip, bn, mbn, first, r.Some?);
    if r.Some? {
      AddrIsThere(fs.S(), ip, bn + mbn);
    }
  }

  lemma SlotTaken(a: Store, b: Store, j: nat, s: nat, ok: bool)
    requires Wf(a) && Wf(b) && j < |a.inodes| && s < SLOTS && Grown(a, b, j)
    requires forall c :: c in b.owner && c !in a.owner ==> b.owner[c].1 == s
    requires if ok then Addr(b, j, s) != 0 else Full(b) && Addr(b, j, s) == 0
    ensures Taken(a, b, j, s, ok) && j < |b.inodes|
  {
    hide Addr, Full, View, Wf;
  }

  /** Where all copies of the row are mapped, mbmap finds its slots filled. */
  lemma RowHeld(st: Store, j: nat, bn: nat, mbn: nat)
    requires Wf(st) && j < |st.inodes| && bn % 3 == 0 && bn < 3 * MBLOCKS && mbn < 3
    ensures MapsAll(st, j, bn, bn + 3) ==>
      Addr(st, j, if bn < NDIRECT then bn else NDIRECT) != 0 && Addr(st, j, SlotOf(bn + mbn)) != 0
    ensures bn < NDIRECT ==> SlotOf(bn) == bn && SlotOf(bn + mbn) == bn + mbn < NDIRECT
    ensures Addr(st, j, if bn < NDIRECT then bn else NDIRECT) == 0 ==> !MapsAll(st, j, bn, bn + 3)
    ensures Addr(st, j, SlotOf(bn + mbn)) == 0 ==> !MapsAll(st, j, bn, bn + 3)
  {
    if MapsAll(st, j, bn, bn + 3) {
      assert Addr(st, j, SlotOf(bn)) != 0 && Addr(st, j, SlotOf(bn + mbn)) != 0;
    }
  }

  lemma MbmapDone(a: Store, b: Store, c: Store, j: nat, bn: nat, mbn: nat, first: bool, ok: bool)
    requires Wf(a) && Wf(b) && Wf(c) && j < |a.inodes| && j < |b.inodes| && bn % 3 == 0 && bn < 3 * MBLOCKS && mbn < 3
    requires Grown(a, b, j) && Taken(a, b, j, if bn < NDIRECT then bn else NDIRECT, first)
    requires !first ==> c == b && !ok
    requires first && bn < NDIRECT && mbn == 0 ==> c == b && ok
    requires first && (bn >= NDIRECT || mbn != 0) ==>
      && Grown(b, c, j)
      && (forall d :: d in c.owner && d !in b.owner ==> c.owner[d].1 == SlotOf(bn + mbn))
      && (if ok then Addr(c, j, SlotOf(bn + mbn)) != 0 else Full(c) && Addr(c, j, SlotOf(bn + mbn)) == 0)
    ensures |c.inodes| == |a.inodes| && |c.disk| == |a.disk| && Grown(a, c, j) && GainsIn(a, c, bn, bn + 3) && (ok <==> Supplies(a, j, RowSlots(bn, mbn)))
    ensures if ok then Addr(c, j, SlotOf(bn + mbn)) != 0 else Full(c) && !MapsAll(c, j, bn, bn + 3)
  {
    assert |c.inodes| == |b.inodes| == |a.inodes| && |c.disk| == |b.disk| == |a.disk|;
    var s, t := if bn < NDIRECT then bn else NDIRECT, SlotOf(bn + mbn);
    RowHeld(c, j, bn, mbn);
    hide Wf, Addr, View, SlotOf, MapsAll, Supplies, Full, Extends;
    if first {
      if bn < NDIRECT && mbn == 0 {
        GrownRefl(b, j);
        SlotTaken(b, c, j, t, ok);
      } else {
        SlotTaken(b, c, j, t, ok);
      }
      GrownTrans(a, b, c, j);
    }
    TwoTaken(a, b, c, j, s, t, first, ok);
    RowGains(a, c, bn, mbn);
  }

  lemma RowGains(a: Store, c: Store, bn: nat, mbn: nat)
    requires bn % 3 == 0 && bn < 3 * MBLOCKS && mbn < 3 && GainsOnly(a, c, {if bn < NDIRECT then bn else NDIRECT, SlotOf(bn + mbn)})
    ensures GainsIn(a, c, bn, bn + 3)
    ensures RowSlots(bn, mbn) == {if bn < NDIRECT then bn else NDIRECT, SlotOf(bn + mbn)}
  {
  }

  /** The first slot of the row that holds offset o, and the slots of n bytes from off. */
  function RowOf(o: nat): nat { 3 * (o / BSIZE) }

  function RowEnd(off: nat, n: nat): nat { 3 * HiBlock(off, n) }

  /** The address of each of the three copies, allocated where missing. */
  method MapRow(fs: FileSystem, ip: nat, o: nat) returns (ok: bool, x1: nat, x2: nat, x3: nat)
    requires fs.Valid() && ip < |fs.inodes| && o < MBYTES
    modifies fs
    ensures fs.Valid() && Grown(old(fs.S()), fs.S(), ip)
    ensures |fs.inodes| == |old(fs.inodes)| && |fs.disk| == |old(fs.disk)|
    ensures ok ==> 0 < x1 < |fs.disk| && 0 < x2 < |fs.disk| && 0 < x3 < |fs.disk|
    ensures ok ==> Addr(fs.S(), ip, SlotOf(RowOf(o))) == x1
    ensures ok ==> Addr(fs.S(), ip, SlotOf(RowOf(o) + 1)) == x2
    ensures ok ==> Addr(fs.S(), ip, SlotOf(RowOf(o) + 2)) == x3
    ensures Settled(old(fs.S()), fs.S(), ip, RowOf(o), RowOf(o) + 3, ok)
  {
    hide Owned, OwnersHold, FreeIsZero, Used, Full, View, Addr, Grown, Extends, MapsAll, GainsIn, Supplies, SlotOf, RowSlots;
    x1, x2, x3 := 0, 0, 0;
    ghost var s0 := fs.S();
    ghost var k := RowOf(o);
    var a := Mbmap(fs, ip, o / BSIZE * 3, 0);
    ghost var s1 := fs.S();
    if a.None? {
      RowSettled(s0, s0, s1, ip, k);
      return false, x1, x2, x3;
    }
    var b := Mbmap(fs, ip, o / BSIZE * 3, 1);
    ghost var s2 := fs.S();
    GrownTrans(s0, s1, s2, ip);
    GrownIsExtends(s0, s1, ip);
    GrownIsExtends(s1, s2, ip);
    GainsJoin(s0, s1, s2, ip, k, k + 3, k, k + 3);
    if b.None? {
      RowSettled(s0, s1, s2, ip, k);
      return false, x1, x2, x3;
    }
    var c := Mbmap(fs, ip, o / BSIZE * 3, 2);
    ghost var s3 := fs.S();
    GrownTrans(s0, s2, s3, ip);
    if c.None? {
      RowSettled(s0, s2, s3, ip, k);
      return false, x1, x2, x3;
    }
    GrownIsExtends(s2, s3, ip);
    GrownIsExtends(s0, s2, ip);
    GainsJoin(s0, s2, s3, ip, k, k + 3, k, k + 3);
    StaysMapped(s1, s2, ip, SlotOf(k));
    StaysMapped(s2, s3, ip, SlotOf(k));
    StaysMapped(s2, s3, ip, SlotOf(k + 1));
    RowComplete(s0, s3, ip, k);
    return true, a.value, b.value, c.value;
  }

  /** A row that cannot be completed starves. */
  lemma RowSettled(a: Store, b: Store, c: Store, j: nat, k: nat)
    requires Wf(a) && Wf(b) && Wf(c) && j < |a.inodes| && |b.inodes| == |a.inodes| && Grown(b, c, j) && GainsIn(b, c, k, k + 3)
    requires b == a || (Grown(a, b, j) && GainsIn(a, b, k, k + 3))
    requires Full(c) && |c.inodes| == |a.inodes| && !MapsAll(c, j, k, k + 3)
    ensures Settled(a, c, j, k, k + 3, false)
  {
    hide Wf, View, MapsAll, GainsIn, Full, Extends;
    if b != a {
      ExtendsTrans(a, b, c, j);
      GainsJoin(a, b, c, j, k, k + 3, k, k + 3);
    }
  }

  lemma RowComplete(a: Store, c: Store, j: nat, k: nat)
    requires Wf(a) && Wf(c) && j < |a.inodes| && j < |c.inodes| && Grown(a, c, j) && GainsIn(a, c, k, k + 3) && k + 3 <= MAXFILE
    requires Addr(c, j, SlotOf(k)) != 0 && Addr(c, j, SlotOf(k + 1)) != 0 && Addr(c, j, SlotOf(k + 2)) != 0
    ensures Settled(a, c, j, k, k + 3, true)
  {
    hide Wf, View, GainsIn, Extends, Addr, SlotOf;
  }

  lemma GrownIsExtends(a: Store, b: Store, j: nat)
    requires Wf(a) && Wf(b) && j < |a.inodes| && Grown(a, b, j)
    ensures Extends(a, b, j)
  {
  }

  // ----- writing -----

  /** data was stored at offset off of all three copies of inode j; nothing else changed. */
  ghost predicate MirrorWrote(a: Store, b: Store, j: nat, off: nat, data: seq<byte>)
    requires Wf(a) && Wf(b) && j < |a.inodes|
  {
    Extends(a, b, j) && Others(a, b, j) && Copies(a, b, j, off, data)
  }

  ghost predicate Copies(a: Store, b: Store, j: nat, off: nat, data: seq<byte>)
    requires Wf(a) && Wf(b) && |a.inodes| == |b.inodes| && j < |a.inodes|
  {
    forall c, p :: 0 <= c < 3 && 0 <= p < MBYTES ==>
      CopyByte(b, j, c, p) == if off <= p < off + |data| then data[p - off] else CopyByte(a, j, c, p)
  }

  /** bread, memmove, bwrite of one copy of a row that is mapped. */
  method PutCopy(fs: FileSystem, ip: nat, o: nat, c: nat, chunk: seq<byte>)
    requires fs.Valid() && ip < |fs.inodes| && c < 3
    requires chunk != [] && o + |chunk| <= MBYTES && o % BSIZE + |chunk| <= BSIZE
    requires MapsAll(fs.S(), ip, RowOf(o), RowOf(o) + 3)
    modifies fs
    ensures fs.Valid() && |fs.inodes| == |old(fs.inodes)| && fs.inodes[ip].size == old(fs.inodes[ip].size)
    ensures fs.owner == old(fs.owner) && MapsAll(fs.S(), ip, RowOf(o), RowOf(o) + 3)
    ensures Wrote(old(fs.S()), fs.S(), ip, Raw(c, o), chunk)
  {
    hide Owned, OwnersHold, FreeIsZero, Used, Full, View, Addr, Bytes, Extends, MapsAll, GainsIn, Supplies, SlotOf, RowSlots;
    ghost var st := fs.S();
    var a := Mbmap(fs, ip, o / BSIZE * 3, c);
    PutBytes(st, ip, Raw(c, o), chunk, a.value);
    fs.disk := fs.disk[a.value := Patch(fs.disk[a.value], o % BSIZE, chunk)];
    WroteExtends(st, fs.S(), ip, Raw(c, o), chunk);
    MapsKept(st, fs.S(), ip, RowOf(o), RowOf(o) + 3, RowOf(o) + 3);
  }

  lemma CopyAfter(a: Store, b: Store, j: nat, c: nat, o: nat, chunk: seq<byte>, c': nat, p: nat)
    requires Wf(a) && Wf(b) && j < |a.inodes| && |b.inodes| == |a.inodes| && c < 3 && c' < 3 && p < MBYTES
    requires chunk != [] && o + |chunk| <= MBYTES && o % BSIZE + |chunk| <= BSIZE
    requires Wrote(a, b, j, Raw(c, o), chunk)
    ensures CopyByte(b, j, c', p) == if c' == c && o <= p < o + |chunk| then chunk[p - o] else CopyByte(a, j, c', p)
  {
    hide Owned, OwnersHold, FreeIsZero, Used, Full, Addr, View, Extends, Bytes, ByteAt;
    WroteByte(a, b, j, Raw(c, o), chunk, j, Raw(c', p));
    RawSpan(c, o, |chunk|, c', p);
  }

  /** A stretch inside one block of copy c meets copy c' only where it should. */
  lemma RawSpan(c: nat, o: nat, n: nat, c': nat, p: nat)
    requires c < 3 && c' < 3 && p < MBYTES && 0 < n && o + n <= MBYTES && o % BSIZE + n <= BSIZE
    ensures Raw(c, o) <= Raw(c', p) < Raw(c, o) + n <==> c' == c && o <= p < o + n
    ensures c' == c && o <= p < o + n ==> Raw(c', p) - Raw(c, o) == p - o
  {
    if Raw(c, o) <= Raw(c', p) < Raw(c, o) + n {
      assert Raw(c', p) / BSIZE == Raw(c, o) / BSIZE;
    }
    if c' == c && o <= p < o + n {
      assert p / BSIZE == o / BSIZE;
    }
  }

  /** Three copies written one after the other make one mirrored write. */
  lemma RowWritten(a: Store, s0: Store, s1: Store, s2: Store, j: nat, o: nat, chunk: seq<byte>)
    requires Wf(a) && Wf(s0) && Wf(s1) && Wf(s2) && j < |a.inodes|
    requires |a.inodes| == |s0.inodes| == |s1.inodes| == |s2.inodes|
    requires chunk != [] && o + |chunk| <= MBYTES && o % BSIZE + |chunk| <= BSIZE
    requires Wrote(a, s0, j, Raw(0, o), chunk) && Wrote(s0, s1, j, Raw(1, o), chunk) && Wrote(s1, s2, j, Raw(2, o), chunk)
    ensures MirrorWrote(a, s2, j, o, chunk)
  {
    hide Owned, OwnersHold, FreeIsZero, Used, Full, Addr, View, Extends, Bytes, ByteAt, CopyByte, Raw;
    ExtendsTrans(a, s0, s1, j);
    ExtendsTrans(a, s1, s2, j);
    forall c, p | 0 <= c < 3 && 0 <= p < MBYTES
      ensures CopyByte(s2, j, c, p) == if o <= p < o + |chunk| then chunk[p - o] else CopyByte(a, j, c, p)
    {
      CopyAfter(a, s0, j, 0, o, chunk, c, p);
      CopyAfter(s0, s1, j, 1, o, chunk, c, p);
      CopyAfter(s1, s2, j, 2, o, chunk, c, p);
    }
    forall k, p | 0 <= k < |a.inodes| && k != j && 0 <= p < MAXBYTES
      ensures ByteAt(s2, k, p) == ByteAt(a, k, p)
    {
      WroteByte(a, s0, j, Raw(0, o), chunk, k, p);
      WroteByte(s0, s1, j, Raw(1, o), chunk, k, p);
      WroteByte(s1, s2, j, Raw(2, o), chunk, k, p);
    }
  }

  lemma MirrorWroteTrans(a: Store, b: Store, c: Store, j: nat, off: nat, first: seq<byte>, second: seq<byte>)
    requires Wf(a) && Wf(b) && Wf(c) && j < |a.inodes| && |a.inodes| == |b.inodes| == |c.inodes|
    requires MirrorWrote(a, b, j, off, first) && MirrorWrote(b, c, j, off + |first|, second)
    ensures MirrorWrote(a, c, j, off, first + second)
  {
    hide Owned, OwnersHold, FreeIsZero, Used, Full, Addr, View, Extends, ByteAt, CopyByte;
    ExtendsTrans(a, b, c, j);
    forall i, p | 0 <= i < 3 && 0 <= p < MBYTES
      ensures CopyByte(c, j, i, p) ==
        if off <= p < off + |first + second| then (first + second)[p - off] else CopyByte(a, j, i, p)
    {
      JoinByte(CopyByte(a, j, i, p), CopyByte(b, j, i, p), CopyByte(c, j, i, p), off, first, second, p);
    }
    forall k, p | 0 <= k < |a.inodes| && k != j && 0 <= p < MAXBYTES
      ensures ByteAt(c, k, p) == ByteAt(a, k, p)
    {
      assert ByteAt(b, k, p) == ByteAt(a, k, p);
    }
  }

  lemma GrownIsMirrorWrote(a: Store, b: Store, j: nat, off: nat)
    requires Wf(a) && Wf(b) && j < |a.inodes| && |a.inodes| == |b.inodes| && Grown(a, b, j)
    ensures MirrorWrote(a, b, j, off, [])
  {
    hide Owned, OwnersHold, FreeIsZero, Used, Full, Addr, View, Extends, ByteAt;
    forall i, p | 0 <= i < 3 && 0 <= p < MBYTES ensures CopyByte(b, j, i, p) == CopyByte(a, j, i, p) {
      GrownBytes(a, b, j, j, Raw(i, p));
    }
    forall k, p | 0 <= k < |a.inodes| && 0 <= p < MAXBYTES ensures ByteAt(b, k, p) == ByteAt(a, k, p) {
      GrownBytes(a, b, j, k, p);
    }
  }

  lemma ExtendsRefl(a: Store, j: nat)
    requires Wf(a) && j < |a.inodes|
    ensures Extends(a, a, j)
  {
    GrownRefl(a, j);
  }

  /** One turn of the write loop: allocate the three copies, then write each. */
  method PutRow(fs: FileSystem, ip: nat, o: nat, chunk: seq<byte>) returns (ok: bool)
    requires fs.Valid() && ip < |fs.inodes|
    requires chunk != [] && o + |chunk| <= MBYTES && o % BSIZE + |chunk| <= BSIZE
    modifies fs
    ensures fs.Valid() && |fs.inodes| == |old(fs.inodes)| && fs.inodes[ip].size == old(fs.inodes[ip].size)
    ensures Settled(old(fs.S()), fs.S(), ip, RowOf(o), RowOf(o) + 3, ok)
    ensures MirrorWrote(old(fs.S()), fs.S(), ip, o, if ok then chunk else [])
  {
    hide Owned, OwnersHold, FreeIsZero, Used, Full, View, Addr, Bytes, Extends, Wrote, MirrorWrote, MapsAll, GainsIn, SlotOf, RowOf;
    ghost var s0 := fs.S();
    var mapped, x1, x2, x3 := MapRow(fs, ip, o);
    ok := mapped;
    ghost var s1 := fs.S();
    GrownIsMirrorWrote(s0, s1, ip, o);
    if !ok {
      return;
    }
    PutCopy(fs, ip, o, 0, chunk);
    ghost var t0 := fs.S();
    PutCopy(fs, ip, o, 1, chunk);
    ghost var t1 := fs.S();
    PutCopy(fs, ip, o, 2, chunk);
    RowWritten(s1, t0, t1, fs.S(), ip, o, chunk);
    MirrorWroteTrans(s0, s1, fs.S(), ip, o, [], chunk);
    assert [] + chunk == chunk;
    MirrorWroteExtends(s0, fs.S(), ip, o, chunk);
    ProgressPut(s0, s1, fs.S(), ip, RowOf(o), RowOf(o) + 3, RowOf(o) + 3);
  }

  lemma MirrorWroteExtends(a: Store, b: Store, j: nat, off: nat, data: seq<byte>)
    requires Wf(a) && Wf(b) && j < |a.inodes| && MirrorWrote(a, b, j, off, data)
    ensures Extends(a, b, j)
  {
  }

  /** writei on a mirrored file. */
  method Writei(fs: FileSystem, ip: nat, off: nat, src: seq<byte>) returns (r: Outcome)
    requires fs.Valid() && ip < |fs.inodes| && fs.inodes[ip].kind.Mirrored?
    requires off < UINT && |src| < UINT
    requires off + |src| <= MBYTES
    modifies fs
    ensures fs.Valid()
    ensures r.Refused? <==> off > old(fs.inodes[ip].size)
    ensures r.Refused? ==> fs.S() == old(fs.S())
    ensures !r.Refused? ==> (r.Done? <==> Affords(old(fs.S()), ip, RowOf(off), RowEnd(off, |src|)))
    ensures r.Done? ==> r.n == |src| && MirrorWrote(old(fs.S()), fs.S(), ip, off, src)
    ensures r.Done? ==> fs.inodes[ip].size == Max(old(fs.inodes[ip].size), off + |src|)
    ensures r.Halted? ==> Full(fs.S()) && exists k :: 0 <= k < |src| && MirrorWrote(old(fs.S()), fs.S(), ip, off, src[..k])
  {
    hide Owned, OwnersHold, FreeIsZero, Used, Full, View, Addr, Extends, MirrorWrote, Progress, Starved, Affords, RowOf, RowEnd;
    if off > fs.inodes[ip].size || (off + |src|) % UINT < off {
      return Refused;
    }
    var n := |src|;
    ghost var st := fs.S();
    GrownRefl(st, ip);
    GrownIsMirrorWrote(st, st, ip, off);
    RowStart(st, ip, off, n);
    var tot := 0;
    while tot < n
      invariant 0 <= tot <= n && |fs.inodes| == |st.inodes| && fs.Valid() && Storing(st, fs.S(), ip, off, src, tot)
    {
      var m := Min(n - tot, BSIZE - (off + tot) % BSIZE);
      ghost var mid := fs.S();
      var ok := PutRow(fs, ip, off + tot, src[tot..tot + m]);
      StoringStep(st, mid, fs.S(), ip, off, src, tot, m, ok);
      if !ok {
        SettledMeans(st, fs.S(), ip, RowOf(off), RowEnd(off, n), false);
        StarvedFull(st, fs.S(), ip, RowOf(off), RowEnd(off, n));
        return Halted;
      }
      tot := tot + m;
    }
    assert src[..n] == src;
    SettledMeans(st, fs.S(), ip, RowOf(off), RowEnd(off, n), true);
    if n > 0 && off + n > fs.inodes[ip].size {
      MirrorResize(st, fs.S(), ip, off, src, off + n);
      fs.inodes := fs.inodes[ip := fs.inodes[ip].(size := off + n)];
    }
    return Done(n);
  }

  /** tot bytes have been written at off. */
  ghost predicate Storing(st: Store, cur: Store, j: nat, off: nat, src: seq<byte>, tot: nat)
    requires Wf(st) && Wf(cur) && j < |st.inodes| && |cur.inodes| == |st.inodes|
  {
    && tot <= |src| && off + |src| <= MBYTES && RowEnd(off, |src|) <= MAXFILE && cur.inodes[j].size == st.inodes[j].size
    && MirrorWrote(st, cur, j, off, src[..tot]) && Progress(st, cur, j, RowOf(off), RowEnd(off, tot), RowEnd(off, |src|))
  }

  lemma RowStart(st: Store, j: nat, off: nat, n: nat)
    requires Wf(st) && j < |st.inodes| && off + n <= MBYTES
    ensures RowEnd(off, 0) == RowOf(off) <= RowEnd(off, n) <= MAXFILE
    ensures Progress(st, st, j, RowOf(off), RowEnd(off, 0), RowEnd(off, n))
  {
    ProgressNone(st, j, RowOf(off), RowEnd(off, n));
  }

  /** The next row of a transfer, mapped or not. */
  lemma RowProgress(st: Store, mid: Store, cur: Store, j: nat, off: nat, tot: nat, m: nat, n: nat, ok: bool)
    requires Wf(st) && Wf(mid) && Wf(cur) && j < |st.inodes| && |st.inodes| == |mid.inodes|
    requires tot < n && m == Min(n - tot, BSIZE - (off + tot) % BSIZE)
    requires Progress(st, mid, j, RowOf(off), RowEnd(off, tot), RowEnd(off, n))
    requires Settled(mid, cur, j, RowOf(off + tot), RowOf(off + tot) + 3, ok)
    ensures if ok then Progress(st, cur, j, RowOf(off), RowEnd(off, tot + m), RowEnd(off, n))
      else Starved(st, cur, j, RowOf(off), RowEnd(off, n))
  {
    hide Wf, Progress, Starved, Settled;
    HiBlockStep(off, tot, m, n);
    ProgressThen(st, mid, cur, j, RowOf(off), RowEnd(off, tot), RowEnd(off, n), RowOf(off + tot), RowOf(off + tot) + 3, ok);
  }

  lemma StoringStep(st: Store, mid: Store, cur: Store, j: nat, off: nat, src: seq<byte>, tot: nat, m: nat, ok: bool)
    requires Wf(st) && Wf(mid) && Wf(cur) && j < |st.inodes| && |st.inodes| == |mid.inodes| == |cur.inodes|
    requires Storing(st, mid, j, off, src, tot) && tot < |src| && m == Min(|src| - tot, BSIZE - (off + tot) % BSIZE)
    requires cur.inodes[j].size == mid.inodes[j].size
    requires Settled(mid, cur, j, RowOf(off + tot), RowOf(off + tot) + 3, ok)
    requires MirrorWrote(mid, cur, j, off + tot, if ok then src[tot..tot + m] else [])
    ensures if ok then Storing(st, cur, j, off, src, tot + m)
      else Starved(st, cur, j, RowOf(off), RowEnd(off, |src|)) && MirrorWrote(st, cur, j, off, src[..tot])
  {
    hide Wf, Progress, Starved, Settled, MirrorWrote, RowOf, RowEnd;
    RowProgress(st, mid, cur, j, off, tot, m, |src|, ok);
    MirrorWroteTrans(st, mid, cur, j, off, src[..tot], if ok then src[tot..tot + m] else []);
    assert src[..tot] + src[tot..tot + m] == src[..tot + m] && src[..tot] + [] == src[..tot];
  }

  lemma MirrorResize(st: Store, cur: Store, j: nat, off: nat, data: seq<byte>, size: nat)
    requires Wf(st) && Wf(cur) && j < |st.inodes| && |cur.inodes| == |st.inodes| && MirrorWrote(st, cur, j, off, data)
    ensures var t := cur.(inodes := cur.inodes[j := cur.inodes[j].(size := size)]);
      Wf(t) && MirrorWrote(st, t, j, off, data)
  {
    hide Owned, OwnersHold, FreeIsZero, Used, Full, Word;
    var t := cur.(inodes := cur.inodes[j := cur.inodes[j].(size := size)]);
    ResizeAddr(cur, t, j, size);
    assert Extends(st, t, j);
    forall k, p | 0 <= k < |cur.inodes| && 0 <= p < MAXBYTES ensures ByteAt(t, k, p) == ByteAt(cur, k, p) {}
    forall c, p | 0 <= c < 3 && 0 <= p < MBYTES ensures CopyByte(t, j, c, p) == CopyByte(cur, j, c, p) {}
    assert Others(st, t, j);
    assert Copies(st, t, j, off, data);
  }

  /** The uncorrupted state has a beginning: a truncated file has identical copies. */
  lemma TruncatedAgrees(a: Store, b: Store, j: nat)
    requires Wf(a) && Wf(b) && j < |a.inodes| && Truncated(a, b, j)
    ensures j < |b.inodes| && Agree(b, j)
  {
    assert j < |b.inodes|;
    hide Wf, Truncated, ByteAt;
    forall p | 0 <= p < MBYTES ensures CopyByte(b, j, 0, p) == CopyByte(b, j, 1, p) == CopyByte(b, j, 2, p) {
      TruncatedIsEmpty(a, b, j, 0, Raw(0, p));
      TruncatedIsEmpty(a, b, j, 0, Raw(1, p));
      TruncatedIsEmpty(a, b, j, 0, Raw(2, p));
    }
  }

  /** A mirrored write leaves the three copies identical if they were. */
  lemma WriteKeepsAgreement(a: Store, b: Store, j: nat, off: nat, data: seq<byte>)
    requires Wf(a) && Wf(b) && j < |a.inodes| && |a.inodes| == |b.inodes|
    requires MirrorWrote(a, b, j, off, data) && Agree(a, j)
    ensures Agree(b, j)
  {
    hide Wf, Extends, Others, CopyByte;
    forall p | 0 <= p < MBYTES
      ensures CopyByte(b, j, 0, p) == CopyByte(b, j, 1, p) == CopyByte(b, j, 2, p)
    {
    }
  }

  // ----- reading -----

  /** The part of a block that a read of m bytes at offset o touches. */
  function Range(block: seq<byte>, o: nat, m: nat): (r: seq<byte>)
    requires |block| == BSIZE && o % BSIZE + m <= BSIZE
    ensures |r| == m
  {
    block[o % BSIZE..o % BSIZE + m]
  }

  /** The diff12, diff13, diff23 flags. */
  datatype Diffs = Diffs(d12: bool, d13: bool, d23: bool)

  /** strncmp over the first n bytes of the three blocks; a flag once set stays set. */
  function Compare(d: Diffs, c1: seq<byte>, c2: seq<byte>, c3: seq<byte>, n: nat): Diffs {
    Diffs(d.d12 || !StrEq(c1, c2, n), d.d13 || !StrEq(c1, c3, n), d.d23 || !StrEq(c2, c3, n))
  }

  /** What the repair branches leave in the three blocks. In the third branch only the buffer
      of copy 3 is changed and not written, so it is seen later only if `kept` in the cache. */
  function Repair(d: Diffs, c1: seq<byte>, c2: seq<byte>, c3: seq<byte>, o: nat, m: nat, kept: bool): (seq<byte>, seq<byte>, seq<byte>)
    requires |c1| == |c2| == |c3| == BSIZE && o % BSIZE + m <= BSIZE
  {
    (if d.d13 && d.d12 && !d.d23 then Patch(c1, o % BSIZE, Range(c3, o, m)) else c1,
     if d.d12 && d.d23 && !d.d13 then Patch(c2, o % BSIZE, Range(c3, o, m)) else c2,
     if d.d23 && d.d13 && !d.d12 && kept then Patch(c3, o % BSIZE, Range(c2, o, m)) else c3)
  }

  /** The logical block of offset o after the call reads as the three given blocks; every
      other block of every inode reads as before. */
  ghost predicate RowIs(a: Store, b: Store, j: nat, o: nat, row: (seq<byte>, seq<byte>, seq<byte>))
    requires Wf(a) && Wf(b) && |a.inodes| == |b.inodes| && j < |a.inodes| && o < MBYTES
  {
    var k := 3 * (o / BSIZE);
    forall i, n :: 0 <= i < |a.inodes| && 0 <= n < MAXFILE ==>
      View(b, i, n) ==
        if i == j && n == k then row.0 else if i == j && n == k + 1 then row.1
        else if i == j && n == k + 2 then row.2 else View(a, i, n)
  }

  ghost function Copy(st: Store, j: nat, o: nat, c: nat): (r: seq<byte>)
    requires Wf(st) && j < |st.inodes| && o < MBYTES && c < 3
    ensures |r| == BSIZE
  {
    View(st, j, 3 * (o / BSIZE) + c)
  }

  /** bwrite of one block of the inode. */
  method PutView(fs: FileSystem, ip: nat, bn: nat, x: nat, data: seq<byte>)
    requires fs.Valid() && ip < |fs.inodes| && bn < MAXFILE && |data| == BSIZE
    requires Addr(fs.S(), ip, SlotOf(bn)) == x && 0 < x < |fs.disk|
    modifies fs`disk
    ensures fs.Valid() && Extends(old(fs.S()), fs.S(), ip) && |fs.disk| == |old(fs.disk)|
    ensures fs.disk == old(fs.disk)[x := data]
    ensures OneView(old(fs.S()), fs.S(), ip, bn, data)
    ensures SameAddrs(old(fs.S()), fs.S(), ip)
  {
    hide Owned, OwnersHold, FreeIsZero, Used, Full, View, Word;
    PutBlockWf(fs.S(), ip, bn, data);
    PutBlockAddrs(fs.S(), ip, bn, data);
    fs.disk := fs.disk[x := data];
  }

  ghost predicate OneView(a: Store, b: Store, j: nat, bn: nat, data: seq<byte>)
    requires Wf(a) && Wf(b) && |a.inodes| == |b.inodes|
  {
    forall k, n :: 0 <= k < |a.inodes| && 0 <= n < MAXFILE ==> View(b, k, n) == if k == j && n == bn then data else View(a, k, n)
  }

  ghost predicate SameAddrs(a: Store, b: Store, j: nat)
    requires Wf(a) && Wf(b) && |a.inodes| == |b.inodes| && j < |a.inodes|
  {
    forall s :: 0 <= s < SLOTS ==> Addr(b, j, s) == Addr(a, j, s)
  }

  lemma PutBlockAddrs(st: Store, j: nat, bn: nat, data: seq<byte>)
    requires Wf(st) && j < |st.inodes| && bn < MAXFILE && |data| == BSIZE && Addr(st, j, SlotOf(bn)) != 0
    ensures var t := PutBlock(st, Addr(st, j, SlotOf(bn)), data);
      Wf(t) && SameAddrs(st, t, j)
  {
    PutBlockWf(st, j, bn, data);
    forall s | 0 <= s < SLOTS
      ensures Addr(PutBlock(st, Addr(st, j, SlotOf(bn)), data), j, s) == Addr(st, j, s)
    {
      AddressesDistinct(st, j, SlotOf(bn), j, NDIRECT);
    }
  }

  datatype Row = RowRead | RowBad | RowHalted

  /** One turn of the read loop, from a to b: halted exactly when the row lacks blocks that cannot
      be had; otherwise the flags come from comparing the three copies, the caller gets the range
      of the third, the repair branches have done their work, and the row is bad exactly when all
      three flags are set. */
  ghost predicate RowFetched(a: Store, b: Store, j: nat, o: nat, m: nat, n: nat, d: Diffs, kept: bool, r: Row, d': Diffs, chunk: seq<byte>)
    requires Wf(a) && Wf(b) && |a.inodes| == |b.inodes| && j < |a.inodes| && o < MBYTES && o % BSIZE + m <= BSIZE
  {
    var c1, c2, c3 := Copy(a, j, o, 0), Copy(a, j, o, 1), Copy(a, j, o, 2);
    && Extends(a, b, j) && b.inodes[j].size == a.inodes[j].size
    && (!r.RowHalted? <==> Affords(a, j, RowOf(o), RowOf(o) + 3)) && Settled(a, b, j, RowOf(o), RowOf(o) + 3, !r.RowHalted?)
    && if r.RowHalted? then Grown(a, b, j) else
         && d' == Compare(d, c1, c2, c3, n) && chunk == Range(c3, o, m)
         && (r.RowBad? <==> d'.d12 && d'.d13 && d'.d23) && RowIs(a, b, j, o, Repair(d', c1, c2, c3, o, m, kept))
  }

  /** One turn of the read loop: fetch the three copies, compare them, repair. */
  method ReadRow(fs: FileSystem, ip: nat, o: nat, m: nat, n: nat, d: Diffs, kept: bool)
    returns (r: Row, d': Diffs, chunk: seq<byte>)
    requires fs.Valid() && ip < |fs.inodes| && o < MBYTES && o % BSIZE + m <= BSIZE && n <= BSIZE
    modifies fs
    ensures fs.Valid() && |fs.inodes| == |old(fs.inodes)|
    ensures RowFetched(old(fs.S()), fs.S(), ip, o, m, n, d, kept, r, d', chunk)
  {
    hide Owned, OwnersHold, FreeIsZero, Used, Full, Addr, View, Extends, OneView, SameAddrs, StrEq, RowIs, Repair, Settled, Affords, RowOf;
    ghost var st := fs.S();
    d', chunk := d, [];
    var ok, x1, x2, x3 := MapRow(fs, ip, o);
    RowFits(o);
    SettledMeans(st, fs.S(), ip, RowOf(o), RowOf(o) + 3, ok);
    if !ok {
      return RowHalted, d', chunk;
    }
    ghost var mid := fs.S();
    FetchCopies(st, mid, ip, o, x1, x2, x3);
    var c1, c2, c3 := fs.disk[x1], fs.disk[x2], fs.disk[x3];
    chunk := c3[o % BSIZE..o % BSIZE + m];
    d' := Compare(d, c1, c2, c3, n);
    RowRefl(st, mid, ip, o);
    RepairRow(fs, ip, o, m, d', (x1, x2, x3), (c1, c2, c3), kept, st);
    ExtendsTrans(st, mid, fs.S(), ip);
    SettledPut(st, mid, fs.S(), ip, RowOf(o), RowOf(o) + 3);
    if d'.d12 && d'.d23 && d'.d13 {
      return RowBad, d', chunk;
    }
    return RowRead, d', chunk;
  }

  lemma RowFits(o: nat)
    requires o < MBYTES
    ensures RowOf(o) == 3 * (o / BSIZE) && RowOf(o) + 3 <= MAXFILE
  {
  }

  /** Repairs leave the block map alone. */
  lemma SettledPut(a: Store, b: Store, c: Store, j: nat, lo: nat, hi: nat)
    requires Wf(a) && Wf(b) && Wf(c) && j < |a.inodes| && Settled(a, b, j, lo, hi, true) && Extends(a, c, j) && c.owner == b.owner
    ensures Settled(a, c, j, lo, hi, true)
  {
    hide Wf, Extends, Progress;
    ProgressPut(a, b, c, j, lo, hi, hi);
  }

  /** The three repair branches; at most one of them applies. */
  method RepairRow(fs: FileSystem, ip: nat, o: nat, m: nat, d: Diffs, x: (nat, nat, nat),
                   c: (seq<byte>, seq<byte>, seq<byte>), kept: bool, ghost st: Store)
    requires fs.Valid() && ip < |fs.inodes| && o < MBYTES && o % BSIZE + m <= BSIZE
    requires Wf(st) && |st.inodes| == |fs.inodes| && |c.0| == |c.1| == |c.2| == BSIZE
    requires 0 < x.0 < |fs.disk| && 0 < x.1 < |fs.disk| && 0 < x.2 < |fs.disk|
    requires Addr(fs.S(), ip, SlotOf(RowOf(o))) == x.0
    requires Addr(fs.S(), ip, SlotOf(RowOf(o) + 1)) == x.1
    requires Addr(fs.S(), ip, SlotOf(RowOf(o) + 2)) == x.2
    requires RowIs(st, fs.S(), ip, o, c)
    modifies fs`disk
    ensures fs.Valid() && Extends(old(fs.S()), fs.S(), ip)
    ensures RowIs(st, fs.S(), ip, o, Repair(d, c.0, c.1, c.2, o, m, kept))
  {
    hide Owned, OwnersHold, FreeIsZero, Used, Full, Addr, View, Extends, OneView, SameAddrs, RowIs;
    ghost var mid := fs.S();
    ExtendsRefl(mid, ip);
    var k := 3 * (o / BSIZE);
    if d.d12 && d.d23 && !d.d13 {
      var fixed := Patch(c.1, o % BSIZE, c.2[o % BSIZE..o % BSIZE + m]);
      PutView(fs, ip, k + 1, x.1, fixed);
      RowPut(st, mid, fs.S(), ip, o, 1, c, fixed);
    }
    if d.d13 && d.d12 && !d.d23 {
      var fixed := Patch(c.0, o % BSIZE, c.2[o % BSIZE..o % BSIZE + m]);
      PutView(fs, ip, k, x.0, fixed);
      RowPut(st, mid, fs.S(), ip, o, 0, c, fixed);
    }
    if d.d23 && d.d13 && !d.d12 && kept {
      var fixed := Patch(c.2, o % BSIZE, c.1[o % BSIZE..o % BSIZE + m]);
      PutView(fs, ip, k + 2, x.2, fixed);
      RowPut(st, mid, fs.S(), ip, o, 2, c, fixed);
    }
  }

  lemma FetchCopies(st: Store, cur: Store, j: nat, o: nat, x1: nat, x2: nat, x3: nat)
    requires Wf(st) && Wf(cur) && j < |st.inodes| && |cur.inodes| == |st.inodes| && Grown(st, cur, j) && o < MBYTES
    requires 0 < x1 < |cur.disk| && 0 < x2 < |cur.disk| && 0 < x3 < |cur.disk|
    requires Addr(cur, j, SlotOf(RowOf(o))) == x1
    requires Addr(cur, j, SlotOf(RowOf(o) + 1)) == x2
    requires Addr(cur, j, SlotOf(RowOf(o) + 2)) == x3
    ensures cur.disk[x1] == Copy(st, j, o, 0) && cur.disk[x2] == Copy(st, j, o, 1) && cur.disk[x3] == Copy(st, j, o, 2)
  {
    hide Owned, OwnersHold, FreeIsZero, Used, Full, Word, Extends;
    var k := 3 * (o / BSIZE);
    assert View(cur, j, k) == View(st, j, k) && View(cur, j, k + 1) == View(st, j, k + 1) && View(cur, j, k + 2) == View(st, j, k + 2);
  }

  lemma RowRefl(st: Store, cur: Store, j: nat, o: nat)
    requires Wf(st) && Wf(cur) && j < |st.inodes| && |cur.inodes| == |st.inodes| && Grown(st, cur, j) && o < MBYTES
    ensures RowIs(st, cur, j, o, (Copy(st, j, o, 0), Copy(st, j, o, 1), Copy(st, j, o, 2)))
  {
    hide Owned, OwnersHold, FreeIsZero, Used, Full, Addr, Word, Extends;
  }

  lemma RowPut(st: Store, mid: Store, cur: Store, j: nat, o: nat, c: nat, row: (seq<byte>, seq<byte>, seq<byte>), data: seq<byte>)
    requires Wf(st) && Wf(mid) && Wf(cur) && j < |st.inodes| && |st.inodes| == |mid.inodes| == |cur.inodes|
    requires o < MBYTES && c < 3 && RowIs(st, mid, j, o, row) && OneView(mid, cur, j, 3 * (o / BSIZE) + c, data)
    ensures RowIs(st, cur, j, o, if c == 0 then (data, row.1, row.2) else if c == 1 then (row.0, data, row.2) else (row.0, row.1, data))
  {
    hide Wf, View;
  }

  const NO_DIFFS := Diffs(false, false, false)

  /** What one read of n bytes at off inside a single block leaves of the three copies. */
  ghost function RowAfter(st: Store, j: nat, off: nat, n: nat, kept: bool): (seq<byte>, seq<byte>, seq<byte>)
    requires Wf(st) && j < |st.inodes| && off < MBYTES && off % BSIZE + n <= BSIZE
  {
    var c1, c2, c3 := Copy(st, j, off, 0), Copy(st, j, off, 1), Copy(st, j, off, 2);
    Repair(Compare(NO_DIFFS, c1, c2, c3, n), c1, c2, c3, off, n, kept)
  }

  ghost predicate AllDiffer(st: Store, j: nat, off: nat, n: nat)
    requires Wf(st) && j < |st.inodes| && off < MBYTES
  {
    var c1, c2, c3 := Copy(st, j, off, 0), Copy(st, j, off, 1), Copy(st, j, off, 2);
    !StrEq(c1, c2, n) && !StrEq(c1, c3, n) && !StrEq(c2, c3, n)
  }

  /** A non-empty read inside one block is refused exactly when all three copies are seen to
      differ, and leaves the copies as RowAfter says. */
  ghost predicate OneBlockRead(a: Store, b: Store, j: nat, off: nat, n: nat, kept: bool, refused: bool)
    requires Wf(a) && Wf(b) && |a.inodes| == |b.inodes| && j < |a.inodes| && off + n <= MBYTES
  {
    0 < n && off % BSIZE + n <= BSIZE ==>
      (refused <==> AllDiffer(a, j, off, n)) && RowIs(a, b, j, off, RowAfter(a, j, off, n, kept))
  }

  /** The flags after comparing the copies of the block at o. */
  ghost function Seen(d: Diffs, st: Store, j: nat, o: nat, n: nat): Diffs
    requires Wf(st) && j < |st.inodes| && o < MBYTES
  {
    Compare(d, Copy(st, j, o, 0), Copy(st, j, o, 1), Copy(st, j, o, 2), n)
  }

  predicate AllSet(d: Diffs) { d.d12 && d.d13 && d.d23 }

  ghost function Repaired(d: Diffs, st: Store, j: nat, o: nat, m: nat, kept: bool): (seq<byte>, seq<byte>, seq<byte>)
    requires Wf(st) && j < |st.inodes| && o < MBYTES && o % BSIZE + m <= BSIZE
  {
    Repair(d, Copy(st, j, o, 0), Copy(st, j, o, 1), Copy(st, j, o, 2), o, m, kept)
  }

  /** Two neighbouring logical blocks, the first at o, read as given; all else reads as before. */
  ghost predicate RowsAre(a: Store, b: Store, j: nat, o: nat, row: (seq<byte>, seq<byte>, seq<byte>), next: (seq<byte>, seq<byte>, seq<byte>))
    requires Wf(a) && Wf(b) && |a.inodes| == |b.inodes| && j < |a.inodes| && o < MBYTES
  {
    var k := 3 * (o / BSIZE);
    forall i, n :: 0 <= i < |a.inodes| && 0 <= n < MAXFILE ==>
      View(b, i, n) ==
        if i == j && n == k then row.0 else if i == j && n == k + 1 then row.1 else if i == j && n == k + 2 then row.2
        else if i == j && n == k + 3 then next.0 else if i == j && n == k + 4 then next.1 else if i == j && n == k + 5 then next.2
        else View(a, i, n)
  }

  function NextBlock(off: nat): (o: nat)
    ensures off < o && o % BSIZE == 0 && off % BSIZE + (o - off) == BSIZE
  {
    (off / BSIZE + 1) * BSIZE
  }

  /** A read lacks blocks that cannot be had, and no earlier block makes it fail. */
  ghost predicate Stops(st: Store, j: nat, off: nat, n: nat)
    requires Wf(st) && j < |st.inodes| && off + n <= MBYTES
  {
    && !Affords(st, j, RowOf(off), RowEnd(off, n))
    && !(off < MBYTES && Affords(st, j, RowOf(off), RowOf(off) + 3) && AllDiffer(st, j, off, n))
  }

  /** The first of two blocks is done: its flags, which are not all set, are carried on. */
  ghost predicate FirstTurn(a: Store, b: Store, j: nat, off: nat, n: nat, kept: bool, d: Diffs)
    requires Wf(a) && Wf(b) && |a.inodes| == |b.inodes| && j < |a.inodes| && off < MBYTES
  {
    d == Seen(NO_DIFFS, a, j, off, n) && !AllSet(d) && RowIs(a, b, j, off, Repaired(d, a, j, off, NextBlock(off) - off, kept))
  }

  /** A read across a block boundary is refused exactly when the flags of the two blocks taken
      together are all set; the second block is repaired by those flags too. */
  ghost predicate TwoBlockRead(a: Store, b: Store, j: nat, off: nat, n: nat, kept: bool, refused: bool)
    requires Wf(a) && Wf(b) && |a.inodes| == |b.inodes| && j < |a.inodes| && off + n <= MBYTES && n <= BSIZE
  {
    off % BSIZE + n > BSIZE ==> BothBlocks(a, b, j, off, NextBlock(off), n, kept, refused)
  }

  ghost predicate BothBlocks(a: Store, b: Store, j: nat, off: nat, o: nat, n: nat, kept: bool, refused: bool)
    requires Wf(a) && Wf(b) && |a.inodes| == |b.inodes| && j < |a.inodes| && off < o < off + n <= MBYTES && n <= BSIZE
    requires o % BSIZE == 0 && off % BSIZE + (o - off) == BSIZE
  {
    var d := Seen(NO_DIFFS, a, j, off, n);
    var e := Seen(d, a, j, o, n);
    && (refused <==> AllSet(e))
    && RowsAre(a, b, j, off, Repaired(d, a, j, off, o - off, kept), Repaired(e, a, j, o, off + n - o, kept))
  }

  /** n bytes of the third copy. */
  ghost function Third(st: Store, j: nat, off: nat, n: nat): (r: seq<byte>)
    requires Wf(st) && j < |st.inodes| && off + n <= MBYTES
    ensures |r| == n
  {
    seq(n, i requires 0 <= i < n => CopyByte(st, j, 2, off + i))
  }

  /** Block views from bn on, and those of other inodes, are as in a. */
  ghost predicate SameFrom(a: Store, b: Store, j: nat, bn: nat)
    requires Wf(a) && Wf(b) && |a.inodes| == |b.inodes|
  {
    forall k, n :: 0 <= k < |a.inodes| && 0 <= n < MAXFILE && (k != j || bn <= n) ==> View(b, k, n) == View(a, k, n)
  }

  /** readi on a mirrored file, for a clipped count of at most one block. Whatever state the
      copies are in, a read that succeeds returns the bytes of the third copy. */
  method Readi(fs: FileSystem, ip: nat, off: nat, count: nat, kept: bool) returns (r: Outcome, dst: seq<byte>)
    requires fs.Valid() && ip < |fs.inodes| && fs.inodes[ip].kind.Mirrored? && fs.inodes[ip].size <= MBYTES
    requires off < UINT && count < UINT
    requires off <= fs.inodes[ip].size ==> Min(count, fs.inodes[ip].size - off) <= BSIZE
    modifies fs
    ensures fs.Valid() && |fs.inodes| == |old(fs.inodes)| && Extends(old(fs.S()), fs.S(), ip)
    ensures off > old(fs.inodes[ip].size) || off + count >= UINT ==> r.Refused?
    ensures r.Done? ==> r.n == Min(count, old(fs.inodes[ip].size) - off) && dst == Third(old(fs.S()), ip, off, r.n)
    ensures off <= old(fs.inodes[ip].size) && off + count < UINT && !r.Refused? ==>
      (r.Done? <==> Affords(old(fs.S()), ip, RowOf(off), RowEnd(off, Min(count, old(fs.inodes[ip].size) - off))))
    ensures Agree(old(fs.S()), ip) && off <= old(fs.inodes[ip].size) && off + count < UINT ==> !r.Refused? && Grown(old(fs.S()), fs.S(), ip)
    ensures off <= old(fs.inodes[ip].size) && off + count < UINT && !r.Halted? ==>
      OneBlockRead(old(fs.S()), fs.S(), ip, off, Min(count, old(fs.inodes[ip].size) - off), kept, r.Refused?)
    ensures off <= old(fs.inodes[ip].size) && off + count < UINT && !r.Halted? ==>
      TwoBlockRead(old(fs.S()), fs.S(), ip, off, Min(count, old(fs.inodes[ip].size) - off), kept, r.Refused?)
    ensures off <= old(fs.inodes[ip].size) && off + count < UINT ==>
      (r.Halted? <==> Stops(old(fs.S()), ip, off, Min(count, old(fs.inodes[ip].size) - off)))
  {
    hide Owned, OwnersHold, FreeIsZero, Used, Full, Addr, View, Extends, Grown, StrEq, RowIs, Agree, SameFrom, Repair, Third, Copy, Range, OneBlockRead, TwoBlockRead, Stops, Compare, Progress, Starved, Settled, Affords, RowOf, RowEnd;
    ghost var st := fs.S();
    GrownRefl(st, ip);
    ExtendsRefl(st, ip);
    dst := [];
    if off > fs.inodes[ip].size || (off + count) % UINT < off {
      return Refused, dst;
    }
    var n := if off + count > fs.inodes[ip].size then fs.inodes[ip].size - off else count;
    var tot, d := 0, NO_DIFFS;
    FetchStart(st, ip, off, n, kept);
    while tot < n
      invariant 0 <= tot <= n && |fs.inodes| == |st.inodes| && fs.Valid()
      invariant Fetching(st, fs.S(), ip, off, tot, n, kept, d, dst)
    {
      ghost var mid := fs.S();
      var m := Min(n - tot, BSIZE - (off + tot) % BSIZE);
      var row, d', chunk := ReadRow(fs, ip, off + tot, m, n, d, kept);
      TurnFits(off, tot, m, n);
      FetchStep(st, mid, fs.S(), ip, off, tot, m, n, kept, d, dst, row, d', chunk);
      if row.RowHalted? {
        return Halted, dst;
      }
      if row.RowBad? {
        return Refused, dst;
      }
      dst := dst + chunk;
      d := d';
      tot := tot + m;
    }
    return Done(n), dst;
  }

  /** tot of n bytes have been fetched. */
  ghost predicate Fetching(st: Store, cur: Store, j: nat, off: nat, tot: nat, n: nat, kept: bool, d: Diffs, dst: seq<byte>)
    requires Wf(st) && Wf(cur) && j < |st.inodes| && |cur.inodes| == |st.inodes|
  {
    && tot <= n <= BSIZE && off + n <= MBYTES && Extends(st, cur, j) && dst == Third(st, j, off, tot)
    && (Agree(st, j) ==> d == NO_DIFFS && Grown(st, cur, j))
    && (tot == 0 ==> cur == st && d == NO_DIFFS)
    && (tot == n ==> OneBlockRead(st, cur, j, off, n, kept, false) && Affords(st, j, RowOf(off), RowEnd(off, n)))
    && (tot == n ==> TwoBlockRead(st, cur, j, off, n, kept, false) && !Stops(st, j, off, n))
    && (0 < tot < n ==> tot == NextBlock(off) - off && FirstTurn(st, cur, j, off, n, kept, d))
    && (tot < n ==> SameFrom(st, cur, j, RowOf(off + tot)) && (tot == 0 || (off + tot) % BSIZE == 0))
    && (tot < n ==> Progress(st, cur, j, RowOf(off), RowEnd(off, tot), RowEnd(off, n)))
  }

  lemma FetchStart(st: Store, j: nat, off: nat, n: nat, kept: bool)
    requires Wf(st) && j < |st.inodes| && n <= BSIZE && off + n <= MBYTES
    ensures Fetching(st, st, j, off, 0, n, kept, NO_DIFFS, [])
  {
    hide Wf, Extends, View, Agree, Affords, Progress, RowOf, RowEnd;
    GrownRefl(st, j);
    ExtendsRefl(st, j);
    SameFromRefl(st, j, RowOf(off));
    RowStart(st, j, off, n);
    if n == 0 {
      NothingRead(st, j, off, kept);
      NothingNeeded(st, j, off);
    }
  }

  lemma FetchStep(st: Store, mid: Store, cur: Store, j: nat, off: nat, tot: nat, m: nat, n: nat, kept: bool, d: Diffs, dst: seq<byte>,
                  row: Row, d': Diffs, chunk: seq<byte>)
    requires Wf(st) && Wf(mid) && Wf(cur) && j < |st.inodes| && |st.inodes| == |mid.inodes| == |cur.inodes|
    requires off + n <= MBYTES && off + tot < MBYTES && (off + tot) % BSIZE + m <= BSIZE
    requires RowFetched(mid, cur, j, off + tot, m, n, d, kept, row, d', chunk)
    requires tot < n && m == Min(n - tot, BSIZE - (off + tot) % BSIZE) && Fetching(st, mid, j, off, tot, n, kept, d, dst)
    ensures Extends(st, cur, j) && (Agree(st, j) ==> !row.RowBad? && Grown(st, cur, j))
    ensures row.RowHalted? ==> !Affords(st, j, RowOf(off), RowEnd(off, n)) && Stops(st, j, off, n)
    ensures row.RowBad? ==> OneBlockRead(st, cur, j, off, n, kept, true) && TwoBlockRead(st, cur, j, off, n, kept, true) && !Stops(st, j, off, n)
    ensures row.RowRead? ==> Fetching(st, cur, j, off, tot + m, n, kept, d', dst + chunk)
  {
    hide Wf, Extends, Grown, View, Agree, Affords, Progress, Starved, Settled, RowIs, Repair, Compare, SameFrom, OneBlockRead, Copy, Third, Range, StrEq, RowEnd, RowOf, TwoBlockRead, FirstTurn, Stops;
    TurnFits(off, tot, m, n);
    ExtendsTrans(st, mid, cur, j);
    ReadProgress(st, mid, cur, j, off, tot, m, n, !row.RowHalted?);
    if Agree(st, j) {
      AgreeRow(st, mid, cur, j, off + tot, m, n, row, d', kept);
    }
    WhenItStops(st, mid, cur, j, off, tot, m, n, kept, d, row, d', chunk);
    if !row.RowHalted? {
      OneBlockDone(st, mid, cur, j, off, tot, off + tot, m, n, d, d', kept, row);
      TwoBlocksDone(st, mid, cur, j, off, tot, off + tot, m, n, d, d', kept, row);
      FetchBytes(st, mid, cur, j, off, tot, m, n, kept, d, row, d', chunk);
    }
  }

  /** The bytes a turn delivers are the file's, and later rows are still as they were. */
  lemma FetchBytes(st: Store, mid: Store, cur: Store, j: nat, off: nat, tot: nat, m: nat, n: nat, kept: bool, d: Diffs,
                   row: Row, d': Diffs, chunk: seq<byte>)
    requires Wf(st) && Wf(mid) && Wf(cur) && j < |st.inodes| && |st.inodes| == |mid.inodes| == |cur.inodes|
    requires tot < n && off + n <= MBYTES && m == Min(n - tot, BSIZE - (off + tot) % BSIZE) && SameFrom(st, mid, j, RowOf(off + tot))
    requires off + tot < MBYTES && (off + tot) % BSIZE + m <= BSIZE
    requires RowFetched(mid, cur, j, off + tot, m, n, d, kept, row, d', chunk) && !row.RowHalted?
    ensures Third(st, j, off, tot) + chunk == Third(st, j, off, tot + m)
    ensures tot + m < n ==> SameFrom(st, cur, j, RowOf(off + tot + m))
  {
    hide Wf, Extends, Grown, View, Affords, Settled, RowIs, Repair, Compare, SameFrom, Copy, Third, Range, StrEq, RowOf;
    TurnFits(off, tot, m, n);
    CopiesFrom(st, mid, j, off + tot);
    ThirdStep(st, j, off, tot, off + tot, m);
    if tot + m < n {
      SameFromNext(st, mid, cur, j, off + tot, off + tot + m,
        Repair(d', Copy(mid, j, off + tot, 0), Copy(mid, j, off + tot, 1), Copy(mid, j, off + tot, 2), off + tot, m, kept));
    }
  }

  lemma TurnFits(off: nat, tot: nat, m: nat, n: nat)
    requires tot < n && off + n <= MBYTES && m == Min(n - tot, BSIZE - (off + tot) % BSIZE)
    ensures 0 < m && tot + m <= n && off + tot < MBYTES && (off + tot) % BSIZE + m <= BSIZE && off + tot + m <= MBYTES
    ensures tot + m < n ==> (off + tot + m) % BSIZE == 0 && (off + tot) / BSIZE < (off + tot + m) / BSIZE
  {
  }

  lemma NothingNeeded(st: Store, j: nat, off: nat)
    requires Wf(st) && j < |st.inodes| && off <= MBYTES
    ensures Affords(st, j, RowOf(off), RowEnd(off, 0))
  {
    ProgressNone(st, j, RowOf(off), RowOf(off));
    hide Wf, Progress, Affords;
    ProgressDone(st, st, j, RowOf(off), RowOf(off));
  }

  /** After a row of the read: how far it got, and what that says about the start. */
  lemma ReadProgress(st: Store, mid: Store, cur: Store, j: nat, off: nat, tot: nat, m: nat, n: nat, ok: bool)
    requires Wf(st) && Wf(mid) && Wf(cur) && j < |st.inodes| && |st.inodes| == |mid.inodes|
    requires tot < n && m == Min(n - tot, BSIZE - (off + tot) % BSIZE) && off + n <= MBYTES
    requires Progress(st, mid, j, RowOf(off), RowEnd(off, tot), RowEnd(off, n))
    requires Settled(mid, cur, j, RowOf(off + tot), RowOf(off + tot) + 3, ok)
    ensures ok ==> Progress(st, cur, j, RowOf(off), RowEnd(off, tot + m), RowEnd(off, n))
    ensures ok && tot + m == n ==> Affords(st, j, RowOf(off), RowEnd(off, n))
    ensures !ok ==> !Affords(st, j, RowOf(off), RowEnd(off, n))
  {
    RowStart(st, j, off, n);
    hide Wf, Progress, Starved, RowOf, RowEnd, Affords;
    RowProgress(st, mid, cur, j, off, tot, m, n, ok);
    if !ok {
      ProgressStuck(st, cur, j, RowOf(off), RowEnd(off, n));
    } else if tot + m == n {
      ProgressDone(st, cur, j, RowOf(off), RowEnd(off, n));
    }
  }

  lemma SameFromRefl(a: Store, j: nat, bn: nat)
    requires Wf(a)
    ensures SameFrom(a, a, j, bn)
  {
  }

  lemma CopiesFrom(a: Store, b: Store, j: nat, o: nat)
    requires Wf(a) && Wf(b) && j < |a.inodes| && |a.inodes| == |b.inodes| && o < MBYTES && SameFrom(a, b, j, RowOf(o))
    ensures forall c :: 0 <= c < 3 ==> Copy(b, j, o, c) == Copy(a, j, o, c)
  {
    hide Wf, View;
  }

  lemma SameFromNext(a: Store, mid: Store, b: Store, j: nat, o: nat, o': nat, row: (seq<byte>, seq<byte>, seq<byte>))
    requires Wf(a) && Wf(mid) && Wf(b) && j < |a.inodes| && |a.inodes| == |b.inodes| == |mid.inodes|
    requires o < MBYTES && o / BSIZE < o' / BSIZE
    requires SameFrom(a, mid, j, RowOf(o)) && RowIs(mid, b, j, o, row)
    ensures SameFrom(a, b, j, RowOf(o'))
  {
    hide Wf, View;
  }

  lemma ThirdStep(st: Store, j: nat, off: nat, tot: nat, o: nat, m: nat)
    requires Wf(st) && j < |st.inodes| && o == off + tot && o + m <= MBYTES && o % BSIZE + m <= BSIZE && o < MBYTES
    ensures Third(st, j, off, tot) + Range(Copy(st, j, o, 2), o, m) == Third(st, j, off, tot + m)
  {
    hide Wf, View;
    var l, r := Third(st, j, off, tot) + Range(Copy(st, j, o, 2), o, m), Third(st, j, off, tot + m);
    forall i | 0 <= i < tot + m ensures l[i] == r[i] {
      if i >= tot {
        var p := off + i;
        assert p / BSIZE == o / BSIZE && p % BSIZE == o % BSIZE + (i - tot);
        assert CopyByte(st, j, 2, p) == Copy(st, j, o, 2)[p % BSIZE];
      }
    }
  }

  lemma NothingRead(st: Store, j: nat, off: nat, kept: bool)
    requires Wf(st) && j < |st.inodes| && off <= MBYTES
    ensures OneBlockRead(st, st, j, off, 0, kept, false)
  {
  }

  /** The turn that ends the loop, or refuses, settles what a one-block read did. */
  lemma OneBlockDone(st: Store, mid: Store, cur: Store, j: nat, off: nat, tot: nat, o: nat, m: nat, n: nat, d: Diffs, d': Diffs, kept: bool, row: Row)
    requires Wf(st) && Wf(mid) && Wf(cur) && j < |st.inodes| && |st.inodes| == |mid.inodes| == |cur.inodes|
    requires off + n <= MBYTES && o == off + tot && tot < n && m == Min(n - tot, BSIZE - o % BSIZE)
    requires tot == 0 ==> mid == st && d == NO_DIFFS
    requires tot == 0 || o % BSIZE == 0
    requires d' == Compare(d, Copy(mid, j, o, 0), Copy(mid, j, o, 1), Copy(mid, j, o, 2), n)
    requires RowIs(mid, cur, j, o, Repair(d', Copy(mid, j, o, 0), Copy(mid, j, o, 1), Copy(mid, j, o, 2), o, m, kept))
    requires row.RowBad? <==> d'.d12 && d'.d13 && d'.d23
    ensures row.RowBad? || tot + m == n ==> OneBlockRead(st, cur, j, off, n, kept, row.RowBad?)
  {
    hide Wf, RowIs, Copy, StrEq, Repair;
    if off % BSIZE + n <= BSIZE {
      assert tot == 0;
    }
  }

  /** The turns of a read that crosses a block boundary. */
  lemma TwoBlocksDone(st: Store, mid: Store, cur: Store, j: nat, off: nat, tot: nat, o: nat, m: nat, n: nat, d: Diffs, d': Diffs, kept: bool, row: Row)
    requires Wf(st) && Wf(mid) && Wf(cur) && j < |st.inodes| && |st.inodes| == |mid.inodes| == |cur.inodes|
    requires off + n <= MBYTES && n <= BSIZE && o == off + tot && tot < n && m == Min(n - tot, BSIZE - o % BSIZE)
    requires tot == 0 ==> mid == st && d == NO_DIFFS
    requires 0 < tot ==> o == NextBlock(off) && FirstTurn(st, mid, j, off, n, kept, d) && SameFrom(st, mid, j, RowOf(o))
    requires d' == Seen(d, mid, j, o, n) && RowIs(mid, cur, j, o, Repaired(d', mid, j, o, m, kept)) && (row.RowBad? <==> AllSet(d'))
    ensures row.RowBad? || tot + m == n ==> TwoBlockRead(st, cur, j, off, n, kept, row.RowBad?)
    ensures !row.RowBad? && tot + m < n ==> tot + m == NextBlock(off) - off && FirstTurn(st, cur, j, off, n, kept, d')
  {
    hide Wf, RowIs, RowsAre, Copy, StrEq, Repair, Compare, SameFrom, RowOf;
    if tot > 0 {
      CopiesFrom(st, mid, j, o);
      SecondRow(st, mid, cur, j, off, Repaired(d, st, j, off, o - off, kept), Repaired(d', st, j, o, m, kept));
    } else if off % BSIZE + n > BSIZE && row.RowBad? {
      FlagsStay(st, j, NextBlock(off), d', n);
      NothingRepaired(st, j, NextBlock(off), off + n - NextBlock(off), d', kept);
      SecondRowKept(st, cur, j, off, Repaired(d', st, j, off, m, kept));
    }
  }

  lemma FlagsStay(st: Store, j: nat, o: nat, d: Diffs, n: nat)
    requires Wf(st) && j < |st.inodes| && o < MBYTES && AllSet(d)
    ensures Seen(d, st, j, o, n) == d
  {
    hide Wf, Copy, StrEq;
  }

  lemma NothingRepaired(st: Store, j: nat, o: nat, m: nat, d: Diffs, kept: bool)
    requires Wf(st) && j < |st.inodes| && o < MBYTES && o % BSIZE + m <= BSIZE && AllSet(d)
    ensures Repaired(d, st, j, o, m, kept) == (Copy(st, j, o, 0), Copy(st, j, o, 1), Copy(st, j, o, 2))
  {
    hide Wf, Copy;
  }

  lemma SecondRow(st: Store, mid: Store, cur: Store, j: nat, off: nat, row: (seq<byte>, seq<byte>, seq<byte>), next: (seq<byte>, seq<byte>, seq<byte>))
    requires Wf(st) && Wf(mid) && Wf(cur) && j < |st.inodes| && |st.inodes| == |mid.inodes| == |cur.inodes| && NextBlock(off) < MBYTES
    requires RowIs(st, mid, j, off, row) && RowIs(mid, cur, j, NextBlock(off), next)
    ensures RowsAre(st, cur, j, off, row, next)
  {
    hide Wf, View;
    assert 3 * (NextBlock(off) / BSIZE) == 3 * (off / BSIZE) + 3;
  }

  lemma SecondRowKept(st: Store, cur: Store, j: nat, off: nat, row: (seq<byte>, seq<byte>, seq<byte>))
    requires Wf(st) && Wf(cur) && j < |st.inodes| && |st.inodes| == |cur.inodes| && NextBlock(off) < MBYTES && RowIs(st, cur, j, off, row)
    ensures var o := NextBlock(off); RowsAre(st, cur, j, off, row, (Copy(st, j, o, 0), Copy(st, j, o, 1), Copy(st, j, o, 2)))
  {
    hide Wf, View;
    assert 3 * (NextBlock(off) / BSIZE) == 3 * (off / BSIZE) + 3;
  }

  /** Whether the missing blocks or the flags end the read. */
  lemma WhenItStops(st: Store, mid: Store, cur: Store, j: nat, off: nat, tot: nat, m: nat, n: nat, kept: bool, d: Diffs, row: Row, d': Diffs, chunk: seq<byte>)
    requires Wf(st) && Wf(mid) && Wf(cur) && j < |st.inodes| && |st.inodes| == |mid.inodes| == |cur.inodes|
    requires off + n <= MBYTES && off + tot < MBYTES && (off + tot) % BSIZE + m <= BSIZE
    requires tot < n <= BSIZE && m == Min(n - tot, BSIZE - (off + tot) % BSIZE)
    requires RowFetched(mid, cur, j, off + tot, m, n, d, kept, row, d', chunk)
    requires tot == 0 ==> mid == st && d == NO_DIFFS
    requires 0 < tot ==> tot == NextBlock(off) - off && FirstTurn(st, mid, j, off, n, kept, d)
    requires row.RowHalted? ==> !Affords(st, j, RowOf(off), RowEnd(off, n))
    requires !row.RowHalted? && tot + m == n ==> Affords(st, j, RowOf(off), RowEnd(off, n))
    ensures row.RowHalted? ==> Stops(st, j, off, n)
    ensures row.RowBad? || (row.RowRead? && tot + m == n) ==> !Stops(st, j, off, n)
  {
    hide Wf, Extends, Grown, Affords, Settled, RowIs, Repair, Copy, StrEq, Range, RowOf, RowEnd;
  }

  /** Damage to one copy of each of two blocks, each of which the comparison sees: where it is the
      same copy the read succeeds, where it is not it is refused, although each block has two good
      copies. */
  lemma CarriedFlags(a: Store, b: Store, j: nat, off: nat, n: nat, kept: bool, refused: bool, c: nat, c': nat)
    requires Wf(a) && Wf(b) && |a.inodes| == |b.inodes| && j < |a.inodes| && off + n <= MBYTES && n <= BSIZE < off % BSIZE + n
    requires TwoBlockRead(a, b, j, off, n, kept, refused) && c < 3 && c' < 3
    requires OnlyDamaged(a, j, off, n, c) && OnlyDamaged(a, j, NextBlock(off), n, c')
    ensures refused <==> c != c'
  {
    hide Wf, Copy, StrEq, RowsAre, Repair;
    forall o, k, l | (o == off || o == NextBlock(off)) && 0 <= k < 3 && 0 <= l < 3
      ensures StrEq(Copy(a, j, o, k), Copy(a, j, o, l), n) <==> StrEq(Copy(a, j, o, l), Copy(a, j, o, k), n)
    {
      StrEqSym(Copy(a, j, o, k), Copy(a, j, o, l), n);
    }
  }

  /** Copy c is seen to differ from the other two, which are seen to be equal. */
  ghost predicate OnlyDamaged(st: Store, j: nat, o: nat, n: nat, c: nat)
    requires Wf(st) && j < |st.inodes| && o < MBYTES && c < 3
  {
    forall k, l :: 0 <= k < 3 && 0 <= l < 3 && k != l ==> (StrEq(Copy(st, j, o, k), Copy(st, j, o, l), n) <==> k != c && l != c)
  }

  lemma AgreeCopies(st: Store, mid: Store, j: nat, o: nat)
    requires Wf(st) && Wf(mid) && j < |st.inodes| && |st.inodes| == |mid.inodes|
    requires Agree(st, j) && Grown(st, mid, j) && o < MBYTES
    ensures Copy(mid, j, o, 0) == Copy(mid, j, o, 1) == Copy(mid, j, o, 2)
  {
    hide Wf, Extends, View;
    var k := 3 * (o / BSIZE);
    assert View(mid, j, k) == View(st, j, k) && View(mid, j, k + 1) == View(st, j, k + 1) && View(mid, j, k + 2) == View(st, j, k + 2);
    forall i | 0 <= i < BSIZE ensures Copy(st, j, o, 0)[i] == Copy(st, j, o, 1)[i] == Copy(st, j, o, 2)[i] {
      var p := o / BSIZE * BSIZE + i;
      assert p / BSIZE == o / BSIZE && p % BSIZE == i;
      assert CopyByte(st, j, 0, p) == CopyByte(st, j, 1, p) == CopyByte(st, j, 2, p);
    }
    assert Copy(st, j, o, 0) == Copy(st, j, o, 1) && Copy(st, j, o, 1) == Copy(st, j, o, 2);
  }

  lemma RowSame(st: Store, mid: Store, cur: Store, j: nat, o: nat)
    requires Wf(st) && Wf(mid) && Wf(cur) && j < |st.inodes| && |st.inodes| == |mid.inodes| == |cur.inodes| && o < MBYTES
    requires Grown(st, mid, j) && Extends(st, cur, j) && cur.inodes[j].size == mid.inodes[j].size
    requires RowIs(mid, cur, j, o, (Copy(mid, j, o, 0), Copy(mid, j, o, 1), Copy(mid, j, o, 2)))
    ensures Grown(st, cur, j)
  {
    hide Wf, Extends, View;
  }

  /** Identical copies compare equal, so nothing is flagged and nothing is repaired. */
  lemma AgreeRow(st: Store, mid: Store, cur: Store, j: nat, o: nat, m: nat, n: nat, row: Row, d: Diffs, kept: bool)
    requires Wf(st) && Wf(mid) && Wf(cur) && j < |st.inodes| && |st.inodes| == |mid.inodes| == |cur.inodes|
    requires Agree(st, j) && Grown(st, mid, j) && Extends(st, cur, j) && o < MBYTES && o % BSIZE + m <= BSIZE
    requires cur.inodes[j].size == mid.inodes[j].size
    requires row.RowHalted? ==> Grown(mid, cur, j)
    requires !row.RowHalted? ==>
      && d == Compare(NO_DIFFS, Copy(mid, j, o, 0), Copy(mid, j, o, 1), Copy(mid, j, o, 2), n)
      && RowIs(mid, cur, j, o, Repair(d, Copy(mid, j, o, 0), Copy(mid, j, o, 1), Copy(mid, j, o, 2), o, m, kept))
    ensures Grown(st, cur, j) && (!row.RowHalted? ==> d == NO_DIFFS)
  {
    hide Wf, Extends, Grown, RowIs, StrEq, Copy, Agree;
    if row.RowHalted? {
      GrownTrans(st, mid, cur, j);
    } else {
      AgreeCopies(st, mid, j, o);
      StrEqSame(Copy(mid, j, o, 0), n);
      RowSame(st, mid, cur, j, o);
    }
  }

  // ----- what damage a read masks and repairs -----

  lemma PatchRange(block: seq<byte>, o: nat, m: nat, good: seq<byte>)
    requires |block| == |good| == BSIZE && o % BSIZE + m <= BSIZE
    ensures Range(Patch(block, o % BSIZE, Range(good, o, m)), o, m) == Range(good, o, m)
  {
  }

  lemma ThirdIsRange(st: Store, j: nat, off: nat, n: nat)
    requires Wf(st) && j < |st.inodes| && off + n <= MBYTES && 0 < n && off % BSIZE + n <= BSIZE
    ensures Third(st, j, off, n) == Range(Copy(st, j, off, 2), off, n)
  {
    hide Wf, View;
    ThirdStep(st, j, off, 0, off, n);
    assert Third(st, j, off, 0) == [];
  }

  /** Damage to the first copy only. The read succeeds with the good bytes and the other two
      copies stay good. The range read is repaired exactly when the damage shows up before a
      NUL among the first n bytes of the block. */
  lemma FirstCopyDamaged(a: Store, b: Store, j: nat, off: nat, n: nat, kept: bool, refused: bool, good: seq<byte>)
    requires Wf(a) && Wf(b) && |a.inodes| == |b.inodes| && j < |a.inodes| && off + n <= MBYTES
    requires 0 < n && off % BSIZE + n <= BSIZE && |good| == BSIZE
    requires OneBlockRead(a, b, j, off, n, kept, refused)
    requires Copy(a, j, off, 1) == Copy(a, j, off, 2) == good
    ensures !refused && Third(a, j, off, n) == Range(good, off, n)
    ensures Copy(b, j, off, 1) == Copy(b, j, off, 2) == good
    ensures Range(Copy(b, j, off, 0), off, n) == Range(good, off, n) <==>
      !StrEq(Copy(a, j, off, 0), good, n) || Range(Copy(a, j, off, 0), off, n) == Range(good, off, n)
  {
    hide Wf, View, StrEq, Patch;
    StrEqSame(good, n);
    ThirdIsRange(a, j, off, n);
    PatchRange(Copy(a, j, off, 0), off, n, good);
    RowCopies(a, b, j, off, RowAfter(a, j, off, n, kept));
  }

  /** Which copy a repair takes its bytes from: the third mends the other two, the second mends the
      third; they need only compare alike. Nothing outside the range read changes. */
  lemma RepairSource(a: Store, b: Store, j: nat, off: nat, n: nat, kept: bool, refused: bool, c: nat)
    requires Wf(a) && Wf(b) && |a.inodes| == |b.inodes| && j < |a.inodes| && off + n <= MBYTES && c < 3
    requires 0 < n && off % BSIZE + n <= BSIZE && OneBlockRead(a, b, j, off, n, kept, refused) && OnlyDamaged(a, j, off, n, c)
    ensures !refused && forall d :: 0 <= d < 3 && d != c ==> Copy(b, j, off, d) == Copy(a, j, off, d)
    ensures forall i :: 0 <= i < BSIZE && !(off % BSIZE <= i < off % BSIZE + n) ==> Copy(b, j, off, c)[i] == Copy(a, j, off, c)[i]
    ensures c < 2 ==> Range(Copy(b, j, off, c), off, n) == Range(Copy(a, j, off, 2), off, n)
    ensures c == 2 ==> Range(Copy(b, j, off, 2), off, n) == Range(Copy(a, j, off, if kept then 1 else 2), off, n)
  {
    hide Wf, View, StrEq, Patch;
    PatchRange(Copy(a, j, off, c), off, n, Copy(a, j, off, if c == 2 then 1 else 2));
    PatchOutside(Copy(a, j, off, c), off, n, Copy(a, j, off, if c == 2 then 1 else 2));
    RowCopies(a, b, j, off, RowAfter(a, j, off, n, kept));
  }

  lemma PatchOutside(block: seq<byte>, o: nat, m: nat, good: seq<byte>)
    requires |block| == |good| == BSIZE && o % BSIZE + m <= BSIZE
    ensures |Patch(block, o % BSIZE, Range(good, o, m))| == BSIZE
    ensures forall i :: 0 <= i < BSIZE && !(o % BSIZE <= i < o % BSIZE + m) ==> Patch(block, o % BSIZE, Range(good, o, m))[i] == block[i]
  {
  }

  /** Damage to the second copy only. */
  lemma SecondCopyDamaged(a: Store, b: Store, j: nat, off: nat, n: nat, kept: bool, refused: bool, good: seq<byte>)
    requires Wf(a) && Wf(b) && |a.inodes| == |b.inodes| && j < |a.inodes| && off + n <= MBYTES
    requires 0 < n && off % BSIZE + n <= BSIZE && |good| == BSIZE
    requires OneBlockRead(a, b, j, off, n, kept, refused)
    requires Copy(a, j, off, 0) == Copy(a, j, off, 2) == good
    ensures !refused && Third(a, j, off, n) == Range(good, off, n)
    ensures Copy(b, j, off, 0) == Copy(b, j, off, 2) == good
    ensures Range(Copy(b, j, off, 1), off, n) == Range(good, off, n) <==>
      !StrEq(Copy(a, j, off, 1), good, n) || Range(Copy(a, j, off, 1), off, n) == Range(good, off, n)
  {
    hide Wf, View, StrEq, Patch;
    StrEqSame(good, n);
    ThirdIsRange(a, j, off, n);
    StrEqSym(good, Copy(a, j, off, 1), n);
    PatchRange(Copy(a, j, off, 1), off, n, good);
    RowCopies(a, b, j, off, RowAfter(a, j, off, n, kept));
  }

  /** Damage to the third copy is not masked: the read succeeds and the caller gets the damaged
      bytes as they are. The two good copies stay; the third is put right for later readers only
      in the cache, and only if the comparison saw the damage. */
  lemma ThirdCopyDamaged(a: Store, b: Store, j: nat, off: nat, n: nat, kept: bool, refused: bool, good: seq<byte>)
    requires Wf(a) && Wf(b) && |a.inodes| == |b.inodes| && j < |a.inodes| && off + n <= MBYTES
    requires 0 < n && off % BSIZE + n <= BSIZE && |good| == BSIZE
    requires OneBlockRead(a, b, j, off, n, kept, refused)
    requires Copy(a, j, off, 0) == Copy(a, j, off, 1) == good
    ensures !refused && Third(a, j, off, n) == Range(Copy(a, j, off, 2), off, n)
    ensures Copy(b, j, off, 0) == Copy(b, j, off, 1) == good
    ensures Range(Copy(b, j, off, 2), off, n) == Range(good, off, n) <==>
      (kept && !StrEq(good, Copy(a, j, off, 2), n)) || Range(Copy(a, j, off, 2), off, n) == Range(good, off, n)
    ensures !kept ==> Copy(b, j, off, 2) == Copy(a, j, off, 2)
  {
    hide Wf, View, StrEq, Patch;
    StrEqSame(good, n);
    ThirdIsRange(a, j, off, n);
    PatchRange(Copy(a, j, off, 2), off, n, good);
    RowCopies(a, b, j, off, RowAfter(a, j, off, n, kept));
  }

  lemma RowCopies(a: Store, b: Store, j: nat, o: nat, row: (seq<byte>, seq<byte>, seq<byte>))
    requires Wf(a) && Wf(b) && |a.inodes| == |b.inodes| && j < |a.inodes| && o < MBYTES && RowIs(a, b, j, o, row)
    ensures Copy(b, j, o, 0) == row.0 && Copy(b, j, o, 1) == row.1 && Copy(b, j, o, 2) == row.2
  {
    hide Wf, View;
  }

  /** What a read gives after a mirrored write: the new bytes where they were written, the old
      ones elsewhere; Third is what Readi returns. */
  lemma MirrorReadAfterWrite(a: Store, b: Store, j: nat, off: nat, data: seq<byte>, o: nat, n: nat)
    requires Wf(a) && Wf(b) && j < |a.inodes| && |a.inodes| == |b.inodes| && o + n <= MBYTES
    requires MirrorWrote(a, b, j, off, data)
    ensures forall i :: 0 <= i < n ==>
      Third(b, j, o, n)[i] == if off <= o + i < off + |data| then data[o + i - off] else Third(a, j, o, n)[i]
    ensures o == off && n == |data| ==> Third(b, j, o, n) == data
  {
    hide CopyByte, Extends, Others, Wf;
    forall i | 0 <= i < n
      ensures Third(b, j, o, n)[i] == if off <= o + i < off + |data| then data[o + i - off] else Third(a, j, o, n)[i]
    {
      assert CopyByte(b, j, 2, o + i) == if off <= o + i < off + |data| then data[o + i - off] else CopyByte(a, j, 2, o + i);
    }
  }

  /** Damage that comparison cannot see: a block that starts with NUL equals any other such
      block, however long the comparison. */
  lemma UnseenDamage(good: seq<byte>, bad: seq<byte>, n: nat)
    requires |good| == |bad| == BSIZE && good[0] == bad[0] == 0
    ensures StrEq(bad, good, n) && StrEq(good, bad, n)
  {
  }
}
