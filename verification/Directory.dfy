/** Directories (dirlookup, dirlink in fs.c and the erasing write of sys_unlink in sysfile.c):
    a file of 16-byte entries that behaves as a finite map from names to inode numbers. */
module Directory {
  import opened Wrappers
  import opened BlockFormat
  import opened FileStore
  import opened FileLaws
  import opened CString

  const DIRSIZ := 14
  const DIRENT := 16
  const ENTRIES := 4480  // MAXBYTES / DIRENT

  // ----- the bytes of a directory as entries -----

  /** All bytes of the file, as far as its block map reaches. */
  ghost function Image(st: Store, j: nat): (r: seq<byte>)
    requires Wf(st) && j < |st.inodes|
    ensures |r| == MAXBYTES
  {
    Slice(st, j, 0, MAXBYTES)
  }

  /** Entry e of a byte image: a little-endian ushort, then the name field. */
  function Inum(img: seq<byte>, e: nat): (r: nat)
    requires DIRENT * e + DIRENT <= |img|
    ensures r < 65536
  {
    img[DIRENT * e] as int + 256 * (img[DIRENT * e + 1] as int)
  }

  function Key(img: seq<byte>, e: nat): seq<byte>
    requires DIRENT * e + DIRENT <= |img|
  {
    Cut(img[DIRENT * e + 2..DIRENT * e + DIRENT], 0, DIRSIZ)
  }

  predicate Match(img: seq<byte>, e: nat, key: seq<byte>)
    requires DIRENT * e + DIRENT <= |img|
  {
    Inum(img, e) != 0 && Key(img, e) == key
  }

  /** First matching entry from e on. */
  ghost function Find(img: seq<byte>, key: seq<byte>, e: nat): (r: Option<nat>)
    requires |img| == MAXBYTES
    ensures r.Some? ==> e <= r.value < ENTRIES
    decreases ENTRIES - e
  {
    if e >= ENTRIES then None else if Match(img, e, key) then Some(e) else Find(img, key, e + 1)
  }

  lemma {:induction false} FindSpec(img: seq<byte>, key: seq<byte>, e: nat)
    requires |img| == MAXBYTES
    ensures Find(img, key, e).Some? ==> Match(img, Find(img, key, e).value, key)
    ensures forall i :: e <= i < (if Find(img, key, e).Some? then Find(img, key, e).value else ENTRIES) ==> !Match(img, i, key)
    decreases ENTRIES - e
  {
    hide Inum, Key;
    if e < ENTRIES && !Match(img, e, key) {
      FindSpec(img, key, e + 1);
    }
  }

  /** The map a directory stands for. */
  ghost function DirMap(img: seq<byte>): map<seq<byte>, nat>
    requires |img| == MAXBYTES
  {
    var keys := set e | 0 <= e < ENTRIES && Inum(img, e) != 0 :: Key(img, e);
    map key | key in keys && Find(img, key, 0).Some? :: Inum(img, Find(img, key, 0).value)
  }

  /** A name is bound exactly when some entry holds it, and then to the first one's number. */
  lemma DirMapSpec(img: seq<byte>, key: seq<byte>)
    requires |img| == MAXBYTES
    ensures key in DirMap(img) <==> Find(img, key, 0).Some?
    ensures key in DirMap(img) ==> DirMap(img)[key] == Inum(img, Find(img, key, 0).value)
  {
    hide Find;
    FindSpec(img, key, 0);
  }

  ghost predicate Unique(img: seq<byte>)
    requires |img| == MAXBYTES
  {
    forall e, f :: 0 <= e < f < ENTRIES && Inum(img, e) != 0 && Inum(img, f) != 0 ==> Key(img, e) != Key(img, f)
  }

  /** A directory in good order: whole entries, no stale bytes past the end, no name twice. */
  ghost predicate Good(st: Store, j: nat) {
    && Wf(st) && Sized(st) && j < |st.inodes| && st.inodes[j].kind.Dir?
    && st.inodes[j].size % DIRENT == 0 && TailZero(st, j) && Unique(Image(st, j))
  }

  lemma FindUnique(img: seq<byte>, key: seq<byte>, e: nat)
    requires |img| == MAXBYTES && e < ENTRIES && Match(img, e, key)
    requires forall i :: 0 <= i < e ==> !Match(img, i, key)
    ensures Find(img, key, 0) == Some(e)
  {
    hide Find, Inum, Key;
    FindSpec(img, key, 0);
  }

  // ----- entries written -----

  function Repeat0(n: nat): (r: seq<byte>)
    ensures |r| == n && forall i :: 0 <= i < n ==> r[i] == 0
  {
    seq(n, _ => 0)
  }

  /** The dirent that dirlink writes: the inode number, then the name padded with NULs. */
  function Dirent(inum: nat, name: seq<byte>): (r: seq<byte>)
    ensures |r| == DIRENT
  {
    var cut := Cut(name, 0, DIRSIZ);
    [(inum % 65536 % 256) as byte, (inum % 65536 / 256) as byte] + cut + Repeat0(DIRSIZ - |cut|)
  }

  lemma {:induction false} CutPadded(name: seq<byte>, i: nat, pre: seq<byte>, n: nat)
    requires |pre| == i <= n
    ensures var cut := Cut(name, i, n); Cut(pre + cut + Repeat0(n - i - |cut|), i, n) == cut
    decreases n - i
  {
    var cut := Cut(name, i, n);
    var s := pre + cut + Repeat0(n - i - |cut|);
    if cut != [] {
      CutPadded(name, i + 1, pre + [cut[0]], n);
      assert cut == [cut[0]] + Cut(name, i + 1, n);
      assert s == (pre + [cut[0]]) + Cut(name, i + 1, n) + Repeat0(n - (i + 1) - (|cut| - 1));
      assert At(s, i) == cut[0];
    } else {
      assert At(s, i) == 0;
    }
  }

  /** What a dirent says is what was put in. */
  lemma DirentReads(inum: nat, name: seq<byte>)
    ensures Inum(Dirent(inum, name), 0) == inum % 65536
    ensures Key(Dirent(inum, name), 0) == Cut(name, 0, DIRSIZ)
  {
    hide Cut;
    var cut := Cut(name, 0, DIRSIZ);
    CutPadded(name, 0, [], DIRSIZ);
    assert [] + cut + Repeat0(DIRSIZ - 0 - |cut|) == Dirent(inum, name)[2..DIRENT];
    var n := inum % 65536;
    assert n % 256 + 256 * (n / 256) == n;
  }

  /** The sixteen bytes of a dirent: the number, low byte first, then the name and NULs. */
  lemma DirentBytes(inum: nat, name: seq<byte>)
    ensures var de, n := Dirent(inum, name), |Cut(name, 0, 14)|;
      && |de| == 16 && de[0] as int == inum % 256 && de[1] as int == inum / 256 % 256
      && n <= |name| && de[2..2 + n] == name[..n] && forall i :: 2 + n <= i < 16 ==> de[i] == 0
  {
    hide *;
    LowBytes(inum);
    DirentParts(inum, name);
  }

  lemma LowBytes(n: nat)
    ensures n % 65536 % 256 == n % 256 && n % 65536 / 256 == n / 256 % 256
  {
    var q := n / 65536;
    assert n == 256 * (256 * q) + n % 65536;
  }

  lemma DirentParts(inum: nat, name: seq<byte>)
    ensures var de, n := Dirent(inum, name), |Cut(name, 0, 14)|;
      && |de| == 16 && de[0] as int == inum % 65536 % 256 && de[1] as int == inum % 65536 / 256
      && n <= |name| && de[2..2 + n] == name[..n] && forall i :: 2 + n <= i < 16 ==> de[i] == 0
  {
    CutIs(name, 0, DIRSIZ);
    hide Cut, Repeat0;
    var cut, low := Cut(name, 0, DIRSIZ), [(inum % 65536 % 256) as byte, (inum % 65536 / 256) as byte];
    var zeros := Repeat0(DIRSIZ - |cut|);
    ThreeParts(low, cut, zeros);
    assert cut == name[..|cut|];
  }

  lemma ThreeParts(a: seq<byte>, b: seq<byte>, c: seq<byte>)
    requires |a| == 2
    ensures var s := a + b + c; s[0] == a[0] && s[1] == a[1] && s[2..2 + |b|] == b && forall i :: 2 + |b| <= i < |s| ==> s[i] == c[i - 2 - |b|]
  {
  }

  /** Where an entry lies in the directory, and what its number and name are. */
  lemma EntryBytes(img: seq<byte>, e: nat)
    requires 16 * e + 16 <= |img|
    ensures Inum(img, e) % 256 == img[16 * e] as int && Inum(img, e) / 256 == img[16 * e + 1] as int
    ensures Key(img, e) == img[16 * e + 2..16 * e + 2 + |Key(img, e)|] && |Key(img, e)| <= 14
    ensures (forall i :: 0 <= i < |Key(img, e)| ==> Key(img, e)[i] != 0) && (|Key(img, e)| < 14 ==> img[16 * e + 2 + |Key(img, e)|] == 0)
  {
    var name := img[16 * e + 2..16 * e + 16];
    CutIs(name, 0, 14);
    hide Cut;
    assert Key(img, e) == name[..|Key(img, e)|];
  }

  /** img with 16 bytes replaced at entry e. */
  function PutEntry(img: seq<byte>, e: nat, de: seq<byte>): (r: seq<byte>)
    requires DIRENT * e + DIRENT <= |img| && |de| == DIRENT
    ensures |r| == |img|
  {
    img[..DIRENT * e] + de + img[DIRENT * e + DIRENT..]
  }

  lemma PutEntryReads(img: seq<byte>, e: nat, de: seq<byte>, f: nat)
    requires DIRENT * e + DIRENT <= |img| && |de| == DIRENT && DIRENT * f + DIRENT <= |img|
    ensures Inum(PutEntry(img, e, de), f) == if f == e then Inum(de, 0) else Inum(img, f)
    ensures Key(PutEntry(img, e, de), f) == if f == e then Key(de, 0) else Key(img, f)
  {
    var r := PutEntry(img, e, de);
    if f == e {
      assert r[DIRENT * f + 2..DIRENT * f + DIRENT] == de[2..DIRENT];
    } else {
      assert r[DIRENT * f + 2..DIRENT * f + DIRENT] == img[DIRENT * f + 2..DIRENT * f + DIRENT];
    }
  }

  /** m with the binding of a new entry: inode number 0 marks a free entry. */
  function Bound(m: map<seq<byte>, nat>, key: seq<byte>, inum: nat): map<seq<byte>, nat> {
    if inum % 65536 == 0 then m else m[key := inum % 65536]
  }

  /** An entry with inode number 0 is a free entry, whatever its name. */
  lemma LinkNothing(img: seq<byte>, e: nat, inum: nat, name: seq<byte>)
    requires |img| == MAXBYTES && e < ENTRIES && Inum(img, e) == 0 && inum % 65536 == 0
    ensures DirMap(PutEntry(img, e, Dirent(inum, name))) == DirMap(img)
    ensures Unique(img) ==> Unique(PutEntry(img, e, Dirent(inum, name)))
  {
    hide DirMap, Find, Dirent, PutEntry, Key, Inum, Cut;
    var de := Dirent(inum, name);
    var img' := PutEntry(img, e, de);
    DirentReads(inum, name);
    forall f | 0 <= f < ENTRIES
      ensures Inum(img', f) == Inum(img, f) && (f != e ==> Key(img', f) == Key(img, f))
    {
      PutEntryReads(img, e, de, f);
    }
    forall k ensures k in DirMap(img') <==> k in DirMap(img)
      ensures k in DirMap(img') ==> DirMap(img')[k] == DirMap(img)[k]
    {
      SameFind(img, img', k);
      DirMapSpec(img, k);
      DirMapSpec(img', k);
    }
    assert DirMap(img') == DirMap(img);
  }

  lemma SameFind(img: seq<byte>, img': seq<byte>, k: seq<byte>)
    requires |img| == |img'| == MAXBYTES
    requires forall f :: 0 <= f < ENTRIES ==> Inum(img', f) == Inum(img, f) && (Inum(img, f) != 0 ==> Key(img', f) == Key(img, f))
    ensures Find(img', k, 0) == Find(img, k, 0)
  {
    hide Find, Key, Inum;
    forall f | 0 <= f < ENTRIES ensures Match(img', f, k) <==> Match(img, f, k) {}
    FindSpec(img, k, 0);
    FindSpec(img', k, 0);
    if Find(img, k, 0).Some? {
      FindUnique(img', k, Find(img, k, 0).value);
    }
  }

  /** Filling a free entry with an absent name adds exactly that binding. */
  lemma LinkAddsBinding(img: seq<byte>, e: nat, inum: nat, name: seq<byte>)
    requires |img| == MAXBYTES && e < ENTRIES && Inum(img, e) == 0 && inum % 65536 != 0
    requires Cut(name, 0, DIRSIZ) !in DirMap(img)
    ensures DirMap(PutEntry(img, e, Dirent(inum, name))) == DirMap(img)[Cut(name, 0, DIRSIZ) := inum % 65536]
    ensures Unique(img) ==> Unique(PutEntry(img, e, Dirent(inum, name)))
  {
    hide DirMap, Find, Dirent, PutEntry, Key, Inum, Cut;
    var key := Cut(name, 0, DIRSIZ);
    var de := Dirent(inum, name);
    var img' := PutEntry(img, e, de);
    DirentReads(inum, name);
    forall f | 0 <= f < ENTRIES
      ensures Inum(img', f) == if f == e then inum % 65536 else Inum(img, f)
      ensures Key(img', f) == if f == e then key else Key(img, f)
    {
      PutEntryReads(img, e, de, f);
    }
    FindSpec(img, key, 0);
    DirMapSpec(img, key);
    forall k
      ensures Find(img', k, 0) == if k == key then Some(e) else Find(img, k, 0)
      ensures k in DirMap(img') <==> k == key || k in DirMap(img)
      ensures k in DirMap(img') ==> DirMap(img')[k] == if k == key then inum % 65536 else DirMap(img)[k]
    {
      forall f | 0 <= f < ENTRIES ensures Match(img', f, k) <==> if f == e then k == key else Match(img, f, k) {}
      DirMapSpec(img, k);
      DirMapSpec(img', k);
      FindSpec(img, k, 0);
      FindSpec(img', k, 0);
      if k == key {
        FindUnique(img', k, e);
      } else if Find(img, k, 0).Some? {
        FindUnique(img', k, Find(img, k, 0).value);
      }
    }
    assert DirMap(img') == DirMap(img)[key := inum % 65536];
    if Unique(img) {
      forall f, g | 0 <= f < g < ENTRIES && Inum(img', f) != 0 && Inum(img', g) != 0
        ensures Key(img', f) != Key(img', g)
      {
        assert !Match(img, f, key) && !Match(img, g, key);
      }
    }
  }

  lemma LinkBinds(img: seq<byte>, e: nat, inum: nat, name: seq<byte>)
    requires |img| == MAXBYTES && e < ENTRIES && Inum(img, e) == 0 && Cut(name, 0, DIRSIZ) !in DirMap(img)
    ensures DirMap(PutEntry(img, e, Dirent(inum, name))) == Bound(DirMap(img), Cut(name, 0, DIRSIZ), inum)
    ensures Unique(img) ==> Unique(PutEntry(img, e, Dirent(inum, name)))
  {
    hide DirMap, Dirent, PutEntry, Inum, Cut, Unique;
    if inum % 65536 == 0 {
      LinkNothing(img, e, inum, name);
    } else {
      LinkAddsBinding(img, e, inum, name);
    }
  }

  lemma OnlyOne(img: seq<byte>, e: nat, r: Option<nat>)
    requires |img| == MAXBYTES && e < ENTRIES && Inum(img, e) != 0 && Unique(img)
    requires r.Some? ==> r.value < ENTRIES && r.value != e && Match(img, r.value, Key(img, e))
    ensures r.None?
  {
  }

  /** Zeroing the entry of a name removes exactly that binding, given that no name is twice. */
  lemma EraseRemovesBinding(img: seq<byte>, e: nat)
    requires |img| == MAXBYTES && e < ENTRIES && Inum(img, e) != 0 && Unique(img)
    ensures DirMap(PutEntry(img, e, Repeat0(DIRENT))) == DirMap(img) - {Key(img, e)}
    ensures Unique(PutEntry(img, e, Repeat0(DIRENT)))
  {
    hide DirMap, Find, PutEntry, Key, Inum, Match;
    var img' := PutEntry(img, e, Repeat0(DIRENT));
    forall k
      ensures k in DirMap(img') <==> k != Key(img, e) && k in DirMap(img)
      ensures k in DirMap(img') ==> DirMap(img')[k] == DirMap(img)[k]
    {
      EraseFind(img, e, k);
      DirMapSpec(img, k);
      DirMapSpec(img', k);
    }
    forall f | 0 <= f < ENTRIES
      ensures Inum(img', f) == if f == e then 0 else Inum(img, f)
      ensures f != e ==> Key(img', f) == Key(img, f)
    {
      EraseReads(img, e, f);
    }
    assert DirMap(img') == DirMap(img) - {Key(img, e)};
  }

  lemma EraseReads(img: seq<byte>, e: nat, f: nat)
    requires |img| == MAXBYTES && e < ENTRIES && f < ENTRIES
    ensures Inum(PutEntry(img, e, Repeat0(DIRENT)), f) == if f == e then 0 else Inum(img, f)
    ensures f != e ==> Key(PutEntry(img, e, Repeat0(DIRENT)), f) == Key(img, f)
  {
    hide PutEntry, Key, Cut;
    PutEntryReads(img, e, Repeat0(DIRENT), f);
    assert Inum(Repeat0(DIRENT), 0) == 0;
  }

  lemma EraseFind(img: seq<byte>, e: nat, k: seq<byte>)
    requires |img| == MAXBYTES && e < ENTRIES && Inum(img, e) != 0 && Unique(img)
    ensures Find(PutEntry(img, e, Repeat0(DIRENT)), k, 0) == if k == Key(img, e) then None else Find(img, k, 0)
    ensures var r := Find(PutEntry(img, e, Repeat0(DIRENT)), k, 0);
      r.Some? ==> Inum(PutEntry(img, e, Repeat0(DIRENT)), r.value) == Inum(img, r.value)
  {
    hide Find, PutEntry, Key, Inum, Unique;
    var img' := PutEntry(img, e, Repeat0(DIRENT));
    forall f | 0 <= f < ENTRIES ensures Match(img', f, k) <==> f != e && Match(img, f, k) {
      EraseReads(img, e, f);
    }
    FindSpec(img, k, 0);
    FindSpec(img', k, 0);
    if Find(img', k, 0).Some? {
      EraseReads(img, e, Find(img', k, 0).value);
    }
    if k == Key(img, e) {
      OnlyOne(img, e, Find(img', k, 0));
    } else if Find(img, k, 0).Some? {
      FindUnique(img', k, Find(img, k, 0).value);
    }
  }

  // ----- the operations -----

  /** Directory j has come to stand for the map m; of everything else no byte, no size, no kind
      and no address changed. */
  ghost predicate Becomes(a: Store, b: Store, j: nat, m: map<seq<byte>, nat>) {
    && Wf(a) && j < |a.inodes| == |b.inodes| && Good(b, j)
    && Others(a, b, j) && Extends(a, b, j) && DirMap(Image(b, j)) == m
  }

  /** From a to b the sixteen bytes of entry e of directory j were set, and it is long enough. */
  ghost predicate Entered(a: Store, b: Store, j: nat, e: nat, de: seq<byte>)
    requires Wf(a) && Wf(b) && j < |a.inodes| && j < |b.inodes|
  {
    && DIRENT * e + DIRENT <= MAXBYTES && |de| == DIRENT && Image(b, j) == PutEntry(Image(a, j), e, de)
    && b.inodes[j].size == Max(a.inodes[j].size, 16 * e + 16)
  }

  /** Where dirlink writes: the first free entry, or the end. */
  ghost predicate FirstFree(img: seq<byte>, size: nat, e: nat)
    requires |img| == MAXBYTES
  {
    && e < ENTRIES && 16 * e <= size && (16 * e < size ==> Inum(img, e) == 0)
    && forall i :: 0 <= i < e ==> Inum(img, i) != 0
  }

  ghost predicate LinkedAt(a: Store, b: Store, j: nat, de: seq<byte>)
    requires Wf(a) && Wf(b) && j < |a.inodes| && j < |b.inodes|
  {
    exists e: nat :: FirstFree(Image(a, j), a.inodes[j].size, e) && Entered(a, b, j, e, de)
  }

  /** Where no name stands twice, the entry of a name is the first one. */
  lemma OnlyEntry(img: seq<byte>, key: seq<byte>, e: nat)
    requires |img| == MAXBYTES && Unique(img) && e < ENTRIES && Match(img, e, key)
    ensures Find(img, key, 0) == Some(e)
  {
    hide Find, Inum, Key;
    FindSpec(img, key, 0);
  }

  /** Every other directory is as good as before and stands for the same map. */
  lemma OtherDirsKept(a: Store, b: Store, j: nat, m: map<seq<byte>, nat>, k: nat)
    requires Becomes(a, b, j, m) && Good(a, k) && k != j
    ensures Good(b, k) && DirMap(Image(b, k)) == DirMap(Image(a, k))
  {
    assert k < |b.inodes|;
    hide DirMap, Unique, Key, Inum, ByteAt, View, Owned, OwnersHold, FreeIsZero, Addr, Used;
    assert Image(b, k) == Image(a, k);
  }

  /** Every other file holds the same bytes. */
  lemma OtherFilesKept(a: Store, b: Store, j: nat, m: map<seq<byte>, nat>, k: nat)
    requires Becomes(a, b, j, m) && Sized(a) && k < |a.inodes| && k != j
    ensures Wf(b) && Sized(b) && k < |b.inodes| && Contents(b, k) == Contents(a, k)
  {
    hide DirMap, Unique, Key, Inum, Owned, OwnersHold, FreeIsZero, Addr, Used, ByteAt, View, Image;
    forall p | 0 <= p < a.inodes[k].size ensures Contents(b, k)[p] == Contents(a, k)[p] {
      ContentsAt(a, k, p);
      ContentsAt(b, k, p);
    }
  }

  datatype Lookup = Found(inum: nat, off: nat) | Absent | Stuck

  /** Stopped: a panic, for want of a free block or of room in the directory. */
  datatype Link = Linked | Exists | Missing | Stopped

  lemma ImageGrown(a: Store, b: Store, j: nat)
    requires Wf(a) && Wf(b) && j < |a.inodes| && |a.inodes| == |b.inodes| && Grown(a, b, j)
    ensures Image(b, j) == Image(a, j)
  {
    hide Wf, Extends, View, Grown, ByteAt;
    forall p | 0 <= p < MAXBYTES ensures Image(b, j)[p] == Image(a, j)[p] {
      GrownBytes(a, b, j, j, p);
    }
  }

  lemma ImageWrote(a: Store, b: Store, j: nat, off: nat, de: seq<byte>)
    requires Wf(a) && Wf(b) && j < |a.inodes| && |a.inodes| == |b.inodes| && |de| == DIRENT
    requires off % DIRENT == 0 && off + DIRENT <= MAXBYTES && Wrote(a, b, j, off, de)
    ensures Image(b, j) == PutEntry(Image(a, j), off / DIRENT, de)
  {
    hide Wf, Extends, Bytes, ByteAt;
    var l, r := Image(b, j), PutEntry(Image(a, j), off / DIRENT, de);
    forall p | 0 <= p < MAXBYTES ensures l[p] == r[p] {
      WroteByte(a, b, j, off, de, j, p);
    }
  }

  /** The block that holds offset off is a piece of the image. */
  lemma BlockOfImage(st: Store, cur: Store, j: nat, off: nat, x: nat)
    requires Wf(st) && Wf(cur) && j < |st.inodes| && |st.inodes| == |cur.inodes| && Grown(st, cur, j)
    requires off % BSIZE == 0 && off < MAXBYTES && 0 < x < |cur.disk| && Addr(cur, j, SlotOf(off / BSIZE)) == x
    ensures |cur.disk[x]| == BSIZE && cur.disk[x] == Image(st, j)[off..off + BSIZE]
  {
    hide Owned, OwnersHold, FreeIsZero, Extends, View, Grown, ByteAt, Addr;
    forall i | 0 <= i < BSIZE ensures cur.disk[x][i] == Image(st, j)[off + i] {
      ReadByte(st, cur, j, off, BSIZE, x, i);
    }
  }

  /** An entry read from a piece of the image is the entry of the image. */
  lemma EntryOfPiece(img: seq<byte>, off: nat, piece: seq<byte>, i: nat)
    requires off % DIRENT == 0 && off + |piece| <= |img| && piece == img[off..off + |piece|]
    requires DIRENT * i + DIRENT <= |piece|
    ensures Inum(piece, i) == Inum(img, off / DIRENT + i) && Key(piece, i) == Key(img, off / DIRENT + i)
  {
    hide Cut;
    var e := off / DIRENT + i;
    assert DIRENT * e == off + DIRENT * i;
    forall k | 0 <= k < |piece| ensures piece[k] == img[off + k] {}
    assert piece[DIRENT * i + 2..DIRENT * i + DIRENT] == img[DIRENT * e + 2..DIRENT * e + DIRENT];
  }

  /** Past the end of the directory every entry is free. */
  lemma NothingPastEnd(st: Store, j: nat, e: nat)
    requires Good(st, j) && e < ENTRIES && st.inodes[j].size <= DIRENT * e
    ensures Inum(Image(st, j), e) == 0
  {
    hide Wf, Unique, ByteAt;
    assert ByteAt(st, j, DIRENT * e) == 0 && ByteAt(st, j, DIRENT * e + 1) == 0;
    assert Image(st, j)[DIRENT * e] == ByteAt(st, j, DIRENT * e);
    assert Image(st, j)[DIRENT * e + 1] == ByteAt(st, j, DIRENT * e + 1);
  }

  /** The inner loop of dirlookup, over the 32 entries of one block. */
  method ScanBlock(block: seq<byte>, name: seq<byte>) returns (r: Option<nat>)
    requires |block| == BSIZE
    ensures r.Some? ==> r.value < 32 && Match(block, r.value, Cut(name, 0, DIRSIZ))
    ensures forall i :: 0 <= i < (if r.Some? then r.value else 32) ==> !Match(block, i, Cut(name, 0, DIRSIZ))
  {
    hide Cut, StrEqFrom;
    var i := 0;
    while i < 32
      invariant 0 <= i <= 32
      invariant forall k :: 0 <= k < i ==> !Match(block, k, Cut(name, 0, DIRSIZ))
    {
      if Inum(block, i) != 0 {
        var field := block[DIRENT * i + 2..DIRENT * i + DIRENT];
        StrEqIsCut(name, field, 0, DIRSIZ);
        if StrEq(name, field, DIRSIZ) {
          return Some(i);
        }
      }
      i := i + 1;
    }
    return None;
  }

  /** How many blocks dirlookup goes through: up to the one with the name, or all. */
  ghost function Reach(img: seq<byte>, key: seq<byte>, size: nat): nat
    requires |img| == MAXBYTES
  {
    var f := Find(img, key, 0);
    if f.Some? then f.value / 32 + 1 else HiBlock(0, size)
  }

  /** dirlookup: the binding of a name and the offset of its entry; stuck exactly when a block on
      the way is missing and cannot be had. */
  method Dirlookup(fs: FileSystem, dp: nat, name: seq<byte>) returns (r: Lookup)
    requires fs.Valid() && Good(fs.S(), dp)
    modifies fs
    ensures fs.Valid() && |fs.inodes| == |old(fs.inodes)| && Grown(old(fs.S()), fs.S(), dp)
    ensures var reach := Reach(Image(old(fs.S()), dp), Cut(name, 0, DIRSIZ), old(fs.inodes[dp].size));
      && reach <= MAXFILE && (r.Stuck? <==> !Affords(old(fs.S()), dp, 0, reach))
      && Settled(old(fs.S()), fs.S(), dp, 0, reach, !r.Stuck?)
    ensures r.Absent? ==> Find(Image(old(fs.S()), dp), Cut(name, 0, DIRSIZ), 0).None?
    ensures r.Absent? ==> Cut(name, 0, DIRSIZ) !in DirMap(Image(old(fs.S()), dp))
    ensures r.Found? ==> Cut(name, 0, DIRSIZ) in DirMap(Image(old(fs.S()), dp))
    ensures r.Found? ==> r.inum == DirMap(Image(old(fs.S()), dp))[Cut(name, 0, DIRSIZ)]
    ensures r.Found? ==> r.off % DIRENT == 0 && r.off < old(fs.inodes[dp].size) && r.off / DIRENT < ENTRIES
    ensures r.Found? ==> Match(Image(old(fs.S()), dp), r.off / DIRENT, Cut(name, 0, DIRSIZ))
    ensures r.Found? ==> MapsAll(fs.S(), dp, r.off / BSIZE, r.off / BSIZE + 1)
  {
    hide Owned, OwnersHold, FreeIsZero, Used, Full, Extends, View, Grown, Addr, Unique, TailZero, Image, Find, DirMap, Cut, Inum, Key, Match,
      Progress, Starved, Settled, Affords, Reach, MapsAll;
    ghost var st := fs.S();
    ghost var img := Image(st, dp);
    ghost var key := Cut(name, 0, DIRSIZ);
    ghost var reach := Reach(img, key, st.inodes[dp].size);
    ReachFits(st, dp, key);
    GrownRefl(st, dp);
    ProgressNone(st, dp, 0, reach);
    var off := 0;
    while off < fs.inodes[dp].size
      invariant off % BSIZE == 0 && off <= MAXBYTES && off < st.inodes[dp].size + BSIZE && |fs.inodes| == |st.inodes|
      invariant fs.Valid() && Grown(st, fs.S(), dp) && fs.inodes[dp].size == st.inodes[dp].size
      invariant Unmatched(img, key, off / DIRENT)
      invariant Progress(st, fs.S(), dp, 0, off / BSIZE, reach)
    {
      ReachBeyond(img, key, st.inodes[dp].size, off);
      ghost var mid := fs.S();
      var a := fs.Bmap(dp, off / BSIZE);
      GrownTrans(st, mid, fs.S(), dp);
      ProgressThen(st, mid, fs.S(), dp, 0, off / BSIZE, reach, off / BSIZE, off / BSIZE + 1, a.Some?);
      if a.None? {
        LookupSettled(st, fs.S(), dp, reach, reach, false);
        return Stuck;
      }
      BlockOfImage(st, fs.S(), dp, off, a.value);
      var block := fs.disk[a.value];
      var hit := ScanBlock(block, name);
      PieceMatches(img, off, block, key);
      if hit.Some? {
        LookupHit(st, dp, key, off, block, hit.value);
        LookupSettled(st, fs.S(), dp, off / BSIZE + 1, reach, true);
        MappedOne(fs.S(), dp, off / BSIZE, off + DIRENT * hit.value);
        return Found(Inum(block, hit.value), off + DIRENT * hit.value);
      }
      off := off + BSIZE;
    }
    LookupMiss(st, dp, key, off);
    LookupSettled(st, fs.S(), dp, off / BSIZE, reach, true);
    return Absent;
  }

  lemma ReachFits(st: Store, j: nat, key: seq<byte>)
    requires Good(st, j)
    ensures Reach(Image(st, j), key, st.inodes[j].size) <= MAXFILE
  {
    hide Wf, Unique, TailZero, Image, Find;
  }

  /** Before the name is found there is a block to look at. */
  lemma ReachBeyond(img: seq<byte>, key: seq<byte>, size: nat, off: nat)
    requires |img| == MAXBYTES && off % BSIZE == 0 && off < size && off <= MAXBYTES && Unmatched(img, key, off / DIRENT)
    ensures off / BSIZE + 1 <= Reach(img, key, size)
  {
    hide Match, Find;
    FindSpec(img, key, 0);
  }

  lemma LookupSettled(st: Store, cur: Store, j: nat, mid: nat, reach: nat, ok: bool)
    requires Wf(st) && Wf(cur) && j < |st.inodes| && reach <= MAXFILE
    requires if ok then mid == reach && Progress(st, cur, j, 0, mid, reach) else Starved(st, cur, j, 0, reach)
    ensures Settled(st, cur, j, 0, reach, ok) && (ok <==> Affords(st, j, 0, reach))
  {
    hide Wf, Progress, Starved, Affords;
    SettledMeans(st, cur, j, 0, reach, ok);
  }

  lemma MappedOne(st: Store, j: nat, bn: nat, off: nat)
    requires Shape(st) && j < |st.inodes| && bn < MAXFILE && Addr(st, j, SlotOf(bn)) != 0 && off / BSIZE == bn
    ensures MapsAll(st, j, off / BSIZE, off / BSIZE + 1)
  {
    hide Addr;
  }

  /** The entry that the scan hits is the first with the name. */
  lemma LookupHit(st: Store, j: nat, key: seq<byte>, off: nat, block: seq<byte>, i: nat)
    requires Good(st, j) && off % BSIZE == 0 && off + BSIZE <= MAXBYTES && block == Image(st, j)[off..off + BSIZE] && i < 32
    requires Match(block, i, key) && Unmatched(Image(st, j), key, off / DIRENT) && Unmatched(block, key, i)
    ensures var e := off / DIRENT + i; var o := off + DIRENT * i;
      && o / DIRENT == e < ENTRIES && o % DIRENT == 0 && o / BSIZE == off / BSIZE && o < st.inodes[j].size
      && Match(Image(st, j), e, key) && key in DirMap(Image(st, j)) && DirMap(Image(st, j))[key] == Inum(block, i)
      && Reach(Image(st, j), key, st.inodes[j].size) == off / BSIZE + 1
  {
    assert Wf(st) && j < |st.inodes|;
    HitPlace(off, i);
    hide *;
    var img := Image(st, j);
    HitFirst(img, key, off, block, i);
    ReachHit(img, key, st.inodes[j].size, off / DIRENT + i);
    MatchWithin(st, j, off / DIRENT + i, key);
  }

  /** None of the first n entries has the name. */
  ghost predicate Unmatched(img: seq<byte>, key: seq<byte>, n: nat) {
    forall e :: 0 <= e < n && DIRENT * e + DIRENT <= |img| ==> !Match(img, e, key)
  }

  lemma HitPlace(off: nat, i: nat)
    requires off % BSIZE == 0 && off + BSIZE <= MAXBYTES && i < 32
    ensures (off + DIRENT * i) / DIRENT == off / DIRENT + i < ENTRIES && (off + DIRENT * i) % DIRENT == 0
    ensures DIRENT * (off / DIRENT + i) == off + DIRENT * i && (off + DIRENT * i) / BSIZE == off / BSIZE
    ensures (off / DIRENT + i) / 32 == off / BSIZE
  {
    var q := off / BSIZE;
    assert off == 512 * q && off / DIRENT == 32 * q;
  }

  lemma HitFirst(img: seq<byte>, key: seq<byte>, off: nat, block: seq<byte>, i: nat)
    requires |img| == MAXBYTES && off % BSIZE == 0 && off + BSIZE <= MAXBYTES && block == img[off..off + BSIZE] && i < 32
    requires Match(block, i, key) && off / DIRENT + i < ENTRIES
    requires Unmatched(img, key, off / DIRENT) && Unmatched(block, key, i)
    ensures Find(img, key, 0) == Some(off / DIRENT + i) && Match(img, off / DIRENT + i, key)
    ensures key in DirMap(img) && DirMap(img)[key] == Inum(block, i)
  {
    hide Find, DirMap, Inum, Key, Match;
    PieceMatch(img, off, block, key, i);
    PieceMatches(img, off, block, key);
    FindUnique(img, key, off / DIRENT + i);
    DirMapSpec(img, key);
  }

  lemma ReachHit(img: seq<byte>, key: seq<byte>, size: nat, e: nat)
    requires |img| == MAXBYTES && Find(img, key, 0) == Some(e)
    ensures Reach(img, key, size) == e / 32 + 1
  {
  }

  /** Without a hit the name is nowhere in the directory. */
  lemma LookupMiss(st: Store, j: nat, key: seq<byte>, off: nat)
    requires Good(st, j) && off % BSIZE == 0 && st.inodes[j].size <= off < st.inodes[j].size + BSIZE
    requires Unmatched(Image(st, j), key, off / DIRENT)
    ensures Find(Image(st, j), key, 0).None? && key !in DirMap(Image(st, j))
    ensures Reach(Image(st, j), key, st.inodes[j].size) == off / BSIZE
  {
    assert j < |st.inodes|;
    hide Wf, Unique, TailZero, Image, Find, DirMap, Inum, Key, Match, Reach;
    forall e | 0 <= e < ENTRIES ensures !Match(Image(st, j), e, key) {
      if off / DIRENT <= e {
        PastEnd(off, st.inodes[j].size, e);
        EndNoMatch(st, j, e, key);
      }
    }
    MissReach(Image(st, j), key, st.inodes[j].size, off);
  }

  lemma PastEnd(off: nat, size: nat, e: nat)
    requires off % BSIZE == 0 && size <= off && off / DIRENT <= e
    ensures size <= DIRENT * e
  {
    assert off == DIRENT * (off / DIRENT);
  }

  lemma MissReach(img: seq<byte>, key: seq<byte>, size: nat, off: nat)
    requires |img| == MAXBYTES && off % BSIZE == 0 && size <= off < size + BSIZE && forall e :: 0 <= e < ENTRIES ==> !Match(img, e, key)
    ensures Find(img, key, 0).None? && key !in DirMap(img) && Reach(img, key, size) == off / BSIZE
  {
    hide Find, DirMap, Match;
    FindSpec(img, key, 0);
    DirMapSpec(img, key);
  }

  lemma PieceMatch(img: seq<byte>, off: nat, piece: seq<byte>, key: seq<byte>, i: nat)
    requires off % DIRENT == 0 && off + |piece| <= |img| && piece == img[off..off + |piece|]
    requires DIRENT * i + DIRENT <= |piece|
    ensures Match(piece, i, key) <==> Match(img, off / DIRENT + i, key)
    ensures Inum(piece, i) == Inum(img, off / DIRENT + i)
  {
    hide Inum, Key;
    EntryOfPiece(img, off, piece, i);
  }

  lemma PieceMatches(img: seq<byte>, off: nat, block: seq<byte>, key: seq<byte>)
    requires |img| == MAXBYTES && |block| == BSIZE && off % BSIZE == 0 && off + BSIZE <= MAXBYTES && block == img[off..off + BSIZE]
    ensures forall e :: off / DIRENT <= e < off / DIRENT + 32 ==> (Match(img, e, key) <==> Match(block, e - off / DIRENT, key))
  {
    hide Match;
    forall e | off / DIRENT <= e < off / DIRENT + 32 ensures Match(img, e, key) <==> Match(block, e - off / DIRENT, key) {
      PieceMatch(img, off, block, key, e - off / DIRENT);
    }
  }

  lemma MatchWithin(st: Store, j: nat, e: nat, key: seq<byte>)
    requires Good(st, j) && e < ENTRIES && Match(Image(st, j), e, key)
    ensures DIRENT * e < st.inodes[j].size
  {
    hide Wf, Unique, Image, Inum, Key, TailZero;
    if st.inodes[j].size <= DIRENT * e {
      NothingPastEnd(st, j, e);
    }
  }

  lemma EndNoMatch(st: Store, j: nat, e: nat, key: seq<byte>)
    requires Good(st, j) && e < ENTRIES && st.inodes[j].size <= DIRENT * e
    ensures !Match(Image(st, j), e, key)
  {
    hide Wf, Unique, Image, Inum, Key, TailZero;
    NothingPastEnd(st, j, e);
  }

  lemma GoodGrown(a: Store, b: Store, j: nat)
    requires Good(a, j) && Wf(b) && Sized(b) && |a.inodes| == |b.inodes| && Grown(a, b, j)
    ensures Good(b, j) && Image(b, j) == Image(a, j)
  {
    hide Owned, OwnersHold, FreeIsZero, View, Addr, Unique, Image, ByteAt;
    ImageGrown(a, b, j);
    forall p | b.inodes[j].size <= p < MAXBYTES ensures ByteAt(b, j, p) == 0 {
      GrownBytes(a, b, j, j, p);
    }
  }

  lemma OthersTrans(a: Store, b: Store, c: Store, j: nat, off: nat, de: seq<byte>)
    requires Wf(a) && Wf(b) && Wf(c) && j < |a.inodes| && |a.inodes| == |b.inodes| == |c.inodes|
    requires Grown(a, b, j) && Wrote(b, c, j, off, de)
    ensures Others(a, c, j)
  {
    hide Wf, Extends, View, Grown, ByteAt, Bytes;
    forall k, p | 0 <= k < |a.inodes| && k != j && 0 <= p < MAXBYTES ensures ByteAt(c, k, p) == ByteAt(a, k, p) {
      GrownBytes(a, b, j, k, p);
      WroteByte(b, c, j, off, de, k, p);
    }
  }

  /** The search of dirlink for the first free entry, or the end. Where every block up to the end
      is mapped it cannot get stuck and takes no block. */
  method FreeEntry(fs: FileSystem, dp: nat) returns (off: nat)
    requires fs.Valid() && Good(fs.S(), dp) && MapsAll(fs.S(), dp, 0, HiBlock(0, fs.inodes[dp].size))
    modifies fs
    ensures fs.Valid() && |fs.inodes| == |old(fs.inodes)| && Grown(old(fs.S()), fs.S(), dp)
    ensures Settled(old(fs.S()), fs.S(), dp, 0, HiBlock(0, old(fs.inodes[dp].size)), true)
    ensures off % DIRENT == 0 && off <= old(fs.inodes[dp].size)
    ensures off / DIRENT < ENTRIES ==> Inum(Image(old(fs.S()), dp), off / DIRENT) == 0
    ensures off < old(fs.inodes[dp].size) <==> HasFree(Image(old(fs.S()), dp), old(fs.inodes[dp].size))
    ensures forall e :: 0 <= e < off / DIRENT && e < ENTRIES ==> Inum(Image(old(fs.S()), dp), e) != 0
  {
    hide Owned, OwnersHold, FreeIsZero, Used, Full, Extends, View, Addr, Unique, TailZero, Image, Inum, Slice, Progress, Starved, Affords, MapsAll, Grown;
    ghost var st := fs.S();
    ghost var size := fs.inodes[dp].size;
    GrownRefl(st, dp);
    ProgressAll(st, dp, HiBlock(0, size));
    off := 0;
    while off < fs.inodes[dp].size
      invariant |fs.inodes| == |st.inodes| && off % DIRENT == 0 && off <= size == fs.inodes[dp].size && fs.inodes[dp].kind.Dir?
      invariant fs.Valid() && Grown(st, fs.S(), dp) && Progress(st, fs.S(), dp, 0, HiBlock(0, size), HiBlock(0, size))
      invariant forall e :: 0 <= e < off / DIRENT ==> Inum(Image(st, dp), e) != 0
    {
      ghost var mid := fs.S();
      EntryBlock(st, mid, dp, off, size);
      var r, de := fs.Readi(dp, off, DIRENT);
      GrownTrans(st, mid, fs.S(), dp);
      GrownSize(mid, fs.S(), dp);
      ProgressThen(st, mid, fs.S(), dp, 0, HiBlock(0, size), HiBlock(0, size), off / BSIZE, off / BSIZE + 1, true);
      PieceRead(st, mid, dp, off, de);
      if Inum(de, 0) == 0 {
        return;
      }
      off := off + DIRENT;
    }
    if off / DIRENT < ENTRIES {
      NothingPastEnd(st, dp, off / DIRENT);
    }
  }

  /** Some entry before the end of the directory is free. */
  ghost predicate HasFree(img: seq<byte>, size: nat)
    requires |img| == MAXBYTES
  {
    exists e :: 0 <= e < ENTRIES && DIRENT * e < size && Inum(img, e) == 0
  }

  lemma ProgressAll(st: Store, j: nat, hi: nat)
    requires Wf(st) && j < |st.inodes| && MapsAll(st, j, 0, hi)
    ensures Progress(st, st, j, 0, hi, hi)
  {
    GrownRefl(st, j);
  }

  /** The block of an entry is mapped and holds all of the entry. */
  lemma EntryBlock(st: Store, cur: Store, j: nat, off: nat, size: nat)
    requires Wf(st) && Wf(cur) && j < |st.inodes| && j < |cur.inodes| && Progress(st, cur, j, 0, HiBlock(0, size), HiBlock(0, size))
    requires off % DIRENT == 0 && size % DIRENT == 0 && off < size <= MAXBYTES
    ensures off + DIRENT <= size && HiBlock(off, DIRENT) == off / BSIZE + 1 <= HiBlock(0, size)
    ensures Affords(cur, j, off / BSIZE, off / BSIZE + 1)
  {
    EntryFits(off, size);
    hide Wf, Extends, GainsIn, MapsAll, Affords;
    MapsPart(cur, j, 0, HiBlock(0, size), off / BSIZE, off / BSIZE + 1);
    MappedAffords(cur, j, off / BSIZE, off / BSIZE + 1);
  }

  lemma EntryFits(off: nat, size: nat)
    requires off % DIRENT == 0 && size % DIRENT == 0 && off < size
    ensures off + DIRENT <= size && HiBlock(off, DIRENT) == off / BSIZE + 1 <= HiBlock(0, size)
  {
    assert (off + DIRENT - 1) / BSIZE == off / BSIZE;
  }

  lemma GrownSize(a: Store, b: Store, j: nat)
    requires Wf(a) && Wf(b) && j < |a.inodes| && |a.inodes| == |b.inodes| && Grown(a, b, j)
    ensures b.inodes[j].size == a.inodes[j].size && b.inodes[j].kind == a.inodes[j].kind
  {
    hide Wf, View, Addr;
  }

  lemma PieceRead(st: Store, mid: Store, j: nat, off: nat, de: seq<byte>)
    requires Wf(st) && Wf(mid) && j < |st.inodes| && |st.inodes| == |mid.inodes| && Grown(st, mid, j)
    requires off % DIRENT == 0 && off + DIRENT <= MAXBYTES && de == Slice(mid, j, off, DIRENT)
    ensures Inum(de, 0) == Inum(Image(st, j), off / DIRENT)
  {
    hide Wf, Extends, View, Grown, ByteAt;
    ImageGrown(st, mid, j);
    var img := Image(mid, j);
    assert de == img[off..off + DIRENT];
  }

  /** A write of one entry; true when all of it was written, which is exactly when there is room
      for it and its block is there or can be had. */
  method PutAt(fs: FileSystem, dp: nat, off: nat, de: seq<byte>) returns (ok: bool)
    requires fs.Valid() && dp < |fs.inodes| && fs.inodes[dp].kind.Dir?
    requires off <= fs.inodes[dp].size && off % DIRENT == 0 && |de| == DIRENT
    modifies fs
    ensures fs.Valid() && |fs.inodes| == |old(fs.inodes)|
    ensures ok ==> off + DIRENT <= MAXBYTES && Wrote(old(fs.S()), fs.S(), dp, off, de)
    ensures ok ==> fs.inodes[dp].size == Max(old(fs.inodes[dp].size), off + DIRENT)
    ensures off == MAXBYTES ==> !ok
    ensures off < MAXBYTES ==> Settled(old(fs.S()), fs.S(), dp, off / BSIZE, off / BSIZE + 1, ok)
    ensures off < MAXBYTES ==> (ok <==> Affords(old(fs.S()), dp, off / BSIZE, off / BSIZE + 1))
  {
    hide Owned, OwnersHold, FreeIsZero, Used, Full, Extends, View, Addr, Bytes, Wrote, Settled, Affords;
    if off < MAXBYTES {
      EntryFits(off, MAXBYTES);
    }
    var w := fs.Writei(dp, off, de);
    assert de[..DIRENT] == de;
    return w == Done(DIRENT);
  }

  /** dirlink cannot go on: a block it looks through is missing and cannot be had, or the name is
      absent, no entry is free, and there is no room or no block for one more. */
  ghost predicate LinkStops(st: Store, j: nat, key: seq<byte>)
    requires Wf(st) && j < |st.inodes|
  {
    var img, size := Image(st, j), st.inodes[j].size;
    !Affords(st, j, 0, Reach(img, key, size)) || (Find(img, key, 0).None? && NoEntry(st, j))
  }

  /** No entry is free, and there is no room or no block for one more. */
  ghost predicate NoEntry(st: Store, j: nat)
    requires Wf(st) && j < |st.inodes|
  {
    var size := st.inodes[j].size;
    !HasFree(Image(st, j), size) && (size == MAXBYTES || !Affords(st, j, 0, HiBlock(0, size + DIRENT)))
  }

  /** dirlink: adds the binding of an absent name, and nothing else. The inode number is cut to
      the 16 bits of the entry. */
  method Dirlink(fs: FileSystem, dp: nat, name: seq<byte>, inum: nat) returns (r: Link)
    requires fs.Valid() && Good(fs.S(), dp)
    modifies fs
    ensures fs.Valid() && |fs.inodes| == |old(fs.inodes)|
    ensures r.Linked? ==> Cut(name, 0, DIRSIZ) !in DirMap(Image(old(fs.S()), dp))
    ensures r.Linked? ==> Becomes(old(fs.S()), fs.S(), dp, Bound(DirMap(Image(old(fs.S()), dp)), Cut(name, 0, DIRSIZ), inum))
    ensures r.Linked? ==> LinkedAt(old(fs.S()), fs.S(), dp, Dirent(inum, name))
    ensures r.Exists? ==> Cut(name, 0, DIRSIZ) in DirMap(Image(old(fs.S()), dp)) && Grown(old(fs.S()), fs.S(), dp)
    ensures r.Stopped? <==> LinkStops(old(fs.S()), dp, Cut(name, 0, DIRSIZ))
    ensures !r.Missing?
  {
    assert dp < |fs.inodes|;
    hide Wf, Sized, Extends, View, Grown, Addr, Good, Image, DirMap, Cut, Inum, Dirent, Wrote, Match, Others, Becomes, Bound, Full, Find, Reach,
      Settled, Affords, NoEntry, Ready, LinkedAt;
    ghost var st := fs.S();
    ghost var key := Cut(name, 0, DIRSIZ);
    var l := Dirlookup(fs, dp, name);
    if l.Stuck? {
      return Stopped;
    }
    if l.Found? {
      FoundIsSome(st, dp, key);
      return Exists;
    }
    ReachAll(Image(st, dp), key, st.inodes[dp].size);
    ReadyStart(st, fs.S(), dp);
    r := LinkAbsent(fs, dp, name, inum, st);
  }

  /** Directory j reads as it did in st, and every block up to its end is mapped. */
  ghost predicate Ready(st: Store, cur: Store, j: nat) {
    && Good(st, j) && Good(cur, j) && |st.inodes| == |cur.inodes| && Grown(st, cur, j) && Image(cur, j) == Image(st, j)
    && cur.inodes[j].size == st.inodes[j].size && Settled(st, cur, j, 0, HiBlock(0, st.inodes[j].size), true)
  }

  lemma ReadyThen(st: Store, s1: Store, s2: Store, j: nat)
    requires Ready(st, s1, j) && Wf(s2) && Sized(s2) && |s2.inodes| == |s1.inodes| && Grown(s1, s2, j)
    requires Settled(s1, s2, j, 0, HiBlock(0, st.inodes[j].size), true)
    ensures Ready(st, s2, j)
  {
    assert j < |s1.inodes|;
    hide Wf, Sized, Extends, View, Good, Image, Progress, HiBlock, Addr;
    GoodGrown(s1, s2, j);
    GrownTrans(st, s1, s2, j);
    GrownSize(s1, s2, j);
    var hi := HiBlock(0, st.inodes[j].size);
    ProgressThen(st, s1, s2, j, 0, hi, hi, 0, hi, true);
  }

  lemma ReadyStart(st: Store, s1: Store, j: nat)
    requires Good(st, j) && Wf(s1) && Sized(s1) && |s1.inodes| == |st.inodes| && Grown(st, s1, j)
    requires Settled(st, s1, j, 0, HiBlock(0, st.inodes[j].size), true)
    ensures Ready(st, s1, j)
  {
    assert j < |s1.inodes|;
    hide Wf, Sized, Extends, View, Good, Image, Settled, HiBlock, Addr;
    GoodGrown(st, s1, j);
    GrownSize(st, s1, j);
  }

  /** What Ready means for the loops that follow. */
  lemma ReadyFacts(st: Store, cur: Store, j: nat)
    requires Ready(st, cur, j)
    ensures j < |cur.inodes| && cur.inodes[j].kind.Dir? && cur.inodes[j].size == st.inodes[j].size
    ensures st.inodes[j].size % DIRENT == 0 && st.inodes[j].size <= MAXBYTES
    ensures MapsAll(cur, j, 0, HiBlock(0, cur.inodes[j].size))
  {
    hide Extends, View, Image, Addr, GainsIn, HiBlock, Unique, TailZero, Owned, OwnersHold, FreeIsZero, Used;
  }

  /** The rest of dirlink, once the name is known to be absent. */
  method LinkAbsent(fs: FileSystem, dp: nat, name: seq<byte>, inum: nat, ghost st: Store) returns (r: Link)
    requires fs.Valid() && Ready(st, fs.S(), dp) && Cut(name, 0, DIRSIZ) !in DirMap(Image(st, dp))
    modifies fs
    ensures fs.Valid() && |fs.inodes| == |old(fs.inodes)| && (r.Linked? || r.Stopped?)
    ensures r.Linked? ==> LinkedAt(st, fs.S(), dp, Dirent(inum, name))
    ensures r.Linked? ==> Becomes(st, fs.S(), dp, Bound(DirMap(Image(st, dp)), Cut(name, 0, DIRSIZ), inum))
    ensures r.Stopped? <==> NoEntry(st, dp)
  {
    hide Wf, Sized, Good, Image, DirMap, Cut, Ready, Becomes, Bound, NoEntry, HasFree, Inum, Entered, FirstFree, LinkedAt;
    ghost var s1 := fs.S();
    ReadyFacts(st, s1, dp);
    ReadyGood(st, s1, dp);
    var off := FreeEntry(fs, dp);
    ReadyThen(st, s1, fs.S(), dp);
    r := LinkAt(fs, dp, name, inum, off, st);
    if r.Linked? {
      PlaceFound(st, fs.S(), dp, off, Dirent(inum, name));
    }
  }

  lemma PlaceFound(st: Store, cur: Store, j: nat, off: nat, de: seq<byte>)
    requires Wf(st) && Wf(cur) && j < |st.inodes| && j < |cur.inodes| && off % DIRENT == 0 && off <= st.inodes[j].size
    requires off / DIRENT < ENTRIES && Inum(Image(st, j), off / DIRENT) == 0
    requires forall e :: 0 <= e < off / DIRENT && e < ENTRIES ==> Inum(Image(st, j), e) != 0
    requires Entered(st, cur, j, off / DIRENT, de)
    ensures LinkedAt(st, cur, j, de)
  {
    hide Wf, Image, Inum, Entered;
    assert FirstFree(Image(st, j), st.inodes[j].size, off / DIRENT);
  }

  lemma ReadyGood(st: Store, cur: Store, j: nat)
    requires Ready(st, cur, j)
    ensures Wf(st) && Good(st, j) && Good(cur, j) && j < |st.inodes| && Image(cur, j) == Image(st, j)
  {
    hide Wf, Unique, TailZero, Image;
  }

  /** The write of the new entry at the place found. */
  method LinkAt(fs: FileSystem, dp: nat, name: seq<byte>, inum: nat, off: nat, ghost st: Store) returns (r: Link)
    requires fs.Valid() && Ready(st, fs.S(), dp) && Cut(name, 0, DIRSIZ) !in DirMap(Image(st, dp))
    requires off % DIRENT == 0 && off <= st.inodes[dp].size
    requires off / DIRENT < ENTRIES ==> Inum(Image(st, dp), off / DIRENT) == 0
    requires off < st.inodes[dp].size <==> HasFree(Image(st, dp), st.inodes[dp].size)
    modifies fs
    ensures fs.Valid() && |fs.inodes| == |old(fs.inodes)| && (r.Linked? || r.Stopped?)
    ensures r.Linked? ==> off / DIRENT < ENTRIES && Entered(st, fs.S(), dp, off / DIRENT, Dirent(inum, name))
    ensures r.Linked? ==> Becomes(st, fs.S(), dp, Bound(DirMap(Image(st, dp)), Cut(name, 0, DIRSIZ), inum))
    ensures r.Stopped? <==> NoEntry(st, dp)
  {
    hide Wf, Sized, Good, Image, DirMap, Cut, Ready, Becomes, Bound, HasFree, Inum, Affords, Settled, Dirent, HiBlock, Wrote, Entered;
    ghost var s2 := fs.S();
    ReadyFacts(st, s2, dp);
    ReadyGood(st, s2, dp);
    var ok := PutAt(fs, dp, off, Dirent(inum, name));
    LinkSettled(st, s2, fs.S(), dp, off, ok);
    if !ok {
      return Stopped;
    }
    LinkDone(st, s2, fs.S(), dp, off, inum, name);
    return Linked;
  }

  lemma ReachAll(img: seq<byte>, key: seq<byte>, size: nat)
    requires |img| == MAXBYTES && Find(img, key, 0).None?
    ensures Reach(img, key, size) == HiBlock(0, size)
  {
  }

  lemma FoundIsSome(st: Store, j: nat, key: seq<byte>)
    requires Good(st, j) && key in DirMap(Image(st, j))
    ensures Find(Image(st, j), key, 0).Some?
  {
    DirMapSpec(Image(st, j), key);
  }

  /** Whether the new entry could be written, in terms of the state before everything. */
  lemma LinkSettled(st: Store, s2: Store, s3: Store, j: nat, off: nat, ok: bool)
    requires Ready(st, s2, j) && Wf(s3) && off % DIRENT == 0 && off <= st.inodes[j].size
    requires off == MAXBYTES ==> !ok
    requires off < MAXBYTES ==> Settled(s2, s3, j, off / BSIZE, off / BSIZE + 1, ok)
    requires off < MAXBYTES ==> (ok <==> Affords(s2, j, off / BSIZE, off / BSIZE + 1))
    ensures !ok <==> off == st.inodes[j].size && (off == MAXBYTES || !Affords(st, j, 0, HiBlock(0, off + DIRENT)))
  {
    var size := st.inodes[j].size;
    ReadyFacts(st, s2, j);
    ReadyProgress(st, s2, j);
    hide Wf, Affords, Progress, Starved, HiBlock, Ready, Settled;
    if off < size {
      EntryBlock(st, s2, j, off, size);
    } else if off < MAXBYTES {
      LinkGrows(st, s2, s3, j, off, HiBlock(0, size), HiBlock(0, off + DIRENT), ok);
    }
  }

  lemma ReadyProgress(st: Store, cur: Store, j: nat)
    requires Ready(st, cur, j)
    ensures Wf(st) && Wf(cur) && j < |st.inodes| == |cur.inodes|
    ensures Progress(st, cur, j, 0, HiBlock(0, st.inodes[j].size), HiBlock(0, st.inodes[j].size))
  {
    hide Wf, Unique, TailZero, Image, Progress, HiBlock;
  }

  lemma LinkGrows(st: Store, s2: Store, s3: Store, j: nat, off: nat, hi: nat, top: nat, ok: bool)
    requires Wf(st) && Wf(s2) && Wf(s3) && j < |st.inodes| && |st.inodes| == |s2.inodes| && off % DIRENT == 0 && off < MAXBYTES
    requires hi == HiBlock(0, off) && top == HiBlock(0, off + DIRENT) && Progress(st, s2, j, 0, hi, hi)
    requires Settled(s2, s3, j, off / BSIZE, off / BSIZE + 1, ok)
    ensures ok <==> Affords(st, j, 0, top)
  {
    EndBlock(off);
    hide Wf, Affords, Progress, Starved, Settled, HiBlock;
    ProgressWiden(st, s2, j, 0, hi, hi, top);
    ProgressThen(st, s2, s3, j, 0, hi, top, off / BSIZE, top, ok);
    LookupSettled(st, s3, j, top, top, ok);
  }

  lemma EndBlock(size: nat)
    requires size % DIRENT == 0 && size < MAXBYTES
    ensures size / BSIZE <= HiBlock(0, size) <= HiBlock(0, size + DIRENT) == size / BSIZE + 1 <= MAXFILE
  {
    assert (size + DIRENT - 1) / BSIZE == size / BSIZE;
  }

  lemma GoodFacts(a: Store, b: Store, j: nat)
    requires Good(a, j) && Good(b, j) && |a.inodes| == |b.inodes| && Grown(a, b, j)
    ensures b.inodes[j].kind.Dir? && b.inodes[j].size == a.inodes[j].size
  {
    hide Wf, View, Addr, Unique, Image, ByteAt;
  }

  lemma LinkDone(st: Store, s2: Store, s3: Store, j: nat, off: nat, inum: nat, name: seq<byte>)
    requires Ready(st, s2, j) && Wf(s3) && Sized(s3) && |s2.inodes| == |s3.inodes|
    requires off % DIRENT == 0 && off <= s2.inodes[j].size && off + DIRENT <= MAXBYTES
    requires Wrote(s2, s3, j, off, Dirent(inum, name)) && s3.inodes[j].size == Max(s2.inodes[j].size, off + DIRENT)
    requires Inum(Image(st, j), off / DIRENT) == 0 && Cut(name, 0, DIRSIZ) !in DirMap(Image(st, j))
    ensures Becomes(st, s3, j, Bound(DirMap(Image(st, j)), Cut(name, 0, DIRSIZ), inum))
    ensures Entered(st, s3, j, off / DIRENT, Dirent(inum, name))
  {
    hide Wf, View, Grown, Extends, Unique, Image, ByteAt, Wrote, DirMap, Cut, Inum, Dirent, TailZero, Others, Bound, PutEntry;
    GrownThenExtends(st, s2, s3, j, off, Dirent(inum, name));
    ImageWrote(s2, s3, j, off, Dirent(inum, name));
    LinkBinds(Image(st, j), off / DIRENT, inum, name);
    WriteKeepsTail(s2, s3, j, off, Dirent(inum, name), j);
    OthersTrans(st, s2, s3, j, off, Dirent(inum, name));
  }

  lemma GrownThenExtends(a: Store, b: Store, c: Store, j: nat, off: nat, de: seq<byte>)
    requires Wf(a) && Wf(b) && Wf(c) && j < |a.inodes| && |b.inodes| == |a.inodes| && Grown(a, b, j) && Wrote(b, c, j, off, de)
    ensures Extends(a, c, j) && j < |c.inodes| && (a.inodes[j].kind.Dir? ==> c.inodes[j].kind.Dir?)
  {
    hide Wf, View, Addr, Used, Bytes;
    ExtendsTrans(a, b, c, j);
  }

  /** The part of sys_unlink that works on the directory: removes the binding of the name, and
      nothing else. */
  method Unlink(fs: FileSystem, dp: nat, name: seq<byte>) returns (r: Link)
    requires fs.Valid() && Good(fs.S(), dp)
    modifies fs
    ensures fs.Valid() && |fs.inodes| == |old(fs.inodes)|
    ensures r.Linked? ==> Cut(name, 0, DIRSIZ) in DirMap(Image(old(fs.S()), dp))
    ensures r.Linked? ==> Becomes(old(fs.S()), fs.S(), dp, DirMap(Image(old(fs.S()), dp)) - {Cut(name, 0, DIRSIZ)})
    ensures r.Linked? ==> var e := Find(Image(old(fs.S()), dp), Cut(name, 0, DIRSIZ), 0);
      e.Some? && Entered(old(fs.S()), fs.S(), dp, e.value, Repeat0(16))
    ensures r.Missing? ==> Cut(name, 0, DIRSIZ) !in DirMap(Image(old(fs.S()), dp)) && Grown(old(fs.S()), fs.S(), dp)
    ensures r.Stopped? <==> !Affords(old(fs.S()), dp, 0, Reach(Image(old(fs.S()), dp), Cut(name, 0, DIRSIZ), old(fs.inodes[dp].size)))
    ensures !r.Exists?
  {
    assert dp < |fs.inodes|;
    hide Wf, Sized, Extends, View, Grown, Addr, Good, Image, DirMap, Cut, Inum, Wrote, Match, Repeat0, Full, Others, Becomes, Reach, Settled, Affords, MapsAll, Entered, Find, Unique;
    ghost var st := fs.S();
    var l := Dirlookup(fs, dp, name);
    if l.Stuck? {
      return Stopped;
    }
    if l.Absent? {
      return Missing;
    }
    GoodGrown(st, fs.S(), dp);
    GrownSize(st, fs.S(), dp);
    EntryOfName(st, dp, Cut(name, 0, DIRSIZ), l.off / DIRENT);
    EraseAt(fs, dp, l.off, Cut(name, 0, DIRSIZ), st);
    return Linked;
  }

  lemma EntryOfName(st: Store, j: nat, key: seq<byte>, e: nat)
    requires Good(st, j) && e < ENTRIES && Match(Image(st, j), e, key)
    ensures Find(Image(st, j), key, 0) == Some(e)
  {
    hide Wf, TailZero, Unique, Find, Match, Image;
    OnlyEntry(Image(st, j), key, e);
  }

  /** A zeroed entry is written over the entry found, whose block is mapped. */
  method EraseAt(fs: FileSystem, dp: nat, off: nat, ghost key: seq<byte>, ghost st: Store)
    requires fs.Valid() && Good(st, dp) && Good(fs.S(), dp) && |st.inodes| == |fs.inodes| && Grown(st, fs.S(), dp)
    requires Image(fs.S(), dp) == Image(st, dp) && off % DIRENT == 0 && off < fs.inodes[dp].size && off / DIRENT < ENTRIES
    requires Match(Image(st, dp), off / DIRENT, key) && MapsAll(fs.S(), dp, off / BSIZE, off / BSIZE + 1)
    modifies fs
    ensures fs.Valid() && |fs.inodes| == |old(fs.inodes)|
    ensures Becomes(st, fs.S(), dp, DirMap(Image(st, dp)) - {key}) && Entered(st, fs.S(), dp, off / DIRENT, Repeat0(DIRENT))
  {
    assert dp < |fs.inodes|;
    GoodFacts(st, fs.S(), dp);
    hide Wf, Sized, Extends, View, Grown, Good, Image, DirMap, Inum, Wrote, Match, Repeat0, Full, Others, Becomes, Settled, Affords, MapsAll, Entered;
    ghost var s1 := fs.S();
    MappedAffords(s1, dp, off / BSIZE, off / BSIZE + 1);
    var _ := PutAt(fs, dp, off, Repeat0(DIRENT));
    EraseDone(st, s1, fs.S(), dp, off, key);
  }

  lemma EraseDone(st: Store, s1: Store, s2: Store, j: nat, off: nat, key: seq<byte>)
    requires Good(st, j) && Good(s1, j) && Wf(s2) && Sized(s2) && |st.inodes| == |s1.inodes| == |s2.inodes|
    requires Grown(st, s1, j) && Image(s1, j) == Image(st, j)
    requires off % DIRENT == 0 && off < s1.inodes[j].size && off / DIRENT < ENTRIES
    requires Wrote(s1, s2, j, off, Repeat0(DIRENT)) && s2.inodes[j].size == Max(s1.inodes[j].size, off + DIRENT)
    requires Match(Image(st, j), off / DIRENT, key)
    ensures Becomes(st, s2, j, DirMap(Image(st, j)) - {key}) && Entered(st, s2, j, off / DIRENT, Repeat0(DIRENT))
  {
    hide Wf, View, Grown, Extends, Unique, Image, ByteAt, Wrote, DirMap, Cut, Inum, TailZero, Others, PutEntry;
    GrownThenExtends(st, s1, s2, j, off, Repeat0(DIRENT));
    GrownSize(st, s1, j);
    ImageWrote(s1, s2, j, off, Repeat0(DIRENT));
    EraseRemovesBinding(Image(st, j), off / DIRENT);
    WriteKeepsTail(s1, s2, j, off, Repeat0(DIRENT), j);
    OthersTrans(st, s1, s2, j, off, Repeat0(DIRENT));
  }
}
