/** The pipe ring (kernel/pipe.c). Each method is what a process does between acquiring the
    pipe's lock and sleeping or returning; a sleeper calls again after it wakes. */
module Pipe {
  import opened BlockFormat

  const PIPESIZE := 512
  const WRAP := 0x1_0000_0000 // nread and nwrite are 32-bit unsigned

  /** The byte at position k of the stream lives in slot k mod PIPESIZE until it is read. */
  ghost predicate Held(data: seq<byte>, stored: seq<byte>, r: nat) {
    && |data| == PIPESIZE && r <= |stored| <= r + PIPESIZE
    && forall k :: r <= k < |stored| ==> data[k % PIPESIZE] == stored[k]
  }

  lemma HeldPut(data: seq<byte>, stored: seq<byte>, r: nat, x: byte)
    requires Held(data, stored, r) && |stored| < r + PIPESIZE
    ensures Held(data[|stored| % PIPESIZE := x], stored + [x], r)
  {
    var n := |stored|;
    forall k | r <= k < n ensures k % PIPESIZE != n % PIPESIZE {
      Apart(k, n);
    }
  }

  lemma HeldTake(data: seq<byte>, stored: seq<byte>, r: nat)
    requires Held(data, stored, r) && r < |stored|
    ensures data[r % PIPESIZE] == stored[r] && Held(data, stored, r + 1)
  {
  }

  lemma Apart(k: nat, n: nat)
    requires k < n < k + PIPESIZE
    ensures k % PIPESIZE != n % PIPESIZE
  {
  }

  /** The tests on the wrapping counters mean what they seem to mean, and the slot is right. */
  lemma Counters(r: nat, w: nat)
    requires r <= w <= r + PIPESIZE
    ensures r % WRAP == w % WRAP <==> w == r
    ensures w % WRAP == (r % WRAP + PIPESIZE) % WRAP <==> w == r + PIPESIZE
    ensures (r % WRAP) % PIPESIZE == r % PIPESIZE && (w % WRAP) % PIPESIZE == w % PIPESIZE
  {
    Slot(r);
    Slot(w);
    var d := w / WRAP - r / WRAP;
    assert w - r == d * WRAP + (w % WRAP - r % WRAP);
    assert 0 <= d <= 1;
  }

  lemma Slot(k: nat)
    ensures (k % WRAP) % PIPESIZE == k % PIPESIZE
  {
    var q := k / WRAP;
    assert k == q * WRAP + k % WRAP;
    var m := k % WRAP;
    assert k == (q * 8388608 + m / PIPESIZE) * PIPESIZE + m % PIPESIZE;
    Remainder(k, q * 8388608 + m / PIPESIZE, m % PIPESIZE);
  }

  lemma Remainder(p: int, q: int, r: int)
    requires p == q * PIPESIZE + r && 0 <= r < PIPESIZE
    ensures p % PIPESIZE == r
  {
  }

  lemma Bump(k: nat)
    ensures (k % WRAP + 1) % WRAP == (k + 1) % WRAP
  {
  }

  datatype Wrote = Done | AsleepWriting | WriteError
  datatype GotBytes = Bytes(bytes: seq<byte>) | AsleepReading | ReadError

  class Ring {
    const data: array<byte>
    var nread: nat
    var nwrite: nat
    var readopen: bool
    var writeopen: bool
    ghost var stored: seq<byte>   // every byte ever put into the pipe
    ghost var delivered: seq<byte> // every byte ever handed to a reader

    ghost predicate Valid()
      reads this, data
    {
      && data.Length == PIPESIZE && delivered <= stored && |stored| <= |delivered| + PIPESIZE
      && nread == |delivered| % WRAP && nwrite == |stored| % WRAP && Held(data[..], stored, |delivered|)
    }

    /** pipealloc. */
    constructor ()
      ensures Valid() && fresh(data) && stored == [] && delivered == [] && readopen && writeopen
    {
      data := new byte[PIPESIZE];
      nread, nwrite, readopen, writeopen := 0, 0, true, true;
      stored, delivered := [], [];
    }

    /** pipeclose: true when both ends are closed and the page of the pipe is given back. */
    method Close(writable: bool) returns (freed: bool)
      requires Valid()
      modifies this`readopen, this`writeopen
      ensures Valid() && (freed <==> !readopen && !writeopen)
      ensures if writable then !writeopen && readopen == old(readopen) else !readopen && writeopen == old(writeopen)
    {
      if writable {
        writeopen := false;
      } else {
        readopen := false;
      }
      freed := !readopen && !writeopen;
    }

    /** pipewrite from byte i on, up to its return or its next sleep at byte i'; `wakes` tells
        whether it woke the readers. Bytes may be left without a wakeup only in a full pipe whose
        writer was killed or whose read end is closed. */
    method Write(addr: seq<byte>, i: nat, killed: bool) returns (r: Wrote, i': nat, wakes: bool)
      requires Valid() && i <= |addr|
      modifies this`nwrite, this`stored, data
      ensures Valid() && i <= i' <= |addr| && stored == old(stored) + addr[i..i']
      ensures i' == if |addr| - i <= PIPESIZE - (|old(stored)| - |delivered|) then |addr| else i + PIPESIZE - (|old(stored)| - |delivered|)
      ensures r == if i' == |addr| then Done else if !readopen || killed then WriteError else AsleepWriting
      ensures !r.Done? ==> |stored| == |delivered| + 512
      ensures !wakes <==> |stored| == |delivered| + PIPESIZE && i' < |addr| && (!readopen || killed)
    {
      i' := i;
      while i' < |addr|
        invariant i <= i' <= |addr| && Valid() && stored == old(stored) + addr[i..i']
      {
        Counters(|delivered|, |stored|);
        if nwrite == (nread + PIPESIZE) % WRAP {
          if !readopen || killed {
            return WriteError, i', false;
          }
          return AsleepWriting, i', true;
        }
        Put(addr[i']);
        i' := i' + 1;
      }
      return Done, i', true;
    }

    /** A byte goes into its slot and nwrite advances. */
    method Put(x: byte)
      requires Valid() && |stored| < |delivered| + PIPESIZE
      modifies this`nwrite, this`stored, data
      ensures Valid() && stored == old(stored) + [x]
    {
      Counters(|delivered|, |stored|);
      Bump(|stored|);
      HeldPut(data[..], stored, |delivered|, x);
      hide Held;
      data[nwrite % PIPESIZE] := x;
      nwrite := (nwrite + 1) % WRAP;
      stored := stored + [x];
    }

    /** piperead up to its return or its next sleep, waking the writers when it returns bytes. A
        negative n reads nothing. */
    method Read(n: int, killed: bool) returns (r: GotBytes, wakes: bool)
      requires Valid()
      modifies this`nread, this`delivered
      ensures Valid()
      ensures r.AsleepReading? <==> |stored| == |old(delivered)| && writeopen && !killed
      ensures r.ReadError? <==> |stored| == |old(delivered)| && writeopen && killed
      ensures r.Bytes? ==> delivered == old(delivered) + r.bytes && delivered == stored[..|delivered|]
      ensures r.Bytes? ==> |r.bytes| == if n <= 0 then 0 else if n <= |stored| - |old(delivered)| then n else |stored| - |old(delivered)|
      ensures !r.Bytes? ==> unchanged(this)
      ensures wakes <==> r.Bytes?
    {
      Counters(|delivered|, |stored|);
      if nread == nwrite && writeopen {
        return (if killed then ReadError else AsleepReading), false;
      }
      var bytes: seq<byte> := [];
      while |bytes| < n
        invariant Valid() && delivered == old(delivered) + bytes && (n <= 0 ==> bytes == []) && (n > 0 ==> |bytes| <= n)
      {
        Counters(|delivered|, |stored|);
        if nread == nwrite {
          break;
        }
        var x := Take();
        bytes := bytes + [x];
      }
      return Bytes(bytes), true;
    }

    /** The next byte leaves its slot and nread advances. */
    method Take() returns (x: byte)
      requires Valid() && |delivered| < |stored|
      modifies this`nread, this`delivered
      ensures Valid() && delivered == old(delivered) + [x]
    {
      Counters(|delivered|, |stored|);
      Bump(|delivered|);
      HeldTake(data[..], stored, |delivered|);
      hide Held;
      x := data[nread % PIPESIZE];
      nread := (nread + 1) % WRAP;
      delivered := delivered + [x];
    }
  }
}
