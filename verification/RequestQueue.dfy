/** The server's bounded request buffer (put and get in sever_client_system/cs537.c): a slot
    array from which the request for the smallest file is taken first. */
module RequestQueue {

  /** A queued request: connection descriptor, request line, file size, file name length. */
  datatype Request = Request(fd: int, info: string, size: int, nameLen: int)

  /** The requests in the slots below n that are marked valid. */
  function Queued(valid: seq<int>, slots: seq<Request>, n: nat): multiset<Request>
    requires n <= |valid| && |valid| == |slots|
  {
    if n == 0 then multiset{}
    else if valid[n - 1] == 1 then Queued(valid, slots, n - 1) + multiset{slots[n - 1]}
    else Queued(valid, slots, n - 1)
  }

  /** Slot i holds a smallest request: none is smaller, and none before it is as small. */
  ghost predicate Smallest(valid: seq<int>, slots: seq<Request>, i: nat)
    requires |valid| == |slots|
  {
    && i < |valid| && valid[i] == 1
    && (forall j :: 0 <= j < |valid| && valid[j] == 1 ==> slots[i].size <= slots[j].size)
    && (forall j :: 0 <= j < i && valid[j] == 1 ==> slots[i].size < slots[j].size)
  }

  /** Slot i is the lowest one not in use. */
  ghost predicate FirstClear(valid: seq<int>, i: nat) {
    i < |valid| && valid[i] == 0 && forall j :: 0 <= j < i ==> valid[j] == 1
  }

  lemma {:induction false} FillSlot(valid: seq<int>, slots: seq<Request>, i: nat, r: Request, n: nat)
    requires n <= |valid| == |slots| && i < |valid| && valid[i] != 1
    ensures Queued(valid[i := 1], slots[i := r], n) == Queued(valid, slots, n) + if i < n then multiset{r} else multiset{}
  {
    if n > 0 {
      FillSlot(valid, slots, i, r, n - 1);
    }
  }

  lemma {:induction false} ClearSlot(valid: seq<int>, slots: seq<Request>, i: nat, n: nat)
    requires n <= |valid| == |slots| && i < |valid| && valid[i] == 1
    ensures i < n ==> slots[i] in Queued(valid, slots, n)
    ensures Queued(valid[i := 0], slots, n) == Queued(valid, slots, n) - if i < n then multiset{slots[i]} else multiset{}
  {
    if n > 0 {
      ClearSlot(valid, slots, i, n - 1);
    }
  }

  lemma {:induction false} QueuedIs(valid: seq<int>, slots: seq<Request>, n: nat, r: Request)
    requires n <= |valid| == |slots|
    ensures r in Queued(valid, slots, n) <==> exists j :: 0 <= j < n && valid[j] == 1 && slots[j] == r
  {
    if n > 0 {
      QueuedIs(valid, slots, n - 1, r);
    }
  }

  lemma {:induction false} QueuedBound(valid: seq<int>, slots: seq<Request>, n: nat)
    requires n <= |valid| == |slots|
    ensures |Queued(valid, slots, n)| <= n
    ensures |Queued(valid, slots, n)| == n <==> forall j :: 0 <= j < n ==> valid[j] == 1
  {
    if n > 0 {
      QueuedBound(valid, slots, n - 1);
    }
  }

  class Server {
    var buffCount: int
    const bufferSz: nat
    const valid: array<int>
    const slots: array<Request>

    ghost predicate Valid()
      reads this, valid, slots
    {
      && 0 < bufferSz == valid.Length == slots.Length
      && (forall i :: 0 <= i < bufferSz ==> valid[i] == 0 || valid[i] == 1)
      && (forall i :: 0 <= i < bufferSz && valid[i] == 1 ==> 0 <= slots[i].size)
      && buffCount == |Queue()|
    }

    ghost function Queue(): multiset<Request>
      reads this, valid, slots
      requires valid.Length == slots.Length
    {
      Queued(valid[..], slots[..], valid.Length)
    }

    constructor (size: nat)
      requires 0 < size
      ensures Valid() && bufferSz == size && Queue() == multiset{} && fresh(valid) && fresh(slots)
    {
      bufferSz := size;
      buffCount := 0;
      valid := new int[size](_ => 0);
      slots := new Request[size](_ => Request(0, "", 0, 0));
      new;
      AllClear(valid[..], slots[..], size);
    }

    /** put: the first free slot takes the request; with no free slot nothing happens. */
    method Put(r: Request)
      requires Valid() && 0 <= r.size
      modifies this`buffCount, valid, slots
      ensures Valid()
      ensures Queue() == old(Queue()) + if |old(Queue())| < bufferSz then multiset{r} else multiset{}
      ensures forall i: nat :: FirstClear(old(valid[..]), i) ==> valid[..] == old(valid[..])[i := 1] && slots[..] == old(slots[..])[i := r]
      ensures |old(Queue())| == bufferSz ==> valid[..] == old(valid[..]) && slots[..] == old(slots[..])
    {
      QueuedBound(valid[..], slots[..], bufferSz);
      assert (forall j :: 0 <= j < bufferSz ==> valid[..][j] == 1) <==> |Queue()| == bufferSz;
      hide Queued;
      ghost var valid0 := valid[..];
      var i := 0;
      while i < bufferSz
        invariant 0 <= i <= bufferSz && buffCount == old(buffCount)
        invariant valid[..] == valid0 && slots[..] == old(slots[..])
        invariant forall j :: 0 <= j < i ==> valid0[j] == 1
      {
        if valid[i] == 0 {
          FillSlot(valid[..], slots[..], i, r, bufferSz);
          valid[i] := 1;
          slots[i] := r;
          buffCount := buffCount + 1;
          assert forall k: nat :: FirstClear(valid0, k) ==> k == i;
          assert valid[..] == old(valid[..])[i := 1] && slots[..] == old(slots[..])[i := r];
          break;
        }
        i := i + 1;
      }
    }

    /** The scan of get, with -1 standing for "none seen yet". */
    method FindSmallest() returns (ind: nat)
      requires Valid() && 0 < buffCount
      ensures Smallest(valid[..], slots[..], ind)
    {
      SomeQueued(valid[..], slots[..], bufferSz);
      assert exists j :: 0 <= j < bufferSz && valid[..][j] == 1;
      hide Queued;
      var best := -1;
      ind := 0;
      var i := 0;
      while i < bufferSz
        invariant 0 <= i <= bufferSz
        invariant best == -1 ==> forall j :: 0 <= j < i ==> valid[j] == 0
        invariant best != -1 ==> 0 <= ind < i && valid[ind] == 1 && best == slots[ind].size
        invariant best != -1 ==> forall j :: 0 <= j < i && valid[j] == 1 ==> best <= slots[j].size
        invariant best != -1 ==> forall j :: 0 <= j < ind && valid[j] == 1 ==> best < slots[j].size
      {
        if valid[i] == 1 {
          if best == -1 {
            best, ind := slots[i].size, i;
          } else if slots[i].size < best {
            best, ind := slots[i].size, i;
          }
        }
        i := i + 1;
      }
    }

    /** get: takes out a smallest request, of equals the one in the lowest slot. */
    method Get() returns (r: Request, ghost slot: nat)
      requires Valid() && 0 < buffCount
      modifies this`buffCount, valid
      ensures Valid() && r in old(Queue()) && Queue() == old(Queue()) - multiset{r}
      ensures forall q :: q in old(Queue()) ==> r.size <= q.size
      ensures Smallest(old(valid[..]), slots[..], slot) && slots[slot] == r && valid[..] == old(valid[..])[slot := 0]
    {
      var ind := FindSmallest();
      slot := ind;
      ClearSlot(valid[..], slots[..], ind, bufferSz);
      SmallestOfQueue(valid[..], slots[..], ind);
      hide Queued;
      valid[ind] := 0;
      assert valid[..] == old(valid[..])[ind := 0];
      r := slots[ind];
      buffCount := buffCount - 1;
    }
  }

  lemma {:induction false} AllClear(valid: seq<int>, slots: seq<Request>, n: nat)
    requires n <= |valid| == |slots| && forall i :: 0 <= i < |valid| ==> valid[i] == 0
    ensures Queued(valid, slots, n) == multiset{}
  {
    if n > 0 {
      AllClear(valid, slots, n - 1);
    }
  }

  lemma {:induction false} SomeQueued(valid: seq<int>, slots: seq<Request>, n: nat)
    requires n <= |valid| == |slots|
    ensures 0 < |Queued(valid, slots, n)| ==> exists j :: 0 <= j < n && valid[j] == 1
  {
    if n > 0 {
      SomeQueued(valid, slots, n - 1);
    }
  }

  /** The request in a smallest slot is no larger than any queued request. */
  lemma SmallestOfQueue(valid: seq<int>, slots: seq<Request>, i: nat)
    requires |valid| == |slots| && Smallest(valid, slots, i)
    ensures forall q :: q in Queued(valid, slots, |valid|) ==> slots[i].size <= q.size
  {
    forall q | q in Queued(valid, slots, |valid|) ensures slots[i].size <= q.size {
      QueuedIs(valid, slots, |valid|, q);
    }
  }
}
