/** The producer and consumer loops of sever_client_system/server.c as a state machine: one
    mutex, two condition variables with the semantics of IEEE Std 1003.1 (a signal wakes at
    least one waiter if there is any; waits may end spuriously), and one step for each piece of
    code between lock operations. */
module ServerMonitor {
  import opened RequestQueue

  datatype Producer = Accepting | PLocking(r: Request) | PTesting(r: Request) | PWaiting(r: Request) | PSignalling | PUnlocking

  datatype Consumer = Locking | Testing | Waiting | Signalling(r: Request) | Unlocking(r: Request) | Handling(r: Request)

  datatype Holder = Nobody | TheProducer | AConsumer(i: nat)

  /** `accepted` and `dispatched` record the requests that came in and that were handled. */
  datatype State = State(cap: nat, queue: multiset<Request>, holder: Holder, prod: Producer, cons: seq<Consumer>,
                         accepted: multiset<Request>, dispatched: multiset<Request>)

  // ----- steps -----

  ghost predicate Init(s: State) {
    && 0 < s.cap && s.cons != []
    && s.queue == s.accepted == s.dispatched == multiset{} && s.holder == Nobody && s.prod == Accepting
    && forall i :: 0 <= i < |s.cons| ==> s.cons[i] == Locking
  }

  ghost predicate Accept(s: State, s': State, r: Request) {
    s.prod == Accepting && s' == s.(prod := PLocking(r), accepted := s.accepted + multiset{r})
  }

  ghost predicate ProducerStep(s: State, s': State) {
    match s.prod
    case Accepting => false
    case PLocking(r) => s.holder == Nobody && s' == s.(holder := TheProducer, prod := PTesting(r))
    case PTesting(r) =>
      if |s.queue| == s.cap then s' == s.(holder := Nobody, prod := PWaiting(r))
      else s' == s.(queue := s.queue + multiset{r}, prod := PSignalling)
    case PWaiting(_) => false
    case PSignalling => Signal(s, s')
    case PUnlocking => s' == s.(holder := Nobody, prod := Accepting)
  }

  /** pthread_cond_signal(fill): some waiting consumers go back to the mutex, at least one of
      them if any is waiting. */
  ghost predicate Signal(s: State, s': State) {
    && s' == s.(prod := PUnlocking, cons := s'.cons) && |s'.cons| == |s.cons|
    && (forall i :: 0 <= i < |s.cons| ==> s'.cons[i] == s.cons[i] || (s.cons[i] == Waiting && s'.cons[i] == Locking))
    && ((exists i :: 0 <= i < |s.cons| && s.cons[i] == Waiting) ==> s'.cons != s.cons)
  }

  ghost predicate IsSmallest(r: Request, queue: multiset<Request>) {
    r in queue && forall q :: q in queue ==> r.size <= q.size
  }

  ghost predicate ConsumerStep(s: State, s': State, i: nat) {
    i < |s.cons| &&
    match s.cons[i]
    case Locking => s.holder == Nobody && s' == s.(holder := AConsumer(i), cons := s.cons[i := Testing])
    case Testing =>
      if |s.queue| == 0 then s' == s.(holder := Nobody, cons := s.cons[i := Waiting])
      else exists r :: IsSmallest(r, s.queue) && s' == s.(queue := s.queue - multiset{r}, cons := s.cons[i := Signalling(r)])
    case Waiting => false
    case Signalling(r) =>
      s' == s.(prod := if s.prod.PWaiting? then PLocking(s.prod.r) else s.prod, cons := s.cons[i := Unlocking(r)])
    case Unlocking(r) => s' == s.(holder := Nobody, cons := s.cons[i := Handling(r)])
    case Handling(r) => s' == s.(dispatched := s.dispatched + multiset{r}, cons := s.cons[i := Locking])
  }

  ghost predicate Spurious(s: State, s': State) {
    || (s.prod.PWaiting? && s' == s.(prod := PLocking(s.prod.r)))
    || exists i :: 0 <= i < |s.cons| && s.cons[i] == Waiting && s' == s.(cons := s.cons[i := Locking])
  }

  ghost predicate Next(s: State, s': State) {
    || (exists r: Request :: 0 <= r.size && Accept(s, s', r))
    || ProducerStep(s, s')
    || (exists i :: ConsumerStep(s, s', i))
    || Spurious(s, s')
  }

  // ----- the invariant -----

  function Awake(cons: seq<Consumer>): nat {
    if cons == [] then 0 else Awake(cons[..|cons| - 1]) + if cons[|cons| - 1] == Waiting then 0 else 1
  }

  /** How often request q has been taken by a consumer and not yet handled. */
  function InHand(cons: seq<Consumer>, q: Request): nat {
    if cons == [] then 0 else InHand(cons[..|cons| - 1], q) + Held(cons[|cons| - 1], q)
  }

  function Held(c: Consumer, q: Request): nat {
    if (c.Signalling? || c.Unlocking? || c.Handling?) && c.r == q then 1 else 0
  }

  function Carried(p: Producer, q: Request): nat {
    if (p.PLocking? || p.PTesting? || p.PWaiting?) && p.r == q then 1 else 0
  }

  predicate Inside(c: Consumer) {
    c.Testing? || c.Signalling? || c.Unlocking?
  }

  /** The mutex is held by exactly the thread whose program point says so. */
  ghost predicate Exclusive(s: State) {
    && (s.holder == TheProducer <==> s.prod.PTesting? || s.prod.PSignalling? || s.prod.PUnlocking?)
    && (forall i :: 0 <= i < |s.cons| ==> (s.holder == AConsumer(i) <==> Inside(s.cons[i])))
    && (s.holder.AConsumer? ==> s.holder.i < |s.cons|)
  }

  /** A producer waits only while the buffer is full, or a signal to it is on its way. */
  ghost predicate FullIfWaiting(s: State) {
    s.prod.PWaiting? ==> |s.queue| == s.cap || (s.holder.AConsumer? && s.holder.i < |s.cons| && s.cons[s.holder.i].Signalling?)
  }

  /** While some consumer waits there are no more requests than consumers awake. */
  ghost predicate ServedIfWaiting(s: State) {
    Awake(s.cons) < |s.cons| ==> |s.queue| <= Awake(s.cons) + if s.prod.PSignalling? then 1 else 0
  }

  /** Every accepted request is in exactly one place, as often as it was accepted. */
  ghost predicate Balanced(s: State) {
    forall q :: s.accepted[q] == Carried(s.prod, q) + s.queue[q] + InHand(s.cons, q) + s.dispatched[q]
  }

  ghost predicate Inv(s: State) {
    0 < s.cap && s.cons != [] && |s.queue| <= s.cap
    && Exclusive(s) && FullIfWaiting(s) && ServedIfWaiting(s) && Balanced(s)
  }

  lemma {:induction false} SetConsumer(cons: seq<Consumer>, i: nat, c: Consumer, q: Request)
    requires i < |cons|
    ensures Awake(cons[i := c]) == Awake(cons) - (if cons[i] == Waiting then 0 else 1) + (if c == Waiting then 0 else 1)
    ensures InHand(cons[i := c], q) + Held(cons[i], q) == InHand(cons, q) + Held(c, q)
  {
    hide Held;
    var n := |cons| - 1;
    var cons' := cons[i := c];
    if i < n {
      SetConsumer(cons[..n], i, c, q);
      assert cons'[..n] == cons[..n][i := c];
      assert cons'[n] == cons[n];
    } else {
      assert cons'[..n] == cons[..n];
    }
  }

  lemma {:induction false} AwakeBound(cons: seq<Consumer>)
    ensures Awake(cons) <= |cons|
    ensures Awake(cons) == |cons| <==> forall i :: 0 <= i < |cons| ==> cons[i] != Waiting
    ensures Awake(cons) == 0 <==> forall i :: 0 <= i < |cons| ==> cons[i] == Waiting
  {
    if cons != [] {
      AwakeBound(cons[..|cons| - 1]);
    }
  }

  lemma {:induction false} StartCounts(cons: seq<Consumer>, q: Request)
    requires forall i :: 0 <= i < |cons| ==> cons[i] == Locking || cons[i] == Waiting
    ensures InHand(cons, q) == 0
  {
    if cons != [] {
      StartCounts(cons[..|cons| - 1], q);
    }
  }

  /** Waking consumers takes nothing from anyone's hands and leaves more of them awake. */
  lemma {:induction false} WakeCounts(a: seq<Consumer>, b: seq<Consumer>, q: Request)
    requires |a| == |b| && forall i :: 0 <= i < |a| ==> b[i] == a[i] || (a[i] == Waiting && b[i] == Locking)
    ensures InHand(b, q) == InHand(a, q)
    ensures Awake(a) <= Awake(b)
    ensures a != b ==> Awake(a) < Awake(b)
  {
    if a != [] {
      var n := |a| - 1;
      WakeCounts(a[..n], b[..n], q);
      if a[..n] == b[..n] {
        assert a == a[..n] + [a[n]] && b == b[..n] + [b[n]];
      }
    }
  }

  lemma InitInv(s: State)
    requires Init(s)
    ensures Inv(s)
  {
    forall q ensures InHand(s.cons, q) == 0 {
      StartCounts(s.cons, q);
    }
    AwakeBound(s.cons);
  }

  lemma ProducerKeepsInv(s: State, s': State)
    requires Inv(s) && ProducerStep(s, s')
    ensures Inv(s')
  {
    if s.prod.PSignalling? {
      SignalKeepsInv(s, s');
    } else {
      ProducerKeepsBalance(s, s');
      ProducerKeepsExclusive(s, s');
      hide Awake, InHand, Balanced, Exclusive, Next;
    }
  }

  lemma ProducerKeepsExclusive(s: State, s': State)
    requires Exclusive(s) && ProducerStep(s, s') && !s.prod.PSignalling?
    ensures Exclusive(s')
  {
  }

  lemma ProducerKeepsBalance(s: State, s': State)
    requires Inv(s) && ProducerStep(s, s') && !s.prod.PSignalling?
    ensures Balanced(s')
  {
    hide Awake, InHand, Exclusive, FullIfWaiting;
  }

  lemma SignalKeepsInv(s: State, s': State)
    requires Inv(s) && s.prod.PSignalling? && Signal(s, s')
    ensures Inv(s')
  {
    hide Awake, InHand, Exclusive, Balanced;
    WakeCounts(s.cons, s'.cons, Request(0, "", 0, 0));
    AwakeBound(s.cons);
    AwakeBound(s'.cons);
    SignalKeepsExclusive(s, s');
    SignalKeepsBalance(s, s');
  }

  lemma SignalKeepsBalance(s: State, s': State)
    requires Balanced(s) && s.prod.PSignalling? && Signal(s, s')
    ensures Balanced(s')
  {
    hide Awake, InHand;
    forall q ensures InHand(s'.cons, q) == InHand(s.cons, q) {
      WakeCounts(s.cons, s'.cons, q);
    }
  }

  lemma SignalKeepsExclusive(s: State, s': State)
    requires Exclusive(s) && s.prod.PSignalling? && Signal(s, s')
    ensures Exclusive(s') && s.holder == TheProducer
  {
  }

  lemma ConsumerKeepsInv(s: State, s': State, i: nat)
    requires Inv(s) && ConsumerStep(s, s', i)
    ensures Inv(s')
  {
    ConsumerKeepsExclusive(s, s', i);
    ConsumerKeepsWaits(s, s', i);
    ConsumerKeepsBalance(s, s', i);
  }

  lemma ConsumerKeepsExclusive(s: State, s': State, i: nat)
    requires Exclusive(s) && ConsumerStep(s, s', i)
    ensures Exclusive(s') && i < |s.cons| == |s'.cons| && s' == s'.(cons := s.cons[i := s'.cons[i]])
    ensures Inside(s.cons[i]) ==> s.holder == AConsumer(i)
    ensures Inside(s'.cons[i]) ==> s'.holder == AConsumer(i)
  {
  }

  lemma ConsumerKeepsWaits(s: State, s': State, i: nat)
    requires Inv(s) && ConsumerStep(s, s', i)
    ensures FullIfWaiting(s') && ServedIfWaiting(s') && |s'.queue| <= s'.cap
  {
    ConsumerKeepsExclusive(s, s', i);
    SetConsumer(s.cons, i, s'.cons[i], Request(0, "", 0, 0));
    hide Awake, InHand, Balanced, Held;
  }

  lemma ConsumerKeepsBalance(s: State, s': State, i: nat)
    requires Balanced(s) && ConsumerStep(s, s', i)
    ensures Balanced(s')
  {
    hide InHand, Awake, ConsumerStep, Held, Carried;
    ConsumerMoves(s, s', i, Request(0, "", 0, 0));
    forall q
      ensures s'.accepted[q] == Carried(s'.prod, q) + s'.queue[q] + InHand(s'.cons, q) + s'.dispatched[q]
    {
      SetConsumer(s.cons, i, s'.cons[i], q);
      assert s.accepted[q] == Carried(s.prod, q) + s.queue[q] + InHand(s.cons, q) + s.dispatched[q];
      ConsumerMoves(s, s', i, q);
    }
  }

  /** Where request q is after a consumer's step: what leaves one place arrives in another. */
  lemma ConsumerMoves(s: State, s': State, i: nat, q: Request)
    requires ConsumerStep(s, s', i)
    ensures i < |s.cons| == |s'.cons| && s'.cons == s.cons[i := s'.cons[i]]
    ensures s'.accepted == s.accepted && Carried(s'.prod, q) == Carried(s.prod, q)
    ensures s'.queue[q] + s'.dispatched[q] + Held(s'.cons[i], q) == s.queue[q] + s.dispatched[q] + Held(s.cons[i], q)
  {
    if s.cons[i] == Testing && |s.queue| != 0 {
      var r :| IsSmallest(r, s.queue) && s' == s.(queue := s.queue - multiset{r}, cons := s.cons[i := Signalling(r)]);
      hide ConsumerStep, Held, Carried;
      GotMoves(s, s', i, r, q);
    } else {
      hide InHand, Awake;
    }
  }

  lemma GotMoves(s: State, s': State, i: nat, r: Request, q: Request)
    requires i < |s.cons| && s.cons[i] == Testing && r in s.queue
    requires s' == s.(queue := s.queue - multiset{r}, cons := s.cons[i := Signalling(r)])
    ensures s'.queue[q] + s'.dispatched[q] + Held(s'.cons[i], q) == s.queue[q] + s.dispatched[q] + Held(s.cons[i], q)
  {
    TakenOut(s.queue, r, q);
  }

  lemma TakenOut(queue: multiset<Request>, r: Request, q: Request)
    requires r in queue
    ensures (queue - multiset{r})[q] + (if q == r then 1 else 0) == queue[q]
  {
  }

  lemma SpuriousKeepsInv(s: State, s': State)
    requires Inv(s) && Spurious(s, s')
    ensures Inv(s')
  {
    if s'.prod == s.prod {
      var i :| 0 <= i < |s.cons| && s.cons[i] == Waiting && s' == s.(cons := s.cons[i := Locking]);
      WokenKeepsInv(s, s', i);
    } else {
      hide Awake, InHand;
      assert Exclusive(s') && Balanced(s');
    }
  }

  lemma WokenKeepsInv(s: State, s': State, i: nat)
    requires Inv(s) && i < |s.cons| && s.cons[i] == Waiting && s' == s.(cons := s.cons[i := Locking])
    ensures Inv(s')
  {
    hide Awake, InHand, Balanced, Held;
    SetConsumer(s.cons, i, Locking, Request(0, "", 0, 0));
    WokenKeepsBalance(s, s', i);
    assert Exclusive(s');
  }

  lemma WokenKeepsBalance(s: State, s': State, i: nat)
    requires Balanced(s) && i < |s.cons| && s.cons[i] == Waiting && s' == s.(cons := s.cons[i := Locking])
    ensures Balanced(s')
  {
    hide Awake, InHand;
    forall q ensures InHand(s'.cons, q) == InHand(s.cons, q) {
      SetConsumer(s.cons, i, Locking, q);
    }
  }

  lemma NextKeepsInv(s: State, s': State)
    requires Inv(s) && Next(s, s')
    ensures Inv(s')
  {
    hide Inv, Spurious, ProducerStep, ConsumerStep;
    if ProducerStep(s, s') {
      ProducerKeepsInv(s, s');
    } else if Spurious(s, s') {
      SpuriousKeepsInv(s, s');
    } else if exists i :: ConsumerStep(s, s', i) {
      var i :| ConsumerStep(s, s', i);
      ConsumerKeepsInv(s, s', i);
    } else {
      var r: Request :| 0 <= r.size && Accept(s, s', r);
      AcceptKeepsInv(s, s', r);
    }
  }

  lemma AcceptKeepsInv(s: State, s': State, r: Request)
    requires Inv(s) && Accept(s, s', r)
    ensures Inv(s')
  {
  }

  // ----- whole runs -----

  ghost predicate Run(run: seq<State>) {
    run != [] && Init(run[0]) && forall i :: 0 < i < |run| ==> Next(run[i - 1], run[i])
  }

  /** The invariant holds in every state of every run. */
  lemma {:induction false} RunInv(run: seq<State>)
    requires Run(run)
    ensures Inv(run[|run| - 1])
  {
    hide Inv, Next, Init;
    var n := |run| - 1;
    if n == 0 {
      InitInv(run[0]);
    } else {
      PrefixRun(run);
      RunInv(run[..n]);
      NextKeepsInv(run[n - 1], run[n]);
    }
  }

  lemma PrefixRun(run: seq<State>)
    requires Run(run) && |run| > 1
    ensures Run(run[..|run| - 1]) && Next(run[|run| - 2], run[|run| - 1])
  {
    hide Next, Init;
  }

  /** Some thread can take a step of its own: no new connection, no spurious wakeup. */
  ghost predicate CanMove(s: State) {
    (exists s' :: ProducerStep(s, s')) || exists i, s' :: ConsumerStep(s, s', i)
  }

  ghost predicate Idle(s: State) {
    && s.prod == Accepting && s.queue == multiset{} && (forall i :: 0 <= i < |s.cons| ==> s.cons[i] == Waiting)
    && s.dispatched == s.accepted
  }

  /** No deadlock: if no thread can move on its own, the server is idle, and then every
      request ever accepted has been dispatched, exactly once. */
  lemma NeverStuck(s: State)
    requires Inv(s)
    ensures CanMove(s) || Idle(s)
  {
    if s.prod != Accepting && !s.prod.PWaiting? && (s.holder == Nobody || s.holder == TheProducer) {
      ProducerCan(s);
    } else if s.holder.AConsumer? {
      ConsumerCan(s, s.holder.i);
    } else if i: nat :| i < |s.cons| && s.cons[i] != Waiting {
      ConsumerCan(s, i);
    } else {
      AwakeBound(s.cons);
      forall q ensures s.dispatched[q] == s.accepted[q] {
        StartCounts(s.cons, q);
      }
    }
  }

  lemma ProducerCan(s: State)
    requires Inv(s) && s.prod != Accepting && !s.prod.PWaiting? && (s.holder == Nobody || s.holder == TheProducer)
    ensures exists s' :: ProducerStep(s, s')
  {
    match s.prod
    case PLocking(r) => assert ProducerStep(s, s.(holder := TheProducer, prod := PTesting(r)));
    case PTesting(r) =>
      assert ProducerStep(s, if |s.queue| == s.cap then s.(holder := Nobody, prod := PWaiting(r))
                             else s.(queue := s.queue + multiset{r}, prod := PSignalling));
    case PSignalling =>
      var woken := seq(|s.cons|, i requires 0 <= i < |s.cons| => if s.cons[i] == Waiting then Locking else s.cons[i]);
      assert Signal(s, s.(prod := PUnlocking, cons := woken));
      assert ProducerStep(s, s.(prod := PUnlocking, cons := woken));
    case PUnlocking => assert ProducerStep(s, s.(holder := Nobody, prod := Accepting));
  }

  lemma ConsumerCan(s: State, i: nat)
    requires Inv(s) && i < |s.cons| && s.cons[i] != Waiting
    requires s.holder == Nobody || s.holder == AConsumer(i)
    ensures exists s' :: ConsumerStep(s, s', i)
  {
    match s.cons[i]
    case Locking => assert ConsumerStep(s, s.(holder := AConsumer(i), cons := s.cons[i := Testing]), i);
    case Testing =>
      if |s.queue| == 0 {
        assert ConsumerStep(s, s.(holder := Nobody, cons := s.cons[i := Waiting]), i);
      } else {
        var r := SmallestExists(s.queue);
        assert ConsumerStep(s, s.(queue := s.queue - multiset{r}, cons := s.cons[i := Signalling(r)]), i);
      }
    case Signalling(r) =>
      assert ConsumerStep(s, s.(prod := if s.prod.PWaiting? then PLocking(s.prod.r) else s.prod, cons := s.cons[i := Unlocking(r)]), i);
    case Unlocking(r) => assert ConsumerStep(s, s.(holder := Nobody, cons := s.cons[i := Handling(r)]), i);
    case Handling(r) =>
      assert ConsumerStep(s, s.(dispatched := s.dispatched + multiset{r}, cons := s.cons[i := Locking]), i);
  }

  lemma {:induction false} SmallestExists(queue: multiset<Request>) returns (r: Request)
    requires 0 < |queue|
    ensures IsSmallest(r, queue)
    decreases |queue|
  {
    r :| r in queue;
    var rest := queue - multiset{r};
    if 0 < |rest| {
      var r' := SmallestExists(rest);
      assert forall q :: q in queue ==> q == r || q in rest;
      if r'.size < r.size {
        r := r';
      }
    } else {
      assert forall q :: q in queue ==> q == r || q in rest;
    }
  }

  // ----- the monitor over the real queue -----

  /** The machine's queue is what the slots of the server hold. */
  ghost predicate Mirrors(s: State, server: Server)
    reads server, server.valid, server.slots
  {
    server.Valid() && s.cap == server.bufferSz && s.queue == server.Queue()
  }

  /** The producer's test and put, while it holds the mutex, are the machine's step. */
  method ProducerTurn(server: Server, r: Request, ghost s: State) returns (waits: bool, ghost s': State)
    requires Mirrors(s, server) && s.prod == PTesting(r) && 0 <= r.size
    modifies server`buffCount, server.valid, server.slots
    ensures ProducerStep(s, s') && Mirrors(s', server) && (waits <==> s'.prod == PWaiting(r))
  {
    QueuedBound(server.valid[..], server.slots[..], server.bufferSz);
    if server.buffCount == server.bufferSz {
      waits, s' := true, s.(holder := Nobody, prod := PWaiting(r));
    } else {
      server.Put(r);
      waits, s' := false, s.(queue := s.queue + multiset{r}, prod := PSignalling);
    }
  }

  /** The consumer's test and get, while it holds the mutex, are the machine's step; what it gets
      is a smallest request. */
  method ConsumerTurn(server: Server, i: nat, ghost s: State) returns (waits: bool, r: Request, ghost s': State)
    requires Mirrors(s, server) && i < |s.cons| && s.cons[i] == Testing
    modifies server`buffCount, server.valid
    ensures ConsumerStep(s, s', i) && Mirrors(s', server)
    ensures if waits then s'.cons[i] == Waiting else IsSmallest(r, s.queue) && s'.cons[i] == Signalling(r)
  {
    r := Request(0, "", 0, 0);
    if server.buffCount == 0 {
      waits, s' := true, s.(holder := Nobody, cons := s.cons[i := Waiting]);
    } else {
      ghost var slot;
      r, slot := server.Get();
      waits, s' := false, s.(queue := s.queue - multiset{r}, cons := s.cons[i := Signalling(r)]);
      assert IsSmallest(r, s.queue);
    }
  }
}
