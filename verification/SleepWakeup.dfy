/** sleep, wakeup and kill of kernel/proc.c as a protocol: any number of processes on any number
    of CPUs, one step between any two lock operations or stores to the process table. */
module SleepWakeup {

  /** Lock 0 is ptable.lock. */
  const PTABLE := 0

  datatype Holder = Nobody | Proc(p: nat) | Scheduler

  datatype RunState = Running | Sleeping | Runnable

  /** Where a process is on its way from acquiring lk, through any number of sleeps
      until its condition holds, to releasing lk. */
  datatype SleepPoint =
    | Enter      // about to acquire lk
    | Test       // holds lk, about to test the condition
    | TakePt     // in sleep, about to acquire ptable.lock
    | DropLk     // holds both, about to release lk
    | Mark       // holds ptable.lock, about to set chan and state
    | Switch     // marked SLEEPING, about to call sched
    | Off        // switched away
    | Tidy       // resumed, holding ptable.lock, about to clear chan
    | DropPt     // about to release ptable.lock
    | Leave      // condition seen true, about to release lk

  /** Where a process is on its way from acquiring lk, through changing the condition
      and wakeup, to releasing lk. */
  datatype WakePoint =
    | Want       // about to acquire lk
    | Change     // holds lk, changes the condition
    | Scan       // holds ptable.lock, at table entry i of wakeup1
    | Finish     // the scan is over; about to release ptable.lock
    | Done       // wakeup has returned; about to release lk

  /** A waker remembers the sleeps it owes a wakeup: process and number of its sleep call. */
  datatype Pc = Idle | Sleeper(sp: SleepPoint) | Waker(wp: WakePoint, i: nat, owed: set<(nat, nat)>)

  /** `want` is the channel the process is working with and `lk` the lock it does so under, both
      chosen anew for each use: buffers are waited for under two different locks. `chan` is the
      field in the process table; `calls` counts the sleep calls. */
  datatype Process = Process(pc: Pc, want: nat, lk: nat, state: RunState, chan: nat, calls: nat)

  datatype State = State(procs: seq<Process>, locks: map<nat, Holder>)

  function Lock(s: State, l: nat): Holder {
    if l in s.locks then s.locks[l] else Nobody
  }

  // ----- steps -----

  function SetProc(s: State, p: nat, q: Process): State
    requires p < |s.procs|
  {
    s.(procs := s.procs[p := q])
  }

  function SetLock(s: State, l: nat, h: Holder): State {
    s.(locks := s.locks[l := h])
  }

  function At(q: Process, sp: SleepPoint): Process {
    q.(pc := Sleeper(sp))
  }

  /** A sleep on c that has tested its condition and has not been woken since. */
  predicate Unwoken(q: Process, c: nat) {
    && q.pc.Sleeper? && q.want == c
    && (q.pc.sp.TakePt? || q.pc.sp.DropLk? || q.pc.sp.Mark?
        || ((q.pc.sp.Switch? || q.pc.sp.Off?) && q.state == Sleeping))
  }

  /** The sleeps on c, under the lock lk, that are waiting for a wakeup now. */
  function OwedNow(s: State, c: nat, lk: nat): set<(nat, nat)> {
    set p | 0 <= p < |s.procs| && Unwoken(s.procs[p], c) && s.procs[p].lk == lk :: (p, s.procs[p].calls)
  }

  /** One step of a process that is inside the sleeping side. */
  ghost predicate SleepStep(s: State, s': State, p: nat)
    requires p < |s.procs| && s.procs[p].pc.Sleeper?
  {
    var q := s.procs[p];
    var lk := q.lk;
    match q.pc.sp
    case Enter => Lock(s, lk) == Nobody && s' == SetLock(SetProc(s, p, At(q, Test)), lk, Proc(p))
    case Test =>
      || s' == SetProc(s, p, At(q, Leave))
      || s' == SetProc(s, p, At(q, if lk == PTABLE then Mark else TakePt).(calls := q.calls + 1))
    case TakePt => Lock(s, PTABLE) == Nobody && s' == SetLock(SetProc(s, p, At(q, DropLk)), PTABLE, Proc(p))
    case DropLk => s' == SetLock(SetProc(s, p, At(q, Mark)), lk, Nobody)
    case Mark => s' == SetProc(s, p, At(q, Switch).(chan := q.want, state := Sleeping))
    case Switch => s' == SetLock(SetProc(s, p, At(q, Off)), PTABLE, Scheduler)
    case Off => false
    case Tidy => s' == SetProc(s, p, At(q, if lk == PTABLE then Test else DropPt).(chan := 0))
    case DropPt => s' == SetLock(SetProc(s, p, At(q, Enter)), PTABLE, Nobody)
    case Leave => s' == SetLock(SetProc(s, p, q.(pc := Idle)), lk, Nobody)
  }

  /** The body of the wakeup1 loop for one table entry. */
  function Woken(s: State, i: nat, c: nat): (r: State)
    requires i < |s.procs|
    ensures |r.procs| == |s.procs|
  {
    var t := s.procs[i];
    if t.state == Sleeping && t.chan == c then SetProc(s, i, t.(state := Runnable)) else s
  }

  /** One step of a process that is inside the waking side. */
  ghost predicate WakeStep(s: State, s': State, p: nat)
    requires p < |s.procs| && s.procs[p].pc.Waker?
  {
    var q := s.procs[p];
    var lk := q.lk;
    match q.pc.wp
    case Want =>
      Lock(s, lk) == Nobody && s' == SetLock(SetProc(s, p, q.(pc := Waker(Change, 0, OwedNow(s, q.want, lk)))), lk, Proc(p))
    case Change =>
      if lk == PTABLE then s' == SetProc(s, p, q.(pc := q.pc.(wp := Scan)))
      else Lock(s, PTABLE) == Nobody && s' == SetLock(SetProc(s, p, q.(pc := q.pc.(wp := Scan))), PTABLE, Proc(p))
    case Scan =>
      if q.pc.i == |s.procs| then s' == SetProc(s, p, q.(pc := q.pc.(wp := Finish)))
      else
        q.pc.i < |s.procs| &&
        s' == SetProc(Woken(s, q.pc.i, q.want), p, q.(pc := q.pc.(i := q.pc.i + 1)))
    case Finish =>
      if lk == PTABLE then s' == SetProc(s, p, q.(pc := q.pc.(wp := Done)))
      else s' == SetLock(SetProc(s, p, q.(pc := q.pc.(wp := Done))), PTABLE, Nobody)
    case Done => s' == SetLock(SetProc(s, p, q.(pc := Idle)), lk, Nobody)
  }

  ghost predicate Next(s: State, s': State) {
    || (exists p :: 0 <= p < |s.procs| && s.procs[p].pc.Sleeper? && SleepStep(s, s', p))
    || (exists p :: 0 <= p < |s.procs| && s.procs[p].pc.Waker? && WakeStep(s, s', p))
    || (exists p, c: nat, lk: nat :: 0 <= p < |s.procs| && s.procs[p].pc == Idle && Begin(s, s', p, c, lk))
    || (exists p :: 0 <= p < |s.procs| && SchedulerStep(s, s', p))
    || (exists p :: 0 <= p < |s.procs| && KillStep(s, s', p))
  }

  /** An idle process turns to some channel under some lock, to sleep on it or to wake it. */
  ghost predicate Begin(s: State, s': State, p: nat, c: nat, lk: nat)
    requires p < |s.procs|
  {
    || s' == SetProc(s, p, At(s.procs[p], Enter).(want := c, lk := lk))
    || s' == SetProc(s, p, s.procs[p].(pc := Waker(Want, 0, {}), want := c, lk := lk))
  }

  /** A scheduler takes or drops ptable.lock, or switches to a runnable process. */
  ghost predicate SchedulerStep(s: State, s': State, p: nat)
    requires p < |s.procs|
  {
    || (Lock(s, PTABLE) == Nobody && s' == SetLock(s, PTABLE, Scheduler))
    || (Lock(s, PTABLE) == Scheduler && s' == SetLock(s, PTABLE, Nobody))
    || (Lock(s, PTABLE) == Scheduler && s.procs[p].pc == Sleeper(Off) && s.procs[p].state == Runnable
        && s' == SetLock(SetProc(s, p, At(s.procs[p], Tidy).(state := Running)), PTABLE, Proc(p)))
  }

  /** kill, inside its critical section: a sleeping process is made runnable. */
  ghost predicate KillStep(s: State, s': State, p: nat)
    requires p < |s.procs|
  {
    Lock(s, PTABLE) == Nobody && s.procs[p].state == Sleeping && s' == SetProc(s, p, s.procs[p].(state := Runnable))
  }

  ghost predicate Init(s: State) {
    s.locks == map[] && forall p :: 0 <= p < |s.procs| ==> s.procs[p].pc == Idle && s.procs[p].state == Running
  }

  // ----- the invariant -----

  /** Which locks a process holds, by its program point. */
  predicate Owns(q: Process, l: nat) {
    || (l == q.lk && q.pc.Sleeper? && (q.pc.sp.Test? || q.pc.sp.TakePt? || q.pc.sp.DropLk? || q.pc.sp.Leave?))
    || (l == q.lk && q.pc.Waker? && !q.pc.wp.Want?)
    || (l == PTABLE && q.pc.Sleeper? && (q.pc.sp.DropLk? || q.pc.sp.Mark? || q.pc.sp.Switch? || q.pc.sp.Tidy? || q.pc.sp.DropPt?))
    || (l == PTABLE && q.pc.Waker? && (q.pc.wp.Scan? || q.pc.wp.Finish?))
  }

  ghost predicate Exclusive(s: State) {
    forall p, l :: 0 <= p < |s.procs| ==> (Lock(s, l) == Proc(p) <==> Owns(s.procs[p], l))
  }

  /** The table entry of a process agrees with its program point. */
  predicate Sane(q: Process) {
    && (q.state == Sleeping ==> q.pc.Sleeper? && (q.pc.sp.Switch? || q.pc.sp.Off?) && q.chan == q.want)
    && (q.pc == Sleeper(Switch) ==> q.state == Sleeping)
    && (q.state == Runnable ==> q.pc == Sleeper(Off))
    && (q.pc.Waker? && q.pc.wp.Change? ==> q.pc.i == 0)
    && (q.pc.Sleeper? && (q.pc.sp.TakePt? || q.pc.sp.DropLk? || q.pc.sp.DropPt?) ==> q.lk != PTABLE)
  }

  /** A sleep call that a waker owes is over, or still to be reached by the waker's scan. */
  predicate Handled(s: State, w: Process, p: nat, k: nat) {
    && w.pc.Waker? && p < |s.procs| && k <= s.procs[p].calls
    && (s.procs[p].calls == k && Unwoken(s.procs[p], s.procs[p].want) ==>
        s.procs[p].want == w.want && (w.pc.wp.Change? || (w.pc.wp.Scan? && w.pc.i <= p)) && !s.procs[p].pc.sp.TakePt? && !s.procs[p].pc.sp.DropLk?)
  }

  ghost predicate WakesOwed(s: State) {
    forall w, p, k: nat :: 0 <= w < |s.procs| && s.procs[w].pc.Waker? && (p, k) in s.procs[w].pc.owed ==>
      Handled(s, s.procs[w], p, k)
  }

  ghost predicate Inv(s: State) {
    Exclusive(s) && AllSane(s) && WakesOwed(s)
  }

  ghost predicate AllSane(s: State) {
    forall p :: 0 <= p < |s.procs| ==> Sane(s.procs[p])
  }

  /** No missed wakeup: once a waker's scan is over, no sleep call that had tested its
      condition before the waker took the lock is still asleep. */
  lemma NoMissedWakeup(s: State, w: nat, p: nat, k: nat)
    requires Inv(s) && w < |s.procs| && s.procs[w].pc.Waker? && (s.procs[w].pc.wp.Finish? || s.procs[w].pc.wp.Done?)
    requires (p, k) in s.procs[w].pc.owed
    ensures p < |s.procs| && !(s.procs[p].calls == k && s.procs[p].state == Sleeping)
  {
    assert Handled(s, s.procs[w], p, k);
    assert Sane(s.procs[p]);
  }

  /** ptable.lock and every other lock is held by at most one process, and a process switches
      away only while holding ptable.lock and no longer RUNNING. */
  lemma SwitchesSafely(s: State, p: nat, q: nat, l: nat)
    requires Inv(s) && p < |s.procs| && q < |s.procs|
    ensures Owns(s.procs[p], l) && Owns(s.procs[q], l) ==> p == q
    ensures s.procs[p].pc == Sleeper(Switch) ==> Lock(s, PTABLE) == Proc(p) && s.procs[p].state == Sleeping
  {
    assert Sane(s.procs[p]);
    assert Owns(s.procs[p], l) ==> Lock(s, l) == Proc(p);
    assert Owns(s.procs[q], l) ==> Lock(s, l) == Proc(q);
  }

  lemma InitInv(s: State)
    requires Init(s)
    ensures Inv(s)
  {
  }

  // ----- every step keeps it -----

  /** A step of one process: locks change only between "free" and "held by p", in line with
      p's program point, and no other process moves to or from a point that holds a lock. */
  lemma KeepsExclusive(s: State, s': State, p: nat)
    requires Exclusive(s) && p < |s.procs| == |s'.procs|
    requires forall q :: 0 <= q < |s.procs| && q != p ==> s'.procs[q].pc == s.procs[q].pc && s'.procs[q].lk == s.procs[q].lk
    requires forall l ::
      || (Lock(s', l) == Lock(s, l) && (Owns(s'.procs[p], l) <==> Owns(s.procs[p], l)))
      || (!Lock(s, l).Proc? && Lock(s', l) == Proc(p) && Owns(s'.procs[p], l))
      || (Lock(s, l) == Proc(p) && !Lock(s', l).Proc? && !Owns(s'.procs[p], l))
      || (!Lock(s, l).Proc? && !Lock(s', l).Proc? && !Owns(s'.procs[p], l))
    ensures Exclusive(s')
  {
    forall q, l | 0 <= q < |s'.procs| ensures Lock(s', l) == Proc(q) <==> Owns(s'.procs[q], l) {
      assert Lock(s, l) == Proc(q) <==> Owns(s.procs[q], l);
      assert Lock(s, l) == Proc(p) <==> Owns(s.procs[p], l);
      if q != p {
        assert Owns(s'.procs[q], l) <==> Owns(s.procs[q], l);
      }
    }
  }

  lemma SleepKeepsExclusive(s: State, s': State, p: nat)
    requires Inv(s) && p < |s.procs| && s.procs[p].pc.Sleeper? && SleepStep(s, s', p)
    ensures Exclusive(s')
  {
    assert Sane(s.procs[p]);
    var lk := s.procs[p].lk;
    assert Lock(s, lk) == Proc(p) <==> Owns(s.procs[p], lk);
    assert Lock(s, PTABLE) == Proc(p) <==> Owns(s.procs[p], PTABLE);
    KeepsExclusive(s, s', p);
  }

  lemma SleepKeepsSane(s: State, s': State, p: nat)
    requires Inv(s) && p < |s.procs| && s.procs[p].pc.Sleeper? && SleepStep(s, s', p)
    ensures AllSane(s')
  {
    assert Sane(s.procs[p]);
  }

  lemma SleepKeepsWakes(s: State, s': State, p: nat)
    requires Inv(s) && p < |s.procs| && s.procs[p].pc.Sleeper? && SleepStep(s, s', p)
    ensures WakesOwed(s')
  {
    assert Sane(s.procs[p]);
    forall w, q, k: nat | 0 <= w < |s'.procs| && s'.procs[w].pc.Waker? && (q, k) in s'.procs[w].pc.owed
      ensures Handled(s', s'.procs[w], q, k)
    {
      assert s'.procs[w] == s.procs[w];
      assert Handled(s, s.procs[w], q, k);
    }
  }

  lemma WakeKeepsExclusive(s: State, s': State, p: nat)
    requires Inv(s) && p < |s.procs| && s.procs[p].pc.Waker? && WakeStep(s, s', p)
    ensures Exclusive(s')
  {
    var lk := s.procs[p].lk;
    assert Lock(s, lk) == Proc(p) <==> Owns(s.procs[p], lk);
    assert Lock(s, PTABLE) == Proc(p) <==> Owns(s.procs[p], PTABLE);
    KeepsExclusive(s, s', p);
  }

  /** Nobody but the holder of ptable.lock is between marking itself and switching away. */
  lemma AsleepIsOff(s: State, q: nat)
    requires Inv(s) && q < |s.procs| && Lock(s, PTABLE) != Proc(q) && s.procs[q].state == Sleeping
    ensures s.procs[q].pc == Sleeper(Off) && s.procs[q].chan == s.procs[q].want
  {
    assert Sane(s.procs[q]);
    assert Lock(s, PTABLE) == Proc(q) <==> Owns(s.procs[q], PTABLE);
  }

  lemma WakeKeepsSane(s: State, s': State, p: nat)
    requires Inv(s) && p < |s.procs| && s.procs[p].pc.Waker? && WakeStep(s, s', p)
    ensures AllSane(s')
  {
    assert Sane(s.procs[p]);
    var i := s.procs[p].pc.i;
    if s.procs[p].pc.wp.Scan? && i < |s.procs| && s.procs[i].state == Sleeping {
      assert Lock(s, PTABLE) == Proc(p) <==> Owns(s.procs[p], PTABLE);
      AsleepIsOff(s, i);
    }
  }

  lemma WakeKeepsWakes(s: State, s': State, p: nat)
    requires Inv(s) && p < |s.procs| && s.procs[p].pc.Waker? && WakeStep(s, s', p)
    ensures WakesOwed(s')
  {
    forall w, q, k: nat | 0 <= w < |s'.procs| && s'.procs[w].pc.Waker? && (q, k) in s'.procs[w].pc.owed
      ensures Handled(s', s'.procs[w], q, k)
    {
      WakeFrame(s, s', p, w);
      if w != p {
        OthersWakes(s, s', p, w, q, k);
      } else {
        OwnWakes(s, s', p, q, k);
      }
    }
  }

  lemma OthersWakes(s: State, s': State, p: nat, w: nat, q: nat, k: nat)
    requires Inv(s) && p < |s.procs| && s.procs[p].pc.Waker? && WakeStep(s, s', p)
    requires w < |s.procs| == |s'.procs| && w != p && s.procs[w].pc.Waker? && s'.procs[w].pc == s.procs[w].pc
    requires (q, k) in s.procs[w].pc.owed
    ensures Handled(s', s'.procs[w], q, k)
  {
    assert Handled(s, s.procs[w], q, k);
    WakeFrame(s, s', p, q);
    WakeFrame(s, s', p, w);
    hide Inv, WakeStep;
  }

  lemma OwnWakes(s: State, s': State, p: nat, q: nat, k: nat)
    requires Inv(s) && p < |s.procs| == |s'.procs| && s.procs[p].pc.Waker? && WakeStep(s, s', p)
    requires s'.procs[p].pc.Waker? && (q, k) in s'.procs[p].pc.owed
    ensures Handled(s', s'.procs[p], q, k)
  {
    assert Sane(s.procs[p]);
    if s.procs[p].pc.wp.Want? {
      FreshlyOwed(s, p, q);
    } else {
      assert Handled(s, s.procs[p], q, k);
      WakeFrame(s, s', p, q);
      if s.procs[p].pc.wp.Scan? && s.procs[p].pc.i <= q && s.procs[q].want == s.procs[p].want {
        ScanWakes(s, s', p, q);
      }
    }
  }

  /** A waker's step touches another process only by waking it. */
  lemma WakeFrame(s: State, s': State, p: nat, q: nat)
    requires Inv(s) && p < |s.procs| && q < |s.procs| && s.procs[p].pc.Waker? && WakeStep(s, s', p)
    ensures |s'.procs| == |s.procs| && s'.procs[q].calls == s.procs[q].calls && s'.procs[q].want == s.procs[q].want
    ensures q != p ==> s'.procs[q].pc == s.procs[q].pc && (s'.procs[q].state == s.procs[q].state || s'.procs[q].state == Runnable)
    ensures s'.procs[p].pc.Waker? || s'.procs[p].pc.Idle?
  {
    assert Sane(s.procs[p]);
  }

  /** When the waker takes the lock of the condition, no sleeper is between its test and
      holding ptable.lock. */
  lemma FreshlyOwed(s: State, p: nat, q: nat)
    requires Inv(s) && p < |s.procs| && q < |s.procs| && Lock(s, s.procs[p].lk) == Nobody
    ensures Unwoken(s.procs[q], s.procs[p].want) && s.procs[q].lk == s.procs[p].lk ==> !s.procs[q].pc.sp.TakePt? && !s.procs[q].pc.sp.DropLk?
  {
    var lk := s.procs[p].lk;
    assert Lock(s, lk) == Proc(q) <==> Owns(s.procs[q], lk);
  }

  /** The scan passes no process that sleeps on its channel without waking it. A process that is
      still on its way to ptable.lock tested its condition under another lock. */
  lemma ScanWakes(s: State, s': State, p: nat, q: nat)
    requires Inv(s) && p < |s.procs| && q < |s.procs| && s.procs[p].pc.Waker? && s.procs[p].pc.wp.Scan? && WakeStep(s, s', p)
    requires s.procs[p].pc.i <= q && s.procs[q].want == s.procs[p].want
    ensures Unwoken(s'.procs[q], s.procs[p].want) && !s.procs[q].pc.sp.TakePt? && !s.procs[q].pc.sp.DropLk? ==>
      s'.procs[p].pc.Waker? && s'.procs[p].pc.wp.Scan? && s'.procs[p].pc.i <= q
  {
    assert Sane(s.procs[p]);
    assert Sane(s.procs[q]);
    assert Lock(s, PTABLE) == Proc(p) <==> Owns(s.procs[p], PTABLE);
    assert Lock(s, PTABLE) == Proc(q) <==> Owns(s.procs[q], PTABLE);
    var lk := s.procs[p].lk;
    assert Lock(s, lk) == Proc(p) <==> Owns(s.procs[p], lk);
    assert Lock(s, lk) == Proc(q) <==> Owns(s.procs[q], lk);
  }

  lemma OtherKeepsExclusive(s: State, s': State, p: nat, c: nat, lk: nat)
    requires Inv(s) && p < |s.procs|
    requires (s.procs[p].pc == Idle && Begin(s, s', p, c, lk)) || SchedulerStep(s, s', p) || KillStep(s, s', p)
    ensures Exclusive(s')
  {
    assert Lock(s, PTABLE) == Proc(p) <==> Owns(s.procs[p], PTABLE);
    KeepsExclusive(s, s', p);
  }

  lemma OtherKeepsInv(s: State, s': State, p: nat, c: nat, lk: nat)
    requires Inv(s) && p < |s.procs|
    requires (s.procs[p].pc == Idle && Begin(s, s', p, c, lk)) || SchedulerStep(s, s', p) || KillStep(s, s', p)
    ensures Inv(s')
  {
    OtherKeepsExclusive(s, s', p, c, lk);
    assert Sane(s.procs[p]);
    if s.procs[p].state == Sleeping && Lock(s, PTABLE) == Nobody {
      AsleepIsOff(s, p);
    }
    assert AllSane(s');
    forall w, q, k: nat | 0 <= w < |s'.procs| && s'.procs[w].pc.Waker? && (q, k) in s'.procs[w].pc.owed
      ensures Handled(s', s'.procs[w], q, k)
    {
      assert s'.procs[w] == s.procs[w];
      assert Handled(s, s.procs[w], q, k);
    }
  }

  lemma NextKeepsInv(s: State, s': State)
    requires Inv(s) && Next(s, s')
    ensures Inv(s')
  {
    hide Inv, SleepStep, WakeStep, Begin, SchedulerStep, KillStep;
    if p :| 0 <= p < |s.procs| && s.procs[p].pc.Sleeper? && SleepStep(s, s', p) {
      SleepKeepsInv(s, s', p);
    } else if p :| 0 <= p < |s.procs| && s.procs[p].pc.Waker? && WakeStep(s, s', p) {
      WakeKeepsInv(s, s', p);
    } else if p, c: nat, lk: nat :| 0 <= p < |s.procs| && s.procs[p].pc == Idle && Begin(s, s', p, c, lk) {
      OtherKeepsInv(s, s', p, c, lk);
    } else if p :| 0 <= p < |s.procs| && SchedulerStep(s, s', p) {
      OtherKeepsInv(s, s', p, 0, 0);
    } else {
      var p :| 0 <= p < |s.procs| && KillStep(s, s', p);
      OtherKeepsInv(s, s', p, 0, 0);
    }
  }

  lemma SleepKeepsInv(s: State, s': State, p: nat)
    requires Inv(s) && p < |s.procs| && s.procs[p].pc.Sleeper? && SleepStep(s, s', p)
    ensures Inv(s')
  {
    SleepKeepsExclusive(s, s', p);
    SleepKeepsSane(s, s', p);
    SleepKeepsWakes(s, s', p);
  }

  lemma WakeKeepsInv(s: State, s': State, p: nat)
    requires Inv(s) && p < |s.procs| && s.procs[p].pc.Waker? && WakeStep(s, s', p)
    ensures Inv(s')
  {
    WakeKeepsExclusive(s, s', p);
    WakeKeepsSane(s, s', p);
    WakeKeepsWakes(s, s', p);
  }

  // ----- whole runs -----

  ghost predicate Run(run: seq<State>) {
    run != [] && Init(run[0]) && forall i :: 0 < i < |run| ==> Next(run[i - 1], run[i])
  }

  /** Every state of every interleaving satisfies the invariant, hence NoMissedWakeup. */
  lemma {:induction false} RunInv(run: seq<State>)
    requires Run(run)
    ensures Inv(run[|run| - 1])
  {
    hide Inv, Next, Init;
    var n := |run| - 1;
    if n == 0 {
      InitInv(run[0]);
    } else {
      PrefixRun(run);
      RunInv(run[..n]);
      NextKeepsInv(run[n - 1], run[n]);
    }
  }

  lemma PrefixRun(run: seq<State>)
    requires Run(run) && |run| > 1
    ensures Run(run[..|run| - 1]) && Next(run[|run| - 2], run[|run| - 1])
  {
    hide Next, Init;
  }

  // ----- the scans over the process table -----

  class ProcTable {
    const pid: array<int>
    const state: array<RunState>
    const chan: array<nat>
    const killed: array<bool>

    ghost predicate Valid() {
      pid.Length == state.Length == chan.Length == killed.Length
    }

    /** wakeup1: exactly the sleepers on this channel become runnable. */
    method Wakeup1(c: nat)
      requires Valid()
      modifies state
      ensures state[..] == Roused(old(state[..]), old(chan[..]), c)
    {
      var i := 0;
      while i < state.Length
        invariant 0 <= i <= state.Length
        invariant forall j :: 0 <= j < i ==> state[j] == Rouse(old(state[j]), chan[j], c)
        invariant forall j :: i <= j < state.Length ==> state[j] == old(state[j])
      {
        if state[i] == Sleeping && chan[i] == c {
          state[i] := Runnable;
        }
        i := i + 1;
      }
    }

    /** kill: the first entry with this pid is marked, and made runnable if it sleeps. */
    method Kill(id: int) returns (r: int)
      requires Valid() && killed != state as object
      modifies state, killed
      ensures r == -1 <==> id !in pid[..]
      ensures r == -1 ==> state[..] == old(state[..]) && killed[..] == old(killed[..])
      ensures r != -1 ==> r == 0 && var i := First(pid[..], id);
        && killed[..] == old(killed[..])[i := true]
        && state[..] == if old(state[..])[i] == Sleeping then old(state[..])[i := Runnable] else old(state[..])
    {
      var i := 0;
      while i < pid.Length
        invariant 0 <= i <= pid.Length && forall k :: 0 <= k < i ==> pid[k] != id
        invariant state[..] == old(state[..]) && killed[..] == old(killed[..])
      {
        if pid[i] == id {
          assert pid[..][i] == id;
          killed[i] := true;
          if state[i] == Sleeping {
            state[i] := Runnable;
          }
          return 0;
        }
        i := i + 1;
      }
      return -1;
    }
  }

  function Rouse(st: RunState, chan: nat, c: nat): RunState {
    if st == Sleeping && chan == c then Runnable else st
  }

  /** The state column after waking channel c. */
  function Roused(states: seq<RunState>, chans: seq<nat>, c: nat): (r: seq<RunState>)
    requires |states| == |chans|
    ensures |r| == |states|
  {
    seq(|states|, i requires 0 <= i < |states| => Rouse(states[i], chans[i], c))
  }

  /** Index of the first occurrence. */
  function First(s: seq<int>, x: int): (r: nat)
    requires x in s
    ensures r < |s| && s[r] == x && forall k :: 0 <= k < r ==> s[k] != x
  {
    if s[0] == x then 0 else 1 + First(s[1..], x)
  }

  /** wakeup wakes whoever sleeps on the channel, and nobody else. */
  lemma RousedExactly(states: seq<RunState>, chans: seq<nat>, c: nat, i: nat)
    requires |states| == |chans| && i < |states|
    ensures states[i] == Sleeping && chans[i] == c ==> Roused(states, chans, c)[i] == Runnable
    ensures !(states[i] == Sleeping && chans[i] == c) ==> Roused(states, chans, c)[i] == states[i]
    ensures !(Roused(states, chans, c)[i] == Sleeping && chans[i] == c)
  {
  }
}
