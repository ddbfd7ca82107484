/** Admission control and one round of the lottery scheduler (simple shell/xv6/kernel/sysproc.c
    and proc.c). */
module Lottery {
  import opened Sets

  const NPROC := 64
  const DRAWS := 200  // random() % 200

  datatype Proc = Proc(runnable: bool, rpercent: int, spotbid: int, numofused: int, runningtime: int, charge: int, tcharge: int)

  predicate Reserve(p: Proc) { p.runnable && p.rpercent > 0 }
  predicate SpotProc(p: Proc) { p.runnable && p.rpercent == 0 }

  // ----- reservations over all slots -----

  function Reserved(ps: seq<Proc>): int {
    if ps == [] then 0 else Reserved(ps[..|ps| - 1]) + ps[|ps| - 1].rpercent
  }

  /** Tickets of the runnable reserve processes. */
  function Tickets(ps: seq<Proc>): (t: int)
    ensures (forall p :: p in ps ==> p.rpercent >= 0) ==> t >= 0
  {
    if ps == [] then 0
    else Tickets(ps[..|ps| - 1]) + if Reserve(ps[|ps| - 1]) then ps[|ps| - 1].rpercent else 0
  }

  ghost predicate NonNegative(ps: seq<Proc>) {
    forall i :: 0 <= i < |ps| ==> ps[i].rpercent >= 0
  }

  /** What admission control maintains. */
  ghost predicate Admitted(ps: seq<Proc>, totalpercent: int) {
    && NonNegative(ps) && 0 <= totalpercent
    && Reserved(ps) <= totalpercent && Reserved(ps) <= DRAWS
  }

  lemma {:induction false} ReservedUpdate(ps: seq<Proc>, i: nat, p: Proc)
    requires i < |ps|
    ensures Reserved(ps[i := p]) == Reserved(ps) - ps[i].rpercent + p.rpercent
  {
    var n := |ps| - 1;
    if i == n {
      assert ps[i := p][..n] == ps[..n];
    } else {
      assert ps[i := p][..n] == ps[..n][i := p];
      ReservedUpdate(ps[..n], i, p);
    }
  }

  lemma {:induction false} TicketsAtMost(ps: seq<Proc>)
    requires NonNegative(ps)
    ensures 0 <= Tickets(ps) <= Reserved(ps)
  {
    if ps != [] {
      TicketsAtMost(ps[..|ps| - 1]);
    }
  }

  lemma {:induction false} TicketsPrefix(ps: seq<Proc>, i: nat)
    requires NonNegative(ps) && i <= |ps|
    ensures Tickets(ps[..i]) <= Tickets(ps)
  {
    if i < |ps| {
      var n := |ps| - 1;
      TicketsPrefix(ps[..n], i);
      assert ps[..n][..i] == ps[..i];
    } else {
      assert ps[..i] == ps;
    }
  }

  // ----- the calls, and whole runs of them -----

  /** sys_reserve and sys_spot of process `who`; Turn covers everything else that happens to a slot. */
  datatype Call = ReserveCall(who: nat, n: int) | SpotCall(who: nat, n: int) | Turn(who: nat, runnable: bool)
  datatype System = System(ps: seq<Proc>, totalpercent: int)

  function Apply(s: System, c: Call): System {
    if c.who >= |s.ps| then s
    else match c
      case ReserveCall(i, n) =>
        if n < 0 || n > 100 then s
        else if s.totalpercent + n > DRAWS then s.(totalpercent := s.totalpercent + n)
        else System(s.ps[i := s.ps[i].(spotbid := 0, rpercent := n)], s.totalpercent + n)
      case SpotCall(i, n) => s.(ps := s.ps[i := s.ps[i].(rpercent := 0, spotbid := n)])
      case Turn(i, on) => s.(ps := s.ps[i := s.ps[i].(runnable := on)])
  }

  function Run(s: System, calls: seq<Call>): System {
    if calls == [] then s else Apply(Run(s, calls[..|calls| - 1]), calls[|calls| - 1])
  }

  lemma ApplyKeeps(s: System, c: Call)
    requires Admitted(s.ps, s.totalpercent)
    ensures var t := Apply(s, c); |t.ps| == |s.ps| && Admitted(t.ps, t.totalpercent) && t.totalpercent >= s.totalpercent
  {
    var i := c.who;
    if i < |s.ps| {
      ReservedUpdate(s.ps, i, Apply(s, c).ps[i]);
      assert Apply(s, c).ps == s.ps[i := Apply(s, c).ps[i]];
    }
  }

  /** Over every run, no more than all draws are ever reserved. */
  lemma {:induction false} RunKeeps(s: System, calls: seq<Call>)
    requires Admitted(s.ps, s.totalpercent)
    ensures var t := Run(s, calls); |t.ps| == |s.ps| && Admitted(t.ps, t.totalpercent)
  {
    if calls != [] {
      RunKeeps(s, calls[..|calls| - 1]);
      ApplyKeeps(Run(s, calls[..|calls| - 1]), calls[|calls| - 1]);
    }
  }

  /** A request refused for lack of room still counts: from then on every request is refused. */
  lemma {:induction false} RefusedForEver(s: System, calls: seq<Call>)
    requires Admitted(s.ps, s.totalpercent) && s.totalpercent > DRAWS
    ensures Run(s, calls).totalpercent > DRAWS && Reserved(Run(s, calls).ps) <= Reserved(s.ps)
  {
    if calls != [] {
      var t := Run(s, calls[..|calls| - 1]);
      var c := calls[|calls| - 1];
      RefusedForEver(s, calls[..|calls| - 1]);
      RunKeeps(s, calls[..|calls| - 1]);
      ApplyKeeps(t, c);
      if c.who < |t.ps| {
        ReservedUpdate(t.ps, c.who, Apply(t, c).ps[c.who]);
        assert Apply(t, c).ps == t.ps[c.who := Apply(t, c).ps[c.who]];
      }
    }
  }

  // ----- the winner of a round -----

  /** Process i holds the draw among the reserve tickets. */
  predicate HoldsDraw(ps: seq<Proc>, i: nat, draw: int)
    requires i < |ps|
  {
    Reserve(ps[i]) && Tickets(ps[..i]) <= draw < Tickets(ps[..i]) + ps[i].rpercent
  }

  ghost predicate HighestBid(ps: seq<Proc>, b: int) {
    && b >= 0 && (forall i :: 0 <= i < |ps| && SpotProc(ps[i]) ==> ps[i].spotbid <= b)
    && (b > 0 ==> exists i :: 0 <= i < |ps| && SpotProc(ps[i]) && ps[i].spotbid == b)
  }

  ghost predicate NoReserveFrom(ps: seq<Proc>, i: nat) {
    forall j :: i <= j < |ps| ==> !Reserve(ps[j])
  }

  /** Process i takes a draw above all tickets: it offers the highest bid and stands behind the
      last reserve process, before any other such process. */
  ghost predicate TakesSpot(ps: seq<Proc>, i: nat, draw: int, b: int)
    requires i < |ps|
  {
    && SpotProc(ps[i]) && ps[i].spotbid == b && Tickets(ps) < draw && NoReserveFrom(ps, i)
    && forall j :: 0 <= j < i && SpotProc(ps[j]) && ps[j].spotbid == b ==> !NoReserveFrom(ps, j)
  }

  ghost predicate Wins(ps: seq<Proc>, i: nat, draw: int, b: int)
    requires i < |ps|
  {
    HoldsDraw(ps, i, draw) || TakesSpot(ps, i, draw, b)
  }

  /** At most one process wins. */
  lemma OneWinner(ps: seq<Proc>, i: nat, j: nat, draw: int, b: int)
    requires NonNegative(ps) && i < j < |ps|
    ensures !(Wins(ps, i, draw, b) && Wins(ps, j, draw, b))
  {
    TicketsPrefix(ps, i + 1);
    TicketsPrefix(ps, j + 1);
    assert ps[..i + 1][..i] == ps[..i] && ps[..j + 1][..j] == ps[..j];
    TicketsPrefix(ps[..j], i + 1);
    assert ps[..j][..i + 1] == ps[..i + 1];
  }

  /** The draws for which process i is dispatched. */
  ghost function WinningDraws(ps: seq<Proc>, i: nat): set<int>
    requires i < |ps|
  {
    set d | 0 <= d < DRAWS && HoldsDraw(ps, i, d)
  }

  /** Every runnable reserve process wins for exactly rpercent of the 200 draws. */
  lemma FairShare(ps: seq<Proc>, i: nat, totalpercent: int)
    requires Admitted(ps, totalpercent) && i < |ps| && Reserve(ps[i])
    ensures |WinningDraws(ps, i)| == ps[i].rpercent
  {
    var a := Tickets(ps[..i]);
    TicketsPrefix(ps, i + 1);
    assert ps[..i + 1][..i] == ps[..i];
    TicketsAtMost(ps[..i]);
    TicketsAtMost(ps);
    RangeSize(a, ps[i].rpercent);
    hide Tickets, Reserved;
    assert WinningDraws(ps, i) == Range(a, ps[i].rpercent);
  }

  /** A draw below the tickets always finds its holder. */
  lemma {:induction false} SomeoneHolds(ps: seq<Proc>, draw: int) returns (i: nat)
    requires NonNegative(ps) && 0 <= draw < Tickets(ps)
    ensures i < |ps| && HoldsDraw(ps, i, draw)
  {
    var n := |ps| - 1;
    if draw < Tickets(ps[..n]) {
      i := SomeoneHolds(ps[..n], draw);
      assert ps[..n][..i] == ps[..i];
    } else {
      i := n;
    }
  }

  /** A draw equal to the number of tickets dispatches nobody, spot bids or not. */
  lemma TieIdles(ps: seq<Proc>, i: nat, b: int)
    requires NonNegative(ps) && i < |ps|
    ensures !Wins(ps, i, Tickets(ps), b)
  {
    TicketsPrefix(ps, i + 1);
    assert ps[..i + 1][..i] == ps[..i];
  }

  /** Exactly the draws that dispatch somebody: those below the tickets, and those above them if
      a process with the highest bid stands behind the last reserve process. */
  lemma SomeoneWins(ps: seq<Proc>, draw: int, b: int)
    requires NonNegative(ps) && 0 <= draw
    ensures (exists i :: 0 <= i < |ps| && Wins(ps, i, draw, b)) <==> Decides(ps, draw, b)
  {
    hide Tickets;
    if draw < Tickets(ps) {
      var i := SomeoneHolds(ps, draw);
      assert Wins(ps, i, draw, b);
    }
    if i :| 0 <= i < |ps| && StandsLast(ps, i, b) && draw > Tickets(ps) {
      var k := FirstStanding(ps, i, b);
      forall j | 0 <= j < k && SpotProc(ps[j]) && ps[j].spotbid == b ensures !NoReserveFrom(ps, j) {
        assert !StandsLast(ps, j, b);
      }
      assert TakesSpot(ps, k, draw, b);
      assert Wins(ps, k, draw, b);
    }
    if i :| 0 <= i < |ps| && Wins(ps, i, draw, b) {
      if HoldsDraw(ps, i, draw) {
        HolderBelow(ps, i, draw);
      } else {
        assert StandsLast(ps, i, b);
      }
    }
  }

  ghost predicate Decides(ps: seq<Proc>, draw: int, b: int) {
    draw < Tickets(ps) || (draw > Tickets(ps) && exists i :: 0 <= i < |ps| && StandsLast(ps, i, b))
  }

  /** A spot process with bid b and no reserve process from it on. */
  ghost predicate StandsLast(ps: seq<Proc>, i: nat, b: int)
    requires i < |ps|
  {
    SpotProc(ps[i]) && ps[i].spotbid == b && NoReserveFrom(ps, i)
  }

  lemma {:induction false} FirstStanding(ps: seq<Proc>, i: nat, b: int) returns (k: nat)
    requires i < |ps| && StandsLast(ps, i, b)
    ensures k < |ps| && StandsLast(ps, k, b)
    ensures forall j :: 0 <= j < k ==> !StandsLast(ps, j, b)
    decreases i
  {
    if j :| 0 <= j < i && StandsLast(ps, j, b) {
      k := FirstStanding(ps, j, b);
    } else {
      k := i;
    }
  }

  lemma HolderBelow(ps: seq<Proc>, i: nat, draw: int)
    requires NonNegative(ps) && i < |ps| && HoldsDraw(ps, i, draw)
    ensures draw < Tickets(ps)
  {
    TicketsPrefix(ps, i + 1);
    assert ps[..i + 1][..i] == ps[..i];
  }

  /** The only bidder stands before the only reserve process: a draw above the tickets is lost. */
  lemma PassedOver(p: Proc)
    ensures var ps := [p.(runnable := true, rpercent := 0, spotbid := 100), p.(runnable := true, rpercent := 50, spotbid := 0)];
      HighestBid(ps, 100) && Tickets(ps) == 50 && forall i, draw :: 0 <= i < 2 && 50 <= draw ==> !Wins(ps, i, draw, 100)
  {
    var ps := [p.(runnable := true, rpercent := 0, spotbid := 100), p.(runnable := true, rpercent := 50, spotbid := 0)];
    assert ps[..1] == [ps[0]] && ps[..1][..0] == [] && ps[..0] == [];
    assert Tickets(ps[..1]) == 0;
    assert Reserve(ps[1]);
  }

  // ----- billing -----

  /** C's division: the remainder has the sign of the dividend. */
  function Quotient(a: int, b: int): (q: int)
    requires b > 0
    ensures a >= 0 ==> 0 <= a - b * q < b
    ensures a <= 0 ==> -b < a - b * q <= 0
  {
    if a >= 0 then a / b else -((-a) / b)
  }

  /** The charge for one slice, and the carry into tcharge. */
  function Billed(p: Proc, fee: int, runnable: bool): Proc {
    var c := p.charge + fee;
    p.(runnable := runnable, numofused := p.numofused + 1, runningtime := p.runningtime + 10,
       charge := if c > 1000 then c % 1000 else c, tcharge := if c > 1000 then p.tcharge + 1 else p.tcharge)
  }

  function Owed(p: Proc): int { 1000 * p.tcharge + p.charge }

  /** One carry is all the code does, so the bill is right below 2000 and short above. */
  lemma BillExact(p: Proc, fee: int, runnable: bool)
    requires p.charge <= 1000
    ensures Billed(p, fee, runnable).charge <= 1000
    ensures Owed(Billed(p, fee, runnable)) == Owed(p) + fee <==> p.charge + fee < 2000
    ensures Owed(Billed(p, fee, runnable)) <= Owed(p) + fee
  {
  }

  /** A reserve slice costs 10, a spot slice a hundredth of the bid held when it ends. */
  function Fee(p: Proc, reserve: bool): int {
    if reserve then 10 else Quotient(p.spotbid, 100)
  }

  // ----- the round -----

  function Count(ps: seq<Proc>): (n: nat) {
    if ps == [] then 0 else Count(ps[..|ps| - 1]) + if Reserve(ps[|ps| - 1]) then 1 else 0
  }

  /** No reserve process is left exactly when the countdown has reached zero. */
  lemma {:induction false} CountRest(ps: seq<Proc>, i: nat)
    requires i <= |ps|
    ensures Count(ps[..i]) <= Count(ps)
    ensures Count(ps[..i]) == Count(ps) <==> NoReserveFrom(ps, i)
    ensures NoReserveFrom(ps, i) ==> Tickets(ps[..i]) == Tickets(ps)
  {
    if i == |ps| {
      assert ps[..i] == ps;
    } else {
      var n := |ps| - 1;
      CountRest(ps[..n], i);
      assert ps[..n][..i] == ps[..i];
      assert NoReserveFrom(ps, i) <==> NoReserveFrom(ps[..n], i) && !Reserve(ps[n]);
    }
  }

  /** Nobody before i wins, and no spot process before i could have. */
  ghost predicate NoneYet(ps: seq<Proc>, i: nat, draw: int, b: int) {
    forall j :: 0 <= j < i && j < |ps| ==>
      !HoldsDraw(ps, j, draw) && !(SpotProc(ps[j]) && ps[j].spotbid == b && NoReserveFrom(ps, j) && Tickets(ps) < draw)
  }

  class Scheduler {
    var ps: seq<Proc>
    var totalpercent: int

    ghost predicate Valid()
      reads this
    {
      && |ps| == 64 && Admitted(ps, totalpercent)
      && forall i :: 0 <= i < NPROC ==> ps[i].charge <= 1000
    }

    method SysReserve(who: nat, n: int) returns (r: int)
      requires Valid() && who < NPROC
      modifies this
      ensures Valid() && System(ps, totalpercent) == Apply(old(System(ps, totalpercent)), ReserveCall(who, n))
      ensures r == if 0 <= n <= 100 && old(totalpercent) + n <= 200 then n else -1
      ensures totalpercent == if 0 <= n <= 100 then old(totalpercent) + n else old(totalpercent)
      ensures 0 <= n <= 100 && old(totalpercent) + n <= 200 ==> ps == old(ps)[who := old(ps)[who].(rpercent := n, spotbid := 0)]
      ensures !(0 <= n <= 100 && old(totalpercent) + n <= 200) ==> ps == old(ps)
    {
      ApplyKeeps(System(ps, totalpercent), ReserveCall(who, n));
      if n < 0 || n > 100 {
        return -1;
      }
      totalpercent := n + totalpercent;
      if totalpercent > DRAWS {
        return -1;
      }
      ps := ps[who := ps[who].(spotbid := 0, rpercent := n)];
      return n;
    }

    method SysSpot(who: nat, n: int) returns (r: int)
      requires Valid() && who < NPROC
      modifies this
      ensures Valid() && System(ps, totalpercent) == Apply(old(System(ps, totalpercent)), SpotCall(who, n)) && r == n
      ensures ps == old(ps)[who := old(ps)[who].(rpercent := 0, spotbid := n)] && totalpercent == old(totalpercent)
    {
      ApplyKeeps(System(ps, totalpercent), SpotCall(who, n));
      ps := ps[who := ps[who].(rpercent := 0, spotbid := n)];
      return n;
    }

    /** First loop: how many reserve and spot processes are runnable, and the best bid. */
    method Survey() returns (numofrp: int, numofsp: int, higherbid: int)
      requires Valid()
      ensures numofrp == Count(ps) && HighestBid(ps, higherbid)
      ensures numofsp != 0 <==> exists i :: 0 <= i < NPROC && SpotProc(ps[i])
    {
      numofrp, numofsp, higherbid := 0, 0, 0;
      var i := 0;
      while i < NPROC
        invariant 0 <= i <= NPROC && numofrp == Count(ps[..i]) && numofsp >= 0 && HighestBid(ps[..i], higherbid)
        invariant numofsp != 0 <==> exists j :: 0 <= j < i && SpotProc(ps[j])
      {
        var p := ps[i];
        assert ps[..i + 1][..i] == ps[..i];
        ghost var b := higherbid;
        if p.runnable {
          if p.rpercent > 0 {
            numofrp := numofrp + 1;
          }
          if p.rpercent == 0 {
            numofsp := numofsp + 1;
            if higherbid < p.spotbid {
              higherbid := p.spotbid;
            }
          }
        }
        BidStep(ps, i, b, higherbid);
        i := i + 1;
      }
      assert ps[..NPROC] == ps;
    }

    /** One pass of scheduler() with a given draw, up to the switch to the process it dispatches;
        -1 when there is none. `reserve` tells which branch it was. */
    method Round(draw: int) returns (winner: int, reserve: bool, ghost bid: int)
      requires Valid() && 0 <= draw < DRAWS
      modifies this`ps
      ensures Valid() && HighestBid(old(ps), bid) && totalpercent == old(totalpercent)
      ensures winner == -1 <==> !Decides(old(ps), draw, bid)
      ensures winner == -1 ==> ps == old(ps)
      ensures winner != -1 ==>
        && 0 <= winner < NPROC && Wins(old(ps), winner, draw, bid) && reserve == (old(ps)[winner].rpercent > 0)
        && ps == old(ps)[winner := old(ps)[winner].(runnable := false)]
    {
      var numofrp, numofsp, higherbid := Survey();
      bid, reserve := higherbid, false;
      winner := Choose(draw, numofrp, numofsp, higherbid);
      SomeoneWins(ps, draw, bid);
      hide HighestBid, Wins, Decides;
      if winner != -1 {
        reserve := ps[winner].rpercent > 0;
        Occupy(winner);
      }
    }

    /** The chosen process is marked as running. */
    method Occupy(i: nat)
      requires Valid() && i < NPROC
      modifies this`ps
      ensures Valid() && ps == old(ps)[i := old(ps)[i].(runnable := false)]
    {
      var p := ps[i].(runnable := false);
      ReservedUpdate(ps, i, p);
      ps := ps[i := p];
    }

    /** The process comes back from its slice, during which it may have made calls of its own, and
        is charged. */
    method Settle(i: nat, reserve: bool, after: bool)
      requires Valid() && i < NPROC
      modifies this`ps
      ensures Valid() && ps == old(ps)[i := Billed(old(ps)[i], Fee(old(ps)[i], reserve), after)]
      ensures totalpercent == old(totalpercent)
      ensures ps[i].numofused == old(ps)[i].numofused + 1 && ps[i].runningtime == old(ps)[i].runningtime + 10
      ensures var c := old(ps)[i].charge + if reserve then 10 else Quotient(old(ps)[i].spotbid, 100);
        && (c <= 1000 ==> ps[i].charge == c && ps[i].tcharge == old(ps)[i].tcharge)
        && (c > 1000 ==> ps[i].charge == c % 1000 && ps[i].tcharge == old(ps)[i].tcharge + 1)
    {
      var p := ps[i];
      p := p.(runnable := after, numofused := p.numofused + 1, runningtime := p.runningtime + 10);
      p := p.(charge := p.charge + if reserve then 10 else Quotient(p.spotbid, 100));
      if p.charge > 1000 {
        p := p.(tcharge := p.tcharge + 1, charge := p.charge % 1000);
      }
      ReservedUpdate(ps, i, p);
      ps := ps[i := p];
    }

    /** Second loop: whom the draw dispatches. */
    method Choose(draw: int, numofrp0: int, numofsp: int, higherbid: int) returns (winner: int)
      requires Valid() && 0 <= draw < DRAWS && numofrp0 == Count(ps) && HighestBid(ps, higherbid)
      requires numofsp != 0 <==> exists i :: 0 <= i < NPROC && SpotProc(ps[i])
      ensures winner == -1 ==> forall i :: 0 <= i < NPROC ==> !Wins(ps, i, draw, higherbid)
      ensures winner != -1 ==> 0 <= winner < NPROC && Wins(ps, winner, draw, higherbid)
    {
      var numofrp, ticket, i := numofrp0, 0, 0;
      assert NonNegative(ps);
      hide HighestBid, Admitted, NoneYet, Count, Tickets, HoldsDraw, TakesSpot, NoReserveFrom;
      ChooseStart(ps, draw, higherbid);
      while i < NPROC
        invariant 0 <= i <= NPROC && numofrp == Count(ps) - Count(ps[..i]) && ticket == Tickets(ps[..i]) <= draw
        invariant NoneYet(ps, i, draw, higherbid)
      {
        ChooseStep(ps, i, draw, higherbid);
        if ps[i].runnable {
          if ps[i].rpercent > 0 {
            numofrp := numofrp - 1;
            ticket := ticket + ps[i].rpercent;
            if ticket > draw {
              return i;
            }
          } else if numofrp == 0 && numofsp != 0 && ticket < draw {
            if ps[i].spotbid == higherbid {
              return i;
            }
          }
        }
        i := i + 1;
      }
      ChooseNone(ps, draw, higherbid);
      return -1;
    }
  }

  lemma ChooseStart(ps: seq<Proc>, draw: int, b: int)
    ensures Count(ps[..0]) == 0 == Tickets(ps[..0]) && NoneYet(ps, 0, draw, b)
    ensures HighestBid(ps, b) ==> b >= 0
  {
  }

  /** What the turn at process i finds out. */
  lemma ChooseStep(ps: seq<Proc>, i: nat, draw: int, b: int)
    requires i < |ps| && NoneYet(ps, i, draw, b) && Tickets(ps[..i]) <= draw
    ensures Count(ps[..i + 1]) == Count(ps[..i]) + if Reserve(ps[i]) then 1 else 0
    ensures Tickets(ps[..i + 1]) == Tickets(ps[..i]) + if Reserve(ps[i]) then ps[i].rpercent else 0
    ensures Reserve(ps[i]) ==> if Tickets(ps[..i + 1]) > draw then HoldsDraw(ps, i, draw) else NoneYet(ps, i + 1, draw, b)
    ensures !Reserve(ps[i]) ==>
      if SpotProc(ps[i]) && Count(ps[..i]) == Count(ps) && Tickets(ps[..i]) < draw && ps[i].spotbid == b
      then TakesSpot(ps, i, draw, b) else NoneYet(ps, i + 1, draw, b)
  {
    hide Count, Tickets, NoReserveFrom, HoldsDraw, NoneYet, TakesSpot;
    PrefixStep(ps, i);
    if Reserve(ps[i]) {
      ChooseReserve(ps, i, draw, b);
    } else {
      CountRest(ps, i);
      ChooseSpot(ps, i, draw, b);
    }
  }

  lemma PrefixStep(ps: seq<Proc>, i: nat)
    requires i < |ps|
    ensures Count(ps[..i + 1]) == Count(ps[..i]) + if Reserve(ps[i]) then 1 else 0
    ensures Tickets(ps[..i + 1]) == Tickets(ps[..i]) + if Reserve(ps[i]) then ps[i].rpercent else 0
  {
    assert ps[..i + 1][..i] == ps[..i];
  }

  lemma ChooseReserve(ps: seq<Proc>, i: nat, draw: int, b: int)
    requires i < |ps| && NoneYet(ps, i, draw, b) && Reserve(ps[i]) && Tickets(ps[..i]) <= draw
    ensures if Tickets(ps[..i]) + ps[i].rpercent > draw then HoldsDraw(ps, i, draw) else NoneYet(ps, i + 1, draw, b)
  {
    hide Tickets, NoReserveFrom;
  }

  lemma ChooseSpot(ps: seq<Proc>, i: nat, draw: int, b: int)
    requires i < |ps| && NoneYet(ps, i, draw, b) && !Reserve(ps[i])
    requires NoReserveFrom(ps, i) ==> Tickets(ps[..i]) == Tickets(ps)
    ensures if SpotProc(ps[i]) && NoReserveFrom(ps, i) && Tickets(ps[..i]) < draw && ps[i].spotbid == b
      then TakesSpot(ps, i, draw, b) else NoneYet(ps, i + 1, draw, b)
  {
    hide Tickets, NoReserveFrom;
  }

  lemma ChooseNone(ps: seq<Proc>, draw: int, b: int)
    requires NoneYet(ps, |ps|, draw, b)
    ensures forall i :: 0 <= i < |ps| ==> !Wins(ps, i, draw, b)
  {
    hide Tickets, HoldsDraw;
  }

  lemma BidStep(ps: seq<Proc>, i: nat, b: int, b': int)
    requires i < |ps| && HighestBid(ps[..i], b)
    requires b' == if SpotProc(ps[i]) && b < ps[i].spotbid then ps[i].spotbid else b
    ensures HighestBid(ps[..i + 1], b')
  {
    var pre, now := ps[..i], ps[..i + 1];
    assert forall j :: 0 <= j < i ==> now[j] == pre[j];
    if b' > 0 && b' != b {
      assert SpotProc(now[i]) && now[i].spotbid == b';
    } else if b' > 0 {
      var j :| 0 <= j < i && SpotProc(pre[j]) && pre[j].spotbid == b;
      assert SpotProc(now[j]) && now[j].spotbid == b';
    }
  }
}
