/** What follows from the invariant: no crashes, no deadlock, termination, and every car delivered
    once, in order. */
module IntersectionLiveness {
  import opened Options
  import opened Paths
  import opened Lanes
  import opened Intersection
  import opened IntersectionSafety
  import opened Counting

  // ---- No crashes ----

  /** The thread has all the locks of its path and has not released one. */
  predicate InIntersection(pc: CrossPc) {
    pc.CExitLock? || pc.CPush? || pc.CExitUnlock?
  }

  /** A car in the intersection holds exactly the quadrants the rule of the road sends it through. */
  lemma HoldsItsPath(schedule: seq<Car>, run: seq<State>, i: Direction, q: Direction)
    requires Run(schedule, run)
    requires var s := run[|run| - 1]; Shape(s) && InIntersection(s.cross[i])
    ensures var s := run[|run| - 1];
      s.car[i].inDir == i && (s.quad[q] == Some(i) <==> Crosses(i, s.car[i].outDir, q))
  {
    var s := run[|run| - 1];
    hide Run, From, Towards, Pending, LaneInv, LockInv, LaneState.RingOk;
    RunInv(schedule, run);
    assert OrderInv(s, schedule, i);
    PathListIsLockOrder(i, s.car[i].outDir);
    assert s.quad[q] == Some(i) <==> HoldsQuad(s, i, q);
    if Crosses(i, s.car[i].outDir, q) {
      var k :| 0 <= k < 4 && s.list[i][k] == q;
      assert HoldsQuad(s, i, q);
    }
  }

  /** Two cars in the intersection at the same time have no quadrant in common. */
  lemma NoCrash(schedule: seq<Car>, run: seq<State>, i: Direction, j: Direction, q: Direction)
    requires Run(schedule, run) && i != j
    requires var s := run[|run| - 1];
      Shape(s) && InIntersection(s.cross[i]) && InIntersection(s.cross[j])
    ensures var s := run[|run| - 1];
      !(Crosses(i, s.car[i].outDir, q) && Crosses(j, s.car[j].outDir, q))
  {
    HoldsItsPath(schedule, run, i, q);
    HoldsItsPath(schedule, run, j, q);
  }

  // ---- No deadlock ----

  ghost predicate AllDone(s: State)
    requires Shape(s)
  {
    forall i: Direction :: s.arrive[i].ADone? && s.cross[i].CDone?
  }

  /** Some thread has a step to take. */
  ghost predicate CanStep(s: State) {
    exists s' :: Next(s, s')
  }

  /** Whoever holds a lane lock can go on. */
  lemma LaneHolderRuns(s: State, schedule: seq<Car>, j: Direction) returns (t: Thread)
    requires Inv(s, schedule) && s.lock[j].Some?
    ensures Enabled(s, t)
  {
    t := s.lock[j].value;
    assert HoldsLane(s, t, j);
  }

  /** A thread waiting for a quadrant leads, through threads waiting for higher and higher
      quadrants, to one that can run. */
  lemma {:induction false} QuadChainEnds(s: State, schedule: seq<Car>, i: Direction) returns (t: Thread)
    requires Inv(s, schedule) && s.cross[i].CQuad?
    requires forall j: Direction :: s.lock[j].None?
    ensures Enabled(s, t)
    decreases 4 - s.list[i][s.cross[i].slot]
  {
    var k := s.cross[i].slot;
    var q := s.list[i][k];
    if q == NONE || s.quad[q].None? {
      t := Cross(i);
    } else {
      var o := s.quad[q].value;
      assert s.quad[q] == Some(o) <==> HoldsQuad(s, o, q);
      var m :| HeldSlots(s.cross[o]).0 <= m < HeldSlots(s.cross[o]).1 && 0 <= m < 4 && s.list[o][m] == q;
      if s.cross[o].CQuad? && s.list[o][s.cross[o].slot] != NONE {
        assert s.list[o][m] < s.list[o][s.cross[o].slot];
        t := QuadChainEnds(s, schedule, o);
      } else {
        t := Cross(o);
      }
    }
  }

  /** A lane whose two threads are finished or asleep is finished: no wakeup was lost. */
  lemma SleepingLaneIsDone(s: State, schedule: seq<Car>, i: Direction)
    requires Inv(s, schedule)
    requires s.arrive[i].AWait? || s.arrive[i].ADone?
    requires s.cross[i].CWait? || s.cross[i].CDone?
    ensures s.arrive[i].ADone? && s.cross[i].CDone?
  {
    assert LaneInv(s.lanes[i], s.arrive[i], s.cross[i]);
  }

  lemma SomeThreadEnabled(s: State, schedule: seq<Car>) returns (t: Thread)
    requires Inv(s, schedule) && !AllDone(s)
    ensures Enabled(s, t)
  {
    if j: Direction :| s.lock[j].Some? {
      t := LaneHolderRuns(s, schedule, j);
    } else if i: Direction :| s.cross[i].CQuad? {
      t := QuadChainEnds(s, schedule, i);
    } else {
      var i: Direction :| !(s.arrive[i].ADone? && s.cross[i].CDone?);
      if !(s.arrive[i].AWait? || s.arrive[i].ADone?) {
        t := Arrive(i);
      } else {
        if s.cross[i].CWait? || s.cross[i].CDone? { SleepingLaneIsDone(s, schedule, i); }
        t := Cross(i);
      }
    }
  }

  lemma EnabledSteps(s: State, schedule: seq<Car>, t: Thread) returns (s': State)
    requires Inv(s, schedule) && Enabled(s, t)
    ensures Next(s, s')
  {
    match t
    case Arrive(i) =>
      assert LaneInv(s.lanes[i], s.arrive[i], s.cross[i]);
      s' := ArriveStep(s, i);
      assert ThreadStep(s, t, s');
    case Cross(i) =>
      s' := CrossStep(s, i);
      assert ThreadStep(s, t, s');
  }

  /** Deadlock freedom: in every reachable state some thread can take a step, without the help of a
      spurious wakeup, until all eight threads have finished. */
  lemma NoDeadlock(schedule: seq<Car>, run: seq<State>)
    requires Run(schedule, run)
    ensures Shape(run[|run| - 1])
    ensures AllDone(run[|run| - 1]) || CanStep(run[|run| - 1])
  {
    RunInv(schedule, run);
    var s := run[|run| - 1];
    if !AllDone(s) {
      var t := SomeThreadEnabled(s, schedule);
      var s' := EnabledSteps(s, schedule, t);
    }
  }

  // ---- Termination ----

  const ADD_COST := 7    // lets an arrival thread signal and go round its loop again
  const TAKE_COST := 20  // lets a crossing thread cross and go round its loop again

  function ArriveRank(a: ArrivePc): nat {
    match a
    case ADone => 0
    case AWait => 0
    case ACheck => 1
    case ALock => 2
    case ARelock => 2
    case ATest => 3
    case AUnlock => 4
    case ASignal => 7
  }

  function CrossRank(c: CrossPc): nat {
    match c
    case CDone => 0
    case CWait => 0
    case CCheck => 1
    case CLock => 2
    case CRelock => 2
    case CTest => 3
    case CRelease(k) => if k < 4 then 7 - k else 0
    case CExitUnlock => 8
    case CPush => 9
    case CExitLock => 10
    case CQuad(k) => if k < 4 then 14 - k else 0
    case CUnlock => 15
    case CSignal => 18
  }

  /** Work left in lane i. */
  function LaneRank(l: LaneState, a: ArrivePc, c: CrossPc): int {
    ADD_COST * |l.inCars| + TAKE_COST * (l.inc - l.passed) + ArriveRank(a) + CrossRank(c)
  }

  function Rank(s: State): int
    requires |s.lanes| == 4 && |s.arrive| == 4 && |s.cross| == 4
  {
    LaneRank(s.lanes[0], s.arrive[0], s.cross[0]) + LaneRank(s.lanes[1], s.arrive[1], s.cross[1])
    + LaneRank(s.lanes[2], s.arrive[2], s.cross[2]) + LaneRank(s.lanes[3], s.arrive[3], s.cross[3])
  }

  /** A thread of lane i lowers the rank of lane i and leaves every other lane's alone. */
  lemma ArriveLowersRank(s: State, i: Direction, s': State, j: Direction)
    requires Shape(s) && ThreadStep(s, Arrive(i), s')
    ensures |s'.lanes| == 4 && |s'.arrive| == 4 && |s'.cross| == 4
    ensures var r, r' := LaneRank(s.lanes[j], s.arrive[j], s.cross[j]),
      LaneRank(s'.lanes[j], s'.arrive[j], s'.cross[j]);
      if j == i then r' < r else r' == r
  {
    hide LaneState.RingOk, LockOrder, PathList, LaneState.Queue;
  }

  lemma CrossLowersRank(s: State, i: Direction, s': State, j: Direction)
    requires Shape(s) && ThreadStep(s, Cross(i), s')
    ensures |s'.lanes| == 4 && |s'.arrive| == 4 && |s'.cross| == 4
    ensures var r, r' := LaneRank(s.lanes[j], s.arrive[j], s.cross[j]),
      LaneRank(s'.lanes[j], s'.arrive[j], s'.cross[j]);
      if j == i then r' < r else r' == r
  {
    hide ThreadStep, LaneRank;
    if j != i {
      CrossKeepsOtherRank(s, i, s', j);
    } else if s.cross[i].CCheck? || s.cross[i].CSignal? {
      CrossLowersTakingRank(s, i, s');
    } else {
      CrossLowersOwnRank(s, i, s');
    }
  }

  lemma CrossLowersTakingRank(s: State, i: Direction, s': State)
    requires Shape(s) && ThreadStep(s, Cross(i), s') && (s.cross[i].CCheck? || s.cross[i].CSignal?)
    ensures |s'.lanes| == 4 && |s'.arrive| == 4 && |s'.cross| == 4
    ensures LaneRank(s'.lanes[i], s'.arrive[i], s'.cross[i]) < LaneRank(s.lanes[i], s.arrive[i], s.cross[i])
  {
    hide LaneState.RingOk, LockOrder, PathList, LaneState.Queue;
  }

  lemma CrossLowersOwnRank(s: State, i: Direction, s': State)
    requires Shape(s) && ThreadStep(s, Cross(i), s') && !s.cross[i].CCheck? && !s.cross[i].CSignal?
    ensures |s'.lanes| == 4 && |s'.arrive| == 4 && |s'.cross| == 4
    ensures LaneRank(s'.lanes[i], s'.arrive[i], s'.cross[i]) < LaneRank(s.lanes[i], s.arrive[i], s.cross[i])
  {
    hide LaneState.RingOk, LockOrder, PathList, LaneState.Queue;
  }

  lemma CrossKeepsOtherRank(s: State, i: Direction, s': State, j: Direction)
    requires Shape(s) && ThreadStep(s, Cross(i), s') && j != i
    ensures |s'.lanes| == 4 && |s'.arrive| == 4 && |s'.cross| == 4
    ensures LaneRank(s'.lanes[j], s'.arrive[j], s'.cross[j]) == LaneRank(s.lanes[j], s.arrive[j], s.cross[j])
  {
    hide LaneState.RingOk, LockOrder, PathList, LaneState.Queue;
  }

  lemma NextLowersRank(s: State, s': State)
    requires Next(s, s') && Shape(s')
    ensures Rank(s') < Rank(s)
  {
    var t :| ThreadStep(s, t, s');
    match t
    case Arrive(i) =>
      ArriveLowersRank(s, i, s', 0);
      ArriveLowersRank(s, i, s', 1);
      ArriveLowersRank(s, i, s', 2);
      ArriveLowersRank(s, i, s', 3);
    case Cross(i) =>
      CrossLowersRank(s, i, s', 0);
      CrossLowersRank(s, i, s', 1);
      CrossLowersRank(s, i, s', 2);
      CrossLowersRank(s, i, s', 3);
  }

  /** No spurious wakeups in this run. */
  ghost predicate Genuine(run: seq<State>) {
    forall k :: 0 <= k < |run| - 1 ==> Next(run[k], run[k + 1])
  }

  lemma {:induction false} PendingTotal(schedule: seq<Car>)
    ensures |Pending(schedule, 0)| + |Pending(schedule, 1)| + |Pending(schedule, 2)| + |Pending(schedule, 3)|
      == |schedule|
  {
    if schedule != [] { PendingTotal(schedule[..|schedule| - 1]); }
  }

  lemma RankNonNegative(s: State, schedule: seq<Car>)
    requires Inv(s, schedule)
    ensures Rank(s) >= 0
  {
    forall i: Direction ensures LaneRank(s.lanes[i], s.arrive[i], s.cross[i]) >= 0 {
      assert LaneInv(s.lanes[i], s.arrive[i], s.cross[i]);
    }
  }

  lemma InitialRank(s: State, schedule: seq<Car>)
    requires Init(s, schedule)
    ensures Rank(s) == 27 * |schedule| + 24
  {
    PendingTotal(schedule);
    forall i: Direction ensures LaneRank(s.lanes[i], s.arrive[i], s.cross[i]) == 27 * |Pending(schedule, i)| + 6 {
      assert s.lanes[i].inCars == Pending(schedule, i);
    }
  }

  lemma {:induction false} StepsSpendRank(schedule: seq<Car>, run: seq<State>)
    requires Run(schedule, run) && Genuine(run)
    ensures Shape(run[|run| - 1])
    ensures Rank(run[|run| - 1]) + (|run| - 1) <= 27 * |schedule| + 24
  {
    if |run| == 1 {
      InitialRank(run[0], schedule);
    } else {
      RunPrefix(schedule, run);
      assert run[|run| - 2 + 1] == run[|run| - 1];
      StepsSpendRank(schedule, run[..|run| - 1]);
      RunInv(schedule, run);
      NextLowersRank(run[|run| - 2], run[|run| - 1]);
    }
  }

  /** Termination: without spurious wakeups no run is longer than 27 steps a car and 24 more, and a
      run that can go no further has finished all eight threads. */
  lemma Terminates(schedule: seq<Car>, run: seq<State>)
    requires Run(schedule, run) && Genuine(run)
    ensures |run| - 1 <= 27 * |schedule| + 24
    ensures Shape(run[|run| - 1])
    ensures !CanStep(run[|run| - 1]) ==> AllDone(run[|run| - 1])
  {
    StepsSpendRank(schedule, run);
    RunInv(schedule, run);
    RankNonNegative(run[|run| - 1], schedule);
    NoDeadlock(schedule, run);
  }

  // ---- Delivery ----

  lemma {:induction false} PendingCount(schedule: seq<Car>, c: Car)
    ensures Count(Pending(schedule, c.inDir), c) == Count(schedule, c)
  {
    if schedule != [] {
      var n := |schedule| - 1;
      var last := schedule[n];
      PendingCount(schedule[..n], c);
      assert schedule == schedule[..n] + [last];
      CountAppend(schedule[..n], [last], c);
      CountAppend(if last.inDir == c.inDir then [last] else [], Pending(schedule[..n], c.inDir), c);
    }
  }

  lemma {:induction false} FromCount(log: seq<Car>, c: Car)
    ensures Count(From(log, c.inDir), c) == Count(log, c)
  {
    if log != [] {
      var n := |log| - 1;
      var last := log[n];
      FromCount(log[..n], c);
      assert log == log[..n] + [last];
      CountAppend(log[..n], [last], c);
      CountAppend(From(log[..n], c.inDir), if last.inDir == c.inDir then [last] else [], c);
    }
  }

  lemma {:induction false} TowardsCount(log: seq<Car>, c: Car)
    ensures Count(Towards(log, c.outDir), c) == Count(log, c)
  {
    if log != [] {
      var n := |log| - 1;
      var last := log[n];
      TowardsCount(log[..n], c);
      assert log == log[..n] + [last];
      CountAppend(log[..n], [last], c);
      CountAppend(if last.outDir == c.outDir then [last] else [], Towards(log[..n], c.outDir), c);
    }
  }

  /** Conservation: in every reachable state the copies of a car add up over the four places a car
      can be: pending, buffered or in flight in its entry lane, or in the exit list of its own
      exit lane. */
  lemma CarsAreConserved(schedule: seq<Car>, run: seq<State>, c: Car)
    requires Run(schedule, run)
    ensures Shape(run[|run| - 1])
    ensures var s := run[|run| - 1];
      Count(schedule, c)
      == Count(s.lanes[c.inDir].inCars, c) + Count(s.lanes[c.inDir].Queue(), c)
         + Count(InFlight(s, c.inDir), c) + Count(s.lanes[c.outDir].outCars, c)
  {
    RunInv(schedule, run);
    var s := run[|run| - 1];
    var i := c.inDir;
    assert OrderInv(s, schedule, i) && OrderInv(s, schedule, c.outDir);
    PendingCount(schedule, c);
    FromCount(s.log, c);
    TowardsCount(s.log, c);
    CountAppend(From(s.log, i), InFlight(s, i), c);
    CountAppend(From(s.log, i) + InFlight(s, i), s.lanes[i].Queue(), c);
    CountAppend(From(s.log, i) + InFlight(s, i) + s.lanes[i].Queue(), s.lanes[i].inCars, c);
  }

  /** Order: in every reachable state the cars of a lane that have crossed are a prefix of the
      lane's initial list, in that order. */
  lemma LaneOrder(schedule: seq<Car>, run: seq<State>, i: Direction)
    requires Run(schedule, run)
    ensures From(run[|run| - 1].log, i) <= Pending(schedule, i)
  {
    var s := run[|run| - 1];
    hide From, Pending, LaneState.Queue, Run, LockInv, QuadInv;
    RunInv(schedule, run);
    assert OrderInv(s, schedule, i);
    FirstPart(From(s.log, i), InFlight(s, i), s.lanes[i].Queue(), s.lanes[i].inCars);
  }

  lemma FirstPart<T>(a: seq<T>, b: seq<T>, c: seq<T>, d: seq<T>)
    ensures a <= a + b + c + d
  {
  }

  /** When the threads have finished, the cars of each lane have crossed completely and in order,
      and each car is as often in the list of its own exit lane as it was scheduled. */
  lemma AllDelivered(schedule: seq<Car>, run: seq<State>, i: Direction, c: Car)
    requires Run(schedule, run)
    requires Shape(run[|run| - 1]) && AllDone(run[|run| - 1])
    ensures From(run[|run| - 1].log, i) == Pending(schedule, i)
    ensures Count(run[|run| - 1].lanes[c.outDir].outCars, c) == Count(schedule, c)
  {
    RunInv(schedule, run);
    var s := run[|run| - 1];
    forall j: Direction ensures InFlight(s, j) == [] && s.lanes[j].Queue() == [] && s.lanes[j].inCars == [] {
      assert LaneInv(s.lanes[j], s.arrive[j], s.cross[j]);
    }
    assert OrderInv(s, schedule, i);
    CarsAreConserved(schedule, run, c);
  }
}
