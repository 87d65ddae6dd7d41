/** Safety of the running program: the invariant holds in every reachable state, whatever the
    schedule, the interleaving and the spurious wakeups. */
module IntersectionSafety {
  import opened Options
  import opened Paths
  import opened Lanes
  import opened Intersection

  lemma InitOrder(s: State, schedule: seq<Car>, i: Direction)
    requires Init(s, schedule)
    ensures OrderInv(s, schedule, i)
  {
    assert From(s.log, i) == [] && InFlight(s, i) == [] && s.lanes[i].Queue() == [];
  }

  lemma InitInv(s: State, schedule: seq<Car>)
    requires Init(s, schedule)
    ensures Inv(s, schedule)
  {
    forall i: Direction ensures OrderInv(s, schedule, i) { InitOrder(s, schedule, i); }
    forall i: Direction, q: Direction ensures s.quad[q] == Some(i) <==> HoldsQuad(s, i, q) { }
  }

  lemma Regroup<T>(a: seq<T>, q: seq<T>, x: T, rest: seq<T>)
    ensures a + (q + [x]) + rest == a + q + ([x] + rest)
  {
  }

  // ---- Arrival threads ----

  lemma ArriveKeepsLane(s: State, i: Direction, s': State, j: Direction)
    requires Shape(s) && ThreadStep(s, Arrive(i), s')
    requires LaneInv(s.lanes[j], s.arrive[j], s.cross[j])
    ensures LaneInv(s'.lanes[j], s'.arrive[j], s'.cross[j])
  {
    var l := s.lanes[i];
    if s.arrive[i].ACheck? && l.inBuf < LANE_LENGTH { l.AddCarEnqueues(); }
  }

  lemma ArriveKeepsLock(s: State, i: Direction, s': State, j: Direction, t: Thread)
    requires Shape(s) && ThreadStep(s, Arrive(i), s') && Shape(s')
    requires s.lock[j] == Some(t) <==> HoldsLane(s, t, j)
    requires s.lock[j] == Some(Arrive(i)) <==> HoldsLane(s, Arrive(i), j)
    ensures s'.lock[j] == Some(t) <==> HoldsLane(s', t, j)
  {
  }

  lemma ArriveKeepsQuad(s: State, i: Direction, s': State, j: Direction, q: Direction)
    requires Shape(s) && ThreadStep(s, Arrive(i), s') && Shape(s')
    requires s.quad[q] == Some(j) <==> HoldsQuad(s, j, q)
    ensures s'.quad[q] == Some(j) <==> HoldsQuad(s', j, q)
  {
    assert HeldSlots(s'.cross[j]) == HeldSlots(s.cross[j]) && s'.list[j] == s.list[j];
  }

  lemma AddKeepsOrder(s: State, i: Direction, s': State, schedule: seq<Car>)
    requires Shape(s) && ThreadStep(s, Arrive(i), s') && Shape(s') && OrderInv(s, schedule, i)
    requires s.arrive[i].ACheck? && s.lanes[i].inBuf < LANE_LENGTH
    ensures OrderInv(s', schedule, i)
  {
    hide From, Towards, Pending, PathList, LockOrder;
    var l := s.lanes[i];
    l.AddCarEnqueues();
    assert l.inCars == [l.inCars[0]] + l.AddCar().inCars;
    assert s'.lanes[i] == l.AddCar() && InFlight(s', i) == InFlight(s, i);
    Regroup(From(s.log, i) + InFlight(s, i), l.Queue(), l.inCars[0], l.AddCar().inCars);
  }

  /** What a step leaves alone of lane j: its cars, the printed lines, and the car in its thread's hands. */
  ghost predicate Quiet(s: State, s': State, j: Direction)
    requires Shape(s) && Shape(s')
  {
    && s'.log == s.log && s'.lanes[j] == s.lanes[j] && Carrying(s'.cross[j]) == Carrying(s.cross[j])
    && (HasCar(s'.cross[j]) ==> HasCar(s.cross[j]) && s'.car[j] == s.car[j] && s'.list[j] == s.list[j])
  }

  lemma QuietKeepsOrder(s: State, s': State, schedule: seq<Car>, j: Direction)
    requires Shape(s) && Shape(s') && Quiet(s, s', j) && OrderInv(s, schedule, j)
    ensures OrderInv(s', schedule, j)
  {
    hide From, Towards, Pending, LaneState.Queue, PathList, Carrying, HasCar;
    CarryingHas(s'.cross[j]);
    assert InFlight(s', j) == InFlight(s, j);
  }

  lemma CarryingHas(pc: CrossPc)
    ensures Carrying(pc) ==> HasCar(pc)
  {
  }

  lemma ArriveIsQuiet(s: State, i: Direction, s': State, j: Direction)
    requires Shape(s) && ThreadStep(s, Arrive(i), s') && Shape(s')
    requires !(j == i && s.arrive[i].ACheck? && s.lanes[i].inBuf < LANE_LENGTH)
    ensures Quiet(s, s', j)
  {
    hide LaneState.RingOk, LockOrder, LaneState.AddCar;
  }

  lemma ArriveKeepsOrder(s: State, i: Direction, s': State, schedule: seq<Car>, j: Direction)
    requires Shape(s) && ThreadStep(s, Arrive(i), s') && Shape(s') && OrderInv(s, schedule, j)
    ensures OrderInv(s', schedule, j)
  {
    hide ThreadStep, OrderInv, Quiet;
    if j == i && s.arrive[i].ACheck? && s.lanes[i].inBuf < LANE_LENGTH {
      AddKeepsOrder(s, i, s', schedule);
    } else {
      ArriveIsQuiet(s, i, s', j);
      QuietKeepsOrder(s, s', schedule, j);
    }
  }

  lemma ArriveKeepsInv(s: State, i: Direction, s': State, schedule: seq<Car>)
    requires Inv(s, schedule) && ThreadStep(s, Arrive(i), s')
    ensures Inv(s', schedule)
  {
    forall j: Direction ensures LaneInv(s'.lanes[j], s'.arrive[j], s'.cross[j]) { ArriveKeepsLane(s, i, s', j); }
    forall j: Direction ensures OrderInv(s', schedule, j) { ArriveKeepsOrder(s, i, s', schedule, j); }
    forall j: Direction, t: Thread ensures s'.lock[j] == Some(t) <==> HoldsLane(s', t, j) {
      ArriveKeepsLock(s, i, s', j, t);
    }
    forall j: Direction, q: Direction ensures s'.quad[q] == Some(j) <==> HoldsQuad(s', j, q) {
      ArriveKeepsQuad(s, i, s', j, q);
    }
  }

  // ---- Crossing threads ----

  lemma CrossKeepsLane(s: State, i: Direction, s': State, j: Direction)
    requires Shape(s) && ThreadStep(s, Cross(i), s')
    requires LaneInv(s.lanes[j], s.arrive[j], s.cross[j])
    ensures LaneInv(s'.lanes[j], s'.arrive[j], s'.cross[j])
  {
    hide LockOrder, PathList, LaneState.Queue;
    var l := s.lanes[j];
    if s.cross[i].CCheck? && s.lanes[i].inBuf > 0 {
      if j == i { l.TakeCarDequeues(); }
    } else if s.cross[i].CPush? && s.car[i].outDir == j {
      l.DeliverKeepsQueue(s.car[i]);
    } else {
      assert s'.lanes[j] == l;
    }
  }

  lemma CrossKeepsShape(s: State, i: Direction, s': State)
    requires Shape(s) && ThreadStep(s, Cross(i), s')
    ensures Shape(s')
  {
    var l := s.lanes[i];
    if s.cross[i].CCheck? && l.inBuf > 0 {
      l.TakeCarDequeues();
      PathListIsLockOrder(l.buffer[l.head].inDir, l.buffer[l.head].outDir);
    }
  }

  lemma CrossKeepsLock(s: State, i: Direction, s': State, j: Direction, t: Thread)
    requires Shape(s) && ThreadStep(s, Cross(i), s') && Shape(s')
    requires s.lock[j] == Some(t) <==> HoldsLane(s, t, j)
    requires s.lock[j] == Some(Cross(i)) <==> HoldsLane(s, Cross(i), j)
    ensures s'.lock[j] == Some(t) <==> HoldsLane(s', t, j)
  {
    hide ThreadStep, HoldsLane;
    if t == Cross(i) { CrossKeepsOwnLock(s, i, s', j); } else { CrossKeepsOtherLock(s, i, s', j, t); }
  }

  lemma CrossKeepsOwnLock(s: State, i: Direction, s': State, j: Direction)
    requires Shape(s) && ThreadStep(s, Cross(i), s') && Shape(s')
    requires s.lock[j] == Some(Cross(i)) <==> HoldsLane(s, Cross(i), j)
    ensures s'.lock[j] == Some(Cross(i)) <==> HoldsLane(s', Cross(i), j)
  {
    hide LaneState.RingOk, LockOrder, PathList, LaneState.TakeCar, LaneState.Deliver;
  }

  lemma CrossKeepsOtherLock(s: State, i: Direction, s': State, j: Direction, t: Thread)
    requires Shape(s) && ThreadStep(s, Cross(i), s') && Shape(s') && t != Cross(i)
    requires s.lock[j] == Some(t) <==> HoldsLane(s, t, j)
    requires s.lock[j] == Some(Cross(i)) <==> HoldsLane(s, Cross(i), j)
    ensures s'.lock[j] == Some(t) <==> HoldsLane(s', t, j)
  {
    hide LaneState.RingOk, LockOrder, PathList, LaneState.TakeCar, LaneState.Deliver;
  }

  /** Locking the next quadrant of the path adds exactly that quadrant. */
  lemma LockingQuad(s: State, i: Direction, s': State, j: Direction, q: Direction)
    requires Shape(s) && ThreadStep(s, Cross(i), s') && Shape(s') && s.cross[i].CQuad?
    requires s.quad[q] == Some(j) <==> HoldsQuad(s, j, q)
    ensures s'.quad[q] == Some(j) <==> HoldsQuad(s', j, q)
  {
    var k := s.cross[i].slot;
    var l := s.list[j];
    if j == i {
      if l[k] == q { assert HoldsQuad(s', j, q); }
      if HoldsQuad(s, j, q) {
        var m :| 0 <= m < k && l[m] == q;
        assert HoldsQuad(s', j, q);
      }
    } else {
      assert HoldsQuad(s', j, q) <==> HoldsQuad(s, j, q);
    }
  }

  /** Unlocking a quadrant of the path removes exactly that quadrant. */
  lemma UnlockingQuad(s: State, i: Direction, s': State, j: Direction, q: Direction)
    requires Shape(s) && ThreadStep(s, Cross(i), s') && Shape(s') && s.cross[i].CRelease?
    requires s.quad[q] == Some(j) <==> HoldsQuad(s, j, q)
    requires s.quad[q] == Some(i) <==> HoldsQuad(s, i, q)
    ensures s'.quad[q] == Some(j) <==> HoldsQuad(s', j, q)
  {
    var k := s.cross[i].slot;
    var l := s.list[j];
    if j == i {
      if HoldsQuad(s, j, q) {
        var m :| k <= m < 4 && l[m] == q;
        if m != k { assert HoldsQuad(s', j, q); }
      }
    } else {
      assert HoldsQuad(s', j, q) <==> HoldsQuad(s, j, q);
      if s.list[i][k] == q { assert HoldsQuad(s, i, q); }
    }
  }

  lemma CrossKeepsQuad(s: State, i: Direction, s': State, j: Direction, q: Direction)
    requires Shape(s) && ThreadStep(s, Cross(i), s') && Shape(s')
    requires s.quad[q] == Some(j) <==> HoldsQuad(s, j, q)
    requires s.quad[q] == Some(i) <==> HoldsQuad(s, i, q)
    ensures s'.quad[q] == Some(j) <==> HoldsQuad(s', j, q)
  {
    if s.cross[i].CQuad? {
      LockingQuad(s, i, s', j, q);
    } else if s.cross[i].CRelease? {
      UnlockingQuad(s, i, s', j, q);
    } else {
      assert s'.quad == s.quad;
      assert HeldSlots(s'.cross[j]) == HeldSlots(s.cross[j]);
      assert !s.cross[i].CCheck? ==> s'.list[j] == s.list[j];
    }
  }

  lemma FromAppend(log: seq<Car>, c: Car, j: nat)
    ensures From(log + [c], j) == From(log, j) + (if c.inDir == j then [c] else [])
    ensures Towards(log + [c], j) == (if c.outDir == j then [c] else []) + Towards(log, j)
  {
    assert (log + [c])[..|log|] == log;
  }

  /** What delivering a car does to lane j. */
  ghost predicate Pushed(s: State, i: Direction, s': State, j: Direction)
    requires Shape(s) && Shape(s')
  {
    var c := s.car[i];
    && s'.log == s.log + [c] && s'.lanes[j] == (if j == c.outDir then s.lanes[j].Deliver(c) else s.lanes[j])
    && InFlight(s, i) == [c] && InFlight(s', j) == (if j == i then [] else InFlight(s, j))
    && HasCar(s'.cross[j]) == HasCar(s.cross[j]) && HasCar(s.cross[i]) && s'.car == s.car && s'.list == s.list
  }

  lemma PushIs(s: State, i: Direction, s': State, j: Direction)
    requires Shape(s) && ThreadStep(s, Cross(i), s') && Shape(s') && s.cross[i].CPush?
    ensures Pushed(s, i, s', j)
  {
    hide LaneState.RingOk, LockOrder;
  }

  lemma PushKeepsOrder(s: State, i: Direction, s': State, schedule: seq<Car>, j: Direction)
    requires Shape(s) && Shape(s') && Pushed(s, i, s', j)
    requires OrderInv(s, schedule, j) && OrderInv(s, schedule, i)
    ensures OrderInv(s', schedule, j)
  {
    hide From, Towards, Pending, LaneState.Queue, PathList, HasCar, InFlight, LaneState.RingOk, LockOrder;
    var c := s.car[i];
    FromAppend(s.log, c, j);
    DeliverKeepsLane(s.lanes[j], c);
    assert From(s'.log, j) + InFlight(s', j) == From(s.log, j) + InFlight(s, j);
  }

  lemma DeliverKeepsLane(l: LaneState, c: Car)
    requires l.RingOk()
    ensures l.Deliver(c).RingOk() && l.Deliver(c).Queue() == l.Queue()
    ensures l.Deliver(c).inCars == l.inCars && l.Deliver(c).outCars == [c] + l.outCars
  {
    l.DeliverKeepsQueue(c);
  }

  /** What taking a car from the buffer does to lane i. */
  ghost predicate Took(s: State, i: Direction, s': State)
    requires Shape(s) && Shape(s')
  {
    var l := s.lanes[i];
    && l.inBuf > 0 && s'.lanes[i] == l.TakeCar() && s'.log == s.log
    && s'.car[i] == l.buffer[l.head] && s'.list[i] == PathList(s'.car[i].inDir, s'.car[i].outDir)
    && InFlight(s, i) == [] && InFlight(s', i) == [s'.car[i]]
  }

  lemma TakeIs(s: State, i: Direction, s': State)
    requires Shape(s) && ThreadStep(s, Cross(i), s') && Shape(s') && s.cross[i].CCheck? && s.lanes[i].inBuf > 0
    ensures Took(s, i, s')
  {
    hide LockOrder;
  }

  lemma TakeKeepsOrder(s: State, i: Direction, s': State, schedule: seq<Car>)
    requires Shape(s) && Shape(s') && Took(s, i, s') && OrderInv(s, schedule, i)
    ensures OrderInv(s', schedule, i)
  {
    var l, after := s.lanes[i], s'.lanes[i];
    TakeCarSplits(l);
    hide From, Towards, Pending, LaneState.Queue, PathList, HasCar, InFlight, LaneState.RingOk, LockOrder,
      LaneState.TakeCar;
    InFront(From(s.log, i), s'.car[i], after.Queue(), l.inCars, Pending(schedule, i));
  }

  lemma TakeCarSplits(l: LaneState)
    requires l.RingOk() && l.inBuf > 0
    ensures var after := l.TakeCar();
      after.RingOk() && l.Queue() == [l.buffer[l.head]] + after.Queue() && after.inCars == l.inCars
        && after.outCars == l.outCars
  {
    l.TakeCarDequeues();
  }

  lemma InFront(done: seq<Car>, c: Car, queue: seq<Car>, pending: seq<Car>, all: seq<Car>)
    requires done + [] + ([c] + queue) + pending == all
    ensures done + [c] + queue + pending == all && c in all
  {
    assert done + [] + ([c] + queue) + pending == done + [c] + queue + pending;
    assert all[|done|] == c;
  }

  lemma CrossIsQuiet(s: State, i: Direction, s': State, j: Direction)
    requires Shape(s) && ThreadStep(s, Cross(i), s') && Shape(s')
    requires !s.cross[i].CPush? && !(s.cross[i].CCheck? && s.lanes[i].inBuf > 0 && j == i)
    ensures Quiet(s, s', j)
  {
    hide LaneState.RingOk, LockOrder, PathList;
  }

  lemma CrossKeepsOrder(s: State, i: Direction, s': State, schedule: seq<Car>, j: Direction)
    requires Shape(s) && ThreadStep(s, Cross(i), s') && Shape(s')
    requires OrderInv(s, schedule, j) && OrderInv(s, schedule, i)
    ensures OrderInv(s', schedule, j)
  {
    hide ThreadStep, OrderInv, Quiet, Pushed, Took;
    if s.cross[i].CPush? {
      PushIs(s, i, s', j);
      PushKeepsOrder(s, i, s', schedule, j);
    } else if s.cross[i].CCheck? && s.lanes[i].inBuf > 0 && j == i {
      TakeIs(s, i, s');
      TakeKeepsOrder(s, i, s', schedule);
    } else {
      CrossIsQuiet(s, i, s', j);
      QuietKeepsOrder(s, s', schedule, j);
    }
  }

  lemma CrossKeepsInv(s: State, i: Direction, s': State, schedule: seq<Car>)
    requires Inv(s, schedule) && ThreadStep(s, Cross(i), s')
    ensures Inv(s', schedule)
  {
    CrossKeepsShape(s, i, s');
    forall j: Direction ensures LaneInv(s'.lanes[j], s'.arrive[j], s'.cross[j]) { CrossKeepsLane(s, i, s', j); }
    forall j: Direction ensures OrderInv(s', schedule, j) { CrossKeepsOrder(s, i, s', schedule, j); }
    forall j: Direction, t: Thread ensures s'.lock[j] == Some(t) <==> HoldsLane(s', t, j) {
      CrossKeepsLock(s, i, s', j, t);
    }
    forall j: Direction, q: Direction ensures s'.quad[q] == Some(j) <==> HoldsQuad(s', j, q) {
      CrossKeepsQuad(s, i, s', j, q);
    }
  }

  // ---- All steps ----

  lemma NextKeepsInv(s: State, s': State, schedule: seq<Car>)
    requires Inv(s, schedule) && Next(s, s')
    ensures Inv(s', schedule)
  {
    var t :| ThreadStep(s, t, s');
    match t
    case Arrive(i) => ArriveKeepsInv(s, i, s', schedule);
    case Cross(i) => CrossKeepsInv(s, i, s', schedule);
  }

  lemma WakeIsQuiet(s: State, s': State, j: Direction)
    requires Shape(s) && SpuriousWake(s, s')
    ensures Shape(s') && Quiet(s, s', j)
  {
    hide LaneState.RingOk, LockOrder;
  }

  lemma SpuriousWakeKeepsInv(s: State, s': State, schedule: seq<Car>)
    requires Inv(s, schedule) && SpuriousWake(s, s')
    ensures Inv(s', schedule)
  {
    forall j: Direction ensures LaneInv(s'.lanes[j], s'.arrive[j], s'.cross[j]) {
      assert LaneInv(s.lanes[j], s.arrive[j], s.cross[j]);
    }
    forall j: Direction ensures OrderInv(s', schedule, j) {
      WakeIsQuiet(s, s', j);
      QuietKeepsOrder(s, s', schedule, j);
    }
    forall j: Direction, t: Thread ensures s'.lock[j] == Some(t) <==> HoldsLane(s', t, j) {
      assert s.lock[j] == Some(t) <==> HoldsLane(s, t, j);
    }
    forall j: Direction, q: Direction ensures s'.quad[q] == Some(j) <==> HoldsQuad(s', j, q) {
      assert s.quad[q] == Some(j) <==> HoldsQuad(s, j, q);
      assert HeldSlots(s'.cross[j]) == HeldSlots(s.cross[j]) && s'.list[j] == s.list[j];
    }
  }

  /** A run of the program on a schedule, spurious wakeups included. */
  ghost predicate Run(schedule: seq<Car>, run: seq<State>) {
    && run != []
    && Init(run[0], schedule)
    && forall k :: 0 <= k < |run| - 1 ==>
         Shape(run[k]) && (Next(run[k], run[k + 1]) || SpuriousWake(run[k], run[k + 1]))
  }

  lemma RunPrefix(schedule: seq<Car>, run: seq<State>)
    requires Run(schedule, run) && |run| > 1
    ensures Run(schedule, run[..|run| - 1])
    ensures var s, s' := run[|run| - 2], run[|run| - 1]; Shape(s) && (Next(s, s') || SpuriousWake(s, s'))
  {
    var before := run[..|run| - 1];
    forall k | 0 <= k < |before| - 1
      ensures Shape(before[k]) && (Next(before[k], before[k + 1]) || SpuriousWake(before[k], before[k + 1]))
    {
      assert before[k] == run[k] && before[k + 1] == run[k + 1];
    }
    assert run[|run| - 2 + 1] == run[|run| - 1];
  }

  lemma {:induction false} RunInv(schedule: seq<Car>, run: seq<State>)
    requires Run(schedule, run)
    ensures Inv(run[|run| - 1], schedule)
  {
    if |run| == 1 {
      InitInv(run[0], schedule);
    } else {
      RunPrefix(schedule, run);
      RunInv(schedule, run[..|run| - 1]);
      var s, s' := run[|run| - 2], run[|run| - 1];
      if Next(s, s') {
        NextKeepsInv(s, s', schedule);
      } else {
        SpuriousWakeKeepsInv(s, s', schedule);
      }
    }
  }
}
