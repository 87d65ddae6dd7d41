/** The running program: four arrival threads, four crossing threads, four lane locks, four quadrant
    locks and the condition variables, stepped in any order the scheduler likes.

    A step is the code between two points where another thread can be observed: a lock operation,
    or the statements a thread runs while it holds the lock that guards them. */
module Intersection {
  import opened Options
  import opened Paths
  import opened Lanes

  /** Where an arrival thread (`car_arrive`, `add_car_to_lane`) is. */
  datatype ArrivePc =
    | ATest      // about to test l->in_cars
    | ALock      // about to lock the lane
    | ACheck     // holds the lane, about to test for a full buffer
    | AWait      // in pthread_cond_wait(producer_cv)
    | ARelock    // woken, about to re-acquire the lane
    | ASignal    // holds the lane, about to broadcast consumer_cv
    | AUnlock    // holds the lane, about to unlock it
    | ADone

  /** Where a crossing thread (`car_cross`, `pass_car_through_quad`) is. */
  datatype CrossPc =
    | CTest | CLock | CCheck | CWait | CRelock | CSignal | CUnlock
    | CQuad(slot: nat)     // about to lock the quadrant in that slot of its path
    | CExitLock            // about to lock the exit lane
    | CPush                // holds everything, about to deliver and print
    | CExitUnlock
    | CRelease(slot: nat)  // about to unlock the quadrant in that slot
    | CDone

  datatype Thread = Arrive(lane: Direction) | Cross(lane: Direction)

  datatype State = State(
    lanes: seq<LaneState>,
    arrive: seq<ArrivePc>,
    cross: seq<CrossPc>,
    car: seq<Car>,               // lane_car of each crossing thread
    list: seq<seq<int>>,         // the path list of each crossing thread
    lock: seq<Option<Thread>>,   // owner of each lane lock
    quad: seq<Option<Direction>>,// the crossing thread that owns each quadrant lock
    log: seq<Car>)               // the lines printed so far

  ghost predicate Shape(s: State) {
    && |s.lanes| == 4 && |s.arrive| == 4 && |s.cross| == 4 && |s.car| == 4 && |s.list| == 4
    && |s.lock| == 4 && |s.quad| == 4
    && (forall i :: 0 <= i < 4 ==> s.lanes[i].RingOk())
    && (forall i :: 0 <= i < 4 ==> (s.cross[i].CQuad? || s.cross[i].CRelease?) ==> s.cross[i].slot < 4)
    && (forall i :: 0 <= i < 4 ==> LockOrder(s.list[i]))
  }

  // ---- Steps ----

  /** A thread can take a step: it is not finished, not waiting, and no lock it wants is taken. */
  ghost predicate Enabled(s: State, t: Thread)
    requires Shape(s)
  {
    match t
    case Arrive(i) =>
      (match s.arrive[i]
       case ALock => s.lock[i].None?
       case ARelock => s.lock[i].None?
       case AWait => false
       case ADone => false
       case _ => true)
    case Cross(i) =>
      (match s.cross[i]
       case CLock => s.lock[i].None?
       case CRelock => s.lock[i].None?
       case CQuad(k) => s.list[i][k] == NONE || s.quad[s.list[i][k]].None?
       case CExitLock => s.lock[s.car[i].outDir].None?
       case CWait => false
       case CDone => false
       case _ => true)
  }

  ghost function ArriveStep(s: State, i: Direction): State
    requires Shape(s) && Enabled(s, Arrive(i))
    requires s.arrive[i] == ACheck && s.lanes[i].inBuf < LANE_LENGTH ==> s.lanes[i].inCars != []
  {
    match s.arrive[i]
    case ATest =>
      s.(arrive := s.arrive[i := if s.lanes[i].inCars != [] then ALock else ADone])
    case ALock =>
      s.(lock := s.lock[i := Some(Arrive(i))], arrive := s.arrive[i := ACheck])
    case ACheck =>
      if s.lanes[i].inBuf >= LANE_LENGTH then
        s.(lock := s.lock[i := None], arrive := s.arrive[i := AWait])
      else
        s.(lanes := s.lanes[i := s.lanes[i].AddCar()], arrive := s.arrive[i := ASignal])
    case ARelock =>
      s.(lock := s.lock[i := Some(Arrive(i))], arrive := s.arrive[i := ACheck])
    case ASignal =>
      s.(arrive := s.arrive[i := AUnlock],
         cross := if s.cross[i] == CWait then s.cross[i := CRelock] else s.cross)
    case AUnlock =>
      s.(lock := s.lock[i := None], arrive := s.arrive[i := ATest])
  }

  ghost function CrossStep(s: State, i: Direction): State
    requires Shape(s) && Enabled(s, Cross(i))
  {
    var lane := s.lanes[i];
    match s.cross[i]
    case CTest =>
      s.(cross := s.cross[i := if lane.passed != lane.inc && lane.inc != 0 then CLock else CDone])
    case CLock =>
      s.(lock := s.lock[i := Some(Cross(i))], cross := s.cross[i := CCheck])
    case CCheck =>
      if lane.inBuf == 0 then
        s.(lock := s.lock[i := None], cross := s.cross[i := CWait])
      else
        s.(lanes := s.lanes[i := lane.TakeCar()],
           car := s.car[i := lane.buffer[lane.head]],
           list := s.list[i := PathList(lane.buffer[lane.head].inDir, lane.buffer[lane.head].outDir)],
           cross := s.cross[i := CSignal])
    case CRelock =>
      s.(lock := s.lock[i := Some(Cross(i))], cross := s.cross[i := CCheck])
    case CSignal =>
      s.(cross := s.cross[i := CUnlock],
         arrive := if s.arrive[i] == AWait then s.arrive[i := ARelock] else s.arrive)
    case CUnlock =>
      s.(lock := s.lock[i := None], cross := s.cross[i := CQuad(0)])
    case CQuad(k) =>
      var q := s.list[i][k];
      s.(quad := if q == NONE then s.quad else s.quad[q := Some(i)],
         cross := s.cross[i := if k + 1 < 4 then CQuad(k + 1) else CExitLock])
    case CExitLock =>
      s.(lock := s.lock[s.car[i].outDir := Some(Cross(i))], cross := s.cross[i := CPush])
    case CPush =>
      var out := s.car[i].outDir;
      s.(lanes := s.lanes[out := s.lanes[out].Deliver(s.car[i])],
         log := s.log + [s.car[i]],
         cross := s.cross[i := CExitUnlock])
    case CExitUnlock =>
      s.(lock := s.lock[s.car[i].outDir := None], cross := s.cross[i := CRelease(0)])
    case CRelease(k) =>
      var q := s.list[i][k];
      s.(quad := if q == NONE then s.quad else s.quad[q := None],
         cross := s.cross[i := if k + 1 < 4 then CRelease(k + 1) else CTest])
  }

  /** A thread returns from pthread_cond_wait although nobody signalled. */
  ghost predicate SpuriousWake(s: State, s': State)
    requires Shape(s)
  {
    exists i: Direction ::
      || (s.arrive[i] == AWait && s' == s.(arrive := s.arrive[i := ARelock]))
      || (s.cross[i] == CWait && s' == s.(cross := s.cross[i := CRelock]))
  }

  ghost predicate ThreadStep(s: State, t: Thread, s': State)
    requires Shape(s)
  {
    && Enabled(s, t)
    && match t
       case Arrive(i) =>
         (s.arrive[i] == ACheck && s.lanes[i].inBuf < LANE_LENGTH ==> s.lanes[i].inCars != [])
         && s' == ArriveStep(s, i)
       case Cross(i) => s' == CrossStep(s, i)
  }

  /** One step of one thread. */
  ghost predicate Next(s: State, s': State) {
    Shape(s) && exists t :: ThreadStep(s, t, s')
  }

  /** `init_intersection` and `parse_schedule`, before the threads start. */
  ghost predicate Init(s: State, schedule: seq<Car>) {
    && Shape(s)
    && (forall i: Direction ::
         && s.lanes[i].inCars == Pending(schedule, i) && s.lanes[i].outCars == []
         && s.lanes[i].inc == |Pending(schedule, i)| && s.lanes[i].passed == 0
         && s.lanes[i].head == 0 && s.lanes[i].tail == 0 && s.lanes[i].inBuf == 0
         && s.arrive[i] == ATest && s.cross[i] == CTest
         && s.lock[i] == None && s.quad[i] == None
         && s.list[i] == [NONE, NONE, NONE, NONE])
    && s.log == []
  }

  // ---- The invariant ----

  /** The crossing thread holds a car that is not delivered yet. */
  predicate Carrying(pc: CrossPc) {
    pc.CSignal? || pc.CUnlock? || pc.CQuad? || pc.CExitLock? || pc.CPush?
  }

  /** The crossing thread's car and path are meaningful. */
  predicate HasCar(pc: CrossPc) {
    Carrying(pc) || pc.CExitUnlock? || pc.CRelease?
  }

  /** A lane's cars are all accounted for and no wakeup it needs can be lost. */
  ghost predicate LaneInv(l: LaneState, a: ArrivePc, c: CrossPc) {
    && l.RingOk()
    && l.passed + l.inBuf + |l.inCars| == l.inc
    && ((a.ALock? || a.ACheck? || a.AWait? || a.ARelock?) ==> l.inCars != [])
    && (a.ADone? ==> l.inCars == [])
    && (a.AWait? ==> l.inBuf == LANE_LENGTH || c.CSignal?)
    && ((c.CLock? || c.CCheck? || c.CWait? || c.CRelock?) ==> l.passed != l.inc)
    && (c.CDone? ==> l.passed == l.inc)
    && (c.CWait? ==> l.inBuf == 0 || a.ASignal?)
  }

  /** Lane lock j is held by thread t, judging by where t is. */
  ghost predicate HoldsLane(s: State, t: Thread, j: Direction)
    requires |s.arrive| == 4 && |s.cross| == 4 && |s.car| == 4 && |s.list| == 4
  {
    match t
    case Arrive(i) => i == j && (s.arrive[i].ACheck? || s.arrive[i].ASignal? || s.arrive[i].AUnlock?)
    case Cross(i) =>
      || (i == j && (s.cross[i].CCheck? || s.cross[i].CSignal? || s.cross[i].CUnlock?))
      || (j == s.car[i].outDir && (s.cross[i].CPush? || s.cross[i].CExitUnlock?))
  }

  /** The slots of its path whose quadrant locks crossing thread i holds. */
  function HeldSlots(pc: CrossPc): (int, int) {
    match pc
    case CQuad(k) => (0, k)
    case CExitLock => (0, 4)
    case CPush => (0, 4)
    case CExitUnlock => (0, 4)
    case CRelease(k) => (k, 4)
    case _ => (0, 0)
  }

  ghost predicate HoldsQuad(s: State, i: Direction, q: Direction)
    requires |s.list| == 4 && |s.list[i]| == 4 && |s.cross| == 4
  {
    exists k :: HeldSlots(s.cross[i]).0 <= k < HeldSlots(s.cross[i]).1 && 0 <= k < 4 && s.list[i][k] == q
  }

  ghost predicate LockInv(s: State)
    requires Shape(s)
  {
    forall j: Direction, t: Thread :: s.lock[j] == Some(t) <==> HoldsLane(s, t, j)
  }

  ghost predicate QuadInv(s: State)
    requires Shape(s)
  {
    forall i: Direction, q: Direction :: s.quad[q] == Some(i) <==> HoldsQuad(s, i, q)
  }

  /** The printed cars that entered from direction i, in print order. */
  function From(log: seq<Car>, i: nat): (r: seq<Car>) {
    if log == [] then []
    else
      var last := log[|log| - 1];
      From(log[..|log| - 1], i) + (if last.inDir == i then [last] else [])
  }

  /** The printed cars that left towards direction j, latest first. */
  function Towards(log: seq<Car>, j: nat): (r: seq<Car>) {
    if log == [] then []
    else
      var last := log[|log| - 1];
      (if last.outDir == j then [last] else []) + Towards(log[..|log| - 1], j)
  }

  /** The car in the hands of lane i's crossing thread. */
  ghost function InFlight(s: State, i: Direction): seq<Car>
    requires |s.car| == 4 && |s.cross| == 4
  {
    if Carrying(s.cross[i]) then [s.car[i]] else []
  }

  /** Every car of lane i is printed, in flight, buffered or pending, in the order it was scheduled. */
  ghost predicate OrderInv(s: State, schedule: seq<Car>, i: Direction)
    requires Shape(s)
  {
    && From(s.log, i) + InFlight(s, i) + s.lanes[i].Queue() + s.lanes[i].inCars == Pending(schedule, i)
    && s.lanes[i].outCars == Towards(s.log, i)
    && (HasCar(s.cross[i]) ==> s.car[i].inDir == i && s.list[i] == PathList(i, s.car[i].outDir))
  }

  ghost predicate Inv(s: State, schedule: seq<Car>) {
    && Shape(s)
    && (forall i: Direction :: LaneInv(s.lanes[i], s.arrive[i], s.cross[i]))
    && (forall i: Direction :: OrderInv(s, schedule, i))
    && LockInv(s)
    && QuadInv(s)
  }
}
