/** The entry lanes and their circular buffers: `struct lane`, `add_car_to_lane`, the dequeue in
    `car_cross`, the hand-over to the exit lane and `parse_schedule`. */
module Lanes {
  import opened Paths

  const LANE_LENGTH := 10

  datatype Car = Car(id: int, inDir: Direction, outDir: Direction)

  /** The values of a lane's fields.  `inCars` and `outCars` are the two linked lists, head first. */
  datatype LaneState = LaneState(
    inCars: seq<Car>, outCars: seq<Car>, inc: nat, passed: nat,
    buffer: seq<Car>, head: nat, tail: nat, inBuf: nat)
  {
    /** Head and tail delimit the occupied part of the ring. */
    ghost predicate RingOk() {
      && |buffer| == LANE_LENGTH
      && head < LANE_LENGTH && tail < LANE_LENGTH && inBuf <= LANE_LENGTH
      && tail == (head + inBuf) % LANE_LENGTH
    }

    /** The waiting cars, oldest first, wherever the ring has wrapped. */
    ghost function Queue(): (q: seq<Car>)
      requires RingOk()
      ensures |q| == inBuf
    {
      seq(inBuf, k requires 0 <= k => buffer[(head + k) % LANE_LENGTH])
    }

    /** `add_car_to_lane` once there is room. */
    function AddCar(): LaneState
      requires inCars != [] && tail < |buffer|
    {
      this.(buffer := buffer[tail := inCars[0]],
            inCars := inCars[1..],
            inBuf := inBuf + 1,
            tail := if tail + 1 >= LANE_LENGTH then 0 else tail + 1)
    }

    /** The dequeue of `car_cross` once a car is there. */
    function TakeCar(): LaneState
      requires inBuf > 0
    {
      this.(passed := passed + 1,
            inBuf := inBuf - 1,
            head := if head + 1 >= LANE_LENGTH then 0 else head + 1)
    }

    /** A crossed car becomes the head of the exit lane's list. */
    function Deliver(car: Car): LaneState {
      this.(outCars := [car] + outCars)
    }

    lemma DeliverKeepsQueue(car: Car)
      requires RingOk()
      ensures Deliver(car).RingOk() && Deliver(car).Queue() == Queue()
    {
    }

    /** Adding a car appends it to the queue, also when the tail wraps. */
    lemma AddCarEnqueues()
      requires RingOk() && inCars != [] && inBuf < LANE_LENGTH
      ensures AddCar().RingOk()
      ensures AddCar().Queue() == Queue() + [inCars[0]]
    {
      forall k: nat | k < inBuf ensures AddCar().Queue()[k] == Queue()[k] {
        assert (head + k) % LANE_LENGTH != tail;
      }
    }

    /** Taking a car removes the head of the queue, also when the head wraps. */
    lemma TakeCarDequeues()
      requires RingOk() && inBuf > 0
      ensures TakeCar().RingOk()
      ensures Queue() == [buffer[head]] + TakeCar().Queue()
    {
      assert Queue()[0] == buffer[head];
      forall k: nat | k < inBuf - 1 ensures TakeCar().Queue()[k] == Queue()[k + 1] {
        assert (TakeCar().head + k) % LANE_LENGTH == (head + (k + 1)) % LANE_LENGTH;
      }
    }
  }

  /** The cars the schedule sends into lane i, last scheduled first: each parsed car is put at the
      head of its lane's list. */
  function Pending(schedule: seq<Car>, i: nat): (p: seq<Car>)
    ensures forall c :: c in p ==> c.inDir == i
  {
    if schedule == [] then []
    else
      var last := schedule[|schedule| - 1];
      (if last.inDir == i then [last] else []) + Pending(schedule[..|schedule| - 1], i)
  }

  /** One lane of the running program. */
  class Lane {
    var inCars: seq<Car>
    var outCars: seq<Car>
    var inc: nat
    var passed: nat
    var buffer: array<Car>
    var head: nat
    var tail: nat
    var inBuf: nat

    function View(): LaneState
      reads this, buffer
    {
      LaneState(inCars, outCars, inc, passed, buffer[..], head, tail, inBuf)
    }

    ghost predicate Valid()
      reads this, buffer
    {
      View().RingOk()
    }

    /** One lane's part of `init_intersection`; the buffer's first contents are arbitrary. */
    constructor (filler: Car)
      ensures Valid() && fresh(buffer)
      ensures View().Queue() == [] && inCars == [] && outCars == [] && inc == 0 && passed == 0
    {
      inCars, outCars, inc, passed := [], [], 0, 0;
      buffer := new Car[LANE_LENGTH](_ => filler);
      head, tail, inBuf := 0, 0, 0;
    }

    /** One line of the schedule file, parsed into this lane. */
    method Schedule(car: Car)
      requires Valid()
      modifies this`inCars, this`inc
      ensures Valid()
      ensures View() == old(View()).(inCars := [car] + old(inCars), inc := old(inc) + 1)
    {
      inCars := [car] + inCars;
      inc := inc + 1;
    }

    method AddCar()
      requires Valid() && inCars != [] && inBuf < LANE_LENGTH
      modifies this, buffer
      ensures buffer == old(buffer) && View() == old(View()).AddCar()
      ensures Valid() && View().Queue() == old(View().Queue()) + [old(inCars[0])]
      ensures inCars == old(inCars[1..])
    {
      ghost var before := View();
      before.AddCarEnqueues();
      buffer[tail] := inCars[0];
      inCars := inCars[1..];
      inBuf := inBuf + 1;
      tail := tail + 1;
      if tail >= LANE_LENGTH { tail := 0; }
      assert View() == before.AddCar();
    }

    method TakeCar() returns (car: Car)
      requires Valid() && inBuf > 0
      modifies this`passed, this`inBuf, this`head
      ensures View() == old(View()).TakeCar()
      ensures Valid() && [car] + View().Queue() == old(View().Queue())
    {
      ghost var before := View();
      before.TakeCarDequeues();
      car := buffer[head];
      passed := passed + 1;
      inBuf := inBuf - 1;
      head := head + 1;
      if head >= LANE_LENGTH { head := 0; }
      assert View() == before.TakeCar();
    }

    method Deliver(car: Car)
      requires Valid()
      modifies this`outCars
      ensures Valid() && View() == old(View()).Deliver(car)
    {
      outCars := [car] + outCars;
    }
  }

  /** `parse_schedule`: every car is put at the head of the list of its entry lane. */
  method ParseSchedule(schedule: seq<Car>, lanes: seq<Lane>)
    requires |lanes| == 4
    requires forall i, j :: 0 <= i < j < 4 ==> lanes[i] != lanes[j]
    requires forall i :: 0 <= i < 4 ==> lanes[i].Valid() && lanes[i].inCars == [] && lanes[i].inc == 0
    modifies lanes
    ensures forall i :: 0 <= i < 4 ==> lanes[i].buffer == old(lanes[i].buffer)
    ensures forall i :: 0 <= i < 4 ==>
      lanes[i].View() == old(lanes[i].View()).(inCars := Pending(schedule, i), inc := |Pending(schedule, i)|)
  {
    var n := 0;
    while n < |schedule|
      invariant 0 <= n <= |schedule|
      invariant forall i :: 0 <= i < 4 ==> lanes[i].buffer == old(lanes[i].buffer) && lanes[i].Valid()
      invariant forall i :: 0 <= i < 4 ==>
        lanes[i].View()
          == old(lanes[i].View()).(inCars := Pending(schedule[..n], i), inc := |Pending(schedule[..n], i)|)
    {
      assert schedule[..n + 1][..n] == schedule[..n];
      lanes[schedule[n].inDir].Schedule(schedule[n]);
      n := n + 1;
    }
    assert schedule[..n] == schedule;
  }
}
