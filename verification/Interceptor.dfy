/** The system call interceptor: its metadata table, the four commands, process exit and the generic
    handler.  Every command runs under the table lock, so a run is a sequence of whole commands. */
module Interceptor {

  const REQUEST_SYSCALL_INTERCEPT: int := 1
  const REQUEST_SYSCALL_RELEASE: int := 2
  const REQUEST_START_MONITORING: int := 3
  const REQUEST_STOP_MONITORING: int := 4
  const MY_CUSTOM_SYSCALL: int := 0
  const EPERM: int := 1
  const ENOMEM: int := 12
  const EBUSY: int := 16
  const EINVAL: int := 22

  /** What a slot of the system call table points to: the kernel's own function, `interceptor`,
      `my_syscall` or `my_exit_group`. */
  datatype Handler = Own(n: nat) | Generic | Custom | ExitGroup

  /** `mytable`; monitored is 0 for nobody, 1 for the listed pids, 2 for everybody. */
  datatype Row = Row(f: Handler, intercepted: bool, monitored: int, listcount: int, pids: seq<int>)

  datatype Kernel = Kernel(calls: seq<Handler>, rows: seq<Row>)

  /** What a command finds out about its caller and its pid, and whether kmalloc succeeds. */
  datatype Caller = Caller(root: bool, owner: bool, pidExists: bool, memory: bool)

  // ---- List operations ----

  function Position(pids: seq<int>, pid: int): (i: nat)
    ensures i <= |pids| && (i < |pids| ==> pids[i] == pid)
    ensures forall j :: 0 <= j < i ==> pids[j] != pid
  {
    if pids == [] || pids[0] == pid then 0 else 1 + Position(pids[1..], pid)
  }

  /** `add_pid_sysc`. */
  function AddPid(row: Row, pid: int, memory: bool): (Row, int) {
    if !memory then (row, -ENOMEM) else (row.(pids := [pid] + row.pids, listcount := row.listcount + 1), 0)
  }

  function Unlisted(row: Row, i: nat): Row
    requires i < |row.pids|
  {
    var left := row.(pids := row.pids[..i] + row.pids[i + 1..], listcount := row.listcount - 1);
    if left.listcount == 0 && left.monitored == 1 then left.(monitored := 0) else left
  }

  /** `del_pid_sysc`. */
  function DelPid(row: Row, pid: int): (Row, int) {
    var i := Position(row.pids, pid);
    if i == |row.pids| then (row, -EINVAL) else (Unlisted(row, i), 0)
  }

  /** The inner loop of `del_pid`: every occurrence goes. */
  function DelEvery(row: Row, pid: int): Row
    decreases |row.pids|
  {
    var i := Position(row.pids, pid);
    if i == |row.pids| then row else DelEvery(Unlisted(row, i), pid)
  }

  /** `destroy_list`. */
  function Destroyed(row: Row): Row {
    row.(pids := [], listcount := 0, monitored := 0)
  }

  // ---- Commands ----

  function StartRow(row: Row, pid: int, c: Caller): (Row, int) {
    if !row.intercepted then (row, -EINVAL)
    else if row.monitored != 0 then (row, -EBUSY)
    else if pid == 0 then (if !c.root then (row, -EPERM) else (Destroyed(row).(monitored := 2), 0))
    else if !c.root && !c.owner then (row, -EPERM)
    else
      var (after, error) := AddPid(row.(monitored := 1), pid, c.memory);
      if error != 0 then (after, -ENOMEM) else (after, 0)
  }

  /** The checks of the stop command and its first deletion; the result is an error, or the row that
      the common end of the command works on. */
  function StopFirst(row: Row, pid: int, c: Caller): (Row, int) {
    if !c.root && pid == 0 then (row, -EPERM)
    else if !c.root && !c.owner then (row, -EPERM)
    else if c.root && pid == 0 then (Destroyed(row), 0)
    else if row.monitored == 0 || row.monitored == 2 then (row, -EINVAL)
    else
      var (after, error) := DelPid(row, pid);
      if error != 0 then (row, -ENOMEM) else (after, 0)
  }

  function Recounted(row: Row): Row {
    row.(monitored := if row.listcount == 0 then 0 else 1)
  }

  /** The stop command, with the second deletion at its end. */
  function StopRow(row: Row, pid: int, c: Caller): (Row, int) {
    var (first, error) := StopFirst(row, pid, c);
    if error != 0 then (first, error) else (DelPid(Recounted(first), pid).0, 0)
  }

  predicate ValidCall(k: Kernel, cmd: int, syscall: int, pid: int, c: Caller) {
    && 1 <= cmd <= 4 && 0 <= syscall < |k.rows| && syscall != MY_CUSTOM_SYSCALL
    && pid >= 0 && (pid != 0 ==> c.pidExists)
  }

  /** `my_syscall`. */
  function MySyscall(k: Kernel, cmd: int, syscall: int, pid: int, c: Caller): (Kernel, int)
    requires |k.calls| == |k.rows|
  {
    if !ValidCall(k, cmd, syscall, pid, c) then (k, -EINVAL)
    else
      var row := k.rows[syscall];
      if cmd == REQUEST_SYSCALL_INTERCEPT then
        if !c.root then (k, -EPERM)
        else if row.intercepted then (k, -EBUSY)
        else
          (Kernel(k.calls[syscall := Generic], k.rows[syscall := row.(f := k.calls[syscall], intercepted := true)]), 0)
      else if cmd == REQUEST_SYSCALL_RELEASE then
        if !c.root then (k, -EPERM)
        else if !row.intercepted then (k, -EBUSY)
        else (Kernel(k.calls[syscall := row.f], k.rows[syscall := row.(intercepted := false)]), 0)
      else
        var (after, error) := if cmd == REQUEST_START_MONITORING then StartRow(row, pid, c) else StopRow(row, pid, c);
        (k.(rows := k.rows[syscall := after]), error)
  }

  /** `my_exit_group`: the pid leaves every list, system call 0's excepted. */
  function ExitProcess(k: Kernel, pid: int): Kernel {
    k.(rows := seq(|k.rows|, s requires 0 <= s < |k.rows| => if s == 0 then k.rows[0] else DelEvery(k.rows[s], pid)))
  }

  /** `interceptor`, or whatever else is in the slot: the function that ends up serving a call. */
  function Served(k: Kernel, s: nat): Handler
    requires s < |k.calls| == |k.rows|
  {
    if k.calls[s] == Generic then k.rows[s].f else k.calls[s]
  }

  /** Whether the call is logged. */
  predicate Logged(k: Kernel, s: nat, pid: int)
    requires s < |k.calls| == |k.rows|
  {
    k.calls[s] == Generic && (pid in k.rows[s].pids || k.rows[s].monitored == 2)
  }

  // ---- The module once loaded ----

  /** What serves a system call while the module is loaded, interception apart. */
  function Baseline(s: nat, exitNumber: nat): Handler {
    if s == 0 then Custom else if s == exitNumber then ExitGroup else Own(s)
  }

  /** `init_function`. */
  function Loaded(n: nat, exitNumber: nat): Kernel {
    Kernel(seq(n, s requires 0 <= s => Baseline(s, exitNumber)),
      seq(n, s requires 0 <= s => Row(Own(s), false, 0, 0, [])))
  }

  /** The count is right, nobody is listed unless single pids are monitored, and then at most one. */
  ghost predicate RowOk(row: Row) {
    && row.listcount == |row.pids| <= 1 && 0 <= row.monitored <= 2
    && (row.monitored != 1 ==> row.pids == [])
    && forall pid :: pid in row.pids ==> pid > 0
  }

  /** The slot points to the generic handler exactly when the row says so, which then keeps what the
      slot held. */
  ghost predicate SlotOk(k: Kernel, s: nat, exitNumber: nat)
    requires s < |k.calls| == |k.rows|
  {
    if k.rows[s].intercepted then k.calls[s] == Generic && k.rows[s].f == Baseline(s, exitNumber)
    else k.calls[s] == Baseline(s, exitNumber)
  }

  ghost predicate Inv(k: Kernel, n: nat, exitNumber: nat) {
    && |k.calls| == |k.rows| == n
    && (forall s :: 0 <= s < n ==> SlotOk(k, s, exitNumber) && RowOk(k.rows[s]))
    && (n > 0 ==> !k.rows[0].intercepted && k.rows[0].pids == [])
  }

  datatype Event = Command(cmd: int, syscall: int, pid: int, caller: Caller) | Exit(pid: int)

  function Step(k: Kernel, e: Event): Kernel
    requires |k.calls| == |k.rows|
  {
    match e
    case Command(cmd, syscall, pid, caller) => MySyscall(k, cmd, syscall, pid, caller).0
    case Exit(pid) => ExitProcess(k, pid)
  }

  /** The kernel after some commands and process exits. */
  function After(n: nat, exitNumber: nat, events: seq<Event>): (k: Kernel)
    ensures |k.calls| == |k.rows| == n
    decreases |events|
  {
    if events == [] then Loaded(n, exitNumber)
    else
      var k := After(n, exitNumber, events[..|events| - 1]);
      StepShape(k, events[|events| - 1]);
      Step(k, events[|events| - 1])
  }

  lemma StepShape(k: Kernel, e: Event)
    requires |k.calls| == |k.rows|
    ensures |Step(k, e).calls| == |Step(k, e).rows| == |k.rows|
  {
  }

  // ---- What each operation keeps ----

  lemma DelPidOk(row: Row, pid: int)
    requires RowOk(row)
    ensures var (after, error) := DelPid(row, pid);
      && RowOk(after) && pid !in after.pids && (error == 0 <==> pid in row.pids) && (error != 0 ==> after == row)
      && after.f == row.f && after.intercepted == row.intercepted
  {
    var i := Position(row.pids, pid);
    if i < |row.pids| { assert row.pids == [pid]; }
  }

  lemma DelEveryOk(row: Row, pid: int)
    requires RowOk(row)
    ensures DelEvery(row, pid) == DelPid(row, pid).0
  {
    DelPidOk(row, pid);
    var i := Position(row.pids, pid);
    if i < |row.pids| {
      assert Unlisted(row, i).pids == [];
      assert DelEvery(Unlisted(row, i), pid) == Unlisted(row, i);
    }
  }

  lemma StartRowOk(row: Row, pid: int, c: Caller)
    requires RowOk(row) && pid >= 0
    ensures var (after, error) := StartRow(row, pid, c);
      RowOk(after) && after.f == row.f && after.intercepted == row.intercepted
  {
  }

  lemma StopRowOk(row: Row, pid: int, c: Caller)
    requires RowOk(row) && pid >= 0
    ensures var (after, error) := StopRow(row, pid, c);
      RowOk(after) && after.f == row.f && after.intercepted == row.intercepted
  {
    DelPidOk(row, pid);
    var (first, error) := StopFirst(row, pid, c);
    if error == 0 { DelPidOk(Recounted(first), pid); }
  }

  lemma CommandKeeps(k: Kernel, n: nat, exitNumber: nat, cmd: int, syscall: int, pid: int, c: Caller)
    requires Inv(k, n, exitNumber)
    ensures Inv(MySyscall(k, cmd, syscall, pid, c).0, n, exitNumber)
  {
    if ValidCall(k, cmd, syscall, pid, c) {
      assert SlotOk(k, syscall, exitNumber) && RowOk(k.rows[syscall]);
      StartRowOk(k.rows[syscall], pid, c);
      StopRowOk(k.rows[syscall], pid, c);
      var t := MySyscall(k, cmd, syscall, pid, c).0;
      forall s | 0 <= s < n ensures SlotOk(t, s, exitNumber) && RowOk(t.rows[s]) {
        assert SlotOk(k, s, exitNumber) && RowOk(k.rows[s]);
      }
    }
  }

  lemma ExitKeeps(k: Kernel, n: nat, exitNumber: nat, pid: int)
    requires Inv(k, n, exitNumber)
    ensures Inv(ExitProcess(k, pid), n, exitNumber)
    ensures forall s :: 0 <= s < n ==> pid !in ExitProcess(k, pid).rows[s].pids
  {
    var t := ExitProcess(k, pid);
    forall s | 0 <= s < n ensures SlotOk(t, s, exitNumber) && RowOk(t.rows[s]) && pid !in t.rows[s].pids {
      assert SlotOk(k, s, exitNumber) && RowOk(k.rows[s]);
      DelEveryOk(k.rows[s], pid);
      DelPidOk(k.rows[s], pid);
    }
  }

  /** Over all commands and process exits: a slot holds the generic handler exactly when its system
      call is intercepted, counts equal list lengths, lists are empty unless single pids are monitored. */
  lemma {:induction false} RunsKeep(n: nat, exitNumber: nat, events: seq<Event>)
    ensures Inv(After(n, exitNumber, events), n, exitNumber)
    decreases |events|
  {
    if events == [] {
      forall s | 0 <= s < n ensures SlotOk(Loaded(n, exitNumber), s, exitNumber) { }
    } else {
      var before, e := events[..|events| - 1], events[|events| - 1];
      RunsKeep(n, exitNumber, before);
      var k := After(n, exitNumber, before);
      match e
      case Command(cmd, syscall, pid, caller) => CommandKeeps(k, n, exitNumber, cmd, syscall, pid, caller);
      case Exit(pid) => ExitKeeps(k, n, exitNumber, pid);
    }
  }

  /** Interception is transparent: whatever has been intercepted, released, monitored or exited, every
      system call is served by the same function as with nothing intercepted. */
  lemma InterceptionIsTransparent(n: nat, exitNumber: nat, events: seq<Event>, s: nat)
    requires s < n
    ensures Served(After(n, exitNumber, events), s) == Baseline(s, exitNumber)
    ensures After(n, exitNumber, events).calls[s] == Generic <==> After(n, exitNumber, events).rows[s].intercepted
  {
    RunsKeep(n, exitNumber, events);
    assert SlotOk(After(n, exitNumber, events), s, exitNumber);
  }

  /** The second deletion at the end of the stop command never removes anything. */
  lemma SecondDeletionIsIdle(n: nat, exitNumber: nat, events: seq<Event>, s: nat, pid: int, c: Caller)
    requires s < n && pid >= 0 && StopFirst(After(n, exitNumber, events).rows[s], pid, c).1 == 0
    ensures var first := Recounted(StopFirst(After(n, exitNumber, events).rows[s], pid, c).0);
      pid !in first.pids && DelPid(first, pid) == (first, -EINVAL)
  {
    RunsKeep(n, exitNumber, events);
    var row := After(n, exitNumber, events).rows[s];
    assert RowOk(row);
    DelPidOk(row, pid);
  }

  /** Once a process has exited it is logged for no system call unless everybody is. */
  lemma ExitForgets(n: nat, exitNumber: nat, events: seq<Event>, pid: int, s: nat)
    requires s < n
    ensures var k := After(n, exitNumber, events + [Exit(pid)]);
      Logged(k, s, pid) <==> k.rows[s].intercepted && k.rows[s].monitored == 2
  {
    var before := After(n, exitNumber, events);
    assert (events + [Exit(pid)])[..|events|] == events;
    RunsKeep(n, exitNumber, events);
    RunsKeep(n, exitNumber, events + [Exit(pid)]);
    ExitKeeps(before, n, exitNumber, pid);
    assert SlotOk(After(n, exitNumber, events + [Exit(pid)]), s, exitNumber);
  }

  /** Who is logged after a start command that succeeds: the pid given and no other, or everybody. */
  lemma StartLogs(n: nat, exitNumber: nat, events: seq<Event>, s: nat, pid: int, c: Caller, other: int)
    requires s < n
    requires MySyscall(After(n, exitNumber, events), REQUEST_START_MONITORING, s, pid, c).1 == 0
    ensures Logged(MySyscall(After(n, exitNumber, events), REQUEST_START_MONITORING, s, pid, c).0, s, other)
      <==> pid == 0 || other == pid
  {
    RunsKeep(n, exitNumber, events);
    var k := After(n, exitNumber, events);
    assert SlotOk(k, s, exitNumber) && RowOk(k.rows[s]);
  }

  /** After a stop command that succeeds nobody is logged: at most one pid was monitored.  It succeeds
      exactly for root asking about everybody, or for that one pid. */
  lemma StopSilences(n: nat, exitNumber: nat, events: seq<Event>, s: nat, pid: int, c: Caller, other: int)
    requires s < n && ValidCall(After(n, exitNumber, events), REQUEST_STOP_MONITORING, s, pid, c)
    ensures var (t, error) := MySyscall(After(n, exitNumber, events), REQUEST_STOP_MONITORING, s, pid, c);
      && (error == 0 <==>
           (pid == 0 && c.root) || ((c.root || c.owner) && pid in After(n, exitNumber, events).rows[s].pids))
      && (error == 0 ==> |t.calls| == |t.rows| == n && !Logged(t, s, other))
  {
    RunsKeep(n, exitNumber, events);
    var k := After(n, exitNumber, events);
    assert SlotOk(k, s, exitNumber) && RowOk(k.rows[s]);
    DelPidOk(k.rows[s], pid);
    var (first, error) := StopFirst(k.rows[s], pid, c);
    if error == 0 { DelPidOk(Recounted(first), pid); }
  }

  /** A start command that fails for want of memory leaves the system call in a state in which nobody
      is monitored, every further start is refused as busy, every stop for a pid fails, and only root's
      stop for everybody helps. */
  lemma FailedStartBlocks(row: Row, pid: int, c: Caller, next: int, d: Caller)
    requires RowOk(row) && pid >= 0 && next >= 0 && StartRow(row, pid, c).1 == -ENOMEM
    ensures var stuck := StartRow(row, pid, c).0;
      && stuck.pids == [] && StartRow(stuck, next, d) == (stuck, -EBUSY)
      && (StopRow(stuck, next, d).1 == 0 <==> next == 0 && d.root)
      && (next == 0 && d.root ==> StopRow(stuck, next, d).0.monitored == 0)
  {
  }
}
