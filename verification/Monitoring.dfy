/** What the interceptor's commands do, told without lists, counts and saved pointers: each system call is
    intercepted or not, and is watched for nobody, one process, or everybody. */
module Monitoring {
  import opened Interceptor

  /** Blocked: a start command has failed for want of memory. */
  datatype Watch = Nobody | Only(pid: int) | Everybody | Blocked

  datatype Monitor = Monitor(intercepted: seq<bool>, watches: seq<Watch>)

  function WatchOf(row: Row): Watch {
    if row.monitored == 0 then Nobody
    else if row.monitored == 2 then Everybody
    else if row.pids == [] then Blocked
    else Only(row.pids[0])
  }

  /** A system call counts as intercepted if its slot points to the generic handler. */
  function View(k: Kernel): (m: Monitor)
    requires |k.calls| == |k.rows|
    ensures |m.intercepted| == |m.watches| == |k.calls|
  {
    Monitor(seq(|k.calls|, s requires 0 <= s < |k.calls| => k.calls[s] == Generic),
      seq(|k.rows|, s requires 0 <= s < |k.rows| => WatchOf(k.rows[s])))
  }

  // ---- The commands on a monitor ----

  /** The error of a command, 0 if it succeeds. */
  function Answer(m: Monitor, cmd: int, s: int, pid: int, c: Caller): int
    requires |m.intercepted| == |m.watches|
  {
    if cmd < 1 || cmd > 4 || s <= 0 || s >= |m.watches| || pid < 0 || (pid > 0 && !c.pidExists) then -EINVAL
    else if cmd <= 2 && !c.root then -EPERM
    else if cmd <= 2 then (if m.intercepted[s] == (cmd == 1) then -EBUSY else 0)
    else if cmd == 3 && !m.intercepted[s] then -EINVAL
    else if cmd == 3 && m.watches[s] != Nobody then -EBUSY
    else if !c.root && (pid == 0 || !c.owner) then -EPERM
    else if pid == 0 then 0
    else if cmd == 3 then (if c.memory then 0 else -ENOMEM)
    else if m.watches[s] == Nobody || m.watches[s] == Everybody then -EINVAL
    else if m.watches[s] == Only(pid) then 0
    else -ENOMEM
  }

  function Commanded(m: Monitor, cmd: int, s: int, pid: int, c: Caller): Monitor
    requires |m.intercepted| == |m.watches|
  {
    var error := Answer(m, cmd, s, pid, c);
    if error == 0 && cmd <= 2 then m.(intercepted := m.intercepted[s := cmd == 1])
    else if error == 0 then
      m.(watches := m.watches[s := if cmd == 4 then Nobody else if pid == 0 then Everybody else Only(pid)])
    else if error == -ENOMEM && cmd == 3 then m.(watches := m.watches[s := Blocked])
    else m
  }

  /** A process that exits is watched no longer. */
  function Exited(m: Monitor, pid: int): Monitor {
    m.(watches := seq(|m.watches|, s requires 0 <= s < |m.watches| =>
      if m.watches[s] == Only(pid) then Nobody else m.watches[s]))
  }

  /** The monitor after some commands and exits. */
  function MonitorAfter(n: nat, events: seq<Event>): (m: Monitor)
    ensures |m.intercepted| == |m.watches| == n
    decreases |events|
  {
    if events == [] then Monitor(seq(n, _ => false), seq(n, _ => Nobody))
    else
      var m := MonitorAfter(n, events[..|events| - 1]);
      match events[|events| - 1]
      case Command(cmd, s, pid, c) => Commanded(m, cmd, s, pid, c)
      case Exit(pid) => Exited(m, pid)
  }

  // ---- The tables carry it out ----

  /** The start and stop commands on one row. */
  lemma RowCommanded(k: Kernel, n: nat, exitNumber: nat, cmd: int, s: int, pid: int, c: Caller)
    requires Inv(k, n, exitNumber) && ValidCall(k, cmd, s, pid, c) && cmd >= 3
    ensures var (after, error) := if cmd == 3 then StartRow(k.rows[s], pid, c) else StopRow(k.rows[s], pid, c);
      && error == Answer(View(k), cmd, s, pid, c)
      && WatchOf(after) == Commanded(View(k), cmd, s, pid, c).watches[s]
  {
    assert SlotOk(k, s, exitNumber) && RowOk(k.rows[s]);
    var row := k.rows[s];
    DelPidOk(row, pid);
    if cmd == 4 {
      var (first, error) := StopFirst(row, pid, c);
      if error == 0 { DelPidOk(Recounted(first), pid); }
    }
  }

  lemma CommandRefines(k: Kernel, n: nat, exitNumber: nat, cmd: int, s: int, pid: int, c: Caller)
    requires Inv(k, n, exitNumber)
    ensures MySyscall(k, cmd, s, pid, c).1 == Answer(View(k), cmd, s, pid, c)
    ensures View(MySyscall(k, cmd, s, pid, c).0) == Commanded(View(k), cmd, s, pid, c)
  {
    if ValidCall(k, cmd, s, pid, c) {
      assert SlotOk(k, s, exitNumber) && RowOk(k.rows[s]);
      if cmd >= 3 { RowCommanded(k, n, exitNumber, cmd, s, pid, c); }
    }
  }

  lemma ExitRefines(k: Kernel, n: nat, exitNumber: nat, pid: int)
    requires Inv(k, n, exitNumber)
    ensures View(ExitProcess(k, pid)) == Exited(View(k), pid)
  {
    var t := ExitProcess(k, pid);
    forall s | 0 <= s < n
      ensures WatchOf(t.rows[s]) == if WatchOf(k.rows[s]) == Only(pid) then Nobody else WatchOf(k.rows[s])
    {
      assert SlotOk(k, s, exitNumber) && RowOk(k.rows[s]);
      DelEveryOk(k.rows[s], pid);
      DelPidOk(k.rows[s], pid);
    }
  }

  /** After any commands and exits the module's tables say what the monitor says. */
  lemma {:induction false} TablesRefineMonitor(n: nat, exitNumber: nat, events: seq<Event>)
    ensures View(After(n, exitNumber, events)) == MonitorAfter(n, events)
    decreases |events|
  {
    if events != [] {
      var before := events[..|events| - 1];
      TablesRefineMonitor(n, exitNumber, before);
      RunsKeep(n, exitNumber, before);
      var k := After(n, exitNumber, before);
      match events[|events| - 1]
      case Command(cmd, s, pid, c) => CommandRefines(k, n, exitNumber, cmd, s, pid, c);
      case Exit(pid) => ExitRefines(k, n, exitNumber, pid);
    }
  }

  /** And calls are logged for whom the monitor watches. */
  lemma LoggedExactly(n: nat, exitNumber: nat, events: seq<Event>, s: nat, pid: int)
    requires s < n
    ensures var m := MonitorAfter(n, events);
      Logged(After(n, exitNumber, events), s, pid) <==>
        m.intercepted[s] && (m.watches[s] == Only(pid) || m.watches[s] == Everybody)
  {
    hide After, MonitorAfter, Logged, View, SlotOk, RowOk;
    TablesRefineMonitor(n, exitNumber, events);
    RunsKeep(n, exitNumber, events);
    var k := After(n, exitNumber, events);
    assert SlotOk(k, s, exitNumber) && RowOk(k.rows[s]);
    RowLogged(k, s, pid);
  }

  lemma RowLogged(k: Kernel, s: nat, pid: int)
    requires s < |k.calls| == |k.rows| && RowOk(k.rows[s])
    ensures var m := View(k);
      Logged(k, s, pid) <==> m.intercepted[s] && (m.watches[s] == Only(pid) || m.watches[s] == Everybody)
  {
    assert View(k).intercepted[s] == (k.calls[s] == Generic) && View(k).watches[s] == WatchOf(k.rows[s]);
  }

  // ---- Each command, after any others ----

  /** The intercept command succeeds exactly for root on a call not intercepted; it then puts the generic
      handler into that slot, and nothing else of either table changes. */
  lemma InterceptExactly(n: nat, exitNumber: nat, events: seq<Event>, s: int, pid: int, c: Caller)
    requires ValidCall(After(n, exitNumber, events), REQUEST_SYSCALL_INTERCEPT, s, pid, c)
    ensures var k := After(n, exitNumber, events);
      var (t, error) := MySyscall(k, REQUEST_SYSCALL_INTERCEPT, s, pid, c);
      && (error == 0 <==> c.root && k.calls[s] != Generic)
      && (error != 0 ==> t == k)
      && (error == 0 ==>
            && t.calls == k.calls[s := Generic] && |t.rows| == n && t.rows == k.rows[s := t.rows[s]]
            && t.rows[s].intercepted && t.rows[s].f == k.calls[s]
            && t.rows[s].(f := k.rows[s].f, intercepted := k.rows[s].intercepted) == k.rows[s])
  {
    RunsKeep(n, exitNumber, events);
    assert SlotOk(After(n, exitNumber, events), s, exitNumber);
  }

  /** The release command is its mirror: it puts back what served the call before any command. */
  lemma ReleaseExactly(n: nat, exitNumber: nat, events: seq<Event>, s: int, pid: int, c: Caller)
    requires ValidCall(After(n, exitNumber, events), REQUEST_SYSCALL_RELEASE, s, pid, c)
    ensures var k := After(n, exitNumber, events);
      var (t, error) := MySyscall(k, REQUEST_SYSCALL_RELEASE, s, pid, c);
      && (error == 0 <==> c.root && k.calls[s] == Generic)
      && (error != 0 ==> t == k)
      && (error == 0 ==>
            && t.calls == k.calls[s := Baseline(s, exitNumber)] && |t.rows| == n
            && t.rows == k.rows[s := t.rows[s]]
            && !t.rows[s].intercepted && t.rows[s].(intercepted := true) == k.rows[s])
  {
    RunsKeep(n, exitNumber, events);
    assert SlotOk(After(n, exitNumber, events), s, exitNumber);
  }

  /** The start command succeeds exactly on an intercepted call that nothing is watched for, for root, or
      for the owner of a process, if there is memory to list it. */
  lemma StartExactly(n: nat, exitNumber: nat, events: seq<Event>, s: int, pid: int, c: Caller)
    requires ValidCall(After(n, exitNumber, events), REQUEST_START_MONITORING, s, pid, c)
    ensures var k := After(n, exitNumber, events);
      MySyscall(k, REQUEST_START_MONITORING, s, pid, c).1 == 0 <==>
        && k.calls[s] == Generic && k.rows[s].monitored == 0
        && (c.root || (pid != 0 && c.owner)) && (pid == 0 || c.memory)
  {
    RunsKeep(n, exitNumber, events);
    assert SlotOk(After(n, exitNumber, events), s, exitNumber);
  }

  lemma AfterOne(n: nat, exitNumber: nat, events: seq<Event>, e: Event)
    ensures After(n, exitNumber, events + [e]) == Step(After(n, exitNumber, events), e)
  {
    assert (events + [e])[..|events|] == events;
  }

  /** End to end: on a call that is neither intercepted nor watched, root's intercept and then a start for
      a process, by root or its owner and with memory, both succeed, and then the calls of that process
      and of no other are logged. */
  lemma InterceptThenStart(n: nat, exitNumber: nat, events: seq<Event>, s: nat, pid: int, c: Caller, d: Caller,
      other: int)
    requires 0 < s < n && pid > 0 && c.root && c.pidExists && d.pidExists && (d.root || d.owner) && d.memory
    requires var k := After(n, exitNumber, events); k.calls[s] != Generic && k.rows[s].monitored == 0
    ensures var before := After(n, exitNumber, events);
      var (k, error) := MySyscall(before, REQUEST_SYSCALL_INTERCEPT, s, pid, c);
      error == 0 && |k.calls| == |k.rows| == n && MySyscall(k, REQUEST_START_MONITORING, s, pid, d).1 == 0
    ensures var first, second := Command(1, s, pid, c), Command(3, s, pid, d);
      Logged(After(n, exitNumber, events + [first] + [second]), s, other) <==> other == pid
  {
    var first, second := Command(1, s, pid, c), Command(3, s, pid, d);
    AfterOne(n, exitNumber, events, first);
    AfterOne(n, exitNumber, events + [first], second);
    InterceptExactly(n, exitNumber, events, s, pid, c);
    StartExactly(n, exitNumber, events + [first], s, pid, d);
    StartLogs(n, exitNumber, events + [first], s, pid, d, other);
  }
}
