/** The interceptor module's tables in place: the list operations, `my_syscall`, `my_exit_group` and
    `interceptor`. */
module KernelModule {
  import opened Interceptor

  class Module {
    const calls: array<Handler>         // sys_call_table
    const table: array<Row>

    ghost predicate Valid()
      reads table, calls
    {
      calls.Length == table.Length && calls.Length > 0
    }

    ghost function State(): Kernel
      reads calls, table
    {
      Kernel(calls[..], table[..])
    }

    /** `init_function`. */
    constructor (n: nat, exitNumber: nat)
      requires 0 < n && exitNumber < n
      ensures Valid() && fresh(calls) && fresh(table) && State() == Loaded(n, exitNumber)
    {
      calls := new Handler[n](s requires 0 <= s => Baseline(s, exitNumber));
      table := new Row[n](s requires 0 <= s => Row(Own(s), false, 0, 0, []));
      new;
      assert calls[..] == Loaded(n, exitNumber).calls && table[..] == Loaded(n, exitNumber).rows;
    }

    /** The loop over a list of pids: the place of the first occurrence, or its length. */
    method FindPid(s: nat, pid: int) returns (i: nat)
      requires s < table.Length
      ensures i == Position(table[s].pids, pid)
    {
      i := 0;
      while i < |table[s].pids| && table[s].pids[i] != pid
        invariant i <= |table[s].pids|
        invariant Position(table[s].pids, pid) == i + Position(table[s].pids[i..], pid)
      {
        i := i + 1;
      }
    }

    /** `add_pid_sysc`. */
    method AddPidSysc(pid: int, s: nat, memory: bool) returns (error: int)
      requires s < table.Length
      modifies table
      ensures table[..] == old(table[..])[s := AddPid(old(table[s]), pid, memory).0]
      ensures error == AddPid(old(table[s]), pid, memory).1
    {
      if !memory {
        return -ENOMEM;
      }
      table[s] := table[s].(pids := [pid] + table[s].pids, listcount := table[s].listcount + 1);
      error := 0;
    }

    /** A node unlinked, and what depends on the list being empty then. */
    method Unlink(s: nat, i: nat)
      requires s < table.Length && i < |table[s].pids|
      modifies table
      ensures table[..] == old(table[..])[s := Unlisted(old(table[s]), i)]
    {
      table[s] := table[s].(pids := table[s].pids[..i] + table[s].pids[i + 1..]);
      table[s] := table[s].(listcount := table[s].listcount - 1);
      if table[s].listcount == 0 && table[s].monitored == 1 {
        table[s] := table[s].(monitored := 0);
      }
    }

    /** `del_pid_sysc`. */
    method DelPidSysc(pid: int, s: nat) returns (error: int)
      requires s < table.Length
      modifies table
      ensures table[..] == old(table[..])[s := DelPid(old(table[s]), pid).0]
      ensures error == DelPid(old(table[s]), pid).1
    {
      var i := FindPid(s, pid);
      if i == |table[s].pids| {
        return -EINVAL;
      }
      Unlink(s, i);
      error := 0;
    }

    /** The inner loop of `del_pid`. */
    method DelFrom(pid: int, s: nat)
      requires s < table.Length
      modifies table
      ensures table[..] == old(table[..])[s := DelEvery(old(table[s]), pid)]
    {
      var i := FindPid(s, pid);
      while i < |table[s].pids|
        invariant i == Position(table[s].pids, pid)
        invariant table[..] == old(table[..])[s := table[s]]
        invariant DelEvery(table[s], pid) == DelEvery(old(table[s]), pid)
        decreases |table[s].pids|
      {
        Unlink(s, i);
        i := FindPid(s, pid);
      }
    }

    /** `my_exit_group` up to the call of the original function: `del_pid`. */
    method ExitGroup(pid: int)
      requires Valid()
      modifies table
      ensures State() == ExitProcess(old(State()), pid)
    {
      ghost var was := table[..];
      for s := 1 to table.Length
        invariant forall r :: 0 <= r < table.Length ==>
          table[r] == if 0 < r < s then DelEvery(was[r], pid) else was[r]
      {
        DelFrom(pid, s);
      }
    }

    /** `destroy_list`. */
    method DestroyList(s: nat)
      requires s < table.Length
      modifies table
      ensures table[..] == old(table[..])[s := Destroyed(old(table[s]))]
    {
      table[s] := table[s].(pids := []);
      table[s] := table[s].(listcount := 0, monitored := 0);
    }

    /** REQUEST_START_MONITORING. */
    method Start(s: nat, pid: int, c: Caller) returns (error: int)
      requires s < table.Length
      modifies table
      ensures table[..] == old(table[..])[s := StartRow(old(table[s]), pid, c).0]
      ensures error == StartRow(old(table[s]), pid, c).1
    {
      if !table[s].intercepted {
        return -EINVAL;
      }
      if table[s].monitored != 0 {
        return -EBUSY;
      }
      if pid == 0 {
        if !c.root {
          return -EPERM;
        }
        DestroyList(s);
        table[s] := table[s].(monitored := 2);
        return 0;
      }
      if !c.root && !c.owner {
        return -EPERM;
      }
      table[s] := table[s].(monitored := 1);
      var added := AddPidSysc(pid, s, c.memory);
      if added != 0 {
        return -ENOMEM;
      }
      error := 0;
    }

    /** The branches of REQUEST_STOP_MONITORING. */
    method StopOne(s: nat, pid: int, c: Caller) returns (error: int)
      requires s < table.Length
      modifies table
      ensures table[..] == old(table[..])[s := StopFirst(old(table[s]), pid, c).0]
      ensures error == StopFirst(old(table[s]), pid, c).1
    {
      if !c.root {
        if pid == 0 || !c.owner {
          return -EPERM;
        }
      } else if pid == 0 {
        DestroyList(s);
        return 0;
      }
      if table[s].monitored == 0 || table[s].monitored == 2 {
        return -EINVAL;
      }
      var deleted := DelPidSysc(pid, s);
      if deleted != 0 {
        return -ENOMEM;
      }
      error := 0;
    }

    /** REQUEST_STOP_MONITORING. */
    method Stop(s: nat, pid: int, c: Caller) returns (error: int)
      requires s < table.Length
      modifies table
      ensures table[..] == old(table[..])[s := StopRow(old(table[s]), pid, c).0]
      ensures error == StopRow(old(table[s]), pid, c).1
    {
      error := StopOne(s, pid, c);
      if error != 0 {
        return;
      }
      table[s] := table[s].(monitored := 1);
      if table[s].listcount == 0 {
        table[s] := table[s].(monitored := 0);
      }
      var again := DelPidSysc(pid, s);
    }

    /** `my_syscall`. */
    method MySyscall(cmd: int, syscall: int, pid: int, c: Caller) returns (error: int)
      requires Valid()
      modifies calls, table
      ensures (State(), error) == Interceptor.MySyscall(old(State()), cmd, syscall, pid, c)
    {
      if cmd != REQUEST_SYSCALL_INTERCEPT && cmd != REQUEST_SYSCALL_RELEASE
         && cmd != REQUEST_START_MONITORING && cmd != REQUEST_STOP_MONITORING {
        return -EINVAL;
      }
      if syscall < 0 || syscall > table.Length - 1 || syscall == MY_CUSTOM_SYSCALL {
        return -EINVAL;
      }
      if pid < 0 || (pid != 0 && !c.pidExists) {
        return -EINVAL;
      }
      if cmd == REQUEST_SYSCALL_INTERCEPT {
        if !c.root {
          return -EPERM;
        }
        if table[syscall].intercepted {
          return -EBUSY;
        }
        table[syscall] := table[syscall].(f := calls[syscall], intercepted := true);
        calls[syscall] := Generic;
        error := 0;
      } else if cmd == REQUEST_SYSCALL_RELEASE {
        if !c.root {
          return -EPERM;
        }
        if !table[syscall].intercepted {
          return -EBUSY;
        }
        calls[syscall] := table[syscall].f;
        table[syscall] := table[syscall].(intercepted := false);
        error := 0;
      } else if cmd == REQUEST_START_MONITORING {
        error := Start(syscall, pid, c);
      } else {
        error := Stop(syscall, pid, c);
      }
    }

    /** A system call issued by pid: the function that serves it, and whether `interceptor` logs it. */
    method Call(s: nat, pid: int) returns (served: Handler, logged: bool)
      requires Valid() && s < calls.Length
      ensures served == Served(State(), s) && logged == Logged(State(), s, pid)
    {
      served, logged := calls[s], false;
      if calls[s] == Generic {
        var i := FindPid(s, pid);
        logged := i < |table[s].pids| || table[s].monitored == 2;
        served := table[s].f;
      }
    }
  }
}
