/** The scheduler's table and the message queue as the kernel updates them in place. */
module TaskTable {
  import opened Bytes
  import opened Ipc
  import opened Scheduler
  import opened TaskRuns

  lemma AroundIsModulo(from: nat, offset: nat, n: nat)
    requires from < n && 1 <= offset <= n
    ensures (from + offset) % n == Around(from, offset, n)
  {
    if from + offset >= n {
      var i := from + offset - n;
      assert i < n;
      Remainder(i, n);
    }
  }

  lemma Remainder(i: nat, n: nat)
    requires i < n
    ensures (i + n) % n == i
  {
    var q, m := (i + n) / n, (i + n) % n;
    assert i + n == q * n + m;
    assert q >= 2 ==> q * n >= 2 * n;
    assert q <= 0 ==> q * n <= 0;
  }

  method Wrapped(from: nat, offset: nat, n: nat) returns (i: nat)
    requires from < n && 1 <= offset <= n
    ensures i == Around(from, offset, n)
  {
    AroundIsModulo(from, offset, n);
    i := (from + offset) % n;
  }

  class Table {
    var tasks: seq<Task>
    var count: nat
    var current: nat
    var started: bool
    var pending: set<nat>
    var generation: seq<nat>
    var panicked: bool
    const queue: Ring

    ghost predicate Valid()
      reads this, queue, queue.slots
    {
      queue.Valid() && Shaped(View())
    }

    ghost function View(): (s: Sys)
      requires queue.Valid()
      reads this, queue, queue.slots
    {
      Sys(tasks, count, current, started, pending, generation, queue.Contents(), panicked)
    }

    constructor ()
      ensures Valid() && View() == Initial() && fresh(queue) && fresh(queue.slots)
    {
      queue := new Ring();
      tasks := Initial().tasks;
      generation := Initial().generation;
      count, current, started, pending, panicked := 1, 0, false, {}, false;
    }

    method FindNextRunnable() returns (n: nat)
      requires Valid()
      ensures n == NextRunnable(View())
    {
      hide Around, Distance, Ready;
      ghost var s := View();
      var offset := 1;
      while offset <= count
        invariant 1 <= offset <= count + 1 && Search(s, offset) == Search(s, 1)
      {
        var index := Wrapped(current, offset, count);
        if Ready(tasks[index]) {
          return index;
        }
        offset := offset + 1;
      }
      return MAX_TASKS;
    }

    method HasOtherRunnable() returns (b: bool)
      requires Valid()
      ensures b == OtherRunnable(View())
    {
      for index := 0 to count
        invariant forall i: nat :: i < index && i != current ==> !Ready(tasks[i])
      {
        if index != current && Ready(tasks[index]) {
          return true;
        }
      }
      return false;
    }

    method ReapPendingStacks()
      requires Valid()
      modifies this`tasks, this`pending
      ensures Valid() && View() == Reaped(old(View()))
    {
      ghost var s := View();
      for index := 1 to count
        invariant |tasks| == MAX_TASKS
        invariant forall i: nat :: i < MAX_TASKS ==>
                    tasks[i] == if i < index && Reapable(s, i) then ReapedTask(s.tasks[i]) else s.tasks[i]
        invariant forall i: nat :: i in pending <==> i in s.pending && !(i < index && Reapable(s, i))
      {
        if index in pending && index != current {
          tasks := tasks[index := ReapedTask(tasks[index])];
          pending := pending - {index};
        }
      }
      assert tasks == Reaped(s).tasks;
      assert pending == Reaped(s).pending;
    }

    method SwitchTask()
      requires Valid() && !panicked
      modifies this`tasks, this`current, this`panicked
      ensures Valid() && View() == SwitchToNext(old(View()))
    {
      hide NextRunnable;
      var next := FindNextRunnable();
      if next == MAX_TASKS {
        panicked := true;
        return;
      }
      if next == current {
        return;
      }
      current := next;
      tasks := tasks[current := tasks[current].(ticks := tasks[current].priority)];
    }

    /** The end of a scheduling interrupt, after stacks are freed and the return address is checked. */
    method SwitchFrom(force: bool)
      requires Valid() && !panicked
      modifies this`tasks, this`current, this`panicked
      ensures Valid() && View() == Dispatch(old(View()), force)
    {
      hide SwitchToNext;
      if !tasks[current].mode.User? {
        tasks := tasks[current := tasks[current].(framed := true)];
      }
      assert View() == Saved(old(View()));
      if !force && tasks[current].status.Runnable? {
        if tasks[current].ticks > 1 {
          tasks := tasks[current := tasks[current].(ticks := tasks[current].ticks - 1)];
          return;
        }
      }
      SwitchTask();
    }

    method OnUserExit()
      requires Valid() && !panicked
      modifies this`tasks, this`pending, this`current, this`panicked, queue, queue.slots
      ensures Valid() && View() == Terminate(old(View()))
    {
      if !started || tasks[current].mode != User {
        return;
      }
      ghost var s := View();
      var id := tasks[current].id;
      var _ := queue.Purge(id, false);
      var _ := queue.Purge(id, true);
      assert queue.Contents() == WithoutTask(s.queue, id);
      tasks := tasks[current := tasks[current].(status := Terminated)];
      pending := pending + {current};
      assert View() == Ended(s.(queue := WithoutTask(s.queue, id)));
      ReapPendingStacks();
      SwitchFrom(true);
    }

    /** Timer (not forced) and yield (forced); the flag says whether the interrupted address may be executed. */
    method ScheduleFromFrame(force: bool, executable: bool)
      requires Valid() && !panicked
      modifies this`tasks, this`pending, this`current, this`panicked, queue, queue.slots
      ensures Valid() && View() == Schedule(old(View()), force, executable)
    {
      if !started {
        return;
      }
      ReapPendingStacks();
      if tasks[current].mode.User? && tasks[current].status.Runnable? && !executable {
        OnUserExit();
        return;
      }
      SwitchFrom(force);
    }

    method WakeTask(index: nat)
      requires Valid()
      modifies this`tasks
      ensures Valid() && View() == Wake(old(View()), index)
    {
      if index == 0 || index >= count || !tasks[index].status.Blocked? || !tasks[index].framed {
        assert 0 < index < count ==> tasks[index := tasks[index]] == tasks;
        return;
      }
      tasks := tasks[index := tasks[index].(status := Runnable, ticks := tasks[index].priority)];
    }

    method WakeTaskId(id: u32)
      requires Valid()
      modifies this`tasks
      ensures Valid() && View() == WakeId(old(View()), id)
    {
      if id == 0 {
        return;
      }
      var index := 1;
      while index < count && tasks[index].id != id
        invariant 1 <= index <= count && tasks == old(tasks) && SlotOf(View(), id, index) == SlotOf(View(), id, 1)
      {
        index := index + 1;
      }
      WakeTask(index);
    }

    method WakeUserTasks()
      requires Valid()
      modifies this`tasks
      ensures Valid() && View() == WakeUsers(old(View()))
    {
      ghost var s := View();
      for index := 1 to count
        invariant Valid() && View() == s.(tasks := tasks)
        invariant forall i: nat :: i < MAX_TASKS ==>
                    tasks[i] == if 0 < i < index && s.tasks[i].mode.User? then Woken(s.tasks[i]) else s.tasks[i]
      {
        if tasks[index].mode.User? {
          WakeTask(index);
        }
      }
      assert tasks == WakeUsers(s).tasks;
    }

    method IsActiveUser(id: u32) returns (b: bool)
      requires Valid()
      ensures b == ActiveUser(View(), id)
    {
      if id == 0 {
        return false;
      }
      for index := 1 to count
        invariant forall i: nat :: 0 < i < index ==> !(tasks[i].id == id && Active(tasks[i]))
      {
        if tasks[index].id == id && tasks[index].mode.User? && !tasks[index].status.Terminated? && tasks[index].framed {
          return true;
        }
      }
      assert forall i: nat :: 0 < i < count ==> !(tasks[i].id == id && Active(tasks[i]));
      return false;
    }

    method BlockCurrentTask() returns (ok: bool)
      requires Valid()
      modifies this`tasks
      ensures Valid() && (View(), ok) == BlockCurrent(old(View()))
    {
      var others := HasOtherRunnable();
      if !started || current == 0 || !tasks[current].status.Runnable? || !others {
        return false;
      }
      tasks := tasks[current := tasks[current].(status := Blocked)];
      return true;
    }

    /** Queues a message, then wakes its receiver or every blocked user task. */
    method SendFromTo(m: Message) returns (ok: bool)
      requires Valid()
      modifies this`tasks, queue, queue.slots
      ensures Valid() && (View(), ok) == Deliver(old(View()), m)
    {
      ghost var s := View();
      ok := queue.Send(m);
      if !ok {
        return;
      }
      assert View() == s.(queue := Sent(s.queue, m).0);
      if m.receiver != 0 {
        WakeTaskId(m.receiver);
      } else {
        WakeUserTasks();
      }
    }

    method SendCall(target: Option<u32>, kind: u32, data: seq<byte>, readable: bool) returns (reply: Reply)
      requires Valid()
      modifies this`tasks, queue, queue.slots
      ensures Valid() && (View(), reply) == Send(old(View()), target, kind, data, readable)
    {
      if |data| > MESSAGE_MAX {
        return TooBig;
      }
      if target.Some? {
        var active := IsActiveUser(target.value);
        if !active {
          return Fault;
        }
      }
      if !readable {
        return Fault;
      }
      var receiver := if target.Some? then target.value else 0;
      var ok := SendFromTo(Message(tasks[current].id, receiver, kind, data));
      return if ok then Length(|data|) else Again;
    }

    method ReceiveCall(capacity: nat, writable: bool) returns (reply: Reply)
      requires Valid()
      modifies queue, queue.slots
      ensures Valid() && (View(), reply) == Receive(old(View()), capacity, writable)
    {
      if capacity > MESSAGE_MAX || !writable {
        return if capacity > MESSAGE_MAX then TooBig else Fault;
      }
      var m := queue.Receive(tasks[current].id, capacity);
      if m.Some? {
        return Got(m.value);
      }
      var n := queue.Pending(tasks[current].id);
      return if n != 0 then TooBig else Again;
    }

    method ReceiveWaitCall(capacity: nat, writable: bool, executable: bool) returns (reply: Reply)
      requires Valid() && !panicked
      modifies this`tasks, this`pending, this`current, this`panicked, queue, queue.slots
      ensures Valid() && (View(), reply) == ReceiveWait(old(View()), capacity, writable, executable)
    {
      reply := ReceiveCall(capacity, writable);
      if reply != Again {
        return;
      }
      var blocked := BlockCurrentTask();
      if blocked {
        ScheduleFromFrame(true, executable);
      }
    }

    method FindTaskSlot() returns (k: nat)
      requires Valid()
      ensures k == FindSlot(View(), 1)
    {
      k := 1;
      while k < count
        invariant 1 <= k <= count && FindSlot(View(), k) == FindSlot(View(), 1)
      {
        if k !in pending && tasks[k].status.Terminated? && !tasks[k].stacked && !tasks[k].framed {
          return;
        }
        k := k + 1;
      }
    }

    /** Adds a kernel or user task; the flags stand for the caller's checks, the name and the stack frames. */
    method AddTask(mode: Mode, admissible: bool, named: bool, stackBuilt: bool) returns (ok: bool)
      requires Valid()
      modifies this`tasks, this`generation, this`count
      ensures Valid() && View() == Spawn(old(View()), mode, admissible, named, stackBuilt)
      ensures ok == (Spawnable(old(View()), admissible) && named && stackBuilt)
    {
      hide FindSlot, FreeSlot;
      ghost var before := View();
      if !admissible {
        return false;
      }
      var slot := FindTaskSlot();
      if slot == MAX_TASKS || generation[slot] >= MAX_GENERATION {
        return false;
      }
      tasks := tasks[slot := CLEARED];
      if !named {
        return false;
      }
      generation := generation[slot := generation[slot] + 1];
      if !stackBuilt {
        return false;
      }
      tasks := tasks[slot := Task(mode, Runnable, true, true, Identifier(generation[slot], slot), 1, 1)];
      if slot == count {
        count := count + 1;
      }
      return true;
    }
  }
}
