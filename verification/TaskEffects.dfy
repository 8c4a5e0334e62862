/** What each scheduling event and message call does to tasks, queue and processor. */
module TaskEffects {
  import opened Bytes
  import opened Ipc
  import opened Scheduler
  import opened TaskRuns

  // ---------- Dispatch ----------

  /** Task n is runnable and no runnable task is nearer going round from the current one. */
  predicate Nearest(s: Sys, n: nat)
    requires Shaped(s)
  {
    n < s.count && Ready(s.tasks[n]) && forall i :: 0 <= i < s.count && Ready(s.tasks[i]) ==> Distance(s.current, n, s.count) <= Distance(s.current, i, s.count)
  }

  predicate NoneReady(s: Sys)
    requires Shaped(s)
  {
    forall i :: 0 <= i < s.count ==> !Ready(s.tasks[i])
  }

  /** Two tasks in the same state, up to the saved frame and the remaining ticks. */
  predicate SameState(t: Task, u: Task) {
    u == t.(framed := u.framed, ticks := u.ticks)
  }

  /** Everything but the tasks, the processor and the panic. */
  predicate SameRest(s: Sys, r: Sys) {
    r == s.(tasks := r.tasks, current := r.current, pending := r.pending, panicked := r.panicked)
  }

  /** What looking for the next task does: nothing to run, the same task, or another with a full slice. */
  lemma SwitchMeans(s: Sys)
    requires Shaped(s) && !s.panicked
    ensures var r := SwitchToNext(s);
            && SameRest(s, r) && r.pending == s.pending && (r.panicked <==> NoneReady(s))
            && (!r.panicked ==> Nearest(s, r.current)) && (r.panicked ==> r.current == s.current)
            && (forall i: nat :: i < s.count ==>
                  r.tasks[i] == if i == r.current && i != s.current then s.tasks[i].(ticks := s.tasks[i].priority) else s.tasks[i])
  {
    hide NextRunnable, Distance;
  }

  /** Forced, out of ticks or not runnable, the processor goes to the nearest runnable task with a full slice. */
  lemma DispatchMeans(s: Sys, force: bool)
    requires Shaped(s) && !s.panicked && (s.tasks[s.current].status.Runnable? ==> s.tasks[s.current].framed)
    ensures var r, t := Dispatch(s, force), s.tasks[s.current];
            && SameRest(s, r) && r.pending == s.pending
            && (forall i: nat :: i < s.count ==> SameState(s.tasks[i], r.tasks[i]))
            && r.tasks[s.current].framed == (t.framed || t.mode.Kernel?)
            && (forall i: nat :: i < s.count && i != s.current && i != r.current ==> r.tasks[i] == s.tasks[i])
            && if !force && t.status.Runnable? && t.ticks > 1 then
                 !r.panicked && r.current == s.current && r.tasks[s.current].ticks == t.ticks - 1
               else if NoneReady(s) then r.panicked && r.current == s.current
               else && !r.panicked && Nearest(s, r.current)
                    && r.tasks[r.current].ticks == if r.current == s.current then t.ticks else s.tasks[r.current].priority
  {
    hide SwitchToNext, Distance;
    SavedReady(s);
    var saved := Saved(s);
    SwitchMeans(saved);
    assert NoneReady(saved) <==> NoneReady(s);
    assert forall n :: 0 <= n < s.count ==> (Nearest(saved, n) <==> Nearest(s, n));
  }

  lemma SavedReady(s: Sys)
    requires Shaped(s) && (s.tasks[s.current].status.Runnable? ==> s.tasks[s.current].framed)
    ensures var r := Saved(s);
            && r == s.(tasks := r.tasks) && forall i :: 0 <= i < s.count ==> SameState(s.tasks[i], r.tasks[i]) && (Ready(r.tasks[i]) <==> Ready(s.tasks[i]))
    ensures forall i :: 0 <= i < s.count && i != s.current ==> Saved(s).tasks[i] == s.tasks[i]
    ensures Saved(s).tasks[s.current] == s.tasks[s.current].(framed := s.tasks[s.current].framed || s.tasks[s.current].mode.Kernel?)
  {
  }

  /** Every ended task but the one still being run on gives up its stack and its mark. */
  lemma ReapedMeans(s: Sys)
    requires Shaped(s) && forall i :: i in s.pending ==> 0 < i < s.count
    ensures var r := Reaped(s);
            && r == s.(tasks := r.tasks, pending := r.pending) && r.pending == s.pending * {s.current}
            && (forall i: nat :: i < s.count && i in s.pending && i != s.current ==>
                  r.tasks[i] == s.tasks[i].(stacked := false, framed := s.tasks[i].framed && !s.tasks[i].stacked))
            && (forall i: nat :: i < MAX_TASKS && !(i in s.pending && i != s.current) ==> r.tasks[i] == s.tasks[i])
  {
    var r := Reaped(s);
    forall i: nat | i < MAX_TASKS ensures r.tasks[i] == if Reapable(s, i) then ReapedTask(s.tasks[i]) else s.tasks[i] {
    }
  }

  /** A timer or yield interrupt while a task runs that may go on: the clock or the processor moves, nothing else. */
  lemma ScheduleMeans(s: Sys, force: bool)
    requires Inv(s) && !s.panicked && s.started && Ready(s.tasks[s.current])
    ensures var r, t := Schedule(s, force, true), s.tasks[s.current];
            && SameRest(s, r) && !r.panicked && r.pending == s.pending * {s.current}
            && (forall i: nat :: i < s.count && i !in s.pending ==> SameState(s.tasks[i], r.tasks[i]))
            && (if !force && t.ticks > 1 then r.current == s.current && r.tasks[s.current].ticks == t.ticks - 1
                else Nearest(s, r.current) && (r.current != s.current <==> OtherRunnable(s)))
  {
    hide Dispatch, Reaped, QueueOk, Distance;
    ReapedMeans(s);
    ReapedKeeps(s);
    var reaped := Reaped(s);
    DispatchMeans(reaped, force);
    forall i | 0 <= i < s.count ensures Ready(reaped.tasks[i]) <==> Ready(s.tasks[i]) {
      assert i in s.pending ==> s.tasks[i].status.Terminated?;
    }
    var r := Dispatch(reaped, force);
    assert Nearest(reaped, r.current) <==> Nearest(s, r.current);
    if Nearest(s, r.current) {
      OthersAreNearer(s, r.current);
    }
  }

  /** The current task is a whole turn away from itself, so it is nearest only when it is alone. */
  lemma OthersAreNearer(s: Sys, n: nat)
    requires Shaped(s) && Nearest(s, n)
    ensures n != s.current <==> OtherRunnable(s)
  {
    if OtherRunnable(s) {
      var i: nat :| i < s.count && i != s.current && Ready(s.tasks[i]);
      assert Distance(s.current, i, s.count) < s.count;
    }
  }

  // ---------- Ending ----------

  /** The messages that name this task neither as sender nor as receiver, in order. */
  function Unnamed(q: seq<Message>, id: u32): seq<Message> {
    if q == [] then []
    else
      var m, rest := q[|q| - 1], Unnamed(q[..|q| - 1], id);
      if m.sender == id || m.receiver == id then rest else rest + [m]
  }

  lemma {:induction false} WithoutTaskIs(q: seq<Message>, id: u32)
    requires id != 0
    ensures WithoutTask(q, id) == Unnamed(q, id)
  {
    if q != [] {
      var front, m := q[..|q| - 1], q[|q| - 1];
      WithoutTaskIs(front, id);
      if m.receiver != id {
        var inner := Purged(front, id, false);
        assert (inner + [m])[..|inner|] == inner;
      }
    }
  }

  /** The current task ends: its messages leave the queue, its slot is marked, and the nearest runnable task goes on. */
  ghost predicate EndedInto(s: Sys, r: Sys, queue: seq<Message>)
    requires Shaped(s) && Shaped(r)
  {
    && SameRest(s, r.(queue := s.queue)) && r.queue == queue && r.pending == {s.current}
    && r.tasks[s.current].status.Terminated? && r.tasks[s.current].stacked == s.tasks[s.current].stacked
    && (forall i: nat :: i < s.count && i != s.current && i !in s.pending ==> SameState(s.tasks[i], r.tasks[i]))
    && (r.panicked <==> !OtherRunnable(s))
    && (!r.panicked ==> r.current != s.current && Ready(s.tasks[r.current]) &&
                        forall i :: 0 <= i < s.count && i != s.current && Ready(s.tasks[i]) ==>
                          Distance(s.current, r.current, s.count) <= Distance(s.current, i, s.count))
  }

  lemma EndMeans(s: Sys, q: seq<Message>)
    requires Shaped(s) && TasksOk(s) && !s.panicked && s.started && s.current > 0
    ensures EndedInto(s, Dispatch(Reaped(Ended(s.(queue := q))), true), q)
  {
    hide Dispatch, Reaped, Distance;
    var ended := Ended(s.(queue := q));
    ReapedMeans(ended);
    var reaped := Reaped(ended);
    DispatchMeans(reaped, true);
    forall i | 0 <= i < s.count && i != s.current ensures Ready(reaped.tasks[i]) <==> Ready(s.tasks[i]) {
      assert i in s.pending ==> s.tasks[i].status.Terminated?;
    }
    assert !Ready(reaped.tasks[s.current]);
  }

  /** Exit and fault of a user task. */
  lemma ExitMeans(s: Sys)
    requires Inv(s) && !s.panicked && UserRuns(s)
    ensures EndedInto(s, Step(s, Exit), Unnamed(s.queue, s.tasks[s.current].id))
  {
    hide Dispatch, Reaped, Ended, QueueOk, WithoutTask, Unnamed;
    CurrentIsActive(s);
    WithoutTaskIs(s.queue, s.tasks[s.current].id);
    EndMeans(s, Unnamed(s.queue, s.tasks[s.current].id));
  }

  /** A kernel task that returns ends without any message leaving the queue. */
  lemma KernelReturnMeans(s: Sys)
    requires Inv(s) && !s.panicked && s.started && s.current > 0 && s.tasks[s.current].mode.Kernel? && Ready(s.tasks[s.current])
    ensures EndedInto(s, Step(s, KernelReturn), s.queue)
  {
    hide Dispatch, Reaped, QueueOk;
    EndMeans(s, s.queue);
    assert s.(queue := s.queue) == s;
    ReapedCurrent(Ended(s));
  }

  /** A user task that would return to a place it may not execute ends as if it had exited. */
  lemma BadReturnMeans(s: Sys, force: bool)
    requires Inv(s) && !s.panicked && UserRuns(s)
    ensures var r := Schedule(s, force, false);
            && r.tasks[s.current].status.Terminated? && r.queue == Unnamed(s.queue, s.tasks[s.current].id)
            && (r.panicked <==> !OtherRunnable(s)) && (!r.panicked ==> r.current != s.current && Ready(s.tasks[r.current]))
            && (forall i: nat :: i < s.count && i != s.current && i !in s.pending ==> SameState(s.tasks[i], r.tasks[i]))
  {
    hide Dispatch, Reaped, Ended, QueueOk, WithoutTask, Unnamed, Distance;
    CurrentIsActive(s);
    ReapedMeans(s);
    ReapedKeeps(s);
    ReapedOthers(s);
    var reaped := Reaped(s);
    WithoutTaskIs(s.queue, s.tasks[s.current].id);
    EndMeans(reaped, Unnamed(s.queue, s.tasks[s.current].id));
    forall i: nat | i < s.count ensures Ready(reaped.tasks[i]) <==> Ready(s.tasks[i]) {
      assert i in s.pending ==> s.tasks[i].status.Terminated?;
    }
  }

  /** One interrupt after a task has ended, its slot is free for another. */
  lemma SlotComesBack(s: Sys)
    requires Inv(s) && !s.panicked && UserRuns(s) && OtherRunnable(s)
    ensures var r, k := Step(Step(s, Exit), Timer(true)), s.current;
            && k !in r.pending && r.tasks[k].status.Terminated? && !r.tasks[k].stacked && !r.tasks[k].framed
  {
    hide Schedule, Terminate, QueueOk, Reaped, Dispatch, Unnamed, Distance, TasksOk;
    CurrentIsActive(s);
    CurrentHasStack(s);
    ExitMeans(s);
    StepKeepsInv(s, Exit);
    NotBoot(s, Step(s, Exit).current);
    ReapsAfter(Step(s, Exit), s.current);
  }

  lemma NotBoot(s: Sys, n: nat)
    requires Inv(s) && s.started && n < s.count && Ready(s.tasks[n])
    ensures n > 0
  {
  }

  lemma CurrentHasStack(s: Sys)
    requires Inv(s) && UserRuns(s) && s.current > 0
    ensures s.tasks[s.current].stacked
  {
    assert TaskOk(s.tasks[s.current], s.current, s.generation[s.current]);
  }

  lemma ReapsAfter(s: Sys, k: nat)
    requires Inv(s) && !s.panicked && s.started && k in s.pending && k < s.count && k != s.current && s.tasks[k].stacked && Ready(s.tasks[s.current])
    ensures var r := Step(s, Timer(true));
            k !in r.pending && r.tasks[k].status.Terminated? && !r.tasks[k].stacked && !r.tasks[k].framed
  {
    hide Dispatch, Reaped, QueueOk, Distance;
    ReapedMeans(s);
    ReapedKeeps(s);
    DispatchMeans(Reaped(s), false);
    DispatchEffectAt(Reaped(s), k);
  }

  lemma DispatchEffectAt(s: Sys, k: nat)
    requires Shaped(s) && !s.panicked && k < s.count && k != s.current && !Ready(s.tasks[k])
    requires s.tasks[s.current].status.Runnable? ==> s.tasks[s.current].framed
    ensures Dispatch(s, false).tasks[k] == s.tasks[k]
  {
    hide NextRunnable;
  }

  // ---------- Blocking and waking ----------

  /** A receive that waits and finds nothing blocks the caller when another task can run, and otherwise changes nothing. */
  lemma BlockMeans(s: Sys, capacity: nat, executable: bool)
    requires Inv(s) && !s.panicked && UserRuns(s) && capacity <= 64
    requires forall m :: m in s.queue ==> !Matches(m, s.tasks[s.current].id)
    ensures var (r, reply) := ReceiveWait(s, capacity, true, executable);
            && reply == Again
            && if OtherRunnable(s) then
                 && !r.panicked && r.tasks[s.current].status.Blocked? && r.queue == s.queue
                 && r.current != s.current && Ready(r.tasks[r.current]) && Ready(s.tasks[r.current])
                 && (forall i: nat :: i < s.count && i != s.current ==> r.tasks[i].status == s.tasks[i].status && r.tasks[i].id == s.tasks[i].id)
               else r == s
  {
    hide Schedule, Received, PendingFor, QueueOk, TasksOk, Distance;
    ReceiveReplies(s, capacity);
    CurrentIsActive(s);
    assert Receive(s, capacity, true).1 == Again;
    if OtherRunnable(s) {
      NothingPendingFor(s);
      BlockKeeps(s);
      var (blocked, ok) := BlockCurrent(s);
      assert forall i: nat :: i < s.count && i != s.current ==> blocked.tasks[i] == s.tasks[i];
      assert OtherRunnable(blocked);
      BlockedSwitch(blocked, executable);
    }
  }

  lemma NothingPendingFor(s: Sys)
    requires Shaped(s) && forall m :: m in s.queue ==> !Matches(m, s.tasks[s.current].id)
    ensures PendingFor(s.queue, s.tasks[s.current].id) == 0
  {
    PendingIff(s.queue, s.tasks[s.current].id);
  }

  lemma BlockedSwitch(s: Sys, executable: bool)
    requires Shaped(s) && TasksOk(s) && QueueOk(s) && !s.panicked && s.started && s.current > 0
    requires s.tasks[s.current].status.Blocked? && OtherRunnable(s)
    ensures var r := Schedule(s, true, executable);
            && !r.panicked && r.queue == s.queue && r.current != s.current && Ready(r.tasks[r.current]) && Ready(s.tasks[r.current])
            && (forall i: nat :: i < s.count ==> r.tasks[i].status == s.tasks[i].status && r.tasks[i].id == s.tasks[i].id)
  {
    hide Dispatch, Reaped, QueueOk, Distance;
    ReapedMeans(s);
    ReapedKeeps(s);
    ReapedOthers(s);
    var reaped := Reaped(s);
    DispatchMeans(reaped, true);
    forall i: nat | i < s.count ensures SameStatus(s.tasks[i], reaped.tasks[i]) {
      assert i in s.pending ==> s.tasks[i].status.Terminated?;
    }
    DispatchKeeps(reaped, true);
    var r := Dispatch(reaped, true);
    assert reaped.tasks[r.current] == s.tasks[r.current];
  }

  predicate SameStatus(t: Task, u: Task) {
    u.status == t.status && u.id == t.id && (Ready(u) <==> Ready(t))
  }

  /** With something to read, or with a bad buffer, a waiting receive is a receive. */
  lemma WaitIsReceive(s: Sys, capacity: nat, writable: bool, executable: bool)
    requires Shaped(s)
    ensures (exists m :: m in s.queue && Matches(m, s.tasks[s.current].id)) || capacity > 64 || !writable ==>
              ReceiveWait(s, capacity, writable, executable) == Receive(s, capacity, writable)
    ensures capacity > 64 ==> Receive(s, capacity, writable) == (s, TooBig)
    ensures capacity <= 64 && !writable ==> Receive(s, capacity, writable) == (s, Fault)
  {
    if capacity <= 64 {
      ReceiveReplies(s, capacity);
    }
  }

  /** A task made runnable again, with a full slice. */
  function Resumed(t: Task): Task {
    t.(status := Runnable, ticks := t.priority)
  }

  /** A message that is queued wakes exactly the blocked tasks that may read it. */
  lemma DeliverMeans(s: Sys, m: Message)
    requires Inv(s) && |s.queue| < 16 && |m.data| <= 64
    ensures var (r, ok) := Deliver(s, m);
            && ok && r == s.(tasks := r.tasks, queue := s.queue + [m])
            && forall i: nat :: i < s.count ==>
                 r.tasks[i] == if s.tasks[i].status.Blocked? && Matches(m, s.tasks[i].id) then Resumed(s.tasks[i]) else s.tasks[i]
  {
    hide Deliver, WakeFor, QueueOk, TasksOk;
    DeliverWakes(s, m);
    WakeForFrame(s, m.receiver);
    forall i: nat | i < s.count
      ensures WakeFor(s, m.receiver).tasks[i] ==
                if s.tasks[i].status.Blocked? && Matches(m, s.tasks[i].id) then Resumed(s.tasks[i]) else s.tasks[i]
    {
      WakeForIs(s, m, i);
    }
  }

  lemma WakeForIs(s: Sys, m: Message, i: nat)
    requires Inv(s) && i < s.count
    ensures WakeFor(s, m.receiver).tasks[i] ==
              if s.tasks[i].status.Blocked? && Matches(m, s.tasks[i].id) then Resumed(s.tasks[i]) else s.tasks[i]
  {
    hide QueueOk, SlotOf;
    assert i > 0 ==> TaskOk(s.tasks[i], i, s.generation[i]);
    if m.receiver != 0 {
      var k := SlotOf(s, m.receiver, 1);
      if s.tasks[i].status.Blocked? && s.tasks[i].id == m.receiver {
        WakeIdEffect(s, m.receiver, i);
      }
      assert k == i && i < s.count ==> s.tasks[i].id == m.receiver;
    }
  }

  /** Waking a slot resumes the task in it exactly when that is blocked, and touches no other. */
  lemma WakeMeans(s: Sys, i: nat)
    requires Inv(s) && !s.panicked
    ensures var r := Step(s, KernelWake(i));
            && r == s.(tasks := r.tasks)
            && forall k: nat :: k < s.count ==> r.tasks[k] == if k == i && s.tasks[k].status.Blocked? then Resumed(s.tasks[k]) else s.tasks[k]
  {
    hide QueueOk;
    assert 0 < i < s.count ==> TaskOk(s.tasks[i], i, s.generation[i]);
  }

  /** The kernel reads the oldest message, whoever it is for, when that fits. */
  lemma KernelReceiveMeans(s: Sys, capacity: nat)
    requires Shaped(s) && !s.panicked
    ensures Step(s, KernelReceive(capacity)) ==
              if s.queue != [] && |s.queue[0].data| <= capacity then s.(queue := s.queue[1..]) else s
  {
    FirstMatchIs(s.queue, 0, 0);
    if s.queue != [] {
      assert RemoveAt(s.queue, 0) == s.queue[1..];
    }
  }

  /** A priority can be set before the scheduler starts, for a task, from one to eight ticks. */
  lemma PriorityMeans(s: Sys, i: nat, p: nat)
    requires Shaped(s) && !s.panicked
    ensures var r := Step(s, SetPriority(i, p));
            && r == s.(tasks := r.tasks) && (forall k: nat :: k < MAX_TASKS && k != i ==> r.tasks[k] == s.tasks[k])
            && (0 < i < s.count && 1 <= p <= 8 && !s.started ==> r.tasks[i] == s.tasks[i].(priority := p, ticks := p))
            && (!(0 < i < s.count && 1 <= p <= 8 && !s.started) ==> r == s)
  {
  }

  // ---------- New tasks ----------

  /** A slot that an earlier task has left for good. */
  predicate Vacant(s: Sys, i: nat)
    requires Shaped(s)
  {
    0 < i < s.count && i !in s.pending && s.tasks[i].status.Terminated? && !s.tasks[i].stacked && !s.tasks[i].framed
  }

  /** The slot a new task would get: the first vacant one, or the next beyond all others. */
  predicate Offered(s: Sys, k: nat)
    requires Shaped(s)
  {
    (Vacant(s, k) || k == s.count) && forall i: nat :: i < k ==> !Vacant(s, i)
  }

  /** A spawn puts a runnable task with a fresh identifier into the offered slot, or leaves every live task alone. */
  lemma SpawnMeans(s: Sys, mode: Mode, admissible: bool, named: bool, stackBuilt: bool, k: nat)
    requires Shaped(s) && Offered(s, k)
    ensures var r := Spawn(s, mode, admissible, named, stackBuilt);
            var granted := admissible && named && stackBuilt && k < 16 && s.generation[k] < 0x00FF_FFFF;
            && r == s.(tasks := r.tasks, generation := r.generation, count := r.count)
            && (forall i: nat :: i < MAX_TASKS && i != k ==> r.tasks[i] == s.tasks[i] && r.generation[i] == s.generation[i])
            && (granted ==>
                  && k < r.count == (if k == s.count then s.count + 1 else s.count)
                  && r.generation[k] == s.generation[k] + 1
                  && r.tasks[k] == Task(mode, Runnable, true, true, r.generation[k] * 256 + k, 1, 1))
            && (!granted ==> r.count == s.count)
            && (!(admissible && k < 16 && s.generation[k] < 0x00FF_FFFF) ==> r == s)
            && (admissible && k < 16 && s.generation[k] < 0x00FF_FFFF && !granted ==>
                  && r.tasks[k] == Task(Kernel, Terminated, false, false, 0, 1, 1)
                  && r.generation[k] == s.generation[k] + if named then 1 else 0)
  {
    hide FindSlot;
    FirstOffered(s, k);
  }

  lemma FirstOffered(s: Sys, k: nat)
    requires Shaped(s) && Offered(s, k)
    ensures FindSlot(s, 1) == k
  {
    hide FindSlot;
    var f := FindSlot(s, 1);
    assert f < s.count ==> Vacant(s, f);
    assert k < s.count ==> FreeSlot(s, k);
  }

  // ---------- A task that waits and is woken ----------

  /** Whoever blocks becomes runnable with the first message it may read, and that message is there for it. */
  lemma BlockedThenWoken(s: Sys, kind: u32, data: seq<byte>)
    requires Inv(s) && !s.panicked && UserRuns(s) && OtherRunnable(s) && |s.queue| < 16 && |data| <= 64
    requires forall m :: m in s.queue ==> !Matches(m, s.tasks[s.current].id)
    ensures var blocked := Step(s, ReceiveWaitCall(64, true, true));
            var woken := Step(blocked, KernelSend(kind, data));
            && blocked.tasks[s.current].status.Blocked? && blocked.current != s.current
            && Ready(woken.tasks[s.current]) && woken.queue == s.queue + [Message(0, 0, kind, data)]
            && Matches(Message(0, 0, kind, data), woken.tasks[s.current].id)
  {
    hide ReceiveWait, Deliver, QueueOk, TasksOk;
    CurrentIsActive(s);
    BlockMeans(s, 64, true);
    var blocked := Step(s, ReceiveWaitCall(64, true, true));
    StepKeepsInv(s, ReceiveWaitCall(64, true, true));
    BlockedIsFramed(blocked, s.current);
    DeliverMeans(blocked, Message(0, 0, kind, data));
  }

  lemma BlockedIsFramed(s: Sys, i: nat)
    requires Inv(s) && 0 < i < s.count && s.tasks[i].status.Blocked?
    ensures s.tasks[i].framed
  {
    assert TaskOk(s.tasks[i], i, s.generation[i]);
  }

  /** A send that is answered with its length queues the message as the caller's and wakes exactly those it is for. */
  lemma SendMeans(s: Sys, target: Option<u32>, kind: u32, data: seq<byte>, readable: bool)
    requires Inv(s) && !s.panicked && UserRuns(s)
    ensures var (r, reply) := Send(s, target, kind, data, readable);
            var m := Message(s.tasks[s.current].id, if target.Some? then target.value else 0, kind, data);
            && (reply == Length(|data|) <==> |data| <= 64 && readable && |s.queue| < 16 && (target.Some? ==> ActiveUser(s, target.value)))
            && (reply != Length(|data|) ==> r == s)
            && (reply == Length(|data|) ==>
                  && r == s.(tasks := r.tasks, queue := s.queue + [m])
                  && forall i: nat :: i < s.count ==>
                       r.tasks[i] == if s.tasks[i].status.Blocked? && Matches(m, s.tasks[i].id) then Resumed(s.tasks[i]) else s.tasks[i])
  {
    hide Deliver, QueueOk, TasksOk, ActiveUser;
    SendReplies(s, target, kind, data, readable);
    if Send(s, target, kind, data, readable).1.Length? {
      DeliverMeans(s, Message(s.tasks[s.current].id, if target.Some? then target.value else 0, kind, data));
    }
  }

  // ---------- One run ----------

  const SPAWN: Event := SpawnTask(User, true, true, true)

  /** Two user tasks, the first of which has just been given the processor. */
  lemma TwoTasks()
    ensures var s := Step(Step(Step(Step(Initial(), SPAWN), SPAWN), Start), Timer(true));
            && Inv(s) && !s.panicked && s.started && s.count == 3 && s.current == 1 && s.queue == []
            && UserRuns(s) && Ready(s.tasks[2])
  {
    hide Spawn, Schedule, Inv;
    var s0 := Initial();
    InitialInv();
    SpawnMeans(s0, User, true, true, true, 1);
    var s1 := Step(s0, SPAWN);
    StepKeepsInv(s0, SPAWN);
    SpawnMeans(s1, User, true, true, true, 2);
    var s2 := Step(s1, SPAWN);
    StepKeepsInv(s1, SPAWN);
    var s3 := Step(s2, Start);
    StepKeepsInv(s2, Start);
    FirstSwitch(s3);
    StepKeepsInv(s3, Timer(true));
  }

  /** The first interrupt leaves the boot stack for the first task. */
  lemma FirstSwitch(s: Sys)
    requires Shaped(s) && s.started && !s.panicked && s.pending == {} && s.count == 3 && s.current == 0 && s.tasks[0].status.Terminated? && s.tasks[0].mode.Kernel?
    requires Ready(s.tasks[1]) && s.tasks[1].mode.User? && Ready(s.tasks[2])
    ensures var r := Step(s, Timer(true));
            && r.started && !r.panicked && r.count == 3 && r.current == 1 && r.queue == s.queue
            && UserRuns(r) && Ready(r.tasks[2])
  {
    hide Dispatch, Reaped;
    ReapedMeans(s);
    var reaped := Reaped(s);
    assert forall i: nat :: i < 3 ==> reaped.tasks[i] == s.tasks[i];
    DispatchMeans(reaped, false);
    var r := Dispatch(reaped, false);
    assert Distance(0, 1, 3) == 1;
    assert r.tasks[2] == reaped.tasks[2];
    assert SameState(reaped.tasks[1], r.tasks[1]);
  }

  /** So blocking and waking do happen: a run in which the first task blocks, and one event longer, is runnable again. */
  lemma WaitingRun()
    ensures var es := [SPAWN, SPAWN, Start, Timer(true), ReceiveWaitCall(64, true, true)];
            && Run(Initial(), es).tasks[1].status.Blocked? && Run(Initial(), es).current == 2
            && Ready(Run(Initial(), es + [KernelSend(7, [])]).tasks[1])
  {
    hide Step, Initial;
    var es := [SPAWN, SPAWN, Start, Timer(true), ReceiveWaitCall(64, true, true)];
    TwoTasks();
    var s := Step(Step(Step(Step(Initial(), SPAWN), SPAWN), Start), Timer(true));
    RunFour(Initial(), SPAWN, SPAWN, Start, Timer(true));
    assert es[..4] == [SPAWN, SPAWN, Start, Timer(true)];
    assert (es + [KernelSend(7, [])])[..5] == es;
    BlockedThenWoken(s, 7, []);
    OnlyOther(s);
  }

  lemma OnlyOther(s: Sys)
    requires Inv(s) && !s.panicked && s.count == 3 && s.current == 1 && UserRuns(s) && Ready(s.tasks[2]) && s.queue == []
    ensures Step(s, ReceiveWaitCall(64, true, true)).current == 2
  {
    hide ReceiveWait, QueueOk;
    assert OtherRunnable(s);
    BlockMeans(s, 64, true);
    NotBoot(s, Step(s, ReceiveWaitCall(64, true, true)).current);
  }

  lemma RunFour(s: Sys, a: Event, b: Event, c: Event, d: Event)
    requires Shaped(s)
    ensures Run(s, [a, b, c, d]) == Step(Step(Step(Step(s, a), b), c), d)
  {
    hide Step;
    assert [a, b, c, d][..3] == [a, b, c] && [a, b, c][..2] == [a, b] && [a, b][..1] == [a] && [a][..0] == [];
    assert Run(s, [a]) == Step(s, a);
    assert Run(s, [a, b]) == Step(Step(s, a), b);
  }
}
