/** What every run of the scheduler and the message queue keeps. */
module TaskRuns {
  import opened Bytes
  import opened Ipc
  import opened Scheduler

  // ---------- The invariant ----------

  predicate Active(t: Task) {
    t.mode.User? && !t.status.Terminated? && t.framed
  }

  /** Slot 0 is the boot stack, which is never scheduled again once the scheduler has started. */
  predicate BootTask(t: Task, started: bool) {
    t.mode.Kernel? && t.id == 0 && t.priority == t.ticks == 1 && t.status == if started then Terminated else Runnable
  }

  predicate TaskOk(t: Task, i: nat, generation: nat) {
    && (t.id == 0 || (t.id % 256 == i && t.id / 256 <= generation))
    && (!t.status.Terminated? ==> t.framed && t.stacked && generation > 0 && t.id == generation * 256 + i)
    && 1 <= t.ticks <= t.priority <= MAX_PRIORITY
    && (t.status.Blocked? ==> t.mode.User?)
  }

  ghost predicate TasksOk(s: Sys)
    requires Shaped(s)
  {
    && BootTask(s.tasks[0], s.started)
    && (forall i: nat :: 0 < i < s.count ==> TaskOk(s.tasks[i], i, s.generation[i]))
    && (forall i: nat :: i < MAX_TASKS ==> s.generation[i] <= MAX_GENERATION)
    && (forall i: nat :: i in s.pending ==> 0 < i < s.count && s.tasks[i].status.Terminated?)
  }

  /** No blocked task has a message it could read. */
  ghost predicate NoLostWakeup(s: Sys)
    requires Shaped(s)
  {
    forall i: nat, m :: 0 < i < s.count && s.tasks[i].status.Blocked? && m in s.queue ==> !Matches(m, s.tasks[i].id)
  }

  /** Every sender and receiver in the queue is a user task that has not ended. */
  ghost predicate NamesActive(s: Sys)
    requires Shaped(s)
  {
    forall m :: m in s.queue ==>
      (m.sender == 0 || ActiveUser(s, m.sender)) && (m.receiver == 0 || ActiveUser(s, m.receiver))
  }

  ghost predicate QueueOk(s: Sys)
    requires Shaped(s)
  {
    && |s.queue| <= CAPACITY && (forall m :: m in s.queue ==> |m.data| <= MESSAGE_MAX)
    && NoLostWakeup(s) && NamesActive(s)
  }

  /** The processor is on a runnable task, or still on the boot stack. */
  predicate CurrentOk(s: Sys)
    requires Shaped(s)
  {
    if s.current == 0 then true else s.started && Ready(s.tasks[s.current])
  }

  ghost predicate Inv(s: Sys) {
    Shaped(s) && TasksOk(s) && QueueOk(s) && (!s.panicked ==> CurrentOk(s))
  }

  // ---------- What task changes do to the queue's promises ----------

  predicate Follows(t: Task, u: Task) {
    u.id == t.id && u.mode == t.mode && (u.status.Blocked? ==> t.status.Blocked?)
  }

  predicate Mentions(m: Message, id: u32) {
    m.sender == id || m.receiver == id
  }

  lemma StillActive(s: Sys, r: Sys, id: u32)
    requires Shaped(s) && Shaped(r) && r.count >= s.count && ActiveUser(s, id)
    requires forall i: nat :: 0 < i < s.count && Active(s.tasks[i]) && s.tasks[i].id == id ==> Active(r.tasks[i]) && r.tasks[i].id == id
    ensures ActiveUser(r, id)
  {
    var i: nat :| 0 < i < s.count && s.tasks[i].id == id && s.tasks[i].mode.User? && !s.tasks[i].status.Terminated? && s.tasks[i].framed;
    assert Active(s.tasks[i]);
    assert r.tasks[i].id == id && Active(r.tasks[i]);
  }

  lemma NamesKept(s: Sys, r: Sys)
    requires Shaped(s) && Shaped(r) && r.count >= s.count && NamesActive(s) && r.queue == s.queue
    requires forall i: nat :: 0 < i < s.count && Active(s.tasks[i]) ==> Active(r.tasks[i]) && r.tasks[i].id == s.tasks[i].id
    ensures NamesActive(r)
  {
    forall m | m in r.queue
      ensures (m.sender == 0 || ActiveUser(r, m.sender)) && (m.receiver == 0 || ActiveUser(r, m.receiver))
    {
      if m.sender != 0 {
        StillActive(s, r, m.sender);
      }
      if m.receiver != 0 {
        StillActive(s, r, m.receiver);
      }
    }
  }

  /** Fewer messages, no newly blocked task and no named task lost: the queue's promises still hold. */
  lemma QueueKept(s: Sys, r: Sys)
    requires Shaped(s) && Shaped(r) && r.count == s.count && QueueOk(s)
    requires |r.queue| <= |s.queue| && forall m :: m in r.queue ==> m in s.queue
    requires forall i: nat :: 0 < i < s.count ==> Follows(s.tasks[i], r.tasks[i])
    requires forall i: nat, m :: 0 < i < s.count && m in r.queue && Active(s.tasks[i]) && Mentions(m, s.tasks[i].id) ==> Active(r.tasks[i])
    ensures QueueOk(r)
  {
    forall m | m in r.queue
      ensures (m.sender == 0 || ActiveUser(r, m.sender)) && (m.receiver == 0 || ActiveUser(r, m.receiver))
    {
      if m.sender != 0 {
        assert forall i: nat :: 0 < i < s.count && Active(s.tasks[i]) && s.tasks[i].id == m.sender ==> Mentions(m, s.tasks[i].id);
        StillActive(s, r, m.sender);
      }
      if m.receiver != 0 {
        assert forall i: nat :: 0 < i < s.count && Active(s.tasks[i]) && s.tasks[i].id == m.receiver ==> Mentions(m, s.tasks[i].id);
        StillActive(s, r, m.receiver);
      }
    }
  }

  // ---------- One operation at a time ----------

  lemma ReapedKeeps(s: Sys)
    requires Shaped(s) && TasksOk(s) && QueueOk(s)
    ensures var r := Reaped(s); TasksOk(r) && QueueOk(r)
    ensures forall i: nat :: i < s.count && !s.tasks[i].status.Terminated? ==> Reaped(s).tasks[i] == s.tasks[i]
    ensures Reaped(s).tasks[s.current] == s.tasks[s.current]
  {
    var r := Reaped(s);
    forall i: nat | 0 < i < s.count ensures Follows(s.tasks[i], r.tasks[i]) && (Active(s.tasks[i]) ==> Active(r.tasks[i])) {
      assert r.tasks[i] == if Reapable(s, i) then ReapedTask(s.tasks[i]) else s.tasks[i];
    }
    QueueKept(s, r);
  }

  /** The same task, up to its saved frame and its remaining ticks. */
  predicate SameButClock(t: Task, u: Task) {
    u == t.(framed := u.framed, ticks := u.ticks) && (t.framed ==> u.framed) && (u.ticks == t.priority || 1 <= u.ticks <= t.ticks)
  }

  lemma DispatchEffect(s: Sys, force: bool)
    requires Shaped(s) && !s.panicked && forall i: nat :: i < s.count ==> s.tasks[i].ticks >= 1
    ensures var r := Dispatch(s, force);
            && r == s.(tasks := r.tasks, current := r.current, panicked := r.panicked)
            && (forall i: nat :: i < s.count ==> SameButClock(s.tasks[i], r.tasks[i]))
            && (!r.panicked && !s.tasks[s.current].status.Runnable? ==> Ready(r.tasks[r.current]))
            && (s.tasks[s.current].status.Runnable? ==> r.tasks[r.current].status.Runnable?)
            && (s.tasks[s.current].mode.User? ==> r.current == s.current || Ready(r.tasks[r.current]))
  {
    hide NextRunnable;
  }

  lemma DispatchKeeps(s: Sys, force: bool)
    requires Shaped(s) && TasksOk(s) && QueueOk(s) && s.started && !s.panicked
    ensures Inv(Dispatch(s, force))
  {
    hide Dispatch, NamesActive, NoLostWakeup, QueueOk;
    forall i: nat | i < s.count ensures s.tasks[i].ticks >= 1 {
      assert i > 0 ==> TaskOk(s.tasks[i], i, s.generation[i]);
    }
    DispatchEffect(s, force);
    var r := Dispatch(s, force);
    forall i: nat | 0 < i < s.count
      ensures Follows(s.tasks[i], r.tasks[i]) && (Active(s.tasks[i]) ==> Active(r.tasks[i])) && TaskOk(r.tasks[i], i, r.generation[i])
    {
      assert SameButClock(s.tasks[i], r.tasks[i]);
    }
    assert SameButClock(s.tasks[0], r.tasks[0]);
    QueueKept(s, r);
  }

  lemma WithoutTaskMembers(q: seq<Message>, id: u32)
    ensures |WithoutTask(q, id)| <= |q| && forall m :: m in WithoutTask(q, id) ==> m in q && (id != 0 ==> !Mentions(m, id))
  {
    PurgedMembers(q, id, false);
    PurgedMembers(Purged(q, id, false), id, true);
  }

  /** A user task that ends takes every message that names it out of the queue. */
  lemma EndedKeeps(s: Sys)
    requires Inv(s) && !s.panicked && s.started && s.current != 0
    ensures var r := Ended(if s.tasks[s.current].mode.User? then s.(queue := WithoutTask(s.queue, s.tasks[s.current].id)) else s);
            TasksOk(r) && QueueOk(r)
  {
    var t := s.tasks[s.current];
    WithoutTaskMembers(s.queue, t.id);
    var r := Ended(if t.mode.User? then s.(queue := WithoutTask(s.queue, t.id)) else s);
    assert TaskOk(t, s.current, s.generation[s.current]);
    QueueKept(s, r);
  }

  lemma TerminateKeeps(s: Sys)
    requires Inv(s) && !s.panicked
    ensures Inv(Terminate(s))
  {
    var t := s.tasks[s.current];
    if s.started && t.mode.User? {
      EndedKeeps(s);
      var ended := Ended(s.(queue := WithoutTask(s.queue, t.id)));
      ReapedKeeps(ended);
      DispatchKeeps(Reaped(ended), true);
    }
  }

  lemma ScheduleKeeps(s: Sys, force: bool, executable: bool)
    requires Shaped(s) && TasksOk(s) && QueueOk(s) && !s.panicked
    requires !s.started ==> CurrentOk(s)
    ensures Inv(Schedule(s, force, executable))
  {
    if s.started {
      ReapedKeeps(s);
      var r := Reaped(s);
      var t := r.tasks[r.current];
      if t.mode.User? && t.status.Runnable? && !executable {
        assert TaskOk(t, r.current, r.generation[r.current]);
        TerminateKeeps(r);
      } else {
        DispatchKeeps(r, force);
      }
    }
  }

  lemma WakeKeeps(s: Sys, i: nat)
    requires Inv(s)
    ensures Inv(Wake(s, i))
  {
    QueueKept(s, Wake(s, i));
  }

  /** Identifiers tell slots apart, so waking by identifier wakes every task the message is for. */
  lemma WakeIdEffect(s: Sys, id: u32, i: nat)
    requires Shaped(s) && TasksOk(s) && id != 0 && 0 < i < s.count && s.tasks[i].status.Blocked?
    ensures WakeId(s, id).tasks[i].status.Blocked? ==> s.tasks[i].id != id
  {
    assert TaskOk(s.tasks[i], i, s.generation[i]);
    if s.tasks[i].id == id {
      var k := SlotOf(s, id, 1);
      assert k <= i;
      assert TaskOk(s.tasks[k], k, s.generation[k]);
    }
  }

  function WakeFor(s: Sys, receiver: u32): (r: Sys)
    requires Shaped(s)
    ensures Shaped(r)
  {
    if receiver != 0 then WakeId(s, receiver) else WakeUsers(s)
  }

  lemma WakeForEffect(s: Sys, m: Message)
    requires Shaped(s) && TasksOk(s)
    ensures var r := WakeFor(s, m.receiver);
            && r == s.(tasks := r.tasks) && TasksOk(r)
            && (forall i: nat :: 0 < i < s.count ==> Follows(s.tasks[i], r.tasks[i]) && (Active(s.tasks[i]) ==> Active(r.tasks[i])))
            && (forall i: nat :: 0 < i < s.count && r.tasks[i].status.Blocked? ==> !Matches(m, r.tasks[i].id))
            && (forall i: nat :: i < s.count && !s.tasks[i].status.Blocked? ==> r.tasks[i] == s.tasks[i])
  {
    hide WakeFor, WakeId, SlotOf;
    var r := WakeFor(s, m.receiver);
    WakeForFrame(s, m.receiver);
    forall i: nat | i < s.count
      ensures i > 0 ==> Follows(s.tasks[i], r.tasks[i]) && (Active(s.tasks[i]) ==> Active(r.tasks[i]))
      ensures i > 0 && r.tasks[i].status.Blocked? ==> !Matches(m, r.tasks[i].id)
      ensures i > 0 ==> TaskOk(r.tasks[i], i, r.generation[i])
      ensures !s.tasks[i].status.Blocked? ==> r.tasks[i] == s.tasks[i]
    {
      assert i > 0 ==> TaskOk(s.tasks[i], i, s.generation[i]);
      WakeForAt(s, m.receiver, i);
    }
  }

  lemma WakeForFrame(s: Sys, receiver: u32)
    requires Shaped(s)
    ensures WakeFor(s, receiver) == s.(tasks := WakeFor(s, receiver).tasks)
  {
  }

  lemma WakeForAt(s: Sys, receiver: u32, i: nat)
    requires Shaped(s) && TasksOk(s) && i < s.count
    ensures var r := WakeFor(s, receiver);
            && (r.tasks[i] == s.tasks[i] || r.tasks[i] == Woken(s.tasks[i])) && (i == 0 ==> r.tasks[i] == s.tasks[i])
            && (i > 0 && r.tasks[i].status.Blocked? && s.tasks[i].framed && s.tasks[i].mode.User? ==> receiver != 0 && s.tasks[i].id != receiver)
  {
    hide SlotOf;
    if receiver != 0 && s.tasks[i].status.Blocked? && i > 0 {
      WakeIdEffect(s, receiver, i);
    }
  }

  /** The message is queued and everyone who could read it is awake. */
  lemma DeliverKeeps(s: Sys, m: Message)
    requires Inv(s) && (m.sender == 0 || ActiveUser(s, m.sender)) && (m.receiver == 0 || ActiveUser(s, m.receiver))
    ensures Inv(Deliver(s, m).0)
  {
    hide Deliver, WakeFor;
    DeliverWakes(s, m);
    WakeForEffect(s, m);
    if Deliver(s, m).1 {
      QueueKept(s, WakeFor(s, m.receiver));
      Announce(s, WakeFor(s, m.receiver), m);
    }
  }

  lemma DeliverWakes(s: Sys, m: Message)
    requires Shaped(s)
    ensures var (r, ok) := Deliver(s, m);
            && ok == (|s.queue| < CAPACITY && |m.data| <= MESSAGE_MAX)
            && r == if ok then WakeFor(s, m.receiver).(queue := s.queue + [m]) else s
  {
    SlotOfIgnoresQueue(s, s.queue + [m], m.receiver, 1);
  }

  lemma {:induction false} SlotOfIgnoresQueue(s: Sys, q: seq<Message>, id: u32, i: nat)
    requires Shaped(s) && i <= s.count
    ensures SlotOf(s.(queue := q), id, i) == SlotOf(s, id, i)
    decreases s.count - i
  {
    if i < s.count {
      SlotOfIgnoresQueue(s, q, id, i + 1);
    }
  }

  lemma Announce(s: Sys, r: Sys, m: Message)
    requires Shaped(s) && Shaped(r) && r.count == s.count && QueueOk(r) && |r.queue| < CAPACITY && |m.data| <= MESSAGE_MAX
    requires (m.sender == 0 || ActiveUser(s, m.sender)) && (m.receiver == 0 || ActiveUser(s, m.receiver))
    requires forall i: nat :: 0 < i < s.count ==> Follows(s.tasks[i], r.tasks[i]) && (Active(s.tasks[i]) ==> Active(r.tasks[i]))
    requires forall i: nat :: 0 < i < s.count && r.tasks[i].status.Blocked? ==> !Matches(m, r.tasks[i].id)
    ensures QueueOk(r.(queue := r.queue + [m]))
  {
    var after := r.(queue := r.queue + [m]);
    if m.sender != 0 {
      StillActive(s, after, m.sender);
    }
    if m.receiver != 0 {
      StillActive(s, after, m.receiver);
    }
    NamesKept(r, after.(queue := r.queue));
  }

  lemma ReceivedKeeps(s: Sys, receiver: u32, capacity: nat)
    requires Inv(s)
    ensures Inv(s.(queue := Received(s.queue, receiver, capacity).0))
  {
    QueueKept(s, s.(queue := Received(s.queue, receiver, capacity).0));
  }

  lemma NothingPending(q: seq<Message>, id: u32)
    requires PendingFor(q, id) == 0
    ensures forall m :: m in q ==> !Matches(m, id)
  {
    PendingIff(q, id);
    forall m | m in q ensures !Matches(m, id) {
      var i :| 0 <= i < |q| && q[i] == m;
      assert !Matches(q[i], id);
    }
  }

  /** A task blocks only when nothing in the queue is for it. */
  lemma BlockKeeps(s: Sys)
    requires Inv(s) && !s.panicked && PendingFor(s.queue, s.tasks[s.current].id) == 0
    requires s.tasks[s.current].mode.User?
    ensures TasksOk(BlockCurrent(s).0) && QueueOk(BlockCurrent(s).0)
  {
    var t := s.tasks[s.current];
    var (r, ok) := BlockCurrent(s);
    if ok {
      NothingPending(s.queue, t.id);
      NamesKept(s, r);
    }
  }

  lemma ReceiveWaitKeeps(s: Sys, capacity: nat, writable: bool, executable: bool)
    requires Inv(s) && !s.panicked && UserRuns(s)
    ensures Inv(ReceiveWait(s, capacity, writable, executable).0)
  {
    hide Schedule, BlockCurrent, Received, PendingFor, TasksOk, QueueOk;
    var id := s.tasks[s.current].id;
    ReceivedKeeps(s, id, capacity);
    var (after, reply) := Receive(s, capacity, writable);
    if reply == Again {
      assert PendingFor(s.queue, id) == 0;
      BlockKeeps(s);
      BlockedStillRuns(s);
      var (blocked, ok) := BlockCurrent(s);
      if ok {
        ScheduleKeeps(blocked, true, executable);
      }
    }
  }

  lemma BlockedStillRuns(s: Sys)
    requires Shaped(s) && s.started && !s.panicked
    ensures BlockCurrent(s).0.started && !BlockCurrent(s).0.panicked
  {
  }

  /** A reused slot held a task that had ended, so nobody in the queue means it. */
  lemma SpawnKeeps(s: Sys, mode: Mode, admissible: bool, named: bool, stackBuilt: bool)
    requires Inv(s)
    ensures Inv(Spawn(s, mode, admissible, named, stackBuilt))
  {
    hide FindSlot;
    var r := Spawn(s, mode, admissible, named, stackBuilt);
    var k := FindSlot(s, 1);
    if Spawnable(s, admissible) {
      assert forall i: nat :: i < s.count && i != k ==> r.tasks[i] == s.tasks[i];
      assert r.queue == s.queue && r.count >= s.count;
      NamesKept(s, r);
    }
  }

  // ---------- Whole runs ----------

  lemma InitialInv()
    ensures Inv(Initial())
  {
  }

  lemma CurrentIsActive(s: Sys)
    requires Inv(s) && !s.panicked && UserRuns(s)
    ensures s.current > 0 && ActiveUser(s, s.tasks[s.current].id)
  {
    assert TaskOk(s.tasks[s.current], s.current, s.generation[s.current]);
  }

  lemma SendKeeps(s: Sys, target: Option<u32>, kind: u32, data: seq<byte>, readable: bool)
    requires Inv(s) && !s.panicked && UserRuns(s)
    ensures Inv(Send(s, target, kind, data, readable).0)
  {
    hide Deliver, ActiveUser, TasksOk, QueueOk;
    CurrentIsActive(s);
    if |data| <= MESSAGE_MAX && readable && (target.Some? ==> ActiveUser(s, target.value)) {
      DeliverKeeps(s, Message(s.tasks[s.current].id, if target.Some? then target.value else 0, kind, data));
    }
  }

  lemma StartKeeps(s: Sys)
    requires Inv(s) && !s.panicked
    ensures Inv(Step(s, Start))
  {
    QueueKept(s, Step(s, Start));
  }

  lemma SetPriorityKeeps(s: Sys, i: nat, p: nat)
    requires Inv(s) && !s.panicked
    ensures Inv(Step(s, SetPriority(i, p)))
  {
    QueueKept(s, Step(s, SetPriority(i, p)));
  }

  lemma KernelReturnKeeps(s: Sys)
    requires Inv(s) && !s.panicked
    ensures Inv(Step(s, KernelReturn))
  {
    hide Schedule, TasksOk, QueueOk;
    if s.started && s.current != 0 && s.tasks[s.current].mode.Kernel? && Ready(s.tasks[s.current]) {
      EndedKeeps(s);
      ScheduleKeeps(Ended(s), true, true);
    }
  }

  lemma StepKeepsInv(s: Sys, e: Event)
    requires Inv(s)
    ensures Inv(Step(s, e))
  {
    hide Schedule, Send, Receive, ReceiveWait, Terminate, Spawn, Deliver, Received, Wake, TasksOk, QueueOk;
    if !s.panicked {
      match e
      case Start => StartKeeps(s);
      case SetPriority(i, p) => SetPriorityKeeps(s, i, p);
      case SpawnTask(mode, admissible, named, stackBuilt) => SpawnKeeps(s, mode, admissible, named, stackBuilt);
      case Timer(executable) => ScheduleKeeps(s, false, executable);
      case Yield(executable) => ScheduleKeeps(s, true, executable);
      case SendCall(target, kind, data, readable) =>
        if UserRuns(s) {
          SendKeeps(s, target, kind, data, readable);
        }
      case ReceiveCall(capacity, writable) => ReceiveKeeps(s, capacity, writable);
      case ReceiveWaitCall(capacity, writable, executable) =>
        if UserRuns(s) {
          ReceiveWaitKeeps(s, capacity, writable, executable);
        }
      case Exit => TerminateKeeps(s);
      case KernelReturn => KernelReturnKeeps(s);
      case KernelSend(kind, data) => DeliverKeeps(s, Message(0, 0, kind, data));
      case KernelReceive(capacity) => ReceivedKeeps(s, 0, capacity);
      case KernelWake(i) => WakeKeeps(s, i);
    }
  }

  lemma ReceiveKeeps(s: Sys, capacity: nat, writable: bool)
    requires Inv(s)
    ensures Inv(Receive(s, capacity, writable).0)
  {
    hide Received, TasksOk, QueueOk;
    ReceivedKeeps(s, s.tasks[s.current].id, capacity);
  }

  /** In every reachable state no blocked task has a message waiting and every name in the queue is live. */
  lemma {:induction false} RunKeepsInv(es: seq<Event>)
    ensures var s := Run(Initial(), es); Inv(s) && NoLostWakeup(s) && NamesActive(s)
  {
    if es == [] {
      InitialInv();
    } else {
      RunKeepsInv(es[..|es| - 1]);
      StepKeepsInv(Run(Initial(), es[..|es| - 1]), es[|es| - 1]);
    }
  }

  // ---------- When the scheduler finds nothing to run ----------

  /** The event ends the current task. */
  predicate EndsCurrent(s: Sys, e: Event)
    requires Shaped(s)
  {
    match e
    case Timer(executable) => UserRuns(s) && !executable
    case Yield(executable) => UserRuns(s) && !executable
    case Exit => UserRuns(s)
    case KernelReturn => s.started && s.current != 0 && s.tasks[s.current].mode.Kernel? && Ready(s.tasks[s.current])
    case _ => false
  }

  lemma DispatchPanics(s: Sys, force: bool)
    requires Shaped(s) && !s.panicked
    requires s.tasks[s.current].status.Runnable? ==> s.tasks[s.current].framed
    ensures Dispatch(s, force).panicked <==> !s.tasks[s.current].status.Runnable? && !OtherRunnable(s)
  {
    hide NextRunnable;
    var t := s.tasks[s.current];
    var saved := Saved(s);
    assert forall i: nat :: i < s.count && i != s.current ==> saved.tasks[i] == s.tasks[i];
    assert Ready(saved.tasks[s.current]) <==> t.status.Runnable?;
  }

  lemma ReapedOthers(s: Sys)
    requires Shaped(s) && TasksOk(s)
    ensures OtherRunnable(Reaped(s)) <==> OtherRunnable(s)
  {
    var r := Reaped(s);
    forall i: nat | i < s.count ensures Ready(r.tasks[i]) <==> Ready(s.tasks[i]) {
      assert r.tasks[i] == if Reapable(s, i) then ReapedTask(s.tasks[i]) else s.tasks[i];
    }
  }

  lemma ReapedCurrent(s: Sys)
    requires Shaped(s)
    ensures var r := Reaped(s); r == s.(tasks := r.tasks, pending := r.pending) && r.tasks[s.current] == s.tasks[s.current]
  {
  }

  lemma TerminatePanics(s: Sys)
    requires Inv(s) && !s.panicked && UserRuns(s)
    ensures Terminate(s).panicked <==> !OtherRunnable(s)
  {
    hide Dispatch, Reaped, WithoutTask;
    var q := WithoutTask(s.queue, s.tasks[s.current].id);
    CurrentIsActive(s);
    EndedKeeps(s);
    var ended := Ended(s.(queue := q));
    ReapedCurrent(ended);
    ReapedOthers(ended);
    DispatchPanics(Reaped(ended), true);
    assert forall i: nat :: i < s.count && i != s.current ==> ended.tasks[i] == s.tasks[i];
  }

  lemma SchedulePanics(s: Sys, force: bool, executable: bool)
    requires Shaped(s) && TasksOk(s) && QueueOk(s) && !s.panicked && s.started
    ensures Schedule(s, force, executable).panicked <==>
              !OtherRunnable(s) && (!s.tasks[s.current].status.Runnable? || (s.tasks[s.current].mode.User? && !executable))
  {
    hide Dispatch, Reaped, Terminate, QueueOk;
    ReapedKeeps(s);
    ReapedOthers(s);
    ReapedCurrent(s);
    var r := Reaped(s);
    var t := s.tasks[s.current];
    assert s.current > 0 ==> TaskOk(t, s.current, s.generation[s.current]);
    if t.mode.User? && t.status.Runnable? && !executable {
      TerminatePanics(r);
    } else {
      DispatchPanics(r, force);
    }
  }

  /** The scheduler runs out of tasks exactly when the last runnable one ends (or none was there at the start). */
  lemma PanicIff(s: Sys, e: Event)
    requires Inv(s) && !s.panicked
    ensures Step(s, e).panicked <==>
              s.started && !OtherRunnable(s) && (EndsCurrent(s, e) || (s.current == 0 && (e.Timer? || e.Yield?)))
  {
    hide Schedule, Terminate, Dispatch, Reaped, NextRunnable;
    match e
    case Timer(executable) => ScheduleBranch(s, false, executable);
    case Yield(executable) => ScheduleBranch(s, true, executable);
    case Exit =>
      if UserRuns(s) {
        TerminatePanics(s);
      }
    case KernelReturn =>
      if EndsCurrent(s, e) {
        EndedKeeps(s);
        SchedulePanics(Ended(s), true, true);
        assert forall i: nat :: i < s.count && i != s.current ==> Ended(s).tasks[i] == s.tasks[i];
      }
    case ReceiveWaitCall(capacity, writable, executable) =>
      if UserRuns(s) {
        BlockingNeverStalls(s, capacity, writable, executable);
      }
    case _ =>
  }

  lemma ScheduleBranch(s: Sys, force: bool, executable: bool)
    requires Inv(s) && !s.panicked
    ensures Schedule(s, force, executable).panicked <==>
              s.started && !OtherRunnable(s) && ((UserRuns(s) && !executable) || s.current == 0)
  {
    hide Dispatch, Reaped, Terminate, QueueOk;
    if s.started {
      SchedulePanics(s, force, executable);
    }
  }

  /** A task that blocks always leaves another one to run. */
  lemma BlockingNeverStalls(s: Sys, capacity: nat, writable: bool, executable: bool)
    requires Inv(s) && !s.panicked && UserRuns(s)
    ensures !ReceiveWait(s, capacity, writable, executable).0.panicked
  {
    hide Schedule, Received, PendingFor, QueueOk, TasksOk;
    var (after, reply) := Receive(s, capacity, writable);
    if reply == Again {
      BlockKeeps(s);
      var (blocked, ok) := BlockCurrent(s);
      if ok {
        assert forall i: nat :: i < s.count && i != s.current ==> blocked.tasks[i] == s.tasks[i];
        SchedulePanics(blocked, true, executable);
      }
    }
  }

  // ---------- What the calls reply ----------

  /** A send is answered with its length exactly when it is queued; every refusal leaves the system alone. */
  lemma SendReplies(s: Sys, target: Option<u32>, kind: u32, data: seq<byte>, readable: bool)
    requires Shaped(s)
    ensures var (r, reply) := Send(s, target, kind, data, readable);
            var receiver := if target.Some? then target.value else 0;
            && (reply.Length? <==> |data| <= MESSAGE_MAX && (target.Some? ==> ActiveUser(s, target.value)) && readable && |s.queue| < CAPACITY)
            && (reply.Length? ==> reply.n == |data| && r.queue == s.queue + [Message(s.tasks[s.current].id, receiver, kind, data)])
            && (!reply.Length? ==> r == s)
            && (reply.Again? ==> |s.queue| >= CAPACITY)
  {
    hide ActiveUser, WakeFor;
    if |data| <= MESSAGE_MAX && (target.Some? ==> ActiveUser(s, target.value)) && readable {
      var m := Message(s.tasks[s.current].id, if target.Some? then target.value else 0, kind, data);
      DeliverWakes(s, m);
      assert Deliver(s, m).1 <==> |s.queue| < CAPACITY;
    }
  }

  /** With a good buffer the reply tells the queue apart: nothing for this task, nothing that fits, or the earliest message. */
  lemma ReceiveReplies(s: Sys, capacity: nat)
    requires Shaped(s) && capacity <= MESSAGE_MAX
    ensures var id := s.tasks[s.current].id;
            var (r, reply) := Receive(s, capacity, true);
            var k := FirstMatch(s.queue, id);
            && (reply == Again <==> forall m :: m in s.queue ==> !Matches(m, id))
            && (reply == TooBig <==> k < |s.queue| && |s.queue[k].data| > capacity)
            && (reply.Got? <==> k < |s.queue| && |s.queue[k].data| <= capacity)
            && (reply.Got? ==> reply.message == s.queue[k] && r == s.(queue := RemoveAt(s.queue, k)))
            && (!reply.Got? ==> r == s)
  {
    var id := s.tasks[s.current].id;
    PendingIff(s.queue, id);
    var k := FirstMatch(s.queue, id);
    if k < |s.queue| {
      assert s.queue[k] in s.queue && Matches(s.queue[k], id);
    } else {
      NothingPending(s.queue, id);
    }
  }
}
