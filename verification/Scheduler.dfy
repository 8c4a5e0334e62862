/** Tasks, round-robin dispatch with time slices, and the message system calls, as atomic steps. */
module Scheduler {
  import opened Bytes
  import opened Ipc

  const MAX_TASKS: nat := 16
  const MAX_GENERATION: nat := 0x00FF_FFFF
  const MAX_PRIORITY: nat := 8

  datatype Mode = Kernel | User

  datatype Status = Runnable | Terminated | Blocked

  datatype Task = Task(mode: Mode, status: Status, framed: bool, stacked: bool, id: u32, priority: nat, ticks: nat)

  const CLEARED: Task := Task(Kernel, Terminated, false, false, 0, 1, 1)

  datatype Sys = Sys(
    tasks: seq<Task>, count: nat, current: nat, started: bool, pending: set<nat>,
    generation: seq<nat>, queue: seq<Message>, panicked: bool)

  predicate Shaped(s: Sys) {
    |s.tasks| == MAX_TASKS && |s.generation| == MAX_TASKS && 1 <= s.count <= MAX_TASKS && s.current < s.count
  }

  predicate Ready(t: Task) {
    t.status.Runnable? && t.framed
  }

  function Initial(): (s: Sys)
    ensures Shaped(s)
  {
    var blank := seq(MAX_TASKS, _ => CLEARED);
    Sys(blank[0 := CLEARED.(status := Runnable)], 1, 0, false, {}, seq(MAX_TASKS, _ => 0), [], false)
  }

  // ---------- Dispatch ----------

  /** How far round the ring one task is from another; a task is a whole turn from itself. */
  function Distance(from: nat, to: nat, n: nat): (d: nat)
    requires from < n && to < n
    ensures 1 <= d <= n
  {
    if to > from then to - from else to + n - from
  }

  function Around(from: nat, offset: nat, n: nat): (i: nat)
    requires from < n && 1 <= offset <= n
    ensures i < n && Distance(from, i, n) == offset
  {
    if from + offset < n then from + offset else from + offset - n
  }

  function Search(s: Sys, offset: nat): (n: nat)
    requires Shaped(s) && 1 <= offset <= s.count + 1
    ensures n == MAX_TASKS || (n < s.count && Ready(s.tasks[n]) && Distance(s.current, n, s.count) >= offset)
    ensures forall i: nat :: i < s.count && Ready(s.tasks[i]) && Distance(s.current, i, s.count) >= offset ==>
              n < s.count && Distance(s.current, n, s.count) <= Distance(s.current, i, s.count)
    decreases s.count + 1 - offset
  {
    if offset > s.count then MAX_TASKS
    else
      var i := Around(s.current, offset, s.count);
      if Ready(s.tasks[i]) then i else Search(s, offset + 1)
  }

  /** The nearest runnable task going round the ring, the current one last; MAX_TASKS when there is none. */
  function NextRunnable(s: Sys): (n: nat)
    requires Shaped(s)
    ensures n == MAX_TASKS <==> forall i: nat :: i < s.count ==> !Ready(s.tasks[i])
    ensures n != MAX_TASKS ==> n < s.count && Ready(s.tasks[n])
    ensures forall i: nat :: i < s.count && Ready(s.tasks[i]) ==>
              n < s.count && Distance(s.current, n, s.count) <= Distance(s.current, i, s.count)
  {
    Search(s, 1)
  }

  predicate OtherRunnable(s: Sys)
    requires Shaped(s)
  {
    exists i: nat :: i < s.count && i != s.current && Ready(s.tasks[i])
  }

  function ReapedTask(t: Task): Task {
    if t.stacked then t.(stacked := false, framed := false) else t
  }

  predicate Reapable(s: Sys, i: nat) {
    0 < i < s.count && i != s.current && i in s.pending
  }

  /** Frees the stacks of terminated tasks, except the one that is still being run on. */
  function Reaped(s: Sys): (r: Sys)
    requires Shaped(s)
    ensures Shaped(r) && r.generation == s.generation && r.count == s.count && r.started == s.started
  {
    s.(tasks := seq(MAX_TASKS, i requires 0 <= i < MAX_TASKS =>
                  if Reapable(s, i) then ReapedTask(s.tasks[i]) else s.tasks[i]),
       pending := set i | i in s.pending && !Reapable(s, i))
  }

  /** A kernel task's frame is where it was interrupted; a user task keeps its frame and its words are copied. */
  function Saved(s: Sys): (r: Sys)
    requires Shaped(s)
    ensures Shaped(r) && r.generation == s.generation && r.count == s.count && r.started == s.started
  {
    var t := s.tasks[s.current];
    if t.mode.User? then s else s.(tasks := s.tasks[s.current := t.(framed := true)])
  }

  function SwitchToNext(s: Sys): (r: Sys)
    requires Shaped(s)
    ensures Shaped(r) && r.generation == s.generation && r.count == s.count && r.started == s.started
  {
    var n := NextRunnable(s);
    if n == MAX_TASKS then s.(panicked := true)
    else if n == s.current then s
    else s.(current := n, tasks := s.tasks[n := s.tasks[n].(ticks := s.tasks[n].priority)])
  }

  /** The end of a scheduling interrupt: use up a tick, or move to the next runnable task. */
  function Dispatch(s: Sys, force: bool): (r: Sys)
    requires Shaped(s)
    ensures Shaped(r) && r.generation == s.generation && r.count == s.count && r.started == s.started
  {
    var saved := Saved(s);
    var t := saved.tasks[s.current];
    if !force && t.status.Runnable? && t.ticks > 1 then
      saved.(tasks := saved.tasks[s.current := t.(ticks := t.ticks - 1)])
    else SwitchToNext(saved)
  }

  function WithoutTask(q: seq<Message>, id: u32): seq<Message> {
    if id == 0 then q else Purged(Purged(q, id, false), id, true)
  }

  /** The current task ends; its stack stays until another task runs. */
  function Ended(s: Sys): (r: Sys)
    requires Shaped(s)
    ensures Shaped(r) && r.generation == s.generation && r.count == s.count && r.started == s.started
  {
    s.(tasks := s.tasks[s.current := s.tasks[s.current].(status := Terminated)], pending := s.pending + {s.current})
  }

  /** Exit and fault of a user task. */
  function Terminate(s: Sys): (r: Sys)
    requires Shaped(s)
    ensures Shaped(r) && r.generation == s.generation && r.count == s.count && r.started == s.started
  {
    var t := s.tasks[s.current];
    if !s.started || t.mode != User then s
    else Dispatch(Reaped(Ended(s.(queue := WithoutTask(s.queue, t.id)))), true)
  }

  /** A timer or yield interrupt; a user task whose return address is not executable is ended instead. */
  function Schedule(s: Sys, force: bool, executable: bool): (r: Sys)
    requires Shaped(s)
    ensures Shaped(r) && r.generation == s.generation && r.count == s.count && r.started == s.started
  {
    if !s.started then s
    else
      var r := Reaped(s);
      var t := r.tasks[r.current];
      if t.mode.User? && t.status.Runnable? && !executable then Terminate(r) else Dispatch(r, force)
  }

  // ---------- Waking and blocking ----------

  function Woken(t: Task): Task {
    if t.status.Blocked? && t.framed then t.(status := Runnable, ticks := t.priority) else t
  }

  function Wake(s: Sys, i: nat): (r: Sys)
    requires Shaped(s)
    ensures Shaped(r) && r.generation == s.generation && r.count == s.count && r.started == s.started
  {
    if 0 < i < s.count then s.(tasks := s.tasks[i := Woken(s.tasks[i])]) else s
  }

  /** The first slot from i on that holds the identifier; the number of tasks when none does. */
  function SlotOf(s: Sys, id: u32, i: nat): (k: nat)
    requires Shaped(s) && i <= s.count
    ensures i <= k <= s.count && (k < s.count ==> s.tasks[k].id == id)
    ensures forall j :: i <= j < k ==> s.tasks[j].id != id
    decreases s.count - i
  {
    if i == s.count || s.tasks[i].id == id then i else SlotOf(s, id, i + 1)
  }

  function WakeId(s: Sys, id: u32): (r: Sys)
    requires Shaped(s)
    ensures Shaped(r) && r.generation == s.generation && r.count == s.count && r.started == s.started
  {
    if id == 0 then s else Wake(s, SlotOf(s, id, 1))
  }

  function WakeUsers(s: Sys): (r: Sys)
    requires Shaped(s)
    ensures Shaped(r) && r.generation == s.generation && r.count == s.count && r.started == s.started
  {
    s.(tasks := seq(MAX_TASKS, i requires 0 <= i < MAX_TASKS =>
                  if 0 < i < s.count && s.tasks[i].mode.User? then Woken(s.tasks[i]) else s.tasks[i]))
  }

  predicate ActiveUser(s: Sys, id: u32)
    requires Shaped(s)
  {
    id != 0 && exists i: nat :: 0 < i < s.count && s.tasks[i].id == id && s.tasks[i].mode.User?
                                && !s.tasks[i].status.Terminated? && s.tasks[i].framed
  }

  function BlockCurrent(s: Sys): (r: (Sys, bool))
    requires Shaped(s)
    ensures Shaped(r.0) && r.0.generation == s.generation && r.0.count == s.count && r.0.started == s.started
  {
    if !s.started || s.current == 0 || !s.tasks[s.current].status.Runnable? || !OtherRunnable(s) then (s, false)
    else (s.(tasks := s.tasks[s.current := s.tasks[s.current].(status := Blocked)]), true)
  }

  // ---------- Messages ----------

  datatype Reply = Length(n: nat) | Got(message: Message) | TooBig | Fault | Again

  /** Queues a message and wakes those it is for. */
  function Deliver(s: Sys, m: Message): (r: (Sys, bool))
    requires Shaped(s)
    ensures Shaped(r.0) && r.0.generation == s.generation && r.0.count == s.count && r.0.started == s.started
  {
    var (q, ok) := Sent(s.queue, m);
    if !ok then (s, false)
    else
      var queued := s.(queue := q);
      (if m.receiver != 0 then WakeId(queued, m.receiver) else WakeUsers(queued), true)
  }

  /** The send system calls: to one task, or (no target) to every user task. The sender is the current task. */
  function Send(s: Sys, target: Option<u32>, kind: u32, data: seq<byte>, readable: bool): (r: (Sys, Reply))
    requires Shaped(s)
    ensures Shaped(r.0) && r.0.generation == s.generation && r.0.count == s.count && r.0.started == s.started
  {
    if |data| > MESSAGE_MAX then (s, TooBig)
    else if target.Some? && !ActiveUser(s, target.value) then (s, Fault)
    else if !readable then (s, Fault)
    else
      var receiver := if target.Some? then target.value else 0;
      var (after, ok) := Deliver(s, Message(s.tasks[s.current].id, receiver, kind, data));
      (after, if ok then Length(|data|) else Again)
  }

  function Receive(s: Sys, capacity: nat, writable: bool): (r: (Sys, Reply))
    requires Shaped(s)
    ensures Shaped(r.0) && r.0.generation == s.generation && r.0.count == s.count && r.0.started == s.started
  {
    var id := s.tasks[s.current].id;
    if capacity > MESSAGE_MAX then (s, TooBig)
    else if !writable then (s, Fault)
    else
      match Received(s.queue, id, capacity)
      case (q, Some(m)) => (s.(queue := q), Got(m))
      case (_, None) => (s, if PendingFor(s.queue, id) != 0 then TooBig else Again)
  }

  /** Receives, or blocks when nothing is pending and another task can run. */
  function ReceiveWait(s: Sys, capacity: nat, writable: bool, executable: bool): (r: (Sys, Reply))
    requires Shaped(s)
    ensures Shaped(r.0) && r.0.generation == s.generation && r.0.count == s.count && r.0.started == s.started
  {
    var (after, reply) := Receive(s, capacity, writable);
    if reply != Again then (after, reply)
    else
      var (blocked, ok) := BlockCurrent(s);
      if ok then (Schedule(blocked, true, executable), Again) else (s, Again)
  }

  // ---------- Slots and identifiers ----------

  predicate FreeSlot(s: Sys, i: nat)
    requires Shaped(s) && i < MAX_TASKS
  {
    i !in s.pending && s.tasks[i].status.Terminated? && !s.tasks[i].stacked && !s.tasks[i].framed
  }

  function FindSlot(s: Sys, i: nat): (k: nat)
    requires Shaped(s) && 1 <= i <= s.count
    ensures i <= k <= s.count && (k < s.count ==> FreeSlot(s, k))
    ensures forall j: nat :: i <= j < k ==> !FreeSlot(s, j)
    decreases s.count - i
  {
    if i == s.count || FreeSlot(s, i) then i else FindSlot(s, i + 1)
  }

  /** Generation and slot in one number: the slot is the low byte. */
  function Identifier(generation: nat, slot: nat): (id: u32)
    requires generation <= MAX_GENERATION && slot < MAX_TASKS
    ensures id % 256 == slot && id / 256 == generation
  {
    generation * 256 + slot
  }

  predicate Spawnable(s: Sys, admissible: bool)
    requires Shaped(s)
  {
    var k := FindSlot(s, 1);
    admissible && k < MAX_TASKS && s.generation[k] < MAX_GENERATION
  }

  /** Adds a task; the flags say whether the caller's context, the name and the stack allocation were good. */
  function Spawn(s: Sys, mode: Mode, admissible: bool, named: bool, stackBuilt: bool): (r: Sys)
    requires Shaped(s)
    ensures Shaped(r)
  {
    var k := FindSlot(s, 1);
    if !Spawnable(s, admissible) then s
    else if !named then s.(tasks := s.tasks[k := CLEARED])
    else
      var g := s.generation[k] + 1;
      var numbered := s.(generation := s.generation[k := g]);
      if !stackBuilt then numbered.(tasks := s.tasks[k := CLEARED])
      else numbered.(tasks := s.tasks[k := Task(mode, Runnable, true, true, Identifier(g, k), 1, 1)],
                     count := if k == s.count then s.count + 1 else s.count)
  }

  // ---------- Runs ----------

  datatype Event =
    | Start
    | SetPriority(index: nat, priority: nat)
    | SpawnTask(mode: Mode, admissible: bool, named: bool, stackBuilt: bool)
    | Timer(executable: bool)
    | Yield(executable: bool)
    | SendCall(target: Option<u32>, kind: u32, data: seq<byte>, readable: bool)
    | ReceiveCall(capacity: nat, writable: bool)
    | ReceiveWaitCall(capacity: nat, writable: bool, executable: bool)
    | Exit
    | KernelReturn
    | KernelSend(kind: u32, data: seq<byte>)
    | KernelReceive(capacity: nat)
    | KernelWake(index: nat)

  /** A user task is running, so it can make system calls and fault. */
  predicate UserRuns(s: Sys)
    requires Shaped(s)
  {
    s.started && s.tasks[s.current].mode.User? && s.tasks[s.current].status.Runnable?
  }

  function Step(s: Sys, e: Event): (r: Sys)
    requires Shaped(s)
    ensures Shaped(r)
  {
    if s.panicked then s
    else
      match e
      case Start => s.(started := true, tasks := s.tasks[0 := s.tasks[0].(status := Terminated)])
      case SetPriority(i, p) =>
        if i == 0 || i >= s.count || p == 0 || p > MAX_PRIORITY || s.started then s
        else s.(tasks := s.tasks[i := s.tasks[i].(priority := p, ticks := p)])
      case SpawnTask(mode, admissible, named, stackBuilt) => Spawn(s, mode, admissible, named, stackBuilt)
      case Timer(executable) => Schedule(s, false, executable)
      case Yield(executable) => Schedule(s, true, executable)
      case SendCall(target, kind, data, readable) => if UserRuns(s) then Send(s, target, kind, data, readable).0 else s
      case ReceiveCall(capacity, writable) => if UserRuns(s) then Receive(s, capacity, writable).0 else s
      case ReceiveWaitCall(capacity, writable, executable) =>
        if UserRuns(s) then ReceiveWait(s, capacity, writable, executable).0 else s
      case Exit => if UserRuns(s) then Terminate(s) else s
      case KernelReturn =>
        if s.started && s.current != 0 && s.tasks[s.current].mode.Kernel? && Ready(s.tasks[s.current])
        then Schedule(Ended(s), true, true) else s
      case KernelSend(kind, data) => Deliver(s, Message(0, 0, kind, data)).0
      case KernelReceive(capacity) => s.(queue := Received(s.queue, 0, capacity).0)
      case KernelWake(i) => Wake(s, i)
  }

  function Run(s: Sys, es: seq<Event>): (r: Sys)
    requires Shaped(s)
    ensures Shaped(r)
  {
    if es == [] then s else Step(Run(s, es[..|es| - 1]), es[|es| - 1])
  }
}
