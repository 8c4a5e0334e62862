/** Identifiers are never reused, and a runnable task is never kept waiting long. */
module TaskProgress {
  import opened Bytes
  import opened Ipc
  import opened Scheduler
  import opened TaskRuns

  // ---------- Identifiers ----------

  /** The identifiers one step gives out: one for a spawn that succeeds. */
  function Issued(s: Sys, e: Event): seq<u32>
    requires Shaped(s)
  {
    if !s.panicked && e.SpawnTask? && Spawnable(s, e.admissible) && e.named && e.stackBuilt
    then [Identifier(s.generation[FindSlot(s, 1)] + 1, FindSlot(s, 1))]
    else []
  }

  /** Every identifier a run gives out, in order. */
  function IssuedBy(s: Sys, es: seq<Event>): seq<u32>
    requires Shaped(s)
  {
    if es == [] then [] else IssuedBy(s, es[..|es| - 1]) + Issued(Run(s, es[..|es| - 1]), es[|es| - 1])
  }

  /** What a step gives out, if anything, is the identifier of the new task in its slot, which can run at once. */
  predicate HandedOver(s: Sys, e: Event)
    requires Shaped(s)
  {
    Issued(s, e) == [] ||
    var id := Issued(s, e)[0];
    id % 256 < MAX_TASKS && e.SpawnTask? && var t := Step(s, e).tasks[id % 256]; t.id == id && t.mode == e.mode && Ready(t)
  }

  lemma IssuedToTask(s: Sys, e: Event)
    requires Shaped(s)
    ensures HandedOver(s, e)
  {
  }

  lemma GenerationsGrow(s: Sys, e: Event, i: nat)
    requires Shaped(s) && i < MAX_TASKS
    ensures s.generation[i] <= Step(s, e).generation[i]
  {
    hide Schedule, Terminate, Send, Receive, ReceiveWait, Deliver, Wake, Ended, FindSlot, Received;
  }

  /** No identifier occurs twice, and each is covered by its slot's generation. */
  ghost predicate Accounted(ids: seq<u32>, generation: seq<nat>) {
    && |generation| == MAX_TASKS
    && (forall a, b :: 0 <= a < b < |ids| ==> ids[a] != ids[b])
    && (forall a :: 0 <= a < |ids| ==> ids[a] % 256 < MAX_TASKS && ids[a] / 256 <= generation[ids[a] % 256])
  }

  /** No run ever gives out the same identifier twice. */
  lemma {:induction false} NeverReissued(es: seq<Event>)
    ensures var ids := IssuedBy(Initial(), es); forall a, b :: 0 <= a < b < |ids| ==> ids[a] != ids[b]
    ensures Accounted(IssuedBy(Initial(), es), Run(Initial(), es).generation)
    ensures forall k: nat :: k < |es| ==> HandedOver(Run(Initial(), es[..k]), es[k])
  {
    forall k: nat | k < |es| ensures HandedOver(Run(Initial(), es[..k]), es[k]) {
      IssuedToTask(Run(Initial(), es[..k]), es[k]);
    }
    if es != [] {
      NeverReissued(es[..|es| - 1]);
      IssueStep(Run(Initial(), es[..|es| - 1]), es[|es| - 1], IssuedBy(Initial(), es[..|es| - 1]));
    }
  }

  lemma IssueStep(s: Sys, e: Event, before: seq<u32>)
    requires Shaped(s) && Accounted(before, s.generation)
    ensures Accounted(before + Issued(s, e), Step(s, e).generation)
  {
    hide Step, Issued;
    var r := Step(s, e);
    var ids := before + Issued(s, e);
    NewGeneration(s, e);
    forall a | 0 <= a < |ids| ensures ids[a] % 256 < MAX_TASKS && ids[a] / 256 <= r.generation[ids[a] % 256] {
      if a < |before| {
        GenerationsGrow(s, e, before[a] % 256);
      }
    }
  }

  lemma NewGeneration(s: Sys, e: Event)
    requires Shaped(s)
    ensures |Issued(s, e)| <= 1
    ensures Issued(s, e) != [] ==>
              var id := Issued(s, e)[0];
              id % 256 < MAX_TASKS && s.generation[id % 256] < id / 256 == Step(s, e).generation[id % 256]
  {
    hide FindSlot;
  }

  // ---------- Bounded waiting ----------

  /** The tick count after which task j must have had its turn. */
  function Measure(s: Sys, j: nat): nat
    requires Shaped(s) && j < s.count
  {
    MAX_PRIORITY * (Distance(s.current, j, s.count) - 1) + s.tasks[s.current].ticks
  }

  ghost predicate Clocked(s: Sys) {
    Shaped(s) && forall i: nat :: i < s.count ==> 1 <= s.tasks[i].ticks <= MAX_PRIORITY && s.tasks[i].priority <= MAX_PRIORITY
  }

  lemma InvIsClocked(s: Sys)
    requires Shaped(s) && TasksOk(s)
    ensures Clocked(s)
  {
    forall i: nat | i < s.count ensures 1 <= s.tasks[i].ticks <= MAX_PRIORITY && s.tasks[i].priority <= MAX_PRIORITY {
      assert i > 0 ==> TaskOk(s.tasks[i], i, s.generation[i]);
    }
  }

  /** The next task is no further round the ring than any runnable one. */
  lemma NextComesFirst(s: Sys, j: nat)
    requires Shaped(s) && j < s.count && j != s.current && Ready(s.tasks[j])
    ensures var n := NextRunnable(s);
            && n < s.count && n != s.current && Ready(s.tasks[n])
            && (n != j ==> Distance(n, j, s.count) < Distance(s.current, j, s.count))
  {
    DistanceSplits(s.current, NextRunnable(s), j, s.count);
  }

  /** Either a tick is used up, or the turn passes to a task nearer to j. */
  lemma DispatchAdvances(s: Sys, force: bool, j: nat)
    requires Clocked(s) && !s.panicked && j < s.count && j != s.current && Ready(s.tasks[j])
    ensures var r := Dispatch(s, force);
            !r.panicked && Ready(r.tasks[j]) && r.count == s.count && (r.current != j ==> Measure(r, j) < Measure(s, j))
  {
    hide NextRunnable, Distance;
    NextComesFirst(Saved(s), j);
  }

  lemma DistanceSplits(from: nat, via: nat, to: nat, n: nat)
    requires from < n && via < n && to < n && to != from && Distance(from, via, n) <= Distance(from, to, n)
    ensures via != to ==> Distance(via, to, n) == Distance(from, to, n) - Distance(from, via, n)
    ensures via != from
  {
  }

  lemma ReapedWaits(s: Sys, j: nat)
    requires Shaped(s) && TasksOk(s) && QueueOk(s) && j < s.count && Ready(s.tasks[j])
    ensures var r := Reaped(s);
            r.count == s.count && r.current == s.current && TasksOk(r) && QueueOk(r) && r.tasks[j] == s.tasks[j] && Measure(r, j) == Measure(s, j)
  {
    ReapedKeeps(s);
  }

  lemma ScheduleAdvances(s: Sys, force: bool, executable: bool, j: nat)
    requires Shaped(s) && TasksOk(s) && QueueOk(s) && s.started && !s.panicked && j < s.count && j != s.current && Ready(s.tasks[j])
    ensures var r := Schedule(s, force, executable);
            !r.panicked && Ready(r.tasks[j]) && r.count == s.count && (r.current != j ==> Measure(r, j) < Measure(s, j))
  {
    hide Dispatch, Reaped, Terminate, QueueOk;
    ReapedWaits(s, j);
    ReapedCurrent(s);
    var r := Reaped(s);
    var t := s.tasks[s.current];
    if t.mode.User? && t.status.Runnable? && !executable {
      assert s.current > 0 ==> TaskOk(t, s.current, s.generation[s.current]);
      TerminateAdvances(r, j);
    } else {
      InvIsClocked(r);
      DispatchAdvances(r, force, j);
    }
  }

  lemma TerminateAdvances(s: Sys, j: nat)
    requires Inv(s) && !s.panicked && UserRuns(s) && j < s.count && j != s.current && Ready(s.tasks[j])
    ensures var r := Terminate(s);
            !r.panicked && Ready(r.tasks[j]) && r.count == s.count && (r.current != j ==> Measure(r, j) < Measure(s, j))
  {
    hide Dispatch, Reaped, WithoutTask, QueueOk;
    CurrentIsActive(s);
    EndedKeeps(s);
    var ended := Ended(s.(queue := WithoutTask(s.queue, s.tasks[s.current].id)));
    ReapedWaits(ended, j);
    ReapedCurrent(ended);
    InvIsClocked(Reaped(ended));
    DispatchAdvances(Reaped(ended), true, j);
  }

  lemma BlockingAdvances(s: Sys, capacity: nat, writable: bool, executable: bool, j: nat)
    requires Inv(s) && !s.panicked && UserRuns(s) && j < s.count && j != s.current && Ready(s.tasks[j])
    ensures var r := ReceiveWait(s, capacity, writable, executable).0;
            !r.panicked && Ready(r.tasks[j]) && (r.current != j ==> Measure(r, j) <= Measure(s, j))
  {
    hide Schedule, Received, PendingFor, QueueOk, TasksOk, Distance;
    var (after, reply) := Receive(s, capacity, writable);
    if reply == Again {
      BlockKeeps(s);
      var (blocked, ok) := BlockCurrent(s);
      if ok {
        ScheduleAdvances(blocked, true, executable, j);
      }
    }
  }

  /** A message wakes blocked tasks only, so it changes neither the current task nor one that is runnable. */
  lemma DeliverWaits(s: Sys, m: Message, j: nat)
    requires Inv(s) && !s.panicked && s.started && j < s.count && Ready(s.tasks[j])
    ensures var r := Deliver(s, m).0;
            !r.panicked && r.current == s.current && r.tasks[j] == s.tasks[j] && r.tasks[s.current] == s.tasks[s.current]
  {
    hide Deliver, WakeFor, QueueOk;
    WakeForEffect(s, m);
    DeliverWakes(s, m);
  }

  lemma SpawnWaits(s: Sys, mode: Mode, admissible: bool, named: bool, stackBuilt: bool, j: nat)
    requires Inv(s) && !s.panicked && s.started && j < s.count && Ready(s.tasks[j])
    ensures var r := Spawn(s, mode, admissible, named, stackBuilt);
            && !r.panicked && r.started && s.count <= r.count && r.current == s.current
            && r.tasks[j] == s.tasks[j] && r.tasks[s.current] == s.tasks[s.current]
  {
    hide FindSlot, QueueOk;
  }

  predicate Same(s: Sys, r: Sys, j: nat)
    requires Shaped(s) && Shaped(r) && j < s.count
  {
    && !r.panicked && r.started == s.started && s.count <= r.count && r.current == s.current
    && r.tasks[j] == s.tasks[j] && r.tasks[s.current] == s.tasks[s.current]
  }

  /** Events that do not schedule leave the current task and every runnable one as they are. */
  lemma OthersWait(s: Sys, e: Event, j: nat)
    requires Inv(s) && !s.panicked && s.started && j < s.count && Ready(s.tasks[j])
    requires !e.Timer? && !e.Yield? && !e.ReceiveWaitCall? && !e.Exit? && !e.KernelReturn?
    ensures Same(s, Step(s, e), j)
  {
    hide Deliver, Spawn, Received, QueueOk, FindSlot;
    match e
    case SpawnTask(mode, admissible, named, stackBuilt) => SpawnWaits(s, mode, admissible, named, stackBuilt, j);
    case KernelSend(kind, data) => DeliverWaits(s, Message(0, 0, kind, data), j);
    case SendCall(target, kind, data, readable) =>
      DeliverWaits(s, Message(s.tasks[s.current].id, if target.Some? then target.value else 0, kind, data), j);
    case _ =>
  }

  function Tick(e: Event): nat {
    if e.Timer? then 1 else 0
  }

  /** Whatever happens, a waiting runnable task stays runnable and comes no further from its turn. */
  lemma StepAdvances(s: Sys, e: Event, j: nat)
    requires Inv(s) && !s.panicked && s.started && j < s.count && j != s.current && Ready(s.tasks[j])
    ensures var r := Step(s, e);
            && !r.panicked && r.started && s.count <= r.count && Ready(r.tasks[j])
            && (r.count == s.count && r.current != j ==> Measure(r, j) + Tick(e) <= Measure(s, j))
  {
    hide Schedule, Terminate, ReceiveWait, QueueOk, Send, Receive, Deliver, Spawn, Distance;
    match e
    case Timer(executable) => ScheduleAdvances(s, false, executable, j);
    case Yield(executable) => ScheduleAdvances(s, true, executable, j);
    case ReceiveWaitCall(capacity, writable, executable) =>
      if UserRuns(s) {
        BlockingAdvances(s, capacity, writable, executable, j);
      }
    case Exit =>
      if UserRuns(s) {
        TerminateAdvances(s, j);
      }
    case KernelReturn =>
      if EndsCurrent(s, e) {
        EndedKeeps(s);
        ScheduleAdvances(Ended(s), true, true, j);
      }
    case _ => OthersWait(s, e, j);
  }

  function Ticks(es: seq<Event>): nat {
    if es == [] then 0 else Ticks(es[..|es| - 1]) + Tick(es[|es| - 1])
  }

  lemma {:induction false} StillWaiting(s: Sys, es: seq<Event>, j: nat)
    requires Inv(s) && !s.panicked && s.started && j < s.count && Ready(s.tasks[j])
    requires forall k :: 0 <= k <= |es| ==> Run(s, es[..k]).current != j
    ensures var r := Run(s, es);
            && Inv(r) && !r.panicked && r.started && s.count <= r.count && r.current != j && Ready(r.tasks[j])
            && (r.count == s.count ==> Ticks(es) + Measure(r, j) <= Measure(s, j))
  {
    assert es[..|es|] == es;
    if es != [] {
      var front, e := es[..|es| - 1], es[|es| - 1];
      forall k | 0 <= k <= |front| ensures Run(s, front[..k]).current != j {
        assert front[..k] == es[..k];
      }
      StillWaiting(s, front, j);
      StepKeepsInv(Run(s, front), e);
      StepAdvances(Run(s, front), e, j);
    }
  }

  /**
   * With a fixed number of tasks a runnable task becomes current within eight ticks for each of the others,
   * whatever system calls, faults, exits and wake-ups come in between.
   */
  lemma BoundedWaiting(s: Sys, es: seq<Event>, j: nat)
    requires Inv(s) && !s.panicked && s.started && j < s.count && Ready(s.tasks[j])
    requires Run(s, es).count == s.count && Ticks(es) >= MAX_PRIORITY * (s.count - 1)
    ensures exists k :: 0 <= k <= |es| && Run(s, es[..k]).current == j
  {
    if forall k :: 0 <= k <= |es| ==> Run(s, es[..k]).current != j {
      StillWaiting(s, es, j);
      assert es[..0] == [];
      assert s.current != j;
      InvIsClocked(s);
      InvIsClocked(Run(s, es));
      assert false;
    }
  }

  // ---------- Time slices ----------

  /** The processor changes hands only to the nearest runnable task, which gets a full slice of its priority. */
  lemma SwitchGivesFullSlice(s: Sys, force: bool, executable: bool)
    requires Shaped(s) && TasksOk(s) && QueueOk(s) && s.started && !s.panicked
    ensures var r := Schedule(s, force, executable);
            r.current != s.current ==> r.tasks[r.current].ticks == r.tasks[r.current].priority && Ready(r.tasks[r.current])
  {
    hide NextRunnable, Reaped, QueueOk, TasksOk, WithoutTask;
    ReapedCurrent(s);
    if s.tasks[s.current].mode.User? {
      var t := Reaped(s).tasks[s.current];
      ReapedCurrent(Ended(Reaped(s).(queue := WithoutTask(Reaped(s).queue, t.id))));
    }
  }

  /** Until its slice is used up, timer interrupts leave the current task running and count its ticks down. */
  lemma {:induction false} SliceIsKept(s: Sys, es: seq<Event>)
    requires Inv(s) && s.started && !s.panicked && Ready(s.tasks[s.current])
    requires (forall e :: e in es ==> e == Timer(true)) && |es| < s.tasks[s.current].ticks
    ensures var r := Run(s, es);
            && Inv(r) && r.started && !r.panicked && r.current == s.current
            && Ready(r.tasks[r.current]) && r.tasks[r.current].ticks == s.tasks[s.current].ticks - |es|
  {
    if es != [] {
      var front := es[..|es| - 1];
      assert forall e :: e in front ==> e in es;
      SliceIsKept(s, front);
      var now := Run(s, front);
      assert es[|es| - 1] in es;
      StepKeepsInv(now, Timer(true));
      TickDown(now);
    }
  }

  lemma TickDown(s: Sys)
    requires Inv(s) && s.started && !s.panicked && Ready(s.tasks[s.current]) && s.tasks[s.current].ticks > 1
    ensures var r := Step(s, Timer(true));
            && r.started && !r.panicked && r.current == s.current
            && Ready(r.tasks[r.current]) && r.tasks[r.current].ticks == s.tasks[s.current].ticks - 1
  {
    hide NextRunnable, Reaped, QueueOk, TasksOk;
    ReapedCurrent(s);
  }

  /** With one tick left and another task runnable, the next timer interrupt hands the processor on. */
  lemma SliceEnds(s: Sys)
    requires Inv(s) && s.started && !s.panicked && Ready(s.tasks[s.current]) && s.tasks[s.current].ticks == 1 && OtherRunnable(s)
    ensures Step(s, Timer(true)).current != s.current
  {
    hide NextRunnable, Reaped, QueueOk;
    ReapedCurrent(s);
    ReapedOthers(s);
    var r := Reaped(s);
    var j: nat :| j < r.count && j != r.current && Ready(r.tasks[j]);
    NextComesFirst(Saved(r), j);
  }
}
