/** The bounded message queue: a ring buffer that stands for a sequence of at most sixteen messages. */
module Ipc {
  import opened Bytes

  const CAPACITY: nat := 16
  const MESSAGE_MAX: nat := 64

  datatype Message = Message(sender: u32, receiver: u32, kind: u32, data: seq<byte>)

  /** Identifier 0 reads everything, and a message to 0 is for everybody. */
  predicate Matches(m: Message, receiver: u32) {
    receiver == 0 || m.receiver == 0 || m.receiver == receiver
  }

  // ---------- Queues as sequences ----------

  /** The position of the earliest message for the receiver; the length when there is none. */
  function FirstMatch(q: seq<Message>, receiver: u32): (k: nat)
    ensures k <= |q| && (k < |q| ==> Matches(q[k], receiver))
    ensures forall i :: 0 <= i < k ==> !Matches(q[i], receiver)
  {
    if q == [] || Matches(q[0], receiver) then 0 else 1 + FirstMatch(q[1..], receiver)
  }

  function RemoveAt(q: seq<Message>, k: nat): (r: seq<Message>)
    requires k < |q|
    ensures |r| == |q| - 1 && forall i :: 0 <= i < |r| ==> r[i] == if i < k then q[i] else q[i + 1]
  {
    q[..k] + q[k + 1..]
  }

  function Sent(q: seq<Message>, m: Message): (seq<Message>, bool) {
    if |m.data| > MESSAGE_MAX || |q| >= CAPACITY then (q, false) else (q + [m], true)
  }

  /** The earliest matching message, unless the reader's buffer is too small for it. */
  function Received(q: seq<Message>, receiver: u32, capacity: nat): (seq<Message>, Option<Message>) {
    var k := FirstMatch(q, receiver);
    if k == |q| || |q[k].data| > capacity then (q, None) else (RemoveAt(q, k), Some(q[k]))
  }

  function PendingFor(q: seq<Message>, receiver: u32): nat {
    if q == [] then 0 else PendingFor(q[..|q| - 1], receiver) + if Matches(q[|q| - 1], receiver) then 1 else 0
  }

  /** Whether a message names this identifier as its sender or as its receiver. */
  predicate Names(m: Message, task: u32, asSender: bool) {
    (if asSender then m.sender else m.receiver) == task
  }

  function Purged(q: seq<Message>, task: u32, asSender: bool): seq<Message> {
    if q == [] then []
    else
      var rest := Purged(q[..|q| - 1], task, asSender);
      if Names(q[|q| - 1], task, asSender) then rest else rest + [q[|q| - 1]]
  }

  /** A queue has something pending exactly when some message matches. */
  lemma {:induction false} PendingIff(q: seq<Message>, receiver: u32)
    ensures PendingFor(q, receiver) != 0 <==> exists i :: 0 <= i < |q| && Matches(q[i], receiver)
    ensures PendingFor(q, receiver) != 0 <==> FirstMatch(q, receiver) < |q|
  {
    if q != [] {
      var front := q[..|q| - 1];
      PendingIff(front, receiver);
      if PendingFor(front, receiver) != 0 {
        var i :| 0 <= i < |front| && Matches(front[i], receiver);
        assert Matches(q[i], receiver);
      }
      if exists i :: 0 <= i < |q| && Matches(q[i], receiver) {
        var i :| 0 <= i < |q| && Matches(q[i], receiver);
        assert i < |q| - 1 ==> Matches(front[i], receiver);
      }
      var k := FirstMatch(q, receiver);
      assert k < |q| ==> Matches(q[k], receiver);
    }
  }

  /** Purging keeps exactly the messages that do not name this identifier. */
  lemma {:induction false} PurgedMembers(q: seq<Message>, task: u32, asSender: bool)
    ensures forall m :: m in Purged(q, task, asSender) <==> m in q && !Names(m, task, asSender)
    ensures |Purged(q, task, asSender)| <= |q|
  {
    if q != [] {
      var front, last := q[..|q| - 1], q[|q| - 1];
      PurgedMembers(front, task, asSender);
      assert q == front + [last];
      assert forall m :: m in q <==> m in front || m == last;
    }
  }

  /** The messages a task may read (or, with wanted false, those it may not), in queue order. */
  function Select(q: seq<Message>, receiver: u32, wanted: bool): seq<Message> {
    if q == [] then []
    else
      var rest := Select(q[1..], receiver, wanted);
      if Matches(q[0], receiver) == wanted then [q[0]] + rest else rest
  }

  lemma {:induction false} SelectSnoc(q: seq<Message>, m: Message, receiver: u32)
    ensures Select(q + [m], receiver, true) == Select(q, receiver, true) + if Matches(m, receiver) then [m] else []
  {
    if q == [] {
      assert q + [m] == [m] && [m][1..] == [];
    } else {
      assert (q + [m])[1..] == q[1..] + [m];
      SelectSnoc(q[1..], m, receiver);
    }
  }

  /** The pending count is the number of messages a receiver would get. */
  lemma {:induction false} PendingCounts(q: seq<Message>, receiver: u32)
    ensures PendingFor(q, receiver) == |Select(q, receiver, true)|
  {
    if q != [] {
      var front := q[..|q| - 1];
      PendingCounts(front, receiver);
      SelectSnoc(front, q[|q| - 1], receiver);
      assert q == front + [q[|q| - 1]];
    }
  }

  /** Purging treats each message by itself and keeps the order of those that stay. */
  lemma {:induction false} PurgedInOrder(a: seq<Message>, b: seq<Message>, task: u32, asSender: bool)
    ensures Purged(a + b, task, asSender) == Purged(a, task, asSender) + Purged(b, task, asSender)
  {
    if b == [] {
      assert a + b == a;
    } else {
      PurgedInOrder(a, b[..|b| - 1], task, asSender);
      assert (a + b)[..|a + b| - 1] == a + b[..|b| - 1];
    }
  }

  /** Receives with a full-size buffer until nothing more comes: what came, and what is left. */
  function Drained(q: seq<Message>, receiver: u32): (seq<Message>, seq<Message>)
    decreases |q|
  {
    match Received(q, receiver, MESSAGE_MAX)
    case (rest, None) => ([], rest)
    case (rest, Some(m)) =>
      var (more, left) := Drained(rest, receiver);
      ([m] + more, left)
  }

  lemma {:induction false} SelectFirst(q: seq<Message>, receiver: u32)
    ensures var k := FirstMatch(q, receiver);
            && (k == |q| ==> Select(q, receiver, true) == [] && Select(q, receiver, false) == q)
            && (k < |q| ==> Select(q, receiver, true) == [q[k]] + Select(RemoveAt(q, k), receiver, true))
            && (k < |q| ==> Select(q, receiver, false) == Select(RemoveAt(q, k), receiver, false))
  {
    if q != [] {
      var k := FirstMatch(q, receiver);
      if k == 0 {
        assert RemoveAt(q, k) == q[1..];
      } else {
        SelectFirst(q[1..], receiver);
        assert k < |q| ==> RemoveAt(q, k)[1..] == RemoveAt(q[1..], k - 1);
      }
    }
  }

  /** First in, first out: a reader gets every message it may read, in the order sent, and no other. */
  lemma {:induction false} DrainInOrder(q: seq<Message>, receiver: u32)
    requires forall m :: m in q ==> |m.data| <= MESSAGE_MAX
    ensures Drained(q, receiver) == (Select(q, receiver, true), Select(q, receiver, false))
    decreases |q|
  {
    SelectFirst(q, receiver);
    var k := FirstMatch(q, receiver);
    if k < |q| {
      DrainInOrder(RemoveAt(q, k), receiver);
    }
  }

  /** A position that holds a match and has none before it is the first match. */
  lemma {:induction false} FirstMatchIs(q: seq<Message>, receiver: u32, k: nat)
    requires k <= |q| && (k < |q| ==> Matches(q[k], receiver))
    requires forall i :: 0 <= i < k ==> !Matches(q[i], receiver)
    ensures k == FirstMatch(q, receiver)
  {
    if k > 0 {
      assert !Matches(q[0], receiver);
      FirstMatchIs(q[1..], receiver, k - 1);
    }
  }

  /** A purge under way: the first done messages of q are filtered, the rest not yet seen. */
  ghost predicate PurgedTo(q: seq<Message>, done: nat, now: seq<Message>, k: nat, task: u32, asSender: bool) {
    done <= |q| && k <= |now| && now[..k] == Purged(q[..done], task, asSender) && now[k..] == q[done..]
  }

  lemma PurgeStep(q: seq<Message>, done: nat, now: seq<Message>, k: nat, task: u32, asSender: bool)
    requires PurgedTo(q, done, now, k, task, asSender) && k < |now|
    ensures done < |q|
    ensures if Names(now[k], task, asSender) then PurgedTo(q, done + 1, RemoveAt(now, k), k, task, asSender)
            else PurgedTo(q, done + 1, now, k + 1, task, asSender)
  {
    assert now[k] == now[k..][0] == q[done];
    assert q[..done + 1][..done] == q[..done];
    assert q[done..][1..] == q[done + 1..] && now[k..][1..] == now[k + 1..];
    assert RemoveAt(now, k)[..k] == now[..k] && RemoveAt(now, k)[k..] == now[k + 1..];
    assert now[..k + 1] == now[..k] + [now[k]];
  }

  lemma PurgeStart(q: seq<Message>, task: u32, asSender: bool)
    ensures PurgedTo(q, 0, q, 0, task, asSender)
  {
  }

  lemma PurgeDone(q: seq<Message>, done: nat, now: seq<Message>, task: u32, asSender: bool)
    requires PurgedTo(q, done, now, |now|, task, asSender)
    ensures now == Purged(q, task, asSender)
  {
    assert now[..|now|] == now;
    assert |q[done..]| == 0;
    assert q[..done] == q;
  }

  // ---------- The ring ----------

  function Slot(tail: nat, i: nat): (p: nat)
    ensures p < CAPACITY
  {
    (tail + i) % CAPACITY
  }

  lemma SlotsDistinct(tail: nat)
    requires tail < CAPACITY
    ensures forall i: nat, j: nat :: i < CAPACITY && j < CAPACITY && Slot(tail, i) == Slot(tail, j) ==> i == j
  {
  }

  lemma WrapsOnce(x: nat)
    requires x < 2 * CAPACITY
    ensures x % CAPACITY == if x < CAPACITY then x else x - CAPACITY
  {
  }

  lemma SlotShift(tail: nat, i: nat)
    requires tail < CAPACITY && i < CAPACITY
    ensures Slot(Slot(tail, 1), i) == Slot(tail, i + 1)
    ensures Slot(Slot(tail, i), 1) == Slot(tail, i + 1)
    ensures Slot(Slot(tail, i + 1), CAPACITY - 1) == Slot(tail, i)
  {
    WrapsOnce(tail + 1);
    WrapsOnce(tail + i);
    WrapsOnce(tail + i + 1);
    WrapsOnce(Slot(tail, 1) + i);
    WrapsOnce(Slot(tail, i) + 1);
    WrapsOnce(Slot(tail, i + 1) + CAPACITY - 1);
  }

  class Ring {
    const slots: array<Message>
    var head: nat
    var tail: nat
    var count: nat

    ghost predicate Valid()
      reads this, slots
    {
      slots.Length == CAPACITY && tail < CAPACITY && count <= CAPACITY && head == Slot(tail, count)
    }

    ghost function Contents(): (q: seq<Message>)
      requires Valid()
      reads this, slots
      ensures |q| == count && forall i: nat :: i < count ==> q[i] == slots[Slot(tail, i)]
    {
      seq(count, i requires 0 <= i < count && Valid() reads this, slots => slots[Slot(tail, i)])
    }

    constructor ()
      ensures Valid() && Contents() == [] && fresh(slots)
    {
      slots := new Message[CAPACITY](_ => Message(0, 0, 0, []));
      head, tail, count := 0, 0, 0;
    }

    method Send(m: Message) returns (ok: bool)
      requires Valid()
      modifies this`head, this`count, slots
      ensures Valid() && (Contents(), ok) == Sent(old(Contents()), m)
    {
      hide Slot;
      if |m.data| > MESSAGE_MAX || count >= CAPACITY {
        return false;
      }
      ghost var q := Contents();
      SlotsDistinct(tail);
      slots[head] := m;
      SlotShift(tail, count);
      head := Slot(head, 1);
      count := count + 1;
      assert Contents() == q + [m];
      return true;
    }

    method Find(receiver: u32) returns (offset: nat)
      requires Valid()
      ensures offset == FirstMatch(Contents(), receiver)
    {
      hide Slot, FirstMatch;
      ghost var q := Contents();
      offset := 0;
      while offset < count
        invariant offset <= count && forall i :: 0 <= i < offset ==> !Matches(q[i], receiver)
      {
        assert slots[Slot(tail, offset)] == q[offset];
        if Matches(slots[Slot(tail, offset)], receiver) {
          break;
        }
        offset := offset + 1;
      }
      FirstMatchIs(q, receiver, offset);
    }

    /** Removes an interior message by moving the earlier ones up one place. */
    method Receive(receiver: u32, capacity: nat) returns (r: Option<Message>)
      requires Valid()
      modifies this`tail, this`count, slots
      ensures Valid() && (Contents(), r) == Received(old(Contents()), receiver, capacity)
    {
      hide Slot, FirstMatch;
      var offset := Find(receiver);
      if offset == count || |slots[Slot(tail, offset)].data| > capacity {
        return None;
      }
      r := Some(slots[Slot(tail, offset)]);
      MoveUp(offset);
      DropFirst(offset, old(Contents()));
    }

    /** Moves the first k messages up one place, over the message at k. */
    method MoveUp(k: nat)
      requires Valid() && k < count
      modifies slots
      ensures forall i: nat :: i < k ==> slots[Slot(tail, i + 1)] == old(slots[Slot(tail, i)])
      ensures forall i: nat :: k < i < count ==> slots[Slot(tail, i)] == old(slots[Slot(tail, i)])
    {
      hide Slot;
      SlotsDistinct(tail);
      ghost var was := slots[..];
      var offset, position := k, Slot(tail, k);
      while offset != 0
        invariant 0 <= offset <= k && position == Slot(tail, offset)
        invariant forall i: nat :: offset <= i < k ==> slots[Slot(tail, i + 1)] == was[Slot(tail, i)]
        invariant forall i: nat :: i < offset || k < i < count ==> slots[Slot(tail, i)] == was[Slot(tail, i)]
      {
        SlotShift(tail, offset - 1);
        var previous := Slot(position, CAPACITY - 1);
        slots[position] := slots[previous];
        position := previous;
        offset := offset - 1;
      }
    }

    method DropFirst(k: nat, ghost q: seq<Message>)
      requires Valid() && |q| == count && k < count
      requires forall i: nat :: i < k ==> slots[Slot(tail, i + 1)] == q[i]
      requires forall i: nat :: k < i < count ==> slots[Slot(tail, i)] == q[i]
      modifies this`tail, this`count
      ensures Valid() && Contents() == RemoveAt(q, k)
    {
      hide Slot;
      SlotShift(tail, count - 1);
      ghost var t := tail;
      tail := Slot(tail, 1);
      count := count - 1;
      forall i: nat | i < count ensures slots[Slot(tail, i)] == RemoveAt(q, k)[i] {
        SlotShift(t, i);
      }
    }

    method Pending(receiver: u32) returns (n: nat)
      requires Valid()
      ensures n == PendingFor(Contents(), receiver)
    {
      hide Slot;
      ghost var q := Contents();
      n := 0;
      for offset := 0 to count
        invariant n == PendingFor(q[..offset], receiver)
      {
        assert q[..offset + 1][..offset] == q[..offset];
        assert slots[Slot(tail, offset)] == q[offset];
        if Matches(slots[Slot(tail, offset)], receiver) {
          n := n + 1;
        }
      }
      assert q[..count] == q;
    }

    /** Drops every message that names the identifier, closing each gap from behind. */
    method Purge(task: u32, asSender: bool) returns (removed: nat)
      requires Valid()
      modifies this`head, this`count, slots
      ensures Valid()
      ensures Contents() == if task == 0 then old(Contents()) else Purged(old(Contents()), task, asSender)
      ensures removed == |old(Contents())| - |Contents()|
    {
      hide Slot, PurgedTo, Purged, Names, RemoveAt;
      removed := 0;
      if task == 0 {
        return;
      }
      ghost var q := Contents();
      ghost var done: nat := 0;
      var offset: nat := 0;
      PurgeStart(q, task, asSender);
      while offset < count
        invariant Valid() && offset <= count && done <= |q| && removed == |q| - count
        invariant PurgedTo(q, done, Contents(), offset, task, asSender)
        decreases |q| - done
      {
        PurgeStep(q, done, Contents(), offset, task, asSender);
        var named := IsNamed(offset, task, asSender);
        if !named {
          offset := offset + 1;
        } else {
          CloseGap(offset);
          removed := removed + 1;
        }
        done := done + 1;
      }
      PurgeDone(q, done, Contents(), task, asSender);
    }

    method IsNamed(offset: nat, task: u32, asSender: bool) returns (b: bool)
      requires Valid() && offset < count
      ensures b == Names(Contents()[offset], task, asSender)
    {
      b := Names(slots[Slot(tail, offset)], task, asSender);
    }

    method CloseGap(k: nat)
      requires Valid() && k < count
      modifies this`head, this`count, slots
      ensures Valid() && Contents() == RemoveAt(old(Contents()), k)
    {
      hide Slot;
      SlotsDistinct(tail);
      ghost var was := slots[..];
      for shift := k to count - 1
        invariant count == old(count) && head == old(head)
        invariant forall i: nat :: k <= i < shift ==> slots[Slot(tail, i)] == was[Slot(tail, i + 1)]
        invariant forall i: nat :: i < k || shift <= i < count ==> slots[Slot(tail, i)] == was[Slot(tail, i)]
      {
        var next := slots[Slot(tail, shift + 1)];
        assert next == was[Slot(tail, shift + 1)];
        slots[Slot(tail, shift)] := next;
      }
      count := count - 1;
      head := Slot(tail, count);
    }
  }
}
