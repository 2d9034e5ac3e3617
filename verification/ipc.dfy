/** Message queues between processes (ipc.c): a fixed table of `MAX_IPC_QUEUES` queue
    pointers with a counter, and per queue a ring of message slots with `count`, `head`
    and `tail`. `MAX_MESSAGE_SIZE`, the queue-name buffer and the structure sizes come
    from ipc.h, which is not part of this model: they are constants of a `Table`, fixed
    when it is created. */
module Ipc {
  import opened Kernel
  import opened Memory

  /** `IPCMessage` as ipc.c uses it: the payload is an inline buffer of
      `MAX_MESSAGE_SIZE` bytes; `size` is what the sender asked for, uncapped. */
  datatype Message = Message(senderPid: U32, receiverPid: U32, size: U32, timestamp: nat, data: seq<Byte>)

  function Min(a: nat, b: nat): nat {
    if a <= b then a else b
  }

  function Zeros(n: nat): (z: seq<Byte>)
    ensures |z| == n && forall i :: 0 <= i < n ==> z[i] == 0
  {
    seq(n, _ => 0)
  }

  /** A zeroed slot (`memset(msg, 0, sizeof(IPCMessage))`); a sender pid of 0 marks it free. */
  function Blank(width: nat): (m: Message)
    ensures m.senderPid == 0 && m.size == 0 && |m.data| == width
  {
    Message(0, 0, 0, 0, Zeros(width))
  }

  // ---------------------------------------------------------------- one queue as a value

  /** The mutable part of an `IPCQueue`: capacity, fill counter, ring indices, slots. */
  datatype QueueState = QueueState(max: nat, count: nat, head: nat, tail: nat, slots: seq<Message>)

  /** What every queue keeps: one slot per message, a counter within capacity, ring
      indices inside the ring (both 0 for a queue of capacity 0), full-width payloads. */
  ghost predicate Inv(q: QueueState, width: nat) {
    && |q.slots| == q.max
    && q.count <= q.max
    && (if q.max == 0 then q.head == 0 && q.tail == 0 else q.head < q.max && q.tail < q.max)
    && forall i :: 0 <= i < |q.slots| ==> |q.slots[i].data| == width
  }

  /** A queue as `ipc_queue_create` leaves it: empty, indices 0, every slot zeroed. */
  function Fresh(max: nat, width: nat): (q: QueueState)
    ensures Inv(q, width) && q.count == 0 && q.max == max
    ensures forall i :: 0 <= i < max ==> q.slots[i] == Blank(width)
  {
    QueueState(max, 0, 0, 0, seq(max, _ => Blank(width)))
  }

  /** The slot `ipc_send` picks: the first whose sender pid is 0. */
  function FreeSlot(slots: seq<Message>): (r: Option<nat>)
    ensures r.Some? ==> r.value < |slots| && slots[r.value].senderPid == 0
    ensures r.Some? ==> forall j :: 0 <= j < r.value ==> slots[j].senderPid != 0
    ensures r.None? ==> forall j :: 0 <= j < |slots| ==> slots[j].senderPid != 0
  {
    if slots == [] then None
    else if slots[0].senderPid == 0 then Some(0)
    else match FreeSlot(slots[1..])
      case None => None
      case Some(k) => Some(k + 1)
  }

  /** The payload written into a slot whose old payload is `previous`: with a non-empty
      size and a data pointer, the first `min(size, MAX_MESSAGE_SIZE)` bytes are
      overwritten and the rest kept. */
  function Stamp(previous: seq<Byte>, payload: Option<seq<Byte>>, size: U32): (d: seq<Byte>)
    requires payload.Some? ==> Min(size, |previous|) <= |payload.value|
    ensures |d| == |previous|
    ensures size > 0 && payload.Some? ==>
      d[..Min(size, |previous|)] == payload.value[..Min(size, |previous|)]
    ensures size == 0 || payload.None? ==> d == previous
  {
    if size > 0 && payload.Some? then
      var n := Min(size, |previous|);
      payload.value[..n] + previous[n..]
    else previous
  }

  /** Result of `ipc_send` on one queue. */
  datatype Posted = Posted(result: ErrorCode, queue: QueueState)

  /** `ipc_send` once the queue is found. `pid` is the current process's pid (0 when
      there is none) and `now` the tick counter. */
  function SendStep(q: QueueState, payload: Option<seq<Byte>>, size: U32, timeout: U32,
                    pid: U32, now: nat, width: nat): (p: Posted)
    requires Inv(q, width)
    requires payload.Some? ==> Min(size, width) <= |payload.value|
    ensures Inv(p.queue, width)
    ensures p.result in {Success, IpcQueueFull, Busy, Generic}
    ensures p.result != Success ==> p.queue == q
    ensures p.result == IpcQueueFull <==> q.count >= q.max && timeout == 0
    ensures p.result == Busy <==> q.count >= q.max && timeout != 0
    ensures p.result == Generic <==> q.count < q.max && FreeSlot(q.slots).None?
    ensures p.result == Success ==>
      && p.queue.count == q.count + 1 <= q.max
      && p.queue.head == q.head && p.queue.max == q.max
      && p.queue.tail == (q.tail + 1) % q.max
      && FreeSlot(q.slots).Some?
    ensures p.result == Success ==>
      var j := FreeSlot(q.slots).value;
      && |p.queue.slots| == |q.slots|
      && (forall k :: 0 <= k < |q.slots| && k != j ==> p.queue.slots[k] == q.slots[k])
      && p.queue.slots[j].senderPid == pid && p.queue.slots[j].receiverPid == 0
      && p.queue.slots[j].size == size && p.queue.slots[j].timestamp == now
      && (size > 0 && payload.Some? ==>
            p.queue.slots[j].data[..Min(size, width)] == payload.value[..Min(size, width)])
  {
    if q.count >= q.max then
      Posted(if timeout == 0 then IpcQueueFull else Busy, q)
    else match FreeSlot(q.slots)
      case None => Posted(Generic, q)
      case Some(j) =>
        var m := Message(pid, 0, size, now, Stamp(q.slots[j].data, payload, size));
        Posted(Success, q.(count := q.count + 1, tail := (q.tail + 1) % q.max,
                           slots := q.slots[j := m]))
  }

  /** Result of `ipc_receive` on one queue: the bytes copied into the caller's buffer and
      the count written to `actual_size`. */
  datatype Delivery = Delivery(result: ErrorCode, queue: QueueState, bytes: seq<Byte>, actual: U32)

  /** `ipc_receive` once the queue is found, on its non-blocking paths: an empty queue
      answers `NotFound` without a timeout and `Busy` with one (no current process to
      block); otherwise the head slot is delivered and zeroed. */
  function ReceiveStep(q: QueueState, bufferSize: U32, timeout: U32, width: nat): (d: Delivery)
    requires Inv(q, width)
    ensures Inv(d.queue, width)
    ensures d.result in {Success, NotFound, Busy}
    ensures d.result == NotFound <==> q.count == 0 && timeout == 0
    ensures d.result == Busy <==> q.count == 0 && timeout != 0
    ensures d.result != Success ==> d.queue == q && d.bytes == []
    ensures d.result == Success ==>
      && d.queue.count + 1 == q.count
      && d.actual == Min(q.slots[q.head].size, bufferSize)
      && d.bytes == q.slots[q.head].data[..Min(d.actual, width)]
      && d.queue.slots == q.slots[q.head := Blank(width)]
      && d.queue.tail == q.tail
      && d.queue.head == (q.head + 1) % q.max
  {
    if q.count == 0 then
      Delivery(if timeout == 0 then NotFound else Busy, q, [], 0)
    else
      var m := q.slots[q.head];
      var copy := Min(m.size, bufferSize);
      Delivery(Success,
               q.(count := q.count - 1, head := (q.head + 1) % q.max,
                  slots := q.slots[q.head := Blank(width)]),
               m.data[..Min(copy, width)], copy)
  }

  // ---------------------------------------------------------------- properties of the ring

  /** Send then receive on a fresh queue: the receiver gets the first
      `min(size, buffer_size, MAX_MESSAGE_SIZE)` bytes the sender passed, the reported
      size is `min(size, buffer_size)`, and the queue is empty again with both indices
      advanced by one. */
  lemma FreshQueueDeliversFirst(max: nat, width: nat, payload: seq<Byte>, size: U32,
                                pid: U32, now: nat, bufferSize: U32)
    requires max > 0 && 0 < size && Min(size, width) <= |payload|
    ensures var p := SendStep(Fresh(max, width), Some(payload), size, 0, pid, now, width);
      && p.result == Success
      && var d := ReceiveStep(p.queue, bufferSize, 0, width);
      && d.result == Success
      && d.actual == Min(size, bufferSize)
      && d.bytes == payload[..Min(Min(size, bufferSize), width)]
      && d.queue == Fresh(max, width).(head := 1 % max, tail := 1 % max)
  {
    var q := Fresh(max, width);
    assert FreeSlot(q.slots) == Some(0);
    var p := SendStep(q, Some(payload), size, 0, pid, now, width);
    var stamped := Stamp(Zeros(width), Some(payload), size);
    assert p.queue.slots[0].data == stamped;
    var n := Min(Min(size, bufferSize), width);
    assert stamped[..n] == payload[..n] by {
      assert n <= Min(size, width);
      assert stamped[..Min(size, width)] == payload[..Min(size, width)];
    }
    var d := ReceiveStep(p.queue, bufferSize, 0, width);
    assert d.queue.slots == q.slots;
  }

  /** A message sent with no current process keeps sender pid 0, so its slot still
      looks free: the next send picks the same slot and overwrites it. */
  lemma KernelSendLeavesSlotFree(q: QueueState, payload: Option<seq<Byte>>, size: U32,
                                 timeout: U32, now: nat, width: nat)
    requires Inv(q, width) && (payload.Some? ==> Min(size, width) <= |payload.value|)
    requires SendStep(q, payload, size, timeout, 0, now, width).result == Success
    ensures FreeSlot(SendStep(q, payload, size, timeout, 0, now, width).queue.slots) == FreeSlot(q.slots)
  {
    var j := FreeSlot(q.slots).value;
    var s := SendStep(q, payload, size, timeout, 0, now, width).queue.slots;
    var r := FreeSlot(s);
    assert s[j].senderPid == 0;
    assert forall i :: 0 <= i < j ==> s[i] == q.slots[i];
    assert r.Some? && r.value <= j;
  }

  // The five steps of the interleaving below, each on concrete states.

  lemma FirstSendOfThree()
    ensures SendStep(Fresh(3, 1), Some([10]), 1, 0, 7, 0, 1).queue
         == QueueState(3, 1, 0, 1, [Message(7, 0, 1, 0, [10]), Blank(1), Blank(1)])
  {
    assert FreeSlot(Fresh(3, 1).slots) == Some(0);
    assert Stamp(Zeros(1), Some([10]), 1) == [10];
  }

  lemma SecondSendOfThree()
    ensures SendStep(QueueState(3, 1, 0, 1, [Message(7, 0, 1, 0, [10]), Blank(1), Blank(1)]),
                     Some([20]), 1, 0, 7, 1, 1).queue
         == QueueState(3, 2, 0, 2, [Message(7, 0, 1, 0, [10]), Message(7, 0, 1, 1, [20]), Blank(1)])
  {
    var slots := [Message(7, 0, 1, 0, [10]), Blank(1), Blank(1)];
    assert FreeSlot(slots[1..]) == Some(0);
    assert FreeSlot(slots) == Some(1);
    assert Stamp(Zeros(1), Some([20]), 1) == [20];
  }

  lemma FirstReceiveOfThree()
    ensures ReceiveStep(QueueState(3, 2, 0, 2, [Message(7, 0, 1, 0, [10]), Message(7, 0, 1, 1, [20]), Blank(1)]), 1, 0, 1).queue
         == QueueState(3, 1, 1, 2, [Blank(1), Message(7, 0, 1, 1, [20]), Blank(1)])
  {
  }

  lemma ThirdSendOfThree()
    ensures SendStep(QueueState(3, 1, 1, 2, [Blank(1), Message(7, 0, 1, 1, [20]), Blank(1)]),
                     Some([30]), 1, 0, 7, 2, 1).queue
         == QueueState(3, 2, 1, 0, [Message(7, 0, 1, 2, [30]), Message(7, 0, 1, 1, [20]), Blank(1)])
  {
    assert FreeSlot([Blank(1), Message(7, 0, 1, 1, [20]), Blank(1)]) == Some(0);
    assert Stamp(Zeros(1), Some([30]), 1) == [30];
  }

  lemma SecondReceiveOfThree()
    ensures ReceiveStep(QueueState(3, 2, 1, 0, [Message(7, 0, 1, 2, [30]), Message(7, 0, 1, 1, [20]), Blank(1)]), 1, 0, 1).queue
         == QueueState(3, 1, 2, 0, [Message(7, 0, 1, 2, [30]), Blank(1), Blank(1)])
  {
  }

  /** Sending fills the first free slot while receiving takes the head slot, so the two
      drift apart: on a three-slot ring, after send, send, receive, send, receive, the
      next receive hands over a zeroed slot (size 0) while the third message is still
      stored in slot 0. */
  lemma ReceiveCanDeliverBlank()
    ensures
      var q0 := Fresh(3, 1);
      var q1 := SendStep(q0, Some([10]), 1, 0, 7, 0, 1).queue;
      var q2 := SendStep(q1, Some([20]), 1, 0, 7, 1, 1).queue;
      var q3 := ReceiveStep(q2, 1, 0, 1).queue;
      var q4 := SendStep(q3, Some([30]), 1, 0, 7, 2, 1).queue;
      var q5 := ReceiveStep(q4, 1, 0, 1).queue;
      var d := ReceiveStep(q5, 1, 0, 1);
      && d.result == Success && d.actual == 0 && d.bytes == []
      && d.queue.count == 0
      && d.queue.slots[0] == Message(7, 0, 1, 2, [30])
  {
    FirstSendOfThree();
    SecondSendOfThree();
    FirstReceiveOfThree();
    ThirdSendOfThree();
    SecondReceiveOfThree();
  }

  // ---------------------------------------------------------------- the queue object

  class Queue {
    const id: U32
    /** The stored name, truncated to the name buffer. */
    const name: string
    const maxMessages: U32
    /** `MAX_MESSAGE_SIZE`: bytes of payload each slot holds. */
    const width: nat
    /** The block holding the `IPCQueue` itself and the one holding its slots. */
    const block: Handle
    const buffer: Handle
    const messages: array<Message>
    var count: nat
    var head: nat
    var tail: nat

    ghost function State(): QueueState
      reads this, messages
    {
      QueueState(maxMessages, count, head, tail, messages[..])
    }

    ghost predicate Valid()
      reads this, messages
    {
      Inv(State(), width)
    }

    /** The initialisation part of `ipc_queue_create`, after both allocations. */
    constructor (id: U32, name: string, maxMessages: U32, width: nat, block: Handle, buffer: Handle)
      ensures Valid() && fresh(messages)
      ensures State() == Fresh(maxMessages, width)
      ensures this.id == id && this.name == name && this.maxMessages == maxMessages
      ensures this.width == width && this.block == block && this.buffer == buffer
    {
      this.id := id;
      this.name := name;
      this.maxMessages := maxMessages;
      this.width := width;
      this.block := block;
      this.buffer := buffer;
      messages := new Message[maxMessages](_ => Blank(width));
      count, head, tail := 0, 0, 0;
      new;
      assert messages[..] == Fresh(maxMessages, width).slots;
    }

    /** `ipc_send` on this queue: capacity check, scan for the first free slot, fill it,
        advance the counter and `tail`. */
    method Send(payload: Option<seq<Byte>>, size: U32, timeout: U32, pid: U32, now: nat)
      returns (e: ErrorCode)
      requires Valid()
      requires payload.Some? ==> Min(size, width) <= |payload.value|
      modifies this, messages
      ensures Valid()
      ensures Posted(e, State()) == SendStep(old(State()), payload, size, timeout, pid, now, width)
    {
      ghost var q := State();
      if count >= maxMessages {
        if timeout == 0 {
          return IpcQueueFull;
        }
        return Busy;
      }
      var i := 0;
      while i < messages.Length && messages[i].senderPid != 0
        invariant 0 <= i <= messages.Length
        invariant forall j :: 0 <= j < i ==> messages[j].senderPid != 0
      {
        i := i + 1;
      }
      if i == messages.Length {
        return Generic;
      }
      assert FreeSlot(messages[..]) == Some(i);
      var m := Message(pid, 0, size, now, Stamp(messages[i].data, payload, size));
      messages[i] := m;
      count := count + 1;
      tail := (tail + 1) % maxMessages;
      assert State() == q.(count := q.count + 1, tail := (q.tail + 1) % q.max, slots := q.slots[i := m]);
      return Success;
    }

    /** `ipc_receive` on this queue, non-blocking paths only: `current` says whether a
        process is running, and the blocking retry it would start is excluded. */
    method Receive(bufferSize: U32, timeout: U32, current: bool)
      returns (e: ErrorCode, bytes: seq<Byte>, actual: U32)
      requires Valid()
      requires count == 0 && timeout != 0 ==> !current
      modifies this, messages
      ensures Valid()
      ensures Delivery(e, State(), bytes, actual) == ReceiveStep(old(State()), bufferSize, timeout, width)
    {
      if count == 0 {
        if timeout == 0 {
          return NotFound, [], 0;
        }
        return Busy, [], 0;
      }
      var msg := messages[head];
      var copySize := msg.size;
      if copySize > bufferSize {
        copySize := bufferSize;
      }
      bytes := [];
      if copySize > 0 {
        bytes := msg.data[..Min(copySize, width)];
      }
      actual := copySize;
      messages[head] := Blank(width);
      count := count - 1;
      head := (head + 1) % maxMessages;
      return Success, bytes, actual;
    }
  }

  // ---------------------------------------------------------------- the queue table

  /** Number of occupied entries of the table. */
  function Occupied(s: seq<Queue?>): (n: nat)
    ensures n <= |s|
  {
    if s == [] then 0 else (if s[0] != null then 1 else 0) + Occupied(s[1..])
  }

  lemma {:induction false} OccupiedFill(s: seq<Queue?>, i: nat, q: Queue)
    requires i < |s| && s[i] == null
    ensures Occupied(s[i := q]) == Occupied(s) + 1
  {
    if i > 0 {
      OccupiedFill(s[1..], i - 1, q);
      assert s[i := q][1..] == s[1..][i - 1 := q];
    }
  }

  lemma {:induction false} OccupiedClear(s: seq<Queue?>, i: nat)
    requires i < |s| && s[i] != null
    ensures Occupied(s[i := null]) + 1 == Occupied(s)
  {
    if i > 0 {
      OccupiedClear(s[1..], i - 1);
      assert s[i := null][1..] == s[1..][i - 1 := null];
    }
  }

  /** Fewer occupied entries than slots leaves an empty slot. */
  lemma {:induction false} RoomLeft(s: seq<Queue?>)
    requires Occupied(s) < |s|
    ensures FirstEmpty(s).Some?
  {
    if s[0] != null {
      RoomLeft(s[1..]);
    }
  }

  /** The lowest empty index, where `ipc_queue_create` stores a new queue. */
  function FirstEmpty(s: seq<Queue?>): (r: Option<nat>)
    ensures r.Some? ==> r.value < |s| && s[r.value] == null
    ensures r.Some? ==> forall j :: 0 <= j < r.value ==> s[j] != null
    ensures r.None? ==> forall j :: 0 <= j < |s| ==> s[j] != null
  {
    if s == [] then None
    else if s[0] == null then Some(0)
    else match FirstEmpty(s[1..])
      case None => None
      case Some(k) => Some(k + 1)
  }

  /** `ipc_queue_find`: the lowest occupied index whose queue has this id. */
  function FirstWithId(s: seq<Queue?>, id: U32): (r: Option<nat>)
    ensures r.Some? ==> r.value < |s| && s[r.value] != null && s[r.value].id == id
    ensures r.Some? ==> forall j :: 0 <= j < r.value ==> s[j] == null || s[j].id != id
    ensures r.None? ==> forall j :: 0 <= j < |s| ==> s[j] == null || s[j].id != id
  {
    if s == [] then None
    else if s[0] != null && s[0].id == id then Some(0)
    else match FirstWithId(s[1..], id)
      case None => None
      case Some(k) => Some(k + 1)
  }

  /** `ipc_queue_find_by_name`: the lowest occupied index whose stored name equals `name`. */
  function FirstWithName(s: seq<Queue?>, name: string): (r: Option<nat>)
    ensures r.Some? ==> r.value < |s| && s[r.value] != null && s[r.value].name == name
    ensures r.Some? ==> forall j :: 0 <= j < r.value ==> s[j] == null || s[j].name != name
    ensures r.None? ==> forall j :: 0 <= j < |s| ==> s[j] == null || s[j].name != name
  {
    if s == [] then None
    else if s[0] != null && s[0].name == name then Some(0)
    else match FirstWithName(s[1..], name)
      case None => None
      case Some(k) => Some(k + 1)
  }

  /** Ids are `count + 1` at creation, so once a queue is deleted a new one can take the
      id of a queue still in the table; a lookup then reaches only the lower slot. */
  lemma {:induction false} LowerQueueShadows(s: seq<Queue?>, i: nat, j: nat)
    requires i < j < |s| && s[i] != null && s[j] != null && s[i].id == s[j].id
    ensures FirstWithId(s, s[j].id).Some? && FirstWithId(s, s[j].id).value <= i
  {
  }

  /** What the table keeps of its queues' identities, all immutable: each queue holds
      two live blocks of its own and the payload width of the table, and no queue,
      slot array or block is shared between two entries. */
  ghost predicate Layout(s: seq<Queue?>, live: map<Handle, nat>, width: nat) {
    && (forall i :: 0 <= i < |s| && s[i] != null ==>
          && s[i].block in live && s[i].buffer in live && s[i].block != s[i].buffer
          && s[i].width == width)
    && (forall i, j ::
          (0 <= i < |s| && 0 <= j < |s| && i != j && s[i] != null && s[j] != null) ==>
          && s[i] != s[j] && s[i].messages != s[j].messages
          && s[i].block != s[j].block && s[i].buffer != s[j].buffer
          && s[i].block != s[j].buffer)
  }

  /** Storing a queue with two fresh blocks in an empty entry keeps the layout. */
  lemma LayoutPlace(s: seq<Queue?>, live: map<Handle, nat>, width: nat, i: nat, q: Queue, qs: nat, bs: nat)
    requires Layout(s, live, width) && i < |s| && s[i] == null
    requires q.block !in live && q.buffer !in live && q.block != q.buffer && q.width == width
    requires forall j :: 0 <= j < |s| && s[j] != null ==> s[j] != q && s[j].messages != q.messages
    ensures Layout(s[i := q], live[q.block := qs][q.buffer := bs], width)
  {
  }

  /** Emptying an entry and releasing its two blocks keeps the layout. */
  lemma LayoutClear(s: seq<Queue?>, live: map<Handle, nat>, width: nat, i: nat)
    requires Layout(s, live, width) && i < |s| && s[i] != null
    ensures Layout(s[i := null], live - {s[i].buffer, s[i].block}, width)
  {
  }

  class Table {
    /** `ipc_queues`. */
    const slots: array<Queue?>
    /** `ipc_queue_count`. */
    var count: nat
    const heap: Heap
    /** `MAX_MESSAGE_SIZE`. */
    const width: nat
    /** `sizeof(queue->name) - 1`. */
    const nameCapacity: nat
    /** `sizeof(IPCQueue)` and `sizeof(IPCMessage)`. */
    const queueSize: nat
    const messageSize: nat
    ghost var Repr: set<object>

    ghost predicate Valid()
      reads this, Repr, heap
    {
      && slots in Repr && slots.Length == MaxIpcQueues
      && this !in Repr && heap !in Repr
      && heap.Valid()
      && count == Occupied(slots[..])
      && Layout(slots[..], heap.live, width)
      && (forall i :: 0 <= i < slots.Length && slots[i] != null ==>
            slots[i] in Repr && slots[i].messages in Repr && slots[i].Valid())
    }

    /** `ipc_system_init`: every entry empty, count 0. */
    constructor (heap: Heap, width: nat, nameCapacity: nat, queueSize: nat, messageSize: nat)
      requires heap.Valid()
      ensures Valid() && fresh(slots) && fresh(Repr) && count == 0
      ensures forall i :: 0 <= i < slots.Length ==> slots[i] == null
      ensures this.heap == heap && this.width == width && this.nameCapacity == nameCapacity
      ensures this.queueSize == queueSize && this.messageSize == messageSize
    {
      this.heap := heap;
      this.width := width;
      this.nameCapacity := nameCapacity;
      this.queueSize := queueSize;
      this.messageSize := messageSize;
      slots := new Queue?[MaxIpcQueues](_ => null);
      count := 0;
      new;
      Repr := {slots};
      assert forall i :: 0 <= i < slots.Length ==> slots[..][i] == null;
      EmptyTable(slots[..]);
    }

    /** `ipc_queue_find`: scan the table from index 0. */
    method FindIndex(id: U32) returns (r: Option<nat>)
      ensures r == FirstWithId(slots[..], id)
    {
      var i := 0;
      while i < slots.Length
        invariant 0 <= i <= slots.Length
        invariant forall j :: 0 <= j < i ==> slots[j] == null || slots[j].id != id
      {
        if slots[i] != null && slots[i].id == id {
          assert FirstWithId(slots[..], id) == Some(i);
          return Some(i);
        }
        i := i + 1;
      }
      return None;
    }

    /** `ipc_queue_find_by_name`: scan the table from index 0. */
    method FindByName(name: string) returns (r: Option<nat>)
      ensures r == FirstWithName(slots[..], name)
    {
      var i := 0;
      while i < slots.Length
        invariant 0 <= i <= slots.Length
        invariant forall j :: 0 <= j < i ==> slots[j] == null || slots[j].name != name
      {
        if slots[i] != null && slots[i].name == name {
          assert FirstWithName(slots[..], name) == Some(i);
          return Some(i);
        }
        i := i + 1;
      }
      return None;
    }

    /** `ipc_queue_create`. The queue block or the slot buffer may be refused; the
        buffer is requested for `max_messages * sizeof(IPCMessage)` bytes, computed in
        32 bits. */
    method Create(name: string, maxMessages: U32) returns (q: Queue?)
      requires Valid()
      modifies this, slots, heap
      ensures Valid()
      ensures old(count) >= MaxIpcQueues ==> q == null
      ensures q == null ==>
        count == old(count) && slots[..] == old(slots[..]) && heap.live == old(heap.live)
      ensures q != null ==>
        && fresh(q) && fresh(q.messages)
        && q.id == old(count) + 1 && q.name == Truncate(name, nameCapacity)
        && q.maxMessages == maxMessages && q.State() == Fresh(maxMessages, width)
        && count == old(count) + 1
        && FirstEmpty(old(slots[..])).Some?
        && slots[..] == old(slots[..])[FirstEmpty(old(slots[..])).value := q]
        && q.block !in old(heap.live) && q.buffer !in old(heap.live)
        && heap.live == old(heap.live)[q.block := queueSize][q.buffer := ToU32(maxMessages * messageSize)]
      // the table's footprint grows by fresh objects only
      ensures fresh(Repr - old(Repr))
    {
      if count >= MaxIpcQueues {
        return null;
      }
      ghost var before := heap.live;
      var block, blockOk := heap.Alloc(queueSize);
      if !blockOk {
        return null;
      }
      var buffer, bufferOk := heap.Alloc(ToU32(maxMessages * messageSize));
      if !bufferOk {
        heap.Free(block);
        FreeUndoesAlloc(before, block, queueSize);
        return null;
      }
      q := new Queue(count + 1, Truncate(name, nameCapacity), maxMessages, width, block, buffer);
      Place(q, before, ToU32(maxMessages * messageSize));
    }

    /** The end of `ipc_queue_create`: store the new queue in the lowest empty entry and
        count it. `before` is the allocator's state before the queue's two blocks. */
    method Place(q: Queue, ghost before: map<Handle, nat>, ghost bufferSize: nat)
      requires slots in Repr && slots.Length == MaxIpcQueues && heap.Valid()
      requires this !in Repr && heap !in Repr
      requires count == Occupied(slots[..]) < MaxIpcQueues
      requires Layout(slots[..], before, width)
      requires forall i :: 0 <= i < slots.Length && slots[i] != null ==>
                 slots[i] in Repr && slots[i].messages in Repr && slots[i].Valid()
      requires q !in Repr && q.messages !in Repr && q.Valid() && q.width == width
      requires q.block !in before && q.buffer !in before && q.block != q.buffer
      requires heap.live == before[q.block := queueSize][q.buffer := bufferSize]
      modifies this, slots
      ensures Valid() && count == old(count) + 1
      ensures FirstEmpty(old(slots[..])).Some?
      ensures slots[..] == old(slots[..])[FirstEmpty(old(slots[..])).value := q]
      ensures Repr == old(Repr) + {q, q.messages}
    {
      RoomLeft(slots[..]);
      ghost var free := FirstEmpty(slots[..]).value;
      var i := 0;
      while slots[i] != null
        invariant 0 <= i <= free
        invariant forall j :: 0 <= j < i ==> slots[j] != null
        decreases free - i
      {
        i := i + 1;
      }
      OccupiedFill(slots[..], i, q);
      LayoutPlace(slots[..], before, width, i, q, queueSize, bufferSize);
      slots[i] := q;
      count := count + 1;
      Repr := Repr + {q, q.messages};
    }

    /** `ipc_send`. `pid` is the current process's pid, 0 when there is none. */
    method Send(id: U32, payload: Option<seq<Byte>>, size: U32, timeout: U32, pid: U32, now: nat)
      returns (e: ErrorCode)
      requires Valid()
      requires payload.Some? ==> Min(size, width) <= |payload.value|
      modifies Repr
      ensures Valid() && slots[..] == old(slots[..])
      // the table's counter and the allocator are not touched
      ensures count == old(count) && heap.live == old(heap.live)
      ensures FirstWithId(slots[..], id).None? ==> e == NotFound
      // every other queue is left as it was
      ensures forall j :: 0 <= j < slots.Length && slots[j] != null && FirstWithId(slots[..], id) != Some(j)
                ==> slots[j].State() == old(slots[j].State())
      ensures FirstWithId(slots[..], id).Some? ==>
        var q := slots[FirstWithId(slots[..], id).value];
        Posted(e, q.State()) == SendStep(old(q.State()), payload, size, timeout, pid, now, width)
    {
      var found := FindIndex(id);
      if found.None? {
        return NotFound;
      }
      var q := slots[found.value];
      e := q.Send(payload, size, timeout, pid, now);
    }

    /** `ipc_receive`, non-blocking paths: with a timeout and an empty queue the source
        blocks the current process, which is excluded here. */
    method Receive(id: U32, bufferSize: U32, timeout: U32, current: bool)
      returns (e: ErrorCode, bytes: seq<Byte>, actual: U32)
      requires Valid()
      requires timeout != 0 && current && FirstWithId(slots[..], id).Some? ==>
        slots[FirstWithId(slots[..], id).value].count > 0
      modifies Repr
      ensures Valid() && slots[..] == old(slots[..])
      // the table's counter and the allocator are not touched
      ensures count == old(count) && heap.live == old(heap.live)
      ensures FirstWithId(slots[..], id).None? ==> e == NotFound
      // every other queue is left as it was
      ensures forall j :: 0 <= j < slots.Length && slots[j] != null && FirstWithId(slots[..], id) != Some(j)
                ==> slots[j].State() == old(slots[j].State())
      ensures FirstWithId(slots[..], id).Some? ==>
        var q := slots[FirstWithId(slots[..], id).value];
        Delivery(e, q.State(), bytes, actual) == ReceiveStep(old(q.State()), bufferSize, timeout, width)
    {
      var found := FindIndex(id);
      if found.None? {
        return NotFound, [], 0;
      }
      var q := slots[found.value];
      e, bytes, actual := q.Receive(bufferSize, timeout, current);
    }

    /** `ipc_queue_delete`: clear the entry, release the slot buffer and the queue. */
    method Delete(id: U32) returns (e: ErrorCode)
      requires Valid()
      modifies this, slots, heap
      ensures Valid()
      ensures e == Success || e == NotFound
      ensures FirstWithId(old(slots[..]), id).None? ==>
        e == NotFound && count == old(count) && slots[..] == old(slots[..]) && heap.live == old(heap.live)
      ensures FirstWithId(old(slots[..]), id).Some? ==>
        var k := FirstWithId(old(slots[..]), id).value;
        var q := old(slots[k]);
        && e == Success
        && slots[..] == old(slots[..])[k := null]
        && count == old(count) - 1
        && heap.live == old(heap.live) - {q.buffer, q.block}
      ensures Repr == old(Repr)
    {
      var found := FindIndex(id);
      if found.None? {
        return NotFound;
      }
      var q := slots[found.value];
      var i := 0;
      while slots[i] != q
        invariant 0 <= i <= found.value
        decreases found.value - i
        invariant forall j :: 0 <= j < i ==> slots[j] != q
      {
        i := i + 1;
      }
      assert i == found.value;
      ghost var live := heap.live;
      OccupiedClear(slots[..], i);
      LayoutClear(slots[..], live, width, i);
      slots[i] := null;
      heap.Free(q.buffer);
      heap.Free(q.block);
      assert heap.live == live - {q.buffer, q.block};
      count := count - 1;
      return Success;
    }
  }

  lemma {:induction false} EmptyTable(s: seq<Queue?>)
    requires forall i :: 0 <= i < |s| ==> s[i] == null
    ensures Occupied(s) == 0
  {
    if s != [] {
      EmptyTable(s[1..]);
    }
  }
}
