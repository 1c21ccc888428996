/** Message passing: 64 named endpoints, each with a ring buffer of 16 messages. */
module Ipc {
  import opened Common

  const MAX_ENDPOINTS: nat := 64
  const QUEUE_SIZE: nat := 16
  const MAX_PAYLOAD: nat := 256
  const MAX_NAME: nat := 32

  datatype MessageType = Request | Response | Notification | Error

  /** `data` is the used part of the payload. */
  datatype Message = Message(sender: nat, messageType: MessageType, opcode: u32, status: int, data: seq<byte>)

  /** A request carries the first 256 bytes given at most. */
  function MakeRequest(opcode: u32, data: seq<byte>): (m: Message)
    ensures m.data <= data && |m.data| == Min(|data|, 256)
    ensures m.sender == 0 && m.messageType == Request && m.opcode == opcode && m.status == 0
  {
    Message(0, Request, opcode, 0, data[..Min(|data|, MAX_PAYLOAD)])
  }

  // ---- Channels as values ----

  datatype Channel = Channel(name: seq<byte>, owner: nat, active: bool, pending: seq<Message>)

  type Net = seq<Channel>

  datatype SendResult = Sent | InvalidEndpoint | QueueFull

  function SendTo(net: Net, id: nat, msg: Message): (Net, SendResult) {
    if id >= |net| || !net[id].active then (net, InvalidEndpoint)
    else if |net[id].pending| >= QUEUE_SIZE then (net, QueueFull)
    else (net[id := net[id].(pending := net[id].pending + [msg])], Sent)
  }

  function ReceiveFrom(net: Net, id: nat): (Net, Option<Message>) {
    if id >= |net| || !net[id].active || net[id].pending == [] then (net, None)
    else (net[id := net[id].(pending := net[id].pending[1..])], Some(net[id].pending[0]))
  }

  function FirstInactive(net: Net, i: nat): nat
    requires i <= |net|
  {
    FirstSuch(net, (c: Channel) => !c.active, i)
  }

  /** The queue of the slot is left as it was. */
  function Registered(net: Net, name: seq<byte>, owner: nat): (Net, Option<nat>) {
    var k := FirstInactive(net, 0);
    if |name| > MAX_NAME || k == |net| then (net, None)
    else (net[k := Channel(name, owner, true, net[k].pending)], Some(k))
  }

  function Unregistered(net: Net, id: nat): Net {
    if id < |net| then net[id := net[id].(active := false)] else net
  }

  function FindNamed(net: Net, name: seq<byte>, i: nat): (r: Option<nat>)
    requires i <= |net|
    ensures r.Some? ==> i <= r.value < |net| && net[r.value].active && net[r.value].name == name
    ensures forall j :: i <= j < (if r.Some? then r.value else |net|) && net[j].active ==> net[j].name != name
    decreases |net| - i
  {
    if i == |net| then None
    else if net[i].active && net[i].name == name then Some(i)
    else FindNamed(net, name, i + 1)
  }

  // ---- Runs ----

  datatype Op =
    | OpSend(id: nat, msg: Message)
    | OpReceive(id: nat)
    | OpRegister(name: seq<byte>, owner: nat)
    | OpUnregister(id: nat)

  /** The slots with what each accepted and delivered so far, in order. */
  datatype History = History(net: Net, accepted: seq<seq<Message>>, received: seq<seq<Message>>)

  ghost predicate Fifo(h: History) {
    && |h.net| == |h.accepted| == |h.received| == MAX_ENDPOINTS
    && forall i :: 0 <= i < MAX_ENDPOINTS ==>
         |h.net[i].pending| <= QUEUE_SIZE && h.accepted[i] == h.received[i] + h.net[i].pending
  }

  function Step(h: History, op: Op): History
    requires |h.net| == |h.accepted| == |h.received|
  {
    match op
    case OpSend(id, msg) =>
      var (net, result) := SendTo(h.net, id, msg);
      if result == Sent then History(net, h.accepted[id := h.accepted[id] + [msg]], h.received) else h.(net := net)
    case OpReceive(id) =>
      var (net, msg) := ReceiveFrom(h.net, id);
      if msg.Some? then History(net, h.accepted, h.received[id := h.received[id] + [msg.value]]) else h.(net := net)
    case OpRegister(name, owner) => h.(net := Registered(h.net, name, owner).0)
    case OpUnregister(id) => h.(net := Unregistered(h.net, id))
  }

  function Run(h: History, ops: seq<Op>): History
    requires |h.net| == |h.accepted| == |h.received|
    decreases |ops|
  {
    if |ops| == 0 then h else Run(Step(h, ops[0]), ops[1..])
  }

  lemma StepIsFifo(h: History, op: Op)
    requires Fifo(h)
    ensures Fifo(Step(h, op))
  {
    var r := Step(h, op);
    forall i | 0 <= i < MAX_ENDPOINTS ensures r.accepted[i] == r.received[i] + r.net[i].pending {
      if op.OpReceive? && i == op.id && ReceiveFrom(h.net, i).1.Some? {
        assert h.net[i].pending == [h.net[i].pending[0]] + h.net[i].pending[1..];
      }
    }
  }

  /** On every slot and over every run, what was delivered followed by what is queued is what was accepted, in order. */
  lemma {:induction false} RunIsFifo(h: History, ops: seq<Op>)
    requires Fifo(h)
    ensures Fifo(Run(h, ops))
    decreases |ops|
  {
    if |ops| != 0 {
      StepIsFifo(h, ops[0]);
      RunIsFifo(Step(h, ops[0]), ops[1..]);
    }
  }

  /** Whether `op` concerns slot `i`; a registration concerns the slot it takes, if it takes one. */
  predicate Names(net: Net, op: Op, i: nat) {
    match op
    case OpSend(id, _) => id == i
    case OpReceive(id) => id == i
    case OpRegister(name, _) => |name| <= MAX_NAME && FirstInactive(net, 0) == i
    case OpUnregister(id) => id == i
  }

  /** No call of the run concerns slot `i` when its turn comes. */
  predicate LeftAlone(h: History, ops: seq<Op>, i: nat)
    requires |h.net| == |h.accepted| == |h.received|
    decreases |ops|
  {
    |ops| > 0 ==> !Names(h.net, ops[0], i) && LeftAlone(Step(h, ops[0]), ops[1..], i)
  }

  /** A slot changes only by calls on it; registrations that take other slots are no such calls. */
  lemma {:induction false} SlotsAreIndependent(h: History, ops: seq<Op>, i: nat)
    requires Fifo(h) && i < MAX_ENDPOINTS && LeftAlone(h, ops, i)
    ensures var r := Run(h, ops);
      |r.net| == |r.accepted| == |r.received| == MAX_ENDPOINTS
      && r.net[i] == h.net[i] && r.accepted[i] == h.accepted[i] && r.received[i] == h.received[i]
    decreases |ops|
  {
    if |ops| != 0 {
      StepIsFifo(h, ops[0]);
      SlotsAreIndependent(Step(h, ops[0]), ops[1..], i);
    }
  }

  /** A registration concerns exactly the slot it takes, and that is never an active one. */
  lemma RegistrationTakes(net: Net, name: seq<byte>, owner: nat, i: nat)
    requires i < |net|
    ensures Names(net, OpRegister(name, owner), i) <==> Registered(net, name, owner).1 == Some(i)
    ensures net[i].active ==> !Names(net, OpRegister(name, owner), i)
  {
  }

  /** The calls that carry the number of slot `i`. */
  predicate Addresses(op: Op, i: nat) {
    match op
    case OpSend(id, _) => id == i
    case OpReceive(id) => id == i
    case OpUnregister(id) => id == i
    case OpRegister(_, _) => false
  }

  /** An active slot is left alone by every run in which no call carries its number, whoever registers what. */
  lemma {:induction false} ActiveSlotIsLeftAlone(h: History, ops: seq<Op>, i: nat)
    requires Fifo(h) && i < MAX_ENDPOINTS && h.net[i].active
    requires forall k :: 0 <= k < |ops| ==> !Addresses(ops[k], i)
    ensures LeftAlone(h, ops, i)
    decreases |ops|
  {
    hide Registered;
    if |ops| != 0 {
      assert !Addresses(ops[0], i);
      if ops[0].OpRegister? {
        RegistrationTakes(h.net, ops[0].name, ops[0].owner, i);
      }
      assert !Names(h.net, ops[0], i);
      OneCallLeavesAlone(h, ops[0], i);
      ActiveSlotIsLeftAlone(Step(h, ops[0]), ops[1..], i);
    }
  }

  lemma OneCallLeavesAlone(h: History, op: Op, i: nat)
    requires Fifo(h) && i < MAX_ENDPOINTS && !Names(h.net, op, i)
    ensures Fifo(Step(h, op)) && Step(h, op).net[i] == h.net[i]
  {
    StepIsFifo(h, op);
  }

  // ---- What each call answers ----

  /** A send is accepted exactly by an active endpoint with fewer than 16 messages pending, and then appends. */
  lemma SendAnswers(net: Net, id: nat, msg: Message)
    ensures var (net2, result) := SendTo(net, id, msg);
      && (result == Sent <==> id < |net| && net[id].active && |net[id].pending| < 16)
      && (result == InvalidEndpoint <==> id >= |net| || !net[id].active)
      && (result == QueueFull <==> id < |net| && net[id].active && |net[id].pending| >= 16)
      && (result != Sent ==> net2 == net)
      && (result == Sent ==> net2 == net[id := net[id].(pending := net[id].pending + [msg])])
  {
  }

  function SendAll(net: Net, id: nat, msgs: seq<Message>): (Net, seq<SendResult>)
    decreases |msgs|
  {
    if |msgs| == 0 then (net, [])
    else
      var (net1, result) := SendTo(net, id, msgs[0]);
      var (net2, results) := SendAll(net1, id, msgs[1..]);
      (net2, [result] + results)
  }

  function ReceiveAll(net: Net, id: nat, n: nat): (Net, seq<Option<Message>>)
    decreases n
  {
    if n == 0 then (net, [])
    else
      var (net1, msg) := ReceiveFrom(net, id);
      var (net2, msgs) := ReceiveAll(net1, id, n - 1);
      (net2, [msg] + msgs)
  }

  /** An active endpoint accepts messages as long as no more than 16 are pending. */
  lemma {:induction false} SixteenAreAccepted(net: Net, id: nat, msgs: seq<Message>)
    requires id < |net| && net[id].active && |net[id].pending| + |msgs| <= 16
    ensures var (net2, results) := SendAll(net, id, msgs);
      && |results| == |msgs| && (forall i :: 0 <= i < |msgs| ==> results[i] == Sent)
      && net2 == net[id := net[id].(pending := net[id].pending + msgs)]
    decreases |msgs|
  {
    if |msgs| == 0 {
      assert net[id].pending + msgs == net[id].pending;
    } else {
      var net1 := SendTo(net, id, msgs[0]).0;
      SixteenAreAccepted(net1, id, msgs[1..]);
      assert net[id].pending + [msgs[0]] + msgs[1..] == net[id].pending + msgs;
    }
  }

  /** Receiving as many times as messages are pending gives them in order and empties the queue. */
  lemma {:induction false} PendingAreReceived(net: Net, id: nat)
    requires id < |net| && net[id].active
    ensures var (net2, msgs) := ReceiveAll(net, id, |net[id].pending|);
      && |msgs| == |net[id].pending| && (forall i :: 0 <= i < |msgs| ==> msgs[i] == Some(net[id].pending[i]))
      && net2 == net[id := net[id].(pending := [])]
    decreases |net[id].pending|
  {
    if net[id].pending != [] {
      PendingAreReceived(ReceiveFrom(net, id).0, id);
    }
  }

  /**
   Up to 16 messages sent to an empty endpoint are all accepted and come out in order; with 16 sent, the
   next one is answered QueueFull until one is received.
   */
  lemma BurstIsDelivered(net: Net, id: nat, msgs: seq<Message>, extra: Message)
    requires id < |net| && net[id].active && net[id].pending == [] && |msgs| <= 16
    ensures var (net2, results) := SendAll(net, id, msgs);
      && |results| == |msgs| && (forall i :: 0 <= i < |msgs| ==> results[i] == Sent)
      && (SendTo(net2, id, extra).1 == QueueFull <==> |msgs| == 16)
      && (SendTo(ReceiveFrom(net2, id).0, id, extra).1 == Sent)
      && var (net3, received) := ReceiveAll(net2, id, |msgs|);
        && net3 == net && |received| == |msgs|
        && forall i :: 0 <= i < |msgs| ==> received[i] == Some(msgs[i])
  {
    SixteenAreAccepted(net, id, msgs);
    var net2 := SendAll(net, id, msgs).0;
    assert net2[id].pending == msgs;
    PendingAreReceived(net2, id);
    assert net2[id := net2[id].(pending := [])] == net;
  }

  /** A receive fails exactly on an inactive or empty endpoint, and otherwise takes the oldest message. */
  lemma ReceiveAnswers(net: Net, id: nat)
    ensures var (net2, msg) := ReceiveFrom(net, id);
      && (msg.None? <==> id >= |net| || !net[id].active || |net[id].pending| == 0)
      && (msg.None? ==> net2 == net)
      && (msg.Some? ==>
            msg.value == net[id].pending[0] && net2 == net[id := net[id].(pending := net[id].pending[1..])])
  {
  }

  /** Registering takes the lowest inactive endpoint; it fails exactly on a long name or a full table. */
  lemma RegisterAnswers(net: Net, name: seq<byte>, owner: nat)
    ensures var (net2, id) := Registered(net, name, owner);
      && (id.Some? <==> |name| <= 32 && exists j :: 0 <= j < |net| && !net[j].active)
      && (id.None? ==> net2 == net)
      && (id.Some? ==>
            && id.value < |net| && !net[id.value].active && (forall j :: 0 <= j < id.value ==> net[j].active)
            && net2 == net[id.value := Channel(name, owner, true, net[id.value].pending)])
  {
    var k := FirstInactive(net, 0);
    assert k < |net| ==> !net[k].active;
  }

  /** After unregistering, the endpoint refuses messages, gives none, and is not found by its name. */
  lemma UnregisteredIsGone(net: Net, id: nat, msg: Message, name: seq<byte>)
    requires id < |net|
    ensures var net2 := Unregistered(net, id);
      && |net2| == |net| && (forall j :: 0 <= j < |net| && j != id ==> net2[j] == net[j])
      && SendTo(net2, id, msg) == (net2, InvalidEndpoint) && ReceiveFrom(net2, id) == (net2, None)
      && FindNamed(net2, name, 0) != Some(id)
  {
  }

  /** Without a register, unregister or other send between, a message sent to an empty slot is the next received. */
  lemma SendThenReceive(net: Net, id: nat, msg: Message)
    requires id < |net| && net[id].active && net[id].pending == []
    ensures ReceiveFrom(SendTo(net, id, msg).0, id) == (net, Some(msg))
  {
    var sent := SendTo(net, id, msg).0;
    assert sent[id].pending == [msg] && [msg][1..] == [];
    assert ReceiveFrom(sent, id).0 == net[id := net[id].(pending := [])] == net;
  }

  /** A registered endpoint is found by its name exactly when no active slot before it has that name. */
  lemma RegisterThenFind(net: Net, name: seq<byte>, owner: nat)
    requires Registered(net, name, owner).1.Some?
    ensures var (after, id) := Registered(net, name, owner);
      FindNamed(after, name, 0) == id <==>
        forall j :: 0 <= j < id.value ==> net[j].name != name
  {
    var (after, id) := Registered(net, name, owner);
    assert forall j :: 0 <= j < id.value ==> after[j] == net[j] && net[j].active;
    assert after[id.value].active && after[id.value].name == name;
  }

  /**
   Registering does not clear the queue: the new owner of a slot first receives what the previous
   one left, exactly when it left something.
   */
  lemma NewOwnerReceivesOldMessages(net: Net, name: seq<byte>, owner: nat)
    requires Registered(net, name, owner).1.Some?
    ensures var (after, id) := Registered(net, name, owner);
      && id.value < |net|
      && ReceiveFrom(after, id.value).1 ==
           (if net[id.value].pending == [] then None else Some(net[id.value].pending[0]))
      && (ReceiveFrom(after, id.value).1.None? <==> net[id.value].pending == [])
  {
  }

  /** The endpoints at boot. */
  function Unused(): Net {
    seq(MAX_ENDPOINTS, i => Channel([], 0, false, []))
  }

  /** From boot: one owner registers, is sent a message and unregisters; the next owner receives that message. */
  lemma OldMessageIsReached(name: seq<byte>, owner: nat, name2: seq<byte>, owner2: nat, msg: Message)
    requires |name| <= MAX_NAME && |name2| <= MAX_NAME
    ensures var (a, id) := Registered(Unused(), name, owner);
      && id == Some(0)
      && var b := Unregistered(SendTo(a, 0, msg).0, 0);
        var (c, id2) := Registered(b, name2, owner2);
        id2 == Some(0) && ReceiveFrom(c, 0).1 == Some(msg)
  {
    var a := Registered(Unused(), name, owner).0;
    assert FirstInactive(Unused(), 0) == 0;
    var b := Unregistered(SendTo(a, 0, msg).0, 0);
    assert FirstInactive(b, 0) == 0;
  }

  // ---- The endpoints in memory ----

  /** Position `k` of the ring, counted from `start`. */
  function RingIndex(start: nat, k: nat): (i: nat)
    requires start < QUEUE_SIZE && k <= QUEUE_SIZE
    ensures i < QUEUE_SIZE && i == (start + k) % QUEUE_SIZE
  {
    if start + k < QUEUE_SIZE then start + k else start + k - QUEUE_SIZE
  }

  class Endpoint {
    var name: seq<byte>
    var owner: nat
    var active: bool
    const queue: array<Message>
    var read: nat
    var write: nat
    var count: nat

    constructor ()
      ensures Valid() && fresh(queue) && Value() == Channel([], 0, false, [])
    {
      name, owner, active := [], 0, false;
      queue := new Message[QUEUE_SIZE](i => Message(0, Request, 0, 0, []));
      read, write, count := 0, 0, 0;
    }

    ghost predicate Valid()
      reads this
    {
      && queue.Length == QUEUE_SIZE && count <= QUEUE_SIZE && read < QUEUE_SIZE
      && write == RingIndex(read, count)
    }

    /** The queued messages, oldest first. */
    ghost function Pending(): (s: seq<Message>)
      requires Valid()
      reads this, queue
      ensures |s| == count
    {
      seq(count, i requires 0 <= i < count && Valid() reads this, queue => queue[RingIndex(read, i)])
    }

    ghost function Value(): Channel
      requires Valid()
      reads this, queue
    {
      Channel(name, owner, active, Pending())
    }

    /** False exactly when the ring is full. */
    method Enqueue(msg: Message) returns (ok: bool)
      requires Valid()
      modifies this`write, this`count, queue
      ensures Valid()
      ensures ok <==> |old(Pending())| < QUEUE_SIZE
      ensures Value() == old(Value()).(pending := if ok then old(Pending()) + [msg] else old(Pending()))
    {
      if count >= QUEUE_SIZE {
        return false;
      }
      ghost var before := Pending();
      assert RingIndex(write, 1) == RingIndex(read, count + 1);
      queue[write] := msg;
      write := (write + 1) % QUEUE_SIZE;
      count := count + 1;
      assert Pending() == before + [msg];
      return true;
    }

    /** The assignments of `register_endpoint`. */
    method Claim(name: seq<byte>, owner: nat)
      requires Valid()
      modifies this`name, this`owner, this`active
      ensures Valid() && Value() == Channel(name, owner, true, old(Pending()))
    {
      ghost var pending := Pending();
      active := true;
      this.owner := owner;
      this.name := name;
      assert Pending() == pending;
    }

    /** The assignment of `unregister_endpoint`. */
    method Drop()
      requires Valid()
      modifies this`active
      ensures Valid() && Value() == old(Value()).(active := false)
    {
      ghost var pending := Pending();
      active := false;
      assert Pending() == pending;
    }

    method Dequeue() returns (msg: Option<Message>)
      requires Valid()
      modifies this`read, this`count
      ensures Valid()
      ensures msg == if old(Pending()) == [] then None else Some(old(Pending())[0])
      ensures Value() == old(Value()).(pending := if old(Pending()) == [] then [] else old(Pending())[1..])
    {
      if count == 0 {
        return None;
      }
      ghost var before := Pending();
      var idx := read;
      assert RingIndex(RingIndex(read, 1), count - 1) == RingIndex(read, count);
      read := (read + 1) % QUEUE_SIZE;
      count := count - 1;
      assert Pending() == before[1..];
      return Some(queue[idx]);
    }
  }

  class Endpoints {
    const slots: seq<Endpoint>

    /** The slots are separate objects with separate rings. */
    ghost predicate Valid()
      reads slots
    {
      && |slots| == MAX_ENDPOINTS
      && (forall i :: 0 <= i < |slots| ==> slots[i].Valid())
      && (forall i, j :: 0 <= i < j < |slots| ==> slots[i] != slots[j] && slots[i].queue != slots[j].queue)
    }

    ghost function Value(): (net: Net)
      requires Valid()
      reads slots, set i | 0 <= i < |slots| :: slots[i].queue
      ensures |net| == MAX_ENDPOINTS
      ensures forall i :: 0 <= i < MAX_ENDPOINTS ==> net[i] == slots[i].Value()
    {
      seq(MAX_ENDPOINTS,
        i requires 0 <= i < MAX_ENDPOINTS && Valid() reads slots, set i | 0 <= i < |slots| :: slots[i].queue =>
          slots[i].Value())
    }

    constructor (slots: seq<Endpoint>)
      requires |slots| == MAX_ENDPOINTS && forall i :: 0 <= i < |slots| ==> slots[i].Valid()
      requires forall i, j :: 0 <= i < j < |slots| ==> slots[i] != slots[j] && slots[i].queue != slots[j].queue
      ensures Valid() && this.slots == slots
    {
      this.slots := slots;
    }

    method Send(id: nat, msg: Message) returns (result: SendResult)
      requires Valid()
      modifies slots, set i | 0 <= i < |slots| :: slots[i].queue
      ensures Valid() && SendTo(old(Value()), id, msg) == (Value(), result)
    {
      if id >= MAX_ENDPOINTS || !slots[id].active {
        return InvalidEndpoint;
      }
      ghost var net := Value();
      var ok := slots[id].Enqueue(msg);
      OneSlotChanged(net, id);
      return if ok then Sent else QueueFull;
    }

    /** When no slot but `id` changed, the value is the old one with that slot replaced. */
    lemma OneSlotChanged(net: Net, id: nat)
      requires Valid() && |net| == MAX_ENDPOINTS && id < MAX_ENDPOINTS
      requires forall i :: 0 <= i < MAX_ENDPOINTS && i != id ==> slots[i].Value() == net[i]
      ensures Value() == net[id := slots[id].Value()]
      ensures slots[id].Value() == net[id] ==> Value() == net
    {
    }

    method Receive(id: nat) returns (msg: Option<Message>)
      requires Valid()
      modifies slots, set i | 0 <= i < |slots| :: slots[i].queue
      ensures Valid() && ReceiveFrom(old(Value()), id) == (Value(), msg)
    {
      if id >= MAX_ENDPOINTS || !slots[id].active {
        return None;
      }
      ghost var net := Value();
      msg := slots[id].Dequeue();
      OneSlotChanged(net, id);
    }

    method RegisterEndpoint(name: seq<byte>, owner: nat) returns (id: Option<nat>)
      requires Valid()
      modifies slots
      ensures Valid() && Registered(old(Value()), name, owner) == (Value(), id)
    {
      if |name| > MAX_NAME {
        return None;
      }
      ghost var net := Value();
      for i := 0 to MAX_ENDPOINTS
        invariant Valid() && Value() == net
        invariant FirstInactive(net, 0) == FirstInactive(net, i)
      {
        assert net[i] == slots[i].Value();
        if !slots[i].active {
          slots[i].Claim(name, owner);
          OneSlotChanged(net, i);
          return Some(i);
        }
      }
      return None;
    }

    method UnregisterEndpoint(id: nat)
      requires Valid()
      modifies slots
      ensures Valid() && Value() == Unregistered(old(Value()), id)
    {
      if id < MAX_ENDPOINTS {
        ghost var net := Value();
        slots[id].Drop();
        OneSlotChanged(net, id);
      }
    }

    method FindEndpoint(name: seq<byte>) returns (id: Option<nat>)
      requires Valid()
      ensures id == FindNamed(Value(), name, 0)
    {
      for i := 0 to MAX_ENDPOINTS
        invariant FindNamed(Value(), name, 0) == FindNamed(Value(), name, i)
      {
        if slots[i].active && slots[i].name == name {
          return Some(i);
        }
      }
      return None;
    }
  }
}
