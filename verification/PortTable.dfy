/**
 The message ports in memory: a table of port structs, each owning an array of 16 message slots that is
 written in place, beside the scheduler's task list. Every entry point of ipc.c and sched.c is proved to
 take memory that represents a state to memory that represents the state after the step.
 */
module PortTable {
  import opened MessageRing
  import opened KernelSteps
  import opened KernelInvariants
  import opened KernelRuns
  import opened TaskList

  /** struct port; a free entry has owner 0 and no queue. */
  datatype PortEntry = PortEntry(owner: int, queue: array?<Message>, head: nat, tail: nat, waitingSender: nat,
      waitingReceiver: nat)

  /** The struct and its queue memory hold the port; a free entry holds nothing but its waiter slots. */
  ghost predicate PortHolds(e: PortEntry, port: Port)
    reads e.queue
  {
    && e.owner == port.owner && e.waitingSender == port.waitingSender && e.waitingReceiver == port.waitingReceiver
    && (e.owner != 0 ==>
          && e.queue != null && e.queue.Length == SLOTS && e.queue[..] == port.ring.slots
          && e.head == port.ring.head && e.tail == port.ring.tail)
  }

  ghost predicate OwnQueue(table: seq<PortEntry>, p: nat, q: nat)
    requires p < |table| && q < |table|
  {
    p != q && table[p].owner != 0 && table[q].owner != 0 ==> table[p].queue != table[q].queue
  }

  /** No two ports share queue memory. */
  ghost predicate OwnQueues(table: seq<PortEntry>) {
    forall p, q {:trigger OwnQueue(table, p, q)} :: 0 <= p < |table| && 0 <= q < |table| ==> OwnQueue(table, p, q)
  }

  lemma OwnQueuesUpdate(table: seq<PortEntry>, p: nat, e: PortEntry)
    requires OwnQueues(table) && p < |table|
    requires e.owner != 0 ==>
        (table[p].owner != 0 && e.queue == table[p].queue)
        || (forall q :: 0 <= q < |table| ==> table[q].queue != e.queue)
    ensures OwnQueues(table[p := e])
  {
    var t := table[p := e];
    forall i, j | 0 <= i < |t| && 0 <= j < |t| ensures OwnQueue(t, i, j) {
      assert OwnQueue(table, i, j) && OwnQueue(table, i, p) && OwnQueue(table, p, j);
    }
  }

  /** Queue memory after memset: every slot the same. */
  function Cleared(blank: Message): seq<Message> {
    seq(SLOTS, _ => blank)
  }

  function WokenIfAny(ts: seq<Task>, id: nat): seq<Task> {
    if id != 0 then Unblocked(ts, id) else ts
  }

  lemma DestroyPortForm(s: State, p: int)
    requires PortExists(s, p)
    ensures var port := s.ports[p];
            var ts := WokenIfAny(WokenIfAny(s.tasks, port.waitingSender), port.waitingReceiver);
            DestroyPort(s, p) == (s.(tasks := ts, ports := s.ports[p := FreshPort(0, port.ring.slots)],
                portCount := s.portCount - 1), 0)
  {
  }

  class Ipc {
    const sched: Scheduler
    const table: array<PortEntry>
    var portCount: int

    /** All queue memory handed out so far. */
    ghost var queues: set<array<Message>>

    ghost predicate PortAt(s: State, p: nat)
      requires p < table.Length && p < |s.ports|
      reads this, table, queues
    {
      (table[p].queue != null ==> table[p].queue in queues) && PortHolds(table[p], s.ports[p])
    }

    /** The table in memory is the port table of the state. */
    ghost predicate PortsHold(s: State)
      reads this, table, queues
    {
      && table.Length == MAX_PORTS == |s.ports| && portCount == s.portCount && OwnQueues(table[..])
      && forall p {:trigger PortAt(s, p)} :: 0 <= p < MAX_PORTS ==> PortAt(s, p)
    }

    /** Memory represents the state. */
    ghost predicate Represents(s: State)
      reads this, table, queues, sched, sched.chain
    {
      sched.Represents(s) && PortsHold(s)
    }

    /** sched_init and ipc_init. */
    constructor ()
      ensures fresh(sched) && fresh(table) && queues == {} && sched.chain == []
      ensures forall s: State :: Initial(s) && s.portCount == 0 ==> Represents(s)
    {
      sched := new Scheduler();
      table := new PortEntry[MAX_PORTS](_ => PortEntry(0, null, 0, 0, 0, 0));
      portCount, queues := 0, {};
    }

    /** Writing a port struct, with its queue memory or new memory of its own. */
    method WriteEntry(p: nat, e: PortEntry, ghost port: Port, ghost s: State)
      requires Represents(s) && p < MAX_PORTS && PortHolds(e, port) && (e.queue != null ==> e.queue in queues)
      requires e.owner != 0 ==>
          (table[p].owner != 0 && e.queue == table[p].queue)
          || (forall q :: 0 <= q < MAX_PORTS ==> table[q].queue != e.queue)
      modifies table
      ensures Represents(s.(ports := s.ports[p := port]))
    {
      OwnQueuesUpdate(table[..], p, e);
      table[p] := e;
      assert table[..] == old(table[..])[p := e];
      ghost var s' := s.(ports := s.ports[p := port]);
      forall q | 0 <= q < MAX_PORTS ensures PortAt(s', q) {
        assert old(PortAt(s, q));
      }
    }

    /** Writing one message slot in place. */
    method WriteSlot(p: nat, k: nat, m: Message, ghost s: State)
      requires Represents(s) && p < MAX_PORTS && s.ports[p].owner != 0 && k < SLOTS
      modifies queues
      ensures |s.ports[p].ring.slots| == SLOTS
      ensures var ring := s.ports[p].ring;
              Represents(s.(ports := s.ports[p := s.ports[p].(ring := ring.(slots := ring.slots[k := m]))]))
    {
      var q := table[p].queue;
      assert PortAt(s, p);
      forall i | 0 <= i < MAX_PORTS && i != p ensures table[i].owner != 0 ==> table[i].queue != q {
        assert OwnQueue(table[..], i, p);
      }
      q[k] := m;
      assert q[..] == old(q[..])[k := m];
      ghost var port := s.ports[p].(ring := s.ports[p].ring.(slots := s.ports[p].ring.slots[k := m]));
      ghost var s' := s.(ports := s.ports[p := port]);
      forall i | 0 <= i < MAX_PORTS ensures PortAt(s', i) {
        assert old(PortAt(s, i));
      }
    }

    /** The slot numbers of port p. */
    method ReadPort(p: nat, ghost s: State) returns (e: PortEntry)
      requires Represents(s) && p < MAX_PORTS
      ensures e == table[p] && PortHolds(e, s.ports[p]) && (e.queue != null ==> e.queue in queues)
    {
      assert PortAt(s, p);
      e := table[p];
    }

    /** sched_unblock beside the ports. */
    method Unblock(id: int, ghost s: State)
      requires Represents(s)
      modifies sched.chain`data
      ensures Represents(s.(tasks := Unblocked(s.tasks, id)))
    {
      sched.SchedUnblock(id, s);
      SamePorts(s, s.(tasks := Unblocked(s.tasks, id)));
    }

    /** sched_block beside the ports. */
    method Block(where: Activity, ghost s: State)
      requires Represents(s)
      modifies sched`currentTask, sched.chain`data
      ensures Represents(if Cur(s) >= 0 then Schedule(Parked(s, where)) else s)
    {
      sched.SchedBlock(where, s);
      SamePorts(s, Schedule(Parked(s, where)));
    }

    /** The call returns, beside the ports. */
    method Return(ghost s: State)
      requires Represents(s)
      modifies sched.chain`data
      ensures Represents(At(s, Outside))
    {
      sched.Return(s);
      SamePorts(s, At(s, Outside));
    }

    lemma SamePorts(s: State, s': State)
      requires PortsHold(s) && s'.ports == s.ports && s'.portCount == s.portCount
      ensures PortsHold(s')
    {
      forall q | 0 <= q < MAX_PORTS ensures PortAt(s', q) {
        assert PortAt(s, q);
      }
    }

    /** The message goes into the tail slot. */
    method Enqueue(p: nat, m: Message, ghost s: State)
      requires Represents(s) && PortExists(s, p) && s.ports[p].ring.Valid()
      modifies table, queues
      ensures var port := s.ports[p];
              Represents(s.(ports := s.ports[p := port.(ring := port.ring.Push(m), sent := port.sent + [m])]))
    {
      var e := ReadPort(p, s);
      ghost var port := s.ports[p];
      WriteSlot(p, e.tail, m, s);
      ghost var port1 := port.(ring := port.ring.(slots := port.ring.slots[e.tail := m]));
      ghost var s1 := s.(ports := s.ports[p := port1]);
      e := ReadPort(p, s1);
      WriteEntry(p, e.(tail := (e.tail + 1) % SLOTS), port.(ring := port.ring.Push(m), sent := port.sent + [m]), s1);
      assert s1.ports[p := port.(ring := port.ring.Push(m), sent := port.sent + [m])] ==
             s.ports[p := port.(ring := port.ring.Push(m), sent := port.sent + [m])];
    }

    /** The message comes out of the head slot. */
    method Dequeue(p: nat, ghost s: State) returns (m: Message)
      requires Represents(s) && PortExists(s, p) && s.ports[p].ring.Valid()
      modifies table
      ensures m == s.ports[p].ring.slots[s.ports[p].ring.head]
      ensures var port := s.ports[p];
              Represents(s.(ports := s.ports[p := port.(ring := port.ring.Pop(), received := port.received + [m])]))
    {
      var e := ReadPort(p, s);
      ghost var port := s.ports[p];
      m := e.queue[e.head];
      WriteEntry(p, e.(head := (e.head + 1) % SLOTS), port.(ring := port.ring.Pop(), received := port.received + [m]),
          s);
    }

    /** A registered receiver is made READY and unregistered. */
    method WakeReceiver(p: nat, ghost s: State)
      requires Represents(s) && PortExists(s, p)
      modifies table, sched.chain`data
      ensures var port := s.ports[p];
              var ts := if port.waitingReceiver != 0 then Unblocked(s.tasks, port.waitingReceiver) else s.tasks;
              Represents(s.(tasks := ts, ports := s.ports[p := port.(waitingReceiver := 0)]))
    {
      var e := ReadPort(p, s);
      ghost var port, s1 := s.ports[p], s;
      if e.waitingReceiver != 0 {
        Unblock(e.waitingReceiver, s);
        s1 := s.(tasks := Unblocked(s.tasks, e.waitingReceiver));
        WriteEntry(p, e.(waitingReceiver := 0), port.(waitingReceiver := 0), s1);
      } else {
        assert s.ports[p := port.(waitingReceiver := 0)] == s.ports;
      }
    }

    /** A registered sender is made READY and unregistered. */
    method WakeSender(p: nat, ghost s: State)
      requires Represents(s) && PortExists(s, p)
      modifies table, sched.chain`data
      ensures var port := s.ports[p];
              var ts := if port.waitingSender != 0 then Unblocked(s.tasks, port.waitingSender) else s.tasks;
              Represents(s.(tasks := ts, ports := s.ports[p := port.(waitingSender := 0)]))
    {
      var e := ReadPort(p, s);
      ghost var port, s1 := s.ports[p], s;
      if e.waitingSender != 0 {
        Unblock(e.waitingSender, s);
        s1 := s.(tasks := Unblocked(s.tasks, e.waitingSender));
        WriteEntry(p, e.(waitingSender := 0), port.(waitingSender := 0), s1);
      } else {
        assert s.ports[p := port.(waitingSender := 0)] == s.ports;
      }
    }

    /** The end of msg_send: the message is stored and the registered receiver woken. */
    method Accepted(p: nat, m: Message, ghost s: State)
      requires Represents(s) && PortExists(s, p) && s.ports[p].ring.Valid()
      modifies table, queues, sched.chain`data
      ensures Represents(Deliver(s, p, m))
    {
      Enqueue(p, m, s);
      ghost var port := s.ports[p];
      ghost var s1 := s.(ports := s.ports[p := port.(ring := port.ring.Push(m), sent := port.sent + [m])]);
      WakeReceiver(p, s1);
      assert s1.ports[p := s1.ports[p].(waitingReceiver := 0)] == Deliver(s, p, m).ports;
    }

    /** The end of msg_receive: the message is taken and the registered sender woken. */
    method Delivered(p: nat, ghost s: State) returns (m: Message)
      requires Represents(s) && PortExists(s, p) && s.ports[p].ring.Valid()
      modifies table, sched.chain`data
      ensures Represents(Accept(s, p)) && m == s.ports[p].ring.slots[s.ports[p].ring.head]
    {
      m := Dequeue(p, s);
      ghost var port := s.ports[p];
      ghost var s1 := s.(ports := s.ports[p := port.(ring := port.ring.Pop(), received := port.received + [m])]);
      WakeSender(p, s1);
      assert s1.ports[p := s1.ports[p].(waitingSender := 0)] == Accept(s, p).ports;
    }

    /** The index test of msg_send. */
    method IsFull(p: nat, ghost s: State) returns (full: bool)
      requires Represents(s) && PortExists(s, p)
      ensures full == s.ports[p].ring.Full()
    {
      var e := ReadPort(p, s);
      return (e.tail + 1) % SLOTS == e.head;
    }

    /** The full-queue branch of msg_send. */
    method ParkSender(p: nat, m: Message, ghost s: State)
      requires Represents(s) && PortExists(s, p) && sched.currentTask != null
      modifies table, sched`currentTask, sched.chain`data
      ensures Represents(Schedule(Parked(RegisterSender(s, p), InSend(p, m))))
    {
      var d := sched.ReadCurrent(s);
      var e := ReadPort(p, s);
      WriteEntry(p, e.(waitingSender := d.id), s.ports[p].(waitingSender := d.id), s);
      Block(InSend(p, m), RegisterSender(s, p));
    }

    /** The empty-queue branch of msg_receive. */
    method ParkReceiver(p: nat, ghost s: State)
      requires Represents(s) && PortExists(s, p) && sched.currentTask != null
      modifies table, sched`currentTask, sched.chain`data
      ensures Represents(Schedule(Parked(RegisterReceiver(s, p), InReceive(p))))
    {
      var d := sched.ReadCurrent(s);
      var e := ReadPort(p, s);
      WriteEntry(p, e.(waitingReceiver := d.id), s.ports[p].(waitingReceiver := d.id), s);
      Block(InReceive(p), RegisterReceiver(s, p));
    }

    /** One pass of msg_send. */
    method MsgSend(p: int, m: Message, nonblock: bool, ghost s: State) returns (r: int)
      requires Represents(s) && RingsValid(s)
      modifies table, queues, sched`currentTask, sched.chain`data
      ensures Represents(SendPass(s, p, m, nonblock).0) && r == SendPass(s, p, m, nonblock).1
    {
      if p < 0 || p >= MAX_PORTS {
        Return(s);
        return -1;
      }
      var e := ReadPort(p, s);
      if e.owner == 0 {
        Return(s);
        return -1;
      }
      var full := IsFull(p, s);
      if full {
        if nonblock || sched.currentTask == null {
          Return(s);
          return -2;
        }
        ParkSender(p, m, s);
        return PARKED;
      }
      Return(s);
      Accepted(p, m, At(s, Outside));
      return 0;
    }

    /** One pass of msg_receive. */
    method MsgReceive(p: int, nonblock: bool, ghost s: State) returns (r: int, m: Option<Message>)
      requires Represents(s) && RingsValid(s)
      modifies table, sched`currentTask, sched.chain`data
      ensures Represents(ReceivePass(s, p, nonblock).0)
      ensures r == ReceivePass(s, p, nonblock).1 && m == ReceivePass(s, p, nonblock).2
    {
      if p < 0 || p >= MAX_PORTS {
        Return(s);
        return -1, None;
      }
      var e := ReadPort(p, s);
      if e.owner == 0 {
        Return(s);
        return -1, None;
      }
      if e.head == e.tail {
        if nonblock || sched.currentTask == null {
          Return(s);
          return -2, None;
        }
        ParkReceiver(p, s);
        return PARKED, None;
      }
      Return(s);
      var got := Delivered(p, At(s, Outside));
      return 0, Some(got);
    }

    /** The scan of the port table for an owner (0 finds a free entry). */
    method FindPort(owner: int, ghost s: State) returns (p: int)
      requires Represents(s)
      ensures p == PortOf(s.ports, owner)
    {
      p := 0;
      while p < MAX_PORTS
        invariant 0 <= p <= MAX_PORTS
        invariant forall j :: 0 <= j < p ==> s.ports[j].owner != owner
      {
        var e := ReadPort(p, s);
        if e.owner == owner {
          return;
        }
        p := p + 1;
      }
      p := -1;
    }

    /** msg_reply. */
    method MsgReply(dest: int, m: Message, ghost s: State) returns (r: int)
      requires Represents(s) && RingsValid(s)
      modifies table, queues, sched`currentTask, sched.chain`data
      ensures Represents(Reply(s, dest, m).0) && r == Reply(s, dest, m).1
    {
      var p := FindPort(dest, s);
      if p < 0 {
        return -1;
      }
      r := MsgSend(p, m, true, s);
    }

    /** The queue memory of port_create: a fresh array, cleared. */
    method GrantQueue(blank: Message, ghost s: State) returns (q: array<Message>)
      requires Represents(s)
      modifies this`queues
      ensures Represents(s) && fresh(q) && queues == old(queues) + {q} && q[..] == Cleared(blank)
      ensures forall p :: 0 <= p < MAX_PORTS ==> table[p].queue != q
    {
      q := new Message[SLOTS](_ => blank);
      assert q[..] == Cleared(blank);
      forall p | 0 <= p < MAX_PORTS ensures table[p].queue != q {
        assert PortAt(s, p);
      }
      queues := queues + {q};
      forall p | 0 <= p < MAX_PORTS ensures PortAt(s, p) {
        assert old(PortAt(s, p));
      }
    }

    method Recount(n: int, ghost s: State)
      requires Represents(s)
      modifies this`portCount
      ensures Represents(s.(portCount := n))
    {
      portCount := n;
      ghost var s' := s.(portCount := n);
      forall p | 0 <= p < MAX_PORTS ensures PortAt(s', p) {
        assert old(PortAt(s, p));
      }
    }

    /** port_create when the queue memory is granted. */
    method PortCreate(owner: int, blank: Message, ghost s: State) returns (p: int)
      requires Represents(s)
      modifies this`portCount, this`queues, table
      ensures Represents(CreatePort(s, owner, Cleared(blank)).0) && p == CreatePort(s, owner, Cleared(blank)).1
      ensures fresh(queues - old(queues))
    {
      if portCount >= MAX_PORTS {
        return -1;
      }
      p := FindPort(0, s);
      if p >= 0 {
        var q := GrantQueue(blank, s);
        ghost var port := FreshPort(owner, Cleared(blank));
        WriteEntry(p, PortEntry(owner, q, 0, 0, 0, 0), port, s);
        Recount(portCount + 1, s.(ports := s.ports[p := port]));
      }
    }

    /** port_destroy: registered waiters are woken and the struct is cleared. */
    method PortDestroy(p: int, ghost s: State) returns (r: int)
      requires Represents(s)
      modifies this`portCount, table, sched.chain`data
      ensures Represents(DestroyPort(s, p).0) && r == DestroyPort(s, p).1
    {
      if p < 0 || p >= MAX_PORTS {
        return -1;
      }
      var e := ReadPort(p, s);
      if e.owner == 0 {
        return -1;
      }
      DestroyPortForm(s, p);
      WakeIfAny(e.waitingSender, s);
      ghost var s1 := s.(tasks := WokenIfAny(s.tasks, e.waitingSender));
      WakeIfAny(e.waitingReceiver, s1);
      ClearEntry(p, s1.(tasks := WokenIfAny(s1.tasks, e.waitingReceiver)));
      return 0;
    }

    /** Waking the task a waiter slot names, if it names one. */
    method WakeIfAny(id: nat, ghost s: State)
      requires Represents(s)
      modifies sched.chain`data
      ensures Represents(s.(tasks := WokenIfAny(s.tasks, id)))
    {
      if id != 0 {
        Unblock(id, s);
      }
    }

    /** The struct is cleared and the count lowered. */
    method ClearEntry(p: nat, ghost s: State)
      requires Represents(s) && p < MAX_PORTS
      modifies this`portCount, table
      ensures Represents(s.(ports := s.ports[p := FreshPort(0, s.ports[p].ring.slots)], portCount := s.portCount - 1))
    {
      ghost var port := FreshPort(0, s.ports[p].ring.slots);
      WriteEntry(p, PortEntry(0, null, 0, 0, 0, 0), port, s);
      Recount(portCount - 1, s.(ports := s.ports[p := port]));
    }

    /** Scheduler entries that may relink the list, beside the ports. */
    method Wait(pid: int, ghost s: State) returns (r: int, status: int)
      requires Represents(s) && Inv(s) && Entering(s, InWait(pid))
      modifies sched, sched.chain
      ensures Represents(WaitPass(s, pid).0) && r == WaitPass(s, pid).1 && status == WaitPass(s, pid).2
      ensures sched.Nodes() <= old(sched.Nodes())
    {
      r, status := sched.TaskWait(pid, s);
      SamePorts(s, WaitPass(s, pid).0);
    }

    /** Create, fork or destroy a task, exit, yield or tick. */
    method TaskCall(a: Action, ghost s: State)
      requires Represents(s) && Inv(s) && Enabled(s, a)
      requires IsTaskCall(a)
      modifies sched, sched.chain
      ensures RingsValid(s) && Represents(Step(s, a))
      ensures queues == old(queues) && fresh(sched.Nodes() - old(sched.Nodes()))
    {
      RingsAreValid(s);
      sched.Call(a, s);
      TaskCallPorts(s, a);
      SamePorts(s, Step(s, a));
    }

    /** Any enabled kernel entry: memory takes exactly that step. */
    method Perform(a: Action, blank: Message, ghost s: State)
      requires Represents(s) && Inv(s) && Enabled(s, a) && (a.DoCreatePort? ==> a.slots == Cleared(blank))
      modifies this, table, queues, sched, sched.chain
      ensures RingsValid(s) && Represents(Step(s, a))
      ensures fresh(queues - old(queues))
      ensures fresh(sched.Nodes() - old(sched.Nodes()))
    {
      RingsAreValid(s);
      if a.DoWait? {
        var _, _ := Wait(a.pid, s);
      } else if a.Resume? {
        Continue(s);
      } else if IsTaskCall(a) {
        TaskCall(a, s);
      } else {
        PortCall(a, blank, s);
      }
    }

    /** Send, receive, reply, create or destroy a port. */
    method PortCall(a: Action, blank: Message, ghost s: State)
      requires Represents(s) && RingsValid(s) && (a.DoCreatePort? ==> a.slots == Cleared(blank))
      requires a.DoSend? || a.DoReceive? || a.DoReply? || a.DoCreatePort? || a.DoDestroyPort?
      modifies this, table, queues, sched`currentTask, sched.chain`data
      ensures Represents(Step(s, a))
      ensures fresh(queues - old(queues)) && sched.Nodes() == old(sched.Nodes())
    {
      match a {
        case DoSend(p, m, nonblock) => var _ := MsgSend(p, m, nonblock, s);
        case DoReceive(p, nonblock) => var _, _ := MsgReceive(p, nonblock, s);
        case DoReply(dest, m) => var _ := MsgReply(dest, m, s);
        case DoCreatePort(owner, slots) => var _ := PortCreate(owner, blank, s);
        case DoDestroyPort(p) => var _ := PortDestroy(p, s);
      }
    }

    /** The switched-in task goes round its loop again. */
    method Continue(ghost s: State)
      requires Represents(s) && Inv(s) && Enabled(s, Resume)
      modifies table, queues, sched, sched.chain
      ensures RingsValid(s) && Represents(Again(s))
      ensures queues == old(queues) && sched.Nodes() <= old(sched.Nodes())
    {
      RingsAreValid(s);
      var d := sched.ReadCurrent(s);
      match d.at {
        case InSend(p, m) => var _ := MsgSend(p, m, false, s);
        case InReceive(p) => var _, _ := MsgReceive(p, false, s);
        case InWait(pid) => var _, _ := Wait(pid, s);
      }
    }

    /**
     From boot, memory follows every run: after k entries it represents the run's k-th state, where the
     invariant holds.
     */
    method Follow(actions: seq<Action>, blank: Message, ghost states: seq<State>)
      requires IsRun(states, actions) && Represents(states[0])
      requires forall k :: 0 <= k < |actions| && actions[k].DoCreatePort? ==> actions[k].slots == Cleared(blank)
      modifies this, table, queues, sched, sched.chain
      ensures Represents(states[|actions|]) && Inv(states[|actions|])
    {
      for k := 0 to |actions|
        invariant Represents(states[k])
        invariant fresh(queues - old(queues)) && fresh(sched.Nodes() - old(sched.Nodes()))
      {
        RunKeeps(states, actions, k);
        Perform(actions[k], blank, states[k]);
      }
      RunKeeps(states, actions, |actions|);
    }
  }
}
