/**
 The scheduler and the IPC ports as one state value, and each kernel entry as a function on it.
 A call that blocks is cut at schedule(): one function covers one pass of the source's retry
 loop, and the task's `at` field remembers which loop it is in.
 */
module KernelSteps {
  import opened MessageRing

  const MAX_PORTS: nat := 256
  const TIME_SLICE: nat := 10

  /** Result of a pass that blocked: the loop goes round again when the task next runs. */
  const PARKED: int := -3

  datatype Option<+T> = None | Some(value: T)

  datatype TaskState = Running | Ready | Blocked | Zombie

  /** Where a task is: outside the kernel, or inside one of the blocking loops. */
  datatype Activity = Outside | InSend(port: nat, msg: Message) | InReceive(port: nat) | InWait(pid: int)

  /** A task's process id equals its task id (sched.c assigns both from next_tid). */
  datatype Task = Task(id: nat, parent: int, state: TaskState, priority: nat, timeSlice: nat, exitCode: int,
                       waitingFor: int, at: Activity)

  /** `sent` and `received` are history variables; an owner of 0 marks a free table entry. */
  datatype Port = Port(owner: int, ring: Ring, waitingSender: nat, waitingReceiver: nat, sent: seq<Message>,
      received: seq<Message>)

  datatype Reap = Reap(parent: nat, child: nat, code: int)

  /**
   `tasks` is the task list, newest first; `current` is the id of the current task, 0 for none.
   `exits` (task to parent and code) and `reaps` are history variables.
   */
  datatype State = State(tasks: seq<Task>, current: nat, nextTid: nat, ports: seq<Port>, portCount: int,
                         exits: map<nat, (int, int)>, reaps: seq<Reap>)

  // ---------------------------------------------------------------- task list

  /** The first task with the given id, or -1. */
  function IndexOf(ts: seq<Task>, id: int): (r: int)
    ensures -1 <= r < |ts|
    ensures r >= 0 ==> ts[r].id == id && forall j :: 0 <= j < r ==> ts[j].id != id
    ensures r < 0 ==> forall j :: 0 <= j < |ts| ==> ts[j].id != id
  {
    if ts == [] then -1
    else if ts[0].id == id then 0
    else
      var k := IndexOf(ts[1..], id);
      assert forall j :: 1 <= j < |ts| ==> ts[j] == ts[1..][j - 1];
      if k < 0 then -1 else k + 1
  }

  function Remove(ts: seq<Task>, i: nat): seq<Task>
    requires i < |ts|
  {
    ts[..i] + ts[i + 1..]
  }

  function Unblocked(ts: seq<Task>, id: int): seq<Task> {
    var i := IndexOf(ts, id);
    if i >= 0 then ts[i := ts[i].(state := Ready)] else ts
  }

  /** pick_next_task over the first k tasks: the first READY task of maximal priority, or -1. */
  function PickUpTo(ts: seq<Task>, k: nat): (r: int)
    requires k <= |ts|
    ensures -1 <= r < k
    ensures r >= 0 ==> ts[r].state == Ready
  {
    if k == 0 then -1
    else
      var b := PickUpTo(ts, k - 1);
      if ts[k - 1].state == Ready && (b < 0 || ts[k - 1].priority > ts[b].priority) then k - 1 else b
  }

  function PickNext(ts: seq<Task>): int {
    PickUpTo(ts, |ts|)
  }

  lemma {:induction false} PickIsBest(ts: seq<Task>, k: nat)
    requires k <= |ts|
    ensures var r := PickUpTo(ts, k);
            && (r < 0 ==> forall i :: 0 <= i < k ==> ts[i].state != Ready)
            && (r >= 0 ==> forall i :: 0 <= i < k && ts[i].state == Ready ==>
                                         ts[i].priority <= ts[r].priority
                                             && (i < r ==> ts[i].priority < ts[r].priority))
  {
    if k > 0 {
      PickIsBest(ts, k - 1);
    }
  }

  /** Index of the current task, or -1. */
  function Cur(s: State): (c: int)
    ensures -1 <= c < |s.tasks|
    ensures c >= 0 ==> s.current != 0 && s.tasks[c].id == s.current
  {
    if s.current == 0 then -1 else IndexOf(s.tasks, s.current)
  }

  /** Record where the current task is; only the ghost program counter changes. */
  function At(s: State, where: Activity): State {
    var c := Cur(s);
    if c >= 0 then s.(tasks := s.tasks[c := s.tasks[c].(at := where)]) else s
  }

  function Schedule(s: State): State {
    var n := PickNext(s.tasks);
    if n < 0 then s
    else
      var c := Cur(s);
      var ts := if c >= 0 && s.tasks[c].state == Running then s.tasks[c := s.tasks[c].(state := Ready)] else s.tasks;
      s.(tasks := ts[n := ts[n].(state := Running, timeSlice := TIME_SLICE)], current := ts[n].id)
  }

  /** The current task goes BLOCKED inside the given loop, before schedule(). */
  function Parked(s: State, where: Activity): State {
    var c := Cur(s);
    if c >= 0 then s.(tasks := s.tasks[c := s.tasks[c].(state := Blocked, at := where)]) else s
  }

  // --------------------------------------------------------------------- ports

  predicate PortExists(s: State, p: int) {
    0 <= p < |s.ports| && s.ports[p].owner != 0
  }

  /** The message goes in, and a registered receiver is made READY and unregistered. */
  function Deliver(s: State, p: nat, m: Message): State
    requires PortExists(s, p) && s.ports[p].ring.Valid()
  {
    var port := s.ports[p];
    var ts := if port.waitingReceiver != 0 then Unblocked(s.tasks, port.waitingReceiver) else s.tasks;
    s.(tasks := ts, ports := s.ports[p := port.(ring := port.ring.Push(m), waitingReceiver := 0,
        sent := port.sent + [m])])
  }

  /** The oldest message comes out, and a registered sender is made READY and unregistered. */
  function Accept(s: State, p: nat): State
    requires PortExists(s, p) && s.ports[p].ring.Valid()
  {
    var port := s.ports[p];
    var m := port.ring.slots[port.ring.head];
    var ts := if port.waitingSender != 0 then Unblocked(s.tasks, port.waitingSender) else s.tasks;
    s.(tasks := ts, ports := s.ports[p := port.(ring := port.ring.Pop(), waitingSender := 0,
        received := port.received + [m])])
  }

  function RegisterSender(s: State, p: nat): State
    requires p < |s.ports|
  {
    s.(ports := s.ports[p := s.ports[p].(waitingSender := s.current)])
  }

  function RegisterReceiver(s: State, p: nat): State
    requires p < |s.ports|
  {
    s.(ports := s.ports[p := s.ports[p].(waitingReceiver := s.current)])
  }

  predicate RingsValid(s: State) {
    forall p :: 0 <= p < |s.ports| && s.ports[p].owner != 0 ==> s.ports[p].ring.Valid()
  }

  /** One pass of msg_send: 0 sent, -1 no such port, -2 full, or PARKED. */
  function SendPass(s: State, p: int, m: Message, nonblock: bool): (State, int)
    requires RingsValid(s)
  {
    if !PortExists(s, p) then (At(s, Outside), -1)
    else if s.ports[p].ring.Full() then
      if nonblock || Cur(s) < 0 then (At(s, Outside), -2)
      else (Schedule(Parked(RegisterSender(s, p), InSend(p, m))), PARKED)
    else (Deliver(At(s, Outside), p, m), 0)
  }

  /** One pass of msg_receive. */
  function ReceivePass(s: State, p: int, nonblock: bool): (State, int, Option<Message>)
    requires RingsValid(s)
  {
    if !PortExists(s, p) then (At(s, Outside), -1, None)
    else if s.ports[p].ring.Empty() then
      if nonblock || Cur(s) < 0 then (At(s, Outside), -2, None)
      else (Schedule(Parked(RegisterReceiver(s, p), InReceive(p))), PARKED, None)
    else
      var ring := s.ports[p].ring;
      (Accept(At(s, Outside), p), 0, Some(ring.slots[ring.head]))
  }

  /** The first port whose owner is dest, or -1. */
  function PortOf(ps: seq<Port>, dest: int): (r: int)
    ensures -1 <= r < |ps|
    ensures r >= 0 ==> ps[r].owner == dest && forall j :: 0 <= j < r ==> ps[j].owner != dest
    ensures r < 0 ==> forall j :: 0 <= j < |ps| ==> ps[j].owner != dest
  {
    if ps == [] then -1
    else if ps[0].owner == dest then 0
    else
      var k := PortOf(ps[1..], dest);
      assert forall j :: 1 <= j < |ps| ==> ps[j] == ps[1..][j - 1];
      if k < 0 then -1 else k + 1
  }

  function Reply(s: State, dest: int, m: Message): (State, int)
    requires RingsValid(s)
  {
    var p := PortOf(s.ports, dest);
    if p < 0 then (s, -1) else SendPass(s, p, m, true)
  }

  function FreshPort(owner: int, slots: seq<Message>): Port {
    Port(owner, Ring(slots, 0, 0), 0, 0, [], [])
  }

  /** port_create with a successful queue allocation holding the given (cleared) slots. */
  function CreatePort(s: State, owner: int, slots: seq<Message>): (State, int) {
    if s.portCount >= MAX_PORTS then (s, -1)
    else
      var p := PortOf(s.ports, 0);
      if p < 0 then (s, -1)
      else (s.(ports := s.ports[p := FreshPort(owner, slots)], portCount := s.portCount + 1), p)
  }

  /** port_destroy: registered waiters are made READY, then the entry is cleared. */
  function DestroyPort(s: State, p: int): (State, int) {
    if !PortExists(s, p) then (s, -1)
    else
      var port := s.ports[p];
      var ts := if port.waitingSender != 0 then Unblocked(s.tasks, port.waitingSender) else s.tasks;
      var ts' := if port.waitingReceiver != 0 then Unblocked(ts, port.waitingReceiver) else ts;
      (s.(tasks := ts', ports := s.ports[p := FreshPort(0, port.ring.slots)], portCount := s.portCount - 1), 0)
  }

  // ------------------------------------------------------------ task lifecycle

  /** Which allocation of task_create or task_fork fails, if any; the id is taken before the stacks. */
  datatype Supply = Enough | NoTask | NoStack

  function CreateTask(s: State, priority: nat, supply: Supply): State {
    match supply
    case NoTask => s
    case NoStack => s.(nextTid := s.nextTid + 1)
    case Enough =>
      var t := Task(s.nextTid, s.current, Ready, priority, TIME_SLICE, 0, 0, Outside);
      s.(tasks := [t] + s.tasks, nextTid := s.nextTid + 1)
  }

  /** The child's record: a copy of the parent with a new identity and fresh scheduling fields. */
  function ForkOf(t: Task, id: nat): Task {
    t.(id := id, parent := t.id, state := Ready, timeSlice := TIME_SLICE, exitCode := 0, waitingFor := 0, at := Outside)
  }

  /** task_fork: the child copies the current task and returns 0 to it later; here, the parent's result. */
  function Fork(s: State, supply: Supply): (State, int) {
    var c := Cur(s);
    if c < 0 then (s, -1)
    else
      match supply
      case NoTask => (s, -1)
      case NoStack => (s.(nextTid := s.nextTid + 1), -1)
      case Enough =>
        (s.(tasks := [ForkOf(s.tasks[c], s.nextTid)] + s.tasks, nextTid := s.nextTid + 1), s.nextTid as int)
  }

  function DestroyTask(s: State, id: int): State {
    var i := IndexOf(s.tasks, id);
    if i < 0 then s else s.(tasks := Remove(s.tasks, i))
  }

  /** task_exit: zombie, exit code, and a parent blocked in a matching wait becomes READY. */
  function ExitTask(s: State, id: int, code: int): State {
    var i := IndexOf(s.tasks, id);
    if i < 0 then s
    else
      var t := s.tasks[i];
      var ts := s.tasks[i := t.(state := Zombie, exitCode := code)];
      var j := IndexOf(ts, t.parent);
      var ts' := if j >= 0 && ts[j].state == Blocked && (ts[j].waitingFor == t.id || ts[j].waitingFor == -1)
                 then ts[j := ts[j].(state := Ready)] else ts;
      s.(tasks := ts', exits := s.exits[t.id := (t.parent, code)])
  }

  predicate Matches(t: Task, parent: nat, pid: int) {
    t.parent == parent && (pid == -1 || t.id == pid)
  }

  /** The first child of parent that matches pid (and is a zombie, if asked), or -1. */
  function FindChild(ts: seq<Task>, parent: nat, pid: int, zombie: bool): (r: int)
    ensures -1 <= r < |ts|
    ensures r >= 0 ==> Matches(ts[r], parent, pid) && (zombie ==> ts[r].state == Zombie)
    ensures r < 0 ==> forall j :: 0 <= j < |ts| ==> !(Matches(ts[j], parent, pid) && (zombie ==> ts[j].state == Zombie))
    ensures forall j :: 0 <= j < r ==> !(Matches(ts[j], parent, pid) && (zombie ==> ts[j].state == Zombie))
  {
    if ts == [] then -1
    else if Matches(ts[0], parent, pid) && (zombie ==> ts[0].state == Zombie) then 0
    else
      var k := FindChild(ts[1..], parent, pid, zombie);
      assert forall j :: 1 <= j < |ts| ==> ts[j] == ts[1..][j - 1];
      if k < 0 then -1 else k + 1
  }

  /** The zombie at index i is removed and its code handed to the current task. */
  function ReapAt(s: State, i: nat): State
    requires i < |s.tasks|
  {
    var t := s.tasks[i];
    s.(tasks := Remove(s.tasks, i), reaps := s.reaps + [Reap(s.current, t.id, t.exitCode)])
  }

  function SetWaitingFor(s: State, pid: int): State {
    var c := Cur(s);
    if c >= 0 then s.(tasks := s.tasks[c := s.tasks[c].(waitingFor := pid)]) else s
  }

  /** One pass of task_wait: the reaped child and its code, -1 without matching children, or PARKED. */
  function WaitPass(s: State, pid: int): (State, int, int) {
    if Cur(s) < 0 then (s, -1, 0)
    else
      var z := FindChild(s.tasks, s.current, pid, true);
      if z >= 0 then (ReapAt(At(s, Outside), z), s.tasks[z].id, s.tasks[z].exitCode)
      else if FindChild(s.tasks, s.current, pid, false) < 0 then (At(s, Outside), -1, 0)
      else (Schedule(Parked(SetWaitingFor(s, pid), InWait(pid))), PARKED, 0)
  }

  /** sched_tick on the time slice (the tick counters are not kept). */
  function Tick(s: State): State {
    var c := Cur(s);
    if c < 0 then s
    else
      var left := if s.tasks[c].timeSlice > 0 then s.tasks[c].timeSlice - 1 else 0;
      var s' := s.(tasks := s.tasks[c := s.tasks[c].(timeSlice := left)]);
      if left == 0 then Schedule(s') else s'
  }
}
