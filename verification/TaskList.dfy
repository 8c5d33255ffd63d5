/**
 The scheduler in memory: task structs linked by `next`, newest first, with pointers to the head of the
 list and to the current task. Every operation walks and rewrites the list in place, and is proved to
 take the list from one that represents a state to one that represents the state after the step.
 */
module TaskList {
  import opened MessageRing
  import opened KernelSteps
  import opened KernelInvariants
  import opened KernelRuns

  /** struct task: its scalar fields, and the link. */
  class TaskNode {
    var data: Task
    var next: TaskNode?

    constructor (data: Task, next: TaskNode?)
      ensures this.data == data && this.next == next
    {
      this.data, this.next := data, next;
    }
  }

  /** The k-th node of a chain, or NULL past its end. */
  function NodeAt(chain: seq<TaskNode>, k: nat): TaskNode? {
    if k < |chain| then chain[k] else null
  }

  ghost predicate Link(chain: seq<TaskNode>, k: nat)
    requires k < |chain|
    reads chain[k]
  {
    chain[k].next == NodeAt(chain, k + 1)
  }

  /** The nodes are linked in order, each once. */
  ghost predicate Linked(chain: seq<TaskNode>)
    reads chain
  {
    Distinct(chain) && forall k {:trigger Link(chain, k)} :: 0 <= k < |chain| ==> Link(chain, k)
  }

  ghost predicate Distinct(chain: seq<TaskNode>) {
    forall i, j :: 0 <= i < j < |chain| ==> chain[i] != chain[j]
  }

  ghost predicate Record(chain: seq<TaskNode>, ts: seq<Task>, k: nat)
    requires k < |chain| && k < |ts|
    reads chain[k]
  {
    chain[k].data == ts[k]
  }

  /** The nodes hold the given tasks, in order. */
  ghost predicate Records(chain: seq<TaskNode>, ts: seq<Task>)
    reads chain
  {
    |ts| == |chain| && forall k {:trigger Record(chain, ts, k)} :: 0 <= k < |chain| ==> Record(chain, ts, k)
  }

  /** Ids are positive, different and below the next one. */
  ghost predicate IdsOk(ts: seq<Task>, nextTid: nat) {
    && (forall i :: 0 <= i < |ts| ==> 0 < ts[i].id < nextTid)
    && (forall i, j :: 0 <= i < j < |ts| ==> ts[i].id != ts[j].id)
  }

  lemma IndexOfIs(ts: seq<Task>, id: int, i: nat)
    requires i <= |ts| && (forall j :: 0 <= j < i ==> ts[j].id != id) && (i < |ts| ==> ts[i].id == id)
    ensures IndexOf(ts, id) == if i < |ts| then i else -1
  {
  }

  lemma RemovedNode(chain: seq<TaskNode>, i: nat)
    requires Distinct(chain) && i < |chain|
    ensures Distinct(chain[..i] + chain[i + 1..]) && chain[i] !in chain[..i] + chain[i + 1..]
  {
    var r := chain[..i] + chain[i + 1..];
    forall k | 0 <= k < |r| ensures r[k] == chain[if k < i then k else k + 1] {
    }
  }

  lemma RemovedIds(ts: seq<Task>, nextTid: nat, i: nat)
    requires IdsOk(ts, nextTid) && i < |ts|
    ensures IdsOk(Remove(ts, i), nextTid)
  {
    var r := Remove(ts, i);
    forall k | 0 <= k < |r| ensures r[k] == ts[if k < i then k else k + 1] {
    }
  }

  lemma RemovedCurrent(s: State, i: nat)
    requires IdsOk(s.tasks, s.nextTid) && i < |s.tasks| && Cur(s) >= 0 && Cur(s) != i
    ensures Cur(s.(tasks := Remove(s.tasks, i))) == if Cur(s) < i then Cur(s) else Cur(s) - 1
  {
    RemovedIds(s.tasks, s.nextTid, i);
    IndexOfIs(Remove(s.tasks, i), s.current, if Cur(s) < i then Cur(s) else Cur(s) - 1);
  }

  lemma PushedIds(ts: seq<Task>, nextTid: nat, d: Task)
    requires IdsOk(ts, nextTid) && d.id == nextTid > 0
    ensures IdsOk([d] + ts, nextTid + 1)
  {
    var r := [d] + ts;
    forall k | 0 < k < |r| ensures r[k] == ts[k - 1] {
    }
  }

  lemma PushedCurrent(s: State, d: Task)
    requires IdsOk(s.tasks, s.nextTid) && d.id == s.nextTid && Cur(s) >= 0
    ensures Cur(s.(tasks := [d] + s.tasks, nextTid := s.nextTid + 1)) == Cur(s) + 1
  {
    var ts := [d] + s.tasks;
    forall j | 0 <= j < Cur(s) + 1 ensures ts[j].id != s.current {
      assert j > 0 ==> ts[j] == s.tasks[j - 1];
    }
    IndexOfIs(ts, s.current, Cur(s) + 1);
  }

  /** A zombie child is not the task that waits for it. */
  lemma ZombieIsOther(s: State, pid: int)
    requires Inv(s) && Entering(s, InWait(pid)) && Cur(s) >= 0 && FindChild(s.tasks, s.current, pid, true) >= 0
    ensures FindChild(s.tasks, s.current, pid, true) != Cur(s)
  {
    LeaveWait(s, pid);
  }

  /** A new first node in front of a linked chain. */
  lemma PushedLinks(chain: seq<TaskNode>, ts: seq<Task>, t: TaskNode, d: Task)
    requires Linked(chain) && Records(chain, ts) && t !in chain && t.data == d && t.next == NodeAt(chain, 0)
    ensures Linked([t] + chain) && Records([t] + chain, [d] + ts)
  {
    var r := [t] + chain;
    forall k | 0 <= k < |r| ensures Record(r, [d] + ts, k) && Link(r, k) {
      assert k > 0 ==> Record(chain, ts, k - 1) && Link(chain, k - 1);
    }
  }

  /** Entries that concern tasks only. */
  predicate IsTaskCall(a: Action) {
    a.DoCreateTask? || a.DoFork? || a.DoDestroyTask? || a.DoExit? || a.DoYield? || a.DoTick?
  }

  lemma TaskCallPorts(s: State, a: Action)
    requires RingsValid(s) && IsTaskCall(a)
    ensures Step(s, a).ports == s.ports && Step(s, a).portCount == s.portCount
  {
  }

  class Scheduler {
    var taskQueue: TaskNode?
    var currentTask: TaskNode?
    var nextTid: nat

    /** The list, node by node. */
    ghost var chain: seq<TaskNode>

    ghost function Nodes(): set<TaskNode>
      reads this
    {
      set n | n in chain
    }

    /** currentTask points to the node of the state's current task. */
    ghost predicate CurrentIs(s: State)
      reads this
    {
      if currentTask == null then s.current == 0
      else Cur(s) >= 0 && Cur(s) < |chain| && chain[Cur(s)] == currentTask
    }

    /** The list in memory is the task list of the state. */
    ghost predicate Represents(s: State)
      reads this, chain
    {
      && taskQueue == NodeAt(chain, 0) && Linked(chain) && Records(chain, s.tasks)
      && nextTid == s.nextTid && IdsOk(s.tasks, s.nextTid) && CurrentIs(s)
    }

    /** sched_init. */
    constructor ()
      ensures forall s: State :: s.tasks == [] && s.current == 0 && s.nextTid == 1 ==> Represents(s)
      ensures chain == []
    {
      taskQueue, currentTask, nextTid := null, null, 1;
      chain := [];
    }

    /** The walk of task_find, sched_unblock and task_exit. */
    method FindTask(id: int, ghost s: State) returns (t: TaskNode?, ghost i: int)
      requires Represents(s)
      ensures i == IndexOf(s.tasks, id) && t == if i >= 0 then chain[i] else null
    {
      t := taskQueue;
      ghost var k := 0;
      while t != null
        invariant 0 <= k <= |chain| && t == NodeAt(chain, k)
        invariant forall j :: 0 <= j < k ==> s.tasks[j].id != id
        decreases |chain| - k
      {
        assert Record(chain, s.tasks, k) && Link(chain, k);
        if t.data.id == id {
          IndexOfIs(s.tasks, id, k);
          return t, k;
        }
        t := t.next;
        k := k + 1;
      }
      IndexOfIs(s.tasks, id, k);
      return null, -1;
    }

    /** pick_next_task. */
    method PickNextTask(ghost s: State) returns (best: TaskNode?, ghost b: int)
      requires Represents(s)
      ensures b == PickNext(s.tasks) && best == if b >= 0 then chain[b] else null
    {
      best, b := null, -1;
      var t := taskQueue;
      ghost var k := 0;
      while t != null
        invariant 0 <= k <= |chain| && t == NodeAt(chain, k)
        invariant b == PickUpTo(s.tasks, k) && best == if b >= 0 then chain[b] else null
        decreases |chain| - k
      {
        assert Record(chain, s.tasks, k) && Link(chain, k);
        assert b >= 0 ==> Record(chain, s.tasks, b);
        if t.data.state == Ready {
          if best == null || t.data.priority > best.data.priority {
            best, b := t, k;
          }
        }
        t := t.next;
        k := k + 1;
      }
    }

    /** Writing fields of one struct, other than its id and its link. */
    method Write(t: TaskNode, d: Task, ghost i: nat, ghost s: State)
      requires Represents(s) && i < |chain| && chain[i] == t && d.id == s.tasks[i].id
      modifies t`data
      ensures Represents(s.(tasks := s.tasks[i := d])) && Cur(s.(tasks := s.tasks[i := d])) == Cur(s)
    {
      t.data := d;
      ghost var ts := s.tasks[i := d];
      forall k | 0 <= k < |chain| ensures Record(chain, ts, k) && Link(chain, k) {
        assert old(Record(chain, s.tasks, k)) && old(Link(chain, k));
      }
      SameIds(s.tasks, ts, s.current);
    }

    /** schedule(). */
    method Reschedule(ghost s: State)
      requires Represents(s)
      modifies this`currentTask, chain`data
      ensures Represents(Schedule(s))
    {
      if taskQueue == null {
        return;
      }
      var next, n := PickNextTask(s);
      if next == null {
        return;
      }
      ghost var s1, c := s, Cur(s);
      if currentTask != null {
        var d := ReadCurrent(s);
        if d.state == Running {
          WriteCurrent(d.(state := Ready), s);
          s1 := s.(tasks := s.tasks[c := d.(state := Ready)]);
        }
      }
      Dispatch(next, n, s1);
    }

    /** The chosen task is made RUNNING and current. */
    method Dispatch(next: TaskNode, ghost n: nat, ghost s: State)
      requires Represents(s) && n < |chain| && chain[n] == next
      modifies this`currentTask, next`data
      ensures Represents(s.(tasks := s.tasks[n := s.tasks[n].(state := Running, timeSlice := TIME_SLICE)],
          current := s.tasks[n].id))
    {
      assert Record(chain, s.tasks, n);
      var d := next.data.(state := Running, timeSlice := TIME_SLICE);
      Write(next, d, n, s);
      currentTask := next;
      IndexOfIs(s.tasks[n := d], s.tasks[n].id, n);
    }

    /** The current task's struct is written. */
    method WriteCurrent(d: Task, ghost s: State)
      requires Represents(s) && currentTask != null && d.id == s.current
      modifies currentTask`data
      ensures Represents(s.(tasks := s.tasks[Cur(s) := d])) && Cur(s.(tasks := s.tasks[Cur(s) := d])) == Cur(s)
    {
      assert Record(chain, s.tasks, Cur(s));
      Write(currentTask, d, Cur(s), s);
    }

    /** The current task's record. */
    method ReadCurrent(ghost s: State) returns (d: Task)
      requires Represents(s) && currentTask != null
      ensures d == currentTask.data == s.tasks[Cur(s)] && d.id == s.current
    {
      assert Record(chain, s.tasks, Cur(s));
      d := currentTask.data;
    }

    /** The id of the current task, 0 for none. */
    method CurrentId(ghost s: State) returns (id: nat)
      requires Represents(s)
      ensures id == s.current
    {
      if currentTask == null {
        return 0;
      }
      var d := ReadCurrent(s);
      return d.id;
    }

    /** sched_block, called from inside the given loop. */
    method SchedBlock(where: Activity, ghost s: State)
      requires Represents(s)
      modifies this`currentTask, chain`data
      ensures Represents(if Cur(s) >= 0 then Schedule(Parked(s, where)) else s)
    {
      if currentTask != null {
        var d := ReadCurrent(s);
        WriteCurrent(d.(state := Blocked, at := where), s);
        Reschedule(Parked(s, where));
      }
    }

    /** sched_unblock: no look at the task's state. */
    method SchedUnblock(id: int, ghost s: State)
      requires Represents(s)
      modifies chain`data
      ensures Represents(s.(tasks := Unblocked(s.tasks, id)))
    {
      var t, i := FindTask(id, s);
      if t != null {
        assert Record(chain, s.tasks, i);
        Write(t, t.data.(state := Ready), i, s);
      }
    }

    /** The current task's call returns to its caller. */
    method Return(ghost s: State)
      requires Represents(s)
      modifies chain`data
      ensures Represents(At(s, Outside))
    {
      if currentTask != null {
        var d := ReadCurrent(s);
        WriteCurrent(d.(at := Outside), s);
      }
    }

    /** A new struct at the head of the list. */
    method Push(d: Task, ghost s: State)
      requires Represents(s) && d.id == s.nextTid > 0
      modifies this`taskQueue, this`chain, this`nextTid
      ensures Represents(s.(tasks := [d] + s.tasks, nextTid := s.nextTid + 1))
      ensures |chain| > 0 && chain == [chain[0]] + old(chain) && fresh(chain[0])
    {
      var t := new TaskNode(d, taskQueue);
      PushedLinks(chain, s.tasks, t, d);
      PushedIds(s.tasks, s.nextTid, d);
      if currentTask != null {
        PushedCurrent(s, d);
      }
      taskQueue := t;
      nextTid := nextTid + 1;
      chain := [t] + chain;
    }

    /** task_create and task_create_user; the id is taken before the stack is allocated. */
    method TaskCreate(priority: nat, supply: Supply, ghost s: State)
      requires Represents(s) && nextTid > 0
      modifies this`taskQueue, this`chain, this`nextTid
      ensures Represents(CreateTask(s, priority, supply))
      ensures fresh(Nodes() - old(Nodes()))
    {
      if supply == NoTask {
        return;
      }
      if supply == NoStack {
        nextTid := nextTid + 1;
        return;
      }
      var parent := CurrentId(s);
      Push(Task(nextTid, parent, Ready, priority, TIME_SLICE, 0, 0, Outside), s);
    }

    /** task_fork. */
    method TaskFork(supply: Supply, ghost s: State) returns (r: int)
      requires Represents(s) && nextTid > 0
      modifies this`taskQueue, this`chain, this`nextTid
      ensures Represents(Fork(s, supply).0) && r == Fork(s, supply).1
      ensures fresh(Nodes() - old(Nodes()))
    {
      if currentTask == null || supply == NoTask {
        return -1;
      }
      var d := ReadCurrent(s);
      if supply == NoStack {
        nextTid := nextTid + 1;
        return -1;
      }
      r := nextTid;
      Push(d.(id := nextTid, parent := d.id, state := Ready, timeSlice := TIME_SLICE, exitCode := 0, waitingFor := 0,
          at := Outside), s);
    }

    /** The unlinking of task_destroy: the previous node, or the head, skips the removed one. */
    method Unlink(prev: TaskNode?, t: TaskNode, ghost i: nat, ghost s: State)
      requires Represents(s) && i < |chain| && chain[i] == t && prev == (if i > 0 then chain[i - 1] else null)
      requires currentTask != t
      modifies this`taskQueue, this`chain, chain`next
      ensures Represents(s.(tasks := Remove(s.tasks, i)))
      ensures chain == old(chain)[..i] + old(chain)[i + 1..]
    {
      assert Link(chain, i);
      ghost var was, c := chain, Cur(s);
      if prev != null {
        prev.next := t.next;
      } else {
        taskQueue := t.next;
      }
      chain := chain[..i] + chain[i + 1..];
      RemovedNode(was, i);
      RemovedIds(s.tasks, s.nextTid, i);
      forall k | 0 <= k < |chain| ensures Record(chain, Remove(s.tasks, i), k) && Link(chain, k) {
        ghost var k' := if k < i then k else k + 1;
        assert chain[k] == was[k'] && old(Record(chain, s.tasks, k')) && old(Link(chain, k'));
      }
      if currentTask != null {
        RemovedCurrent(s, i);
      }
    }

    /** task_destroy of a task other than the current one. */
    method TaskDestroy(id: int, ghost s: State)
      requires Represents(s) && (id != s.current || s.current == 0)
      modifies this`taskQueue, this`chain, chain`next
      ensures Represents(DestroyTask(s, id))
      ensures Nodes() <= old(Nodes())
    {
      var prev: TaskNode? := null;
      var t := taskQueue;
      ghost var k := 0;
      while t != null
        invariant 0 <= k <= |chain| && t == NodeAt(chain, k) && prev == (if k > 0 then chain[k - 1] else null)
        invariant chain == old(chain) && Represents(s)
        invariant forall j :: 0 <= j < k ==> s.tasks[j].id != id
        decreases |chain| - k
      {
        assert Record(chain, s.tasks, k) && Link(chain, k);
        if t.data.id == id {
          IndexOfIs(s.tasks, id, k);
          Unlink(prev, t, k, s);
          return;
        }
        prev := t;
        t := t.next;
        k := k + 1;
      }
      IndexOfIs(s.tasks, id, k);
    }

    /** task_exit. */
    method TaskExit(id: int, code: int, ghost s: State)
      requires Represents(s)
      modifies chain`data
      ensures Represents(ExitTask(s, id, code))
    {
      var t, i := FindTask(id, s);
      if t == null {
        return;
      }
      assert Record(chain, s.tasks, i);
      Write(t, t.data.(state := Zombie, exitCode := code), i, s);
      ghost var s1 := s.(tasks := s.tasks[i := s.tasks[i].(state := Zombie, exitCode := code)]);
      assert Record(chain, s1.tasks, i);
      var parent, j := FindTask(t.data.parent, s1);
      if parent != null {
        assert Record(chain, s1.tasks, j);
        if parent.data.state == Blocked && (parent.data.waitingFor == t.data.id || parent.data.waitingFor == -1) {
          Write(parent, parent.data.(state := Ready), j, s1);
        }
      }
    }

    /** The two child scans of task_wait. */
    method ScanChildren(pid: int, zombie: bool, ghost s: State) returns (t: TaskNode?, ghost r: int)
      requires Represents(s) && currentTask != null
      ensures r == FindChild(s.tasks, s.current, pid, zombie) && t == if r >= 0 then chain[r] else null
    {
      var me := ReadCurrent(s);
      t := taskQueue;
      r := 0;
      while t != null
        invariant 0 <= r <= |chain| && t == NodeAt(chain, r)
        invariant forall j :: 0 <= j < r ==>
            !(Matches(s.tasks[j], s.current, pid) && (zombie ==> s.tasks[j].state == Zombie))
        decreases |chain| - r
      {
        assert Record(chain, s.tasks, r) && Link(chain, r);
        if t.data.parent == me.id && (pid == -1 || t.data.id == pid) && (!zombie || t.data.state == Zombie) {
          return;
        }
        t := t.next;
        r := r + 1;
      }
      r := -1;
    }

    /** sched_tick. */
    method SchedTick(ghost s: State)
      requires Represents(s)
      modifies this`currentTask, chain`data
      ensures Represents(Tick(s))
    {
      if currentTask != null {
        var d := ReadCurrent(s);
        if d.timeSlice > 0 {
          d := d.(timeSlice := d.timeSlice - 1);
        }
        WriteCurrent(d, s);
        if d.timeSlice == 0 {
          Reschedule(s.(tasks := s.tasks[Cur(s) := d]));
        }
      }
    }

    /** The found zombie's code is taken and its struct removed. */
    method ReapChild(t: TaskNode, ghost z: nat, ghost s: State) returns (r: int, status: int)
      requires Represents(s) && z < |chain| && chain[z] == t && currentTask != null && z != Cur(s)
      modifies this`taskQueue, this`chain, chain
      ensures Represents(ReapAt(At(s, Outside), z)) && r == s.tasks[z].id && status == s.tasks[z].exitCode
      ensures Nodes() <= old(Nodes())
    {
      assert Record(chain, s.tasks, z);
      var child := t.data;
      Return(s);
      ghost var s1 := At(s, Outside);
      IndexOfIs(s1.tasks, child.id, z);
      TaskDestroy(child.id, s1);
      assert DestroyTask(s1, child.id).tasks == ReapAt(s1, z).tasks;
      return child.id, child.exitCode;
    }

    /** One pass of task_wait. */
    method TaskWait(pid: int, ghost s: State) returns (r: int, status: int)
      requires Represents(s) && Inv(s) && Entering(s, InWait(pid))
      modifies this`taskQueue, this`currentTask, this`chain, chain
      ensures Represents(WaitPass(s, pid).0) && r == WaitPass(s, pid).1 && status == WaitPass(s, pid).2
      ensures Nodes() <= old(Nodes())
    {
      if currentTask == null {
        return -1, 0;
      }
      var t, z := ScanChildren(pid, true, s);
      if t != null {
        ZombieIsOther(s, pid);
        r, status := ReapChild(t, z, s);
        return;
      }
      var any, _ := ScanChildren(pid, false, s);
      if any == null {
        Return(s);
        return -1, 0;
      }
      ParkInWait(pid, s);
      return PARKED, 0;
    }

    /** The end of a pass of task_wait that found no zombie. */
    method ParkInWait(pid: int, ghost s: State)
      requires Represents(s) && currentTask != null
      modifies this`currentTask, chain`data
      ensures Represents(Schedule(Parked(SetWaitingFor(s, pid), InWait(pid))))
    {
      var d := ReadCurrent(s);
      WriteCurrent(d.(waitingFor := pid), s);
      SchedBlock(InWait(pid), SetWaitingFor(s, pid));
    }

    /** Create, fork or destroy a task, exit, yield or tick. */
    method Call(a: Action, ghost s: State)
      requires Represents(s) && RingsValid(s) && s.nextTid > 0 && IsTaskCall(a)
      requires a.DoDestroyTask? ==> a.id != s.current || s.current == 0
      modifies this, chain
      ensures Represents(Step(s, a))
      ensures fresh(Nodes() - old(Nodes()))
    {
      match a {
        case DoCreateTask(priority, supply) => TaskCreate(priority, supply, s);
        case DoFork(supply) => var _ := TaskFork(supply, s);
        case DoDestroyTask(id) => TaskDestroy(id, s);
        case DoExit(code) => ExitCurrent(code, s);
        case DoYield => Reschedule(s);
        case DoTick => SchedTick(s);
      }
    }

    /** The exit system call: task_exit on the current task, then schedule. */
    method ExitCurrent(code: int, ghost s: State)
      requires Represents(s)
      modifies this`currentTask, chain`data
      ensures Represents(Schedule(ExitTask(s, s.current, code)))
    {
      var id := CurrentId(s);
      TaskExit(id, code, s);
      Reschedule(ExitTask(s, s.current, code));
    }
  }
}
