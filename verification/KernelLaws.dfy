/**
 What each kernel entry returns and does, said without naming the functions that compute it: for
 every state the invariant allows, every case of every result code and the whole new state.
 */
module KernelLaws {
  import opened MessageRing
  import opened KernelSteps
  import opened KernelInvariants
  import opened KernelRuns

  // ---------------------------------------------------------------- vocabulary

  /** No two tasks share an id. */
  ghost predicate UniqueIds(ts: seq<Task>) {
    forall i, j :: 0 <= i < |ts| && 0 <= j < |ts| && i != j ==> ts[i].id != ts[j].id
  }

  lemma InvFacts(s: State)
    requires Inv(s)
    ensures UniqueIds(s.tasks) && RingsValid(s) && (s.current == 0 <==> Cur(s) < 0)
    ensures forall i :: 0 <= i < |s.tasks| ==> 0 < s.tasks[i].id < s.nextTid
  {
    RingsAreValid(s);
    forall i, j | 0 <= i < |s.tasks| && 0 <= j < |s.tasks| && i != j ensures s.tasks[i].id != s.tasks[j].id {
      assert PairOk(s.tasks[i], s.tasks[j]);
    }
    forall i | 0 <= i < |s.tasks| ensures 0 < s.tasks[i].id < s.nextTid {
      assert TaskOk(s, s.tasks[i]);
    }
  }

  /** A task after a call of the current task that made the task called `woken` READY. */
  ghost function Returned(t: Task, current: nat, woken: nat): Task {
    t.(state := if t.id == woken then Ready else t.state, at := if t.id == current then Outside else t.at)
  }

  /** Same tasks in the same order; `woken` is READY, the current task is outside the kernel, all else stays. */
  ghost predicate Woken(s: State, s': State, woken: nat) {
    |s'.tasks| == |s.tasks|
    && forall i :: 0 <= i < |s.tasks| ==> s'.tasks[i] == Returned(s.tasks[i], s.current, woken)
  }

  /** Nothing but tasks and ports may differ. */
  ghost predicate SameRest(s: State, s': State) {
    && s'.current == s.current && s'.nextTid == s.nextTid && s'.portCount == s.portCount
    && s'.exits == s.exits && s'.reaps == s.reaps
  }

  ghost predicate OtherPortsSame(s: State, s': State, p: int) {
    |s'.ports| == |s.ports| && forall q :: 0 <= q < |s.ports| && q != p ==> s'.ports[q] == s.ports[q]
  }

  /** The call came back and changed nothing. */
  ghost predicate Refused(s: State, s': State) {
    SameRest(s, s') && s'.ports == s.ports && Woken(s, s', 0)
  }

  /** Task n is READY, no READY task has a higher priority, and none before it has the same. */
  ghost predicate BestReady(ts: seq<Task>, n: int) {
    && 0 <= n < |ts| && ts[n].state == Ready
    && forall i :: 0 <= i < |ts| && ts[i].state == Ready ==>
         ts[i].priority <= ts[n].priority && (i < n ==> ts[i].priority < ts[n].priority)
  }

  ghost predicate NobodyReady(ts: seq<Task>) {
    forall i :: 0 <= i < |ts| ==> ts[i].state != Ready
  }

  /** Task n runs with a full slice; the task that was running is READY; no other task changes. */
  ghost predicate RunsNow(s: State, s': State, n: nat) {
    && |s'.tasks| == |s.tasks| && n < |s.tasks| && s'.current == s.tasks[n].id
    && s'.tasks[n] == s.tasks[n].(state := Running, timeSlice := 10)
    && forall i :: 0 <= i < |s.tasks| && i != n ==>
         s'.tasks[i] == if s.tasks[i].id == s.current && s.tasks[i].state == Running
                        then s.tasks[i].(state := Ready) else s.tasks[i]
  }

  /** What schedule() is for: the best READY task runs; without one, nothing changes. */
  ghost predicate Switches(s: State, s': State) {
    && s'.ports == s.ports && SameRest(s, s'.(current := s.current))
    && (if NobodyReady(s.tasks) then s' == s else exists n :: BestReady(s.tasks, n) && RunsNow(s, s', n))
  }

  lemma BestIsOne(ts: seq<Task>, n: int, k: int)
    requires BestReady(ts, n) && BestReady(ts, k)
    ensures n == k
  {
  }

  lemma PickLaw(ts: seq<Task>)
    ensures if NobodyReady(ts) then PickNext(ts) == -1 else BestReady(ts, PickNext(ts))
  {
    PickIsBest(ts, |ts|);
  }

  lemma ScheduleLaw(s: State)
    requires UniqueIds(s.tasks) && (forall i :: 0 <= i < |s.tasks| ==> s.tasks[i].id != 0)
    ensures Switches(s, Schedule(s))
  {
    PickLaw(s.tasks);
    var n := PickNext(s.tasks);
    if n >= 0 {
      var s', c := Schedule(s), Cur(s);
      forall i | 0 <= i < |s.tasks| && i != n
        ensures s'.tasks[i] == if s.tasks[i].id == s.current && s.tasks[i].state == Running
                               then s.tasks[i].(state := Ready) else s.tasks[i]
      {
        assert s.tasks[i].id == s.current ==> i == c;
      }
      assert RunsNow(s, s', n);
    }
  }

  /**
   The current task is BLOCKED inside the given loop, and the best of the READY tasks runs; without
   one the current task stays current. No other task changes.
   */
  ghost predicate Blocks(s: State, s': State, where: Activity, waitingFor: int) {
    && Cur(s) >= 0
    && var c := Cur(s);
       var parked := s.tasks[c].(state := Blocked, at := where, waitingFor := waitingFor);
    && |s'.tasks| == |s.tasks| && s'.tasks[c] == parked && SameRest(s, s'.(current := s.current))
    && if NobodyReady(s.tasks) then s'.current == s.current && s'.tasks == s.tasks[c := parked]
       else exists n ::
              && BestReady(s.tasks, n) && n != c && s'.current == s.tasks[n].id
              && s'.tasks == s.tasks[c := parked][n := s.tasks[n].(state := Running, timeSlice := 10)]
  }

  lemma BlocksLaw(s: State, s1: State, where: Activity, waitingFor: int)
    requires Inv(s) && Cur(s) >= 0
    requires var c := Cur(s);
             s1.tasks == s.tasks[c := s.tasks[c].(state := Blocked, at := where, waitingFor := waitingFor)]
    requires SameRest(s, s1)
    ensures Blocks(s, Schedule(s1), where, waitingFor) && Schedule(s1).ports == s1.ports
  {
    InvFacts(s);
    var c := Cur(s);
    PickLaw(s1.tasks);
    var n := PickNext(s1.tasks);
    assert s.tasks[c].state != Ready by { assert TaskOk(s, s.tasks[c]); PickLaw(s.tasks); }
    assert forall i :: 0 <= i < |s.tasks| ==> (s1.tasks[i].state == Ready <==> s.tasks[i].state == Ready);
    assert forall i :: 0 <= i < |s.tasks| ==> s1.tasks[i].priority == s.tasks[i].priority;
    if n >= 0 {
      assert BestReady(s.tasks, n);
      assert Cur(s1) >= 0 ==> Cur(s1) == c by { assert s1.tasks[Cur(s1)].id == s.tasks[Cur(s1)].id; }
    }
  }

  // ---------------------------------------------------------------- leaving a loop

  lemma AtLaw(s: State)
    requires Inv(s)
    ensures var s' := At(s, Outside); SameRest(s, s') && s'.ports == s.ports && Woken(s, s', 0) && UniqueIds(s'.tasks)
  {
    InvFacts(s);
    var s', c := At(s, Outside), Cur(s);
    forall i | 0 <= i < |s.tasks| ensures s'.tasks[i] == Returned(s.tasks[i], s.current, 0) {
      assert s.tasks[i].id == s.current ==> i == c;
    }
  }

  lemma UnblockedLaw(ts: seq<Task>, id: nat, i: nat)
    requires UniqueIds(ts) && i < |ts|
    ensures |Unblocked(ts, id)| == |ts|
    ensures Unblocked(ts, id)[i] == if ts[i].id == id then ts[i].(state := Ready) else ts[i]
  {
  }

  lemma WokenLaw(s: State, s1: State, woken: nat)
    requires Inv(s) && Woken(s, s1, 0) && UniqueIds(s1.tasks)
    ensures var ts := if woken != 0 then Unblocked(s1.tasks, woken) else s1.tasks;
            Woken(s, s1.(tasks := ts), woken)
  {
    InvFacts(s);
    var ts := if woken != 0 then Unblocked(s1.tasks, woken) else s1.tasks;
    forall i | 0 <= i < |s.tasks| ensures |ts| == |s.tasks| && ts[i] == Returned(s.tasks[i], s.current, woken) {
      UnblockedLaw(s1.tasks, woken, i);
    }
    UnblockedLength(s1.tasks, woken);
  }

  lemma UnblockedLength(ts: seq<Task>, id: int)
    ensures |Unblocked(ts, id)| == |ts|
  {
  }

  // --------------------------------------------------------------------- msg_send

  /** The message is the last of the queue, a registered receiver is READY and no longer registered. */
  ghost predicate Sent(s: State, s': State, p: nat, m: Message) {
    && PortExists(s, p) && s.ports[p].ring.Valid() && SameRest(s, s') && OtherPortsSame(s, s', p)
    && Woken(s, s', s.ports[p].waitingReceiver)
    && var a, b := s.ports[p], s'.ports[p];
    && b.ring.Valid() && b.ring.Contents() == a.ring.Contents() + [m] && b.sent == a.sent + [m]
    && b.owner == a.owner && b.received == a.received && b.waitingSender == a.waitingSender && b.waitingReceiver == 0
  }

  /** The current task is BLOCKED in msg_send and registered as the port's sender. */
  ghost predicate SendBlocks(s: State, s': State, p: nat, m: Message) {
    && Cur(s) >= 0 && p < |s.ports| && Blocks(s, s', InSend(p, m), s.tasks[Cur(s)].waitingFor)
    && OtherPortsSame(s, s', p) && s'.ports[p] == s.ports[p].(waitingSender := s.current)
  }

  /** The case law of one pass of msg_send. */
  ghost predicate SendCases(s: State, p: int, m: Message, nonblock: bool, s': State, r: int) {
    var exists' := PortExists(s, p);
    && (exists' ==> s.ports[p].ring.Valid())
    && var full := exists' && |s.ports[p].ring.Contents()| == 15;
    && (r == -1 <==> !exists')
    && (r == -2 <==> full && (nonblock || s.current == 0))
    && (r == PARKED <==> full && !nonblock && s.current != 0)
    && (r == 0 <==> exists' && !full)
    && (r == -1 || r == -2 ==> Refused(s, s'))
    && (r == PARKED ==> SendBlocks(s, s', p, m))
    && (r == 0 ==> Sent(s, s', p, m))
  }

  lemma SendLaw(s: State, p: int, m: Message, nonblock: bool)
    requires Inv(s)
    ensures RingsValid(s) && var x := SendPass(s, p, m, nonblock); SendCases(s, p, m, nonblock, x.0, x.1)
  {
    InvFacts(s);
    AtLaw(s);
    if PortExists(s, p) {
      CountBounds(s.ports[p].ring);
      if !s.ports[p].ring.Full() {
        PushAppends(s.ports[p].ring, m);
        WokenLaw(s, At(s, Outside), s.ports[p].waitingReceiver);
      } else if Cur(s) >= 0 && !nonblock {
        BlocksLaw(s, Parked(RegisterSender(s, p), InSend(p, m)), InSend(p, m), s.tasks[Cur(s)].waitingFor);
      }
    }
  }

  // ------------------------------------------------------------------ msg_receive

  /** The first message of the queue comes back, a registered sender is READY and no longer registered. */
  ghost predicate Received(s: State, s': State, p: nat, got: Option<Message>) {
    && PortExists(s, p) && s.ports[p].ring.Valid() && SameRest(s, s') && OtherPortsSame(s, s', p)
    && Woken(s, s', s.ports[p].waitingSender)
    && var a, b := s.ports[p], s'.ports[p];
    && b.ring.Valid() && got.Some? && a.ring.Contents() == [got.value] + b.ring.Contents()
    && b.received == a.received + [got.value]
    && b.owner == a.owner && b.sent == a.sent && b.waitingReceiver == a.waitingReceiver && b.waitingSender == 0
  }

  /** The current task is BLOCKED in msg_receive and registered as the port's receiver. */
  ghost predicate ReceiveBlocks(s: State, s': State, p: nat) {
    && Cur(s) >= 0 && p < |s.ports| && Blocks(s, s', InReceive(p), s.tasks[Cur(s)].waitingFor)
    && OtherPortsSame(s, s', p) && s'.ports[p] == s.ports[p].(waitingReceiver := s.current)
  }

  /** The case law of one pass of msg_receive. */
  ghost predicate ReceiveCases(s: State, p: int, nonblock: bool, s': State, r: int, got: Option<Message>) {
    var exists' := PortExists(s, p);
    && (exists' ==> s.ports[p].ring.Valid())
    && var empty := exists' && s.ports[p].ring.Contents() == [];
    && (r == -1 <==> !exists')
    && (r == -2 <==> empty && (nonblock || s.current == 0))
    && (r == PARKED <==> empty && !nonblock && s.current != 0)
    && (r == 0 <==> exists' && !empty)
    && (r == 0 <==> got.Some?)
    && (r == -1 || r == -2 ==> Refused(s, s'))
    && (r == PARKED ==> ReceiveBlocks(s, s', p))
    && (r == 0 ==> Received(s, s', p, got))
  }

  lemma ReceiveLaw(s: State, p: int, nonblock: bool)
    requires Inv(s)
    ensures RingsValid(s) && var x := ReceivePass(s, p, nonblock); ReceiveCases(s, p, nonblock, x.0, x.1, x.2)
  {
    InvFacts(s);
    AtLaw(s);
    if PortExists(s, p) {
      CountBounds(s.ports[p].ring);
      if !s.ports[p].ring.Empty() {
        PopTakesFirst(s.ports[p].ring);
        WokenLaw(s, At(s, Outside), s.ports[p].waitingSender);
      } else if Cur(s) >= 0 && !nonblock {
        BlocksLaw(s, Parked(RegisterReceiver(s, p), InReceive(p)), InReceive(p), s.tasks[Cur(s)].waitingFor);
      }
    }
  }

  // -------------------------------------------------------------------- msg_reply

  /** A reply is a non-blocking send to the first port of the destination; nobody owns a port under 0. */
  ghost predicate ReplyCases(s: State, dest: int, m: Message, s': State, r: int) {
    if dest == 0 || forall q :: 0 <= q < |s.ports| ==> s.ports[q].owner != dest
    then r == -1 && (s' == s || Refused(s, s'))
    else exists p ::
           && 0 <= p < |s.ports| && s.ports[p].owner == dest
           && (forall q :: 0 <= q < p ==> s.ports[q].owner != dest) && SendCases(s, p, m, true, s', r)
  }

  lemma ReplyLaw(s: State, dest: int, m: Message)
    requires Inv(s)
    ensures RingsValid(s) && ReplyCases(s, dest, m, Reply(s, dest, m).0, Reply(s, dest, m).1)
  {
    InvFacts(s);
    var p := PortOf(s.ports, dest);
    if p >= 0 {
      assert s.ports[p].owner == dest;
      SendLaw(s, p, m, true);
    }
  }

  // -------------------------------------------------------------------- task_wait

  /** A zombie child of the current task that the wait asks for, with none before it in the list. */
  ghost predicate FirstZombie(s: State, pid: int, z: int) {
    && 0 <= z < |s.tasks| && s.tasks[z].state == Zombie && WaitsFor(s, pid, s.tasks[z])
    && forall i :: 0 <= i < z ==> !(s.tasks[i].state == Zombie && WaitsFor(s, pid, s.tasks[i]))
  }

  ghost predicate WaitsFor(s: State, pid: int, t: Task) {
    t.parent == s.current && (pid == -1 || t.id == pid)
  }

  ghost predicate HasChild(s: State, pid: int) {
    exists i :: 0 <= i < |s.tasks| && WaitsFor(s, pid, s.tasks[i])
  }

  /** Task z is gone from the list, and the others are as they were. */
  ghost predicate Gone(s: State, s': State, z: nat) {
    && z < |s.tasks| && |s'.tasks| == |s.tasks| - 1
    && (forall i :: 0 <= i < |s'.tasks| ==>
          s'.tasks[i] == Returned(s.tasks[if i < z then i else i + 1], s.current, 0))
    && forall i :: 0 <= i < |s'.tasks| ==> s'.tasks[i].id != s.tasks[z].id
  }

  /** The caller gets the id of a zombie child and the code the child exited with; the child is gone. */
  ghost predicate Reaped(s: State, s': State, pid: int, r: int, status: int) {
    && s'.ports == s.ports && SameRest(s, s'.(reaps := s.reaps))
    && (exists z :: FirstZombie(s, pid, z) && s.tasks[z].id == r && Gone(s, s', z))
    && r in s.exits && s.exits[r] == (s.current, status)
    && s'.reaps == s.reaps + [Reap(s.current, r, status)]
  }

  /** The case law of one pass of task_wait. */
  ghost predicate WaitCases(s: State, pid: int, s': State, r: int, status: int) {
    var child := s.current != 0 && HasChild(s, pid);
    && (r == -1 <==> !child)
    && (r == PARKED <==> child && !(exists z :: FirstZombie(s, pid, z)))
    && (r > 0 <==> child && exists z :: FirstZombie(s, pid, z))
    && (r == -1 || r == PARKED || r > 0)
    && (r == -1 ==> Refused(s, s'))
    && (r == PARKED ==> Blocks(s, s', InWait(pid), pid) && s'.ports == s.ports)
    && (r > 0 ==> Reaped(s, s', pid, r, status))
  }

  lemma WaitLaw(s: State, pid: int)
    requires Inv(s)
    ensures var x := WaitPass(s, pid); WaitCases(s, pid, x.0, x.1, x.2)
  {
    InvFacts(s);
    AtLaw(s);
    if Cur(s) >= 0 {
      var z := FindChild(s.tasks, s.current, pid, true);
      var k := FindChild(s.tasks, s.current, pid, false);
      if k >= 0 { assert WaitsFor(s, pid, s.tasks[k]); }
      if z >= 0 {
        assert FirstZombie(s, pid, z) && WaitsFor(s, pid, s.tasks[z]);
        ReapLaw(s, pid, z);
      } else if k >= 0 {
        CurIs2(s, Cur(s), s.tasks[Cur(s)].(waitingFor := pid));
        var parked := s.tasks[Cur(s)].(state := Blocked, at := InWait(pid), waitingFor := pid);
        assert Parked(SetWaitingFor(s, pid), InWait(pid)).tasks == s.tasks[Cur(s) := parked];
        BlocksLaw(s, Parked(SetWaitingFor(s, pid), InWait(pid)), InWait(pid), pid);
      }
    }
  }

  lemma ReapLaw(s: State, pid: int, z: nat)
    requires Inv(s) && Cur(s) >= 0 && FirstZombie(s, pid, z)
    ensures z < |At(s, Outside).tasks|
    ensures Reaped(s, ReapAt(At(s, Outside), z), pid, s.tasks[z].id, s.tasks[z].exitCode)
  {
    InvFacts(s);
    AtLaw(s);
    var s1 := At(s, Outside);
    assert s1.tasks[z] == Returned(s.tasks[z], s.current, 0);
    assert TaskOk(s, s.tasks[z]);
    var s' := ReapAt(s1, z);
    assert Gone(s, s', z);
  }

  // ------------------------------------------------- task_create, task_fork, task_destroy

  /** A new READY task heads the list under an id nobody has; all else stays. */
  ghost predicate Joined(s: State, s': State, parent: int, priority: nat) {
    && s' == s.(tasks := s'.tasks, nextTid := s.nextTid + 1)
    && |s'.tasks| == |s.tasks| + 1 && s'.tasks[1..] == s.tasks
    && s'.tasks[0] == Task(s.nextTid, parent, Ready, priority, 10, 0, 0, Outside)
    && forall i :: 0 <= i < |s.tasks| ==> s.tasks[i].id != s'.tasks[0].id
  }

  lemma CreateTaskLaw(s: State, priority: nat, supply: Supply)
    requires Inv(s)
    ensures var s' := CreateTask(s, priority, supply);
            if supply == Enough then Joined(s, s', s.current, priority)
            else s' == s.(nextTid := if supply == NoStack then s.nextTid + 1 else s.nextTid)
  {
    InvFacts(s);
  }

  /**
   Fork fails without a current task or without memory; otherwise the result is the id of a new child
   of the current task, which has the current task's priority.
   */
  ghost predicate ForkCases(s: State, supply: Supply, s': State, r: int) {
    && (r == -1 <==> s.current == 0 || supply != Enough)
    && (r == -1 ==> s' == s.(nextTid := if s.current != 0 && supply == NoStack then s.nextTid + 1 else s.nextTid))
    && (r != -1 ==> exists c ::
          && 0 <= c < |s.tasks| && s.tasks[c].id == s.current
          && Joined(s, s', s.current, s.tasks[c].priority) && s'.tasks[0].id == r)
  }

  lemma ForkLaw(s: State, supply: Supply)
    requires Inv(s)
    ensures ForkCases(s, supply, Fork(s, supply).0, Fork(s, supply).1)
  {
    InvFacts(s);
    if Cur(s) >= 0 && supply == Enough {
      var s', c := Fork(s, supply).0, Cur(s);
      assert s.tasks[c].id == s.current && Joined(s, s', s.current, s.tasks[c].priority);
    }
  }

  /** The task with that id, if there is one, is gone; the others keep their places. */
  ghost predicate Destroyed(s: State, id: int, s': State) {
    if forall i :: 0 <= i < |s.tasks| ==> s.tasks[i].id != id then s' == s
    else exists z ::
           && 0 <= z < |s.tasks| && s.tasks[z].id == id && s' == s.(tasks := s'.tasks)
           && |s'.tasks| == |s.tasks| - 1
           && forall i :: 0 <= i < |s'.tasks| ==>
                s'.tasks[i] == s.tasks[if i < z then i else i + 1] && s'.tasks[i].id != id
  }

  lemma DestroyTaskLaw(s: State, id: int)
    requires Inv(s)
    ensures Destroyed(s, id, DestroyTask(s, id))
  {
    InvFacts(s);
    var z := IndexOf(s.tasks, id);
    if z >= 0 { assert s.tasks[z].id == id; }
  }

  // -------------------------------------------------------------------- task_exit

  /** u, BLOCKED, waits for t: for its id or for any child. */
  ghost predicate Awaits(u: Task, t: Task) {
    u.id == t.parent && u.state == Blocked && (u.waitingFor == t.id || u.waitingFor == -1)
  }

  /** The task is a zombie with its code, a parent waiting for it is READY, all others stay; the exit is on record. */
  ghost predicate Exited(s: State, id: int, code: int, s': State) {
    if forall i :: 0 <= i < |s.tasks| ==> s.tasks[i].id != id then s' == s
    else exists z ::
           && 0 <= z < |s.tasks| && s.tasks[z].id == id && |s'.tasks| == |s.tasks|
           && s' == s.(tasks := s'.tasks, exits := s.exits[s.tasks[z].id := (s.tasks[z].parent, code)])
           && s'.tasks[z] == s.tasks[z].(state := Zombie, exitCode := code)
           && forall i :: 0 <= i < |s.tasks| && i != z ==>
                s'.tasks[i] == if Awaits(s.tasks[i], s.tasks[z]) then s.tasks[i].(state := Ready) else s.tasks[i]
  }

  lemma ExitLaw(s: State, id: int, code: int)
    requires Inv(s)
    ensures Exited(s, id, code, ExitTask(s, id, code))
  {
    InvFacts(s);
    var z := IndexOf(s.tasks, id);
    if z >= 0 {
      var t, s' := s.tasks[z], ExitTask(s, id, code);
      assert t.id == id && TaskOk(s, t);
      ExitIds(s, id, code);
      forall i | 0 <= i < |s.tasks| && i != z
        ensures s'.tasks[i] == if Awaits(s.tasks[i], t) then s.tasks[i].(state := Ready) else s.tasks[i]
      {
        ExitWakes(s, z, code, i);
      }
    }
  }

  lemma ExitIds(s: State, id: int, code: int)
    ensures var ts := ExitTask(s, id, code).tasks;
            |ts| == |s.tasks| && forall i :: 0 <= i < |s.tasks| ==> ts[i].id == s.tasks[i].id
  {
  }

  lemma ExitWakes(s: State, z: nat, code: int, i: nat)
    requires UniqueIds(s.tasks) && z < |s.tasks| && i < |s.tasks| && i != z && s.tasks[z].parent < s.tasks[z].id
    ensures var t := s.tasks[z];
            var ts := ExitTask(s, t.id, code).tasks;
            |ts| == |s.tasks|
            && ts[i] == if Awaits(s.tasks[i], t) then s.tasks[i].(state := Ready) else s.tasks[i]
  {
    var t := s.tasks[z];
    assert IndexOf(s.tasks, t.id) == z;
    var ts := s.tasks[z := t.(state := Zombie, exitCode := code)];
    assert forall k :: 0 <= k < |ts| ==> ts[k].id == s.tasks[k].id;
    var j := IndexOf(ts, t.parent);
    assert s.tasks[i].id == t.parent ==> i == j;
  }

  // ------------------------------------------------------------------- sched_tick

  /** A tick takes one from the slice of the current task; the tick that ends the slice calls schedule(). */
  ghost predicate Ticked(s: State, s': State) {
    if s.current == 0 then s' == s
    else
      exists c :: 0 <= c < |s.tasks| && s.tasks[c].id == s.current &&
        var left := if s.tasks[c].timeSlice <= 1 then 0 else s.tasks[c].timeSlice - 1;
        var s1 := s.(tasks := s.tasks[c := s.tasks[c].(timeSlice := left)]);
        if left > 0 then s' == s1 else Switches(s1, s')
  }

  lemma TickLaw(s: State)
    requires Inv(s)
    ensures Ticked(s, Tick(s))
  {
    InvFacts(s);
    if Cur(s) >= 0 {
      var c := Cur(s);
      var left := if s.tasks[c].timeSlice > 0 then s.tasks[c].timeSlice - 1 else 0;
      var s1 := s.(tasks := s.tasks[c := s.tasks[c].(timeSlice := left)]);
      assert forall i :: 0 <= i < |s1.tasks| ==> s1.tasks[i].id == s.tasks[i].id;
      ScheduleLaw(s1);
      assert s.tasks[c].id == s.current;
    }
  }

  /** The tick that ends a slice runs the best READY task, and the task whose slice it was is READY. */
  lemma SliceEnds(s: State, n: int)
    requires Inv(s) && s.current != 0 && s.tasks[Cur(s)].timeSlice <= 1 && BestReady(s.tasks, n)
    ensures var s' := Tick(s);
            && |s'.tasks| == |s.tasks| && s'.current == s.tasks[n].id
            && s'.tasks[n] == s.tasks[n].(state := Running, timeSlice := 10)
            && s'.tasks[Cur(s)] == s.tasks[Cur(s)].(state := Ready, timeSlice := 0)
  {
    InvFacts(s);
    TickLaw(s);
    var c := Cur(s);
    PickLaw(s.tasks);
    assert s.tasks[c].state == Running;
    var s1 := s.(tasks := s.tasks[c := s.tasks[c].(timeSlice := 0)]);
    assert forall i :: 0 <= i < |s.tasks| ==>
        s1.tasks[i].state == s.tasks[i].state && s1.tasks[i].priority == s.tasks[i].priority;
    assert BestReady(s1.tasks, n);
    var k :| BestReady(s1.tasks, k) && RunsNow(s1, Tick(s), k);
    BestIsOne(s1.tasks, n, k);
  }

  // ------------------------------------------------------------------------ ports

  /** A free entry with none before it gets the owner and an empty queue; -1 if there is none or the count is full. */
  ghost predicate PortMade(s: State, owner: int, s': State, r: int) {
    && (r == -1 <==> s.portCount >= 256 || forall q :: 0 <= q < |s.ports| ==> s.ports[q].owner != 0)
    && (r == -1 ==> s' == s)
    && (r != -1 ==>
          && 0 <= r < |s.ports| && s.ports[r].owner == 0 && (forall q :: 0 <= q < r ==> s.ports[q].owner != 0)
          && OtherPortsSame(s, s', r) && s' == s.(ports := s'.ports, portCount := s.portCount + 1)
          && var b := s'.ports[r];
          && b.owner == owner && b.ring.Valid() && b.ring.Contents() == [] && b.sent == [] && b.received == []
          && b.waitingSender == 0 && b.waitingReceiver == 0)
  }

  lemma CreatePortLaw(s: State, owner: int, slots: seq<Message>)
    requires |slots| == 16
    ensures PortMade(s, owner, CreatePort(s, owner, slots).0, CreatePort(s, owner, slots).1)
  {
  }

  /** The entry is free, tasks registered at it are READY; -1 if there was no such port. */
  ghost predicate PortGone(s: State, p: int, s': State, r: int) {
    && (r == -1 <==> !PortExists(s, p)) && (r == -1 ==> s' == s)
    && (r != -1 ==>
          && r == 0 && OtherPortsSame(s, s', p)
          && s' == s.(tasks := s'.tasks, ports := s'.ports, portCount := s.portCount - 1)
          && s'.ports[p].owner == 0 && s'.ports[p].waitingSender == 0 && s'.ports[p].waitingReceiver == 0
          && BothWoken(s.tasks, s'.tasks, s.ports[p].waitingSender, s.ports[p].waitingReceiver))
  }

  /** The tasks called a and b are READY, the others stay. */
  ghost predicate BothWoken(ts: seq<Task>, ts': seq<Task>, a: nat, b: nat) {
    |ts'| == |ts|
    && forall i :: 0 <= i < |ts| ==>
         ts'[i] == if ts[i].id == a || ts[i].id == b then ts[i].(state := Ready) else ts[i]
  }

  lemma DestroyPortLaw(s: State, p: int)
    requires Inv(s)
    ensures PortGone(s, p, DestroyPort(s, p).0, DestroyPort(s, p).1)
  {
    InvFacts(s);
    if PortExists(s, p) {
      var port := s.ports[p];
      TwoWoken(s.tasks, port.waitingSender, port.waitingReceiver);
    }
  }

  lemma TwoWoken(ts: seq<Task>, a: nat, b: nat)
    requires UniqueIds(ts) && forall i :: 0 <= i < |ts| ==> ts[i].id != 0
    ensures var ts1 := if a != 0 then Unblocked(ts, a) else ts;
            BothWoken(ts, if b != 0 then Unblocked(ts1, b) else ts1, a, b)
  {
    var ts1 := if a != 0 then Unblocked(ts, a) else ts;
    OneWoken(ts, a);
    OneWoken(ts1, b);
  }

  lemma OneWoken(ts: seq<Task>, id: nat)
    requires UniqueIds(ts) && forall i :: 0 <= i < |ts| ==> ts[i].id != 0
    ensures var ts' := if id != 0 then Unblocked(ts, id) else ts;
            && |ts'| == |ts| && UniqueIds(ts')
            && forall i :: 0 <= i < |ts| ==> ts'[i] == if ts[i].id == id then ts[i].(state := Ready) else ts[i]
  {
    UnblockedLength(ts, id);
    var ts' := if id != 0 then Unblocked(ts, id) else ts;
    forall i | 0 <= i < |ts| ensures ts'[i] == if ts[i].id == id then ts[i].(state := Ready) else ts[i] {
      UnblockedLaw(ts, id, i);
    }
  }

  // ------------------------------------------------------------------------- runs

  /** What an entry may do, in the words of the laws above. */
  ghost predicate Lawful(s: State, a: Action, s': State) {
    match a
    case DoCreateTask(priority, supply) =>
      if supply == Enough then Joined(s, s', s.current, priority)
      else s' == s.(nextTid := if supply == NoStack then s.nextTid + 1 else s.nextTid)
    case DoFork(supply) => exists r :: ForkCases(s, supply, s', r)
    case DoDestroyTask(id) => Destroyed(s, id, s')
    case DoExit(code) => exists s1 :: Exited(s, s.current, code, s1) && Switches(s1, s')
    case DoWait(pid) => exists r, status :: WaitCases(s, pid, s', r, status)
    case DoSend(p, m, nonblock) => exists r :: SendCases(s, p, m, nonblock, s', r)
    case DoReceive(p, nonblock) => exists r, got :: ReceiveCases(s, p, nonblock, s', r, got)
    case DoReply(dest, m) => exists r :: ReplyCases(s, dest, m, s', r)
    case DoCreatePort(owner, slots) => exists r :: PortMade(s, owner, s', r)
    case DoDestroyPort(p) => exists r :: PortGone(s, p, s', r)
    case DoYield => Switches(s, s')
    case DoTick => Ticked(s, s')
    case Resume => Cur(s) >= 0 && Resumed(s, s.tasks[Cur(s)].at, s')
  }

  /** A task that runs again goes round the loop it was parked in. */
  ghost predicate Resumed(s: State, where: Activity, s': State) {
    match where
    case Outside => s' == s
    case InSend(p, m) => exists r :: SendCases(s, p, m, false, s', r)
    case InReceive(p) => exists r, got :: ReceiveCases(s, p, false, s', r, got)
    case InWait(pid) => exists r, status :: WaitCases(s, pid, s', r, status)
  }

  /** Every entry, from every state of every run, obeys the law of that entry. */
  lemma StepLawful(s: State, a: Action)
    requires Inv(s) && Possible(s, a)
    ensures RingsValid(s) && Lawful(s, a, Step(s, a))
  {
    InvFacts(s);
    match a
    case DoCreateTask(priority, supply) => CreateTaskLaw(s, priority, supply);
    case DoFork(supply) => ForkLaw(s, supply);
    case DoDestroyTask(id) => DestroyTaskLaw(s, id);
    case DoExit(code) =>
      ExitLaw(s, s.current, code);
      ExitIds(s, s.current, code);
      ScheduleLaw(ExitTask(s, s.current, code));
    case DoYield => ScheduleLaw(s);
    case DoTick => TickLaw(s);
    case Resume => ResumeLawful(s);
    case _ => CallLawful(s, a);
  }

  lemma CallLawful(s: State, a: Action)
    requires Inv(s) && Possible(s, a)
    requires a.DoWait? || a.DoSend? || a.DoReceive? || a.DoReply? || a.DoCreatePort? || a.DoDestroyPort?
    ensures RingsValid(s) && Lawful(s, a, Step(s, a))
  {
    InvFacts(s);
    match a
    case DoWait(pid) => WaitLaw(s, pid);
    case DoSend(p, m, nonblock) => SendLaw(s, p, m, nonblock);
    case DoReceive(p, nonblock) => ReceiveLaw(s, p, nonblock);
    case DoReply(dest, m) => ReplyLaw(s, dest, m);
    case DoCreatePort(owner, slots) => CreatePortLaw(s, owner, slots);
    case DoDestroyPort(p) => DestroyPortLaw(s, p);
  }

  lemma ResumeLawful(s: State)
    requires Inv(s) && !CurOutside(s)
    ensures RingsValid(s) && Cur(s) >= 0 && Resumed(s, s.tasks[Cur(s)].at, Again(s))
  {
    InvFacts(s);
    match s.tasks[Cur(s)].at
    case Outside =>
    case InSend(p, m) => SendLaw(s, p, m, false);
    case InReceive(p) => ReceiveLaw(s, p, false);
    case InWait(pid) => WaitLaw(s, pid);
  }

  /** So does every step of a run from boot. */
  lemma RunLawful(states: seq<State>, actions: seq<Action>, k: nat)
    requires IsRun(states, actions) && k < |actions|
    ensures Lawful(states[k], actions[k], states[k + 1])
  {
    RunKeeps(states, actions, k);
    StepLawful(states[k], actions[k]);
  }
}
