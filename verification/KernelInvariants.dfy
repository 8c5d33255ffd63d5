/**
 What every step of the scheduler and of the ports keeps, in every interleaving.
 */
module KernelInvariants {
  import opened MessageRing
  import opened KernelSteps

  // ---------------------------------------------------------------- invariant

  ghost predicate TaskOk(s: State, t: Task) {
    && 0 < t.id < s.nextTid && t.parent < t.id
    && (t.state == Running ==> t.id == s.current)
    && (t.state == Blocked ==> t.at != Outside)
    && (t.state == Zombie ==> t.at == Outside && t.id in s.exits && s.exits[t.id] == (t.parent, t.exitCode))
    && (t.at.InSend? ==> PortExists(s, t.at.port) && (t.state == Blocked ==> s.ports[t.at.port].waitingSender == t.id))
    && (t.at.InReceive? ==>
        PortExists(s, t.at.port) && (t.state == Blocked ==> s.ports[t.at.port].waitingReceiver == t.id))
    && (t.at.InWait? && t.state == Blocked ==> t.waitingFor == t.at.pid)
  }

  /** A waiter slot names the task only while the task is inside that very loop. */
  ghost predicate SlotsOk(s: State, t: Task) {
    forall p :: 0 <= p < |s.ports| ==>
      && (s.ports[p].waitingSender == t.id ==> t.at.InSend? && t.at.port == p)
      && (s.ports[p].waitingReceiver == t.id ==> t.at.InReceive? && t.at.port == p)
  }

  /** t is parked in task_wait although u is a zombie it waits for. */
  ghost predicate Missed(t: Task, u: Task) {
    t.at.InWait? && t.state == Blocked && u.state == Zombie && Matches(u, t.id, t.at.pid)
  }

  /** Two tasks: different ids, not both parked on the same side of a port, no missed zombie. */
  ghost predicate PairOk(t: Task, u: Task) {
    && t.id != u.id
    && (t.state == Blocked && u.state == Blocked && t.at.InSend? && u.at.InSend? ==> t.at.port != u.at.port)
    && (t.state == Blocked && u.state == Blocked && t.at.InReceive? && u.at.InReceive? ==> t.at.port != u.at.port)
    && !Missed(t, u)
  }

  /** A registered receiver implies an empty queue, a registered sender a full one; nothing is lost or reordered. */
  ghost predicate PortOk(port: Port) {
    if port.owner == 0 then port.waitingSender == 0 && port.waitingReceiver == 0
    else
      && port.ring.Valid()
      && port.sent == port.received + port.ring.Contents()
      && (port.waitingReceiver != 0 ==> port.ring.Empty())
      && (port.waitingSender != 0 ==> port.ring.Full())
  }

  ghost predicate TasksOk(s: State) {
    forall i {:trigger TaskOk(s, s.tasks[i])} {:trigger SlotsOk(s, s.tasks[i])} :: 0 <= i < |s.tasks| ==>
      TaskOk(s, s.tasks[i]) && SlotsOk(s, s.tasks[i])
  }

  ghost predicate PairsOk(ts: seq<Task>) {
    forall i, j {:trigger PairOk(ts[i], ts[j])} :: 0 <= i < |ts| && 0 <= j < |ts| && i != j ==> PairOk(ts[i], ts[j])
  }

  ghost predicate PortsOk(ps: seq<Port>) {
    |ps| == MAX_PORTS && forall p {:trigger PortOk(ps[p])} :: 0 <= p < |ps| ==> PortOk(ps[p])
  }

  /** Every reap delivered the code the child exited with, to its parent; no child is reaped twice. */
  ghost predicate ReapsOk(s: State) {
    && (forall id :: id in s.exits ==> id < s.nextTid)
    && (forall k :: 0 <= k < |s.reaps| ==>
          s.reaps[k].child in s.exits && s.exits[s.reaps[k].child] == (s.reaps[k].parent, s.reaps[k].code))
    && (forall k, l :: 0 <= k < l < |s.reaps| ==> s.reaps[k].child != s.reaps[l].child)
    && (forall k, i :: 0 <= k < |s.reaps| && 0 <= i < |s.tasks| ==> s.reaps[k].child != s.tasks[i].id)
  }

  ghost predicate Base(s: State) {
    && 0 < s.nextTid && s.current < s.nextTid
    && (s.current != 0 ==> Cur(s) >= 0)
    && TasksOk(s) && PairsOk(s.tasks) && PortsOk(s.ports) && SlotsBelow(s) && ReapsOk(s)
  }

  /** The current task is RUNNING, or BLOCKED with nobody READY to switch to and its condition still false. */
  ghost predicate CurrentOk(s: State) {
    var c := Cur(s);
    c >= 0 ==>
      var t := s.tasks[c];
      || t.state == Running
      || (t.state == Blocked && PickNext(s.tasks) < 0
          && (t.at.InWait? ==> FindChild(s.tasks, t.id, t.at.pid, false) >= 0))
  }

  ghost predicate Inv(s: State) {
    Base(s) && CurrentOk(s)
  }

  // -------------------------------------------------------------- single tasks

  lemma CurIs(s: State, i: nat)
    requires PairsOk(s.tasks) && s.current != 0 && i < |s.tasks| && s.tasks[i].id == s.current
    ensures Cur(s) == i
  {
    var c := Cur(s);
    var t, u := s.tasks[c], s.tasks[i];
    assert c != i ==> PairOk(t, u);
  }

  /** Replacing one task's record, keeping its identity, keeps the invariant if the new record fits in. */
  lemma UpdateTask(s: State, i: nat, t: Task)
    requires Base(s) && i < |s.tasks| && t.id == s.tasks[i].id && TaskOk(s, t) && SlotsOk(s, t)
    requires forall j :: 0 <= j < |s.tasks| && j != i ==> PairOk(t, s.tasks[j]) && PairOk(s.tasks[j], t)
    ensures Base(s.(tasks := s.tasks[i := t])) && Cur(s.(tasks := s.tasks[i := t])) == Cur(s)
  {
    var s' := s.(tasks := s.tasks[i := t]);
    assert s'.tasks[i] == t;
    forall j | 0 <= j < |s'.tasks|
      ensures TaskOk(s', s'.tasks[j]) && SlotsOk(s', s'.tasks[j]) && s'.tasks[j].id == s.tasks[j].id
    {
      assert j != i ==> TaskOk(s, s.tasks[j]) && SlotsOk(s, s.tasks[j]);
    }
    assert PairsOk(s'.tasks);
    if s.current != 0 {
      CurIs(s', Cur(s));
    }
  }

  /** Making a task READY is harmless unless it is a zombie. */
  lemma Wake(s: State, i: nat)
    requires Base(s) && i < |s.tasks| && s.tasks[i].state != Zombie
    ensures Base(s.(tasks := s.tasks[i := s.tasks[i].(state := Ready)]))
  {
    var t := s.tasks[i].(state := Ready);
    assert TaskOk(s, s.tasks[i]) && SlotsOk(s, s.tasks[i]);
    forall j | 0 <= j < |s.tasks| && j != i ensures PairOk(t, s.tasks[j]) && PairOk(s.tasks[j], t) {
      assert PairOk(s.tasks[i], s.tasks[j]) && PairOk(s.tasks[j], s.tasks[i]);
    }
    UpdateTask(s, i, t);
  }

  /** sched_unblock does not look at the state, but a waiter slot never names a zombie. */
  lemma WakeWaiter(s: State, id: nat)
    requires Base(s)
    requires (exists p :: 0 <= p < |s.ports| && (s.ports[p].waitingSender == id || s.ports[p].waitingReceiver == id))
    ensures Base(s.(tasks := Unblocked(s.tasks, id)))
    ensures IndexOf(s.tasks, id) >= 0 ==> s.tasks[IndexOf(s.tasks, id)].state != Zombie
  {
    var i := IndexOf(s.tasks, id);
    if i >= 0 {
      assert TaskOk(s, s.tasks[i]) && SlotsOk(s, s.tasks[i]);
      Wake(s, i);
    }
  }

  /** Leaving the kernel: fine for a task that is not BLOCKED and that no slot names. */
  lemma Leave(s: State)
    requires Base(s) && Cur(s) >= 0
    requires s.tasks[Cur(s)].state != Blocked
    requires forall p :: 0 <= p < |s.ports| ==>
        s.ports[p].waitingSender != s.current && s.ports[p].waitingReceiver != s.current
    ensures Base(At(s, Outside)) && Cur(At(s, Outside)) == Cur(s)
  {
    var c := Cur(s);
    var t := s.tasks[c].(at := Outside);
    assert TaskOk(s, s.tasks[c]);
    forall j | 0 <= j < |s.tasks| && j != c ensures PairOk(t, s.tasks[j]) && PairOk(s.tasks[j], t) {
      assert PairOk(s.tasks[c], s.tasks[j]) && PairOk(s.tasks[j], s.tasks[c]);
    }
    UpdateTask(s, c, t);
  }

  /** schedule() keeps the invariant; it switches unless nobody is READY. */
  lemma ScheduleKeeps(s: State)
    requires Base(s) && (Cur(s) >= 0 ==> s.tasks[Cur(s)].state != Ready)
    ensures Base(Schedule(s))
    ensures PickNext(s.tasks) >= 0 ==> CurrentOk(Schedule(s))
    ensures PickNext(s.tasks) < 0 ==> Schedule(s) == s
  {
    var n := PickNext(s.tasks);
    if n >= 0 {
      var c := Cur(s);
      var s1 := s;
      if c >= 0 && s.tasks[c].state == Running {
        Wake(s, c);
        s1 := s.(tasks := s.tasks[c := s.tasks[c].(state := Ready)]);
      }
      forall i | 0 <= i < |s.tasks| ensures s1.tasks[i].state != Running {
        assert TaskOk(s, s.tasks[i]);
        if c >= 0 {
          var t, u := s.tasks[c], s.tasks[i];
          assert i != c ==> PairOk(t, u);
        }
      }
      SwitchTo(s1, n);
    }
  }

  lemma SwitchTo(s: State, n: nat)
    requires Base(s) && n < |s.tasks| && s.tasks[n].state == Ready
    requires forall i :: 0 <= i < |s.tasks| ==> s.tasks[i].state != Running
    ensures var s' := s.(tasks := s.tasks[n := s.tasks[n].(state := Running, timeSlice := TIME_SLICE)],
        current := s.tasks[n].id);
            Base(s') && Cur(s') == n
  {
    var id := s.tasks[n].id;
    assert TaskOk(s, s.tasks[n]);
    var s1 := s.(current := id);
    forall i | 0 <= i < |s1.tasks| ensures TaskOk(s1, s1.tasks[i]) && SlotsOk(s1, s1.tasks[i]) {
      assert TaskOk(s, s.tasks[i]) && SlotsOk(s, s.tasks[i]);
    }
    CurIs(s1, n);
    assert Base(s1);
    var t := s.tasks[n].(state := Running, timeSlice := TIME_SLICE);
    assert TaskOk(s1, t) && SlotsOk(s1, t);
    forall j | 0 <= j < |s.tasks| && j != n ensures PairOk(t, s.tasks[j]) && PairOk(s.tasks[j], t) {
      assert PairOk(s.tasks[n], s.tasks[j]) && PairOk(s.tasks[j], s.tasks[n]);
    }
    UpdateTask(s1, n, t);
  }

  // --------------------------------------------------------------------- ports

  /** Replacing one port's record keeps the invariant if every task still fits it. */
  lemma UpdatePort(s: State, p: nat, port: Port)
    requires Base(s) && p < |s.ports| && PortOk(port) && port.waitingSender < s.nextTid
    requires port.waitingReceiver < s.nextTid
    requires forall i :: 0 <= i < |s.tasks| ==> FitsPort(s.tasks[i], p, port)
    ensures Base(s.(ports := s.ports[p := port]))
  {
    var s' := s.(ports := s.ports[p := port]);
    forall i | 0 <= i < |s'.tasks| ensures TaskOk(s', s'.tasks[i]) && SlotsOk(s', s'.tasks[i]) {
      var t := s.tasks[i];
      assert TaskOk(s, t) && SlotsOk(s, t) && FitsPort(t, p, port);
      forall q | 0 <= q < |s'.ports|
        ensures s'.ports[q].waitingSender == t.id ==> t.at.InSend? && t.at.port == q
        ensures s'.ports[q].waitingReceiver == t.id ==> t.at.InReceive? && t.at.port == q
      {
        assert q != p ==> s'.ports[q] == s.ports[q];
      }
    }
  }

  ghost predicate FitsPort(t: Task, p: nat, port: Port) {
    && (t.at.InSend? && t.at.port == p ==> port.owner != 0 && (t.state == Blocked ==> port.waitingSender == t.id))
    && (t.at.InReceive? && t.at.port == p ==> port.owner != 0 && (t.state == Blocked ==> port.waitingReceiver == t.id))
    && (port.waitingSender == t.id ==> t.at.InSend? && t.at.port == p)
    && (port.waitingReceiver == t.id ==> t.at.InReceive? && t.at.port == p)
  }

  /** The task named by the slot, if it still exists, is READY after sched_unblock. */
  lemma UnblockedReady(ts: seq<Task>, id: nat, i: nat)
    requires PairsOk(ts) && i < |ts|
    ensures |Unblocked(ts, id)| == |ts|
    ensures Unblocked(ts, id)[i] == if ts[i].id == id then ts[i].(state := Ready) else ts[i]
  {
    var k := IndexOf(ts, id);
    assert k >= 0 && k != i ==> PairOk(ts[k], ts[i]);
  }

  /** A delivery appends to the queue and wakes the receiver registered for it: no wake-up is lost. */
  lemma DeliverKeeps(s: State, p: nat, m: Message)
    requires Base(s) && PortExists(s, p) && s.ports[p].ring.Valid() && !s.ports[p].ring.Full()
    ensures Base(Deliver(s, p, m))
    ensures Deliver(s, p, m).ports[p].ring.Contents() == s.ports[p].ring.Contents() + [m]
  {
    var port := s.ports[p];
    assert PortOk(port);
    PushAppends(port.ring, m);
    var s1 := s;
    if port.waitingReceiver != 0 {
      WakeWaiter(s, port.waitingReceiver);
      s1 := s.(tasks := Unblocked(s.tasks, port.waitingReceiver));
    }
    var port' := port.(ring := port.ring.Push(m), waitingReceiver := 0, sent := port.sent + [m]);
    assert port'.sent == port'.received + port'.ring.Contents();
    forall i | 0 <= i < |s1.tasks| ensures FitsPort(s1.tasks[i], p, port') {
      assert TaskOk(s1, s1.tasks[i]) && SlotsOk(s1, s1.tasks[i]);
      if port.waitingReceiver != 0 { UnblockedReady(s.tasks, port.waitingReceiver, i); }
    }
    UpdatePort(s1, p, port');
  }

  lemma AcceptKeeps(s: State, p: nat)
    requires Base(s) && PortExists(s, p) && s.ports[p].ring.Valid() && !s.ports[p].ring.Empty()
    ensures Base(Accept(s, p))
    ensures s.ports[p].ring.Contents() == [s.ports[p].ring.slots[s.ports[p].ring.head]] + Accept(s,
        p).ports[p].ring.Contents()
  {
    var port := s.ports[p];
    assert PortOk(port);
    PopTakesFirst(port.ring);
    var m := port.ring.slots[port.ring.head];
    var s1 := s;
    if port.waitingSender != 0 {
      WakeWaiter(s, port.waitingSender);
      s1 := s.(tasks := Unblocked(s.tasks, port.waitingSender));
    }
    var port' := port.(ring := port.ring.Pop(), waitingSender := 0, received := port.received + [m]);
    assert port'.sent == port'.received + port'.ring.Contents();
    forall i | 0 <= i < |s1.tasks| ensures FitsPort(s1.tasks[i], p, port') {
      assert TaskOk(s1, s1.tasks[i]) && SlotsOk(s1, s1.tasks[i]);
      if port.waitingSender != 0 { UnblockedReady(s.tasks, port.waitingSender, i); }
    }
    UpdatePort(s1, p, port');
  }

  // ------------------------------------------------------------------- parking

  /** No task but the current one is parked sending to port p. */
  ghost predicate NoOtherSender(s: State, p: nat) {
    forall i :: 0 <= i < |s.tasks| && s.tasks[i].id != s.current && s.tasks[i].state == Blocked ==>
      !(s.tasks[i].at.InSend? && s.tasks[i].at.port == p)
  }

  /** No task but the current one is parked receiving from port p. */
  ghost predicate NoOtherReceiver(s: State, p: nat) {
    forall i :: 0 <= i < |s.tasks| && s.tasks[i].id != s.current && s.tasks[i].state == Blocked ==>
      !(s.tasks[i].at.InReceive? && s.tasks[i].at.port == p)
  }

  /** No slot of any port names the current task, except the given side of port p. */
  ghost predicate NotRegistered(s: State) {
    forall p :: 0 <= p < |s.ports| ==> s.ports[p].waitingSender != s.current && s.ports[p].waitingReceiver != s.current
  }

  lemma OutsideNotRegistered(s: State)
    requires Base(s) && Cur(s) >= 0 && s.tasks[Cur(s)].at == Outside
    ensures NotRegistered(s)
  {
    assert SlotsOk(s, s.tasks[Cur(s)]);
  }

  lemma ParkSendKeeps(s: State, p: nat, m: Message)
    requires Base(s) && PortExists(s, p) && s.ports[p].ring.Full() && Cur(s) >= 0 && s.tasks[Cur(s)].state != Zombie
    requires NoOtherSender(s, p) && (NotRegistered(s) || s.tasks[Cur(s)].at == InSend(p, m))
    ensures var s' := Parked(RegisterSender(s, p), InSend(p, m)); Base(s') && Cur(s') == Cur(s)
  {
    var c := Cur(s);
    var s1 := RegisterSender(s, p);
    var s' := Parked(s1, InSend(p, m));
    assert PortOk(s.ports[p]);
    assert s'.tasks == s.tasks[c := s.tasks[c].(state := Blocked, at := InSend(p, m))];
    forall i | 0 <= i < |s'.tasks| ensures TaskOk(s', s'.tasks[i]) && SlotsOk(s', s'.tasks[i]) {
      assert TaskOk(s, s.tasks[i]) && SlotsOk(s, s.tasks[i]);
      assert i != c ==> PairOk(s.tasks[i], s.tasks[c]);
      forall q | 0 <= q < |s'.ports|
        ensures s'.ports[q].waitingSender == s'.tasks[i].id ==> s'.tasks[i].at.InSend? && s'.tasks[i].at.port == q
        ensures s'.ports[q].waitingReceiver == s'.tasks[i].id ==> s'.tasks[i].at.InReceive? && s'.tasks[i].at.port == q
      {
        assert q != p ==> s'.ports[q] == s.ports[q];
      }
    }
    ParkPairs(s, InSend(p, m));
    CurIs(s', c);
  }

  lemma ParkReceiveKeeps(s: State, p: nat)
    requires Base(s) && PortExists(s, p) && s.ports[p].ring.Empty() && Cur(s) >= 0 && s.tasks[Cur(s)].state != Zombie
    requires NoOtherReceiver(s, p) && (NotRegistered(s) || s.tasks[Cur(s)].at == InReceive(p))
    ensures var s' := Parked(RegisterReceiver(s, p), InReceive(p)); Base(s') && Cur(s') == Cur(s)
  {
    var c := Cur(s);
    var s1 := RegisterReceiver(s, p);
    var s' := Parked(s1, InReceive(p));
    assert PortOk(s.ports[p]);
    assert s'.tasks == s.tasks[c := s.tasks[c].(state := Blocked, at := InReceive(p))];
    forall i | 0 <= i < |s'.tasks| ensures TaskOk(s', s'.tasks[i]) && SlotsOk(s', s'.tasks[i]) {
      assert TaskOk(s, s.tasks[i]) && SlotsOk(s, s.tasks[i]);
      assert i != c ==> PairOk(s.tasks[i], s.tasks[c]);
      forall q | 0 <= q < |s'.ports|
        ensures s'.ports[q].waitingSender == s'.tasks[i].id ==> s'.tasks[i].at.InSend? && s'.tasks[i].at.port == q
        ensures s'.ports[q].waitingReceiver == s'.tasks[i].id ==> s'.tasks[i].at.InReceive? && s'.tasks[i].at.port == q
      {
        assert q != p ==> s'.ports[q] == s.ports[q];
      }
    }
    ParkPairs(s, InReceive(p));
    CurIs(s', c);
  }

  lemma ParkPairs(s: State, where: Activity)
    requires Base(s) && Cur(s) >= 0 && s.tasks[Cur(s)].state != Zombie && (where.InSend? || where.InReceive?)
    requires where.InSend? ==> NoOtherSender(s, where.port)
    requires where.InReceive? ==> NoOtherReceiver(s, where.port)
    ensures PairsOk(s.tasks[Cur(s) := s.tasks[Cur(s)].(state := Blocked, at := where)])
  {
    var c := Cur(s);
    var t := s.tasks[c].(state := Blocked, at := where);
    forall j | 0 <= j < |s.tasks| && j != c ensures PairOk(t, s.tasks[j]) && PairOk(s.tasks[j], t) {
      assert PairOk(s.tasks[c], s.tasks[j]) && PairOk(s.tasks[j], s.tasks[c]);
    }
  }

  /** Parking in task_wait, after a scan that found no matching zombie. */
  lemma ParkWaitKeeps(s: State, pid: int)
    requires Base(s) && Cur(s) >= 0 && s.tasks[Cur(s)].state != Zombie && NotRegistered(s)
    requires FindChild(s.tasks, s.current, pid, true) < 0
    ensures var s' := Parked(SetWaitingFor(s, pid), InWait(pid)); Base(s') && Cur(s') == Cur(s)
  {
    var c := Cur(s);
    var t := s.tasks[c].(waitingFor := pid, state := Blocked, at := InWait(pid));
    var s1 := SetWaitingFor(s, pid);
    assert TaskOk(s, s.tasks[c]);
    CurIs2(s, c, s.tasks[c].(waitingFor := pid));
    assert Parked(s1, InWait(pid)).tasks == s.tasks[c := t];
    forall j | 0 <= j < |s.tasks| && j != c ensures PairOk(t, s.tasks[j]) && PairOk(s.tasks[j], t) {
      assert PairOk(s.tasks[c], s.tasks[j]) && PairOk(s.tasks[j], s.tasks[c]);
    }
    UpdateTask(s, c, t);
  }

  lemma CurIs2(s: State, c: nat, t: Task)
    requires Base(s) && Cur(s) == c && t.id == s.tasks[c].id
    ensures Cur(s.(tasks := s.tasks[c := t])) == c
  {
    var s' := s.(tasks := s.tasks[c := t]);
    forall j | 0 <= j < |s.tasks| && j != c ensures s'.tasks[j].id != s.current {
      assert PairOk(s.tasks[c], s.tasks[j]);
    }
    assert s'.tasks[c].id == s.current;
    var k := IndexOf(s'.tasks, s.current);
    assert k >= 0 && k == c;
  }

  // ----------------------------------------------------------------- lifecycle

  lemma AddTask(s: State, t: Task)
    requires Base(s) && t.id == s.nextTid && t.parent < t.id && t.state == Ready && t.at == Outside
    ensures Base(s.(tasks := [t] + s.tasks, nextTid := s.nextTid + 1))
    ensures s.current != 0 ==> Cur(s.(tasks := [t] + s.tasks, nextTid := s.nextTid + 1)) == Cur(s) + 1
  {
    var s' := s.(tasks := [t] + s.tasks, nextTid := s.nextTid + 1);
    AddTaskEach(s, t);
    AddTaskPairs(s, t);
    if s.current != 0 {
      CurIs(s', Cur(s) + 1);
    }
    forall k, i | 0 <= k < |s'.reaps| && 0 <= i < |s'.tasks| ensures s'.reaps[k].child != s'.tasks[i].id {
      assert i > 0 ==> s'.tasks[i] == s.tasks[i - 1];
    }
  }

  lemma AddTaskEach(s: State, t: Task)
    requires Base(s) && t.id == s.nextTid && t.parent < t.id && t.state == Ready && t.at == Outside
    ensures TasksOk(s.(tasks := [t] + s.tasks, nextTid := s.nextTid + 1))
  {
    var s' := s.(tasks := [t] + s.tasks, nextTid := s.nextTid + 1);
    forall i | 0 <= i < |s'.tasks| ensures TaskOk(s', s'.tasks[i]) && SlotsOk(s', s'.tasks[i]) {
      if i > 0 {
        assert s'.tasks[i] == s.tasks[i - 1];
        assert TaskOk(s, s.tasks[i - 1]) && SlotsOk(s, s.tasks[i - 1]);
      } else {
        NewIdNotRegistered(s, t);
      }
    }
  }

  lemma AddTaskPairs(s: State, t: Task)
    requires Base(s) && t.id == s.nextTid && t.state == Ready && t.at == Outside
    ensures PairsOk([t] + s.tasks)
  {
    var ts := [t] + s.tasks;
    forall i, j | 0 <= i < |ts| && 0 <= j < |ts| && i != j ensures PairOk(ts[i], ts[j]) {
      assert i > 0 ==> ts[i] == s.tasks[i - 1] && TaskOk(s, s.tasks[i - 1]);
      assert j > 0 ==> ts[j] == s.tasks[j - 1] && TaskOk(s, s.tasks[j - 1]);
      assert i > 0 && j > 0 ==> PairOk(s.tasks[i - 1], s.tasks[j - 1]);
    }
  }

  lemma NewIdNotRegistered(s: State, t: Task)
    requires Base(s) && t.id == s.nextTid && t.at == Outside
    ensures SlotsOk(s, t)
  {
  }

  /** Waiter slots hold 0 or ids already handed out. */
  ghost predicate SlotsBelow(s: State) {
    forall p :: 0 <= p < |s.ports| ==> s.ports[p].waitingSender < s.nextTid && s.ports[p].waitingReceiver < s.nextTid
  }

  lemma RemoveKeeps(s: State, i: nat)
    requires Base(s) && i < |s.tasks| && s.tasks[i].id != s.current
    ensures Base(s.(tasks := Remove(s.tasks, i)))
    ensures s.current != 0 ==>
              var c' := Cur(s.(tasks := Remove(s.tasks, i)));
              c' >= 0 && Remove(s.tasks, i)[c'] == s.tasks[Cur(s)]
    ensures forall j :: 0 <= j < |s.tasks| - 1 ==> Remove(s.tasks, i)[j].id != s.tasks[i].id
  {
    var r := Remove(s.tasks, i);
    var s' := s.(tasks := r);
    forall j | 0 <= j < |r| ensures TaskOk(s', r[j]) && SlotsOk(s', r[j]) && r[j].id != s.tasks[i].id {
      var j' := if j < i then j else j + 1;
      assert r[j] == s.tasks[j'] && TaskOk(s, s.tasks[j']) && SlotsOk(s, s.tasks[j'])
          && PairOk(s.tasks[j'], s.tasks[i]);
    }
    forall j, k | 0 <= j < |r| && 0 <= k < |r| && j != k ensures PairOk(r[j], r[k]) {
      assert PairOk(s.tasks[if j < i then j else j + 1], s.tasks[if k < i then k else k + 1]);
    }
    forall k, j | 0 <= k < |s'.reaps| && 0 <= j < |r| ensures s'.reaps[k].child != r[j].id {
      assert r[j] == s.tasks[if j < i then j else j + 1];
    }
    if s.current != 0 {
      var c := Cur(s);
      CurIs(s', if c < i then c else c - 1);
    }
  }

  /** Reaping hands over the code recorded at exit and can never happen again for that child. */
  lemma ReapKeeps(s: State, i: nat)
    requires Base(s) && i < |s.tasks| && s.tasks[i].state == Zombie && s.current != 0 && s.tasks[i].parent == s.current
    ensures Base(ReapAt(s, i))
    ensures var c' := Cur(ReapAt(s, i)); c' >= 0 && ReapAt(s, i).tasks[c'] == s.tasks[Cur(s)]
  {
    var t := s.tasks[i];
    assert TaskOk(s, t);
    RemoveKeeps(s, i);
    var s1 := s.(tasks := Remove(s.tasks, i));
    var s' := ReapAt(s, i);
    forall j | 0 <= j < |s'.tasks| ensures TaskOk(s', s'.tasks[j]) && SlotsOk(s', s'.tasks[j]) {
      assert TaskOk(s1, s1.tasks[j]) && SlotsOk(s1, s1.tasks[j]);
    }
    assert ReapsOk(s');
    CurIs(s', Cur(s1));
  }

  /** The parent's record after the exit of a task with the given id. */
  function Notified(parent: Task, id: nat): Task {
    if parent.state == Blocked && (parent.waitingFor == id || parent.waitingFor == -1) then parent.(state := Ready)
        else parent
  }

  /** task_exit as three updates: notify the parent, record the exit, turn into a zombie. */
  function NotifyParent(s: State, c: nat): State
    requires c < |s.tasks|
  {
    var j := IndexOf(s.tasks, s.tasks[c].parent);
    if j >= 0 then s.(tasks := s.tasks[j := Notified(s.tasks[j], s.tasks[c].id)]) else s
  }

  lemma NotifyEffect(s: State, c: nat)
    requires PairsOk(s.tasks) && c < |s.tasks| && s.tasks[c].state == Running
    ensures var s' := NotifyParent(s, c);
            && |s'.tasks| == |s.tasks| && s'.tasks[c] == s.tasks[c] && Cur(s') == Cur(s)
            && forall i :: 0 <= i < |s.tasks| && i != c ==>
                 s'.tasks[i] == if s.tasks[i].id == s.tasks[c].parent then Notified(s.tasks[i], s.tasks[c].id)
                     else s.tasks[i]
  {
    var j := IndexOf(s.tasks, s.tasks[c].parent);
    if j >= 0 {
      forall i | 0 <= i < |s.tasks| && i != j ensures s.tasks[i].id != s.tasks[j].id {
        assert PairOk(s.tasks[i], s.tasks[j]);
      }
      SameIds(s.tasks, NotifyParent(s, c).tasks, s.current);
    }
  }

  lemma NotifyKeeps(s: State, c: nat)
    requires Base(s) && c < |s.tasks| && s.tasks[c].state == Running
    ensures Base(NotifyParent(s, c))
  {
    var j := IndexOf(s.tasks, s.tasks[c].parent);
    if j >= 0 {
      if Notified(s.tasks[j], s.tasks[c].id) == s.tasks[j] {
        assert s.tasks[j := s.tasks[j]] == s.tasks;
      } else {
        Wake(s, j);
      }
    }
  }

  lemma RecordExit(s: State, c: nat, code: int)
    requires Base(s) && c < |s.tasks| && s.tasks[c].state != Zombie
    ensures Base(s.(exits := s.exits[s.tasks[c].id := (s.tasks[c].parent, code)]))
  {
    var s' := s.(exits := s.exits[s.tasks[c].id := (s.tasks[c].parent, code)]);
    assert TaskOk(s, s.tasks[c]);
    forall i | 0 <= i < |s'.tasks| ensures TaskOk(s', s'.tasks[i]) && SlotsOk(s', s'.tasks[i]) {
      assert TaskOk(s, s.tasks[i]) && SlotsOk(s, s.tasks[i]);
      assert i != c ==> PairOk(s.tasks[i], s.tasks[c]);
    }
  }

  /** A task turns into a zombie once no task is parked waiting for it. */
  lemma BecomeZombie(s: State, c: nat, code: int)
    requires Base(s) && c < |s.tasks| && s.tasks[c].at == Outside
    requires s.tasks[c].id in s.exits && s.exits[s.tasks[c].id] == (s.tasks[c].parent, code)
    requires forall i :: 0 <= i < |s.tasks| && i != c && s.tasks[i].id == s.tasks[c].parent ==>
               s.tasks[i].state == Blocked ==> s.tasks[i].waitingFor != s.tasks[c].id && s.tasks[i].waitingFor != -1
    ensures var s' := s.(tasks := s.tasks[c := s.tasks[c].(state := Zombie, exitCode := code)]);
        Base(s') && Cur(s') == Cur(s)
  {
    var z := s.tasks[c].(state := Zombie, exitCode := code);
    assert TaskOk(s, s.tasks[c]) && SlotsOk(s, s.tasks[c]);
    forall i | 0 <= i < |s.tasks| && i != c ensures PairOk(z, s.tasks[i]) && PairOk(s.tasks[i], z) {
      assert PairOk(s.tasks[i], s.tasks[c]) && PairOk(s.tasks[c], s.tasks[i]) && TaskOk(s, s.tasks[i]);
    }
    UpdateTask(s, c, z);
  }

  lemma ExitForm(s: State, code: int)
    requires Base(s) && Cur(s) >= 0 && s.tasks[Cur(s)].parent != s.current
    ensures var c := Cur(s);
            var s1 := NotifyParent(s, c);
            var s2 := s1.(exits := s.exits[s.current := (s.tasks[c].parent, code)]);
            |s2.tasks| == |s.tasks| && s2.tasks[c] == s.tasks[c] &&
            ExitTask(s, s.current, code) == s2.(tasks := s2.tasks[c := s2.tasks[c].(state := Zombie, exitCode := code)])
  {
    var c := Cur(s);
    var t := s.tasks[c];
    SameIds(s.tasks, s.tasks[c := t.(state := Zombie, exitCode := code)], t.parent);
  }

  /** The exiting task becomes a zombie; a parent parked in a matching wait becomes READY in the same step. */
  lemma ExitKeeps(s: State, code: int)
    requires Base(s) && Cur(s) >= 0 && s.tasks[Cur(s)].state == Running && s.tasks[Cur(s)].at == Outside
    ensures var s' := ExitTask(s, s.current, code);
            && Base(s') && Cur(s') == Cur(s) && s'.tasks[Cur(s)].state == Zombie && |s'.tasks| == |s.tasks|
            && forall i :: 0 <= i < |s.tasks| ==>
                s'.tasks[i].id == s.tasks[i].id && (s.tasks[i].state == Zombie ==> s'.tasks[i] == s.tasks[i])
  {
    var c := Cur(s);
    assert TaskOk(s, s.tasks[c]);
    ExitForm(s, code);
    NotifyKeeps(s, c);
    NotifyEffect(s, c);
    var s1 := NotifyParent(s, c);
    RecordExit(s1, c, code);
    var s2 := s1.(exits := s.exits[s.current := (s.tasks[c].parent, code)]);
    assert Cur(s2) == c;
    BecomeZombie(s2, c, code);
  }

  lemma SameIds(ts: seq<Task>, ts': seq<Task>, id: int)
    requires |ts| == |ts'| && forall i :: 0 <= i < |ts| ==> ts[i].id == ts'[i].id
    ensures IndexOf(ts, id) == IndexOf(ts', id)
  {
    var i, j := IndexOf(ts, id), IndexOf(ts', id);
    assert i >= 0 ==> ts'[i].id == id;
    assert j >= 0 ==> ts[j].id == id;
  }
}
