/**
 Runs of the kernel: any sequence of enabled entries, from any task, in any interleaving.
 The theorems say what holds after every run.
 */
module KernelRuns {
  import opened MessageRing
  import opened KernelSteps
  import opened KernelInvariants

  /** Same tasks in the same places; a zombie stays a zombie. */
  ghost predicate InPlace(ts: seq<Task>, ts': seq<Task>) {
    && |ts'| == |ts|
    && forall i :: 0 <= i < |ts| ==> ts'[i].id == ts[i].id && (ts[i].state == Zombie ==> ts'[i].state == Zombie)
  }

  /** No task that was a zombie is anything else now. */
  ghost predicate ZombiesStay(ts: seq<Task>, ts': seq<Task>) {
    forall i, j :: 0 <= i < |ts| && 0 <= j < |ts'| && ts[i].id == ts'[j].id && ts[i].state == Zombie ==>
        ts'[j].state == Zombie
  }

  lemma InPlaceStays(ts: seq<Task>, ts': seq<Task>)
    requires PairsOk(ts) && InPlace(ts, ts')
    ensures ZombiesStay(ts, ts')
  {
    forall i, j | 0 <= i < |ts| && 0 <= j < |ts'| && ts[i].id == ts'[j].id && ts[i].state == Zombie
      ensures ts'[j].state == Zombie
    {
      assert i != j ==> PairOk(ts[i], ts[j]);
    }
  }

  lemma ScheduleInPlace(s: State)
    ensures InPlace(s.tasks, Schedule(s).tasks)
  {
  }

  lemma CurRunning(s: State)
    requires Inv(s) && Cur(s) >= 0 && s.tasks[Cur(s)].at == Outside
    ensures s.tasks[Cur(s)].state == Running && At(s, Outside) == s && NotRegistered(s)
  {
    var c := Cur(s);
    assert TaskOk(s, s.tasks[c]);
    assert s.tasks[c := s.tasks[c]] == s.tasks;
    OutsideNotRegistered(s);
  }

  /** Parking and rescheduling ends with the task switched out, or stuck with nobody READY. */
  lemma ParkedThenScheduled(s: State)
    requires Base(s) && Cur(s) >= 0 && s.tasks[Cur(s)].state == Blocked
    requires s.tasks[Cur(s)].at.InWait? ==> FindChild(s.tasks, s.current, s.tasks[Cur(s)].at.pid, false) >= 0
    ensures Inv(Schedule(s)) && InPlace(s.tasks, Schedule(s).tasks)
  {
    ScheduleKeeps(s);
    ScheduleInPlace(s);
  }

  lemma WokenInPlace(s: State, id: nat)
    requires Base(s)
    requires (exists p :: 0 <= p < |s.ports| && (s.ports[p].waitingSender == id || s.ports[p].waitingReceiver == id))
    requires Cur(s) >= 0 ==> s.tasks[Cur(s)].at == Outside
    ensures InPlace(s.tasks, Unblocked(s.tasks, id))
    ensures Cur(s) >= 0 ==> Unblocked(s.tasks, id)[Cur(s)] == s.tasks[Cur(s)]
    ensures Cur(s.(tasks := Unblocked(s.tasks, id))) == Cur(s)
  {
    WakeWaiter(s, id);
    var i := IndexOf(s.tasks, id);
    if i >= 0 {
      assert SlotsOk(s, s.tasks[i]);
    }
    SameIds(s.tasks, Unblocked(s.tasks, id), s.current);
  }

  // -------------------------------------------------------------------- passes

  /** May the current task be at the start of this loop's next pass? */
  ghost predicate Entering(s: State, where: Activity) {
    Cur(s) >= 0 ==> s.tasks[Cur(s)].at == Outside || s.tasks[Cur(s)].at == where
  }

  lemma DeliverInv(s: State, p: nat, m: Message)
    requires Base(s) && PortExists(s, p) && s.ports[p].ring.Valid() && !s.ports[p].ring.Full()
    requires Cur(s) >= 0 ==> s.tasks[Cur(s)].at == Outside && s.tasks[Cur(s)].state == Running
    ensures Inv(Deliver(s, p, m)) && InPlace(s.tasks, Deliver(s, p, m).tasks)
  {
    DeliverKeeps(s, p, m);
    if s.ports[p].waitingReceiver != 0 { WokenInPlace(s, s.ports[p].waitingReceiver); }
    SameIds(s.tasks, Deliver(s, p, m).tasks, s.current);
  }

  lemma AcceptInv(s: State, p: nat)
    requires Base(s) && PortExists(s, p) && s.ports[p].ring.Valid() && !s.ports[p].ring.Empty()
    requires Cur(s) >= 0 ==> s.tasks[Cur(s)].at == Outside && s.tasks[Cur(s)].state == Running
    ensures Inv(Accept(s, p)) && InPlace(s.tasks, Accept(s, p).tasks)
  {
    AcceptKeeps(s, p);
    if s.ports[p].waitingSender != 0 { WokenInPlace(s, s.ports[p].waitingSender); }
    SameIds(s.tasks, Accept(s, p).tasks, s.current);
  }

  /** The current task is about to leave its send loop with room in the queue. */
  lemma LeaveSend(s: State, p: nat, m: Message)
    requires Inv(s) && Cur(s) >= 0 && PortExists(s, p) && !s.ports[p].ring.Full() && Entering(s, InSend(p, m))
    ensures var s' := At(s, Outside);
            && Base(s') && Cur(s') == Cur(s) && s'.tasks[Cur(s)].at == Outside && s'.tasks[Cur(s)].state == Running
            && InPlace(s.tasks, s'.tasks) && s'.ports == s.ports && s'.current == s.current
  {
    var c := Cur(s);
    assert TaskOk(s, s.tasks[c]) && SlotsOk(s, s.tasks[c]) && PortOk(s.ports[p]);
    Leave(s);
  }

  lemma LeaveReceive(s: State, p: nat)
    requires Inv(s) && Cur(s) >= 0 && PortExists(s, p) && !s.ports[p].ring.Empty() && Entering(s, InReceive(p))
    ensures var s' := At(s, Outside);
            && Base(s') && Cur(s') == Cur(s) && s'.tasks[Cur(s)].at == Outside && s'.tasks[Cur(s)].state == Running
            && InPlace(s.tasks, s'.tasks) && s'.ports == s.ports && s'.current == s.current
  {
    var c := Cur(s);
    assert TaskOk(s, s.tasks[c]) && SlotsOk(s, s.tasks[c]) && PortOk(s.ports[p]);
    Leave(s);
  }

  lemma RingsAreValid(s: State)
    requires Base(s)
    ensures RingsValid(s)
  {
    forall p | 0 <= p < |s.ports| && s.ports[p].owner != 0 ensures s.ports[p].ring.Valid() {
      assert PortOk(s.ports[p]);
    }
  }

  /** A blocking send that finds the queue full finds nobody else parked there. */
  ghost predicate MaySend(s: State, p: int, nonblock: bool) {
    !nonblock && Cur(s) >= 0 && PortExists(s, p) && s.ports[p].ring.Full() ==> NoOtherSender(s, p)
  }

  /** A blocking receive that finds the queue empty finds nobody else parked there. */
  ghost predicate MayReceive(s: State, p: int, nonblock: bool) {
    !nonblock && Cur(s) >= 0 && PortExists(s, p) && s.ports[p].ring.Empty() ==> NoOtherReceiver(s, p)
  }

  lemma SendKeeps(s: State, p: int, m: Message, nonblock: bool)
    requires Inv(s) && (0 <= p ==> Entering(s, InSend(p, m)))
    requires (p < 0 && Cur(s) >= 0 ==> s.tasks[Cur(s)].at == Outside)
    requires Cur(s) >= 0 && s.tasks[Cur(s)].at != Outside ==> !nonblock
    requires MaySend(s, p, nonblock)
    ensures RingsValid(s) && Inv(SendPass(s, p, m, nonblock).0) && InPlace(s.tasks, SendPass(s, p, m, nonblock).0.tasks)
  {
    RingsAreValid(s);
    var c := Cur(s);
    if c >= 0 { assert TaskOk(s, s.tasks[c]) && SlotsOk(s, s.tasks[c]); }
    if !PortExists(s, p) || (s.ports[p].ring.Full() && (nonblock || c < 0)) {
      if c >= 0 { CurRunning(s); }
    } else if s.ports[p].ring.Full() {
      ParkSendKeeps(s, p, m);
      ParkedThenScheduled(Parked(RegisterSender(s, p), InSend(p, m)));
    } else {
      if c >= 0 { LeaveSend(s, p, m); }
      DeliverInv(At(s, Outside), p, m);
    }
  }

  lemma ReceiveKeeps(s: State, p: int, nonblock: bool)
    requires Inv(s) && (0 <= p ==> Entering(s, InReceive(p)))
    requires (p < 0 && Cur(s) >= 0 ==> s.tasks[Cur(s)].at == Outside)
    requires Cur(s) >= 0 && s.tasks[Cur(s)].at != Outside ==> !nonblock
    requires MayReceive(s, p, nonblock)
    ensures RingsValid(s) && Inv(ReceivePass(s, p, nonblock).0) && InPlace(s.tasks, ReceivePass(s, p, nonblock).0.tasks)
  {
    RingsAreValid(s);
    var c := Cur(s);
    if c >= 0 { assert TaskOk(s, s.tasks[c]) && SlotsOk(s, s.tasks[c]); }
    if !PortExists(s, p) || (s.ports[p].ring.Empty() && (nonblock || c < 0)) {
      if c >= 0 { CurRunning(s); }
    } else if s.ports[p].ring.Empty() {
      ParkReceiveKeeps(s, p);
      ParkedThenScheduled(Parked(RegisterReceiver(s, p), InReceive(p)));
    } else {
      if c >= 0 { LeaveReceive(s, p); }
      AcceptInv(At(s, Outside), p);
    }
  }

  /** Inside task_wait and not parked: leaving is safe, and no zombie child means the task really waits. */
  lemma LeaveWait(s: State, pid: int)
    requires Inv(s) && Cur(s) >= 0 && Entering(s, InWait(pid))
    requires FindChild(s.tasks, s.current, pid, true) >= 0 || FindChild(s.tasks, s.current, pid, false) < 0
    ensures s.tasks[Cur(s)].state == Running
    ensures var s' := At(s, Outside);
            && Base(s') && Cur(s') == Cur(s) && s'.tasks[Cur(s)].state == Running && InPlace(s.tasks, s'.tasks)
  {
    var c := Cur(s);
    var t := s.tasks[c];
    assert TaskOk(s, t) && SlotsOk(s, t);
    var z := FindChild(s.tasks, s.current, pid, true);
    if z >= 0 {
      assert z != c ==> PairOk(t, s.tasks[z]);
    }
    Leave(s);
  }

  lemma ReapInv(s: State, z: nat, pid: int)
    requires Base(s) && Cur(s) >= 0 && s.tasks[Cur(s)].state == Running && z < |s.tasks|
    requires Matches(s.tasks[z], s.current, pid) && s.tasks[z].state == Zombie
    ensures Inv(ReapAt(s, z)) && ZombiesStay(s.tasks, ReapAt(s, z).tasks)
  {
    ReapKeeps(s, z);
    var r := Remove(s.tasks, z);
    forall i, j | 0 <= i < |s.tasks| && 0 <= j < |r| && s.tasks[i].id == r[j].id && s.tasks[i].state == Zombie
      ensures r[j].state == Zombie
    {
      var j' := if j < z then j else j + 1;
      var t, u := s.tasks[i], s.tasks[j'];
      assert r[j] == u;
      assert i != j' ==> PairOk(t, u);
    }
  }

  lemma ParkWaitInv(s: State, pid: int)
    requires Inv(s) && Cur(s) >= 0 && Entering(s, InWait(pid))
    requires FindChild(s.tasks, s.current, pid, true) < 0 && FindChild(s.tasks, s.current, pid, false) >= 0
    ensures var s' := Schedule(Parked(SetWaitingFor(s, pid), InWait(pid))); Inv(s') && InPlace(s.tasks, s'.tasks)
  {
    var c := Cur(s);
    assert TaskOk(s, s.tasks[c]) && SlotsOk(s, s.tasks[c]);
    ParkWaitKeeps(s, pid);
    ParkWaitEffect(s, pid);
    ParkedThenScheduled(Parked(SetWaitingFor(s, pid), InWait(pid)));
  }

  lemma ParkWaitEffect(s: State, pid: int)
    requires Base(s) && Cur(s) >= 0 && FindChild(s.tasks, s.current, pid, false) >= 0 && s.tasks[Cur(s)].state != Zombie
    ensures var s1 := Parked(SetWaitingFor(s, pid), InWait(pid));
            && s1.current == s.current && InPlace(s.tasks, s1.tasks)
            && s1.tasks[Cur(s)].state == Blocked && s1.tasks[Cur(s)].at == InWait(pid)
            && FindChild(s1.tasks, s1.current, pid, false) >= 0
  {
    var c := Cur(s);
    CurIs2(s, c, s.tasks[c].(waitingFor := pid));
    var s1 := Parked(SetWaitingFor(s, pid), InWait(pid));
    var k := FindChild(s.tasks, s.current, pid, false);
    assert Matches(s1.tasks[k], s1.current, pid);
  }

  lemma WaitKeeps(s: State, pid: int)
    requires Inv(s) && Entering(s, InWait(pid))
    ensures Inv(WaitPass(s, pid).0) && ZombiesStay(s.tasks, WaitPass(s, pid).0.tasks)
  {
    var c := Cur(s);
    InPlaceStays(s.tasks, s.tasks);
    if c >= 0 {
      var z := FindChild(s.tasks, s.current, pid, true);
      if z >= 0 {
        LeaveWait(s, pid);
        var s1 := At(s, Outside);
        ReapInv(s1, z, pid);
        ZombiesThrough(s.tasks, s1.tasks, ReapAt(s1, z).tasks);
      } else if FindChild(s.tasks, s.current, pid, false) < 0 {
        LeaveWait(s, pid);
        InPlaceStays(s.tasks, At(s, Outside).tasks);
      } else {
        ParkWaitInv(s, pid);
        InPlaceStays(s.tasks, WaitPass(s, pid).0.tasks);
      }
    }
  }

  lemma ZombiesThrough(a: seq<Task>, b: seq<Task>, c: seq<Task>)
    requires InPlace(a, b) && ZombiesStay(b, c)
    ensures ZombiesStay(a, c)
  {
    forall i, j | 0 <= i < |a| && 0 <= j < |c| && a[i].id == c[j].id && a[i].state == Zombie
      ensures c[j].state == Zombie
    {
      assert b[i].id == a[i].id;
    }
  }

  // -------------------------------------------------------------------- actions

  /** Every kernel entry. Entries other than Resume are made by the current task from outside the kernel. */
  datatype Action =
    | DoCreateTask(priority: nat, supply: Supply)
    | DoFork(supply: Supply)
    | DoDestroyTask(id: int)
    | DoExit(code: int)
    | DoWait(pid: int)
    | DoSend(port: int, msg: Message, nonblock: bool)
    | DoReceive(port: int, nonblock: bool)
    | DoReply(dest: int, msg: Message)
    | DoCreatePort(owner: int, slots: seq<Message>)
    | DoDestroyPort(port: int)
    | DoYield
    | DoTick
    | Resume

  ghost predicate CurOutside(s: State) {
    Cur(s) >= 0 ==> s.tasks[Cur(s)].at == Outside
  }

  ghost predicate NobodyInside(s: State, p: int) {
    forall i :: 0 <= i < |s.tasks| ==>
      !(s.tasks[i].at.InSend? && s.tasks[i].at.port == p) && !(s.tasks[i].at.InReceive? && s.tasks[i].at.port == p)
  }

  /** The next step is a pass of the loop the current task is in, or an entry from outside the kernel. */
  ghost predicate Possible(s: State, a: Action) {
    (a.Resume? <==> !CurOutside(s)) && (a.DoCreatePort? ==> |a.slots| == SLOTS)
  }

  /**
   What callers must respect: nobody parks where another task is parked, nothing in use is destroyed,
   someone is READY at exit.
   */
  ghost predicate Respects(s: State, a: Action) {
    match a
    case DoDestroyTask(id) => id != s.current || s.current == 0
    case DoExit(code) => s.current != 0 ==> PickNext(ExitTask(s, s.current, code).tasks) >= 0
    case DoSend(p, _, nonblock) => MaySend(s, p, nonblock)
    case DoReceive(p, nonblock) => MayReceive(s, p, nonblock)
    case DoDestroyPort(p) => PortExists(s, p) ==> NobodyInside(s, p)
    case Resume => MayResume(s)
    case _ => true
  }

  ghost predicate Enabled(s: State, a: Action) {
    Possible(s, a) && Respects(s, a)
  }

  /** The loop the current task is in may go round again. */
  ghost predicate MayResume(s: State) {
    Cur(s) >= 0 ==>
      match s.tasks[Cur(s)].at
      case InSend(p, _) => MaySend(s, p, false)
      case InReceive(p) => MayReceive(s, p, false)
      case _ => true
  }

  ghost function Step(s: State, a: Action): State
    requires RingsValid(s)
  {
    match a
    case DoCreateTask(priority, supply) => CreateTask(s, priority, supply)
    case DoFork(supply) => Fork(s, supply).0
    case DoDestroyTask(id) => DestroyTask(s, id)
    case DoExit(code) => Schedule(ExitTask(s, s.current, code))
    case DoWait(pid) => WaitPass(s, pid).0
    case DoSend(p, m, nonblock) => SendPass(s, p, m, nonblock).0
    case DoReceive(p, nonblock) => ReceivePass(s, p, nonblock).0
    case DoReply(dest, m) => Reply(s, dest, m).0
    case DoCreatePort(owner, slots) => CreatePort(s, owner, slots).0
    case DoDestroyPort(p) => DestroyPort(s, p).0
    case DoYield => Schedule(s)
    case DoTick => Tick(s)
    case Resume => Again(s)
  }

  /** The next pass of whichever loop the current task is in. */
  ghost function Again(s: State): State
    requires RingsValid(s)
  {
    var c := Cur(s);
    if c < 0 then s
    else
      match s.tasks[c].at
      case Outside => s
      case InSend(p, m) => SendPass(s, p, m, false).0
      case InReceive(p) => ReceivePass(s, p, false).0
      case InWait(pid) => WaitPass(s, pid).0
  }

  lemma CreateTaskKeeps(s: State, t: Task)
    requires Inv(s) && CurOutside(s) && t.id == s.nextTid && t.parent < t.id && t.state == Ready && t.at == Outside
    ensures var s' := s.(tasks := [t] + s.tasks, nextTid := s.nextTid + 1); Inv(s') && ZombiesStay(s.tasks, s'.tasks)
  {
    AddTask(s, t);
    var s' := s.(tasks := [t] + s.tasks, nextTid := s.nextTid + 1);
    if s.current != 0 {
      CurRunning(s);
      assert s'.tasks[Cur(s) + 1] == s.tasks[Cur(s)];
    }
    forall i, j | 0 <= i < |s.tasks| && 0 <= j < |s'.tasks| && s.tasks[i].id == s'.tasks[j].id
        && s.tasks[i].state == Zombie
      ensures s'.tasks[j].state == Zombie
    {
      var u := s.tasks[i];
      assert TaskOk(s, u);
      var v := s'.tasks[j];
      assert j > 0 ==> v == s.tasks[j - 1];
      assert j > 0 && i != j - 1 ==> PairOk(u, v);
    }
  }

  lemma BurnId(s: State)
    requires Inv(s)
    ensures Inv(s.(nextTid := s.nextTid + 1)) && ZombiesStay(s.tasks, s.tasks)
  {
    var s' := s.(nextTid := s.nextTid + 1);
    forall i | 0 <= i < |s'.tasks| ensures TaskOk(s', s'.tasks[i]) && SlotsOk(s', s'.tasks[i]) {
      assert TaskOk(s, s.tasks[i]) && SlotsOk(s, s.tasks[i]);
    }
    assert Cur(s') == Cur(s);
    InPlaceStays(s.tasks, s.tasks);
  }

  lemma DestroyTaskKeeps(s: State, id: int)
    requires Inv(s) && CurOutside(s) && (id != s.current || s.current == 0)
    ensures Inv(DestroyTask(s, id)) && ZombiesStay(s.tasks, DestroyTask(s, id).tasks)
  {
    InPlaceStays(s.tasks, s.tasks);
    var i := IndexOf(s.tasks, id);
    if i >= 0 {
      assert TaskOk(s, s.tasks[i]);
      RemoveKeeps(s, i);
      if s.current != 0 { CurRunning(s); }
      RemoveZombies(s.tasks, i);
    }
  }

  lemma RemoveZombies(ts: seq<Task>, z: nat)
    requires PairsOk(ts) && z < |ts|
    ensures ZombiesStay(ts, Remove(ts, z))
  {
    var r := Remove(ts, z);
    forall i, j | 0 <= i < |ts| && 0 <= j < |r| && ts[i].id == r[j].id && ts[i].state == Zombie
      ensures r[j].state == Zombie
    {
      var j' := if j < z then j else j + 1;
      var t, u := ts[i], ts[j'];
      assert r[j] == u;
      assert i != j' ==> PairOk(t, u);
    }
  }

  lemma NobodyExits(s: State, code: int)
    requires Inv(s) && s.current == 0
    ensures ExitTask(s, s.current, code) == s
  {
    forall i | 0 <= i < |s.tasks| ensures s.tasks[i].id != 0 {
      assert TaskOk(s, s.tasks[i]);
    }
  }

  lemma ExitStepKeeps(s: State, code: int)
    requires Inv(s) && CurOutside(s) && Respects(s, DoExit(code))
    ensures var s' := Schedule(ExitTask(s, s.current, code)); Inv(s') && ZombiesStay(s.tasks, s'.tasks)
  {
    if s.current == 0 {
      NobodyExits(s, code);
      YieldNow(s);
      InPlaceStays(s.tasks, Schedule(s).tasks);
      return;
    }
    CurRunning(s);
    ExitKeeps(s, code);
    var s1 := ExitTask(s, s.current, code);
    ScheduleKeeps(s1);
    ScheduleInPlace(s1);
    assert InPlace(s.tasks, Schedule(s1).tasks);
    InPlaceStays(s.tasks, Schedule(s1).tasks);
  }

  lemma RecountPorts(s: State, n: int)
    requires Inv(s)
    ensures Inv(s.(portCount := n))
  {
    var s' := s.(portCount := n);
    forall i | 0 <= i < |s'.tasks| ensures TaskOk(s', s'.tasks[i]) && SlotsOk(s', s'.tasks[i]) {
      assert TaskOk(s, s.tasks[i]) && SlotsOk(s, s.tasks[i]);
    }
    assert Cur(s') == Cur(s);
  }

  lemma CreatePortKeeps(s: State, owner: int, slots: seq<Message>)
    requires Inv(s) && |slots| == SLOTS
    ensures Inv(CreatePort(s, owner, slots).0)
  {
    var p := PortOf(s.ports, 0);
    if s.portCount < MAX_PORTS && p >= 0 {
      var port := FreshPort(owner, slots);
      assert owner != 0 ==> port.ring.Contents() == [];
      forall i | 0 <= i < |s.tasks| ensures FitsPort(s.tasks[i], p, port) {
        assert TaskOk(s, s.tasks[i]);
      }
      UpdatePort(s, p, port);
      RecountPorts(s.(ports := s.ports[p := port]), s.portCount + 1);
    }
  }

  lemma NobodyToWake(s: State, p: nat)
    requires Base(s) && NobodyInside(s, p) && p < |s.ports|
    ensures Unblocked(s.tasks, s.ports[p].waitingSender) == s.tasks
    ensures Unblocked(s.tasks, s.ports[p].waitingReceiver) == s.tasks
  {
    forall i | 0 <= i < |s.tasks|
      ensures s.tasks[i].id != s.ports[p].waitingSender && s.tasks[i].id != s.ports[p].waitingReceiver
    {
      assert SlotsOk(s, s.tasks[i]);
    }
  }

  lemma DestroyPortKeeps(s: State, p: int)
    requires Inv(s) && (PortExists(s, p) ==> NobodyInside(s, p))
    ensures Inv(DestroyPort(s, p).0) && DestroyPort(s, p).0.tasks == s.tasks
  {
    if PortExists(s, p) {
      NobodyToWake(s, p);
      var port := FreshPort(0, s.ports[p].ring.slots);
      forall i | 0 <= i < |s.tasks| ensures FitsPort(s.tasks[i], p, port) {
        assert TaskOk(s, s.tasks[i]);
      }
      UpdatePort(s, p, port);
      RecountPorts(s.(ports := s.ports[p := port]), s.portCount - 1);
    }
  }

  lemma YieldKeeps(s: State)
    requires Base(s) && (Cur(s) >= 0 ==> s.tasks[Cur(s)].state == Running)
    ensures Inv(Schedule(s)) && InPlace(s.tasks, Schedule(s).tasks)
  {
    ScheduleKeeps(s);
    ScheduleInPlace(s);
  }

  lemma TickKeeps(s: State)
    requires Inv(s) && CurOutside(s)
    ensures Inv(Tick(s)) && InPlace(s.tasks, Tick(s).tasks)
  {
    var c := Cur(s);
    if c >= 0 {
      CurRunning(s);
      var left := if s.tasks[c].timeSlice > 0 then s.tasks[c].timeSlice - 1 else 0;
      var t := s.tasks[c].(timeSlice := left);
      assert TaskOk(s, s.tasks[c]) && SlotsOk(s, s.tasks[c]);
      forall j | 0 <= j < |s.tasks| && j != c ensures PairOk(t, s.tasks[j]) && PairOk(s.tasks[j], t) {
        assert PairOk(s.tasks[c], s.tasks[j]) && PairOk(s.tasks[j], s.tasks[c]);
      }
      UpdateTask(s, c, t);
      YieldKeeps(s.(tasks := s.tasks[c := t]));
    }
  }

  /** The next pass of a loop is as safe as the first. */
  lemma AgainKeeps(s: State)
    requires Inv(s) && !CurOutside(s) && MayResume(s)
    ensures RingsValid(s) && Inv(Again(s)) && ZombiesStay(s.tasks, Again(s).tasks)
  {
    RingsAreValid(s);
    var c := Cur(s);
    forall i | 0 <= i < |s.tasks| && s.tasks[i].id != s.current ensures PairOk(s.tasks[i], s.tasks[c]) {
      assert i != c;
    }
    match s.tasks[c].at
    case Outside =>
    case InSend(p, m) =>
      SendKeeps(s, p, m, false);
      InPlaceStays(s.tasks, Again(s).tasks);
    case InReceive(p) =>
      ReceiveKeeps(s, p, false);
      InPlaceStays(s.tasks, Again(s).tasks);
    case InWait(pid) =>
      WaitKeeps(s, pid);
  }

  lemma CreateStepKeeps(s: State, priority: nat, supply: Supply)
    requires Inv(s) && CurOutside(s)
    ensures Inv(CreateTask(s, priority, supply)) && ZombiesStay(s.tasks, CreateTask(s, priority, supply).tasks)
  {
    match supply
    case Enough => CreateTaskKeeps(s, Task(s.nextTid, s.current, Ready, priority, TIME_SLICE, 0, 0, Outside));
    case NoStack => BurnId(s);
    case NoTask => InPlaceStays(s.tasks, s.tasks);
  }

  lemma ForkedChildKeeps(s: State, c: nat)
    requires Inv(s) && CurOutside(s) && c < |s.tasks|
    ensures var s' := s.(tasks := [ForkOf(s.tasks[c], s.nextTid)] + s.tasks, nextTid := s.nextTid + 1);
            Inv(s') && ZombiesStay(s.tasks, s'.tasks)
  {
    assert TaskOk(s, s.tasks[c]);
    CreateTaskKeeps(s, ForkOf(s.tasks[c], s.nextTid));
  }

  lemma ForkKeeps(s: State, supply: Supply)
    requires Inv(s) && CurOutside(s)
    ensures Inv(Fork(s, supply).0) && ZombiesStay(s.tasks, Fork(s, supply).0.tasks)
  {
    if Cur(s) < 0 {
      InPlaceStays(s.tasks, s.tasks);
    } else {
      ForkSuppliedKeeps(s, supply);
    }
  }

  lemma ForkSuppliedKeeps(s: State, supply: Supply)
    requires Inv(s) && CurOutside(s) && Cur(s) >= 0
    ensures Inv(Fork(s, supply).0) && ZombiesStay(s.tasks, Fork(s, supply).0.tasks)
  {
    match supply
    case NoTask =>
      assert Fork(s, supply).0 == s;
      InPlaceStays(s.tasks, s.tasks);
    case NoStack =>
      assert Fork(s, supply).0 == s.(nextTid := s.nextTid + 1);
      BurnId(s);
    case Enough =>
      ForkedChildKeeps(s, Cur(s));
  }

  lemma ReplyKeeps(s: State, dest: int, m: Message)
    requires Inv(s) && CurOutside(s)
    ensures RingsValid(s) && Inv(Reply(s, dest, m).0) && ZombiesStay(s.tasks, Reply(s, dest, m).0.tasks)
  {
    RingsAreValid(s);
    InPlaceStays(s.tasks, s.tasks);
    var p := PortOf(s.ports, dest);
    if p >= 0 {
      SendKeeps(s, p, m, true);
      InPlaceStays(s.tasks, Reply(s, dest, m).0.tasks);
    }
  }

  /** Entries that leave the task list's shape alone. */
  lemma PlainStepKeeps(s: State, a: Action)
    requires Inv(s) && Enabled(s, a)
    requires a.DoSend? || a.DoReceive? || a.DoCreatePort? || a.DoDestroyPort? || a.DoYield? || a.DoTick?
    ensures RingsValid(s) && Inv(Step(s, a)) && InPlace(s.tasks, Step(s, a).tasks)
  {
    RingsAreValid(s);
    match a
    case DoSend(p, m, nonblock) => SendKeeps(s, p, m, nonblock);
    case DoReceive(p, nonblock) => ReceiveKeeps(s, p, nonblock);
    case DoCreatePort(owner, slots) => CreatePortKeeps(s, owner, slots);
    case DoDestroyPort(p) => DestroyPortKeeps(s, p);
    case DoYield => YieldNow(s);
    case DoTick => TickKeeps(s);
  }

  lemma YieldNow(s: State)
    requires Inv(s) && CurOutside(s)
    ensures Inv(Schedule(s)) && InPlace(s.tasks, Schedule(s).tasks)
  {
    if Cur(s) >= 0 { CurRunning(s); }
    YieldKeeps(s);
  }

  /** Every enabled kernel entry keeps the invariant, and never revives a zombie. */
  lemma StepKeeps(s: State, a: Action)
    requires Inv(s) && Enabled(s, a)
    ensures RingsValid(s) && Inv(Step(s, a)) && ZombiesStay(s.tasks, Step(s, a).tasks)
  {
    match a
    case DoCreateTask(priority, supply) => RingsAreValid(s); CreateStepKeeps(s, priority, supply);
    case DoFork(supply) => RingsAreValid(s); ForkKeeps(s, supply);
    case DoDestroyTask(id) => RingsAreValid(s); DestroyTaskKeeps(s, id);
    case DoExit(code) => RingsAreValid(s); ExitStepKeeps(s, code);
    case DoWait(pid) => RingsAreValid(s); WaitKeeps(s, pid);
    case DoReply(dest, m) => ReplyKeeps(s, dest, m);
    case Resume => AgainKeeps(s);
    case _ => PlainStepKeeps(s, a); InPlaceStays(s.tasks, Step(s, a).tasks);
  }

  // ------------------------------------------------------------------------ runs

  /** The boot state: no tasks, no current task, every port free. */
  ghost predicate Initial(s: State) {
    && s.tasks == [] && s.current == 0 && s.nextTid == 1 && s.exits == map[] && s.reaps == []
    && |s.ports| == MAX_PORTS
    && forall p :: 0 <= p < |s.ports| ==>
        s.ports[p].owner == 0 && s.ports[p].waitingSender == 0 && s.ports[p].waitingReceiver == 0
  }

  /** A run: each state follows from the one before by an enabled entry. */
  ghost predicate IsRun(states: seq<State>, actions: seq<Action>) {
    && |states| == |actions| + 1
    && Initial(states[0])
    && forall k {:trigger actions[k]} :: 0 <= k < |actions| ==>
         Enabled(states[k], actions[k]) && RingsValid(states[k]) && states[k + 1] == Step(states[k], actions[k])
  }

  /** Every state of every run satisfies the invariant. */
  lemma {:induction false} RunKeeps(states: seq<State>, actions: seq<Action>, k: nat)
    requires IsRun(states, actions) && k < |states|
    ensures Inv(states[k])
  {
    if k == 0 {
      var s := states[0];
      forall p | 0 <= p < |s.ports| ensures PortOk(s.ports[p]) {
        assert s.ports[p].owner == 0;
      }
    } else {
      RunKeeps(states, actions, k - 1);
      assert actions[k - 1] == actions[k - 1];
      StepKeeps(states[k - 1], actions[k - 1]);
    }
  }

  /**
   No lost wake-up: in no reachable state is a task BLOCKED in a send loop while the queue has room,
   in a receive loop while there is a message, or in task_wait while a child it waits for is a zombie.
   */
  lemma NoLostWakeup(s: State, i: nat)
    requires Inv(s) && i < |s.tasks| && s.tasks[i].state == Blocked
    ensures match s.tasks[i].at
            case Outside => false
            case InSend(p, _) => PortExists(s, p) && s.ports[p].ring.Full() && s.ports[p].waitingSender == s.tasks[i].id
            case InReceive(p) =>
                PortExists(s, p) && s.ports[p].ring.Empty() && s.ports[p].waitingReceiver == s.tasks[i].id
            case InWait(pid) => forall j :: 0 <= j < |s.tasks| && Matches(s.tasks[j], s.tasks[i].id, pid) ==>
                s.tasks[j].state != Zombie
  {
    var t := s.tasks[i];
    assert TaskOk(s, t);
    if t.at.InSend? || t.at.InReceive? {
      assert PortOk(s.ports[t.at.port]);
    } else {
      forall j | 0 <= j < |s.tasks| && Matches(s.tasks[j], t.id, t.at.pid) ensures s.tasks[j].state != Zombie {
        assert i != j ==> PairOk(t, s.tasks[j]);
      }
    }
  }

  /** The step that makes a registered waiter's condition true also makes it READY (or lets it run). */
  lemma WakeupInTheSameStep(s: State, a: Action, i: nat, j: nat)
    requires Inv(s) && Enabled(s, a) && RingsValid(s) && i < |s.tasks| && s.tasks[i].state == Blocked
    requires j < |Step(s, a).tasks| && Step(s, a).tasks[j].id == s.tasks[i].id
    requires Step(s, a).tasks[j].at == s.tasks[i].at
    requires var s' := Step(s, a);
             match s.tasks[i].at
             case Outside => true
             case InSend(p, _) => PortExists(s', p) && !s'.ports[p].ring.Full()
             case InReceive(p) => PortExists(s', p) && !s'.ports[p].ring.Empty()
             case InWait(pid) => exists z ::
                 0 <= z < |s'.tasks| && Matches(s'.tasks[z], s.tasks[i].id, pid) && s'.tasks[z].state == Zombie
    ensures Step(s, a).tasks[j].state == Ready || Step(s, a).tasks[j].state == Running
  {
    StepKeeps(s, a);
    var s' := Step(s, a);
    assert TaskOk(s, s.tasks[i]);
    if s'.tasks[j].state == Blocked { NoLostWakeup(s', j); }
    assert TaskOk(s', s'.tasks[j]);
  }

  /** At most one task is RUNNING and it is the current one; ids are unique and below next_tid. */
  lemma OneRunning(s: State, i: nat, j: nat)
    requires Inv(s) && i < |s.tasks| && j < |s.tasks|
    ensures 0 < s.tasks[i].id < s.nextTid
    ensures s.tasks[i].state == Running ==> s.tasks[i].id == s.current
    ensures s.tasks[i].id == s.tasks[j].id ==> i == j
  {
    assert TaskOk(s, s.tasks[i]);
    var t, u := s.tasks[i], s.tasks[j];
    assert i != j ==> PairOk(t, u);
  }

  /** Messages come out in the order they went in, none lost, none twice, at most 15 waiting. */
  lemma FifoAlways(s: State, p: nat)
    requires Inv(s) && p < |s.ports| && s.ports[p].owner != 0
    ensures s.ports[p].ring.Valid() && s.ports[p].sent == s.ports[p].received + s.ports[p].ring.Contents()
    ensures |s.ports[p].sent| - |s.ports[p].received| <= SLOTS - 1
  {
    assert PortOk(s.ports[p]);
    CountBounds(s.ports[p].ring);
  }

  /** Each exited child is reaped at most once, by its parent, with the code given to task_exit. */
  lemma ReapedOnce(s: State, k: nat, l: nat)
    requires Inv(s) && k < |s.reaps| && l < |s.reaps| && s.reaps[k].child == s.reaps[l].child
    ensures k == l
    ensures s.reaps[k].child in s.exits && s.exits[s.reaps[k].child] == (s.reaps[k].parent, s.reaps[k].code)
  {
  }

  /** schedule() runs the first READY task of maximal priority, and only if there is one. */
  lemma ScheduleChooses(s: State)
    requires Inv(s)
    ensures var n := PickNext(s.tasks);
            && (n < 0 <==> forall i :: 0 <= i < |s.tasks| ==> s.tasks[i].state != Ready)
            && (n < 0 ==> Schedule(s) == s)
            && (n >= 0 ==>
                  && Schedule(s).current == s.tasks[n].id && Schedule(s).tasks[n].state == Running
                  && s.tasks[n].state == Ready
                  && forall i :: 0 <= i < |s.tasks| && s.tasks[i].state == Ready ==>
                       s.tasks[i].priority <= s.tasks[n].priority
                           && (i < n ==> s.tasks[i].priority < s.tasks[n].priority))
  {
    PickIsBest(s.tasks, |s.tasks|);
  }

  // --------------------------------------------------------------- exact limits

  /** Parking and rescheduling leaves a task that was already BLOCKED as it was. */
  lemma ParkedElsewhere(s: State, i: nat, where: Activity)
    requires PairsOk(s.tasks) && Cur(s) >= 0 && i < |s.tasks| && i != Cur(s) && s.tasks[i].state == Blocked
    ensures var s' := Schedule(Parked(s, where));
            |s'.tasks| == |s.tasks| && s'.tasks[i] == s.tasks[i] && s'.ports == s.ports && s.tasks[i].id != s.current
  {
    var t, u := s.tasks[i], s.tasks[Cur(s)];
    assert PairOk(t, u);
  }

  /**
   One slot per side: a receiver that parks where another one is parked takes over the slot, and the
   next message leaves the first one BLOCKED with the message in the queue.
   */
  lemma SecondReceiverStrandsFirst(s: State, p: nat, i: nat, m: Message)
    requires Inv(s) && Cur(s) >= 0 && Entering(s, InReceive(p)) && i != Cur(s)
    requires i < |s.tasks| && s.tasks[i].state == Blocked && s.tasks[i].at == InReceive(p)
    ensures RingsValid(s) && PortExists(s, p)
    ensures var s' := ReceivePass(s, p, false).0;
            && !Inv(s')
            && s'.ports[p].ring.Valid() && PortExists(s', p)
            && var s'' := Deliver(s', p, m);
            && i < |s''.tasks| && s''.tasks[i] == s.tasks[i] && !s''.ports[p].ring.Empty()
  {
    RingsAreValid(s);
    NoLostWakeup(s, i);
    assert PortOk(s.ports[p]);
    var s1 := RegisterReceiver(s, p);
    ParkedElsewhere(s1, i, InReceive(p));
    var s' := ReceivePass(s, p, false).0;
    assert s' == Schedule(Parked(s1, InReceive(p)));
    assert !TaskOk(s', s'.tasks[i]);
    OthersUntouched(s'.tasks, s.current, i);
  }

  /** The same for senders: the next receive leaves the first one BLOCKED with room in the queue. */
  lemma SecondSenderStrandsFirst(s: State, p: nat, i: nat, m: Message)
    requires Inv(s) && Cur(s) >= 0 && Entering(s, InSend(p, m)) && i != Cur(s)
    requires i < |s.tasks| && s.tasks[i].state == Blocked && s.tasks[i].at.InSend? && s.tasks[i].at.port == p
    ensures RingsValid(s) && PortExists(s, p)
    ensures var s' := SendPass(s, p, m, false).0;
            && !Inv(s')
            && s'.ports[p].ring.Valid() && PortExists(s', p)
            && var s'' := Accept(s', p);
            && i < |s''.tasks| && s''.tasks[i] == s.tasks[i] && !s''.ports[p].ring.Full()
  {
    RingsAreValid(s);
    NoLostWakeup(s, i);
    assert PortOk(s.ports[p]);
    var s1 := RegisterSender(s, p);
    ParkedElsewhere(s1, i, InSend(p, m));
    var s' := SendPass(s, p, m, false).0;
    assert s' == Schedule(Parked(s1, InSend(p, m)));
    assert !TaskOk(s', s'.tasks[i]);
    OthersUntouched(s'.tasks, s.current, i);
  }

  /** A pass of msg_receive keeps the invariant if and only if it does not park where another task is parked. */
  lemma ReceiveKeepsExactly(s: State, p: nat)
    requires Inv(s) && Cur(s) >= 0 && Entering(s, InReceive(p))
    ensures RingsValid(s) && (Inv(ReceivePass(s, p, false).0) <==> MayReceive(s, p, false))
  {
    RingsAreValid(s);
    if MayReceive(s, p, false) {
      ReceiveKeeps(s, p, false);
    } else {
      var i :| 0 <= i < |s.tasks| && s.tasks[i].id != s.current && s.tasks[i].state == Blocked
          && s.tasks[i].at.InReceive? && s.tasks[i].at.port == p;
      SecondReceiverStrandsFirst(s, p, i, Message(0, 0, 0, 0, []));
    }
  }

  /** A pass of msg_send keeps the invariant if and only if it does not park where another task is parked. */
  lemma SendKeepsExactly(s: State, p: nat, m: Message)
    requires Inv(s) && Cur(s) >= 0 && Entering(s, InSend(p, m))
    ensures RingsValid(s) && (Inv(SendPass(s, p, m, false).0) <==> MaySend(s, p, false))
  {
    RingsAreValid(s);
    if MaySend(s, p, false) {
      SendKeeps(s, p, m, false);
    } else {
      var i :| 0 <= i < |s.tasks| && s.tasks[i].id != s.current && s.tasks[i].state == Blocked && s.tasks[i].at.InSend?
          && s.tasks[i].at.port == p;
      SecondSenderStrandsFirst(s, p, i, m);
    }
  }

  lemma OthersUntouched(ts: seq<Task>, id: nat, i: nat)
    requires i < |ts| && ts[i].id != id
    ensures i < |Unblocked(ts, id)| && Unblocked(ts, id)[i] == ts[i]
  {
  }

  /** task_exit followed by schedule keeps the invariant if and only if someone is READY to take over. */
  lemma ExitKeepsExactly(s: State, code: int)
    requires Inv(s) && Cur(s) >= 0 && s.tasks[Cur(s)].at == Outside
    ensures var s1 := ExitTask(s, s.current, code);
            Inv(Schedule(s1)) <==> PickNext(s1.tasks) >= 0
  {
    CurRunning(s);
    ExitKeeps(s, code);
    var s1 := ExitTask(s, s.current, code);
    ScheduleKeeps(s1);
  }

  /** Destroying a port keeps the invariant if and only if nobody is inside one of its loops. */
  lemma DestroyPortKeepsExactly(s: State, p: int)
    requires Inv(s)
    ensures Inv(DestroyPort(s, p).0) <==> (PortExists(s, p) ==> NobodyInside(s, p))
  {
    if PortExists(s, p) && !NobodyInside(s, p) {
      var s' := DestroyPort(s, p).0;
      var i :| 0 <= i < |s.tasks|
          && ((s.tasks[i].at.InSend? && s.tasks[i].at.port == p)
          || (s.tasks[i].at.InReceive? && s.tasks[i].at.port == p));
      assert s'.tasks[i].at == s.tasks[i].at;
      assert !TaskOk(s', s'.tasks[i]);
    } else {
      DestroyPortKeeps(s, p);
    }
  }

  /** Destroying a task keeps the invariant if and only if it is not the current one. */
  lemma DestroyTaskKeepsExactly(s: State, id: int)
    requires Inv(s) && CurOutside(s)
    ensures Inv(DestroyTask(s, id)) <==> id != s.current || s.current == 0
  {
    if id == s.current && s.current != 0 {
      var s' := DestroyTask(s, id);
      var i := Cur(s);
      forall j | 0 <= j < |s'.tasks| ensures s'.tasks[j].id != s.current {
        var t, u := s.tasks[if j < i then j else j + 1], s.tasks[i];
        assert s'.tasks[j] == t && PairOk(t, u);
      }
    } else {
      DestroyTaskKeeps(s, id);
    }
  }

  /** The rules for callers are exact: a possible step keeps the invariant if and only if it respects them. */
  lemma StepKeepsExactly(s: State, a: Action)
    requires Inv(s) && Possible(s, a)
    ensures RingsValid(s) && (Inv(Step(s, a)) <==> Respects(s, a))
  {
    RingsAreValid(s);
    if Respects(s, a) {
      StepKeeps(s, a);
    } else {
      match a
      case DoDestroyTask(id) => DestroyTaskKeepsExactly(s, id);
      case DoExit(code) => ExitKeepsExactly(s, code);
      case DoSend(p, m, _) => SendKeepsExactly(s, p, m);
      case DoReceive(p, _) => ReceiveKeepsExactly(s, p);
      case DoDestroyPort(p) => DestroyPortKeepsExactly(s, p);
      case Resume =>
        match s.tasks[Cur(s)].at {
          case InSend(p, m) => SendKeepsExactly(s, p, m);
          case InReceive(p) => ReceiveKeepsExactly(s, p);
        }
    }
  }

  /** Why someone must be READY at exit: otherwise the zombie keeps the CPU, and its next blocking call revives it. */
  lemma LonelyExitRevives(s: State, code: int, p: nat)
    requires Inv(s) && Cur(s) >= 0 && s.tasks[Cur(s)].at == Outside && PickNext(ExitTask(s, s.current, code).tasks) < 0
    requires PortExists(s, p) && s.ports[p].ring.Empty()
    ensures var s1 := Schedule(ExitTask(s, s.current, code));
            && Cur(s1) == Cur(s) && s1.tasks[Cur(s)].state == Zombie && RingsValid(s1)
            && ReceivePass(s1, p, false).0.tasks[Cur(s)].state == Blocked
  {
    CurRunning(s);
    RingsAreValid(s);
    ExitKeeps(s, code);
    var s1 := ExitTask(s, s.current, code);
    var c := Cur(s);
    var s2 := Parked(RegisterReceiver(s1, p), InReceive(p));
    PickIsBest(s1.tasks, |s1.tasks|);
    forall i | 0 <= i < |s2.tasks| ensures s2.tasks[i].state != Ready {
      assert i != c ==> s2.tasks[i] == s1.tasks[i];
    }
    PickIsBest(s2.tasks, |s2.tasks|);
  }
}
