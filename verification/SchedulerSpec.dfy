// What the round-robin scheduler does: kernel/src/scheduling/taskmgr.cpp.

module SchedulerSpec {
  const SLOTS := 1024
  const RUNNING := 1
  const HALTED := 0

  datatype InterruptStack = InterruptStack(
    rax: nat, rbx: nat, rcx: nat, rdx: nat, KernelRsp: nat, rsi: nat, rdi: nat, rbp: nat,
    r8: nat, r9: nat, r10: nat, r11: nat, r12: nat, r13: nat, r14: nat, r15: nat,
    rip: nat, cs: nat, rflags: nat, rsp: nat, ss: nat)

  datatype Task = Task(entryPoint: nat, name: string, state: int, privilege: nat,
                       registers: InterruptStack, terminal: int, memoryUse: nat)

  // What AddTask is given; the selectors are those of the GDT.
  datatype Order = Order(entry: nat, stack: nat, name: string, privilege: nat, size: nat, code: nat, data: nat)

  datatype Scheduler = Scheduler(tasks: seq<Task>, currentTask: nat, taskNum: nat, terminals: int)

  // ----- KernelRsp goes through an int -----

  function Narrowed(rsp: nat): nat {
    var low := rsp % 0x1_0000_0000;
    (if low < 0x8000_0000 then low else low - 0x1_0000_0000) % 0x1_0000_0000_0000_0000
  }

  /**
   * What comes back keeps the low 32 bits and is their signed value; so the interrupting frame's KernelRsp
   * survives exactly in the low or the highest two gigabytes.
   */
  lemma NarrowedExact(rsp: nat)
    requires rsp < 0x1_0000_0000_0000_0000
    ensures Narrowed(rsp) % 0x1_0000_0000 == rsp % 0x1_0000_0000
    ensures Narrowed(rsp) < 0x8000_0000 || 0xFFFF_FFFF_8000_0000 <= Narrowed(rsp) < 0x1_0000_0000_0000_0000
    ensures Narrowed(rsp) == rsp <==> rsp < 0x8000_0000 || 0xFFFF_FFFF_8000_0000 <= rsp
  {
  }

  // ----- The search for the next task -----

  function Lives(tasks: seq<Task>): (live: seq<bool>)
    ensures |live| == |tasks|
  {
    seq(|tasks|, i requires 0 <= i < |tasks| => tasks[i].state != HALTED)
  }

  // The slots the search goes round: those below taskNum, or slot 0 alone.
  function Span(taskNum: nat): (n: nat)
    ensures n > 0
  {
    if taskNum == 0 then 1 else taskNum
  }

  function Follow(slot: nat, taskNum: nat): nat {
    if taskNum <= slot + 1 then 0 else slot + 1
  }

  // The slot the search looks at in its turn k + 1.
  function Visit(slot: nat, taskNum: nat, k: nat): nat {
    if k == 0 then Follow(slot, taskNum) else Follow(Visit(slot, taskNum, k - 1), taskNum)
  }

  function Range(lo: nat, hi: nat): (r: seq<nat>)
    requires lo <= hi
    ensures |r| == hi - lo && forall i :: 0 <= i < |r| ==> r[i] == lo + i
  {
    seq(hi - lo, i requires 0 <= i < hi - lo => lo + i)
  }

  // The slots in the order they come after this one, itself last.
  function Cycle(slot: nat, n: nat): (r: seq<nat>)
    requires slot < n
    ensures |r| == n && r[n - 1] == slot && Within(r, n)
  {
    Range(slot + 1, n) + Range(0, slot + 1)
  }

  lemma CycleHasAll(slot: nat, n: nat, t: nat)
    requires slot < n && t < n
    ensures t in Cycle(slot, n)
  {
    var k := if t > slot then t - slot - 1 else n - slot - 1 + t;
    assert Cycle(slot, n)[k] == t;
  }

  lemma {:induction false} VisitsCycle(slot: nat, taskNum: nat, k: nat)
    requires slot < Span(taskNum) && k < Span(taskNum)
    ensures Visit(slot, taskNum, k) == Cycle(slot, Span(taskNum))[k]
  {
    if k > 0 {
      VisitsCycle(slot, taskNum, k - 1);
    }
  }

  lemma {:induction false} VisitsStay(slot: nat, taskNum: nat, k: nat)
    ensures Visit(slot, taskNum, k) < Span(taskNum)
  {
    if k > 0 {
      VisitsStay(slot, taskNum, k - 1);
    }
  }

  predicate Dispatchable(s: Scheduler) {
    exists i :: 0 <= i < Span(s.taskNum) && i < |s.tasks| && s.tasks[i].state != HALTED
  }

  predicate Valid(s: Scheduler) {
    |s.tasks| == SLOTS && s.taskNum <= SLOTS && s.currentTask < Span(s.taskNum)
  }

  /** The do-while loop of Schedule ends exactly when some slot it goes round is not halted. */
  lemma LoopEndsExactly(s: Scheduler)
    requires Valid(s)
    ensures Dispatchable(s) <==>
              exists k: nat :: Visit(s.currentTask, s.taskNum, k) < SLOTS
                               && s.tasks[Visit(s.currentTask, s.taskNum, k)].state != HALTED
  {
    var c, n := s.currentTask, s.taskNum;
    if Dispatchable(s) {
      var t :| 0 <= t < Span(n) && t < |s.tasks| && s.tasks[t].state != HALTED;
      CycleHasAll(c, Span(n), t);
      var k :| 0 <= k < Span(n) && Cycle(c, Span(n))[k] == t;
      VisitsCycle(c, n, k);
      assert Visit(c, n, k) == t;
    }
    if k: nat :| Visit(c, n, k) < SLOTS && s.tasks[Visit(c, n, k)].state != HALTED {
      VisitsStay(c, n, k);
    }
  }

  predicate Within(slots: seq<nat>, n: nat) {
    forall i :: 0 <= i < |slots| ==> slots[i] < n
  }

  // Those of the slots that are live, in order.
  function Alive(live: seq<bool>, slots: seq<nat>): (r: seq<nat>)
    requires Within(slots, |live|)
    ensures forall t :: t in r <==> t in slots && live[t]
  {
    if slots == [] then []
    else (if live[slots[0]] then [slots[0]] else []) + Alive(live, slots[1..])
  }

  // The running tasks in their coming order.
  function Queue(s: Scheduler): (r: seq<nat>)
    requires Valid(s)
    ensures forall t: nat :: t in r <==> t < Span(s.taskNum) && s.tasks[t].state != HALTED
  {
    var cycle := Cycle(s.currentTask, Span(s.taskNum));
    assert forall t: nat :: t < Span(s.taskNum) ==> t in cycle by {
      forall t: nat | t < Span(s.taskNum)
        ensures t in cycle
      {
        CycleHasAll(s.currentTask, Span(s.taskNum), t);
      }
    }
    Alive(Lives(s.tasks), cycle)
  }

  function Dispatched(s: Scheduler): (slot: nat)
    requires Valid(s) && Dispatchable(s)
    ensures slot < Span(s.taskNum) && s.tasks[slot].state != HALTED
  {
    assert Queue(s) != [] by {
      var t :| 0 <= t < Span(s.taskNum) && t < |s.tasks| && s.tasks[t].state != HALTED;
      assert t in Queue(s);
    }
    assert Queue(s)[0] in Queue(s);
    Queue(s)[0]
  }

  // ----- The steps -----

  function Saved(s: Scheduler, frame: InterruptStack): (r: Scheduler)
    requires Valid(s)
    ensures Valid(r) && (Dispatchable(s) ==> Dispatchable(r))
  {
    var r := s.(tasks := s.tasks[s.currentTask := s.tasks[s.currentTask].(registers := frame)]);
    assert Dispatchable(s) ==> Dispatchable(r) by {
      assert forall i :: 0 <= i < |s.tasks| ==> r.tasks[i].state == s.tasks[i].state;
    }
    r
  }

  function Scheduled(s: Scheduler, frame: InterruptStack): (r: Scheduler)
    requires Valid(s) && Dispatchable(s)
    ensures Valid(r)
  {
    var saved := Saved(s, frame);
    saved.(currentTask := Dispatched(saved))
  }

  function Resumed(s: Scheduler, frame: InterruptStack): InterruptStack
    requires Valid(s) && Dispatchable(s)
  {
    var r := Scheduled(s, frame);
    r.tasks[r.currentTask].registers.(KernelRsp := Narrowed(frame.KernelRsp))
  }

  predicate HasFree(s: Scheduler) {
    exists i :: 0 <= i < |s.tasks| && s.tasks[i].state == HALTED
  }

  function FirstHalted(tasks: seq<Task>): (i: nat)
    ensures i <= |tasks| && (i < |tasks| ==> tasks[i].state == HALTED)
    ensures forall j :: 0 <= j < i ==> tasks[j].state != HALTED
  {
    if tasks == [] || tasks[0].state == HALTED then 0 else 1 + FirstHalted(tasks[1..])
  }

  // Stacks are eight pages; a task starts at the top.
  function StackTop(stack: nat): nat {
    (stack + 0x8000) % 0x1_0000_0000_0000_0000
  }

  function FirstFrame(o: Order): InterruptStack {
    InterruptStack(0, 0, 0, 0, 0, 0, 0, 0, 0, 0, 0, 0, 0, 0, 0, 0,
                   o.entry, o.code, 0x202, StackTop(o.stack), o.data)
  }

  function NewTask(o: Order, terminal: int): Task {
    Task(o.entry, o.name, RUNNING, o.privilege, FirstFrame(o), terminal, o.size)
  }

  function Added(s: Scheduler, o: Order): (r: Scheduler)
    requires Valid(s) && HasFree(s)
    ensures Valid(r)
  {
    var i := FirstHalted(s.tasks);
    Scheduler(s.tasks[i := NewTask(o, s.terminals)], s.currentTask,
              if i >= s.taskNum then i + 1 else s.taskNum, s.terminals + 1)
  }

  // A frame with all registers zero but for where to start, on which stack, with which selectors
  // and interrupts enabled.
  predicate StartsAt(f: InterruptStack, entry: nat, stack: nat, code: nat, data: nat) {
    && f.rip == entry && f.rsp == (stack + 8 * 0x1000) % 0x1_0000_0000_0000_0000
    && f.rflags == 0x202 && f.cs == code && f.ss == data && f.KernelRsp == 0
    && f.rax == f.rbx == f.rcx == f.rdx == f.rsi == f.rdi == f.rbp == 0
    && f.r8 == f.r9 == f.r10 == f.r11 == f.r12 == f.r13 == f.r14 == f.r15 == 0
  }

  /**
   * A task added starts at its entry, at the top of its stack, in user mode with interrupts enabled; it takes the
   * first halted slot, runs, and gets the next terminal. Every other task and the current one stay.
   */
  lemma AddedExact(s: Scheduler, o: Order)
    requires Valid(s) && HasFree(s)
    ensures var r, i := Added(s, o), FirstHalted(s.tasks);
            && s.tasks[i].state == HALTED && (forall j :: 0 <= j < i ==> s.tasks[j].state != HALTED)
            && StartsAt(r.tasks[i].registers, o.entry, o.stack, o.code, o.data)
            && r.tasks[i].state != HALTED && r.tasks[i].name == o.name && r.tasks[i].entryPoint == o.entry
            && r.tasks[i].privilege == o.privilege && r.tasks[i].memoryUse == o.size
            && r.tasks[i].terminal == s.terminals && r.terminals == s.terminals + 1
            && |r.tasks| == |s.tasks| && (forall j :: 0 <= j < |s.tasks| && j != i ==> r.tasks[j] == s.tasks[j])
            && r.currentTask == s.currentTask && r.taskNum >= s.taskNum && i < r.taskNum
            && (r.taskNum == s.taskNum || r.taskNum == i + 1)
  {
  }

  function Exited(s: Scheduler): (r: Scheduler)
    requires Valid(s)
    ensures Valid(r)
  {
    s.(tasks := s.tasks[s.currentTask := s.tasks[s.currentTask].(state := HALTED)])
  }
}
