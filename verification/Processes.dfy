// What a process sees of the scheduler: it is resumed where it was interrupted.

module Processes {
  import opened SchedulerSpec
  import opened SchedulerRuns

  // The scheduler beside the processes it is meant to run: the one on the processor,
  // which of them each slot was given to, and the registers each was last interrupted
  // with, or was created with.
  datatype World = World(s: Scheduler, owner: seq<nat>, running: nat, registers: seq<InterruptStack>)

  // A running slot other than the current one holds what its process left behind.
  predicate Holds(w: World, i: nat)
    requires i < |w.owner| && i < |w.s.tasks|
  {
    && w.owner[i] < |w.registers| && w.owner[i] != w.running
    && w.s.tasks[i].registers == w.registers[w.owner[i]]
  }

  predicate Waits(w: World, i: nat) {
    i < |w.s.tasks| && i != w.s.currentTask && w.s.tasks[i].state != HALTED
  }

  predicate Faithful(w: World) {
    && Sound(w.s) && |w.owner| == SLOTS && w.running < |w.registers|
    && w.owner[w.s.currentTask] == w.running
    && (forall i :: 0 <= i < SLOTS && Waits(w, i) ==> Holds(w, i))
    && (forall i, j :: 0 <= i < j < SLOTS && Waits(w, i) && Waits(w, j) ==> w.owner[i] != w.owner[j])
  }

  // AddTask takes the slot of the process on the processor, which has exited.
  predicate Reuses(s: Scheduler, e: Event) {
    e.Add? && FirstHalted(s.tasks) == s.currentTask
  }

  // The same events, as the processes should see them.
  function Next(w: World, e: Event): (r: World)
    requires Faithful(w) && Enabled(w.s, e)
  {
    var s := Step(w.s, e);
    match e
    case Interrupt(frame) => World(s, w.owner, w.owner[s.currentTask], w.registers[w.running := frame])
    case Add(order) =>
      World(s, w.owner[FirstHalted(w.s.tasks) := |w.registers|], w.running, w.registers + [FirstFrame(order)])
    case Exit => w.(s := s)
  }

  // The process put on the processor finds its own registers, but for KernelRsp.
  predicate ResumesRight(w: World, e: Event)
    requires Faithful(w) && Enabled(w.s, e)
  {
    e.Interrupt? ==>
      var next := Next(w, e);
      && next.running < |next.registers|
      && Resumed(w.s, e.frame) == next.registers[next.running].(KernelRsp := Narrowed(e.frame.KernelRsp))
  }

  lemma InterruptFaithful(w: World, frame: InterruptStack)
    requires Faithful(w) && Dispatchable(w.s)
    ensures Faithful(Next(w, Interrupt(frame))) && ResumesRight(w, Interrupt(frame))
  {
    var next := Next(w, Interrupt(frame));
    InterruptedTasks(w, frame, next);
    forall i | 0 <= i < SLOTS && Runs(next.s, i)
      ensures next.owner[i] < |next.registers| && next.s.tasks[i].registers == next.registers[next.owner[i]]
    {
      OwnRegisters(w, frame, next, i);
    }
    forall i, j | 0 <= i < SLOTS && 0 <= j < SLOTS && i != j && Runs(next.s, i) && Runs(next.s, j)
      ensures next.owner[i] != next.owner[j]
    {
      OwnersApart(w, next, i, j);
    }
    FaithfulFrom(next);
  }

  predicate Runs(s: Scheduler, i: nat) {
    i < |s.tasks| && s.tasks[i].state != HALTED
  }

  lemma FaithfulFrom(w: World)
    requires Sound(w.s) && |w.owner| == |w.s.tasks| == SLOTS && w.s.currentTask < SLOTS
    requires w.owner[w.s.currentTask] == w.running < |w.registers| && Runs(w.s, w.s.currentTask)
    requires forall i :: 0 <= i < SLOTS && Runs(w.s, i) ==>
               w.owner[i] < |w.registers| && w.s.tasks[i].registers == w.registers[w.owner[i]]
    requires forall i, j :: 0 <= i < SLOTS && 0 <= j < SLOTS && i != j && Runs(w.s, i) && Runs(w.s, j) ==>
               w.owner[i] != w.owner[j]
    ensures Faithful(w)
  {
  }

  lemma InterruptedTasks(w: World, frame: InterruptStack, next: World)
    requires Faithful(w) && Dispatchable(w.s) && next == Next(w, Interrupt(frame))
    ensures var c, d := w.s.currentTask, next.s.currentTask;
            c < |w.s.tasks| == SLOTS && next.s.tasks == w.s.tasks[c := w.s.tasks[c].(registers := frame)]
            && d < SLOTS && Runs(next.s, d)
  {
  }

  lemma OwnRegisters(w: World, frame: InterruptStack, next: World, i: nat)
    requires Faithful(w) && Dispatchable(w.s) && next == Next(w, Interrupt(frame)) && i < SLOTS
    requires w.s.currentTask < |w.s.tasks| == SLOTS
    requires next.s.tasks == w.s.tasks[w.s.currentTask := w.s.tasks[w.s.currentTask].(registers := frame)]
    requires Runs(next.s, i)
    ensures next.owner[i] < |next.registers| && next.s.tasks[i].registers == next.registers[next.owner[i]]
  {
    assert i != w.s.currentTask ==> Waits(w, i);
  }

  lemma OwnersApart(w: World, next: World, i: nat, j: nat)
    requires Faithful(w) && i < SLOTS && j < SLOTS && i != j && next.owner == w.owner
    requires w.s.currentTask < |w.s.tasks| == |next.s.tasks| == SLOTS
    requires forall i :: 0 <= i < SLOTS ==> next.s.tasks[i].state == w.s.tasks[i].state
    requires Runs(next.s, i) && Runs(next.s, j)
    ensures next.owner[i] != next.owner[j]
  {
    var c := w.s.currentTask;
    assert i != c ==> Waits(w, i);
    assert j != c ==> Waits(w, j);
  }

  lemma AddFaithfulExactly(w: World, order: Order)
    requires Faithful(w) && HasFree(w.s)
    ensures Faithful(Next(w, Add(order))) <==> !Reuses(w.s, Add(order))
  {
    var next := Next(w, Add(order));
    var f := FirstHalted(w.s.tasks);
    if f != w.s.currentTask {
      forall i | 0 <= i < SLOTS && Waits(next, i)
        ensures i == f || (Waits(w, i) && Holds(w, i))
        ensures Holds(next, i)
      {
      }
    }
  }

  lemma ExitFaithful(w: World)
    requires Faithful(w)
    ensures Faithful(Next(w, Exit))
  {
    var next := Next(w, Exit);
    assert forall i :: 0 <= i < SLOTS && Waits(next, i) ==> Waits(w, i) && Holds(w, i);
  }

  // No event of the run reuses the slot of the process on the processor.
  predicate NoReuse(s: Scheduler, events: seq<Event>)
    requires Sound(s) && CanRun(s, events)
    decreases |events|
  {
    events == [] || (!Reuses(s, events[0]) && NoReuse(Step(s, events[0]), events[1..]))
  }

  ghost predicate AllResumeRight(w: World, events: seq<Event>)
    requires Faithful(w) && CanRun(w.s, events)
    decreases |events|
  {
    events == [] ||
    (ResumesRight(w, events[0]) && Faithful(Next(w, events[0])) && AllResumeRight(Next(w, events[0]), events[1..]))
  }

  /** Over any run without such reuse, every process is resumed with the registers it was
      interrupted with, or created with, in all but KernelRsp. */
  lemma {:induction false} ContextPreserved(w: World, events: seq<Event>)
    requires Faithful(w) && CanRun(w.s, events) && NoReuse(w.s, events)
    ensures AllResumeRight(w, events)
    decreases |events|
  {
    if events != [] {
      var e := events[0];
      match e {
        case Interrupt(frame) => InterruptFaithful(w, frame);
        case Add(order) => AddFaithfulExactly(w, order);
        case Exit => ExitFaithful(w);
      }
      assert Next(w, e).s == Step(w.s, e);
      ContextPreserved(Next(w, e), events[1..]);
    }
  }

  // The world behind a run, in which process p has not been on the processor.
  ghost predicate NotYet(w: World, events: seq<Event>, p: nat, after: World)
    requires Faithful(w) && CanRun(w.s, events)
    decreases |events|
  {
    w.running != p &&
    if events == [] then after == w
    else Faithful(Next(w, events[0])) && CanRun(Next(w, events[0]).s, events[1..])
         && NotYet(Next(w, events[0]), events[1..], p, after)
  }

  lemma {:induction false} Untouched(w: World, events: seq<Event>, p: nat, after: World)
    requires Faithful(w) && CanRun(w.s, events) && p < |w.registers| && NotYet(w, events, p, after)
    ensures Faithful(after) && p < |after.registers| && after.registers[p] == w.registers[p]
    decreases |events|
  {
    if events != [] {
      UntouchedOnce(w, events[0], p, Next(w, events[0]));
      Untouched(Next(w, events[0]), events[1..], p, after);
    }
  }

  lemma UntouchedOnce(w: World, e: Event, p: nat, next: World)
    requires Faithful(w) && Enabled(w.s, e) && p < |w.registers| && w.running != p && next == Next(w, e)
    ensures p < |next.registers| && next.registers[p] == w.registers[p]
  {
  }

  // The next interrupt puts process p on the processor.
  predicate PutsOn(w: World, frame: InterruptStack, p: nat) {
    Faithful(w) && Dispatchable(w.s) && Next(w, Interrupt(frame)).running == p
  }

  lemma ResumedAs(w: World, frame: InterruptStack, p: nat)
    requires PutsOn(w, frame, p) && p < |w.registers| && w.running != p
    ensures Resumed(w.s, frame) == w.registers[p].(KernelRsp := Narrowed(frame.KernelRsp))
  {
    InterruptFaithful(w, frame);
    UntouchedOnce(w, Interrupt(frame), p, Next(w, Interrupt(frame)));
  }

  lemma NewProcess(w: World, order: Order, next: World)
    requires Faithful(w) && HasFree(w.s) && next == Next(w, Add(order))
    ensures |next.registers| == |w.registers| + 1
    ensures StartsAt(next.registers[|w.registers|], order.entry, order.stack, order.code, order.data)
  {
  }

  lemma {:induction false} StillNot(w: World, events: seq<Event>, p: nat, after: World)
    requires Faithful(w) && CanRun(w.s, events) && NotYet(w, events, p, after)
    ensures after.running != p
    decreases |events|
  {
    if events != [] {
      StillNot(Next(w, events[0]), events[1..], p, after);
    }
  }

  /**
   * A new process that does not take the current slot starts as it was ordered: whatever is interrupted, added or
   * exits before, the first interrupt that puts it on the processor resumes it at its entry, at the top of its
   * stack, with the selectors of user mode and all else zero but KernelRsp.
   */
  lemma FirstResume(w: World, order: Order, start: World, events: seq<Event>, after: World, frame: InterruptStack)
    requires Faithful(w) && HasFree(w.s) && !Reuses(w.s, Add(order)) && start == Next(w, Add(order))
    requires Faithful(start) ==>
               CanRun(start.s, events) && NotYet(start, events, |w.registers|, after) && PutsOn(after, frame, |w.registers|)
    ensures Faithful(start)
    ensures Dispatchable(after.s) && SchedulerSpec.Valid(after.s)
    ensures StartsAt(Resumed(after.s, frame).(KernelRsp := 0), order.entry, order.stack, order.code, order.data)
    ensures Resumed(after.s, frame).KernelRsp == Narrowed(frame.KernelRsp)
  {
    var p := |w.registers|;
    AddFaithfulExactly(w, order);
    NewProcess(w, order, start);
    Untouched(start, events, p, after);
    StillNot(start, events, p, after);
    ResumedAs(after, frame, p);
  }

  /** Reuse loses the new process: the next interrupt overwrites the registers it was to
      start with, unless it happens to push the same ones. */
  lemma ReuseLosesExactly(s: Scheduler, order: Order, frame: InterruptStack)
    requires Sound(s) && HasFree(s)
    ensures var added := Added(s, order);
            var i := FirstHalted(s.tasks);
            Dispatchable(added)
            && (Scheduled(added, frame).tasks[i].registers == FirstFrame(order)
                <==> !Reuses(s, Add(order)) || frame == FirstFrame(order))
  {
    var added := Added(s, order);
    assert added.tasks[FirstHalted(s.tasks)].state != HALTED;
  }

  /** So the first task ever added never starts at its entry: it becomes the interrupted kernel. */
  lemma FirstTaskIsTheKernel(blank: Task, order: Order, frame: InterruptStack)
    requires blank.state == HALTED
    ensures var s := Scheduler(seq(SLOTS, i => blank), 0, 0, 1);
            Sound(s) && HasFree(s) && Reuses(s, Add(order))
            && Dispatchable(Added(s, order)) && Resumed(Added(s, order), frame) == frame.(KernelRsp := Narrowed(frame.KernelRsp))
  {
    var s := Scheduler(seq(SLOTS, i => blank), 0, 0, 1);
    assert s.tasks[0].state == HALTED;
    var added := Added(s, order);
    assert added.tasks[0].state != HALTED && Span(added.taskNum) == 1;
  }
}
