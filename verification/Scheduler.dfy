// The scheduler object: kernel/src/scheduling/taskmgr.cpp.

module Schedulers {
  import opened SchedulerSpec

  // The frame an interrupt pushed, which Schedule rewrites in place.
  class InterruptFrame {
    var Registers: InterruptStack

    constructor (frame: InterruptStack)
      ensures Registers == frame
    {
      Registers := frame;
    }
  }

  class TaskManager {
    const tasks: array<Task>
    var currentTask: nat
    var taskNum: nat
    var isEnabled: int
    // The file's own counter.
    var lastTerminal: int
    const UCode: nat
    const UData: nat

    ghost function View(): Scheduler
      reads this, tasks
    {
      Scheduler(tasks[..], currentTask, taskNum, lastTerminal)
    }

    ghost predicate Valid()
      reads this, tasks
    {
      SchedulerSpec.Valid(View())
    }

    // The task array starts zeroed.
    constructor (blank: Task, code: nat, data: nat)
      requires blank.state == HALTED
      ensures Valid() && fresh(tasks) && isEnabled == 0
      ensures View() == Scheduler(seq(SLOTS, i => blank), 0, 0, 1)
    {
      tasks := new Task[SLOTS](i => blank);
      currentTask, taskNum, isEnabled, lastTerminal, UCode, UData := 0, 0, 0, 1, code, data;
      new;
      assert tasks[..] == seq(SLOTS, i => blank);
    }

    method Schedule(registers: InterruptFrame)
      requires Valid() && (isEnabled != 0 ==> Dispatchable(View()))
      modifies `currentTask, tasks, registers
      ensures Valid()
      ensures isEnabled == 0 ==> View() == old(View()) && registers.Registers == old(registers.Registers)
      ensures isEnabled != 0 ==> View() == Scheduled(old(View()), old(registers.Registers))
      ensures isEnabled != 0 ==> registers.Registers == Resumed(old(View()), old(registers.Registers))
    {
      if isEnabled == 0 {
        return;
      }
      tasks[currentTask] := tasks[currentTask].(registers := registers.Registers);
      ghost var s := Saved(old(View()), registers.Registers);
      assert View() == s;
      NextTask(s);
      var kernelStack := Narrowed(registers.Registers.KernelRsp);
      registers.Registers := tasks[currentTask].registers;
      registers.Registers := registers.Registers.(KernelRsp := kernelStack);
    }

    // The do-while loop.
    method NextTask(ghost s: Scheduler)
      requires Valid() && s == View() && Dispatchable(s)
      modifies `currentTask
      ensures View() == s.(currentTask := Dispatched(s))
    {
      ghost var live, k := Lives(s.tasks), 0;
      ghost var cycle := Cycle(currentTask, Span(taskNum));
      var halted := true;
      while halted
        invariant tasks[..] == s.tasks && currentTask < SLOTS && taskNum == s.taskNum
        invariant At(s.currentTask, cycle, currentTask, k)
        invariant if halted then Dead(live, cycle, k) else k > 0 && Dead(live, cycle, k - 1) && live[currentTask]
        decreases |cycle| - k, halted
      {
        SomeAlive(s, k);
        StepOn(s, cycle, currentTask, k, live, k + 1);
        currentTask := currentTask + 1;
        if taskNum <= currentTask {
          currentTask := 0;
        }
        k := k + 1;
        halted := tasks[currentTask].state == HALTED;
      }
      Found(s, cycle, currentTask, k);
    }

    method AddTask(entry: nat, stack: nat, name: string, privilege: nat, executableSize: nat)
      requires Valid() && HasFree(View())
      modifies `taskNum, `lastTerminal, tasks
      ensures Valid()
      ensures View() == Added(old(View()), Order(entry, stack, name, privilege, executableSize, UCode, UData))
      ensures var i := FirstHalted(old(tasks[..]));
              i < SLOTS && StartsAt(tasks[i].registers, entry, stack, UCode, UData) && tasks[i].name == name
    {
      var registers := InterruptStack(0, 0, 0, 0, 0, 0, 0, 0, 0, 0, 0, 0, 0, 0, 0, 0, 0, 0, 0, 0, 0);
      registers := registers.(rip := entry, rsp := StackTop(stack), rflags := 0x202);
      registers := registers.(cs := UCode, ss := UData);
      var task := Task(entry, name, RUNNING, privilege, registers, lastTerminal, executableSize);
      lastTerminal := lastTerminal + 1;
      var i := 0;
      while tasks[i].state != HALTED
        invariant i <= FirstHalted(tasks[..]) < SLOTS
        decreases SLOTS - i
      {
        i := i + 1;
      }
      if i >= taskNum {
        taskNum := i + 1;
      }
      tasks[i] := task;
    }

    method ExitCurrentTask()
      requires Valid()
      modifies tasks
      ensures Valid() && View() == Exited(old(View()))
    {
      tasks[currentTask] := tasks[currentTask].(state := HALTED);
    }
  }

  // The search has looked at k slots and stands at the last of them.
  predicate At(start: nat, cycle: seq<nat>, slot: nat, k: nat) {
    k <= |cycle| && slot == if k == 0 then start else cycle[k - 1]
  }

  // None of the first k slots is live.
  predicate Dead(live: seq<bool>, cycle: seq<nat>, k: nat) {
    forall i :: 0 <= i < k && i < |cycle| && cycle[i] < |live| ==> !live[cycle[i]]
  }

  // One more turn: the next slot, still nothing live if it is halted.
  lemma StepOn(s: Scheduler, cycle: seq<nat>, slot: nat, k: nat, live: seq<bool>, turns: nat)
    requires SchedulerSpec.Valid(s) && cycle == Cycle(s.currentTask, Span(s.taskNum)) && live == Lives(s.tasks)
    requires At(s.currentTask, cycle, slot, k) && k < |cycle| && turns == k + 1 && Dead(live, cycle, k)
    ensures At(s.currentTask, cycle, Follow(slot, s.taskNum), turns) && Follow(slot, s.taskNum) < SLOTS
    ensures !live[Follow(slot, s.taskNum)] ==> Dead(live, cycle, turns)
  {
    assert cycle[k] == Follow(slot, s.taskNum);
  }

  lemma Found(s: Scheduler, cycle: seq<nat>, slot: nat, k: nat)
    requires SchedulerSpec.Valid(s) && Dispatchable(s) && cycle == Cycle(s.currentTask, Span(s.taskNum))
    requires k > 0 && At(s.currentTask, cycle, slot, k) && Dead(Lives(s.tasks), cycle, k - 1)
    requires slot < |s.tasks| && Lives(s.tasks)[slot]
    ensures slot == Dispatched(s)
  {
    AliveFirst(Lives(s.tasks), cycle, k - 1);
  }

  lemma SomeAlive(s: Scheduler, k: nat)
    requires SchedulerSpec.Valid(s) && Dispatchable(s) && Dead(Lives(s.tasks), Cycle(s.currentTask, Span(s.taskNum)), k)
    ensures k < Span(s.taskNum)
  {
    var t := Dispatched(s);
    CycleHasAll(s.currentTask, Span(s.taskNum), t);
  }

  lemma {:induction false} AliveFirst(live: seq<bool>, slots: seq<nat>, k: nat)
    requires Within(slots, |live|)
    requires k < |slots| && live[slots[k]] && forall i :: 0 <= i < k ==> !live[slots[i]]
    ensures Alive(live, slots) != [] && Alive(live, slots)[0] == slots[k]
  {
    if k > 0 {
      AliveFirst(live, slots[1..], k - 1);
    }
  }
}
