// Runs of the scheduler: who gets the processor, and with which registers.

module SchedulerRuns {
  import opened SchedulerSpec

  // ----- Round robin: interrupts alone -----

  lemma CycleRotates(slot: nat, n: nat, j: nat)
    requires slot < n && j < n
    ensures Cycle(Cycle(slot, n)[j], n) == Cycle(slot, n)[j + 1..] + Cycle(slot, n)[..j + 1]
  {
    var a, b := Cycle(Cycle(slot, n)[j], n), Cycle(slot, n)[j + 1..] + Cycle(slot, n)[..j + 1];
    forall i | 0 <= i < n
      ensures a[i] == b[i]
    {
    }
  }

  lemma {:induction false} AliveConcat(live: seq<bool>, a: seq<nat>, b: seq<nat>)
    requires Within(a, |live|) && Within(b, |live|)
    ensures Within(a + b, |live|) && Alive(live, a + b) == Alive(live, a) + Alive(live, b)
  {
    if a == [] {
      assert a + b == b;
    } else {
      assert (a + b)[1..] == a[1..] + b;
      AliveConcat(live, a[1..], b);
    }
  }

  // Position j is the first live slot.
  predicate FirstAt(live: seq<bool>, slots: seq<nat>, j: nat) {
    && Within(slots, |live|) && j < |slots| && live[slots[j]]
    && forall i :: 0 <= i < j ==> !live[slots[i]]
  }

  lemma {:induction false} FindFirst(live: seq<bool>, slots: seq<nat>) returns (j: nat)
    requires Within(slots, |live|) && Alive(live, slots) != []
    ensures FirstAt(live, slots, j)
  {
    if live[slots[0]] {
      j := 0;
    } else {
      var k := FindFirst(live, slots[1..]);
      j := k + 1;
    }
  }

  lemma {:induction false} AliveSplits(live: seq<bool>, slots: seq<nat>, j: nat)
    requires FirstAt(live, slots, j)
    ensures Alive(live, slots) == [slots[j]] + Alive(live, slots[j + 1..])
  {
    if j > 0 {
      assert slots[1..][j..] == slots[j + 1..];
      AliveSplits(live, slots[1..], j - 1);
    }
  }

  lemma {:induction false} AliveUpTo(live: seq<bool>, slots: seq<nat>, j: nat)
    requires FirstAt(live, slots, j)
    ensures Alive(live, slots[..j + 1]) == [slots[j]]
  {
    if j == 0 {
      assert slots[..1] == [slots[0]];
    } else {
      assert slots[..j + 1][1..] == slots[1..][..j];
      AliveUpTo(live, slots[1..], j - 1);
    }
  }

  lemma AliveRotates(live: seq<bool>, slot: nat, n: nat, j: nat)
    requires slot < n <= |live| && FirstAt(live, Cycle(slot, n), j)
    ensures var d := Cycle(slot, n)[j]; var q := Alive(live, Cycle(slot, n));
            q != [] && q[0] == d && Alive(live, Cycle(d, n)) == q[1..] + [d]
  {
    var cycle := Cycle(slot, n);
    CycleRotates(slot, n, j);
    AliveSplits(live, cycle, j);
    AliveUpTo(live, cycle, j);
    AliveConcat(live, cycle[j + 1..], cycle[..j + 1]);
  }

  lemma SavedQueue(s: Scheduler, frame: InterruptStack)
    requires Valid(s)
    ensures Lives(Saved(s, frame).tasks) == Lives(s.tasks) && Queue(Saved(s, frame)) == Queue(s)
  {
  }

  lemma QueueNotEmpty(s: Scheduler)
    requires Valid(s)
    ensures Dispatchable(s) <==> Queue(s) != []
  {
    if Dispatchable(s) {
      assert Dispatched(s) in Queue(s);
    }
    if Queue(s) != [] {
      assert Queue(s)[0] in Queue(s);
    }
  }

  /** The task dispatched goes to the back of the queue; the others move up. */
  lemma QueueRotates(s: Scheduler, frame: InterruptStack)
    requires Valid(s) && Dispatchable(s)
    ensures var next := Scheduled(s, frame);
            Queue(s) != [] && next.currentTask == Queue(s)[0]
            && Dispatchable(next) && Queue(next) == Queue(s)[1..] + [Queue(s)[0]]
  {
    var saved := Saved(s, frame);
    SavedQueue(s, frame);
    QueueNotEmpty(s);
    var j := FindFirst(Lives(s.tasks), Cycle(s.currentTask, Span(s.taskNum)));
    AliveRotates(Lives(s.tasks), s.currentTask, Span(s.taskNum), j);
    QueueNotEmpty(saved.(currentTask := Queue(s)[0]));
  }

  // The slots dispatched by interrupts in a row.
  function Turns(s: Scheduler, frames: seq<InterruptStack>): (r: seq<nat>)
    requires Valid(s) && Dispatchable(s)
    ensures |r| == |frames|
    decreases |frames|
  {
    if frames == [] then []
    else
      QueueRotates(s, frames[0]);
      var next := Scheduled(s, frames[0]);
      [next.currentTask] + Turns(next, frames[1..])
  }

  predicate Distinct(slots: seq<nat>) {
    forall i, j :: 0 <= i < j < |slots| ==> slots[i] != slots[j]
  }

  lemma {:induction false} AliveDistinct(live: seq<bool>, slots: seq<nat>)
    requires Within(slots, |live|) && Distinct(slots)
    ensures Distinct(Alive(live, slots))
  {
    if slots != [] {
      AliveDistinct(live, slots[1..]);
      assert slots[0] !in slots[1..];
      assert slots[0] !in Alive(live, slots[1..]);
    }
  }

  lemma CycleDistinct(slot: nat, n: nat)
    requires slot < n
    ensures Distinct(Cycle(slot, n))
  {
  }

  lemma QueueDistinct(s: Scheduler)
    requires Valid(s)
    ensures Distinct(Queue(s))
  {
    CycleDistinct(s.currentTask, Span(s.taskNum));
    AliveDistinct(Lives(s.tasks), Cycle(s.currentTask, Span(s.taskNum)));
  }

  lemma RotatedPrefix(q: seq<nat>, r: seq<nat>, k: nat)
    requires q != [] && r == q[1..] + [q[0]] && k < |q|
    ensures [q[0]] + r[..k] == q[..k + 1]
  {
  }

  /** Round robin: from any state, as many interrupts as there are running tasks
      dispatch each of these exactly once, in the order of the queue. */
  lemma {:induction false} RoundRobin(s: Scheduler, frames: seq<InterruptStack>)
    requires Valid(s) && Dispatchable(s) && |frames| <= |Queue(s)|
    ensures Distinct(Queue(s)) && Turns(s, frames) == Queue(s)[..|frames|]
    decreases |frames|
  {
    QueueDistinct(s);
    if frames != [] {
      QueueRotates(s, frames[0]);
      var next := Scheduled(s, frames[0]);
      var rest := frames[1..];
      RoundRobin(next, rest);
      RotatedPrefix(Queue(s), Queue(next), |rest|);
    }
  }

  // ----- Runs with tasks coming and going -----

  datatype Event = Interrupt(frame: InterruptStack) | Add(order: Order) | Exit

  // Slots from taskNum on have not been used.
  predicate Sound(s: Scheduler) {
    Valid(s) && forall i :: s.taskNum <= i < SLOTS ==> s.tasks[i].state == HALTED
  }

  // AddTask reads past the array when no slot is free; Schedule does not return when no task runs.
  predicate Enabled(s: Scheduler, e: Event) {
    match e
    case Interrupt(_) => Dispatchable(s)
    case Add(_) => HasFree(s)
    case Exit => true
  }

  function Step(s: Scheduler, e: Event): (r: Scheduler)
    requires Sound(s) && Enabled(s, e)
    ensures Sound(r)
  {
    match e
    case Interrupt(frame) => Scheduled(s, frame)
    case Add(order) => Added(s, order)
    case Exit => Exited(s)
  }

  predicate CanRun(s: Scheduler, events: seq<Event>)
    requires Sound(s)
    decreases |events|
  {
    events == [] || (Enabled(s, events[0]) && CanRun(Step(s, events[0]), events[1..]))
  }

  function Interrupts(events: seq<Event>): nat {
    if events == [] then 0 else (if events[0].Interrupt? then 1 else 0) + Interrupts(events[1..])
  }

  predicate StaysRunning(s: Scheduler, events: seq<Event>, t: nat)
    requires Sound(s) && CanRun(s, events) && t < SLOTS
    decreases |events|
  {
    s.tasks[t].state != HALTED && (events == [] || StaysRunning(Step(s, events[0]), events[1..], t))
  }

  predicate GetsTurn(s: Scheduler, events: seq<Event>, t: nat)
    requires Sound(s) && CanRun(s, events)
    decreases |events|
  {
    events != [] &&
    var next := Step(s, events[0]);
    (events[0].Interrupt? && next.currentTask == t) || GetsTurn(next, events[1..], t)
  }

  // How far t is ahead of a slot, going round all slots.
  function Ahead(slot: nat, t: nat): (d: nat)
    requires slot < SLOTS && t < SLOTS
    ensures 0 < d <= SLOTS
  {
    if t > slot then t - slot else SLOTS + t - slot
  }

  // The search does not pass a live slot.
  lemma CycleNears(slot: nat, n: nat, j: nat, k: nat)
    requires slot < n <= SLOTS && j <= k < n
    ensures var d, t := Cycle(slot, n)[j], Cycle(slot, n)[k];
            d == t || Ahead(d, t) < Ahead(slot, t)
  {
  }

  // A dispatch comes to t, or nearer to it.
  lemma ScheduleApproaches(s: Scheduler, frame: InterruptStack, t: nat)
    requires Sound(s) && Dispatchable(s) && t < SLOTS && s.tasks[t].state != HALTED
    ensures var r := Scheduled(s, frame); r.currentTask == t || Ahead(r.currentTask, t) < Ahead(s.currentTask, t)
  {
    var n := Span(s.taskNum);
    var live, cycle := Lives(s.tasks), Cycle(s.currentTask, n);
    QueueRotates(s, frame);
    var j := FindFirst(live, cycle);
    AliveSplits(live, cycle, j);
    CycleHasAll(s.currentTask, n, t);
    var k :| 0 <= k < n && cycle[k] == t;
    CycleNears(s.currentTask, n, j, k);
  }

  /** Fairness: a task that stays running gets the processor within 1024 interrupts,
      whatever tasks come and go meanwhile. */
  lemma {:induction false} Fair(s: Scheduler, events: seq<Event>, t: nat)
    requires Sound(s) && CanRun(s, events) && t < SLOTS && StaysRunning(s, events, t)
    requires Interrupts(events) >= Ahead(s.currentTask, t)
    ensures GetsTurn(s, events, t)
    decreases |events|
  {
    var e := events[0];
    var next := Step(s, e);
    if e.Interrupt? {
      ScheduleApproaches(s, e.frame, t);
    }
    if !(e.Interrupt? && next.currentTask == t) {
      Fair(next, events[1..], t);
    }
  }

  // ----- Exit -----

  // No call gives the slot to a new task.
  predicate NotReused(s: Scheduler, events: seq<Event>, t: nat)
    requires Sound(s) && CanRun(s, events)
    decreases |events|
  {
    events == [] ||
    ((events[0].Add? ==> FirstHalted(s.tasks) != t) && NotReused(Step(s, events[0]), events[1..], t))
  }

  /** A halted slot is never dispatched until a new task takes it. */
  lemma {:induction false} HaltedStays(s: Scheduler, events: seq<Event>, t: nat)
    requires Sound(s) && CanRun(s, events) && NotReused(s, events, t)
    requires t < SLOTS && s.tasks[t].state == HALTED
    ensures !GetsTurn(s, events, t)
    decreases |events|
  {
    if events != [] {
      var next := Step(s, events[0]);
      assert next.tasks[t].state == HALTED;
      HaltedStays(next, events[1..], t);
    }
  }

  /** A task that exits is not dispatched again, whatever comes, until a new task takes its slot. */
  lemma ExitEnds(s: Scheduler, events: seq<Event>)
    requires Sound(s) && CanRun(s, [Exit] + events) && NotReused(s, [Exit] + events, s.currentTask)
    ensures Sound(Exited(s)) && CanRun(Exited(s), events) && !GetsTurn(Exited(s), events, s.currentTask)
  {
    assert ([Exit] + events)[1..] == events;
    assert Step(s, Exit) == Exited(s);
    HaltedStays(Exited(s), events, s.currentTask);
  }

  /** An exit takes just the current task out of the queue; the others keep their order. */
  lemma ExitLeavesQueue(s: Scheduler)
    requires Valid(s)
    ensures Queue(Exited(s)) == Without(Queue(s), s.currentTask)
  {
    AliveWithout(Lives(s.tasks), Lives(Exited(s).tasks), Cycle(s.currentTask, Span(s.taskNum)), s.currentTask);
  }

  function Without(slots: seq<nat>, t: nat): seq<nat> {
    if slots == [] then [] else (if slots[0] == t then [] else [slots[0]]) + Without(slots[1..], t)
  }

  lemma {:induction false} AliveWithout(live: seq<bool>, after: seq<bool>, slots: seq<nat>, t: nat)
    requires |live| == |after| && Within(slots, |live|) && t < |live|
    requires forall i :: 0 <= i < |live| ==> after[i] == (live[i] && i != t)
    ensures Alive(after, slots) == Without(Alive(live, slots), t)
    decreases |slots|
  {
    if slots != [] {
      AliveWithout(live, after, slots[1..], t);
      if live[slots[0]] {
        WithoutFirst(slots[0], Alive(live, slots[1..]), t);
      } else {
        assert Alive(live, slots) == Alive(live, slots[1..]);
        assert Alive(after, slots) == Alive(after, slots[1..]);
      }
    }
  }

  lemma WithoutFirst(first: nat, rest: seq<nat>, t: nat)
    ensures Without([first] + rest, t) == (if first == t then [] else [first]) + Without(rest, t)
  {
    assert ([first] + rest)[1..] == rest;
  }
}
