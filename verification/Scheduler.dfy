/** The round-robin scheduler (kernel/proc/task.c) as a machine in which every task owns a private
    register file, and what holds over all its runs. */
module Scheduler {
  import opened Words

  const MAX_TASKS := 64

  datatype TaskState = Ready | Running | Terminated

  /** The registers an interrupt saves and restores. */
  datatype Regs = Regs(eax: u32, ecx: u32, edx: u32, ebx: u32, ebp: u32, esi: u32, edi: u32,
                       eip: u32, eflags: u32, cs: u16, esp: u32, ss: u16, ds: u16, es: u16, fs: u16, gs: u16)

  /** One register file and one state per task, the running task, and the pending request. */
  datatype Machine = Machine(files: seq<Regs>, states: seq<TaskState>, current: nat, need: bool) {
    ghost predicate Wf() {
      |files| == |states| <= MAX_TASKS && current < |states|
    }
  }

  /** What the handler of one interrupt may do besides its own work: ask for a reschedule, and (a
      system call) write a result into the saved EAX. */
  datatype Effect = Effect(resched: bool, result: Option<u32>)

  predicate Runnable(s: TaskState) { s == Ready || s == Running }

  // ---------------------------------------------------------------- choosing the next task

  /** The id after `id`, cyclically. */
  function Succ(id: nat, count: nat): nat { if id + 1 == count then 0 else id + 1 }

  lemma SuccIsMod(id: nat, count: nat)
    requires id < count
    ensures (id + 1) % count == Succ(id, count)
  {
    if id + 1 < count {
      assert (id + 1) / count == 0;
    }
  }

  /** How many steps of Succ lead from `a` to `b`. */
  function Steps(a: nat, b: nat, count: nat): int { if b >= a then b - a else b - a + count }

  /** `n` is the runnable task that comes first after `current` in cyclic order, or `current`
      itself when no other task is runnable. */
  ghost predicate IsNext(states: seq<TaskState>, current: nat, n: nat)
    requires current < |states|
  {
    n < |states| &&
    (forall j :: 0 <= j < |states| && j != current && Runnable(states[j]) ==>
       n != current && Steps(current, n, |states|) <= Steps(current, j, |states|)) &&
    (n != current ==> Runnable(states[n]))
  }

  /** The search of find_next_ready, `id` being the candidate and `left` the rounds left. */
  function Scan(states: seq<TaskState>, current: nat, id: nat, left: nat): (n: nat)
    requires current < |states| && id < |states|
    ensures n < |states|
    decreases left
  {
    if left == 0 then current
    else if id != current && Runnable(states[id]) then id
    else Scan(states, current, Succ(id, |states|), left - 1)
  }

  function Next(states: seq<TaskState>, current: nat): (n: nat)
    requires current < |states|
    ensures n < |states|
  {
    Scan(states, current, Succ(current, |states|), |states|)
  }

  lemma {:induction false} ScanFindsNext(states: seq<TaskState>, current: nat, id: nat, left: nat)
    requires current < |states| && id < |states| && 1 <= left <= |states|
    requires id != current ==> Steps(current, id, |states|) == |states| + 1 - left
    requires id == current ==> left == 1
    requires forall j :: 0 <= j < |states| && j != current && Steps(current, j, |states|) < |states| + 1 - left ==>
               !Runnable(states[j])
    ensures IsNext(states, current, Scan(states, current, id, left))
    decreases left
  {
    if id == current {
      assert Scan(states, current, id, 1) == Scan(states, current, Succ(id, |states|), 0) == current;
    } else if !Runnable(states[id]) {
      ScanFindsNext(states, current, Succ(id, |states|), left - 1);
    }
  }

  /** find_next_ready picks the first runnable task after the current one. */
  lemma NextIsNext(states: seq<TaskState>, current: nat)
    requires current < |states|
    ensures IsNext(states, current, Next(states, current))
  {
    ScanFindsNext(states, current, Succ(current, |states|), |states|);
  }

  // ---------------------------------------------------------------- steps

  /** task_schedule_if_needed. */
  function Schedule(m: Machine): Machine
    requires m.Wf()
  {
    if !m.need then m
    else
      var next := Next(m.states, m.current);
      if next == m.current then m.(need := false)
      else
        var demoted := if m.states[m.current] == Running then Ready else m.states[m.current];
        m.(states := m.states[m.current := demoted][next := Running], current := next, need := false)
  }

  /** One interrupt: the handler's effect on the interrupted task, then the scheduler. */
  function Interrupt(m: Machine, e: Effect): Machine
    requires m.Wf()
  {
    var file := match e.result case Some(v) => m.files[m.current].(eax := v) case None => m.files[m.current];
    Schedule(m.(files := m.files[m.current := file], need := m.need || e.resched))
  }

  /** The current task runs: only its own registers change. */
  function Run(m: Machine, file: Regs): Machine
    requires m.Wf()
  {
    m.(files := m.files[m.current := file])
  }

  /** task_create and task_create_user, when they succeed. */
  function Create(m: Machine, file: Regs): Machine
    requires m.Wf()
  {
    m.(files := m.files + [file], states := m.states + [Ready])
  }

  /** task_exit: terminated, then a yield. */
  function Exit(m: Machine): Machine
    requires m.Wf()
  {
    Interrupt(m.(states := m.states[m.current := Terminated]), Effect(true, None))
  }

  datatype Event = Interrupts(effect: Effect) | Runs(file: Regs) | Creates(file: Regs) | Exits

  predicate Enabled(m: Machine, e: Event) {
    e.Creates? ==> |m.states| < MAX_TASKS
  }

  function Step(m: Machine, e: Event): Machine
    requires m.Wf()
  {
    match e
    case Interrupts(f) => Interrupt(m, f)
    case Runs(r) => Run(m, r)
    case Creates(r) => Create(m, r)
    case Exits => Exit(m)
  }

  // ---------------------------------------------------------------- one step

  /** Between calls: only the current task may be RUNNING, and it is RUNNING or has terminated. */
  ghost predicate Inv(m: Machine) {
    m.Wf() && m.states[m.current] != Ready &&
    forall t :: 0 <= t < |m.states| && t != m.current ==> m.states[t] != Running
  }

  lemma StepKeepsInv(m: Machine, e: Event)
    requires Inv(m) && Enabled(m, e)
    ensures Inv(Step(m, e)) && |m.states| <= |Step(m, e).states|
  {
    NextIsNext(m.states, m.current);
    NextIsNext(m.states[m.current := Terminated], m.current);
  }

  /** A suspended task is untouched by every step that does not switch to it; one that has
      terminated is never switched to. */
  lemma StepKeepsOthers(m: Machine, e: Event, t: nat)
    requires Inv(m) && Enabled(m, e) && t < |m.states| && t != m.current
    ensures Inv(Step(m, e)) && t < |Step(m, e).states| && Step(m, e).files[t] == m.files[t]
    ensures Step(m, e).current != t ==> Step(m, e).states[t] == m.states[t]
    ensures m.states[t] == Terminated ==> Step(m, e).current != t
    ensures Step(m, e).current == t ==> Step(m, e).states[t] == Running
  {
    StepKeepsInv(m, e);
    NextIsNext(m.states, m.current);
    NextIsNext(m.states[m.current := Terminated], m.current);
  }

  /** The scheduler acts at this event: a request is pending when the handler returns. */
  predicate Reschedules(m: Machine, e: Event) {
    e.Exits? || (e.Interrupts? && (m.need || e.effect.resched))
  }

  /** Nothing but its own exit terminates a task, and nothing undoes it. */
  lemma OnlyExitTerminates(m: Machine, e: Event, t: nat)
    requires Inv(m) && Enabled(m, e) && t < |m.states|
    ensures t < |Step(m, e).states|
    ensures Step(m, e).states[t] == Terminated <==> m.states[t] == Terminated || (e.Exits? && t == m.current)
  {
    NextIsNext(m.states, m.current);
    NextIsNext(m.states[m.current := Terminated], m.current);
  }

  /** The CPU changes hands only at a request, from a task that becomes READY unless it has terminated, to one
      that was READY; a request does not outlive the event that serves it. */
  lemma CpuIsHandedOver(m: Machine, e: Event)
    requires Inv(m) && Enabled(m, e)
    ensures Inv(Step(m, e)) && |m.states| <= |Step(m, e).states|
    ensures Step(m, e).current != m.current ==>
              && Reschedules(m, e) && Step(m, e).current < |m.states|
              && m.states[Step(m, e).current] == Ready && Step(m, e).states[Step(m, e).current] == Running
              && Step(m, e).states[m.current] ==
                 if m.states[m.current] == Running && !e.Exits? then Ready else Terminated
    ensures Step(m, e).need <==> m.need && !Reschedules(m, e)
    ensures Reschedules(m, e) && (exists t :: 0 <= t < |m.states| && t != m.current && m.states[t] == Ready) ==>
              Step(m, e).current != m.current
  {
    StepKeepsInv(m, e);
    NextIsNext(m.states, m.current);
    NextIsNext(m.states[m.current := Terminated], m.current);
  }

  /** An interrupt changes no register but EAX, and that only for a result; a new task is READY with the
      registers it was given, and changes nothing else. */
  lemma RegistersAfter(m: Machine, e: Event)
    requires Inv(m) && Enabled(m, e)
    ensures Inv(Step(m, e))
    ensures (e.Interrupts? && e.effect.result.None?) || e.Exits? ==> Step(m, e).files == m.files
    ensures e.Interrupts? && e.effect.result.Some? ==>
              Step(m, e).files == m.files[m.current := m.files[m.current].(eax := e.effect.result.value)]
    ensures e.Creates? ==>
              var n := |m.states|;
              && |Step(m, e).states| == |Step(m, e).files| == n + 1
              && Step(m, e).states[n] == Ready && Step(m, e).files[n] == e.file
              && Step(m, e).states[..n] == m.states && Step(m, e).files[..n] == m.files
    ensures !e.Creates? ==> |Step(m, e).states| == |m.states|
  {
    StepKeepsInv(m, e);
  }

  /** Cyclic distance modulo MAX_TASKS, which does not depend on how many tasks exist. */
  function Distance(a: nat, b: nat): int { Steps(a, b, MAX_TASKS) }

  /** Every reschedule brings the CPU strictly closer to a waiting task; no other step moves it. */
  lemma RescheduleApproaches(m: Machine, e: Event, j: nat)
    requires Inv(m) && Enabled(m, e) && j < |m.states| && j != m.current && m.states[j] == Ready
    ensures Inv(Step(m, e)) && j < |Step(m, e).states|
    ensures Reschedules(m, e) ==> Distance(Step(m, e).current, j) < Distance(m.current, j)
    ensures !Reschedules(m, e) ==> Step(m, e).current == m.current
    ensures Step(m, e).current != j ==> Step(m, e).states[j] == Ready
  {
    StepKeepsOthers(m, e, j);
    NextIsNext(m.states, m.current);
    NextIsNext(m.states[m.current := Terminated], m.current);
  }

  // ---------------------------------------------------------------- whole runs

  /** task_init. */
  function Boot(file: Regs): Machine { Machine([file], [Running], 0, false) }

  /** Every event of the run is enabled where it happens. */
  ghost predicate Legal(m: Machine, es: seq<Event>)
    decreases |es|
  {
    es == [] || (m.Wf() && Enabled(m, es[0]) && Legal(Step(m, es[0]), es[1..]))
  }

  ghost function Exec(m: Machine, es: seq<Event>): Machine
    requires Legal(m, es)
    decreases |es|
  {
    if es == [] then m else Exec(Step(m, es[0]), es[1..])
  }

  /** Task `t` is on the CPU before, between or after the events of the run. */
  ghost predicate GetsCpu(m: Machine, es: seq<Event>, t: nat)
    requires Legal(m, es)
    decreases |es|
  {
    m.current == t || (es != [] && GetsCpu(Step(m, es[0]), es[1..], t))
  }

  /** How often the scheduler acts during the run. */
  ghost function Reschedulings(m: Machine, es: seq<Event>): nat
    requires Legal(m, es)
    decreases |es|
  {
    if es == [] then 0
    else (if Reschedules(m, es[0]) then 1 else 0) + Reschedulings(Step(m, es[0]), es[1..])
  }

  /** One event as a run. */
  lemma OneEvent(m: Machine, e: Event)
    requires m.Wf() && Enabled(m, e)
    ensures Legal(m, [e]) && Exec(m, [e]) == Step(m, e)
    ensures forall t: nat :: GetsCpu(m, [e], t) <==> m.current == t || Step(m, e).current == t
  {
    assert [e][1..] == [];
    assert forall t: nat :: GetsCpu(Step(m, e), [], t) <==> Step(m, e).current == t;
  }

  /** One run after another. */
  lemma {:induction false} ExecAppend(m: Machine, a: seq<Event>, b: seq<Event>)
    requires Legal(m, a) && Legal(Exec(m, a), b)
    ensures Legal(m, a + b) && Exec(m, a + b) == Exec(Exec(m, a), b)
    ensures forall t: nat :: GetsCpu(m, a + b, t) <==> GetsCpu(m, a, t) || GetsCpu(Exec(m, a), b, t)
    decreases |a|
  {
    hide Step, Enabled;
    if a == [] {
      assert a + b == b;
      assert forall t: nat :: GetsCpu(m, a, t) ==> GetsCpu(m, b, t);
    } else {
      ExecAppend(Step(m, a[0]), a[1..], b);
      assert (a + b)[1..] == a[1..] + b;
    }
  }

  lemma {:induction false} ReschedulingsAppend(m: Machine, a: seq<Event>, b: seq<Event>)
    requires Legal(m, a) && Legal(Exec(m, a), b)
    ensures Legal(m, a + b) && Reschedulings(m, a + b) == Reschedulings(m, a) + Reschedulings(Exec(m, a), b)
    decreases |a|
  {
    ExecAppend(m, a, b);
    if a == [] {
      assert a + b == b;
    } else {
      ReschedulingsAppend(Step(m, a[0]), a[1..], b);
      assert (a + b)[1..] == a[1..] + b;
    }
  }

  /** In every reachable state no task but the current one is RUNNING. */
  lemma {:induction false} RunKeepsInv(m: Machine, es: seq<Event>)
    requires Inv(m) && Legal(m, es)
    ensures Inv(Exec(m, es)) && |m.states| <= |Exec(m, es).states|
    decreases |es|
  {
    if es != [] {
      StepKeepsInv(m, es[0]);
      RunKeepsInv(Step(m, es[0]), es[1..]);
    }
  }

  /** A terminated task never gets the CPU again, in any run. */
  lemma {:induction false} TerminatedStaysOff(m: Machine, es: seq<Event>, t: nat)
    requires Inv(m) && Legal(m, es) && t < |m.states| && t != m.current && m.states[t] == Terminated
    ensures !GetsCpu(m, es, t)
    decreases |es|
  {
    if es != [] {
      StepKeepsOthers(m, es[0], t);
      TerminatedStaysOff(Step(m, es[0]), es[1..], t);
    }
  }

  /** While a task is off the CPU nothing happens to its registers or its state, whatever the
      others do, create, or exit. */
  lemma {:induction false} SuspendedIsFrozen(m: Machine, es: seq<Event>, t: nat)
    requires Inv(m) && Legal(m, es) && t < |m.states| && !GetsCpu(m, es, t)
    ensures t < |Exec(m, es).states| == |Exec(m, es).files|
    ensures Exec(m, es).files[t] == m.files[t] && Exec(m, es).states[t] == m.states[t]
    decreases |es|
  {
    if es != [] {
      StepKeepsOthers(m, es[0], t);
      SuspendedIsFrozen(Step(m, es[0]), es[1..], t);
    }
  }

  /** A preempted task resumes with exactly the registers it was interrupted with: between the run
      `es` that kept it off the CPU and the event `e` that brings it back nothing changed them. */
  lemma ResumesWithItsRegisters(m: Machine, es: seq<Event>, e: Event, t: nat)
    requires Inv(m) && Legal(m, es) && t < |m.states| && !GetsCpu(m, es, t)
    requires Exec(m, es).Wf() && Enabled(Exec(m, es), e) && Step(Exec(m, es), e).current == t
    ensures t < |Step(Exec(m, es), e).files| && Step(Exec(m, es), e).files[t] == m.files[t]
    ensures m.states[t] == Ready && Step(Exec(m, es), e).states[t] == Running
  {
    RunKeepsInv(m, es);
    SuspendedIsFrozen(m, es, t);
    assert !GetsCpu(m, es, t) ==> Exec(m, es).current != t by { OffAtEnd(m, es, t); }
    StepKeepsOthers(Exec(m, es), e, t);
  }

  lemma {:induction false} OffAtEnd(m: Machine, es: seq<Event>, t: nat)
    requires Legal(m, es) && !GetsCpu(m, es, t)
    ensures Exec(m, es).current != t
    decreases |es|
  {
    if es != [] {
      OffAtEnd(Step(m, es[0]), es[1..], t);
    }
  }

  /** While a ready task waits, fewer reschedules happen than its distance from the CPU. */
  lemma {:induction false} WaitIsBounded(m: Machine, es: seq<Event>, j: nat)
    requires Inv(m) && Legal(m, es) && j < |m.states| && m.states[j] == Ready && !GetsCpu(m, es, j)
    ensures Reschedulings(m, es) < Distance(m.current, j)
    decreases |es|
  {
    if es != [] {
      RescheduleApproaches(m, es[0], j);
      WaitIsBounded(Step(m, es[0]), es[1..], j);
    }
  }

  /** Bounded waiting: a READY task is on the CPU by the 63rd reschedule, even while tasks are
      created and others exit. */
  lemma ReadyTaskRunsWithin63(m: Machine, es: seq<Event>, j: nat)
    requires Inv(m) && Legal(m, es) && j < |m.states| && m.states[j] == Ready
    requires Reschedulings(m, es) >= MAX_TASKS - 1
    ensures GetsCpu(m, es, j)
  {
    if !GetsCpu(m, es, j) {
      WaitIsBounded(m, es, j);
    }
  }

  /** A task that was interrupted and lost the CPU is not forgotten: whatever event took the CPU from it, and
      whatever happens afterwards, it has the CPU again by the 63rd reschedule. */
  lemma PreemptedTaskComesBack(m: Machine, e: Event, es: seq<Event>)
    requires Inv(m) && Enabled(m, e) && !e.Exits? && m.states[m.current] == Running
    requires Step(m, e).current != m.current && Legal(Step(m, e), es)
    requires Reschedulings(Step(m, e), es) >= MAX_TASKS - 1
    ensures GetsCpu(Step(m, e), es, m.current)
  {
    CpuIsHandedOver(m, e);
    ReadyTaskRunsWithin63(Step(m, e), es, m.current);
  }

  /** A task is not terminated until it exits: over every run in which it does not exit while it has the CPU. */
  lemma {:induction false} LivesUntilItExits(m: Machine, es: seq<Event>, t: nat)
    requires Inv(m) && Legal(m, es) && t < |m.states|
    ensures t < |Exec(m, es).states|
    ensures Exec(m, es).states[t] == Terminated <==> m.states[t] == Terminated || ExitsIn(m, es, t)
    decreases |es|
  {
    if es != [] {
      OnlyExitTerminates(m, es[0], t);
      StepKeepsInv(m, es[0]);
      LivesUntilItExits(Step(m, es[0]), es[1..], t);
    }
  }

  /** Task `t` exits at some event of the run. */
  ghost predicate ExitsIn(m: Machine, es: seq<Event>, t: nat)
    requires Legal(m, es)
    decreases |es|
  {
    es != [] && ((es[0].Exits? && m.current == t) || ExitsIn(Step(m, es[0]), es[1..], t))
  }
}
