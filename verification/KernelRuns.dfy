/** Runs of the stack-swapping kernel: its actions as functions of the whole state, and what every
    sequence of them keeps. */
module KernelRuns {
  import opened Words
  import opened Scheduler
  import opened ContextSwitch

  /** The state and the kernel stacks it uses. */
  datatype World = World(c: Conc, k: Stacks) {
    ghost predicate Ok() { Safe(c, k) }
  }

  datatype Action =
    | Interrupted(vector: u32, err: u32, handler: Option<Effect>, scratch: seq<u32>, pokes: seq<Poke>)
    | Computed(regs: Regs, pokes: seq<Poke>)
    | KernelTaskMade(entry: u32, taskExit: u32, stack: u32)
    | UserTaskMade(entry: u32, kstack: u32, ustack: u32)
    | Quit(scratch: seq<u32>, pokes: seq<Poke>)
    // an interrupt in two steps, for a handler that waits or yields: between them it runs as kernel code
    | HandlerEntered(vector: u32, err: u32, eip: u32, eflags: u32)
    | HandlerLeft(w: int, result: Option<u32>, resched: bool)

  // ---------------------------------------------------------------- one interrupt

  /** The word where the frame of an interrupt starts. */
  function FrameAt(c: Conc): int { EntryTop(c) - FrameWords(c.cpu.cs) }

  /** What an interrupt needs: room on the stack, and a handler that stays off the frame and off the
      other kernel stacks. */
  ghost predicate CanEnter(c: Conc, k: Stacks, scratch: seq<u32>, pokes: seq<Poke>) {
    Safe(c, k) && Room(c, k, |scratch|) && Harmless(c, k, pokes, FrameAt(c), EntryTop(c))
  }

  /** The frame lies in memory. */
  ghost predicate FrameInRam(c: Conc) {
    c.cur < |c.ts| && 0 <= FrameAt(c) && EntryTop(c) <= RAM_WORDS - 2 && |c.m| == RAM_WORDS
  }

  lemma EnterInRam(c: Conc, k: Stacks)
    requires Safe(c, k) && Room(c, k, 0)
    ensures FrameInRam(c) && k.lo[c.cur] <= FrameAt(c) && EntryTop(c) <= k.hi[c.cur]
  {
    hide Saved;
  }

  /** Memory after the CPU and the stub saved the registers. */
  ghost function EnteredMem(c: Conc, vector: u32, err: u32): (m: seq<u32>)
    requires FrameInRam(c)
    ensures |m| == |c.m|
  {
    PushAll(c.m, EntryTop(c), Pushes(c.cpu, vector, err, 4 * (FrameAt(c) + 9)))
  }

  /** The state when the handler returns to isr_handler. */
  ghost function HandledState(c: Conc, vector: u32, err: u32, e: Effect, scratch: seq<u32>, pokes: seq<Poke>): Conc
    requires FrameInRam(c)
  {
    c.(m := Handled(EnteredMem(c, vector, err), FrameAt(c), scratch, pokes, e.result), need := c.need || e.resched)
  }

  /** The state after the iret. */
  ghost function AfterInterrupt(c: Conc, vector: u32, err: u32, e: Effect, scratch: seq<u32>, pokes: seq<Poke>): Conc
    requires FrameInRam(c)
  {
    var (d, esp) := Scheduled(HandledState(c, vector, err, e, scratch, pokes), 4 * FrameAt(c));
    d.(cpu := Saved(d.m, esp / 4))
  }

  /** No task but `cur` has its saved stack pointer changed. */
  ghost predicate KeepsEsps(ts: seq<Task>, ts': seq<Task>, cur: nat) {
    |ts| <= |ts'| && forall t :: 0 <= t < |ts| && t != cur ==> ts'[t].esp == ts[t].esp
  }

  /** A task that was switched to has the registers found through its saved stack pointer. */
  ghost predicate ResumesThroughEsp(c: Conc, d: Conc) {
    d.cur != c.cur && d.cur < |c.ts| ==> d.cpu == Saved(d.m, c.ts[d.cur].esp / 4)
  }

  /** What every action keeps: the stacks there were, the saved stack pointers of all tasks but the
      current one, and their stacks' words; a task switched to resumes through its saved pointer. */
  ghost predicate Leaves(s: World, d: World) {
    && |s.k.lo| <= |d.k.lo| && d.k.lo[..|s.k.lo|] == s.k.lo && |s.k.hi| <= |d.k.hi| && d.k.hi[..|s.k.hi|] == s.k.hi
    && KeepsEsps(s.c.ts, d.c.ts, s.c.cur) && d.c.cur < |s.c.ts| && ResumesThroughEsp(s.c, d.c)
    && OthersSame(s.c.m, d.c.m, s.k, s.c.cur)
  }

  lemma ScheduledKeepsEsps(c: Conc, esp: u32)
    requires c.cur < |c.ts|
    ensures var (d, r) := Scheduled(c, esp);
            KeepsEsps(c.ts, d.ts, c.cur) && |d.ts| == |c.ts| && d.m == c.m && d.cur < |c.ts| &&
            (d.cur != c.cur ==> r == c.ts[d.cur].esp)
  {
    var next := Next(StatesOf(c.ts), c.cur);
    if next != c.cur { SwitchedIs(c.ts, c.cur, next, esp); }
  }

  /** When the handler is called, the registers wait in the frame. */
  lemma EntrySaves(c: Conc, k: Stacks, vector: u32, err: u32)
    requires Safe(c, k) && Room(c, k, 0)
    ensures FrameInRam(c)
    ensures var c1 := c.(m := EnteredMem(c, vector, err));
            Entered(c1, k, FrameAt(c), c.cpu) && Abs(c1) == Abs(c) && OthersSame(c.m, c1.m, k, c.cur)
  {
    EnterInRam(c, k);
    assert |Pushes(c.cpu, vector, err, 4 * (FrameAt(c) + 9))| == FrameWords(c.cpu.cs);
    hide Saved, OthersSame, Pushes, Safe;
    EnterSaves(c, k, EnteredMem(c, vector, err), vector, err, 4 * (FrameAt(c) + 9));
  }

  /** When the handler returns, the registers, with a result in EAX, wait in the frame. */
  lemma HandlerReturns(c: Conc, k: Stacks, vector: u32, err: u32, e: Effect, scratch: seq<u32>, pokes: seq<Poke>)
    requires CanEnter(c, k, scratch, pokes)
    ensures FrameInRam(c) && k.lo[c.cur] + |scratch| <= FrameAt(c)
    ensures var d := HandledState(c, vector, err, e, scratch, pokes);
            && Entered(d, k, FrameAt(c), WithResult(c.cpu, e.result))
            && Abs(c.(m := d.m)) == Abs(c) && OthersSame(c.m, d.m, k, c.cur)
  {
    EntrySaves(c, k, vector, err);
    var w, m1 := FrameAt(c), EnteredMem(c, vector, err);
    var c1, c2 := c.(m := m1), HandledState(c, vector, err, e, scratch, pokes);
    HarmlessAfter(c, c1, k, pokes, w, EntryTop(c));
    hide Saved, OthersSame, Handled, Harmless, Safe, Entered, EnteredMem, Abs;
    HandlerKeeps(c1, k, w, c.cpu, scratch, pokes, e);
    OthersSameTrans(c.m, m1, c2.m, k, c.cur);
    assert c1.(m := c2.m) == c.(m := c2.m);
  }

  /** From vector to iret: one interrupt of the machine with private register files. */
  lemma InterruptActs(c: Conc, k: Stacks, vector: u32, err: u32, e: Effect, scratch: seq<u32>, pokes: seq<Poke>)
    requires CanEnter(c, k, scratch, pokes)
    ensures FrameInRam(c)
    ensures var d := AfterInterrupt(c, vector, err, e, scratch, pokes);
            Safe(d, k) && Abs(d) == Interrupt(Abs(c), e) && |d.ts| == |c.ts| && Leaves(World(c, k), World(d, k))
  {
    HandlerReturns(c, k, vector, err, e, scratch, pokes);
    var w, c2 := FrameAt(c), HandledState(c, vector, err, e, scratch, pokes);
    var (d, esp) := Scheduled(c2, 4 * w);
    assert c2 == c.(m := c2.m, need := c.need || e.resched) && c.(cpu := c.cpu) == c;
    hide Saved, OthersSame, HandledState, Safe, Entered, Scheduled;
    InterruptRefines(c, c2, k, w, c.cpu, WithResult(c.cpu, e.result), e, esp);
    ScheduledLeaves(c, k, c2, 4 * w);
  }

  lemma ScheduledLeaves(c: Conc, k: Stacks, c2: Conc, esp: u32)
    requires c.cur < |c.ts| && c2.ts == c.ts && c2.cur == c.cur && OthersSame(c.m, c2.m, k, c.cur)
    ensures var (d, r) := Scheduled(c2, esp);
            |d.ts| == |c.ts| && d.m == c2.m && Leaves(World(c, k), World(d.(cpu := Saved(d.m, r / 4)), k))
  {
    hide Saved, OthersSame;
    ScheduledKeepsEsps(c2, esp);
  }

  lemma HarmlessAfter(c: Conc, d: Conc, k: Stacks, ps: seq<Poke>, lo: int, hi: int)
    requires Harmless(c, k, ps, lo, hi) && d.cur == c.cur
    ensures Harmless(d, k, ps, lo, hi)
  {
  }

  // ---------------------------------------------------------------- entering and leaving a handler

  /** The registers with which isr_handler is called: kernel segments, the stack below the frame at `w`. */
  function HandlerRegs(r: Regs, w: int, eip: u32, eflags: u32): Regs
    requires 0 <= 4 * w < TWO32
  {
    r.(eax := r.eax - r.eax % 0x1_0000 + KERNEL_DATA, eip := eip, eflags := eflags, cs := KERNEL_CODE, esp := 4 * w,
       ss := KERNEL_DATA, ds := KERNEL_DATA, es := KERNEL_DATA, fs := KERNEL_DATA, gs := KERNEL_DATA)
  }

  /** The state when the handler starts. */
  ghost function AfterEntry(c: Conc, vector: u32, err: u32, eip: u32, eflags: u32): Conc
    requires FrameInRam(c)
  {
    c.(m := EnteredMem(c, vector, err), cpu := HandlerRegs(c.cpu, FrameAt(c), eip, eflags))
  }

  /** The handler stands below the frame at `w` and can return through it. */
  ghost predicate CanLeave(c: Conc, k: Stacks, w: int)
    requires Safe(c, k)
  {
    && !UserMode(c.cpu.cs) && c.cpu.esp / 4 <= w && 4 * w < TWO32
    && FrameFits(c.m, w, k.lo[c.cur], k.hi[c.cur], c.ts[c.cur].isUser)
  }

  /** The state after the iret, when the handler has returned and the scheduler decided. */
  ghost function AfterExit(c: Conc, w: int, result: Option<u32>, resched: bool): Conc
    requires c.cur < |c.ts| && 0 <= 4 * w < TWO32
  {
    var (d, esp) := Scheduled(c.(m := Handled(c.m, w, [], [], result), need := c.need || resched), 4 * w);
    d.(cpu := Saved(d.m, esp / 4))
  }

  /** Entering a handler is a step of the task's own registers. */
  lemma EntryActs(c: Conc, k: Stacks, vector: u32, err: u32, eip: u32, eflags: u32)
    requires Safe(c, k) && Room(c, k, 0)
    ensures FrameInRam(c)
    ensures var d := AfterEntry(c, vector, err, eip, eflags);
            && Safe(d, k) && Abs(d) == Run(Abs(c), HandlerRegs(c.cpu, FrameAt(c), eip, eflags))
            && Saved(d.m, FrameAt(c)) == c.cpu && Leaves(World(c, k), World(d, k))
  {
    hide Saved, EnteredMem, OthersSame, Safe, Abs, Entered, CpuFits, Leaves, HandlerRegs;
    EntrySaves(c, k, vector, err);
    var c1, h := c.(m := EnteredMem(c, vector, err)), HandlerRegs(c.cpu, FrameAt(c), eip, eflags);
    FrameWithin(c1, k, FrameAt(c), c.cpu);
    HandlerFits(c.cpu, FrameAt(c), eip, eflags, k.lo[c.cur], k.hi[c.cur], c.ts[c.cur].isUser);
    NewRegs(c1, k, FrameAt(c), c.cpu, h);
    SameTasksLeaves(c, k, c1.(cpu := h));
  }

  lemma HandlerFits(r: Regs, w: int, eip: u32, eflags: u32, lo: int, hi: int, isUser: bool)
    requires 0 <= 4 * w < TWO32 && lo <= w <= hi && 4 * w / 4 == w && 4 * w % 4 == 0
    ensures CpuFits(HandlerRegs(r, w, eip, eflags), lo, hi, isUser)
  {
  }

  lemma SameTasksLeaves(c: Conc, k: Stacks, d: Conc)
    requires d.ts == c.ts && d.cur == c.cur < |c.ts| && OthersSame(c.m, d.m, k, c.cur)
    ensures Leaves(World(c, k), World(d, k))
  {
    hide OthersSame, Saved;
  }

  lemma FrameWithin(c: Conc, k: Stacks, w: int, r: Regs)
    requires Entered(c, k, w, r)
    ensures c.cur < |c.ts| == |k.lo| == |k.hi| && 0 <= k.lo[c.cur] <= w <= k.hi[c.cur]
    ensures 4 * w / 4 == w && 4 * w % 4 == 0 && Saved(c.m, w) == r
  {
  }

  /** With the registers saved in the frame the CPU may be given new ones. */
  lemma NewRegs(c: Conc, k: Stacks, w: int, r: Regs, h: Regs)
    requires Entered(c, k, w, r) && CpuFits(h, k.lo[c.cur], k.hi[c.cur], c.ts[c.cur].isUser)
    ensures Safe(c.(cpu := h), k) && Abs(c.(cpu := h)) == Run(Abs(c), h)
  {
    hide Saved, FrameFits, CpuFits;
    var d := c.(cpu := h);
    assert forall t :: 0 <= t < |c.ts| && t != c.cur ==> View(d, t) == View(c, t);
    assert Files(d) == Files(c)[c.cur := h];
  }

  /** Leaving it gives the task the registers in the frame and is then an interrupt. */
  lemma ExitActs(c: Conc, k: Stacks, w: int, result: Option<u32>, resched: bool)
    requires Safe(c, k) && CanLeave(c, k, w)
    ensures 0 <= 4 * w < TWO32
    ensures var d := AfterExit(c, w, result, resched);
            && Safe(d, k) && Abs(d) == Interrupt(Run(Abs(c), Saved(c.m, w)), Effect(resched, result))
            && Leaves(World(c, k), World(d, k))
  {
    var r, e := Saved(c.m, w), Effect(resched, result);
    var c2 := c.(m := Handled(c.m, w, [], [], result), need := c.need || resched);
    LeaveEntered(c, k, w);
    hide Saved, OthersSame, Handled, Safe, Entered, Scheduled, CanLeave, FrameWords;
    HandlerKeeps(c, k, w, r, [], [], e);
    var (d, esp) := Scheduled(c2, 4 * w);
    InterruptRefines(c, c2, k, w, r, WithResult(r, result), e, esp);
    ScheduledLeaves(c, k, c2, 4 * w);
    FileIs(c, r);
  }

  lemma FileIs(c: Conc, r: Regs)
    requires Abs(c).Wf()
    ensures Abs(c.(cpu := r)) == Run(Abs(c), r)
  {
    assert Files(c.(cpu := r)) == Files(c)[c.cur := r];
  }

  lemma LeaveEntered(c: Conc, k: Stacks, w: int)
    requires Safe(c, k) && CanLeave(c, k, w)
    ensures 0 <= k.lo[c.cur] <= w && 0 <= 4 * w < TWO32 && Entered(c, k, w, Saved(c.m, w))
    ensures c.cur < |c.ts| && Scheduler.Inv(Abs(c))
  {
  }

  // ---------------------------------------------------------------- one action

  /** The current task marked terminated, as task_exit leaves it. */
  ghost function Ended(c: Conc): Conc
    requires c.cur < |c.ts|
  {
    c.(ts := c.ts[c.cur := c.ts[c.cur].(state := Terminated)])
  }

  lemma EndedIsSafe(c: Conc, k: Stacks)
    requires Safe(c, k)
    ensures Safe(Ended(c), k) && Abs(Ended(c)) == Abs(c).(states := Abs(c).states[c.cur := Terminated])
    ensures FrameAt(Ended(c)) == FrameAt(c) && EntryTop(Ended(c)) == EntryTop(c)
  {
    hide Saved, CpuFits;
    assert Files(Ended(c)) == Files(c);
  }

  /** Whether an action can happen: nobody writes another task's kernel stack or the frame, stacks
      have room, and kmalloc hands out fresh ones. An unhandled exception ends the run. */
  ghost predicate Possible(s: World, a: Action)
    requires s.Ok()
  {
    match a
    case Interrupted(v, _, h, scratch, pokes) => (h.Some? || v >= 32) && CanEnter(s.c, s.k, scratch, pokes)
    case Computed(r, pokes) =>
      CpuFits(r, s.k.lo[s.c.cur], s.k.hi[s.c.cur], s.c.ts[s.c.cur].isUser) && Harmless(s.c, s.k, pokes, 0, 0)
    case KernelTaskMade(_, _, stack) => stack != 0 ==> FreeStack(s.k, stack)
    case UserTaskMade(_, kstack, ustack) => (kstack != 0 ==> FreeStack(s.k, kstack)) && ustack + 4 * STACK_WORDS < TWO32
    case Quit(scratch, pokes) => CanEnter(s.c, s.k, scratch, pokes)
    case HandlerEntered(_, _, _, _) => Room(s.c, s.k, 0)
    case HandlerLeft(w, _, _) => CanLeave(s.c, s.k, w)
  }

  /** A creation succeeds: a free slot, and all the memory it asks for. */
  predicate Creates(c: Conc, a: Action) {
    match a
    case KernelTaskMade(_, _, stack) => |c.ts| < MAX_TASKS && stack != 0
    case UserTaskMade(_, kstack, ustack) => |c.ts| < MAX_TASKS && kstack != 0 && ustack != 0
    case _ => false
  }

  /** The state with one more task, whose first frame is `frame` on the stack at word `lo`. */
  ghost function Grown(s: World, lo: int, frame: seq<u32>, task: Task): World {
    World(s.c.(m := PushAll(s.c.m, lo + STACK_WORDS, frame), ts := s.c.ts + [task]),
          Stacks(s.k.lo + [lo], s.k.hi + [lo + STACK_WORDS]))
  }

  function KernelTask(stack: u32): Task
    requires stack + 4 * STACK_WORDS < TWO32
  {
    Task(stack + 4 * STACK_WORDS - 60, stack, 0, stack + 4 * STACK_WORDS, Ready, false)
  }

  function UserTask(kstack: u32, ustack: u32): Task
    requires kstack + 4 * STACK_WORDS < TWO32
  {
    Task(kstack + 4 * STACK_WORDS - 64, kstack, ustack, kstack + 4 * STACK_WORDS, Ready, true)
  }

  /** What an action does. */
  ghost function Act(s: World, a: Action): World
    requires s.Ok() && Possible(s, a)
  {
    match a
    case Interrupted(v, err, h, scratch, pokes) =>
      EnterInRam(s.c, s.k);
      World(AfterInterrupt(s.c, v, err, h.GetOr(Effect(false, None)), scratch, pokes), s.k)
    case Computed(r, pokes) => World(s.c.(m := Poked(s.c.m, pokes), cpu := r), s.k)
    case KernelTaskMade(entry, taskExit, stack) =>
      if Creates(s.c, a) then Grown(s, stack / 4, KernelFrame(entry, taskExit), KernelTask(stack)) else s
    case UserTaskMade(entry, kstack, ustack) =>
      if Creates(s.c, a) then Grown(s, kstack / 4, UserFrame(entry, ustack), UserTask(kstack, ustack)) else s
    case Quit(scratch, pokes) =>
      EnterInRam(s.c, s.k);
      World(AfterInterrupt(Ended(s.c), 129, 0, Effect(true, None), scratch, pokes), s.k)
    case HandlerEntered(v, err, eip, eflags) =>
      EnterInRam(s.c, s.k);
      World(AfterEntry(s.c, v, err, eip, eflags), s.k)
    case HandlerLeft(w, result, resched) =>
      LeaveEntered(s.c, s.k, w);
      World(AfterExit(s.c, w, result, resched), s.k)
  }

  /** The events of the abstract machine that an action is; none for a creation that fails. */
  ghost function EventsOf(c: Conc, a: Action): seq<Event> {
    match a
    case Interrupted(_, _, h, _, _) => [Interrupts(h.GetOr(Effect(false, None)))]
    case Computed(r, _) => [Runs(r)]
    case KernelTaskMade(entry, _, stack) =>
      if Creates(c, a) && stack + 4 * STACK_WORDS < TWO32 then [Event.Creates(FreshKernel(entry, stack))] else []
    case UserTaskMade(entry, _, ustack) =>
      if Creates(c, a) && ustack + 4 * STACK_WORDS < TWO32 then [Event.Creates(FreshUser(entry, ustack))] else []
    case Quit(_, _) => [Exits]
    case HandlerEntered(_, _, eip, eflags) =>
      if 0 <= 4 * FrameAt(c) < TWO32 then [Runs(HandlerRegs(c.cpu, FrameAt(c), eip, eflags))] else []
    case HandlerLeft(w, result, resched) => [Runs(Saved(c.m, w)), Interrupts(Effect(resched, result))]
  }

  lemma GrownRefines(s: World, lo: int, frame: seq<u32>, task: Task, file: Regs)
    requires s.Ok() && |s.c.ts| < MAX_TASKS && 0 <= lo && lo + STACK_WORDS <= RAM_WORDS - 2 && |frame| <= STACK_WORDS
    requires forall t :: 0 <= t < |s.k.lo| ==> lo + STACK_WORDS <= s.k.lo[t] || s.k.hi[t] <= lo
    requires task.state == Ready && task.esp % 4 == 0
    requires var m' := PushAll(s.c.m, lo + STACK_WORDS, frame);
             Saved(m', task.esp / 4) == file && FrameFits(m', task.esp / 4, lo, lo + STACK_WORDS, task.isUser)
    requires task.isUser ==> task.kernelStackTop == 4 * (lo + STACK_WORDS)
    ensures var d := Grown(s, lo, frame, task); d.Ok() && Abs(d.c) == Create(Abs(s.c), file) && Leaves(s, d)
  {
    var m' := PushAll(s.c.m, lo + STACK_WORDS, frame);
    assert SameOutside(s.c.m, m', lo, lo + STACK_WORDS);
    CreateRefines(s.c, s.k, m', task, file, lo);
    assert forall t :: 0 <= t < |s.k.lo| ==> SameOn(s.c.m, m', s.k.lo[t], s.k.hi[t]);
    hide Saved, FrameFits;
  }

  lemma StacksMatch(s: World)
    requires s.Ok()
    ensures |s.k.lo| == |s.k.hi| == |s.c.ts| && Leaves(s, s)
  {
  }

  /** The state after an action is the abstract state after its events, and the CPU goes from the task before
      to the task after. */
  ghost predicate Refines(s: World, a: Action, d: World) {
    var m, es := Abs(s.c), EventsOf(s.c, a);
    Legal(m, es) && Abs(d.c) == Exec(m, es) && forall t: nat :: GetsCpu(m, es, t) <==> t == s.c.cur || t == d.c.cur
  }

  lemma RefinesByOne(s: World, a: Action, d: World, e: Event)
    requires EventsOf(s.c, a) == [e] && Abs(s.c).Wf() && Enabled(Abs(s.c), e) && Abs(d.c) == Step(Abs(s.c), e)
    ensures Refines(s, a, d)
  {
    hide EventsOf, Step;
    OneEvent(Abs(s.c), e);
  }

  lemma RefinesByNone(s: World, a: Action)
    requires EventsOf(s.c, a) == []
    ensures Refines(s, a, s)
  {
  }

  lemma RefinesByTwo(s: World, a: Action, d: World, file: Regs, f: Effect)
    requires EventsOf(s.c, a) == [Runs(file), Interrupts(f)] && Abs(s.c).Wf() &&
             Abs(d.c) == Interrupt(Run(Abs(s.c), file), f)
    ensures Refines(s, a, d)
  {
    hide EventsOf, Interrupt;
    var m := Abs(s.c);
    OneEvent(m, Runs(file));
    OneEvent(Run(m, file), Interrupts(f));
    ExecAppend(m, [Runs(file)], [Interrupts(f)]);
    assert [Runs(file)] + [Interrupts(f)] == EventsOf(s.c, a);
  }

  /** Every action is its events of the abstract machine. */
  lemma ActRefines(s: World, a: Action)
    requires s.Ok() && Possible(s, a)
    ensures Act(s, a).Ok() && Leaves(s, Act(s, a)) && Refines(s, a, Act(s, a))
  {
    hide Saved, OthersSame, Harmless, Suspended, Apart, CpuFits, Next, Scheduled, Refines, Leaves, FrameFits;
    var d := Act(s, a);
    match a
    case Interrupted(v, err, h, scratch, pokes) =>
      InterruptActs(s.c, s.k, v, err, h.GetOr(Effect(false, None)), scratch, pokes);
      RefinesByOne(s, a, d, Interrupts(h.GetOr(Effect(false, None))));
    case Computed(r, pokes) => ComputeActs(s, r, pokes);
    case KernelTaskMade(entry, taskExit, stack) =>
      if Creates(s.c, a) {
        KernelTaskRefines(s, entry, taskExit, stack);
        RefinesByOne(s, a, d, Event.Creates(FreshKernel(entry, stack)));
      } else {
        StacksMatch(s);
        RefinesByNone(s, a);
      }
    case UserTaskMade(entry, kstack, ustack) =>
      if Creates(s.c, a) {
        UserTaskRefines(s, entry, kstack, ustack);
        RefinesByOne(s, a, d, Event.Creates(FreshUser(entry, ustack)));
      } else {
        StacksMatch(s);
        RefinesByNone(s, a);
      }
    case Quit(scratch, pokes) => QuitActs(s, scratch, pokes);
    case HandlerEntered(v, err, eip, eflags) =>
      EntryActs(s.c, s.k, v, err, eip, eflags);
      RefinesByOne(s, a, d, Runs(HandlerRegs(s.c.cpu, FrameAt(s.c), eip, eflags)));
    case HandlerLeft(w, result, resched) =>
      ExitActs(s.c, s.k, w, result, resched);
      RefinesByTwo(s, a, d, Saved(s.c.m, w), Effect(resched, result));
  }

  lemma ComputeActs(s: World, r: Regs, pokes: seq<Poke>)
    requires s.Ok() && Possible(s, Computed(r, pokes))
    ensures var d := Act(s, Computed(r, pokes)); d.Ok() && Leaves(s, d) && Refines(s, Computed(r, pokes), d)
  {
    hide Saved, OthersSame, Harmless, Suspended, CpuFits, Refines;
    ComputeRefines(s.c, s.k, r, pokes);
    StacksMatch(s);
    HarmlessSpares(s.c, s.k, s.c.m, pokes, 0, 0);
    RefinesByOne(s, Computed(r, pokes), Act(s, Computed(r, pokes)), Runs(r));
  }

  lemma QuitActs(s: World, scratch: seq<u32>, pokes: seq<Poke>)
    requires s.Ok() && Possible(s, Quit(scratch, pokes))
    ensures var d := Act(s, Quit(scratch, pokes)); d.Ok() && Leaves(s, d) && Refines(s, Quit(scratch, pokes), d)
  {
    hide Saved, OthersSame, Harmless, Suspended, Apart, CpuFits, Next, Scheduled, Refines;
    EndedIsSafe(s.c, s.k);
    HarmlessAfter(s.c, Ended(s.c), s.k, pokes, FrameAt(s.c), EntryTop(s.c));
    InterruptActs(Ended(s.c), s.k, 129, 0, Effect(true, None), scratch, pokes);
    RefinesByOne(s, Quit(scratch, pokes), Act(s, Quit(scratch, pokes)), Exits);
  }

  /** Byte and word addresses in a stack. */
  lemma StackWords(stack: int)
    requires stack % 8 == 0
    ensures 4 * (stack / 4) == stack && (stack + 4 * STACK_WORDS - 60) / 4 == stack / 4 + STACK_WORDS - 15
    ensures (stack + 4 * STACK_WORDS - 64) / 4 == stack / 4 + STACK_WORDS - 16 &&
            (stack + 4 * STACK_WORDS - 4) / 4 == stack / 4 + STACK_WORDS - 1
    ensures (stack + 4 * STACK_WORDS - 60) % 4 == 0 && (stack + 4 * STACK_WORDS - 64) % 4 == 0
  {
    var q := stack / 8;
    assert stack == 8 * q && stack / 4 == 2 * q;
  }

  lemma KernelTaskRefines(s: World, entry: u32, taskExit: u32, stack: u32)
    requires s.Ok() && |s.c.ts| < MAX_TASKS && FreeStack(s.k, stack)
    ensures var d := Grown(s, stack / 4, KernelFrame(entry, taskExit), KernelTask(stack));
            d.Ok() && Abs(d.c) == Create(Abs(s.c), FreshKernel(entry, stack)) && Leaves(s, d)
            && d.c.m[FreshKernel(entry, stack).esp / 4] == taskExit
  {
    var lo, frame, task := stack / 4, KernelFrame(entry, taskExit), KernelTask(stack);
    StackWords(stack);
    assert |frame| == 15;
    hide KernelFrame, Safe;
    KernelFrameStarts(s.c.m, PushAll(s.c.m, lo + STACK_WORDS, frame), lo, stack, entry, taskExit);
    hide Saved, PushAll;
    GrownRefines(s, lo, frame, task, FreshKernel(entry, stack));
  }

  lemma UserTaskRefines(s: World, entry: u32, kstack: u32, ustack: u32)
    requires s.Ok() && |s.c.ts| < MAX_TASKS && FreeStack(s.k, kstack) && ustack + 4 * STACK_WORDS < TWO32
    ensures var d := Grown(s, kstack / 4, UserFrame(entry, ustack), UserTask(kstack, ustack));
            d.Ok() && Abs(d.c) == Create(Abs(s.c), FreshUser(entry, ustack)) && Leaves(s, d)
  {
    var lo, frame, task := kstack / 4, UserFrame(entry, ustack), UserTask(kstack, ustack);
    StackWords(kstack);
    assert |frame| == 16;
    hide UserFrame, Safe;
    UserFrameStarts(s.c.m, PushAll(s.c.m, lo + STACK_WORDS, frame), lo, entry, ustack);
    hide Saved, PushAll;
    GrownRefines(s, lo, frame, task, FreshUser(entry, ustack));
  }

  // ---------------------------------------------------------------- whole runs

  /** Every action of the run is possible where it happens. */
  ghost predicate Admits(s: World, acts: seq<Action>)
    decreases |acts|
  {
    acts == [] || (s.Ok() && Possible(s, acts[0]) && Admits(Act(s, acts[0]), acts[1..]))
  }

  ghost function After(s: World, acts: seq<Action>): World
    requires Admits(s, acts)
    decreases |acts|
  {
    if acts == [] then s else After(Act(s, acts[0]), acts[1..])
  }

  /** The abstract events of a run. */
  ghost function Events(s: World, acts: seq<Action>): seq<Event>
    requires Admits(s, acts)
    decreases |acts|
  {
    if acts == [] then [] else EventsOf(s.c, acts[0]) + Events(Act(s, acts[0]), acts[1..])
  }

  /** Task `t` is off the CPU before, between and after the actions. */
  ghost predicate OffCpu(s: World, acts: seq<Action>, t: nat)
    requires Admits(s, acts)
    decreases |acts|
  {
    s.c.cur != t && (acts == [] || OffCpu(Act(s, acts[0]), acts[1..], t))
  }

  /** Transparency: any interleaving of interrupts, task code, creations and exits on the machine that
      swaps stacks is a run of the machine in which every task owns its registers. */
  lemma {:induction false} RunRefines(s: World, acts: seq<Action>)
    requires s.Ok() && Admits(s, acts)
    ensures After(s, acts).Ok() && |s.c.ts| <= |After(s, acts).c.ts|
    ensures Legal(Abs(s.c), Events(s, acts)) && Abs(After(s, acts).c) == Exec(Abs(s.c), Events(s, acts))
    decreases |acts|
  {
    if acts != [] {
      ActRefines(s, acts[0]);
      RunRefines(Act(s, acts[0]), acts[1..]);
      hide Safe, Possible, Act, EventsOf, Abs;
      ExecAppend(Abs(s.c), EventsOf(s.c, acts[0]), Events(Act(s, acts[0]), acts[1..]));
    }
  }

  /** Being off the CPU means the same in both machines. */
  lemma {:induction false} OffCpuMeansSame(s: World, acts: seq<Action>, t: nat)
    requires s.Ok() && Admits(s, acts)
    ensures Legal(Abs(s.c), Events(s, acts)) && (OffCpu(s, acts, t) <==> !GetsCpu(Abs(s.c), Events(s, acts), t))
    decreases |acts|
  {
    RunRefines(s, acts);
    if acts != [] {
      var d := Act(s, acts[0]);
      ActRefines(s, acts[0]);
      RunRefines(d, acts[1..]);
      OffCpuMeansSame(d, acts[1..], t);
      hide Safe, Possible, Act, EventsOf;
      ExecAppend(Abs(s.c), EventsOf(s.c, acts[0]), Events(d, acts[1..]));
      assert GetsCpu(Abs(d.c), Events(d, acts[1..]), t) || d.c.cur != t;
    }
  }

  /** While a task is off the CPU its saved stack pointer, and its kernel stack, do not change. */
  lemma {:induction false} SavedEspIsFrozen(s: World, acts: seq<Action>, t: nat)
    requires s.Ok() && Admits(s, acts) && t < |s.c.ts| && OffCpu(s, acts, t)
    ensures After(s, acts).Ok() && t < |After(s, acts).c.ts| && |s.k.lo| == |s.k.hi| == |s.c.ts|
    ensures After(s, acts).c.ts[t].esp == s.c.ts[t].esp
    ensures SameOn(s.c.m, After(s, acts).c.m, s.k.lo[t], s.k.hi[t])
    decreases |acts|
  {
    StacksMatch(s);
    if acts != [] {
      var d := Act(s, acts[0]);
      ActRefines(s, acts[0]);
      StacksMatch(d);
      SavedEspIsFrozen(d, acts[1..], t);
      hide Safe, Possible, Act;
      assert SameOn(s.c.m, d.c.m, s.k.lo[t], s.k.hi[t]);
      assert d.k.lo[t] == d.k.lo[..|s.k.lo|][t] && d.k.hi[t] == d.k.hi[..|s.k.hi|][t];
    }
  }

  /** A task that was off the CPU during a run and is switched to by the next action is resumed through
      exactly the stack pointer it was suspended with, and with the registers saved there then. */
  lemma ResumedWithSavedEsp(s: World, acts: seq<Action>, a: Action, t: nat)
    requires s.Ok() && Admits(s, acts) && t < |s.c.ts| && OffCpu(s, acts, t)
    requires After(s, acts).Ok() && Possible(After(s, acts), a) && Act(After(s, acts), a).c.cur == t
    ensures var d := Act(After(s, acts), a).c;
            && d.cpu == Saved(d.m, s.c.ts[t].esp / 4)
            && d.cpu == Saved(s.c.m, s.c.ts[t].esp / 4)
  {
    var e := After(s, acts);
    var d := Act(e, a);
    SavedEspIsFrozen(s, acts, t);
    OffAtTheEnd(s, acts, t);
    ActRefines(e, a);
    StacksMatch(e);
    KeptPlaces(s, acts, t);
    assert SameOn(e.c.m, d.c.m, e.k.lo[t], e.k.hi[t]);
    FrameKept(s, e.c.m, t);
    FrameKept(s, d.c.m, t);
  }

  lemma FrameKept(s: World, m': seq<u32>, t: nat)
    requires s.Ok() && t < |s.c.ts| && t != s.c.cur && |s.k.lo| == |s.k.hi| == |s.c.ts|
    requires SameOn(s.c.m, m', s.k.lo[t], s.k.hi[t])
    ensures Saved(m', s.c.ts[t].esp / 4) == Saved(s.c.m, s.c.ts[t].esp / 4)
  {
    SavedFrame(s.c.m, m', s.c.ts[t].esp / 4);
  }

  lemma {:induction false} OffAtTheEnd(s: World, acts: seq<Action>, t: nat)
    requires Admits(s, acts) && OffCpu(s, acts, t)
    ensures s.c.cur != t && After(s, acts).c.cur != t
    decreases |acts|
  {
    if acts != [] { OffAtTheEnd(Act(s, acts[0]), acts[1..], t); }
  }

  lemma {:induction false} KeptPlaces(s: World, acts: seq<Action>, t: nat)
    requires s.Ok() && Admits(s, acts) && t < |s.c.ts|
    ensures t < |s.k.lo| == |s.k.hi| && t < |After(s, acts).k.lo| && t < |After(s, acts).k.hi|
    ensures After(s, acts).k.lo[t] == s.k.lo[t] && After(s, acts).k.hi[t] == s.k.hi[t]
    decreases |acts|
  {
    StacksMatch(s);
    if acts != [] {
      var d := Act(s, acts[0]);
      ActRefines(s, acts[0]);
      StacksMatch(d);
      KeptPlaces(d, acts[1..], t);
      hide Safe, Possible, Act;
      assert d.k.lo[t] == d.k.lo[..|s.k.lo|][t] && d.k.hi[t] == d.k.hi[..|s.k.hi|][t];
    }
  }

  // ---------------------------------------------------------------- nested interrupts

  /** The action leaves alone the `n` words at `w` of task `t`'s kernel stack: the task itself is below them,
      and stores elsewhere. What other tasks do is harmless anyway. */
  ghost predicate Spares(s: World, a: Action, t: nat, w: int, n: int) {
    s.c.cur == t ==>
      match a
      case Interrupted(_, _, _, _, pokes) => EntryTop(s.c) <= w && Avoid(pokes, w, n)
      case Quit(_, pokes) => EntryTop(s.c) <= w && Avoid(pokes, w, n)
      case Computed(_, pokes) => Avoid(pokes, w, n)
      case HandlerEntered(_, _, _, _) => EntryTop(s.c) <= w
      case HandlerLeft(x, _, _) => x + 14 <= w
      case _ => true
  }

  ghost predicate Avoid(ps: seq<Poke>, w: int, n: int) { forall p :: p in ps ==> !(w <= p.at < w + n) }

  /** The words lie on the task's kernel stack. */
  ghost predicate OnStack(s: World, t: nat, w: int, n: int) {
    t < |s.k.lo| && t < |s.k.hi| && s.k.lo[t] <= w && w + n <= s.k.hi[t] && 0 <= n
  }

  lemma PushKeepsAbove(m: seq<u32>, top: int, vals: seq<u32>, w: int, n: int)
    requires top <= w
    ensures SameOn(m, PushAll(m, top, vals), w, w + n)
  {
  }

  lemma HandledKeepsAbove(m: seq<u32>, x: int, scratch: seq<u32>, pokes: seq<Poke>, result: Option<u32>, w: int, n: int)
    requires x + 9 <= w && Avoid(pokes, w, n)
    ensures SameOn(m, Handled(m, x, scratch, pokes, result), w, w + n)
  {
    PushKeepsAbove(m, x, scratch, w, n);
    PokedKeeps(PushAll(m, x, scratch), pokes, w, w + n);
  }

  lemma InterruptKeepsAbove(c: Conc, v: u32, err: u32, e: Effect, scratch: seq<u32>, pokes: seq<Poke>, w: int, n: int)
    requires FrameInRam(c) && EntryTop(c) <= w && Avoid(pokes, w, n)
    ensures SameOn(c.m, AfterInterrupt(c, v, err, e, scratch, pokes).m, w, w + n)
  {
    var m1 := EnteredMem(c, v, err);
    PushKeepsAbove(c.m, EntryTop(c), Pushes(c.cpu, v, err, 4 * (FrameAt(c) + 9)), w, n);
    HandledKeepsAbove(m1, FrameAt(c), scratch, pokes, e.result, w, n);
    hide Pushes, PushAll, Handled;
    ScheduledKeepsEsps(HandledState(c, v, err, e, scratch, pokes), 4 * FrameAt(c));
  }

  /** An action that spares some words of a kernel stack does not change them. */
  lemma ActSpares(s: World, a: Action, t: nat, w: int, n: int)
    requires s.Ok() && Possible(s, a) && OnStack(s, t, w, n) && Spares(s, a, t, w, n)
    ensures SameOn(s.c.m, Act(s, a).c.m, w, w + n)
  {
    ActRefines(s, a);
    if s.c.cur != t {
      assert SameOn(s.c.m, Act(s, a).c.m, s.k.lo[t], s.k.hi[t]);
    } else {
      OwnActionSpares(s, a, t, w, n);
    }
  }

  lemma OwnActionSpares(s: World, a: Action, t: nat, w: int, n: int)
    requires s.Ok() && Possible(s, a) && OnStack(s, t, w, n) && Spares(s, a, t, w, n) && s.c.cur == t
    ensures SameOn(s.c.m, Act(s, a).c.m, w, w + n)
  {
    hide Saved, Safe, Abs, Handled, PushAll, Poked, Harmless, CpuFits, FrameFits, Scheduled;
    match a
    case Interrupted(v, err, h, scratch, pokes) =>
      EnterInRam(s.c, s.k);
      InterruptKeepsAbove(s.c, v, err, h.GetOr(Effect(false, None)), scratch, pokes, w, n);
    case Quit(scratch, pokes) =>
      EnterInRam(s.c, s.k);
      InterruptKeepsAbove(Ended(s.c), 129, 0, Effect(true, None), scratch, pokes, w, n);
    case Computed(r, pokes) => PokedKeeps(s.c.m, pokes, w, w + n);
    case HandlerEntered(v, err, _, _) =>
      EnterInRam(s.c, s.k);
      PushKeepsAbove(s.c.m, EntryTop(s.c), Pushes(s.c.cpu, v, err, 4 * (FrameAt(s.c) + 9)), w, n);
    case HandlerLeft(x, result, resched) =>
      LeaveEntered(s.c, s.k, x);
      HandledKeepsAbove(s.c.m, x, [], [], result, w, n);
      ScheduledKeepsEsps(s.c.(m := Handled(s.c.m, x, [], [], result), need := s.c.need || resched), 4 * x);
    case KernelTaskMade(entry, taskExit, stack) =>
      if Creates(s.c, a) { NewStackSpares(s, stack, KernelFrame(entry, taskExit), t, w, n); }
    case UserTaskMade(entry, kstack, ustack) =>
      if Creates(s.c, a) { NewStackSpares(s, kstack, UserFrame(entry, ustack), t, w, n); }
  }

  lemma NewStackSpares(s: World, stack: u32, frame: seq<u32>, t: nat, w: int, n: int)
    requires FreeStack(s.k, stack) && OnStack(s, t, w, n) && |frame| <= STACK_WORDS
    ensures SameOn(s.c.m, PushAll(s.c.m, stack / 4 + STACK_WORDS, frame), w, w + n)
  {
  }

  /** Every action of the run spares these words. */
  ghost predicate AllSpare(s: World, acts: seq<Action>, t: nat, w: int, n: int)
    requires Admits(s, acts)
    decreases |acts|
  {
    acts == [] || (Spares(s, acts[0], t, w, n) && AllSpare(Act(s, acts[0]), acts[1..], t, w, n))
  }

  lemma {:induction false} RunSpares(s: World, acts: seq<Action>, t: nat, w: int, n: int)
    requires s.Ok() && Admits(s, acts) && OnStack(s, t, w, n) && AllSpare(s, acts, t, w, n)
    ensures SameOn(s.c.m, After(s, acts).c.m, w, w + n)
    decreases |acts|
  {
    if acts != [] {
      var d := Act(s, acts[0]);
      ActRefines(s, acts[0]);
      ActSpares(s, acts[0], t, w, n);
      assert d.k.lo[t] == d.k.lo[..|s.k.lo|][t] && d.k.hi[t] == d.k.hi[..|s.k.hi|][t];
      hide Safe, Possible, Act, Spares;
      RunSpares(d, acts[1..], t, w, n);
    }
  }

  /** A handler that waits: whatever interrupts it, however often it yields, and whatever other tasks do
      meanwhile, when it returns through its frame the task has the registers it was interrupted with, but for
      the result in EAX. */
  lemma WaitingHandlerReturns(s: World, enter: Action, acts: seq<Action>, e: World, result: Option<u32>, resched: bool)
    requires s.Ok() && enter.HandlerEntered? && Possible(s, enter) && Admits(Act(s, enter), acts)
    requires AllSpare(Act(s, enter), acts, s.c.cur, FrameAt(s.c), FrameWords(s.c.cpu.cs))
    requires e == After(Act(s, enter), acts) && e.Ok() && e.c.cur == s.c.cur
    requires Possible(e, HandlerLeft(FrameAt(s.c), result, resched))
    ensures var d := Act(e, HandlerLeft(FrameAt(s.c), result, resched));
            && s.c.cur < |d.c.ts|
            && View(d.c, s.c.cur) == if result.Some? then s.c.cpu.(eax := result.value) else s.c.cpu
  {
    hide Saved, Safe, Possible, Act, Admits, AllSpare, After, View, FrameWords;
    FrameComesBack(s, enter, acts);
    LeavesWithFrame(e, FrameAt(s.c), result, resched);
  }

  /** Leaving a handler gives the task what is in the frame. */
  lemma LeavesWithFrame(e: World, w: int, result: Option<u32>, resched: bool)
    requires e.Ok() && Possible(e, HandlerLeft(w, result, resched))
    ensures var d := Act(e, HandlerLeft(w, result, resched));
            e.c.cur < |d.c.ts| && View(d.c, e.c.cur) == WithResult(Saved(e.c.m, w), result)
  {
    hide Saved, Abs, AfterExit, Interrupt, Leaves;
    LeaveEntered(e.c, e.k, w);
    hide Safe, CanLeave, Entered;
    ExitActs(e.c, e.k, w, result, resched);
    FileOfCurrent(e.c, Act(e, HandlerLeft(w, result, resched)).c, Saved(e.c.m, w), Effect(resched, result));
  }

  /** The frame is still there when the handler returns. */
  lemma FrameComesBack(s: World, enter: Action, acts: seq<Action>)
    requires s.Ok() && enter.HandlerEntered? && Possible(s, enter) && Admits(Act(s, enter), acts)
    requires AllSpare(Act(s, enter), acts, s.c.cur, FrameAt(s.c), FrameWords(s.c.cpu.cs))
    ensures Saved(After(Act(s, enter), acts).c.m, FrameAt(s.c)) == s.c.cpu
  {
    var w, n := FrameAt(s.c), FrameWords(s.c.cpu.cs);
    var s1 := Act(s, enter);
    EntryActs(s.c, s.k, enter.vector, enter.err, enter.eip, enter.eflags);
    EnterInRam(s.c, s.k);
    StacksMatch(s);
    hide Safe, Abs, AllSpare, Leaves, OthersSame;
    RunSpares(s1, acts, s.c.cur, w, n);
    SavedFrame(s1.c.m, After(s1, acts).c.m, w);
  }

  /** The file of the task that was current, after an interrupt. */
  lemma FileOfCurrent(c: Conc, d: Conc, r: Regs, e: Effect)
    requires Abs(c).Wf() && Abs(d) == Interrupt(Run(Abs(c), r), e)
    ensures c.cur < |d.ts| && View(d, c.cur) == WithResult(r, e.result)
  {
    hide Saved;
    InterruptFile(Run(Abs(c), r), e);
    assert View(d, c.cur) == Files(d)[c.cur] == Abs(d).files[c.cur];
  }

  lemma InterruptFile(m: Machine, e: Effect)
    requires m.Wf()
    ensures Interrupt(m, e).files == m.files[m.current := WithResult(m.files[m.current], e.result)]
  {
  }

  // ---------------------------------------------------------------- what becomes of tasks

  /** The state of task `t`. */
  function StateOf(c: Conc, t: nat): TaskState
    requires t < |c.ts|
  {
    c.ts[t].state
  }

  /** At the end of this action a request to reschedule is pending. */
  predicate Requested(c: Conc, a: Action) {
    match a
    case Interrupted(_, _, h, _, _) => c.need || (h.Some? && h.value.resched)
    case Quit(_, _) => true
    case HandlerLeft(_, _, resched) => c.need || resched
    case _ => false
  }

  /** From one state to the next: nothing but its own exit terminates a task and nothing undoes it; the CPU
      changes hands only at a request, from a task that becomes READY unless it has terminated, to one that was
      READY, and it does when there is one; all other tasks keep their states. */
  ghost predicate Passes(c: Conc, d: Conc, requested: bool, quit: bool) {
    && c.cur < |c.ts| <= |d.ts| && d.cur < |c.ts|
    && (forall t: nat :: t < |c.ts| ==>
         (StateOf(d, t) == Terminated <==> StateOf(c, t) == Terminated || (quit && t == c.cur)))
    && (forall t: nat :: t < |c.ts| && t != c.cur && t != d.cur ==> StateOf(d, t) == StateOf(c, t))
    && (d.cur != c.cur ==>
          && requested && StateOf(c, d.cur) == Ready && StateOf(d, d.cur) == Running
          && StateOf(d, c.cur) == if StateOf(c, c.cur) == Running && !quit then Ready else Terminated)
    && (requested && (exists t: nat :: t < |c.ts| && t != c.cur && StateOf(c, t) == Ready) ==> d.cur != c.cur)
    && (d.need <==> c.need && !requested)
  }

  lemma StepPasses(c: Conc, d: Conc, e: Event)
    requires Scheduler.Inv(Abs(c)) && Enabled(Abs(c), e) && Abs(d) == Step(Abs(c), e)
    ensures Passes(c, d, Reschedules(Abs(c), e), e.Exits?)
  {
    var m, m' := Abs(c), Abs(d);
    hide Step, Files, View, Saved;
    CpuIsHandedOver(m, e);
    assert forall t: nat :: t < |c.ts| ==> m.states[t] == StateOf(c, t);
    assert forall t: nat :: t < |d.ts| ==> m'.states[t] == StateOf(d, t);
    forall t: nat | t < |c.ts| ensures t < |d.ts|
      ensures StateOf(d, t) == Terminated <==> StateOf(c, t) == Terminated || (e.Exits? && t == c.cur)
      ensures t != c.cur && t != d.cur ==> StateOf(d, t) == StateOf(c, t)
    {
      OnlyExitTerminates(m, e, t);
      if t != c.cur { StepKeepsOthers(m, e, t); }
    }
  }

  /** A step of the task's own registers does not change what counts. */
  lemma StepAfterRun(c: Conc, d: Conc, file: Regs, e: Event)
    requires Scheduler.Inv(Abs(c)) && e.Interrupts? && Abs(d) == Step(Run(Abs(c), file), e)
    ensures Passes(c, d, Reschedules(Abs(c), e), false)
  {
    hide Step, Files, View, Saved;
    FileIs(c, file);
    StepPasses(c.(cpu := file), d, e);
  }

  lemma ActPasses(s: World, a: Action)
    requires s.Ok() && Possible(s, a)
    ensures Passes(s.c, Act(s, a).c, Requested(s.c, a), a.Quit?)
  {
    ActRefines(s, a);
    var m, es, d := Abs(s.c), EventsOf(s.c, a), Act(s, a).c;
    hide Safe, Possible, Act, Step, Files, View, Saved, Leaves, HandlerRegs, FrameAt, FreshKernel, FreshUser, Passes;
    if es == [] {
      StaysPasses(s.c, d);
    } else if |es| == 1 {
      ExecOne(m, es[0]);
      StepPasses(s.c, d, es[0]);
    } else {
      ExecTwo(m, es[0], es[1]);
      StepAfterRun(s.c, d, es[0].file, es[1]);
    }
  }

  lemma InterruptPasses(c: Conc, k: Stacks, v: u32, err: u32, h: Option<Effect>, scratch: seq<u32>, pokes: seq<Poke>)
    requires CanEnter(c, k, scratch, pokes) && FrameInRam(c) && (h.Some? || v >= 32)
    ensures Passes(c, AfterInterrupt(c, v, err, h.GetOr(Effect(false, None)), scratch, pokes),
                c.need || (h.Some? && h.value.resched), false)
  {
    hide Safe, AfterInterrupt, Passes;
    ActPasses(World(c, k), Interrupted(v, err, h, scratch, pokes));
  }

  lemma ExitPasses(c: Conc, k: Stacks, w: int, result: Option<u32>, resched: bool)
    requires Safe(c, k) && CanLeave(c, k, w) && c.cur < |c.ts| && 0 <= 4 * w < TWO32
    ensures Passes(c, AfterExit(c, w, result, resched), c.need || resched, false)
  {
    hide Safe, AfterExit, Passes, CanLeave;
    ActPasses(World(c, k), HandlerLeft(w, result, resched));
  }

  lemma StaysPasses(c: Conc, d: Conc)
    requires Scheduler.Inv(Abs(c)) && Abs(d) == Abs(c)
    ensures Passes(c, d, false, false)
  {
    hide Files, View, Saved;
    assert forall t: nat :: t < |c.ts| ==> Abs(c).states[t] == StateOf(c, t) && Abs(d).states[t] == StateOf(d, t);
  }

  lemma ExecOne(m: Machine, e: Event)
    requires Legal(m, [e])
    ensures Enabled(m, e) && Exec(m, [e]) == Step(m, e)
    ensures Reschedulings(m, [e]) == if Reschedules(m, e) then 1 else 0
  {
    hide Step, Reschedules;
    assert [e][1..] == [];
    assert Reschedulings(Step(m, e), []) == 0;
  }

  lemma ExecTwo(m: Machine, e: Event, f: Event)
    requires Legal(m, [e, f])
    ensures Enabled(m, e) && Step(m, e).Wf() && Enabled(Step(m, e), f) && Exec(m, [e, f]) == Step(Step(m, e), f)
    ensures Reschedulings(m, [e, f]) ==
            (if Reschedules(m, e) then 1 else 0) + if Reschedules(Step(m, e), f) then 1 else 0
  {
    hide Step, Reschedules;
    assert [e, f][1..] == [f];
    ExecOne(Step(m, e), f);
  }

  /** Task `t` exits at some action of the run. */
  ghost predicate QuitsIn(s: World, acts: seq<Action>, t: nat)
    requires Admits(s, acts)
    decreases |acts|
  {
    acts != [] && ((acts[0].Quit? && s.c.cur == t) || QuitsIn(Act(s, acts[0]), acts[1..], t))
  }

  /** How often the scheduler acts during the run. */
  ghost function Requests(s: World, acts: seq<Action>): nat
    requires Admits(s, acts)
    decreases |acts|
  {
    if acts == [] then 0
    else (if Requested(s.c, acts[0]) then 1 else 0) + Requests(Act(s, acts[0]), acts[1..])
  }

  /** In every run of the kernel a task has terminated exactly if it had before or exited. */
  lemma {:induction false} LivesUntilItQuits(s: World, acts: seq<Action>, t: nat)
    requires s.Ok() && Admits(s, acts) && t < |s.c.ts|
    ensures t < |After(s, acts).c.ts|
    ensures StateOf(After(s, acts).c, t) == Terminated <==> StateOf(s.c, t) == Terminated || QuitsIn(s, acts, t)
    decreases |acts|
  {
    if acts != [] {
      ActPasses(s, acts[0]);
      ActRefines(s, acts[0]);
      hide Safe, Possible, Act, Leaves, Refines;
      LivesUntilItQuits(Act(s, acts[0]), acts[1..], t);
    }
  }

  lemma ActRequests(s: World, a: Action)
    requires s.Ok() && Possible(s, a)
    ensures Legal(Abs(s.c), EventsOf(s.c, a))
    ensures Reschedulings(Abs(s.c), EventsOf(s.c, a)) == if Requested(s.c, a) then 1 else 0
  {
    ActRefines(s, a);
    var m, es := Abs(s.c), EventsOf(s.c, a);
    hide Safe, Possible, Act, Files, View, Saved, Leaves, HandlerRegs, FrameAt, FreshKernel, FreshUser, Schedule;
    if |es| == 1 {
      ExecOne(m, es[0]);
    } else if |es| == 2 {
      ExecTwo(m, es[0], es[1]);
    }
  }

  lemma {:induction false} RequestsAreReschedulings(s: World, acts: seq<Action>)
    requires s.Ok() && Admits(s, acts)
    ensures Legal(Abs(s.c), Events(s, acts)) && Requests(s, acts) == Reschedulings(Abs(s.c), Events(s, acts))
    decreases |acts|
  {
    if acts != [] {
      ActRefines(s, acts[0]);
      ActRequests(s, acts[0]);
      RequestsAreReschedulings(Act(s, acts[0]), acts[1..]);
      hide Safe, Possible, Act, EventsOf, Abs, Requested;
      ReschedulingsAppend(Abs(s.c), EventsOf(s.c, acts[0]), Events(Act(s, acts[0]), acts[1..]));
    }
  }

  /** In no run of the kernel does a terminated task get the CPU again. */
  lemma TerminatedStaysOffCpu(s: World, acts: seq<Action>, t: nat)
    requires s.Ok() && Admits(s, acts) && t < |s.c.ts| && t != s.c.cur && s.c.ts[t].state == Terminated
    ensures OffCpu(s, acts, t)
  {
    OffCpuMeansSame(s, acts, t);
    TerminatedStaysOff(Abs(s.c), Events(s, acts), t);
  }

  /** In every run of the kernel a READY task gets the CPU by the 63rd reschedule. */
  lemma ReadyTaskGetsCpu(s: World, acts: seq<Action>, t: nat)
    requires s.Ok() && Admits(s, acts) && t < |s.c.ts| && s.c.ts[t].state == Ready
    requires Requests(s, acts) >= MAX_TASKS - 1
    ensures !OffCpu(s, acts, t)
  {
    OffCpuMeansSame(s, acts, t);
    RequestsAreReschedulings(s, acts);
    ReadyTaskRunsWithin63(Abs(s.c), Events(s, acts), t);
  }

  /** A RUNNING task from which an interrupt took the CPU has it again by the 63rd reschedule after that,
      in every run of the kernel. */
  lemma PreemptedTaskGetsCpu(s: World, a: Action, acts: seq<Action>)
    requires s.Ok() && Possible(s, a) && !a.Quit? && s.c.cur < |s.c.ts| && s.c.ts[s.c.cur].state == Running
    requires Act(s, a).c.cur != s.c.cur && Admits(Act(s, a), acts) && Requests(Act(s, a), acts) >= MAX_TASKS - 1
    ensures !OffCpu(Act(s, a), acts, s.c.cur)
  {
    ActPasses(s, a);
    ActRefines(s, a);
    hide Safe, Possible, Act, Leaves, Refines, Requests;
    assert StateOf(Act(s, a).c, s.c.cur) == Ready;
    ReadyTaskGetsCpu(Act(s, a), acts, s.c.cur);
  }

  /** task_exit: the task has terminated, and is never on the CPU again once another task is. */
  lemma QuitterStaysOffCpu(s: World, quit: Action, acts: seq<Action>)
    requires s.Ok() && quit.Quit? && Possible(s, quit) && Admits(Act(s, quit), acts)
    ensures s.c.cur < |Act(s, quit).c.ts| && Act(s, quit).c.ts[s.c.cur].state == Terminated
    ensures Act(s, quit).c.cur != s.c.cur ==> OffCpu(Act(s, quit), acts, s.c.cur)
  {
    ActPasses(s, quit);
    ActRefines(s, quit);
    hide Safe, Possible, Act, Leaves, Refines;
    assert StateOf(Act(s, quit).c, s.c.cur) == Terminated;
    if Act(s, quit).c.cur != s.c.cur { TerminatedStaysOffCpu(Act(s, quit), acts, s.c.cur); }
  }

  /** The registers of the interrupted task afterwards, on the CPU or in its frame: those it had, but for a
      result in EAX. */
  lemma InterruptedTaskKeepsRegisters(s: World, a: Action)
    requires s.Ok() && Possible(s, a) && (a.Interrupted? || a.Quit?)
    ensures s.c.cur < |Act(s, a).c.ts|
    ensures var r := View(Act(s, a).c, s.c.cur);
            if a.Interrupted? && a.handler.Some? && a.handler.value.result.Some?
            then r == s.c.cpu.(eax := a.handler.value.result.value) else r == s.c.cpu
  {
    ActRefines(s, a);
    var m, e, d := Abs(s.c), EventsOf(s.c, a)[0], Act(s, a).c;
    hide Safe, Possible, Act, Saved, Leaves, Schedule, Abs, Files, View;
    ExecOne(m, e);
    RegistersAfter(m, e);
    ViewIsFile(s.c, s.c.cur);
    ViewIsFile(d, s.c.cur);
  }

  lemma ViewIsFile(c: Conc, t: nat)
    requires t < |Abs(c).files|
    ensures t < |c.ts| && View(c, t) == Abs(c).files[t] && (t == c.cur ==> View(c, t) == c.cpu)
  {
  }

  /** A new task is READY and starts at its entry point: a kernel task in ring 0 on its own stack with task_exit as
      its return address, a user task in ring 3 on top of its user stack; interrupts are on, the general registers 0. */
  lemma NewTaskStarts(s: World, a: Action)
    requires s.Ok() && Possible(s, a) && Creates(s.c, a)
    ensures var d, n := Act(s, a).c, |s.c.ts|;
            && |d.ts| == n + 1 && d.ts[n].state == Ready && d.ts[..n] == s.c.ts && d.cur == s.c.cur < n
            && var r := View(d, n);
               && r.eax == r.ebx == r.ecx == r.edx == r.esi == r.edi == r.ebp == 0 && r.eflags == 0x202
               && r.ds == r.es == r.fs == r.gs == r.ss
               && (a.KernelTaskMade? ==>
                     && !d.ts[n].isUser && r.eip == a.entry && r.cs == 0x08 && r.ss == 0x10
                     && d.ts[n].stackBase == a.stack && d.ts[n].kernelStackTop == a.stack + 4096
                     && r.esp == a.stack + 4092 && |d.m| == RAM_WORDS && d.m[r.esp / 4] == a.taskExit)
               && (a.UserTaskMade? ==>
                     && d.ts[n].isUser && r.eip == a.entry && r.cs == 0x1B && r.ss == 0x23
                     && r.esp == a.ustack + 4096 && d.ts[n].kernelStackTop == a.kstack + 4096
                     && d.ts[n].stackBase == a.kstack && d.ts[n].userStackBase == a.ustack)
  {
    var n := |s.c.ts|;
    ActRefines(s, a);
    var d := Act(s, a).c;
    hide Safe, Saved, Leaves, Files, View, PushAll, KernelFrame, UserFrame, Refines;
    if a.KernelTaskMade? {
      KernelTaskRefines(s, a.entry, a.taskExit, a.stack);
    } else {
      UserTaskRefines(s, a.entry, a.kstack, a.ustack);
    }
    ViewIsFile(d, n);
    CurrentExists(s);
  }

  lemma CurrentExists(s: World)
    requires s.Ok()
    ensures s.c.cur < |s.c.ts| && |s.c.m| == RAM_WORDS
  {
  }

  /** Whenever a user task is current, TSS.ESP0 is the top of its own kernel stack; no task but the
      current one is ever RUNNING. */
  lemma AlwaysSafe(s: World, acts: seq<Action>)
    requires s.Ok() && Admits(s, acts)
    ensures var c := After(s, acts).c;
            && c.cur < |c.ts| && (c.ts[c.cur].isUser ==> c.esp0 == c.ts[c.cur].kernelStackTop)
            && forall t :: 0 <= t < |c.ts| && t != c.cur ==> c.ts[t].state != Running
  {
    RunRefines(s, acts);
    var c := After(s, acts).c;
    assert Abs(c).states == StatesOf(c.ts);
  }
}
