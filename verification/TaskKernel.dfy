/** The task kernel (kernel/proc/task.c, kernel/arch/x86_64/isr.asm, isr_handler in
    kernel/arch/x86_64/idt.c): memory, CPU and task table, changed in place. Every method is an
    action of KernelRuns. */
module TaskKernel {
  import opened Words
  import opened Scheduler
  import opened ContextSwitch
  import opened KernelRuns

  /** What task_schedule_if_needed does to the task table: without a request, or with no other task to run,
      nothing; otherwise the current task, READY unless it has terminated, keeps `esp`, the next one is RUNNING, its
      stack pointer is the answer `r`, and its kernel stack is in TSS.ESP0. */
  ghost predicate HandsOver(c: Conc, d: Conc, esp: u32, r: u32) {
    && c.cur < |c.ts| == |d.ts| && d.cur < |c.ts| && !d.need && d.m == c.m && d.cpu == c.cpu
    && (forall t :: 0 <= t < |c.ts| && t != c.cur && t != d.cur ==> d.ts[t] == c.ts[t])
    && (d.cur == c.cur ==> d.ts == c.ts && d.esp0 == c.esp0 && r == esp)
    && (d.cur == c.cur && c.need ==> forall t :: 0 <= t < |c.ts| && t != c.cur ==> c.ts[t].state == Terminated)
    && (d.cur != c.cur ==>
          && c.need && c.ts[d.cur].state != Terminated && d.ts[d.cur] == c.ts[d.cur].(state := Running)
          && d.ts[c.cur].esp == esp && r == c.ts[d.cur].esp
          && d.ts[c.cur].state == (if c.ts[c.cur].state == Running then Ready else c.ts[c.cur].state)
          && d.esp0 == if c.ts[d.cur].kernelStackTop != 0 then c.ts[d.cur].kernelStackTop else c.esp0)
  }

  lemma ScheduledHandsOver(c: Conc, esp: u32)
    requires c.cur < |c.ts|
    ensures var (d, r) := Scheduled(c, esp); HandsOver(c, d, esp, r)
  {
    var next := Next(StatesOf(c.ts), c.cur);
    NextIsNext(StatesOf(c.ts), c.cur);
    hide Next;
    if next != c.cur { SwitchedIs(c.ts, c.cur, next, esp); }
  }

  class Kernel {
    const ram: array<u32>
    var cpu: Regs
    var tasks: seq<Task>
    var current: nat
    var needReschedule: bool
    var tssEsp0: u32
    ghost var stacks: Stacks

    ghost function State(): Conc
      reads this, ram
    {
      Conc(ram[..], cpu, tasks, current, needReschedule, tssEsp0)
    }

    ghost function Whole(): World
      reads this, ram
    {
      World(State(), stacks)
    }

    ghost predicate Valid()
      reads this, ram
    {
      ram.Length == RAM_WORDS && Safe(State(), stacks)
    }

    /** find_next_ready. */
    method FindNextReady() returns (id: nat)
      requires current < |tasks|
      ensures id == Next(StatesOf(tasks), current) && IsNext(StatesOf(tasks), current, id)
    {
      var count := |tasks|;
      ghost var states := StatesOf(tasks);
      NextIsNext(states, current);
      SuccIsMod(current, count);
      id := (current + 1) % count;
      var i := 0;
      while i < count
        invariant i <= count && id < count && Scan(states, current, id, count - i) == Next(states, current)
      {
        if id != current && (tasks[id].state == Ready || tasks[id].state == Running) { return; }
        SuccIsMod(id, count);
        id := (id + 1) % count;
        i := i + 1;
      }
      id := current;
    }

    /** task_schedule_if_needed. */
    method ScheduleIfNeeded(esp: u32) returns (r: u32)
      requires current < |tasks|
      modifies this`tasks, this`current, this`needReschedule, this`tssEsp0
      ensures (State(), r) == Scheduled(old(State()), esp)
      ensures KeepsEsps(old(tasks), tasks, old(current)) && (current != old(current) ==> r == old(tasks)[current].esp)
      ensures HandsOver(old(State()), State(), esp, r)
    {
      hide HandsOver;
      ScheduledHandsOver(State(), esp);
      if !needReschedule { return esp; }
      needReschedule := false;
      var next := FindNextReady();
      if next == current { return esp; }
      tasks := tasks[current := tasks[current].(esp := esp)];
      if tasks[current].state == Running {
        tasks := tasks[current := tasks[current].(state := Ready)];
      }
      current := next;
      tasks := tasks[current := tasks[current].(state := Running)];
      if tasks[current].kernelStackTop != 0 {
        tssEsp0 := tasks[current].kernelStackTop;
      }
      r := tasks[current].esp;
      assert tasks == Switched(old(tasks), old(current), next, esp);
    }

    /** A series of push instructions, from word `w` downwards. */
    method Push(w: int, vals: seq<u32>) returns (w': int)
      requires ram.Length == RAM_WORDS && 0 <= w - |vals| && w <= RAM_WORDS
      modifies ram
      ensures w' == w - |vals| && ram[..] == PushAll(old(ram[..]), w, vals)
    {
      w' := w;
      var i := 0;
      while i < |vals|
        invariant i <= |vals| && w' == w - i && Pushed(old(ram[..]), ram[..], w, vals[..i])
      {
        w' := w' - 1;
        ram[w'] := vals[i];
        i := i + 1;
      }
      assert vals[..i] == vals;
      PushedIs(old(ram[..]), ram[..], w, vals);
    }

    /** Stores that have nothing to do with the switch. */
    method Store(pokes: seq<Poke>)
      requires forall p :: p in pokes ==> p.at < ram.Length
      modifies ram
      ensures ram[..] == Poked(old(ram[..]), pokes)
    {
      var i := 0;
      assert pokes[0..] == pokes;
      while i < |pokes|
        invariant i <= |pokes| && Poked(ram[..], pokes[i..]) == Poked(old(ram[..]), pokes)
      {
        ghost var m := ram[..];
        assert pokes[i] in pokes && pokes[i..][1..] == pokes[i + 1..];
        ram[pokes[i].at] := pokes[i].v;
        assert ram[..] == m[pokes[i].at := pokes[i].v];
        i := i + 1;
      }
    }

    /** What the CPU and isr_common_stub do up to the call of isr_handler: the registers of the
        running task are saved where Leave would find them. */
    method Enter(vector: u32, err: u32) returns (w: int)
      requires Valid() && Room(State(), stacks, 0)
      modifies ram
      ensures FrameInRam(old(State())) && w == FrameAt(State()) && ram[..] == EnteredMem(old(State()), vector, err)
      ensures Saved(ram[..], w) == cpu && OthersSame(old(ram[..]), ram[..], stacks, current)
    {
      hide Saved, OthersSame, Safe;
      EntrySaves(State(), stacks, vector, err);
      var top := if UserMode(cpu.cs) then tssEsp0 / 4 else cpu.esp / 4;
      assert top == EntryTop(State());
      var frame := Pushes(cpu, vector, err, 4 * (top - FrameWords(cpu.cs) + 9));
      assert |frame| == FrameWords(cpu.cs);
      hide PushAll, Pushes, EntryTop;
      w := Push(top, frame);
    }

    /** pop ds, popa, add esp 8, iret. */
    method Leave(esp: u32)
      requires ram.Length == RAM_WORDS && esp / 4 + 16 <= RAM_WORDS
      modifies this`cpu
      ensures cpu == Saved(ram[..], esp / 4)
    {
      var w := esp / 4;
      var ds := ram[w] % 0x1_0000;
      var cs := ram[w + 12] % 0x1_0000;
      var sp, ss := 4 * (w + 14), KERNEL_DATA;
      if UserMode(cs) { sp, ss := ram[w + 14], ram[w + 15] % 0x1_0000; }
      cpu := Regs(ram[w + 8], ram[w + 7], ram[w + 6], ram[w + 5], ram[w + 3], ram[w + 2], ram[w + 1], ram[w + 11],
                  ram[w + 13], cs, sp, ss, ds, ds, ds, ds);
    }

    /** isr_handler: the registered handler runs (using `scratch` words of stack below the frame and
        making the stores `pokes`), an unregistered exception halts the system, then the scheduler
        decides. */
    method IsrHandler(w: int, vector: u32, handler: Option<Effect>, scratch: seq<u32>, pokes: seq<Poke>)
      returns (halted: bool, esp: u32)
      requires ram.Length == RAM_WORDS && |scratch| <= w && w + 16 <= RAM_WORDS && current < |tasks|
      requires forall p :: p in pokes ==> p.at < RAM_WORDS
      modifies ram, this`tasks, this`current, this`needReschedule, this`tssEsp0
      ensures halted <==> handler.None? && vector < 32
      ensures halted ==> esp == 0
      ensures !halted ==>
                var e := handler.GetOr(Effect(false, None));
                var c := old(State());
                var d := c.(m := Handled(c.m, w, scratch, pokes, e.result), need := c.need || e.resched);
                (State(), esp) == Scheduled(d, 4 * w)
    {
      hide PushAll, Poked, HandsOver;
      ghost var c := State();
      var w' := Push(w, scratch);
      Store(pokes);
      if handler.None? {
        if vector < 32 { return true, 0; }
      } else {
        if handler.value.result.Some? { ram[w + 8] := handler.value.result.value; }
        if handler.value.resched { needReschedule := true; }
      }
      halted := false;
      esp := ScheduleIfNeeded(4 * w);
    }

    /** One interrupt, from the vector to the iret: seen through the private register files it is
        the abstract interrupt; no other task's kernel stack or saved stack pointer changes. */
    method TakeInterrupt(vector: u32, err: u32, handler: Option<Effect>, scratch: seq<u32>, pokes: seq<Poke>)
      returns (halted: bool)
      requires Valid() && CanEnter(State(), stacks, scratch, pokes)
      modifies ram, this
      ensures halted <==> handler.None? && vector < 32
      ensures stacks == old(stacks)
      ensures !halted ==> Valid() && FrameInRam(old(State())) &&
                          State() == AfterInterrupt(old(State()), vector, err, handler.GetOr(Effect(false, None)),
                              scratch, pokes)
      ensures !halted ==> Abs(State()) == Interrupt(old(Abs(State())), handler.GetOr(Effect(false, None)))
      ensures !halted ==> Leaves(old(Whole()), Whole())
      ensures !halted ==>
                Passes(old(State()), State(), old(needReschedule) || (handler.Some? && handler.value.resched), false)
    {
      hide Saved, Safe, Abs, OthersSame, Handled, Scheduled, Interrupt, Leaves, EnteredMem, FrameWords, Passes;
      ghost var c, e := State(), handler.GetOr(Effect(false, None));
      InterruptActs(c, stacks, vector, err, e, scratch, pokes);
      if handler.Some? || vector >= 32 { InterruptPasses(c, stacks, vector, err, handler, scratch, pokes); }
      InRamAfter(c, stacks, vector, err, e, scratch, pokes);
      var w := Enter(vector, err);
      var esp;
      halted, esp := IsrHandler(w, vector, handler, scratch, pokes);
      if !halted {
        Leave(esp);
        assert State() == AfterInterrupt(c, vector, err, e, scratch, pokes);
      }
    }

    /** The start of an interrupt whose handler waits or yields: the registers are saved, and kernel code of the
        task goes on below the frame. */
    method EnterHandler(vector: u32, err: u32, eip: u32, eflags: u32) returns (w: int)
      requires Valid() && Room(State(), stacks, 0)
      modifies ram, this`cpu
      ensures Valid() && FrameInRam(old(State())) && w == FrameAt(old(State()))
      ensures Whole() == Act(old(Whole()), HandlerEntered(vector, err, eip, eflags)) && Leaves(old(Whole()), Whole())
      ensures Saved(ram[..], w) == old(cpu)
      ensures cpu.cs == KERNEL_CODE && cpu.ss == cpu.ds == cpu.es == cpu.fs == cpu.gs == KERNEL_DATA
      ensures cpu.esp == 4 * w && cpu.eip == eip && cpu.ebx == old(cpu.ebx) && cpu.ecx == old(cpu.ecx) &&
              cpu.edx == old(cpu.edx) && cpu.esi == old(cpu.esi) && cpu.edi == old(cpu.edi) && cpu.ebp == old(cpu.ebp)
    {
      hide Saved, Safe, Abs, OthersSame, Leaves, EnteredMem;
      EntryActs(State(), stacks, vector, err, eip, eflags);
      w := Enter(vector, err);
      cpu := HandlerRegs(cpu, w, eip, eflags);
    }

    /** Its end: the result, the scheduler's decision, the way out through the frame at `w`. */
    method LeaveHandler(w: int, result: Option<u32>, resched: bool)
      requires Valid() && CanLeave(State(), stacks, w)
      modifies ram, this
      ensures Valid() && stacks == old(stacks)
      ensures Whole() == Act(old(Whole()), HandlerLeft(w, result, resched)) && Leaves(old(Whole()), Whole())
      ensures Passes(old(State()), State(), old(needReschedule) || resched, false)
    {
      ghost var c := State();
      hide Saved, Safe, Abs, OthersSame, Leaves, Scheduled, CanLeave, Passes, HandsOver;
      ExitActs(c, stacks, w, result, resched);
      ExitInRam(c, stacks, w, result, resched);
      ExitPasses(c, stacks, w, result, resched);
      if result.Some? { ram[w + 8] := result.value; }
      if resched { needReschedule := true; }
      assert ram[..] == Handled(c.m, w, [], [], result);
      var esp := ScheduleIfNeeded(4 * w);
      Leave(esp);
    }

    /** task_init: the boot thread, on its own stack, becomes task 0. */
    constructor (r: Regs, ghost lo: int, ghost hi: int)
      requires 0 <= lo <= hi <= RAM_WORDS - 2 && CpuFits(r, lo, hi, false)
      ensures Valid() && Abs(State()) == Boot(r) && stacks == Stacks([lo], [hi]) && fresh(ram)
      ensures |tasks| == 1 && tasks[0].state == Running && current == 0 && !needReschedule && cpu == r
    {
      ram := new u32[RAM_WORDS];
      cpu := r;
      tasks := [Task(0, 0, 0, 0, Running, false)];
      current, needReschedule, tssEsp0 := 0, false, 0;
      stacks := Stacks([lo], [hi]);
    }

    /** Builds the first frame on a new kernel stack, which starts at word `lo`, and enters the task. */
    method Register(lo: int, frame: seq<u32>, task: Task) returns (id: Option<nat>)
      requires ram.Length == RAM_WORDS && 0 <= lo && lo + STACK_WORDS <= RAM_WORDS - 2 && |frame| <= STACK_WORDS
      modifies ram, this`tasks, this`stacks
      ensures id == Some(|old(tasks)|)
      ensures Whole() == Grown(old(Whole()), lo, frame, task.(esp := 4 * (lo + STACK_WORDS - |frame|)))
    {
      hide PushAll;
      var w := Push(lo + STACK_WORDS, frame);
      id := Some(|tasks|);
      tasks := tasks + [task.(esp := 4 * w)];
      stacks := Stacks(stacks.lo + [lo], stacks.hi + [lo + STACK_WORDS]);
    }

    /** task_create; `stack` is what kmalloc returned, 0 for failure. */
    method CreateKernelTask(entry: u32, taskExit: u32, stack: u32) returns (id: Option<nat>)
      requires Valid() && (stack != 0 ==> FreeStack(stacks, stack))
      modifies ram, this`tasks, this`stacks
      ensures Valid()
      ensures id.None? <==> |old(tasks)| >= MAX_TASKS || stack == 0
      ensures Whole() == Act(old(Whole()), KernelTaskMade(entry, taskExit, stack)) && Leaves(old(Whole()), Whole())
      ensures id.Some? ==>
                id.value == |old(tasks)| && Abs(State()) == Create(old(Abs(State())), FreshKernel(entry, stack))
      ensures id.Some? ==> ram[FreshKernel(entry, stack).esp / 4] == taskExit
      ensures id.Some? ==>
                && tasks[..|old(tasks)|] == old(tasks) && |tasks| == |old(tasks)| + 1
                && tasks[id.value].state == Ready && !tasks[id.value].isUser
                && View(State(), id.value).eip == entry && View(State(), id.value).cs == KERNEL_CODE
                && View(State(), id.value).esp == stack + 4 * STACK_WORDS - 4
      ensures id.Some? ==> stacks == Stacks(old(stacks).lo + [stack / 4], old(stacks).hi + [stack / 4 + STACK_WORDS])
    {
      hide Saved, Safe, Abs, OthersSame, Leaves, PushAll, Scheduled, Create, View;
      ghost var s := Whole();
      ActRefines(s, KernelTaskMade(entry, taskExit, stack));
      if |tasks| >= MAX_TASKS || stack == 0 { return None; }
      NewTaskStarts(s, KernelTaskMade(entry, taskExit, stack));
      KernelTaskRefines(s, entry, taskExit, stack);
      StackWords(stack);
      id := Register(stack / 4, KernelFrame(entry, taskExit), Task(0, stack, 0, stack + 4 * STACK_WORDS, Ready, false));
    }

    /** task_create_user; the two stacks are what kmalloc returned, 0 for failure. */
    method CreateUserTask(entry: u32, kstack: u32, ustack: u32) returns (id: Option<nat>)
      requires Valid() && (kstack != 0 ==> FreeStack(stacks, kstack)) && ustack + 4 * STACK_WORDS < TWO32
      modifies ram, this`tasks, this`stacks
      ensures Valid()
      ensures id.None? <==> |old(tasks)| >= MAX_TASKS || kstack == 0 || ustack == 0
      ensures Whole() == Act(old(Whole()), UserTaskMade(entry, kstack, ustack)) && Leaves(old(Whole()), Whole())
      ensures id.Some? ==>
                id.value == |old(tasks)| && Abs(State()) == Create(old(Abs(State())), FreshUser(entry, ustack))
      ensures id.Some? ==>
                && tasks[..|old(tasks)|] == old(tasks) && |tasks| == |old(tasks)| + 1
                && tasks[id.value].state == Ready && tasks[id.value].isUser
                && tasks[id.value].kernelStackTop == kstack + 4 * STACK_WORDS
                && View(State(), id.value).eip == entry && View(State(), id.value).cs == USER_CODE
                && View(State(), id.value).ss == USER_DATA && View(State(), id.value).esp == ustack + 4 * STACK_WORDS
      ensures id.Some? ==> stacks == Stacks(old(stacks).lo + [kstack / 4], old(stacks).hi + [kstack / 4 + STACK_WORDS])
    {
      hide Saved, Safe, Abs, OthersSame, Leaves, PushAll, Scheduled, Create, View;
      ghost var s := Whole();
      ActRefines(s, UserTaskMade(entry, kstack, ustack));
      if |tasks| >= MAX_TASKS || kstack == 0 || ustack == 0 { return None; }
      NewTaskStarts(s, UserTaskMade(entry, kstack, ustack));
      UserTaskRefines(s, entry, kstack, ustack);
      StackWords(kstack);
      id := Register(kstack / 4, UserFrame(entry, ustack),
          Task(0, kstack, ustack, kstack + 4 * STACK_WORDS, Ready, true));
    }

    /** task_exit: mark terminated, then yield through INT 0x81. */
    method TaskExit(scratch: seq<u32>, pokes: seq<Poke>)
      requires Valid() && CanEnter(State(), stacks, scratch, pokes)
      modifies ram, this
      ensures Valid() && Whole() == Act(old(Whole()), Quit(scratch, pokes)) && Leaves(old(Whole()), Whole())
      ensures Abs(State()) == Exit(old(Abs(State()))) && stacks == old(stacks)
      ensures Passes(old(State()), State(), true, true) && StateOf(State(), old(current)) == Terminated
    {
      ghost var s := Whole();
      ActRefines(s, Quit(scratch, pokes));
      ActPasses(s, Quit(scratch, pokes));
      EndedIsSafe(s.c, stacks);
      HarmlessAfter(s.c, Ended(s.c), stacks, pokes, FrameAt(s.c), EntryTop(s.c));
      assert StateOf(Act(s, Quit(scratch, pokes)).c, current) == Terminated;
      hide Saved, Safe, Abs, OthersSame, Harmless, Passes;
      tasks := tasks[current := tasks[current].(state := Terminated)];
      assert State() == Ended(s.c);
      var halted := TakeInterrupt(129, 0, Some(Effect(true, None)), scratch, pokes);
    }

    /** The current task runs: its registers change as it likes within its own mode and stack, and it
        may write any word that is not on another task's kernel stack. */
    method RunTask(r: Regs, pokes: seq<Poke>)
      requires Valid() && Possible(Whole(), Computed(r, pokes))
      modifies ram, this`cpu
      ensures Valid() && Whole() == Act(old(Whole()), Computed(r, pokes)) && Leaves(old(Whole()), Whole())
      ensures Abs(State()) == Scheduler.Run(old(Abs(State())), r)
    {
      ghost var s := Whole();
      ActRefines(s, Computed(r, pokes));
      hide Saved, Safe, Abs, OthersSame, Poked;
      Store(pokes);
      cpu := r;
    }

    method Perform(a: Action)
      requires Valid() && Possible(Whole(), a)
      modifies ram, this
      ensures Valid() && Whole() == Act(old(Whole()), a)
      ensures Passes(old(State()), State(), Requested(old(State()), a), a.Quit?)
    {
      ActPasses(Whole(), a);
      hide Saved, Safe, Abs, OthersSame, Harmless, Scheduled, Leaves, CpuFits, Passes;
      match a
      case Interrupted(v, err, h, scratch, pokes) =>
        var halted := TakeInterrupt(v, err, h, scratch, pokes);
      case Computed(r, pokes) => RunTask(r, pokes);
      case KernelTaskMade(entry, taskExit, stack) =>
        var id := CreateKernelTask(entry, taskExit, stack);
      case UserTaskMade(entry, kstack, ustack) =>
        var id := CreateUserTask(entry, kstack, ustack);
      case Quit(scratch, pokes) => TaskExit(scratch, pokes);
      case HandlerEntered(v, err, eip, eflags) =>
        var w := EnterHandler(v, err, eip, eflags);
      case HandlerLeft(w, result, resched) => LeaveHandler(w, result, resched);
    }

    /** Every run of the kernel is a run of the machine with private register files, and a task that
        stays off the CPU keeps its saved stack pointer and the registers saved there. */
    method Run(acts: seq<Action>)
      requires Valid() && Admits(Whole(), acts)
      modifies ram, this
      ensures Valid() && Whole() == After(old(Whole()), acts)
      ensures Legal(old(Abs(State())), Events(old(Whole()), acts))
      ensures Abs(State()) == Exec(old(Abs(State())), Events(old(Whole()), acts))
      ensures forall t :: 0 <= t < |old(tasks)| && OffCpu(old(Whole()), acts, t) ==>
                t < |tasks| && tasks[t].esp == old(tasks)[t].esp &&
                Saved(ram[..], tasks[t].esp / 4) == Saved(old(ram[..]), tasks[t].esp / 4)
      ensures forall t :: 0 <= t < |old(tasks)| ==>
                t < |tasks| &&
                (tasks[t].state == Terminated <==> old(tasks)[t].state == Terminated || QuitsIn(old(Whole()), acts, t))
    {
      ghost var s := Whole();
      RunRefines(s, acts);
      forall t | 0 <= t < |s.c.ts|
        ensures var d := After(s, acts).c;
                t < |d.ts| && (d.ts[t].state == Terminated <==> s.c.ts[t].state == Terminated || QuitsIn(s, acts, t))
      {
        LivesUntilItQuits(s, acts, t);
      }
      forall t | 0 <= t < |s.c.ts| && OffCpu(s, acts, t)
        ensures var d := After(s, acts).c;
                t < |d.ts| && d.ts[t].esp == s.c.ts[t].esp &&
                Saved(d.m, d.ts[t].esp / 4) == Saved(s.c.m, d.ts[t].esp / 4)
      {
        SavedEspIsFrozen(s, acts, t);
        OffAtTheEnd(s, acts, t);
        FrameKept(s, After(s, acts).c.m, t);
      }
      hide Saved, Safe, Abs, Possible, Act, Events, Legal, Exec, OffCpu, QuitsIn, Passes;
      var i := 0;
      assert acts[0..] == acts;
      while i < |acts|
        invariant i <= |acts| && Valid() && Admits(Whole(), acts[i..]) && After(Whole(), acts[i..]) == After(s, acts)
      {
        assert acts[i..][0] == acts[i] && acts[i..][1..] == acts[i + 1..];
        Perform(acts[i]);
        i := i + 1;
      }
      assert acts[i..] == [];
    }
  }

  lemma ExitInRam(c: Conc, k: Stacks, w: int, result: Option<u32>, resched: bool)
    requires Safe(c, k) && CanLeave(c, k, w)
    ensures 0 <= w && w + 16 <= RAM_WORDS && c.cur < |c.ts| && |c.m| == RAM_WORDS && 4 * w < TWO32
    ensures var d := c.(m := Handled(c.m, w, [], [], result), need := c.need || resched);
            Scheduled(d, 4 * w).1 / 4 + 16 <= RAM_WORDS
    ensures PushAll(c.m, w, []) == c.m
  {
    LeaveEntered(c, k, w);
    var r, e := Saved(c.m, w), Effect(resched, result);
    var d := c.(m := Handled(c.m, w, [], [], result), need := c.need || resched);
    HandlerKeeps(c, k, w, r, [], [], e);
    assert PushAll(c.m, w, []) == c.m;
    hide Saved, OthersSame, Handled, PushAll;
    InterruptRefines(c, d, k, w, r, WithResult(r, result), e, Scheduled(d, 4 * w).1);
  }

  /** The stack pointer the scheduler answers points at a frame in memory. */
  lemma InRamAfter(c: Conc, k: Stacks, vector: u32, err: u32, e: Effect, scratch: seq<u32>, pokes: seq<Poke>)
    requires CanEnter(c, k, scratch, pokes) && FrameInRam(c)
    ensures Scheduled(HandledState(c, vector, err, e, scratch, pokes), 4 * FrameAt(c)).1 / 4 + 16 <= RAM_WORDS
    ensures |scratch| <= FrameAt(c) && FrameAt(c) + 16 <= RAM_WORDS && Room(c, k, 0)
    ensures forall p :: p in pokes ==> p.at < RAM_WORDS
  {
    HandlerReturns(c, k, vector, err, e, scratch, pokes);
    var d := HandledState(c, vector, err, e, scratch, pokes);
    hide Saved, OthersSame, Handled;
    InterruptRefines(c, d, k, FrameAt(c), c.cpu, WithResult(c.cpu, e.result), e, Scheduled(d, 4 * FrameAt(c)).1);
  }
}
