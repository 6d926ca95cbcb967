/** Context switching by stack swapping (kernel/arch/x86_64/isr.asm, isr_handler in
    kernel/arch/x86_64/idt.c, kernel/proc/task.c): an interrupt pushes the registers on the
    running task's kernel stack, the scheduler may answer with another task's stack pointer, and
    the registers found there are popped. The result is the Scheduler machine, in which every task
    has a register file of its own. */
module ContextSwitch {
  import opened Words
  import opened Scheduler

  const KERNEL_CODE: u16 := 0x08
  const KERNEL_DATA: u16 := 0x10
  const USER_CODE: u16 := 0x1B
  const USER_DATA: u16 := 0x23
  const STACK_WORDS := 1024

  /** Memory is an array of 32-bit words; stack pointers are multiples of 4. */
  const RAM_WORDS: int := 0x4000_0000

  datatype Task = Task(esp: u32, stackBase: u32, userStackBase: u32, kernelStackTop: u32, state: TaskState,
                       isUser: bool)

  predicate UserMode(cs: u16) { cs % 4 != 0 }

  /** Words in the frame of a task interrupted with code segment `cs`. */
  function FrameWords(cs: u16): int { if UserMode(cs) then 16 else 14 }

  // ---------------------------------------------------------------- frames

  /** What pop ds, popa, add esp 8 and iret load from the frame at word `w`. */
  function Saved(m: seq<u32>, w: int): Regs {
    if 0 <= w && w + 16 <= |m| && w + 14 < RAM_WORDS then
      var ds := m[w] % 0x1_0000;
      var cs := m[w + 12] % 0x1_0000;
      Regs(m[w + 8], m[w + 7], m[w + 6], m[w + 5], m[w + 3], m[w + 2], m[w + 1], m[w + 11], m[w + 13], cs,
           if UserMode(cs) then m[w + 14] else 4 * (w + 14),
           if UserMode(cs) then m[w + 15] % 0x1_0000 else KERNEL_DATA, ds, ds, ds, ds)
    else
      Regs(0, 0, 0, 0, 0, 0, 0, 0, 0, 0, 0, 0, 0, 0, 0, 0)
  }

  /** The words pushed on entry, in pushing order: by the CPU (stack switch, then flags and return
      address), by the stub (error code, vector), by pusha, and the data segment. `at` is the
      stack pointer pusha saves. */
  function Pushes(r: Regs, vector: u32, err: u32, at: u32): seq<u32> {
    (if UserMode(r.cs) then [r.ss, r.esp] else []) +
    [r.eflags, r.cs, r.eip, err, vector, r.eax, r.ecx, r.edx, r.ebx, at, r.ebp, r.esi, r.edi,
     r.eax - r.eax % 0x1_0000 + r.ds]
  }

  /** `m'` is `m` with `vals` pushed one by one below word `w`. */
  ghost predicate Pushed(m: seq<u32>, m': seq<u32>, w: int, vals: seq<u32>) {
    |m| == |m'| && 0 <= w - |vals| && w <= |m| &&
    (forall j :: w - |vals| <= j < w ==> m'[j] == vals[w - 1 - j]) &&
    (forall j :: 0 <= j < |m| && !(w - |vals| <= j < w) ==> m'[j] == m[j])
  }

  /** The two memories differ at most in the words from `lo` up to `hi`. */
  ghost predicate SameOutside(m: seq<u32>, m': seq<u32>, lo: int, hi: int) {
    |m| == |m'| && forall j :: 0 <= j < |m| && !(lo <= j < hi) ==> m'[j] == m[j]
  }

  ghost predicate SameOn(m: seq<u32>, m': seq<u32>, lo: int, hi: int) {
    |m| == |m'| && forall j :: 0 <= j < |m| && lo <= j < hi ==> m'[j] == m[j]
  }

  /** The memory after pushing `vals` below word `w`. */
  ghost function PushAll(m: seq<u32>, w: int, vals: seq<u32>): (m': seq<u32>)
    ensures |m'| == |m|
    ensures 0 <= w - |vals| && w <= |m| ==> Pushed(m, m', w, vals)
  {
    if 0 <= w - |vals| && w <= |m| then
      seq(|m|, i requires 0 <= i < |m| => if w - |vals| <= i < w then vals[w - 1 - i] else m[i])
    else m
  }

  lemma PushedIs(m: seq<u32>, m': seq<u32>, w: int, vals: seq<u32>)
    requires Pushed(m, m', w, vals)
    ensures m' == PushAll(m, w, vals)
  {
  }

  /** A store to memory that is not part of the context switch: a buffer, the heap, a global. */
  datatype Poke = Poke(at: nat, v: u32)

  ghost function Poked(m: seq<u32>, ps: seq<Poke>): (m': seq<u32>)
    ensures |m'| == |m|
    decreases |ps|
  {
    if ps == [] then m else Poked(if ps[0].at < |m| then m[ps[0].at := ps[0].v] else m, ps[1..])
  }

  /** Stores that avoid a range leave it as it was. */
  lemma {:induction false} PokedKeeps(m: seq<u32>, ps: seq<Poke>, lo: int, hi: int)
    requires forall p :: p in ps ==> !(lo <= p.at < hi)
    ensures SameOn(m, Poked(m, ps), lo, hi)
    decreases |ps|
  {
    if ps != [] {
      var m1 := if ps[0].at < |m| then m[ps[0].at := ps[0].v] else m;
      assert ps[0] in ps;
      PokedKeeps(m1, ps[1..], lo, hi);
    }
  }

  /** Popping what entry pushed gives back the registers. */
  lemma PopsWhatWasPushed(m: seq<u32>, m': seq<u32>, top: int, r: Regs, vector: u32, err: u32, at: u32)
    requires |m| == RAM_WORDS && Pushed(m, m', top, Pushes(r, vector, err, at)) && top + 2 <= RAM_WORDS
    requires r.es == r.fs == r.gs == r.ds
    requires !UserMode(r.cs) ==> r.ss == KERNEL_DATA && r.esp == 4 * top
    ensures Saved(m', top - FrameWords(r.cs)) == r
  {
    var p := Pushes(r, vector, err, at);
    var w := top - |p|;
    assert (r.eax - r.eax % 0x1_0000 + r.ds) % 0x1_0000 == r.ds;
    assert m'[w + 12] == r.cs;
  }

  /** The frame handlers get has the layout of interrupt_frame_t: ds, edi, esi, ebp, esp, ebx, edx, ecx, eax,
      int_no, err_code, eip, cs, eflags and, from ring 3, useresp and ss. */
  lemma FrameLayout(m: seq<u32>, m': seq<u32>, top: int, r: Regs, vector: u32, err: u32, at: u32)
    requires Pushed(m, m', top, Pushes(r, vector, err, at))
    ensures var n := if r.cs % 4 != 0 then 16 else 14;
            && 0 <= top - n && m'[top - n] % 0x1_0000 == r.ds
            && m'[top - n + 1..top - n + 9] == [r.edi, r.esi, r.ebp, at, r.ebx, r.edx, r.ecx, r.eax]
            && m'[top - n + 9..top - n + 14] == [vector, err, r.eip, r.cs, r.eflags]
            && (r.cs % 4 != 0 ==> m'[top - n + 14..top] == [r.esp, r.ss])
  {
    var n := if UserMode(r.cs) then 16 else 14;
    assert |Pushes(r, vector, err, at)| == n;
    assert (r.eax - r.eax % 0x1_0000 + r.ds) % 0x1_0000 == r.ds;
  }

  /** A frame that is not written to does not change. */
  lemma SavedFrame(m: seq<u32>, m': seq<u32>, w: int)
    requires |m| == RAM_WORDS && 0 <= w && w + 16 <= RAM_WORDS
    requires SameOn(m, m', w, w + FrameWords(Saved(m, w).cs))
    ensures Saved(m', w) == Saved(m, w)
  {
    assert m'[w + 12] == m[w + 12];
  }

  /** A system call's result lands in the saved EAX. */
  lemma SavedResult(m: seq<u32>, w: int, v: u32)
    requires |m| == RAM_WORDS && 0 <= w && w + 16 <= RAM_WORDS
    ensures Saved(m[w + 8 := v], w) == Saved(m, w).(eax := v)
  {
  }

  // ---------------------------------------------------------------- the state and its meaning

  /** Memory, CPU, task table, current task, pending request, TSS.ESP0. */
  datatype Conc = Conc(m: seq<u32>, cpu: Regs, ts: seq<Task>, cur: nat, need: bool, esp0: u32)

  /** The kernel stack of each task: the words from `lo` up to `hi`. */
  datatype Stacks = Stacks(lo: seq<int>, hi: seq<int>)

  function StatesOf(ts: seq<Task>): (r: seq<TaskState>)
    ensures |r| == |ts| && forall t :: 0 <= t < |ts| ==> r[t] == ts[t].state
  {
    seq(|ts|, t requires 0 <= t < |ts| => ts[t].state)
  }

  /** The registers a task has, or will have when it is resumed. */
  ghost function View(c: Conc, t: nat): Regs
    requires t < |c.ts|
  {
    if t == c.cur then c.cpu else Saved(c.m, c.ts[t].esp / 4)
  }

  ghost function Files(c: Conc): (r: seq<Regs>)
    ensures |r| == |c.ts| && forall t :: 0 <= t < |c.ts| ==> r[t] == View(c, t)
  {
    seq(|c.ts|, t requires 0 <= t < |c.ts| => View(c, t))
  }

  /** The machine with private register files that the concrete state stands for. */
  ghost function Abs(c: Conc): Machine {
    Machine(Files(c), StatesOf(c.ts), c.cur, c.need)
  }

  /** Kernel stacks lie in memory and do not overlap. */
  ghost predicate Apart(c: Conc, k: Stacks) {
    && |c.m| == RAM_WORDS && |k.lo| == |k.hi| == |c.ts|
    && (forall t :: 0 <= t < |c.ts| ==> 0 <= k.lo[t] <= k.hi[t] <= RAM_WORDS - 2)
    && (forall s, t :: 0 <= s < t < |c.ts| ==> k.hi[s] <= k.lo[t] || k.hi[t] <= k.lo[s])
    && (forall t :: 0 <= t < |c.ts| && c.ts[t].isUser ==>
      c.ts[t].kernelStackTop == 4 * k.hi[t] && k.lo[t] + 16 <= k.hi[t])
  }

  /** A frame at word `w` fits task `t`: it lies in the task's stack, and only user tasks have a
      user-mode frame. */
  ghost predicate FrameFits(m: seq<u32>, w: int, lo: int, hi: int, isUser: bool) {
    lo <= w && w + FrameWords(Saved(m, w).cs) <= hi && (UserMode(Saved(m, w).cs) ==> isUser)
  }

  ghost predicate Suspended(c: Conc, k: Stacks)
    requires Apart(c, k)
  {
    forall t :: 0 <= t < |c.ts| && t != c.cur ==>
      c.ts[t].esp % 4 == 0 && FrameFits(c.m, c.ts[t].esp / 4, k.lo[t], k.hi[t], c.ts[t].isUser)
  }

  /** The running task: data segments agree; in kernel mode it is on its own kernel stack, in user
      mode it is a user task. */
  ghost predicate CpuFits(r: Regs, lo: int, hi: int, isUser: bool) {
    r.es == r.fs == r.gs == r.ds &&
    (if UserMode(r.cs) then isUser else r.ss == KERNEL_DATA && r.esp % 4 == 0 && lo <= r.esp / 4 <= hi)
  }

  /** What holds between interrupts. */
  ghost predicate Safe(c: Conc, k: Stacks) {
    && Scheduler.Inv(Abs(c))
    && Apart(c, k) && Suspended(c, k)
    && CpuFits(c.cpu, k.lo[c.cur], k.hi[c.cur], c.ts[c.cur].isUser)
    && (c.ts[c.cur].isUser ==> c.esp0 == 4 * k.hi[c.cur])
  }

  // ---------------------------------------------------------------- the scheduler's part

  /** The state of a task that leaves the CPU. */
  function Demoted(s: TaskState): TaskState { if s == Running then Ready else s }

  /** The task table after switching from `cur`, whose stack pointer is `esp`, to `next`. */
  function Switched(ts: seq<Task>, cur: nat, next: nat, esp: u32): seq<Task>
    requires cur < |ts| && next < |ts|
  {
    var us := ts[cur := ts[cur].(esp := esp, state := Demoted(ts[cur].state))];
    us[next := us[next].(state := Running)]
  }

  /** task_schedule_if_needed on the whole state, with the stack pointer it answers. */
  ghost function Scheduled(c: Conc, esp: u32): (Conc, u32)
    requires c.cur < |c.ts|
  {
    if !c.need then (c, esp)
    else
      var next := Next(StatesOf(c.ts), c.cur);
      if next == c.cur then (c.(need := false), esp)
      else
        var top := c.ts[next].kernelStackTop;
        (c.(ts := Switched(c.ts, c.cur, next, esp), cur := next, need := false,
            esp0 := if top != 0 then top else c.esp0),
         c.ts[next].esp)
  }

  /** The state when the handler returns: frame at word `w` of the current stack, registers `r`
      saved there, other stacks as in the invariant. */
  ghost predicate Entered(c: Conc, k: Stacks, w: int, r: Regs) {
    && Scheduler.Inv(Abs(c)) && Apart(c, k) && Suspended(c, k)
    && FrameFits(c.m, w, k.lo[c.cur], k.hi[c.cur], c.ts[c.cur].isUser)
    && Saved(c.m, w) == r && 0 <= 4 * w < TWO32
    && (c.ts[c.cur].isUser ==> c.esp0 == 4 * k.hi[c.cur])
  }

  /** Resuming a fitting frame puts the CPU in a fitting state. */
  lemma ResumeFits(m: seq<u32>, w: int, lo: int, hi: int, isUser: bool)
    requires |m| == RAM_WORDS && 0 <= lo && hi <= RAM_WORDS - 2 && FrameFits(m, w, lo, hi, isUser)
    ensures CpuFits(Saved(m, w), lo, hi, isUser)
  {
    assert w + 16 <= RAM_WORDS && w + 14 < RAM_WORDS;
  }

  lemma StaySafe(c: Conc, k: Stacks, w: int, r: Regs)
    requires Entered(c, k, w, r)
    ensures Safe(c.(cpu := r, need := false), k)
    ensures Safe(c.(cpu := r), k)
  {
    ResumeFits(c.m, w, k.lo[c.cur], k.hi[c.cur], c.ts[c.cur].isUser);
    hide Saved, FrameFits, CpuFits;
    assert StatesOf(c.ts) == Abs(c.(cpu := r)).states;
  }

  lemma SwitchedIs(ts: seq<Task>, cur: nat, next: nat, esp: u32)
    requires cur < |ts| && next < |ts| && cur != next
    ensures var us := Switched(ts, cur, next, esp);
            && |us| == |ts|
            && (forall t :: 0 <= t < |ts| ==>
              us[t].isUser == ts[t].isUser && us[t].kernelStackTop == ts[t].kernelStackTop)
            && (forall t :: 0 <= t < |ts| ==> us[t].esp == if t == cur then esp else ts[t].esp)
            && StatesOf(us) == StatesOf(ts)[cur := Demoted(ts[cur].state)][next := Running]
            && us[next].state == Running
            && us[cur].state == if ts[cur].state == Running then Ready else ts[cur].state
  {
  }

  lemma SwitchSafe(c: Conc, k: Stacks, w: int, r: Regs, next: nat, d: Conc)
    requires Entered(c, k, w, r) && next < |c.ts| && next != c.cur && Runnable(c.ts[next].state)
    requires d == c.(ts := Switched(c.ts, c.cur, next, 4 * w), cur := next, need := false,
                     esp0 := if c.ts[next].kernelStackTop != 0 then c.ts[next].kernelStackTop else c.esp0,
                     cpu := Saved(c.m, c.ts[next].esp / 4))
    ensures Safe(d, k)
    ensures Files(d) == Files(c.(cpu := r))
    ensures StatesOf(d.ts) == StatesOf(c.ts)[c.cur := Demoted(c.ts[c.cur].state)][next := Running]
  {
    ResumeFits(c.m, c.ts[next].esp / 4, k.lo[next], k.hi[next], c.ts[next].isUser);
    SwitchedIs(c.ts, c.cur, next, 4 * w);
    hide Saved, FrameFits, CpuFits, Switched;
    assert 4 * w / 4 == w;
    assert Apart(d, k) && Suspended(d, k);
    hide Apart, Suspended;
    assert Files(d) == Files(c.(cpu := r));
  }

  /** Leaving through the stack pointer the scheduler answers is the abstract scheduling step. */
  lemma ScheduleRefines(c: Conc, k: Stacks, w: int, r: Regs)
    requires Entered(c, k, w, r)
    ensures var (d, esp) := Scheduled(c, 4 * w);
            var d' := d.(cpu := Saved(d.m, esp / 4));
            Safe(d', k) && Abs(d') == Schedule(Abs(c.(cpu := r)))
  {
    var (d, esp) := Scheduled(c, 4 * w);
    var d' := d.(cpu := Saved(d.m, esp / 4));
    var a := Abs(c.(cpu := r));
    NextIsNext(StatesOf(c.ts), c.cur);
    var next := Next(StatesOf(c.ts), c.cur);
    assert a.states == StatesOf(c.ts) && 4 * w / 4 == w;
    StaySafe(c, k, w, r);
    hide Saved, Safe, Next, Entered, Apart, Suspended, IsNext;
    if c.need && next != c.cur {
      SwitchSafe(c, k, w, r, next, d');
    }
  }

  // ---------------------------------------------------------------- entry and handler

  /** No word of the kernel stack of a task other than `cur` changed. */
  ghost predicate OthersSame(m: seq<u32>, m': seq<u32>, k: Stacks, cur: nat) {
    |m| == |m'| && |k.lo| == |k.hi| &&
    forall t :: 0 <= t < |k.lo| && t != cur ==> SameOn(m, m', k.lo[t], k.hi[t])
  }

  /** Writes that spare the other tasks' kernel stacks touch no other task. */
  lemma OthersKeep(c: Conc, k: Stacks, m': seq<u32>)
    requires Apart(c, k) && Suspended(c, k) && c.cur < |c.ts| && OthersSame(c.m, m', k, c.cur)
    ensures Apart(c.(m := m'), k) && Suspended(c.(m := m'), k) && Abs(c.(m := m')) == Abs(c)
  {
    var d := c.(m := m');
    forall t | 0 <= t < |c.ts| && t != c.cur
      ensures Saved(m', c.ts[t].esp / 4) == Saved(c.m, c.ts[t].esp / 4)
    {
      assert SameOn(c.m, m', k.lo[t], k.hi[t]);
      SavedFrame(c.m, m', c.ts[t].esp / 4);
    }
    hide Saved, FrameWords, SameOn;
    assert Files(d) == Files(c);
  }

  /** Writes on the current kernel stack spare the others. */
  lemma OwnStackOnly(c: Conc, k: Stacks, m': seq<u32>)
    requires Apart(c, k) && c.cur < |c.ts| && SameOutside(c.m, m', k.lo[c.cur], k.hi[c.cur])
    ensures OthersSame(c.m, m', k, c.cur)
  {
    forall t | 0 <= t < |k.lo| && t != c.cur ensures SameOn(c.m, m', k.lo[t], k.hi[t]) {
      assert k.hi[t] <= k.lo[c.cur] || k.hi[c.cur] <= k.lo[t];
    }
  }

  /** The stores stay in memory and off the kernel stacks of all tasks but the current one, and off
      the words from `lo` up to `hi`. */
  ghost predicate Harmless(c: Conc, k: Stacks, ps: seq<Poke>, lo: int, hi: int) {
    && (forall p :: p in ps ==> p.at < RAM_WORDS && !(lo <= p.at < hi))
    && (forall p, t :: p in ps && 0 <= t < |k.lo| && t < |k.hi| && t != c.cur ==> !(k.lo[t] <= p.at < k.hi[t]))
  }

  lemma HarmlessSpares(c: Conc, k: Stacks, m: seq<u32>, ps: seq<Poke>, lo: int, hi: int)
    requires Harmless(c, k, ps, lo, hi) && |k.lo| == |k.hi|
    ensures OthersSame(m, Poked(m, ps), k, c.cur) && SameOn(m, Poked(m, ps), lo, hi)
  {
    PokedKeeps(m, ps, lo, hi);
    forall t | 0 <= t < |k.lo| && t != c.cur ensures SameOn(m, Poked(m, ps), k.lo[t], k.hi[t]) {
      PokedKeeps(m, ps, k.lo[t], k.hi[t]);
    }
  }

  lemma OthersSameTrans(m: seq<u32>, m': seq<u32>, m'': seq<u32>, k: Stacks, cur: nat)
    requires OthersSame(m, m', k, cur) && OthersSame(m', m'', k, cur)
    ensures OthersSame(m, m'', k, cur)
  {
    forall t | 0 <= t < |k.lo| && t != cur ensures SameOn(m, m'', k.lo[t], k.hi[t]) {
      assert SameOn(m, m', k.lo[t], k.hi[t]) && SameOn(m', m'', k.lo[t], k.hi[t]);
    }
  }

  /** Where entry starts pushing: TSS.ESP0 from user mode, the stack pointer otherwise. */
  function EntryTop(c: Conc): int { if UserMode(c.cpu.cs) then c.esp0 / 4 else c.cpu.esp / 4 }

  /** There is room on the kernel stack for the frame and `n` more words. */
  ghost predicate Room(c: Conc, k: Stacks, n: int)
    requires Safe(c, k)
  {
    k.lo[c.cur] + FrameWords(c.cpu.cs) + n <= EntryTop(c)
  }

  lemma EnterSaves(c: Conc, k: Stacks, m': seq<u32>, vector: u32, err: u32, at: u32)
    requires Safe(c, k) && Room(c, k, 0) && Pushed(c.m, m', EntryTop(c), Pushes(c.cpu, vector, err, at))
    ensures Entered(c.(m := m'), k, EntryTop(c) - FrameWords(c.cpu.cs), c.cpu)
    ensures Abs(c.(m := m')) == Abs(c) && OthersSame(c.m, m', k, c.cur)
  {
    var top := EntryTop(c);
    assert |Pushes(c.cpu, vector, err, at)| == FrameWords(c.cpu.cs);
    PopsWhatWasPushed(c.m, m', top, c.cpu, vector, err, at);
    hide Saved, Pushes;
    OwnStackOnly(c, k, m');
    hide OthersSame;
    OthersKeep(c, k, m');
  }

  /** The registers found in the frame after the handler: the result of a system call in EAX. */
  function WithResult(r: Regs, result: Option<u32>): Regs {
    match result case Some(v) => r.(eax := v) case None => r
  }

  /** Memory when the handler returns: it used the stack below the frame at `w`, made some stores,
      and may have set the saved EAX. */
  ghost function Handled(m: seq<u32>, w: int, scratch: seq<u32>, pokes: seq<Poke>, result: Option<u32>): (m': seq<u32>)
    ensures |m'| == |m|
  {
    var m2 := Poked(PushAll(m, w, scratch), pokes);
    match result
    case Some(v) => if 0 <= w + 8 < |m2| then m2[w + 8 := v] else m2
    case None => m2
  }

  /** The frame survives the stack use below it and the stores beside it. */
  lemma FrameSurvives(m: seq<u32>, w: int, r: Regs, scratch: seq<u32>, pokes: seq<Poke>)
    requires |m| == RAM_WORDS && |scratch| <= w && w + 16 <= RAM_WORDS && Saved(m, w) == r
    requires SameOn(PushAll(m, w, scratch), Poked(PushAll(m, w, scratch), pokes), w, w + FrameWords(r.cs))
    ensures Saved(Poked(PushAll(m, w, scratch), pokes), w) == r
  {
    var m1 := PushAll(m, w, scratch);
    SavedFrame(m, m1, w);
    SavedFrame(m1, Poked(m1, pokes), w);
  }

  lemma HandlerMemory(c: Conc, k: Stacks, w: int, r: Regs, scratch: seq<u32>, pokes: seq<Poke>, result: Option<u32>)
    requires Entered(c, k, w, r) && k.lo[c.cur] + |scratch| <= w && Harmless(c, k, pokes, w, w + FrameWords(r.cs))
    ensures var m' := Handled(c.m, w, scratch, pokes, result);
            OthersSame(c.m, m', k, c.cur) && Saved(m', w) == WithResult(r, result)
  {
    var m1 := PushAll(c.m, w, scratch);
    var m2, m' := Poked(m1, pokes), Handled(c.m, w, scratch, pokes, result);
    HarmlessSpares(c, k, m1, pokes, w, w + FrameWords(r.cs));
    OwnStackOnly(c, k, m1);
    OthersSameTrans(c.m, m1, m2, k, c.cur);
    FrameSurvives(c.m, w, r, scratch, pokes);
    if result.Some? { SavedResult(m2, w, result.value); }
    assert OthersSame(m2, m', k, c.cur) by { OwnStackOnly(c.(m := m2), k, m'); }
    OthersSameTrans(c.m, m2, m', k, c.cur);
  }

  /** A handler that stays off the other kernel stacks and off the frame disturbs no other task, and
      the frame it returns through differs from the one it got in the result only. */
  lemma HandlerKeeps(c: Conc, k: Stacks, w: int, r: Regs, scratch: seq<u32>, pokes: seq<Poke>, e: Effect)
    requires Entered(c, k, w, r) && k.lo[c.cur] + |scratch| <= w && Harmless(c, k, pokes, w, w + FrameWords(r.cs))
    ensures var m' := Handled(c.m, w, scratch, pokes, e.result);
            && Entered(c.(m := m', need := c.need || e.resched), k, w, WithResult(r, e.result))
            && Abs(c.(m := m')) == Abs(c) && OthersSame(c.m, m', k, c.cur)
  {
    var m' := Handled(c.m, w, scratch, pokes, e.result);
    HandlerMemory(c, k, w, r, scratch, pokes, e.result);
    hide Saved, OthersSame, Harmless, Handled;
    OthersKeep(c, k, m');
    assert Abs(c.(m := m', need := c.need || e.resched)) == Abs(c).(need := c.need || e.resched);
  }

  lemma InterruptRefines(c: Conc, c2: Conc, k: Stacks, w: int, r: Regs, r': Regs, e: Effect, esp: u32)
    requires c.cur < |c.ts| && Scheduler.Inv(Abs(c)) && Entered(c2, k, w, r')
    requires c2 == c.(m := c2.m, need := c.need || e.resched) && Abs(c.(m := c2.m)) == Abs(c)
    requires r' == WithResult(r, e.result)
    requires Scheduled(c2, 4 * w).1 == esp
    ensures esp / 4 + 16 <= RAM_WORDS
    ensures var d := Scheduled(c2, 4 * w).0.(cpu := Saved(c2.m, esp / 4));
            Safe(d, k) && Abs(d) == Interrupt(Abs(c.(cpu := r)), e)
  {
    ScheduleRefines(c2, k, w, r');
    hide Saved;
    NextIsNext(StatesOf(c2.ts), c2.cur);
    var fs, gs := Files(c.(cpu := r))[c.cur := r'], Files(c2.(cpu := r'));
    forall t | 0 <= t < |fs| ensures fs[t] == gs[t] {
      assert View(c.(m := c2.m), t) == Files(c.(m := c2.m))[t] == Files(c)[t] == View(c, t);
    }
    assert fs == gs;
  }

  // ---------------------------------------------------------------- new tasks

  /** The registers a new kernel task starts with: at `entry`, its return address on top of the stack. */
  function FreshKernel(entry: u32, stack: u32): Regs
    requires stack + 4 * STACK_WORDS < TWO32
  {
    Regs(0, 0, 0, 0, 0, 0, 0, entry, 0x202, KERNEL_CODE, stack + 4 * STACK_WORDS - 4, KERNEL_DATA,
         KERNEL_DATA, KERNEL_DATA, KERNEL_DATA, KERNEL_DATA)
  }

  /** The registers a new user task starts with: at `entry` in ring 3, on top of its user stack. */
  function FreshUser(entry: u32, ustack: u32): Regs
    requires ustack + 4 * STACK_WORDS < TWO32
  {
    Regs(0, 0, 0, 0, 0, 0, 0, entry, 0x202, USER_CODE, ustack + 4 * STACK_WORDS, USER_DATA,
         USER_DATA, USER_DATA, USER_DATA, USER_DATA)
  }

  function KernelFrame(entry: u32, taskExit: u32): seq<u32> {
    [taskExit, 0x202, KERNEL_CODE, entry, 0, 0, 0, 0, 0, 0, 0, 0, 0, 0, KERNEL_DATA]
  }

  function UserFrame(entry: u32, ustack: u32): seq<u32>
    requires ustack + 4 * STACK_WORDS < TWO32
  {
    [USER_DATA, ustack + 4 * STACK_WORDS, 0x202, USER_CODE, entry, 0, 0, 0, 0, 0, 0, 0, 0, 0, 0, USER_DATA]
  }

  /** The stack at byte address `stack` is aligned, in memory, and apart from all kernel stacks. */
  ghost predicate FreeStack(k: Stacks, stack: u32) {
    stack % 8 == 0 && stack / 4 + STACK_WORDS <= RAM_WORDS - 2 && |k.lo| == |k.hi| &&
    forall t :: 0 <= t < |k.lo| ==> stack / 4 + STACK_WORDS <= k.lo[t] || k.hi[t] <= stack / 4
  }

  lemma KernelFrameStarts(m: seq<u32>, m': seq<u32>, lo: int, stack: u32, entry: u32, taskExit: u32)
    requires |m| == RAM_WORDS && 0 <= lo && stack == 4 * lo && lo + STACK_WORDS <= RAM_WORDS - 2
    requires Pushed(m, m', lo + STACK_WORDS, KernelFrame(entry, taskExit))
    ensures Saved(m', lo + STACK_WORDS - 15) == FreshKernel(entry, stack)
    ensures FreshKernel(entry, stack).esp / 4 == lo + STACK_WORDS - 1 && m'[lo + STACK_WORDS - 1] == taskExit
    ensures SameOutside(m, m', lo, lo + STACK_WORDS)
  {
    var w := lo + STACK_WORDS - 15;
    assert m'[w + 12] == KERNEL_CODE && m'[w + 14] == taskExit;
  }

  lemma UserFrameStarts(m: seq<u32>, m': seq<u32>, lo: int, entry: u32, ustack: u32)
    requires |m| == RAM_WORDS && 0 <= lo && lo + STACK_WORDS <= RAM_WORDS - 2
    requires ustack + 4 * STACK_WORDS < TWO32
    requires Pushed(m, m', lo + STACK_WORDS, UserFrame(entry, ustack))
    ensures Saved(m', lo + STACK_WORDS - 16) == FreshUser(entry, ustack)
    ensures SameOutside(m, m', lo, lo + STACK_WORDS)
  {
    var w := lo + STACK_WORDS - 16;
    assert m'[w + 12] == USER_CODE;
  }

  /** A task whose first frame was built on a stack of its own is an abstract creation. */
  lemma CreateRefines(c: Conc, k: Stacks, m': seq<u32>, task: Task, file: Regs, lo: int)
    requires Safe(c, k) && |c.ts| < MAX_TASKS && 0 <= lo && lo + STACK_WORDS <= RAM_WORDS - 2
    requires forall t :: 0 <= t < |k.lo| ==> lo + STACK_WORDS <= k.lo[t] || k.hi[t] <= lo
    requires SameOutside(c.m, m', lo, lo + STACK_WORDS)
    requires task.state == Ready && task.esp % 4 == 0 && Saved(m', task.esp / 4) == file
    requires FrameFits(m', task.esp / 4, lo, lo + STACK_WORDS, task.isUser)
    requires task.isUser ==> task.kernelStackTop == 4 * (lo + STACK_WORDS)
    ensures var d := c.(m := m', ts := c.ts + [task]);
            Safe(d, Stacks(k.lo + [lo], k.hi + [lo + STACK_WORDS])) && Abs(d) == Create(Abs(c), file)
  {
    var d, k' := c.(m := m', ts := c.ts + [task]), Stacks(k.lo + [lo], k.hi + [lo + STACK_WORDS]);
    forall t | 0 <= t < |c.ts| && t != c.cur
      ensures Saved(m', c.ts[t].esp / 4) == Saved(c.m, c.ts[t].esp / 4)
    {
      SavedFrame(c.m, m', c.ts[t].esp / 4);
    }
    hide Saved, FrameWords, CpuFits;
    assert Files(d) == Files(c) + [file];
    assert StatesOf(d.ts) == StatesOf(c.ts) + [Ready];
  }

  /** A task that computes and makes harmless stores takes a step of its own registers. */
  lemma ComputeRefines(c: Conc, k: Stacks, r: Regs, pokes: seq<Poke>)
    requires Safe(c, k) && CpuFits(r, k.lo[c.cur], k.hi[c.cur], c.ts[c.cur].isUser) && Harmless(c, k, pokes, 0, 0)
    ensures var d := c.(m := Poked(c.m, pokes), cpu := r); Safe(d, k) && Abs(d) == Run(Abs(c), r)
  {
    var c1 := c.(m := Poked(c.m, pokes));
    HarmlessSpares(c, k, c.m, pokes, 0, 0);
    OthersKeep(c, k, c1.m);
    hide Saved, FrameWords, CpuFits, Poked, OthersSame, Harmless;
    var d := c1.(cpu := r);
    assert Files(c1) == Files(c);
    assert forall t :: 0 <= t < |c.ts| && t != c.cur ==> View(d, t) == View(c1, t) == Files(c1)[t] == View(c, t);
    assert Files(d) == Files(c)[c.cur := r];
  }
}
