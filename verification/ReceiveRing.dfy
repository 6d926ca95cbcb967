/** The e1000 receive ring (kernel/drivers/e1000.c) as a protocol between the network card and the
    driver, whose steps interleave freely. The card follows section 3.2.6 of the Intel 8254x
    Software Developer's Manual: it fills descriptors from the head until the head meets the tail. */
module ReceiveRing {
  import opened Words

  const SLOTS := 32
  const BUF_SIZE := 2048

  type Frame = f: seq<byte> | |f| <= BUF_SIZE

  /** Where e1000_receive stands: not running; the frame copied; its status cleared; rx_cur advanced. */
  datatype Pc =
    | Idle
    | Copied(bytes: seq<byte>, cap: nat)
    | Cleared(bytes: seq<byte>, cap: nat)
    | Advanced(bytes: seq<byte>, cap: nat, was: nat)

  /** Descriptors (done flag, length) and buffers, the card's head and tail registers, rx_cur, the
      driver's and the card's progress, and the histories: frames the card completed, and what
      e1000_receive returned for which buffer size. */
  datatype Ring = Ring(done: seq<bool>, len: seq<nat>, buf: seq<seq<byte>>, head: nat, tail: nat, cur: nat,
                       pc: Pc, filling: Option<Frame>, accepted: seq<Frame>, delivered: seq<seq<byte>>, caps: seq<nat>)

  datatype Step =
    | CardFills(frame: Frame)   // the card writes a frame into the buffer at its head
    | CardCompletes             // it writes the descriptor back and moves its head
    | DriverCopies(cap: nat)    // e1000_receive finds the descriptor done and copies
    | DriverClears              // status = 0
    | DriverAdvances            // rx_cur = (rx_cur + 1) % 32
    | DriverReturnsSlot         // RDT = old

  ghost predicate Shape(r: Ring) {
    |r.done| == |r.len| == |r.buf| == SLOTS && r.head < SLOTS && r.tail < SLOTS && r.cur < SLOTS
  }

  /** Whether a step can happen. The driver's first step needs the done flag of the current slot. */
  predicate Enabled(r: Ring, s: Step) {
    match s
    case CardFills(_) => r.filling.None? && r.head != r.tail
    case CardCompletes => r.filling.Some? && r.head < |r.done|
    case DriverCopies(_) => r.pc.Idle? && r.cur < |r.done| && r.done[r.cur]
    case DriverClears => r.pc.Copied?
    case DriverAdvances => r.pc.Cleared?
    case DriverReturnsSlot => r.pc.Advanced?
  }

  /** The first bytes, as many as fit. */
  function Clip(f: seq<byte>, cap: nat): seq<byte> { if |f| <= cap then f else f[..cap] }

  function Next(r: Ring, s: Step): Ring
    requires Shape(r) && Enabled(r, s)
  {
    match s
    case CardFills(f) => r.(buf := r.buf[r.head := f], filling := Some(f))
    case CardCompletes =>
      r.(done := r.done[r.head := true], len := r.len[r.head := |r.filling.value|], head := (r.head + 1) % SLOTS,
         filling := None, accepted := r.accepted + [r.filling.value])
    case DriverCopies(cap) =>
      var n := if r.len[r.cur] > cap then cap else r.len[r.cur];
      r.(pc := Copied(if n <= |r.buf[r.cur]| then r.buf[r.cur][..n] else r.buf[r.cur], cap))
    case DriverClears => r.(done := r.done[r.cur := false], pc := Cleared(r.pc.bytes, r.pc.cap))
    case DriverAdvances => r.(cur := (r.cur + 1) % SLOTS, pc := Advanced(r.pc.bytes, r.pc.cap, r.cur))
    case DriverReturnsSlot =>
      r.(tail := r.pc.was, pc := Idle, delivered := r.delivered + [r.pc.bytes], caps := r.caps + [r.pc.cap])
  }

  /** init_rx. */
  function InitRx(buf: seq<seq<byte>>): Ring
    requires |buf| == SLOTS
  {
    Ring(seq(SLOTS, _ => false), seq(SLOTS, _ => 0), buf, 0, SLOTS - 1, 0, Idle, None, [], [], [])
  }

  // ---------------------------------------------------------------- invariant

  /** Slot of the k-th frame. */
  function Slot(k: int): (s: nat)
    ensures s < SLOTS
  {
    k % SLOTS
  }

  /** The current descriptor was handed over already but its slot not yet returned. */
  predicate HandedOver(pc: Pc) { pc.Cleared? || pc.Advanced? }

  /** Frame `k` waits, untouched, in its slot. */
  ghost predicate Waits(r: Ring, k: nat)
    requires Shape(r) && k < |r.accepted|
  {
    r.done[Slot(k)] && r.len[Slot(k)] == |r.accepted[k]| && r.buf[Slot(k)] == r.accepted[k]
  }

  /** What was delivered, in order. */
  ghost predicate InOrder(r: Ring) {
    |r.delivered| == |r.caps| <= |r.accepted| <= |r.delivered| + SLOTS - 1 &&
    forall i :: 0 <= i < |r.delivered| ==> r.delivered[i] == Clip(r.accepted[i], r.caps[i])
  }

  /** What waits, undamaged. */
  ghost predicate Waiting(r: Ring)
    requires Shape(r)
  {
    forall k :: |r.delivered| <= k < |r.accepted| && !(k == |r.delivered| && HandedOver(r.pc)) ==> Waits(r, k)
  }

  /** Slots free for the card are not marked done. */
  ghost predicate Vacant(r: Ring)
    requires Shape(r)
  {
    (forall k :: |r.accepted| <= k < |r.delivered| + SLOTS ==> !r.done[Slot(k)]) &&
    (HandedOver(r.pc) ==> !r.done[Slot(|r.delivered|)])
  }

  /** The registers and rx_cur agree with the histories. */
  ghost predicate InStep(r: Ring) {
    && r.head == Slot(|r.accepted|)
    && r.tail == Slot(|r.delivered| + SLOTS - 1)
    && r.cur == (if r.pc.Advanced? then Slot(|r.delivered| + 1) else Slot(|r.delivered|))
    && (r.pc.Advanced? ==> r.pc.was == Slot(|r.delivered|))
    && (!r.pc.Idle? ==> |r.delivered| < |r.accepted| && r.pc.bytes == Clip(r.accepted[|r.delivered|], r.pc.cap))
  }

  ghost predicate Inv(r: Ring) {
    && Shape(r) && InOrder(r) && InStep(r) && Waiting(r) && Vacant(r)
    // a frame being filled in lies in the slot at the head, which is not the tail
    && (r.filling.Some? ==> |r.accepted| < |r.delivered| + SLOTS - 1 && r.buf[r.head] == r.filling.value)
  }

  lemma SlotsDiffer(j: int, k: int)
    requires j < k < j + SLOTS
    ensures Slot(j) != Slot(k)
  {
  }

  lemma SlotStep(k: nat)
    ensures (Slot(k) + 1) % SLOTS == Slot(k + 1) && Slot(k + SLOTS) == Slot(k)
  {
    var q, r := k / SLOTS, k % SLOTS;
    assert k + 1 == q * SLOTS + (r + 1);
    assert k + SLOTS == (q + 1) * SLOTS + r;
    if r + 1 == SLOTS {
      assert k + 1 == (q + 1) * SLOTS;
    }
  }

  // ---------------------------------------------------------------- every step

  /** The slot the card writes into holds no frame that was completed and not yet returned. */
  lemma CardWritesFreeSlot(r: Ring, f: Frame, k: nat)
    requires Inv(r) && Enabled(r, CardFills(f)) && |r.delivered| <= k < |r.accepted|
    ensures Slot(k) != r.head && |r.accepted| < |r.delivered| + SLOTS - 1
  {
    SlotsDiffer(k, |r.accepted|);
  }

  lemma CardFillsKeeps(r: Ring, f: Frame)
    requires Inv(r) && Enabled(r, CardFills(f))
    ensures Inv(Next(r, CardFills(f)))
  {
    hide Slot;
    var r' := Next(r, CardFills(f));
    forall k | |r.delivered| <= k < |r.accepted| && !(k == |r.delivered| && HandedOver(r.pc)) ensures Waits(r', k) {
      assert Waits(r, k);
      CardWritesFreeSlot(r, f, k);
    }
    HeadRoom(r);
  }

  /** The card stops exactly when 31 frames wait. */
  lemma CardStopsWhenFull(r: Ring)
    requires Inv(r)
    ensures r.head == r.tail <==> |r.accepted| - |r.delivered| == 31
  {
    var d := |r.delivered|;
    if |r.accepted| < d + SLOTS - 1 { SlotsDiffer(|r.accepted|, d + SLOTS - 1); }
  }

  lemma HeadRoom(r: Ring)
    requires Inv(r) && r.head != r.tail
    ensures |r.accepted| < |r.delivered| + SLOTS - 1
  {
  }

  lemma CardCompletesKeeps(r: Ring)
    requires Inv(r) && Enabled(r, CardCompletes)
    ensures Inv(Next(r, CardCompletes))
  {
    hide Slot;
    var r', a := Next(r, CardCompletes), |r.accepted|;
    SlotStep(a);
    forall k | |r.delivered| <= k < a && !(k == |r.delivered| && HandedOver(r.pc)) ensures Waits(r', k) {
      assert Waits(r, k);
      SlotsDiffer(k, a);
    }
    assert Waits(r', a);
    forall k | a < k < |r.delivered| + SLOTS ensures !r'.done[Slot(k)] {
      assert !r.done[Slot(k)];
      SlotsDiffer(a, k);
    }
    if |r.delivered| < a { SlotsDiffer(|r.delivered|, a); }
  }

  lemma DriverCopiesKeeps(r: Ring, cap: nat)
    requires Inv(r) && Enabled(r, DriverCopies(cap))
    ensures Inv(Next(r, DriverCopies(cap)))
  {
    DoneMeansWaiting(r);
    hide Slot;
    var r' := Next(r, DriverCopies(cap));
    forall k | |r.delivered| <= k < |r.accepted| ensures Waits(r', k) {
      assert Waits(r, k);
    }
  }

  lemma DriverClearsKeeps(r: Ring)
    requires Inv(r) && Enabled(r, DriverClears)
    ensures Inv(Next(r, DriverClears))
  {
    hide Slot;
    var r', d := Next(r, DriverClears), |r.delivered|;
    forall k | d < k < |r.accepted| ensures Waits(r', k) {
      assert Waits(r, k);
      SlotsDiffer(d, k);
    }
    forall k | |r.accepted| <= k < d + SLOTS ensures !r'.done[Slot(k)] {
      assert !r.done[Slot(k)];
    }
  }

  lemma DriverAdvancesKeeps(r: Ring)
    requires Inv(r) && Enabled(r, DriverAdvances)
    ensures Inv(Next(r, DriverAdvances))
  {
    SlotStep(|r.delivered|);
    hide Slot;
    var r' := Next(r, DriverAdvances);
    forall k | |r.delivered| < k < |r.accepted| ensures Waits(r', k) {
      assert Waits(r, k);
    }
  }

  lemma DriverReturnsSlotKeeps(r: Ring)
    requires Inv(r) && Enabled(r, DriverReturnsSlot)
    ensures Inv(Next(r, DriverReturnsSlot))
  {
    var r', d := Next(r, DriverReturnsSlot), |r.delivered|;
    SlotStep(d);
    hide Slot;
    forall k | d < k < |r.accepted| ensures Waits(r', k) {
      assert Waits(r, k);
    }
    forall k | |r.accepted| <= k < d + 1 + SLOTS ensures !r'.done[Slot(k)] {
      if k < d + SLOTS { assert !r.done[Slot(k)]; }
    }
  }

  /** Every step of the card or the driver, whenever it happens, keeps the invariant. */
  lemma StepKeepsInv(r: Ring, s: Step)
    requires Inv(r) && Enabled(r, s)
    ensures Inv(Next(r, s))
  {
    hide Inv, Next;
    match s
    case CardFills(f) => CardFillsKeeps(r, f);
    case CardCompletes => CardCompletesKeeps(r);
    case DriverCopies(cap) => DriverCopiesKeeps(r, cap);
    case DriverClears => DriverClearsKeeps(r);
    case DriverAdvances => DriverAdvancesKeeps(r);
    case DriverReturnsSlot => DriverReturnsSlotKeeps(r);
  }

  /** Between calls the current descriptor is done exactly when a completed frame is waiting, and
      then its buffer holds the oldest such frame. */
  lemma DoneMeansWaiting(r: Ring)
    requires Inv(r) && r.pc.Idle?
    ensures r.done[r.cur] <==> |r.delivered| < |r.accepted|
    ensures r.done[r.cur] ==> Waits(r, |r.delivered|)
    ensures r.tail == (r.cur + SLOTS - 1) % SLOTS
  {
    var d := |r.delivered|;
    if d < |r.accepted| {
      assert Waits(r, d);
    } else {
      assert !r.done[Slot(d)];
    }
    TailBehind(d);
  }

  lemma TailBehind(d: nat)
    ensures Slot(d + SLOTS - 1) == (Slot(d) + SLOTS - 1) % SLOTS
  {
    var q, r := d / SLOTS, d % SLOTS;
    assert d + SLOTS - 1 == q * SLOTS + (r + SLOTS - 1);
    if r > 0 {
      assert d + SLOTS - 1 == (q + 1) * SLOTS + (r - 1);
      assert r + SLOTS - 1 == SLOTS + (r - 1);
    }
  }

  // ---------------------------------------------------------------- every interleaving

  ghost predicate Legal(r: Ring, ss: seq<Step>)
    decreases |ss|
  {
    ss == [] || (Shape(r) && Enabled(r, ss[0]) && Legal(Next(r, ss[0]), ss[1..]))
  }

  ghost function Exec(r: Ring, ss: seq<Step>): Ring
    requires Legal(r, ss)
    decreases |ss|
  {
    if ss == [] then r else Exec(Next(r, ss[0]), ss[1..])
  }

  lemma {:induction false} RunKeepsInv(r: Ring, ss: seq<Step>)
    requires Inv(r) && Legal(r, ss)
    ensures Inv(Exec(r, ss))
    decreases |ss|
  {
    if ss != [] {
      StepKeepsInv(r, ss[0]);
      RunKeepsInv(Next(r, ss[0]), ss[1..]);
    }
  }

  lemma InitKeepsInv(buf: seq<seq<byte>>)
    requires |buf| == SLOTS
    ensures Inv(InitRx(buf))
  {
  }

  /** The frames the card put in, and the buffer sizes e1000_receive was called with when it found one. */
  function FramesIn(ss: seq<Step>): seq<Frame> {
    if ss == [] then [] else (if ss[0].CardFills? then [ss[0].frame] else []) + FramesIn(ss[1..])
  }

  function CapsIn(ss: seq<Step>): seq<nat> {
    if ss == [] then [] else (if ss[0].DriverCopies? then [ss[0].cap] else []) + CapsIn(ss[1..])
  }

  /** The frame not yet completed, and the call not yet finished. */
  function Pending(r: Ring): seq<Frame> { if r.filling.Some? then [r.filling.value] else [] }
  function PendingCap(r: Ring): seq<nat> { if r.pc.Idle? then [] else [r.pc.cap] }

  lemma StepRecords(r: Ring, s: Step)
    requires Shape(r) && Enabled(r, s)
    ensures var r' := Next(r, s);
            && r'.accepted + Pending(r') == r.accepted + Pending(r) + (if s.CardFills? then [s.frame] else [])
            && r'.caps + PendingCap(r') == r.caps + PendingCap(r) + (if s.DriverCopies? then [s.cap] else [])
  {
  }

  /** The histories record what happened. */
  lemma {:induction false} HistoriesAreTrue(r: Ring, ss: seq<Step>)
    requires Legal(r, ss)
    ensures var r' := Exec(r, ss);
            && r'.accepted + Pending(r') == r.accepted + Pending(r) + FramesIn(ss)
            && r'.caps + PendingCap(r') == r.caps + PendingCap(r) + CapsIn(ss)
    decreases |ss|
  {
    hide Next, Pending, PendingCap, Enabled;
    if ss != [] {
      StepRecords(r, ss[0]);
      HistoriesAreTrue(Next(r, ss[0]), ss[1..]);
    }
  }

  /** In every interleaving from init_rx: the frames the card put in are delivered once each and in order, each cut
      to the caller's buffer; at most 31 wait, and those that wait are undamaged. */
  lemma DeliveredInOrder(buf: seq<seq<byte>>, ss: seq<Step>)
    requires |buf| == SLOTS && Legal(InitRx(buf), ss)
    ensures var r, fs, cs := Exec(InitRx(buf), ss), FramesIn(ss), CapsIn(ss);
            && |r.delivered| == |r.caps| <= |r.accepted| <= |r.delivered| + SLOTS - 1
            && r.accepted <= fs && |fs| <= |r.accepted| + 1 && r.caps <= cs && |cs| <= |r.caps| + 1
            && (forall i :: 0 <= i < |r.delivered| ==>
                  r.delivered[i] == if |fs[i]| <= cs[i] then fs[i] else fs[i][..cs[i]])
            && (r.pc.Idle? ==> Shape(r) && forall k :: |r.delivered| <= k < |r.accepted| ==> Waits(r, k))
            && (r.pc.Idle? ==> r.tail == (r.cur + SLOTS - 1) % SLOTS)
  {
    hide Exec, FramesIn, CapsIn, Legal, Slot, InStep, Vacant;
    InitKeepsInv(buf);
    RunKeepsInv(InitRx(buf), ss);
    HistoriesAreTrue(InitRx(buf), ss);
    var r, fs, cs := Exec(InitRx(buf), ss), FramesIn(ss), CapsIn(ss);
    assert fs == r.accepted + Pending(r) && cs == r.caps + PendingCap(r);
    assert forall i :: 0 <= i < |r.delivered| ==> fs[i] == r.accepted[i] && cs[i] == r.caps[i];
    if r.pc.Idle? { DoneMeansWaiting(r); }
  }

  /** The driver's steps of one call that finds a frame. */
  function CallSteps(cap: nat): seq<Step> { [DriverCopies(cap), DriverClears, DriverAdvances, DriverReturnsSlot] }

  lemma ExecFour(r: Ring, a: Step, b: Step, c: Step, d: Step)
    requires Shape(r) && Enabled(r, a) && Shape(Next(r, a)) && Enabled(Next(r, a), b)
    requires Shape(Next(Next(r, a), b)) && Enabled(Next(Next(r, a), b), c)
    requires Shape(Next(Next(Next(r, a), b), c)) && Enabled(Next(Next(Next(r, a), b), c), d)
    ensures Legal(r, [a, b, c, d]) && Exec(r, [a, b, c, d]) == Next(Next(Next(Next(r, a), b), c), d)
  {
    hide Next, Enabled, Shape;
    assert [a, b, c, d][1..] == [b, c, d] && [b, c, d][1..] == [c, d] && [c, d][1..] == [d] && [d][1..] == [];
    var r1 := Next(r, a);
    var r2 := Next(r1, b);
    var r3 := Next(r2, c);
    assert Legal(r3, [d]) && Exec(r3, [d]) == Next(r3, d);
    assert Legal(r2, [c, d]) && Exec(r2, [c, d]) == Exec(r3, [d]);
    assert Legal(r1, [b, c, d]) && Exec(r1, [b, c, d]) == Exec(r2, [c, d]);
  }

  /** The state after an undisturbed call. */
  lemma CallExec(r: Ring, cap: nat)
    requires Inv(r) && r.pc.Idle? && |r.delivered| < |r.accepted|
    ensures Legal(r, CallSteps(cap)) && Inv(Exec(r, CallSteps(cap)))
    ensures var bytes := Clip(r.accepted[|r.delivered|], cap);
            Exec(r, CallSteps(cap)) == r.(done := r.done[r.cur := false], tail := r.cur, cur := (r.cur + 1) % SLOTS,
                                          delivered := r.delivered + [bytes], caps := r.caps + [cap])
  {
    CurrentFrame(r);
    assert Shape(r);
    hide Inv, Exec, Legal;
    CallStates(r, cap, Clip(r.accepted[|r.delivered|], cap));
    ExecFour(r, DriverCopies(cap), DriverClears, DriverAdvances, DriverReturnsSlot);
    RunKeepsInv(r, CallSteps(cap));
  }

  lemma CallStates(r: Ring, cap: nat, bytes: seq<byte>)
    requires Shape(r) && r.pc.Idle? && r.done[r.cur] && r.len[r.cur] == |r.buf[r.cur]| &&
             bytes == Clip(r.buf[r.cur], cap)
    ensures Next(r, DriverCopies(cap)) == r.(pc := Copied(bytes, cap))
    ensures Next(r.(pc := Copied(bytes, cap)), DriverClears) ==
            r.(done := r.done[r.cur := false], pc := Cleared(bytes, cap))
    ensures var d := r.done[r.cur := false];
            Next(r.(done := d, pc := Cleared(bytes, cap)), DriverAdvances) ==
            r.(done := d, cur := (r.cur + 1) % SLOTS, pc := Advanced(bytes, cap, r.cur))
    ensures var d := r.done[r.cur := false];
            Next(r.(done := d, cur := (r.cur + 1) % SLOTS, pc := Advanced(bytes, cap, r.cur)), DriverReturnsSlot) ==
            r.(done := d, tail := r.cur, cur := (r.cur + 1) % SLOTS, delivered := r.delivered + [bytes],
                caps := r.caps + [cap])
  {
    assert r.buf[r.cur][..|r.buf[r.cur]|] == r.buf[r.cur];
  }

  lemma CurrentFrame(s: Ring)
    requires Inv(s) && s.pc.Idle?
    ensures s.cur < |s.done| == |s.len| == |s.buf| == SLOTS && (s.done[s.cur] <==> |s.delivered| != |s.accepted|)
    ensures |s.delivered| != |s.accepted| ==>
              |s.delivered| < |s.accepted| && s.buf[s.cur] == s.accepted[|s.delivered|] &&
              s.len[s.cur] == |s.buf[s.cur]|
  {
    DoneMeansWaiting(s);
  }

  class Driver {
    const status: array<bool>
    const length: array<nat>
    const buffers: array<seq<byte>>
    var rdh: nat
    var rdt: nat
    var rxCur: nat
    var statRx: nat
    /** What the card is writing at the moment. */
    var filling: Option<Frame>
    ghost var accepted: seq<Frame>
    ghost var delivered: seq<seq<byte>>
    ghost var caps: seq<nat>

    ghost function State(): Ring
      reads this, status, length, buffers
    {
      Ring(status[..], length[..], buffers[..], rdh, rdt, rxCur, Idle, filling, accepted, delivered, caps)
    }

    ghost predicate Valid()
      reads this, status, length, buffers
    {
      Inv(State()) && statRx == |delivered| && Unshared()
    }

    ghost predicate Unshared() {
      var s: object := status;
      var l: object := length;
      s != length && s != buffers && l != buffers
    }

    /** init_rx. */
    constructor ()
      ensures Valid() && State() == InitRx(buffers[..]) && fresh(status) && fresh(length) && fresh(buffers)
    {
      status := new bool[SLOTS](_ => false);
      length := new nat[SLOTS](_ => 0);
      buffers := new seq<byte>[SLOTS](_ => []);
      rdh, rdt, rxCur, statRx := 0, SLOTS - 1, 0, 0;
      filling, accepted, delivered, caps := None, [], [], [];
      new;
      InitKeepsInv(buffers[..]);
      assert State() == InitRx(buffers[..]);
    }

    /** The card writes a frame into the buffer at its head, unless it meets the tail. */
    method CardFill(f: Frame) returns (ok: bool)
      requires Valid()
      modifies this`filling, buffers
      ensures Valid() && (ok <==> Enabled(old(State()), CardFills(f)))
      ensures State() == if ok then Next(old(State()), CardFills(f)) else old(State())
    {
      ghost var s := State();
      if filling.Some? || rdh == rdt { return false; }
      StepKeepsInv(s, CardFills(f));
      hide Inv;
      buffers[rdh] := f;
      filling := Some(f);
      assert buffers[..] == s.buf[s.head := f] && status[..] == s.done && length[..] == s.len;
      ok := true;
    }

    /** It writes the descriptor back and moves its head. */
    method CardComplete() returns (ok: bool)
      requires Valid()
      modifies this`filling, this`rdh, this`accepted, status, length
      ensures Valid() && (ok <==> Enabled(old(State()), CardCompletes))
      ensures State() == if ok then Next(old(State()), CardCompletes) else old(State())
    {
      ghost var s := State();
      if filling.None? { return false; }
      StepKeepsInv(s, CardCompletes);
      hide Inv;
      var f := filling.value;
      length[rdh] := |f|;
      status[rdh] := true;
      rdh := (rdh + 1) % SLOTS;
      filling := None;
      accepted := accepted + [f];
      assert buffers[..] == s.buf && status[..] == s.done[s.head := true] && length[..] == s.len[s.head := |f|];
      ok := true;
    }

    /** e1000_receive on an initialised driver: the oldest waiting frame, cut to the caller's buffer. */
    method Receive(cap: nat) returns (r: Option<seq<byte>>)
      requires Valid()
      modifies this, status
      ensures Valid()
      ensures r.None? <==> |old(delivered)| == |old(accepted)|
      ensures r.None? ==> State() == old(State())
      ensures r.Some? ==> Legal(old(State()), CallSteps(cap)) && State() == Exec(old(State()), CallSteps(cap))
      ensures r.Some? ==>
                && |old(delivered)| < |accepted| && r.value <= accepted[|old(delivered)|]
                && |r.value| == (if |accepted[|old(delivered)|]| <= cap then |accepted[|old(delivered)|]| else cap)
                && accepted == old(accepted) && delivered == old(delivered) + [r.value]
    {
      hide Inv, Exec, Legal;
      ghost var s := State();
      CurrentFrame(s);
      if !status[rxCur] { return None; }
      CallExec(s, cap);
      var len := length[rxCur];
      if len > cap { len := cap; }
      var bytes := buffers[rxCur][..len];
      status[rxCur] := false;
      var was := rxCur;
      rxCur := (rxCur + 1) % SLOTS;
      rdt := was;
      statRx := statRx + 1;
      delivered, caps := delivered + [bytes], caps + [cap];
      assert status[..] == s.done[was := false] && length[..] == s.len && buffers[..] == s.buf;
      assert bytes == Clip(s.accepted[|s.delivered|], cap);
      r := Some(bytes);
    }
  }
}
