/** The keyboard ring (kernel/drivers/keyboard.c): the interrupt handler puts characters in, one
    reader takes them out, in steps that interleave freely. */
module Keyboard {
  import opened Words

  const SIZE := 256

  /** The reader is between calls, or holds the character it read from the ring and has yet to move the tail. */
  datatype Reader = Outside | Holding(c: byte)

  /** The ring with its two indices, the reader, and the histories: characters the handler stored,
      characters it dropped, characters keyboard_getchar returned. */
  datatype Ring = Ring(buf: seq<byte>, head: nat, tail: nat, reader: Reader,
                       stored: seq<byte>, dropped: nat, returned: seq<byte>)

  datatype Step =
    | Key(c: byte)       // an interrupt: buf_put(c)
    | ReaderLoads        // keyboard_getchar reads kb_buffer[kb_tail]
    | ReaderAdvances     // it moves kb_tail and returns

  ghost predicate Shape(r: Ring) { |r.buf| == SIZE && r.head < SIZE && r.tail < SIZE }

  predicate Enabled(r: Ring, s: Step) {
    match s
    case Key(_) => true
    case ReaderLoads => r.reader.Outside? && r.head != r.tail
    case ReaderAdvances => r.reader.Holding?
  }

  function Next(r: Ring, s: Step): Ring
    requires Shape(r) && Enabled(r, s)
  {
    match s
    case Key(c) =>
      var next := (r.head + 1) % SIZE;
      if next == r.tail then r.(dropped := r.dropped + 1)
      else r.(buf := r.buf[r.head := c], head := next, stored := r.stored + [c])
    case ReaderLoads => r.(reader := Holding(r.buf[r.tail]))
    case ReaderAdvances => r.(tail := (r.tail + 1) % SIZE, reader := Outside, returned := r.returned + [r.reader.c])
  }

  function Slot(k: nat): (s: nat)
    ensures s < SIZE
  {
    k % SIZE
  }

  lemma SlotStep(k: nat)
    ensures (Slot(k) + 1) % SIZE == Slot(k + 1)
  {
    var q, r := k / SIZE, k % SIZE;
    assert k + 1 == q * SIZE + (r + 1);
    if r + 1 == SIZE {
      assert k + 1 == (q + 1) * SIZE;
    }
  }

  lemma SlotsDiffer(j: nat, k: nat)
    requires j < k < j + SIZE
    ensures Slot(j) != Slot(k)
  {
  }

  lemma SlotsMeet(j: nat, k: nat)
    requires k == j + SIZE
    ensures Slot(j) == Slot(k)
  {
    var q, r := j / SIZE, j % SIZE;
    assert k == (q + 1) * SIZE + r;
  }

  /** Returned characters are a prefix of the stored ones, the rest waits in the ring. */
  ghost predicate Inv(r: Ring) {
    && Shape(r)
    && |r.returned| <= |r.stored| <= |r.returned| + SIZE - 1
    && r.head == Slot(|r.stored|) && r.tail == Slot(|r.returned|)
    && r.returned == r.stored[..|r.returned|]
    && (forall k :: |r.returned| <= k < |r.stored| ==> r.buf[Slot(k)] == r.stored[k])
    && (r.reader.Holding? ==> |r.returned| < |r.stored| && r.reader.c == r.stored[|r.returned|])
  }

  /** The handler drops a character exactly when 255 are waiting, even while the reader is between
      its two steps. */
  lemma DropsExactlyWhenFull(r: Ring, c: byte)
    requires Inv(r)
    ensures Next(r, Key(c)).dropped == r.dropped + (if |r.stored| - |r.returned| == SIZE - 1 then 1 else 0)
    ensures Next(r, Key(c)).stored == if |r.stored| - |r.returned| == SIZE - 1 then r.stored else r.stored + [c]
  {
    var s, t := |r.stored|, |r.returned|;
    SlotStep(s);
    if s - t == SIZE - 1 {
      SlotsMeet(t, s + 1);
    } else {
      SlotsDiffer(t, s + 1);
    }
  }

  lemma KeyKeepsInv(r: Ring, c: byte)
    requires Inv(r)
    ensures Inv(Next(r, Key(c)))
  {
    DropsExactlyWhenFull(r, c);
    SlotStep(|r.stored|);
    hide Slot;
    var r' := Next(r, Key(c));
    if |r.stored| - |r.returned| < SIZE - 1 {
      forall k | |r.returned| <= k < |r'.stored| ensures r'.buf[Slot(k)] == r'.stored[k] {
        if k < |r.stored| { SlotsDiffer(k, |r.stored|); }
      }
    }
  }

  /** Every step of the interrupt handler or the reader, whenever it happens, keeps the invariant;
      in particular no unread slot is overwritten. */
  lemma StepKeepsInv(r: Ring, s: Step)
    requires Inv(r) && Enabled(r, s)
    ensures Inv(Next(r, s))
  {
    match s
    case Key(c) => KeyKeepsInv(r, c);
    case ReaderLoads => NotEmpty(r);
    case ReaderAdvances =>
      SlotStep(|r.returned|);
      hide Slot;
  }

  lemma NotEmpty(r: Ring)
    requires Inv(r)
    ensures r.head != r.tail <==> |r.returned| < |r.stored|
  {
    if |r.returned| < |r.stored| { SlotsDiffer(|r.returned|, |r.stored|); }
  }

  ghost predicate Legal(r: Ring, ss: seq<Step>)
    decreases |ss|
  {
    ss == [] || (Shape(r) && Enabled(r, ss[0]) && Legal(Next(r, ss[0]), ss[1..]))
  }

  ghost function Exec(r: Ring, ss: seq<Step>): Ring
    requires Legal(r, ss)
    decreases |ss|
  {
    if ss == [] then r else Exec(Next(r, ss[0]), ss[1..])
  }

  /** keyboard_init. */
  function Fresh(buf: seq<byte>): Ring { Ring(buf, 0, 0, Outside, [], 0, []) }

  lemma {:induction false} RunKeepsInv(r: Ring, ss: seq<Step>)
    requires Inv(r) && Legal(r, ss)
    ensures Inv(Exec(r, ss))
    decreases |ss|
  {
    if ss != [] {
      StepKeepsInv(r, ss[0]);
      RunKeepsInv(Next(r, ss[0]), ss[1..]);
    }
  }

  /** The characters the handler was called with. */
  function KeysIn(ss: seq<Step>): seq<byte> {
    if ss == [] then [] else (if ss[0].Key? then [ss[0].c] else []) + KeysIn(ss[1..])
  }

  /** Every character is stored or dropped, and if none was dropped the characters stored are those that came. */
  lemma {:induction false} StoredOrDropped(r: Ring, ss: seq<Step>)
    requires Legal(r, ss)
    ensures var r' := Exec(r, ss);
            && |r'.stored| + r'.dropped == |r.stored| + r.dropped + |KeysIn(ss)| && r.dropped <= r'.dropped
            && (r'.dropped == r.dropped ==> r'.stored == r.stored + KeysIn(ss))
    decreases |ss|
  {
    if ss != [] {
      StoredOrDropped(Next(r, ss[0]), ss[1..]);
    }
  }

  /** In every interleaving the characters returned are a prefix of those stored, in order, and at
      most 255 wait. */
  lemma ReturnedIsPrefix(buf: seq<byte>, ss: seq<Step>)
    requires |buf| == SIZE && Legal(Fresh(buf), ss)
    ensures var r := Exec(Fresh(buf), ss); r.returned <= r.stored && |r.stored| - |r.returned| <= SIZE - 1
    ensures Exec(Fresh(buf), ss).dropped == 0 ==> Exec(Fresh(buf), ss).returned <= KeysIn(ss)
  {
    RunKeepsInv(Fresh(buf), ss);
    StoredOrDropped(Fresh(buf), ss);
  }

  class Driver {
    const buffer: array<byte>
    var head: nat
    var tail: nat
    ghost var stored: seq<byte>
    ghost var dropped: nat
    ghost var returned: seq<byte>

    ghost function State(): Ring
      reads this, buffer
    {
      Ring(buffer[..], head, tail, Outside, stored, dropped, returned)
    }

    ghost predicate Valid()
      reads this, buffer
    {
      Inv(State())
    }

    /** keyboard_init. */
    constructor ()
      ensures Valid() && State() == Fresh(buffer[..]) && fresh(buffer)
    {
      buffer := new byte[SIZE];
      head, tail := 0, 0;
      stored, dropped, returned := [], 0, [];
    }

    /** buf_put. */
    method BufPut(c: byte)
      requires Valid()
      modifies this, buffer
      ensures Valid() && State() == Next(old(State()), Key(c))
      ensures stored == if |old(stored)| - |old(returned)| == SIZE - 1 then old(stored) else old(stored) + [c]
      ensures returned == old(returned)
    {
      DropsExactlyWhenFull(State(), c);
      StepKeepsInv(State(), Key(c));
      hide Inv;
      var next := (head + 1) % SIZE;
      if next == tail {
        dropped := dropped + 1;
        return;
      }
      buffer[head] := c;
      head := next;
      stored := stored + [c];
    }

    /** keyboard_getchar once its wait is over: the oldest character. */
    method GetChar() returns (c: byte)
      requires Valid() && head != tail
      modifies this
      ensures Valid() && State() == Next(Next(old(State()), ReaderLoads), ReaderAdvances)
      ensures |old(returned)| < |stored| && c == stored[|old(returned)|]
      ensures stored == old(stored) && returned == old(returned) + [c]
    {
      StepKeepsInv(State(), ReaderLoads);
      StepKeepsInv(Next(State(), ReaderLoads), ReaderAdvances);
      NotEmpty(State());
      c := buffer[tail];
      tail := (tail + 1) % SIZE;
      returned := returned + [c];
    }
  }
}
