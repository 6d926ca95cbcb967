/** The physical frame allocator (kernel/mm/pmm.c): one bit per frame and a counter. */
module FrameAllocator {
  import opened Words
  import opened BitWords

  const FRAME_SIZE := 4096

  /** Bit `f` of the bitmap. */
  ghost predicate Taken(ws: seq<bv32>, f: nat) { f / 32 < |ws| && Bit(ws[f / 32], f % 32) }

  lemma TakenAfterSet(ws: seq<bv32>, f: nat, g: nat)
    requires f / 32 < |ws|
    ensures Taken(ws[f / 32 := With(ws[f / 32], Mask(f % 32))], g) <==> g == f || Taken(ws, g)
  {
    hide Bit, Mask, With;
    if g == f {
      SetHere(ws[f / 32], f % 32);
    } else if g / 32 == f / 32 {
      SetElsewhere(ws[f / 32], f % 32, g % 32);
    }
  }

  lemma TakenAfterClear(ws: seq<bv32>, f: nat, g: nat)
    requires f / 32 < |ws|
    ensures Taken(ws[f / 32 := Without(ws[f / 32], Mask(f % 32))], g) <==> g != f && Taken(ws, g)
  {
    hide Bit, Mask, Without;
    if g == f {
      ClearHere(ws[f / 32], f % 32);
    } else if g / 32 == f / 32 {
      ClearElsewhere(ws[f / 32], f % 32, g % 32);
    }
  }

  /** The frames below `total` whose bit is set. */
  ghost function UsedSet(ws: seq<bv32>, total: nat): set<nat> {
    set f: nat | f < total && Taken(ws, f)
  }

  predicate Between(lo: int, f: int, hi: int) { lo <= f < hi }

  /** The frames from `lo` up to `hi`. */
  ghost function Span(lo: int, hi: int): set<nat> {
    set f: nat | f < hi && Between(lo, f, hi)
  }

  lemma {:induction false} SpanSize(lo: nat, hi: int)
    ensures |Span(lo, hi)| == if lo < hi then hi - lo else 0
    decreases hi - lo
  {
    if lo < hi {
      SpanSize(lo, hi - 1);
      assert Span(lo, hi) == Span(lo, hi - 1) + {hi - 1};
    } else {
      assert Span(lo, hi) == {};
    }
  }

  lemma InUsedSet(ws: seq<bv32>, total: nat)
    ensures forall g: nat :: g in UsedSet(ws, total) <==> g < total && Taken(ws, g)
  {
  }

  /** Extending a span by one frame. */
  lemma SpanGrows(used: set<nat>, lo: nat, hi: nat)
    requires lo <= hi
    ensures Span(lo, lo) == {} && Span(lo, hi + 1) == Span(lo, hi) + {hi}
    ensures used - Span(lo, hi) - {hi} == used - Span(lo, hi + 1)
    ensures used + Span(lo, hi) + {hi} == used + Span(lo, hi + 1)
  {
    assert Span(lo, hi + 1) == Span(lo, hi) + {hi};
  }

  lemma SpanCut(first: nat, frame: nat, end: nat, total: nat)
    requires first <= frame && (frame <= end || frame == first) && (frame <= total || frame == first) &&
             (frame >= end || frame >= total)
    ensures Span(first, end) * Span(0, total) == Span(first, frame)
  {
  }

  /** Marking or freeing one frame of a bitmap changes the set in use by that frame. */
  lemma UsedAfter(ws: seq<bv32>, ws': seq<bv32>, total: nat, f: nat, on: bool)
    requires f < total
    requires forall g: nat :: Taken(ws', g) <==> if g == f then on else Taken(ws, g)
    ensures UsedSet(ws', total) == if on then UsedSet(ws, total) + {f} else UsedSet(ws, total) - {f}
    ensures f in UsedSet(ws, total) <==> Taken(ws, f)
  {
    hide Taken;
  }

  /** All `n` frames from `s` on exist and are free. */
  ghost predicate FreeRun(ws: seq<bv32>, total: nat, s: nat, n: nat) {
    s + n <= total && forall f: nat :: s <= f < s + n ==> !Taken(ws, f)
  }

  lemma FreeRunUnused(ws: seq<bv32>, total: nat, s: nat, n: nat)
    ensures FreeRun(ws, total, s, n) <==> s + n <= total && UsedSet(ws, total) !! Span(s, s + n)
  {
    hide Taken;
    if s + n <= total && UsedSet(ws, total) !! Span(s, s + n) {
      forall f: nat | s <= f < s + n ensures !Taken(ws, f) {
        assert f in Span(s, s + n);
      }
    }
  }

  lemma RunHead(ws: seq<bv32>, total: nat, s: nat, n: nat)
    requires FreeRun(ws, total, s, n) && n > 0
    ensures s < total && !Taken(ws, s)
  {
  }

  lemma RunTail(ws: seq<bv32>, ws': seq<bv32>, total: nat, s: nat, n: nat)
    requires FreeRun(ws, total, s, n) && n > 0 && |ws'| == |ws|
    requires forall g: nat :: Taken(ws', g) <==> g == s || Taken(ws, g)
    ensures FreeRun(ws', total, s + 1, n - 1)
  {
  }

  /** No run of `n` free frames starts at or before a taken frame that came too early for it. */
  lemma RunStopsAt(ws: seq<bv32>, total: nat, frame: nat, found: nat, n: nat)
    requires found < n && found <= frame && Taken(ws, frame)
    requires forall t: nat :: t < frame - found ==> !FreeRun(ws, total, t, n)
    ensures forall t: nat :: t < frame + 1 ==> !FreeRun(ws, total, t, n)
  {
    hide Taken;
  }

  /** `s` starts the lowest free run of `n` frames. */
  ghost predicate LowestRun(ws: seq<bv32>, total: nat, s: nat, n: nat) {
    FreeRun(ws, total, s, n) && forall t: nat :: t < s ==> !FreeRun(ws, total, t, n)
  }

  /** Frames of a 64-bit address space. */
  const FRAMES_MAX := 0x10_0000_0000_0000

  /** The frames after which a 32-bit byte offset wraps. */
  const WRAP := 0x10_0000

  /** The frames find_free_frame looks at: it skips a last, incomplete word. */
  ghost function Scanned(total: nat): (n: nat)
    ensures n % 32 == 0 && n <= total < n + 32
  {
    32 * (total / 32)
  }

  /** The address pmm_free_frames frees in round `i`: the offset is computed in 32 bits, the sum in 64. */
  function FreedAddr(addr: u64, i: nat): u64 { (addr + i * FRAME_SIZE % TWO32) % TWO64 }

  function FreedBy(addr: u64, i: nat): nat { FreedAddr(addr, i) / FRAME_SIZE }

  ghost function FreedFrames(addr: u64, count: nat): set<nat> {
    set i: nat | i < count :: FreedBy(addr, i)
  }

  function Min(a: nat, b: nat): nat { if a < b then a else b }

  lemma FreedInRound(addr: u64, i: nat, count: nat)
    requires i < count && (addr + TWO32 <= TWO64 || addr + count * FRAME_SIZE <= TWO64)
    ensures FreedBy(addr, i) == addr / FRAME_SIZE + i % WRAP
  {
    var q, t := i / WRAP, i % WRAP;
    assert (i + 1) * FRAME_SIZE <= count * FRAME_SIZE;
    assert i * FRAME_SIZE == q * TWO32 + t * FRAME_SIZE;
    assert i * FRAME_SIZE % TWO32 == t * FRAME_SIZE;
    assert (addr + t * FRAME_SIZE) / FRAME_SIZE == addr / FRAME_SIZE + t;
    assert addr + t * FRAME_SIZE < TWO64;
  }

  lemma FreedGrows(used: set<nat>, addr: u64, i: nat)
    ensures used - FreedFrames(addr, i + 1) == used - FreedFrames(addr, i) - {FreedBy(addr, i)}
  {
    hide FreedBy;
    assert FreedFrames(addr, i + 1) == FreedFrames(addr, i) + {FreedBy(addr, i)};
  }

  /** pmm_free_frames frees the run only as far as 2^20 frames; then it starts over. */
  lemma FreedIsSpan(addr: u64, count: nat)
    requires addr + TWO32 <= TWO64 || addr + count * FRAME_SIZE <= TWO64
    ensures FreedFrames(addr, count) == Span(addr / FRAME_SIZE, addr / FRAME_SIZE + Min(count, WRAP))
  {
    hide FreedBy;
    var s := addr / FRAME_SIZE;
    forall i: nat | i < count ensures FreedBy(addr, i) == s + i % WRAP {
      FreedInRound(addr, i, count);
    }
    forall f: nat ensures f in FreedFrames(addr, count) <==> f in Span(s, s + Min(count, WRAP)) {
      if f in Span(s, s + Min(count, WRAP)) {
        assert f - s < count && FreedBy(addr, f - s) == s + (f - s) % WRAP == f;
      }
      if f in FreedFrames(addr, count) {
        var i: nat :| i < count && FreedBy(addr, i) == f;
        assert i % WRAP < WRAP && i % WRAP <= i;
      }
    }
  }

  /** The last frame pmm_reserve_region marks. */
  function LastReserved(end: nat): nat {
    if end % FRAME_SIZE != 0 then end / FRAME_SIZE + 1 else end / FRAME_SIZE
  }

  lemma FrameOfAddr(f: nat)
    ensures f * FRAME_SIZE / FRAME_SIZE == f
  {
  }

  /** Marking the frames from `first` on newly takes one that lies beyond the region exactly when there is
      one more frame after the region and it was free. */
  lemma TakesBeyondIff(used: set<nat>, first: nat, end: nat, total: nat)
    ensures var now := used + (Span(first, LastReserved(end) + 1) * Span(0, total));
            (exists f: nat :: IsBeyond(used, now, end, f)) <==>
              first <= LastReserved(end) < total && LastReserved(end) !in used
  {
    var last := LastReserved(end);
    var now := used + (Span(first, last + 1) * Span(0, total));
    forall f: nat | IsBeyond(used, now, end, f) ensures f == last {
      assert f in Span(first, last + 1);
      CeilingIs(end, f);
    }
    if first <= last < total && last !in used {
      assert last in now;
      CeilingIs(end, last);
      assert IsBeyond(used, now, end, last);
    }
  }

  /** Frame `f` came into use and starts at or after `end`. */
  ghost predicate IsBeyond(used: set<nat>, now: set<nat>, end: nat, f: nat) {
    f in now && f !in used && f * FRAME_SIZE >= end
  }

  lemma CeilingIs(end: nat, f: nat)
    ensures f * FRAME_SIZE >= end <==> f >= LastReserved(end)
  {
  }

  // ---------------------------------------------------------------- the memory map

  /** One entry of the boot loader's memory map. */
  datatype Region = Region(base: u64, len: u64, available: bool) {
    /** addr + len, in 64 bits. */
    function End(): u64 { (base + len) % TWO64 }
    /** Its frames: both ends rounded down. */
    ghost function Frames(): set<nat> {
      if available then Span(base / FRAME_SIZE, End() / FRAME_SIZE) else {}
    }
    function FrameCount(): nat {
      if available && base / FRAME_SIZE < End() / FRAME_SIZE then End() / FRAME_SIZE - base / FRAME_SIZE else 0
    }
  }

  function Highest(rs: seq<Region>): nat {
    if rs == [] then 0
    else
      var h := Highest(rs[..|rs| - 1]);
      var r := rs[|rs| - 1];
      if r.available && r.End() > h then r.End() else h
  }

  /** `h` is the end of an available region, or 0, and no available region ends above it. */
  ghost predicate IsTop(rs: seq<Region>, h: nat) {
    && (forall i :: 0 <= i < |rs| && rs[i].available ==> (rs[i].base + rs[i].len) % TWO64 <= h)
    && (h == 0 || exists i :: 0 <= i < |rs| && rs[i].available && (rs[i].base + rs[i].len) % TWO64 == h)
  }

  lemma {:induction false} HighestIsTop(rs: seq<Region>)
    ensures IsTop(rs, Highest(rs))
    decreases |rs|
  {
    if rs != [] {
      var k := |rs| - 1;
      HighestIsTop(rs[..k]);
      assert forall i :: 0 <= i < k ==> rs[..k][i] == rs[i];
    }
  }

  /** The total is the sum of the lengths of the available regions. */
  lemma {:induction false} TotalIsSum(a: seq<Region>, b: seq<Region>, r: Region)
    ensures TotalLength(a + b) == TotalLength(a) + TotalLength(b)
    ensures TotalLength([r]) == if r.available then r.len else 0
    decreases |b|
  {
    assert [r][..0] == [];
    if b == [] {
      assert a + b == a;
    } else {
      var k := |b| - 1;
      TotalIsSum(a, b[..k], r);
      assert (a + b)[..|a + b| - 1] == a + b[..k];
    }
  }

  /** A frame is available exactly if it lies in some available region with both ends rounded down. */
  lemma {:induction false} AvailableIff(rs: seq<Region>, f: nat)
    ensures f in AvailableFrames(rs) <==>
              exists i :: 0 <= i < |rs| && rs[i].available &&
                rs[i].base / FRAME_SIZE <= f < (rs[i].base + rs[i].len) % TWO64 / FRAME_SIZE
    decreases |rs|
  {
    hide Region.Frames;
    if rs != [] {
      var k := |rs| - 1;
      AvailableIff(rs[..k], f);
      assert forall i :: 0 <= i < k ==> rs[..k][i] == rs[i];
      RegionFrames(rs[k], f);
    }
  }

  lemma RegionFrames(r: Region, f: nat)
    ensures f in r.Frames() <==>
              r.available && r.base / FRAME_SIZE <= f < (r.base + r.len) % TWO64 / FRAME_SIZE
  {
  }

  function TotalLength(rs: seq<Region>): nat {
    if rs == [] then 0 else TotalLength(rs[..|rs| - 1]) + (if rs[|rs| - 1].available then rs[|rs| - 1].len else 0)
  }

  /** A 64-bit accumulator holds the sum modulo 2^64. */
  lemma SumWraps(a: nat, b: nat)
    ensures (a % TWO64 + b) % TWO64 == (a + b) % TWO64
  {
  }

  /** One past the highest frame of any available region. */
  function HighestFrame(rs: seq<Region>): nat {
    if rs == [] then 0
    else
      var h := HighestFrame(rs[..|rs| - 1]);
      var r := rs[|rs| - 1];
      if r.FrameCount() > 0 && r.End() / FRAME_SIZE > h then r.End() / FRAME_SIZE else h
  }

  lemma {:induction false} FramesBelowIff(rs: seq<Region>, n: nat)
    ensures AvailableFrames(rs) <= Span(0, n) <==> HighestFrame(rs) <= n
  {
    if rs != [] {
      var k := |rs| - 1;
      FramesBelowIff(rs[..k], n);
      RegionBelowIff(rs[k], n);
    }
  }

  lemma RegionBelowIff(r: Region, n: nat)
    ensures r.Frames() <= Span(0, n) <==> r.FrameCount() == 0 || r.End() / FRAME_SIZE <= n
  {
    if r.FrameCount() > 0 && r.End() / FRAME_SIZE > n {
      var f := r.End() / FRAME_SIZE - 1;
      assert f in r.Frames() && f !in Span(0, n);
    }
  }

  /** Every frame of some available region. */
  ghost function AvailableFrames(rs: seq<Region>): set<nat> {
    if rs == [] then {} else AvailableFrames(rs[..|rs| - 1]) + rs[|rs| - 1].Frames()
  }

  /** The frames of the available regions counted region by region, as pmm_init counts them. */
  function AvailableCount(rs: seq<Region>): nat {
    if rs == [] then 0 else AvailableCount(rs[..|rs| - 1]) + rs[|rs| - 1].FrameCount()
  }

  ghost predicate FrameDisjoint(rs: seq<Region>) {
    forall i, j :: 0 <= i < j < |rs| ==> rs[i].Frames() !! rs[j].Frames()
  }

  ghost predicate ByteDisjoint(rs: seq<Region>) {
    forall i, j :: 0 <= i < j < |rs| && rs[i].available && rs[j].available ==>
      rs[i].base + rs[i].len <= rs[j].base || rs[j].base + rs[j].len <= rs[i].base
  }

  /** Rounding both ends down keeps disjoint byte regions disjoint as frame ranges. */
  lemma RoundingKeepsDisjoint(rs: seq<Region>)
    requires ByteDisjoint(rs)
    ensures FrameDisjoint(rs)
  {
    forall i, j | 0 <= i < j < |rs| ensures rs[i].Frames() !! rs[j].Frames() {
      if rs[i].available && rs[j].available {
        FloorMonotone(rs[i].End(), rs[j].base);
        FloorMonotone(rs[j].End(), rs[i].base);
      }
    }
  }

  lemma FloorMonotone(a: int, b: int)
    ensures a <= b ==> a / FRAME_SIZE <= b / FRAME_SIZE
  {
  }

  lemma FramesSize(r: Region)
    ensures |r.Frames()| == r.FrameCount()
  {
    SpanSize(r.base / FRAME_SIZE, r.End() / FRAME_SIZE);
  }

  /** Counting region by region is exact precisely when no two available regions share a frame. */
  lemma {:induction false} CountIsExactIffDisjoint(rs: seq<Region>)
    ensures |AvailableFrames(rs)| <= AvailableCount(rs)
    ensures |AvailableFrames(rs)| == AvailableCount(rs) <==> FrameDisjoint(rs)
  {
    if rs != [] {
      var n := |rs| - 1;
      var a, b := AvailableFrames(rs[..n]), rs[n].Frames();
      CountIsExactIffDisjoint(rs[..n]);
      FramesSize(rs[n]);
      UnionSize(a, b);
      assert FrameDisjoint(rs) <==> FrameDisjoint(rs[..n]) && a !! b by { LastApart(rs); }
    }
  }

  lemma UnionSize(a: set<nat>, b: set<nat>)
    ensures |a + b| == |a| + |b| - |a * b|
    ensures a !! b <==> |a * b| == 0
  {
    assert forall x :: x in a * b <==> x in a && x in b;
    assert a !! b ==> a * b == {};
    assert a * b == {} ==> a !! b;
  }

  lemma LastApart(rs: seq<Region>)
    requires rs != []
    ensures var n := |rs| - 1;
            FrameDisjoint(rs) <==> FrameDisjoint(rs[..n]) && AvailableFrames(rs[..n]) !! rs[n].Frames()
  {
    var n := |rs| - 1;
    assert FrameDisjoint(rs) <==>
           FrameDisjoint(rs[..n]) && forall i :: 0 <= i < n ==> rs[i].Frames() !! rs[n].Frames() by {
      assert forall i :: 0 <= i < n ==> rs[..n][i] == rs[i];
    }
    ApartFromAll(rs[..n], rs[n].Frames());
    assert (forall i :: 0 <= i < n ==> rs[i].Frames() !! rs[n].Frames()) <==>
           (forall i :: 0 <= i < n ==> rs[..n][i].Frames() !! rs[n].Frames());
  }

  lemma {:induction false} ApartFromAll(rs: seq<Region>, b: set<nat>)
    ensures AvailableFrames(rs) !! b <==> forall i :: 0 <= i < |rs| ==> rs[i].Frames() !! b
  {
    if rs != [] {
      var n := |rs| - 1;
      ApartFromAll(rs[..n], b);
      assert forall i :: 0 <= i < n ==> rs[..n][i] == rs[i];
      assert AvailableFrames(rs) !! b <==> AvailableFrames(rs[..n]) !! b && rs[n].Frames() !! b;
    }
  }

  lemma {:induction false} AvailableBelow(rs: seq<Region>, total: nat)
    requires Highest(rs) <= total * FRAME_SIZE
    ensures AvailableFrames(rs) <= Span(0, total)
    ensures forall i :: 0 <= i < |rs| && rs[i].available ==> rs[i].End() / FRAME_SIZE <= total
  {
    if rs != [] {
      var n := |rs| - 1;
      AvailableBelow(rs[..n], total);
      assert forall i :: 0 <= i < n ==> rs[..n][i] == rs[i];
      FloorMonotone(rs[n].End(), total * FRAME_SIZE);
    }
  }

  lemma DifferenceSize(a: set<nat>, b: set<nat>)
    requires b <= a
    ensures |a - b| == |a| - |b|
  {
    assert a == (a - b) + b;
  }

  lemma EmptySpan(lo: int, hi: int)
    ensures lo >= hi ==> Span(lo, hi) == {}
  {
  }

  lemma ZeroInSpans(m: nat, n: nat)
    ensures m > 0 && n > 0 ==> 0 in Span(0, m) * Span(0, n)
  {
  }

  /** total_frames: the highest address in frames, rounded up. */
  function FrameTotal(highest: nat): (frames: nat)
    ensures (frames - 1) * FRAME_SIZE < highest <= frames * FRAME_SIZE
  {
    if highest % FRAME_SIZE != 0 then highest / FRAME_SIZE + 1 else highest / FRAME_SIZE
  }

  /** bitmap_size: one bit per frame, rounded up to whole words. */
  function BitmapBytes(frames: nat): (n: nat)
    ensures n % 4 == 0 && 8 * n - 32 < frames <= 8 * n
  {
    var bytes := if frames % 8 != 0 then frames / 8 + 1 else frames / 8;
    if bytes % 4 != 0 then bytes + 4 - bytes % 4 else bytes
  }

  lemma StartNotZero(used: set<nat>, s: nat, n: nat)
    requires 0 in used && used !! Span(s, s + n) && n > 0
    ensures s != 0
  {
    assert s in Span(s, s + n);
  }

  lemma DriftAfterInit(rs: seq<Region>, total: nat)
    requires AvailableFrames(rs) <= Span(0, total)
    ensures total - AvailableCount(rs) == |Span(0, total) - AvailableFrames(rs)| <==> FrameDisjoint(rs)
  {
    hide Span, AvailableFrames, AvailableCount, FrameDisjoint;
    CountIsExactIffDisjoint(rs);
    SpanSize(0, total);
    DifferenceSize(Span(0, total), AvailableFrames(rs));
  }

  class Allocator {
    var bitmap: array<bv32>
    var totalFrames: nat
    var usedFrames: int
    var totalMemory: u64
    var highestAddress: u64

    ghost predicate Valid()
      reads this, bitmap
    {
      totalFrames <= 32 * bitmap.Length && totalFrames <= FRAMES_MAX
    }

    /** The frames in use. */
    ghost function Used(): set<nat>
      reads this, bitmap
    {
      UsedSet(bitmap[..], totalFrames)
    }

    /** How far the counter is from the number of frames in use. */
    ghost function Drift(): int
      reads this, bitmap
    {
      usedFrames - |Used()|
    }

    /** The frames pmm_alloc_frame can hand out. */
    ghost function Available(): set<nat>
      reads this, bitmap
    {
      Span(0, Scanned(totalFrames)) - Used()
    }

    method BitmapSet(f: nat)
      requires f / 32 < bitmap.Length
      modifies bitmap
      ensures forall g: nat :: Taken(bitmap[..], g) <==> g == f || Taken(old(bitmap[..]), g)
    {
      hide Taken, With, Mask;
      ghost var ws := bitmap[..];
      bitmap[f / 32] := With(bitmap[f / 32], Mask(f % 32));
      assert bitmap[..] == ws[f / 32 := With(ws[f / 32], Mask(f % 32))];
      forall g: nat ensures Taken(bitmap[..], g) <==> g == f || Taken(ws, g) {
        TakenAfterSet(ws, f, g);
      }
    }

    method BitmapClear(f: nat)
      requires f / 32 < bitmap.Length
      modifies bitmap
      ensures forall g: nat :: Taken(bitmap[..], g) <==> g != f && Taken(old(bitmap[..]), g)
    {
      hide Taken, Without, Mask;
      ghost var ws := bitmap[..];
      bitmap[f / 32] := Without(bitmap[f / 32], Mask(f % 32));
      assert bitmap[..] == ws[f / 32 := Without(ws[f / 32], Mask(f % 32))];
      forall g: nat ensures Taken(bitmap[..], g) <==> g != f && Taken(ws, g) {
        TakenAfterClear(ws, f, g);
      }
    }

    method BitmapTest(f: nat) returns (taken: bool)
      requires f / 32 < bitmap.Length
      ensures taken == Taken(bitmap[..], f)
    {
      taken := Bit(bitmap[f / 32], f % 32);
    }

    /** find_free_frame: skipping full words finds the same frame as looking at every bit. */
    method FindFreeFrame() returns (r: Option<nat>)
      requires Valid()
      ensures r.Some? ==> r.value < Scanned(totalFrames) && !Taken(bitmap[..], r.value)
      ensures r.Some? ==> forall g: nat :: g < r.value ==> Taken(bitmap[..], g)
      ensures r.None? ==> forall g: nat :: g < Scanned(totalFrames) ==> Taken(bitmap[..], g)
    {
      var i := 0;
      while i < totalFrames / 32
        invariant i <= totalFrames / 32
        invariant forall g: nat :: g < 32 * i ==> Taken(bitmap[..], g)
      {
        if bitmap[i] != 0xFFFF_FFFF {
          var j := 0;
          while j < 32
            invariant j <= 32
            invariant forall g: nat :: g < 32 * i + j ==> Taken(bitmap[..], g)
          {
            var frame := 32 * i + j;
            var taken := BitmapTest(frame);
            if frame < totalFrames && !taken { return Some(frame); }
            j := j + 1;
          }
        } else {
          forall g: nat | 32 * i <= g < 32 * (i + 1) ensures Taken(bitmap[..], g) {
            assert g / 32 == i;
            FullWord(g % 32);
          }
        }
        i := i + 1;
      }
      r := None;
    }

    /** Marks a free frame and counts it. */
    method Take(f: nat)
      requires Valid() && f < totalFrames && !Taken(bitmap[..], f)
      modifies this`usedFrames, bitmap
      ensures Valid() && Drift() == old(Drift()) && Used() == old(Used()) + {f} && f !in old(Used())
      ensures forall g: nat :: Taken(bitmap[..], g) <==> g == f || Taken(old(bitmap[..]), g)
    {
      hide Taken;
      ghost var ws := bitmap[..];
      BitmapSet(f);
      usedFrames := usedFrames + 1;
      UsedAfter(ws, bitmap[..], totalFrames, f, true);
    }

    /** pmm_alloc_frame: the lowest free frame, as an address; 0 when the search finds none. */
    method AllocFrame() returns (addr: nat, ghost f: Option<nat>)
      requires Valid()
      modifies this`usedFrames, bitmap
      ensures Valid() && Drift() == old(Drift())
      ensures f.None? <==> forall g: nat :: g < Scanned(totalFrames) ==> g in old(Used())
      ensures f.None? ==> addr == 0 && Used() == old(Used())
      ensures f.Some? ==> addr == f.value * FRAME_SIZE && f.value < Scanned(totalFrames)
      ensures f.Some? ==> f.value !in old(Used()) && Used() == old(Used()) + {f.value}
      ensures f.Some? ==> forall g: nat :: g < f.value ==> g in old(Used())
      ensures f.Some? <==> |old(Available())| > 0
      ensures Available() == old(Available()) - (if f.Some? then {f.value} else {})
      ensures |Available()| == |old(Available())| - if f.Some? then 1 else 0
    {
      AvailableIs();
      hide Taken;
      InUsedSet(bitmap[..], totalFrames);
      var frame := FindFreeFrame();
      f := frame;
      if frame.None? { return 0, f; }
      assert frame.value in Available();
      Take(frame.value);
      addr := frame.value * FRAME_SIZE;
    }

    lemma AvailableIs()
      ensures |Available()| > 0 <==> exists g: nat :: g < Scanned(totalFrames) && g !in Used()
    {
      if g: nat :| g < Scanned(totalFrames) && g !in Used() { assert g in Available(); }
      if |Available()| > 0 {
        var g :| g in Available();
        assert g < Scanned(totalFrames) && g !in Used();
      }
    }

    /** pmm_free_frame: unknown frames and frames already free are left alone. */
    method FreeFrame(addr: nat)
      requires Valid()
      modifies this`usedFrames, bitmap
      ensures Valid() && Drift() == old(Drift()) && Used() == old(Used()) - {addr / FRAME_SIZE}
      ensures forall g: nat :: g != addr / FRAME_SIZE ==> Taken(bitmap[..], g) == Taken(old(bitmap[..]), g)
    {
      hide Taken;
      var frame := addr / FRAME_SIZE;
      if frame >= totalFrames { return; }
      var taken := BitmapTest(frame);
      UsedAfter(bitmap[..], bitmap[..], totalFrames, frame, taken);
      if !taken { return; }
      ghost var ws := bitmap[..];
      BitmapClear(frame);
      usedFrames := usedFrames - 1;
      UsedAfter(ws, bitmap[..], totalFrames, frame, false);
    }

    /** pmm_free_frames. */
    method FreeFrames(addr: u64, count: nat)
      requires Valid()
      modifies this`usedFrames, bitmap
      ensures Valid() && Drift() == old(Drift())
      ensures Used() == old(Used()) - FreedFrames(addr, count)
    {
      assert FreedFrames(addr, 0) == {};
      hide Used, Drift, FreedFrames, FreedAddr;
      var i := 0;
      while i < count
        invariant i <= count && Valid() && Drift() == old(Drift()) && Used() == old(Used()) - FreedFrames(addr, i)
      {
        FreeFrame(FreedAddr(addr, i));
        FreedGrows(old(Used()), addr, i);
        i := i + 1;
      }
    }

    /** pmm_reserve_frame. */
    method ReserveFrame(addr: nat)
      requires Valid()
      modifies this`usedFrames, bitmap
      ensures Valid() && Drift() == old(Drift())
      ensures Used() == if addr / FRAME_SIZE < totalFrames then old(Used()) + {addr / FRAME_SIZE} else old(Used())
    {
      hide Taken;
      var frame := addr / FRAME_SIZE;
      if frame >= totalFrames { return; }
      var taken := BitmapTest(frame);
      UsedAfter(bitmap[..], bitmap[..], totalFrames, frame, taken);
      if !taken { Take(frame); }
    }

    /** pmm_reserve_region: the frames the region touches and, since the bound is inclusive, the next one,
        as far as there are frames. It takes a frame beyond the region exactly when the next one exists and
        is free. */
    method ReserveRegion(start: nat, end: nat)
      requires Valid()
      modifies this`usedFrames, bitmap
      ensures Valid() && Drift() == old(Drift())
      ensures Used() == old(Used()) + (Span(start / FRAME_SIZE, LastReserved(end) + 1) * Span(0, totalFrames))
      ensures (exists f: nat :: IsBeyond(old(Used()), Used(), end, f)) <==>
                start / FRAME_SIZE <= LastReserved(end) < totalFrames && LastReserved(end) !in old(Used())
    {
      hide Used, Drift, Span;
      var first := start / FRAME_SIZE;
      var last := end / FRAME_SIZE;
      if end % FRAME_SIZE != 0 { last := last + 1; }
      var frame := first;
      SpanGrows({}, first, first);
      while frame <= last && frame < totalFrames
        invariant first <= frame && (frame <= last + 1 || frame == first) && (frame <= totalFrames || frame == first)
        invariant Valid() && Drift() == old(Drift()) && Used() == old(Used()) + Span(first, frame)
      {
        FrameOfAddr(frame);
        ReserveFrame(frame * FRAME_SIZE);
        SpanGrows(old(Used()), first, frame);
        frame := frame + 1;
      }
      SpanCut(first, frame, last + 1, totalFrames);
      TakesBeyondIff(old(Used()), first, end, totalFrames);
    }

    lemma RunUnused(s: nat, count: nat)
      requires FreeRun(bitmap[..], totalFrames, s, count)
      ensures Used() !! Span(s, s + count)
    {
      FreeRunUnused(bitmap[..], totalFrames, s, count);
    }

    /** The loop of pmm_alloc_frames that marks the run. */
    method TakeRun(s: nat, count: nat)
      requires Valid() && FreeRun(bitmap[..], totalFrames, s, count)
      modifies this`usedFrames, bitmap
      ensures Valid() && Drift() == old(Drift()) && Used() == old(Used()) + Span(s, s + count)
      ensures old(Used()) !! Span(s, s + count)
    {
      hide Taken, Span, Used, Drift, FreeRun;
      RunUnused(s, count);
      var i := 0;
      SpanGrows({}, s, s);
      while i < count
        invariant i <= count && Valid() && Drift() == old(Drift()) && Used() == old(Used()) + Span(s, s + i)
        invariant FreeRun(bitmap[..], totalFrames, s + i, count - i)
      {
        ghost var ws := bitmap[..];
        RunHead(ws, totalFrames, s + i, count - i);
        Take(s + i);
        RunTail(ws, bitmap[..], totalFrames, s + i, count - i);
        SpanGrows(old(Used()), s, s + i);
        i := i + 1;
      }
    }

    /** pmm_alloc_frames: the lowest free run of `count` frames, as an address, or 0. */
    method AllocFrames(count: nat) returns (addr: nat, ghost s: Option<nat>)
      requires Valid()
      modifies this`usedFrames, bitmap
      ensures Valid() && Drift() == old(Drift())
      ensures s.None? ==> addr == 0 && Used() == old(Used())
      ensures s.None? <==> count == 0 || forall t: nat :: !FreeRun(old(bitmap[..]), totalFrames, t, count)
      ensures s.Some? ==> LowestRun(old(bitmap[..]), totalFrames, s.value, count) && addr == s.value * FRAME_SIZE
      ensures s.Some? ==> s.value + count <= totalFrames
      ensures s.Some? ==>
                old(Used()) !! Span(s.value, s.value + count) && Used() == old(Used()) + Span(s.value, s.value + count)
    {
      hide Taken, UsedSet, Span;
      if count == 0 { return 0, None; }
      var start, found, frame := 0, 0, 0;
      while frame < totalFrames
        invariant frame <= totalFrames && found < count && found <= frame
        invariant bitmap[..] == old(bitmap[..]) && usedFrames == old(usedFrames)
        invariant found > 0 ==> start == frame - found
        invariant FreeRun(bitmap[..], frame, frame - found, found)
        invariant forall t: nat :: t < frame - found ==> !FreeRun(bitmap[..], totalFrames, t, count)
      {
        var taken := BitmapTest(frame);
        if !taken {
          if found == 0 { start := frame; }
          found := found + 1;
          if found == count {
            TakeRun(start, count);
            return start * FRAME_SIZE, Some(start);
          }
        } else {
          RunStopsAt(bitmap[..], totalFrames, frame, found, count);
          found := 0;
        }
        frame := frame + 1;
      }
      return 0, None;
    }

    constructor ()
      ensures Valid() && totalFrames == 0 && usedFrames == 0 && totalMemory == 0 && highestAddress == 0 && fresh(bitmap)
    {
      bitmap := new bv32[0];
      totalFrames, usedFrames, totalMemory, highestAddress := 0, 0, 0, 0;
    }

    /** pmm_init on the entries of the memory map; the bitmap is placed at `bitmapAt`. */
    method Init(regions: seq<Region>, bitmapAt: nat)
      requires totalMemory == 0 && highestAddress == 0
      modifies this
      ensures Valid() && fresh(bitmap)
      ensures totalMemory == TotalLength(regions) % TWO64 && highestAddress == Highest(regions)
      ensures IsTop(regions, highestAddress)
      ensures (totalFrames - 1) * FRAME_SIZE < Highest(regions) <= totalFrames * FRAME_SIZE
      ensures totalFrames == FrameTotal(Highest(regions)) && 4 * bitmap.Length == BitmapBytes(totalFrames)
      ensures Used() == Span(0, totalFrames) - AvailableFrames(regions)
                        + (Span(0, LastReserved(bitmapAt + 4 * bitmap.Length) + 1) * Span(0, totalFrames))
      ensures (Drift() == 0 <==> FrameDisjoint(regions)) && (ByteDisjoint(regions) ==> Drift() == 0)
      ensures totalFrames > 0 ==> 0 in Used()
    {
      hide Used, Drift, Highest, TotalLength, AvailableFrames, AvailableCount, FrameDisjoint, ByteDisjoint, Span,
           IsTop;
      MeasureMap(regions);
      BuildBitmap(regions);
      ReserveRegion(0, bitmapAt + 4 * bitmap.Length);
      ZeroInSpans(LastReserved(bitmapAt + 4 * bitmap.Length) + 1, totalFrames);
      if ByteDisjoint(regions) { RoundingKeepsDisjoint(regions); }
    }

    /** pmm_init between the two passes: size the bitmap, mark everything used, free what is available. */
    method BuildBitmap(regions: seq<Region>)
      requires highestAddress == Highest(regions)
      modifies this`totalFrames, this`bitmap, this`usedFrames
      ensures Valid() && fresh(bitmap) && totalFrames == FrameTotal(highestAddress) &&
              4 * bitmap.Length == BitmapBytes(totalFrames)
      ensures Used() == Span(0, totalFrames) - AvailableFrames(regions) && (Drift() == 0 <==> FrameDisjoint(regions))
    {
      hide UsedSet, Highest, AvailableFrames, AvailableCount, FrameDisjoint, Span;
      totalFrames := FrameTotal(highestAddress);
      var bitmapSize := BitmapBytes(totalFrames);
      bitmap := new bv32[bitmapSize / 4];
      FillBitmap();
      usedFrames := totalFrames;
      AvailableBelow(regions, totalFrames);
      ClearAvailable(regions);
      DriftAfterInit(regions, totalFrames);
    }

    /** The first pass of pmm_init over the memory map. */
    method MeasureMap(regions: seq<Region>)
      requires totalMemory == 0 && highestAddress == 0
      modifies this`totalMemory, this`highestAddress
      ensures totalMemory == TotalLength(regions) % TWO64 && highestAddress == Highest(regions)
      ensures IsTop(regions, highestAddress)
    {
      HighestIsTop(regions);
      hide IsTop;
      var i := 0;
      while i < |regions|
        invariant i <= |regions|
        invariant totalMemory == TotalLength(regions[..i]) % TWO64 && highestAddress == Highest(regions[..i])
      {
        var r := regions[i];
        assert regions[..i + 1][..i] == regions[..i];
        if r.available {
          SumWraps(TotalLength(regions[..i]), r.len);
          totalMemory := (totalMemory + r.len) % TWO64;
          if r.End() > highestAddress { highestAddress := r.End(); }
        }
        i := i + 1;
      }
      assert regions[..i] == regions;
    }

    method FillBitmap()
      requires Valid()
      modifies bitmap
      ensures Valid() && Used() == Span(0, totalFrames)
    {
      var i := 0;
      while i < bitmap.Length
        invariant i <= bitmap.Length && forall k :: 0 <= k < i ==> bitmap[k] == 0xFFFF_FFFF
      {
        bitmap[i] := 0xFFFF_FFFF;
        i := i + 1;
      }
      forall f: nat | f < totalFrames ensures Taken(bitmap[..], f) {
        FullWord(f % 32);
      }
      hide Taken;
      assert Used() == Span(0, totalFrames);
    }

    /** The second pass of pmm_init: clear the bits of every available region. */
    method ClearAvailable(regions: seq<Region>)
      requires Valid() && Used() == Span(0, totalFrames)
      requires forall i :: 0 <= i < |regions| && regions[i].available ==> regions[i].End() / FRAME_SIZE <= totalFrames
      modifies this`usedFrames, bitmap
      ensures Valid() && Used() == Span(0, totalFrames) - AvailableFrames(regions)
      ensures usedFrames == old(usedFrames) - AvailableCount(regions)
    {
      hide Taken, UsedSet, Span;
      var i := 0;
      while i < |regions|
        invariant i <= |regions| && Valid() && Used() == Span(0, totalFrames) - AvailableFrames(regions[..i])
        invariant usedFrames == old(usedFrames) - AvailableCount(regions[..i])
      {
        assert regions[..i + 1][..i] == regions[..i];
        if regions[i].available {
          ClearSpan(regions[i].base / FRAME_SIZE, regions[i].End() / FRAME_SIZE);
        }
        i := i + 1;
      }
      assert regions[..i] == regions;
    }

    method ClearSpan(lo: nat, hi: nat)
      requires Valid() && hi <= totalFrames
      modifies this`usedFrames, bitmap
      ensures Valid() && Used() == old(Used()) - Span(lo, hi)
      ensures usedFrames == old(usedFrames) - if lo < hi then hi - lo else 0
    {
      hide Taken, UsedSet, Span;
      var frame := lo;
      SpanGrows({}, lo, lo);
      EmptySpan(lo, hi);
      while frame < hi && frame < totalFrames
        invariant lo <= frame && (frame <= hi || frame == lo) && Valid() && Used() == old(Used()) - Span(lo, frame)
        invariant usedFrames == old(usedFrames) - (frame - lo)
      {
        ghost var ws := bitmap[..];
        BitmapClear(frame);
        usedFrames := usedFrames - 1;
        UsedAfter(ws, bitmap[..], totalFrames, frame, false);
        SpanGrows(old(Used()), lo, frame);
        frame := frame + 1;
      }
    }

    /** Freeing the run just allocated restores the frames in use and the counter if and only if the
        run has at most 2^20 frames; of a longer one the rest stays in use. */
    method AllocThenFree(count: nat) returns (got: bool)
      requires Valid() && 0 in Used()
      modifies this`usedFrames, bitmap
      ensures Valid() && (got <==> count > 0 && exists s: nat :: FreeRun(old(bitmap[..]), totalFrames, s, count))
      ensures Used() == old(Used()) <==> !got || count <= WRAP
      ensures usedFrames == old(usedFrames) + if got && count > WRAP then count - WRAP else 0
    {
      hide UsedSet, Span, FreeRun, FreedFrames, Taken, Min;
      ghost var s;
      var addr;
      ghost var used := Used();
      addr, s := AllocFrames(count);
      if addr == 0 {
        if s.Some? { StartNotZero(used, s.value, count); }
        return false;
      }
      RunFits(old(bitmap[..]), totalFrames, s.value, count, addr);
      ghost var first, end := s.value, s.value + count;
      LeftTaken(used, first, count);
      FreedIsSpan(addr, count);
      assert Used() == used + Span(first, end);
      FreeFrames(addr, count);
      assert Used() == used + Span(first, end) - Span(first, first + Min(count, WRAP));
      got := true;
    }
  }

  lemma RunFits(ws: seq<bv32>, total: nat, s: nat, n: nat, addr: nat)
    requires FreeRun(ws, total, s, n) && n > 0 && total <= FRAMES_MAX && addr == s * FRAME_SIZE
    ensures addr + n * FRAME_SIZE <= TWO64 && 0 <= addr < TWO64 && addr / FRAME_SIZE == s
  {
  }

  /** What is left of a run after its first 2^20 frames were freed. */
  lemma LeftTaken(used: set<nat>, s: nat, count: nat)
    requires used !! Span(s, s + count) && count > 0
    ensures var left := used + Span(s, s + count) - Span(s, s + Min(count, WRAP));
            (left == used <==> count <= WRAP) && |left| == |used| + if count > WRAP then count - WRAP else 0
  {
    var left := used + Span(s, s + count) - Span(s, s + Min(count, WRAP));
    assert left == used + Span(s + Min(count, WRAP), s + count);
    SpanSize(s + Min(count, WRAP), s + count);
    assert used !! Span(s + Min(count, WRAP), s + count);
  }
}
