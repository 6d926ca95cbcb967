/** Memory at boot (kernel/kernel.c): the same boot information read by multiboot_get_total_memory and
    by pmm_init, and vmm_init on what pmm_init found. */
module Boot {
  import opened Words
  import opened FrameAllocator
  import opened Paging
  import opened Multiboot

  /** The entries of the memory map as pmm_init walks them, `stride` bytes apart from `o` on. */
  method ReadEntries(m: seq<byte>, o: nat, count: nat, stride: nat, ghost es: seq<Entry>) returns (rs: seq<Region>)
    requires stride >= 24 && count == |es| && o + |EntriesBytes(es, stride)| <= |m|
    requires m[o..o + |EntriesBytes(es, stride)|] == EntriesBytes(es, stride)
    ensures rs == Regions(es)
  {
    hide EntriesBytes, Field;
    rs := [];
    var i: nat, at: nat := 0, o;
    ghost var b := EntriesBytes(es, stride);
    assert es[0..] == es;
    while i < count
      invariant i <= count && b == EntriesBytes(es[i..], stride) && at + |b| <= |m| && m[at..at + |b|] == b
      invariant rs == Regions(es)[..i]
    {
      assert es[i..][1..] == es[i + 1..];
      ghost var c := EntriesBytes(es[i + 1..], stride);
      EntryAt(m, at, es[i..], stride, b, c);
      rs := rs + [Region(Field(m, at, 8), Field(m, at + 8, 8), Field(m, at + 16, 4) == AVAILABLE)];
      assert Regions(es)[i] == es[i].ToRegion();
      b := c;
      at := at + stride;
      i := i + 1;
    }
  }

  /** The regions of the memory map tag at `o`. */
  method RegionsOfMap(m: seq<byte>, o: nat, ghost es: seq<Entry>, ghost stride: nat) returns (rs: seq<Region>)
    requires 24 <= stride < TWO32 && o + 8 + |MmapTag(es, stride).payload| <= |m|
    requires m[o + 8..o + 8 + |MmapTag(es, stride).payload|] == MmapTag(es, stride).payload
    requires Field(m, o + 4, 4) == MmapTag(es, stride).Size()
    ensures rs == Regions(es)
  {
    hide EntriesBytes, MmapTag, Field, Regions;
    ghost var p := MmapTag(es, stride).payload;
    MmapFields(m, o, es, stride, p, EntriesBytes(es, stride));
    var size := Field(m, o + 4, 4);
    var entrySize := Field(m, o + 8, 4);
    CountEntries(|es|, stride);
    rs := ReadEntries(m, o + 16, (size - 16) / entrySize, entrySize, es);
  }

  /** The frames in use after pmm_init: all but the available ones, and those up to the end of the bitmap. */
  ghost function InitialUsed(rs: seq<Region>, total: nat, bitmapEnd: nat): set<nat> {
    Span(0, total) - AvailableFrames(rs) + (Span(0, LastReserved(bitmapEnd) + 1) * Span(0, total))
  }

  /** What pmm_init leaves behind on these regions, but for frames taken since. */
  ghost predicate Initialised(pmm: Allocator, rs: seq<Region>, bitmapAt: nat)
    reads pmm, pmm.bitmap
  {
    && pmm.Valid() && pmm.totalMemory == FrameAllocator.TotalLength(rs) % TWO64 && pmm.highestAddress == Highest(rs)
    && IsTop(rs, pmm.highestAddress)
    && pmm.totalFrames == FrameTotal(Highest(rs)) && 4 * pmm.bitmap.Length == BitmapBytes(pmm.totalFrames)
    && InitialUsed(rs, pmm.totalFrames, bitmapAt + 4 * pmm.bitmap.Length) <= pmm.Used()
    && (pmm.Drift() == 0 <==> FrameDisjoint(rs)) && (ByteDisjoint(rs) ==> pmm.Drift() == 0)
    && (pmm.totalFrames > 0 ==> 0 in pmm.Used())
  }

  /** pmm_init on the boot information `m`; without a memory map it does nothing. */
  method PmmInit(m: seq<byte>, pmm: Allocator, bitmapAt: nat, ghost ts: seq<Tag>, ghost es: seq<Entry>,
                 ghost stride: nat, ghost lower: u32, ghost upper: u32)
    returns (ok: bool)
    requires |m| >= 8 && m[8..] == Multiboot.Bytes(ts) && forall t :: t in ts ==> Proper(t)
    requires Describes(ts, es, stride, lower, upper)
    requires pmm.totalMemory == 0 && pmm.highestAddress == 0
    modifies pmm
    ensures ok <==> Has(ts, MMAP)
    ensures ok ==> Initialised(pmm, Regions(es), bitmapAt) && fresh(pmm.bitmap)
    ensures ok ==> pmm.Used() == InitialUsed(Regions(es), pmm.totalFrames, bitmapAt + 4 * pmm.bitmap.Length)
    ensures !ok ==>
              pmm.bitmap == old(pmm.bitmap) && pmm.totalFrames == old(pmm.totalFrames) &&
              pmm.usedFrames == old(pmm.usedFrames)
                    && pmm.totalMemory == 0 && pmm.highestAddress == 0
  {
    hide Multiboot.Bytes, Start, EntriesBytes, MmapTag, Field, Aligned, Regions, FrameAllocator.TotalLength, Highest,
         AvailableFrames, FrameDisjoint, ByteDisjoint, Span, FrameTotal, BitmapBytes, LastReserved, Allocator.Used,
         Allocator.Drift, IsTop;
    var mmap, i := FindTag(m, MMAP, ts);
    if mmap.None? { return false; }
    TagAt(m, mmap.value, ts, i);
    var rs := RegionsOfMap(m, mmap.value, es, stride);
    pmm.Init(rs, bitmapAt);
    ok := true;
  }

  /** Both readers of the memory map arrive at the same total, and vmm_init maps all available memory if
      and only if its highest frame lies below the tables that total pays for. */
  method BootMemory(m: seq<byte>, bitmapAt: nat, ghost ts: seq<Tag>, ghost es: seq<Entry>, ghost stride: nat,
                    ghost lower: u32, ghost upper: u32)
    returns (total: u64, pmm: Allocator, vm: PageMap?)
    requires |m| >= 8 && m[8..] == Multiboot.Bytes(ts) && forall t :: t in ts ==> Proper(t)
    requires Describes(ts, es, stride, lower, upper)
    ensures Has(ts, MMAP) ==> pmm.totalMemory == total == FrameAllocator.TotalLength(Regions(es)) % TWO64
    ensures Has(ts, MMAP) ==> Initialised(pmm, Regions(es), bitmapAt)
    ensures !Has(ts, MMAP) ==> vm == null
    ensures Has(ts, MMAP) ==> IsTop(Regions(es), pmm.highestAddress)
    ensures vm != null ==> vm.Valid() && vm.pmm == pmm && vm.Surplus() == 0
    ensures vm != null ==> MapsToItself(vm.Pages(), TablesFor(Regions(es)))
    ensures vm != null ==>
              (CoversMemory(vm.Pages(), Regions(es)) <==> HighestFrame(Regions(es)) <= TablesFor(Regions(es)) * ENTRIES)
    ensures vm == null && Has(ts, MMAP) && 0 < pmm.totalFrames <= PAGES ==>
              forall g: nat :: g < Scanned(pmm.totalFrames) ==> g in pmm.Used()
  {
    hide Multiboot.Bytes, Regions, FrameAllocator.TotalLength, Highest, Describes, Proper, Initialised, InitialUsed,
         IsTop, MapsToItself;
    total := TotalMemory(m, ts, es, stride, lower, upper);
    pmm := new Allocator();
    vm := null;
    var ok := PmmInit(m, pmm, bitmapAt, ts, es, stride, lower, upper);
    if ok {
      InitialisedFacts(pmm, Regions(es), bitmapAt);
      if 0 < pmm.totalFrames <= PAGES { vm := MapMemory(pmm, Regions(es), bitmapAt); }
    }
  }

  lemma InitialisedFacts(pmm: Allocator, rs: seq<Region>, bitmapAt: nat)
    requires Initialised(pmm, rs, bitmapAt)
    ensures pmm.Valid() && pmm.totalMemory == FrameAllocator.TotalLength(rs) % TWO64 &&
            pmm.highestAddress == Highest(rs) && IsTop(rs, pmm.highestAddress)
    ensures pmm.totalFrames > 0 ==> 0 in pmm.Used()
  {
  }

  /** vmm_init after pmm_init; null when there are fewer frames than tables to make. */
  method MapMemory(pmm: Allocator, ghost rs: seq<Region>, ghost bitmapAt: nat) returns (vm: PageMap?)
    requires Initialised(pmm, rs, bitmapAt) && 0 < pmm.totalFrames <= PAGES
    modifies pmm`usedFrames, pmm.bitmap
    ensures Initialised(pmm, rs, bitmapAt)
    ensures vm != null <==> |old(pmm.Available())| >= TablesFor(rs)
    ensures vm != null ==> fresh(vm) && vm.Valid() && vm.pmm == pmm && vm.Surplus() == 0
    ensures vm != null ==> MapsToItself(vm.Pages(), TablesFor(rs))
    ensures vm != null ==> (CoversMemory(vm.Pages(), rs) <==> HighestFrame(rs) <= TablesFor(rs) * ENTRIES)
    ensures vm == null ==> forall g: nat :: g < Scanned(pmm.totalFrames) ==> g in pmm.Used()
  {
    hide FrameAllocator.TotalLength, Identity, CoversMemory, HighestFrame, WellFormed, Flat, InitialUsed,
         Allocator.Used, Allocator.Available, FrameDisjoint, ByteDisjoint, Highest, IsTop, MapsToItself;
    IdentityCoversIff(rs);
    var v := new PageMap(pmm);
    var ok, tables := v.Init();
    vm := if ok then v else null;
  }
}
