/** Two-level paging (kernel/mm/vmm.c) over physical memory and the frame allocator. A directory of
    page tables, each in a frame of its own, acts as one flat table of page entries. Shifts, masks
    and ors on 32-bit words are written as the divisions, remainders and sums they equal. */
module Paging {
  import opened Words
  import opened FrameAllocator

  const ENTRIES := 1024
  const PAGES := 0x10_0000
  const PAGE_SIZE := 4096

  predicate Present(e: u32) { e % 2 == 1 }
  predicate Writable(e: u32) { e / 2 % 2 == 1 }
  predicate User(e: u32) { e / 4 % 2 == 1 }

  /** e | PTE_USER */
  function WithUser(e: u32): u32 { if User(e) then e else e + 4 }

  /** The frame an entry points to: (e & PTE_ADDR_MASK) >> 12. */
  function FrameOf(e: u32): nat { e / PAGE_SIZE }

  /** frame << 12 | PTE_PRESENT | PTE_WRITABLE */
  function TableEntry(frame: nat): u32
    requires frame < PAGES
  {
    frame * PAGE_SIZE + 3
  }

  /** (physical_addr & PTE_ADDR_MASK) | (flags & 0xFFF) */
  function PageEntry(pa: u32, flags: u32): u32 { pa - pa % PAGE_SIZE + flags % PAGE_SIZE }

  lemma EntryBits(frame: nat, e: u32)
    ensures frame < PAGES ==>
              && Present(TableEntry(frame)) && Writable(TableEntry(frame)) && !User(TableEntry(frame))
              && FrameOf(TableEntry(frame)) == frame
    ensures User(WithUser(e)) && Present(WithUser(e)) == Present(e) && FrameOf(WithUser(e)) == FrameOf(e)
    ensures Writable(WithUser(e)) == Writable(e)
    ensures !User(0) && !Present(0)
  {
    if frame < PAGES {
      Fields(frame, 3);
    }
    if !User(e) {
      var r := e % PAGE_SIZE;
      Fields(FrameOf(e), r);
      RoomForUser(r);
      Fields(FrameOf(e), r + 4);
      Half(2, r);
      Parity(1, r / 2);
      assert WithUser(e) == FrameOf(e) * PAGE_SIZE + (r + 4);
    }
  }

  /** The parts of an entry made of a frame number and twelve low bits. */
  lemma Fields(a: nat, f: nat)
    requires f < PAGE_SIZE
    ensures (a * PAGE_SIZE + f) / PAGE_SIZE == a && (a * PAGE_SIZE + f) % PAGE_SIZE == f
    ensures (a * PAGE_SIZE + f) % 2 == f % 2 && (a * PAGE_SIZE + f) / 4 % 2 == f / 4 % 2
    ensures (a * PAGE_SIZE + f) / 2 % 2 == f / 2 % 2
  {
    Quotient(a, f);
    Half(a * 2048, f);
    Parity(a * 1024, f / 2);
    Parity(a * 2048, f);
    Quarter(a * 1024, f);
    Parity(a * 512, f / 4);
  }

  lemma RoomForUser(r: nat)
    requires r < PAGE_SIZE && r / 4 % 2 == 0
    ensures r + 4 < PAGE_SIZE && (r + 4) / 4 % 2 == 1 && (r + 4) % 2 == r % 2
  {
    Quarter(1, r);
    Parity(2, r);
  }

  lemma Quotient(a: nat, f: nat)
    requires f < PAGE_SIZE
    ensures (a * PAGE_SIZE + f) / PAGE_SIZE == a && (a * PAGE_SIZE + f) % PAGE_SIZE == f
  {
  }

  lemma Parity(b: nat, f: nat)
    ensures (2 * b + f) % 2 == f % 2
  {
  }

  lemma Half(c: nat, f: nat)
    ensures (2 * c + f) / 2 == c + f / 2
  {
  }

  lemma Quarter(c: nat, f: nat)
    ensures (4 * c + f) / 4 == c + f / 4
  {
  }

  lemma PageEntryBits(pa: u32, flags: u32)
    ensures FrameOf(PageEntry(pa, flags)) == FrameOf(pa) && PageEntry(pa, flags) % PAGE_SIZE == flags % PAGE_SIZE
    ensures User(PageEntry(pa, flags)) == User(flags) && Present(PageEntry(pa, flags)) == Present(flags)
    ensures Writable(PageEntry(pa, flags)) == Writable(flags)
  {
    Fields(pa / PAGE_SIZE, flags % PAGE_SIZE);
    Fields(flags / PAGE_SIZE, flags % PAGE_SIZE);
    assert PageEntry(pa, flags) == pa / PAGE_SIZE * PAGE_SIZE + flags % PAGE_SIZE;
    assert flags == flags / PAGE_SIZE * PAGE_SIZE + flags % PAGE_SIZE;
  }

  // ---------------------------------------------------------------- the flat view

  /** Word `j` of the table that directory entry `e` points to. */
  function Slot(e: u32, j: nat): nat { FrameOf(e) * ENTRIES + j }

  /** The entry of virtual page `p`, 0 when it has no page table. */
  ghost function EntryOf(pd: seq<u32>, ram: seq<u32>, p: nat): u32
    requires |pd| == ENTRIES && p < PAGES
  {
    var e := pd[p / ENTRIES];
    if Present(e) && Slot(e, p % ENTRIES) < |ram| then ram[Slot(e, p % ENTRIES)] else 0
  }

  /** All page entries, as one table. */
  ghost function Flat(pd: seq<u32>, ram: seq<u32>): (f: seq<u32>)
    requires |pd| == ENTRIES
    ensures |f| == PAGES && forall p :: 0 <= p < PAGES ==> f[p] == EntryOf(pd, ram, p)
  {
    seq(PAGES, p requires 0 <= p < PAGES => EntryOf(pd, ram, p))
  }

  /** Present directory entries point to different frames in memory, all of them in use. */
  ghost predicate TablesApart(pd: seq<u32>, ram: seq<u32>, used: set<nat>) {
    && |pd| == ENTRIES
    && (forall i :: 0 <= i < ENTRIES && Present(pd[i]) ==> FrameOf(pd[i]) in used && Slot(pd[i], ENTRIES) <= |ram|)
    && (forall i, j :: 0 <= i < j < ENTRIES && Present(pd[i]) && Present(pd[j]) ==> FrameOf(pd[i]) != FrameOf(pd[j]))
  }

  /** A user page entry sits under a user directory entry. */
  ghost predicate UserUnderUser(pd: seq<u32>, ram: seq<u32>)
    requires |pd| == ENTRIES
  {
    forall p :: 0 <= p < PAGES && User(EntryOf(pd, ram, p)) ==> User(pd[p / ENTRIES])
  }

  /** Directory entries restrict no writes. */
  ghost predicate TablesWritable(pd: seq<u32>) {
    forall i :: 0 <= i < |pd| && Present(pd[i]) ==> Writable(pd[i])
  }

  ghost predicate WellFormed(pd: seq<u32>, ram: seq<u32>, used: set<nat>) {
    TablesApart(pd, ram, used) && UserUnderUser(pd, ram) && TablesWritable(pd)
  }

  /** What the hardware grants ring 3: both levels present and marked user. */
  ghost predicate UserAccess(pd: seq<u32>, ram: seq<u32>, p: nat)
    requires |pd| == ENTRIES && p < PAGES
  {
    var e, q := pd[p / ENTRIES], EntryOf(pd, ram, p);
    Present(e) && User(e) && Present(q) && User(q)
  }

  /** Ring 3 may write where it has access and both levels are writable. */
  ghost predicate UserWrites(pd: seq<u32>, ram: seq<u32>, p: nat)
    requires |pd| == ENTRIES && p < PAGES
  {
    UserAccess(pd, ram, p) && Writable(pd[p / ENTRIES]) && Writable(EntryOf(pd, ram, p))
  }

  /** Under the invariant the flat entry alone decides ring 3 access. */
  lemma AccessIsFlat(pd: seq<u32>, ram: seq<u32>, used: set<nat>, p: nat)
    requires WellFormed(pd, ram, used) && p < PAGES
    ensures UserAccess(pd, ram, p) <==> Present(Flat(pd, ram)[p]) && User(Flat(pd, ram)[p])
    ensures UserWrites(pd, ram, p) <==>
              Present(Flat(pd, ram)[p]) && User(Flat(pd, ram)[p]) && Writable(Flat(pd, ram)[p])
  {
  }

  // ---------------------------------------------------------------- changes to the tables

  /** Writing one word of a present table changes one page. */
  lemma WriteEntry(pd: seq<u32>, ram: seq<u32>, used: set<nat>, p: nat, q: u32)
    requires WellFormed(pd, ram, used) && p < PAGES && Present(pd[p / ENTRIES])
    requires User(q) ==> User(pd[p / ENTRIES])
    ensures var s := Slot(pd[p / ENTRIES], p % ENTRIES);
            s < |ram| && WellFormed(pd, ram[s := q], used) && Flat(pd, ram[s := q]) == Flat(pd, ram)[p := q]
  {
    var s := Slot(pd[p / ENTRIES], p % ENTRIES);
    var ram' := ram[s := q];
    forall r | 0 <= r < PAGES ensures EntryOf(pd, ram', r) == if r == p then q else EntryOf(pd, ram, r) {
      var e, d := pd[r / ENTRIES], pd[p / ENTRIES];
      if r != p && Present(e) {
        SlotsDiffer(FrameOf(e), r % ENTRIES, FrameOf(d), p % ENTRIES);
      }
    }
    assert Flat(pd, ram') == Flat(pd, ram)[p := q];
  }

  lemma SlotsDiffer(f: nat, i: nat, g: nat, j: nat)
    requires i < ENTRIES && j < ENTRIES
    ensures f * ENTRIES + i == g * ENTRIES + j <==> f == g && i == j
  {
  }

  /** Marking a directory entry user changes no page entry. */
  lemma MarkDirectory(pd: seq<u32>, ram: seq<u32>, used: set<nat>, i: nat)
    requires WellFormed(pd, ram, used) && i < ENTRIES
    ensures WellFormed(pd[i := WithUser(pd[i])], ram, used)
    ensures Flat(pd[i := WithUser(pd[i])], ram) == Flat(pd, ram)
  {
    var pd' := pd[i := WithUser(pd[i])];
    EntryBits(0, pd[i]);
    hide WithUser;
    forall p | 0 <= p < PAGES ensures EntryOf(pd', ram, p) == EntryOf(pd, ram, p) {
    }
    assert Flat(pd', ram) == Flat(pd, ram);
  }

  ghost predicate SameButFrame(ram: seq<u32>, ram': seq<u32>, f: nat) {
    |ram| == |ram'| && forall k :: 0 <= k < |ram| && !(f * ENTRIES <= k < (f + 1) * ENTRIES) ==> ram'[k] == ram[k]
  }

  /** Hanging a frame that was not in use into the directory changes the pages of that table only. */
  lemma AddTable(pd: seq<u32>, ram: seq<u32>, ram': seq<u32>, used: set<nat>, i: nat, f: nat)
    requires WellFormed(pd, ram, used) && i < ENTRIES && !Present(pd[i]) && f !in used && f < PAGES
    requires SameButFrame(ram, ram', f) && (f + 1) * ENTRIES <= |ram|
    requires forall k :: f * ENTRIES <= k < (f + 1) * ENTRIES ==> !User(ram'[k])
    ensures WellFormed(pd[i := TableEntry(f)], ram', used + {f})
    ensures forall p :: 0 <= p < PAGES ==>
              EntryOf(pd[i := TableEntry(f)], ram', p) ==
              if p / ENTRIES == i then ram'[f * ENTRIES + p % ENTRIES] else EntryOf(pd, ram, p)
  {
    var pd' := pd[i := TableEntry(f)];
    EntryBits(f, 0);
    hide TableEntry;
    forall p | 0 <= p < PAGES
      ensures EntryOf(pd', ram', p) == if p / ENTRIES == i then ram'[f * ENTRIES + p % ENTRIES] else EntryOf(pd, ram, p)
    {
    }
  }

  /** Hanging in a zeroed frame changes no page entry. */
  lemma AddEmptyTable(pd: seq<u32>, ram: seq<u32>, ram': seq<u32>, used: set<nat>, i: nat, f: nat)
    requires WellFormed(pd, ram, used) && i < ENTRIES && !Present(pd[i]) && f !in used && f < PAGES
    requires SameButFrame(ram, ram', f) && (f + 1) * ENTRIES <= |ram|
    requires forall k :: f * ENTRIES <= k < (f + 1) * ENTRIES ==> ram'[k] == 0
    ensures WellFormed(pd[i := TableEntry(f)], ram', used + {f})
    ensures Flat(pd[i := TableEntry(f)], ram') == Flat(pd, ram)
  {
    AddTable(pd, ram, ram', used, i, f);
    var pd' := pd[i := TableEntry(f)];
    hide TableEntry;
    forall p | 0 <= p < PAGES ensures EntryOf(pd', ram', p) == EntryOf(pd, ram, p) {
    }
    assert Flat(pd', ram') == Flat(pd, ram);
  }

  // ---------------------------------------------------------------- how much vmm_init maps

  const TABLE_SPAN := 0x40_0000

  function Clamp(n: int, lo: int, hi: int): int { if n > hi then hi else if n < lo then lo else n }

  /** num_pde, in 32-bit arithmetic. */
  function DirectoryCount(totalMemory: u64): (n: nat)
    ensures 1 <= n <= ENTRIES
  {
    var mem := if totalMemory > 0xFFFF_FFFF then 0xFFFF_FFFF else totalMemory;
    var n := (mem + 0x3F_FFFF) % TWO32 / TABLE_SPAN;
    Clamp(n, 1, ENTRIES)
  }

  /** Up to 0xFFC00000 bytes the tables span the total; beyond, the rounding wraps to one table. */
  lemma TablesSpanTotal(totalMemory: u64)
    ensures totalMemory <= DirectoryCount(totalMemory) * TABLE_SPAN <==> totalMemory <= 0xFFC0_0000
    ensures totalMemory > 0xFFC0_0000 ==> DirectoryCount(totalMemory) == 1
    ensures 0 < totalMemory <= 0xFFC0_0000 ==> (DirectoryCount(totalMemory) - 1) * TABLE_SPAN < totalMemory
    ensures totalMemory == 0 ==> DirectoryCount(totalMemory) == 1
  {
  }

  /** The entry that maps page `p` to itself, present and writable. */
  function IdentityEntry(p: nat): u32
    requires p < PAGES
  {
    p * PAGE_SIZE + 3
  }

  lemma IdentityBits(p: nat)
    requires p < PAGES
    ensures Present(IdentityEntry(p)) && Writable(IdentityEntry(p)) && !User(IdentityEntry(p))
    ensures FrameOf(IdentityEntry(p)) == p
  {
    Fields(p, 3);
  }

  /** The flat table that maps the first `n` * 4 MiB to themselves and nothing else. */
  ghost function Identity(n: nat): (f: seq<u32>)
    ensures |f| == PAGES && forall p :: 0 <= p < PAGES ==> f[p] == if p / ENTRIES < n then IdentityEntry(p) else 0
  {
    seq(PAGES, p requires 0 <= p < PAGES => if p / ENTRIES < n then IdentityEntry(p) else 0)
  }

  /** Every page below `n` * 4 MiB is present, writable, not for ring 3, and in the frame of its own number; no
      other page is present. */
  ghost predicate MapsToItself(f: seq<u32>, n: nat)
    requires |f| == PAGES
  {
    && (forall p :: 0 <= p < PAGES && p < n * ENTRIES ==>
          Present(f[p]) && Writable(f[p]) && !User(f[p]) && FrameOf(f[p]) == p)
    && (forall p :: n * ENTRIES <= p < PAGES ==> !Present(f[p]))
  }

  lemma IdentityMapsToItself(n: nat)
    ensures MapsToItself(Identity(n), n)
  {
    var f := Identity(n);
    hide Identity;
    forall p | 0 <= p < PAGES && p < n * ENTRIES
      ensures Present(f[p]) && Writable(f[p]) && !User(f[p]) && FrameOf(f[p]) == p
    {
      assert p / ENTRIES < n;
      IdentityBits(p);
    }
    EntryBits(0, 0);
  }

  /** The number of tables vmm_init makes after pmm_init on this memory map. */
  function TablesFor(rs: seq<Region>): (n: nat)
    ensures 1 <= n <= ENTRIES
  {
    DirectoryCount(TotalLength(rs) % TWO64)
  }

  /** Every frame of available memory is mapped to itself. */
  ghost predicate CoversMemory(f: seq<u32>, rs: seq<Region>)
    requires |f| == PAGES
  {
    forall p :: p in AvailableFrames(rs) ==> p < PAGES && Present(f[p]) && FrameOf(f[p]) == p
  }

  /** The identity map covers available memory if and only if its highest frame lies below the tables,
      whose number comes from the sum of the lengths: a hole below the top can leave memory out. */
  lemma IdentityCoversIff(rs: seq<Region>)
    ensures CoversMemory(Identity(TablesFor(rs)), rs) <==> HighestFrame(rs) <= TablesFor(rs) * ENTRIES
  {
    var n := TablesFor(rs);
    hide TablesFor, HighestFrame, AvailableFrames;
    var f := Identity(n);
    forall p: nat | p < PAGES ensures (Present(f[p]) && FrameOf(f[p]) == p) <==> p < n * ENTRIES {
      if p / ENTRIES < n { IdentityBits(p); }
    }
    FramesBelowIff(rs, n * ENTRIES);
    hide Identity, Present, FrameOf;
    assert CoversMemory(f, rs) <==> AvailableFrames(rs) <= Span(0, n * ENTRIES);
  }

  /** Word `j` of frame `f`. */
  function WordOf(f: nat, j: nat): nat { f * ENTRIES + j }

  /** Frame `f` holds table `i` of the identity map. */
  ghost predicate HoldsIdentity(ram: seq<u32>, f: nat, i: nat)
    requires i < ENTRIES && f < PAGES
  {
    (f + 1) * ENTRIES <= |ram| && forall j :: 0 <= j < ENTRIES ==> ram[WordOf(f, j)] == IdentityEntry(i * ENTRIES + j)
  }

  lemma IdentityIsKernelOnly(ram: seq<u32>, f: nat, i: nat)
    requires i < ENTRIES && f < PAGES && HoldsIdentity(ram, f, i)
    ensures forall k :: f * ENTRIES <= k < (f + 1) * ENTRIES ==> !User(ram[k])
  {
    forall k | f * ENTRIES <= k < (f + 1) * ENTRIES ensures !User(ram[k]) {
      var j := k - f * ENTRIES;
      assert ram[WordOf(f, j)] == ram[k];
      IdentityBits(i * ENTRIES + j);
    }
  }

  /** Adding table `i` of the identity map to the first `i` of them. */
  lemma AddIdentityTable(pd: seq<u32>, ram: seq<u32>, ram': seq<u32>, used: set<nat>, i: nat, f: nat)
    requires WellFormed(pd, ram, used) && i < ENTRIES && !Present(pd[i]) && f !in used && f < PAGES
    requires SameButFrame(ram, ram', f) && Flat(pd, ram) == Identity(i) && HoldsIdentity(ram', f, i)
    ensures WellFormed(pd[i := TableEntry(f)], ram', used + {f})
    ensures Flat(pd[i := TableEntry(f)], ram') == Identity(i + 1)
  {
    var pd' := pd[i := TableEntry(f)];
    IdentityIsKernelOnly(ram', f, i);
    AddTable(pd, ram, ram', used, i, f);
    hide TableEntry, IdentityEntry, WellFormed, SameButFrame, User, Present;
    forall p | 0 <= p < PAGES ensures EntryOf(pd', ram', p) == Identity(i + 1)[p] {
      assert EntryOf(pd, ram, p) == Flat(pd, ram)[p] == Identity(i)[p];
      hide EntryOf;
      if p / ENTRIES == i {
        assert ram'[WordOf(f, p % ENTRIES)] == IdentityEntry(i * ENTRIES + p % ENTRIES);
      }
    }
    assert Flat(pd', ram') == Identity(i + 1);
  }

  // ---------------------------------------------------------------- counting entries

  /** The positions of the present entries of a table or of the directory. */
  ghost function PresentIn(f: seq<u32>): set<nat> { set p: nat | p < |f| && Present(f[p]) }

  function One(b: bool): int { if b then 1 else 0 }

  /** Writing one entry changes the count by that entry. */
  lemma CountAfter(f: seq<u32>, p: nat, q: u32)
    requires p < |f|
    ensures |PresentIn(f[p := q])| == |PresentIn(f)| - One(Present(f[p])) + One(Present(q))
    ensures Present(f[p]) ==> |PresentIn(f)| > 0
  {
    var rest := PresentIn(f) - {p};
    assert PresentIn(f) == if Present(f[p]) then rest + {p} else rest;
    assert PresentIn(f[p := q]) == if Present(q) then rest + {p} else rest;
  }

  lemma IdentityCount(n: nat)
    requires n <= ENTRIES
    ensures |PresentIn(Identity(n))| == n * ENTRIES
  {
    var f := Identity(n);
    forall p: nat | p < PAGES ensures Present(f[p]) <==> p < n * ENTRIES {
      if p / ENTRIES < n { IdentityBits(p); }
    }
    assert PresentIn(f) == Span(0, n * ENTRIES);
    SpanSize(0, n * ENTRIES);
  }

  // ---------------------------------------------------------------- runs on the flat table

  datatype VmCall = MapCall(va: u32, pa: u32, flags: u32) | UnmapCall(va: u32) | SetUserCall(va: u32)

  /** A flat map: its entries, which 4 MiB slots have a page table, and how many frames are left for more. */
  datatype Vm = Vm(pages: seq<u32>, tables: set<nat>, free: nat)

  /** Whether a call succeeds: a page can be mapped where there is a table or a frame for one; only a present
      page can be unmapped or given to ring 3. */
  predicate Succeeds(v: Vm, c: VmCall)
    requires |v.pages| == PAGES
  {
    if c.MapCall? then c.va / TABLE_SPAN in v.tables || v.free > 0 else Present(v.pages[c.va / PAGE_SIZE])
  }

  /** What a call does to a flat map. */
  function VmStep(v: Vm, c: VmCall): (v': Vm)
    requires |v.pages| == PAGES
    ensures |v'.pages| == PAGES
  {
    var p, i := c.va / PAGE_SIZE, c.va / TABLE_SPAN;
    if !Succeeds(v, c) then v
    else match c
      case MapCall(_, pa, flags) =>
        Vm(v.pages[p := PageEntry(pa, flags)], v.tables + {i}, if i in v.tables then v.free else v.free - 1)
      case UnmapCall(_) => v.(pages := v.pages[p := 0])
      case SetUserCall(_) => v.(pages := v.pages[p := WithUser(v.pages[p])])
  }

  /** The flat map after a run. */
  function VmRun(v: Vm, cs: seq<VmCall>): (v': Vm)
    requires |v.pages| == PAGES
    ensures |v'.pages| == PAGES
  {
    if cs == [] then v else VmStep(VmRun(v, cs[..|cs| - 1]), cs[|cs| - 1])
  }

  /** Over every run a page that no call is for keeps its entry. */
  lemma {:induction false} OtherPagesKeep(v: Vm, cs: seq<VmCall>, p: nat)
    requires |v.pages| == PAGES && p < PAGES && forall k :: 0 <= k < |cs| ==> cs[k].va / PAGE_SIZE != p
    ensures VmRun(v, cs).pages[p] == v.pages[p]
    decreases |cs|
  {
    if cs != [] {
      OtherPagesKeep(v, cs[..|cs| - 1], p);
    }
  }

  /** A page that was mapped translates to the frame it was mapped to, with the rights it was given, until a call
      is for that page again. */
  lemma MappingStays(v: Vm, c: VmCall, cs: seq<VmCall>)
    requires |v.pages| == PAGES && c.MapCall? && (c.va / TABLE_SPAN in v.tables || v.free > 0)
    requires forall k :: 0 <= k < |cs| ==> cs[k].va / PAGE_SIZE != c.va / PAGE_SIZE
    ensures var q := VmRun(VmStep(v, c), cs).pages[c.va / PAGE_SIZE];
            && q / PAGE_SIZE == c.pa / PAGE_SIZE && q % PAGE_SIZE == c.flags % PAGE_SIZE
            && Present(q) == Present(c.flags) && Writable(q) == Writable(c.flags) && User(q) == User(c.flags)
  {
    OtherPagesKeep(VmStep(v, c), cs, c.va / PAGE_SIZE);
    PageEntryBits(c.pa, c.flags);
  }

  /** Writing one entry changes the present positions by that one. */
  lemma PresentAfter(f: seq<u32>, p: nat, q: u32)
    requires p < |f|
    ensures PresentIn(f[p := q]) == if Present(q) then PresentIn(f) + {p} else PresentIn(f) - {p}
    ensures p in PresentIn(f) <==> Present(f[p])
  {
  }

  /** A present page lies in a slot that has a table, so a page next to it can always be mapped. */
  lemma PresentHasTable(pd: seq<u32>, ram: seq<u32>, p: nat)
    requires |pd| == ENTRIES && p < PAGES && Present(Flat(pd, ram)[p])
    ensures p / ENTRIES in PresentIn(pd)
  {
    EntryBits(0, 0);
  }

  /** A zeroed directory maps nothing. */
  lemma NothingMapped(pd: seq<u32>, ram: seq<u32>)
    requires pd == seq(ENTRIES, _ => 0)
    ensures Flat(pd, ram) == Identity(0) && forall k :: 0 <= k < ENTRIES ==> !Present(pd[k])
  {
    assert forall k :: 0 <= k < ENTRIES ==> pd[k] == 0 && !Present(pd[k]);
    assert Flat(pd, ram) == Identity(0);
  }

  class PageMap {
    const pd: array<u32>
    const ram: array<u32>
    const pmm: Allocator
    var mappedPages: nat
    var pageTables: nat

    ghost predicate Valid()
      reads this, pd, ram, pmm, pmm.bitmap
    {
      && pd.Length == ENTRIES && pd != ram && Unshared()
      && pmm.Valid() && 0 in pmm.Used()
      && pmm.totalFrames <= PAGES && ram.Length == pmm.totalFrames * ENTRIES
      && WellFormed(pd[..], ram[..], pmm.Used())
      && pageTables == |PresentIn(pd[..])|
    }

    ghost predicate Unshared()
      reads this, pmm
    {
      var bits: object := pmm.bitmap;
      bits != pd && bits != ram
    }

    /** The page entries of the whole address space. */
    ghost function Pages(): seq<u32>
      requires pd.Length == ENTRIES
      reads pd, ram
    {
      Flat(pd[..], ram[..])
    }

    /** The flat map the directory and the tables stand for. */
    ghost function State(): Vm
      requires pd.Length == ENTRIES
      reads pd, ram, pmm, pmm.bitmap
    {
      Vm(Pages(), PresentIn(pd[..]), |pmm.Available()|)
    }

    /** How far mapped_pages is above the number of present pages. */
    ghost function Surplus(): int
      requires pd.Length == ENTRIES
      reads this`mappedPages, pd, ram
    {
      mappedPages - |PresentIn(Pages())|
    }

    /** The zeroed page directory over some physical memory. */
    constructor (pmm: Allocator)
      requires pmm.Valid() && 0 in pmm.Used() && pmm.totalFrames <= PAGES
      ensures Valid() && this.pmm == pmm && fresh(pd) && fresh(ram) && pd[..] == seq(ENTRIES, _ => 0)
      ensures Pages() == Identity(0) && Surplus() == 0
    {
      this.pmm := pmm;
      pd := new u32[ENTRIES](_ => 0);
      ram := new u32[pmm.totalFrames * ENTRIES];
      mappedPages, pageTables := 0, 0;
      new;
      assert forall i :: 0 <= i < ENTRIES ==> !Present(pd[i]);
      assert PresentIn(pd[..]) == {};
      assert Pages() == Identity(0);
      IdentityCount(0);
    }

    /** Writes the words of one frame: memset of a page table. */
    method ZeroTable(f: nat)
      requires (f + 1) * ENTRIES <= ram.Length
      modifies ram
      ensures SameButFrame(old(ram[..]), ram[..], f)
      ensures forall k :: f * ENTRIES <= k < (f + 1) * ENTRIES ==> ram[k] == 0
    {
      var j := 0;
      while j < ENTRIES
        invariant j <= ENTRIES && SameButFrame(old(ram[..]), ram[..], f)
        invariant forall k :: f * ENTRIES <= k < f * ENTRIES + j ==> ram[k] == 0
      {
        ram[f * ENTRIES + j] := 0;
        j := j + 1;
      }
    }

    /** The table for directory slot `i`, created if it is missing. */
    method EnsureTable(i: nat) returns (ok: bool)
      requires Valid() && i < ENTRIES
      modifies pd, ram, pmm`usedFrames, pmm.bitmap, this`pageTables
      ensures Valid() && Pages() == old(Pages()) && pmm.Drift() == old(pmm.Drift())
      ensures ok ==> Present(pd[i]) && forall k :: 0 <= k < ENTRIES && k != i ==> pd[k] == old(pd[k])
      ensures Present(old(pd[i])) ==> pmm.Used() == old(pmm.Used())
      ensures !ok ==> pd[..] == old(pd[..]) && ram[..] == old(ram[..]) && pmm.Used() == old(pmm.Used())
      ensures var v := old(State()); ok <==> i in v.tables || v.free > 0
      ensures var v := old(State());
              State() == if ok then Vm(v.pages, v.tables + {i}, if i in v.tables then v.free else v.free - 1) else v
    {
      hide WellFormed, Flat, UsedSet, PresentIn, Allocator.Available;
      PresentAfter(pd[..], i, pd[i]);
      if Present(pd[i]) {
        assert PresentIn(pd[..]) == PresentIn(pd[..]) + {i};
        return true;
      }
      ok := MakeTable(i);
    }

    /** A new table for a directory slot that has none. */
    method MakeTable(i: nat) returns (ok: bool)
      requires Valid() && i < ENTRIES && !Present(pd[i])
      modifies pd, ram, pmm`usedFrames, pmm.bitmap, this`pageTables
      ensures Valid() && Pages() == old(Pages()) && pmm.Drift() == old(pmm.Drift())
      ensures ok ==> Present(pd[i]) && forall k :: 0 <= k < ENTRIES && k != i ==> pd[k] == old(pd[k])
      ensures !ok ==> pd[..] == old(pd[..]) && ram[..] == old(ram[..]) && pmm.Used() == old(pmm.Used())
      ensures (ok <==> |old(pmm.Available())| > 0) && |pmm.Available()| == |old(pmm.Available())| - One(ok)
      ensures PresentIn(pd[..]) == if ok then old(PresentIn(pd[..])) + {i} else old(PresentIn(pd[..]))
    {
      hide WellFormed, Flat, UsedSet, PresentIn, Allocator.Available;
      ghost var d, m, used := pd[..], ram[..], pmm.Used();
      ghost var f;
      var addr;
      addr, f := pmm.AllocFrame();
      if addr == 0 { return false; }
      ghost var g := f.value;
      ZeroTable(addr / PAGE_SIZE);
      pd[i] := TableEntry(addr / PAGE_SIZE);
      pageTables := pageTables + 1;
      AddEmptyTable(d, m, ram[..], used, i, g);
      assert pd[..] == d[i := TableEntry(g)];
      EntryBits(g, 0);
      CountAfter(d, i, TableEntry(g));
      PresentAfter(d, i, TableEntry(g));
      ok := true;
    }

    /** page_directory[i] |= PTE_USER */
    method MarkUser(i: nat)
      requires Valid() && i < ENTRIES
      modifies pd
      ensures Valid() && State() == old(State()) && pd[i] == WithUser(old(pd[i]))
      ensures forall k :: 0 <= k < ENTRIES && k != i ==> pd[k] == old(pd[k])
    {
      hide WellFormed, Flat, UsedSet, PresentIn;
      ghost var d := pd[..];
      pd[i] := WithUser(pd[i]);
      MarkDirectory(d, ram[..], pmm.Used(), i);
      EntryBits(0, d[i]);
      CountAfter(d, i, WithUser(d[i]));
      PresentAfter(d, i, WithUser(d[i]));
      PresentAfter(d, i, d[i]);
      assert d[i := d[i]] == d;
      assert pd[..] == d[i := WithUser(d[i])];
    }

    /** pt[j] = q, where pt is the table of directory slot p / ENTRIES. */
    method WritePage(p: nat, q: u32)
      requires Valid() && p < PAGES && Present(pd[p / ENTRIES]) && (User(q) ==> User(pd[p / ENTRIES]))
      modifies ram
      ensures Valid() && State() == old(State()).(pages := old(Pages())[p := q])
      ensures UserAccess(pd[..], ram[..], p) <==> Present(q) && User(q)
      ensures UserWrites(pd[..], ram[..], p) <==> Present(q) && User(q) && Writable(q)
    {
      hide Flat, UsedSet, PresentIn, UserAccess, UserWrites, Present, User, Writable;
      ghost var m := ram[..];
      WriteEntry(pd[..], m, pmm.Used(), p, q);
      hide WellFormed;
      ram[Slot(pd[p / ENTRIES], p % ENTRIES)] := q;
      assert ram[..] == m[Slot(pd[p / ENTRIES], p % ENTRIES) := q];
      AccessIsFlat(pd[..], ram[..], pmm.Used(), p);
    }

    /** pt[j], where pt is the table of directory slot p / ENTRIES. */
    method ReadPage(p: nat) returns (q: u32)
      requires Valid() && p < PAGES && Present(pd[p / ENTRIES])
      ensures q == Pages()[p]
    {
      q := ram[Slot(pd[p / ENTRIES], p % ENTRIES)];
    }

    lemma PagesHaveTables()
      requires pd.Length == ENTRIES
      ensures forall p :: 0 <= p < PAGES && Present(Pages()[p]) ==> p / ENTRIES in State().tables
    {
      forall p | 0 <= p < PAGES && Present(Pages()[p]) ensures p / ENTRIES in PresentIn(pd[..]) {
        PresentHasTable(pd[..], ram[..], p);
      }
    }

    /** vmm_map: exactly one page changes, none when no page table can be had. */
    method Map(va: u32, pa: u32, flags: u32) returns (ok: bool)
      requires Valid()
      modifies this, pd, ram, pmm`usedFrames, pmm.bitmap
      ensures Valid() && pmm.Drift() == old(pmm.Drift())
      ensures Pages() == if ok then old(Pages())[va / PAGE_SIZE := PageEntry(pa, flags)] else old(Pages())
      ensures !ok <==>
                && !Present(old(pd[va / TABLE_SPAN]))
                && forall g: nat :: g < Scanned(pmm.totalFrames) ==> g in old(pmm.Used())
      ensures ok == Succeeds(old(State()), MapCall(va, pa, flags))
      ensures State() == VmStep(old(State()), MapCall(va, pa, flags))
      ensures forall p :: 0 <= p < PAGES && p / ENTRIES == va / TABLE_SPAN && Present(old(Pages())[p]) ==> ok
      ensures Surplus() ==
              old(Surplus()) + if ok then One(Present(old(Pages())[va / PAGE_SIZE])) + One(!Present(flags)) else 0
      ensures ok ==> (UserAccess(pd[..], ram[..], va / PAGE_SIZE) <==> Present(flags) && User(flags))
      ensures ok ==>
                (UserWrites(pd[..], ram[..], va / PAGE_SIZE) <==> Present(flags) && User(flags) && Writable(flags))
    {
      hide WellFormed, Flat, UsedSet, WithUser, PageEntry, PresentIn, Allocator.Available, UserAccess, UserWrites,
           Present, User, Writable;
      var i := va / TABLE_SPAN;
      PagesHaveTables();
      PresentAfter(pd[..], i, pd[i]);
      pmm.AvailableIs();
      ok := EnsureTable(i);
      if !ok { return; }
      PageEntryBits(pa, flags);
      EntryBits(0, pd[i]);
      if User(flags) { MarkUser(i); }
      assert va / PAGE_SIZE / ENTRIES == i;
      CountAfter(Pages(), va / PAGE_SIZE, PageEntry(pa, flags));
      WritePage(va / PAGE_SIZE, PageEntry(pa, flags));
      mappedPages := mappedPages + 1;
    }

    /** vmm_unmap. */
    method Unmap(va: u32) returns (ok: bool)
      requires Valid()
      modifies this`mappedPages, ram
      ensures Valid() && (ok <==> Present(old(Pages())[va / PAGE_SIZE]))
      ensures Pages() == if ok then old(Pages())[va / PAGE_SIZE := 0] else old(Pages())
      ensures ok == Succeeds(old(State()), UnmapCall(va)) && State() == VmStep(old(State()), UnmapCall(va))
      ensures old(Surplus()) >= 0 ==> Surplus() == old(Surplus())
    {
      hide WellFormed, UsedSet, PresentIn;
      var i, p := va / TABLE_SPAN, va / PAGE_SIZE;
      assert p / ENTRIES == i;
      if !Present(pd[i]) { return false; }
      var q := ReadPage(p);
      if !Present(q) { return false; }
      CountAfter(Pages(), p, 0);
      WritePage(p, 0);
      if mappedPages > 0 { mappedPages := mappedPages - 1; }
      ok := true;
    }

    /** vmm_set_user: even when it fails no page entry but the one asked for changes, so by
        AccessIsFlat no other page gains ring 3 access. */
    method SetUser(va: u32) returns (ok: bool)
      requires Valid()
      modifies pd, ram
      ensures Valid() && (ok <==> Present(old(Pages())[va / PAGE_SIZE]))
      ensures var p := va / PAGE_SIZE;
              Pages() == if ok then old(Pages())[p := WithUser(old(Pages())[p])] else old(Pages())
      ensures ok == Succeeds(old(State()), SetUserCall(va)) && State() == VmStep(old(State()), SetUserCall(va))
      ensures Surplus() == old(Surplus())
      ensures ok ==> UserAccess(pd[..], ram[..], va / PAGE_SIZE)
      ensures ok && Writable(old(Pages())[va / PAGE_SIZE]) ==> UserWrites(pd[..], ram[..], va / PAGE_SIZE)
    {
      hide WellFormed, UsedSet, WithUser, PresentIn, Flat, UserAccess, UserWrites;
      var i, p := va / TABLE_SPAN, va / PAGE_SIZE;
      assert p / ENTRIES == i;
      if !Present(pd[i]) { return false; }
      EntryBits(0, pd[i]);
      MarkUser(i);
      var q := ReadPage(p);
      if !Present(q) { return false; }
      EntryBits(0, q);
      CountAfter(Pages(), p, WithUser(q));
      WritePage(p, WithUser(q));
      ok := true;
    }

    /** vmm_is_mapped. */
    method IsMapped(va: u32) returns (mapped: bool)
      requires Valid()
      ensures mapped == Present(Pages()[va / PAGE_SIZE])
    {
      var i, p := va / TABLE_SPAN, va / PAGE_SIZE;
      assert p / ENTRIES == i;
      if !Present(pd[i]) { return false; }
      var q := ReadPage(p);
      mapped := Present(q);
    }

    /** vmm_get_physical: the page's frame with the offset of the address, 0 when unmapped. */
    method GetPhysical(va: u32) returns (pa: u32)
      requires Valid()
      ensures var q := Pages()[va / PAGE_SIZE];
              if Present(q) then pa / PAGE_SIZE == FrameOf(q) && pa % PAGE_SIZE == va % PAGE_SIZE else pa == 0
    {
      var i, p := va / TABLE_SPAN, va / PAGE_SIZE;
      assert p / ENTRIES == i;
      if !Present(pd[i]) { return 0; }
      var q := ReadPage(p);
      if !Present(q) { return 0; }
      pa := q - q % PAGE_SIZE + va % PAGE_SIZE;
    }

    /** The inner loop of vmm_init: table `i` of the identity map, written into frame `f`. */
    method FillIdentity(i: nat, f: nat)
      requires i < ENTRIES && f < PAGES && (f + 1) * ENTRIES <= ram.Length
      modifies ram
      ensures SameButFrame(old(ram[..]), ram[..], f)
      ensures HoldsIdentity(ram[..], f, i)
      ensures forall j :: 0 <= j < ENTRIES ==>
                var q := ram[WordOf(f, j)];
                Present(q) && Writable(q) && !User(q) && FrameOf(q) == i * ENTRIES + j
    {
      var j := 0;
      while j < ENTRIES
        invariant j <= ENTRIES && SameButFrame(old(ram[..]), ram[..], f)
        invariant forall k :: 0 <= k < j ==> ram[WordOf(f, k)] == IdentityEntry(i * ENTRIES + k)
      {
        ram[f * ENTRIES + j] := IdentityEntry(i * ENTRIES + j);
        j := j + 1;
      }
      forall j | 0 <= j < ENTRIES
        ensures var q := ram[WordOf(f, j)];
                Present(q) && Writable(q) && !User(q) && FrameOf(q) == i * ENTRIES + j
      {
        IdentityBits(i * ENTRIES + j);
      }
    }

    /** One round of vmm_init's outer loop. */
    method AddIdentity(i: nat) returns (ok: bool)
      requires Valid() && i < ENTRIES && !Present(pd[i]) && Pages() == Identity(i)
      modifies pd, ram, pmm`usedFrames, pmm.bitmap, this`pageTables
      ensures Valid() && Pages() == Identity(if ok then i + 1 else i) && pmm.Drift() == old(pmm.Drift())
      ensures forall k :: 0 <= k < ENTRIES && k != i ==> pd[k] == old(pd[k])
      ensures !ok ==> forall g: nat :: g < Scanned(pmm.totalFrames) ==> g in pmm.Used()
      ensures (ok <==> |old(pmm.Available())| > 0) && |pmm.Available()| == |old(pmm.Available())| - One(ok)
      ensures old(pmm.Used()) <= pmm.Used()
    {
      hide WellFormed, Flat, UsedSet, Identity, PresentIn, Allocator.Available;
      ghost var d, m, used := pd[..], ram[..], pmm.Used();
      ghost var f;
      var addr;
      addr, f := pmm.AllocFrame();
      if addr == 0 { return false; }
      FillIdentity(i, addr / PAGE_SIZE);
      pd[i] := TableEntry(addr / PAGE_SIZE);
      pageTables := pageTables + 1;
      AddIdentityTable(d, m, ram[..], used, i, f.value);
      assert pd[..] == d[i := TableEntry(f.value)];
      EntryBits(f.value, 0);
      CountAfter(d, i, TableEntry(f.value));
      ok := true;
    }

    /** vmm_init on the zeroed directory: the identity map of the first DirectoryCount * 4 MiB, or as
        many tables of it as there were frames for. */
    method Init() returns (ok: bool, ghost tables: nat)
      requires Valid() && pd[..] == seq(ENTRIES, _ => 0)
      modifies this, pd, ram, pmm`usedFrames, pmm.bitmap
      ensures Valid() && pmm.Drift() == old(pmm.Drift())
      ensures Pages() == Identity(tables) && (ok <==> tables == DirectoryCount(pmm.totalMemory))
      ensures MapsToItself(Pages(), tables)
      ensures ok ==> Surplus() == 0
      ensures (ok <==> |old(pmm.Available())| >= DirectoryCount(pmm.totalMemory)) && old(pmm.Used()) <= pmm.Used()
      ensures !ok ==> tables < DirectoryCount(pmm.totalMemory)
      ensures !ok ==> forall g: nat :: g < Scanned(pmm.totalFrames) ==> g in pmm.Used()
    {
      hide WellFormed, Flat, UsedSet, Identity, PresentIn, Allocator.Available, DirectoryCount, MapsToItself;
      NothingMapped(pd[..], ram[..]);
      var n := DirectoryCount(pmm.totalMemory);
      var i := 0;
      tables := 0;
      while i < n
        invariant i <= n && tables == i && Valid() && pmm.Drift() == old(pmm.Drift())
        invariant Pages() == Identity(i) && forall k :: i <= k < ENTRIES ==> !Present(pd[k])
        invariant |pmm.Available()| == |old(pmm.Available())| - i && old(pmm.Used()) <= pmm.Used()
      {
        ok := AddIdentity(i);
        IdentityMapsToItself(i);
        if !ok { return; }
        i := i + 1;
        tables := i;
      }
      mappedPages := n * ENTRIES;
      IdentityCount(n);
      IdentityMapsToItself(n);
      ok := true;
    }

    method Perform(c: VmCall) returns (ok: bool)
      requires Valid()
      modifies this, pd, ram, pmm`usedFrames, pmm.bitmap
      ensures Valid() && pmm.Drift() == old(pmm.Drift()) && (old(Surplus()) >= 0 ==> Surplus() >= old(Surplus()))
      ensures ok == Succeeds(old(State()), c) && State() == VmStep(old(State()), c)
    {
      hide WellFormed, Flat, UsedSet, PresentIn, Allocator.Available, Succeeds, VmStep;
      match c
      case MapCall(va, pa, flags) => ok := Map(va, pa, flags);
      case UnmapCall(va) => ok := Unmap(va);
      case SetUserCall(va) => ok := SetUser(va);
    }

    /** Every run of map, unmap and set_user acts on the two-level tables as on one flat map, which decides
        what succeeds; the frame counter keeps its distance from the frames in use, and mapped_pages stays an
        upper bound on the present pages. */
    method Run(cs: seq<VmCall>) returns (oks: seq<bool>)
      requires Valid()
      modifies this, pd, ram, pmm`usedFrames, pmm.bitmap
      ensures Valid() && State() == VmRun(old(State()), cs)
      ensures |oks| == |cs| && forall i :: 0 <= i < |cs| ==> oks[i] == Succeeds(VmRun(old(State()), cs[..i]), cs[i])
      ensures pmm.Drift() == old(pmm.Drift()) && (old(Surplus()) >= 0 ==> Surplus() >= old(Surplus()))
    {
      hide WellFormed, Flat, UsedSet, PresentIn, Allocator.Available, Succeeds, VmStep;
      oks := [];
      var i := 0;
      while i < |cs|
        invariant i == |oks| <= |cs| && Valid() && State() == VmRun(old(State()), cs[..i])
        invariant forall j :: 0 <= j < i ==> oks[j] == Succeeds(VmRun(old(State()), cs[..j]), cs[j])
        invariant pmm.Drift() == old(pmm.Drift()) && (old(Surplus()) >= 0 ==> Surplus() >= old(Surplus()))
      {
        var ok := Perform(cs[i]);
        assert cs[..i + 1][..i] == cs[..i];
        oks := oks + [ok];
        i := i + 1;
      }
      assert cs[..i] == cs;
    }
  }
}
