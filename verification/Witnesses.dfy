/** Inputs on which the code does less than it seems to: for every exact condition stated elsewhere, calls
    that fail it. */
module Witnesses {
  import opened Words
  import HeapBlocks
  import HeapLinks
  import KernelHeap
  import FrameAllocator
  import Paging
  import UserMemory
  import FileTree
  import FileRuns
  import FileSystem
  import Paths
  import Ramfs

  // ---------------------------------------------------------------- heap

  /** A request that leaves no free block makes heap_get_stats report more used than there is, and a wrapped
      number of free bytes. */
  method FullHeap() returns (total: u32, used: u32, free: u32)
    ensures used == total + HeapBlocks.HDR && free == TWO32 - HeapBlocks.HDR
  {
    hide HeapLinks.Chain, HeapLinks.Magics, HeapBlocks.LiveBytes, HeapBlocks.Canonical, KernelHeap.Allocated;
    var n: u32 := HeapLinks.HEAP_INITIAL - HeapBlocks.HDR;
    var h := new KernelHeap.Heap();
    ghost var bs := h.blocks;
    assert HeapBlocks.Gap(bs, HeapLinks.HEAP_START, HeapLinks.HEAP_END, HeapLinks.HEAP_START, KernelHeap.Round8(n));
    ghost var k;
    var p;
    p, k := h.Kmalloc(n);
    assert k == 0 && h.blocks == HeapBlocks.Taken(bs[0], n) == [bs[0].(free := false)];
    total, used, free := h.GetStats();
  }

  /** A request within 7 bytes of 2^32 is granted, with at most 24 bytes. */
  method WrappedRequest() returns (h: KernelHeap.Heap, p: u32, ghost k: nat)
    ensures p != 0 && h.Valid() && KernelHeap.LiveAt(h.blocks, k, p) && h.blocks[k].size <= 24
  {
    h := new KernelHeap.Heap();
    assert HeapBlocks.Gap(h.blocks, HeapLinks.HEAP_START, HeapLinks.HEAP_END, HeapLinks.HEAP_START, 0);
    assert KernelHeap.Round8(0xFFFF_FFFF) == 0;
    p, k := h.Kmalloc(0xFFFF_FFFF);
  }

  // ---------------------------------------------------------------- frames

  /** The frames in use after pmm_init on one region of `total` frames that starts at 0. */
  lemma OneRegion(total: nat)
    requires 0 < total < 0x1_0000_0000
    ensures var rs := [FrameAllocator.Region(0, total * FrameAllocator.FRAME_SIZE, true)];
            && FrameAllocator.TotalLength(rs) == total * FrameAllocator.FRAME_SIZE
            && FrameAllocator.Highest(rs) == total * FrameAllocator.FRAME_SIZE
            && FrameAllocator.AvailableFrames(rs) == FrameAllocator.Span(0, total) && FrameAllocator.FrameDisjoint(rs)
  {
    var r := FrameAllocator.Region(0, total * FrameAllocator.FRAME_SIZE, true);
    var rs := [r];
    assert rs[..0] == [] && r.End() == total * FrameAllocator.FRAME_SIZE;
    assert r.Frames() == FrameAllocator.Span(0, total);
    assert FrameAllocator.AvailableFrames(rs) == FrameAllocator.AvailableFrames(rs[..0]) + r.Frames();
    assert FrameAllocator.Highest(rs[..0]) == 0 && FrameAllocator.TotalLength(rs[..0]) == 0;
  }

  /** The bitmap lies behind the kernel, which is loaded at 1 MiB. */
  const BITMAP_AT := 0x20_0000

  /** An allocator of `total` frames of which those below `taken` are in use. */
  method Frames(total: nat, taken: nat) returns (pmm: FrameAllocator.Allocator)
    requires 0 < total < 0x1_0000_0000
    requires FrameAllocator.LastReserved(BITMAP_AT + FrameAllocator.BitmapBytes(total)) < taken <= total
    ensures fresh(pmm) && fresh(pmm.bitmap) && pmm.Valid() && pmm.totalFrames == total && pmm.Drift() == 0
    ensures pmm.Used() == FrameAllocator.Span(0, taken)
    ensures pmm.totalMemory == total * FrameAllocator.FRAME_SIZE
  {
    hide FrameAllocator.FrameDisjoint, FrameAllocator.ByteDisjoint, FrameAllocator.AvailableFrames,
         FrameAllocator.Highest, FrameAllocator.Allocator.Used, FrameAllocator.Allocator.Drift,
         FrameAllocator.IsBeyond, FrameAllocator.TotalLength;
    pmm := new FrameAllocator.Allocator();
    OneRegion(total);
    pmm.Init([FrameAllocator.Region(0, total * FrameAllocator.FRAME_SIZE, true)], BITMAP_AT);
    assert pmm.totalFrames == total by { FrameAllocator.FrameOfAddr(total); }
    Reserved(total, FrameAllocator.LastReserved(BITMAP_AT + FrameAllocator.BitmapBytes(total)) + 1, taken);
    FrameAllocator.FrameOfAddr(taken - 1);
    assert FrameAllocator.LastReserved((taken - 1) * FrameAllocator.FRAME_SIZE) == taken - 1;
    hide FrameAllocator.Span, FrameAllocator.LastReserved, FrameAllocator.BitmapBytes, FrameAllocator.FrameTotal;
    pmm.ReserveRegion(0, (taken - 1) * FrameAllocator.FRAME_SIZE);
  }

  lemma Reserved(total: nat, a: nat, taken: nat)
    requires a <= taken <= total
    ensures var s := FrameAllocator.Span(0, total);
            s - s + (FrameAllocator.Span(0, a) * s) + (FrameAllocator.Span(0, taken) * s) ==
            FrameAllocator.Span(0, taken)
  {
  }

  /** With 0x408 frames, of which the first 0x400 are in use, pmm_alloc_frame finds none; pmm_alloc_frames
      does. */
  method TailFramesAreLost() returns (one: nat, run: nat)
    ensures one == 0 && run == 0x400 * FrameAllocator.FRAME_SIZE
  {
    var pmm := Frames(0x408, 0x400);
    ghost var f, s;
    assert forall g: nat :: g < FrameAllocator.Scanned(0x408) ==> g in FrameAllocator.Span(0, 0x400);
    one, f := pmm.AllocFrame();
    ghost var ws := pmm.bitmap[..];
    FrameAllocator.InUsedSet(ws, 0x408);
    assert FrameAllocator.FreeRun(ws, 0x408, 0x400, 1);
    run, s := pmm.AllocFrames(1);
    assert s.value !in FrameAllocator.Span(0, 0x400);
  }

  /** Reserving one page takes the next one too. */
  method ReservesTheNextFrame() returns (pmm: FrameAllocator.Allocator)
    ensures pmm.Valid() && pmm.Used() == FrameAllocator.Span(0, 0x400) + {0x402, 0x403}
  {
    pmm := Frames(0x408, 0x400);
    TwoFrames();
    assert FrameAllocator.LastReserved(0x403 * FrameAllocator.FRAME_SIZE) == 0x403;
    hide FrameAllocator.Span, FrameAllocator.LastReserved, FrameAllocator.IsBeyond, FrameAllocator.Allocator.Used;
    pmm.ReserveRegion(0x402 * FrameAllocator.FRAME_SIZE, 0x403 * FrameAllocator.FRAME_SIZE);
  }

  lemma TwoFrames()
    ensures FrameAllocator.Span(0x402, 0x404) * FrameAllocator.Span(0, 0x408) == {0x402, 0x403}
  {
  }

  /** Two available regions that share a frame make the counter wrong. */
  method OverlapMiscounts() returns (pmm: FrameAllocator.Allocator)
    ensures pmm.Valid() && pmm.Drift() != 0
  {
    var r1 := FrameAllocator.Region(0x10_0000, 0x100_0000, true);
    var r2 := FrameAllocator.Region(0x80_0000, 0x100_0000, true);
    var rs := [r1, r2];
    assert 0x800 in r1.Frames() && 0x800 in r2.Frames() && rs[0] == r1 && rs[1] == r2;
    assert !FrameAllocator.FrameDisjoint(rs);
    pmm := new FrameAllocator.Allocator();
    pmm.Init(rs, BITMAP_AT);
  }

  /** A usual map: the reserved region below 4 GiB does not count. */
  method ReservedTopDoesNotCount() returns (pmm: FrameAllocator.Allocator)
    ensures pmm.Valid() && pmm.highestAddress == 0x800_0000 && pmm.totalMemory == 0x7F0_0000
    ensures pmm.totalFrames == 0x8000 && 4 * pmm.bitmap.Length == 0x1000
  {
    hide FrameAllocator.TotalLength, FrameAllocator.Highest, FrameAllocator.FrameDisjoint, FrameAllocator.ByteDisjoint,
         FrameAllocator.AvailableFrames, FrameAllocator.Allocator.Used, FrameAllocator.Allocator.Drift,
         FrameAllocator.Span, FrameAllocator.IsTop;
    var rs := [FrameAllocator.Region(0x10_0000, 0x7F0_0000, true),
               FrameAllocator.Region(0xFFFC_0000, 0x4_0000, false)];
    UsualMap(rs);
    pmm := new FrameAllocator.Allocator();
    pmm.Init(rs, BITMAP_AT);
  }

  lemma UsualMap(rs: seq<FrameAllocator.Region>)
    requires rs == [FrameAllocator.Region(0x10_0000, 0x7F0_0000, true),
                    FrameAllocator.Region(0xFFFC_0000, 0x4_0000, false)]
    ensures FrameAllocator.TotalLength(rs) == 0x7F0_0000
    ensures forall h: nat :: FrameAllocator.IsTop(rs, h) ==> h == 0x800_0000
  {
    FrameAllocator.TotalIsSum(rs[..1], rs[1..], rs[0]);
    FrameAllocator.TotalIsSum(rs[..1], rs[1..], rs[1]);
    assert rs[..1] == [rs[0]] && rs[1..] == [rs[1]] && rs == rs[..1] + rs[1..];
    assert rs[0].available && (rs[0].base + rs[0].len) % Words.TWO64 == 0x800_0000;
  }

  /** A run of 2^20 + 1 frames is not freed: its last frame stays in use. */
  method LongRunIsNotFreed() returns (pmm: FrameAllocator.Allocator, got: bool)
    ensures got && pmm.usedFrames == 0x301
  {
    ghost var total, taken, count := 0x10_0400, 0x300, 0x10_0001;
    pmm := Frames(0x10_0400, 0x300);
    FrameAllocator.SpanSize(0, taken);
    ghost var ws := pmm.bitmap[..];
    FrameAllocator.InUsedSet(ws, total);
    assert 0 in pmm.Used();
    assert FrameAllocator.FreeRun(ws, total, taken, count) by {
      forall g: nat | taken <= g < taken + count ensures !FrameAllocator.Taken(ws, g) {
        assert g !in FrameAllocator.Span(0, taken);
      }
    }
    got := pmm.AllocThenFree(0x10_0001);
  }

  // ---------------------------------------------------------------- paging

  /** Less than 4 MiB in two regions, with the usual hole below 1 MiB: one table, and the top is not mapped. */
  lemma HoleLeavesMemoryOut()
    ensures var rs := [FrameAllocator.Region(0, 0x9_FC00, true), FrameAllocator.Region(0x10_0000, 0x34_0000, true)];
            Paging.TablesFor(rs) == 1 && !Paging.CoversMemory(Paging.Identity(Paging.TablesFor(rs)), rs)
  {
    var r1, r2 := FrameAllocator.Region(0, 0x9_FC00, true), FrameAllocator.Region(0x10_0000, 0x34_0000, true);
    var rs := [r1, r2];
    assert rs[..1] == [r1] && rs[..1][..0] == [];
    assert FrameAllocator.TotalLength([]) == 0 && FrameAllocator.TotalLength([r1]) == 0x9_FC00 &&
           FrameAllocator.TotalLength(rs) == 0x3D_FC00;
    assert r1.End() == 0x9_FC00 && r2.End() == 0x44_0000 && r2.FrameCount() == 0x340;
    assert FrameAllocator.HighestFrame(rs) >= 0x440;
    Paging.IdentityCoversIff(rs);
  }

  /** More than 0xFFC00000 bytes: the rounding wraps, and one table is made. */
  lemma MuchMemoryIsNotMapped()
    ensures var rs := [FrameAllocator.Region(0, 0xFFC0_1000, true)];
            Paging.TablesFor(rs) == 1 && !Paging.CoversMemory(Paging.Identity(Paging.TablesFor(rs)), rs)
  {
    var r := FrameAllocator.Region(0, 0xFFC0_1000, true);
    var rs := [r];
    assert rs[..0] == [] && FrameAllocator.TotalLength([]) == 0 && FrameAllocator.HighestFrame([]) == 0;
    assert FrameAllocator.TotalLength(rs) == 0xFFC0_1000 && r.End() == 0xFFC0_1000 && r.FrameCount() == 0xF_FC01;
    assert FrameAllocator.HighestFrame(rs) == 0xF_FC01;
    Paging.TablesSpanTotal(0xFFC0_1000);
    Paging.IdentityCoversIff(rs);
  }

  /** The address space vmm_init makes for 8 MiB of memory. */
  method SmallMap() returns (vm: Paging.PageMap)
    ensures fresh(vm) && vm.Valid() && fresh(vm.pd) && fresh(vm.ram) && fresh(vm.pmm) && fresh(vm.pmm.bitmap)
    ensures vm.Pages() == Paging.Identity(2) && vm.Surplus() == 0
  {
    hide Paging.WellFormed, Paging.Flat, Paging.PresentIn, Paging.Identity, FrameAllocator.UsedSet;
    var pmm := Frames(0x800, 0x300);
    assert 0 in pmm.Used();
    assert pmm.Available() == FrameAllocator.Span(0x300, 0x800);
    FrameAllocator.SpanSize(0x300, 0x800);
    vm := new Paging.PageMap(pmm);
    assert Paging.DirectoryCount(0x80_0000) == 2;
    var ok, tables := vm.Init();
  }

  /** Mapping a page that is mapped already counts it twice. */
  method RemapCountsTwice() returns (vm: Paging.PageMap, ok: bool)
    ensures vm.Valid() && ok && vm.Surplus() == 1
  {
    hide Paging.WellFormed, Paging.Flat, Paging.PresentIn, Paging.PageEntry, Paging.Succeeds, Paging.VmStep,
         FrameAllocator.UsedSet;
    vm := SmallMap();
    Paging.IdentityBits(0x400);
    assert Paging.Present(vm.Pages()[0x400]);
    ok := vm.Map(0x40_0000, 0x40_0000, 3);
  }

  /** The two stacks of the first user task on a fresh heap. */
  method FirstUserStack() returns (ustack: u32)
    ensures ustack == 0x20_1020
  {
    hide HeapLinks.Chain, HeapLinks.Magics, HeapBlocks.LiveBytes, HeapBlocks.Canonical, KernelHeap.Allocated,
         KernelHeap.Snug;
    var heap := new KernelHeap.Heap();
    ghost var bs := heap.blocks;
    assert HeapBlocks.Gap(bs, HeapLinks.HEAP_START, HeapLinks.HEAP_END, 0x20_0000, KernelHeap.Round8(4096));
    ghost var j, k;
    var kstack;
    kstack, j := heap.Kmalloc(4096);
    ghost var b, c := HeapBlocks.Block(0x20_0000, 4096, false), HeapBlocks.Block(0x20_1010, 0xF_EFE0, true);
    assert j == 0 && heap.blocks == HeapBlocks.Taken(bs[0], 4096) == [b, c];
    assert HeapBlocks.LiveSet([b, c]) == {b};
    assert HeapBlocks.Gap([b, c], HeapLinks.HEAP_START, HeapLinks.HEAP_END, 0x20_1010, KernelHeap.Round8(4096));
    ustack, k := heap.Kmalloc(4096);
    assert k == 1;
  }

  /** Its top lies in a page that stays closed to ring 3: its first push faults. */
  method UserStackStaysClosed() returns (vm: Paging.PageMap, ustack: u32)
    ensures vm.Valid() && ustack == 0x20_1020 && vm.pd.Length == Paging.ENTRIES
    ensures !Paging.UserWrites(vm.pd[..], vm.ram[..], (ustack + 4096 - 4) / Paging.PAGE_SIZE)
  {
    hide Paging.WellFormed, Paging.Flat, Paging.PresentIn, Paging.Identity, FrameAllocator.UsedSet;
    ustack := FirstUserStack();
    vm := SmallMap();
    Paging.IdentityMapsToItself(2);
    UserMemory.OpenToUser(vm, ustack, 0x10_0000);
  }

  // ---------------------------------------------------------------- files

  function Letters(n: nat): string { seq(n, _ => 'a') }

  /** The path of a new node with a 64-character name does not lead to it. */
  method LongNameIsNotFound() returns (v: FileSystem.Vfs, node: FileTree.Node?)
    ensures v.Valid() && node != null && v.Target("/" + Letters(64)) != node
  {
    v := new FileSystem.Vfs();
    var path := "/" + Letters(64);
    RootHasRoom(v.tree, v.root, path);
    node := v.CreateAt(path, false, true, true);
    ghost var k: nat :| FileTree.CreatedAt(map[v.root := []], v.tree, v.root, path, k, node)
                        && (v.Target(path) == node <==> |path| - (k + 1) < Paths.NAME_MAX);
    assert path[0] == '/';
    FileTree.OneLastSlash(path, 0, k);
  }

  lemma RootHasRoom(t: FileTree.Tree, root: FileTree.Node, path: string)
    requires t == map[root := []] && root.isDir && |path| > 1 && path[0] == '/' && '/' !in path[1..]
    ensures FileTree.RoomAt(t, root, path, 0) && FileRuns.CanCreate(t, root, path) && Paths.LastSlash(path, 0)
  {
    assert forall j :: 0 < j < |path| ==> path[j] == path[1..][j - 1];
    assert path[..0] == [] && Paths.Components([]) == [];
    assert FileTree.RoomAt(t, root, path, 0);
  }

  /** "/f" is a file of this system with these bytes. */
  ghost predicate Holds(v: FileSystem.Vfs, node: FileTree.Node, c: seq<byte>)
    reads v
  {
    v.Target("/f") == node && node in v.tree && node in v.bytes && node.file != null && v.bytes[node] == c
  }

  /** A file system with one empty file, "/f". */
  method EmptyFile() returns (v: FileSystem.Vfs, ghost node: FileTree.Node)
    ensures fresh(v) && v.Valid() && fresh(v.Repr()) && Holds(v, node, []) && AllFree(v)
  {
    v := new FileSystem.Vfs();
    hide FileTree.TreeOk, FileSystem.FilesOk, FileTree.Walk, FileRuns.CanCreate, FileTree.CreatedAt;
    ghost var t := v.tree;
    RootHasRoom(t, v.root, "/f");
    var made := v.CreateAt("/f", false, true, true);
    node := made;
    ghost var k: nat :| FileTree.CreatedAt(t, v.tree, v.root, "/f", k, node);
    FoundAgain(t, v.tree, v.root, "/f", k, node);
  }

  ghost predicate AllFree(v: FileSystem.Vfs)
    reads v
  {
    |v.fds| == FileTree.MAX_FDS && forall i :: 0 <= i < |v.fds| ==> !v.fds[i].used
  }

  /** Opens "/f" when no descriptor is in use. */
  method OpenFile(v: FileSystem.Vfs, trunc: bool, append: bool, ghost node: FileTree.Node, ghost c: seq<byte>)
    returns (fd: int)
    requires v.Valid() && Holds(v, node, c) && AllFree(v)
    modifies v.Repr()
    ensures v.Valid() && fresh(v.Repr() - old(v.Repr())) && fd == 0 && v.tree == old(v.tree) && v.root == old(v.root)
    ensures v.fds == old(v.fds)[0 := FileTree.Fd(node, if append then |c| else 0, true)]
    ensures Holds(v, node, if trunc then [] else c) && node.file.data == old(node.file.data) &&
            forall i: nat :: node.file.At(i) == old(node.file.At(i))
  {
    hide FileTree.TreeOk, FileSystem.FilesOk, FileTree.Walk, FileRuns.CanCreate, FileTree.CreatedAt;
    v.PayloadsInRepr();
    ghost var again;
    fd, again := v.Open("/f", false, trunc, append, true, true);
    assert again == node && !old(v.fds)[0].used;
  }

  /** Writes a byte through descriptor 0, which alone is in use. */
  method WriteByte(v: FileSystem.Vfs, x: byte, ghost node: FileTree.Node, ghost c: seq<byte>, ghost off: nat)
    requires v.Valid() && Holds(v, node, c) && v.fds[0] == FileTree.Fd(node, off, true) && off < 9
    requires forall i :: 0 < i < |v.fds| ==> !v.fds[i].used
    modifies v.Repr()
    ensures v.Valid() && fresh(v.Repr() - old(v.Repr())) && v.tree == old(v.tree) && v.root == old(v.root)
    ensures v.fds == old(v.fds)[0 := v.fds[0]] && node in v.bytes &&
            |v.bytes[node]| == if off + 1 > |c| then off + 1 else |c|
    ensures forall i: nat :: node.file.At(i) == if i == off then x else old(node.file.At(i))
  {
    hide FileTree.TreeOk, FileSystem.FilesOk, FileTree.Walk, Ramfs.Splice;
    v.DescribesFile(0);
    assert FileRuns.Usable(v.State(), 0);
    hide FileRuns.Does;
    ghost var s := v.State();
    var n := v.Write(0, [x], true);
    WriteMeans(v.root, s, 0, [x], FileRuns.Reply(n, [], null), v.State());
  }

  /** What a successful write does, spelled out. */
  lemma WriteMeans(root: FileTree.Node?, s: FileRuns.Fs, fd: int, buf: seq<byte>, r: FileRuns.Reply, s': FileRuns.Fs)
    requires FileRuns.Does(root, s, FileRuns.WriteCall(fd, buf, true), r, s') && r.code >= 0
    ensures FileRuns.Usable(s, fd) && r.code == |buf| && s'.tree == s.tree && |s'.fds| == |s.fds|
    ensures s'.fds == s.fds[fd := s'.fds[fd]] && s.fds[fd].node in s'.bytes
    ensures var n, off := s.fds[fd].node, s.fds[fd].offset;
            |s'.bytes[n]| == if off + |buf| > |s.bytes[n]| then off + |buf| else |s.bytes[n]|
  {
  }

  /** Writes a byte through descriptor 0 and closes it. */
  method WriteAndClose(v: FileSystem.Vfs, x: byte, ghost node: FileTree.Node, ghost c: seq<byte>, ghost off: nat)
    requires v.Valid() && Holds(v, node, c) && v.fds[0] == FileTree.Fd(node, off, true) && off < 9
    requires forall i :: 0 < i < |v.fds| ==> !v.fds[i].used
    modifies v.Repr()
    ensures v.Valid() && fresh(v.Repr() - old(v.Repr())) && AllFree(v)
    ensures v.Target("/f") == node && node in v.tree && node in v.bytes &&
            |v.bytes[node]| == if off + 1 > |c| then off + 1 else |c|
    ensures forall i: nat :: node.file.At(i) == if i == off then x else old(node.file.At(i))
  {
    hide FileTree.TreeOk, FileSystem.FilesOk, FileTree.Walk;
    WriteByte(v, x, node, c, off);
    var ok := v.Close(0);
  }

  /** The first two bytes of the file, read through a new descriptor. */
  method ReadBack(v: FileSystem.Vfs, ghost node: FileTree.Node) returns (data: seq<byte>)
    requires v.Valid() && v.Target("/f") == node && node in v.tree && node in v.bytes && |v.bytes[node]| == 2
    requires AllFree(v)
    modifies v.Repr()
    ensures data == [old(node.file.At(0)), old(node.file.At(1))]
  {
    hide FileTree.TreeOk, FileSystem.FilesOk, FileTree.Walk, FileRuns.CanCreate, FileTree.CreatedAt;
    v.FileOf(node);
    assert v.bytes[node] == [node.file.At(0), node.file.At(1)];
    var r;
    ghost var c := v.bytes[node];
    var fd := OpenFile(v, false, false, node, c);
    r := v.Read(fd, 2);
    data := r.GetOr([]);
    assert c[0..2] == c;
  }

  /** A file of one byte; O_TRUNC | O_APPEND and a write of another: the byte truncated away is back. */
  method StaleByteComesBack() returns (data: seq<byte>)
    ensures data == [7, 9] && data != Ramfs.Splice([], 1, [9])
  {
    hide FileTree.TreeOk, FileSystem.FilesOk, FileTree.Walk;
    ghost var node;
    var v;
    v, node := EmptyFile();
    var fd := OpenFile(v, false, false, node, []);
    WriteAndClose(v, 7, node, [], 0);
    v.FileOf(node);
    fd := OpenFile(v, true, true, node, v.bytes[node]);
    WriteAndClose(v, 9, node, [], 1);
    data := ReadBack(v, node);
    assert Ramfs.Splice([], 1, [9])[0] == 0;
  }

  lemma FoundAgain(t: FileTree.Tree, t': FileTree.Tree, root: FileTree.Node, path: string, k: nat, node: FileTree.Node)
    requires t == map[root := []] && root.isDir && path == "/f" && FileTree.CreatedAt(t, t', root, path, k, node) &&
             node !in t
    ensures FileRuns.TargetIn(t', root, path) == node
  {
    FileTree.TargetOfNew(t, root, FileTree.Walk(t, root, Paths.Components(path[..k])), node, path, k);
  }
}
