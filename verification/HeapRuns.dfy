/** The heap as clients see it: a map from live pointers to the bytes behind them; what each call does to
    it, and what holds over every run. */
module HeapRuns {
  import opened Words
  import opened HeapBlocks
  import opened HeapLinks
  import opened KernelHeap

  /** The payload behind every live pointer. */
  type Memory = map<int, seq<byte>>

  datatype Op =
    | Malloc(n: u32)
    | Zalloc(n: u32)
    | Free(p: u32)
    | Realloc(p: u32, n: u32)
    | Store(p: u32, i: nat, v: byte)

  /** What the heap demands of its clients: only live pointers, and sizes whose rounding does not wrap where
      the call itself fills the memory. */
  predicate Legal(h: Memory, op: Op) {
    match op
    case Malloc(_) => true
    case Zalloc(n) => n <= 0xFFFF_FFF8
    case Free(p) => p == 0 || p in h
    case Realloc(p, n) => n <= 0xFFFF_FFF8 && (p == 0 || p in h)
    case Store(p, i, _) => p in h && i < |h[p]|
  }

  /** A header and `n` bytes at `x` touch no allocation and no header of one. */
  ghost predicate Room(h: Memory, x: int, n: int) {
    HEAP_START <= x && x + HDR + n <= HEAP_END && forall p :: p in h ==> x + HDR + n <= p - HDR || p + |h[p]| <= x
  }

  /** `r` is a new pointer at the lowest place with room, and `h'` has it besides the allocations of `h`. */
  ghost predicate Placed(h: Memory, n: u32, r: u32, h': Memory) {
    && r !in h && r in h' && r % 8 == 0 && Round8(n) <= |h'[r]| <= Round8(n) + 24
    && Room(h, r - HDR, |h'[r]|) && (forall x :: Room(h, x, Round8(n)) ==> r - HDR <= x)
  }

  /** kmalloc: null exactly for 0 bytes or when there is no room anywhere. */
  ghost predicate Allocates(h: Memory, n: u32, r: u32, h': Memory) {
    && (r == 0 <==> n == 0 || forall x :: !Room(h, x, Round8(n)))
    && (r == 0 ==> h' == h)
    && (r != 0 ==> Placed(h, n, r, h') && h' == h[r := h'[r]])
  }

  /** krealloc of a live pointer to more than it has: null and nothing changed, or a move. */
  ghost predicate Moves(h: Memory, p: u32, n: u32, r: u32, h': Memory)
    requires p in h
  {
    && (r == 0 <==> forall x :: !Room(h, x, Round8(n)))
    && (r == 0 ==> h' == h)
    && (r != 0 ==> Placed(h, n, r, h') && h' == (h - {p})[r := h'[r]] && |h[p]| <= |h'[r]| && h'[r][..|h[p]|] == h[p])
  }

  /** What a call may do. */
  ghost predicate Does(h: Memory, op: Op, r: u32, h': Memory)
    requires Legal(h, op)
  {
    match op
    case Malloc(n) => Allocates(h, n, r, h')
    case Zalloc(n) => Allocates(h, n, r, h') && (r != 0 ==> n <= |h'[r]| && h'[r][..n] == Zeros(n))
    case Free(p) => r == 0 && h' == h - {p}
    case Realloc(p, n) =>
      if p == 0 then Allocates(h, n, r, h')
      else if n == 0 then r == 0 && h' == h - {p}
      else if n <= |h[p]| then r == p && h' == h
      else Moves(h, p, n, r, h')
    case Store(p, i, v) =>
      var c: seq<byte> := h[p];
      r == 0 && h' == h[p := c[i := v]]
  }

  // ---------------------------------------------------------------- runs

  /** Allocations are aligned, in the region, and apart from one another's bytes and headers. */
  ghost predicate Apart(h: Memory) {
    && (forall p :: p in h ==> p % 8 == 0 && HEAP_START <= p - HDR && p + |h[p]| <= HEAP_END)
    && (forall p, q :: p in h && q in h && p != q ==> p + |h[p]| <= q - HDR || q + |h[q]| <= p - HDR)
  }

  lemma StepKeepsApart(h: Memory, op: Op, r: u32, h': Memory)
    requires Legal(h, op) && Does(h, op, r, h') && Apart(h) && 0 !in h
    ensures Apart(h') && 0 !in h'
  {
    hide Round8;
    if r !in h && r in h' { PlacedIsApart(h, r, h'); }
  }

  /** A pointer placed where there is room is apart from all others. */
  lemma PlacedIsApart(h: Memory, r: u32, h': Memory)
    requires Apart(h) && r in h' && r % 8 == 0 && Room(h, r - HDR, |h'[r]|)
    requires forall p :: p in h' && p != r ==> p in h && h'[p] == h[p]
    ensures Apart(h')
  {
  }

  /** A client: the next call, given the answers so far. */
  type Client = seq<u32> -> Op

  /** The heap goes through the states `hs` while it answers `rs` to the client. */
  ghost predicate IsRun(client: Client, hs: seq<Memory>, rs: seq<u32>) {
    |hs| == |rs| + 1 && forall i :: 0 <= i < |rs| ==> StepAt(client, hs, rs, i)
  }

  /** Call `i` of the run is legal and was answered within the rules. */
  ghost predicate StepAt(client: Client, hs: seq<Memory>, rs: seq<u32>, i: int)
    requires 0 <= i < |rs| && |hs| == |rs| + 1
  {
    Legal(hs[i], client(rs[..i])) && Does(hs[i], client(rs[..i]), rs[i], hs[i + 1])
  }

  /** Whatever the heap answers within its rules, the client's next call is legal. */
  ghost predicate Careful(client: Client, h: Memory) {
    forall hs: seq<Memory>, rs: seq<u32> ::
      IsRun(client, hs, rs) && hs[0] == h ==> Legal(hs[|rs|], client(rs))
  }

  /** In every state of every run allocations are apart. */
  lemma {:induction false} AlwaysApart(client: Client, hs: seq<Memory>, rs: seq<u32>, i: nat)
    requires IsRun(client, hs, rs) && i < |hs| && Apart(hs[0]) && 0 !in hs[0]
    ensures Apart(hs[i]) && 0 !in hs[i]
  {
    if i > 0 {
      AlwaysApart(client, hs, rs, i - 1);
      assert StepAt(client, hs, rs, i - 1);
      StepKeepsApart(hs[i - 1], client(rs[..i - 1]), rs[i - 1], hs[i]);
    }
  }

  /** The call stores through `p`, frees it, or may move it. */
  predicate Touches(op: Op, p: int) {
    match op
    case Malloc(_) => false
    case Zalloc(_) => false
    case Free(q) => p == q
    case Realloc(q, _) => p == q
    case Store(q, _, _) => p == q
  }

  /** Over any run whose calls do not touch an allocation it stays where it is and keeps its bytes. */
  lemma {:induction false} UntouchedKeeps(client: Client, hs: seq<Memory>, rs: seq<u32>, i: nat, j: nat, p: int)
    requires IsRun(client, hs, rs) && i <= j < |hs| && p in hs[i]
    requires forall k :: i <= k < j ==> !Touches(client(rs[..k]), p)
    ensures p in hs[j] && hs[j][p] == hs[i][p]
    decreases j - i
  {
    if i < j {
      UntouchedKeeps(client, hs, rs, i, j - 1, p);
      assert StepAt(client, hs, rs, j - 1);
    }
  }

  /** Every call leaves every allocation alone that it is not given; what it answers is null or holds at least the
      bytes asked for, unless rounding them wrapped; kzalloc's are zero; what is freed is gone. */
  lemma CallEffect(h: Memory, op: Op, r: u32, h': Memory)
    requires Legal(h, op) && Does(h, op, r, h') && 0 !in h
    ensures forall q :: q in h && !Touches(op, q) ==> q in h' && h'[q] == h[q]
    ensures (op.Malloc? || op.Zalloc?) ==>
              if r == 0 then h' == h else r !in h && h'.Keys == h.Keys + {r as int}
    ensures (op.Malloc? || op.Zalloc?) && r != 0 && op.n <= 0xFFFF_FFF8 ==> |h'[r]| >= op.n > 0
    ensures op.Zalloc? && r != 0 ==> forall i :: 0 <= i < op.n ==> h'[r][i] == 0
    ensures op.Free? ==> h'.Keys == h.Keys - {op.p as int}
    ensures op.Realloc? && op.p != 0 && op.n > 0 && r != 0 ==>
              && h'.Keys == h.Keys - {op.p as int} + {r as int} && |h'[r]| >= op.n
              && forall i :: 0 <= i < |h[op.p]| && i < op.n ==> h'[r][i] == h[op.p][i]
    ensures op.Realloc? && op.p != 0 && op.n > 0 && r == 0 ==> h' == h && op.n > |h[op.p]|
    ensures op.Realloc? && op.p != 0 && op.n == 0 ==> r == 0 && h'.Keys == h.Keys - {op.p as int}
  {
    if op.Malloc? || op.Zalloc? || op.Realloc? { RoundingCoversRequest(op.n); }
    hide Round8, Room;
  }

  /** Where an allocation is after a call that may move it. */
  function Goes(op: Op, r: u32, p: int): int {
    if op.Realloc? && op.p == p && r != 0 then r else p
  }

  /** The call does not free the allocation, store over its byte `k`, or shrink it to `k` bytes or fewer. */
  predicate Preserves(op: Op, p: int, k: nat) {
    match op
    case Free(q) => q != p
    case Store(q, i, _) => q != p || i != k
    case Realloc(q, n) => q != p || n > k
    case _ => true
  }

  /** Pointer `ps[i]` is where the allocation is in state `i`. */
  ghost predicate Follows(client: Client, rs: seq<u32>, ps: seq<int>, i: nat, j: nat) {
    && i <= j <= |rs| && j < |ps|
    && forall m, m' :: i <= m < j && m' == m + 1 ==> ps[m'] == Goes(client(rs[..m]), rs[m], ps[m])
  }

  lemma StepPreserves(h: Memory, op: Op, r: u32, h': Memory, p: int, k: nat)
    requires Legal(h, op) && Does(h, op, r, h') && 0 !in h && p in h && k < |h[p]| && Preserves(op, p, k)
    ensures Goes(op, r, p) in h' && k < |h'[Goes(op, r, p)]| && h'[Goes(op, r, p)][k] == h[p][k]
  {
    CallEffect(h, op, r, h');
    hide Room, Round8;
  }

  /** A byte once stored is there until it is stored over, freed, or cut off: it follows its allocation through
      every krealloc, whatever else is allocated, freed, moved or written meanwhile. */
  lemma {:induction false} StoredByteSurvives(client: Client, hs: seq<Memory>, rs: seq<u32>, ps: seq<int>, i: nat,
                                              j: nat, p: u32, k: nat, v: byte)
    requires IsRun(client, hs, rs) && i < j < |hs| && Apart(hs[0]) && 0 !in hs[0]
    requires Follows(client, rs, ps, i, j) && client(rs[..i]) == Store(p, k, v) && ps[i] == p
    requires forall m :: i < m < j ==> Preserves(client(rs[..m]), ps[m], k)
    ensures ps[j] in hs[j] && k < |hs[j][ps[j]]| && hs[j][ps[j]][k] == v
    decreases j
  {
    AlwaysApart(client, hs, rs, j - 1);
    assert StepAt(client, hs, rs, j - 1);
    if j == i + 1 {
      assert ps[j] == Goes(client(rs[..i]), rs[i], ps[i]);
    } else {
      StoredByteSurvives(client, hs, rs, ps, i, j - 1, p, k, v);
      hide Does, Legal, Preserves, Goes, IsRun;
      StepPreserves(hs[j - 1], client(rs[..j - 1]), rs[j - 1], hs[j], ps[j - 1], k);
    }
  }

  // ---------------------------------------------------------------- blocks and pointers

  ghost function Pointers(bs: seq<Block>): set<int> { set b | b in LiveSet(bs) :: b.Payload() }

  /** The live block behind a pointer. */
  ghost function BlockOf(bs: seq<Block>, p: int): (b: Block)
    requires p in Pointers(bs)
    ensures b in LiveSet(bs) && b.Payload() == p
  {
    var b :| b in LiveSet(bs) && b.Payload() == p; b
  }

  /** The map a list of blocks and the bytes of the region stand for. */
  ghost function LiveMap(m: seq<byte>, bs: seq<Block>): Memory {
    map p | p in Pointers(bs) :: Contents(m, BlockOf(bs, p))
  }

  lemma BlockOfIs(bs: seq<Block>, b: Block)
    requires Tiles(bs, HEAP_START, HEAP_END) && b in LiveSet(bs)
    ensures b.Payload() in Pointers(bs) && BlockOf(bs, b.Payload()) == b
  {
    AddrInjective(bs, b, BlockOf(bs, b.Payload()), HEAP_START, HEAP_END);
  }

  /** Reading the map at a live block. */
  lemma LiveMapAt(m: seq<byte>, bs: seq<Block>, b: Block)
    requires Tiles(bs, HEAP_START, HEAP_END) && b in LiveSet(bs) && |m| == HEAP_INITIAL
    ensures b.Payload() in LiveMap(m, bs) && LiveMap(m, bs)[b.Payload()] == Contents(m, b)
    ensures |Contents(m, b)| == b.size && HEAP_START <= b.addr && 0 <= b.size && b.End() <= HEAP_END
  {
    BlockOfIs(bs, b);
    TilesBounds(bs, HEAP_START, HEAP_END);
  }

  /** Room between allocations is a gap between live blocks. */
  lemma RoomIsGap(m: seq<byte>, bs: seq<Block>, x: int, n: int)
    requires Tiles(bs, HEAP_START, HEAP_END) && |m| == HEAP_INITIAL
    ensures Room(LiveMap(m, bs), x, n) <==> Gap(bs, HEAP_START, HEAP_END, x, n)
  {
    var h := LiveMap(m, bs);
    forall b | b in LiveSet(bs)
      ensures b.Payload() in h && b.Payload() - HDR == b.addr && b.Payload() + |h[b.Payload()]| == b.End()
    {
      LiveMapAt(m, bs, b);
    }
    if Room(h, x, n) {
      forall b | b in LiveSet(bs) ensures x + HDR + n <= b.addr || b.End() <= x {
        assert b.Payload() in h;
      }
    }
    if Gap(bs, HEAP_START, HEAP_END, x, n) {
      forall p | p in h ensures x + HDR + n <= p - HDR || p + |h[p]| <= x {
        assert BlockOf(bs, p) in LiveSet(bs);
      }
    }
  }

  /** Two maps with the same blocks and payloads, `b` added and `gone` taken away. */
  lemma MapsDiffer(m: seq<byte>, bs: seq<Block>, m': seq<byte>, bs': seq<Block>, gone: set<Block>, added: set<Block>)
    requires Tiles(bs, HEAP_START, HEAP_END) && Tiles(bs', HEAP_START, HEAP_END) && |m| == |m'| == HEAP_INITIAL
    requires LiveSet(bs') == LiveSet(bs) - gone + added && gone <= LiveSet(bs) && added !! LiveSet(bs)
    requires SamePayloads(m, m', LiveSet(bs) - gone)
    requires forall b :: b in added ==> b.Payload() !in Pointers(bs)
    ensures LiveMap(m', bs').Keys ==
            Pointers(bs) - (set b | b in gone :: b.Payload()) + (set b | b in added :: b.Payload())
    ensures forall p :: p in Pointers(bs) && p in Pointers(bs') ==> LiveMap(m', bs')[p] == LiveMap(m, bs)[p]
  {
    hide Tiles, Contents;
    forall p | p in Pointers(bs) && p in Pointers(bs') ensures LiveMap(m', bs')[p] == LiveMap(m, bs)[p] {
      var b := BlockOf(bs', p);
      assert b in LiveSet(bs) - gone;
      BlockOfIs(bs, b);
    }
    forall p ensures p in Pointers(bs') <==>
                     p in Pointers(bs) - (set b | b in gone :: b.Payload()) + (set b | b in added :: b.Payload())
    {
      if p in Pointers(bs') {
        var b := BlockOf(bs', p);
        if b in LiveSet(bs) - gone {
          assert b.Payload() in Pointers(bs);
          if p in set c | c in gone :: c.Payload() {
            var c :| c in gone && c.Payload() == p;
            AddrInjective(bs, b, c, HEAP_START, HEAP_END);
          }
        }
      }
    }
  }

  // ---------------------------------------------------------------- the heap in memory

  ghost function Live(h: Heap): Memory
    reads h, h.mem
  {
    LiveMap(h.mem[..], h.blocks)
  }

  lemma ValidTiles(h: Heap)
    requires h.Valid()
    ensures |h.mem[..]| == HEAP_INITIAL && Tiles(h.blocks, HEAP_START, HEAP_END)
  {
  }

  /** A block allocated is a pointer placed. */
  lemma AllocatedIsPlaced(m: seq<byte>, bs: seq<Block>, m': seq<byte>, bs': seq<Block>, n: u32, b: Block)
    requires Tiles(bs, HEAP_START, HEAP_END) && Tiles(bs', HEAP_START, HEAP_END) && |m| == |m'| == HEAP_INITIAL
    requires Allocated(m, bs, m', bs', n, b)
    ensures 0 < b.Payload() < TWO32 && Placed(LiveMap(m, bs), n, b.Payload(), LiveMap(m', bs'))
    ensures LiveMap(m', bs') == LiveMap(m, bs)[b.Payload() := LiveMap(m', bs')[b.Payload()]]
  {
    hide Tiles, Contents, Placed, LowestPlace, Round8, Gap;
    NewPointer(m, bs, m', bs', n, b);
    LiveMapAt(m', bs', b);
    MapsDiffer(m, bs, m', bs', {}, {b});
    var h, h' := LiveMap(m, bs), LiveMap(m', bs');
    assert h'.Keys == h.Keys + {b.Payload()};
    hide LiveMap, LiveSet, SamePayloads;
    GrownMap(h, h', b.Payload());
  }

  lemma GrownMap(h: Memory, h': Memory, r: int)
    requires r !in h && h'.Keys == h.Keys + {r} && forall q :: q in h && q in h' ==> h'[q] == h[q]
    ensures h' == h[r := h'[r]]
  {
    var g := h[r := h'[r]];
    assert h'.Keys == g.Keys;
    assert forall q :: q in g ==> g[q] == h'[q];
  }

  lemma NewPointer(m: seq<byte>, bs: seq<Block>, m': seq<byte>, bs': seq<Block>, n: u32, b: Block)
    requires Tiles(bs, HEAP_START, HEAP_END) && Tiles(bs', HEAP_START, HEAP_END) && |m| == |m'| == HEAP_INITIAL
    requires b in LiveSet(bs') && LowestPlace(bs, n, b) && Round8(n) <= b.size <= Round8(n) + 24 && b.Payload() % 8 == 0
    ensures 0 < b.Payload() < TWO32 && b.Payload() !in Pointers(bs)
    ensures Placed(LiveMap(m, bs), n, b.Payload(), LiveMap(m', bs'))
  {
    LiveMapAt(m', bs', b);
    RoomIsGap(m, bs, b.addr, b.size);
    forall x ensures Room(LiveMap(m, bs), x, Round8(n)) <==> Gap(bs, HEAP_START, HEAP_END, x, Round8(n)) {
      RoomIsGap(m, bs, x, Round8(n));
    }
    if b.Payload() in Pointers(bs) {
      var c := BlockOf(bs, b.Payload());
      LiveMapAt(m, bs, c);
    }
  }

  /** No gap anywhere is no room anywhere. */
  lemma NoRoomIs(m: seq<byte>, bs: seq<Block>, n: u32)
    requires Tiles(bs, HEAP_START, HEAP_END) && |m| == HEAP_INITIAL
    ensures NoRoom(bs, n) <==> forall x :: !Room(LiveMap(m, bs), x, Round8(n))
  {
    forall x ensures Room(LiveMap(m, bs), x, Round8(n)) <==> Gap(bs, HEAP_START, HEAP_END, x, Round8(n)) {
      RoomIsGap(m, bs, x, Round8(n));
    }
    hide Room, Gap;
  }

  /** kmalloc on the heap in memory allocates in the map. */
  method DoMalloc(h: Heap, n: u32) returns (r: u32)
    requires h.Valid()
    modifies h, h.mem
    ensures h.Valid() && Allocates(old(Live(h)), n, r, Live(h))
  {
    hide Holds, Canonical, LiveBytes, Allocated, NoRoom, LiveMap, Alloc, Tiles, Room, Placed;
    ghost var m, bs, k := h.mem[..], h.blocks, 0;
    ValidTiles(h);
    NoRoomIs(m, bs, n);
    r, k := h.Kmalloc(n);
    ValidTiles(h);
    if r != 0 { AllocatedIsPlaced(m, bs, h.mem[..], h.blocks, n, h.blocks[k]); }
  }

  method DoZalloc(h: Heap, n: u32) returns (r: u32)
    requires h.Valid() && n <= 0xFFFF_FFF8
    modifies h, h.mem
    ensures h.Valid() && Allocates(old(Live(h)), n, r, Live(h))
    ensures r != 0 ==> r in Live(h) && n <= |Live(h)[r]| && Live(h)[r][..n] == Zeros(n)
  {
    hide Holds, Canonical, LiveBytes, Allocated, NoRoom, LiveMap, Tiles, Room, Placed, BytesAt;
    ghost var m, bs, k := h.mem[..], h.blocks, 0;
    ValidTiles(h);
    NoRoomIs(m, bs, n);
    r, k := h.Kzalloc(n);
    ValidTiles(h);
    if r != 0 {
      AllocatedIsPlaced(m, bs, h.mem[..], h.blocks, n, h.blocks[k]);
      PrefixOf(h.mem[..], h.blocks, k, r, n);
    }
  }

  /** The first bytes of an allocation. */
  lemma PrefixOf(m: seq<byte>, bs: seq<Block>, k: nat, p: int, n: nat)
    requires Tiles(bs, HEAP_START, HEAP_END) && |m| == HEAP_INITIAL && LiveAt(bs, k, p) && n <= bs[k].size
    ensures p in LiveMap(m, bs) && n <= |LiveMap(m, bs)[p]| && LiveMap(m, bs)[p][..n] == BytesAt(m, p, n)
  {
    assert bs[k] in LiveSet(bs);
    LiveMapAt(m, bs, bs[k]);
  }

  /** A live pointer is the payload of a live block. */
  lemma PointerIsLive(m: seq<byte>, bs: seq<Block>, p: int) returns (k: nat)
    requires Tiles(bs, HEAP_START, HEAP_END) && p in LiveMap(m, bs)
    ensures LiveAt(bs, k, p) && bs[k] in LiveSet(bs)
  {
    var b := BlockOf(bs, p);
    k := IndexOf(bs, b);
  }

  /** Taking a block away takes its pointer away. */
  lemma FreedIsGone(m: seq<byte>, bs: seq<Block>, m': seq<byte>, bs': seq<Block>, b: Block)
    requires Tiles(bs, HEAP_START, HEAP_END) && Tiles(bs', HEAP_START, HEAP_END) && |m| == |m'| == HEAP_INITIAL
    requires b in LiveSet(bs) && LiveSet(bs') == LiveSet(bs) - {b} && SamePayloads(m, m', LiveSet(bs'))
    ensures LiveMap(m', bs') == LiveMap(m, bs) - {b.Payload()}
  {
    hide Tiles, Contents;
    MapsDiffer(m, bs, m', bs', {b}, {});
    assert LiveMap(m', bs').Keys == LiveMap(m, bs).Keys - {b.Payload()};
  }

  method DoFree(h: Heap, p: u32)
    requires h.Valid() && (p == 0 || p in Live(h))
    modifies h, h.mem
    ensures h.Valid() && Live(h) == old(Live(h)) - {p}
  {
    hide Holds, Canonical, LiveBytes, LiveMap, Tiles, Freed, HeaderFrom;
    ghost var m, bs := h.mem[..], h.blocks;
    ValidTiles(h);
    if p == 0 {
      NullIsNotLive(m, bs);
      h.Kfree(p);
    } else {
      ghost var k := PointerIsLive(m, bs, p);
      HeaderOfLive(m, bs, k, p);
      h.Kfree(p);
      ValidTiles(h);
      FreedIs(m, bs, h.mem[..], h.blocks, p, k);
      FreedIsGone(m, bs, h.mem[..], h.blocks, bs[k]);
    }
  }

  lemma NullIsNotLive(m: seq<byte>, bs: seq<Block>)
    requires Tiles(bs, HEAP_START, HEAP_END) && |m| == HEAP_INITIAL
    ensures 0 !in LiveMap(m, bs) && LiveMap(m, bs) - {0} == LiveMap(m, bs)
  {
    if 0 in LiveMap(m, bs) { LiveMapAt(m, bs, BlockOf(bs, 0)); }
  }

  /** A block moved is a pointer moved. */
  lemma MovedIsMoved(m: seq<byte>, bs: seq<Block>, m': seq<byte>, bs': seq<Block>, was: Block, n: u32, b: Block)
    requires Tiles(bs, HEAP_START, HEAP_END) && Tiles(bs', HEAP_START, HEAP_END) && |m| == |m'| == HEAP_INITIAL
    requires Moved(m, bs, m', bs', was, n, b) && was in LiveSet(bs) && was.size < n <= 0xFFFF_FFF8
    ensures var h, h', p, r := LiveMap(m, bs), LiveMap(m', bs'), was.Payload(), b.Payload();
            && p in h && 0 < r < TWO32 && Placed(h, n, r, h') && h' == (h - {p})[r := h'[r]]
            && |h[p]| <= |h'[r]| && h'[r][..|h[p]|] == h[p]
  {
    hide Tiles, Contents, BytesAt, Placed, LowestPlace, Round8;
    RoundingCoversRequest(n);
    NewPointer(m, bs, m', bs', n, b);
    LiveMapAt(m, bs, was);
    var k := IndexOf(bs', b);
    PrefixOf(m', bs', k, b.Payload(), was.size);
    MapsDiffer(m, bs, m', bs', {was}, {b});
    var h, h' := LiveMap(m, bs), LiveMap(m', bs');
    assert h'.Keys == h.Keys - {was.Payload()} + {b.Payload()};
    hide LiveMap, LiveSet, SamePayloads;
    SwappedMaps(h, h', was.Payload(), b.Payload());
  }

  lemma SwappedMaps(h: Memory, h': Memory, p: int, r: int)
    requires p in h && r !in h && h'.Keys == h.Keys - {p} + {r} && forall q :: q in h && q in h' ==> h'[q] == h[q]
    ensures h' == (h - {p})[r := h'[r]]
  {
    var g := (h - {p})[r := h'[r]];
    assert h'.Keys == g.Keys;
    assert forall q :: q in g ==> g[q] == h'[q];
  }

  method DoRealloc(h: Heap, p: u32, n: u32) returns (r: u32)
    requires h.Valid() && Legal(Live(h), Realloc(p, n))
    modifies h, h.mem
    ensures h.Valid() && Does(old(Live(h)), Realloc(p, n), r, Live(h))
  {
    hide Holds, Canonical, LiveBytes, LiveMap, Tiles, Freed, HeaderFrom, Allocated, Moved, NoRoom, Room, Placed;
    ghost var m, bs, j, k := h.mem[..], h.blocks, 0, 0;
    ValidTiles(h);
    NoRoomIs(m, bs, n);
    if p != 0 {
      j := PointerIsLive(m, bs, p);
      LiveMapAt(m, bs, bs[j]);
    }
    r, k := h.Krealloc(p, n, j);
    ValidTiles(h);
    if p == 0 {
      if r != 0 { AllocatedIsPlaced(m, bs, h.mem[..], h.blocks, n, h.blocks[k]); }
    } else if n == 0 {
      FreedIs(m, bs, h.mem[..], h.blocks, p, j);
      FreedIsGone(m, bs, h.mem[..], h.blocks, bs[j]);
    } else if n > bs[j].size && r != 0 {
      ghost var b: Block :| b.Payload() == r && Moved(m, bs, h.mem[..], h.blocks, bs[j], n, b);
      MovedIsMoved(m, bs, h.mem[..], h.blocks, bs[j], n, b);
    }
  }

  /** One byte stored in a payload. */
  lemma StoredIs(m: seq<byte>, m': seq<byte>, bs: seq<Block>, k: nat, p: int, i: nat, v: byte)
    requires Tiles(bs, HEAP_START, HEAP_END) && LiveAt(bs, k, p) && i < bs[k].size
    requires SameBut(m, m', p + i, 1) && InRegion(p + i, 1) && m'[p + i - HEAP_START] == v
    requires SamePayloads(m, m', LiveSet(bs) - {bs[k]})
    ensures p in LiveMap(m, bs) && i < |LiveMap(m, bs)[p]|
    ensures var c: seq<byte> := LiveMap(m, bs)[p]; LiveMap(m', bs) == LiveMap(m, bs)[p := c[i := v]]
  {
    assert |m| == |m'| == HEAP_INITIAL;
    hide Tiles, Contents, SameBut, BytesAt;
    var b := bs[k];
    assert b in LiveSet(bs);
    LiveMapAt(m, bs, b);
    LiveMapAt(m', bs, b);
    StoredInBlock(m, m', b, i, v);
    forall q | q in Pointers(bs) && q != p ensures LiveMap(m', bs)[q] == LiveMap(m, bs)[q] {
      assert BlockOf(bs, q) in LiveSet(bs) - {b};
    }
    var h, h' := LiveMap(m, bs), LiveMap(m', bs);
    assert h'.Keys == h.Keys && forall q :: q in h && q != p ==> h'[q] == h[q];
    hide LiveMap, LiveSet, SamePayloads, InRegion;
    ChangedMap(h, h', p);
  }

  lemma ChangedMap(h: Memory, h': Memory, p: int)
    requires p in h && h'.Keys == h.Keys && forall q :: q in h && q != p ==> h'[q] == h[q]
    ensures h' == h[p := h'[p]]
  {
    var g := h[p := h'[p]];
    assert h'.Keys == g.Keys;
    assert forall q :: q in g ==> g[q] == h'[q];
  }

  lemma StoredInBlock(m: seq<byte>, m': seq<byte>, b: Block, i: nat, v: byte)
    requires |m| == HEAP_INITIAL && InRegion(b.addr, HDR + b.size) && i < b.size
    requires SameBut(m, m', b.Payload() + i, 1) && m'[b.Payload() + i - HEAP_START] == v
    ensures |Contents(m, b)| == b.size
    ensures var c: seq<byte> := Contents(m, b); Contents(m', b) == c[i := v]
  {
    var o := b.Payload() - HEAP_START;
    assert Contents(m, b) == m[o..o + b.size] && Contents(m', b) == m'[o..o + b.size];
    forall j | 0 <= j < b.size && j != i ensures Contents(m', b)[j] == Contents(m, b)[j] {
      assert m'[o + j] == m[o + j];
    }
  }

  method DoStore(h: Heap, p: u32, i: nat, v: byte)
    requires h.Valid() && Legal(Live(h), Store(p, i, v))
    modifies h.mem
    ensures h.Valid() && Does(old(Live(h)), Store(p, i, v), 0, Live(h))
  {
    hide Holds, Canonical, LiveBytes, LiveMap, Tiles;
    ghost var m, bs := h.mem[..], h.blocks;
    ValidTiles(h);
    ghost var k := PointerIsLive(m, bs, p);
    LiveMapAt(m, bs, bs[k]);
    h.ClientStore(p + i, v, k);
    StoredIs(m, h.mem[..], bs, k, p, i, v);
  }

  method Perform(h: Heap, op: Op) returns (r: u32)
    requires h.Valid() && Legal(Live(h), op)
    modifies h, h.mem
    ensures h.Valid() && Does(old(Live(h)), op, r, Live(h))
  {
    hide Holds, Canonical, LiveBytes, LiveMap, Allocates, Moves;
    r := 0;
    match op
    case Malloc(n) => r := DoMalloc(h, n);
    case Zalloc(n) => r := DoZalloc(h, n);
    case Free(p) => DoFree(h, p);
    case Realloc(p, n) => r := DoRealloc(h, p, n);
    case Store(p, i, v) => DoStore(h, p, i, v);
  }

  /** Every run of kmalloc, kzalloc, kfree, krealloc and client stores over the bytes of the region is a run on
      the map from live pointers to bytes, for every client that keeps to live pointers whatever it is
      answered. */
  method Run(h: Heap, client: Client, steps: nat) returns (rs: seq<u32>, ghost hs: seq<Memory>)
    requires h.Valid() && Careful(client, Live(h))
    modifies h, h.mem
    ensures h.Valid() && |rs| == steps && IsRun(client, hs, rs) && hs[0] == old(Live(h)) && hs[steps] == Live(h)
  {
    hide Holds, Canonical, LiveBytes, LiveMap, Does, Legal;
    rs, hs := [], [Live(h)];
    while |rs| < steps
      invariant h.Valid() && |rs| <= steps && IsRun(client, hs, rs) && hs[0] == old(Live(h)) && hs[|rs|] == Live(h)
    {
      var op := client(rs);
      var r := Perform(h, op);
      RunGrows(client, hs, rs, r, Live(h));
      rs, hs := rs + [r], hs + [Live(h)];
    }
  }

  lemma RunGrows(client: Client, hs: seq<Memory>, rs: seq<u32>, r: u32, h: Memory)
    requires IsRun(client, hs, rs) && Legal(hs[|rs|], client(rs)) && Does(hs[|rs|], client(rs), r, h)
    ensures IsRun(client, hs + [h], rs + [r])
  {
    var hs', rs' := hs + [h], rs + [r];
    forall i | 0 <= i < |rs'| ensures StepAt(client, hs', rs', i) {
      if i < |rs| {
        assert StepAt(client, hs, rs, i);
        assert rs'[..i] == rs[..i];
      } else {
        assert rs'[..i] == rs;
      }
    }
  }

  /** The map of the heap heap_init makes is empty, so its runs start with all allocations apart. */
  lemma InitialMap(m: seq<byte>)
    ensures LiveMap(m, [Block(HEAP_START, HEAP_INITIAL - HDR, true)]) == map[]
  {
    assert LiveSet([Block(HEAP_START, HEAP_INITIAL - HDR, true)]) == {};
  }

  /** A client that allocates and frees what it got, if anything. */
  function AllocFree(n: u32): Client {
    (rs: seq<u32>) => if |rs| == 0 then Malloc(n) else if |rs| == 1 then Free(rs[0]) else Malloc(0)
  }

  /** It is careful: null may be freed, and what was returned is live. */
  lemma AllocFreeIsCareful(n: u32, h: Memory)
    ensures Careful(AllocFree(n), h)
  {
    forall hs: seq<Memory>, rs: seq<u32> | IsRun(AllocFree(n), hs, rs) && hs[0] == h
      ensures Legal(hs[|rs|], AllocFree(n)(rs))
    {
      if |rs| == 1 { assert StepAt(AllocFree(n), hs, rs, 0); }
    }
  }
}
