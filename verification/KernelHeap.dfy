/** The kernel heap (kernel/mm/heap.c): a linked list of block headers that lives in the same
    megabyte of memory as the payloads it hands out. */
module KernelHeap {
  import opened Words
  import opened HeapBlocks
  import opened HeapLinks

  /** kmalloc's rounding, in 32-bit arithmetic. */
  function Round8(n: u32): u32 { (n + 7) % TWO32 / 8 * 8 }

  // ---------------------------------------------------------------- the bytes

  predicate InRegion(a: int, n: int) { HEAP_START <= a && a + n <= HEAP_END }

  /** The word at address `a` of the heap region's bytes. */
  function LoadFrom(m: seq<byte>, a: int): (w: int)
    ensures 0 <= w < TWO32
  {
    if |m| == HEAP_INITIAL && InRegion(a, 4) then
      var bs := m[a - HEAP_START..a - HEAP_START + 4];
      Bound4(bs);
      LittleEndian(bs)
    else 0
  }

  /** The header at `a`: magic, size, free flag (one byte and padding), link. */
  function HeaderFrom(m: seq<byte>, a: int): Header {
    Header(LoadFrom(m, a), LoadFrom(m, a + 4),
           |m| == HEAP_INITIAL && InRegion(a, HDR) && m[a + 8 - HEAP_START] != 0, LoadFrom(m, a + 12))
  }

  ghost function HeadersOf(m: seq<byte>): Headers {
    a => HeaderFrom(m, a)
  }

  lemma HeadersAt(m: seq<byte>, a: int)
    ensures HeadersOf(m)(a) == HeaderFrom(m, a)
  {
  }

  /** The two memories differ at most in the `n` bytes at `a`. */
  ghost predicate SameBut(m: seq<byte>, m': seq<byte>, a: int, n: int) {
    |m| == |m'| == HEAP_INITIAL &&
    forall i :: 0 <= i < HEAP_INITIAL && !(a - HEAP_START <= i < a + n - HEAP_START) ==> m'[i] == m[i]
  }

  /** The `n` bytes at address `a`. */
  ghost function BytesAt(m: seq<byte>, a: int, n: int): seq<byte> {
    if |m| == HEAP_INITIAL && InRegion(a, n) && 0 <= n then m[a - HEAP_START..a - HEAP_START + n] else []
  }

  /** The payload of a block. */
  ghost function Contents(m: seq<byte>, b: Block): seq<byte> {
    BytesAt(m, b.Payload(), b.size)
  }

  /** The two memories agree on the payload of every given block. */
  ghost predicate SamePayloads(m: seq<byte>, m': seq<byte>, live: set<Block>) {
    forall b :: b in live ==> Contents(m', b) == Contents(m, b)
  }

  lemma BytesFrame(m: seq<byte>, m': seq<byte>, a: int, n: int, x: int, len: int)
    requires SameBut(m, m', a, n) && (x + len <= a || a + n <= x)
    ensures BytesAt(m', x, len) == BytesAt(m, x, len)
  {
  }

  /** Storing the next byte extends the bytes at `a` by one. */
  lemma BytesExtend(m: seq<byte>, m': seq<byte>, a: int, n: int)
    requires 0 <= n && InRegion(a, n + 1) && SameBut(m, m', a + n, 1)
    ensures BytesAt(m', a, n + 1) == BytesAt(m, a, n) + [m'[a + n - HEAP_START]]
  {
  }

  lemma LoadFrame(m: seq<byte>, m': seq<byte>, a: int, n: int, x: int)
    requires SameBut(m, m', a, n) && InRegion(x, 4) && (x + 4 <= a || a + n <= x)
    ensures LoadFrom(m', x) == LoadFrom(m, x)
  {
    var o := x - HEAP_START;
    assert m'[o..o + 4] == m[o..o + 4];
  }

  /** A write that avoids the header at `x` leaves it as it was. */
  lemma HeaderFrame(m: seq<byte>, m': seq<byte>, a: int, n: int, x: int)
    requires SameBut(m, m', a, n) && InRegion(x, HDR) && (x + HDR <= a || a + n <= x)
    ensures HeaderFrom(m', x) == HeaderFrom(m, x)
  {
    LoadFrame(m, m', a, n, x);
    LoadFrame(m, m', a, n, x + 4);
    LoadFrame(m, m', a, n, x + 12);
  }

  lemma HeadersFrame(m: seq<byte>, m': seq<byte>, a: int, n: int)
    requires SameBut(m, m', a, n)
    ensures SameHeadersBut(HeadersOf(m), HeadersOf(m'), a, n)
  {
    forall x | InRegion(x, HDR) && (x + HDR <= a || a + n <= x) ensures HeadersOf(m')(x) == HeadersOf(m)(x) {
      HeaderFrame(m, m', a, n, x);
    }
  }

  /** A write inside one header, or inside one free block, touches no live payload. */
  lemma PayloadFrame(m: seq<byte>, m': seq<byte>, bs: seq<Block>, k: nat, a: int, n: int)
    requires Tiles(bs, HEAP_START, HEAP_END) && k < |bs| && SameBut(m, m', a, n)
    requires bs[k].addr <= a && a + n <= if bs[k].free then bs[k].End() else bs[k].Payload()
    ensures SamePayloads(m, m', LiveSet(bs))
  {
    TilesBounds(bs, HEAP_START, HEAP_END);
    forall b | b in LiveSet(bs) ensures Contents(m', b) == Contents(m, b) {
      BytesFrame(m, m', a, n, b.Payload(), b.size);
    }
  }

  // ---------------------------------------------------------------- bytes and list together

  /** The bytes hold the list `bs`, and every header carries the magic number. */
  ghost predicate Holds(m: seq<byte>, bs: seq<Block>) {
    |m| == HEAP_INITIAL && Chain(HeadersOf(m), bs) && Magics(HeadersOf(m), bs)
  }

  lemma HeaderOfBlock(m: seq<byte>, bs: seq<Block>, k: nat)
    requires Chain(HeadersOf(m), bs) && k < |bs|
    ensures InRegion(bs[k].addr, HDR + bs[k].size) && 0 <= bs[k].size && bs[k].size % 8 == 0
    ensures Linked(HeaderFrom(m, bs[k].addr), bs[k], NextOf(bs, k))
    ensures Magics(HeadersOf(m), bs) ==> HeaderFrom(m, bs[k].addr).magic == HEAP_MAGIC
    ensures k + 1 < |bs| ==> bs[k + 1].addr == bs[k].End()
    ensures NextOf(bs, k) == 0 <==> k + 1 == |bs|
  {
    TilesBounds(bs, HEAP_START, HEAP_END);
    assert Linked(HeadersOf(m)(bs[k].addr), bs[k], NextOf(bs, k));
    HeadersAt(m, bs[k].addr);
  }

  /** What the search sees of block `k`. */
  lemma BlockHeader(m: seq<byte>, bs: seq<Block>, k: nat)
    requires Chain(HeadersOf(m), bs) && k < |bs|
    ensures InRegion(bs[k].addr, HDR) && HeaderFrom(m, bs[k].addr).size == bs[k].size &&
            HeaderFrom(m, bs[k].addr).free == bs[k].free
    ensures HeaderFrom(m, bs[k].addr).next == if k + 1 < |bs| then bs[k + 1].addr else 0
    ensures Magics(HeadersOf(m), bs) ==> HeaderFrom(m, bs[k].addr).magic == HEAP_MAGIC
  {
    hide HeaderFrom, Tiles, Chain, Magics;
    HeaderOfBlock(m, bs, k);
  }

  lemma ChainStarts(hs: Headers, bs: seq<Block>)
    requires Chain(hs, bs)
    ensures bs != [] && bs[0].addr == HEAP_START && forall k :: 0 <= k < |bs| ==> bs[k].addr >= HEAP_START
  {
    TilesBounds(bs, HEAP_START, HEAP_END);
  }

  lemma FitIsFirst(bs: seq<Block>, n: int)
    ensures forall i: nat, j: nat :: FirstFit(bs, i, n) && FirstFit(bs, j, n) ==> i == j
  {
  }

  lemma AbsorbHolds(m: seq<byte>, m': seq<byte>, bs: seq<Block>, k: nat)
    requires Holds(m, bs) && k + 1 < |bs| && bs[k].free && bs[k + 1].free
    requires SameBut(m, m', bs[k].addr, HDR)
    requires HeaderFrom(m', bs[k].addr) ==
             Header(HEAP_MAGIC, bs[k].size + HDR + bs[k + 1].size, true, NextOf(bs, k + 1))
    ensures Holds(m', bs[..k] + [Absorb(bs[k], bs[k + 1])] + bs[k + 2..])
    ensures SamePayloads(m, m', LiveSet(bs))
  {
    HeaderOfBlock(m, bs, k);
    HeadersFrame(m, m', bs[k].addr, HDR);
    PayloadFrame(m, m', bs, k, bs[k].addr, HDR);
    HeadersAt(m', bs[k].addr);
    AbsorbChain(HeadersOf(m), HeadersOf(m'), bs, k);
  }

  lemma SamePayloadsTrans(m: seq<byte>, m': seq<byte>, m'': seq<byte>, live: set<Block>)
    requires SamePayloads(m, m', live) && SamePayloads(m', m'', live)
    ensures SamePayloads(m, m'', live)
  {
  }

  lemma SplitHolds(m: seq<byte>, m': seq<byte>, bs: seq<Block>, k: nat, n: int, rest: int)
    requires Holds(m, bs) && k < |bs| && bs[k].free
    requires 0 <= n && n % 8 == 0 && bs[k].size >= n + HDR && rest == bs[k].addr + HDR + n
    requires SameBut(m, m', bs[k].addr, HDR + bs[k].size)
    requires HeaderFrom(m', bs[k].addr) == Header(HEAP_MAGIC, n, true, rest)
    requires HeaderFrom(m', rest) == Header(HEAP_MAGIC, bs[k].size - n - HDR, true, NextOf(bs, k))
    ensures Holds(m', Split(bs, k, n))
    ensures SamePayloads(m, m', LiveSet(bs))
  {
    HeadersFrame(m, m', bs[k].addr, HDR + bs[k].size);
    PayloadFrame(m, m', bs, k, bs[k].addr, HDR + bs[k].size);
    HeadersAt(m', bs[k].addr);
    HeadersAt(m', rest);
    SplitChain(HeadersOf(m), HeadersOf(m'), bs, k, n, rest);
  }

  lemma FlagHolds(m: seq<byte>, m': seq<byte>, bs: seq<Block>, k: nat, free: bool)
    requires Holds(m, bs) && k < |bs|
    requires SameBut(m, m', bs[k].addr, HDR)
    requires HeaderFrom(m', bs[k].addr) == HeaderFrom(m, bs[k].addr).(free := free)
    ensures Holds(m', bs[k := bs[k].(free := free)])
    ensures SamePayloads(m, m', LiveSet(bs))
  {
    HeaderOfBlock(m, bs, k);
    HeadersFrame(m, m', bs[k].addr, HDR);
    PayloadFrame(m, m', bs, k, bs[k].addr, HDR);
    HeadersAt(m', bs[k].addr);
    HeadersAt(m, bs[k].addr);
    FlagChain(HeadersOf(m), HeadersOf(m'), bs, k, free);
  }

  /** A client's write inside a payload keeps the list and every other payload. */
  lemma ClientWriteHolds(m: seq<byte>, m': seq<byte>, bs: seq<Block>, k: nat)
    requires Holds(m, bs) && k < |bs|
    requires SameBut(m, m', bs[k].Payload(), bs[k].size)
    ensures Holds(m', bs)
    ensures SamePayloads(m, m', LiveSet(bs) - {bs[k]})
  {
    HeadersFrame(m, m', bs[k].Payload(), bs[k].size);
    SameChain(HeadersOf(m), HeadersOf(m'), bs, k);
    TilesBounds(bs, HEAP_START, HEAP_END);
    forall b | b in LiveSet(bs) - {bs[k]} ensures Contents(m', b) == Contents(m, b) {
      BytesFrame(m, m', bs[k].Payload(), bs[k].size, b.Payload(), b.size);
    }
  }

  /** Rounding covers the request unless the addition wraps; a wrapped request rounds to 0. */
  lemma RoundingCoversRequest(n: u32)
    ensures Round8(n) >= n <==> n <= 0xFFFF_FFF8
    ensures n <= 0xFFFF_FFF8 ==> n <= Round8(n) <= n + 7
    ensures n > 0xFFFF_FFF8 ==> Round8(n) == 0
    ensures Round8(n) % 8 == 0
  {
  }

  /** Block `b` lies between the live blocks, at the lowest place with room for `n` bytes. */
  ghost predicate LowestPlace(bs: seq<Block>, n: u32, b: Block) {
    && Gap(bs, HEAP_START, HEAP_END, b.addr, b.size) && Gap(bs, HEAP_START, HEAP_END, b.addr, Round8(n))
    && (forall x :: Gap(bs, HEAP_START, HEAP_END, x, Round8(n)) ==> b.addr <= x)
  }

  /** What a successful kmalloc of `n` bytes does: one new live block `b`, at the lowest place
      with room for it, no other payload touched. */
  ghost predicate Allocated(m: seq<byte>, bs: seq<Block>, m': seq<byte>, bs': seq<Block>, n: u32, b: Block) {
    && b !in LiveSet(bs) && LiveSet(bs') == LiveSet(bs) + {b}
    && Round8(n) <= b.size <= Round8(n) + 24 && b.Payload() % 8 == 0
    && LowestPlace(bs, n, b)
    && SamePayloads(m, m', LiveSet(bs))
  }

  /** Block `b` has the rounded size if that leaves room for another block of 16 bytes, and otherwise all the room
      there is. */
  ghost predicate Snug(bs: seq<Block>, n: u32, b: Block) {
    if Gap(bs, HEAP_START, HEAP_END, b.addr, Round8(n) + HDR + 16) then b.size == Round8(n)
    else !Gap(bs, HEAP_START, HEAP_END, b.addr, b.size + 1)
  }

  ghost predicate NoRoom(bs: seq<Block>, n: u32) {
    forall x :: !Gap(bs, HEAP_START, HEAP_END, x, Round8(n))
  }

  lemma AllocMeetsContract(bs: seq<Block>, k: nat, n: u32)
    requires Tiles(bs, HEAP_START, HEAP_END) && Canonical(bs) && FirstFit(bs, k, Round8(n))
    ensures var cs := Alloc(bs, k, Round8(n));
            Allocated([], bs, [], cs, n, cs[k]) && Snug(bs, n, cs[k]) && cs[k].addr == bs[k].addr && !cs[k].free &&
            Tiles(cs, HEAP_START, HEAP_END) && Canonical(cs) && LiveBytes(cs) == LiveBytes(bs) + HDR + cs[k].size
  {
    hide Tiles, Alloc, Canonical, Round8, LiveSet;
    RoundingCoversRequest(n);
    AllocKeeps(bs, k, Round8(n), HEAP_START, HEAP_END);
    TilesAligned(bs, HEAP_START, HEAP_END);
    FirstFitIsLowestPlacement(bs, HEAP_START, HEAP_END, Round8(n));
    TakenFits(bs, k, Round8(n));
    FitIsGap(bs, HEAP_START, HEAP_END, k, Alloc(bs, k, Round8(n))[k].size);
    NoRoomWasted(bs, k, Round8(n), HEAP_START, HEAP_END);
    hide Gap;
  }

  lemma TakenFits(bs: seq<Block>, k: nat, n: int)
    requires k < |bs| && Fits(bs[k], n)
    ensures k < |Alloc(bs, k, n)| && Fits(bs[k], Alloc(bs, k, n)[k].size)
  {
  }

  lemma NoFitMeansNoRoom(bs: seq<Block>, n: u32)
    requires Tiles(bs, HEAP_START, HEAP_END) && Canonical(bs)
    requires forall j :: 0 <= j < |bs| ==> !Fits(bs[j], Round8(n))
    ensures NoRoom(bs, n)
  {
    FirstFitIsLowestPlacement(bs, HEAP_START, HEAP_END, Round8(n));
  }

  lemma SplitThenMark(bs: seq<Block>, k: nat, n: int)
    requires k < |bs| && bs[k].free
    ensures var cs := if bs[k].size >= n + HDR + 16 then Split(bs, k, n) else bs;
            k < |cs| && cs[k].addr == bs[k].addr && LiveSet(bs) <= LiveSet(cs) &&
            cs[k := cs[k].(free := false)] == Alloc(bs, k, n)
  {
    if bs[k].size >= n + HDR + 16 {
      var cs := Split(bs, k, n);
      forall b | b in LiveSet(bs) ensures b in cs {
        var i :| 0 <= i < |bs| && bs[i] == b;
        assert cs[if i < k then i else i + 1] == b;
      }
      assert cs[k := cs[k].(free := false)] == Alloc(bs, k, n);
    } else {
      assert bs[k := bs[k].(free := false)] == Alloc(bs, k, n);
    }
  }

  /** `p` is the payload address of block `k`, which is live. */
  ghost predicate LiveAt(bs: seq<Block>, k: nat, p: int) {
    k < |bs| && !bs[k].free && bs[k].Payload() == p
  }

  ghost predicate IsLive(bs: seq<Block>, p: int) {
    exists k: nat :: LiveAt(bs, k, p)
  }

  /** The header in front of `p` passes kfree's two checks: magic present, not already free. */
  ghost predicate LooksLive(m: seq<byte>, p: int) {
    HeaderFrom(m, p - HDR).magic == HEAP_MAGIC && !HeaderFrom(m, p - HDR).free
  }

  /** The header in front of a live pointer. */
  lemma HeaderOfLive(m: seq<byte>, bs: seq<Block>, k: nat, p: int)
    requires Holds(m, bs) && LiveAt(bs, k, p)
    ensures InRegion(p - HDR, HDR) && InRegion(p, bs[k].size) && 0 <= bs[k].size
    ensures LooksLive(m, p) && HeaderFrom(m, p - HDR).size == bs[k].size
  {
    hide HeaderFrom;
    HeaderOfBlock(m, bs, k);
    assert p - HDR == bs[k].addr;
  }

  lemma ByteAt(m: seq<byte>, a: int, n: int, i: int)
    requires |m| == HEAP_INITIAL && InRegion(a, n) && 0 <= i < n
    ensures |BytesAt(m, a, n)| == n && BytesAt(m, a, n)[i] == m[a + i - HEAP_START]
  {
  }

  lemma CopyStep(m0: seq<byte>, m: seq<byte>, m': seq<byte>, p: int, n: int, q: int, i: int)
    requires |m0| == HEAP_INITIAL && InRegion(p, n) && 0 <= i < n && InRegion(q, i + 1)
    requires BytesAt(m, p, n) == BytesAt(m0, p, n) && SameBut(m, m', q + i, 1)
    requires m'[q + i - HEAP_START] == m[p + i - HEAP_START]
    requires BytesAt(m, q, i) == BytesAt(m0, p, i)
    ensures BytesAt(m', q, i + 1) == BytesAt(m0, p, i + 1)
  {
    hide BytesAt;
    BytesExtend(m, m', q, i);
    BytesExtend(m0, m0, p, i);
    ByteAt(m, p, n, i);
    ByteAt(m0, p, n, i);
  }

  lemma Different(bs: seq<Block>, j: nat, k: nat)
    requires Tiles(bs, HEAP_START, HEAP_END) && j < |bs| && k < |bs| && j != k
    ensures bs[j] != bs[k]
  {
    Apart(bs, j, k);
  }

  /** What a kfree of `p` does: that block is no longer live, no other payload touched. */
  ghost predicate Freed(m: seq<byte>, bs: seq<Block>, m': seq<byte>, bs': seq<Block>, p: int) {
    exists k: nat ::
      LiveAt(bs, k, p) && bs' == Free(bs, k) && LiveSet(bs') == LiveSet(bs) - {bs[k]} &&
      SamePayloads(m, m', LiveSet(bs'))
  }

  /** heap_used counts the initial header once too often: it exceeds the region exactly when
      nothing is free. */
  lemma UsedExceedsTotalWhenFull(bs: seq<Block>, used: int)
    requires Tiles(bs, HEAP_START, HEAP_END) && used == HDR + LiveBytes(bs)
    ensures used + FreeBytes(bs) == HEAP_INITIAL + HDR
    ensures 0 <= used <= HEAP_INITIAL + HDR
    ensures used <= HEAP_INITIAL <==> exists b :: b in bs && b.free
    ensures used > HEAP_INITIAL ==> used == HEAP_INITIAL + HDR
  {
    BytesConserved(bs, HEAP_START, HEAP_END);
    if b :| b in bs && b.free {
      FreeBlockCounts(bs, b, HEAP_START, HEAP_END);
    }
  }

  /** What a successful move by krealloc does: block `old` is gone, block `b` is new and starts
      with the old contents, no other payload touched. */
  ghost predicate Moved(m: seq<byte>, bs: seq<Block>, m': seq<byte>, bs': seq<Block>, was: Block, n: u32, b: Block) {
    && b !in LiveSet(bs) && LiveSet(bs') == LiveSet(bs) - {was} + {b}
    && Round8(n) <= b.size <= Round8(n) + 24 && b.Payload() % 8 == 0 && LowestPlace(bs, n, b)
    && BytesAt(m', b.Payload(), was.size) == Contents(m, was)
    && SamePayloads(m, m', LiveSet(bs) - {was})
  }

  lemma FreedIs(m: seq<byte>, bs: seq<Block>, m': seq<byte>, bs': seq<Block>, p: int, j: nat)
    requires Freed(m, bs, m', bs', p) && LiveAt(bs, j, p) && Tiles(bs, HEAP_START, HEAP_END)
    ensures LiveSet(bs') == LiveSet(bs) - {bs[j]} && SamePayloads(m, m', LiveSet(bs'))
  {
    var k: nat :| LiveAt(bs, k, p) && LiveSet(bs') == LiveSet(bs) - {bs[k]} && SamePayloads(m, m', LiveSet(bs'));
    AddrInjective(bs, bs[j], bs[k], HEAP_START, HEAP_END);
  }

  lemma PrefixKept(m: seq<byte>, m': seq<byte>, b: Block, n: int)
    requires Contents(m', b) == Contents(m, b) && |m| == |m'| == HEAP_INITIAL
    requires InRegion(b.Payload(), b.size) && 0 <= n <= b.size
    ensures BytesAt(m', b.Payload(), n) == BytesAt(m, b.Payload(), n)
  {
    assert BytesAt(m', b.Payload(), n) == Contents(m', b)[..n];
    assert BytesAt(m, b.Payload(), n) == Contents(m, b)[..n];
  }

  lemma MovedCompose(m: seq<byte>, bs: seq<Block>, m1: seq<byte>, cs: seq<Block>, m': seq<byte>, ds: seq<Block>,
                     was: Block, n: u32, b: Block)
    requires Allocated(m, bs, m1, cs, n, b) && was in LiveSet(bs)
    requires LiveSet(ds) == LiveSet(cs) - {was}
    requires BytesAt(m', b.Payload(), was.size) == Contents(m1, was)
    requires SamePayloads(m1, m', LiveSet(cs) - {was} - {b})
    ensures Moved(m, bs, m', ds, was, n, b)
  {
    assert LiveSet(cs) - {was} - {b} == LiveSet(bs) - {was};
  }

  lemma NewIsElsewhere(m: seq<byte>, bs: seq<Block>, m1: seq<byte>, cs: seq<Block>, was: Block, n: u32, b: Block)
    requires Allocated(m, bs, m1, cs, n, b) && was in LiveSet(bs) && was.size >= 0
    ensures b.Payload() != was.Payload()
  {
  }

  /** `a` is an address inside the payload of `b`. */
  ghost predicate InPayload(b: Block, a: int) { b.Payload() <= a < b.End() }

  /** Live payloads are aligned, inside the region, and share no byte with one another or with the
      header of any block. */
  lemma LivePayloadsAreApart(bs: seq<Block>, b: Block, c: Block, a: int)
    requires Tiles(bs, HEAP_START, HEAP_END) && b in LiveSet(bs) && c in bs && InPayload(b, a)
    ensures b.Payload() % 8 == 0 && HEAP_START <= a < HEAP_END
    ensures !(c.addr <= a < c.Payload())
    ensures InPayload(c, a) ==> b == c
  {
    TilesBounds(bs, HEAP_START, HEAP_END);
    TilesAligned(bs, HEAP_START, HEAP_END);
  }

  /** `ps` lists the payload address of every live block once. */
  ghost predicate ListsPointers(bs: seq<Block>, ps: seq<u32>) {
    && (forall i :: 0 <= i < |ps| ==> IsLive(bs, ps[i]))
    && (forall i, j :: 0 <= i < j < |ps| ==> ps[i] != ps[j])
    && (forall b :: b in LiveSet(bs) ==> b.Payload() in ps)
  }

  /** Freeing the first pointer of the list leaves the others to be freed. */
  lemma PointersAfterFree(bs: seq<Block>, bs': seq<Block>, k: nat, ps: seq<u32>)
    requires Tiles(bs, HEAP_START, HEAP_END) && ps != [] && ListsPointers(bs, ps) && LiveAt(bs, k, ps[0])
    requires LiveSet(bs') == LiveSet(bs) - {bs[k]}
    ensures ListsPointers(bs', ps[1..])
  {
    forall i | 0 <= i < |ps[1..]| ensures IsLive(bs', ps[1..][i]) {
      var j: nat :| LiveAt(bs, j, ps[i + 1]);
      assert bs[j] in LiveSet(bs');
      var j' := IndexOf(bs', bs[j]);
      assert LiveAt(bs', j', ps[i + 1]);
    }
    forall b | b in LiveSet(bs') ensures b.Payload() in ps[1..] {
      assert b in LiveSet(bs) && ps == [ps[0]] + ps[1..];
      if b.Payload() == ps[0] { AddrInjective(bs, b, bs[k], HEAP_START, HEAP_END); }
    }
  }

  /** With nothing live, the canonical list is the one block heap_init made. */
  lemma NothingLive(bs: seq<Block>)
    requires Tiles(bs, HEAP_START, HEAP_END) && Canonical(bs) && ListsPointers(bs, [])
    ensures bs == [Block(HEAP_START, HEAP_INITIAL - HDR, true)] && LiveBytes(bs) == 0
  {
    FreeAllYieldsInitialBlock(bs, [], HEAP_START, HEAP_END);
  }

  lemma FourBytes(bs: seq<byte>)
    requires |bs| == 4
    ensures var b0: int, b1: int, b2: int, b3: int := bs[0], bs[1], bs[2], bs[3];
            LittleEndian(bs) == b0 + 0x100 * b1 + 0x1_0000 * b2 + 0x100_0000 * b3 < TWO32
    ensures ToBytes(LittleEndian(bs), 4) == bs
  {
    var b1, b2, b3 := bs[1..], bs[2..], bs[3..];
    assert bs[1..] == b1 && b1[1..] == b2 && b2[1..] == b3 && b3[1..] == [];
    EncodeDecode(bs);
    Bound4(bs);
  }

  class Heap {
    const mem: array<byte>
    var heapUsed: u32
    ghost var blocks: seq<Block>

    // -------------------------------------------------------------- memory

    /** A 32-bit load: the number whose little-endian bytes are at `a`. */
    method Load(a: int) returns (w: u32)
      requires mem.Length == HEAP_INITIAL && InRegion(a, 4)
      ensures w == LoadFrom(mem[..], a) && ToBytes(w, 4) == BytesAt(mem[..], a, 4)
    {
      var o := a - HEAP_START;
      ghost var bs := mem[..][o..o + 4];
      FourBytes(bs);
      var b0: int, b1: int, b2: int, b3: int := mem[o], mem[o + 1], mem[o + 2], mem[o + 3];
      w := b0 + 0x100 * b1 + 0x1_0000 * b2 + 0x100_0000 * b3;
    }

    method Store(a: int, w: u32)
      requires mem.Length == HEAP_INITIAL && InRegion(a, 4)
      modifies mem
      ensures LoadFrom(mem[..], a) == w && SameBut(old(mem[..]), mem[..], a, 4)
    {
      var o := a - HEAP_START;
      var bs := ToBytes(w, 4);
      assert Power256(4) == TWO32;
      DecodeEncode(w, 4);
      mem[o], mem[o + 1], mem[o + 2], mem[o + 3] := bs[0], bs[1], bs[2], bs[3];
      assert mem[..][o..o + 4] == bs;
    }

    method LoadHeader(a: int) returns (h: Header)
      requires mem.Length == HEAP_INITIAL && InRegion(a, HDR)
      ensures h == HeaderFrom(mem[..], a)
      ensures 0 <= h.magic < TWO32 && 0 <= h.size < TWO32 && 0 <= h.next < TWO32
    {
      hide LoadFrom, BytesAt, ToBytes;
      var magic := Load(a);
      var size := Load(a + 4);
      var next := Load(a + 12);
      h := Header(magic, size, mem[a + 8 - HEAP_START] != 0, next);
    }

    /** Writes all four fields of a header. */
    method StoreHeader(a: int, h: Header)
      requires mem.Length == HEAP_INITIAL && InRegion(a, HDR)
      requires 0 <= h.magic < TWO32 && 0 <= h.size < TWO32 && 0 <= h.next < TWO32
      modifies mem
      ensures HeaderFrom(mem[..], a) == h && SameBut(old(mem[..]), mem[..], a, HDR)
    {
      hide LoadFrom;
      Store(a, h.magic);
      ghost var m1 := mem[..];
      Store(a + 4, h.size);
      ghost var m2 := mem[..];
      mem[a + 8 - HEAP_START] := if h.free then 1 else 0;
      ghost var m3 := mem[..];
      Store(a + 12, h.next);
      assert SameBut(m1, mem[..], a + 4, 12);
      LoadFrame(m1, mem[..], a + 4, 12, a);
      assert SameBut(m2, mem[..], a + 8, 8);
      LoadFrame(m2, mem[..], a + 8, 8, a + 4);
      assert mem[a + 8 - HEAP_START] == m3[a + 8 - HEAP_START];
    }

    /** Rewrites the size and link of one header. */
    method Relink(a: int, size: u32, next: u32)
      requires mem.Length == HEAP_INITIAL && InRegion(a, HDR)
      modifies mem
      ensures HeaderFrom(mem[..], a) == HeaderFrom(old(mem[..]), a).(size := size, next := next)
      ensures SameBut(old(mem[..]), mem[..], a, HDR)
    {
      ghost var m0 := mem[..];
      Store(a + 4, size);
      ghost var m1 := mem[..];
      Store(a + 12, next);
      assert SameBut(m0, mem[..], a + 4, 12);
      LoadFrame(m0, mem[..], a + 4, 12, a);
      LoadFrame(m1, mem[..], a + 12, 4, a + 4);
      assert mem[..][a + 8 - HEAP_START] == m0[a + 8 - HEAP_START];
    }

    /** Sets the free flag of one header. */
    method SetFree(a: int, free: bool)
      requires mem.Length == HEAP_INITIAL && InRegion(a, HDR)
      modifies mem
      ensures HeaderFrom(mem[..], a) == HeaderFrom(old(mem[..]), a).(free := free)
      ensures SameBut(old(mem[..]), mem[..], a, HDR)
    {
      ghost var m0 := mem[..];
      mem[a + 8 - HEAP_START] := if free then 1 else 0;
      LoadFrame(m0, mem[..], a + 8, 1, a);
      LoadFrame(m0, mem[..], a + 8, 1, a + 4);
      LoadFrame(m0, mem[..], a + 8, 1, a + 12);
    }

    // -------------------------------------------------------------- invariant

    ghost predicate Valid()
      reads this, mem
    {
      Holds(mem[..], blocks) && Canonical(blocks) && heapUsed == HDR + LiveBytes(blocks)
    }

    /** heap_init. */
    constructor ()
      ensures Valid() && blocks == [Block(HEAP_START, HEAP_INITIAL - HDR, true)] && heapUsed == HDR && fresh(mem)
    {
      mem := new byte[HEAP_INITIAL];
      heapUsed := HDR;
      blocks := [Block(HEAP_START, HEAP_INITIAL - HDR, true)];
      new;
      StoreHeader(HEAP_START, Header(HEAP_MAGIC, HEAP_INITIAL - HDR, true, 0));
      assert blocks[1..] == [];
      assert HeadersOf(mem[..])(HEAP_START) == HeaderFrom(mem[..], HEAP_START);
    }

    // -------------------------------------------------------------- list walks

    /** find_free_block: the first fit, or 0 when there is none or a corrupt header is met first. */
    method FindFreeBlock(n: u32) returns (r: u32, ghost k: nat)
      requires mem.Length == HEAP_INITIAL && Chain(HeadersOf(mem[..]), blocks)
      ensures r != 0 ==> FirstFit(blocks, k, n) && blocks[k].addr == r
      ensures r == 0 ==> k <= |blocks| && forall j :: 0 <= j < k ==> !Fits(blocks[j], n)
      ensures r == 0 && k < |blocks| ==> HeaderFrom(mem[..], blocks[k].addr).magic != HEAP_MAGIC
      ensures Holds(mem[..], blocks) ==> (r == 0 <==> forall j :: 0 <= j < |blocks| ==> !Fits(blocks[j], n))
      ensures forall i: nat :: r != 0 && FirstFit(blocks, i, n) ==> r == blocks[i].addr
    {
      hide HeaderFrom, Tiles, Chain, Magics;
      r, k := SearchList(n);
      FitIsFirst(blocks, n);
      if k < |blocks| { BlockHeader(mem[..], blocks, k); }
    }

    /** Its loop. */
    method SearchList(n: u32) returns (r: u32, ghost k: nat)
      requires mem.Length == HEAP_INITIAL && Chain(HeadersOf(mem[..]), blocks)
      ensures r != 0 ==> FirstFit(blocks, k, n) && blocks[k].addr == r
      ensures r == 0 ==> k <= |blocks| && forall j :: 0 <= j < k ==> !Fits(blocks[j], n)
      ensures r == 0 && k < |blocks| ==> HeaderFrom(mem[..], blocks[k].addr).magic != HEAP_MAGIC
    {
      hide HeaderFrom, Tiles, Chain, Magics, HeadersOf, LoadFrom;
      ChainStarts(HeadersOf(mem[..]), blocks);
      var current: u32 := HEAP_START;
      k := 0;
      while current != 0
        invariant k <= |blocks| && current == if k < |blocks| then blocks[k].addr else 0
        invariant forall j :: 0 <= j < k ==> !Fits(blocks[j], n)
        decreases |blocks| - k
      {
        BlockHeader(mem[..], blocks, k);
        var h := LoadHeader(current);
        if h.magic != HEAP_MAGIC { return 0, k; }
        if h.free && h.size >= n { return current, k; }
        current := h.next;
        k := k + 1;
      }
      r := 0;
    }

    /** One round of merge_free_blocks: block `k` takes over its free successor. */
    method AbsorbNext(current: u32, ghost k: nat)
      requires Holds(mem[..], blocks) && k + 1 < |blocks| && current == blocks[k].addr
      requires blocks[k].free && blocks[k + 1].free
      modifies mem, this`blocks
      ensures Holds(mem[..], blocks)
      ensures blocks == old(blocks)[..k] + [Absorb(old(blocks)[k], old(blocks)[k + 1])] + old(blocks)[k + 2..]
      ensures SamePayloads(old(mem[..]), mem[..], LiveSet(old(blocks)))
    {
      ghost var bs, m := blocks, mem[..];
      HeaderOfBlock(m, bs, k);
      HeaderOfBlock(m, bs, k + 1);
      var h := LoadHeader(current);
      var n := LoadHeader(h.next);
      Relink(current, h.size + HDR + n.size, n.next);
      AbsorbHolds(m, mem[..], bs, k);
      blocks := bs[..k] + [Absorb(bs[k], bs[k + 1])] + bs[k + 2..];
    }

    /** merge_free_blocks. */
    method MergeFreeBlocks()
      requires Holds(mem[..], blocks)
      modifies mem, this`blocks
      ensures Holds(mem[..], blocks)
      ensures blocks == Merge(old(blocks))
      ensures SamePayloads(old(mem[..]), mem[..], LiveSet(old(blocks)))
    {
      ghost var m0, bs0 := mem[..], blocks;
      var current: u32 := HEAP_START;
      ghost var k: nat := 0;
      MergeStarts(blocks);
      HeaderOfBlock(mem[..], blocks, 0);
      var h := LoadHeader(current);
      while h.next != 0
        invariant Holds(mem[..], blocks) && Progress(blocks, k, bs0)
        invariant current == blocks[k].addr && h == HeaderFrom(mem[..], current) && h.next == NextOf(blocks, k)
        invariant SamePayloads(m0, mem[..], LiveSet(bs0))
        decreases |blocks| - k
      {
        current, k := MergeStep(current, h, k, bs0);
        HeaderOfBlock(mem[..], blocks, k);
        h := LoadHeader(current);
      }
      HeaderOfBlock(mem[..], blocks, k);
      MergeEnds(blocks, k, bs0);
    }

    /** The body of the merge loop. */
    method MergeStep(current: u32, h: Header, ghost k: nat, ghost bs0: seq<Block>) returns (c: u32, ghost j: nat)
      requires Holds(mem[..], blocks) && Progress(blocks, k, bs0)
      requires current == blocks[k].addr && h == HeaderFrom(mem[..], current) && h.next == NextOf(blocks, k) != 0
      modifies mem, this`blocks
      ensures Holds(mem[..], blocks) && Progress(blocks, j, bs0)
      ensures c == blocks[j].addr && |blocks| - j < old(|blocks|) - k
      ensures SamePayloads(old(mem[..]), mem[..], LiveSet(bs0))
    {
      ghost var bs := blocks;
      HeaderOfBlock(mem[..], bs, k);
      HeaderOfBlock(mem[..], bs, k + 1);
      var n := LoadHeader(h.next);
      if h.free && n.free {
        AbsorbNext(current, k);
        MergeAbsorbs(bs, k, bs0);
        c, j := current, k;
      } else {
        MergeMovesOn(bs, k, bs0);
        c, j := h.next, k + 1;
      }
    }

    /** The writes of split_block. */
    method WriteSplit(block: u32, size: u32, h: Header) returns (rest: u32)
      requires mem.Length == HEAP_INITIAL && h == HeaderFrom(mem[..], block) && 0 <= h.next < TWO32 && h.size < TWO32
      requires InRegion(block, HDR + h.size) && h.size >= size + HDR
      modifies mem
      ensures rest == block + HDR + size && HeaderFrom(mem[..], block) == Header(h.magic, size, h.free, rest)
      ensures HeaderFrom(mem[..], rest) == Header(HEAP_MAGIC, h.size - size - HDR, true, h.next)
      ensures SameBut(old(mem[..]), mem[..], block, HDR + h.size)
    {
      ghost var m := mem[..];
      rest := block + HDR + size;
      StoreHeader(rest, Header(HEAP_MAGIC, h.size - size - HDR, true, h.next));
      ghost var m1 := mem[..];
      HeaderFrame(m, m1, rest, HDR, block);
      Relink(block, size, rest);
      HeaderFrame(m1, mem[..], block, HDR, rest);
    }

    /** split_block. */
    method SplitBlock(block: u32, size: u32, ghost k: nat)
      requires Holds(mem[..], blocks) && k < |blocks| && block == blocks[k].addr
      requires Fits(blocks[k], size) && size % 8 == 0
      modifies mem, this`blocks
      ensures Holds(mem[..], blocks)
      ensures blocks == if old(blocks)[k].size >= size + HDR + 16 then Split(old(blocks), k, size) else old(blocks)
      ensures SamePayloads(old(mem[..]), mem[..], LiveSet(old(blocks)))
    {
      ghost var bs, m := blocks, mem[..];
      HeaderOfBlock(m, bs, k);
      var h := LoadHeader(block);
      if h.size >= size + HDR + 16 {
        var rest := WriteSplit(block, size, h);
        SplitHolds(m, mem[..], bs, k, size, rest);
        blocks := Split(bs, k, size);
      }
    }

    // -------------------------------------------------------------- the interface

    /** kmalloc. `k` is the position of the new block in the list. */
    method Kmalloc(n: u32) returns (p: u32, ghost k: nat)
      requires Valid()
      modifies mem, this
      ensures Valid()
      ensures p == 0 <==> n == 0 || NoRoom(old(blocks), n)
      ensures p == 0 ==> blocks == old(blocks) && mem[..] == old(mem[..]) && heapUsed == old(heapUsed)
      ensures p != 0 ==> FirstFit(old(blocks), k, Round8(n)) && blocks == Alloc(old(blocks), k, Round8(n))
      ensures p != 0 ==> k < |blocks| && !blocks[k].free && p == blocks[k].Payload()
      ensures p != 0 ==> Allocated(old(mem[..]), old(blocks), mem[..], blocks, n, blocks[k])
      ensures p != 0 ==> Snug(old(blocks), n, blocks[k])
    {
      if n == 0 { return 0, 0; }
      ghost var bs, m := blocks, mem[..];
      var size := Round8(n);
      var block;
      block, k := FindFreeBlock(size);
      if block == 0 {
        NoFitMeansNoRoom(bs, n);
        return 0, k;
      }
      p := TakeBlock(block, n, k);
    }

    /** The tail of kmalloc, once a block is found. */
    method TakeBlock(block: u32, n: u32, ghost k: nat) returns (p: u32)
      requires Valid() && FirstFit(blocks, k, Round8(n)) && block == blocks[k].addr
      modifies mem, this
      ensures Valid() && blocks == Alloc(old(blocks), k, Round8(n))
      ensures k < |blocks| && !blocks[k].free && p == blocks[k].Payload() && p != 0
      ensures Allocated(old(mem[..]), old(blocks), mem[..], blocks, n, blocks[k]) && Snug(old(blocks), n, blocks[k])
    {
      AllocMeetsContract(blocks, k, n);
      RoundingCoversRequest(n);
      p := Carve(block, Round8(n), k);
    }

    /** Split, mark used, account, return the payload. */
    method Carve(block: u32, size: u32, ghost k: nat) returns (p: u32)
      requires Holds(mem[..], blocks) && heapUsed == HDR + LiveBytes(blocks)
      requires k < |blocks| && block == blocks[k].addr && Fits(blocks[k], size) && size % 8 == 0
      modifies mem, this
      ensures Holds(mem[..], blocks) && blocks == Alloc(old(blocks), k, size) && k < |blocks|
      ensures p == blocks[k].Payload() && p != 0 && heapUsed == old(heapUsed) + HDR + blocks[k].size
      ensures SamePayloads(old(mem[..]), mem[..], LiveSet(old(blocks)))
    {
      ghost var bs, m := blocks, mem[..];
      BytesConserved(bs, HEAP_START, HEAP_END);
      SplitThenMark(bs, k, size);
      SplitBlock(block, size, k);
      ghost var m1, cs := mem[..], blocks;
      p := MarkUsed(block, k);
      SamePayloadsTrans(m, m1, mem[..], LiveSet(bs));
    }

    method MarkUsed(block: u32, ghost k: nat) returns (p: u32)
      requires Holds(mem[..], blocks) && k < |blocks| && block == blocks[k].addr && heapUsed <= HDR + HEAP_INITIAL
      modifies mem, this
      ensures Holds(mem[..], blocks) && blocks == old(blocks)[k := old(blocks)[k].(free := false)]
      ensures heapUsed == old(heapUsed) + HDR + blocks[k].size && p == blocks[k].Payload() && p != 0
      ensures SamePayloads(old(mem[..]), mem[..], LiveSet(old(blocks)))
    {
      hide HeaderFrom, Tiles, Magics, Chain, LiveSet;
      ghost var bs, m := blocks, mem[..];
      HeaderOfBlock(m, bs, k);
      var h := LoadHeader(block);
      SetFree(block, false);
      FlagHolds(m, mem[..], bs, k, false);
      blocks := bs[k := bs[k].(free := false)];
      heapUsed := heapUsed + HDR + h.size;
      p := block + HDR;
    }

    /** kfree. Null, a bad magic number and a double free change nothing; any other pointer must be live. */
    method Kfree(p: u32)
      requires Valid()
      requires p == 0 || InRegion(p - HDR, HDR)
      requires var h := HeaderFrom(mem[..], p - HDR); p != 0 && h.magic == HEAP_MAGIC && !h.free ==> IsLive(blocks, p)
      modifies mem, this
      ensures Valid()
      ensures var h := HeaderFrom(old(mem[..]), p - HDR);
              p == 0 || h.magic != HEAP_MAGIC || h.free ==>
                blocks == old(blocks) && mem[..] == old(mem[..]) && heapUsed == old(heapUsed)
      ensures p != 0 && LooksLive(old(mem[..]), p) ==> Freed(old(mem[..]), old(blocks), mem[..], blocks, p)
    {
      if p == 0 { return; }
      var block := p - HDR;
      var h := LoadHeader(block);
      if h.magic != HEAP_MAGIC || h.free { return; }
      ghost var k: nat :| LiveAt(blocks, k, p);
      Release(block, h, k);
    }

    /** The tail of kfree, once the header passed its checks. */
    method Release(block: u32, h: Header, ghost k: nat)
      requires Valid() && LiveAt(blocks, k, block + HDR) && h == HeaderFrom(mem[..], block)
      modifies mem, this
      ensures Valid() && blocks == Free(old(blocks), k) && heapUsed == old(heapUsed) - HDR - old(blocks)[k].size
      ensures LiveSet(blocks) == LiveSet(old(blocks)) - {old(blocks)[k]}
      ensures SamePayloads(old(mem[..]), mem[..], LiveSet(blocks))
    {
      ghost var bs, m := blocks, mem[..];
      HeaderOfBlock(m, bs, k);
      FreeKeeps(bs, k, HEAP_START, HEAP_END);
      BytesConserved(Free(bs, k), HEAP_START, HEAP_END);
      MarkFreeTiles(bs, k, HEAP_START, HEAP_END);
      heapUsed := heapUsed - (HDR + h.size);
      Unmark(block, k);
    }

    method Unmark(block: u32, ghost k: nat)
      requires Holds(mem[..], blocks) && k < |blocks| && block == blocks[k].addr
      modifies mem, this`blocks
      ensures Holds(mem[..], blocks) && blocks == Free(old(blocks), k)
      ensures SamePayloads(old(mem[..]), mem[..], LiveSet(MarkFree(old(blocks), k)))
    {
      ghost var bs, m := blocks, mem[..];
      HeaderOfBlock(m, bs, k);
      SetFree(block, true);
      ghost var m1 := mem[..];
      FlagHolds(m, m1, bs, k, true);
      blocks := MarkFree(bs, k);
      assert LiveSet(blocks) <= LiveSet(bs);
      MergeFreeBlocks();
      SamePayloadsTrans(m, m1, mem[..], LiveSet(MarkFree(bs, k)));
    }

    /** Freeing what was just allocated gives back the list and the counter as they were. */
    method AllocThenFree(n: u32) returns (p: u32)
      requires Valid()
      modifies mem, this
      ensures Valid() && blocks == old(blocks) && heapUsed == old(heapUsed)
      ensures SamePayloads(old(mem[..]), mem[..], LiveSet(blocks))
    {
      hide HeaderFrom, Magics, Tiles, Alloc, Free;
      ghost var m, bs, k := mem[..], blocks, 0;
      p, k := Kmalloc(n);
      if p == 0 { return; }
      ghost var m1, cs := mem[..], blocks;
      HeaderOfLive(m1, cs, k, p);
      Kfree(p);
      FreedIs(m1, cs, mem[..], blocks, p, k);
      RoundingCoversRequest(n);
      CanonicalTilingIsUnique(blocks, bs, HEAP_START, HEAP_END);
      SamePayloadsTrans(m, m1, mem[..], LiveSet(bs));
    }

    /** Freeing every live pointer, in any order, returns the heap to the state heap_init made. */
    method FreeEverything(ps: seq<u32>)
      requires Valid() && ListsPointers(blocks, ps)
      modifies mem, this
      ensures Valid() && blocks == [Block(HEAP_START, HEAP_INITIAL - HDR, true)] && heapUsed == HDR
    {
      hide HeaderFrom, Magics, Tiles, Free;
      var i := 0;
      assert ps[0..] == ps;
      while i < |ps|
        invariant i <= |ps| && Valid() && ListsPointers(blocks, ps[i..])
      {
        ghost var m, bs := mem[..], blocks;
        assert IsLive(bs, ps[i..][0]);
        ghost var k: nat :| LiveAt(bs, k, ps[i]);
        HeaderOfLive(m, bs, k, ps[i]);
        Kfree(ps[i]);
        FreedIs(m, bs, mem[..], blocks, ps[i], k);
        PointersAfterFree(bs, blocks, k, ps[i..]);
        assert ps[i..][1..] == ps[i + 1..];
        i := i + 1;
      }
      assert ps[i..] == [];
      NothingLive(blocks);
    }

    /** A client's store into a payload it owns. */
    method ClientStore(a: int, v: byte, ghost k: nat)
      requires Valid() && k < |blocks| && blocks[k].Payload() <= a < blocks[k].End()
      modifies mem
      ensures Valid() && InRegion(a, 1) && SameBut(old(mem[..]), mem[..], a, 1) && mem[a - HEAP_START] == v
      ensures SamePayloads(old(mem[..]), mem[..], LiveSet(blocks) - {blocks[k]})
    {
      ghost var m := mem[..];
      HeaderOfBlock(m, blocks, k);
      mem[a - HEAP_START] := v;
      ClientWriteHolds(m, mem[..], blocks, k);
    }

    /** kzalloc. */
    method Kzalloc(n: u32) returns (p: u32, ghost k: nat)
      requires Valid() && n <= 0xFFFF_FFF8
      modifies mem, this
      ensures Valid()
      ensures p == 0 <==> n == 0 || NoRoom(old(blocks), n)
      ensures p == 0 ==> blocks == old(blocks) && mem[..] == old(mem[..]) && heapUsed == old(heapUsed)
      ensures p != 0 ==> LiveAt(blocks, k, p) && Allocated(old(mem[..]), old(blocks), mem[..], blocks, n, blocks[k])
      ensures p != 0 ==> InRegion(p, n) && BytesAt(mem[..], p, n) == Zeros(n)
    {
      p, k := Kmalloc(n);
      if p == 0 { return; }
      RoundingCoversRequest(n);
      HeaderOfBlock(mem[..], blocks, k);
      ghost var m1 := mem[..];
      ZeroPayload(p, n, k);
      assert LiveSet(blocks) - {blocks[k]} == LiveSet(old(blocks));
      SamePayloadsTrans(old(mem[..]), m1, mem[..], LiveSet(old(blocks)));
    }

    /** kzalloc's loop. */
    method ZeroPayload(p: u32, n: u32, ghost k: nat)
      requires Valid() && LiveAt(blocks, k, p) && n <= blocks[k].size && InRegion(p, blocks[k].size)
      modifies mem
      ensures Valid()
      ensures SamePayloads(old(mem[..]), mem[..], LiveSet(blocks) - {blocks[k]})
      ensures BytesAt(mem[..], p, n) == Zeros(n)
    {
      hide HeaderFrom, Chain, Magics, Canonical;
      ghost var m0 := mem[..];
      var i := 0;
      while i < n
        invariant Valid() && i <= n
        invariant SamePayloads(m0, mem[..], LiveSet(blocks) - {blocks[k]})
        invariant BytesAt(mem[..], p, i) == Zeros(i)
      {
        ghost var m := mem[..];
        ClientStore(p + i, 0, k);
        BytesExtend(m, mem[..], p, i);
        SamePayloadsTrans(m0, m, mem[..], LiveSet(blocks) - {blocks[k]});
        i := i + 1;
      }
    }

    /** krealloc's copy loop: the whole old payload, which is shorter than the request. */
    method CopyPayload(p: u32, q: u32, n: u32, ghost j: nat, ghost k: nat)
      requires Valid() && LiveAt(blocks, j, p) && LiveAt(blocks, k, q) && j != k
      requires blocks[j].size < n <= blocks[k].size
      modifies mem
      ensures Valid() && BytesAt(mem[..], q, blocks[j].size) == Contents(old(mem[..]), blocks[j])
      ensures SamePayloads(old(mem[..]), mem[..], LiveSet(blocks) - {blocks[k]})
    {
      hide HeaderFrom, Chain, Magics, Canonical;
      ghost var m0 := mem[..];
      HeaderOfLive(m0, blocks, j, p);
      HeaderOfLive(m0, blocks, k, q);
      var h := LoadHeader(p - HDR);
      assert BytesAt(m0, q, 0) == [] == BytesAt(m0, p, 0);
      var i := 0;
      while i < h.size && i < n
        invariant Valid() && i <= h.size && h.size == blocks[j].size
        invariant SamePayloads(m0, mem[..], LiveSet(blocks) - {blocks[k]})
        invariant BytesAt(mem[..], q, i) == BytesAt(m0, p, i)
      {
        CopyByte(p, q, i, j, k, m0);
        i := i + 1;
      }
    }

    method CopyByte(p: u32, q: u32, i: u32, ghost j: nat, ghost k: nat, ghost m0: seq<byte>)
      requires Valid() && LiveAt(blocks, j, p) && LiveAt(blocks, k, q) && j != k && |m0| == HEAP_INITIAL
      requires i < blocks[j].size && i < blocks[k].size
      requires SamePayloads(m0, mem[..], LiveSet(blocks) - {blocks[k]})
      requires BytesAt(mem[..], q, i) == BytesAt(m0, p, i)
      modifies mem
      ensures Valid() && SamePayloads(m0, mem[..], LiveSet(blocks) - {blocks[k]})
      ensures BytesAt(mem[..], q, i + 1) == BytesAt(m0, p, i + 1)
    {
      hide HeaderFrom, Tiles, Magics, Canonical, BytesAt, LiveBytes;
      ghost var m := mem[..];
      HeaderOfLive(m, blocks, j, p);
      HeaderOfLive(m, blocks, k, q);
      Different(blocks, j, k);
      assert blocks[j] in LiveSet(blocks) - {blocks[k]} && blocks[j].Payload() == p;
      ghost var b := blocks[j];
      assert BytesAt(m, p, b.size) == Contents(m, b) == Contents(m0, b) == BytesAt(m0, p, b.size);
      ClientStore(q + i, mem[p + i - HEAP_START], k);
      CopyStep(m0, m, mem[..], p, blocks[j].size, q, i);
    }

    /** Copy, then free the old block. */
    method MoveInto(p: u32, q: u32, n: u32, ghost j: nat, ghost k: nat)
      requires Valid() && LiveAt(blocks, j, p) && LiveAt(blocks, k, q) && j != k
      requires blocks[j].size < n <= blocks[k].size
      modifies mem, this
      ensures Valid() && LiveSet(blocks) == LiveSet(old(blocks)) - {old(blocks)[j]}
      ensures BytesAt(mem[..], q, old(blocks)[j].size) == Contents(old(mem[..]), old(blocks)[j])
      ensures SamePayloads(old(mem[..]), mem[..], LiveSet(old(blocks)) - {old(blocks)[j]} - {old(blocks)[k]})
    {
      hide HeaderFrom, Magics, Canonical;
      ghost var m0, bs := mem[..], blocks;
      CopyPayload(p, q, n, j, k);
      ghost var m1 := mem[..];
      HeaderOfLive(m1, bs, j, p);
      HeaderOfLive(m1, bs, k, q);
      Different(bs, j, k);
      Kfree(p);
      FreedIs(m1, bs, mem[..], blocks, p, j);
      PrefixKept(m1, mem[..], bs[k], bs[j].size);
    }

    /** krealloc. `j` is the position of the old block, `k` that of a new one. */
    method Krealloc(p: u32, n: u32, ghost j: nat) returns (r: u32, ghost k: nat)
      requires Valid() && n <= 0xFFFF_FFF8
      requires p != 0 ==> LiveAt(blocks, j, p)
      modifies mem, this
      ensures Valid()
      ensures p == 0 && r != 0 ==>
                LiveAt(blocks, k, r) && Allocated(old(mem[..]), old(blocks), mem[..], blocks, n, blocks[k])
      ensures p == 0 ==> (r == 0 <==> n == 0 || NoRoom(old(blocks), n))
      ensures p != 0 && n == 0 ==> r == 0 && Freed(old(mem[..]), old(blocks), mem[..], blocks, p)
      ensures p != 0 && 0 < n <= old(blocks)[j].size ==> r == p
      ensures p != 0 && n > old(blocks)[j].size ==> (r == 0 <==> NoRoom(old(blocks), n))
      ensures p != 0 && n > old(blocks)[j].size && r != 0 ==>
                exists b: Block ::
                  b.Payload() == r && Moved(old(mem[..]), old(blocks), mem[..], blocks, old(blocks)[j], n, b)
      ensures (r == 0 && (p == 0 || n > 0)) || (r == p && p != 0) ==>
                blocks == old(blocks) && mem[..] == old(mem[..]) && heapUsed == old(heapUsed)
    {
      hide HeaderFrom, Magics, Canonical, Tiles, Alloc, Free, HeadersOf, LiveBytes, Gap;
      if p == 0 {
        r, k := Kmalloc(n);
        return;
      }
      ghost var m0, bs := mem[..], blocks;
      HeaderOfLive(m0, bs, j, p);
      var h := LoadHeader(p - HDR);
      if n == 0 {
        Kfree(p);
        return 0, 0;
      }
      if h.size >= n { return p, 0; }
      r, k := Kmalloc(n);
      if r == 0 { return; }
      RoundingCoversRequest(n);
      ghost var m1, cs := mem[..], blocks;
      assert bs[j] in LiveSet(cs);
      ghost var j' := IndexOf(cs, bs[j]);
      assert j' != k by { assert cs[k] !in LiveSet(bs); }
      MoveInto(p, r, n, j', k);
      MovedCompose(m0, bs, m1, cs, mem[..], blocks, bs[j], n, cs[k]);
      NewIsElsewhere(m0, bs, m1, cs, bs[j], n, cs[k]);
    }

    /** heap_get_stats: the difference is taken in 32 bits. */
    method GetStats() returns (total: u32, used: u32, free: u32)
      requires Valid()
      ensures total == HEAP_INITIAL && used == heapUsed && used + FreeBytes(blocks) == total + HDR
      ensures (exists b :: b in blocks && b.free) ==> used + free == total
      ensures (forall b :: b in blocks ==> !b.free) ==> used == total + HDR && free == TWO32 - HDR
    {
      UsedExceedsTotalWhenFull(blocks, heapUsed);
      total, used, free := HEAP_INITIAL, heapUsed, Minus32(HEAP_INITIAL, heapUsed);
    }
  }
}
