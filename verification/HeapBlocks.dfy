/** The block list of the kernel heap as a value: what a list of blocks must look like, what
    splitting and merging do to it, and the theory behind the allocator's guarantees. */
module HeapBlocks {

  /** sizeof(heap_block_t) under -m32. */
  const HDR := 16

  /** One block of the list: the address of its header, its payload size, its free flag. */
  datatype Block = Block(addr: int, size: int, free: bool) {
    function End(): int { addr + HDR + size }
    function Payload(): int { addr + HDR }
  }

  /** The blocks lie end to end from `a` to `e`, and every payload size is a multiple of 8. */
  ghost predicate Tiles(bs: seq<Block>, a: int, e: int) {
    if bs == [] then a == e
    else bs[0].addr == a && bs[0].size >= 0 && bs[0].size % 8 == 0 && Tiles(bs[1..], bs[0].End(), e)
  }

  /** No two neighbouring blocks are both free. */
  ghost predicate Canonical(bs: seq<Block>) {
    forall i, j :: 0 <= i < j < |bs| && j == i + 1 ==> !(bs[i].free && bs[j].free)
  }

  ghost function LiveSet(bs: seq<Block>): set<Block> {
    set b | b in bs && !b.free
  }

  /** Bytes taken by live blocks, headers included. */
  ghost function LiveBytes(bs: seq<Block>): int {
    if bs == [] then 0 else (if bs[0].free then 0 else HDR + bs[0].size) + LiveBytes(bs[1..])
  }

  /** Bytes taken by free blocks, headers included. */
  ghost function FreeBytes(bs: seq<Block>): int {
    if bs == [] then 0 else (if bs[0].free then HDR + bs[0].size else 0) + FreeBytes(bs[1..])
  }

  // ---------------------------------------------------------------- positions

  lemma {:induction false} TilesBounds(bs: seq<Block>, a: int, e: int)
    requires Tiles(bs, a, e)
    ensures a <= e && (bs != [] ==> a + HDR <= e)
    ensures forall i :: 0 <= i < |bs| ==> a <= bs[i].addr && bs[i].End() <= e && 0 <= bs[i].size && bs[i].size % 8 == 0
    ensures forall i, j :: 0 <= i < j < |bs| ==> bs[i].End() <= bs[j].addr
    ensures forall i, j :: 0 <= i < j < |bs| && j == i + 1 ==> bs[i].End() == bs[j].addr
    ensures bs != [] ==> bs[0].addr == a && bs[|bs| - 1].End() == e
  {
    if bs != [] {
      TilesBounds(bs[1..], bs[0].End(), e);
      assert forall i :: 0 < i < |bs| ==> bs[i] == bs[1..][i - 1];
      if |bs| == 1 { assert bs[1..] == []; }
    }
  }

  lemma {:induction false} TilesConcat(xs: seq<Block>, ys: seq<Block>, a: int, m: int, e: int)
    requires Tiles(xs, a, m) && Tiles(ys, m, e)
    ensures Tiles(xs + ys, a, e)
  {
    if xs == [] {
      assert xs + ys == ys;
    } else {
      TilesConcat(xs[1..], ys, xs[0].End(), m, e);
      assert (xs + ys)[1..] == xs[1..] + ys;
    }
  }

  lemma {:induction false} TilesSplit(bs: seq<Block>, i: nat, a: int, e: int)
    requires Tiles(bs, a, e) && i <= |bs|
    ensures i < |bs| ==> Tiles(bs[..i], a, bs[i].addr) && Tiles(bs[i..], bs[i].addr, e)
    ensures i == |bs| ==> Tiles(bs[..i], a, e)
  {
    if i == 0 {
      assert bs[0..] == bs;
      if bs == [] { assert bs[..0] == []; }
    } else {
      TilesSplit(bs[1..], i - 1, bs[0].End(), e);
      assert bs[..i][1..] == bs[1..][..i - 1];
      assert bs[i..] == bs[1..][i - 1..];
    }
  }

  lemma TilesAfter(bs: seq<Block>, i: nat, a: int, e: int)
    requires Tiles(bs, a, e) && i < |bs|
    ensures Tiles(bs[i + 1..], bs[i].End(), e)
  {
    TilesSplit(bs, i, a, e);
    assert bs[i..][1..] == bs[i + 1..];
  }

  lemma {:induction false} TilesAligned(bs: seq<Block>, a: int, e: int)
    requires Tiles(bs, a, e) && a % 8 == 0
    ensures forall i :: 0 <= i < |bs| ==> bs[i].addr % 8 == 0
  {
    if bs != [] {
      TilesAligned(bs[1..], bs[0].End(), e);
      assert forall i :: 0 < i < |bs| ==> bs[i] == bs[1..][i - 1];
    }
  }

  lemma LiveConcat(xs: seq<Block>, ys: seq<Block>)
    ensures LiveSet(xs + ys) == LiveSet(xs) + LiveSet(ys)
  {
  }

  /** Two different blocks of a tiling have different addresses. */
  lemma AddrInjective(bs: seq<Block>, b: Block, c: Block, a: int, e: int)
    requires Tiles(bs, a, e) && b in bs && c in bs && b.addr == c.addr
    ensures b == c
  {
    TilesBounds(bs, a, e);
  }

  // ---------------------------------------------------------------- uniqueness

  /** A canonical tiling is determined by its live blocks: the free space between them can be
      cut into blocks in one way only. */
  lemma {:induction false} CanonicalTilingIsUnique(xs: seq<Block>, ys: seq<Block>, a: int, e: int)
    requires Tiles(xs, a, e) && Tiles(ys, a, e)
    requires Canonical(xs) && Canonical(ys)
    requires LiveSet(xs) == LiveSet(ys)
    ensures xs == ys
  {
    TilesBounds(xs, a, e);
    TilesBounds(ys, a, e);
    if xs != [] && ys != [] {
      assert !xs[0].free ==> xs[0] in LiveSet(ys);
      assert !ys[0].free ==> ys[0] in LiveSet(xs);
      assert xs[0].free == ys[0].free;
      if xs[0].free {
        FirstFreeNoLonger(xs, ys, a, e);
        FirstFreeNoLonger(ys, xs, a, e);
      }
      assert xs[0] == ys[0];
      LiveTail(xs, a, e);
      LiveTail(ys, a, e);
      CanonicalTail(xs);
      CanonicalTail(ys);
      CanonicalTilingIsUnique(xs[1..], ys[1..], xs[0].End(), e);
      assert xs == [xs[0]] + xs[1..] && ys == [ys[0]] + ys[1..];
    }
  }

  lemma CanonicalTail(bs: seq<Block>)
    requires Canonical(bs) && bs != []
    ensures Canonical(bs[1..])
  {
  }

  lemma FirstFreeNoLonger(xs: seq<Block>, ys: seq<Block>, a: int, e: int)
    requires Tiles(xs, a, e) && Tiles(ys, a, e) && xs != [] && ys != []
    requires Canonical(xs) && LiveSet(xs) <= LiveSet(ys)
    requires xs[0].free && ys[0].free
    ensures ys[0].size <= xs[0].size
  {
    TilesBounds(xs, a, e);
    TilesBounds(ys, a, e);
    assert |xs| > 1 ==> xs[1] in LiveSet(xs) && xs[1] in LiveSet(ys);
  }

  lemma LiveTail(bs: seq<Block>, a: int, e: int)
    requires Tiles(bs, a, e) && bs != []
    ensures LiveSet(bs[1..]) == LiveSet(bs) - {bs[0]}
  {
    NotElsewhere(bs, 0, a, e);
    assert bs == [bs[0]] + bs[1..];
    LiveConcat([bs[0]], bs[1..]);
  }

  lemma NotElsewhere(bs: seq<Block>, i: nat, a: int, e: int)
    requires Tiles(bs, a, e) && i < |bs|
    ensures bs[i] !in bs[..i] && bs[i] !in bs[i + 1..]
  {
    TilesBounds(bs, a, e);
  }

  // ---------------------------------------------------------------- conservation

  /** Live and free bytes together are the whole region. */
  lemma {:induction false} BytesConserved(bs: seq<Block>, a: int, e: int)
    requires Tiles(bs, a, e)
    ensures LiveBytes(bs) + FreeBytes(bs) == e - a
    ensures 0 <= LiveBytes(bs) && 0 <= FreeBytes(bs)
    ensures FreeBytes(bs) == 0 <==> forall i :: 0 <= i < |bs| ==> !bs[i].free
  {
    if bs != [] {
      BytesConserved(bs[1..], bs[0].End(), e);
      assert forall i :: 0 < i < |bs| ==> bs[i] == bs[1..][i - 1];
    }
  }

  lemma {:induction false} FreeBlockCounts(bs: seq<Block>, b: Block, a: int, e: int)
    requires Tiles(bs, a, e) && b in bs && b.free
    ensures FreeBytes(bs) >= HDR
  {
    BytesConserved(bs[1..], bs[0].End(), e);
    if !bs[0].free {
      assert bs == [bs[0]] + bs[1..];
      FreeBlockCounts(bs[1..], b, bs[0].End(), e);
    }
  }

  lemma {:induction false} LiveBytesConcat(xs: seq<Block>, ys: seq<Block>)
    ensures LiveBytes(xs + ys) == LiveBytes(xs) + LiveBytes(ys)
  {
    if xs == [] {
      assert xs + ys == ys;
    } else {
      LiveBytesConcat(xs[1..], ys);
      assert (xs + ys)[1..] == xs[1..] + ys;
    }
  }

  // ---------------------------------------------------------------- merging

  /** merge_free_blocks: absorb the successor while both are free, else move on. */
  ghost function Merge(bs: seq<Block>): seq<Block>
    decreases |bs|
  {
    if |bs| < 2 then bs
    else if bs[0].free && bs[1].free then Merge([Absorb(bs[0], bs[1])] + bs[2..])
    else [bs[0]] + Merge(bs[1..])
  }

  ghost function Absorb(b: Block, c: Block): Block {
    Block(b.addr, b.size + HDR + c.size, true)
  }

  /** Merging yields the canonical tiling of the same region with the same live blocks. */
  lemma {:induction false} MergeIsCanonical(bs: seq<Block>, a: int, e: int)
    requires Tiles(bs, a, e)
    ensures Tiles(Merge(bs), a, e)
    ensures Canonical(Merge(bs))
    ensures LiveSet(Merge(bs)) == LiveSet(bs)
    ensures LiveBytes(Merge(bs)) == LiveBytes(bs)
    ensures bs != [] ==> Merge(bs) != [] && Merge(bs)[0].free == bs[0].free
    decreases |bs|
  {
    if |bs| >= 2 {
      if bs[0].free && bs[1].free {
        var cs := [Absorb(bs[0], bs[1])] + bs[2..];
        assert cs[1..] == bs[1..][1..];
        MergeIsCanonical(cs, a, e);
        assert bs == [bs[0], bs[1]] + bs[2..] && bs[1..][1..] == bs[2..];
        LiveConcat([bs[0], bs[1]], bs[2..]);
        LiveConcat([Absorb(bs[0], bs[1])], bs[2..]);
      } else {
        var rest := Merge(bs[1..]);
        MergeIsCanonical(bs[1..], bs[0].End(), e);
        var cs := [bs[0]] + rest;
        assert cs[1..] == rest;
        assert bs == [bs[0]] + bs[1..];
        LiveConcat([bs[0]], bs[1..]);
        LiveConcat([bs[0]], rest);
        assert rest[0].free == bs[1..][0].free == bs[1].free;
      }
    }
  }

  // ---------------------------------------------------------------- freeing

  /** kfree: the block at `addr` becomes free, then everything is merged. */
  ghost function MarkFree(bs: seq<Block>, i: nat): seq<Block>
    requires i < |bs|
  {
    bs[i := bs[i].(free := true)]
  }

  lemma ReplaceTiles(bs: seq<Block>, i: nat, mid: seq<Block>, a: int, e: int)
    requires Tiles(bs, a, e) && i < |bs| && Tiles(mid, bs[i].addr, bs[i].End())
    ensures Tiles(bs[..i] + mid + bs[i + 1..], a, e)
  {
    TilesSplit(bs, i, a, e);
    TilesAfter(bs, i, a, e);
    TilesConcat(bs[..i], mid, a, bs[i].addr, bs[i].End());
    TilesConcat(bs[..i] + mid, bs[i + 1..], a, bs[i].End(), e);
  }

  /** Replacing the block at `i` by a tiling of the same bytes. */
  lemma Replace(bs: seq<Block>, i: nat, mid: seq<Block>, a: int, e: int)
    requires Tiles(bs, a, e) && i < |bs| && Tiles(mid, bs[i].addr, bs[i].End())
    ensures Tiles(bs[..i] + mid + bs[i + 1..], a, e)
    ensures LiveBytes(bs[..i] + mid + bs[i + 1..]) == LiveBytes(bs) - LiveBytes([bs[i]]) + LiveBytes(mid)
    ensures LiveSet(bs[..i] + mid + bs[i + 1..]) == LiveSet(bs) - {bs[i]} + LiveSet(mid)
  {
    ReplaceTiles(bs, i, mid, a, e);
    LiveBytesConcat(bs[..i], mid);
    LiveBytesConcat(bs[..i] + mid, bs[i + 1..]);
    assert bs == bs[..i] + [bs[i]] + bs[i + 1..];
    LiveBytesConcat(bs[..i], [bs[i]]);
    LiveBytesConcat(bs[..i] + [bs[i]], bs[i + 1..]);
    LiveConcat(bs[..i], mid);
    LiveConcat(bs[..i] + mid, bs[i + 1..]);
    LiveConcat(bs[..i], [bs[i]]);
    LiveConcat(bs[..i] + [bs[i]], bs[i + 1..]);
    NotElsewhere(bs, i, a, e);
  }

  lemma MarkFreeTiles(bs: seq<Block>, i: nat, a: int, e: int)
    requires Tiles(bs, a, e) && i < |bs| && !bs[i].free
    ensures Tiles(MarkFree(bs, i), a, e)
    ensures LiveSet(MarkFree(bs, i)) == LiveSet(bs) - {bs[i]}
    ensures LiveBytes(MarkFree(bs, i)) == LiveBytes(bs) - HDR - bs[i].size
  {
    var mid := [bs[i].(free := true)];
    TilesBounds(bs, a, e);
    Replace(bs, i, mid, a, e);
    assert MarkFree(bs, i) == bs[..i] + mid + bs[i + 1..];
  }

  ghost function Free(bs: seq<Block>, i: nat): seq<Block>
    requires i < |bs|
  {
    Merge(MarkFree(bs, i))
  }

  lemma FreeKeeps(bs: seq<Block>, i: nat, a: int, e: int)
    requires Tiles(bs, a, e) && i < |bs| && !bs[i].free
    ensures Tiles(Free(bs, i), a, e) && Canonical(Free(bs, i))
    ensures LiveSet(Free(bs, i)) == LiveSet(bs) - {bs[i]}
    ensures LiveBytes(Free(bs, i)) == LiveBytes(bs) - HDR - bs[i].size
  {
    MarkFreeTiles(bs, i, a, e);
    MergeIsCanonical(MarkFree(bs, i), a, e);
  }

  // ---------------------------------------------------------------- allocating

  predicate Fits(b: Block, n: int) { b.free && b.size >= n }

  /** What becomes of a free block when `n` bytes are taken from it: split_block, then marking. */
  ghost function Taken(b: Block, n: int): seq<Block> {
    if b.size >= n + HDR + 16 then [Block(b.addr, n, false), Block(b.addr + HDR + n, b.size - n - HDR, true)]
    else [b.(free := false)]
  }

  ghost function Alloc(bs: seq<Block>, i: nat, n: int): seq<Block>
    requires i < |bs|
  {
    bs[..i] + Taken(bs[i], n) + bs[i + 1..]
  }

  lemma TakenTiles(b: Block, n: int)
    requires Fits(b, n) && 0 <= n && n % 8 == 0 && b.size % 8 == 0
    ensures Tiles(Taken(b, n), b.addr, b.End())
    ensures n <= Taken(b, n)[0].size <= n + 24
    ensures LiveSet(Taken(b, n)) == {Taken(b, n)[0]} && LiveBytes(Taken(b, n)) == HDR + Taken(b, n)[0].size
  {
    var mid := Taken(b, n);
    if |mid| == 2 {
      assert mid[1..] == [mid[1]];
      assert LiveBytes([mid[1]]) == 0;
    }
  }

  lemma AllocKeeps(bs: seq<Block>, i: nat, n: int, a: int, e: int)
    requires Tiles(bs, a, e) && Canonical(bs) && i < |bs| && Fits(bs[i], n) && 0 <= n && n % 8 == 0
    ensures Tiles(Alloc(bs, i, n), a, e) && Canonical(Alloc(bs, i, n))
    ensures Alloc(bs, i, n)[i].addr == bs[i].addr && !Alloc(bs, i, n)[i].free
    ensures n <= Alloc(bs, i, n)[i].size <= n + 24
    ensures LiveSet(Alloc(bs, i, n)) == LiveSet(bs) + {Alloc(bs, i, n)[i]} && Alloc(bs, i, n)[i] !in LiveSet(bs)
    ensures LiveBytes(Alloc(bs, i, n)) == LiveBytes(bs) + HDR + Alloc(bs, i, n)[i].size
  {
    var mid := Taken(bs[i], n);
    assert bs[i].size % 8 == 0 by { TilesBounds(bs, a, e); }
    TakenTiles(bs[i], n);
    Replace(bs, i, mid, a, e);
    AllocCanonical(bs, i, mid);
    assert Alloc(bs, i, n)[i] == mid[0];
    assert mid[0] !in LiveSet(bs) by { hide Tiles; NewBlock(bs, i, mid[0], a, e); }
  }

  lemma NewBlock(bs: seq<Block>, i: nat, b: Block, a: int, e: int)
    requires Tiles(bs, a, e) && i < |bs| && bs[i].free && !b.free && b.addr == bs[i].addr
    ensures b !in LiveSet(bs)
  {
    TilesBounds(bs, a, e);
  }

  lemma AllocCanonical(bs: seq<Block>, i: nat, mid: seq<Block>)
    requires i < |bs| && bs[i].free && Canonical(bs) && 1 <= |mid| <= 2 && !mid[0].free
    ensures Canonical(bs[..i] + mid + bs[i + 1..])
  {
  }

  /** Freeing the block just allocated restores the list exactly. */
  lemma AllocThenFreeRestores(bs: seq<Block>, i: nat, n: int, a: int, e: int)
    requires Tiles(bs, a, e) && Canonical(bs) && i < |bs| && Fits(bs[i], n) && 0 <= n && n % 8 == 0
    ensures Free(Alloc(bs, i, n), i) == bs
  {
    AllocKeeps(bs, i, n, a, e);
    FreeKeeps(Alloc(bs, i, n), i, a, e);
    CanonicalTilingIsUnique(Free(Alloc(bs, i, n), i), bs, a, e);
  }

  // ---------------------------------------------------------------- completeness

  /** A header and `n` bytes at `x` lie in the region and touch no live block, headers included. */
  ghost predicate Gap(bs: seq<Block>, a: int, e: int, x: int, n: int) {
    a <= x && x + HDR + n <= e && forall b :: b in LiveSet(bs) ==> x + HDR + n <= b.addr || b.End() <= x
  }

  /** The block find_free_block stops at. */
  ghost predicate FirstFit(bs: seq<Block>, i: nat, n: int) {
    i < |bs| && Fits(bs[i], n) && forall j :: 0 <= j < i ==> !Fits(bs[j], n)
  }

  lemma {:induction false} Locate(bs: seq<Block>, a: int, e: int, x: int) returns (i: nat)
    requires Tiles(bs, a, e) && a <= x < e
    ensures i < |bs| && bs[i].addr <= x < bs[i].End()
  {
    if x < bs[0].End() {
      i := 0;
    } else {
      var k := Locate(bs[1..], bs[0].End(), e, x);
      i := k + 1;
    }
  }

  /** Any room at all for a header and `n` bytes lies inside one free block of a canonical list. */
  lemma GapIsInOneBlock(bs: seq<Block>, a: int, e: int, x: int, n: int) returns (i: nat)
    requires Tiles(bs, a, e) && Canonical(bs) && n >= 0 && Gap(bs, a, e, x, n)
    ensures i < |bs| && Fits(bs[i], n) && bs[i].addr <= x
  {
    i := Locate(bs, a, e, x);
    TilesBounds(bs, a, e);
    assert bs[i] in bs;
    if i + 1 < |bs| {
      assert bs[i + 1] in LiveSet(bs);
    }
  }

  /** First fit is complete and lowest: a block is found exactly when a placement exists anywhere
      in the region, and no placement lies below the block found. */
  lemma FirstFitIsLowestPlacement(bs: seq<Block>, a: int, e: int, n: int)
    requires Tiles(bs, a, e) && Canonical(bs) && n >= 0
    ensures (exists i: nat :: FirstFit(bs, i, n)) <==> (exists x :: Gap(bs, a, e, x, n))
    ensures forall i: nat, x :: FirstFit(bs, i, n) && Gap(bs, a, e, x, n) ==> bs[i].addr <= x
    ensures forall i: nat :: FirstFit(bs, i, n) ==> Gap(bs, a, e, bs[i].addr, n)
  {
    forall i: nat | FirstFit(bs, i, n) ensures Gap(bs, a, e, bs[i].addr, n) {
      FitIsGap(bs, a, e, i, n);
    }
    forall x | Gap(bs, a, e, x, n)
      ensures exists i: nat :: FirstFit(bs, i, n)
      ensures forall i: nat :: FirstFit(bs, i, n) ==> bs[i].addr <= x
    {
      var k := GapIsInOneBlock(bs, a, e, x, n);
      var i := Least(bs, k, n);
      assert i == k || bs[i].addr <= bs[k].addr by { TilesBounds(bs, a, e); }
    }
  }

  lemma FitIsGap(bs: seq<Block>, a: int, e: int, i: nat, n: int)
    requires Tiles(bs, a, e) && i < |bs| && Fits(bs[i], n)
    ensures Gap(bs, a, e, bs[i].addr, n)
  {
    TilesBounds(bs, a, e);
  }

  /** The room at the address of a free block ends with the block. */
  lemma GapEndsWithBlock(bs: seq<Block>, a: int, e: int, i: nat, m: int)
    requires Tiles(bs, a, e) && Canonical(bs) && i < |bs| && bs[i].free && Gap(bs, a, e, bs[i].addr, m)
    ensures m <= bs[i].size
  {
    TilesBounds(bs, a, e);
    if i + 1 < |bs| { assert bs[i + 1] in LiveSet(bs); }
  }

  /** No room is wasted but what is too little for a block of 16 bytes: an allocation has the size asked for, or
      there is no byte of room left behind it. */
  lemma NoRoomWasted(bs: seq<Block>, i: nat, n: int, a: int, e: int)
    requires Tiles(bs, a, e) && Canonical(bs) && i < |bs| && Fits(bs[i], n) && 0 <= n
    ensures var b := Alloc(bs, i, n)[i];
            if Gap(bs, a, e, b.addr, n + HDR + 16) then b.size == n else !Gap(bs, a, e, b.addr, b.size + 1)
  {
    var b := Alloc(bs, i, n)[i];
    hide Tiles, Canonical;
    if Gap(bs, a, e, bs[i].addr, n + HDR + 16) {
      GapEndsWithBlock(bs, a, e, i, n + HDR + 16);
    } else {
      if bs[i].size >= n + HDR + 16 { FitIsGap(bs, a, e, i, n + HDR + 16); }
      if Gap(bs, a, e, bs[i].addr, b.size + 1) { GapEndsWithBlock(bs, a, e, i, b.size + 1); }
    }
  }

  lemma {:induction false} Least(bs: seq<Block>, k: nat, n: int) returns (i: nat)
    requires k < |bs| && Fits(bs[k], n)
    ensures FirstFit(bs, i, n) && i <= k
  {
    i := 0;
    while !Fits(bs[i], n)
      invariant i <= k
      decreases k - i
      invariant forall j :: 0 <= j < i ==> !Fits(bs[j], n)
    {
      i := i + 1;
    }
  }

  // ---------------------------------------------------------------- freeing everything

  ghost function IndexOf(bs: seq<Block>, b: Block): (i: nat)
    requires b in bs
    ensures i < |bs| && bs[i] == b
  {
    var i :| 0 <= i < |bs| && bs[i] == b; i
  }

  /** `order` lists every live block once. */
  ghost predicate ListsLive(bs: seq<Block>, order: seq<Block>) {
    (forall b :: b in order <==> b in LiveSet(bs)) && (forall i, j :: 0 <= i < j < |order| ==> order[i] != order[j])
  }

  ghost function FreeAll(bs: seq<Block>, order: seq<Block>): seq<Block>
    decreases |order|
  {
    if order == [] || order[0] !in bs then bs else FreeAll(Free(bs, IndexOf(bs, order[0])), order[1..])
  }

  /** Freeing every live block, in whatever order, leaves the one block heap_init made. */
  lemma {:induction false} FreeAllYieldsInitialBlock(bs: seq<Block>, order: seq<Block>, a: int, e: int)
    requires Tiles(bs, a, e) && Canonical(bs) && a < e && ListsLive(bs, order)
    ensures FreeAll(bs, order) == [Block(a, e - a - HDR, true)]
    decreases |order|
  {
    TilesBounds(bs, a, e);
    if order == [] {
      assert bs != [];
      assert forall i :: 0 <= i < |bs| ==> bs[i] !in LiveSet(bs);
      assert |bs| == 1;
    } else {
      assert order[0] in LiveSet(bs);
      var i := IndexOf(bs, order[0]);
      FreeKeeps(bs, i, a, e);
      forall b ensures b in order[1..] <==> b in LiveSet(Free(bs, i)) {
        assert order == [order[0]] + order[1..];
      }
      FreeAllYieldsInitialBlock(Free(bs, i), order[1..], a, e);
    }
  }
}
