/** The linked list of the heap over an abstract header map: which list a map of headers spells
    out, and how rewriting a header changes that list. */
module HeapLinks {
  import opened HeapBlocks

  const HEAP_START: int := 0x20_0000
  const HEAP_INITIAL: int := 0x10_0000
  const HEAP_END: int := HEAP_START + HEAP_INITIAL
  const HEAP_MAGIC: int := 0xDEAD_BEEF

  datatype Header = Header(magic: int, size: int, free: bool, next: int)

  type Headers = int -> Header

  ghost function NextOf(bs: seq<Block>, i: nat): int {
    if i + 1 < |bs| then bs[i + 1].addr else 0
  }

  /** The size, flag and link in `h` are those of block `b` followed by `next`. */
  ghost predicate Linked(h: Header, b: Block, next: int) {
    h.size == b.size && h.free == b.free && h.next == next
  }

  /** The headers form the list `bs`, whose blocks tile the region. */
  ghost predicate Chain(hs: Headers, bs: seq<Block>) {
    && Tiles(bs, HEAP_START, HEAP_END)
    && bs != []
    && forall i :: 0 <= i < |bs| ==> Linked(hs(bs[i].addr), bs[i], NextOf(bs, i))
  }

  ghost predicate Magics(hs: Headers, bs: seq<Block>) {
    forall i :: 0 <= i < |bs| ==> hs(bs[i].addr).magic == HEAP_MAGIC
  }

  /** Headers that do not overlap the `n` bytes at `a` are the same. */
  ghost predicate SameHeadersBut(hs: Headers, hs': Headers, a: int, n: int) {
    forall x :: HEAP_START <= x && x + HDR <= HEAP_END && (x + HDR <= a || a + n <= x) ==> hs'(x) == hs(x)
  }

  lemma AbsorbTiles(bs: seq<Block>, k: nat, a: int, e: int)
    requires Tiles(bs, a, e) && k + 1 < |bs|
    ensures Tiles(bs[..k] + [Absorb(bs[k], bs[k + 1])] + bs[k + 2..], a, e)
  {
    var m := [Absorb(bs[k], bs[k + 1])];
    assert Tiles(m, bs[k].addr, bs[k + 1].End()) by { TilesBounds(bs, a, e); }
    hide Tiles;
    TilesSplit(bs, k, a, e);
    TilesAfter(bs, k + 1, a, e);
    TilesConcat(bs[..k], m, a, bs[k].addr, bs[k + 1].End());
    TilesConcat(bs[..k] + m, bs[k + 2..], a, bs[k + 1].End(), e);
  }

  /** Every block but the absorbing one keeps its place and its successor. */
  lemma AbsorbShifts(bs: seq<Block>, cs: seq<Block>, k: nat, i: nat, j: nat)
    requires k + 1 < |bs| && cs == bs[..k] + [Absorb(bs[k], bs[k + 1])] + bs[k + 2..]
    requires i < |cs| && i != k && j == if i < k then i else i + 1
    ensures j < |bs| && j != k && cs[i] == bs[j] && NextOf(cs, i) == NextOf(bs, j)
  {
  }

  /** Rewriting one header so that it covers its free successor too shortens the list by one. */
  lemma AbsorbChain(hs: Headers, hs': Headers, bs: seq<Block>, k: nat)
    requires Chain(hs, bs) && Magics(hs, bs) && k + 1 < |bs| && bs[k].free && bs[k + 1].free
    requires SameHeadersBut(hs, hs', bs[k].addr, HDR)
    requires hs'(bs[k].addr) == Header(HEAP_MAGIC, bs[k].size + HDR + bs[k + 1].size, true, NextOf(bs, k + 1))
    ensures var cs := bs[..k] + [Absorb(bs[k], bs[k + 1])] + bs[k + 2..]; Chain(hs', cs) && Magics(hs', cs)
  {
    hide Tiles;
    var cs := bs[..k] + [Absorb(bs[k], bs[k + 1])] + bs[k + 2..];
    AbsorbTiles(bs, k, HEAP_START, HEAP_END);
    assert cs[k] == Absorb(bs[k], bs[k + 1]) && NextOf(cs, k) == NextOf(bs, k + 1);
    forall i | 0 <= i < |cs|
      ensures Linked(hs'(cs[i].addr), cs[i], NextOf(cs, i)) && hs'(cs[i].addr).magic == HEAP_MAGIC
    {
      if i != k {
        var j := if i < k then i else i + 1;
        AbsorbShifts(bs, cs, k, i, j);
        Apart(bs, j, k);
      }
    }
  }

  lemma Apart(bs: seq<Block>, j: nat, k: nat)
    requires Tiles(bs, HEAP_START, HEAP_END) && j < |bs| && k < |bs| && j != k
    ensures HEAP_START <= bs[j].addr && bs[j].End() <= HEAP_END && 0 <= bs[j].size && 0 <= bs[k].size
    ensures bs[j].End() <= bs[k].addr || bs[k].End() <= bs[j].addr
  {
    TilesBounds(bs, HEAP_START, HEAP_END);
  }

  /** The merge loop stands at block `k` of `bs`: what is left to merge completes Merge(bs0). */
  ghost predicate Progress(bs: seq<Block>, k: nat, bs0: seq<Block>) {
    k < |bs| && bs[..k] + Merge(bs[k..]) == Merge(bs0) && LiveSet(bs) == LiveSet(bs0)
  }

  lemma MergeStarts(bs: seq<Block>)
    requires bs != []
    ensures Progress(bs, 0, bs)
  {
    assert bs[..0] == [] && bs[0..] == bs;
  }

  lemma MergeAbsorbs(bs: seq<Block>, k: nat, bs0: seq<Block>)
    requires Progress(bs, k, bs0) && k + 1 < |bs| && bs[k].free && bs[k + 1].free
    ensures Progress(bs[..k] + [Absorb(bs[k], bs[k + 1])] + bs[k + 2..], k, bs0)
  {
    var cs := bs[..k] + [Absorb(bs[k], bs[k + 1])] + bs[k + 2..];
    assert cs[..k] == bs[..k] && cs[k..] == [Absorb(bs[k], bs[k + 1])] + bs[k + 2..];
    assert bs[k..][2..] == bs[k + 2..];
    assert bs == bs[..k] + [bs[k], bs[k + 1]] + bs[k + 2..];
    LiveConcat(bs[..k], [bs[k], bs[k + 1]]);
    LiveConcat(bs[..k] + [bs[k], bs[k + 1]], bs[k + 2..]);
    LiveConcat(bs[..k], [Absorb(bs[k], bs[k + 1])]);
    LiveConcat(bs[..k] + [Absorb(bs[k], bs[k + 1])], bs[k + 2..]);
  }

  lemma MergeMovesOn(bs: seq<Block>, k: nat, bs0: seq<Block>)
    requires Progress(bs, k, bs0) && k + 1 < |bs| && !(bs[k].free && bs[k + 1].free)
    ensures Progress(bs, k + 1, bs0)
  {
    assert bs[k..][1..] == bs[k + 1..];
    assert bs[..k + 1] == bs[..k] + [bs[k]];
  }

  lemma MergeEnds(bs: seq<Block>, k: nat, bs0: seq<Block>)
    requires Progress(bs, k, bs0) && k + 1 == |bs|
    ensures bs == Merge(bs0)
  {
    assert bs == bs[..k] + bs[k..];
  }

  /** split_block when the remainder is large enough: block `k` keeps `n` bytes. */
  ghost function Split(bs: seq<Block>, k: nat, n: int): seq<Block>
    requires k < |bs|
  {
    bs[..k] + [Block(bs[k].addr, n, true), Block(bs[k].addr + HDR + n, bs[k].size - n - HDR, true)] + bs[k + 1..]
  }

  /** Writing a header inside a free block and relinking the block to it lengthens the list by one. */
  lemma SplitChain(hs: Headers, hs': Headers, bs: seq<Block>, k: nat, n: int, rest: int)
    requires Chain(hs, bs) && Magics(hs, bs) && k < |bs| && bs[k].free
    requires 0 <= n && n % 8 == 0 && bs[k].size >= n + HDR && rest == bs[k].addr + HDR + n
    requires SameHeadersBut(hs, hs', bs[k].addr, HDR + bs[k].size)
    requires hs'(bs[k].addr) == Header(HEAP_MAGIC, n, true, rest)
    requires hs'(rest) == Header(HEAP_MAGIC, bs[k].size - n - HDR, true, NextOf(bs, k))
    ensures Chain(hs', Split(bs, k, n)) && Magics(hs', Split(bs, k, n))
  {
    hide Tiles;
    var cs := Split(bs, k, n);
    SplitTiles(bs, k, n);
    forall i | 0 <= i < |cs|
      ensures Linked(hs'(cs[i].addr), cs[i], NextOf(cs, i)) && hs'(cs[i].addr).magic == HEAP_MAGIC
    {
      if i == k {
        assert cs[k] == Block(bs[k].addr, n, true) && NextOf(cs, k) == bs[k].addr + HDR + n;
      } else if i == k + 1 {
        assert cs[i] == Block(bs[k].addr + HDR + n, bs[k].size - n - HDR, true) && NextOf(cs, i) == NextOf(bs, k);
      } else {
        var j := if i < k then i else i - 1;
        SplitIndex(bs, k, n, i, j);
        Apart(bs, j, k);
      }
    }
  }

  lemma SplitIndex(bs: seq<Block>, k: nat, n: int, i: nat, j: nat)
    requires k < |bs| && i < |Split(bs, k, n)| && i != k && i != k + 1 && j == if i < k then i else i - 1
    ensures Split(bs, k, n)[i] == bs[j] && NextOf(Split(bs, k, n), i) == NextOf(bs, j)
  {
  }

  lemma TwoTiles(a: int, n: int, s: int)
    requires 0 <= n && n % 8 == 0 && s % 8 == 0 && s >= n + HDR
    ensures Tiles([Block(a, n, true), Block(a + HDR + n, s - n - HDR, true)], a, a + HDR + s)
  {
    var mid := [Block(a, n, true), Block(a + HDR + n, s - n - HDR, true)];
    assert (s - n - HDR) % 8 == 0;
    assert mid[1..] == [mid[1]];
  }

  lemma SplitTiles(bs: seq<Block>, k: nat, n: int)
    requires Tiles(bs, HEAP_START, HEAP_END) && k < |bs|
    requires 0 <= n && n % 8 == 0 && bs[k].size >= n + HDR
    ensures Tiles(Split(bs, k, n), HEAP_START, HEAP_END)
  {
    hide Tiles;
    TilesBounds(bs, HEAP_START, HEAP_END);
    TwoTiles(bs[k].addr, n, bs[k].size);
    var mid := [Block(bs[k].addr, n, true), Block(bs[k].addr + HDR + n, bs[k].size - n - HDR, true)];
    ReplaceTiles(bs, k, mid, HEAP_START, HEAP_END);
  }

  /** Changing one free flag changes that block and nothing else. */
  lemma FlagChain(hs: Headers, hs': Headers, bs: seq<Block>, k: nat, free: bool)
    requires Chain(hs, bs) && Magics(hs, bs) && k < |bs|
    requires SameHeadersBut(hs, hs', bs[k].addr, HDR)
    requires hs'(bs[k].addr) == hs(bs[k].addr).(free := free)
    ensures Chain(hs', bs[k := bs[k].(free := free)]) && Magics(hs', bs[k := bs[k].(free := free)])
  {
    var cs := bs[k := bs[k].(free := free)];
    FlagTiles(bs, k, free);
    forall i | 0 <= i < |cs|
      ensures Linked(hs'(cs[i].addr), cs[i], NextOf(cs, i)) && hs'(cs[i].addr).magic == HEAP_MAGIC
    {
      assert NextOf(cs, i) == NextOf(bs, i);
      if i != k {
        Apart(bs, i, k);
      }
    }
  }

  lemma FlagTiles(bs: seq<Block>, k: nat, free: bool)
    requires Tiles(bs, HEAP_START, HEAP_END) && k < |bs|
    ensures Tiles(bs[k := bs[k].(free := free)], HEAP_START, HEAP_END)
  {
    var cs := bs[k := bs[k].(free := free)];
    assert Tiles([cs[k]], bs[k].addr, bs[k].End()) by { TilesBounds(bs, HEAP_START, HEAP_END); }
    ReplaceTiles(bs, k, [cs[k]], HEAP_START, HEAP_END);
    assert cs == bs[..k] + [cs[k]] + bs[k + 1..];
  }

  /** A list whose headers did not change is still there. */
  lemma SameChain(hs: Headers, hs': Headers, bs: seq<Block>, k: nat)
    requires Chain(hs, bs) && Magics(hs, bs) && k < |bs|
    requires SameHeadersBut(hs, hs', bs[k].Payload(), bs[k].size)
    ensures Chain(hs', bs) && Magics(hs', bs)
  {
    TilesBounds(bs, HEAP_START, HEAP_END);
    forall i | 0 <= i < |bs| ensures hs'(bs[i].addr) == hs(bs[i].addr) {
      if i != k { Apart(bs, i, k); }
    }
  }
}
