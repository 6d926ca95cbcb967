/** The boot information (kernel/arch/x86_64/multiboot2.c): a list of 8-aligned tags, serialised as
    sections 3.6.2 and 3.6.8 of the Multiboot2 specification describe, and its parser. */
module Multiboot {
  import opened Words
  import FrameAllocator

  const END: u32 := 0
  const BASIC_MEMINFO: u32 := 4
  const MMAP: u32 := 6

  datatype Tag = Tag(kind: u32, payload: seq<byte>) {
    function Size(): nat { 8 + |payload| }
  }

  /** (size + 7) & ~7 */
  function Aligned(n: nat): (r: nat)
    ensures r % 8 == 0 && n <= r < n + 8
  {
    (n + 7) / 8 * 8
  }

  /** A tag in memory: type, size, payload, padding up to the next multiple of 8. */
  function TagBytes(t: Tag): seq<byte> {
    ToBytes(t.kind, 4) + ToBytes(t.Size(), 4) + t.payload + Zeros(Aligned(t.Size()) - t.Size())
  }

  /** The tags one after the other, and the END tag. */
  function Bytes(ts: seq<Tag>): seq<byte> {
    if ts == [] then ToBytes(END, 4) + ToBytes(8, 4) else TagBytes(ts[0]) + Bytes(ts[1..])
  }

  /** A real tag: not an END tag, and of a size whose rounding fits 32 bits. */
  predicate Proper(t: Tag) { t.kind != END && t.Size() + 7 < TWO32 }

  /** Where tag `i` starts, counted from the first. */
  function Start(ts: seq<Tag>, i: nat): nat
    requires i <= |ts|
  {
    if i == 0 then 0 else Aligned(ts[0].Size()) + Start(ts[1..], i - 1)
  }

  /** The number in the `n` bytes at `o`. */
  function Field(m: seq<byte>, o: nat, n: nat): nat
    requires o + n <= |m|
  {
    LittleEndian(m[o..o + n])
  }

  lemma TagBytesLength(t: Tag)
    ensures |TagBytes(t)| == Aligned(t.Size()) >= 8
  {
    ToBytesLength(t.kind, 4);
    ToBytesLength(t.Size(), 4);
  }

  lemma PowerOf4()
    ensures Power256(4) == TWO32 && Power256(8) == TWO64
  {
  }

  /** A slice of a slice. */
  lemma Within(m: seq<byte>, o: nat, b: seq<byte>, i: nat, j: nat)
    requires o + |b| <= |m| && m[o..o + |b|] == b && i <= j <= |b|
    ensures m[o + i..o + j] == b[i..j]
  {
    forall k | i <= k < j ensures m[o + k] == b[k] {
      assert m[o..o + |b|][k] == b[k];
    }
  }

  /** Reading the type and the size of the tag at `o`. */
  lemma HeadOfTag(m: seq<byte>, o: nat, t: Tag)
    requires o + |TagBytes(t)| <= |m| && m[o..o + |TagBytes(t)|] == TagBytes(t) && t.Size() < TWO32
    ensures |TagBytes(t)| >= 8 && Field(m, o, 4) == t.kind && Field(m, o + 4, 4) == t.Size()
    ensures o + 8 + |t.payload| <= |m| && m[o + 8..o + 8 + |t.payload|] == t.payload
  {
    hide LittleEndian, ToBytes, Power256, Aligned;
    var b := TagBytes(t);
    TagBytesLength(t);
    PowerOf4();
    DecodeEncode(t.kind, 4);
    DecodeEncode(t.Size(), 4);
    Within(m, o, b, 0, 4);
    Within(m, o, b, 4, 8);
    Within(m, o, b, 8, t.Size());
    assert b[0..4] == ToBytes(t.kind, 4) && b[4..8] == ToBytes(t.Size(), 4) && b[8..t.Size()] == t.payload;
  }

  lemma EndOfTags(m: seq<byte>, o: nat)
    requires o <= |m| && m[o..] == Bytes([])
    ensures o + 8 == |m| && Field(m, o, 4) == END
  {
    PowerOf4();
    DecodeEncode(END, 4);
    DecodeEncode(8, 4);
    assert m[o..o + 4] == m[o..][..4] == ToBytes(END, 4);
  }

  lemma {:induction false} StartNext(ts: seq<Tag>, i: nat)
    requires i < |ts|
    ensures Start(ts, i + 1) == Start(ts, i) + Aligned(ts[i].Size())
  {
    if i > 0 {
      StartNext(ts[1..], i - 1);
    } else {
      assert Start(ts[1..], 0) == 0;
    }
  }

  /** `i` is the first tag of the given type. */
  ghost predicate First(ts: seq<Tag>, kind: u32, i: nat) {
    i < |ts| && ts[i].kind == kind && forall j :: 0 <= j < i ==> ts[j].kind != kind
  }

  /** multiboot_find_tag on the boot information `m`, which holds the tags `ts` after 8 bytes of
      header: the offset of the first tag of the type, if there is one. */
  method FindTag(m: seq<byte>, kind: u32, ghost ts: seq<Tag>) returns (r: Option<nat>, ghost i: nat)
    requires |m| >= 8 && m[8..] == Bytes(ts) && forall t :: t in ts ==> Proper(t)
    ensures i <= |ts| && (r.None? <==> forall t :: t in ts ==> t.kind != kind)
    ensures r.Some? ==> First(ts, kind, i) && r.value == 8 + Start(ts, i)
    ensures r.Some? ==> r.value <= |m| && m[r.value..] == Bytes(ts[i..])
  {
    hide Bytes, Aligned, LittleEndian;
    var o := 8;
    i := 0;
    assert ts[0..] == ts;
    while true
      invariant i <= |ts| && o == 8 + Start(ts, i) <= |m| && m[o..] == Bytes(ts[i..])
      invariant forall j :: 0 <= j < i ==> ts[j].kind != kind
      decreases |ts| - i
    {
      if i == |ts| {
        assert ts[i..] == [];
        EndOfTags(m, o);
      } else {
        TagAt(m, o, ts, i);
      }
      var k := Field(m, o, 4);
      if k == END { return None, i; }
      if k == kind { return Some(o), i; }
      var size := Field(m, o + 4, 4);
      StartNext(ts, i);
      o := o + Aligned(size);
      i := i + 1;
    }
  }

  lemma TagAt(m: seq<byte>, o: nat, ts: seq<Tag>, i: nat)
    requires o <= |m| && i < |ts| && m[o..] == Bytes(ts[i..]) && Proper(ts[i])
    ensures o + Aligned(ts[i].Size()) <= |m| && o + 8 <= |m| && Field(m, o, 4) == ts[i].kind &&
            Field(m, o + 4, 4) == ts[i].Size()
    ensures m[o + Aligned(ts[i].Size())..] == Bytes(ts[i + 1..])
    ensures o + 8 + |ts[i].payload| <= |m| && m[o + 8..o + 8 + |ts[i].payload|] == ts[i].payload
  {
    var t := ts[i];
    TagBytesLength(t);
    var n := |TagBytes(t)|;
    assert ts[i..][1..] == ts[i + 1..];
    assert m[o..] == TagBytes(t) + Bytes(ts[i + 1..]);
    assert m[o..o + n] == m[o..][..n] == TagBytes(t);
    assert m[o + n..] == m[o..][n..] == Bytes(ts[i + 1..]);
    HeadOfTag(m, o, t);
  }

  // ---------------------------------------------------------------- the memory map

  const AVAILABLE: u32 := 1

  datatype Entry = Entry(base: u64, len: u64, kind: u32) {
    function ToRegion(): FrameAllocator.Region { FrameAllocator.Region(base, len, kind == AVAILABLE) }
  }

  function Regions(es: seq<Entry>): (rs: seq<FrameAllocator.Region>)
    ensures |rs| == |es| && forall i :: 0 <= i < |es| ==> rs[i] == es[i].ToRegion()
  {
    seq(|es|, i requires 0 <= i < |es| => es[i].ToRegion())
  }

  /** An entry in memory: base, length, type, a zero word, and whatever the entry size adds. */
  function EntryBytes(e: Entry, stride: nat): seq<byte>
    requires stride >= 24
  {
    ToBytes(e.base, 8) + ToBytes(e.len, 8) + ToBytes(e.kind, 4) + ToBytes(0, 4) + Zeros(stride - 24)
  }

  function EntriesBytes(es: seq<Entry>, stride: nat): seq<byte>
    requires stride >= 24
  {
    if es == [] then [] else EntryBytes(es[0], stride) + EntriesBytes(es[1..], stride)
  }

  /** The memory map tag: entry size, version, entries. */
  function MmapTag(es: seq<Entry>, stride: nat): Tag
    requires stride >= 24
  {
    Tag(MMAP, ToBytes(stride, 4) + ToBytes(0, 4) + EntriesBytes(es, stride))
  }

  lemma EntryBytesLength(e: Entry, stride: nat)
    requires stride >= 24
    ensures |EntryBytes(e, stride)| == stride
  {
    ToBytesLength(e.base, 8);
    ToBytesLength(e.len, 8);
    ToBytesLength(e.kind, 4);
    ToBytesLength(0, 4);
  }

  lemma {:induction false} EntriesBytesLength(es: seq<Entry>, stride: nat)
    requires stride >= 24
    ensures |EntriesBytes(es, stride)| == |es| * stride
  {
    if es != [] {
      EntryBytesLength(es[0], stride);
      EntriesBytesLength(es[1..], stride);
    }
  }

  lemma EntryFields(e: Entry, stride: nat)
    requires stride >= 24
    ensures |EntryBytes(e, stride)| == stride
    ensures LittleEndian(EntryBytes(e, stride)[0..8]) == e.base && LittleEndian(EntryBytes(e, stride)[8..16]) == e.len
    ensures LittleEndian(EntryBytes(e, stride)[16..20]) == e.kind
  {
    hide LittleEndian, ToBytes, Power256;
    EntryBytesLength(e, stride);
    PowerOf4();
    DecodeEncode(e.base, 8);
    DecodeEncode(e.len, 8);
    DecodeEncode(e.kind, 4);
    assert EntryBytes(e, stride)[0..8] == ToBytes(e.base, 8);
    assert EntryBytes(e, stride)[8..16] == ToBytes(e.len, 8);
    assert EntryBytes(e, stride)[16..20] == ToBytes(e.kind, 4);
  }

  /** Reading the entry at `o`, where the entries' bytes are `b` and those after the first are `c`. */
  lemma EntryAt(m: seq<byte>, o: nat, es: seq<Entry>, stride: nat, b: seq<byte>, c: seq<byte>)
    requires stride >= 24 && es != [] && b == EntriesBytes(es, stride) && c == EntriesBytes(es[1..], stride)
    requires o + |b| <= |m| && m[o..o + |b|] == b
    ensures o + stride <= |m| && Field(m, o, 8) == es[0].base && Field(m, o + 8, 8) == es[0].len &&
            Field(m, o + 16, 4) == es[0].kind
    ensures o + stride + |c| == o + |b| && m[o + stride..o + stride + |c|] == c
  {
    hide LittleEndian, ToBytes, EntryBytes;
    var e := EntryBytes(es[0], stride);
    EntryFields(es[0], stride);
    assert b == e + c;
    Within(m, o, b, 0, 8);
    Within(m, o, b, 8, 16);
    Within(m, o, b, 16, 20);
    Within(m, o, b, stride, |b|);
    assert b[0..8] == e[0..8] && b[8..16] == e[8..16] && b[16..20] == e[16..20] && b[stride..|b|] == c;
  }

  lemma TimesGrows(d: int, s: nat)
    ensures (d >= 1 ==> d * s >= s) && (d <= -1 ==> d * s + s <= 0)
  {
    assert d >= 1 ==> (d - 1) * s >= 0;
    assert d <= -1 ==> (-1 - d) * s >= 0;
  }

  lemma QuotientIs(n: int, k: int, q: int, r: int, s: nat)
    requires n == k * s == q * s + r && 0 <= r < s
    ensures k == q
  {
    TimesGrows(k - q, s);
    assert (k - q) * s == r;
  }

  lemma CountEntries(k: nat, stride: nat)
    requires stride > 0
    ensures k * stride / stride == k
  {
    var n := k * stride;
    QuotientIs(n, k, n / stride, n % stride, stride);
  }

  /** The loop of multiboot_get_total_memory over the entries at `o`. */
  method SumEntries(m: seq<byte>, o: nat, count: nat, stride: nat, ghost es: seq<Entry>) returns (total: u64)
    requires stride >= 24 && count == |es| && o + |EntriesBytes(es, stride)| <= |m|
    requires m[o..o + |EntriesBytes(es, stride)|] == EntriesBytes(es, stride)
    ensures total == FrameAllocator.TotalLength(Regions(es)) % TWO64
  {
    hide EntriesBytes, Field;
    total := 0;
    var i: nat, at: nat := 0, o;
    ghost var rs, b := Regions(es), EntriesBytes(es, stride);
    assert es[0..] == es && rs[..0] == [];
    while i < count
      invariant i <= count && b == EntriesBytes(es[i..], stride) && at + |b| <= |m| && m[at..at + |b|] == b
      invariant total == FrameAllocator.TotalLength(rs[..i]) % TWO64
    {
      assert es[i..][1..] == es[i + 1..];
      ghost var c := EntriesBytes(es[i + 1..], stride);
      EntryAt(m, at, es[i..], stride, b, c);
      assert rs[..i + 1][..i] == rs[..i] && rs[i] == es[i].ToRegion();
      if Field(m, at + 16, 4) == AVAILABLE {
        FrameAllocator.SumWraps(FrameAllocator.TotalLength(rs[..i]), es[i].len);
        total := (total + Field(m, at + 8, 8)) % TWO64;
      }
      b := c;
      at := at + stride;
      i := i + 1;
    }
    assert rs[..i] == rs;
  }

  /** Reading the memory map tag at `o`, whose payload is `p`. */
  lemma MmapFields(m: seq<byte>, o: nat, es: seq<Entry>, stride: nat, p: seq<byte>, b: seq<byte>)
    requires 24 <= stride < TWO32 && p == MmapTag(es, stride).payload && b == EntriesBytes(es, stride)
    requires o + 8 + |p| <= |m| && m[o + 8..o + 8 + |p|] == p
    ensures |p| == 8 + |es| * stride && Field(m, o + 8, 4) == stride
    ensures o + 16 + |b| <= |m| && m[o + 16..o + 16 + |b|] == b
  {
    hide LittleEndian, ToBytes, EntriesBytes, Power256;
    PowerOf4();
    DecodeEncode(stride, 4);
    ToBytesLength(0, 4);
    EntriesBytesLength(es, stride);
    Within(m, o + 8, p, 0, 4);
    Within(m, o + 8, p, 8, |p|);
    assert p[0..4] == ToBytes(stride, 4) && p[8..|p|] == b;
  }

  /** The basic memory tag: KiB below 1 MiB, KiB above. */
  function BasicTag(lower: u32, upper: u32): Tag {
    Tag(BASIC_MEMINFO, ToBytes(lower, 4) + ToBytes(upper, 4))
  }

  /** Reading the basic memory tag at `o`, whose payload is `p`. */
  lemma BasicFields(m: seq<byte>, o: nat, lower: u32, upper: u32, p: seq<byte>)
    requires p == BasicTag(lower, upper).payload && o + 8 + |p| <= |m| && m[o + 8..o + 8 + |p|] == p
    ensures o + 16 <= |m| && Field(m, o + 8, 4) == lower && Field(m, o + 12, 4) == upper
  {
    hide LittleEndian, ToBytes, Power256;
    PowerOf4();
    DecodeEncode(lower, 4);
    DecodeEncode(upper, 4);
    Within(m, o + 8, p, 0, 4);
    Within(m, o + 8, p, 4, 8);
    assert p[0..4] == ToBytes(lower, 4) && p[4..8] == ToBytes(upper, 4);
  }

  /** What the boot information says about memory: its first memory map holds the entries `es`, its
      first basic memory tag the two sizes. */
  ghost predicate Describes(ts: seq<Tag>, es: seq<Entry>, stride: nat, lower: u32, upper: u32) {
    && 24 <= stride < TWO32
    && (forall i: nat :: First(ts, MMAP, i) ==> ts[i] == MmapTag(es, stride))
    && (forall i: nat :: First(ts, BASIC_MEMINFO, i) ==> ts[i] == BasicTag(lower, upper))
  }

  ghost predicate Has(ts: seq<Tag>, kind: u32) { exists t :: t in ts && t.kind == kind }

  /** multiboot_get_total_memory: with a memory map, the sum pmm_init arrives at; without one, the basic
      sizes and the first MiB; 0 with neither. */
  method TotalMemory(m: seq<byte>, ghost ts: seq<Tag>, ghost es: seq<Entry>, ghost stride: nat, ghost lower: u32,
                     ghost upper: u32)
    returns (total: u64)
    requires |m| >= 8 && m[8..] == Bytes(ts) && forall t :: t in ts ==> Proper(t)
    requires Describes(ts, es, stride, lower, upper)
    ensures Has(ts, MMAP) ==> total == FrameAllocator.TotalLength(Regions(es)) % TWO64
    ensures !Has(ts, MMAP) && Has(ts, BASIC_MEMINFO) ==> total == 1024 * (lower + upper + 1024)
    ensures !Has(ts, MMAP) && !Has(ts, BASIC_MEMINFO) ==> total == 0
  {
    hide Bytes, Start, EntriesBytes, MmapTag, BasicTag, Field, Aligned, Regions, FrameAllocator.TotalLength;
    var mmap, i := FindTag(m, MMAP, ts);
    if mmap.Some? {
      TagAt(m, mmap.value, ts, i);
      total := TotalOfMap(m, mmap.value, es, stride);
      return;
    }
    var basic, j := FindTag(m, BASIC_MEMINFO, ts);
    if basic.None? { return 0; }
    var o := basic.value;
    TagAt(m, o, ts, j);
    BasicFields(m, o, lower, upper, ts[j].payload);
    total := Field(m, o + 8, 4) * 1024 + Field(m, o + 12, 4) * 1024 + 1024 * 1024;
  }

  /** The memory-map half of multiboot_get_total_memory. */
  method TotalOfMap(m: seq<byte>, o: nat, ghost es: seq<Entry>, ghost stride: nat) returns (total: u64)
    requires 24 <= stride < TWO32 && o + 8 + |MmapTag(es, stride).payload| <= |m|
    requires m[o + 8..o + 8 + |MmapTag(es, stride).payload|] == MmapTag(es, stride).payload
    requires Field(m, o + 4, 4) == MmapTag(es, stride).Size()
    ensures total == FrameAllocator.TotalLength(Regions(es)) % TWO64
  {
    hide EntriesBytes, MmapTag, Field, Regions, FrameAllocator.TotalLength;
    ghost var p := MmapTag(es, stride).payload;
    MmapFields(m, o, es, stride, p, EntriesBytes(es, stride));
    var size := Field(m, o + 4, 4);
    var entrySize := Field(m, o + 8, 4);
    CountEntries(|es|, stride);
    total := SumEntries(m, o + 16, (size - 16) / entrySize, entrySize, es);
  }
}
