/** A growable in-memory file (kernel/fs/ramfs.c). */
module Ramfs {
  import opened Words

  const TWO31: int := 0x8000_0000

  /** 64 * 2^k */
  predicate IsCapacity(c: nat)
    decreases c
  {
    c == 64 || (c > 64 && c % 2 == 0 && IsCapacity(c / 2))
  }

  /** `c` zero-extended to `off` if shorter, with `buf` written at `off`. */
  ghost function Splice(c: seq<byte>, off: nat, buf: seq<byte>): seq<byte> {
    if off > |c| then c + Zeros(off - |c|) + buf
    else if off + |buf| < |c| then c[..off] + buf + c[off + |buf|..]
    else c[..off] + buf
  }

  lemma SpliceAt(c: seq<byte>, off: nat, buf: seq<byte>)
    ensures |Splice(c, off, buf)| == if off + |buf| > |c| then off + |buf| else |c|
    ensures forall i :: 0 <= i < |Splice(c, off, buf)| ==>
              Splice(c, off, buf)[i] == if off <= i < off + |buf| then buf[i - off] else if i < |c| then c[i] else 0
  {
  }

  /** Overwriting a buffer acts on the contents as a write to a zero-extended sequence exactly when
      the bytes skipped over, from the old end to the offset, are zero. */
  lemma SplicesIffGapIsZero(c: seq<byte>, c': seq<byte>, off: nat, buf: seq<byte>, gap: seq<byte>)
    requires |gap| == if off > |c| then off - |c| else 0
    requires |c'| == if off + |buf| > |c| then off + |buf| else |c|
    requires forall i :: 0 <= i < |c'| ==>
               c'[i] == if off <= i < off + |buf| then buf[i - off] else if i < |c| then c[i] else gap[i - |c|]
    ensures c' == Splice(c, off, buf) <==> gap == Zeros(|gap|)
  {
    SpliceAt(c, off, buf);
    var s := Splice(c, off, buf);
    if gap == Zeros(|gap|) {
      assert c' == s;
    } else {
      var i :| 0 <= i < |gap| && gap[i] != 0;
      assert c'[|c| + i] != s[|c| + i];
    }
  }

  /** `b'` is `b` with `buf` written at `off`; bytes skipped over, from the old end on, may be anything. */
  ghost predicate Overwrites(b: seq<byte>, off: nat, buf: seq<byte>, b': seq<byte>) {
    && |b'| == (if off + |buf| > |b| then off + |buf| else |b|)
    && (forall i :: off <= i < off + |buf| ==> b'[i] == buf[i - off])
    && (forall i :: 0 <= i < |b| && !(off <= i < off + |buf|) ==> b'[i] == b[i])
  }

  /** A write at or before the end is a splice. */
  lemma OverwriteIsSplice(b: seq<byte>, off: nat, buf: seq<byte>, b': seq<byte>)
    requires Overwrites(b, off, buf, b') && off <= |b|
    ensures b' == Splice(b, off, buf)
  {
    SpliceAt(b, off, buf);
  }

  /** The contents after a write into buffer `b`, of which `size` bytes belong to the file. */
  ghost function AfterWrite(b: seq<byte>, size: nat, off: nat, buf: seq<byte>): seq<byte>
    requires size <= |b| && off + |buf| <= |b|
  {
    (b[..off] + buf + b[off + |buf|..])[..if off + |buf| > size then off + |buf| else size]
  }

  /** Of offset and size alone: a write acts on the contents as on a zero-extended sequence, whatever the
      buffer holds beyond the end, if and only if the offset is not beyond the end. */
  lemma SplicesForEveryBufferIff(size: nat, off: nat, buf: seq<byte>)
    ensures off <= size <==>
              forall b: seq<byte> :: size <= |b| && off + |buf| <= |b| ==>
                AfterWrite(b, size, off, buf) == Splice(b[..size], off, buf)
  {
    hide AfterWrite, Splice;
    if off <= size {
      forall b: seq<byte> | size <= |b| && off + |buf| <= |b|
        ensures AfterWrite(b, size, off, buf) == Splice(b[..size], off, buf)
      {
        WriteWithinSplices(b, size, off, buf);
      }
    } else {
      var b := seq<byte>(off + |buf|, _ => 1);
      WriteBeyondExposes(b, size, off, buf);
    }
  }

  lemma WriteWithinSplices(b: seq<byte>, size: nat, off: nat, buf: seq<byte>)
    requires off <= size <= |b| && off + |buf| <= |b|
    ensures AfterWrite(b, size, off, buf) == Splice(b[..size], off, buf)
  {
    SpliceAt(b[..size], off, buf);
  }

  lemma WriteBeyondExposes(b: seq<byte>, size: nat, off: nat, buf: seq<byte>)
    requires size < off && off + |buf| <= |b| && b[size] != 0
    ensures AfterWrite(b, size, off, buf) != Splice(b[..size], off, buf)
  {
    SpliceAt(b[..size], off, buf);
    assert AfterWrite(b, size, off, buf)[size] == b[size] && Splice(b[..size], off, buf)[size] == 0;
  }

  class File {
    var data: array?<byte>
    var size: nat
    /** Bytes copied by all growth so far. */
    ghost var copied: nat

    function Capacity(): nat
      reads this
    {
      if data == null then 0 else data.Length
    }

    ghost predicate Valid()
      reads this
    {
      size <= Capacity() <= TWO31 && (data != null ==> IsCapacity(data.Length)) && copied <= Capacity()
    }

    /** The file as bytes without end: what the buffer holds, then zeros. */
    ghost function At(i: nat): byte
      reads this, data
    {
      if data != null && i < data.Length then data[i] else 0
    }

    ghost function Contents(): seq<byte>
      reads this, data
    {
      seq(size, i requires 0 <= i reads this, data => At(i))
    }

    /** The buffer's bytes from the end of the file up to `off`. */
    ghost function Gap(off: nat): (g: seq<byte>)
      reads this, data
      ensures |g| == (if off > size then off - size else 0) && forall i :: 0 <= i < |g| ==> g[i] == At(size + i)
    {
      seq<byte>(if off > size then off - size else 0, i requires 0 <= i reads this, data => At(size + i))
    }

    /** Nothing but zeros beyond the end. */
    ghost predicate Clean()
      reads this, data
    {
      forall i: nat :: i >= size ==> At(i) == 0
    }

    constructor ()
      ensures Valid() && Clean() && Contents() == [] && data == null && copied == 0
    {
      data, size, copied := null, 0, 0;
    }

    /** The doubling loop of ensure_capacity. */
    method Grown(needed: nat) returns (cap: nat)
      requires Valid() && Capacity() < needed <= TWO31
      ensures needed <= cap <= TWO31 && IsCapacity(cap)
      ensures data == null ==> cap == 64 || cap < 2 * needed
      ensures data != null ==> 2 * Capacity() <= cap < 2 * needed
    {
      cap := if data == null then 64 else data.Length;
      PowersOfTwo(cap);
      while cap < needed
        invariant IsCapacity(cap) && cap <= TWO31
        invariant data == null ==> cap == 64 || cap < 2 * needed
        invariant data != null ==> cap == Capacity() || 2 * Capacity() <= cap < 2 * needed
        decreases TWO31 - cap
      {
        HalfOfTwo31(cap);
        cap := cap * 2;
      }
    }

    /** ensure_capacity; `mem` says whether kmalloc succeeds. Growing changes no byte of the file. */
    method EnsureCapacity(needed: nat, mem: bool) returns (ok: bool)
      requires Valid() && needed <= TWO31
      modifies this`data, this`copied
      ensures Valid() && (ok <==> needed <= old(Capacity()) || mem)
      ensures ok ==> needed <= Capacity()
      ensures !ok || needed <= old(Capacity()) ==> data == old(data)
      ensures data == old(data) || fresh(data)
      ensures forall i: nat :: At(i) == old(At(i))
    {
      if needed <= Capacity() { return true; }
      var cap := Grown(needed);
      if !mem { return false; }
      var was, buf := data, new byte[cap];
      var i := 0;
      if was != null {
        while i < was.Length
          invariant i <= was.Length && forall k :: 0 <= k < i ==> buf[k] == was[k]
          modifies buf
        {
          buf[i] := was[i];
          i := i + 1;
        }
        copied := copied + was.Length;
      }
      var kept := i;
      while i < cap
        invariant kept <= i <= cap
        invariant forall k :: 0 <= k < kept ==> buf[k] == was[k]
        invariant forall k :: kept <= k < i ==> buf[k] == 0
        modifies buf
      {
        buf[i] := 0;
        i := i + 1;
      }
      data := buf;
      ok := true;
    }

    /** ramfs_write: exactly the bytes written change, and the size grows to cover them. */
    method Write(off: nat, buf: seq<byte>, mem: bool) returns (n: int)
      requires Valid() && off + |buf| < TWO31
      modifies this, data
      ensures Valid() && (data == old(data) || fresh(data))
      ensures n == if off + |buf| <= old(Capacity()) || mem then |buf| else -1
      ensures n < 0 ==> size == old(size) && data == old(data) && forall i: nat :: At(i) == old(At(i))
      ensures n >= 0 ==> size == if off + |buf| > old(size) then off + |buf| else old(size)
      ensures n >= 0 ==> forall i: nat :: At(i) == if off <= i < off + |buf| then buf[i - off] else old(At(i))
      ensures n >= 0 ==> Overwrites(old(Contents()), off, buf, Contents())
      ensures n < 0 || (n >= 0 && off <= old(size)) ==>
                Contents() == if n < 0 then old(Contents()) else Splice(old(Contents()), off, buf)
      ensures n >= 0 ==> (Contents() == Splice(old(Contents()), off, buf) <==> old(Gap(off)) == Zeros(|old(Gap(off))|))
      ensures old(Clean()) ==> Clean() && old(Gap(off)) == Zeros(|old(Gap(off))|)
    {
      hide Splice, IsCapacity;
      ghost var c, gap, clean := Contents(), Gap(off), Clean();
      n := PutBytes(off, buf, mem);
      if n < 0 {
        assert Contents() == c;
        return;
      }
      SplicesIffGapIsZero(c, Contents(), off, buf, gap);
      assert clean ==> gap == Zeros(|gap|);
      assert Overwrites(c, off, buf, Contents());
      if off <= |c| { OverwriteIsSplice(c, off, buf, Contents()); }
    }

    /** Its effect on the buffer. */
    method PutBytes(off: nat, buf: seq<byte>, mem: bool) returns (n: int)
      requires Valid() && off + |buf| < TWO31
      modifies this, data
      ensures Valid() && (data == old(data) || fresh(data))
      ensures n == if off + |buf| <= old(Capacity()) || mem then |buf| else -1
      ensures n < 0 ==> size == old(size) && data == old(data) && forall i: nat :: At(i) == old(At(i))
      ensures n >= 0 ==> size == if off + |buf| > old(size) then off + |buf| else old(size)
      ensures n >= 0 ==> forall i: nat :: At(i) == if off <= i < off + |buf| then buf[i - off] else old(At(i))
    {
      hide IsCapacity;
      var end := off + |buf|;
      var ok := EnsureCapacity(end, mem);
      if !ok { return -1; }
      label grown:
      var i := 0;
      while i < |buf|
        invariant i <= |buf| && Valid() && data == old@grown(data)
        invariant forall k: nat :: At(k) == if off <= k < off + i then buf[k - off] else old(At(k))
        modifies data
      {
        data[off + i] := buf[i];
        i := i + 1;
      }
      label copied:
      if end > size { size := end; }
      assert forall k: nat :: At(k) == old@copied(At(k));
      n := |buf|;
    }

    /** ramfs_read. */
    method Read(off: nat, n: nat) returns (r: seq<byte>)
      requires Valid()
      ensures off >= size ==> r == []
      ensures off < size ==> r == Contents()[off..if off + n > size then size else off + n]
    {
      if off >= size { return []; }
      var m := if n > size - off then size - off else n;
      r := data[off..off + m];
      assert data[..size] == Contents();
      assert r == Contents()[off..off + m];
    }

    /** vfs_open with O_TRUNC: the size is reset, the bytes stay. */
    method Truncate()
      requires Valid()
      modifies this`size
      ensures Valid() && Contents() == [] && forall i: nat :: At(i) == old(At(i))
    {
      size := 0;
    }
  }

  lemma {:induction false} PowersOfTwo(c: nat)
    requires IsCapacity(c) && c <= TWO31
    ensures 64 <= c
  {
  }

  lemma Doubles(c: nat)
    requires IsCapacity(c)
    ensures IsCapacity(2 * c)
  {
  }

  lemma LimitIsCapacity()
    ensures IsCapacity(TWO31)
  {
    assert IsCapacity(0x400);
    Times16(0x400); Times16(0x4000); Times16(0x4_0000); Times16(0x40_0000); Times16(0x400_0000);
    Doubles(0x4000_0000);
  }

  lemma Times16(c: nat)
    requires IsCapacity(c)
    ensures IsCapacity(16 * c)
  {
    Doubles(c); Doubles(2 * c); Doubles(4 * c); Doubles(8 * c);
  }

  /** A capacity below the limit can be doubled without passing it. */
  lemma HalfOfTwo31(c: nat)
    requires IsCapacity(c) && c < TWO31
    ensures 2 * c <= TWO31 && IsCapacity(2 * c)
  {
    Doubles(c);
    LimitIsCapacity();
    NoneBetween(c, TWO31);
  }

  lemma {:induction false} NoneBetween(c: nat, d: nat)
    requires IsCapacity(c) && IsCapacity(d) && c < d
    ensures 2 * c <= d
    decreases c
  {
    if c > 64 {
      NoneBetween(c / 2, d / 2);
    } else {
    }
  }
}
