/** Machine words and bytes. Addresses and words are unbounded integers held in range by type. */
module Words {
  const TWO32: int := 0x1_0000_0000
  const TWO64: int := 0x1_0000_0000_0000_0000

  type byte = x: int | 0 <= x < 256
  type u16 = x: int | 0 <= x < 0x1_0000
  type u32 = x: int | 0 <= x < TWO32
  type u64 = x: int | 0 <= x < TWO64

  datatype Option<+T> = None | Some(value: T) {
    function GetOr(default: T): T { if Some? then value else default }
  }

  /** Subtraction of 32-bit words, which wraps. */
  function Minus32(a: u32, b: u32): u32 {
    if a >= b then a - b else a - b + TWO32
  }

  function Zeros(n: nat): seq<byte> { seq(n, _ => 0) }

  /** The little-endian number whose bytes, lowest first, are given. */
  function LittleEndian(bs: seq<byte>): nat {
    if bs == [] then 0 else bs[0] + 0x100 * LittleEndian(bs[1..])
  }

  /** The `n` low bytes of a number, lowest first. */
  function ToBytes(w: nat, n: nat): seq<byte> {
    if n == 0 then [] else [w % 0x100] + ToBytes(w / 0x100, n - 1)
  }

  lemma {:induction false} ToBytesLength(w: nat, n: nat)
    ensures |ToBytes(w, n)| == n
  {
    if n > 0 { ToBytesLength(w / 0x100, n - 1); }
  }

  function Power256(n: nat): nat {
    if n == 0 then 1 else 0x100 * Power256(n - 1)
  }

  /** Decoding inverts encoding for every number that fits. */
  lemma {:induction false} DecodeEncode(w: nat, n: nat)
    requires w < Power256(n)
    ensures LittleEndian(ToBytes(w, n)) == w && |ToBytes(w, n)| == n
  {
    if n > 0 {
      DecodeEncode(w / 0x100, n - 1);
      assert ToBytes(w, n)[1..] == ToBytes(w / 0x100, n - 1);
    }
  }

  /** And encoding inverts decoding. */
  lemma {:induction false} EncodeDecode(bs: seq<byte>)
    ensures ToBytes(LittleEndian(bs), |bs|) == bs
  {
    if bs != [] {
      EncodeDecode(bs[1..]);
      assert LittleEndian(bs) % 0x100 == bs[0] && LittleEndian(bs) / 0x100 == LittleEndian(bs[1..]);
    }
  }

  lemma {:induction false} LittleEndianBound(bs: seq<byte>)
    ensures LittleEndian(bs) < Power256(|bs|)
  {
    if bs != [] { LittleEndianBound(bs[1..]); }
  }

  lemma Bound4(bs: seq<byte>)
    requires |bs| == 4
    ensures LittleEndian(bs) < TWO32
  {
    LittleEndianBound(bs);
    assert Power256(4) == TWO32;
  }
}
