/** The Internet checksum and the echo reply (kernel/net/net.c). */
module Internet {
  import opened Words

  // ---------------------------------------------------------------- the checksum

  /** The sum of the 16-bit words of a buffer as an x86 loads them; an odd last byte is a word of its own. */
  function WordSum(d: seq<byte>): nat {
    if d == [] then 0 else if |d| == 1 then d[0] else d[0] + 0x100 * d[1] + WordSum(d[2..])
  }

  /** Adding the carries back in until 16 bits are left. */
  function Fold(s: nat): nat
    decreases s
  {
    if s < 0x1_0000 then s else Fold(s % 0x1_0000 + s / 0x1_0000)
  }

  lemma {:induction false} FoldIsRemainder(s: nat)
    ensures Fold(s) < 0x1_0000 && Fold(s) % 0xFFFF == s % 0xFFFF && (Fold(s) == 0 <==> s == 0)
    decreases s
  {
    if s >= 0x1_0000 {
      var t := s % 0x1_0000 + s / 0x1_0000;
      assert s == t + 0xFFFF * (s / 0x1_0000);
      FoldIsRemainder(t);
      SameRemainder(t, s / 0x1_0000);
    }
  }

  lemma SameRemainder(t: nat, q: nat)
    ensures (t + 0xFFFF * q) % 0xFFFF == t % 0xFFFF
  {
    var a, r := t / 0xFFFF, t % 0xFFFF;
    assert t + 0xFFFF * q == 0xFFFF * (a + q) + r;
  }

  /** ip_checksum. */
  function Checksum(d: seq<byte>): (c: u16) {
    FoldIsRemainder(WordSum(d));
    0xFFFF - Fold(WordSum(d))
  }

  /** A buffer verifies when its sum is a positive multiple of 0xFFFF. */
  lemma VerifiesIff(d: seq<byte>)
    ensures Checksum(d) == 0 <==> WordSum(d) > 0 && WordSum(d) % 0xFFFF == 0
  {
    FoldIsRemainder(WordSum(d));
  }

  /** Storing a word into an even-aligned field that is zero adds the word to the sum. */
  lemma {:induction false} SumWithField(d: seq<byte>, o: nat, lo: byte, hi: byte)
    requires o % 2 == 0 && o + 2 <= |d| && d[o] == 0 && d[o + 1] == 0
    ensures WordSum(d[o := lo][o + 1 := hi]) == WordSum(d) + lo + 0x100 * hi
    decreases |d|
  {
    var e := d[o := lo][o + 1 := hi];
    if o == 0 {
      assert e[2..] == d[2..];
    } else {
      SumWithField(d[2..], o - 2, lo, hi);
      assert e[2..] == d[2..][o - 2 := lo][o - 1 := hi];
    }
  }

  /** Storing the checksum of a buffer into its zeroed field makes the buffer verify. */
  lemma ChecksumMakesItVerify(d: seq<byte>, o: nat)
    requires o % 2 == 0 && o + 2 <= |d| && d[o] == 0 && d[o + 1] == 0
    ensures Checksum(d[o := Checksum(d) % 0x100][o + 1 := Checksum(d) / 0x100]) == 0
  {
    var c := Checksum(d);
    SumWithField(d, o, c % 0x100, c / 0x100);
    var s := WordSum(d);
    FoldIsRemainder(s);
    var e := d[o := c % 0x100][o + 1 := c / 0x100];
    assert WordSum(e) == s + 0xFFFF - Fold(s);
    MultipleOf(s, Fold(s));
    VerifiesIff(e);
  }

  lemma MultipleOf(s: nat, f: nat)
    requires f <= 0xFFFF && f % 0xFFFF == s % 0xFFFF
    ensures (s + 0xFFFF - f) % 0xFFFF == 0
  {
    var a, r := s / 0xFFFF, s % 0xFFFF;
    assert s == 0xFFFF * a + r;
    if f == 0xFFFF {
      assert s + 0xFFFF - f == 0xFFFF * a;
    } else {
      assert f == r;
      assert s + 0xFFFF - f == 0xFFFF * (a + 1);
    }
  }

  /** The same sum taken over big-endian words, as section 2 of RFC 1071 describes it. */
  function NetworkSum(d: seq<byte>): nat {
    if d == [] then 0 else if |d| == 1 then 0x100 * d[0] else 0x100 * d[0] + d[1] + NetworkSum(d[2..])
  }

  /** Byte order does not matter: the network-order sum is 256 times the native one, modulo 0xFFFF. */
  lemma {:induction false} ByteOrder(d: seq<byte>) returns (q: int)
    ensures 0x100 * WordSum(d) == NetworkSum(d) + 0xFFFF * q && (NetworkSum(d) == 0 <==> WordSum(d) == 0)
  {
    if |d| < 2 {
      q := 0;
    } else {
      var p := ByteOrder(d[2..]);
      q := p + d[1];
    }
  }

  /** A buffer verifies on a big-endian machine exactly when it verifies here. */
  lemma VerifiesInAnyByteOrder(d: seq<byte>)
    ensures Fold(NetworkSum(d)) == 0xFFFF <==> Checksum(d) == 0
  {
    var q := ByteOrder(d);
    var n, s := NetworkSum(d), WordSum(d);
    FoldIsRemainder(n);
    VerifiesIff(d);
    Coprime(s, n, q);
  }

  lemma Coprime(s: nat, n: nat, q: int)
    requires 0x100 * s == n + 0xFFFF * q
    ensures n % 0xFFFF == 0 <==> s % 0xFFFF == 0
  {
    if s % 0xFFFF == 0 {
      var a := s / 0xFFFF;
      assert n == 0xFFFF * (0x100 * a - q);
    }
    if n % 0xFFFF == 0 {
      var b := n / 0xFFFF;
      // 256 * 256 is 1 more than 0xFFFF
      assert 0x100 * 0x100 * s == 0x100 * (0xFFFF * (b + q));
      assert s == 0xFFFF * (0x100 * (b + q) - s);
    }
  }

  /** ip_checksum, whose 32-bit sum cannot overflow below 128 KiB. */
  method IpChecksum(d: seq<byte>) returns (c: u16)
    requires |d| <= 0x2_0000
    ensures c == Checksum(d)
  {
    var sum: u32 := 0;
    var i := 0;
    assert d[0..] == d;
    while |d| - i > 1
      invariant i <= |d| && i % 2 == 0 && sum + WordSum(d[i..]) == WordSum(d) && sum <= 0xFFFF * (i / 2)
    {
      assert d[i..][2..] == d[i + 2..];
      var hi: int := d[i + 1];
      sum := sum + (d[i] + 0x100 * hi);
      i := i + 2;
    }
    if i < |d| { sum := sum + d[i]; }
    assert sum == WordSum(d);
    FoldIsRemainder(sum);
    while sum / 0x1_0000 != 0
      invariant Fold(sum) == Fold(WordSum(d))
      decreases sum
    {
      sum := sum % 0x1_0000 + sum / 0x1_0000;
    }
    FoldIsRemainder(WordSum(d));
    c := 0xFFFF - sum;
  }

  // ---------------------------------------------------------------- the echo reply

  const ETH := 14
  const FRAME_MAX := 1518
  const BUFFER := 2048
  const ECHO_REQUEST: byte := 8
  const ECHO_REPLY: byte := 0
  const PROTO_ICMP: byte := 1

  /** (ver_ihl & 0x0F) * 4 */
  function HeaderLength(f: seq<byte>): nat
    requires |f| >= ETH + 20
  {
    f[ETH] % 16 * 4
  }

  /** ntohs(total_length) */
  function TotalLength(f: seq<byte>): u16
    requires |f| >= ETH + 20
  {
    var hi: int := f[ETH + 2];
    hi * 0x100 + f[ETH + 3]
  }

  /** The checks of handle_ip and handle_icmp on a received frame of `len` bytes, up to the length check. */
  predicate IsEchoRequest(f: seq<byte>, len: nat, ip: seq<byte>)
    requires |f| == BUFFER
  {
    && len >= ETH + 20 && f[ETH] / 16 == 4 && f[ETH + 16..ETH + 20] == ip && f[ETH + 9] == PROTO_ICMP
    && len >= ETH + HeaderLength(f) + 8 && f[ETH + HeaderLength(f)] == ECHO_REQUEST
  }

  /** The lengths an echo request must have for the reply to stay inside its buffers: a whole header,
      a whole ICMP header, and all of it received. */
  predicate WellFormed(f: seq<byte>, len: nat)
    requires |f| == BUFFER
  {
    20 <= HeaderLength(f) && HeaderLength(f) + 8 <= TotalLength(f) && ETH + TotalLength(f) <= len <= BUFFER
  }

  /** Byte `k` of the reply to request `f`, checksum fields apart: hardware and Internet addresses
      exchanged, time to live 64, type echo reply, everything else as received. */
  function EchoByte(f: seq<byte>, mac: seq<byte>, ip: seq<byte>, k: nat): byte
    requires |f| == BUFFER && |mac| == 6 && |ip| == 4 && k < BUFFER
  {
    if k < 6 then f[6 + k]
    else if k < 12 then mac[k - 6]
    else if k == ETH + 8 then 64
    else if ETH + 12 <= k < ETH + 16 then ip[k - (ETH + 12)]
    else if ETH + 16 <= k < ETH + 20 then f[k - 4]
    else if k == ETH + HeaderLength(f) then ECHO_REPLY
    else f[k]
  }

  /** `r` answers the request `f`: as long as the request, both checksums verify, and every other byte is as it
      must be. */
  ghost predicate Answers(f: seq<byte>, r: seq<byte>, mac: seq<byte>, ip: seq<byte>)
    requires |f| == BUFFER && |mac| == 6 && |ip| == 4
  {
    var h, n := HeaderLength(f), TotalLength(f);
    && |r| == ETH + n && h <= n && ETH + n <= BUFFER
    && Checksum(r[ETH..ETH + h]) == 0
    && Checksum(r[ETH + h..]) == 0
    && forall k :: 0 <= k < ETH + n && !IsChecksum(h, k) ==> r[k] == EchoByte(f, mac, ip, k)
  }

  /** Byte `k` belongs to one of the two checksum fields. */
  predicate IsChecksum(h: nat, k: nat) {
    ETH + 10 <= k < ETH + 12 || ETH + h + 2 <= k < ETH + h + 4
  }

  /** Field by field: `r` goes to the hardware address the request came from, and from this host's; it goes to
      the Internet address the request came from, and from this host's; its time to live is 64 and it is an echo
      reply; frame type, the rest of the IP header with its options, code, identifier, sequence number and data
      are those of the request; checksums apart. */
  ghost predicate Echoes(f: seq<byte>, r: seq<byte>, mac: seq<byte>, ip: seq<byte>) {
    |f| == 2048 &&
    var h, n := 4 * (f[14] % 16), 256 * (f[16] as int) + f[17];
    && |r| == 14 + n && 20 <= h && h + 8 <= n && 14 + n <= 2048
    && r[0..6] == f[6..12] && r[6..12] == mac && r[12..14] == f[12..14]
    && r[14..22] == f[14..22] && r[22] == 64 && r[23] == f[23]
    && r[26..30] == ip && r[30..34] == f[26..30] && r[34..14 + h] == f[34..14 + h]
    && r[14 + h] == 0 && r[15 + h] == f[15 + h] && r[18 + h..] == f[18 + h..14 + n]
  }

  lemma DataIsEchoed(f: seq<byte>, r: seq<byte>, mac: seq<byte>, ip: seq<byte>)
    requires |f| == BUFFER && |mac| == 6 && |ip| == 4 && WellFormed(f, BUFFER) && Answers(f, r, mac, ip)
    ensures Echoes(f, r, mac, ip)
  {
  }

  /** A host that receives the reply does not answer it: it is not an echo request for anybody. */
  lemma ReplyIsNoRequest(f: seq<byte>, r: seq<byte>, mac: seq<byte>, ip: seq<byte>, g: seq<byte>, len: nat,
                         peer: seq<byte>)
    requires Echoes(f, r, mac, ip) && |g| == BUFFER && r <= g
    ensures !IsEchoRequest(g, len, peer)
  {
    assert g[14] == r[14] == r[14..22][0] == f[14..22][0] == f[14];
  }

  /** `d` with `b` at `o`. */
  ghost predicate Patched(d: seq<byte>, d': seq<byte>, o: nat, b: seq<byte>) {
    |d| == |d'| && o + |b| <= |d| &&
    forall i :: 0 <= i < |d| ==> d'[i] == if o <= i < o + |b| then b[i - o] else d[i]
  }

  /** memcpy of `b` to offset `o` of the buffer. */
  method CopyInto(buf: array<byte>, o: nat, b: seq<byte>)
    requires o + |b| <= buf.Length
    modifies buf
    ensures Patched(old(buf[..]), buf[..], o, b)
  {
    var i := 0;
    while i < |b|
      invariant i <= |b|
      invariant forall k :: 0 <= k < buf.Length ==> buf[k] == if o <= k < o + i then b[k - o] else old(buf[k])
    {
      buf[o + i] := b[i];
      i := i + 1;
    }
  }

  /** Zero the checksum field at `o`, then store there the checksum of the `n` bytes at `at`. */
  method StampChecksum(buf: array<byte>, at: nat, n: nat, o: nat)
    requires o % 2 == 0 && o + 2 <= n && at + n <= buf.Length <= BUFFER
    modifies buf
    ensures Checksum(buf[at..at + n]) == 0
    ensures forall k :: 0 <= k < buf.Length && !(at + o <= k < at + o + 2) ==> buf[k] == old(buf[k])
  {
    hide Checksum;
    buf[at + o], buf[at + o + 1] := 0, 0;
    var d: seq<byte> := buf[at..at + n];
    var c := IpChecksum(d);
    var lo: byte, hi: byte := c % 0x100, c / 0x100;
    ChecksumMakesItVerify(d, o);
    buf[at + o], buf[at + o + 1] := lo, hi;
    assert buf[at..at + n] == d[o := lo][o + 1 := hi];
  }

  /** The copied frame with its addresses exchanged and its time to live set. */
  method Rewrite(reply: array<byte>, f: seq<byte>, mac: seq<byte>, ip: seq<byte>)
    requires |f| == BUFFER && |mac| == 6 && |ip| == 4 && WellFormed(f, BUFFER)
    requires reply.Length == FRAME_MAX && ETH + TotalLength(f) <= FRAME_MAX
    modifies reply
    ensures forall k :: 0 <= k < ETH + TotalLength(f) && k != ETH + HeaderLength(f) ==>
              reply[k] == EchoByte(f, mac, ip, k)
    ensures reply[0..6] == f[6..12] && reply[6..12] == mac && reply[ETH + 8] == 64
    ensures reply[ETH + 12..ETH + 16] == ip && reply[ETH + 16..ETH + 20] == f[ETH + 12..ETH + 16]
    ensures forall k :: 12 <= k < ETH + TotalLength(f) && k != ETH + 8 && !(ETH + 12 <= k < ETH + 20) ==>
              reply[k] == f[k]
  {
    CopyInto(reply, 0, f[..ETH + TotalLength(f)]);
    CopyInto(reply, 0, f[6..12]);
    CopyInto(reply, 6, mac);
    CopyInto(reply, ETH + 16, f[ETH + 12..ETH + 16]);
    CopyInto(reply, ETH + 12, ip);
    reply[ETH + 8] := 64;
  }

  /** handle_ip and handle_icmp on a frame of `len` bytes in the receive buffer: the frame sent, if any. */
  method HandleIp(frame: array<byte>, len: nat, mac: seq<byte>, ip: seq<byte>) returns (sent: Option<seq<byte>>)
    requires frame.Length == BUFFER && len <= BUFFER && |mac| == 6 && |ip| == 4
    requires IsEchoRequest(frame[..], len, ip) ==> WellFormed(frame[..], len)
    ensures sent.Some? <==> IsEchoRequest(frame[..], len, ip) && ETH + TotalLength(frame[..]) <= FRAME_MAX
    ensures sent.Some? ==> Answers(frame[..], sent.value, mac, ip) && Echoes(frame[..], sent.value, mac, ip)
    ensures sent.Some? <==>
              && len >= 34 && frame[14] / 16 == 4 && frame[30..34] == ip && frame[23] == 1
              && var h := 4 * (frame[14] % 16);
                 len >= h + 22 && frame[14 + h] == 8 && 256 * (frame[16] as int) + frame[17] <= 1504
  {
    var f := frame[..];
    if len < ETH + 20 || f[ETH] / 16 != 4 || f[ETH + 16..ETH + 20] != ip || f[ETH + 9] != PROTO_ICMP { return None; }
    var h, n := HeaderLength(f), TotalLength(f);
    if len < ETH + h + 8 || f[ETH + h] != ECHO_REQUEST { return None; }
    if ETH + n > FRAME_MAX { return None; }
    var r := BuildReply(f, mac, ip);
    sent := Some(r);
  }

  /** Two hosts: the one that is sent the reply stays silent. */
  method PeerIsSilent(frame: array<byte>, len: nat, mac: seq<byte>, ip: seq<byte>, peerMac: seq<byte>,
                      peerIp: seq<byte>)
    returns (answered: bool, again: Option<seq<byte>>)
    requires frame.Length == BUFFER && len <= BUFFER && |mac| == |peerMac| == 6 && |ip| == |peerIp| == 4
    requires IsEchoRequest(frame[..], len, ip) ==> WellFormed(frame[..], len)
    ensures answered <==> IsEchoRequest(frame[..], len, ip) && ETH + TotalLength(frame[..]) <= FRAME_MAX
    ensures again.None?
  {
    hide Answers, Echoes, IsEchoRequest, WellFormed;
    var sent := HandleIp(frame, len, mac, ip);
    if sent.None? { return false, None; }
    EchoFits(frame[..], sent.value, mac, ip);
    var received := new byte[BUFFER](_ => 0);
    CopyInto(received, 0, sent.value);
    assert sent.value <= received[..];
    ReplyIsNoRequest(frame[..], sent.value, mac, ip, received[..], |sent.value|, peerIp);
    again := HandleIp(received, |sent.value|, peerMac, peerIp);
    answered := true;
  }

  lemma EchoFits(f: seq<byte>, r: seq<byte>, mac: seq<byte>, ip: seq<byte>)
    requires Echoes(f, r, mac, ip)
    ensures |r| <= BUFFER
  {
  }

  method BuildReply(f: seq<byte>, mac: seq<byte>, ip: seq<byte>) returns (r: seq<byte>)
    requires |f| == BUFFER && |mac| == 6 && |ip| == 4 && WellFormed(f, BUFFER) && ETH + TotalLength(f) <= FRAME_MAX
    ensures Answers(f, r, mac, ip) && Echoes(f, r, mac, ip)
  {
    assert EchoByte(f, mac, ip, ETH + HeaderLength(f)) == ECHO_REPLY;
    hide Checksum, EchoByte, Echoes;
    var h, n := HeaderLength(f), TotalLength(f);
    var reply := new byte[FRAME_MAX];
    Rewrite(reply, f, mac, ip);
    StampChecksum(reply, ETH, h, 10);
    ghost var stamped := reply[ETH..ETH + h];
    reply[ETH + h] := ECHO_REPLY;
    StampChecksum(reply, ETH + h, n - h, 2);
    r := reply[..ETH + n];
    assert r[ETH..ETH + h] == stamped;
    assert r[ETH + h..] == reply[ETH + h..ETH + h + (n - h)];
    DataIsEchoed(f, r, mac, ip);
  }
}
