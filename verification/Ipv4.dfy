/** The IPv4 header checksum of section 3.1 of RFC 791, and the UDP frame that carries it. */
module Ipv4 {
  import opened Bytes
  import opened Wrappers

  const ETHERTYPE_IPV4 := 0x0800
  const IP_PROTO_UDP: byte := 17
  const SRC_IP: bytes := [127, 0, 0, 1]
  const DST_IP: bytes := [127, 0, 0, 1]
  const ETH_LEN := 14
  const IP_LEN := 20
  const UDP_LEN := 8
  const CKSUM_AT := 10

  /** A big-endian 16-bit number. */
  function B16(hi: int, lo: int): int {
    256 * hi + lo
  }

  function Be16(x: int): (r: bytes)
    requires 0 <= x < 0x1_0000
    ensures |r| == 2 && B16(r[0], r[1]) == x
  {
    [x / 256, x % 256]
  }

  /** On the network the high byte comes first. */
  lemma HighByteFirst(x: int)
    requires 0 <= x < 0x1_0000
    ensures Be16(x) == [x / 256, x % 256]
  {
  }

  // ---------- The checksum ----------

  function WordSum(h: bytes): nat
    requires |h| % 2 == 0
  {
    if h == [] then 0 else B16(h[0], h[1]) + WordSum(h[2..])
  }

  /** Carries above 16 bits are added back in until there are none. */
  function Fold(total: nat): nat {
    if total < 0x1_0000 then total else Fold(total % 0x1_0000 + total / 0x1_0000)
  }

  function Complement(total: nat): (c: nat)
    requires total < 0x1_0000
    ensures c < 0x1_0000
  {
    0xFFFF - total
  }

  function Checksum(h: bytes): (c: nat)
    requires |h| % 2 == 0
    ensures c < 0x1_0000
  {
    FoldKeepsResidue(WordSum(h));
    Complement(Fold(WordSum(h)))
  }

  method ComputeChecksum(h: bytes) returns (c: nat)
    requires |h| % 2 == 0
    ensures c == Checksum(h)
  {
    hide B16;
    var total, i := 0, 0;
    while i < |h|
      invariant 0 <= i <= |h| && i % 2 == 0 && 0 <= total
      invariant total + WordSum(h[i..]) == WordSum(h)
    {
      assert h[i..][2..] == h[i + 2..];
      WordIsSmall(h[i], h[i + 1]);
      total := total + B16(h[i], h[i + 1]);
      i := i + 2;
    }
    while total / 0x1_0000 != 0
      invariant 0 <= total && Fold(total) == Fold(WordSum(h))
      decreases total
    {
      total := total % 0x1_0000 + total / 0x1_0000;
    }
    c := Complement(total);
  }

  lemma WordIsSmall(hi: byte, lo: byte)
    ensures 0 <= B16(hi, lo) < 0x1_0000
  {
  }

  lemma OneFold(total: nat)
    ensures (total % 0x1_0000 + total / 0x1_0000) % 0xFFFF == total % 0xFFFF
  {
    var q, r := total / 0x1_0000, total % 0x1_0000;
    assert total == (q + r) + 0xFFFF * q;
    SameResidue(q + r, q);
  }

  lemma SameResidue(a: int, q: int)
    ensures (a + 0xFFFF * q) % 0xFFFF == a % 0xFFFF
  {
    var d := a / 0xFFFF;
    assert a + 0xFFFF * q == a % 0xFFFF + 0xFFFF * (d + q);
    QuotientUnique(a + 0xFFFF * q, d + q, a % 0xFFFF);
  }

  lemma QuotientUnique(x: int, q: int, r: int)
    requires x == r + 0xFFFF * q && 0 <= r < 0xFFFF
    ensures x % 0xFFFF == r
  {
  }

  /** The folding keeps the sum modulo 0xFFFF, and comes to nothing only from nothing. */
  lemma {:induction false} FoldKeepsResidue(total: nat)
    ensures Fold(total) < 0x1_0000 && Fold(total) % 0xFFFF == total % 0xFFFF
    ensures Fold(total) == 0 <==> total == 0
    decreases total
  {
    if total < 0x1_0000 {
    } else {
      OneFold(total);
      FoldKeepsResidue(total % 0x1_0000 + total / 0x1_0000);
    }
  }

  /** A header verifies when its words sum to a positive multiple of 0xFFFF. */
  lemma VerifiesWhen(h: bytes)
    requires |h| % 2 == 0
    ensures Checksum(h) == 0 <==> WordSum(h) != 0 && WordSum(h) % 0xFFFF == 0
  {
    FoldKeepsResidue(WordSum(h));
  }

  function PutWord(h: bytes, k: nat, w: int): (r: bytes)
    requires k + 2 <= |h| && 0 <= w < 0x1_0000
    ensures |r| == |h|
  {
    h[..k] + Be16(w) + h[k + 2..]
  }

  lemma {:induction false} SumOfPutWord(h: bytes, k: nat, w: int)
    requires |h| % 2 == 0 && k % 2 == 0 && k + 2 <= |h| && 0 <= w < 0x1_0000
    ensures WordSum(PutWord(h, k, w)) + B16(h[k], h[k + 1]) == WordSum(h) + w
    decreases h
  {
    hide B16, Be16;
    var r := PutWord(h, k, w);
    if k == 0 {
      assert r[2..] == h[2..] && r[0] == Be16(w)[0] && r[1] == Be16(w)[1];
    } else {
      SumOfPutWord(h[2..], k - 2, w);
      assert r[2..] == PutWord(h[2..], k - 2, w) by {
        assert h[2..][..k - 2] == h[..k][2..] && h[2..][k..] == h[k + 2..];
      }
    }
  }

  lemma ChecksumComplements(h: bytes)
    requires |h| % 2 == 0
    ensures Checksum(h) == 0xFFFF - Fold(WordSum(h))
  {
  }

  lemma ZeroWord(hi: byte, lo: byte)
    requires hi == lo == 0
    ensures B16(hi, lo) == 0
  {
  }

  /** Put where the word was zero, the checksum makes the header verify. */
  lemma ChecksumVerifies(h: bytes, k: nat)
    requires |h| % 2 == 0 && k % 2 == 0 && k + 2 <= |h| && h[k] == 0 && h[k + 1] == 0
    ensures Checksum(PutWord(h, k, Checksum(h))) == 0
  {
    hide WordSum, PutWord, Fold, Checksum, B16;
    var t := WordSum(h);
    FoldKeepsResidue(t);
    ChecksumComplements(h);
    ZeroWord(h[k], h[k + 1]);
    SumOfPutWord(h, k, Checksum(h));
    ComplementCloses(t, Fold(t));
    VerifiesWhen(PutWord(h, k, Checksum(h)));
  }

  lemma ComplementCloses(t: nat, folded: nat)
    requires folded < 0x1_0000 && folded % 0xFFFF == t % 0xFFFF && (folded == 0 <==> t == 0)
    ensures (t + (0xFFFF - folded)) % 0xFFFF == 0 && t + (0xFFFF - folded) != 0
  {
    var d, e := t / 0xFFFF, folded / 0xFFFF;
    assert t - folded == 0xFFFF * (d - e);
    QuotientUnique(t + (0xFFFF - folded), d - e + 1, 0);
  }

  /**
   One changed word is noticed - except that 0 and 0xFFFF cannot be told apart, where something else
   in the header keeps the sum from being zero.
   */
  lemma WordChangeDetected(h: bytes, k: nat, w: int)
    requires |h| % 2 == 0 && k % 2 == 0 && k + 2 <= |h| && 0 <= w < 0x1_0000 && Checksum(h) == 0
    ensures var was := B16(h[k], h[k + 1]);
            Checksum(PutWord(h, k, w)) == 0 <==>
            w == was || (w == 0 && was == 0xFFFF && WordSum(h) != 0xFFFF) || (w == 0xFFFF && was == 0)
  {
    var was := B16(h[k], h[k + 1]);
    WordIsSmall(h[k], h[k + 1]);
    VerifiesWhen(h);
    VerifiesWhen(PutWord(h, k, w));
    SumOfPutWord(h, k, w);
    ShiftedMultiple(WordSum(h), w - was);
  }

  lemma ShiftedMultiple(t: int, d: int)
    requires t % 0xFFFF == 0 && -0xFFFF <= d <= 0xFFFF
    ensures (t + d) % 0xFFFF == 0 <==> d == 0 || d == 0xFFFF || d == -0xFFFF
  {
    SameResidue(d, t / 0xFFFF);
  }

  // ---------- The frame ----------

  function Header(totalLen: int): bytes
    requires 0 <= totalLen < 0x1_0000
  {
    [0x45, 0] + Be16(totalLen) + [0, 0, 0, 0, 64, IP_PROTO_UDP, 0, 0] + SRC_IP + DST_IP
  }

  /** None where packing a length or a port into 16 bits raises. */
  function Udp4Frame(payload: bytes, dstPort: int, srcPort: int): Option<bytes> {
    var total := IP_LEN + UDP_LEN + |payload|;
    if total >= 0x1_0000 || !(0 <= dstPort < 0x1_0000) || !(0 <= srcPort < 0x1_0000) then None
    else
      var udp := Be16(srcPort) + Be16(dstPort) + Be16(UDP_LEN + |payload|) + [0, 0] + payload;
      var ip := Header(total);
      Some(Zeros(12) + Be16(ETHERTYPE_IPV4) + PutWord(ip, CKSUM_AT, Checksum(ip)) + udp)
  }

  datatype Datagram = Datagram(srcPort: int, dstPort: int, payload: bytes)

  /** What a receiver takes from a frame, checking every length and the header checksum. */
  function Dissect(frame: bytes): Option<Datagram> {
    if |frame| < ETH_LEN + IP_LEN + UDP_LEN || B16(frame[12], frame[13]) != ETHERTYPE_IPV4 then None
    else
      var ip, udp := frame[ETH_LEN..ETH_LEN + IP_LEN], frame[ETH_LEN + IP_LEN..];
      if ip[0] != 0x45 || ip[9] != IP_PROTO_UDP || B16(ip[2], ip[3]) != |frame| - ETH_LEN || Checksum(ip) != 0 then None
      else if B16(udp[4], udp[5]) != |udp| then None
      else Some(Datagram(B16(udp[0], udp[1]), B16(udp[2], udp[3]), udp[UDP_LEN..]))
  }

  /** Every frame that can be built is received whole: payload, ports, both lengths and the checksum. */
  lemma DissectOfFrame(payload: bytes, dstPort: int, srcPort: int)
    ensures Udp4Frame(payload, dstPort, srcPort).Some? <==>
            |payload| <= 0xFFFF - 28 && 0 <= dstPort < 0x1_0000 && 0 <= srcPort < 0x1_0000
    ensures var frame := Udp4Frame(payload, dstPort, srcPort);
            frame.Some? ==> Dissect(frame.value) == Some(Datagram(srcPort, dstPort, payload))
  {
    hide B16, Be16, Checksum;
    var made := Udp4Frame(payload, dstPort, srcPort);
    if made.Some? {
      var frame, total := made.value, IP_LEN + UDP_LEN + |payload|;
      var ip := Header(total);
      var sealed := PutWord(ip, CKSUM_AT, Checksum(ip));
      ChecksumVerifies(ip, CKSUM_AT);
      var udp := Be16(srcPort) + Be16(dstPort) + Be16(UDP_LEN + |payload|) + [0, 0] + payload;
      assert frame[ETH_LEN..ETH_LEN + IP_LEN] == sealed && frame[ETH_LEN + IP_LEN..] == udp;
      assert frame[12] == Be16(ETHERTYPE_IPV4)[0] && frame[13] == Be16(ETHERTYPE_IPV4)[1];
      assert sealed[2] == Be16(total)[0] && sealed[3] == Be16(total)[1];
      assert sealed[0] == 0x45 && sealed[9] == IP_PROTO_UDP;
      assert udp[UDP_LEN..] == payload;
    }
  }
}
