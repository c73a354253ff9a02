/** Building and checking the cleartext IPv4/UDP packets of the TUN integration test. */
module Ipv4Udp {
  import opened Basics
  import opened InternetChecksum

  function Hi(x: int): byte requires 0 <= x { x / 256 % 256 }
  function Lo(x: int): byte requires 0 <= x { x % 256 }

  // ---------------------------------------------------------------- building

  /** Version and header length, total length, time to live 64, protocol UDP. */
  function Fixed(total: nat): seq<byte> { [0x45, 0, Hi(total), Lo(total), 0, 0, 0, 0, 64, 17, 0, 0] }

  /** The header before its checksum is known; `total` is cut to 16 bits. */
  function Blank(src: seq<byte>, dst: seq<byte>, total: nat): (h: seq<byte>)
    requires |src| == |dst| == 4
    ensures |h| == 20
  {
    Fixed(total) + src + dst
  }

  function Header(src: seq<byte>, dst: seq<byte>, total: nat): (h: seq<byte>)
    requires |src| == |dst| == 4
    ensures |h| == 20
  {
    var b := Blank(src, dst, total);
    var c := Checksum(b);
    b[10 := Hi(c)][11 := Lo(c)]
  }

  function Udp(sport: uint16, dport: uint16, payload: seq<byte>): seq<byte> {
    [Hi(sport), Lo(sport), Hi(dport), Lo(dport), Hi(8 + |payload|), Lo(8 + |payload|), 0, 0] + payload
  }

  function Packet(src: seq<byte>, dst: seq<byte>, sport: uint16, dport: uint16, payload: seq<byte>): seq<byte>
    requires |src| == |dst| == 4
  {
    Header(src, dst, 28 + |payload|) + Udp(sport, dport, payload)
  }

  method PutUint16(p: array<byte>, at: nat, x: nat)
    requires at + 2 <= p.Length
    modifies p
    ensures p[at] == Hi(x) && p[at + 1] == Lo(x)
    ensures forall i | 0 <= i < p.Length && i != at && i != at + 1 :: p[i] == old(p[i])
  {
    p[at] := Hi(x);
    p[at + 1] := Lo(x);
  }

  /** Go's copy into a slice that is long enough. */
  method Copy(p: array<byte>, at: nat, src: seq<byte>)
    requires at + |src| <= p.Length
    modifies p
    ensures forall i | 0 <= i < |src| :: p[at + i] == src[i]
    ensures forall i | 0 <= i < p.Length && !(at <= i < at + |src|) :: p[i] == old(p[i])
  {
    for k := 0 to |src|
      invariant forall i | 0 <= i < k :: p[at + i] == src[i]
      invariant forall i | 0 <= i < p.Length && !(at <= i < at + k) :: p[i] == old(p[i])
    {
      p[at + k] := src[k];
    }
  }

  method BuildBlank(p: array<byte>, src: seq<byte>, dst: seq<byte>, total: nat)
    requires p.Length >= 28 && |src| == |dst| == 4 && forall i | 0 <= i < p.Length :: p[i] == 0
    modifies p
    ensures p[..20] == Blank(src, dst, total)
    ensures forall i | 20 <= i < p.Length :: p[i] == 0
  {
    BuildFixed(p, total);
    Copy(p, 12, src);
    Copy(p, 16, dst);
    hide Fixed;
    assert p[..12] == Fixed(total);
    assert p[12..16] == src && p[16..20] == dst;
    assert p[..20] == p[..12] + p[12..16] + p[16..20];
  }

  method BuildFixed(p: array<byte>, total: nat)
    requires p.Length >= 28 && forall i | 0 <= i < p.Length :: p[i] == 0
    modifies p
    ensures p[..12] == Fixed(total)
    ensures forall i | 12 <= i < p.Length :: p[i] == 0
  {
    p[0] := 0x45;
    PutUint16(p, 2, total);
    p[8] := 64;
    p[9] := 17;
  }

  method BuildIPv4UDP(src: seq<byte>, dst: seq<byte>, sport: uint16, dport: uint16, payload: seq<byte>)
      returns (p: array<byte>)
    requires |src| == |dst| == 4
    ensures fresh(p) && p[..] == Packet(src, dst, sport, dport, payload)
  {
    hide Blank, Checksum;
    var udpLen := 8 + |payload|;
    var total := 20 + udpLen;
    p := new byte[total](_ => 0);
    BuildBlank(p, src, dst, total);
    ghost var b := p[..20];
    var sum := IpChecksum(p[..20]);
    PutUint16(p, 10, sum);
    assert p[..20] == Header(src, dst, total);
    BuildUdp(p, sport, dport, payload);
    assert p[..20] == Header(src, dst, total);
    assert p[..] == p[..20] + p[20..];
  }

  method BuildUdp(p: array<byte>, sport: uint16, dport: uint16, payload: seq<byte>)
    requires p.Length == 28 + |payload| && forall i | 20 <= i < p.Length :: p[i] == 0
    modifies p
    ensures forall i | 0 <= i < 20 :: p[i] == old(p[i])
    ensures p[20..] == Udp(sport, dport, payload)
  {
    PutUint16(p, 20, sport);
    PutUint16(p, 22, dport);
    PutUint16(p, 24, 8 + |payload|);
    Copy(p, 28, payload);
    assert p[28..] == payload;
    assert p[20..28] == Udp(sport, dport, payload)[..8];
    assert p[20..] == p[20..28] + p[28..];
  }

  // ---------------------------------------------------------------- checking

  datatype Check =
    | Accepted | Short | NotIPv4 | BadIHL | BadTotal | NotUDP | BadDst | BadPort
    | OutOfRange  // the slice expression for the port panics

  /** `spare` is what lies in the slice's capacity beyond the packet, which Go lets the port field
    * be sliced from. */
  function CheckIPv4UDP(pkt: seq<byte>, spare: seq<byte>, wantDst: seq<byte>, wantDstPort: uint16): Check {
    if |pkt| < 28 then Short
    else if pkt[0] as int / 16 != 4 then NotIPv4
    else
      var ihl := pkt[0] as int % 16 * 4;
      if ihl < 20 || ihl > |pkt| then BadIHL
      else if Big16(pkt[2], pkt[3]) as int != |pkt| then BadTotal
      else if pkt[9] != 17 then NotUDP
      else if pkt[16..20] != wantDst then BadDst
      else if ihl + 4 > |pkt| + |spare| then OutOfRange
      else if Big16((pkt + spare)[ihl + 2], (pkt + spare)[ihl + 3]) != wantDstPort then BadPort
      else Accepted
  }

  // ---------------------------------------------------------------- laws

  /** Every header that is built sums up to zero when it is checked, however long the payload. */
  lemma HeaderVerifies(src: seq<byte>, dst: seq<byte>, total: nat)
    requires |src| == |dst| == 4
    ensures Checksum(Header(src, dst, total)) == 0
  {
    var b := Blank(src, dst, total);
    assert b[0] == 0x45 && b[1] == 0;
    assert WordSum(b) >= Big16(b[0], b[1]) as int > 0;
    var c := Checksum(b);
    FilledHeaderVerifies(b, 10);
    assert Hi(c) == c as int / 256 && Lo(c) == c as int % 256;
  }

  lemma Big16Bytes(x: nat)
    ensures Big16(Hi(x), Lo(x)) as int == x % 65536
    ensures Big16(Hi(x), Lo(x)) as int == x <==> x <= 65535
  {
    var a, b := x / 256, x % 256;
    var q, r := a / 256, a % 256;
    assert x == (q * 256 + r) * 256 + b;
    assert x == q * 65536 + (r * 256 + b);
  }

  /** The fields the checker looks at, as the builder lays them out. */
  lemma PacketFields(src: seq<byte>, dst: seq<byte>, sport: uint16, dport: uint16, payload: seq<byte>)
    requires |src| == |dst| == 4
    ensures var p := Packet(src, dst, sport, dport, payload);
            && |p| == 28 + |payload|
            && p[0] == 0x45 && p[2] == Hi(|p|) && p[3] == Lo(|p|) && p[9] == 17
            && p[12..16] == src && p[16..20] == dst
            && p[22] == Hi(dport) && p[23] == Lo(dport)
  {}

  /** Two bytes of a packet as a number, the more significant first. */
  function Word(p: seq<byte>, at: nat): int
    requires at + 2 <= |p|
  {
    p[at] as int * 256 + p[at + 1] as int
  }

  /** Section 3.1 of RFC 791 and the UDP header of RFC 768, byte by byte. Lengths are cut to 16 bits. */
  lemma PacketLayout(src: seq<byte>, dst: seq<byte>, sport: uint16, dport: uint16, payload: seq<byte>)
    requires |src| == |dst| == 4
    ensures var p := Packet(src, dst, sport, dport, payload);
            && |p| == 28 + |payload|
            && p[0] == 4 * 16 + 5 && p[1] == 0 && Word(p, 2) == |p| % 65536
            && p[4] == p[5] == p[6] == p[7] == 0 && p[8] == 64 && p[9] == 17
            && Word(p, 10) == Checksum(p[..20][10 := 0][11 := 0])
            && p[12..16] == src && p[16..20] == dst
            && Word(p, 20) == sport && Word(p, 22) == dport && Word(p, 24) == (8 + |payload|) % 65536
            && p[26] == p[27] == 0 && p[28..] == payload
  {
    hide Header, Udp, Checksum;
    var p := Packet(src, dst, sport, dport, payload);
    HeaderLayout(src, dst, |p|);
    UdpLayout(sport, dport, payload);
    assert p[..20] == Header(src, dst, |p|);
    assert p[20..] == Udp(sport, dport, payload);
    assert p[12..16] == p[..20][12..16] && p[16..20] == p[..20][16..20];
    assert p[28..] == p[20..][8..];
  }

  lemma HeaderLayout(src: seq<byte>, dst: seq<byte>, total: nat)
    requires |src| == |dst| == 4
    ensures var h := Header(src, dst, total);
            && h[0] == 4 * 16 + 5 && h[1] == 0 && Word(h, 2) == total % 65536
            && h[4] == h[5] == h[6] == h[7] == 0 && h[8] == 64 && h[9] == 17
            && Word(h, 10) == Checksum(h[10 := 0][11 := 0])
            && h[12..16] == src && h[16..20] == dst
  {
    hide Checksum;
    var b, c := Blank(src, dst, total), Checksum(Blank(src, dst, total));
    assert b[10] == 0 && b[11] == 0;
    assert Header(src, dst, total)[10 := 0][11 := 0] == b;
    SplitWord(total);
    SplitWord(c);
  }

  lemma UdpLayout(sport: uint16, dport: uint16, payload: seq<byte>)
    ensures var u := Udp(sport, dport, payload);
            && |u| == 8 + |payload|
            && Word(u, 0) == sport && Word(u, 2) == dport && Word(u, 4) == (8 + |payload|) % 65536
            && u[6] == u[7] == 0 && u[8..] == payload
  {
    SplitWord(sport);
    SplitWord(dport);
    SplitWord(8 + |payload|);
  }

  lemma SplitWord(x: nat)
    ensures Hi(x) as int * 256 + Lo(x) as int == x % 65536
  {
    Big16Bytes(x);
  }

  /** A packet that was built passes the check exactly for its own destination and port, and only if
    * its payload fits the 16-bit total length; otherwise the cut-off length gives it away. */
  lemma BuiltPacketAcceptedIff(
      src: seq<byte>, dst: seq<byte>, sport: uint16, dport: uint16, payload: seq<byte>,
      spare: seq<byte>, wantDst: seq<byte>, wantDstPort: uint16)
    requires |src| == |dst| == 4
    ensures CheckIPv4UDP(Packet(src, dst, sport, dport, payload), spare, wantDst, wantDstPort) == Accepted
       <==> |payload| <= 65507 && wantDst == dst && wantDstPort == dport
    ensures |payload| > 65507 ==>
              CheckIPv4UDP(Packet(src, dst, sport, dport, payload), spare, wantDst, wantDstPort) == BadTotal
  {
    hide Packet;
    PacketFields(src, dst, sport, dport, payload);
    var p := Packet(src, dst, sport, dport, payload);
    Big16Bytes(|p|);
    Big16Bytes(dport);
    assert (p + spare)[22] == p[22] && (p + spare)[23] == p[23];
  }

  /** Every verdict: the first of these that applies. */
  lemma VerdictIff(pkt: seq<byte>, spare: seq<byte>, wantDst: seq<byte>, wantDstPort: uint16)
    ensures var v := CheckIPv4UDP(pkt, spare, wantDst, wantDstPort);
            && (v == Short <==> |pkt| < 28)
            && (|pkt| >= 28 ==>
                  var version, ihl := pkt[0] as int / 16, 4 * (pkt[0] as int % 16);
                  && (v == NotIPv4 <==> version != 4)
                  && (v == BadIHL <==> version == 4 && !(20 <= ihl <= |pkt|))
                  && (v == BadTotal <==> version == 4 && 20 <= ihl <= |pkt| && Word(pkt, 2) != |pkt|)
                  && (version == 4 && 20 <= ihl <= |pkt| && Word(pkt, 2) == |pkt| ==>
                        && (v == NotUDP <==> pkt[9] != 17)
                        && (v == BadDst <==> pkt[9] == 17 && pkt[16..20] != wantDst)
                        && (pkt[9] == 17 && pkt[16..20] == wantDst && ihl + 4 <= |pkt| ==>
                              && (v == BadPort <==> Word(pkt, ihl + 2) != wantDstPort)
                              && (v == Accepted <==> Word(pkt, ihl + 2) == wantDstPort))))
  {}

  // ---------------------------------------------------------------- where the port is read

  function HeaderLen(pkt: seq<byte>): nat
    requires pkt != []
  {
    pkt[0] as int % 16 * 4
  }

  /** A packet that passes every check of its own fields, and whose header reaches into its last four
    * bytes, where the port would have to be. */
  predicate HeaderReachesEnd(pkt: seq<byte>) {
    && |pkt| >= 28 && pkt[0] as int / 16 == 4 && pkt[9] == 17
    && Big16(pkt[2], pkt[3]) as int == |pkt|
    && |pkt| - 4 < HeaderLen(pkt) <= |pkt|
  }

  /** The check panics exactly on such a packet, for its own destination, in a slice whose capacity
    * does not make up for the missing bytes. */
  lemma OutOfRangeIff(pkt: seq<byte>, spare: seq<byte>, wantDst: seq<byte>, wantDstPort: uint16)
    ensures CheckIPv4UDP(pkt, spare, wantDst, wantDstPort) == OutOfRange <==>
              HeaderReachesEnd(pkt) && pkt[16..20] == wantDst && HeaderLen(pkt) + 4 > |pkt| + |spare|
  {}

  /** So in a slice without spare capacity some call panics exactly for those packets. They have options
    * and between 28 and 63 bytes. */
  lemma RunsOffIff(pkt: seq<byte>)
    ensures (exists dst: seq<byte>, port: uint16 :: CheckIPv4UDP(pkt, [], dst, port) == OutOfRange) <==>
              HeaderReachesEnd(pkt)
    ensures HeaderReachesEnd(pkt) ==> HeaderLen(pkt) > 20 && 28 <= |pkt| <= 63
  {
    if HeaderReachesEnd(pkt) { OutOfRangeIff(pkt, [], pkt[16..20], 0); }
  }

  /** With spare capacity the check then reads a port from bytes that are not the packet's: its verdict
    * depends on what lies behind the packet exactly for the same packets, when there is enough of it. */
  lemma ReadsBeyondIff(pkt: seq<byte>, spare: seq<byte>)
    ensures (exists dst: seq<byte>, port: uint16, other: seq<byte> | |other| == |spare| ::
               CheckIPv4UDP(pkt, spare, dst, port) != CheckIPv4UDP(pkt, other, dst, port)) <==>
              HeaderReachesEnd(pkt) && HeaderLen(pkt) + 4 <= |pkt| + |spare|
  {
    if HeaderReachesEnd(pkt) && HeaderLen(pkt) + 4 <= |pkt| + |spare| {
      var at := HeaderLen(pkt) + 3 - |pkt|;
      var other := spare[at := Bump(spare[at])];
      var dst, port := pkt[16..20], PortAt(pkt + spare, HeaderLen(pkt));
      OtherPort(pkt, spare, other, HeaderLen(pkt));
      assert CheckIPv4UDP(pkt, spare, dst, port) == Accepted && CheckIPv4UDP(pkt, other, dst, port) == BadPort;
    } else {
      forall dst: seq<byte>, port: uint16, other: seq<byte> | |other| == |spare|
        ensures CheckIPv4UDP(pkt, spare, dst, port) == CheckIPv4UDP(pkt, other, dst, port)
      {
        if |pkt| >= 28 && HeaderLen(pkt) + 4 <= |pkt| {
          assert (pkt + spare)[HeaderLen(pkt) + 2] == (pkt + other)[HeaderLen(pkt) + 2];
          assert (pkt + spare)[HeaderLen(pkt) + 3] == (pkt + other)[HeaderLen(pkt) + 3];
        }
      }
    }
  }

  function PortAt(bytes: seq<byte>, ihl: nat): uint16
    requires ihl + 4 <= |bytes|
  {
    Big16(bytes[ihl + 2], bytes[ihl + 3])
  }

  function Bump(b: byte): byte { if b == 255 then 0 else b + 1 }

  /** Changing the port's low byte changes the port. */
  lemma OtherPort(pkt: seq<byte>, spare: seq<byte>, other: seq<byte>, ihl: nat)
    requires |pkt| <= ihl + 3 && ihl + 4 <= |pkt| + |spare|
    requires var at := ihl + 3 - |pkt|; other == spare[at := Bump(spare[at])]
    ensures PortAt(pkt + spare, ihl) != PortAt(pkt + other, ihl)
  {
    assert (pkt + spare)[ihl + 2] == (pkt + other)[ihl + 2];
    assert (pkt + spare)[ihl + 3] != (pkt + other)[ihl + 3];
  }

  /** A packet of n bytes whose header ends within its last four. */
  function Overlong(n: nat): (pkt: seq<byte>)
    requires 28 <= n <= 63
    ensures |pkt| == n
  {
    [0x40 + n / 4, 0, 0, n, 0, 0, 0, 0, 64, 17] + seq(n - 10, i => 0)
  }

  /** There is one of every size from 28 to 63. */
  lemma OverlongRunsOff(n: nat, port: uint16)
    requires 28 <= n <= 63
    ensures CheckIPv4UDP(Overlong(n), [], Overlong(n)[16..20], port) == OutOfRange
  {
    OutOfRangeIff(Overlong(n), [], Overlong(n)[16..20], port);
  }
}
