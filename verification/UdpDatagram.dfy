/** udpcksum/udpwrite.c and udpcksum/udpread.c: a UDP/IP datagram built by overlaying the
    pseudo-header on the IP header, and the validation of a captured one. */
module UdpDatagram {
  import opened Bytes
  import opened Checksum

  const IPPROTO_UDP: Byte := 17
  const TTL_OUT: Byte := 64
  const HEADERS: nat := 28    // sizeof(struct udpiphdr)

  /** A sockaddr_in: address and port, both already in network byte order. */
  datatype Endpoint = Endpoint(addr: seq<Byte>, port: seq<Byte>) {
    ghost predicate Valid() { |addr| == 4 && |port| == 2 }
  }

  /** htons of a value cut to 16 bits: its two bytes in network order. */
  function Htons(n: nat): (b: seq<Byte>)
    ensures |b| == 2
  {
    [n % 0x1_0000 / 0x100, n % 0x100]
  }

  function NetWord(s: seq<Byte>, at: nat): Word
    requires at + 2 <= |s|
  {
    HostWord(Big, s[at], s[at + 1])
  }

  // ------------------------------------------------------------- RFC 768

  /** The pseudo-header of RFC 768: source, destination, zero, protocol, UDP length. */
  function PseudoHeader(src: seq<Byte>, dst: seq<Byte>, udpLength: seq<Byte>): seq<Byte> {
    src + dst + [0, IPPROTO_UDP] + udpLength
  }

  /** A receiver's check, made from the packet alone: the length field fits, and unless the sender
      used no checksum, the sum over pseudo-header and UDP datagram is zero. */
  predicate Rfc768Accepts(e: Endian, packet: seq<Byte>)
    requires |packet| >= HEADERS
  {
    var ulen := NetWord(packet, 24);
    && 8 <= ulen <= |packet| - 20
    && (packet[26] == packet[27] == 0
        || Cksum(e, PseudoHeader(packet[12..16], packet[16..20], packet[24..26]) + packet[20..20 + ulen]) == 0)
  }

  // -------------------------------------------------------- building a packet

  /** Bytes 9 to 25, which overlay and final packet share: protocol, the UDP length where the
      overlay keeps it, addresses, ports, and the UDP length field itself. */
  function SharedFields(src: Endpoint, dst: Endpoint, userlen: nat): seq<Byte> {
    var ulen := Htons(8 + userlen);
    [IPPROTO_UDP] + ulen + src.addr + dst.addr + src.port + dst.port + ulen
  }

  /** The overlay as checksummed: the pseudo-header fields lie where the IP header will be. */
  function Overlay(src: Endpoint, dst: Endpoint, payload: seq<Byte>): seq<Byte> {
    [0, 0, 0, 0, 0, 0, 0, 0, 0] + SharedFields(src, dst, |payload|) + [0, 0] + payload
  }

  /** The checksum field: 0 means none, so a computed 0 is sent as 0xffff. */
  function SentSum(e: Endian, checksummed: seq<Byte>, zerosum: bool): Word {
    if zerosum then 0
    else if Cksum(e, checksummed) == 0 then 0xffff
    else Cksum(e, checksummed)
  }

  /** The packet handed to the raw socket. `lenBytes` is ip_len as stored; bytes 10 and 11 still
      hold the UDP length of the overlay, where the kernel will put the header checksum. */
  function RawPacket(e: Endian, src: Endpoint, dst: Endpoint, payload: seq<Byte>, zerosum: bool,
                     lenBytes: seq<Byte>): seq<Byte> {
    var sum := SentSum(e, Overlay(src, dst, payload), zerosum);
    [0x45, 0] + lenBytes + [0, 0, 0, 0, TTL_OUT] + SharedFields(src, dst, |payload|)
    + [FirstByte(e, sum), SecondByte(e, sum)] + payload
  }

  /** ip_len: network order on linux and OpenBSD, host order elsewhere. */
  function IpLen(e: Endian, networkOrder: bool, total: nat): seq<Byte> {
    if networkOrder then Htons(total)
    else [FirstByte(e, total % 0x1_0000), SecondByte(e, total % 0x1_0000)]
  }

  /** The number that two bytes make, the first one the high one. */
  function BigEndian(high: Byte, low: Byte): (n: int)
    ensures n / 0x100 == high && n % 0x100 == low
  {
    0x100 * (high as int) + low as int
  }

  lemma IpLenMeaning(e: Endian, networkOrder: bool, total: nat)
    requires total <= 0xffff
    ensures var b := IpLen(e, networkOrder, total);
            |b| == 2 && total == if networkOrder || e.Big? then BigEndian(b[0], b[1]) else BigEndian(b[1], b[0])
  {
  }

  /** Lines 27 to 37 of udp_write. */
  method FillShared(src: Endpoint, dst: Endpoint, buf: array<Byte>, userlen: nat)
    requires src.Valid() && dst.Valid() && HEADERS <= buf.Length
    modifies buf
    ensures |SharedFields(src, dst, userlen)| == 17
    ensures forall i :: 0 <= i < buf.Length ==>
              buf[i] == if 9 <= i < 26 then SharedFields(src, dst, userlen)[i - 9] else old(buf[i])
  {
    var ulen := Htons(8 + userlen);
    Put(buf, 10, ulen);
    Put(buf, 9, [IPPROTO_UDP]);
    Put(buf, 12, src.addr);
    Put(buf, 16, dst.addr);
    Put(buf, 20, src.port);
    Put(buf, 22, dst.port);
    assert buf[10..12] == ulen;
    Put(buf, 24, buf[10..12]);
    SharedAt(src, dst, userlen);
  }

  /** Where the shared fields lie. */
  lemma SharedAt(src: Endpoint, dst: Endpoint, userlen: nat)
    requires src.Valid() && dst.Valid()
    ensures var f, ulen := SharedFields(src, dst, userlen), Htons(8 + userlen);
            && |f| == 17 && f[0] == IPPROTO_UDP && f[1] == ulen[0] && f[2] == ulen[1]
            && (forall i :: 0 <= i < 4 ==> f[3 + i] == src.addr[i])
               && (forall i :: 0 <= i < 4 ==> f[7 + i] == dst.addr[i])
            && f[11] == src.port[0] && f[12] == src.port[1] && f[13] == dst.port[0] && f[14] == dst.port[1]
            && f[15] == ulen[0] && f[16] == ulen[1]
  {
  }

  /** The first half of udp_write: the pseudo-header overlay with a zero checksum field. */
  method FillOverlay(src: Endpoint, dst: Endpoint, buf: array<Byte>, userlen: nat)
    requires src.Valid() && dst.Valid()
    requires HEADERS + userlen <= buf.Length
    modifies buf
    ensures buf[..HEADERS + userlen] == Overlay(src, dst, old(buf[HEADERS..HEADERS + userlen]))
    ensures buf[HEADERS + userlen..] == old(buf[HEADERS + userlen..])
  {
    ghost var payload := buf[HEADERS..HEADERS + userlen];
    Put(buf, 0, seq(HEADERS, _ => 0));
    FillShared(src, dst, buf, userlen);
    OverlayAt(src, dst, payload);
    assert buf[..HEADERS + userlen] == Overlay(src, dst, payload);
  }

  lemma OverlayAt(src: Endpoint, dst: Endpoint, payload: seq<Byte>)
    requires src.Valid() && dst.Valid()
    ensures var o, f := Overlay(src, dst, payload), SharedFields(src, dst, |payload|);
            && |f| == 17 && |o| == HEADERS + |payload|
            && forall i :: 0 <= i < |o| ==>
                 o[i] == if i < 9 then 0 else if i < 26 then f[i - 9] else if i < HEADERS then 0
                         else payload[i - HEADERS]
  {
  }

  /** The last part of udp_write: the IP fields go over the front; bytes 9 to 27 stay. */
  method FillIpHeader(lenBytes: seq<Byte>, buf: array<Byte>)
    requires HEADERS <= buf.Length && |lenBytes| == 2
    modifies buf
    ensures buf[..] == [0x45, 0] + lenBytes + [0, 0, 0, 0, TTL_OUT] + old(buf[9..])
  {
    Put(buf, 0, [4 * 0x10 + 20 / 4]);
    Put(buf, 1, [0]);
    Put(buf, 2, lenBytes);
    Put(buf, 4, [0, 0]);
    Put(buf, 6, [0, 0]);
    Put(buf, 8, [TTL_OUT]);
  }

  /** The middle of udp_write: the checksum over everything written so far, 0xffff in place of 0. */
  method FillChecksum(e: Endian, zerosum: bool, buf: array<Byte>, total: nat)
    requires HEADERS <= total <= buf.Length && buf[26] == buf[27] == 0
    modifies buf
    ensures buf[..] == StoreWord(e, old(buf[..]), 26, SentSum(e, old(buf[..total]), zerosum))
  {
    if !zerosum {
      assert buf[0..total] == buf[..total];
      var sum := InCksum(e, buf, 0, total);
      Put(buf, 26, [FirstByte(e, sum), SecondByte(e, sum)]);
      if sum == 0 {
        Put(buf, 26, [0xff, 0xff]);
      }
    }
  }

  /** The overlay with its checksum, under the IP fields, is the packet. */
  lemma PacketFromOverlay(e: Endian, src: Endpoint, dst: Endpoint, payload: seq<Byte>, zerosum: bool,
                          lenBytes: seq<Byte>)
    requires src.Valid() && dst.Valid() && |lenBytes| == 2
    ensures var overlay := Overlay(src, dst, payload);
            |overlay| == HEADERS + |payload| && overlay[26] == overlay[27] == 0 && overlay[HEADERS..] == payload
    ensures var summed := StoreWord(e, Overlay(src, dst, payload), 26, SentSum(e, Overlay(src, dst, payload), zerosum));
            RawPacket(e, src, dst, payload, zerosum, lenBytes)
            == [0x45, 0] + lenBytes + [0, 0, 0, 0, TTL_OUT] + summed[9..]
  {
    var overlay := Overlay(src, dst, payload);
    assert |SharedFields(src, dst, |payload|)| == 17;
    assert overlay[9..26] == SharedFields(src, dst, |payload|);
    var sum := SentSum(e, overlay, zerosum);
    assert StoreWord(e, overlay, 26, sum)[9..]
        == SharedFields(src, dst, |payload|) + [FirstByte(e, sum), SecondByte(e, sum)] + payload;
  }

  /** The rest of udp_write, on whatever overlay the buffer holds. */
  method FinishPacket(e: Endian, zerosum: bool, lenBytes: seq<Byte>, buf: array<Byte>, total: nat,
                      ghost overlay: seq<Byte>)
    requires HEADERS <= total <= buf.Length && |lenBytes| == 2
    requires buf[..total] == overlay && overlay[26] == overlay[27] == 0
    modifies buf
    ensures buf[..total] == [0x45, 0] + lenBytes + [0, 0, 0, 0, TTL_OUT]
                            + StoreWord(e, overlay, 26, SentSum(e, overlay, zerosum))[9..]
    ensures buf[total..] == old(buf[total..])
  {
    FillChecksum(e, zerosum, buf, total);
    assert buf[..total] == StoreWord(e, overlay, 26, SentSum(e, overlay, zerosum));
    label summed:
    assert buf[9..total] == buf[..total][9..];
    FillIpHeader(lenBytes, buf);
    assert buf[..total] == [0x45, 0] + lenBytes + [0, 0, 0, 0, TTL_OUT] + old@summed(buf[9..total]);
  }

  /** udp_write: `buf` has room for the 28 header bytes, with the user data already behind them. */
  method UdpWrite(e: Endian, networkOrder: bool, src: Endpoint, dst: Endpoint, zerosum: bool,
                  buf: array<Byte>, userlen: nat) returns (packet: seq<Byte>)
    requires src.Valid() && dst.Valid()
    requires HEADERS + userlen <= buf.Length
    modifies buf
    ensures packet == RawPacket(e, src, dst, old(buf[HEADERS..HEADERS + userlen]), zerosum,
                                IpLen(e, networkOrder, HEADERS + userlen))
    ensures buf[..HEADERS + userlen] == packet && |packet| == HEADERS + userlen
    ensures HEADERS + userlen <= 0xffff ==>
              HEADERS + userlen == if networkOrder || e.Big? then BigEndian(packet[2], packet[3])
                                   else BigEndian(packet[3], packet[2])
    ensures buf[HEADERS + userlen..] == old(buf[HEADERS + userlen..])
  {
    ghost var payload := buf[HEADERS..HEADERS + userlen];
    FillOverlay(src, dst, buf, userlen);
    var total := userlen + HEADERS;
    var lenBytes := IpLen(e, networkOrder, total);
    PacketFromOverlay(e, src, dst, payload, zerosum, lenBytes);
    FinishPacket(e, zerosum, lenBytes, buf, total, Overlay(src, dst, payload));
    packet := buf[..total];
    FrontOfPacket(e, src, dst, payload, zerosum, lenBytes);
    assert packet[2] == packet[2..4][0] && packet[3] == packet[2..4][1];
    if total <= 0xffff {
      IpLenMeaning(e, networkOrder, total);
    }
  }

  // ------------------------------------------ the transmitted checksum is the RFC's

  lemma {:induction false} WordSumStep(e: Endian, s: seq<Byte>)
    requires |s| >= 2
    ensures WordSum(e, s) == HostWord(e, s[0], s[1]) + WordSum(e, s[2..])
  {
  }

  /** The overlay holds exactly the words of the pseudo-header and the UDP datagram, in another order. */
  lemma OverlaySum(e: Endian, src: Endpoint, dst: Endpoint, payload: seq<Byte>)
    requires src.Valid() && dst.Valid()
    ensures var ulen := Htons(8 + |payload|);
            WordSum(e, Overlay(src, dst, payload))
            == WordSum(e, PseudoHeader(src.addr, dst.addr, ulen) + (src.port + dst.port + ulen + [0, 0] + payload))
  {
    var ulen := Htons(8 + |payload|);
    var udp := src.port + dst.port + ulen + [0, 0] + payload;
    var zeros: seq<Byte> := [0, 0, 0, 0, 0, 0, 0, 0];
    var addrs := src.addr + dst.addr;
    var mid: seq<Byte> := [0, IPPROTO_UDP] + ulen;
    assert Overlay(src, dst, payload) == zeros + (mid + (addrs + udp));
    assert PseudoHeader(src.addr, dst.addr, ulen) + udp == addrs + (mid + udp);
    WordSumConcat(e, zeros, mid + (addrs + udp));
    WordSumConcat(e, mid, addrs + udp);
    WordSumConcat(e, addrs, udp);
    WordSumConcat(e, addrs, mid + udp);
    WordSumConcat(e, mid, udp);
    WordSumStep(e, zeros);
    WordSumStep(e, zeros[2..]);
    WordSumStep(e, zeros[4..]);
    WordSumStep(e, zeros[6..]);
  }

  /** The UDP datagram, as the receiver cuts it from the packet. */
  function UdpPart(src: Endpoint, dst: Endpoint, payload: seq<Byte>, sum: seq<Byte>): seq<Byte> {
    src.port + dst.port + Htons(8 + |payload|) + sum + payload
  }

  lemma SummedPartVerifies(e: Endian, src: Endpoint, dst: Endpoint, payload: seq<Byte>, receiver: Endian)
    requires src.Valid() && dst.Valid() && HEADERS + |payload| <= 0xffff
    ensures var sum := SentSum(e, Overlay(src, dst, payload), false);
            sum != 0 && Cksum(receiver, PseudoHeader(src.addr, dst.addr, Htons(8 + |payload|))
                                        + UdpPart(src, dst, payload, [FirstByte(e, sum), SecondByte(e, sum)])) == 0
  {
    var sum := SentSum(e, Overlay(src, dst, payload), false);
    var pseudo := PseudoHeader(src.addr, dst.addr, Htons(8 + |payload|));
    var unsummed := pseudo + UdpPart(src, dst, payload, [0, 0]);
    OverlaySum(e, src, dst, payload);
    assert |pseudo| == 12 && |unsummed| == 20 + |payload| && unsummed[18] == unsummed[19] == 0;
    StoredChecksumVerifies(e, unsummed, 18, sum, receiver);
    StoredInPart(e, src, dst, payload, sum);
  }

  lemma StoredInPart(e: Endian, src: Endpoint, dst: Endpoint, payload: seq<Byte>, sum: Word)
    requires src.Valid() && dst.Valid()
    ensures var pseudo := PseudoHeader(src.addr, dst.addr, Htons(8 + |payload|));
            |pseudo| == 12 && StoreWord(e, pseudo + UdpPart(src, dst, payload, [0, 0]), 18, sum)
            == pseudo + UdpPart(src, dst, payload, [FirstByte(e, sum), SecondByte(e, sum)])
  {
  }

  /** The datagram passes RFC 768's check on a receiver of either byte order although the IP header
      has been written over the pseudo-header; with checksums on, the field is never the 0 that
      stands for "none". The length limit is that of an IP datagram. */
  lemma SentPacketAccepted(e: Endian, src: Endpoint, dst: Endpoint, payload: seq<Byte>, zerosum: bool,
                           lenBytes: seq<Byte>, receiver: Endian)
    requires src.Valid() && dst.Valid() && |lenBytes| == 2 && HEADERS + |payload| <= 0xffff
    ensures var packet := RawPacket(e, src, dst, payload, zerosum, lenBytes);
            |packet| == HEADERS + |payload| && Rfc768Accepts(receiver, packet)
            && (packet[26] == packet[27] == 0 <==> zerosum)
  {
    var packet := RawPacket(e, src, dst, payload, zerosum, lenBytes);
    var sum := SentSum(e, Overlay(src, dst, payload), zerosum);
    FieldsOfPacket(e, src, dst, payload, zerosum, lenBytes);
    PartOfPacket(e, src, dst, payload, zerosum, lenBytes);
    assert NetWord(packet, 24) == 8 + |payload| by {
      assert packet[24..26][0] == packet[24] && packet[24..26][1] == packet[25];
    }
    if !zerosum {
      SummedPartVerifies(e, src, dst, payload, receiver);
      assert packet[20..20 + (8 + |payload|)] == packet[20..];
    }
  }

  lemma PartOfPacket(e: Endian, src: Endpoint, dst: Endpoint, payload: seq<Byte>, zerosum: bool, lenBytes: seq<Byte>)
    requires src.Valid() && dst.Valid() && |lenBytes| == 2
    ensures var packet := RawPacket(e, src, dst, payload, zerosum, lenBytes);
            var sum := SentSum(e, Overlay(src, dst, payload), zerosum);
            |packet| == HEADERS + |payload|
            && packet[20..] == UdpPart(src, dst, payload, [FirstByte(e, sum), SecondByte(e, sum)])
  {
    var packet := RawPacket(e, src, dst, payload, zerosum, lenBytes);
    var sum := SentSum(e, Overlay(src, dst, payload), zerosum);
    var tail := [FirstByte(e, sum), SecondByte(e, sum)] + payload;
    var shared := SharedFields(src, dst, |payload|);
    assert |shared| == 17 && shared[11..] == src.port + dst.port + Htons(8 + |payload|);
    assert packet[20..] == shared[11..] + tail;
  }

  /** Where the packet's fields can be read back. */
  lemma FieldsOfPacket(e: Endian, src: Endpoint, dst: Endpoint, payload: seq<Byte>, zerosum: bool, lenBytes: seq<Byte>)
    requires src.Valid() && dst.Valid() && |lenBytes| == 2
    ensures var packet := RawPacket(e, src, dst, payload, zerosum, lenBytes);
            var sum := SentSum(e, Overlay(src, dst, payload), zerosum);
            && |packet| == HEADERS + |payload| && packet[0] == 0x45 && packet[9] == IPPROTO_UDP
            && packet[12..16] == src.addr && packet[16..20] == dst.addr
            && packet[20..22] == src.port && packet[22..24] == dst.port
            && packet[24..26] == Htons(8 + |payload|)
            && packet[26] == FirstByte(e, sum) && packet[27] == SecondByte(e, sum)
            && packet[HEADERS..] == payload
  {
    var packet := RawPacket(e, src, dst, payload, zerosum, lenBytes);
    var sum := SentSum(e, Overlay(src, dst, payload), zerosum);
    var shared := SharedFields(src, dst, |payload|);
    assert |shared| == 17;
    assert packet[9..26] == shared;
    assert packet[26..] == [FirstByte(e, sum), SecondByte(e, sum)] + payload;
    assert shared[3..7] == src.addr && shared[7..11] == dst.addr;
    assert shared[11..13] == src.port && shared[13..15] == dst.port && shared[15..17] == Htons(8 + |payload|);
    assert packet[12..16] == shared[3..7] && packet[16..20] == shared[7..11];
    assert packet[20..22] == shared[11..13] && packet[22..24] == shared[13..15] && packet[24..26] == shared[15..17];
    assert packet[HEADERS..] == packet[26..][2..];
  }

  /** The IP fields in front, and the UDP length as a number. */
  lemma FrontOfPacket(e: Endian, src: Endpoint, dst: Endpoint, payload: seq<Byte>, zerosum: bool, lenBytes: seq<Byte>)
    requires src.Valid() && dst.Valid() && |lenBytes| == 2
    ensures var packet := RawPacket(e, src, dst, payload, zerosum, lenBytes);
            && |packet| == HEADERS + |payload| && packet[1] == 0 && packet[2..4] == lenBytes
            && packet[4] == packet[5] == packet[6] == packet[7] == 0 && packet[8] == TTL_OUT
            && (8 + |payload| <= 0xffff ==> BigEndian(packet[24], packet[25]) == 8 + |payload|)
  {
    var packet := RawPacket(e, src, dst, payload, zerosum, lenBytes);
    FieldsOfPacket(e, src, dst, payload, zerosum, lenBytes);
    assert packet[24] == packet[24..26][0] && packet[25] == packet[24..26][1];
  }

  // ---------------------------------------------------------------- the kernel

  /** What ip_output does to a raw packet: its length in network order, an identification, and the
      header checksum over a zeroed field. */
  function KernelFilled(e: Endian, packet: seq<Byte>, id: seq<Byte>): seq<Byte>
    requires |packet| >= HEADERS && |id| == 2
  {
    var zeroed := packet[..2] + Htons(|packet|) + id + packet[6..10] + [0, 0] + packet[12..];
    StoreWord(e, zeroed, 10, Cksum(e, zeroed[..20]))
  }

  // ------------------------------------------------------- validating a capture

  datatype Fault = TooShort | BadVersion | BadHeaderLength | ShortForHeader | BadChecksum | NotUdp
                 | NotIp | UnsupportedDatalink

  /** The program's verdict: the packet is handed on, or err_quit ends the program, or a header is read
      from outside of what was captured, so that anything may follow. */
  datatype Verdict = Accepted | Quit(fault: Fault) | Outside

  /** An int as it compares with the unsigned result of sizeof. */
  function AsSize(n: int): nat {
    n % 0x1_0000_0000_0000_0000
  }

  /** The tests of udp_check, in the order in which the program stops at them. */
  function FirstFault(e: Endian, p: seq<Byte>): Verdict {
    if |p| < HEADERS then Quit(TooShort)
    else if p[0] / 0x10 != 4 then Quit(BadVersion)
    else if 4 * (p[0] % 0x10) < 20 then Quit(BadHeaderLength)
    else if |p| < 4 * (p[0] % 0x10) + 8 then Quit(ShortForHeader)
    else if Cksum(e, p[..4 * (p[0] % 0x10)]) != 0 then Quit(BadChecksum)
    else if p[9] != IPPROTO_UDP then Quit(NotUdp)
    else Accepted
  }

  /** 4 * ip_hl. */
  function HeaderLength(p: seq<Byte>): nat
    requires p != []
  {
    4 * (p[0] % 0x10)
  }

  /** An IPv4 packet that announces UDP: header of at least 20 bytes within the packet, with 8 bytes behind
      it, whose one's-complement sum is complete. */
  predicate GoodPacket(e: Endian, p: seq<Byte>) {
    && |p| >= 28 && p[0] / 0x10 == 4 && 20 <= HeaderLength(p) <= |p| - 8
    && OnesSum(Words(e, p[..HeaderLength(p)])) == 0xffff && p[9] == 17
  }

  /** Just those pass; the others are rejected for the first thing that is wrong. */
  lemma FaultMeaning(e: Endian, p: seq<Byte>)
    ensures FirstFault(e, p) == Accepted <==> GoodPacket(e, p)
    ensures FirstFault(e, p) == Quit(TooShort) <==> |p| < 28
    ensures |p| >= 28 ==>
              && (FirstFault(e, p) == Quit(BadVersion) <==> p[0] / 0x10 != 4)
              && (FirstFault(e, p) == Quit(BadHeaderLength) <==> p[0] / 0x10 == 4 && HeaderLength(p) < 20)
              && (FirstFault(e, p) == Quit(ShortForHeader) <==>
                    p[0] / 0x10 == 4 && HeaderLength(p) >= 20 && HeaderLength(p) > |p| - 8)
    ensures |p| >= 28 && p[0] / 0x10 == 4 && 20 <= HeaderLength(p) <= |p| - 8 ==>
              var sum := OnesSum(Words(e, p[..HeaderLength(p)]));
              && (FirstFault(e, p) == Quit(BadChecksum) <==> sum != 0xffff)
              && (FirstFault(e, p) == Quit(NotUdp) <==> sum == 0xffff && p[9] != 17)
  {
    if |p| >= 28 && HeaderLength(p) <= |p| {
      CksumIsOnesChecksum(e, p[..HeaderLength(p)]);
    }
  }

  /** One word of an accepted header replaced, outside version, length and protocol: it is noticed, by the
      checksum, unless 0 has become 0xffff or the other way round. */
  lemma ChangedWord(e: Endian, p: seq<Byte>, at: nat, a: Byte, b: Byte)
    requires GoodPacket(e, p) && at % 2 == 0 && at + 2 <= HeaderLength(p)
    requires (at == 0 ==> a == p[0]) && (at == 8 ==> b == p[9])
    ensures var q, w, w' := p[at := a][at + 1 := b], HostWord(e, p[at], p[at + 1]), HostWord(e, a, b);
            FirstFault(e, q) == if w == w' || (w == 0 && w' == 0xffff) || (w == 0xffff && w' == 0) then Accepted
                                else Quit(BadChecksum)
  {
    var q, n := p[at := a][at + 1 := b], HeaderLength(p);
    assert q[..n] == p[..n][at := a][at + 1 := b];
    ReplacedWordIff(e, p[..n], at, a, b);
    FaultMeaning(e, q);
  }

  /** One byte of it changed is always noticed. */
  lemma ChangedByte(e: Endian, p: seq<Byte>, i: nat, c: Byte)
    requires GoodPacket(e, p) && i < HeaderLength(p) && i != 0 && i != 9 && c != p[i]
    ensures FirstFault(e, p[i := c]) == Quit(BadChecksum)
  {
    var at := i - i % 2;
    var a, b := if i % 2 == 0 then c else p[at], if i % 2 == 0 then p[at + 1] else c;
    assert p[i := c] == p[at := a][at + 1 := b];
    ChangedWord(e, p, at, a, b);
  }

  /** udp_check on the `len` bytes at `off`. A negative length counts as a huge one in the first test, so
      the header is then read outside. Otherwise the header checksum is stored into ip_sum, so an accepted
      packet comes back with that field zeroed and everything else as captured. */
  method UdpCheck(e: Endian, buf: array<Byte>, off: nat, len: int) returns (verdict: Verdict)
    requires -0x8000_0000 <= len < 0x8000_0000 && off + len <= buf.Length
    modifies buf
    ensures verdict.Outside? <==> len < 0
    ensures verdict == if len < 0 then Outside else FirstFault(e, old(buf[off..off + len]))
    ensures verdict.Accepted? <==> len >= 0 && GoodPacket(e, old(buf[off..off + len]))
    ensures verdict.Accepted? ==> buf[off + 10] == buf[off + 11] == 0
    ensures forall i :: 0 <= i < buf.Length && i != off + 10 && i != off + 11 ==> buf[i] == old(buf[i])
    ensures !verdict.Accepted? && verdict != Quit(BadChecksum) && verdict != Quit(NotUdp) ==> buf[..] == old(buf[..])
  {
    if len >= 0 {
      FaultMeaning(e, buf[off..off + len]);
    }
    if AsSize(len) < 20 + 8 {
      return Quit(TooShort);
    }
    if len < 0 {
      return Outside;   // the test has let it pass
    }
    ghost var p := buf[off..off + len];
    if buf[off] / 0x10 != 4 {
      return Quit(BadVersion);
    }
    var hlen := buf[off] % 0x10 * 4;
    if hlen < 20 {
      return Quit(BadHeaderLength);
    }
    if len < hlen + 8 {
      return Quit(ShortForHeader);
    }
    assert buf[off..off + hlen] == p[..hlen];
    var sum := InCksum(e, buf, off, hlen);
    buf[off + 10], buf[off + 11] := FirstByte(e, sum), SecondByte(e, sum);
    if sum != 0 {
      return Quit(BadChecksum);
    }
    if buf[off + 9] == IPPROTO_UDP {
      return Accepted;
    }
    return Quit(NotUdp);
  }

  datatype Datalink = LoopbackNull | Ethernet | Slip | Ppp | OtherLink

  function LinkHeader(link: Datalink): nat {
    match link
    case LoopbackNull => 4
    case Ethernet => 14
    case _ => 24
  }

  /** udp_read on one captured frame of `caplen` bytes: nothing is read from outside the frame exactly when
      it is at least as long as its link header, or of an unsupported link type. */
  method UdpRead(e: Endian, link: Datalink, frame: array<Byte>, caplen: nat) returns (verdict: Verdict)
    requires caplen <= frame.Length && caplen < 0x8000_0000
    modifies frame
    ensures verdict.Outside? <==> !link.OtherLink? && caplen < LinkHeader(link)
    ensures link.LoopbackNull? && caplen >= 4 ==> verdict == FirstFault(e, old(frame[4..caplen]))
    ensures link.Ethernet? && caplen >= 14 ==>
              verdict == if BigEndian(old(frame[12]), old(frame[13])) != 0x0800 then Quit(NotIp)
                         else FirstFault(e, old(frame[14..caplen]))
    ensures (link.Slip? || link.Ppp?) && caplen >= 24 ==> verdict == FirstFault(e, old(frame[24..caplen]))
    ensures link.OtherLink? ==> verdict == Quit(UnsupportedDatalink)
    ensures forall i :: 0 <= i < frame.Length && i != LinkHeader(link) + 10 && i != LinkHeader(link) + 11
                        ==> frame[i] == old(frame[i])
    ensures verdict.Outside? ==> frame[..] == old(frame[..])
    ensures verdict.Accepted? ==> frame[LinkHeader(link) + 10] == frame[LinkHeader(link) + 11] == 0
  {
    match link {
      case LoopbackNull =>
        verdict := UdpCheck(e, frame, 4, caplen - 4);
      case Ethernet =>
        if caplen < 14 {
          return Outside;   // ether_type is not within the frame
        }
        if HostWord(Big, frame[12], frame[13]) != 0x0800 {
          return Quit(NotIp);
        }
        verdict := UdpCheck(e, frame, 14, caplen - 14);
      case Slip =>
        verdict := UdpCheck(e, frame, 24, caplen - 24);
      case Ppp =>
        verdict := UdpCheck(e, frame, 24, caplen - 24);
      case OtherLink =>
        verdict := Quit(UnsupportedDatalink);
    }
  }

  /** The fields that src, dst and payload must show up as, wherever a packet has gone. */
  ghost predicate Carries(packet: seq<Byte>, src: Endpoint, dst: Endpoint, payload: seq<Byte>) {
    && |packet| == HEADERS + |payload|
    && packet[12..16] == src.addr && packet[16..20] == dst.addr
    && packet[20..22] == src.port && packet[22..24] == dst.port
    && NetWord(packet, 24) == 8 + |payload| && packet[HEADERS..] == payload
  }

  lemma RawPacketCarries(e: Endian, src: Endpoint, dst: Endpoint, payload: seq<Byte>, zerosum: bool,
                         lenBytes: seq<Byte>)
      returns (packet: seq<Byte>)
    requires src.Valid() && dst.Valid() && |lenBytes| == 2 && HEADERS + |payload| <= 0xffff
    ensures packet == RawPacket(e, src, dst, payload, zerosum, lenBytes)
    ensures Carries(packet, src, dst, payload) && packet[0] == 0x45 && packet[9] == IPPROTO_UDP
  {
    packet := RawPacket(e, src, dst, payload, zerosum, lenBytes);
    FieldsOfPacket(e, src, dst, payload, zerosum, lenBytes);
    assert packet[24..26][0] == packet[24] && packet[24..26][1] == packet[25];
  }

  /** Write, transmit, capture, check: what udp_write builds and the kernel completes is accepted by
      udp_check, still passes RFC 768, and shows the fields that were written. */
  lemma WrittenPacketIsRead(e: Endian, src: Endpoint, dst: Endpoint, payload: seq<Byte>, zerosum: bool,
                            networkOrder: bool, id: seq<Byte>, receiver: Endian, sent: seq<Byte>)
    requires src.Valid() && dst.Valid() && |id| == 2 && HEADERS + |payload| <= 0xffff
    requires var packet := RawPacket(e, src, dst, payload, zerosum, IpLen(e, networkOrder, HEADERS + |payload|));
             |packet| >= HEADERS && sent == KernelFilled(e, packet, id)
    ensures Carries(sent, src, dst, payload) && NetWord(sent, 2) == |sent|
    ensures FirstFault(receiver, sent) == Accepted
    ensures Rfc768Accepts(receiver, sent) && (sent[26] == sent[27] == 0 <==> zerosum)
  {
    var lenBytes := IpLen(e, networkOrder, HEADERS + |payload|);
    SentPacketAccepted(e, src, dst, payload, zerosum, lenBytes, receiver);
    var packet := RawPacketCarries(e, src, dst, payload, zerosum, lenBytes);
    FilledIsAccepted(e, packet, id, receiver);
  }

  /** The same for any packet with an option-free header that announces UDP. */
  lemma FilledIsAccepted(e: Endian, packet: seq<Byte>, id: seq<Byte>, receiver: Endian)
    requires HEADERS <= |packet| <= 0xffff && |id| == 2 && packet[0] == 0x45 && packet[9] == IPPROTO_UDP
    ensures var sent := KernelFilled(e, packet, id);
            && |sent| == |packet| && FirstFault(receiver, sent) == Accepted && NetWord(sent, 2) == |packet|
            && NetWord(sent, 24) == NetWord(packet, 24) && sent[26] == packet[26] && sent[27] == packet[27]
            && sent[12..16] == packet[12..16] && sent[16..20] == packet[16..20]
            && sent[20..22] == packet[20..22] && sent[22..24] == packet[22..24]
            && sent[HEADERS..] == packet[HEADERS..]
            && (Rfc768Accepts(receiver, packet) ==> Rfc768Accepts(receiver, sent))
  {
    FilledHeader(e, packet, id, receiver);
    FilledKeepsRest(e, packet, id);
    var sent := KernelFilled(e, packet, id);
    assert [sent[2], sent[3]] == Htons(|packet|);
    assert sent[HEADERS..] == sent[HEADERS..|sent|] && packet[HEADERS..] == packet[HEADERS..|packet|];
  }

  lemma FilledHeader(e: Endian, packet: seq<Byte>, id: seq<Byte>, receiver: Endian)
    requires |packet| >= HEADERS && |id| == 2
    ensures Cksum(receiver, KernelFilled(e, packet, id)[..20]) == 0
  {
    var zeroed := packet[..2] + Htons(|packet|) + id + packet[6..10] + [0, 0] + packet[12..];
    assert |zeroed| == |packet|;
    assert zeroed[10] == zeroed[11] == 0;
    StoredChecksumVerifies(e, zeroed[..20], 10, Cksum(e, zeroed[..20]), receiver);
    assert KernelFilled(e, packet, id)[..20] == StoreWord(e, zeroed[..20], 10, Cksum(e, zeroed[..20]));
  }

  /** From byte 12 on nothing changes, so neither do the fields nor the RFC 768 verdict. */
  lemma FilledKeepsRest(e: Endian, packet: seq<Byte>, id: seq<Byte>)
    requires |packet| >= HEADERS && |id| == 2
    ensures var sent := KernelFilled(e, packet, id);
            && |sent| == |packet| && sent[12..] == packet[12..]
            && sent[0] == packet[0] && sent[9] == packet[9] && [sent[2], sent[3]] == Htons(|packet|)
    ensures forall i, j :: 12 <= i <= j <= |packet| ==> KernelFilled(e, packet, id)[i..j] == packet[i..j]
    ensures forall k :: 12 <= k < |packet| ==> KernelFilled(e, packet, id)[k] == packet[k]
    ensures forall r: Endian :: Rfc768Accepts(r, packet) ==> Rfc768Accepts(r, KernelFilled(e, packet, id))
  {
    var sent := KernelFilled(e, packet, id);
    assert sent[12..] == packet[12..];
    forall i, j | 12 <= i <= j <= |packet|
      ensures sent[i..j] == packet[i..j]
    {
      assert sent[i..j] == sent[12..][i - 12..j - 12] && packet[i..j] == packet[12..][i - 12..j - 12];
    }
    assert forall k :: 12 <= k < |packet| ==> sent[k] == sent[12..][k - 12] && packet[k] == packet[12..][k - 12];
  }
}
