/** Building and parsing Ethernet frames that carry IPv4, UDP, TCP and ICMP: `src/net.rs`. */
module NetFrames {
  import opened Common
  import opened ByteFields
  import opened NetChecksum

  const MAX_FRAME := 1514
  const ETHERTYPE_IPV4 := 0x0800
  const ICMP: byte := 1
  const TCP: byte := 6
  const UDP: byte := 17

  datatype Error = InvalidPacket | PayloadTooLarge

  type Mac = a: seq<byte> | |a| == 6 witness [0, 0, 0, 0, 0, 0]
  type u16 = n: nat | n < U16_LIMIT
  type u32 = n: nat | n < U32_LIMIT

  // ------------------------------------------------------------------ big-endian fields

  function U16(n: u16): (b: seq<byte>)
    ensures |b| == 2
  {
    [n / 0x100, n % 0x100]
  }

  function U32(n: u32): (b: seq<byte>)
    ensures |b| == 4
  {
    U16(n / U16_LIMIT) + U16(n % U16_LIMIT)
  }

  function U16At(b: seq<byte>, at: nat): (n: u16)
    requires at + 2 <= |b|
  {
    Word(b[at], b[at + 1])
  }

  function U32At(b: seq<byte>, at: nat): (n: u32)
    requires at + 4 <= |b|
  {
    U16_LIMIT * U16At(b, at) + U16At(b, at + 2)
  }

  // ------------------------------------------------------------------ the frames that are built

  function Ethernet(destination: Mac, source: Mac, ethertype: u16): (b: seq<byte>)
    ensures |b| == 14
  {
    destination + source + U16(ethertype)
  }

  /** The header up to its checksum, and from there on. */
  function Ipv4Front(protocol: byte, length: nat, identifier: u16): (b: seq<byte>)
    requires 20 + length < U16_LIMIT
    ensures |b| == 10
  {
    [0x45, 0] + U16(20 + length) + U16(identifier) + [0x40, 0, 64, protocol]
  }

  function Ipv4Header(source: Address, destination: Address, protocol: byte, length: nat,
      identifier: u16): (b: seq<byte>)
    requires 20 + length < U16_LIMIT
    ensures |b| == 20
  {
    var front := Ipv4Front(protocol, length, identifier);
    front + U16(Complement(WordSum(front + [0, 0] + source + destination))) + source + destination
  }

  /** An IPv4 frame around a payload. */
  function Ipv4Frame(receiver: Mac, sender: Mac, source: Address, destination: Address, protocol: byte, identifier: u16,
                     payload: seq<byte>): (b: seq<byte>)
    requires 20 + |payload| < U16_LIMIT
    ensures |b| == 34 + |payload|
  {
    Ethernet(receiver, sender, ETHERTYPE_IPV4) + Ipv4Header(source, destination, protocol, |payload|, identifier)
        + payload
  }

  function UdpFront(sourcePort: u16, destinationPort: u16, payload: seq<byte>): (b: seq<byte>)
    requires 8 + |payload| < U16_LIMIT
    ensures |b| == 6
  {
    U16(sourcePort) + U16(destinationPort) + U16(8 + |payload|)
  }

  /** A segment whose checksum field, between the two parts, holds the complement of the rest. */
  function Sealed(source: Address, destination: Address, protocol: byte, front: seq<byte>, back: seq<byte>, zero: u16)
    : (b: seq<byte>)
    ensures |b| == |front| + 2 + |back|
  {
    var value := Complement(TransportSum(source, destination, protocol, front + [0, 0] + back));
    front + U16(if value == 0 then zero else value) + back
  }

  function UdpSegment(source: Address, destination: Address, sourcePort: u16, destinationPort: u16, payload: seq<byte>)
    : (b: seq<byte>)
    requires 8 + |payload| < U16_LIMIT
    ensures |b| == 8 + |payload|
  {
    Sealed(source, destination, UDP, UdpFront(sourcePort, destinationPort, payload), payload, ONES)
  }

  /** What a TCP segment carries besides its payload. */
  datatype TcpFields = TcpFields(sourcePort: u16, destinationPort: u16, sequence: u32, acknowledgement: u32, flags: u16)

  function TcpFront(f: TcpFields): (b: seq<byte>)
    ensures |b| == 16
  {
    U16(f.sourcePort) + U16(f.destinationPort) + U32(f.sequence) + U32(f.acknowledgement) + [0x50, f.flags % 0x100]
        + U16(4096)
  }

  function TcpSegment(source: Address, destination: Address, f: TcpFields, payload: seq<byte>): (b: seq<byte>)
    ensures |b| == 20 + |payload|
  {
    Sealed(source, destination, TCP, TcpFront(f), [0, 0] + payload, 0)
  }

  /** The echo reply to a request: its type cleared, its checksum renewed, the rest kept. */
  function IcmpReply(request: seq<byte>): (b: seq<byte>)
    requires |request| >= 8
    ensures |b| == |request|
  {
    var front := [0, request[1]];
    front + U16(Complement(WordSum(front + [0, 0] + request[4..]))) + request[4..]
  }

  // ------------------------------------------------------------------ parsing

  datatype EthernetPacket = EthernetPacket(source: Mac, destination: Mac, ethertype: u16)

  function ParseEthernet(frame: seq<byte>): Option<EthernetPacket> {
    if |frame| < 14 then None
    else Some(EthernetPacket(frame[6..12], frame[..6], U16At(frame, 12)))
  }

  datatype Ipv4Packet = Ipv4Packet(source: Address, destination: Address, protocol: byte, payload: nat, length: nat)

  function ParseIpv4(frame: seq<byte>): Option<Ipv4Packet> {
    if |frame| < 34 || U16At(frame, 12) != ETHERTYPE_IPV4 then None
    else
      var version, header := frame[14] / 0x10, frame[14] % 0x10 * 4;
      if version != 4 || header < 20 || 14 + header > |frame| then None
      else
        var total := U16At(frame, 16);
        if total < header || 14 + total > |frame| || Complement(WordSum(frame[14..14 + header])) != 0 then None
        else Some(Ipv4Packet(frame[26..30], frame[30..34], frame[23], 14 + header, total - header))
  }

  datatype UdpPacket = UdpPacket(sourcePort: u16, destinationPort: u16, payload: nat, length: nat)

  function ParseUdp(frame: seq<byte>, p: Ipv4Packet): Result<UdpPacket, Error> {
    if p.length < 8 || p.payload + p.length > |frame| then Err(InvalidPacket)
    else
      var length := U16At(frame, p.payload + 4);
      if length < 8 || length > p.length then Err(InvalidPacket)
      else if && U16At(frame, p.payload + 6) != 0
              && Complement(TransportSum(p.source, p.destination, UDP, frame[p.payload..p.payload + length])) != 0
      then Err(InvalidPacket)
      else Ok(UdpPacket(U16At(frame, p.payload), U16At(frame, p.payload + 2), p.payload + 8, length - 8))
  }

  datatype TcpPacket = TcpPacket(fields: TcpFields, payload: nat, length: nat)

  function ParseTcp(frame: seq<byte>, p: Ipv4Packet): Result<TcpPacket, Error> {
    if p.length < 20 || p.payload + p.length > |frame| then Err(InvalidPacket)
    else
      var at, header := p.payload, frame[p.payload + 12] / 0x10 * 4;
      if header < 20 || header > p.length then Err(InvalidPacket)
      else if Complement(TransportSum(p.source, p.destination, TCP, frame[at..at + p.length])) != 0
          then Err(InvalidPacket)
      else
        Ok(TcpPacket(TcpFieldsAt(frame, at), at + header, p.length - header))
  }

  /** The flags are the nine bits below the header's length. */
  function TcpFieldsAt(frame: seq<byte>, at: nat): TcpFields
    requires at + 14 <= |frame|
  {
    var low, high: int := frame[at + 13], frame[at + 12] % 2;
    TcpFields(U16At(frame, at), U16At(frame, at + 2), U32At(frame, at + 4), U32At(frame, at + 8), low + 0x100 * high)
  }

  // ------------------------------------------------------------------ the layout on the wire

  /** A number in network order, most significant byte first. */
  predicate Holds(frame: seq<byte>, at: nat, n: nat, width: nat)
    requires at + width <= |frame|
    decreases width
  {
    if width == 0 then n == 0
    else frame[at + width - 1] == n % 0x100 && Holds(frame, at, n / 0x100, width - 1)
  }

  /** The Ethernet and IPv4 headers, byte by byte, the checksum at 24 aside. */
  predicate HasHeaders(frame: seq<byte>, receiver: Mac, sender: Mac, source: Address, destination: Address,
                       protocol: byte, identifier: u16, length: nat) {
    && |frame| >= 34
    && frame[..6] == receiver && frame[6..12] == sender && frame[12] == 0x08 && frame[13] == 0x00
    && frame[14] == 0x45 && frame[15] == 0 && Holds(frame, 16, 20 + length, 2) && Holds(frame, 18, identifier, 2)
    && frame[20] == 0x40 && frame[21] == 0 && frame[22] == 64 && frame[23] == protocol
    && frame[26..30] == source && frame[30..34] == destination
  }

  /** A UDP header, the checksum at 40 aside. */
  predicate HasUdp(frame: seq<byte>, sourcePort: u16, destinationPort: u16, length: nat) {
    && |frame| >= 42
    && Holds(frame, 34, sourcePort, 2) && Holds(frame, 36, destinationPort, 2) && Holds(frame, 38, 8 + length, 2)
  }

  /** A TCP header without options, the checksum at 50 aside. */
  predicate HasTcp(frame: seq<byte>, f: TcpFields) {
    && |frame| >= 54
    && Holds(frame, 34, f.sourcePort, 2) && Holds(frame, 36, f.destinationPort, 2)
    && Holds(frame, 38, f.sequence, 4) && Holds(frame, 42, f.acknowledgement, 4)
    && frame[46] == 0x50 && frame[47] == f.flags % 0x100 && frame[48] == 0x10 && frame[49] == 0x00
    && frame[52] == 0 && frame[53] == 0
  }

  lemma Holds2(frame: seq<byte>, at: nat, n: u16)
    requires at + 2 <= |frame| && frame[at..at + 2] == U16(n)
    ensures Holds(frame, at, n, 2)
  {
    assert frame[at + 1] == frame[at..at + 2][1] && frame[at] == frame[at..at + 2][0];
    assert Holds(frame, at, n / 0x100 / 0x100, 0);
    assert Holds(frame, at, n / 0x100, 1);
  }

  lemma Holds4(frame: seq<byte>, at: nat, n: u32)
    requires at + 4 <= |frame| && frame[at..at + 4] == U32(n)
    ensures Holds(frame, at, n, 4)
  {
    var b := frame[at..at + 4];
    assert frame[at] == b[0] && frame[at + 1] == b[1] && frame[at + 2] == b[2] && frame[at + 3] == b[3];
    var high, low := n / U16_LIMIT, n % U16_LIMIT;
    assert b[0] == high / 0x100 && b[1] == high % 0x100 && b[2] == low / 0x100 && b[3] == low % 0x100;
    BytesOf(n);
    assert Holds(frame, at, n / 0x100_0000 / 0x100, 0);
    assert Holds(frame, at, n / U16_LIMIT / 0x100, 1);
    assert Holds(frame, at, n / 0x100 / 0x100, 2);
    assert Holds(frame, at, n / 0x100, 3);
  }

  lemma BytesOf(n: u32)
    ensures n / 0x100 / 0x100 == n / U16_LIMIT && n % U16_LIMIT % 0x100 == n % 0x100
    ensures n % U16_LIMIT / 0x100 == n / 0x100 % 0x100 && n / U16_LIMIT / 0x100 == n / 0x100_0000
    ensures n / 0x100_0000 / 0x100 == 0
  {
  }

  // ------------------------------------------------------------------ what is built parses back

  lemma WordOfU16(n: u16)
    ensures WordSum(U16(n)) == n
  {
    assert U16(n)[2..] == [];
  }

  /** A checksum field between an even front and the rest makes the whole verify. */
  lemma FieldCancels(extra: nat, front: seq<byte>, field: u16, back: seq<byte>)
    requires |front| % 2 == 0
    requires var value := Complement(extra + WordSum(front + [0, 0] + back));
             field == value || (value == 0 && field == ONES)
    ensures Complement(extra + WordSum(front + U16(field) + back)) == 0
  {
    FieldAdds(front, field, back);
    FieldAdds(front, 0, back);
    assert U16(0) == [0, 0];
    CancelsWith(extra + WordSum(front + [0, 0] + back), field);
  }

  lemma CancelsWith(n: nat, field: u16)
    requires field == Complement(n) || (Complement(n) == 0 && field == ONES)
    ensures Complement(n + field) == 0
  {
    ComplementCancels(n);
  }

  lemma FieldAdds(front: seq<byte>, field: u16, back: seq<byte>)
    requires |front| % 2 == 0
    ensures WordSum(front + U16(field) + back) == WordSum(front) + field + WordSum(back)
  {
    ThreePieces(front, U16(field), back);
    WordOfU16(field);
  }

  lemma ThreePieces(a: seq<byte>, b: seq<byte>, c: seq<byte>)
    requires |a| % 2 == 0 && |b| % 2 == 0
    ensures WordSum(a + b + c) == WordSum(a) + WordSum(b) + WordSum(c)
  {
    WordSumAppends(a, b);
    WordSumAppends(a + b, c);
  }

  /** An IPv4 header verifies, and its fields are where the parser looks for them. */
  lemma HeaderParses(source: Address, destination: Address, protocol: byte, length: nat, identifier: u16)
    requires 20 + length < U16_LIMIT
    ensures var h := Ipv4Header(source, destination, protocol, length, identifier);
            && h[..2] == [0x45, 0] && h[2..4] == U16(20 + length) && h[4..6] == U16(identifier)
            && h[6..10] == [0x40, 0, 64, protocol] && h[12..16] == source && h[16..20] == destination
            && Complement(WordSum(h)) == 0
  {
    var h, front := Ipv4Header(source, destination, protocol, length, identifier),
        Ipv4Front(protocol, length, identifier);
    var value := Complement(WordSum(front + [0, 0] + source + destination));
    assert front + [0, 0] + source + destination == front + [0, 0] + (source + destination);
    assert h == front + U16(value) + (source + destination);
    FieldCancels(0, front, value, source + destination);
  }

  /** Whatever its payload, a frame that was built parses as the IPv4 packet it was built for. */
  lemma Ipv4RoundTrip(receiver: Mac, sender: Mac, source: Address, destination: Address, protocol: byte,
                      identifier: u16, payload: seq<byte>, tail: seq<byte>)
    requires 20 + |payload| < U16_LIMIT
    ensures var frame := Ipv4Frame(receiver, sender, source, destination, protocol, identifier, payload) + tail;
            && HasHeaders(frame, receiver, sender, source, destination, protocol, identifier, |payload|)
            && ParseEthernet(frame) == Some(EthernetPacket(sender, receiver, 0x0800))
            && ParseIpv4(frame) == Some(Ipv4Packet(source, destination, protocol, 34, |payload|))
            && frame[34..34 + |payload|] == payload
  {
    var frame := Ipv4Frame(receiver, sender, source, destination, protocol, identifier, payload) + tail;
    var e, h := Ethernet(receiver, sender, ETHERTYPE_IPV4),
        Ipv4Header(source, destination, protocol, |payload|, identifier);
    HeaderParses(source, destination, protocol, |payload|, identifier);
    assert frame[..14] == e && frame[14..34] == h;
    EthernetLaid(frame, receiver, sender);
    HeaderLaid(frame, h, source, destination, protocol, |payload|, identifier);
  }

  lemma EthernetLaid(frame: seq<byte>, receiver: Mac, sender: Mac)
    requires |frame| >= 14 && frame[..14] == Ethernet(receiver, sender, ETHERTYPE_IPV4)
    ensures frame[..6] == receiver && frame[6..12] == sender && frame[12] == 0x08 && frame[13] == 0x00
  {
    var e := Ethernet(receiver, sender, ETHERTYPE_IPV4);
    assert frame[..6] == e[..6] && frame[6..12] == e[6..12] && frame[12] == e[12] && frame[13] == e[13];
  }

  /** The fields of a header are where they belong in the frame. */
  lemma HeaderLaid(frame: seq<byte>, h: seq<byte>, source: Address, destination: Address, protocol: byte,
                   length: nat, identifier: u16)
    requires |frame| >= 34 && |h| == 20 && frame[14..34] == h && 20 + length < U16_LIMIT
    requires h[..2] == [0x45, 0] && h[2..4] == U16(20 + length) && h[4..6] == U16(identifier)
    requires h[6..10] == [0x40, 0, 64, protocol] && h[12..16] == source && h[16..20] == destination
    ensures frame[14] == 0x45 && frame[15] == 0 && Holds(frame, 16, 20 + length, 2) && Holds(frame, 18, identifier, 2)
    ensures frame[20] == 0x40 && frame[21] == 0 && frame[22] == 64 && frame[23] == protocol
    ensures frame[26..30] == source && frame[30..34] == destination && U16At(frame, 16) == 20 + length
  {
    assert frame[14] == h[..2][0] && frame[15] == h[..2][1];
    Inside(frame, 14, h, 2, 4);
    Inside(frame, 14, h, 4, 6);
    Inside(frame, 14, h, 6, 10);
    assert frame[20] == frame[20..24][0] && frame[21] == frame[20..24][1];
    assert frame[22] == frame[20..24][2] && frame[23] == frame[20..24][3];
    Inside(frame, 14, h, 12, 16);
    Inside(frame, 14, h, 16, 20);
    Holds2(frame, 16, 20 + length);
    Holds2(frame, 18, identifier);
    assert frame[16] == frame[16..18][0] && frame[17] == frame[16..18][1];
  }

  lemma SealedVerifies(source: Address, destination: Address, protocol: byte, front: seq<byte>, back: seq<byte>,
      zero: u16)
    requires |front| % 2 == 0 && (zero == 0 || zero == ONES)
    ensures Complement(TransportSum(source, destination, protocol,
            Sealed(source, destination, protocol, front, back, zero))) == 0
    ensures zero == ONES ==> U16At(Sealed(source, destination, protocol, front, back, zero), |front|) != 0
  {
    var extra := WordSum(source) + WordSum(destination) + protocol + |front| + 2 + |back|;
    var value := Complement(TransportSum(source, destination, protocol, front + [0, 0] + back));
    assert TransportSum(source, destination, protocol, front + [0, 0] + back) == extra + WordSum(front + [0, 0] + back);
    FieldCancels(extra, front, if value == 0 then zero else value, back);
  }

  lemma U16Reads(before: seq<byte>, n: u16, after: seq<byte>)
    ensures U16At(before + U16(n) + after, |before|) == n
  {
  }

  /** The fields of a UDP segment are where the parser looks for them. */
  lemma UdpFields(source: Address, destination: Address, sourcePort: u16, destinationPort: u16, payload: seq<byte>)
    requires 8 + |payload| < U16_LIMIT
    ensures var b := UdpSegment(source, destination, sourcePort, destinationPort, payload);
            && U16At(b, 0) == sourcePort && U16At(b, 2) == destinationPort && U16At(b, 4) == 8 + |payload|
            && b[..6] == U16(sourcePort) + U16(destinationPort) + U16(8 + |payload|) && b[8..] == payload
  {
  }

  lemma UdpLaid(frame: seq<byte>, segment: seq<byte>, sourcePort: u16, destinationPort: u16, payload: seq<byte>)
    requires 8 <= |segment| && |frame| >= 34 + |segment| && frame[34..34 + |segment|] == segment
    requires 8 + |payload| < U16_LIMIT
    requires segment[..6] == U16(sourcePort) + U16(destinationPort) + U16(8 + |payload|)
    ensures HasUdp(frame, sourcePort, destinationPort, |payload|)
  {
    var b := segment[..6];
    Inside(frame, 34, segment, 0, 6);
    assert b[..2] == U16(sourcePort) && b[2..4] == U16(destinationPort) && b[4..6] == U16(8 + |payload|);
    Inside(frame, 34, b, 0, 2);
    Inside(frame, 34, b, 2, 4);
    Inside(frame, 34, b, 4, 6);
    Holds2(frame, 34, sourcePort);
    Holds2(frame, 36, destinationPort);
    Holds2(frame, 38, 8 + |payload|);
  }

  /** A frame built for a UDP datagram carries every field where it belongs on the wire, and it parses, checksums
      included, to the same addresses, ports and payload. */
  lemma UdpRoundTrip(receiver: Mac, sender: Mac, source: Address, destination: Address,
                     sourcePort: u16, destinationPort: u16, identifier: u16, payload: seq<byte>, tail: seq<byte>)
    requires 28 + |payload| < U16_LIMIT
    ensures var segment := UdpSegment(source, destination, sourcePort, destinationPort, payload);
            var frame := Ipv4Frame(receiver, sender, source, destination, UDP, identifier, segment) + tail;
            && HasHeaders(frame, receiver, sender, source, destination, UDP, identifier, 8 + |payload|)
            && HasUdp(frame, sourcePort, destinationPort, |payload|)
            && ParseEthernet(frame) == Some(EthernetPacket(sender, receiver, 0x0800))
            && ParseIpv4(frame) == Some(Ipv4Packet(source, destination, UDP, 34, 8 + |payload|))
            && ParseUdp(frame, ParseIpv4(frame).value) == Ok(UdpPacket(sourcePort, destinationPort, 42, |payload|))
            && frame[42..42 + |payload|] == payload
  {
    var segment := UdpSegment(source, destination, sourcePort, destinationPort, payload);
    var frame := Ipv4Frame(receiver, sender, source, destination, UDP, identifier, segment) + tail;
    Ipv4RoundTrip(receiver, sender, source, destination, UDP, identifier, segment, tail);
    UdpFields(source, destination, sourcePort, destinationPort, payload);
    UdpLaid(frame, segment, sourcePort, destinationPort, payload);
    UdpParses(receiver, sender, source, destination, sourcePort, destinationPort, identifier, payload, tail);
  }

  lemma UdpParses(receiver: Mac, sender: Mac, source: Address, destination: Address,
                  sourcePort: u16, destinationPort: u16, identifier: u16, payload: seq<byte>, tail: seq<byte>)
    requires 28 + |payload| < U16_LIMIT
    ensures var segment := UdpSegment(source, destination, sourcePort, destinationPort, payload);
            var frame := Ipv4Frame(receiver, sender, source, destination, UDP, identifier, segment) + tail;
            && ParseIpv4(frame) == Some(Ipv4Packet(source, destination, UDP, 34, 8 + |payload|))
            && ParseUdp(frame, ParseIpv4(frame).value) == Ok(UdpPacket(sourcePort, destinationPort, 42, |payload|))
            && frame[42..42 + |payload|] == payload
  {
    var segment := UdpSegment(source, destination, sourcePort, destinationPort, payload);
    var frame := Ipv4Frame(receiver, sender, source, destination, UDP, identifier, segment) + tail;
    Ipv4RoundTrip(receiver, sender, source, destination, UDP, identifier, segment, tail);
    UdpFields(source, destination, sourcePort, destinationPort, payload);
    SealedVerifies(source, destination, UDP, UdpFront(sourcePort, destinationPort, payload), payload, ONES);
    SegmentInFrame(frame, segment);
    assert segment[8..] == frame[42..42 + |payload|];
  }

  lemma SegmentInFrame(frame: seq<byte>, segment: seq<byte>)
    requires |frame| >= 34 + |segment| && frame[34..34 + |segment|] == segment
    ensures forall k {:trigger segment[k]} :: 0 <= k < |segment| ==> frame[34 + k] == segment[k]
  {
  }

  lemma TcpFieldsRead(source: Address, destination: Address, f: TcpFields, payload: seq<byte>)
    ensures var b := TcpSegment(source, destination, f, payload);
            && U16At(b, 0) == f.sourcePort && U16At(b, 2) == f.destinationPort
            && U32At(b, 4) == f.sequence && U32At(b, 8) == f.acknowledgement
            && b[12] == 0x50 && b[13] == f.flags % 0x100 && b[20..] == payload
            && b[..16] == TcpFront(f) && b[18] == 0 && b[19] == 0
  {
    var b, front := TcpSegment(source, destination, f, payload), TcpFront(f);
    assert forall k :: 0 <= k < 16 ==> b[k] == front[k];
    FrontReads(f);
    U32Same(b, front, 4);
    U32Same(b, front, 8);
  }

  lemma U32Same(a: seq<byte>, b: seq<byte>, at: nat)
    requires at + 4 <= |a| && at + 4 <= |b| && a[at] == b[at] && a[at + 1] == b[at + 1]
    requires a[at + 2] == b[at + 2] && a[at + 3] == b[at + 3]
    ensures U32At(a, at) == U32At(b, at)
  {
  }

  lemma U32Reads(before: seq<byte>, n: u32, after: seq<byte>)
    ensures U32At(before + U32(n) + after, |before|) == n
  {
    U16Reads(before, n / U16_LIMIT, U16(n % U16_LIMIT) + after);
    U16Reads(before + U16(n / U16_LIMIT), n % U16_LIMIT, after);
    var b := before + U32(n) + after;
    assert b == before + U16(n / U16_LIMIT) + (U16(n % U16_LIMIT) + after);
    assert b == before + U16(n / U16_LIMIT) + U16(n % U16_LIMIT) + after;
  }

  lemma FrontReads(f: TcpFields)
    ensures var b := TcpFront(f);
            && U16At(b, 0) == f.sourcePort && U16At(b, 2) == f.destinationPort
            && U32At(b, 4) == f.sequence && U32At(b, 8) == f.acknowledgement
            && b[12] == 0x50 && b[13] == f.flags % 0x100
  {
    var ports, rest := U16(f.sourcePort) + U16(f.destinationPort), [0x50, f.flags % 0x100] + U16(4096);
    var sequence, acknowledgement := U32(f.sequence), U32(f.acknowledgement);
    var b := TcpFront(f);
    assert b == ports + sequence + (acknowledgement + rest) && b == (ports + sequence) + acknowledgement + rest;
    U32Reads(ports, f.sequence, acknowledgement + rest);
    U32Reads(ports + sequence, f.acknowledgement, rest);
  }

  lemma TcpLaid(frame: seq<byte>, segment: seq<byte>, f: TcpFields)
    requires 20 <= |segment| && |frame| >= 34 + |segment| && frame[34..34 + |segment|] == segment
    requires segment[..16] == TcpFront(f) && segment[18] == 0 && segment[19] == 0
    ensures HasTcp(frame, f)
  {
    var b := TcpFront(f);
    Inside(frame, 34, segment, 0, 16);
    FrontPieces(f);
    Inside(frame, 34, b, 0, 2);
    Holds2(frame, 34, f.sourcePort);
    Inside(frame, 34, b, 2, 4);
    Holds2(frame, 36, f.destinationPort);
    Inside(frame, 34, b, 4, 8);
    Holds4(frame, 38, f.sequence);
    Inside(frame, 34, b, 8, 12);
    Holds4(frame, 42, f.acknowledgement);
    FlagsLaid(frame, segment, f);
  }

  lemma FrontPieces(f: TcpFields)
    ensures var b := TcpFront(f);
            && b[0..2] == U16(f.sourcePort) && b[2..4] == U16(f.destinationPort)
            && b[4..8] == U32(f.sequence) && b[8..12] == U32(f.acknowledgement)
            && b[12..16] == [0x50, f.flags % 0x100, 0x10, 0x00]
  {
  }

  lemma FlagsLaid(frame: seq<byte>, segment: seq<byte>, f: TcpFields)
    requires 20 <= |segment| && |frame| >= 34 + |segment| && frame[34..34 + |segment|] == segment
    requires segment[..16] == TcpFront(f) && segment[18] == 0 && segment[19] == 0
    ensures frame[46] == 0x50 && frame[47] == f.flags % 0x100 && frame[48] == 0x10 && frame[49] == 0x00
    ensures frame[52] == 0 && frame[53] == 0
  {
    FrontPieces(f);
    assert segment[12..16] == segment[..16][12..16];
    SegmentInFrame(frame, segment);
    assert segment[12] == segment[12..16][0] && segment[13] == segment[12..16][1];
    assert segment[14] == segment[12..16][2] && segment[15] == segment[12..16][3];
  }

  /** A frame built for a TCP segment carries every field where it belongs on the wire, and it parses to the same
      fields and payload; flags are cut to their low byte. */
  lemma TcpRoundTrip(receiver: Mac, sender: Mac, source: Address, destination: Address, f: TcpFields,
                     payload: seq<byte>, tail: seq<byte>)
    requires 40 + |payload| < U16_LIMIT
    ensures var segment := TcpSegment(source, destination, f, payload);
            var frame := Ipv4Frame(receiver, sender, source, destination, TCP, 0, segment) + tail;
            && HasHeaders(frame, receiver, sender, source, destination, TCP, 0, 20 + |payload|) && HasTcp(frame, f)
            && ParseEthernet(frame) == Some(EthernetPacket(sender, receiver, 0x0800))
            && ParseIpv4(frame) == Some(Ipv4Packet(source, destination, TCP, 34, 20 + |payload|))
            && ParseTcp(frame, ParseIpv4(frame).value) == Ok(TcpPacket(f.(flags := f.flags % 0x100), 54, |payload|))
            && frame[54..54 + |payload|] == payload
  {
    var segment := TcpSegment(source, destination, f, payload);
    var frame := Ipv4Frame(receiver, sender, source, destination, TCP, 0, segment) + tail;
    Ipv4RoundTrip(receiver, sender, source, destination, TCP, 0, segment, tail);
    TcpFieldsRead(source, destination, f, payload);
    TcpLaid(frame, segment, f);
    TcpParses(receiver, sender, source, destination, f, payload, tail);
  }

  lemma TcpParses(receiver: Mac, sender: Mac, source: Address, destination: Address, f: TcpFields,
                  payload: seq<byte>, tail: seq<byte>)
    requires 40 + |payload| < U16_LIMIT
    ensures var segment := TcpSegment(source, destination, f, payload);
            var frame := Ipv4Frame(receiver, sender, source, destination, TCP, 0, segment) + tail;
            && ParseIpv4(frame) == Some(Ipv4Packet(source, destination, TCP, 34, 20 + |payload|))
            && ParseTcp(frame, ParseIpv4(frame).value) == Ok(TcpPacket(f.(flags := f.flags % 0x100), 54, |payload|))
            && frame[54..54 + |payload|] == payload
  {
    var segment := TcpSegment(source, destination, f, payload);
    var frame := Ipv4Frame(receiver, sender, source, destination, TCP, 0, segment) + tail;
    Ipv4RoundTrip(receiver, sender, source, destination, TCP, 0, segment, tail);
    TcpFieldsRead(source, destination, f, payload);
    SealedVerifies(source, destination, TCP, TcpFront(f), [0, 0] + payload, 0);
    SegmentParses(frame, segment, Ipv4Packet(source, destination, TCP, 34, 20 + |payload|), f);
    assert segment[20..] == frame[54..54 + |payload|];
  }

  /** A segment at the front of the payload that verifies and has a header without options. */
  lemma SegmentParses(frame: seq<byte>, segment: seq<byte>, p: Ipv4Packet, f: TcpFields)
    requires |segment| >= 20 && |frame| >= 34 + |segment| && frame[34..34 + |segment|] == segment
    requires p.payload == 34 && p.length == |segment|
    requires Complement(TransportSum(p.source, p.destination, TCP, segment)) == 0
    requires U16At(segment, 0) == f.sourcePort && U16At(segment, 2) == f.destinationPort
    requires U32At(segment, 4) == f.sequence && U32At(segment, 8) == f.acknowledgement
    requires segment[12] == 0x50 && segment[13] == f.flags % 0x100
    ensures ParseTcp(frame, p) == Ok(TcpPacket(f.(flags := f.flags % 0x100), 54, |segment| - 20))
  {
    TcpFieldsSame(frame, segment);
  }

  /** The parser reads the same fields from the frame as from the segment in it. */
  lemma TcpFieldsSame(frame: seq<byte>, segment: seq<byte>)
    requires |segment| >= 20 && |frame| >= 34 + |segment| && frame[34..34 + |segment|] == segment
    ensures U16At(frame, 34) == U16At(segment, 0) && U16At(frame, 36) == U16At(segment, 2)
    ensures U32At(frame, 38) == U32At(segment, 4) && U32At(frame, 42) == U32At(segment, 8)
    ensures frame[46] == segment[12] && frame[47] == segment[13]
  {
    SegmentInFrame(frame, segment);
  }

  /** An echo reply verifies, parses as an ICMP packet and carries the request's identifier, number and data. */
  lemma IcmpReplyRoundTrip(receiver: Mac, sender: Mac, source: Address, destination: Address, request: seq<byte>)
    requires |request| >= 8 && 20 + |request| < U16_LIMIT
    ensures var frame := Ipv4Frame(receiver, sender, source, destination, ICMP, 0, IcmpReply(request));
            && HasHeaders(frame, receiver, sender, source, destination, ICMP, 0, |request|)
            && ParseIpv4(frame) == Some(Ipv4Packet(source, destination, ICMP, 34, |request|))
            && Complement(WordSum(frame[34..34 + |request|])) == 0
            && frame[34] == 0 && frame[35] == request[1] && frame[38..34 + |request|] == request[4..]
  {
    var reply, front := IcmpReply(request), [0, request[1]];
    var frame := Ipv4Frame(receiver, sender, source, destination, ICMP, 0, reply);
    assert frame + [] == frame;
    Ipv4RoundTrip(receiver, sender, source, destination, ICMP, 0, reply, []);
    FieldCancels(0, front, Complement(WordSum(front + [0, 0] + request[4..])), request[4..]);
    SegmentInFrame(frame, reply);
    assert reply[4..] == request[4..] && frame[38..34 + |request|] == reply[4..];
  }

  // ------------------------------------------------------------------ what parses, and as what

  lemma HoldsExactly(frame: seq<byte>, at: nat, n: nat)
    requires at + 2 <= |frame|
    ensures Holds(frame, at, n, 2) <==> U16At(frame, at) == n
  {
    assert Holds(frame, at, n, 2) <==> frame[at + 1] == n % 0x100 && Holds(frame, at, n / 0x100, 1);
    assert Holds(frame, at, n / 0x100, 1) <==> frame[at] == n / 0x100 % 0x100 && Holds(frame, at, n / 0x100 / 0x100, 0);
  }

  lemma HoldsWide(frame: seq<byte>, at: nat, n: u32)
    requires at + 4 <= |frame|
    ensures Holds(frame, at, n, 4) <==> U32At(frame, at) == n
  {
    assert Holds(frame, at, n, 4) <==> frame[at + 3] == n % 0x100 && Holds(frame, at, n / 0x100, 3);
    assert Holds(frame, at, n / 0x100, 3)
        <==> frame[at + 2] == n / 0x100 % 0x100 && Holds(frame, at, n / 0x100 / 0x100, 2);
    HoldsExactly(frame, at, n / 0x100 / 0x100);
    BytesOf(n);
    assert n == U16_LIMIT * (n / U16_LIMIT) + 0x100 * (n / 0x100 % 0x100) + n % 0x100;
  }

  /** An IPv4 packet in a frame: a header of five to fifteen words that sums to a positive multiple of 65535, and a
      payload right behind it that ends inside the frame. */
  predicate CarriesIpv4(frame: seq<byte>, p: Ipv4Packet) {
    && 34 <= p.payload <= 74 && p.payload % 4 == 2 && p.payload + p.length <= |frame|
    && frame[12] == 0x08 && frame[13] == 0x00
    && frame[14] == 0x40 + (p.payload - 14) / 4 && Holds(frame, 16, p.payload - 14 + p.length, 2)
    && frame[23] == p.protocol && frame[26..30] == p.source && frame[30..34] == p.destination
    && Sums(WordSum(frame[14..p.payload]))
  }

  predicate Sums(n: nat) { n > 0 && n % ONES == 0 }

  /** A frame parses as an IPv4 packet exactly when it carries it. */
  lemma Ipv4ParsesExactly(frame: seq<byte>, p: Ipv4Packet)
    ensures ParseIpv4(frame) == Some(p) <==> CarriesIpv4(frame, p)
  {
    if |frame| >= 34 && 34 <= p.payload <= |frame| {
      VerifiesExactly(WordSum(frame[14..p.payload]));
      HoldsExactly(frame, 16, p.payload - 14 + p.length);
    }
  }

  /** A UDP datagram at the front of the payload, whose checksum is absent or right. */
  predicate CarriesUdp(frame: seq<byte>, p: Ipv4Packet, u: UdpPacket) {
    && u.payload == p.payload + 8 && 8 + u.length <= p.length && p.payload + p.length <= |frame|
    && Holds(frame, p.payload, u.sourcePort, 2) && Holds(frame, p.payload + 2, u.destinationPort, 2)
    && Holds(frame, p.payload + 4, 8 + u.length, 2)
    && (Holds(frame, p.payload + 6, 0, 2)
        || Sums(TransportSum(p.source, p.destination, 17, frame[p.payload..p.payload + 8 + u.length])))
  }

  lemma UdpParsesExactly(frame: seq<byte>, p: Ipv4Packet, u: UdpPacket)
    ensures ParseUdp(frame, p) == Ok(u) <==> CarriesUdp(frame, p, u)
  {
    if p.length >= 8 && p.payload + p.length <= |frame| {
      HoldsExactly(frame, p.payload, u.sourcePort);
      HoldsExactly(frame, p.payload + 2, u.destinationPort);
      HoldsExactly(frame, p.payload + 4, 8 + u.length);
      HoldsExactly(frame, p.payload + 6, 0);
      if 8 + u.length <= p.length {
        VerifiesExactly(TransportSum(p.source, p.destination, UDP, frame[p.payload..p.payload + 8 + u.length]));
      }
    }
  }

  predicate CarriesFields(frame: seq<byte>, at: nat, f: TcpFields)
    requires at + 14 <= |frame|
  {
    && Holds(frame, at, f.sourcePort, 2) && Holds(frame, at + 2, f.destinationPort, 2)
    && Holds(frame, at + 4, f.sequence, 4) && Holds(frame, at + 8, f.acknowledgement, 4)
    && f.flags / 0x100 == frame[at + 12] % 2 && f.flags % 0x100 == frame[at + 13]
  }

  lemma TcpFieldsExactly(frame: seq<byte>, at: nat, f: TcpFields)
    requires at + 14 <= |frame|
    ensures TcpFieldsAt(frame, at) == f <==> CarriesFields(frame, at, f)
  {
    HoldsExactly(frame, at, f.sourcePort);
    HoldsExactly(frame, at + 2, f.destinationPort);
    HoldsWide(frame, at + 4, f.sequence);
    HoldsWide(frame, at + 8, f.acknowledgement);
  }

  /** A TCP segment that fills the payload: a header of five to fifteen words and a right checksum. */
  predicate CarriesTcp(frame: seq<byte>, p: Ipv4Packet, t: TcpPacket) {
    var at := p.payload;
    && at + 20 <= t.payload && t.payload + t.length == at + p.length <= |frame| && (t.payload - at) % 4 == 0
    && frame[at + 12] / 0x10 == (t.payload - at) / 4
    && CarriesFields(frame, at, t.fields)
    && Sums(TransportSum(p.source, p.destination, 6, frame[at..at + p.length]))
  }

  lemma TcpParsesExactly(frame: seq<byte>, p: Ipv4Packet, t: TcpPacket)
    ensures ParseTcp(frame, p) == Ok(t) <==> CarriesTcp(frame, p, t)
  {
    var at := p.payload;
    if p.length >= 20 && at + p.length <= |frame| {
      TcpFieldsExactly(frame, at, t.fields);
      VerifiesExactly(TransportSum(p.source, p.destination, TCP, frame[at..at + p.length]));
    }
  }
}
