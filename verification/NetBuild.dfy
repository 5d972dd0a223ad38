/** The frame builders of `src/net.rs`, which fill a caller's buffer in place. */
module NetBuild {
  import opened Common
  import opened NetChecksum
  import opened NetFrames

  /** The buffer with some bytes written at an offset. */
  function Splice(s: seq<byte>, at: nat, bytes: seq<byte>): (r: seq<byte>)
    requires at + |bytes| <= |s|
    ensures |r| == |s|
  {
    s[..at] + bytes + s[at + |bytes|..]
  }

  lemma SpliceExtends(s: seq<byte>, at: nat, a: seq<byte>, b: seq<byte>)
    requires at + |a| + |b| <= |s|
    ensures Splice(Splice(s, at, a), at + |a|, b) == Splice(s, at, a + b)
  {
  }

  lemma SpliceInside(s: seq<byte>, at: nat, a: seq<byte>, b: seq<byte>, b2: seq<byte>, c: seq<byte>)
    requires at + |a| + |b| + |c| <= |s| && |b2| == |b|
    ensures Splice(Splice(s, at, a + b + c), at + |a|, b2) == Splice(s, at, a + b2 + c)
  {
  }

  lemma SpliceReads(s: seq<byte>, at: nat, bytes: seq<byte>)
    requires at + |bytes| <= |s|
    ensures Splice(s, at, bytes)[at..at + |bytes|] == bytes
  {
  }

  /** Copies bytes into the buffer. */
  method Put(frame: array<byte>, at: nat, bytes: seq<byte>)
    requires at + |bytes| <= frame.Length
    modifies frame
    ensures frame[..] == Splice(old(frame[..]), at, bytes)
  {
    forall k | 0 <= k < |bytes| { frame[at + k] := bytes[k]; }
  }

  /** Copies bytes right after those copied so far. */
  method Append(frame: array<byte>, at: nat, bytes: seq<byte>, ghost s: seq<byte>, ghost done: seq<byte>,
      ghost start: nat)
    requires |s| == frame.Length && at == start + |done| && at + |bytes| <= frame.Length
    requires frame[..] == Splice(s, start, done)
    modifies frame
    ensures frame[..] == Splice(s, start, done + bytes)
  {
    Put(frame, at, bytes);
    SpliceExtends(s, start, done, bytes);
  }

  method BuildEthernet(frame: array<byte>, destination: Mac, source: Mac, ethertype: u16) returns (r: Result<(), Error>)
    modifies frame
    ensures if frame.Length < 14 then r == Err(InvalidPacket) && frame[..] == old(frame[..])
            else r == Ok(()) && frame[..] == Splice(old(frame[..]), 0, Ethernet(destination, source, ethertype))
  {
    if frame.Length < 14 {
      return Err(InvalidPacket);
    }
    ghost var s := frame[..];
    Put(frame, 0, destination);
    Append(frame, 6, source, s, destination, 0);
    Append(frame, 12, U16(ethertype), s, destination + source, 0);
    return Ok(());
  }

  method BuildIpv4Header(frame: array<byte>, source: Address, destination: Address, protocol: byte, length: nat,
                         identifier: u16) returns (r: Result<(), Error>)
    modifies frame
    ensures if 20 + length > 0xffff || frame.Length < 34 + length
            then r == Err(PayloadTooLarge) && frame[..] == old(frame[..])
            else r == Ok(()) && frame[..]
                 == Splice(old(frame[..]), 14, Ipv4Header(source, destination, protocol, length, identifier))
  {
    if 20 + length > 0xffff || frame.Length < 34 + length {
      return Err(PayloadTooLarge);
    }
    ghost var s := frame[..];
    ghost var front := Ipv4Front(protocol, length, identifier);
    PutIpv4Front(frame, protocol, length, identifier);
    Append(frame, 24, [0, 0], s, front, 14);
    Append(frame, 26, source, s, front + [0, 0], 14);
    Append(frame, 30, destination, s, front + [0, 0] + source, 14);
    ghost var blank := front + [0, 0] + source + destination;
    SpliceReads(s, 14, blank);
    var value := Checksum(frame[14..34]);
    Put(frame, 24, U16(value));
    ghost var back: seq<byte> := source + destination;
    assert blank == front + [0, 0] + back;
    SpliceInside(s, 14, front, [0, 0], U16(value), back);
    assert front + U16(value) + back == front + U16(value) + source + destination;
    return Ok(());
  }

  method PutIpv4Front(frame: array<byte>, protocol: byte, length: nat, identifier: u16)
    requires frame.Length >= 24 && 20 + length < U16_LIMIT
    modifies frame
    ensures frame[..] == Splice(old(frame[..]), 14, Ipv4Front(protocol, length, identifier))
  {
    ghost var s := frame[..];
    ghost var done: seq<byte> := [0x45, 0];
    Put(frame, 14, [0x45, 0]);
    Append(frame, 16, U16(20 + length), s, done, 14);
    done := done + U16(20 + length);
    Append(frame, 18, U16(identifier), s, done, 14);
    done := done + U16(identifier);
    Append(frame, 20, [0x40, 0, 64, protocol], s, done, 14);
  }

  /** When the headers fit: what both transports check before they write their segment. */
  predicate Fits(frame: array<byte>, total: nat) { total <= MAX_FRAME && total <= frame.Length }

  /** The Ethernet and IPv4 headers, in front of a segment of the given length. */
  method BuildHeaders(frame: array<byte>, receiver: Mac, sender: Mac, source: Address, destination: Address,
                      protocol: byte, length: nat, identifier: u16) returns (r: Result<(), Error>)
    requires 34 + length <= MAX_FRAME
    modifies frame
    ensures r.Ok? <==> Fits(frame, 34 + length)
    ensures r.Ok? ==> frame[..] == Splice(old(frame[..]), 0, Ethernet(receiver, sender, ETHERTYPE_IPV4)
                                                             + Ipv4Header(source, destination, protocol,
                                                                          length, identifier))
    ensures r.Err? ==> r.error == if frame.Length < 14 then InvalidPacket else PayloadTooLarge
  {
    ghost var s := frame[..];
    var e := BuildEthernet(frame, receiver, sender, ETHERTYPE_IPV4);
    if e.Err? {
      return e;
    }
    r := BuildIpv4Header(frame, source, destination, protocol, length, identifier);
    if r.Ok? {
      SpliceExtends(s, 0, Ethernet(receiver, sender, ETHERTYPE_IPV4),
                    Ipv4Header(source, destination, protocol, length, identifier));
    }
  }

  method BuildUdpFrame(frame: array<byte>, receiver: Mac, sender: Mac, source: Address, destination: Address,
                       sourcePort: u16, destinationPort: u16, payload: seq<byte>, identifier: u16)
    returns (r: Result<nat, Error>)
    modifies frame
    ensures r == if Fits(frame, 42 + |payload|) then Ok(42 + |payload|)
                 else if 42 + |payload| <= MAX_FRAME && frame.Length < 14 then Err(InvalidPacket)
                 else Err(PayloadTooLarge)
    ensures r.Ok? ==>
              frame[..] == Splice(old(frame[..]), 0,
                Ipv4Frame(receiver, sender, source, destination, UDP, identifier,
                          UdpSegment(source, destination, sourcePort, destinationPort, payload)))
  {
    var total := 42 + |payload|;
    if total > MAX_FRAME {
      return Err(PayloadTooLarge);
    }
    ghost var s := frame[..];
    var headers := BuildHeaders(frame, receiver, sender, source, destination, UDP, 8 + |payload|, identifier);
    if headers.Err? {
      return Err(headers.error);
    }
    ghost var before := frame[..];
    ghost var front := UdpFront(sourcePort, destinationPort, payload);
    Put(frame, 34, U16(sourcePort));
    Append(frame, 36, U16(destinationPort), before, U16(sourcePort), 34);
    Append(frame, 38, U16(8 + |payload|), before, U16(sourcePort) + U16(destinationPort), 34);
    Append(frame, 40, [0, 0], before, front, 34);
    Append(frame, 42, payload, before, front + [0, 0], 34);
    SpliceReads(before, 34, front + [0, 0] + payload);
    var value := TransportChecksum(source, destination, UDP, frame[34..total]);
    var field := if value == 0 then 0xffff else value;
    Put(frame, 40, U16(field));
    SpliceInside(before, 34, front, [0, 0], U16(field), payload);
    SpliceExtends(s, 0, Ethernet(receiver, sender, ETHERTYPE_IPV4)
                        + Ipv4Header(source, destination, UDP, 8 + |payload|, identifier),
                  front + U16(field) + payload);
    return Ok(total);
  }

  method BuildTcpFrame(frame: array<byte>, receiver: Mac, sender: Mac, source: Address, destination: Address,
                       f: TcpFields, payload: seq<byte>) returns (r: Result<nat, Error>)
    modifies frame
    ensures r == if Fits(frame, 54 + |payload|) then Ok(54 + |payload|)
                 else if 54 + |payload| <= MAX_FRAME && frame.Length < 14 then Err(InvalidPacket)
                 else Err(PayloadTooLarge)
    ensures r.Ok? ==>
              frame[..] == Splice(old(frame[..]), 0,
                Ipv4Frame(receiver, sender, source, destination, TCP, 0, TcpSegment(source, destination, f, payload)))
  {
    var total := 54 + |payload|;
    if total > MAX_FRAME {
      return Err(PayloadTooLarge);
    }
    ghost var s := frame[..];
    var headers := BuildHeaders(frame, receiver, sender, source, destination, TCP, 20 + |payload|, 0);
    if headers.Err? {
      return Err(headers.error);
    }
    ghost var before := frame[..];
    ghost var front, back: seq<byte> := TcpFront(f), [0, 0] + payload;
    PutTcpFront(frame, f);
    Append(frame, 50, [0, 0], before, front, 34);
    Append(frame, 52, [0, 0], before, front + [0, 0], 34);
    Append(frame, 54, payload, before, front + [0, 0] + [0, 0], 34);
    assert front + [0, 0] + [0, 0] + payload == front + [0, 0] + back;
    SpliceReads(before, 34, front + [0, 0] + back);
    var value := TransportChecksum(source, destination, TCP, frame[34..total]);
    Put(frame, 50, U16(value));
    SpliceInside(before, 34, front, [0, 0], U16(value), back);
    SpliceExtends(s, 0, Ethernet(receiver, sender, ETHERTYPE_IPV4)
                        + Ipv4Header(source, destination, TCP, 20 + |payload|, 0),
                  front + U16(value) + back);
    return Ok(total);
  }

  method PutTcpFront(frame: array<byte>, f: TcpFields)
    requires frame.Length >= 50
    modifies frame
    ensures frame[..] == Splice(old(frame[..]), 34, TcpFront(f))
  {
    ghost var s := frame[..];
    ghost var done: seq<byte> := U16(f.sourcePort);
    Put(frame, 34, U16(f.sourcePort));
    Append(frame, 36, U16(f.destinationPort), s, done, 34);
    done := done + U16(f.destinationPort);
    Append(frame, 38, U32(f.sequence), s, done, 34);
    done := done + U32(f.sequence);
    Append(frame, 42, U32(f.acknowledgement), s, done, 34);
    done := done + U32(f.acknowledgement);
    Append(frame, 46, [0x50, f.flags % 0x100], s, done, 34);
    done := done + [0x50, f.flags % 0x100];
    Append(frame, 48, U16(4096), s, done, 34);
  }

  method BuildIpv4Frame(frame: array<byte>, receiver: Mac, sender: Mac, source: Address, destination: Address,
                        protocol: byte, payload: seq<byte>, identifier: u16) returns (r: Result<nat, Error>)
    modifies frame
    ensures r == if Fits(frame, 34 + |payload|) then Ok(34 + |payload|)
                 else if 34 + |payload| <= MAX_FRAME && frame.Length < 14 then Err(InvalidPacket)
                 else Err(PayloadTooLarge)
    ensures r.Ok? ==>
              frame[..] == Splice(old(frame[..]), 0,
                Ipv4Frame(receiver, sender, source, destination, protocol, identifier, payload))
  {
    var total := 34 + |payload|;
    if total > MAX_FRAME {
      return Err(PayloadTooLarge);
    }
    ghost var s := frame[..];
    var headers := BuildHeaders(frame, receiver, sender, source, destination, protocol, |payload|, identifier);
    if headers.Err? {
      return Err(headers.error);
    }
    Append(frame, 34, payload, s, Ethernet(receiver, sender, ETHERTYPE_IPV4)
                                  + Ipv4Header(source, destination, protocol, |payload|, identifier), 0);
    return Ok(total);
  }

  method BuildIcmpReply(frame: array<byte>, receiver: Mac, sender: Mac, source: Address, destination: Address,
                        request: seq<byte>) returns (r: Result<nat, Error>)
    modifies frame
    ensures |request| < 8 ==> r == Err(InvalidPacket) && frame[..] == old(frame[..])
    ensures |request| >= 8 ==> (r.Ok? <==> Fits(frame, 34 + |request|))
    ensures r.Ok? ==> r.value == 34 + |request|
    ensures r.Ok? ==> frame[..] == Splice(old(frame[..]), 0,
                        Ipv4Frame(receiver, sender, source, destination, ICMP, 0, IcmpReply(request)))
  {
    if |request| < 8 {
      return Err(InvalidPacket);
    }
    if |request| > MAX_FRAME - 34 {
      return Err(PayloadTooLarge);
    }
    var front, back := [0, request[1]], request[4..];
    var value := Checksum(front + [0, 0] + back);
    r := BuildIpv4Frame(frame, receiver, sender, source, destination, ICMP, front + U16(value) + back, 0);
  }
}
