/** Building and reading IPv4 UDP packets, with the Internet checksum of RFC 1071. */
module UdpResponse {
  import opened Wrappers
  import opened Bytes

  const IP_HEADER: nat := 20
  const UDP_HEADER: nat := 8

  type Octets = b: seq<Byte> | |b| == 4 witness [0, 0, 0, 0]

  // ----- sums of 16-bit words

  /** The sum of the big-endian words; an odd last byte counts as the high half of a word. */
  function SumWords(bytes: seq<Byte>): nat {
    if bytes == [] then 0
    else if |bytes| == 1 then bytes[0] * 0x100
    else bytes[0] * 0x100 + bytes[1] + SumWords(bytes[2..])
  }

  function Fold(sum: nat): nat
    decreases sum
  {
    if sum < 0x1_0000 then sum else Fold(sum % 0x1_0000 + sum / 0x1_0000)
  }

  function Finish(sum: nat): (r: U16)
  {
    FoldIsRemainder(sum);
    var checksum := 0xffff - Fold(sum);
    if checksum == 0 then 0xffff else checksum
  }

  /** What a receiver tests: the folded sum, checksum included, is all ones. */
  predicate Verifies(sum: nat) {
    Fold(sum) == 0xffff
  }

  /** Folding keeps the sum modulo 2^16 - 1, and only a zero sum folds to zero. */
  lemma {:induction false} FoldIsRemainder(sum: nat)
    ensures Fold(sum) < 0x1_0000 && Fold(sum) % 0xffff == sum % 0xffff
    ensures Fold(sum) == 0 <==> sum == 0
    decreases sum
  {
    if sum >= 0x1_0000 {
      var folded := sum % 0x1_0000 + sum / 0x1_0000;
      assert sum == folded + 0xffff * (sum / 0x1_0000);
      AddMultiple(folded, sum / 0x1_0000);
      FoldIsRemainder(folded);
    }
  }

  lemma {:induction false} AddMultiple(x: nat, q: nat)
    ensures (x + 0xffff * q) % 0xffff == x % 0xffff
  {
    if q > 0 {
      AddMultiple(x, q - 1);
      assert x + 0xffff * q == (x + 0xffff * (q - 1)) + 0xffff;
    }
  }

  /** The finished checksum makes the sum verify, also where a computed zero is sent as all ones. */
  lemma FinishVerifies(sum: nat)
    ensures Verifies(sum + Finish(sum)) && Finish(sum) != 0
  {
    FoldIsRemainder(sum);
    FoldIsRemainder(sum + Finish(sum));
    ComplementsToZero(sum, Fold(sum), Finish(sum));
  }

  lemma ComplementsToZero(sum: nat, folded: nat, checksum: nat)
    requires folded < 0x1_0000 && folded % 0xffff == sum % 0xffff
    requires checksum == if folded == 0xffff then 0xffff else 0xffff - folded
    ensures (sum + checksum) % 0xffff == 0
  {
    assert (sum + checksum) % 0xffff == (sum % 0xffff + checksum % 0xffff) % 0xffff;
  }

  lemma {:induction false} SumOfConcat(a: seq<Byte>, b: seq<Byte>)
    requires |a| % 2 == 0
    ensures SumWords(a + b) == SumWords(a) + SumWords(b)
    decreases |a|
  {
    if a == [] {
      assert a + b == b;
    } else {
      assert (a + b)[2..] == a[2..] + b;
      SumOfConcat(a[2..], b);
    }
  }

  lemma SumOfWord(x: U16)
    ensures SumWords(Big16(x)) == x
  {
    assert Big16(x)[2..] == [];
  }

  lemma {:induction false} SumBound(bytes: seq<Byte>)
    ensures 2 * SumWords(bytes) <= 0xffff * (|bytes| + 1)
  {
    if |bytes| >= 2 {
      SumBound(bytes[2..]);
    }
  }

  /** Add words to a 32-bit accumulator that has room for them; no addition on the way overflows it. */
  method AddBytes(start: U32, bytes: seq<Byte>) returns (sum: U32)
    requires start + SumWords(bytes) < 0x1_0000_0000
    ensures sum == start + SumWords(bytes)
  {
    sum := start;
    var i := 0;
    while i + 1 < |bytes|
      invariant 0 <= i <= |bytes| && i % 2 == 0
      invariant sum + SumWords(bytes[i..]) == start + SumWords(bytes)
    {
      assert bytes[i..][2..] == bytes[i + 2..];
      sum := sum + bytes[i] as int * 0x100 + bytes[i + 1];
      i := i + 2;
    }
    if i < |bytes| {
      sum := sum + bytes[i] as int * 0x100;
    }
  }

  method FinishChecksum(start: nat) returns (checksum: U16)
    ensures checksum == Finish(start)
  {
    var sum := start;
    while sum / 0x1_0000 != 0
      invariant Fold(sum) == Fold(start)
      decreases sum
    {
      sum := sum % 0x1_0000 + sum / 0x1_0000;
    }
    checksum := 0xffff - sum;
    if checksum == 0 {
      checksum := 0xffff;
    }
  }

  // ----- the packet

  function IpFront(totalLength: U16, identification: U16): (r: seq<Byte>)
    ensures |r| == 10
  {
    [0x45, 0] + Big16(totalLength) + Big16(identification) + [0x40, 0, 64, 17]
  }

  function IpHeader(totalLength: U16, identification: U16, checksum: U16, source: Octets,
                    destination: Octets): (r: seq<Byte>)
    ensures |r| == IP_HEADER
  {
    IpFront(totalLength, identification) + Big16(checksum) + (source + destination)
  }

  function UdpFront(sourcePort: U16, destinationPort: U16, length: U16): (r: seq<Byte>)
    ensures |r| == 6
  {
    Big16(sourcePort) + Big16(destinationPort) + Big16(length)
  }

  function UdpSegment(sourcePort: U16, destinationPort: U16, length: U16, checksum: U16,
                      payload: seq<Byte>): (r: seq<Byte>)
    ensures |r| == UDP_HEADER + |payload|
  {
    UdpFront(sourcePort, destinationPort, length) + Big16(checksum) + payload
  }

  /** The sum of the UDP pseudo-header. */
  function PseudoSum(source: Octets, destination: Octets, length: nat): nat {
    SumWords(source) + SumWords(destination) + 17 + length
  }

  /** The twelve bytes of the UDP pseudo-header. */
  function PseudoHeader(source: Octets, destination: Octets, length: U16): (r: seq<Byte>)
    ensures |r| == 12
  {
    source + destination + [0, 17] + Big16(length)
  }

  /** The sum is that of the pseudo-header's own bytes, with the segment behind them. */
  lemma PseudoSumIsOfBytes(source: Octets, destination: Octets, length: U16, segment: seq<Byte>)
    ensures SumWords(PseudoHeader(source, destination, length) + segment) ==
            PseudoSum(source, destination, length) + SumWords(segment)
  {
    SumOfConcat(PseudoHeader(source, destination, length), segment);
    SumOfConcat(source + destination + [0, 17], Big16(length));
    SumOfConcat(source + destination, [0, 17]);
    SumOfConcat(source, destination);
    SumOfWord(length);
    SeventeenAlone();
  }

  lemma SeventeenAlone()
    ensures SumWords([0, 17]) == 17
  {
    assert [0, 17][2..] == [];
  }

  datatype Response = Response(source: Octets, destination: Octets, sourcePort: U16, destinationPort: U16,
                               identification: U16, payload: seq<Byte>)

  predicate Fits(r: Response) {
    IP_HEADER + UDP_HEADER + |r.payload| <= 0xffff
  }

  function IpChecksum(r: Response): U16
    requires Fits(r)
  {
    Finish(SumWords(IpHeader(IP_HEADER + UDP_HEADER + |r.payload|, r.identification, 0, r.source, r.destination)))
  }

  function UdpChecksum(r: Response): U16
    requires Fits(r)
  {
    var length := UDP_HEADER + |r.payload|;
    Finish(PseudoSum(r.source, r.destination, length)
        + SumWords(UdpSegment(r.sourcePort, r.destinationPort, length, 0, r.payload)))
  }

  function BuiltHeader(r: Response): (h: seq<Byte>)
    requires Fits(r)
    ensures |h| == IP_HEADER
  {
    IpHeader(IP_HEADER + UDP_HEADER + |r.payload|, r.identification, IpChecksum(r), r.source, r.destination)
  }

  function BuiltUdp(r: Response): (u: seq<Byte>)
    requires Fits(r)
    ensures |u| == UDP_HEADER + |r.payload|
  {
    UdpSegment(r.sourcePort, r.destinationPort, UDP_HEADER + |r.payload|, UdpChecksum(r), r.payload)
  }

  /** A field in place of a zero one adds its value to the sum. */
  lemma SumWithField(front: seq<Byte>, field: U16, rest: seq<Byte>)
    requires |front| % 2 == 0
    ensures SumWords(front + Big16(field) + rest) == SumWords(front + Big16(0) + rest) + field
  {
    SumOfConcat(front + Big16(field), rest);
    SumOfConcat(front + Big16(0), rest);
    SumOfConcat(front, Big16(field));
    SumOfConcat(front, Big16(0));
    SumOfWord(field);
    SumOfWord(0);
  }

  /** The built header and the built segment both pass the receiver's checksum test. */
  lemma ChecksumsVerify(r: Response)
    requires Fits(r)
    ensures Verifies(SumWords(BuiltHeader(r)))
    ensures Verifies(PseudoSum(r.source, r.destination, |BuiltUdp(r)|) + SumWords(BuiltUdp(r)))
    ensures UdpChecksum(r) != 0
  {
    var length := UDP_HEADER + |r.payload|;
    SumWithField(IpFront(IP_HEADER + length, r.identification), IpChecksum(r), r.source + r.destination);
    FinishVerifies(SumWords(IpHeader(IP_HEADER + length, r.identification, 0, r.source, r.destination)));
    SumWithField(UdpFront(r.sourcePort, r.destinationPort, length), UdpChecksum(r), r.payload);
    FinishVerifies(PseudoSum(r.source, r.destination, length)
                   + SumWords(UdpSegment(r.sourcePort, r.destinationPort, length, 0, r.payload)));
  }

  // ----- reading

  datatype Ipv4Packet = Ipv4Packet(source: Octets, destination: Octets, identification: U16, protocol: Byte,
                                   fragmented: bool, payload: seq<Byte>)

  function ParseIpv4(packet: seq<Byte>): Option<Ipv4Packet> {
    if |packet| < IP_HEADER || packet[0] / 16 != 4 then None else
      var headerLength := packet[0] % 16 * 4;
      var totalLength := FromBig16(packet[2..4]);
      if headerLength < IP_HEADER || headerLength > totalLength || totalLength > |packet| then None else
        Some(Ipv4Packet(packet[12..16], packet[16..20], FromBig16(packet[4..6]), packet[9],
                        FromBig16(packet[6..8]) % 0x4000 != 0, packet[headerLength..totalLength]))
  }

  datatype UdpPacket = UdpPacket(sourcePort: U16, destinationPort: U16, payload: seq<Byte>)

  function ParseUdp(packet: seq<Byte>): Option<UdpPacket> {
    if |packet| < UDP_HEADER then None else
      var length := FromBig16(packet[4..6]);
      if length < UDP_HEADER || length > |packet| then None else
        Some(UdpPacket(FromBig16(packet[0..2]), FromBig16(packet[2..4]), packet[UDP_HEADER..length]))
  }

  /** The packets that are read, from their bytes, and what is read from them. */
  lemma Ipv4Reads(packet: seq<Byte>, p: Ipv4Packet)
    ensures ParseIpv4(packet) == Some(p) <==>
            && |packet| >= 20 && 0x45 <= packet[0] < 0x50
            && var header, total := 4 * (packet[0] as int - 0x40), Number(0, 0, packet[2], packet[3]);
               && header <= total <= |packet| && p.payload == packet[header..total]
               && p.source == packet[12..16] && p.destination == packet[16..20] && p.protocol == packet[9]
               && p.identification == Number(0, 0, packet[4], packet[5])
               && (p.fragmented <==> packet[6] % 64 != 0 || packet[7] != 0)
  {
    if |packet| >= 20 {
      FirstByte(packet[0]);
      FlagsAndOffset(packet[6], packet[7]);
      assert packet[6..8] == [packet[6], packet[7]];
    }
  }

  lemma FirstByte(b: Byte)
    ensures b / 16 == 4 && b % 16 * 4 >= 20 <==> 0x45 <= b < 0x50
    ensures b / 16 == 4 ==> b % 16 as int == b as int - 0x40
  {
  }

  /** The more-fragments bit or any bit of the offset is set. */
  lemma FlagsAndOffset(high: Byte, low: Byte)
    ensures FromBig16([high, low]) % 0x4000 != 0 <==> high % 64 != 0 || low != 0
  {
    var word: int := FromBig16([high, low]);
    assert word == 256 * high as int + low as int;
    assert word == 0x4000 * (high / 64) as int + 256 * (high % 64) as int + low as int;
  }

  lemma UdpReads(packet: seq<Byte>, u: UdpPacket)
    ensures ParseUdp(packet) == Some(u) <==>
            && |packet| >= 8
            && var length := Number(0, 0, packet[4], packet[5]);
               && 8 <= length <= |packet| && u.payload == packet[8..length]
               && u.sourcePort == Number(0, 0, packet[0], packet[1])
               && u.destinationPort == Number(0, 0, packet[2], packet[3])
  {
  }

  lemma ParseBuiltUdp(r: Response)
    requires Fits(r)
    ensures ParseUdp(BuiltUdp(r)) == Some(UdpPacket(r.sourcePort, r.destinationPort, r.payload))
  {
    var u, length := BuiltUdp(r), UDP_HEADER + |r.payload|;
    assert u[0..2] == Big16(r.sourcePort) && u[2..4] == Big16(r.destinationPort) && u[4..6] == Big16(length);
    assert u[UDP_HEADER..length] == r.payload;
    RoundTrip16(r.sourcePort);
    RoundTrip16(r.destinationPort);
    RoundTrip16(length);
  }

  lemma ParseBuiltIpv4(r: Response)
    requires Fits(r)
    ensures ParseIpv4(BuiltHeader(r) + BuiltUdp(r)) ==
            Some(Ipv4Packet(r.source, r.destination, r.identification, 17, false, BuiltUdp(r)))
  {
    var p, total := BuiltHeader(r) + BuiltUdp(r), IP_HEADER + UDP_HEADER + |r.payload|;
    assert p[2..4] == Big16(total) && p[4..6] == Big16(r.identification) && p[6..8] == [0x40, 0];
    assert p[12..16] == r.source && p[16..20] == r.destination && p[IP_HEADER..total] == BuiltUdp(r);
    RoundTrip16(total);
    RoundTrip16(r.identification);
  }

  /** The UDP checksum on the wire is never the value that means "none". */
  lemma ChecksumSent(r: Response)
    requires Fits(r)
    ensures var packet := BuiltHeader(r) + BuiltUdp(r);
            packet[0] == 0x45 && packet[1] == 0 && packet[6..10] == [0x40, 0, 64, 17] && packet[26..28] != [0, 0]
  {
    var packet := BuiltHeader(r) + BuiltUdp(r);
    FinishVerifies(PseudoSum(r.source, r.destination, UDP_HEADER + |r.payload|)
                   + SumWords(UdpSegment(r.sourcePort, r.destinationPort, UDP_HEADER + |r.payload|, 0, r.payload)));
    assert packet[26..28] == BuiltUdp(r)[6..8] == Big16(UdpChecksum(r));
    RoundTrip16(UdpChecksum(r));
    assert Big16(0) == [0, 0];
  }

  // ----- filling the buffer

  /** Copy bytes into the buffer. */
  method Put(buffer: array<Byte>, at: nat, bytes: seq<Byte>)
    requires at + |bytes| <= buffer.Length
    modifies buffer
    ensures buffer[..at] == old(buffer[..at])
    ensures buffer[at..at + |bytes|] == bytes
    ensures buffer[at + |bytes|..] == old(buffer[at + |bytes|..])
  {
    for j := 0 to |bytes|
      invariant buffer[..at] == old(buffer[..at])
      invariant buffer[at..at + j] == bytes[..j]
      invariant buffer[at + |bytes|..] == old(buffer[at + |bytes|..])
    {
      buffer[at + j] := bytes[j];
    }
  }

  /** Append at a place up to which the buffer is filled and after which it is zero. */
  method Extend(buffer: array<Byte>, ghost done: seq<Byte>, at: nat, bytes: seq<Byte>)
    requires at + |bytes| <= buffer.Length && buffer[..at] == done && buffer[at..] == Zeros(buffer.Length - at)
    modifies buffer
    ensures buffer[..at + |bytes|] == done + bytes && buffer[at + |bytes|..] == Zeros(buffer.Length - at - |bytes|)
  {
    Put(buffer, at, bytes);
    assert buffer[..at + |bytes|] == buffer[..at] + buffer[at..at + |bytes|];
  }

  /** The IPv4 header with a zero checksum. */
  method FillIpFields(buffer: array<Byte>, r: Response)
    requires Fits(r) && buffer.Length == IP_HEADER + UDP_HEADER + |r.payload| && buffer[..] == Zeros(buffer.Length)
    modifies buffer
    ensures buffer[..IP_HEADER] == IpHeader(buffer.Length, r.identification, 0, r.source, r.destination)
    ensures buffer[IP_HEADER..] == Zeros(buffer.Length - IP_HEADER)
  {
    var total := buffer.Length;
    assert buffer[..0] == [] && buffer[0..] == buffer[..];
    Extend(buffer, [], 0, [0x45, 0]);
    Extend(buffer, buffer[..2], 2, Big16(total));
    Extend(buffer, buffer[..4], 4, Big16(r.identification));
    Extend(buffer, buffer[..6], 6, [0x40, 0, 64, 17]);
    assert buffer[..10] == IpFront(total, r.identification);
    Extend(buffer, buffer[..10], 10, Big16(0));
    Extend(buffer, buffer[..12], 12, r.source);
    Extend(buffer, buffer[..16], 16, r.destination);
  }

  method FillIpHeader(buffer: array<Byte>, r: Response)
    requires Fits(r) && buffer.Length == IP_HEADER + UDP_HEADER + |r.payload| && buffer[..] == Zeros(buffer.Length)
    modifies buffer
    ensures buffer[..IP_HEADER] == BuiltHeader(r) && buffer[IP_HEADER..] == Zeros(buffer.Length - IP_HEADER)
  {
    FillIpFields(buffer, r);
    SumBound(buffer[..IP_HEADER]);
    var sum := AddBytes(0, buffer[..IP_HEADER]);
    var checksum := FinishChecksum(sum);
    ghost var before := buffer[..];
    Put(buffer, 10, Big16(checksum));
    HeaderWithChecksum(before, buffer[..], r, checksum);
  }

  lemma HeaderWithChecksum(before: seq<Byte>, after: seq<Byte>, r: Response, checksum: U16)
    requires Fits(r) && |before| == |after| == IP_HEADER + UDP_HEADER + |r.payload|
    requires before[..IP_HEADER] == IpHeader(|before|, r.identification, 0, r.source, r.destination)
    requires after[..10] == before[..10] && after[10..12] == Big16(checksum) && after[12..] == before[12..]
    ensures after[..IP_HEADER] == IpHeader(|before|, r.identification, checksum, r.source, r.destination)
    ensures after[IP_HEADER..] == before[IP_HEADER..]
  {
    assert after[..10] == before[..IP_HEADER][..10] == IpFront(|before|, r.identification);
    assert after[12..][..8] == before[12..][..8] == before[..IP_HEADER][12..] == r.source + r.destination;
    assert after[..IP_HEADER] == after[..10] + after[10..12] + after[12..][..8];
    assert after[IP_HEADER..] == after[12..][8..] == before[12..][8..] == before[IP_HEADER..];
  }

  /** The UDP segment behind the header, with a zero checksum. */
  method FillUdpFields(buffer: array<Byte>, r: Response, ghost header: seq<Byte>)
    requires Fits(r) && buffer.Length == IP_HEADER + UDP_HEADER + |r.payload| && |header| == IP_HEADER
    requires buffer[..IP_HEADER] == header && buffer[IP_HEADER..] == Zeros(buffer.Length - IP_HEADER)
    modifies buffer
    ensures buffer[..] == header + UdpSegment(r.sourcePort, r.destinationPort, UDP_HEADER + |r.payload|, 0, r.payload)
  {
    var length := UDP_HEADER + |r.payload|;
    Extend(buffer, header, 20, Big16(r.sourcePort));
    Extend(buffer, buffer[..22], 22, Big16(r.destinationPort));
    Extend(buffer, buffer[..24], 24, Big16(length));
    assert buffer[..26] == header + UdpFront(r.sourcePort, r.destinationPort, length);
    Extend(buffer, buffer[..26], 26, Big16(0) + r.payload);
    assert buffer[..] == buffer[..28 + |r.payload|];
  }

  /** The same, checksum last. */
  method FillUdp(buffer: array<Byte>, r: Response, ghost header: seq<Byte>)
    requires Fits(r) && buffer.Length == IP_HEADER + UDP_HEADER + |r.payload| && |header| == IP_HEADER
    requires buffer[..IP_HEADER] == header && buffer[IP_HEADER..] == Zeros(buffer.Length - IP_HEADER)
    modifies buffer
    ensures buffer[..] == header + BuiltUdp(r)
  {
    FillUdpFields(buffer, r, header);
    var segment := buffer[IP_HEADER..];
    ghost var before := buffer[..];
    assert segment == UdpSegment(r.sourcePort, r.destinationPort, UDP_HEADER + |r.payload|, 0, r.payload);
    var checksum := SegmentChecksum(r, segment);
    Put(buffer, 26, Big16(checksum));
    SegmentWithChecksum(header, before, buffer[..], r, checksum);
  }

  lemma SegmentWithChecksum(header: seq<Byte>, before: seq<Byte>, after: seq<Byte>, r: Response, checksum: U16)
    requires Fits(r) && |header| == IP_HEADER && |before| == |after|
    requires before == header + UdpSegment(r.sourcePort, r.destinationPort, UDP_HEADER + |r.payload|, 0, r.payload)
    requires after[..26] == before[..26] && after[26..28] == Big16(checksum) && after[28..] == before[28..]
    ensures after == header + UdpSegment(r.sourcePort, r.destinationPort, UDP_HEADER + |r.payload|, checksum, r.payload)
  {
    var front := UdpFront(r.sourcePort, r.destinationPort, UDP_HEADER + |r.payload|);
    assert before[..26] == header + front && before[28..] == r.payload;
    assert after == after[..26] + after[26..28] + after[28..];
  }

  method SegmentChecksum(r: Response, segment: seq<Byte>) returns (checksum: U16)
    requires Fits(r) && |segment| == UDP_HEADER + |r.payload|
    ensures checksum == Finish(PseudoSum(r.source, r.destination, |segment|) + SumWords(segment))
  {
    SumBound(r.source);
    SumBound(r.destination);
    SumBound(segment);
    var sum := AddBytes(0, r.source);
    sum := AddBytes(sum, r.destination);
    sum := sum + 17 + |segment|;
    sum := AddBytes(sum, segment);
    checksum := FinishChecksum(sum);
  }

  /**
    * Build the response. It fails exactly when the lengths do not fit 16 bits. Otherwise both checksums
    * verify and the parsers read back the addresses, ports, identification and payload.
    */
  method BuildUdpResponse(r: Response) returns (packet: Option<seq<Byte>>)
    ensures packet.Some? <==> Fits(r)
    ensures packet.Some? ==> packet.value == BuiltHeader(r) + BuiltUdp(r)
    ensures packet.Some? ==>
              && Verifies(SumWords(packet.value[..IP_HEADER]))
              && |packet.value| - 20 < 0x1_0000
              && Verifies(SumWords(PseudoHeader(r.source, r.destination, |packet.value| - 20) + packet.value[20..]))
    ensures packet.Some? ==>
              && |packet.value| == 28 + |r.payload| && packet.value[0] == 0x45 && packet.value[1] == 0
              && packet.value[6..10] == [0x40, 0, 64, 17] && packet.value[26..28] != [0, 0]
    ensures packet.Some? ==>
              && ParseIpv4(packet.value)
                 == Some(Ipv4Packet(r.source, r.destination, r.identification, 17, false, packet.value[IP_HEADER..]))
              && ParseUdp(packet.value[IP_HEADER..]) == Some(UdpPacket(r.sourcePort, r.destinationPort, r.payload))
  {
    var total := IP_HEADER + UDP_HEADER + |r.payload|;
    if total > 0xffff {
      return None;
    }
    var buffer := new Byte[total](_ => 0);
    assert buffer[..] == Zeros(total);
    FillIpHeader(buffer, r);
    FillUdp(buffer, r, BuiltHeader(r));
    ChecksumsVerify(r);
    PseudoSumIsOfBytes(r.source, r.destination, |BuiltUdp(r)|, BuiltUdp(r));
    ChecksumSent(r);
    ParseBuiltIpv4(r);
    ParseBuiltUdp(r);
    assert buffer[..][..IP_HEADER] == BuiltHeader(r) && buffer[..][IP_HEADER..] == BuiltUdp(r);
    return Some(buffer[..]);
  }
}
