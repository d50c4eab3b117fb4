/** Trimming a packet to the length its own IP header declares. */
module IpTrim {
  import opened Wrappers
  import opened Bytes
  import opened Fragments

  function DeclaredLength(packet: seq<Byte>): Result<nat, Error>
    requires packet != []
  {
    var version := packet[0] / 16;
    if version == 4 then
      if |packet| < 20 then Err(InvalidFragment(TruncatedHeader)) else
        var headerLength := packet[0] % 16 * 4;
        var totalLength := FromBig16(packet[2..4]);
        if headerLength < 20 then Err(InvalidFragment(BadHeaderLength))
        else if totalLength < headerLength then Err(InvalidFragment(TotalLengthTooShort))
        else Ok(totalLength)
    else if version == 6 then
      if |packet| < 40 then Err(InvalidFragment(TruncatedHeader)) else Ok(40 + FromBig16(packet[4..6]))
    else
      Err(InvalidFragment(UnknownVersion))
  }

  function Trim(packet: seq<Byte>): (r: Result<seq<Byte>, Error>)
    ensures r.Ok? ==> r.value != [] && r.value <= packet
  {
    if packet == [] then Err(InvalidFragment(EmptyPacket)) else
      match DeclaredLength(packet)
      case Err(e) => Err(e)
      case Ok(expected) =>
        if expected == 0 || expected > |packet| then Err(InvalidFragment(LengthExceedsPayload))
        else Ok(packet[..expected])
  }

  /** Two bytes as a number, the high one first. */
  function Word(high: int, low: int): int {
    256 * high + low
  }

  /** The packet's first bytes are those of an IPv4 header, which declares `length` bytes in all. */
  predicate DeclaresIpv4(packet: seq<Byte>, length: nat) {
    && |packet| >= 20 && 0x40 <= packet[0] < 0x50
    && length == Word(packet[2], packet[3])
    && 20 <= 4 * (packet[0] - 0x40) <= length
  }

  /** The packet's first bytes are those of an IPv6 header, which declares `length` bytes in all. */
  predicate DeclaresIpv6(packet: seq<Byte>, length: nat) {
    && |packet| >= 40 && 0x60 <= packet[0] < 0x70
    && length == 40 + Word(packet[4], packet[5])
  }

  /** Trimming gives exactly the prefix of the length that the header bytes declare, when the packet has that many. */
  lemma TrimIsDeclaredPrefix(packet: seq<Byte>, trimmed: seq<Byte>)
    ensures Trim(packet) == Ok(trimmed) <==>
            && trimmed <= packet
            && (DeclaresIpv4(packet, |trimmed|) || DeclaresIpv6(packet, |trimmed|))
  {
    if |packet| >= 20 {
      WordAt(packet, 2);
      WordAt(packet, 4);
      NibbleOf(packet[0]);
    } else if packet != [] {
      NibbleOf(packet[0]);
    }
    if trimmed <= packet {
      assert trimmed == packet[..|trimmed|];
    }
  }

  lemma WordAt(packet: seq<Byte>, at: nat)
    requires at + 2 <= |packet|
    ensures FromBig16(packet[at..at + 2]) == Word(packet[at], packet[at + 1])
  {
  }

  lemma NibbleOf(b: Byte)
    ensures b / 16 == 4 <==> 0x40 <= b < 0x50
    ensures b / 16 == 6 <==> 0x60 <= b < 0x70
    ensures b / 16 == 4 ==> b % 16 == b - 0x40
  {
  }

  /** A packet as long as it declares is not cut. */
  lemma WholeStaysWhole(packet: seq<Byte>)
    ensures Trim(packet) == Ok(packet) <==> DeclaresIpv4(packet, |packet|) || DeclaresIpv6(packet, |packet|)
  {
    assert packet[..|packet|] == packet;
    TrimIsDeclaredPrefix(packet, packet);
  }

  /** A trimmed packet stays what it is, whatever padding follows it. */
  lemma TrimIgnoresPadding(packet: seq<Byte>, padding: seq<Byte>)
    requires Trim(packet).Ok?
    ensures var trimmed := Trim(packet).value;
            trimmed[0] == packet[0] && packet[0] / 16 in {4, 6} && Trim(trimmed + padding) == Ok(trimmed)
  {
    var trimmed := Trim(packet).value;
    var padded := trimmed + padding;
    assert padded[2..4] == packet[2..4];
    if packet[0] / 16 == 6 {
      assert padded[4..6] == packet[4..6];
    }
    assert padded[..|trimmed|] == trimmed;
  }
}
