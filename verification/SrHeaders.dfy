/** The segment-routing header and the standard header inside it. */
module SrHeaders {
  import opened Wrappers
  import opened Bytes
  import opened Ciphers

  const MAX_LINKS: nat := 6
  const FIXED_LEN: nat := 4
  const HEADER_LEN: nat := 8
  const MAX_LINK: nat := 0x00ff_ffff

  datatype Error = TooShort | NotSegmentRouting | BadLinkCount | BadNextId | BadAlgorithm | BadLink | BadPaddingLength
                 | NextIdNotZero | WrongPath | UnknownType | UnknownEncryption

  // ----- the standard header

  datatype PacketType =
    | OpenReject | OpenAck | Open | Data | EchoRequest | EchoResponse | Close | DataEncrypted | DataDup
    | DataEncryptedDup | IpFragment | DataIpv6 | IpFragmentIpv6 | SegmentRouting | PingRequest | PingResponse

  function TypeCode(t: PacketType): Byte {
    match t
    case OpenReject => 0x11
    case OpenAck => 0x12
    case Open => 0x13
    case Data => 0x14
    case EchoRequest => 0x15
    case EchoResponse => 0x16
    case Close => 0x17
    case DataEncrypted => 0x18
    case DataDup => 0x19
    case DataEncryptedDup => 0x20
    case IpFragment => 0x22
    case DataIpv6 => 0x23
    case IpFragmentIpv6 => 0x24
    case SegmentRouting => 0x28
    case PingRequest => 0x29
    case PingResponse => 0x2a
  }

  function TypeFrom(code: Byte): (r: Option<PacketType>)
    ensures forall t :: r == Some(t) <==> TypeCode(t) == code
  {
    if code == 0x11 then Some(OpenReject)
    else if code == 0x12 then Some(OpenAck)
    else if code == 0x13 then Some(Open)
    else if code == 0x14 then Some(Data)
    else if code == 0x15 then Some(EchoRequest)
    else if code == 0x16 then Some(EchoResponse)
    else if code == 0x17 then Some(Close)
    else if code == 0x18 then Some(DataEncrypted)
    else if code == 0x19 then Some(DataDup)
    else if code == 0x20 then Some(DataEncryptedDup)
    else if code == 0x22 then Some(IpFragment)
    else if code == 0x23 then Some(DataIpv6)
    else if code == 0x24 then Some(IpFragmentIpv6)
    else if code == 0x28 then Some(SegmentRouting)
    else if code == 0x29 then Some(PingRequest)
    else if code == 0x2a then Some(PingResponse)
    else None
  }

  datatype EncryptionMethod = NoEncryption | Xor | Aes

  function MethodCode(m: EncryptionMethod): Byte {
    match m
    case NoEncryption => 0
    case Xor => 1
    case Aes => 2
  }

  function MethodFrom(code: Byte): Option<EncryptionMethod> {
    if code == 0 then Some(NoEncryption) else if code == 1 then Some(Xor) else if code == 2 then Some(Aes) else None
  }

  datatype PacketHeader = PacketHeader(packetType: PacketType, encryption: EncryptionMethod, sessionId: U16, token: U32)

  function EncodeInner(h: PacketHeader): (r: seq<Byte>)
    ensures |r| == HEADER_LEN
  {
    [TypeCode(h.packetType), MethodCode(h.encryption)] + Big16(h.sessionId) + Big32(h.token)
  }

  function DecodeInner(input: seq<Byte>): Result<PacketHeader, Error> {
    if |input| < HEADER_LEN then Err(TooShort) else
      match TypeFrom(input[0])
      case None => Err(UnknownType)
      case Some(packetType) =>
        match MethodFrom(input[1])
        case None => Err(UnknownEncryption)
        case Some(encryption) =>
            Ok(PacketHeader(packetType, encryption, FromBig16(input[2..4]), FromBig32(input[4..8])))
  }

  lemma DecodeOfEncodeInner(h: PacketHeader, rest: seq<Byte>)
    ensures DecodeInner(EncodeInner(h) + rest) == Ok(h)
  {
    var input := EncodeInner(h) + rest;
    assert input[2..4] == Big16(h.sessionId) && input[4..8] == Big32(h.token);
    RoundTrip16(h.sessionId);
    RoundTrip32(h.token);
  }

  // ----- the segment-routing header

  datatype SrHeader = SrHeader(nextId: Byte, links: seq<U32>, algorithm: Algorithm, padding: Byte)

  predicate InRange(links: seq<U32>) {
    forall link <- links :: 1 <= link <= MAX_LINK
  }

  predicate ValidLinks(links: seq<U32>) {
    1 <= |links| <= MAX_LINKS && InRange(links)
  }

  function CheckLinks(links: seq<U32>): Result<(), Error> {
    if !(1 <= |links| <= MAX_LINKS) then Err(BadLinkCount)
    else if !InRange(links) then Err(BadLink)
    else Ok(())
  }

  function Reverse(links: seq<U32>): (r: seq<U32>)
    ensures |r| == |links|
  {
    seq(|links|, i requires 0 <= i < |links| => links[|links| - 1 - i])
  }

  function Outbound(links: seq<U32>, algorithm: Algorithm, padding: Byte): Result<SrHeader, Error> {
    match CheckLinks(links)
    case Err(e) => Err(e)
    case Ok(_) =>
      if padding > 31 then Err(BadPaddingLength)
      else Ok(SrHeader(|links| - 1, Reverse(links), algorithm, padding))
  }

  function AlgorithmCode(a: Algorithm): Byte {
    match a
    case Plain => 0
    case Aes128 => 1
    case Aes256 => 2
  }

  function AlgorithmFrom(code: nat): Option<Algorithm> {
    if code == 0 then Some(Plain) else if code == 1 then Some(Aes128) else if code == 2 then Some(Aes256) else None
  }

  function LinkBytes(links: seq<U32>): (r: seq<Byte>)
    ensures |r| == 4 * |links|
  {
    if links == [] then [] else Big32(links[0]) + LinkBytes(links[1..])
  }

  predicate ValidHeader(h: SrHeader) {
    ValidLinks(h.links) && h.nextId < |h.links| && h.padding <= 31
  }

  function Encode(h: SrHeader): (r: Result<seq<Byte>, Error>)
    ensures r.Ok? <==> ValidHeader(h)
  {
    match CheckLinks(h.links)
    case Err(e) => Err(e)
    case Ok(_) =>
      if h.nextId >= |h.links| then Err(BadNextId)
      else if h.padding > 31 then Err(BadPaddingLength)
      else Ok([TypeCode(SegmentRouting), h.nextId, |h.links|, h.padding * 8 + AlgorithmCode(h.algorithm)]
          + LinkBytes(h.links))
  }

  function ParseLinks(bytes: seq<Byte>): (r: Option<seq<U32>>)
    requires |bytes| % 4 == 0
  {
    if bytes == [] then Some([]) else
      var link := FromBig32(bytes[..4]);
      if !(1 <= link <= MAX_LINK) then None else
        match ParseLinks(bytes[4..])
        case None => None
        case Some(rest) => Some([link] + rest)
  }

  function HeaderLength(linkCount: nat): nat {
    FIXED_LEN + 4 * linkCount
  }

  /** The header and its length. */
  function Parse(input: seq<Byte>): Result<(SrHeader, nat), Error> {
    if |input| < FIXED_LEN then Err(TooShort)
    else if input[0] != TypeCode(SegmentRouting) then Err(NotSegmentRouting)
    else if !(1 <= input[2] <= MAX_LINKS) then Err(BadLinkCount)
    else if input[1] >= input[2] then Err(BadNextId)
    else
      var length := HeaderLength(input[2]);
      if |input| < length then Err(TooShort) else
        match AlgorithmFrom(input[3] % 8)
        case None => Err(BadAlgorithm)
        case Some(algorithm) =>
          match ParseLinks(input[4..length])
          case None => Err(BadLink)
          case Some(links) => Ok((SrHeader(input[1], links, algorithm, input[3] / 8), length))
  }

  function ValidateReturnPath(h: SrHeader, links: seq<U32>): Result<(), Error> {
    match CheckLinks(links)
    case Err(e) => Err(e)
    case Ok(_) =>
      if h.nextId != 0 then Err(NextIdNotZero) else if h.links != links then Err(WrongPath) else Ok(())
  }

  lemma {:induction false} ParseLinkBytes(links: seq<U32>)
    requires InRange(links)
    ensures ParseLinks(LinkBytes(links)) == Some(links)
  {
    if links != [] {
      var bytes := LinkBytes(links);
      assert bytes[..4] == Big32(links[0]) && bytes[4..] == LinkBytes(links[1..]);
      RoundTrip32(links[0]);
      assert links[0] in links;
      assert forall link <- links[1..] :: link in links;
      ParseLinkBytes(links[1..]);
      assert [links[0]] + links[1..] == links;
    }
  }

  lemma {:induction false} LinkBytesOfParsed(bytes: seq<Byte>)
    requires |bytes| % 4 == 0 && ParseLinks(bytes).Some?
    ensures var links := ParseLinks(bytes).value;
            LinkBytes(links) == bytes && 4 * |links| == |bytes| && InRange(links)
  {
    if bytes != [] {
      LinkBytesOfParsed(bytes[4..]);
      assert bytes == bytes[..4] + bytes[4..];
      var links := ParseLinks(bytes).value;
      assert links[1..] == ParseLinks(bytes[4..]).value;
    }
  }

  /** Parsing an encoded header, whatever follows, gives the header and its length. */
  lemma ParseOfEncode(h: SrHeader, rest: seq<Byte>)
    requires ValidHeader(h)
    ensures Parse(Encode(h).value + rest) == Ok((h, HeaderLength(|h.links|)))
  {
    var input := Encode(h).value + rest;
    assert input[4..HeaderLength(|h.links|)] == LinkBytes(h.links);
    ParseLinkBytes(h.links);
    assert input[3] / 8 == h.padding && input[3] % 8 == AlgorithmCode(h.algorithm);
  }

  lemma {:induction false} LinkAt(links: seq<U32>, i: nat)
    requires i < |links|
    ensures var b := LinkBytes(links);
            links[i] == Number(b[4 * i], b[4 * i + 1], b[4 * i + 2], b[4 * i + 3])
  {
    if i == 0 {
      WordBytes(links[0]);
    } else {
      LinkAt(links[1..], i - 1);
    }
  }

  /** The wire form: type, next index, link count, padding above the algorithm's three bits, then big-endian links. */
  lemma WireHeader(h: SrHeader, i: nat)
    requires ValidHeader(h) && i < |h.links|
    ensures var b := Encode(h).value;
            && |b| == 4 + 4 * |h.links| && b[0] == 0x28 && b[1] == h.nextId && b[2] == |h.links|
            && b[3] == 8 * h.padding + (match h.algorithm case Plain => 0 case Aes128 => 1 case Aes256 => 2)
            && h.links[i] == Number(b[4 * i + 4], b[4 * i + 5], b[4 * i + 6], b[4 * i + 7])
  {
    LinkAt(h.links, i);
  }

  /** An outbound header carries the path backwards and points at its last link. */
  lemma OutboundCarriesReversed(links: seq<U32>, algorithm: Algorithm, padding: Byte, i: nat)
    requires i < |links|
    ensures Outbound(links, algorithm, padding).Ok? <==>
            |links| <= 6 && padding <= 31 && forall link <- links :: 1 <= link <= 0x00ff_ffff
    ensures Outbound(links, algorithm, padding).Ok? ==>
              var h := Outbound(links, algorithm, padding).value;
              && h.nextId == |links| - 1 && |h.links| == |links| && h.links[i] == links[|links| - 1 - i]
              && h.algorithm == algorithm && h.padding == padding
  {
  }

  /** The inner header: type, encryption method, big-endian session id and token. */
  lemma WireInner(h: PacketHeader)
    ensures var b := EncodeInner(h);
            && b[0] == TypeCode(h.packetType)
            && b[1] == (match h.encryption case NoEncryption => 0 case Xor => 1 case Aes => 2)
            && h.sessionId == Number(0, 0, b[2], b[3]) && h.token == Number(b[4], b[5], b[6], b[7])
  {
    WordBytes(h.token);
  }

  /** A parsed header is valid and encodes to the bytes it was read from. */
  lemma EncodeOfParse(input: seq<Byte>)
    requires Parse(input).Ok?
    ensures var (h, length) := Parse(input).value;
            ValidHeader(h) && length <= |input| && Encode(h) == Ok(input[..length])
  {
    var (h, length) := Parse(input).value;
    LinkBytesOfParsed(input[4..length]);
    assert input[..length] == [input[0], input[1], input[2], input[3]] + input[4..length];
  }

  // ----- the way back

  function ReverseWords(bytes: seq<Byte>): (r: seq<Byte>)
    requires |bytes| % 4 == 0
    ensures |r| == |bytes|
  {
    if bytes == [] then [] else ReverseWords(bytes[4..]) + bytes[..4]
  }

  /**
    * What the far end does to a datagram's segment-routing header before sending it back: the links in
    * forward order, `next_id` zero, every other byte kept.
    */
  function TurnAround(datagram: seq<Byte>): seq<Byte>
    requires |datagram| >= FIXED_LEN && |datagram| >= HeaderLength(datagram[2])
  {
    var length := HeaderLength(datagram[2]);
    [datagram[0], 0, datagram[2], datagram[3]] + ReverseWords(datagram[4..length]) + datagram[length..]
  }

  lemma {:induction false} LinkBytesAppend(links: seq<U32>, link: U32)
    ensures LinkBytes(links + [link]) == LinkBytes(links) + Big32(link)
  {
    if links == [] {
      assert links + [link] == [link];
    } else {
      assert (links + [link])[1..] == links[1..] + [link];
      LinkBytesAppend(links[1..], link);
    }
  }

  lemma {:induction false} ReverseWordsOfLinks(links: seq<U32>)
    ensures ReverseWords(LinkBytes(links)) == LinkBytes(Reverse(links))
  {
    if links != [] {
      var bytes := LinkBytes(links);
      assert bytes[..4] == Big32(links[0]) && bytes[4..] == LinkBytes(links[1..]);
      ReverseWordsOfLinks(links[1..]);
      LinkBytesAppend(Reverse(links[1..]), links[0]);
      assert Reverse(links) == Reverse(links[1..]) + [links[0]];
    }
  }

  lemma ReverseKeeps(links: seq<U32>)
    ensures Reverse(Reverse(links)) == links
    ensures InRange(links) ==> InRange(Reverse(links))
  {
    assert forall i | 0 <= i < |links| :: Reverse(links)[i] in links;
  }

  lemma TurnAroundEncoded(h: SrHeader, rest: seq<Byte>)
    requires ValidHeader(h)
    ensures var datagram := Encode(h).value + rest;
            && |datagram| >= FIXED_LEN && |datagram| >= HeaderLength(datagram[2])
            && TurnAround(datagram) ==
               [TypeCode(SegmentRouting), 0, |h.links|, h.padding * 8 + AlgorithmCode(h.algorithm)]
                                       + LinkBytes(Reverse(h.links)) + rest
  {
    var datagram := Encode(h).value + rest;
    var length := HeaderLength(|h.links|);
    assert datagram[4..length] == LinkBytes(h.links) && datagram[length..] == rest;
    ReverseWordsOfLinks(h.links);
  }

  /** An outbound header turned around is the return header over the forward path. */
  lemma TurnAroundOutbound(links: seq<U32>, algorithm: Algorithm, padding: Byte, rest: seq<Byte>)
    requires Outbound(links, algorithm, padding).Ok?
    ensures ValidHeader(Outbound(links, algorithm, padding).value)
            && ValidHeader(SrHeader(0, links, algorithm, padding))
    ensures var datagram := Encode(Outbound(links, algorithm, padding).value).value + rest;
            && |datagram| >= FIXED_LEN && |datagram| >= HeaderLength(datagram[2])
            && TurnAround(datagram) == Encode(SrHeader(0, links, algorithm, padding)).value + rest
  {
    ReverseKeeps(links);
    TurnAroundEncoded(Outbound(links, algorithm, padding).value, rest);
  }
}
