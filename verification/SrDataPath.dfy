/** The segment-routing data path: from an IP packet to datagrams and back. */
module SrDataPath {
  import opened Wrappers
  import opened Bytes
  import F = Fragments
  import T = IpTrim
  import C = Ciphers
  import H = SrHeaders
  import M = SrMonitorBody
  import R = SrReassembly
  import D = SrDelivery

  datatype Error =
    | HeaderError(header: H.Error) | FragmentError(fragment: F.Error)
    | CipherError(cipher: C.Error) | MonitorError(monitor: M.Error)
    | EncryptionUnsupported | SessionMismatch | EchoEncrypted | AlgorithmMismatch | EncryptionMismatch
    | VersionMismatch | UnsupportedType

  datatype Session = Session(id: U16, token: U32, encryption: H.EncryptionMethod)

  function InnerHeader(session: Session, packetType: H.PacketType, encryption: H.EncryptionMethod): H.PacketHeader {
    H.PacketHeader(packetType, encryption, session.id, session.token)
  }

  // ----- sending

  /** The protocol's pair of fragments for a packet too long for one payload. */
  function FragmentPair(packet: seq<Byte>, mtu: nat, id: U32): (r: Result<(F.Fragment, F.Fragment), F.Error>)
  {
    if mtu == 0 || mtu > F.MAX_LENGTH || |packet| <= mtu || |packet| > 2 * mtu || |packet| > F.MAX_PACKET then
      Err(F.FragmentTooLarge)
    else
      Ok((F.Fragment(id, false, false, 0, packet[..mtu]), F.Fragment(id, true, false, mtu, packet[mtu..])))
  }

  /** Segment-routing header, standard header, payload. */
  function Datagram(links: seq<U32>, algorithm: C.Algorithm, padding: Byte, inner: H.PacketHeader,
                    payload: seq<Byte>): Result<seq<Byte>, Error> {
    match H.Outbound(links, algorithm, padding)
    case Err(e) => Err(HeaderError(e))
    case Ok(header) =>
      match H.Encode(header)
      case Err(e) => Err(HeaderError(e))
      case Ok(bytes) => Ok(bytes + (H.EncodeInner(inner) + payload))
  }

  function FragmentDatagram(f: F.Fragment, packetType: H.PacketType, links: seq<U32>,
                            session: Session): Result<seq<Byte>, Error> {
    match F.Encode(f, F.Little)
    case Err(e) => Err(FragmentError(e))
    case Ok(payload) => Datagram(links, C.Plain, 0, InnerHeader(session, packetType, H.NoEncryption), payload)
  }

  function FragmentType(version: nat): H.PacketType {
    if version == 4 then H.IpFragment else H.IpFragmentIpv6
  }

  function EncodeFragmented(packet: seq<Byte>, mtu: nat, id: U32, links: seq<U32>,
                            session: Session): Result<seq<seq<Byte>>, Error>
    requires packet != []
  {
    match FragmentPair(packet, mtu, id)
    case Err(e) => Err(FragmentError(e))
    case Ok((first, second)) =>
      match FragmentDatagram(first, FragmentType(packet[0] / 16), links, session)
      case Err(e) => Err(e)
      case Ok(a) =>
        match FragmentDatagram(second, FragmentType(packet[0] / 16), links, session)
        case Err(e) => Err(e)
        case Ok(b) => Ok([a, b])
  }

  datatype Inner = Inner(packetType: H.PacketType, encryption: H.EncryptionMethod, payload: seq<Byte>)

  function InnerPayload(packet: seq<Byte>, session: Session, cipher: C.DataCipher): Result<Inner, Error>
    requires packet != []
  {
    if packet[0] / 16 == 6 then Ok(Inner(H.DataIpv6, H.NoEncryption, packet)) else
      match session.encryption
      case NoEncryption => Ok(Inner(H.Data, H.NoEncryption, packet))
      case Xor => Ok(Inner(H.DataEncrypted, H.Xor, C.Encrypt(cipher, packet)))
      case Aes =>
        if |packet| % C.BLOCK_LEN != 0 then Err(EncryptionUnsupported)
        else Ok(Inner(H.DataEncrypted, H.Aes, C.Encrypt(cipher, packet)))
  }

  function EncodeWhole(packet: seq<Byte>, mtu: nat, links: seq<U32>, session: Session, cipher: C.DataCipher,
                       outer: C.OuterCipher): Result<seq<seq<Byte>>, Error>
    requires packet != []
  {
    match InnerPayload(packet, session, cipher)
    case Err(e) => Err(e)
    case Ok(inner) =>
      if |inner.payload| > mtu then Err(EncryptionUnsupported) else
        var (payload, padding) := C.OuterEncrypt(outer, inner.payload);
        if |payload| > mtu then Err(EncryptionUnsupported) else
          var header := InnerHeader(session, inner.packetType, inner.encryption);
          match Datagram(links, outer.algorithm, padding, header, payload)
          case Err(e) => Err(e)
          case Ok(datagram) => Ok([datagram])
  }

  /** One datagram, or two fragments, for an IP packet. */
  function EncodeData(packet: seq<Byte>, mtu: nat, id: U32, links: seq<U32>, session: Session, cipher: C.DataCipher,
                      outer: C.OuterCipher): Result<seq<seq<Byte>>, Error>
  {
    match T.Trim(packet)
    case Err(e) => Err(FragmentError(e))
    case Ok(trimmed) =>
      if |trimmed| > mtu then
        if (trimmed[0] / 16 == 4 && session.encryption != H.NoEncryption) || !outer.algorithm.Plain?
            then Err(EncryptionUnsupported)
        else EncodeFragmented(trimmed, mtu, id, links, session)
      else EncodeWhole(trimmed, mtu, links, session, cipher, outer)
  }

  function MonitorDatagram(packetType: H.PacketType, body: M.Body, links: seq<U32>,
                           session: Session): Result<seq<Byte>, Error> {
    if !packetType.EchoRequest? && !packetType.EchoResponse? then Err(UnsupportedType)
    else Datagram(links, C.Plain, 0, InnerHeader(session, packetType, H.NoEncryption), M.Encode(body))
  }

  // ----- receiving

  datatype Opened = Opened(algorithm: C.Algorithm, padding: Byte, inner: H.PacketHeader, payload: seq<Byte>)

  /** The checks every received datagram passes before its type matters. */
  function Open(datagram: seq<Byte>, links: seq<U32>, session: Session): Result<Opened, Error> {
    match H.Parse(datagram)
    case Err(e) => Err(HeaderError(e))
    case Ok((header, length)) =>
      match H.ValidateReturnPath(header, links)
      case Err(e) => Err(HeaderError(e))
      case Ok(_) =>
        if |datagram| < length + H.HEADER_LEN then Err(HeaderError(H.TooShort)) else
          match H.DecodeInner(datagram[length..])
          case Err(e) => Err(HeaderError(e))
          case Ok(inner) =>
            if inner.sessionId != session.id || inner.token != session.token then Err(SessionMismatch)
            else Ok(Opened(header.algorithm, header.padding, inner, datagram[length + H.HEADER_LEN..]))
  }

  datatype Decoded =
    | Packet(packet: seq<Byte>)
    | FragmentOf(packetType: H.PacketType, fragment: F.Fragment)
    | Request(body: M.Body)
    | Response(body: M.Body)

  predicate Bare(o: Opened) {
    o.algorithm.Plain? && o.padding == 0 && o.inner.encryption == H.NoEncryption
  }

  function Interpret(o: Opened, session: Session, cipher: C.DataCipher, outer: C.OuterCipher): Result<Decoded, Error> {
    match o.inner.packetType
    case EchoRequest => ReadBody(o, true)
    case EchoResponse => ReadBody(o, false)
    case IpFragment => ReadFragment(o)
    case IpFragmentIpv6 => ReadFragment(o)
    case Data => ReadPacket(o, session, cipher, outer)
    case DataIpv6 => ReadPacket(o, session, cipher, outer)
    case DataEncrypted => ReadPacket(o, session, cipher, outer)
    case _ => Err(UnsupportedType)
  }

  function ReadBody(o: Opened, request: bool): Result<Decoded, Error> {
    if !Bare(o) then Err(EchoEncrypted) else
      match M.Decode(o.payload)
      case Err(e) => Err(MonitorError(e))
      case Ok(body) => Ok(if request then Request(body) else Response(body))
  }

  function ReadFragment(o: Opened): Result<Decoded, Error> {
    if !Bare(o) then Err(EncryptionUnsupported) else
      match F.Parse(o.payload, F.Little)
      case Err(e) => Err(FragmentError(e))
      case Ok(fragment) => Ok(FragmentOf(o.inner.packetType, fragment))
  }

  function Decipher(o: Opened, session: Session, cipher: C.DataCipher, outer: C.OuterCipher): Result<seq<Byte>, Error> {
    if o.algorithm != outer.algorithm then Err(AlgorithmMismatch) else
      match C.OuterDecrypt(outer, o.payload, o.padding)
      case Err(e) => Err(CipherError(e))
      case Ok(plain) =>
        if o.inner.packetType.DataEncrypted? then
          if o.inner.encryption != session.encryption || session.encryption.NoEncryption?
              then Err(EncryptionMismatch) else
            match C.Decrypt(cipher, plain)
            case Err(e) => Err(CipherError(e))
            case Ok(packet) => Ok(packet)
        else if o.inner.encryption != H.NoEncryption then Err(EncryptionMismatch)
        else Ok(plain)
  }

  function ReadPacket(o: Opened, session: Session, cipher: C.DataCipher, outer: C.OuterCipher): Result<Decoded, Error> {
    match Decipher(o, session, cipher, outer)
    case Err(e) => Err(e)
    case Ok(plain) =>
      match T.Trim(plain)
      case Err(e) => Err(FragmentError(e))
      case Ok(packet) =>
        if packet[0] / 16 != (if o.inner.packetType.DataIpv6? then 6 else 4) then Err(VersionMismatch)
            else Ok(Packet(packet))
  }

  function DecodeDatagram(datagram: seq<Byte>, links: seq<U32>, session: Session, cipher: C.DataCipher,
                          outer: C.OuterCipher): Result<Decoded, Error>
  {
    match Open(datagram, links, session)
    case Err(e) => Err(e)
    case Ok(o) => Interpret(o, session, cipher, outer)
  }

  /** What inserting a received fragment answers. */
  function FragmentAnswer(groups: R.Groups, packetType: H.PacketType, f: F.Fragment,
                          now: nat): Result<Option<seq<Byte>>, Error> {
    match R.Insertion(groups, f, now).result
    case Err(e) => Err(FragmentError(e))
    case Ok(None) => Ok(None)
    case Ok(Some(packet)) =>
      match T.Trim(packet)
      case Err(e) => Err(FragmentError(e))
      case Ok(trimmed) =>
        if trimmed[0] / 16 != (if packetType.IpFragment? then 4 else 6) then Err(VersionMismatch) else Ok(Some(trimmed))
  }

  // ----- round trips

  /** The far end can turn a datagram around. */
  predicate Turnable(datagram: seq<Byte>) {
    |datagram| >= H.FIXED_LEN && |datagram| >= H.HeaderLength(datagram[2])
  }

  /** A sent datagram, turned around, opens to what was put in. */
  lemma OpenTurnedAround(links: seq<U32>, algorithm: C.Algorithm, padding: Byte, inner: H.PacketHeader,
                         payload: seq<Byte>, session: Session)
    requires Datagram(links, algorithm, padding, inner, payload).Ok?
    requires inner.sessionId == session.id && inner.token == session.token
    ensures var datagram := Datagram(links, algorithm, padding, inner, payload).value;
            Turnable(datagram) && Open(H.TurnAround(datagram), links, session)
                == Ok(Opened(algorithm, padding, inner, payload))
  {
    var rest := H.EncodeInner(inner) + payload;
    H.TurnAroundOutbound(links, algorithm, padding, rest);
    var back := H.SrHeader(0, links, algorithm, padding);
    var turned := H.Encode(back).value + rest;
    H.ParseOfEncode(back, rest);
    var length := H.HeaderLength(|links|);
    assert |H.Encode(back).value| == length;
    assert turned[length..] == rest && turned[length + H.HEADER_LEN..] == payload;
    H.DecodeOfEncodeInner(inner, payload);
  }

  /** Undoing both ciphers gives the packet back, perhaps with padding behind it. */
  lemma Deciphers(packet: seq<Byte>, session: Session, cipher: C.DataCipher, outer: C.OuterCipher, inner: Inner,
                  payload: seq<Byte>, padding: Byte)
    returns (rest: seq<Byte>)
    requires cipher.Inverts() && outer.blocks.Inverts() && packet != []
    requires InnerPayload(packet, session, cipher) == Ok(inner)
    requires (payload, padding) == C.OuterEncrypt(outer, inner.payload)
    ensures var header := InnerHeader(session, inner.packetType, inner.encryption);
            Decipher(Opened(outer.algorithm, padding, header, payload), session, cipher, outer) == Ok(packet + rest)
  {
    C.EncryptKeepsLength(cipher, packet);
    C.OuterDecryptOfEncrypt(outer, inner.payload);
    rest := [];
    assert packet + [] == packet;
    if inner.packetType.DataEncrypted? {
      rest := C.DecryptOfEncrypt(cipher, packet);
    }
  }

  lemma InnerType(packet: seq<Byte>, session: Session, cipher: C.DataCipher, inner: Inner)
    requires packet != [] && packet[0] / 16 in {4, 6} && InnerPayload(packet, session, cipher) == Ok(inner)
    ensures packet[0] / 16 == if inner.packetType.DataIpv6? then 6 else 4
  {
  }

  lemma InnerPayloadReads(packet: seq<Byte>, session: Session, cipher: C.DataCipher, outer: C.OuterCipher,
                          inner: Inner, payload: seq<Byte>, padding: Byte)
    requires cipher.Inverts() && outer.blocks.Inverts()
    requires T.Trim(packet) == Ok(packet) && InnerPayload(packet, session, cipher) == Ok(inner)
    requires (payload, padding) == C.OuterEncrypt(outer, inner.payload)
    ensures var header := InnerHeader(session, inner.packetType, inner.encryption);
            ReadPacket(Opened(outer.algorithm, padding, header, payload), session, cipher, outer) == Ok(Packet(packet))
  {
    var rest := Deciphers(packet, session, cipher, outer, inner, payload, padding);
    T.TrimIgnoresPadding(packet, rest);
    InnerType(packet, session, cipher, inner);
  }

  /**
    * Whatever is sent as one datagram comes back, through the far end's turned-around header, as exactly
    * the trimmed packet: for IPv4 and IPv6, and for every pairing of inner and outer cipher that is accepted.
    */
  lemma WholePacketRoundTrip(packet: seq<Byte>, mtu: nat, id: U32, links: seq<U32>, session: Session,
                             cipher: C.DataCipher, outer: C.OuterCipher, datagram: seq<Byte>)
    requires cipher.Inverts() && outer.blocks.Inverts()
    requires EncodeData(packet, mtu, id, links, session, cipher, outer) == Ok([datagram])
    ensures T.Trim(packet).Ok? && Turnable(datagram)
    ensures DecodeDatagram(H.TurnAround(datagram), links, session, cipher, outer) == Ok(Packet(T.Trim(packet).value))
  {
    var trimmed := T.Trim(packet).value;
    T.TrimIgnoresPadding(packet, []);
    assert trimmed + [] == trimmed;
    WholeParts(trimmed, mtu, links, session, cipher, outer, datagram);
    var inner := InnerPayload(trimmed, session, cipher).value;
    var (payload, padding) := C.OuterEncrypt(outer, inner.payload);
    var header := InnerHeader(session, inner.packetType, inner.encryption);
    OpenTurnedAround(links, outer.algorithm, padding, header, payload, session);
    InnerPayloadReads(trimmed, session, cipher, outer, inner, payload, padding);
    ReadsAsPacket(Opened(outer.algorithm, padding, header, payload), session, cipher, outer);
  }

  lemma WholeParts(packet: seq<Byte>, mtu: nat, links: seq<U32>, session: Session, cipher: C.DataCipher,
                   outer: C.OuterCipher, datagram: seq<Byte>)
    requires packet != [] && EncodeWhole(packet, mtu, links, session, cipher, outer) == Ok([datagram])
    ensures InnerPayload(packet, session, cipher).Ok?
    ensures var inner := InnerPayload(packet, session, cipher).value;
            var (payload, padding) := C.OuterEncrypt(outer, inner.payload);
            && inner.packetType in {H.Data, H.DataIpv6, H.DataEncrypted}
            && var header := InnerHeader(session, inner.packetType, inner.encryption);
               Datagram(links, outer.algorithm, padding, header, payload) == Ok(datagram)
  {
  }

  lemma ReadsAsPacket(o: Opened, session: Session, cipher: C.DataCipher, outer: C.OuterCipher)
    requires o.inner.packetType in {H.Data, H.DataIpv6, H.DataEncrypted}
    ensures Interpret(o, session, cipher, outer) == ReadPacket(o, session, cipher, outer)
  {
  }

  lemma FragmentRoundTrip(f: F.Fragment, packetType: H.PacketType, links: seq<U32>, session: Session,
                          cipher: C.DataCipher, outer: C.OuterCipher)
    requires packetType.IpFragment? || packetType.IpFragmentIpv6?
    requires FragmentDatagram(f, packetType, links, session).Ok?
    ensures var datagram := FragmentDatagram(f, packetType, links, session).value;
            && Turnable(datagram)
            && DecodeDatagram(H.TurnAround(datagram), links, session, cipher, outer) == Ok(FragmentOf(packetType, f))
  {
    var payload, header := F.Encode(f, F.Little).value, InnerHeader(session, packetType, H.NoEncryption);
    OpenTurnedAround(links, C.Plain, 0, header, payload, session);
    FragmentReads(f, header, payload);
    ReadsAsFragment(Opened(C.Plain, 0, header, payload), session, cipher, outer);
  }

  lemma FragmentReads(f: F.Fragment, header: H.PacketHeader, payload: seq<Byte>)
    requires F.Encode(f, F.Little) == Ok(payload) && header.encryption == H.NoEncryption
    ensures ReadFragment(Opened(C.Plain, 0, header, payload)) == Ok(FragmentOf(header.packetType, f))
  {
    F.ParseOfEncode(f, F.Little, []);
    assert payload + [] == payload;
  }

  lemma ReadsAsFragment(o: Opened, session: Session, cipher: C.DataCipher, outer: C.OuterCipher)
    requires o.inner.packetType in {H.IpFragment, H.IpFragmentIpv6}
    ensures Interpret(o, session, cipher, outer) == ReadFragment(o)
  {
  }

  /** A monitor message sent over the path comes back as the same request or response. */
  lemma MonitorRoundTrip(body: M.Body, request: bool, links: seq<U32>, session: Session, cipher: C.DataCipher,
                         outer: C.OuterCipher)
    requires MonitorDatagram(if request then H.EchoRequest else H.EchoResponse, body, links, session).Ok?
    ensures var packetType := if request then H.EchoRequest else H.EchoResponse;
            var datagram := MonitorDatagram(packetType, body, links, session).value;
            && Turnable(datagram)
            && DecodeDatagram(H.TurnAround(datagram), links, session, cipher, outer)
               == Ok(if request then Request(body) else Response(body))
  {
    var header := InnerHeader(session, if request then H.EchoRequest else H.EchoResponse, H.NoEncryption);
    OpenTurnedAround(links, C.Plain, 0, header, M.Encode(body), session);
    BodyReads(body, header, request);
    ReadsAsBody(Opened(C.Plain, 0, header, M.Encode(body)), request, session, cipher, outer);
  }

  lemma BodyReads(body: M.Body, header: H.PacketHeader, request: bool)
    requires header.encryption == H.NoEncryption
    ensures ReadBody(Opened(C.Plain, 0, header, M.Encode(body)), request)
            == Ok(if request then Request(body) else Response(body))
  {
    M.DecodeOfEncode(body, []);
    assert M.Encode(body) + [] == M.Encode(body);
  }

  lemma ReadsAsBody(o: Opened, request: bool, session: Session, cipher: C.DataCipher, outer: C.OuterCipher)
    requires o.inner.packetType == if request then H.EchoRequest else H.EchoResponse
    ensures Interpret(o, session, cipher, outer) == ReadBody(o, request)
  {
  }

  lemma PairIsCut(packet: seq<Byte>, mtu: nat, id: U32)
    requires FragmentPair(packet, mtu, id).Ok?
    ensures var (first, second) := FragmentPair(packet, mtu, id).value;
            D.IsCut([first, second], id, packet) && first != second
  {
    var (first, second) := FragmentPair(packet, mtu, id).value;
    var cut := [first, second];
    assert cut[..1] == [first] && [first][..0] == [];
    assert R.Concat([first]) == [] + first.data;
    assert R.Concat(cut) == R.Concat([first]) + second.data;
    assert packet == first.data + second.data;
    assert forall f :: f in cut <==> f == first || f == second;
  }

  /** Two pieces that make a cut, received in either order, answer nothing and then the packet. */
  lemma PairReassembles(groups: R.Groups, cut: seq<F.Fragment>, id: U32, packet: seq<Byte>, x: F.Fragment,
                        y: F.Fragment, now: nat, later: nat)
    requires D.IsCut(cut, id, packet) && (cut == [x, y] || cut == [y, x]) && x != y
    requires R.Good(groups) && id !in groups && |R.Live(groups, now)| < R.MAX_GROUPS && later <= now + R.TIMEOUT
    ensures R.Insertion(groups, x, now).result == Ok(None)
    ensures R.Insertion(R.Insertion(groups, x, now).groups, y, later).result == Ok(Some(packet))
  {
    var arrivals := [D.Arrival(x, now), D.Arrival(y, later)];
    PairCarries(groups, cut, id, x, y, now, later);
    D.AnyOrderReassembles(groups, arrivals, cut, id, packet);
    assert D.Answer(groups, arrivals, 0) == Ok(None);
    assert D.Answer(groups, arrivals, 1) == Ok(Some(packet));
  }

  lemma PairCarries(groups: R.Groups, cut: seq<F.Fragment>, id: U32, x: F.Fragment, y: F.Fragment, now: nat, later: nat)
    requires (cut == [x, y] || cut == [y, x]) && x != y
    requires forall f <- cut :: f.id == id && |f.data| > 0
    requires |R.Live(groups, now)| < R.MAX_GROUPS && later <= now + R.TIMEOUT
    ensures var arrivals := [D.Arrival(x, now), D.Arrival(y, later)];
            && D.Carries(groups, arrivals, cut, id)
            && arrivals[..0] == [] && arrivals[..1] == [arrivals[0]] && arrivals[..2] == arrivals
            && D.After(groups, arrivals[..1]) == R.Insertion(groups, x, now).groups
            && !D.Delivered(cut, arrivals[..1]) && D.Delivered(cut, arrivals)
  {
    var arrivals := [D.Arrival(x, now), D.Arrival(y, later)];
    assert x in cut && y in cut && forall f <- cut :: f == x || f == y;
    assert arrivals[..0] == [] && arrivals[..1] == [arrivals[0]] && arrivals[..2] == arrivals
           && [arrivals[0]][..0] == [];
    assert arrivals[0] in arrivals[..1] && arrivals[0] in arrivals && arrivals[1] in arrivals;
    assert D.Seen(arrivals, x) && D.Seen(arrivals, y) && !D.Seen(arrivals[..1], y);
    assert D.Mentions(arrivals[..1], id);
    assert D.RoomAt(groups, arrivals, 0);
  }

  /**
    * Whatever is sent as two datagrams comes back as its two fragments, and inserting those in either
    * order, within the timeout and with a group slot free, answers nothing and then exactly the trimmed packet.
    */
  lemma FragmentedRoundTrip(packet: seq<Byte>, mtu: nat, id: U32, links: seq<U32>, session: Session,
                            cipher: C.DataCipher, outer: C.OuterCipher, a: seq<Byte>, b: seq<Byte>, groups: R.Groups,
                            now: nat, later: nat, swapped: bool)
    requires EncodeData(packet, mtu, id, links, session, cipher, outer) == Ok([a, b])
    requires R.Good(groups) && id !in groups && |R.Live(groups, now)| < R.MAX_GROUPS && later <= now + R.TIMEOUT
    ensures T.Trim(packet).Ok? && Turnable(a) && Turnable(b)
    ensures var first := DecodeDatagram(H.TurnAround(if swapped then b else a), links, session, cipher, outer);
            var second := DecodeDatagram(H.TurnAround(if swapped then a else b), links, session, cipher, outer);
            && first.Ok? && first.value.FragmentOf? && second.Ok? && second.value.FragmentOf?
            && FragmentAnswer(groups, first.value.packetType, first.value.fragment, now) == Ok(None)
            && var next := R.Insertion(groups, first.value.fragment, now).groups;
               FragmentAnswer(next, second.value.packetType, second.value.fragment, later)
               == Ok(Some(T.Trim(packet).value))
  {
    var trimmed := T.Trim(packet).value;
    FragmentsDecode(packet, mtu, id, links, session, cipher, outer, a, b);
    T.TrimIgnoresPadding(packet, []);
    assert trimmed + [] == trimmed;
    PairAnswers(trimmed, mtu, id, groups, now, later, swapped);
  }

  /** Both datagrams, turned around, decode to the fragments of the pair. */
  lemma FragmentsDecode(packet: seq<Byte>, mtu: nat, id: U32, links: seq<U32>, session: Session, cipher: C.DataCipher,
                        outer: C.OuterCipher, a: seq<Byte>, b: seq<Byte>)
    requires EncodeData(packet, mtu, id, links, session, cipher, outer) == Ok([a, b])
    ensures T.Trim(packet).Ok? && Turnable(a) && Turnable(b) && FragmentPair(T.Trim(packet).value, mtu, id).Ok?
    ensures var trimmed := T.Trim(packet).value;
            var (first, second) := FragmentPair(trimmed, mtu, id).value;
            var packetType := FragmentType(trimmed[0] / 16);
            && DecodeDatagram(H.TurnAround(a), links, session, cipher, outer) == Ok(FragmentOf(packetType, first))
            && DecodeDatagram(H.TurnAround(b), links, session, cipher, outer) == Ok(FragmentOf(packetType, second))
  {
    FragmentedParts(packet, mtu, id, links, session, cipher, outer, a, b);
    var trimmed := T.Trim(packet).value;
    var (first, second) := FragmentPair(trimmed, mtu, id).value;
    FragmentRoundTrip(first, FragmentType(trimmed[0] / 16), links, session, cipher, outer);
    FragmentRoundTrip(second, FragmentType(trimmed[0] / 16), links, session, cipher, outer);
  }

  /** The fragments of a pair, inserted in either order, answer nothing and then the packet. */
  lemma PairAnswers(packet: seq<Byte>, mtu: nat, id: U32, groups: R.Groups, now: nat, later: nat, swapped: bool)
    requires T.Trim(packet) == Ok(packet) && packet[0] / 16 in {4, 6} && FragmentPair(packet, mtu, id).Ok?
    requires R.Good(groups) && id !in groups && |R.Live(groups, now)| < R.MAX_GROUPS && later <= now + R.TIMEOUT
    ensures var (first, second) := FragmentPair(packet, mtu, id).value;
            var (x, y) := if swapped then (second, first) else (first, second);
            var packetType := FragmentType(packet[0] / 16);
            && FragmentAnswer(groups, packetType, x, now) == Ok(None)
            && FragmentAnswer(R.Insertion(groups, x, now).groups, packetType, y, later) == Ok(Some(packet))
  {
    var (first, second) := FragmentPair(packet, mtu, id).value;
    PairIsCut(packet, mtu, id);
    if swapped {
      PairReassembles(groups, [first, second], id, packet, second, first, now, later);
    } else {
      PairReassembles(groups, [first, second], id, packet, first, second, now, later);
    }
  }

  /** Whatever encodes becomes one or two datagrams, so the two round trips cover every accepted packet. */
  lemma OneOrTwoDatagrams(packet: seq<Byte>, mtu: nat, id: U32, links: seq<U32>, session: Session,
                          cipher: C.DataCipher, outer: C.OuterCipher)
    requires EncodeData(packet, mtu, id, links, session, cipher, outer).Ok?
    ensures var datagrams := EncodeData(packet, mtu, id, links, session, cipher, outer).value;
            datagrams == [datagrams[0]] || datagrams == [datagrams[0], datagrams[1]]
  {
    var trimmed := T.Trim(packet).value;
    if |trimmed| <= mtu {
      WholeIsSingle(trimmed, mtu, links, session, cipher, outer);
    } else {
      FragmentedIsPair(trimmed, mtu, id, links, session);
    }
  }

  lemma FragmentedIsPair(packet: seq<Byte>, mtu: nat, id: U32, links: seq<U32>, session: Session)
    requires packet != [] && EncodeFragmented(packet, mtu, id, links, session).Ok?
    ensures |EncodeFragmented(packet, mtu, id, links, session).value| == 2
  {
  }

  lemma FragmentedParts(packet: seq<Byte>, mtu: nat, id: U32, links: seq<U32>, session: Session, cipher: C.DataCipher,
                        outer: C.OuterCipher, a: seq<Byte>, b: seq<Byte>)
    requires EncodeData(packet, mtu, id, links, session, cipher, outer) == Ok([a, b])
    ensures T.Trim(packet).Ok? && FragmentPair(T.Trim(packet).value, mtu, id).Ok?
    ensures var trimmed := T.Trim(packet).value;
            var (first, second) := FragmentPair(trimmed, mtu, id).value;
            && FragmentDatagram(first, FragmentType(trimmed[0] / 16), links, session) == Ok(a)
            && FragmentDatagram(second, FragmentType(trimmed[0] / 16), links, session) == Ok(b)
  {
    var trimmed := T.Trim(packet).value;
    if |trimmed| <= mtu {
      WholeIsSingle(trimmed, mtu, links, session, cipher, outer);
    }
  }

  lemma WholeIsSingle(packet: seq<Byte>, mtu: nat, links: seq<U32>, session: Session, cipher: C.DataCipher,
                      outer: C.OuterCipher)
    requires packet != [] && EncodeWhole(packet, mtu, links, session, cipher, outer).Ok?
    ensures |EncodeWhole(packet, mtu, links, session, cipher, outer).value| == 1
  {
  }
}
