/** The segment-routing data path seen from the wire: when packets are sent, as which bytes, and what is accepted. */
module SrWire {
  import opened Wrappers
  import opened Bytes
  import F = Fragments
  import T = IpTrim
  import C = Ciphers
  import H = SrHeaders
  import M = SrMonitorBody
  import R = SrReassembly
  import opened SrDataPath

  // ----- when a packet is sent

  predicate GoodPath(links: seq<U32>) {
    1 <= |links| <= 6 && forall link <- links :: 1 <= link <= 0x00ff_ffff
  }

  /** Only IPv4 packets are encrypted inside, if the session is. */
  predicate Inside(packet: seq<Byte>, session: Session)
    requires packet != []
  {
    packet[0] / 16 == 4 && !session.encryption.NoEncryption?
  }

  function InnerLength(packet: seq<Byte>, session: Session, cipher: C.DataCipher): nat
    requires packet != []
  {
    if Inside(packet, session) then |C.Encrypt(cipher, packet)| else |packet|
  }

  /** The next multiple of sixteen. */
  function Filled(n: nat): (r: nat)
    ensures r % 16 == 0 && n <= r < n + 16
  {
    n + (16 - n % 16) % 16
  }

  /** What fits one datagram: the AES session cipher takes whole blocks only, and the outer one fills them up. */
  predicate FitsOne(packet: seq<Byte>, mtu: nat, session: Session, cipher: C.DataCipher, outer: C.OuterCipher)
    requires packet != []
  {
    var n := InnerLength(packet, session, cipher);
    && n <= mtu && (outer.algorithm.Plain? || Filled(n) <= mtu)
    && (Inside(packet, session) && session.encryption.Aes? ==> |packet| % 16 == 0)
  }

  /** What is cut in two: never anything encrypted. */
  predicate FitsTwo(packet: seq<Byte>, mtu: nat, session: Session, outer: C.OuterCipher)
    requires packet != []
  {
    && !Inside(packet, session) && outer.algorithm.Plain?
    && 1 <= mtu <= 2047 && |packet| <= 2 * mtu && |packet| <= 8192
  }

  lemma DatagramExactly(links: seq<U32>, algorithm: C.Algorithm, padding: Byte, inner: H.PacketHeader,
                        payload: seq<Byte>)
    ensures Datagram(links, algorithm, padding, inner, payload).Ok? <==> GoodPath(links) && padding <= 31
  {
    if GoodPath(links) && padding <= 31 {
      H.TurnAroundOutbound(links, algorithm, padding, []);
    }
  }

  lemma WholeExactly(packet: seq<Byte>, mtu: nat, links: seq<U32>, session: Session, cipher: C.DataCipher,
                     outer: C.OuterCipher)
    requires packet != [] && packet[0] / 16 in {4, 6} && |packet| <= mtu
    ensures EncodeWhole(packet, mtu, links, session, cipher, outer).Ok? <==>
            GoodPath(links) && FitsOne(packet, mtu, session, cipher, outer)
  {
    InnerExactly(packet, session, cipher);
    if InnerPayload(packet, session, cipher).Ok? {
      var inner := InnerPayload(packet, session, cipher).value;
      var (payload, padding) := C.OuterEncrypt(outer, inner.payload);
      OuterLength(outer, inner.payload);
      DatagramExactly(links, outer.algorithm, padding, InnerHeader(session, inner.packetType, inner.encryption),
          payload);
    }
  }

  lemma OuterLength(outer: C.OuterCipher, plain: seq<Byte>)
    ensures |C.OuterEncrypt(outer, plain).0| == if outer.algorithm.Plain? then |plain| else Filled(|plain|)
    ensures C.OuterEncrypt(outer, plain).1 <= 31
  {
  }

  /** What goes into the datagram, and with which type and method byte. */
  lemma InnerExactly(packet: seq<Byte>, session: Session, cipher: C.DataCipher)
    requires packet != [] && packet[0] / 16 in {4, 6}
    ensures InnerPayload(packet, session, cipher).Ok? <==>
            (Inside(packet, session) && session.encryption.Aes? ==> |packet| % 16 == 0)
    ensures InnerPayload(packet, session, cipher).Ok? ==>
              var inner := InnerPayload(packet, session, cipher).value;
              && inner.payload == (if Inside(packet, session) then C.Encrypt(cipher, packet) else packet)
              && H.TypeCode(inner.packetType) ==
                 (if packet[0] / 16 == 6 then 0x23 else if Inside(packet, session) then 0x18 else 0x14)
              && H.MethodCode(inner.encryption) ==
                 (if !Inside(packet, session) then 0 else if session.encryption.Xor? then 1 else 2)
  {
  }

  lemma PairExactly(packet: seq<Byte>, mtu: nat, id: U32, links: seq<U32>, session: Session)
    requires packet != [] && |packet| > mtu
    ensures EncodeFragmented(packet, mtu, id, links, session).Ok? <==>
            GoodPath(links) && 1 <= mtu <= 2047 && |packet| <= 2 * mtu && |packet| <= 8192
  {
    if 1 <= mtu <= 2047 && |packet| <= 2 * mtu && |packet| <= 8192 {
      var (first, second) := FragmentPair(packet, mtu, id).value;
      var header := InnerHeader(session, FragmentType(packet[0] / 16), H.NoEncryption);
      F.ParseOfEncode(first, F.Little, []);
      F.ParseOfEncode(second, F.Little, []);
      DatagramExactly(links, C.Plain, 0, header, F.Encode(first, F.Little).value);
      DatagramExactly(links, C.Plain, 0, header, F.Encode(second, F.Little).value);
    }
  }

  /** A packet is sent if and only if its header is sound, the path is, and it fits one datagram or two fragments. */
  lemma SendsExactly(packet: seq<Byte>, mtu: nat, id: U32, links: seq<U32>, session: Session, cipher: C.DataCipher,
                     outer: C.OuterCipher)
    ensures EncodeData(packet, mtu, id, links, session, cipher, outer).Ok? <==>
            && T.Trim(packet).Ok? && GoodPath(links)
            && var t := T.Trim(packet).value;
               if |t| <= mtu then FitsOne(t, mtu, session, cipher, outer) else FitsTwo(t, mtu, session, outer)
  {
    if T.Trim(packet).Ok? {
      var t := T.Trim(packet).value;
      T.TrimIgnoresPadding(packet, []);
      if |t| <= mtu {
        WholeExactly(t, mtu, links, session, cipher, outer);
      } else {
        PairExactly(t, mtu, id, links, session);
      }
    }
  }

  // ----- as which bytes

  /** The bytes before the payload: both headers, with the links from the byte given on in this order. */
  ghost predicate Headed(datagram: seq<Byte>, next: nat, links: seq<U32>, session: Session) {
    var n := |links|;
    && |datagram| >= 12 + 4 * n && datagram[0] == 0x28 && datagram[1] == next && datagram[2] == n
    && (forall i | 0 <= i < n :: LinkOn(datagram, i, links[i]))
    && session.id == Number(0, 0, datagram[4 * n + 6], datagram[4 * n + 7])
    && session.token == Number(datagram[4 * n + 8], datagram[4 * n + 9], datagram[4 * n + 10], datagram[4 * n + 11])
  }

  ghost predicate LinkOn(datagram: seq<Byte>, i: nat, link: U32) {
    |datagram| >= 8 + 4 * i &&
    link == Number(datagram[4 * i + 4], datagram[4 * i + 5], datagram[4 * i + 6], datagram[4 * i + 7])
  }

  /** The byte that holds the padding above the algorithm, the type byte and the method byte. */
  ghost predicate Marked(datagram: seq<Byte>, n: nat, outer: nat, kind: nat, coding: nat) {
    |datagram| >= 12 + 4 * n && datagram[3] == outer && datagram[4 * n + 4] == kind && datagram[4 * n + 5] == coding
  }

  /** The datagram has these headers and this payload. */
  ghost predicate Bears(datagram: seq<Byte>, n: nat, h: H.SrHeader, inner: H.PacketHeader, payload: seq<Byte>,
                        session: Session)
  {
    && n == |h.links| && Headed(datagram, h.nextId, h.links, session) && datagram[12 + 4 * n..] == payload
    && Marked(datagram, n, OuterByte(h.padding, h.algorithm), H.TypeCode(inner.packetType),
       H.MethodCode(inner.encryption))
  }

  lemma HeaderOn(h: H.SrHeader, n: nat, inner: H.PacketHeader, payload: seq<Byte>, session: Session,
                 datagram: seq<Byte>)
    requires H.ValidHeader(h) && n == |h.links| && inner.sessionId == session.id && inner.token == session.token
    requires datagram == H.Encode(h).value + (H.EncodeInner(inner) + payload)
    ensures Bears(datagram, n, h, inner, payload, session)
  {
    H.WireHeader(h, 0);
    H.WireInner(inner);
    forall i | 0 <= i < n ensures LinkOn(datagram, i, h.links[i]) {
      H.WireHeader(h, i);
    }
  }

  /** The fourth byte: the padding in the upper five bits, the algorithm in the lower three. */
  function OuterByte(padding: int, algorithm: C.Algorithm): int {
    8 * padding + match algorithm case Plain => 0 case Aes128 => 1 case Aes256 => 2
  }

  function Backwards(links: seq<U32>): (r: seq<U32>)
    ensures |r| == |links| && forall i | 0 <= i < |links| :: r[i] == links[|links| - 1 - i]
  {
    if links == [] then [] else Backwards(links[1..]) + [links[0]]
  }

  lemma DatagramOn(links: seq<U32>, algorithm: C.Algorithm, padding: Byte, inner: H.PacketHeader, payload: seq<Byte>,
                   session: Session, datagram: seq<Byte>)
    requires Datagram(links, algorithm, padding, inner, payload) == Ok(datagram)
    requires inner.sessionId == session.id && inner.token == session.token
    ensures 0 < |links| <= 6
    ensures Bears(datagram, |links|, H.SrHeader(|links| - 1, Backwards(links), algorithm, padding), inner, payload,
            session)
  {
    var h := OutboundIs(links, algorithm, padding, inner, payload, datagram);
    HeaderOn(h, |links|, inner, payload, session, datagram);
  }

  lemma OutboundIs(links: seq<U32>, algorithm: C.Algorithm, padding: Byte, inner: H.PacketHeader, payload: seq<Byte>,
                   datagram: seq<Byte>)
    returns (h: H.SrHeader)
    requires Datagram(links, algorithm, padding, inner, payload) == Ok(datagram)
    ensures H.ValidHeader(h) && datagram == H.Encode(h).value + (H.EncodeInner(inner) + payload)
    ensures 0 < |links| <= 6 && h == H.SrHeader(|links| - 1, Backwards(links), algorithm, padding)
  {
    h := H.Outbound(links, algorithm, padding).value;
    assert h.links == Backwards(links);
  }

  /**
    * A packet sent whole: the path backwards, the algorithm and the padding in the fourth byte, type 0x23 for IPv6,
    * 0x18 for encrypted and 0x14 for plain IPv4, and as payload the packet through the session's cipher, where it
    * is encrypted inside, and then through the outer one.
    */
  lemma WholeDatagram(packet: seq<Byte>, mtu: nat, id: U32, links: seq<U32>, session: Session, cipher: C.DataCipher,
                      outer: C.OuterCipher, datagram: seq<Byte>)
    requires EncodeData(packet, mtu, id, links, session, cipher, outer) == Ok([datagram])
    ensures T.Trim(packet).Ok? && links != [] && Headed(datagram, |links| - 1, Backwards(links), session)
    ensures var t, n := T.Trim(packet).value, |links|;
            var (payload, padding) := C.OuterEncrypt(outer, if Inside(t, session) then C.Encrypt(cipher, t) else t);
            && datagram[12 + 4 * n..] == payload
            && Marked(datagram, n, OuterByte(padding, outer.algorithm),
                      if t[0] / 16 == 6 then 0x23 else if Inside(t, session) then 0x18 else 0x14,
                      if !Inside(t, session) then 0 else if session.encryption.Xor? then 1 else 2)
  {
    var t := T.Trim(packet).value;
    T.TrimIgnoresPadding(packet, []);
    OneIsWhole(packet, mtu, id, links, session, cipher, outer, datagram);
    WholeOn(t, mtu, links, session, cipher, outer, datagram);
  }

  lemma WholeOn(t: seq<Byte>, mtu: nat, links: seq<U32>, session: Session, cipher: C.DataCipher, outer: C.OuterCipher,
                datagram: seq<Byte>)
    requires t != [] && t[0] / 16 in {4, 6} && EncodeWhole(t, mtu, links, session, cipher, outer) == Ok([datagram])
    ensures links != [] && Headed(datagram, |links| - 1, Backwards(links), session)
    ensures var n := |links|;
            var (payload, padding) := C.OuterEncrypt(outer, if Inside(t, session) then C.Encrypt(cipher, t) else t);
            && datagram[12 + 4 * n..] == payload
            && Marked(datagram, n, OuterByte(padding, outer.algorithm),
                      if t[0] / 16 == 6 then 0x23 else if Inside(t, session) then 0x18 else 0x14,
                      if !Inside(t, session) then 0 else if session.encryption.Xor? then 1 else 2)
  {
    WholeParts(t, mtu, links, session, cipher, outer, datagram);
    InnerExactly(t, session, cipher);
    var inner := InnerPayload(t, session, cipher).value;
    var (payload, padding) := C.OuterEncrypt(outer, inner.payload);
    var header := InnerHeader(session, inner.packetType, inner.encryption);
    DatagramOn(links, outer.algorithm, padding, header, payload, session, datagram);
  }

  lemma OneIsWhole(packet: seq<Byte>, mtu: nat, id: U32, links: seq<U32>, session: Session, cipher: C.DataCipher,
                   outer: C.OuterCipher, datagram: seq<Byte>)
    requires EncodeData(packet, mtu, id, links, session, cipher, outer) == Ok([datagram])
    ensures T.Trim(packet).Ok? && EncodeWhole(T.Trim(packet).value, mtu, links, session, cipher, outer)
            == Ok([datagram])
  {
    var t := T.Trim(packet).value;
    if |t| > mtu {
      FragmentedIsPair(t, mtu, id, links, session);
    }
  }

  /** A packet sent in two: plain fragments of type 0x22 or 0x24, the first with as much as the limit allows. */
  lemma FragmentDatagrams(packet: seq<Byte>, mtu: nat, id: U32, links: seq<U32>, session: Session, cipher: C.DataCipher,
                          outer: C.OuterCipher, a: seq<Byte>, b: seq<Byte>)
    requires EncodeData(packet, mtu, id, links, session, cipher, outer) == Ok([a, b])
    ensures T.Trim(packet).Ok? && links != [] && |T.Trim(packet).value| > mtu
    ensures var t, n := T.Trim(packet).value, |links|;
            var kind := if t[0] / 16 == 6 then 0x24 else 0x22;
            && Headed(a, n - 1, Backwards(links), session) && Marked(a, n, 0, kind, 0)
            && Headed(b, n - 1, Backwards(links), session) && Marked(b, n, 0, kind, 0)
            && F.Encode(F.Fragment(id, false, false, 0, t[..mtu]), F.Little) == Ok(a[12 + 4 * n..])
            && mtu < 0x1_0000 && F.Encode(F.Fragment(id, true, false, mtu, t[mtu..]), F.Little) == Ok(b[12 + 4 * n..])
  {
    FragmentedParts(packet, mtu, id, links, session, cipher, outer, a, b);
    var t := T.Trim(packet).value;
    T.TrimIgnoresPadding(packet, []);
    var (first, second) := FragmentPair(t, mtu, id).value;
    FragmentOn(first, FragmentType(t[0] / 16), links, session, a);
    FragmentOn(second, FragmentType(t[0] / 16), links, session, b);
  }

  lemma FragmentOn(f: F.Fragment, packetType: H.PacketType, links: seq<U32>, session: Session, datagram: seq<Byte>)
    requires packetType.IpFragment? || packetType.IpFragmentIpv6?
    requires FragmentDatagram(f, packetType, links, session) == Ok(datagram)
    ensures links != [] && Headed(datagram, |links| - 1, Backwards(links), session)
    ensures Marked(datagram, |links|, 0, if packetType.IpFragment? then 0x22 else 0x24, 0)
    ensures F.Encode(f, F.Little) == Ok(datagram[12 + 4 * |links|..])
  {
    FragmentBears(f, packetType, links, session, datagram);
    PlainMarks(datagram, Backwards(links), InnerHeader(session, packetType, H.NoEncryption),
               F.Encode(f, F.Little).value, session);
  }

  lemma FragmentBears(f: F.Fragment, packetType: H.PacketType, links: seq<U32>, session: Session, datagram: seq<Byte>)
    requires FragmentDatagram(f, packetType, links, session) == Ok(datagram)
    ensures 0 < |links| <= 6 && F.Encode(f, F.Little).Ok?
    ensures Bears(datagram, |links|, H.SrHeader(|links| - 1, Backwards(links), C.Plain, 0),
                  InnerHeader(session, packetType, H.NoEncryption), F.Encode(f, F.Little).value, session)
  {
    var header := InnerHeader(session, packetType, H.NoEncryption);
    DatagramOn(links, C.Plain, 0, header, F.Encode(f, F.Little).value, session, datagram);
  }

  lemma PlainMarks(datagram: seq<Byte>, links: seq<U32>, inner: H.PacketHeader, payload: seq<Byte>, session: Session)
    requires 0 < |links| <= 6 && inner.encryption.NoEncryption?
    requires Bears(datagram, |links|, H.SrHeader(|links| - 1, links, C.Plain, 0), inner, payload, session)
    ensures Headed(datagram, |links| - 1, links, session) && datagram[12 + 4 * |links|..] == payload
    ensures Marked(datagram, |links|, 0, H.TypeCode(inner.packetType), 0)
  {
  }

  /** A monitor message is sent over every good path, plain, as type 0x15 or 0x16 with its body behind the headers. */
  lemma MonitorSends(packetType: H.PacketType, body: M.Body, links: seq<U32>, session: Session)
    ensures MonitorDatagram(packetType, body, links, session).Ok? <==>
            (packetType.EchoRequest? || packetType.EchoResponse?) && GoodPath(links)
    ensures MonitorDatagram(packetType, body, links, session).Ok? ==>
              var datagram, n := MonitorDatagram(packetType, body, links, session).value, |links|;
              && n > 0 && Headed(datagram, n - 1, Backwards(links), session)
              && Marked(datagram, n, 0, if packetType.EchoRequest? then 0x15 else 0x16, 0)
              && datagram[12 + 4 * n..] == M.Encode(body)
  {
    var inner := InnerHeader(session, packetType, H.NoEncryption);
    DatagramExactly(links, C.Plain, 0, inner, M.Encode(body));
    if MonitorDatagram(packetType, body, links, session).Ok? {
      var datagram := MonitorDatagram(packetType, body, links, session).value;
      DatagramOn(links, C.Plain, 0, inner, M.Encode(body), session, datagram);
      PlainMarks(datagram, Backwards(links), inner, M.Encode(body), session);
    }
  }

  // ----- what is accepted

  lemma OpenedOn(datagram: seq<Byte>, links: seq<U32>, session: Session, o: Opened)
    requires Open(datagram, links, session) == Ok(o)
    ensures links != []
    ensures Bears(datagram, |links|, H.SrHeader(0, links, o.algorithm, o.padding), o.inner, o.payload, session)
  {
    OpenedIs(datagram, links, session, o);
    HeaderOn(H.SrHeader(0, links, o.algorithm, o.padding), |links|, o.inner, o.payload, session, datagram);
  }

  lemma OpenedIs(datagram: seq<Byte>, links: seq<U32>, session: Session, o: Opened)
    requires Open(datagram, links, session) == Ok(o)
    ensures links != [] && o.inner.sessionId == session.id && o.inner.token == session.token
    ensures var h := H.SrHeader(0, links, o.algorithm, o.padding);
            H.ValidHeader(h) && datagram == H.Encode(h).value + (H.EncodeInner(o.inner) + o.payload)
  {
    var (header, length) := H.Parse(datagram).value;
    H.EncodeOfParse(datagram);
    assert header == H.SrHeader(0, links, o.algorithm, o.padding);
    var rest := datagram[length..];
    InnerOn(rest, o.inner);
    assert rest[8..] == o.payload && datagram == datagram[..length] + rest;
  }

  lemma InnerOn(input: seq<Byte>, inner: H.PacketHeader)
    requires H.DecodeInner(input) == Ok(inner)
    ensures |input| >= 8 && input == H.EncodeInner(inner) + input[8..]
  {
    assert input == [input[0], input[1]] + input[2..4] + input[4..8] + input[8..];
  }

  /**
    * A packet has its IP version's type; it is encrypted inside only by the session's method and outside only by
    * the configured algorithm. Fragments and monitor messages are not encrypted at all.
    */
  ghost predicate Sound(datagram: seq<Byte>, n: nat, session: Session, outer: C.OuterCipher, decoded: Decoded)
    requires |datagram| >= 12 + 4 * n
  {
    var kind, coding := datagram[4 * n + 4], datagram[4 * n + 5];
    match decoded
    case Packet(packet) =>
      && kind in {0x14, 0x18, 0x23} && T.Trim(packet).Ok? && (packet[0] / 16 == if kind == 0x23 then 6 else 4)
      && datagram[3] == OuterByte(datagram[3] / 8, outer.algorithm)
      && coding == (if kind != 0x18 then 0 else if session.encryption.Xor? then 1 else 2)
      && (kind == 0x18 ==> !session.encryption.NoEncryption?)
    case FragmentOf(packetType, _) =>
      datagram[3] == 0 && coding == 0 && kind == if packetType.IpFragment? then 0x22 else 0x24
    case Request(_) => datagram[3] == 0 && coding == 0 && kind == 0x15
    case Response(_) => datagram[3] == 0 && coding == 0 && kind == 0x16
  }

  /** What is accepted carries the path forwards with index 0, this session's id and token, and sound marks. */
  lemma AcceptsOnly(datagram: seq<Byte>, links: seq<U32>, session: Session, cipher: C.DataCipher, outer: C.OuterCipher,
                    decoded: Decoded)
    requires DecodeDatagram(datagram, links, session, cipher, outer) == Ok(decoded)
    ensures Headed(datagram, 0, links, session) && Sound(datagram, |links|, session, outer, decoded)
  {
    var o := Open(datagram, links, session).value;
    OpenedOn(datagram, links, session, o);
    InterpretsOnly(o, session, cipher, outer, decoded);
    MarksSound(datagram, links, session, outer, o, decoded);
  }

  lemma MarksSound(datagram: seq<Byte>, links: seq<U32>, session: Session, outer: C.OuterCipher, o: Opened,
                   decoded: Decoded)
    requires Proper(o, session, outer, decoded)
    requires Bears(datagram, |links|, H.SrHeader(0, links, o.algorithm, o.padding), o.inner, o.payload, session)
    ensures Headed(datagram, 0, links, session) && Sound(datagram, |links|, session, outer, decoded)
  {
    OuterByteSplits(o.padding, o.algorithm);
  }

  lemma OuterByteSplits(padding: nat, algorithm: C.Algorithm)
    ensures OuterByte(padding, algorithm) / 8 == padding
  {
  }

  /** The same of the opened datagram. */
  ghost predicate Proper(o: Opened, session: Session, outer: C.OuterCipher, decoded: Decoded) {
    match decoded
    case Packet(packet) =>
      && o.inner.packetType in {H.Data, H.DataIpv6, H.DataEncrypted} && o.algorithm == outer.algorithm
      && packet != [] && T.Trim(packet).Ok? && (packet[0] / 16 == if o.inner.packetType.DataIpv6? then 6 else 4)
      && (if o.inner.packetType.DataEncrypted?
          then !session.encryption.NoEncryption? && o.inner.encryption == session.encryption
          else o.inner.encryption.NoEncryption?)
    case FragmentOf(packetType, _) =>
      Bare(o) && o.inner.packetType == packetType && (packetType.IpFragment? || packetType.IpFragmentIpv6?)
    case Request(_) => Bare(o) && o.inner.packetType.EchoRequest?
    case Response(_) => Bare(o) && o.inner.packetType.EchoResponse?
  }

  lemma InterpretsOnly(o: Opened, session: Session, cipher: C.DataCipher, outer: C.OuterCipher, decoded: Decoded)
    requires Interpret(o, session, cipher, outer) == Ok(decoded)
    ensures Proper(o, session, outer, decoded)
  {
    if decoded.Packet? {
      DeciphersOnly(o, session, cipher, outer);
      var plain := Decipher(o, session, cipher, outer).value;
      T.TrimIgnoresPadding(plain, []);
      assert decoded.packet + [] == decoded.packet;
    }
  }

  lemma DeciphersOnly(o: Opened, session: Session, cipher: C.DataCipher, outer: C.OuterCipher)
    requires Decipher(o, session, cipher, outer).Ok?
    ensures o.algorithm == outer.algorithm
    ensures if o.inner.packetType.DataEncrypted?
            then !session.encryption.NoEncryption? && o.inner.encryption == session.encryption
            else o.inner.encryption.NoEncryption?
  {
  }

  /** What a received fragment answers is cut to what its header declares and has the version of the fragment's type. */
  lemma FragmentAnswers(groups: R.Groups, packetType: H.PacketType, f: F.Fragment, now: nat, packet: seq<Byte>)
    requires FragmentAnswer(groups, packetType, f, now) == Ok(Some(packet))
    ensures exists whole :: R.Insertion(groups, f, now).result == Ok(Some(whole)) && T.Trim(whole) == Ok(packet)
    ensures packet[0] / 16 == if packetType.IpFragment? then 4 else 6
  {
    var whole := R.Insertion(groups, f, now).result.value.value;
    assert T.Trim(whole) == Ok(packet);
  }

  // ----- whole packets come back whole

  /** A packet as long as its header declares comes back as it was sent, in one datagram. */
  lemma DeclaredPacketReturns(packet: seq<Byte>, mtu: nat, id: U32, links: seq<U32>, session: Session,
                              cipher: C.DataCipher, outer: C.OuterCipher, datagram: seq<Byte>)
    requires T.DeclaresIpv4(packet, |packet|) || T.DeclaresIpv6(packet, |packet|)
    requires cipher.Inverts() && outer.blocks.Inverts()
    requires EncodeData(packet, mtu, id, links, session, cipher, outer) == Ok([datagram])
    ensures Turnable(datagram) && DecodeDatagram(H.TurnAround(datagram), links, session, cipher, outer)
            == Ok(Packet(packet))
  {
    T.WholeStaysWhole(packet);
    WholePacketRoundTrip(packet, mtu, id, links, session, cipher, outer, datagram);
  }

  /** And in two, whichever comes first. */
  lemma DeclaredPairReturns(packet: seq<Byte>, mtu: nat, id: U32, links: seq<U32>, session: Session,
                            cipher: C.DataCipher, outer: C.OuterCipher, a: seq<Byte>, b: seq<Byte>, groups: R.Groups,
                            now: nat, later: nat, swapped: bool)
    requires T.DeclaresIpv4(packet, |packet|) || T.DeclaresIpv6(packet, |packet|)
    requires EncodeData(packet, mtu, id, links, session, cipher, outer) == Ok([a, b])
    requires R.Good(groups) && id !in groups && |R.Live(groups, now)| < 16 && later <= now + 2_000_000_000
    ensures Turnable(a) && Turnable(b)
    ensures var first := DecodeDatagram(H.TurnAround(if swapped then b else a), links, session, cipher, outer);
            var second := DecodeDatagram(H.TurnAround(if swapped then a else b), links, session, cipher, outer);
            && first.Ok? && first.value.FragmentOf? && second.Ok? && second.value.FragmentOf?
            && var next := R.Insertion(groups, first.value.fragment, now).groups;
               FragmentAnswer(next, second.value.packetType, second.value.fragment, later) == Ok(Some(packet))
  {
    T.WholeStaysWhole(packet);
    FragmentedRoundTrip(packet, mtu, id, links, session, cipher, outer, a, b, groups, now, later, swapped);
  }
}
