/** The 40-byte body of segment-routing monitor messages. */
module SrMonitorBody {
  import opened Wrappers
  import opened Bytes

  const BODY_LEN: nat := 40

  datatype Body = Body(tick: U64, currentDelay: U32, minimumDelay: U32, maximumDelay: U32, srId: U32,
                       version: Byte, marker: Byte, flags: U16, txCount: U32, rxCount: U32)

  datatype Error = TooShort | BadMagic

  // "SRID"
  const MAGIC: seq<Byte> := [0x53, 0x52, 0x49, 0x44]

  function EncodeDelays(b: Body): (r: seq<Byte>)
    ensures |r| == 20
  {
    Little64(b.tick) + Little32(b.currentDelay) + Little32(b.minimumDelay) + Little32(b.maximumDelay)
  }

  function EncodeCounters(b: Body): (r: seq<Byte>)
    ensures |r| == 16
  {
    Big32(b.srId) + [b.version, b.marker] + Little16(b.flags) + Little32(b.txCount) + Little32(b.rxCount)
  }

  function Encode(b: Body): (r: seq<Byte>)
    ensures |r| == BODY_LEN
  {
    EncodeDelays(b) + MAGIC + EncodeCounters(b)
  }

  function Decode(bytes: seq<Byte>): Result<Body, Error> {
    if |bytes| < BODY_LEN then Err(TooShort)
    else if bytes[20..24] != MAGIC then Err(BadMagic)
    else
      Ok(Body(FromLittle64(bytes[0..8]), FromLittle32(bytes[8..12]), FromLittle32(bytes[12..16]),
          FromLittle32(bytes[16..20]),
              FromBig32(bytes[24..28]), bytes[28], bytes[29], FromLittle16(bytes[30..32]),
              FromLittle32(bytes[32..36]), FromLittle32(bytes[36..40])))
  }

  lemma DecodeOfEncode(b: Body, rest: seq<Byte>)
    ensures Decode(Encode(b) + rest) == Ok(b)
  {
    var bytes := Encode(b) + rest;
    assert bytes[20..24] == MAGIC;
    DelaysAt(b, rest);
    CountersAt(b, rest);
    RoundTrip64(b.tick);
    RoundTrip32(b.currentDelay);
    RoundTrip32(b.minimumDelay);
    RoundTrip32(b.maximumDelay);
    RoundTrip32(b.srId);
    RoundTrip16(b.flags);
    RoundTrip32(b.txCount);
    RoundTrip32(b.rxCount);
  }

  /** The four bytes from `i` on as a number, least significant first. */
  function LittleAt(bytes: seq<Byte>, i: nat): int
    requires i + 4 <= |bytes|
  {
    Number(bytes[i + 3], bytes[i + 2], bytes[i + 1], bytes[i])
  }

  /** The wire form: little-endian tick and delays, the magic, the big-endian id, and little-endian counters. */
  lemma WireBody(b: Body)
    ensures var w := Encode(b);
            && b.tick == LittleAt(w, 0) + 0x1_0000_0000 * LittleAt(w, 4)
            && b.currentDelay == LittleAt(w, 8) && b.minimumDelay == LittleAt(w, 12)
            && b.maximumDelay == LittleAt(w, 16)
            && b.srId == Number(w[24], w[25], w[26], w[27]) && b.version == w[28] && b.marker == w[29]
            && b.flags == Number(0, 0, w[31], w[30]) && b.txCount == LittleAt(w, 32) && b.rxCount == LittleAt(w, 36)
  {
    WireDelays(b);
    WireCounters(b);
  }

  lemma WireDelays(b: Body)
    ensures var w := EncodeDelays(b);
            && b.tick == LittleAt(w, 0) + 0x1_0000_0000 * LittleAt(w, 4)
            && b.currentDelay == LittleAt(w, 8) && b.minimumDelay == LittleAt(w, 12)
            && b.maximumDelay == LittleAt(w, 16)
  {
    WordBytes(b.tick % 0x1_0000_0000);
    WordBytes(b.tick / 0x1_0000_0000);
    WordBytes(b.currentDelay);
    WordBytes(b.minimumDelay);
    WordBytes(b.maximumDelay);
  }

  lemma WireCounters(b: Body)
    ensures var w := EncodeCounters(b);
            && b.srId == Number(w[0], w[1], w[2], w[3]) && b.version == w[4] && b.marker == w[5]
            && b.flags == Number(0, 0, w[7], w[6]) && b.txCount == LittleAt(w, 8) && b.rxCount == LittleAt(w, 12)
  {
    WordBytes(b.srId);
    WordBytes(b.txCount);
    WordBytes(b.rxCount);
  }

  /** Forty bytes with the magic in place are read, whatever follows them, and what is read encodes to them. */
  lemma EncodeOfDecode(bytes: seq<Byte>)
    ensures Decode(bytes).Ok? <==> |bytes| >= 40 && bytes[20..24] == [0x53, 0x52, 0x49, 0x44]
    ensures Decode(bytes).Ok? ==> Encode(Decode(bytes).value) == bytes[..40]
  {
    if Decode(bytes).Ok? {
      var b := Decode(bytes).value;
      assert EncodeDelays(b) == bytes[0..8] + bytes[8..12] + bytes[12..16] + bytes[16..20];
      assert EncodeDelays(b) == bytes[0..20];
      assert EncodeCounters(b) == bytes[24..28] + [bytes[28], bytes[29]] + bytes[30..32] + bytes[32..36]
             + bytes[36..40];
      assert EncodeCounters(b) == bytes[24..40];
    }
  }

  lemma DelaysAt(b: Body, rest: seq<Byte>)
    ensures var bytes := Encode(b) + rest;
            && bytes[0..8] == Little64(b.tick)
            && bytes[8..12] == Little32(b.currentDelay)
            && bytes[12..16] == Little32(b.minimumDelay)
            && bytes[16..20] == Little32(b.maximumDelay)
  {
  }

  lemma CountersAt(b: Body, rest: seq<Byte>)
    ensures var bytes := Encode(b) + rest;
            && bytes[24..28] == Big32(b.srId)
            && bytes[28] == b.version && bytes[29] == b.marker
            && bytes[30..32] == Little16(b.flags)
            && bytes[32..36] == Little32(b.txCount)
            && bytes[36..40] == Little32(b.rxCount)
  {
    var bytes := Encode(b) + rest;
    assert bytes[24..40] == EncodeCounters(b);
    assert forall i, j | 24 <= i <= j <= 40 :: bytes[i..j] == EncodeCounters(b)[i - 24..j - 24];
  }
}
