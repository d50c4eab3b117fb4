/** The fragment prefix codec shared by traditional and segment-routing fragments. */
module Fragments {
  import opened Wrappers
  import opened Bytes
  import opened Numbers

  const PREFIX_LEN := 8
  const MAX_OFFSET := 0x1fff
  const MAX_LENGTH := 0x07ff
  const MAX_PACKET := 8192

  datatype Error = InvalidFragment(reason: Reason) | FragmentTooLarge

  datatype Reason =
    | PrefixTooShort | ReservedBitsSet | ZeroLength | LengthExceedsDatagram
    | OffsetTooWide | PayloadTooWide | PayloadLengthOutOfRange
    | OverlappingOffsets | DataAfterEnd | CoverageChanged
    | EmptyPacket | TruncatedHeader | BadHeaderLength | TotalLengthTooShort
    | UnknownVersion | LengthExceedsPayload | VersionMismatch

  datatype Endian = Big | Little

  datatype Fragment = Fragment(id: U32, endOfPacket: bool, fromIn: bool, offset: U16, data: seq<Byte>)
  {
    function End(): nat {
      offset + |data|
    }
  }

  function Parse(input: seq<Byte>, endian: Endian): Result<Fragment, Error> {
    if |input| < PREFIX_LEN then
      Err(InvalidFragment(PrefixTooShort))
    else
      var id := if endian.Big? then FromBig32(input[..4]) else FromLittle32(input[..4]);
      var packed := FromLittle32(input[4..8]);
      if packed / 0x400_0000 != 0 then
        Err(InvalidFragment(ReservedBitsSet))
      else
        var length := packed / 0x8000 % 0x800;
        if length == 0 then
          Err(InvalidFragment(ZeroLength))
        else if |input| - PREFIX_LEN < length then
          Err(InvalidFragment(LengthExceedsDatagram))
        else
          var fragment := Fragment(id, packed % 2 != 0, packed / 2 % 2 != 0, packed / 4 % 0x2000,
                                   input[PREFIX_LEN..PREFIX_LEN + length]);
          if fragment.End() > MAX_PACKET then Err(FragmentTooLarge) else Ok(fragment)
  }

  function Encode(f: Fragment, endian: Endian): Result<seq<Byte>, Error> {
    if f.offset > MAX_OFFSET then
      Err(InvalidFragment(OffsetTooWide))
    else if |f.data| > 0xffff then
      Err(InvalidFragment(PayloadTooWide))
    else if |f.data| == 0 || |f.data| > MAX_LENGTH then
      Err(InvalidFragment(PayloadLengthOutOfRange))
    else if f.End() > MAX_PACKET then
      Err(FragmentTooLarge)
    else
      Ok(IdBytes(f.id, endian) + Little32(Packed(f)) + f.data)
  }

  function IdBytes(id: U32, endian: Endian): (r: seq<Byte>)
    ensures |r| == 4
  {
    if endian.Big? then Big32(id) else Little32(id)
  }

  function Packed(f: Fragment): U32
    requires f.offset <= MAX_OFFSET && |f.data| <= MAX_LENGTH
  {
    f.offset * 4 + |f.data| * 0x8000 + One(f.endOfPacket) + One(f.fromIn) * 2
  }

  /** What fits the prefix: a 13-bit offset, an 11-bit non-zero length, an end within 8192. */
  predicate Encodable(f: Fragment) {
    f.offset <= MAX_OFFSET && 0 < |f.data| <= MAX_LENGTH && f.End() <= MAX_PACKET
  }

  /** The fields of the packed word do not run into each other. */
  lemma UnpackPacked(f: Fragment)
    requires f.offset <= MAX_OFFSET && |f.data| <= MAX_LENGTH
    ensures var packed := Packed(f);
            packed / 0x400_0000 == 0
            && packed / 0x8000 % 0x800 == |f.data|
            && packed / 4 % 0x2000 == f.offset
            && packed / 2 % 2 == One(f.fromIn)
            && packed % 2 == One(f.endOfPacket)
  {
    var packed, word := Packed(f), f.offset + 0x2000 * |f.data|;
    var flagged := One(f.fromIn) + 2 * word;
    assert packed == One(f.endOfPacket) + 2 * flagged;
    assert packed / 2 == flagged && packed / 4 == word;
    assert word % 0x2000 == f.offset && word / 0x2000 == |f.data|;
  }

  lemma PackUnpacked(packed: U32)
    requires packed / 0x400_0000 == 0
    ensures packed == packed / 4 % 0x2000 * 4 + packed / 0x8000 % 0x800 * 0x8000 + packed % 2 + packed / 2 % 2 * 2
  {
    var word := packed / 4;
    assert packed == word * 4 + packed / 2 % 2 * 2 + packed % 2;
    assert word == word / 0x2000 * 0x2000 + word % 0x2000;
    assert packed / 0x8000 == word / 0x2000 < 0x800;
  }

  /**
    * Exactly the encodable fragments encode, and parsing the wire form, whatever follows it, gives the fragment back.
    */
  lemma ParseOfEncode(f: Fragment, endian: Endian, tail: seq<Byte>)
    ensures Encode(f, endian).Ok? <==> Encodable(f)
    ensures Encodable(f) ==> Parse(Encode(f, endian).value + tail, endian) == Ok(f)
  {
    if Encodable(f) {
      var input := Encode(f, endian).value + tail;
      assert input[..4] == IdBytes(f.id, endian);
      assert input[4..8] == Little32(Packed(f));
      assert input[PREFIX_LEN..PREFIX_LEN + |f.data|] == f.data;
      RoundTrip32(f.id);
      RoundTrip32(Packed(f));
      UnpackPacked(f);
    }
  }

  /**
    * The wire form: the id in its byte order, then a little-endian word with the EOP mark in bit 0, the direction
    * in bit 1, the offset from bit 2 and the length from bit 15 on, then the data.
    */
  lemma WirePrefix(f: Fragment, endian: Endian)
    requires Encodable(f)
    ensures var b := Encode(f, endian).value;
            && |b| == 8 + |f.data| && b[8..] == f.data
            && f.id == (if endian.Big? then Number(b[0], b[1], b[2], b[3]) else Number(b[3], b[2], b[1], b[0]))
            && Number(b[7], b[6], b[5], b[4]) ==
               (if f.endOfPacket then 1 else 0) + (if f.fromIn then 2 else 0) + 4 * f.offset as int + 0x8000 * |f.data|
  {
    WordBytes(f.id);
    WordBytes(Packed(f));
  }

  /** Whatever parses is encodable, and encoding it gives back the bytes that were read. */
  lemma EncodeOfParse(input: seq<Byte>, endian: Endian)
    requires Parse(input, endian).Ok?
    ensures var f := Parse(input, endian).value;
            Encodable(f) && Encode(f, endian) == Ok(input[..PREFIX_LEN + |f.data|])
  {
    var f := Parse(input, endian).value;
    var packed := FromLittle32(input[4..8]);
    PackUnpacked(packed);
    assert packed == Packed(f);
    var read := input[..PREFIX_LEN + |f.data|];
    assert read == input[..4] + input[4..8] + f.data;
  }
}
