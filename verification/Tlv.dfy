/** The type-length-value attributes of control packets. */
module Tlv {
  import opened Wrappers
  import opened Bytes

  datatype Kind =
    | Username | Password | Mtu | Ip | Dns | Gateway | Netmask | Encrypt | DupPacket | Link | AuthVerify | ErrorMessage

  function Code(k: Kind): Byte {
    match k
    case Username => 0x01
    case Password => 0x02
    case Mtu => 0x03
    case Ip => 0x04
    case Dns => 0x05
    case Gateway => 0x06
    case Netmask => 0x07
    case Encrypt => 0x08
    case DupPacket => 0x09
    case Link => 0x0a
    case AuthVerify => 0x0f
    case ErrorMessage => 0x10
  }

  const ALL_KINDS: seq<Kind> :=
    [Username, Password, Mtu, Ip, Dns, Gateway, Netmask, Encrypt, DupPacket, Link, AuthVerify, ErrorMessage]

  /** The first kind of the list with this code. */
  function FindKind(code: Byte, kinds: seq<Kind>): (r: Option<Kind>)
    ensures r.Some? ==> Code(r.value) == code
    ensures r.None? ==> forall k <- kinds :: Code(k) != code
  {
    if kinds == [] then None
    else if Code(kinds[0]) == code then Some(kinds[0])
    else FindKind(code, kinds[1..])
  }

  lemma KindRoundTrip(k: Kind)
    ensures FindKind(Code(k), ALL_KINDS) == Some(k)
  {
    var place := match k
                 case Username => 0 case Password => 1 case Mtu => 2 case Ip => 3 case Dns => 4 case Gateway => 5
                 case Netmask => 6 case Encrypt => 7 case DupPacket => 8 case Link => 9
                 case AuthVerify => 10 case ErrorMessage => 11;
    assert ALL_KINDS[place] == k;
    var found := FindKind(Code(k), ALL_KINDS);
    assert found.Some?;
    SameCode(found.value, k);
  }

  lemma SameCode(j: Kind, k: Kind)
    requires Code(j) == Code(k)
    ensures j == k
  {
  }

  /** The codes, kind by kind: 1 to 10, then 15 and 16. */
  lemma Registry(i: nat)
    requires i < |ALL_KINDS|
    ensures |ALL_KINDS| == 12 && Code(ALL_KINDS[i]) == if i < 10 then i + 1 else i + 5
  {
  }

  datatype Attribute = Attribute(kind: Kind, value: seq<Byte>)

  datatype Error =
    | TooLarge | UnknownType(offset: nat) | BadLength(offset: nat) | Truncated(offset: nat) | TrailingBytes(offset: nat)

  predicate Encodable(t: Attribute) {
    |t.value| + 2 <= 0xff
  }

  function Encode(t: Attribute): Result<seq<Byte>, Error> {
    if !Encodable(t) then Err(TooLarge) else Ok([Code(t.kind), |t.value| + 2] + t.value)
  }

  /** The concatenated encodings. */
  function EncodeAll(ts: seq<Attribute>): seq<Byte>
    requires forall t <- ts :: Encodable(t)
  {
    if ts == [] then [] else Encode(ts[0]).value + EncodeAll(ts[1..])
  }

  /** The attribute at the front of at least three bytes. */
  function ParseOne(input: seq<Byte>, offset: nat): (r: Result<Attribute, Error>)
    requires |input| >= 3
    ensures r.Ok? ==> |r.value.value| + 2 <= |input|
  {
    if FindKind(input[0], ALL_KINDS).None? then Err(UnknownType(offset))
    else if input[1] < 2 then Err(BadLength(offset))
    else if input[1] > |input| then Err(Truncated(offset))
    else Ok(Attribute(FindKind(input[0], ALL_KINDS).value, input[2..input[1]]))
  }

  function Prefixed(done: seq<Attribute>, r: Result<seq<Attribute>, Error>): Result<seq<Attribute>, Error> {
    match r
    case Err(e) => Err(e)
    case Ok(rest) => Ok(done + rest)
  }

  /** Parsing `input` that starts `offset` bytes into the packet; fewer than three bytes end it. */
  function ParseFrom(input: seq<Byte>, offset: nat): Result<seq<Attribute>, Error>
    decreases |input|
  {
    if |input| < 3 then Ok([]) else
      match ParseOne(input, offset)
      case Err(e) => Err(e)
      case Ok(t) =>
        var length := |t.value| + 2;
        Prefixed([t], ParseFrom(input[length..], offset + length))
  }

  /** The loop that reads attributes while at least three bytes remain. */
  method ParseAll(input: seq<Byte>) returns (r: Result<seq<Attribute>, Error>)
    ensures r == ParseFrom(input, 0)
  {
    var attributes: seq<Attribute> := [];
    var offset := 0;
    ReadStart(input);
    while |input| - offset >= 3
      invariant 0 <= offset <= |input| && Read(input, attributes, offset)
      decreases |input| - offset
    {
      ReadNext(input, attributes, offset);
      var kind := FindKind(input[offset], ALL_KINDS);
      if kind.None? { return Err(UnknownType(offset)); }
      var length := input[offset + 1];
      if length < 2 { return Err(BadLength(offset)); }
      if offset + length > |input| { return Err(Truncated(offset)); }
      attributes := attributes + [Attribute(kind.value, input[offset + 2..offset + length])];
      offset := offset + length;
    }
    ReadEnd(input, attributes, offset);
    return Ok(attributes);
  }

  /** These attributes stand before the offset, and the rest of the answer is that of what follows. */
  ghost predicate Read(input: seq<Byte>, attributes: seq<Attribute>, offset: nat)
    requires offset <= |input|
  {
    ParseFrom(input, 0) == Prefixed(attributes, ParseFrom(input[offset..], offset))
  }

  lemma ReadStart(input: seq<Byte>)
    ensures Read(input, [], 0)
  {
    assert input[0..] == input;
    PrefixedOnce([], [], ParseFrom(input, 0));
  }

  lemma ReadEnd(input: seq<Byte>, attributes: seq<Attribute>, offset: nat)
    requires offset <= |input| < offset + 3 && Read(input, attributes, offset)
    ensures ParseFrom(input, 0) == Ok(attributes)
  {
    assert attributes + [] == attributes;
  }

  lemma ReadNext(input: seq<Byte>, attributes: seq<Attribute>, offset: nat)
    requires offset + 3 <= |input| && Read(input, attributes, offset)
    ensures var kind, length := FindKind(input[offset], ALL_KINDS), input[offset + 1];
            if kind.None? then ParseFrom(input, 0) == Err(UnknownType(offset))
            else if length < 2 then ParseFrom(input, 0) == Err(BadLength(offset))
            else if offset + length > |input| then ParseFrom(input, 0) == Err(Truncated(offset))
            else Read(input, attributes + [Attribute(kind.value, input[offset + 2..offset + length])], offset + length)
  {
    var kind, length := FindKind(input[offset], ALL_KINDS), input[offset + 1];
    ParseFromAt(input, offset);
    if kind.Some? && 2 <= length && offset + length <= |input| {
      var attribute := Attribute(kind.value, input[offset + 2..offset + length]);
      PrefixedOnce(attributes, [attribute], ParseFrom(input[offset + length..], offset + length));
    }
  }

  /** One step of the loop, seen from the whole input. */
  lemma ParseFromAt(input: seq<Byte>, offset: nat)
    requires offset + 3 <= |input|
    ensures var kind, length := FindKind(input[offset], ALL_KINDS), input[offset + 1];
            ParseFrom(input[offset..], offset) ==
            if kind.None? then Err(UnknownType(offset))
            else if length < 2 then Err(BadLength(offset))
            else if offset + length > |input| then Err(Truncated(offset))
            else Prefixed([Attribute(kind.value, input[offset + 2..offset + length])],
                          ParseFrom(input[offset + length..], offset + length))
  {
    var rest, length := input[offset..], input[offset + 1];
    if 2 <= length && offset + length <= |input| {
      assert rest[2..length] == input[offset + 2..offset + length] && rest[length..] == input[offset + length..];
    }
  }

  lemma PrefixedOnce(done: seq<Attribute>, next: seq<Attribute>, r: Result<seq<Attribute>, Error>)
    ensures Prefixed(done, Prefixed(next, r)) == Prefixed(done + next, r)
    ensures Prefixed([], r) == r
  {
    if r.Ok? {
      assert done + (next + r.value) == (done + next) + r.value;
      assert [] + r.value == r.value;
    }
  }

  lemma ParseOneEncoded(t: Attribute, rest: seq<Byte>, offset: nat)
    requires Encodable(t) && |t.value| + |rest| > 0
    ensures ParseOne(Encode(t).value + rest, offset) == Ok(t)
  {
    var input := Encode(t).value + rest;
    KindRoundTrip(t.kind);
    assert input[2..input[1]] == t.value;
  }

  lemma ParseStep(t: Attribute, rest: seq<Byte>, offset: nat)
    requires Encodable(t) && |t.value| + |rest| > 0
    ensures ParseFrom(Encode(t).value + rest, offset) == Prefixed([t], ParseFrom(rest, offset + |t.value| + 2))
  {
    ParseOneEncoded(t, rest, offset);
    assert (Encode(t).value + rest)[|t.value| + 2..] == rest;
  }

  /** Which attributes are refused, and with which error. */
  lemma RefusedOne(input: seq<Byte>, offset: nat)
    requires |input| >= 3
    ensures ParseOne(input, offset) == Err(UnknownType(offset)) <==> !(1 <= input[0] <= 10 || 15 <= input[0] <= 16)
    ensures ParseOne(input, offset) == Err(BadLength(offset)) <==>
            (1 <= input[0] <= 10 || 15 <= input[0] <= 16) && input[1] < 2
    ensures ParseOne(input, offset) == Err(Truncated(offset)) <==>
            (1 <= input[0] <= 10 || 15 <= input[0] <= 16) && 2 <= input[1] && |input| < input[1]
  {
    KnownCode(input[0]);
  }

  lemma KnownCode(code: Byte)
    ensures FindKind(code, ALL_KINDS).Some? <==> 1 <= code <= 10 || 15 <= code <= 16
  {
    if 1 <= code <= 10 || 15 <= code <= 16 {
      var i := if code <= 10 then code - 1 else code - 5;
      Registry(i);
      assert ALL_KINDS[i] in ALL_KINDS;
    }
  }

  lemma EncodeParsedOne(input: seq<Byte>, offset: nat)
    requires |input| >= 3 && ParseOne(input, offset).Ok?
    ensures var t := ParseOne(input, offset).value;
            Encodable(t) && Encode(t) == Ok(input[..|t.value| + 2])
  {
    var t := ParseOne(input, offset).value;
    assert input[..|t.value| + 2] == [input[0], input[1]] + input[2..|t.value| + 2];
  }

  /** What parsing keeps of a list: all of it, unless the last value is empty, when that one is dropped. */
  function Kept(ts: seq<Attribute>): seq<Attribute> {
    if ts != [] && ts[|ts| - 1].value == [] then ts[..|ts| - 1] else ts
  }

  lemma {:induction false} EncodedLength(ts: seq<Attribute>)
    requires forall t <- ts :: Encodable(t)
    ensures |EncodeAll(ts)| >= 2 * |ts|
  {
    if ts != [] {
      EncodedLength(ts[1..]);
    }
  }

  /**
    * Parsing the concatenated encodings gives the list back, except that exactly one final empty attribute is dropped.
    */
  lemma {:induction false} ParseOfEncodeAll(ts: seq<Attribute>, offset: nat)
    requires forall t <- ts :: Encodable(t)
    ensures ParseFrom(EncodeAll(ts), offset) == Ok(Kept(ts))
  {
    if ts != [] {
      var rest, length := EncodeAll(ts[1..]), |ts[0].value| + 2;
      if |ts| == 1 && ts[0].value == [] {
        LoneEmpty(ts, offset);
      } else {
        ParseOfEncodeAll(ts[1..], offset + length);
        ParseMore(ts, rest, offset);
      }
    }
  }

  lemma ParseMore(ts: seq<Attribute>, rest: seq<Byte>, offset: nat)
    requires (forall t <- ts :: Encodable(t)) && ts != [] && (|ts| > 1 || ts[0].value != [])
    requires rest == EncodeAll(ts[1..]) && ParseFrom(rest, offset + |ts[0].value| + 2) == Ok(Kept(ts[1..]))
    ensures ParseFrom(EncodeAll(ts), offset) == Ok(Kept(ts))
  {
    RestNotEmpty(ts);
    ParseThen(ts[0], rest, offset, Kept(ts[1..]));
    KeptOfRest(ts);
    assert EncodeAll(ts) == Encode(ts[0]).value + rest;
  }

  lemma RestNotEmpty(ts: seq<Attribute>)
    requires (forall t <- ts :: Encodable(t)) && ts != [] && (|ts| > 1 || ts[0].value != [])
    ensures Encodable(ts[0]) && |ts[0].value| + |EncodeAll(ts[1..])| > 0
  {
    assert ts[0] in ts;
    EncodedLength(ts[1..]);
  }

  lemma ParseThen(t: Attribute, rest: seq<Byte>, offset: nat, kept: seq<Attribute>)
    requires Encodable(t) && |t.value| + |rest| > 0 && ParseFrom(rest, offset + |t.value| + 2) == Ok(kept)
    ensures ParseFrom(Encode(t).value + rest, offset) == Ok([t] + kept)
  {
    ParseStep(t, rest, offset);
  }

  lemma LoneEmpty(ts: seq<Attribute>, offset: nat)
    requires |ts| == 1 && ts[0].value == [] && forall t <- ts :: Encodable(t)
    ensures ParseFrom(EncodeAll(ts), offset) == Ok([]) && Kept(ts) == []
  {
    assert EncodeAll(ts[1..]) == [];
    assert |EncodeAll(ts)| == 2;
  }

  lemma KeptOfRest(ts: seq<Attribute>)
    requires ts != [] && (|ts| > 1 || ts[0].value != [])
    ensures [ts[0]] + Kept(ts[1..]) == Kept(ts)
  {
  }

  function TotalLength(ts: seq<Attribute>): nat {
    if ts == [] then 0 else |ts[0].value| + 2 + TotalLength(ts[1..])
  }

  function ParseComplete(input: seq<Byte>): Result<seq<Attribute>, Error> {
    match ParseFrom(input, 0)
    case Err(e) => Err(e)
    case Ok(ts) => if TotalLength(ts) != |input| then Err(TrailingBytes(TotalLength(ts))) else Ok(ts)
  }

  /** What was parsed encodes to the bytes read, and at most two bytes were left over. */
  lemma {:induction false} EncodeOfParsed(input: seq<Byte>, offset: nat)
    requires ParseFrom(input, offset).Ok?
    ensures var ts := ParseFrom(input, offset).value;
            && (forall t <- ts :: Encodable(t))
            && TotalLength(ts) == |EncodeAll(ts)| <= |input| < |EncodeAll(ts)| + 3
            && input[..|EncodeAll(ts)|] == EncodeAll(ts)
    decreases |input|
  {
    if |input| >= 3 {
      EncodeParsedOne(input, offset);
      var t := ParseOne(input, offset).value;
      var length := |t.value| + 2;
      EncodeOfParsed(input[length..], offset + length);
      var ts, rest := ParseFrom(input, offset).value, ParseFrom(input[length..], offset + length).value;
      assert ts == [t] + rest && ts[1..] == rest;
      SplitRead(input, length, |EncodeAll(rest)|);
    }
  }

  lemma SplitRead(input: seq<Byte>, length: nat, more: nat)
    requires length + more <= |input|
    ensures input[..length + more] == input[..length] + input[length..][..more]
  {
  }

  /** The strict parser accepts exactly encodings of lists whose last value is not empty, and returns that list. */
  lemma StrictRoundTrip(input: seq<Byte>)
    ensures ParseComplete(input).Ok? ==>
              && (forall t <- ParseComplete(input).value :: Encodable(t))
              && EncodeAll(ParseComplete(input).value) == input
              && Kept(ParseComplete(input).value) == ParseComplete(input).value
  {
    if ParseComplete(input).Ok? {
      EncodeOfParsed(input, 0);
      var ts := ParseComplete(input).value;
      assert input[..|input|] == input;
      ParseOfEncodeAll(ts, 0);
    }
  }

  lemma StrictAccepts(ts: seq<Attribute>)
    requires forall t <- ts :: Encodable(t)
    ensures ParseComplete(EncodeAll(ts)) == Ok(ts) <==> Kept(ts) == ts
    ensures Kept(ts) != ts ==> ParseComplete(EncodeAll(ts)).Err?
  {
    ParseOfEncodeAll(ts, 0);
    EncodeOfParsed(EncodeAll(ts), 0);
    if Kept(ts) != ts {
      DroppedLength(ts);
    }
  }

  lemma {:induction false} DroppedLength(ts: seq<Attribute>)
    requires ts != [] && forall t <- ts :: Encodable(t)
    ensures forall t <- ts[..|ts| - 1] :: Encodable(t)
    ensures |EncodeAll(ts[..|ts| - 1])| < |EncodeAll(ts)|
  {
    if |ts| > 1 {
      DroppedLength(ts[1..]);
      assert ts[..|ts| - 1][1..] == ts[1..][..|ts| - 2];
    }
  }
}
