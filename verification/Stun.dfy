/**
Parsing of a STUN binding response: the message layout of RFC 5389 sections 6, 15,
15.1 and 15.2. `ParseBindingResponse` is the client's loop over the attribute
bytes; `Response` and `Attr` are the messages a server may send.
*/
module Stun {
  import opened Machine
  import opened Bytes

  const BINDING_RESPONSE: u16 := 0x0101
  const BINDING_ERROR_RESPONSE: u16 := 0x0111
  const ATTR_MAPPED_ADDRESS: u16 := 0x0001
  const ATTR_XOR_MAPPED_ADDRESS: u16 := 0x0020
  const MAGIC_COOKIE: u32 := 0x2112A442
  const HEADER_SIZE: nat := 20

  datatype StunError = TooShort | BadCookie | TransactionMismatch | ErrorResponse | UnexpectedType(t: u16) | Truncated | NoMappedAddress

  datatype StunResult = Ok(value: Endpoint) | Err(error: StunError)

  // ---- Address attributes ----

  /** `MAGIC_COOKIE >> 16`. */
  const COOKIE_HIGH: u16 := 0x2112

  function Xor8(a: byte, b: byte): byte {
    XorFits(a, b, 8);
    BitXor(a, b)
  }

  function Xor16(a: u16, b: u16): u16 {
    XorFits(a, b, 16);
    BitXor(a, b)
  }

  function Xor32(a: u32, b: u32): u32 {
    XorFits(a, b, 32);
    BitXor(a, b)
  }

  function XorBytes(a: seq<byte>, key: seq<byte>): (r: seq<byte>)
    requires |a| <= |key|
    ensures |r| == |a|
  {
    seq(|a|, i requires 0 <= i < |a| => Xor8(a[i], key[i]))
  }

  lemma {:induction false} XorFits(a: nat, b: nat, k: nat)
    requires k == 8 || k == 16 || k == 32
    requires a < (if k == 8 then 0x100 else if k == 16 then 0x1_0000 else U32_MODULUS)
    requires b < (if k == 8 then 0x100 else if k == 16 then 0x1_0000 else U32_MODULUS)
    ensures BitXor(a, b) < if k == 8 then 0x100 else if k == 16 then 0x1_0000 else U32_MODULUS
  {
    assert Pow2(8) == 0x100;
    Pow2Divides(8, 16);
    Pow2Is32Bits();
    XorBound(a, b, k);
  }

  function ParseMappedAddress(data: seq<byte>): Option<Endpoint> {
    if |data| < 8 then None
    else
      var port := FromU16(data[2], data[3]);
      if data[1] == 1 then Some(Endpoint(V4(FromU32(data[4], data[5], data[6], data[7])), port))
      else if data[1] == 2 && |data| >= 20 then Some(Endpoint(V6(data[4..20]), port))
      else None
  }

  function ParseXorMappedAddress(data: seq<byte>, key: seq<byte>): Option<Endpoint> {
    if |data| < 8 || |key| < 16 then None
    else
      var port := Xor16(FromU16(data[2], data[3]), COOKIE_HIGH);
      if data[1] == 1 then Some(Endpoint(V4(Xor32(FromU32(data[4], data[5], data[6], data[7]), MAGIC_COOKIE)), port))
      else if data[1] == 2 && |data| >= 20 then Some(Endpoint(V6(XorBytes(data[4..20], key)), port))
      else None
  }

  /** The value of a MAPPED-ADDRESS attribute (section 15.1). */
  function MappedAddress(reserved: byte, e: Endpoint): seq<byte>
    requires e.ip.Valid()
  {
    match e.ip
    case V4(ip) => [reserved, 1] + U16(e.port) + U32(ip)
    case V6(octets) => [reserved, 2] + U16(e.port) + octets
  }

  /** The value of an XOR-MAPPED-ADDRESS attribute (section 15.2); `key` is the cookie and the transaction id. */
  function XorMappedAddress(reserved: byte, e: Endpoint, key: seq<byte>): seq<byte>
    requires e.ip.Valid() && |key| == 16
  {
    match e.ip
    case V4(ip) => [reserved, 1] + U16(Xor16(e.port, COOKIE_HIGH)) + U32(Xor32(ip, MAGIC_COOKIE))
    case V6(octets) => [reserved, 2] + U16(Xor16(e.port, COOKIE_HIGH)) + XorBytes(octets, key)
  }

  lemma {:induction false} MappedRoundTrip(reserved: byte, e: Endpoint)
    requires e.ip.Valid()
    ensures ParseMappedAddress(MappedAddress(reserved, e)) == Some(e)
  {
    U16RoundTrip(e.port);
    var data := MappedAddress(reserved, e);
    match e.ip
    case V4(ip) => U32RoundTrip(ip);
    case V6(octets) => assert data[4..20] == octets;
  }

  lemma {:induction false} XorBytesTwice(a: seq<byte>, key: seq<byte>)
    requires |a| <= |key|
    ensures XorBytes(XorBytes(a, key), key) == a
  {
    forall i | 0 <= i < |a|
      ensures XorBytes(XorBytes(a, key), key)[i] == a[i]
    {
      XorInvolution(a[i], key[i]);
    }
  }

  lemma {:induction false} XorRoundTrip(reserved: byte, e: Endpoint, key: seq<byte>)
    requires e.ip.Valid() && |key| == 16
    ensures ParseXorMappedAddress(XorMappedAddress(reserved, e, key), key) == Some(e)
  {
    var data := XorMappedAddress(reserved, e, key);
    U16RoundTrip(Xor16(e.port, COOKIE_HIGH));
    XorInvolution(e.port, COOKIE_HIGH);
    match e.ip
    case V4(ip) =>
      U32RoundTrip(Xor32(ip, MAGIC_COOKIE));
      XorInvolution(ip, MAGIC_COOKIE);
    case V6(octets) =>
      assert data[4..20] == XorBytes(octets, key);
      XorBytesTwice(octets, key);
  }

  /** What a plain address is, byte by byte. */
  lemma {:induction false} MappedBytes(v: seq<byte>)
    ensures |v| >= 8 && v[1] == 1 ==>
      ParseMappedAddress(v) == Some(Endpoint(V4(Four(v[4], v[5], v[6], v[7])), Two(v[2], v[3])))
    ensures |v| >= 20 && v[1] == 2 ==> ParseMappedAddress(v) == Some(Endpoint(V6(v[4..20]), Two(v[2], v[3])))
    ensures ParseMappedAddress(v).None? <==> |v| < 8 || (v[1] != 1 && v[1] != 2) || (v[1] == 2 && |v| < 20)
  {
  }

  /** A hidden IPv4 address: the port is combined with 0x2112 and the address with 0x2112A442. */
  lemma {:induction false} XorMappedBytes4(v: seq<byte>, key: seq<byte>, ip: u32, port: u16)
    requires |v| >= 8 && |key| == 16 && v[1] == 1 && ip == Four(v[4], v[5], v[6], v[7]) && port == Two(v[2], v[3])
    ensures ParseXorMappedAddress(v, key) == Some(Endpoint(V4(Xor32(ip, 0x2112_A442)), Xor16(port, 0x2112)))
  {
    assert FromU32(v[4], v[5], v[6], v[7]) == ip && FromU16(v[2], v[3]) == port;
  }

  /** A hidden IPv6 address is combined with the key, byte by byte. */
  lemma {:induction false} XorMappedBytes6(v: seq<byte>, key: seq<byte>, port: u16)
    requires |v| >= 20 && |key| == 16 && v[1] == 2 && port == Two(v[2], v[3])
    ensures ParseXorMappedAddress(v, key).Some?
    ensures var e := ParseXorMappedAddress(v, key).value;
      && e.port == Xor16(port, 0x2112) && e.ip.V6? && |e.ip.octets| == 16
      && forall i :: 0 <= i < 16 ==> e.ip.octets[i] == Xor8(v[4 + i], key[i])
  {
    assert FromU16(v[2], v[3]) == port;
  }

  lemma {:induction false} XorMappedRejects(v: seq<byte>, key: seq<byte>)
    requires |key| == 16
    ensures ParseXorMappedAddress(v, key).None? <==> |v| < 8 || (v[1] != 1 && v[1] != 2) || (v[1] == 2 && |v| < 20)
  {
  }

  // ---- The attribute walk ----

  /** What one attribute says about the mapped address. */
  function Decode(attrType: u16, value: seq<byte>, key: seq<byte>): Option<Endpoint> {
    if attrType == ATTR_XOR_MAPPED_ADDRESS then ParseXorMappedAddress(value, key)
    else if attrType == ATTR_MAPPED_ADDRESS then ParseMappedAddress(value)
    else None
  }

  type Decoder = (u16, seq<byte>) -> Option<Endpoint>

  function AddressDecoder(key: seq<byte>): Decoder {
    (attrType: u16, value: seq<byte>) => Decode(attrType, value, key)
  }

  /** `(len + 3) & !3`. */
  function Padded(len: nat): nat { (len + 3) / 4 * 4 }

  /** The first address found walking the attributes of `data` from `offset` to `end`. */
  function Walk(data: seq<byte>, offset: nat, end: nat, decode: Decoder): Option<Endpoint>
    requires end <= |data|
    decreases end - offset
  {
    if offset + 4 > end then None
    else
      var attrType := FromU16(data[offset], data[offset + 1]);
      var len := FromU16(data[offset + 2], data[offset + 3]);
      var body := offset + 4;
      if body + len > end then None
      else match decode(attrType, data[body..body + len])
        case Some(e) => Some(e)
        case None => Walk(data, body + Padded(len), end, decode)
  }

  function Outcome(data: seq<byte>, transaction: seq<byte>): StunResult {
    if |data| < HEADER_SIZE then Err(TooShort)
    else if FromU32(data[4], data[5], data[6], data[7]) != MAGIC_COOKIE then Err(BadCookie)
    else if data[8..20] != transaction then Err(TransactionMismatch)
    else
      var t := FromU16(data[0], data[1]);
      var end := HEADER_SIZE + FromU16(data[2], data[3]);
      if t == BINDING_ERROR_RESPONSE then Err(ErrorResponse)
      else if t != BINDING_RESPONSE then Err(UnexpectedType(t))
      else if |data| < end then Err(Truncated)
      else match Walk(data, HEADER_SIZE, end, AddressDecoder(data[4..20]))
        case Some(e) => Ok(e)
        case None => Err(NoMappedAddress)
  }

  /** The client's checks, in order, and then its loop. */
  method ParseBindingResponse(data: seq<byte>, transaction: seq<byte>) returns (r: StunResult)
    ensures r == Outcome(data, transaction)
  {
    if |data| < HEADER_SIZE {
      return Err(TooShort);
    }
    var msgType := FromU16(data[0], data[1]);
    var msgLen := FromU16(data[2], data[3]);
    var magic := FromU32(data[4], data[5], data[6], data[7]);
    if magic != MAGIC_COOKIE {
      return Err(BadCookie);
    }
    if data[8..20] != transaction {
      return Err(TransactionMismatch);
    }
    if msgType == BINDING_ERROR_RESPONSE {
      return Err(ErrorResponse);
    } else if msgType != BINDING_RESPONSE {
      return Err(UnexpectedType(msgType));
    }
    var attrsEnd := HEADER_SIZE + msgLen;
    if |data| < attrsEnd {
      return Err(Truncated);
    }
    var found := WalkAttributes(data, attrsEnd, AddressDecoder(data[4..20]));
    r := if found.Some? then Ok(found.value) else Err(NoMappedAddress);
  }

  /** The loop over the attributes. It stays in bounds and ends on every input. */
  method WalkAttributes(data: seq<byte>, attrsEnd: nat, decode: Decoder) returns (found: Option<Endpoint>)
    requires attrsEnd <= |data|
    ensures found == Walk(data, HEADER_SIZE, attrsEnd, decode)
  {
    var offset := HEADER_SIZE;
    while offset + 4 <= attrsEnd
      invariant Walk(data, HEADER_SIZE, attrsEnd, decode) == Walk(data, offset, attrsEnd, decode)
      decreases attrsEnd - offset
    {
      var attrType := FromU16(data[offset], data[offset + 1]);
      var attrLen := FromU16(data[offset + 2], data[offset + 3]);
      offset := offset + 4;
      if offset + attrLen > attrsEnd {
        return None;
      }
      found := decode(attrType, data[offset..offset + attrLen]);
      if found.Some? {
        return;
      }
      offset := offset + Padded(attrLen);
    }
    found := None;
  }

  // ---- Every outcome, in bytes ----

  /** The answer to this request: long enough, with the cookie 21 12 A4 42 and the transaction id. */
  predicate Answers(data: seq<byte>, transaction: seq<byte>) {
    |data| >= 20 && data[4..8] == [0x21, 0x12, 0xA4, 0x42] && data[8..20] == transaction
  }

  /** The length of the attribute at `o`. */
  function LengthAt(data: seq<byte>, o: nat): nat
    requires o + 4 <= |data|
  {
    Two(data[o + 2], data[o + 3])
  }

  /** Where the next attribute starts: values are padded to a multiple of four bytes. */
  function After(data: seq<byte>, o: nat): nat
    requires o + 4 <= |data|
  {
    o + 4 + (LengthAt(data, o) + 3) / 4 * 4
  }

  /** The address in the attribute at `o`, if it is of type 0x0020 or 0x0001 and decodes. */
  function AddressAt(data: seq<byte>, o: nat): Option<Endpoint>
    requires 20 <= |data| && o + 4 <= |data| && o + 4 + LengthAt(data, o) <= |data|
  {
    var value := data[o + 4..o + 4 + LengthAt(data, o)];
    if data[o..o + 2] == [0x00, 0x20] then ParseXorMappedAddress(value, data[4..20])
    else if data[o..o + 2] == [0x00, 0x01] then ParseMappedAddress(value)
    else None
  }

  ghost predicate Fits(data: seq<byte>, end: nat, o: nat)
    requires end <= |data|
  {
    o + 4 <= end && o + 4 + LengthAt(data, o) <= end
  }

  /** `path` lists attributes that follow one another from `start`, each inside `end`. */
  ghost predicate Follow(data: seq<byte>, start: nat, end: nat, path: seq<nat>)
    requires end <= |data|
  {
    && path != [] && path[0] == start
    && (forall i :: 0 <= i < |path| ==> Fits(data, end, path[i]))
    && (forall i :: 0 < i < |path| ==> path[i] == After(data, path[i - 1]))
  }

  /** The last attribute of `path` is the first that carries an address, and that address is `e`. */
  ghost predicate FirstFound(data: seq<byte>, start: nat, end: nat, path: seq<nat>, e: Endpoint)
    requires 20 <= |data| && end <= |data|
  {
    && Follow(data, start, end, path)
    && (forall i :: 0 <= i < |path| - 1 ==> AddressAt(data, path[i]).None?)
    && AddressAt(data, path[|path| - 1]) == Some(e)
  }

  lemma {:induction false} DecodesAt(data: seq<byte>, end: nat, o: nat)
    requires 20 <= |data| && end <= |data| && Fits(data, end, o)
    ensures var decode := AddressDecoder(data[4..20]);
      && LengthAt(data, o) == FromU16(data[o + 2], data[o + 3])
      && decode(FromU16(data[o], data[o + 1]), data[o + 4..o + 4 + LengthAt(data, o)]) == AddressAt(data, o)
  {
    U16Inverse(data[o], data[o + 1]);
    assert data[o..o + 2] == [data[o], data[o + 1]];
    assert U16(0x0020) == [0x00, 0x20] && U16(0x0001) == [0x00, 0x01];
  }

  /** One attribute of the walk. */
  lemma {:induction false} WalkOn(data: seq<byte>, start: nat, end: nat)
    requires 20 <= |data| && end <= |data|
    ensures var walk := Walk(data, start, end, AddressDecoder(data[4..20]));
      walk == if !Fits(data, end, start) then None
              else if AddressAt(data, start).Some? then AddressAt(data, start)
              else Walk(data, After(data, start), end, AddressDecoder(data[4..20]))
  {
    if Fits(data, end, start) { DecodesAt(data, end, start); }
  }

  /** The walk finds an address if and only if there is a path to it. */
  lemma {:induction false} WalkFinds(data: seq<byte>, start: nat, end: nat) returns (path: seq<nat>)
    requires 20 <= |data| && end <= |data| && Walk(data, start, end, AddressDecoder(data[4..20])).Some?
    ensures FirstFound(data, start, end, path, Walk(data, start, end, AddressDecoder(data[4..20])).value)
    decreases end - start
  {
    WalkOn(data, start, end);
    if AddressAt(data, start).Some? {
      path := [start];
    } else {
      var rest := WalkFinds(data, After(data, start), end);
      path := [start] + rest;
      LongerPath(data, start, end, rest, Walk(data, After(data, start), end, AddressDecoder(data[4..20])).value);
    }
  }

  /** An attribute without an address in front of a path. */
  lemma {:induction false} LongerPath(data: seq<byte>, start: nat, end: nat, rest: seq<nat>, e: Endpoint)
    requires 20 <= |data| && end <= |data| && Fits(data, end, start) && AddressAt(data, start).None?
    requires FirstFound(data, After(data, start), end, rest, e)
    ensures FirstFound(data, start, end, [start] + rest, e)
  {
    var path := [start] + rest;
    assert forall i :: 1 <= i < |path| ==> path[i] == rest[i - 1];
    assert Fits(data, end, path[0]);
  }

  lemma {:induction false} ShorterPath(data: seq<byte>, start: nat, end: nat, path: seq<nat>, e: Endpoint)
    requires 20 <= |data| && end <= |data| && FirstFound(data, start, end, path, e) && |path| > 1
    ensures Fits(data, end, start) && AddressAt(data, start).None?
    ensures FirstFound(data, After(data, start), end, path[1..], e)
  {
    var rest := path[1..];
    assert forall i :: 0 <= i < |rest| ==> rest[i] == path[i + 1];
    assert Fits(data, end, path[0]) && path[1] == After(data, path[0]);
  }

  lemma {:induction false} PathFound(data: seq<byte>, start: nat, end: nat, path: seq<nat>, e: Endpoint)
    requires 20 <= |data| && end <= |data| && FirstFound(data, start, end, path, e)
    ensures Walk(data, start, end, AddressDecoder(data[4..20])) == Some(e)
    decreases |path|
  {
    if |path| > 1 {
      ShorterPath(data, start, end, path, e);
      PathFound(data, After(data, start), end, path[1..], e);
    } else {
      assert Fits(data, end, path[0]);
    }
    WalkOn(data, start, end);
  }

  lemma {:induction false} HeaderBytes(data: seq<byte>)
    requires |data| >= 20
    ensures FromU32(data[4], data[5], data[6], data[7]) == MAGIC_COOKIE <==> data[4..8] == [0x21, 0x12, 0xA4, 0x42]
    ensures FromU16(data[0], data[1]) == BINDING_RESPONSE <==> data[0..2] == [0x01, 0x01]
    ensures FromU16(data[0], data[1]) == BINDING_ERROR_RESPONSE <==> data[0..2] == [0x01, 0x11]
  {
    assert data[4..8] == [data[4], data[5], data[6], data[7]] && data[0..2] == [data[0], data[1]];
    CookieBytes(data[4], data[5], data[6], data[7]);
    TypeBytes(data[0], data[1]);
  }

  lemma {:induction false} CookieBytes(a: byte, b: byte, c: byte, d: byte)
    ensures FromU32(a, b, c, d) == MAGIC_COOKIE <==> [a, b, c, d] == [0x21, 0x12, 0xA4, 0x42]
  {
    assert FromU32(a, b, c, d) == MAGIC_COOKIE <==> a == 0x21 && b == 0x12 && c == 0xA4 && d == 0x42;
  }

  lemma {:induction false} TypeBytes(a: byte, b: byte)
    ensures FromU16(a, b) == BINDING_RESPONSE <==> [a, b] == [0x01, 0x01]
    ensures FromU16(a, b) == BINDING_ERROR_RESPONSE <==> [a, b] == [0x01, 0x11]
  {
    assert FromU16(a, b) == BINDING_RESPONSE <==> a == 1 && b == 1;
    assert FromU16(a, b) == BINDING_ERROR_RESPONSE <==> a == 1 && b == 0x11;
  }

  /** Each rejection of the header, exactly. */
  lemma {:induction false} RejectedExactly(data: seq<byte>, transaction: seq<byte>)
    ensures Outcome(data, transaction) == Err(TooShort) <==> |data| < 20
    ensures Outcome(data, transaction) == Err(BadCookie) <==> |data| >= 20 && data[4..8] != [0x21, 0x12, 0xA4, 0x42]
    ensures Outcome(data, transaction) == Err(TransactionMismatch) <==>
      |data| >= 20 && data[4..8] == [0x21, 0x12, 0xA4, 0x42] && data[8..20] != transaction
    ensures Outcome(data, transaction) == Err(ErrorResponse) <==> Answers(data, transaction) && data[0..2] == [0x01, 0x11]
    ensures Outcome(data, transaction) == Err(Truncated) <==>
      Answers(data, transaction) && data[0..2] == [0x01, 0x01] && |data| < 20 + Two(data[2], data[3])
    ensures forall t :: Outcome(data, transaction) == Err(UnexpectedType(t)) <==>
      Answers(data, transaction) && data[0..2] != [0x01, 0x01] && data[0..2] != [0x01, 0x11] && t == Two(data[0], data[1])
  {
    if |data| >= 20 { HeaderBytes(data); }
  }

  /**
   An address is returned if and only if the message is a success response to this request, its length field is
   within the data, and the address is the first one on the way from attribute to attribute.
  */
  lemma {:induction false} AcceptedExactly(data: seq<byte>, transaction: seq<byte>, e: Endpoint)
    ensures Outcome(data, transaction) == Ok(e) <==>
      && Answers(data, transaction) && data[0..2] == [0x01, 0x01]
      && var end := 20 + Two(data[2], data[3]);
         end <= |data| && exists path :: FirstFound(data, 20, end, path, e)
  {
    if |data| >= 20 {
      HeaderBytes(data);
      var end := 20 + Two(data[2], data[3]);
      if end <= |data| {
        if Walk(data, 20, end, AddressDecoder(data[4..20])) == Some(e) {
          var path := WalkFinds(data, 20, end);
        }
        forall path | FirstFound(data, 20, end, path, e)
          ensures Walk(data, 20, end, AddressDecoder(data[4..20])) == Some(e)
        {
          PathFound(data, 20, end, path, e);
        }
      }
    }
  }

  // ---- Well-formed responses ----

  /** An attribute as it is sent: `pad` fills the value up to a multiple of four bytes and may hold anything. */
  datatype Attr = Attr(attrType: u16, value: seq<byte>, pad: seq<byte>) {
    predicate Valid() { |value| < 0x1_0000 && |value| + |pad| == Padded(|value|) }

    function Encode(): seq<byte>
      requires Valid()
    {
      U16(attrType) + U16(|value|) + value + pad
    }
  }

  predicate ValidAttrs(attrs: seq<Attr>) { forall i :: 0 <= i < |attrs| ==> attrs[i].Valid() }

  function EncodeAttrs(attrs: seq<Attr>): seq<byte>
    requires ValidAttrs(attrs)
  {
    if attrs == [] then [] else attrs[0].Encode() + EncodeAttrs(attrs[1..])
  }

  function Header(len: u16, transaction: seq<byte>): seq<byte> {
    U16(BINDING_RESPONSE) + U16(len) + U32(MAGIC_COOKIE) + transaction
  }

  function Response(transaction: seq<byte>, attrs: seq<Attr>): seq<byte>
    requires ValidAttrs(attrs) && |EncodeAttrs(attrs)| < 0x1_0000
  {
    Header(|EncodeAttrs(attrs)|, transaction) + EncodeAttrs(attrs)
  }

  /** The decoding of the first attribute that is a decodable mapped or XOR-mapped address. */
  function FirstAddress(attrs: seq<Attr>, decode: Decoder): Option<Endpoint> {
    if attrs == [] then None
    else match decode(attrs[0].attrType, attrs[0].value)
      case Some(e) => Some(e)
      case None => FirstAddress(attrs[1..], decode)
  }

  /** Walking the bytes of an attribute list is going through the list. */
  lemma {:induction false} WalkEncoded(data: seq<byte>, offset: nat, end: nat, attrs: seq<Attr>, decode: Decoder)
    requires ValidAttrs(attrs) && offset <= end <= |data| && data[offset..end] == EncodeAttrs(attrs)
    ensures Walk(data, offset, end, decode) == FirstAddress(attrs, decode)
    decreases |attrs|
  {
    if attrs != [] {
      var next := HeadFields(data, offset, end, attrs);
      WalkEncoded(data, next, end, attrs[1..], decode);
      WalkStep(data, offset, end, decode, attrs[0], next);
    }
  }

  lemma {:induction false} WalkStep(data: seq<byte>, offset: nat, end: nat, decode: Decoder, a: Attr, next: nat)
    requires next == offset + 4 + Padded(|a.value|) <= end <= |data|
    requires FromU16(data[offset], data[offset + 1]) == a.attrType && FromU16(data[offset + 2], data[offset + 3]) == |a.value|
    requires data[offset + 4..offset + 4 + |a.value|] == a.value
    ensures Walk(data, offset, end, decode)
         == if decode(a.attrType, a.value).Some? then decode(a.attrType, a.value) else Walk(data, next, end, decode)
  {
  }

  /** The fields of the first attribute, read back from the middle of a message, and where the next one starts. */
  lemma {:induction false} HeadFields(data: seq<byte>, offset: nat, end: nat, attrs: seq<Attr>) returns (next: nat)
    requires ValidAttrs(attrs) && attrs != [] && offset <= end <= |data| && data[offset..end] == EncodeAttrs(attrs)
    ensures var a := attrs[0];
      && next == offset + 4 + Padded(|a.value|) <= end
      && FromU16(data[offset], data[offset + 1]) == a.attrType
      && FromU16(data[offset + 2], data[offset + 3]) == |a.value|
      && data[offset + 4..offset + 4 + |a.value|] == a.value
      && data[next..end] == EncodeAttrs(attrs[1..])
  {
    var a := attrs[0];
    var head, tail := a.Encode(), EncodeAttrs(attrs[1..]);
    var len, body := |a.value|, data[offset..end];
    U16RoundTrip(a.attrType);
    U16RoundTrip(len);
    next := offset + |head|;
    SliceOfSlice(data, offset, end, |head|, |body|);
    SliceOfSlice(data, offset, end, 4, 4 + len);
    SliceOfConcat(head, tail, 4, 4 + len);
    assert body[|head|..|body|] == tail;
    assert head[4..4 + len] == a.value;
    assert data[offset] == body[0] && data[offset + 1] == body[1] && data[offset + 2] == body[2] && data[offset + 3] == body[3];
  }

  /**
   For every well-formed response, with any attributes in any order and any bytes
   after it, the client returns the decoding of the first attribute that carries
   a decodable address, of either kind.
  */
  lemma {:induction false} ResponseParsed(transaction: seq<byte>, attrs: seq<Attr>, trailing: seq<byte>)
    requires |transaction| == 12 && ValidAttrs(attrs) && |EncodeAttrs(attrs)| < 0x1_0000
    ensures Outcome(Response(transaction, attrs) + trailing, transaction)
         == match FirstAddress(attrs, AddressDecoder(U32(MAGIC_COOKIE) + transaction))
            case Some(e) => Ok(e)
            case None => Err(NoMappedAddress)
  {
    var body := EncodeAttrs(attrs);
    var header := Header(|body|, transaction);
    var data := Response(transaction, attrs) + trailing;
    assert data == header + (body + trailing);
    HeaderFields(transaction, body + trailing, |body|);
    assert data[HEADER_SIZE..HEADER_SIZE + |body|] == body;
    var decode := AddressDecoder(U32(MAGIC_COOKIE) + transaction);
    WalkEncoded(data, HEADER_SIZE, HEADER_SIZE + |body|, attrs, decode);
    AcceptedHeader(data, transaction, Walk(data, HEADER_SIZE, HEADER_SIZE + |body|, decode));
  }

  /** With the right header the outcome is what the walk finds. */
  lemma {:induction false} AcceptedHeader(data: seq<byte>, transaction: seq<byte>, found: Option<Endpoint>)
    requires |data| >= HEADER_SIZE && FromU32(data[4], data[5], data[6], data[7]) == MAGIC_COOKIE
    requires data[8..20] == transaction && FromU16(data[0], data[1]) == BINDING_RESPONSE
    requires HEADER_SIZE + FromU16(data[2], data[3]) <= |data|
    requires found == Walk(data, HEADER_SIZE, HEADER_SIZE + FromU16(data[2], data[3]), AddressDecoder(data[4..20]))
    ensures Outcome(data, transaction) == match found case Some(e) => Ok(e) case None => Err(NoMappedAddress)
  {
  }

  lemma {:induction false} HeaderFields(transaction: seq<byte>, rest: seq<byte>, len: u16)
    requires |transaction| == 12
    ensures |Header(len, transaction)| == HEADER_SIZE
    ensures var data := Header(len, transaction) + rest;
      && FromU16(data[0], data[1]) == BINDING_RESPONSE
      && FromU16(data[2], data[3]) == len
      && FromU32(data[4], data[5], data[6], data[7]) == MAGIC_COOKIE
      && data[8..20] == transaction
      && data[4..20] == U32(MAGIC_COOKIE) + transaction
  {
    U16RoundTrip(BINDING_RESPONSE);
    U16RoundTrip(len);
    U32RoundTrip(MAGIC_COOKIE);
  }

  // ---- Which address is preferred ----

  /** An attribute of this type that carries a decodable address. */
  predicate Carries(a: Attr, attrType: u16, decode: Decoder) { a.attrType == attrType && decode(a.attrType, a.value).Some? }

  /** The place of the first attribute of a type that carries a decodable address, or the length. */
  function FirstOf(attrs: seq<Attr>, attrType: u16, decode: Decoder): (k: nat)
    ensures k <= |attrs| && (k < |attrs| ==> Carries(attrs[k], attrType, decode))
    ensures forall i :: 0 <= i < k ==> !Carries(attrs[i], attrType, decode)
  {
    if attrs == [] || Carries(attrs[0], attrType, decode) then 0 else 1 + FirstOf(attrs[1..], attrType, decode)
  }

  /** The decoder finds addresses only in the two kinds of attribute. */
  ghost predicate TwoKinds(decode: Decoder) {
    forall t, v :: decode(t, v).Some? ==> t == ATTR_XOR_MAPPED_ADDRESS || t == ATTR_MAPPED_ADDRESS
  }

  /** The first address is that of the attribute, of either kind, that comes first. */
  lemma {:induction false} FirstOfEither(attrs: seq<Attr>, decode: Decoder)
    requires TwoKinds(decode)
    ensures var k := Min(FirstOf(attrs, ATTR_XOR_MAPPED_ADDRESS, decode), FirstOf(attrs, ATTR_MAPPED_ADDRESS, decode));
      FirstAddress(attrs, decode) == if k < |attrs| then decode(attrs[k].attrType, attrs[k].value) else None
  {
    if attrs != [] && decode(attrs[0].attrType, attrs[0].value).None? {
      FirstOfEither(attrs[1..], decode);
    }
  }

  /**
   Of a response with a decodable XOR-MAPPED-ADDRESS, the outcome is the first such address if and only if
   the first decodable MAPPED-ADDRESS comes after it, is absent, or carries the same address.
  */
  lemma {:induction false} XorPreferredExactly(transaction: seq<byte>, attrs: seq<Attr>, trailing: seq<byte>)
    requires |transaction| == 12 && ValidAttrs(attrs) && |EncodeAttrs(attrs)| < 0x1_0000
    requires FirstOf(attrs, ATTR_XOR_MAPPED_ADDRESS, AddressDecoder(U32(MAGIC_COOKIE) + transaction)) < |attrs|
    ensures var decode := AddressDecoder(U32(MAGIC_COOKIE) + transaction);
      var x, m := FirstOf(attrs, ATTR_XOR_MAPPED_ADDRESS, decode), FirstOf(attrs, ATTR_MAPPED_ADDRESS, decode);
      var preferred := decode(attrs[x].attrType, attrs[x].value).value;
      Outcome(Response(transaction, attrs) + trailing, transaction) == Ok(preferred)
      <==> m > x || decode(attrs[m].attrType, attrs[m].value).value == preferred
  {
    var decode := AddressDecoder(U32(MAGIC_COOKIE) + transaction);
    ResponseParsed(transaction, attrs, trailing);
    FirstOfEither(attrs, decode);
  }

  /** Both kinds of address, the plain one first. */
  function PlainThenXored(plain: Endpoint, xored: Endpoint, key: seq<byte>): seq<Attr>
    requires plain.ip.Valid() && xored.ip.Valid() && |key| == 16
  {
    [Attr(ATTR_MAPPED_ADDRESS, MappedAddress(0, plain), []), Attr(ATTR_XOR_MAPPED_ADDRESS, XorMappedAddress(0, xored, key), [])]
  }

  lemma {:induction false} PlainThenXoredValid(plain: Endpoint, xored: Endpoint, key: seq<byte>)
    requires plain.ip.Valid() && xored.ip.Valid() && |key| == 16
    ensures var attrs := PlainThenXored(plain, xored, key); ValidAttrs(attrs) && |EncodeAttrs(attrs)| < 0x1_0000
  {
    var attrs := PlainThenXored(plain, xored, key);
    var a, b: Attr := attrs[0], attrs[1];
    assert a.Valid() && b.Valid();
    assert attrs[1..] == [b] && [b][1..] == [];
    assert EncodeAttrs(attrs) == a.Encode() + EncodeAttrs([b]);
    assert EncodeAttrs([b]) == b.Encode() + EncodeAttrs([]);
  }

  /** A response with both, the plain one first and of another value, yields the plain one. */
  lemma {:induction false} PlainAddressWins(transaction: seq<byte>, plain: Endpoint, xored: Endpoint, trailing: seq<byte>)
    requires |transaction| == 12 && plain.ip.Valid() && xored.ip.Valid() && plain != xored
    ensures var key := U32(MAGIC_COOKIE) + transaction;
      var attrs := PlainThenXored(plain, xored, key);
      && Carries(attrs[1], ATTR_XOR_MAPPED_ADDRESS, AddressDecoder(key))
      && ValidAttrs(attrs) && |EncodeAttrs(attrs)| < 0x1_0000
      && Outcome(Response(transaction, attrs) + trailing, transaction) == Ok(plain)
  {
    var key := U32(MAGIC_COOKIE) + transaction;
    MappedRoundTrip(0, plain);
    XorRoundTrip(0, xored, key);
    PlainThenXoredValid(plain, xored, key);
    ResponseParsed(transaction, PlainThenXored(plain, xored, key), trailing);
  }
}
