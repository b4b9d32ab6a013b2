/**
The two datagrams peers exchange to punch a hole through their NATs: rendezvous
information and hole-punch messages. Encoding then decoding is the identity even
with further bytes behind the encoding, so no encoding is a prefix of another.
*/
module Rendezvous {
  import opened Machine
  import opened Bytes

  datatype NatType = NoNat | FullCone | AddressRestrictedCone | PortRestrictedCone | Symmetric | Unknown

  datatype RendezvousInfo = RendezvousInfo(
    peerId: seq<byte>, publicEndpoint: Endpoint, privateEndpoint: Option<Endpoint>, natType: NatType, timestamp: u64)
  {
    predicate Valid() {
      && |peerId| == 16
      && publicEndpoint.ip.Valid()
      && (privateEndpoint.Some? ==> privateEndpoint.value.ip.Valid())
    }
  }

  /** `Panicked` stands for an index past the end of the input. */
  datatype Parsed<+T> = Value(value: T) | Rejected | Panicked

  // ---- Endpoints ----

  function EncodeEndpoint(e: Endpoint): seq<byte> {
    match e.ip
    case V4(ip) => [4] + U32(ip) + U16(e.port)
    case V6(octets) => [6] + octets + U16(e.port)
  }

  /** The endpoint at `offset` and the offset behind it. */
  function ParseEndpoint(data: seq<byte>, offset: nat): Option<(Endpoint, nat)> {
    if offset >= |data| then None
    else
      var at := offset + 1;
      match data[offset]
      case 4 =>
        if at + 6 > |data| then None
        else Some((Endpoint(V4(FromU32(data[at], data[at + 1], data[at + 2], data[at + 3])), FromU16(data[at + 4], data[at + 5])), at + 6))
      case 6 =>
        if at + 18 > |data| then None
        else Some((Endpoint(V6(data[at..at + 16]), FromU16(data[at + 16], data[at + 17])), at + 18))
      case _ => None
  }

  lemma {:induction false} EndpointRoundTrip(data: seq<byte>, offset: nat, e: Endpoint)
    requires e.ip.Valid() && offset + |EncodeEndpoint(e)| <= |data|
    requires data[offset..offset + |EncodeEndpoint(e)|] == EncodeEndpoint(e)
    ensures ParseEndpoint(data, offset) == Some((e, offset + |EncodeEndpoint(e)|))
  {
    var enc := EncodeEndpoint(e);
    FieldsAt(data, offset, enc);
    U16RoundTrip(e.port);
    assert data[offset] == enc[0];
    match e.ip
    case V4(ip) =>
      U32RoundTrip(ip);
      assert enc[1] == U32(ip)[0] && enc[2] == U32(ip)[1] && enc[3] == U32(ip)[2] && enc[4] == U32(ip)[3];
      assert enc[5] == U16(e.port)[0] && enc[6] == U16(e.port)[1];
    case V6(octets) =>
      SliceOfSlice(data, offset, offset + 19, 1, 17);
      assert enc[1..17] == octets;
      assert enc[17] == U16(e.port)[0] && enc[18] == U16(e.port)[1];
  }

  /** The layout of an endpoint: the version, the address and the port, both with the most significant byte first. */
  lemma {:induction false} EndpointBytes(a: byte, b: byte, c: byte, d: byte, octets: seq<byte>, hi: byte, lo: byte)
    ensures Four(a, b, c, d) < U32_MODULUS && Two(hi, lo) < 0x1_0000
    ensures EncodeEndpoint(Endpoint(V4(Four(a, b, c, d)), Two(hi, lo))) == [4, a, b, c, d, hi, lo]
    ensures EncodeEndpoint(Endpoint(V6(octets), Two(hi, lo))) == [6] + octets + [hi, lo]
  {
    BigEndian(a, b, c, d);
    BigEndian(hi, lo, 0, 0);
  }

  /** What parses is the layout of what it gives. */
  lemma {:induction false} EndpointInverse(data: seq<byte>, offset: nat)
    requires ParseEndpoint(data, offset).Some?
    ensures var (e, next) := ParseEndpoint(data, offset).value;
      e.ip.Valid() && next == offset + |EncodeEndpoint(e)| <= |data| && data[offset..next] == EncodeEndpoint(e)
  {
    var at := offset + 1;
    if data[offset] == 4 {
      U32Inverse(data[at], data[at + 1], data[at + 2], data[at + 3]);
      U16Inverse(data[at + 4], data[at + 5]);
      assert data[offset..offset + 7] == [4] + [data[at], data[at + 1], data[at + 2], data[at + 3]] + [data[at + 4], data[at + 5]];
    } else {
      U16Inverse(data[at + 16], data[at + 17]);
      assert data[offset..offset + 19] == [6] + data[at..at + 16] + [data[at + 16], data[at + 17]];
    }
  }

  // ---- Rendezvous information ----

  function NatCode(t: NatType): byte {
    match t
    case NoNat => 0
    case FullCone => 1
    case AddressRestrictedCone => 2
    case PortRestrictedCone => 3
    case Symmetric => 4
    case Unknown => 5
  }

  function ParseNat(code: byte): NatType {
    match code
    case 0 => NoNat
    case 1 => FullCone
    case 2 => AddressRestrictedCone
    case 3 => PortRestrictedCone
    case 4 => Symmetric
    case _ => Unknown
  }

  function EncodePrivate(e: Option<Endpoint>): seq<byte> {
    match e
    case Some(private) => [1] + EncodeEndpoint(private)
    case None => [0]
  }

  function ToBytes(info: RendezvousInfo): seq<byte> {
    info.peerId + EncodeEndpoint(info.publicEndpoint) + EncodePrivate(info.privateEndpoint)
    + [NatCode(info.natType)] + U64(info.timestamp)
  }

  function FromBytes(data: seq<byte>): Parsed<RendezvousInfo> {
    if |data| < 24 then Rejected
    else match ParseEndpoint(data, 16)
      case None => Rejected
      case Some((public, offset)) =>
        if offset >= |data| then Panicked
        else if data[offset] == 1 then
          match ParseEndpoint(data, offset + 1)
          case None => Rejected
          case Some((private, offset')) => ParseTail(data, offset', public, Some(private))
        else ParseTail(data, offset + 1, public, None)
  }

  function ParseTail(data: seq<byte>, offset: nat, public: Endpoint, private: Option<Endpoint>): Parsed<RendezvousInfo>
    requires |data| >= 16
  {
    if offset >= |data| || offset + 9 > |data| then Rejected
    else Value(RendezvousInfo(data[..16], public, private, ParseNat(data[offset]), FromU64(data[offset + 1..offset + 9])))
  }

  /** The five fields of an encoding, in place at the start of `data`. */
  ghost predicate LaidOut(data: seq<byte>, info: RendezvousInfo) {
    var public, private := EncodeEndpoint(info.publicEndpoint), EncodePrivate(info.privateEndpoint);
    var o1 := 16 + |public|;
    var o2 := o1 + |private|;
    && |data| >= o2 + 9
    && data[..16] == info.peerId
    && data[16..o1] == public
    && data[o1..o2] == private
    && data[o2] == NatCode(info.natType)
    && data[o2 + 1..o2 + 9] == U64(info.timestamp)
  }

  lemma {:induction false} EncodingLaidOut(info: RendezvousInfo, suffix: seq<byte>)
    requires info.Valid()
    ensures LaidOut(ToBytes(info) + suffix, info)
  {
    FiveFields(info.peerId, EncodeEndpoint(info.publicEndpoint), EncodePrivate(info.privateEndpoint),
               NatCode(info.natType), U64(info.timestamp), suffix);
  }

  lemma {:induction false} FiveFields(a: seq<byte>, b: seq<byte>, c: seq<byte>, d: byte, e: seq<byte>, suffix: seq<byte>)
    ensures var data, o1 := a + b + c + [d] + e + suffix, |a| + |b|;
      var o2 := o1 + |c|;
      data[..|a|] == a && data[|a|..o1] == b && data[o1..o2] == c && data[o2] == d && data[o2 + 1..o2 + 1 + |e|] == e
  {
  }

  lemma {:induction false} PrivateRoundTrip(data: seq<byte>, offset: nat, e: Option<Endpoint>)
    requires e.Some? ==> e.value.ip.Valid()
    requires offset + |EncodePrivate(e)| <= |data| && data[offset..offset + |EncodePrivate(e)|] == EncodePrivate(e)
    ensures data[offset] == (if e.Some? then 1 else 0)
    ensures e.Some? ==> ParseEndpoint(data, offset + 1) == Some((e.value, offset + |EncodePrivate(e)|))
  {
    var private := EncodePrivate(e);
    FieldsAt(data, offset, private);
    assert data[offset + 0] == private[0];
    if e.Some? {
      SliceOfSlice(data, offset, offset + |private|, 1, |private|);
      assert private[1..|private|] == EncodeEndpoint(e.value);
      EndpointRoundTrip(data, offset + 1, e.value);
    }
  }

  lemma {:induction false} DecodeLaidOut(data: seq<byte>, info: RendezvousInfo)
    requires info.Valid() && LaidOut(data, info)
    ensures FromBytes(data) == Value(info)
  {
    var o1 := 16 + |EncodeEndpoint(info.publicEndpoint)|;
    EndpointRoundTrip(data, 16, info.publicEndpoint);
    PrivateRoundTrip(data, o1, info.privateEndpoint);
    TailRoundTrip(data, o1 + |EncodePrivate(info.privateEndpoint)|, info);
  }

  lemma {:induction false} TailRoundTrip(data: seq<byte>, offset: nat, info: RendezvousInfo)
    requires offset + 9 <= |data| && |data| >= 16 && data[..16] == info.peerId
    requires data[offset] == NatCode(info.natType) && data[offset + 1..offset + 9] == U64(info.timestamp)
    ensures ParseTail(data, offset, info.publicEndpoint, info.privateEndpoint) == Value(info)
  {
    U64RoundTrip(info.timestamp);
  }

  /** Every encoding is decoded to what it encodes, whatever follows it. */
  lemma {:induction false} InfoRoundTrip(info: RendezvousInfo, suffix: seq<byte>)
    requires info.Valid()
    ensures FromBytes(ToBytes(info) + suffix) == Value(info)
  {
    EncodingLaidOut(info, suffix);
    DecodeLaidOut(ToBytes(info) + suffix, info);
  }

  /** No encoding is a proper prefix of another, and distinct values have distinct encodings. */
  lemma {:induction false} InfoPrefixFree(a: RendezvousInfo, b: RendezvousInfo)
    requires a.Valid() && b.Valid() && ToBytes(a) <= ToBytes(b)
    ensures a == b
  {
    DecodesPrefix(a, ToBytes(a), ToBytes(b));
    DecodesPrefix(b, ToBytes(b), ToBytes(b));
  }

  lemma {:induction false} DecodesPrefix(info: RendezvousInfo, encoded: seq<byte>, data: seq<byte>)
    requires info.Valid() && encoded == ToBytes(info) && encoded <= data
    ensures FromBytes(data) == Value(info)
  {
    assert encoded + data[|encoded|..] == data;
    InfoRoundTrip(info, data[|encoded|..]);
  }

  /** The byte for a kind of NAT; every byte from 5 on is read as unknown. */
  predicate NatByte(t: NatType, code: byte) {
    match t
    case NoNat => code == 0
    case FullCone => code == 1
    case AddressRestrictedCone => code == 2
    case PortRestrictedCone => code == 3
    case Symmetric => code == 4
    case Unknown => code >= 5
  }

  /** `data` begins with these fields; a byte other than 1 announces that there is no private endpoint. */
  ghost predicate Spells(data: seq<byte>, info: RendezvousInfo) {
    var o1 := 16 + |EncodeEndpoint(info.publicEndpoint)|;
    var o2 := o1 + 1 + if info.privateEndpoint.Some? then |EncodeEndpoint(info.privateEndpoint.value)| else 0;
    && |data| >= o2 + 9
    && data[..16] == info.peerId
    && data[16..o1] == EncodeEndpoint(info.publicEndpoint)
    && (data[o1] == 1 <==> info.privateEndpoint.Some?)
    && (info.privateEndpoint.Some? ==> data[o1 + 1..o2] == EncodeEndpoint(info.privateEndpoint.value))
    && NatByte(info.natType, data[o2])
    && data[o2 + 1..o2 + 9] == U64(info.timestamp)
  }

  /** Decoding gives a value if and only if the input spells it. Every other input is rejected, or panics as below. */
  lemma {:induction false} InfoDecodeExact(data: seq<byte>, info: RendezvousInfo)
    ensures FromBytes(data) == Value(info) <==> info.Valid() && Spells(data, info)
  {
    if FromBytes(data) == Value(info) {
      DecodedSpells(data, info);
    }
    if info.Valid() && Spells(data, info) {
      SpelledDecodes(data, info);
    }
  }

  lemma {:induction false} DecodedSpells(data: seq<byte>, info: RendezvousInfo)
    requires FromBytes(data) == Value(info)
    ensures info.Valid() && Spells(data, info)
  {
    EndpointInverse(data, 16);
    var o1 := ParseEndpoint(data, 16).value.1;
    if data[o1] == 1 {
      EndpointInverse(data, o1 + 1);
      TailSpells(data, ParseEndpoint(data, o1 + 1).value.1, info);
    } else {
      TailSpells(data, o1 + 1, info);
    }
  }

  lemma {:induction false} TailSpells(data: seq<byte>, offset: nat, info: RendezvousInfo)
    requires |data| >= 16 && ParseTail(data, offset, info.publicEndpoint, info.privateEndpoint) == Value(info)
    ensures offset + 9 <= |data| && data[..16] == info.peerId && NatByte(info.natType, data[offset])
    ensures data[offset + 1..offset + 9] == U64(info.timestamp)
  {
    U64Inverse(data[offset + 1..offset + 9]);
  }

  lemma {:induction false} SpelledDecodes(data: seq<byte>, info: RendezvousInfo)
    requires info.Valid() && Spells(data, info)
    ensures FromBytes(data) == Value(info)
  {
    var o1 := 16 + |EncodeEndpoint(info.publicEndpoint)|;
    EndpointRoundTrip(data, 16, info.publicEndpoint);
    if info.privateEndpoint.Some? {
      EndpointRoundTrip(data, o1 + 1, info.privateEndpoint.value);
      SpelledTail(data, o1 + 1 + |EncodeEndpoint(info.privateEndpoint.value)|, info);
    } else {
      SpelledTail(data, o1 + 1, info);
    }
  }

  lemma {:induction false} SpelledTail(data: seq<byte>, offset: nat, info: RendezvousInfo)
    requires |data| >= 16 && offset + 9 <= |data| && data[..16] == info.peerId && NatByte(info.natType, data[offset])
    requires data[offset + 1..offset + 9] == U64(info.timestamp)
    ensures ParseTail(data, offset, info.publicEndpoint, info.privateEndpoint) == Value(info)
  {
    U64RoundTrip(info.timestamp);
  }

  /** What is sent: with a private endpoint the byte 1 in front of it, without one the byte 0, and the NAT codes 0 to 5. */
  lemma {:induction false} InfoBytes(info: RendezvousInfo)
    requires info.Valid()
    ensures var data, o1 := ToBytes(info), 16 + |EncodeEndpoint(info.publicEndpoint)|;
      && Spells(data, info)
      && data[o1] == (if info.privateEndpoint.Some? then 1 else 0)
      && data[|data| - 9] <= 5
      && |data| == o1 + 1 + (if info.privateEndpoint.Some? then |EncodeEndpoint(info.privateEndpoint.value)| else 0) + 9
  {
    var data := ToBytes(info);
    assert data + [] == data;
    InfoRoundTrip(info, []);
    DecodedSpells(data, info);
    EncodingLaidOut(info, []);
    PrivateRoundTrip(data, 16 + |EncodeEndpoint(info.publicEndpoint)|, info.privateEndpoint);
  }

  /** Exactly the inputs on which decoding reads past the end: 35 bytes, ending right after an IPv6 endpoint. */
  lemma DecodePanicsExactly(data: seq<byte>)
    ensures FromBytes(data).Panicked? <==> |data| == 35 && data[16] == 6
  {
  }

  // ---- Hole-punch messages ----

  datatype MessageType = Punch | PunchAck | Keepalive

  datatype HolePunchMessage = HolePunchMessage(msgType: MessageType, peerId: seq<byte>, sequence: u32, timestamp: u64)

  function TypeCode(t: MessageType): byte {
    match t
    case Punch => 1
    case PunchAck => 2
    case Keepalive => 3
  }

  function EncodeMessage(m: HolePunchMessage): seq<byte> {
    [TypeCode(m.msgType)] + m.peerId + U32(m.sequence) + U64(m.timestamp)
  }

  function DecodeMessage(data: seq<byte>): Option<HolePunchMessage> {
    if |data| < 29 || !(1 <= data[0] <= 3) then None
    else
      Some(HolePunchMessage(
        if data[0] == 1 then Punch else if data[0] == 2 then PunchAck else Keepalive,
        data[1..17],
        FromU32(data[17], data[18], data[19], data[20]),
        FromU64(data[21..29])))
  }

  lemma {:induction false} MessageRoundTrip(m: HolePunchMessage, suffix: seq<byte>)
    requires |m.peerId| == 16
    ensures |EncodeMessage(m)| == 29 && DecodeMessage(EncodeMessage(m) + suffix) == Some(m)
  {
    var data := EncodeMessage(m) + suffix;
    U32RoundTrip(m.sequence);
    U64RoundTrip(m.timestamp);
    assert data[1..17] == m.peerId;
    assert data[17..21] == U32(m.sequence);
    FieldsAt(data, 17, U32(m.sequence));
    assert data[17] == U32(m.sequence)[0] && data[18] == U32(m.sequence)[1] && data[19] == U32(m.sequence)[2] && data[20] == U32(m.sequence)[3];
    assert data[21..29] == U64(m.timestamp);
  }

  /** The 29 bytes of a message. */
  lemma {:induction false} MessageBytes(m: HolePunchMessage)
    requires |m.peerId| == 16
    ensures var data := EncodeMessage(m);
      && |data| == 29 && data[0] == (match m.msgType { case Punch => 1 case PunchAck => 2 case Keepalive => 3 })
      && data[1..17] == m.peerId && m.sequence == Four(data[17], data[18], data[19], data[20])
      && m.timestamp == Four(data[21], data[22], data[23], data[24]) * 0x1_0000_0000 + Four(data[25], data[26], data[27], data[28])
  {
    var data := EncodeMessage(m);
    MessageRoundTrip(m, []);
    assert data + [] == data;
    BigEndian(data[17], data[18], data[19], data[20]);
    BigEndian(data[21], data[22], data[23], data[24]);
    BigEndian(data[25], data[26], data[27], data[28]);
  }

  /** What decodes is an encoding, up to what follows it: decoding loses and invents nothing. */
  lemma {:induction false} MessageDecodeExact(data: seq<byte>)
    ensures DecodeMessage(data).Some? <==> |data| >= 29 && 1 <= data[0] <= 3
    ensures DecodeMessage(data).Some? ==> EncodeMessage(DecodeMessage(data).value) == data[..29]
  {
    if DecodeMessage(data).Some? {
      U32Inverse(data[17], data[18], data[19], data[20]);
      U64Inverse(data[21..29]);
      assert data[17..21] == [data[17], data[18], data[19], data[20]];
      assert data[..29] == [data[0]] + data[1..17] + data[17..21] + data[21..29];
    }
  }
}
