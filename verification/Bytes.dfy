/** Big-endian integers and socket addresses, shared by the wire formats. */
module Bytes {
  import opened Machine

  type byte = x: nat | x < 256
  type u16 = x: nat | x < 0x1_0000

  datatype IpAddr = V4(ip: u32) | V6(octets: seq<byte>) {
    predicate Valid() { V6? ==> |octets| == 16 }
  }

  /** An address and a port; IPv6 flow and scope identifiers are not carried by any format here. */
  datatype Endpoint = Endpoint(ip: IpAddr, port: u16)

  function U16(x: u16): seq<byte> { [x / 0x100, x % 0x100] }

  function FromU16(a: byte, b: byte): u16 { a * 0x100 + b }

  function U32(x: u32): seq<byte> { U16(x / 0x1_0000) + U16(x % 0x1_0000) }

  function FromU32(a: byte, b: byte, c: byte, d: byte): u32 {
    FromU16(a, b) * 0x1_0000 + FromU16(c, d)
  }

  function U64(x: u64): seq<byte> { U32(x / U32_MODULUS) + U32(x % U32_MODULUS) }

  function FromU64(s: seq<byte>): u64
    requires |s| == 8
  {
    FromU32(s[0], s[1], s[2], s[3]) * U32_MODULUS + FromU32(s[4], s[5], s[6], s[7])
  }

  function Two(hi: nat, lo: nat): nat { hi * 256 + lo }

  function Four(a: nat, b: nat, c: nat, d: nat): nat { a * 0x100_0000 + b * 0x1_0000 + c * 256 + d }

  /** The most significant byte comes first. */
  lemma {:induction false} BigEndian(a: byte, b: byte, c: byte, d: byte)
    ensures Two(a, b) < 0x1_0000 && U16(Two(a, b)) == [a, b] && FromU16(a, b) == Two(a, b)
    ensures Four(a, b, c, d) < U32_MODULUS && U32(Four(a, b, c, d)) == [a, b, c, d] && FromU32(a, b, c, d) == Four(a, b, c, d)
  {
    U32Inverse(a, b, c, d);
  }

  lemma {:induction false} BigEndian64(a: byte, b: byte, c: byte, d: byte, e: byte, f: byte, g: byte, h: byte)
    ensures var x := Four(a, b, c, d) * 0x1_0000_0000 + Four(e, f, g, h);
      x < U64_MODULUS && U64(x) == [a, b, c, d, e, f, g, h]
  {
    BigEndian(a, b, c, d);
    BigEndian(e, f, g, h);
    TwoWords(Four(a, b, c, d), Four(e, f, g, h));
  }

  lemma {:induction false} TwoWords(hi: u32, lo: u32)
    ensures hi * 0x1_0000_0000 + lo < U64_MODULUS && U64(hi * 0x1_0000_0000 + lo) == U32(hi) + U32(lo)
  {
  }

  lemma U16RoundTrip(x: u16)
    ensures |U16(x)| == 2 && FromU16(U16(x)[0], U16(x)[1]) == x
  {
  }

  lemma {:induction false} U32RoundTrip(x: u32)
    ensures |U32(x)| == 4 && FromU32(U32(x)[0], U32(x)[1], U32(x)[2], U32(x)[3]) == x
  {
    U16RoundTrip(x / 0x1_0000);
    U16RoundTrip(x % 0x1_0000);
  }

  lemma {:induction false} U64RoundTrip(x: u64)
    ensures |U64(x)| == 8 && FromU64(U64(x)) == x
  {
    U32RoundTrip(x / U32_MODULUS);
    U32RoundTrip(x % U32_MODULUS);
  }

  lemma U16Inverse(a: byte, b: byte)
    ensures U16(FromU16(a, b)) == [a, b]
  {
  }

  lemma {:induction false} U32Inverse(a: byte, b: byte, c: byte, d: byte)
    ensures U32(FromU32(a, b, c, d)) == [a, b, c, d]
  {
    var hi, lo := FromU16(a, b), FromU16(c, d);
    assert FromU32(a, b, c, d) / 0x1_0000 == hi && FromU32(a, b, c, d) % 0x1_0000 == lo;
    U16Inverse(a, b);
    U16Inverse(c, d);
  }

  lemma {:induction false} U64Inverse(s: seq<byte>)
    requires |s| == 8
    ensures U64(FromU64(s)) == s
  {
    var hi, lo := FromU32(s[0], s[1], s[2], s[3]), FromU32(s[4], s[5], s[6], s[7]);
    assert FromU64(s) / U32_MODULUS == hi && FromU64(s) % U32_MODULUS == lo;
    U32Inverse(s[0], s[1], s[2], s[3]);
    U32Inverse(s[4], s[5], s[6], s[7]);
  }

  /** A slice that equals a known sequence gives the bytes of that sequence. */
  lemma {:induction false} FieldsAt(data: seq<byte>, offset: nat, field: seq<byte>)
    requires offset + |field| <= |data| && data[offset..offset + |field|] == field
    ensures forall i {:trigger field[i]} :: 0 <= i < |field| ==> data[offset + i] == field[i]
  {
    forall i | 0 <= i < |field|
      ensures data[offset + i] == field[i]
    {
      assert data[offset..offset + |field|][i] == data[offset + i];
    }
  }

  lemma {:induction false} SliceOfSlice(s: seq<byte>, lo: nat, hi: nat, i: nat, j: nat)
    requires lo <= hi <= |s| && i <= j <= hi - lo
    ensures s[lo..hi][i..j] == s[lo + i..lo + j]
  {
    forall k | 0 <= k < j - i
      ensures s[lo..hi][i..j][k] == s[lo + i..lo + j][k]
    {
      assert s[lo..hi][i + k] == s[lo + i + k];
    }
  }

  lemma SliceOfConcat(a: seq<byte>, b: seq<byte>, i: nat, j: nat)
    requires i <= j <= |a|
    ensures (a + b)[i..j] == a[i..j]
  {
  }
}
