/** IPv4 and IPv6 address blocks, and the blocks the macOS client treats as the local network. */
module Prefixes {
  import opened Machine

  datatype Family = Inet | Inet6

  function Width(f: Family): nat { if f == Inet then 32 else 128 }

  /** The addresses that share their first `len` bits with `base`. */
  datatype Net = Net(family: Family, base: nat, len: nat) {
    predicate Contains(f: Family, a: nat) {
      f == family && len <= Width(f) && a / Pow2(Width(f) - len) == base / Pow2(Width(f) - len)
    }
  }

  function Host(f: Family, a: nat): Net { Net(f, a, Width(f)) }

  /** 10.0.0.0/8, 172.16.0.0/12, 192.168.0.0/16 and 169.254.0.0/16. */
  const LAN_SUBNETS: seq<Net> :=
    [Net(Inet, 0x0A00_0000, 8), Net(Inet, 0xAC10_0000, 12), Net(Inet, 0xC0A8_0000, 16), Net(Inet, 0xA9FE_0000, 16)]

  /** fe80::/10 and fc00::/7. */
  const LAN_SUBNETS_V6: seq<Net> :=
    [Net(Inet6, 0xfe80_0000_0000_0000_0000_0000_0000_0000, 10), Net(Inet6, 0xfc00_0000_0000_0000_0000_0000_0000_0000, 7)]

  predicate InAny(nets: seq<Net>, f: Family, a: nat) { exists i :: 0 <= i < |nets| && nets[i].Contains(f, a) }

  lemma {:induction false} Pow2Values()
    ensures Pow2(16) == 0x1_0000 && Pow2(20) == 0x10_0000 && Pow2(24) == 0x100_0000 && Pow2(31) == 0x8000_0000
    ensures Pow2(118) == 0x40_0000_0000_0000_0000_0000_0000_0000
    ensures Pow2(121) == 0x200_0000_0000_0000_0000_0000_0000_0000
    ensures Pow2(127) == 0x8000_0000_0000_0000_0000_0000_0000_0000
  {
    assert Pow2(4) == 16 && Pow2(7) == 128 && Pow2(8) == 256;
    Pow2Divides(8, 16);
    Pow2Divides(4, 20);
    Pow2Divides(8, 24);
    Pow2Divides(7, 31);
    Pow2Is64Bits();
    Pow2Divides(24, 55);
    Pow2Divides(64, 119);
    assert Pow2(119) == 2 * Pow2(118);
    assert Pow2(121) == 4 * Pow2(119);
    Pow2Divides(8, 127);
  }

  /** The local IPv4 addresses are those that begin with 10, with 172.16 to 172.31, with 192.168 or with 169.254. */
  lemma {:induction false} LanAddresses(a: nat)
    ensures InAny(LAN_SUBNETS, Inet, a) <==>
      a / 0x100_0000 == 10 || a / 0x10_0000 == 0xAC1 || a / 0x1_0000 == 0xC0A8 || a / 0x1_0000 == 0xA9FE
  {
    Pow2Values();
    assert LAN_SUBNETS[0].Contains(Inet, a) <==> a / 0x100_0000 == 10;
    assert LAN_SUBNETS[1].Contains(Inet, a) <==> a / 0x10_0000 == 0xAC1;
    assert LAN_SUBNETS[2].Contains(Inet, a) <==> a / 0x1_0000 == 0xC0A8;
    assert LAN_SUBNETS[3].Contains(Inet, a) <==> a / 0x1_0000 == 0xA9FE;
  }

  /** The local IPv6 addresses are those whose first ten bits are 1111111010 or whose first seven are 1111110. */
  lemma {:induction false} LanAddresses6(a: nat)
    ensures InAny(LAN_SUBNETS_V6, Inet6, a) <==>
      || a / 0x40_0000_0000_0000_0000_0000_0000_0000 == 0x3FA
      || a / 0x200_0000_0000_0000_0000_0000_0000_0000 == 0x7E
  {
    Pow2Values();
    assert LAN_SUBNETS_V6[0].Contains(Inet6, a) <==> a / 0x40_0000_0000_0000_0000_0000_0000_0000 == 0x3FA;
    assert LAN_SUBNETS_V6[1].Contains(Inet6, a) <==> a / 0x200_0000_0000_0000_0000_0000_0000_0000 == 0x7E;
  }

  lemma {:induction false} HostContainsItself(f: Family, a: nat, b: nat)
    ensures Host(f, a).Contains(f, b) <==> a == b
  {
    assert Pow2(0) == 1;
  }
}
