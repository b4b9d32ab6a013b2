/**
Fixed-width unsigned arithmetic as the data plane uses it: free-running `u32`
ring indices that wrap, power-of-two sizes, and the `idx & (size - 1)` mask.
Integers are unbounded here, so every wrap is written out.
*/
module Machine {

  const U32_MODULUS: nat := 0x1_0000_0000
  const U64_MODULUS: nat := 0x1_0000_0000_0000_0000

  type u32 = x: nat | x < U32_MODULUS
  type u64 = x: nat | x < U64_MODULUS

  datatype Option<+T> = None | Some(value: T)

  function Min(a: int, b: int): int { if a <= b then a else b }
  function Max(a: int, b: int): int { if a >= b then a else b }

  /** `u32::wrapping_add`. */
  function WrappingAdd(a: u32, b: u32): u32 { (a + b) % U32_MODULUS }

  /** `u32::wrapping_sub`, and `-` on `u32` in a build without overflow checks. */
  function WrappingSub(a: u32, b: u32): u32 { (a - b) % U32_MODULUS }

  function Pow2(k: nat): (p: nat)
    ensures p > 0
  {
    if k == 0 then 1 else 2 * Pow2(k - 1)
  }

  /** `is_power_of_two`: false for zero. */
  predicate IsPowerOfTwo(n: nat) {
    n == 1 || (n > 1 && n % 2 == 0 && IsPowerOfTwo(n / 2))
  }

  lemma {:induction false} PowersAccepted(k: nat)
    ensures IsPowerOfTwo(Pow2(k))
  {
    if k > 0 { PowersAccepted(k - 1); }
  }

  lemma {:induction false} Exponent(n: nat) returns (k: nat)
    requires IsPowerOfTwo(n)
    ensures n == Pow2(k)
  {
    if n == 1 {
      k := 0;
    } else {
      k := Exponent(n / 2);
      k := k + 1;
    }
  }

  /** Bitwise `&` on naturals, bit by bit. */
  function BitAnd(a: nat, b: nat): nat {
    if a == 0 || b == 0 then 0 else (a % 2) * (b % 2) + 2 * BitAnd(a / 2, b / 2)
  }

  /** Bitwise `|` on naturals, bit by bit. */
  function BitOr(a: nat, b: nat): nat
    decreases a + b
  {
    if a == 0 then b else if b == 0 then a
    else (if a % 2 == 1 || b % 2 == 1 then 1 else 0) + 2 * BitOr(a / 2, b / 2)
  }

  /** Bitwise `^` on naturals, bit by bit. */
  function BitXor(a: nat, b: nat): nat
    decreases a + b
  {
    if a == 0 then b else if b == 0 then a
    else (if a % 2 != b % 2 then 1 else 0) + 2 * BitXor(a / 2, b / 2)
  }

  lemma {:induction false} XorParts(a: nat, b: nat)
    ensures BitXor(a, b) % 2 == (if a % 2 != b % 2 then 1 else 0) && BitXor(a, b) / 2 == BitXor(a / 2, b / 2)
  {
    if a == 0 {
      assert BitXor(a, b) == b && BitXor(a / 2, b / 2) == b / 2;
    } else if b == 0 {
      assert BitXor(a, b) == a && BitXor(a / 2, b / 2) == a / 2;
    } else {
      LowAndRest(if a % 2 != b % 2 then 1 else 0, BitXor(a / 2, b / 2));
    }
  }

  lemma {:induction false} LowAndRest(low: nat, rest: nat)
    requires low < 2
    ensures (low + 2 * rest) % 2 == low && (low + 2 * rest) / 2 == rest
  {
  }

  /** Applying the same key twice restores the value. */
  lemma {:induction false} XorInvolution(a: nat, b: nat)
    ensures BitXor(BitXor(a, b), b) == a
    decreases a + b
  {
    if a + b > 0 {
      var x := BitXor(a, b);
      XorParts(a, b);
      XorParts(x, b);
      XorInvolution(a / 2, b / 2);
      assert BitXor(x, b) % 2 == a % 2 && BitXor(x, b) / 2 == a / 2;
    }
  }

  lemma {:induction false} XorBound(a: nat, b: nat, k: nat)
    requires a < Pow2(k) && b < Pow2(k)
    ensures BitXor(a, b) < Pow2(k)
    decreases k
  {
    if a > 0 && b > 0 && k > 0 { XorBound(a / 2, b / 2, k - 1); }
  }

  /** Bit `i` of a natural. */
  predicate Bit(a: nat, i: nat) {
    if i == 0 then a % 2 == 1 else Bit(a / 2, i - 1)
  }

  /** What `^` means, bit by bit. */
  lemma {:induction false} XorBit(a: nat, b: nat, i: nat)
    ensures Bit(BitXor(a, b), i) <==> Bit(a, i) != Bit(b, i)
    decreases i
  {
    XorParts(a, b);
    if i > 0 { XorBit(a / 2, b / 2, i - 1); }
  }

  lemma {:induction false} ZeroHasNoBit(i: nat)
    ensures !Bit(0, i)
  {
    if i > 0 { ZeroHasNoBit(i - 1); }
  }

  lemma {:induction false} OrBit(a: nat, b: nat, i: nat)
    ensures Bit(BitOr(a, b), i) <==> Bit(a, i) || Bit(b, i)
    decreases i
  {
    if a == 0 || b == 0 {
      ZeroHasNoBit(i);
    } else if i > 0 {
      OrBit(a / 2, b / 2, i - 1);
    }
  }

  /** `1 << k` has exactly bit `k` set. */
  lemma {:induction false} PowerBit(k: nat, i: nat)
    ensures Bit(Pow2(k), i) <==> i == k
    decreases i
  {
    if k == 0 {
      if i > 0 { ZeroHasNoBit(i - 1); }
    } else if i > 0 {
      PowerBit(k - 1, i - 1);
    }
  }

  /** Masking with `1 << k` tests bit `k`. */
  lemma {:induction false} AndPowerTestsBit(a: nat, k: nat)
    ensures BitAnd(a, Pow2(k)) == 0 <==> !Bit(a, k)
    decreases k
  {
    if a == 0 {
      ZeroHasNoBit(k);
    } else if k == 0 {
      assert BitAnd(a / 2, 0) == 0;
    } else {
      AndPowerTestsBit(a / 2, k - 1);
    }
  }

  lemma {:induction false} OrBound(a: nat, b: nat, k: nat)
    requires a < Pow2(k) && b < Pow2(k)
    ensures BitOr(a, b) < Pow2(k)
    decreases k
  {
    if a > 0 && b > 0 && k > 0 { OrBound(a / 2, b / 2, k - 1); }
  }

  /** A power-of-two mask keeps the remainder. */
  lemma {:induction false} MaskIsModulo(i: nat, k: nat)
    ensures BitAnd(i, Pow2(k) - 1) == i % Pow2(k)
  {
    if k > 0 {
      var half := Pow2(k - 1);
      MaskIsModulo(i / 2, k - 1);
      AndOdd(i, half);
      ModuloSplit(i, half);
      assert Pow2(k) == 2 * half;
    }
  }

  lemma {:induction false} AndOdd(i: nat, half: nat)
    requires half > 0
    ensures BitAnd(i, 2 * half - 1) == i % 2 + 2 * BitAnd(i / 2, half - 1)
  {
    assert (2 * half - 1) / 2 == half - 1 && (2 * half - 1) % 2 == 1;
  }

  /** The low bit and the rest of a remainder by an even number. */
  lemma {:induction false} ModuloSplit(i: nat, half: nat)
    requires half > 0
    ensures i % (2 * half) == i % 2 + 2 * ((i / 2) % half)
  {
    var q, r := (i / 2) / half, (i / 2) % half;
    assert i / 2 == q * half + r;
    assert i == q * (2 * half) + (2 * r + i % 2);
    RemainderUnique(i, 2 * half, q, 2 * r + i % 2);
  }

  lemma {:induction false} PositiveMultiple(m: nat, d: nat)
    requires m > 0
    ensures m * d >= d
  {
    if m > 1 {
      PositiveMultiple(m - 1, d);
      assert m * d == (m - 1) * d + d;
    }
  }

  lemma {:induction false} NonzeroMultiple(m: int, d: nat)
    requires m != 0
    ensures m * d >= d || m * d <= 0 - d
  {
    PositiveMultiple(if m > 0 then m else -m, d);
    assert m < 0 ==> (-m) * d == 0 - m * d;
  }

  lemma {:induction false} MultiplyMonotone(a: nat, b: nat, d: nat)
    requires a <= b
    ensures a * d <= b * d
  {
    assert b * d == a * d + (b - a) * d;
    if a < b { PositiveMultiple(b - a, d); }
  }

  /** A multiple of `d` below `d * n` leaves room for one more `d`. */
  lemma {:induction false} MultipleBelow(a: nat, d: nat, n: nat)
    requires d > 0 && a % d == 0 && a < d * n
    ensures a == a / d * d && a / d < n && a + d <= d * n
  {
    var f := a / d;
    assert a == f * d && d * n == n * d;
    if f >= n { MultiplyMonotone(n, f, d); }
    MultiplyMonotone(f + 1, n, d);
    assert (f + 1) * d == f * d + d;
  }

  lemma {:induction false} RemainderUnique(i: nat, d: nat, q: int, r: nat)
    requires r < d && i == q * d + r
    ensures i % d == r && i / d == q
  {
    var gap := i / d - q;
    assert gap * d == r - i % d by {
      assert i == i / d * d + i % d;
      assert gap * d == i / d * d - q * d;
    }
    if gap != 0 { NonzeroMultiple(gap, d); }
  }

  lemma {:induction false} Pow2Monotone(j: nat, k: nat)
    requires j <= k
    ensures Pow2(j) <= Pow2(k)
    decreases k - j
  {
    if j < k { Pow2Monotone(j, k - 1); }
  }

  lemma {:induction false} Pow2Divides(j: nat, k: nat)
    requires j <= k
    ensures Pow2(k) == Pow2(j) * Pow2(k - j)
    decreases k
  {
    if j < k { Pow2Divides(j, k - 1); }
  }

  /** A ring size that fits in a `u32` divides the index modulus. */
  lemma {:induction false} SizeDividesModulus(size: nat) returns (k: nat, c: nat)
    requires IsPowerOfTwo(size) && size < U32_MODULUS
    ensures size == Pow2(k) && c > 0 && U32_MODULUS == size * c
  {
    k := Exponent(size);
    Pow2Is32Bits();
    if k >= 32 { Pow2Monotone(32, k); assert false; }
    Pow2Divides(k, 32);
    c := Pow2(32 - k);
  }

  lemma {:induction false} Pow2Is32Bits()
    ensures Pow2(32) == U32_MODULUS
  {
    assert Pow2(8) == 256;
    Pow2Divides(8, 16);
    Pow2Divides(16, 32);
  }

  /** The slot that the entry with unbounded index `j` occupies. */
  ghost function SlotOf(j: nat, size: nat): nat
    requires size > 0
  {
    j % size
  }

  lemma {:induction false} Pow2Is64Bits()
    ensures Pow2(64) == U64_MODULUS
  {
    Pow2Is32Bits();
    Pow2Divides(32, 64);
  }

  /** Masking a wrapped index finds the slot of the unbounded index. */
  lemma {:induction false} MaskedSlot(j: nat, size: nat)
    requires IsPowerOfTwo(size) && size < U32_MODULUS
    ensures BitAnd(j % U32_MODULUS, size - 1) == SlotOf(j, size)
  {
    var k, c := SizeDividesModulus(size);
    MaskIsModulo(j % U32_MODULUS, k);
    RemainderOfRemainder(j, size, c);
  }

  lemma {:induction false} RemainderOfRemainder(j: nat, d: nat, c: nat)
    requires d > 0 && c > 0
    ensures d * c > 0 && (j % (d * c)) % d == j % d
  {
    assert d * c >= d by { NonzeroMultiple(c, d); assert c * d == d * c; }
    RemainderOfMultiple(j, d, c, d * c);
  }

  lemma {:induction false} RemainderOfMultiple(j: nat, d: nat, c: nat, m: nat)
    requires d > 0 && m == d * c > 0
    ensures (j % m) % d == j % d
  {
    var q, r := j / m, j % m;
    var q' := r / d;
    Regroup(q, c, q', d);
    assert j == q * m + r;
    assert r == q' * d + r % d;
    RemainderUnique(j, d, q * c + q', r % d);
  }

  lemma {:induction false} Regroup(q: nat, c: nat, q': nat, d: nat)
    ensures (q * c + q') * d == q * (d * c) + q' * d
  {
    assert (q * c) * d == q * (c * d);
  }

  /** Two unbounded indices less than one lap apart use different slots. */
  lemma {:induction false} SlotsDiffer(i: nat, j: nat, size: nat)
    requires i < j < i + size
    ensures SlotOf(i, size) != SlotOf(j, size)
  {
    var laps := j / size - i / size;
    assert j - i == laps * size + (j % size - i % size) by {
      assert laps * size == j / size * size - i / size * size;
    }
    if laps != 0 { NonzeroMultiple(laps, size); }
  }

  /** Wrapping subtraction recovers a distance of less than one modulus. */
  lemma WrappedDistance(a: nat, b: nat)
    requires b <= a < b + U32_MODULUS
    ensures WrappingSub(a % U32_MODULUS, b % U32_MODULUS) == a - b
  {
  }

  lemma WrappedSum(a: nat, b: nat)
    ensures (a % U32_MODULUS + b) % U32_MODULUS == (a + b) % U32_MODULUS
  {
  }

  lemma WrappedOffset(a: u32, b: u32)
    ensures WrappingSub(WrappingAdd(a, b), a) == b
  {
  }
}
