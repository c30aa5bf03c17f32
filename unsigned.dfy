/**
 * C/C++ unsigned integer arithmetic on bounded naturals.
 *
 * `unsigned` is 32 bits wide and `unsigned long long` 64 bits wide on every
 * platform the hash table targets.  Each operation below spells out what C
 * does: addition wraps modulo 2^64, a 32-bit operand is zero-extended before
 * it meets a 64-bit one, and storing a 64-bit value into an `unsigned`
 * keeps its low 32 bits.  Bitwise exclusive or is defined one bit at a time.
 */
module Unsigned {

  const TWO_32: nat := 0x1_0000_0000
  const TWO_64: nat := 0x1_0000_0000_0000_0000

  /** The values of C's `unsigned`. */
  type Uint32 = n: nat | n < 0x1_0000_0000

  /** The values of C's `unsigned long long`. */
  type Uint64 = n: nat | n < 0x1_0000_0000_0000_0000

  function Pow2(n: nat): (r: nat)
    ensures r >= 1
  {
    if n == 0 then 1 else 2 * Pow2(n - 1)
  }

  lemma {:induction false} Pow2Add(a: nat, b: nat)
    ensures Pow2(a + b) == Pow2(a) * Pow2(b)
  {
    if a > 0 {
      Pow2Add(a - 1, b);
      assert Pow2(a + b) == 2 * Pow2(a - 1 + b);
    }
  }

  /** The two word widths are powers of two of the expected exponents. */
  lemma Pow2Widths()
    ensures Pow2(32) == TWO_32
    ensures Pow2(64) == TWO_64
  {
    assert Pow2(2) == 4;
    Pow2Add(2, 2);
    Pow2Add(4, 4);
    Pow2Add(8, 8);
    Pow2Add(16, 16);
    Pow2Add(32, 32);
  }

  /** Bit `i` of `n` (bit 0 is the least significant). */
  function Bit(n: nat, i: nat): nat
  {
    (n / Pow2(i)) % 2
  }

  /** Bitwise exclusive or of two naturals: bit by bit, from the low end. */
  function Xor(a: nat, b: nat): nat
    decreases a + b
  {
    if a == 0 && b == 0 then 0 else 2 * Xor(a / 2, b / 2) + (a % 2 + b % 2) % 2
  }

  /** Xor peels off one bit at a time: its low bit and the rest. */
  lemma XorHalves(a: nat, b: nat)
    ensures Xor(a, b) % 2 == (a % 2 + b % 2) % 2
    ensures Xor(a, b) / 2 == Xor(a / 2, b / 2)
  {
  }

  /** Dividing by 2^(i+1) is halving and then dividing by 2^i. */
  lemma DivPow2Step(n: nat, i: nat)
    ensures n / Pow2(i + 1) == (n / 2) / Pow2(i)
  {
    var p := Pow2(i);
    var q := (n / 2) / p;
    var r := (n / 2) % p;
    assert n / 2 == q * p + r;
    assert n == q * (2 * p) + (2 * r + n % 2);
    assert 0 <= 2 * r + n % 2 < 2 * p;
    DivUnique(n, 2 * p, q, 2 * r + n % 2);
  }

  /** Quotient and remainder are unique. */
  lemma DivUnique(n: nat, d: nat, q: nat, r: nat)
    requires 0 <= r < d
    requires n == q * d + r
    ensures n / d == q
  {
    var q', r' := n / d, n % d;
    assert n == q' * d + r';
    if q' < q {
      MulAtLeast(q - q', d);
    } else if q' > q {
      MulAtLeast(q' - q, d);
    }
  }

  lemma MulAtLeast(k: nat, d: nat)
    requires k >= 1
    ensures k * d >= d
  {
  }

  /** The remainder that goes with a unique quotient. */
  lemma ModUnique(n: nat, d: nat, q: nat, r: nat)
    requires 0 <= r < d
    requires n == q * d + r
    ensures n % d == r
  {
    DivUnique(n, d, q, r);
  }

  /** Reducing modulo 2^n commutes with taking the low bit and halving. */
  lemma ModPow2Halves(v: nat, n: nat)
    requires n >= 1
    ensures (v % Pow2(n)) % 2 == v % 2
    ensures (v % Pow2(n)) / 2 == (v / 2) % Pow2(n - 1)
  {
    var p := Pow2(n - 1);
    var q, r := v / (2 * p), v % (2 * p);
    assert v == (q * p) * 2 + r;
    assert v == 2 * (q * p + r / 2) + r % 2;
    ModUnique(v, 2, q * p + r / 2, r % 2);
    DivUnique(v, 2, q * p + r / 2, r % 2);
    assert v / 2 == q * p + r / 2;
    ModUnique(v / 2, p, q, r / 2);
  }

  /** Below bit `n`, `v % 2^n` has the bits of `v`. */
  lemma {:induction false} ModPow2Bit(v: nat, n: nat, i: nat)
    requires i < n
    ensures Bit(v % Pow2(n), i) == Bit(v, i)
  {
    ModPow2Halves(v, n);
    if i == 0 {
      assert Bit(v % Pow2(n), 0) == (v % Pow2(n)) % 2;
      assert Bit(v, 0) == v % 2;
    } else {
      ModPow2Bit(v / 2, n - 1, i - 1);
      BitStep(v % Pow2(n), i - 1);
      BitStep(v, i - 1);
    }
  }

  /** Bit `i + 1` of `n` is bit `i` of `n / 2`. */
  lemma BitStep(n: nat, i: nat)
    ensures Bit(n, i + 1) == Bit(n / 2, i)
  {
    DivPow2Step(n, i);
  }

  /**
   * Reference characterisation: bit `i` of `Xor(a, b)` is set exactly when
   * the bits `i` of `a` and `b` differ.
   */
  lemma {:induction false} XorBit(a: nat, b: nat, i: nat)
    ensures Bit(Xor(a, b), i) == if Bit(a, i) == Bit(b, i) then 0 else 1
  {
    XorHalves(a, b);
    if i == 0 {
      assert Bit(Xor(a, b), 0) == Xor(a, b) % 2;
      assert Bit(a, 0) == a % 2 && Bit(b, 0) == b % 2;
    } else {
      XorBit(a / 2, b / 2, i - 1);
      BitStep(Xor(a, b), i - 1);
      BitStep(a, i - 1);
      BitStep(b, i - 1);
    }
  }

  /** Two operands of `n` bits give an `n`-bit exclusive or. */
  lemma {:induction false} XorBound(a: nat, b: nat, n: nat)
    requires a < Pow2(n) && b < Pow2(n)
    ensures Xor(a, b) < Pow2(n)
  {
    if n > 0 && !(a == 0 && b == 0) {
      XorBound(a / 2, b / 2, n - 1);
    }
  }

  /** Zero is the identity of exclusive or. */
  lemma {:induction false} XorZero(b: nat)
    ensures Xor(0, b) == b
    ensures Xor(b, 0) == b
  {
    if b > 0 {
      XorZero(b / 2);
    }
  }

  lemma {:induction false} XorCommutes(a: nat, b: nat)
    ensures Xor(a, b) == Xor(b, a)
    decreases a + b
  {
    if !(a == 0 && b == 0) {
      XorCommutes(a / 2, b / 2);
    }
  }

  /** Exclusive or with `b` undoes itself. */
  lemma {:induction false} XorInverse(a: nat, b: nat)
    ensures Xor(Xor(a, b), b) == a
    decreases a + b
  {
    var c := Xor(a, b);
    if a == 0 && b == 0 {
    } else if c == 0 && b == 0 {
      XorZero(a);
    } else {
      XorHalves(a, b);
      XorInverse(a / 2, b / 2);
      assert Xor(c, b) == 2 * Xor(c / 2, b / 2) + (c % 2 + b % 2) % 2;
    }
  }

  /** For a fixed `x`, `k |-> Xor(x, k)` is one-to-one. */
  lemma XorInjective(x: nat, k1: nat, k2: nat)
    requires Xor(x, k1) == Xor(x, k2)
    ensures k1 == k2
  {
    XorCommutes(x, k1);
    XorCommutes(x, k2);
    XorInverse(k1, x);
    XorInverse(k2, x);
  }

  /**
   * An operand narrower than `n` bits leaves every bit of the other operand
   * from bit `n` upwards as it was: exclusive or of a zero-extended 32-bit
   * constant with a 64-bit key changes only the key's low half.
   */
  lemma {:induction false} XorHigh(a: nat, b: nat, n: nat)
    requires a < Pow2(n)
    ensures Xor(a, b) / Pow2(n) == b / Pow2(n)
  {
    if n == 0 {
      XorZero(b);
    } else {
      XorHalves(a, b);
      XorHigh(a / 2, b / 2, n - 1);
      DivPow2Step(Xor(a, b), n - 1);
      DivPow2Step(b, n - 1);
    }
  }

  /**
   * C's `^` on two `unsigned long long` operands: a 64-bit value whose bit i
   * is set exactly when bit i of the operands differ.
   */
  function Xor64(a: Uint64, b: Uint64): (r: Uint64)
    ensures forall i: nat :: Bit(r, i) == if Bit(a, i) == Bit(b, i) then 0 else 1
  {
    Pow2Widths();
    XorBound(a, b, 64);
    forall i: nat
      ensures Bit(Xor(a, b), i) == if Bit(a, i) == Bit(b, i) then 0 else 1
    {
      XorBit(a, b, i);
    }
    Xor(a, b)
  }

  /** C's `+` on two `unsigned long long` operands: the sum wraps modulo 2^64. */
  function WrappingAdd(a: Uint64, b: Uint64): (r: Uint64)
    ensures a + b < TWO_64 ==> r == a + b
    ensures a + b >= TWO_64 ==> r == a + b - TWO_64
  {
    (a + b) % TWO_64
  }

  /** The usual arithmetic conversion of an `unsigned` to `unsigned long long`. */
  function ZeroExtend(x: Uint32): (r: Uint64)
    ensures r / TWO_32 == 0 && r % TWO_32 == x
  {
    x
  }

  /** Conversion of an `unsigned long long` to `unsigned`: the low 32 bits. */
  function Truncate32(v: Uint64): (r: Uint32)
    ensures v < TWO_32 ==> r == v
    ensures forall i: nat :: i < 32 ==> Bit(r, i) == Bit(v, i)
  {
    Pow2Widths();
    forall i: nat | i < 32
      ensures Bit(v % Pow2(32), i) == Bit(v, i)
    {
      ModPow2Bit(v, 32, i);
    }
    v % TWO_32
  }
}
