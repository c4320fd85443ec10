/** Powers of two and the division/modulo facts that the shift-and-mask code
    of memventi reduces to once `x >> k` is read as `x / Pow2(k)` and
    `x & ((1 << k) - 1)` as `x % Pow2(k)`.  Each nonlinear step is a lemma
    of its own so that the solver meets one product at a time. */
module Arith {

  function Pow2(n: nat): (r: nat)
    ensures r >= 1
  {
    if n == 0 then 1 else 2 * Pow2(n - 1)
  }

  lemma {:induction false} Pow2Add(a: nat, b: nat)
    ensures Pow2(a + b) == Pow2(a) * Pow2(b)
  {
    if b > 0 {
      Pow2Add(a, b - 1);
      assert Pow2(a + b) == 2 * Pow2(a + (b - 1));
      Twice(Pow2(a), Pow2(b - 1));
    }
  }

  /** Pow2Add with the sum named, so that callers need no arithmetic on the exponent. */
  lemma Pow2Sum(a: nat, b: nat, n: nat)
    requires a + b == n
    ensures Pow2(n) == Pow2(a) * Pow2(b)
  {
    Pow2Add(a, b);
  }

  lemma MulNat(x: nat, y: nat)
    ensures x * y >= 0
  {
  }

  lemma Twice(x: int, y: int)
    ensures 2 * (x * y) == x * (2 * y)
  {
  }

  lemma Pow2Of8()
    ensures Pow2(8) == 256
  {
  }

  /** The powers of two the fixed-width fields of memventi use, up to 32 bits. */
  lemma Pow2Values()
    ensures Pow2(1) == 2 && Pow2(8) == 256 && Pow2(16) == 0x1_0000
    ensures Pow2(24) == 0x100_0000 && Pow2(32) == 0x1_0000_0000
  {
    Pow2Byte(0);
    Pow2Byte(1);
    Pow2Byte(2);
    Pow2Byte(3);
  }

  /** ... the 48-bit one ... */
  lemma Pow2Of48()
    ensures Pow2(48) == 0x1_0000_0000_0000
  {
    Pow2Values();
    Pow2Byte(4);
    Pow2Byte(5);
  }

  /** ... and the 64-bit one. */
  lemma Pow2Of64()
    ensures Pow2(64) == 0x1_0000_0000_0000_0000
  {
    Pow2Of48();
    Pow2Byte(6);
    Pow2Byte(7);
  }

  lemma Pow2Byte(k: nat)
    ensures Pow2(8 * k + 8) == Pow2(8 * k) * 256
  {
    Pow2Add(8 * k, 8);
    assert Pow2(8) == 256;
  }

  lemma {:induction false} Pow2Mono(a: nat, b: nat)
    requires a <= b
    ensures Pow2(a) <= Pow2(b)
  {
    if a < b {
      Pow2Mono(a, b - 1);
    }
  }

  /** `v >> k` */
  function Shr(v: nat, k: nat): (r: nat)
  {
    DivNonneg(v, Pow2(k));
    v / Pow2(k)
  }

  /** `(v >> a) >> b == v >> (a + b)` */
  lemma ShrShr(v: nat, a: nat, b: nat)
    ensures Shr(Shr(v, a), b) == Shr(v, a + b)
  {
    DivPow2Add(v, a, b);
  }

  lemma DivNonneg(x: nat, m: int)
    requires m > 0
    ensures 0 <= x / m <= x
  {
    var q, r := x / m, x % m;
    assert x == q * m + r && 0 <= r < m;
    if q < 0 {
      MulLower(-q, m);
    }
    if q > x {
      MulNotLess(q, m);
    }
  }

  lemma MulNotLess(q: int, m: int)
    requires q >= 0 && m >= 1
    ensures q * m >= q
  {
  }

  lemma MulLower(q: int, m: int)
    requires q >= 1 && m > 0
    ensures q * m >= m
  {
  }

  lemma MulLeq(a: int, b: int, m: int)
    requires a <= b && m >= 0
    ensures a * m <= b * m
  {
  }

  lemma Distribute(a: int, b: int)
    ensures (a - 1) * b == a * b - b && b * a == a * b
  {
  }

  /** Division by a positive modulus is unique: quotient q, remainder r. */
  lemma DivMulAdd(q: int, r: int, m: int)
    requires m > 0 && 0 <= r < m
    ensures (q * m + r) / m == q
    ensures (q * m + r) % m == r
  {
    var x := q * m + r;
    var q', r' := x / m, x % m;
    assert x == q' * m + r';
    assert (q - q') * m == r' - r;
    if q - q' >= 1 {
      MulLower(q - q', m);
    }
    if q' - q >= 1 {
      MulLower(q' - q, m);
    }
  }

  lemma DivDiv(x: nat, a: nat, b: nat)
    requires a > 0 && b > 0
    ensures x / (a * b) == (x / a) / b
    ensures x % (a * b) == ((x / a) % b) * a + x % a
  {
    var q := (x / a) / b;
    var s := (x / a) % b;
    var t := x % a;
    Expand(x, x / a, q, s, t, a, b);
    assert s * a + t < a * b by {
      MulLeq(s, b - 1, a);
      Distribute(b, a);
    }
    DivMulAdd(q, s * a + t, a * b);
  }

  lemma Expand(x: int, y: int, q: int, s: int, t: int, a: int, b: int)
    requires x == y * a + t && y == q * b + s
    ensures x == q * (a * b) + (s * a + t)
  {
  }

  /** `x / 2^(a+b)` is `x / 2^a / 2^b`, and the low `a+b` bits split accordingly. */
  lemma DivPow2Add(x: nat, a: nat, b: nat)
    ensures x / Pow2(a + b) == (x / Pow2(a)) / Pow2(b)
    ensures x % Pow2(a + b) == ((x / Pow2(a)) % Pow2(b)) * Pow2(a) + x % Pow2(a)
  {
    Pow2Add(a, b);
    DivDiv(x, Pow2(a), Pow2(b));
  }

  /** Taking fewer low bits of the low bits keeps the low bits. */
  lemma ModModPow2(x: nat, a: nat, b: nat)
    requires b <= a
    ensures (x % Pow2(a)) % Pow2(b) == x % Pow2(b)
  {
    DivPow2Add(x, b, a - b);
    var s := ((x / Pow2(b)) % Pow2(a - b));
    DivMulAdd(s, x % Pow2(b), Pow2(b));
  }
}
