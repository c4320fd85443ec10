/** The C operators that memventi's shift-and-mask code uses, on unbounded
    naturals: bitwise and, or and and-not, left shift, and the truncations
    that C's unsigned types apply on a store. */
module COps {
  import opened Arith
  import opened Fns

  /** `x & y` */
  function And(x: nat, y: nat): nat
  {
    if x == 0 || y == 0 then 0
    else 2 * And(x / 2, y / 2) + (if x % 2 == 1 && y % 2 == 1 then 1 else 0)
  }

  /** `x | y` */
  function Or(x: nat, y: nat): nat
    decreases x + y
  {
    if x == 0 then y
    else if y == 0 then x
    else 2 * Or(x / 2, y / 2) + (if x % 2 == 1 || y % 2 == 1 then 1 else 0)
  }

  /** `x & ~y` */
  function AndNot(x: nat, y: nat): nat
  {
    if x == 0 then 0
    else 2 * AndNot(x / 2, y / 2) + (if x % 2 == 1 && y % 2 == 0 then 1 else 0)
  }

  /** The truncation of a C store into a `uchar`. */
  function U8(x: nat): byte
  {
    x % 256
  }

  /** The truncation of `uint` arithmetic. */
  function U32(x: nat): nat
  {
    x % 0x1_0000_0000
  }

  /** The truncation of `uvlong` arithmetic. */
  function U64(x: nat): nat
  {
    x % 0x1_0000_0000_0000_0000
  }

  lemma U64Small(x: nat)
    requires x < 0x1_0000_0000_0000_0000
    ensures U64(x) == x
  {
    DivMulAdd(0, x, 0x1_0000_0000_0000_0000);
  }

  /** `x << k` on unbounded integers. */
  function Shl(x: nat, k: nat): nat
  {
    MulNat(x, Pow2(k));
    x * Pow2(k)
  }

  /** `x & y` keeps no bit that `y` lacks, so it is at most `y`. */
  lemma {:induction false} AndAtMost(x: nat, y: nat)
    ensures And(x, y) <= y
  {
    if x != 0 && y != 0 {
      AndAtMost(x / 2, y / 2);
    }
  }

  /** Clearing the `k` low bits: `x & ~((1 << k) - 1)` is `x` less `x mod 2^k`. */
  lemma {:induction false} AndNotLowMask(x: nat, k: nat)
    ensures AndNot(x, Pow2(k) - 1) == x - x % Pow2(k)
  {
    if x != 0 {
      if k == 0 {
        AndNotZero(x);
      } else {
        var m := Pow2(k) - 1;
        assert m / 2 == Pow2(k - 1) - 1 && m % 2 == 1;
        AndNotLowMask(x / 2, k - 1);
        DivPow2Add(x, 1, k - 1);
        assert Pow2(1) == 2;
      }
    }
  }

  /** `x & ~0` is `x`. */
  lemma {:induction false} AndNotZero(x: nat)
    ensures AndNot(x, 0) == x
  {
    if x != 0 {
      AndNotZero(x / 2);
    }
  }

  /** One step of `|`, for every pair of operands: the low bit is the or of
      the low bits, the rest is the or of the halves. */
  lemma OrStep(x: nat, y: nat)
    ensures Or(x, y) == 2 * Or(x / 2, y / 2) + (if x % 2 == 1 || y % 2 == 1 then 1 else 0)
  {
    if x == 0 {
      OrZero(y / 2);
    } else if y == 0 {
      OrZero(x / 2);
    }
  }

  /** `0 | y` and `y | 0` are `y`. */
  lemma OrZero(y: nat)
    ensures Or(0, y) == y && Or(y, 0) == y
  {
  }

  /** `|` acts bit by bit, so the low `k` bits of `x | y` are the or of the
      low `k` bits of `x` and `y`: a truncating store may be taken first. */
  lemma {:induction false} OrLowBits(x: nat, y: nat, k: nat)
    ensures Or(x, y) % Pow2(k) == Or(x % Pow2(k), y % Pow2(k))
  {
    if k > 0 {
      var x', y' := x % Pow2(k), y % Pow2(k);
      var b := if x % 2 == 1 || y % 2 == 1 then 1 else 0;
      var o := Or(x / 2, y / 2);
      OrStep(x, y);
      DivMulAdd(o, b, 2);
      HalfMod(Or(x, y), k);
      assert Or(x, y) % Pow2(k) == 2 * (o % Pow2(k - 1)) + b;
      OrLowBits(x / 2, y / 2, k - 1);
      HalfMod(x, k);
      HalfMod(y, k);
      OrStep(x', y');
    }
  }

  /** The low `k` bits of `x` are its low bit and the low `k - 1` bits of
      `x / 2`. */
  lemma HalfMod(x: nat, k: nat)
    requires k > 0
    ensures x % Pow2(k) == 2 * ((x / 2) % Pow2(k - 1)) + x % 2
    ensures (x % Pow2(k)) / 2 == (x / 2) % Pow2(k - 1) && (x % Pow2(k)) % 2 == x % 2
  {
    DivPow2Add(x, 1, k - 1);
    assert Pow2(1) == 2;
    var q := (x / 2) % Pow2(k - 1);
    DivMulAdd(q, x % 2, 2);
  }

  /** `(x << k) | y` is `(x << k) + y` when `y` has no bit at or above `k`. */
  lemma {:induction false} OrDisjoint(x: nat, y: nat, k: nat)
    requires y < Pow2(k)
    ensures Or(x * Pow2(k), y) == x * Pow2(k) + y
  {
    MulNat(x, Pow2(k));
    if k == 0 {
      OrZero(x);
    } else {
      var X := x * Pow2(k);
      assert X == 2 * (x * Pow2(k - 1)) by {
        Twice(x, Pow2(k - 1));
      }
      MulNat(x, Pow2(k - 1));
      OrStep(X, y);
      DivMulAdd(x * Pow2(k - 1), 0, 2);
      OrDisjoint(x, y / 2, k - 1);
    }
  }

  /** `x & ((1 << k) - 1)` is `x mod 2^k`. */
  lemma {:induction false} AndLowMask(x: nat, k: nat)
    ensures And(x, Pow2(k) - 1) == x % Pow2(k)
  {
    if x != 0 && k != 0 {
      var m := Pow2(k) - 1;
      assert m / 2 == Pow2(k - 1) - 1 && m % 2 == 1;
      AndLowMask(x / 2, k - 1);
      HalfMod(x, k);
    }
  }

  /** `x & ~(1 << k)` changes none of the low `k` bits of `x` ... */
  lemma {:induction false} AndNotBitLow(x: nat, k: nat)
    ensures AndNot(x, Pow2(k)) % Pow2(k) == x % Pow2(k)
  {
    if k > 0 && x != 0 {
      var a := AndNot(x, Pow2(k));
      assert Pow2(k) / 2 == Pow2(k - 1) && Pow2(k) % 2 == 0;
      assert a == 2 * AndNot(x / 2, Pow2(k - 1)) + x % 2;
      AndNotBitLow(x / 2, k - 1);
      HalfMod(a, k);
      HalfMod(x, k);
      DivMulAdd(AndNot(x / 2, Pow2(k - 1)), x % 2, 2);
    }
  }

  /** ... and none at all of an `x` below `2^k`. */
  lemma {:induction false} AndNotBitSmall(x: nat, k: nat)
    requires x < Pow2(k)
    ensures AndNot(x, Pow2(k)) == x
  {
    if x != 0 {
      assert k > 0;
      assert Pow2(k) / 2 == Pow2(k - 1) && Pow2(k) % 2 == 0;
      AndNotBitSmall(x / 2, k - 1);
    }
  }
}
