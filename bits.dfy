/** Reference definitions for bit fields packed into byte buffers in network
    bit order: a buffer is read as the string of its bits, most significant
    bit of the first byte first.  The in-memory index and getuvlong and
    putuvlong of pack.c are stated against these. */
module Bits {
  import opened Arith
  import opened Fns
  import opened Seqs

  type bit = b: int | 0 <= b < 2

  /** The `k` low-order bits of `v`, most significant first. */
  function BitsOf(v: nat, k: nat): (s: seq<bit>)
    ensures |s| == k
  {
    if k == 0 then [] else BitsOf(v / 2, k - 1) + [v % 2]
  }

  /** The unsigned number a bit string denotes, first bit most significant. */
  function Value(s: seq<bit>): (r: nat)
    ensures r < Pow2(|s|)
  {
    if s == [] then 0 else 2 * Value(s[..|s| - 1]) + s[|s| - 1]
  }

  /** The bits of a buffer, byte by byte. */
  function BufBits(d: seq<byte>): (s: seq<bit>)
    ensures |s| == 8 * |d|
  {
    if d == [] then [] else BufBits(d[..|d| - 1]) + BitsOf(d[|d| - 1], 8)
  }

  /** Bit `k` of a buffer: bit `7 - k % 8` of byte `k / 8`. */
  function Bit(d: seq<byte>, k: nat): bit
    requires k < 8 * |d|
  {
    Shr(d[k / 8], 7 - k % 8) % 2
  }

  /** The unsigned number held by the `n` bits of `d` starting at bit `off`,
      first bit most significant. */
  function Field(d: seq<byte>, off: nat, n: nat): (r: nat)
    requires off + n <= 8 * |d|
    ensures r < Pow2(n)
  {
    if n == 0 then 0 else 2 * Field(d, off, n - 1) + Bit(d, off + n - 1)
  }

  /** `d` and `e` hold the same bits from bit `lo` up to bit `hi`. */
  predicate BitsAgree(d: seq<byte>, e: seq<byte>, lo: nat, hi: nat)
  {
    lo <= hi <= 8 * |d| && hi <= 8 * |e| && forall k {:trigger Bit(e, k), Bit(d, k)} :: lo <= k < hi ==> Bit(e, k) == Bit(d, k)
  }

  /** A field is determined by its bits. */
  lemma {:induction false} FieldAgree(d: seq<byte>, e: seq<byte>, q: nat, m: nat)
    requires BitsAgree(d, e, q, q + m)
    ensures Field(e, q, m) == Field(d, q, m)
  {
    if m > 0 {
      FieldAgree(d, e, q, m - 1);
    }
  }

  /** Byte `j` read as an 8-bit field at bit `8j`. */
  lemma FieldByte(d: seq<byte>, j: nat)
    requires j < |d|
    ensures 8 * j + 8 <= 8 * |d| && Field(d, 8 * j, 8) == d[j]
  {
    FieldInByte(d, j, 8);
    assert Pow2(0) == 1;
  }

  /** The first `m` bits of byte `j` are its top `m` bits. */
  lemma {:induction false} FieldInByte(d: seq<byte>, j: nat, m: nat)
    requires j < |d| && m <= 8
    ensures 8 * j + m <= 8 * |d| && Field(d, 8 * j, m) == Shr(d[j], 8 - m)
  {
    if m == 0 {
      var x := d[j];
      assert Pow2(8) == 256;
      DivMulAdd(0, x, 256);
    } else {
      FieldInByte(d, j, m - 1);
      BitInByte(d, j, m - 1);
      HalfStep(d[j], 8 - m);
    }
  }

  lemma BitInByte(d: seq<byte>, j: nat, r: nat)
    requires j < |d| && r < 8
    ensures 8 * j + r < 8 * |d| && Bit(d, 8 * j + r) == Shr(d[j], 7 - r) % 2
  {
    DivMulAdd(j, r, 8);
  }

  /** `x >> k` is twice `x >> (k + 1)` plus its own low bit. */
  lemma HalfStep(x: nat, k: nat)
    ensures Shr(x, k) == 2 * Shr(x, k + 1) + Shr(x, k) % 2
  {
    var y := Shr(x, k);
    ShrShr(x, k, 1);
    assert Pow2(1) == 2;
    assert Shr(y, 1) == y / 2;
  }

  /** Bit `j` of `BitsOf(v, m)` is bit `m - 1 - j` of `v`. */
  lemma {:induction false} BitsOfAt(v: nat, m: nat, j: nat)
    requires j < m
    ensures BitsOf(v, m)[j] == Shr(v, m - 1 - j) % 2
  {
    if j < m - 1 {
      BitsOfAt(v / 2, m - 1, j);
      ShrShr(v, 1, m - 2 - j);
      assert Pow2(1) == 2;
      assert 1 + (m - 2 - j) == m - 1 - j;
    } else {
      assert Pow2(0) == 1;
    }
  }

  /** The bit string of a buffer holds its bits in order. */
  lemma {:induction false} BufBitsBit(d: seq<byte>, k: nat)
    requires k < 8 * |d|
    ensures BufBits(d)[k] == Bit(d, k)
  {
    var init, last := d[..|d| - 1], d[|d| - 1];
    if k < 8 * |init| {
      BufBitsBit(init, k);
      assert init[k / 8] == d[k / 8];
    } else {
      var j := k - 8 * |init|;
      BitsOfAt(last, 8, j);
      DivMulAdd(|init|, j, 8);
    }
  }

  /** A field is the number its slice of the bit string denotes. */
  lemma {:induction false} FieldValue(d: seq<byte>, off: nat, n: nat)
    requires off + n <= 8 * |d|
    ensures Field(d, off, n) == Value(BufBits(d)[off..off + n])
  {
    var B := BufBits(d);
    if n > 0 {
      FieldValue(d, off, n - 1);
      BufBitsBit(d, off + n - 1);
      ValueSlice(B, off, n);
    } else {
      assert B[off..off] == [];
    }
  }

  /** The value of a slice, by its last bit. */
  lemma ValueSlice(B: seq<bit>, off: nat, n: nat)
    requires 0 < n && off + n <= |B|
    ensures Value(B[off..off + n]) == 2 * Value(B[off..off + n - 1]) + B[off + n - 1]
  {
    var s := B[off..off + n];
    assert s[..n - 1] == B[off..off + n - 1];
    assert s[n - 1] == B[off + n - 1];
  }

  // ---------------------------------------------------------------------
  // Bit strings and numbers

  lemma {:induction false} ValueConcat(s: seq<bit>, t: seq<bit>)
    ensures Value(s + t) == Value(s) * Pow2(|t|) + Value(t)
  {
    if t != [] {
      var t', c := t[..|t| - 1], t[|t| - 1];
      var st := s + t;
      assert st[..|st| - 1] == s + t';
      ValueConcat(s, t');
      Regroup2(Value(s), Pow2(|t'|), Value(t'), c);
    } else {
      assert s + t == s;
    }
  }

  lemma Regroup2(x: int, p: int, y: int, c: int)
    ensures 2 * (x * p + y) + c == x * (2 * p) + (2 * y + c)
  {
  }

  /** The number denoted by the `k` low bits of `v` is `v mod 2^k`. */
  lemma {:induction false} ValueBitsOf(v: nat, k: nat)
    ensures Value(BitsOf(v, k)) == v % Pow2(k)
  {
    if k > 0 {
      var s := BitsOf(v, k);
      assert s[..k - 1] == BitsOf(v / 2, k - 1);
      ValueBitsOf(v / 2, k - 1);
      DivPow2Add(v, 1, k - 1);
      assert Pow2(1) == 2;
    }
  }

  /** ... and the bits of the number a bit string denotes are that string. */
  lemma {:induction false} BitsOfValue(s: seq<bit>)
    ensures BitsOf(Value(s), |s|) == s
  {
    if s != [] {
      var init := s[..|s| - 1];
      BitsOfValue(init);
      DivMulAdd(Value(init), s[|s| - 1], 2);
      assert s == init + [s[|s| - 1]];
    }
  }

  /** The `a+b` low bits of `v` are the `a` bits above bit `b`, then the `b` low bits. */
  lemma {:induction false} BitsOfSplit(v: nat, a: nat, b: nat)
    ensures BitsOf(v, a + b) == BitsOf(Shr(v, b), a) + BitsOf(v, b)
  {
    if b > 0 {
      BitsOfSplit(v / 2, a, b - 1);
      DivPow2Add(v, 1, b - 1);
      assert Pow2(1) == 2;
      assert 1 + (b - 1) == b;
    }
  }

  /** Only the low `k` bits of `v` reach `BitsOf(v, k)`. */
  lemma {:induction false} BitsOfMod(v: nat, k: nat)
    ensures BitsOf(v % Pow2(k), k) == BitsOf(v, k)
  {
    if k > 0 {
      var m := v % Pow2(k);
      DivPow2Add(v, 1, k - 1);
      assert Pow2(1) == 2;
      assert m == ((v / 2) % Pow2(k - 1)) * 2 + v % 2;
      DivMulAdd((v / 2) % Pow2(k - 1), v % 2, 2);
      BitsOfMod(v / 2, k - 1);
    }
  }

  /** `(x << b) | y` with `y < 2^b` has the bits of `x` followed by those of `y`. */
  lemma BitsOfCompose(x: nat, y: nat, a: nat, b: nat)
    requires y < Pow2(b)
    ensures BitsOf(x * Pow2(b) + y, a + b) == BitsOf(x, a) + BitsOf(y, b)
  {
    var n := x * Pow2(b) + y;
    DivMulAdd(x, y, Pow2(b));
    BitsOfSplit(n, a, b);
    BitsOfMod(n, b);
  }

  /** Bits `[boff, boff+m)` of a byte are `(v >> (8-boff-m)) & ((1<<m)-1)`. */
  lemma ByteChunk(v: nat, boff: nat, m: nat)
    requires boff + m <= 8
    ensures BitsOf(v, 8)[boff..boff + m] == BitsOf(Shr(v, 8 - m - boff), m)
  {
    var s := 8 - m - boff;
    BitsOfSplit(v, boff + m, s);
    BitsOfSplit(Shr(v, s), boff, m);
    assert boff + m + s == 8;
  }

  // ---------------------------------------------------------------------
  // Buffers as bit strings

  lemma {:induction false} BufBitsConcat(a: seq<byte>, b: seq<byte>)
    ensures BufBits(a + b) == BufBits(a) + BufBits(b)
  {
    if b == [] {
      assert a + b == a;
    } else {
      var b' := b[..|b| - 1];
      assert (a + b)[..|a + b| - 1] == a + b';
      BufBitsConcat(a, b');
    }
  }

  /** Byte `k` of a buffer is bits `[8k, 8k+8)` of it. */
  lemma BufBitsAt(d: seq<byte>, k: nat)
    requires k < |d|
    ensures BufBits(d) == BufBits(d[..k]) + BitsOf(d[k], 8) + BufBits(d[k + 1..])
  {
    var a, c, b := d[..k], d[k], d[k + 1..];
    var ac := d[..k + 1];
    SplitAt(d, k);
    BufBitsConcat(ac, b);
    BufBitsConcat(a, [c]);
    BufBitsOne(c);
  }


  lemma BufBitsOne(c: byte)
    ensures BufBits([c]) == BitsOf(c, 8)
  {
    assert [c][..0] == [];
  }

  /** Replacing byte `k` replaces bits `[8k, 8k+8)` and nothing else. */
  lemma BufBitsUpdate(d: seq<byte>, k: nat, nb: byte)
    requires k < |d|
    ensures BufBits(d[k := nb]) == BufBits(d)[..8 * k] + BitsOf(nb, 8) + BufBits(d)[8 * k + 8..]
    ensures BufBits(d)[8 * k..8 * k + 8] == BitsOf(d[k], 8)
  {
    var e := d[k := nb];
    BufBitsAt(d, k);
    BufBitsAt(e, k);
    UpdateSlices(d, k, nb);
    Slices3(BufBits(d[..k]), BitsOf(d[k], 8), BufBits(d[k + 1..]));
  }

  /** Bits `[8k, 8k+8)` of a buffer are the bits of byte `k`. */
  lemma ByteBits(d: seq<byte>, k: nat)
    requires k < |d|
    ensures BufBits(d)[8 * k..8 * k + 8] == BitsOf(d[k], 8)
  {
    BufBitsAt(d, k);
    Slices3(BufBits(d[..k]), BitsOf(d[k], 8), BufBits(d[k + 1..]));
  }


}
