/** The helper macros of fns.h: MAX/MIN and the big-endian GET and PUT
    macros that every on-disk and on-wire integer of memventi goes through.
    A byte is an integer in [0, 256); a C address `p` inside a buffer is a
    buffer and an index into it. */
module Fns {
  import opened Arith

  type byte = b: int | 0 <= b < 256

  /** MAX(a, b) */
  function Max(a: int, b: int): (r: int)
    ensures r >= a && r >= b
    ensures r == a || r == b
  {
    if a > b then a else b
  }

  /** MIN(a, b) */
  function Min(a: int, b: int): (r: int)
    ensures r <= a && r <= b
    ensures r == a || r == b
  {
    if a < b then a else b
  }

  // ---------------------------------------------------------------------
  // Reference definitions of big-endian integers.

  /** The unsigned number whose big-endian (most significant byte first)
      representation is `s`. */
  function BE(s: seq<byte>): (r: nat)
    ensures r < Pow2(8 * |s|)
  {
    if s == [] then 0
    else
      var init := s[..|s| - 1];
      Pow2Byte(|init|);
      AppendDigit(BE(init), s[|s| - 1], Pow2(8 * |init|), 256);
      BE(init) * 256 + s[|s| - 1]
  }

  /** The `k` low-order bytes of `v`, most significant first: what a C store of
      `v` through a `k`-byte big-endian field leaves in memory. */
  function BEBytes(v: nat, k: nat): (s: seq<byte>)
    ensures |s| == k
  {
    if k == 0 then [] else BEBytes(v / 256, k - 1) + [v % 256]
  }

  /** Appending a base-`b` digit to a number below `p` gives one below `p * b`. */
  lemma AppendDigit(x: nat, c: nat, p: nat, b: nat)
    requires x < p && c < b
    ensures x * b + c < p * b
  {
    MulLeq(x, p - 1, b);
    Distribute(p, b);
  }

  lemma {:induction false} BEConcat(s: seq<byte>, t: seq<byte>)
    ensures BE(s + t) == BE(s) * Pow2(8 * |t|) + BE(t)
  {
    if t == [] {
      assert s + t == s;
    } else {
      var t', c := t[..|t| - 1], t[|t| - 1];
      var st := s + t;
      assert st[..|st| - 1] == s + t';
      assert BE(st) == BE(s + t') * 256 + c;
      BEConcat(s, t');
      Pow2Byte(|t'|);
      Regroup(BE(s), Pow2(8 * |t'|), BE(t'), c);
    }
  }

  lemma Regroup(a: int, m: int, b: int, c: int)
    ensures (a * m + b) * 256 + c == a * (m * 256) + (b * 256 + c)
  {
  }

  /** Reading back `k` stored bytes yields the stored value modulo 2^(8k). */
  lemma {:induction false} BEOfBEBytes(v: nat, k: nat)
    ensures BE(BEBytes(v, k)) == v % Pow2(8 * k)
  {
    if k > 0 {
      var s := BEBytes(v, k);
      assert s[..k - 1] == BEBytes(v / 256, k - 1);
      BEOfBEBytes(v / 256, k - 1);
      DivPow2Add(v, 8, 8 * (k - 1));
      Pow2Values();
    }
  }

  /** ... and the bytes of the value a byte string denotes are that string. */
  lemma {:induction false} BEBytesOfBE(s: seq<byte>)
    ensures BEBytes(BE(s), |s|) == s
  {
    if s != [] {
      var init := s[..|s| - 1];
      BEBytesOfBE(init);
      DivMulAdd(BE(init), s[|s| - 1], 256);
      assert s == init + [s[|s| - 1]];
    }
  }

  /** A value that fits in `k` bytes reads back exactly. */
  lemma BEExact(v: nat, k: nat)
    requires v < Pow2(8 * k)
    ensures BE(BEBytes(v, k)) == v
  {
    BEOfBEBytes(v, k);
    DivMulAdd(0, v, Pow2(8 * k));
  }

  /** Only the low 8k bits of a value reach its k stored bytes. */
  lemma {:induction false} BEBytesMod(v: nat, k: nat)
    ensures BEBytes(v % Pow2(8 * k), k) == BEBytes(v, k)
  {
    if k > 0 {
      var m := v % Pow2(8 * k);
      Pow2Values();
      DivPow2Add(v, 8, 8 * (k - 1));
      ModModPow2(v, 8 * k, 8);
      DivMulAdd((v / 256) % Pow2(8 * (k - 1)), v % 256, 256);
      assert m / 256 == (v / 256) % Pow2(8 * (k - 1));
      BEBytesMod(v / 256, k - 1);
    }
  }

  /** A (a+b)-byte store is the a high bytes followed by the b low bytes. */
  lemma {:induction false} BEBytesSplit(v: nat, a: nat, b: nat)
    ensures BEBytes(v, a + b) == BEBytes(Shr(v, 8 * b), a) + BEBytes(v, b)
  {
    if b > 0 {
      BEBytesSplit(v / 256, a, b - 1);
      DivPow2Add(v, 8, 8 * (b - 1));
      Pow2Values();
      assert 8 + 8 * (b - 1) == 8 * b;
    }
  }

  // ---------------------------------------------------------------------
  // GET8/16/24/32/48/64: reads of big-endian fields at the start of `p`.

  function Get8(p: seq<byte>): (r: nat)
    requires |p| >= 1
    ensures r == BE(p[..1])
  {
    assert p[..1][..0] == [];
    p[0]
  }

  function Get16(p: seq<byte>): (r: nat)
    requires |p| >= 2
    ensures r == BE(p[..2])
  {
    assert p[..2] == p[..1] + p[1..2];
    BEConcat(p[..1], p[1..2]);
    assert p[1..2][..0] == [];
    Pow2Values();
    (p[0] as int) * 256 + p[1] as int
  }

  function Get24(p: seq<byte>): (r: nat)
    requires |p| >= 3
    ensures r == BE(p[..3])
  {
    assert p[..3] == p[..1] + p[1..][..2];
    BEConcat(p[..1], p[1..][..2]);
    Pow2Values();
    Get8(p) * 0x1_0000 + Get16(p[1..])
  }

  function Get32(p: seq<byte>): (r: nat)
    requires |p| >= 4
    ensures r == BE(p[..4])
  {
    assert p[..4] == p[..2] + p[2..][..2];
    BEConcat(p[..2], p[2..][..2]);
    Pow2Values();
    Get16(p) * 65536 + Get16(p[2..])
  }

  function Get48(p: seq<byte>): (r: nat)
    requires |p| >= 6
    ensures r == BE(p[..6])
  {
    assert p[..6] == p[..2] + p[2..][..4];
    BEConcat(p[..2], p[2..][..4]);
    Pow2Values();
    Get16(p) * 0x1_0000_0000 + Get32(p[2..])
  }

  function Get64(p: seq<byte>): (r: nat)
    requires |p| >= 8
    ensures r == BE(p[..8])
  {
    assert p[..8] == p[..4] + p[4..][..4];
    BEConcat(p[..4], p[4..][..4]);
    Pow2Values();
    Get32(p) * 0x1_0000_0000 + Get32(p[4..])
  }

  // ---------------------------------------------------------------------
  // PUT8/16/32/48/64: stores into `p` at index `at`.  The C casts
  // `(uchar)`, `(uint16)` and `(uint32)` truncate, written here as `%`.

  method Put8(p: array<byte>, at: nat, v: nat)
    requires at + 1 <= p.Length
    modifies p
    ensures p[..] == old(p[..at]) + BEBytes(v, 1) + old(p[at + 1..])
  {
    p[at] := v % 256;
    assert p[..] == p[..at] + [p[at]] + p[at + 1..];
  }

  method Put16(p: array<byte>, at: nat, v: nat)
    requires at + 2 <= p.Length
    modifies p
    ensures p[..] == old(p[..at]) + BEBytes(v, 2) + old(p[at + 2..])
  {
    p[at] := (v / 256) % 256;
    p[at + 1] := v % 256;
    assert p[..] == p[..at] + [p[at], p[at + 1]] + p[at + 2..];
  }

  method Put32(p: array<byte>, at: nat, v: nat)
    requires at + 4 <= p.Length
    modifies p
    ensures p[..] == old(p[..at]) + BEBytes(v, 4) + old(p[at + 4..])
  {
    Pow2Values();
    ghost var p0 := p[..];
    Put16(p, at, (v / 0x1_0000) % 0x1_0000);
    ghost var p1 := p[..];
    Put16(p, at + 2, v % 0x1_0000);
    BEBytesMod(v / 0x1_0000, 2);
    BEBytesMod(v, 2);
    BEBytesSplit(v, 2, 2);
    Splice(p0, p1, p[..], at, 2, 2);
  }

  method Put48(p: array<byte>, at: nat, v: nat)
    requires at + 6 <= p.Length
    modifies p
    ensures p[..] == old(p[..at]) + BEBytes(v, 6) + old(p[at + 6..])
  {
    Pow2Values();
    ghost var p0 := p[..];
    Put16(p, at, (v / 0x1_0000_0000) % 0x1_0000);
    ghost var p1 := p[..];
    Put32(p, at + 2, v % 0x1_0000_0000);
    BEBytesMod(v / 0x1_0000_0000, 2);
    BEBytesMod(v, 4);
    BEBytesSplit(v, 2, 4);
    Splice(p0, p1, p[..], at, 2, 4);
  }

  method Put64(p: array<byte>, at: nat, v: nat)
    requires at + 8 <= p.Length
    modifies p
    ensures p[..] == old(p[..at]) + BEBytes(v, 8) + old(p[at + 8..])
  {
    Pow2Values();
    ghost var p0 := p[..];
    Put32(p, at, (v / 0x1_0000_0000) % 0x1_0000_0000);
    ghost var p1 := p[..];
    Put32(p, at + 4, v % 0x1_0000_0000);
    BEBytesMod(v / 0x1_0000_0000, 4);
    BEBytesMod(v, 4);
    BEBytesSplit(v, 4, 4);
    Splice(p0, p1, p[..], at, 4, 4);
  }

  /** Two adjacent stores compose into one store of their concatenation. */
  lemma Splice(p0: seq<byte>, p1: seq<byte>, p2: seq<byte>, at: nat, a: nat, b: nat)
    requires at + a + b <= |p0|
    requires |p1| == |p0| && |p2| == |p0| && p1[..at] == p0[..at] && p1[at + a..] == p0[at + a..]
    requires p2 == p1[..at + a] + p2[at + a..at + a + b] + p1[at + a + b..]
    ensures p2 == p0[..at] + (p1[at..at + a] + p2[at + a..at + a + b]) + p0[at + a + b..]
  {
    assert p1[..at + a] == p0[..at] + p1[at..at + a];
    assert p1[at + a + b..] == p0[at + a + b..];
  }

  // ---------------------------------------------------------------------
  // What a GET reads back after the matching PUT.

  lemma Get16Put16(v: nat)
    requires v < 0x1_0000
    ensures Get16(BEBytes(v, 2)) == v
  {
    var p := BEBytes(v, 2);
    assert p[..2] == p;
    Pow2Values();
    BEExact(v, 2);
  }

  lemma Get32Put32(v: nat)
    requires v < 0x1_0000_0000
    ensures Get32(BEBytes(v, 4)) == v
  {
    var p := BEBytes(v, 4);
    assert p[..4] == p;
    Pow2Values();
    BEExact(v, 4);
  }

  lemma Get48Put48(v: nat)
    requires v < 0x1_0000_0000_0000
    ensures Get48(BEBytes(v, 6)) == v
  {
    var p := BEBytes(v, 6);
    assert p[..6] == p;
    Pow2Of48();
    BEExact(v, 6);
  }

  lemma Get64Put64(v: nat)
    requires v < 0x1_0000_0000_0000_0000
    ensures Get64(BEBytes(v, 8)) == v
  {
    var p := BEBytes(v, 8);
    assert p[..8] == p;
    Pow2Of64();
    BEExact(v, 8);
  }

  /** PUT16 stores the high byte first: the encoding is big-endian. */
  lemma Put16HighByteFirst(v: nat)
    ensures BEBytes(v, 2) == [(v / 256) % 256, v % 256]
  {
    assert BEBytes(v, 2) == BEBytes(v / 256, 1) + [v % 256];
  }
}
