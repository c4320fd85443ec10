/** pack.c: the bit-field reader and writer of the in-memory index and the
    on-disk record headers of the data log and the index log. */
module Pack {
  import opened Arith
  import opened Fns
  import opened Bits
  import opened Seqs
  import opened Dat
  import opened Wrappers
  import opened COps


  // ---------------------------------------------------------------------
  // getuvlong / putuvlong

  /** Reads the `bits`-bit big-endian field at bit `bitoffset` of `data`,
      one byte-sized chunk per step. */
  method GetUvlong(data: seq<byte>, bitoffset: nat, bits: nat) returns (r: nat)
    requires bits <= 64 && bitoffset + bits <= 8 * |data|
    ensures r == Field(data, bitoffset, bits)
  {
    r := 0;
    var off: nat, left: nat := bitoffset, bits;
    var p := bitoffset / 8;
    ghost var done: nat := 0;
    while left > 0
      invariant off == bitoffset + done && done + left == bits
      invariant left > 0 ==> p == off / 8
      invariant r == Field(data, bitoffset, done)
    {
      var boff := off % 8;
      var bbits: nat := Min(left, 8 - boff);
      var chunk := Shr(data[p], 8 - bbits - boff) % Pow2(bbits);
      GetStep(data, bitoffset, done, p, boff, bbits, r, chunk);
      NextByte(off, p, boff, bbits, left);
      // the low `bbits` bits of `r << bbits` are clear, so `|` is `+`
      r := r * Pow2(bbits) + chunk;
      off := off + bbits;
      left := left - bbits;
      p := p + 1;
      done := done + bbits;
    }
  }

  /** One step of getuvlong: the chunk of byte `p` extends the field read
      so far by `bbits` bits. */
  lemma {:induction false} GetStep(data: seq<byte>, bitoffset: nat, done: nat, p: nat, boff: nat, bbits: nat,
                r: nat, chunk: nat)
    requires bitoffset + done == 8 * p + boff && p < |data| && boff + bbits <= 8
    requires r == Field(data, bitoffset, done)
    requires chunk == Shr(data[p], 8 - bbits - boff) % Pow2(bbits)
    ensures r * Pow2(bbits) + chunk == Field(data, bitoffset, done + bbits)
  {
    var B := BufBits(data);
    var off := bitoffset + done;
    FieldValue(data, bitoffset, done);
    FieldSplit(data, bitoffset, done, bbits, off);
    ConcatStep(B[bitoffset..off], B[off..off + bbits], r, bbits);
    ChunkValue(data, p, boff, bbits, off);
  }

  /** A field is its first `n` bits followed by the next `m`. */
  lemma {:induction false} FieldSplit(data: seq<byte>, bitoffset: nat, n: nat, m: nat, off: nat)
    requires off == bitoffset + n && off + m <= 8 * |data|
    ensures Field(data, bitoffset, n + m) == Value(BufBits(data)[bitoffset..off] + BufBits(data)[off..off + m])
  {
    FieldValue(data, bitoffset, n + m);
    Slices2(BufBits(data), bitoffset, off, off + m);
  }

  /** The `bbits` bits at bit `boff` of byte `p` are getuvlong's chunk. */
  lemma {:induction false} ChunkValue(data: seq<byte>, p: nat, boff: nat, bbits: nat, off: nat)
    requires off == 8 * p + boff && p < |data| && boff + bbits <= 8
    ensures Value(BufBits(data)[off..off + bbits]) == Shr(data[p], 8 - bbits - boff) % Pow2(bbits)
  {
    ByteBits(data, p);
    SubSlice(BufBits(data), 8 * p, 8, boff, bbits, off);
    ByteChunk(data[p], boff, bbits);
    ValueBitsOf(Shr(data[p], 8 - bbits - boff), bbits);
  }



  lemma {:induction false} ConcatStep(x: seq<bit>, y: seq<bit>, r: nat, n: nat)
    requires Value(x) == r && |y| == n
    ensures Value(x + y) == r * Pow2(n) + Value(y)
  {
    ValueConcat(x, y);
  }


  /** The byte putuvlong leaves behind when it stores the `bbits`-bit chunk
      `c` at bit `boff` of byte `v`: the bits of `v` above the chunk, then
      the chunk, then the bits of `v` below it (see PutBitsBits). */
  function PutBits(v: byte, c: nat, boff: nat, bbits: nat): (nb: byte)
    requires boff + bbits <= 8 && c < Pow2(bbits)
  {
    SpliceFacts(v, c, boff, bbits, 8 - boff, 8 - boff - bbits);
    Splice(v, c, 8 - boff, 8 - boff - bbits)
  }

  /** `(v & ~((1 << h) - 1)) | (c << s) | (v & ((1 << s) - 1))` */
  function Splice(v: nat, c: nat, h: nat, s: nat): nat
  {
    MulNat(Shr(v, h), Pow2(h));
    MulNat(c, Pow2(s));
    Shr(v, h) * Pow2(h) + c * Pow2(s) + v % Pow2(s)
  }

  lemma {:induction false} SpliceFacts(v: byte, c: nat, boff: nat, bbits: nat, h: nat, s: nat)
    requires boff + bbits <= 8 && c < Pow2(bbits) && h == 8 - boff && s + bbits == h
    ensures Splice(v, c, h, s) < 256
    ensures c * Pow2(s) + v % Pow2(s) < Pow2(h)
  {
    Pow2Sum(s, bbits, h);
    Pow2Sum(boff, h, 8);
    Pow2Of8();
    SpliceByte(v, c, Pow2(s), Pow2(bbits), Pow2(boff), Pow2(h));
    MulNat(c, Pow2(s));
    SpliceSum(v, c, h, s, Shr(v, h), c * Pow2(s) + v % Pow2(s));
  }

  /** The arithmetic of PutBits with the powers of two as plain factors:
      `ps` below the chunk, `pb` for the chunk, `pt` above it, `ph` for
      the chunk and what lies below it. */
  lemma {:induction false} SpliceByte(v: nat, c: nat, ps: nat, pb: nat, pt: nat, ph: nat)
    requires ps >= 1 && pb >= 1 && pt >= 1 && ph == ps * pb && v < pt * ph && c < pb
    ensures c * ps + v % ps < ph
    ensures (v / ph) * ph + c * ps + v % ps < pt * ph
  {
    DivNonneg(v, ph);
    var hi: nat := v / ph;
    var mid := c * ps + v % ps;
    assert mid < ph by {
      MulLeq(c, pb - 1, ps);
      Distribute(pb, ps);
    }
    assert hi < pt by {
      assert v == hi * ph + v % ph;
      if hi >= pt {
        MulLeq(pt, hi, ph);
      }
    }
    AppendDigit(hi, mid, pt, ph);
  }

  /** PutBits replaces bits `[boff, boff+bbits)` of the byte with the chunk
      and keeps the others. */
  lemma {:induction false} PutBitsBits(v: byte, c: nat, boff: nat, bbits: nat)
    requires boff + bbits <= 8 && c < Pow2(bbits)
    ensures BitsOf(PutBits(v, c, boff, bbits), 8) ==
            BitsOf(v, 8)[..boff] + BitsOf(c, bbits) + BitsOf(v, 8)[boff + bbits..]
  {
    SpliceBits(v, c, boff, bbits, 8 - boff, 8 - boff - bbits);
  }

  lemma {:induction false} SpliceBits(v: byte, c: nat, boff: nat, bbits: nat, h: nat, s: nat)
    requires boff + bbits <= 8 && c < Pow2(bbits) && h == 8 - boff && s + bbits == h
    ensures BitsOf(Splice(v, c, h, s), 8) ==
            BitsOf(v, 8)[..boff] + BitsOf(c, bbits) + BitsOf(v, 8)[boff + bbits..]
  {
    var hi := Shr(v, h);
    SpliceHigh(v, c, boff, bbits, h, s, hi);
    SpliceLow(v, c, bbits, h, s);
    HighBits(v, boff, h);
    LowBits(v, boff + bbits, s);
    AssocRight(BitsOf(hi, boff), BitsOf(c, bbits), BitsOf(v, s));
  }

  /** The bits above the chunk come from `v >> h`. */
  lemma {:induction false} SpliceHigh(v: byte, c: nat, boff: nat, bbits: nat, h: nat, s: nat, hi: nat)
    requires boff + bbits <= 8 && c < Pow2(bbits) && h == 8 - boff && s + bbits == h && hi == Shr(v, h)
    ensures BitsOf(Splice(v, c, h, s), 8) == BitsOf(hi, boff) + BitsOf(c * Pow2(s) + v % Pow2(s), h)
  {
    MulNat(c, Pow2(s));
    var mid: nat := c * Pow2(s) + v % Pow2(s);
    SpliceFacts(v, c, boff, bbits, h, s);
    SpliceSum(v, c, h, s, hi, mid);
    ComposeAt(hi, mid, boff, h, 8);
  }

  /** The chunk and the bits below it. */
  lemma {:induction false} SpliceLow(v: nat, c: nat, bbits: nat, h: nat, s: nat)
    requires s + bbits == h
    ensures BitsOf(c * Pow2(s) + v % Pow2(s), h) == BitsOf(c, bbits) + BitsOf(v, s)
  {
    ComposeAt(c, v % Pow2(s), bbits, s, h);
    BitsOfMod(v, s);
  }

  lemma {:induction false} SpliceSum(v: nat, c: nat, h: nat, s: nat, hi: nat, mid: nat)
    requires hi == Shr(v, h) && mid == c * Pow2(s) + v % Pow2(s)
    ensures Splice(v, c, h, s) == hi * Pow2(h) + mid
  {
  }

  lemma {:induction false} ComposeAt(x: nat, y: nat, a: nat, b: nat, n: nat)
    requires y < Pow2(b) && n == a + b
    ensures BitsOf(x * Pow2(b) + y, n) == BitsOf(x, a) + BitsOf(y, b)
  {
    BitsOfCompose(x, y, a, b);
  }

  /** The first `a` bits of a byte are the byte shifted right by `8 - a`. */
  lemma {:induction false} HighBits(v: nat, a: nat, b: nat)
    requires a + b == 8
    ensures BitsOf(v, 8)[..a] == BitsOf(Shr(v, b), a)
  {
    BitsOfSplit(v, a, b);
    Parts(BitsOf(Shr(v, b), a), BitsOf(v, b));
  }

  /** The bits of a byte from bit `a` on are its `8 - a` low bits. */
  lemma {:induction false} LowBits(v: nat, a: nat, b: nat)
    requires a + b == 8
    ensures BitsOf(v, 8)[a..] == BitsOf(v, b)
  {
    BitsOfSplit(v, a, b);
    Parts(BitsOf(Shr(v, b), a), BitsOf(v, b));
  }


  /** The bytes putuvlong leaves, round by round: each round stores the
      next chunk of `addr` into one byte with PutBits. */
  function PutUvlongBytes(data: seq<byte>, addr: nat, bitoffset: nat, bits: nat): (r: seq<byte>)
    requires bitoffset + bits <= 8 * |data|
    ensures |r| == |data|
    decreases bits
  {
    if bits == 0 then data
    else
      var p, boff := bitoffset / 8, bitoffset % 8;
      var bbits := Min(bits, 8 - boff);
      var nb := PutBits(data[p], Shr(addr, bits - bbits) % Pow2(bbits), boff, bbits);
      PutUvlongBytes(data[p := nb], addr, bitoffset + bbits, bits - bbits)
  }

  /** One round of PutUvlongBytes, unfolded. */
  lemma {:induction false} BytesStep(d: seq<byte>, addr: nat, off: nat, left: nat, p: nat, boff: nat, bbits: nat, nb: byte)
    requires off + left <= 8 * |d| && left > 0
    requires p == off / 8 && boff == off % 8 && bbits == Min(left, 8 - boff)
    requires nb == PutBits(d[p], Shr(addr, left - bbits) % Pow2(bbits), boff, bbits)
    ensures PutUvlongBytes(d[p := nb], addr, off + bbits, left - bbits) == PutUvlongBytes(d, addr, off, left)
  {
  }

  /** Stores the low `bits` bits of `addr` into the field at bit `bitoffset`
      of `data`, with the chunk mask `(1 << bbits) - 1` (the code as written
      uses `~(1 << bbits)`: see PutUvlongAsWritten). */
  method PutUvlong(data: array<byte>, addr: nat, bitoffset: nat, bits: nat)
    requires bits <= 64 && bitoffset + bits <= 8 * data.Length
    modifies data
    ensures Field(data[..], bitoffset, bits) == addr % Pow2(bits)
    ensures Kept(old(data[..]), data[..], bitoffset, bits)
  {
    ghost var d0 := data[..];
    var off: nat, left: nat := bitoffset, bits;
    var p := bitoffset / 8;
    ghost var e := d0;
    while left > 0
      invariant off + left == bitoffset + bits
      invariant left > 0 ==> p == off / 8
      invariant data[..] == e && |e| == |d0|
      invariant PutUvlongBytes(e, addr, off, left) == PutUvlongBytes(d0, addr, bitoffset, bits)
    {
      var boff := off % 8;
      var bbits: nat := Min(left, 8 - boff);
      var nb := StoreChunk(e, off, p, boff, bbits, addr, left, data[p]);
      data[p] := nb;
      e := e[p := nb];
      off := off + bbits;
      left := left - bbits;
      p := p + 1;
    }
    PutUvlongBytesStores(d0, addr, bitoffset, bits);
  }

  /** The bytes putuvlong leaves hold the low `bits` bits of `addr` in the
      field and every other bit of the buffer as it was. */
  lemma {:induction false} PutUvlongBytesStores(d0: seq<byte>, addr: nat, bitoffset: nat, bits: nat)
    requires bitoffset + bits <= 8 * |d0|
    ensures Field(PutUvlongBytes(d0, addr, bitoffset, bits), bitoffset, bits) == addr % Pow2(bits)
    ensures Kept(d0, PutUvlongBytes(d0, addr, bitoffset, bits), bitoffset, bits)
  {
    var B0 := BufBits(d0);
    assert B0 == B0[..bitoffset] + BitsOf(Shr(addr, bits), 0) + B0[bitoffset..];
    BytesStored(d0, d0, bitoffset, 0, addr, bits);
    PutFinish(d0, PutUvlongBytes(d0, addr, bitoffset, bits), bitoffset, bits, addr);
  }

  /** A buffer that meets PutUvlong's contract is the one PutUvlongBytes
      builds, so that contract fixes every byte putuvlong leaves. */
  lemma {:induction false} PutUvlongLeaves(d: seq<byte>, e: seq<byte>, addr: nat, bitoffset: nat, bits: nat)
    requires Kept(d, e, bitoffset, bits) && Field(e, bitoffset, bits) == addr % Pow2(bits)
    ensures e == PutUvlongBytes(d, addr, bitoffset, bits)
  {
    PutUvlongBytesStores(d, addr, bitoffset, bits);
    PutDetermined(d, e, PutUvlongBytes(d, addr, bitoffset, bits), bitoffset, bits);
  }

  /** What PutUvlong promises determines the buffer: two buffers whose field
      reads the same and which keep every other bit of `d` are equal. */
  lemma {:induction false} PutDetermined(d: seq<byte>, e1: seq<byte>, e2: seq<byte>, off: nat, n: nat)
    requires Kept(d, e1, off, n) && Kept(d, e2, off, n)
    requires Field(e1, off, n) == Field(e2, off, n)
    ensures e1 == e2
  {
    SameBits(d, e1, e2, off, n);
    forall j | 0 <= j < |e1|
      ensures e1[j] == e2[j]
    {
      FieldByte(e1, j);
      FieldByte(e2, j);
      assert BitsAgree(e2, e1, 8 * j, 8 * j + 8);
      FieldAgree(e2, e1, 8 * j, 8);
    }
  }

  lemma {:induction false} SameBits(d: seq<byte>, e1: seq<byte>, e2: seq<byte>, off: nat, n: nat)
    requires Kept(d, e1, off, n) && Kept(d, e2, off, n)
    requires Field(e1, off, n) == Field(e2, off, n)
    ensures forall k {:trigger Bit(e1, k), Bit(e2, k)} :: 0 <= k < 8 * |d| ==> Bit(e1, k) == Bit(e2, k)
  {
    var B1, B2 := BufBits(e1), BufBits(e2);
    FieldValue(e1, off, n);
    FieldValue(e2, off, n);
    BitsOfValue(B1[off..off + n]);
    BitsOfValue(B2[off..off + n]);
    assert B1[off..off + n] == B2[off..off + n];
    forall k | 0 <= k < 8 * |d|
      ensures Bit(e1, k) == Bit(e2, k)
    {
      if off <= k < off + n {
        SliceBit(e1, e2, off, n, k);
      } else {
        assert Bit(e1, k) == Bit(d, k) && Bit(e2, k) == Bit(d, k);
      }
    }
  }

  lemma {:induction false} SliceBit(e1: seq<byte>, e2: seq<byte>, off: nat, n: nat, k: nat)
    requires off <= k < off + n <= 8 * |e1| && |e2| == |e1|
    requires BufBits(e1)[off..off + n] == BufBits(e2)[off..off + n]
    ensures Bit(e1, k) == Bit(e2, k)
  {
    BufBitsBit(e1, k);
    BufBitsBit(e2, k);
    assert BufBits(e1)[k] == BufBits(e1)[off..off + n][k - off];
    assert BufBits(e2)[k] == BufBits(e2)[off..off + n][k - off];
  }

  /** The rounds still to come complete a field stored up to bit `done`. */
  lemma {:induction false} BytesStored(d0: seq<byte>, d: seq<byte>, bitoffset: nat, done: nat,
                                       addr: nat, left: nat)
    requires |d| == |d0| && bitoffset + done + left <= 8 * |d|
    requires Stored(d0, d, bitoffset, done, Shr(addr, left))
    ensures Stored(d0, PutUvlongBytes(d, addr, bitoffset + done, left), bitoffset, done + left, Shr(addr, 0))
    decreases left
  {
    if left > 0 {
      var d', bbits := RoundBytes(d0, d, bitoffset, done, addr, left);
      BytesStored(d0, d', bitoffset, done + bbits, addr, left - bbits);
    }
  }

  /** One round of PutUvlongBytes, with the byte it stores kept out of sight. */
  lemma {:induction false} RoundBytes(d0: seq<byte>, d: seq<byte>, bitoffset: nat, done: nat, addr: nat, left: nat)
    returns (d': seq<byte>, bbits: nat)
    requires |d| == |d0| && bitoffset + done + left <= 8 * |d| && left > 0
    requires Stored(d0, d, bitoffset, done, Shr(addr, left))
    ensures 0 < bbits <= left && |d'| == |d|
    ensures Stored(d0, d', bitoffset, done + bbits, Shr(addr, left - bbits))
    ensures PutUvlongBytes(d', addr, bitoffset + done + bbits, left - bbits) ==
            PutUvlongBytes(d, addr, bitoffset + done, left)
  {
    var off := bitoffset + done;
    var p, boff := off / 8, off % 8;
    bbits := Min(left, 8 - boff);
    var nb := StoreByte(d0, d, bitoffset, done, addr, left, p, boff, bbits);
    d' := d[p := nb];
  }

  /** The byte one round of PutUvlongBytes stores, and what storing it does. */
  lemma {:induction false} StoreByte(d0: seq<byte>, d: seq<byte>, bitoffset: nat, done: nat, addr: nat, left: nat,
                  p: nat, boff: nat, bbits: nat)
    returns (nb: byte)
    requires |d| == |d0| && bitoffset + done + left <= 8 * |d| && left > 0
    requires p == (bitoffset + done) / 8 && boff == (bitoffset + done) % 8 && bbits == Min(left, 8 - boff)
    requires Stored(d0, d, bitoffset, done, Shr(addr, left))
    ensures Stored(d0, d[p := nb], bitoffset, done + bbits, Shr(addr, left - bbits))
    ensures PutUvlongBytes(d[p := nb], addr, bitoffset + done + bbits, left - bbits) ==
            PutUvlongBytes(d, addr, bitoffset + done, left)
  {
    nb := PutBits(d[p], Shr(addr, left - bbits) % Pow2(bbits), boff, bbits);
    PutStep(d0, d, bitoffset, done, p, boff, bbits, addr, left);
    BytesStep(d, addr, bitoffset + done, left, p, boff, bbits, nb);
  }

  /** The new value of byte `p` in one round of putuvlong, and the rounds
      still to come once it is stored. */
  method StoreChunk(ghost d: seq<byte>, off: nat, p: nat, boff: nat, bbits: nat, addr: nat,
                    left: nat, v: byte)
    returns (nb: byte)
    requires off + left <= 8 * |d| && left > 0
    requires p == off / 8 && boff == off % 8 && bbits == Min(left, 8 - boff) && v == d[p]
    ensures PutUvlongBytes(d[p := nb], addr, off + bbits, left - bbits) == PutUvlongBytes(d, addr, off, left)
    ensures left > bbits ==> (off + bbits) / 8 == p + 1
  {
    // the chunk is `(addr >> (left - bbits)) & ((1 << bbits) - 1)`
    var c := Shr(addr, left - bbits) % Pow2(bbits);
    nb := PutBits(v, c, boff, bbits);
    BytesStep(d, addr, off, left, p, boff, bbits, nb);
    NextByte(off, p, boff, bbits, left);
  }

  /** The bit string putuvlong leaves, read as a field and a frame. */
  lemma {:induction false} PutFinish(d0: seq<byte>, e: seq<byte>, off: nat, n: nat, addr: nat)
    requires Stored(d0, e, off, n, Shr(addr, 0))
    ensures Field(e, off, n) == addr % Pow2(n) && Kept(d0, e, off, n)
  {
    assert Shr(addr, 0) == addr by {
      assert Pow2(0) == 1;
    }
    assert Stored(d0, e, off, n, addr);
    FieldAfterPut(d0, e, off, n, addr);
    StoredKept(d0, e, off, n, addr);
  }

  /** A step that does not finish the field ends on a byte boundary, so the
      next step starts at the next byte. */
  lemma {:induction false} NextByte(off: nat, p: nat, boff: nat, bbits: nat, left: nat)
    requires p == off / 8 && boff == off % 8
    requires bbits == left || bbits == 8 - boff
    ensures left > bbits ==> bbits == 8 - boff ==> (off + bbits) / 8 == p + 1
  {
  }

  /** One step of putuvlong: storing the next chunk of `addr` into byte `p`
      extends the stored field by `bbits` bits and touches no other bit. */
  lemma {:induction false} PutStep(d0: seq<byte>, d: seq<byte>, bitoffset: nat, done: nat, p: nat, boff: nat,
                bbits: nat, addr: nat, left: nat)
    requires bitoffset + done == 8 * p + boff && p < |d|
    requires 0 < bbits <= left && boff + bbits <= 8 && bitoffset + done + left <= 8 * |d|
    requires Stored(d0, d, bitoffset, done, Shr(addr, left))
    ensures Stored(d0, d[p := PutBits(d[p], Shr(addr, left - bbits) % Pow2(bbits), boff, bbits)],
                   bitoffset, done + bbits, Shr(addr, left - bbits))
  {
    PutStepBits(d, BufBits(d0), bitoffset, done, p, boff, bbits, addr, left);
  }

  lemma {:induction false} PutStepBits(d: seq<byte>, B0: seq<bit>, bitoffset: nat, done: nat, p: nat, boff: nat,
                bbits: nat, addr: nat, left: nat)
    requires bitoffset + done == 8 * p + boff && p < |d| && |B0| == 8 * |d|
    requires 0 < bbits <= left && boff + bbits <= 8
    requires BufBits(d) == B0[..bitoffset] + BitsOf(Shr(addr, left), done) + B0[bitoffset + done..]
    ensures BufBits(d[p := PutBits(d[p], Shr(addr, left - bbits) % Pow2(bbits), boff, bbits)]) ==
            B0[..bitoffset] + BitsOf(Shr(addr, left - bbits), done + bbits) + B0[bitoffset + done + bbits..]
  {
    var y := Shr(addr, left - bbits);
    var B := BufBits(d);
    var X := BitsOf(y, bbits);
    var M := BitsOf(Shr(addr, left), done);
    var off := bitoffset + done;
    PutByte(d, p, boff, bbits, y, off);
    Regions(B, B0, bitoffset, M, bbits);
    ChunkBits(addr, left, bbits, done);
    Assoc(B0[..bitoffset], M, X, B0[off + bbits..]);
  }

  /** Storing the low `bbits` bits of `y` at bit `boff` of byte `p`. */
  lemma {:induction false} PutByte(d: seq<byte>, p: nat, boff: nat, bbits: nat, y: nat, off: nat)
    requires off == 8 * p + boff && p < |d| && boff + bbits <= 8
    ensures BufBits(d[p := PutBits(d[p], y % Pow2(bbits), boff, bbits)]) ==
            BufBits(d)[..off] + BitsOf(y, bbits) + BufBits(d)[off + bbits..]
  {
    var B := BufBits(d);
    var X := BitsOf(y, bbits);
    PutByteParts(d, p, boff, bbits, y);
    Replace(B, 8 * p, boff, X);
  }

  lemma {:induction false} PutByteParts(d: seq<byte>, p: nat, boff: nat, bbits: nat, y: nat)
    requires p < |d| && boff + bbits <= 8
    ensures var B := BufBits(d);
      BufBits(d[p := PutBits(d[p], y % Pow2(bbits), boff, bbits)]) ==
      B[..8 * p] + (B[8 * p..8 * p + 8][..boff] + BitsOf(y, bbits) + B[8 * p..8 * p + 8][boff + bbits..]) + B[8 * p + 8..]
  {
    var c := y % Pow2(bbits);
    BufBitsUpdate(d, p, PutBits(d[p], c, boff, bbits));
    PutBitsBits(d[p], c, boff, bbits);
    BitsOfMod(y, bbits);
  }

  /** The high `done` bits of `addr >> left` followed by the next `bbits`
      bits are the low `done + bbits` bits of `addr >> (left - bbits)`. */
  lemma {:induction false} ChunkBits(addr: nat, left: nat, bbits: nat, done: nat)
    requires bbits <= left
    ensures BitsOf(Shr(addr, left), done) + BitsOf(Shr(addr, left - bbits), bbits) ==
            BitsOf(Shr(addr, left - bbits), done + bbits)
  {
    BitsOfSplit(Shr(addr, left - bbits), done, bbits);
    ShrShr(addr, left - bbits, bbits);
    assert left - bbits + bbits == left;
  }

  /** Replacing bits `[boff, boff+|X|)` of the byte at bit `q`. */
  lemma {:induction false} Replace(B: seq<bit>, q: nat, boff: nat, X: seq<bit>)
    requires q + 8 <= |B| && boff + |X| <= 8
    ensures B[..q] + (B[q..q + 8][..boff] + X + B[q..q + 8][boff + |X|..]) + B[q + 8..] ==
            B[..q + boff] + X + B[q + boff + |X|..]
  {
    assert B[..q + boff] == B[..q] + B[q..q + 8][..boff];
    assert B[q + boff + |X|..] == B[q..q + 8][boff + |X|..] + B[q + 8..];
  }



  /** `e` is `d` with the low `n` bits of `v` stored at bit `off`: what
      putuvlong does to a buffer. */
  predicate Stored(d: seq<byte>, e: seq<byte>, off: nat, n: nat, v: nat)
  {
    off + n <= 8 * |d| && |e| == |d| &&
    BufBits(e) == BufBits(d)[..off] + BitsOf(v, n) + BufBits(d)[off + n..]
  }

  /** getuvlong after putuvlong reads back the low `n` bits of the stored value ... */
  lemma {:induction false} FieldAfterPut(d: seq<byte>, e: seq<byte>, off: nat, n: nat, v: nat)
    requires Stored(d, e, off, n, v)
    ensures Field(e, off, n) == v % Pow2(n)
  {
    FieldValue(e, off, n);
    Slices3(BufBits(d)[..off], BitsOf(v, n), BufBits(d)[off + n..]);
    ValueBitsOf(v, n);
  }

  /** `e` agrees with `d` on every bit outside the `n` bits at bit `off`. */
  predicate Kept(d: seq<byte>, e: seq<byte>, off: nat, n: nat)
  {
    |e| == |d| && off + n <= 8 * |d| &&
    forall k {:trigger Bit(e, k), Bit(d, k)} :: 0 <= k < 8 * |d| && (k < off || off + n <= k) ==> Bit(e, k) == Bit(d, k)
  }

  /** ... putuvlong changes no bit outside the field ... */
  lemma {:induction false} StoredKept(d: seq<byte>, e: seq<byte>, off: nat, n: nat, v: nat)
    requires Stored(d, e, off, n, v)
    ensures Kept(d, e, off, n)
  {
    var B := BufBits(d);
    forall k | 0 <= k < 8 * |d| && (k < off || off + n <= k)
      ensures Bit(e, k) == Bit(d, k)
    {
      BufBitsBit(d, k);
      BufBitsBit(e, k);
      if k < off {
        assert BufBits(e)[k] == B[..off][k];
      } else {
        assert BufBits(e)[k] == B[off + n..][k - off - n];
      }
    }
  }

  /** ... so a field that does not overlap the stored one is unchanged ... */
  lemma {:induction false} KeptField(d: seq<byte>, e: seq<byte>, off: nat, n: nat, q: nat, m: nat)
    requires Kept(d, e, off, n) && q + m <= 8 * |d| && (q + m <= off || off + n <= q)
    ensures Field(e, q, m) == Field(d, q, m)
  {
    assert BitsAgree(d, e, q, q + m);
    FieldAgree(d, e, q, m);
  }

  /** ... and neither is a byte that does not overlap it. */
  lemma {:induction false} KeptByte(d: seq<byte>, e: seq<byte>, off: nat, n: nat, j: nat)
    requires Kept(d, e, off, n) && j < |d| && (8 * j + 8 <= off || off + n <= 8 * j)
    ensures e[j] == d[j]
  {
    KeptField(d, e, off, n, 8 * j, 8);
    FieldByte(d, j);
    FieldByte(e, j);
  }

  /** A byte store is a store of an 8-bit field. */
  lemma {:induction false} ByteKept(d: seq<byte>, i: nat, t: byte)
    requires i < |d|
    ensures Kept(d, d[i := t], 8 * i, 8)
  {
    var e := d[i := t];
    forall k | 0 <= k < 8 * |d| && (k < 8 * i || 8 * i + 8 <= k)
      ensures Bit(e, k) == Bit(d, k)
    {
      assert k / 8 != i;
    }
  }

  // ---------------------------------------------------------------------
  // putuvlong as written, with the C operators of module COps.

  /** putuvlong as written: the chunk of `addr` is masked with
      `~(1 << bbits)`, which keeps every bit of it except bit `bbits`. */
  function PutUvlongAsWritten(data: seq<byte>, addr: nat, bitoffset: nat, bits: nat): (r: seq<byte>)
    requires bitoffset + bits <= 8 * |data|
    ensures |r| == |data|
    decreases bits
  {
    if bits == 0 then data
    else
      var p, boff := bitoffset / 8, bitoffset % 8;
      var bbits := Min(bits, 8 - boff);
      var nb := AsWrittenByte(data[p], Shr(addr, bits - bbits), boff, bbits);
      PutUvlongAsWritten(data[p := nb], addr, bitoffset + bbits, bits - bbits)
  }

  /** One byte of putuvlong as written; `a` is `addr >> (bits - bbits)`. */
  function AsWrittenByte(v: byte, a: nat, boff: nat, bbits: nat): byte
    requires boff + bbits <= 8
  {
    OrByte(OrByte(KeepHigh(v, 8 - boff), ChunkAsWritten(a, bbits, 8 - boff - bbits)), KeepLow(v, 8 - boff - bbits))
  }

  /** `v & ~((1 << h) - 1)`, stored in a `uchar`. */
  function KeepHigh(v: nat, h: nat): byte
  {
    U8(AndNot(v, Pow2(h) - 1))
  }

  /** `(a & ~(1 << bbits)) << s` in `uvlong`: the chunk as written. */
  function ChunkAsWritten(a: nat, bbits: nat, s: nat): nat
  {
    U64(Shl(AndNot(a, Pow2(bbits)), s))
  }

  /** `x | y`, stored in a `uchar`. */
  function OrByte(x: nat, y: nat): byte
  {
    U8(Or(x, y))
  }

  /** `v & ((1 << s) - 1)` */
  function KeepLow(v: nat, s: nat): nat
  {
    And(v, Pow2(s) - 1)
  }

  /** The byte putuvlong as written leaves is PutBits's byte whenever the
      bits of `a` above the chunk cannot reach the byte: either the chunk
      starts the byte (`boff == 0`, so they are shifted past bit 7 and
      the `uchar` store drops them) or `a` has no bits above the chunk. */
  lemma {:induction false} AsWrittenByteAgrees(v: byte, a: nat, boff: nat, bbits: nat)
    requires boff + bbits <= 8 && (boff == 0 || a < Pow2(bbits))
    ensures AsWrittenByte(v, a, boff, bbits) == PutBits(v, a % Pow2(bbits), boff, bbits)
  {
    AsWrittenStores(v, a, boff, bbits);
    PutBitsSplice(v, a % Pow2(bbits), boff, bbits);
  }

  /** The three stores of AsWrittenByte give the spliced byte. */
  lemma {:induction false} AsWrittenStores(v: byte, a: nat, boff: nat, bbits: nat)
    requires boff + bbits <= 8 && (boff == 0 || a < Pow2(bbits))
    ensures AsWrittenByte(v, a, boff, bbits) == Splice(v, a % Pow2(bbits), 8 - boff, 8 - boff - bbits)
  {
    var h, s, c := 8 - boff, 8 - boff - bbits, a % Pow2(bbits);
    assert c < Pow2(bbits) by { ModBelow(a, Pow2(bbits)); }
    assert ChunkAsWritten(a, bbits, s) % 256 == c * Pow2(s) by { AsWrittenChunk(a, boff, bbits); }
    assert Splice(v, c, h, s) < 256 && c * Pow2(s) + v % Pow2(s) < Pow2(h) by {
      SpliceFacts(v, c, boff, bbits, h, s);
    }
    assert Pow2(h) == Pow2(s) * Pow2(bbits) by { Pow2Sum(s, bbits, h); }
    StoresAt(v, a, c, bbits, h, s);
  }

  /** The three stores with the field's bounds `h` (above) and `s` (below)
      named. */
  lemma {:induction false} StoresAt(v: byte, a: nat, c: nat, bbits: nat, h: nat, s: nat)
    requires h <= 8 && s + bbits == h && c < Pow2(bbits)
    requires ChunkAsWritten(a, bbits, s) % 256 == c * Pow2(s) && Pow2(h) == Pow2(s) * Pow2(bbits)
    requires Splice(v, c, h, s) < 256 && c * Pow2(s) + v % Pow2(s) < Pow2(h)
    ensures OrByte(OrByte(KeepHigh(v, h), ChunkAsWritten(a, bbits, s)), KeepLow(v, s)) == Splice(v, c, h, s)
  {
    var hi := Shr(v, h);
    HighPart(v, h);
    MulNat(c, Pow2(s));
    FirstOr(KeepHigh(v, h), ChunkAsWritten(a, bbits, s), hi, h, c * Pow2(s));
    LastOr(v, hi * Pow2(h) + c * Pow2(s), hi, c, s, bbits, h);
  }

  lemma {:induction false} ModBelow(x: nat, m: nat)
    requires m >= 1
    ensures x % m < m
  {
  }

  lemma {:induction false} PutBitsSplice(v: byte, c: nat, boff: nat, bbits: nat)
    requires boff + bbits <= 8 && c < Pow2(bbits)
    ensures PutBits(v, c, boff, bbits) == Splice(v, c, 8 - boff, 8 - boff - bbits)
  {
  }

  /** `v & ~((1 << h) - 1)`, stored in a `uchar`: the bits of `v` above the
      low `h`. */
  lemma {:induction false} HighPart(v: byte, h: nat)
    requires h <= 8
    ensures KeepHigh(v, h) == Shr(v, h) * Pow2(h)
  {
    AndNotLowMask(v, h);
    LowCleared(v, Pow2(h));
  }

  lemma {:induction false} LowCleared(v: nat, P: nat)
    requires v < 256 && P >= 1
    ensures U8(v - v % P) == (v / P) * P
  {
    var q := v / P;
    assert v == q * P + v % P;
    MulNat(q, P);
    DivMulAdd(0, v - v % P, 256);
  }

  /** `b0 | chunk` stored in a `uchar`, when the chunk's low byte lies below
      bit `h` and `b0` is a byte with no bit below `h`. */
  lemma {:induction false} FirstOr(b0: nat, chunk: nat, hi: nat, h: nat, m: nat)
    requires b0 == hi * Pow2(h) && chunk % 256 == m && m < Pow2(h) && b0 + m < 256
    ensures OrByte(b0, chunk) == b0 + m
  {
    Pow2Of8();
    OrLowBits(b0, chunk, 8);
    DivMulAdd(0, b0, 256);
    OrDisjoint(hi, m, h);
    DivMulAdd(0, b0 + m, 256);
  }

  /** `b1 | (v & ((1 << s) - 1))` stored in a `uchar` is the spliced byte. */
  lemma {:induction false} LastOr(v: byte, b1: nat, hi: nat, c: nat, s: nat, bbits: nat, h: nat)
    requires Pow2(h) == Pow2(s) * Pow2(bbits) && hi == Shr(v, h)
    requires b1 == hi * Pow2(h) + c * Pow2(s) && Splice(v, c, h, s) < 256
    ensures OrByte(b1, KeepLow(v, s)) == Splice(v, c, h, s)
  {
    var low := KeepLow(v, s);
    AndLowMask(v, s);
    ModBelow(v, Pow2(s));
    Regroup(hi, c, Pow2(s), Pow2(bbits), Pow2(h));
    MulNat(hi, Pow2(bbits));
    OrByteDisjoint(b1, hi * Pow2(bbits) + c, low, s);
  }

  /** `b1 | low` in a `uchar`, when `low` lies below bit `s` and `b1` has
      no bit there. */
  lemma {:induction false} OrByteDisjoint(b1: nat, x: nat, low: nat, s: nat)
    requires b1 == x * Pow2(s) && low < Pow2(s) && b1 + low < 256
    ensures OrByte(b1, low) == b1 + low
  {
    OrDisjoint(x, low, s);
    DivMulAdd(0, b1 + low, 256);
  }

  lemma {:induction false} Regroup(hi: nat, c: nat, ps: nat, pb: nat, ph: nat)
    requires ph == ps * pb
    ensures hi * ph + c * ps == (hi * pb + c) * ps
  {
  }

  /** The chunk term of putuvlong as written: modulo 256 it is the low
      `bbits` bits of `a` shifted to the field, under AsWrittenByteAgrees's
      condition. */
  lemma {:induction false} AsWrittenChunk(a: nat, boff: nat, bbits: nat)
    requires boff + bbits <= 8 && (boff == 0 || a < Pow2(bbits))
    ensures ChunkAsWritten(a, bbits, 8 - boff - bbits) % 256 == (a % Pow2(bbits)) * Pow2(8 - boff - bbits)
  {
    var s, w := 8 - boff - bbits, boff + bbits;
    ChunkLowByte(a, bbits, s, w);
    AndNotKeeps(a, bbits, w);
  }

  /** The low byte of `A << s` in `uvlong` holds the low `8 - s` bits of `A`. */
  lemma {:induction false} ChunkLowByte(a: nat, bbits: nat, s: nat, w: nat)
    requires s + w == 8
    ensures ChunkAsWritten(a, bbits, s) % 256 == (AndNot(a, Pow2(bbits)) % Pow2(w)) * Pow2(s)
  {
    var A := AndNot(a, Pow2(bbits));
    MulNat(A, Pow2(s));
    var x := A * Pow2(s);
    Pow2Of64();
    Pow2Of8();
    ModModPow2(x, 64, 8);
    DivPow2Add(x, s, w);
    DivMulAdd(A, 0, Pow2(s));
  }

  /** Clearing bit `bbits` of `a` leaves its low `w` bits those of `a % 2^bbits`
      when `w` is `bbits` or `a` has no bit from `bbits` up. */
  lemma {:induction false} AndNotKeeps(a: nat, bbits: nat, w: nat)
    requires bbits <= w && (w == bbits || a < Pow2(bbits))
    ensures AndNot(a, Pow2(bbits)) % Pow2(w) == a % Pow2(bbits)
  {
    if w == bbits {
      AndNotBitLow(a, bbits);
    } else {
      AndNotBitSmall(a, bbits);
      Pow2Mono(bbits, w);
      DivMulAdd(0, a, Pow2(bbits));
      DivMulAdd(0, a, Pow2(w));
    }
  }

  lemma {:induction false} ChunkAgrees(v: byte, addr: nat, left: nat, boff: nat, bbits: nat)
    requires boff + bbits <= 8 && 0 < bbits <= left && (boff == 0 || addr < Pow2(left))
    requires bbits == left || bbits == 8 - boff
    ensures AsWrittenByte(v, Shr(addr, left - bbits), boff, bbits) ==
            PutBits(v, Shr(addr, left - bbits) % Pow2(bbits), boff, bbits)
  {
    if boff != 0 {
      ShrBelow(addr, left - bbits, bbits);
    }
    AsWrittenByteAgrees(v, Shr(addr, left - bbits), boff, bbits);
  }

  /** `x < 2^(a+b)` keeps `x >> a` below `2^b`. */
  lemma {:induction false} ShrBelow(x: nat, a: nat, b: nat)
    requires x < Pow2(a + b)
    ensures Shr(x, a) < Pow2(b)
  {
    Pow2Add(a, b);
    var q := Shr(x, a);
    assert x == q * Pow2(a) + x % Pow2(a);
    if q >= Pow2(b) {
      MulLeq(Pow2(b), q, Pow2(a));
    }
  }

  /** putuvlong as written agrees with the corrected one on every address
      that fits the field: the masking bug needs an address of `bits` bits
      or more. */
  lemma {:induction false} PutUvlongAsWrittenAgrees(data: seq<byte>, addr: nat, bitoffset: nat, bits: nat)
    requires bitoffset + bits <= 8 * |data| && addr < Pow2(bits)
    ensures PutUvlongAsWritten(data, addr, bitoffset, bits) == PutUvlongBytes(data, addr, bitoffset, bits)
  {
    AgreesFrom(data, addr, bitoffset, bits);
  }

  /** For an address that fits the field, putuvlong as written leaves
      exactly the buffer that PutUvlong's contract describes. */
  lemma {:induction false} PutUvlongAsWrittenMeets(d: seq<byte>, e: seq<byte>, addr: nat, bitoffset: nat, bits: nat)
    requires Kept(d, e, bitoffset, bits) && Field(e, bitoffset, bits) == addr % Pow2(bits)
    requires addr < Pow2(bits)
    ensures e == PutUvlongAsWritten(d, addr, bitoffset, bits)
  {
    PutUvlongLeaves(d, e, addr, bitoffset, bits);
    PutUvlongAsWrittenAgrees(d, addr, bitoffset, bits);
  }

  /** The rounds of the two from bit `bitoffset` on, once the first chunk
      starts a byte or the address fits what is left of the field. */
  lemma {:induction false} AgreesFrom(data: seq<byte>, addr: nat, bitoffset: nat, bits: nat)
    requires bitoffset + bits <= 8 * |data|
    requires bits == 0 || bitoffset % 8 == 0 || addr < Pow2(bits)
    ensures PutUvlongAsWritten(data, addr, bitoffset, bits) == PutUvlongBytes(data, addr, bitoffset, bits)
    decreases bits
  {
    if bits > 0 {
      var d', bbits := AgreeRound(data, addr, bitoffset, bits);
      AgreesFrom(d', addr, bitoffset + bbits, bits - bbits);
    }
  }

  /** One round of both, with the byte they store kept out of sight. */
  lemma {:induction false} AgreeRound(data: seq<byte>, addr: nat, bitoffset: nat, bits: nat) returns (d': seq<byte>, bbits: nat)
    requires bitoffset + bits <= 8 * |data| && bits > 0
    requires bitoffset % 8 == 0 || addr < Pow2(bits)
    ensures 0 < bbits <= bits && |d'| == |data|
    ensures bits - bbits == 0 || (bitoffset + bbits) % 8 == 0
    ensures PutUvlongAsWritten(data, addr, bitoffset, bits) == PutUvlongAsWritten(d', addr, bitoffset + bbits, bits - bbits)
    ensures PutUvlongBytes(data, addr, bitoffset, bits) == PutUvlongBytes(d', addr, bitoffset + bbits, bits - bbits)
  {
    var p, boff := bitoffset / 8, bitoffset % 8;
    bbits := Min(bits, 8 - boff);
    var nb := AsWrittenByte(data[p], Shr(addr, bits - bbits), boff, bbits);
    ChunkAgrees(data[p], addr, bits, boff, bbits);
    AsWrittenRound(data, addr, bitoffset, bits, p, boff, bbits, nb);
    BytesStep(data, addr, bitoffset, bits, p, boff, bbits, nb);
    NextByte(bitoffset, p, boff, bbits, bits);
    d' := data[p := nb];
  }

  /** One round of PutUvlongAsWritten, unfolded. */
  lemma {:induction false} AsWrittenRound(d: seq<byte>, addr: nat, off: nat, left: nat, p: nat, boff: nat, bbits: nat, nb: byte)
    requires off + left <= 8 * |d| && left > 0
    requires p == off / 8 && boff == off % 8 && bbits == Min(left, 8 - boff)
    requires nb == AsWrittenByte(d[p], Shr(addr, left - bbits), boff, bbits)
    ensures PutUvlongAsWritten(d[p := nb], addr, off + bbits, left - bbits) == PutUvlongAsWritten(d, addr, off, left)
  {
  }

  /** Storing 8 (binary 1000) into the two-bit field at bit 4 of a zero byte:
      the code as written sets bit 2, which lies outside the field, where
      PutUvlong stores the low two bits (00) and nothing else. */
  lemma {:induction false} PutUvlongAsWrittenClobbers()
    ensures PutUvlongAsWritten([0], 8, 4, 2) == [32]
    ensures BufBits([32])[2] == 1 && BufBits([0])[2] == 0
  {
    ClobberByte();
    assert Shr(8, 0) == 8;
    assert PutUvlongAsWritten([0], 8, 4, 2) == PutUvlongAsWritten([0][0 := 32], 8, 6, 0);
    assert [0][0 := 32] == [32];
    ClobberBits();
  }

  lemma {:induction false} ClobberByte()
    ensures AsWrittenByte(0, 8, 4, 2) == 32
  {
    ClobberPowers();
    ClobberOps();
  }

  lemma {:induction false} ClobberPowers()
    ensures Pow2(4) == 16 && Pow2(2) == 4 && Shl(8, 2) == 32
    ensures U8(0) == 0 && U64(32) == 32 && U8(32) == 32
  {
  }

  lemma {:induction false} ClobberOps()
    ensures AndNot(0, 15) == 0 && AndNot(8, 4) == 8 && And(0, 3) == 0
    ensures Or(0, 32) == 32 && Or(32, 0) == 32
  {
    assert AndNot(8, 4) == 2 * AndNot(4, 2);
    assert AndNot(4, 2) == 2 * AndNot(2, 1);
    assert AndNot(2, 1) == 2 * AndNot(1, 0);
  }

  lemma {:induction false} ClobberBits()
    ensures BufBits([32])[2] == 1 && BufBits([0])[2] == 0
  {
    BufBitsOne(32);
    BufBitsOne(0);
  }

  // ---------------------------------------------------------------------
  // Headers of the index log (IHeader) and of the data log (DHeader)

  /** An index-log record: the first bytes of a score, a block type and the
      offset of the block's header in the data log. */
  datatype IHeader = IHeader(indexscore: seq<byte>, blockType: byte, offset: nat)

  /** A data-log header: score, block type and data size. */
  datatype DHeader = DHeader(score: seq<byte>, blockType: byte, size: nat)

  predicate ValidIHeader(ih: IHeader)
  {
    |ih.indexscore| == Indexscoresize && ih.offset < 0x1_0000_0000_0000
  }

  predicate ValidDHeader(dh: DHeader)
  {
    |dh.score| == Scoresize && dh.size < 0x1_0000
  }

  /** The layout of a packed index header: 8 score bytes, type, 48-bit offset. */
  function IHeaderBytes(ih: IHeader): (s: seq<byte>)
    requires |ih.indexscore| == Indexscoresize
    ensures |s| == Diskiheadersize
  {
    ih.indexscore + [ih.blockType] + BEBytes(ih.offset, 6)
  }

  /** The layout of a packed data header: magic, score, type, 16-bit size. */
  function DHeaderBytes(dh: DHeader): (s: seq<byte>)
    requires |dh.score| == Scoresize
    ensures |s| == Diskdheadersize
  {
    BEBytes(Headermagic, 4) + dh.score + [dh.blockType] + BEBytes(dh.size, 2)
  }

  /** memcpy: copies `src` into `buf` at `at`. */
  method CopyIn(buf: array<byte>, at: nat, src: seq<byte>)
    requires at + |src| <= buf.Length
    modifies buf
    ensures buf[..] == old(buf[..at]) + src + old(buf[at + |src|..])
  {
    ghost var b0 := buf[..];
    for i := 0 to |src|
      invariant buf[..] == b0[..at] + src[..i] + b0[at + i..]
    {
      CopyStep(buf[..], b0, at, src, i);
      buf[at + i] := src[i];
    }
    assert src[..|src|] == src;
  }

  lemma {:induction false} CopyStep(s: seq<byte>, s0: seq<byte>, at: nat, src: seq<byte>, i: nat)
    requires i < |src| && at + |src| <= |s0|
    requires s == s0[..at] + src[..i] + s0[at + i..]
    ensures s[at + i := src[i]] == s0[..at] + src[..i + 1] + s0[at + i + 1..]
  {
    assert src[..i + 1] == src[..i] + [src[i]];
  }

  /** A store of `m` at `at` over a buffer whose first `at` bytes are `pre`
      and whose bytes from `at` on are `tail`. */
  lemma {:induction false} Stitch(s: seq<byte>, s0: seq<byte>, pre: seq<byte>, m: seq<byte>, tail: seq<byte>)
    requires s0 == pre + tail && |m| <= |tail|
    requires s == s0[..|pre|] + m + s0[|pre| + |m|..]
    ensures s == pre + m + tail[|m|..]
  {
    Parts(pre, tail);
    assert s0[|pre| + |m|..] == tail[|m|..];
  }

  lemma {:induction false} OneByte(t: byte)
    ensures BEBytes(t, 1) == [t]
  {
    assert BEBytes(t, 1) == BEBytes(t / 256, 0) + [t % 256];
  }

  /** packiheader: writes the 15 bytes of `ih` at the start of `buf`. */
  method PackIHeader(buf: array<byte>, ih: IHeader)
    requires buf.Length >= Diskiheadersize && |ih.indexscore| == Indexscoresize
    modifies buf
    ensures buf[..] == IHeaderBytes(ih) + old(buf[Diskiheadersize..])
  {
    ghost var b0 := buf[..];
    CopyIn(buf, 0, ih.indexscore);
    ghost var b1 := buf[..];
    Put8(buf, 8, ih.blockType);
    ghost var b2 := buf[..];
    Put48(buf, 9, ih.offset);
    OneByte(ih.blockType);
    Stitch(b2, b1, ih.indexscore, [ih.blockType], b0[8..]);
    Stitch(buf[..], b2, ih.indexscore + [ih.blockType], BEBytes(ih.offset, 6), b0[9..]);
    assert b0[8..][1..] == b0[9..] && b0[9..][6..] == b0[15..];
  }

  /** unpackiheader: reads the 15 bytes at the start of `buf`. */
  function UnpackIHeader(buf: seq<byte>): (ih: IHeader)
    requires |buf| >= Diskiheadersize
    ensures ValidIHeader(ih)
    ensures IHeaderBytes(ih) == buf[..Diskiheadersize]
  {
    IHeaderLayout(buf);
    IHeader(buf[..8], Get8(buf[8..]), Get48(buf[9..]))
  }

  lemma {:induction false} IHeaderLayout(buf: seq<byte>)
    requires |buf| >= Diskiheadersize
    ensures Get48(buf[9..]) < 0x1_0000_0000_0000
    ensures buf[..8] + [Get8(buf[8..])] + BEBytes(Get48(buf[9..]), 6) == buf[..15]
  {
    var w := buf[9..][..6];
    BEBytesOfBE(w);
    Pow2Of48();
    assert buf[..15] == buf[..8] + [buf[8]] + w;
  }

  /** A packed index header unpacks to itself. */
  lemma {:induction false} UnpackPackIHeader(ih: IHeader, rest: seq<byte>)
    requires ValidIHeader(ih)
    ensures UnpackIHeader(IHeaderBytes(ih) + rest) == ih
  {
    var w := BEBytes(ih.offset, 6);
    var s := ih.indexscore + [ih.blockType] + w + rest;
    assert s[..8] == ih.indexscore && s[8] == ih.blockType && s[9..][..6] == w;
    assert Get48(s[9..]) == ih.offset by {
      Pow2Of48();
      BEExact(ih.offset, 6);
    }
  }

  /** packdheader: writes the 27 bytes of `dh` at the start of `buf`. */
  method PackDHeader(buf: array<byte>, dh: DHeader)
    requires buf.Length >= Diskdheadersize && |dh.score| == Scoresize
    modifies buf
    ensures buf[..] == DHeaderBytes(dh) + old(buf[Diskdheadersize..])
  {
    ghost var b0 := buf[..];
    var magic := BEBytes(Headermagic, 4);
    Put32(buf, 0, Headermagic);
    ghost var b1 := buf[..];
    CopyIn(buf, 4, dh.score);
    ghost var b2 := buf[..];
    Put8(buf, 24, dh.blockType);
    ghost var b3 := buf[..];
    Put16(buf, 25, dh.size);
    OneByte(dh.blockType);
    assert b1 == magic + b0[4..];
    Stitch(b2, b1, magic, dh.score, b0[4..]);
    assert b0[4..][20..] == b0[24..];
    Stitch(b3, b2, magic + dh.score, [dh.blockType], b0[24..]);
    assert b0[24..][1..] == b0[25..];
    Stitch(buf[..], b3, magic + dh.score + [dh.blockType], BEBytes(dh.size, 2), b0[25..]);
    assert b0[25..][2..] == b0[27..];
  }

  /** Why unpackdheader rejects a header. */
  datatype DHeaderError = MagicWrong(have: nat) | SizeTooLarge(size: nat)

  /** unpackdheader: checks the magic, reads the fields, and rejects sizes
      above Datamax. */
  function UnpackDHeader(buf: seq<byte>): (r: Result<DHeader, DHeaderError>)
    requires |buf| >= Diskdheadersize
    ensures r.Ok? ==>
              ValidDHeader(r.value) && r.value.size <= Datamax &&
              DHeaderBytes(r.value) == buf[..Diskdheadersize]
    ensures r.Err? && r.error.MagicWrong? ==>
              BE(buf[..4]) != Headermagic && r.error.have == BE(buf[..4])
    ensures r.Err? && r.error.SizeTooLarge? ==>
              BE(buf[..4]) == Headermagic && r.error.size == BE(buf[25..27]) && r.error.size > Datamax
  {
    DHeaderLayout(buf);
    var magic := Get32(buf);
    if magic != Headermagic then Err(MagicWrong(magic))
    else
      var dh := DHeader(buf[4..24], Get8(buf[24..]), Get16(buf[25..]));
      if dh.size > Datamax then Err(SizeTooLarge(dh.size))
      else Ok(dh)
  }

  lemma {:induction false} DHeaderLayout(buf: seq<byte>)
    requires |buf| >= Diskdheadersize
    ensures Get16(buf[25..]) == BE(buf[25..27]) && Get16(buf[25..]) < 0x1_0000
    ensures Get32(buf) == Headermagic ==>
              BEBytes(Headermagic, 4) + buf[4..24] + [Get8(buf[24..])] + BEBytes(Get16(buf[25..]), 2) == buf[..27]
  {
    var m, w := buf[..4], buf[25..][..2];
    assert w == buf[25..27];
    Pow2Values();
    BEBytesOfBE(m);
    BEBytesOfBE(w);
    assert buf[..27] == m + buf[4..24] + [buf[24]] + w;
  }

  /** A packed data header with a size of at most Datamax unpacks to itself. */
  lemma {:induction false} UnpackPackDHeader(dh: DHeader, rest: seq<byte>)
    requires ValidDHeader(dh) && dh.size <= Datamax
    ensures UnpackDHeader(DHeaderBytes(dh) + rest) == Ok(dh)
  {
    var m, w := BEBytes(Headermagic, 4), BEBytes(dh.size, 2);
    var s := m + dh.score + [dh.blockType] + w + rest;
    assert s[..4] == m && s[4..24] == dh.score && s[24] == dh.blockType && s[25..][..2] == w;
    assert Get32(s) == Headermagic by {
      Pow2Values();
      BEExact(Headermagic, 4);
    }
    assert Get16(s[25..]) == dh.size by {
      Pow2Values();
      BEExact(dh.size, 2);
    }
  }

  /** A header is accepted exactly when its magic is right and its size is
      at most Datamax. */
  lemma {:induction false} UnpackDHeaderAccepts(buf: seq<byte>)
    requires |buf| >= Diskdheadersize
    ensures UnpackDHeader(buf).Ok? <==> BE(buf[..4]) == Headermagic && BE(buf[25..27]) <= Datamax
  {
    DHeaderLayout(buf);
  }

  /** toiheader: the index record of a block whose header is `dh` and sits at
      `offset` in the data log. */
  function ToIHeader(dh: DHeader, offset: nat): (ih: IHeader)
    requires |dh.score| == Scoresize
    ensures ih.indexscore == dh.score[..Indexscoresize]
    ensures ih.blockType == dh.blockType && ih.offset == offset
  {
    IHeader(dh.score[..Indexscoresize], dh.blockType, offset)
  }
}
