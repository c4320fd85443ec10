/** The in-memory index of memventi.c.  The top `headscorewidth` bits of a
    score select one of 2^headscorewidth chains of blocks.  A block of `n`
    slots holds `n` type bytes followed by `n` bit-packed fields of
    `entryscorewidth` score bits and `addrwidth` address bits.  A slot
    whose address is `endaddr = 2^addrwidth - 1` is unused: allocation
    fills blocks with 0xff, so fresh slots are unused. */
module Index {
  import opened Arith
  import opened Fns
  import opened Bits
  import opened Seqs
  import opened Dat
  import opened Wrappers
  import Pack
  import Util

  /** The three widths given on the command line. */
  datatype Geometry = Geometry(headscorewidth: nat, entryscorewidth: nat, addrwidth: nat)
  {
    /** What main accepts (memventi.c:1227-1230), plus `addrwidth <= 64`,
        which main does not check.  In C, `1ULL<<addrwidth` is undefined
        from 64 on; at 64 the model takes the evidently intended all-ones
        end marker 2^64-1. */
    predicate Valid()
    {
      0 < headscorewidth && 0 < entryscorewidth && 0 < addrwidth &&
      headscorewidth + entryscorewidth <= Indexscoresize * 8 && addrwidth <= 64
    }

    /** The unused-slot address. */
    function EndAddr(): nat
    {
      Pow2(addrwidth) - 1
    }

    /** Bits of one packed score-and-address field. */
    function FieldBits(): nat
    {
      entryscorewidth + addrwidth
    }

    /** Bits per slot: the type byte and the field. */
    function Mementrysize(): nat
    {
      8 + entryscorewidth + addrwidth
    }

    /** The bit offset of slot `i`'s field in a block of `n` slots:
        `n*8 + i*(entryscorewidth+addrwidth)`. */
    function SlotOffset(n: nat, i: nat): nat
    {
      8 * n + Times(i, FieldBits())
    }
  }

  /** What a slot holds: a type, `entryscorewidth` score bits and an address. */
  datatype Entry = Entry(blockType: byte, key: nat, addr: nat)

  /** Which chain a score belongs to: its top `headscorewidth` bits. */
  function Bucket(g: Geometry, score: seq<byte>): (h: nat)
    requires g.Valid() && |score| >= Indexscoresize
    ensures h < Pow2(g.headscorewidth)
  {
    Field(score, 0, g.headscorewidth)
  }

  /** The score bits a slot stores: bits `[headscorewidth,
      headscorewidth + entryscorewidth)` of the score. */
  function Key(g: Geometry, score: seq<byte>): (k: nat)
    requires g.Valid() && |score| >= Indexscoresize
    ensures k < Pow2(g.entryscorewidth)
  {
    Field(score, g.headscorewidth, g.entryscorewidth)
  }

  // ---------------------------------------------------------------------
  // Blocks

  /** The bytes bufalloc is asked for by a block of `n` slots:
      `roundup(n * mementrysize, 8) / 8`. */
  function BlockBytes(g: Geometry, n: nat): (r: nat)
    requires g.Valid() && n <= 255
    ensures n * g.Mementrysize() <= 8 * r < n * g.Mementrysize() + 8
  {
    Util.IsPow2Eight();
    var bits := n * g.Mementrysize();
    BlockBitsSmall(g, n);
    var x := Util.Roundup(bits, 8);
    Util.RoundDown(x, 8);
    x / 8
  }

  lemma BlockBitsSmall(g: Geometry, n: nat)
    requires g.Valid() && n <= 255
    ensures n * g.Mementrysize() + 8 - 1 < 0x1_0000_0000_0000_0000
  {
    MulLeq(n, 255, g.Mementrysize());
  }

  /** `k * w` as `k` additions, so that the slot layout needs no
      nonlinear arithmetic. */
  function Times(k: nat, w: nat): (r: nat)
  {
    if k == 0 then 0 else Times(k - 1, w) + w
  }

  lemma {:induction false} TimesIsProduct(k: nat, w: nat)
    ensures Times(k, w) == k * w
  {
    if k > 0 {
      TimesIsProduct(k - 1, w);
      Distribute(k, w);
    }
  }

  lemma {:induction false} TimesMono(a: nat, b: nat, w: nat)
    requires a <= b
    ensures Times(a, w) <= Times(b, w)
  {
    if a < b {
      TimesMono(a, b - 1, w);
    }
  }

  /** A buffer large enough for `n` slots: `n * mementrysize` bits. */
  predicate Fits(g: Geometry, d: seq<byte>, n: nat)
  {
    8 * n + Times(n, g.FieldBits()) <= 8 * |d|
  }

  /** The bits of `n` slots are `n * mementrysize`. */
  lemma SlotBits(g: Geometry, n: nat)
    ensures 8 * n + Times(n, g.FieldBits()) == n * g.Mementrysize()
  {
    TimesIsProduct(n, g.FieldBits());
  }

  /** Slot `i`'s type byte and field lie inside a buffer that fits `n` slots. */
  lemma SlotInside(g: Geometry, d: seq<byte>, n: nat, i: nat)
    requires g.Valid() && Fits(g, d, n) && i < n
    ensures i < |d| && g.SlotOffset(n, i) + g.FieldBits() <= 8 * |d|
  {
    TimesMono(i + 1, n, g.FieldBits());
  }

  /** The type bytes come before every field. */
  lemma TypesBeforeFields(g: Geometry, n: nat, j: nat, i: nat)
    requires j < n
    ensures 8 * j + 8 <= g.SlotOffset(n, i)
  {
  }

  /** The fields of two different slots do not overlap. */
  lemma SlotsApart(g: Geometry, n: nat, i: nat, j: nat)
    requires i < j
    ensures g.SlotOffset(n, i) + g.FieldBits() <= g.SlotOffset(n, j)
  {
    TimesMono(i + 1, j, g.FieldBits());
  }

  /** Slot `i` of a block of `n` slots whose buffer is `d`. */
  function Slot(g: Geometry, d: seq<byte>, n: nat, i: nat): Entry
    requires g.Valid() && Fits(g, d, n) && i < n
  {
    SlotInside(g, d, n, i);
    var off := g.SlotOffset(n, i);
    Entry(d[i], Field(d, off, g.entryscorewidth), Field(d, off + g.entryscorewidth, g.addrwidth))
  }

  /** All `n` slots of a block, in order. */
  function Slots(g: Geometry, d: seq<byte>, n: nat): (s: seq<Entry>)
    requires g.Valid() && Fits(g, d, n)
    ensures |s| == n
  {
    seq(n, i requires 0 <= i < n => Slot(g, d, n, i))
  }

  /** The index of the first unused slot, or |s| when every slot is used. */
  function FirstEnd(s: seq<Entry>, end: nat): (k: nat)
    ensures k <= |s|
    ensures forall j :: 0 <= j < k ==> s[j].addr != end
    ensures k < |s| ==> s[k].addr == end
  {
    if s == [] then 0
    else if s[0].addr == end then 0
    else 1 + FirstEnd(s[1..], end)
  }

  /** The slots a scan of the block visits: those before the first unused one. */
  function Live(s: seq<Entry>, end: nat): (r: seq<Entry>)
    ensures forall e :: e in r ==> e.addr != end
  {
    s[..FirstEnd(s, end)]
  }

  /** Once a slot is unused, so is every later one. */
  predicate EndsAtTail(s: seq<Entry>, end: nat)
  {
    forall i, j :: 0 <= i <= j < |s| && s[i].addr == end ==> s[j].addr == end
  }

  /** Under EndsAtTail, the visited slots are exactly the used ones. */
  lemma LiveIsUsed(s: seq<Entry>, end: nat, e: Entry)
    requires EndsAtTail(s, end)
    ensures e in Live(s, end) <==> e in s && e.addr != end
  {
    var k := FirstEnd(s, end);
    if e in s && e.addr != end {
      var j :| 0 <= j < |s| && s[j] == e;
      assert s[..k][j] == e;
    }
  }

  /** The addresses of the entries of type `t` and key `key`, in order. */
  function Matching(es: seq<Entry>, t: byte, key: nat): (r: seq<nat>)
    ensures |r| <= |es|
  {
    if es == [] then []
    else
      var e := es[|es| - 1];
      Matching(es[..|es| - 1], t, key) + (if e.blockType == t && e.key == key then [e.addr] else [])
  }

  lemma {:induction false} MatchingConcat(a: seq<Entry>, b: seq<Entry>, t: byte, key: nat)
    ensures Matching(a + b, t, key) == Matching(a, t, key) + Matching(b, t, key)
  {
    if b == [] {
      assert a + b == a;
    } else {
      var b' := b[..|b| - 1];
      assert (a + b)[..|a + b| - 1] == a + b';
      MatchingConcat(a, b', t, key);
    }
  }

  /** `Matching` returns the address of each entry with the given type and
      key, and nothing else. */
  lemma {:induction false} MatchingExact(es: seq<Entry>, t: byte, key: nat, a: nat)
    ensures a in Matching(es, t, key) <==> Entry(t, key, a) in es
  {
    if es != [] {
      var init, e := es[..|es| - 1], es[|es| - 1];
      MatchingExact(init, t, key, a);
      assert es == init + [e];
    }
  }

  /** A longer scan finds at least the addresses a shorter one found. */
  lemma MatchingPrefix(a: seq<Entry>, b: seq<Entry>, t: byte, key: nat)
    requires a <= b
    ensures Matching(a, t, key) <= Matching(b, t, key)
  {
    assert b == a + b[|a|..];
    MatchingConcat(a, b[|a|..], t, key);
  }


  // ---------------------------------------------------------------------
  // getaddr, isscore, istype, isend

  /** getaddr: the address of slot `i`. */
  method GetAddr(g: Geometry, c: Block, i: nat) returns (r: nat)
    requires g.Valid() && Fits(g, c.data[..], c.n) && i < c.n
    ensures r == Slot(g, c.data[..], c.n, i).addr
  {
    SlotInside(g, c.data[..], c.n, i);
    r := Pack.GetUvlong(c.data[..], g.SlotOffset(c.n, i) + g.entryscorewidth, g.addrwidth);
  }

  /** isscore: whether slot `i` stores the score bits of `score`. */
  method IsScore(g: Geometry, score: seq<byte>, c: Block, i: nat) returns (r: bool)
    requires g.Valid() && |score| >= Indexscoresize && Fits(g, c.data[..], c.n) && i < c.n
    ensures r <==> Slot(g, c.data[..], c.n, i).key == Key(g, score)
  {
    SlotInside(g, c.data[..], c.n, i);
    var n1 := Pack.GetUvlong(score, g.headscorewidth, g.entryscorewidth);
    var n2 := Pack.GetUvlong(c.data[..], g.SlotOffset(c.n, i), g.entryscorewidth);
    r := n1 == n2;
  }

  /** istype: whether slot `i` has type `t`. */
  method IsType(g: Geometry, t: byte, c: Block, i: nat) returns (r: bool)
    requires g.Valid() && Fits(g, c.data[..], c.n) && i < c.n
    ensures r <==> Slot(g, c.data[..], c.n, i).blockType == t
  {
    SlotInside(g, c.data[..], c.n, i);
    r := c.data[i] == t;
  }

  /** isend: whether slot `i` is unused. */
  method IsEnd(g: Geometry, c: Block, i: nat) returns (r: bool)
    requires g.Valid() && Fits(g, c.data[..], c.n) && i < c.n
    ensures r <==> Slot(g, c.data[..], c.n, i).addr == g.EndAddr()
  {
    var a := GetAddr(g, c, i);
    r := a == Pow2(g.addrwidth) - 1;
  }

  // ---------------------------------------------------------------------
  // putentry

  /** putentry: writes the type byte and the field of slot `i`; the stored
      address is the low `addrwidth` bits of `addr`, and no other slot
      changes. */
  method PutEntry(g: Geometry, c: Block, i: nat, score: seq<byte>, t: byte, addr: nat)
    requires g.Valid() && |score| >= Indexscoresize && Fits(g, c.data[..], c.n) && i < c.n
    modifies c.data
    ensures Slots(g, c.data[..], c.n) ==
            old(Slots(g, c.data[..], c.n))[i := Entry(t, Key(g, score), addr % Pow2(g.addrwidth))]
  {
    ghost var d0 := c.data[..];
    SlotInside(g, d0, c.n, i);
    c.data[i] := t;
    ghost var d1 := c.data[..];
    var bitoffset := g.SlotOffset(c.n, i);
    var n := Pack.GetUvlong(score, g.headscorewidth, g.entryscorewidth);
    Pack.PutUvlong(c.data, n, bitoffset, g.entryscorewidth);
    ghost var d2 := c.data[..];
    Pack.PutUvlong(c.data, addr, bitoffset + g.entryscorewidth, g.addrwidth);
    ghost var d3 := c.data[..];
    assert d1 == d0[i := t];
    Pack.ByteKept(d0, i, t);
    assert ThreeStores(d0, d1, d2, d3, i, bitoffset, g.entryscorewidth, g.addrwidth);
    StoresSpell(g, d0, d1, d2, d3, c.n, i, t, n, addr % Pow2(g.addrwidth));
  }

  /** Three stores that spell entry `(t, key, a)` into slot `i` replace that
      slot and keep the others. */
  lemma StoresSpell(g: Geometry, d0: seq<byte>, d1: seq<byte>, d2: seq<byte>, d3: seq<byte>,
                    n: nat, i: nat, t: byte, key: nat, a: nat)
    requires g.Valid() && Fits(g, d0, n) && i < n
    requires ThreeStores(d0, d1, d2, d3, i, g.SlotOffset(n, i), g.entryscorewidth, g.addrwidth)
    requires d1[i] == t && key < Pow2(g.entryscorewidth)
    requires Field(d2, g.SlotOffset(n, i), g.entryscorewidth) == key % Pow2(g.entryscorewidth)
    requires Field(d3, g.SlotOffset(n, i) + g.entryscorewidth, g.addrwidth) == a
    ensures Slots(g, d3, n) == Slots(g, d0, n)[i := Entry(t, key, a)]
  {
    var o, E, A := g.SlotOffset(n, i), g.entryscorewidth, g.addrwidth;
    SlotInside(g, d0, n, i);
    StoresFrame(g, d0, d1, d2, d3, n, i);
    TypeThroughSame(d0, d1, d2, d3, i, o, E, A, t);
    KeyThroughSame(d2, d3, o, E, A, key);
    KeptSlots(g, d0, d3, n, i, Entry(t, key, a));
  }

  /** The three stores of putentry into a buffer: the type byte at byte `i`,
      the score bits at bit `o`, the address right after; none changes a bit
      outside its own field. */
  predicate ThreeStores(d0: seq<byte>, d1: seq<byte>, d2: seq<byte>, d3: seq<byte>,
                        i: nat, o: nat, E: nat, A: nat)
  {
    i < |d0| && Pack.Kept(d0, d1, 8 * i, 8) && Pack.Kept(d1, d2, o, E) && Pack.Kept(d2, d3, o + E, A)
  }

  /** The type bytes and fields of the slots other than `i`, unchanged. */
  ghost predicate FieldsKept(g: Geometry, d0: seq<byte>, d3: seq<byte>, n: nat, i: nat)
    requires g.Valid()
  {
    forall j :: 0 <= j < n && j != i && j < |d0| && j < |d3| &&
                g.SlotOffset(n, j) + g.entryscorewidth + g.addrwidth <= 8 * |d0| &&
                g.SlotOffset(n, j) + g.entryscorewidth + g.addrwidth <= 8 * |d3| ==>
      d3[j] == d0[j] &&
      Field(d3, g.SlotOffset(n, j), g.entryscorewidth) == Field(d0, g.SlotOffset(n, j), g.entryscorewidth) &&
      Field(d3, g.SlotOffset(n, j) + g.entryscorewidth, g.addrwidth) ==
        Field(d0, g.SlotOffset(n, j) + g.entryscorewidth, g.addrwidth)
  }

  /** The three stores of putentry into slot `i` miss every other slot. */
  lemma StoresFrame(g: Geometry, d0: seq<byte>, d1: seq<byte>, d2: seq<byte>, d3: seq<byte>,
                    n: nat, i: nat)
    requires g.Valid() && Fits(g, d0, n) && i < n
    requires ThreeStores(d0, d1, d2, d3, i, g.SlotOffset(n, i), g.entryscorewidth, g.addrwidth)
    ensures FieldsKept(g, d0, d3, n, i)
  {
    forall j | 0 <= j < n && j != i && j < |d0| && j < |d3| &&
               g.SlotOffset(n, j) + g.entryscorewidth + g.addrwidth <= 8 * |d0| &&
               g.SlotOffset(n, j) + g.entryscorewidth + g.addrwidth <= 8 * |d3|
      ensures d3[j] == d0[j] &&
              Field(d3, g.SlotOffset(n, j), g.entryscorewidth) == Field(d0, g.SlotOffset(n, j), g.entryscorewidth) &&
              Field(d3, g.SlotOffset(n, j) + g.entryscorewidth, g.addrwidth) ==
                Field(d0, g.SlotOffset(n, j) + g.entryscorewidth, g.addrwidth)
    {
      OtherSlotKept(g, d0, d1, d2, d3, n, i, j);
    }
  }

  /** ... slot `j` among them. */
  lemma OtherSlotKept(g: Geometry, d0: seq<byte>, d1: seq<byte>, d2: seq<byte>, d3: seq<byte>,
                      n: nat, i: nat, j: nat)
    requires g.Valid() && Fits(g, d0, n) && i < n && j < n && j != i
    requires ThreeStores(d0, d1, d2, d3, i, g.SlotOffset(n, i), g.entryscorewidth, g.addrwidth)
    ensures j < |d0| && g.SlotOffset(n, j) + g.entryscorewidth + g.addrwidth <= 8 * |d0|
    ensures d3[j] == d0[j] &&
            Field(d3, g.SlotOffset(n, j), g.entryscorewidth) == Field(d0, g.SlotOffset(n, j), g.entryscorewidth) &&
            Field(d3, g.SlotOffset(n, j) + g.entryscorewidth, g.addrwidth) ==
              Field(d0, g.SlotOffset(n, j) + g.entryscorewidth, g.addrwidth)
  {
    SlotsApartAll(g, d0, n, i, j);
    ThroughOther(d0, d1, d2, d3, i, g.SlotOffset(n, i), g.entryscorewidth, g.addrwidth, j, g.SlotOffset(n, j));
  }

  /** A buffer whose slot `i` spells `e` and whose other slots are kept
      holds the old slots with slot `i` replaced by `e`. */
  lemma KeptSlots(g: Geometry, d0: seq<byte>, d3: seq<byte>, n: nat, i: nat, e: Entry)
    requires g.Valid() && Fits(g, d0, n) && |d3| == |d0| && i < n
    requires FieldsKept(g, d0, d3, n, i)
    requires i < |d3| && g.SlotOffset(n, i) + g.entryscorewidth + g.addrwidth <= 8 * |d3|
    requires d3[i] == e.blockType && Field(d3, g.SlotOffset(n, i), g.entryscorewidth) == e.key
    requires Field(d3, g.SlotOffset(n, i) + g.entryscorewidth, g.addrwidth) == e.addr
    ensures Slots(g, d3, n) == Slots(g, d0, n)[i := e]
  {
    var s0, s3 := Slots(g, d0, n), Slots(g, d3, n);
    forall j | 0 <= j < n
      ensures s3[j] == s0[i := e][j]
    {
      SlotInside(g, d0, n, j);
      if j == i {
        SlotIs(g, d3, n, i, e);
      } else {
        SlotsAgree(g, d0, d3, n, j);
      }
    }
  }

  /** The layout facts about two different slots `i` and `j`. */
  lemma SlotsApartAll(g: Geometry, d: seq<byte>, n: nat, i: nat, j: nat)
    requires g.Valid() && Fits(g, d, n) && i < n && j < n && j != i
    ensures j < |d| && 8 * j + 8 <= g.SlotOffset(n, i) && 8 * i + 8 <= g.SlotOffset(n, j)
    ensures g.SlotOffset(n, j) + g.entryscorewidth + g.addrwidth <= 8 * |d|
    ensures g.SlotOffset(n, j) + g.entryscorewidth + g.addrwidth <= g.SlotOffset(n, i) ||
            g.SlotOffset(n, i) + g.entryscorewidth + g.addrwidth <= g.SlotOffset(n, j)
  {
    SlotInside(g, d, n, j);
    TypesBeforeFields(g, n, j, i);
    TypesBeforeFields(g, n, i, j);
    if j < i {
      SlotsApart(g, n, j, i);
    } else {
      SlotsApart(g, n, i, j);
    }
  }

  /** A type byte and a field that miss the three stores are unchanged. */
  lemma ThroughOther(d0: seq<byte>, d1: seq<byte>, d2: seq<byte>, d3: seq<byte>,
                     i: nat, o: nat, E: nat, A: nat, j: nat, oj: nat)
    requires ThreeStores(d0, d1, d2, d3, i, o, E, A)
    requires j != i && j < |d0| && 8 * j + 8 <= o && 8 * i + 8 <= oj && oj + E + A <= 8 * |d0|
    requires oj + E + A <= o || o + E + A <= oj
    ensures d3[j] == d0[j] && Field(d3, oj, E) == Field(d0, oj, E) && Field(d3, oj + E, A) == Field(d0, oj + E, A)
  {
    TypeThroughOther(d0, d1, d2, d3, i, o, E, A, j);
    FieldThrough(d0, d1, d2, d3, i, o, E, A, oj, E);
    FieldThrough(d0, d1, d2, d3, i, o, E, A, oj + E, A);
  }

  /** Two buffers whose type byte and fields of slot `j` agree hold the same slot `j`. */
  lemma SlotsAgree(g: Geometry, d: seq<byte>, e: seq<byte>, n: nat, j: nat)
    requires g.Valid() && Fits(g, d, n) && |e| == |d| && j < n && j < |d|
    requires g.SlotOffset(n, j) + g.entryscorewidth + g.addrwidth <= 8 * |d| && d[j] == e[j]
    requires Field(e, g.SlotOffset(n, j), g.entryscorewidth) == Field(d, g.SlotOffset(n, j), g.entryscorewidth)
    requires Field(e, g.SlotOffset(n, j) + g.entryscorewidth, g.addrwidth) ==
             Field(d, g.SlotOffset(n, j) + g.entryscorewidth, g.addrwidth)
    ensures Slot(g, e, n, j) == Slot(g, d, n, j)
  {
  }

  /** A slot is the entry its type byte and two fields spell. */
  lemma SlotIs(g: Geometry, d: seq<byte>, n: nat, j: nat, e: Entry)
    requires g.Valid() && Fits(g, d, n) && j < n
    requires j < |d| && g.SlotOffset(n, j) + g.entryscorewidth + g.addrwidth <= 8 * |d|
    requires d[j] == e.blockType && Field(d, g.SlotOffset(n, j), g.entryscorewidth) == e.key
    requires Field(d, g.SlotOffset(n, j) + g.entryscorewidth, g.addrwidth) == e.addr
    ensures Slot(g, d, n, j) == e
  {
  }

  /** The type byte written. */
  lemma TypeThroughSame(d0: seq<byte>, d1: seq<byte>, d2: seq<byte>, d3: seq<byte>,
                        i: nat, o: nat, E: nat, A: nat, t: byte)
    requires ThreeStores(d0, d1, d2, d3, i, o, E, A) && d1[i] == t
    requires 8 * i + 8 <= o
    ensures d3[i] == t
  {
    Pack.KeptByte(d1, d2, o, E, i);
    Pack.KeptByte(d2, d3, o + E, A, i);
  }

  /** The type bytes other than byte `i`. */
  lemma TypeThroughOther(d0: seq<byte>, d1: seq<byte>, d2: seq<byte>, d3: seq<byte>,
                         i: nat, o: nat, E: nat, A: nat, j: nat)
    requires ThreeStores(d0, d1, d2, d3, i, o, E, A)
    requires j < |d0| && 8 * j + 8 <= o && j != i
    ensures d3[j] == d0[j]
  {
    Pack.KeptByte(d0, d1, 8 * i, 8, j);
    Pack.KeptByte(d1, d2, o, E, j);
    Pack.KeptByte(d2, d3, o + E, A, j);
  }

  /** A field that misses all three stores is unchanged. */
  lemma FieldThrough(d0: seq<byte>, d1: seq<byte>, d2: seq<byte>, d3: seq<byte>,
                     i: nat, o: nat, E: nat, A: nat, q: nat, m: nat)
    requires ThreeStores(d0, d1, d2, d3, i, o, E, A)
    requires 8 * i + 8 <= q && q + m <= 8 * |d0| && (q + m <= o || o + E + A <= q)
    ensures Field(d3, q, m) == Field(d0, q, m)
  {
    Pack.KeptField(d2, d3, o + E, A, q, m);
    Pack.KeptField(d1, d2, o, E, q, m);
    Pack.KeptField(d0, d1, 8 * i, 8, q, m);
  }

  /** The score bits written, read back past the address store. */
  lemma KeyThroughSame(d2: seq<byte>, d3: seq<byte>, o: nat, E: nat, A: nat, key: nat)
    requires Pack.Kept(d2, d3, o + E, A) && o + E <= 8 * |d2|
    requires Field(d2, o, E) == key % Pow2(E) && key < Pow2(E)
    ensures Field(d3, o, E) == key
  {
    Pack.KeptField(d2, d3, o + E, A, o, E);
    DivMulAdd(0, key, Pow2(E));
  }

  // ---------------------------------------------------------------------
  // bufalloc and chainalloc

  /** A buffer of `len` bytes, each 0xff. */
  predicate AllOnes(d: seq<byte>)
  {
    forall k :: 0 <= k < |d| ==> d[k] == 0xff
  }

  /** bufalloc: `n` bytes filled with 0xff, or None when `n` is 0 or the
      allocator fails (`allocOk` false). */
  method BufAlloc(n: nat, allocOk: bool) returns (p: Option<array<byte>>)
    ensures p.Some? <==> n > 0 && allocOk
    ensures p.Some? ==> fresh(p.value) && p.value.Length == n && AllOnes(p.value[..])
  {
    if n == 0 || !allocOk {
      return None;
    }
    var a := new byte[n](_ => 0xff);
    return Some(a);
  }

  /** chainalloc: a block of `MAX(n, Chainentriesmin)` slots, all unused. */
  method ChainAlloc(g: Geometry, n: nat, allocOk: bool) returns (b: Option<Block>)
    requires g.Valid() && n <= 255
    ensures b.Some? <==> allocOk
    ensures b.Some? ==> b.value.n == Max(n, Chainentriesmin) && fresh(b.value.data) &&
                        b.value.data.Length == BlockBytes(g, b.value.n) && AllOnes(b.value.data[..])
  {
    var m := Max(n, Chainentriesmin);
    var p := BufAlloc(BlockBytes(g, m), allocOk);
    if p.None? {
      return None;
    }
    return Some(Block(m, p.value));
  }

  /** Every slot of a block fresh from bufalloc is unused. */
  lemma FreshSlotsUnused(g: Geometry, d: seq<byte>, n: nat, i: nat)
    requires g.Valid() && Fits(g, d, n) && i < n && AllOnes(d)
    ensures Slot(g, d, n, i).addr == g.EndAddr()
  {
    SlotInside(g, d, n, i);
    FieldOnes(d, g.SlotOffset(n, i) + g.entryscorewidth, g.addrwidth);
  }

  /** In a buffer of 0xff bytes every field holds all ones. */
  lemma {:induction false} FieldOnes(d: seq<byte>, off: nat, m: nat)
    requires AllOnes(d) && off + m <= 8 * |d|
    ensures Field(d, off, m) == Pow2(m) - 1
  {
    if m > 0 {
      FieldOnes(d, off, m - 1);
      var k := off + m - 1;
      assert d[k / 8] == 0xff;
      OnesBit(7 - k % 8);
    }
  }

  /** Every bit of 0xff is set. */
  lemma OnesBit(s: nat)
    requires s < 8
    ensures Shr(0xff, s) % 2 == 1
  {
    if s == 0 {
      assert Pow2(0) == 1;
    } else if s == 1 {
      assert Pow2(1) == 2;
    } else if s == 2 {
      assert Pow2(2) == 4;
    } else if s == 3 {
      assert Pow2(3) == 8;
    } else if s == 4 {
      assert Pow2(4) == 16;
    } else if s == 5 {
      assert Pow2(5) == 32;
    } else if s == 6 {
      assert Pow2(6) == 64;
    } else {
      assert Pow2(7) == 128;
    }
  }

  // ---------------------------------------------------------------------
  // Chains

  /** An allocated block: its slot count `n` (a `uchar`) and its buffer. */
  datatype Block = Block(n: nat, data: array<byte>)
}
