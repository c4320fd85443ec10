/** The chains of the in-memory index of memventi.c and the three operations
    on them: lookup, headcount and insert.  Each of the 2^headscorewidth
    heads starts a chain of blocks; only the last block of a chain has
    unused slots, and those are at its tail.  The chain layer sees a block
    as its sequence of slots; the MemIndex class ties each such sequence to
    the bytes of the block's buffer. */
module Chains {
  import opened Arith
  import opened Fns
  import opened Dat
  import opened Index
  import opened Wrappers
  import Pack

  /** The chains as values: `heads[h]` lists, in `next` order, the indices
      of the blocks of chain `h` (empty while the head has no buffer);
      `blocks[k]` is the slots of block `k` and `place[k]` the chain and
      position block `k` sits at. */
  datatype Table = Table(heads: seq<seq<nat>>, blocks: seq<seq<Entry>>, place: seq<(nat, nat)>)

  /** A block before the last of its chain has no unused slot; the last
      one has its unused slots at its tail. */
  predicate BlockOk(s: seq<Entry>, end: nat, last: bool)
  {
    0 < |s| <= 255 && if last then EndsAtTail(s, end) else FirstEnd(s, end) == |s|
  }

  /** Position `p` of chain `h` holds a block that exists, records that
      position (so that no block sits at two positions) and keeps the
      block invariant. */
  predicate Sits(end: nat, st: Table, h: nat, p: nat)
    requires h < |st.heads| && p < |st.heads[h]|
  {
    var k := st.heads[h][p];
    k < |st.blocks| && k < |st.place| && st.place[k] == (h, p) &&
    BlockOk(st.blocks[k], end, p == |st.heads[h]| - 1)
  }

  /** The invariant of the index, for unused-slot address `end`. */
  predicate Wf(end: nat, st: Table)
  {
    |st.place| == |st.blocks| &&
    forall h, p :: 0 <= h < |st.heads| && 0 <= p < |st.heads[h]| ==> Sits(end, st, h, p)
  }

  /** Every block of `chain` exists. */
  predicate InRange(blocks: seq<seq<Entry>>, chain: seq<nat>)
  {
    forall j :: 0 <= j < |chain| ==> chain[j] < |blocks|
  }

  /** The entries a scan of a chain visits, block after block. */
  function ChainEntries(end: nat, blocks: seq<seq<Entry>>, chain: seq<nat>): seq<Entry>
    requires InRange(blocks, chain)
  {
    if chain == [] then []
    else ChainEntries(end, blocks, chain[..|chain| - 1]) + Live(blocks[chain[|chain| - 1]], end)
  }

  /** Every chain of a well-formed table names existing blocks. */
  lemma WfChain(end: nat, st: Table, h: nat)
    requires Wf(end, st) && h < |st.heads|
    ensures InRange(st.blocks, st.heads[h])
  {
    forall j | 0 <= j < |st.heads[h]|
      ensures st.heads[h][j] < |st.blocks|
    {
      assert Sits(end, st, h, j);
    }
  }

  /** The entries of chain `h`, in the order lookup visits them. */
  function Entries(end: nat, st: Table, h: nat): seq<Entry>
    requires Wf(end, st) && h < |st.heads|
  {
    WfChain(end, st, h);
    ChainEntries(end, st.blocks, st.heads[h])
  }

  /** The last block of chain `h` has an unused slot. */
  predicate Room(end: nat, st: Table, h: nat)
    requires Wf(end, st) && h < |st.heads|
  {
    if st.heads[h] == [] then false
    else
      assert Sits(end, st, h, |st.heads[h]| - 1);
      var s := st.blocks[st.heads[h][|st.heads[h]| - 1]];
      FirstEnd(s, end) < |s|
  }

  /** The index with every head empty. */
  function Empty(end: nat, nheads: nat): (st: Table)
    ensures Wf(end, st) && |st.heads| == nheads
    ensures forall h :: 0 <= h < |st.heads| ==> Entries(end, st, h) == [] && !Room(end, st, h)
  {
    Table(seq(nheads, _ => []), [], [])
  }

  // ---------------------------------------------------------------------
  // Scans of a block and of a chain

  /** FirstEnd is the first unused position. */
  lemma {:induction false} FirstEndIs(s: seq<Entry>, end: nat, k: nat)
    requires k <= |s| && forall j :: 0 <= j < k ==> s[j].addr != end
    requires k < |s| ==> s[k].addr == end
    ensures FirstEnd(s, end) == k
  {
    if k > 0 {
      FirstEndIs(s[1..], end, k - 1);
    }
  }

  /** A scan that reaches a used slot visits it and may go on. */
  lemma PastUsed(s: seq<Entry>, end: nat, i: nat)
    requires i <= FirstEnd(s, end) && i < |s| && s[i].addr != end
    ensures i + 1 <= FirstEnd(s, end) && s[..i + 1] == s[..i] + [s[i]]
    ensures s[..i + 1] <= Live(s, end)
  {
  }

  /** Filling the first unused slot of a block with `e` adds `e` to the
      visited slots, unless `e` itself looks unused. */
  lemma LiveFill(s: seq<Entry>, i: nat, e: Entry, end: nat)
    requires EndsAtTail(s, end) && i == FirstEnd(s, end) < |s|
    ensures EndsAtTail(s[i := e], end)
    ensures Live(s[i := e], end) == Live(s, end) + (if e.addr != end then [e] else [])
  {
    var s' := s[i := e];
    if e.addr != end {
      FirstEndIs(s', end, i + 1);
      assert s'[..i + 1] == s[..i] + [e];
    } else {
      FirstEndIs(s', end, i);
      assert s'[..i] == s[..i];
    }
  }

  /** A block whose slots are all unused, filled at slot 0. */
  lemma FreshFill(s: seq<Entry>, e: Entry, end: nat)
    requires |s| > 0 && forall j :: 0 <= j < |s| ==> s[j].addr == end
    ensures EndsAtTail(s[0 := e], end)
    ensures Live(s[0 := e], end) == (if e.addr != end then [e] else [])
  {
    FirstEndIs(s, end, 0);
    LiveFill(s, 0, e, end);
  }

  /** The entries of a prefix of a chain come first in the chain's entries. */
  lemma {:induction false} ChainPrefix(end: nat, blocks: seq<seq<Entry>>, chain: seq<nat>, p: nat)
    requires InRange(blocks, chain) && p <= |chain|
    ensures InRange(blocks, chain[..p])
    ensures ChainEntries(end, blocks, chain[..p]) <= ChainEntries(end, blocks, chain)
  {
    if p < |chain| {
      var init := chain[..|chain| - 1];
      assert init[..p] == chain[..p];
      ChainPrefix(end, blocks, init, p);
    } else {
      assert chain[..p] == chain;
    }
  }

  /** One more block of a chain adds the slots a scan of it visits. */
  lemma ChainStep(end: nat, blocks: seq<seq<Entry>>, chain: seq<nat>, p: nat)
    requires InRange(blocks, chain) && p < |chain|
    ensures InRange(blocks, chain[..p]) && InRange(blocks, chain[..p + 1])
    ensures ChainEntries(end, blocks, chain[..p + 1]) ==
            ChainEntries(end, blocks, chain[..p]) + Live(blocks[chain[p]], end)
  {
    assert chain[..p + 1][..p] == chain[..p];
  }

  /** A chain reads no block it does not contain. */
  lemma {:induction false} ChainFrame(end: nat, blocks: seq<seq<Entry>>, chain: seq<nat>, k: nat, x: seq<Entry>)
    requires InRange(blocks, chain) && k < |blocks|
    requires forall j :: 0 <= j < |chain| ==> chain[j] != k
    ensures InRange(blocks[k := x], chain)
    ensures ChainEntries(end, blocks[k := x], chain) == ChainEntries(end, blocks, chain)
  {
    if chain != [] {
      ChainFrame(end, blocks, chain[..|chain| - 1], k, x);
    }
  }

  /** ... nor any block allocated after it. */
  lemma {:induction false} ChainGrow(end: nat, blocks: seq<seq<Entry>>, chain: seq<nat>, x: seq<Entry>)
    requires InRange(blocks, chain)
    ensures InRange(blocks + [x], chain)
    ensures ChainEntries(end, blocks + [x], chain) == ChainEntries(end, blocks, chain)
  {
    if chain != [] {
      assert (blocks + [x])[chain[|chain| - 1]] == blocks[chain[|chain| - 1]];
      ChainGrow(end, blocks, chain[..|chain| - 1], x);
    }
  }

  /** Under the invariant, a block with a successor contributes every slot. */
  lemma FullBlock(end: nat, st: Table, h: nat, p: nat)
    requires Wf(end, st) && h < |st.heads| && p < |st.heads[h]| - 1
    ensures st.heads[h][p] < |st.blocks|
    ensures Live(st.blocks[st.heads[h][p]], end) == st.blocks[st.heads[h][p]]
  {
    assert Sits(end, st, h, p);
  }

  // ---------------------------------------------------------------------
  // Filling the first unused slot of the last block

  /** The last block of chain `b` (which has one). */
  function LastOf(st: Table, b: nat): nat
    requires b < |st.heads| && st.heads[b] != []
  {
    st.heads[b][|st.heads[b]| - 1]
  }

  /** The table after the slots of block `k` became `x`. */
  function Written(st: Table, k: nat, x: seq<Entry>): Table
    requires k < |st.blocks|
  {
    st.(blocks := st.blocks[k := x])
  }

  /** Filling the first unused slot of chain `b`'s last block with `e`
      keeps the invariant, appends `e` to chain `b` unless it looks unused,
      and changes no other chain. */
  lemma FillKeeps(end: nat, st: Table, b: nat, e: Entry)
    requires Wf(end, st) && b < |st.heads| && Room(end, st, b)
    ensures LastOf(st, b) < |st.blocks|
    ensures var s := st.blocks[LastOf(st, b)];
            var st' := Written(st, LastOf(st, b), s[FirstEnd(s, end) := e]);
            Wf(end, st') && |st'.heads| == |st.heads| &&
            Entries(end, st', b) == Entries(end, st, b) + (if e.addr != end then [e] else []) &&
            forall h :: 0 <= h < |st.heads| && h != b ==> Entries(end, st', h) == Entries(end, st, h)
  {
    var k := LastOf(st, b);
    assert Sits(end, st, b, |st.heads[b]| - 1);
    var s := st.blocks[k];
    var x := s[FirstEnd(s, end) := e];
    var st' := Written(st, k, x);
    LiveFill(s, FirstEnd(s, end), e, end);
    forall h, p | 0 <= h < |st'.heads| && 0 <= p < |st'.heads[h]|
      ensures Sits(end, st', h, p)
    {
      assert Sits(end, st, h, p);
    }
    WfChain(end, st, b);
    var chain := st.heads[b];
    var init := chain[..|chain| - 1];
    forall j | 0 <= j < |init|
      ensures init[j] != k
    {
      assert Sits(end, st, b, j);
    }
    ChainFrame(end, st.blocks, init, k, x);
    assert chain == init + [k];
    forall h | 0 <= h < |st.heads| && h != b
      ensures Entries(end, st', h) == Entries(end, st, h)
    {
      OtherChainWritten(end, st, b, x, h);
    }
  }

  /** ... the other chains. */
  lemma OtherChainWritten(end: nat, st: Table, b: nat, x: seq<Entry>, h: nat)
    requires Wf(end, st) && b < |st.heads| && st.heads[b] != [] && h < |st.heads| && h != b
    requires LastOf(st, b) < |st.blocks| && Wf(end, Written(st, LastOf(st, b), x))
    ensures Entries(end, Written(st, LastOf(st, b), x), h) == Entries(end, st, h)
  {
    var k := LastOf(st, b);
    assert Sits(end, st, b, |st.heads[b]| - 1);
    var chain := st.heads[h];
    WfChain(end, st, h);
    forall j | 0 <= j < |chain|
      ensures chain[j] != k
    {
      assert Sits(end, st, h, j);
    }
    ChainFrame(end, st.blocks, chain, k, x);
  }

  // ---------------------------------------------------------------------
  // Appending a block

  /** The table after a block with slots `x` became the new last block of
      chain `b`. */
  function Appended(st: Table, b: nat, x: seq<Entry>): Table
    requires b < |st.heads|
  {
    Table(st.heads[b := st.heads[b] + [|st.blocks|]], st.blocks + [x], st.place + [(b, |st.heads[b]|)])
  }

  /** A chain whose last block is full (or that has no block yet) grows by
      a block of at most 255 slots, all unused but slot 0, which holds `e`:
      the invariant holds, chain `b` gains `e` unless it looks unused, and
      no other chain changes. */
  lemma AppendKeeps(end: nat, st: Table, b: nat, x: seq<Entry>, e: Entry)
    requires Wf(end, st) && b < |st.heads| && !Room(end, st, b)
    requires 0 < |x| <= 255 && x[0] == e
    requires forall j :: 1 <= j < |x| ==> x[j].addr == end
    ensures var st' := Appended(st, b, x);
            Wf(end, st') && |st'.heads| == |st.heads| &&
            Entries(end, st', b) == Entries(end, st, b) + (if e.addr != end then [e] else []) &&
            forall h :: 0 <= h < |st.heads| && h != b ==> Entries(end, st', h) == Entries(end, st, h)
  {
    var st' := Appended(st, b, x);
    var x0 := x[0 := Entry(e.blockType, e.key, end)];
    assert x0[0 := e] == x;
    FreshFill(x0, e, end);
    forall h, p | 0 <= h < |st'.heads| && 0 <= p < |st'.heads[h]|
      ensures Sits(end, st', h, p)
    {
      if h != b || p < |st.heads[b]| {
        SitsAppended(end, st, b, x, h, p);
      }
    }
    WfChain(end, st, b);
    ChainGrow(end, st.blocks, st.heads[b], x);
    assert st'.heads[b][..|st'.heads[b]| - 1] == st.heads[b];
    forall h | 0 <= h < |st.heads| && h != b
      ensures Entries(end, st', h) == Entries(end, st, h)
    {
      WfChain(end, st, h);
      ChainGrow(end, st.blocks, st.heads[h], x);
    }
  }

  /** ... an old position keeps its block; a full last block now has a
      successor. */
  lemma SitsAppended(end: nat, st: Table, b: nat, x: seq<Entry>, h: nat, p: nat)
    requires Wf(end, st) && b < |st.heads| && !Room(end, st, b)
    requires h < |st.heads| && p < |st.heads[h]|
    ensures p < |Appended(st, b, x).heads[h]| && Sits(end, Appended(st, b, x), h, p)
  {
    var st' := Appended(st, b, x);
    assert Sits(end, st, h, p);
    var k := st.heads[h][p];
    assert st'.heads[h][p] == k;
    assert st'.blocks[k] == st.blocks[k] && st'.place[k] == st.place[k];
  }

  // ---------------------------------------------------------------------
  // The scan of one block

  /** One more entry adds its address to the lookups of its own type and
      score, and leaves every other lookup as it was. */
  lemma InsertThenMatch(es: seq<Entry>, e: Entry, t: byte, key: nat)
    ensures Matching(es + [e], t, key) ==
            Matching(es, t, key) + (if e.blockType == t && e.key == key then [e.addr] else [])
  {
    assert (es + [e])[..|es|] == es;
  }

  /** A step of the scan across a used slot. */
  lemma ScanStep(addrs0: seq<nat>, s: seq<Entry>, end: nat, i: nat, t: byte, key: nat)
    requires i <= FirstEnd(s, end) && i < |s| && s[i].addr != end
    ensures i + 1 <= FirstEnd(s, end) && s[..i + 1] <= Live(s, end)
    ensures addrs0 + Matching(s[..i + 1], t, key) ==
            addrs0 + Matching(s[..i], t, key) + (if s[i].blockType == t && s[i].key == key then [s[i].addr] else [])
  {
    PastUsed(s, end, i);
    InsertThenMatch(s[..i], s[i], t, key);
  }

  /** The inner loop of lookup over one block: appends to `addrs0` the
      addresses of the matching entries before the first unused slot, or
      gives -1 once the addresses would number more than Addressesmax. */
  method ScanBlock(g: Geometry, c: Block, score: seq<byte>, t: byte, n0: int, addrs0: seq<nat>)
    returns (n: int, addrs: seq<nat>)
    requires g.Valid() && |score| >= Indexscoresize && Fits(g, c.data[..], c.n)
    requires n0 == |addrs0| <= Addressesmax
    ensures var m := Matching(Live(Slots(g, c.data[..], c.n), g.EndAddr()), t, Key(g, score));
            (n == -1 <==> |addrs0| + |m| > Addressesmax) && (n != -1 ==> n == |addrs| && addrs == addrs0 + m)
  {
    ghost var s := Slots(g, c.data[..], c.n);
    ghost var key := Key(g, score);
    n, addrs := n0, addrs0;
    var i := 0;
    while i < c.n
      invariant i <= FirstEnd(s, g.EndAddr())
      invariant addrs == addrs0 + Matching(s[..i], t, key) && n == |addrs| <= Addressesmax
    {
      var entryaddr := GetAddr(g, c, i);
      if entryaddr == Pow2(g.addrwidth) - 1 {
        assert s[i].addr == g.EndAddr();
        break;
      }
      assert s[i] == Slot(g, c.data[..], c.n, i);
      ScanStep(addrs0, s, g.EndAddr(), i, t, key);
      var ty := IsType(g, t, c, i);
      var sc := IsScore(g, score, c, i);
      if !ty || !sc {
        i := i + 1;
        continue;
      }
      if n >= Addressesmax {
        MatchingPrefix(s[..i + 1], Live(s, g.EndAddr()), t, key);
        return -1, addrs;
      }
      addrs := addrs + [entryaddr];
      n := n + 1;
      i := i + 1;
    }
    assert s[..i] == Live(s, g.EndAddr());
  }

  /** What a scan of block `p` of a chain adds to the addresses lookup
      found so far, and that they never exceed those of the whole chain. */
  lemma LookupStep(end: nat, blocks: seq<seq<Entry>>, chain: seq<nat>, p: nat, t: byte, key: nat)
    requires InRange(blocks, chain) && p < |chain|
    ensures InRange(blocks, chain[..p]) && InRange(blocks, chain[..p + 1])
    ensures Matching(ChainEntries(end, blocks, chain[..p + 1]), t, key) ==
            Matching(ChainEntries(end, blocks, chain[..p]), t, key) + Matching(Live(blocks[chain[p]], end), t, key)
    ensures |Matching(ChainEntries(end, blocks, chain[..p + 1]), t, key)| <= |Matching(ChainEntries(end, blocks, chain), t, key)|
  {
    ChainStep(end, blocks, chain, p);
    MatchingConcat(ChainEntries(end, blocks, chain[..p]), Live(blocks[chain[p]], end), t, key);
    ChainPrefix(end, blocks, chain, p + 1);
    MatchingPrefix(ChainEntries(end, blocks, chain[..p + 1]), ChainEntries(end, blocks, chain), t, key);
  }

  /** Two different blocks have different buffers. */
  predicate Apart(arena: seq<Block>, k: nat, l: nat)
    requires k < |arena| && l < |arena|
  {
    k != l ==> arena[k].data != arena[l].data
  }

  // ---------------------------------------------------------------------
  // The index object

  /** The heads and their blocks.  `arena[k]` is block `k`; the ghost
      `blocks` and `place` hold its slots and its position, so that the
      chains can be stated as a Table. */
  class MemIndex {
    const g: Geometry
    var heads: seq<seq<nat>>
    var arena: seq<Block>
    /** `nblocks / nheads` at startup; insert computes an allocation size
        from it and then discards it. */
    var initheadlen: nat
    ghost var blocks: seq<seq<Entry>>
    ghost var place: seq<(nat, nat)>

    ghost function State(): Table
      reads this
    {
      Table(heads, blocks, place)
    }

    /** The buffers of all blocks. */
    ghost function Arrays(): set<array<byte>>
      reads this
    {
      set k | 0 <= k < |arena| :: arena[k].data
    }

    /** The buffer of block `k` fits its slot count and spells its slots. */
    ghost predicate Mirrored(k: nat)
      requires k < |arena| && k < |blocks|
      reads this, arena[k].data
    {
      g.Valid() && Fits(g, arena[k].data[..], arena[k].n) && blocks[k] == Slots(g, arena[k].data[..], arena[k].n)
    }

    ghost predicate Valid()
      reads this, Arrays()
    {
      g.Valid() && Wf(g.EndAddr(), State()) && |heads| == Pow2(g.headscorewidth) && |blocks| == |arena| &&
      (forall k :: 0 <= k < |arena| ==> Mirrored(k)) &&
      (forall k, l :: 0 <= k < |arena| && 0 <= l < |arena| ==> Apart(arena, k, l))
    }

    /** The entries of chain `h`. */
    ghost function EntriesOf(h: nat): seq<Entry>
      requires Wf(g.EndAddr(), State()) && h < |heads|
      reads this
    {
      Entries(g.EndAddr(), State(), h)
    }

    /** Whether the last block of chain `h` has an unused slot. */
    ghost predicate HasRoom(h: nat)
      requires Wf(g.EndAddr(), State()) && h < |heads|
      reads this
    {
      Room(g.EndAddr(), State(), h)
    }

    /** init's setup of the heads: every head empty. */
    constructor (g: Geometry, nblocks: nat)
      requires g.Valid()
      ensures this.g == g && Valid()
      ensures initheadlen == nblocks / Pow2(g.headscorewidth)
      ensures forall h :: 0 <= h < |heads| ==> EntriesOf(h) == []
      ensures Arrays() == {}
    {
      this.g := g;
      var st := Empty(g.EndAddr(), Pow2(g.headscorewidth));
      heads := st.heads;
      arena := [];
      blocks := [];
      place := [];
      DivNonneg(nblocks, Pow2(g.headscorewidth));
      initheadlen := nblocks / Pow2(g.headscorewidth);
    }

    /** lookup: the addresses stored, in chain order, by the entries of
        type `t` whose score bits are those of `score`; -1 once a
        seventeenth one turns up, as the caller's buffer holds
        Addressesmax. */
    method Lookup(score: seq<byte>, t: byte) returns (n: int, addrs: seq<nat>)
      requires Valid() && |score| >= Indexscoresize
      ensures var m := Matching(EntriesOf(Bucket(g, score)), t, Key(g, score));
              (n == -1 <==> |m| > Addressesmax) && (n != -1 ==> n == |m| && addrs == m)
    {
      var index := Pack.GetUvlong(score, 0, g.headscorewidth);
      ghost var key := Key(g, score);
      ghost var end := g.EndAddr();
      var chain := heads[index];
      WfChain(end, State(), index);
      n, addrs := 0, [];
      var p := 0;
      while p < |chain|
        invariant p <= |chain| && InRange(blocks, chain[..p])
        invariant addrs == Matching(ChainEntries(end, blocks, chain[..p]), t, key)
        invariant n == |addrs| <= Addressesmax
      {
        var c := arena[chain[p]];
        assert Mirrored(chain[p]);
        LookupStep(end, blocks, chain, p, t, key);
        n, addrs := ScanBlock(g, c, score, t, n, addrs);
        if n == -1 {
          return;
        }
        p := p + 1;
      }
      assert chain[..p] == chain;
    }

    /** headcount: the number of entries of chain `h`, counting every slot
        of a block that has a successor. */
    method HeadCount(h: nat) returns (r: nat)
      requires Valid() && h < |heads|
      ensures r == |EntriesOf(h)|
    {
      ghost var end := g.EndAddr();
      var chain := heads[h];
      r := 0;
      if chain == [] {
        return;
      }
      WfChain(end, State(), h);
      var p := 0;
      while p < |chain| - 1
        invariant p <= |chain| - 1 && InRange(blocks, chain[..p])
        invariant r == |ChainEntries(end, blocks, chain[..p])|
      {
        ChainStep(end, blocks, chain, p);
        FullBlock(end, State(), h, p);
        assert Mirrored(chain[p]);
        r := r + arena[chain[p]].n;
        p := p + 1;
      }
      ChainStep(end, blocks, chain, p);
      var c := arena[chain[p]];
      assert Mirrored(chain[p]);
      ghost var s := blocks[chain[p]];
      var i := 0;
      while i < c.n
        invariant i <= FirstEnd(s, end)
        invariant r == |ChainEntries(end, blocks, chain[..p])| + i
      {
        var isEnd := IsEnd(g, c, i);
        if isEnd {
          assert s[i].addr == end;
          break;
        }
        assert s[i].addr != end;
        r := r + 1;
        i := i + 1;
      }
      assert Sits(end, State(), h, p);
      assert i == FirstEnd(s, end);
      assert chain[..p + 1] == chain;
    }

    /** insert: puts the entry for `score`, `t` and the low `addrwidth` bits
        of `addr` in the first unused slot of the last block of its chain.
        A head without a buffer first gets one of Chainentriesmin slots, a
        full last block a successor of Chainentriesmin slots; false when
        that allocation fails (`allocOk` false), and then nothing changes. */
    method Insert(score: seq<byte>, t: byte, addr: nat, allocOk: bool) returns (ok: bool)
      requires Valid() && |score| >= Indexscoresize
      modifies this, Arrays()
      ensures Valid() && |heads| == old(|heads|) && initheadlen == old(initheadlen)
      ensures ok <==> allocOk || old(HasRoom(Bucket(g, score)))
      ensures var e := Entry(t, Key(g, score), addr % Pow2(g.addrwidth));
              EntriesOf(Bucket(g, score)) ==
                old(EntriesOf(Bucket(g, score))) + (if ok && e.addr != g.EndAddr() then [e] else [])
      ensures forall h :: 0 <= h < |heads| && h != Bucket(g, score) ==> EntriesOf(h) == old(EntriesOf(h))
      ensures fresh(Arrays() - old(Arrays()))
    {
      var index := Pack.GetUvlong(score, 0, g.headscorewidth);
      var room, k, i := LastRoom(index);
      if room {
        assert arena[k].data in Arrays();
        Fill(index, k, i, score, t, addr);
        return true;
      }
      ok := Grow(index, score, t, addr, allocOk);
    }

    /** The first half of insert: whether chain `b` has a last block with
        an unused slot, and if so which block and which slot. */
    method LastRoom(b: nat) returns (room: bool, k: nat, i: nat)
      requires Valid() && b < |heads|
      ensures room <==> HasRoom(b)
      ensures room ==> heads[b] != [] && k == heads[b][|heads[b]| - 1] && k < |arena| &&
                       i < |blocks[k]| && i == FirstEnd(blocks[k], g.EndAddr())
    {
      var chain := heads[b];
      if chain == [] {
        return false, 0, 0;
      }
      k := chain[|chain| - 1];
      assert Sits(g.EndAddr(), State(), b, |chain| - 1);
      var c := arena[k];
      assert Mirrored(k);
      i := FirstFree(g, c);
      room := i < c.n;
    }

    /** The rest of insert once chain `b` has no unused slot: allocate,
        and on success append. */
    method Grow(b: nat, score: seq<byte>, t: byte, addr: nat, allocOk: bool) returns (ok: bool)
      requires Valid() && |score| >= Indexscoresize && b < |heads| && !HasRoom(b)
      modifies this
      ensures Valid() && |heads| == old(|heads|) && initheadlen == old(initheadlen)
      ensures ok <==> allocOk
      ensures var e := Entry(t, Key(g, score), addr % Pow2(g.addrwidth));
              EntriesOf(b) == old(EntriesOf(b)) + (if ok && e.addr != g.EndAddr() then [e] else [])
      ensures forall h :: 0 <= h < |heads| && h != b ==> EntriesOf(h) == old(EntriesOf(h))
      ensures fresh(Arrays() - old(Arrays()))
    {
      var c := NewBlock(b, allocOk);
      if c.None? {
        return false;
      }
      ghost var before := arena;
      AppendBlock(b, c.value, score, t, addr);
      forall a | a in Arrays()
        ensures a in old(Arrays()) || a == c.value.data
      {
        var k :| 0 <= k < |arena| && arena[k].data == a;
        if k < |before| {
          assert before[k] == arena[k];
          assert old(arena[k].data) in old(Arrays());
        }
      }
      return true;
    }

    /** The allocation insert makes when chain `b` has no unused slot: a
        buffer of Chainentriesmin slots for an empty head, otherwise a
        successor block of MAX(0, Chainentriesmin) slots, as the size insert
        computes from headcount is overwritten with 0. */
    method NewBlock(b: nat, allocOk: bool) returns (c: Option<Block>)
      requires Valid() && b < |heads|
      ensures c.Some? <==> allocOk
      ensures c.Some? ==> c.value.n == Chainentriesmin && fresh(c.value.data) &&
                          Fits(g, c.value.data[..], c.value.n) && AllOnes(c.value.data[..])
    {
      if heads[b] == [] {
        var p := BufAlloc(BlockBytes(g, Chainentriesmin), allocOk);
        if p.None? {
          return None;
        }
        c := Some(Block(Chainentriesmin, p.value));
      } else {
        var headlen := HeadCount(b);
        var nalloc := Min(255, Max(0, initheadlen - headlen));
        nalloc := 0;
        c := ChainAlloc(g, nalloc, allocOk);
        if c.None? {
          return;
        }
      }
      SlotBits(g, c.value.n);
    }

    /** The fill half of insert: slot `i`, the first unused one of block
        `k`, the last block of chain `b`, gets the entry; chain `b` gains
        it, unless it looks unused, and no other chain changes. */
    method Fill(b: nat, k: nat, i: nat, score: seq<byte>, t: byte, addr: nat)
      requires Valid() && |score| >= Indexscoresize && b < |heads| && heads[b] != []
      requires k == heads[b][|heads[b]| - 1] && k < |arena| && i < |blocks[k]|
      requires i == FirstEnd(blocks[k], g.EndAddr())
      modifies this`blocks, arena[k].data
      ensures Valid() && heads == old(heads)
      ensures var e := Entry(t, Key(g, score), addr % Pow2(g.addrwidth));
              EntriesOf(b) == old(EntriesOf(b)) + (if e.addr != g.EndAddr() then [e] else [])
      ensures forall h :: 0 <= h < |heads| && h != b ==> EntriesOf(h) == old(EntriesOf(h))
    {
      ghost var e := Entry(t, Key(g, score), addr % Pow2(g.addrwidth));
      ghost var st := State();
      assert Mirrored(k);
      assert Sits(g.EndAddr(), st, b, |heads[b]| - 1);
      FillKeeps(g.EndAddr(), st, b, e);
      PutEntry(g, arena[k], i, score, t, addr);
      blocks := blocks[k := old(blocks[k])[i := e]];
      assert State() == Written(st, LastOf(st, b), st.blocks[k][FirstEnd(st.blocks[k], g.EndAddr()) := e]);
      forall l | 0 <= l < |arena|
        ensures Mirrored(l)
      {
        if l != k {
          assert Apart(arena, l, k);
          assert old(Mirrored(l));
        }
      }
    }

    /** The append half of insert: block `c`, fresh from the allocator,
        gets the entry in slot 0 and becomes the last block of chain `b`,
        which gains the entry, unless it looks unused; no other chain
        changes. */
    method AppendBlock(b: nat, c: Block, score: seq<byte>, t: byte, addr: nat)
      requires Valid() && |score| >= Indexscoresize && b < |heads| && !HasRoom(b)
      requires 0 < c.n <= 255 && Fits(g, c.data[..], c.n) && AllOnes(c.data[..]) && c.data !in Arrays()
      modifies this, c.data
      ensures Valid() && |heads| == old(|heads|) && initheadlen == old(initheadlen)
      ensures var e := Entry(t, Key(g, score), addr % Pow2(g.addrwidth));
              EntriesOf(b) == old(EntriesOf(b)) + (if e.addr != g.EndAddr() then [e] else [])
      ensures forall h :: 0 <= h < |heads| && h != b ==> EntriesOf(h) == old(EntriesOf(h))
      ensures arena == old(arena) + [c]
    {
      ghost var end := g.EndAddr();
      ghost var st := State();
      ghost var e := Entry(t, Key(g, score), addr % Pow2(g.addrwidth));
      ghost var ones := c.data[..];
      ghost var x := Slots(g, ones, c.n)[0 := e];
      forall j | 1 <= j < c.n
        ensures x[j].addr == end
      {
        FreshSlotsUnused(g, ones, c.n, j);
      }
      AppendKeeps(end, st, b, x, e);
      PutEntry(g, c, 0, score, t, addr);
      heads := heads[b := heads[b] + [|arena|]];
      arena := arena + [c];
      blocks := blocks + [x];
      place := place + [(b, |old(heads[b])|)];
      assert State() == Appended(st, b, x);
      forall l | 0 <= l < |arena|
        ensures Mirrored(l)
      {
        if l < |arena| - 1 {
          assert old(Mirrored(l));
          assert old(arena[l].data) in old(Arrays());
        }
      }
      forall k, l | 0 <= k < |arena| && 0 <= l < |arena|
        ensures Apart(arena, k, l)
      {
        if k < |arena| - 1 && l < |arena| - 1 {
          assert old(Apart(arena, k, l));
        } else if k < |arena| - 1 {
          assert old(arena[k].data) in old(Arrays());
        } else if l < |arena| - 1 {
          assert old(arena[l].data) in old(Arrays());
        }
      }
    }
  }

  /** The scan insert makes for the first unused slot of a block: its
      position, or the slot count when every slot is used. */
  method FirstFree(g: Geometry, c: Block) returns (i: nat)
    requires g.Valid() && Fits(g, c.data[..], c.n)
    ensures i == FirstEnd(Slots(g, c.data[..], c.n), g.EndAddr())
  {
    ghost var s := Slots(g, c.data[..], c.n);
    i := 0;
    while i < c.n
      invariant i <= FirstEnd(s, g.EndAddr())
    {
      var isEnd := IsEnd(g, c, i);
      if isEnd {
        assert s[i].addr == g.EndAddr();
        return;
      }
      assert s[i].addr != g.EndAddr();
      i := i + 1;
    }
  }
}
