/** The recovery half of memventi.c's init: check the last index record
    against the data log, index the blocks of the data log that follow it
    (those whose index record was never written), then replay the whole
    index log into the in-memory index.  Every failure is fatal: init logs
    it and exits, which the model returns as a `Fatal` value. */
module Recover {
  import opened Arith
  import opened Fns
  import opened Dat
  import opened Wrappers
  import opened Pack
  import opened Index
  import opened Chains
  import opened Log
  import Seqs

  /** readblock as init's loops see the data log: a function from offsets to
      the block read there. */
  type BlockReader = nat -> Result<(DHeader, seq<byte>), BlockError>

  /** readblock on the data log `df`, all of whose bytes count as whole
      blocks. */
  function Reader(df: seq<byte>): BlockReader
  {
    o => ReadBlock(df, |df|, o)
  }

  /** `rd` is readblock on the data log `df`. */
  ghost predicate Reads(rd: BlockReader, df: seq<byte>)
  {
    forall o: nat {:trigger ReadBlock(df, |df|, o)} :: rd(o) == ReadBlock(df, |df|, o)
  }

  /** The fatal conditions of init, in the order it meets them. */
  datatype Fatal =
    | IndexSizeNotMultiple             // "indexfile size not multiple of index header size"
    | LastUnreadable(ie: IHeaderError) // "reading last header from index"
    | LastPastEnd                      // "last header ... point past end of datafile"
    | LastBlockUnreadable(be: BlockError)
    | LastScoreInvalid                 // the block's data does not hash to its score
    | LastIndexScoreWrong              // the record's score bytes are not the block's
    | LastTypeWrong                    // the record's type is not the block's
    | TailUnreadable(at: nat, e: BlockError)
    | TailScoreInvalid(at: nat)
    | TailNotIndexed(at: nat)          // indexstore failed for the block at `at`
    | ReplayUnreadable(at: nat)        // "error reading indexfile"
    | ReplayShort(at: nat)             // "short read for indexfile"
    | ReplayInsertFailed(at: nat)      // "error inserting in memory"

  // ---------------------------------------------------------------------
  // The last index record

  /** The record `ih` is the one store writes for a block that `rd` reads
      at its offset and whose data hashes to its score. */
  predicate Indexes(rd: BlockReader, ih: IHeader, sha1: seq<byte> -> seq<byte>)
  {
    match rd(ih.offset)
    case Err(_) => false
    case Ok((dh, data)) => |dh.score| == Scoresize && sha1(data) == dh.score && ih == ToIHeader(dh, ih.offset)
  }

  /** The end of the block `ih` indexes. */
  function BlockEnd(rd: BlockReader, ih: IHeader): (e: nat)
    requires rd(ih.offset).Ok?
    ensures ih.offset < e
  {
    ih.offset + Diskdheadersize + rd(ih.offset).value.0.size
  }

  /** Every block `rd` reads ends by `end`. */
  ghost predicate Bounded(rd: BlockReader, end: nat)
  {
    forall o: nat :: rd(o).Ok? ==> o + Diskdheadersize + rd(o).value.0.size <= end
  }

  /** readblock on a data log reads blocks that end within it, each with a
      score of the right size. */
  lemma ReadsBlock(rd: BlockReader, df: seq<byte>, o: nat)
    requires Reads(rd, df)
    ensures rd(o).Ok? ==> o + Diskdheadersize + rd(o).value.0.size <= |df| && ValidDHeader(rd(o).value.0)
  {
    assert rd(o) == ReadBlock(df, |df|, o);
  }

  /** So every block readblock reads on a data log ends within it. */
  lemma ReadsBounded(rd: BlockReader, df: seq<byte>)
    requires Reads(rd, df)
    ensures Bounded(rd, |df|)
  {
    forall o: nat | rd(o).Ok?
      ensures o + Diskdheadersize + rd(o).value.0.size <= |df|
    {
      ReadsBlock(rd, df, o);
    }
  }

  /** The offset from which init scans the data log of `dfsize` bytes,
      which `rd` reads, for blocks the index log `ixf` lacks: 0 for an empty
      index, otherwise what checking its last record gives. */
  function CheckLast(rd: BlockReader, dfsize: nat, ixf: seq<byte>, sha1: seq<byte> -> seq<byte>): (r: Result<nat, Fatal>)
    requires |ixf| % Diskiheadersize == 0
    ensures |ixf| == 0 ==> r == Ok(0)
  {
    if |ixf| == 0 then Ok(0)
    else CheckRecord(rd, dfsize, ReadIHeader(ixf, |ixf| - Diskiheadersize), sha1)
  }

  /** The check of the last record `rec` as readiheader returned it: the
      end of the block it names, once that block is found to read, to hash
      to its score and to agree with the record. */
  function CheckRecord(rd: BlockReader, dfsize: nat, rec: Result<IHeader, IHeaderError>, sha1: seq<byte> -> seq<byte>): (r: Result<nat, Fatal>)
    ensures r.Ok? ==> rec.Ok? && Indexes(rd, rec.value, sha1) && r.value == BlockEnd(rd, rec.value)
  {
    match rec
    case Err(e) => Err(LastUnreadable(e))
    case Ok(ih) =>
      if ih.offset > dfsize then Err(LastPastEnd)
      else
        match rd(ih.offset)
        case Err(e) => Err(LastBlockUnreadable(e))
        case Ok((dh, data)) =>
          if |dh.score| != Scoresize || sha1(data) != dh.score then Err(LastScoreInvalid)
          else if ih.indexscore != dh.score[..Indexscoresize] then Err(LastIndexScoreWrong)
          else if ih.blockType != dh.blockType then Err(LastTypeWrong)
          else Ok(ih.offset + Diskdheadersize + dh.size)
  }

  /** The last record is rejected exactly when it cannot be read or no
      block it could index sits at its offset of the data log `df`. */
  lemma CheckRecordRejects(rd: BlockReader, df: seq<byte>, rec: Result<IHeader, IHeaderError>, sha1: seq<byte> -> seq<byte>)
    requires Reads(rd, df)
    ensures CheckRecord(rd, |df|, rec, sha1).Err? <==> rec.Err? || !Indexes(rd, rec.value, sha1)
  {
    if rec.Ok? {
      ReadsBlock(rd, df, rec.value.offset);
    }
  }

  /** The scan starts within the data log `df`. */
  lemma CheckRecordBounded(rd: BlockReader, df: seq<byte>, rec: Result<IHeader, IHeaderError>, sha1: seq<byte> -> seq<byte>)
    requires Reads(rd, df)
    ensures CheckRecord(rd, |df|, rec, sha1).Ok? ==> CheckRecord(rd, |df|, rec, sha1).value <= |df|
  {
    if rec.Ok? {
      ReadsBlock(rd, df, rec.value.offset);
    }
  }

  // ---------------------------------------------------------------------
  // The blocks after the last indexed one

  /** What scanning the data log from an offset finds: the index records of
      the blocks that verify, up to the first that does not, and that one's
      failure. */
  datatype Scan = Scan(recs: seq<IHeader>, err: Option<Fatal>)

  function Prepend(done: seq<IHeader>, s: Scan): Scan
  {
    Scan(done + s.recs, s.err)
  }

  /** The scan of init's second loop from `d` to `end`: the record of each
      block that `rd` reads and that hashes to its score, up to `end` or the
      first block that does not, which is named with its offset. */
  function Tail(rd: BlockReader, end: nat, d: nat, sha1: seq<byte> -> seq<byte>): (r: Scan)
    ensures r.err.Some? ==> (r.err.value.TailUnreadable? || r.err.value.TailScoreInvalid?) && d <= r.err.value.at < end
    ensures d >= end ==> r == Scan([], None)
    decreases end - d
  {
    if d >= end then Scan([], None)
    else
      match rd(d)
      case Err(e) => Scan([], Some(TailUnreadable(d, e)))
      case Ok((dh, data)) =>
        if |dh.score| != Scoresize || sha1(data) != dh.score then Scan([], Some(TailScoreInvalid(d)))
        else Prepend([ToIHeader(dh, d)], Tail(rd, end, d + Diskdheadersize + dh.size, sha1))
  }

  /** A scan that starts at a block that verifies is that block's record
      followed by the scan from its end. */
  lemma TailStep(rd: BlockReader, end: nat, d: nat, sha1: seq<byte> -> seq<byte>, dh: DHeader, data: seq<byte>)
    requires d < end && rd(d) == Ok((dh, data)) && |dh.score| == Scoresize && sha1(data) == dh.score
    ensures Tail(rd, end, d, sha1) == Prepend([ToIHeader(dh, d)], Tail(rd, end, d + Diskdheadersize + dh.size, sha1))
  {
  }

  /** Every record the scan yields indexes a verified block at or after its
      start and before `end`, and the next record starts where that block
      ends. */
  lemma {:induction false} TailIndexes(rd: BlockReader, end: nat, d: nat, sha1: seq<byte> -> seq<byte>, i: nat)
    requires i < |Tail(rd, end, d, sha1).recs|
    ensures var s := Tail(rd, end, d, sha1);
            d <= s.recs[i].offset < end && Indexes(rd, s.recs[i], sha1) &&
            (i + 1 < |s.recs| ==> s.recs[i + 1].offset == BlockEnd(rd, s.recs[i]))
    decreases end - d
  {
    var dh := rd(d).value.0;
    var d' := d + Diskdheadersize + dh.size;
    var rest := Tail(rd, end, d', sha1);
    assert Tail(rd, end, d, sha1).recs == [ToIHeader(dh, d)] + rest.recs;
    if i > 0 {
      TailIndexes(rd, end, d', sha1, i - 1);
    } else if 0 < |rest.recs| {
      TailFirst(rd, end, d', sha1);
    }
  }

  /** The first record of a scan that yields any is the block at its start. */
  lemma TailFirst(rd: BlockReader, end: nat, d: nat, sha1: seq<byte> -> seq<byte>)
    requires |Tail(rd, end, d, sha1).recs| > 0
    ensures Tail(rd, end, d, sha1).recs[0].offset == d
  {
  }

  /** The records come in increasing order of offset, so no block is
      indexed twice. */
  lemma {:induction false} TailOrdered(rd: BlockReader, end: nat, d: nat, sha1: seq<byte> -> seq<byte>, i: nat, j: nat)
    requires i < j < |Tail(rd, end, d, sha1).recs|
    ensures Tail(rd, end, d, sha1).recs[i].offset < Tail(rd, end, d, sha1).recs[j].offset
    decreases end - d
  {
    var dh := rd(d).value.0;
    var d' := d + Diskdheadersize + dh.size;
    var rest := Tail(rd, end, d', sha1);
    assert Tail(rd, end, d, sha1).recs == [ToIHeader(dh, d)] + rest.recs;
    if i > 0 {
      TailOrdered(rd, end, d', sha1, i - 1, j - 1);
    } else {
      TailIndexes(rd, end, d', sha1, j - 1);
    }
  }

  /** Without error, and with every block ending by `end`, the scan ends at
      `end`: the last record's block ends there, and the scan is empty only
      when it starts there. */
  lemma {:induction false} TailTiles(rd: BlockReader, end: nat, d: nat, sha1: seq<byte> -> seq<byte>)
    requires d <= end && Bounded(rd, end)
    ensures var s := Tail(rd, end, d, sha1);
            s.err.None? ==> if s.recs == [] then d == end
                            else rd(s.recs[|s.recs| - 1].offset).Ok? && BlockEnd(rd, s.recs[|s.recs| - 1]) == end
    decreases end - d
  {
    if d < end && rd(d).Ok? {
      var (dh, data) := rd(d).value;
      if |dh.score| == Scoresize && sha1(data) == dh.score {
        var d' := d + Diskdheadersize + dh.size;
        assert d' <= end;
        TailTiles(rd, end, d', sha1);
        var rest := Tail(rd, end, d', sha1);
        var ih := ToIHeader(dh, d);
        var recs := [ih] + rest.recs;
        assert Tail(rd, end, d, sha1).recs == recs;
        if rest.recs == [] {
          assert BlockEnd(rd, ih) == d';
        } else {
          assert recs[|recs| - 1] == rest.recs[|rest.recs| - 1];
        }
      }
    }
  }

  // ---------------------------------------------------------------------
  // Index records as bytes

  predicate Sized(recs: seq<IHeader>)
  {
    forall i :: 0 <= i < |recs| ==> |recs[i].indexscore| == Indexscoresize
  }

  predicate AllValid(recs: seq<IHeader>)
  {
    forall i :: 0 <= i < |recs| ==> ValidIHeader(recs[i])
  }

  /** The bytes of the index log holding `recs`, in order. */
  function RecordBytes(recs: seq<IHeader>): (b: seq<byte>)
    requires Sized(recs)
    ensures |b| == Diskiheadersize * |recs|
  {
    if recs == [] then []
    else RecordBytes(recs[..|recs| - 1]) + IHeaderBytes(recs[|recs| - 1])
  }

  lemma RecordBytesSnoc(recs: seq<IHeader>, ih: IHeader)
    requires Sized(recs) && |ih.indexscore| == Indexscoresize
    ensures Sized(recs + [ih]) && RecordBytes(recs + [ih]) == RecordBytes(recs) + IHeaderBytes(ih)
  {
    assert (recs + [ih])[..|recs|] == recs;
  }

  /** The records of two runs of the index log lie one after the other. */
  lemma {:induction false} RecordBytesConcat(a: seq<IHeader>, b: seq<IHeader>)
    requires Sized(a) && Sized(b)
    ensures Sized(a + b) && RecordBytes(a + b) == RecordBytes(a) + RecordBytes(b)
  {
    if b == [] {
      assert a + b == a;
    } else {
      var init, last := b[..|b| - 1], b[|b| - 1];
      assert Sized(init) && |last.indexscore| == Indexscoresize;
      RecordBytesConcat(a, init);
      Seqs.Snoc(b);
      Seqs.AssocRight(a, init, [last]);
      RecordBytesSnoc(a + init, last);
      RecordBytesSnoc(init, last);
      Seqs.AssocRight(RecordBytes(a), RecordBytes(init), IHeaderBytes(last));
    }
  }

  /** Distinct valid records have distinct bytes: unpackiheader reads back
      what packiheader wrote. */
  lemma {:induction false} RecordBytesInjective(a: seq<IHeader>, b: seq<IHeader>)
    requires AllValid(a) && AllValid(b) && Sized(a) && Sized(b)
    requires RecordBytes(a) == RecordBytes(b)
    ensures a == b
  {
    if a != [] {
      var n := |a| - 1;
      assert |b| == |a|;
      SplitEq(RecordBytes(a[..n]), IHeaderBytes(a[n]), RecordBytes(b[..n]), IHeaderBytes(b[n]));
      RecordBytesInjective(a[..n], b[..n]);
      UnpackPackIHeader(a[n], []);
      UnpackPackIHeader(b[n], []);
      assert IHeaderBytes(a[n]) + [] == IHeaderBytes(a[n]) && IHeaderBytes(b[n]) + [] == IHeaderBytes(b[n]);
      assert a == a[..n] + [a[n]] && b == b[..n] + [b[n]];
    }
  }

  /** An index log that holds `before`, `k` records long, followed by the
      records of `added` holds, after its first `k` records, exactly `added`. */
  lemma AddedRecords(recs: seq<IHeader>, before: seq<byte>, k: nat, added: seq<IHeader>)
    requires AllValid(recs) && AllValid(added) && Sized(recs) && Sized(added)
    requires |before| == Diskiheadersize * k && RecordBytes(recs) == before + RecordBytes(added)
    ensures k <= |recs| && recs[k..] == added
  {
    assert Diskiheadersize == 15;
    assert |recs| == k + |added|;
    var p, q := recs[..k], recs[k..];
    assert recs == p + q;
    assert Sized(p) && Sized(q) && AllValid(q);
    RecordBytesConcat(p, q);
    SplitEq(RecordBytes(p), RecordBytes(q), before, RecordBytes(added));
    RecordBytesInjective(q, added);
  }

  lemma SplitEq<T>(a: seq<T>, b: seq<T>, c: seq<T>, d: seq<T>)
    requires a + b == c + d && |a| == |c|
    ensures a == c && b == d
  {
    assert a == (a + b)[..|a|] && c == (c + d)[..|c|];
    assert b == (a + b)[|a|..] && d == (c + d)[|c|..];
  }

  // ---------------------------------------------------------------------
  // Adding the scanned blocks to the index log

  /** How many of the first `n` index writes, returning `writes(j)` for the
      j-th, were whole before the first that was not. */
  function WholePrefix(writes: nat -> int, n: nat): (k: nat)
    ensures k <= n
    ensures forall j :: 0 <= j < k ==> writes(j) == Diskiheadersize
    ensures k < n ==> writes(k) != Diskiheadersize
  {
    if n == 0 then 0
    else
      var k := WholePrefix(writes, n - 1);
      if k < n - 1 then k
      else if writes(n - 1) == Diskiheadersize then n
      else n - 1
  }

  lemma WholePrefixStep(writes: nat -> int, n: nat)
    requires WholePrefix(writes, n) == n && writes(n) == Diskiheadersize
    ensures WholePrefix(writes, n + 1) == n + 1
  {
  }

  /** WholePrefix is the first write that is not whole, or `n`. */
  lemma {:induction false} WholePrefixIs(writes: nat -> int, n: nat, m: nat)
    requires m <= n && forall j :: 0 <= j < m ==> writes(j) == Diskiheadersize
    requires m < n ==> writes(m) != Diskiheadersize
    ensures WholePrefix(writes, n) == m
  {
    if n > 0 {
      WholePrefixIs(writes, n - 1, if m < n - 1 then m else n - 1);
    }
  }

  /** The index log went from `ix0` to `ix` and its size from `n0` to `n`
      by storing, for the scan `s`, the records of its blocks in order,
      the j-th write returning `writes(j)`, up to the first write that was
      not whole (which left its part of a record and is the failure `err`)
      or, if all were, through the end of the scan (whose own failure is
      `err`). */
  ghost predicate Indexed(ix0: seq<byte>, ix: seq<byte>, n0: nat, n: nat, s: Scan, writes: nat -> int, err: Option<Fatal>)
    requires forall j :: writes(j) <= Diskiheadersize
  {
    Sized(s.recs) &&
    var k := WholePrefix(writes, |s.recs|);
    ix == ix0 + RecordBytes(s.recs[..k]) + (if k < |s.recs| then Log.Written(IHeaderBytes(s.recs[k]), writes(k)) else []) &&
    n == n0 + |RecordBytes(s.recs[..k])| &&
    err == (if k < |s.recs| then Some(TailNotIndexed(s.recs[k].offset)) else s.err)
  }

  /** init's second loop: for every block from `start` to the end of the
      data log, read it, check its score and append its index record with
      indexstore, whose j-th write returns `writes(j)`; indexfilesize grows
      by one record per record stored.  The first failure is returned. */
  method ScanTail(d: Disk, start: nat, sha1: seq<byte> -> seq<byte>, writes: nat -> int, rd: BlockReader)
    returns (err: Option<Fatal>)
    requires d.datafilesize == |d.datafile| && Reads(rd, d.datafile)
    requires forall j :: writes(j) <= Diskiheadersize
    modifies d`indexfile, d`indexfilesize
    ensures Indexed(old(d.indexfile), d.indexfile, old(d.indexfilesize), d.indexfilesize,
                    Tail(rd, |d.datafile|, start, sha1), writes, err)
  {
    ghost var s := Tail(rd, d.datafilesize, start, sha1);
    ghost var done: seq<IHeader> := [];
    TailSized(rd, d.datafilesize, start, sha1);
    var doffset := start;
    var n := 0;
    while doffset < d.datafilesize
      invariant n == |done| && Sized(done)
      invariant s == Prepend(done, Tail(rd, d.datafilesize, doffset, sha1))
      invariant WholePrefix(writes, n) == n
      invariant d.indexfile == old(d.indexfile) + RecordBytes(done)
      invariant d.indexfilesize == old(d.indexfilesize) + |RecordBytes(done)|
      decreases d.datafilesize - doffset
    {
      var next;
      err, next, done := IndexRound(d, doffset, n, sha1, writes, rd, old(d.indexfile), old(d.indexfilesize), s, done);
      if err.Some? {
        return err;
      }
      doffset := next;
      n := n + 1;
    }
    err := None;
    ScanStops(old(d.indexfile), d.indexfile, old(d.indexfilesize), d.indexfilesize, s, done, writes, err);
  }

  /** One round of init's second loop: check the block at `o` and store
      its index record with indexstore, the write returning `writes(n)`,
      then count the record in indexfilesize.  The scan `s` reached `o`
      after the records `done`, all stored; the round either ends the
      indexing of `s` with its failure, or stores one more record of `s`
      and goes on at `next`. */
  method IndexRound(d: Disk, o: nat, n: nat, sha1: seq<byte> -> seq<byte>, writes: nat -> int, rd: BlockReader,
                    ghost ix0: seq<byte>, ghost n0: nat, ghost s: Scan, ghost done: seq<IHeader>)
    returns (err: Option<Fatal>, next: nat, ghost done': seq<IHeader>)
    requires d.datafilesize == |d.datafile| && o < d.datafilesize && Reads(rd, d.datafile)
    requires forall j :: writes(j) <= Diskiheadersize
    requires n == |done| && Sized(done) && Sized(s.recs) && WholePrefix(writes, n) == n
    requires s == Prepend(done, Tail(rd, d.datafilesize, o, sha1))
    requires d.indexfile == ix0 + RecordBytes(done) && d.indexfilesize == n0 + |RecordBytes(done)|
    modifies d`indexfile, d`indexfilesize
    ensures err.Some? ==> Indexed(ix0, d.indexfile, n0, d.indexfilesize, s, writes, err)
    ensures err.None? ==> o < next && |done'| == n + 1 && Sized(done') &&
                          s == Prepend(done', Tail(rd, d.datafilesize, next, sha1)) && WholePrefix(writes, n + 1) == n + 1 &&
                          d.indexfile == ix0 + RecordBytes(done') && d.indexfilesize == n0 + |RecordBytes(done')|
  {
    var c;
    ReadsBlock(rd, d.datafile, o);
    c, next := CheckBlock(rd, d.datafilesize, o, sha1);
    ghost var t := Tail(rd, d.datafilesize, o, sha1);
    if c.Err? {
      err := Some(c.error);
      ScanEnds(s, done, t);
      ScanStops(ix0, d.indexfile, n0, d.indexfilesize, s, done, writes, err);
      return err, next, done;
    }
    ScanAdvances(s, done, c.value, Tail(rd, d.datafilesize, next, sha1));
    var ierr := d.IndexStore(c.value, writes(n));
    if ierr.Some? {
      err := Some(TailNotIndexed(o));
      ScanFails(ix0, d.indexfile, n0, d.indexfilesize, s, done, writes, err);
      return err, next, done;
    }
    RecordBytesSnoc(done, c.value);
    Seqs.AssocRight(ix0, RecordBytes(done), IHeaderBytes(c.value));
    WholePrefixStep(writes, n);
    d.indexfilesize := d.indexfilesize + Diskiheadersize;
    err, done' := None, done + [c.value];
  }

  /** `r` and `next` are what the scan from `o` says of its first block:
      either the scan stops there with the failure `r`, or it yields the
      record `r` first and goes on at `next`. */
  ghost predicate Checked(rd: BlockReader, end: nat, o: nat, sha1: seq<byte> -> seq<byte>, r: Result<IHeader, Fatal>, next: nat)
  {
    var t := Tail(rd, end, o, sha1);
    if r.Err? then t.recs == [] && t.err == Some(r.error) && !r.error.TailNotIndexed?
    else o < next && t.recs != [] && t.recs[0] == r.value && r.value.offset == o &&
         |r.value.indexscore| == Indexscoresize && t == Prepend([r.value], Tail(rd, end, next, sha1))
  }

  /** The part of a round that reads the block at `o` and checks its
      score: the first record of the scan from `o` and where the scan goes
      on, or why the scan stops there. */
  method CheckBlock(rd: BlockReader, end: nat, o: nat, sha1: seq<byte> -> seq<byte>)
    returns (r: Result<IHeader, Fatal>, next: nat)
    requires o < end && (rd(o).Ok? ==> |rd(o).value.0.score| == Scoresize)
    ensures Checked(rd, end, o, sha1, r, next)
  {
    var rb := rd(o);
    if rb.Err? {
      return Err(TailUnreadable(o, rb.error)), o;
    }
    var (dh, data) := rb.value;
    if sha1(data) != dh.score {
      return Err(TailScoreInvalid(o)), o;
    }
    TailStep(rd, end, o, sha1, dh, data);
    return Ok(ToIHeader(dh, o)), o + Diskdheadersize + dh.size;
  }

  /** A scan whose rest yields no record holds just `done`. */
  lemma ScanEnds(s: Scan, done: seq<IHeader>, rest: Scan)
    requires s == Prepend(done, rest) && rest.recs == []
    ensures s.recs == done && s.err == rest.err
  {
    assert done + [] == done;
  }

  /** One more record of the scan: the scan `s` reaches the scan `t`
      after `done`, and `t` yields the record `x` first. */
  lemma ScanAdvances(s: Scan, done: seq<IHeader>, x: IHeader, rest: Scan)
    requires s == Prepend(done, Prepend([x], rest))
    ensures s == Prepend(done + [x], rest)
    ensures |done| < |s.recs| && s.recs[..|done| + 1] == done + [x] && s.recs[|done|] == x
  {
    assert done + ([x] + rest.recs) == (done + [x]) + rest.recs;
    assert ((done + [x]) + rest.recs)[..|done| + 1] == done + [x];
  }

  /** Every record a scan yields has a score prefix of the right size. */
  lemma TailSized(rd: BlockReader, end: nat, d: nat, sha1: seq<byte> -> seq<byte>)
    ensures Sized(Tail(rd, end, d, sha1).recs)
  {
    forall i | 0 <= i < |Tail(rd, end, d, sha1).recs|
      ensures |Tail(rd, end, d, sha1).recs[i].indexscore| == Indexscoresize
    {
      TailIndexes(rd, end, d, sha1, i);
    }
  }

  /** The scan ended after all of its records, `done`, were stored. */
  lemma ScanStops(ix0: seq<byte>, ix: seq<byte>, n0: nat, n: nat, s: Scan, done: seq<IHeader>, writes: nat -> int, err: Option<Fatal>)
    requires s.recs == done && Sized(done) && WholePrefix(writes, |done|) == |done|
    requires forall j :: writes(j) <= Diskiheadersize
    requires ix == ix0 + RecordBytes(done) && n == n0 + |RecordBytes(done)| && err == s.err
    ensures Indexed(ix0, ix, n0, n, s, writes, err)
  {
    assert s.recs[..|done|] == done;
  }

  /** The scan stopped when storing its record after `done`. */
  lemma ScanFails(ix0: seq<byte>, ix: seq<byte>, n0: nat, n: nat, s: Scan, done: seq<IHeader>, writes: nat -> int, err: Option<Fatal>)
    requires |done| < |s.recs| && s.recs[..|done| + 1] == done + [s.recs[|done|]] && Sized(s.recs) && Sized(done)
    requires WholePrefix(writes, |done|) == |done| && writes(|done|) != Diskiheadersize
    requires forall j :: writes(j) <= Diskiheadersize
    requires ix == ix0 + RecordBytes(done) + Log.Written(IHeaderBytes(s.recs[|done|]), writes(|done|))
    requires n == n0 + |RecordBytes(done)| && err == Some(TailNotIndexed(s.recs[|done|].offset))
    ensures Indexed(ix0, ix, n0, n, s, writes, err)
  {
    WholePrefixIs(writes, |s.recs|, |done|);
    assert s.recs[..|done|] == s.recs[..|done| + 1][..|done|];
  }

  // ---------------------------------------------------------------------
  // Replaying the index log

  /** The entries chain `h` holds after inserting `recs` in order: insert
      keeps the low addrwidth bits of the offset, and an entry whose address
      then reads as the end marker is no entry at all. */
  function Replayed(g: Geometry, recs: seq<IHeader>, h: nat): (es: seq<Entry>)
    requires g.Valid() && Sized(recs)
    ensures forall e :: e in es ==> e.addr != g.EndAddr()
  {
    if recs == [] then []
    else
      var ih := recs[|recs| - 1];
      var e := Entry(ih.blockType, Key(g, ih.indexscore), ih.offset % Pow2(g.addrwidth));
      Replayed(g, recs[..|recs| - 1], h) + (if Bucket(g, ih.indexscore) == h && e.addr != g.EndAddr() then [e] else [])
  }

  /** A replayed record whose offset is below the end marker is found by
      lookup: its chain holds its entry with its offset as address. */
  lemma {:induction false} ReplayedHolds(g: Geometry, recs: seq<IHeader>, i: nat)
    requires g.Valid() && Sized(recs)
    requires i < |recs| && recs[i].offset < g.EndAddr()
    ensures Entry(recs[i].blockType, Key(g, recs[i].indexscore), recs[i].offset)
              in Replayed(g, recs, Bucket(g, recs[i].indexscore))
  {
    var n := |recs| - 1;
    var ih := recs[i];
    var h := Bucket(g, ih.indexscore);
    var rest := Replayed(g, recs[..n], h);
    var e := Entry(recs[n].blockType, Key(g, recs[n].indexscore), recs[n].offset % Pow2(g.addrwidth));
    assert Replayed(g, recs, h) == rest + (if Bucket(g, recs[n].indexscore) == h && e.addr != g.EndAddr() then [e] else []);
    if i < n {
      assert recs[..n][i] == ih;
      ReplayedHolds(g, recs[..n], i);
    } else {
      OffsetKept(g, ih.offset);
    }
  }

  /** insert keeps an offset below the end marker whole. */
  lemma OffsetKept(g: Geometry, a: nat)
    requires g.Valid() && a < g.EndAddr()
    ensures a % Pow2(g.addrwidth) == a
  {
    var m := Pow2(g.addrwidth);
    DivMulAdd(0, a, m);
    assert 0 * m + a == a;
  }

  /** Every replayed entry comes from a record of its chain. */
  lemma {:induction false} ReplayedFrom(g: Geometry, recs: seq<IHeader>, h: nat, e: Entry)
    requires g.Valid() && Sized(recs)
    requires e in Replayed(g, recs, h)
    ensures exists i :: 0 <= i < |recs| && Bucket(g, recs[i].indexscore) == h &&
                        e == Entry(recs[i].blockType, Key(g, recs[i].indexscore), recs[i].offset % Pow2(g.addrwidth))
  {
    var n := |recs| - 1;
    if e !in Replayed(g, recs[..n], h) {
      assert Bucket(g, recs[n].indexscore) == h;
    } else {
      ReplayedFrom(g, recs[..n], h, e);
      var i :| 0 <= i < n && Bucket(g, recs[..n][i].indexscore) == h &&
               e == Entry(recs[..n][i].blockType, Key(g, recs[..n][i].indexscore), recs[..n][i].offset % Pow2(g.addrwidth));
      assert recs[..n][i] == recs[i];
    }
  }

  lemma EndAddrBelow(g: Geometry)
    requires g.Valid()
    ensures g.EndAddr() < Pow2(g.addrwidth)
  {
  }

  /** Replaying one more record appends its entry to its chain. */
  lemma ReplayedSnoc(g: Geometry, recs: seq<IHeader>, ih: IHeader, h: nat)
    requires g.Valid() && Sized(recs) && |ih.indexscore| == Indexscoresize
    ensures Sized(recs + [ih])
    ensures var e := Entry(ih.blockType, Key(g, ih.indexscore), ih.offset % Pow2(g.addrwidth));
            Replayed(g, recs + [ih], h) ==
              Replayed(g, recs, h) + (if Bucket(g, ih.indexscore) == h && e.addr != g.EndAddr() then [e] else [])
  {
    assert (recs + [ih])[..|recs|] == recs;
  }

  /** init's last loop: a fresh in-memory index with every head empty, then
      for each record of the index log below `end`, read it and insert it,
      the i-th insert's allocation succeeding when `allocs(i)`.  A read
      that returns nothing, a short read and a failed insert are fatal.
      `recs` are the records read. */
  method Replay(g: Geometry, f: seq<byte>, end: nat, nblocks: nat, allocs: nat -> bool)
    returns (r: Result<MemIndex, Fatal>, ghost recs: seq<IHeader>)
    requires g.Valid() && end % Diskiheadersize == 0
    ensures r.Ok? ==> end <= |f| && Sized(recs) && AllValid(recs) && RecordBytes(recs) == f[..end] &&
                      fresh(r.value) && r.value.Valid() && r.value.g == g &&
                      r.value.initheadlen == nblocks / Pow2(g.headscorewidth) &&
                      forall h :: 0 <= h < |r.value.heads| ==> r.value.EntriesOf(h) == Replayed(g, recs, h)
    ensures end <= |f| && (forall i :: 0 <= i < end / Diskiheadersize ==> allocs(i)) ==> r.Ok?
    ensures r.Err? ==> match r.error
                       case ReplayUnreadable(at) => at < end && |f| <= at
                       case ReplayShort(at) => at < end && |f| < at + Diskiheadersize
                       case ReplayInsertFailed(at) => at + Diskiheadersize <= end && !allocs(at / Diskiheadersize)
                       case _ => false
  {
    var mem := new MemIndex(g, nblocks);
    var off := 0;
    recs := [];
    while off < end
      invariant off % Diskiheadersize == 0 && off <= end && off <= |f| && off / Diskiheadersize == |recs|
      invariant Sized(recs) && AllValid(recs) && RecordBytes(recs) == f[..off]
      invariant fresh(mem) && fresh(mem.Arrays())
      invariant mem.Valid() && mem.g == g && mem.initheadlen == nblocks / Pow2(g.headscorewidth)
      invariant forall h :: 0 <= h < |mem.heads| ==> mem.EntriesOf(h) == Replayed(g, recs, h)
    {
      NextRecord(off, end);
      var err, ih := ReplayRecord(mem, f, off, allocs(off / Diskiheadersize), recs);
      if err.Some? {
        return Err(err.value), recs;
      }
      recs := recs + [ih];
      off := off + Diskiheadersize;
    }
    return Ok(mem), recs;
  }

  /** One round of init's last loop: read the record at `off`, which
      follows `recs`, and insert it, its allocation succeeding when
      `alloc`. */
  method ReplayRecord(mem: MemIndex, f: seq<byte>, off: nat, alloc: bool, ghost recs: seq<IHeader>)
    returns (err: Option<Fatal>, ih: IHeader)
    requires mem.Valid() && off <= |f| && Sized(recs) && AllValid(recs) && RecordBytes(recs) == f[..off]
    requires forall h :: 0 <= h < |mem.heads| ==> mem.EntriesOf(h) == Replayed(mem.g, recs, h)
    modifies mem, mem.Arrays()
    ensures mem.Valid() && mem.initheadlen == old(mem.initheadlen) && fresh(mem.Arrays() - old(mem.Arrays()))
    ensures err.None? ==> off + Diskiheadersize <= |f| &&
                          Sized(recs + [ih]) && AllValid(recs + [ih]) && RecordBytes(recs + [ih]) == f[..off + Diskiheadersize] &&
                          forall h :: 0 <= h < |mem.heads| ==> mem.EntriesOf(h) == Replayed(mem.g, recs + [ih], h)
    ensures err.Some? ==> match err.value
                          case ReplayUnreadable(at) => at == off && |f| <= off
                          case ReplayShort(at) => at == off && off < |f| < off + Diskiheadersize
                          case ReplayInsertFailed(at) => at == off && !alloc
                          case _ => false
    ensures alloc && off + Diskiheadersize <= |f| ==> err.None?
  {
    var rec := ReadIHeader(f, off);
    if rec.Err? {
      if rec.error == IndexEof {
        return Some(ReplayUnreadable(off)), IHeader([], 0, 0);
      }
      return Some(ReplayShort(off)), IHeader([], 0, 0);
    }
    ih := rec.value;
    var ok := InsertRecord(mem, ih, alloc, recs);
    if !ok {
      return Some(ReplayInsertFailed(off)), ih;
    }
    RecordRead(f, off, recs, ih);
    return None, ih;
  }

  /** The insert of one round of init's last loop: the record `ih` joins
      the records `recs` already replayed. */
  method InsertRecord(mem: MemIndex, ih: IHeader, alloc: bool, ghost recs: seq<IHeader>) returns (ok: bool)
    requires mem.Valid() && Sized(recs) && |ih.indexscore| == Indexscoresize
    requires forall h :: 0 <= h < |mem.heads| ==> mem.EntriesOf(h) == Replayed(mem.g, recs, h)
    modifies mem, mem.Arrays()
    ensures mem.Valid() && mem.initheadlen == old(mem.initheadlen) && fresh(mem.Arrays() - old(mem.Arrays()))
    ensures alloc ==> ok
    ensures ok ==> Sized(recs + [ih]) && forall h :: 0 <= h < |mem.heads| ==> mem.EntriesOf(h) == Replayed(mem.g, recs + [ih], h)
  {
    ok := mem.Insert(ih.indexscore, ih.blockType, ih.offset, alloc);
    if ok {
      forall h | 0 <= h < |mem.heads|
        ensures mem.EntriesOf(h) == Replayed(mem.g, recs + [ih], h)
      {
        ReplayedSnoc(mem.g, recs, ih, h);
      }
    }
  }

  /** The next record of an index log of whole records starts at a record
      boundary inside the log. */
  lemma NextRecord(off: nat, end: nat)
    requires off < end && off % Diskiheadersize == 0 && end % Diskiheadersize == 0
    ensures off + Diskiheadersize <= end && (off + Diskiheadersize) % Diskiheadersize == 0
    ensures (off + Diskiheadersize) / Diskiheadersize == off / Diskiheadersize + 1
  {
    assert Diskiheadersize == 15;
  }

  /** The record read at `off`, after the records `recs` spelling the log up
      to `off`, extends them to the log up to its end. */
  lemma RecordRead(f: seq<byte>, off: nat, recs: seq<IHeader>, ih: IHeader)
    requires Sized(recs) && AllValid(recs) && off + Diskiheadersize <= |f| && RecordBytes(recs) == f[..off]
    requires ValidIHeader(ih) && IHeaderBytes(ih) == f[off..off + Diskiheadersize]
    ensures Sized(recs + [ih]) && AllValid(recs + [ih]) && RecordBytes(recs + [ih]) == f[..off + Diskiheadersize]
  {
    assert Diskiheadersize == 15;
    RecordBytesSnoc(recs, ih);
    assert f[..off + Diskiheadersize] == f[..off] + f[off..off + Diskiheadersize];
  }

  // ---------------------------------------------------------------------
  // init's recovery as a whole

  lemma ReaderReads(df: seq<byte>)
    ensures Reads(Reader(df), df)
  {
    forall o: nat
      ensures Reader(df)(o) == ReadBlock(df, |df|, o)
    {
    }
  }

  /** A scan that was indexed without failure had every write whole: the
      index log gained all its records and the scan ran to its end. */
  lemma IndexedWhole(ix0: seq<byte>, ix: seq<byte>, n0: nat, n: nat, s: Scan, writes: nat -> int)
    requires forall j :: writes(j) <= Diskiheadersize
    requires Indexed(ix0, ix, n0, n, s, writes, None)
    ensures Sized(s.recs) && s.err.None? && ix == ix0 + RecordBytes(s.recs) && n == n0 + |RecordBytes(s.recs)|
  {
    assert s.recs[..|s.recs|] == s.recs;
  }

  /** The scan yields no failure and all writes are whole: the indexing
      succeeds. */
  lemma IndexedSucceeds(ix0: seq<byte>, ix: seq<byte>, n0: nat, n: nat, s: Scan, writes: nat -> int, err: Option<Fatal>)
    requires forall j :: writes(j) == Diskiheadersize
    requires Indexed(ix0, ix, n0, n, s, writes, err) && s.err.None?
    ensures err.None?
  {
    WholePrefixIs(writes, |s.recs|, |s.recs|);
  }

  /** init's recovery: with the data log and the index log as read from
      disk (`datafilesize` and `indexfilesize` their sizes, `rd` readblock
      on the data log), check the last index record, index the blocks after
      it (the j-th index write returning `writes(j)`), then replay the index
      log into a fresh in-memory index (the i-th insert's allocation
      succeeding when `allocs(i)`).  `recs` are the records replayed. */
  method Init(d: Disk, g: Geometry, sha1: seq<byte> -> seq<byte>, writes: nat -> int, allocs: nat -> bool, rd: BlockReader)
    returns (r: Result<MemIndex, Fatal>, ghost recs: seq<IHeader>)
    requires g.Valid() && d.datafilesize == |d.datafile| && d.indexfilesize == |d.indexfile| && Reads(rd, d.datafile)
    requires forall j :: writes(j) <= Diskiheadersize
    modifies d`indexfile, d`indexfilesize, d`nblocks
    ensures d.datafile == old(d.datafile)
    ensures |old(d.indexfile)| % Diskiheadersize != 0 ==> r == Err(IndexSizeNotMultiple) && d.indexfile == old(d.indexfile)
    ensures |old(d.indexfile)| % Diskiheadersize == 0 && CheckLast(rd, |d.datafile|, old(d.indexfile), sha1).Err? ==>
              r == Err(CheckLast(rd, |d.datafile|, old(d.indexfile), sha1).error) && d.indexfile == old(d.indexfile)
    ensures r.Ok? ==> fresh(r.value) && Recovered(rd, |d.datafile|, old(d.indexfile), d.indexfile, sha1, g, recs, r.value) &&
                      d.indexfilesize == |d.indexfile| && d.nblocks == |recs|
    ensures (|old(d.indexfile)| % Diskiheadersize == 0 && CheckLast(rd, |d.datafile|, old(d.indexfile), sha1).Ok? &&
             Tail(rd, |d.datafile|, CheckLast(rd, |d.datafile|, old(d.indexfile), sha1).value, sha1).err.None? &&
             (forall j :: writes(j) == Diskiheadersize) && (forall i :: allocs(i))) ==> r.Ok?
  {
    if d.indexfilesize % Diskiheadersize != 0 {
      return Err(IndexSizeNotMultiple), [];
    }
    var last := CheckLast(rd, d.datafilesize, d.indexfile, sha1);
    if last.Err? {
      return Err(last.error), [];
    }
    r, recs := RecoverFrom(d, g, last.value, sha1, writes, allocs, rd);
  }

  /** init's recovery once the last record checked out: index the blocks
      from `start` on, then replay the index log. */
  method RecoverFrom(d: Disk, g: Geometry, start: nat, sha1: seq<byte> -> seq<byte>, writes: nat -> int, allocs: nat -> bool, rd: BlockReader)
    returns (r: Result<MemIndex, Fatal>, ghost recs: seq<IHeader>)
    requires g.Valid() && d.datafilesize == |d.datafile| && d.indexfilesize == |d.indexfile| && Reads(rd, d.datafile)
    requires |d.indexfile| % Diskiheadersize == 0 && forall j :: writes(j) <= Diskiheadersize
    modifies d`indexfile, d`indexfilesize, d`nblocks
    ensures r.Ok? ==> fresh(r.value) && AddedLog(Tail(rd, |d.datafile|, start, sha1), old(d.indexfile), d.indexfile, recs) &&
                      MemOf(g, recs, d.indexfile, r.value) && d.indexfilesize == |d.indexfile| && d.nblocks == |recs|
    ensures Tail(rd, |d.datafile|, start, sha1).err.None? && (forall j :: writes(j) == Diskiheadersize) && (forall i :: allocs(i)) ==> r.Ok?
  {
    ghost var ix0, n0 := d.indexfile, d.indexfilesize;
    var err := ScanTail(d, start, sha1, writes, rd);
    ghost var s := Tail(rd, |d.datafile|, start, sha1);
    if (forall j :: writes(j) == Diskiheadersize) && s.err.None? {
      IndexedSucceeds(ix0, d.indexfile, n0, d.indexfilesize, s, writes, err);
    }
    if err.Some? {
      return Err(err.value), [];
    }
    IndexedWhole(ix0, d.indexfile, n0, d.indexfilesize, s, writes);
    StillWhole(n0, s.recs);
    r, recs := Rebuild(d, g, allocs);
  }

  /** init's last steps: nblocks is the number of records, then the index
      log is replayed into a fresh in-memory index. */
  method Rebuild(d: Disk, g: Geometry, allocs: nat -> bool) returns (r: Result<MemIndex, Fatal>, ghost recs: seq<IHeader>)
    requires g.Valid() && d.indexfilesize == |d.indexfile| && d.indexfilesize % Diskiheadersize == 0
    modifies d`nblocks
    ensures d.nblocks == d.indexfilesize / Diskiheadersize
    ensures r.Ok? ==> fresh(r.value) && Sized(recs) && AllValid(recs) && RecordBytes(recs) == d.indexfile &&
                      MemOf(g, recs, d.indexfile, r.value) && d.nblocks == |recs|
    ensures (forall i :: 0 <= i < d.nblocks ==> allocs(i)) ==> r.Ok?
  {
    DivNonneg(d.indexfilesize, Diskiheadersize);
    d.nblocks := d.indexfilesize / Diskiheadersize;
    r, recs := Replay(g, d.indexfile, d.indexfilesize, d.nblocks, allocs);
    if r.Ok? {
      assert d.indexfile[..d.indexfilesize] == d.indexfile;
      RecordCount(recs, d.indexfile);
    }
  }

  /** A log of whole records holds `n / 15` of them. */
  lemma WholeRecords(n: nat) returns (k: nat)
    requires n % Diskiheadersize == 0
    ensures n == Diskiheadersize * k && k == n / Diskiheadersize
  {
    assert Diskiheadersize == 15;
    k := n / Diskiheadersize;
  }

  /** Appending records keeps an index log of whole records. */
  lemma StillWhole(n0: nat, rs: seq<IHeader>)
    requires n0 % Diskiheadersize == 0 && Sized(rs)
    ensures (n0 + |RecordBytes(rs)|) % Diskiheadersize == 0
  {
    assert Diskiheadersize == 15;
  }

  lemma RecordCount(recs: seq<IHeader>, ix: seq<byte>)
    requires Sized(recs) && RecordBytes(recs) == ix
    ensures |ix| / Diskiheadersize == |recs|
  {
    assert Diskiheadersize == 15;
    assert |ix| == |recs| * Diskiheadersize + 0;
    DivMulAdd(|recs|, 0, Diskiheadersize);
  }

  /** What a successful recovery leaves: the index log is the old one
      followed by the records of the blocks after the last indexed one,
      `recs` spell it, and every chain holds what replaying `recs`
      inserts. */
  ghost predicate Recovered(rd: BlockReader, dfsize: nat, ix0: seq<byte>, ix: seq<byte>, sha1: seq<byte> -> seq<byte>,
                            g: Geometry, recs: seq<IHeader>, mem: MemIndex)
    reads mem, mem.Arrays()
  {
    RecoveredLog(rd, dfsize, ix0, ix, sha1, recs) && MemOf(g, recs, ix, mem)
  }

  /** `mem` is the in-memory index of geometry `g` that replaying the
      records `recs` of the index log `ix` builds. */
  ghost predicate MemOf(g: Geometry, recs: seq<IHeader>, ix: seq<byte>, mem: MemIndex)
    reads mem, mem.Arrays()
  {
    g.Valid() && Sized(recs) && mem.Valid() && mem.g == g &&
    mem.initheadlen == (|ix| / Diskiheadersize) / Pow2(g.headscorewidth) &&
    forall h :: 0 <= h < |mem.heads| ==> mem.EntriesOf(h) == Replayed(g, recs, h)
  }

  /** The scan init makes of the data log (`dfsize` bytes read by `rd`)
      after the last record of the index log `ix0`. */
  ghost function Added(rd: BlockReader, dfsize: nat, ix0: seq<byte>, sha1: seq<byte> -> seq<byte>): Scan
    requires |ix0| % Diskiheadersize == 0 && CheckLast(rd, dfsize, ix0, sha1).Ok?
  {
    Tail(rd, dfsize, CheckLast(rd, dfsize, ix0, sha1).value, sha1)
  }

  /** The index log went from `ix0` to `ix` by gaining the records of the
      blocks after the last indexed one, and `recs` spell it. */
  ghost predicate RecoveredLog(rd: BlockReader, dfsize: nat, ix0: seq<byte>, ix: seq<byte>, sha1: seq<byte> -> seq<byte>, recs: seq<IHeader>)
  {
    |ix0| % Diskiheadersize == 0 && CheckLast(rd, dfsize, ix0, sha1).Ok? &&
    AddedLog(Added(rd, dfsize, ix0, sha1), ix0, ix, recs)
  }

  /** The index log went from `ix0` to `ix` by gaining the records of the
      whole scan `s`, and `recs` spell it. */
  ghost predicate AddedLog(s: Scan, ix0: seq<byte>, ix: seq<byte>, recs: seq<IHeader>)
  {
    Sized(s.recs) && s.err.None? && ix == ix0 + RecordBytes(s.recs) &&
    Sized(recs) && AllValid(recs) && RecordBytes(recs) == ix
  }

  /** Block `ih` indexes is found by lookup in the index `recs` replay: it
      verifies, and the chain of its score holds its type, its key and its
      offset, once the offset is below the end marker. */
  ghost predicate Findable(g: Geometry, rd: BlockReader, recs: seq<IHeader>, ih: IHeader, sha1: seq<byte> -> seq<byte>)
  {
    g.Valid() && Sized(recs) && rd(ih.offset).Ok? &&
    var (dh, data) := rd(ih.offset).value;
    |dh.score| == Scoresize && sha1(data) == dh.score &&
    (ih.offset < g.EndAddr() ==> Entry(dh.blockType, Key(g, dh.score), ih.offset) in Replayed(g, recs, Bucket(g, dh.score)))
  }

  /** After recovery every block init added to the index log can be looked
      up under its own score, provided the data log's offsets fit the 48
      bits of an index record. */
  lemma RecoveredFinds(g: Geometry, rd: BlockReader, dfsize: nat, ix0: seq<byte>, ix: seq<byte>, sha1: seq<byte> -> seq<byte>, recs: seq<IHeader>)
    requires g.Valid() && RecoveredLog(rd, dfsize, ix0, ix, sha1, recs) && dfsize <= 0x1_0000_0000_0000
    ensures var s := Added(rd, dfsize, ix0, sha1);
            forall i :: 0 <= i < |s.recs| ==> Findable(g, rd, recs, s.recs[i], sha1)
  {
    var s := Added(rd, dfsize, ix0, sha1);
    var start := CheckLast(rd, dfsize, ix0, sha1).value;
    var k := WholeRecords(|ix0|);
    TailValid(rd, dfsize, start, sha1);
    AddedRecords(recs, ix0, k, s.recs);
    forall i | 0 <= i < |s.recs|
      ensures Findable(g, rd, recs, s.recs[i], sha1)
    {
      AddedFindable(g, rd, dfsize, recs, k, s, sha1, start, i);
    }
  }

  lemma AddedFindable(g: Geometry, rd: BlockReader, dfsize: nat, recs: seq<IHeader>, k: nat, s: Scan, sha1: seq<byte> -> seq<byte>, start: nat, i: nat)
    requires g.Valid() && Sized(recs) && s == Tail(rd, dfsize, start, sha1)
    requires k <= |recs| && recs[k..] == s.recs && i < |s.recs|
    ensures Findable(g, rd, recs, s.recs[i], sha1)
  {
    var ih := s.recs[i];
    TailIndexes(rd, dfsize, start, sha1, i);
    var (dh, data) := rd(ih.offset).value;
    ToIHeaderIndexes(g, dh, ih.offset);
    assert recs[k + i] == ih;
    if ih.offset < g.EndAddr() {
      ReplayedHolds(g, recs, k + i);
    }
  }

  /** With the data log within 48 bits of offset, every record of a scan is
      a valid index record. */
  lemma TailValid(rd: BlockReader, end: nat, d: nat, sha1: seq<byte> -> seq<byte>)
    requires end <= 0x1_0000_0000_0000
    ensures AllValid(Tail(rd, end, d, sha1).recs)
  {
    forall i | 0 <= i < |Tail(rd, end, d, sha1).recs|
      ensures ValidIHeader(Tail(rd, end, d, sha1).recs[i])
    {
      TailIndexes(rd, end, d, sha1, i);
    }
  }
}
