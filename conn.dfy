/** connproc and disklookup of memventi.c: one connection's handshake, its
    request loop, and the decisions each request meets (the zero-score
    read, the empty write, the closing and degraded gates, dedup and the
    "data file is full" refusal), over the data log of Log and the
    in-memory index of Chains.  Requests are served one at a time: the
    locks that make this so in the source are left out. */
module Conn {
  import opened Arith
  import opened Fns
  import opened Dat
  import opened Wrappers
  import opened Pack
  import opened Index
  import opened Chains
  import opened Log
  import opened Proto
  import Util
  import Recover
  import Seqs

  /** The server-wide state: writes are refused once degraded, requests
      once closing. */
  datatype ServerState = Srunning | Sdegraded | Sclosing

  /** The score of the empty block, SHA-1 of no bytes. */
  const Zeroscore: seq<byte> := [0xda, 0x39, 0xa3, 0xee, 0x5e, 0x6b, 0x4b, 0x0d, 0x32, 0x55,
                                0xbf, 0xef, 0x95, 0x60, 0x18, 0x90, 0xaf, 0xd8, 0x07, 0x09]

  // ---------------------------------------------------------------------
  // disklookup

  /** Why a candidate address was passed over, as disklookup's `errmsg`
      names it. */
  datatype LookupError =
    | HeaderUnreadable        // "error reading header"
    | HeaderShortRead         // "short read for header"
    | HeaderBad(e: DHeaderError)
    | DataUnreadable          // "disklookup: error reading data"
    | DataShortRead           // "disklookup: short read for data"
    | ScoreInvalid            // "score on disk invalid"

  /** preadn of `count` bytes at `o` of the data file into a buffer
      holding `b`: the count read and the buffer, the bytes read at its
      start. */
  function Fetch(f: seq<byte>, b: seq<byte>, count: nat, o: nat): (r: (nat, seq<byte>))
    requires count <= |b|
    ensures r.0 <= count && |r.1| == |b|
    ensures r.0 > 0 ==> o + r.0 <= |f| && r.1[..r.0] == f[o..o + r.0]
    ensures r.0 < count ==> r.0 == (if o >= |f| then 0 else |f| - o)
    ensures r.1[r.0..] == b[r.0..]
  {
    var got := PreadFile(f, count, o);
    (|got|, got + b[|got|..])
  }

  /** What one candidate address comes to: passed over, the block, or a
      block whose data does not hash to its score (which ends the search). */
  datatype Step = Skip | Hit(dh: DHeader) | Corrupt

  datatype Probe = Probe(step: Step, err: Option<LookupError>, buf: seq<byte>)

  /** The bytes disklookup asks for first: the header, and 8 KiB of data
      as well when the data is wanted. */
  function Want(readdata: bool): nat
  {
    Diskdheadersize + (if readdata then 8 * 1024 else 0)
  }

  /** One turn of disklookup's loop, at address `o`, with `err` the
      message so far and `b` the buffer. */
  function ProbeAt(f: seq<byte>, b: seq<byte>, o: nat, score: seq<byte>, t: byte, readdata: bool,
                   sha1: seq<byte> -> seq<byte>, err: Option<LookupError>): (p: Probe)
    requires |b| == Datamax + 8 && |score| == Scoresize
    ensures |p.buf| == |b|
    ensures p.step.Hit? ==>
              o + Diskdheadersize <= |f| && ValidDHeader(p.step.dh) && p.step.dh.size <= Datamax &&
              f[o..o + Diskdheadersize] == DHeaderBytes(p.step.dh) &&
              p.step.dh.score == score && p.step.dh.blockType == t &&
              (readdata ==> sha1(p.buf[..p.step.dh.size]) == score)
    ensures p.step.Corrupt? ==> readdata && p.err == Some(ScoreInvalid)
  {
    var r := Fetch(f, b, Want(readdata), o);
    ProbeHeader(f, r.0, r.1, o, score, t, readdata, sha1, err)
  }

  /** The turn once `n` bytes at `o` are at the start of the buffer `b1`:
      a failed or short read, a header that does not unpack, and a header
      of another score or type pass the address over. */
  function ProbeHeader(f: seq<byte>, n: nat, b1: seq<byte>, o: nat, score: seq<byte>, t: byte, readdata: bool,
                       sha1: seq<byte> -> seq<byte>, err: Option<LookupError>): (p: Probe)
    requires |b1| == Datamax + 8 && |score| == Scoresize && n <= Want(readdata)
    requires n > 0 ==> o + n <= |f| && b1[..n] == f[o..o + n]
    ensures |p.buf| == |b1|
    ensures p.step.Hit? ==>
              o + Diskdheadersize <= |f| && ValidDHeader(p.step.dh) && p.step.dh.size <= Datamax &&
              f[o..o + Diskdheadersize] == DHeaderBytes(p.step.dh) &&
              p.step.dh.score == score && p.step.dh.blockType == t &&
              (readdata ==> sha1(p.buf[..p.step.dh.size]) == score)
    ensures p.step.Corrupt? ==> readdata && p.err == Some(ScoreInvalid)
  {
    if n <= 0 then Probe(Skip, Some(HeaderUnreadable), b1)
    else if n < Diskdheadersize then Probe(Skip, Some(HeaderShortRead), b1)
    else
      HeaderRead(f, n, b1, o);
      match UnpackDHeader(b1[..Diskdheadersize])
      case Err(e) => Probe(Skip, Some(HeaderBad(e)), b1)
      case Ok(dh) =>
        if score != dh.score || dh.blockType != t then Probe(Skip, err, b1)
        else if !readdata then Probe(Hit(dh), err, b1)
        else ProbeData(f, n, b1, o, dh, score, sha1, err)
  }

  /** The turn once the header of the block is known to be the one
      looked for and its data is wanted: the data read must hash to the
      score. */
  function ProbeData(f: seq<byte>, n: nat, b1: seq<byte>, o: nat, dh: DHeader, score: seq<byte>,
                     sha1: seq<byte> -> seq<byte>, err: Option<LookupError>): (p: Probe)
    requires |b1| == Datamax + 8 && Diskdheadersize <= n <= Want(true) && dh.size <= Datamax
    requires o + n <= |f| && b1[..n] == f[o..o + n]
    ensures |p.buf| == |b1| && !p.step.Skip?
    ensures p.step.Hit? ==> p.step.dh == dh && sha1(p.buf[..dh.size]) == score
    ensures p.step.Corrupt? ==> p.err == Some(ScoreInvalid)
  {
    var d := ReadData(f, n, b1, o, dh.size, err);
    if sha1(d.1[..dh.size]) != score then Probe(Corrupt, Some(ScoreInvalid), d.1)
    else Probe(Hit(dh), d.0, d.1)
  }

  lemma HeaderRead(f: seq<byte>, n: nat, b1: seq<byte>, o: nat)
    requires Diskdheadersize <= n <= |b1| && o + n <= |f| && b1[..n] == f[o..o + n]
    ensures o + Diskdheadersize <= |f| && b1[..Diskdheadersize] == f[o..o + Diskdheadersize]
  {
    assert b1[..Diskdheadersize] == b1[..n][..Diskdheadersize];
  }

  /** The data of a block of `size` bytes whose header and first `n - 27`
      data bytes are in `b1`: moved down to the start of the buffer when
      the first read covered it, read again there otherwise.  A failed
      second read sets the message (the second message replacing the
      first) and leaves the rest to the hash of the buffer. */
  function ReadData(f: seq<byte>, n: nat, b1: seq<byte>, o: nat, size: nat, err: Option<LookupError>)
    : (r: (Option<LookupError>, seq<byte>))
    requires |b1| == Datamax + 8 && Diskdheadersize <= n <= Want(true) && size <= Datamax
    requires o + n <= |f| && b1[..n] == f[o..o + n]
    ensures |r.1| == |b1|
    ensures o + Diskdheadersize + size <= |f| ==> r.1[..size] == f[o + Diskdheadersize..o + Diskdheadersize + size]
  {
    if size > n - Diskdheadersize then
      var (m, b2) := Fetch(f, b1, size, o + Diskdheadersize);
      assert o + Diskdheadersize + size <= |f| ==> m == size;
      var err1 := if m <= 0 then Some(DataUnreadable) else err;
      (if m != size then Some(DataShortRead) else err1, b2)
    else
      var b2 := b1[Diskdheadersize..Diskdheadersize + size] + b1[size..];
      assert b2[..size] == b1[Diskdheadersize..Diskdheadersize + size];
      Seqs.SubSlice(b1, 0, n, Diskdheadersize, size, Diskdheadersize);
      Seqs.SubSlice(f, o, n, Diskdheadersize, size, o + Diskdheadersize);
      (err, b2)
  }

  /** What disklookup returns: the offset and header of the block found
      (`~0` stands for none), the message, and the buffer. */
  datatype Outcome = Outcome(found: Option<(nat, DHeader)>, err: Option<LookupError>, buf: seq<byte>)

  /** A block disklookup may return for `score` and `t`: one of the
      candidates, whose packed header on the data file is `dh` with that
      score and type. */
  predicate Confirmed(f: seq<byte>, addrs: seq<nat>, o: nat, dh: DHeader, score: seq<byte>, t: byte)
  {
    o in addrs && o + Diskdheadersize <= |f| && ValidDHeader(dh) && dh.size <= Datamax &&
    f[o..o + Diskdheadersize] == DHeaderBytes(dh) && dh.score == score && dh.blockType == t
  }

  /** disklookup's loop from candidate `i` on. */
  function Search(f: seq<byte>, b: seq<byte>, addrs: seq<nat>, i: nat, score: seq<byte>, t: byte, readdata: bool,
                  sha1: seq<byte> -> seq<byte>, err: Option<LookupError>): (r: Outcome)
    requires i <= |addrs| && |b| == Datamax + 8 && |score| == Scoresize
    ensures |r.buf| == |b|
    ensures r.found.Some? ==>
              var (o, dh) := r.found.value;
              Confirmed(f, addrs, o, dh, score, t) && (readdata ==> sha1(r.buf[..dh.size]) == score)
    decreases |addrs| - i
  {
    if i == |addrs| then Outcome(None, err, b)
    else
      var p := ProbeAt(f, b, addrs[i], score, t, readdata, sha1, err);
      match p.step
      case Skip => Search(f, p.buf, addrs, i + 1, score, t, readdata, sha1, p.err)
      case Corrupt => Outcome(None, p.err, p.buf)
      case Hit(dh) => Outcome(Some((addrs[i], dh)), p.err, p.buf)
  }

  /** What disklookup promises of what it returns: a buffer of the
      size it was given, and a block found is a confirmed candidate whose
      data, when wanted, is in the buffer with the score looked for. */
  predicate Answered(f: seq<byte>, addrs: seq<nat>, score: seq<byte>, t: byte, readdata: bool,
                     sha1: seq<byte> -> seq<byte>, r: Outcome)
  {
    |r.buf| == Datamax + 8 &&
    (r.found.Some? ==>
       Confirmed(f, addrs, r.found.value.0, r.found.value.1, score, t) &&
       (readdata ==> sha1(r.buf[..r.found.value.1.size]) == score))
  }

  lemma SearchAnswered(f: seq<byte>, b: seq<byte>, addrs: seq<nat>, score: seq<byte>, t: byte, readdata: bool,
                       sha1: seq<byte> -> seq<byte>)
    requires |b| == Datamax + 8 && |score| == Scoresize
    ensures Answered(f, addrs, score, t, readdata, sha1, Search(f, b, addrs, 0, score, t, readdata, sha1, None))
  {
  }

  /** One turn of the search, as the loop of disklookup takes it. */
  lemma SearchStep(f: seq<byte>, b: seq<byte>, addrs: seq<nat>, i: nat, score: seq<byte>, t: byte, readdata: bool,
                   sha1: seq<byte> -> seq<byte>, err: Option<LookupError>, p: Probe)
    requires i < |addrs| && |b| == Datamax + 8 && |score| == Scoresize
    requires p == ProbeAt(f, b, addrs[i], score, t, readdata, sha1, err)
    ensures var r := Search(f, b, addrs, i, score, t, readdata, sha1, err);
            (p.step.Skip? ==> r == Search(f, p.buf, addrs, i + 1, score, t, readdata, sha1, p.err)) &&
            (p.step.Corrupt? ==> r == Outcome(None, p.err, p.buf)) &&
            (p.step.Hit? ==> r == Outcome(Some((addrs[i], p.step.dh)), p.err, p.buf))
  {
  }

  /** The data file holds at `o` a header with score `score` and type `t`. */
  predicate HeaderMatches(f: seq<byte>, o: nat, score: seq<byte>, t: byte)
  {
    o + Diskdheadersize <= |f| &&
    var h := UnpackDHeader(f[o..o + Diskdheadersize]);
    h.Ok? && h.value.score == score && h.value.blockType == t
  }

  /** The data file holds at `o` a readable header of another score or type. */
  predicate HeaderDiffers(f: seq<byte>, o: nat, score: seq<byte>, t: byte)
  {
    o + Diskdheadersize <= |f| &&
    var h := UnpackDHeader(f[o..o + Diskdheadersize]);
    h.Ok? && (h.value.score != score || h.value.blockType != t)
  }

  /** The data file holds at `o` the block of `score` and `t`: its header,
      and, when the data is wanted, all of its data, hashing to `score`. */
  predicate Holds(f: seq<byte>, o: nat, score: seq<byte>, t: byte, readdata: bool, sha1: seq<byte> -> seq<byte>)
  {
    HeaderMatches(f, o, score, t) &&
    (readdata ==> DataHashes(f, o, UnpackDHeader(f[o..o + Diskdheadersize]).value.size, score, sha1))
  }

  /** The `size` data bytes after the header at `o` are in the file and
      hash to `score`. */
  predicate DataHashes(f: seq<byte>, o: nat, size: nat, score: seq<byte>, sha1: seq<byte> -> seq<byte>)
  {
    o + Diskdheadersize + size <= |f| && sha1(f[o + Diskdheadersize..o + Diskdheadersize + size]) == score
  }

  /** The header `dh` is the one at `o` of the data file, and when the
      data is wanted, the buffer starts with the block's data. */
  predicate Loaded(f: seq<byte>, o: nat, readdata: bool, dh: DHeader, buf: seq<byte>)
  {
    o + Diskdheadersize <= |f| && UnpackDHeader(f[o..o + Diskdheadersize]) == Ok(dh) &&
    (readdata ==> o + Diskdheadersize + dh.size <= |f| && dh.size <= |buf| &&
                  buf[..dh.size] == f[o + Diskdheadersize..o + Diskdheadersize + dh.size])
  }

  /** A candidate whose header does not match is passed over. */
  lemma ProbeMisses(f: seq<byte>, b: seq<byte>, o: nat, score: seq<byte>, t: byte, readdata: bool,
                    sha1: seq<byte> -> seq<byte>, err: Option<LookupError>)
    requires |b| == Datamax + 8 && |score| == Scoresize && !HeaderMatches(f, o, score, t)
    ensures ProbeAt(f, b, o, score, t, readdata, sha1, err).step.Skip?
  {
    var r := Fetch(f, b, Want(readdata), o);
    HeaderMisses(f, r.0, r.1, o, score, t, readdata, sha1, err);
  }

  lemma HeaderMisses(f: seq<byte>, n: nat, b1: seq<byte>, o: nat, score: seq<byte>, t: byte, readdata: bool,
                     sha1: seq<byte> -> seq<byte>, err: Option<LookupError>)
    requires |b1| == Datamax + 8 && |score| == Scoresize && n <= Want(readdata)
    requires n > 0 ==> o + n <= |f| && b1[..n] == f[o..o + n]
    requires !HeaderMatches(f, o, score, t)
    ensures ProbeHeader(f, n, b1, o, score, t, readdata, sha1, err).step.Skip?
  {
    if n >= Diskdheadersize {
      HeaderRead(f, n, b1, o);
    }
  }

  /** A candidate holding the block is returned, with its data in the
      buffer when the data is wanted. */
  lemma ProbeHolds(f: seq<byte>, b: seq<byte>, o: nat, score: seq<byte>, t: byte, readdata: bool,
                   sha1: seq<byte> -> seq<byte>, err: Option<LookupError>)
    requires |b| == Datamax + 8 && |score| == Scoresize && Holds(f, o, score, t, readdata, sha1)
    ensures var p := ProbeAt(f, b, o, score, t, readdata, sha1, err);
            p.step.Hit? && Loaded(f, o, readdata, p.step.dh, p.buf)
  {
    var r := Fetch(f, b, Want(readdata), o);
    assert r.0 >= Diskdheadersize;
    HeaderHolds(f, r.0, r.1, o, score, t, readdata, sha1, err, UnpackDHeader(f[o..o + Diskdheadersize]).value);
  }

  /** ProbeHolds once the first read is done and the header is known. */
  lemma HeaderHolds(f: seq<byte>, n: nat, b1: seq<byte>, o: nat, score: seq<byte>, t: byte, readdata: bool,
                    sha1: seq<byte> -> seq<byte>, err: Option<LookupError>, dh: DHeader)
    requires |b1| == Datamax + 8 && |score| == Scoresize && Diskdheadersize <= n <= Want(readdata)
    requires o + n <= |f| && b1[..n] == f[o..o + n] && Holds(f, o, score, t, readdata, sha1)
    requires UnpackDHeader(f[o..o + Diskdheadersize]) == Ok(dh)
    ensures var p := ProbeHeader(f, n, b1, o, score, t, readdata, sha1, err);
            p.step.Hit? && Loaded(f, o, readdata, p.step.dh, p.buf)
  {
    HeaderRead(f, n, b1, o);
    assert UnpackDHeader(b1[..Diskdheadersize]) == Ok(dh);
    if readdata {
      DataHolds(f, n, b1, o, dh, score, sha1, err);
    }
  }

  lemma DataHolds(f: seq<byte>, n: nat, b1: seq<byte>, o: nat, dh: DHeader, score: seq<byte>,
                  sha1: seq<byte> -> seq<byte>, err: Option<LookupError>)
    requires |b1| == Datamax + 8 && Diskdheadersize <= n <= Want(true) && dh.size <= Datamax
    requires o + n <= |f| && b1[..n] == f[o..o + n]
    requires DataHashes(f, o, dh.size, score, sha1)
    ensures var p := ProbeData(f, n, b1, o, dh, score, sha1, err);
            p.step.Hit? && p.buf[..dh.size] == f[o + Diskdheadersize..o + Diskdheadersize + dh.size]
  {
  }

  /** No candidate from the `i`th to before the `j`th holds a header of
      `score` and `t`. */
  predicate NoneMatch(f: seq<byte>, addrs: seq<nat>, i: nat, j: nat, score: seq<byte>, t: byte)
    requires i <= j <= |addrs|
    decreases j - i
  {
    i == j || (!HeaderMatches(f, addrs[i], score, t) && NoneMatch(f, addrs, i + 1, j, score, t))
  }

  /** Every candidate before the `j`th has a header of another score or
      type, or none; the `j`th holds the block: disklookup returns the
      `j`th. */
  lemma {:induction false} SearchFinds(f: seq<byte>, b: seq<byte>, addrs: seq<nat>, i: nat, j: nat,
                                       score: seq<byte>, t: byte, readdata: bool,
                                       sha1: seq<byte> -> seq<byte>, err: Option<LookupError>)
    requires i <= j < |addrs| && |b| == Datamax + 8 && |score| == Scoresize
    requires NoneMatch(f, addrs, i, j, score, t) && Holds(f, addrs[j], score, t, readdata, sha1)
    ensures var r := Search(f, b, addrs, i, score, t, readdata, sha1, err);
            r.found.Some? && r.found.value.0 == addrs[j] && Loaded(f, addrs[j], readdata, r.found.value.1, r.buf)
    decreases j - i
  {
    var p := ProbeAt(f, b, addrs[i], score, t, readdata, sha1, err);
    if i < j {
      ProbeMisses(f, b, addrs[i], score, t, readdata, sha1, err);
      SearchFinds(f, p.buf, addrs, i + 1, j, score, t, readdata, sha1, p.err);
    } else {
      ProbeHolds(f, b, addrs[i], score, t, readdata, sha1, err);
    }
  }

  /** Once a message is set, disklookup ends with one unless it finds a block. */
  lemma {:induction false} SearchKeepsError(f: seq<byte>, b: seq<byte>, addrs: seq<nat>, i: nat,
                                            score: seq<byte>, t: byte, readdata: bool,
                                            sha1: seq<byte> -> seq<byte>, err: Option<LookupError>)
    requires i <= |addrs| && |b| == Datamax + 8 && |score| == Scoresize && err.Some?
    ensures var r := Search(f, b, addrs, i, score, t, readdata, sha1, err);
            r.found.Some? || r.err.Some?
    decreases |addrs| - i
  {
    if i < |addrs| {
      var p := ProbeAt(f, b, addrs[i], score, t, readdata, sha1, err);
      if p.step.Skip? {
        SearchKeepsError(f, p.buf, addrs, i + 1, score, t, readdata, sha1, p.err);
      }
    }
  }

  /** disklookup finds nothing and sets no message exactly when every
      candidate holds a readable header of another score or type: the
      case in which a write may go ahead without the dedup check having
      failed. */
  lemma {:induction false} SearchClean(f: seq<byte>, b: seq<byte>, addrs: seq<nat>, i: nat,
                                       score: seq<byte>, t: byte, readdata: bool, sha1: seq<byte> -> seq<byte>)
    requires i <= |addrs| && |b| == Datamax + 8 && |score| == Scoresize
    ensures var r := Search(f, b, addrs, i, score, t, readdata, sha1, None);
            r.found.None? && r.err.None? <==> AllDiffer(f, addrs, i, score, t)
    decreases |addrs| - i
  {
    if i < |addrs| {
      var p := ProbeAt(f, b, addrs[i], score, t, readdata, sha1, None);
      ProbeClean(f, b, addrs[i], score, t, readdata, sha1);
      if p.step.Skip? {
        if p.err.Some? {
          SearchKeepsError(f, p.buf, addrs, i + 1, score, t, readdata, sha1, p.err);
        } else {
          SearchClean(f, p.buf, addrs, i + 1, score, t, readdata, sha1);
        }
      }
    }
  }

  /** Every candidate from the `i`th on holds a readable header of another
      score or type. */
  predicate AllDiffer(f: seq<byte>, addrs: seq<nat>, i: nat, score: seq<byte>, t: byte)
    requires i <= |addrs|
    decreases |addrs| - i
  {
    i == |addrs| || (HeaderDiffers(f, addrs[i], score, t) && AllDiffer(f, addrs, i + 1, score, t))
  }

  /** A candidate is passed over without a message exactly when its
      header is readable and of another score or type. */
  lemma ProbeClean(f: seq<byte>, b: seq<byte>, o: nat, score: seq<byte>, t: byte, readdata: bool,
                   sha1: seq<byte> -> seq<byte>)
    requires |b| == Datamax + 8 && |score| == Scoresize
    ensures var p := ProbeAt(f, b, o, score, t, readdata, sha1, None);
            p.step.Skip? && p.err.None? <==> HeaderDiffers(f, o, score, t)
  {
    var r := Fetch(f, b, Want(readdata), o);
    HeaderClean(f, r.0, r.1, o, score, t, readdata, sha1);
  }

  lemma HeaderClean(f: seq<byte>, n: nat, b1: seq<byte>, o: nat, score: seq<byte>, t: byte, readdata: bool,
                    sha1: seq<byte> -> seq<byte>)
    requires |b1| == Datamax + 8 && |score| == Scoresize && n <= Want(readdata)
    requires n > 0 ==> o + n <= |f| && b1[..n] == f[o..o + n]
    requires n < Want(readdata) ==> n == (if o >= |f| then 0 else |f| - o)
    ensures var p := ProbeHeader(f, n, b1, o, score, t, readdata, sha1, None);
            p.step.Skip? && p.err.None? <==> HeaderDiffers(f, o, score, t)
  {
    if n >= Diskdheadersize {
      HeaderRead(f, n, b1, o);
    }
  }

  /** The number of cells of diskhisto as declared: one per candidate
      count below Addressesmax. */
  const DiskhistoCellsAsWritten: nat := Addressesmax

  /** With one cell per possible candidate count, 0 to Addressesmax. */
  const DiskhistoCells: nat := Addressesmax + 1

  /** A chain whose entries all have type `t` and key `key` matches all of
      them. */
  lemma {:induction false} MatchingAll(es: seq<Entry>, t: byte, key: nat)
    requires forall k :: 0 <= k < |es| ==> es[k].blockType == t && es[k].key == key
    ensures |Matching(es, t, key)| == |es|
  {
    if es != [] {
      MatchingAll(es[..|es| - 1], t, key);
    }
  }

  /** lookup answers 16 for a chain of sixteen entries of one type and
      key, and disklookup then counts `diskhisto[16]`, one past the last
      of the Addressesmax cells declared. */
  lemma DiskhistoOverrun()
    ensures var es := seq(16, (k: int) requires 0 <= k => Entry(0, 0, k));
            |Matching(es, 0, 0)| == Addressesmax && !(Addressesmax < DiskhistoCellsAsWritten)
            && Addressesmax < DiskhistoCells
  {
    var es := seq(16, (k: int) requires 0 <= k => Entry(0, 0, k));
    MatchingAll(es, 0, 0);
  }

  // ---------------------------------------------------------------------
  // connproc's decisions

  const NoSuchScore := Latin1("no such score/type")
  const TooManyMatches := Latin1("internal error (too many partial matches)")
  const RetrieveFailed := Latin1("error retrieving data")
  const TooLarge := Latin1("data larger than requested")
  const OutOfMemory := Latin1("out of memory")
  const NoWriteAccess := Latin1("no write access")
  const CannotWrite := Latin1("cannot write")
  const NotConfirmed := Latin1("internal error (could not confirm score presence)")
  const DataFileFull := Latin1("data file is full")
  const BlockNotWritten := Latin1("error writing block")
  const ShuttingDown := Latin1("venti shutting down")

  /** SHA-1 as connproc relies on it: 20-byte scores, and the score of
      no bytes is Zeroscore. */
  ghost predicate Sha1(sha1: seq<byte> -> seq<byte>)
  {
    Hash(sha1) && sha1([]) == Zeroscore
  }

  /** A request as readvmsg leaves it: an op it knows, a read with a whole
      score and a 16-bit count, a write whose payload is its data, of at
      most Datamax+1 bytes. */
  predicate Arrived(m: Vmsg)
  {
    m.op in {Thello, Tread, Twrite, Tping, Tsync, Tgoodbye} &&
    (m.op == Tread ==> |m.score| == Scoresize && m.count < 0x1_0000) &&
    (m.op == Twrite ==> m.dsize == |m.data| <= Datamax + 1)
  }

  /** What readvmsg accepts and fills in has arrived. */
  lemma ReadArrives(body: seq<byte>, allocOk: bool, m: Vmsg, r: Vmsg)
    requires 2 <= |body| < 8 + Datamax && Accepts(body, allocOk) && Fills(body, m, r)
    ensures Arrived(r)
  {
    AcceptsKnownOps(body, allocOk);
    Pow2Values();
  }

  /** The reply connproc prepares for a request: the op after the
      request's and the request's tag; every other field as last sent. */
  function Prepared(prev: Vmsg, req: Vmsg): (out: Vmsg)
    requires Arrived(req)
    ensures out.op == req.op + 1 && out.tag == req.tag
  {
    prev.(op := req.op + 1, tag := req.tag)
  }

  /** An Rerror with message `msg`. */
  function Error(out: Vmsg, msg: seq<byte>): (e: Vmsg)
    ensures e.op == Rerror && e.msg == msg && e.tag == out.tag
  {
    out.(op := Rerror, msg := msg)
  }

  /** A reply that is a valid answer to the request: its tag, the op after
      the request's or an error, for a read data no larger than asked for
      whose score is the one asked for, for a write the score of the data. */
  ghost predicate Answers(req: Vmsg, out: Vmsg, sha1: seq<byte> -> seq<byte>)
  {
    out.tag == req.tag && (out.op as int == req.op as int + 1 || out.op == Rerror) &&
    (out.op == Rread ==> out.dsize <= req.count && out.dsize <= |out.data| && sha1(out.data[..out.dsize]) == req.score) &&
    (out.op == Rwrite ==> out.score == sha1(req.data))
  }

  /** Where a request goes: the connection ends; a reply is sent; a reply
      is sent and the connection ends; or on to the index lookup of a read
      or the store of a write, with the reply prepared so far. */
  datatype Gate = Close | Reply(out: Vmsg) | LastReply(out: Vmsg) | Lookup(out: Vmsg) | Store(out: Vmsg)

  /** The switch on the request's op, once the server is not closing. */
  function Dispatch(st: ServerState, allowwrite: bool, req: Vmsg, out: Vmsg): Gate
    requires Arrived(req)
  {
    if req.op == Thello then Close
    else if req.op == Tread then
      if req.score == Zeroscore then Reply(out.(data := [], dsize := 0)) else Lookup(out)
    else if req.op == Twrite then
      if !allowwrite then Reply(Error(out, NoWriteAccess))
      else if st == Sdegraded then Reply(Error(out, CannotWrite))
      else if req.dsize == 0 then Reply(out.(score := Zeroscore))
      else Store(out)
    else if req.op == Tsync then Reply(out)
    else Close  // Tgoodbye, and the "invalid op" default, which Tping reaches
  }

  /** connproc's gates as written: when closing, the error reply keeps the
      tag of the last reply sent, and a ping ends the connection. */
  function DecideAsWritten(st: ServerState, allowwrite: bool, req: Vmsg, prev: Vmsg): (gate: Gate)
    requires Arrived(req)
    ensures gate.Close? <==> req.op == Tgoodbye || (st != Sclosing && (req.op == Thello || req.op == Tping))
    ensures gate.LastReply? <==> st == Sclosing && req.op != Tgoodbye
    ensures gate.LastReply? ==> gate.out.tag == prev.tag && gate.out.op == Rerror && gate.out.msg == ShuttingDown
    ensures (gate.Reply? || gate.Lookup? || gate.Store?) ==> gate.out.tag == req.tag
    ensures gate.Lookup? <==> st != Sclosing && req.op == Tread && req.score != Zeroscore
    ensures gate.Store? <==> st == Srunning && allowwrite && req.op == Twrite && req.dsize > 0
  {
    if st == Sclosing then
      if req.op == Tgoodbye then Close else LastReply(Error(prev, ShuttingDown))
    else Dispatch(st, allowwrite, req, Prepared(prev, req))
  }

  /** A write larger than a block can be. */
  predicate Oversized(req: Vmsg)
  {
    req.op == Twrite && req.dsize > Datamax
  }

  /** connproc's gates: an oversized write ends the connection, the
      closing error carries the request's tag, and a ping is answered. */
  function Decide(st: ServerState, allowwrite: bool, req: Vmsg, prev: Vmsg): (gate: Gate)
    requires Arrived(req)
    ensures gate.Close? <==> Oversized(req) || req.op == Tgoodbye || (st != Sclosing && req.op == Thello)
    ensures !gate.Close? ==> gate.out.tag == req.tag && (gate.out.op as int == req.op as int + 1 || gate.out.op == Rerror)
    ensures (gate.Reply? || gate.LastReply?) ==> Writable(gate.out)
    ensures gate.LastReply? <==> st == Sclosing && !gate.Close?
    ensures gate.LastReply? ==> gate.out.op == Rerror && gate.out.msg == ShuttingDown
    ensures gate.Lookup? <==> st != Sclosing && req.op == Tread && req.score != Zeroscore
    ensures gate.Lookup? ==> gate.out == Prepared(prev, req)
    ensures gate.Store? <==> st == Srunning && allowwrite && req.op == Twrite && 0 < req.dsize <= Datamax
    ensures gate.Store? ==> gate.out == Prepared(prev, req)
    ensures st != Sclosing && req.op == Tread && req.score == Zeroscore ==>
              gate.Reply? && gate.out.op == Rread && gate.out.dsize == 0
    ensures st == Srunning && allowwrite && req.op == Twrite && req.dsize == 0 ==>
              gate.Reply? && gate.out.op == Rwrite && gate.out.score == Zeroscore
    ensures st != Sclosing && req.op == Twrite && !Oversized(req) && (!allowwrite || st == Sdegraded) ==>
              gate.Reply? && gate.out.op == Rerror
  {
    if Oversized(req) then Close
    else if st == Sclosing then
      if req.op == Tgoodbye then Close else LastReply(Error(prev.(tag := req.tag), ShuttingDown))
    else if req.op == Tping then Reply(Prepared(prev, req))
    else Dispatch(st, allowwrite, req, Prepared(prev, req))
  }

  /** The corrected gates differ from the code as written only on an
      oversized write, a ping, and the tag of the shutting-down error. */
  lemma DecideAgrees(st: ServerState, allowwrite: bool, req: Vmsg, prev: Vmsg)
    requires Arrived(req) && !Oversized(req) && req.op != Tping
    requires st == Sclosing ==> prev.tag == req.tag
    ensures Decide(st, allowwrite, req, prev) == DecideAsWritten(st, allowwrite, req, prev)
  {
    if st == Sclosing && req.op != Tgoodbye {
      assert prev.(tag := req.tag) == prev;
    }
  }

  /** Every reply Decide sends without the index answers its request:
      the zero-score read returns no bytes, whose score is Zeroscore, and
      the empty write returns Zeroscore, the score of its no bytes. */
  lemma DecideAnswers(st: ServerState, allowwrite: bool, req: Vmsg, prev: Vmsg, sha1: seq<byte> -> seq<byte>)
    requires Arrived(req) && Sha1(sha1)
    ensures var gate := Decide(st, allowwrite, req, prev);
            (gate.Reply? || gate.LastReply?) ==> Answers(req, gate.out, sha1)
  {
    var gate := Decide(st, allowwrite, req, prev);
    if gate.Reply? && gate.out.op == Rread {
      assert gate.out.data[..0] == [];
    }
    if gate.Reply? && gate.out.op == Rwrite {
      assert req.data == [];
    }
  }

  /** As written, the shutting-down error goes out under the tag of the
      previous reply, not of the request it answers. */
  lemma ClosingTagStale()
    ensures var prev := Blank.(tag := 1);
            var req := Blank.(op := Tsync, tag := 2);
            DecideAsWritten(Sclosing, true, req, prev).LastReply? &&
            DecideAsWritten(Sclosing, true, req, prev).out.tag != req.tag &&
            Decide(Sclosing, true, req, prev).out.tag == req.tag
  {
  }

  /** As written, a ping, which readvmsg accepts, falls to the "invalid op"
      default and ends the connection; Decide answers it with Rping. */
  lemma PingClosesAsWritten(prev: Vmsg)
    ensures var req := Blank.(op := Tping, tag := 5);
            DecideAsWritten(Srunning, true, req, prev).Close? &&
            Decide(Srunning, true, req, prev) == Reply(prev.(op := Rping, tag := 5))
  {
  }

  /** A write of Datamax+1 bytes fits a frame readvmsg accepts, and as
      written connproc goes on to store it; Decide ends the connection. */
  lemma OversizedWriteAccepted(tag: byte, t: byte, data: seq<byte>, rest: seq<byte>, m: Vmsg, r: Vmsg)
    requires |data| == Datamax + 1
    ensures var body := [Twrite, tag, t, 0, 0, 0] + data;
            Framed(Frame(body) + rest) && Body(Frame(body) + rest) == body && Accepts(body, true) &&
            (Fills(body, m, r) ==> r.dsize == Datamax + 1 && Oversized(r) &&
                                   DecideAsWritten(Srunning, true, r, m).Store? && Decide(Srunning, true, r, m).Close?)
  {
    var body := [Twrite, tag, t, 0, 0, 0] + data;
    FrameBack(body, rest);
    if Fills(body, m, r) {
      assert body[6..] == data;
      ReadArrives(body, true, m, r);
    }
  }

  /** The header store would write for such a block never unpacks:
      unpackdheader refuses its size. */
  lemma OversizedHeaderUnreadable(score: seq<byte>, t: byte)
    requires |score| == Scoresize
    ensures UnpackDHeader(DHeaderBytes(DHeader(score, t, Datamax + 1))) == Err(SizeTooLarge(Datamax + 1))
  {
    var b := DHeaderBytes(DHeader(score, t, Datamax + 1));
    assert b[..4] == BEBytes(Headermagic, 4) && b[25..27] == BEBytes(Datamax + 1, 2);
    UnpackDHeaderAccepts(b);
    Pow2Values();
    BEExact(Headermagic, 4);
    BEExact(Datamax + 1, 2);
  }
}
