/** The server side of memventi.c: the state one server keeps across
    connections (its data and index files, the in-memory index, the
    running/degraded/closing state and disklookup's histogram) and
    connproc, which serves one connection over it. */
module Session {
  import opened Arith
  import opened Fns
  import opened Dat
  import opened Wrappers
  import opened Pack
  import opened Index
  import opened Chains
  import opened Log
  import opened Proto
  import opened Conn
  import Util
  import Recover

  /** What the environment answers while a request is served: whether
      the copy of the data of a read can be allocated, the three writes of
      store (each returns at most what it is asked for) and whether
      insert's allocation succeeds. */
  datatype Io = Io(readAlloc: bool, w1: int, w2: int, w3: int, insertAlloc: bool)
  {
    function Header(): (w: int)
      ensures w <= Diskdheadersize
    {
      Min(w1, Diskdheadersize)
    }

    function Data(size: nat): (w: int)
      ensures w <= size
    {
      Min(w2, size)
    }

    function Record(): (w: int)
      ensures w <= Diskiheadersize
    {
      Min(w3, Diskiheadersize)
    }

    /** The header and data writes of store are whole, so the block
        is in the data file and the end of the data file moves past it. */
    predicate BlockWhole(size: nat)
    {
      w1 >= Diskdheadersize && w2 >= size
    }

    /** Every write of store is whole. */
    predicate Whole(size: nat)
    {
      BlockWhole(size) && w3 >= Diskiheadersize
    }
  }

  /** What the environment answers on one connection: the write of the
      handshake, and per request `k` whether the signal thread has begun
      shutting down before it is read, whether readvmsg can allocate the
      payload, the `write` answers of writevmsg's writen, and the Io of
      the request. */
  datatype Env = Env(shake: int, closing: nat -> bool, allocs: nat -> bool, sends: nat -> ((nat, nat) -> int),
                     ios: nat -> Io)
  {
    ghost predicate Valid()
    {
      shake <= |Handshake| && forall k :: Util.WriteStep(sends(k))
    }
  }

  const Handshake := Latin1("venti-02-simple\n")
  const Version := Latin1("venti-02")

  /** fgets into a buffer of `room + 1` bytes: the length of the line it
      takes from the stream, up to and including the first newline and
      at most `room` bytes. */
  function LineLength(s: seq<byte>, room: nat): (k: nat)
    ensures k <= |s| && k <= room
    ensures forall i :: 0 <= i < k - 1 ==> s[i] != 10
    ensures k < |s| && k < room ==> k > 0 && s[k - 1] == 10
  {
    if s == [] || room == 0 then 0
    else if s[0] == 10 then 1
    else 1 + LineLength(s[1..], room - 1)
  }

  /** The client's handshake line names protocol version venti-02. */
  predicate Greets(line: seq<byte>)
  {
    |line| >= |Version| && line[..|Version|] == Version
  }

  /** A handshake line of fewer than 127 bytes without a newline, then a
      newline, is taken whole and the stream goes on after it. */
  lemma {:induction false} LineBack(v: seq<byte>, rest: seq<byte>, room: nat)
    requires |v| < room && forall i :: 0 <= i < |v| ==> v[i] != 10
    ensures LineLength(v + [10] + rest, room) == |v| + 1
    ensures (v + [10] + rest)[..|v| + 1] == v + [10]
  {
    if v != [] {
      LineBack(v[1..], rest, room - 1);
      assert (v + [10] + rest)[1..] == v[1..] + [10] + rest;
    }
  }

  /** A line that starts with venti-02 greets. */
  lemma GreetsBack(v: seq<byte>, rest: seq<byte>)
    requires Greets(v)
    ensures Greets(v + rest)
  {
    assert (v + rest)[..|Version|] == v[..|Version|];
  }

  /** A request and the reply that answered it, the frame of the reply
      being what had to reach the client. */
  ghost predicate Exchanged(req: Vmsg, out: Vmsg, sha1: seq<byte> -> seq<byte>)
  {
    Writable(out) && Answers(req, out, sha1)
  }

  /** The bytes of a sequence of frames, one after another. */
  function Concat(frames: seq<seq<byte>>): seq<byte>
  {
    if frames == [] then [] else Concat(frames[..|frames| - 1]) + frames[|frames| - 1]
  }

  /** `frames` are the frames of the replies, one for one. */
  predicate FramesOf(replies: seq<Vmsg>, frames: seq<seq<byte>>)
  {
    |frames| == |replies| && forall k :: 0 <= k < |replies| ==> Writable(replies[k]) && frames[k] == ReplyFrame(replies[k])
  }

  /** readvmsg takes op and tag from the first two bytes of the body. */
  lemma FillsHeader(body: seq<byte>, m: Vmsg, r: Vmsg)
    requires |body| >= 2 && Fills(body, m, r)
    ensures r.op == body[0] && r.tag == body[1] && r.msize == |body|
  {
  }

  /** A request connproc answers and goes on from is no goodbye, and a
      hello is answered only by the shutdown error. */
  predicate GoesOn(req: Vmsg, out: Vmsg)
  {
    req.op != Tgoodbye && (req.op == Thello ==> out.op == Rerror && out.msg == ShuttingDown)
  }

  /** The exchange log of connproc after the hello: every reply answers
      its request. */
  ghost predicate Logged(reqs: seq<Vmsg>, replies: seq<Vmsg>, sha1: seq<byte> -> seq<byte>)
    requires |replies| <= |reqs|
  {
    forall i :: 1 <= i < |replies| ==> Exchanged(reqs[i], replies[i], sha1) && GoesOn(reqs[i], replies[i])
  }

  lemma LoggedStep(reqs: seq<Vmsg>, replies: seq<Vmsg>, req: Vmsg, out: Vmsg, sha1: seq<byte> -> seq<byte>)
    requires |replies| == |reqs| >= 1 && Logged(reqs, replies, sha1)
    requires Exchanged(req, out, sha1) && GoesOn(req, out)
    ensures Logged(reqs + [req], replies + [out], sha1)
  {
  }

  lemma FramesOfStep(replies: seq<Vmsg>, frames: seq<seq<byte>>, out: Vmsg)
    requires FramesOf(replies, frames) && Writable(out)
    ensures FramesOf(replies + [out], frames + [ReplyFrame(out)])
  {
  }

  /** What reached the client: the bytes `w`, then the frames, the last
      of them cut short when `cut`. */
  predicate Emitted(output: seq<byte>, w: seq<byte>, frames: seq<seq<byte>>, cut: bool)
  {
    if !cut then output == w + Concat(frames)
    else |frames| > 0 && Partial(output, w + Concat(frames[..|frames| - 1]), frames[|frames| - 1])
  }

  /** `output` is `done` followed by a strict prefix of `f`. */
  predicate Partial(output: seq<byte>, done: seq<byte>, f: seq<byte>)
  {
    |done| <= |output| < |done| + |f| && output == done + f[..|output| - |done|]
  }

  lemma PartialAfter(output: seq<byte>, w: seq<byte>, done: seq<byte>, f: seq<byte>)
    requires Partial(output, done, f)
    ensures Partial(w + output, w + done, f)
  {
    assert w + output == (w + done) + f[..|output| - |done|];
  }

  /** Writing one more frame, whole or cut short. */
  lemma EmittedStep(output: seq<byte>, w: seq<byte>, frames: seq<seq<byte>>, frame: seq<byte>, f: seq<byte>, whole: bool)
    requires Emitted(output, w, frames, false)
    requires whole ==> frame == f
    requires !whole ==> Partial(frame, [], f)
    ensures Emitted(output + frame, w, frames + [f], !whole)
  {
    assert (frames + [f])[..|frames|] == frames;
    if whole {
      assert output + frame == w + (Concat(frames) + f);
    } else {
      PartialAfter(frame, output, [], f);
      assert output + [] == w + Concat(frames);
    }
  }

  /** The frame written first, after the bytes `w`. */
  lemma EmittedFirst(frame: seq<byte>, w: seq<byte>, f: seq<byte>, whole: bool)
    requires whole ==> frame == f
    requires !whole ==> Partial(frame, [], f)
    ensures Emitted(w + frame, w, [f], !whole)
  {
    assert [f][..0] == [];
    assert Concat([f]) == f;
    EmittedStep(w, w, [], frame, f, whole);
    assert w + Concat([]) == w;
  }

  /** connproc up to the first request: the handshake line is written
      and one is read back, then the hello is read and answered.  `tried`
      is whether the hello reply was begun, `ok` whether it was written
      whole. */
  method Greet(input: seq<byte>, env: Env, buf: array<byte>)
    returns (ok: bool, hello: Vmsg, sent: Vmsg, rest: seq<byte>, output: seq<byte>, ghost tried: bool)
    requires buf.Length == Datamax + 8 && env.Valid()
    modifies buf
    ensures var k := LineLength(input, 127);
            tried <==> env.shake == |Handshake| && 0 < k && Greets(input[..k]) && HelloArrives(input[k..], env.allocs(0))
    ensures tried ==>
              hello.op == Thello && Arrived(hello) && Emitted(output, Handshake, [ReplyFrame(Prepared(Blank, hello))], !ok)
    ensures !tried ==> !ok && output == Log.Written(Handshake, env.shake)
  {
    output := Log.Written(Handshake, env.shake);
    hello, sent, rest, ok, tried := Blank, Blank, input, false, false;
    if env.shake != |Handshake| {
      return;
    }
    assert output == Handshake;
    var k := LineLength(input, 127);
    if k == 0 || !Greets(input[..k]) {
      return;
    }
    var arrived;
    arrived, hello, rest := Hello(input[k..], env.allocs(0), buf);
    tried := arrived;
    if !arrived {
      return;
    }
    var frame;
    ok, sent, frame := Send(Prepared(Blank, hello), buf, env.sends(0));
    EmittedFirst(frame, Handshake, ReplyFrame(Prepared(Blank, hello)), ok);
    output := output + frame;
  }

  /** The first frame of the stream is a hello readvmsg accepts. */
  predicate HelloArrives(s: seq<byte>, allocOk: bool)
  {
    Framed(s) && Accepts(Body(s), allocOk) && Body(s)[0] == Thello
  }

  /** The hello of connproc: read and checked to be a Thello. */
  method Hello(s: seq<byte>, alloc: bool, buf: array<byte>) returns (tried: bool, hello: Vmsg, rest: seq<byte>)
    requires buf.Length == Datamax + 8
    modifies buf
    ensures tried <==> HelloArrives(s, alloc)
    ensures tried ==> Fills(Body(s), Blank, hello) && rest == s[2 + |Body(s)|..] && hello.op == Thello && Arrived(hello)
  {
    var got;
    got, hello, rest := ReadVmsg(s, Blank, buf, alloc);
    if !got {
      return false, hello, rest;
    }
    FillsHeader(Body(s), Blank, hello);
    if hello.op != Thello {
      return false, hello, rest;
    }
    ReadArrives(Body(s), alloc, Blank, hello);
    tried := true;
  }

  /** writevmsg of a reply: its frame, or the part of it that was written
      before a write failed. */
  method Send(out: Vmsg, buf: array<byte>, send: (nat, nat) -> int) returns (ok: bool, sent: Vmsg, frame: seq<byte>)
    requires buf.Length == Datamax + 8 && Writable(out) && Util.WriteStep(send)
    modifies buf
    ensures sent == out.(msize := ReplyMsize(out))
    ensures ok ==> frame == ReplyFrame(out)
    ensures !ok ==> Partial(frame, [], ReplyFrame(out))
  {
    ok, sent, frame := WriteVmsg(out, buf, send);
    assert [] + frame[..|frame|] == frame;
  }

  /** A block appended whole by store, at the end of the data file, is
      one disklookup confirms at that offset, data included. */
  lemma WrittenHolds(f: seq<byte>, dh: DHeader, data: seq<byte>, sha1: seq<byte> -> seq<byte>)
    requires ValidDHeader(dh) && 0 < |data| == dh.size <= Datamax && sha1(data) == dh.score
    ensures Holds(f + StoredBytes(dh, data), |f|, dh.score, dh.blockType, true, sha1)
  {
    var h := DHeaderBytes(dh);
    var g := f + StoredBytes(dh, data);
    assert |h| == Diskdheadersize;
    assert g[|f|..|f| + Diskdheadersize] == h && g[|f| + Diskdheadersize..|f| + Diskdheadersize + |data|] == data by {
      assert StoredBytes(dh, data) == h + data;
      AppendSlices(f, h, data, g);
    }
    assert UnpackDHeader(h) == Ok(dh) by {
      UnpackPackDHeader(dh, []);
      assert h + [] == h;
    }
    HashesAt(g, |f|, data, dh.score, sha1);
  }

  /** The middle and the last part of `f + h + d`, by position. */
  lemma AppendSlices(f: seq<byte>, h: seq<byte>, d: seq<byte>, g: seq<byte>)
    requires g == f + (h + d)
    ensures g[|f|..|f| + |h|] == h && g[|f| + |h|..|f| + |h| + |d|] == d
  {
    assert g == (f + h) + d;
    assert g[..|f| + |h|] == f + h;
  }

  /** Data found after the header at `o` hashes as the data does. */
  lemma HashesAt(g: seq<byte>, o: nat, data: seq<byte>, score: seq<byte>, sha1: seq<byte> -> seq<byte>)
    requires o + Diskdheadersize + |data| <= |g| && g[o + Diskdheadersize..o + Diskdheadersize + |data|] == data
    requires sha1(data) == score
    ensures DataHashes(g, o, |data|, score, sha1)
  {
  }

  /** disklookup's answer to whether a block to be written is already
      stored: too many candidates, present, not known, or absent. */
  datatype Presence = Many | Present | Unsure | Absent

  function PresenceOf(m: seq<nat>, s: Outcome): Presence
  {
    if |m| > Addressesmax then Many
    else if s.found.Some? then Present
    else if s.err.Some? then Unsure
    else Absent
  }

  /** A write goes ahead only when every candidate's header was read and
      is of another block. */
  lemma AbsentClean(f: seq<byte>, b: seq<byte>, m: seq<nat>, score: seq<byte>, t: byte, sha1: seq<byte> -> seq<byte>)
    requires |b| == Datamax + 8 && |score| == Scoresize && |m| <= Addressesmax
    ensures PresenceOf(m, Search(f, b, m, 0, score, t, false, sha1, None)) == Absent <==> AllDiffer(f, m, 0, score, t)
  {
    SearchClean(f, b, m, 0, score, t, false, sha1);
  }

  /** A write is found present, and not stored again, when a candidate
      holds the header of its score and type and no earlier one does. */
  lemma PresentFound(f: seq<byte>, b: seq<byte>, m: seq<nat>, j: nat, score: seq<byte>, t: byte, sha1: seq<byte> -> seq<byte>)
    requires |b| == Datamax + 8 && |score| == Scoresize && j < |m| <= Addressesmax
    requires NoneMatch(f, m, 0, j, score, t) && HeaderMatches(f, m[j], score, t)
    ensures PresenceOf(m, Search(f, b, m, 0, score, t, false, sha1, None)) == Present
  {
    SearchFinds(f, b, m, 0, j, score, t, false, sha1, None);
  }

  /** The reply to a read that went to the index: no candidate, too
      many, none confirmed, larger than asked for, no memory for the copy,
      or the data. */
  function ReadReply(out: Vmsg, m: seq<nat>, s: Outcome, count: nat, alloc: bool): (r: Vmsg)
    requires |s.buf| == Datamax + 8 && (s.found.Some? ==> s.found.value.1.size <= Datamax)
  {
    if m == [] then Error(out, NoSuchScore)
    else if |m| > Addressesmax then Error(out, TooManyMatches)
    else if s.found.None? then Error(out, RetrieveFailed)
    else if s.found.value.1.size > count then Error(out, TooLarge)
    else if !alloc then Error(out, OutOfMemory)
    else out.(data := s.buf[..s.found.value.1.size], dsize := s.found.value.1.size)
  }

  /** A read answers with data only from a candidate whose header on the
      data file is the block's, data no larger than asked for whose score
      is the one asked for. */
  lemma ReadReplyAnswers(f: seq<byte>, m: seq<nat>, s: Outcome, req: Vmsg, out: Vmsg, alloc: bool,
                         sha1: seq<byte> -> seq<byte>)
    requires Answered(f, m, req.score, req.blockType, true, sha1, s) && out.op == Rread
    ensures var r := ReadReply(out, m, s, req.count, alloc);
            Writable(r) && r.tag == out.tag &&
            (r.op == Rread ==>
               r.dsize <= req.count && r.dsize <= |r.data| && sha1(r.data[..r.dsize]) == req.score &&
               Confirmed(f, m, s.found.value.0, s.found.value.1, req.score, req.blockType) &&
               r.dsize == s.found.value.1.size)
  {
    var r := ReadReply(out, m, s, req.count, alloc);
    if r.op == Rread {
      assert r.data[..r.dsize] == s.buf[..s.found.value.1.size];
    }
  }

  /** A read of a stored block gets its data: when the block disklookup
      returns holds its data on the data file (which SearchFinds
      establishes for the first candidate holding the block) and is no
      larger than asked for, the reply is those bytes. */
  lemma ReadReplyFinds(f: seq<byte>, m: seq<nat>, s: Outcome, req: Vmsg, out: Vmsg, sha1: seq<byte> -> seq<byte>)
    requires Answered(f, m, req.score, req.blockType, true, sha1, s) && |m| <= Addressesmax
    requires s.found.Some? && Loaded(f, s.found.value.0, true, s.found.value.1, s.buf)
    requires s.found.value.1.size <= req.count
    ensures var (o, dh) := s.found.value;
            ReadReply(out, m, s, req.count, true) ==
              out.(data := f[o + Diskdheadersize..o + Diskdheadersize + dh.size], dsize := dh.size)
  {
  }

  /** What store appends to the data file for the block `dh`, `data`
      when its writes return as `io` says: part of the header, and when
      the header went out whole, part of the data. */
  function StoreAppends(dh: DHeader, data: seq<byte>, io: Io): (a: seq<byte>)
    requires ValidDHeader(dh) && |data| == dh.size
    ensures |a| <= Diskdheadersize + dh.size
    ensures io.Whole(dh.size) ==> a == StoredBytes(dh, data)
  {
    Log.Written(DHeaderBytes(dh), io.Header()) +
    (if io.Header() == Diskdheadersize then Log.Written(data, io.Data(dh.size)) else [])
  }

  /** What store appends to the index file for the block `dh` stored at
      `addr`: nothing unless the block went out whole, then as much of
      its index record as the record write returned. */
  function StoreIndexes(dh: DHeader, addr: nat, io: Io): (a: seq<byte>)
    requires |dh.score| == Scoresize
    ensures |a| <= Diskiheadersize
    ensures io.Whole(dh.size) ==> a == IHeaderBytes(ToIHeader(dh, addr))
    ensures !io.BlockWhole(dh.size) ==> a == []
  {
    if io.BlockWhole(dh.size) then Log.Written(IHeaderBytes(ToIHeader(dh, addr)), io.Record()) else []
  }

  /** readdata's second read, when the first held only part of the data. */
  lemma ReadDataFetched(f: seq<byte>, n: nat, b1: seq<byte>, o: nat, size: nat, err: Option<LookupError>)
    requires |b1| == Datamax + 8 && Diskdheadersize <= n <= Want(true) && size <= Datamax
    requires o + n <= |f| && b1[..n] == f[o..o + n] && size > n - Diskdheadersize
    ensures var got := PreadFile(f, size, o + Diskdheadersize);
            ReadData(f, n, b1, o, size, err) ==
              (if |got| != size then Some(DataShortRead) else if |got| <= 0 then Some(DataUnreadable) else err,
               got + b1[|got|..])
  {
  }

  /** readdata when the first read held all the data behind the header. */
  lemma ReadDataKept(f: seq<byte>, n: nat, b1: seq<byte>, o: nat, size: nat, err: Option<LookupError>)
    requires |b1| == Datamax + 8 && Diskdheadersize <= n <= Want(true) && size <= Datamax
    requires o + n <= |f| && b1[..n] == f[o..o + n] && size <= n - Diskdheadersize
    ensures ReadData(f, n, b1, o, size, err) == (err, b1[Diskdheadersize..Diskdheadersize + size] + b1[size..])
  {
  }

  /** The Io of a request in the terms of store's three write counts. */
  lemma StoreWrites(dh: DHeader, addr: nat, io: Io)
    requires |dh.score| == Scoresize && dh.size > 0
    ensures io.BlockWhole(dh.size) <==> io.Header() == Diskdheadersize && 0 < io.Data(dh.size) == dh.size
    ensures io.Whole(dh.size) <==> io.BlockWhole(dh.size) && io.Record() == Diskiheadersize
    ensures StoreIndexes(dh, addr, io) ==
            if io.BlockWhole(dh.size) then Log.Written(IHeaderBytes(ToIHeader(dh, addr)), io.Record()) else []
  {
  }

  /** Every reply the write path can give answers the write. */
  lemma WriteAnswers(req: Vmsg, out: Vmsg, p: Presence, stored: bool, r: Vmsg, sha1: seq<byte> -> seq<byte>)
    requires Hash(sha1) && req.op == Twrite && out.op == Rwrite && out.tag == req.tag
    requires var done := out.(score := sha1(req.data));
             (p == Many ==> r == Error(done, TooManyMatches)) &&
             (p == Present ==> r == done) &&
             (p == Unsure ==> r == Error(done, NotConfirmed)) &&
             (p == Absent && !stored ==> r == Error(done, DataFileFull)) &&
             (stored ==> r == done || r == Error(done, BlockNotWritten) || r == Error(done, OutOfMemory))
    ensures Exchanged(req, r, sha1)
  {
  }

  class Server {
    const g: Geometry
    const d: Disk
    const mem: MemIndex
    var state: ServerState
    /** diskhisto: how many disklookups saw each number of candidates. */
    const diskhisto: array<nat>

    ghost predicate Valid()
      reads mem, mem.Arrays()
    {
      g.Valid() && mem.g == g && mem.Valid() && diskhisto.Length == DiskhistoCells
    }

    /** The server once init has recovered the files and built the index:
        running, with an empty histogram. */
    constructor (g: Geometry, d: Disk, mem: MemIndex)
      requires g.Valid() && mem.g == g && mem.Valid()
      ensures Valid() && this.g == g && this.d == d && this.mem == mem
      ensures state == Srunning && fresh(diskhisto) && diskhisto[..] == seq(DiskhistoCells, _ => 0)
    {
      this.g := g;
      this.d := d;
      this.mem := mem;
      state := Srunning;
      diskhisto := new nat[DiskhistoCells](_ => 0);
    }

    /** The candidates of the index for `score` and `t`, as lookup
        returns them. */
    ghost function Candidates(score: seq<byte>, t: byte): seq<nat>
      requires Valid() && |score| >= Indexscoresize
      reads mem, mem.Arrays()
    {
      Matching(mem.EntriesOf(Bucket(g, score)), t, Key(g, score))
    }

    // -------------------------------------------------------------------
    // disklookup

    /** One turn of disklookup's loop: the first read at `o`. */
    method ProbeOne(o: nat, score: seq<byte>, t: byte, readdata: bool, buf: array<byte>,
                    sha1: seq<byte> -> seq<byte>, err: Option<LookupError>)
      returns (step: Step, e: Option<LookupError>)
      requires buf.Length == Datamax + 8 && |score| == Scoresize
      modifies buf
      ensures ProbeAt(d.datafile, old(buf[..]), o, score, t, readdata, sha1, err) == Probe(step, e, buf[..])
    {
      ghost var b0 := buf[..];
      var got := PreadFile(d.datafile, Want(readdata), o);
      CopyIn(buf, 0, got);
      assert buf[..] == got + b0[|got|..];
      step, e := CheckHeader(|got|, o, score, t, readdata, buf, sha1, err);
    }

    /** The turn once `n` bytes at `o` are at the start of `buf`. */
    method CheckHeader(n: nat, o: nat, score: seq<byte>, t: byte, readdata: bool, buf: array<byte>,
                       sha1: seq<byte> -> seq<byte>, err: Option<LookupError>)
      returns (step: Step, e: Option<LookupError>)
      requires buf.Length == Datamax + 8 && |score| == Scoresize && n <= Want(readdata)
      requires n > 0 ==> o + n <= |d.datafile| && buf[..n] == d.datafile[o..o + n]
      modifies buf
      ensures ProbeHeader(d.datafile, n, old(buf[..]), o, score, t, readdata, sha1, err) == Probe(step, e, buf[..])
    {
      if n <= 0 {
        return Skip, Some(HeaderUnreadable);
      }
      if n < Diskdheadersize {
        return Skip, Some(HeaderShortRead);
      }
      var h := UnpackDHeader(buf[..Diskdheadersize]);
      if h.Err? {
        return Skip, Some(HeaderBad(h.error));
      }
      var dh := h.value;
      if score != dh.score || dh.blockType != t {
        return Skip, err;
      }
      if !readdata {
        return Hit(dh), err;
      }
      step, e := CheckData(n, o, dh, score, buf, sha1, err);
    }

    /** The turn once the header is the block's and its data is wanted. */
    method CheckData(n: nat, o: nat, dh: DHeader, score: seq<byte>, buf: array<byte>,
                     sha1: seq<byte> -> seq<byte>, err: Option<LookupError>)
      returns (step: Step, e: Option<LookupError>)
      requires buf.Length == Datamax + 8 && Diskdheadersize <= n <= Want(true) && dh.size <= Datamax
      requires o + n <= |d.datafile| && buf[..n] == d.datafile[o..o + n]
      modifies buf
      ensures ProbeData(d.datafile, n, old(buf[..]), o, dh, score, sha1, err) == Probe(step, e, buf[..])
    {
      e := LoadData(n, o, dh, buf, err);
      if sha1(buf[..dh.size]) != score {
        return Corrupt, Some(ScoreInvalid);
      }
      step := Hit(dh);
    }

    /** The data of the block into the start of the buffer: moved down
        from behind the header when the first read held it, otherwise
        read from the data file. */
    method LoadData(n: nat, o: nat, dh: DHeader, buf: array<byte>, err: Option<LookupError>)
      returns (e: Option<LookupError>)
      requires buf.Length == Datamax + 8 && Diskdheadersize <= n <= Want(true) && dh.size <= Datamax
      requires o + n <= |d.datafile| && buf[..n] == d.datafile[o..o + n]
      modifies buf
      ensures (e, buf[..]) == ReadData(d.datafile, n, old(buf[..]), o, dh.size, err)
    {
      if dh.size > n - Diskdheadersize {
        e := FetchData(n, o, dh, buf, err);
      } else {
        ghost var b1 := buf[..];
        ReadDataKept(d.datafile, n, b1, o, dh.size, err);
        e := err;
        CopyIn(buf, 0, buf[Diskdheadersize..Diskdheadersize + dh.size]);
        assert buf[..] == b1[Diskdheadersize..Diskdheadersize + dh.size] + b1[dh.size..];
      }
    }

    /** The second read of the data, when the first held only part of it. */
    method FetchData(n: nat, o: nat, dh: DHeader, buf: array<byte>, err: Option<LookupError>)
      returns (e: Option<LookupError>)
      requires buf.Length == Datamax + 8 && Diskdheadersize <= n <= Want(true) && dh.size <= Datamax
      requires o + n <= |d.datafile| && buf[..n] == d.datafile[o..o + n] && dh.size > n - Diskdheadersize
      modifies buf
      ensures (e, buf[..]) == ReadData(d.datafile, n, old(buf[..]), o, dh.size, err)
    {
      ghost var b1 := buf[..];
      ReadDataFetched(d.datafile, n, b1, o, dh.size, err);
      var got := PreadFile(d.datafile, dh.size, o + Diskdheadersize);
      CopyIn(buf, 0, got);
      assert buf[..] == got + b1[|got|..];
      e := err;
      if |got| <= 0 {
        e := Some(DataUnreadable);
      }
      if |got| != dh.size {
        e := Some(DataShortRead);
      }
    }

    /** disklookup: counts the number of candidates in diskhisto, then
        tries them in order. */
    method DiskLookup(addrs: seq<nat>, score: seq<byte>, t: byte, readdata: bool, buf: array<byte>,
                      sha1: seq<byte> -> seq<byte>)
      returns (found: Option<(nat, DHeader)>, err: Option<LookupError>)
      requires Valid() && buf.Length == Datamax + 8 && buf !in mem.Arrays()
      requires |addrs| <= Addressesmax && |score| == Scoresize
      modifies diskhisto, buf
      ensures Valid()
      ensures diskhisto[..] == old(diskhisto[..])[|addrs| := old(diskhisto[|addrs|]) + 1]
      ensures Search(d.datafile, old(buf[..]), addrs, 0, score, t, readdata, sha1, None) == Outcome(found, err, buf[..])
    {
      Count(|addrs|);
      found, err := Scan(addrs, score, t, readdata, buf, sha1);
    }

    /** `diskhisto[n] += 1`. */
    method Count(n: nat)
      requires Valid() && n <= Addressesmax
      modifies diskhisto
      ensures Valid()
      ensures diskhisto[..] == old(diskhisto[..])[n := old(diskhisto[n]) + 1]
    {
      diskhisto[n] := diskhisto[n] + 1;
    }

    /** disklookup's loop over the candidates. */
    method Scan(addrs: seq<nat>, score: seq<byte>, t: byte, readdata: bool, buf: array<byte>,
                sha1: seq<byte> -> seq<byte>)
      returns (found: Option<(nat, DHeader)>, err: Option<LookupError>)
      requires buf.Length == Datamax + 8 && |score| == Scoresize
      modifies buf
      ensures Search(d.datafile, old(buf[..]), addrs, 0, score, t, readdata, sha1, None) == Outcome(found, err, buf[..])
    {
      ghost var b0 := buf[..];
      err := None;
      var i := 0;
      while i < |addrs|
        invariant i <= |addrs|
        invariant Search(d.datafile, b0, addrs, 0, score, t, readdata, sha1, None) ==
                  Search(d.datafile, buf[..], addrs, i, score, t, readdata, sha1, err)
        decreases |addrs| - i
      {
        ghost var b := buf[..];
        var step, e := ProbeOne(addrs[i], score, t, readdata, buf, sha1, err);
        SearchStep(d.datafile, b, addrs, i, score, t, readdata, sha1, err, Probe(step, e, buf[..]));
        if step.Corrupt? {
          return None, e;
        }
        if step.Hit? {
          return Some((addrs[i], step.dh)), e;
        }
        err := e;
        i := i + 1;
      }
      found := None;
    }

    // -------------------------------------------------------------------
    // connproc's Tread and Twrite

    /** A read that goes to the index: lookup, then disklookup with the
        data wanted, then the checks of the reply.  `s` is disklookup's
        answer (the untouched buffer when it is not called). */
    method ReadPath(req: Vmsg, out: Vmsg, buf: array<byte>, sha1: seq<byte> -> seq<byte>, alloc: bool)
      returns (r: Vmsg, ghost s: Outcome)
      requires Valid() && buf.Length == Datamax + 8 && buf !in mem.Arrays() && |req.score| == Scoresize
      modifies diskhisto, buf
      ensures Valid()
      ensures var m := Candidates(req.score, req.blockType);
              (|m| <= Addressesmax ==> s == Search(d.datafile, old(buf[..]), m, 0, req.score, req.blockType, true, sha1, None)) &&
              Answered(d.datafile, m, req.score, req.blockType, true, sha1, s) &&
              r == ReadReply(out, m, s, req.count, alloc)
    {
      var n, addrs := mem.Lookup(req.score, req.blockType);
      s := Outcome(None, None, buf[..]);
      if n == 0 {
        return Error(out, NoSuchScore), s;
      }
      if n == -1 {
        return Error(out, TooManyMatches), s;
      }
      assert addrs == Candidates(req.score, req.blockType);
      SearchAnswered(d.datafile, buf[..], addrs, req.score, req.blockType, true, sha1);
      var found, err := DiskLookup(addrs, req.score, req.blockType, true, buf, sha1);
      s := Outcome(found, err, buf[..]);
      assert Answered(d.datafile, addrs, req.score, req.blockType, true, sha1, s);
      if found.None? {
        return Error(out, RetrieveFailed), s;
      }
      var dh := found.value.1;
      if dh.size > req.count {
        return Error(out, TooLarge), s;
      }
      if !alloc {
        return Error(out, OutOfMemory), s;
      }
      r := out.(data := buf[..dh.size], dsize := dh.size);
    }

    /** The dedup check of a write: lookup, then disklookup without the
        data. */
    method Dedup(score: seq<byte>, t: byte, buf: array<byte>, sha1: seq<byte> -> seq<byte>)
      returns (p: Presence, ghost s: Outcome)
      requires Valid() && buf.Length == Datamax + 8 && buf !in mem.Arrays() && |score| == Scoresize
      modifies diskhisto, buf
      ensures Valid()
      ensures var m := Candidates(score, t);
              (|m| <= Addressesmax ==> s == Search(d.datafile, old(buf[..]), m, 0, score, t, false, sha1, None)) &&
              p == PresenceOf(m, s)
    {
      var n, addrs := mem.Lookup(score, t);
      s := Outcome(None, None, buf[..]);
      if n == -1 {
        return Many, s;
      }
      if n > 0 {
        var found, err := DiskLookup(addrs, score, t, false, buf, sha1);
        s := Outcome(found, err, buf[..]);
        if found.Some? {
          return Present, s;
        }
        if err.Some? {
          return Unsure, s;
        }
      }
      p := Absent;
    }

    /** A write of a block not yet stored: the "data file is full" check
        against the end marker, store, then insert; a failure of either
        degrades the server.  `stored` is whether store was called. */
    method Append(req: Vmsg, score: seq<byte>, out: Vmsg, io: Io) returns (r: Vmsg, ghost stored: bool)
      requires Valid() && |score| == Scoresize && 0 < req.dsize == |req.data| <= Datamax
      modifies this`state, d`datafile, d`datafilesize, d`indexfile, d`nblocks, mem, mem.Arrays()
      ensures Valid() && fresh(mem.Arrays() - old(mem.Arrays())) && |mem.heads| == old(|mem.heads|)
      ensures stored <==> old(d.datafilesize) + Diskdheadersize + req.dsize < g.EndAddr()
      ensures !stored ==> r == Error(out, DataFileFull) && state == old(state) && unchanged(d) && unchanged(mem)
      ensures stored ==>
                var dh := DHeader(score, req.blockType, req.dsize);
                d.datafile == old(d.datafile) + StoreAppends(dh, req.data, io) &&
                (io.Whole(req.dsize) ==>
                   d.datafilesize == old(d.datafilesize) + Diskdheadersize + req.dsize &&
                   d.indexfile == old(d.indexfile) + IHeaderBytes(ToIHeader(dh, old(d.datafilesize))))
      ensures stored ==>
                var dh := DHeader(score, req.blockType, req.dsize);
                d.datafilesize == old(d.datafilesize) + (if io.BlockWhole(req.dsize) then Diskdheadersize + req.dsize else 0) &&
                d.indexfile == old(d.indexfile) + StoreIndexes(dh, old(d.datafilesize), io) &&
                d.nblocks == old(d.nblocks) + (if io.Whole(req.dsize) then 1 else 0)
      ensures stored && !io.Whole(req.dsize) ==> r == Error(out, BlockNotWritten) && state == Sdegraded && unchanged(mem)
      ensures stored && io.Whole(req.dsize) ==>
                var h := Bucket(g, score);
                var room := io.insertAlloc || old(mem.HasRoom(h));
                (room ==> r == out && state == old(state) &&
                          mem.EntriesOf(h) == old(mem.EntriesOf(h)) + [Entry(req.blockType, Key(g, score), old(d.datafilesize))]) &&
                (!room ==> r == Error(out, OutOfMemory) && state == Sdegraded && mem.EntriesOf(h) == old(mem.EntriesOf(h))) &&
                (forall k :: 0 <= k < |mem.heads| && k != h ==> mem.EntriesOf(k) == old(mem.EntriesOf(k)))
    {
      var dh := DHeader(score, req.blockType, req.dsize);
      if d.datafilesize + Diskdheadersize + dh.size >= g.EndAddr() {
        return Error(out, DataFileFull), false;
      }
      stored := true;
      r := Commit(dh, req.data, out, io);
    }

    /** store, then insert at the offset store returns, for a block that
        fits below the end marker. */
    method Commit(dh: DHeader, data: seq<byte>, out: Vmsg, io: Io) returns (r: Vmsg)
      requires Valid() && ValidDHeader(dh) && 0 < |data| == dh.size <= Datamax
      requires d.datafilesize + Diskdheadersize + dh.size < g.EndAddr()
      modifies this`state, d`datafile, d`datafilesize, d`indexfile, d`nblocks, mem, mem.Arrays()
      ensures Valid() && fresh(mem.Arrays() - old(mem.Arrays())) && |mem.heads| == old(|mem.heads|)
      ensures d.datafile == old(d.datafile) + StoreAppends(dh, data, io)
      ensures io.Whole(dh.size) ==>
                d.datafilesize == old(d.datafilesize) + Diskdheadersize + dh.size &&
                d.indexfile == old(d.indexfile) + IHeaderBytes(ToIHeader(dh, old(d.datafilesize)))
      ensures d.datafilesize == old(d.datafilesize) + (if io.BlockWhole(dh.size) then Diskdheadersize + dh.size else 0)
      ensures d.indexfile == old(d.indexfile) + StoreIndexes(dh, old(d.datafilesize), io)
      ensures d.nblocks == old(d.nblocks) + (if io.Whole(dh.size) then 1 else 0)
      ensures !io.Whole(dh.size) ==> r == Error(out, BlockNotWritten) && state == Sdegraded && unchanged(mem)
      ensures io.Whole(dh.size) ==>
                var h := Bucket(g, dh.score);
                var room := io.insertAlloc || old(mem.HasRoom(h));
                (room ==> r == out && state == old(state) &&
                          mem.EntriesOf(h) == old(mem.EntriesOf(h)) + [Entry(dh.blockType, Key(g, dh.score), old(d.datafilesize))]) &&
                (!room ==> r == Error(out, OutOfMemory) && state == Sdegraded && mem.EntriesOf(h) == old(mem.EntriesOf(h))) &&
                (forall k :: 0 <= k < |mem.heads| && k != h ==> mem.EntriesOf(k) == old(mem.EntriesOf(k)))
    {
      StoreWrites(dh, d.datafilesize, io);
      var addr := d.Store(dh, data, io.Header(), io.Data(dh.size), io.Record());
      assert d.datafile == old(d.datafile) + StoreAppends(dh, data, io);
      if addr.None? {
        state := Sdegraded;
        return Error(out, BlockNotWritten);
      }
      r := Enter(dh, addr.value, out, io.insertAlloc);
    }

    /** insert of the block just stored at `addr`; a failure degrades the
        server. */
    method Enter(dh: DHeader, addr: nat, out: Vmsg, alloc: bool) returns (r: Vmsg)
      requires Valid() && |dh.score| == Scoresize && addr < g.EndAddr()
      modifies this`state, mem, mem.Arrays()
      ensures Valid() && fresh(mem.Arrays() - old(mem.Arrays())) && |mem.heads| == old(|mem.heads|)
      ensures var h := Bucket(g, dh.score);
              var room := alloc || old(mem.HasRoom(h));
              (room ==> r == out && state == old(state) &&
                        mem.EntriesOf(h) == old(mem.EntriesOf(h)) + [Entry(dh.blockType, Key(g, dh.score), addr)]) &&
              (!room ==> r == Error(out, OutOfMemory) && state == Sdegraded && mem.EntriesOf(h) == old(mem.EntriesOf(h))) &&
              (forall k :: 0 <= k < |mem.heads| && k != h ==> mem.EntriesOf(k) == old(mem.EntriesOf(k)))
    {
      Recover.OffsetKept(g, addr);
      var okhdr := mem.Insert(dh.score, dh.blockType, addr, alloc);
      if !okhdr {
        state := Sdegraded;
        return Error(out, OutOfMemory);
      }
      r := out;
    }

    /** A write past the gates: the score of the data, the dedup check,
        then the append.  `p` is the dedup check's verdict over the
        outcome `s` of the disk lookup, and `stored` whether store was
        called. */
    method WritePath(req: Vmsg, out: Vmsg, buf: array<byte>, sha1: seq<byte> -> seq<byte>, io: Io)
      returns (r: Vmsg, ghost p: Presence, ghost s: Outcome, ghost stored: bool)
      requires Valid() && buf.Length == Datamax + 8 && buf !in mem.Arrays() && Hash(sha1) && state == Srunning
      requires 0 < req.dsize == |req.data| <= Datamax
      modifies this`state, diskhisto, buf, d`datafile, d`datafilesize, d`indexfile, d`nblocks, mem, mem.Arrays()
      ensures Valid() && fresh(mem.Arrays() - old(mem.Arrays()))
      ensures var m := old(Candidates(sha1(req.data), req.blockType));
              p == PresenceOf(m, s) &&
              (|m| <= Addressesmax ==>
                 s == Search(old(d.datafile), old(buf[..]), m, 0, sha1(req.data), req.blockType, false, sha1, None))
      ensures var done := out.(score := sha1(req.data));
              (p == Many ==> r == Error(done, TooManyMatches)) &&
              (p == Present ==> r == done) &&
              (p == Unsure ==> r == Error(done, NotConfirmed)) &&
              (p == Absent && !stored ==> r == Error(done, DataFileFull))
      ensures stored <==> p == Absent && old(d.datafilesize) + Diskdheadersize + req.dsize < g.EndAddr()
      ensures !stored ==> state == old(state) && unchanged(d) && unchanged(mem)
      ensures stored ==>
                var dh := DHeader(sha1(req.data), req.blockType, req.dsize);
                d.datafile == old(d.datafile) + StoreAppends(dh, req.data, io) &&
                d.datafilesize == old(d.datafilesize) + (if io.BlockWhole(req.dsize) then Diskdheadersize + req.dsize else 0) &&
                d.indexfile == old(d.indexfile) + StoreIndexes(dh, old(d.datafilesize), io) &&
                d.nblocks == old(d.nblocks) + (if io.Whole(req.dsize) then 1 else 0)
      ensures stored && !io.Whole(req.dsize) ==>
                r == Error(out.(score := sha1(req.data)), BlockNotWritten) && state == Sdegraded && unchanged(mem)
      ensures stored && io.Whole(req.dsize) ==>
                var h := Bucket(g, sha1(req.data));
                var done := out.(score := sha1(req.data));
                var room := io.insertAlloc || old(mem.HasRoom(h));
                (room ==> r == done && state == Srunning &&
                          mem.EntriesOf(h) == old(mem.EntriesOf(h)) + [Entry(req.blockType, Key(g, sha1(req.data)), old(d.datafilesize))]) &&
                (!room ==> r == Error(done, OutOfMemory) && state == Sdegraded && mem.EntriesOf(h) == old(mem.EntriesOf(h))) &&
                (forall k :: 0 <= k < |mem.heads| && k != h ==> mem.EntriesOf(k) == old(mem.EntriesOf(k)))
    {
      var score := sha1(req.data);
      var done := out.(score := score);
      var verdict;
      verdict, s := Dedup(score, req.blockType, buf, sha1);
      p := verdict;
      if verdict == Many {
        return Error(done, TooManyMatches), p, s, false;
      }
      if verdict == Present {
        return done, p, s, false;
      }
      if verdict == Unsure {
        return Error(done, NotConfirmed), p, s, false;
      }
      r, stored := Append(req, score, done, io);
    }

    /** The signal thread's stateset(Sclosing). */
    method Shutdown()
      modifies this`state
      ensures state == Sclosing
    {
      state := Sclosing;
    }

    /** One request of connproc's loop once it is read: the gates, then
        the read or write they lead to.  `reply` is whether a reply is
        to be sent, `last` whether the connection ends after it. */
    method Handle(req: Vmsg, prev: Vmsg, allowwrite: bool, buf: array<byte>, sha1: seq<byte> -> seq<byte>, io: Io)
      returns (out: Vmsg, reply: bool, last: bool)
      requires Valid() && buf.Length == Datamax + 8 && buf !in mem.Arrays() && Arrived(req) && Sha1(sha1)
      modifies this`state, diskhisto, buf, d`datafile, d`datafilesize, d`indexfile, d`nblocks, mem, mem.Arrays()
      ensures Valid() && fresh(mem.Arrays() - old(mem.Arrays()))
      ensures var gate := Decide(old(state), allowwrite, req, prev);
              (reply <==> !gate.Close?) && (last <==> gate.Close? || gate.LastReply?) &&
              ((gate.Reply? || gate.LastReply?) ==> out == gate.out) &&
              (!gate.Store? ==> state == old(state) && unchanged(d) && unchanged(mem)) &&
              (gate.Store? ==> state == old(state) || state == Sdegraded)
      ensures old(d.datafile) <= d.datafile
      ensures reply ==> Exchanged(req, out, sha1) && GoesOn(req, out)
      ensures (!allowwrite || old(state) != Srunning) ==> unchanged(d)
      ensures (state == Srunning ==> old(state) == Srunning) && (old(state) == Sclosing ==> state == Sclosing)
    {
      var gate := Decide(state, allowwrite, req, prev);
      DecideAnswers(state, allowwrite, req, prev, sha1);
      match gate
      case Close =>
        out, reply, last := prev, false, true;
      case LastReply(o) =>
        out, reply, last := o, true, true;
      case Reply(o) =>
        out, reply, last := o, true, false;
      case Lookup(o) =>
        ghost var s;
        out, s := ReadPath(req, o, buf, sha1, io.readAlloc);
        ReadReplyAnswers(d.datafile, Candidates(req.score, req.blockType), s, req, o, io.readAlloc, sha1);
        assert Exchanged(req, out, sha1);
        reply, last := true, false;
      case Store(o) =>
        ghost var p, s, stored;
        out, p, s, stored := WritePath(req, o, buf, sha1, io);
        WriteAnswers(req, o, p, stored, out, sha1);
        reply, last := true, false;
    }

    /** One turn of connproc's loop: the signal thread may shut the
        server down, then a request is read, handled and, when it is
        answered, the reply is written. */
    method Turn(stream: seq<byte>, base: Vmsg, prev: Vmsg, allowwrite: bool, buf: array<byte>,
                sha1: seq<byte> -> seq<byte>, closing: bool, alloc: bool, send: (nat, nat) -> int, io: Io)
      returns (got: bool, req: Vmsg, reply: bool, out: Vmsg, wok: bool, last: bool, sent: Vmsg,
               frame: seq<byte>, rest: seq<byte>)
      requires Valid() && buf.Length == Datamax + 8 && buf !in mem.Arrays() && Sha1(sha1) && Util.WriteStep(send)
      modifies this`state, diskhisto, buf, d`datafile, d`datafilesize, d`indexfile, d`nblocks, mem, mem.Arrays()
      ensures Valid() && fresh(mem.Arrays() - old(mem.Arrays())) && buf !in mem.Arrays()
      ensures got ==> |rest| < |stream|
      ensures reply ==>
                got && Exchanged(req, out, sha1) && GoesOn(req, out) &&
                (wok ==> frame == ReplyFrame(out)) && (!wok ==> Partial(frame, [], ReplyFrame(out)))
      ensures (!allowwrite || old(state) != Srunning) ==> unchanged(d)
      ensures old(d.datafile) <= d.datafile
      ensures (state == Srunning ==> old(state) == Srunning) && (old(state) == Sclosing ==> state == Sclosing)
    {
      reply, out, wok, last, sent, frame := false, prev, false, true, prev, [];
      if closing {
        Shutdown();
      }
      got, req, rest := Receive(stream, base, buf, alloc);
      if got {
        reply, out, wok, last, sent, frame := Answer(req, prev, allowwrite, buf, sha1, send, io);
      }
    }

    /** readvmsg of the next request of the stream. */
    method Receive(stream: seq<byte>, base: Vmsg, buf: array<byte>, alloc: bool) returns (got: bool, req: Vmsg, rest: seq<byte>)
      requires Valid() && buf.Length == Datamax + 8 && buf !in mem.Arrays()
      modifies buf
      ensures Valid()
      ensures got <==> Framed(stream) && Accepts(Body(stream), alloc)
      ensures got ==> Fills(Body(stream), base.(data := []), req) && rest == stream[2 + |Body(stream)|..]
      ensures got ==> Arrived(req) && |rest| < |stream|
    {
      got, req, rest := ReadVmsg(stream, base.(data := []), buf, alloc);
      if got {
        ReadArrives(Body(stream), alloc, base.(data := []), req);
      }
    }

    /** A request read: handled, and the reply written when there is one. */
    method Answer(req: Vmsg, prev: Vmsg, allowwrite: bool, buf: array<byte>, sha1: seq<byte> -> seq<byte>,
                  send: (nat, nat) -> int, io: Io)
      returns (reply: bool, out: Vmsg, wok: bool, last: bool, sent: Vmsg, frame: seq<byte>)
      requires Valid() && buf.Length == Datamax + 8 && buf !in mem.Arrays() && Arrived(req) && Sha1(sha1)
      requires Util.WriteStep(send)
      modifies this`state, diskhisto, buf, d`datafile, d`datafilesize, d`indexfile, d`nblocks, mem, mem.Arrays()
      ensures Valid() && fresh(mem.Arrays() - old(mem.Arrays())) && buf !in mem.Arrays()
      ensures reply ==>
                Exchanged(req, out, sha1) && GoesOn(req, out) &&
                (wok ==> frame == ReplyFrame(out)) && (!wok ==> Partial(frame, [], ReplyFrame(out)))
      ensures (!allowwrite || old(state) != Srunning) ==> unchanged(d)
      ensures old(d.datafile) <= d.datafile
      ensures (state == Srunning ==> old(state) == Srunning) && (old(state) == Sclosing ==> state == Sclosing)
    {
      wok, sent, frame := false, prev, [];
      out, reply, last := Handle(req, prev, allowwrite, buf, sha1, io);
      if reply {
        wok, sent, frame := Send(out, buf, send);
      }
    }

    /** connproc: the greeting, then requests read, handled and answered
        one after another until the stream ends, a gate closes the
        connection or a reply cannot be written.  `reqs` are the messages
        read (the hello first), `replies` the replies begun, the last one
        cut short when `cut`; before request `k` is read the signal
        thread shuts the server down when `env.closing(k)`. */
    method Connproc(input: seq<byte>, allowwrite: bool, buf: array<byte>, sha1: seq<byte> -> seq<byte>, env: Env)
      returns (output: seq<byte>, ghost reqs: seq<Vmsg>, ghost replies: seq<Vmsg>, ghost frames: seq<seq<byte>>,
               ghost cut: bool)
      requires Valid() && buf.Length == Datamax + 8 && buf !in mem.Arrays() && env.Valid() && Sha1(sha1)
      modifies this`state, diskhisto, buf, d`datafile, d`datafilesize, d`indexfile, d`nblocks, mem, mem.Arrays()
      ensures Valid() && fresh(mem.Arrays() - old(mem.Arrays()))
      ensures FramesOf(replies, frames) && Emitted(output, Log.Written(Handshake, env.shake), frames, cut)
      ensures |replies| <= |reqs| <= |replies| + 1 && (cut ==> |reqs| == |replies|)
      ensures |reqs| > 0 ==>
                var k := LineLength(input, 127);
                env.shake == |Handshake| && 0 < k && Greets(input[..k]) &&
                reqs[0].op == Thello && Arrived(reqs[0]) && |replies| > 0 && replies[0] == Prepared(Blank, reqs[0])
      ensures Logged(reqs, replies, sha1)
      ensures (!allowwrite || old(state) != Srunning) ==> unchanged(d)
      ensures old(d.datafile) <= d.datafile
      ensures state == Srunning ==> old(state) == Srunning
      ensures old(state) == Sclosing ==> state == Sclosing
    {
      var ok, hello, sent, stream, greeting, tried := Greet(input, env, buf);
      assert Valid() && unchanged(d);
      output := greeting;
      ghost var w := Log.Written(Handshake, env.shake);
      reqs, replies, frames, cut := [], [], [], false;
      if tried {
        assert w == Handshake;
        FramesOfStep([], [], Prepared(Blank, hello));
        reqs, replies, frames, cut := [hello], [Prepared(Blank, hello)], [ReplyFrame(Prepared(Blank, hello))], !ok;
      }
      if !ok {
        assert Concat([]) == [];
        return;
      }
      output, reqs, replies, frames, cut :=
        Serve(stream, hello, sent.(data := []), allowwrite, buf, sha1, env, output, w, reqs, replies, frames);
    }

    /** connproc's loop over the requests after the hello, extending the
        exchange log `reqs0`/`replies0` and the bytes `output0` written
        after `w`. */
    method Serve(stream: seq<byte>, hello: Vmsg, prev: Vmsg, allowwrite: bool, buf: array<byte>,
                 sha1: seq<byte> -> seq<byte>, env: Env, output0: seq<byte>, ghost w: seq<byte>,
                 ghost reqs0: seq<Vmsg>, ghost replies0: seq<Vmsg>, ghost frames0: seq<seq<byte>>)
      returns (output: seq<byte>, ghost reqs: seq<Vmsg>, ghost replies: seq<Vmsg>, ghost frames: seq<seq<byte>>,
               ghost cut: bool)
      requires Valid() && buf.Length == Datamax + 8 && buf !in mem.Arrays() && env.Valid() && Sha1(sha1)
      requires |reqs0| == |replies0| >= 1 && FramesOf(replies0, frames0)
      requires Emitted(output0, w, frames0, false) && Logged(reqs0, replies0, sha1)
      modifies this`state, diskhisto, buf, d`datafile, d`datafilesize, d`indexfile, d`nblocks, mem, mem.Arrays()
      ensures Valid() && fresh(mem.Arrays() - old(mem.Arrays()))
      ensures |replies| <= |reqs| <= |replies| + 1 && (cut ==> |reqs| == |replies|)
      ensures |replies| >= 1 && reqs[0] == reqs0[0] && replies[0] == replies0[0]
      ensures FramesOf(replies, frames) && Emitted(output, w, frames, cut)
      ensures Logged(reqs, replies, sha1)
      ensures (!allowwrite || old(state) != Srunning) ==> unchanged(d)
      ensures old(d.datafile) <= d.datafile
      ensures state == Srunning ==> old(state) == Srunning
      ensures old(state) == Sclosing ==> state == Sclosing
    {
      output, reqs, replies, frames, cut := output0, reqs0, replies0, frames0, false;
      var sent, base, input := prev, hello, stream;
      var k: nat := 1;
      var go := true;
      while go
        invariant Valid() && fresh(mem.Arrays() - old(mem.Arrays())) && buf !in mem.Arrays()
        invariant |replies| <= |reqs| <= |replies| + 1 && (cut ==> |reqs| == |replies|) && (go ==> |reqs| == |replies| && !cut)
        invariant |replies| >= 1 && reqs[0] == reqs0[0] && replies[0] == replies0[0]
        invariant FramesOf(replies, frames) && Emitted(output, w, frames, cut)
        invariant Logged(reqs, replies, sha1)
        invariant (!allowwrite || old(state) != Srunning) ==> unchanged(d)
        invariant old(d.datafile) <= d.datafile
        invariant state == Srunning ==> old(state) == Srunning
        invariant old(state) == Sclosing ==> state == Sclosing
        decreases |input|, go
      {
        var got, req, reply, out, wok, last, frame, rest;
        got, req, reply, out, wok, last, sent, frame, rest :=
          Turn(input, base, sent.(data := []), allowwrite, buf, sha1, env.closing(k), env.allocs(k), env.sends(k), env.ios(k));
        if !got {
          go := false;
        } else if !reply {
          reqs, go := reqs + [req], false;
        } else {
          LoggedStep(reqs, replies, req, out, sha1);
          FramesOfStep(replies, frames, out);
          EmittedStep(output, w, frames, frame, ReplyFrame(out), wok);
          reqs, replies, frames := reqs + [req], replies + [out], frames + [ReplyFrame(out)];
          output, cut := output + frame, !wok;
          if !wok || last {
            go := false;
          } else {
            base, input, k := req, rest, k + 1;
          }
        }
      }
    }
  }
}
