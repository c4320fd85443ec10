/** proto.c: the framing of venti messages.  A frame is a 16-bit big-endian
    `msize` and `msize` bytes of body: op, tag and the op's fields.  The
    reader parses what a client sends (T-messages), the writer lays out what
    the server answers (R-messages), both through the shared buffer of
    Datamax+8 bytes that connproc hands them. */
module Proto {
  import opened Arith
  import opened Fns
  import opened Dat
  import opened Wrappers
  import Pack
  import Util
  import Seqs

  /** struct Vmsg.  `data` empty stands for nil; a message is
      filled in field by field, so fields an op does not use keep the values
      of the message that was last read into (or written from) it. */
  datatype Vmsg = Vmsg(msize: nat, op: byte, tag: byte, score: seq<byte>, blockType: byte, count: nat,
                       msg: seq<byte>, data: seq<byte>, dsize: nat)

  /** The message connproc starts from (its `in` and `out` live on the stack
      and are filled before use). */
  const Blank := Vmsg(0, 0, 0, [], 0, 0, [], [], 0)

  /** The bytes of a C string literal (every character below 256). */
  function Latin1(s: string): (b: seq<byte>)
    ensures |b| == |s|
  {
    seq(|s|, i requires 0 <= i < |s| => (s[i] as int) % 256)
  }

  // ---------------------------------------------------------------------
  // readstr, readmem, writestr

  /** A string on the wire: a 16-bit length, then the bytes. */
  function StrBytes(s: seq<byte>): seq<byte>
  {
    BEBytes(|s|, 2) + s
  }

  /** A readmem field: an 8-bit length, then the bytes. */
  function MemBytes(s: seq<byte>): seq<byte>
    requires |s| < 256
  {
    [|s|] + s
  }

  /** readstr at cursor `p` of a body `buf` (its end is `|buf|`): the cursor
      past the 16-bit length and the bytes it counts, and the string when a
      destination of `slen` bytes is given.  Only then are the bytes
      checked against the end of the body, and the string must leave room
      for its NUL. */
  function ReadStr(buf: seq<byte>, p: nat, slen: Option<nat>): (r: Option<(nat, seq<byte>)>)
    ensures r.Some? ==> p + 2 <= |buf| && r.value.0 == p + 2 + BE(buf[p..p + 2])
    ensures r.Some? && slen.Some? ==>
              r.value.0 <= |buf| && |r.value.1| < slen.value && buf[p..r.value.0] == StrBytes(r.value.1)
    ensures r.None? ==> p + 2 > |buf| || slen.Some?
  {
    if p + 2 > |buf| then None
    else
      var len := Get16(buf[p..]);
      assert buf[p..][..2] == buf[p..p + 2];
      if slen.Some? && (p + 2 + len > |buf| || len + 1 > slen.value) then None
      else if slen.None? then Some((p + 2 + len, []))
      else
        var s := buf[p + 2..p + 2 + len];
        assert BEBytes(len, 2) == buf[p..p + 2] by {
          BEBytesOfBE(buf[p..p + 2]);
        }
        assert buf[p..p + 2 + len] == buf[p..p + 2] + s;
        Some((p + 2 + len, s))
  }

  /** readmem at cursor `p`: the cursor past an 8-bit length and the bytes
      it counts, which must lie inside the body. */
  function ReadMem(buf: seq<byte>, p: nat): (r: Option<nat>)
    ensures r.Some? <==> p + 1 <= |buf| && p + 1 + buf[p] <= |buf|
    ensures r.Some? ==> r.value == p + 1 + buf[p] && buf[p..r.value] == MemBytes(buf[p + 1..r.value])
  {
    if p + 1 > |buf| then None
    else
      var len := Get8(buf[p..]);
      if p + 1 + len > |buf| then None
      else
        assert buf[p..p + 1 + len] == [buf[p]] + buf[p + 1..p + 1 + len];
        Some(p + 1 + len)
  }

  /** A string written at position `|pre|` reads back, with a destination
      that has room for it and its NUL, or without one. */
  lemma ReadStrBack(pre: seq<byte>, s: seq<byte>, post: seq<byte>, slen: Option<nat>)
    requires |s| < 0x1_0000 && (slen.Some? ==> |s| < slen.value)
    ensures ReadStr(pre + StrBytes(s) + post, |pre|, slen) ==
              Some((|pre| + 2 + |s|, if slen.Some? then s else []))
  {
    var buf := pre + StrBytes(s) + post;
    var p := |pre|;
    assert buf[p..][..2] == BEBytes(|s|, 2);
    Pow2Values();
    BEExact(|s|, 2);
    assert buf[p + 2..p + 2 + |s|] == s;
  }

  /** A readmem field reads back. */
  lemma ReadMemBack(pre: seq<byte>, s: seq<byte>, post: seq<byte>)
    requires |s| < 256
    ensures ReadMem(pre + MemBytes(s) + post, |pre|) == Some(|pre| + 1 + |s|)
  {
    var buf := pre + MemBytes(s) + post;
    assert buf[|pre|] == |s|;
  }

  /** writestr: the 16-bit length of `s` and its bytes at `at`; the length
      it reports is `2 + strlen`. */
  method WriteStr(buf: array<byte>, at: nat, s: seq<byte>) returns (len: nat)
    requires at + 2 + |s| <= buf.Length
    modifies buf
    ensures len == 2 + |s|
    ensures buf[..] == old(buf[..at]) + StrBytes(s) + old(buf[at + len..])
  {
    ghost var b0 := buf[..];
    Put16(buf, at, |s|);
    ghost var b1 := buf[..];
    Pack.CopyIn(buf, at + 2, s);
    len := 2 + |s|;
    Pack.Stitch(buf[..], b1, b0[..at] + BEBytes(|s|, 2), s, b0[at + 2..]);
    assert b0[at + 2..][|s|..] == b0[at + len..];
  }

  // ---------------------------------------------------------------------
  // readvmsg

  /** Whether the hello body parses: version and uid strings, the strength
      byte, then the crypto and codec fields. */
  predicate HelloParses(body: seq<byte>)
  {
    var a := ReadStr(body, 2, None);
    a.Some? &&
    var b := ReadStr(body, a.value.0, None);
    b.Some? && b.value.0 + 1 <= |body| &&
    var c := ReadMem(body, b.value.0 + 1);
    c.Some? && ReadMem(body, c.value).Some?
  }

  /** The bodies readvmsg accepts: a hello that parses, a read of exactly
      24 bytes after op and tag, a write of at least 4 (whose buffer could be
      allocated), and ping, sync and goodbye whatever follows. */
  predicate Accepts(body: seq<byte>, allocOk: bool)
    requires |body| >= 2
  {
    var op := body[0];
    if op == Thello then HelloParses(body)
    else if op == Tread then |body| == 2 + Scoresize + 1 + 1 + 2
    else if op == Twrite then |body| >= 6 && allocOk
    else op == Tping || op == Tsync || op == Tgoodbye
  }

  /** The message readvmsg leaves behind for an accepted body: msize, op
      and tag always, no data unless a write; the score, type and count of a
      read; the type and the payload after 3 reserved bytes of a write.
      Every other field is that of `m`. */
  predicate Fills(body: seq<byte>, m: Vmsg, r: Vmsg)
    requires |body| >= 2
  {
    var base := m.(msize := |body|, op := body[0], tag := body[1], data := []);
    if body[0] == Tread && |body| == 26 then
      r == base.(score := body[2..22], blockType := body[22], count := BE(body[24..26]))
    else if body[0] == Twrite && |body| >= 6 then
      r == base.(blockType := body[2], dsize := |body| - 6, data := body[6..])
    else r == base
  }

  /** The body part of readvmsg on the `msize` bytes at the start of `buf`. */
  method ParseBody(buf: array<byte>, msize: nat, m: Vmsg, allocOk: bool) returns (ok: bool, r: Vmsg)
    requires 2 <= msize <= buf.Length
    ensures ok <==> Accepts(buf[..msize], allocOk)
    ensures ok ==> Fills(buf[..msize], m, r)
  {
    var body := buf[..msize];
    var p: nat := 0;
    r := m.(msize := msize);
    r := r.(op := Get8(body[p..]));
    p := p + 1;
    r := r.(tag := Get8(body[p..]));
    p := p + 1;
    r := r.(data := []);
    if r.op == Thello {
      ok := ParseHello(body);
    } else if r.op == Tread {
      if p + Scoresize + 1 + 1 + 2 != msize {
        return false, r;
      }
      r := r.(score := body[p..p + Scoresize]);
      p := p + Scoresize;
      r := r.(blockType := Get8(body[p..]));
      p := p + 1;
      p := p + 1;
      r := r.(count := Get16(body[p..]));
      assert body[p..][..2] == body[24..26];
      ok := true;
    } else if r.op == Twrite {
      if p + 1 + 3 > msize {
        return false, r;
      }
      r := r.(blockType := Get8(body[p..]));
      p := p + 1;
      p := p + 3;
      r := r.(dsize := r.msize - 6);
      if !allocOk {
        return false, r;
      }
      r := r.(data := body[p..p + r.dsize]);
      ok := true;
    } else {
      ok := r.op == Tping || r.op == Tsync || r.op == Tgoodbye;
    }
  }

  /** The hello case of readvmsg, cursor by cursor. */
  method ParseHello(body: seq<byte>) returns (ok: bool)
    requires |body| >= 2
    ensures ok <==> HelloParses(body)
  {
    var p: nat := 2;
    var a := ReadStr(body, p, None);
    if a.None? {
      return false;
    }
    p := a.value.0;
    var b := ReadStr(body, p, None);
    if b.None? {
      return false;
    }
    p := b.value.0;
    if p + 1 > |body| {
      return false;
    }
    p := p + 1;
    var c := ReadMem(body, p);
    if c.None? {
      return false;
    }
    p := c.value;
    var d := ReadMem(body, p);
    ok := d.Some?;
  }

  /** Whether the stream starts with a whole frame readvmsg accepts the
      size of: 2 length bytes, a length below 8+Datamax and at least 2, and
      that many bytes. */
  predicate Framed(input: seq<byte>)
  {
    |input| >= 2 && 2 <= BE(input[..2]) < 8 + Datamax && 2 + BE(input[..2]) <= |input|
  }

  /** The body of the first frame of the stream. */
  function Body(input: seq<byte>): (body: seq<byte>)
    requires Framed(input)
    ensures |body| >= 2
  {
    input[2..2 + BE(input[..2])]
  }

  /** fread of `n` bytes into the start of `buf`: all of them or failure. */
  method Fread(input: seq<byte>, buf: array<byte>, n: nat) returns (ok: bool, rest: seq<byte>)
    requires n <= buf.Length
    modifies buf
    ensures ok <==> n <= |input|
    ensures ok ==> buf[..] == input[..n] + old(buf[n..]) && rest == input[n..]
    ensures !ok ==> buf[..] == old(buf[..])
  {
    if |input| < n {
      return false, input;
    }
    Pack.CopyIn(buf, 0, input[..n]);
    ok, rest := true, input[n..];
  }

  /** readvmsg on the stream `input`: the frame's length, then its body
      through `buf`; `rest` is what remains of the stream. */
  method ReadVmsg(input: seq<byte>, m: Vmsg, buf: array<byte>, allocOk: bool)
    returns (ok: bool, r: Vmsg, rest: seq<byte>)
    requires buf.Length == Datamax + 8
    modifies buf
    ensures ok <==> Framed(input) && Accepts(Body(input), allocOk)
    ensures ok ==> Fills(Body(input), m, r) && rest == input[2 + |Body(input)|..]
    ensures ok ==> buf[..|Body(input)|] == Body(input)
  {
    var got, s := Fread(input, buf, 2);
    if !got {
      return false, m, input;
    }
    var msize := Get16(buf[..]);
    assert buf[..2] == input[..2];
    if msize >= 8 + Datamax {
      return false, m, s;
    }
    got, rest := Fread(s, buf, msize);
    if !got {
      return false, m, rest;
    }
    if msize < 2 {
      return false, m, rest;
    }
    assert buf[..msize] == input[2..2 + msize];
    assert rest == input[2 + msize..];
    ok, r := ParseBody(buf, msize, m, allocOk);
  }

  // ---------------------------------------------------------------------
  // What a client sends

  /** A request as the venti protocol defines it. */
  datatype Request =
    | Hello(version: seq<byte>, uid: seq<byte>, strength: byte, crypto: seq<byte>, codec: seq<byte>)
    | Read(score: seq<byte>, blockType: byte, count: nat)
    | Write(blockType: byte, data: seq<byte>)
    | Ping | Sync | Goodbye

  predicate ValidRequest(q: Request)
  {
    match q
    case Hello(v, u, _, cr, co) => |v| < 0x1_0000 && |u| < 0x1_0000 && |cr| < 256 && |co| < 256
    case Read(score, _, count) => |score| == Scoresize && count < 0x1_0000
    case Write(_, data) => |data| <= Datamax
    case _ => true
  }

  function OpOf(q: Request): byte
  {
    match q
    case Hello(_, _, _, _, _) => Thello
    case Read(_, _, _) => Tread
    case Write(_, _) => Twrite
    case Ping => Tping
    case Sync => Tsync
    case Goodbye => Tgoodbye
  }

  /** The body of a request with tag `tag`: op, tag and the fields, with
      zero bytes for the reserved ones. */
  function RequestBody(tag: byte, q: Request): (b: seq<byte>)
    requires ValidRequest(q)
    ensures |b| >= 2 && b[0] == OpOf(q) && b[1] == tag
  {
    [OpOf(q), tag] +
    match q
    case Hello(v, u, st, cr, co) => StrBytes(v) + StrBytes(u) + [st] + MemBytes(cr) + MemBytes(co)
    case Read(score, t, count) => score + [t, 0] + BEBytes(count, 2)
    case Write(t, data) => [t, 0, 0, 0] + data
    case _ => []
  }

  /** A frame: the body's 16-bit length, then the body. */
  function Frame(body: seq<byte>): seq<byte>
  {
    BEBytes(|body|, 2) + body
  }

  /** A frame of a body of 2 to 8+Datamax-1 bytes is read as that body and
      leaves the rest of the stream. */
  lemma FrameBack(body: seq<byte>, rest: seq<byte>)
    requires 2 <= |body| < 8 + Datamax
    ensures Framed(Frame(body) + rest) && Body(Frame(body) + rest) == body
    ensures (Frame(body) + rest)[2 + |body|..] == rest
  {
    var input := Frame(body) + rest;
    assert input[..2] == BEBytes(|body|, 2);
    Pow2Values();
    BEExact(|body|, 2);
  }

  /** Every request a client frames is accepted (a write when its buffer can
      be allocated) and read back with its own fields. */
  lemma RequestBack(tag: byte, q: Request, m: Vmsg, r: Vmsg, allocOk: bool)
    requires ValidRequest(q)
    ensures Accepts(RequestBody(tag, q), allocOk) <==> (q.Write? ==> allocOk)
    ensures Fills(RequestBody(tag, q), m, r) ==>
              r.op == OpOf(q) && r.tag == tag && r.msize == |RequestBody(tag, q)| &&
              (q.Read? ==> r.score == q.score && r.blockType == q.blockType && r.count == q.count) &&
              (q.Write? ==> r.blockType == q.blockType && r.data == q.data && r.dsize == |q.data|)
  {
    match q
    case Hello(v, u, st, cr, co) =>
      HelloBack(tag, v, u, st, cr, co);
    case Read(_, _, _) =>
      ReadRequestBack(tag, q, m, r, allocOk);
    case Write(_, _) =>
      WriteRequestBack(tag, q, m, r, allocOk);
    case _ =>
  }

  /** The read case of RequestBack. */
  lemma ReadRequestBack(tag: byte, q: Request, m: Vmsg, r: Vmsg, allocOk: bool)
    requires ValidRequest(q) && q.Read?
    ensures Accepts(RequestBody(tag, q), allocOk)
    ensures Fills(RequestBody(tag, q), m, r) ==>
              r.op == OpOf(q) && r.tag == tag && r.msize == |RequestBody(tag, q)| &&
              r.score == q.score && r.blockType == q.blockType && r.count == q.count
  {
    var b := RequestBody(tag, q);
    assert b[2..22] == q.score && b[22] == q.blockType && b[24..26] == BEBytes(q.count, 2);
    Pow2Values();
    BEExact(q.count, 2);
  }

  /** The write case of RequestBack. */
  lemma WriteRequestBack(tag: byte, q: Request, m: Vmsg, r: Vmsg, allocOk: bool)
    requires ValidRequest(q) && q.Write?
    ensures Accepts(RequestBody(tag, q), allocOk) <==> allocOk
    ensures Fills(RequestBody(tag, q), m, r) ==>
              r.op == OpOf(q) && r.tag == tag && r.msize == |RequestBody(tag, q)| &&
              r.blockType == q.blockType && r.data == q.data && r.dsize == |q.data|
  {
    var b := RequestBody(tag, q);
    assert b[6..] == q.data;
  }

  lemma HelloBack(tag: byte, v: seq<byte>, u: seq<byte>, st: byte, cr: seq<byte>, co: seq<byte>)
    requires |v| < 0x1_0000 && |u| < 0x1_0000 && |cr| < 256 && |co| < 256
    ensures HelloParses(RequestBody(tag, Hello(v, u, st, cr, co)))
  {
    var b := RequestBody(tag, Hello(v, u, st, cr, co));
    assert b == [Thello as byte, tag] + StrBytes(v) + StrBytes(u) + [st] + MemBytes(cr) + MemBytes(co);
    HelloFieldsParse([Thello as byte, tag], StrBytes(v), StrBytes(u), [st], MemBytes(cr), MemBytes(co), v, u, cr, co);
  }

  /** The fields of a hello, laid out after op and tag, parse. */
  lemma HelloFieldsParse(p: seq<byte>, x: seq<byte>, y: seq<byte>, s: seq<byte>, c: seq<byte>, o: seq<byte>,
                         v: seq<byte>, u: seq<byte>, cr: seq<byte>, co: seq<byte>)
    requires |p| == 2 && |s| == 1 && |v| < 0x1_0000 && |u| < 0x1_0000 && |cr| < 256 && |co| < 256
    requires x == StrBytes(v) && y == StrBytes(u) && c == MemBytes(cr) && o == MemBytes(co)
    ensures HelloParses(p + x + y + s + c + o)
  {
    var b := p + x + y + s + c + o;
    var q := p + x;
    Seqs.AssocRight(q, y + s, c);
    Seqs.AssocRight(q, y, s);
    Seqs.AssocRight(q, (y + s) + c, o);
    ReadStrBack(p, v, ((y + s) + c) + o, None);
    Seqs.AssocRight(q + y, s + c, o);
    Seqs.AssocRight(q + y, s, c);
    ReadStrBack(q, u, (s + c) + o, None);
    ReadMemBack(q + y + s, cr, o);
    assert b + [] == b;
    ReadMemBack(q + y + s + c, co, []);
  }

  /** A read is accepted only as 24 bytes after op and tag, which are
      exactly the layout of the read's score, type, reserved byte and
      count. */
  lemma ReadIsRequest(body: seq<byte>, m: Vmsg, r: Vmsg)
    requires |body| >= 2 && body[0] == Tread && Accepts(body, true) && Fills(body, m, r)
    ensures body == RequestBody(body[1], Read(r.score, r.blockType, r.count))[23 := body[23]]
  {
    var q := Read(r.score, r.blockType, r.count);
    assert r.count < 0x1_0000 && |r.score| == Scoresize;
    var w := body[24..26];
    BEBytesOfBE(w);
    var e := RequestBody(body[1], q)[23 := body[23]];
    assert e == [body[0], body[1]] + body[2..22] + [body[22], body[23]] + w;
    assert body == [body[0], body[1]] + body[2..22] + [body[22], body[23]] + w;
  }

  /** readvmsg accepts no op it does not know. */
  lemma AcceptsKnownOps(body: seq<byte>, allocOk: bool)
    requires |body| >= 2 && Accepts(body, allocOk)
    ensures body[0] in {Thello, Tread, Twrite, Tping, Tsync, Tgoodbye}
  {
  }

  // ---------------------------------------------------------------------
  // writevmsg

  const Anonymous: seq<byte> := Latin1("anonymous")

  predicate IsReply(op: byte)
  {
    op == Rhello || op == Rread || op == Rwrite || op == Rerror || op == Rping || op == Rsync
  }

  /** What writevmsg needs of a message: a reply op, and fields that fit
      the buffer of Datamax+8 bytes. */
  predicate Writable(m: Vmsg)
  {
    IsReply(m.op) &&
    (m.op == Rread ==> m.dsize <= |m.data| && m.dsize <= Datamax) &&
    (m.op == Rwrite ==> |m.score| == Scoresize) &&
    (m.op == Rerror ==> |m.msg| <= Datamax)
  }

  /** The bytes after op and tag: "anonymous" and two zero bytes for a
      hello, the data of a read, the score of a write, the string of an
      error, nothing for ping and sync. */
  function Payload(m: Vmsg): (p: seq<byte>)
    requires Writable(m)
    ensures |p| <= Datamax + 2
  {
    if m.op == Rhello then StrBytes(Anonymous) + [0, 0]
    else if m.op == Rread then m.data[..m.dsize]
    else if m.op == Rwrite then m.score
    else if m.op == Rerror then StrBytes(m.msg)
    else []
  }

  /** The msize writevmsg computes, op by op. */
  function ReplyMsize(m: Vmsg): (n: nat)
    requires Writable(m)
    ensures n == 2 + |Payload(m)| && n < 0x1_0000
  {
    if m.op == Rhello then 2 + (2 + |Anonymous|) + 2
    else if m.op == Rread then 2 + m.dsize
    else if m.op == Rwrite then 2 + Scoresize
    else if m.op == Rerror then 2 + (2 + |m.msg|)
    else 2
  }

  /** The frame writevmsg sends. */
  function ReplyFrame(m: Vmsg): (f: seq<byte>)
    requires Writable(m)
  {
    BEBytes(ReplyMsize(m), 2) + [m.op, m.tag] + Payload(m)
  }

  /** The sizes writevmsg gives each reply. */
  lemma ReplySizes(m: Vmsg)
    requires Writable(m)
    ensures m.op == Rhello ==> ReplyMsize(m) == 15
    ensures m.op == Rread ==> ReplyMsize(m) == 2 + m.dsize
    ensures m.op == Rwrite ==> ReplyMsize(m) == 22
    ensures m.op == Rerror ==> ReplyMsize(m) == 4 + |m.msg|
    ensures m.op == Rping || m.op == Rsync ==> ReplyMsize(m) == 2
  {
  }

  /** A reply frame reads as its length field, which counts the bytes
      after it, then op, tag and payload. */
  lemma ReplyFrameLayout(m: Vmsg)
    requires Writable(m)
    ensures var f := ReplyFrame(m);
      |f| == 2 + ReplyMsize(m) && BE(f[..2]) == |f| - 2 &&
      f[2] == m.op && f[3] == m.tag && f[4..] == Payload(m)
  {
    var f := ReplyFrame(m);
    assert f[..2] == BEBytes(ReplyMsize(m), 2);
    Pow2Values();
    BEExact(ReplyMsize(m), 2);
  }

  /** A reply frame is what a client reads as a frame: its body is op, tag
      and payload. */
  lemma ReplyFrameIsFrame(m: Vmsg)
    requires Writable(m)
    ensures ReplyFrame(m) == Frame([m.op, m.tag] + Payload(m))
  {
  }

  /** `s` is `s0` with `x` stored at `at`. */
  predicate Wrote(s: seq<byte>, s0: seq<byte>, at: nat, x: seq<byte>)
  {
    at + |x| <= |s0| && s == s0[..at] + x + s0[at + |x|..]
  }

  /** writevmsg's body step: the payload at byte 4 of the buffer. */
  method WritePayload(m: Vmsg, buf: array<byte>) returns (msize: nat)
    requires buf.Length == Datamax + 8 && Writable(m)
    modifies buf
    ensures msize == ReplyMsize(m)
    ensures Wrote(buf[..], old(buf[..]), 4, Payload(m))
  {
    ghost var b0 := buf[..];
    if m.op == Rhello {
      var len := WriteStr(buf, 4, Anonymous);
      ghost var b1 := buf[..];
      Put8(buf, 4 + len, 0);
      ghost var b2 := buf[..];
      Put8(buf, 4 + len + 1, 0);
      Pack.OneByte(0);
      Pack.Stitch(b2, b1, b0[..4] + StrBytes(Anonymous), [0], b0[4 + len..]);
      Pack.Stitch(buf[..], b2, b0[..4] + StrBytes(Anonymous) + [0], [0], b0[4 + len + 1..]);
      assert b0[4 + len..][1..] == b0[4 + len + 1..];
      assert b0[4 + len + 1..][1..] == b0[4 + len + 2..];
      msize := 2 + len + 2;
    } else if m.op == Rread {
      Pack.CopyIn(buf, 4, m.data[..m.dsize]);
      msize := 2 + m.dsize;
    } else if m.op == Rwrite {
      Pack.CopyIn(buf, 4, m.score);
      msize := 2 + Scoresize;
    } else if m.op == Rerror {
      var len := WriteStr(buf, 4, m.msg);
      msize := 2 + len;
    } else {
      msize := 2;
    }
  }

  /** writevmsg's header step: msize, op and tag at bytes 0 to 3. */
  method WriteHeader(buf: array<byte>, msize: nat, op: byte, tag: byte)
    requires buf.Length >= 4
    modifies buf
    ensures Wrote(buf[..], old(buf[..]), 0, BEBytes(msize, 2) + [op, tag])
  {
    ghost var b0 := buf[..];
    Put16(buf, 0, msize);
    ghost var b1 := buf[..];
    Put8(buf, 2, op);
    ghost var b2 := buf[..];
    Put8(buf, 3, tag);
    Pack.OneByte(op);
    Pack.OneByte(tag);
    Pack.Stitch(b2, b1, BEBytes(msize, 2), [op], b0[2..]);
    assert b0[2..][1..] == b0[3..];
    Pack.Stitch(buf[..], b2, BEBytes(msize, 2) + [op], [tag], b0[3..]);
    assert b0[3..][1..] == b0[4..];
  }

  lemma FrameInBuffer(s: seq<byte>, s1: seq<byte>, s0: seq<byte>, h: seq<byte>, p: seq<byte>)
    requires |h| == 4 && Wrote(s1, s0, 4, p) && Wrote(s, s1, 0, h)
    ensures s[..4 + |p|] == h + p && s[4 + |p|..] == s0[4 + |p|..]
  {
    assert s1[4..] == p + s0[4 + |p|..];
  }

  /** writevmsg: lays the reply out in `buf` and writes the `2 + msize`
      bytes of the frame with writen.  `sent` is `m` with its msize set;
      `out` is what reached the connection: the whole frame on success, a
      strict prefix of it otherwise. */
  method WriteVmsg(m: Vmsg, buf: array<byte>, write: (nat, nat) -> int) returns (ok: bool, sent: Vmsg, out: seq<byte>)
    requires buf.Length == Datamax + 8 && Writable(m) && Util.WriteStep(write)
    modifies buf
    ensures sent == m.(msize := ReplyMsize(m))
    ensures buf[..|ReplyFrame(m)|] == ReplyFrame(m) && buf[|ReplyFrame(m)|..] == old(buf[|ReplyFrame(m)|..])
    ensures ok ==> out == ReplyFrame(m)
    ensures !ok ==> |out| < |ReplyFrame(m)| && out == ReplyFrame(m)[..|out|]
  {
    ghost var b0 := buf[..];
    var msize := WritePayload(m, buf);
    ghost var b1 := buf[..];
    WriteHeader(buf, msize, m.op, m.tag);
    FrameInBuffer(buf[..], b1, b0, BEBytes(msize, 2) + [m.op, m.tag], Payload(m));
    sent := m.(msize := msize);
    var n := 2 + msize;
    var r;
    r, out := Util.Writen(buf[..], n, write);
    ok := r == n;
  }
}
