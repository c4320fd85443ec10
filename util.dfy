/** The helpers of util.c: roundup, the hex digits of a score, and the
    read and write loops that retry short transfers.  The system calls
    `pread` and `write` are parameters: a function from (bytes wanted,
    file position) to the call's return value. */
module Util {
  import opened Arith
  import opened Fns
  import opened COps
  import opened Dat
  import opened Wrappers
  import opened Seqs
  import Pack

  // ---------------------------------------------------------------------
  // roundup

  predicate IsPow2(x: nat)
  {
    x == 1 || (x >= 2 && x % 2 == 0 && IsPow2(x / 2))
  }

  lemma IsPow2Eight()
    ensures IsPow2(8)
  {
    assert IsPow2(1);
    assert IsPow2(2);
    assert IsPow2(4);
  }

  /** The exponent of a power of two. */
  function Log2(x: nat): (k: nat)
    requires IsPow2(x)
    ensures Pow2(k) == x
  {
    if x == 1 then 0 else 1 + Log2(x / 2)
  }

  /** roundup with a 64-bit mask: `(n + round - 1) & ~(round - 1)` over `uvlong`. */
  function Roundup(n: nat, round: nat): (r: nat)
    requires n < 0x1_0000_0000_0000_0000 && round < 0x1_0000_0000 && IsPow2(round)
    ensures n + round - 1 < 0x1_0000_0000_0000_0000 ==>
              r % round == 0 && n <= r < n + round
  {
    RoundupFacts(n, round);
    AndNot(U64(n + round - 1), round - 1)
  }

  lemma RoundupFacts(n: nat, round: nat)
    requires IsPow2(round)
    ensures n + round - 1 < 0x1_0000_0000_0000_0000 ==>
              var r := AndNot(U64(n + round - 1), round - 1);
              r % round == 0 && n <= r < n + round
  {
    if n + round - 1 < 0x1_0000_0000_0000_0000 {
      var x := n + round - 1;
      U64Small(x);
      AndNotLowMask(x, Log2(round));
      RoundDown(x, round);
    }
  }

  lemma RoundDown(x: nat, m: nat)
    requires m > 0
    ensures (x - x % m) % m == 0 && x - x % m == (x / m) * m
  {
    DivMulAdd(x / m, 0, m);
  }

  /** No multiple of `round` lies in `[n, Roundup(n, round))`: the result is
      the smallest multiple of `round` that is at least `n`. */
  lemma RoundupSmallest(n: nat, round: nat, y: nat)
    requires n < 0x1_0000_0000_0000_0000 && round < 0x1_0000_0000 && IsPow2(round)
    requires n + round - 1 < 0x1_0000_0000_0000_0000
    requires y % round == 0 && n <= y
    ensures Roundup(n, round) <= y
  {
    var r := Roundup(n, round);
    if y < r {
      MultiplesApart(y, r, round);
    }
  }

  /** Two distinct multiples of `m` are at least `m` apart. */
  lemma MultiplesApart(a: nat, b: nat, m: nat)
    requires m > 0 && a % m == 0 && b % m == 0 && a < b
    ensures b - a >= m
  {
    RoundDown(a, m);
    RoundDown(b, m);
    var d := b / m - a / m;
    assert d * m == b - a;
    if d < 1 {
      MulLeq(d, 0, m);
    } else {
      MulLower(d, m);
    }
  }

  /** roundup as written: `round` is a 32-bit `uint`, so `~(round - 1)` is a
      32-bit mask which C zero-extends before the `&` with the 64-bit sum. */
  function RoundupAsWritten(n: nat, round: nat): nat
    requires n < 0x1_0000_0000_0000_0000 && round < 0x1_0000_0000 && IsPow2(round)
  {
    And(U64(n + round - 1), U32(0xffff_ffff - (round - 1)))
  }

  /** The 32-bit mask clears the high half: 2^32 rounded up to a multiple of
      8 comes out below 2^32, where Roundup gives 2^32 itself. */
  lemma RoundupAsWrittenTruncates()
    ensures RoundupAsWritten(0x1_0000_0000, 8) < 0x1_0000_0000
    ensures Roundup(0x1_0000_0000, 8) == 0x1_0000_0000
  {
    IsPow2Eight();
    AndAtMost(U64(0x1_0000_0000 + 7), U32(0xffff_ffff - 7));
    var r := Roundup(0x1_0000_0000, 8);
    RoundupSmallest(0x1_0000_0000, 8, 0x1_0000_0000);
  }

  // ---------------------------------------------------------------------
  // hex and scorestr

  const HexDigits: string := "0123456789abcdef"

  /** hex: the lower-case hex digit of a nibble; any other value is fatal
      (None). */
  function Hex(c: byte): (r: Option<char>)
    ensures r.Some? <==> c < 16
  {
    if c <= 9 then Some(('0' as int + c) as char)
    else if c <= 0xf then Some(('a' as int + c - 0xa) as char)
    else None
  }

  /** The digit of nibble `c` is character `c` of "0123456789abcdef". */
  lemma HexDigit(c: byte)
    requires c < 16
    ensures Hex(c).value == HexDigits[c]
  {
  }

  /** The nibble a lower-case hex digit stands for. */
  function Unhex(ch: char): (r: Option<nat>)
    ensures r.Some? ==> r.value < 16
  {
    if '0' <= ch <= '9' then Some(ch as int - '0' as int)
    else if 'a' <= ch <= 'f' then Some(ch as int - 'a' as int + 10)
    else None
  }

  /** Each nibble has its own digit, and the digit gives the nibble back. */
  lemma UnhexHex(c: byte)
    requires c < 16
    ensures Unhex(Hex(c).value) == Some(c as nat)
  {
  }

  /** The 40 hex digits of a score, high nibble of each byte first. */
  function ScoreHex(score: seq<byte>): (s: seq<char>)
    ensures |s| == 2 * |score|
  {
    if score == [] then []
    else
      var b := score[|score| - 1];
      ScoreHex(score[..|score| - 1]) + [Hex(b / 16).value, Hex(b % 16).value]
  }

  /** Byte `i` of the score gives hex digits `2i` (high nibble) and `2i+1`. */
  lemma {:induction false} ScoreHexAt(score: seq<byte>, i: nat)
    requires i < |score|
    ensures ScoreHex(score)[2 * i] == HexDigits[score[i] / 16]
    ensures ScoreHex(score)[2 * i + 1] == HexDigits[score[i] % 16]
  {
    if i < |score| - 1 {
      ScoreHexAt(score[..|score| - 1], i);
    } else {
      Nibbles(score[i]);
      HexDigit(score[i] / 16);
      HexDigit(score[i] % 16);
    }
  }

  /** Reads a string of hex digit pairs back into bytes. */
  function ParseHex(s: seq<char>): (r: Option<seq<byte>>)
    ensures r.Some? ==> 2 * |r.value| == |s|
  {
    if s == [] then Some([])
    else if |s| == 1 then None
    else
      var init, hi, lo := ParseHex(s[..|s| - 2]), Unhex(s[|s| - 2]), Unhex(s[|s| - 1]);
      if init.Some? && hi.Some? && lo.Some? then Some(init.value + [16 * hi.value + lo.value])
      else None
  }

  /** The hex digits of a score read back to the score. */
  lemma {:induction false} ParseScoreHex(score: seq<byte>)
    ensures ParseHex(ScoreHex(score)) == Some(score)
  {
    if score != [] {
      var init, b := score[..|score| - 1], score[|score| - 1];
      var p := ScoreHex(init);
      var hi, lo := Hex(b / 16).value, Hex(b % 16).value;
      assert ScoreHex(score) == p + [hi, lo];
      ParseScoreHex(init);
      Nibbles(b);
      UnhexHex(b / 16);
      UnhexHex(b % 16);
      ParseHexStep(p, init, hi, lo, b / 16, b % 16, b);
      Snoc(score);
    }
  }

  /** One more pair of digits reads as one more byte. */
  lemma ParseHexStep(p: seq<char>, init: seq<byte>, hi: char, lo: char, x: nat, y: nat, c: byte)
    requires ParseHex(p) == Some(init) && Unhex(hi) == Some(x) && Unhex(lo) == Some(y)
    requires c == 16 * x + y
    ensures ParseHex(p + [hi, lo]) == Some(init + [c])
  {
    var s := p + [hi, lo];
    assert s[..|s| - 2] == p;
  }

  /** A byte is its high nibble times 16 plus its low nibble. */
  lemma Nibbles(b: byte)
    ensures b / 16 < 16 && b % 16 < 16 && 16 * (b / 16) + b % 16 == b
  {
  }

  /** scorestr: fills a buffer with the 40 hex digits of `score` and a NUL. */
  method Scorestr(score: seq<byte>) returns (s: seq<char>)
    requires |score| == Scoresize
    ensures s == ScoreHex(score) + ['\0']
  {
    var buf := new char[2 * Scoresize + 1];
    for i := 0 to Scoresize
      invariant buf[..2 * i] == ScoreHex(score[..i])
    {
      assert score[..i + 1][..i] == score[..i];
      Nibbles(score[i]);
      buf[2 * i] := Hex(score[i] / 16).value;
      buf[2 * i + 1] := Hex(score[i] % 16).value;
      assert buf[..2 * i + 2] == buf[..2 * i] + [buf[2 * i], buf[2 * i + 1]];
    }
    buf[2 * Scoresize] := '\0';
    assert score[..Scoresize] == score;
    assert buf[..] == buf[..2 * Scoresize] + [buf[2 * Scoresize]];
    s := buf[..];
  }

  // ---------------------------------------------------------------------
  // preadn and writen

  /** What `pread` may return for `want` bytes at position `at` of `file`:
      an error (negative), or a count no larger than `want` of bytes that
      exist, which is 0 only at end of file or when nothing is asked for. */
  ghost predicate ReadStep(file: seq<byte>, pread: (nat, nat) -> int)
  {
    forall want: nat, at: nat ::
      pread(want, at) <= want && (pread(want, at) > 0 ==> at + pread(want, at) <= |file|) &&
      (want > 0 && at < |file| ==> pread(want, at) != 0)
  }

  /** preadn with the destination advanced past the bytes already read: a
      total of at most `count` bytes, the bytes of `file` from `offset` on,
      short only on a 0-byte read, which happens at end of file, negative
      on the first error. */
  method Preadn(file: seq<byte>, buf: array<byte>, count: nat, offset: nat, pread: (nat, nat) -> int)
    returns (r: int, have: nat)
    requires count <= buf.Length && ReadStep(file, pread)
    modifies buf
    ensures r <= count && have <= count
    ensures r >= 0 ==> r == have && (r < count ==> pread(count - r, offset + r) == 0)
    ensures r >= 0 && r < count ==> offset + r >= |file|
    ensures r < 0 ==> pread(count - have, offset + have) == r
    ensures have > 0 ==> offset + have <= |file| && buf[..have] == file[offset..offset + have]
    ensures buf[have..] == old(buf[have..])
  {
    ghost var b0 := buf[..];
    have := 0;
    while count > have
      invariant have <= count && Filled(buf[..], b0, file, offset, have)
      decreases count - have
    {
      var k := pread(count - have, offset + have);
      if k < 0 {
        return k, have;
      }
      if k == 0 {
        break;
      }
      CopyChunk(buf, b0, file, offset, have, k);
      have := have + k;
    }
    r := have;
  }

  /** One pread's `k` bytes of `file` stored at `buf+have`. */
  method CopyChunk(buf: array<byte>, ghost b0: seq<byte>, file: seq<byte>, offset: nat, have: nat, k: nat)
    requires Filled(buf[..], b0, file, offset, have) && have + k <= buf.Length && offset + have + k <= |file|
    modifies buf
    ensures Filled(buf[..], b0, file, offset, have + k)
  {
    ghost var b1 := buf[..];
    var chunk := file[offset + have..offset + have + k];
    Pack.CopyIn(buf, have, chunk);
    ReadStepAppend(buf[..], b1, b0, file, offset, have, k);
  }

  /** The first `have` bytes of `s` are those of `file` at `offset`; the rest
      are those of `s0`. */
  ghost predicate Filled(s: seq<byte>, s0: seq<byte>, file: seq<byte>, offset: nat, have: nat)
  {
    have <= |s| == |s0| && (have > 0 ==> offset + have <= |file| && s[..have] == file[offset..offset + have]) &&
    s[have..] == s0[have..]
  }

  lemma ReadStepAppend(s: seq<byte>, s1: seq<byte>, s0: seq<byte>, file: seq<byte>, offset: nat, have: nat, k: nat)
    requires Filled(s1, s0, file, offset, have) && have + k <= |s0| && offset + have + k <= |file|
    requires s == s1[..have] + file[offset + have..offset + have + k] + s1[have + k..]
    ensures Filled(s, s0, file, offset, have + k)
  {
    var chunk := file[offset + have..offset + have + k];
    assert s[..have + k] == s1[..have] + chunk;
    assert file[offset..offset + have + k] == file[offset..offset + have] + chunk;
    assert s1[have + k..] == s1[have..][k..];
    assert s0[have + k..] == s0[have..][k..];
  }

  /** preadn as written: every `pread` stores at the start of the buffer,
      so a second partial read overwrites the first. */
  function PreadnAsWritten(file: seq<byte>, b: seq<byte>, count: nat, offset: nat,
                           pread: (nat, nat) -> int, have: nat): (res: (int, seq<byte>))
    requires have <= count <= |b| && ReadStep(file, pread)
    ensures |res.1| == |b|
    decreases count - have
  {
    if count <= have then (have, b)
    else
      var k := pread(count - have, offset + have);
      if k < 0 then (k, b)
      else if k == 0 then (have, b)
      else PreadnAsWritten(file, file[offset + have..offset + have + k] + b[k..], count, offset, pread, have + k)
  }

  /** A `pread` that returns one byte at a time from a two-byte file. */
  function OneAtATime(want: nat, at: nat): int
  {
    if want > 0 && at < 2 then 1 else 0
  }

  /** Two one-byte reads of the file [1, 2]: as written, preadn reports 2
      bytes but leaves [2, 0] in the buffer; Preadn leaves [1, 2]. */
  lemma PreadnAsWrittenOverwrites()
    ensures ReadStep([1, 2], OneAtATime)
    ensures PreadnAsWritten([1, 2], [0, 0], 2, 0, OneAtATime, 0) == (2, [2, 0])
    ensures [2, 0] != [1, 2][0..2]
  {
    var f: seq<byte> := [1, 2];
    assert PreadnAsWritten(f, [0, 0], 2, 0, OneAtATime, 0)
        == PreadnAsWritten(f, f[0..1] + [0, 0][1..], 2, 0, OneAtATime, 1);
    assert f[0..1] + [0, 0][1..] == [1, 0];
    assert PreadnAsWritten(f, [1, 0], 2, 0, OneAtATime, 1)
        == PreadnAsWritten(f, f[1..2] + [1, 0][1..], 2, 0, OneAtATime, 2);
    assert f[1..2] + [1, 0][1..] == [2, 0];
    assert [1, 2][0..2][0] == 1;
  }

  /** What `write` may return when asked for `want > 0` bytes, `at` being the
      number written before: an error (negative) or a count in [1, want]. */
  ghost predicate WriteStep(write: (nat, nat) -> int)
  {
    forall want: nat, at: nat :: want > 0 ==> write(want, at) != 0 && write(want, at) <= want
  }

  /** writen: writes the first `len` bytes of `buf`; `out` is what reached
      the descriptor.  All of them and `len` on success, a prefix of them and
      the negative return value on the first error. */
  method Writen(buf: seq<byte>, len: nat, write: (nat, nat) -> int) returns (r: int, out: seq<byte>)
    requires len <= |buf| && WriteStep(write)
    ensures r >= 0 ==> r == len && out == buf[..len]
    ensures r < 0 ==> |out| < len && out == buf[..|out|] && write(len - |out|, |out|) == r
  {
    var n: nat := len;
    var pos: nat := 0;
    out := [];
    while n > 0
      invariant pos + n == len && out == buf[..pos]
      decreases n
    {
      var w := write(n, pos);
      if w < 0 {
        return w, out;
      }
      assert buf[..pos + w] == buf[..pos] + buf[pos..pos + w];
      out := out + buf[pos..pos + w];
      n := n - w;
      pos := pos + w;
    }
    r := len;
  }
}
