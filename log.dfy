/** The two logs of memventi.c.  The data log holds blocks, each a 27-byte
    header (magic, score, type, size) followed by its data; the index log
    holds one 15-byte record (the first 8 score bytes, type, offset of the
    block) per block.  Both files are opened for appending, so every write
    lands at the current end of its file whatever offset it names.
    `datafilesize` counts the bytes of whole blocks: it grows only once a
    block is written in full. */
module Log {
  import opened Arith
  import opened Fns
  import opened Bits
  import opened Dat
  import opened Wrappers
  import opened Pack
  import opened Index

  /** SHA-1 as a parameter: any function with 20-byte results. */
  ghost predicate Hash(sha1: seq<byte> -> seq<byte>)
  {
    forall x :: |sha1(x)| == Scoresize
  }

  /** The bytes of `x` a write call that returned `w` put on the file:
      none on an error or a zero return, the first `w` otherwise. */
  function Written(x: seq<byte>, w: int): (r: seq<byte>)
    requires w <= |x|
    ensures |r| == Max(w, 0) && r == x[..|r|]
  {
    if w <= 0 then [] else x[..w]
  }

  /** What a `pread` of `count` bytes at `offset` of a regular file returns:
      the bytes up to the end of the file. */
  function PreadFile(f: seq<byte>, count: nat, offset: nat): (r: seq<byte>)
    ensures |r| == (if offset >= |f| then 0 else Min(count, |f| - offset))
    ensures |r| > 0 ==> r == f[offset..offset + |r|]
  {
    if offset >= |f| then [] else f[offset..Min(offset + count, |f|)]
  }

  // ---------------------------------------------------------------------
  // readblock and readiheader

  /** Why readblock fails, in the order it checks. */
  datatype BlockError =
    | OutsideDatafile     // "offset+size lies outside datafile"
    | HeaderEof           // "end of file while reading header"
    | HeaderShort         // "short read on header"
    | BadHeader(e: DHeaderError)  // "parsing header: ..."
    | DataEof             // "end of file while reading data"
    | DataShort           // "short read on data"

  /** readblock: the header and data of the block at `offset` of the data
      file `f` whose whole blocks end at `fsize`.  Only the header has to
      lie below `fsize`; the data is read from the file itself.  A block of
      size 0 reads as "end of file while reading data". */
  function ReadBlock(f: seq<byte>, fsize: nat, offset: nat): (r: Result<(DHeader, seq<byte>), BlockError>)
    ensures r.Ok? ==>
              var (dh, data) := r.value;
              offset + Diskdheadersize <= fsize && offset + Diskdheadersize + dh.size <= |f| &&
              ValidDHeader(dh) && 0 < dh.size <= Datamax &&
              f[offset..offset + Diskdheadersize] == DHeaderBytes(dh) &&
              data == f[offset + Diskdheadersize..offset + Diskdheadersize + dh.size]
    ensures r == Err(OutsideDatafile) <==> offset + Diskdheadersize > fsize
  {
    if offset + Diskdheadersize > fsize then Err(OutsideDatafile)
    else
      var h := PreadFile(f, Diskdheadersize, offset);
      if |h| == 0 then Err(HeaderEof)
      else if |h| != Diskdheadersize then Err(HeaderShort)
      else
        match UnpackDHeader(h)
        case Err(e) => Err(BadHeader(e))
        case Ok(dh) =>
          var data := PreadFile(f, dh.size, offset + Diskdheadersize);
          if |data| == 0 then Err(DataEof)
          else if |data| != dh.size then Err(DataShort)
          else Ok((dh, data))
  }

  /** Why readiheader fails. */
  datatype IHeaderError = IndexEof | IndexShort

  /** readiheader: the index record at `offset` of the index file `f`. */
  function ReadIHeader(f: seq<byte>, offset: nat): (r: Result<IHeader, IHeaderError>)
    ensures r.Ok? <==> offset + Diskiheadersize <= |f|
    ensures r == Err(IndexEof) <==> offset >= |f|
    ensures r.Ok? ==> ValidIHeader(r.value) && IHeaderBytes(r.value) == f[offset..offset + Diskiheadersize]
  {
    var b := PreadFile(f, Diskiheadersize, offset);
    if |b| == 0 then Err(IndexEof)
    else if |b| != Diskiheadersize then Err(IndexShort)
    else Ok(UnpackIHeader(b))
  }

  /** A block appended to a data file whose whole blocks end at its end
      reads back as its header and data. */
  lemma ReadBlockAppended(f: seq<byte>, dh: DHeader, data: seq<byte>)
    requires ValidDHeader(dh) && 0 < |data| == dh.size <= Datamax
    ensures ReadBlock(f + DHeaderBytes(dh) + data, |f| + Diskdheadersize + |data|, |f|) == Ok((dh, data))
  {
    var g := f + DHeaderBytes(dh) + data;
    var o := |f|;
    assert PreadFile(g, Diskdheadersize, o) == DHeaderBytes(dh);
    UnpackPackDHeader(dh, []);
    assert DHeaderBytes(dh) + [] == DHeaderBytes(dh);
    assert PreadFile(g, dh.size, o + Diskdheadersize) == data;
  }

  /** Appending to the data file and growing its whole-block end leaves
      every block that read correctly reading the same. */
  lemma ReadBlockStable(f: seq<byte>, fsize: nat, x: seq<byte>, fsize': nat, offset: nat)
    requires ReadBlock(f, fsize, offset).Ok? && fsize <= fsize'
    ensures ReadBlock(f + x, fsize', offset) == ReadBlock(f, fsize, offset)
  {
    var (dh, data) := ReadBlock(f, fsize, offset).value;
    var o := offset;
    assert PreadFile(f + x, Diskdheadersize, o) == PreadFile(f, Diskdheadersize, o);
    assert PreadFile(f + x, dh.size, o + Diskdheadersize) == PreadFile(f, dh.size, o + Diskdheadersize);
  }

  /** An index record appended at the end of the index file reads back. */
  lemma ReadIHeaderAppended(f: seq<byte>, ih: IHeader, rest: seq<byte>)
    requires ValidIHeader(ih)
    ensures ReadIHeader(f + IHeaderBytes(ih) + rest, |f|) == Ok(ih)
  {
    var g := f + IHeaderBytes(ih) + rest;
    assert PreadFile(g, Diskiheadersize, |f|) == IHeaderBytes(ih);
    UnpackPackIHeader(ih, []);
    assert IHeaderBytes(ih) + [] == IHeaderBytes(ih);
  }

  // ---------------------------------------------------------------------
  // store and indexstore

  /** Why indexstore fails: an error or zero return, or a short write
      (whose bytes stay at the end of the index file). */
  datatype IndexStoreError = WriteFailed | ShortWrite

  /** The files and the counters init and store keep about them. */
  class Disk {
    var datafile: seq<byte>
    var indexfile: seq<byte>
    /** The end of the last whole block of the data file. */
    var datafilesize: nat
    var indexfilesize: nat
    var nblocks: nat

    /** init's opening of the files: the counters start at the file sizes. */
    constructor (datafile: seq<byte>, indexfile: seq<byte>)
      ensures this.datafile == datafile && this.indexfile == indexfile
      ensures datafilesize == |datafile| && indexfilesize == |indexfile| && nblocks == 0
    {
      this.datafile := datafile;
      this.indexfile := indexfile;
      datafilesize := |datafile|;
      indexfilesize := |indexfile|;
      nblocks := 0;
    }

    /** indexstore: packs `ih` and appends it to the index file with one
        write that returns `w`; fails unless all 15 bytes were written.
        indexfilesize is left to the caller. */
    method IndexStore(ih: IHeader, w: int) returns (err: Option<IndexStoreError>)
      requires |ih.indexscore| == Indexscoresize && w <= Diskiheadersize
      modifies this`indexfile
      ensures indexfile == old(indexfile) + Written(IHeaderBytes(ih), w)
      ensures err == (if w <= 0 then Some(WriteFailed) else if w != Diskiheadersize then Some(ShortWrite) else None)
    {
      var ihbuf := new byte[Diskiheadersize](_ => 0);
      PackIHeader(ihbuf, ih);
      assert ihbuf[..] == IHeaderBytes(ih);
      indexfile := indexfile + Written(ihbuf[..], w);
      if w <= 0 {
        return Some(WriteFailed);
      }
      if w != Diskiheadersize {
        return Some(ShortWrite);
      }
      return None;
    }

    /** store: appends the packed header and then the data of a block at
        the end of the data file, with writes that return `w1` and `w2`,
        then its index record with one that returns `w3`.  datafilesize
        grows by 27 + size only once both data writes are whole (and each
        wrote something), before the index record is written; the offset
        of the block is returned only when all three are whole. */
    method Store(dh: DHeader, data: seq<byte>, w1: int, w2: int, w3: int) returns (r: Option<nat>)
      requires ValidDHeader(dh) && |data| == dh.size
      requires w1 <= Diskdheadersize && w2 <= dh.size && w3 <= Diskiheadersize
      modifies this`datafile, this`datafilesize, this`indexfile, this`nblocks
      ensures var whole := w1 == Diskdheadersize && 0 < w2 == dh.size;
              datafile == old(datafile) + Written(DHeaderBytes(dh), w1) + (if w1 == Diskdheadersize then Written(data, w2) else []) &&
              datafilesize == old(datafilesize) + (if whole then Diskdheadersize + dh.size else 0) &&
              indexfile == old(indexfile) + (if whole then Written(IHeaderBytes(ToIHeader(dh, old(datafilesize))), w3) else []) &&
              (r.Some? <==> whole && w3 == Diskiheadersize)
      ensures r.Some? ==> r.value == old(datafilesize)
      ensures nblocks == old(nblocks) + (if r.Some? then 1 else 0)
    {
      var buf := new byte[Diskdheadersize](_ => 0);
      PackDHeader(buf, dh);
      assert buf[..] == DHeaderBytes(dh);
      var offset := datafilesize;
      datafile := datafile + Written(buf[..], w1);
      if w1 <= 0 || w1 != Diskdheadersize {
        return None;
      }
      datafile := datafile + Written(data, w2);
      if w2 <= 0 || w2 != dh.size {
        return None;
      }
      datafilesize := datafilesize + dh.size + Diskdheadersize;
      var ih := ToIHeader(dh, offset);
      var err := IndexStore(ih, w3);
      if err.Some? {
        return None;
      }
      nblocks := nblocks + 1;
      return Some(offset);
    }
  }

  /** The bytes a successful store appends to the data file. */
  function StoredBytes(dh: DHeader, data: seq<byte>): (r: seq<byte>)
    requires ValidDHeader(dh) && |data| == dh.size
    ensures |r| == Diskdheadersize + dh.size
  {
    Written(DHeaderBytes(dh), Diskdheadersize) + Written(data, dh.size)
  }

  /** After a successful store on a data file without dangling bytes, the
      block at the offset store returned reads back as the header and data
      stored. */
  lemma StoreReadsBack(f: seq<byte>, dh: DHeader, data: seq<byte>)
    requires ValidDHeader(dh) && 0 < |data| == dh.size <= Datamax
    ensures ReadBlock(f + StoredBytes(dh, data), |f| + Diskdheadersize + dh.size, |f|) == Ok((dh, data))
  {
    assert StoredBytes(dh, data) == DHeaderBytes(dh) + data;
    assert f + (DHeaderBytes(dh) + data) == f + DHeaderBytes(dh) + data;
    ReadBlockAppended(f, dh, data);
  }

  /** A store keeps every block that read before reading the same. */
  lemma StoreKeepsBlocks(f: seq<byte>, fsize: nat, dh: DHeader, data: seq<byte>, offset: nat)
    requires ValidDHeader(dh) && |data| == dh.size
    requires ReadBlock(f, fsize, offset).Ok? && fsize <= |f|
    ensures ReadBlock(f + StoredBytes(dh, data), fsize + Diskdheadersize + dh.size, offset) == ReadBlock(f, fsize, offset)
  {
    ReadBlockStable(f, fsize, StoredBytes(dh, data), fsize + Diskdheadersize + dh.size, offset);
  }

  /** toiheader keeps what the index needs: the chain and score bits of the
      truncated score are those of the whole score. */
  lemma ToIHeaderIndexes(g: Geometry, dh: DHeader, offset: nat)
    requires g.Valid() && |dh.score| == Scoresize
    ensures Bucket(g, ToIHeader(dh, offset).indexscore) == Bucket(g, dh.score)
    ensures Key(g, ToIHeader(dh, offset).indexscore) == Key(g, dh.score)
  {
    var s, t := dh.score, dh.score[..Indexscoresize];
    assert BitsAgree(s, t, 0, 8 * Indexscoresize) by {
      forall k | 0 <= k < 8 * Indexscoresize
        ensures Bit(t, k) == Bit(s, k)
      {
        assert t[k / 8] == s[k / 8];
      }
    }
    assert BitsAgree(s, t, 0, g.headscorewidth);
    assert BitsAgree(s, t, g.headscorewidth, g.headscorewidth + g.entryscorewidth);
    FieldAgree(s, t, 0, g.headscorewidth);
    FieldAgree(s, t, g.headscorewidth, g.entryscorewidth);
  }
}
