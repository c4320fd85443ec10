# memventi in Dafny

memventi is a small content-addressed block server speaking the venti
protocol. A client writes a block of at most 56 KiB. The server stores it
once, keyed by its SHA-1 score and a one-byte type, and returns the score.
A client reads a block back by score and type.

- **Data log.** The blocks live in an append-only data log. Each one is a
  27-byte header (magic, score, type, size) followed by its data.
- **Index log.** An append-only log of 15-byte records: an 8-byte score
  prefix, the type and a 48-bit offset.
- **In-memory index.** One hash chain per head of the score prefix. Each
  chain is a list of blocks of bit-packed entries (type, key bits, address
  bits), with an all-ones address as the end marker.
- **Startup.** The server checks the last index record against the data
  log and indexes any blocks written after it. It then replays the index
  log into memory.
- **Serving.** Each connection does the `venti-02` handshake and a hello.
  It then reads framed requests and answers each one until a goodbye, an
  error or shutdown.

The model covers these parts of the server:

- **Byte and bit access.** The big-endian GET/PUT macros, MAX/MIN, and the
  bit-field `getuvlong`/`putuvlong`.
- **Disk headers.** Packing and unpacking of the data and index headers.
- **Helpers.** `roundup`, `hex`/`scorestr`, `preadn` and `writen`.
- **Protocol.** Message parsing and writing: `readstr`, `readmem`,
  `writestr`, `readvmsg` and `writevmsg`.
- **In-memory index.** Its entries (`getaddr`, `isscore`, `istype`,
  `isend`, `putentry`), its allocation (`bufalloc`, `chainalloc`), and
  `headcount`, `lookup` and `insert`.
- **Logs.** `store`, `indexstore`, `readblock` and `readiheader`.
- **Startup.** The recovery part of `init`.
- **Connections.** `connproc`: the handshake, the hello, the state gates
  (closing, degraded, no write access), the zero-score read and empty-write
  shortcuts, the disk lookup behind a read, deduplication, the "data file
  is full" refusal and the degraded fallbacks of a write, and the reply
  loop.

How the model represents the program:

- **State.** Mutable state is a `class`:
  - `Chains.MemIndex` holds the chains over `array<byte>` blocks;
  - `Log.Disk` holds the two logs as byte sequences that `store` appends to;
  - `Session.Server` holds the server state, the `diskhisto` array and the
    shared read buffer.
- **Loops** are `while` loops with invariants, and each method is proved
  against a specification function.
- **Pure data** is datatypes and functions.
- **Bytes** are `int`s in `[0, 256)`. C's 8-, 32- and 64-bit arithmetic is
  written out in module `COps` wherever a finding depends on it.

The model does not run the program. Everything outside it is a parameter:

- SHA-1 is a function parameter constrained by `Sha1`.
- What each `write`/`pwrite` returns is a parameter, and so is what each
  `pread` inside `preadn` returns (`Util.Preadn`).
- Every other read of a file is `Log.PreadFile`: it returns all the bytes
  asked for, up to the end of the file.
- So is whether each allocation succeeds.
- What a connection receives and how its writes end are fields of
  `Session.Env`.

Where the code is evidently wrong (see Findings), the rest of the model
uses the corrected behaviour, and the code as written is a member of its
own:

- connproc is modelled with the corrected gate `Conn.Decide`. It answers a
  ping with Rping, sends the shutting-down error under the request's tag
  and ends the connection on a write of more than Datamax bytes. The gate
  as written is `Conn.DecideAsWritten`. On a ping it ends the connection
  (`memventi.c:953-955`), as the venti protocol does not, and
  `Conn.DecideAgrees` shows that the two differ only in these three
  cases.
- The in-memory index stores entries with the corrected putuvlong mask
  (`Pack.PutUvlong`). `Pack.PutUvlongAsWrittenAgrees` shows that the code
  as written gives the same bytes for every address that fits the field.
- diskhisto has 17 cells, one per candidate count from 0 to 16. As
  written it has 16.
- preadn reads each chunk at `buf+have` (`Util.Preadn`), and roundup uses
  a 64-bit mask (`Util.Roundup`).

## Model

| member | source | states |
|---|---|---|
| Fns.Max | fns.h:1 | the result is at least both arguments and is one of them |
| Fns.Min | fns.h:2 | the result is at most both arguments and is one of them |
| Fns.Get8 | fns.h:5 | the first byte, as a number |
| Fns.Get16 | fns.h:6 | the first two bytes read as one big-endian number |
| Fns.Get24 | fns.h:7 | the first three bytes read as one big-endian number |
| Fns.Get32 | fns.h:8 | the first four bytes read as one big-endian number |
| Fns.Get48 | fns.h:9 | the first six bytes read as one big-endian number |
| Fns.Get64 | fns.h:10 | the first eight bytes read as one big-endian number |
| Fns.Put8 | fns.h:11 | the byte at `at` becomes the value's low byte and no other byte changes |
| Fns.Put16 | fns.h:12 | the 2 bytes at `at` become the value's low 16 bits, big-endian; nothing else changes |
| Fns.Put32 | fns.h:13 | the 4 bytes at `at` become the value's low 32 bits, big-endian; nothing else changes |
| Fns.Put48 | fns.h:14 | the 6 bytes at `at` become the value's low 48 bits, big-endian; nothing else changes |
| Fns.Put64 | fns.h:15 | the 8 bytes at `at` become the value's low 64 bits, big-endian; nothing else changes |
| Fns.Get16Put16 | fns.h:6-12 | GET16 reads back any 16-bit value PUT16 wrote |
| Fns.Get32Put32 | fns.h:8-13 | GET32 reads back any 32-bit value PUT32 wrote |
| Fns.Get48Put48 | fns.h:9-14 | GET48 reads back any 48-bit value PUT48 wrote |
| Fns.Get64Put64 | fns.h:10-15 | GET64 reads back any 64-bit value PUT64 wrote |
| Fns.Put16HighByteFirst | fns.h:12 | PUT16 stores the high byte first, then the low byte |
| Fns.BEOfBEBytes | fns.h:12-15 | reading back k big-endian bytes gives the value modulo 2^(8k): the wrap-around of the C casts |
| Fns.BEBytesOfBE | fns.h:5-10 | writing back what was read reproduces the bytes |
| Util.Roundup | util.c:98-102 | when n+round-1 fits in 64 bits, the result is a multiple of `round` in `[n, n+round)` |
| Util.RoundupSmallest | util.c:98-102 | no multiple of `round` that is at least n lies below the result: it is the least such multiple |
| Util.RoundupAsWrittenTruncates | util.c:101 | with the mask computed in 32 bits as written, 2^32 rounds to a value below 2^32, where Roundup gives 2^32 |
| Util.Hex | util.c:122-129 | a digit exactly for values below 16; any larger value is the fatal case |
| Util.HexDigit | util.c:122-129 | the digit of a nibble is the nibble's lower-case hexadecimal digit |
| Util.UnhexHex | util.c:122-129 | reading the digit as hexadecimal gives back the nibble |
| Util.ScoreHex | util.c:133-150 | the text of a score has two characters per byte |
| Util.ScoreHexAt | util.c:142-145 | byte i is shown at positions 2i and 2i+1: high nibble, then low nibble |
| Util.ParseScoreHex | util.c:133-150 | the text determines the score: parsing it as hexadecimal gives back the score |
| Util.Scorestr | util.c:133-150 | the loop builds the hex text of the 20-byte score, followed by a NUL |
| Util.Preadn | util.c:190-204 | the result is an error, or a count of at most `count` that is short only when a `pread` returned 0, which a file yields only at its end, so a short count reaches the end of the file; the buffer holds exactly the bytes of the file at the offset, and nothing past them changes |
| Util.PreadnAsWrittenOverwrites | util.c:196 | as written, with a file [1, 2] that arrives one byte per pread, preadn reports 2 bytes but leaves [2, 0] in the buffer |
| Util.Writen | util.c:208-221 | either `len` bytes are written and returned, or an error is returned after a proper prefix of them was written |
| Pack.GetUvlong | pack.c:76-95 | the result is the `bits`-wide big-endian bit field at `bitoffset` |
| Pack.PutUvlong | pack.c:99-117 | the bit field at `bitoffset` then reads `addr mod 2^bits`, and every bit outside it is unchanged (corrected mask) |
| Pack.PutUvlongBytesStores | pack.c:99-117 | the bytes the rounds of putuvlong leave hold `addr mod 2^bits` in the field and every other bit as it was |
| Pack.PutUvlongLeaves | pack.c:99-117 | a buffer that meets PutUvlong's contract is exactly the one its rounds build, so the contract fixes every byte |
| Pack.PutUvlongAsWrittenAgrees | pack.c:99-117 | for an address below 2^bits, putuvlong as written leaves the same bytes as the corrected rounds |
| Pack.PutUvlongAsWrittenMeets | pack.c:99-117 | for an address below 2^bits, the buffer PutUvlong's contract describes is the one putuvlong as written leaves |
| Pack.PutUvlongAsWrittenClobbers | pack.c:111 | as written, storing 8 into the 2-bit field at bit 4 of a zero byte sets bit 2, which lies outside the field |
| Pack.KeptField | pack.c:99-117 | after a put, every field that does not overlap the one written reads as before |
| Pack.PackIHeader | pack.c:17-25 | the buffer starts with the 15 record bytes (score prefix, type, 48-bit offset); the rest is unchanged |
| Pack.UnpackIHeader | pack.c:5-13 | any 15 bytes unpack to a valid record whose packed form is those bytes |
| Pack.UnpackPackIHeader | pack.c:5-25 | unpacking a packed valid record gives back the record |
| Pack.PackDHeader | pack.c:62-72 | the buffer starts with the 27 header bytes (magic, score, type, size); the rest is unchanged |
| Pack.UnpackDHeader | pack.c:38-58 | success gives a valid header of at most Datamax bytes whose packed form is the buffer; the failures are a wrong magic (with the magic read) and a size over Datamax (with the size) |
| Pack.UnpackPackDHeader | pack.c:38-72 | a packed header of at most Datamax bytes unpacks to itself |
| Pack.UnpackDHeaderAccepts | pack.c:38-58 | unpacking succeeds exactly when the magic is right and the size is at most Datamax |
| Pack.ToIHeader | pack.c:29-34 | the record holds the first 8 score bytes, the type and the given offset |
| Index.Bucket | memventi.c:190-215 | the head of a score is below 2^headscorewidth |
| Index.Key | memventi.c:92-99 | the key of a score fits in entryscorewidth bits |
| Index.GetAddr | memventi.c:85-88 | the address field of entry i of the block |
| Index.IsScore | memventi.c:92-99 | true exactly when entry i's key equals the score's key bits |
| Index.IsType | memventi.c:103-106 | true exactly when entry i has the type |
| Index.IsEnd | memventi.c:110-113 | true exactly when entry i's address is the end marker |
| Index.PutEntry | memventi.c:266-276 | the block's entries are the old ones with entry i replaced by (type, key, address mod 2^addrwidth), with the corrected putuvlong mask |
| Index.BufAlloc | memventi.c:219-236 | a buffer exactly when n > 0 and the allocation succeeds; it is fresh, n bytes long, all ones |
| Index.ChainAlloc | memventi.c:240-262 | a block exactly when allocation succeeds, of max(n, 8) entries, all of them unused |
| Index.FreshSlotsUnused | memventi.c:226-232 | every entry of an all-ones block reads as the end marker |
| Index.MatchingExact | memventi.c:207-211 | an address is among the matches exactly when an entry with that type, key and address is present |
| Chains.MemIndex.constructor | memventi.c:673-693 | a well-formed index with every chain empty and initheadlen = nblocks / number of heads |
| Chains.MemIndex.HeadCount | memventi.c:132-149 | the number of live entries on the chain |
| Chains.MemIndex.Lookup | memventi.c:190-215 | -1 exactly when more than 16 entries of the chain match the type and key; otherwise the matching addresses in chain order and their number |
| Chains.ScanBlock | memventi.c:203-212 | one block of lookup's scan: the matches of its live entries appended, or -1 once the 16 slots overflow |
| Chains.MemIndex.Insert | memventi.c:280-317 | succeeds exactly when the last block has room or allocation succeeds; on success the chain gains the entry, other chains and the well-formedness are kept (with the corrected putuvlong mask) |
| Chains.MemIndex.Grow | memventi.c:301-316 | a chain whose last block has no free entry gains a fresh block of 8 entries holding the entry, exactly when allocation succeeds; other chains unchanged |
| Chains.MemIndex.Fill | memventi.c:290-298 | the first free entry of the last block takes the entry; other chains unchanged |
| Chains.FirstFree | memventi.c:294-296 | the index of the first entry that is the end marker |
| Chains.InsertThenMatch | memventi.c:190-317 | after an insert, the lookup of the same type and key gives the old matches followed by the new address |
| Chains.LookupStep | memventi.c:202-213 | the matches of a chain are those of its blocks in order |
| Chains.AppendKeeps | memventi.c:301-316 | appending a block keeps the chains well formed and changes only the chain it extends |
| Log.Written | memventi.c:436-458 | what a write returning w leaves: the first max(w, 0) bytes |
| Log.PreadFile | util.c:190-204 | what reads at an offset of a file can return: at most `count` bytes, stopping at the end of the file |
| Log.ReadBlock | memventi.c:535-572 | success gives a valid header, of 1 to Datamax bytes, packed at the offset, within the data log, and the data after it; an offset whose header crosses datafilesize is the "outside datafile" error |
| Log.ReadIHeader | memventi.c:517-531 | a record exactly when 15 bytes lie at the offset, end of file exactly at or past the end; the record packs to those bytes |
| Log.ReadBlockAppended | memventi.c:423-470 | a block appended to the data log reads back as the same header and data |
| Log.ReadBlockStable | memventi.c:535-572 | appending to the data log does not change what reads return for the blocks already in it |
| Log.Disk.constructor | memventi.c:597-604 | the two logs as opened, with their sizes, and no blocks counted |
| Log.Disk.IndexStore | memventi.c:395-419 | the index log gains what the write wrote of the packed record; the failures are the failed write and the short write |
| Log.Disk.Store | memventi.c:423-470 | the data log gains what the header and data writes wrote; datafilesize grows only when both are whole, and only then is the index record of the old datafilesize written and the block counted; the result is the offset or failure |
| Log.StoreReadsBack | memventi.c:423-572 | readblock at a stored block's offset returns its header and data |
| Log.StoreKeepsBlocks | memventi.c:423-572 | storing a block does not change what readblock returns for earlier blocks |
| Log.ToIHeaderIndexes | memventi.c:463 | the block's index record falls in the same chain with the same key as its score |
| Recover.CheckLast | memventi.c:609-639 | an empty index log means scanning from offset 0; otherwise the last record is checked |
| Recover.CheckRecord | memventi.c:611-638 | success only for a readable record indexing a block that reads, hashes to its score and agrees with the record; the scan then starts at the end of that block |
| Recover.CheckRecordRejects | memventi.c:611-638 | the last record is refused exactly when it cannot be read or does not index a block at its offset |
| Recover.Tail | memventi.c:648-668 | the records the scan finds; a failure names the first block that does not read or does not hash to its score |
| Recover.TailIndexes | memventi.c:648-668 | every record found indexes a verified block within the scanned range, and each record starts where the previous block ends |
| Recover.TailOrdered | memventi.c:648-668 | the records come in strictly increasing order of offset, so no block is indexed twice |
| Recover.TailTiles | memventi.c:648-668 | a scan without failure covers the data log exactly up to its end |
| Recover.CheckBlock | memventi.c:649-657 | the first record of the scan from `o`, and where the scan goes on, or why it stops |
| Recover.IndexRound | memventi.c:649-664 | one round keeps the index log equal to the records stored so far, or ends with the failure of the scan or of the write |
| Recover.ScanTail | memventi.c:643-668 | the index log gains the records of the scan in order, up to the first failed write or the scan's own failure |
| Recover.RecordBytesInjective | pack.c:5-25 | two sequences of valid records with the same bytes are equal |
| Recover.Replay | memventi.c:671-710 | on success, the records read spell the index log, and every chain holds what inserting them in order gives; when all reads and allocations succeed, replay succeeds |
| Recover.ReplayRecord | memventi.c:698-710 | one record read and inserted; the records read so far spell the log up to the new offset |
| Recover.InsertRecord | memventi.c:707-708 | when the allocation succeeds, the chains become the replay of one more record |
| Recover.ReplayedHolds | memventi.c:707 | a replayed record with offset below the end marker is found in its chain |
| Recover.ReplayedFrom | memventi.c:707 | every replayed entry comes from a record of its chain |
| Recover.Init | memventi.c:606-710 | a size that is not a multiple of 15 is fatal, and so is a bad last record, both with the index log untouched; success leaves the old log followed by the records of the later blocks, spelled by the replayed records, with nblocks their number; success is certain when nothing fails |
| Recover.RecoverFrom | memventi.c:641-710 | the scan from the start offset, then the replay |
| Recover.Rebuild | memventi.c:671-710 | nblocks is the number of records, and the in-memory index is their replay |
| Recover.RecoveredFinds | memventi.c:576-724 | after recovery, every block added to the index log is found in its chain under its own score, type and offset |
| Recover.TailValid | memventi.c:657 | with offsets below 2^48 every record is a valid index record |
| Proto.ReadStr | proto.c:5-26 | consumes a 2-byte length and that many bytes; with a destination, also checks that the string fits the buffer and the message, and the bytes read are the string's encoding |
| Proto.ReadMem | proto.c:29-45 | succeeds exactly when the 1-byte length and its bytes fit in the message, and skips them |
| Proto.ReadStrBack | proto.c:5-59 | readstr reads back what writestr wrote, with any bytes around it |
| Proto.ReadMemBack | proto.c:29-45 | readmem skips exactly a 1-byte-length field |
| Proto.WriteStr | proto.c:49-59 | writes the 2-byte length and the bytes, and returns 2 + length; nothing else changes |
| Proto.Fread | proto.c:69-77 | reads n bytes exactly when that many are left |
| Proto.ParseBody | proto.c:79-138 | the message is accepted exactly when the op is known and its fields fit (hello strings, 24-byte read, write with 4 header bytes and an allocation); the fields are filled in from the body |
| Proto.ParseHello | proto.c:92-105 | the hello body is accepted exactly when its two strings, the strength byte and the two counted fields fit |
| Proto.ReadVmsg | proto.c:63-139 | success exactly for a frame with a 2-byte length below 8+Datamax, at least 2 bytes of body that are present, and a body ParseBody accepts; the fields are filled from the body, the buffer holds it, and the rest of the input follows it |
| Proto.FrameBack | proto.c:63-80 | a frame built from a body parses back to that body and leaves what follows |
| Proto.RequestBack | proto.c:63-139 | a request laid out as the protocol says is accepted (a write when its allocation succeeds) and read back field for field |
| Proto.HelloBack | proto.c:92-105 | a hello laid out as the protocol says parses |
| Proto.AcceptsKnownOps | proto.c:91-137 | readvmsg accepts only the ops hello, read, write, ping, sync and goodbye |
| Proto.ReplyMsize | proto.c:150-182 | the size writevmsg computes: 2 + payload, below 2^16 |
| Proto.ReplySizes | proto.c:150-182 | hello 15, read 2+dsize, write 22, error 4+length, ping and sync 2 |
| Proto.ReplyFrameIsFrame | proto.c:143-207 | the frame written is length, op, tag and payload, and parses back as a frame |
| Proto.WritePayload | proto.c:149-187 | the payload of each reply op goes after the 4-byte header; its size is ReplyMsize |
| Proto.WriteHeader | proto.c:189-195 | the 2-byte size, the op and the tag at the start of the buffer |
| Proto.WriteVmsg | proto.c:143-207 | the buffer starts with the reply's frame; success exactly when it was all written, otherwise a proper prefix of it went out |
| Conn.Fetch | memventi.c:339 | disklookup's preadn: a prefix of the wanted bytes at the offset, short only at end of file |
| Conn.ProbeAt | memventi.c:337-389 | a hit at an offset whose header packs a valid header with the score and type asked for, whose data hashes to the score when data is read; a corrupt block only when data is read |
| Conn.ProbeData | memventi.c:364-386 | the data of a matching header, reread when the first read was short; a hit only when it hashes to the score |
| Conn.Search | memventi.c:321-391 | a found block is a candidate whose header holds the score and type (and whose data hashes to the score when read) |
| Conn.SearchFinds | memventi.c:337-389 | when no earlier candidate matches and candidate j holds the block, the search finds candidate j with the block loaded |
| Conn.SearchClean | memventi.c:337-390 | the search finds nothing and records no error exactly when every candidate's header differs in score or type |
| Conn.SearchKeepsError | memventi.c:337-390 | an error recorded on an earlier candidate survives when nothing is found |
| Conn.SearchAnswered | memventi.c:321-391 | the outcome of the search satisfies Answered |
| Conn.DiskhistoOverrun | memventi.c:75 | sixteen candidates, which lookup allows, index diskhisto at 16, one past the 16 cells declared |
| Conn.ReadArrives | proto.c:63-139 | what readvmsg accepts is a known op, a read with a whole score, a write of at most Datamax+1 bytes |
| Conn.Decide | memventi.c:805-957 | the connection ends exactly on an oversized write, a goodbye, or a hello while not closing; while closing, a last error "venti shutting down" with the request's tag; the index is consulted exactly for a read of a non-zero score and a write stored exactly when running, writable and 0 < size ≤ Datamax; the zero-score read gets no data and the empty write the zero score; a write is refused without write access or when degraded |
| Conn.DecideAsWritten | memventi.c:805-957 | as written: the connection ends exactly on a goodbye, or on a hello or a ping while not closing; while closing, every other request gets the "venti shutting down" error under the previous reply's tag; the index is consulted exactly for a read of a non-zero score, and a write is stored exactly when running, writable and non-empty, whatever its size |
| Conn.DecideAgrees | memventi.c:805-957 | on a request that is neither an oversized write nor a ping, and (while closing) a previous tag equal to the request's, Decide and DecideAsWritten give the same gate |
| Conn.DecideAnswers | memventi.c:805-957 | every reply sent without the index answers its request (tag, op, data with the requested score, written score) |
| Conn.ClosingTagStale | memventi.c:805-812 | as written, the shutting-down error keeps the previous reply's tag, not the request's |
| Conn.PingClosesAsWritten | memventi.c:953-955 | as written, a ping reaches the "invalid op" default and ends the connection; Decide answers it |
| Conn.OversizedWriteAccepted | proto.c:72-123 | a write of Datamax+1 bytes fits a frame readvmsg accepts, and as written connproc goes on to store it |
| Conn.OversizedHeaderUnreadable | pack.c:55-56 | the header of such a block never unpacks: its size is refused |
| Session.LineLength | memventi.c:769 | fgets: at most the room and the input, no newline before the last byte, and a newline at the end unless the room or the input ran out |
| Session.LineBack | memventi.c:769 | a line ending in a newline is read up to and including it |
| Session.GreetsBack | memventi.c:770 | any line starting with "venti-02" is accepted |
| Session.Hello | memventi.c:779-786 | the hello is read exactly when a frame parses and is a hello; its fields come from the body and the rest of the input follows it |
| Session.Send | memventi.c:788-793 | the reply sent has its size set; the output is its frame when the write completes, else a proper prefix of it |
| Session.Greet | memventi.c:764-793 | the handshake line goes out; the hello is tried exactly when the handshake was written whole, a line starting with "venti-02" arrives and a hello frame follows it; the output is then the handshake and the hello reply's frame (whole or cut) |
| Session.EmittedStep | memventi.c:958-966 | one more reply frame extends the output, whole or cut |
| Session.WrittenHolds | memventi.c:423-470 | a block appended to the data log is found by a disk lookup with data at its offset |
| Session.AbsentClean | memventi.c:895-907 | the write path sees the block as absent exactly when every candidate's header differs |
| Session.PresentFound | memventi.c:895-900 | when a candidate holds the block and no earlier candidate matches, the write path sees it present |
| Session.ReadReplyAnswers | memventi.c:832-863 | the read reply has the request's tag, and when it carries data, that data is at most `count` bytes, hashes to the score asked for, and is the block a confirmed candidate holds |
| Session.ReadReplyFinds | memventi.c:843-862 | with the allocation succeeding, a found block is returned with exactly the bytes and size stored in the data log |
| Session.StoreAppends | memventi.c:921 | what store appends is at most a header and the data, and exactly both when every write is whole |
| Session.WriteAnswers | memventi.c:882-943 | every reply of the write path answers its request: the score of its data or an error |
| Session.Server.constructor | memventi.c:714-715 | a running server with diskhisto all zero, in the corrected 17 cells |
| Session.Server.ProbeOne | memventi.c:337-389 | one candidate of disklookup on the data log, as ProbeAt states |
| Session.Server.CheckHeader | memventi.c:346-362 | the header part of one candidate, as ProbeHeader states |
| Session.Server.CheckData | memventi.c:364-386 | the data part of one candidate, as ProbeData states |
| Session.Server.Count | memventi.c:330 | the cell for the number of candidates goes up by one and no other cell changes |
| Session.Server.Scan | memventi.c:337-390 | the candidates are tried in order; the result and the buffer are the Search outcome |
| Session.Server.DiskLookup | memventi.c:321-391 | diskhisto (the corrected 17 cells) counts one more lookup with that many candidates, and the result is the Search outcome on the data log |
| Session.Server.ReadPath | memventi.c:832-863 | when lookup returns at most 16 candidates, the outcome is the disk search of them with data; the reply is ReadReply of that outcome |
| Session.Server.Dedup | memventi.c:886-907 | the presence of the block in the data log, from the disk search of its candidates without data |
| Session.Server.Enter | memventi.c:926-943 | with room or a successful allocation, the chain gains the block's entry; otherwise "out of memory" and the server degrades |
| Session.Server.Commit | memventi.c:919-943 | the data log gains what store wrote; datafilesize grows by the block only when the header and data writes were whole, and only then does the index log gain what the record write returned; nblocks grows only when every write was whole; then the entry is inserted (or "out of memory" degrades the server), otherwise "error writing block" and the server degrades with the index unchanged |
| Session.Server.Append | memventi.c:908-943 | a block that would reach endaddr is refused with "data file is full" and nothing changes; otherwise it is committed, with the data log, datafilesize, the index log, nblocks, the reply, the server state and every chain of the index as Session.Server.Commit states them |
| Session.Server.WritePath | memventi.c:877-943 | too many matches, a block already present (no write), an unconfirmed presence, a full data file, or a stored block; for a stored block, the data log, datafilesize, the index log and nblocks as Session.Server.Commit states them, "error writing block" with the index unchanged when a write was short, and otherwise the entry in the score's chain (or "out of memory" with that chain unchanged) and every other chain unchanged |
| Session.Server.Shutdown | memventi.c:1078 | the server state becomes closing |
| Session.Server.Handle | memventi.c:805-957 | with the corrected gate Conn.Decide: the reply is the one Decide gives; the logs and the index change only for a stored write, the state only to degraded, and every reply sent answers its request |
| Session.Server.Receive | memventi.c:802 | the next request is read exactly when a frame follows that readvmsg accepts, and the input is consumed |
| Session.Server.Answer | memventi.c:958-966 | a request answered and its reply frame written, whole or cut |
| Session.Server.Turn | memventi.c:798-966 | with the corrected gate Conn.Decide, one round of the loop: the closing signal, the read, the answer |
| Session.Server.Serve | memventi.c:797-969 | with the corrected gate Conn.Decide: the output is the hello reply followed by the frames of the replies in order, the last one possibly cut; every reply answers its request and none follows a goodbye; the data log only grows, and it is untouched on a read-only connection or a server that was not running |
| Session.Server.Connproc | memventi.c:728-979 | with the corrected gate Conn.Decide: the output is the handshake, then the frames of the replies in order, the last one possibly cut; the first request is a hello answered by Rhello; every reply answers its request; the data log only grows, and is untouched without write access or when the server was not running; the state never returns to running and stays closing |

## Left out

- Threads and locks: the head locks, `disklock` and `statelock`, and the listener, sync and signal threads. The model has one connection, and a signal is seen only between requests (`Env.closing(k)` before request k).
- `safe_sync` and `fsync` (Tsync, Tgoodbye): durability is not modelled. A sync reply is sent as the code sends it.
- syslog, `debug`, `errsyslog`, the `headhisto`/`disklookuphisto` dumps and the timing with `msec`. Fatal errors of init are `Err` results.
- `main`'s argument parsing and geometry. The index geometry (head, key and address widths, endaddr) is a parameter `Geometry` with main's constraints (`memventi.c:1227-1230`) and one more, `addrwidth <= 64`, which main does not check. `1ULL<<addrwidth` (`memventi.c:1231`) is undefined in C for an addrwidth of 64 or more; at 64 the model takes the all-ones endaddr 2^64-1, and wider widths are not modelled.
- `fdopen` and buffered `FILE` reads: the input of a connection is a byte sequence, and fgets is `Session.LineLength`.
- `lockedmalloc`, `emalloc` and `trymalloc`'s ten retries: each allocation is a boolean parameter.
- bufalloc's 1 MiB memory pool: every index block is its own `array<byte>`, so where blocks sit in the pool is not modelled.
- The rotating static buffers of `scorestr`.
- Chains.MemIndex.Lookup: the copy into the caller's fixed 16-slot array is returned as a sequence.
- Session.Server.Connproc: states what each request and its reply are, not that the requests are the frames of the input in order. Session.Server.Receive and Session.Hello state that, one frame at a time.
- Session.Server.Handle: for a read it states that the reply answers the request. Session.Server.ReadPath states the reply exactly.
- Session.Server.Serve: the diskhisto effect is stated only by Session.Server.DiskLookup and Session.Server.Count.
- Util.Writen: a `write` that returns 0 makes the C loop spin forever. The model's `WriteStep` excludes it.
- Log.Disk.Store: `indexfilesize` is not advanced by store. The index log is opened for appending, so the next write lands at its end anyway, and the model appends.
- Log.PreadFile: every `pread` outside preadn returns all the bytes asked for, up to the end of the file. A short read of a regular file or an interrupted call is not modelled. So the overwrite of `util.c:196` and a short read never occur on the paths through Log.ReadBlock, Log.ReadIHeader, Conn.Fetch, Session.Server.ProbeOne and Session.Server.CheckData. Log.StoreReadsBack, Session.ReadReplyFinds and Recover.RecoveredFinds depend on that.
- Chains.MemIndex.constructor: init exits when the allocation of the heads (`memventi.c:675-677`) or of the initial entries (`memventi.c:682-684`) fails. The constructor cannot fail, so those two fatal errors are not modelled.
- Log.ReadBlock: a block of size 0 reads as "end of file while reading data". Such a block is never stored, since an empty write is answered without a store.

## Findings

| source | as written | input that shows it | evidently intended | confidence | as-written member | corrected member |
|---|---|---|---|---|---|---|
| pack.c:111 | the chunk is masked with `~(1<<bbits)`, which keeps every bit except bit `bbits`. This matters only for an address of 2^bits or more (Pack.PutUvlongAsWrittenAgrees). Writes refuse such addresses at `memventi.c:913`. init does not check them: the tail scan (`memventi.c:647-666`) indexes offsets of any size through indexstore (`memventi.c:658`), which the replay (`memventi.c:707`) inserts, and `endaddr` (`memventi.c:1231`) bounds nothing there | storing 8 into a 2-bit field at bit offset 4 of a zero byte gives 32, setting a bit before the field | mask with `(1<<bbits)-1`, keeping the chunk's low `bbits` bits | not executed; high | Pack.PutUvlongAsWrittenClobbers | Pack.PutUvlong |
| util.c:101 | `~(round-1)` is computed in the 32-bit `uint` and zero-extended. The `&` then clears the top 32 bits of the 64-bit sum | lockedmalloc's `len = roundup(len, pagesize)` (util.c:23) on the heads length `len = nheads * sizeof heads[0]` (memventi.c:673-675): with headscorewidth 28 and the packed 17-byte Chain of a 64-bit build, len is 17·2^28 = 2^32 + 2^28 and rounds to 2^28 for a 4096-byte page, so `heads` gets a seventeenth of the memory its 2^28 chains need; the smallest case, roundup(2^32, 8), gives 0 | a 64-bit mask, giving len rounded up to a multiple of the page size (2^32 for roundup(2^32, 8)) | not executed; high | Util.RoundupAsWrittenTruncates | Util.Roundup |
| util.c:196 | every `pread` stores at `buf`, not at `buf+have` | a file [1, 2] that arrives one byte per read leaves [2, 0] in the buffer | read into `buf+have` | not executed; high | Util.PreadnAsWrittenOverwrites | Util.Preadn |
| memventi.c:75 | `diskhisto` has `Addressesmax` (16) cells, but `disklookup` adds to `diskhisto[naddr]` | a lookup with 16 candidates, which `lookup` allows | 17 cells, one per possible count 0..16 | not executed; high | Conn.DiskhistoOverrun | Session.Server.DiskLookup |
| memventi.c:805-812 | the shutting-down error is sent under `out.tag`, the tag of the previous reply | a sync with tag 2 after a reply with tag 1, while closing | the request's tag | not executed; medium | Conn.ClosingTagStale | Conn.Decide |
| memventi.c:953-955 | Tping, which readvmsg accepts, falls to the "invalid op" default and ends the connection | a ping after the hello | answer with Rping, as the protocol lists | not executed; medium | Conn.PingClosesAsWritten | Conn.Decide |
| proto.c:72 | a frame length of up to 7+Datamax is accepted, so a write carries up to Datamax+1 bytes, and connproc stores it | a write of 57345 bytes | refuse data over Datamax. readblock and disklookup reject such a header (Conn.OversizedHeaderUnreadable), so every later read of its score fails with "error retrieving data" and every rewrite of it with "could not confirm score presence", and the next startup fails while it is the last block indexed or not yet indexed | not executed; medium | Conn.OversizedWriteAccepted | Conn.Decide |
