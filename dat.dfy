/** The constants of dat.h and of the top of memventi.c. */
module Dat {

  const Magicsize: nat := 4
  const Scoresize: nat := 20
  const Indexscoresize: nat := 8
  /** Bytes of one index-log record: truncated score, type, 48-bit offset. */
  const Diskiheadersize: nat := Indexscoresize + 1 + 6
  /** Bytes of one data-log header: magic, score, type, 16-bit size. */
  const Diskdheadersize: nat := Magicsize + Scoresize + 1 + 2

  const Chainentriesmin: nat := 8
  const Datamax: nat := 56 * 1024
  const Headermagic: nat := 0x2f9d81e5

  /** Most candidate offsets one lookup may return (memventi.c). */
  const Addressesmax: nat := 16

  // Message types of the venti protocol (dat.h).
  const Rerror: nat := 1
  const Tping: nat := 2
  const Rping: nat := 3
  const Thello: nat := 4
  const Rhello: nat := 5
  const Tgoodbye: nat := 6
  const Rgoodbye: nat := 7
  const Tread: nat := 12
  const Rread: nat := 13
  const Twrite: nat := 14
  const Rwrite: nat := 15
  const Tsync: nat := 16
  const Rsync: nat := 17
}
