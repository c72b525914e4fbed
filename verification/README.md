# RingBuffer: a persistent page ring buffer on a 32 KiB FRAM

This project models the `RingBuffer` Arduino class in Dafny. The class keeps
fixed-size pages in a ring in the data region of a 32 KiB FRAM chip. It
persists its control fields in a 32-byte boot sector at the top of the chip,
at address 32736 (0x7FE0):

| offset | field | bytes |
|---|---|---|
| 0 | magic number 0xFEEDC0DE | 4 |
| 4 | head: where the next page is written | 2 |
| 6 | tail: where the next page is read | 2 |
| 8 | page size | 2 |
| 10 | empty marker (nonzero: no page held) | 1 |

Multi-byte fields are stored least significant byte first, as the firmware's
unions lay them out on AVR.

The class caches nothing: every getter reads the chip and every setter
writes it. The model therefore treats the chip as an immutable sequence of
32768 bytes (`Fram.Store`), and each operation as a pure function from store
to store. Getters and queries return no store, so "does not modify the
store" holds by construction.

`write` never fails. On a full buffer (not empty, head equal to tail) it
moves the tail as well and overwrites the oldest page. `read` fails only on
an empty buffer. Full and empty are told apart by the marker byte alone, and
`format` clears the whole chip before writing the boot sector.

Modules, in dependency order:

- `Codec` — the little-endian byte encoding of 16- and 32-bit fields, with
  round-trip lemmas.
- `Fram` — the chip: `read8`/`write8` and runs of byte writes. An address
  past the end selects the cell `addr % 32768`.
- `RingBuffer` — the class itself:
  - field access: `readUint16`, `readUint32`, `writeUint16`;
  - the inline getters, queries and setters;
  - `format`, `writePage`, `readPage`, `write` and `read`.
  The wrap test is a parameter: `AsWritten` is the firmware's test, on the
  16-bit sum an AVR computes, and `Corrected` also wraps when the next page
  would not fit.
- `PageQueue` — the abstract behaviour: a FIFO of pages bounded by a
  capacity that drops its oldest page when full. Also the circle of slots
  that realises it.
- `Refinement` — the abstraction from a well-formed store to that queue.
  `write` is a push and `read` is a pop whenever the wrap test cannot run a
  page into the boot sector (`WrapSafe`).
- `Traces` — whole runs: `format`, then any writes, then reading until `read`
  fails. This returns the newest `Capacity` pages in the order written.
- `Findings` — the wrap test at RingBuffer.cpp:126 lets a page overwrite the
  boot sector when the page size does not divide 32736.

## Model

| member | source | states |
|---|---|---|
| Codec.EncodeU16 | RingBuffer.cpp:90-95 | a 16-bit value becomes two bytes, low byte first, and decoding those bytes gives the value back |
| Codec.EncodeDecodeU16 | RingBuffer.cpp:83-95 | decoding any two bytes and encoding the result gives the same bytes back, so byte pairs and 16-bit values correspond one to one |
| Codec.EncodeU32 | RingBuffer.cpp:49-58 | a 32-bit value becomes four bytes, low byte first, and decoding them gives the value back |
| Codec.EncodeDecodeU32 | RingBuffer.cpp:74-81 | decoding any four bytes and encoding the result gives the same four bytes back |
| Fram.WriteBytes | RingBuffer.cpp:102-104 | a run of byte writes that ends before the end of the chip puts data byte `i` at `addr + i` and leaves every byte outside that range |
| Fram.WriteBytesFrame | RingBuffer.cpp:102-104 | any run of byte writes, even one that wraps past the end of the chip, keeps every byte whose distance past `addr` (counted around the chip) is at least the run's length |
| Fram.WriteBytesAgree | RingBuffer.cpp:128-131 | two stores that agree below an address still agree there after the same run of writes, so moving the tail first does not change what the page write leaves in the data region |
| Fram.ReadBytes | RingBuffer.cpp:113-115 | byte `i` read is the byte at `addr + i`; when the run ends before the end of the chip this is exactly the slice at `addr` |
| RingBuffer.Add16IsModular | RingBuffer.cpp:116 | the tail that `readPage` stores is `addr + pageSize` reduced modulo 2^16, as `uint16_t` arithmetic gives |
| RingBuffer.WriteUint16 | RingBuffer.cpp:90-95 | reading the field back yields the value written, and no byte other than the two at `addr` and `addr + 1` changes |
| RingBuffer.WriteWhatWasRead | RingBuffer.cpp:83-95 | writing back the value just read leaves the whole store unchanged |
| RingBuffer.ReadDecodes | RingBuffer.cpp:74-88 | the 16- and 32-bit field reads decode the bytes at the address low byte first |
| RingBuffer.ReadsEncodeBack | RingBuffer.cpp:74-88 | a field read loses nothing: encoding the value read gives back exactly the two (or four) bytes at the address |
| RingBuffer.WriteEncodes | RingBuffer.cpp:90-95 | the 16-bit field write stores the two bytes of the low-byte-first encoding, in address order |
| RingBuffer.FieldLayout | RingBuffer.h:24-29 | the head, tail and page size are the 16-bit values whose encodings are the bytes at boot-sector offsets 4, 6 and 8; `isEmpty` reads the byte at offset 10 |
| RingBuffer.InitializedMeansMagic | RingBuffer.h:35 | a chip is initialised exactly when the first four boot-sector bytes are the encoding of 0xFEEDC0DE |
| RingBuffer.SetWhatWasGot | RingBuffer.h:41-42 | setting the head or the tail to the value just read from it leaves the chip unchanged |
| RingBuffer.SetHead | RingBuffer.h:41 | the head reads back as the value set; magic, tail, page size and marker are unchanged; only the two head bytes change |
| RingBuffer.SetTail | RingBuffer.h:42 | the tail reads back as the value set; every other field is unchanged; only the two tail bytes change |
| RingBuffer.SetEmpty | RingBuffer.h:43 | `isEmpty` afterwards is exactly the flag set; the marker byte becomes 0xFF or 0x00; no other byte changes |
| RingBuffer.ClearBelow | RingBuffer.cpp:45-47 | after the first `n` iterations of the clearing loop, bytes below `n` are zero and bytes from `n` on are as before |
| RingBuffer.Clear | RingBuffer.cpp:45-47 | the clearing loop leaves every byte of the chip zero, whatever it held |
| RingBuffer.BootBytesEncode | RingBuffer.cpp:49-71 | the eleven boot-sector bytes `format` writes are the encodings of the magic, of the start-of-data pointer twice and of the page size, then 0xFF |
| RingBuffer.WriteBootSector | RingBuffer.cpp:55-71 | the boot-sector writes touch only the first eleven bytes of the boot sector, and both pointers end up zero |
| RingBuffer.WriteBootSectorBytes | RingBuffer.cpp:55-71 | each byte written lands at its offset in the boot sector |
| RingBuffer.BootSectorFields | RingBuffer.cpp:55-71 | a boot sector starting with those bytes reads back as the magic, head and tail 0, the page size and marker 0xFF |
| RingBuffer.Format | RingBuffer.cpp:43-72 | every byte of the chip except the magic, the page size and the marker is zero afterwards |
| RingBuffer.FormatFields | RingBuffer.cpp:43-72 | after `format(p)` the chip is initialised, empty and not full, with head and tail at 0 and page size `p` |
| RingBuffer.Next | RingBuffer.cpp:126 | the advanced pointer always lies in the data region; under the corrected test a whole page also fits after it |
| RingBuffer.WritePage | RingBuffer.cpp:100-106 | afterwards the buffer is not empty; below the boot sector the store is what writing `min(size, pageSize)` page bytes from `addr` leaves; when the page fits below the boot sector only the marker field changes |
| RingBuffer.SameBootSector | RingBuffer.h:24-35 | the control fields depend only on the boot-sector bytes |
| RingBuffer.ReadPage | RingBuffer.cpp:111-117 | the caller's buffer gets `min(size, pageSize)` bytes from `addr` and keeps the rest; the tail becomes `addr + pageSize` in 16 bits; no other field and no data byte changes |
| RingBuffer.Write | RingBuffer.cpp:120-134 | the buffer ends non-empty; the head becomes the advanced head; the data region is exactly the page write at the old head; the tail follows the head on a full buffer, so a full buffer stays full |
| RingBuffer.Read | RingBuffer.cpp:136-155 | `read` succeeds exactly when the buffer is not empty; the page returned has the caller's buffer length; on an empty buffer the call fails and returns the buffer and store unchanged |
| RingBuffer.ReadFillsBuffer | RingBuffer.cpp:111-117 | a successful read fills the first `min(size, pageSize)` buffer bytes from the tail and keeps the rest of the buffer |
| RingBuffer.ReadTakesSlice | RingBuffer.cpp:111-117 | when the bytes read lie inside the chip, the page returned is the stored slice at the tail followed by the rest of the caller's buffer |
| RingBuffer.ReadMovesTail | RingBuffer.cpp:146-154 | a successful read leaves the data region alone, advances the tail by the wrap test, and sets the marker exactly when the new tail equals the head |
| PageQueue.Push | RingBuffer.cpp:128-131 | adding a page keeps the newest `cap` pages of the longer sequence; below capacity it just appends |
| PageQueue.LastNPush | RingBuffer.cpp:128-133 | pushing onto the newest `cap` pages of a history gives the newest `cap` pages of the extended history |
| PageQueue.Ring.Put | RingBuffer.cpp:120-134 | storing into the head slot, and moving the tail when every slot is in use, is `Push` on the contents |
| PageQueue.Ring.Take | RingBuffer.cpp:136-155 | moving the tail one slot drops the oldest page and keeps the head |
| Refinement.CapacityBounds | RingBuffer.cpp:22-23 | at least one and at most 32736 / pageSize whole pages fit below the boot sector, with less than a page left over |
| Refinement.NextSlot | RingBuffer.cpp:126 | under a safe wrap test the pointer after the start of slot `k` is the start of the next slot round the circle, so page alignment is preserved |
| Refinement.WrapTestsAgree | RingBuffer.cpp:126 | when the page size divides 32736 the firmware's test and the corrected one advance every slot pointer alike |
| Refinement.Abs | RingBuffer.h:29-30 | the queue is empty exactly when `isEmpty`, holds `Capacity` pages exactly when `isFull`, and every page has the page size |
| Refinement.EmptyOrFull | RingBuffer.h:29-30 | on a well-formed buffer `isEmpty` means no page is held and `isFull` means every one of the at least one slots holds a page, so the two never hold together |
| Refinement.SlotsAfterWrite | RingBuffer.cpp:102-104 | a page write at slot `k` replaces that slot by the page over the stale bytes and keeps every other slot |
| Refinement.SlotsUnchanged | RingBuffer.cpp:113-116 | a store that keeps the data region keeps every slot |
| Refinement.FormatRefines | RingBuffer.cpp:43-72 | a formatted chip is well-formed exactly when `0 < pageSize <= 32736`, and it then holds the empty queue |
| Refinement.EmptyBootSector | RingBuffer.cpp:53-71 | any store whose boot sector reads as `format` leaves it is well-formed exactly when the page size is in range, and then holds no page |
| Refinement.WriteFields | RingBuffer.cpp:120-134 | under a safe test, `write` keeps the store well-formed and non-empty, moves the head to the next slot, and moves the tail with it only when the buffer was full |
| Refinement.WriteView | RingBuffer.cpp:120-134 | on the circle of slots `write` is `Put` of the new page laid over the stale slot |
| Refinement.WriteRefines | RingBuffer.cpp:120-134 | under a safe test, `write` is `Push` onto the page queue with the queue's capacity and keeps the page size |
| Refinement.ReadFields | RingBuffer.cpp:136-155 | under a safe test, reading a non-empty buffer keeps it well-formed, moves the tail to the next slot, keeps the head, and empties the buffer exactly when the tail reaches the head |
| Refinement.ReadView | RingBuffer.cpp:136-155 | on the circle of slots a read of a non-empty buffer is `Take` |
| Refinement.ReadPageIsOldest | RingBuffer.cpp:148 | the page a read returns is the oldest page of the queue, cut to the caller's buffer, with the rest of the buffer kept |
| Refinement.ReadRefines | RingBuffer.cpp:136-155 | under a safe test `read` is a pop: on an empty queue it fails and changes nothing; otherwise it returns the oldest page and the queue loses it |
| Refinement.AsWrittenIsCorrected | RingBuffer.cpp:126-146 | when the page size divides 32736, the firmware's `write` and `read` equal the corrected ones on every well-formed store |
| Traces.WriteAll | RingBuffer.cpp:120-134 | a run of writes of pages of any length leaves the newest `Capacity` of the pages held before and the pages written, each in a slot that starts with as much of the page as fits |
| Traces.WriteStep | RingBuffer.cpp:120-134 | one more `write` extends that history by the next page, whatever its length |
| Traces.Drain | RingBuffer.cpp:136-155 | reading until `read` fails returns every page held, oldest first, each cut to the caller's buffer, and leaves the buffer empty |
| Traces.ReadStep | RingBuffer.cpp:136-155 | one more `read` fails exactly when every page has been taken, and otherwise returns the next page in order |
| Traces.WriteDrain | RingBuffer.cpp:120-155 | writing pages of any length to an empty buffer and then draining it returns the newest `Capacity` pages in the order written: each read has the buffer's length, starts with as much of its page as the buffer and page size take, and keeps the rest of the buffer |
| Traces.FreshWriteDrain | RingBuffer.cpp:53-155 | the same holds from any store whose boot sector reads as `format` leaves it |
| Traces.FormatWriteDrain | RingBuffer.cpp:43-155 | `format`, then writes, then a drain, returns the newest `Capacity` pages in the order written, from any prior chip contents |
| Traces.ReadsBackWhole | RingBuffer.cpp:102-115 | for pages at least as long as the bytes read, what a drain returns is pinned down exactly: each page's first `min(size, pageSize)` bytes followed by the rest of the buffer |
| Findings.AsWrittenStopsShort | RingBuffer.cpp:126 | under the firmware's test, a head more than one page but less than two below the boot sector moves one page on; the buffer still reads as initialised but is no longer well-formed |
| Findings.OverrunClobbersMagic | RingBuffer.cpp:131 | a page written at a head less than a page below the boot sector overwrites the first magic byte, so the chip no longer reads as initialised |
| Findings.PageLands | RingBuffer.cpp:100-106 | each byte `writePage` copies lands at its place after the address |
| Findings.AsWrittenOverrun | RingBuffer.cpp:120-134 | from such a head, two firmware writes take a well-formed buffer to one whose magic number is overwritten |
| Findings.LastSlotReached | RingBuffer.h:41-43 | `format(40)`, `setHead(32680)` and `setEmpty(false)` produce the boot sector of the counterexample |
| Findings.AsWrittenOverrunsBootSector | RingBuffer.cpp:126 | with 40-byte pages, the boot sector 0xFEEDC0DE / 32680 / 0 / 40 / 0 is well-formed, and two firmware writes overwrite its magic number |
| Findings.CorrectedKeepsBootSector | RingBuffer.cpp:126 | under the corrected test every write keeps a well-formed buffer well-formed and initialised, for every page size, with a whole page of room after the head |

## Left out

- `begin` and the I2C transport (RingBuffer.cpp:35-41): replaced by an immutable byte sequence read and written one byte at a time. The FRAM library is not part of this model.
- The constructor (RingBuffer.cpp:32-33): it does nothing beyond constructing the transport.
- `dump`, `dumpBootsector`, `printHex8` and `printHex16` (RingBuffer.cpp:157-203): text output to a stream, with no effect on the store.
- Host byte order of the unions (RingBuffer.cpp:6-20): fields are fixed least significant byte first, which is the AVR layout, instead of modelling memory aliasing.
- Power loss between two byte writes: each operation is one atomic transition from store to store.
- The caller's arrays: a page or buffer is a sequence whose length is the `size` argument. A `size` larger than the real array is a memory error in C and is not modelled.
- Bytes are integers in `[0, 256)` rather than bit-vectors, which keeps the solver in linear integer arithmetic. Behaviour is unaffected.
- Fram.Read8 / Fram.Write8: an address past the end of the chip selects `addr % 32768`. This assumes the 32 KiB part decodes only the low 15 address bits. The library that does this is not part of this model.
- RingBuffer.Next: the firmware's test compares the sum modulo 2^16, as AVR's 16-bit `int` computes it. On a target with a 32-bit `int` the comparison would not wrap. The two differ only when `ptr + pageSize >= 65536`, which no well-formed store has: there `ptr < 32736` and `pageSize <= 32736`.
- Traces.WriteDrain, Traces.FreshWriteDrain, Traces.FormatWriteDrain: a page shorter than the page size leaves the rest of its slot as it was, so the bytes read back past the end of such a page are not stated.
- Refinement.WriteRefines, Refinement.ReadRefines and the `Traces` members: the FIFO refinement is proved only under `WrapSafe`. That means the corrected test, or the firmware's test with a page size dividing 32736. For other page sizes the firmware's behaviour is the finding below, not a FIFO.

## Findings

| source | as written | input that shows it | evidently intended | confidence | as-written member | corrected member |
|---|---|---|---|---|---|---|
| RingBuffer.cpp:126 | the head wraps to 0 only when `head + pageSize >= bootSectorStart`, so whether the next page fits is never checked (the tail test at line 146 is the same) | `format(40)`, head at 32680 (the last slot), tail 0, not empty. One `write` moves the head to 32720. The next `write` copies 40 bytes to 32720..32759, across the magic at 32736, so the chip no longer reads as initialised | also wrap when the page after the advanced pointer would not fit below the boot sector (`head + 2 * pageSize > bootSectorStart`), or require that `pageSize` divide 32736 | not executed | Findings.AsWrittenOverrunsBootSector | Findings.CorrectedKeepsBootSector |
