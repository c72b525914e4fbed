/**
 The `RingBuffer` class: fixed-size pages kept in the data region
 `[0, BootSectorStart)` of the FRAM, with a 32-byte boot sector at the top
 of the chip that persists the control fields

   offset 0   magic       4 bytes
   offset 4   head        2 bytes  (where the next page is written)
   offset 6   tail        2 bytes  (where the next page is read)
   offset 8   pageSize    2 bytes
   offset 10  empty marker 1 byte  (nonzero: the buffer holds no page)

 The object caches nothing: every getter reads the chip and every setter
 writes it, so each operation here is a function from store to store.
 Queries return no store at all, which is how "does not modify the store"
 is expressed.
 */
module RingBuffer {
  import opened Codec
  import opened Fram

  const BootSectorSize: nat := 32
  const BootSectorStart: nat := 0x7FE0  // StoreSize - BootSectorSize = 32736
  const MagicBytes: uint32 := 0xFEED_C0DE
  const HeadOffset: nat := 4
  const TailOffset: nat := 6
  const PageSizeOffset: nat := 8
  const EmptyMarkerOffset: nat := 10
  /** The address both pointers start from and wrap back to. */
  const StartData: uint16 := 0

  /** The control fields as they sit in the boot sector. */
  datatype BootSector = BootSector(magic: uint32, head: uint16, tail: uint16, pageSize: uint16, emptyMarker: uint8)

  function Min(a: nat, b: nat): nat
  {
    if a < b then a else b
  }

  /** `a + b` in `uint16_t` arithmetic: the sum wraps around past 0xFFFF. */
  function Add16(a: uint16, b: uint16): uint16
  {
    if a + b < 0x1_0000 then a + b else a + b - 0x1_0000
  }

  /** `Add16` is addition modulo 2^16. */
  lemma Add16IsModular(a: uint16, b: uint16)
    ensures Add16(a, b) == (a + b) % 0x1_0000
  {
  }

  // ---------------------------------------------------------------------
  // Field access

  /** The 16-bit field at `addr`, least significant byte first. */
  function ReadUint16(s: Store, addr: nat): uint16
  {
    Read8(s, addr) + 0x100 * Read8(s, addr + 1)
  }

  /** The 32-bit field at `addr`, least significant byte first. */
  function ReadUint32(s: Store, addr: nat): uint32
  {
    Read8(s, addr) + 0x100 * Read8(s, addr + 1) + 0x1_0000 * Read8(s, addr + 2) + 0x100_0000 * Read8(s, addr + 3)
  }

  /** Stores `v` in the two bytes at `addr`, least significant first;
      reading them back yields `v` and no other byte changes. */
  function WriteUint16(s: Store, addr: nat, v: uint16): (r: Store)
    ensures ReadUint16(r, addr) == v
    ensures forall j {:trigger r[j]} :: 0 <= j < StoreSize && j != Cell(addr) && j != Cell(addr + 1) ==> r[j] == s[j]
  {
    Write8(Write8(s, addr, v % 0x100), addr + 1, v / 0x100)
  }

  /** Writing back the value just read changes nothing: together with
      `WriteUint16`'s contract, the two bytes at `addr` and the 16-bit
      values are in one-to-one correspondence. */
  lemma WriteWhatWasRead(s: Store, addr: nat)
    ensures WriteUint16(s, addr, ReadUint16(s, addr)) == s
  {
    var lo, hi := Read8(s, addr), Read8(s, addr + 1);
    SplitByte(lo, hi);
    var r := WriteUint16(s, addr, ReadUint16(s, addr));
    assert Cell(addr + 1) != Cell(addr);
    forall j | 0 <= j < StoreSize
      ensures r[j] == s[j]
    {
    }
  }

  /** The field reads decode the bytes they read as `Codec` does. */
  lemma ReadDecodes(s: Store, addr: nat)
    ensures ReadUint16(s, addr) == DecodeU16(Read8(s, addr), Read8(s, addr + 1))
    ensures ReadUint32(s, addr) == DecodeU32(Read8(s, addr), Read8(s, addr + 1), Read8(s, addr + 2), Read8(s, addr + 3))
  {
  }

  /** A field read loses nothing: encoding the value read gives back
      exactly the bytes at `addr`. */
  lemma ReadsEncodeBack(s: Store, addr: nat)
    ensures EncodeU16(ReadUint16(s, addr)) == [Read8(s, addr), Read8(s, addr + 1)]
    ensures EncodeU32(ReadUint32(s, addr)) == [Read8(s, addr), Read8(s, addr + 1), Read8(s, addr + 2), Read8(s, addr + 3)]
  {
    EncodeDecodeU16(Read8(s, addr), Read8(s, addr + 1));
    EncodeDecodeU32(Read8(s, addr), Read8(s, addr + 1), Read8(s, addr + 2), Read8(s, addr + 3));
  }

  /** The field write stores the bytes `Codec` encodes, in order. */
  lemma WriteEncodes(s: Store, addr: nat, v: uint16)
    ensures WriteUint16(s, addr, v) == Write8(Write8(s, addr, EncodeU16(v)[0]), addr + 1, EncodeU16(v)[1])
  {
  }

  function GetPageSize(s: Store): uint16
  {
    ReadUint16(s, BootSectorStart + PageSizeOffset)
  }

  function GetHead(s: Store): uint16
  {
    ReadUint16(s, BootSectorStart + HeadOffset)
  }

  function GetTail(s: Store): uint16
  {
    ReadUint16(s, BootSectorStart + TailOffset)
  }

  function EmptyMarker(s: Store): uint8
  {
    Read8(s, BootSectorStart + EmptyMarkerOffset)
  }

  function ReadBootSector(s: Store): BootSector
  {
    BootSector(ReadUint32(s, BootSectorStart), GetHead(s), GetTail(s), GetPageSize(s), EmptyMarker(s))
  }

  predicate IsEmpty(s: Store)
  {
    EmptyMarker(s) > 0
  }

  predicate IsFull(s: Store)
  {
    !IsEmpty(s) && GetHead(s) == GetTail(s)
  }

  predicate IsInitialized(s: Store)
  {
    MagicBytes == ReadUint32(s, BootSectorStart)
  }

  /** Where the control fields live: each getter decodes its bytes of the
      boot sector, least significant first, and the marker is one byte. */
  lemma FieldLayout(s: Store)
    ensures EncodeU16(GetHead(s)) == s[BootSectorStart + HeadOffset..BootSectorStart + HeadOffset + 2]
    ensures EncodeU16(GetTail(s)) == s[BootSectorStart + TailOffset..BootSectorStart + TailOffset + 2]
    ensures EncodeU16(GetPageSize(s)) == s[BootSectorStart + PageSizeOffset..BootSectorStart + PageSizeOffset + 2]
    ensures IsEmpty(s) <==> s[BootSectorStart + EmptyMarkerOffset] != 0
  {
    ReadsEncodeBack(s, BootSectorStart + HeadOffset);
    ReadsEncodeBack(s, BootSectorStart + TailOffset);
    ReadsEncodeBack(s, BootSectorStart + PageSizeOffset);
  }

  /** A chip is initialised exactly when the first four bytes of its boot
      sector are the encoding of the magic number. */
  lemma InitializedMeansMagic(s: Store)
    ensures IsInitialized(s) <==> s[BootSectorStart..BootSectorStart + 4] == EncodeU32(MagicBytes)
  {
    var v := ReadUint32(s, BootSectorStart);
    ReadsEncodeBack(s, BootSectorStart);
    assert EncodeU32(v) == s[BootSectorStart..BootSectorStart + 4];
    if EncodeU32(v) == EncodeU32(MagicBytes) {
      var b := EncodeU32(v);
      assert v == DecodeU32(b[0], b[1], b[2], b[3]) == MagicBytes;
    }
  }

  /** Setting a pointer to the value just read from it changes nothing. */
  lemma SetWhatWasGot(s: Store)
    ensures SetHead(s, GetHead(s)) == s
    ensures SetTail(s, GetTail(s)) == s
  {
    WriteWhatWasRead(s, BootSectorStart + HeadOffset);
    WriteWhatWasRead(s, BootSectorStart + TailOffset);
  }

  /** Moves the head; every other field and every other byte is kept. */
  function SetHead(s: Store, head: uint16): (r: Store)
    ensures ReadBootSector(r) == ReadBootSector(s).(head := head)
    ensures forall j {:trigger r[j]} :: 0 <= j < StoreSize && j != BootSectorStart + HeadOffset && j != BootSectorStart + HeadOffset + 1 ==> r[j] == s[j]
    ensures r[..BootSectorStart] == s[..BootSectorStart]
  {
    WriteUint16(s, BootSectorStart + HeadOffset, head)
  }

  /** Moves the tail; every other field and every other byte is kept. */
  function SetTail(s: Store, tail: uint16): (r: Store)
    ensures ReadBootSector(r) == ReadBootSector(s).(tail := tail)
    ensures forall j {:trigger r[j]} :: 0 <= j < StoreSize && j != BootSectorStart + TailOffset && j != BootSectorStart + TailOffset + 1 ==> r[j] == s[j]
    ensures r[..BootSectorStart] == s[..BootSectorStart]
  {
    WriteUint16(s, BootSectorStart + TailOffset, tail)
  }

  /** Records emptiness in the marker byte (0xFF or 0x00); `IsEmpty` then
      reports exactly `empty`, and nothing else changes. */
  function SetEmpty(s: Store, empty: bool): (r: Store)
    ensures IsEmpty(r) == empty
    ensures ReadBootSector(r) == ReadBootSector(s).(emptyMarker := if empty then 0xFF else 0x00)
    ensures forall j {:trigger r[j]} :: 0 <= j < StoreSize && j != BootSectorStart + EmptyMarkerOffset ==> r[j] == s[j]
    ensures r[..BootSectorStart] == s[..BootSectorStart]
  {
    Write8(s, BootSectorStart + EmptyMarkerOffset, if empty then 0xFF else 0x00)
  }

  // ---------------------------------------------------------------------
  // format

  /** The first `n` steps of `format`'s first loop: a zero written to each
      address below `n` in turn, starting at address 0. Those bytes are then
      zero and the bytes from `n` on are kept. */
  function ClearBelow(s: Store, n: nat): (r: Store)
    requires n <= StoreSize
    ensures forall j :: 0 <= j < n ==> r[j] == 0
    ensures forall j {:trigger r[j]} :: n <= j < StoreSize ==> r[j] == s[j]
  {
    if n == 0 then s else Write8(ClearBelow(s, n - 1), n - 1, 0)
  }

  /** `format`'s first loop: a zero written to every address of the chip. */
  function Clear(s: Store): (r: Store)
    ensures forall j :: 0 <= j < StoreSize ==> r[j] == 0
  {
    ClearBelow(s, |s|)
  }

  /** The eleven bytes `format` writes from the start of the boot sector:
      the magic, the head and the tail at the start of the data, the page
      size (each least significant byte first) and an empty marker. */
  function BootBytes(pageSize: uint16): (b: seq<uint8>)
    ensures |b| == EmptyMarkerOffset + 1
    ensures forall i :: HeadOffset <= i < PageSizeOffset ==> b[i] == 0
  {
    [0xDE, 0xC0, 0xED, 0xFE, 0, 0, 0, 0, pageSize % 0x100, pageSize / 0x100, 0xFF]
  }

  /** The first four bytes `format` writes are the magic, least significant
      byte first, and each pointer is written as two zero bytes. */
  lemma BootBytesEncode(pageSize: uint16)
    ensures BootBytes(pageSize) == EncodeU32(MagicBytes) + EncodeU16(StartData) + EncodeU16(StartData)
                                   + EncodeU16(pageSize) + [0xFF]
  {
    assert MagicBytes % 0x1_0000 == 0xC0DE && MagicBytes / 0x1_0000 == 0xFEED;
    assert EncodeU16(0xC0DE) == [0xDE, 0xC0] && EncodeU16(0xFEED) == [0xED, 0xFE];
    assert EncodeU32(MagicBytes) == [0xDE, 0xC0, 0xED, 0xFE];
    assert EncodeU16(StartData) == [0, 0];
  }

  /** The byte writes `format` makes after clearing, one `write8` each, in
      the order of the boot sector. Nothing outside the first eleven bytes
      of the boot sector changes, and the pointer bytes end up zero. */
  function WriteBootSector(s: Store, pageSize: uint16): (r: Store)
    ensures forall j {:trigger r[j]} :: 0 <= j < StoreSize && !(BootSectorStart <= j < BootSectorStart + EmptyMarkerOffset + 1) ==> r[j] == s[j]
    ensures forall j :: BootSectorStart + HeadOffset <= j < BootSectorStart + PageSizeOffset ==> r[j] == 0
  {
    WriteBytes(s, BootSectorStart, BootBytes(pageSize))
  }

  /** The bytes `format` writes land at the start of the boot sector. */
  lemma WriteBootSectorBytes(s: Store, pageSize: uint16)
    ensures forall j :: BootSectorStart <= j < BootSectorStart + EmptyMarkerOffset + 1 ==>
              WriteBootSector(s, pageSize)[j] == BootBytes(pageSize)[j - BootSectorStart]
  {
  }

  /** A boot sector that starts with the bytes `format` writes reads back as
      the magic, both pointers at the start of the data, the page size and
      an empty marker. */
  lemma BootSectorFields(r: Store, pageSize: uint16)
    requires forall j :: BootSectorStart <= j < BootSectorStart + EmptyMarkerOffset + 1 ==>
               r[j] == BootBytes(pageSize)[j - BootSectorStart]
    ensures ReadBootSector(r) == BootSector(MagicBytes, StartData, StartData, pageSize, 0xFF)
  {
    var b := BootBytes(pageSize);
    assert r[BootSectorStart] == b[0] && r[BootSectorStart + 1] == b[1];
    assert r[BootSectorStart + 2] == b[2] && r[BootSectorStart + 3] == b[3];
    assert r[BootSectorStart + HeadOffset] == b[HeadOffset];
    assert r[BootSectorStart + PageSizeOffset] == b[PageSizeOffset];
    assert r[BootSectorStart + PageSizeOffset + 1] == b[PageSizeOffset + 1];
    assert r[BootSectorStart + EmptyMarkerOffset] == b[EmptyMarkerOffset];
  }

  /** Clears the whole chip, whatever it held, then writes the boot sector.
      Every byte but the magic, the page size and the marker is zero. */
  function Format(s: Store, pageSize: uint16): (r: Store)
    ensures forall j :: 0 <= j < StoreSize && !(BootSectorStart <= j < BootSectorStart + 4)
                     && j != BootSectorStart + PageSizeOffset && j != BootSectorStart + PageSizeOffset + 1
                     && j != BootSectorStart + EmptyMarkerOffset
                     ==> r[j] == 0
  {
    WriteBootSector(Clear(s), pageSize)
  }

  /** A formatted chip is initialised and empty (so not full), with both
      pointers at the start of the data and the given page size. */
  lemma FormatFields(s: Store, pageSize: uint16)
    ensures ReadBootSector(Format(s, pageSize)) == BootSector(MagicBytes, StartData, StartData, pageSize, 0xFF)
    ensures IsInitialized(Format(s, pageSize))
    ensures IsEmpty(Format(s, pageSize)) && !IsFull(Format(s, pageSize))
  {
    WriteBootSectorBytes(Clear(s), pageSize);
    BootSectorFields(Format(s, pageSize), pageSize);
  }

  // ---------------------------------------------------------------------
  // Pointer advance

  /** Which wrap test advances a pointer: the firmware's own, or the same
      test with one more reason to wrap, namely that the page after the
      advanced pointer would not fit below the boot sector. */
  datatype WrapTest = AsWritten | Corrected

  /** The firmware compares the sum of two `uint16_t` values, which the
      16-bit `int` of the AVR target computes modulo 2^16. The corrected test
      compares the true sums. */
  predicate Wraps(test: WrapTest, ptr: uint16, pageSize: uint16)
  {
    match test
    case AsWritten => Add16(ptr, pageSize) >= BootSectorStart
    case Corrected => ptr + pageSize >= BootSectorStart || ptr + pageSize + pageSize > BootSectorStart
  }

  /** The pointer after `ptr`: one page further on (in `uint16_t`), or back
      at the start of the data. It always points into the data region; under
      the corrected test a whole page fits there. */
  function Next(test: WrapTest, ptr: uint16, pageSize: uint16): (r: uint16)
    ensures r < BootSectorStart
    ensures test == Corrected && pageSize <= BootSectorStart ==> r + pageSize <= BootSectorStart
  {
    if Wraps(test, ptr, pageSize) then StartData else Add16(ptr, pageSize)
  }

  // ---------------------------------------------------------------------
  // Page transfer

  /** Copies `min(size, pageSize)` bytes of the page to `addr` and clears the
      empty marker. Below the boot sector the store is exactly what the byte
      loop leaves; when the page fits there, the only field that changes is
      the marker. */
  function WritePage(s: Store, addr: uint16, pageSize: uint16, page: seq<uint8>): (r: Store)
    ensures !IsEmpty(r)
    ensures r[..BootSectorStart] == WriteBytes(s, addr, page[..Min(|page|, pageSize)])[..BootSectorStart]
    ensures addr + Min(|page|, pageSize) <= BootSectorStart ==> ReadBootSector(r) == ReadBootSector(s).(emptyMarker := 0)
  {
    var n := Min(|page|, pageSize);
    var copied := WriteBytes(s, addr, page[..n]);
    assert addr + n <= BootSectorStart ==> ReadBootSector(copied) == ReadBootSector(s) by {
      if addr + n <= BootSectorStart {
        assert copied[BootSectorStart..] == s[BootSectorStart..];
        SameBootSector(copied, s);
      }
    }
    SetEmpty(copied, false)
  }

  /** The control fields depend on the boot sector bytes alone. */
  lemma SameBootSector(s: Store, t: Store)
    requires s[BootSectorStart..] == t[BootSectorStart..]
    ensures ReadBootSector(s) == ReadBootSector(t)
  {
    forall j | BootSectorStart <= j < StoreSize
      ensures s[j] == t[j]
    {
      assert s[j] == s[BootSectorStart..][j - BootSectorStart];
    }
  }

  /** Fills the first `min(size, pageSize)` bytes of the caller's buffer from
      `addr` and leaves the rest of the buffer; moves the tail one page past
      `addr`, truncated to 16 bits. */
  function ReadPage(s: Store, addr: uint16, pageSize: uint16, buf: seq<uint8>): (r: (seq<uint8>, Store))
    ensures |r.0| == |buf|
    ensures forall i :: 0 <= i < Min(|buf|, pageSize) ==> r.0[i] == Read8(s, addr + i)
    ensures r.0[Min(|buf|, pageSize)..] == buf[Min(|buf|, pageSize)..]
    ensures addr + Min(|buf|, pageSize) <= StoreSize ==>
              r.0 == s[addr..addr + Min(|buf|, pageSize)] + buf[Min(|buf|, pageSize)..]
    ensures ReadBootSector(r.1) == ReadBootSector(s).(tail := Add16(addr, pageSize))
    ensures r.1[..BootSectorStart] == s[..BootSectorStart]
  {
    var n := Min(|buf|, pageSize);
    var page := ReadBytes(s, addr, n) + buf[n..];
    var moved := SetTail(s, Add16(addr, pageSize));
    assert page[n..] == buf[n..];
    assert moved[..BootSectorStart] == s[..BootSectorStart] by {
      forall j | 0 <= j < BootSectorStart
        ensures moved[j] == s[j]
      {
      }
    }
    (page, moved)
  }

  // ---------------------------------------------------------------------
  // write / read

  /** Stores a page at the head and advances the head; on a full buffer the
      tail is advanced first, dropping the oldest page. Never fails. */
  function Write(test: WrapTest, s: Store, page: seq<uint8>): (r: Store)
    ensures !IsEmpty(r)
    ensures GetHead(r) == Next(test, GetHead(s), GetPageSize(s))
    ensures r[..BootSectorStart] == WriteBytes(s, GetHead(s), page[..Min(|page|, GetPageSize(s))])[..BootSectorStart]
    ensures GetHead(s) + Min(|page|, GetPageSize(s)) <= BootSectorStart ==>
              var next := Next(test, GetHead(s), GetPageSize(s));
              && ReadBootSector(r) == ReadBootSector(s).(head := next,
                                                         tail := if IsFull(s) then next else GetTail(s),
                                                         emptyMarker := 0)
              && (IsFull(s) ==> IsFull(r))
  {
    var head := GetHead(s);
    var tail := GetTail(s);
    var pageSize := GetPageSize(s);
    var nextHead := Next(test, head, pageSize);
    var advanced := if !IsEmpty(s) && head == tail then SetTail(s, nextHead) else s;
    var written := WritePage(advanced, head, pageSize, page);
    WriteBytesAgree(advanced, s, head, page[..Min(|page|, pageSize)], BootSectorStart);
    SetHead(written, nextHead)
  }

  datatype ReadResult = ReadResult(ok: bool, page: seq<uint8>, store: Store)

  /** Takes the page at the tail into the caller's buffer and advances the
      tail, marking the buffer empty when the tail reaches the head. On an
      empty buffer it reports failure and changes nothing. */
  function Read(test: WrapTest, s: Store, buf: seq<uint8>): (r: ReadResult)
    ensures r.ok == !IsEmpty(s)
    ensures |r.page| == |buf|
    ensures IsEmpty(s) ==> r == ReadResult(false, buf, s)
  {
    if IsEmpty(s) then ReadResult(false, buf, s)
    else
      var head := GetHead(s);
      var tail := GetTail(s);
      var pageSize := GetPageSize(s);
      var nextTail := Next(test, tail, pageSize);
      var copied := ReadPage(s, tail, pageSize, buf);
      var stored := SetTail(copied.1, nextTail);
      ReadResult(true, copied.0, if nextTail == head then SetEmpty(stored, true) else stored)
  }

  /** A successful read fills the buffer from the tail and keeps the rest of
      it. */
  lemma ReadFillsBuffer(test: WrapTest, s: Store, buf: seq<uint8>)
    requires !IsEmpty(s)
    ensures forall i :: 0 <= i < Min(|buf|, GetPageSize(s)) ==> Read(test, s, buf).page[i] == Read8(s, GetTail(s) + i)
    ensures Read(test, s, buf).page[Min(|buf|, GetPageSize(s))..] == buf[Min(|buf|, GetPageSize(s))..]
  {
  }

  /** When the bytes read lie before the end of the chip, the page read is
      the stored bytes at the tail followed by the rest of the buffer. */
  lemma ReadTakesSlice(test: WrapTest, s: Store, buf: seq<uint8>)
    requires !IsEmpty(s) && GetTail(s) + Min(|buf|, GetPageSize(s)) <= StoreSize
    ensures Read(test, s, buf).page
         == s[GetTail(s)..GetTail(s) + Min(|buf|, GetPageSize(s))] + buf[Min(|buf|, GetPageSize(s))..]
  {
  }

  /** A successful read leaves the data region alone, moves the tail on by
      the wrap test, and sets the empty marker exactly when the tail has
      caught up with the head. */
  lemma ReadMovesTail(test: WrapTest, s: Store, buf: seq<uint8>)
    requires !IsEmpty(s)
    ensures Read(test, s, buf).store[..BootSectorStart] == s[..BootSectorStart]
    ensures var next := Next(test, GetTail(s), GetPageSize(s));
            ReadBootSector(Read(test, s, buf).store)
            == ReadBootSector(s).(tail := next, emptyMarker := if next == GetHead(s) then 0xFF else 0)
  {
    var next := Next(test, GetTail(s), GetPageSize(s));
    var stored := SetTail(ReadPage(s, GetTail(s), GetPageSize(s), buf).1, next);
    assert EmptyMarker(s) == 0;
    assert ReadBootSector(stored) == ReadBootSector(s).(tail := next);
  }
}
