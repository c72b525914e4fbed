/**
 The firmware's wrap test (RingBuffer.cpp, `write` and `read`) sends a pointer
 back to the start of the data only when the pointer plus one page reaches the
 boot sector. That asks whether the page just written ended there, not whether
 the next page fits. When the page size does not divide the data region, the
 head can stop less than a page below the boot sector, and the next `write`
 then copies the page over the boot sector.

 This module exhibits that on the firmware's test and states the property the
 corrected test restores. The rest of the model runs on either test: its
 refinement proofs assume `WrapSafe`, which holds for the corrected test
 always and for the firmware's test exactly when the page size divides 32736.
 */
module Findings {
  import opened Codec
  import opened Fram
  import opened RingBuffer
  import opened Refinement

  /** A 32-bit field whose low byte is not 0xDE is not the magic number. */
  lemma NotMagic(b0: uint8, b1: uint8, b2: uint8, b3: uint8)
    requires b0 != 0xDE
    ensures b0 + 0x100 * b1 + 0x1_0000 * b2 + 0x100_0000 * b3 != MagicBytes
  {
    var q := b1 + 0x100 * b2 + 0x1_0000 * b3;
    assert b0 + 0x100 * b1 + 0x1_0000 * b2 + 0x100_0000 * b3 == b0 + 0x100 * q;
    SplitByte(b0, q);
    assert MagicBytes % 0x100 == 0xDE;
  }

  /** Under the firmware's test, a write from a head less than two pages
      below the boot sector (but more than one) does not wrap: the head
      moves to a pointer that is no longer the start of a slot, and the
      buffer stops being well-formed while it still looks initialised. */
  lemma AsWrittenStopsShort(s: Store, page: seq<uint8>)
    requires Valid(s)
    requires GetHead(s) + GetPageSize(s) < BootSectorStart < GetHead(s) + GetPageSize(s) + GetPageSize(s)
    ensures var r := Write(AsWritten, s, page);
            && GetHead(r) == GetHead(s) + GetPageSize(s)
            && GetPageSize(r) == GetPageSize(s)
            && IsInitialized(r)
            && !Valid(r)
  {
  }

  /** A page written at a head that lies less than one page below the boot
      sector lands on it: the byte of the page that falls on the first byte
      of the magic number replaces it, so unless that byte happens to be
      0xDE the buffer no longer reads as initialised. */
  lemma OverrunClobbersMagic(test: WrapTest, s: Store, page: seq<uint8>)
    requires GetHead(s) <= BootSectorStart < GetHead(s) + Min(|page|, GetPageSize(s)) <= StoreSize
    requires page[BootSectorStart - GetHead(s)] != 0xDE
    ensures !IsInitialized(Write(test, s, page))
  {
    var head := GetHead(s);
    var nextHead := Next(test, head, GetPageSize(s));
    var advanced := if !IsEmpty(s) && head == GetTail(s) then SetTail(s, nextHead) else s;
    PageLands(advanced, head, GetPageSize(s), page, BootSectorStart);
    var r := Write(test, s, page);
    assert r[BootSectorStart] == page[BootSectorStart - head];
    NotMagic(r[BootSectorStart], r[BootSectorStart + 1], r[BootSectorStart + 2], r[BootSectorStart + 3]);
  }

  /** `writePage` puts each byte of the page it copies at its place after
      `addr`, the empty marker aside. */
  lemma PageLands(s: Store, addr: nat, pageSize: uint16, page: seq<uint8>, j: nat)
    requires addr < 0x1_0000 && addr <= j < addr + Min(|page|, pageSize) <= StoreSize
    requires j != BootSectorStart + EmptyMarkerOffset
    ensures WritePage(s, addr, pageSize, page)[j] == page[j - addr]
  {
  }

  /** Two writes under the firmware's test from a head less than two pages
      but more than one below the boot sector: the first leaves the buffer
      initialised but no longer well-formed, the second overwrites the
      magic number with page data. */
  lemma AsWrittenOverrun(s: Store, page: seq<uint8>)
    requires Valid(s) && GetPageSize(s) <= |page|
    requires GetHead(s) + GetPageSize(s) < BootSectorStart < GetHead(s) + GetPageSize(s) + GetPageSize(s) <= StoreSize
    requires page[BootSectorStart - GetHead(s) - GetPageSize(s)] != 0xDE
    ensures var s1 := Write(AsWritten, s, page);
            && IsInitialized(s1) && !Valid(s1)
            && !IsInitialized(Write(AsWritten, s1, page))
  {
    var s1 := Write(AsWritten, s, page);
    assert IsInitialized(s1) && !Valid(s1) && GetHead(s1) == GetHead(s) + GetPageSize(s)
        && GetPageSize(s1) == GetPageSize(s) by {
      AsWrittenStopsShort(s, page);
    }
    OverrunClobbersMagic(AsWritten, s1, page);
  }

  /** The boot sector of a buffer of 40-byte pages whose head is at the
      last slot, 32680, and whose tail is at 0, as `format(40)`,
      `setHead(32680)` and `setEmpty(false)` leave it. */
  const LastSlot := BootSector(MagicBytes, 32680, StartData, 40, 0)

  /** The setter route to `LastSlot`, from any prior contents of the chip. */
  lemma LastSlotReached(prior: Store)
    ensures ReadBootSector(SetEmpty(SetHead(Format(prior, 40), 32680), false)) == LastSlot
  {
    FormatFields(prior, 40);
  }

  /** The counterexample: with 40-byte pages (40 does not divide 32736) the
      firmware's test takes a well-formed buffer, in two writes of a page
      whose byte 16 is not 0xDE, to one whose magic number is overwritten by
      page data. */
  lemma AsWrittenOverrunsBootSector(s: Store, page: seq<uint8>)
    requires ReadBootSector(s) == LastSlot
    requires 40 <= |page| && page[16] != 0xDE
    ensures Rem(BootSectorStart, 40) != 0
    ensures Valid(s)
    ensures var s1 := Write(AsWritten, s, page);
            && IsInitialized(s1) && !Valid(s1)
            && !IsInitialized(Write(AsWritten, s1, page))
  {
    assert Rem(BootSectorStart, 40) == 16 by {
      QuotOfPages(818, 16, 40);
    }
    assert Valid(s) && GetHead(s) == 32680 && GetPageSize(s) == 40 by {
      QuotOfPages(817, 0, 40);
    }
    AsWrittenOverrun(s, page);
  }

  /** Under the corrected test every write keeps a well-formed buffer
      well-formed, initialised and with the same page size, whatever the page
      size: no page is ever written over the boot sector. */
  lemma CorrectedKeepsBootSector(s: Store, page: seq<uint8>)
    requires Valid(s)
    ensures var r := Write(Corrected, s, page);
            && Valid(r) && IsInitialized(r) && GetPageSize(r) == GetPageSize(s)
            && GetHead(r) + GetPageSize(r) <= BootSectorStart
  {
    WriteRefines(Corrected, s, page);
  }
}
