/**
 The ring buffer on the chip refines the bounded page FIFO of `PageQueue`.

 A well-formed store (`Valid`) has a positive page size that fits below the
 boot sector, both pointers on page boundaries inside the data region, the
 magic in place, and equal pointers whenever the empty marker is set. Such a
 store denotes a `Ring` of `BootSectorStart / pageSize` slots, and through it
 the queue `Abs(s)` of pages it holds, oldest first.
 */
module Refinement {
  import opened Codec
  import opened Fram
  import opened RingBuffer
  import opened PageQueue

  // ---------------------------------------------------------------------
  // Whole pages, by repeated subtraction

  /** How many whole pages of `p` bytes fit in `a` bytes. */
  function Quot(a: nat, p: nat): nat
    requires 0 < p
    decreases a
  {
    if a < p then 0 else 1 + Quot(a - p, p)
  }

  /** The bytes left over after the whole pages. */
  function Rem(a: nat, p: nat): nat
    requires 0 < p
    decreases a
  {
    if a < p then a else Rem(a - p, p)
  }

  /** `a` bytes are `Quot` whole pages and a remainder shorter than a page. */
  lemma {:induction false} QuotRem(a: nat, p: nat)
    requires 0 < p
    ensures a == Quot(a, p) * p + Rem(a, p) && Rem(a, p) < p
    decreases a
  {
    if a >= p {
      QuotRem(a - p, p);
      assert (Quot(a - p, p) + 1) * p == Quot(a - p, p) * p + p;
    }
  }

  /** `k` whole pages and a shorter remainder split back into `k` and that
      remainder. */
  lemma {:induction false} QuotOfPages(k: nat, r: nat, p: nat)
    requires r < p
    ensures Quot(k * p + r, p) == k && Rem(k * p + r, p) == r
  {
    if k > 0 {
      assert k * p + r - p == (k - 1) * p + r;
      QuotOfPages(k - 1, r, p);
    }
  }

  /** `Quot` and `Rem` are Dafny's division and remainder. */
  lemma QuotRemAreDivMod(a: nat, p: nat)
    requires 0 < p
    ensures Quot(a, p) == a / p && Rem(a, p) == a % p
  {
    var q, r := a / p, a % p;
    assert a == q * p + r && r < p;
    QuotOfPages(q, r, p);
  }

  /** The number of whole pages below the boot sector. */
  function Capacity(pageSize: nat): nat
    requires 0 < pageSize
  {
    Quot(BootSectorStart, pageSize)
  }

  /** The wrap test never lets a page cross into the boot sector: the
      corrected test always, the firmware's when the page size divides the
      data region. */
  predicate WrapSafe(test: WrapTest, pageSize: nat)
    requires 0 < pageSize
  {
    test == Corrected || Rem(BootSectorStart, pageSize) == 0
  }

  /** A pointer at the start of a slot: page-aligned, with a whole page
      between it and the boot sector. */
  predicate OnSlot(ptr: nat, p: nat)
    requires 0 < p
  {
    Rem(ptr, p) == 0 && ptr + p <= BootSectorStart
  }

  predicate Valid(s: Store)
  {
    var p := GetPageSize(s);
    && IsInitialized(s)
    && 0 < p
    && OnSlot(GetHead(s), p)
    && OnSlot(GetTail(s), p)
    && (IsEmpty(s) ==> GetHead(s) == GetTail(s))
  }

  // ---------------------------------------------------------------------
  // Page-boundary arithmetic

  lemma CapacityBounds(p: nat)
    requires 0 < p <= BootSectorStart
    ensures 0 < Capacity(p)
    ensures Capacity(p) * p <= BootSectorStart < Capacity(p) * p + p
    ensures BootSectorStart == Capacity(p) * p + Rem(BootSectorStart, p)
  {
    QuotRem(BootSectorStart, p);
  }

  lemma MulLe(a: nat, b: nat, p: nat)
    requires a <= b
    ensures a * p <= b * p
  {
  }

  /** Slot `k` lies wholly below the boot sector. */
  lemma SlotFits(k: nat, p: nat)
    requires 0 < p <= BootSectorStart && k < Capacity(p)
    ensures k * p + p <= BootSectorStart
  {
    CapacityBounds(p);
    MulLe(k + 1, Capacity(p), p);
  }

  /** The start of slot `k` is aligned and lies in slot `k`. */
  lemma AddrOfSlot(k: nat, p: nat)
    requires 0 < p
    ensures Quot(k * p, p) == k && Rem(k * p, p) == 0
  {
    QuotOfPages(k, 0, p);
  }

  /** A slot-start pointer is the start of slot `Quot(ptr, p)`, which is a
      slot of the data region. */
  lemma SlotOfAddr(ptr: nat, p: nat)
    requires 0 < p && OnSlot(ptr, p)
    ensures ptr == Quot(ptr, p) * p && Quot(ptr, p) < Capacity(p)
  {
    QuotRem(ptr, p);
    CapacityBounds(p);
  }

  /** The slot the head points at. */
  function HeadSlot(s: Store): (k: nat)
    requires Valid(s)
    ensures k < Capacity(GetPageSize(s)) && GetHead(s) == k * GetPageSize(s)
  {
    SlotOfAddr(GetHead(s), GetPageSize(s));
    Quot(GetHead(s), GetPageSize(s))
  }

  /** The slot the tail points at. */
  function TailSlot(s: Store): (k: nat)
    requires Valid(s)
    ensures k < Capacity(GetPageSize(s)) && GetTail(s) == k * GetPageSize(s)
  {
    SlotOfAddr(GetTail(s), GetPageSize(s));
    Quot(GetTail(s), GetPageSize(s))
  }

  /** Distinct slots do not overlap. */
  lemma SlotsApart(k: nat, l: nat, p: nat)
    requires 0 < p && k != l
    ensures k * p + p <= l * p || l * p + p <= k * p
  {
    if k < l {
      MulLe(k + 1, l, p);
    } else {
      MulLe(l + 1, k, p);
    }
  }

  /** A lower slot ends at or before the start of a higher one. */
  lemma SlotBefore(k: nat, l: nat, p: nat)
    requires k < l
    ensures k * p + p <= l * p
  {
    MulSucc(k, p);
    MulLe(k + 1, l, p);
  }

  /** Slot starts determine their slots. */
  lemma SlotUnique(k: nat, l: nat, p: nat)
    requires 0 < p && k * p == l * p
    ensures k == l
  {
    if k != l {
      SlotsApart(k, l, p);
    }
  }

  /** Under a safe wrap test the pointer after slot `k` is the next slot
      round the circle. */
  lemma NextSlot(test: WrapTest, k: nat, p: nat)
    requires 0 < p <= BootSectorStart && k < Capacity(p) && WrapSafe(test, p)
    ensures k * p + p <= BootSectorStart
    ensures Next(test, k * p, p) == Pos(k, 1, Capacity(p)) * p
  {
    var n := Capacity(p);
    var a := k * p;
    CapacityBounds(p);
    SlotFits(k, p);
    MulSucc(k, p);
    if k + 1 < n {
      SlotFits(k + 1, p);
      assert a + p + p <= BootSectorStart;
      assert Next(test, a, p) == a + p;
    } else {
      assert a + p == n * p;
      assert Next(test, a, p) == 0;
    }
  }

  lemma MulSucc(k: nat, p: nat)
    ensures (k + 1) * p == k * p + p
  {
  }

  /** With a dividing page size the firmware's wrap test and the corrected
      one advance every page-aligned pointer of the data region alike. */
  lemma WrapTestsAgree(k: nat, p: nat)
    requires 0 < p <= BootSectorStart && k < Capacity(p) && Rem(BootSectorStart, p) == 0
    ensures k * p + p <= BootSectorStart
    ensures Next(AsWritten, k * p, p) == Next(Corrected, k * p, p)
  {
    NextSlot(AsWritten, k, p);
    NextSlot(Corrected, k, p);
  }

  // ---------------------------------------------------------------------
  // Abstraction

  /** The `pageSize` bytes of slot `k`. */
  function Slot(s: Store, k: nat, p: nat): (b: seq<uint8>)
    requires 0 < p <= BootSectorStart && k < Capacity(p)
    ensures |b| == p
  {
    SlotFits(k, p);
    s[k * p..k * p + p]
  }

  function Slots(s: Store, p: nat): (slots: seq<seq<uint8>>)
    requires 0 < p <= BootSectorStart
    ensures |slots| == Capacity(p)
    ensures forall k :: 0 <= k < |slots| ==> slots[k] == Slot(s, k, p)
  {
    seq(Capacity(p), k requires 0 <= k < Capacity(p) => Slot(s, k, p))
  }

  /** Pages held: none when the marker says empty, a whole turn when the
      pointers meet otherwise, else the distance from tail to head. */
  function Count(s: Store): nat
    requires Valid(s)
  {
    var p := GetPageSize(s);
    if IsEmpty(s) then 0 else Gap(HeadSlot(s), TailSlot(s), Capacity(p))
  }

  function View(s: Store): (v: Ring<seq<uint8>>)
    requires Valid(s)
    ensures v.Ok() && |v.slots| == Capacity(GetPageSize(s))
    ensures v.Head() == HeadSlot(s)
  {
    var p := GetPageSize(s);
    var v := Ring(Slots(s, p), TailSlot(s), Count(s));
    assert v.Head() == HeadSlot(s) by {
      if !IsEmpty(s) && Count(s) == Capacity(p) {
        assert Pos(TailSlot(s), Capacity(p), Capacity(p)) == Pos(TailSlot(s), 0, Capacity(p));
      }
    }
    v
  }

  /** The pages the buffer holds, oldest first. It is empty exactly when the
      marker says so and holds `Capacity` pages exactly when `IsFull`. */
  function Abs(s: Store): (q: seq<seq<uint8>>)
    requires Valid(s)
    ensures |q| <= Capacity(GetPageSize(s))
    ensures forall i :: 0 <= i < |q| ==> |q[i]| == GetPageSize(s)
    ensures |q| == 0 <==> IsEmpty(s)
    ensures |q| == Capacity(GetPageSize(s)) <==> IsFull(s)
  {
    View(s).Contents()
  }

  /** What the two queries report about the pages held: `isEmpty` that
      there is none, `isFull` that all `Capacity` slots hold one. A
      well-formed buffer has room for at least one page, so it is never
      both empty and full. */
  lemma EmptyOrFull(s: Store)
    requires Valid(s)
    ensures IsEmpty(s) <==> Abs(s) == []
    ensures IsFull(s) <==> |Abs(s)| == Capacity(GetPageSize(s))
    ensures !(IsEmpty(s) && IsFull(s))
  {
    CapacityBounds(GetPageSize(s));
  }

  /** A page of `min(|page|, |stale|)` new bytes over the rest of the stale slot. */
  function Fill(page: seq<uint8>, stale: seq<uint8>): (b: seq<uint8>)
    ensures |b| == |stale|
  {
    var n := Min(|page|, |stale|);
    page[..n] + stale[n..]
  }

  // ---------------------------------------------------------------------
  // Data-region lemmas

  /** Writing a page at slot `k` replaces that slot by the filled page and
      leaves every other slot. */
  lemma SlotsAfterWrite(s: Store, r: Store, k: nat, p: nat, page: seq<uint8>)
    requires 0 < p <= BootSectorStart && k < Capacity(p)
    requires r[..BootSectorStart] == WriteBytes(s, k * p, page[..Min(|page|, p)])[..BootSectorStart]
    ensures Slots(r, p) == Slots(s, p)[k := Fill(page, Slot(s, k, p))]
  {
    forall l | 0 <= l < Capacity(p)
      ensures Slots(r, p)[l] == Slots(s, p)[k := Fill(page, Slot(s, k, p))][l]
    {
      SlotAfterWrite(s, r, k, l, p, page);
    }
  }

  lemma SlotAfterWrite(s: Store, r: Store, k: nat, l: nat, p: nat, page: seq<uint8>)
    requires 0 < p <= BootSectorStart && k < Capacity(p) && l < Capacity(p)
    requires r[..BootSectorStart] == WriteBytes(s, k * p, page[..Min(|page|, p)])[..BootSectorStart]
    ensures Slot(r, l, p) == if l == k then Fill(page, Slot(s, k, p)) else Slot(s, l, p)
  {
    if l == k {
      SlotFits(k, p);
      SlotWritten(s, r, k * p, p, page);
    } else {
      SlotKept(s, r, k, l, p, page[..Min(|page|, p)]);
    }
  }

  /** A slot other than the one written to keeps its bytes. */
  lemma SlotKept(s: Store, r: Store, k: nat, l: nat, p: nat, data: seq<uint8>)
    requires 0 < p <= BootSectorStart && k < Capacity(p) && l < Capacity(p) && k != l && |data| <= p
    requires r[..BootSectorStart] == WriteBytes(s, k * p, data)[..BootSectorStart]
    ensures Slot(r, l, p) == Slot(s, l, p)
  {
    SlotFits(k, p);
    SlotFits(l, p);
    if k < l {
      SlotBefore(k, l, p);
    } else {
      SlotBefore(l, k, p);
    }
    PageKept(s, r, k * p, data, l * p, p);
  }

  /** `OutsideRange` for a page-long range and a run no longer than a page. */
  lemma PageKept(s: Store, r: Store, a: nat, data: seq<uint8>, b: nat, p: nat)
    requires |data| <= p && a + p <= BootSectorStart && b + p <= BootSectorStart
    requires a + p <= b || b + p <= a
    requires r[..BootSectorStart] == WriteBytes(s, a, data)[..BootSectorStart]
    ensures r[b..b + p] == s[b..b + p]
  {
    OutsideRange(s, r, a, data, b, b + p);
  }

  /** The slot written to holds the filled page. */
  lemma SlotWritten(s: Store, r: Store, a: nat, p: nat, page: seq<uint8>)
    requires a + p <= BootSectorStart
    requires r[..BootSectorStart] == WriteBytes(s, a, page[..Min(|page|, p)])[..BootSectorStart]
    ensures r[a..a + p] == Fill(page, s[a..a + p])
  {
    SpliceRange(s, r, a, page[..Min(|page|, p)], a + p);
  }

  /** After `data` is written at `a`, the range from `a` to `c` holds `data`
      followed by the old bytes. */
  lemma SpliceRange(s: Store, r: Store, a: nat, data: seq<uint8>, c: nat)
    requires a + |data| <= c <= BootSectorStart
    requires r[..BootSectorStart] == WriteBytes(s, a, data)[..BootSectorStart]
    ensures r[a..c] == data + s[a..c][|data|..]
  {
    var w := WriteBytes(s, a, data);
    forall j | a <= j < c
      ensures r[j] == (data + s[a..c][|data|..])[j - a]
    {
      assert r[j] == r[..BootSectorStart][j] == w[..BootSectorStart][j] == w[j];
    }
  }

  /** After `data` is written at `a`, a range clear of it is unchanged. */
  lemma OutsideRange(s: Store, r: Store, a: nat, data: seq<uint8>, b: nat, c: nat)
    requires a + |data| <= BootSectorStart && b <= c <= BootSectorStart
    requires c <= a || a + |data| <= b
    requires r[..BootSectorStart] == WriteBytes(s, a, data)[..BootSectorStart]
    ensures r[b..c] == s[b..c]
  {
    var w := WriteBytes(s, a, data);
    forall j | b <= j < c
      ensures r[j] == s[j]
    {
      assert r[j] == r[..BootSectorStart][j] == w[..BootSectorStart][j] == w[j];
    }
  }

  /** Stores that agree below the boot sector hold the same slots. */
  lemma SlotsUnchanged(s: Store, r: Store, p: nat)
    requires 0 < p <= BootSectorStart
    requires r[..BootSectorStart] == s[..BootSectorStart]
    ensures Slots(r, p) == Slots(s, p)
  {
    forall l | 0 <= l < Capacity(p)
      ensures Slot(r, l, p) == Slot(s, l, p)
    {
      SlotFits(l, p);
      SameRange(s, r, l * p, l * p + p);
    }
  }

  lemma SameRange(s: Store, r: Store, b: nat, c: nat)
    requires b <= c <= BootSectorStart
    requires r[..BootSectorStart] == s[..BootSectorStart]
    ensures r[b..c] == s[b..c]
  {
    forall j | b <= j < c
      ensures r[j] == s[j]
    {
      assert r[j] == r[..BootSectorStart][j];
    }
  }

  // ---------------------------------------------------------------------
  // Refinement of format, write and read

  /** `format` yields a well-formed, empty buffer exactly for the page sizes
      the model admits. */
  lemma FormatRefines(prior: Store, pageSize: uint16)
    ensures Valid(Format(prior, pageSize)) <==> 0 < pageSize <= BootSectorStart
    ensures Valid(Format(prior, pageSize)) ==> Abs(Format(prior, pageSize)) == []
  {
    FormatFields(prior, pageSize);
    EmptyBootSector(Format(prior, pageSize), pageSize);
  }

  /** A boot sector holding the magic, both pointers at the start of the
      data and the empty marker is well-formed exactly when the page size
      is, and then denotes the empty queue. */
  lemma EmptyBootSector(s: Store, pageSize: uint16)
    requires ReadBootSector(s) == BootSector(MagicBytes, StartData, StartData, pageSize, 0xFF)
    ensures Valid(s) <==> 0 < pageSize <= BootSectorStart
    ensures Valid(s) ==> Abs(s) == []
  {
    assert GetHead(s) == 0 && GetTail(s) == 0 && GetPageSize(s) == pageSize && IsInitialized(s) && IsEmpty(s);
    if 0 < pageSize {
      assert Rem(0, pageSize) == 0;
      assert Valid(s) <==> pageSize <= BootSectorStart;
    }
  }

  /** The control fields after a write: the head moves to the next slot,
      the tail follows it when the buffer was full, and the store stays
      well-formed. */
  lemma WriteFields(test: WrapTest, s: Store, page: seq<uint8>)
    requires Valid(s) && WrapSafe(test, GetPageSize(s))
    ensures var r := Write(test, s, page);
            var p := GetPageSize(s);
            var nh := Pos(HeadSlot(s), 1, Capacity(p));
            && Valid(r) && GetPageSize(r) == p && !IsEmpty(r)
            && HeadSlot(r) == nh
            && TailSlot(r) == (if IsFull(s) then nh else TailSlot(s))
            && r[..BootSectorStart] == WriteBytes(s, GetHead(s), page[..Min(|page|, p)])[..BootSectorStart]
  {
    var p := GetPageSize(s);
    var hs := HeadSlot(s);
    var r := Write(test, s, page);
    NextSlot(test, hs, p);
    var nh := Pos(hs, 1, Capacity(p));
    AddrOfSlot(nh, p);
    SlotFits(nh, p);
    assert ReadBootSector(r) == ReadBootSector(s).(head := nh * p,
                                                   tail := if IsFull(s) then nh * p else GetTail(s),
                                                   emptyMarker := 0);
    assert Valid(r);
    SlotUnique(HeadSlot(r), nh, p);
    if IsFull(s) {
      SlotUnique(TailSlot(r), nh, p);
    } else {
      SlotUnique(TailSlot(r), TailSlot(s), p);
    }
  }

  /** On the slot circle a write is `Put`. */
  lemma WriteView(test: WrapTest, s: Store, page: seq<uint8>)
    requires Valid(s) && WrapSafe(test, GetPageSize(s))
    ensures Valid(Write(test, s, page))
    ensures View(Write(test, s, page))
         == View(s).Put(Fill(page, Slot(s, HeadSlot(s), GetPageSize(s))))
  {
    var p := GetPageSize(s);
    var n := Capacity(p);
    var hs := HeadSlot(s);
    var ts := TailSlot(s);
    var r := Write(test, s, page);
    WriteFields(test, s, page);
    SlotsAfterWrite(s, r, hs, p, page);
    var v := View(s);
    if !IsFull(s) {
      PosStep(ts, v.count, n);
      GapPos(ts, v.count + 1, n);
    }
  }

  /** A write under a safe wrap test is a push onto the page queue: the new
      page, laid over the stale bytes of its slot, joins the back, and a full
      queue loses its oldest page. */
  lemma WriteRefines(test: WrapTest, s: Store, page: seq<uint8>)
    requires Valid(s) && WrapSafe(test, GetPageSize(s))
    ensures Valid(Write(test, s, page))
    ensures GetPageSize(Write(test, s, page)) == GetPageSize(s)
    ensures Abs(Write(test, s, page))
         == Push(Abs(s), Fill(page, Slot(s, HeadSlot(s), GetPageSize(s))), Capacity(GetPageSize(s)))
  {
    WriteFields(test, s, page);
    WriteView(test, s, page);
  }

  /** The control fields after a read of a non-empty buffer: the tail moves
      to the next slot, the buffer is empty exactly when it reaches the head,
      and the data region is untouched. */
  lemma ReadFields(test: WrapTest, s: Store, buf: seq<uint8>)
    requires Valid(s) && WrapSafe(test, GetPageSize(s)) && !IsEmpty(s)
    ensures var r := Read(test, s, buf).store;
            var p := GetPageSize(s);
            var nt := Pos(TailSlot(s), 1, Capacity(p));
            && Valid(r) && GetPageSize(r) == p
            && TailSlot(r) == nt
            && GetHead(r) == GetHead(s)
            && (IsEmpty(r) <==> nt == HeadSlot(s))
            && r[..BootSectorStart] == s[..BootSectorStart]
  {
    var p := GetPageSize(s);
    var ts := TailSlot(s);
    var r := Read(test, s, buf).store;
    NextSlot(test, ts, p);
    var nt := Pos(ts, 1, Capacity(p));
    AddrOfSlot(nt, p);
    SlotFits(nt, p);
    ReadMovesTail(test, s, buf);
    assert ReadBootSector(r) == ReadBootSector(s).(tail := nt * p,
                                                   emptyMarker := if nt * p == GetHead(s) then 0xFF else 0);
    assert Valid(r);
    SlotUnique(TailSlot(r), nt, p);
    if nt * p == GetHead(s) {
      SlotUnique(nt, HeadSlot(s), p);
    }
  }

  /** On the slot circle a read of a non-empty buffer is `Take`. */
  lemma ReadView(test: WrapTest, s: Store, buf: seq<uint8>)
    requires Valid(s) && WrapSafe(test, GetPageSize(s)) && !IsEmpty(s)
    ensures Valid(Read(test, s, buf).store)
    ensures View(Read(test, s, buf).store) == View(s).Take()
  {
    var p := GetPageSize(s);
    var n := Capacity(p);
    var hs := HeadSlot(s);
    var ts := TailSlot(s);
    var r := Read(test, s, buf).store;
    ReadFields(test, s, buf);
    SlotsUnchanged(s, r, p);
    var c := View(s).count;
    var nt := Pos(ts, 1, n);
    PosShift(ts, c, n);
    if nt == hs {
      PosInjective(ts, 1, c, n);
    } else {
      GapPos(nt, c - 1, n);
    }
  }

  /** The oldest page is the slot at the tail. */
  lemma OldestAtTail(s: Store)
    requires Valid(s) && !IsEmpty(s)
    ensures 0 < |Abs(s)| && GetTail(s) + GetPageSize(s) <= BootSectorStart
    ensures Abs(s)[0] == s[GetTail(s)..GetTail(s) + GetPageSize(s)]
  {
    var v := View(s);
    assert Abs(s)[0] == v.slots[Pos(v.tail, 0, |v.slots|)] == Slot(s, TailSlot(s), GetPageSize(s));
  }

  /** The page a read of a non-empty buffer returns is the oldest page of the
      queue, cut to the caller's buffer, with the rest of the buffer kept. */
  lemma ReadPageIsOldest(test: WrapTest, s: Store, buf: seq<uint8>)
    requires Valid(s) && !IsEmpty(s)
    ensures 0 < |Abs(s)|
    ensures Read(test, s, buf).page == Abs(s)[0][..Min(|buf|, GetPageSize(s))] + buf[Min(|buf|, GetPageSize(s))..]
  {
    OldestAtTail(s);
    ReadTakesSlice(test, s, buf);
    TailBytesAreOldest(s, Read(test, s, buf).page, buf);
  }

  lemma TailBytesAreOldest(s: Store, page: seq<uint8>, buf: seq<uint8>)
    requires Valid(s) && !IsEmpty(s) && GetTail(s) + GetPageSize(s) <= BootSectorStart
    requires page == s[GetTail(s)..GetTail(s) + Min(|buf|, GetPageSize(s))] + buf[Min(|buf|, GetPageSize(s))..]
    ensures 0 < |Abs(s)|
    ensures page == Abs(s)[0][..Min(|buf|, GetPageSize(s))] + buf[Min(|buf|, GetPageSize(s))..]
  {
    var t := GetTail(s);
    var m := Min(|buf|, GetPageSize(s));
    OldestAtTail(s);
    PrefixOfSlice(s, t, t + GetPageSize(s), m);
  }

  lemma PrefixOfSlice<T>(x: seq<T>, a: nat, b: nat, m: nat)
    requires a + m <= b <= |x|
    ensures x[a..b][..m] == x[a..a + m]
  {
  }

  /** A read under a safe wrap test is a pop from the page queue: on an empty
      queue it fails and changes nothing; otherwise it hands back the oldest
      page, cut to the caller's buffer, and the queue loses it. */
  lemma ReadRefines(test: WrapTest, s: Store, buf: seq<uint8>)
    requires Valid(s) && WrapSafe(test, GetPageSize(s))
    ensures Valid(Read(test, s, buf).store)
    ensures GetPageSize(Read(test, s, buf).store) == GetPageSize(s)
    ensures Abs(s) == [] ==> Read(test, s, buf) == ReadResult(false, buf, s)
    ensures Abs(s) != [] ==>
              var m := Min(|buf|, GetPageSize(s));
              && Read(test, s, buf).ok
              && Read(test, s, buf).page == Abs(s)[0][..m] + buf[m..]
              && Abs(Read(test, s, buf).store) == Abs(s)[1..]
  {
    if !IsEmpty(s) {
      ReadFields(test, s, buf);
      ReadView(test, s, buf);
      ReadPageIsOldest(test, s, buf);
    }
  }

  /** For a dividing page size the firmware's `write` and `read` are the
      corrected ones on every well-formed store. */
  lemma AsWrittenIsCorrected(s: Store, page: seq<uint8>, buf: seq<uint8>)
    requires Valid(s) && Rem(BootSectorStart, GetPageSize(s)) == 0
    ensures Write(AsWritten, s, page) == Write(Corrected, s, page)
    ensures Read(AsWritten, s, buf) == Read(Corrected, s, buf)
  {
    var p := GetPageSize(s);
    WrapTestsAgree(HeadSlot(s), p);
    WrapTestsAgree(TailSlot(s), p);
  }
}
