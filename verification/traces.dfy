/**
 Sequences of operations on a well-formed buffer, stated against the page
 queue: a run of writes keeps the newest `Capacity` pages, and reading until
 `read` fails hands them back oldest first and leaves the buffer empty.
 */
module Traces {
  import opened Codec
  import opened Fram
  import opened RingBuffer
  import opened PageQueue
  import opened Refinement

  /** A slot of `p` bytes that starts with as much of `page` as fits. A
      page shorter than the slot leaves the rest of the slot as it was, so
      those bytes are not pinned down. */
  predicate InSlot(slot: seq<uint8>, page: seq<uint8>, p: nat)
  {
    |slot| == p && slot[..Min(|page|, p)] == page[..Min(|page|, p)]
  }

  /** `q` holds the pages of `written`, in order, each in its own slot. */
  predicate Stores(q: seq<seq<uint8>>, written: seq<seq<uint8>>, p: nat)
  {
    |q| == |written| && forall i :: 0 <= i < |q| ==> InSlot(q[i], written[i], p)
  }

  /** Pages that fill their slots are stored as themselves. */
  lemma StoresSelf(q: seq<seq<uint8>>, p: nat)
    requires forall i :: 0 <= i < |q| ==> |q[i]| == p
    ensures Stores(q, q, p)
  {
  }

  /** A slot filled from `page` holds `page`. */
  lemma FillKeepsPage(page: seq<uint8>, stale: seq<uint8>)
    ensures InSlot(Fill(page, stale), page, |stale|)
  {
  }

  /** Pushing a slot that holds `y` onto a queue that stores `h` gives a
      queue that stores `h` with `y` pushed. */
  lemma StoresPush(q: seq<seq<uint8>>, h: seq<seq<uint8>>, x: seq<uint8>, y: seq<uint8>, p: nat, n: nat)
    requires 0 < n && |q| <= n && Stores(q, h, p) && InSlot(x, y, p)
    ensures Stores(Push(q, x, n), Push(h, y, n), p)
  {
    assert Stores(q + [x], h + [y], p) by {
      forall i | 0 <= i < |q| + 1
        ensures InSlot((q + [x])[i], (h + [y])[i], p)
      {
        if i < |q| {
          assert (q + [x])[i] == q[i] && (h + [y])[i] == h[i];
        }
      }
    }
    StoresNewest(q + [x], h + [y], p, n);
  }

  /** Keeping the newest `n` of both sides keeps them in step. */
  lemma StoresNewest(q: seq<seq<uint8>>, h: seq<seq<uint8>>, p: nat, n: nat)
    requires Stores(q, h, p)
    ensures Stores(LastN(q, n), LastN(h, n), p)
  {
    var q', h' := LastN(q, n), LastN(h, n);
    var d := |q| - |q'|;
    forall i | 0 <= i < |q'|
      ensures InSlot(q'[i], h'[i], p)
    {
      assert q'[i] == q[d + i] && h'[i] == h[d + i];
    }
  }

  /** Writes `pages` in order. The buffer then stores the newest `Capacity`
      of the pages it held and the pages written. */
  method WriteAll(test: WrapTest, s: Store, pages: seq<seq<uint8>>) returns (r: Store)
    requires Valid(s) && WrapSafe(test, GetPageSize(s))
    ensures Valid(r) && GetPageSize(r) == GetPageSize(s)
    ensures Stores(Abs(r), LastN(Abs(s) + pages, Capacity(GetPageSize(s))), GetPageSize(s))
  {
    r := s;
    var i := 0;
    assert Abs(s) + pages[..0] == Abs(s);
    StoresSelf(Abs(s), GetPageSize(s));
    while i < |pages|
      invariant 0 <= i <= |pages|
      invariant Valid(r) && GetPageSize(r) == GetPageSize(s)
      invariant Stores(Abs(r), LastN(Abs(s) + pages[..i], Capacity(GetPageSize(s))), GetPageSize(s))
    {
      r := WriteStep(test, s, r, pages, i);
      i := i + 1;
    }
    assert pages[..i] == pages;
  }

  /** `write` of page `i`, keeping the loop invariant of `WriteAll`. */
  method WriteStep(test: WrapTest, s: Store, r: Store, pages: seq<seq<uint8>>, i: nat) returns (w: Store)
    requires Valid(s) && Valid(r) && GetPageSize(r) == GetPageSize(s) && WrapSafe(test, GetPageSize(s))
    requires i < |pages|
    requires Stores(Abs(r), LastN(Abs(s) + pages[..i], Capacity(GetPageSize(s))), GetPageSize(s))
    ensures Valid(w) && GetPageSize(w) == GetPageSize(s)
    ensures Stores(Abs(w), LastN(Abs(s) + pages[..i + 1], Capacity(GetPageSize(s))), GetPageSize(s))
  {
    var p := GetPageSize(s);
    var x := Fill(pages[i], Slot(r, HeadSlot(r), p));
    WriteRefines(test, r, pages[i]);
    FillKeepsPage(pages[i], Slot(r, HeadSlot(r), p));
    w := Write(test, r, pages[i]);
    HistoryStep(Abs(s), Abs(r), Abs(w), pages, i, p, Capacity(p), x);
  }

  /** Pushing the slot written from the next page onto a queue that stores
      the newest `n` of a history gives one that stores the newest `n` of
      the history one page longer. */
  lemma HistoryStep(start: seq<seq<uint8>>, q: seq<seq<uint8>>, q': seq<seq<uint8>>,
                    pages: seq<seq<uint8>>, i: nat, p: nat, n: nat, x: seq<uint8>)
    requires 0 < n && i < |pages| && |q| <= n
    requires Stores(q, LastN(start + pages[..i], n), p)
    requires InSlot(x, pages[i], p)
    requires q' == Push(q, x, n)
    ensures Stores(q', LastN(start + pages[..i + 1], n), p)
  {
    var h := start + pages[..i];
    LastNPush(h, pages[i], n);
    assert start + pages[..i + 1] == h + [pages[i]];
    StoresPush(q, LastN(h, n), x, pages[i], p, n);
  }

  /** What reading each of `pages` into `buf` hands back: the page's first
      `m` bytes followed by the rest of the buffer. */
  function IntoBuffer(pages: seq<seq<uint8>>, buf: seq<uint8>, m: nat): (r: seq<seq<uint8>>)
    requires m <= |buf| && forall i :: 0 <= i < |pages| ==> m <= |pages[i]|
    ensures |r| == |pages|
    ensures forall i :: 0 <= i < |pages| ==> r[i] == pages[i][..m] + buf[m..]
  {
    seq(|pages|, i requires 0 <= i < |pages| => pages[i][..m] + buf[m..])
  }

  /** Reads into `buf` until `read` reports an empty buffer. The pages come
      back oldest first, each the stored page cut to the buffer with the
      buffer's remaining bytes kept, and the buffer ends empty. */
  method Drain(test: WrapTest, s: Store, buf: seq<uint8>) returns (pages: seq<seq<uint8>>, r: Store)
    requires Valid(s) && WrapSafe(test, GetPageSize(s))
    ensures Valid(r) && GetPageSize(r) == GetPageSize(s) && IsEmpty(r)
    ensures pages == IntoBuffer(Abs(s), buf, Min(|buf|, GetPageSize(s)))
  {
    var m := Min(|buf|, GetPageSize(s));
    r := s;
    pages := [];
    while true
      invariant Valid(r) && GetPageSize(r) == GetPageSize(s)
      invariant |pages| <= |Abs(s)| && Abs(r) == Abs(s)[|pages|..]
      invariant forall i :: 0 <= i < |pages| ==> pages[i] == Abs(s)[i][..m] + buf[m..]
      decreases |Abs(r)|
    {
      var rr := ReadStep(test, s, r, buf, pages);
      if !rr.ok {
        break;
      }
      pages := pages + [rr.page];
      r := rr.store;
    }
  }

  /** `read` into `buf`, keeping the loop invariant of `Drain`: it fails
      exactly when every page has been taken, and otherwise hands back the
      next page in order. */
  method ReadStep(test: WrapTest, s: Store, r: Store, buf: seq<uint8>, pages: seq<seq<uint8>>)
    returns (rr: ReadResult)
    requires Valid(s) && Valid(r) && GetPageSize(r) == GetPageSize(s) && WrapSafe(test, GetPageSize(s))
    requires |pages| <= |Abs(s)| && Abs(r) == Abs(s)[|pages|..]
    requires forall i :: 0 <= i < |pages| ==>
               pages[i] == Abs(s)[i][..Min(|buf|, GetPageSize(s))] + buf[Min(|buf|, GetPageSize(s))..]
    ensures rr.ok == !IsEmpty(r)
    ensures !rr.ok ==> |pages| == |Abs(s)|
    ensures rr.ok ==>
              var pages' := pages + [rr.page];
              && Valid(rr.store) && GetPageSize(rr.store) == GetPageSize(s)
              && |pages'| <= |Abs(s)| && Abs(rr.store) == Abs(s)[|pages'|..]
              && |Abs(rr.store)| < |Abs(r)|
              && forall i :: 0 <= i < |pages'| ==>
                   pages'[i] == Abs(s)[i][..Min(|buf|, GetPageSize(s))] + buf[Min(|buf|, GetPageSize(s))..]
  {
    rr := Read(test, r, buf);
    ReadRefines(test, r, buf);
    if rr.ok {
      DrainHistory(Abs(s), Abs(r), Abs(rr.store), pages, rr.page, buf, Min(|buf|, GetPageSize(s)));
    }
  }

  /** Taking the front of what is left of a queue extends the pages taken
      so far by that front page. */
  lemma DrainHistory(start: seq<seq<uint8>>, q: seq<seq<uint8>>, q': seq<seq<uint8>>,
                     pages: seq<seq<uint8>>, page: seq<uint8>, buf: seq<uint8>, m: nat)
    requires m <= |buf| && forall i :: 0 <= i < |start| ==> m <= |start[i]|
    requires |pages| <= |start| && q == start[|pages|..] && q != [] && q' == q[1..]
    requires page == q[0][..m] + buf[m..]
    requires forall i :: 0 <= i < |pages| ==> pages[i] == start[i][..m] + buf[m..]
    ensures |pages + [page]| <= |start| && q' == start[|pages + [page]|..] && |q'| < |q|
    ensures forall i :: 0 <= i < |pages + [page]| ==> (pages + [page])[i] == start[i][..m] + buf[m..]
  {
    assert q[0] == start[|pages|];
  }

  /** `out` is what reading the stored `written` pages into `buf` hands
      back: each has the buffer's length, starts with as much of its written
      page as the first `m` bytes hold, and keeps the buffer from `m` on. */
  predicate ReadsBack(out: seq<seq<uint8>>, written: seq<seq<uint8>>, buf: seq<uint8>, m: nat)
    requires m <= |buf|
  {
    && |out| == |written|
    && forall i :: 0 <= i < |out| ==>
         && |out[i]| == |buf|
         && out[i][..Min(|written[i]|, m)] == written[i][..Min(|written[i]|, m)]
         && out[i][m..] == buf[m..]
  }

  /** Pages at least `m` bytes long are handed back exactly: their first
      `m` bytes followed by the rest of the buffer. */
  lemma ReadsBackWhole(out: seq<seq<uint8>>, written: seq<seq<uint8>>, buf: seq<uint8>, m: nat)
    requires m <= |buf| && forall i :: 0 <= i < |written| ==> m <= |written[i]|
    ensures ReadsBack(out, written, buf, m) <==> out == IntoBuffer(written, buf, m)
  {
    if ReadsBack(out, written, buf, m) {
      var want := IntoBuffer(written, buf, m);
      forall i | 0 <= i < |out|
        ensures out[i] == want[i]
      {
        assert out[i] == out[i][..m] + out[i][m..];
      }
    }
  }

  /** Formatting any chip, writing `pages` and draining into `buf` hands
      back the newest `Capacity` pages in the order written. */
  method FormatWriteDrain(test: WrapTest, prior: Store, pageSize: uint16, pages: seq<seq<uint8>>, buf: seq<uint8>)
    returns (out: seq<seq<uint8>>)
    requires 0 < pageSize <= BootSectorStart && WrapSafe(test, pageSize)
    ensures ReadsBack(out, LastN(pages, Capacity(pageSize)), buf, Min(|buf|, pageSize))
  {
    var s := Format(prior, pageSize);
    assert ReadBootSector(s) == BootSector(MagicBytes, StartData, StartData, pageSize, 0xFF) by {
      FormatFields(prior, pageSize);
    }
    out := FreshWriteDrain(test, s, pageSize, pages, buf);
  }

  /** `WriteDrain` from a boot sector as `format` leaves it. */
  method FreshWriteDrain(test: WrapTest, s: Store, pageSize: uint16, pages: seq<seq<uint8>>, buf: seq<uint8>)
    returns (out: seq<seq<uint8>>)
    requires ReadBootSector(s) == BootSector(MagicBytes, StartData, StartData, pageSize, 0xFF)
    requires 0 < pageSize <= BootSectorStart && WrapSafe(test, pageSize)
    ensures ReadsBack(out, LastN(pages, Capacity(pageSize)), buf, Min(|buf|, pageSize))
  {
    EmptyBootSector(s, pageSize);
    out := WriteDrain(test, s, pages, buf);
  }

  /** Writing `pages` to an empty buffer and draining it into `buf` hands
      back the newest `Capacity` pages in the order written. */
  method WriteDrain(test: WrapTest, s: Store, pages: seq<seq<uint8>>, buf: seq<uint8>)
    returns (out: seq<seq<uint8>>)
    requires Valid(s) && Abs(s) == [] && WrapSafe(test, GetPageSize(s))
    ensures ReadsBack(out, LastN(pages, Capacity(GetPageSize(s))), buf, Min(|buf|, GetPageSize(s)))
  {
    var written := WriteAll(test, s, pages);
    var r;
    out, r := Drain(test, written, buf);
    assert Abs(s) + pages == pages;
    StoresReadBack(Abs(written), LastN(pages, Capacity(GetPageSize(s))), GetPageSize(s), buf,
                   Min(|buf|, GetPageSize(s)), out);
  }

  /** Reading stored pages into a buffer of `m <= p` bytes hands back the
      written pages as far as the buffer and the page take them. */
  lemma StoresReadBack(q: seq<seq<uint8>>, written: seq<seq<uint8>>, p: nat, buf: seq<uint8>, m: nat,
                       out: seq<seq<uint8>>)
    requires m <= p && m <= |buf| && Stores(q, written, p)
    requires out == IntoBuffer(q, buf, m)
    ensures ReadsBack(out, written, buf, m)
  {
    forall i | 0 <= i < |out|
      ensures out[i][..Min(|written[i]|, m)] == written[i][..Min(|written[i]|, m)]
    {
      var k, K := Min(|written[i]|, m), Min(|written[i]|, p);
      assert InSlot(q[i], written[i], p);
      assert out[i][..k] == q[i][..k] == q[i][..K][..k];
      assert written[i][..k] == written[i][..K][..k];
    }
  }
}
