/**
 The FRAM chip as seen by the ring buffer: 32 KiB addressed one byte at a
 time through `read8` / `write8`. The I2C transport behind those two calls
 is replaced by an immutable byte sequence.

 Addresses reach the chip as `uint16_t` and the 32 KiB part decodes only the
 low 15 address bits, so an address at or past the end of the store lands at
 `addr % StoreSize`. Taking that remainder keeps every access total.
 */
module Fram {
  import opened Codec

  /** RAM_SIZE: the capacity of the chip in bytes. */
  const StoreSize: nat := 0x8000

  type Store = s: seq<uint8> | |s| == StoreSize witness seq(StoreSize, _ => 0)

  /** The cell an address selects. */
  function Cell(addr: nat): (c: nat)
    ensures c < StoreSize
  {
    if addr < StoreSize then addr else addr % 0x8000
  }

  function Read8(s: Store, addr: nat): uint8
  {
    s[Cell(addr)]
  }

  function Write8(s: Store, addr: nat, v: uint8): (r: Store)
    ensures Read8(r, addr) == v
    ensures forall j {:trigger r[j]} :: 0 <= j < StoreSize && j != Cell(addr) ==> r[j] == s[j]
  {
    s[Cell(addr) := v]
  }

  /** `data` written one byte at a time, in order, starting at `addr`. A
      run that ends before the end of the store puts each byte of `data` at
      its place from `addr` on and leaves every byte outside that range. */
  function WriteBytes(s: Store, addr: nat, data: seq<uint8>): (r: Store)
    ensures addr + |data| <= StoreSize ==>
              forall j :: addr <= j < addr + |data| ==> r[j] == data[j - addr]
    ensures addr + |data| <= StoreSize ==>
              forall j {:trigger r[j]} :: 0 <= j < StoreSize && !(addr <= j < addr + |data|) ==> r[j] == s[j]
    decreases |data|
  {
    if |data| == 0 then s else WriteBytes(Write8(s, addr, data[0]), addr + 1, data[1..])
  }

  /** A byte is touched exactly when its distance past `addr`, counted
      around the store, is below `|data|`; so a run longer than the store
      wraps around to address 0 and every other byte is kept. */
  lemma {:induction false} WriteBytesFrame(s: Store, addr: nat, data: seq<uint8>, j: nat)
    requires j < StoreSize && (j - addr) % 0x8000 >= |data|
    ensures WriteBytes(s, addr, data)[j] == s[j]
    decreases |data|
  {
    if |data| > 0 {
      StepDistance(j, addr);
      WriteBytesFrame(Write8(s, addr, data[0]), addr + 1, data[1..], j);
    }
  }

  /** Moving the start one byte on shortens every positive distance by one,
      and a byte at positive distance is not the start itself. */
  lemma StepDistance(j: int, addr: nat)
    requires 0 <= j < StoreSize && (j - addr) % 0x8000 >= 1
    ensures (j - (addr + 1)) % 0x8000 == (j - addr) % 0x8000 - 1
    ensures j != Cell(addr)
  {
  }

  /** Two stores that agree below `k` still agree there after the same
      bytes are written to both. */
  lemma {:induction false} WriteBytesAgree(s: Store, t: Store, addr: nat, data: seq<uint8>, k: nat)
    requires k <= StoreSize && s[..k] == t[..k]
    ensures WriteBytes(s, addr, data)[..k] == WriteBytes(t, addr, data)[..k]
    decreases |data|
  {
    if |data| > 0 {
      var s1 := Write8(s, addr, data[0]);
      var t1 := Write8(t, addr, data[0]);
      assert s1[..k] == t1[..k] by {
        forall j | 0 <= j < k
          ensures s1[j] == t1[j]
        {
          assert s[j] == s[..k][j];
        }
      }
      WriteBytesAgree(s1, t1, addr + 1, data[1..], k);
    }
  }

  /** `n` bytes read one at a time starting at `addr`. */
  function ReadBytes(s: Store, addr: nat, n: nat): (r: seq<uint8>)
    ensures |r| == n
    ensures forall i :: 0 <= i < n ==> r[i] == Read8(s, addr + i)
    ensures addr + n <= StoreSize ==> r == s[addr..addr + n]
  {
    var r := seq<uint8>(n, i requires 0 <= i < n => Read8(s, addr + i));
    assert addr + n <= StoreSize ==> r == s[addr..addr + n] by {
      if addr + n <= StoreSize {
        forall i | 0 <= i < n
          ensures r[i] == s[addr..addr + n][i]
        {
          assert r[i] == Read8(s, addr + i);
        }
      }
    }
    r
  }
}
