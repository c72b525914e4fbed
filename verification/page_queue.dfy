/**
 The abstract behaviour the ring buffer implements: a FIFO of pages bounded
 by a capacity, where adding to a full queue drops the oldest page. Below it,
 the circular arrangement of page slots that realises that queue, with a
 tail slot and a page count in place of the firmware's pointers and marker.
 */
module PageQueue {

  // ---------------------------------------------------------------------
  // Bounded FIFO with overwrite of the oldest element

  /** The newest `n` elements of `q`. */
  function LastN<T>(q: seq<T>, n: nat): (r: seq<T>)
    ensures |r| == if |q| <= n then |q| else n
    ensures r == q[|q| - |r|..]
  {
    if |q| <= n then q else q[|q| - n..]
  }

  /** Adds `x` at the back; a queue already holding `cap` elements loses its
      front. The result is the newest `cap` elements of `q + [x]`. */
  function Push<T>(q: seq<T>, x: T, cap: nat): (r: seq<T>)
    requires 0 < cap && |q| <= cap
    ensures r == LastN(q + [x], cap)
    ensures |q| < cap ==> r == q + [x]
  {
    if |q| == cap then q[1..] + [x] else q + [x]
  }

  /** Pushing onto the newest `cap` elements keeps the newest `cap` elements
      of the longer history. */
  lemma LastNPush<T>(q: seq<T>, x: T, cap: nat)
    requires 0 < cap
    ensures Push(LastN(q, cap), x, cap) == LastN(q + [x], cap)
  {
    if |q| > cap {
      calc {
        Push(LastN(q, cap), x, cap);
        q[|q| - cap..][1..] + [x];
        { assert q[|q| - cap..][1..] == q[|q| - cap + 1..]; }
        q[|q| - cap + 1..] + [x];
        { assert (q + [x])[|q| + 1 - cap..] == q[|q| + 1 - cap..] + [x]; }
        LastN(q + [x], cap);
      }
    }
  }

  // ---------------------------------------------------------------------
  // Slot arithmetic on a circle of `n` slots

  /** The slot `i` places after `t`, going round a circle of `n` slots. */
  function Pos(t: nat, i: nat, n: nat): (r: nat)
    requires t < n && i <= n
    ensures r < n
  {
    if t + i < n then t + i else t + i - n
  }

  /** How many places `h` lies after `t`, counting 1 to `n` with equal slots
      a whole turn apart. */
  function Gap(h: nat, t: nat, n: nat): (r: nat)
    requires h < n && t < n
    ensures 0 < r <= n
    ensures Pos(t, if r == n then 0 else r, n) == h
  {
    if t < h then h - t else h + n - t
  }

  /** Distinct offsets from the same slot reach distinct slots, except the
      full turn, which comes back to the start. */
  lemma PosInjective(t: nat, i: nat, j: nat, n: nat)
    requires t < n && i <= n && j <= n
    requires Pos(t, i, n) == Pos(t, j, n)
    ensures i == j || (i == 0 && j == n) || (i == n && j == 0)
  {
  }

  /** Stepping `c` places and then one more is stepping `c + 1` places. */
  lemma PosStep(t: nat, c: nat, n: nat)
    requires t < n && c < n
    ensures Pos(Pos(t, c, n), 1, n) == Pos(t, c + 1, n)
  {
  }

  /** Stepping one place and then `c - 1` more is stepping `c` places. */
  lemma PosShift(t: nat, c: nat, n: nat)
    requires t < n && 0 < c <= n
    ensures Pos(Pos(t, 1, n), c - 1, n) == Pos(t, c, n)
  {
  }

  /** The gap from `t` to the slot `c` places on is `c`. */
  lemma GapPos(t: nat, c: nat, n: nat)
    requires t < n && 0 < c <= n
    ensures Gap(Pos(t, c, n), t, n) == c
  {
  }

  // ---------------------------------------------------------------------
  // The circle of slots

  /** `count` pages held in `slots`, oldest at `tail`. */
  datatype Ring<T> = Ring(slots: seq<T>, tail: nat, count: nat) {

    predicate Ok()
    {
      0 < |slots| && tail < |slots| && count <= |slots|
    }

    /** The slot the next page goes to. */
    function Head(): nat
      requires Ok()
    {
      Pos(tail, count, |slots|)
    }

    /** The pages held, oldest first. */
    function Contents(): (q: seq<T>)
      requires Ok()
      ensures |q| == count
      ensures forall i :: 0 <= i < count ==> q[i] == slots[Pos(tail, i, |slots|)]
    {
      seq(count, i requires 0 <= i < count => slots[Pos(tail, i, |slots|)])
    }

    /** Stores `x` in the head slot; when every slot is in use the tail moves
        on as well, discarding the oldest page. */
    function Put(x: T): (r: Ring<T>)
      requires Ok()
      ensures r.Ok() && |r.slots| == |slots|
      ensures r.Contents() == Push(Contents(), x, |slots|)
    {
      var n := |slots|;
      var r := Ring(slots[Head() := x],
                    if count == n then Pos(tail, 1, n) else tail,
                    if count == n then n else count + 1);
      assert r.Contents() == Push(Contents(), x, n) by {
        if count == n {
          forall i | 0 <= i < n
            ensures r.Contents()[i] == (Contents()[1..] + [x])[i]
          {
            if i < n - 1 {
              assert Pos(Pos(tail, 1, n), i, n) == Pos(tail, i + 1, n);
            }
          }
        } else {
          forall i | 0 <= i < count + 1
            ensures r.Contents()[i] == (Contents() + [x])[i]
          {
            if i < count && Pos(tail, i, n) == Head() {
              PosInjective(tail, i, count, n);
            }
          }
        }
      }
      r
    }

    /** Drops the oldest page. */
    function Take(): (r: Ring<T>)
      requires Ok() && 0 < count
      ensures r.Ok() && r.slots == slots
      ensures r.Contents() == Contents()[1..]
      ensures r.Head() == Head()
    {
      var n := |slots|;
      var r := Ring(slots, Pos(tail, 1, n), count - 1);
      assert forall i :: 0 <= i < count - 1 ==> Pos(Pos(tail, 1, n), i, n) == Pos(tail, i + 1, n);
      r
    }
  }
}
