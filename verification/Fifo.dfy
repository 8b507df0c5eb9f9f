/**
 The ring buffer of `fifo_v3.sv`, for any depth (power of two or not) and with or without
 fall-through, proved to behave as a bounded queue.
 */
module Fifo {
  import opened Bits

  // ------------------------------------------------------------------ the bounded queue

  predicate IsEmpty<T>(q: seq<T>, fallThrough: bool, push: bool) {
    |q| == 0 && !(fallThrough && push)
  }

  /** The queue after one cycle: push if there is room, and pop the head as seen in this cycle. */
  function Next<T>(q: seq<T>, cap: nat, fallThrough: bool, push: bool, x: T, pop: bool): seq<T>
    requires cap >= 1
  {
    var q1 := if push && |q| < cap then q + [x] else q;
    if pop && !IsEmpty(q, fallThrough, push) then q1[1..] else q1
  }

  // ------------------------------------------------------------------ pointer arithmetic

  function AddrDepth(depth: nat): nat {
    if depth > 1 then CeilLog2(depth) else 1
  }

  /**
   The pointer increment as the hardware computes it: the depth truncated to the pointer width,
   minus a 32-bit one, is compared with the pointer; for a power of two the truncated depth is
   zero, the comparison never succeeds, and the pointer wraps by overflow instead.
   */
  function NextPtr(depth: nat, p: nat): nat {
    var w := Pow2(AddrDepth(depth));
    if p == (depth % w - 1) % W32 then 0 else (p + 1) % w
  }

  lemma SmallModulo(x: nat, w: nat)
    requires x <= w
    ensures w > 0 ==> x % w == if x == w then 0 else x
  {
    if x < w {
      QuotientUnique(x, w, 0, x);
    } else if w > 0 {
      QuotientUnique(x, w, 1, 0);
    }
  }

  lemma NextPtrWraps(depth: nat, p: nat)
    requires 1 <= depth < W32 && p < depth
    ensures NextPtr(depth, p) == if p + 1 == depth then 0 else p + 1
  {
    var w := Pow2(AddrDepth(depth));
    assert Pow2(1) == 2 * Pow2(0) == 2;
    SmallModulo(depth, w);
    SmallModulo(p + 1, w);
    if depth < w {
      SmallModulo(depth - 1, W32);
    }
  }

  /** The occupancy counter never overflows its one extra bit. */
  lemma CounterFits(depth: nat, cnt: nat)
    requires 1 <= depth && cnt <= depth
    ensures var w := Pow2(AddrDepth(depth) + 1);
            && depth % w == depth
            && (cnt < depth ==> (cnt + 1) % w == cnt + 1)
            && (cnt > 0 ==> (cnt - 1) % w == cnt - 1)
  {
    var w := Pow2(AddrDepth(depth) + 1);
    assert Pow2(1) == 2 * Pow2(0) == 2;
    assert w == 2 * Pow2(AddrDepth(depth));
    SmallModulo(depth, w);
    SmallModulo(cnt + 1, w);
    if cnt > 0 { SmallModulo(cnt - 1, w); }
  }

  // ------------------------------------------------------------------ the ring

  /** Position of the i-th element of a ring that starts at `r`. */
  function Slot(depth: nat, r: nat, i: nat): nat
    requires r < depth && i <= depth
  {
    if r + i < depth then r + i else r + i - depth
  }

  function Ring<T>(m: seq<T>, r: nat, cnt: nat): (q: seq<T>)
    requires r < |m| && cnt <= |m|
    ensures |q| == cnt
  {
    seq(cnt, i requires 0 <= i < cnt => m[Slot(|m|, r, i)])
  }

  lemma RingPush<T>(m: seq<T>, r: nat, cnt: nat, x: T)
    requires r < |m| && cnt < |m|
    ensures Ring(m[Slot(|m|, r, cnt) := x], r, cnt + 1) == Ring(m, r, cnt) + [x]
  {}

  lemma RingPop<T>(m: seq<T>, r: nat, cnt: nat)
    requires r < |m| && 0 < cnt <= |m|
    ensures Ring(m, Slot(|m|, r, 1), cnt - 1) == Ring(m, r, cnt)[1..]
  {}

  /** What one cycle does to the ring: where it writes, and which pointers move. */
  lemma RingStep<T>(m: seq<T>, r: nat, cnt: nat, fallThrough: bool, push: bool, x: T, pop: bool)
    requires r < |m| && cnt <= |m|
    ensures var q := Ring(m, r, cnt);
            var through := fallThrough && cnt == 0 && push && pop;
            var write, take := push && cnt < |m|, pop && cnt > 0;
            var m1 := if write then m[Slot(|m|, r, cnt) := x] else m;
            var r1 := if take then Slot(|m|, r, 1) else r;
            var cnt1 := if through then cnt else cnt + (if write then 1 else 0) - (if take then 1 else 0);
            && Ring(m1, r1, cnt1) == Next(q, |m|, fallThrough, push, x, pop)
            && Slot(|m|, r1, cnt1) ==
               if write && !through then Slot(|m|, Slot(|m|, r, cnt), 1) else Slot(|m|, r, cnt)
  {
    var write, take := push && cnt < |m|, pop && cnt > 0;
    if write {
      RingPush(m, r, cnt, x);
      if take { RingPop(m[Slot(|m|, r, cnt) := x], r, cnt + 1); }
    } else if take {
      RingPop(m, r, cnt);
    }
  }

  // ------------------------------------------------------------------ the clocked module

  class Fifo<T(0)> {
    const depth: nat
    const fallThrough: bool
    const mem: array<T>
    var readPtr: nat
    var writePtr: nat
    var cnt: nat

    ghost predicate Valid()
      reads this, mem
    {
      && 1 <= depth < W32
      && mem.Length == depth
      && readPtr < depth
      && writePtr < depth
      && cnt <= depth
      && writePtr == Slot(depth, readPtr, cnt)
    }

    /** The queue held in the ring, oldest first. */
    ghost function Contents(): (q: seq<T>)
      requires Valid()
      reads this, mem
      ensures |q| == cnt
    {
      Ring(mem[..], readPtr, cnt)
    }

    constructor (depth: nat, fallThrough: bool)
      requires 1 <= depth < W32
      ensures Valid() && fresh(mem)
      ensures this.depth == depth && this.fallThrough == fallThrough
      ensures Contents() == []
    {
      this.depth, this.fallThrough := depth, fallThrough;
      mem := new T[depth];
      readPtr, writePtr, cnt := 0, 0, 0;
    }

    function Full(): (b: bool)
      requires Valid()
      reads this, mem
      ensures b <==> |Contents()| == depth
    {
      CounterFits(depth, cnt);
      cnt == depth % Pow2(AddrDepth(depth) + 1)
    }

    function Empty(push: bool): (b: bool)
      requires Valid()
      reads this, mem
      ensures b <==> IsEmpty(Contents(), fallThrough, push)
    {
      cnt == 0 && !(fallThrough && push)
    }

    /** `data_o`: the head, or the pushed element itself when falling through. */
    function DataOut(push: bool, x: T): (y: T)
      requires Valid()
      reads this, mem
      ensures !Empty(push) ==> y == (Contents() + [x])[0]
    {
      if fallThrough && cnt == 0 && push then x else mem[readPtr]
    }

    /** The block `read_write_comb`: the register values for the next cycle. */
    method NextPointers(push: bool, pop: bool) returns (readNext: nat, writeNext: nat, cntNext: nat)
      requires Valid()
      ensures var through := fallThrough && cnt == 0 && push && pop;
              var write, take := push && cnt < depth, pop && cnt > 0;
              && readNext == (if take then Slot(depth, readPtr, 1) else readPtr)
              && writeNext == (if write && !through then Slot(depth, writePtr, 1) else writePtr)
              && cntNext == if through then cnt else cnt + (if write then 1 else 0) - (if take then 1 else 0)
    {
      var full, empty := Full(), Empty(push);
      readNext, writeNext, cntNext := readPtr, writePtr, cnt;
      NextPtrWraps(depth, readPtr);
      NextPtrWraps(depth, writePtr);
      CounterFits(depth, cnt);
      var w := Pow2(AddrDepth(depth) + 1);
      if push && !full {
        writeNext := NextPtr(depth, writePtr);
        cntNext := (cnt + 1) % w;
      }
      if pop && !empty {
        readNext := NextPtr(depth, readPtr);
        cntNext := (cnt - 1) % w;
      }
      if push && pop && !full && !empty {
        cntNext := cnt;
      }
      if fallThrough && cnt == 0 && push {
        if pop {
          readNext, writeNext, cntNext := readPtr, writePtr, cnt;
        }
      }
    }

    /** One rising edge. */
    method Tick(push: bool, x: T, pop: bool, flush: bool)
      requires Valid()
      modifies this, mem
      ensures Valid()
      ensures Contents() == if flush then [] else Next(old(Contents()), depth, fallThrough, push, x, pop)
    {
      RingStep(mem[..], readPtr, cnt, fallThrough, push, x, pop);
      var readNext, writeNext, cntNext := NextPointers(push, pop);
      if push && !Full() {
        mem[writePtr] := x;
      }
      assert mem[..] == if push && old(cnt) < depth then old(mem[..])[writePtr := x] else old(mem[..]);
      if flush {
        readPtr, writePtr, cnt := 0, 0, 0;
      } else {
        readPtr, writePtr, cnt := readNext, writeNext, cntNext;
      }
    }
  }
}
