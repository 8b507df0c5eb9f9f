/**
 The burst address functions of `axi_pkg.sv` (ARM IHI 0022, section A3.4.1), with the 128-bit
 address type and its wrap-around written out.
 */
module AxiBurst {
  import opened Bits

  const ADDR := 0x1_0000_0000_0000_0000_0000_0000_0000_0000
  const SHORT := 0x1_0000

  datatype Burst = Fixed | Incr | Wrap

  function NumBytes(size: nat): nat {
    Pow2(size)
  }

  /** `(addr >> n) << n`. */
  function ClearLow(addr: nat, n: nat): nat {
    Shr(addr, n) * Pow2(n) % ADDR
  }

  function AlignedAddr(addr: nat, size: nat): nat {
    ClearLow(addr, size)
  }

  function WrapBoundary(addr: nat, size: nat, len: nat): nat {
    if len == 1 then ClearLow(addr, size + 1)
    else if len == 3 then ClearLow(addr, size + 2)
    else if len == 7 then ClearLow(addr, size + 3)
    else if len == 15 then ClearLow(addr, size + 4)
    else 0
  }

  function Container(size: nat, len: nat): nat {
    NumBytes(size) * (len + 1)
  }

  function BeatAddr(addr: nat, size: nat, len: nat, burst: Burst, i: nat): nat {
    var bound := if burst == Wrap then WrapBoundary(addr, size, len) else 0;
    if i != 0 && burst != Fixed then
      var next := (AlignedAddr(addr, size) + i * NumBytes(size)) % ADDR;
      if burst == Wrap && next >= (bound + Container(size, len)) % ADDR then
        (next - Container(size, len)) % ADDR
      else next
    else addr
  }

  function BeatLowerByte(addr: nat, size: nat, len: nat, burst: Burst, width: nat, i: nat): nat
    requires width > 0
  {
    var a := BeatAddr(addr, size, len, burst, i);
    (a - a / width * width) % SHORT
  }

  function BeatUpperByte(addr: nat, size: nat, len: nat, burst: Burst, width: nat, i: nat): nat
    requires width > 0
  {
    if i == 0 then
      (AlignedAddr(addr, size) + (NumBytes(size) - 1) - addr / width * width) % SHORT
    else
      (BeatLowerByte(addr, size, len, burst, width, i) + NumBytes(size) - 1) % SHORT
  }

  // ------------------------------------------------------------------ alignment

  lemma ClearLowAligns(addr: nat, n: nat)
    requires addr < ADDR
    ensures ClearLow(addr, n) == addr - addr % Pow2(n)
    ensures ClearLow(addr, n) % Pow2(n) == 0
    ensures ClearLow(addr, n) <= addr < ClearLow(addr, n) + Pow2(n)
  {
    var m := Pow2(n);
    var q := Shr(addr, n);
    WholeBlocks(addr, m, q);
  }

  lemma WholeBlocks(addr: nat, m: nat, q: nat)
    requires m >= 1 && addr < ADDR && q == addr / m
    ensures q * m % ADDR == addr - addr % m && q * m % ADDR % m == 0
    ensures q * m % ADDR <= addr < q * m % ADDR + m
  {
    var r := addr % m;
    assert addr == m * q + r;
    if q > 0 { MultiplesApart(m, 0, q); }
    var low: nat := m * q;
    assert q * m == low;
    QuotientUnique(low, ADDR, 0, low);
    QuotientUnique(low, m, q, 0);
  }

  /** A multiple of `b` below another multiple of `b` is at least `b` below it. */
  lemma MultipleGap(x: nat, y: nat, b: nat)
    requires b > 0 && x % b == 0 && y % b == 0 && x < y
    ensures x + b <= y
  {
    var p, q := x / b, y / b;
    assert x == b * p && y == b * q;
    if p < q {
      MultiplesApart(b, p, q);
    } else if q < p {
      MultiplesApart(b, q, p);
    }
  }

  // ------------------------------------------------------------------ wrapping bursts

  /** The lengths allowed for wrapping bursts, as the power of two of their beats. */
  predicate WrapLen(len: nat, n: nat) {
    (len == 1 && n == 1) || (len == 3 && n == 2) || (len == 7 && n == 3) || (len == 15 && n == 4)
  }

  /** A wrapping burst as the standard allows it: aligned start, 2, 4, 8 or 16 beats of up to 128 bytes. */
  predicate WrapBurst(addr: nat, size: nat, len: nat, n: nat) {
    addr < ADDR && size <= 7 && WrapLen(len, n) && addr % NumBytes(size) == 0
  }

  /** What the standard asks of beat `i`: count up from the start, modulo the container. */
  function WrapSpec(addr: nat, size: nat, len: nat, i: nat): nat
    requires Container(size, len) > 0
  {
    var w := WrapBoundary(addr, size, len);
    w + (addr - w + i * NumBytes(size)) % Container(size, len)
  }

  lemma AddrIsPow2()
    ensures ADDR == Pow2(128)
  {
    Pow2Add(8, 8);
    Pow2Add(16, 16);
    assert Pow2(32) == 0x1_0000_0000;
    Pow2Add(32, 32);
    assert Pow2(64) == 0x1_0000_0000_0000_0000;
    Pow2Add(64, 64);
  }

  lemma AddrIsMultiple(m: nat)
    requires m <= 128
    ensures ADDR % Pow2(m) == 0
  {
    AddrIsPow2();
    Pow2Add(m, 128 - m);
    QuotientUnique(Pow2(128), Pow2(m), Pow2(128 - m), 0);
  }

  /** The aligned multiple of `b` inside an aligned window of `beats` multiples: its slot number. */
  lemma SlotOf(b: nat, beats: nat, w: nat, addr: nat) returns (slot: nat)
    requires b >= 1 && beats >= 1 && b * beats > 0
    requires w % (b * beats) == 0 && addr % b == 0 && w <= addr < w + b * beats
    ensures slot < beats && addr == w + slot * b
  {
    var c := b * beats;
    var k, a := w / c, addr / b;
    assert w == c * k && addr == b * a;
    var start := beats * k;
    Associate(b, beats, k);
    assert w == b * start;
    slot := SlotBetween(b, beats, start, a);
  }

  lemma SlotBetween(b: nat, beats: nat, start: nat, a: nat) returns (slot: nat)
    requires b >= 1 && b * start <= b * a < b * start + b * beats
    ensures slot < beats && a == start + slot && b * a == b * start + slot * b
  {
    if a < start {
      MultiplesApart(b, a, start);
    }
    slot := a - start;
    assert b * a == b * start + slot * b;
    if slot > beats {
      MultiplesApart(b, beats, slot);
    }
  }

  lemma Associate(x: nat, y: nat, z: nat)
    ensures x * y * z == x * (y * z)
  {}

  /** The boundary of an allowed wrapping burst is the start cleared to the container size. */
  lemma BoundaryIsCleared(addr: nat, size: nat, len: nat, n: nat)
    requires WrapLen(len, n)
    ensures WrapBoundary(addr, size, len) == ClearLow(addr, size + n)
    ensures Container(size, len) == Pow2(size + n)
  {
    Pow2Add(size, n);
    assert Pow2(1) == 2 && Pow2(2) == 4 && Pow2(3) == 8 && Pow2(4) == 16;
  }

  /** An aligned container ends the address space or leaves room for another one. */
  lemma TopGap(w: nat, c: nat)
    requires c > 0 && w % c == 0 && ADDR % c == 0 && w < ADDR
    ensures w + c == ADDR || w + c + c <= ADDR
  {
    MultipleGap(w, ADDR, c);
    if w + c < ADDR {
      SumOfMultiples(w, c, c);
      MultipleGap(w + c, ADDR, c);
    }
  }

  /** The numbers behind a wrapping burst: boundary, container and slot of the start address. */
  lemma WrapShape(addr: nat, size: nat, len: nat, n: nat) returns (slot: nat)
    requires WrapBurst(addr, size, len, n)
    ensures slot <= len && addr == WrapBoundary(addr, size, len) + slot * NumBytes(size)
    ensures AlignedAddr(addr, size) == addr
    ensures Container(size, len) > 0 && WrapBoundary(addr, size, len) % Container(size, len) == 0
    ensures var end := WrapBoundary(addr, size, len) + Container(size, len);
            end == ADDR || end + Container(size, len) <= ADDR
  {
    BoundaryIsCleared(addr, size, len, n);
    ClearLowAligns(addr, size + n);
    ClearLowAligns(addr, size);
    AddrIsMultiple(size + n);
    TopGap(WrapBoundary(addr, size, len), Container(size, len));
    slot := SlotOf(NumBytes(size), len + 1, WrapBoundary(addr, size, len), addr);
  }

  /** Counting `i` beats on from a slot, modulo the number of beats, takes one subtraction at most. */
  function SlotAfter(slot: nat, i: nat, beats: nat): nat
    requires slot < beats && i < beats
  {
    if slot + i < beats then slot + i else slot + i - beats
  }

  lemma ModuloBySlot(b: nat, beats: nat, slot: nat, i: nat)
    requires b >= 1 && slot < beats && i < beats
    ensures b * beats > 0
    ensures (slot * b + i * b) % (b * beats) == SlotAfter(slot, i, beats) * b
  {
    var c, s, r := b * beats, slot + i, SlotAfter(slot, i, beats);
    assert slot * b + i * b == b * s && r * b == b * r;
    MultiplesApart(b, 0, beats);
    MultiplesApart(b, r, beats);
    if s < beats {
      QuotientUnique(b * s, c, 0, b * r);
    } else {
      assert b * s == b * (beats + r) == c * 1 + b * r;
      QuotientUnique(b * s, c, 1, b * r);
    }
  }

  /** The standard's address of beat `i`, in slots. */
  lemma WrapSpecBySlot(addr: nat, size: nat, len: nat, n: nat, slot: nat, i: nat)
    requires WrapBurst(addr, size, len, n) && i <= len && slot <= len
    requires addr == WrapBoundary(addr, size, len) + slot * NumBytes(size)
    ensures Container(size, len) > 0
    ensures WrapSpec(addr, size, len, i) ==
            WrapBoundary(addr, size, len) + SlotAfter(slot, i, len + 1) * NumBytes(size)
  {
    ModuloBySlot(NumBytes(size), len + 1, slot, i);
  }

  /** Modulo 2^128 on the two sides of the address space. */
  lemma AddrModulo(x: int)
    ensures 0 <= x < ADDR ==> x % ADDR == x
    ensures ADDR <= x < 2 * ADDR ==> x % ADDR == x - ADDR
    ensures -ADDR <= x < 0 ==> x % ADDR == x + ADDR
  {}

  /** The address computation of a later beat, from the boundary, the container and the straight sum. */
  function WrapOnce(w: nat, c: nat, x: nat): nat {
    if x % ADDR >= (w + c) % ADDR then (x % ADDR - c) % ADDR else x % ADDR
  }

  /** One subtraction brings the sum back into the container, unless the container ends the address space. */
  lemma WrapOnceRight(w: nat, c: nat, x: nat)
    requires 0 < c < ADDR && w <= x < w + 2 * c && (w + c == ADDR || w + 2 * c <= ADDR)
    ensures w + c < ADDR || x >= w + c ==> WrapOnce(w, c, x) == if x < w + c then x else x - c
    ensures w + c == ADDR && x < w + c ==> WrapOnce(w, c, x) != x
  {
    AddrModulo(x);
    AddrModulo(w + c);
    AddrModulo(x - c);
    AddrModulo(x - ADDR - c);
  }

  /** Where the sum for beat `i` lies relative to the container. */
  lemma SumBySlot(b: nat, beats: nat, slot: nat, i: nat)
    requires b >= 1 && slot < beats && i < beats
    ensures 0 <= slot * b + i * b < 2 * (b * beats)
    ensures slot + i < beats <==> slot * b + i * b < b * beats
    ensures SlotAfter(slot, i, beats) * b == slot * b + i * b - (if slot + i < beats then 0 else b * beats)
  {
    var s := slot + i;
    assert slot * b + i * b == b * s && b * (2 * beats) == 2 * (b * beats);
    MultiplesApart(b, s, 2 * beats);
    if s < beats {
      MultiplesApart(b, s, beats);
    } else if s > beats {
      MultiplesApart(b, beats, s);
    }
    if s > 0 { MultiplesApart(b, 0, s); }
    assert b * (s - beats) == b * s - b * beats;
  }

  predicate EndsAddressSpace(addr: nat, size: nat, len: nat) {
    WrapBoundary(addr, size, len) + Container(size, len) == ADDR
  }

  lemma ContainerSmall(size: nat, len: nat, n: nat)
    requires size <= 7 && WrapLen(len, n)
    ensures 0 < Container(size, len) < ADDR
  {
    BoundaryIsCleared(0, size, len, n);
    Pow2Monotone(size + n, 11);
    assert Pow2(11) == 2048;
  }

  lemma BeatIsWrapOnce(addr: nat, size: nat, len: nat, i: nat)
    requires i > 0 && AlignedAddr(addr, size) == addr
    ensures addr + i * NumBytes(size) >= 0
    ensures BeatAddr(addr, size, len, Wrap, i) ==
            WrapOnce(WrapBoundary(addr, size, len), Container(size, len), addr + i * NumBytes(size))
  {
    MulAtLeast(NumBytes(size), i);
  }

  lemma MulAtLeast(b: nat, k: nat)
    requires k >= 1
    ensures k * b >= b
  {}

  /** One beat against the standard. */
  lemma BeatMatches(addr: nat, size: nat, len: nat, n: nat, slot: nat, i: nat)
    requires WrapBurst(addr, size, len, n) && i <= len && slot <= len
    requires addr == WrapBoundary(addr, size, len) + slot * NumBytes(size)
    ensures Container(size, len) > 0
    ensures BeatAddr(addr, size, len, Wrap, i) == WrapSpec(addr, size, len, i) <==>
            !EndsAddressSpace(addr, size, len) || i == 0 || slot + i > len
  {
    var b, w, c := NumBytes(size), WrapBoundary(addr, size, len), Container(size, len);
    var slot' := WrapShape(addr, size, len, n);
    ContainerSmall(size, len, n);
    WrapSpecBySlot(addr, size, len, n, slot, i);
    SumBySlot(b, len + 1, slot, i);
    if i > 0 {
      BeatIsWrapOnce(addr, size, len, i);
      WrapOnceRight(w, c, addr + i * b);
      assert addr + i * b == w + (slot * b + i * b);
    }
  }

  ghost predicate AllBeatsRight(addr: nat, size: nat, len: nat)
    requires Container(size, len) > 0
  {
    forall i :: 0 <= i <= len ==> BeatAddr(addr, size, len, Wrap, i) == WrapSpec(addr, size, len, i)
  }

  /**
   Every beat of an allowed wrapping burst has the standard's address, except when its container is
   the last one of the 128-bit address space; then only a start in the last slot is right.
   */
  lemma WrapBurstCorrectIff(addr: nat, size: nat, len: nat, n: nat)
    requires WrapBurst(addr, size, len, n)
    ensures Container(size, len) > 0
    ensures AllBeatsRight(addr, size, len) <==>
            !EndsAddressSpace(addr, size, len) || addr + NumBytes(size) == ADDR
  {
    ContainerSmall(size, len, n);
    var slot := WrapShape(addr, size, len, n);
    LastSlot(NumBytes(size), len + 1, slot);
    if !EndsAddressSpace(addr, size, len) || slot == len {
      forall i | 0 <= i <= len
        ensures BeatAddr(addr, size, len, Wrap, i) == WrapSpec(addr, size, len, i)
      {
        BeatMatches(addr, size, len, n, slot, i);
      }
      assert AllBeatsRight(addr, size, len);
    } else {
      BeatMatches(addr, size, len, n, slot, 1);
      assert !AllBeatsRight(addr, size, len);
    }
  }

  lemma LastSlot(b: nat, beats: nat, slot: nat)
    requires b >= 1 && slot < beats
    ensures slot == beats - 1 <==> slot * b + b == b * beats
  {
    assert b * (slot + 1) == slot * b + b;
    if slot + 1 < beats {
      MultiplesApart(b, slot + 1, beats);
    }
  }

  /** The failing input: a two-beat burst of bytes that starts in the last container of the address space. */
  lemma WrapBurstFailsAtTheTop()
    ensures var addr := ADDR - 2;
            && WrapBurst(addr, 0, 1, 1)
            && Container(0, 1) > 0
            && BeatAddr(addr, 0, 1, Wrap, 1) != WrapSpec(addr, 0, 1, 1)
  {
    var addr := ADDR - 2;
    assert Pow2(0) == 1 && Pow2(1) == 2;
    ClearLowAligns(addr, 1);
    ClearLowAligns(addr, 0);
    assert addr % 2 == 0 && WrapBoundary(addr, 0, 1) == addr;
    BeatMatches(addr, 0, 1, 1, 0, 1);
  }

  /** The beats of a wrapping burst visit every slot of the container exactly once. */
  lemma WrapIsBijection(addr: nat, size: nat, len: nat, n: nat, k: nat) returns (i: nat)
    requires WrapBurst(addr, size, len, n) && k <= len
    requires !EndsAddressSpace(addr, size, len)
    ensures i <= len
    ensures BeatAddr(addr, size, len, Wrap, i) == WrapBoundary(addr, size, len) + k * NumBytes(size)
    ensures forall j :: 0 <= j <= len && j != i ==>
                          BeatAddr(addr, size, len, Wrap, j) != BeatAddr(addr, size, len, Wrap, i)
  {
    var slot := WrapShape(addr, size, len, n);
    i := if k >= slot then k - slot else k + len + 1 - slot;
    BeatInSlots(addr, size, len, n, slot, i);
    forall j | 0 <= j <= len && j != i
      ensures BeatAddr(addr, size, len, Wrap, j) != BeatAddr(addr, size, len, Wrap, i)
    {
      BeatInSlots(addr, size, len, n, slot, j);
      DistinctMultiples(NumBytes(size), SlotAfter(slot, j, len + 1), k);
    }
  }

  lemma BeatInSlots(addr: nat, size: nat, len: nat, n: nat, slot: nat, j: nat)
    requires WrapBurst(addr, size, len, n) && j <= len && slot <= len
    requires addr == WrapBoundary(addr, size, len) + slot * NumBytes(size)
    requires !EndsAddressSpace(addr, size, len)
    ensures BeatAddr(addr, size, len, Wrap, j) ==
            WrapBoundary(addr, size, len) + SlotAfter(slot, j, len + 1) * NumBytes(size)
  {
    BeatMatches(addr, size, len, n, slot, j);
    WrapSpecBySlot(addr, size, len, n, slot, j);
  }

  lemma DistinctMultiples(b: nat, p: nat, q: nat)
    requires b >= 1 && p != q
    ensures p * b != q * b
  {
    if p < q { MultiplesApart(b, p, q); } else { MultiplesApart(b, q, p); }
  }

  // ------------------------------------------------------------------ byte lanes of incrementing bursts

  /** The start is an address, and the bus width is a whole number of transfers. */
  predicate OnBus(addr: nat, size: nat, width: nat) {
    addr < ADDR && size <= 7 && 0 < width < SHORT && width % NumBytes(size) == 0
  }

  /** The byte address that lane `k` of beat `i` stands for. */
  function LaneAddr(addr: nat, size: nat, len: nat, burst: Burst, width: nat, i: nat, k: nat): nat
    requires width > 0
  {
    BeatAddr(addr, size, len, burst, i) / width * width + k
  }

  /** Is byte address `x` transferred in beat `i`? */
  ghost predicate Transfers(addr: nat, size: nat, len: nat, burst: Burst, width: nat, i: nat, x: nat)
    requires width > 0
  {
    exists k :: BeatLowerByte(addr, size, len, burst, width, i) <= k <= BeatUpperByte(addr, size, len, burst, width, i)
                && LaneAddr(addr, size, len, burst, width, i, k) == x
  }

  /** The last byte of an aligned block stays in the bus word of any byte of the block. */
  lemma BlockInWord(a: nat, x: nat, b: nat, width: nat)
    requires b > 0 && width > 0 && width % b == 0 && a % b == 0 && a <= x < a + b
    ensures 0 <= x / width * width <= x && a + b <= x / width * width + width
    ensures x / width * width <= a
  {
    WordAligned(x, b, width);
    BlockInside(a, x, b, width, x / width * width);
  }

  lemma WordAligned(x: nat, b: nat, width: nat)
    requires b > 0 && width > 0 && width % b == 0
    ensures var base := x / width * width;
            0 <= base <= x < base + width && base % b == 0 && (base + width) % b == 0
  {
    var base := x / width * width;
    assert x == base + x % width;
    MultipleOfMultiple(x / width, width, b);
    SumOfMultiples(base, width, b);
  }

  /** A block and a word whose ends are multiples of the block size do not overlap in part. */
  lemma BlockInside(a: nat, x: nat, b: nat, width: nat, base: nat)
    requires b > 0 && a % b == 0 && base % b == 0 && (base + width) % b == 0
    requires a <= x < a + b && base <= x < base + width
    ensures base <= a && a + b <= base + width
  {
    if a < base {
      MultipleGap(a, base, b);
    }
    MultipleGap(a, base + width, b);
  }

  lemma MultipleOfMultiple(q: nat, m: nat, b: nat)
    requires b > 0 && m % b == 0
    ensures q * m >= 0 && q * m % b == 0
  {
    var r := m / b;
    assert m == b * r;
    assert q * m == b * (q * r);
    if q > 0 && r > 0 { MultiplesApart(q, 0, r); }
    QuotientUnique(q * m, b, q * r, 0);
  }

  lemma ModuloOfMultiple(x: nat, m: nat, b: nat)
    requires b > 0 && m > 0 && x % b == 0 && m % b == 0
    ensures x % m % b == 0
  {
    var q, r := x / m, x % m;
    MultipleOfMultiple(q, m, b);
    assert x == q * m + r;
    var i, j := x / b, q * m / b;
    assert r == b * (i - j);
    QuotientOrder(q * m, x, b);
    QuotientUnique(r, b, i - j, 0);
  }

  /** The aligned block of addresses that beat `i` is about, wrapping at the end of the address space. */
  function BlockStart(addr: nat, size: nat, i: nat): nat {
    (AlignedAddr(addr, size) + i * NumBytes(size)) % ADDR
  }

  /** No block straddles the end of the address space. */
  lemma BlockFacts(addr: nat, size: nat, i: nat)
    requires addr < ADDR && size <= 7
    ensures var a, b := BlockStart(addr, size, i), NumBytes(size);
            a % b == 0 && a + b <= ADDR
  {
    var b := NumBytes(size);
    ClearLowAligns(addr, size);
    MultipleOfMultiple(i, b, b);
    SumOfMultiples(AlignedAddr(addr, size), i * b, b);
    AddrIsMultiple(size);
    ModuloOfMultiple(AlignedAddr(addr, size) + i * b, ADDR, b);
    MultipleGap(BlockStart(addr, size, i), ADDR, b);
  }

  /** The address of beat `i` lies in its block. */
  lemma IncrBeatAddr(addr: nat, size: nat, len: nat, i: nat)
    requires addr < ADDR && size <= 7
    ensures var b, a, s := NumBytes(size), BlockStart(addr, size, i), BeatAddr(addr, size, len, Incr, i);
            && s == (if i == 0 then addr else a) && a <= s < a + b && (i == 0 ==> a == AlignedAddr(addr, size))
  {
    ClearLowAligns(addr, size);
    AddrModulo(AlignedAddr(addr, size));
  }

  /** The first byte address of beat `i`, and the block of lanes it uses. */
  lemma IncrLanes(addr: nat, size: nat, len: nat, width: nat, i: nat)
    requires OnBus(addr, size, width)
    ensures var b, a, s := NumBytes(size), BlockStart(addr, size, i), BeatAddr(addr, size, len, Incr, i);
            && a <= s < a + b
            && 0 <= s / width * width <= a && a + b <= s / width * width + width
            && BeatLowerByte(addr, size, len, Incr, width, i) == s - s / width * width
            && BeatUpperByte(addr, size, len, Incr, width, i) == a + b - 1 - s / width * width
  {
    var b, a, s := NumBytes(size), BlockStart(addr, size, i), BeatAddr(addr, size, len, Incr, i);
    IncrBeatAddr(addr, size, len, i);
    BlockFacts(addr, size, i);
    BlockInWord(a, s, b, width);
    SmallShort(s - s / width * width);
    SmallShort(a + b - 1 - s / width * width);
  }

  lemma SmallShort(x: nat)
    requires x < SHORT
    ensures x % SHORT == x
  {}

  lemma SumOfMultiples(x: nat, y: nat, b: nat)
    requires b > 0 && x % b == 0 && y % b == 0
    ensures (x + y) % b == 0
  {
    var p, q := x / b, y / b;
    assert x + y == b * (p + q);
    QuotientUnique(x + y, b, p + q, 0);
  }

  /** The lanes of every beat of an incrementing burst fit on the bus. */
  lemma IncrLanesFit(addr: nat, size: nat, len: nat, width: nat, i: nat)
    requires OnBus(addr, size, width)
    ensures BeatLowerByte(addr, size, len, Incr, width, i) <= BeatUpperByte(addr, size, len, Incr, width, i) < width
  {
    IncrLanes(addr, size, len, width, i);
  }

  /** How far byte address `x` is above the aligned start, counted around the end of the address space. */
  function Ahead(addr: nat, size: nat, x: nat): nat {
    (x - AlignedAddr(addr, size)) % ADDR
  }

  /** The distances beat `i` is to cover: its block, cut at the start address in the first beat. */
  predicate InBlock(addr: nat, size: nat, i: nat, d: int) {
    (if i == 0 then addr - AlignedAddr(addr, size) else i * NumBytes(size)) <= d < i * NumBytes(size) + NumBytes(size)
  }

  /** A block at distance `o` from `base`, seen from its own start `a`. */
  lemma AroundTheEnd(base: nat, o: nat, a: nat, b: nat, x: nat)
    requires base < ADDR && x < ADDR && o + b <= ADDR && a == (base + o) % ADDR && a + b <= ADDR
    ensures a <= x < a + b ==> (x - base) % ADDR == o + (x - a)
    ensures o <= (x - base) % ADDR < o + b ==> a <= x < a + b
  {
    AddrModulo(base + o);
    AddrModulo(x - base);
  }

  lemma SmallBurst(size: nat, len: nat)
    requires size <= 7 && len <= 255
    ensures Container(size, len) <= SHORT
    ensures forall i :: 0 <= i <= len ==> i * NumBytes(size) + NumBytes(size) <= Container(size, len)
  {
    var b := NumBytes(size);
    Pow2Monotone(size, 7);
    assert Pow2(7) == 128;
    forall i | 0 <= i <= len
      ensures i * b + b <= b * (len + 1)
    {
      MultiplesApart(b, i, len + 1);
    }
    assert 128 * 256 <= SHORT;
    if b < 128 { MultiplesApart(len + 1, b, 128); }
  }

  lemma BlockIsNear(size: nat, len: nat, i: nat)
    requires size <= 7 && i <= len <= 255
    ensures 0 <= i * NumBytes(size) && i * NumBytes(size) + NumBytes(size) <= ADDR
  {
    SmallBurst(size, len);
  }

  /** Beat `i` transfers exactly its own block. */
  lemma BeatTransfers(addr: nat, size: nat, len: nat, width: nat, i: nat, x: nat)
    requires OnBus(addr, size, width) && i <= len <= 255
    ensures Transfers(addr, size, len, Incr, width, i, x) <==> x < ADDR && InBlock(addr, size, i, Ahead(addr, size, x))
  {
    var b, a, s := NumBytes(size), BlockStart(addr, size, i), BeatAddr(addr, size, len, Incr, i);
    LanesAreBytes(addr, size, len, width, i, x);
    IncrBeatAddr(addr, size, len, i);
    BlockFacts(addr, size, i);
    BlockIsNear(size, len, i);
    ClearLowAligns(addr, size);
    if x < ADDR {
      AroundTheEnd(AlignedAddr(addr, size), i * b, a, b, x);
    }
  }

  /** The lanes of beat `i` stand for the bytes from its address to the end of its block. */
  lemma LanesAreBytes(addr: nat, size: nat, len: nat, width: nat, i: nat, x: nat)
    requires OnBus(addr, size, width)
    ensures Transfers(addr, size, len, Incr, width, i, x) <==>
            BeatAddr(addr, size, len, Incr, i) <= x < BlockStart(addr, size, i) + NumBytes(size)
  {
    IncrLanes(addr, size, len, width, i);
    var s := BeatAddr(addr, size, len, Incr, i);
    var base := s / width * width;
    if s <= x < BlockStart(addr, size, i) + NumBytes(size) {
      assert LaneAddr(addr, size, len, Incr, width, i, x - base) == x;
    }
  }

  /** The blocks of a burst tile its range of distances. */
  lemma BlocksTile(addr: nat, size: nat, len: nat, d: nat) returns (i: nat)
    requires addr < ADDR && addr - AlignedAddr(addr, size) <= d < Container(size, len)
    ensures i <= len && InBlock(addr, size, i, d)
  {
    i := BlockOf(d, NumBytes(size), len + 1);
  }

  lemma BlocksDisjoint(addr: nat, size: nat, i: nat, j: nat, d: int)
    requires i < j && InBlock(addr, size, i, d)
    ensures !InBlock(addr, size, j, d)
  {
    MultiplesApart(NumBytes(size), i, j);
  }

  lemma InBlockInRange(addr: nat, size: nat, len: nat, i: nat, d: int)
    requires addr < ADDR && size <= 7 && i <= len <= 255 && InBlock(addr, size, i, d)
    ensures addr - AlignedAddr(addr, size) <= d < Container(size, len)
  {
    SmallBurst(size, len);
    AfterFirstBlock(addr, size, i);
  }

  lemma AfterFirstBlock(addr: nat, size: nat, i: nat)
    requires addr < ADDR
    ensures i > 0 ==> addr - AlignedAddr(addr, size) <= i * NumBytes(size)
  {
    ClearLowAligns(addr, size);
    if i > 0 { MultiplesApart(NumBytes(size), 0, i); }
  }

  /**
   The bytes carried by an incrementing burst tile the addresses from the start to the end of the
   last aligned block, continuing at zero where the address space ends: each of them is transferred
   in exactly one beat, and nothing else is.
   */
  lemma IncrBurstTiles(addr: nat, size: nat, len: nat, width: nat, x: nat)
    requires OnBus(addr, size, width) && len <= 255
    ensures (exists i :: 0 <= i <= len && Transfers(addr, size, len, Incr, width, i, x)) <==>
            x < ADDR && addr - AlignedAddr(addr, size) <= Ahead(addr, size, x) < Container(size, len)
    ensures AlignedAddr(addr, size) == addr - addr % Pow2(size) && Container(size, len) == Pow2(size) * (len + 1)
    ensures forall i, j :: 0 <= i < j <= len ==>
              !(Transfers(addr, size, len, Incr, width, i, x) && Transfers(addr, size, len, Incr, width, j, x))
  {
    var d := Ahead(addr, size, x);
    ClearLowAligns(addr, size);
    if x < ADDR && addr - AlignedAddr(addr, size) <= d < Container(size, len) {
      var i := BlocksTile(addr, size, len, d);
      BeatTransfers(addr, size, len, width, i, x);
    }
    forall i | 0 <= i <= len && Transfers(addr, size, len, Incr, width, i, x)
      ensures x < ADDR && addr - AlignedAddr(addr, size) <= d < Container(size, len)
    {
      BeatTransfers(addr, size, len, width, i, x);
      InBlockInRange(addr, size, len, i, d);
    }
    forall i, j | 0 <= i < j <= len
      ensures !(Transfers(addr, size, len, Incr, width, i, x) && Transfers(addr, size, len, Incr, width, j, x))
    {
      BeatTransfers(addr, size, len, width, i, x);
      BeatTransfers(addr, size, len, width, j, x);
      if InBlock(addr, size, i, d) { BlocksDisjoint(addr, size, i, j, d); }
    }
  }

  /** Below the end of the address space that is a plain range of addresses. */
  lemma IncrBurstRange(addr: nat, size: nat, len: nat, x: nat)
    requires addr < ADDR && size <= 7 && len <= 255
    requires AlignedAddr(addr, size) + Container(size, len) <= ADDR
    ensures x < ADDR && addr - AlignedAddr(addr, size) <= Ahead(addr, size, x) < Container(size, len) <==>
            addr <= x < AlignedAddr(addr, size) + Container(size, len)
  {
    ClearLowAligns(addr, size);
    if x < ADDR { AddrModulo(x - AlignedAddr(addr, size)); }
  }

  // ------------------------------------------------------------------ byte lanes of wrapping bursts

  /** A beat of a wrapping burst below the top of the address space starts on a multiple of the transfer size. */
  lemma WrapBeatAligned(addr: nat, size: nat, len: nat, n: nat, i: nat)
    requires WrapBurst(addr, size, len, n) && !EndsAddressSpace(addr, size, len) && i <= len
    ensures var b, c, w, s := NumBytes(size), Container(size, len), WrapBoundary(addr, size, len),
                              BeatAddr(addr, size, len, Wrap, i);
            s % b == 0 && w <= s && s + b <= w + c
  {
    var b, c, w := NumBytes(size), Container(size, len), WrapBoundary(addr, size, len);
    var slot := WrapShape(addr, size, len, n);
    var k := SlotAfter(slot, i, len + 1);
    BeatInSlots(addr, size, len, n, slot, i);
    SlotAligned(b, len + 1, w, k);
  }

  lemma SlotAligned(b: nat, beats: nat, w: nat, k: nat)
    requires b >= 1 && k < beats && b * beats > 0 && w % (b * beats) == 0
    ensures 0 <= k * b && (w + k * b) % b == 0 && k * b + b <= b * beats
  {
    BoundaryAligned(b, beats, w);
    MultipleOfMultiple(k, b, b);
    SumOfMultiples(w, k * b, b);
    MultiplesApart(b, k, beats);
  }

  lemma BoundaryAligned(b: nat, beats: nat, w: nat)
    requires b >= 1 && b * beats > 0 && w % (b * beats) == 0
    ensures w % b == 0
  {
    var c := b * beats;
    var q := w / c;
    QuotientUnique(c, b, beats, 0);
    MultipleOfMultiple(q, c, b);
    assert w == q * c;
  }

  /** The lanes of such a beat are one transfer from its address on, within the bus word of that address. */
  lemma WrapLaneRange(addr: nat, size: nat, len: nat, n: nat, width: nat, i: nat)
    requires WrapBurst(addr, size, len, n) && !EndsAddressSpace(addr, size, len) && i <= len
    requires OnBus(addr, size, width)
    ensures var b, s := NumBytes(size), BeatAddr(addr, size, len, Wrap, i);
            var base := s / width * width;
            && 0 <= base <= s && s + b <= base + width
            && BeatLowerByte(addr, size, len, Wrap, width, i) == s - base
            && BeatUpperByte(addr, size, len, Wrap, width, i) == s + b - 1 - base
  {
    WrapStart(addr, size, len, n);
    WrapBeatAligned(addr, size, len, n, i);
    BlockInWord(BeatAddr(addr, size, len, Wrap, i), BeatAddr(addr, size, len, Wrap, i), NumBytes(size), width);
    AlignedLanes(addr, size, len, Wrap, width, i);
  }

  /** The two lane functions, for a beat that starts its block and lies within one bus word. */
  lemma AlignedLanes(addr: nat, size: nat, len: nat, burst: Burst, width: nat, i: nat)
    requires 0 < width < SHORT && (i == 0 ==> AlignedAddr(addr, size) == addr)
    requires var b, s := NumBytes(size), BeatAddr(addr, size, len, burst, i);
             0 <= s / width * width <= s && s + b <= s / width * width + width
    ensures var b, s := NumBytes(size), BeatAddr(addr, size, len, burst, i);
            && BeatLowerByte(addr, size, len, burst, width, i) == s - s / width * width
            && BeatUpperByte(addr, size, len, burst, width, i) == s + b - 1 - s / width * width
  {
    var b, s := NumBytes(size), BeatAddr(addr, size, len, burst, i);
    SmallShort(s - s / width * width);
    SmallShort(s + b - 1 - s / width * width);
  }

  lemma WrapStart(addr: nat, size: nat, len: nat, n: nat)
    requires WrapBurst(addr, size, len, n)
    ensures AlignedAddr(addr, size) == addr
  {
    var slot := WrapShape(addr, size, len, n);
  }

  /** They fit on the bus and stand for the bytes of one transfer. */
  lemma WrapLanes(addr: nat, size: nat, len: nat, n: nat, width: nat, i: nat, x: nat)
    requires WrapBurst(addr, size, len, n) && !EndsAddressSpace(addr, size, len) && i <= len
    requires OnBus(addr, size, width)
    ensures BeatLowerByte(addr, size, len, Wrap, width, i) <= BeatUpperByte(addr, size, len, Wrap, width, i) < width
    ensures var s := BeatAddr(addr, size, len, Wrap, i);
            Transfers(addr, size, len, Wrap, width, i, x) <==> s <= x < s + NumBytes(size)
  {
    var b, s := NumBytes(size), BeatAddr(addr, size, len, Wrap, i);
    WrapLaneRange(addr, size, len, n, width, i);
    if s <= x < s + b {
      assert LaneAddr(addr, size, len, Wrap, width, i, x - s / width * width) == x;
    }
  }

  /** Two different beats of a wrapping burst transfer different bytes. */
  lemma WrapBeatsApart(addr: nat, size: nat, len: nat, n: nat, i: nat, j: nat)
    requires WrapBurst(addr, size, len, n) && !EndsAddressSpace(addr, size, len) && i <= len && j <= len && i != j
    ensures var b, s, t := NumBytes(size), BeatAddr(addr, size, len, Wrap, i), BeatAddr(addr, size, len, Wrap, j);
            s + b <= t || t + b <= s
  {
    var slot := WrapShape(addr, size, len, n);
    BeatInSlots(addr, size, len, n, slot, i);
    BeatInSlots(addr, size, len, n, slot, j);
    SlotsApart(NumBytes(size), SlotAfter(slot, i, len + 1), SlotAfter(slot, j, len + 1));
  }

  lemma SlotsApart(b: nat, k: nat, m: nat)
    requires k != m
    ensures k * b + b <= m * b || m * b + b <= k * b
  {
    if k < m { MultiplesApart(b, k, m); } else { MultiplesApart(b, m, k); }
  }

  /**
   The bytes carried by a wrapping burst below the top of the address space tile its container: each
   is transferred in exactly one beat, and nothing else is, however wide the bus.
   */
  lemma WrapBurstTiles(addr: nat, size: nat, len: nat, n: nat, width: nat, x: nat)
    requires WrapBurst(addr, size, len, n) && !EndsAddressSpace(addr, size, len) && OnBus(addr, size, width)
    ensures var c := Pow2(size) * (len + 1);
            && c > 0
            && ((exists i :: 0 <= i <= len && Transfers(addr, size, len, Wrap, width, i, x)) <==>
                addr - addr % c <= x < addr - addr % c + c)
    ensures forall i, j :: 0 <= i < j <= len ==>
              !(Transfers(addr, size, len, Wrap, width, i, x) && Transfers(addr, size, len, Wrap, width, j, x))
  {
    var b, c, w := NumBytes(size), Container(size, len), WrapBoundary(addr, size, len);
    BoundaryIsCleared(addr, size, len, n);
    ClearLowAligns(addr, size + n);
    if w <= x < w + c {
      var k := BlockOf(x - w, b, len + 1);
      var i := WrapIsBijection(addr, size, len, n, k);
      WrapLanes(addr, size, len, n, width, i, x);
      assert Transfers(addr, size, len, Wrap, width, i, x);
    }
    forall i | 0 <= i <= len && Transfers(addr, size, len, Wrap, width, i, x)
      ensures w <= x < w + c
    {
      WrapLanes(addr, size, len, n, width, i, x);
      WrapBeatAligned(addr, size, len, n, i);
    }
    forall i, j | 0 <= i < j <= len
      ensures !(Transfers(addr, size, len, Wrap, width, i, x) && Transfers(addr, size, len, Wrap, width, j, x))
    {
      WrapLanes(addr, size, len, n, width, i, x);
      WrapLanes(addr, size, len, n, width, j, x);
      WrapBeatsApart(addr, size, len, n, i, j);
    }
  }

  /** Every beat of a FIXED burst, and the first beat of any, has the start address. */
  lemma StartAddress(addr: nat, size: nat, len: nat, burst: Burst, i: nat)
    ensures burst == Fixed || i == 0 ==> BeatAddr(addr, size, len, burst, i) == addr
  {}

  lemma BlockOf(d: nat, b: nat, beats: nat) returns (i: nat)
    requires b > 0 && d < beats * b
    ensures i < beats && i * b <= d < i * b + b
  {
    i := d / b;
    assert d == b * i + d % b;
    if i >= beats {
      if i > beats { MultiplesApart(b, beats, i); }
    }
  }
}
