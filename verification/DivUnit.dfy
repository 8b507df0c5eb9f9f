/**
 The radix-4 restoring divider `DIVUnit_new` of `MDU_new.v`, which skips 16, 8 or 4 zero quotient
 bits at once when a truncated slice of the partial remainder is below the divisor.
 */
module DivUnit {
  import opened Bits

  const W67 := 0x8_0000_0000_0000_0000

  /** `tmp[0..3]`, the unary counter of quotient bits still to come, and the sign fix-ups. */
  datatype Regs = Regs(counter: nat, t0: nat, t1: nat, t2: nat, t3: nat, negQ: bool, negR: bool, busy: bool)

  datatype In = In(req: bool, sign: bool, a: nat, b: nat, recv: bool)

  // ------------------------------------------------------------------ two's complement words

  predicate Negative(x: nat, sign: bool) {
    sign && Bit(x, 31)
  }

  function Negate(x: nat): nat {
    (W32 - x) % W32
  }

  function Magnitude(x: nat, sign: bool): nat {
    if Negative(x, sign) then Negate(x) else x
  }

  /** The number a 32-bit word stands for. */
  function Value(x: nat, sign: bool): int {
    if Negative(x, sign) then x - W32 else x
  }

  // ------------------------------------------------------------------ the registers

  function Start(x: In): Regs {
    var a, b := Magnitude(x.a, x.sign), Magnitude(x.b, x.sign);
    var d := b * W32;
    Regs(W32 - 1, a, d, (d * 2) % W67, ((d * 2) % W67 + d) % W67,
         Negative(x.a, x.sign) != Negative(x.b, x.sign), Negative(x.a, x.sign), true)
  }

  /** May the next `w` quotient bits be skipped? Bits `63-w` down to `32-w` against the divisor. */
  predicate SkipTest(s: Regs, w: nat)
    requires 1 <= w <= 32
  {
    Bit(s.counter, w - 1) && s.t0 / Pow2(32 - w) % W32 < s.t1 / W32 % W32
  }

  function Skip(s: Regs, w: nat): Regs {
    s.(counter := Shr(s.counter, w), t0 := s.t0 * Pow2(w) % W67)
  }

  /** `(tmp[0] << 2) - t` on 67 bits; its top bit is the borrow. */
  function Sub(s: Regs, t: nat): nat {
    (s.t0 * 4 % W67 - t) % W67
  }

  predicate Fits(s: Regs, t: nat) {
    !Bit(Sub(s, t), 66)
  }

  function Digit(s: Regs): Regs {
    s.(counter := Shr(s.counter, 2),
       t0 := if Fits(s, s.t3) then (Sub(s, s.t3) + 3) % W67
             else if Fits(s, s.t2) then (Sub(s, s.t2) + 2) % W67
             else if Fits(s, s.t1) then (Sub(s, s.t1) + 1) % W67
             else s.t0 * 4 % W67)
  }

  function Iterate(s: Regs): Regs {
    if SkipTest(s, 16) then Skip(s, 16)
    else if SkipTest(s, 8) then Skip(s, 8)
    else if SkipTest(s, 4) then Skip(s, 4)
    else if Bit(s.counter, 0) then Digit(s)
    else s
  }

  predicate ValidRes(s: Regs) {
    !Bit(s.counter, 1) && s.busy
  }

  function HiRes(s: Regs): nat {
    var r := s.t0 / W32 % W32;
    if s.negR then Negate(r) else r
  }

  function LoRes(s: Regs): nat {
    var q := s.t0 % W32;
    if s.negQ then Negate(q) else q
  }

  function Step(s: Regs, x: In): Regs {
    if x.req && !s.busy then Start(x)
    else Iterate(s).(busy := s.busy && !(x.recv && ValidRes(s)))
  }

  // ------------------------------------------------------------------ constants and bit patterns

  lemma Constants()
    ensures Pow2(1) == 2 && Pow2(2) == 4 && Pow2(4) == 16 && Pow2(8) == 256 && Pow2(16) == 65536
    ensures Pow2(31) == 0x8000_0000 && Pow2(32) == W32 && Pow2(66) * 2 == W67
  {
    Pow2Add(16, 16);
    assert Pow2(32) == 2 * Pow2(31);
    Pow2Add(32, 2);
    Pow2Add(32, 34);
  }

  lemma OnesQuotient(p: nat, h: nat)
    requires p >= 1 && h >= 1
    ensures p * h >= 1 && (p * h - 1) / p == h - 1
  {
    var k := h - 1;
    assert p * h == p * k + p;
    QuotientUnique(p * k + (p - 1), p, k, p - 1);
  }

  /** Shifting a counter of `r` ones leaves a counter of ones. */
  lemma OnesShift(r: nat, i: nat)
    requires i <= r
    ensures (Pow2(r) - 1) / Pow2(i) == Pow2(r - i) - 1
  {
    Pow2Add(i, r - i);
    OnesQuotient(Pow2(i), Pow2(r - i));
  }

  lemma OnesBit(r: nat, i: nat)
    ensures Bit(Pow2(r) - 1, i) <==> i < r
  {
    var x := Pow2(r) - 1;
    if i < r {
      OnesShift(r, i);
      var k := Pow2(r - i - 1) - 1;
      assert x / Pow2(i) == 2 * k + 1;
      QuotientUnique(2 * k + 1, 2, k, 1);
    } else {
      Pow2Monotone(r, i);
      QuotientUnique(x, Pow2(i), 0, x);
    }
  }

  lemma {:induction false} OnesLength(r: nat)
    ensures BitLength(Pow2(r) - 1) == r
  {
    if r > 0 {
      OnesLength(r - 1);
      assert (Pow2(r) - 1) / 2 == Pow2(r - 1) - 1;
    }
  }

  // ------------------------------------------------------------------ the loop invariant

  /**
   The register fields when the consumed bits weigh `u` and the bits still to come weigh `v`: `q` and
   `rem` divide the consumed part of the dividend `a` by `b`, and `rest` is what is still to come.
   The remainder is below the divisor and below `u`. Division by zero yields ones.
   */
  ghost predicate Fields(s: Regs, a: nat, b: nat, u: nat, v: nat, q: nat, rem: nat, rest: nat) {
    && b < W32 && s.t1 == b * W32 && s.t2 == 2 * b * W32 && s.t3 == 3 * b * W32
    && rest < v && rem < u && q < u
    && a == (q * b + rem) * v + rest
    && s.t0 == rem * W32 + rest * u + q
    && (b > 0 ==> rem < b)
    && (b == 0 ==> q == u - 1)
  }

  /** `r` bits of the dividend are still to come; so the remainder is below `2^(32-r)`. */
  ghost predicate Progress(s: Regs, a: nat, b: nat, r: nat, q: nat, rem: nat, rest: nat) {
    && r <= 32 && r % 2 == 0
    && s.counter == Pow2(r) - 1
    && Fields(s, a, b, Pow2(32 - r), Pow2(r), q, rem, rest)
  }

  ghost predicate InProgress(s: Regs, a: nat, b: nat, r: nat) {
    s.counter == Pow2(r) - 1 &&
    exists q: nat, rem: nat, rest: nat :: Progress(s, a, b, r, q, rem, rest)
  }

  /** The number of quotient bits still to come. */
  function Left(s: Regs): nat {
    BitLength(s.counter)
  }

  lemma LeftOf(s: Regs, r: nat)
    requires s.counter == Pow2(r) - 1
    ensures Left(s) == r
  {
    OnesLength(r);
  }

  /** The next bits `n` of the rest, and what stays behind. */
  lemma SplitRest(u: nat, v: nat, c: nat, q: nat, rest: nat)
    requires v >= 1 && rest < v * c && q < u
    ensures 0 <= rest / v < c && 0 <= rest % v < v && rest == v * (rest / v) + rest % v
    ensures (rest % v) * u + q < u * v
  {
    var n, rest' := rest / v, rest % v;
    assert rest == v * n + rest';
    if n >= c {
      MulMonotone(v, c, n);
    }
    MulMonotone(u, rest' + 1, v);
  }

  /**
   Shifting by `w` bits (`c = 2^w`) moves the next `w` bits of the dividend into the remainder:
   the register then holds the extended remainder on top, and so does its slice before the shift.
   */
  lemma ShiftRegister(u: nat, v: nat, c: nat, q: nat, rem: nat, n: nat, rest': nat, t0: nat)
    requires u >= 1 && v >= 1 && c >= 1 && u * v * c == W32
    requires rest' * u + q < u * v
    requires t0 == rem * W32 + (v * n + rest') * u + q
    ensures var rem' := rem * c + n;
            && t0 == (u * v) * rem' + (rest' * u + q)
            && t0 / (u * v) == rem'
            && t0 * c == rem' * W32 + rest' * (u * c) + q * c
            && rest' * (u * c) + q * c + c <= W32
  {
    var rem' := rem * c + n;
    var low := rest' * u + q;
    calc {
      t0;
      rem * (u * v * c) + (v * n) * u + low;
      (u * v) * (rem * c) + (u * v) * n + low;
      (u * v) * rem' + low;
    }
    QuotientUnique(t0, u * v, rem', low);
    calc {
      t0 * c;
      ((u * v) * rem' + low) * c;
      rem' * (u * v * c) + low * c;
      rem' * W32 + low * c;
    }
    assert low * c == rest' * (u * c) + q * c;
    MulMonotone(c, low + 1, u * v);
  }

  /** The consumed part of the dividend after the same shift. */
  lemma ShiftDividend(v: nat, c: nat, q: nat, b: nat, rem: nat, n: nat, rest': nat)
    ensures (q * b + rem) * (v * c) + (v * n + rest') == (q * c * b + (rem * c + n)) * v + rest'
  {
    var d := q * b + rem;
    calc {
      (q * c * b + (rem * c + n)) * v;
      ((q * b) * c + rem * c + n) * v;
      (d * c + n) * v;
      d * (v * c) + v * n;
    }
  }

  lemma MulMonotone(k: nat, x: nat, y: nat)
    requires x <= y
    ensures k * x <= k * y
  {}

  /** The powers that describe a shift by `w` with `r` bits to come. */
  lemma ShiftPowers(r: nat, w: nat)
    requires w <= r <= 32
    ensures Pow2(32 - r) * Pow2(r - w) * Pow2(w) == W32
    ensures Pow2(r) == Pow2(r - w) * Pow2(w)
    ensures Pow2(32 - r) * Pow2(r - w) == Pow2(32 - w)
    ensures Pow2(32 - r) * Pow2(w) == Pow2(32 - (r - w))
    ensures Pow2(32 - (r - w)) <= W32
  {
    Constants();
    PowerSplit(r - w, w, r);
    PowerSplit(32 - r, r - w, 32 - w);
    PowerSplit(32 - r, w, 32 - (r - w));
    PowerSplit(32 - w, w, 32);
    Pow2Monotone(32 - (r - w), 32);
  }

  lemma PowerSplit(i: nat, j: nat, k: nat)
    requires k == i + j
    ensures Pow2(k) == Pow2(i) * Pow2(j)
  {
    Pow2Add(i, j);
  }

  /** Everything a shift does, in terms of the weights `u`, `v`, `c` of the three register fields. */
  lemma ShiftAll(u: nat, v: nat, c: nat, a: nat, b: nat, q: nat, rem: nat, rest: nat, t0: nat)
    returns (rem': nat, rest': nat)
    requires u >= 1 && v >= 1 && c >= 1 && u * v * c == W32
    requires rest < v * c && q < u && rem < u
    requires a == (q * b + rem) * (v * c) + rest
    requires t0 == rem * W32 + rest * u + q
    ensures rem' < (rem + 1) * c && rem' < u * c && rest' < v && 0 <= q * c && q * c + c <= u * c
    ensures t0 / (u * v) == rem'
    ensures t0 * c == rem' * W32 + rest' * (u * c) + q * c
    ensures 0 <= rest' * (u * c) && rest' * (u * c) + q * c + c <= W32
    ensures a == (q * c * b + rem') * v + rest'
  {
    SplitRest(u, v, c, q, rest);
    var n;
    n, rest' := rest / v, rest % v;
    ShiftBounds(u, c, q, rem, n, rest');
    rem' := rem * c + n;
    ShiftRegister(u, v, c, q, rem, n, rest', t0);
    ShiftDividend(v, c, q, b, rem, n, rest');
  }

  lemma ShiftBounds(u: nat, c: nat, q: nat, rem: nat, n: nat, rest: nat)
    requires q < u && rem < u && n < c
    ensures 0 <= rem * c + n < (rem + 1) * c && rem * c + n < u * c
    ensures 0 <= q * c && q * c + c <= u * c
    ensures 0 <= rest * (u * c)
  {
    MulMonotone(c, rem + 1, u);
    MulMonotone(c, q + 1, u);
    MulMonotone(c, 0, q);
    MulMonotone(c, 0, rem);
    MulMonotone(c, 0, u);
    var p: nat := u * c;
    MulMonotone(rest, 0, p);
    assert (rem + 1) * c == rem * c + c;
  }

  /** Skipping is right when the extended remainder stays below the divisor: all digits are zero. */
  lemma SkipFields(s: Regs, a: nat, b: nat, u: nat, v: nat, c: nat, q: nat, rem: nat, rest: nat)
    returns (q': nat, rem': nat, rest': nat)
    requires u >= 1 && v >= 1 && c >= 1 && u * v * c == W32 && u * c <= W32
    requires Fields(s, a, b, u, v * c, q, rem, rest)
    requires s.t0 / (u * v) < b
    ensures s.t0 * c % W67 >= 0
    ensures Fields(s.(t0 := s.t0 * c % W67), a, b, u * c, v, q', rem', rest')
  {
    rem', rest' := ShiftAll(u, v, c, a, b, q, rem, rest, s.t0);
    q' := q * c;
    var t0' := rem' * W32 + rest' * (u * c) + q';
    QuotientUnique(t0', W67, 0, t0');
  }

  /** The truncated slice test is exact: it succeeds just when `w` bits are left and all are zero. */
  lemma SkipTestExact(s: Regs, a: nat, b: nat, r: nat, q: nat, rem: nat, rest: nat, w: nat)
    requires Progress(s, a, b, r, q, rem, rest) && 1 <= w <= 16
    ensures SkipTest(s, w) <==> w <= r && s.t0 / Pow2(32 - w) < b
  {
    OnesBit(r, w - 1);
    QuotientUnique(s.t1, W32, b, 0);
    QuotientUnique(b, W32, 0, b);
    if w <= r {
      ShiftPowers(r, w);
      var rem', rest' := ShiftAll(Pow2(32 - r), Pow2(r - w), Pow2(w), a, b, q, rem, rest, s.t0);
      QuotientUnique(rem', W32, 0, rem');
    }
  }

  lemma EvenDifference(r: nat, w: nat)
    requires w <= r && r % 2 == 0 && w % 2 == 0
    ensures (r - w) % 2 == 0
  {}

  lemma SkipStep(s: Regs, a: nat, b: nat, r: nat, q: nat, rem: nat, rest: nat, w: nat)
    requires Progress(s, a, b, r, q, rem, rest) && 2 <= w <= 16 && w % 2 == 0 && SkipTest(s, w)
    ensures w <= r && InProgress(Skip(s, w), a, b, r - w)
  {
    SkipTestExact(s, a, b, r, q, rem, rest, w);
    ShiftPowers(r, w);
    OnesShift(r, w);
    var q', rem', rest' := SkipFields(s, a, b, Pow2(32 - r), Pow2(r - w), Pow2(w), q, rem, rest);
    EvenDifference(r, w);
    assert Progress(Skip(s, w), a, b, r - w, q', rem', rest');
  }

  /** The borrow bit of the 67-bit subtraction is set just when the multiple does not fit. */
  lemma BorrowExact(s: Regs, b: nat, k: nat, rem: nat, low: nat)
    requires b < W32 && k <= 3 && rem < W32 && low < W32
    requires s.t0 * 4 == rem * W32 + low
    ensures Fits(s, k * b * W32) <==> k * b <= rem
    ensures k * b <= rem ==> Sub(s, k * b * W32) == (rem - k * b) * W32 + low
  {
    QuotientUnique(s.t0 * 4, W67, 0, s.t0 * 4);
    var m := k * b;
    TopBit((rem - m) * W32 + low);
    assert s.t0 * 4 % W67 - m * W32 == (rem - m) * W32 + low;
  }

  /** Bit 66 of a difference modulo 2^67 is its sign, when the difference is not too far below zero. */
  lemma TopBit(d: int)
    requires -W67 <= 2 * d < W67
    ensures Bit(d % W67, 66) <==> d < 0
    ensures d >= 0 ==> d % W67 == d
  {
    Constants();
    if d >= 0 {
      QuotientUnique(d, W67, 0, d);
      QuotientUnique(d, Pow2(66), 0, d);
    } else {
      QuotientUnique(d + W67, Pow2(66), 1, d + W67 - Pow2(66));
    }
  }

  /** The quotient digit chosen by the three comparisons. */
  function DigitOf(b: nat, rem: nat): nat {
    if 3 * b <= rem then 3 else if 2 * b <= rem then 2 else if b <= rem then 1 else 0
  }

  lemma DigitRegister(s: Regs, b: nat, rem: nat, low: nat)
    requires b < W32 && rem < W32 && low + 4 <= W32
    requires s.t0 * 4 == rem * W32 + low
    requires s.t1 == b * W32 && s.t2 == 2 * b * W32 && s.t3 == 3 * b * W32
    ensures Digit(s).t0 == (rem - DigitOf(b, rem) * b) * W32 + low + DigitOf(b, rem)
  {
    if 3 * b <= rem {
      BorrowExact(s, b, 3, rem, low);
      FitsRegister((rem - 3 * b) * W32 + low, 3);
    } else if 2 * b <= rem {
      BorrowExact(s, b, 3, rem, low);
      BorrowExact(s, b, 2, rem, low);
      FitsRegister((rem - 2 * b) * W32 + low, 2);
    } else {
      LowDigit(s, b, rem, low);
    }
  }

  lemma LowDigit(s: Regs, b: nat, rem: nat, low: nat)
    requires b < W32 && rem < W32 && low + 4 <= W32 && rem < 2 * b
    requires s.t0 * 4 == rem * W32 + low
    requires s.t1 == b * W32 && s.t2 == 2 * b * W32 && s.t3 == 3 * b * W32
    ensures Digit(s).t0 == if b <= rem then (rem - b) * W32 + low + 1 else rem * W32 + low
  {
    BorrowExact(s, b, 3, rem, low);
    BorrowExact(s, b, 2, rem, low);
    BorrowExact(s, b, 1, rem, low);
    if b <= rem {
      FitsRegister((rem - b) * W32 + low, 1);
    } else {
      FitsRegister(rem * W32 + low, 0);
    }
  }

  /** The digit is the quotient of the extended remainder, and what is left is below the divisor. */
  lemma PickDigit(s: Regs, b: nat, rem: nat, low: nat) returns (k: nat, rem': nat)
    requires b < W32 && rem < W32 && low + 4 <= W32
    requires s.t0 * 4 == rem * W32 + low
    requires s.t1 == b * W32 && s.t2 == 2 * b * W32 && s.t3 == 3 * b * W32
    ensures k <= 3 && rem' <= rem == k * b + rem'
    ensures rem < 4 * b ==> rem' < b
    ensures b == 0 ==> k == 3
    ensures Digit(s).t0 == rem' * W32 + low + k
  {
    DigitRegister(s, b, rem, low);
    k := DigitOf(b, rem);
    rem' := if k == 3 then rem - 3 * b else if k == 2 then rem - 2 * b else if k == 1 then rem - b else rem;
  }

  lemma FitsRegister(x: nat, k: nat)
    requires x + k < W67
    ensures (x + k) % W67 == x + k
  {
    QuotientUnique(x + k, W67, 0, x + k);
  }

  /** A digit step extends the remainder by two bits and takes out the largest multiple that fits. */
  lemma DigitFields(s: Regs, a: nat, b: nat, u: nat, v: nat, q: nat, rem: nat, rest: nat)
    returns (q': nat, rem': nat, rest': nat)
    requires u >= 1 && v >= 1 && u * v * 4 == W32 && u * 4 <= W32
    requires Fields(s, a, b, u, v * 4, q, rem, rest)
    ensures Fields(s.(t0 := Digit(s).t0), a, b, u * 4, v, q', rem', rest')
  {
    var ext, k;
    ext, rest' := ShiftAll(u, v, 4, a, b, q, rem, rest, s.t0);
    k, rem' := PickDigit(s, b, ext, rest' * (u * 4) + q * 4);
    q' := q * 4 + k;
    DigitQuotient(q, b, k, rem', ext);
    Assemble(s.(t0 := Digit(s).t0), a, b, u * 4, v, q', rem', rest', q * 4 * b + ext);
  }

  /** The invariant from its parts; `d` is the consumed part of the dividend. */
  lemma Assemble(t: Regs, a: nat, b: nat, u: nat, v: nat, q: nat, rem: nat, rest: nat, d: int)
    requires b < W32 && t.t1 == b * W32 && t.t2 == 2 * b * W32 && t.t3 == 3 * b * W32
    requires rest < v && rem < u && q < u && (b > 0 ==> rem < b) && (b == 0 ==> q == u - 1)
    requires a == d * v + rest && d == q * b + rem
    requires t.t0 == rem * W32 + rest * u + q
    ensures Fields(t, a, b, u, v, q, rem, rest)
  {}

  /** The consumed part of the dividend, regrouped around the new digit. */
  lemma DigitQuotient(q: nat, b: nat, k: nat, rem: nat, ext: nat)
    requires ext == k * b + rem
    ensures q * 4 * b + ext == (q * 4 + k) * b + rem
  {}

  lemma DigitPowers(r: nat)
    requires 2 <= r <= 32
    ensures Pow2(2) == 4 && Pow2(r) == Pow2(r - 2) * 4 && Pow2(32 - r) * Pow2(r - 2) * 4 == W32
    ensures Pow2(32 - (r - 2)) == Pow2(32 - r) * 4 <= W32
  {
    assert Pow2(2) == 2 * Pow2(1) == 2 * (2 * Pow2(0)) == 4;
    ShiftPowers(r, 2);
  }

  lemma DigitStep(s: Regs, a: nat, b: nat, r: nat, q: nat, rem: nat, rest: nat)
    requires Progress(s, a, b, r, q, rem, rest) && r >= 2
    ensures InProgress(Digit(s), a, b, r - 2)
  {
    DigitPowers(r);
    OnesShift(r, 2);
    var q', rem', rest' := DigitFields(s, a, b, Pow2(32 - r), Pow2(r - 2), q, rem, rest);
    assert Progress(Digit(s), a, b, r - 2, q', rem', rest');
  }

  /** The next `w` digits of the quotient of `a` by `b` are zero, when `r` bits of `a` are still to come. */
  predicate ZeroDigits(a: nat, b: nat, r: nat, w: nat) {
    w <= r && b > 0 && a / Pow2(r - w) / b == a / Pow2(r) / b * Pow2(w)
  }

  /** So the slice test means just that: the next `w` quotient bits exist and are zero. */
  lemma SkipTestMeaning(s: Regs, a: nat, b: nat, r: nat, q: nat, rem: nat, rest: nat, w: nat)
    requires Progress(s, a, b, r, q, rem, rest) && 1 <= w <= 16
    ensures SkipTest(s, w) <==> ZeroDigits(a, b, r, w)
  {
    SkipTestExact(s, a, b, r, q, rem, rest, w);
    if w <= r && b > 0 {
      var u, v, c := Pow2(32 - r), Pow2(r - w), Pow2(w);
      ShiftPowers(r, w);
      var rem', rest' := ShiftAll(u, v, c, a, b, q, rem, rest, s.t0);
      ZeroDigitsMean(a, b, v, c, q, rem, rest, rem', rest');
    }
  }

  /** The quotient gains only zero digits just when the extended remainder stays below the divisor. */
  lemma ZeroDigitsMean(a: nat, b: nat, v: nat, c: nat, q: nat, rem: nat, rest: nat, rem': nat, rest': nat)
    requires rem < b && rest < v * c && rest' < v
    requires a == (q * b + rem) * (v * c) + rest && a == (q * c * b + rem') * v + rest'
    ensures a / v / b == a / (v * c) / b * c <==> rem' < b
  {
    ConsumedQuotient(a, b, q, rem, rest, v * c);
    assert 0 <= q * c by { MulMonotone(q, 0, c); }
    ConsumedQuotient(a, b, q * c, rem', rest', v);
    ZeroQuotient(q, rem, b);
    ZeroQuotient(q * c, rem', b);
  }

  lemma ConsumedQuotient(a: nat, b: nat, q: nat, rem: nat, rest: nat, v: nat)
    requires rest < v && a == (q * b + rem) * v + rest
    ensures 0 <= q * b && a / v == q * b + rem
  {
    MulMonotone(q, 0, b);
    QuotientUnique(a, v, q * b + rem, rest);
  }

  lemma ZeroQuotient(q: nat, rem: nat, b: nat)
    requires b > 0
    ensures 0 <= q * b && ((q * b + rem) / b == q <==> rem < b)
  {
    MulMonotone(q, 0, b);
    var k := rem / b;
    assert q * b + rem == b * (q + k) + rem % b;
    QuotientUnique(q * b + rem, b, q + k, rem % b);
  }

  /** Every iteration skips as many of 16, 8 or 4 zero digits as there are, or else finds one digit. */
  lemma IterateSkipsMost(s: Regs, a: nat, b: nat)
    requires InProgress(s, a, b, Left(s)) && Left(s) > 0
    ensures var r := Left(s);
            Left(s) - Left(Iterate(s)) ==
            if ZeroDigits(a, b, r, 16) then 16 else if ZeroDigits(a, b, r, 8) then 8
            else if ZeroDigits(a, b, r, 4) then 4 else 2
  {
    var r := Left(s);
    var q: nat, rem: nat, rest: nat :| Progress(s, a, b, r, q, rem, rest);
    SkipTestMeaning(s, a, b, r, q, rem, rest, 16);
    SkipTestMeaning(s, a, b, r, q, rem, rest, 8);
    SkipTestMeaning(s, a, b, r, q, rem, rest, 4);
    var w := if SkipTest(s, 16) then 16 else if SkipTest(s, 8) then 8 else if SkipTest(s, 4) then 4 else 2;
    IterateBy(s, a, b, r, q, rem, rest, w);
    LeftOf(Iterate(s), r - w);
  }

  /** Every iteration keeps the invariant, at least two and at most sixteen bits further on. */
  lemma IterateProgress(s: Regs, a: nat, b: nat)
    requires InProgress(s, a, b, Left(s)) && Left(s) > 0
    ensures var t := Iterate(s);
            && InProgress(t, a, b, Left(t))
            && 2 <= Left(s) - Left(t) <= 16
            && t.busy == s.busy && t.negQ == s.negQ && t.negR == s.negR
  {
    var r := Left(s);
    var q: nat, rem: nat, rest: nat :| Progress(s, a, b, r, q, rem, rest);
    var w := if SkipTest(s, 16) then 16 else if SkipTest(s, 8) then 8 else if SkipTest(s, 4) then 4 else 2;
    IterateBy(s, a, b, r, q, rem, rest, w);
    LeftOf(Iterate(s), r - w);
  }

  lemma IterateBy(s: Regs, a: nat, b: nat, r: nat, q: nat, rem: nat, rest: nat, w: nat)
    requires Progress(s, a, b, r, q, rem, rest) && r > 0
    requires w == if SkipTest(s, 16) then 16 else if SkipTest(s, 8) then 8 else if SkipTest(s, 4) then 4 else 2
    ensures w <= r && InProgress(Iterate(s), a, b, r - w)
  {
    if w > 2 {
      SkipStep(s, a, b, r, q, rem, rest, w);
    } else {
      OnesBit(r, 0);
      AtLeastTwo(r);
      DigitStep(s, a, b, r, q, rem, rest);
    }
  }

  lemma AtLeastTwo(r: nat)
    requires r > 0 && r % 2 == 0
    ensures r >= 2
  {}

  /** With no bits left nothing moves any more. */
  lemma FinishedStays(s: Regs)
    requires s.counter == 0
    ensures Iterate(s) == s && !Bit(s.counter, 1)
  {
    OnesBit(0, 15);
    OnesBit(0, 7);
    OnesBit(0, 3);
    OnesBit(0, 1);
    OnesBit(0, 0);
  }

  /** The result is announced just when no bits are left; the register then holds the division. */
  lemma FinishedDivision(s: Regs, a: nat, b: nat)
    requires InProgress(s, a, b, Left(s))
    ensures !Bit(s.counter, 1) <==> Left(s) == 0
    ensures Left(s) == 0 ==> s.counter == 0
    ensures Left(s) == 0 && b > 0 ==> s.t0 % W32 == a / b && s.t0 / W32 % W32 == a % b
    ensures Left(s) == 0 && b == 0 ==> s.t0 % W32 == W32 - 1 && s.t0 / W32 % W32 == a
  {
    var r := Left(s);
    var q: nat, rem: nat, rest: nat :| Progress(s, a, b, r, q, rem, rest);
    OnesBit(r, 1);
    if r == 0 {
      FinishedRegister(s, a, b, q, rem, rest);
    }
  }

  lemma FinishedRegister(s: Regs, a: nat, b: nat, q: nat, rem: nat, rest: nat)
    requires Progress(s, a, b, 0, q, rem, rest)
    ensures b > 0 ==> s.t0 % W32 == a / b && s.t0 / W32 % W32 == a % b
    ensures b == 0 ==> s.t0 % W32 == W32 - 1 && s.t0 / W32 % W32 == a
  {
    ShiftPowers(0, 0);
    assert Pow2(0) == 1 && rest == 0;
    QuotientUnique(s.t0, W32, rem, q);
    QuotientUnique(rem, W32, 0, rem);
    if b > 0 {
      QuotientUnique(a, b, q, rem);
    }
  }

  lemma StartProgress(x: In)
    requires x.a < W32 && x.b < W32
    ensures var s, a, b := Start(x), Magnitude(x.a, x.sign), Magnitude(x.b, x.sign);
            Left(s) == 32 && InProgress(s, a, b, 32) && s.busy && a < W32 && b < W32
  {
    ShiftPowers(32, 32);
    OnesLength(32);
    var a, b := Magnitude(x.a, x.sign), Magnitude(x.b, x.sign);
    var s, d := Start(x), b * W32;
    QuotientUnique(2 * d, W67, 0, 2 * d);
    QuotientUnique(3 * d, W67, 0, 3 * d);
    assert Progress(s, a, b, 32, 0, 0, a);
  }

  // ------------------------------------------------------------------ signed results

  function Abs(x: int): nat {
    if x < 0 then -x else x
  }

  /** Division rounding towards zero, as the instruction set asks for. */
  function TruncDiv(x: int, y: int): int
    requires y != 0
  {
    if (x < 0) == (y < 0) then Abs(x) / Abs(y) else -(Abs(x) / Abs(y))
  }

  function TruncRem(x: int, y: int): int
    requires y != 0
  {
    if x < 0 then -(Abs(x) % Abs(y)) else Abs(x) % Abs(y)
  }

  /** The two belong together, and the remainder takes the sign of the dividend. */
  lemma TruncLaw(x: int, y: int)
    requires y != 0
    ensures x == TruncDiv(x, y) * y + TruncRem(x, y)
    ensures Abs(TruncRem(x, y)) < Abs(y)
    ensures TruncRem(x, y) != 0 ==> (TruncRem(x, y) < 0 <==> x < 0)
  {
    var b := Abs(y);
    var q, r := Abs(x) / b, Abs(x) % b;
    assert Abs(x) == b * q + r;
    SignedProduct(q, y);
  }

  lemma SignedProduct(q: int, y: int)
    ensures q * y == if y < 0 then -(Abs(y) * q) else Abs(y) * q
    ensures (-q) * y == -(q * y)
  {}

  lemma NegateIsMinus(m: nat)
    requires m <= W32
    ensures Negate(m) == (0 - m) % W32
    ensures m < W32 ==> m % W32 == m
  {
    if m == 0 || m == W32 {
    } else {
      assert (0 - m) % W32 == W32 - m;
    }
  }

  lemma MagnitudeIsAbs(x: nat, sign: bool)
    requires x < W32
    ensures Magnitude(x, sign) == Abs(Value(x, sign))
    ensures Negative(x, sign) <==> Value(x, sign) < 0
  {
    Constants();
    QuotientUnique(x, Pow2(31), if x >= Pow2(31) then 1 else 0, if x >= Pow2(31) then x - Pow2(31) else x);
  }

  /** The unit is dividing the operands of the request `x`. */
  ghost predicate Running(s: Regs, x: In) {
    && x.a < W32 && x.b < W32 && s.busy
    && s.negQ == (Negative(x.a, x.sign) != Negative(x.b, x.sign)) && s.negR == Negative(x.a, x.sign)
    && InProgress(s, Magnitude(x.a, x.sign), Magnitude(x.b, x.sign), Left(s))
  }

  /** What the two result words have to be for the request `x`. */
  ghost predicate Correct(x: In, hi: nat, lo: nat) {
    var a, b := Value(x.a, x.sign), Value(x.b, x.sign);
    if b != 0 then
      lo == TruncDiv(a, b) % W32 && hi == TruncRem(a, b) % W32
    else
      hi == a % W32 && lo == if a < 0 then 1 else W32 - 1
  }

  /** The one signed quotient that a word cannot hold: the least number by minus one. */
  predicate QuotientOverflows(x: In) {
    x.sign && x.a == W32 / 2 && x.b == W32 - 1
  }

  /** Two's complement recovers a number in range from its word. */
  lemma ValueOfWord(z: int, sign: bool)
    requires if sign then -W32 <= 2 * z < W32 else 0 <= z < W32
    ensures Value(z % W32, sign) == z
  {
    var w := z % W32;
    assert w == if z < 0 then z + W32 else z;
    MagnitudeIsAbs(w, sign);
    WordSign(w);
  }

  lemma WordSign(w: nat)
    requires w < W32
    ensures Bit(w, 31) <==> 2 * w >= W32
  {
    Constants();
    QuotientUnique(w, Pow2(31), if w >= Pow2(31) then 1 else 0, if w >= Pow2(31) then w - Pow2(31) else w);
  }

  /**
   Read as numbers, the two result words divide: the dividend is quotient times divisor plus a smaller
   remainder of the dividend's sign. Only the least number divided by minus one has no quotient word.
   */
  lemma WordsDivide(x: In, hi: nat, lo: nat)
    requires x.a < W32 && x.b < W32 && x.b != 0 && Correct(x, hi, lo)
    ensures var a, b, q, r := Value(x.a, x.sign), Value(x.b, x.sign), Value(lo, x.sign), Value(hi, x.sign);
            && Abs(r) < Abs(b) && (r != 0 ==> (r < 0 <==> a < 0))
            && (a == q * b + r <==> !QuotientOverflows(x))
            && (QuotientOverflows(x) ==> lo == x.a && r == 0)
  {
    if QuotientOverflows(x) {
      OverflowWords(x, hi, lo);
    } else {
      ExactWords(x, hi, lo);
    }
  }

  lemma ExactWords(x: In, hi: nat, lo: nat)
    requires x.a < W32 && x.b < W32 && x.b != 0 && Correct(x, hi, lo) && !QuotientOverflows(x)
    ensures var a, b, q, r := Value(x.a, x.sign), Value(x.b, x.sign), Value(lo, x.sign), Value(hi, x.sign);
            a == q * b + r && Abs(r) < Abs(b) && (r != 0 ==> (r < 0 <==> a < 0))
  {
    var a, b := Value(x.a, x.sign), Value(x.b, x.sign);
    OperandRange(x.a, x.sign);
    OperandRange(x.b, x.sign);
    TruncLaw(a, b);
    RemainderRange(a, b, x.sign);
    QuotientRange(a, b, x.sign);
    ValueOfWord(TruncRem(a, b), x.sign);
    ValueOfWord(TruncDiv(a, b), x.sign);
  }

  lemma OverflowWords(x: In, hi: nat, lo: nat)
    requires QuotientOverflows(x) && Correct(x, hi, lo)
    ensures lo == x.a && hi == 0 && Value(lo, x.sign) == -W32 / 2 && Value(hi, x.sign) == 0
    ensures Value(x.a, x.sign) == -W32 / 2 && Value(x.b, x.sign) == -1
  {
    WordSign(x.a);
    WordSign(x.b);
    LeastByMinusOne();
    WordSign(0);
  }

  lemma LeastByMinusOne()
    ensures TruncDiv(-W32 / 2, -1) == W32 / 2 && TruncRem(-W32 / 2, -1) == 0
    ensures W32 / 2 % W32 == W32 / 2
  {}

  lemma OperandRange(w: nat, sign: bool)
    requires w < W32
    ensures if sign then -W32 <= 2 * Value(w, sign) < W32 else Value(w, sign) == w
    ensures w != 0 ==> Value(w, sign) != 0
    ensures sign && 2 * Value(w, sign) == -W32 ==> w == W32 / 2
    ensures sign && Value(w, sign) == -1 ==> w == W32 - 1
  {
    WordSign(w);
  }

  lemma RemainderRange(a: int, b: int, sign: bool)
    requires b != 0
    requires if sign then -W32 <= 2 * a < W32 && -W32 <= 2 * b < W32 else 0 <= a < W32 && 0 <= b < W32
    ensures if sign then -W32 <= 2 * TruncRem(a, b) < W32 else 0 <= TruncRem(a, b) < W32
  {
    TruncLaw(a, b);
  }

  /** The quotient of two words is a word, with that one exception. */
  lemma QuotientRange(a: int, b: int, sign: bool)
    requires b != 0 && !(sign && 2 * a == -W32 && b == -1)
    requires if sign then -W32 <= 2 * a < W32 && -W32 <= 2 * b < W32 else 0 <= a < W32 && 0 <= b < W32
    ensures if sign then -W32 <= 2 * TruncDiv(a, b) < W32 else 0 <= TruncDiv(a, b) < W32
  {
    var n, m := Abs(a), Abs(b);
    SmallQuotient(n, m);
    if m > 1 {
      var q := n / m;
      assert n == m * q + n % m;
      MulMonotone(q, 2, m);
    }
  }

  lemma ResultsCorrect(s: Regs, x: In)
    requires Running(s, x) && Left(s) == 0
    ensures Correct(x, HiRes(s), LoRes(s))
  {
    FinishedDivision(s, Magnitude(x.a, x.sign), Magnitude(x.b, x.sign));
    MagnitudeIsAbs(x.a, x.sign);
    MagnitudeIsAbs(x.b, x.sign);
    SignFixUp(Value(x.a, x.sign), Value(x.b, x.sign), s.t0 / W32 % W32, s.t0 % W32);
  }

  /** The sign fix-up turns the unsigned results into the words the instruction asks for. */
  lemma SignFixUp(a: int, b: int, r: nat, q: nat)
    requires Abs(a) < W32
    requires b != 0 ==> q == Abs(a) / Abs(b) && r == Abs(a) % Abs(b)
    requires b == 0 ==> q == W32 - 1 && r == Abs(a)
    ensures var hi := if a < 0 then Negate(r) else r;
            var lo := if (a < 0) != (b < 0) then Negate(q) else q;
            && (b != 0 ==> lo == TruncDiv(a, b) % W32 && hi == TruncRem(a, b) % W32)
            && (b == 0 ==> hi == a % W32 && lo == if a < 0 then 1 else W32 - 1)
  {
    if b != 0 {
      SignedResults(a, b);
    } else {
      NegateIsMinus(r);
      assert Negate(W32 - 1) == 1;
    }
  }

  /** Negating the words of the unsigned results gives the words of the signed ones. */
  lemma SignedResults(x: int, y: int)
    requires y != 0 && Abs(x) <= W32
    ensures 0 <= Abs(x) / Abs(y) && 0 <= Abs(x) % Abs(y)
    ensures x < 0 ==> Negate(Abs(x) % Abs(y)) == TruncRem(x, y) % W32
    ensures (x < 0) != (y < 0) ==> Negate(Abs(x) / Abs(y)) == TruncDiv(x, y) % W32
    ensures Abs(x) < W32 && x >= 0 ==> Abs(x) % Abs(y) == TruncRem(x, y) % W32
    ensures Abs(x) < W32 && (x < 0) == (y < 0) ==> Abs(x) / Abs(y) == TruncDiv(x, y) % W32
  {
    SmallQuotient(Abs(x), Abs(y));
    NegateIsMinus(Abs(x) / Abs(y));
    NegateIsMinus(Abs(x) % Abs(y));
  }

  lemma SmallQuotient(a: nat, b: nat)
    requires b > 0
    ensures 0 <= a / b <= a && 0 <= a % b <= a
  {
    var q := a / b;
    assert a == b * q + a % b;
    if q > a { MulMonotone(q, 1, b); }
  }

  /** One cycle of a running division, whatever the inputs are. */
  lemma RunningStep(s: Regs, x: In, y: In)
    requires Running(s, x)
    ensures ValidRes(s) <==> Left(s) == 0
    ensures Left(s) > 0 ==> Running(Step(s, y), x) && 2 <= Left(s) - Left(Step(s, y)) <= 16
    ensures Left(s) == 0 ==> s.counter == 0 && Step(s, y) == s.(busy := !y.recv)
  {
    var a, b := Magnitude(x.a, x.sign), Magnitude(x.b, x.sign);
    FinishedDivision(s, a, b);
    if Left(s) > 0 {
      IterateProgress(s, a, b);
      assert forall q: nat, rem: nat, rest: nat ::
          Progress(Iterate(s), a, b, Left(Iterate(s)), q, rem, rest) ==>
          Progress(Step(s, y), a, b, Left(Iterate(s)), q, rem, rest);
    } else {
      FinishedStays(s);
    }
  }

  function Run(s: Regs, xs: seq<In>): Regs
    decreases |xs|
  {
    if xs == [] then s else Run(Step(s, xs[0]), xs[1..])
  }

  /** `n` is the first cycle of the run in which the result is announced. */
  ghost predicate FirstValid(s: Regs, xs: seq<In>, n: nat)
    requires n <= |xs|
  {
    ValidRes(Run(s, xs[..n])) && forall m :: 0 <= m < n ==> !ValidRes(Run(s, xs[..m]))
  }

  lemma RunShift(s: Regs, xs: seq<In>, m: nat)
    requires 1 <= m <= |xs|
    ensures Run(s, xs[..m]) == Run(Step(s, xs[0]), xs[1..][..m - 1])
  {
    assert xs[..m][1..] == xs[1..][..m - 1];
  }

  lemma FirstValidLater(s: Regs, xs: seq<In>, k: nat)
    requires k < |xs| && !ValidRes(s) && FirstValid(Step(s, xs[0]), xs[1..], k)
    ensures FirstValid(s, xs, k + 1)
    ensures Run(s, xs[..k + 1]) == Run(Step(s, xs[0]), xs[1..][..k])
  {
    RunShift(s, xs, k + 1);
    forall m | 0 <= m < k + 1
      ensures !ValidRes(Run(s, xs[..m]))
    {
      NotYetValid(s, xs, k, m);
    }
  }

  lemma NotYetValid(s: Regs, xs: seq<In>, k: nat, m: nat)
    requires m <= k < |xs| && !ValidRes(s) && FirstValid(Step(s, xs[0]), xs[1..], k)
    ensures !ValidRes(Run(s, xs[..m]))
  {
    if m > 0 { RunShift(s, xs, m); }
  }

  /** A running division announces the right result, in time. */
  lemma {:induction false} RunningCompletes(s: Regs, x: In, xs: seq<In>) returns (n: nat)
    requires Running(s, x) && 2 * |xs| >= Left(s)
    ensures n <= |xs| && 2 * n <= Left(s) <= 16 * n
    ensures FirstValid(s, xs, n)
    ensures Correct(x, HiRes(Run(s, xs[..n])), LoRes(Run(s, xs[..n])))
    decreases |xs|
  {
    if Left(s) == 0 {
      n := 0;
      RunningStep(s, x, x);
      ResultsCorrect(s, x);
    } else {
      RunningStep(s, x, xs[0]);
      var k := RunningCompletes(Step(s, xs[0]), x, xs[1..]);
      n := k + 1;
      FirstValidLater(s, xs, k);
    }
  }

  /**
   Every division ends after at least 2 and at most 16 iterations with the truncated quotient and a
   remainder of the dividend's sign, for all operands, signed or not, whatever arrives meanwhile.
   */
  lemma DivisionCorrect(x: In, xs: seq<In>) returns (n: nat)
    requires x.a < W32 && x.b < W32 && |xs| >= 16
    ensures 2 <= n <= 16 && FirstValid(Start(x), xs, n)
    ensures Correct(x, HiRes(Run(Start(x), xs[..n])), LoRes(Run(Start(x), xs[..n])))
  {
    StartProgress(x);
    n := RunningCompletes(Start(x), x, xs);
  }

  // ------------------------------------------------------------------ the clocked module

  class Divider {
    var counter: nat
    var t0: nat
    var t1: nat
    var t2: nat
    var t3: nat
    var negQ: bool
    var negR: bool
    var busy: bool

    function State(): Regs
      reads this
    {
      Regs(counter, t0, t1, t2, t3, negQ, negR, busy)
    }

    constructor ()
      ensures State() == Regs(0, 0, 0, 0, 0, false, false, false)
    {
      counter, t0, t1, t2, t3, negQ, negR, busy := 0, 0, 0, 0, 0, false, false, false;
    }

    /** The iteration branch of the clocked block. */
    method Iterations()
      modifies this`counter, this`t0
      ensures State() == Iterate(old(State()))
    {
      var s := State();
      var t := s;
      if SkipTest(s, 16) {
        t := Skip(s, 16);
      } else if SkipTest(s, 8) {
        t := Skip(s, 8);
      } else if SkipTest(s, 4) {
        t := Skip(s, 4);
      } else if Bit(counter, 0) {
        t := Digit(s);
      }
      counter, t0 := t.counter, t.t0;
    }

    /** One rising edge. */
    method Tick(x: In)
      modifies this
      ensures State() == Step(old(State()), x)
    {
      if x.req && !busy {
        var a, b := Magnitude(x.a, x.sign), Magnitude(x.b, x.sign);
        var d := b * W32;
        counter := 0xffff_ffff;
        negQ := Negative(x.a, x.sign) != Negative(x.b, x.sign);
        negR := Negative(x.a, x.sign);
        t0, t1, t2, t3 := a, d, d * 2 % W67, (d * 2 % W67 + d) % W67;
        busy := true;
      } else {
        var announced := ValidRes(State());
        Iterations();
        if x.recv && announced {
          busy := false;
        }
      }
    }
  }
}
