/**
 The SECDED Hamming encoder of `ecc.cpp`, for every number of data bits. Codeword positions count
 from 1; position `k` is stored at index `k - 1`; the overall parity bit comes last.
 */
module Ecc {
  import opened Bits

  predicate Xor(a: bool, b: bool) {
    a != b
  }

  // ------------------------------------------------------------------ powers of two

  /** Bitwise AND of naturals. */
  function And(x: nat, y: nat): nat {
    if x == 0 || y == 0 then 0
    else 2 * And(x / 2, y / 2) + (if x % 2 == 1 && y % 2 == 1 then 1 else 0)
  }

  /** `ispowerof2`: non-zero, and clearing the lowest set bit leaves nothing. */
  predicate IsPowerOf2(x: nat) {
    x != 0 && And(x, x - 1) == 0
  }

  lemma {:induction false} AndSelf(x: nat)
    ensures And(x, x) == x
  {
    if x > 0 {
      AndSelf(x / 2);
    }
  }

  lemma {:induction false} PowerIsPower(n: nat)
    ensures IsPowerOf2(Pow2(n))
  {
    if n > 0 {
      PowerIsPower(n - 1);
      assert Pow2(n) / 2 == Pow2(n - 1) && (Pow2(n) - 1) / 2 == Pow2(n - 1) - 1;
    } else {
      assert And(1, 0) == 0;
    }
  }

  /** The bit trick recognises exactly the powers of two. */
  lemma {:induction false} IsPowerOf2Exact(x: nat) returns (n: nat)
    requires IsPowerOf2(x)
    ensures x == Pow2(n)
  {
    if x % 2 == 1 {
      assert x - 1 == 2 * (x / 2) && (x - 1) / 2 == x / 2;
      AndSelf(x / 2);
      n := 0;
    } else {
      assert (x - 1) / 2 == x / 2 - 1;
      var m := IsPowerOf2Exact(x / 2);
      n := m + 1;
    }
  }

  lemma {:induction false} Pow2Strict(a: nat, b: nat)
    requires a < b
    ensures Pow2(a) < Pow2(b)
    decreases b
  {
    if a < b - 1 {
      Pow2Strict(a, b - 1);
    }
  }

  /** A power of two has exactly its own bit set. */
  lemma PowerBit(n: nat, i: nat)
    ensures Bit(Pow2(n), i) <==> i == n
  {
    if i <= n {
      Pow2Add(i, n - i);
      QuotientUnique(Pow2(n), Pow2(i), Pow2(n - i), 0);
      if i < n {
        assert Pow2(n - i) == 2 * Pow2(n - i - 1);
      }
    } else {
      Pow2Strict(n, i);
      QuotientUnique(Pow2(n), Pow2(i), 0, Pow2(n));
    }
  }

  /** Two numbers below `2^p` with the same bits are equal. */
  lemma {:induction false} SomeBitDiffers(x: nat, y: nat, p: nat) returns (i: nat)
    requires x != y && x < Pow2(p) && y < Pow2(p)
    ensures i < p && Bit(x, i) != Bit(y, i)
    decreases p
  {
    assert Pow2(0) == 1;
    if x % 2 != y % 2 {
      i := 0;
    } else {
      var j := SomeBitDiffers(x / 2, y / 2, p - 1);
      i := j + 1;
      ShiftedBit(x, j);
      ShiftedBit(y, j);
    }
  }

  lemma ShiftedBit(x: nat, j: nat)
    ensures Bit(x, j + 1) == Bit(x / 2, j)
  {
    HalveFirst(x, Pow2(j));
  }

  // ------------------------------------------------------------------ number of check bits

  /** The least `p >= 2` with `2^p >= p + d + 1`. */
  ghost predicate ParityLength(d: nat, p: nat) {
    && p >= 2 && Pow2(p) >= p + d + 1
    && forall q :: 2 <= q < p ==> Pow2(q) < q + d + 1
  }

  lemma {:induction false} Pow2Exceeds(n: nat)
    ensures Pow2(n) > n
  {
    if n > 0 { Pow2Exceeds(n - 1); }
  }

  method CalcParityLen(d: nat) returns (p: nat)
    ensures ParityLength(d, p)
  {
    p := 2;
    Pow2Room(d);
    while Pow2(p) < p + d + 1
      invariant 2 <= p <= d + 2
      invariant forall q :: 2 <= q < p ==> Pow2(q) < q + d + 1
      decreases d + 2 - p
    {
      p := p + 1;
    }
  }

  /** `d + 2` check bits are always enough. */
  lemma {:induction false} Pow2Room(d: nat)
    ensures Pow2(d + 2) >= d + 2 + d + 1
  {
    if d > 0 {
      Pow2Room(d - 1);
    } else {
      assert Pow2(2) == 4;
    }
  }

  /** Every check position lies inside the codeword, and every position has at most `p` bits. */
  lemma CheckPositionsFit(d: nat, p: nat, i: nat)
    requires ParityLength(d, p) && i < p
    ensures Pow2(i) <= d + p < Pow2(p)
  {
    Pow2Monotone(i, p - 1);
    assert Pow2(2) == 4;
    if p == 2 {
      assert Pow2(1) == 2;
    }
  }

  // ------------------------------------------------------------------ data positions

  /** The number of data positions among `1..n`: the running value of `idx`. */
  function DataCount(n: nat): (c: nat)
    ensures c <= n
  {
    if n == 0 then 0 else DataCount(n - 1) + (if IsPowerOf2(n) then 0 else 1)
  }

  lemma {:induction false} DataCountGrows(m: nat, n: nat)
    requires m <= n
    ensures DataCount(m) <= DataCount(n)
    decreases n
  {
    if m < n { DataCountGrows(m, n - 1); }
  }

  /** Between two powers of two every position is a data position. */
  lemma {:induction false} DataCountBetween(e: nat, n: nat)
    requires Pow2(e) <= n < Pow2(e + 1)
    ensures DataCount(n) == n - (e + 1)
    decreases n
  {
    if n == Pow2(e) {
      PowerIsPower(e);
      if e > 0 {
        Pow2Strict(e - 1, e);
        DataCountBetween(e - 1, n - 1);
      } else {
        assert DataCount(0) == 0;
      }
    } else {
      DataCountBetween(e, n - 1);
      if IsPowerOf2(n) {
        var m := IsPowerOf2Exact(n);
        if m <= e { Pow2Monotone(m, e); } else { Pow2Monotone(e + 1, m); }
      }
    }
  }

  /** The positions `1..d+p` hold exactly `d` data bits: the information bits are all used, none twice. */
  lemma DataPositionsMatch(d: nat, p: nat)
    requires ParityLength(d, p)
    ensures DataCount(d + p) == d
  {
    CheckPositionsFit(d, p, p - 1);
    DataCountBetween(p - 1, d + p);
  }

  // ------------------------------------------------------------------ checks

  /** Parity of the positions `1..n` that have bit `i` set. */
  function Check(cw: seq<bool>, i: nat, n: nat): bool
    requires n <= |cw|
  {
    if n == 0 then false else Xor(Check(cw, i, n - 1), Bit(n, i) && cw[n - 1])
  }

  /** Parity of the first `n` bits. */
  function Parity(cw: seq<bool>, n: nat): bool
    requires n <= |cw|
  {
    if n == 0 then false else Xor(Parity(cw, n - 1), cw[n - 1])
  }

  ghost predicate ChecksEven(cw: seq<bool>, upto: nat, n: nat)
    requires n <= |cw|
  {
    forall i :: 0 <= i < upto ==> !Check(cw, i, n)
  }

  /** A word of `n` positions and the overall parity bit, all of whose `p` checks and parity are even. */
  ghost predicate Balanced(p: nat, n: nat, cw: seq<bool>) {
    1 <= p && n < Pow2(p) && |cw| == n + 1 && ChecksEven(cw, p, n) && !Parity(cw, n + 1)
  }

  /** The information bits stand in order at the positions below `i` that are no power of two. */
  ghost predicate Carries(info: seq<bool>, cw: seq<bool>, i: nat) {
    i <= |cw| + 1 && forall k :: 1 <= k < i ==> CarriesAt(info, cw, k)
  }

  ghost predicate CarriesAt(info: seq<bool>, cw: seq<bool>, k: nat)
    requires 1 <= k <= |cw|
  {
    IsPowerOf2(k) || (DataCount(k - 1) < |info| && cw[k - 1] == info[DataCount(k - 1)])
  }

  /** `cw` is the codeword of the information bits. */
  ghost predicate Encodes(info: seq<bool>, p: nat, cw: seq<bool>) {
    && ParityLength(|info|, p)
    && Balanced(p, |info| + p, cw)
    && Carries(info, cw, |info| + p + 1)
  }

  // ------------------------------------------------------------------ changing one bit

  function Flip(cw: seq<bool>, k: nat): (r: seq<bool>)
    requires k < |cw|
    ensures |r| == |cw|
  {
    cw[k := !cw[k]]
  }

  /** Flipping position `m` changes exactly the checks of the bits of `m`. */
  lemma {:induction false} CheckOfFlip(cw: seq<bool>, m: nat, i: nat, n: nat)
    requires 1 <= m <= |cw| && n <= |cw|
    ensures Check(Flip(cw, m - 1), i, n) == Xor(Check(cw, i, n), m <= n && Bit(m, i))
    decreases n
  {
    if n > 0 {
      CheckOfFlip(cw, m, i, n - 1);
    }
  }

  lemma {:induction false} ParityOfFlip(cw: seq<bool>, k: nat, n: nat)
    requires k < |cw| && n <= |cw|
    ensures Parity(Flip(cw, k), n) == Xor(Parity(cw, n), k < n)
    decreases n
  {
    if n > 0 {
      ParityOfFlip(cw, k, n - 1);
    }
  }

  /** Only the first `n` bits matter. */
  lemma {:induction false} CheckLocal(a: seq<bool>, b: seq<bool>, i: nat, n: nat)
    requires n <= |a| && n <= |b| && a[..n] == b[..n]
    ensures Check(a, i, n) == Check(b, i, n)
    decreases n
  {
    if n > 0 {
      assert a[..n][..n - 1] == b[..n][..n - 1];
      assert a[..n - 1] == a[..n][..n - 1] && b[..n - 1] == b[..n][..n - 1];
      assert a[n - 1] == a[..n][n - 1] && b[n - 1] == b[..n][n - 1];
      CheckLocal(a, b, i, n - 1);
    }
  }

  lemma {:induction false} ParityLocal(a: seq<bool>, b: seq<bool>, n: nat)
    requires n <= |a| && n <= |b| && a[..n] == b[..n]
    ensures Parity(a, n) == Parity(b, n)
    decreases n
  {
    if n > 0 {
      assert a[..n - 1] == a[..n][..n - 1] && b[..n - 1] == b[..n][..n - 1];
      assert a[n - 1] == a[..n][n - 1] && b[n - 1] == b[..n][n - 1];
      ParityLocal(a, b, n - 1);
    }
  }

  // ------------------------------------------------------------------ the encoder

  /** The information bits of a word, least significant first. */
  function WordBits(word: nat, d: nat): (r: seq<bool>)
    ensures |r| == d
  {
    seq(d, i requires 0 <= i < d => Bit(word, i))
  }

  /** The number that bits, least significant first, stand for. */
  function Number(bits: seq<bool>): nat {
    if bits == [] then 0
    else Number(bits[..|bits| - 1]) + (if bits[|bits| - 1] then Pow2(|bits| - 1) else 0)
  }

  /** The information bits are the word, cut to the data width. */
  lemma {:induction false} WordBitsAreWord(word: nat, d: nat)
    ensures Number(WordBits(word, d)) == word % Pow2(d)
    decreases d
  {
    if d > 0 {
      assert WordBits(word, d)[..d - 1] == WordBits(word, d - 1);
      WordBitsAreWord(word, d - 1);
      OneMoreBit(word, Pow2(d - 1));
    }
  }

  lemma OneMoreBit(x: nat, a: nat)
    requires a >= 1
    ensures x % (2 * a) == x % a + (if x / a % 2 == 1 then a else 0)
  {
    var q, r := x / a, x % a;
    var h, b := q / 2, q % 2;
    assert x == a * q + r && q == 2 * h + b;
    assert x == (2 * a) * h + (a * b + r);
    assert a * b == if b == 1 then a else 0;
    QuotientUnique(x, 2 * a, h, a * b + r);
  }

  method ToBin(data: array<bool>, word: nat)
    modifies data
    ensures data[..] == WordBits(word, data.Length)
  {
    for i := 0 to data.Length
      invariant forall j :: 0 <= j < i ==> data[j] == Bit(word, j)
    {
      data[i] := Bit(word, i);
    }
  }

  lemma ParityLengthUnique(d: nat, p: nat, q: nat)
    requires ParityLength(d, p) && ParityLength(d, q)
    ensures p == q
  {}

  /** The test `k & (1 << i)`. */
  lemma {:induction false} AndPower(k: nat, i: nat)
    ensures And(k, Pow2(i)) != 0 <==> Bit(k, i)
    decreases i
  {
    if k == 0 {
      QuotientUnique(0, Pow2(i), 0, 0);
    } else if i == 0 {
      assert Pow2(0) == 1 && And(k / 2, 0) == 0;
    } else {
      assert Pow2(i) / 2 == Pow2(i - 1) && Pow2(i) % 2 == 0;
      AndPower(k / 2, i - 1);
      ShiftedBit(k, i - 1);
    }
  }

  /** The positions below `i` that are powers of two are clear. */
  ghost predicate Clear(cw: seq<bool>, i: nat) {
    i <= |cw| + 1 && forall k :: 1 <= k < i ==> ClearAt(cw, k)
  }

  ghost predicate ClearAt(cw: seq<bool>, k: nat)
    requires 1 <= k <= |cw|
  {
    IsPowerOf2(k) ==> !cw[k - 1]
  }

  lemma PlaceBit(info: seq<bool>, cw: seq<bool>, i: nat, v: bool)
    requires 1 <= i <= |cw| && Carries(info, cw, i) && Clear(cw, i)
    requires if IsPowerOf2(i) then !v else DataCount(i - 1) < |info| && v == info[DataCount(i - 1)]
    ensures Carries(info, cw[i - 1 := v], i + 1) && Clear(cw[i - 1 := v], i + 1)
  {
    var cw' := cw[i - 1 := v];
    forall k | 1 <= k < i + 1
      ensures CarriesAt(info, cw', k) && ClearAt(cw', k)
    {
      if k < i {
        assert CarriesAt(info, cw, k) && ClearAt(cw, k);
      }
    }
  }

  /** The first loop: zeros at the check positions, information bits at the others. */
  method Expand(info: array<bool>, n: nat, codeword: array<bool>)
    requires info != codeword && codeword.Length == n + 1 && DataCount(n) == info.Length
    modifies codeword
    ensures Carries(info[..], codeword[..], n + 1) && Clear(codeword[..], n + 1)
  {
    var idx := 0;
    for i := 1 to n + 1
      invariant idx == DataCount(i - 1)
      invariant Carries(info[..], codeword[..], i) && Clear(codeword[..], i)
    {
      DataCountGrows(i, n);
      ghost var before := codeword[..];
      if IsPowerOf2(i) {
        PlaceBit(info[..], before, i, false);
        codeword[i - 1] := false;
        assert codeword[..] == before[i - 1 := false];
      } else {
        PlaceBit(info[..], before, i, info[idx]);
        codeword[i - 1] := info[idx];
        assert codeword[..] == before[i - 1 := info[idx]];
        idx := idx + 1;
      }
    }
  }

  /** The check bits from number `from` on are still clear. */
  ghost predicate ChecksClear(cw: seq<bool>, p: nat, from: nat) {
    forall j :: from <= j < p && Pow2(j) <= |cw| ==> !cw[Pow2(j) - 1]
  }

  lemma ClearChecks(cw: seq<bool>, n: nat, p: nat)
    requires |cw| == n + 1 && Clear(cw, n + 1) && forall j :: 0 <= j < p ==> Pow2(j) <= n
    ensures ChecksClear(cw, p, 0)
  {
    forall j | 0 <= j < p
      ensures !cw[Pow2(j) - 1]
    {
      PowerIsPower(j);
      assert ClearAt(cw, Pow2(j));
    }
  }

  /** Setting check bit `i` to its own check sum makes that sum even and leaves the others alone. */
  lemma SetCheckBit(cw: seq<bool>, p: nat, n: nat, i: nat)
    requires |cw| == n + 1 && i < p && Pow2(i) <= n
    requires ChecksClear(cw, p, i) && ChecksEven(cw, i, n)
    ensures var cw' := cw[Pow2(i) - 1 := Check(cw, i, n)];
            ChecksClear(cw', p, i + 1) && ChecksEven(cw', i + 1, n)
  {
    var c := Check(cw, i, n);
    var cw' := cw[Pow2(i) - 1 := c];
    forall j | 0 <= j < i + 1
      ensures !Check(cw', j, n)
    {
      PowerBit(i, j);
      if c {
        assert cw' == Flip(cw, Pow2(i) - 1);
        CheckOfFlip(cw, Pow2(i), j, n);
      } else {
        assert cw' == cw;
      }
    }
    forall j | i + 1 <= j < p && Pow2(j) <= n + 1
      ensures !cw'[Pow2(j) - 1]
    {
      Pow2Strict(i, j);
    }
  }

  /** Writing a check bit does not touch the information bits. */
  lemma CheckBitKeepsData(info: seq<bool>, cw: seq<bool>, m: nat, i: nat, v: bool)
    requires Carries(info, cw, m) && Pow2(i) <= |cw|
    ensures Carries(info, cw[Pow2(i) - 1 := v], m)
  {
    PowerIsPower(i);
    var cw' := cw[Pow2(i) - 1 := v];
    forall k | 1 <= k < m
      ensures CarriesAt(info, cw', k)
    {
      assert CarriesAt(info, cw, k);
    }
  }

  /** One check sum, as the inner loop accumulates it. */
  method CheckSum(codeword: array<bool>, i: nat, n: nat) returns (parity: bool)
    requires n <= codeword.Length
    ensures parity == Check(codeword[..], i, n)
  {
    parity := false;
    for k := 1 to n + 1
      invariant parity == Check(codeword[..], i, k - 1)
    {
      AndPower(k, i);
      if And(k, Pow2(i)) != 0 {
        parity := Xor(parity, codeword[k - 1]);
      }
    }
  }

  /**
   `ecc_encode`. The caller provides room for `d + p + 1` bits; the result encodes the `d` low bits
   of the word.
   */
  method EccEncode(word: nat, d: nat, codeword: array<bool>, ghost len: nat)
    requires ParityLength(d, len) && codeword.Length == d + len + 1
    modifies codeword
    ensures Encodes(WordBits(word, d), len, codeword[..])
  {
    var info := new bool[d];
    var p := CalcParityLen(d);
    ParityLengthUnique(d, p, len);
    ToBin(info, word);
    ghost var bits := info[..];
    DataPositionsMatch(d, p);
    Expand(info, d + p, codeword);
    SetCheckBits(bits, p, d + p, codeword);
    SetOverallParity(codeword, d + p, p, bits);
    CheckPositionsFit(d, p, 0);
  }

  /** The second loop: every check bit in turn. */
  method SetCheckBits(ghost info: seq<bool>, p: nat, n: nat, codeword: array<bool>)
    requires n == |info| + p && codeword.Length == n + 1 && ParityLength(|info|, p)
    requires Carries(info, codeword[..], n + 1) && Clear(codeword[..], n + 1)
    modifies codeword
    ensures Carries(info, codeword[..], n + 1) && ChecksEven(codeword[..], p, n)
  {
    forall j | 0 <= j < p
      ensures Pow2(j) <= n
    {
      CheckPositionsFit(|info|, p, j);
    }
    ClearChecks(codeword[..], n, p);
    for i := 0 to p
      invariant Carries(info, codeword[..], n + 1)
      invariant ChecksClear(codeword[..], p, i) && ChecksEven(codeword[..], i, n)
    {
      var parity := CheckSum(codeword, i, n);
      ghost var before := codeword[..];
      SetCheckBit(before, p, n, i);
      CheckBitKeepsData(info, before, n + 1, i, parity);
      codeword[Pow2(i) - 1] := parity;
      assert codeword[..] == before[Pow2(i) - 1 := parity];
    }
  }

  /** The last loop: the overall parity of the positions `1..n`. */
  method SetOverallParity(codeword: array<bool>, n: nat, ghost p: nat, ghost info: seq<bool>)
    requires codeword.Length == n + 1 && ChecksEven(codeword[..], p, n) && Carries(info, codeword[..], n + 1)
    modifies codeword
    ensures ChecksEven(codeword[..], p, n) && Carries(info, codeword[..], n + 1) && !Parity(codeword[..], n + 1)
  {
    ghost var checked := codeword[..];
    codeword[n] := false;
    for i := 0 to n
      invariant codeword[..n] == checked[..n]
      invariant codeword[n] == Parity(checked, i)
    {
      assert codeword[i] == codeword[..n][i] == checked[i];
      codeword[n] := Xor(codeword[n], codeword[i]);
    }
    ghost var cw := codeword[..];
    assert cw[..n] == checked[..n];
    forall i | 0 <= i < p
      ensures !Check(cw, i, n)
    {
      CheckLocal(checked, cw, i, n);
    }
    ParityLocal(checked, cw, n);
    forall k | 1 <= k < n + 1
      ensures CarriesAt(info, cw, k)
    {
      assert CarriesAt(info, checked, k) && cw[k - 1] == cw[..n][k - 1] == checked[k - 1];
    }
  }

  /** Distinct words have distinct information bits, up to the number of data bits. */
  lemma WordBitsDistinct(v: nat, w: nat, d: nat)
    requires v < Pow2(d) && w < Pow2(d) && v != w
    ensures WordBits(v, d) != WordBits(w, d)
  {
    var i := SomeBitDiffers(v, w, d);
    assert WordBits(v, d)[i] != WordBits(w, d)[i];
  }

  // ------------------------------------------------------------------ error detection

  /** The check sums read as a binary number: what a decoder computes from the positions `1..n`. */
  function Syndrome(cw: seq<bool>, p: nat, n: nat): nat
    requires n <= |cw|
  {
    if p == 0 then 0 else Syndrome(cw, p - 1, n) + (if Check(cw, p - 1, n) then Pow2(p - 1) else 0)
  }

  /** If the checks are the bits of `m` then the syndrome is `m`. */
  lemma {:induction false} SyndromeReads(cw: seq<bool>, p: nat, n: nat, m: nat)
    requires n <= |cw|
    requires forall i :: 0 <= i < p ==> (Check(cw, i, n) <==> Bit(m, i))
    ensures Syndrome(cw, p, n) == m % Pow2(p)
    decreases p
  {
    if p > 0 {
      SyndromeReads(cw, p - 1, n, m);
      LowBits(m, p - 1);
    } else {
      assert Pow2(0) == 1;
    }
  }

  lemma LowBits(m: nat, i: nat)
    ensures m % Pow2(i + 1) == m % Pow2(i) + (if Bit(m, i) then Pow2(i) else 0)
  {
    var a := Pow2(i);
    var q: nat, r := Shr(m, i), m % a;
    assert m == a * q + r;
    assert Pow2(i + 1) == 2 * a;
    BlockRemainder(a, q, r, m);
  }

  /** A number in block `q` of size `a`, seen in blocks of twice the size. */
  lemma BlockRemainder(a: nat, q: nat, r: nat, m: nat)
    requires a >= 1 && r < a && m == a * q + r
    ensures m % (2 * a) == if q % 2 == 1 then a + r else r
  {
    var h := q / 2;
    if q % 2 == 1 {
      assert a * q == (2 * a) * h + a by { assert q == 2 * h + 1; }
      QuotientUnique(m, 2 * a, h, a + r);
    } else {
      assert a * q == (2 * a) * h by { assert q == 2 * h; }
      QuotientUnique(m, 2 * a, h, r);
    }
  }

  lemma ZeroHasNoBits(i: nat)
    ensures !Bit(0, i)
  {
    QuotientUnique(0, Pow2(i), 0, 0);
  }

  /** A codeword has syndrome zero and even parity. */
  lemma CleanCodeword(p: nat, n: nat, cw: seq<bool>)
    requires Balanced(p, n, cw)
    ensures Syndrome(cw, p, n) == 0 && !Parity(cw, |cw|)
  {
    forall i: nat | i < p
      ensures Check(cw, i, n) <==> Bit(0, i)
    {
      ZeroHasNoBits(i);
    }
    SyndromeReads(cw, p, n, 0);
    QuotientUnique(0, Pow2(p), 0, 0);
  }

  /** One flipped bit among the positions `1..n`: the syndrome names the position, the parity is odd. */
  lemma SingleErrorLocated(p: nat, n: nat, cw: seq<bool>, m: nat)
    requires Balanced(p, n, cw) && 1 <= m <= n
    ensures var e := Flip(cw, m - 1); Syndrome(e, p, n) == m && Parity(e, |e|)
  {
    var e := Flip(cw, m - 1);
    forall i: nat | i < p
      ensures Check(e, i, n) <==> Bit(m, i)
    {
      CheckOfFlip(cw, m, i, n);
    }
    SyndromeReads(e, p, n, m);
    QuotientUnique(m, Pow2(p), 0, m);
    ParityOfFlip(cw, m - 1, n + 1);
  }

  /** Only the overall parity bit flipped: zero syndrome, odd parity. */
  lemma ParityBitError(p: nat, n: nat, cw: seq<bool>)
    requires Balanced(p, n, cw)
    ensures var e := Flip(cw, n); Syndrome(e, p, n) == 0 && Parity(e, |e|)
  {
    var e := Flip(cw, n);
    forall i: nat | i < p
      ensures Check(e, i, n) <==> Bit(0, i)
    {
      ZeroHasNoBits(i);
      CheckOfFlip(cw, n + 1, i, n);
    }
    SyndromeReads(e, p, n, 0);
    QuotientUnique(0, Pow2(p), 0, 0);
    ParityOfFlip(cw, n, n + 1);
  }

  /** Any two flipped bits: some check fails while the parity is even; so the error is seen, never mislocated. */
  lemma DoubleErrorDetected(p: nat, n: nat, cw: seq<bool>, j: nat, k: nat)
    requires Balanced(p, n, cw) && j < k <= n
    ensures var e := Flip(Flip(cw, j), k); Syndrome(e, p, n) != 0 && !Parity(e, |e|)
  {
    var e1 := Flip(cw, j);
    var e := Flip(e1, k);
    ParityOfFlip(cw, j, n + 1);
    ParityOfFlip(e1, k, n + 1);
    var b := SomeBitDiffers(j + 1, if k == n then 0 else k + 1, p);
    CheckOfFlip(cw, j + 1, b, n);
    CheckOfFlip(e1, k + 1, b, n);
    ZeroHasNoBits(b);
    FailedCheckShows(e, p, n, b);
  }

  lemma {:induction false} FailedCheckShows(cw: seq<bool>, p: nat, n: nat, i: nat)
    requires n <= |cw| && i < p && Check(cw, i, n)
    ensures Syndrome(cw, p, n) > 0
    decreases p
  {
    if i < p - 1 { FailedCheckShows(cw, p - 1, n, i); }
  }

  // ------------------------------------------------------------------ code distance

  /** The number of positions in which the first `n` bits differ. */
  function Distance(a: seq<bool>, b: seq<bool>, n: nat): nat
    requires n <= |a| && n <= |b|
  {
    if n == 0 then 0 else Distance(a, b, n - 1) + (if a[n - 1] != b[n - 1] then 1 else 0)
  }

  /** Equal parities differ in an even number of positions. */
  lemma {:induction false} DistanceParity(a: seq<bool>, b: seq<bool>, n: nat)
    requires n <= |a| && n <= |b|
    ensures Xor(Parity(a, n), Parity(b, n)) <==> Distance(a, b, n) % 2 == 1
  {
    if n > 0 { DistanceParity(a, b, n - 1); }
  }

  lemma {:induction false} DistanceZero(a: seq<bool>, b: seq<bool>, n: nat)
    requires n <= |a| && n <= |b|
    ensures Distance(a, b, n) == 0 <==> a[..n] == b[..n]
  {
    if n > 0 {
      DistanceZero(a, b, n - 1);
      assert a[..n] == a[..n - 1] + [a[n - 1]] && b[..n] == b[..n - 1] + [b[n - 1]];
    }
  }

  /** Undoing one difference brings the words closer by one. */
  lemma {:induction false} LastDifference(a: seq<bool>, b: seq<bool>, n: nat) returns (k: nat)
    requires n <= |a| == |b| && Distance(a, b, n) > 0
    ensures k < n && a[k] != b[k] && Distance(a, b, k) == Distance(a, b, n) - 1
    ensures forall j :: k < j < n ==> a[j] == b[j]
    decreases n
  {
    if a[n - 1] != b[n - 1] {
      k := n - 1;
    } else {
      k := LastDifference(a, b, n - 1);
    }
  }

  /** Words at distance two are two flips apart. */
  lemma TwoFlips(a: seq<bool>, b: seq<bool>) returns (j: nat, k: nat)
    requires |a| == |b| && Distance(a, b, |a|) == 2
    ensures j < k < |a| && b == Flip(Flip(a, j), k)
  {
    k := LastDifference(a, b, |a|);
    j := LastDifference(a, b, k);
    DistanceZero(a, b, j);
    assert forall i :: 0 <= i < j ==> a[i] == a[..j][i] == b[..j][i] == b[i];
    assert b == Flip(Flip(a, j), k);
  }

  /** A data bit that differs shows at its position. */
  lemma {:induction false} PositionOf(c: nat, n: nat) returns (k: nat)
    requires c < DataCount(n)
    ensures 1 <= k <= n && !IsPowerOf2(k) && DataCount(k - 1) == c
    decreases n
  {
    if DataCount(n - 1) > c {
      k := PositionOf(c, n - 1);
    } else {
      k := n;
    }
  }

  lemma DataDifferenceShows(info: seq<bool>, info': seq<bool>, n: nat, cw: seq<bool>, cw': seq<bool>)
    requires |info| == |info'| == DataCount(n) && info != info' && |cw| == |cw'| == n + 1
    requires Carries(info, cw, n + 1) && Carries(info', cw', n + 1)
    ensures Distance(cw, cw', n + 1) > 0
  {
    var c :| 0 <= c < |info| && info[c] != info'[c];
    var k := PositionOf(c, n);
    assert CarriesAt(info, cw, k) && CarriesAt(info', cw', k);
    DistanceZero(cw, cw', n + 1);
    assert cw[..n + 1] == cw && cw'[..n + 1] == cw';
  }

  /** Encodings of different information bits differ in at least four positions. */
  lemma CodeDistance(info: seq<bool>, info': seq<bool>, p: nat, cw: seq<bool>, cw': seq<bool>)
    requires Encodes(info, p, cw) && Encodes(info', p, cw') && |info| == |info'| && info != info'
    ensures Distance(cw, cw', |cw|) >= 4
  {
    var n := |info| + p;
    assert DataCount(n) == |info| by {
      DataPositionsMatch(|info|, p);
    }
    assert Distance(cw, cw', n + 1) > 0 by {
      DataDifferenceShows(info, info', n, cw, cw');
    }
    BalancedWordsApart(p, n, cw, cw');
  }

  /** So do the encodings of different words of any data width. */
  lemma WordDistance(v: nat, w: nat, d: nat, p: nat, cw: seq<bool>, cw': seq<bool>)
    requires v < Pow2(d) && w < Pow2(d) && v != w
    requires Encodes(WordBits(v, d), p, cw) && Encodes(WordBits(w, d), p, cw')
    ensures Distance(cw, cw', |cw|) >= 4
  {
    WordBitsDistinct(v, w, d);
    CodeDistance(WordBits(v, d), WordBits(w, d), p, cw, cw');
  }

  lemma BalancedWordsApart(p: nat, n: nat, cw: seq<bool>, cw': seq<bool>)
    requires Balanced(p, n, cw) && Balanced(p, n, cw') && Distance(cw, cw', n + 1) > 0
    ensures Distance(cw, cw', n + 1) >= 4
  {
    DistanceParity(cw, cw', n + 1);
    if Distance(cw, cw', n + 1) == 2 {
      var i, j := TwoFlips(cw, cw');
      DoubleErrorDetected(p, n, cw, i, j);
      CleanCodeword(p, n, cw');
    }
  }

  /** If only position `q` contributes a difference to check `i`, the check differs as that position does. */
  lemma {:induction false} OneContribution(a: seq<bool>, b: seq<bool>, i: nat, q: nat, n: nat)
    requires n <= |a| == |b| && 1 <= q <= |a|
    requires forall k :: 1 <= k <= n && Bit(k, i) && a[k - 1] != b[k - 1] ==> k == q
    ensures Xor(Check(a, i, n), Check(b, i, n)) <==> q <= n && Bit(q, i) && a[q - 1] != b[q - 1]
    decreases n
  {
    if n > 0 {
      OneContribution(a, b, i, q, n - 1);
    }
  }

  /** Codewords of the same information bits agree at every position. */
  lemma SamePosition(info: seq<bool>, p: nat, n: nat, cw: seq<bool>, cw': seq<bool>, q: nat)
    requires Balanced(p, n, cw) && Balanced(p, n, cw') && 1 <= q <= n
    requires Carries(info, cw, n + 1) && Carries(info, cw', n + 1)
    ensures cw[q - 1] == cw'[q - 1]
  {
    if cw[q - 1] != cw'[q - 1] {
      assert CarriesAt(info, cw, q) && CarriesAt(info, cw', q);
      var i := IsPowerOf2Exact(q);
      forall k | 1 <= k <= n && Bit(k, i) && cw[k - 1] != cw'[k - 1]
        ensures k == q
      {
        assert CarriesAt(info, cw, k) && CarriesAt(info, cw', k);
        var j := IsPowerOf2Exact(k);
        PowerBit(j, i);
      }
      if i >= p { Pow2Monotone(p, i); }
      PowerBit(i, i);
      OneContribution(cw, cw', i, q, n);
    }
  }

  /** The encoding is unique: the method computes the only codeword of its word. */
  lemma EncodingUnique(info: seq<bool>, p: nat, cw: seq<bool>, cw': seq<bool>)
    requires Encodes(info, p, cw) && Encodes(info, p, cw')
    ensures cw == cw'
  {
    var n := |info| + p;
    forall j | 0 <= j < n
      ensures cw[j] == cw'[j]
    {
      SamePosition(info, p, n, cw, cw', j + 1);
    }
    assert cw[..n] == cw'[..n];
    ParityLocal(cw, cw', n);
  }
}
