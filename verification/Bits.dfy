/** Powers of two and bit positions of unbounded naturals, shared by the hardware models. */
module Bits {

  /** One more than the largest 32-bit word. */
  const W32 := 0x1_0000_0000

  function Pow2(n: nat): (r: nat)
    ensures r >= 1
  {
    if n == 0 then 1 else 2 * Pow2(n - 1)
  }

  /** Bit `i` of `x`, counted from the least significant end. */
  predicate Bit(x: nat, i: nat) {
    x / Pow2(i) % 2 == 1
  }

  /** The number of significant bits of `v`. */
  function BitLength(v: nat): (r: nat)
    ensures v < Pow2(r)
    ensures r > 0 ==> Pow2(r - 1) <= v
  {
    if v == 0 then 0 else 1 + BitLength(v / 2)
  }

  /** `$clog2`: the least `l` with `n <= 2^l`. */
  function CeilLog2(n: nat): (l: nat)
    requires n >= 1
    ensures n <= Pow2(l)
    ensures l > 0 ==> Pow2(l - 1) < n
  {
    BitLength(n - 1)
  }

  lemma {:induction false} Pow2Add(a: nat, b: nat)
    ensures Pow2(a + b) == Pow2(a) * Pow2(b)
  {
    if a == 0 {
    } else {
      Pow2Add(a - 1, b);
      assert Pow2(a + b) == 2 * (Pow2(a - 1) * Pow2(b));
      assert Pow2(a) * Pow2(b) == (2 * Pow2(a - 1)) * Pow2(b);
    }
  }

  lemma {:induction false} Pow2Monotone(a: nat, b: nat)
    requires a <= b
    ensures Pow2(a) <= Pow2(b)
    decreases b
  {
    if a < b {
      Pow2Monotone(a, b - 1);
    }
  }

  /** A quotient of a quotient by two is the quotient by the doubled divisor. */
  lemma HalveQuotient(x: nat, a: nat)
    requires a >= 1
    ensures x / (2 * a) == x / a / 2
  {
    var q, r := x / a, x % a;
    assert x == a * q + r;
    var q2, r2 := q / 2, q % 2;
    assert a * q == (2 * a) * q2 + a * r2 by {
      assert q == 2 * q2 + r2;
      assert a * q == a * (2 * q2 + r2);
    }
    assert 0 <= a * r2 + r < 2 * a by {
      if r2 == 0 {} else { assert r2 == 1; }
    }
    QuotientUnique(x, 2 * a, q2, a * r2 + r);
  }

  /** Multiples of `a` are at least `a` apart. */
  lemma {:induction false} MultiplesApart(a: nat, p: nat, q: nat)
    requires p < q
    ensures a * p + a <= a * q
  {
    var d := q - p - 1;
    calc {
      a * q;
      a * (p + 1 + d);
      a * p + a + a * d;
    }
  }

  lemma QuotientUnique(x: nat, a: nat, q: nat, r: nat)
    requires a >= 1 && x == a * q + r && r < a
    ensures x / a == q && x % a == r
  {
    var q', r' := x / a, x % a;
    assert x == a * q' + r';
    if q < q' {
      MultiplesApart(a, q, q');
    } else if q' < q {
      MultiplesApart(a, q', q);
    }
  }

  lemma HalveFirst(x: nat, a: nat)
    requires a >= 1
    ensures x / 2 / a == x / (2 * a)
  {
    var h := x / 2;
    var q, r := h / a, h % a;
    assert h == a * q + r;
    assert (2 * a) * q == 2 * (a * q);
    QuotientUnique(x, 2 * a, q, 2 * r + x % 2);
  }

  /** `x >> n`. */
  function Shr(x: nat, n: nat): (q: nat)
    ensures q <= x && q == x / Pow2(n)
  {
    if n == 0 then x else
    HalveFirst(x, Pow2(n - 1));
    Shr(x / 2, n - 1)
  }

  lemma QuotientOrder(x: nat, y: nat, a: nat)
    requires a >= 1 && x <= y
    ensures x / a <= y / a
  {
    var p, q := x / a, y / a;
    assert x == a * p + x % a && y == a * q + y % a;
    if q < p {
      MultiplesApart(a, q, p);
    }
  }

  /** One more bit splits every aligned window of size `2^h` into its two halves. */
  lemma WindowHalves(j: nat, h: nat)
    requires h >= 1
    ensures j / Pow2(h) == j / Pow2(h - 1) / 2
    ensures Bit(j, h - 1) <==> j / Pow2(h - 1) % 2 == 1
  {
    HalveQuotient(j, Pow2(h - 1));
  }

  /** The start of window `l` at height `h` and of its two halves one level down. */
  lemma WindowStart(h: nat, l: nat)
    requires h >= 1
    ensures 2 * l * Pow2(h - 1) == l * Pow2(h)
    ensures (2 * l + 1) * Pow2(h - 1) == l * Pow2(h) + Pow2(h - 1)
  {
    assert l * Pow2(h) == l * (2 * Pow2(h - 1)) == 2 * l * Pow2(h - 1);
    assert (2 * l + 1) * Pow2(h - 1) == 2 * l * Pow2(h - 1) + Pow2(h - 1);
  }

  lemma WindowOffset(h: nat, l: nat, o: nat)
    requires o < Pow2(h)
    ensures (l * Pow2(h) + o) / Pow2(h) == l
  {
    var a := Pow2(h);
    assert l * a + o == a * l + o;
    QuotientUnique(l * a + o, a, l, o);
  }
}
