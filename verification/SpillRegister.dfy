/**
 The two-register elastic buffer of `spill_register.sv`, proved to be a two-entry queue that
 accepts whenever it has room; with `bypass` it is a wire.
 */
module SpillRegister {

  // ------------------------------------------------------------------ the elastic buffer

  predicate Ready<T>(bypass: bool, q: seq<T>, down: bool) {
    if bypass then down else |q| < 2
  }

  predicate ValidOut<T>(bypass: bool, q: seq<T>, valid: bool) {
    if bypass then valid else |q| > 0
  }

  function DataOut<T>(bypass: bool, q: seq<T>, x: T): T {
    if bypass || q == [] then x else q[0]
  }

  /** The stored elements after one cycle, oldest first. */
  function Next<T>(bypass: bool, q: seq<T>, valid: bool, x: T, down: bool): seq<T> {
    if bypass then q else
    (if down && |q| > 0 then q[1..] else q) + (if valid && Ready(bypass, q, down) then [x] else [])
  }

  /** What leaves in a cycle: the front of what is stored together with what arrives. */
  function Sent<T>(bypass: bool, q: seq<T>, valid: bool, x: T, down: bool): seq<T> {
    if ValidOut(bypass, q, valid) && down then [DataOut(bypass, q, x)] else []
  }

  function Taken<T>(bypass: bool, q: seq<T>, valid: bool, x: T, down: bool): seq<T> {
    if valid && Ready(bypass, q, down) then [x] else []
  }

  /** Nothing is lost, duplicated or reordered in any cycle. */
  lemma Conserves<T>(bypass: bool, q: seq<T>, valid: bool, x: T, down: bool)
    requires bypass ==> q == []
    ensures Sent(bypass, q, valid, x, down) + Next(bypass, q, valid, x, down)
            == q + Taken(bypass, q, valid, x, down)
  {
    if !bypass && down && |q| > 0 {
      assert q == [q[0]] + q[1..];
    }
  }

  /** The same over a whole history: what was sent, followed by what is stored, is what was taken. */
  lemma StreamConserved<T>(bypass: bool, q: seq<T>, valid: bool, x: T, down: bool, sent: seq<T>, taken: seq<T>)
    requires bypass ==> q == []
    requires sent + q == taken
    ensures (sent + Sent(bypass, q, valid, x, down)) + Next(bypass, q, valid, x, down)
            == taken + Taken(bypass, q, valid, x, down)
  {
    Conserves(bypass, q, valid, x, down);
    Regroup(sent, Sent(bypass, q, valid, x, down), Next(bypass, q, valid, x, down),
            q, Taken(bypass, q, valid, x, down));
  }

  lemma Regroup<T>(s: seq<T>, a: seq<T>, b: seq<T>, q: seq<T>, t: seq<T>)
    requires a + b == q + t
    ensures (s + a) + b == (s + q) + t
  {
    assert (s + a) + b == s + (a + b);
    assert (s + q) + t == s + (q + t);
  }

  /** An offered element stays offered until it is accepted, given the input side does so too. */
  lemma Stable<T>(bypass: bool, q: seq<T>, valid: bool, x: T, valid': bool, x': T)
    requires bypass ==> q == []
    requires bypass ==> valid' && x' == x
    requires ValidOut(bypass, q, valid)
    ensures var q' := Next(bypass, q, valid, x, false);
            ValidOut(bypass, q', valid') && DataOut(bypass, q', x') == DataOut(bypass, q, x)
  {}

  /** A stream that never pauses into an output that never stalls: what was sent, and what is stored. */
  datatype Flow<T> = Flow(sent: seq<T>, stored: seq<T>)

  function Pass<T>(f: Flow<T>, x: T): Flow<T> {
    Flow(f.sent + Sent(false, f.stored, true, x, true), Next(false, f.stored, true, x, true))
  }

  function Streamed<T>(xs: seq<T>): Flow<T> {
    if xs == [] then Flow([], []) else Pass(Streamed(xs[..|xs| - 1]), xs[|xs| - 1])
  }

  /** The register keeps up: it passes one element per cycle, one cycle late. */
  lemma {:induction false} FullThroughput<T>(xs: seq<T>, x: T)
    ensures Streamed(xs + [x]) == Flow(xs, [x])
    decreases |xs|
  {
    StreamedLast(xs, x);
    if xs != [] {
      var n := |xs| - 1;
      assert xs == xs[..n] + [xs[n]];
      FullThroughput(xs[..n], xs[n]);
      PassOne(xs[..n], xs[n], x);
    }
  }

  lemma StreamedLast<T>(xs: seq<T>, x: T)
    ensures Streamed(xs + [x]) == Pass(Streamed(xs), x)
  {
    assert (xs + [x])[..|xs|] == xs;
  }

  lemma PassOne<T>(sent: seq<T>, y: T, x: T)
    ensures Pass(Flow(sent, [y]), x) == Flow(sent + [y], [x])
  {}

  /** Under a stall it takes elements until it holds two, and no third, and releases none. */
  lemma Stalled<T>(q: seq<T>, x: T)
    requires |q| <= 2
    ensures Sent(false, q, true, x, false) == []
    ensures Taken(false, q, true, x, false) == if |q| == 2 then [] else [x]
    ensures Next(false, q, true, x, false) == if |q| == 2 then q else q + [x]
  {}

  // ------------------------------------------------------------------ the clocked module

  class SpillRegister<T(0)> {
    const bypass: bool
    var aData: T
    var aFull: bool
    var bData: T
    var bFull: bool

    ghost predicate Valid()
      reads this
    {
      bypass ==> !aFull && !bFull
    }

    /** Register B is emptied before register A. */
    function Contents(): (q: seq<T>)
      reads this
      ensures |q| <= 2
    {
      (if bFull then [bData] else []) + (if aFull then [aData] else [])
    }

    constructor (bypass: bool)
      ensures this.bypass == bypass && Valid() && Contents() == []
    {
      this.bypass := bypass;
      aFull, bFull := false, false;
      aData, bData := *, *;
    }

    function ReadyOut(down: bool): (b: bool)
      reads this
      ensures b <==> Ready(bypass, Contents(), down)
    {
      if bypass then down else !aFull || !bFull
    }

    function ValidO(valid: bool): (b: bool)
      reads this
      ensures b <==> ValidOut(bypass, Contents(), valid)
    {
      if bypass then valid else aFull || bFull
    }

    function DataO(valid: bool, x: T): (y: T)
      reads this
      ensures ValidO(valid) ==> y == DataOut(bypass, Contents(), x)
    {
      if bypass then x else if bFull then bData else aData
    }

    /** One rising edge. */
    method Tick(valid: bool, x: T, down: bool)
      requires Valid()
      modifies this
      ensures Valid()
      ensures Contents() == Next(bypass, old(Contents()), valid, x, down)
    {
      if bypass {
        return;
      }
      var aFill := valid && ReadyOut(down);
      var aDrain := aFull && !bFull;
      var bFill := aDrain && !down;
      var bDrain := bFull && down;
      if bFill {
        bData := aData;
      }
      if bFill || bDrain {
        bFull := bFill;
      }
      if aFill {
        aData := x;
      }
      if aFill || aDrain {
        aFull := aFill;
      }
    }
  }
}
