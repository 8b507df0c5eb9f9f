/**
 The multiply/divide unit: `MULUnit_new` and `MDU_new` (`MDU_new.v`), the staged unit with HI/LO,
 accumulation and the undo history `MDU2` (`MDU2.v`), and the port selection of `MDU_Controller.sv`.
 */
module Mdu {
  import opened Bits
  import opened DivUnit

  const W64 := 0x1_0000_0000_0000_0000

  const MULT := 0
  const MULTU := 1
  const DIV := 2
  const DIVU := 3
  const MFHI := 4
  const MTHI := 5
  const MFLO := 6
  const MTLO := 7
  const MADD := 8
  const MADDU := 9
  const MSUB := 10
  const MSUBU := 11
  const MUL := 12

  predicate MultiCycle(op: nat) {
    op in {MULT, MULTU, MADD, MADDU, MSUB, MSUBU, MUL, DIV, DIVU}
  }

  predicate Divides(op: nat) {
    op == DIV || op == DIVU
  }

  /** `_in_op`: the accumulating operations reuse the two multiplications. */
  function UnitOp(op: nat): nat {
    if op < 8 then op
    else if op == MSUB || op == MADD || op == MUL then MULT
    else if op == MSUBU || op == MADDU then MULTU
    else 0
  }

  // ------------------------------------------------------------------ registers

  datatype MulRegs = MulRegs(done: bool, hi: nat, lo: nat)

  datatype State = State(
    inValid: bool, inOp: nat, srcA: nat, srcB: nat,
    mul: MulRegs, div: Regs, opS: nat,
    hi: nat, lo: nat, mulRes: nat,
    past: seq<(nat, nat)>,
    recPending: bool, recNum: nat)

  /** What the controller drives into the unit in one cycle. */
  datatype Bus = Bus(start: bool, op: nat, a: nat, b: nat, recover: bool, num: nat)

  datatype Port = Port(valid: bool, op: nat, a: nat, b: nat)

  function ProductWord(sign: bool, a: nat, b: nat): nat {
    Value(a, sign) * Value(b, sign) % W64
  }

  function MulStep(s: MulRegs, req: bool, sign: bool, a: nat, b: nat): MulRegs {
    if req && !s.done then
      MulRegs(true, ProductWord(sign, a, b) / W32, ProductWord(sign, a, b) % W32)
    else
      s.(done := false)
  }

  predicate InReady(s: State) {
    !s.mul.done && !s.div.busy
  }

  predicate OutValid(s: State) {
    s.mul.done || ValidRes(s.div)
  }

  function HiOut(s: State): nat {
    if Divides(s.opS) then HiRes(s.div) else s.mul.hi
  }

  function LoOut(s: State): nat {
    if Divides(s.opS) then LoRes(s.div) else s.mul.lo
  }

  /** Nothing staged, running or finishing. */
  predicate Idle(s: State) {
    InReady(s) && !OutValid(s) && !s.inValid
  }

  predicate Busy(s: State) {
    !Idle(s) || s.recPending
  }

  /** `MDU_Controller`: port 1 wins when it is valid; nothing starts while the unit is busy. */
  function Select(s: State, p0: Port, p1: Port, recover: bool, num: nat): Bus {
    var sel := if p1.valid && !Busy(s) then p1 else p0;
    Bus(!Busy(s) && (p0.valid || p1.valid), sel.op, sel.a, sel.b, recover, num)
  }

  predicate MoveTo(x: Bus, op: nat) {
    x.start && x.op == op
  }

  predicate Recovers(s: State, x: Bus) {
    (x.recover || s.recPending) && Idle(s)
  }

  predicate UpdatesHiLo(s: State, x: Bus) {
    MoveTo(x, MTLO) || MoveTo(x, MTHI) || (OutValid(s) && s.inOp != MUL)
  }

  function Join(hi: nat, lo: nat): nat {
    hi * W32 + lo
  }

  function Restored(s: State, n: nat): (nat, nat)
    requires |s.past| == 3
  {
    if n == 3 then s.past[2] else if n == 2 then s.past[1] else if n == 1 then s.past[0] else (s.hi, s.lo)
  }

  function NextHiLo(s: State, x: Bus): (nat, nat)
    requires |s.past| == 3
  {
    var acc := Join(s.hi, s.lo) + Join(HiOut(s), LoOut(s));
    var dec := Join(s.hi, s.lo) - Join(HiOut(s), LoOut(s));
    if Recovers(s, x) then Restored(s, if s.recPending then s.recNum else x.num)
    else if MoveTo(x, MTLO) then (s.hi, x.a)
    else if MoveTo(x, MTHI) then (x.a, s.lo)
    else if OutValid(s) then
      if s.inOp == MADDU || s.inOp == MADD then (acc % W64 / W32, acc % W32)
      else if s.inOp == MSUB || s.inOp == MSUBU then (dec % W64 / W32, dec % W32)
      else if s.inOp == MUL then (s.hi, s.lo)
      else (HiOut(s), LoOut(s))
    else (s.hi, s.lo)
  }

  function NextPast(s: State, x: Bus): seq<(nat, nat)>
    requires |s.past| == 3
  {
    if Recovers(s, x) then [(0, 0), (0, 0), (0, 0)]
    else if UpdatesHiLo(s, x) then [(s.hi, s.lo), s.past[0], s.past[1]]
    else s.past
  }

  function DivIn(s: State): In {
    In(Divides(UnitOp(s.inOp)) && s.inValid, UnitOp(s.inOp) == DIV, s.srcA, s.srcB, true)
  }

  predicate MulReq(s: State) {
    (UnitOp(s.inOp) == MULT || UnitOp(s.inOp) == MULTU) && s.inValid
  }

  function NextOp(s: State): nat {
    if s.inValid && InReady(s) then UnitOp(s.inOp) else if OutValid(s) then 0 else s.opS
  }

  predicate Stages(s: State, x: Bus) {
    !s.inValid && MultiCycle(x.op) && x.start
  }

  /** The registers of the operand stage: `in_valid`, `in_op`, `srcA`, `srcB`. */
  function NextStage(s: State, x: Bus): (bool, nat, nat, nat) {
    if Stages(s, x) then (true, x.op, x.a, x.b) else (false, s.inOp, s.srcA, s.srcB)
  }

  /** The registers that hold a recovery back: `_recover`, `_recover_num`. */
  function NextRecovery(s: State, x: Bus): (bool, nat) {
    if x.recover && !s.recPending && !Idle(s) then (true, x.num)
    else if s.recPending && Idle(s) then (false, 0)
    else (s.recPending, s.recNum)
  }

  function NextMulRes(s: State, x: Bus): nat {
    if OutValid(s) && !Recovers(s, x) && !MoveTo(x, MTLO) && !MoveTo(x, MTHI) && s.inOp == MUL
    then LoOut(s) else s.mulRes
  }

  function Reset(): State {
    State(false, 0, 0, 0, MulRegs(false, 0, 0), Regs(0, 0, 0, 0, 0, false, false, false), 0,
          0, 0, 0, [(0, 0), (0, 0), (0, 0)], false, 0)
  }

  function Next(s: State, x: Bus): State
    requires |s.past| == 3
  {
    var (valid, op, a, b) := NextStage(s, x);
    var (hi, lo) := NextHiLo(s, x);
    var (pending, num) := NextRecovery(s, x);
    State(
      valid, op, a, b,
      MulStep(s.mul, MulReq(s), UnitOp(s.inOp) == MULT, s.srcA, s.srcB),
      Step(s.div, DivIn(s)),
      NextOp(s),
      hi, lo, NextMulRes(s, x),
      NextPast(s, x),
      pending, num)
  }

  // ------------------------------------------------------------------ meaning of the operations

  /** The 64-bit product of an operation, signed or not, modulo 2^64. */
  function Product(op: nat, a: nat, b: nat): nat {
    ProductWord(op in {MULT, MADD, MSUB, MUL}, a, b)
  }

  datatype Result = Result(hi: nat, lo: nat, mulRes: nat)

  function ResultOf(s: State): Result {
    Result(s.hi, s.lo, s.mulRes)
  }

  /** What a multiplication with the 64-bit product `p` leaves behind. */
  ghost predicate Accumulated(op: nat, p: nat, before: Result, r: Result) {
    && (op == MULT || op == MULTU ==> Join(r.hi, r.lo) == p)
    && (op == MADD || op == MADDU ==> Join(r.hi, r.lo) == (Join(before.hi, before.lo) + p) % W64)
    && (op == MSUB || op == MSUBU ==> Join(r.hi, r.lo) == (Join(before.hi, before.lo) - p) % W64)
    && (op == MUL ==> r.hi == before.hi && r.lo == before.lo && r.mulRes == p % W32)
  }

  /** What a completed operation does to HI, LO and the separate product register. */
  ghost predicate Effect(op: nat, a: nat, b: nat, before: Result, r: Result) {
    && r.hi < W32 && r.lo < W32
    && (op != MUL ==> r.mulRes == before.mulRes)
    && if Divides(op) then Correct(In(true, op == DIV, a, b, true), r.hi, r.lo)
       else Accumulated(op, Product(op, a, b), before, r)
  }

  // ------------------------------------------------------------------ invariant

  ghost predicate Words(s: State) {
    && s.srcA < W32 && s.srcB < W32 && s.hi < W32 && s.lo < W32
    && s.recNum < 4
    && |s.past| == 3 && forall j :: 0 <= j < 3 ==> s.past[j].0 < W32 && s.past[j].1 < W32
  }

  ghost predicate MulHolds(s: State) {
    s.mul.done ==>
      && MultiCycle(s.inOp) && !Divides(s.inOp) && s.opS == UnitOp(s.inOp)
      && s.mul.hi < W32 && s.mul.lo < W32 && Join(s.mul.hi, s.mul.lo) == Product(s.inOp, s.srcA, s.srcB)
  }

  ghost predicate DivHolds(s: State) {
    if s.div.busy then
      Divides(s.inOp) && s.opS == s.inOp && Running(s.div, In(true, s.inOp == DIV, s.srcA, s.srcB, true))
    else
      s.div.counter == 0
  }

  /** At most one operation is staged, multiplied or divided, with its own operands. */
  ghost predicate Inv(s: State) {
    && Words(s)
    && (s.inValid ==> MultiCycle(s.inOp) && !s.mul.done && !s.div.busy)
    && !(s.mul.done && s.div.busy)
    && MulHolds(s)
    && DivHolds(s)
  }

  ghost predicate GoodBus(s: State, x: Bus) {
    x.a < W32 && x.b < W32 && x.num < 4 && (x.start ==> !Busy(s))
  }

  predicate InFlight(s: State) {
    s.inValid || s.mul.done || s.div.busy
  }

  /** A bound on the cycles until the operation in flight has completed. */
  function Latency(s: State): nat {
    if s.inValid then (if Divides(s.inOp) then 18 else 2) else if s.mul.done then 1 else if s.div.busy then 1 + Left(s.div) / 2 else 0
  }

  lemma IdleMeansNothingInFlight(s: State)
    requires Inv(s)
    ensures Idle(s) <==> !InFlight(s)
    ensures OutValid(s) ==> InFlight(s) && !s.inValid
  {}

  lemma ResetInv()
    ensures Inv(Reset()) && !Busy(Reset()) && !InFlight(Reset()) && Reset().hi == 0 && Reset().lo == 0
  {}

  // ------------------------------------------------------------------ one cycle

  lemma WordsKept(s: State, x: Bus)
    requires Inv(s) && GoodBus(s, x)
    ensures Words(Next(s, x))
  {
    HiLoWords(s, x);
    PastWords(s, x);
  }

  lemma HiLoWords(s: State, x: Bus)
    requires Inv(s) && GoodBus(s, x)
    ensures Next(s, x).hi < W32 && Next(s, x).lo < W32
  {
    if OutValid(s) {
      CompletionEffect(s, x);
    }
  }

  lemma PastWords(s: State, x: Bus)
    requires Inv(s)
    ensures forall j :: 0 <= j < 3 ==> NextPast(s, x)[j].0 < W32 && NextPast(s, x)[j].1 < W32
  {}

  /** The two words of a number modulo 2^64. */
  lemma ModuloWords(z: int)
    ensures 0 <= z % W64 / W32 < W32 && 0 <= z % W32 < W32
    ensures Join(z % W64 / W32, z % W32) == z % W64
  {
    var p, q := z / W64, z % W64;
    assert z == W64 * p + q;
    assert z == W32 * (W32 * p + q / W32) + q % W32;
    assert z % W32 == q % W32;
  }

  lemma StartRunning(x: In)
    requires x.a < W32 && x.b < W32
    ensures Running(Start(x), x) && Left(Start(x)) == 32
  {
    StartProgress(x);
  }

  lemma RestingDivider(s: Regs, x: In)
    requires !s.busy && s.counter == 0 && !x.req
    ensures Step(s, x) == s && !ValidRes(s)
  {
    FinishedStays(s);
  }

  lemma MultiplierAnswers(s: MulRegs, sign: bool, a: nat, b: nat)
    requires !s.done
    ensures var t := MulStep(s, true, sign, a, b);
            t.done && t.hi < W32 && t.lo < W32 && Join(t.hi, t.lo) == ProductWord(sign, a, b)
  {
    var p := ProductWord(sign, a, b);
    ModuloWords(p);
    QuotientUnique(p, W64, 0, p);
  }

  /** A staged multiplication: its product is in the multiplier one cycle later. */
  lemma StagedMultiply(s: State, x: Bus)
    requires Inv(s) && GoodBus(s, x) && s.inValid && !Divides(s.inOp)
    ensures var t := Next(s, x);
            && t.mul.done && MulHolds(t) && t.div == s.div && t.opS == UnitOp(s.inOp)
  {
    RestingDivider(s.div, DivIn(s));
    MultiplierAnswers(s.mul, UnitOp(s.inOp) == MULT, s.srcA, s.srcB);
    assert ProductWord(UnitOp(s.inOp) == MULT, s.srcA, s.srcB) == Product(s.inOp, s.srcA, s.srcB);
  }

  lemma StagedDivide(s: State, x: Bus)
    requires Inv(s) && GoodBus(s, x) && s.inValid && Divides(s.inOp)
    ensures var t := Next(s, x);
            && !t.mul.done && DivHolds(t) && t.div.busy && Left(t.div) == 32
  {
    StartRunning(DivIn(s));
  }

  /** A staged operation enters the multiplier or the divider with its own operands. */
  lemma StagedCycle(s: State, x: Bus)
    requires Inv(s) && GoodBus(s, x) && s.inValid
    ensures var t := Next(s, x);
            && MulHolds(t) && DivHolds(t) && !(t.mul.done && t.div.busy) && !t.inValid
            && InFlight(t) && !OutValid(s) && Latency(t) < Latency(s)
            && t.inOp == s.inOp && t.srcA == s.srcA && t.srcB == s.srcB
  {
    if Divides(s.inOp) {
      StagedDivide(s, x);
    } else {
      StagedMultiply(s, x);
    }
  }

  /** A running operation either goes on, closer to its end, or announces its result and retires. */
  lemma RunningCycle(s: State, x: Bus)
    requires Inv(s) && GoodBus(s, x) && (s.mul.done || s.div.busy)
    ensures var t := Next(s, x);
            && MulHolds(t) && DivHolds(t) && !t.mul.done && !t.inValid
            && (OutValid(s) <==> !InFlight(t))
            && (!OutValid(s) ==> Latency(t) < Latency(s))
            && t.inOp == s.inOp && t.srcA == s.srcA && t.srcB == s.srcB
  {
    if s.mul.done {
      RestingDivider(s.div, DivIn(s));
    } else {
      RunningStep(s.div, In(true, s.inOp == DIV, s.srcA, s.srcB, true), DivIn(s));
    }
  }

  lemma DivisionEffect(s: State, x: Bus)
    requires Inv(s) && GoodBus(s, x) && OutValid(s) && s.div.busy
    ensures Effect(s.inOp, s.srcA, s.srcB, ResultOf(s), ResultOf(Next(s, x)))
  {
    var d := In(true, s.inOp == DIV, s.srcA, s.srcB, true);
    RunningStep(s.div, d, d);
    ResultsCorrect(s.div, d);
    var t := Next(s, x);
    assert t.hi == HiRes(s.div) && t.lo == LoRes(s.div);
    assert Correct(d, t.hi, t.lo);
  }

  /** The words a retiring multiplication writes, from those of the multiplier. */
  function WordsWritten(op: nat, mul: MulRegs, before: Result): Result {
    var h: int, p: int := Join(before.hi, before.lo), Join(mul.hi, mul.lo);
    if op == MADD || op == MADDU then Result((h + p) % W64 / W32, (h + p) % W32, before.mulRes)
    else if op == MSUB || op == MSUBU then Result((h - p) % W64 / W32, (h - p) % W32, before.mulRes)
    else if op == MUL then before.(mulRes := mul.lo)
    else Result(mul.hi, mul.lo, before.mulRes)
  }

  lemma MultiplyWrites(s: State, x: Bus)
    requires GoodBus(s, x) && s.mul.done && !Divides(s.opS) && |s.past| == 3
    ensures ResultOf(Next(s, x)) == WordsWritten(s.inOp, s.mul, ResultOf(s))
  {}

  /** The same words, read as an operation on the 64-bit pair. */
  lemma WordsAccumulate(op: nat, mul: MulRegs, before: Result)
    requires !Divides(op) && before.hi < W32 && before.lo < W32 && mul.hi < W32 && mul.lo < W32
    ensures var r := WordsWritten(op, mul, before);
            Accumulated(op, Join(mul.hi, mul.lo), before, r) && r.hi < W32 && r.lo < W32
  {
    var h: int, p: int := Join(before.hi, before.lo), Join(mul.hi, mul.lo);
    if op == MADD || op == MADDU {
      ModuloWords(h + p);
    } else if op == MSUB || op == MSUBU {
      ModuloWords(h - p);
    } else if op == MUL {
      QuotientUnique(Join(mul.hi, mul.lo), W32, mul.hi, mul.lo);
    }
  }

  lemma MultiplyEffect(s: State, x: Bus)
    requires Inv(s) && GoodBus(s, x) && s.mul.done
    ensures Effect(s.inOp, s.srcA, s.srcB, ResultOf(s), ResultOf(Next(s, x)))
  {
    MultiplyWrites(s, x);
    WordsAccumulate(s.inOp, s.mul, ResultOf(s));
  }

  /** What a completion writes is the effect of the operation in flight on its own operands. */
  lemma CompletionEffect(s: State, x: Bus)
    requires Inv(s) && GoodBus(s, x) && OutValid(s)
    ensures Effect(s.inOp, s.srcA, s.srcB, ResultOf(s), ResultOf(Next(s, x)))
  {
    if s.div.busy {
      DivisionEffect(s, x);
    } else {
      MultiplyEffect(s, x);
    }
  }

  /** Every cycle keeps the invariant. */
  lemma NextKeepsInv(s: State, x: Bus)
    requires Inv(s) && GoodBus(s, x)
    ensures Inv(Next(s, x))
  {
    if s.inValid {
      StagedCycle(s, x);
    } else if InFlight(s) {
      RunningCycle(s, x);
    } else {
      RestingDivider(s.div, DivIn(s));
    }
    WordsKept(s, x);
  }

  // ------------------------------------------------------------------ the clocked modules

  class Multiplier {
    var done: bool
    var hi: nat
    var lo: nat

    function State(): MulRegs
      reads this
    {
      MulRegs(done, hi, lo)
    }

    constructor ()
      ensures State() == MulRegs(false, 0, 0)
    {
      done, hi, lo := false, 0, 0;
    }

    /** One rising edge, with `res_recv` tied high. */
    method Tick(req: bool, sign: bool, a: nat, b: nat)
      modifies this
      ensures State() == MulStep(old(State()), req, sign, a, b)
    {
      if req && !done {
        var p := Value(a, sign) * Value(b, sign) % W64;
        hi, lo := p / W32, p % W32;
        done := true;
      } else if done {
        done := false;
      }
    }
  }

  class Unit {
    const mul: Multiplier
    const div: Divider
    const pHi: array<nat>
    const pLo: array<nat>
    var inValid: bool
    var inOp: nat
    var srcA: nat
    var srcB: nat
    var opS: nat
    var hi: nat
    var lo: nat
    var mulRes: nat
    var recPending: bool
    var recNum: nat

    ghost predicate Shape()
      reads this
    {
      pHi.Length == 3 && pLo.Length == 3 && pHi != pLo
    }

    function Current(): State
      requires Shape()
      reads this, mul, div, pHi, pLo
    {
      State(inValid, inOp, srcA, srcB, mul.State(), div.State(), opS, hi, lo, mulRes,
            [(pHi[0], pLo[0]), (pHi[1], pLo[1]), (pHi[2], pLo[2])], recPending, recNum)
    }

    constructor ()
      ensures Shape() && Current() == Reset()
      ensures fresh(mul) && fresh(div) && fresh(pHi) && fresh(pLo)
    {
      mul := new Multiplier();
      div := new Divider();
      pHi := new nat[3](i => 0);
      pLo := new nat[3](i => 0);
      inValid, inOp, srcA, srcB, opS := false, 0, 0, 0, 0;
      hi, lo, mulRes := 0, 0, 0;
      recPending, recNum := false, 0;
    }

    /** The history block: cleared on recovery, shifted on every update of HI or LO. */
    method UpdateHistory(x: Bus, s: State)
      requires Shape() && s.past == Current().past && (s.hi, s.lo) == (hi, lo)
      modifies pHi, pLo
      ensures Current() == old(Current()).(past := NextPast(s, x))
    {
      if Recovers(s, x) {
        for i := 0 to 3
          invariant forall k :: 0 <= k < i ==> pHi[k] == 0 && pLo[k] == 0
        {
          pHi[i], pLo[i] := 0, 0;
        }
      } else if UpdatesHiLo(s, x) {
        var j := 2;
        while j > 0
          invariant 0 <= j <= 2
          invariant forall k :: 0 <= k <= j ==> pHi[k] == old(pHi[k]) && pLo[k] == old(pLo[k])
          invariant forall k :: j < k < 3 ==> pHi[k] == old(pHi[k - 1]) && pLo[k] == old(pLo[k - 1])
        {
          pHi[j], pLo[j] := pHi[j - 1], pLo[j - 1];
          j := j - 1;
        }
        pHi[0], pLo[0] := hi, lo;
      }
    }

    /** The HI/LO block, in its order of priority: the values of the next cycle. */
    method HiLoBlock(x: Bus) returns (h: nat, l: nat, m: nat)
      requires Shape()
      ensures (h, l) == NextHiLo(Current(), x)
      ensures m == NextMulRes(Current(), x)
    {
      var s := Current();
      h, l, m := hi, lo, mulRes;
      if Recovers(s, x) {
        var n := if recPending then recNum else x.num;
        if n == 3 {
          h, l := pHi[2], pLo[2];
        } else if n == 2 {
          h, l := pHi[1], pLo[1];
        } else if n == 1 {
          h, l := pHi[0], pLo[0];
        }
      } else if MoveTo(x, MTLO) {
        l := x.a;
      } else if MoveTo(x, MTHI) {
        h := x.a;
      } else if OutValid(s) {
        var r := Join(HiOut(s), LoOut(s));
        if inOp == MADDU || inOp == MADD {
          h, l := (Join(hi, lo) + r) % W64 / W32, (Join(hi, lo) + r) % W32;
        } else if inOp == MSUB || inOp == MSUBU {
          h, l := (Join(hi, lo) - r) % W64 / W32, (Join(hi, lo) - r) % W32;
        } else if inOp == MUL {
          m := LoOut(s);
        } else {
          h, l := HiOut(s), LoOut(s);
        }
      }
    }

    /** The registers that hold a recovery back until the unit is idle; `s` is the state before the edge. */
    method UpdateRecovery(x: Bus, s: State)
      requires (recPending, recNum) == (s.recPending, s.recNum)
      modifies this`recPending, this`recNum
      ensures (recPending, recNum) == NextRecovery(s, x)
    {
      if x.recover && !recPending && !Idle(s) {
        recPending, recNum := true, x.num;
      } else if recPending && Idle(s) {
        recPending, recNum := false, 0;
      }
    }

    /** The operand stage. */
    method UpdateStage(x: Bus, s: State)
      requires (inValid, inOp, srcA, srcB) == (s.inValid, s.inOp, s.srcA, s.srcB)
      modifies this`inValid, this`inOp, this`srcA, this`srcB
      ensures (inValid, inOp, srcA, srcB) == NextStage(s, x)
    {
      if inValid {
        inValid := false;
      } else if MultiCycle(x.op) && x.start {
        inValid, inOp, srcA, srcB := true, x.op, x.a, x.b;
      }
    }

    /** The operation register of the unit below the stage. */
    method UpdateOp(s: State)
      requires opS == s.opS
      modifies this`opS
      ensures opS == NextOp(s)
    {
      if s.inValid && InReady(s) {
        opS := UnitOp(s.inOp);
      } else if OutValid(s) {
        opS := 0;
      }
    }

    /** The stage, recovery and operation registers. */
    method UpdateControl(x: Bus, s: State)
      requires (inValid, inOp, srcA, srcB) == (s.inValid, s.inOp, s.srcA, s.srcB) && opS == s.opS
      requires (recPending, recNum) == (s.recPending, s.recNum)
      modifies this`recPending, this`recNum, this`inValid, this`inOp, this`srcA, this`srcB, this`opS
      ensures (inValid, inOp, srcA, srcB) == NextStage(s, x) && opS == NextOp(s)
      ensures (recPending, recNum) == NextRecovery(s, x)
    {
      UpdateRecovery(x, s);
      UpdateStage(x, s);
      UpdateOp(s);
    }

    /** All registers of this module; the two arithmetic units are clocked by `Tick`. */
    method UpdateRegisters(x: Bus)
      requires Shape()
      modifies this, pHi, pLo
      ensures Shape()
      ensures var t := Next(old(Current()), x);
              Current() == t.(mul := old(Current()).mul, div := old(Current()).div)
    {
      var s := Current();
      var h, l, m := HiLoBlock(x);
      UpdateHistory(x, s);
      UpdateControl(x, s);
      hi, lo, mulRes := h, l, m;
    }

    /** One rising edge of the unit; every block reads the registers as they were before it. */
    method Tick(x: Bus)
      requires Shape()
      modifies this, mul, div, pHi, pLo
      ensures Shape() && Current() == Next(old(Current()), x)
    {
      var s := Current();
      UpdateRegisters(x);
      mul.Tick(MulReq(s), UnitOp(s.inOp) == MULT, s.srcA, s.srcB);
      div.Tick(DivIn(s));
    }
  }
}
