/**
 The handshake between the execution unit (`FU.sv`) and the multiply/divide unit: the three-state
 register `mdu_complete` makes an instruction that is held by downstream stalls start its operation
 exactly once, and lets a MUL leave only with its own product.
 */
module FuHandshake {
  import opened Bits
  import opened Mdu
  import opened DivUnit
  import opened MduRuns

  /** `mdu_complete`: nothing started, a MUL waiting for its product, or done but held. */
  datatype Phase = Fresh | Waiting | Done

  /** The instruction in the execution stage, as far as this handshake looks at it. */
  datatype Instr = Instr(mduEn: bool, op: nat, execValid: bool)

  predicate IsMul(i: Instr) {
    i.mduEn && i.op == MUL
  }

  predicate ReadsHiLo(i: Instr) {
    i.mduEn && (i.op == MFHI || i.op == MFLO)
  }

  predicate Starts(ph: Phase, i: Instr) {
    i.mduEn && i.execValid && (ph == Fresh || ReadsHiLo(i))
  }

  predicate Stalls(ph: Phase, i: Instr, recv: bool) {
    if !i.mduEn || !i.execValid then false
    else if !IsMul(i) then !recv && ph != Done
    else !((ph == Waiting && recv) || ph == Done)
  }

  function NextPhase(ph: Phase, i: Instr, recv: bool, stallTop: bool): Phase {
    match ph
    case Fresh =>
      if Starts(ph, i) && recv then
        (if IsMul(i) then Waiting else if stallTop then Done else Fresh)
      else Fresh
    case Waiting =>
      if recv then (if stallTop then Done else Fresh) else Waiting
    case Done =>
      if stallTop then Done else Fresh
  }

  /** The clocked part of the unit. */
  class Fu {
    var complete: Phase

    constructor ()
      ensures complete == Fresh
    {
      complete := Fresh;
    }

    /** One rising edge. */
    method Tick(i: Instr, recv: bool, stallTop: bool, reset: bool)
      modifies this
      ensures complete == if reset then Fresh else NextPhase(old(complete), i, recv, stallTop)
    {
      if reset {
        complete := Fresh;
      } else {
        match complete {
          case Fresh =>
            if Starts(complete, i) && recv && stallTop {
              complete := if !IsMul(i) then Done else Waiting;
            } else if Starts(complete, i) && recv && !stallTop {
              complete := if !IsMul(i) then Fresh else Waiting;
            }
          case Waiting =>
            if recv && stallTop {
              complete := Done;
            } else if recv && !stallTop {
              complete := Fresh;
            }
          case Done =>
            if !stallTop {
              complete := Fresh;
            }
        }
      }
    }
  }

  // ------------------------------------------------------------------ unit and execution stage together

  /** The way (0 or 1) the instruction sits in, and the operation code the idle other way shows. */
  datatype Seat = Seat(way1: bool, otherOp: nat)

  /** One cycle of surroundings: the forwarded operands, the downstream stall, and a HI/LO recovery. */
  datatype Env = Env(a: nat, b: nat, stallTop: bool, recover: bool, num: nat)

  datatype System = System(ph: Phase, mdu: State)

  predicate Recv(y: System) {
    !Busy(y.mdu)
  }

  function DriveOf(y: System, i: Instr, seat: Seat, e: Env): Drive {
    var mine, other := Port(Starts(y.ph, i), i.op, e.a, e.b), Port(false, seat.otherOp, 0, 0);
    if seat.way1 then Drive(other, mine, e.recover, e.num) else Drive(mine, other, e.recover, e.num)
  }

  function Cycle(y: System, i: Instr, seat: Seat, e: Env): System
    requires |y.mdu.past| == 3
  {
    System(NextPhase(y.ph, i, Recv(y), e.stallTop), MduRuns.Cycle(y.mdu, DriveOf(y, i, seat, e)))
  }

  /** Does the instruction hand an operation to the unit in this cycle? */
  predicate HandsOver(y: System, i: Instr) {
    Starts(y.ph, i) && Recv(y)
  }

  /** Does the instruction leave the execution stage at the end of this cycle? */
  predicate Leaves(y: System, i: Instr, e: Env) {
    !Stalls(y.ph, i, Recv(y)) && !e.stallTop
  }

  /** `result` of the controller: the operation code seen is that of the selected port. */
  function ResultWord(y: System, i: Instr, seat: Seat, e: Env): nat {
    var op := BusOf(y.mdu, DriveOf(y, i, seat, e)).op;
    if op == MFHI then y.mdu.hi else if op == MFLO then y.mdu.lo else y.mdu.mulRes
  }

  // ------------------------------------------------------------------ the held instruction

  /** The instruction stays in the stage through all of these cycles. */
  predicate Held(y: System, i: Instr, seat: Seat, es: seq<Env>)
    requires |y.mdu.past| == 3
    decreases |es|
  {
    es == [] || (!Leaves(y, i, es[0]) && Held(Cycle(y, i, seat, es[0]), i, seat, es[1..]))
  }

  function Run(y: System, i: Instr, seat: Seat, es: seq<Env>): (z: System)
    requires |y.mdu.past| == 3
    ensures |z.mdu.past| == 3
    decreases |es|
  {
    if es == [] then y else Run(Cycle(y, i, seat, es[0]), i, seat, es[1..])
  }

  /** The operands handed over during the cycles, in order. */
  function Handovers(y: System, i: Instr, seat: Seat, es: seq<Env>): seq<(nat, nat)>
    requires |y.mdu.past| == 3
    decreases |es|
  {
    if es == [] then []
    else
      (if HandsOver(y, i) then [(es[0].a, es[0].b)] else [])
      + Handovers(Cycle(y, i, seat, es[0]), i, seat, es[1..])
  }

  predicate Ranged(e: Env) {
    e.a < W32 && e.b < W32 && e.num < 4
  }

  predicate AllRanged(es: seq<Env>) {
    forall k :: 0 <= k < |es| ==> Ranged(es[k])
  }

  function LowProduct(a: nat, b: nat): nat {
    Product(MUL, a, b) % W32
  }

  /** A MUL's operands are in the unit, or its product is in the product register. */
  ghost predicate MulUnderway(s: State, a: nat, b: nat) {
    if InFlight(s) then (s.inOp, s.srcA, s.srcB) == (MUL, a, b) else s.mulRes == LowProduct(a, b)
  }

  /** What the phase of a held MUL says about its handover `h` (at most one). */
  ghost predicate MulState(y: System, h: seq<(nat, nat)>) {
    && Inv(y.mdu)
    && |h| == (if y.ph == Fresh then 0 else 1)
    && (y.ph != Fresh ==> MulUnderway(y.mdu, h[0].0, h[0].1))
    && (y.ph == Done ==> !InFlight(y.mdu))
  }

  lemma NothingStarts(s: State, d: Drive)
    requires Inv(s) && Sane(d) && !InFlight(s) && !d.p0.valid && !d.p1.valid
    ensures !InFlight(MduRuns.Cycle(s, d)) && MduRuns.Cycle(s, d).mulRes == s.mulRes
  {
    IdleMeansNothingInFlight(s);
    RestingDivider(s.div, DivIn(s));
  }

  /** One cycle of a MUL that does not leave. */
  lemma MulCycle(y: System, i: Instr, seat: Seat, e: Env, h: seq<(nat, nat)>)
    requires IsMul(i) && i.execValid && MulState(y, h) && Ranged(e)
    requires !Leaves(y, i, e)
    ensures MulState(Cycle(y, i, seat, e), if HandsOver(y, i) then h + [(e.a, e.b)] else h)
  {
    var d := DriveOf(y, i, seat, e);
    CycleKeepsInv(y.mdu, d);
    IdleMeansNothingInFlight(y.mdu);
    if y.ph == Fresh {
      if Recv(y) {
        AcceptedStart(y.mdu, d);
      }
    } else if InFlight(y.mdu) {
      FlightCycle(y.mdu, [], d);
    } else {
      NothingStarts(y.mdu, d);
    }
  }

  lemma {:induction false} MulHeld(y: System, i: Instr, seat: Seat, es: seq<Env>, h: seq<(nat, nat)>)
    requires IsMul(i) && i.execValid && MulState(y, h) && AllRanged(es) && Held(y, i, seat, es)
    ensures MulState(Run(y, i, seat, es), h + Handovers(y, i, seat, es))
    decreases |es|
  {
    if es != [] {
      MulCycle(y, i, seat, es[0], h);
      var h' := if HandsOver(y, i) then h + [(es[0].a, es[0].b)] else h;
      MulHeld(Cycle(y, i, seat, es[0]), i, seat, es[1..], h');
      assert h + Handovers(y, i, seat, es) == h' + Handovers(Cycle(y, i, seat, es[0]), i, seat, es[1..]);
    } else {
      assert h + Handovers(y, i, seat, es) == h;
    }
  }

  /**
   A MUL, however long it is held and whatever is forwarded or recovered meanwhile, has handed over
   exactly one operation when it leaves, and the product register then holds the low word of that very
   product. The result port shows it too, except to way 1 when way 0 shows the operation code of a
   HI/LO read: the port follows the code of way 0 as soon as nothing starts.
   */
  lemma MulLeavesWithItsProduct(y: System, i: Instr, seat: Seat, es: seq<Env>, last: Env)
    requires i.mduEn && i.op == MUL && i.execValid && y.ph == Fresh && Inv(y.mdu)
    requires AllRanged(es) && Held(y, i, seat, es) && Ranged(last)
    requires Leaves(Run(y, i, seat, es), i, last)
    ensures var z, h := Run(y, i, seat, es), Handovers(y, i, seat, es + [last]);
            && |h| == 1 && z.mdu.mulRes == LowProduct(h[0].0, h[0].1)
            && ResultWord(z, i, seat, last) ==
               (if seat.way1 && seat.otherOp == MFHI then z.mdu.hi
                else if seat.way1 && seat.otherOp == MFLO then z.mdu.lo
                else LowProduct(h[0].0, h[0].1))
            && Cycle(z, i, seat, last).ph == Fresh
  {
    var z := Run(y, i, seat, es);
    assert MulState(y, []);
    MulHeld(y, i, seat, es, []);
    assert [] + Handovers(y, i, seat, es) == Handovers(y, i, seat, es);
    IdleMeansNothingInFlight(z.mdu);
    LastHandover(y, i, seat, es, last);
  }

  /**
   The decoder gives only multiply/divide instructions such a code, and two of them never issue as a
   pair; so in either way the result port shows the product.
   */
  lemma MulResultShown(y: System, i: Instr, seat: Seat, es: seq<Env>, last: Env)
    requires i.mduEn && i.op == MUL && i.execValid && y.ph == Fresh && Inv(y.mdu)
    requires AllRanged(es) && Held(y, i, seat, es) && Ranged(last)
    requires Leaves(Run(y, i, seat, es), i, last)
    requires !seat.way1 || (seat.otherOp != MFHI && seat.otherOp != MFLO)
    ensures var h := Handovers(y, i, seat, es + [last]);
            |h| == 1 && ResultWord(Run(y, i, seat, es), i, seat, last) == LowProduct(h[0].0, h[0].1)
  {
    MulLeavesWithItsProduct(y, i, seat, es, last);
  }

  lemma {:induction false} LastHandover(y: System, i: Instr, seat: Seat, es: seq<Env>, last: Env)
    requires |y.mdu.past| == 3
    ensures Handovers(y, i, seat, es + [last]) ==
            Handovers(y, i, seat, es) +
            (if HandsOver(Run(y, i, seat, es), i) then [(last.a, last.b)] else [])
    decreases |es|
  {
    if es == [] {
      assert es + [last] == [last];
    } else {
      var t := Cycle(y, i, seat, es[0]);
      FirstHandover(y, i, seat, es, last);
      LastHandover(t, i, seat, es[1..], last);
    }
  }

  lemma FirstHandover(y: System, i: Instr, seat: Seat, es: seq<Env>, last: Env)
    requires |y.mdu.past| == 3 && es != []
    ensures Handovers(y, i, seat, es + [last]) ==
            (if HandsOver(y, i) then [(es[0].a, es[0].b)] else [])
            + Handovers(Cycle(y, i, seat, es[0]), i, seat, es[1..] + [last])
  {
    assert (es + [last])[1..] == es[1..] + [last];
  }

  /** A held HI/LO writer has handed over nothing while fresh and once when done. */
  lemma {:induction false} WriterHeld(y: System, i: Instr, seat: Seat, es: seq<Env>)
    requires i.mduEn && i.execValid && !IsMul(i) && !ReadsHiLo(i) && y.ph != Waiting && |y.mdu.past| == 3
    requires Held(y, i, seat, es)
    ensures var z := Run(y, i, seat, es);
            && z.ph != Waiting
            && |Handovers(y, i, seat, es)| == (if z.ph == Done && y.ph == Fresh then 1 else 0)
            && (y.ph == Done ==> z.ph == Done)
    decreases |es|
  {
    if es != [] {
      WriterHeld(Cycle(y, i, seat, es[0]), i, seat, es[1..]);
    }
  }

  /** Every other instruction that uses the unit to write HI or LO also starts exactly once. */
  lemma WriterStartsOnce(y: System, i: Instr, seat: Seat, es: seq<Env>, last: Env)
    requires i.mduEn && i.execValid && i.op != MUL && i.op != MFHI && i.op != MFLO && y.ph == Fresh && |y.mdu.past| == 3
    requires Held(y, i, seat, es) && Leaves(Run(y, i, seat, es), i, last)
    ensures |Handovers(y, i, seat, es + [last])| == 1
    ensures Cycle(Run(y, i, seat, es), i, seat, last).ph == Fresh
  {
    WriterHeld(y, i, seat, es);
    LastHandover(y, i, seat, es, last);
  }

  // ------------------------------------------------------------------ reads of HI and LO

  /** A held read is never taken for a MUL, and once done finds the unit free. */
  lemma {:induction false} ReadHeld(y: System, i: Instr, seat: Seat, es: seq<Env>)
    requires ReadsHiLo(i) && i.execValid && Inv(y.mdu) && AllRanged(es) && Held(y, i, seat, es)
    requires y.ph != Waiting && (y.ph == Done ==> !Busy(y.mdu))
    ensures var z := Run(y, i, seat, es);
            Inv(z.mdu) && z.ph != Waiting && (z.ph == Done ==> !Busy(z.mdu))
    decreases |es|
  {
    if es != [] {
      ReadCycle(y, i, seat, es[0]);
      ReadHeld(Cycle(y, i, seat, es[0]), i, seat, es[1..]);
    }
  }

  lemma ReadCycle(y: System, i: Instr, seat: Seat, e: Env)
    requires ReadsHiLo(i) && i.execValid && Inv(y.mdu) && Ranged(e)
    requires y.ph != Waiting && (y.ph == Done ==> !Busy(y.mdu))
    ensures var z := Cycle(y, i, seat, e);
            Inv(z.mdu) && z.ph != Waiting && (z.ph == Done ==> !Busy(z.mdu))
  {
    CycleKeepsInv(y.mdu, DriveOf(y, i, seat, e));
    if Recv(y) {
      AcceptedStart(y.mdu, DriveOf(y, i, seat, e));
      IdleMeansNothingInFlight(Cycle(y, i, seat, e).mdu);
      IdleMeansNothingInFlight(y.mdu);
    }
  }

  /**
   MFHI and MFLO wait for the operation in flight and for a pending recovery: when such a read leaves,
   in either way, neither is left, and the result port shows the register that was asked for.
   */
  lemma ReadSeesSettledValue(y: System, i: Instr, seat: Seat, es: seq<Env>, last: Env)
    requires i.mduEn && (i.op == MFHI || i.op == MFLO) && i.execValid && y.ph == Fresh && Inv(y.mdu)
    requires AllRanged(es) && Held(y, i, seat, es) && Ranged(last) && Leaves(Run(y, i, seat, es), i, last)
    ensures var z := Run(y, i, seat, es);
            && !InFlight(z.mdu) && !z.mdu.recPending
            && ResultWord(z, i, seat, last) == (if i.op == MFHI then z.mdu.hi else z.mdu.lo)
  {
    ReadHeld(y, i, seat, es);
    BusyExactly(Run(y, i, seat, es).mdu);
  }

  // ------------------------------------------------------------------ what reaches the unit

  /** What is handed over is what the unit stages, from either way; otherwise nothing new is in flight. */
  lemma HandoverIsStaged(y: System, i: Instr, seat: Seat, e: Env)
    requires Inv(y.mdu) && Ranged(e)
    ensures var t := Cycle(y, i, seat, e).mdu;
            && (HandsOver(y, i) && MultiCycle(i.op) ==> t.inValid && (t.inOp, t.srcA, t.srcB) == (i.op, e.a, e.b))
            && (!HandsOver(y, i) && !InFlight(y.mdu) ==> !InFlight(t))
            && (HandsOver(y, i) ==> i.mduEn && i.execValid && !InFlight(y.mdu) && !y.mdu.recPending)
  {
    BusyExactly(y.mdu);
    var d := DriveOf(y, i, seat, e);
    if HandsOver(y, i) {
      AcceptedStart(y.mdu, d);
    } else if !InFlight(y.mdu) {
      RestingDivider(y.mdu.div, DivIn(y.mdu));
    }
  }

  /** An instruction that does not use the unit, or has been cancelled, hands nothing over and never waits for it. */
  lemma OthersPass(y: System, i: Instr, e: Env)
    requires !i.mduEn || !i.execValid
    ensures !HandsOver(y, i) && (Leaves(y, i, e) <==> !e.stallTop)
  {}

  // ------------------------------------------------------------------ no deadlock

  /** A bound on the cycles the unit stays busy, a pending recovery included. */
  function Wait(s: State): nat {
    if InFlight(s) then Latency(s) + 1 else if s.recPending then 1 else 0
  }

  lemma WaitFalls(s: State, d: Drive)
    requires Inv(s) && Sane(d) && Busy(s)
    ensures Inv(MduRuns.Cycle(s, d)) && Wait(MduRuns.Cycle(s, d)) < Wait(s)
  {
    BusyExactly(s);
    CycleKeepsInv(s, d);
    if InFlight(s) {
      FlightCycle(s, [], d);
    } else {
      IdleMeansNothingInFlight(s);
      RestingDivider(s.div, DivIn(s));
    }
  }

  /** A bound on the cycles a held instruction still has to stay, if nothing downstream stalls it. */
  function Stay(y: System, i: Instr): nat {
    if y.ph == Done then 0
    else if IsMul(i) && y.ph == Fresh then Wait(y.mdu) + 4
    else Wait(y.mdu)
  }

  lemma StayFalls(y: System, i: Instr, seat: Seat, e: Env)
    requires Inv(y.mdu) && Ranged(e) && !e.stallTop && !Leaves(y, i, e)
    ensures var z := Cycle(y, i, seat, e); Inv(z.mdu) && Stay(z, i) < Stay(y, i)
  {
    var d := DriveOf(y, i, seat, e);
    BusyExactly(y.mdu);
    if Busy(y.mdu) {
      WaitFalls(y.mdu, d);
    } else {
      CycleKeepsInv(y.mdu, d);
      AcceptedStart(y.mdu, d);
      BusyExactly(MduRuns.Cycle(y.mdu, d));
    }
  }

  /** No instruction waits for ever: without a downstream stall each leaves within 24 cycles, recoveries or not. */
  lemma {:induction false} NoDeadlock(y: System, i: Instr, seat: Seat, es: seq<Env>)
    requires Inv(y.mdu) && AllRanged(es) && Held(y, i, seat, es)
    requires forall k :: 0 <= k < |es| ==> !es[k].stallTop
    ensures |es| <= Stay(y, i) <= 23
    decreases |es|
  {
    LatencyBound(y.mdu);
    if es != [] {
      StayFalls(y, i, seat, es[0]);
      NoDeadlock(Cycle(y, i, seat, es[0]), i, seat, es[1..]);
    }
  }
}
