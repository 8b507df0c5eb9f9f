/**
 Whole-run properties of the multiply/divide unit: every accepted operation completes exactly once,
 with its effect on HI, LO and the product register, and recovery undoes the last HI/LO updates.
 */
module MduRuns {
  import opened Bits
  import opened Mdu
  import opened DivUnit

  /** The inputs of the controller in one cycle. */
  datatype Drive = Drive(p0: Port, p1: Port, recover: bool, num: nat)

  predicate Sane(d: Drive) {
    d.p0.a < W32 && d.p0.b < W32 && d.p1.a < W32 && d.p1.b < W32 && d.num < 4
  }

  function BusOf(s: State, d: Drive): Bus {
    Select(s, d.p0, d.p1, d.recover, d.num)
  }

  function Cycle(s: State, d: Drive): State
    requires |s.past| == 3
  {
    Next(s, BusOf(s, d))
  }

  function Run(s: State, ds: seq<Drive>): (t: State)
    requires |s.past| == 3
    ensures |t.past| == 3
    decreases |ds|
  {
    if ds == [] then s else Run(Cycle(s, ds[0]), ds[1..])
  }

  predicate AllSane(ds: seq<Drive>) {
    forall k :: 0 <= k < |ds| ==> Sane(ds[k])
  }

  // ------------------------------------------------------------------ the update log

  /** HI and LO as they were before each update since the last reset or recovery, oldest first. */
  function NextLog(s: State, log: seq<(nat, nat)>, d: Drive): seq<(nat, nat)> {
    if Recovers(s, BusOf(s, d)) then []
    else if UpdatesHiLo(s, BusOf(s, d)) then log + [(s.hi, s.lo)]
    else log
  }

  function Log(s: State, log: seq<(nat, nat)>, ds: seq<Drive>): seq<(nat, nat)>
    requires |s.past| == 3
    decreases |ds|
  {
    if ds == [] then log else Log(Cycle(s, ds[0]), NextLog(s, log, ds[0]), ds[1..])
  }

  /** HI and LO with the last `n` logged updates undone; zeros when the log is too short. */
  function Undone(log: seq<(nat, nat)>, now: (nat, nat), n: nat): (nat, nat) {
    if n == 0 then now else if n <= |log| then log[|log| - n] else (0, 0)
  }

  /** The three history registers hold the newest log entries. */
  ghost predicate Remembers(s: State, log: seq<(nat, nat)>) {
    |s.past| == 3 && forall j :: 0 <= j < 3 ==> s.past[j] == Undone(log, (0, 0), j + 1)
  }

  lemma CycleKeepsInv(s: State, d: Drive)
    requires Inv(s) && Sane(d)
    ensures Inv(Cycle(s, d))
  {
    NextKeepsInv(s, BusOf(s, d));
  }

  /** The log is faithful: HI and LO change only where it grows or is cut. */
  lemma LogFollowsHiLo(s: State, log: seq<(nat, nat)>, d: Drive)
    requires Inv(s) && Sane(d) && Remembers(s, log)
    ensures Remembers(Cycle(s, d), NextLog(s, log, d))
    ensures NextLog(s, log, d) == log ==>
              Recovers(s, BusOf(s, d)) || ((Cycle(s, d).hi, Cycle(s, d).lo) == (s.hi, s.lo))
  {
    var t, l := Cycle(s, d), NextLog(s, log, d);
    forall j | 0 <= j < 3
      ensures t.past[j] == Undone(l, (0, 0), j + 1)
    {
      if j > 0 { assert s.past[j - 1] == Undone(log, (0, 0), j); }
      assert s.past[j] == Undone(log, (0, 0), j + 1);
    }
  }

  /** Every run keeps the invariant and the match between history and log. */
  lemma {:induction false} RunRemembers(s: State, log: seq<(nat, nat)>, ds: seq<Drive>)
    requires Inv(s) && Remembers(s, log) && AllSane(ds)
    ensures Inv(Run(s, ds)) && Remembers(Run(s, ds), Log(s, log, ds))
    decreases |ds|
  {
    if ds != [] {
      CycleKeepsInv(s, ds[0]);
      LogFollowsHiLo(s, log, ds[0]);
      RunRemembers(Cycle(s, ds[0]), NextLog(s, log, ds[0]), ds[1..]);
    }
  }

  /** In particular from reset, with an empty log. */
  lemma ReachableRemembers(ds: seq<Drive>)
    requires AllSane(ds)
    ensures Inv(Run(Mdu.Reset(), ds)) && Remembers(Run(Mdu.Reset(), ds), Log(Mdu.Reset(), [], ds))
  {
    ResetInv();
    RunRemembers(Mdu.Reset(), [], ds);
  }

  /** The unit is busy exactly while an operation is in flight or a recovery is pending. */
  lemma BusyExactly(s: State)
    requires Inv(s)
    ensures Busy(s) <==> InFlight(s) || s.recPending
  {
    IdleMeansNothingInFlight(s);
  }

  // ------------------------------------------------------------------ one operation, start to end

  /** A start on an idle unit stages exactly that operation, or moves to HI or LO at once. */
  lemma AcceptedStart(s: State, d: Drive)
    requires Inv(s) && Sane(d) && !Busy(s) && (d.p0.valid || d.p1.valid)
    ensures var t := Cycle(s, d);
            var p := if d.p1.valid then d.p1 else d.p0;
            && (MultiCycle(p.op) ==> t.inValid && (t.inOp, t.srcA, t.srcB) == (p.op, p.a, p.b))
            && (MultiCycle(p.op) ==> Latency(t) == if Divides(p.op) then 18 else 2)
            && (!MultiCycle(p.op) ==> !InFlight(t))
            && (!d.recover ==> ResultOf(t) == Result(if p.op == MTHI then p.a else s.hi,
                                                     if p.op == MTLO then p.a else s.lo, s.mulRes))
  {
    IdleMeansNothingInFlight(s);
    RestingDivider(s.div, DivIn(s));
  }

  /** On an idle unit the log grows by a move to HI or LO and by nothing else. */
  lemma MovesAreLogged(s: State, log: seq<(nat, nat)>, d: Drive)
    requires Inv(s) && Sane(d) && !Busy(s) && !d.recover
    ensures var p := if d.p1.valid then d.p1 else d.p0;
            NextLog(s, log, d) == if (d.p0.valid || d.p1.valid) && (p.op == MTHI || p.op == MTLO)
                                  then log + [(s.hi, s.lo)] else log
  {
    IdleMeansNothingInFlight(s);
  }

  /** While an operation is in flight nothing else starts and HI, LO and the product register stand still. */
  lemma FlightCycle(s: State, log: seq<(nat, nat)>, d: Drive)
    requires Inv(s) && Sane(d) && InFlight(s)
    ensures var t := Cycle(s, d);
            && Inv(t) && Busy(s) && (t.inOp, t.srcA, t.srcB) == (s.inOp, s.srcA, s.srcB) && !t.inValid
            && (OutValid(s) <==> !InFlight(t))
            && (!OutValid(s) ==> ResultOf(t) == ResultOf(s) && Latency(t) < Latency(s) && NextLog(s, log, d) == log)
            && (OutValid(s) ==> Effect(s.inOp, s.srcA, s.srcB, ResultOf(s), ResultOf(t)))
            && (OutValid(s) ==> NextLog(s, log, d) == if s.inOp == MUL then log else log + [(s.hi, s.lo)])
            && t.recPending == (s.recPending || d.recover)
            && (t.recPending ==> t.recNum == if s.recPending then s.recNum else d.num)
  {
    var x := BusOf(s, d);
    CycleKeepsInv(s, d);
    IdleMeansNothingInFlight(s);
    if s.inValid {
      StagedCycle(s, x);
    } else {
      RunningCycle(s, x);
    }
    if OutValid(s) {
      CompletionEffect(s, x);
    }
  }

  /** An operation still in flight: busy, results untouched, and answering just in its `last` cycle. */
  predicate Underway(t: State, before: Result, last: bool) {
    Busy(t) && InFlight(t) && ResultOf(t) == before && (OutValid(t) <==> last)
  }

  /** The whole flight of an operation: it retires in cycle `n`, not before, with its own effect. */
  ghost predicate Flight(s: State, log: seq<(nat, nat)>, ds: seq<Drive>, n: nat)
    requires |s.past| == 3 && 1 <= n <= |ds|
  {
    var t := Run(s, ds[..n]);
    && (forall m :: 0 <= m < n ==> Underway(Run(s, ds[..m]), ResultOf(s), m == n - 1))
    && Idle(t)
    && Effect(s.inOp, s.srcA, s.srcB, ResultOf(s), ResultOf(t))
    && Log(s, log, ds[..n]) == if s.inOp == MUL then log else log + [(s.hi, s.lo)]
  }

  lemma RunFirst(s: State, log: seq<(nat, nat)>, ds: seq<Drive>, m: nat)
    requires |s.past| == 3 && 1 <= m <= |ds|
    ensures Run(s, ds[..m]) == Run(Cycle(s, ds[0]), ds[1..][..m - 1])
    ensures Log(s, log, ds[..m]) == Log(Cycle(s, ds[0]), NextLog(s, log, ds[0]), ds[1..][..m - 1])
  {
    assert ds[..m][1..] == ds[1..][..m - 1];
  }

  lemma FlightEnds(s: State, log: seq<(nat, nat)>, ds: seq<Drive>)
    requires Inv(s) && InFlight(s) && |ds| >= 1 && Sane(ds[0]) && OutValid(s)
    ensures Flight(s, log, ds, 1)
  {
    var t := Cycle(s, ds[0]);
    FlightCycle(s, log, ds[0]);
    RunFirst(s, log, ds, 1);
    assert ds[1..][..0] == [];
    assert ds[..0] == [];
    IdleMeansNothingInFlight(t);
  }

  lemma FlightWaits(s: State, log: seq<(nat, nat)>, d: Drive)
    requires Inv(s) && Sane(d) && InFlight(s) && !OutValid(s)
    ensures var t := Cycle(s, d);
            && Inv(t) && InFlight(t) && Latency(t) < Latency(s) && NextLog(s, log, d) == log
            && Underway(s, ResultOf(s), false)
            && ResultOf(t) == ResultOf(s) && (t.inOp, t.srcA, t.srcB) == (s.inOp, s.srcA, s.srcB)
            && (t.hi, t.lo) == (s.hi, s.lo)
  {
    FlightCycle(s, log, d);
  }

  lemma FlightExtends(s: State, log: seq<(nat, nat)>, ds: seq<Drive>, k: nat)
    requires Inv(s) && InFlight(s) && 1 <= k < |ds| && Sane(ds[0]) && !OutValid(s)
    requires Flight(Cycle(s, ds[0]), log, ds[1..], k)
    ensures Flight(s, log, ds, k + 1)
  {
    var t := Cycle(s, ds[0]);
    FlightWaits(s, log, ds[0]);
    RunFirst(s, log, ds, k + 1);
    forall m | 0 <= m < k + 1
      ensures Underway(Run(s, ds[..m]), ResultOf(s), m == k)
    {
      if m > 0 {
        RunFirst(s, log, ds, m);
        assert Underway(Run(t, ds[1..][..m - 1]), ResultOf(t), m - 1 == k - 1);
      } else {
        assert Run(s, ds[..0]) == s;
      }
    }
  }

  /** One cycle on, the inputs that are left still last for the latency that is left. */
  lemma StillTime(s: State, log: seq<(nat, nat)>, ds: seq<Drive>)
    requires Inv(s) && InFlight(s) && !OutValid(s) && ds != [] && AllSane(ds) && |ds| >= Latency(s)
    ensures var t := Cycle(s, ds[0]);
            && Inv(t) && InFlight(t) && AllSane(ds[1..]) && NextLog(s, log, ds[0]) == log
            && Latency(t) + 1 <= Latency(s) && |ds[1..]| >= Latency(t)
  {
    FlightWaits(s, log, ds[0]);
  }

  /** Every operation in flight completes exactly once, within its latency, whatever the ports do. */
  lemma {:induction false} CompletesOnce(s: State, log: seq<(nat, nat)>, ds: seq<Drive>) returns (n: nat)
    requires Inv(s) && InFlight(s) && AllSane(ds) && |ds| >= Latency(s)
    ensures 1 <= n <= Latency(s) && n <= |ds| && Flight(s, log, ds, n)
    decreases |ds|
  {
    assert Latency(s) >= 1;
    if OutValid(s) {
      n := 1;
      FlightEnds(s, log, ds);
    } else {
      StillTime(s, log, ds);
      var k := CompletesOnce(Cycle(s, ds[0]), log, ds[1..]);
      n := k + 1;
      FlightExtends(s, log, ds, k);
    }
  }

  /**
   From the acceptance of a multi-cycle operation: it retires exactly once, within 2 cycles or, if it
   divides, within 18, replaces or accumulates HI and LO (or the product register) as its kind asks
   for, and until then the unit is busy, so that no second operation is ever in flight.
   */
  lemma StartToCompletion(s: State, log: seq<(nat, nat)>, d: Drive, ds: seq<Drive>) returns (n: nat)
    requires Inv(s) && Sane(d) && AllSane(ds) && |ds| >= 18
    requires !Busy(s) && (d.p0.valid || d.p1.valid)
    requires MultiCycle((if d.p1.valid then d.p1 else d.p0).op)
    ensures var p := if d.p1.valid then d.p1 else d.p0;
            var t := Cycle(s, d);
            && 1 <= n <= (if Divides(p.op) then 18 else 2)
            && Flight(t, log, ds, n) && (t.inOp, t.srcA, t.srcB) == (p.op, p.a, p.b)
            && Effect(p.op, p.a, p.b, ResultOf(t), ResultOf(Run(t, ds[..n])))
            && (!d.recover ==> ResultOf(t) == ResultOf(s))
  {
    CycleKeepsInv(s, d);
    AcceptedStart(s, d);
    n := CompletesOnce(Cycle(s, d), log, ds);
  }

  // ------------------------------------------------------------------ recovery

  /** A recovery that finds the unit idle takes HI and LO back by exactly the requested updates. */
  lemma RecoveryUndoes(s: State, log: seq<(nat, nat)>, d: Drive)
    requires Inv(s) && Sane(d) && Remembers(s, log) && Recovers(s, BusOf(s, d))
    ensures var t, n := Cycle(s, d), if s.recPending then s.recNum else d.num;
            && (t.hi, t.lo) == Undone(log, (s.hi, s.lo), n)
            && !t.recPending && NextLog(s, log, d) == []
  {
    var n := if s.recPending then s.recNum else d.num;
    if n > 0 {
      assert s.past[n - 1] == Undone(log, (0, 0), n);
    }
  }

  /**
   A recovery requested while the unit is not busy takes effect at once, whatever starts meanwhile:
   HI and LO go back by the requested number of updates, and nothing is left pending.
   */
  lemma ImmediateRecovery(s: State, log: seq<(nat, nat)>, d: Drive)
    requires Inv(s) && Sane(d) && Remembers(s, log) && !Busy(s) && d.recover
    ensures var t := Cycle(s, d);
            && (t.hi, t.lo) == Undone(log, (s.hi, s.lo), d.num) && t.mulRes == s.mulRes
            && NextLog(s, log, d) == [] && !t.recPending
  {
    RecoveryUndoes(s, log, d);
    IdleMeansNothingInFlight(s);
  }

  /** A pending recovery takes effect in the first cycle with nothing in flight; nothing starts in it. */
  lemma PendingRecovery(s: State, log: seq<(nat, nat)>, d: Drive)
    requires Inv(s) && Sane(d) && Remembers(s, log) && !InFlight(s) && s.recPending
    ensures var t := Cycle(s, d);
            && (t.hi, t.lo) == Undone(log, (s.hi, s.lo), s.recNum) && t.mulRes == s.mulRes
            && NextLog(s, log, d) == [] && !Busy(t) && !InFlight(t)
  {
    IdleMeansNothingInFlight(s);
    RecoveryUndoes(s, log, d);
    RestingDivider(s.div, DivIn(s));
  }

  /** With nothing in flight, requested or started nothing changes. */
  lemma QuietCycle(s: State, log: seq<(nat, nat)>, d: Drive)
    requires Inv(s) && !Busy(s) && !d.recover && !d.p0.valid && !d.p1.valid
    ensures var t := Cycle(s, d); ResultOf(t) == ResultOf(s) && NextLog(s, log, d) == log && !Busy(t)
  {
    IdleMeansNothingInFlight(s);
    RestingDivider(s.div, DivIn(s));
  }

  /**
   A recovery requested while an operation is in flight waits for it, counts its update, and then
   undoes the requested number of updates, counted back from the completed operation.
   */
  lemma DeferredRecovery(s: State, log: seq<(nat, nat)>, ds: seq<Drive>) returns (n: nat)
    requires Inv(s) && Remembers(s, log) && InFlight(s) && !s.recPending
    requires AllSane(ds) && |ds| > 18 && ds[0].recover
    ensures 1 <= n <= 18 && Flight(s, log, ds, n)
    ensures var done, t := Run(s, ds[..n]), Run(s, ds[..n + 1]);
            var log' := if s.inOp == MUL then log else log + [(s.hi, s.lo)];
            && Busy(done) && (t.hi, t.lo) == Undone(log', (done.hi, done.lo), ds[0].num)
            && Log(s, log, ds[..n + 1]) == [] && !Busy(t)
  {
    LatencyBound(s);
    n := CompletesOnce(s, log, ds);
    KeepsRequest(s, ds, n);
    RunRemembers(s, log, ds[..n]);
    var done := Run(s, ds[..n]);
    assert Log(s, log, ds[..n]) == if s.inOp == MUL then log else log + [(s.hi, s.lo)];
    RunLast(s, log, ds, n);
    RecoveryUndoes(done, Log(s, log, ds[..n]), ds[n]);
    CycleKeepsInv(done, ds[n]);
    RestingDivider(done.div, DivIn(done));
  }

  lemma LatencyBound(s: State)
    requires Inv(s)
    ensures Latency(s) <= 18
  {
    if s.div.busy {
      var a, b := Magnitude(s.srcA, s.inOp == DIV), Magnitude(s.srcB, s.inOp == DIV);
      assert InProgress(s.div, a, b, Left(s.div));
    }
  }

  lemma {:induction false} RunLast(s: State, log: seq<(nat, nat)>, ds: seq<Drive>, n: nat)
    requires |s.past| == 3 && n < |ds|
    ensures Run(s, ds[..n + 1]) == Cycle(Run(s, ds[..n]), ds[n])
    ensures Log(s, log, ds[..n + 1]) == NextLog(Run(s, ds[..n]), Log(s, log, ds[..n]), ds[n])
    decreases n
  {
    if n == 0 {
      RunFirst(s, log, ds, 1);
      assert Run(s, ds[..0]) == s && Log(s, log, ds[..0]) == log;
    } else {
      RunFirst(s, log, ds, n);
      RunFirst(s, log, ds, n + 1);
      RunLast(Cycle(s, ds[0]), NextLog(s, log, ds[0]), ds[1..], n - 1);
    }
  }

  lemma RequestStays(s: State, d: Drive)
    requires Inv(s) && Sane(d) && InFlight(s) && (s.recPending || d.recover)
    ensures var t := Cycle(s, d);
            Inv(t) && t.recPending && t.recNum == if s.recPending then s.recNum else d.num
  {
    FlightCycle(s, [], d);
  }

  /** The request and its count are kept until the operation in flight has retired. */
  lemma {:induction false} KeepsRequest(s: State, ds: seq<Drive>, n: nat)
    requires Inv(s) && AllSane(ds) && 1 <= n <= |ds| && (s.recPending || ds[0].recover)
    requires forall m :: 0 <= m < n ==> InFlight(Run(s, ds[..m]))
    ensures Run(s, ds[..n]).recPending
    ensures Run(s, ds[..n]).recNum == if s.recPending then s.recNum else ds[0].num
    decreases n
  {
    assert Run(s, ds[..0]) == s;
    RequestStays(s, ds[0]);
    RunFirst(s, [], ds, n);
    if n > 1 {
      forall m | 0 <= m < n - 1
        ensures InFlight(Run(Cycle(s, ds[0]), ds[1..][..m]))
      {
        RunFirst(s, [], ds, m + 1);
      }
      KeepsRequest(Cycle(s, ds[0]), ds[1..], n - 1);
    }
  }
}
