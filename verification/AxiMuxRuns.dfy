/**
 Whole-run properties of the multiplexer, for every port count, queue depth and register setting:
 write data follows address order, nothing is lost, duplicated or reordered, offers stay stable
 until accepted, and every held address is accepted within a bounded number of handshakes.
 */
module AxiMuxRuns {
  import opened AxiMux
  import opened Bits
  import opened AxiIdPrepend
  import Arb = RrArbTree
  import Fifo
  import Spill = SpillRegister

  /**
   What an observer of the ports records: owner queue pushes; addresses accepted from the ports,
   tagged with the port, and sent on the master port; data beats accepted from the ports, tagged
   with the port, and sent on the master port; and what each port still offers without being accepted.
   */
  datatype Trace = Trace(
    pushed: seq<nat>,
    accepted: seq<(nat, Aw)>,
    sent: seq<Aw>,
    taken: seq<(nat, W)>,
    sentW: seq<W>,
    awHeld: seq<Option<Aw>>,
    wHeld: seq<Option<W>>)

  datatype System = System(s: State, t: Trace)

  /** AXI handshake rule (ARM IHI 0022, section A3.2.1): an offer stands unchanged until accepted. */
  ghost predicate Polite(c: Config, t: Trace, x: In) {
    && Sized(c, x)
    && |t.awHeld| == |t.wHeld| == c.ports
    && (forall i :: 0 <= i < c.ports && t.awHeld[i].Some? ==> x.awValid[i] && x.aw[i] == t.awHeld[i].value)
    && (forall i :: 0 <= i < c.ports && t.wHeld[i].Some? ==> x.wValid[i] && x.w[i] == t.wHeld[i].value)
  }

  // ------------------------------------------------------------------ observation of one cycle

  /** The addresses handed over by ports `0..n` in this cycle: valid and ready at the port. */
  function AwHandovers(c: Config, s: State, x: In, n: nat): seq<(nat, Aw)>
    requires |x.awValid| == |s.arb.req| == |x.aw| == c.ports && n <= c.ports
  {
    if n == 0 then []
    else
      AwHandovers(c, s, x, n - 1)
      + (if x.awValid[n - 1] && AwReadyAt(c, s, x, n - 1) then [(n - 1, x.aw[n - 1])] else [])
  }

  function WHandovers(c: Config, s: State, x: In, n: nat): seq<(nat, W)>
    requires |x.awValid| == |s.arb.req| == |x.aw| == |x.wValid| == |x.w| == c.ports >= 1 && n <= c.ports
  {
    if n == 0 then []
    else
      WHandovers(c, s, x, n - 1)
      + (if x.wValid[n - 1] && WReadyAt(c, s, x, n - 1) then [(n - 1, x.w[n - 1])] else [])
  }

  /** The owner pushed in this cycle, if any. */
  function PushNow(c: Config, s: State, x: In): seq<nat>
    requires |Requests(c, s, x)| == |x.aw| >= 1
  {
    if AwCtl(c, s, x).push then [PortOf(c, Chosen(c, s, x))] else []
  }

  function Observe(c: Config, s: State, t: Trace, x: In): Trace
    requires |x.awValid| == |s.arb.req| == |x.aw| == |x.wValid| == |x.w| == c.ports >= 1
  {
    var aw, w := AwOut(c, s, x), WOut(c, s, x);
    Trace(
      t.pushed + PushNow(c, s, x),
      t.accepted + AwHandovers(c, s, x, c.ports),
      t.sent + (if aw.Some? && x.awReady then [aw.value] else []),
      t.taken + WHandovers(c, s, x, c.ports),
      t.sentW + (if w.Some? && x.wReady then [w.value] else []),
      seq(c.ports, i requires 0 <= i < c.ports =>
        if x.awValid[i] && !AwReadyAt(c, s, x, i) then Some(x.aw[i]) else None),
      seq(c.ports, i requires 0 <= i < c.ports =>
        if x.wValid[i] && !WReadyAt(c, s, x, i) then Some(x.w[i]) else None))
  }

  function Start(c: Config): System {
    System(Init(c), Trace([], [], [], [], [], seq(c.ports, i => None), seq(c.ports, i => None)))
  }

  function Cycle(c: Config, y: System, x: In): System
    requires |x.awValid| == |y.s.arb.req| == |x.aw| == |x.wValid| == |x.w| == c.ports >= 1 && c.depth >= 1
  {
    System(Step(c, y.s, x), Observe(c, y.s, y.t, x))
  }

  // ------------------------------------------------------------------ the invariant

  /** The ports that accepted addresses came from. */
  function Ports(a: seq<(nat, Aw)>): seq<nat> {
    seq(|a|, k requires 0 <= k < |a| => a[k].0)
  }

  /** The accepted addresses as the master port shows them. */
  function Widened(c: Config, a: seq<(nat, Aw)>): seq<Aw> {
    seq(|a|, k requires 0 <= k < |a| => Widen(c, a[k].0, a[k].1))
  }

  ghost predicate FromPorts(c: Config, a: seq<(nat, Aw)>) {
    forall k :: 0 <= k < |a| ==> a[k].0 < c.ports
  }

  /** The owners of the finished bursts of a beat stream. */
  function Finished(b: seq<(nat, W)>): seq<nat> {
    if b == [] then []
    else Finished(b[..|b| - 1]) + (if b[|b| - 1].1.last then [b[|b| - 1].0] else [])
  }

  function Beats(b: seq<(nat, W)>): seq<W> {
    seq(|b|, k requires 0 <= k < |b| => b[k].1)
  }

  /** The address pushed to the owner queue but not yet accepted downstream: its port. */
  function Pending(s: State): seq<nat>
    requires |s.arb.req| >= 1
  {
    if s.lockAw then [Arb.IdxOut(s.arb.req, s.arb.rr)] else []
  }

  /** Beat `k` belongs to the burst after the bursts finished before it, and comes from its owner. */
  ghost predicate BurstsInOrder(b: seq<(nat, W)>, owners: seq<nat>) {
    forall k :: 0 <= k < |b| ==> |Finished(b[..k])| < |owners| && b[k].0 == owners[|Finished(b[..k])|]
  }

  /** A locked arbitration decision is one among offers the ports still hold. */
  ghost predicate Held(c: Config, y: System) {
    && WellFormed(c)
    && Ok(c, y.s)
    && |y.t.awHeld| == |y.t.wHeld| == c.ports
    && (y.s.arb.lock ==> forall i :: 0 <= i < c.ports && y.s.arb.req[i] ==> y.t.awHeld[i].Some?)
  }

  ghost predicate Inv(c: Config, y: System) {
    && Held(c, y)
    && FromPorts(c, y.t.accepted)
    && y.t.sent + y.s.awQ == Widened(c, y.t.accepted)
    && y.t.sentW + y.s.wQ == Beats(y.t.taken)
    && y.t.pushed == Ports(y.t.accepted) + Pending(y.s)
    && y.t.pushed == Finished(y.t.taken) + y.s.owners
    && BurstsInOrder(y.t.taken, y.t.pushed)
  }

  // ------------------------------------------------------------------ address channel

  /** A downstream acceptance is a handshake at the winning port, and there is no other one. */
  lemma AwHandoverIsChosen(c: Config, y: System, x: In)
    requires Held(c, y) && Polite(c, y.t, x)
    ensures var w := Arb.IdxOut(Requests(c, y.s, x), y.s.arb.rr);
            if AwCtl(c, y.s, x).ready
            then w < c.ports && AwHandovers(c, y.s, x, c.ports) == [(w, x.aw[w])]
                 && Chosen(c, y.s, x) == Widen(c, w, x.aw[w])
            else AwHandovers(c, y.s, x, c.ports) == []
  {
    var s := y.s;
    var req := Requests(c, s, x);
    Arb.ArbiterSpec(ArbConfig(c), req, s.arb.rr, AwCtl(c, s, x).ready);
    if AwCtl(c, s, x).ready {
      OfferedIsAsked(c, s, x);
      ChosenPort(c, s, x);
      var w := Arb.IdxOut(req, s.arb.rr);
      assert x.awValid[w];
      OneAwHandover(c, s, x, w, c.ports);
    } else {
      NoAwHandover(c, s, x, c.ports);
    }
  }

  lemma {:induction false} NoAwHandover(c: Config, s: State, x: In, n: nat)
    requires |x.awValid| == |s.arb.req| == |x.aw| == c.ports && n <= c.ports
    requires forall i: nat :: i < c.ports ==> !AwReadyAt(c, s, x, i)
    ensures AwHandovers(c, s, x, n) == []
  {
    if n > 0 {
      NoAwHandover(c, s, x, n - 1);
    }
  }

  lemma {:induction false} OneAwHandover(c: Config, s: State, x: In, w: nat, n: nat)
    requires |x.awValid| == |s.arb.req| == |x.aw| == c.ports && n <= c.ports
    requires w < c.ports && x.awValid[w]
    requires forall i: nat :: i < c.ports ==> (AwReadyAt(c, s, x, i) <==> i == w)
    ensures AwHandovers(c, s, x, n) == if w < n then [(w, x.aw[w])] else []
  {
    if n > 0 {
      OneAwHandover(c, s, x, w, n - 1);
      var last: nat := n - 1;
      assert AwReadyAt(c, s, x, last) <==> last == w;
    }
  }

  /** The address handshakes on both sides, in terms of the output register. */
  lemma AwHandshakes(c: Config, y: System, x: In)
    requires Held(c, y) && Polite(c, y.t, x)
    ensures var ctl, chan := AwCtl(c, y.s, x), Chosen(c, y.s, x);
            && FromPorts(c, AwHandovers(c, y.s, x, c.ports))
            && Widened(c, AwHandovers(c, y.s, x, c.ports)) == Spill.Taken(!c.spillAw, y.s.awQ, ctl.valid, chan, x.awReady)
            && Observe(c, y.s, y.t, x).sent == y.t.sent + Spill.Sent(!c.spillAw, y.s.awQ, ctl.valid, chan, x.awReady)
  {
    AwHandoverIsChosen(c, y, x);
  }

  lemma AddressesConserved(c: Config, y: System, x: In)
    requires Held(c, y) && Polite(c, y.t, x)
    requires FromPorts(c, y.t.accepted) && y.t.sent + y.s.awQ == Widened(c, y.t.accepted)
    ensures var z := Cycle(c, y, x);
            FromPorts(c, z.t.accepted) && z.t.sent + z.s.awQ == Widened(c, z.t.accepted)
  {
    AwHandshakes(c, y, x);
    WidenedAppend(c, y.t.accepted, AwHandovers(c, y.s, x, c.ports));
    Spill.StreamConserved(!c.spillAw, y.s.awQ, AwCtl(c, y.s, x).valid, Chosen(c, y.s, x), x.awReady,
                          y.t.sent, Widened(c, y.t.accepted));
  }

  lemma WidenedAppend(c: Config, a: seq<(nat, Aw)>, b: seq<(nat, Aw)>)
    ensures Widened(c, a + b) == Widened(c, a) + Widened(c, b)
    ensures FromPorts(c, a) && FromPorts(c, b) ==> FromPorts(c, a + b)
  {}

  /** The arbiter registers after a cycle that leaves an address waiting downstream. */
  lemma PendingIsChosen(c: Config, s: State, x: In)
    requires WellFormed(c) && Sized(c, x) && Ok(c, s)
    ensures AwCtl(c, s, x).valid ==> PortOf(c, Chosen(c, s, x)) == Arb.IdxOut(Requests(c, s, x), s.arb.rr)
    ensures AwCtl(c, s, x).lockNext ==> Pending(Step(c, s, x)) == [PortOf(c, Chosen(c, s, x))]
    ensures !AwCtl(c, s, x).lockNext ==> Pending(Step(c, s, x)) == []
  {
    if AwCtl(c, s, x).valid {
      OfferedIsAsked(c, s, x);
      ChosenPort(c, s, x);
    }
  }

  /** The control block pushes an owner once per address: when first offered, not when accepted. */
  lemma ControlPushesOnce(lock: bool, full: bool, asked: bool, down: bool, p: nat,
                          pushed: seq<nat>, accepted: seq<nat>)
    requires pushed == accepted + (if lock then [p] else [])
    ensures var ctl := Control(lock, full, asked, down);
            pushed + (if ctl.push then [p] else [])
            == accepted + (if ctl.ready then [p] else []) + (if ctl.lockNext then [p] else [])
  {}

  /** The ports of the addresses handed over in one cycle. */
  lemma PortsHandedOver(c: Config, y: System, x: In)
    requires Held(c, y) && Polite(c, y.t, x)
    ensures Ports(AwHandovers(c, y.s, x, c.ports)) ==
            if AwCtl(c, y.s, x).ready then [PortOf(c, Chosen(c, y.s, x))] else []
  {
    AwHandoverIsChosen(c, y, x);
    PendingIsChosen(c, y.s, x);
  }

  lemma PushesMatchAddresses(c: Config, y: System, x: In)
    requires Held(c, y) && Polite(c, y.t, x) && y.t.pushed == Ports(y.t.accepted) + Pending(y.s)
    ensures var z := Cycle(c, y, x); z.t.pushed == Ports(z.t.accepted) + Pending(z.s)
  {
    PortsHandedOver(c, y, x);
    PendingIsChosen(c, y.s, x);
    var p := PortOf(c, Chosen(c, y.s, x));
    assert y.s.lockAw ==> AwCtl(c, y.s, x).valid;
    PortsAppend(y.t.accepted, AwHandovers(c, y.s, x, c.ports));
    ControlPushesOnce(y.s.lockAw, |y.s.owners| == c.depth, AwAsked(c, y.s, x),
                      Spill.Ready(!c.spillAw, y.s.awQ, x.awReady), p,
                      y.t.pushed, Ports(y.t.accepted));
  }

  lemma PortsAppend(a: seq<(nat, Aw)>, b: seq<(nat, Aw)>)
    ensures Ports(a + b) == Ports(a) + Ports(b)
  {}

  lemma LockedRequestsAreHeld(c: Config, y: System, x: In)
    requires Held(c, y) && Polite(c, y.t, x)
    ensures Held(c, Cycle(c, y, x))
  {
    StepKeepsOk(c, y.s, x);
    Arb.ArbiterSpec(ArbConfig(c), Requests(c, y.s, x), y.s.arb.rr, AwCtl(c, y.s, x).ready);
  }

  // ------------------------------------------------------------------ data channel

  lemma {:induction false} NoWHandover(c: Config, s: State, x: In, n: nat)
    requires |x.awValid| == |s.arb.req| == |x.aw| == |x.wValid| == |x.w| == c.ports >= 1 && n <= c.ports
    requires forall i: nat :: i < c.ports ==> !(x.wValid[i] && WReadyAt(c, s, x, i))
    ensures WHandovers(c, s, x, n) == []
  {
    if n > 0 {
      NoWHandover(c, s, x, n - 1);
    }
  }

  lemma {:induction false} OneWHandover(c: Config, s: State, x: In, w: nat, n: nat)
    requires |x.awValid| == |s.arb.req| == |x.aw| == |x.wValid| == |x.w| == c.ports >= 1 && n <= c.ports
    requires w < c.ports
    requires forall i: nat :: i < c.ports ==> (x.wValid[i] && WReadyAt(c, s, x, i) <==> i == w)
    ensures WHandovers(c, s, x, n) == if w < n then [(w, x.w[w])] else []
  {
    if n > 0 {
      OneWHandover(c, s, x, w, n - 1);
    }
  }

  /** The data handshakes at the ports are the one beat that crosses the inner channel. */
  lemma AllWHandovers(c: Config, s: State, x: In)
    requires WellFormed(c) && Sized(c, x) && Ok(c, s)
    ensures var m := WMoved(c, s, x); WHandovers(c, s, x, c.ports) == if m.Some? then [m.value] else []
  {
    OwnerInRange(c, s, x);
    if WMoved(c, s, x).Some? {
      OneWHandover(c, s, x, WMoved(c, s, x).value.0, c.ports);
    } else {
      NoWHandover(c, s, x, c.ports);
    }
  }

  /** The data handshakes on both sides, in terms of the output register. */
  lemma WHandshakes(c: Config, y: System, x: In)
    requires Held(c, y) && Polite(c, y.t, x)
    ensures var o := WOffer(c, y.s, x);
            && Beats(WHandovers(c, y.s, x, c.ports)) == Spill.Taken(!c.spillW, y.s.wQ, o.Some?, WBeat(o), x.wReady)
            && Observe(c, y.s, y.t, x).sentW == y.t.sentW + Spill.Sent(!c.spillW, y.s.wQ, o.Some?, WBeat(o), x.wReady)
  {
    AllWHandovers(c, y.s, x);
  }

  lemma DataConserved(c: Config, y: System, x: In)
    requires Held(c, y) && Polite(c, y.t, x) && y.t.sentW + y.s.wQ == Beats(y.t.taken)
    ensures var z := Cycle(c, y, x); z.t.sentW + z.s.wQ == Beats(z.t.taken)
  {
    var o := WOffer(c, y.s, x);
    WHandshakes(c, y, x);
    BeatsAppend(y.t.taken, WHandovers(c, y.s, x, c.ports));
    Spill.StreamConserved(!c.spillW, y.s.wQ, o.Some?, WBeat(o), x.wReady, y.t.sentW, Beats(y.t.taken));
  }

  lemma BeatsAppend(a: seq<(nat, W)>, b: seq<(nat, W)>)
    ensures Beats(a + b) == Beats(a) + Beats(b)
  {}

  /** The owner queue over one cycle: the bursts finished so far followed by the queue are the pushes. */
  lemma QueueFollowsBursts(c: Config, q: seq<nat>, push: bool, port: nat, moved: Option<(nat, W)>,
                           taken: seq<(nat, W)>, pushed: seq<nat>)
    requires c.depth >= 1 && (push ==> |q| < c.depth)
    requires pushed == Finished(taken) + q
    requires moved.Some? ==> !Fifo.IsEmpty(q, c.fallThrough, push) && moved.value.0 == (q + [port])[0]
    ensures pushed + (if push then [port] else []) ==
            Finished(taken + (if moved.Some? then [moved.value] else [])) +
            Fifo.Next(q, c.depth, c.fallThrough, push, port, moved.Some? && moved.value.1.last)
  {
    var q' := q + (if push then [port] else []);
    assert pushed + (if push then [port] else []) == Finished(taken) + q';
    if moved.Some? {
      assert (taken + [moved.value])[..|taken|] == taken;
      if moved.value.1.last {
        assert q' == [q'[0]] + q'[1..];
        assert Finished(taken) + q' == (Finished(taken) + [q'[0]]) + q'[1..];
      }
    } else {
      assert taken + [] == taken;
    }
  }

  lemma MoreOwners(taken: seq<(nat, W)>, owners: seq<nat>, more: seq<nat>)
    requires BurstsInOrder(taken, owners)
    ensures BurstsInOrder(taken, owners + more)
  {}

  /** One more beat, from the owner of the burst it belongs to. */
  lemma BurstsExtend(taken: seq<(nat, W)>, b: (nat, W), owners: seq<nat>)
    requires BurstsInOrder(taken, owners)
    requires |Finished(taken)| < |owners| && b.0 == owners[|Finished(taken)|]
    ensures BurstsInOrder(taken + [b], owners)
  {
    var t := taken + [b];
    forall k | 0 <= k < |t|
      ensures |Finished(t[..k])| < |owners| && t[k].0 == owners[|Finished(t[..k])|]
    {
      if k < |taken| {
        assert t[..k] == taken[..k];
      } else {
        assert t[..k] == taken;
      }
    }
  }

  lemma OwnersMatchBursts(c: Config, y: System, x: In)
    requires Held(c, y) && Polite(c, y.t, x)
    requires y.t.pushed == Finished(y.t.taken) + y.s.owners && BurstsInOrder(y.t.taken, y.t.pushed)
    ensures var z := Cycle(c, y, x);
            z.t.pushed == Finished(z.t.taken) + z.s.owners && BurstsInOrder(z.t.taken, z.t.pushed)
  {
    AllWHandovers(c, y.s, x);
    var ctl, port := AwCtl(c, y.s, x), PortOf(c, Chosen(c, y.s, x));
    QueueFollowsBursts(c, y.s.owners, ctl.push, port, WMoved(c, y.s, x), y.t.taken, y.t.pushed);
    BurstsGoOn(c, y, x);
  }

  /** The beat that moves belongs to the oldest unfinished push, the one of this cycle included. */
  lemma MovedBeatHasOldestOwner(c: Config, s: State, x: In, done: seq<nat>, pushed: seq<nat>)
    requires |Requests(c, s, x)| == |x.aw| >= 1 && |x.w| == |x.wValid|
    requires pushed == done + s.owners && WMoved(c, s, x).Some?
    ensures |done| < |pushed + PushNow(c, s, x)|
    ensures WMoved(c, s, x).value.0 == (pushed + PushNow(c, s, x))[|done|]
  {
    assert pushed + PushNow(c, s, x) == done + (s.owners + PushNow(c, s, x));
  }

  lemma BurstsGoOn(c: Config, y: System, x: In)
    requires Held(c, y) && Polite(c, y.t, x)
    requires y.t.pushed == Finished(y.t.taken) + y.s.owners && BurstsInOrder(y.t.taken, y.t.pushed)
    ensures var z := Cycle(c, y, x); BurstsInOrder(z.t.taken, z.t.pushed)
  {
    AllWHandovers(c, y.s, x);
    var push, m := PushNow(c, y.s, x), WMoved(c, y.s, x);
    MoreOwners(y.t.taken, y.t.pushed, push);
    if m.Some? {
      MovedBeatHasOldestOwner(c, y.s, x, Finished(y.t.taken), y.t.pushed);
      BurstsExtend(y.t.taken, m.value, y.t.pushed + push);
    } else {
      assert y.t.taken + [] == y.t.taken;
    }
  }

  // ------------------------------------------------------------------ every run

  lemma CycleKeepsInv(c: Config, y: System, x: In)
    requires Inv(c, y) && Polite(c, y.t, x)
    ensures Inv(c, Cycle(c, y, x))
  {
    LockedRequestsAreHeld(c, y, x);
    AddressesConserved(c, y, x);
    DataConserved(c, y, x);
    PushesMatchAddresses(c, y, x);
    OwnersMatchBursts(c, y, x);
  }

  /** `ys` is the run from reset under the inputs `xs`, all of them offered by polite ports. */
  ghost predicate IsRun(c: Config, xs: seq<In>, ys: seq<System>) {
    && WellFormed(c)
    && |ys| == |xs| + 1
    && ys[0] == Start(c)
    && (forall k {:trigger xs[k]} :: 0 <= k < |xs| ==> Shaped(c, ys[k], xs[k]))
    && (forall k :: 0 <= k < |xs| ==> Follows(c, xs, ys, k))
  }

  /** The sizes fit; part of `IsCycle`, and named so that outputs of a run can be spoken of. */
  predicate Shaped(c: Config, y: System, x: In) {
    |y.s.arb.req| == |x.awValid| == |x.aw| == |x.wValid| == |x.w| == c.ports >= 1 && c.depth >= 1
  }

  ghost predicate IsCycle(c: Config, y: System, x: In, z: System) {
    Shaped(c, y, x) && Polite(c, y.t, x) && z == Cycle(c, y, x)
  }

  ghost predicate Follows(c: Config, xs: seq<In>, ys: seq<System>, k: nat) {
    k < |xs| && k + 1 < |ys| && IsCycle(c, ys[k], xs[k], ys[k + 1])
  }

  lemma StartInv(c: Config)
    requires WellFormed(c)
    ensures Inv(c, Start(c))
  {}

  lemma NextKeepsInv(c: Config, y: System, x: In, z: System)
    requires Inv(c, y) && IsCycle(c, y, x, z)
    ensures Inv(c, z)
  {
    CycleKeepsInv(c, y, x);
  }

  lemma CycleOfRun(c: Config, xs: seq<In>, ys: seq<System>, k: nat, z: System)
    requires IsRun(c, xs, ys) && k < |xs| && z == ys[k + 1]
    ensures IsCycle(c, ys[k], xs[k], z)
  {
    assert Follows(c, xs, ys, k);
  }

  lemma {:induction false} RunKeepsInv(c: Config, xs: seq<In>, ys: seq<System>, n: nat)
    requires IsRun(c, xs, ys) && n < |ys|
    ensures Inv(c, ys[n])
  {
    if n == 0 {
      StartInv(c);
      assert ys[n] == Start(c);
    } else {
      assert n - 1 < |xs|;
      RunKeepsInv(c, xs, ys, n - 1);
      CycleOfRun(c, xs, ys, n - 1, ys[n]);
      NextKeepsInv(c, ys[n - 1], xs[n - 1], ys[n]);
    }
  }

  ghost predicate SomeOffer(x: In) {
    exists i :: 0 <= i < |x.awValid| && x.awValid[i]
  }

  lemma AskedMeansOffered(c: Config, y: System, x: In)
    requires Held(c, y) && Polite(c, y.t, x)
    ensures AwAsked(c, y.s, x) <==> SomeOffer(x)
    ensures y.s.lockAw ==> SomeOffer(x)
  {
    Arb.LiveRequests(ArbConfig(c), y.s.arb, ArbIn(c, y.s, x));
    Arb.ArbiterSpec(ArbConfig(c), Requests(c, y.s, x), y.s.arb.rr, true);
  }

  /** A port that offers an address is ready exactly when it is the one that hands over. */
  lemma AwReadyExactly(c: Config, y: System, x: In, i: nat)
    requires Inv(c, y) && Polite(c, y.t, x) && i < c.ports && x.awValid[i]
    ensures AwReadyAt(c, y.s, x, i) <==> AwHandovers(c, y.s, x, c.ports) == [(i, x.aw[i])]
  {
    AwHandoverIsChosen(c, y, x);
    AskedMeansOffered(c, y, x);
    Arb.ArbiterSpec(ArbConfig(c), Requests(c, y.s, x), y.s.arb.rr, AwCtl(c, y.s, x).ready);
  }

  lemma WReadyExactly(c: Config, y: System, x: In, i: nat)
    requires Inv(c, y) && Polite(c, y.t, x) && i < c.ports && x.wValid[i]
    ensures WReadyAt(c, y.s, x, i) <==> WHandovers(c, y.s, x, c.ports) == [(i, x.w[i])]
  {
    AllWHandovers(c, y.s, x);
  }

  /** What is asked of the ports: nothing but to repeat an offer that was not accepted. */
  lemma HeldExactly(c: Config, y: System, x: In, i: nat)
    requires Inv(c, y) && Polite(c, y.t, x) && i < c.ports
    ensures var t, aw, w := Cycle(c, y, x).t, AwHandovers(c, y.s, x, c.ports), WHandovers(c, y.s, x, c.ports);
            && |t.awHeld| == |t.wHeld| == c.ports
            && t.awHeld[i] == (if x.awValid[i] && aw != [(i, x.aw[i])] then Some(x.aw[i]) else None)
            && t.wHeld[i] == (if x.wValid[i] && w != [(i, x.w[i])] then Some(x.w[i]) else None)
  {
    if x.awValid[i] {
      AwReadyExactly(c, y, x, i);
    }
    if x.wValid[i] {
      WReadyExactly(c, y, x, i);
    }
  }

  /** Runs begin at reset, and whatever polite ports do next extends a run. */
  lemma RunsGoOn(c: Config, xs: seq<In>, ys: seq<System>, x: In)
    requires WellFormed(c)
    ensures IsRun(c, [], [Start(c)])
    ensures IsRun(c, xs, ys) && Polite(c, ys[|xs|].t, x) ==>
              Shaped(c, ys[|xs|], x) && IsRun(c, xs + [x], ys + [Cycle(c, ys[|xs|], x)])
  {
    if IsRun(c, xs, ys) && Polite(c, ys[|xs|].t, x) {
      RunKeepsInv(c, xs, ys, |xs|);
      ExtendRun(c, xs, ys, x, Cycle(c, ys[|xs|], x));
    }
  }

  lemma ExtendRun(c: Config, xs: seq<In>, ys: seq<System>, x: In, z: System)
    requires IsRun(c, xs, ys) && IsCycle(c, ys[|xs|], x, z)
    ensures IsRun(c, xs + [x], ys + [z])
  {
    var xs', ys' := xs + [x], ys + [z];
    forall k | 0 <= k < |xs'|
      ensures Follows(c, xs', ys', k) && Shaped(c, ys'[k], xs'[k])
    {
      if k < |xs| {
        assert Follows(c, xs, ys, k);
      }
    }
  }

  // ------------------------------------------------------------------ main results

  /**
   Write data follows address order: beat `k` taken from the ports, which comes after `b` finished
   bursts, comes from the port that made the b-th owner queue push; and the pushes are the ports of
   the accepted addresses, plus the one address that is waiting downstream exactly when the lock is set.
   */
  lemma WriteDataFollowsAddresses(c: Config, xs: seq<In>, ys: seq<System>, n: nat, k: nat)
    requires IsRun(c, xs, ys) && n < |ys| && k < |ys[n].t.taken|
    ensures |ys[n].s.arb.req| >= 1
    ensures var y, b := ys[n], |Finished(ys[n].t.taken[..k])|;
            && y.t.pushed == Ports(y.t.accepted) + Pending(y.s)
            && |y.t.pushed| == |y.t.accepted| + (if y.s.lockAw then 1 else 0)
            && b < |y.t.pushed|
            && y.t.taken[k].0 == y.t.pushed[b]
            && (b < |y.t.accepted| ==> y.t.taken[k].0 == y.t.accepted[b].0)
  {
    RunKeepsInv(c, xs, ys, n);
  }

  /**
   Nothing is lost, duplicated, reordered or altered: what was sent on the master port followed by
   what is stored are the very addresses and beats the ports handed over, one for one; and the owner
   queue never holds more than its depth.
   */
  lemma NothingLost(c: Config, xs: seq<In>, ys: seq<System>, n: nat)
    requires IsRun(c, xs, ys) && n < |ys|
    ensures var t, out := ys[n].t, ys[n].t.sent + ys[n].s.awQ;
            |out| == |t.accepted| &&
            forall k :: 0 <= k < |out| ==>
                          t.accepted[k].0 < c.ports && Delivers(c, t.accepted[k].0, t.accepted[k].1, out[k])
    ensures ys[n].t.sentW + ys[n].s.wQ == Beats(ys[n].t.taken)
    ensures |ys[n].s.owners| <= c.depth
    ensures ys[n].t.pushed == Finished(ys[n].t.taken) + ys[n].s.owners
  {
    RunKeepsInv(c, xs, ys, n);
    WidenedDelivers(c, ys[n].t.accepted);
  }

  lemma WidenedDelivers(c: Config, a: seq<(nat, Aw)>)
    requires FromPorts(c, a)
    ensures forall k :: 0 <= k < |a| ==> Delivers(c, a[k].0, a[k].1, Widened(c, a)[k])
  {
    forall k | 0 <= k < |a|
      ensures Delivers(c, a[k].0, a[k].1, Widened(c, a)[k])
    {
      WidenDelivers(c, a[k].0, a[k].1);
    }
  }

  function LastCount(w: seq<W>): nat {
    if w == [] then 0 else LastCount(w[..|w| - 1]) + (if w[|w| - 1].last then 1 else 0)
  }

  lemma {:induction false} LastsAreFinished(b: seq<(nat, W)>)
    ensures LastCount(Beats(b)) == |Finished(b)|
  {
    if b != [] {
      LastsAreFinished(b[..|b| - 1]);
      assert Beats(b)[..|b| - 1] == Beats(b[..|b| - 1]);
    }
  }

  /**
   Seen from the master port alone: the beat that follows `b` last-flagged beats was taken from the
   very port whose address is number `b` on the address channel. Bursts therefore never interleave.
   */
  lemma MasterPortOrder(c: Config, xs: seq<In>, ys: seq<System>, n: nat, k: nat)
    requires IsRun(c, xs, ys) && n < |ys| && k < |ys[n].t.sentW|
    requires LastCount(ys[n].t.sentW[..k]) < |ys[n].t.sent|
    ensures var t, b := ys[n].t, LastCount(ys[n].t.sentW[..k]);
            && k < |t.taken| && t.taken[k] == (PortOf(c, t.sent[b]), t.sentW[k])
            && b < |t.accepted| && t.accepted[b].0 == t.taken[k].0
  {
    RunKeepsInv(c, xs, ys, n);
    var t := ys[n].t;
    assert t.sentW[k] == (t.sentW + ys[n].s.wQ)[k] == Beats(t.taken)[k];
    assert t.sentW[..k] == Beats(t.taken)[..k] == Beats(t.taken[..k]);
    LastsAreFinished(t.taken[..k]);
    var b := LastCount(t.sentW[..k]);
    assert t.sent[b] == (t.sent + ys[n].s.awQ)[b] == Widened(c, t.accepted)[b];
    WidenedDelivers(c, t.accepted);
    WriteDataFollowsAddresses(c, xs, ys, n, k);
  }

  /** While an address waits the arbiter is locked on the requests that it saw. */
  lemma WaitingArbiter(c: Config, s: State, x: In)
    requires WellFormed(c) && Sized(c, x) && Ok(c, s) && AwCtl(c, s, x).lockNext
    ensures AwAsked(c, s, x)
    ensures Step(c, s, x).arb == Arb.Regs(s.arb.rr, true, Requests(c, s, x)) && Step(c, s, x).lockAw
  {
    OfferedIsAsked(c, s, x);
  }

  /** A port that still asks and was not granted offers the same address again. */
  lemma RefusedOfferStays(c: Config, y: System, x: In, x': In, i: nat)
    requires Held(c, y) && Polite(c, y.t, x) && Polite(c, Cycle(c, y, x).t, x') && i < c.ports
    requires Requests(c, y.s, x)[i] && !AwReadyAt(c, y.s, x, i)
    ensures x'.aw[i] == x.aw[i]
  {
    assert x.awValid[i];
    assert Cycle(c, y, x).t.awHeld[i] == Some(x.aw[i]);
  }

  /** The arbiter keeps its winner while the address waits, and the winner keeps its offer. */
  lemma WinnerIsStable(c: Config, y: System, x: In, x': In)
    requires Held(c, y) && Polite(c, y.t, x) && Polite(c, Cycle(c, y, x).t, x')
    requires AwCtl(c, y.s, x).lockNext
    ensures var s', i := Step(c, y.s, x), Arb.IdxOut(Requests(c, y.s, x), y.s.arb.rr);
            && i < c.ports && x'.aw[i] == x.aw[i]
            && Requests(c, s', x') == Requests(c, y.s, x) && s'.arb.rr == y.s.arb.rr && s'.lockAw
  {
    WaitingArbiter(c, y.s, x);
    ChosenPort(c, y.s, x);
    Arb.ArbiterSpec(ArbConfig(c), Requests(c, y.s, x), y.s.arb.rr, AwCtl(c, y.s, x).ready);
    RefusedOfferStays(c, y, x, x', Arb.IdxOut(Requests(c, y.s, x), y.s.arb.rr));
  }

  lemma ChosenIsStable(c: Config, y: System, x: In, x': In)
    requires Inv(c, y) && Polite(c, y.t, x) && Polite(c, Cycle(c, y, x).t, x')
    requires AwCtl(c, y.s, x).lockNext
    ensures var s' := Step(c, y.s, x); AwCtl(c, s', x').valid && Chosen(c, s', x') == Chosen(c, y.s, x)
  {
    StepKeepsOk(c, y.s, x);
    WinnerIsStable(c, y, x, x');
    OfferedIsAsked(c, y.s, x);
    ChosenPort(c, y.s, x);
    ChosenPort(c, Step(c, y.s, x), x');
  }

  lemma AddressStays(c: Config, y: System, x: In, z: System, x': In)
    requires Inv(c, y) && IsCycle(c, y, x, z) && Shaped(c, z, x') && Polite(c, z.t, x')
    requires AwOut(c, y.s, x).Some? && !x.awReady
    ensures AwOut(c, z.s, x') == AwOut(c, y.s, x)
  {
    if !c.spillAw {
      ChosenIsStable(c, y, x, x');
    }
    Spill.Stable(!c.spillAw, y.s.awQ, AwCtl(c, y.s, x).valid, Chosen(c, y.s, x),
                 AwCtl(c, z.s, x').valid, Chosen(c, z.s, x'));
  }

  /** An address on the master port stays there unchanged until it is accepted. */
  lemma AddressStable(c: Config, xs: seq<In>, ys: seq<System>, n: nat)
    requires IsRun(c, xs, ys) && n + 1 < |xs|
    requires AwOut(c, ys[n].s, xs[n]).Some? && !xs[n].awReady
    ensures AwOut(c, ys[n + 1].s, xs[n + 1]) == AwOut(c, ys[n].s, xs[n])
  {
    RunKeepsInv(c, xs, ys, n);
    CycleOfRun(c, xs, ys, n, ys[n + 1]);
    CycleOfRun(c, xs, ys, n + 1, ys[n + 2]);
    AddressStays(c, ys[n], xs[n], ys[n + 1], xs[n + 1]);
  }

  lemma OfferIsStable(c: Config, y: System, x: In, x': In)
    requires Inv(c, y) && Polite(c, y.t, x) && Polite(c, Cycle(c, y, x).t, x')
    requires WOffer(c, y.s, x).Some? && !WDown(c, y.s, x)
    ensures WOffer(c, Step(c, y.s, x), x') == WOffer(c, y.s, x)
  {
    OwnerInRange(c, y.s, x);
    var i := Owner(c, y.s, x).value;
    assert WMoved(c, y.s, x) == None;
    assert Step(c, y.s, x).owners ==
           Fifo.Next(y.s.owners, c.depth, c.fallThrough, AwCtl(c, y.s, x).push, PortOf(c, Chosen(c, y.s, x)), false);
    assert Owner(c, Step(c, y.s, x), x') == Some(i);
    assert Cycle(c, y, x).t.wHeld[i] == Some(x.w[i]);
  }

  lemma DataStays(c: Config, y: System, x: In, z: System, x': In)
    requires Inv(c, y) && IsCycle(c, y, x, z) && Shaped(c, z, x') && Polite(c, z.t, x')
    requires WOut(c, y.s, x).Some? && !x.wReady
    ensures WOut(c, z.s, x') == WOut(c, y.s, x)
  {
    if !c.spillW {
      OfferIsStable(c, y, x, x');
    }
    var o, o' := WOffer(c, y.s, x), WOffer(c, z.s, x');
    Spill.Stable(!c.spillW, y.s.wQ, o.Some?, WBeat(o), o'.Some?, WBeat(o'));
  }

  /** A data beat on the master port stays there unchanged until it is accepted. */
  lemma DataStable(c: Config, xs: seq<In>, ys: seq<System>, n: nat)
    requires IsRun(c, xs, ys) && n + 1 < |xs|
    requires WOut(c, ys[n].s, xs[n]).Some? && !xs[n].wReady
    ensures WOut(c, ys[n + 1].s, xs[n + 1]) == WOut(c, ys[n].s, xs[n])
  {
    RunKeepsInv(c, xs, ys, n);
    CycleOfRun(c, xs, ys, n, ys[n + 1]);
    CycleOfRun(c, xs, ys, n + 1, ys[n + 2]);
    DataStays(c, ys[n], xs[n], ys[n + 1], xs[n + 1]);
  }

  /** The addresses accepted so far are never revised. */
  lemma {:induction false} AcceptedGrows(c: Config, xs: seq<In>, ys: seq<System>, n: nat, m: nat)
    requires IsRun(c, xs, ys) && n <= m < |ys|
    ensures ys[n].t.accepted <= ys[m].t.accepted
    decreases m - n
  {
    if n < m {
      AcceptedGrows(c, xs, ys, n, m - 1);
      NextGrows(c, xs, ys, m - 1, ys[m].t.accepted);
    }
  }

  lemma NextGrows(c: Config, xs: seq<In>, ys: seq<System>, k: nat, later: seq<(nat, Aw)>)
    requires IsRun(c, xs, ys) && k < |xs| && later == ys[k + 1].t.accepted
    ensures ys[k].t.accepted <= later
  {
    CycleOfRun(c, xs, ys, k, ys[k + 1]);
    CycleGrows(c, ys[k], xs[k], ys[k + 1]);
  }

  lemma CycleGrows(c: Config, y: System, x: In, z: System)
    requires IsCycle(c, y, x, z)
    ensures y.t.accepted <= z.t.accepted
  {}

  /** One cycle of a port that offers an address: it is accepted now, or is still offered next. */
  lemma OfferedCycle(c: Config, y: System, x: In, i: nat)
    requires Inv(c, y) && Polite(c, y.t, x) && i < c.ports && x.awValid[i]
    requires Ok(c, Step(c, y.s, x))
    ensures var z, a := Cycle(c, y, x), ArbConfig(c);
            var h := Arb.Handshake(a, y.s.arb, ArbIn(c, y.s, x));
            && |z.t.accepted| == |y.t.accepted| + (if h then 1 else 0)
            && (AwReadyAt(c, y.s, x, i) ==> z.t.accepted == y.t.accepted + [(i, x.aw[i])])
            && (!AwReadyAt(c, y.s, x, i) ==>
                  Arb.Patience(a, z.s.arb, i) + (if h then 1 else 0) <= Arb.Patience(a, y.s.arb, i))
  {
    var a, ai := ArbConfig(c), ArbIn(c, y.s, x);
    AwHandoverIsChosen(c, y, x);
    Arb.ArbiterSpec(a, Requests(c, y.s, x), y.s.arb.rr, ai.gnt);
    if ai.gnt {
      OfferedIsAsked(c, y.s, x);
      ChosenPort(c, y.s, x);
    }
    if !AwReadyAt(c, y.s, x, i) {
      Arb.WaitingStep(a, y.s.arb, ai, i);
    }
  }

  /** How many acceptances port `i` may have to wait for, its own included. */
  function Waits(c: Config, s: State, i: nat): (b: nat)
    requires c.ports >= 1
    ensures 1 <= b <= c.ports + 1
    ensures i < |s.arb.req| && !Arb.Hidden(ArbConfig(c), s.arb, i) ==> b <= c.ports
  {
    if s.arb.rr < c.ports && i < c.ports && i < |s.arb.req| then Arb.Patience(ArbConfig(c), s.arb, i) else 1
  }

  /** The same cycle, when `a` is offered: `a` is accepted now, or the port still holds it. */
  lemma OfferedNext(c: Config, y: System, x: In, z: System, i: nat, a: Aw) returns (now: bool)
    requires Inv(c, y) && IsCycle(c, y, x, z) && i < c.ports && x.awValid[i] && x.aw[i] == a
    ensures if now then z.t.accepted == y.t.accepted + [(i, a)]
            else && i < |z.t.awHeld| && z.t.awHeld[i] == Some(a)
                 && |y.t.accepted| <= |z.t.accepted|
                 && |z.t.accepted| + Waits(c, z.s, i) <= |y.t.accepted| + Waits(c, y.s, i)
  {
    StepKeepsOk(c, y.s, x);
    OfferedCycle(c, y, x, i);
    now := AwReadyAt(c, y.s, x, i);
  }

  /** Is `a` one of the `bound` addresses after the first `from` ones? */
  ghost predicate Among(all: seq<(nat, Aw)>, from: nat, bound: nat, a: (nat, Aw)) {
    exists j :: from <= j < |all| && j < from + bound && all[j] == a
  }

  /** Does port `i` offer address `a` in cycle `n`? */
  predicate Offers(xs: seq<In>, n: nat, i: nat, a: Aw) {
    n < |xs| && i < |xs[n].awValid| && i < |xs[n].aw| && xs[n].awValid[i] && xs[n].aw[i] == a
  }

  /** An offered address is accepted next, or offered again with no less certainty. */
  lemma AcceptedOrOffered(c: Config, xs: seq<In>, ys: seq<System>, n: nat, i: nat, a: Aw) returns (now: bool)
    requires IsRun(c, xs, ys) && i < c.ports && Offers(xs, n, i, a)
    ensures var p, q := ys[n].t.accepted, ys[n + 1].t.accepted;
            if now then q == p + [(i, a)]
            else (n + 1 < |xs| ==> Offers(xs, n + 1, i, a)) && |p| <= |q|
                 && |q| + Waits(c, ys[n + 1].s, i) <= |p| + Waits(c, ys[n].s, i)
  {
    RunKeepsInv(c, xs, ys, n);
    CycleOfRun(c, xs, ys, n, ys[n + 1]);
    now := OfferedNext(c, ys[n], xs[n], ys[n + 1], i, a);
    if !now && n + 1 < |xs| {
      HeldIsOffered(c, xs, ys, n + 1, i, a);
    }
  }

  lemma HeldIsOffered(c: Config, xs: seq<In>, ys: seq<System>, n: nat, i: nat, a: Aw)
    requires IsRun(c, xs, ys) && n < |xs| && i < c.ports
    requires i < |ys[n].t.awHeld| && ys[n].t.awHeld[i] == Some(a)
    ensures Offers(xs, n, i, a)
  {
    CycleOfRun(c, xs, ys, n, ys[n + 1]);
  }

  /**
   No port starves: an address offered in cycle `n` is among the next `ports + 1` addresses
   accepted after it, and among the next `ports` ones unless an earlier decision is still locked.
   */
  lemma {:induction false} EveryPortIsServed(
    c: Config, xs: seq<In>, ys: seq<System>, n: nat, m: nat, i: nat, a: Aw)
    requires IsRun(c, xs, ys) && n < m < |ys| && i < c.ports && Offers(xs, n, i, a)
    requires |ys[m].t.accepted| >= |ys[n].t.accepted| + Waits(c, ys[n].s, i)
    ensures Among(ys[m].t.accepted, |ys[n].t.accepted|, Waits(c, ys[n].s, i), (i, a))
    decreases m - n
  {
    var now := AcceptedOrOffered(c, xs, ys, n, i, a);
    AcceptedGrows(c, xs, ys, n + 1, m);
    if now {
      assert ys[m].t.accepted[|ys[n].t.accepted|] == (i, a);
    } else {
      assert n + 1 < m;
      EveryPortIsServed(c, xs, ys, n + 1, m, i, a);
    }
  }

  // ------------------------------------------------------------------ progress of one cycle

  /** Room for one more element behind the inner channel: in the output register, or on the master port. */
  predicate Room(spill: bool, stored: nat, ready: bool) {
    if spill then stored < 2 else ready
  }

  /** The port whose data is due: the oldest owner or, with fall-through, the one pushed to an empty queue. */
  function Due(c: Config, s: State, x: In): seq<nat>
    requires |Requests(c, s, x)| == |x.aw| >= 1
  {
    s.owners + (if c.fallThrough then PushNow(c, s, x) else [])
  }

  /** The beat that port offers, if any. */
  function DueBeat(x: In, due: seq<nat>): Option<(nat, W)> {
    if due != [] && due[0] < |x.wValid| && due[0] < |x.w| && x.wValid[due[0]]
    then Some((due[0], x.w[due[0]])) else None
  }

  /**
   An address is accepted in exactly those cycles in which there is room behind the channel and either
   one is waiting or some port offers one and the owner queue has a free place. An owner is pushed in
   exactly those cycles in which none is waiting, some port offers, and there is such a place.
   */
  lemma AddressProgress(c: Config, y: System, x: In)
    requires Inv(c, y) && Polite(c, y.t, x)
    ensures var s := y.s;
            var offered := s.lockAw || (|s.owners| < c.depth && SomeOffer(x));
            var room := Room(c.spillAw, |s.awQ|, x.awReady);
            && |AwHandovers(c, s, x, c.ports)| == (if offered && room then 1 else 0)
            && |PushNow(c, s, x)| == (if offered && !s.lockAw then 1 else 0)
            && (Step(c, s, x).lockAw <==> offered && !room)
            && (s.lockAw ==> SomeOffer(x))
  {
    AskedMeansOffered(c, y, x);
    AwHandoverIsChosen(c, y, x);
  }

  /**
   A data beat is taken in exactly those cycles in which there is room and the port whose burst is
   due offers one: the head of the owner queue or, with fall-through, the owner pushed to an empty one.
   */
  lemma DataProgress(c: Config, y: System, x: In)
    requires Inv(c, y) && Polite(c, y.t, x)
    ensures var s, due := y.s, Due(c, y.s, x);
            && (due != [] ==> due[0] < c.ports)
            && WHandovers(c, s, x, c.ports) ==
               if DueBeat(x, due).Some? && Room(c.spillW, |s.wQ|, x.wReady) then [DueBeat(x, due).value] else []
  {
    OwnerIsDue(c, y.s, x);
    AllWHandovers(c, y.s, x);
  }

  lemma OwnerIsDue(c: Config, s: State, x: In)
    requires WellFormed(c) && Sized(c, x) && Ok(c, s)
    ensures var due := Due(c, s, x);
            && (due != [] ==> due[0] < c.ports)
            && WOffer(c, s, x) == DueBeat(x, due)
  {
    OwnerInRange(c, s, x);
  }

  /** What the master port shows and sends: the oldest stored element, or what is handed over now. */
  lemma MasterProgress(c: Config, y: System, x: In)
    requires Inv(c, y) && Polite(c, y.t, x)
    ensures var s, z := y.s, Cycle(c, y, x);
            && (c.spillAw ==> AwOut(c, s, x) == if s.awQ == [] then None else Some(s.awQ[0]))
            && (c.spillW ==> WOut(c, s, x) == if s.wQ == [] then None else Some(s.wQ[0]))
            && z.t.sent == y.t.sent + (if !c.spillAw then Widened(c, AwHandovers(c, s, x, c.ports))
                                       else if s.awQ != [] && x.awReady then [s.awQ[0]] else [])
            && z.t.sentW == y.t.sentW + (if !c.spillW then Beats(WHandovers(c, s, x, c.ports))
                                         else if s.wQ != [] && x.wReady then [s.wQ[0]] else [])
  {
    AwHandshakes(c, y, x);
    WHandshakes(c, y, x);
  }

  /** Without an output register the master port shows an address just when one is waiting or offered. */
  lemma WireProgress(c: Config, y: System, x: In)
    requires Inv(c, y) && Polite(c, y.t, x)
    ensures !c.spillAw ==>
              (AwOut(c, y.s, x).Some? <==> y.s.lockAw || (|y.s.owners| < c.depth && SomeOffer(x)))
    ensures !c.spillW ==>
              var beat := DueBeat(x, Due(c, y.s, x));
              WOut(c, y.s, x) == if beat.Some? then Some(beat.value.1) else None
  {
    AskedMeansOffered(c, y, x);
    OwnerIsDue(c, y.s, x);
  }

  /**
   The ports take turns fairly: an acceptance goes to the port with the priority if it asks, and hands
   the priority to the asking port that comes next in cyclic order; otherwise the priority stays.
   */
  lemma FairTurn(c: Config, y: System, x: In)
    requires Inv(c, y) && Polite(c, y.t, x)
    ensures var s, req, handed := y.s, Requests(c, y.s, x), AwHandovers(c, y.s, x, c.ports);
            var t := Step(c, s, x);
            && s.arb.rr < |req| == c.ports
            && (handed == [] ==> t.arb.rr == s.arb.rr)
            && (handed != [] ==> Arb.ComesNext(req, s.arb.rr, t.arb.rr))
            && (handed != [] && req[s.arb.rr] ==> handed[0].0 == s.arb.rr)
  {
    var a, ai := ArbConfig(c), ArbIn(c, y.s, x);
    AwHandoverIsChosen(c, y, x);
    AskedMeansOffered(c, y, x);
    Arb.ArbiterSpec(a, Requests(c, y.s, x), y.s.arb.rr, ai.gnt);
    Arb.RotationStep(a, y.s.arb, ai);
  }
}
