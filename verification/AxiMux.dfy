/**
 The write side of `axi_mux.sv` for two or more ports: address arbitration with the lock that
 lets the owner queue be written before the address is accepted, routing of write data by the
 owner queue, and the optional output registers. The clocked class is built from the register-level
 arbiter, ring buffer and spill registers; its step is stated on the queues they implement.
 */
module AxiMux {
  import opened Bits
  import opened AxiIdPrepend
  import Arb = RrArbTree
  import Fifo
  import Spill = SpillRegister

  /** An address beat: the identifier, and all other fields as one number. */
  datatype Aw = Aw(id: nat, body: nat)

  /** A write data beat: the `last` flag, and all other fields as one number. */
  datatype W = W(last: bool, body: nat)

  datatype Option<+T> = None | Some(value: T)

  datatype Config = Config(ports: nat, idWidth: nat, depth: nat, fallThrough: bool, spillAw: bool, spillW: bool)

  ghost predicate WellFormed(c: Config) {
    c.ports >= 2 && 1 <= c.depth < W32
  }

  function ArbConfig(c: Config): Arb.Config {
    Arb.Config(c.ports, true, true, true)
  }

  datatype State = State(arb: Arb.Regs, lockAw: bool, owners: seq<nat>, awQ: seq<Aw>, wQ: seq<W>)

  /** One cycle of inputs: the address and data offers of every port, and the downstream readies. */
  datatype In = In(awValid: seq<bool>, aw: seq<Aw>, wValid: seq<bool>, w: seq<W>, awReady: bool, wReady: bool)

  ghost predicate Sized(c: Config, x: In) {
    |x.awValid| == |x.aw| == |x.wValid| == |x.w| == c.ports
  }

  function PortOf(c: Config, a: Aw): nat {
    Prefix(c.idWidth, CeilLog2(if c.ports > 0 then c.ports else 1), a.id)
  }

  // ------------------------------------------------------------------ one cycle

  function Widen(c: Config, i: nat, a: Aw): Aw {
    Aw(Prepend(c.idWidth, i, a.id), a.body)
  }

  function WidenAll(c: Config, x: In): seq<Aw> {
    seq(|x.aw|, i requires 0 <= i < |x.aw| => Widen(c, i, x.aw[i]))
  }

  function Requests(c: Config, s: State, x: In): seq<bool> {
    Arb.Visible(ArbConfig(c), s.arb, x.awValid)
  }

  predicate AwAsked(c: Config, s: State, x: In)
    requires |Requests(c, s, x)| >= 1
  {
    Arb.ReqOut(Requests(c, s, x), s.arb.rr)
  }

  /** `mst_aw_chan`. */
  function Chosen(c: Config, s: State, x: In): Aw
    requires |Requests(c, s, x)| == |x.aw| >= 1
  {
    Arb.DataOut(Requests(c, s, x), WidenAll(c, x), Aw(0, 0), s.arb.rr)
  }

  /** The outcome of the address control block. */
  datatype AwControl = AwControl(valid: bool, push: bool, ready: bool, lockNext: bool)

  function Control(lock: bool, full: bool, asked: bool, down: bool): AwControl {
    if lock then AwControl(true, false, down, !down)
    else if !full && asked then AwControl(true, true, down, !down)
    else AwControl(false, false, false, false)
  }

  function AwCtl(c: Config, s: State, x: In): AwControl
    requires |Requests(c, s, x)| >= 1
  {
    Control(s.lockAw, |s.owners| == c.depth, AwAsked(c, s, x), Spill.Ready(!c.spillAw, s.awQ, x.awReady))
  }

  /** The port whose data is routed in this cycle, if any. */
  function Owner(c: Config, s: State, x: In): Option<nat>
    requires |Requests(c, s, x)| == |x.aw| >= 1
  {
    if Fifo.IsEmpty(s.owners, c.fallThrough, AwCtl(c, s, x).push) then None
    else Some((s.owners + [PortOf(c, Chosen(c, s, x))])[0])
  }

  predicate WDown(c: Config, s: State, x: In) {
    Spill.Ready(!c.spillW, s.wQ, x.wReady)
  }

  /** The data beat on the inner W channel, with the port it comes from, if one is valid. */
  function WOffer(c: Config, s: State, x: In): Option<(nat, W)>
    requires |Requests(c, s, x)| == |x.aw| >= 1 && |x.w| == |x.wValid|
  {
    var o := Owner(c, s, x);
    if o.Some? && o.value < |x.w| && x.wValid[o.value] then Some((o.value, x.w[o.value])) else None
  }

  function ArbIn(c: Config, s: State, x: In): Arb.In
    requires |Requests(c, s, x)| >= 1
  {
    Arb.In(x.awValid, AwCtl(c, s, x).ready, false)
  }

  /** `slv_aw_readies[i]` and `slv_w_readies[i]`. */
  predicate AwReadyAt(c: Config, s: State, x: In, i: nat)
    requires |x.awValid| == |s.arb.req| == c.ports && i < c.ports
  {
    Arb.Granted(ArbConfig(c), s.arb, ArbIn(c, s, x), i)
  }

  predicate WReadyAt(c: Config, s: State, x: In, i: nat)
    requires |Requests(c, s, x)| == |x.aw| >= 1
  {
    Owner(c, s, x) == Some(i) && WDown(c, s, x)
  }

  /** The beat crossing the inner W channel, if any. */
  function WMoved(c: Config, s: State, x: In): Option<(nat, W)>
    requires |Requests(c, s, x)| == |x.aw| >= 1 && |x.w| == |x.wValid|
  {
    if WDown(c, s, x) then WOffer(c, s, x) else None
  }

  function WBeat(o: Option<(nat, W)>): W {
    if o.Some? then o.value.1 else W(false, 0)
  }

  function Init(c: Config): State {
    State(Arb.Reset(ArbConfig(c)), false, [], [], [])
  }

  function Step(c: Config, s: State, x: In): State
    requires |x.awValid| == |s.arb.req| == |x.aw| == c.ports >= 1 && |x.w| == |x.wValid| && c.depth >= 1
  {
    var ctl, chan, wOffer, moved := AwCtl(c, s, x), Chosen(c, s, x), WOffer(c, s, x), WMoved(c, s, x);
    State(Arb.Step(ArbConfig(c), s.arb, ArbIn(c, s, x)),
          ctl.lockNext,
          Fifo.Next(s.owners, c.depth, c.fallThrough, ctl.push, PortOf(c, chan), moved.Some? && moved.value.1.last),
          Spill.Next(!c.spillAw, s.awQ, ctl.valid, chan, x.awReady),
          Spill.Next(!c.spillW, s.wQ, wOffer.Some?, WBeat(wOffer), x.wReady))
  }

  /** The address and the data beat on the master port in this cycle. */
  function AwOut(c: Config, s: State, x: In): Option<Aw>
    requires |Requests(c, s, x)| == |x.aw| >= 1
  {
    var ctl, chan := AwCtl(c, s, x), Chosen(c, s, x);
    if Spill.ValidOut(!c.spillAw, s.awQ, ctl.valid) then Some(Spill.DataOut(!c.spillAw, s.awQ, chan)) else None
  }

  function WOut(c: Config, s: State, x: In): Option<W>
    requires |Requests(c, s, x)| == |x.aw| >= 1 && |x.w| == |x.wValid|
  {
    var o := WOffer(c, s, x);
    if Spill.ValidOut(!c.spillW, s.wQ, o.Some?) then Some(Spill.DataOut(!c.spillW, s.wQ, WBeat(o))) else None
  }

  // ------------------------------------------------------------------ state invariant

  /** What every reachable state satisfies, whatever the ports do. */
  ghost predicate Ok(c: Config, s: State) {
    && Arb.Valid(ArbConfig(c), s.arb)
    && (s.lockAw ==> s.arb.lock)
    && |s.owners| <= c.depth
    && (forall k :: 0 <= k < |s.owners| ==> s.owners[k] < c.ports)
    && (!c.spillAw ==> s.awQ == [])
    && (!c.spillW ==> s.wQ == [])
  }

  /**
   `out` is the offer of port `p` on the master side: every field but the identifier unchanged, the
   port's own identifier in the low bits, the port above it, and nothing above that.
   */
  predicate Delivers(c: Config, p: nat, offer: Aw, out: Aw) {
    && out.body == offer.body
    && Strip(c.idWidth, out.id) == offer.id % Pow2(c.idWidth)
    && PortOf(c, out) == p
    && out.id == p * Pow2(c.idWidth) + offer.id % Pow2(c.idWidth)
  }

  lemma WidenDelivers(c: Config, p: nat, offer: Aw)
    requires p < c.ports
    ensures Delivers(c, p, offer, Widen(c, p, offer))
  {
    PrependRoundTrip(c.idWidth, c.ports, p, offer.id);
  }

  /** Whenever an address is offered downstream it is the widened offer of the winning port. */
  lemma ChosenPort(c: Config, s: State, x: In)
    requires WellFormed(c) && Sized(c, x) && Ok(c, s)
    requires AwAsked(c, s, x)
    ensures var i := Arb.IdxOut(Requests(c, s, x), s.arb.rr);
            && i < c.ports && Requests(c, s, x)[i]
            && Chosen(c, s, x) == Widen(c, i, x.aw[i]) && PortOf(c, Chosen(c, s, x)) == i
            && Delivers(c, i, x.aw[i], Chosen(c, s, x))
  {
    var req := Requests(c, s, x);
    Arb.ArbiterSpec(ArbConfig(c), req, s.arb.rr, true);
    Arb.DataOutIsWinners(req, WidenAll(c, x), Aw(0, 0), s.arb.rr);
    var i := Arb.IdxOut(req, s.arb.rr);
    WidenDelivers(c, i, x.aw[i]);
  }

  /** A locked address is still requesting; so an address is only ever offered by a requester. */
  lemma OfferedIsAsked(c: Config, s: State, x: In)
    requires WellFormed(c) && Sized(c, x) && Ok(c, s)
    requires AwCtl(c, s, x).valid
    ensures AwAsked(c, s, x)
  {
    Arb.ArbiterSpec(ArbConfig(c), Requests(c, s, x), s.arb.rr, true);
  }

  lemma OwnerInRange(c: Config, s: State, x: In)
    requires WellFormed(c) && Sized(c, x) && Ok(c, s)
    ensures Owner(c, s, x).Some? ==> Owner(c, s, x).value < c.ports
  {
    if AwCtl(c, s, x).push {
      ChosenPort(c, s, x);
    }
  }

  lemma OwnersStayInRange(c: Config, q: seq<nat>, push: bool, port: nat, pop: bool)
    requires c.depth >= 1 && |q| <= c.depth && (push ==> port < c.ports)
    requires forall k :: 0 <= k < |q| ==> q[k] < c.ports
    ensures var q' := Fifo.Next(q, c.depth, c.fallThrough, push, port, pop);
            |q'| <= c.depth && forall k :: 0 <= k < |q'| ==> q'[k] < c.ports
  {}

  lemma ArbiterKeepsLock(c: Config, s: State, x: In)
    requires WellFormed(c) && Sized(c, x) && Ok(c, s)
    ensures var t := Arb.Step(ArbConfig(c), s.arb, ArbIn(c, s, x));
            Arb.Valid(ArbConfig(c), t) && (AwCtl(c, s, x).lockNext ==> t.lock)
  {
    Arb.StepKeepsValid(ArbConfig(c), s.arb, ArbIn(c, s, x));
    if AwCtl(c, s, x).valid {
      OfferedIsAsked(c, s, x);
    }
  }

  lemma StepKeepsOk(c: Config, s: State, x: In)
    requires WellFormed(c) && Sized(c, x) && Ok(c, s)
    ensures Ok(c, Step(c, s, x))
  {
    ArbiterKeepsLock(c, s, x);
    var push, port := AwCtl(c, s, x).push, PortOf(c, Chosen(c, s, x));
    if push {
      ChosenPort(c, s, x);
    }
    var moved := WMoved(c, s, x);
    OwnersStayInRange(c, s.owners, push, port, moved.Some? && moved.value.1.last);
  }

  // ------------------------------------------------------------------ the clocked module

  datatype Out = Out(awReadies: seq<bool>, wReadies: seq<bool>, aw: Option<Aw>, w: Option<W>)

  function AwReadies(c: Config, s: State, x: In): seq<bool>
    requires |x.awValid| == |s.arb.req| == c.ports >= 1
  {
    seq(c.ports, i requires 0 <= i < c.ports => AwReadyAt(c, s, x, i))
  }

  function WReadies(c: Config, s: State, x: In): seq<bool>
    requires |Requests(c, s, x)| == |x.aw| >= 1
  {
    seq(c.ports, i requires 0 <= i < c.ports => WReadyAt(c, s, x, i))
  }

  function Outputs(c: Config, s: State, x: In): Out
    requires |x.awValid| == |s.arb.req| == |x.aw| == c.ports >= 1 && |x.w| == |x.wValid|
  {
    Out(AwReadies(c, s, x), WReadies(c, s, x), AwOut(c, s, x), WOut(c, s, x))
  }

  class Mux {
    const c: Config
    const arb: Arb.Arbiter
    const fifo: Fifo.Fifo<nat>
    const awSpill: Spill.SpillRegister<Aw>
    const wSpill: Spill.SpillRegister<W>
    var lockAw: bool

    /** The parts are configured alike and each holds its own invariant. */
    ghost predicate Parts()
      reads this, arb, fifo, fifo.mem, awSpill, wSpill
    {
      && WellFormed(c)
      && awSpill as object != wSpill as object
      && arb.c == ArbConfig(c)
      && fifo.depth == c.depth && fifo.fallThrough == c.fallThrough && fifo.Valid()
      && awSpill.bypass == !c.spillAw && awSpill.Valid()
      && wSpill.bypass == !c.spillW && wSpill.Valid()
    }

    ghost function Abs(): State
      requires Parts()
      reads this, arb, fifo, fifo.mem, awSpill, wSpill
    {
      State(arb.State(), lockAw, fifo.Contents(), awSpill.Contents(), wSpill.Contents())
    }

    ghost predicate Valid()
      reads this, arb, fifo, fifo.mem, awSpill, wSpill
    {
      Parts() && Ok(c, Abs())
    }

    constructor (c: Config)
      requires WellFormed(c)
      ensures this.c == c && Valid() && Abs() == Init(c)
      ensures fresh(arb) && fresh(fifo) && fresh(fifo.mem) && fresh(awSpill) && fresh(wSpill)
    {
      this.c := c;
      arb := new Arb.Arbiter(ArbConfig(c));
      fifo := new Fifo.Fifo<nat>(c.depth, c.fallThrough);
      awSpill := new Spill.SpillRegister<Aw>(!c.spillAw);
      wSpill := new Spill.SpillRegister<W>(!c.spillW);
      lockAw := false;
    }

    /** The control block of the address channel. */
    method AwChannel(x: In) returns (ctl: AwControl, chan: Aw)
      requires Valid() && Sized(c, x)
      ensures ctl == AwCtl(c, Abs(), x) && chan == Chosen(c, Abs(), x)
    {
      var req := Arb.Visible(arb.c, arb.State(), x.awValid);
      var asked := Arb.ReqOut(req, arb.rr);
      chan := Arb.DataOut(req, WidenAll(c, x), Aw(0, 0), arb.rr);
      var mstAwReady := awSpill.ReadyOut(x.awReady);
      var lockNext, push, mstAwValid, awReady := lockAw, false, false, false;
      if lockAw {
        mstAwValid := true;
        if mstAwReady {
          awReady, lockNext := true, false;
        }
      } else if !fifo.Full() && asked {
        mstAwValid, push := true, true;
        if mstAwReady {
          awReady := true;
        } else {
          lockNext := true;
        }
      }
      ctl := AwControl(mstAwValid, push, awReady, lockNext);
    }

    /** The multiplexer and handshake of the data channel. */
    method WChannel(x: In, push: bool, port: nat, ghost s: State)
      returns (offer: Option<(nat, W)>, readies: seq<bool>, pop: bool)
      requires Valid() && Sized(c, x) && s == Abs()
      requires push == AwCtl(c, s, x).push && port == PortOf(c, Chosen(c, s, x))
      ensures offer == WOffer(c, s, x) && readies == WReadies(c, s, x)
      ensures pop == (WMoved(c, s, x).Some? && WMoved(c, s, x).value.1.last)
    {
      var empty, owner := fifo.Empty(push), fifo.DataOut(push, port);
      assert Owner(c, s, x) == if empty then None else Some(owner);
      OwnerInRange(c, s, x);
      var mstWReady := wSpill.ReadyOut(x.wReady);
      readies := seq(c.ports, i => false);
      offer, pop := None, false;
      if !empty {
        if x.wValid[owner] {
          offer := Some((owner, x.w[owner]));
        }
        readies := readies[owner := mstWReady];
        pop := x.wValid[owner] && mstWReady && x.w[owner].last;
      }
    }

    /** All combinational signals of one cycle. */
    method Sample(x: In, ghost s: State)
      returns (ctl: AwControl, chan: Aw, offer: Option<(nat, W)>, pop: bool, out: Out)
      requires Valid() && Sized(c, x) && s == Abs()
      ensures ctl == AwCtl(c, s, x) && chan == Chosen(c, s, x) && offer == WOffer(c, s, x)
      ensures pop == (WMoved(c, s, x).Some? && WMoved(c, s, x).value.1.last)
      ensures out == Outputs(c, s, x)
    {
      ctl, chan := AwChannel(x);
      var wReadies;
      offer, wReadies, pop := WChannel(x, ctl.push, PortOf(c, chan), s);
      var req := Arb.Visible(arb.c, arb.State(), x.awValid);
      var rr := arb.rr;
      var awReadies := seq(c.ports, i requires 0 <= i < c.ports => Arb.GrantOut(arb.c, req, rr, ctl.ready, i));
      assert awReadies == AwReadies(c, s, x);
      out := Out(awReadies, wReadies,
                 if awSpill.ValidO(ctl.valid) then Some(awSpill.DataO(ctl.valid, chan)) else None,
                 if wSpill.ValidO(offer.Some?) then Some(wSpill.DataO(offer.Some?, WBeat(offer))) else None);
    }

    /** The register updates of all parts, for given combinational signals. */
    method Clock(x: In, ctl: AwControl, chan: Aw, wValid: bool, beat: W, pop: bool)
      requires Valid() && |x.awValid| == c.ports
      modifies this, arb, fifo, fifo.mem, awSpill, wSpill
      ensures Parts() && lockAw == ctl.lockNext
      ensures arb.State() == Arb.Step(arb.c, old(arb.State()), Arb.In(x.awValid, ctl.ready, false))
      ensures fifo.Contents() ==
              Fifo.Next(old(fifo.Contents()), c.depth, c.fallThrough, ctl.push, PortOf(c, chan), pop)
      ensures awSpill.Contents() == Spill.Next(!c.spillAw, old(awSpill.Contents()), ctl.valid, chan, x.awReady)
      ensures wSpill.Contents() == Spill.Next(!c.spillW, old(wSpill.Contents()), wValid, beat, x.wReady)
    {
      arb.Tick(Arb.In(x.awValid, ctl.ready, false));
      fifo.Tick(ctl.push, PortOf(c, chan), pop, false);
      awSpill.Tick(ctl.valid, chan, x.awReady);
      wSpill.Tick(wValid, beat, x.wReady);
      lockAw := ctl.lockNext;
    }

    /** One rising edge, with the outputs that were visible before it. */
    method Tick(x: In) returns (out: Out)
      requires Valid() && Sized(c, x)
      modifies this, arb, fifo, fifo.mem, awSpill, wSpill
      ensures Valid()
      ensures Abs() == Step(c, old(Abs()), x)
      ensures out == Outputs(c, old(Abs()), x)
    {
      ghost var s := Abs();
      var ctl, chan, offer, pop;
      ctl, chan, offer, pop, out := Sample(x, s);
      StepKeepsOk(c, s, x);
      Clock(x, ctl, chan, offer.Some?, WBeat(offer), pop);
      assert Abs() == Step(c, s, x);
    }
  }
}
