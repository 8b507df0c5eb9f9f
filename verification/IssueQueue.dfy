/**
 The issue queue of `IssueUnit_2.sv`: a ring of eight entries with up to two entering and two leaving
 per cycle, proved to be a program-order queue, and the pairing rules of the two issue ways. The
 wake-up logic is an arbitrary answer that can only say yes when it is asked.
 */
module IssueQueue {

  const LENGTH := 8

  /** An instruction as far as issue looks at it; the rest is one number. */
  datatype Instr = Instr(valid: bool, isBranch: bool, isMem: bool, isMd: bool, isPriv: bool, body: nat)

  datatype Entry = Entry(valid: bool, instr: Instr)

  const ZERO := Entry(false, Instr(false, false, false, false, false, 0))

  /** One cycle of inputs: what decode offers, the wake-up answers, and the stall. */
  datatype In = In(flush: bool, stall: bool, offer0: bool, offer1: bool, i0: Instr, i1: Instr, wake0: bool, wake1: bool)

  // ------------------------------------------------------------------ issue decision

  predicate Way0Stop(e0: Entry, e1: Entry) {
    e0.instr.valid && e0.instr.isBranch && !e1.instr.valid
  }

  predicate Way1Stop(e0: Entry, e1: Entry) {
    || Way0Stop(e0, e1)
    || (e1.valid && e1.instr.isBranch && !(e0.valid && e0.instr.isBranch))
    || (e0.instr.valid && e0.instr.isMem && e1.instr.valid && e1.instr.isMem)
    || (e0.instr.valid && e0.instr.isMd && e1.instr.valid && e1.instr.isMd)
    || (e0.instr.valid && e0.instr.isPriv && e1.instr.valid)
    || (e1.instr.valid && e1.instr.isPriv && !(e0.instr.valid && e0.instr.isBranch))
  }

  predicate Way1Valid(e0: Entry, e1: Entry, x: In) {
    (e1.valid && !Way1Stop(e0, e1) && x.wake1) && (e0.valid && !Way0Stop(e0, e1) && x.wake0) && !x.stall
  }

  predicate Way0Valid(e0: Entry, e1: Entry, x: In) {
    if e0.instr.isBranch && !Way1Valid(e0, e1, x) then false
    else (e0.valid && !Way0Stop(e0, e1) && x.wake0) && !x.stall
  }

  function IssueCount(e0: Entry, e1: Entry, x: In): (n: nat)
    ensures n <= 2
  {
    if Way1Valid(e0, e1, x) && Way0Valid(e0, e1, x) then 2 else if Way0Valid(e0, e1, x) then 1 else 0
  }

  // ------------------------------------------------------------------ the program-order queue

  /** The k-th waiting entry; an empty entry when there is none. */
  function Nth(q: seq<Entry>, k: nat): Entry {
    if k < |q| then q[k] else ZERO
  }

  function Issued(q: seq<Entry>, x: In): (n: nat)
    ensures n <= |q|
  {
    IssueCount(Nth(q, 0), Nth(q, 1), x)
  }

  /** What enters: nothing unless two places are free, and the second only behind the first. */
  function Entering(q: seq<Entry>, x: In): seq<Entry> {
    if |q| + 2 > LENGTH || !x.offer0 then []
    else if x.offer1 then [Entry(x.i0.valid, x.i0), Entry(x.i1.valid, x.i1)]
    else [Entry(x.i0.valid, x.i0)]
  }

  function Next(q: seq<Entry>, x: In): seq<Entry> {
    if x.flush then [] else q[Issued(q, x)..] + Entering(q, x)
  }

  // ------------------------------------------------------------------ ring arithmetic

  function Slot(h: nat, i: nat): (s: nat)
    requires h < LENGTH && i <= LENGTH
    ensures s < LENGTH
  {
    if h + i >= LENGTH then h + i - LENGTH else h + i
  }

  function Window(r: seq<Entry>, h: nat, n: nat): (q: seq<Entry>)
    requires |r| == LENGTH && h < LENGTH && n <= LENGTH
    ensures |q| == n
  {
    seq(n, i requires 0 <= i < n => r[Slot(h, i)])
  }

  /** What one clock edge leaves in slot `j`. */
  function Updated(r: seq<Entry>, h: nat, n: nat, issue: nat, enter: nat, in0: Entry, in1: Entry, j: nat): Entry
    requires |r| == LENGTH && h < LENGTH && n <= LENGTH && j < LENGTH
  {
    if j == Slot(h, n) && enter > 0 then in0
    else if j == Slot(Slot(h, n), 1) && enter == 2 then in1
    else if j == h && issue > 0 then ZERO
    else if j == Slot(h, 1) && issue == 2 then ZERO
    else r[j]
  }

  /** The same, counted from the head: no live entry is overwritten. */
  lemma UpdatedFromHead(r: seq<Entry>, h: nat, n: nat, issue: nat, enter: nat, in0: Entry, in1: Entry, k: nat)
    requires |r| == LENGTH && h < LENGTH && issue <= n <= LENGTH && issue <= 2 && enter <= 2 && k < LENGTH
    requires enter > 0 ==> n + 2 <= LENGTH
    ensures Updated(r, h, n, issue, enter, in0, in1, Slot(h, k)) ==
            if k == n && enter > 0 then in0 else if k == n + 1 && enter == 2 then in1
            else if k < issue then ZERO else r[Slot(h, k)]
  {}

  lemma SlotAdd(h: nat, a: nat, b: nat)
    requires h < LENGTH && a <= LENGTH && b <= LENGTH
    ensures Slot(Slot(h, a), b) == if a + b <= LENGTH then Slot(h, a + b) else Slot(h, a + b - LENGTH)
  {}

  /** The live window and the cleared rest after one clock edge. */
  lemma UpdateWindow(r: seq<Entry>, r': seq<Entry>, h: nat, n: nat, issue: nat, enter: nat, in0: Entry, in1: Entry)
    requires |r| == |r'| == LENGTH && h < LENGTH && issue <= n <= LENGTH && issue <= 2 && enter <= 2
    requires enter > 0 ==> n + 2 <= LENGTH
    requires forall i :: n <= i < LENGTH ==> r[Slot(h, i)] == ZERO
    requires forall j :: 0 <= j < LENGTH ==> r'[j] == Updated(r, h, n, issue, enter, in0, in1, j)
    ensures var n' := n + enter - issue;
            && Slot(Slot(h, issue), n') == Slot(Slot(h, n), enter)
            && Window(r', Slot(h, issue), n') ==
               Window(r, h, n)[issue..] + (if enter == 2 then [in0, in1] else if enter == 1 then [in0] else [])
            && forall i :: n' <= i < LENGTH ==> r'[Slot(Slot(h, issue), i)] == ZERO
  {
    var n', h' := n + enter - issue, Slot(h, issue);
    SlotAdd(h, issue, n');
    SlotAdd(h, n, enter);
    var entered := if enter == 2 then [in0, in1] else if enter == 1 then [in0] else [];
    forall i | 0 <= i < n'
      ensures r'[Slot(h', i)] == (Window(r, h, n)[issue..] + entered)[i]
    {
      SlotAdd(h, issue, i);
      UpdatedFromHead(r, h, n, issue, enter, in0, in1, issue + i);
    }
    forall i | n' <= i < LENGTH
      ensures r'[Slot(h', i)] == ZERO
    {
      SlotAdd(h, issue, i);
      var k := if issue + i < LENGTH then issue + i else issue + i - LENGTH;
      UpdatedFromHead(r, h, n, issue, enter, in0, in1, k);
    }
  }

  // ------------------------------------------------------------------ the clocked module

  class Queue {
    const ring: array<Entry>
    var head: nat
    var tail: nat
    var size: nat

    ghost predicate Valid()
      reads this, ring
    {
      && ring.Length == LENGTH
      && head < LENGTH && tail < LENGTH && size <= LENGTH
      && tail == Slot(head, size)
      && forall i :: size <= i < LENGTH ==> ring[Slot(head, i)] == ZERO
    }

    ghost function Contents(): (q: seq<Entry>)
      requires Valid()
      reads this, ring
      ensures |q| == size
    {
      Window(ring[..], head, size)
    }

    constructor ()
      ensures Valid() && Contents() == [] && fresh(ring)
    {
      ring := new Entry[LENGTH](i => ZERO);
      head, tail, size := 0, 0, 0;
    }

    /** The entry under the head pointer and the one after it. */
    function Head(k: nat): (e: Entry)
      requires Valid() && k < 2
      reads this, ring
      ensures e == Nth(Contents(), k)
    {
      var h := if head + k >= LENGTH then 0 else head + k;
      assert h == Slot(head, k);
      assert k < size ==> Window(ring[..], head, size)[k] == ring[Slot(head, k)];
      ring[h]
    }

    /** The next contents of every slot. */
    method WriteSlots(issue: nat, enter: nat, in0: Entry, in1: Entry)
      requires Valid()
      modifies ring
      ensures forall j :: 0 <= j < LENGTH ==>
                ring[j] == Updated(old(ring[..]), head, size, issue, enter, in0, in1, j)
    {
      var head1 := if head + 1 >= LENGTH then 0 else head + 1;
      var tail1 := if tail + 1 >= LENGTH then 0 else tail + 1;
      assert head1 == Slot(head, 1) && tail1 == Slot(tail, 1);
      forall j | 0 <= j < LENGTH {
        ring[j] :=
          if j == tail && enter > 0 then in0
          else if j == tail1 && enter == 2 then in1
          else if j == head && issue > 0 then ZERO
          else if j == head1 && issue == 2 then ZERO
          else ring[j];
      }
    }

    /** The clocked block, once the numbers of leaving and entering entries are known. */
    method Shift(issue: nat, enter: nat, in0: Entry, in1: Entry)
      requires Valid() && issue <= size && issue <= 2 && enter <= 2 && (enter > 0 ==> size + 2 <= LENGTH)
      modifies this, ring
      ensures Valid()
      ensures Contents() == old(Contents())[issue..] +
                            (if enter == 2 then [in0, in1] else if enter == 1 then [in0] else [])
    {
      ghost var r := ring[..];
      WriteSlots(issue, enter, in0, in1);
      UpdateWindow(r, ring[..], head, size, issue, enter, in0, in1);
      head, tail, size := Slot(head, issue), Slot(tail, enter), size + enter - issue;
    }

    /** One rising edge. */
    method Tick(x: In) returns (way0: bool, way1: bool, instr0: Instr, instr1: Instr)
      requires Valid()
      modifies this, ring
      ensures Valid()
      ensures Contents() == Next(old(Contents()), x)
      ensures way0 == (Issued(old(Contents()), x) >= 1) && way1 == (Issued(old(Contents()), x) == 2)
      ensures way0 ==> instr0 == old(Contents())[0].instr
      ensures way1 ==> instr1 == old(Contents())[1].instr
    {
      var e0, e1 := Head(0), Head(1);
      instr0, instr1 := e0.instr, e1.instr;
      way1 := Way1Valid(e0, e1, x);
      way0 := Way0Valid(e0, e1, x);
      var issue := IssueCount(e0, e1, x);
      assert issue == Issued(Contents(), x);
      var allow := !(size + 2 > LENGTH);
      var enter := if !allow then 0 else if x.offer1 && x.offer0 then 2 else if x.offer0 then 1 else 0;
      if x.flush {
        forall j | 0 <= j < LENGTH {
          ring[j] := ZERO;
        }
        head, tail, size := 0, 0, 0;
      } else {
        Shift(issue, enter, Entry(x.i0.valid && x.offer0, x.i0), Entry(x.i1.valid && x.offer1, x.i1));
      }
    }
  }

  // ------------------------------------------------------------------ runs

  /** Entries taken in and sent out since the last flush or reset, and what waits. */
  datatype System = System(q: seq<Entry>, entered: seq<Entry>, issued: seq<Entry>)

  function Cycle(y: System, x: In): System {
    System(Next(y.q, x),
           if x.flush then [] else y.entered + Entering(y.q, x),
           if x.flush then [] else y.issued + y.q[..Issued(y.q, x)])
  }

  function Run(xs: seq<In>): System {
    if xs == [] then System([], [], []) else Cycle(Run(xs[..|xs| - 1]), xs[|xs| - 1])
  }

  /** In every run entries leave in the order they came, none lost or doubled, never more than eight waiting. */
  lemma {:induction false} ProgramOrder(xs: seq<In>)
    ensures var y := Run(xs); y.issued + y.q == y.entered && |y.q| <= LENGTH
  {
    if xs != [] {
      ProgramOrder(xs[..|xs| - 1]);
      CycleKeepsOrder(Run(xs[..|xs| - 1]), xs[|xs| - 1]);
    }
  }

  lemma CycleKeepsOrder(y: System, x: In)
    requires y.issued + y.q == y.entered && |y.q| <= LENGTH
    ensures var z := Cycle(y, x); z.issued + z.q == z.entered && |z.q| <= LENGTH
  {
    if !x.flush {
      SplitAndAppend(y.issued, y.q, Issued(y.q, x), Entering(y.q, x));
    }
  }

  lemma SplitAndAppend(a: seq<Entry>, q: seq<Entry>, n: nat, e: seq<Entry>)
    requires n <= |q|
    ensures (a + q[..n]) + (q[n..] + e) == (a + q) + e
  {}

  /** The instructions decode offers in one cycle: the second only behind the first. */
  function Offered(x: In): seq<Instr> {
    if !x.offer0 then [] else if x.offer1 then [x.i0, x.i1] else [x.i0]
  }

  /** The offers since the last flush, in order, of all cycles in which two places were free. */
  function Accepted(xs: seq<In>): seq<Instr> {
    if xs == [] then [] else
    var before, x := xs[..|xs| - 1], xs[|xs| - 1];
    if x.flush then [] else Accepted(before) + (if |Run(before).q| + 2 <= LENGTH then Offered(x) else [])
  }

  /** In every run the entries are the accepted offers, in program order, valid as their instructions are. */
  lemma {:induction false} EnteredAsOffered(xs: seq<In>)
    ensures var e := Run(xs).entered;
            && |e| == |Accepted(xs)|
            && forall k :: 0 <= k < |e| ==> e[k] == Entry(Accepted(xs)[k].valid, Accepted(xs)[k])
  {
    if xs != [] {
      EnteredAsOffered(xs[..|xs| - 1]);
      OffersEnter(Run(xs[..|xs| - 1]).q, xs[|xs| - 1]);
    }
  }

  /** One cycle: what is offered to a queue with two free places enters, first instruction first. */
  lemma OffersEnter(q: seq<Entry>, x: In)
    ensures var e, o := Entering(q, x), if |q| + 2 <= LENGTH then Offered(x) else [];
            |e| == |o| && forall k :: 0 <= k < |e| ==> e[k] == Entry(o[k].valid, o[k])
  {}

  predicate Branch(e: Entry) {
    e.valid && e.instr.isBranch
  }

  /** No branch directly follows a branch in program order. */
  ghost predicate NoBranchInDelaySlot(s: seq<Entry>) {
    forall k :: 0 <= k < |s| - 1 ==> !(Branch(s[k]) && Branch(s[k + 1]))
  }

  /** Waiting entries are valid exactly as their instructions, and are the newest ones that entered. */
  lemma WaitingEntry(xs: seq<In>, k: nat)
    requires k < |Run(xs).q|
    ensures var y := Run(xs);
            && |y.issued| + k < |y.entered| && y.q[k] == y.entered[|y.issued| + k]
            && y.q[k].valid == y.q[k].instr.valid
  {
    ProgramOrder(xs);
    EnteredAsOffered(xs);
    assert Run(xs).q[k] == (Run(xs).issued + Run(xs).q)[|Run(xs).issued| + k];
  }

  /**
   In every run of a program without branches in delay slots: an issued branch is never alone and
   never second, so it leaves in one cycle with the instruction behind it; and no pair leaves with two
   memory accesses, two multiply/divide instructions, or a privileged instruction outside a delay slot.
   */
  lemma PairingRules(xs: seq<In>, x: In)
    requires NoBranchInDelaySlot(Run(xs).entered)
    ensures var q := Run(xs).q;
            var n := Issued(q, x);
            && (n == 1 ==> !Branch(q[0]))
            && (n == 2 ==> !Branch(q[1]))
            && (n == 2 ==> !(q[0].instr.isMem && q[1].instr.isMem) && !(q[0].instr.isMd && q[1].instr.isMd))
            && (n == 2 ==> !q[0].instr.isPriv && (q[1].instr.isPriv ==> Branch(q[0])))
  {
    var n := Issued(Run(xs).q, x);
    if n >= 1 {
      WaitingEntry(xs, 0);
    }
    if n == 2 {
      WaitingEntry(xs, 1);
    }
  }

  /** May these two instructions leave together? */
  predicate MayPair(first: Instr, second: Instr) {
    && (second.isBranch ==> first.isBranch)
    && !(first.isMem && second.isMem)
    && !(first.isMd && second.isMd)
    && !first.isPriv
    && (second.isPriv ==> first.isBranch)
  }

  /**
   In every run exactly this is issued, without a stall: the two oldest instructions if both are awake
   and may pair; otherwise the oldest alone if it is awake and no branch; otherwise nothing.
   */
  lemma IssueDecision(xs: seq<In>, x: In)
    ensures var q, n := Run(xs).q, Issued(Run(xs).q, x);
            var two := |q| >= 2 && q[0].valid && q[1].valid && x.wake0 && x.wake1 && MayPair(q[0].instr, q[1].instr);
            var one := |q| >= 1 && q[0].valid && x.wake0 && !q[0].instr.isBranch;
            n == if x.stall then 0 else if two then 2 else if one then 1 else 0
  {
    if |Run(xs).q| >= 1 {
      WaitingEntry(xs, 0);
    }
    if |Run(xs).q| >= 2 {
      WaitingEntry(xs, 1);
    }
  }
}
