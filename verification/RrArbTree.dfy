/**
 The round-robin arbiter of `rr_arb_tree.sv` with its internal priority register, for any
 number of inputs: the selection tree, the grant tree, the decision lock and the priority update.
 */
module RrArbTree {
  import opened Bits
  import Lzc

  datatype Config = Config(numIn: nat, lockIn: bool, fairArb: bool, axiVldRdy: bool)

  /** One node of the selection tree: does a leaf below it request, and which one wins. */
  datatype Node = Node(req: bool, idx: nat)

  /** The registers `rr_q`, `lock_q` and `req_q`. */
  datatype Regs = Regs(rr: nat, lock: bool, req: seq<bool>)

  /** The inputs of one clock cycle that the registers depend on. */
  datatype In = In(req: seq<bool>, gnt: bool, flush: bool)

  // ------------------------------------------------------------------ selection tree

  function Select(left: bool, right: bool, prefer: bool): bool {
    !left || (right && prefer)
  }

  /** Node `l` of the level whose subtrees span `2^h` inputs; `idx` is relative to that subtree. */
  function Tree(req: seq<bool>, rr: nat, h: nat, l: nat): Node
    requires h >= 1
  {
    if h == 1 then
      if 2 * l + 1 < |req| then
        Node(req[2 * l] || req[2 * l + 1],
             if Select(req[2 * l], req[2 * l + 1], Bit(rr, 0)) then 1 else 0)
      else if 2 * l + 1 == |req| then
        Node(req[2 * l], 0)
      else
        Node(false, 0)
    else
      var left, right := Tree(req, rr, h - 1, 2 * l), Tree(req, rr, h - 1, 2 * l + 1);
      Node(left.req || right.req,
           if Select(left.req, right.req, Bit(rr, h - 1)) then Pow2(h - 1) + right.idx else left.idx)
  }

  /** The payload that travels with the selection. */
  function DataTree<T>(req: seq<bool>, data: seq<T>, zero: T, rr: nat, h: nat, l: nat): T
    requires h >= 1 && |data| == |req|
  {
    if h == 1 then
      if 2 * l + 1 < |req| then
        if Select(req[2 * l], req[2 * l + 1], Bit(rr, 0)) then data[2 * l + 1] else data[2 * l]
      else if 2 * l + 1 == |req| then
        data[2 * l]
      else
        zero
    else if Select(Tree(req, rr, h - 1, 2 * l).req, Tree(req, rr, h - 1, 2 * l + 1).req, Bit(rr, h - 1)) then
      DataTree(req, data, zero, rr, h - 1, 2 * l + 1)
    else
      DataTree(req, data, zero, rr, h - 1, 2 * l)
  }

  /** The grant that reaches input `j` when node `l` at height `h` holds grant `g`. */
  predicate GrantTree(req: seq<bool>, rr: nat, vldRdy: bool, h: nat, l: nat, g: bool, j: nat)
    requires h >= 1 && j < |req| && j / Pow2(h) == l
  {
    if h == 1 then
      if 2 * l + 1 < |req| then
        var sel := Select(req[2 * l], req[2 * l + 1], Bit(rr, 0));
        g && (vldRdy || req[j]) && (if j == 2 * l then !sel else sel)
      else
        g && (vldRdy || req[j])
    else
      var sel := Select(Tree(req, rr, h - 1, 2 * l).req, Tree(req, rr, h - 1, 2 * l + 1).req, Bit(rr, h - 1));
      if j / Pow2(h - 1) == 2 * l then
        GrantTree(req, rr, vldRdy, h - 1, 2 * l, g && !sel, j)
      else
        WindowHalves(j, h);
        GrantTree(req, rr, vldRdy, h - 1, 2 * l + 1, g && sel, j)
  }

  // ------------------------------------------------------------------ module outputs

  predicate ReqOut(req: seq<bool>, rr: nat)
    requires |req| >= 1
  {
    if |req| == 1 then req[0] else Tree(req, rr, CeilLog2(|req|), 0).req
  }

  function IdxOut(req: seq<bool>, rr: nat): nat
    requires |req| >= 1
  {
    if |req| == 1 then 0 else Tree(req, rr, CeilLog2(|req|), 0).idx
  }

  function DataOut<T>(req: seq<bool>, data: seq<T>, zero: T, rr: nat): T
    requires |req| >= 1 && |data| == |req|
  {
    if |req| == 1 then data[0] else DataTree(req, data, zero, rr, CeilLog2(|req|), 0)
  }

  predicate GrantOut(c: Config, req: seq<bool>, rr: nat, gnt: bool, j: nat)
    requires |req| >= 1 && j < |req|
  {
    if |req| == 1 then gnt else
    QuotientUnique(j, Pow2(CeilLog2(|req|)), 0, j);
    GrantTree(req, rr, c.axiVldRdy, CeilLog2(|req|), 0, gnt, j)
  }

  // ------------------------------------------------------------------ what the tree computes

  ghost predicate Any(req: seq<bool>) {
    exists j :: 0 <= j < |req| && req[j]
  }

  /** Within its window a node picks a requesting input, and the preferred one if that requests. */
  lemma {:induction false} TreePicksRequester(req: seq<bool>, rr: nat, h: nat, l: nat)
    requires h >= 1
    ensures var n := Tree(req, rr, h, l);
            && (n.req ==> n.idx < Pow2(h) && l * Pow2(h) + n.idx < |req| && req[l * Pow2(h) + n.idx])
            && (forall j :: 0 <= j < |req| && j / Pow2(h) == l && req[j] ==> n.req)
            && (rr < |req| && rr / Pow2(h) == l && req[rr] ==> l * Pow2(h) + n.idx == rr)
    decreases h
  {
    assert Pow2(1) == 2 * Pow2(0) == 2;
    if h == 1 {
      assert forall j :: 0 <= j < |req| && j / 2 == l ==> j == 2 * l || j == 2 * l + 1;
    } else {
      TreePicksRequester(req, rr, h - 1, 2 * l);
      TreePicksRequester(req, rr, h - 1, 2 * l + 1);
      WindowStart(h, l);
      forall j: nat | j < |req| && j / Pow2(h) == l
        ensures j / Pow2(h - 1) == 2 * l || j / Pow2(h - 1) == 2 * l + 1
      {
        WindowHalves(j, h);
      }
      WindowHalves(rr, h);
    }
  }

  /** The payload is that of the winning input. */
  lemma {:induction false} DataFollowsIndex<T>(req: seq<bool>, data: seq<T>, zero: T, rr: nat, h: nat, l: nat)
    requires h >= 1 && |data| == |req|
    requires Tree(req, rr, h, l).req
    ensures var j := l * Pow2(h) + Tree(req, rr, h, l).idx;
            j < |data| && DataTree(req, data, zero, rr, h, l) == data[j]
    decreases h
  {
    assert Pow2(1) == 2 * Pow2(0) == 2;
    TreePicksRequester(req, rr, h, l);
    if h > 1 {
      WindowStart(h, l);
      if Select(Tree(req, rr, h - 1, 2 * l).req, Tree(req, rr, h - 1, 2 * l + 1).req, Bit(rr, h - 1)) {
        DataFollowsIndex(req, data, zero, rr, h - 1, 2 * l + 1);
      } else {
        DataFollowsIndex(req, data, zero, rr, h - 1, 2 * l);
      }
    }
  }

  /** A grant never appears below a node that holds none. */
  lemma {:induction false} NoGrantBelow(req: seq<bool>, rr: nat, v: bool, h: nat, l: nat, j: nat)
    requires h >= 1 && j < |req| && j / Pow2(h) == l
    ensures !GrantTree(req, rr, v, h, l, false, j)
    decreases h
  {
    if h > 1 {
      WindowHalves(j, h);
      if j / Pow2(h - 1) == 2 * l {
        NoGrantBelow(req, rr, v, h - 1, 2 * l, j);
      } else {
        NoGrantBelow(req, rr, v, h - 1, 2 * l + 1, j);
      }
    }
  }

  lemma WinnerInside(req: seq<bool>, rr: nat, h: nat, l: nat)
    requires h >= 1 && Tree(req, rr, h, l).req
    ensures Tree(req, rr, h, l).idx < Pow2(h)
  {
    TreePicksRequester(req, rr, h, l);
  }

  /** Which half of a node's window its winner lies in. */
  lemma WinnerHalf(req: seq<bool>, rr: nat, h: nat, l: nat)
    requires h > 1 && Tree(req, rr, h, l).req
    ensures var left, right := Tree(req, rr, h - 1, 2 * l), Tree(req, rr, h - 1, 2 * l + 1);
            var w := l * Pow2(h) + Tree(req, rr, h, l).idx;
            if Select(left.req, right.req, Bit(rr, h - 1))
            then right.req && w / Pow2(h - 1) == 2 * l + 1 && w == (2 * l + 1) * Pow2(h - 1) + right.idx
            else left.req && w / Pow2(h - 1) == 2 * l && w == 2 * l * Pow2(h - 1) + left.idx
  {
    WindowStart(h, l);
    var left, right := Tree(req, rr, h - 1, 2 * l), Tree(req, rr, h - 1, 2 * l + 1);
    if Select(left.req, right.req, Bit(rr, h - 1)) {
      WinnerInside(req, rr, h - 1, 2 * l + 1);
      WindowOffset(h - 1, 2 * l + 1, right.idx);
    } else {
      WinnerInside(req, rr, h - 1, 2 * l);
      WindowOffset(h - 1, 2 * l, left.idx);
    }
  }

  /** A node that requests and holds a grant hands it to exactly its winner. */
  lemma {:induction false} GrantReachesWinner(req: seq<bool>, rr: nat, v: bool, h: nat, l: nat, j: nat)
    requires h >= 1 && j < |req| && j / Pow2(h) == l && Tree(req, rr, h, l).req
    ensures GrantTree(req, rr, v, h, l, true, j) <==> j == l * Pow2(h) + Tree(req, rr, h, l).idx
    decreases h
  {
    assert Pow2(1) == 2 * Pow2(0) == 2;
    if h == 1 {
      assert j == 2 * l || j == 2 * l + 1;
    } else {
      WindowHalves(j, h);
      WinnerHalf(req, rr, h, l);
      var m := j / Pow2(h - 1);
      if (m == 2 * l + 1) == Select(Tree(req, rr, h - 1, 2 * l).req, Tree(req, rr, h - 1, 2 * l + 1).req, Bit(rr, h - 1)) {
        GrantReachesWinner(req, rr, v, h - 1, m, j);
      } else {
        NoGrantBelow(req, rr, v, h - 1, m, j);
      }
    }
  }

  /** At most one input is granted, whether or not anything requests. */
  lemma {:induction false} GrantIsUnique(req: seq<bool>, rr: nat, v: bool, h: nat, l: nat, i: nat, j: nat)
    requires h >= 1 && i < |req| && i / Pow2(h) == l && j < |req| && j / Pow2(h) == l
    requires GrantTree(req, rr, v, h, l, true, i) && GrantTree(req, rr, v, h, l, true, j)
    ensures i == j
    decreases h
  {
    if h == 1 {
      assert Pow2(1) == 2 * Pow2(0) == 2;
    } else {
      WindowHalves(i, h);
      WindowHalves(j, h);
      var m := if Select(Tree(req, rr, h - 1, 2 * l).req, Tree(req, rr, h - 1, 2 * l + 1).req, Bit(rr, h - 1))
               then 2 * l + 1 else 2 * l;
      if i / Pow2(h - 1) != m {
        NoGrantBelow(req, rr, v, h - 1, i / Pow2(h - 1), i);
      } else if j / Pow2(h - 1) != m {
        NoGrantBelow(req, rr, v, h - 1, j / Pow2(h - 1), j);
      } else {
        GrantIsUnique(req, rr, v, h - 1, m, i, j);
      }
    }
  }

  /** `i ^ r` on the low `h` bits, as a number. */
  function BitDistance(h: nat, i: nat, r: nat): (d: nat)
    ensures d < Pow2(h)
  {
    if h == 0 then 0
    else (if Bit(i, h - 1) != Bit(r, h - 1) then Pow2(h - 1) else 0) + BitDistance(h - 1, i, r)
  }

  /** The winner of a window is the requester whose index, exclusive-or the priority, is least. */
  lemma {:induction false} TreePicksNearest(req: seq<bool>, rr: nat, h: nat, l: nat, j: nat)
    requires h >= 1 && j < |req| && j / Pow2(h) == l && req[j]
    ensures BitDistance(h, l * Pow2(h) + Tree(req, rr, h, l).idx, rr) <= BitDistance(h, j, rr)
    decreases h
  {
    TreePicksRequester(req, rr, h, l);
    var w := l * Pow2(h) + Tree(req, rr, h, l).idx;
    if h == 1 {
      NearestOfTwo(req, rr, l, j);
    } else {
      WindowHalves(j, h);
      WinnerHalf(req, rr, h, l);
      WinnerInside(req, rr, h, l);
      WindowOffset(h, l, Tree(req, rr, h, l).idx);
      WindowHalves(w, h);
      TreePicksRequester(req, rr, h - 1, j / Pow2(h - 1));
      if j / Pow2(h - 1) == w / Pow2(h - 1) {
        TreePicksNearest(req, rr, h - 1, j / Pow2(h - 1), j);
      }
    }
  }

  lemma NearestOfTwo(req: seq<bool>, rr: nat, l: nat, j: nat)
    requires j < |req| && j / Pow2(1) == l && req[j]
    ensures BitDistance(1, l * Pow2(1) + Tree(req, rr, 1, l).idx, rr) <= BitDistance(1, j, rr)
  {
    assert Pow2(1) == 2 * Pow2(0) == 2;
    assert j == 2 * l || j == 2 * l + 1;
    assert forall i: nat, r: nat :: BitDistance(1, i, r) == if i % 2 != r % 2 then 1 else 0 by {
      forall i: nat, r: nat
        ensures BitDistance(1, i, r) == if i % 2 != r % 2 then 1 else 0
      {
        assert BitDistance(0, i, r) == 0;
      }
    }
  }

  /** Without any request a grant runs down the right edge of the tree. */
  lemma {:induction false} IdleGrant(req: seq<bool>, rr: nat, v: bool, h: nat, l: nat, j: nat)
    requires h >= 1 && j < |req| && j / Pow2(h) == l && !Any(req)
    ensures GrantTree(req, rr, v, h, l, true, j) <==>
            v && (j == l * Pow2(h) + Pow2(h) - 1 || (j == l * Pow2(h) + Pow2(h) - 2 && |req| == j + 1))
    decreases h
  {
    assert Pow2(1) == 2 * Pow2(0) == 2;
    if h == 1 {
      assert j == 2 * l || j == 2 * l + 1;
    } else {
      WindowHalves(j, h);
      WindowStart(h, l);
      NodeIdle(req, rr, h - 1, 2 * l);
      if j / Pow2(h - 1) == 2 * l + 1 {
        IdleGrant(req, rr, v, h - 1, 2 * l + 1, j);
      } else {
        NoGrantBelow(req, rr, v, h - 1, 2 * l, j);
        AwayFromEdge(h, l, j);
      }
    }
  }

  lemma NodeIdle(req: seq<bool>, rr: nat, h: nat, l: nat)
    requires h >= 1 && !Any(req)
    ensures !Tree(req, rr, h, l).req
  {
    TreePicksRequester(req, rr, h, l);
  }

  lemma AwayFromEdge(h: nat, l: nat, j: nat)
    requires h > 1 && j / Pow2(h - 1) == 2 * l
    ensures j < l * Pow2(h) + Pow2(h) - 2
  {
    var a := Pow2(h - 1);
    assert a == 2 * Pow2(h - 2);
    assert j == a * (2 * l) + j % a;
    WindowStart(h, l);
  }

  /** Every input lies in the one window of the root. */
  lemma RootWindow(n: nat, j: nat)
    requires j < n
    ensures j / Pow2(CeilLog2(n)) == 0
  {
    QuotientUnique(j, Pow2(CeilLog2(n)), 0, j);
  }

  /** The grant outputs: none without a grant input, at most one, and the winner's if anything requests. */
  lemma GrantSpec(c: Config, req: seq<bool>, rr: nat, gnt: bool, i: nat, j: nat)
    requires i < |req| && j < |req|
    ensures GrantOut(c, req, rr, gnt, j) ==> gnt
    ensures GrantOut(c, req, rr, gnt, i) && GrantOut(c, req, rr, gnt, j) ==> i == j
    ensures ReqOut(req, rr) ==> (GrantOut(c, req, rr, gnt, j) <==> gnt && j == IdxOut(req, rr))
  {
    if |req| > 1 {
      var h := CeilLog2(|req|);
      assert Pow2(0) == 1;
      RootWindow(|req|, i);
      RootWindow(|req|, j);
      if !gnt {
        NoGrantBelow(req, rr, c.axiVldRdy, h, 0, i);
        NoGrantBelow(req, rr, c.axiVldRdy, h, 0, j);
      } else {
        if ReqOut(req, rr) {
          GrantReachesWinner(req, rr, c.axiVldRdy, h, 0, j);
        }
        if GrantOut(c, req, rr, gnt, i) && GrantOut(c, req, rr, gnt, j) {
          GrantIsUnique(req, rr, c.axiVldRdy, h, 0, i, j);
        }
      }
    }
  }

  /** The assertions stated at the end of the module, for the visible requests, and what the winner is. */
  lemma ArbiterSpec(c: Config, req: seq<bool>, rr: nat, gnt: bool)
    requires |req| >= 1
    ensures ReqOut(req, rr) <==> Any(req)
    ensures ReqOut(req, rr) ==> IdxOut(req, rr) < |req| && req[IdxOut(req, rr)]
    ensures rr < |req| && req[rr] ==> IdxOut(req, rr) == rr
    ensures ReqOut(req, rr) ==>
              forall j: nat :: j < |req| ==> (GrantOut(c, req, rr, gnt, j) <==> gnt && j == IdxOut(req, rr))
    ensures forall j: nat :: j < |req| && GrantOut(c, req, rr, gnt, j) ==> gnt
    ensures forall i: nat, j: nat ::
              i < |req| && j < |req| && GrantOut(c, req, rr, gnt, i) && GrantOut(c, req, rr, gnt, j) ==> i == j
  {
    forall i: nat, j: nat | i < |req| && j < |req|
      ensures GrantOut(c, req, rr, gnt, j) ==> gnt
      ensures GrantOut(c, req, rr, gnt, i) && GrantOut(c, req, rr, gnt, j) ==> i == j
      ensures ReqOut(req, rr) ==> (GrantOut(c, req, rr, gnt, j) <==> gnt && j == IdxOut(req, rr))
    {
      GrantSpec(c, req, rr, gnt, i, j);
    }
    if |req| > 1 {
      assert Pow2(0) == 1;
      TreePicksRequester(req, rr, CeilLog2(|req|), 0);
      forall j: nat | j < |req|
        ensures j / Pow2(CeilLog2(|req|)) == 0
      {
        RootWindow(|req|, j);
      }
    }
  }

  /** Which requester wins: the one whose index, exclusive-or the priority, is least. */
  lemma WinnerIsNearest(req: seq<bool>, rr: nat, j: nat)
    requires j < |req| && req[j]
    ensures BitDistance(CeilLog2(|req|), IdxOut(req, rr), rr) <= BitDistance(CeilLog2(|req|), j, rr)
  {
    if |req| > 1 {
      assert Pow2(0) == 1;
      RootWindow(|req|, j);
      TreePicksNearest(req, rr, CeilLog2(|req|), 0, j);
    }
  }

  /**
   The two grant styles: with `AxiVldRdy` off only a requester is granted; with it on, a grant without
   any request goes to the last input, if the tree is full or lacks one leaf, and is lost otherwise.
   */
  lemma GrantStyles(c: Config, req: seq<bool>, rr: nat, gnt: bool, j: nat)
    requires j < |req| && |req| > 1
    ensures !c.axiVldRdy && GrantOut(c, req, rr, gnt, j) ==> req[j]
    ensures !Any(req) ==>
              (GrantOut(c, req, rr, gnt, j) <==>
               gnt && c.axiVldRdy && j == |req| - 1 && |req| + 1 >= Pow2(CeilLog2(|req|)))
  {
    assert Pow2(0) == 1;
    ArbiterSpec(c, req, rr, gnt);
    RootWindow(|req|, j);
    var h := CeilLog2(|req|);
    if !Any(req) {
      if gnt {
        IdleGrant(req, rr, c.axiVldRdy, h, 0, j);
      } else {
        NoGrantBelow(req, rr, c.axiVldRdy, h, 0, j);
      }
    }
  }

  lemma DataOutIsWinners<T>(req: seq<bool>, data: seq<T>, zero: T, rr: nat)
    requires |req| >= 1 && |data| == |req| && ReqOut(req, rr)
    ensures IdxOut(req, rr) < |data| && DataOut(req, data, zero, rr) == data[IdxOut(req, rr)]
  {
    if |req| > 1 {
      assert Pow2(0) == 1;
      DataFollowsIndex(req, data, zero, rr, CeilLog2(|req|), 0);
    }
  }

  // ------------------------------------------------------------------ registers

  /** `upper_mask` (`above`) and `lower_mask`: the requests beyond and up to the priority. */
  function Mask(req: seq<bool>, rr: nat, above: bool): (m: seq<bool>)
    ensures |m| == |req|
    ensures forall i :: 0 <= i < |req| ==> m[i] == (req[i] && (above <==> i > rr))
  {
    seq(|req|, i requires 0 <= i < |req| => req[i] && (above <==> i > rr))
  }

  function NextIdx(req: seq<bool>, rr: nat): nat
    requires |req| >= 1
  {
    var upper, lower := Lzc.Count(Mask(req, rr, true), false), Lzc.Count(Mask(req, rr, false), false);
    if upper.empty then lower.cnt else upper.cnt
  }

  /** `req_d`: a locked decision hides the live requests. */
  function Visible(c: Config, s: Regs, req: seq<bool>): seq<bool> {
    if c.numIn > 1 && c.lockIn && s.lock then s.req else req
  }

  function Reset(c: Config): Regs {
    Regs(0, false, seq(c.numIn, i => false))
  }

  /** The next input in index order, wrapping at the last one. */
  function After(n: nat, rr: nat): nat {
    if rr == n - 1 then 0 else rr + 1
  }

  predicate Handshake(c: Config, s: Regs, x: In)
    requires c.numIn >= 1 && |x.req| == |s.req| == c.numIn
  {
    x.gnt && ReqOut(Visible(c, s, x.req), s.rr)
  }

  function Step(c: Config, s: Regs, x: In): Regs
    requires c.numIn >= 1 && |x.req| == |s.req| == c.numIn
  {
    if c.numIn == 1 then
      s
    else if x.flush then
      Reset(c)
    else
      var req := Visible(c, s, x.req);
      Regs(if !Handshake(c, s, x) then s.rr
           else if c.fairArb then NextIdx(req, s.rr)
           else After(c.numIn, s.rr),
           ReqOut(req, s.rr) && !x.gnt,
           req)
  }

  predicate Granted(c: Config, s: Regs, x: In, i: nat)
    requires c.numIn >= 1 && |x.req| == |s.req| == c.numIn && i < c.numIn
  {
    GrantOut(c, Visible(c, s, x.req), s.rr, x.gnt, i)
  }

  ghost predicate Valid(c: Config, s: Regs) {
    && c.numIn >= 1
    && |s.req| == c.numIn
    && s.rr < c.numIn
    && (s.lock ==> Any(s.req))
  }

  /** How many places the priority has to move to reach input `i`; a full turn for itself. */
  function Turn(n: nat, rr: nat, i: nat): nat
    requires rr < n && i < n
  {
    if i > rr then i - rr else i + n - rr
  }

  /** The two masked counters find the next requester cyclically after the priority. */
  lemma NextIdxIsNearest(req: seq<bool>, rr: nat)
    requires |req| >= 1 && rr < |req| && Any(req)
    ensures NextIdx(req, rr) < |req| && req[NextIdx(req, rr)]
    ensures forall j: nat :: j < |req| && req[j] ==>
                               Turn(|req|, rr, NextIdx(req, rr)) <= Turn(|req|, rr, j)
  {
    var up, low := Mask(req, rr, true), Mask(req, rr, false);
    Lzc.CountIsLinearSearch(up, false);
    Lzc.CountIsLinearSearch(low, false);
    var k :| 0 <= k < |req| && req[k];
    assert up[k] || low[k];
    forall j: nat | j < |req| && req[j]
      ensures Turn(|req|, rr, NextIdx(req, rr)) <= Turn(|req|, rr, j)
    {
      assert up[j] || low[j];
    }
  }

  /** `j` is the first requester strictly after `i` in cyclic order; `i` itself comes last. */
  ghost predicate ComesNext(req: seq<bool>, i: nat, j: nat)
    requires i < |req|
  {
    j < |req| && req[j] && forall m: nat :: m < |req| && req[m] ==> Turn(|req|, i, j) <= Turn(|req|, i, m)
  }

  /**
   The registers after one cycle: the priority moves only with a handshake, by fair rotation to the
   next requester and by unfair rotation to the next input; the decision is locked just when it was
   not accepted, on the requests it was made from; a flush forgets everything.
   */
  lemma RotationStep(c: Config, s: Regs, x: In)
    requires Valid(c, s) && |x.req| == c.numIn && c.numIn > 1
    ensures var t, req := Step(c, s, x), Visible(c, s, x.req);
            if x.flush then t.rr == 0 && !t.lock && !Any(t.req)
            else && t.req == req
                 && (t.lock <==> Any(req) && !x.gnt)
                 && (!(x.gnt && Any(req)) ==> t.rr == s.rr)
                 && (x.gnt && Any(req) && c.fairArb ==> ComesNext(req, s.rr, t.rr))
                 && (x.gnt && Any(req) && !c.fairArb ==> t.rr == (s.rr + 1) % c.numIn)
  {
    var req := Visible(c, s, x.req);
    ArbiterSpec(c, req, s.rr, x.gnt);
    AfterIsModulo(c.numIn, s.rr);
    if Any(req) {
      NextComesNext(req, s.rr);
    }
  }

  lemma NextComesNext(req: seq<bool>, rr: nat)
    requires rr < |req| && Any(req)
    ensures ComesNext(req, rr, NextIdx(req, rr))
  {
    NextIdxIsNearest(req, rr);
  }

  lemma AfterIsModulo(n: nat, rr: nat)
    requires rr < n
    ensures After(n, rr) == (rr + 1) % n
  {
    if rr == n - 1 {
      QuotientUnique(rr + 1, n, 1, 0);
    } else {
      QuotientUnique(rr + 1, n, 0, rr + 1);
    }
  }

  lemma StepKeepsValid(c: Config, s: Regs, x: In)
    requires Valid(c, s) && |x.req| == c.numIn
    ensures Valid(c, Step(c, s, x))
  {
    var req := Visible(c, s, x.req);
    ArbiterSpec(c, req, s.rr, x.gnt);
    if Any(req) {
      NextIdxIsNearest(req, s.rr);
    }
  }

  /**
   In terms of the live requests: any of them raises the output request, and as long as the requests
   of a locked decision are held, nothing else does.
   */
  lemma LiveRequests(c: Config, s: Regs, x: In)
    requires Valid(c, s) && |x.req| == c.numIn
    ensures Any(x.req) ==> ReqOut(Visible(c, s, x.req), s.rr)
    ensures (s.lock ==> forall j :: 0 <= j < c.numIn && s.req[j] ==> x.req[j]) ==>
              (ReqOut(Visible(c, s, x.req), s.rr) ==> Any(x.req))
    ensures Visible(c, s, x.req) == if c.lockIn && s.lock && c.numIn > 1 then s.req else x.req
  {
    ArbiterSpec(c, Visible(c, s, x.req), s.rr, x.gnt);
  }

  /** With `LockIn`, a decision that was not accepted is the decision of the next cycle. */
  lemma LockHoldsDecision(c: Config, s: Regs, x: In, y: In)
    requires Valid(c, s) && c.lockIn && c.numIn > 1 && |x.req| == |y.req| == c.numIn
    requires ReqOut(Visible(c, s, x.req), s.rr) && !x.gnt && !x.flush
    ensures var t := Step(c, s, x);
            && ReqOut(Visible(c, t, y.req), t.rr)
            && IdxOut(Visible(c, t, y.req), t.rr) == IdxOut(Visible(c, s, x.req), s.rr)
  {
    assert Step(c, s, x) == Regs(s.rr, true, Visible(c, s, x.req));
  }

  // ------------------------------------------------------------------ runs

  ghost predicate Inputs(c: Config, xs: seq<In>) {
    c.numIn >= 1 && forall k :: 0 <= k < |xs| ==> |xs[k].req| == c.numIn && !xs[k].flush
  }

  function Run(c: Config, s: Regs, xs: seq<In>): (r: Regs)
    requires c.numIn >= 1 && |s.req| == c.numIn
    requires forall k :: 0 <= k < |xs| ==> |xs[k].req| == c.numIn
    ensures |r.req| == c.numIn
    decreases |xs|
  {
    if xs == [] then s else Run(c, Step(c, s, xs[0]), xs[1..])
  }

  /** The inputs that won the output handshakes of a run, in order. */
  function Winners(c: Config, s: Regs, xs: seq<In>): seq<nat>
    requires c.numIn >= 1 && |s.req| == c.numIn
    requires forall k :: 0 <= k < |xs| ==> |xs[k].req| == c.numIn
    decreases |xs|
  {
    if xs == [] then []
    else
      (if Handshake(c, s, xs[0]) then [IdxOut(Visible(c, s, xs[0].req), s.rr)] else [])
      + Winners(c, Step(c, s, xs[0]), xs[1..])
  }

  /** Input `i` requests in every cycle of the run up to and including the one that grants it. */
  predicate HeldUntilGranted(c: Config, s: Regs, xs: seq<In>, i: nat)
    requires c.numIn >= 1 && |s.req| == c.numIn && i < c.numIn
    requires forall k :: 0 <= k < |xs| ==> |xs[k].req| == c.numIn
    decreases |xs|
  {
    xs == [] ||
    (xs[0].req[i] && (Granted(c, s, xs[0], i) || HeldUntilGranted(c, Step(c, s, xs[0]), xs[1..], i)))
  }

  /** The places still ahead of input `i` in the rotation. */
  function Lag(n: nat, rr: nat, i: nat): int {
    if i >= rr then i - rr else i + n - rr
  }

  /** Is a request of input `i` hidden behind a decision locked before it was raised? */
  predicate Hidden(c: Config, s: Regs, i: nat)
    requires i < |s.req|
  {
    c.numIn > 1 && c.lockIn && s.lock && !s.req[i]
  }

  /** One cycle of waiting: every handshake brings the priority closer to a visible waiting input. */
  lemma WaitingStep(c: Config, s: Regs, x: In, i: nat)
    requires Valid(c, s) && |x.req| == c.numIn && !x.flush && i < c.numIn
    requires x.req[i] && !Granted(c, s, x, i)
    ensures var t := Step(c, s, x);
            && Valid(c, t)
            && (Hidden(c, s, i) && !Handshake(c, s, x) ==> Hidden(c, t, i) && t.rr == s.rr)
            && (Hidden(c, s, i) && Handshake(c, s, x) ==> !Hidden(c, t, i))
            && (!Hidden(c, s, i) ==> !Hidden(c, t, i))
            && (!Hidden(c, s, i) && !Handshake(c, s, x) ==> t.rr == s.rr)
            && (!Hidden(c, s, i) && Handshake(c, s, x) ==> Lag(c.numIn, t.rr, i) < Lag(c.numIn, s.rr, i))
  {
    StepKeepsValid(c, s, x);
    var req := Visible(c, s, x.req);
    ArbiterSpec(c, req, s.rr, x.gnt);
    if Handshake(c, s, x) && !Hidden(c, s, i) {
      assert req[i] && i != s.rr;
      NextIdxIsNearest(req, s.rr);
    }
  }

  /** How many handshakes a waiting input may have to sit through, its own included. */
  function Patience(c: Config, s: Regs, i: nat): (b: int)
    requires i < |s.req|
    ensures s.rr < c.numIn && i < c.numIn ==> 1 <= b <= c.numIn + 1
    ensures s.rr < c.numIn && i < c.numIn && !Hidden(c, s, i) ==> b <= c.numIn
  {
    if Hidden(c, s, i) then c.numIn + 1 else Lag(c.numIn, s.rr, i) + 1
  }

  /**
   No starvation, with a bound: a request held until granted is among the next `NumIn` winners,
   counting the places between the priority and the waiting input. Only a decision already locked
   when the request was raised can add one handshake to that.
   */
  lemma {:induction false} NoStarvation(c: Config, s: Regs, xs: seq<In>, i: nat)
    requires Valid(c, s) && Inputs(c, xs) && i < c.numIn
    requires HeldUntilGranted(c, s, xs, i)
    requires |Winners(c, s, xs)| >= Patience(c, s, i)
    ensures i in Winners(c, s, xs)[..Patience(c, s, i)]
    decreases |xs|
  {
    var x, t := xs[0], Step(c, s, xs[0]);
    var rest := Winners(c, t, xs[1..]);
    ArbiterSpec(c, Visible(c, s, x.req), s.rr, x.gnt);
    if Granted(c, s, x, i) {
      assert Winners(c, s, xs)[0] == i;
    } else {
      WaitingStep(c, s, x, i);
      NoStarvation(c, t, xs[1..], i);
      InLongerPrefix(rest, Patience(c, t, i), Patience(c, s, i) - (if Handshake(c, s, x) then 1 else 0), i);
      if Handshake(c, s, x) {
        var w := IdxOut(Visible(c, s, x.req), s.rr);
        assert Winners(c, s, xs) == [w] + rest;
        assert Winners(c, s, xs)[..Patience(c, s, i)] == [w] + rest[..Patience(c, s, i) - 1];
      } else {
        assert Winners(c, s, xs) == rest;
      }
    }
  }

  lemma InLongerPrefix(w: seq<nat>, a: int, b: int, i: nat)
    requires 0 <= a <= b <= |w| && i in w[..a]
    ensures i in w[..b]
  {
    assert w[..a] <= w[..b];
  }

  /** The inputs `r` request, and no others, in every cycle. */
  ghost predicate Constant(c: Config, s: Regs, xs: seq<In>, r: seq<bool>) {
    && (c.numIn > 1 && c.lockIn && s.lock ==> s.req == r)
    && forall k :: 0 <= k < |xs| ==> xs[k].req == r
  }

  lemma ConstantStep(c: Config, s: Regs, x: In, r: seq<bool>)
    requires Valid(c, s) && |x.req| == c.numIn && !x.flush && c.fairArb
    requires (c.numIn > 1 && c.lockIn && s.lock ==> s.req == r) && x.req == r && r[s.rr]
    ensures var t := Step(c, s, x);
            && Valid(c, t) && (c.numIn > 1 && c.lockIn && t.lock ==> t.req == r)
            && (Handshake(c, s, x) <==> x.gnt)
            && IdxOut(Visible(c, s, x.req), s.rr) == s.rr
            && if x.gnt then ComesNext(r, s.rr, t.rr) else t.rr == s.rr
  {
    StepKeepsValid(c, s, x);
    ArbiterSpec(c, r, s.rr, x.gnt);
    if c.numIn > 1 {
      RotationStep(c, s, x);
    }
  }

  /**
   Fair rotation under a constant set of requests: once the priority is one of them (as it is from
   the first handshake on), each handshake serves the next requester in cyclic order.
   */
  lemma {:induction false} ConstantLoadGoesRound(c: Config, s: Regs, xs: seq<In>, r: seq<bool>, k: nat)
    requires Valid(c, s) && Inputs(c, xs) && c.fairArb && |r| == c.numIn && r[s.rr] && Constant(c, s, xs, r)
    requires k < |Winners(c, s, xs)|
    ensures var w := Winners(c, s, xs);
            if k == 0 then w[k] == s.rr else w[k - 1] < c.numIn && ComesNext(r, w[k - 1], w[k])
    decreases |xs|
  {
    var t, rest := Step(c, s, xs[0]), Winners(c, Step(c, s, xs[0]), xs[1..]);
    ConstantStep(c, s, xs[0], r);
    if !xs[0].gnt {
      assert Winners(c, s, xs) == rest;
      ConstantLoadGoesRound(c, t, xs[1..], r, k);
    } else {
      assert Winners(c, s, xs) == [s.rr] + rest;
      if k > 0 {
        ConstantLoadGoesRound(c, t, xs[1..], r, k - 1);
      }
    }
  }

  ghost predicate AllSet(req: seq<bool>) {
    forall i :: 0 <= i < |req| ==> req[i]
  }

  ghost predicate LockedFull(c: Config, s: Regs) {
    c.numIn > 1 && c.lockIn && s.lock ==> AllSet(s.req)
  }

  ghost predicate FullLoad(c: Config, s: Regs, xs: seq<In>) {
    LockedFull(c, s) && forall k :: 0 <= k < |xs| ==> AllSet(xs[k].req)
  }

  /** One cycle under full load: a handshake serves the priority and moves it on by one. */
  lemma FullLoadStep(c: Config, s: Regs, x: In)
    requires Valid(c, s) && |x.req| == c.numIn && !x.flush && LockedFull(c, s) && AllSet(x.req)
    ensures var t := Step(c, s, x);
            && Valid(c, t)
            && LockedFull(c, t)
            && IdxOut(Visible(c, s, x.req), s.rr) == s.rr
            && t.rr == if Handshake(c, s, x) then After(c.numIn, s.rr) else s.rr
  {
    var req := Visible(c, s, x.req);
    StepKeepsValid(c, s, x);
    ArbiterSpec(c, req, s.rr, x.gnt);
    if Handshake(c, s, x) && c.numIn > 1 {
      NextIdxIsNearest(req, s.rr);
      assert Turn(c.numIn, s.rr, After(c.numIn, s.rr)) == 1;
    }
  }

  /** Under full load the handshakes go round: the k-th one serves the k-th input after the priority. */
  lemma {:induction false} FullLoadRotates(c: Config, s: Regs, xs: seq<In>, k: nat)
    requires Valid(c, s) && Inputs(c, xs) && FullLoad(c, s, xs)
    requires k < |Winners(c, s, xs)|
    ensures Winners(c, s, xs)[k] == (s.rr + k) % c.numIn
    decreases |xs|
  {
    var t := Step(c, s, xs[0]);
    FullLoadStep(c, s, xs[0]);
    if !Handshake(c, s, xs[0]) {
      assert Winners(c, s, xs) == Winners(c, t, xs[1..]);
      FullLoadRotates(c, t, xs[1..], k);
    } else {
      assert Winners(c, s, xs) == [s.rr] + Winners(c, t, xs[1..]);
      if k == 0 {
        QuotientUnique(s.rr, c.numIn, 0, s.rr);
      } else {
        FullLoadRotates(c, t, xs[1..], k - 1);
        RotateOne(c.numIn, s.rr, k);
      }
    }
  }

  lemma RotateOne(n: nat, rr: nat, k: nat)
    requires rr < n && k >= 1
    ensures (After(n, rr) + k - 1) % n == (rr + k) % n
  {
    if rr == n - 1 {
      var q := (k - 1) / n;
      assert k - 1 == n * q + (k - 1) % n;
      assert rr + k == n * (q + 1) + (k - 1) % n;
      QuotientUnique(rr + k, n, q + 1, (k - 1) % n);
    }
  }

  /** Under full load no input is served twice within `NumIn` consecutive handshakes ... */
  lemma FullLoadServesOnce(c: Config, s: Regs, xs: seq<In>, k: nat, m: nat)
    requires Valid(c, s) && Inputs(c, xs) && FullLoad(c, s, xs)
    requires k < m < k + c.numIn && m < |Winners(c, s, xs)|
    ensures Winners(c, s, xs)[k] != Winners(c, s, xs)[m]
  {
    FullLoadRotates(c, s, xs, k);
    FullLoadRotates(c, s, xs, m);
    DistinctResidues(c.numIn, s.rr + k, s.rr + m);
  }

  /** ... and every input is served in each of them. */
  lemma FullLoadServesAll(c: Config, s: Regs, xs: seq<In>, from: nat, i: nat) returns (k: nat)
    requires Valid(c, s) && Inputs(c, xs) && FullLoad(c, s, xs) && i < c.numIn
    requires from + c.numIn <= |Winners(c, s, xs)|
    ensures from <= k < from + c.numIn && Winners(c, s, xs)[k] == i
  {
    var n := c.numIn;
    var start := (s.rr + from) % n;
    var d := if i >= start then i - start else i + n - start;
    k := from + d;
    FullLoadRotates(c, s, xs, k);
    ResidueShift(n, s.rr + from, d, i);
  }

  lemma DistinctResidues(n: nat, x: nat, y: nat)
    requires x < y < x + n
    ensures x % n != y % n
  {
    var p, q := x / n, y / n;
    if x % n == y % n {
      assert y - x == n * q - n * p;
      if p < q {
        MultiplesApart(n, p, q);
      } else if q < p {
        MultiplesApart(n, q, p);
      }
    }
  }

  lemma ResidueShift(n: nat, x: nat, d: nat, i: nat)
    requires n >= 1 && i < n && d < n
    requires d == if i >= x % n then i - x % n else i + n - x % n
    ensures (x + d) % n == i
  {
    var q := x / n;
    assert x == n * q + x % n;
    if i >= x % n {
      QuotientUnique(x + d, n, q, i);
    } else {
      assert x + d == n * (q + 1) + i;
      QuotientUnique(x + d, n, q + 1, i);
    }
  }

  // ------------------------------------------------------------------ the clocked module

  class Arbiter {
    const c: Config
    var rr: nat
    var lockQ: bool
    var reqQ: seq<bool>

    function State(): Regs
      reads this
    {
      Regs(rr, lockQ, reqQ)
    }

    constructor (c: Config)
      requires c.numIn >= 1
      ensures this.c == c && State() == Reset(c) && Valid(c, State())
    {
      this.c := c;
      rr, lockQ, reqQ := 0, false, seq(c.numIn, i => false);
    }

    /** One rising edge. */
    method Tick(x: In)
      requires Valid(c, State()) && |x.req| == c.numIn
      modifies this
      ensures State() == Step(c, old(State()), x) && Valid(c, State())
    {
      StepKeepsValid(c, State(), x);
      if c.numIn == 1 {
        return;
      }
      var reqD := if c.lockIn && lockQ then reqQ else x.req;
      var reqO := ReqOut(reqD, rr);
      var rrD := rr;
      if x.gnt && reqO {
        if c.fairArb {
          rrD := NextIdx(reqD, rr);
        } else {
          rrD := if rr == c.numIn - 1 then 0 else rr + 1;
        }
      }
      if x.flush {
        rr, lockQ, reqQ := 0, false, seq(c.numIn, i => false);
      } else {
        rr, lockQ, reqQ := rrD, reqO && !x.gnt, reqD;
      }
    }
  }
}
