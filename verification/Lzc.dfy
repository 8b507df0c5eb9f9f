/** The tree zero counter of `lzc.sv`, for every width and both counting modes. */
module Lzc {
  import opened Bits

  /** One tree node: is any bit below it set, and the index it forwards. */
  datatype Node = Node(sel: bool, index: nat)

  datatype Result = Result(cnt: nat, empty: bool)

  /** The vector seen by the tree: reversed when counting from the top (`msb`). */
  function Flip(v: seq<bool>, msb: bool): (r: seq<bool>)
    ensures |r| == |v|
    ensures forall i :: 0 <= i < |v| ==> r[i] == if msb then v[|v| - 1 - i] else v[i]
  {
    seq(|v|, i requires 0 <= i < |v| => if msb then v[|v| - 1 - i] else v[i])
  }

  /** Node `l` of the level whose subtrees span `2^h` leaves. */
  function Tree(v: seq<bool>, h: nat, l: nat): Node
    requires h >= 1
  {
    if h == 1 then
      if 2 * l + 1 < |v| then
        Node(v[2 * l] || v[2 * l + 1], if v[2 * l] then 2 * l else 2 * l + 1)
      else if 2 * l + 1 == |v| then
        Node(v[2 * l], 2 * l)
      else
        Node(false, 0)
    else
      var left, right := Tree(v, h - 1, 2 * l), Tree(v, h - 1, 2 * l + 1);
      Node(left.sel || right.sel, if left.sel then left.index else right.index)
  }

  function Count(v: seq<bool>, msb: bool): Result
    requires |v| >= 1
  {
    if |v| == 1 then
      Result(if v[0] then 0 else 1, !v[0])
    else
      var root := Tree(Flip(v, msb), CeilLog2(|v|), 0);
      Result(root.index, !root.sel)
  }

  /** A node reports the lowest set bit of its window of leaves. */
  lemma {:induction false} TreeFindsLowest(v: seq<bool>, h: nat, l: nat)
    requires h >= 1
    ensures var n := Tree(v, h, l);
            && (n.sel ==> n.index < |v| && v[n.index] && n.index / Pow2(h) == l)
            && forall j :: 0 <= j < |v| && j / Pow2(h) == l && v[j] ==> n.sel && n.index <= j
    decreases h
  {
    var n := Tree(v, h, l);
    assert Pow2(1) == 2 * Pow2(0) == 2;
    if h == 1 {
      assert forall j :: 0 <= j < |v| && j / 2 == l ==> j == 2 * l || j == 2 * l + 1;
    } else {
      TreeFindsLowest(v, h - 1, 2 * l);
      TreeFindsLowest(v, h - 1, 2 * l + 1);
      if n.sel { WindowHalves(n.index, h); }
      forall j | 0 <= j < |v| && j / Pow2(h) == l && v[j]
        ensures n.sel && n.index <= j
      {
        WindowHalves(j, h);
        var left := Tree(v, h - 1, 2 * l);
        if left.sel && j / Pow2(h - 1) == 2 * l + 1 {
          if j < left.index {
            QuotientOrder(j, left.index, Pow2(h - 1));
          }
        }
      }
    }
  }

  /** The counter agrees with a linear search, from either end. */
  lemma CountIsLinearSearch(v: seq<bool>, msb: bool)
    requires |v| >= 1
    ensures var r := Count(v, msb);
            && (r.empty <==> forall j :: 0 <= j < |v| ==> !v[j])
            && (!r.empty && !msb ==>
                r.cnt < |v| && v[r.cnt] && forall j :: 0 <= j < r.cnt ==> !v[j])
            && (!r.empty && msb ==>
                r.cnt < |v| && v[|v| - 1 - r.cnt] && forall j :: |v| - r.cnt <= j < |v| ==> !v[j])
  {
    if |v| > 1 {
      var w, h := Flip(v, msb), CeilLog2(|v|);
      assert Pow2(0) == 1;
      TreeFindsLowest(w, h, 0);
      var n := Tree(w, h, 0);
      forall j | 0 <= j < |w| && w[j]
        ensures n.sel && n.index <= j
      {
        QuotientUnique(j, Pow2(h), 0, j);
      }
      if msb {
        forall j | 0 <= j < |v| && v[j]
          ensures n.sel && n.index <= |v| - 1 - j
        {
          assert w[|v| - 1 - j];
        }
      } else {
        assert w == v;
      }
    }
  }
}
