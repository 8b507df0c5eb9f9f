/**
 Store data and byte strobes of `MEM_REQ_MUX_2.sv` and load extraction of `MEM_RECV_MUX.sv`, over a
 byte-addressed little-endian memory. A 32-bit word is written as its four bytes, lane 0 the least
 significant: all shifts in these modules are by whole bytes.
 */
module MemLanes {

  type Memory = nat -> bv8

  /** The access kinds: byte, half, word, and the left and right parts of an unaligned word. */
  datatype Kind = Byte | Half | Word | Left | Right

  datatype Word32 = W(b0: bv8, b1: bv8, b2: bv8, b3: bv8)

  const ONES := W(0xff, 0xff, 0xff, 0xff)

  function Lane(w: Word32, k: nat): bv8 {
    if k == 0 then w.b0 else if k == 1 then w.b1 else if k == 2 then w.b2 else w.b3
  }

  /** `w << {n, 3'b0}`. */
  function Shl8(w: Word32, n: nat): Word32 {
    if n == 0 then w else if n == 1 then W(0, w.b0, w.b1, w.b2)
    else if n == 2 then W(0, 0, w.b0, w.b1) else W(0, 0, 0, w.b0)
  }

  /** `w >> {n, 3'b0}`. */
  function Shr8(w: Word32, n: nat): Word32 {
    if n == 0 then w else if n == 1 then W(w.b1, w.b2, w.b3, 0)
    else if n == 2 then W(w.b2, w.b3, 0, 0) else W(w.b3, 0, 0, 0)
  }

  function MergeByte(v: bv8, reg: bv8, mask: bv8): (r: bv8)
    ensures mask == 0xff ==> r == v
    ensures mask == 0 && v == 0 ==> r == reg
  {
    v | (reg & !mask)
  }

  /** `v | (reg & ~mask)`. */
  function Merge(v: Word32, reg: Word32, mask: Word32): Word32 {
    W(MergeByte(v.b0, reg.b0, mask.b0), MergeByte(v.b1, reg.b1, mask.b1),
      MergeByte(v.b2, reg.b2, mask.b2), MergeByte(v.b3, reg.b3, mask.b3))
  }

  function WordBase(a: nat): nat {
    a - a % 4
  }

  // ------------------------------------------------------------------ request side

  /** `data_wstrb`, one flag per byte of the aligned word. */
  predicate Strobe(kind: Kind, a: nat, k: nat) {
    var off := a % 4;
    match kind
    case Byte => k == off
    case Half => off / 2 * 2 <= k < off / 2 * 2 + 2
    case Word => true
    case Left => k <= off
    case Right => off <= k
  }

  /** `data_wdata`. */
  function StoreData(kind: Kind, a: nat, w: Word32): Word32 {
    var off := a % 4;
    match kind
    case Byte => Shl8(W(w.b0, 0, 0, 0), off)
    case Half => if off / 2 == 0 then W(w.b0, w.b1, 0, 0) else W(0, 0, w.b0, w.b1)
    case Word => w
    case Left => Shr8(w, 3 - off)
    case Right => Shl8(w, off)
  }

  /** The byte at `x` after the store; the memory honours the strobes. */
  function StoredByte(m: Memory, kind: Kind, a: nat, w: Word32, x: nat): bv8 {
    if WordBase(a) <= x < WordBase(a) + 4 && Strobe(kind, a, x - WordBase(a))
    then Lane(StoreData(kind, a, w), x - WordBase(a)) else m(x)
  }

  function Store(m: Memory, kind: Kind, a: nat, w: Word32): Memory {
    (x: nat) => StoredByte(m, kind, a, w, x)
  }

  // ------------------------------------------------------------------ response side

  function LoadWord(m: Memory, a: nat): Word32 {
    W(m(a), m(a + 1), m(a + 2), m(a + 3))
  }

  /** The bits that extend a value whose top byte is `top`. */
  function Fill(top: bv8, sign: bool): bv8 {
    if sign && top & 0x80 != 0 then 0xff else 0
  }

  function ExtendByte(w: Word32, sign: bool): Word32 {
    var f := Fill(w.b0, sign);
    W(w.b0, f, f, f)
  }

  function ExtendHalf(w: Word32, sign: bool): Word32 {
    var f := Fill(w.b1, sign);
    W(w.b0, w.b1, f, f)
  }

  /** `result`, from the aligned word `r` and the previous register value. */
  function Extract(kind: Kind, a: nat, sign: bool, r: Word32, reg: Word32): Word32 {
    var off := a % 4;
    match kind
    case Byte => ExtendByte(Shr8(r, off), sign)
    case Half => ExtendHalf(if off / 2 == 1 then Shr8(r, 2) else r, sign)
    case Word => r
    case Left => Merge(Shl8(r, 3 - off), reg, Shl8(ONES, 3 - off))
    case Right => Merge(Shr8(r, off), reg, Shr8(ONES, off))
  }

  function Load(m: Memory, kind: Kind, a: nat, sign: bool, reg: Word32): Word32 {
    Extract(kind, a, sign, LoadWord(m, WordBase(a)), reg)
  }

  // ------------------------------------------------------------------ byte algebra

  /** Moving bytes through shifts. */
  lemma LaneOfShift(w: Word32, n: nat, k: nat)
    requires n < 4 && k < 4
    ensures Lane(Shl8(w, n), k) == if k >= n then Lane(w, k - n) else 0
    ensures Lane(Shr8(w, n), k) == if k + n < 4 then Lane(w, k + n) else 0
  {
    assert n == 0 || n == 1 || n == 2 || n == 3;
    assert k == 0 || k == 1 || k == 2 || k == 3;
  }

  // ------------------------------------------------------------------ unaligned words

  /** The right part at `a` writes the bytes from `a` to the end of its word. */
  lemma RightStore(m: Memory, a: nat, w: Word32, x: nat)
    ensures Store(m, Right, a, w)(x) == if a <= x < WordBase(a) + 4 then Lane(w, x - a) else m(x)
  {
    if a <= x < WordBase(a) + 4 {
      LaneOfShift(w, a % 4, x - WordBase(a));
    }
  }

  /** The left part at `a` writes the bytes from the start of its word to `a`. */
  lemma LeftStore(m: Memory, a: nat, w: Word32, x: nat)
    ensures Store(m, Left, a, w)(x) == if WordBase(a) <= x <= a then Lane(w, 3 - (a - x)) else m(x)
  {
    if WordBase(a) <= x <= a {
      var n, k := 3 - a % 4, x - WordBase(a);
      assert 3 - (a - x) == k + n;
      LaneOfShift(w, n, k);
    }
  }

  /**
   A right store at `a` and a left store at `a + 3`, in either order, write exactly the four
   little-endian bytes of the word from `a` on and nothing else, for every alignment.
   */
  lemma UnalignedStore(m: Memory, a: nat, w: Word32, x: nat)
    ensures var want := if a <= x < a + 4 then Lane(w, x - a) else m(x);
            && Store(Store(m, Right, a, w), Left, a + 3, w)(x) == want
            && Store(Store(m, Left, a + 3, w), Right, a, w)(x) == want
  {
    RightStore(m, a, w, x);
    LeftStore(m, a + 3, w, x);
    RightStore(Store(m, Left, a + 3, w), a, w, x);
    LeftStore(Store(m, Right, a, w), a + 3, w, x);
  }

  /** The bytes a right load takes from memory; the others keep the register's. */
  lemma RightLoad(m: Memory, a: nat, sign: bool, reg: Word32, k: nat)
    requires k < 4
    ensures Lane(Load(m, Right, a, sign, reg), k) == if a + k < WordBase(a) + 4 then m(a + k) else Lane(reg, k)
  {
    var b, off := WordBase(a), a % 4;
    MergeRight(LoadWord(m, b), reg, off, k);
  }

  lemma MergeRight(r: Word32, reg: Word32, n: nat, k: nat)
    requires n < 4 && k < 4
    ensures Lane(Merge(Shr8(r, n), reg, Shr8(ONES, n)), k) == if k + n < 4 then Lane(r, k + n) else Lane(reg, k)
  {
    assert n == 0 || n == 1 || n == 2 || n == 3;
    assert k == 0 || k == 1 || k == 2 || k == 3;
  }

  lemma MergeLeft(r: Word32, reg: Word32, n: nat, k: nat)
    requires n < 4 && k < 4
    ensures Lane(Merge(Shl8(r, n), reg, Shl8(ONES, n)), k) == if k >= n then Lane(r, k - n) else Lane(reg, k)
  {
    assert n == 0 || n == 1 || n == 2 || n == 3;
    assert k == 0 || k == 1 || k == 2 || k == 3;
  }

  /** The bytes a left load at `a + 3` takes from memory, by distance from `a`. */
  lemma LeftLoad(m: Memory, a: nat, sign: bool, reg: Word32, k: nat)
    requires k < 4
    ensures Lane(Load(m, Left, a + 3, sign, reg), k) ==
            if WordBase(a + 3) <= a + k then m(a + k) else Lane(reg, k)
  {
    var b, n := WordBase(a + 3), 3 - (a + 3) % 4;
    assert b == a + n;
    MergeLeft(LoadWord(m, b), reg, n, k);
    assert k >= n ==> Lane(LoadWord(m, b), k - n) == m(b + (k - n));
  }

  /** Either order of the two loads reads the four bytes from `a` on, whatever the register held. */
  lemma UnalignedLoad(m: Memory, a: nat, s0: bool, s1: bool, reg: Word32)
    ensures Load(m, Left, a + 3, s1, Load(m, Right, a, s0, reg)) == LoadWord(m, a)
    ensures Load(m, Right, a, s1, Load(m, Left, a + 3, s0, reg)) == LoadWord(m, a)
  {
    var rl := Load(m, Left, a + 3, s1, Load(m, Right, a, s0, reg));
    var lr := Load(m, Right, a, s1, Load(m, Left, a + 3, s0, reg));
    forall k: nat | k < 4
      ensures Lane(rl, k) == m(a + k) && Lane(lr, k) == m(a + k)
    {
      RightLoad(m, a, s0, reg, k);
      LeftLoad(m, a, s1, Load(m, Right, a, s0, reg), k);
      LeftLoad(m, a, s0, reg, k);
      RightLoad(m, a, s1, Load(m, Left, a + 3, s0, reg), k);
      assert WordBase(a + 3) <= a + k || a + k < WordBase(a) + 4;
    }
    assert Lane(rl, 0) == m(a) && Lane(rl, 1) == m(a + 1) && Lane(rl, 2) == m(a + 2) && Lane(rl, 3) == m(a + 3);
    assert Lane(lr, 0) == m(a) && Lane(lr, 1) == m(a + 1) && Lane(lr, 2) == m(a + 2) && Lane(lr, 3) == m(a + 3);
  }

  /** What an unaligned store pair wrote, an unaligned load pair reads back. */
  lemma UnalignedRoundTrip(m: Memory, a: nat, w: Word32, reg: Word32)
    ensures var m' := Store(Store(m, Right, a, w), Left, a + 3, w);
            Load(m', Left, a + 3, false, Load(m', Right, a, false, reg)) == w
  {
    var m' := Store(Store(m, Right, a, w), Left, a + 3, w);
    UnalignedLoad(m', a, false, false, reg);
    UnalignedStore(m, a, w, a);
    UnalignedStore(m, a, w, a + 1);
    UnalignedStore(m, a, w, a + 2);
    UnalignedStore(m, a, w, a + 3);
  }

  // ------------------------------------------------------------------ aligned accesses

  /** How many bytes an aligned access covers. */
  function Width(kind: Kind): nat {
    if kind == Byte then 1 else if kind == Half then 2 else 4
  }

  predicate Aligned(kind: Kind, a: nat) {
    (kind == Byte || kind == Half || kind == Word) && a % Width(kind) == 0
  }

  /** An aligned store writes its own low bytes and no others. */
  lemma AlignedStore(m: Memory, kind: Kind, a: nat, w: Word32, x: nat)
    requires Aligned(kind, a)
    ensures Store(m, kind, a, w)(x) == if a <= x < a + Width(kind) then Lane(w, x - a) else m(x)
  {
    var off := a % 4;
    if kind == Byte {
      if x == a { LaneOfShift(W(w.b0, 0, 0, 0), off, off); }
    } else if kind == Half {
      assert off == 0 || off == 2;
    }
  }

  /** What the register receives: the low bytes of the word stored, extended as asked. */
  function Narrowed(kind: Kind, w: Word32, sign: bool): Word32 {
    if kind == Byte then ExtendByte(w, sign) else if kind == Half then ExtendHalf(w, sign) else w
  }

  /** The unsigned value of a whole register, and of the field of `kind` at its low end. */
  function Unsigned(w: Word32): nat {
    w.b0 as nat + 0x100 * (w.b1 as nat) + 0x1_0000 * (w.b2 as nat) + 0x100_0000 * (w.b3 as nat)
  }

  function Field(kind: Kind, w: Word32): nat {
    if kind == Byte then w.b0 as nat
    else if kind == Half then w.b0 as nat + 0x100 * (w.b1 as nat)
    else Unsigned(w)
  }

  /** The two's complement value of `v` among `m` values. */
  function Signed(v: nat, m: nat): int {
    if v >= m / 2 then v - m else v
  }

  /** How many values the field has. */
  function Values(kind: Kind): nat {
    if kind == Byte then 0x100 else if kind == Half then 0x1_0000 else 0x1_0000_0000
  }

  /** The fill byte is all ones just when a negative field is extended as signed. */
  lemma FillValue(top: bv8, sign: bool)
    ensures Fill(top, sign) as nat == if sign && top as int >= 0x80 then 0xff else 0
  {
    assert top & 0x80 != 0 <==> top >= 0x80;
  }

  /** The whole register is the number that the narrow field is, read as signed or as unsigned. */
  lemma ExtensionKeepsValue(kind: Kind, w: Word32)
    requires kind == Byte || kind == Half || kind == Word
    ensures Unsigned(Narrowed(kind, w, false)) == Field(kind, w)
    ensures Signed(Unsigned(Narrowed(kind, w, true)), Values(Word)) == Signed(Field(kind, w), Values(kind))
  {
    var top := if kind == Byte then w.b0 else w.b1;
    FillValue(top, false);
    FillValue(top, true);
  }

  /** The word an aligned load works on, moved down to its first byte. */
  lemma AlignedLoad(m: Memory, kind: Kind, a: nat, sign: bool, reg: Word32, w: Word32)
    requires Aligned(kind, a)
    requires forall k :: 0 <= k < Width(kind) ==> m(a + k) == Lane(w, k)
    ensures Load(m, kind, a, sign, reg) == Narrowed(kind, w, sign)
  {
    var b, off := WordBase(a), a % 4;
    assert m(a + 0) == Lane(w, 0);
    if kind == Byte {
      ShiftedByte(LoadWord(m, b), off);
      assert Lane(LoadWord(m, b), off) == m(b + off);
    } else {
      assert m(a + 1) == Lane(w, 1);
      if kind == Word {
        assert m(a + 2) == Lane(w, 2) && m(a + 3) == Lane(w, 3);
      } else {
        assert off == 0 || off == 2;
      }
    }
  }

  lemma ShiftedByte(r: Word32, n: nat)
    requires n < 4
    ensures Shr8(r, n).b0 == Lane(r, n)
  {
    LaneOfShift(r, n, 0);
  }

  /** Aligned sub-word and word accesses round-trip, with sign or zero extension. */
  lemma AlignedRoundTrip(m: Memory, kind: Kind, a: nat, w: Word32, sign: bool, reg: Word32)
    requires Aligned(kind, a)
    ensures Load(Store(m, kind, a, w), kind, a, sign, reg) == Narrowed(kind, w, sign)
  {
    forall k | 0 <= k < Width(kind)
      ensures Store(m, kind, a, w)(a + k) == Lane(w, k)
    {
      AlignedStore(m, kind, a, w, a + k);
    }
    AlignedLoad(Store(m, kind, a, w), kind, a, sign, reg, w);
  }
}
