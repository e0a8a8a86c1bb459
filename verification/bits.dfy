/** Single-bit operations on 32-bit register words, indexed by bit position. */
module Bits {

  /** A 32-bit interrupt_t / irq_t value, or a 32-bit register read as a number. */
  type Word32 = x: nat | x < 0x1_0000_0000

  /** BIT(n) truncated to a 32-bit register. */
  function Bit32(n: nat): bv32
    requires n < 32
  {
    1 << (n as bv32)
  }

  /** Bit n of w is set. */
  predicate TestBit32(w: bv32, n: nat)
    requires n < 32
  {
    w & Bit32(n) != 0
  }

  lemma IndexRoundTrip(n: nat)
    requires n < 32
    ensures (n as bv32) as int == n
  {}

  /** Distinct positions give disjoint masks. */
  lemma MasksDisjoint(i: nat, j: nat)
    requires i < 32 && j < 32 && i != j
    ensures Bit32(i) & Bit32(j) == 0
  {
    IndexRoundTrip(i);
    IndexRoundTrip(j);
    var a: bv32 := i as bv32;
    var b: bv32 := j as bv32;
    assert a != b;
    assert (1 as bv32 << a) & (1 as bv32 << b) == 0;
  }

  /** Setting or clearing the bits of m leaves the bits of a disjoint k alone. */
  lemma DisjointMaskFrame(w: bv32, m: bv32, k: bv32)
    requires m & k == 0
    ensures (w | m) & k == w & k
    ensures (w & !m) & k == w & k
  {}

  lemma SetFrame(w: bv32, i: nat, j: nat)
    requires i < 32 && j < 32 && i != j
    ensures TestBit32(w | Bit32(i), j) == TestBit32(w, j)
  {
    MasksDisjoint(i, j);
    DisjointMaskFrame(w, Bit32(i), Bit32(j));
  }

  lemma ClearFrame(w: bv32, i: nat, j: nat)
    requires i < 32 && j < 32 && i != j
    ensures TestBit32(w & !Bit32(i), j) == TestBit32(w, j)
  {
    MasksDisjoint(i, j);
    DisjointMaskFrame(w, Bit32(i), Bit32(j));
  }

  lemma ClearedMask(w: bv32, m: bv32)
    ensures (w & !m) & m == 0
  {}

  lemma ClearHits(w: bv32, i: nat)
    requires i < 32
    ensures !TestBit32(w & !Bit32(i), i)
  {
    ClearedMask(w, Bit32(i));
  }

  /** `w |= BIT(i)`: bit i is set, every other bit is unchanged. */
  function SetBit32(w: bv32, i: nat): (r: bv32)
    requires i < 32
    ensures TestBit32(r, i)
    ensures forall j :: 0 <= j < 32 && j != i ==> TestBit32(r, j) == TestBit32(w, j)
  {
    forall j | 0 <= j < 32 && j != i
      ensures TestBit32(w | Bit32(i), j) == TestBit32(w, j)
    {
      SetFrame(w, i, j);
    }
    w | Bit32(i)
  }

  /** `w &= ~BIT(i)`: bit i is clear, every other bit is unchanged. */
  function ClearBit32(w: bv32, i: nat): (r: bv32)
    requires i < 32
    ensures !TestBit32(r, i)
    ensures forall j :: 0 <= j < 32 && j != i ==> TestBit32(r, j) == TestBit32(w, j)
  {
    ClearHits(w, i);
    forall j | 0 <= j < 32 && j != i
      ensures TestBit32(w & !Bit32(i), j) == TestBit32(w, j)
    {
      ClearFrame(w, i, j);
    }
    w & !Bit32(i)
  }

  /** The source's `if (on) *reg |= mask; else *reg &= ~mask;` idiom. */
  function UpdateBit32(w: bv32, i: nat, on: bool): (r: bv32)
    requires i < 32
    ensures TestBit32(r, i) == on
    ensures forall j :: 0 <= j < 32 && j != i ==> TestBit32(r, j) == TestBit32(w, j)
  {
    if on then SetBit32(w, i) else ClearBit32(w, i)
  }

  /** `if (on) w |= m; else w &= ~m;` for an arbitrary mask m. */
  function MaskWrite(w: bv32, m: bv32, on: bool): bv32
  {
    if on then w | m else w & !m
  }

  lemma UpdateWithMask(w: bv32, i: nat, on: bool)
    requires i < 32
    ensures UpdateBit32(w, i, on) == MaskWrite(w, Bit32(i), on)
  {}

  lemma SetOf(w: bv32, m: bv32) ensures MaskWrite(w, m, true) == w | m {}
  lemma ClearOf(w: bv32, m: bv32) ensures MaskWrite(w, m, false) == w & !m {}
  lemma OrOr(w: bv32, m: bv32) ensures (w | m) | m == w | m {}
  lemma AndOr(w: bv32, m: bv32) ensures (w & !m) | m == w | m {}
  lemma OrAnd(w: bv32, m: bv32) ensures (w | m) & !m == w & !m {}
  lemma AndAnd(w: bv32, m: bv32) ensures (w & !m) & !m == w & !m {}

  lemma MaskLastWins(w: bv32, m: bv32, a: bool, b: bool)
    ensures MaskWrite(MaskWrite(w, m, a), m, b) == MaskWrite(w, m, b)
  {
    SetOf(w, m);
    ClearOf(w, m);
    if a {
      SetOf(w | m, m);
      ClearOf(w | m, m);
      OrOr(w, m);
      OrAnd(w, m);
    } else {
      SetOf(w & !m, m);
      ClearOf(w & !m, m);
      AndOr(w, m);
      AndAnd(w, m);
    }
  }

  /** Writing a bit and then writing back its old value leaves every bit as it was. */
  lemma UpdateRestores(w: bv32, i: nat, on: bool, r: bv32)
    requires i < 32
    requires r == UpdateBit32(UpdateBit32(w, i, on), i, TestBit32(w, i))
    ensures forall j :: 0 <= j < 32 ==> TestBit32(r, j) == TestBit32(w, j)
  {
    var u := UpdateBit32(w, i, on);
    forall j | 0 <= j < 32
      ensures TestBit32(r, j) == TestBit32(w, j)
    {
      if j != i {
        assert TestBit32(u, j) == TestBit32(w, j);
      }
    }
  }

  /** Of two writes to the same bit, the second decides the word. */
  lemma UpdateLastWins(w: bv32, i: nat, a: bool, b: bool)
    requires i < 32
    ensures UpdateBit32(UpdateBit32(w, i, a), i, b) == UpdateBit32(w, i, b)
  {
    UpdateWithMask(w, i, a);
    UpdateWithMask(UpdateBit32(w, i, a), i, b);
    UpdateWithMask(w, i, b);
    MaskLastWins(w, Bit32(i), a, b);
  }
}
