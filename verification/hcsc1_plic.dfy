/**
 * The legacy interrupt-controller functions of the hcsc1 platform instance
 * header (plat/instance/hcsc1/hardware.h): a register set with single
 * enable, threshold and claim registers per target, driven through target 0.
 * Ids are 1..PLIC_MAX_NUM_INT; id n owns bit n-1 of the enable and
 * edge/level registers and the 4-bit priority field n-1 of the priority words.
 */
module Hcsc1Plic {
  import opened Bits
  import opened ClaimPort

  /** PLIC_MAX_NUM_INT of this instance. */
  const PlicMaxNumInt: nat := 24

  /** priority0..priority2, which plic_init_controller walks as an array. */
  const NumPriorityWords: nat := 3

  datatype LegacyPlic = LegacyPlic(
    config: bv64,
    el: bv32,                        // edge (1) or level (0), bit n-1 for id n
    priority: seq<bv32>,             // priority0, priority1, priority2
    ieTarget0: bv32,
    ieTarget1: bv32,
    threshold0: bv32,
    threshold1: bv32,
    idTarget0: seq<PortAccess>,      // claim/complete register of target 0, as an access log
    idTarget1: seq<PortAccess>)

  predicate WellFormed(p: LegacyPlic)
  {
    |p.priority| == NumPriorityWords
  }

  /** Id irq is enabled for target 0. */
  predicate Enabled(p: LegacyPlic, irq: nat)
    requires 1 <= irq <= 32
  {
    TestBit32(p.ieTarget0, irq - 1)
  }

  datatype Claimed = Claimed(irq: Word32, plic: LegacyPlic)

  /** plic_get_claim: reads idtarget0; `hw` is what the hardware returns. */
  function GetClaim(p: LegacyPlic, hw: Word32): (r: Claimed)
    ensures r.irq == hw && r.plic.idTarget0 == p.idTarget0 + [ClaimRead(hw)]
    ensures r.plic == p.(idTarget0 := r.plic.idTarget0)
  {
    Claimed(hw, p.(idTarget0 := p.idTarget0 + [ClaimRead(hw)]))
  }

  /** plic_complete_claim: writes irq to idtarget0. */
  function CompleteClaim(p: LegacyPlic, irq: Word32): (q: LegacyPlic)
    ensures q.idTarget0 == p.idTarget0 + [CompleteWrite(irq)]
    ensures q == p.(idTarget0 := q.idTarget0)
  {
    p.(idTarget0 := p.idTarget0 + [CompleteWrite(irq)])
  }

  /**
   * plic_mask_irq: disabling clears bit irq-1 of ietarget0 and then completes
   * irq; enabling sets the bit. BIT(irq-1) is a 64-bit mask applied to a
   * 32-bit register, so for irq-1 in 32..63 the register keeps its value
   * (the completion is still written); irq 0 would be an undefined shift.
   */
  function MaskIrq(p: LegacyPlic, disable: bool, irq: nat): (q: LegacyPlic)
    requires 1 <= irq <= 64
    ensures q == p.(ieTarget0 := q.ieTarget0, idTarget0 := q.idTarget0)
    ensures q.idTarget0 == if disable then p.idTarget0 + [CompleteWrite(irq)] else p.idTarget0
    ensures irq <= 32 ==> Enabled(q, irq) == !disable
    ensures irq > 32 ==> q.ieTarget0 == p.ieTarget0
    ensures forall b :: 0 <= b < 32 && b + 1 != irq ==> TestBit32(q.ieTarget0, b) == TestBit32(p.ieTarget0, b)
  {
    var w := if irq <= 32 then UpdateBit32(p.ieTarget0, irq - 1, !disable) else p.ieTarget0;
    var masked := p.(ieTarget0 := w);
    if disable then CompleteClaim(masked, irq) else masked
  }

  /** plic_irq_set_trigger: sets (edge) or clears (level) bit irq-1 of el. */
  function SetTrigger(p: LegacyPlic, irq: nat, edgeTriggered: bool): (q: LegacyPlic)
    requires 1 <= irq <= 64
    ensures q == p.(el := q.el)
    ensures irq <= 32 ==> TestBit32(q.el, irq - 1) == edgeTriggered
    ensures irq > 32 ==> q == p
    ensures forall b :: 0 <= b < 32 && b + 1 != irq ==> TestBit32(q.el, b) == TestBit32(p.el, b)
  {
    if irq <= 32 then p.(el := UpdateBit32(p.el, irq - 1, edgeTriggered)) else p
  }

  lemma MaskOtherId(p: LegacyPlic, disable: bool, irq: nat, id: nat)
    requires 1 <= irq <= 32 && 1 <= id <= 32 && id != irq
    ensures Enabled(MaskIrq(p, disable, irq), id) == Enabled(p, id)
  {}

  /**
   * Disabling an id and then enabling it again restores every id's enable
   * state; what remains is the completion the disable wrote.
   */
  lemma DisableThenEnable(p: LegacyPlic, irq: nat)
    requires 1 <= irq <= 32 && Enabled(p, irq)
    ensures var q := MaskIrq(MaskIrq(p, true, irq), false, irq);
      q == p.(ieTarget0 := q.ieTarget0, idTarget0 := p.idTarget0 + [CompleteWrite(irq)]) &&
      forall id :: 1 <= id <= 32 ==> Enabled(q, id) == Enabled(p, id)
  {
    var m := MaskIrq(p, true, irq);
    var q := MaskIrq(m, false, irq);
    forall id | 1 <= id <= 32
      ensures Enabled(q, id) == Enabled(p, id)
    {
      if id != irq {
        MaskOtherId(p, true, irq, id);
        MaskOtherId(m, false, irq, id);
      }
    }
  }

  /** Word and bit of the 4-bit priority field of id n+1, as plic_init_controller computes them. */
  function PriorityWord(n: nat): nat { n / 8 }
  function PriorityBit(n: nat): nat { 4 * (n % 8) }

  /** The (word, bit) pairs of the priority fields are distinct and cover every multiple of four. */
  lemma PriorityPosition(n: nat, k: nat, b: nat)
    requires k < NumPriorityWords && b < 32
    ensures PriorityWord(n) == k && PriorityBit(n) == b <==> b % 4 == 0 && 8 * k + b / 4 == n
  {}

  /** `priorities[index] |= BIT(bit)` for the field of id n+1. */
  function SetPriorityLowBit(pr: seq<bv32>, n: nat): (r: seq<bv32>)
    requires |pr| == NumPriorityWords && n < 8 * NumPriorityWords
    ensures |r| == NumPriorityWords
    ensures forall k, b :: 0 <= k < NumPriorityWords && 0 <= b < 32 ==>
              TestBit32(r[k], b) == (TestBit32(pr[k], b) || (k == PriorityWord(n) && b == PriorityBit(n)))
  {
    var k0 := PriorityWord(n);
    var w := SetBit32(pr[k0], PriorityBit(n));
    var r := pr[k0 := w];
    forall k, b | 0 <= k < NumPriorityWords && 0 <= b < 32
      ensures TestBit32(r[k], b) == (TestBit32(pr[k], b) || (k == k0 && b == PriorityBit(n)))
    {
      if k != k0 {
        assert r[k] == pr[k];
      }
    }
    r
  }

  /** The ids 1..n completed in order. */
  function CompleteRun(n: nat): (log: seq<PortAccess>)
    ensures |log| == n
    ensures forall k :: 0 <= k < n ==> log[k] == CompleteWrite(k + 1)
  {
    seq(n, (k: int) requires 0 <= k => CompleteWrite(k + 1))
  }

  /** Every logged write of CompleteRun(n) completes ids 1..n in turn. */
  lemma CompleteRunIds(n: nat)
    ensures Completions(CompleteRun(n)) == seq(n, k => k + 1)
  {
    if n > 0 {
      CompleteRunIds(n - 1);
      assert CompleteRun(n) == CompleteRun(n - 1) + [CompleteWrite(n)];
      CompletionsAppend(CompleteRun(n - 1), [CompleteWrite(n)]);
      assert seq(n, (k: int) => k + 1) == seq(n - 1, (k: int) => k + 1) + [n];
    }
  }

  /** One iteration of plic_init_controller's loop, for id n+1. */
  function InitStep(q: LegacyPlic, n: nat): (r: LegacyPlic)
    requires WellFormed(q) && n < PlicMaxNumInt
    ensures WellFormed(r)
  {
    var m := MaskIrq(q, true, n + 1);
    m.(priority := SetPriorityLowBit(m.priority, n))
  }

  /** State of plic_init_controller from p after ids 1..n. */
  predicate EnablesCleared(p: LegacyPlic, q: LegacyPlic, n: nat)
  {
    && (forall b :: 0 <= b < 32 && b < n ==> !TestBit32(q.ieTarget0, b))
    && (forall b :: 0 <= b < 32 && n <= b ==> TestBit32(q.ieTarget0, b) == TestBit32(p.ieTarget0, b))
  }

  predicate PrioritiesRaised(p: LegacyPlic, q: LegacyPlic, n: nat)
    requires WellFormed(p) && WellFormed(q)
  {
    forall k, b :: 0 <= k < NumPriorityWords && 0 <= b < 32 ==>
      TestBit32(q.priority[k], b) == (TestBit32(p.priority[k], b) || (b % 4 == 0 && 8 * k + b / 4 < n))
  }

  lemma StepClearsEnable(p: LegacyPlic, q: LegacyPlic, n: nat)
    requires WellFormed(q) && n < PlicMaxNumInt && EnablesCleared(p, q, n)
    ensures EnablesCleared(p, InitStep(q, n), n + 1)
  {
    var m := MaskIrq(q, true, n + 1);
    assert InitStep(q, n).ieTarget0 == m.ieTarget0;
  }

  lemma StepRaisesPriority(p: LegacyPlic, q: LegacyPlic, n: nat)
    requires WellFormed(p) && WellFormed(q) && n < PlicMaxNumInt && PrioritiesRaised(p, q, n)
    ensures PrioritiesRaised(p, InitStep(q, n), n + 1)
  {
    var r := InitStep(q, n);
    assert r.priority == SetPriorityLowBit(q.priority, n);
    forall k, b | 0 <= k < NumPriorityWords && 0 <= b < 32
      ensures TestBit32(r.priority[k], b) == (TestBit32(p.priority[k], b) || (b % 4 == 0 && 8 * k + b / 4 < n + 1))
    {
      PriorityPosition(n, k, b);
    }
  }

  lemma StepFrame(q: LegacyPlic, n: nat)
    requires WellFormed(q) && n < PlicMaxNumInt
    ensures var r := InitStep(q, n);
      r == q.(ieTarget0 := r.ieTarget0, idTarget0 := r.idTarget0, priority := r.priority) &&
      r.idTarget0 == q.idTarget0 + [CompleteWrite(n + 1)]
  {}

  /**
   * plic_init_controller: for ids 1..24 disables the id (which also completes
   * it) and sets the low bit of its priority field; then sets every id to
   * level-triggered (el = 0) and threshold0 to 0.
   */
  method InitController(p: LegacyPlic) returns (q: LegacyPlic)
    requires WellFormed(p)
    ensures WellFormed(q)
    ensures forall id :: 1 <= id <= PlicMaxNumInt ==> !Enabled(q, id)
    ensures forall b :: PlicMaxNumInt <= b < 32 ==> TestBit32(q.ieTarget0, b) == TestBit32(p.ieTarget0, b)
    ensures q.idTarget0 == p.idTarget0 + CompleteRun(PlicMaxNumInt)
    ensures forall n :: 0 <= n < PlicMaxNumInt ==> TestBit32(q.priority[PriorityWord(n)], PriorityBit(n))
    ensures forall k, b :: 0 <= k < NumPriorityWords && 0 <= b < 32 && b % 4 != 0 ==>
              TestBit32(q.priority[k], b) == TestBit32(p.priority[k], b)
    ensures q.el == 0 && q.threshold0 == 0
    ensures q.config == p.config && q.ieTarget1 == p.ieTarget1 && q.threshold1 == p.threshold1 && q.idTarget1 == p.idTarget1
  {
    q := p;
    var n := 0;
    while n < PlicMaxNumInt
      invariant 0 <= n <= PlicMaxNumInt
      invariant WellFormed(q) && q == p.(ieTarget0 := q.ieTarget0, idTarget0 := q.idTarget0, priority := q.priority)
      invariant q.idTarget0 == p.idTarget0 + CompleteRun(n)
      invariant EnablesCleared(p, q, n)
      invariant PrioritiesRaised(p, q, n)
    {
      StepClearsEnable(p, q, n);
      StepRaisesPriority(p, q, n);
      StepFrame(q, n);
      assert CompleteRun(n + 1) == CompleteRun(n) + [CompleteWrite(n + 1)];
      q := InitStep(q, n);
      n := n + 1;
    }
    forall n | 0 <= n < PlicMaxNumInt
      ensures TestBit32(q.priority[PriorityWord(n)], PriorityBit(n))
    {
      PriorityPosition(n, PriorityWord(n), PriorityBit(n));
    }
    q := q.(el := 0, threshold0 := 0);
  }
}
