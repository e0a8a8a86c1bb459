/**
 * Driver for the MiG-V interrupt controller (riscv-hcsc1.h): one register set
 * with an M-mode target (0) and an S-mode target (1). Interrupt ids are
 * 1..PLIC_MAX_IRQ and id n owns bit n-1 of the enable and trigger registers;
 * id 0 only means "nothing pending". The kernel uses the S-mode target.
 */
module MigvPlic {
  import opened Bits
  import opened ClaimPort

  const TargetMMode: nat := 0
  const TargetSMode: nat := 1

  /** Four priority bits per interrupt, eight interrupts per priority word. */
  const NumPriorityWords: nat := 3

  /** The compile-time assertion: PLIC_MAX_IRQ interrupts fit the priority words. */
  predicate MaxIrqFits(maxIrq: nat)
  {
    4 * maxIrq <= 32 * NumPriorityWords
  }

  /** Under the compile-time bound every id's bit position n-1 lies inside a 32-bit register. */
  lemma BitIndexInRange(maxIrq: nat, irq: nat)
    requires MaxIrqFits(maxIrq) && 1 <= irq <= maxIrq
    ensures maxIrq <= 24 && irq - 1 < 32
  {}

  datatype MigvPlic = MigvPlic(
    config: bv64,
    triggerMode: bv32,               // bit n-1: 0 level, 1 edge
    priority: seq<bv32>,             // priority[3]
    ieTarget: seq<bv32>,             // ie_target[2]
    threshold: seq<bv32>,            // threshold[2]
    claim: seq<seq<PortAccess>>)     // claim[2], as access logs

  predicate WellFormed(p: MigvPlic)
  {
    |p.priority| == NumPriorityWords && |p.ieTarget| == 2 && |p.threshold| == 2 && |p.claim| == 2
  }

  datatype Claimed = Claimed(irq: Word32, plic: MigvPlic)

  /** plic_get_claim: reads claim[1], the S-mode target; `hw` is what the hardware returns. */
  function GetClaim(p: MigvPlic, hw: Word32): (r: Claimed)
    requires WellFormed(p)
    ensures WellFormed(r.plic) && r.irq == hw
    ensures r.plic.claim[TargetSMode] == p.claim[TargetSMode] + [ClaimRead(hw)]
    ensures r.plic == p.(claim := r.plic.claim) && r.plic.claim[TargetMMode] == p.claim[TargetMMode]
  {
    Claimed(hw, p.(claim := p.claim[TargetSMode := p.claim[TargetSMode] + [ClaimRead(hw)]]))
  }

  /** plic_complete_claim: writes irq to claim[1], the S-mode target. */
  function CompleteClaim(p: MigvPlic, irq: Word32): (q: MigvPlic)
    requires WellFormed(p)
    ensures WellFormed(q)
    ensures q.claim[TargetSMode] == p.claim[TargetSMode] + [CompleteWrite(irq)]
    ensures q == p.(claim := q.claim) && q.claim[TargetMMode] == p.claim[TargetMMode]
  {
    p.(claim := p.claim[TargetSMode := p.claim[TargetSMode] + [CompleteWrite(irq)]])
  }

  /**
   * plic_mask_irq: for irq > 0, clears (disable) or sets bit irq-1 of the
   * S-mode enable register; id 0 changes nothing. The mask BIT(irq-1) is a
   * 64-bit value stored into a 32-bit variable, so for irq-1 in 32..63 it is 0
   * and the register keeps its value; irq-1 >= 64 is an undefined shift.
   */
  function MaskIrq(p: MigvPlic, disable: bool, irq: nat): (q: MigvPlic)
    requires WellFormed(p) && irq <= 64
    ensures WellFormed(q) && q == p.(ieTarget := q.ieTarget) && q.ieTarget[TargetMMode] == p.ieTarget[TargetMMode]
    ensures irq == 0 || irq > 32 ==> q == p
    ensures 0 < irq <= 32 ==> TestBit32(q.ieTarget[TargetSMode], irq - 1) == !disable
    ensures forall b :: 0 <= b < 32 && b + 1 != irq ==>
                TestBit32(q.ieTarget[TargetSMode], b) == TestBit32(p.ieTarget[TargetSMode], b)
  {
    if 0 < irq <= 32 then
      p.(ieTarget := p.ieTarget[TargetSMode := UpdateBit32(p.ieTarget[TargetSMode], irq - 1, !disable)])
    else
      p
  }

  /**
   * plic_irq_set_trigger: for irq > 0, sets (edge) or clears (level) bit irq-1
   * of the trigger-mode register; id 0, and ids whose bit falls outside the
   * 32-bit mask, change nothing.
   */
  function SetTrigger(p: MigvPlic, irq: nat, edgeTriggered: bool): (q: MigvPlic)
    requires WellFormed(p) && irq <= 64
    ensures q == p.(triggerMode := q.triggerMode)
    ensures irq == 0 || irq > 32 ==> q == p
    ensures 0 < irq <= 32 ==> TestBit32(q.triggerMode, irq - 1) == edgeTriggered
    ensures forall b :: 0 <= b < 32 && b + 1 != irq ==> TestBit32(q.triggerMode, b) == TestBit32(p.triggerMode, b)
  {
    if 0 < irq <= 32 then p.(triggerMode := UpdateBit32(p.triggerMode, irq - 1, edgeTriggered)) else p
  }

  /** S-mode enable state of id irq (1..32). */
  predicate SEnabled(p: MigvPlic, irq: nat)
    requires WellFormed(p) && 1 <= irq <= 32
  {
    TestBit32(p.ieTarget[TargetSMode], irq - 1)
  }

  /** Of two mask writes to one id, the later decides the whole controller state. */
  lemma MaskLastWriteWins(p: MigvPlic, d1: bool, d2: bool, irq: nat)
    requires WellFormed(p) && irq <= 64
    ensures MaskIrq(MaskIrq(p, d1, irq), d2, irq) == MaskIrq(p, d2, irq)
  {
    if 0 < irq <= 32 {
      UpdateLastWins(p.ieTarget[TargetSMode], irq - 1, !d1, !d2);
    }
  }

  lemma MaskOtherId(p: MigvPlic, disable: bool, irq: nat, id: nat)
    requires WellFormed(p) && 1 <= irq <= 32 && 1 <= id <= 32 && id != irq
    ensures SEnabled(MaskIrq(p, disable, irq), id) == SEnabled(p, id)
  {}

  lemma MaskSameId(p: MigvPlic, disable: bool, irq: nat)
    requires WellFormed(p) && 1 <= irq <= 32
    ensures SEnabled(MaskIrq(p, disable, irq), irq) == !disable
  {}

  /** Masking an id and then restoring its previous setting leaves every id's enable state as it was. */
  lemma MaskThenRestore(p: MigvPlic, disable: bool, irq: nat)
    requires WellFormed(p) && 1 <= irq <= 32
    ensures var q := MaskIrq(MaskIrq(p, disable, irq), !SEnabled(p, irq), irq);
      q == p.(ieTarget := q.ieTarget) && q.ieTarget[TargetMMode] == p.ieTarget[TargetMMode] &&
      forall id :: 1 <= id <= 32 ==> SEnabled(q, id) == SEnabled(p, id)
  {
    var m := MaskIrq(p, disable, irq);
    var q := MaskIrq(m, !SEnabled(p, irq), irq);
    forall id | 1 <= id <= 32
      ensures SEnabled(q, id) == SEnabled(p, id)
    {
      if id != irq {
        MaskOtherId(p, disable, irq, id);
        MaskOtherId(m, !SEnabled(p, irq), irq, id);
      } else {
        MaskSameId(m, !SEnabled(p, irq), irq);
      }
    }
  }

  /** Of two trigger-mode writes to one id, the later decides the whole controller state. */
  lemma TriggerLastWriteWins(p: MigvPlic, e1: bool, e2: bool, irq: nat)
    requires WellFormed(p) && irq <= 64
    ensures SetTrigger(SetTrigger(p, irq, e1), irq, e2) == SetTrigger(p, irq, e2)
  {
    if 0 < irq <= 32 {
      UpdateLastWins(p.triggerMode, irq - 1, e1, e2);
    }
  }

  /**
   * plic_init_controller: masks ids 1..PLIC_MAX_IRQ (clearing bits 0..MAX-1 of
   * the S-mode enable register), gives every interrupt priority 1 (each 4-bit
   * field of each priority word holds 1), makes every interrupt edge-triggered
   * and sets the S-mode threshold to 0. Nothing is claimed or completed.
   */
  method InitController(p: MigvPlic, maxIrq: nat) returns (q: MigvPlic)
    requires WellFormed(p) && MaxIrqFits(maxIrq)
    ensures WellFormed(q)
    ensures forall b :: 0 <= b < maxIrq ==> !TestBit32(q.ieTarget[TargetSMode], b)
    ensures forall b :: maxIrq <= b < 32 ==> TestBit32(q.ieTarget[TargetSMode], b) == TestBit32(p.ieTarget[TargetSMode], b)
    ensures q.ieTarget[TargetMMode] == p.ieTarget[TargetMMode]
    ensures q.priority == [0x1111_1111, 0x1111_1111, 0x1111_1111]
    ensures q.triggerMode == 0xFFFF_FFFF
    ensures q.threshold == [p.threshold[TargetMMode], 0]
    ensures q.claim == p.claim && q.config == p.config
  {
    q := p;
    var i := 1;
    while i <= maxIrq
      invariant 1 <= i <= maxIrq + 1 <= 25
      invariant WellFormed(q) && q == p.(ieTarget := q.ieTarget)
      invariant q.ieTarget[TargetMMode] == p.ieTarget[TargetMMode]
      invariant forall b :: 0 <= b < i - 1 ==> !TestBit32(q.ieTarget[TargetSMode], b)
      invariant forall b :: i - 1 <= b < 32 ==> TestBit32(q.ieTarget[TargetSMode], b) == TestBit32(p.ieTarget[TargetSMode], b)
    {
      q := MaskIrq(q, true, i);
      i := i + 1;
    }
    var masked := q;
    var k := 0;
    while k < NumPriorityWords
      invariant 0 <= k <= NumPriorityWords
      invariant WellFormed(q)
      invariant forall j :: 0 <= j < k ==> q.priority[j] == 0x1111_1111
      invariant q == masked.(priority := q.priority)
    {
      q := q.(priority := q.priority[k := 0x1111_1111]);
      k := k + 1;
    }
    assert q.priority == [0x1111_1111, 0x1111_1111, 0x1111_1111];
    q := q.(triggerMode := 0xFFFF_FFFF);
    q := q.(threshold := q.threshold[TargetSMode := 0]);
    assert q.threshold == [p.threshold[TargetMMode], 0];
  }
}
