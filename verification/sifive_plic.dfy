/**
 * Driver for the multi-hart SiFive U54/U74 platform-level interrupt controller
 * (riscv_plic0.h). Hart 0 has an M-mode context only; harts 1..4 have an
 * M-mode and an S-mode context each, giving nine register banks. The kernel
 * runs in S-mode and always uses bank 2*hart_id.
 */
module SifivePlic {
  import opened Results
  import opened Bits
  import opened ClaimPort

  /** Number of context register banks (hart 0 M-mode, harts 1..4 M- and S-mode). */
  const NumBanks: nat := 9

  /** PLIC_NUM_INTERUPTS: interrupt 0 is a dummy, real ones are 1..PLIC_MAX_IRQ. */
  function NumInterrupts(maxIrq: nat): nat
  {
    maxIrq + 1
  }

  /** PLIC_NUM_U32_INTR_BITMAPS: 32-bit words needed for one bit per interrupt. */
  function NumBitmapWords(maxIrq: nat): (w: nat)
    ensures 32 * w >= NumInterrupts(maxIrq)
    ensures 32 * (w - 1) < NumInterrupts(maxIrq)
  {
    (NumInterrupts(maxIrq) + 31) / 32
  }

  /** Every real interrupt's enable bit lies inside the bitmap. */
  lemma BitmapCoversEveryIrq(maxIrq: nat, irq: nat)
    requires irq <= maxIrq
    ensures irq / 32 < NumBitmapWords(maxIrq)
  {}

  // ---------------------------------------------------------------------
  // Register layout of plic_t

  datatype Layout = Layout(
    pending: nat,
    hartEnable: nat,
    hartEnableStride: nat,
    hartRegs: nat,
    hartRegsStride: nat,
    claimInBank: nat)

  /** A gap array whose length came out negative: the C declaration does not compile. */
  datatype LayoutError = NegativeGap(field: string)

  /**
   * Byte offsets of the fields of plic_t, accumulated from the declared array
   * lengths in order (4 bytes per uint32_t).
   */
  function ComputeLayout(maxIrq: nat): (r: Result<Layout, LayoutError>)
    ensures r.Ok? <==> NumInterrupts(maxIrq) <= 1024
    ensures r.Ok? ==> r.value.pending == 0x1000
    ensures r.Ok? ==> r.value.hartEnable == 0x2000 && r.value.hartEnableStride == 0x80
    ensures r.Ok? ==> r.value.hartEnable + r.value.hartEnableStride == 0x2080
    ensures r.Ok? ==> r.value.hartRegs == 0x200000 && r.value.hartRegsStride == 0x1000
    ensures r.Ok? ==> r.value.hartRegs + r.value.hartRegsStride == 0x201000
    ensures r.Ok? ==> r.value.claimInBank == 4
  {
    var n: int := NumInterrupts(maxIrq);
    var w: int := NumBitmapWords(maxIrq);
    var gap1 := 1024 - n;
    var gap2 := 1024 - w;
    var bankGap := 32 - w;
    if gap1 < 0 then Err(NegativeGap("_gap1"))
    else if gap2 < 0 then Err(NegativeGap("_gap2"))
    else if bankGap < 0 then Err(NegativeGap("hart_enable._gap"))
    else
      var pending := 4 * (n + gap1);
      var hartEnable := pending + 4 * (w + gap2);
      var enableStride := 4 * (w + bankGap);
      var gap3 := (0x200000 - 0x2480) / 4;
      var hartRegs := hartEnable + NumBanks * enableStride + 4 * gap3;
      var regsStride := 4 * (1 + 1 + 1022);
      Ok(Layout(pending, hartEnable, enableStride, hartRegs, regsStride, 4))
  }

  /** The bank table of the U54-MC manual: bank k starts at 0x2000 + 0x80*k and 0x200000 + 0x1000*k. */
  lemma BankAddresses(maxIrq: nat, k: nat)
    requires NumInterrupts(maxIrq) <= 1024 && k < NumBanks
    ensures var l := ComputeLayout(maxIrq).value;
      && l.hartEnable + k * l.hartEnableStride == 0x2000 + 0x80 * k
      && l.hartRegs + k * l.hartRegsStride + l.claimInBank == 0x200004 + 0x1000 * k
      && l.hartEnable + NumBanks * l.hartEnableStride <= l.hartRegs
  {}

  // ---------------------------------------------------------------------
  // Contexts and the S-mode bank index

  datatype Mode = MachineMode | SupervisorMode
  datatype Context = Context(hart: nat, mode: Mode)

  /** The context served by bank idx, as listed in the register map. */
  function BankContext(idx: nat): Context
    requires idx < NumBanks
  {
    if idx == 0 then Context(0, MachineMode)
    else if idx % 2 == 1 then Context((idx + 1) / 2, MachineMode)
    else Context(idx / 2, SupervisorMode)
  }

  datatype PlicError = InvalidHartId(hartId: nat) | ClaimsExhausted

  /** plic_get_current_hart_s_mode_idx: halts unless 1 <= hart_id <= 4. */
  function SModeBankIndex(hartId: nat): (r: Result<nat, PlicError>)
    ensures r.Ok? <==> 1 <= hartId <= 4
    ensures r.Err? ==> r.error == InvalidHartId(hartId)
    ensures r.Ok? ==> 2 <= r.value <= 8 && r.value < NumBanks
    ensures r.Ok? ==> BankContext(r.value) == Context(hartId, SupervisorMode)
  {
    if hartId < 1 || hartId > 4 then Err(InvalidHartId(hartId))
    else Ok(2 * hartId)
  }

  /** Every S-mode bank is the one some valid hart selects. */
  lemma EverySModeBankIsSelected(idx: nat)
    requires idx < NumBanks && BankContext(idx).mode == SupervisorMode
    ensures SModeBankIndex(BankContext(idx).hart) == Ok(idx)
  {}

  // ---------------------------------------------------------------------
  // Register image

  /** One 4 KiB context bank: threshold, and the claim/complete register's access log. */
  datatype HartRegs = HartRegs(threshold: bv32, claim: seq<PortAccess>)

  datatype Plic = Plic(
    maxIrq: nat,                     // PLIC_MAX_IRQ
    priority: seq<bv32>,             // priority[PLIC_NUM_INTERUPTS]
    pending: seq<bv32>,              // pending[PLIC_NUM_U32_INTR_BITMAPS], read-only
    enable: seq<seq<bv32>>,          // hart_enable[9].enable[...]
    hartRegs: seq<HartRegs>)         // hart_regs[9]

  predicate WellFormed(p: Plic)
  {
    && NumInterrupts(p.maxIrq) <= 1024
    && |p.priority| == NumInterrupts(p.maxIrq)
    && |p.pending| == NumBitmapWords(p.maxIrq)
    && |p.enable| == NumBanks
    && (forall k :: 0 <= k < NumBanks ==> |p.enable[k]| == NumBitmapWords(p.maxIrq))
    && |p.hartRegs| == NumBanks
  }

  /** The enable bit of interrupt q in bank k: bit q%32 of word q/32. */
  predicate Enabled(p: Plic, k: nat, q: nat)
    requires WellFormed(p) && k < NumBanks && q <= p.maxIrq
  {
    BitmapCoversEveryIrq(p.maxIrq, q);
    TestBit32(p.enable[k][q / 32], q % 32)
  }

  lemma EnableBitsFollowEnableWords(a: Plic, b: Plic)
    requires WellFormed(a) && WellFormed(b) && a.maxIrq == b.maxIrq && a.enable == b.enable
    ensures forall k, q :: 0 <= k < NumBanks && 0 <= q <= a.maxIrq ==> Enabled(a, k, q) == Enabled(b, k, q)
  {}

  datatype Claimed = Claimed(irq: Word32, plic: Plic)

  /** plic_get_claim: reads the claim register of this hart's S-mode bank; `hw` is what the hardware returns. */
  function GetClaim(p: Plic, hartId: nat, hw: Word32): (r: Result<Claimed, PlicError>)
    requires WellFormed(p)
    ensures r.Err? <==> !(1 <= hartId <= 4)
    ensures r.Ok? ==> r.value.irq == hw && WellFormed(r.value.plic)
    ensures r.Ok? ==> var q := r.value.plic;
      && q.priority == p.priority && q.enable == p.enable && q.pending == p.pending && q.maxIrq == p.maxIrq
      && (forall k :: 0 <= k < NumBanks ==> q.hartRegs[k].threshold == p.hartRegs[k].threshold)
      && (forall k :: 0 <= k < NumBanks && k != 2 * hartId ==> q.hartRegs[k] == p.hartRegs[k])
      && q.hartRegs[2 * hartId].claim == p.hartRegs[2 * hartId].claim + [ClaimRead(hw)]
  {
    var idx :- SModeBankIndex(hartId);
    var bank := p.hartRegs[idx];
    Ok(Claimed(hw, p.(hartRegs := p.hartRegs[idx := bank.(claim := bank.claim + [ClaimRead(hw)])])))
  }

  /** plic_complete_claim: writes irq to the claim register of this hart's S-mode bank. */
  function CompleteClaim(p: Plic, hartId: nat, irq: Word32): (r: Result<Plic, PlicError>)
    requires WellFormed(p)
    ensures r.Err? <==> !(1 <= hartId <= 4)
    ensures r.Ok? ==> var q := r.value;
      && WellFormed(q)
      && q.priority == p.priority && q.enable == p.enable && q.pending == p.pending && q.maxIrq == p.maxIrq
      && (forall k :: 0 <= k < NumBanks ==> q.hartRegs[k].threshold == p.hartRegs[k].threshold)
      && (forall k :: 0 <= k < NumBanks && k != 2 * hartId ==> q.hartRegs[k] == p.hartRegs[k])
      && q.hartRegs[2 * hartId].claim == p.hartRegs[2 * hartId].claim + [CompleteWrite(irq)]
  {
    var idx :- SModeBankIndex(hartId);
    var bank := p.hartRegs[idx];
    Ok(p.(hartRegs := p.hartRegs[idx := bank.(claim := bank.claim + [CompleteWrite(irq)])]))
  }

  /**
   * plic_mask_irq: with the threshold at 0, priority 0 masks an interrupt and
   * priority 1 unmasks it. No other register changes.
   */
  function MaskIrq(p: Plic, disable: bool, irq: nat): (q: Plic)
    requires WellFormed(p) && irq <= p.maxIrq
    ensures q.maxIrq == p.maxIrq && WellFormed(q)
    ensures q.priority[irq] == if disable then 0 else 1
    ensures forall j :: 0 <= j < |p.priority| && j != irq ==> q.priority[j] == p.priority[j]
    ensures q.enable == p.enable && q.hartRegs == p.hartRegs && q.pending == p.pending && q.maxIrq == p.maxIrq
  {
    p.(priority := p.priority[irq := if disable then 0 else 1])
  }

  /** Masking is a plain register write: only the last of several mask/unmask calls on one id matters. */
  lemma MaskLastWriteWins(p: Plic, d1: bool, d2: bool, irq: nat)
    requires WellFormed(p) && irq <= p.maxIrq
    ensures MaskIrq(MaskIrq(p, d1, irq), d2, irq) == MaskIrq(p, d2, irq)
  {
    assert MaskIrq(MaskIrq(p, d1, irq), d2, irq).priority == MaskIrq(p, d2, irq).priority;
  }

  /**
   * plic_enable_irq: sets (enable) or clears bit irq%32 of word irq/32 in this
   * hart's S-mode enable bank; every other enable bit of every bank is unchanged.
   */
  function EnableIrq(p: Plic, hartId: nat, enable: bool, irq: nat): (r: Result<Plic, PlicError>)
    requires WellFormed(p) && irq <= p.maxIrq
    ensures r.Err? <==> !(1 <= hartId <= 4)
    ensures r.Ok? ==> r.value.maxIrq == p.maxIrq && WellFormed(r.value)
    ensures r.Ok? ==> Enabled(r.value, 2 * hartId, irq) == enable
    ensures r.Ok? ==> forall q :: 0 <= q <= p.maxIrq && q != irq ==>
                        Enabled(r.value, 2 * hartId, q) == Enabled(p, 2 * hartId, q)
    ensures r.Ok? ==> forall k :: 0 <= k < NumBanks && k != 2 * hartId ==> r.value.enable[k] == p.enable[k]
    ensures r.Ok? ==> |r.value.enable[2 * hartId]| == |p.enable[2 * hartId]|
    ensures r.Ok? ==> forall i :: 0 <= i < |p.enable[2 * hartId]| && i != irq / 32 ==>
                        r.value.enable[2 * hartId][i] == p.enable[2 * hartId][i]
    ensures r.Ok? ==> r.value.priority == p.priority && r.value.hartRegs == p.hartRegs && r.value.pending == p.pending
  {
    var idx :- SModeBankIndex(hartId);
    BitmapCoversEveryIrq(p.maxIrq, irq);
    var bank := p.enable[idx];
    var word := UpdateBit32(bank[irq / 32], irq % 32, enable);
    var q := p.(enable := p.enable[idx := bank[irq / 32 := word]]);
    assert WellFormed(q);
    forall j | 0 <= j <= p.maxIrq && j != irq
      ensures Enabled(q, idx, j) == Enabled(p, idx, j)
    {
      BitmapCoversEveryIrq(p.maxIrq, j);
      if j / 32 == irq / 32 {
        assert j % 32 != irq % 32;
      }
    }
    Ok(q)
  }

  /** plic_init_hart: this hart's S-mode threshold becomes 0. */
  function InitHart(p: Plic, hartId: nat): (r: Result<Plic, PlicError>)
    requires WellFormed(p)
    ensures r.Err? <==> !(1 <= hartId <= 4)
    ensures r.Ok? ==> WellFormed(r.value) && r.value.hartRegs[2 * hartId].threshold == 0
    ensures r.Ok? ==> r.value.hartRegs[2 * hartId].claim == p.hartRegs[2 * hartId].claim
    ensures r.Ok? ==> forall k :: 0 <= k < NumBanks && k != 2 * hartId ==> r.value.hartRegs[k] == p.hartRegs[k]
    ensures r.Ok? ==> r.value.priority == p.priority && r.value.enable == p.enable
  {
    var idx :- SModeBankIndex(hartId);
    Ok(p.(hartRegs := p.hartRegs[idx := p.hartRegs[idx].(threshold := 0)]))
  }

  /**
   * First loop of plic_init_controller: every real interrupt gets priority 0
   * (masked) and its enable bit set in this hart's S-mode bank.
   */
  method MaskAndEnableAll(p: Plic, hartId: nat) returns (r: Result<Plic, PlicError>)
    requires WellFormed(p)
    ensures r.Err? <==> !(1 <= hartId <= 4) && p.maxIrq >= 1
    ensures r.Err? ==> r.error == InvalidHartId(hartId)
    ensures r.Ok? ==> r.value.maxIrq == p.maxIrq && WellFormed(r.value)
    ensures r.Ok? ==> forall irq :: 1 <= irq <= p.maxIrq ==> r.value.priority[irq] == 0
    ensures r.Ok? ==> r.value.priority[0] == p.priority[0]
    ensures r.Ok? && 1 <= hartId <= 4 ==> forall irq :: 1 <= irq <= p.maxIrq ==> Enabled(r.value, 2 * hartId, irq)
    ensures r.Ok? && 1 <= hartId <= 4 ==> Enabled(r.value, 2 * hartId, 0) == Enabled(p, 2 * hartId, 0)
    ensures r.Ok? ==> forall k :: 0 <= k < NumBanks && k != 2 * hartId ==> r.value.enable[k] == p.enable[k]
    ensures r.Ok? ==> r.value.hartRegs == p.hartRegs
  {
    var q := p;
    var irq := 1;
    while irq <= p.maxIrq
      invariant 1 <= irq <= p.maxIrq + 1
      invariant q.maxIrq == p.maxIrq && WellFormed(q)
      invariant irq > 1 ==> 1 <= hartId <= 4
      invariant forall j :: 1 <= j < irq ==> q.priority[j] == 0
      invariant q.priority[0] == p.priority[0]
      invariant irq > 1 ==> forall j :: 1 <= j < irq ==> Enabled(q, 2 * hartId, j)
      invariant irq > 1 ==> Enabled(q, 2 * hartId, 0) == Enabled(p, 2 * hartId, 0)
      invariant forall k :: 0 <= k < NumBanks && k != 2 * hartId ==> q.enable[k] == p.enable[k]
      invariant irq == 1 ==> q.enable == p.enable
      invariant q.hartRegs == p.hartRegs
    {
      var masked := q.(priority := q.priority[irq := 0]);
      EnableBitsFollowEnableWords(q, masked);
      q := masked;
      var e := EnableIrq(q, hartId, true, irq);
      if e.Err? {
        return Err(e.error);
      }
      q := e.value;
      irq := irq + 1;
    }
    if irq == 1 {
      EnableBitsFollowEnableWords(p, q);
    }
    return Ok(q);
  }

  /**
   * Second loop of plic_init_controller: claim and complete until the claim
   * register reads 0. `claims` lists the values the claim register returns on
   * successive reads; running out of them before a 0 is read is reported as
   * ClaimsExhausted. Only the claim log of this hart's S-mode bank changes.
   */
  method Drain(p: Plic, hartId: nat, claims: seq<Word32>) returns (r: Result<Plic, PlicError>)
    requires WellFormed(p)
    ensures r.Err? <==> !(1 <= hartId <= 4) || FirstZero(claims) == |claims|
    ensures r.Err? && !(1 <= hartId <= 4) ==> r.error == InvalidHartId(hartId)
    ensures r.Ok? ==> var q := r.value;
      && q.maxIrq == p.maxIrq && WellFormed(q)
      && q.priority == p.priority && q.enable == p.enable && q.pending == p.pending
      && (forall k :: 0 <= k < NumBanks && k != 2 * hartId ==> q.hartRegs[k] == p.hartRegs[k])
      && q.hartRegs[2 * hartId].threshold == p.hartRegs[2 * hartId].threshold
      && q.hartRegs[2 * hartId].claim ==
           p.hartRegs[2 * hartId].claim + ClaimCompletePairs(claims[..FirstZero(claims)]) + [ClaimRead(0)]
  {
    var q := p;
    var i := 0;
    while true
      invariant 0 <= i <= FirstZero(claims)
      invariant i > 0 ==> 1 <= hartId <= 4
      invariant q.maxIrq == p.maxIrq && WellFormed(q)
      invariant q.priority == p.priority && q.enable == p.enable && q.pending == p.pending
      invariant forall k :: 0 <= k < NumBanks && k != 2 * hartId ==> q.hartRegs[k] == p.hartRegs[k]
      invariant 1 <= hartId <= 4 ==> q.hartRegs[2 * hartId].threshold == p.hartRegs[2 * hartId].threshold
      invariant 1 <= hartId <= 4 ==>
                  q.hartRegs[2 * hartId].claim == p.hartRegs[2 * hartId].claim + ClaimCompletePairs(claims[..i])
      decreases |claims| - i
    {
      if i == |claims| {
        if !(1 <= hartId <= 4) {
          return Err(InvalidHartId(hartId));
        }
        return Err(ClaimsExhausted);
      }
      var c := GetClaim(q, hartId, claims[i]);
      if c.Err? {
        return Err(c.error);
      }
      q := c.value.plic;
      if c.value.irq == 0 {
        assert i == FirstZero(claims);
        return Ok(q);
      }
      var d := CompleteClaim(q, hartId, c.value.irq);
      q := d.value;
      PairsSnoc(claims[..i], claims[i]);
      assert claims[..i + 1] == claims[..i] + [claims[i]];
      i := i + 1;
    }
  }

  /** plic_init_controller: the two loops in order. */
  method InitController(p: Plic, hartId: nat, claims: seq<Word32>) returns (r: Result<Plic, PlicError>)
    requires WellFormed(p)
    ensures r.Err? <==> !(1 <= hartId <= 4) || FirstZero(claims) == |claims|
    ensures r.Err? && !(1 <= hartId <= 4) ==> r.error == InvalidHartId(hartId)
    ensures r.Ok? ==> r.value.maxIrq == p.maxIrq && WellFormed(r.value)
    ensures r.Ok? ==> forall irq :: 1 <= irq <= p.maxIrq ==> r.value.priority[irq] == 0
    ensures r.Ok? ==> forall irq :: 1 <= irq <= p.maxIrq ==> Enabled(r.value, 2 * hartId, irq)
    ensures r.Ok? ==> r.value.priority[0] == p.priority[0]
    ensures r.Ok? ==> Enabled(r.value, 2 * hartId, 0) == Enabled(p, 2 * hartId, 0)
    ensures r.Ok? ==> forall k :: 0 <= k < NumBanks && k != 2 * hartId ==>
                        r.value.enable[k] == p.enable[k] && r.value.hartRegs[k] == p.hartRegs[k]
    ensures r.Ok? ==> r.value.hartRegs[2 * hartId].threshold == p.hartRegs[2 * hartId].threshold
    ensures r.Ok? ==> r.value.hartRegs[2 * hartId].claim ==
                        p.hartRegs[2 * hartId].claim + ClaimCompletePairs(claims[..FirstZero(claims)]) + [ClaimRead(0)]
  {
    var m := MaskAndEnableAll(p, hartId);
    if m.Err? {
      return m;
    }
    r := Drain(m.value, hartId, claims);
    if r.Ok? {
      EnableBitsFollowEnableWords(m.value, r.value);
    }
  }
}
