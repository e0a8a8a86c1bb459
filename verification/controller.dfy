/**
 * The interrupt-controller interface the platform code (hardware.c) calls:
 * plic_get_claim, plic_complete_claim, plic_mask_irq and plic_init_controller.
 * A build links exactly one implementation; the model keeps them side by side
 * as the variants of one datatype and dispatches on the variant.
 */
module Controller {
  import opened Results
  import opened ClaimPort
  import opened Bits
  import S = SifivePlic
  import M = MigvPlic
  import L = Hcsc1Plic

  datatype Ctrl =
    | SiFive(plic: S.Plic, hartId: nat)     // riscv_plic0.h, on hart hartId
    | MigV(migv: M.MigvPlic)                // riscv-hcsc1.h
    | Legacy(legacy: L.LegacyPlic)          // plat/instance/hcsc1/hardware.h
    | NoController                          // plat/instance/qemu and rocket-chip: empty stubs

  /** c is a controller image for a build whose PLIC_MAX_IRQ is maxIrq. */
  predicate Fits(c: Ctrl, maxIrq: nat)
  {
    match c
    case SiFive(p, _) => S.WellFormed(p) && p.maxIrq == maxIrq
    case MigV(m) => M.WellFormed(m) && M.MaxIrqFits(maxIrq)
    case Legacy(l) => L.WellFormed(l) && maxIrq == L.PlicMaxNumInt
    case NoController => maxIrq == 0
  }

  /** The variants with no controller have no external lines at all. */
  lemma NullControllerHasNoLines(c: Ctrl, maxIrq: nat)
    requires Fits(c, maxIrq) && c.NoController?
    ensures maxIrq == 0
  {}

  /** Every controller variant serves at most 1023 lines; MiG-V and the legacy driver at most 24. */
  lemma LineBounds(c: Ctrl, maxIrq: nat)
    requires Fits(c, maxIrq)
    ensures maxIrq <= 1023
    ensures c.MigV? || c.Legacy? ==> maxIrq <= 24
  {}

  datatype CtrlError = ControllerHalted(hartId: nat) | DrainUnfinished

  function LiftError(e: S.PlicError, hartId: nat): CtrlError
  {
    if e.InvalidHartId? then ControllerHalted(hartId) else DrainUnfinished
  }

  /**
   * The access log of the claim/complete register the kernel uses: the S-mode
   * bank of the hart on the SiFive controller, claim[1] on MiG-V, idtarget0 on
   * the legacy driver. A stub controller has no register.
   */
  function ClaimLog(c: Ctrl, maxIrq: nat): seq<PortAccess>
    requires Fits(c, maxIrq)
  {
    match c
    case SiFive(p, h) => if 1 <= h <= 4 then p.hartRegs[2 * h].claim else []
    case MigV(m) => m.claim[M.TargetSMode]
    case Legacy(l) => l.idTarget0
    case NoController => []
  }

  /** Interrupt line irq can currently reach the kernel's context (is not masked). */
  predicate Unmasked(c: Ctrl, maxIrq: nat, irq: nat)
    requires Fits(c, maxIrq) && 1 <= irq <= maxIrq
  {
    match c
    case SiFive(p, _) => p.priority[irq] != 0
    case MigV(m) => M.SEnabled(m, irq)
    case Legacy(l) => L.Enabled(l, irq)
    case NoController => false
  }

  datatype Claim = Claim(irq: Word32, ctrl: Ctrl)

  /**
   * plic_get_claim. `hw` is the value the claim register returns; on the stub
   * controllers the function has no return statement, so its result is the
   * unspecified `hw` and nothing is accessed.
   */
  function GetClaim(c: Ctrl, maxIrq: nat, hw: Word32): (r: Result<Claim, CtrlError>)
    requires Fits(c, maxIrq)
    ensures r.Err? <==> c.SiFive? && !(1 <= c.hartId <= 4)
    ensures r.Err? ==> r.error == ControllerHalted(c.hartId)
    ensures r.Ok? ==> r.value.irq == hw && Fits(r.value.ctrl, maxIrq)
    ensures r.Ok? && !c.NoController? ==> ClaimLog(r.value.ctrl, maxIrq) == ClaimLog(c, maxIrq) + [ClaimRead(hw)]
    ensures r.Ok? ==> forall irq :: 1 <= irq <= maxIrq ==> Unmasked(r.value.ctrl, maxIrq, irq) == Unmasked(c, maxIrq, irq)
    ensures c.NoController? ==> r == Ok(Claim(hw, c))
  {
    match c
    case SiFive(p, h) =>
      var x := S.GetClaim(p, h, hw);
      if x.Err? then Err(LiftError(x.error, h)) else Ok(Claim(hw, SiFive(x.value.plic, h)))
    case MigV(m) =>
      var x := M.GetClaim(m, hw);
      Ok(Claim(hw, MigV(x.plic)))
    case Legacy(l) =>
      var x := L.GetClaim(l, hw);
      Ok(Claim(hw, Legacy(x.plic)))
    case NoController => Ok(Claim(hw, c))
  }

  /** plic_complete_claim: writes irq back to the same register; a stub does nothing. */
  function CompleteClaim(c: Ctrl, maxIrq: nat, irq: Word32): (r: Result<Ctrl, CtrlError>)
    requires Fits(c, maxIrq)
    ensures r.Err? <==> c.SiFive? && !(1 <= c.hartId <= 4)
    ensures r.Err? ==> r.error == ControllerHalted(c.hartId)
    ensures r.Ok? ==> Fits(r.value, maxIrq)
    ensures r.Ok? && !c.NoController? ==> ClaimLog(r.value, maxIrq) == ClaimLog(c, maxIrq) + [CompleteWrite(irq)]
    ensures r.Ok? ==> forall j :: 1 <= j <= maxIrq ==> Unmasked(r.value, maxIrq, j) == Unmasked(c, maxIrq, j)
    ensures c.NoController? ==> r == Ok(c)
  {
    match c
    case SiFive(p, h) =>
      var x := S.CompleteClaim(p, h, irq);
      if x.Err? then Err(LiftError(x.error, h)) else Ok(SiFive(x.value, h))
    case MigV(m) => Ok(MigV(M.CompleteClaim(m, irq)))
    case Legacy(l) => Ok(Legacy(L.CompleteClaim(l, irq)))
    case NoController => Ok(c)
  }

  /**
   * plic_mask_irq for an external line: afterwards the line is masked exactly
   * when `disable` was given, no other line changes, and only the legacy
   * driver touches the claim register (a completion, when disabling).
   * The stub controllers change nothing.
   */
  function MaskIrq(c: Ctrl, maxIrq: nat, disable: bool, irq: nat): (r: Ctrl)
    requires Fits(c, maxIrq) && 1 <= irq <= maxIrq
    ensures Fits(r, maxIrq)
    ensures !c.NoController? ==> Unmasked(r, maxIrq, irq) == !disable
    ensures forall j :: 1 <= j <= maxIrq && j != irq ==> Unmasked(r, maxIrq, j) == Unmasked(c, maxIrq, j)
    ensures ClaimLog(r, maxIrq) == if c.Legacy? && disable then ClaimLog(c, maxIrq) + [CompleteWrite(irq)] else ClaimLog(c, maxIrq)
    ensures c.NoController? ==> r == c
  {
    match c
    case SiFive(p, h) => SiFive(S.MaskIrq(p, disable, irq), h)
    case MigV(m) =>
      var q := M.MaskIrq(m, disable, irq);
      forall j | 1 <= j <= maxIrq && j != irq
        ensures M.SEnabled(q, j) == M.SEnabled(m, j)
      {
        M.MaskOtherId(m, disable, irq, j);
      }
      MigV(q)
    case Legacy(l) =>
      var q := L.MaskIrq(l, disable, irq);
      forall j | 1 <= j <= maxIrq && j != irq
        ensures L.Enabled(q, j) == L.Enabled(l, j)
      {
        L.MaskOtherId(l, disable, irq, j);
      }
      Legacy(q)
    case NoController => c
  }

  /**
   * plic_init_controller of whichever driver is linked. Afterwards every
   * external line is masked on every variant; only the SiFive driver drains
   * the claim register, reading `claims` in turn until it reads 0.
   */
  method InitController(c: Ctrl, maxIrq: nat, claims: seq<Word32>) returns (r: Result<Ctrl, CtrlError>)
    requires Fits(c, maxIrq)
    ensures r.Err? ==> c.SiFive?
    ensures c.SiFive? ==> (r.Err? <==> !(1 <= c.hartId <= 4) || FirstZero(claims) == |claims|)
    ensures r.Ok? ==> Fits(r.value, maxIrq)
    ensures r.Ok? ==> forall irq :: 1 <= irq <= maxIrq ==> !Unmasked(r.value, maxIrq, irq)
    ensures r.Ok? && c.SiFive? ==>
              ClaimLog(r.value, maxIrq) == ClaimLog(c, maxIrq) + ClaimCompletePairs(claims[..FirstZero(claims)]) + [ClaimRead(0)]
    ensures r.Ok? && c.MigV? ==> ClaimLog(r.value, maxIrq) == ClaimLog(c, maxIrq)
    ensures r.Ok? && c.Legacy? ==> ClaimLog(r.value, maxIrq) == ClaimLog(c, maxIrq) + L.CompleteRun(L.PlicMaxNumInt)
    ensures c.NoController? ==> r == Ok(c)
  {
    match c {
      case SiFive(p, h) =>
        var x := S.InitController(p, h, claims);
        if x.Err? {
          return Err(LiftError(x.error, h));
        }
        return Ok(SiFive(x.value, h));
      case MigV(m) =>
        var q := M.InitController(m, maxIrq);
        return Ok(MigV(q));
      case Legacy(l) =>
        var q := L.InitController(l);
        return Ok(Legacy(q));
      case NoController =>
        return Ok(c);
    }
  }

  /** The trigger mode of line irq (1..32) on the controllers that have one: edge when set. */
  predicate EdgeTriggered(c: Ctrl, maxIrq: nat, irq: nat)
    requires Fits(c, maxIrq) && (c.MigV? || c.Legacy?) && 1 <= irq <= 32
  {
    match c
    case MigV(m) => TestBit32(m.triggerMode, irq - 1)
    case Legacy(l) => TestBit32(l.el, irq - 1)
  }

  /** HAVE_SET_TRIGGER: only the MiG-V and legacy hcsc1 drivers provide plic_irq_set_trigger. */
  predicate HasSetTrigger(c: Ctrl)
  {
    c.MigV? || c.Legacy?
  }

  /**
   * setIRQTrigger, passed straight to plic_irq_set_trigger: line irq becomes
   * edge- or level-triggered and no other line's mode changes. The legacy
   * driver computes BIT(irq-1) without checking irq, so it needs irq >= 1;
   * MiG-V ignores id 0. Ids above 32 fall outside the 32-bit register.
   */
  function SetIrqTrigger(c: Ctrl, maxIrq: nat, irq: nat, edgeTriggered: bool): (r: Ctrl)
    requires Fits(c, maxIrq) && HasSetTrigger(c) && irq <= 64 && (c.Legacy? ==> 1 <= irq)
    ensures Fits(r, maxIrq) && HasSetTrigger(r)
    ensures 1 <= irq <= 32 ==> EdgeTriggered(r, maxIrq, irq) == edgeTriggered
    ensures forall j :: 1 <= j <= 32 && j != irq ==> EdgeTriggered(r, maxIrq, j) == EdgeTriggered(c, maxIrq, j)
    ensures ClaimLog(r, maxIrq) == ClaimLog(c, maxIrq)
    ensures forall j :: 1 <= j <= maxIrq ==> Unmasked(r, maxIrq, j) == Unmasked(c, maxIrq, j)
  {
    match c
    case MigV(m) => MigV(M.SetTrigger(m, irq, edgeTriggered))
    case Legacy(l) => Legacy(L.SetTrigger(l, irq, edgeTriggered))
  }
}
