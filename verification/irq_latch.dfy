/**
 * The platform interrupt code of the spike platform (hardware.c): decoding
 * scause into an interrupt id, the one-slot active-IRQ latch, acknowledging,
 * masking, the pending test, and controller initialisation. CSR reads are
 * parameters; the sie CSR is part of the state.
 */
module IrqLatch {
  import opened Results
  import opened IrqSpace
  import opened Bits
  import C = Controller

  /** scause bit CONFIG_WORD_SIZE-1 (RV64): the trap is an interrupt. */
  const InterruptBit: bv64 := 0x8000_0000_0000_0000

  /** Supervisor timer and external interrupt numbers, used as cause, sie and sip bit positions. */
  const STimerCause: bv64 := 5
  const SExternalCause: bv64 := 9
  const STimerMask: bv64 := 0x20       // BIT(STIMER_IE), BIT(STIMER_IP)
  const SExternalMask: bv64 := 0x200   // BIT(SEXTERNAL_IE), BIT(SEXTERNAL_IP)

  /** The part of the kernel state this code reads and writes. */
  datatype Kernel = Kernel(activeIrq: Word32, sie: bv64, ctrl: C.Ctrl)

  /** k belongs to a build with id layout l: its controller serves lines 1..PLIC_MAX_IRQ. */
  predicate Fits(l: IrqLayout, k: Kernel)
  {
    C.Fits(k.ctrl, PlicMaxIrq(l))
  }

  /** Ways the code stops: halt() on an unknown cause, or a halt inside the controller driver. */
  datatype Fault = UnknownInterruptCode(code: bv64) | ControllerFault(error: C.CtrlError)

  /** The value the code compares against the cause numbers: scause modulo 16, whatever the higher bits hold. */
  function CauseNibble(scause: bv64): (code: bv64)
    ensures code == scause % 16
    ensures code < 16
  {
    scause & 0xF
  }

  datatype Decoded = Decoded(irq: Word32, ctrl: C.Ctrl)

  /**
   * getNewActiveIRQ: no interrupt bit gives irqInvalid; cause 9 claims from the
   * controller (hw is what its claim register returns); cause 5 gives the core
   * timer without touching the controller; any other code halts.
   */
  function GetNewActiveIrq(l: IrqLayout, c: C.Ctrl, scause: bv64, hw: Word32): (r: Result<Decoded, Fault>)
    requires C.Fits(c, PlicMaxIrq(l))
    ensures scause & InterruptBit == 0 ==> r == Ok(Decoded(IrqInvalid, c))
    ensures scause & InterruptBit != 0 && CauseNibble(scause) == STimerCause ==>
              r == Ok(Decoded(InterruptCoreTimer(l), c))
    ensures scause & InterruptBit != 0 && CauseNibble(scause) == SExternalCause ==>
              match C.GetClaim(c, PlicMaxIrq(l), hw)
              case Ok(x) => r == Ok(Decoded(hw, x.ctrl))
              case Err(e) => r == Err(ControllerFault(e))
    ensures scause & InterruptBit != 0 && CauseNibble(scause) != STimerCause && CauseNibble(scause) != SExternalCause ==>
              r == Err(UnknownInterruptCode(CauseNibble(scause)))
    ensures r.Ok? ==> C.Fits(r.value.ctrl, PlicMaxIrq(l))
  {
    if scause & InterruptBit == 0 then
      Ok(Decoded(IrqInvalid, c))
    else
      var code := CauseNibble(scause);
      if code == SExternalCause then
        var x := C.GetClaim(c, PlicMaxIrq(l), hw);
        if x.Err? then Err(ControllerFault(x.error)) else Ok(Decoded(x.value.irq, x.value.ctrl))
      else if code == STimerCause then
        Ok(Decoded(InterruptCoreTimer(l) as Word32, c))
      else
        Err(UnknownInterruptCode(code))
  }

  /**
   * Only bits 0..3 of the exception code are compared, so an interrupt code
   * with the same low nibble as 5 or 9 (such as 21 or 25) is decoded as the
   * timer or as an external interrupt.
   */
  lemma CauseNibbleAliases(l: IrqLayout, c: C.Ctrl, hw: Word32)
    requires C.Fits(c, PlicMaxIrq(l))
    ensures GetNewActiveIrq(l, c, InterruptBit | 21, hw) == Ok(Decoded(InterruptCoreTimer(l), c))
    ensures GetNewActiveIrq(l, c, InterruptBit | 25, hw) == GetNewActiveIrq(l, c, InterruptBit | 9, hw)
  {
    assert (InterruptBit | 21) & InterruptBit != 0 && CauseNibble(InterruptBit | 21) == 5;
    assert (InterruptBit | 25) & InterruptBit != 0 && CauseNibble(InterruptBit | 25) == 9;
    assert (InterruptBit | 9) & InterruptBit != 0 && CauseNibble(InterruptBit | 9) == 9;
  }

  datatype Active = Active(irq: Word32, kernel: Kernel)

  /**
   * getActiveIRQ: while the latch holds a valid id it is returned as is;
   * otherwise the latch is refilled from getNewActiveIRQ, and the refilled
   * value is returned only if it is a valid id (irqInvalid otherwise).
   */
  function GetActiveIrq(l: IrqLayout, k: Kernel, scause: bv64, hw: Word32): (r: Result<Active, Fault>)
    requires Fits(l, k)
    ensures r.Ok? ==> Fits(l, r.value.kernel) && r.value.kernel.sie == k.sie
    ensures r.Ok? ==> r.value.irq == IrqInvalid || IsIrqValid(l, r.value.irq)
    ensures r.Ok? ==> r.value.irq == IrqInvalid || r.value.irq == r.value.kernel.activeIrq
    ensures r.Ok? ==> (r.value.irq == IrqInvalid <==> !IsIrqValid(l, r.value.kernel.activeIrq))
    ensures IsIrqValid(l, k.activeIrq) ==> r == Ok(Active(k.activeIrq, k))
    ensures !IsIrqValid(l, k.activeIrq) ==>
              match GetNewActiveIrq(l, k.ctrl, scause, hw)
              case Ok(d) => r.Ok? && r.value.kernel == k.(activeIrq := d.irq, ctrl := d.ctrl)
              case Err(e) => r == Err(e)
  {
    var latched :- if IsIrqValid(l, k.activeIrq) then Ok(k) else
      var d :- GetNewActiveIrq(l, k.ctrl, scause, hw);
      Ok(k.(activeIrq := d.irq, ctrl := d.ctrl));
    Ok(Active(if IsIrqValid(l, latched.activeIrq) then latched.activeIrq else IrqInvalid, latched))
  }

  /** A claim above maxIRQ is kept in the latch but reported as irqInvalid. */
  lemma OutOfRangeClaimIsHidden(l: IrqLayout, k: Kernel, scause: bv64, hw: Word32)
    requires Fits(l, k) && !IsIrqValid(l, k.activeIrq)
    requires scause & InterruptBit != 0 && CauseNibble(scause) == SExternalCause
    requires !k.ctrl.SiFive? || 1 <= k.ctrl.hartId <= 4
    requires hw > MaxIrq(l)
    ensures GetActiveIrq(l, k, scause, hw).Ok?
    ensures GetActiveIrq(l, k, scause, hw).value.irq == IrqInvalid
    ensures GetActiveIrq(l, k, scause, hw).value.kernel.activeIrq == hw
  {
    var x := C.GetClaim(k.ctrl, PlicMaxIrq(l), hw);
    assert x.Ok?;
  }

  /** Two calls in a row return the same id when the first found one; after irqInvalid the next call decodes afresh. */
  lemma LatchIsStable(l: IrqLayout, k: Kernel, s1: bv64, h1: Word32, s2: bv64, h2: Word32)
    requires Fits(l, k) && GetActiveIrq(l, k, s1, h1).Ok?
    ensures var a := GetActiveIrq(l, k, s1, h1).value;
      (a.irq != IrqInvalid ==> GetActiveIrq(l, a.kernel, s2, h2) == Ok(a)) &&
      (a.irq == IrqInvalid ==> !IsIrqValid(l, a.kernel.activeIrq))
  {}

  /**
   * ackInterrupt: the latch is cleared. Nothing is written to the controller,
   * for the timer and for external lines alike, and sie is unchanged.
   */
  function AckInterrupt(l: IrqLayout, k: Kernel, irq: nat): (r: Kernel)
    requires IsIrqValid(l, irq)
    ensures r.activeIrq == IrqInvalid && !IsIrqValid(l, r.activeIrq)
    ensures r.ctrl == k.ctrl && r.sie == k.sie
  {
    k.(activeIrq := IrqInvalid)
  }

  /** After an acknowledgement the next getActiveIRQ decodes scause again. */
  lemma AckThenGetDecodesAgain(l: IrqLayout, k: Kernel, irq: nat, scause: bv64, hw: Word32)
    requires Fits(l, k) && IsIrqValid(l, irq)
    ensures var a := AckInterrupt(l, k, irq);
      match GetNewActiveIrq(l, k.ctrl, scause, hw)
      case Ok(d) => GetActiveIrq(l, a, scause, hw).Ok? &&
                    GetActiveIrq(l, a, scause, hw).value.kernel == k.(activeIrq := d.irq, ctrl := d.ctrl)
      case Err(e) => GetActiveIrq(l, a, scause, hw) == Err(e)
  {}

  function SieWrite(sie: bv64, m: bv64, on: bool): bv64
  {
    if on then sie | m else sie & !m
  }

  lemma SetMaskFacts(w: bv64, m: bv64)
    requires m != 0
    ensures SieWrite(w, m, true) & m != 0 && SieWrite(w, m, true) & !m == w & !m
  {}

  lemma ClearMaskFacts(w: bv64, m: bv64)
    ensures SieWrite(w, m, false) & m == 0 && SieWrite(w, m, false) & !m == w & !m
  {}

  /** `set_sie_mask(m)` or `clear_sie_mask(m)` for a single-bit mask m: that bit follows `on`, no other bit moves. */
  function WriteSieBit(sie: bv64, m: bv64, on: bool): (r: bv64)
    requires m == STimerMask || m == SExternalMask
    ensures (r & m != 0) == on
    ensures r & !m == sie & !m
  {
    if on then SetMaskFacts(sie, m); SieWrite(sie, m, true)
    else ClearMaskFacts(sie, m); SieWrite(sie, m, false)
  }

  /**
   * maskInterrupt: the timer id only sets (enable) or clears (disable) sie bit
   * 5, leaving the other sie bits and the controller alone; every other valid
   * id goes unchanged to plic_mask_irq and sie is left alone.
   */
  function MaskInterrupt(l: IrqLayout, k: Kernel, disable: bool, irq: nat): (r: Kernel)
    requires Fits(l, k) && IsIrqValid(l, irq)
    ensures Fits(l, r) && r.activeIrq == k.activeIrq
    ensures irq == InterruptCoreTimer(l) ==>
              r.ctrl == k.ctrl && (r.sie & STimerMask != 0) == !disable && r.sie & !STimerMask == k.sie & !STimerMask
    ensures irq != InterruptCoreTimer(l) ==>
              r.sie == k.sie && r.ctrl == C.MaskIrq(k.ctrl, PlicMaxIrq(l), disable, irq)
    ensures irq != InterruptCoreTimer(l) && !k.ctrl.NoController? ==> C.Unmasked(r.ctrl, PlicMaxIrq(l), irq) == !disable
  {
    ValidIdsAreLinesOrTimer(l, irq);
    if irq == InterruptCoreTimer(l) then MaskTimer(k, disable)
    else MaskLine(l, k, disable, irq)
  }

  /** The timer branch of maskInterrupt. */
  function MaskTimer(k: Kernel, disable: bool): (r: Kernel)
    ensures r.ctrl == k.ctrl && r.activeIrq == k.activeIrq
    ensures (r.sie & STimerMask != 0) == !disable && r.sie & !STimerMask == k.sie & !STimerMask
  {
    k.(sie := WriteSieBit(k.sie, STimerMask, !disable))
  }

  /** The controller branch of maskInterrupt. */
  function MaskLine(l: IrqLayout, k: Kernel, disable: bool, irq: nat): (r: Kernel)
    requires Fits(l, k) && IsExternalLine(l, irq)
    ensures Fits(l, r) && r.activeIrq == k.activeIrq && r.sie == k.sie
    ensures r.ctrl == C.MaskIrq(k.ctrl, PlicMaxIrq(l), disable, irq)
    ensures !k.ctrl.NoController? ==> C.Unmasked(r.ctrl, PlicMaxIrq(l), irq) == !disable
  {
    k.(ctrl := C.MaskIrq(k.ctrl, PlicMaxIrq(l), disable, irq))
  }

  /**
   * isIRQPending: an interrupt is pending exactly when the supervisor timer
   * (sip bit 5) or the supervisor external interrupt (sip bit 9) is pending.
   */
  function IsIrqPending(sip: bv64): (pending: bool)
    ensures pending <==> sip & STimerMask != 0 || sip & SExternalMask != 0
  {
    sip & (STimerMask | SExternalMask) != 0
  }

  /**
   * initIRQController: plic_init_controller, then sie bit 9 (supervisor
   * external interrupts) is set. The latch is untouched.
   */
  method InitIrqController(l: IrqLayout, k: Kernel, claims: seq<Word32>) returns (r: Result<Kernel, Fault>)
    requires Fits(l, k)
    ensures r.Err? ==> k.ctrl.SiFive?
    ensures r.Ok? ==> Fits(l, r.value) && r.value.activeIrq == k.activeIrq
    ensures r.Ok? ==> r.value.sie & SExternalMask != 0 && r.value.sie & !SExternalMask == k.sie & !SExternalMask
    ensures r.Ok? ==> forall irq :: 1 <= irq <= PlicMaxIrq(l) ==> !C.Unmasked(r.value.ctrl, PlicMaxIrq(l), irq)
  {
    var c := C.InitController(k.ctrl, PlicMaxIrq(l), claims);
    if c.Err? {
      return Err(ControllerFault(c.error));
    }
    return Ok(k.(ctrl := c.value, sie := WriteSieBit(k.sie, SExternalMask, true)));
  }
}
