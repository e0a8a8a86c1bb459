/**
 * The interrupt-identifier space of the spike platform family:
 * id 0 means "no interrupt", ids 1..PLIC_MAX_IRQ are external controller
 * lines and the one id above them is the synthetic supervisor-timer line.
 * Also the build-time choice of the platform instance header.
 */
module IrqSpace {
  import opened Results

  /** Platform instance headers the build can select. */
  datatype Instance = Qemu | RocketChip | HiFive | Hcsc1

  /** Which CONFIG_BUILD_* macros the build defines. */
  datatype BuildFlags = BuildFlags(spikeQemu: bool, rocketChipZedboard: bool, hiFiveUnleashed: bool, hcsc1: bool)

  datatype BuildError = UnsupportedSpikePlatform

  predicate Defines(f: BuildFlags, i: Instance)
  {
    match i
    case Qemu => f.spikeQemu
    case RocketChip => f.rocketChipZedboard
    case HiFive => f.hiFiveUnleashed
    case Hcsc1 => f.hcsc1
  }

  /** Position of an instance in the `#if` / `#elif` chain. */
  function Rank(i: Instance): nat
  {
    match i
    case Qemu => 0
    case RocketChip => 1
    case HiFive => 2
    case Hcsc1 => 3
  }

  /** The `#if defined(...) #elif ... #else #error` chain choosing the instance header. */
  function SelectInstance(f: BuildFlags): (r: Result<Instance, BuildError>)
    ensures r.Ok? ==> Defines(f, r.value)
    ensures r.Ok? ==> forall i :: Rank(i) < Rank(r.value) ==> !Defines(f, i)
    ensures r.Err? <==> forall i :: !Defines(f, i)
  {
    forall i
      ensures Defines(f, i) ==> f.spikeQemu || f.rocketChipZedboard || f.hiFiveUnleashed || f.hcsc1
      ensures i == Qemu || i == RocketChip || i == HiFive || i == Hcsc1
    {
    }
    if f.spikeQemu then assert Defines(f, Qemu); Ok(Qemu)
    else if f.rocketChipZedboard then assert Defines(f, RocketChip); Ok(RocketChip)
    else if f.hiFiveUnleashed then assert Defines(f, HiFive); Ok(HiFive)
    else if f.hcsc1 then assert Defines(f, Hcsc1); Ok(Hcsc1)
    else
      assert !Defines(f, Qemu) && !Defines(f, RocketChip) && !Defines(f, HiFive) && !Defines(f, Hcsc1);
      Err(UnsupportedSpikePlatform)
  }

  /** With exactly one flag defined, that flag's instance is chosen. */
  lemma SingleFlagSelectsIt(f: BuildFlags, i: Instance)
    requires Defines(f, i)
    requires forall j :: j != i ==> !Defines(f, j)
    ensures SelectInstance(f) == Ok(i)
  {
  }

  /** The platform parameter the id space depends on: PLIC_MAX_NUM_INT of the chosen instance. */
  datatype IrqLayout = IrqLayout(plicMaxNumInt: nat)

  /** irqInvalid of enum irqNumbers. */
  const IrqInvalid: nat := 0

  /** PLIC_IRQ_OFFSET of enum IRQConstants. */
  const PlicIrqOffset: nat := 0

  function PlicMaxIrq(l: IrqLayout): (r: nat)
    ensures r == l.plicMaxNumInt
  {
    PlicIrqOffset + l.plicMaxNumInt
  }

  /** The enum member after PLIC_MAX_IRQ. */
  function InterruptCoreTimer(l: IrqLayout): nat
  {
    PlicMaxIrq(l) + 1
  }

  function MaxIrq(l: IrqLayout): nat
  {
    InterruptCoreTimer(l)
  }

  function KernelTimerIrq(l: IrqLayout): nat
  {
    InterruptCoreTimer(l)
  }

  /** IS_IRQ_VALID(X) of the platform code. */
  predicate IsIrqValid(l: IrqLayout, x: nat)
  {
    x <= MaxIrq(l) && x != IrqInvalid
  }

  /** An id routed to the external interrupt controller. */
  predicate IsExternalLine(l: IrqLayout, x: nat)
  {
    1 <= x <= PlicMaxIrq(l)
  }

  /** Valid ids are exactly the external lines plus the timer; the timer is never 0 and is the largest id. */
  lemma ValidIdsAreLinesOrTimer(l: IrqLayout, x: nat)
    ensures IsIrqValid(l, x) <==> IsExternalLine(l, x) || x == InterruptCoreTimer(l)
    ensures !(IsExternalLine(l, x) && x == InterruptCoreTimer(l))
    ensures InterruptCoreTimer(l) != IrqInvalid && IsIrqValid(l, InterruptCoreTimer(l))
    ensures KernelTimerIrq(l) == MaxIrq(l) == InterruptCoreTimer(l) == l.plicMaxNumInt + 1
    ensures IsIrqValid(l, x) ==> x <= MaxIrq(l)
  {}

  /** PLIC_MAX_NUM_INT of each instance header; HiFive takes its value from a generated header. */
  function InstanceLayout(i: Instance, hiFiveLines: nat): (r: IrqLayout)
    ensures i == Qemu || i == RocketChip ==> r.plicMaxNumInt == 0
    ensures i == Hcsc1 ==> r.plicMaxNumInt == 24
    ensures i == HiFive ==> r.plicMaxNumInt == hiFiveLines
  {
    match i
    case Qemu => IrqLayout(0)
    case RocketChip => IrqLayout(0)
    case HiFive => IrqLayout(hiFiveLines)
    case Hcsc1 => IrqLayout(24)
  }

  /** On the controller-less instances the timer is the only valid id, and it is 1. */
  lemma NullInstancesOnlyTimer(i: Instance, h: nat, x: nat)
    requires i == Qemu || i == RocketChip
    ensures IsIrqValid(InstanceLayout(i, h), x) <==> x == 1
    ensures InterruptCoreTimer(InstanceLayout(i, h)) == 1
  {}
}
