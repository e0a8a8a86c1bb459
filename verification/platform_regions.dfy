/**
 * The boot memory tables of the spike instance headers: the available
 * physical RAM (avail_p_regs) and the device frames (dev_p_regs), as
 * half-open ranges [start, end).
 */
module PlatformRegions {
  import opened IrqSpace

  datatype PRegion = PRegion(start: nat, end: nat)

  /** Which CONFIG_ARCH_RISCV* the build selects. */
  datatype Arch = RiscV64 | RiscV32

  /** The instances whose headers carry region tables here; the HiFive header is not part of this model. */
  predicate HasRegionTable(i: Instance)
  {
    i != HiFive
  }

  const MiB: nat := 0x10_0000

  /** avail_p_regs of each instance. */
  function AvailRegions(i: Instance, arch: Arch): (rs: seq<PRegion>)
    requires HasRegionTable(i)
    ensures |rs| == 1
    ensures i == Qemu ==> rs[0].start == 0x8000_0000 + 2 * MiB
  {
    match i
    case Qemu => if arch == RiscV64 then [PRegion(0x8020_0000, 0x1_7FF0_0000)] else [PRegion(0x8020_0000, 0xFD00_0000)]
    case RocketChip => [PRegion(0x0, 0x1000_0000)]
    case Hcsc1 => [PRegion(0x1e1_3000, 0x210_0000)]
  }

  /** dev_p_regs of each instance: empty except for the four UART frames of hcsc1. */
  function DeviceRegions(i: Instance): (rs: seq<PRegion>)
    requires HasRegionTable(i)
    ensures i != Hcsc1 <==> rs == []
  {
    match i
    case Qemu => []
    case RocketChip => []
    case Hcsc1 => [PRegion(0x40_4000, 0x40_5000), PRegion(0x40_5000, 0x40_6000),
                   PRegion(0x40_6000, 0x40_7000), PRegion(0x40_8000, 0x40_9000)]
  }

  /** Non-empty ranges in ascending order with a gap between neighbours (regions may not be adjacent). */
  predicate SeparatedAscending(rs: seq<PRegion>)
  {
    (forall i :: 0 <= i < |rs| ==> rs[i].start < rs[i].end)
    && (forall i :: 0 <= i < |rs| - 1 ==> rs[i].end < rs[i + 1].start)
  }

  /** Non-empty, ascending, non-overlapping ranges. */
  predicate DisjointAscending(rs: seq<PRegion>)
  {
    (forall i :: 0 <= i < |rs| ==> rs[i].start < rs[i].end)
    && (forall i :: 0 <= i < |rs| - 1 ==> rs[i].end <= rs[i + 1].start)
  }

  predicate Overlap(a: PRegion, b: PRegion)
  {
    a.start < b.end && b.start < a.end
  }

  /** A range of whole 4 KiB frames. */
  predicate FrameAligned(r: PRegion)
  {
    r.start % 0x1000 == 0 && r.end % 0x1000 == 0
  }

  /**
   * Every table is well formed: the RAM ranges are non-empty and apart, the
   * device frames are non-empty, ordered, whole frames and disjoint from RAM,
   * and on RV32 every bound fits a 32-bit word.
   */
  lemma RegionTablesWellFormed(i: Instance, arch: Arch)
    requires HasRegionTable(i)
    ensures SeparatedAscending(AvailRegions(i, arch))
    ensures DisjointAscending(DeviceRegions(i))
    ensures forall d :: 0 <= d < |DeviceRegions(i)| ==> FrameAligned(DeviceRegions(i)[d])
    ensures forall d, a :: 0 <= d < |DeviceRegions(i)| && 0 <= a < |AvailRegions(i, arch)| ==>
      !Overlap(DeviceRegions(i)[d], AvailRegions(i, arch)[a])
    ensures arch == RiscV32 ==> forall a :: 0 <= a < |AvailRegions(i, arch)| ==> AvailRegions(i, arch)[a].end < 0x1_0000_0000
  {}

  /** The hcsc1 frames: the first three are adjacent, and a one-page hole lies before the fourth. */
  lemma Hcsc1FrameGap()
    ensures |DeviceRegions(Hcsc1)| == 4
    ensures DeviceRegions(Hcsc1)[0].end == DeviceRegions(Hcsc1)[1].start
    ensures DeviceRegions(Hcsc1)[1].end == DeviceRegions(Hcsc1)[2].start
    ensures DeviceRegions(Hcsc1)[3].start == DeviceRegions(Hcsc1)[2].end + 0x1000
  {}

  /** The controller-less instances have neither interrupt lines nor device frames. */
  lemma NullInstancesHaveNoDevices(i: Instance, hiFiveLines: nat)
    requires i == Qemu || i == RocketChip
    ensures DeviceRegions(i) == []
    ensures PlicMaxIrq(InstanceLayout(i, hiFiveLines)) == 0
  {}
}
