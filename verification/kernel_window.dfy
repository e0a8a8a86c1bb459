/**
 * The RV64/Sv39 kernel virtual-address layout (arch/64/mode/hardware.h):
 * the physical-memory window, the kernel image window and the device
 * window, all 64-bit unsigned constants, and where each sits in the
 * root page table.
 */
module KernelWindow {
  import opened Arith

  const KiB: nat := 1024
  const MiB: nat := 1024 * KiB
  const GiB: nat := 1024 * MiB

  /** PADDR_BASE: the first physical address of the physical-memory window. */
  const PaddrBase: Word64 := 0x0
  /** PPTR_BASE: where physical address 0 is mapped. */
  const PptrBase: Word64 := 0xFFFF_FFC0_0000_0000
  /** PPTR_TOP: end of the physical-memory window and start of the kernel image window. */
  const PptrTop: Word64 := 0xFFFF_FFFF_8000_0000
  /** KDEV_BASE: start of the kernel device window. */
  const KdevBase: Word64 := 0xFFFF_FFFF_C000_0000
  /** KS_LOG_PPTR: the kernel log buffer. */
  const KsLogPptr: Word64 := 0xFFFF_FFFF_FFE0_0000

  /** PADDR_TOP: the physical memory the window reaches. */
  const PaddrTop: nat := PptrTop - PptrBase

  /** The windows sit at the top of the 64-bit space as the layout describes: 2^64 - 2^38, 254 GiB, 1 GiB each. */
  lemma WindowSizes()
    ensures PptrBase == Pow64 - 0x40_0000_0000
    ensures PaddrTop == 254 * GiB
    ensures KdevBase == PptrTop + GiB == Pow64 - GiB
    ensures KsLogPptr == Pow64 - 2 * MiB
    ensures PptrBase < PptrTop < KdevBase <= KsLogPptr < Pow64
  {}

  /** KERNEL_ELF_PADDR_BASE: physBase + 64 MiB in 64-bit arithmetic. */
  function KernelElfPaddrBase(physBase: Word64): (r: Word64)
    ensures physBase + 64 * MiB < Pow64 ==> r == physBase + 64 * MiB
    ensures physBase + 64 * MiB >= Pow64 ==> r == physBase + 64 * MiB - Pow64
    ensures r % (2 * MiB) == physBase % (2 * MiB)
  {
    (physBase + 0x400_0000) % Pow64
  }

  /** KERNEL_ELF_BASE: PPTR_TOP plus the image's offset within its 1 GiB frame (MASK(30)). */
  function KernelElfBase(physBase: Word64): (r: Word64)
    ensures PptrTop <= r < KdevBase
    ensures r - PptrTop == KernelElfPaddrBase(physBase) % GiB
  {
    PptrTop + KernelElfPaddrBase(physBase) % 0x4000_0000
  }

  /** The image is linked at the same 2 MiB alignment as the physical base. */
  lemma ImageKeepsAlignment(physBase: Word64)
    ensures KernelElfBase(physBase) % (2 * MiB) == physBase % (2 * MiB)
  {
    var p := KernelElfPaddrBase(physBase);
    assert p % GiB % (2 * MiB) == p % (2 * MiB) by {
      ModOfMultiple(p, 2 * MiB, 512);
    }
    assert PptrTop % (2 * MiB) == 0;
    AddAligned(PptrTop, p % GiB, 2 * MiB);
  }

  lemma AddAligned(a: nat, b: nat, m: nat)
    requires m > 0 && a % m == 0
    ensures (a + b) % m == b % m
  {
    DivModShift(a / m, m, b);
    assert a == (a / m) * m;
  }

  /** The root-table slot (VPN[2]) of a virtual address. */
  function RootSlot(v: nat): nat
  {
    (v / GiB) % 512
  }

  /** The physical-memory window uses root slots 256..509, the image window slot 510 and the device window slot 511. */
  lemma RootSlots(physBase: Word64)
    ensures RootSlot(PptrBase) == 256
    ensures RootSlot(PptrTop) == 510 && RootSlot(KernelElfBase(physBase)) == 510
    ensures RootSlot(KdevBase) == 511 && RootSlot(KsLogPptr) == 511
  {
    SameFrame(PptrTop, KernelElfBase(physBase) - PptrTop, 510);
  }

  lemma SameFrame(base: nat, off: nat, slot: nat)
    requires base % GiB == 0 && off < GiB && slot < 512 && (base / GiB) % 512 == slot
    ensures RootSlot(base + off) == slot
  {
    DivModShift(base / GiB, GiB, off);
    assert base == (base / GiB) * GiB;
  }

  /** kpptr: the virtual address of a physical address in the physical-memory window. */
  function PaddrToPptr(p: nat): (v: Word64)
    requires p < PaddrTop
    ensures PptrBase <= v < PptrTop
    ensures 256 <= RootSlot(v) <= 509
  {
    var v := PptrBase + p;
    assert v / GiB == PptrBase / GiB + p / GiB by {
      DivModShift(PptrBase / GiB, GiB, p % GiB);
      assert v == (PptrBase / GiB + p / GiB) * GiB + p % GiB;
    }
    v
  }

  /** The physical-memory window is a translation: the physical address comes back by subtracting PPTR_BASE. */
  lemma PptrRoundTrip(p: nat)
    requires p < PaddrTop
    ensures PaddrToPptr(p) - PptrBase == p
  {}
}
