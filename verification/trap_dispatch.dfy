/**
 * Trap entry dispatch of the RISC-V trap code (c_traps.c): which handler an
 * exception cause reaches, when the page-table dump runs, and how a syscall
 * number is routed to the fastpath, the slowpath or the unknown-syscall
 * handler. Exception codes follow the scause table of section 4.1 of the
 * RISC-V Privileged Architecture specification.
 */
module TrapDispatch {
  import opened Results

  /** Exception codes of scause when its interrupt bit is clear. */
  datatype Exception =
    | InstructionMisaligned | InstructionAccessFault | IllegalInstruction | Breakpoint
    | LoadMisaligned | LoadAccessFault | StoreMisaligned | StoreAccessFault
    | UserEnvCall | SupervisorEnvCall | MachineEnvCall
    | InstructionPageFault | LoadPageFault | StorePageFault

  /** The code of each named exception. */
  function Code(e: Exception): nat
  {
    match e
    case InstructionMisaligned => 0
    case InstructionAccessFault => 1
    case IllegalInstruction => 2
    case Breakpoint => 3
    case LoadMisaligned => 4
    case LoadAccessFault => 5
    case StoreMisaligned => 6
    case StoreAccessFault => 7
    case UserEnvCall => 8
    case SupervisorEnvCall => 9
    case MachineEnvCall => 11
    case InstructionPageFault => 12
    case LoadPageFault => 13
    case StorePageFault => 15
  }

  /** An exception raised by address translation or a physical-memory check. */
  predicate IsMemoryFault(e: Exception)
  {
    e.InstructionAccessFault? || e.LoadAccessFault? || e.StoreAccessFault?
    || e.InstructionPageFault? || e.LoadPageFault? || e.StorePageFault?
  }

  /** The handler c_handle_exception calls. */
  datatype Handler = VMFaultEvent(vmFaultType: nat) | UserLevelFault(code: nat, extra: nat)

  /** The switch of c_handle_exception: the six access- and page-fault causes are VM faults. */
  function HandleException(scause: nat): (h: Handler)
    ensures h.VMFaultEvent? ==> h.vmFaultType == scause
    ensures h.UserLevelFault? ==> h.code == scause && h.extra == 0
  {
    match scause
    case 1 => VMFaultEvent(scause)
    case 5 => VMFaultEvent(scause)
    case 7 => VMFaultEvent(scause)
    case 13 => VMFaultEvent(scause)
    case 15 => VMFaultEvent(scause)
    case 12 => VMFaultEvent(scause)
    case _ => UserLevelFault(scause, 0)
  }

  /** A cause reaches the VM-fault handler exactly when it is the code of a memory fault. */
  lemma VMFaultIffMemoryFault(scause: nat)
    ensures HandleException(scause).VMFaultEvent? <==> exists e :: Code(e) == scause && IsMemoryFault(e)
  {
    if HandleException(scause).VMFaultEvent? {
      var e :=
        if scause == 1 then InstructionAccessFault
        else if scause == 5 then LoadAccessFault
        else if scause == 7 then StoreAccessFault
        else if scause == 12 then InstructionPageFault
        else if scause == 13 then LoadPageFault
        else StorePageFault;
      assert Code(e) == scause;
    }
  }

  /** Environment calls, breakpoints, illegal and misaligned accesses all go to the user-level fault handler. */
  lemma OtherExceptionsAreUserFaults(e: Exception)
    requires !IsMemoryFault(e)
    ensures HandleException(Code(e)) == UserLevelFault(Code(e), 0)
  {}

  /** satp's PPN field (bits 0..43). */
  const SatpPpnMask: bv64 := 0xfff_ffff_ffff

  /** The root table c_handle_exception dumps before dispatching: only on an instruction page fault (0x0c). */
  function DumpRoot(scause: bv64, satp: bv64): (r: Option<bv64>)
    ensures r.Some? <==> scause as nat == Code(InstructionPageFault)
    ensures r.Some? ==> r.value & 0xFFF == 0 && r.value >> 56 == 0
    ensures r.Some? ==> r.value >> 12 == satp & SatpPpnMask
  {
    if scause == 0x0c then Some((satp & SatpPpnMask) << 12) else None
  }

  /** The dump only ever precedes a VM-fault dispatch. */
  lemma DumpOnlyBeforeVMFault(scause: bv64, satp: bv64)
    ensures DumpRoot(scause, satp).Some? ==> HandleException(scause as nat) == VMFaultEvent(12)
  {}

  /** The generated syscall numbering: the valid range and the two fastpath syscalls. */
  datatype Syscalls = Syscalls(min: int, max: int, sysCall: int, sysReplyRecv: int)

  /** Where a syscall ends up. */
  datatype Route = FastpathCall | FastpathReplyRecv | UnknownSyscall(number: int) | HandleSyscall(number: int)

  predicate InRange(s: Syscalls, n: int)
  {
    s.min <= n <= s.max
  }

  /** slowpath: numbers outside [SYSCALL_MIN, SYSCALL_MAX] are unknown, the others are handled. */
  function Slowpath(s: Syscalls, n: int): (r: Route)
    ensures r.UnknownSyscall? || r.HandleSyscall?
    ensures r.UnknownSyscall? <==> !InRange(s, n)
    ensures r.number == n
  {
    if n < s.min || n > s.max then UnknownSyscall(n) else HandleSyscall(n)
  }

  /** c_handle_syscall: with CONFIG_FASTPATH, SysCall and SysReplyRecv take the fastpath; the rest take the slowpath. */
  function CHandleSyscall(fastpath: bool, s: Syscalls, n: int): (r: Route)
    ensures r.FastpathCall? <==> fastpath && n == s.sysCall
    ensures r.FastpathReplyRecv? <==> fastpath && n == s.sysReplyRecv && n != s.sysCall
    ensures !r.FastpathCall? && !r.FastpathReplyRecv? ==> r == Slowpath(s, n)
  {
    if fastpath && n == s.sysCall then FastpathCall
    else if fastpath && n == s.sysReplyRecv then FastpathReplyRecv
    else Slowpath(s, n)
  }

  /** The fastpath changes nothing for other numbers, and without it every number takes the slowpath. */
  lemma FastpathOnlyShortcuts(s: Syscalls, n: int)
    ensures n != s.sysCall && n != s.sysReplyRecv ==> CHandleSyscall(true, s, n) == CHandleSyscall(false, s, n)
    ensures CHandleSyscall(false, s, n) == Slowpath(s, n)
  {}

  /** When the fastpath syscalls lie in the valid range, a number reported unknown is out of range whatever the configuration. */
  lemma UnknownMeansOutOfRange(fastpath: bool, s: Syscalls, n: int)
    requires InRange(s, s.sysCall) && InRange(s, s.sysReplyRecv)
    ensures CHandleSyscall(fastpath, s, n).UnknownSyscall? <==> !InRange(s, n)
  {}
}
