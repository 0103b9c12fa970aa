/**
 * Boot control (Core/Src/boot_cntrl.c): the decision to hand control to an
 * image, and the trace of register writes and steps that hand it over.
 */
module BootCntrl {
  import opened Machine

  const FlashMemAddr: Word := 0x0800_0000
  const SysMemAddr: Word := 0x1FFF_0000
  const RamAddr: Word := 0x2000_0000

  // SYSCFG_MEMRMP.MEM_MODE bits.
  const MemMode0: Word := 0x1
  const MemMode1: Word := 0x2
  const MemModeBits: Word := MemMode0 | MemMode1

  /** The externally visible steps of BOOT_TRANSFER_CNTRL, in program order. */
  datatype Event =
    | SysReset                  // BOOT_SYS_RESET, as one step
    | SyscfgClockOn             // __HAL_RCC_SYSCFG_CLK_ENABLE
    | MemrmpWrite(value: Word)  // a store to SYSCFG->MEMRMP
    | VtorWrite(value: Word)    // a store to SCB->VTOR
    | SetMsp(value: Word)       // __set_MSP
    | JumpTo(entry: Word)       // the call through the reset-handler pointer

  /**
   * Either the function returns without doing anything, or it ends in a jump
   * that never returns, after the trace of steps that led to it.
   */
  datatype Outcome =
    | Reject
    | Handoff(msp: Word, entry: Word, trace: seq<Event>)

  /** The stack-pointer test of BOOT_TRANSFER_CNTRL: bit 29 must be set. */
  predicate StackPointerAccepted(sp: Word) {
    sp & RamAddr == RamAddr
  }

  /** MEMRMP after the stores of a trace, starting from `memrmp`. */
  function MemrmpAfter(trace: seq<Event>, memrmp: Word): Word {
    if trace == [] then memrmp
    else
      var m := MemrmpAfter(trace[..|trace| - 1], memrmp);
      if trace[|trace| - 1].MemrmpWrite? then trace[|trace| - 1].value else m
  }

  /** The value of the last VTOR store in a trace, if any. */
  function VtorAfter(trace: seq<Event>): Option<Word> {
    if trace == [] then None
    else if trace[|trace| - 1].VtorWrite? then Some(trace[|trace| - 1].value)
    else VtorAfter(trace[..|trace| - 1])
  }

  /**
   * The remap step: system memory gets MEM_MODE = 01 by a SET_BIT and a
   * CLEAR_BIT (two stores), an address from flash upwards gets MEM_MODE = 00
   * and VTOR, anything below flash gets neither.
   */
  function Remap(imageAddress: Word, memrmp: Word): (es: seq<Event>)
    ensures forall i :: 0 <= i < |es| ==> es[i].MemrmpWrite? || es[i].VtorWrite?
  {
    if imageAddress == SysMemAddr then
      var m1 := memrmp | MemMode0;
      [MemrmpWrite(m1), MemrmpWrite(m1 & !MemMode1)]
    else if FlashMemAddr <= imageAddress then
      [MemrmpWrite(memrmp & !(MemMode0 | MemMode1)), VtorWrite(imageAddress)]
    else
      []
  }

  /**
   * BOOT_TRANSFER_CNTRL. The stack pointer is the first word of the image and
   * the entry point the second; the entry is read after the reset, from
   * memory the reset does not touch.
   */
  function TransferControl(mem: Mem, imageAddress: Word, memrmp: Word): (r: Outcome)
    ensures r.Reject? <==> !StackPointerAccepted(mem(imageAddress))
    ensures r.Handoff? ==> r.msp == mem(imageAddress) && r.entry == mem(imageAddress + 4)
    ensures r.Handoff? ==>
              |r.trace| >= 4 && r.trace[0] == SysReset && r.trace[1] == SyscfgClockOn
              && r.trace[|r.trace| - 2] == SetMsp(r.msp) && r.trace[|r.trace| - 1] == JumpTo(r.entry)
    ensures r.Handoff? ==>
              forall i :: 2 <= i < |r.trace| - 2 ==> r.trace[i].MemrmpWrite? || r.trace[i].VtorWrite?
    ensures r.Handoff? ==> MemrmpAfter(r.trace, memrmp) == RemappedMemrmp(imageAddress, memrmp)
    ensures r.Handoff? && imageAddress != SysMemAddr && FlashMemAddr <= imageAddress ==>
              VtorAfter(r.trace) == Some(imageAddress)
    ensures r.Handoff? && !(imageAddress != SysMemAddr && FlashMemAddr <= imageAddress) ==>
              VtorAfter(r.trace) == None
  {
    var sp := mem(imageAddress);
    if StackPointerAccepted(sp) then
      var entry := mem(imageAddress + 4);
      var remap := Remap(imageAddress, memrmp);
      var trace := [SysReset, SyscfgClockOn] + remap + [SetMsp(sp), JumpTo(entry)];
      TraceReplay(memrmp, imageAddress, sp, entry);
      RemapStores(imageAddress, memrmp);
      Handoff(sp, entry, trace)
    else
      Reject
  }

  /** What the stores of a handoff trace leave in MEMRMP and VTOR. */
  lemma TraceReplay(memrmp: Word, imageAddress: Word, sp: Word, entry: Word)
    ensures var t := [SysReset, SyscfgClockOn] + Remap(imageAddress, memrmp) + [SetMsp(sp), JumpTo(entry)];
            MemrmpAfter(t, memrmp) == MemrmpAfter(Remap(imageAddress, memrmp), memrmp)
            && VtorAfter(t) == VtorAfter(Remap(imageAddress, memrmp))
  {
    var es := Remap(imageAddress, memrmp);
    var t := [SysReset, SyscfgClockOn] + es + [SetMsp(sp), JumpTo(entry)];
    assert t[..|t| - 1] == [SysReset, SyscfgClockOn] + es + [SetMsp(sp)];
    assert t[..|t| - 1][..|t| - 2] == [SysReset, SyscfgClockOn] + es;
    PrefixReplay(es, memrmp);
  }

  /** MEMRMP as the remap step leaves it: MEM_MODE set to the image's memory, or untouched. */
  function RemappedMemrmp(imageAddress: Word, memrmp: Word): Word {
    if imageAddress == SysMemAddr then (memrmp | MemMode0) & !MemMode1
    else if FlashMemAddr <= imageAddress then memrmp & !(MemMode0 | MemMode1)
    else memrmp
  }

  /** The MEM_MODE field of MEMRMP. */
  function MemMode(m: Word): Word {
    m & MemModeBits
  }

  /** The bits of MEMRMP outside MEM_MODE. */
  function OtherThanMemMode(m: Word): Word {
    m & !MemModeBits
  }

  /**
   * The remap step changes only the MEM_MODE field: system memory is mapped
   * at address 0 (MEM_MODE = 01) or main flash is (MEM_MODE = 00); for an
   * address below flash MEMRMP is left as it was.
   */
  lemma RemapOnlyTouchesMemMode(imageAddress: Word, memrmp: Word)
    ensures OtherThanMemMode(RemappedMemrmp(imageAddress, memrmp)) == OtherThanMemMode(memrmp)
    ensures imageAddress == SysMemAddr ==> MemMode(RemappedMemrmp(imageAddress, memrmp)) == MemMode0
    ensures imageAddress != SysMemAddr && FlashMemAddr <= imageAddress ==>
              MemMode(RemappedMemrmp(imageAddress, memrmp)) == 0
    ensures imageAddress != SysMemAddr && !(FlashMemAddr <= imageAddress) ==>
              RemappedMemrmp(imageAddress, memrmp) == memrmp
  {
    if imageAddress == SysMemAddr {
      SystemModeBits(memrmp);
    } else if FlashMemAddr <= imageAddress {
      FlashModeBits(imageAddress, memrmp);
    }
  }

  lemma SystemModeBits(memrmp: Word)
    ensures MemMode(RemappedMemrmp(SysMemAddr, memrmp)) == MemMode0
    ensures OtherThanMemMode(RemappedMemrmp(SysMemAddr, memrmp)) == OtherThanMemMode(memrmp)
  {
    SystemRemapValue(memrmp);
    SetMode0ClearMode1(memrmp);
  }

  lemma FlashModeBits(imageAddress: Word, memrmp: Word)
    requires imageAddress != SysMemAddr && FlashMemAddr <= imageAddress
    ensures MemMode(RemappedMemrmp(imageAddress, memrmp)) == 0
    ensures OtherThanMemMode(RemappedMemrmp(imageAddress, memrmp)) == OtherThanMemMode(memrmp)
  {
    FlashRemapValue(imageAddress, memrmp);
    ClearMode(memrmp);
  }

  lemma SystemRemapValue(memrmp: Word)
    ensures RemappedMemrmp(SysMemAddr, memrmp) == (memrmp | MemMode0) & !MemMode1
  {
  }

  lemma FlashRemapValue(imageAddress: Word, memrmp: Word)
    requires imageAddress != SysMemAddr && FlashMemAddr <= imageAddress
    ensures RemappedMemrmp(imageAddress, memrmp) == memrmp & !(MemMode0 | MemMode1)
  {
  }

  lemma SetMode0ClearMode1(m: Word)
    ensures MemMode((m | MemMode0) & !MemMode1) == MemMode0
    ensures OtherThanMemMode((m | MemMode0) & !MemMode1) == OtherThanMemMode(m)
  {
    SetMode0ClearMode1Mode(m);
    SetMode0ClearMode1Others(m);
  }

  lemma SetMode0ClearMode1Mode(m: Word)
    ensures MemMode((m | MemMode0) & !MemMode1) == MemMode0
  {
  }

  lemma SetMode0ClearMode1Others(m: Word)
    ensures OtherThanMemMode((m | MemMode0) & !MemMode1) == OtherThanMemMode(m)
  {
  }

  lemma ClearMode(m: Word)
    ensures MemMode(m & !(MemMode0 | MemMode1)) == 0
    ensures OtherThanMemMode(m & !(MemMode0 | MemMode1)) == OtherThanMemMode(m)
  {
    ClearModeMode(m);
    ClearModeOthers(m);
  }

  lemma ClearModeMode(m: Word)
    ensures MemMode(m & !(MemMode0 | MemMode1)) == 0
  {
  }

  lemma ClearModeOthers(m: Word)
    ensures OtherThanMemMode(m & !(MemMode0 | MemMode1)) == OtherThanMemMode(m)
  {
  }

  /** What the stores of the remap step leave in MEMRMP and VTOR. */
  lemma RemapStores(imageAddress: Word, memrmp: Word)
    ensures MemrmpAfter(Remap(imageAddress, memrmp), memrmp) == RemappedMemrmp(imageAddress, memrmp)
    ensures imageAddress != SysMemAddr && FlashMemAddr <= imageAddress ==>
              VtorAfter(Remap(imageAddress, memrmp)) == Some(imageAddress)
    ensures !(imageAddress != SysMemAddr && FlashMemAddr <= imageAddress) ==>
              VtorAfter(Remap(imageAddress, memrmp)) == None
  {
    if imageAddress == SysMemAddr {
      SystemRemapStores(memrmp);
    } else if FlashMemAddr <= imageAddress {
      FlashRemapStores(imageAddress, memrmp);
    }
  }

  lemma SystemRemapStores(memrmp: Word)
    ensures MemrmpAfter(Remap(SysMemAddr, memrmp), memrmp) == RemappedMemrmp(SysMemAddr, memrmp)
    ensures VtorAfter(Remap(SysMemAddr, memrmp)) == None
  {
    var m1 := memrmp | MemMode0;
    TwoStores(MemrmpWrite(m1), MemrmpWrite(m1 & !MemMode1), memrmp);
  }

  lemma FlashRemapStores(imageAddress: Word, memrmp: Word)
    requires imageAddress != SysMemAddr && FlashMemAddr <= imageAddress
    ensures MemrmpAfter(Remap(imageAddress, memrmp), memrmp) == RemappedMemrmp(imageAddress, memrmp)
    ensures VtorAfter(Remap(imageAddress, memrmp)) == Some(imageAddress)
  {
    var e1 := MemrmpWrite(memrmp & !(MemMode0 | MemMode1));
    assert Remap(imageAddress, memrmp) == [e1, VtorWrite(imageAddress)];
    assert RemappedMemrmp(imageAddress, memrmp) == e1.value;
    TwoStores(e1, VtorWrite(imageAddress), memrmp);
  }

  /** Replaying a trace of two steps. */
  lemma TwoStores(e1: Event, e2: Event, memrmp: Word)
    ensures MemrmpAfter([e1, e2], memrmp) ==
            if e2.MemrmpWrite? then e2.value else if e1.MemrmpWrite? then e1.value else memrmp
    ensures VtorAfter([e1, e2]) ==
            if e2.VtorWrite? then Some(e2.value) else if e1.VtorWrite? then Some(e1.value) else None
  {
    var t := [e1, e2];
    assert t[..|t| - 1] == [e1];
    assert [e1][..0] == [];
    assert MemrmpAfter([e1], memrmp) == if e1.MemrmpWrite? then e1.value else memrmp;
    assert VtorAfter([e1]) == if e1.VtorWrite? then Some(e1.value) else None;
  }

  /** Steps that store nothing, in front of a trace, change nothing. */
  lemma {:induction false} PrefixReplay(es: seq<Event>, memrmp: Word)
    ensures MemrmpAfter([SysReset, SyscfgClockOn] + es, memrmp) == MemrmpAfter(es, memrmp)
    ensures VtorAfter([SysReset, SyscfgClockOn] + es) == VtorAfter(es)
    decreases |es|
  {
    var t := [SysReset, SyscfgClockOn] + es;
    if es == [] {
      assert t[..1] == [SysReset];
      assert t[..1][..0] == [];
    } else {
      assert t[..|t| - 1] == [SysReset, SyscfgClockOn] + es[..|es| - 1];
      PrefixReplay(es[..|es| - 1], memrmp);
    }
  }

  /**
   * The stack-pointer test is one bit, not a range check: a RAM address
   * passes and zero fails, but so do addresses that are not RAM at all.
   */
  lemma StackPointerTestIsOneBit()
    ensures StackPointerAccepted(0x2000_1000)
    ensures !StackPointerAccepted(0)
    ensures StackPointerAccepted(0x6000_0000) && StackPointerAccepted(0x3FFF_FFFF)
    ensures !StackPointerAccepted(0x1FFF_FFFF)
  {
  }

  /**
   * An erased image passes the test: the first word of erased flash is all
   * ones, bit 29 included, so the bootloader resets the chip, sets the stack
   * pointer to 0xFFFFFFFF and jumps to the erased second word.
   */
  lemma ErasedImageAccepted(mem: Mem, imageAddress: Word, memrmp: Word)
    requires mem(imageAddress) == Erased && mem(imageAddress + 4) == Erased
    ensures var r := TransferControl(mem, imageAddress, memrmp);
            r.Handoff? && r.msp == Erased && r.entry == Erased
  {
  }

  /** The stack pointer's high byte picks the 16 MB SRAM region at 0x2000_0000. */
  const RamWindowMask: Word := 0xFF00_0000

  /** The test the comment in BOOT_TRANSFER_CNTRL describes: the stack pointer lies in RAM. */
  predicate StackPointerInRam(sp: Word) {
    sp & RamWindowMask == RamAddr
  }

  /** The window test accepts exactly the addresses of the SRAM region. */
  lemma StackPointerInRamRange(sp: Word)
    ensures StackPointerInRam(sp) <==> RamAddr <= sp < RamAddr + 0x0100_0000
  {
  }

  /** Every stack pointer the window test accepts also passes the one-bit test. */
  lemma InRamIsAccepted(sp: Word)
    requires StackPointerInRam(sp)
    ensures StackPointerAccepted(sp)
  {
  }

  /**
   * BOOT_TRANSFER_CNTRL with the RAM-window test: the same handoff for a
   * stack pointer in RAM, and no handoff otherwise, an erased image included.
   */
  function TransferControlChecked(mem: Mem, imageAddress: Word, memrmp: Word): (r: Outcome)
    ensures r.Reject? <==> !StackPointerInRam(mem(imageAddress))
    ensures r.Handoff? ==> r == TransferControl(mem, imageAddress, memrmp)
    ensures mem(imageAddress) == Erased ==> r.Reject?
  {
    if StackPointerInRam(mem(imageAddress)) then
      InRamIsAccepted(mem(imageAddress));
      TransferControl(mem, imageAddress, memrmp)
    else
      Reject
  }
}
