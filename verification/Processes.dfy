// The process structure and the task state segment.
module Processes {
  import opened Machine

  const SEGSEL_KERNEL_CS: u32 := 0x08
  const SEGSEL_KERNEL_DS: u32 := 0x10
  const SEGSEL_USER_SPACE_CS: u32 := 0x18
  const SEGSEL_USER_SPACE_DS: u32 := 0x20
  const REG_EFLAGS_DEFAULT: u32 := 0x202

  datatype Registers = Registers(eax: u32, ebx: u32, ecx: u32, edx: u32, ebp: u32, esi: u32, edi: u32,
                                 ss: u32, esp: u32, eflags: u32, cs: u32, eip: u32)

  const NO_REGISTERS: Registers := Registers(0, 0, 0, 0, 0, 0, 0, 0, 0, 0, 0, 0)

  // Physical frames of a part of a process, at the address the heap gave the element.
  class PaddrEle {
    const at: nat
    const paddr: u32
    const count: u32
    const next: PaddrEle?

    constructor (at: nat, paddr: u32, count: u32, next: PaddrEle?)
      ensures this.at == at && this.paddr == paddr && this.count == count && this.next == next
    {
      this.at, this.paddr, this.count, this.next := at, paddr, count, next;
    }
  }

  datatype PaddrList = PaddrList(start: PaddrEle?, end: PaddrEle?)

  // struct process. The directory is known by the kernel address it is mapped at and by its physical
  // address.
  datatype Fields = Fields(
    id: u32, parentId: u32, pdt: u32, pdtPaddr: u32, current: Registers, userMode: Registers,
    kernelStackStartVaddr: u32, stackStartVaddr: u32, codeStartVaddr: u32,
    codePaddrs: PaddrList, stackPaddrs: PaddrList, kernelStackPaddrs: PaddrList)

  // A process at the address the heap gave it. process_create fills in the fields one by one before
  // anything else can reach them; nothing changes them afterwards.
  class Process {
    const at: nat
    const f: Fields

    constructor (at: nat, f: Fields)
      ensures this.at == at && this.f == f
    {
      this.at, this.f := at, f;
    }
  }

  const NO_FRAMES: PaddrList := PaddrList(null, null)

  // The fields as process_create first sets them.
  function InitialFields(id: u32): Fields
  {
    Fields(id, 0, 0, 0, NO_REGISTERS, UserStart(), 0, 0xBFFF_F000, 0, NO_FRAMES, NO_FRAMES, NO_FRAMES)
  }

  // Registers of a process that has not run: user segments with privilege level 3, interrupts enabled.
  function UserStart(): Registers
  {
    NO_REGISTERS.(eflags := REG_EFLAGS_DEFAULT, ss := SEGSEL_USER_SPACE_DS + 3, cs := SEGSEL_USER_SPACE_CS + 3)
  }

  // The part of the task state segment the kernel sets: the stack for interrupts from user mode.
  datatype Tss = Tss(esp0: u32, ss0: u32)
}
