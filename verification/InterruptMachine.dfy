/**
 The interrupt table and the interrupt instructions on the emulated memory and registers.
 kernel/src/irq/idt.c, nemu/src/cpu/intr.c, nemu/src/cpu/instr/ret.c.
 */
module InterruptMachine {
  import opened Arithmetic
  import opened FlatMemory
  import opened Interrupts

  /** The table when the first k exceptions have their handlers. */
  function Exceptions(h: Handlers, k: nat): (t: seq<Gate>)
    requires |h.vec| == 15 && k <= 15
    ensures |t| == NR_IRQ
  {
    seq(NR_IRQ, n requires 0 <= n < NR_IRQ => GateTo(if n < k then h.vec[n] else h.empty, TRAP_GATE_32, DPL_KERNEL))
  }

  lemma ExceptionStep(h: Handlers, k: nat)
    requires |h.vec| == 15 && k < 15
    ensures Exceptions(h, k)[k := GateTo(h.vec[k], TRAP_GATE_32, DPL_KERNEL)] == Exceptions(h, k + 1)
  {
    hide GateTo;
  }

  lemma InstalledIs(h: Handlers)
    requires |h.vec| == 15
    ensures Exceptions(h, 15)
              [0x80 := GateTo(h.vecsys, TRAP_GATE_32, DPL_USER)]
              [32 := GateTo(h.irq0, INTERRUPT_GATE_32, DPL_KERNEL)]
              [33 := GateTo(h.irq1, INTERRUPT_GATE_32, DPL_KERNEL)]
              [46 := GateTo(h.irq14, INTERRUPT_GATE_32, DPL_KERNEL)] == Installed(h)
  {
    hide GateTo;
  }

  /** Only bytes of the table at base differ. */
  ghost predicate OnlyTable(a: seq<byte>, b: seq<byte>, base: nat) {
    |a| == |b| && forall k :: 0 <= k < |a| && !(base <= k < base + 8 * NR_IRQ) ==> b[k] == a[k]
  }

  class Machine {
    const mem: array<byte>
    var eip: uint32
    var esp: uint32
    var cs: nat
    var eflags: uint32
    var idtr: nat

    constructor (mem: array<byte>, esp: uint32)
      ensures this.mem == mem && this.esp == esp
    {
      this.mem := mem;
      this.esp := esp;
      eip, cs, eflags, idtr := 0, KERNEL_CS, 0, 0;
    }

    ghost function Here(): State
      reads this, mem
    {
      State(mem[..], eip, esp, cs, eflags, idtr)
    }

    // ----- the kernel's side

    method SetGate(base: nat, n: nat, offset: uint32, kind: nat, dpl: nat)
      requires n < NR_IRQ && base + 8 * NR_IRQ <= mem.Length && kind < 0x10 && dpl < 4
      modifies mem
      ensures Table(mem[..], base) == old(Table(mem[..], base))[n := GateTo(offset, kind, dpl)]
      ensures OnlyTable(old(mem[..]), mem[..], base)
    {
      ghost var m := mem[..];
      var g := GateTo(offset, kind, dpl);
      StoreGate(m, base, n, g);
      StoredMeaning(m, base + 8 * n, 4, LowWord(g));
      StoredMeaning(Stored(m, base + 8 * n, 4, LowWord(g)), base + 8 * n + 4, 4, HighWord(g));
      hide Stored, Table, LowWord, HighWord, GateTo;
      HwMemWrite(mem, base + 8 * n, 4, LowWord(g));
      HwMemWrite(mem, base + 8 * n + 4, 4, HighWord(g));
    }

    method SetIntr(base: nat, n: nat, offset: uint32, dpl: nat)
      requires n < NR_IRQ && base + 8 * NR_IRQ <= mem.Length && dpl < 4
      modifies mem
      ensures Table(mem[..], base) == old(Table(mem[..], base))[n := GateTo(offset, INTERRUPT_GATE_32, dpl)]
      ensures GateWords(mem[..], base + 8 * n, offset, 0x8e00 + 0x2000 * dpl)
      ensures OnlyTable(old(mem[..]), mem[..], base)
    {
      hide GateWords, GateTo;
      SetGate(base, n, offset, INTERRUPT_GATE_32, dpl);
      assert Table(mem[..], base)[n] == GateAt(mem[..], base, n);
      GateInMemory(mem[..], base, n, offset, INTERRUPT_GATE_32, dpl);
    }

    method SetTrap(base: nat, n: nat, offset: uint32, dpl: nat)
      requires n < NR_IRQ && base + 8 * NR_IRQ <= mem.Length && dpl < 4
      modifies mem
      ensures Table(mem[..], base) == old(Table(mem[..], base))[n := GateTo(offset, TRAP_GATE_32, dpl)]
      ensures GateWords(mem[..], base + 8 * n, offset, 0x8f00 + 0x2000 * dpl)
      ensures OnlyTable(old(mem[..]), mem[..], base)
    {
      hide GateWords, GateTo;
      SetGate(base, n, offset, TRAP_GATE_32, dpl);
      assert Table(mem[..], base)[n] == GateAt(mem[..], base, n);
      GateInMemory(mem[..], base, n, offset, TRAP_GATE_32, dpl);
    }

    method SetAllEmpty(base: nat, h: Handlers)
      requires base + 8 * NR_IRQ <= mem.Length && |h.vec| == 15
      modifies mem
      ensures Table(mem[..], base) == Exceptions(h, 0) && OnlyTable(old(mem[..]), mem[..], base)
    {
      hide Table, GateTo, GateWords;
      var i := 0;
      while i < NR_IRQ
        invariant i <= NR_IRQ && OnlyTable(old(mem[..]), mem[..], base)
        invariant forall k :: 0 <= k < i ==> Table(mem[..], base)[k] == GateTo(h.empty, TRAP_GATE_32, DPL_KERNEL)
      {
        SetTrap(base, i, h.empty, DPL_KERNEL);
        i := i + 1;
      }
    }

    method SetException(base: nat, h: Handlers, k: nat)
      requires base + 8 * NR_IRQ <= mem.Length && |h.vec| == 15 && k < 15 && Table(mem[..], base) == Exceptions(h, k)
      modifies mem
      ensures Table(mem[..], base) == Exceptions(h, k + 1) && OnlyTable(old(mem[..]), mem[..], base)
    {
      ExceptionStep(h, k);
      hide Table, GateTo, GateWords, Exceptions;
      SetTrap(base, k, h.vec[k], DPL_KERNEL);
    }

    /** init_idt: the table at base, the table register and, at the end, the interrupt flag. */
    method InitIdt(base: nat, h: Handlers)
      requires base + 8 * NR_IRQ <= mem.Length && |h.vec| == 15
      modifies mem, this`idtr, this`eflags
      ensures idtr == base && Table(mem[..], base) == Installed(h) && OnlyTable(old(mem[..]), mem[..], base)
      ensures forall n :: 0 <= n < 15 ==> GateWords(mem[..], base + 8 * n, h.vec[n], 0x8f00)
      ensures GateWords(mem[..], base + 8 * 32, h.irq0, 0x8e00) && GateWords(mem[..], base + 8 * 33, h.irq1, 0x8e00)
      ensures GateWords(mem[..], base + 8 * 46, h.irq14, 0x8e00) && GateWords(mem[..], base + 8 * 0x80, h.vecsys, 0xef00)
      ensures forall n :: 15 <= n < NR_IRQ && n != 32 && n != 33 && n != 46 && n != 0x80 ==>
                GateWords(mem[..], base + 8 * n, h.empty, 0x8f00)
      ensures InterruptFlag(eflags) && ClearIF(eflags) == ClearIF(old(eflags))
    {
      hide GateWords, Table, GateTo, Exceptions, Installed, ClearIF, InterruptFlag;
      ghost var m := mem[..];
      SetAllEmpty(base, h);
      SetException(base, h, 0);
      SetException(base, h, 1);
      SetException(base, h, 2);
      SetException(base, h, 3);
      SetException(base, h, 4);
      SetException(base, h, 5);
      SetException(base, h, 6);
      SetException(base, h, 7);
      SetException(base, h, 8);
      SetException(base, h, 9);
      SetException(base, h, 10);
      SetException(base, h, 11);
      SetException(base, h, 12);
      SetException(base, h, 13);
      SetException(base, h, 14);
      SetTrap(base, 0x80, h.vecsys, DPL_USER);
      SetIntr(base, 32 + 0, h.irq0, DPL_KERNEL);
      SetIntr(base, 32 + 1, h.irq1, DPL_KERNEL);
      SetIntr(base, 32 + 14, h.irq14, DPL_KERNEL);
      InstalledIs(h);
      InstalledWords(mem[..], base, h);
      idtr := base;
      eflags := SetIF(eflags);
    }

    // ----- the machine's side

    method Push(value: uint32)
      requires 4 <= esp <= mem.Length
      modifies mem, this`esp
      ensures esp == old(esp) - 4 && mem[..] == Stored(old(mem[..]), esp, 4, value)
    {
      esp := esp - 4;
      HwMemWrite(mem, esp, 4, value);
    }

    method Pop() returns (value: uint32)
      requires esp + 4 <= mem.Length && esp + 4 < WORD
      modifies this`esp
      ensures esp == old(esp) + 4 && value == Loaded(mem[..], old(esp), 4)
    {
      value := HwMemRead(mem, esp, 4);
      esp := esp + 4;
    }

    method RaiseIntr(intrNo: nat)
      requires Here().Ready() && intrNo < NR_IRQ
      modifies mem, this
      ensures Here() == Raise(old(Here()), intrNo)
    {
      hide Stored, Loaded, Unpack, ClearIF, Table, SignExt16;
      ghost var s := Here();
      Push(eflags);
      Push(SignExt16(cs));
      Push(eip);
      assert mem[..] == Pushed(s.mem, s.esp, s.eflags, s.cs, s.eip);
      var low := HwMemRead(mem, idtr + 8 * intrNo, 4);
      var high := HwMemRead(mem, idtr + 8 * intrNo + 4, 4);
      var gate := Unpack(low, high);
      assert gate == GateAt(mem[..], idtr, intrNo);
      if gate.kind == 0xe {
        eflags := ClearIF(eflags);
      }
      cs := gate.selector;
      eip := gate.offsetLow + gate.offsetHigh * 0x1_0000;
    }

    /** A software interrupt returns behind the two-byte instruction. */
    method RaiseSwIntr(intrNo: nat)
      requires Here().Ready() && intrNo < NR_IRQ
      modifies mem, this
      ensures var s := old(Here()); Here() == Raise(s.(eip := Wrap32(s.eip + 2)), intrNo)
    {
      hide Raise, Wrap32;
      eip := Wrap32(eip + 2);
      RaiseIntr(intrNo);
    }

    method Iret()
      requires esp + 12 <= mem.Length && esp + 12 < WORD
      modifies this`eip, this`cs, this`eflags, this`esp
      ensures Here() == Return(old(Here()))
    {
      hide Loaded;
      eip := Pop();
      var value := Pop();
      cs := value % 0x1_0000;
      eflags := Pop();
    }
  }

  function SetIF(eflags: uint32): (e: uint32)
    ensures InterruptFlag(e) && ClearIF(e) == ClearIF(eflags)
  {
    if InterruptFlag(eflags) then eflags
    else
      SetIFMeaning(eflags);
      eflags + 0x200
  }

  lemma SetIFMeaning(eflags: uint32)
    requires !InterruptFlag(eflags)
    ensures eflags + 0x200 < WORD && InterruptFlag(eflags + 0x200)
  {
  }
}
