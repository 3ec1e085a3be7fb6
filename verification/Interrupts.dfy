/**
 Interrupt gates and their use: the table that init_idt writes, raise_intr and iret.
 kernel/src/irq/idt.c, nemu/src/cpu/intr.c, nemu/src/cpu/instr/ret.c.
 */
module Interrupts {
  import opened Arithmetic
  import opened FlatMemory

  const NR_IRQ: nat := 256
  const INTERRUPT_GATE_32: nat := 0xE
  const TRAP_GATE_32: nat := 0xF
  /** SEG_KERNEL_CODE << 3 */
  const KERNEL_CS: nat := 8
  const DPL_KERNEL: nat := 0
  const DPL_USER: nat := 3

  // ----- gate descriptors

  /** The fields of a gate; the two halves of the offset are kept apart as in memory. */
  datatype Gate = Gate(offsetLow: nat, selector: nat, pad0: nat, kind: nat, system: nat, dpl: nat, present: nat,
                       offsetHigh: nat) {
    predicate Fits() {
      && offsetLow < 0x1_0000 && selector < 0x1_0000 && pad0 < 0x100 && kind < 0x10
      && system < 2 && dpl < 4 && present < 2 && offsetHigh < 0x1_0000
    }
  }

  /** The two words of a gate in memory. */
  function LowWord(g: Gate): uint32
    requires g.Fits()
  {
    g.offsetLow + 0x1_0000 * g.selector
  }

  function HighWord(g: Gate): uint32
    requires g.Fits()
  {
    g.pad0 + 0x100 * g.kind + 0x1000 * g.system + 0x2000 * g.dpl + 0x8000 * g.present + 0x1_0000 * g.offsetHigh
  }

  function Unpack(low: uint32, high: uint32): (g: Gate)
    ensures g.Fits()
  {
    Gate(low % 0x1_0000, low / 0x1_0000, high % 0x100, high / 0x100 % 0x10, high / 0x1000 % 2, high / 0x2000 % 4,
         high / 0x8000 % 2, high / 0x1_0000)
  }

  /** Unpacking the words of a gate gives the gate. */
  lemma PackRoundTrip(g: Gate)
    requires g.Fits()
    ensures Unpack(LowWord(g), HighWord(g)) == g
  {
    DivModUnique(LowWord(g), 0x1_0000, g.selector, g.offsetLow);
    HighFields(g.pad0, g.kind, g.system, g.dpl, g.present, g.offsetHigh);
  }

  lemma HighFields(pad0: nat, kind: nat, system: nat, dpl: nat, present: nat, offset: nat)
    requires pad0 < 0x100 && kind < 0x10 && system < 2 && dpl < 4 && present < 2
    ensures var w := pad0 + 0x100 * kind + 0x1000 * system + 0x2000 * dpl + 0x8000 * present + 0x1_0000 * offset;
            && w % 0x100 == pad0 && w / 0x100 % 0x10 == kind && w / 0x1000 % 2 == system && w / 0x2000 % 4 == dpl
            && w / 0x8000 % 2 == present && w / 0x1_0000 == offset
  {
    var w := pad0 + 0x100 * kind + 0x1000 * system + 0x2000 * dpl + 0x8000 * present + 0x1_0000 * offset;
    var r4 := present + 2 * offset;
    var r3 := dpl + 4 * r4;
    var r2 := system + 2 * r3;
    var r1 := kind + 0x10 * r2;
    DivModUnique(w, 0x100, r1, pad0);
    DivModUnique(w, 0x1000, r2, pad0 + 0x100 * kind);
    DivModUnique(w, 0x2000, r3, pad0 + 0x100 * kind + 0x1000 * system);
    DivModUnique(w, 0x8000, r4, pad0 + 0x100 * kind + 0x1000 * system + 0x2000 * dpl);
    DivModUnique(w, 0x1_0000, offset, pad0 + 0x100 * kind + 0x1000 * system + 0x2000 * dpl + 0x8000 * present);
    DivModUnique(r1, 0x10, r2, kind);
    DivModUnique(r2, 2, r3, system);
    DivModUnique(r3, 4, r4, dpl);
    DivModUnique(r4, 2, offset, present);
  }

  /** What set_intr and set_trap fill in. */
  function GateTo(handler: uint32, kind: nat, dpl: nat): (g: Gate)
    requires kind < 0x10 && dpl < 4
    ensures g.Fits()
  {
    Gate(handler % 0x1_0000, KERNEL_CS, 0, kind, 0, dpl, 1, handler / 0x1_0000)
  }

  // ----- the table in memory

  /** Gate n of the table at base. */
  function GateAt(mem: seq<byte>, base: nat, n: nat): (g: Gate)
    requires n < NR_IRQ && base + 8 * NR_IRQ <= |mem|
    ensures g.Fits()
  {
    WordBound(mem[base + 8 * n..base + 8 * n + 4]);
    WordBound(mem[base + 8 * n + 4..base + 8 * n + 8]);
    Unpack(Loaded(mem, base + 8 * n, 4), Loaded(mem, base + 8 * n + 4, 4))
  }

  /** The words of a gate determine and are determined by its fields. */
  lemma UnpackPack(low: uint32, high: uint32)
    ensures LowWord(Unpack(low, high)) == low && HighWord(Unpack(low, high)) == high
  {
    var r1, r2, r3 := high / 0x100, high / 0x1000, high / 0x2000;
    var r4 := high / 0x8000;
    assert high == high % 0x100 + 0x100 * r1;
    assert r1 == r1 % 0x10 + 0x10 * r2;
    assert r2 == r2 % 2 + 2 * r3;
    assert r3 == r3 % 4 + 4 * r4;
    assert r4 == r4 % 2 + 2 * (high / 0x1_0000);
  }

  /** The two words at p are those of a present gate to the handler, in segment 8; access is bits 8 to 15 of the second. */
  predicate GateWords(mem: seq<byte>, p: nat, handler: uint32, access: nat)
    requires p + 8 <= |mem|
  {
    && Loaded(mem, p, 4) == 0x8_0000 + handler % 0x1_0000
    && Loaded(mem, p + 4, 4) == handler - handler % 0x1_0000 + access
  }

  /** access: 0x80 present, 0x20 per privilege level, and the type. */
  lemma GateInMemory(mem: seq<byte>, base: nat, n: nat, handler: uint32, kind: nat, dpl: nat)
    requires n < NR_IRQ && base + 8 * NR_IRQ <= |mem| && kind < 0x10 && dpl < 4
    requires GateAt(mem, base, n) == GateTo(handler, kind, dpl)
    ensures GateWords(mem, base + 8 * n, handler, 0x8000 + 0x2000 * dpl + 0x100 * kind)
  {
    WordBound(mem[base + 8 * n..base + 8 * n + 4]);
    WordBound(mem[base + 8 * n + 4..base + 8 * n + 8]);
    var low, high: nat := Loaded(mem, base + 8 * n, 4), Loaded(mem, base + 8 * n + 4, 4);
    UnpackPack(low, high);
    GateToWords(handler, kind, dpl);
    hide Unpack, LowWord, HighWord, GateTo, Loaded;
  }

  lemma GateToWords(handler: uint32, kind: nat, dpl: nat)
    requires kind < 0x10 && dpl < 4
    ensures LowWord(GateTo(handler, kind, dpl)) == 0x8_0000 + handler % 0x1_0000
    ensures HighWord(GateTo(handler, kind, dpl)) == handler - handler % 0x1_0000 + (0x8000 + 0x2000 * dpl + 0x100 * kind)
  {
  }

  function Table(mem: seq<byte>, base: nat): (t: seq<Gate>)
    requires base + 8 * NR_IRQ <= |mem|
    ensures |t| == NR_IRQ
  {
    seq(NR_IRQ, n requires 0 <= n < NR_IRQ => GateAt(mem, base, n))
  }

  lemma LoadedElsewhere(mem: seq<byte>, p: nat, data: nat, q: nat)
    requires p + 4 <= |mem| && q + 4 <= |mem| && (q + 4 <= p || p + 4 <= q)
    ensures Loaded(Stored(mem, p, 4, data), q, 4) == Loaded(mem, q, 4)
  {
    StoredMeaning(mem, p, 4, data);
    assert Stored(mem, p, 4, data)[q..q + 4] == mem[q..q + 4];
  }

  lemma LoadedBack(mem: seq<byte>, p: nat, data: uint32)
    requires p + 4 <= |mem|
    ensures Loaded(Stored(mem, p, 4, data), p, 4) == data
  {
    StoredMeaning(mem, p, 4, data);
    PowThirtyTwo();
  }

  /** Storing the two words of a gate changes this gate and no other. */
  lemma StoreGate(mem: seq<byte>, base: nat, n: nat, g: Gate)
    requires n < NR_IRQ && base + 8 * NR_IRQ <= |mem| && g.Fits()
    ensures var mem' := Stored(Stored(mem, base + 8 * n, 4, LowWord(g)), base + 8 * n + 4, 4, HighWord(g));
            Table(mem', base) == Table(mem, base)[n := g]
  {
    hide Loaded, Stored, Unpack, LowWord, HighWord;
    var p := base + 8 * n;
    var between := Stored(mem, p, 4, LowWord(g));
    var after := Stored(between, p + 4, 4, HighWord(g));
    forall k | 0 <= k < NR_IRQ
      ensures GateAt(after, base, k) == if k == n then g else GateAt(mem, base, k)
    {
      if k == n {
        LoadedBack(mem, p, LowWord(g));
        LoadedElsewhere(between, p + 4, HighWord(g), p);
        LoadedBack(between, p + 4, HighWord(g));
        PackRoundTrip(g);
      } else {
        var q := base + 8 * k;
        LoadedElsewhere(mem, p, LowWord(g), q);
        LoadedElsewhere(between, p + 4, HighWord(g), q);
        LoadedElsewhere(mem, p, LowWord(g), q + 4);
        LoadedElsewhere(between, p + 4, HighWord(g), q + 4);
      }
    }
  }

  // ----- what init_idt installs

  /** The addresses of the entry points; vec are those of the exceptions 0 to 14. */
  datatype Handlers = Handlers(vec: seq<uint32>, vecsys: uint32, irq0: uint32, irq1: uint32, irq14: uint32,
                               empty: uint32)

  /** The handler of a vector. */
  function HandlerOf(h: Handlers, n: nat): uint32
    requires |h.vec| == 15
  {
    if n < 15 then h.vec[n]
    else if n == 0x80 then h.vecsys
    else if n == 32 then h.irq0
    else if n == 33 then h.irq1
    else if n == 46 then h.irq14
    else h.empty
  }

  /** The vectors of the timer, the keyboard and the disk have interrupt gates, all others trap gates. */
  predicate IsDevice(n: nat) {
    n == 32 || n == 33 || n == 46
  }

  function InstalledGate(h: Handlers, n: nat): Gate
    requires |h.vec| == 15
  {
    GateTo(HandlerOf(h, n), if IsDevice(n) then INTERRUPT_GATE_32 else TRAP_GATE_32,
           if n == 0x80 then DPL_USER else DPL_KERNEL)
  }

  function Installed(h: Handlers): seq<Gate>
    requires |h.vec| == 15
  {
    seq(NR_IRQ, n requires 0 <= n < NR_IRQ => InstalledGate(h, n))
  }

  /** The installed table, word by word. */
  lemma InstalledWords(mem: seq<byte>, base: nat, h: Handlers)
    requires base + 8 * NR_IRQ <= |mem| && |h.vec| == 15 && Table(mem, base) == Installed(h)
    ensures forall n :: 0 <= n < 15 ==> GateWords(mem, base + 8 * n, h.vec[n], 0x8f00)
    ensures GateWords(mem, base + 8 * 32, h.irq0, 0x8e00) && GateWords(mem, base + 8 * 33, h.irq1, 0x8e00)
    ensures GateWords(mem, base + 8 * 46, h.irq14, 0x8e00) && GateWords(mem, base + 8 * 0x80, h.vecsys, 0xef00)
    ensures forall n :: 15 <= n < NR_IRQ && n != 32 && n != 33 && n != 46 && n != 0x80 ==>
              GateWords(mem, base + 8 * n, h.empty, 0x8f00)
  {
    hide GateWords, Table, Installed;
    forall n | 0 <= n < NR_IRQ
      ensures 0 <= n < 15 ==> GateWords(mem, base + 8 * n, h.vec[n], 0x8f00)
      ensures 15 <= n && n != 32 && n != 33 && n != 46 && n != 0x80 ==> GateWords(mem, base + 8 * n, h.empty, 0x8f00)
    {
      InstalledWordsAt(mem, base, h, n);
    }
    InstalledWordsAt(mem, base, h, 32);
    InstalledWordsAt(mem, base, h, 33);
    InstalledWordsAt(mem, base, h, 46);
    InstalledWordsAt(mem, base, h, 0x80);
  }

  lemma InstalledWordsAt(mem: seq<byte>, base: nat, h: Handlers, n: nat)
    requires base + 8 * NR_IRQ <= |mem| && |h.vec| == 15 && Table(mem, base) == Installed(h) && n < NR_IRQ
    ensures n < 15 ==> GateWords(mem, base + 8 * n, h.vec[n], 0x8f00)
    ensures n == 32 ==> GateWords(mem, base + 8 * 32, h.irq0, 0x8e00)
    ensures n == 33 ==> GateWords(mem, base + 8 * 33, h.irq1, 0x8e00)
    ensures n == 46 ==> GateWords(mem, base + 8 * 46, h.irq14, 0x8e00)
    ensures n == 0x80 ==> GateWords(mem, base + 8 * 0x80, h.vecsys, 0xef00)
    ensures 15 <= n && n != 32 && n != 33 && n != 46 && n != 0x80 ==> GateWords(mem, base + 8 * n, h.empty, 0x8f00)
  {
    hide GateWords, GateTo, GateAt;
    assert Table(mem, base)[n] == GateAt(mem, base, n);
    assert Installed(h)[n] == InstalledGate(h, n);
    GateInMemory(mem, base, n, HandlerOf(h, n), if IsDevice(n) then INTERRUPT_GATE_32 else TRAP_GATE_32,
                 if n == 0x80 then DPL_USER else DPL_KERNEL);
  }

  // ----- raising an interrupt and returning

  /** The machine as far as interrupts touch it; esp counts up to the size of memory. */
  datatype State = State(mem: seq<byte>, eip: uint32, esp: uint32, cs: nat, eflags: uint32, idtr: nat) {
    /** The stack has room for three words, and stack and table lie in memory. */
    predicate Ready() {
      cs < 0x1_0000 && 12 <= esp <= |mem| && idtr + 8 * NR_IRQ <= |mem|
    }

    /** The three words do not overlap the table. */
    predicate Apart() {
      esp <= idtr || idtr + 8 * NR_IRQ + 12 <= esp
    }
  }

  function SignExt16(x: nat): uint32
    requires x < 0x1_0000
  {
    if x >= 0x8000 then x + 0xffff_0000 else x
  }

  predicate InterruptFlag(eflags: uint32) {
    eflags / 0x200 % 2 == 1
  }

  function ClearIF(eflags: uint32): (e: uint32)
    ensures !InterruptFlag(e)
    ensures e == eflags || e == eflags - 0x200
  {
    if InterruptFlag(eflags) then eflags - 0x200 else eflags
  }

  function Pushed(mem: seq<byte>, esp: uint32, eflags: uint32, cs: nat, eip: uint32): (m: seq<byte>)
    requires 12 <= esp <= |mem| && cs < 0x1_0000
    ensures |m| == |mem|
  {
    Stored(Stored(Stored(mem, esp - 4, 4, eflags), esp - 8, 4, SignExt16(cs)), esp - 12, 4, eip)
  }

  function Raise(s: State, n: nat): State
    requires s.Ready() && n < NR_IRQ
  {
    var mem := Pushed(s.mem, s.esp, s.eflags, s.cs, s.eip);
    var g := GateAt(mem, s.idtr, n);
    State(mem, g.offsetLow + g.offsetHigh * 0x1_0000, s.esp - 12, g.selector,
          if g.kind == INTERRUPT_GATE_32 then ClearIF(s.eflags) else s.eflags, s.idtr)
  }

  /** iret pops the three words; CS keeps the low half of its word. */
  function Return(s: State): State
    requires s.esp + 12 <= |s.mem| && s.esp + 12 < WORD
  {
    WordBound(s.mem[s.esp..s.esp + 4]);
    WordBound(s.mem[s.esp + 8..s.esp + 12]);
    State(s.mem, Loaded(s.mem, s.esp, 4), s.esp + 12, Loaded(s.mem, s.esp + 4, 4) % 0x1_0000,
          Loaded(s.mem, s.esp + 8, 4), s.idtr)
  }

  /** The pushed words can be read back, and nothing outside the three words changed. */
  lemma PushedMeaning(mem: seq<byte>, esp: uint32, eflags: uint32, cs: nat, eip: uint32)
    requires 12 <= esp <= |mem| && cs < 0x1_0000
    ensures var m := Pushed(mem, esp, eflags, cs, eip);
            && Loaded(m, esp - 12, 4) == eip && Loaded(m, esp - 8, 4) == SignExt16(cs) && Loaded(m, esp - 4, 4) == eflags
            && forall k :: 0 <= k < |mem| && !(esp - 12 <= k < esp) ==> m[k] == mem[k]
  {
    var a := Stored(mem, esp - 4, 4, eflags);
    var b := Stored(a, esp - 8, 4, SignExt16(cs));
    StoredMeaning(mem, esp - 4, 4, eflags);
    StoredMeaning(a, esp - 8, 4, SignExt16(cs));
    StoredMeaning(b, esp - 12, 4, eip);
    hide Loaded, Stored;
    LoadedBack(mem, esp - 4, eflags);
    LoadedBack(a, esp - 8, SignExt16(cs));
    LoadedBack(b, esp - 12, eip);
    LoadedElsewhere(a, esp - 8, SignExt16(cs), esp - 4);
    LoadedElsewhere(b, esp - 12, eip, esp - 4);
    LoadedElsewhere(b, esp - 12, eip, esp - 8);
  }

  /**
   What an interrupt does, in terms of the words in memory: EFLAGS, CS and EIP lie on the stack in
   this order, the address and the segment come from the two words of the gate, and bit 9 of
   EFLAGS is cleared exactly for type 0xe.
   */
  lemma RaiseMeaning(s: State, n: nat)
    requires s.Ready() && n < NR_IRQ
    ensures var r := Raise(s, n);
            && |r.mem| == |s.mem| && r.esp == s.esp - 12 && r.idtr == s.idtr
            && Loaded(r.mem, s.esp - 4, 4) == s.eflags && Loaded(r.mem, s.esp - 12, 4) == s.eip
            && Loaded(r.mem, s.esp - 8, 4) == (if s.cs < 0x8000 then s.cs else 0xffff_0000 + s.cs)
            && (forall k :: 0 <= k < |s.mem| && !(s.esp - 12 <= k < s.esp) ==> r.mem[k] == s.mem[k])
            && var low, high := Loaded(r.mem, s.idtr + 8 * n, 4), Loaded(r.mem, s.idtr + 8 * n + 4, 4);
               && r.cs == low / 0x1_0000 && r.eip == high - high % 0x1_0000 + low % 0x1_0000
               && r.eflags == if high / 0x100 % 0x10 == 0xe && s.eflags / 0x200 % 2 == 1 then s.eflags - 0x200 else s.eflags
  {
    PushedMeaning(s.mem, s.esp, s.eflags, s.cs, s.eip);
    hide Pushed, Loaded;
  }

  /** Pushing on a stack apart from the table does not change the table. */
  lemma PushKeepsTable(s: State)
    requires s.Ready() && s.Apart()
    ensures Table(Pushed(s.mem, s.esp, s.eflags, s.cs, s.eip), s.idtr) == Table(s.mem, s.idtr)
  {
    var m := Pushed(s.mem, s.esp, s.eflags, s.cs, s.eip);
    PushedMeaning(s.mem, s.esp, s.eflags, s.cs, s.eip);
    hide Pushed, Unpack;
    forall n | 0 <= n < NR_IRQ
      ensures GateAt(m, s.idtr, n) == GateAt(s.mem, s.idtr, n)
    {
      var p := s.idtr + 8 * n;
      assert m[p..p + 4] == s.mem[p..p + 4];
      assert m[p + 4..p + 8] == s.mem[p + 4..p + 8];
    }
  }

  /**
   With the table of init_idt, vector n enters exactly its handler in the kernel's code segment,
   IF is cleared exactly for the three device vectors, and the table stays as it is.
   */
  lemma Dispatch(s: State, n: nat, h: Handlers)
    requires s.Ready() && s.Apart() && n < NR_IRQ && |h.vec| == 15
    requires Table(s.mem, s.idtr) == Installed(h)
    ensures var r := Raise(s, n);
            && r.eip == HandlerOf(h, n) && r.cs == KERNEL_CS
            && r.eflags == (if IsDevice(n) then ClearIF(s.eflags) else s.eflags)
            && r.idtr == s.idtr && Table(r.mem, r.idtr) == Installed(h)
  {
    PushKeepsTable(s);
    hide Pushed, GateAt, HandlerOf;
    var m := Pushed(s.mem, s.esp, s.eflags, s.cs, s.eip);
    assert Table(m, s.idtr)[n] == GateAt(m, s.idtr, n);
    assert Installed(h)[n] == InstalledGate(h, n);
  }

  /**
   A handler runs between the interrupt and its iret: whatever it does to the registers and to
   memory, if it leaves esp where it found it and the three pushed words as they are, iret takes
   up the interrupted program again, with its registers, its flags and its stack.
   */
  lemma ReturnRestores(s: State, n: nat, t: State)
    requires s.Ready() && n < NR_IRQ
    requires var r := Raise(s, n);
             t.esp == r.esp && |t.mem| == |r.mem| && t.mem[r.esp..r.esp + 12] == r.mem[r.esp..r.esp + 12]
    ensures t.esp + 12 <= |t.mem| && t.esp + 12 < WORD
    ensures Return(t) == s.(mem := t.mem, idtr := t.idtr)
  {
    var r := Raise(s, n);
    PushedMeaning(s.mem, s.esp, s.eflags, s.cs, s.eip);
    SignExtLow(s.cs);
    hide Pushed, GateAt, SignExt16;
    SameWord(r.mem, t.mem, r.esp, 0);
    SameWord(r.mem, t.mem, r.esp, 4);
    SameWord(r.mem, t.mem, r.esp, 8);
  }

  lemma SameWord(a: seq<byte>, b: seq<byte>, p: nat, i: nat)
    requires p + 12 <= |a| == |b| && a[p..p + 12] == b[p..p + 12] && i + 4 <= 12
    ensures Loaded(a, p + i, 4) == Loaded(b, p + i, 4)
  {
    var x, y := a[p..p + 12], b[p..p + 12];
    var u, v := a[p + i..p + i + 4], b[p + i..p + i + 4];
    forall j | 0 <= j < 4
      ensures u[j] == v[j]
    {
      assert x[i + j] == u[j] && y[i + j] == v[j];
    }
    assert u == v;
  }

  /** An iret at once changes nothing but the words below the stack. */
  lemma ReturnAtOnce(s: State, n: nat)
    requires s.Ready() && n < NR_IRQ
    ensures var r := Raise(s, n);
            && r.esp + 12 <= |r.mem| && r.esp + 12 < WORD
            && Return(r) == s.(mem := r.mem)
            && forall k :: 0 <= k < |s.mem| && !(s.esp - 12 <= k < s.esp) ==> r.mem[k] == s.mem[k]
  {
    ReturnRestores(s, n, Raise(s, n));
    PushedMeaning(s.mem, s.esp, s.eflags, s.cs, s.eip);
    hide Pushed, GateAt, Return;
  }

  lemma SignExtLow(x: nat)
    requires x < 0x1_0000
    ensures SignExt16(x) % 0x1_0000 == x
  {
  }
}
