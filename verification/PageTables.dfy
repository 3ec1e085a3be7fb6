/**
 The page tables of the kernel and of the user process, and the two-level walk of the machine.
 kernel/src/memory/kvm.c, mm.c, vmem.c and nemu/src/memory/mmu/page.c.

 Physical memory is an array of 32-bit words; page p of it is the words 1024p..1024p+1023.
 */
module PageTables {
  import opened Arithmetic

  const PAGE_SIZE: nat := 0x1000
  const NR_PDE: nat := 1024
  const NR_PTE: nat := 1024
  const PT_SIZE: nat := 0x40_0000
  const PHY_MEM: nat := 0x800_0000
  const KOFFSET: nat := 0xC000_0000
  const NR_PT: nat := (320 * 200 + PT_SIZE - 1) / PT_SIZE
  const WORDS: nat := PHY_MEM / 4

  datatype Option<+T> = None | Some(value: T)

  /** make_pde and make_pte: the page of an address with the bits present, writable, user. */
  function MakeEntry(addr: nat): uint32
    requires addr < WORD
  {
    addr - addr % PAGE_SIZE + 7
  }

  predicate Present(entry: uint32) {
    entry % 2 == 1
  }

  function PageFrame(entry: uint32): nat {
    entry / PAGE_SIZE
  }

  lemma EntryMeaning(frame: nat)
    requires frame < 0x10_0000
    ensures frame * PAGE_SIZE < WORD
    ensures Present(MakeEntry(frame * PAGE_SIZE)) && PageFrame(MakeEntry(frame * PAGE_SIZE)) == frame
    ensures MakeEntry(frame * PAGE_SIZE) == frame * 0x1000 + 7
  {
    PageOf(frame, 0);
    PageOf(frame, 7);
    OddWord(frame);
    hide *;
  }

  lemma BitsOf(x: nat)
    ensures (8 * x + 7) / 2 == 4 * x + 3 && (8 * x + 7) / 4 == 2 * x + 1 && (8 * x + 7) / 8 == x
    ensures (8 * x + 7) % 2 == 1 && (4 * x + 3) % 2 == 1 && (2 * x + 1) % 2 == 1
  {
    OddAbove(4 * x + 3);
    OddAbove(2 * x + 1);
    OddAbove(x);
  }

  lemma OddAbove(y: nat)
    ensures (2 * y + 1) % 2 == 1
  {
  }

  /** Bits 0, 1 and 2 of an entry: present, writable, accessible to the user; none of bits 3 to 11. */
  lemma EntryBits(entry: uint32, frame: nat)
    requires entry == frame * 0x1000 + 7
    ensures entry % 2 == 1 && entry / 2 % 2 == 1 && entry / 4 % 2 == 1 && entry / 8 % 0x200 == 0
  {
    var x := frame * 0x200;
    BitsOf(x);
    DivModUnique(x, 0x200, frame, 0);
    assert entry == 8 * x + 7;
  }

  lemma PageOf(frame: nat, offset: nat)
    requires offset < 0x1000
    ensures (frame * 0x1000 + offset) % 0x1000 == offset && (frame * 0x1000 + offset) / 0x1000 == frame
  {
  }

  lemma OddWord(frame: nat)
    ensures (frame * 0x1000 + 7) % 2 == 1
  {
    assert frame * 0x1000 + 7 == 2 * (frame * 0x800 + 3) + 1;
  }

  /** Word i counted from the start of a page. */
  function Word(mem: seq<uint32>, page: nat, i: nat): uint32
    requires page * NR_PTE + i < |mem|
  {
    mem[page * NR_PTE + i]
  }

  /** A word of memory; there is none outside. */
  function WordAt(mem: seq<uint32>, page: nat, i: nat): Option<uint32> {
    if page * NR_PTE + i < |mem| then Some(Word(mem, page, i)) else None
  }

  /**
   page_translate: the entry of the directory at page pdbr, then the entry of the page table it
   names.  None where an entry is not present, which stops the emulator.
   */
  function Translate(mem: seq<uint32>, pdbr: nat, laddr: uint32): Option<nat> {
    var dir, page, offset := laddr / PT_SIZE % NR_PDE, laddr / PAGE_SIZE % NR_PTE, laddr % PAGE_SIZE;
    var pde := WordAt(mem, pdbr, dir);
    if pde.None? || !Present(pde.value) then None
    else
      var pte := WordAt(mem, PageFrame(pde.value), page);
      if pte.None? || !Present(pte.value) then None
      else Some(PageFrame(pte.value) * PAGE_SIZE + offset)
  }

  // ----- what the tables have to look like

  /** The first n entries from page first on map frame k to frame k. */
  ghost predicate Identity(mem: seq<uint32>, first: nat, n: nat)
    requires n <= PHY_MEM / PAGE_SIZE
  {
    && first * NR_PTE + n <= |mem|
    && forall k :: 0 <= k < n ==> Word(mem, first, k) == MakeEntry(k * PAGE_SIZE)
  }

  /** Directory entries from slot on name the tables from page first on. */
  ghost predicate Names(mem: seq<uint32>, pdir: nat, slot: nat, first: nat, tables: nat)
    requires tables <= PHY_MEM / PT_SIZE && first + tables <= PHY_MEM / PAGE_SIZE
  {
    && (pdir + 1) * NR_PDE <= |mem| && slot + tables <= NR_PDE
    && forall d :: slot <= d < slot + tables ==> Word(mem, pdir, d) == MakeEntry((first + d - slot) * PAGE_SIZE)
  }

  /** Nothing else is present. */
  ghost predicate EmptyFrom(mem: seq<uint32>, pdir: nat, from: nat, to: nat) {
    (pdir + 1) * NR_PDE <= |mem| && to <= NR_PDE && forall d :: from <= d < to ==> Word(mem, pdir, d) == 0
  }

  /** A walk through such entries is the shift by the place of the directory slot. */
  lemma WalkNamed(mem: seq<uint32>, pdir: nat, slot: nat, first: nat, tables: nat, laddr: uint32)
    requires |mem| == WORDS && tables <= PHY_MEM / PT_SIZE && first + tables <= PHY_MEM / PAGE_SIZE
    requires Names(mem, pdir, slot, first, tables) && Identity(mem, first, tables * NR_PTE)
    requires slot * PT_SIZE <= laddr < (slot + tables) * PT_SIZE
    ensures Translate(mem, pdir, laddr) == Some(laddr - slot * PT_SIZE)
  {
    var dir, page, offset := laddr / PT_SIZE, laddr / PAGE_SIZE % NR_PTE, laddr % PAGE_SIZE;
    SplitAddress(laddr, slot, tables);
    var table := first + dir - slot;
    var k := (dir - slot) * NR_PTE + page;
    EntryMeaning(table);
    EntryMeaning(k);
    hide MakeEntry, Present, PageFrame;
    assert Word(mem, pdir, dir) == MakeEntry(table * PAGE_SIZE);
    assert Word(mem, first, k) == MakeEntry(k * PAGE_SIZE);
    assert table * NR_PTE + page == first * NR_PTE + k;
  }

  lemma SplitAddress(laddr: uint32, slot: nat, tables: nat)
    requires slot + tables <= NR_PDE && tables <= PHY_MEM / PT_SIZE
    requires slot * PT_SIZE <= laddr < (slot + tables) * PT_SIZE
    ensures var dir, page, offset := laddr / PT_SIZE, laddr / PAGE_SIZE % NR_PTE, laddr % PAGE_SIZE;
            && slot <= dir < slot + tables && laddr / PT_SIZE % NR_PDE == dir
            && laddr - slot * PT_SIZE == ((dir - slot) * NR_PTE + page) * PAGE_SIZE + offset
            && (dir - slot) * NR_PTE + page < tables * NR_PTE
  {
  }

  lemma WalkEmpty(mem: seq<uint32>, pdir: nat, from: nat, to: nat, laddr: uint32)
    requires EmptyFrom(mem, pdir, from, to)
    requires from * PT_SIZE <= laddr < to * PT_SIZE
    ensures Translate(mem, pdir, laddr) == None
  {
    var dir := laddr / PT_SIZE;
    assert from <= dir < to && laddr / PT_SIZE % NR_PDE == dir;
    assert Word(mem, pdir, dir) == 0;
  }

  // ----- kernel and user mappings

  const TABLES: nat := PHY_MEM / PT_SIZE
  const UPPER: nat := KOFFSET / PT_SIZE

  /** The directory at page pdir names the tables at ptable, twice, and nothing else. */
  ghost predicate KernelMapped(mem: seq<uint32>, pdir: nat, ptable: nat)
    requires ptable + TABLES <= PHY_MEM / PAGE_SIZE
  {
    && Identity(mem, ptable, TABLES * NR_PTE)
    && Names(mem, pdir, 0, ptable, TABLES) && EmptyFrom(mem, pdir, TABLES, UPPER)
    && Names(mem, pdir, UPPER, ptable, TABLES) && EmptyFrom(mem, pdir, UPPER + TABLES, NR_PDE)
  }

  /** Every word of the kernel's directory and tables, in numbers. */
  ghost predicate KernelWords(mem: seq<uint32>, pdir: nat, ptable: nat) {
    && (pdir + 1) * 1024 <= |mem| && (ptable + 32) * 1024 <= |mem|
    && (forall k :: 0 <= k < 32 * 1024 ==> Word(mem, ptable, k) == k * 0x1000 + 7)
    && (forall d :: 0 <= d < 1024 ==>
          Word(mem, pdir, d) == if d < 32 then (ptable + d) * 0x1000 + 7
                                else if 768 <= d < 800 then (ptable + d - 768) * 0x1000 + 7
                                else 0)
  }

  /** The mapping leaves no word of them open: all entries are present, writable and accessible to the user. */
  lemma KernelMappedWords(mem: seq<uint32>, pdir: nat, ptable: nat)
    requires ptable + TABLES <= PHY_MEM / PAGE_SIZE && KernelMapped(mem, pdir, ptable)
    ensures KernelWords(mem, pdir, ptable)
  {
    hide MakeEntry;
    forall k | 0 <= k < 32 * 1024
      ensures Word(mem, ptable, k) == k * 0x1000 + 7
    {
      EntryMeaning(k);
    }
    forall d | 0 <= d < 1024
      ensures Word(mem, pdir, d) == if d < 32 then (ptable + d) * 0x1000 + 7
                                    else if 768 <= d < 800 then (ptable + d - 768) * 0x1000 + 7
                                    else 0
    {
      if d < 32 {
        EntryMeaning(ptable + d);
      } else if 768 <= d < 800 {
        EntryMeaning(ptable + d - 768);
      }
    }
  }

  /** The kernel walk: memory to itself, the window at KOFFSET to memory, and nothing else. */
  lemma KernelWalk(mem: seq<uint32>, pdir: nat, ptable: nat, laddr: uint32)
    requires |mem| == WORDS && ptable + TABLES <= PHY_MEM / PAGE_SIZE && KernelMapped(mem, pdir, ptable)
    ensures Translate(mem, pdir, laddr) ==
            if laddr < PHY_MEM then Some(laddr as nat)
            else if KOFFSET <= laddr < KOFFSET + PHY_MEM then Some(laddr - KOFFSET)
            else None
  {
    hide Identity, Names, EmptyFrom, Translate;
    if laddr < PHY_MEM {
      WalkNamed(mem, pdir, 0, ptable, TABLES, laddr);
    } else if laddr < KOFFSET {
      WalkEmpty(mem, pdir, TABLES, UPPER, laddr);
    } else if laddr < KOFFSET + PHY_MEM {
      WalkNamed(mem, pdir, UPPER, ptable, TABLES, laddr);
    } else {
      WalkEmpty(mem, pdir, UPPER + TABLES, NR_PDE, laddr);
    }
  }

  /** The user directory has its own first entry and shares the entries of the upper window. */
  ghost predicate UserMapped(mem: seq<uint32>, updir: nat, uptable: nat, kpdir: nat)
    requires uptable + NR_PT <= PHY_MEM / PAGE_SIZE
  {
    && Identity(mem, uptable, NR_PT * NR_PTE) && Names(mem, updir, 0, uptable, NR_PT)
    && EmptyFrom(mem, updir, NR_PT, UPPER) && EmptyFrom(mem, updir, UPPER + TABLES, NR_PDE)
    && Shares(mem, updir, kpdir)
  }

  /** Every word of the user's directory and of its own table, in numbers. */
  ghost predicate UserWords(mem: seq<uint32>, updir: nat, uptable: nat, kptable: nat) {
    && (updir + 1) * 1024 <= |mem| && (uptable + 1) * 1024 <= |mem|
    && (forall k :: 0 <= k < 1024 ==> Word(mem, uptable, k) == k * 0x1000 + 7)
    && (forall d :: 0 <= d < 1024 ==>
          Word(mem, updir, d) == if d == 0 then uptable * 0x1000 + 7
                                 else if 768 <= d < 800 then (kptable + d - 768) * 0x1000 + 7
                                 else 0)
  }

  lemma UserMappedWords(mem: seq<uint32>, updir: nat, uptable: nat, kpdir: nat, kptable: nat)
    requires uptable + NR_PT <= PHY_MEM / PAGE_SIZE && kptable + TABLES <= PHY_MEM / PAGE_SIZE
    requires UserMapped(mem, updir, uptable, kpdir) && KernelMapped(mem, kpdir, kptable)
    ensures UserWords(mem, updir, uptable, kptable)
  {
    KernelMappedWords(mem, kpdir, kptable);
    EntryMeaning(uptable);
    hide MakeEntry, KernelMapped;
    forall k | 0 <= k < 1024
      ensures Word(mem, uptable, k) == k * 0x1000 + 7
    {
      EntryMeaning(k);
    }
    forall d | 0 <= d < 1024
      ensures Word(mem, updir, d) == if d == 0 then uptable * 0x1000 + 7
                                     else if 768 <= d < 800 then (kptable + d - 768) * 0x1000 + 7
                                     else 0
    {
      assert 768 <= d < 800 ==> Word(mem, updir, d) == Word(mem, kpdir, d);
    }
  }

  ghost predicate Shares(mem: seq<uint32>, updir: nat, kpdir: nat) {
    && (updir + 1) * NR_PDE <= |mem| && (kpdir + 1) * NR_PDE <= |mem|
    && forall d :: UPPER <= d < UPPER + TABLES ==> Word(mem, updir, d) == Word(mem, kpdir, d)
  }

  /** Whatever the kernel maps in its window, the user walk maps the same, also after later changes of its tables. */
  lemma SharedWindow(mem: seq<uint32>, updir: nat, kpdir: nat, laddr: uint32)
    requires Shares(mem, updir, kpdir) && KOFFSET <= laddr < KOFFSET + PHY_MEM
    ensures Translate(mem, updir, laddr) == Translate(mem, kpdir, laddr)
  {
    var dir := laddr / PT_SIZE;
    assert UPPER <= dir < UPPER + TABLES && laddr / PT_SIZE % NR_PDE == dir;
    assert Word(mem, updir, dir) == Word(mem, kpdir, dir);
  }

  /** The user walk: the first 4 MB to itself, the kernel's window as the kernel has it, and nothing else. */
  lemma UserWalk(mem: seq<uint32>, updir: nat, uptable: nat, kpdir: nat, laddr: uint32)
    requires |mem| == WORDS && uptable + NR_PT <= PHY_MEM / PAGE_SIZE && UserMapped(mem, updir, uptable, kpdir)
    ensures Translate(mem, updir, laddr) ==
            if laddr < NR_PT * PT_SIZE then Some(laddr as nat)
            else if KOFFSET <= laddr < KOFFSET + PHY_MEM then Translate(mem, kpdir, laddr)
            else None
  {
    hide Identity, Names, EmptyFrom, Translate, Shares;
    if laddr < NR_PT * PT_SIZE {
      WalkNamed(mem, updir, 0, uptable, NR_PT, laddr);
    } else if laddr < KOFFSET {
      WalkEmpty(mem, updir, NR_PT, UPPER, laddr);
    } else if laddr < KOFFSET + PHY_MEM {
      SharedWindow(mem, updir, kpdir, laddr);
    } else {
      WalkEmpty(mem, updir, UPPER + TABLES, NR_PDE, laddr);
    }
  }
}
