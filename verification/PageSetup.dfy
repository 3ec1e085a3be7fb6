/**
 How the kernel fills the page tables: init_page, init_mm and create_video_mapping.
 kernel/src/memory/kvm.c, mm.c and vmem.c.
 */
module PageSetup {
  import opened Arithmetic
  import opened PageTables

  // ----- what one write does to the tables

  lemma IdentityStep(mem: seq<uint32>, first: nat, n: nat, v: uint32)
    requires n < PHY_MEM / PAGE_SIZE && Identity(mem, first, n) && first * NR_PTE + n < |mem|
    requires v == MakeEntry(n * PAGE_SIZE)
    ensures Identity(mem[first * NR_PTE + n := v], first, n + 1)
  {
    var after := mem[first * NR_PTE + n := v];
    hide MakeEntry;
    forall k | 0 <= k < n + 1
      ensures Word(after, first, k) == MakeEntry(k * PAGE_SIZE)
    {
      assert k < n ==> Word(mem, first, k) == MakeEntry(k * PAGE_SIZE);
    }
  }

  lemma IdentityFrame(mem: seq<uint32>, first: nat, n: nat, w: nat, v: uint32)
    requires n <= PHY_MEM / PAGE_SIZE && Identity(mem, first, n) && w < |mem|
    requires w < first * NR_PTE || w >= first * NR_PTE + n
    ensures Identity(mem[w := v], first, n)
  {
    var after := mem[w := v];
    hide MakeEntry;
    forall k | 0 <= k < n
      ensures Word(after, first, k) == MakeEntry(k * PAGE_SIZE)
    {
      assert Word(mem, first, k) == MakeEntry(k * PAGE_SIZE);
    }
  }

  lemma NamesStep(mem: seq<uint32>, pdir: nat, slot: nat, first: nat, n: nat, v: uint32)
    requires n < TABLES && first + n < PHY_MEM / PAGE_SIZE && slot + n < NR_PDE
    requires Names(mem, pdir, slot, first, n) && v == MakeEntry((first + n) * PAGE_SIZE)
    ensures Names(mem[pdir * NR_PDE + slot + n := v], pdir, slot, first, n + 1)
  {
    var after := mem[pdir * NR_PDE + slot + n := v];
    hide MakeEntry;
    forall d | slot <= d < slot + n + 1
      ensures Word(after, pdir, d) == MakeEntry((first + d - slot) * PAGE_SIZE)
    {
      assert d < slot + n ==> Word(mem, pdir, d) == MakeEntry((first + d - slot) * PAGE_SIZE);
    }
  }

  lemma NamesFrame(mem: seq<uint32>, pdir: nat, slot: nat, first: nat, n: nat, w: nat, v: uint32)
    requires n <= TABLES && first + n <= PHY_MEM / PAGE_SIZE && Names(mem, pdir, slot, first, n)
    requires w < |mem| && (w < pdir * NR_PDE + slot || w >= pdir * NR_PDE + slot + n)
    ensures Names(mem[w := v], pdir, slot, first, n)
  {
    var after := mem[w := v];
    hide MakeEntry;
    forall d | slot <= d < slot + n
      ensures Word(after, pdir, d) == MakeEntry((first + d - slot) * PAGE_SIZE)
    {
      assert Word(mem, pdir, d) == MakeEntry((first + d - slot) * PAGE_SIZE);
    }
  }

  /** An entry outside the range, or its first entry, may be filled. */
  lemma EmptyStep(mem: seq<uint32>, pdir: nat, from: nat, to: nat, from': nat, w: nat, v: uint32)
    requires EmptyFrom(mem, pdir, from, to) && from <= from' && w < |mem|
    requires w < pdir * NR_PDE + from' || w >= pdir * NR_PDE + to
    ensures EmptyFrom(mem[w := v], pdir, from', to)
  {
    var after := mem[w := v];
    forall d | from' <= d < to
      ensures Word(after, pdir, d) == 0
    {
      assert Word(mem, pdir, d) == 0;
    }
  }

  lemma EmptyParts(mem: seq<uint32>, pdir: nat, mid: nat)
    requires EmptyFrom(mem, pdir, 0, NR_PDE) && mid <= NR_PDE
    ensures EmptyFrom(mem, pdir, 0, mid) && EmptyFrom(mem, pdir, mid, NR_PDE)
  {
  }

  /** Only the page p and the n pages from q on differ. */
  ghost predicate SameBut(a: seq<uint32>, b: seq<uint32>, p: nat, q: nat, n: nat) {
    && |a| == |b|
    && forall i :: 0 <= i < |a| && !Within(i, p, 1) && !Within(i, q, n) ==> a[i] == b[i]
  }

  predicate Within(i: nat, page: nat, n: nat) {
    page * NR_PTE <= i < (page + n) * NR_PTE
  }

  lemma SameButStep(a: seq<uint32>, b: seq<uint32>, p: nat, q: nat, n: nat, w: nat, v: uint32)
    requires SameBut(a, b, p, q, n) && w < |b| && (Within(w, p, 1) || Within(w, q, n))
    ensures SameBut(a, b[w := v], p, q, n)
  {
    hide Within;
  }

  lemma SameButWiden(a: seq<uint32>, b: seq<uint32>, p: nat, q: nat, n: nat)
    requires SameBut(a, b, p, p, 1)
    ensures SameBut(a, b, p, q, n)
  {
    hide Within;
  }

  lemma SameButRefl(a: seq<uint32>, p: nat, q: nat, n: nat)
    ensures SameBut(a, a, p, q, n)
  {
  }

  lemma SharesFrame(mem: seq<uint32>, updir: nat, kpdir: nat, w: nat, v: uint32)
    requires Shares(mem, updir, kpdir) && w < |mem| && !Within(w, kpdir, 1)
    requires w < updir * NR_PDE + UPPER || w >= updir * NR_PDE + UPPER + TABLES
    ensures Shares(mem[w := v], updir, kpdir)
  {
    var after := mem[w := v];
    forall d | UPPER <= d < UPPER + TABLES
      ensures Word(after, updir, d) == Word(after, kpdir, d)
    {
      assert Word(mem, updir, d) == Word(mem, kpdir, d);
    }
  }

  /** The kernel's tables are not touched by writes elsewhere. */
  lemma KernelMappedFrame(a: seq<uint32>, b: seq<uint32>, kpdir: nat, kptable: nat, p: nat, q: nat, n: nat)
    requires kptable + TABLES <= PHY_MEM / PAGE_SIZE && |a| == WORDS
    requires KernelMapped(a, kpdir, kptable) && SameBut(a, b, p, q, n)
    requires p != kpdir && !(kptable <= p < kptable + TABLES)
    requires !(q <= kpdir < q + n) && (q + n <= kptable || kptable + TABLES <= q)
    ensures KernelMapped(b, kpdir, kptable)
  {
    hide MakeEntry;
    assert forall i: nat :: Within(i, kpdir, 1) || Within(i, kptable, TABLES) ==> !Within(i, p, 1) && !Within(i, q, n);
    assert forall d :: 0 <= d < NR_PDE ==>
        Within(kpdir * NR_PDE + d, kpdir, 1) && Word(a, kpdir, d) == Word(b, kpdir, d);
    assert forall k :: 0 <= k < TABLES * NR_PTE ==>
        Within(kptable * NR_PTE + k, kptable, TABLES) && Word(a, kptable, k) == Word(b, kptable, k);
  }

  lemma AlignedPage(page: nat)
    ensures page * PAGE_SIZE % 0x400 == 0 && page * PAGE_SIZE / PAGE_SIZE == page
  {
    assert page * PAGE_SIZE == page * 4 * 0x400;
  }

  // ----- the kernel

  class Kernel {
    const mem: array<uint32>
    /** The physical pages of the statically allocated tables. */
    const kpdir: nat
    const kptable: nat
    const updir: nat
    const uptable: nat
    /** The page of the current directory, and whether the machine walks it. */
    var cr3: nat
    var paging: bool
    var ucr3: nat

    /** Page-aligned, inside memory, and apart from each other. */
    ghost predicate Layout() {
      && mem.Length == WORDS
      && kpdir < PHY_MEM / PAGE_SIZE && updir < PHY_MEM / PAGE_SIZE && kpdir != updir
      && kptable + TABLES <= PHY_MEM / PAGE_SIZE && uptable + NR_PT <= PHY_MEM / PAGE_SIZE
      && !(kptable <= kpdir < kptable + TABLES) && !(kptable <= updir < kptable + TABLES)
      && kpdir != uptable && updir != uptable && !(kptable <= uptable < kptable + TABLES)
    }

    /** The linker's placement of the four tables, in memory that holds anything. */
    constructor (kpdir: nat, kptable: nat, updir: nat, uptable: nat, contents: nat -> uint32)
      requires kpdir < PHY_MEM / PAGE_SIZE && updir < PHY_MEM / PAGE_SIZE && kpdir != updir
      requires kptable + TABLES <= PHY_MEM / PAGE_SIZE && uptable + NR_PT <= PHY_MEM / PAGE_SIZE
      requires !(kptable <= kpdir < kptable + TABLES) && !(kptable <= updir < kptable + TABLES)
      requires kpdir != uptable && updir != uptable && !(kptable <= uptable < kptable + TABLES)
      ensures Layout() && fresh(mem) && !paging
      ensures this.kpdir == kpdir && this.kptable == kptable && this.updir == updir && this.uptable == uptable
      ensures forall i: nat :: i < WORDS ==> mem[i] == contents(i)
    {
      mem := new uint32[WORDS](i requires i >= 0 => contents(i));
      this.kpdir, this.kptable, this.updir, this.uptable := kpdir, kptable, updir, uptable;
      cr3, paging, ucr3 := 0, false, 0;
    }

    method Memset(page: nat)
      requires Layout() && page < PHY_MEM / PAGE_SIZE
      modifies mem
      ensures EmptyFrom(mem[..], page, 0, NR_PDE) && SameBut(old(mem[..]), mem[..], page, page, 1)
    {
      ghost var m := mem[..];
      SameButRefl(m, page, page, 1);
      hide SameBut;
      var i := 0;
      while i < NR_PDE
        invariant i <= NR_PDE
        invariant forall d :: 0 <= d < i ==> Word(mem[..], page, d) == 0
        invariant SameBut(m, mem[..], page, page, 1)
      {
        SameButStep(m, mem[..], page, page, 1, page * NR_PDE + i, 0);
        ghost var before := mem[..];
        mem[page * NR_PDE + i] := 0;
        assert mem[..] == before[page * NR_PDE + i := 0];
        assert forall d :: 0 <= d < i ==> Word(mem[..], page, d) == Word(before, page, d);
        i := i + 1;
      }
    }

    method InitPage()
      requires Layout()
      modifies this`cr3, this`paging, mem
      ensures KernelMapped(mem[..], kpdir, kptable) && SameBut(old(mem[..]), mem[..], kpdir, kptable, TABLES)
      ensures KernelWords(mem[..], kpdir, kptable)
      ensures cr3 == kpdir && paging
      ensures forall laddr: uint32 :: Translate(mem[..], cr3, laddr) ==
                if laddr < PHY_MEM then Some(laddr as nat)
                else if KOFFSET <= laddr < KOFFSET + PHY_MEM then Some(laddr - KOFFSET)
                else None
    {
      hide Identity, Names, EmptyFrom, SameBut, MakeEntry, Translate, KernelWords;
      ghost var m := mem[..];
      Memset(kpdir);
      SameButWiden(m, mem[..], kpdir, kptable, TABLES);
      FillNothing(mem[..]);
      var ptable, pframeIdx := kptable * NR_PTE, 0;
      var pdirIdx := 0;
      while pdirIdx < PHY_MEM / PT_SIZE
        invariant pdirIdx <= TABLES && pframeIdx == pdirIdx * NR_PTE && ptable == kptable * NR_PTE + pframeIdx
        invariant Filling(mem[..], pdirIdx, pframeIdx) && SameBut(m, mem[..], kpdir, kptable, TABLES)
      {
        FillDirectory(m, mem[..], pdirIdx);
        ghost var before, entry := mem[..], MakeEntry((kptable + pdirIdx) * PAGE_SIZE);
        mem[kpdir * NR_PDE + pdirIdx] := MakeEntry(4 * ptable);
        mem[kpdir * NR_PDE + pdirIdx + KOFFSET / PT_SIZE] := MakeEntry(4 * ptable);
        assert mem[..] == before[kpdir * NR_PDE + pdirIdx := entry][kpdir * NR_PDE + UPPER + pdirIdx := entry];
        var ptableIdx := 0;
        while ptableIdx < NR_PTE
          invariant ptableIdx <= NR_PTE && pframeIdx == pdirIdx * NR_PTE + ptableIdx
          invariant ptable == kptable * NR_PTE + pframeIdx
          invariant Filling(mem[..], pdirIdx + 1, pframeIdx) && SameBut(m, mem[..], kpdir, kptable, TABLES)
        {
          FillEntry(m, mem[..], pdirIdx + 1, pframeIdx);
          before := mem[..];
          mem[ptable] := MakeEntry(pframeIdx * PAGE_SIZE);
          assert mem[..] == before[kptable * NR_PTE + pframeIdx := MakeEntry(pframeIdx * PAGE_SIZE)];
          pframeIdx := pframeIdx + 1;
          ptable := ptable + 1;
          ptableIdx := ptableIdx + 1;
        }
        pdirIdx := pdirIdx + 1;
      }
      KernelMappedWords(mem[..], kpdir, kptable);
      cr3 := kpdir;
      paging := true;
      forall laddr: uint32
        ensures Translate(mem[..], cr3, laddr) ==
                if laddr < PHY_MEM then Some(laddr as nat)
                else if KOFFSET <= laddr < KOFFSET + PHY_MEM then Some(laddr - KOFFSET)
                else None
      {
        KernelWalk(mem[..], kpdir, kptable, laddr);
      }
    }

    /** The directory after d rounds, the tables after n entries. */
    ghost predicate Filling(m: seq<uint32>, d: nat, n: nat)
      requires Layout() && d <= TABLES && n <= TABLES * NR_PTE
    {
      && Identity(m, kptable, n)
      && Names(m, kpdir, 0, kptable, d) && EmptyFrom(m, kpdir, d, UPPER)
      && Names(m, kpdir, UPPER, kptable, d) && EmptyFrom(m, kpdir, UPPER + d, NR_PDE)
    }

    lemma FillNothing(mem: seq<uint32>)
      requires Layout() && |mem| == WORDS && EmptyFrom(mem, kpdir, 0, NR_PDE)
      ensures Filling(mem, 0, 0)
    {
      assert forall d :: 0 <= d < NR_PDE ==> Word(mem, kpdir, d) == 0;
    }

    /** One round of the outer loop: the table d is named twice. */
    lemma FillDirectory(m: seq<uint32>, mem: seq<uint32>, d: nat)
      requires Layout() && |mem| == WORDS && d < TABLES
      requires Filling(mem, d, d * NR_PTE) && SameBut(m, mem, kpdir, kptable, TABLES)
      ensures (kptable + d) * PAGE_SIZE < WORD
      ensures var entry := MakeEntry((kptable + d) * PAGE_SIZE);
              var after := mem[kpdir * NR_PDE + d := entry][kpdir * NR_PDE + UPPER + d := entry];
              Filling(after, d + 1, d * NR_PTE) && SameBut(m, after, kpdir, kptable, TABLES)
    {
      hide Identity, Names, EmptyFrom, SameBut, MakeEntry;
      var entry := MakeEntry((kptable + d) * PAGE_SIZE);
      var w, w', n := kpdir * NR_PDE + d, kpdir * NR_PDE + UPPER + d, d * NR_PTE;
      var between := mem[w := entry];
      IdentityFrame(mem, kptable, n, w, entry);
      NamesStep(mem, kpdir, 0, kptable, d, entry);
      EmptyStep(mem, kpdir, d, UPPER, d + 1, w, entry);
      NamesFrame(mem, kpdir, UPPER, kptable, d, w, entry);
      EmptyStep(mem, kpdir, UPPER + d, NR_PDE, UPPER + d, w, entry);
      SameButStep(m, mem, kpdir, kptable, TABLES, w, entry);
      IdentityFrame(between, kptable, n, w', entry);
      NamesFrame(between, kpdir, 0, kptable, d + 1, w', entry);
      EmptyStep(between, kpdir, d + 1, UPPER, d + 1, w', entry);
      NamesStep(between, kpdir, UPPER, kptable, d, entry);
      EmptyStep(between, kpdir, UPPER + d, NR_PDE, UPPER + d + 1, w', entry);
      SameButStep(m, between, kpdir, kptable, TABLES, w', entry);
    }

    /** One round of the inner loop: frame n is mapped to itself. */
    lemma FillEntry(m: seq<uint32>, mem: seq<uint32>, d: nat, n: nat)
      requires Layout() && |mem| == WORDS && d <= TABLES && n < TABLES * NR_PTE
      requires Filling(mem, d, n) && SameBut(m, mem, kpdir, kptable, TABLES)
      ensures var after := mem[kptable * NR_PTE + n := MakeEntry(n * PAGE_SIZE)];
              Filling(after, d, n + 1) && SameBut(m, after, kpdir, kptable, TABLES)
    {
      hide Identity, Names, EmptyFrom, SameBut, MakeEntry;
      var w, entry := kptable * NR_PTE + n, MakeEntry(n * PAGE_SIZE);
      IdentityStep(mem, kptable, n, entry);
      NamesFrame(mem, kpdir, 0, kptable, d, w, entry);
      EmptyStep(mem, kpdir, d, UPPER, d, w, entry);
      NamesFrame(mem, kpdir, UPPER, kptable, d, w, entry);
      EmptyStep(mem, kpdir, UPPER + d, NR_PDE, UPPER + d, w, entry);
      SameButStep(m, mem, kpdir, kptable, TABLES, w, entry);
    }

    /** The user directory before the video mapping: the kernel's window and nothing else. */
    ghost predicate WindowOnly(m: seq<uint32>)
      requires Layout()
    {
      EmptyFrom(m, updir, 0, UPPER) && EmptyFrom(m, updir, UPPER + TABLES, NR_PDE) && Shares(m, updir, kpdir)
    }

    method InitMM()
      requires Layout() && KernelMapped(mem[..], kpdir, kptable)
      modifies this`ucr3, mem
      ensures WindowOnly(mem[..]) && KernelMapped(mem[..], kpdir, kptable)
      ensures SameBut(old(mem[..]), mem[..], updir, updir, 1) && ucr3 / PAGE_SIZE == updir
    {
      CopiedNothing();
      AlignedPage(updir);
      hide KernelMapped, EmptyFrom, SameBut, Shares, Copied;
      ghost var m := mem[..];
      Memset(updir);
      EmptyParts(mem[..], updir, UPPER);
      var d := UPPER;
      while d < UPPER + PHY_MEM / PT_SIZE
        invariant UPPER <= d <= UPPER + TABLES && SameBut(m, mem[..], updir, updir, 1)
        invariant EmptyFrom(mem[..], updir, 0, UPPER) && EmptyFrom(mem[..], updir, d, NR_PDE)
        invariant Copied(mem[..], d)
      {
        ghost var before := mem[..];
        CopyStep(m, before, d, before[kpdir * NR_PDE + d]);
        mem[updir * NR_PDE + d] := mem[kpdir * NR_PDE + d];
        assert mem[..] == before[updir * NR_PDE + d := before[kpdir * NR_PDE + d]];
        CopiedStep(before, d);
        d := d + 1;
      }
      CopiedAll(mem[..]);
      KernelMappedFrame(m, mem[..], kpdir, kptable, updir, updir, 1);
      ucr3 := updir * PAGE_SIZE - updir * PAGE_SIZE % 0x400;
    }

    ghost predicate Copied(m: seq<uint32>, d: nat)
      requires Layout() && |m| == WORDS && d <= NR_PDE
    {
      forall i :: UPPER <= i < d ==> Word(m, updir, i) == Word(m, kpdir, i)
    }

    lemma CopyStep(m: seq<uint32>, mem: seq<uint32>, d: nat, v: uint32)
      requires Layout() && |mem| == WORDS && UPPER <= d < UPPER + TABLES
      requires SameBut(m, mem, updir, updir, 1) && EmptyFrom(mem, updir, 0, UPPER) && EmptyFrom(mem, updir, d, NR_PDE)
      ensures var after := mem[updir * NR_PDE + d := v];
              && SameBut(m, after, updir, updir, 1) && EmptyFrom(after, updir, 0, UPPER)
              && EmptyFrom(after, updir, d + 1, NR_PDE)
    {
      hide EmptyFrom, SameBut;
      var w := updir * NR_PDE + d;
      SameButStep(m, mem, updir, updir, 1, w, v);
      EmptyStep(mem, updir, 0, UPPER, 0, w, v);
      EmptyStep(mem, updir, d, NR_PDE, d + 1, w, v);
    }

    lemma CopiedNothing()
      requires Layout()
      ensures forall m: seq<uint32> | |m| == WORDS :: Copied(m, UPPER)
    {
    }

    lemma CopiedStep(mem: seq<uint32>, d: nat)
      requires Layout() && |mem| == WORDS && UPPER <= d < UPPER + TABLES
      requires Copied(mem, d)
      ensures Copied(mem[updir * NR_PDE + d := mem[kpdir * NR_PDE + d]], d + 1)
    {
      var after := mem[updir * NR_PDE + d := mem[kpdir * NR_PDE + d]];
      forall i | UPPER <= i < d + 1
        ensures Word(after, updir, i) == Word(after, kpdir, i)
      {
        assert i < d ==> Word(mem, updir, i) == Word(mem, kpdir, i);
      }
    }

    lemma CopiedAll(mem: seq<uint32>)
      requires Layout() && |mem| == WORDS
      requires Copied(mem, UPPER + TABLES)
      ensures Shares(mem, updir, kpdir)
    {
    }

    method CreateVideoMapping()
      requires Layout() && KernelMapped(mem[..], kpdir, kptable) && WindowOnly(mem[..])
      modifies mem
      ensures KernelMapped(mem[..], kpdir, kptable) && UserMapped(mem[..], updir, uptable, kpdir)
      ensures UserWords(mem[..], updir, uptable, kptable)
      ensures SameBut(old(mem[..]), mem[..], updir, uptable, NR_PT)
      ensures forall laddr: uint32 :: Translate(mem[..], updir, laddr) ==
                if laddr < NR_PT * PT_SIZE then Some(laddr as nat)
                else if KOFFSET <= laddr < KOFFSET + PHY_MEM then Some(laddr - KOFFSET)
                else None
    {
      hide KernelMapped, Identity, Names, EmptyFrom, SameBut, MakeEntry, Translate, Shares, UserMapped, UserWords;
      ghost var m := mem[..];
      UserNothing(m);
      SameButRefl(m, updir, uptable, NR_PT);
      var table, pframeIdx := uptable * NR_PTE, 0;
      var pdirIdx := 0;
      while pdirIdx < NR_PT
        invariant pdirIdx <= NR_PT && pframeIdx == pdirIdx * NR_PTE && table == uptable * NR_PTE + pframeIdx
        invariant UserFilling(mem[..], pdirIdx, pframeIdx) && SameBut(m, mem[..], updir, uptable, NR_PT)
      {
        UserDirectory(m, mem[..], pdirIdx);
        ghost var before := mem[..];
        mem[updir * NR_PDE + pdirIdx] := MakeEntry(4 * table);
        assert mem[..] == before[updir * NR_PDE + pdirIdx := MakeEntry((uptable + pdirIdx) * PAGE_SIZE)];
        var ptableIdx := 0;
        while ptableIdx < 1024
          invariant ptableIdx <= 1024 && pframeIdx == pdirIdx * NR_PTE + ptableIdx
          invariant table == uptable * NR_PTE + pframeIdx
          invariant UserFilling(mem[..], pdirIdx + 1, pframeIdx) && SameBut(m, mem[..], updir, uptable, NR_PT)
        {
          UserEntry(m, mem[..], pdirIdx + 1, pframeIdx);
          before := mem[..];
          mem[table] := MakeEntry(pframeIdx * PAGE_SIZE);
          assert mem[..] == before[uptable * NR_PTE + pframeIdx := MakeEntry(pframeIdx * PAGE_SIZE)];
          pframeIdx := pframeIdx + 1;
          table := table + 1;
          ptableIdx := ptableIdx + 1;
        }
        pdirIdx := pdirIdx + 1;
      }
      KernelMappedFrame(m, mem[..], kpdir, kptable, updir, uptable, NR_PT);
      UserFilled(mem[..]);
      UserMappedWords(mem[..], updir, uptable, kpdir, kptable);
      forall laddr: uint32
        ensures Translate(mem[..], updir, laddr) ==
                if laddr < NR_PT * PT_SIZE then Some(laddr as nat)
                else if KOFFSET <= laddr < KOFFSET + PHY_MEM then Some(laddr - KOFFSET)
                else None
      {
        UserWalk(mem[..], updir, uptable, kpdir, laddr);
        KernelWalk(mem[..], kpdir, kptable, laddr);
      }
    }

    ghost predicate UserFilling(m: seq<uint32>, d: nat, n: nat)
      requires Layout() && d <= NR_PT && n <= NR_PT * NR_PTE
    {
      && Identity(m, uptable, n) && Names(m, updir, 0, uptable, d)
      && EmptyFrom(m, updir, d, UPPER) && EmptyFrom(m, updir, UPPER + TABLES, NR_PDE) && Shares(m, updir, kpdir)
    }

    lemma UserNothing(mem: seq<uint32>)
      requires Layout() && |mem| == WORDS && WindowOnly(mem)
      ensures UserFilling(mem, 0, 0)
    {
      hide Shares;
    }

    lemma UserFilled(mem: seq<uint32>)
      requires Layout() && |mem| == WORDS && UserFilling(mem, NR_PT, NR_PT * NR_PTE)
      ensures UserMapped(mem, updir, uptable, kpdir)
    {
      hide Shares, Identity, Names, EmptyFrom;
    }

    lemma UserDirectory(m: seq<uint32>, mem: seq<uint32>, d: nat)
      requires Layout() && |mem| == WORDS && d < NR_PT
      requires UserFilling(mem, d, d * NR_PTE) && SameBut(m, mem, updir, uptable, NR_PT)
      ensures (uptable + d) * PAGE_SIZE < WORD
      ensures var after := mem[updir * NR_PDE + d := MakeEntry((uptable + d) * PAGE_SIZE)];
              UserFilling(after, d + 1, d * NR_PTE) && SameBut(m, after, updir, uptable, NR_PT)
    {
      hide Identity, Names, EmptyFrom, SameBut, MakeEntry, Shares;
      var w, entry := updir * NR_PDE + d, MakeEntry((uptable + d) * PAGE_SIZE);
      IdentityFrame(mem, uptable, d * NR_PTE, w, entry);
      NamesStep(mem, updir, 0, uptable, d, entry);
      EmptyStep(mem, updir, d, UPPER, d + 1, w, entry);
      EmptyStep(mem, updir, UPPER + TABLES, NR_PDE, UPPER + TABLES, w, entry);
      SharesFrame(mem, updir, kpdir, w, entry);
      SameButStep(m, mem, updir, uptable, NR_PT, w, entry);
    }

    lemma UserEntry(m: seq<uint32>, mem: seq<uint32>, d: nat, n: nat)
      requires Layout() && |mem| == WORDS && d <= NR_PT && n < NR_PT * NR_PTE
      requires UserFilling(mem, d, n) && SameBut(m, mem, updir, uptable, NR_PT)
      ensures var after := mem[uptable * NR_PTE + n := MakeEntry(n * PAGE_SIZE)];
              UserFilling(after, d, n + 1) && SameBut(m, after, updir, uptable, NR_PT)
    {
      hide Identity, Names, EmptyFrom, SameBut, MakeEntry, Shares;
      var w, entry := uptable * NR_PTE + n, MakeEntry(n * PAGE_SIZE);
      IdentityStep(mem, uptable, n, entry);
      NamesFrame(mem, updir, 0, uptable, d, w, entry);
      EmptyStep(mem, updir, d, UPPER, d, w, entry);
      EmptyStep(mem, updir, UPPER + TABLES, NR_PDE, UPPER + TABLES, w, entry);
      SharesFrame(mem, updir, kpdir, w, entry);
      SameButStep(m, mem, updir, uptable, NR_PT, w, entry);
    }
  }
}
