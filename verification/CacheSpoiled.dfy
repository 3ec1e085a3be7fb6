/**
 Straddling writes that leave the cache wrong, nemu/src/memory/cache.c: from the cache as it
 is at the start, which accesses lead there and which bytes later reads return.
 */
module CacheSpoiled {
  import opened Arithmetic
  import opened FlatMemory
  import opened Cache
  import opened CacheWrites
  import opened CacheMachine
  import opened CacheRuns
  import opened CacheDuplicates

  // ----- the second line is held, the first is not

  /**
   A straddling write whose first line is not held changes no line at all: reads in the second
   line go on returning memory as it was before the write.
   */
  lemma StaleSecondLine(cache: seq<Line>, mem: seq<byte>, paddr: uint32, len: nat, data: nat, p: uint32, n: nat)
    requires Coherent(cache, mem) && InBounds(paddr, len) && Supported(len) && Straddles(paddr, len)
    requires !Resident(cache, GroupNum(paddr), TagOf(paddr))
    requires InBounds(p, n) && !Straddles(p, n) && LineStart(p) == NextLine(paddr)
    requires Resident(cache, GroupNum(p), TagOf(p))
    ensures WriteFits(cache, paddr, len) && LineStart(p) + 64 <= MEM_SIZE
    ensures var mem' := Stored(mem, paddr, len, data);
            && WriteEffect(cache, mem', paddr, len) == cache
            && LineValue(cache, mem', p, n) == Loaded(mem, p, n)
            && (Coherent(cache, mem') <==> BlockAt(mem', LineStart(p)) == BlockAt(mem, LineStart(p)))
  {
    var mem' := Stored(mem, paddr, len, data);
    AbsentFits(cache, mem', paddr, len);
    StraddledWriteCoherentIff(cache, mem, paddr, len, data);
    NextLineSet(paddr, len);
    SameLineParts(p, NextLine(paddr));
    ResidentHolder(cache, mem, mem', p, n);
    StaleSafeIff(cache, mem, mem', paddr, len);
  }

  /** It happens from the start: a byte read in the second line is enough. */
  lemma StaleFromStart(cache: seq<Line>, mem: seq<byte>, first: uint32, paddr: uint32, len: nat, data: nat, p: uint32, n: nat)
    requires Zeroed(cache) && |mem| == MEM_SIZE
    requires InBounds(paddr, len) && Supported(len) && Straddles(paddr, len)
    requires InBounds(first, 1) && LineStart(first) == NextLine(paddr)
    requires InBounds(p, n) && !Straddles(p, n) && LineStart(p) == NextLine(paddr)
    ensures LineStart(p) + 64 <= MEM_SIZE
    ensures var c, mem' := ReadEffect(cache, mem, first, 1), Stored(mem, paddr, len, data);
            && WriteFits(c, paddr, len)
            && var c' := WriteEffect(c, mem', paddr, len);
               && LineValue(c', mem', p, n) == Loaded(mem, p, n)
               && (Coherent(c', mem') <==> BlockAt(mem', LineStart(p)) == BlockAt(mem, LineStart(p)))
  {
    NextLineSet(paddr, len);
    SameLineParts(first, NextLine(paddr));
    SameLineParts(p, NextLine(paddr));
    assert Coherent(cache, mem);
    hide Coherent, GroupNum, TagOf, BlockNum, LineStart, NextLine, Straddles, BlockAt, Stored;
    ReadEffectCoherent(cache, mem, first, 1);
    ByteReadFromStart(cache, mem, first);
    var c := ReadEffect(cache, mem, first, 1);
    assert forall i: nat :: i < WAYS ==> !WayHolds(c, GroupNum(paddr), TagOf(paddr), i);
    StaleSecondLine(c, mem, paddr, len, data, p, n);
  }

  lemma StaleSafeIff(cache: seq<Line>, mem: seq<byte>, mem': seq<byte>, paddr: uint32, len: nat)
    requires |cache| == LINES && |mem| == |mem'| == MEM_SIZE && WriteFits(cache, paddr, len) && Straddles(paddr, len)
    requires Matches(cache, GroupNum(paddr), TagOf(paddr), 8) == 0
    requires NextLine(paddr) < MEM_SIZE && Resident(cache, GroupNum(NextLine(paddr)), TagOf(NextLine(paddr)))
    requires NextLine(paddr) + 64 <= MEM_SIZE
    ensures StraddledWriteSafe(cache, mem, mem', paddr, len) <==> BlockAt(mem', NextLine(paddr)) == BlockAt(mem, NextLine(paddr))
  {
    LineInBounds(paddr, len);
    hide WriteFits, Matches, GroupNum, TagOf, BlockNum, LineStart, LineBase, BlockAt;
  }

  lemma AbsentFits(cache: seq<Line>, mem': seq<byte>, paddr: uint32, len: nat)
    requires |cache| == LINES && |mem'| == MEM_SIZE && InBounds(paddr, len) && 0 < len <= 4
    requires !Resident(cache, GroupNum(paddr), TagOf(paddr))
    ensures Matches(cache, GroupNum(paddr), TagOf(paddr), 8) == 0
    ensures WriteFits(cache, paddr, len) && WriteEffect(cache, mem', paddr, len) == cache
  {
    var group, tag := GroupNum(paddr), TagOf(paddr);
    MatchedIffResident(cache, group, tag);
    hide GroupNum, TagOf, BlockNum, LineStart, LineBase, Straddles, Refresh, Matches;
    forall k | 0 <= k < LINES
      ensures RefreshedLine(cache, mem', paddr, len, 8, k) == cache[k]
    {
      assert k == k / 8 * 8 + k % 8;
      assert !WayHolds(cache, group, tag, k % 8);
    }
  }

  lemma SameLineParts(p: uint32, q: uint32)
    requires LineStart(p) == LineStart(q)
    ensures GroupNum(p) == GroupNum(q) && TagOf(p) == TagOf(q)
  {
    AddressParts(p);
    AddressParts(q);
    LineBaseInjective(TagOf(p), GroupNum(p), TagOf(q), GroupNum(q));
  }

  /** What a hit returns, from a cache that agrees with mem, whatever memory holds by now. */
  lemma ResidentHolder(cache: seq<Line>, mem: seq<byte>, mem': seq<byte>, p: uint32, n: nat)
    requires Coherent(cache, mem) && |mem'| == MEM_SIZE && InBounds(p, n) && !Straddles(p, n)
    requires Resident(cache, GroupNum(p), TagOf(p))
    ensures LineValue(cache, mem', p, n) == Loaded(mem, p, n)
  {
    hide Coherent, GroupNum, TagOf, BlockNum, LittleEndian;
    CoherentSizes(cache, mem);
    var way := FirstHolder(cache, GroupNum(p), TagOf(p), 0);
    HitReadsMemory(cache, mem, p, n, way);
  }

  // ----- the first line is held twice

  /** The line that a miss at paddr copies. */
  function CopiedLine(mem: seq<byte>, paddr: uint32): Line
    requires |mem| == MEM_SIZE && paddr < MEM_SIZE
  {
    CacheLine(true, TagOf(paddr), BlockAt(mem, LineStart(paddr)))
  }

  /** A miss in a set without valid lines fills way 0. */
  lemma MissInEmptySet(cache: seq<Line>, mem: seq<byte>, paddr: uint32)
    requires |cache| == LINES && |mem| == MEM_SIZE && paddr < MEM_SIZE
    requires forall i: nat :: i < WAYS ==> FreeWay(cache, GroupNum(paddr), i)
    ensures ReadLine(cache, mem, paddr) == cache[GroupNum(paddr) * 8 := CopiedLine(mem, paddr)]
  {
    hide GroupNum, TagOf, BlockNum, LineStart;
    assert FreeWay(cache, GroupNum(paddr), 0);
    assert VictimFrom(cache, GroupNum(paddr), 0) == 0;
    assert forall i: nat :: i < WAYS ==> FreeWay(cache, GroupNum(paddr), i) && !WayHolds(cache, GroupNum(paddr), TagOf(paddr), i);
  }

  lemma ByteReadFromStart(cache: seq<Line>, mem: seq<byte>, first: uint32)
    requires Zeroed(cache) && |mem| == MEM_SIZE && InBounds(first, 1)
    ensures ReadEffect(cache, mem, first, 1) == cache[GroupNum(first) * 8 := CopiedLine(mem, first)]
  {
    ByteInLine(first);
    MissInEmptySet(cache, mem, first);
  }

  lemma ByteInLine(paddr: uint32)
    ensures !Straddles(paddr, 1)
  {
  }

  /** As long as way 7 of a set is not valid but has the tag field, scans for the tag end in a miss. */
  lemma {:induction false} LastWayDecides(cache: seq<Line>, group: nat, tag: nat, i: nat, hit: bool)
    requires |cache| == LINES && group < SETS && i < WAYS
    requires cache[group * 8 + 7].tag == tag && !cache[group * 8 + 7].valid
    ensures !LastMatchFrom(cache, group, tag, i, hit)
    decreases WAYS - i
  {
    if i < 7 {
      LastWayDecides(cache, group, tag, i + 1, if cache[group * 8 + i].tag == tag then cache[group * 8 + i].valid else hit);
    }
  }

  /** The straddling read then copies its second line, and its first line once more. */
  lemma StraddlingReadFromStart(cache: seq<Line>, mem: seq<byte>, second: uint32, len: nat)
    requires Zeroed(cache) && |mem| == MEM_SIZE
    requires InBounds(second, len) && Supported(len) && Straddles(second, len) && TagOf(second) == 0
    ensures NextLine(second) < MEM_SIZE && GroupNum(NextLine(second)) != GroupNum(second)
    ensures var g, g' := GroupNum(second), GroupNum(NextLine(second));
            ReadEffect(cache[g * 8 := CopiedLine(mem, second)], mem, second, len) ==
            cache[g * 8 := CopiedLine(mem, second)][g' * 8 := CopiedLine(mem, NextLine(second))][g * 8 + 1 := CopiedLine(mem, second)]
  {
    NextLineSet(second, len);
    hide GroupNum, TagOf, BlockNum, LineStart, NextLine, Straddles, LastMatchFrom, BlockAt, ReadLine;
    var g, g' := GroupNum(second), GroupNum(NextLine(second));
    var c := cache[g * 8 := CopiedLine(mem, second)];
    assert WayHolds(c, g, 0, 0);
    LastWayDecides(c, g, 0, 0, false);
    MissInEmptySet(c, mem, NextLine(second));
    var d := c[g' * 8 := CopiedLine(mem, NextLine(second))];
    assert !FreeWay(d, g, 0) && FreeWay(d, g, 1);
    assert VictimFrom(d, g, 0) == 1;
  }

  lemma {:induction false} MatchesTwo(cache: seq<Line>, group: nat, tag: nat, i: nat)
    requires |cache| == LINES && group < SETS && 2 <= i <= WAYS
    requires WayHolds(cache, group, tag, 0) && WayHolds(cache, group, tag, 1)
    requires forall j: nat :: 2 <= j < WAYS ==> !WayHolds(cache, group, tag, j)
    ensures Matches(cache, group, tag, i) == 2
  {
    if i > 2 {
      MatchesTwo(cache, group, tag, i - 1);
    }
  }

  /** The cache after a byte read and then a straddling read, from the cache at the start. */
  function AfterTwoReads(cache: seq<Line>, mem: seq<byte>, first: uint32, second: uint32, len: nat): (c: seq<Line>)
    requires |cache| == LINES && |mem| == MEM_SIZE && InBounds(first, 1) && InBounds(second, len) && Supported(len)
    ensures |c| == LINES
  {
    ReadEffect(ReadEffect(cache, mem, first, 1), mem, second, len)
  }

  /**
   Duplicates do arise.  The cache starts with every line invalid and every tag field 0; a byte
   read and then a straddling read in the same line below 8 KB leave that line in two ways.
   */
  lemma DuplicatesFromStart(cache: seq<Line>, mem: seq<byte>, first: uint32, second: uint32, len: nat)
    requires Zeroed(cache) && |mem| == MEM_SIZE
    requires InBounds(first, 1) && InBounds(second, len) && Supported(len) && Straddles(second, len)
    requires LineStart(first) == LineStart(second) && TagOf(second) == 0
    ensures NextLine(second) < MEM_SIZE
    ensures var c := AfterTwoReads(cache, mem, first, second, len);
            && Coherent(c, mem)
            && Matches(c, GroupNum(second), TagOf(second), 8) == 2
            && !NoDuplicates(c)
            && FirstHolder(c, GroupNum(NextLine(second)), TagOf(NextLine(second)), 0) == 0
  {
    SameLineParts(first, second);
    TwoReadsCoherent(cache, mem, first, second, len);
    ByteReadFromStart(cache, mem, first);
    StraddlingReadFromStart(cache, mem, second, len);
    hide GroupNum, TagOf, BlockNum, LineStart, NextLine, Straddles, BlockAt, ReadEffect, Coherent, Matches;
    var g, g', c := GroupNum(second), GroupNum(NextLine(second)), AfterTwoReads(cache, mem, first, second, len);
    assert SameLine(c, g, 0, 1);
    assert WayHolds(c, g, 0, 0) && WayHolds(c, g, 0, 1);
    MatchesTwo(c, g, 0, 8);
    assert WayHolds(c, g', TagOf(NextLine(second)), 0);
  }

  lemma TwoReadsCoherent(cache: seq<Line>, mem: seq<byte>, first: uint32, second: uint32, len: nat)
    requires Zeroed(cache) && |mem| == MEM_SIZE && InBounds(first, 1) && InBounds(second, len) && Supported(len)
    ensures Coherent(AfterTwoReads(cache, mem, first, second, len), mem)
  {
    assert Coherent(cache, mem);
    hide Coherent, ReadEffect;
    ReadEffectCoherent(cache, mem, first, 1);
    ReadEffectCoherent(ReadEffect(cache, mem, first, 1), mem, second, len);
  }

  /** Where all three accesses lie in one line below 8 KB, and not in the last one of those. */
  predicate InLowLine(first: uint32, second: uint32, paddr: uint32) {
    LineStart(first) == LineStart(second) == LineStart(paddr) < 127 * 64
  }

  lemma LowLine(paddr: uint32)
    requires LineStart(paddr) < 127 * 64
    ensures TagOf(paddr) == 0 && GroupNum(paddr) < SETS - 1 && LineStart(paddr) + 192 <= MEM_SIZE
  {
  }

  /**
   A byte read, a straddling read and a straddling write in that line leave the cache
   incoherent as soon as the two written lines differ.
   */
  lemma SpoiledFromStart(cache: seq<Line>, mem: seq<byte>, first: uint32, second: uint32, len: nat,
                         paddr: uint32, len': nat, data: nat)
    requires Zeroed(cache) && |mem| == MEM_SIZE && InLowLine(first, second, paddr)
    requires InBounds(first, 1) && InBounds(second, len) && Supported(len) && Straddles(second, len)
    requires InBounds(paddr, len') && Supported(len') && Straddles(paddr, len')
    ensures WriteFits(AfterTwoReads(cache, mem, first, second, len), paddr, len')
    ensures LineStart(paddr) + 128 <= MEM_SIZE
    ensures var mem' := Stored(mem, paddr, len', data);
            BlockAt(mem', LineStart(paddr)) != BlockAt(mem', LineStart(paddr) + 64) ==>
              !Coherent(WriteEffect(AfterTwoReads(cache, mem, first, second, len), mem', paddr, len'), mem')
  {
    LowLine(paddr);
    SameLineParts(second, paddr);
    DuplicatesFromStart(cache, mem, first, second, len);
    var c, mem' := AfterTwoReads(cache, mem, first, second, len), Stored(mem, paddr, len', data);
    hide GroupNum, TagOf, BlockNum, LineStart, NextLine, BlockAt, AfterTwoReads, Coherent, Matches, Stored, Straddles;
    assert WriteFits(c, paddr, len');
    StraddledWriteCoherentIff(c, mem, paddr, len', data);
    if BlockAt(mem', LineStart(paddr) + 64) != BlockAt(mem', LineStart(paddr)) {
      UnsafeWhenDuplicated(c, mem, mem', paddr, len');
    }
  }

  /** A read in the second line then returns the bytes of the line after it. */
  lemma SpoiledReadFromStart(cache: seq<Line>, mem: seq<byte>, first: uint32, second: uint32, len: nat,
                             paddr: uint32, len': nat, data: nat, p: uint32, n: nat)
    requires Zeroed(cache) && |mem| == MEM_SIZE && InLowLine(first, second, paddr)
    requires InBounds(first, 1) && InBounds(second, len) && Supported(len) && Straddles(second, len)
    requires InBounds(paddr, len') && Supported(len') && Straddles(paddr, len')
    requires InBounds(p, n) && !Straddles(p, n) && LineStart(p) == NextLine(paddr)
    ensures var c, mem' := AfterTwoReads(cache, mem, first, second, len), Stored(mem, paddr, len', data);
            && WriteFits(c, paddr, len') && p + 64 + n <= MEM_SIZE
            && LineValue(WriteEffect(c, mem', paddr, len'), mem', p, n) == Loaded(mem', p + 64, n)
  {
    LowLine(paddr);
    SameLineParts(second, paddr);
    DuplicatesFromStart(cache, mem, first, second, len);
    var c, mem' := AfterTwoReads(cache, mem, first, second, len), Stored(mem, paddr, len', data);
    SpoiledFromStart(cache, mem, first, second, len, paddr, len', data);
    NextLineSet(paddr, len');
    LineInBounds(paddr, len');
    SameLineParts(p, NextLine(paddr));
    hide AfterTwoReads, Coherent, Stored, GroupNum, TagOf, BlockNum, LineStart, LineBase, Straddles, WriteFits, Matches;
    hide BlockAt, WriteEffect, Loaded, LineValue, FirstHolder, NoDuplicates;
    SecondLineIs(c, mem', paddr, len', 0, p, n);
  }

  /** After a write that hit its first line, the first holder of the second line has the block n lines on. */
  lemma SecondLineIs(c: seq<Line>, mem': seq<byte>, paddr: uint32, len: nat, way: nat, p: uint32, n: nat)
    requires |c| == LINES && |mem'| == MEM_SIZE && WriteFits(c, paddr, len) && Straddles(paddr, len)
    requires Matches(c, GroupNum(paddr), TagOf(paddr), 8) == 2 && LineStart(paddr) + 192 <= MEM_SIZE
    requires InBounds(p, n) && !Straddles(p, n) && LineStart(p) == NextLine(paddr)
    requires GroupNum(p) == GroupNum(paddr) + 1 && TagOf(p) == TagOf(paddr)
    requires way < WAYS && FirstHolder(c, GroupNum(p), TagOf(p), 0) == way
    ensures p + 64 + n <= MEM_SIZE && LineValue(WriteEffect(c, mem', paddr, len), mem', p, n) == Loaded(mem', p + 64, n)
  {
    var c' := WriteEffect(c, mem', paddr, len);
    var g, tag, k := GroupNum(p), TagOf(p), GroupNum(p) * 8 + way;
    WayIndex(g, way);
    assert c'[k] == Refresh(c[k], mem', LineStart(paddr) + 128);
    SameHolder(c, mem', paddr, len, g, tag, 0);
    SubSlice(mem', LineStart(paddr) + 128, BlockNum(p), n);
  }

  /** The write changes no valid or tag field, so the same way is found. */
  lemma {:induction false} SameHolder(c: seq<Line>, mem': seq<byte>, paddr: uint32, len: nat, group: nat, tag: nat, i: nat)
    requires |c| == LINES && |mem'| == MEM_SIZE && WriteFits(c, paddr, len)
    requires group < SETS && i <= WAYS
    ensures FirstHolder(WriteEffect(c, mem', paddr, len), group, tag, i) == FirstHolder(c, group, tag, i)
    decreases WAYS - i
  {
    hide RefreshedLine, WriteFits;
    if i < WAYS {
      RefreshedKeepsTags(c, mem', paddr, len, 8, group * 8 + i);
      SameHolder(c, mem', paddr, len, group, tag, i + 1);
    }
  }

  lemma LoadedByte(mem: seq<byte>, p: nat)
    requires p < |mem|
    ensures Loaded(mem, p, 1) == mem[p]
  {
    var b := mem[p..p + 1];
    assert b[1..] == [];
    assert LittleEndian(b) == b[0] + 0x100 * LittleEndian(b[1..]);
  }

  /** The same four accesses on the machine: the last read does not return what was stored at its address. */
  method SpoiledRun(m: Machine, first: uint32, second: uint32, len: nat,
                    paddr: uint32, len': nat, data: uint32, p: uint32) returns (ret: uint32)
    requires m.Shape() && Zeroed(m.cache[..]) && InLowLine(first, second, paddr)
    requires InBounds(first, 1) && InBounds(second, len) && Supported(len) && Straddles(second, len)
    requires InBounds(paddr, len') && Supported(len') && Straddles(paddr, len')
    requires LineStart(p) == NextLine(paddr) && p + 64 < MEM_SIZE
    modifies m.cache, m.hwMem
    ensures m.hwMem[..] == Stored(old(m.hwMem[..]), paddr, len', data)
    ensures ret == m.hwMem[p + 64]
  {
    hide Coherent, Stored, InLowLine, Zeroed, WriteEffect, ReadEffect;
    hide GroupNum, TagOf, BlockNum, LineStart, NextLine, Straddles, LineValue;
    ByteInLine(first);
    ByteInLine(second);
    ByteInLine(p);
    ghost var cache, mem := m.cache[..], m.hwMem[..];
    SpoiledReadFromStart(cache, mem, first, second, len, paddr, len', data, p, 1);
    ghost var depth;
    ret, depth := m.CacheRead(first, 1);
    ret, depth := m.CacheRead(second, len);
    m.CacheWrite(paddr, len', data);
    ret, depth := m.CacheRead(p, 1);
    LoadedByte(m.hwMem[..], p + 64);
  }
}
