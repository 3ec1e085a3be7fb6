/**
 The cache operations on the cache array and the memory array: init_cache, cache_read and
 cache_write, nemu/src/memory/cache.c.
 */
module CacheMachine {
  import opened Arithmetic
  import opened FlatMemory
  import opened Cache
  import opened CacheWrites

  /** A load across a line boundary, from its two parts. */
  lemma SplitLoad(mem: seq<byte>, paddr: nat, len: nat, low: nat)
    requires paddr + len <= |mem| && low <= len
    ensures Loaded(mem, paddr, len) == Loaded(mem, paddr, low) + Pow2(8 * low) * Loaded(mem, paddr + low, len - low)
  {
    assert mem[paddr..paddr + len] == mem[paddr..paddr + low] + mem[paddr + low..paddr + len];
    LittleEndianSplit(mem[paddr..paddr + low], mem[paddr + low..paddr + len]);
  }

  /** high << (8 * k) | low, for a low part of k bytes. */
  function Combine(high: nat, k: nat, low: nat): nat
    requires low < Pow2(8 * k)
  {
    low + Pow2(8 * k) * high
  }

  class Machine {
    const hwMem: array<byte>
    const cache: array<Line>

    constructor ()
      ensures fresh(hwMem) && fresh(cache)
      ensures Shape()
    {
      hwMem := new byte[MEM_SIZE](_ => 0);
      cache := new Line[LINES](_ => CacheLine(false, 0, seq(64, _ => 0)));
    }

    predicate Shape() {
      hwMem.Length == MEM_SIZE && cache.Length == LINES && hwMem as object != cache as object
    }

    ghost predicate Valid()
      reads hwMem, cache
    {
      Shape() && Coherent(cache[..], hwMem[..])
    }

    method InitCache()
      requires Shape()
      modifies cache
      ensures Valid()
      ensures forall k :: 0 <= k < LINES ==> cache[k] == old(cache[k]).(valid := false)
    {
      var i := 0;
      while i < 1024
        invariant 0 <= i <= 1024
        invariant forall k :: 0 <= k < i ==> cache[k] == old(cache[k]).(valid := false)
        invariant forall k :: i <= k < LINES ==> cache[k] == old(cache[k])
      {
        cache[i] := cache[i].(valid := false);
        i := i + 1;
      }
    }

    /** The miss path: copies the line of paddr into the first free way, or into way 0 of a full set. */
    method FillLine(paddr: uint32)
      requires Shape() && paddr < MEM_SIZE
      modifies cache
      ensures cache[..] == Fill(old(cache[..]), hwMem[..], paddr)
    {
      var group, tag := GroupNum(paddr), TagOf(paddr);
      var base := paddr - BlockNum(paddr);
      assert hwMem[..][base..base + 64] == hwMem[base..base + 64];
      var i := 0;
      while i < 8
        invariant 0 <= i <= 8
        invariant cache[..] == old(cache[..])
        invariant VictimFrom(cache[..], group, 0) == VictimFrom(cache[..], group, i)
      {
        if !cache[group * 8 + i].valid {
          cache[group * 8 + i] := CacheLine(true, tag, hwMem[base..base + 64]);
          return;
        }
        i := i + 1;
      }
      cache[group * 8] := CacheLine(true, tag, hwMem[base..base + 64]);
    }

    /** The two parts of a straddling read that hits in way i, each read on its own. */
    method ReadParts(paddr: uint32, len: nat, i: nat) returns (temp1: uint32, temp2: uint32, ghost depth: nat)
      requires Shape() && InBounds(paddr, len)
      requires Straddles(paddr, len) && (len == 2 || len == 4)
      requires i < WAYS && WayHolds(cache[..], GroupNum(paddr), TagOf(paddr), i)
      modifies cache
      ensures var low := 64 - BlockNum(paddr);
              && 0 < low < len && temp1 < Pow2(8 * (len - low)) && temp2 < Pow2(8 * low)
              && (old(Valid()) ==>
                    temp1 == Loaded(hwMem[..], paddr + low, len - low) && temp2 == Loaded(hwMem[..], paddr, low))
      ensures cache[..] == ReadLine(old(cache[..]), hwMem[..], NextLine(paddr))
      ensures depth == 1
      decreases len, 0
    {
      hide Coherent, ReadLine, Loaded, ReadEffect, LittleEndian, Pow2, LineValue;
      NextLineSet(paddr, len);
      ghost var cache0, mem := cache[..], hwMem[..];
      var block, group := BlockNum(paddr), GroupNum(paddr);
      var low := 64 - block;
      StraddledSecond(cache0, mem, paddr, len, i);
      ghost var cache1 := ReadLine(cache0, mem, NextLine(paddr));
      StraddledFirst(cache1, mem, paddr, low, i);
      LineValueBound(cache0, mem, NextLine(paddr), len - low);
      if Coherent(cache0, mem) {
        StraddledParts(cache0, mem, paddr, len, low, i);
      }
      ghost var d1: nat, d2: nat := 0, 0;
      if len == 2 {
        temp1, d1 := CacheRead(paddr + 1, 1);
        temp2 := cache[group * 8 + i].data[block];
        PowEight();
      } else {
        LineValueBound(cache1, mem, paddr, low);
        temp1, d1 := CacheRead(paddr + low, block - 60);
        assert hwMem[..] == mem;
        temp2, d2 := CacheRead(paddr, low);
      }
      assert hwMem[..] == mem;
      depth := 1 + if d1 < d2 then d2 else d1;
    }

    /** The hit path of a straddling read in way i: the two parts are joined. */
    method ReadStraddled(paddr: uint32, len: nat, i: nat) returns (ret: uint32, ghost depth: nat)
      requires Shape() && InBounds(paddr, len)
      requires Straddles(paddr, len) && (len == 2 || len == 4)
      requires i < WAYS && WayHolds(cache[..], GroupNum(paddr), TagOf(paddr), i)
      modifies cache
      ensures old(Valid()) ==> ret == Loaded(hwMem[..], paddr, len)
      ensures cache[..] == ReadLine(old(cache[..]), hwMem[..], NextLine(paddr))
      ensures depth == 1
      decreases len, 1
    {
      hide Coherent, ReadLine, Loaded, Combine, Pow2;
      ghost var mem := hwMem[..];
      var temp1, temp2;
      temp1, temp2, depth := ReadParts(paddr, len, i);
      assert hwMem[..] == mem;
      var low := 64 - BlockNum(paddr);
      CombineBound(temp1, temp2, len, low);
      JoinedLoad(mem, paddr, len, low);
      ret := Combine(temp1, low, temp2);
    }

    /**
     Reads len bytes through the cache; depth is how deep the calls for the parts of a
     straddling read are nested.
     */
    method CacheRead(paddr: uint32, len: nat) returns (ret: uint32, ghost depth: nat)
      requires Shape() && InBounds(paddr, len)
      requires 0 < len <= 4 && (Straddles(paddr, len) ==> len == 2 || len == 4)
      modifies cache
      ensures old(Valid()) ==> Valid() && ret == Loaded(hwMem[..], paddr, len)
      ensures !Straddles(paddr, len) ==> ret == LineValue(old(cache[..]), hwMem[..], paddr, len)
      ensures cache[..] == ReadEffect(old(cache[..]), hwMem[..], paddr, len)
      ensures depth <= if Straddles(paddr, len) then 1 else 0
      decreases len, 2
    {
      hide Coherent, ReadLine, Loaded, ReadEffect, LittleEndian, Pow2, Fill, Scanned;
      var block, group, tag := BlockNum(paddr), GroupNum(paddr), TagOf(paddr);
      ghost var cache0, mem := cache[..], hwMem[..];
      var hit := false;
      ret := 0;
      depth := 0;
      ScanBegins(cache0, mem, paddr, len);
      var i := 0;
      while i < 8
        invariant 0 <= i <= 8 && hwMem[..] == mem
        invariant cache[..] == Scanned(cache0, mem, paddr, len, i)
        invariant !Straddles(paddr, len) ==> !hit && NoneHolds(cache0, group, tag, i)
        invariant hit && Coherent(cache0, mem) ==> ret == Loaded(mem, paddr, len)
        invariant LastMatchFrom(cache0, group, tag, i, hit) == LastMatchFrom(cache0, group, tag, 0, false)
        invariant depth <= if Straddles(paddr, len) then 1 else 0
      {
        ScanStep(cache0, mem, paddr, len, i);
        if cache[group * 8 + i].tag == tag {
          hit := true;
          if cache[group * 8 + i].valid {
            if len + block <= 64 {
              HitValue(cache0, mem, paddr, len, i);
              ret := LittleEndian(cache[group * 8 + i].data[block..block + len]);
              return;
            }
            ScannedCoherent(cache0, mem, paddr, len, i);
            ghost var d;
            ret, d := ReadStraddled(paddr, len, i);
            depth := if depth < d then d else depth;
          } else {
            hit := false;
          }
        }
        i := i + 1;
      }
      ScanEnds(cache0, mem, paddr, len, hit);
      if !hit {
        ret := HwMemRead(hwMem, paddr, len);
        FillLine(paddr);
      }
      if Coherent(cache0, mem) {
        ReadEffectCoherent(cache0, mem, paddr, len);
      }
    }

    /** Copies the 64 bytes at p into line k. */
    method RefreshWay(k: nat, p: nat)
      requires Shape() && k < LINES && p + 64 <= MEM_SIZE
      modifies cache
      ensures cache[..] == old(cache[..])[k := Refresh(old(cache[..])[k], hwMem[..], p)]
    {
      assert hwMem[p..p + 64] == BlockAt(hwMem[..], p);
      cache[k] := cache[k].(data := hwMem[p..p + 64]);
    }

    /** Refreshes the ways of a set that hold the tag from the 64 bytes at p. */
    method RefreshSet(group: nat, tag: nat, p: nat)
      requires Shape() && group < SETS && p + 64 <= MEM_SIZE
      modifies cache
      ensures cache[..] == SetRefreshed(old(cache[..]), hwMem[..], group, tag, p, 8)
    {
      hide SetRefreshed, Refresh;
      ghost var cache0, mem := cache[..], hwMem[..];
      SetRefreshedStep(cache0, mem, group, tag, p, 0);
      var j := 0;
      while j < 8
        invariant 0 <= j <= 8 && hwMem[..] == mem
        invariant cache[..] == SetRefreshed(cache0, mem, group, tag, p, j)
      {
        SetRefreshedStep(cache0, mem, group, tag, p, j);
        var line := cache[group * 8 + j];
        if line.tag == tag && line.valid {
          RefreshWay(group * 8 + j, p);
        }
        j := j + 1;
      }
    }

    /** One way of the write scan: a match is refreshed from p, and the result is where p moves to. */
    method WriteWay(paddr: uint32, len: nat, i: nat, p: nat, ghost cache0: seq<Line>) returns (p': nat)
      requires Shape() && |cache0| == LINES && WriteFits(cache0, paddr, len) && i < 8
      requires cache[..] == Refreshed(cache0, hwMem[..], paddr, len, i)
      requires p == ScanPosition(cache0, paddr, len, i)
      modifies cache
      ensures cache[..] == Refreshed(cache0, hwMem[..], paddr, len, i + 1)
      ensures p' == ScanPosition(cache0, paddr, len, i + 1)
    {
      StraddlesIs(paddr, len);
      hide Refreshed, SetRefreshed, WriteFits, Refresh, BlockAt, LineBase, LineStart, GroupNum, TagOf, BlockNum, Straddles;
      var block, group, tag := BlockNum(paddr), GroupNum(paddr), TagOf(paddr);
      ghost var mem := hwMem[..];
      RefreshedKeepsTags(cache0, mem, paddr, len, i, group * 8 + i);
      var line := cache[group * 8 + i];
      p' := p;
      if line.tag == tag && line.valid {
        if len + block <= 64 {
          RefreshedInLine(cache0, mem, paddr, len, i);
          RefreshWay(group * 8 + i, p);
        } else {
          // The source treats len == 2 and len == 4 here with the same code.
          RefreshedAcross(cache0, mem, paddr, len, i);
          RefreshWay(group * 8 + i, p);
          p' := p + 0x40;
          RefreshSet(group + 1, tag, p');
        }
      } else {
        RefreshedSkip(cache0, mem, paddr, len, i);
      }
    }

    /** Writes the lowest len bytes of data to memory and refreshes the lines that hold them. */
    method CacheWrite(paddr: uint32, len: nat, data: uint32)
      requires Shape() && WriteFits(cache[..], paddr, len)
      modifies hwMem, cache
      ensures hwMem[..] == Stored(old(hwMem[..]), paddr, len, data)
      ensures cache[..] == WriteEffect(old(cache[..]), hwMem[..], paddr, len)
    {
      ghost var cache0 := cache[..];
      HwMemWrite(hwMem, paddr, len, data);
      ghost var mem := hwMem[..];
      var p: nat := paddr - BlockNum(paddr);
      RefreshedBegins(cache0, mem, paddr, len);
      hide Stored, Refreshed, WriteFits;
      var i := 0;
      while i < 8
        invariant 0 <= i <= 8 && hwMem[..] == mem
        invariant cache[..] == Refreshed(cache0, mem, paddr, len, i)
        invariant p == ScanPosition(cache0, paddr, len, i)
      {
        p := WriteWay(paddr, len, i, p, cache0);
        i := i + 1;
      }
    }
  }

  /** No way below i holds the tag. */
  ghost predicate NoneHolds(cache: seq<Line>, group: nat, tag: nat, i: nat)
    requires |cache| == LINES && group < SETS && i <= WAYS
  {
    forall j: nat :: j < i ==> !WayHolds(cache, group, tag, j)
  }

  /** The cache after the scan looked at i ways of the set. */
  ghost function Scanned(cache: seq<Line>, mem: seq<byte>, paddr: uint32, len: nat, i: nat): (cache': seq<Line>)
    requires |cache| == LINES && |mem| == MEM_SIZE && InBounds(paddr, len) && 0 < len <= 4 && i <= 8
    ensures |cache'| == LINES
  {
    if Straddles(paddr, len) && !NoneHolds(cache, GroupNum(paddr), TagOf(paddr), i) then
      ReadLine(cache, mem, NextLine(paddr))
    else
      cache
  }

  lemma StraddlesIs(paddr: uint32, len: nat)
    ensures Straddles(paddr, len) <==> len + BlockNum(paddr) > 64
  {
  }

  lemma LoadedWord(mem: seq<byte>, paddr: nat, len: nat)
    requires paddr + len <= |mem| && len <= 4
    ensures Loaded(mem, paddr, len) < WORD
    ensures Loaded(mem, paddr, len) == LittleEndian(mem[paddr..paddr + len])
  {
    WordBound(mem[paddr..paddr + len]);
  }

  lemma LineValueBound(cache: seq<Line>, mem: seq<byte>, paddr: uint32, len: nat)
    requires |cache| == LINES && |mem| == MEM_SIZE && InBounds(paddr, len) && !Straddles(paddr, len)
    ensures LineValue(cache, mem, paddr, len) < Pow2(8 * len)
  {
    var way := FirstHolder(cache, GroupNum(paddr), TagOf(paddr), 0);
    var b := BlockNum(paddr);
    LittleEndianBound(if way < WAYS then cache[GroupNum(paddr) * 8 + way].data[b..b + len] else mem[paddr..paddr + len]);
  }

  lemma CombineBound(high: nat, low: nat, len: nat, k: nat)
    requires k <= len <= 4 && low < Pow2(8 * k) && high < Pow2(8 * (len - k))
    ensures Combine(high, k, low) < WORD
  {
    Pow2Add(8 * k, 8 * (len - k));
    Pow2Monotone(8 * len, 32);
    PowThirtyTwo();
    hide Pow2;
    BelowProduct(low, Pow2(8 * k), high, Pow2(8 * (len - k)));
  }

  lemma BelowProduct(low: nat, p: nat, high: nat, q: nat)
    requires low < p && high < q
    ensures low + p * high < p * q
  {
    MulMonotone(high + 1, q, p);
    assert (high + 1) * p == p * high + p;
  }

  /** The second part of a straddling read fills another set and leaves the scanned one alone. */
  lemma StraddledSecond(cache: seq<Line>, mem: seq<byte>, paddr: uint32, len: nat, i: nat)
    requires |cache| == LINES && |mem| == MEM_SIZE && InBounds(paddr, len) && Straddles(paddr, len) && len <= 4
    requires i < WAYS && WayHolds(cache, GroupNum(paddr), TagOf(paddr), i)
    ensures NextLine(paddr) < MEM_SIZE && NextLine(paddr) == paddr + (64 - BlockNum(paddr))
    ensures forall n: nat :: 0 < n <= 4 && InBounds(NextLine(paddr), n) ==>
              && !Straddles(NextLine(paddr), n)
              && ReadEffect(cache, mem, NextLine(paddr), n) == ReadLine(cache, mem, NextLine(paddr))
    ensures var cache' := ReadLine(cache, mem, NextLine(paddr));
            && (forall k :: 0 <= k < LINES && k / 8 == GroupNum(paddr) ==> cache'[k] == cache[k])
            && WayHolds(cache', GroupNum(paddr), TagOf(paddr), i)
  {
    NextLineSet(paddr, len);
    ReadLineFrame(cache, mem, NextLine(paddr));
    assert (GroupNum(paddr) * 8 + i) / 8 == GroupNum(paddr);
  }

  /** The first part is then a hit. */
  lemma StraddledFirst(cache: seq<Line>, mem: seq<byte>, paddr: uint32, low: nat, i: nat)
    requires |cache| == LINES && |mem| == MEM_SIZE
    requires InBounds(paddr, low) && low == 64 - BlockNum(paddr) && 0 < low <= 4
    requires i < WAYS && WayHolds(cache, GroupNum(paddr), TagOf(paddr), i)
    ensures !Straddles(paddr, low) && ReadEffect(cache, mem, paddr, low) == cache
  {
  }

  /** In a coherent cache both parts of a straddling read are what memory holds. */
  lemma StraddledParts(cache: seq<Line>, mem: seq<byte>, paddr: uint32, len: nat, low: nat, i: nat)
    requires Coherent(cache, mem) && InBounds(paddr, len) && Straddles(paddr, len) && len <= 4
    requires low == 64 - BlockNum(paddr)
    requires i < WAYS && WayHolds(cache, GroupNum(paddr), TagOf(paddr), i)
    ensures NextLine(paddr) < MEM_SIZE && Coherent(ReadLine(cache, mem, NextLine(paddr)), mem)
    ensures low == 1 ==> cache[GroupNum(paddr) * 8 + i].data[BlockNum(paddr)] == Loaded(mem, paddr, 1)
  {
    NextLineSet(paddr, len);
    ReadLineCoherent(cache, mem, NextLine(paddr));
    if low == 1 {
      HitReadsMemory(cache, mem, paddr, low, i);
      var b, line := BlockNum(paddr), cache[GroupNum(paddr) * 8 + i];
      assert line.data[b..b + 1] == [line.data[b]];
      assert LittleEndian([line.data[b]]) == line.data[b];
    }
  }

  lemma JoinedLoad(mem: seq<byte>, paddr: nat, len: nat, low: nat)
    requires paddr + len <= |mem| && low <= len
    ensures Loaded(mem, paddr, low) < Pow2(8 * low)
    ensures Loaded(mem, paddr, len) == Combine(Loaded(mem, paddr + low, len - low), low, Loaded(mem, paddr, low))
  {
    LittleEndianBound(mem[paddr..paddr + low]);
    SplitLoad(mem, paddr, len, low);
  }

  // ----- the scan

  lemma ScanBegins(cache: seq<Line>, mem: seq<byte>, paddr: uint32, len: nat)
    requires |cache| == LINES && |mem| == MEM_SIZE && InBounds(paddr, len) && 0 < len <= 4
    ensures Scanned(cache, mem, paddr, len, 0) == cache
    ensures NoneHolds(cache, GroupNum(paddr), TagOf(paddr), 0)
  {
  }

  /** Looking at way i: the scanned set is as it was, and what the step makes of it. */
  lemma ScanStep(cache: seq<Line>, mem: seq<byte>, paddr: uint32, len: nat, i: nat)
    requires |cache| == LINES && |mem| == MEM_SIZE && InBounds(paddr, len) && 0 < len <= 4 && i < 8
    ensures var group, tag := GroupNum(paddr), TagOf(paddr);
            var line := cache[group * 8 + i];
            && Scanned(cache, mem, paddr, len, i)[group * 8 + i] == line
            && (line.valid && line.tag == tag <==> WayHolds(cache, group, tag, i))
            && (!WayHolds(cache, group, tag, i) ==> Scanned(cache, mem, paddr, len, i + 1) == Scanned(cache, mem, paddr, len, i))
            && (WayHolds(cache, group, tag, i) ==> WayHolds(Scanned(cache, mem, paddr, len, i), group, tag, i))
            && (WayHolds(cache, group, tag, i) && Straddles(paddr, len) ==>
                  Scanned(cache, mem, paddr, len, i + 1) == ReadLine(Scanned(cache, mem, paddr, len, i), mem, NextLine(paddr)))
            && (NoneHolds(cache, group, tag, i) && !WayHolds(cache, group, tag, i) ==> NoneHolds(cache, group, tag, i + 1))
            && (!Straddles(paddr, len) ==> Scanned(cache, mem, paddr, len, i) == cache)
  {
    hide ReadLine;
    var group, tag := GroupNum(paddr), TagOf(paddr);
    assert (group * 8 + i) / 8 == group;
    if Straddles(paddr, len) {
      NextLineSet(paddr, len);
      ReadLineFrame(cache, mem, NextLine(paddr));
    }
  }

  /** A hit within one line: the first way that holds it is read, and in a coherent cache it holds memory's bytes. */
  lemma HitValue(cache: seq<Line>, mem: seq<byte>, paddr: uint32, len: nat, i: nat)
    requires |cache| == LINES && |mem| == MEM_SIZE && InBounds(paddr, len) && 0 < len <= 4
    requires !Straddles(paddr, len)
    requires i < WAYS && WayHolds(cache, GroupNum(paddr), TagOf(paddr), i)
    requires NoneHolds(cache, GroupNum(paddr), TagOf(paddr), i)
    ensures ReadEffect(cache, mem, paddr, len) == cache
    ensures var b := BlockNum(paddr);
            var value := LittleEndian(cache[GroupNum(paddr) * 8 + i].data[b..b + len]);
            && value == LineValue(cache, mem, paddr, len) < WORD
            && (Coherent(cache, mem) ==> value == Loaded(mem, paddr, len))
  {
    hide GroupNum, TagOf, LineBase, LittleEndian, Coherent, Fill;
    assert FirstHolder(cache, GroupNum(paddr), TagOf(paddr), 0) == i;
    var b := BlockNum(paddr);
    WordBound(cache[GroupNum(paddr) * 8 + i].data[b..b + len]);
    if Coherent(cache, mem) {
      HitReadsMemory(cache, mem, paddr, len, i);
    }
  }

  lemma ScannedCoherent(cache: seq<Line>, mem: seq<byte>, paddr: uint32, len: nat, i: nat)
    requires |cache| == LINES && |mem| == MEM_SIZE && InBounds(paddr, len) && 0 < len <= 4 && i <= 8
    ensures Coherent(cache, mem) ==> Coherent(Scanned(cache, mem, paddr, len, i), mem)
  {
    hide ReadLine, Coherent;
    if Coherent(cache, mem) && Straddles(paddr, len) {
      NextLineSet(paddr, len);
      ReadLineCoherent(cache, mem, NextLine(paddr));
    }
  }

  /** At the end of the scan: a hit is done, a miss still has to fill the line. */
  lemma ScanEnds(cache: seq<Line>, mem: seq<byte>, paddr: uint32, len: nat, hit: bool)
    requires |cache| == LINES && |mem| == MEM_SIZE && InBounds(paddr, len) && 0 < len <= 4
    requires !Straddles(paddr, len) ==> !hit && NoneHolds(cache, GroupNum(paddr), TagOf(paddr), 8)
    requires hit == LastMatchFrom(cache, GroupNum(paddr), TagOf(paddr), 0, false)
    ensures var scanned := Scanned(cache, mem, paddr, len, 8);
            ReadEffect(cache, mem, paddr, len) == if hit then scanned else Fill(scanned, mem, paddr)
    ensures !Straddles(paddr, len) ==> LineValue(cache, mem, paddr, len) == Loaded(mem, paddr, len)
  {
    var group, tag := GroupNum(paddr), TagOf(paddr);
    assert NoneHolds(cache, group, tag, 8) <==> !Resident(cache, group, tag);
  }
}
