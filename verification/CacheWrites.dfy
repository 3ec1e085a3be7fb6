/**
 What cache_write leaves in the cache, nemu/src/memory/cache.c, and exactly when the cache
 still agrees with memory after it.
 */
module CacheWrites {
  import opened Arithmetic
  import opened FlatMemory
  import opened Cache

  /** How many of the first i ways of the set hold the tag. */
  function Matches(cache: seq<Line>, group: nat, tag: nat, i: nat): (n: nat)
    requires |cache| == LINES && group < SETS && i <= WAYS
    ensures n <= i
  {
    if i == 0 then 0 else Matches(cache, group, tag, i - 1) + (if WayHolds(cache, group, tag, i - 1) then 1 else 0)
  }

  /** All copies stay inside the two arrays. */
  predicate WriteFits(cache: seq<Line>, paddr: uint32, len: nat)
    requires |cache| == LINES
  {
    var n := Matches(cache, GroupNum(paddr), TagOf(paddr), 8);
    && 0 < len <= 4 && InBounds(paddr, len)
    && (Straddles(paddr, len) && n > 0 ==> GroupNum(paddr) < SETS - 1 && LineStart(paddr) + 64 * (n + 1) <= MEM_SIZE)
  }

  /**
   Line k after the first i ways were looked at.  Every match in the set is refreshed from
   memory; a straddling write moves on by one line at each match, and refreshes the matches
   of the next set from there.
   */
  function RefreshedLine(cache: seq<Line>, mem: seq<byte>, paddr: uint32, len: nat, i: nat, k: nat): (line: Line)
    requires |cache| == LINES && |mem| == MEM_SIZE && WriteFits(cache, paddr, len) && i <= 8 && k < LINES
  {
    var group, tag, base := GroupNum(paddr), TagOf(paddr), LineStart(paddr);
    MatchesMonotone(cache, group, tag, k % 8 + 1, 8);
    MatchesMonotone(cache, group, tag, i, 8);
    LineInBounds(paddr, len);
    var line := cache[k];
    if !(line.valid && line.tag == tag) then
      line
    else if k / 8 == group && k % 8 < i then
      Refresh(line, mem, base + (if Straddles(paddr, len) then 64 * Matches(cache, group, tag, k % 8) else 0))
    else if Straddles(paddr, len) && k / 8 == group + 1 && Matches(cache, group, tag, i) > 0 then
      Refresh(line, mem, base + 64 * Matches(cache, group, tag, i))
    else
      line
  }

  function Refresh(line: Line, mem: seq<byte>, base: nat): Line
    requires base + 64 <= |mem|
  {
    line.(data := BlockAt(mem, base))
  }

  lemma LineInBounds(paddr: uint32, len: nat)
    requires InBounds(paddr, len) && 0 < len <= 4
    ensures LineStart(paddr) == LineBase(TagOf(paddr), GroupNum(paddr))
    ensures LineStart(paddr) + 64 <= MEM_SIZE
    ensures Straddles(paddr, len) ==> LineStart(paddr) + 128 <= MEM_SIZE && NextLine(paddr) == LineStart(paddr) + 64
    ensures Straddles(paddr, len) && GroupNum(paddr) < SETS - 1 ==>
              GroupNum(NextLine(paddr)) == GroupNum(paddr) + 1 && TagOf(NextLine(paddr)) == TagOf(paddr)
  {
    AddressParts(paddr);
    if Straddles(paddr, len) {
      NextLineSet(paddr, len);
      if GroupNum(paddr) < SETS - 1 {
        LineBaseParts(TagOf(paddr), GroupNum(paddr) + 1, NextLine(paddr));
      }
    }
  }

  lemma {:induction false} MatchesMonotone(cache: seq<Line>, group: nat, tag: nat, i: nat, j: nat)
    requires |cache| == LINES && group < SETS && i <= j <= WAYS
    ensures Matches(cache, group, tag, i) <= Matches(cache, group, tag, j)
  {
    if i < j {
      MatchesMonotone(cache, group, tag, i, j - 1);
    }
  }

  /** The cache after the first i ways were looked at. */
  function Refreshed(cache: seq<Line>, mem: seq<byte>, paddr: uint32, len: nat, i: nat): (cache': seq<Line>)
    requires |cache| == LINES && |mem| == MEM_SIZE && WriteFits(cache, paddr, len) && i <= 8
    ensures |cache'| == LINES
  {
    seq(LINES, k requires 0 <= k < LINES => RefreshedLine(cache, mem, paddr, len, i, k))
  }

  /** A write: what it leaves in the cache; mem is memory after the write. */
  function WriteEffect(cache: seq<Line>, mem: seq<byte>, paddr: uint32, len: nat): (cache': seq<Line>)
    requires |cache| == LINES && |mem| == MEM_SIZE && WriteFits(cache, paddr, len)
    ensures |cache'| == LINES
  {
    Refreshed(cache, mem, paddr, len, 8)
  }

  // ----- memory outside the written bytes

  lemma OtherBlocksKept(mem: seq<byte>, mem': seq<byte>, paddr: uint32, len: nat, base: nat)
    requires |mem| == MEM_SIZE && InBounds(paddr, len) && 0 < len <= 4
    requires |mem'| == |mem| && (forall k :: 0 <= k < |mem| && !(paddr <= k < paddr + len) ==> mem'[k] == mem[k])
    requires base % 64 == 0 && base + 64 <= MEM_SIZE
    requires base != LineStart(paddr) && (Straddles(paddr, len) ==> base != NextLine(paddr))
    ensures BlockAt(mem', base) == BlockAt(mem, base)
  {
    WrittenRange(paddr, len);
    BlocksDisjoint(base, LineStart(paddr));
    if Straddles(paddr, len) {
      BlocksDisjoint(base, NextLine(paddr));
    }
    hide *;
    assert forall k :: base <= k < base + 64 ==> mem'[k] == mem[k];
    SameBlock(mem, mem', base);
  }

  lemma SameBlock(mem: seq<byte>, mem': seq<byte>, base: nat)
    requires base + 64 <= |mem| == |mem'|
    requires forall k :: base <= k < base + 64 ==> mem'[k] == mem[k]
    ensures BlockAt(mem', base) == BlockAt(mem, base)
  {
  }

  lemma BlocksDisjoint(x: nat, y: nat)
    requires x % 64 == 0 && y % 64 == 0 && x != y
    ensures x + 64 <= y || y + 64 <= x
  {
  }

  /** The written bytes lie in the line of paddr, or in it and the next one. */
  lemma WrittenRange(paddr: uint32, len: nat)
    requires 0 < len <= 4
    ensures LineStart(paddr) % 64 == 0 && NextLine(paddr) % 64 == 0
    ensures LineStart(paddr) <= paddr
    ensures paddr + len <= if Straddles(paddr, len) then NextLine(paddr) + 64 else LineStart(paddr) + 64
    ensures NextLine(paddr) == LineStart(paddr) + 64
  {
  }

  lemma LineBaseInjective(tag: nat, group: nat, tag': nat, group': nat)
    requires group < SETS && group' < SETS
    ensures LineBase(tag, group) == LineBase(tag', group') ==> tag == tag' && group == group'
    ensures LineBase(tag, group) % 64 == 0
  {
  }

  /** Only lines that hold a written block can disagree with memory after the write. */
  lemma OtherLinesCoherent(cache: seq<Line>, mem: seq<byte>, mem': seq<byte>, paddr: uint32, len: nat, k: nat)
    requires Coherent(cache, mem) && InBounds(paddr, len) && 0 < len <= 4 && k < LINES
    requires |mem'| == |mem| && (forall j :: 0 <= j < |mem| && !(paddr <= j < paddr + len) ==> mem'[j] == mem[j])
    requires !(k / 8 == GroupNum(paddr) && cache[k].tag == TagOf(paddr))
    requires Straddles(paddr, len) ==> !(k / 8 == GroupNum(NextLine(paddr)) && cache[k].tag == TagOf(NextLine(paddr)))
    ensures LineCoherent(cache[k], k / 8, mem')
  {
    hide LineBase;
    assert LineCoherent(cache[k], k / 8, mem);
    if cache[k].valid {
      var base := LineBase(cache[k].tag, k / 8);
      LineInBounds(paddr, len);
      LineBaseInjective(cache[k].tag, k / 8, TagOf(paddr), GroupNum(paddr));
      if Straddles(paddr, len) {
        NextLineBase(paddr, len);
        LineBaseInjective(cache[k].tag, k / 8, TagOf(NextLine(paddr)), GroupNum(NextLine(paddr)));
      }
      OtherBlocksKept(mem, mem', paddr, len, base);
      assert BlockAt(mem, base) == cache[k].data;
    }
  }

  lemma NextLineBase(paddr: uint32, len: nat)
    requires InBounds(paddr, len) && Straddles(paddr, len) && 0 < len <= 4
    ensures NextLine(paddr) < MEM_SIZE
    ensures NextLine(paddr) == LineBase(TagOf(NextLine(paddr)), GroupNum(NextLine(paddr)))
  {
    NextLineSet(paddr, len);
    AddressParts(NextLine(paddr));
  }

  // ----- writes within one line

  /** A write within one line keeps the cache coherent; every duplicate of the line is refreshed. */
  lemma WriteInLineCoherent(cache: seq<Line>, mem: seq<byte>, paddr: uint32, len: nat, data: nat)
    requires Coherent(cache, mem) && WriteFits(cache, paddr, len) && !Straddles(paddr, len)
    ensures Coherent(WriteEffect(cache, Stored(mem, paddr, len, data), paddr, len), Stored(mem, paddr, len, data))
  {
    hide Stored, LineBase;
    var mem' := Stored(mem, paddr, len, data);
    StoredMeaning(mem, paddr, len, data);
    LineInBounds(paddr, len);
    var cache' := WriteEffect(cache, mem', paddr, len);
    forall k | 0 <= k < LINES
      ensures LineCoherent(cache'[k], k / 8, mem')
    {
      if !(k / 8 == GroupNum(paddr) && cache[k].tag == TagOf(paddr)) {
        OtherLinesCoherent(cache, mem, mem', paddr, len, k);
      }
    }
  }

  // ----- straddling writes

  /** Exactly when a straddling write leaves the cache coherent; mem' is memory after it. */
  ghost predicate StraddledWriteSafe(cache: seq<Line>, mem: seq<byte>, mem': seq<byte>, paddr: uint32, len: nat)
    requires |cache| == LINES && |mem| == |mem'| == MEM_SIZE && WriteFits(cache, paddr, len) && Straddles(paddr, len)
  {
    LineInBounds(paddr, len);
    NextLineSet(paddr, len);
    var group, tag, base := GroupNum(paddr), TagOf(paddr), LineStart(paddr);
    var n := Matches(cache, group, tag, 8);
    if n == 0 then
      // Nothing is refreshed: the second line must be absent, or its bytes unchanged.
      Resident(cache, GroupNum(NextLine(paddr)), TagOf(NextLine(paddr))) ==> BlockAt(mem', base + 64) == BlockAt(mem, base + 64)
    else
      // Match m gets the m-th block from base on, and the second line the n-th.
      && (forall m: nat :: m < n ==> RefreshedRight(mem', base, m))
      && (Resident(cache, group + 1, tag) ==> BlockAt(mem', base + 64 * n) == BlockAt(mem', base + 64))
  }

  ghost predicate RefreshedRight(mem: seq<byte>, base: nat, m: nat)
    requires base + 64 <= |mem|
  {
    base + 64 * m + 64 <= |mem| && BlockAt(mem, base + 64 * m) == BlockAt(mem, base)
  }

  /** The m-th match of the set. */
  lemma {:induction false} MatchNumbered(cache: seq<Line>, group: nat, tag: nat, m: nat, i: nat) returns (j: nat)
    requires |cache| == LINES && group < SETS && i <= WAYS
    requires m < Matches(cache, group, tag, i)
    ensures j < i && WayHolds(cache, group, tag, j) && Matches(cache, group, tag, j) == m
  {
    if WayHolds(cache, group, tag, i - 1) && Matches(cache, group, tag, i - 1) == m {
      j := i - 1;
    } else {
      j := MatchNumbered(cache, group, tag, m, i - 1);
    }
  }

  lemma {:induction false} ResidentMatches(cache: seq<Line>, group: nat, tag: nat, i: nat)
    requires |cache| == LINES && group < SETS && i < WAYS
    requires WayHolds(cache, group, tag, i)
    ensures Matches(cache, group, tag, i) < Matches(cache, group, tag, 8)
  {
    MatchesMonotone(cache, group, tag, i + 1, 8);
  }

  lemma WayIndex(group: nat, j: nat)
    requires group < SETS && j < WAYS
    ensures (group * 8 + j) / 8 == group && (group * 8 + j) % 8 == j && group * 8 + j < LINES
  {
  }

  /** Match j of the set gets the block as many lines on as matches were found before it. */
  lemma FirstLineIs(cache: seq<Line>, mem': seq<byte>, paddr: uint32, len: nat, j: nat)
    requires |cache| == LINES && |mem'| == MEM_SIZE && WriteFits(cache, paddr, len) && Straddles(paddr, len)
    requires j < WAYS && WayHolds(cache, GroupNum(paddr), TagOf(paddr), j)
    ensures var k, m := GroupNum(paddr) * 8 + j, Matches(cache, GroupNum(paddr), TagOf(paddr), j);
            LineStart(paddr) + 64 * m + 64 <= |mem'| &&
            WriteEffect(cache, mem', paddr, len)[k] == Refresh(cache[k], mem', LineStart(paddr) + 64 * m)
  {
    LineInBounds(paddr, len);
    hide LineBase, GroupNum, TagOf, LineStart, NextLine, Matches, BlockAt;
    WayIndex(GroupNum(paddr), j);
    ResidentMatches(cache, GroupNum(paddr), TagOf(paddr), j);
  }

  /** The refreshed first line: match j of the set agrees with memory exactly if it got the right block. */
  lemma FirstLineCoherentIff(cache: seq<Line>, mem': seq<byte>, paddr: uint32, len: nat, j: nat)
    requires |cache| == LINES && |mem'| == MEM_SIZE && WriteFits(cache, paddr, len) && Straddles(paddr, len)
    requires j < WAYS && WayHolds(cache, GroupNum(paddr), TagOf(paddr), j)
    ensures var k := GroupNum(paddr) * 8 + j;
            LineStart(paddr) + 64 <= |mem'| &&
            (LineCoherent(WriteEffect(cache, mem', paddr, len)[k], k / 8, mem') <==>
             RefreshedRight(mem', LineStart(paddr), Matches(cache, GroupNum(paddr), TagOf(paddr), j)))
  {
    LineInBounds(paddr, len);
    WayIndex(GroupNum(paddr), j);
    FirstLineIs(cache, mem', paddr, len, j);
    hide LineBase, GroupNum, TagOf, LineStart, NextLine, Matches, WriteEffect, WriteFits;
  }

  /** The ways of the next set that hold the second line, after a write that hit the first. */
  lemma SecondLineCoherentIff(cache: seq<Line>, mem': seq<byte>, paddr: uint32, len: nat, j: nat)
    requires |cache| == LINES && |mem'| == MEM_SIZE && WriteFits(cache, paddr, len) && Straddles(paddr, len)
    requires Matches(cache, GroupNum(paddr), TagOf(paddr), 8) > 0
    requires j < WAYS && WayHolds(cache, GroupNum(paddr) + 1, TagOf(paddr), j)
    ensures var k := (GroupNum(paddr) + 1) * 8 + j;
            var n := Matches(cache, GroupNum(paddr), TagOf(paddr), 8);
            LineStart(paddr) + 128 <= |mem'| && LineStart(paddr) + 64 * n + 64 <= |mem'| &&
            (LineCoherent(WriteEffect(cache, mem', paddr, len)[k], k / 8, mem') <==>
             BlockAt(mem', LineStart(paddr) + 64 * n) == BlockAt(mem', LineStart(paddr) + 64))
  {
    LineInBounds(paddr, len);
    NextLineBase(paddr, len);
    hide LineBase;
    var k := (GroupNum(paddr) + 1) * 8 + j;
    assert k / 8 == GroupNum(paddr) + 1 && k % 8 == j;
  }

  /** When the first line is absent nothing is refreshed, and the second line is as good as its bytes. */
  lemma UnrefreshedCoherentIff(cache: seq<Line>, mem: seq<byte>, mem': seq<byte>, paddr: uint32, len: nat, j: nat)
    requires Coherent(cache, mem) && |mem'| == MEM_SIZE && WriteFits(cache, paddr, len) && Straddles(paddr, len)
    requires Matches(cache, GroupNum(paddr), TagOf(paddr), 8) == 0
    requires NextLine(paddr) < MEM_SIZE
    requires j < WAYS && WayHolds(cache, GroupNum(NextLine(paddr)), TagOf(NextLine(paddr)), j)
    ensures var k := GroupNum(NextLine(paddr)) * 8 + j;
            LineStart(paddr) + 128 <= |mem'| &&
            (LineCoherent(WriteEffect(cache, mem', paddr, len)[k], k / 8, mem') <==>
             BlockAt(mem', LineStart(paddr) + 64) == BlockAt(mem, LineStart(paddr) + 64))
  {
    LineInBounds(paddr, len);
    NextLineBase(paddr, len);
    NextLineSet(paddr, len);
    hide LineBase;
    var k := GroupNum(NextLine(paddr)) * 8 + j;
    assert k / 8 == GroupNum(NextLine(paddr)) && k % 8 == j;
    assert LineCoherent(cache[k], k / 8, mem);
  }

  lemma SafeLineCoherent(cache: seq<Line>, mem: seq<byte>, mem': seq<byte>, paddr: uint32, len: nat, k: nat)
    requires Coherent(cache, mem) && WriteFits(cache, paddr, len) && Straddles(paddr, len) && k < LINES
    requires |mem'| == |mem| && (forall j :: 0 <= j < |mem| && !(paddr <= j < paddr + len) ==> mem'[j] == mem[j])
    requires StraddledWriteSafe(cache, mem, mem', paddr, len)
    ensures LineCoherent(WriteEffect(cache, mem', paddr, len)[k], k / 8, mem')
  {
    LineInBounds(paddr, len);
    NextLineSet(paddr, len);
    hide LineBase, LineCoherent, BlockAt, RefreshedRight, GroupNum, TagOf, BlockNum, LineStart, NextLine;
    var group, tag, j := GroupNum(paddr), TagOf(paddr), k % 8;
    var n := Matches(cache, group, tag, 8);
    assert k == k / 8 * 8 + j;
    if !cache[k].valid {
      InvalidCoherent(WriteEffect(cache, mem', paddr, len)[k], k / 8, mem');
    } else if k / 8 == group && cache[k].tag == tag {
      assert WayHolds(cache, group, tag, j);
      ResidentMatches(cache, group, tag, j);
      FirstLineCoherentIff(cache, mem', paddr, len, j);
    } else if k / 8 == GroupNum(NextLine(paddr)) && cache[k].tag == TagOf(NextLine(paddr)) {
      assert WayHolds(cache, GroupNum(NextLine(paddr)), TagOf(NextLine(paddr)), j);
      if n == 0 {
        UnrefreshedCoherentIff(cache, mem, mem', paddr, len, j);
      } else {
        SecondLineCoherentIff(cache, mem', paddr, len, j);
      }
    } else {
      OtherLinesCoherent(cache, mem, mem', paddr, len, k);
      LineUntouched(cache, mem', paddr, len, k);
    }
  }

  lemma InvalidCoherent(line: Line, group: nat, mem: seq<byte>)
    requires !line.valid
    ensures LineCoherent(line, group, mem)
  {
  }

  lemma LineUntouched(cache: seq<Line>, mem': seq<byte>, paddr: uint32, len: nat, k: nat)
    requires |cache| == LINES && |mem'| == MEM_SIZE && WriteFits(cache, paddr, len) && Straddles(paddr, len) && k < LINES
    requires !(k / 8 == GroupNum(paddr) && cache[k].tag == TagOf(paddr))
    requires !(k / 8 == GroupNum(NextLine(paddr)) && cache[k].tag == TagOf(NextLine(paddr)))
    ensures WriteEffect(cache, mem', paddr, len)[k] == cache[k]
  {
    LineInBounds(paddr, len);
    hide LineBase;
  }

  /** A straddling write keeps the cache coherent if and only if it is safe. */
  lemma StraddledWriteCoherentIff(cache: seq<Line>, mem: seq<byte>, paddr: uint32, len: nat, data: nat)
    requires Coherent(cache, mem) && WriteFits(cache, paddr, len) && Straddles(paddr, len)
    ensures var mem' := Stored(mem, paddr, len, data);
            Coherent(WriteEffect(cache, mem', paddr, len), mem') <==> StraddledWriteSafe(cache, mem, mem', paddr, len)
  {
    var mem' := Stored(mem, paddr, len, data);
    if StraddledWriteSafe(cache, mem, mem', paddr, len) {
      SafeIsCoherent(cache, mem, paddr, len, data);
    }
    if Coherent(WriteEffect(cache, mem', paddr, len), mem') {
      CoherentIsSafe(cache, mem, paddr, len, data);
    }
  }

  lemma SafeIsCoherent(cache: seq<Line>, mem: seq<byte>, paddr: uint32, len: nat, data: nat)
    requires Coherent(cache, mem) && WriteFits(cache, paddr, len) && Straddles(paddr, len)
    requires StraddledWriteSafe(cache, mem, Stored(mem, paddr, len, data), paddr, len)
    ensures Coherent(WriteEffect(cache, Stored(mem, paddr, len, data), paddr, len), Stored(mem, paddr, len, data))
  {
    var mem' := Stored(mem, paddr, len, data);
    StoredMeaning(mem, paddr, len, data);
    hide StraddledWriteSafe, LineCoherent, WriteEffect, Stored;
    forall k | 0 <= k < LINES
      ensures LineCoherent(WriteEffect(cache, mem', paddr, len)[k], k / 8, mem')
    {
      SafeLineCoherent(cache, mem, mem', paddr, len, k);
    }
  }

  lemma CoherentLine(cache: seq<Line>, mem: seq<byte>, group: nat, j: nat)
    requires Coherent(cache, mem) && group < SETS && j < WAYS
    ensures LineCoherent(cache[group * 8 + j], (group * 8 + j) / 8, mem)
  {
    assert group * 8 + j < LINES;
  }

  lemma FirstLinesRight(cache: seq<Line>, mem': seq<byte>, paddr: uint32, len: nat)
    requires |cache| == LINES && |mem'| == MEM_SIZE && WriteFits(cache, paddr, len) && Straddles(paddr, len)
    requires LineStart(paddr) + 64 <= MEM_SIZE && Coherent(WriteEffect(cache, mem', paddr, len), mem')
    ensures forall m: nat :: m < Matches(cache, GroupNum(paddr), TagOf(paddr), 8) ==> RefreshedRight(mem', LineStart(paddr), m)
  {
    hide LineBase, LineCoherent, BlockAt, RefreshedRight, WriteEffect, WriteFits, Coherent, Matches;
    hide GroupNum, TagOf, BlockNum, LineStart, NextLine;
    forall m: nat | m < Matches(cache, GroupNum(paddr), TagOf(paddr), 8)
      ensures RefreshedRight(mem', LineStart(paddr), m)
    {
      var j := MatchNumbered(cache, GroupNum(paddr), TagOf(paddr), m, 8);
      FirstLineCoherentIff(cache, mem', paddr, len, j);
      CoherentLine(WriteEffect(cache, mem', paddr, len), mem', GroupNum(paddr), j);
    }
  }

  lemma UnrefreshedRight(cache: seq<Line>, mem: seq<byte>, mem': seq<byte>, paddr: uint32, len: nat)
    requires Coherent(cache, mem) && |mem'| == MEM_SIZE && WriteFits(cache, paddr, len) && Straddles(paddr, len)
    requires Coherent(WriteEffect(cache, mem', paddr, len), mem') && Matches(cache, GroupNum(paddr), TagOf(paddr), 8) == 0
    requires NextLine(paddr) < MEM_SIZE && LineStart(paddr) + 128 <= MEM_SIZE
    ensures Resident(cache, GroupNum(NextLine(paddr)), TagOf(NextLine(paddr))) ==>
              BlockAt(mem', LineStart(paddr) + 64) == BlockAt(mem, LineStart(paddr) + 64)
  {
    CoherentSizes(cache, mem);
    hide LineBase, LineCoherent, BlockAt, WriteEffect, WriteFits, Coherent, Matches;
    hide GroupNum, TagOf, BlockNum, LineStart, NextLine;
    var group, tag := GroupNum(NextLine(paddr)), TagOf(NextLine(paddr));
    if Resident(cache, group, tag) {
      var j: nat :| j < WAYS && WayHolds(cache, group, tag, j);
      UnrefreshedCoherentIff(cache, mem, mem', paddr, len, j);
      CoherentLine(WriteEffect(cache, mem', paddr, len), mem', group, j);
    }
  }

  lemma SecondLineRight(cache: seq<Line>, mem': seq<byte>, paddr: uint32, len: nat)
    requires |cache| == LINES && |mem'| == MEM_SIZE && WriteFits(cache, paddr, len) && Straddles(paddr, len)
    requires Coherent(WriteEffect(cache, mem', paddr, len), mem') && Matches(cache, GroupNum(paddr), TagOf(paddr), 8) > 0
    requires LineStart(paddr) + 64 * Matches(cache, GroupNum(paddr), TagOf(paddr), 8) + 64 <= MEM_SIZE
    requires LineStart(paddr) + 128 <= MEM_SIZE && GroupNum(paddr) + 1 < SETS
    ensures Resident(cache, GroupNum(paddr) + 1, TagOf(paddr)) ==>
              BlockAt(mem', LineStart(paddr) + 64 * Matches(cache, GroupNum(paddr), TagOf(paddr), 8)) ==
              BlockAt(mem', LineStart(paddr) + 64)
  {
    hide LineBase, LineCoherent, BlockAt, WriteEffect, WriteFits, Coherent, Matches;
    hide GroupNum, TagOf, BlockNum, LineStart, NextLine;
    var group, tag := GroupNum(paddr), TagOf(paddr);
    if Resident(cache, group + 1, tag) {
      var j: nat :| j < WAYS && WayHolds(cache, group + 1, tag, j);
      SecondLineCoherentIff(cache, mem', paddr, len, j);
      CoherentLine(WriteEffect(cache, mem', paddr, len), mem', group + 1, j);
    }
  }

  lemma CoherentIsSafe(cache: seq<Line>, mem: seq<byte>, paddr: uint32, len: nat, data: nat)
    requires Coherent(cache, mem) && WriteFits(cache, paddr, len) && Straddles(paddr, len)
    requires Coherent(WriteEffect(cache, Stored(mem, paddr, len, data), paddr, len), Stored(mem, paddr, len, data))
    ensures StraddledWriteSafe(cache, mem, Stored(mem, paddr, len, data), paddr, len)
  {
    var mem' := Stored(mem, paddr, len, data);
    CoherentSizes(cache, mem);
    LineInBounds(paddr, len);
    NextLineSet(paddr, len);
    hide Stored, LineBase, LineCoherent, BlockAt, RefreshedRight, WriteEffect, Coherent, Matches, Resident;
    hide GroupNum, TagOf, BlockNum, LineStart, NextLine, Straddles;
    if Matches(cache, GroupNum(paddr), TagOf(paddr), 8) == 0 {
      UnrefreshedRight(cache, mem, mem', paddr, len);
    } else {
      FirstLinesRight(cache, mem', paddr, len);
      SecondLineRight(cache, mem', paddr, len);
    }
  }

  /** Enough for safety: the first line is held once, or neither line is held. */
  lemma SafeWhenSingle(cache: seq<Line>, mem: seq<byte>, mem': seq<byte>, paddr: uint32, len: nat)
    requires |cache| == LINES && |mem| == |mem'| == MEM_SIZE && WriteFits(cache, paddr, len) && Straddles(paddr, len)
    requires NextLine(paddr) < MEM_SIZE
    requires var n := Matches(cache, GroupNum(paddr), TagOf(paddr), 8);
             n == 1 || (n == 0 && !Resident(cache, GroupNum(NextLine(paddr)), TagOf(NextLine(paddr))))
    ensures StraddledWriteSafe(cache, mem, mem', paddr, len)
  {
    LineInBounds(paddr, len);
  }

  /** A line held twice is spoiled by a straddling write as soon as its two lines differ. */
  lemma UnsafeWhenDuplicated(cache: seq<Line>, mem: seq<byte>, mem': seq<byte>, paddr: uint32, len: nat)
    requires |cache| == LINES && |mem| == |mem'| == MEM_SIZE && WriteFits(cache, paddr, len) && Straddles(paddr, len)
    requires Matches(cache, GroupNum(paddr), TagOf(paddr), 8) >= 2
    requires LineStart(paddr) + 128 <= MEM_SIZE && BlockAt(mem', LineStart(paddr) + 64) != BlockAt(mem', LineStart(paddr))
    ensures !StraddledWriteSafe(cache, mem, mem', paddr, len)
  {
    LineInBounds(paddr, len);
    assert !RefreshedRight(mem', LineStart(paddr), 1);
  }

  // ----- one step of the write scan

  /** The cache after the first j ways of a set were refreshed from p where they hold the tag. */
  function SetRefreshed(cache: seq<Line>, mem: seq<byte>, group: nat, tag: nat, p: nat, j: nat): (cache': seq<Line>)
    requires |cache| == LINES && group < SETS && p + 64 <= |mem| && j <= WAYS
    ensures |cache'| == LINES
  {
    seq(LINES, k requires 0 <= k < LINES =>
      if k / 8 == group && k % 8 < j && cache[k].valid && cache[k].tag == tag then Refresh(cache[k], mem, p) else cache[k])
  }

  /** Where the write scan copies from when it reaches way i. */
  function ScanPosition(cache: seq<Line>, paddr: uint32, len: nat, i: nat): nat
    requires |cache| == LINES && i <= WAYS
  {
    LineStart(paddr) + (if Straddles(paddr, len) then 64 * Matches(cache, GroupNum(paddr), TagOf(paddr), i) else 0)
  }

  lemma RefreshedBegins(cache: seq<Line>, mem: seq<byte>, paddr: uint32, len: nat)
    requires |cache| == LINES && |mem| == MEM_SIZE && WriteFits(cache, paddr, len)
    ensures Refreshed(cache, mem, paddr, len, 0) == cache
  {
  }

  /** The fields that the scan tests are not changed by it. */
  lemma RefreshedKeepsTags(cache: seq<Line>, mem: seq<byte>, paddr: uint32, len: nat, i: nat, k: nat)
    requires |cache| == LINES && |mem| == MEM_SIZE && WriteFits(cache, paddr, len) && i <= 8 && k < LINES
    ensures Refreshed(cache, mem, paddr, len, i)[k].valid == cache[k].valid
    ensures Refreshed(cache, mem, paddr, len, i)[k].tag == cache[k].tag
  {
  }

  lemma RefreshedSkip(cache: seq<Line>, mem: seq<byte>, paddr: uint32, len: nat, i: nat)
    requires |cache| == LINES && |mem| == MEM_SIZE && WriteFits(cache, paddr, len) && i < 8
    requires !WayHolds(cache, GroupNum(paddr), TagOf(paddr), i)
    ensures Refreshed(cache, mem, paddr, len, i + 1) == Refreshed(cache, mem, paddr, len, i)
  {
    hide GroupNum, TagOf, BlockNum, LineStart, Straddles, Refresh;
    forall k | 0 <= k < LINES
      ensures RefreshedLine(cache, mem, paddr, len, i + 1, k) == RefreshedLine(cache, mem, paddr, len, i, k)
    {
      assert k == k / 8 * 8 + k % 8;
    }
  }

  lemma RefreshedInLine(cache: seq<Line>, mem: seq<byte>, paddr: uint32, len: nat, i: nat)
    requires |cache| == LINES && |mem| == MEM_SIZE && WriteFits(cache, paddr, len) && i < 8
    requires WayHolds(cache, GroupNum(paddr), TagOf(paddr), i) && !Straddles(paddr, len)
    ensures LineStart(paddr) + 64 <= |mem|
    ensures var c := Refreshed(cache, mem, paddr, len, i);
            var k := GroupNum(paddr) * 8 + i;
            Refreshed(cache, mem, paddr, len, i + 1) == c[k := Refresh(c[k], mem, LineStart(paddr))]
  {
    LineInBounds(paddr, len);
    hide LineBase, GroupNum, TagOf, BlockNum, LineStart, Straddles;
    var c, k := Refreshed(cache, mem, paddr, len, i), GroupNum(paddr) * 8 + i;
    var c' := c[k := Refresh(c[k], mem, LineStart(paddr))];
    forall j | 0 <= j < LINES
      ensures RefreshedLine(cache, mem, paddr, len, i + 1, j) == c'[j]
    {
      assert j == j / 8 * 8 + j % 8;
    }
  }

  lemma RefreshedAcross(cache: seq<Line>, mem: seq<byte>, paddr: uint32, len: nat, i: nat)
    requires |cache| == LINES && |mem| == MEM_SIZE && WriteFits(cache, paddr, len) && i < 8
    requires WayHolds(cache, GroupNum(paddr), TagOf(paddr), i) && Straddles(paddr, len)
    ensures GroupNum(paddr) < SETS - 1
    ensures var p := LineStart(paddr) + 64 * Matches(cache, GroupNum(paddr), TagOf(paddr), i);
            var c := Refreshed(cache, mem, paddr, len, i);
            var k := GroupNum(paddr) * 8 + i;
            p + 128 <= |mem| &&
            Refreshed(cache, mem, paddr, len, i + 1) ==
            SetRefreshed(c[k := Refresh(c[k], mem, p)], mem, GroupNum(paddr) + 1, TagOf(paddr), p + 64, 8)
  {
    ResidentMatches(cache, GroupNum(paddr), TagOf(paddr), i);
    LineInBounds(paddr, len);
    hide LineBase, GroupNum, TagOf, BlockNum, LineStart, Straddles, NextLine;
    var p := LineStart(paddr) + 64 * Matches(cache, GroupNum(paddr), TagOf(paddr), i);
    var c, k := Refreshed(cache, mem, paddr, len, i), GroupNum(paddr) * 8 + i;
    var c' := SetRefreshed(c[k := Refresh(c[k], mem, p)], mem, GroupNum(paddr) + 1, TagOf(paddr), p + 64, 8);
    forall j | 0 <= j < LINES
      ensures RefreshedLine(cache, mem, paddr, len, i + 1, j) == c'[j]
    {
      assert j == j / 8 * 8 + j % 8;
    }
  }

  lemma SetRefreshedStep(cache: seq<Line>, mem: seq<byte>, group: nat, tag: nat, p: nat, j: nat)
    requires |cache| == LINES && group < SETS && p + 64 <= |mem| && j < WAYS
    ensures SetRefreshed(cache, mem, group, tag, p, 0) == cache
    ensures var c := SetRefreshed(cache, mem, group, tag, p, j);
            var k := group * 8 + j;
            && c[k] == cache[k]
            && SetRefreshed(cache, mem, group, tag, p, j + 1) ==
               if WayHolds(cache, group, tag, j) then c[k := Refresh(c[k], mem, p)] else c
  {
    var c, k := SetRefreshed(cache, mem, group, tag, p, j), group * 8 + j;
    assert k / 8 == group && k % 8 == j;
    var c' := if WayHolds(cache, group, tag, j) then c[k := Refresh(c[k], mem, p)] else c;
    forall i | 0 <= i < LINES
      ensures SetRefreshed(cache, mem, group, tag, p, j + 1)[i] == c'[i]
    {
      assert i == i / 8 * 8 + i % 8;
    }
  }
}
