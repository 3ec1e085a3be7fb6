/**
 What reads change in the cache, nemu/src/memory/cache.c, and when a set comes to hold a line
 twice: which accesses do it, where in memory it can happen, and what it leads to.
 */
module CacheDuplicates {
  import opened Arithmetic
  import opened FlatMemory
  import opened Cache
  import opened CacheWrites
  import opened CacheRuns

  // ----- lines held twice

  /** Two ways of a set are valid and hold the same tag. */
  predicate SameLine(cache: seq<Line>, group: nat, i: nat, j: nat)
    requires |cache| == LINES && group < SETS && i < WAYS && j < WAYS
  {
    cache[group * 8 + i].valid && cache[group * 8 + j].valid && cache[group * 8 + i].tag == cache[group * 8 + j].tag
  }

  predicate NoDuplicates(cache: seq<Line>) {
    && |cache| == LINES
    && forall g: nat, i: nat, j: nat :: g < SETS && i < j < WAYS ==> !SameLine(cache, g, i, j)
  }

  /**
   A miss changes exactly one way, of the addressed set: the first one that is not valid, or way 0
   if all are.  That way then holds the line of memory.
   */
  lemma MissChangesOneWay(cache: seq<Line>, mem: seq<byte>, paddr: uint32)
    requires Coherent(cache, mem) && paddr < MEM_SIZE
    requires !Resident(cache, GroupNum(paddr), TagOf(paddr))
    ensures var cache' := ReadLine(cache, mem, paddr);
            var way := VictimFrom(cache, GroupNum(paddr), 0);
            && cache'[GroupNum(paddr) * 8 + way] != cache[GroupNum(paddr) * 8 + way]
            && (forall k :: 0 <= k < LINES && k != GroupNum(paddr) * 8 + way ==> cache'[k] == cache[k])
            && (forall i: nat :: i < way ==> !FreeWay(cache, GroupNum(paddr), i))
            && (!FreeWay(cache, GroupNum(paddr), way) ==>
                  way == 0 && forall i: nat :: i < WAYS ==> !FreeWay(cache, GroupNum(paddr), i))
            && LineStart(paddr) + 64 <= |mem|
            && cache'[GroupNum(paddr) * 8 + way] == CacheLine(true, TagOf(paddr), mem[LineStart(paddr)..LineStart(paddr) + 64])
  {
    CoherentSizes(cache, mem);
    hide LineBase, Coherent, GroupNum, TagOf, BlockNum, LineStart;
    var group := GroupNum(paddr);
    var way := VictimFrom(cache, group, 0);
    assert !WayHolds(cache, group, TagOf(paddr), way);
  }

  /** A hit changes nothing, and after any read within one line repeating it changes nothing. */
  lemma RepeatedReadChangesNothing(cache: seq<Line>, mem: seq<byte>, paddr: uint32, len: nat)
    requires Coherent(cache, mem) && InBounds(paddr, len) && Supported(len) && !Straddles(paddr, len)
    ensures var cache' := ReadEffect(cache, mem, paddr, len);
            && (Resident(cache, GroupNum(paddr), TagOf(paddr)) ==> cache' == cache)
            && Resident(cache', GroupNum(paddr), TagOf(paddr))
            && ReadEffect(cache', mem, paddr, len) == cache'
  {
    hide Coherent, Resident, Fill;
    ReadLineCoherent(cache, mem, paddr);
  }

  lemma ReadLineKeepsUnique(cache: seq<Line>, mem: seq<byte>, paddr: uint32)
    requires |cache| == LINES && |mem| == MEM_SIZE && paddr < MEM_SIZE
    requires NoDuplicates(cache)
    ensures NoDuplicates(ReadLine(cache, mem, paddr))
  {
    hide GroupNum, TagOf, BlockNum, LineStart;
    var group, tag := GroupNum(paddr), TagOf(paddr);
    if !Resident(cache, group, tag) {
      var way := VictimFrom(cache, group, 0);
      var cache' := Fill(cache, mem, paddr);
      forall g: nat, i: nat, j: nat | g < SETS && i < j < WAYS
        ensures !SameLine(cache', g, i, j)
      {
        assert !SameLine(cache, g, i, j);
        assert g == group ==> !WayHolds(cache, group, tag, i) && !WayHolds(cache, group, tag, j);
      }
    }
  }

  lemma WriteKeepsUnique(cache: seq<Line>, mem: seq<byte>, paddr: uint32, len: nat)
    requires |cache| == LINES && |mem| == MEM_SIZE && WriteFits(cache, paddr, len)
    requires NoDuplicates(cache)
    ensures NoDuplicates(WriteEffect(cache, mem, paddr, len))
  {
    hide RefreshedLine, WriteFits;
    var cache' := WriteEffect(cache, mem, paddr, len);
    forall k | 0 <= k < LINES
      ensures cache'[k].valid == cache[k].valid && cache'[k].tag == cache[k].tag
    {
      RefreshedKeepsTags(cache, mem, paddr, len, 8, k);
    }
    forall g: nat, i: nat, j: nat | g < SETS && i < j < WAYS
      ensures !SameLine(cache', g, i, j)
    {
      assert !SameLine(cache, g, i, j);
    }
  }

  /** The line at hand is held, but the last way with its tag field is not valid: the scan ends in a miss. */
  ghost predicate MissesHeldLine(cache: seq<Line>, group: nat, tag: nat)
    requires |cache| == LINES && group < SETS
  {
    Resident(cache, group, tag) && !LastMatchFrom(cache, group, tag, 0, false)
  }

  /** If a way holds the tag, the scan misses only because of a later way with the tag that is not valid. */
  lemma {:induction false} MissHasFreeWay(cache: seq<Line>, group: nat, tag: nat, i: nat, hit: bool) returns (j: nat)
    requires |cache| == LINES && group < SETS && i <= WAYS
    requires hit || exists j: nat :: i <= j < WAYS && WayHolds(cache, group, tag, j)
    requires !LastMatchFrom(cache, group, tag, i, hit)
    ensures i <= j < WAYS && FreeWay(cache, group, j) && cache[group * 8 + j].tag == tag
    decreases WAYS - i
  {
    if cache[group * 8 + i].tag == tag && !cache[group * 8 + i].valid {
      j := i;
    } else {
      var hit' := if cache[group * 8 + i].tag == tag then true else hit;
      assert !hit' ==> exists j: nat :: i + 1 <= j < WAYS && WayHolds(cache, group, tag, j);
      j := MissHasFreeWay(cache, group, tag, i + 1, hit');
    }
  }

  lemma FillDuplicates(cache: seq<Line>, mem: seq<byte>, paddr: uint32, i: nat, j: nat)
    requires |cache| == LINES && |mem| == MEM_SIZE && paddr < MEM_SIZE && i < WAYS && j < WAYS
    requires WayHolds(cache, GroupNum(paddr), TagOf(paddr), i) && FreeWay(cache, GroupNum(paddr), j)
    ensures !NoDuplicates(Fill(cache, mem, paddr))
  {
    var group := GroupNum(paddr);
    var way := VictimFrom(cache, group, 0);
    assert FreeWay(cache, group, way) && way != i;
    var cache' := Fill(cache, mem, paddr);
    assert SameLine(cache', group, if way < i then way else i, if way < i then i else way);
  }

  /**
   A read makes a set hold a line twice exactly if it straddles two lines, its first line is
   held, and the scan nevertheless ends in a miss.
   */
  lemma ReadDuplicatesIff(cache: seq<Line>, mem: seq<byte>, paddr: uint32, len: nat)
    requires |mem| == MEM_SIZE && NoDuplicates(cache) && InBounds(paddr, len) && 0 < len <= 4
    ensures NoDuplicates(ReadEffect(cache, mem, paddr, len)) <==>
            !(Straddles(paddr, len) && MissesHeldLine(cache, GroupNum(paddr), TagOf(paddr)))
  {
    hide NoDuplicates, Fill, GroupNum, TagOf, BlockNum, LineStart, LastMatchFrom, LineBase, Straddles;
    UniqueSize(cache);
    var group, tag := GroupNum(paddr), TagOf(paddr);
    ReadLineKeepsUnique(cache, mem, paddr);
    if Straddles(paddr, len) {
      NextLineSet(paddr, len);
      if Resident(cache, group, tag) {
        ReadLineKeepsUnique(cache, mem, NextLine(paddr));
        ReadLineFrame(cache, mem, NextLine(paddr));
        if !LastMatchFrom(cache, group, tag, 0, false) {
          var i: nat :| i < WAYS && WayHolds(cache, group, tag, i);
          var j := MissHasFreeWay(cache, group, tag, 0, false);
          assert (group * 8 + i) / 8 == group && (group * 8 + j) / 8 == group;
          FillDuplicates(ReadLine(cache, mem, NextLine(paddr)), mem, paddr, i, j);
        }
      } else {
        NoMatchMisses(cache, group, tag, 0, false);
      }
    }
  }

  lemma UniqueSize(cache: seq<Line>)
    requires NoDuplicates(cache)
    ensures |cache| == LINES
  {
  }

  // ----- over runs

  /** The access stays inside the arrays. */
  ghost predicate Fits(cache: seq<Line>, a: Access)
    requires |cache| == LINES
  {
    InBounds(a.paddr, a.len) && Supported(a.len) && (a.Write? ==> WriteFits(cache, a.paddr, a.len))
  }

  ghost predicate FittingRun(cache: seq<Line>, mem: seq<byte>, run: seq<Access>)
    requires |cache| == LINES && |mem| == MEM_SIZE
    decreases |run|
  {
    run == [] ||
    (Fits(cache, run[0]) && FittingRun(CacheStep(cache, mem, run[0]), FlatStep(mem, run[0]), run[1..]))
  }

  /** The cache at the end of a run. */
  ghost function CacheAfter(cache: seq<Line>, mem: seq<byte>, run: seq<Access>): (cache': seq<Line>)
    requires |cache| == LINES && |mem| == MEM_SIZE && FittingRun(cache, mem, run)
    ensures |cache'| == LINES
    decreases |run|
  {
    if run == [] then cache
    else CacheAfter(CacheStep(cache, mem, run[0]), FlatStep(mem, run[0]), run[1..])
  }

  /** The access is a read that makes a set hold a line twice. */
  ghost predicate Duplicates(cache: seq<Line>, a: Access)
    requires |cache| == LINES
  {
    a.Read? && Straddles(a.paddr, a.len) && MissesHeldLine(cache, GroupNum(a.paddr), TagOf(a.paddr))
  }

  /** No access of the run does. */
  ghost predicate NeverDuplicates(cache: seq<Line>, mem: seq<byte>, run: seq<Access>)
    requires |cache| == LINES && |mem| == MEM_SIZE && FittingRun(cache, mem, run)
    decreases |run|
  {
    run == [] ||
    (!Duplicates(cache, run[0]) && NeverDuplicates(CacheStep(cache, mem, run[0]), FlatStep(mem, run[0]), run[1..]))
  }

  lemma StepDuplicatesIff(cache: seq<Line>, mem: seq<byte>, a: Access)
    requires |mem| == MEM_SIZE && NoDuplicates(cache) && Fits(cache, a)
    ensures NoDuplicates(CacheStep(cache, mem, a)) <==> !Duplicates(cache, a)
  {
    UniqueSize(cache);
    hide NoDuplicates, ReadEffect, WriteEffect, WriteFits, Stored, MissesHeldLine, Straddles;
    if a.Read? {
      ReadDuplicatesIff(cache, mem, a.paddr, a.len);
    } else {
      WriteKeepsUnique(cache, Stored(mem, a.paddr, a.len, a.data), a.paddr, a.len);
    }
  }

  /** As long as no such read occurs, no set holds a line twice. */
  lemma {:induction false} RunsStayUnique(cache: seq<Line>, mem: seq<byte>, run: seq<Access>)
    requires |mem| == MEM_SIZE && NoDuplicates(cache) && FittingRun(cache, mem, run)
    requires NeverDuplicates(cache, mem, run)
    ensures NoDuplicates(CacheAfter(cache, mem, run))
    decreases |run|
  {
    UniqueSize(cache);
    hide NoDuplicates, CacheStep, FlatStep, WriteFits, Duplicates;
    if run != [] {
      StepDuplicatesIff(cache, mem, run[0]);
      RunsStayUnique(CacheStep(cache, mem, run[0]), FlatStep(mem, run[0]), run[1..]);
    }
  }

  predicate AllInLine(run: seq<Access>) {
    forall a :: a in run ==> !Straddles(a.paddr, a.len)
  }

  /** Over runs that stay in one line no set ever holds a line twice. */
  lemma {:induction false} InLineRunsStayUnique(cache: seq<Line>, mem: seq<byte>, run: seq<Access>)
    requires |cache| == LINES && |mem| == MEM_SIZE && NoDuplicates(cache)
    requires InMemory(run) && AllInLine(run)
    ensures FittingRun(cache, mem, run) && NoDuplicates(CacheAfter(cache, mem, run))
    decreases |run|
  {
    hide NoDuplicates, CacheStep, FlatStep, MissesHeldLine, Straddles;
    if run != [] {
      var a := run[0];
      assert run[0] in run;
      InLineFits(cache, a);
      StepDuplicatesIff(cache, mem, a);
      assert forall b :: b in run[1..] ==> b in run;
      InLineRunsStayUnique(CacheStep(cache, mem, a), FlatStep(mem, a), run[1..]);
    }
  }

  lemma InLineFits(cache: seq<Line>, a: Access)
    requires |cache| == LINES && InBounds(a.paddr, a.len) && Supported(a.len) && !Straddles(a.paddr, a.len)
    ensures Fits(cache, a)
  {
  }

  // ----- above 8 KB

  /** Lines that are not valid have tag 0, and so have all lines held twice. */
  ghost predicate LowDuplicates(cache: seq<Line>) {
    && |cache| == LINES
    && (forall k :: 0 <= k < LINES && !cache[k].valid ==> cache[k].tag == 0)
    && forall g: nat, i: nat, j: nat :: g < SETS && i < j < WAYS && SameLine(cache, g, i, j) ==> cache[g * 8 + i].tag == 0
  }

  lemma FillKeepsLow(cache: seq<Line>, mem: seq<byte>, paddr: uint32)
    requires LowDuplicates(cache) && |mem| == MEM_SIZE && paddr < MEM_SIZE
    requires TagOf(paddr) == 0 || !Resident(cache, GroupNum(paddr), TagOf(paddr))
    ensures LowDuplicates(Fill(cache, mem, paddr))
  {
    hide GroupNum, TagOf, BlockNum, LineStart;
    var group, tag := GroupNum(paddr), TagOf(paddr);
    var cache' := Fill(cache, mem, paddr);
    forall g: nat, i: nat, j: nat | g < SETS && i < j < WAYS && SameLine(cache', g, i, j)
      ensures cache'[g * 8 + i].tag == 0
    {
      assert SameLine(cache, g, i, j) ==> cache[g * 8 + i].tag == 0;
      assert tag != 0 ==> !WayHolds(cache, group, tag, i) && !WayHolds(cache, group, tag, j);
    }
  }

  lemma ReadKeepsLow(cache: seq<Line>, mem: seq<byte>, paddr: uint32, len: nat)
    requires LowDuplicates(cache) && |mem| == MEM_SIZE && InBounds(paddr, len) && 0 < len <= 4
    ensures LowDuplicates(ReadEffect(cache, mem, paddr, len))
  {
    LowSize(cache);
    hide Fill, GroupNum, TagOf, BlockNum, LineStart, LastMatchFrom, LineBase, Straddles;
    var group, tag := GroupNum(paddr), TagOf(paddr);
    if Straddles(paddr, len) {
      NextLineSet(paddr, len);
      if Resident(cache, group, tag) {
        ReadLineKeepsLow(cache, mem, NextLine(paddr));
        if !LastMatchFrom(cache, group, tag, 0, false) {
          var j := MissHasFreeWay(cache, group, tag, 0, false);
          assert tag == 0;
          FillKeepsLow(ReadLine(cache, mem, NextLine(paddr)), mem, paddr);
        }
      } else {
        NoMatchMisses(cache, group, tag, 0, false);
        FillKeepsLow(cache, mem, paddr);
      }
    } else {
      ReadLineKeepsLow(cache, mem, paddr);
    }
  }

  lemma ReadLineKeepsLow(cache: seq<Line>, mem: seq<byte>, paddr: uint32)
    requires LowDuplicates(cache) && |mem| == MEM_SIZE && paddr < MEM_SIZE
    ensures |cache| == LINES && LowDuplicates(ReadLine(cache, mem, paddr))
  {
    LowSize(cache);
    hide LowDuplicates, Fill;
    if !Resident(cache, GroupNum(paddr), TagOf(paddr)) {
      FillKeepsLow(cache, mem, paddr);
    }
  }

  lemma LowSize(cache: seq<Line>)
    requires LowDuplicates(cache)
    ensures |cache| == LINES
  {
  }

  lemma WriteKeepsLow(cache: seq<Line>, mem: seq<byte>, paddr: uint32, len: nat)
    requires LowDuplicates(cache) && |mem| == MEM_SIZE && WriteFits(cache, paddr, len)
    ensures LowDuplicates(WriteEffect(cache, mem, paddr, len))
  {
    hide RefreshedLine, WriteFits;
    var cache' := WriteEffect(cache, mem, paddr, len);
    forall k | 0 <= k < LINES
      ensures cache'[k].valid == cache[k].valid && cache'[k].tag == cache[k].tag
    {
      RefreshedKeepsTags(cache, mem, paddr, len, 8, k);
    }
    forall g: nat, i: nat, j: nat | g < SETS && i < j < WAYS && SameLine(cache', g, i, j)
      ensures cache'[g * 8 + i].tag == 0
    {
      assert SameLine(cache, g, i, j);
    }
  }

  /** Over every run from the zeroed cache, at any alignment, only lines below 8 KB are ever held twice. */
  lemma {:induction false} HighLinesStayUnique(cache: seq<Line>, mem: seq<byte>, run: seq<Access>)
    requires LowDuplicates(cache) && |mem| == MEM_SIZE && FittingRun(cache, mem, run)
    ensures LowDuplicates(CacheAfter(cache, mem, run))
    decreases |run|
  {
    LowSize(cache);
    hide LowDuplicates, CacheStep, FlatStep, WriteFits;
    if run != [] {
      StepKeepsLow(cache, mem, run[0]);
      HighLinesStayUnique(CacheStep(cache, mem, run[0]), FlatStep(mem, run[0]), run[1..]);
    }
  }

  lemma StepKeepsLow(cache: seq<Line>, mem: seq<byte>, a: Access)
    requires |cache| == LINES && LowDuplicates(cache) && |mem| == MEM_SIZE && Fits(cache, a)
    ensures LowDuplicates(CacheStep(cache, mem, a))
  {
    hide LowDuplicates, ReadEffect, WriteEffect, WriteFits, Stored;
    if a.Read? {
      ReadKeepsLow(cache, mem, a.paddr, a.len);
    } else {
      WriteKeepsLow(cache, Stored(mem, a.paddr, a.len, a.data), a.paddr, a.len);
    }
  }

  /** What init_cache makes of the static array. */
  predicate Zeroed(cache: seq<Line>) {
    |cache| == LINES && forall k :: 0 <= k < LINES ==> !cache[k].valid && cache[k].tag == 0
  }

  lemma ZeroedIsLow(cache: seq<Line>)
    requires Zeroed(cache)
    ensures LowDuplicates(cache) && NoDuplicates(cache)
  {
  }

  /** A line that is not held twice is matched at most once. */
  lemma {:induction false} MatchesOnce(cache: seq<Line>, group: nat, tag: nat, i: nat)
    requires |cache| == LINES && group < SETS && i <= WAYS
    requires forall j: nat, k: nat :: j < k < WAYS && WayHolds(cache, group, tag, j) ==> !WayHolds(cache, group, tag, k)
    ensures Matches(cache, group, tag, i) <= 1
    ensures Matches(cache, group, tag, i) == 0 ==> forall j: nat :: j < i ==> !WayHolds(cache, group, tag, j)
  {
    if i > 0 {
      MatchesOnce(cache, group, tag, i - 1);
      if WayHolds(cache, group, tag, i - 1) && Matches(cache, group, tag, i - 1) > 0 {
        var j := MatchNumbered(cache, group, tag, 0, i - 1);
      }
    }
  }

  /** Without duplicates a straddling write matches its first line at most once. */
  lemma UniqueMatchesOnce(cache: seq<Line>, group: nat, tag: nat, i: nat)
    requires NoDuplicates(cache) && group < SETS && i <= WAYS
    ensures Matches(cache, group, tag, i) <= 1
    ensures Matches(cache, group, tag, i) == 0 ==> forall j: nat :: j < i ==> !WayHolds(cache, group, tag, j)
  {
    forall j: nat, k: nat | j < k < WAYS && WayHolds(cache, group, tag, j)
      ensures !WayHolds(cache, group, tag, k)
    {
      assert !SameLine(cache, group, j, k);
    }
    MatchesOnce(cache, group, tag, i);
  }

  /**
   Above 8 KB, in every state that a run from the zeroed cache can reach, a straddling write
   keeps the cache coherent exactly if the first line is held, or the second one is not, or the
   write leaves its bytes as they are.
   */
  lemma HighWriteSafeIff(cache: seq<Line>, mem: seq<byte>, paddr: uint32, len: nat, data: nat)
    requires LowDuplicates(cache) && Coherent(cache, mem) && WriteFits(cache, paddr, len) && Straddles(paddr, len)
    requires TagOf(paddr) != 0 && NextLine(paddr) < MEM_SIZE && LineStart(paddr) + 128 <= MEM_SIZE
    ensures var mem' := Stored(mem, paddr, len, data);
            Coherent(WriteEffect(cache, mem', paddr, len), mem') <==>
            || Resident(cache, GroupNum(paddr), TagOf(paddr))
            || !Resident(cache, GroupNum(NextLine(paddr)), TagOf(NextLine(paddr)))
            || BlockAt(mem', LineStart(paddr) + 64) == BlockAt(mem, LineStart(paddr) + 64)
  {
    CoherentSizes(cache, mem);
    StraddledWriteCoherentIff(cache, mem, paddr, len, data);
    var group, tag, mem' := GroupNum(paddr), TagOf(paddr), Stored(mem, paddr, len, data);
    hide Coherent, Stored, WriteEffect, WriteFits, GroupNum, TagOf, BlockNum, LineStart, Straddles, NextLine;
    HighHeldOnce(cache, group, tag);
    MatchesOnce(cache, group, tag, 8);
    MatchedIffResident(cache, group, tag);
    hide LowDuplicates, Matches, Resident, BlockAt;
    SafeWhenOnce(cache, mem, mem', paddr, len);
  }

  lemma HighHeldOnce(cache: seq<Line>, group: nat, tag: nat)
    requires LowDuplicates(cache) && group < SETS && tag != 0
    ensures forall j: nat, k: nat :: j < k < WAYS && WayHolds(cache, group, tag, j) ==> !WayHolds(cache, group, tag, k)
  {
    forall j: nat, k: nat | j < k < WAYS && WayHolds(cache, group, tag, j) && WayHolds(cache, group, tag, k)
      ensures false
    {
      assert SameLine(cache, group, j, k);
    }
  }

  lemma MatchedIffResident(cache: seq<Line>, group: nat, tag: nat)
    requires |cache| == LINES && group < SETS
    ensures Resident(cache, group, tag) <==> Matches(cache, group, tag, 8) > 0
  {
    if Resident(cache, group, tag) {
      var i: nat :| i < WAYS && WayHolds(cache, group, tag, i);
      ResidentMatches(cache, group, tag, i);
    } else if Matches(cache, group, tag, 8) > 0 {
      var i := MatchNumbered(cache, group, tag, 0, 8);
    }
  }

  lemma SafeWhenOnce(cache: seq<Line>, mem: seq<byte>, mem': seq<byte>, paddr: uint32, len: nat)
    requires |cache| == LINES && |mem| == |mem'| == MEM_SIZE && WriteFits(cache, paddr, len) && Straddles(paddr, len)
    requires Matches(cache, GroupNum(paddr), TagOf(paddr), 8) <= 1
    requires NextLine(paddr) < MEM_SIZE && LineStart(paddr) + 128 <= MEM_SIZE
    ensures StraddledWriteSafe(cache, mem, mem', paddr, len) <==>
            || Matches(cache, GroupNum(paddr), TagOf(paddr), 8) == 1
            || !Resident(cache, GroupNum(NextLine(paddr)), TagOf(NextLine(paddr)))
            || BlockAt(mem', LineStart(paddr) + 64) == BlockAt(mem, LineStart(paddr) + 64)
  {
    LineInBounds(paddr, len);
    hide LineBase, WriteFits, Matches, GroupNum, TagOf, BlockNum, LineStart;
  }
}
