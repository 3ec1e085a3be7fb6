/**
 Whole runs of reads and writes through the cache: they return what the flat memory returns.
 */
module CacheRuns {
  import opened Arithmetic
  import opened FlatMemory
  import opened Cache
  import opened CacheWrites
  import opened CacheMachine

  datatype Access = Read(paddr: uint32, len: nat) | Write(paddr: uint32, len: nat, data: uint32)

  predicate Supported(len: nat) {
    len == 1 || len == 2 || len == 4
  }

  // ----- the reference: flat little-endian memory

  function FlatStep(mem: seq<byte>, a: Access): (mem': seq<byte>)
    requires |mem| == MEM_SIZE && InBounds(a.paddr, a.len)
    ensures |mem'| == MEM_SIZE
  {
    match a
    case Read(_, _) => mem
    case Write(paddr, len, data) => Stored(mem, paddr, len, data)
  }

  predicate InMemory(run: seq<Access>) {
    forall a :: a in run ==> InBounds(a.paddr, a.len) && Supported(a.len)
  }

  /** The values the reads of a run return from flat memory, in order. */
  function FlatRun(mem: seq<byte>, run: seq<Access>): seq<uint32>
    requires |mem| == MEM_SIZE && InMemory(run)
    decreases |run|
  {
    if run == [] then []
    else
      var rest := FlatRun(FlatStep(mem, run[0]), run[1..]);
      if run[0].Read? then
        LoadedWord(mem, run[0].paddr, run[0].len);
        [Loaded(mem, run[0].paddr, run[0].len)] + rest
      else
        rest
  }

  /** Flat memory at the end of a run. */
  function FlatAfter(mem: seq<byte>, run: seq<Access>): (mem': seq<byte>)
    requires |mem| == MEM_SIZE && InMemory(run)
    ensures |mem'| == MEM_SIZE
    decreases |run|
  {
    if run == [] then mem
    else
      assert run[0] in run;
      FlatAfter(FlatStep(mem, run[0]), run[1..])
  }

  // ----- the cached machine

  function CacheStep(cache: seq<Line>, mem: seq<byte>, a: Access): (cache': seq<Line>)
    requires |cache| == LINES && |mem| == MEM_SIZE && InBounds(a.paddr, a.len) && Supported(a.len)
    requires a.Write? ==> WriteFits(cache, a.paddr, a.len)
    ensures |cache'| == LINES
  {
    match a
    case Read(paddr, len) => ReadEffect(cache, mem, paddr, len)
    case Write(paddr, len, data) => WriteEffect(cache, Stored(mem, paddr, len, data), paddr, len)
  }

  /** A step that keeps the cache coherent: any read, and any write that is safe where it happens. */
  ghost predicate SafeStep(cache: seq<Line>, mem: seq<byte>, a: Access)
    requires |cache| == LINES && |mem| == MEM_SIZE
  {
    && InBounds(a.paddr, a.len) && Supported(a.len)
    && (a.Write? ==>
          && WriteFits(cache, a.paddr, a.len)
          && (Straddles(a.paddr, a.len) ==> StraddledWriteSafe(cache, mem, Stored(mem, a.paddr, a.len, a.data), a.paddr, a.len)))
  }

  ghost predicate SafeRun(cache: seq<Line>, mem: seq<byte>, run: seq<Access>)
    requires |cache| == LINES && |mem| == MEM_SIZE
    decreases |run|
  {
    run == [] ||
    (SafeStep(cache, mem, run[0]) && SafeRun(CacheStep(cache, mem, run[0]), FlatStep(mem, run[0]), run[1..]))
  }

  lemma SafeStepCoherent(cache: seq<Line>, mem: seq<byte>, a: Access)
    requires Coherent(cache, mem) && SafeStep(cache, mem, a)
    ensures Coherent(CacheStep(cache, mem, a), FlatStep(mem, a))
  {
    hide Coherent, ReadEffect, WriteEffect, StraddledWriteSafe, WriteFits, Stored;
    if a.Read? {
      ReadEffectCoherent(cache, mem, a.paddr, a.len);
    } else if Straddles(a.paddr, a.len) {
      StraddledWriteCoherentIff(cache, mem, a.paddr, a.len, a.data);
    } else {
      WriteInLineCoherent(cache, mem, a.paddr, a.len, a.data);
    }
  }

  /** A coherent cache stops being coherent at exactly the writes that are not safe. */
  lemma CoherentStepIsSafe(cache: seq<Line>, mem: seq<byte>, a: Access)
    requires Coherent(cache, mem) && InBounds(a.paddr, a.len) && Supported(a.len)
    requires a.Write? ==> WriteFits(cache, a.paddr, a.len)
    requires Coherent(CacheStep(cache, mem, a), FlatStep(mem, a))
    ensures SafeStep(cache, mem, a)
  {
    hide Coherent, ReadEffect, WriteEffect, StraddledWriteSafe, WriteFits, Stored;
    if a.Write? && Straddles(a.paddr, a.len) {
      StraddledWriteCoherentIff(cache, mem, a.paddr, a.len, a.data);
    }
  }

  lemma {:induction false} SafeRunInMemory(cache: seq<Line>, mem: seq<byte>, run: seq<Access>)
    requires |cache| == LINES && |mem| == MEM_SIZE && SafeRun(cache, mem, run)
    ensures InMemory(run)
    decreases |run|
  {
    hide CacheStep, FlatStep, StraddledWriteSafe;
    if run != [] {
      SafeRunInMemory(CacheStep(cache, mem, run[0]), FlatStep(mem, run[0]), run[1..]);
      assert forall a :: a in run ==> a == run[0] || a in run[1..];
    }
  }

  /** Runs the accesses on the machine: reads return what flat memory returns, and memory ends as flat memory does. */
  method Run(m: Machine, run: seq<Access>) returns (values: seq<uint32>)
    requires m.Valid() && SafeRun(m.cache[..], m.hwMem[..], run)
    modifies m.cache, m.hwMem
    ensures m.Valid()
    ensures InMemory(run) && values == FlatRun(old(m.hwMem[..]), run)
    ensures m.hwMem[..] == FlatAfter(old(m.hwMem[..]), run)
  {
    hide Coherent, CacheStep, FlatStep, SafeStep, StraddledWriteSafe, Loaded;
    SafeRunInMemory(m.cache[..], m.hwMem[..], run);
    ghost var mem0 := m.hwMem[..];
    values := [];
    var i := 0;
    while i < |run|
      invariant 0 <= i <= |run|
      invariant m.Valid() && SafeRun(m.cache[..], m.hwMem[..], run[i..])
      invariant InMemory(run[i..])
      invariant FlatRun(mem0, run) == values + FlatRun(m.hwMem[..], run[i..])
      invariant FlatAfter(mem0, run) == FlatAfter(m.hwMem[..], run[i..])
    {
      ghost var cache, mem := m.cache[..], m.hwMem[..];
      RunStep(cache, mem, run, i);
      var ret, done := Perform(m, run[i]);
      values := values + (if done then [ret] else []);
      i := i + 1;
    }
    assert run[i..] == [];
  }

  /** One access on the machine; done says that it was a read and ret is its value. */
  method Perform(m: Machine, a: Access) returns (ret: uint32, done: bool)
    requires m.Valid() && SafeStep(m.cache[..], m.hwMem[..], a)
    modifies m.cache, m.hwMem
    ensures m.Valid()
    ensures m.hwMem[..] == FlatStep(old(m.hwMem[..]), a)
    ensures m.cache[..] == CacheStep(old(m.cache[..]), old(m.hwMem[..]), a)
    ensures done == a.Read?
    ensures done ==> ret == Loaded(old(m.hwMem[..]), a.paddr, a.len)
  {
    hide Coherent, ReadEffect, WriteEffect, StraddledWriteSafe, WriteFits, Stored, Loaded;
    SafeStepCoherent(m.cache[..], m.hwMem[..], a);
    ret := 0;
    match a
    case Read(paddr, len) =>
      ghost var depth;
      ret, depth := m.CacheRead(paddr, len);
      done := true;
    case Write(paddr, len, data) =>
      m.CacheWrite(paddr, len, data);
      done := false;
  }

  lemma RunStep(cache: seq<Line>, mem: seq<byte>, run: seq<Access>, i: nat)
    requires |cache| == LINES && |mem| == MEM_SIZE && i < |run|
    requires SafeRun(cache, mem, run[i..]) && InMemory(run[i..])
    ensures SafeStep(cache, mem, run[i])
    ensures SafeRun(CacheStep(cache, mem, run[i]), FlatStep(mem, run[i]), run[i + 1..])
    ensures InMemory(run[i + 1..])
    ensures FlatAfter(mem, run[i..]) == FlatAfter(FlatStep(mem, run[i]), run[i + 1..])
    ensures FlatRun(mem, run[i..]) ==
            (if run[i].Read? then [Loaded(mem, run[i].paddr, run[i].len)] else []) + FlatRun(FlatStep(mem, run[i]), run[i + 1..])
  {
    hide CacheStep, FlatStep, SafeStep, StraddledWriteSafe, Loaded;
    assert run[i..][1..] == run[i + 1..];
    assert run[i..][0] == run[i];
  }

  // ----- runs whose writes stay in one line

  predicate WritesInLine(run: seq<Access>) {
    forall a :: a in run && a.Write? ==> !Straddles(a.paddr, a.len)
  }

  /** From a coherent cache every such run is safe: reads of any alignment, writes in one line. */
  lemma {:induction false} InLineWritesAreSafe(cache: seq<Line>, mem: seq<byte>, run: seq<Access>)
    requires Coherent(cache, mem) && InMemory(run) && WritesInLine(run)
    ensures SafeRun(cache, mem, run)
    decreases |run|
  {
    hide CacheStep, FlatStep, StraddledWriteSafe;
    if run != [] {
      var a := run[0];
      assert run[0] in run;
      assert InBounds(a.paddr, a.len) && Supported(a.len);
      StepInLine(cache, mem, a);
      SafeStepCoherent(cache, mem, a);
      assert forall b :: b in run[1..] ==> b in run;
      InLineWritesAreSafe(CacheStep(cache, mem, a), FlatStep(mem, a), run[1..]);
    }
  }

  lemma StepInLine(cache: seq<Line>, mem: seq<byte>, a: Access)
    requires |cache| == LINES && |mem| == MEM_SIZE && InBounds(a.paddr, a.len) && Supported(a.len)
    requires a.Write? ==> !Straddles(a.paddr, a.len)
    ensures SafeStep(cache, mem, a)
  {
  }

  /** Every run from init_cache of reads of any alignment and writes in one line returns flat memory's values. */
  method RunFromInit(m: Machine, run: seq<Access>) returns (values: seq<uint32>)
    requires m.Shape() && InMemory(run) && WritesInLine(run)
    modifies m.cache, m.hwMem
    ensures m.Valid()
    ensures values == FlatRun(old(m.hwMem[..]), run)
    ensures m.hwMem[..] == FlatAfter(old(m.hwMem[..]), run)
  {
    m.InitCache();
    InLineWritesAreSafe(m.cache[..], m.hwMem[..], run);
    values := Run(m, run);
  }
}
