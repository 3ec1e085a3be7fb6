/**
 The L1 data cache of the emulator, nemu/src/memory/cache.c: 128 sets of 8 ways with 64-byte
 lines, write-through, over the flat memory it has to agree with.
 */
module Cache {
  import opened Arithmetic
  import opened FlatMemory

  datatype CacheLine = CacheLine(valid: bool, tag: nat, data: seq<byte>)

  /** A line holds 64 bytes. */
  type Line = l: CacheLine | |l.data| == 64 witness CacheLine(false, 0, seq(64, _ => 0))

  const WAYS: nat := 8
  const SETS: nat := 128
  const LINES: nat := 1024

  // ----- addresses

  function BlockNum(paddr: uint32): nat {
    paddr % 0x40
  }

  function GroupNum(paddr: uint32): (g: nat)
    ensures g < SETS
  {
    paddr / 0x40 % 0x80
  }

  function TagOf(paddr: uint32): nat {
    paddr / 0x2000 % 0x8_0000
  }

  /** The first address of the line that a set holds under a tag. */
  function LineBase(tag: nat, group: nat): nat {
    (tag * 0x80 + group) * 0x40
  }

  /** The first address of the line that holds paddr. */
  function LineStart(paddr: uint32): (base: nat)
    ensures base <= paddr < base + 64
    ensures paddr < MEM_SIZE ==> base + 64 <= MEM_SIZE
  {
    paddr - BlockNum(paddr)
  }

  /** Block, set and tag number determine the address. */
  lemma AddressParts(paddr: uint32)
    ensures paddr == LineBase(TagOf(paddr), GroupNum(paddr)) + BlockNum(paddr)
    ensures LineStart(paddr) == LineBase(TagOf(paddr), GroupNum(paddr)) == paddr - BlockNum(paddr)
  {
  }

  /** The three fields in numbers; below 8 KB the tag is 0. */
  lemma AddressFields(paddr: uint32)
    ensures paddr == TagOf(paddr) * 0x2000 + GroupNum(paddr) * 0x40 + BlockNum(paddr)
    ensures BlockNum(paddr) < 0x40 && GroupNum(paddr) < 0x80
    ensures TagOf(paddr) == 0 <==> paddr < 0x2000
  {
  }

  lemma LineBaseParts(tag: nat, group: nat, paddr: uint32)
    requires group < SETS && paddr == LineBase(tag, group)
    ensures BlockNum(paddr) == 0 && GroupNum(paddr) == group && TagOf(paddr) == tag
  {
  }

  predicate Straddles(paddr: uint32, len: nat) {
    len + BlockNum(paddr) > 64
  }

  predicate InBounds(paddr: uint32, len: nat) {
    paddr + len <= MEM_SIZE
  }

  // ----- coherence

  /** A valid line holds the bytes of memory that its set and tag stand for. */
  predicate LineCoherent(line: Line, group: nat, mem: seq<byte>) {
    line.valid ==>
      && LineBase(line.tag, group) + 64 <= |mem|
      && line.data == mem[LineBase(line.tag, group)..LineBase(line.tag, group) + 64]
  }

  predicate Coherent(cache: seq<Line>, mem: seq<byte>) {
    && |cache| == LINES && |mem| == MEM_SIZE
    && forall k :: 0 <= k < LINES ==> LineCoherent(cache[k], k / 8, mem)
  }

  lemma CoherentSizes(cache: seq<Line>, mem: seq<byte>)
    requires Coherent(cache, mem)
    ensures |cache| == LINES && |mem| == MEM_SIZE
  {
  }

  /** Way i of the set holds the tag. */
  predicate WayHolds(cache: seq<Line>, group: nat, tag: nat, i: nat)
    requires |cache| == LINES && group < SETS && i < WAYS
  {
    cache[group * 8 + i].valid && cache[group * 8 + i].tag == tag
  }

  predicate FreeWay(cache: seq<Line>, group: nat, i: nat)
    requires |cache| == LINES && group < SETS && i < WAYS
  {
    !cache[group * 8 + i].valid
  }

  predicate Resident(cache: seq<Line>, group: nat, tag: nat)
    requires |cache| == LINES && group < SETS
  {
    exists i: nat :: i < WAYS && WayHolds(cache, group, tag, i)
  }

  // ----- what a read does to the cache

  /** The way that a miss overwrites: the first one not valid, or way 0 of a full set. */
  function VictimFrom(cache: seq<Line>, group: nat, i: nat): (way: nat)
    requires |cache| == LINES && group < SETS && i <= WAYS
    ensures way < WAYS
    ensures way == 0 || FreeWay(cache, group, way)
    ensures (exists j: nat :: i <= j < WAYS && FreeWay(cache, group, j)) ==> FreeWay(cache, group, way) && i <= way
    ensures forall j: nat :: i <= j < way ==> !FreeWay(cache, group, j)
    decreases WAYS - i
  {
    if i == WAYS then 0
    else if FreeWay(cache, group, i) then i
    else VictimFrom(cache, group, i + 1)
  }

  function BlockAt(mem: seq<byte>, base: nat): (block: seq<byte>)
    requires base + 64 <= |mem|
    ensures |block| == 64
  {
    mem[base..base + 64]
  }

  /** A miss: the line of paddr is copied from memory into the victim way. */
  function Fill(cache: seq<Line>, mem: seq<byte>, paddr: uint32): (cache': seq<Line>)
    requires |cache| == LINES && |mem| == MEM_SIZE && paddr < MEM_SIZE
    ensures |cache'| == LINES
  {
    var group := GroupNum(paddr);
    var line: Line := CacheLine(true, TagOf(paddr), BlockAt(mem, LineStart(paddr)));
    cache[group * 8 + VictimFrom(cache, group, 0) := line]
  }

  /** A read within one line. */
  function ReadLine(cache: seq<Line>, mem: seq<byte>, paddr: uint32): (cache': seq<Line>)
    requires |cache| == LINES && |mem| == MEM_SIZE && paddr < MEM_SIZE
    ensures |cache'| == LINES
  {
    if Resident(cache, GroupNum(paddr), TagOf(paddr)) then cache else Fill(cache, mem, paddr)
  }

  /** The last way from i on whose tag field matches, if any, is not valid (or the flag is kept). */
  function LastMatchFrom(cache: seq<Line>, group: nat, tag: nat, i: nat, hit: bool): bool
    requires |cache| == LINES && group < SETS && i <= WAYS
    decreases WAYS - i
  {
    if i == WAYS then hit
    else if cache[group * 8 + i].tag == tag then LastMatchFrom(cache, group, tag, i + 1, cache[group * 8 + i].valid)
    else LastMatchFrom(cache, group, tag, i + 1, hit)
  }

  /** The first address of the line after the one of paddr. */
  function NextLine(paddr: uint32): nat {
    LineStart(paddr) + 64
  }

  /** A read of any alignment: what it leaves in the cache. */
  function ReadEffect(cache: seq<Line>, mem: seq<byte>, paddr: uint32, len: nat): (cache': seq<Line>)
    requires |cache| == LINES && |mem| == MEM_SIZE && InBounds(paddr, len) && 0 < len <= 4
    ensures |cache'| == LINES
  {
    var group, tag := GroupNum(paddr), TagOf(paddr);
    if !Straddles(paddr, len) then
      ReadLine(cache, mem, paddr)
    else
      var c := if Resident(cache, group, tag) then ReadLine(cache, mem, NextLine(paddr)) else cache;
      if LastMatchFrom(cache, group, tag, 0, false) then c else Fill(c, mem, paddr)
  }

  /** The value of a read within one line: from the first way that holds it, or from memory. */
  function LineValue(cache: seq<Line>, mem: seq<byte>, paddr: uint32, len: nat): nat
    requires |cache| == LINES && |mem| == MEM_SIZE && InBounds(paddr, len) && !Straddles(paddr, len)
  {
    var way := FirstHolder(cache, GroupNum(paddr), TagOf(paddr), 0);
    var b := BlockNum(paddr);
    if way < WAYS then LittleEndian(cache[GroupNum(paddr) * 8 + way].data[b..b + len]) else Loaded(mem, paddr, len)
  }

  /** The first way from i on that holds the tag, or 8. */
  function FirstHolder(cache: seq<Line>, group: nat, tag: nat, i: nat): (way: nat)
    requires |cache| == LINES && group < SETS && i <= WAYS
    ensures i <= way <= WAYS && (way < WAYS ==> WayHolds(cache, group, tag, way))
    ensures forall j: nat :: i <= j < way ==> !WayHolds(cache, group, tag, j)
    decreases WAYS - i
  {
    if i == WAYS || WayHolds(cache, group, tag, i) then i else FirstHolder(cache, group, tag, i + 1)
  }

  // ----- coherence makes a hit return what memory holds

  lemma HitReadsMemory(cache: seq<Line>, mem: seq<byte>, paddr: uint32, len: nat, i: nat)
    requires Coherent(cache, mem) && InBounds(paddr, len) && !Straddles(paddr, len)
    requires i < WAYS && WayHolds(cache, GroupNum(paddr), TagOf(paddr), i)
    ensures var b := BlockNum(paddr);
            b + len <= 64 && cache[GroupNum(paddr) * 8 + i].data[b..b + len] == mem[paddr..paddr + len]
  {
    AddressParts(paddr);
    hide GroupNum, TagOf, LineBase;
    var k := GroupNum(paddr) * 8 + i;
    assert k / 8 == GroupNum(paddr);
    assert LineCoherent(cache[k], k / 8, mem);
    var b, base := BlockNum(paddr), LineStart(paddr);
    SubSlice(mem, base, b, len);
  }

  lemma SubSlice(mem: seq<byte>, base: nat, b: nat, len: nat)
    requires base + 64 <= |mem| && b + len <= 64
    ensures mem[base..base + 64][b..b + len] == mem[base + b..base + b + len]
  {
    var x, y := mem[base..base + 64][b..b + len], mem[base + b..base + b + len];
    assert forall j :: 0 <= j < len ==> x[j] == y[j];
  }

  /** A fill makes the line resident and leaves the other sets alone, whatever the cache holds. */
  lemma FillFrame(cache: seq<Line>, mem: seq<byte>, paddr: uint32)
    requires |cache| == LINES && |mem| == MEM_SIZE && paddr < MEM_SIZE
    ensures Resident(Fill(cache, mem, paddr), GroupNum(paddr), TagOf(paddr))
    ensures forall k :: 0 <= k < LINES && k / 8 != GroupNum(paddr) ==> Fill(cache, mem, paddr)[k] == cache[k]
  {
    hide GroupNum, TagOf, BlockNum, LineStart;
    var group, way := GroupNum(paddr), VictimFrom(cache, GroupNum(paddr), 0);
    assert (group * 8 + way) / 8 == group;
    assert WayHolds(Fill(cache, mem, paddr), group, TagOf(paddr), way);
  }

  lemma ReadLineFrame(cache: seq<Line>, mem: seq<byte>, paddr: uint32)
    requires |cache| == LINES && |mem| == MEM_SIZE && paddr < MEM_SIZE
    ensures Resident(ReadLine(cache, mem, paddr), GroupNum(paddr), TagOf(paddr))
    ensures forall k :: 0 <= k < LINES && k / 8 != GroupNum(paddr) ==> ReadLine(cache, mem, paddr)[k] == cache[k]
    ensures ReadLine(ReadLine(cache, mem, paddr), mem, paddr) == ReadLine(cache, mem, paddr)
  {
    hide GroupNum, TagOf, BlockNum, LineStart, Fill;
    FillFrame(cache, mem, paddr);
  }

  lemma FillCoherent(cache: seq<Line>, mem: seq<byte>, paddr: uint32)
    requires Coherent(cache, mem) && paddr < MEM_SIZE
    ensures Coherent(Fill(cache, mem, paddr), mem)
    ensures Resident(Fill(cache, mem, paddr), GroupNum(paddr), TagOf(paddr))
    ensures forall k :: 0 <= k < LINES && k / 8 != GroupNum(paddr) ==> Fill(cache, mem, paddr)[k] == cache[k]
  {
    AddressParts(paddr);
    hide GroupNum, TagOf, BlockNum, LineStart, LineBase;
    var group, way := GroupNum(paddr), VictimFrom(cache, GroupNum(paddr), 0);
    var cache' := Fill(cache, mem, paddr);
    assert (group * 8 + way) / 8 == group;
    assert WayHolds(cache', group, TagOf(paddr), way);
    forall k | 0 <= k < LINES
      ensures LineCoherent(cache'[k], k / 8, mem)
    {
      assert LineCoherent(cache[k], k / 8, mem);
    }
  }

  lemma ReadLineCoherent(cache: seq<Line>, mem: seq<byte>, paddr: uint32)
    requires Coherent(cache, mem) && paddr < MEM_SIZE
    ensures Coherent(ReadLine(cache, mem, paddr), mem)
    ensures Resident(ReadLine(cache, mem, paddr), GroupNum(paddr), TagOf(paddr))
    ensures forall k :: 0 <= k < LINES && k / 8 != GroupNum(paddr) ==> ReadLine(cache, mem, paddr)[k] == cache[k]
  {
    hide GroupNum, TagOf, BlockNum, LineStart, Coherent, Fill;
    FillCoherent(cache, mem, paddr);
  }

  /** The line after a straddled one lies in another set, also across the last set. */
  lemma NextLineSet(paddr: uint32, len: nat)
    requires InBounds(paddr, len) && Straddles(paddr, len) && len <= 4
    ensures NextLine(paddr) < MEM_SIZE
    ensures GroupNum(NextLine(paddr)) == (GroupNum(paddr) + 1) % SETS
    ensures GroupNum(NextLine(paddr)) != GroupNum(paddr)
    ensures BlockNum(NextLine(paddr)) == 0
  {
    var q := paddr / 0x40;
    assert NextLine(paddr) == 0x40 * (q + 1);
    assert NextLine(paddr) / 0x40 == q + 1;
    NextGroup(q);
  }

  lemma NextGroup(q: nat)
    ensures (q + 1) % 0x80 == (q % 0x80 + 1) % 0x80 != q % 0x80
  {
  }

  /** Reads of any alignment keep coherence and touch only the sets they address. */
  lemma ReadEffectCoherent(cache: seq<Line>, mem: seq<byte>, paddr: uint32, len: nat)
    requires Coherent(cache, mem) && InBounds(paddr, len) && 0 < len <= 4
    ensures Coherent(ReadEffect(cache, mem, paddr, len), mem)
    ensures forall k ::
              0 <= k < LINES && k / 8 != GroupNum(paddr)
              && !(Straddles(paddr, len) && k / 8 == GroupNum(NextLine(paddr))) ==>
              ReadEffect(cache, mem, paddr, len)[k] == cache[k]
    ensures Resident(ReadEffect(cache, mem, paddr, len), GroupNum(paddr), TagOf(paddr))
  {
    CoherentSizes(cache, mem);
    hide GroupNum, TagOf, BlockNum, LineStart, LineBase, Coherent;
    var group, tag := GroupNum(paddr), TagOf(paddr);
    if !Straddles(paddr, len) {
      ReadLineCoherent(cache, mem, paddr);
    } else {
      NextLineSet(paddr, len);
      var c := cache;
      if Resident(cache, group, tag) {
        ReadLineCoherent(cache, mem, NextLine(paddr));
        c := ReadLine(cache, mem, NextLine(paddr));
        var i: nat :| i < WAYS && WayHolds(cache, group, tag, i);
        assert (group * 8 + i) / 8 == group;
        assert WayHolds(c, group, tag, i);
      } else {
        NoMatchMisses(cache, group, tag, 0, false);
      }
      FillCoherent(c, mem, paddr);
    }
  }

  /** Without a valid way that holds the tag the scan ends in a miss. */
  lemma {:induction false} NoMatchMisses(cache: seq<Line>, group: nat, tag: nat, i: nat, hit: bool)
    requires |cache| == LINES && group < SETS && i <= WAYS
    requires !Resident(cache, group, tag)
    ensures LastMatchFrom(cache, group, tag, i, hit) ==> hit
    decreases WAYS - i
  {
    if i < WAYS {
      assert !WayHolds(cache, group, tag, i);
      NoMatchMisses(cache, group, tag, i + 1, if cache[group * 8 + i].tag == tag then false else hit);
    }
  }
}
