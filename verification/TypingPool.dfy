/**
 The nodes of the typing game: a pool of letters, a doubly linked list of the live ones and a
 free list.  What the nodes represent, and how linking and unlinking changes it.
 game/include/adt/linklist.h and game/src/typing/effect.c.
 */
module TypingPool {
  import opened Chains
  import opened TypingGame
  import opened TypingRuns

  class Letter {
    var x: real
    var y: int
    var v: real
    var text: int
    var prev: Letter?
    var next: Letter?

    constructor ()
      ensures prev == null && next == null
    {
      prev := null;
      next := null;
    }
  }

  datatype Body = Body(x: real, y: int, v: real, text: int)

  /** The fields of the nodes, by slot. */
  datatype Image = Image(nexts: seq<Letter?>, prevs: seq<Letter?>, bodies: seq<Body>) {
    predicate Full() {
      |nexts| == |prevs| == |bodies| == SLOTS
    }
  }

  function BodyOf(f: Fly): Body {
    Body(f.x, f.y, f.v, f.text)
  }

  ghost predicate Holds(bodies: seq<Body>, live: seq<Fly>)
    requires |bodies| == SLOTS
  {
    forall k :: 0 <= k < |live| ==> 0 <= live[k].slot < SLOTS && bodies[live[k].slot] == BodyOf(live[k])
  }

  /** The free list; before the first letter it is not linked yet and its head is null. */
  ghost predicate FreeList(nodes: seq<Letter>, nexts: seq<Letter?>, free: Letter?, live: seq<Fly>, idle: seq<int>)
    requires |nodes| == |nexts| == SLOTS
  {
    if free == null then live == [] && idle == UpTo(SLOTS) && nexts[SIZE] == null
    else Chain(null, nodes, nexts, free, idle)
  }

  /**
   The nodes hold the letters: the live list is linked in both directions and ends in null, it
   and the free list share no slot, and together they are the whole pool.
   */
  ghost predicate Represents(nodes: seq<Letter>, m: Image, head: Letter?, free: Letter?, live: seq<Fly>, idle: seq<int>)
    requires |nodes| == SLOTS && m.Full()
  {
    && Partition(live, idle)
    && Chain(null, nodes, m.nexts, head, Slots(live)) && BackChain(null, nodes, m.prevs, Slots(live))
    && Holds(m.bodies, live)
    && FreeList(nodes, m.nexts, free, live, idle)
  }

  /** The slots of both lists, spelled out. */
  lemma PartitionMeans(live: seq<Fly>, idle: seq<int>)
    requires Partition(live, idle)
    ensures |live| + |idle| == SLOTS && Distinct(Slots(live)) && Distinct(Slots(live) + idle)
    ensures forall i :: 0 <= i < |idle| ==> idle[i] !in Slots(live) && 0 <= idle[i] < SLOTS
  {
    var all := Slots(live) + idle;
    hide Distinct, Slots;
    CoversMeans(SLOTS, all);
    DistinctParts(Slots(live), idle);
    forall i | 0 <= i < |idle|
      ensures 0 <= idle[i] < SLOTS
    {
      assert all[|Slots(live)| + i] == idle[i] && idle[i] in all;
    }
  }

  lemma RepresentsStart(nodes: seq<Letter>, m: Image)
    requires |nodes| == SLOTS && m.Full() && m.nexts[SIZE] == null
    ensures Represents(nodes, m, null, null, [], UpTo(SLOTS))
  {
    StartInvariant();
    hide Partition, UpTo;
  }

  /** Linking all nodes in order makes the free list. */
  lemma RepresentsLinked(nodes: seq<Letter>, m: Image, m': Image, live: seq<Fly>, idle: seq<int>)
    requires |nodes| == SLOTS && m.Full() && m'.Full()
    requires Represents(nodes, m, null, null, live, idle)
    requires forall i :: 0 <= i < SIZE ==> m'.nexts[i] == nodes[i + 1]
    requires m'.nexts[SIZE] == null
    ensures Represents(nodes, m', null, nodes[0], live, idle)
  {
    UpToHas(SLOTS);
    hide UpTo, Partition, Slots;
    assert forall i :: 0 <= i < SLOTS ==> LinkedAt(null, nodes, m'.nexts, idle, i);
  }

  /** What the k-th live node holds, and the node behind it. */
  lemma RepresentsAt(nodes: seq<Letter>, m: Image, head: Letter?, free: Letter?, live: seq<Fly>, idle: seq<int>, k: nat)
    requires |nodes| == SLOTS && m.Full() && Represents(nodes, m, head, free, live, idle)
    ensures InRange(SLOTS, Slots(live)) && head == At(null, nodes, Slots(live), 0)
    ensures k >= |live| ==> At(null, nodes, Slots(live), k) == null
    ensures k < |live| ==>
              var n := live[k].slot;
              && 0 <= n < SLOTS && At(null, nodes, Slots(live), k) == nodes[n] && m.bodies[n] == BodyOf(live[k])
              && m.nexts[n] == At(null, nodes, Slots(live), k + 1)
  {
    hide Partition, FreeList, BackChain;
    if k < |live| {
      ChainAt(null, nodes, m.nexts, head, Slots(live), k);
    }
  }

  // ----- taking a node and linking it in front

  /** The backward links after node n is put in front of the list. */
  function PrevsPushed(nodes: seq<Letter>, prevs: seq<Letter?>, n: int, slots: seq<int>): (s: seq<Letter?>)
    requires |nodes| == |prevs| == SLOTS && 0 <= n < SLOTS && InRange(SLOTS, slots)
    ensures |s| == SLOTS
  {
    if slots == [] then prevs[n := null] else prevs[n := null][slots[0] := nodes[n]]
  }

  lemma RepresentsFree(nodes: seq<Letter>, m: Image, head: Letter?, free: Letter?, live: seq<Fly>, idle: seq<int>)
    requires |nodes| == SLOTS && m.Full() && Represents(nodes, m, head, free, live, idle)
    requires free != null && |idle| >= 2
    ensures 0 <= idle[0] < SLOTS && free == nodes[idle[0]] && m.nexts[idle[0]] != null
    ensures InRange(SLOTS, Slots(live)) && head == At(null, nodes, Slots(live), 0)
    ensures |Slots(live)| > 0 ==> Slots(live)[0] != idle[0]
    ensures InRange(SLOTS, idle)
  {
    ChainPop<Letter?>(null, nodes, m.nexts, free, idle);
    ChainPop<Letter?>(null, nodes, m.nexts, m.nexts[idle[0]], idle[1..]);
    PartitionMeans(live, idle);
    hide Partition, Distinct;
  }

  lemma RepresentsCreate(nodes: seq<Letter>, m: Image, head: Letter?, free: Letter?, live: seq<Fly>, idle: seq<int>,
                         f: Fly)
    requires |nodes| == SLOTS && m.Full() && Represents(nodes, m, head, free, live, idle)
    requires free != null && |idle| >= 2 && f.slot == idle[0]
    ensures 0 <= f.slot < SLOTS && InRange(SLOTS, Slots(live))
    ensures var n := f.slot;
            var m' := Image(m.nexts[n := head], PrevsPushed(nodes, m.prevs, n, Slots(live)), m.bodies[n := BodyOf(f)]);
            Represents(nodes, m', nodes[n], m.nexts[n], [f] + live, idle[1..])
  {
    var n, slots := f.slot, Slots(live);
    RepresentsFree(nodes, m, head, free, live, idle);
    PartitionMeans(live, idle);
    CreatedPartition(live, idle, f);
    ChainPop<Letter?>(null, nodes, m.nexts, free, idle);
    SlotsCons(f, live);
    hide Slots, Covers;
    assert idle == [n] + idle[1..];
    FirstApart(slots, n, idle[1..]);
    hide Distinct;
    ChainFrame<Letter?>(null, nodes, m.nexts, head, slots, n, head);
    ChainFrame<Letter?>(null, nodes, m.nexts, m.nexts[n], idle[1..], n, head);
    ChainPush<Letter?>(null, nodes, m.nexts[n := head], n, slots);
    BackPush<Letter?>(null, nodes, m.prevs, n, slots);
    HoldsCreate(m.bodies, live, f);
    hide Chain, BackChain, Holds, Partition;
  }

  lemma FirstApart(slots: seq<int>, n: int, rest: seq<int>)
    requires Distinct(slots + ([n] + rest))
    ensures forall i :: 0 <= i < |slots| ==> slots[i] != n
    ensures forall i :: 0 <= i < |rest| ==> rest[i] != n
  {
    var all := slots + ([n] + rest);
    assert all[|slots|] == n;
    assert forall i :: 0 <= i < |slots| ==> all[i] == slots[i];
    assert forall i :: 0 <= i < |rest| ==> all[|slots| + 1 + i] == rest[i];
  }

  lemma CreatedPartition(live: seq<Fly>, idle: seq<int>, f: Fly)
    requires Partition(live, idle) && idle != [] && f.slot == idle[0]
    ensures Partition([f] + live, idle[1..])
  {
    SlotsCons(f, live);
    hide Slots, Covers;
    assert idle == [f.slot] + idle[1..];
    PrependSlot(f.slot, Slots(live), idle[1..]);
  }

  lemma HoldsCreate(bodies: seq<Body>, live: seq<Fly>, f: Fly)
    requires |bodies| == SLOTS && Holds(bodies, live) && 0 <= f.slot < SLOTS
    requires forall i :: 0 <= i < |Slots(live)| ==> Slots(live)[i] != f.slot
    ensures Holds(bodies[f.slot := BodyOf(f)], [f] + live)
  {
    assert forall i :: 0 <= i < |live| ==> Slots(live)[i] == live[i].slot;
  }

  // ----- changing a letter in place

  lemma RepresentsChange(nodes: seq<Letter>, m: Image, head: Letter?, free: Letter?, live: seq<Fly>, idle: seq<int>,
                         k: nat, f: Fly)
    requires |nodes| == SLOTS && m.Full() && Represents(nodes, m, head, free, live, idle)
    requires k < |live| && f.slot == live[k].slot
    ensures 0 <= f.slot < SLOTS
    ensures Represents(nodes, m.(bodies := m.bodies[f.slot := BodyOf(f)]), head, free, live[k := f], idle)
  {
    PartitionMeans(live, idle);
    assert Slots(live[k := f]) == Slots(live);
    HoldsChange(m.bodies, live, k, f);
    hide Distinct, Slots, Covers, Holds, Chain, BackChain, UpTo;
  }

  lemma HoldsChange(bodies: seq<Body>, live: seq<Fly>, k: nat, f: Fly)
    requires |bodies| == SLOTS && Holds(bodies, live) && Distinct(Slots(live))
    requires k < |live| && f.slot == live[k].slot
    ensures 0 <= f.slot < SLOTS && Holds(bodies[f.slot := BodyOf(f)], live[k := f])
  {
    assert forall i :: 0 <= i < |live| ==> Slots(live)[i] == live[i].slot;
  }

  // ----- removing a letter and freeing its node

  /** The backward links after the k-th node of the list is bypassed. */
  function PrevsCut(prevs: seq<Letter?>, slots: seq<int>, k: nat): (s: seq<Letter?>)
    requires |prevs| == SLOTS && InRange(SLOTS, slots) && k < |slots|
    ensures |s| == SLOTS
  {
    if k + 1 < |slots| then prevs[slots[k + 1] := prevs[slots[k]]] else prevs
  }

  /** The neighbours of the k-th live node are the ones its links name. */
  lemma RepresentsLinks(nodes: seq<Letter>, m: Image, head: Letter?, free: Letter?, live: seq<Fly>, idle: seq<int>,
                        k: nat)
    requires |nodes| == SLOTS && m.Full() && Represents(nodes, m, head, free, live, idle) && k < |live|
    ensures var slots := Slots(live);
            && InRange(SLOTS, slots) && Distinct(slots) && |slots| == |live| && free != null
            && m.prevs[slots[k]] == (if k == 0 then null else nodes[slots[k - 1]])
            && m.nexts[slots[k]] == (if k + 1 < |live| then nodes[slots[k + 1]] else null)
            && head == nodes[slots[0]]
  {
    PartitionMeans(live, idle);
    ChainAt<Letter?>(null, nodes, m.nexts, head, Slots(live), k);
    assert BackAt<Letter?>(null, nodes, m.prevs, Slots(live), k);
    hide Partition;
  }

  lemma RepresentsRemove(nodes: seq<Letter>, m: Image, head: Letter?, free: Letter?, live: seq<Fly>, idle: seq<int>,
                         k: nat)
    requires |nodes| == SLOTS && m.Full() && Represents(nodes, m, head, free, live, idle) && k < |live|
    ensures InRange(SLOTS, Slots(live))
    ensures var slots, n := Slots(live), live[k].slot;
            var m' := Image(Bypassed(m.nexts, slots, k)[n := free], PrevsCut(m.prevs, slots, k), m.bodies);
            Represents(nodes, m', if k == 0 then m.nexts[n] else head, nodes[n], live[..k] + live[k + 1..], [n] + idle)
  {
    var slots, n, fewer := Slots(live), live[k].slot, live[..k] + live[k + 1..];
    RepresentsLinks(nodes, m, head, free, live, idle, k);
    PartitionMeans(live, idle);
    assert Slots(fewer) == slots[..k] + slots[k + 1..];
    RemovedPartition(live, idle, k);
    HoldsRemove(m.bodies, live, k);
    hide Slots, Covers, Distinct, UpTo;
    BypassedChains<Letter?>(null, nodes, m.nexts, head, slots, free, idle, k);
    BackCut<Letter?>(null, nodes, m.prevs, slots, k);
    hide Chain, BackChain, Holds, Partition;
  }

  lemma RemovedPartition(live: seq<Fly>, idle: seq<int>, k: nat)
    requires Partition(live, idle) && k < |live|
    ensures Partition(live[..k] + live[k + 1..], [live[k].slot] + idle)
  {
    var slots, n := Slots(live), live[k].slot;
    assert Slots(live[..k] + live[k + 1..]) == slots[..k] + slots[k + 1..];
    CutCount(slots, k);
    hide Slots, Covers;
    assert multiset([n] + idle) == multiset{n} + multiset(idle);
    var fewer := multiset(slots[..k] + slots[k + 1..]);
    assert fewer + (multiset{n} + multiset(idle)) == multiset(slots) + multiset(idle);
  }

  lemma HoldsRemove(bodies: seq<Body>, live: seq<Fly>, k: nat)
    requires |bodies| == SLOTS && Holds(bodies, live) && k < |live|
    ensures Holds(bodies, live[..k] + live[k + 1..])
  {
    var fewer := live[..k] + live[k + 1..];
    assert forall i :: 0 <= i < |fewer| ==> fewer[i] == live[if i < k then i else i + 1];
  }
}
