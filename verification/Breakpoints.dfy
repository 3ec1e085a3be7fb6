/**
 The breakpoint pool as two lists of slot numbers: what set, delete and delete-all do to
 them, and what every sequence of these commands keeps.  nemu/src/monitor/breakpoint.c.
 */
module Breakpoints {
  import opened Chains

  const NR_BP: nat := 32

  datatype Kind = Breakpoint | Watchpoint

  /** What the debugger set: the slot it got, and the address of a breakpoint. */
  datatype Entry = Entry(no: int, kind: Kind, addr: nat)

  /** The active list, newest first, and the free list. */
  datatype Lists = Lists(active: seq<Entry>, idle: seq<int>)

  datatype Op = Set(kind: Kind, addr: nat) | Delete(no: int) | DeleteAll

  function Numbers(active: seq<Entry>): seq<int> {
    if active == [] then [] else [active[0].no] + Numbers(active[1..])
  }

  /** The list without its first entry of number no. */
  function Without(active: seq<Entry>, no: int): seq<Entry> {
    if active == [] then []
    else if active[0].no == no then active[1..]
    else [active[0]] + Without(active[1..], no)
  }

  const INITIAL: Lists := Lists([], UpTo(NR_BP))

  /** A command; setting one more than NR_BP stops the emulator with a failed assertion. */
  function Step(l: Lists, op: Op): Lists {
    match op
    case Set(kind, addr) =>
      if l.idle == [] then l else Lists([Entry(l.idle[0], kind, addr)] + l.active, l.idle[1..])
    case Delete(no) =>
      if no in Numbers(l.active) then Lists(Without(l.active, no), [no] + l.idle) else l
    case DeleteAll =>
      Lists([], Numbers(l.active) + l.idle)
  }

  function Run(l: Lists, ops: seq<Op>): Lists
    decreases |ops|
  {
    if ops == [] then l else Run(Step(l, ops[0]), ops[1..])
  }

  /** The newest breakpoint at an address. */
  function Find(active: seq<Entry>, addr: nat): (k: nat)
    ensures k <= |active|
    ensures k < |active| ==> active[k].kind == Breakpoint && active[k].addr == addr
    ensures forall j :: 0 <= j < k ==> !(active[j].kind == Breakpoint && active[j].addr == addr)
  {
    if active == [] || (active[0].kind == Breakpoint && active[0].addr == addr) then 0
    else 1 + Find(active[1..], addr)
  }

  // ----- what every run keeps

  /** Together the two lists hold every slot exactly once. */
  ghost predicate Partition(l: Lists) {
    Covers(NR_BP, Slots(l))
  }

  ghost function Slots(l: Lists): multiset<int> {
    multiset(Numbers(l.active)) + multiset(l.idle)
  }

  lemma {:induction false} NumbersWithout(active: seq<Entry>, no: int)
    requires no in Numbers(active)
    ensures multiset(Numbers(Without(active, no))) + multiset{no} == multiset(Numbers(active))
  {
    assert multiset([active[0].no] + Numbers(active[1..])) == multiset{active[0].no} + multiset(Numbers(active[1..]));
    if active[0].no != no {
      NumbersWithout(active[1..], no);
      assert ([active[0]] + Without(active[1..], no))[1..] == Without(active[1..], no);
      assert multiset([active[0].no] + Numbers(Without(active[1..], no)))
          == multiset{active[0].no} + multiset(Numbers(Without(active[1..], no)));
    }
  }

  /** No command adds or loses a slot. */
  lemma StepKeepsSlots(l: Lists, op: Op)
    ensures Slots(Step(l, op)) == Slots(l)
  {
    hide Without;
    match op
    case Set(kind, addr) =>
      if l.idle != [] {
        var e := Entry(l.idle[0], kind, addr);
        assert ([e] + l.active)[1..] == l.active;
        assert l.idle == [l.idle[0]] + l.idle[1..];
        PrependSlot(e.no, Numbers(l.active), l.idle[1..]);
      }
    case Delete(no) =>
      if no in Numbers(l.active) {
        NumbersWithout(l.active, no);
      }
    case DeleteAll =>
  }

  /** Over every sequence of commands both lists together are the 32 slots. */
  lemma {:induction false} RunKeepsPartition(l: Lists, ops: seq<Op>)
    requires Partition(l)
    ensures Partition(Run(l, ops))
    decreases |ops|
  {
    hide Slots, UpTo, Step;
    if ops != [] {
      StepKeepsSlots(l, ops[0]);
      RunKeepsPartition(Step(l, ops[0]), ops[1..]);
    }
  }

  lemma {:induction false} NumbersAre(active: seq<Entry>)
    ensures |Numbers(active)| == |active|
    ensures forall i :: 0 <= i < |active| ==> Numbers(active)[i] == active[i].no
  {
    if active != [] {
      NumbersAre(active[1..]);
    }
  }

  /** The partition spelled out: acyclic, disjoint, and each of the 32 slots in one of the lists. */
  lemma PartitionMeans(l: Lists)
    requires Partition(l)
    ensures |Numbers(l.active) + l.idle| == |l.active| + |l.idle| == NR_BP
    ensures Distinct(Numbers(l.active) + l.idle)
    ensures forall n :: n in Numbers(l.active) + l.idle <==> 0 <= n < NR_BP
  {
    NumbersAre(l.active);
    CoversMeans(NR_BP, Numbers(l.active) + l.idle);
  }

  /** Before the first command every slot is free. */
  lemma InitialPartition()
    ensures Partition(INITIAL)
  {
    UpToCovers(NR_BP);
    hide Covers, UpTo;
    assert Slots(INITIAL) == multiset(UpTo(NR_BP));
  }

  /** From the initial lists on: no slot is lost or doubled, and only a 33rd entry can fail. */
  lemma EveryRun(ops: seq<Op>)
    ensures var l := Run(INITIAL, ops);
            && Distinct(Numbers(l.active) + l.idle)
            && (forall n :: n in Numbers(l.active) + l.idle <==> 0 <= n < NR_BP)
            && (l.idle == [] <==> |l.active| == NR_BP)
  {
    hide Distinct, UpTo, Partition;
    InitialPartition();
    RunKeepsPartition(INITIAL, ops);
    PartitionMeans(Run(INITIAL, ops));
  }

  // ----- commands that undo each other

  /** Deleting what was just set restores both lists, in order. */
  lemma DeleteUndoesSet(l: Lists, kind: Kind, addr: nat)
    requires l.idle != []
    ensures Step(Step(l, Set(kind, addr)), Delete(l.idle[0])) == l
  {
    var after := Step(l, Set(kind, addr));
    assert after.active[0].no == l.idle[0];
    assert Numbers(after.active)[0] == l.idle[0];
    assert after.active[1..] == l.active;
    assert [l.idle[0]] + l.idle[1..] == l.idle;
  }

  /** After a delete the number is free again: the next set reuses it, and a second delete fails. */
  lemma DeleteFrees(l: Lists, no: int, kind: Kind, addr: nat)
    requires Partition(l) && no in Numbers(l.active)
    ensures no !in Numbers(Step(l, Delete(no)).active)
    ensures Step(Step(l, Delete(no)), Delete(no)) == Step(l, Delete(no))
    ensures Step(Step(l, Delete(no)), Set(kind, addr)).active[0] == Entry(no, kind, addr)
  {
    var after := Step(l, Delete(no));
    StepKeepsSlots(l, Delete(no));
    PartitionMeans(after);
    OnlyOnce(Numbers(after.active), no, l.idle);
  }

  /** The newest breakpoint at an address is the one found, until it is deleted; others are unaffected. */
  lemma FindSeesNewest(l: Lists, addr: nat, other: nat)
    requires l.idle != []
    ensures var after := Step(l, Set(Breakpoint, addr)).active;
            && Find(after, addr) == 0 && after[0].no == l.idle[0]
            && (other != addr ==> Find(after, other) == 1 + Find(l.active, other))
  {
    assert ([Entry(l.idle[0], Breakpoint, addr)] + l.active)[1..] == l.active;
  }

  /** Deleting every entry one by one leaves as much free as delete-all, in the opposite order. */
  lemma {:induction false} DeleteOneByOne(l: Lists)
    ensures Run(l, Deletions(l.active)) == Lists([], Reverse(Numbers(l.active)) + l.idle)
    decreases |l.active|
  {
    if l.active != [] {
      var n, ds := l.active[0].no, Deletions(l.active);
      var next := Lists(l.active[1..], [n] + l.idle);
      DeleteNewest(l);
      DeleteOneByOne(next);
      assert ds[0] == Delete(n) && ds[1..] == Deletions(next.active);
      assert Run(l, ds) == Run(next, ds[1..]);
      assert Reverse(Numbers(l.active)) == Reverse(Numbers(next.active)) + [n] by {
        assert Numbers(l.active)[1..] == Numbers(next.active);
      }
      hide Run, Reverse, Deletions, Numbers, Step;
      var freed := Reverse(Numbers(next.active));
      assert (freed + [n]) + l.idle == freed + ([n] + l.idle);
    }
  }

  lemma DeleteNewest(l: Lists)
    requires l.active != []
    ensures Step(l, Delete(l.active[0].no)) == Lists(l.active[1..], [l.active[0].no] + l.idle)
  {
    assert Numbers(l.active)[0] == l.active[0].no;
  }

  function Deletions(active: seq<Entry>): seq<Op> {
    if active == [] then [] else [Delete(active[0].no)] + Deletions(active[1..])
  }

  function Reverse(s: seq<int>): seq<int> {
    if s == [] then [] else Reverse(s[1..]) + [s[0]]
  }
}
