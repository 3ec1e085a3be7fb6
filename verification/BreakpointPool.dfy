/**
 The breakpoint pool on its linked nodes, refining the lists of module Breakpoints.
 nemu/src/monitor/breakpoint.c.
 */
module BreakpointPool {
  import opened Chains
  import opened Breakpoints

  class BP {
    var NO: int
    var inUse: bool
    var kind: Kind
    var addr: nat
    var next: BP?

    constructor ()
    {
      next := null;
    }
  }

  // ----- marks and contents

  ghost predicate Marked(marks: seq<bool>, numbers: seq<int>)
    requires |marks| == NR_BP
  {
    forall i :: 0 <= i < NR_BP ==> (marks[i] <==> i in numbers)
  }

  lemma MarkedAdd(marks: seq<bool>, n: int, numbers: seq<int>)
    requires |marks| == NR_BP && Marked(marks, numbers) && 0 <= n < NR_BP
    ensures Marked(marks[n := true], [n] + numbers)
  {
  }

  lemma MarkedRemove(marks: seq<bool>, n: int, numbers: seq<int>, fewer: seq<int>)
    requires |marks| == NR_BP && Marked(marks, numbers) && 0 <= n < NR_BP
    requires forall i :: i in fewer <==> i in numbers && i != n
    ensures Marked(marks[n := false], fewer)
  {
  }

  /** What was set at each active number. */
  ghost predicate Holds(kinds: seq<Kind>, addrs: seq<nat>, active: seq<Entry>)
    requires |kinds| == |addrs| == NR_BP
  {
    forall i :: 0 <= i < |active| ==>
      0 <= active[i].no < NR_BP && kinds[active[i].no] == active[i].kind && addrs[active[i].no] == active[i].addr
  }

  lemma HoldsAdd(kinds: seq<Kind>, addrs: seq<nat>, e: Entry, active: seq<Entry>)
    requires |kinds| == |addrs| == NR_BP && Holds(kinds, addrs, active)
    requires 0 <= e.no < NR_BP && forall i :: 0 <= i < |Numbers(active)| ==> Numbers(active)[i] != e.no
    ensures Holds(kinds[e.no := e.kind], addrs[e.no := e.addr], [e] + active)
  {
    NumbersAre(active);
    assert forall i :: 0 <= i < |active| ==> Numbers(active)[i] == active[i].no;
  }

  lemma FirstIsIdle(l: Lists)
    requires Partition(l) && l.idle != []
    ensures l.idle[0] !in Numbers(l.active)
  {
    PartitionMeans(l);
    assert l.idle == [l.idle[0]] + l.idle[1..];
    OnlyOnce(Numbers(l.active), l.idle[0], l.idle[1..]);
  }

  lemma SetNumbers(l: Lists, kind: Kind, addr: nat)
    requires l.idle != []
    ensures Numbers(Step(l, Set(kind, addr)).active) == [l.idle[0]] + Numbers(l.active)
    ensures Step(l, Set(kind, addr)) == Lists([Entry(l.idle[0], kind, addr)] + l.active, l.idle[1..])
  {
    assert ([Entry(l.idle[0], kind, addr)] + l.active)[1..] == l.active;
  }

  /** The first idle number is in no other place. */
  lemma IdleApart(l: Lists)
    requires Partition(l) && l.idle != []
    ensures 0 <= l.idle[0] < NR_BP
    ensures forall i :: 0 <= i < |Numbers(l.active)| ==> Numbers(l.active)[i] != l.idle[0]
    ensures forall i :: 0 <= i < |l.idle[1..]| ==> l.idle[1..][i] != l.idle[0]
  {
    PartitionMeans(l);
    var s := Numbers(l.active);
    var all := s + l.idle;
    assert all[|s|] == l.idle[0] && l.idle[0] in all;
    forall i | 0 <= i < |s|
      ensures s[i] != l.idle[0]
    {
      assert all[i] == s[i];
    }
    forall i | 0 <= i < |l.idle[1..]|
      ensures l.idle[1..][i] != l.idle[0]
    {
      assert all[|s| + 1 + i] == l.idle[1..][i];
    }
  }

  lemma {:induction false} WithoutAt(active: seq<Entry>, k: nat)
    requires k < |active| && forall j :: 0 <= j < k ==> active[j].no != active[k].no
    ensures Without(active, active[k].no) == active[..k] + active[k + 1..]
    decreases k
  {
    if k > 0 {
      WithoutAt(active[1..], k - 1);
      assert active[1..][..k - 1] + active[1..][k..] == active[1..k] + active[k + 1..];
      assert active[..k] + active[k + 1..] == [active[0]] + (active[1..k] + active[k + 1..]);
    }
  }

  lemma WithoutAtK(l: Lists, k: nat)
    requires k < |l.active| && Distinct(Numbers(l.active))
    ensures Without(l.active, l.active[k].no) == l.active[..k] + l.active[k + 1..]
  {
    NumbersAre(l.active);
    assert forall j :: 0 <= j < k ==> Numbers(l.active)[j] == l.active[j].no;
    WithoutAt(l.active, k);
  }

  lemma NumbersCut(active: seq<Entry>, k: nat)
    requires k < |active|
    ensures |Numbers(active)| == |active|
    ensures Numbers(active[..k] + active[k + 1..]) == Numbers(active)[..k] + Numbers(active)[k + 1..]
  {
    NumbersAre(active);
    NumbersAre(active[..k] + active[k + 1..]);
  }

  /** What deleting the k-th active entry leaves, and where its number is not. */
  lemma RemovedAt(l: Lists, k: nat)
    requires Partition(l) && k < |Numbers(l.active)|
    ensures |Numbers(l.active)| == |l.active|
    ensures var numbers, n := Numbers(l.active), Numbers(l.active)[k];
            && var fewer := numbers[..k] + numbers[k + 1..];
            && 0 <= n < NR_BP && n == l.active[k].no && Distinct(numbers) && n in numbers
            && Step(l, Delete(n)) == Lists(l.active[..k] + l.active[k + 1..], [n] + l.idle)
            && Numbers(Step(l, Delete(n)).active) == fewer
            && (forall i :: i in fewer <==> i in numbers && i != n)
            && (forall i :: 0 <= i < |l.idle| ==> l.idle[i] !in numbers)
  {
    PartitionMeans(l);
    NumbersAre(l.active);
    var n := Numbers(l.active)[k];
    assert n in Numbers(l.active) + l.idle;
    hide Partition, Distinct, UpTo, Numbers, Without;
    DistinctParts(Numbers(l.active), l.idle);
    CutMembers(Numbers(l.active), k);
    WithoutAtK(l, k);
    NumbersCut(l.active, k);
  }

  lemma HoldsFewer(kinds: seq<Kind>, addrs: seq<nat>, active: seq<Entry>, k: nat)
    requires |kinds| == |addrs| == NR_BP && Holds(kinds, addrs, active) && k < |active|
    ensures Holds(kinds, addrs, active[..k] + active[k + 1..])
  {
    var fewer := active[..k] + active[k + 1..];
    assert forall i :: 0 <= i < |fewer| ==> fewer[i] == active[if i < k then i else i + 1];
  }

  // ----- the nodes together

  /** The fields of the nodes, by number. */
  datatype Image = Image(nos: seq<int>, links: seq<BP?>, marks: seq<bool>, kinds: seq<Kind>, addrs: seq<nat>) {
    predicate Full() {
      |nos| == |links| == |marks| == |kinds| == |addrs| == NR_BP
    }
  }

  /** Node i has the number i. */
  ghost predicate Numbered(nos: seq<int>) {
    forall i :: 0 <= i < |nos| ==> nos[i] == i
  }

  /**
   The nodes hold the lists: the lists are a partition of the slots, both chains are linked in
   their order, and marks and contents agree.
   */
  ghost predicate Represents(nodes: seq<BP>, m: Image, head: BP?, free: BP?, l: Lists)
    requires |nodes| == NR_BP && m.Full()
  {
    && Numbered(m.nos) && Partition(l)
    && Chain(null, nodes, m.links, head, Numbers(l.active)) && Chain(null, nodes, m.links, free, l.idle)
    && Marked(m.marks, Numbers(l.active)) && Holds(m.kinds, m.addrs, l.active)
  }

  lemma RepresentsInitial(nodes: seq<BP>, m: Image)
    requires |nodes| == NR_BP && m.Full() && Numbered(m.nos)
    requires forall i :: 0 <= i < NR_BP ==> !m.marks[i]
    requires forall i :: 0 <= i < NR_BP ==> m.links[i] == if i + 1 < NR_BP then nodes[i + 1] else null
    ensures Represents(nodes, m, null, nodes[0], INITIAL)
  {
    UpToHas(NR_BP);
    InitialPartition();
    hide UpTo, Partition;
    assert forall i :: 0 <= i < NR_BP ==> LinkedAt(null, nodes, m.links, INITIAL.idle, i);
  }

  lemma RepresentsIdle(nodes: seq<BP>, m: Image, head: BP?, free: BP?, l: Lists)
    requires |nodes| == NR_BP && m.Full() && Represents(nodes, m, head, free, l)
    ensures free == null <==> l.idle == []
    ensures |l.active| + |l.idle| == NR_BP
    ensures free != null ==> 0 <= l.idle[0] < NR_BP && free == nodes[l.idle[0]] && !m.marks[l.idle[0]] && Numbered(m.nos)
  {
    ChainPop<BP?>(null, nodes, m.links, free, l.idle);
    PartitionMeans(l);
    NumbersAre(l.active);
    hide Partition, Chain, Holds;
    if free != null {
      FirstIsIdle(l);
    }
  }

  /** What the nodes of the active list hold. */
  lemma RepresentsActive(nodes: seq<BP>, m: Image, head: BP?, free: BP?, l: Lists, k: nat)
    requires |nodes| == NR_BP && m.Full() && Represents(nodes, m, head, free, l)
    ensures var numbers := Numbers(l.active);
            && |numbers| == |l.active| && InRange(NR_BP, numbers) && head == At(null, nodes, numbers, 0)
            && (k < |numbers| ==>
                  && m.nos[numbers[k]] == numbers[k]
                  && m.links[numbers[k]] == At(null, nodes, numbers, k + 1) && m.marks[numbers[k]]
                  && m.kinds[numbers[k]] == l.active[k].kind && m.addrs[numbers[k]] == l.active[k].addr)
  {
    NumbersAre(l.active);
    hide Partition, Numbers;
    if k < |Numbers(l.active)| {
      ChainAt<BP?>(null, nodes, m.links, head, Numbers(l.active), k);
    }
  }

  // ----- freeing all active nodes

  ghost predicate AllMarked(marks: seq<bool>, numbers: seq<int>)
    requires |marks| == NR_BP && InRange(NR_BP, numbers)
  {
    forall i :: 0 <= i < |numbers| ==> marks[numbers[i]]
  }

  /** The marks without those of the given numbers. */
  ghost function Cleared(marks: seq<bool>, numbers: seq<int>): seq<bool> {
    seq(|marks|, i requires 0 <= i < |marks| => marks[i] && i !in numbers)
  }

  lemma NothingToFree(marks: seq<bool>, idle: seq<int>)
    ensures Cleared(marks, []) == marks && [] + idle == idle
  {
  }

  lemma FirstToFree(nodes: seq<BP>, links: seq<BP?>, marks: seq<bool>, p: BP?, rest: seq<int>, idle: seq<int>)
    requires |nodes| == |links| == |marks| == NR_BP && rest != []
    requires Chain(null, nodes, links, p, rest) && Distinct(rest + idle) && AllMarked(marks, rest)
    ensures var n, tail := rest[0], rest[1..];
            && 0 <= n < NR_BP && p == nodes[n] && Chain(null, nodes, links, links[n], tail)
            && InRange(NR_BP, tail) && AllMarked(marks, tail) && Distinct(tail + idle)
            && (forall i :: 0 <= i < |tail + idle| ==> (tail + idle)[i] != n)
            && (links[n] == null ==> tail + idle == idle && Cleared(marks, tail) == marks)
            && |Cleared(marks, tail)| == NR_BP && Cleared(marks, tail)[n]
            && Cleared(marks, rest) == Cleared(marks, tail)[n := false]
  {
    ChainPop<BP?>(null, nodes, links, p, rest);
    var n, tail := rest[0], rest[1..];
    assert rest == [n] + tail;
    assert rest + idle == [n] + tail + idle;
    TailApart(n, tail, idle);
    ChainPop<BP?>(null, nodes, links, links[n], tail);
    hide Distinct, Chain;
    if links[n] == null {
      NothingToFree(marks, idle);
    }
    assert forall i :: i in rest <==> i == n || i in tail;
  }

  lemma FirstFreed(nodes: seq<BP>, links: seq<BP?>, free: BP?, n: int, tail: seq<int>, idle: seq<int>)
    requires |nodes| == |links| == NR_BP && 0 <= n < NR_BP
    requires Chain(null, nodes, links, free, tail + idle)
    requires forall i :: 0 <= i < |tail + idle| ==> (tail + idle)[i] != n
    ensures Chain(null, nodes, links[n := free], nodes[n], [n] + (tail + idle))
  {
    ChainFrame<BP?>(null, nodes, links, free, tail + idle, n, free);
    ChainPush<BP?>(null, nodes, links[n := free], n, tail + idle);
  }

  lemma RepresentsMarks(nodes: seq<BP>, m: Image, head: BP?, free: BP?, l: Lists)
    requires |nodes| == NR_BP && m.Full() && Represents(nodes, m, head, free, l)
    ensures Chain(null, nodes, m.links, head, Numbers(l.active)) && Chain(null, nodes, m.links, free, l.idle)
    ensures InRange(NR_BP, Numbers(l.active)) && AllMarked(m.marks, Numbers(l.active))
    ensures Partition(l) && Numbered(m.nos) && Marked(m.marks, Numbers(l.active)) && Distinct(Numbers(l.active) + l.idle)
  {
    PartitionMeans(l);
    hide Partition, Numbers;
  }

  lemma RepresentsEmpty(nodes: seq<BP>, m: Image, m': Image, free: BP?, l: Lists)
    requires |nodes| == NR_BP && m.Full() && m'.Full() && Partition(l) && Numbered(m'.nos)
    requires Marked(m.marks, Numbers(l.active)) && m'.marks == Cleared(m.marks, Numbers(l.active))
    requires Chain(null, nodes, m'.links, free, Numbers(l.active) + l.idle)
    ensures Represents(nodes, m', null, free, Step(l, DeleteAll))
  {
    StepKeepsSlots(l, DeleteAll);
    hide Slots;
  }

  /** Filling the first idle node and linking it in front of the active list. */
  lemma RepresentsSet(nodes: seq<BP>, m: Image, head: BP?, free: BP?, l: Lists, kind: Kind, addr: nat)
    requires |nodes| == NR_BP && m.Full() && Represents(nodes, m, head, free, l) && free != null
    ensures l.idle != [] && 0 <= l.idle[0] < NR_BP
    ensures var n := l.idle[0];
            var m' := Image(m.nos, m.links[n := head], m.marks[n := true], m.kinds[n := kind], m.addrs[n := addr]);
            Represents(nodes, m', nodes[n], m.links[n], Step(l, Set(kind, addr)))
  {
    hide Numbers;
    ChainPop<BP?>(null, nodes, m.links, free, l.idle);
    var n, numbers := l.idle[0], Numbers(l.active);
    StepKeepsSlots(l, Set(kind, addr));
    SetNumbers(l, kind, addr);
    IdleApart(l);
    hide Slots;
    ChainFrame<BP?>(null, nodes, m.links, head, numbers, n, head);
    ChainFrame<BP?>(null, nodes, m.links, m.links[n], l.idle[1..], n, head);
    ChainPush<BP?>(null, nodes, m.links[n := head], n, numbers);
    MarkedAdd(m.marks, n, numbers);
    HoldsAdd(m.kinds, m.addrs, Entry(n, kind, addr), l.active);
    hide Chain, Marked, Holds;
  }

  /** Bypassing the k-th active node and linking it in front of the free list. */
  lemma RepresentsDelete(nodes: seq<BP>, m: Image, head: BP?, free: BP?, l: Lists, k: nat)
    requires |nodes| == NR_BP && m.Full() && Represents(nodes, m, head, free, l) && k < |Numbers(l.active)|
    ensures InRange(NR_BP, Numbers(l.active))
    ensures var n := Numbers(l.active)[k];
            var links := Bypassed(m.links, Numbers(l.active), k);
            && m.marks[n]
            && Represents(nodes, m.(links := links[n := free], marks := m.marks[n := false]),
                          if k == 0 then m.links[n] else head, nodes[n], Step(l, Delete(n)))
  {
    hide Numbers, Slots;
    var numbers := Numbers(l.active);
    var n := numbers[k];
    RemovedAt(l, k);
    StepKeepsSlots(l, Delete(n));
    BypassedChains<BP?>(null, nodes, m.links, head, numbers, free, l.idle, k);
    MarkedRemove(m.marks, n, numbers, numbers[..k] + numbers[k + 1..]);
    HoldsFewer(m.kinds, m.addrs, l.active, k);
    hide Chain, Marked, Holds;
  }

  // ----- the pool

  class Pool {
    const bpList: seq<BP>
    var head: BP?
    var free_: BP?
    /** The lists that the nodes represent. */
    ghost var lists: Lists

    constructor ()
      ensures Valid() && lists == INITIAL
      ensures fresh(bpList)
    {
      var nodes: seq<BP> := [];
      while |nodes| < NR_BP
        invariant |nodes| <= NR_BP
        invariant fresh(nodes)
        invariant AllDifferent(nodes)
      {
        var node := new BP();
        nodes := nodes + [node];
      }
      bpList := nodes;
      new;
      InitBpList();
    }

    /** The static array: NR_BP different nodes. */
    ghost predicate Slots() {
      |bpList| == NR_BP && AllDifferent(bpList)
    }

    /** The fields of the nodes as a value. */
    ghost function Fields(): (m: Image)
      requires Slots()
      reads bpList
      ensures m.Full()
    {
      Image(seq(NR_BP, i requires 0 <= i < NR_BP reads bpList => bpList[i].NO),
            seq(NR_BP, i requires 0 <= i < NR_BP reads bpList => bpList[i].next),
            seq(NR_BP, i requires 0 <= i < NR_BP reads bpList => bpList[i].inUse),
            seq(NR_BP, i requires 0 <= i < NR_BP reads bpList => bpList[i].kind),
            seq(NR_BP, i requires 0 <= i < NR_BP reads bpList => bpList[i].addr))
    }

    lemma FieldsAt(n: int)
      requires Slots() && 0 <= n < NR_BP
      ensures var p, m := bpList[n], Fields();
              && m.nos[n] == p.NO && m.links[n] == p.next && m.marks[n] == p.inUse
              && m.kinds[n] == p.kind && m.addrs[n] == p.addr
    {
    }

    /** The nodes are numbered and hold the lists. */
    ghost predicate Valid()
      reads this, bpList
    {
      Slots() && Represents(bpList, Fields(), head, free_, lists)
    }

    method InitBpList()
      requires Slots()
      modifies this, bpList
      ensures Valid() && lists == INITIAL
    {
      hide Partition, Represents, UpTo;
      var i := 0;
      while i < NR_BP
        invariant 0 <= i <= NR_BP
        invariant forall j :: 0 <= j < i ==> bpList[j].NO == j && !bpList[j].inUse
        invariant forall j :: 0 <= j < i && j + 1 < NR_BP ==> bpList[j].next == bpList[j + 1]
      {
        bpList[i].NO := i;
        bpList[i].inUse := false;
        bpList[i].next := if i + 1 < NR_BP then bpList[i + 1] else null;
        i := i + 1;
      }
      bpList[NR_BP - 1].next := null;
      head := null;
      free_ := bpList[0];
      lists := INITIAL;
      RepresentsInitial(bpList, Fields());
    }

    /** Takes the first free node; the caller puts it on the active list. */
    method NewBP(ghost n: int) returns (p: BP)
      requires Slots() && 0 <= n < NR_BP && free_ == bpList[n] && !Fields().marks[n]
      modifies this`free_, bpList`inUse
      ensures p == old(free_) && free_ == old(Fields().links[n])
      ensures Fields() == old(Fields()).(marks := old(Fields().marks)[n := true])
    {
      p := free_;
      free_ := free_.next;
      assert !p.inUse;
      p.inUse := true;
    }

    /** Puts the node of number n, taken off the active list, in front of the free list. */
    method FreeBP(p: BP, ghost n: int)
      requires Slots() && 0 <= n < NR_BP && p == bpList[n] && Fields().marks[n]
      modifies this`free_, bpList`inUse, bpList`next
      ensures free_ == p
      ensures var m := old(Fields());
              Fields() == m.(links := m.links[n := old(free_)], marks := m.marks[n := false])
    {
      assert p.inUse;
      p.inUse := false;
      p.next := free_;
      free_ := p;
    }

    /** What the two set functions do to the node they got. */
    method Fill(p: BP, ghost n: int, kind: Kind, addr: nat)
      requires Slots() && 0 <= n < NR_BP && p == bpList[n]
      modifies bpList`kind, bpList`addr, bpList`next
      ensures var m := old(Fields());
              Fields() == m.(links := m.links[n := head], kinds := m.kinds[n := kind], addrs := m.addrs[n := addr])
    {
      p.kind := kind;
      p.addr := addr;
      p.next := head;
    }

    /** set_breakpoint and set_watchpoint; ok says whether the assertion of new_BP holds. */
    method SetEntry(kind: Kind, addr: nat) returns (ok: bool, no: int)
      requires Valid()
      modifies this, bpList
      ensures Valid() && lists == Step(old(lists), Set(kind, addr))
      ensures ok <==> |old(lists).active| < NR_BP
      ensures ok ==> lists.active != [] && no == lists.active[0].no
    {
      hide Fields, Represents, AllDifferent;
      ghost var was, m := lists, Fields();
      RepresentsIdle(bpList, m, head, free_, was);
      ok := free_ != null;
      if !ok {
        no := 0;
        return;
      }
      RepresentsSet(bpList, m, head, free_, was, kind, addr);
      ghost var n := was.idle[0];
      var p := NewBP(n);
      Fill(p, n, kind, addr);
      head := p;
      lists := Step(was, Set(kind, addr));
      FieldsAt(n);
      no := p.NO;
    }

    /** What a walk along the active list sees at its k-th node. */
    lemma Walk(k: nat)
      requires Valid()
      ensures Slots() && InRange(NR_BP, Numbers(lists.active)) && head == At(null, bpList, Numbers(lists.active), 0)
      ensures |Numbers(lists.active)| == |lists.active|
      ensures k >= |lists.active| ==> At(null, bpList, Numbers(lists.active), k) == null
      ensures k < |lists.active| ==>
                var p := bpList[Numbers(lists.active)[k]];
                && p == At(null, bpList, Numbers(lists.active), k)
                && p.next == At(null, bpList, Numbers(lists.active), k + 1) && p.NO == Numbers(lists.active)[k] && p.inUse
                && p.kind == lists.active[k].kind && p.addr == lists.active[k].addr
    {
      hide Fields, Represents, AllDifferent, Numbers;
      RepresentsActive(bpList, Fields(), head, free_, lists, k);
      if k < |lists.active| {
        FieldsAt(Numbers(lists.active)[k]);
      }
    }

    /** The scan of delete_breakpoint: the active node of this number, and the one before it. */
    method FindNumber(no: int) returns (p: BP?, prev: BP?, ghost k: nat)
      requires Valid()
      ensures var numbers := Numbers(lists.active);
              && InRange(NR_BP, numbers) && k <= |numbers|
              && prev == (if k == 0 then null else bpList[numbers[k - 1]])
              && (p == null ==> no !in numbers)
              && (p != null ==> k < |numbers| && numbers[k] == no && p == bpList[no])
    {
      Walk(0);
      hide Valid, AllDifferent, Numbers, At;
      ghost var numbers := Numbers(lists.active);
      p, prev := head, null;
      k := 0;
      while p != null && p.NO != no
        invariant k <= |numbers| && p == At(null, bpList, numbers, k)
        invariant prev == if k == 0 then null else bpList[numbers[k - 1]]
        invariant forall j :: 0 <= j < k ==> numbers[j] != no
        decreases |numbers| - k
      {
        Walk(k);
        prev, p := p, p.next;
        k := k + 1;
      }
      Walk(k);
    }

    /** Takes the k-th node p, whose predecessor is prev, off the active list. */
    method Bypass(p: BP, prev: BP?, ghost numbers: seq<int>, ghost k: nat)
      requires Slots() && InRange(NR_BP, numbers) && k < |numbers| && p == bpList[numbers[k]]
      requires prev == if k == 0 then null else bpList[numbers[k - 1]]
      modifies this`head, bpList`next
      ensures Fields() == old(Fields()).(links := Bypassed(old(Fields().links), numbers, k))
      ensures head == if k == 0 then old(Fields().links)[numbers[k]] else old(head)
    {
      if prev == null {
        head := p.next;
      } else {
        prev.next := p.next;
      }
    }

    /** True, and the entry gone, exactly when the number is active. */
    method DeleteBreakpoint(no: int) returns (found: bool)
      requires Valid()
      modifies this, bpList
      ensures Valid() && lists == Step(old(lists), Delete(no))
      ensures found <==> no in Numbers(old(lists).active)
    {
      hide Fields, Represents, AllDifferent, Numbers, Bypassed;
      var p, prev, k := FindNumber(no);
      if p == null {
        return false;
      }
      ghost var was, m, numbers := lists, Fields(), Numbers(lists.active);
      RepresentsDelete(bpList, m, head, free_, was, k);
      Bypass(p, prev, numbers, k);
      FreeBP(p, no);
      lists := Step(was, Delete(no));
      found := true;
    }

    /** Frees the nodes from p to the end of the active list, the last one first. */
    method DeleteAllRecursively(p: BP?, ghost rest: seq<int>, ghost idle: seq<int>)
      requires Slots() && Chain(null, bpList, Fields().links, p, rest) && Chain(null, bpList, Fields().links, free_, idle)
      requires Distinct(rest + idle) && AllMarked(Fields().marks, rest)
      modifies this`free_, bpList`inUse, bpList`next
      ensures Chain(null, bpList, Fields().links, free_, rest + idle)
      ensures var m := old(Fields());
              Fields() == m.(links := Fields().links, marks := Cleared(m.marks, rest))
      decreases |rest|
    {
      hide Fields, Chain, Distinct, AllDifferent, Cleared, AllMarked;
      ChainPop<BP?>(null, bpList, Fields().links, p, rest);
      if p == null {
        NothingToFree(Fields().marks, idle);
        return;
      }
      ghost var n, tail := rest[0], rest[1..];
      FirstToFree(bpList, Fields().links, Fields().marks, p, rest, idle);
      FieldsAt(n);
      if p.next != null {
        DeleteAllRecursively(p.next, tail, idle);
      }
      FirstFreed(bpList, Fields().links, free_, n, tail, idle);
      FreeBP(p, n);
      assert [n] + (tail + idle) == rest + idle;
    }

    method DeleteAllBreakpoints()
      requires Valid()
      modifies this, bpList
      ensures Valid() && lists == Step(old(lists), DeleteAll)
    {
      hide Fields, Represents, Numbers, Distinct, AllDifferent, Partition, Chain, Cleared, AllMarked, Marked, Numbered;
      ghost var was, m := lists, Fields();
      RepresentsMarks(bpList, m, head, free_, was);
      DeleteAllRecursively(head, Numbers(was.active), was.idle);
      head := null;
      lists := Step(was, DeleteAll);
      RepresentsEmpty(bpList, m, Fields(), free_, was);
    }

    /** The newest breakpoint at the address, or null; every node passed is marked in use. */
    method FindBreakpoint(addr: nat) returns (p: BP?)
      requires Valid()
      ensures p == At(null, bpList, Numbers(lists.active), Find(lists.active, addr))
    {
      Walk(0);
      hide Valid, AllDifferent, Numbers, Find, At;
      ghost var active := lists.active;
      p := head;
      ghost var k := 0;
      while p != null
        invariant k <= |active|
        invariant p == At(null, bpList, Numbers(active), k)
        invariant forall j :: 0 <= j < k ==> !(active[j].kind == Breakpoint && active[j].addr == addr)
        decreases |active| - k
      {
        Walk(k);
        assert p.inUse;
        if p.kind == Breakpoint && p.addr == addr {
          break;
        }
        p := p.next;
        k := k + 1;
      }
      Walk(k);
      assert Find(active, addr) == k;
    }
  }
}
