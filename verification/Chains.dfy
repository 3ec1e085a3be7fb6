/**
 Lists of numbered nodes: sets of numbers without repetition, and the chains that the link
 fields of the nodes form.  Links are values here, so that chains can be reasoned about
 without the heap.
 */
module Chains {
  // ----- lists of numbers

  function UpTo(n: nat): seq<int> {
    if n == 0 then [] else UpTo(n - 1) + [n - 1]
  }

  ghost predicate Distinct(s: seq<int>) {
    forall i, j :: 0 <= i < j < |s| ==> s[i] != s[j]
  }

  lemma DistinctByCount(s: seq<int>)
    requires forall x :: x in s ==> multiset(s)[x] <= 1
    ensures Distinct(s)
  {
    forall i, j | 0 <= i < j < |s|
      ensures s[i] != s[j]
    {
      var left, right := s[..i + 1], s[i + 1..];
      assert left[i] == s[i] && right[j - i - 1] == s[j];
      assert s == left + right;
      assert multiset(s)[s[i]] == multiset(left)[s[i]] + multiset(right)[s[i]];
    }
  }

  lemma OnlyOnce(s: seq<int>, x: int, t: seq<int>)
    requires Distinct(s + ([x] + t))
    ensures x !in s
  {
    forall i | 0 <= i < |s|
      ensures s[i] != x
    {
      assert (s + ([x] + t))[i] == s[i] && (s + ([x] + t))[|s|] == x;
    }
  }

  lemma TailApart(n: int, tail: seq<int>, idle: seq<int>)
    requires Distinct([n] + tail + idle)
    ensures Distinct(tail + idle)
    ensures n !in tail && forall i :: 0 <= i < |tail + idle| ==> (tail + idle)[i] != n
  {
    var all, rest := [n] + tail + idle, tail + idle;
    assert all[1..] == rest;
    forall i | 0 <= i < |rest|
      ensures rest[i] != n
    {
      assert all[i + 1] == rest[i] && all[0] == n;
    }
    forall i, j | 0 <= i < j < |rest|
      ensures rest[i] != rest[j]
    {
      assert all[i + 1] == rest[i] && all[j + 1] == rest[j];
    }
    assert forall i :: 0 <= i < |tail| ==> rest[i] == tail[i];
  }

  lemma CutMembers(s: seq<int>, k: nat)
    requires k < |s| && Distinct(s)
    ensures forall i :: i in s[..k] + s[k + 1..] <==> i in s && i != s[k]
  {
    var cut := s[..k] + s[k + 1..];
    forall i | i in s && i != s[k]
      ensures i in cut
    {
      var j :| 0 <= j < |s| && s[j] == i;
      assert cut[if j < k then j else j - 1] == i;
    }
  }

  lemma DistinctParts(s: seq<int>, t: seq<int>)
    requires Distinct(s + t)
    ensures Distinct(s) && forall i :: 0 <= i < |t| ==> t[i] !in s
  {
    forall i, j | 0 <= i < j < |s|
      ensures s[i] != s[j]
    {
      assert (s + t)[i] == s[i] && (s + t)[j] == s[j];
    }
    forall i, j | 0 <= i < |t| && 0 <= j < |s|
      ensures t[i] != s[j]
    {
      assert (s + t)[|s| + i] == t[i] && (s + t)[j] == s[j];
    }
  }

  /** Each number below size exactly once. */
  ghost predicate Covers(size: nat, m: multiset<int>) {
    forall n :: m[n] == if 0 <= n < size then 1 else 0
  }

  lemma {:induction false} UpToHas(n: nat)
    ensures |UpTo(n)| == n
    ensures forall i :: 0 <= i < n ==> UpTo(n)[i] == i
  {
    if n > 0 {
      UpToHas(n - 1);
    }
  }

  lemma {:induction false} UpToOnce(n: nat, x: int)
    ensures multiset(UpTo(n))[x] == if 0 <= x < n then 1 else 0
  {
    if n > 0 {
      UpToOnce(n - 1, x);
    }
  }

  lemma CountedLength(m: multiset<int>, n: nat)
    requires forall x :: m[x] == if 0 <= x < n then 1 else 0
    ensures |m| == n
  {
    forall x
      ensures m[x] == multiset(UpTo(n))[x]
    {
      UpToOnce(n, x);
    }
    UpToHas(n);
    hide UpTo;
    assert m == multiset(UpTo(n));
  }

  lemma UpToCovers(n: nat)
    ensures Covers(n, multiset(UpTo(n)))
  {
    forall x
      ensures multiset(UpTo(n))[x] == if 0 <= x < n then 1 else 0
    {
      UpToOnce(n, x);
    }
  }

  lemma CoversMeans(size: nat, s: seq<int>)
    requires Covers(size, multiset(s))
    ensures |s| == size && Distinct(s)
    ensures forall n :: n in s <==> 0 <= n < size
  {
    CountedLength(multiset(s), size);
    DistinctByCount(s);
    hide Distinct;
    forall n
      ensures n in s <==> 0 <= n < size
    {
      assert n in s <==> multiset(s)[n] > 0;
    }
  }

  lemma CutCount(s: seq<int>, k: nat)
    requires k < |s|
    ensures multiset(s[..k] + s[k + 1..]) + multiset{s[k]} == multiset(s)
  {
    assert s == s[..k] + ([s[k]] + s[k + 1..]);
  }

  lemma PrependSlot(no: int, s: seq<int>, t: seq<int>)
    ensures multiset([no] + s) + multiset(t) == multiset(s) + multiset([no] + t)
  {
    assert multiset([no] + s) == multiset{no} + multiset(s);
    assert multiset([no] + t) == multiset{no} + multiset(t);
  }

  // ----- chains

  ghost predicate AllDifferent<T>(nodes: seq<T>) {
    forall i, j :: 0 <= i < j < |nodes| ==> nodes[i] != nodes[j]
  }

  ghost predicate InRange(size: nat, numbers: seq<int>) {
    forall i :: 0 <= i < |numbers| ==> 0 <= numbers[i] < size
  }

  /** The node of the i-th number, or none past the end. */
  ghost function At<T>(none: T, nodes: seq<T>, numbers: seq<int>, i: nat): T {
    if i < |numbers| && 0 <= numbers[i] < |nodes| then nodes[numbers[i]] else none
  }

  /** The nodes of these numbers, linked in this order from first to none. */
  ghost predicate Chain<T>(none: T, nodes: seq<T>, links: seq<T>, first: T, numbers: seq<int>)
    requires |nodes| == |links|
  {
    && InRange(|nodes|, numbers) && first == At(none, nodes, numbers, 0)
    && forall i :: 0 <= i < |numbers| ==> LinkedAt(none, nodes, links, numbers, i)
  }

  ghost predicate LinkedAt<T>(none: T, nodes: seq<T>, links: seq<T>, numbers: seq<int>, i: nat)
    requires |nodes| == |links| && InRange(|nodes|, numbers) && i < |numbers|
  {
    links[numbers[i]] == At(none, nodes, numbers, i + 1)
  }

  lemma ChainPush<T>(none: T, nodes: seq<T>, links: seq<T>, n: int, numbers: seq<int>)
    requires |nodes| == |links| && 0 <= n < |nodes|
    requires Chain(none, nodes, links, links[n], numbers)
    ensures Chain(none, nodes, links, nodes[n], [n] + numbers)
  {
    forall i | 0 <= i < |numbers| + 1
      ensures LinkedAt(none, nodes, links, [n] + numbers, i)
    {
      assert i > 0 ==> LinkedAt(none, nodes, links, numbers, i - 1);
    }
  }

  lemma ChainPop<T>(none: T, nodes: seq<T>, links: seq<T>, first: T, numbers: seq<int>)
    requires |nodes| == |links| && Chain(none, nodes, links, first, numbers)
    requires forall i :: 0 <= i < |nodes| ==> nodes[i] != none
    ensures first == none <==> numbers == []
    ensures first != none ==>
              && 0 <= numbers[0] < |nodes| && first == nodes[numbers[0]]
              && Chain(none, nodes, links, links[numbers[0]], numbers[1..])
  {
    if numbers != [] {
      assert LinkedAt(none, nodes, links, numbers, 0);
      forall i | 0 <= i < |numbers| - 1
        ensures LinkedAt(none, nodes, links, numbers[1..], i)
      {
        assert LinkedAt(none, nodes, links, numbers, i + 1);
      }
    }
  }

  lemma ChainAt<T>(none: T, nodes: seq<T>, links: seq<T>, first: T, numbers: seq<int>, k: nat)
    requires |nodes| == |links| && Chain(none, nodes, links, first, numbers) && k < |numbers|
    ensures InRange(|nodes|, numbers) && links[numbers[k]] == At(none, nodes, numbers, k + 1)
  {
    assert LinkedAt(none, nodes, links, numbers, k);
  }

  /** Relinking a node outside a chain does not touch the chain. */
  lemma ChainFrame<T>(none: T, nodes: seq<T>, links: seq<T>, first: T, numbers: seq<int>, n: int, p: T)
    requires |nodes| == |links| && Chain(none, nodes, links, first, numbers)
    requires 0 <= n < |nodes| && forall i :: 0 <= i < |numbers| ==> numbers[i] != n
    ensures Chain(none, nodes, links[n := p], first, numbers)
  {
    var after := links[n := p];
    forall i | 0 <= i < |numbers|
      ensures LinkedAt(none, nodes, after, numbers, i)
    {
      assert LinkedAt(none, nodes, links, numbers, i);
    }
  }

  /** Linking the predecessor past the k-th node takes it out of the chain. */
  lemma ChainUnlink<T>(none: T, nodes: seq<T>, links: seq<T>, first: T, numbers: seq<int>, k: nat)
    requires |nodes| == |links| && Chain(none, nodes, links, first, numbers)
    requires 0 < k < |numbers| && Distinct(numbers)
    ensures Chain(none, nodes, links[numbers[k - 1] := links[numbers[k]]], first, numbers[..k] + numbers[k + 1..])
  {
    var fewer := numbers[..k] + numbers[k + 1..];
    var after := links[numbers[k - 1] := links[numbers[k]]];
    assert InRange(|nodes|, fewer);
    forall i | 0 <= i < |fewer|
      ensures LinkedAt(none, nodes, after, fewer, i)
    {
      assert LinkedAt(none, nodes, links, numbers, k);
      assert LinkedAt(none, nodes, links, numbers, if i < k then i else i + 1);
      if i < k - 1 {
        assert fewer[i] == numbers[i] && fewer[i + 1] == numbers[i + 1];
      } else if i == k - 1 {
        assert fewer[i] == numbers[i];
        assert i + 1 < |fewer| ==> fewer[i + 1] == numbers[i + 2];
      } else {
        assert fewer[i] == numbers[i + 1];
        assert i + 1 < |fewer| ==> fewer[i + 1] == numbers[i + 2];
      }
    }
  }

  /** The links after the k-th node of the list is bypassed. */
  function Bypassed<T>(links: seq<T>, numbers: seq<int>, k: nat): (s: seq<T>)
    requires InRange(|links|, numbers) && k < |numbers|
    ensures |s| == |links|
  {
    if k == 0 then links else links[numbers[k - 1] := links[numbers[k]]]
  }

  /** Bypassing the k-th node of one list and putting it in front of another one. */
  lemma BypassedChains<T>(none: T, nodes: seq<T>, links: seq<T>, head: T, numbers: seq<int>, free: T, idle: seq<int>, k: nat)
    requires |nodes| == |links| && k < |numbers| && Distinct(numbers)
    requires forall i :: 0 <= i < |nodes| ==> nodes[i] != none
    requires Chain(none, nodes, links, head, numbers) && Chain(none, nodes, links, free, idle)
    requires forall i :: 0 <= i < |idle| ==> idle[i] !in numbers
    ensures var n := numbers[k];
            var after := Bypassed(links, numbers, k)[n := free];
            && Chain(none, nodes, after, if k == 0 then links[n] else head, numbers[..k] + numbers[k + 1..])
            && Chain(none, nodes, after, nodes[n], [n] + idle)
  {
    var n, between := numbers[k], Bypassed(links, numbers, k);
    var fewer := numbers[..k] + numbers[k + 1..];
    var head' := if k == 0 then links[n] else head;
    CutMembers(numbers, k);
    assert forall i :: 0 <= i < |fewer| ==> fewer[i] in fewer;
    if k == 0 {
      ChainPop(none, nodes, links, head, numbers);
      assert fewer == numbers[1..];
    } else {
      ChainUnlink(none, nodes, links, head, numbers, k);
      ChainFrame(none, nodes, links, free, idle, numbers[k - 1], links[n]);
    }
    hide Distinct;
    ChainFrame(none, nodes, between, head', fewer, n, free);
    ChainFrame(none, nodes, between, free, idle, n, free);
    ChainPush(none, nodes, between[n := free], n, idle);
  }

  // ----- backward links

  ghost predicate BackAt<T>(none: T, nodes: seq<T>, links: seq<T>, numbers: seq<int>, i: nat)
    requires |nodes| == |links| && InRange(|nodes|, numbers) && i < |numbers|
  {
    links[numbers[i]] == if i == 0 then none else nodes[numbers[i - 1]]
  }

  /** Each node of the list is linked to the one before it. */
  ghost predicate BackChain<T>(none: T, nodes: seq<T>, links: seq<T>, numbers: seq<int>)
    requires |nodes| == |links|
  {
    InRange(|nodes|, numbers) && forall i :: 0 <= i < |numbers| ==> BackAt(none, nodes, links, numbers, i)
  }

  lemma BackPush<T>(none: T, nodes: seq<T>, links: seq<T>, n: int, numbers: seq<int>)
    requires |nodes| == |links| && BackChain(none, nodes, links, numbers)
    requires 0 <= n < |nodes| && Distinct(numbers) && forall i :: 0 <= i < |numbers| ==> numbers[i] != n
    ensures var links' := links[n := none];
            BackChain(none, nodes, if numbers == [] then links' else links'[numbers[0] := nodes[n]], [n] + numbers)
  {
    var after := if numbers == [] then links[n := none] else links[n := none][numbers[0] := nodes[n]];
    forall i | 0 <= i < |numbers| + 1
      ensures BackAt(none, nodes, after, [n] + numbers, i)
    {
      assert i > 0 ==> BackAt(none, nodes, links, numbers, i - 1);
    }
  }

  /** Linking the successor of the k-th node to its predecessor takes it out of the list. */
  lemma BackCut<T>(none: T, nodes: seq<T>, links: seq<T>, numbers: seq<int>, k: nat)
    requires |nodes| == |links| && BackChain(none, nodes, links, numbers)
    requires k < |numbers| && Distinct(numbers)
    ensures var after := if k + 1 < |numbers| then links[numbers[k + 1] := links[numbers[k]]] else links;
            BackChain(none, nodes, after, numbers[..k] + numbers[k + 1..])
  {
    var fewer := numbers[..k] + numbers[k + 1..];
    var after := if k + 1 < |numbers| then links[numbers[k + 1] := links[numbers[k]]] else links;
    assert InRange(|nodes|, fewer);
    forall i | 0 <= i < |fewer|
      ensures BackAt(none, nodes, after, fewer, i)
    {
      assert BackAt(none, nodes, links, numbers, k);
      assert BackAt(none, nodes, links, numbers, if i < k then i else i + 1);
      assert fewer[i] == numbers[if i < k then i else i + 1];
      assert i > 0 ==> fewer[i - 1] == numbers[if i <= k then i - 1 else i];
    }
  }
}
