/**
 The typing game on its linked nodes: creating, moving, removing and answering letters, and the
 main loop, refining the state machine of TypingGame.
 game/include/adt/linklist.h, game/src/typing/effect.c, keyboard.c and game.c.
 */
module TypingMachine {
  import opened Chains
  import opened TypingGame
  import opened TypingRuns
  import opened TypingPool

  // ----- one round of update_letter_pos, letter by letter

  lemma {:induction false} KeptNext(fs: seq<Fly>, i: nat)
    requires i < |fs|
    ensures var f := Moved(fs[i]);
            && Kept(fs[..i + 1]) == Kept(fs[..i]) + (if Leaves(f) then [] else [f])
            && Gone(fs[..i + 1]) == Gone(fs[..i]) + (if Leaves(f) then [f] else [])
    decreases i
  {
    hide Leaves, Moved;
    assert fs[..i + 1][1..] == fs[1..][..i];
    if i > 0 {
      KeptNext(fs[1..], i - 1);
      assert fs[..i][1..] == fs[1..][..i - 1];
    }
  }

  lemma {:induction false} FreedNext(gone: seq<Fly>, f: Fly, idle: seq<int>)
    ensures Freed(gone + [f], idle) == [f.slot] + Freed(gone, idle)
    ensures Hits(gone + [f]) == Hits(gone) + if f.x < 0.0 then 1 else 0
    decreases |gone|
  {
    if gone != [] {
      assert (gone + [f])[1..] == gone[1..] + [f];
      FreedNext(gone[1..], f, [gone[0].slot] + idle);
    }
  }

  /** The game when update_letter_pos has passed the first i letters. */
  ghost function Passed(g: Game, i: nat): Game
    requires i <= |g.live|
  {
    var gone := Gone(g.live[..i]);
    g.(live := Kept(g.live[..i]) + g.live[i..], idle := Freed(gone, g.idle),
       hit := g.hit + Hits(gone), miss := g.miss + (|gone| - Hits(gone)))
  }

  /** The game when the letter at position k of its list is moved, and removed if it left. */
  function MovedAt(g: Game, k: nat): Game
    requires k < |g.live|
  {
    var f := Moved(g.live[k]);
    if Leaves(f) then
      g.(live := g.live[..k] + g.live[k + 1..], idle := [f.slot] + g.idle,
         hit := g.hit + (if f.x < 0.0 then 1 else 0), miss := g.miss + (if f.x < 0.0 then 0 else 1))
    else
      g.(live := g.live[k := f])
  }

  lemma PassedNext(g: Game, i: nat)
    requires i < |g.live|
    ensures var k := |Kept(g.live[..i])|;
            && k < |Passed(g, i).live| && Passed(g, i).live[k] == g.live[i]
            && Passed(g, i + 1) == MovedAt(Passed(g, i), k)
            && |Kept(g.live[..i + 1])| == if Leaves(Moved(g.live[i])) then k else k + 1
  {
    var f, kept, gone := Moved(g.live[i]), Kept(g.live[..i]), Gone(g.live[..i]);
    KeptNext(g.live, i);
    FreedNext(gone, f, g.idle);
    assert f.slot == g.live[i].slot;
    hide Kept, Gone, Freed, Hits, Leaves, Moved;
    assert g.live[i..] == [g.live[i]] + g.live[i + 1..];
    CutAt(kept, g.live[i], g.live[i + 1..], f);
    assert Passed(g, i).live == kept + ([g.live[i]] + g.live[i + 1..]);
    assert Gone(g.live[..i + 1]) == if Leaves(f) then gone + [f] else gone;
  }

  lemma CutAt(a: seq<Fly>, e: Fly, b: seq<Fly>, f: Fly)
    ensures var s := a + ([e] + b);
            && s[|a|] == e && s[|a| := f] == a + [f] + b && s[..|a|] + s[|a| + 1..] == a + b
  {
  }

  lemma PassedLength(g: Game, i: nat)
    requires i <= |g.live|
    ensures |Passed(g, i).live| == |Kept(g.live[..i])| + |g.live| - i
  {
  }

  lemma PassedAll(g: Game)
    ensures Passed(g, |g.live|) == Updated(g) && Passed(g, 0) == g
  {
    assert g.live[..|g.live|] == g.live && g.live[0..] == g.live;
  }

  // ----- the state of the game

  class Machine {
    const pool: seq<Letter>
    const keys: array<bool>
    /** What the keyboard and rand() give in the round for a tick. */
    const rounds: nat -> Round
    var freeHead: Letter?
    var head: Letter?
    var hit: nat
    var miss: nat
    var now: nat
    /** The letters that the nodes hold, and the free slots. */
    ghost var live: seq<Fly>
    ghost var idle: seq<int>

    constructor (rounds: nat -> Round)
      ensures Valid() && this.rounds == rounds && State() == START
      ensures fresh(pool) && fresh(keys)
    {
      hide Represents, UpTo;
      var nodes: seq<Letter> := [];
      while |nodes| < SLOTS
        invariant |nodes| <= SLOTS
        invariant fresh(nodes)
        invariant AllDifferent(nodes)
        invariant forall i :: 0 <= i < |nodes| ==> nodes[i].next == null
      {
        var node := new Letter();
        nodes := nodes + [node];
      }
      pool := nodes;
      keys := new bool[LETTERS](_ => false);
      this.rounds := rounds;
      freeHead, head := null, null;
      hit, miss, now := 0, 0, 0;
      live, idle := [], UpTo(SLOTS);
      new;
      RepresentsStart(pool, Fields());
      assert keys[..] == START.keys;
    }

    /** The static array: SLOTS different nodes. */
    ghost predicate Nodes() {
      |pool| == SLOTS && AllDifferent(pool) && keys.Length == LETTERS
    }

    /** The fields of the nodes as a value. */
    ghost function Fields(): (m: Image)
      requires Nodes()
      reads pool
      ensures m.Full()
    {
      Image(seq(SLOTS, i requires 0 <= i < SLOTS reads pool => pool[i].next),
            seq(SLOTS, i requires 0 <= i < SLOTS reads pool => pool[i].prev),
            seq(SLOTS, i requires 0 <= i < SLOTS reads pool => Body(pool[i].x, pool[i].y, pool[i].v, pool[i].text)))
    }

    lemma FieldsAt(n: int)
      requires Nodes() && 0 <= n < SLOTS
      ensures var p, m := pool[n], Fields();
              m.nexts[n] == p.next && m.prevs[n] == p.prev && m.bodies[n] == Body(p.x, p.y, p.v, p.text)
    {
    }

    ghost predicate Valid()
      reads this, pool
    {
      Nodes() && Represents(pool, Fields(), head, freeHead, live, idle)
    }

    ghost function State(): Game
      reads this, keys
    {
      Game(live, idle, hit, miss, keys[..], now)
    }

    // ----- linklist.h

    /** The first call of fly_new links the whole pool. */
    method LinkPool()
      requires Valid()
      modifies this`freeHead, pool`next
      ensures Valid() && freeHead != null
      ensures Fields() == old(Fields()).(nexts := Fields().nexts)
    {
      if freeHead == null {
        ghost var m := Fields();
        Unlinked(pool, m, head, live, idle);
        hide Represents;
        var i := 1;
        while i <= SIZE
          invariant 1 <= i <= SIZE + 1
          invariant forall j :: 0 <= j < i - 1 ==> pool[j].next == pool[j + 1]
          invariant pool[SIZE].next == null
        {
          pool[i - 1].next := pool[i];
          i := i + 1;
        }
        freeHead := pool[0];
        RepresentsLinked(pool, m, Fields(), live, idle);
      }
    }

    /** Takes a node off the free list; m and first are the nodes and the list before. */
    method FlyNew() returns (ret: Letter, ghost m: Image, ghost first: Letter?)
      requires Valid() && |idle| >= 2
      modifies this`freeHead, pool`next, pool`prev
      ensures m.Full() && first != null && Represents(pool, m, head, first, live, idle)
      ensures m.bodies == old(Fields()).bodies
      ensures var n := idle[0];
              && 0 <= n < SLOTS && ret == pool[n] && freeHead == m.nexts[n]
              && Fields() == m.(nexts := m.nexts[n := null], prevs := m.prevs[n := null])
    {
      hide Represents, Fields, AllDifferent;
      LinkPool();
      m, first := Fields(), freeHead;
      RepresentsFree(pool, m, head, freeHead, live, idle);
      FieldsAt(idle[0]);
      assert freeHead.next != null;
      ret := freeHead;
      TakeFirst(idle[0]);
    }

    method TakeFirst(ghost n: int)
      requires Nodes() && 0 <= n < SLOTS && freeHead == pool[n]
      modifies this`freeHead, pool`next, pool`prev
      ensures var m := old(Fields());
              freeHead == m.nexts[n] && Fields() == m.(nexts := m.nexts[n := null], prevs := m.prevs[n := null])
    {
      var ret := freeHead;
      freeHead := freeHead.next;
      ret.prev, ret.next := null, null;
    }

    /** Links obj between two neighbours, one of which may be missing; a, b and n are their slots. */
    method FlyInsert(prev: Letter?, next: Letter?, obj: Letter, ghost a: int, ghost b: int, ghost n: int)
      requires Nodes() && 0 <= n < SLOTS && obj == pool[n] && (prev != null || next != null)
      requires prev != null ==> 0 <= a < SLOTS && a != n && prev == pool[a]
      requires next != null ==> 0 <= b < SLOTS && b != n && next == pool[b]
      modifies pool`next, pool`prev
      ensures var m := old(Fields());
              var nexts, prevs := m.nexts[n := next], m.prevs[n := prev];
              Fields() == m.(nexts := if prev != null then nexts[a := obj] else nexts,
                             prevs := if next != null then prevs[b := obj] else prevs)
    {
      hide Fields, AllDifferent;
      SetPrev(obj, n, prev);
      SetNext(obj, n, next);
      if prev != null {
        SetNext(prev, a, obj);
      }
      if next != null {
        SetPrev(next, b, obj);
      }
    }

    method SetNext(p: Letter, ghost n: int, next: Letter?)
      requires Nodes() && 0 <= n < SLOTS && p == pool[n]
      modifies pool`next
      ensures var m := old(Fields()); Fields() == m.(nexts := m.nexts[n := next])
    {
      p.next := next;
    }

    method SetPrev(p: Letter, ghost n: int, prev: Letter?)
      requires Nodes() && 0 <= n < SLOTS && p == pool[n]
      modifies pool`prev
      ensures var m := old(Fields()); Fields() == m.(prevs := m.prevs[n := prev])
    {
      p.prev := prev;
    }

    /** Unlinks the k-th node of the list. */
    method FlyRemove(node: Letter, ghost slots: seq<int>, ghost k: nat)
      requires Nodes() && InRange(SLOTS, slots) && k < |slots| && node == pool[slots[k]]
      requires node.prev == if k == 0 then null else pool[slots[k - 1]]
      requires node.next == if k + 1 < |slots| then pool[slots[k + 1]] else null
      modifies pool`next, pool`prev
      ensures var m := old(Fields());
              Fields() == m.(nexts := Bypassed(m.nexts, slots, k), prevs := PrevsCut(m.prevs, slots, k))
    {
      hide Fields, AllDifferent;
      FieldsAt(slots[k]);
      var prev, next := node.prev, node.next;
      if prev != null {
        SetNext(prev, slots[k - 1], next);
      }
      if next != null {
        SetPrev(next, slots[k + 1], prev);
      }
    }

    method FlyFree(node: Letter, ghost n: int)
      requires Nodes() && 0 <= n < SLOTS && node == pool[n]
      modifies this`freeHead, pool`next
      ensures var m := old(Fields()); Fields() == m.(nexts := m.nexts[n := old(freeHead)])
      ensures freeHead == node
    {
      node.next := freeHead;
      freeHead := node;
    }

    // ----- effect.c

    method ReleaseKey(index: int)
      requires keys.Length == LETTERS && 0 <= index < LETTERS
      modifies keys
      ensures keys[..] == old(keys[..])[index := false]
    {
      keys[index] := false;
    }

    lemma Others(n: int)
      requires Nodes() && 0 <= n < SLOTS
      ensures forall i :: 0 <= i < SLOTS && i != n ==> pool[i] != pool[n]
    {
    }

    /** The fields of a new letter. */
    method Fill(f: Letter, ghost n: int, d: Draw)
      requires Nodes() && 0 <= n < SLOTS && f == pool[n]
      modifies pool`x, pool`y, pool`v, pool`text
      ensures var m, b := old(Fields()), BodyOf(NewFly(n, d, now));
              Fields() == m.(bodies := m.bodies[n := b]) && f.text == b.text && 0 <= b.text < LETTERS
    {
      Others(n);
      hide AllDifferent;
      f.x := 0.0;
      f.y := d.y % (SCR_WIDTH / 8 - 2) * 8 + 8;
      f.v := (d.v % 1000 / 2000) as real + 0.5;
      f.text := d.text % LETTERS;
    }

    /** A new node in front of the list; m and first are the nodes and the free list before. */
    method LinkFront() returns (ghost m: Image, ghost first: Letter?)
      requires Valid() && |idle| >= 2
      modifies this`head, this`freeHead, pool`next, pool`prev
      ensures m.Full() && first != null && Represents(pool, m, old(head), first, live, idle)
      ensures var n := idle[0];
              && 0 <= n < SLOTS && InRange(SLOTS, Slots(live)) && head == pool[n] && freeHead == m.nexts[n]
              && Fields() == Image(m.nexts[n := old(head)], PrevsPushed(pool, m.prevs, n, Slots(live)), m.bodies)
    {
      hide Represents, Fields, AllDifferent;
      ghost var n := idle[0];
      var obj;
      obj, m, first := FlyNew();
      RepresentsFree(pool, m, head, first, live, idle);
      if head == null {
        head := obj;
      } else {
        FlyInsert(null, head, obj, 0, Slots(live)[0], n);
        head := obj;
      }
    }

    method CreateNewLetter()
      requires Valid() && |idle| >= 2
      modifies this`head, this`freeHead, this`live, this`idle, pool, keys
      ensures Valid() && State() == Created(old(State()), rounds(now).draw)
    {
      hide Represents, Fields, AllDifferent, NewFly, Created;
      ghost var g := State();
      ghost var n := idle[0];
      ghost var f := NewFly(n, rounds(now).draw, now);
      var m, first := LinkFront();
      NewSlot(n, rounds(now).draw, now);
      RepresentsCreate(pool, m, old(head), first, live, idle, f);
      Fill(head, n, rounds(now).draw);
      ReleaseKey(head.text);
      live, idle := [f] + live, idle[1..];
      CreatedIs(g, rounds(now).draw, keys[..]);
    }

    /** The position of a letter after one move. */
    method Move(f: Letter, ghost n: int)
      requires Nodes() && 0 <= n < SLOTS && f == pool[n]
      modifies pool`x
      ensures var m := old(Fields());
              Fields() == m.(bodies := m.bodies[n := m.bodies[n].(x := m.bodies[n].x + m.bodies[n].v)])
      ensures f.x == old(Fields()).bodies[n].x + old(Fields()).bodies[n].v
    {
      f.x := f.x + f.v;
    }

    /** Takes the k-th letter off the list, frees its node and moves the head past it. */
    method RemoveLetter(it: Letter, next: Letter?, ghost k: nat)
      requires Valid() && k < |live| && 0 <= live[k].slot < SLOTS && it == pool[live[k].slot] && next == it.next
      modifies this`head, this`freeHead, this`live, this`idle, pool`next, pool`prev
      ensures Valid() && live == old(live[..k] + live[k + 1..]) && idle == [old(live)[k].slot] + old(idle)
    {
      hide Represents, Fields, AllDifferent, Bypassed, PrevsCut, Slots, Distinct;
      ghost var m, slots, n := Fields(), Slots(live), live[k].slot;
      RepresentsRemove(pool, m, head, freeHead, live, idle, k);
      RepresentsLinks(pool, m, head, freeHead, live, idle, k);
      SlotAt(live, k);
      FieldsAt(n);
      HeadIs(pool, slots, k);
      FlyRemove(it, slots, k);
      FlyFree(it, n);
      if it == head {
        head := next;
      }
      live, idle := live[..k] + live[k + 1..], [n] + idle;
    }

    /** One round of update_letter_pos, for the letter at position k; it returns the letter behind it. */
    method StepLetter(it: Letter, ghost k: nat) returns (next: Letter?)
      requires Valid() && k < |live| && it == At(null, pool, Slots(live), k)
      modifies this`head, this`freeHead, this`live, this`idle, this`hit, this`miss, pool`next, pool`prev, pool`x
      ensures Valid() && State() == MovedAt(old(State()), k)
      ensures next == At(null, pool, Slots(live), if Leaves(Moved(old(live)[k])) then k else k + 1)
    {
      hide Represents, Fields, AllDifferent, At, Slots;
      ghost var f, n := Moved(live[k]), live[k].slot;
      RepresentsAt(pool, Fields(), head, freeHead, live, idle, k);
      RepresentsChange(pool, Fields(), head, freeHead, live, idle, k, f);
      FieldsAt(n);
      Behind(pool, live, k, f);
      next := it.next;
      Move(it, n);
      live := live[k := f];
      if it.x < 0.0 || it.x + 7.9 > SCR_HEIGHT {
        if it.x < 0.0 {
          hit := hit + 1;
        } else {
          miss := miss + 1;
        }
        RemoveLetter(it, next, k);
      }
    }

    /** What a walk along the list sees at its k-th node. */
    lemma Walk(k: nat)
      requires Valid()
      ensures Nodes() && head == At(null, pool, Slots(live), 0)
      ensures k >= |live| ==> At(null, pool, Slots(live), k) == null
      ensures k < |live| ==>
                && 0 <= live[k].slot < SLOTS
                && var p := pool[live[k].slot];
                   && At(null, pool, Slots(live), k) == p && p.next == At(null, pool, Slots(live), k + 1)
                   && BodyOf(live[k]) == Body(p.x, p.y, p.v, p.text)
    {
      hide Represents, Fields, AllDifferent, At, Slots;
      RepresentsAt(pool, Fields(), head, freeHead, live, idle, k);
      if k < |live| {
        FieldsAt(live[k].slot);
      }
    }

    method UpdateLetterPos()
      requires Valid()
      modifies this`head, this`freeHead, this`live, this`idle, this`hit, this`miss, pool
      ensures Valid() && State() == Updated(old(State()))
    {
      hide Valid, Updated, Passed, MovedAt, At;
      ghost var g := State();
      PassedAll(g);
      ghost var i := 0;
      assert g.live[..0] == [] && Kept([]) == [];
      Walk(0);
      var it := head;
      while it != null
        invariant Valid() && i <= |g.live| && State() == Passed(g, i)
        invariant Nodes() && it == At(null, pool, Slots(live), |Kept(g.live[..i])|)
        decreases |g.live| - i
      {
        Walk(|Kept(g.live[..i])|);
        PassedLength(g, i);
        PassedNext(g, i);
        it := StepLetter(it, |Kept(g.live[..i])|);
        i := i + 1;
      }
      Walk(|Kept(g.live[..i])|);
      PassedLength(g, i);
    }

    /** The scan of update_keypress: the lowest falling letter whose key is pressed, or null. */
    method FindTarget() returns (target: Letter?, ghost t: nat)
      requires Valid() && AllInFlight(live, now)
      ensures target == null ==> forall k :: 0 <= k < |live| ==> !Candidate(live[k], keys[..])
      ensures target != null ==>
                && t < |live| && Target(live, keys[..], t)
                && 0 <= live[t].slot < SLOTS && target == pool[live[t].slot]
    {
      hide Valid, At, AllInFlight, Candidate, Below, AllDifferent;
      Walk(0);
      var it := head;
      target, t := null, 0;
      var min := -100.0;
      ghost var k := 0;
      while it != null
        invariant k <= |live| && it == At(null, pool, Slots(live), k)
        invariant target == null ==> min == -100.0 && forall j :: 0 <= j < k ==> !Candidate(live[j], keys[..])
        invariant target != null ==>
                    && t < k && 0 <= live[t].slot < SLOTS && target == pool[live[t].slot] && min == live[t].x
                    && BestOf(live, keys[..], k, t)
        decreases |live| - k
      {
        Walk(k);
        InFlightAt(live, now, k);
        assert 0 <= it.text < LETTERS;
        CandidateIs(live[k], keys[..]);
        if target != null {
          BestNext(live, keys[..], k, t);
        } else {
          BestFirst(live, keys[..], k);
        }
        if it.v > 0.0 && it.x > min && keys[it.text] {
          min := it.x;
          target := it;
          t := k;
        }
        it := it.next;
        k := k + 1;
      }
      Walk(k);
    }

    /** Turns the lowest falling letter of a pressed key back up and releases the key, if there is one. */
    method UpdateKeypress() returns (found: bool, ghost t: nat)
      requires Valid() && AllInFlight(live, now)
      modifies this`live, pool`v, keys
      ensures Valid() && (found ==> t < |old(live)| && Target(old(live), old(keys[..]), t))
      ensures !found ==> State() == old(State()) && forall k :: 0 <= k < |live| ==> !Candidate(live[k], keys[..])
      ensures found ==>
                var g := old(State());
                State() == g.(live := g.live[t := g.live[t].(v := -3.0)], keys := g.keys[g.live[t].text := false])
    {
      hide Represents, Fields, AllDifferent, AllInFlight, Below;
      var target;
      target, t := FindTarget();
      found := target != null;
      if target != null {
        ghost var f := live[t].(v := -3.0);
        RepresentsAt(pool, Fields(), head, freeHead, live, idle, t);
        RepresentsChange(pool, Fields(), head, freeHead, live, idle, t, f);
        FieldsAt(f.slot);
        ReleaseKey(target.text);
        TurnBack(target, f.slot);
        live := live[t := f];
      }
    }

    method TurnBack(f: Letter, ghost n: int)
      requires Nodes() && 0 <= n < SLOTS && f == pool[n]
      modifies pool`v
      ensures var m := old(Fields()); Fields() == m.(bodies := m.bodies[n := m.bodies[n].(v := -3.0)])
    {
      f.v := -3.0;
    }

    /** The loop of update_keypress calls: every press that a falling letter wants is answered. */
    method AnswerKeys()
      requires Valid() && AllInFlight(live, now)
      modifies this`live, pool`v, keys
      ensures Valid()
      ensures var g := old(State());
              State() == g.(live := Answered(g.live, g.keys), keys := Unanswered(g.live, g.keys))
    {
      hide Represents, AllInFlight, Target, Candidate, Answered, Unanswered;
      ghost var g := State();
      var found, t := UpdateKeypress();
      if found {
        AnsweredOne(g.live, g.keys, t, now);
      }
      while found
        invariant Valid() && AllInFlight(live, now)
        invariant State() == g.(live := live, keys := keys[..])
        invariant Answered(live, keys[..]) == Answered(g.live, g.keys)
        invariant Unanswered(live, keys[..]) == Unanswered(g.live, g.keys)
        invariant !found ==> forall k :: 0 <= k < |live| ==> !Candidate(live[k], keys[..])
        decreases CountTrue(keys[..]), found
      {
        ghost var l, s := live, keys[..];
        found, t := UpdateKeypress();
        if found {
          AnsweredOne(l, s, t, now);
        }
      }
      AnswerNone(live, keys[..]);
    }

    /** A key goes down. */
    method PressKey(letter: nat)
      requires Valid()
      modifies keys
      ensures Valid() && State() == Step(old(State()), Press(letter), rounds)
    {
      hide Represents;
      if letter < LETTERS {
        keys[letter] := true;
      }
    }

    /** Keyboard interrupts during the catch-up loop. */
    method PressKeys(letters: seq<nat>)
      requires Valid()
      modifies keys
      ensures Valid() && State() == Pressed(old(State()), letters)
    {
      hide Represents;
      ghost var g := State();
      var i := 0;
      while i < |letters|
        invariant 0 <= i <= |letters|
        invariant Valid() && State() == Pressed(g, letters[..i])
      {
        PressedNext(g, letters, i);
        PressKey(letters[i]);
        i := i + 1;
      }
      assert letters[..i] == letters;
    }

    /** One round of the catch-up loop. */
    method CatchUp()
      requires Valid() && Invariant(State())
      modifies this, pool, keys
      ensures Valid() && Invariant(State()) && State() == Tick(old(State()), rounds(old(now)))
    {
      hide Represents, AllDifferent, Created, Updated, Invariant;
      ghost var g := State();
      TickKeeps(g, rounds(now));
      PressKeys(rounds(now).pressed);
      if now % (HZ / CHARACTER_PER_SECOND) == 0 {
        CreateNewLetter();
      }
      UpdateLetterPos();
      now := now + 1;
    }

    /** One round of the main loop when the timer shows tick; the source asserts now <= tick. */
    method Iterate(tick: nat)
      requires Valid() && Invariant(State()) && now <= tick
      modifies this, pool, keys
      ensures Valid() && Invariant(State())
      ensures State() == Step(old(State()), Frame(tick), rounds)
    {
      hide Represents, AllDifferent, Answered, Unanswered, Tick;
      if now == tick {
        return;
      }
      ghost var g := State();
      var target := tick;
      AnsweredInvariant(g);
      hide Invariant;
      AnswerKeys();
      while now < target
        invariant Valid() && Invariant(State()) && now <= target
        invariant Ticks(State(), target, rounds) == Step(g, Frame(tick), rounds)
      {
        CatchUp();
      }
    }
  }

  lemma PressedNext(g: Game, letters: seq<nat>, i: nat)
    requires |g.keys| == LETTERS && i < |letters|
    ensures Pressed(Pressed(g, letters[..i]), [letters[i]]) == Pressed(g, letters[..i + 1])
  {
    assert letters[..i + 1] == letters[..i] + [letters[i]];
  }

  function CountTrue(s: seq<bool>): nat {
    if s == [] then 0 else (if s[0] then 1 else 0) + CountTrue(s[1..])
  }

  lemma {:induction false} CountDrops(s: seq<bool>, i: nat)
    requires i < |s| && s[i]
    ensures CountTrue(s[i := false]) < CountTrue(s)
    decreases i
  {
    if i > 0 {
      CountDrops(s[1..], i - 1);
      assert s[i := false][1..] == s[1..][i - 1 := false];
    } else {
      assert s[0 := false][1..] == s[1..];
    }
  }

  /** What answering one key changes, and what is still to be done. */
  lemma AnsweredOne(live: seq<Fly>, keys: seq<bool>, t: nat, now: nat)
    requires |keys| == LETTERS && t < |live| && Target(live, keys, t) && AllInFlight(live, now)
    ensures 0 <= live[t].text < LETTERS
    ensures var live', keys' := live[t := live[t].(v := -3.0)], keys[live[t].text := false];
            && Answered(live', keys') == Answered(live, keys) && Unanswered(live', keys') == Unanswered(live, keys)
            && AllInFlight(live', now) && CountTrue(keys') < CountTrue(keys)
  {
    AnswerOne(live, keys, t);
    CountDrops(keys, live[t].text);
    assert InFlight(live[t], now - live[t].born);
    hide Answered, Unanswered, CountTrue, Below;
  }

  /** Letter t is the lowest candidate among the first k letters. */
  ghost predicate BestOf(live: seq<Fly>, keys: seq<bool>, k: nat, t: nat)
    requires |keys| == LETTERS && t < k <= |live|
  {
    Candidate(live[t], keys) && forall j :: 0 <= j < k && Candidate(live[j], keys) ==> Below(live, t, j)
  }

  lemma BestNext(live: seq<Fly>, keys: seq<bool>, k: nat, t: nat)
    requires |keys| == LETTERS && t < k < |live| && BestOf(live, keys, k, t)
    ensures Candidate(live[k], keys) && live[k].x > live[t].x ==> BestOf(live, keys, k + 1, k)
    ensures !Candidate(live[k], keys) || live[k].x <= live[t].x ==> BestOf(live, keys, k + 1, t)
  {
  }

  lemma BestFirst(live: seq<Fly>, keys: seq<bool>, k: nat)
    requires |keys| == LETTERS && k < |live| && forall j :: 0 <= j < k ==> !Candidate(live[j], keys)
    ensures Candidate(live[k], keys) ==> BestOf(live, keys, k + 1, k)
  {
  }

  lemma CandidateIs(f: Fly, keys: seq<bool>)
    requires |keys| == LETTERS && 0 <= f.text < LETTERS
    ensures Candidate(f, keys) <==> f.v > 0.0 && keys[f.text]
  {
  }

  lemma InFlightAt(live: seq<Fly>, now: nat, k: nat)
    requires AllInFlight(live, now) && k < |live|
    ensures 0 <= live[k].text < LETTERS && live[k].x > -100.0
  {
    assert InFlight(live[k], now - live[k].born);
  }

  /** The letter behind position k, after the one there is replaced or removed. */
  lemma Behind(nodes: seq<Letter>, live: seq<Fly>, k: nat, f: Fly)
    requires |nodes| == SLOTS && k < |live| && f.slot == live[k].slot
    ensures var behind := At<Letter?>(null, nodes, Slots(live), k + 1);
            && At(null, nodes, Slots(live[k := f]), k + 1) == behind
            && At(null, nodes, Slots(live[k := f][..k] + live[k := f][k + 1..]), k) == behind
  {
    var cut := live[k := f][..k] + live[k := f][k + 1..];
    assert k < |cut| ==> cut[k] == live[k + 1];
  }

  lemma SlotAt(live: seq<Fly>, k: nat)
    requires k < |live|
    ensures |Slots(live)| == |live| && Slots(live)[k] == live[k].slot
  {
  }

  /** Among different nodes of different slots, only the first one is the head. */
  lemma HeadIs(nodes: seq<Letter>, slots: seq<int>, k: nat)
    requires AllDifferent(nodes) && Distinct(slots) && InRange(|nodes|, slots) && k < |slots|
    ensures nodes[slots[k]] == nodes[slots[0]] <==> k == 0
  {
  }

  lemma CreatedIs(g: Game, d: Draw, keys: seq<bool>)
    requires |g.keys| == LETTERS && |g.idle| >= 2
    requires var f := NewFly(g.idle[0], d, g.now); 0 <= f.text < LETTERS && keys == g.keys[f.text := false]
    ensures var f := NewFly(g.idle[0], d, g.now);
            Created(g, d) == Game([f] + g.live, g.idle[1..], g.hit, g.miss, keys, g.now)
  {
  }

  lemma NewSlot(n: int, d: Draw, now: nat)
    ensures NewFly(n, d, now).slot == n
  {
  }

  lemma Unlinked(nodes: seq<Letter>, m: Image, head: Letter?, live: seq<Fly>, idle: seq<int>)
    requires |nodes| == SLOTS && m.Full() && Represents(nodes, m, head, null, live, idle)
    ensures head == null && m.nexts[SIZE] == null
  {
    hide Partition, UpTo;
  }
}
