/**
 What every run of the typing game keeps: no slot is lost, every letter is live, hit or missed,
 letters are born every 33 ticks and live at most 448, so the pool never runs out.
 game/src/typing/effect.c, game.c and game/include/adt/linklist.h.
 */
module TypingRuns {
  import opened Chains
  import opened TypingGame

  /**
   What happens to the game: a key is pressed while the main loop waits, or the main loop catches
   up with the timer, during which keys are pressed as well.
   */
  datatype Event = Press(letter: nat) | Frame(target: nat)

  ghost function Step(g: Game, e: Event, rounds: nat -> Round): (g': Game)
    requires |g.keys| == LETTERS
    ensures |g'.keys| == LETTERS
  {
    match e
    case Press(c) => Pressed(g, [c])
    case Frame(target) =>
      if target <= g.now then g
      else Ticks(g.(live := Answered(g.live, g.keys), keys := Unanswered(g.live, g.keys)), target, rounds)
  }

  ghost function Run(g: Game, events: seq<Event>, rounds: nat -> Round): (g': Game)
    requires |g.keys| == LETTERS
    ensures |g'.keys| == LETTERS
    decreases |events|
  {
    if events == [] then g else Run(Step(g, events[0], rounds), events[1..], rounds)
  }

  // ----- the invariant

  /** The number of ticks before now at which a letter is due. */
  function Births(now: nat): nat {
    if now == 0 then 0 else Births(now - 1) + (if (now - 1) % BIRTH_PERIOD == 0 then 1 else 0)
  }

  /**
   Where a letter is after age moves: falling half a unit per tick, or on its way up since some
   tick at which it was no lower than 192.1.
   */
  predicate InFlight(f: Fly, age: int) {
    && 0 <= f.text < LETTERS && 8 <= f.y <= 304 && 0.0 <= f.x && f.x + 7.9 <= SCR_HEIGHT && age >= 0
    && if f.v == 0.5 then f.x == age as real / 2.0 else f.v == -3.0 && f.x + 3.0 * age as real <= 1344.7
  }

  ghost predicate AllInFlight(live: seq<Fly>, now: nat) {
    forall k :: 0 <= k < |live| ==> InFlight(live[k], now - live[k].born)
  }

  /** Births lie a period apart, the newest first, and all before the tick now. */
  ghost predicate Spaced(live: seq<Fly>, now: nat) {
    && (forall i, j :: 0 <= i < j < |live| ==> live[i].born >= live[j].born + BIRTH_PERIOD)
    && (forall k :: 0 <= k < |live| ==> live[k].born < now && live[k].born % BIRTH_PERIOD == 0)
  }

  /** Each slot is either live or idle, once. */
  ghost predicate Partition(live: seq<Fly>, idle: seq<int>) {
    Covers(SLOTS, multiset(Slots(live)) + multiset(idle))
  }

  ghost predicate Invariant(g: Game) {
    && Partition(g.live, g.idle)
    && AllInFlight(g.live, g.now) && Spaced(g.live, g.now)
    && g.hit + g.miss + |g.live| == Births(g.now)
  }

  // ----- the pool never runs out

  /** No letter lives longer than 448 ticks. */
  lemma AgeBound(f: Fly, age: int)
    requires InFlight(f, age)
    ensures age <= 448
  {
  }

  lemma {:induction false} BornApart(live: seq<Fly>, now: nat, k: nat)
    requires Spaced(live, now) && k < |live|
    ensures live[0].born >= live[k].born + BIRTH_PERIOD * k
    decreases k
  {
    if k > 0 {
      BornApart(live, now, k - 1);
      assert live[k - 1].born >= live[k].born + BIRTH_PERIOD;
    }
  }

  /** At most 14 letters are live, so at least 987 nodes are free. */
  lemma FewLive(g: Game)
    requires Partition(g.live, g.idle) && AllInFlight(g.live, g.now) && Spaced(g.live, g.now)
    ensures |g.live| <= 14 && |g.idle| == SLOTS - |g.live|
  {
    hide InFlight, Spaced, Covers;
    CoversMeans(SLOTS, Slots(g.live) + g.idle);
    if g.live != [] {
      OldestBorn(g.live, g.now, |g.live| - 1);
    }
  }

  lemma OldestBorn(live: seq<Fly>, now: nat, k: nat)
    requires AllInFlight(live, now) && Spaced(live, now) && k < |live|
    ensures k <= 13
  {
    BornApart(live, now, k);
    AgeBound(live[k], now - live[k].born);
    hide AllInFlight, InFlight;
  }

  // ----- what one tick keeps

  lemma SlotsCons(f: Fly, fs: seq<Fly>)
    ensures Slots([f] + fs) == [f.slot] + Slots(fs)
    ensures multiset(Slots([f] + fs)) == multiset{f.slot} + multiset(Slots(fs))
  {
    assert Slots([f] + fs) == [f.slot] + Slots(fs);
  }

  lemma {:induction false} KeptAndGone(fs: seq<Fly>)
    ensures multiset(Slots(Kept(fs))) + multiset(Slots(Gone(fs))) == multiset(Slots(fs))
    ensures |Kept(fs)| + |Gone(fs)| == |fs|
  {
    hide Slots, Leaves;
    if fs != [] {
      var f := Moved(fs[0]);
      KeptAndGone(fs[1..]);
      assert fs == [fs[0]] + fs[1..];
      SlotsCons(fs[0], fs[1..]);
      SlotsCons(f, Kept(fs[1..]));
      SlotsCons(f, Gone(fs[1..]));
    }
  }

  lemma {:induction false} FreedSlots(gone: seq<Fly>, idle: seq<int>)
    ensures multiset(Freed(gone, idle)) == multiset(Slots(gone)) + multiset(idle)
    decreases |gone|
  {
    if gone != [] {
      FreedSlots(gone[1..], [gone[0].slot] + idle);
      assert gone == [gone[0]] + gone[1..];
      SlotsCons(gone[0], gone[1..]);
    }
  }

  /** A letter that is still on the screen after a move is in flight, one tick older. */
  lemma MovedInFlight(f: Fly, age: int)
    requires InFlight(f, age) && !Leaves(Moved(f))
    ensures InFlight(Moved(f), age + 1)
  {
  }

  /** Every born is at least a period before the bound. */
  ghost predicate BornBy(fs: seq<Fly>, bound: int) {
    forall k :: 0 <= k < |fs| ==> fs[k].born + BIRTH_PERIOD <= bound
  }

  /** Moving keeps flight and spacing; bound stands for the letters before these. */
  lemma {:induction false} KeptKeeps(fs: seq<Fly>, now: nat, bound: int)
    requires AllInFlight(fs, now) && Spaced(fs, now + 1) && BornBy(fs, bound)
    ensures AllInFlight(Kept(fs), now + 1) && Spaced(Kept(fs), now + 1) && BornBy(Kept(fs), bound)
    decreases |fs|
  {
    if fs != [] {
      Tails(fs, now, bound);
      hide AllInFlight, Spaced, BornBy, Leaves, InFlight;
      var f := Moved(fs[0]);
      assert Kept(fs) == if Leaves(f) then Kept(fs[1..]) else [f] + Kept(fs[1..]);
      assert f.born == fs[0].born;
      hide Kept, Moved;
      if Leaves(f) {
        KeptKeeps(fs[1..], now, bound);
      } else {
        KeptKeeps(fs[1..], now, f.born);
        MovedInFlight(fs[0], now - f.born);
        Front(f, Kept(fs[1..]), now + 1, bound);
      }
    }
  }

  lemma Tails(fs: seq<Fly>, now: nat, bound: int)
    requires fs != [] && AllInFlight(fs, now) && Spaced(fs, now + 1) && BornBy(fs, bound)
    ensures AllInFlight(fs[1..], now) && Spaced(fs[1..], now + 1) && BornBy(fs[1..], bound) && BornBy(fs[1..], fs[0].born)
    ensures InFlight(fs[0], now - fs[0].born) && fs[0].born <= now && fs[0].born % BIRTH_PERIOD == 0
    ensures fs[0].born + BIRTH_PERIOD <= bound
  {
    hide InFlight;
    assert forall k :: 0 <= k < |fs| - 1 ==> fs[1..][k] == fs[k + 1];
  }

  lemma Front(f: Fly, fs: seq<Fly>, now: nat, bound: int)
    requires AllInFlight(fs, now) && Spaced(fs, now) && BornBy(fs, f.born)
    requires InFlight(f, now - f.born) && f.born < now && f.born % BIRTH_PERIOD == 0 && f.born + BIRTH_PERIOD <= bound
    ensures AllInFlight([f] + fs, now) && Spaced([f] + fs, now) && BornBy([f] + fs, bound)
  {
    hide InFlight;
    SpacedCons(f, fs, now);
    hide Spaced;
    assert forall k :: 0 < k < |fs| + 1 ==> ([f] + fs)[k] == fs[k - 1];
  }

  lemma SpacedCons(f: Fly, fs: seq<Fly>, now: nat)
    requires Spaced(fs, now) && f.born < now && f.born % BIRTH_PERIOD == 0
    requires BornBy(fs, f.born)
    ensures Spaced([f] + fs, now)
  {
    forall i, j | 0 <= i < j < |fs| + 1
      ensures ([f] + fs)[i].born >= ([f] + fs)[j].born + BIRTH_PERIOD
    {
      assert i > 0 ==> ([f] + fs)[i] == fs[i - 1];
    }
  }

  /** A due birth finds two free nodes and keeps everything but the count of the ticks. */
  lemma BirthKeeps(g: Game, d: Draw)
    requires |g.keys| == LETTERS && Invariant(g)
    ensures |g.idle| >= 2
    ensures var b := BirthDue(g, d);
            && Partition(b.live, b.idle) && AllInFlight(b.live, g.now) && Spaced(b.live, g.now + 1)
            && b.hit + b.miss + |b.live| == Births(g.now + 1)
  {
    hide Partition, AllInFlight, Spaced, NewFly;
    FewLive(g);
    BornBefore(g.live, g.now);
    if g.now % BIRTH_PERIOD == 0 {
      BornFront(g.live, g.idle, d, g.now);
    }
  }

  lemma BornFront(live: seq<Fly>, idle: seq<int>, d: Draw, now: nat)
    requires idle != [] && Partition(live, idle) && AllInFlight(live, now) && Spaced(live, now + 1) && BornBy(live, now)
    requires now % BIRTH_PERIOD == 0
    ensures var f := NewFly(idle[0], d, now);
            && Partition([f] + live, idle[1..]) && AllInFlight([f] + live, now) && Spaced([f] + live, now + 1)
  {
    var f := NewFly(idle[0], d, now);
    assert InFlight(f, 0);
    hide InFlight, NewFly;
    SpacedCons(f, live, now + 1);
    hide Spaced;
    assert forall k :: 0 < k < |live| + 1 ==> ([f] + live)[k] == live[k - 1];
    hide AllInFlight, Covers, Slots;
    SlotsCons(f, live);
    assert idle == [f.slot] + idle[1..];
    PrependSlot(f.slot, Slots(live), idle[1..]);
  }

  lemma BornBefore(live: seq<Fly>, now: nat)
    requires Spaced(live, now)
    ensures Spaced(live, now + 1)
    ensures now % BIRTH_PERIOD == 0 ==> BornBy(live, now)
  {
    forall k | 0 <= k < |live| && now % BIRTH_PERIOD == 0
      ensures live[k].born + BIRTH_PERIOD <= now
    {
      NextMultiple(live[k].born, now);
    }
  }

  lemma NextMultiple(a: nat, b: nat)
    requires a < b && a % BIRTH_PERIOD == 0 && b % BIRTH_PERIOD == 0
    ensures a + BIRTH_PERIOD <= b
  {
  }

  lemma TickKeeps(g: Game, r: Round)
    requires |g.keys| == LETTERS && Invariant(g)
    ensures Invariant(Tick(g, r)) && |g.idle| >= 2
  {
    hide Partition, AllInFlight, Spaced, Births, Kept, Gone, Freed;
    BirthKeeps(Pressed(g, r.pressed), r.draw);
    var b := BirthDue(Pressed(g, r.pressed), r.draw);
    assert b.now == g.now;
    NoBound(b.live, g.now + 1);
    KeptKeeps(b.live, g.now, g.now + 1 + BIRTH_PERIOD);
    hide BirthDue;
    UpdateKeepsSlots(b);
  }

  lemma NoBound(live: seq<Fly>, now: nat)
    requires Spaced(live, now)
    ensures BornBy(live, now + BIRTH_PERIOD)
  {
  }

  lemma UpdateKeepsSlots(g: Game)
    requires Partition(g.live, g.idle)
    ensures var u := Updated(g);
            Partition(u.live, u.idle) && u.hit + u.miss + |u.live| == g.hit + g.miss + |g.live|
  {
    KeptAndGone(g.live);
    FreedSlots(Gone(g.live), g.idle);
    hide Kept, Gone, Freed, Slots, Covers;
    assert multiset(Slots(Kept(g.live))) + multiset(Freed(Gone(g.live), g.idle))
        == multiset(Slots(g.live)) + multiset(g.idle);
  }

  // ----- every run

  lemma AnswersKeep(live: seq<Fly>, keys: seq<bool>, now: nat)
    requires |keys| == LETTERS && AllInFlight(live, now) && Spaced(live, now)
    ensures var a := Answered(live, keys);
            AllInFlight(a, now) && Spaced(a, now) && Slots(a) == Slots(live)
  {
    var a := Answered(live, keys);
    forall k | 0 <= k < |a|
      ensures InFlight(a[k], now - a[k].born)
    {
      assert InFlight(live[k], now - live[k].born);
    }
  }

  lemma {:induction false} TicksKeep(g: Game, target: nat, rounds: nat -> Round)
    requires |g.keys| == LETTERS && Invariant(g)
    ensures Invariant(Ticks(g, target, rounds))
    decreases target - g.now
  {
    hide Invariant, Tick;
    if g.now < target {
      TickKeeps(g, rounds(g.now));
      TicksKeep(Tick(g, rounds(g.now)), target, rounds);
    }
  }

  lemma StepKeeps(g: Game, e: Event, rounds: nat -> Round)
    requires |g.keys| == LETTERS && Invariant(g)
    ensures Invariant(Step(g, e, rounds))
  {
    match e
    case Press(c) =>
    case Frame(target) =>
      AnsweredInvariant(g);
      hide Answered, Unanswered, Invariant, Ticks;
      if target > g.now {
        TicksKeep(g.(live := Answered(g.live, g.keys), keys := Unanswered(g.live, g.keys)), target, rounds);
      }
  }

  lemma AnsweredInvariant(g: Game)
    requires |g.keys| == LETTERS && Invariant(g)
    ensures Invariant(g.(live := Answered(g.live, g.keys), keys := Unanswered(g.live, g.keys)))
  {
    AnswersKeep(g.live, g.keys, g.now);
    hide Answered, Unanswered, AllInFlight, Spaced, Covers, Slots, Births;
  }

  lemma {:induction false} RunKeeps(g: Game, events: seq<Event>, rounds: nat -> Round)
    requires |g.keys| == LETTERS && Invariant(g)
    ensures Invariant(Run(g, events, rounds))
    decreases |events|
  {
    hide Invariant, Step;
    if events != [] {
      StepKeeps(g, events[0], rounds);
      RunKeeps(Step(g, events[0], rounds), events[1..], rounds);
    }
  }

  lemma StartInvariant()
    ensures Invariant(START)
  {
    UpToCovers(SLOTS);
    hide Covers, UpTo;
    assert multiset(Slots([])) + multiset(UpTo(SLOTS)) == multiset(UpTo(SLOTS));
  }

  /** The ticks before now that are multiples of 33. */
  lemma {:induction false} BirthsCounted(now: nat)
    ensures Births(now) == (now + 32) / 33
  {
    if now > 0 {
      BirthsCounted(now - 1);
      var q := (now - 1) / 33;
      assert now - 1 == 33 * q + (now - 1) % 33;
    }
  }

  /** In every run no slot is lost, every letter is accounted for, and the pool is never short. */
  lemma EveryRun(events: seq<Event>, rounds: nat -> Round)
    ensures var g := Run(START, events, rounds);
            && Partition(g.live, g.idle)
            && g.hit + g.miss + |g.live| == Births(g.now) == (g.now + 32) / 33
            && |g.live| <= 14 && |g.idle| == SLOTS - |g.live|
            && AllInFlight(g.live, g.now)
  {
    hide Partition, AllInFlight, Spaced, UpTo;
    StartInvariant();
    RunKeeps(START, events, rounds);
    FewLive(Run(START, events, rounds));
    BirthsCounted(Run(START, events, rounds).now);
  }

  // ----- the fate of a letter

  /** A letter that nobody answers is missed with its 385th move, and not before. */
  lemma MissedInTime(f: Fly, age: int)
    requires InFlight(f, age) && f.v == 0.5
    ensures age <= 384
    ensures Leaves(Moved(f)) <==> age == 384
    ensures Moved(f).x >= 0.0
  {
  }

  /** An answered letter leaves at the top. */
  lemma AnsweredIsHit(f: Fly, age: int)
    requires InFlight(f, age) && f.v == -3.0
    ensures Leaves(Moved(f)) <==> Moved(f).x < 0.0
  {
  }

  /** Each tick counts the answered letters that left as hits, and the others that left as misses. */
  lemma CountersCount(g: Game)
    requires AllInFlight(g.live, g.now)
    ensures var u, gone := Updated(g), Gone(g.live);
            && u.hit == g.hit + AnsweredAmong(gone)
            && u.miss + AnsweredAmong(gone) == g.miss + |gone|
  {
    HitsAreAnswers(g.live, g.now);
  }

  function AnsweredAmong(fs: seq<Fly>): nat {
    if fs == [] then 0 else (if fs[0].v == -3.0 then 1 else 0) + AnsweredAmong(fs[1..])
  }

  /** The hits counted are exactly the answered letters that left. */
  lemma {:induction false} HitsAreAnswers(fs: seq<Fly>, now: nat)
    requires AllInFlight(fs, now)
    ensures Hits(Gone(fs)) == AnsweredAmong(Gone(fs))
    decreases |fs|
  {
    if fs != [] {
      var age := now - fs[0].born;
      assert forall k :: 0 <= k < |fs| - 1 ==> fs[1..][k] == fs[k + 1];
      HitsAreAnswers(fs[1..], now);
      assert InFlight(fs[0], age);
      if fs[0].v == 0.5 {
        MissedInTime(fs[0], age);
      } else {
        AnsweredIsHit(fs[0], age);
      }
    }
  }
}
