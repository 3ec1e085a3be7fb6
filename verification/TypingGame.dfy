/**
 The typing game as a state machine over its ticks: letters fall, are answered or missed, and
 their slots go back to the pool.  game/src/typing/effect.c and game.c.
 */
module TypingGame {
  import opened Chains

  const HZ: nat := 100
  const CHARACTER_PER_SECOND: nat := 3
  const BIRTH_PERIOD: nat := HZ / CHARACTER_PER_SECOND
  const SCR_HEIGHT: real := 200.0
  const SCR_WIDTH: nat := 320
  const SIZE: nat := 1000
  const SLOTS: nat := SIZE + 1
  const LETTERS: nat := 26

  /** A letter on the screen.  born, the tick that created it, is not stored by the game. */
  datatype Fly = Fly(slot: int, x: real, y: int, v: real, text: int, born: nat)

  /** What rand() gives for the position, the speed and the text of a letter. */
  datatype Draw = Draw(y: nat, v: nat, text: nat)

  /** One round of the catch-up loop: the keys that interrupts report before it, and what rand() gives in it. */
  datatype Round = Round(pressed: seq<nat>, draw: Draw)

  /** live: the letter list; idle: the free list; keys: the pressed keys; now: the ticks processed. */
  datatype Game = Game(live: seq<Fly>, idle: seq<int>, hit: nat, miss: nat, keys: seq<bool>, now: nat)

  function Slots(fs: seq<Fly>): (s: seq<int>)
    ensures |s| == |fs| && forall i :: 0 <= i < |fs| ==> s[i] == fs[i].slot
  {
    seq(|fs|, i requires 0 <= i < |fs| => fs[i].slot)
  }

  const START: Game := Game([], UpTo(SLOTS), 0, 0, seq(LETTERS, _ => false), 0)

  // ----- one tick

  /** (rand() % 1000) / 2000 is an integer division. */
  function NewFly(slot: int, d: Draw, now: nat): Fly {
    Fly(slot, 0.0, d.y % (SCR_WIDTH / 8 - 2) * 8 + 8, (d.v % 1000 / 2000) as real + 0.5, d.text % LETTERS, now)
  }

  /** A new letter starts at the top, in one of 38 columns on the screen, falling, with one of the 26 texts. */
  lemma NewFlyMeaning(slot: int, d: Draw, now: nat)
    ensures var f := NewFly(slot, d, now);
            && f.slot == slot && f.x == 0.0 && f.v == 0.5 && f.born == now
            && 8 <= f.y <= 304 && f.y == 8 * (d.y % 38 + 1)
            && 0 <= f.text < 26 && f.text == d.text % 26
  {
  }

  /** A new letter in front of the list; the source asserts that two nodes are free. */
  function Created(g: Game, d: Draw): Game
    requires |g.keys| == LETTERS
  {
    if |g.idle| < 2 then g
    else
      var f := NewFly(g.idle[0], d, g.now);
      g.(live := [f] + g.live, idle := g.idle[1..], keys := g.keys[f.text := false])
  }

  /** Only a press after its birth can answer a letter; the other keys stay as they are. */
  lemma NewLetterUnanswered(g: Game, d: Draw)
    requires |g.keys| == LETTERS && |g.idle| >= 2
    ensures var g' := Created(g, d);
            && g'.live != [] && g'.live[1..] == g.live && g'.live[0].born == g.now && g'.live[0].slot == g.idle[0]
            && !Candidate(g'.live[0], g'.keys)
            && forall c :: 0 <= c < LETTERS && c != g'.live[0].text ==> g'.keys[c] == g.keys[c]
  {
  }

  function Moved(f: Fly): Fly {
    f.(x := f.x + f.v)
  }

  predicate Leaves(f: Fly) {
    f.x < 0.0 || f.x + 7.9 > SCR_HEIGHT
  }

  /** The letters that are still on the screen after a move, moved. */
  function Kept(fs: seq<Fly>): seq<Fly> {
    if fs == [] then []
    else if Leaves(Moved(fs[0])) then Kept(fs[1..])
    else [Moved(fs[0])] + Kept(fs[1..])
  }

  /** The letters that left the screen, in the order they are met. */
  function Gone(fs: seq<Fly>): seq<Fly> {
    if fs == [] then []
    else if Leaves(Moved(fs[0])) then [Moved(fs[0])] + Gone(fs[1..])
    else Gone(fs[1..])
  }

  /** The free list after these letters are freed one by one. */
  function Freed(gone: seq<Fly>, idle: seq<int>): seq<int> {
    if gone == [] then idle else Freed(gone[1..], [gone[0].slot] + idle)
  }

  function Hits(gone: seq<Fly>): (n: nat)
    ensures n <= |gone|
  {
    if gone == [] then 0 else (if gone[0].x < 0.0 then 1 else 0) + Hits(gone[1..])
  }

  function Updated(g: Game): Game {
    var gone := Gone(g.live);
    g.(live := Kept(g.live), idle := Freed(gone, g.idle),
       hit := g.hit + Hits(gone), miss := g.miss + (|gone| - Hits(gone)))
  }

  function BirthDue(g: Game, d: Draw): Game
    requires |g.keys| == LETTERS
  {
    if g.now % BIRTH_PERIOD == 0 then Created(g, d) else g
  }

  /** Keys go down; those of other scan codes do not count. */
  function Pressed(g: Game, letters: seq<nat>): (g': Game)
    requires |g.keys| == LETTERS
    ensures |g'.keys| == LETTERS
  {
    g.(keys := seq(LETTERS, c requires 0 <= c < LETTERS => g.keys[c] || c in letters))
  }

  /** One round of the catch-up loop; HZ / UPDATE_PER_SECOND is 1, so letters move in every round. */
  function Tick(g: Game, r: Round): (g': Game)
    requires |g.keys| == LETTERS
    ensures |g'.keys| == LETTERS && g'.now == g.now + 1
  {
    Updated(BirthDue(Pressed(g, r.pressed), r.draw)).(now := g.now + 1)
  }

  /** The rounds up to the tick target. */
  function Ticks(g: Game, target: nat, rounds: nat -> Round): (g': Game)
    requires |g.keys| == LETTERS
    ensures |g'.keys| == LETTERS
    decreases target - g.now
  {
    if g.now >= target then g else Ticks(Tick(g, rounds(g.now)), target, rounds)
  }

  // ----- answering keys

  /** The letter falls and its key is pressed. */
  predicate Candidate(f: Fly, keys: seq<bool>)
    requires |keys| == LETTERS
  {
    f.v > 0.0 && 0 <= f.text < LETTERS && keys[f.text]
  }

  /** Letter k is the lowest of the falling letters of its text, the first one among equals. */
  ghost predicate Lowest(live: seq<Fly>, k: nat)
    requires k < |live|
  {
    && live[k].v > 0.0
    && forall j :: 0 <= j < |live| && live[j].text == live[k].text && live[j].v > 0.0 ==> Below(live, k, j)
  }

  /** Letter k is lower than letter j, or as low and not behind it in the list. */
  predicate Below(live: seq<Fly>, k: nat, j: nat)
    requires k < |live| && j < |live|
  {
    live[j].x < live[k].x || (live[j].x == live[k].x && k <= j)
  }

  /** Letter k is the lowest of all candidates. */
  ghost predicate Target(live: seq<Fly>, keys: seq<bool>, k: nat)
    requires |keys| == LETTERS && k < |live|
  {
    && Candidate(live[k], keys)
    && forall j :: 0 <= j < |live| && Candidate(live[j], keys) ==> Below(live, k, j)
  }

  /** What all the presses together do: for each pressed key the lowest falling letter turns back. */
  ghost function Answered(live: seq<Fly>, keys: seq<bool>): (s: seq<Fly>)
    requires |keys| == LETTERS
    ensures |s| == |live|
  {
    seq(|live|, k requires 0 <= k < |live| =>
      if Candidate(live[k], keys) && Lowest(live, k) then live[k].(v := -3.0) else live[k])
  }

  /** The keys that no falling letter wanted stay pressed. */
  ghost function Unanswered(live: seq<Fly>, keys: seq<bool>): (s: seq<bool>)
    requires |keys| == LETTERS
    ensures |s| == LETTERS
  {
    seq(LETTERS, c requires 0 <= c < LETTERS => keys[c] && !Wanted(live, c))
  }

  ghost predicate Wanted(live: seq<Fly>, c: int) {
    exists k :: 0 <= k < |live| && live[k].text == c && live[k].v > 0.0
  }

  /** Turning back the lowest candidate and releasing its key leaves the same work for the rest. */
  lemma AnswerOne(live: seq<Fly>, keys: seq<bool>, k: nat)
    requires |keys| == LETTERS && k < |live| && Target(live, keys, k)
    ensures var live', keys' := live[k := live[k].(v := -3.0)], keys[live[k].text := false];
            && Answered(live', keys') == Answered(live, keys)
            && Unanswered(live', keys') == Unanswered(live, keys)
  {
    var c := live[k].text;
    var live', keys' := live[k := live[k].(v := -3.0)], keys[c := false];
    assert Lowest(live, k);
    forall j | 0 <= j < |live|
      ensures Answered(live', keys')[j] == Answered(live, keys)[j]
    {
      if j != k && Candidate(live[j], keys) {
        if live[j].text == c {
          assert Below(live, k, j) && !Below(live, j, k);
        } else {
          LowestElsewhere(live, k, j);
        }
      }
    }
    forall d | 0 <= d < LETTERS
      ensures Unanswered(live', keys')[d] == Unanswered(live, keys)[d]
    {
      if d != c {
        assert Wanted(live, d) ==> Wanted(live', d) by {
          if Wanted(live, d) {
            var i :| 0 <= i < |live| && live[i].text == d && live[i].v > 0.0;
            assert live'[i] == live[i];
          }
        }
      }
    }
  }

  lemma LowestElsewhere(live: seq<Fly>, k: nat, j: nat)
    requires k < |live| && j < |live| && live[j].text != live[k].text
    ensures Lowest(live[k := live[k].(v := -3.0)], j) <==> Lowest(live, j)
  {
    var live' := live[k := live[k].(v := -3.0)];
    assert forall i :: 0 <= i < |live| ==> (Below(live', j, i) <==> Below(live, j, i));
  }

  /**
   A key that goes down is answered: the falling letter of it with the greatest x turns back, no
   other one does, and the key is released.
   */
  lemma PressIsAnswered(g: Game, c: nat, k: nat)
    requires |g.keys| == LETTERS && c < LETTERS && k < |g.live|
    requires g.live[k].text == c && g.live[k].v > 0.0
    requires forall j :: 0 <= j < |g.live| && j != k && g.live[j].text == c && g.live[j].v > 0.0 ==> g.live[j].x < g.live[k].x
    ensures var g' := Pressed(g, [c]);
            var answered := Answered(g'.live, g'.keys);
            && g'.live == g.live && (forall i :: 0 <= i < LETTERS && i != c ==> g'.keys[i] == g.keys[i])
            && answered[k] == g.live[k].(v := -3.0) && !Unanswered(g'.live, g'.keys)[c]
            && forall j :: 0 <= j < |g.live| && j != k && g.live[j].text == c ==> answered[j] == g.live[j]
  {
    assert Pressed(g, [c]).keys[c];
    assert Lowest(g.live, k);
    forall j | 0 <= j < |g.live| && j != k && g.live[j].text == c
      ensures !Lowest(g.live, j)
    {
      assert g.live[j].v > 0.0 ==> !Below(g.live, j, k);
    }
  }

  /** With no candidate left nothing is to be done. */
  lemma AnswerNone(live: seq<Fly>, keys: seq<bool>)
    requires |keys| == LETTERS && forall k :: 0 <= k < |live| ==> !Candidate(live[k], keys)
    ensures Answered(live, keys) == live && Unanswered(live, keys) == keys
  {
    forall c | 0 <= c < LETTERS
      ensures Unanswered(live, keys)[c] == keys[c]
    {
    }
  }
}
