/**
 * The "Guess the Number 1-100" engine (script.js): a secret in [1, 100], five
 * attempts, and per guess either a win, a loss or a higher/lower hint.
 *
 * `Round` is the engine's state as a value and `Guess` the effect of one call
 * of `makeGuess` on it; class `NumberGame` holds the same state in fields the
 * way the script's module-level variables do, and its methods are proved to
 * follow `Round`/`Guess`. `parseInt` of the input field is taken as an
 * `Option<int>`, with `None` for NaN; the secret that `Math.random` would
 * draw is a parameter.
 */
module NumberGuess {

  datatype Option<T> = None | Some(value: T)

  /** `maxAttempts`; the script never reassigns it. */
  const MaxAttempts: int := 5
  const Lowest: int := 1
  const Highest: int := 100

  predicate InRange(n: int) { Lowest <= n <= Highest }

  // ---------------------------------------------------------------------
  // The input field clamp (the `input` listener)
  // ---------------------------------------------------------------------

  /** What the `input` listener does to the field text. */
  datatype FieldEdit = Keep | Clear | SetHighest

  /** The listener's two tests on the parsed value; NaN fails both. */
  function ClampEdit(parsed: Option<int>): (e: FieldEdit)
    ensures e == Clear <==> parsed.Some? && parsed.value < Lowest
    ensures e == SetHighest <==> parsed.Some? && parsed.value > Highest
  {
    if parsed.Some? && parsed.value < 1 then Clear
    else if parsed.Some? && parsed.value > 100 then SetHighest
    else Keep
  }

  /** What `parseInt` reads back from the field after the listener ran: the
      cleared field is NaN, the replaced one 100. */
  function Clamped(parsed: Option<int>): (after: Option<int>)
    ensures after.None? || InRange(after.value)
    ensures parsed.None? || InRange(parsed.value) ==> after == parsed
    ensures parsed.Some? && parsed.value > Highest ==> after == Some(Highest)
    ensures ClampEdit(after) == Keep
  {
    match ClampEdit(parsed)
    case Keep => parsed
    case Clear => None
    case SetHighest => Some(100)
  }

  // ---------------------------------------------------------------------
  // Hint and win message
  // ---------------------------------------------------------------------

  /** `giveHint`: which way the player should move. */
  datatype Hint = TryHigher | TryLower

  function GiveHint(guess: int, secret: int): (h: Hint)
    ensures h == TryHigher <==> guess < secret
    ensures guess > secret ==> h == TryLower
  {
    if guess < secret then TryHigher else TryLower
  }

  /** The three tiers of the win message. */
  datatype WinTier = FirstTry | Fast | Eventually

  function WinMessage(attempts: int): (t: WinTier)
    ensures t == FirstTry <==> attempts == 1
    ensures t == Fast <==> attempts != 1 && attempts <= 3
    ensures t == Eventually <==> attempts > 3
  {
    if attempts == 1 then FirstTry
    else if attempts <= 3 then Fast
    else Eventually
  }

  // ---------------------------------------------------------------------
  // The game state and one guess
  // ---------------------------------------------------------------------

  /** `currentNumber`, `attempts` and `gameActive`. */
  datatype Round = Round(currentNumber: int, attempts: int, gameActive: bool)

  /** The values the script starts with, before `initializeGame` runs. */
  const Initial: Round := Round(0, 0, false)

  /** The engine's invariant: the counter never passes the budget, and an
      active game has attempts left and a secret in range. */
  predicate Inv(r: Round)
  {
    0 <= r.attempts <= MaxAttempts &&
    (r.gameActive ==> r.attempts < MaxAttempts && InRange(r.currentNumber))
  }

  /** `initializeGame` with the drawn secret. */
  function Start(secret: int): (r: Round)
    requires InRange(secret)
    ensures Inv(r) && r.gameActive && r.attempts == 0 && r.currentNumber == secret
  {
    Round(secret, 0, true)
  }

  /** The effect of `makeGuess` as seen by the player. */
  datatype Outcome = Ignored | Rejected | Won | Lost | Hinted(hint: Hint)

  predicate Accepted(o: Outcome) { o.Won? || o.Lost? || o.Hinted? }

  predicate ValidGuess(parsed: Option<int>) { parsed.Some? && InRange(parsed.value) }

  /** `makeGuess`: guard, validation, count, then win, loss or hint. */
  function Guess(r: Round, parsed: Option<int>): (res: (Round, Outcome))
    ensures Inv(r) ==> Inv(res.0)
    ensures res.0.currentNumber == r.currentNumber
    ensures r.attempts <= res.0.attempts <= r.attempts + 1
  {
    if !r.gameActive then (r, Ignored)
    else if parsed.None? || parsed.value < 1 || parsed.value > 100 then (r, Rejected)
    else
      var attempts := r.attempts + 1;
      if parsed.value == r.currentNumber then (r.(attempts := attempts, gameActive := false), Won)
      else if attempts >= MaxAttempts then (r.(attempts := attempts, gameActive := false), Lost)
      else (r.(attempts := attempts), Hinted(GiveHint(parsed.value, r.currentNumber)))
  }

  /** The cases of `makeGuess`, each with the state it leaves. */
  lemma GuessCases(r: Round, parsed: Option<int>)
    requires Inv(r)
    ensures !r.gameActive ==> Guess(r, parsed) == (r, Ignored)
    ensures r.gameActive && !ValidGuess(parsed) ==> Guess(r, parsed) == (r, Rejected)
    ensures r.gameActive && ValidGuess(parsed) ==>
      var (next, outcome) := Guess(r, parsed);
      && next.attempts == r.attempts + 1
      && next.currentNumber == r.currentNumber
      && Accepted(outcome)
      && (outcome == Won <==> parsed.value == r.currentNumber)
      && (outcome == Lost <==> parsed.value != r.currentNumber && next.attempts == MaxAttempts)
      && (next.gameActive <==> outcome.Hinted?)
      && (outcome == Hinted(TryHigher) <==> parsed.value < r.currentNumber && next.attempts < MaxAttempts)
      && (outcome == Hinted(TryLower) <==> parsed.value > r.currentNumber && next.attempts < MaxAttempts)
  {
  }

  /** A won game took between one and five guesses, so every tier of the
      message is reachable and the tier is fixed by the count. */
  lemma WinTierOfWin(r: Round, parsed: Option<int>)
    requires Inv(r) && Guess(r, parsed).1 == Won
    ensures var n := Guess(r, parsed).0.attempts;
      1 <= n <= MaxAttempts &&
      (WinMessage(n) == FirstTry <==> n == 1) &&
      (WinMessage(n) == Fast <==> 2 <= n <= 3) &&
      (WinMessage(n) == Eventually <==> 4 <= n <= MaxAttempts)
  {
  }

  // ---------------------------------------------------------------------
  // Sequences of guesses
  // ---------------------------------------------------------------------

  /** The state and outcomes after a sequence of `makeGuess` calls. */
  function Play(r: Round, inputs: seq<Option<int>>): (res: (Round, seq<Outcome>))
    ensures |res.1| == |inputs|
    decreases |inputs|
  {
    if inputs == [] then (r, [])
    else
      var step := Guess(r, inputs[0]);
      var tail := Play(step.0, inputs[1..]);
      (tail.0, [step.1] + tail.1)
  }

  /** Number of accepted guesses among the outcomes. */
  function CountAccepted(outcomes: seq<Outcome>): nat
  {
    if outcomes == [] then 0
    else (if Accepted(outcomes[0]) then 1 else 0) + CountAccepted(outcomes[1..])
  }

  /** Every accepted guess, and only those, advances the counter by one, so one
      game accepts at most five guesses; the invariant holds throughout. */
  lemma {:induction false} PlayCountsAccepted(r: Round, inputs: seq<Option<int>>)
    requires Inv(r)
    ensures var (last, outcomes) := Play(r, inputs);
      Inv(last) && last.currentNumber == r.currentNumber &&
      last.attempts == r.attempts + CountAccepted(outcomes) &&
      CountAccepted(outcomes) <= MaxAttempts - r.attempts
    decreases |inputs|
  {
    if inputs != [] {
      var (next, o) := Guess(r, inputs[0]);
      PlayCountsAccepted(next, inputs[1..]);
      var (last, rest) := Play(next, inputs[1..]);
      assert Play(r, inputs).1 == [o] + rest;
      assert ([o] + rest)[1..] == rest;
    }
  }

  /** An inactive game ignores every further guess and stays as it is. */
  lemma {:induction false} PlayInactive(r: Round, inputs: seq<Option<int>>)
    requires !r.gameActive
    ensures Play(r, inputs).0 == r
    ensures forall k :: 0 <= k < |inputs| ==> Play(r, inputs).1[k] == Ignored
    decreases |inputs|
  {
    if inputs != [] {
      PlayInactive(r, inputs[1..]);
    }
  }

  /** Won and Lost are terminal: every guess after them is ignored. */
  lemma {:induction false} TerminalIsFinal(r: Round, inputs: seq<Option<int>>, k: nat, m: nat)
    requires k < m < |inputs|
    requires Play(r, inputs).1[k] == Won || Play(r, inputs).1[k] == Lost
    ensures Play(r, inputs).1[m] == Ignored
    decreases |inputs|
  {
    var (next, o) := Guess(r, inputs[0]);
    var rest := Play(next, inputs[1..]).1;
    assert Play(r, inputs).1 == [o] + rest;
    if k == 0 {
      PlayInactive(next, inputs[1..]);
    } else {
      TerminalIsFinal(next, inputs[1..], k - 1, m - 1);
    }
  }

  /** Secret 42 and the guesses 10, 90, 50, 42. */
  lemma ExampleWin()
    ensures Play(Start(42), [Some(10), Some(90), Some(50), Some(42)]).0 == Round(42, 4, false)
    ensures Play(Start(42), [Some(10), Some(90), Some(50), Some(42)]).1
         == [Hinted(TryHigher), Hinted(TryLower), Hinted(TryLower), Won]
  {
    assert [Some(42)][1..] == [];
    assert Play(Round(42, 3, true), [Some(42)]).1 == [Won];
    assert [Some(50), Some(42)][1..] == [Some(42)];
    assert Play(Round(42, 2, true), [Some(50), Some(42)]).1 == [Hinted(TryLower), Won];
    assert [Some(90), Some(50), Some(42)][1..] == [Some(50), Some(42)];
    assert Play(Round(42, 1, true), [Some(90), Some(50), Some(42)]).1
        == [Hinted(TryLower), Hinted(TryLower), Won];
    assert [Some(10), Some(90), Some(50), Some(42)][1..] == [Some(90), Some(50), Some(42)];
  }

  /** Five wrong guesses lose; a sixth is ignored. */
  lemma ExampleLoss()
    ensures Play(Start(42), [Some(1), Some(2), Some(3), Some(4), Some(5), Some(42)]).0 == Round(42, 5, false)
    ensures Play(Start(42), [Some(1), Some(2), Some(3), Some(4), Some(5), Some(42)]).1
         == [Hinted(TryHigher), Hinted(TryHigher), Hinted(TryHigher), Hinted(TryHigher), Lost, Ignored]
  {
    var over := Round(42, 5, false);
    assert [Some(42)][1..] == [];
    assert Play(over, [Some(42)]).1 == [Ignored];
    assert [Some(5), Some(42)][1..] == [Some(42)];
    assert Play(Round(42, 4, true), [Some(5), Some(42)]).1 == [Lost, Ignored];
    assert [Some(4), Some(5), Some(42)][1..] == [Some(5), Some(42)];
    assert Play(Round(42, 3, true), [Some(4), Some(5), Some(42)]).1
        == [Hinted(TryHigher), Lost, Ignored];
    assert [Some(3), Some(4), Some(5), Some(42)][1..] == [Some(4), Some(5), Some(42)];
    assert Play(Round(42, 2, true), [Some(3), Some(4), Some(5), Some(42)]).1
        == [Hinted(TryHigher), Hinted(TryHigher), Lost, Ignored];
    assert [Some(2), Some(3), Some(4), Some(5), Some(42)][1..] == [Some(3), Some(4), Some(5), Some(42)];
    assert Play(Round(42, 1, true), [Some(2), Some(3), Some(4), Some(5), Some(42)]).1
        == [Hinted(TryHigher), Hinted(TryHigher), Hinted(TryHigher), Lost, Ignored];
    assert [Some(1), Some(2), Some(3), Some(4), Some(5), Some(42)][1..]
        == [Some(2), Some(3), Some(4), Some(5), Some(42)];
  }

  // ---------------------------------------------------------------------
  // The script's module-level state
  // ---------------------------------------------------------------------

  class NumberGame {
    var currentNumber: int
    var attempts: int
    var gameActive: bool

    function State(): Round
      reads this
    {
      Round(currentNumber, attempts, gameActive)
    }

    predicate Valid()
      reads this
    {
      Inv(State())
    }

    /** The declarations at the top of the script. */
    constructor ()
      ensures State() == Initial && Valid()
    {
      currentNumber, attempts, gameActive := 0, 0, false;
    }

    /** `initializeGame`, with the secret drawn by the caller. */
    method InitializeGame(secret: int)
      requires InRange(secret)
      modifies this
      ensures State() == Start(secret) && Valid()
    {
      currentNumber := secret;
      attempts := 0;
      gameActive := true;
    }

    /** `gameWon`: the game is over; the counter and the secret stay. */
    method GameWon()
      modifies this
      ensures State() == old(State()).(gameActive := false)
    {
      gameActive := false;
    }

    /** `gameLost`: the game is over; the counter and the secret stay. */
    method GameLost()
      modifies this
      ensures State() == old(State()).(gameActive := false)
    {
      gameActive := false;
    }

    /** `makeGuess` with `parseInt` of the field already taken. */
    method MakeGuess(parsed: Option<int>) returns (outcome: Outcome)
      requires Valid()
      modifies this
      ensures Valid()
      ensures (State(), outcome) == Guess(old(State()), parsed)
    {
      if !gameActive {
        return Ignored;
      }
      if parsed.None? || parsed.value < 1 || parsed.value > 100 {
        return Rejected;
      }
      var guess := parsed.value;
      attempts := attempts + 1;
      if guess == currentNumber {
        GameWon();
        outcome := Won;
      } else if attempts >= MaxAttempts {
        GameLost();
        outcome := Lost;
      } else {
        outcome := Hinted(GiveHint(guess, currentNumber));
      }
    }

    /** `maxAttempts - attempts`, shown after every guess; never negative. */
    method RemainingAttempts() returns (n: int)
      requires Valid()
      ensures n == MaxAttempts - attempts && 0 <= n <= MaxAttempts
      ensures gameActive ==> n > 0
    {
      n := MaxAttempts - attempts;
    }
  }
}
