# SmartGuess game engines in Dafny

This project models the two game engines of SmartGuess, a set of small
browser guessing games:

- **Guess the Number** (`script.js`): the player has five attempts to find
  a secret number between 1 and 100. Each attempt ends in one of three ways:
  the player wins, the player loses, or the game hints "try higher" or "try
  lower". An `input` listener clamps the field, and the win message has
  three tiers.
- **Codebreaker** (`games/codebreaker/script.js`): the player has six
  attempts to find a four-digit code. Each position of a guess is marked
  `correct`, `existing` or `wrong`, and repeated digits are handled by a
  two-pass scorer. Every scored guess goes into a history that shows the
  newest guess first. The paste handler and the cell input filter keep the
  four cells numeric.

Each engine keeps its state in module-level variables. In the model, that
state is a class: `NumberGuess.NumberGame` and `Codebreaker.CodebreakerGame`.
Each class has a value counterpart (`Round`, `Board`) and a transition
function (`Guess`, `Submit`). The methods a player's action reaches
(`InitializeGame`, `MakeGuess`, `SubmitGuess`) are proved to follow the
transition function and to keep the engine's invariant. The smaller
methods (`GameWon`, `GameLost`, `EndGame`, `LogAttempt`, `ScoreGuess`) are
steps inside those; each states the fields it changes, and the invariant is
only claimed once the enclosing step is complete. The properties that
matter are proved as lemmas about the transition functions.

`analyzeGuess` is modelled as the array algorithm the script runs:
`CodeScore.AnalyzeGuess`, `ExactPass`, `RemainderPass`, `VisitRemaining`
and `FindIndex`. It has two passes over fresh copies of the secret and the
guess, and it uses the same -1 and -2 sentinels as the script. The algorithm
is proved equal to `CodeScore.Score`, which defines each mark in closed form.
A guess position with digit d that is not an exact match is `existing`
exactly when both of these hold:

- let *r* be the number of earlier positions in the guess that hold d and
  are not exact matches;
- then *r* is smaller than the number of positions in the secret that hold
  d and are not exact matches.

All properties of the scorer are proved about `Score`.

The files:

- `number_guess.dfy` is module `NumberGuess`.
- `code_score.dfy` is module `CodeScore`.
- `codebreaker.dfy` is module `Codebreaker`.

Notes on the code:

- With secret 1123 and guess 1111, the code gives correct, correct, wrong,
  wrong. The first pass uses both 1s of the secret for the exact matches,
  so nothing is left for the other two positions
  (`CodeScore.DuplicateExample`).
- The hint compares only with `<`. An equal guess has already won before
  the hint is computed, so the hint has two directions and no third case.
- A new game resets the same module-level state through `initializeGame`.
- Non-digit characters never reach `submitGuess`, because the cell filter
  wipes them first. The only check inside `submitGuess` is for an empty
  cell.
- The attempt limits are the constants 5 and 6.

## Model

| member | source | states |
|---|---|---|
| `NumberGuess.NumberGame.constructor` | script.js:2-5 | the initial state is secret 0, zero attempts, game inactive, and it satisfies the invariant |
| `NumberGuess.Start` | script.js:42-45 | a new game is active, has zero attempts and holds the given secret, which is in [1,100]; the invariant holds |
| `NumberGuess.NumberGame.InitializeGame` | script.js:42-45 | for a secret in [1,100], the object's new state is `Start(secret)` and the invariant holds |
| `NumberGuess.Guess` | script.js:117-148 | one guess keeps the invariant (at most 5 attempts; an active game has attempts left and an in-range secret), never changes the secret, and adds at most one to the counter |
| `NumberGuess.GuessCases` | script.js:118-143 | an inactive game ignores the guess and stays the same; NaN, below 1 or above 100 is rejected and the state stays the same; a valid guess adds exactly one attempt, keeps the secret, and is accepted; it wins exactly when it equals the secret; it loses exactly when it is wrong and reaches 5 attempts; the game stays active only after a hint; "higher" exactly when guess < secret, "lower" exactly when guess > secret |
| `NumberGuess.NumberGame.MakeGuess` | script.js:117-148 | the new state and outcome of the object equal `Guess(old state, input)`; the invariant is kept |
| `NumberGuess.NumberGame.GameWon` | script.js:187-188 | only `gameActive` changes, and it becomes false |
| `NumberGuess.NumberGame.GameLost` | script.js:220-221 | only `gameActive` changes, and it becomes false |
| `NumberGuess.GiveHint` | script.js:162-168 | "try higher" exactly when guess < secret; "try lower" whenever guess > secret |
| `NumberGuess.ClampEdit` | script.js:74-76 | the field is cleared exactly when the parsed value is below 1 and set to 100 exactly when it is above 100; NaN leaves the field alone |
| `NumberGuess.Clamped` | script.js:74-76 | after the listener runs, the field reads as NaN or as a number in [1,100]; NaN and in-range values pass unchanged; above 100 becomes 100; running the listener again changes nothing |
| `NumberGuess.WinMessage` | script.js:205-211 | first-try tier exactly at 1 attempt; fast tier exactly at 2 or 3 (any count other than 1 and at most 3); the last tier above 3 |
| `NumberGuess.WinTierOfWin` | script.js:204-211 | a win comes after 1 to 5 attempts: 1 gives the first-try tier, 2-3 the fast tier, 4-5 the last tier |
| `NumberGuess.NumberGame.RemainingAttempts` | script.js:155 | the remaining count `maxAttempts - attempts` is between 0 and 5, and positive while the game is active |
| `NumberGuess.PlayCountsAccepted` | script.js:130-143 | over any sequence of guesses: the invariant holds, the secret stays, and the counter grows by exactly the number of accepted guesses, so a game accepts at most 5 guesses |
| `NumberGuess.PlayInactive` | script.js:118 | an inactive game ignores every later guess and its state does not change |
| `NumberGuess.TerminalIsFinal` | script.js:134-143 | after a win or a loss, every later guess is ignored |
| `NumberGuess.ExampleWin` | script.js:117-168 | secret 42 and guesses 10, 90, 50, 42 give higher, lower, lower, then a win at attempt 4 |
| `NumberGuess.ExampleLoss` | script.js:117-148 | five wrong guesses give four hints and then a loss at attempt 5; a sixth guess is ignored |
| `CodeScore.Score` | games/codebreaker/script.js:152-176 | one mark per position; a mark is `correct` exactly when guess and secret agree at that position |
| `CodeScore.AllCorrectIffEqual` | games/codebreaker/script.js:145 | every mark of the score is `correct` exactly when the guess equals the secret |
| `CodeScore.AnalyzeGuess` | games/codebreaker/script.js:152-176 | the two-pass array algorithm on copies returns `Score(secret, guess)`, and the caller's secret is a value that is never modified |
| `CodeScore.ExactPass` | games/codebreaker/script.js:157-163 | after the first pass, exact positions are `correct` with -1 in the secret copy and -2 in the guess copy; every other entry keeps its value and its mark stays `wrong` |
| `CodeScore.RemainderPass` | games/codebreaker/script.js:165-173 | after the second pass over the exact-pass arrays, the marks are exactly `Score(secret, guess)` |
| `CodeScore.VisitRemaining` | games/codebreaker/script.js:166-172 | one step of the second pass: -2 positions are skipped; any other position gets its closed-form mark, and the secret copy moves on to the pool for the next position |
| `CodeScore.PoolFirst` | games/codebreaker/script.js:168-171 | the lowest secret-copy entry holding the digit is the unconsumed occurrence whose rank equals the number of earlier non-exact uses of that digit; if it exists the mark is `existing` and exactly that entry is consumed; if not, the mark is `wrong` and nothing is consumed |
| `CodeScore.FindIndex` | games/codebreaker/script.js:168 | returns the lowest index holding the value, or -1 when no entry holds it |
| `CodeScore.AbsentDigitIsWrong` | games/codebreaker/script.js:165-172 | a guess digit that does not occur in the secret is always `wrong` |
| `CodeScore.HitsPrefix` | games/codebreaker/script.js:157-172 | over the first k guess positions, the hits on a digit d are its exact matches plus min(non-exact d's among those positions, non-exact d's in the secret) |
| `CodeScore.DigitHits` | games/codebreaker/script.js:157-172 | for every digit d, the number of `correct` or `existing` marks on d equals min(count of d in guess, count of d in secret), so no secret position is used twice |
| `CodeScore.EarlierRepeatFirst` | games/codebreaker/script.js:165-172 | `existing` goes to repeats in ascending order: if a later non-exact repeat of a digit is `existing`, every earlier one is too |
| `CodeScore.DuplicateExample` | games/codebreaker/script.js:152-176 | secret 1123 and guess 1111 give correct, correct, wrong, wrong |
| `Codebreaker.FilterCell` | games/codebreaker/script.js:43-46 | the cell always ends up all digits; an all-digit text stays unchanged, and any other text becomes empty |
| `Codebreaker.StripNonDigits` | games/codebreaker/script.js:68 | the result holds only digits and is no longer than the input; a single digit is kept and a single non-digit is removed, which together with `StripConcat` fixes the result of every text |
| `Codebreaker.StripConcat` | games/codebreaker/script.js:68 | stripping non-digits distributes over concatenation, so the digits are kept in their original order |
| `Codebreaker.StripKeepsDigits` | games/codebreaker/script.js:68 | a text of only digits is unchanged by stripping |
| `Codebreaker.SanitizePaste` | games/codebreaker/script.js:68 | the result holds only digits, is at most 4 long, and is the prefix of the input's digits of length min(4, number of digits) |
| `Codebreaker.SanitizeIdempotent` | games/codebreaker/script.js:68 | sanitising twice gives the same result as sanitising once |
| `Codebreaker.PasteCells` | games/codebreaker/script.js:68-72 | with n = min(4, number of digits in the paste), the four cells afterwards hold the paste's first n digits one per cell, and cells n to 3 keep their text |
| `Codebreaker.PasteKeepsCellsNumeric` | games/codebreaker/script.js:68-72 | a paste keeps every cell numeric; with n = min(4, number of digits in the paste), cell i < n receives the paste's i-th digit and every cell from n on keeps its text; a paste with at least 4 digits fills the four cells with its first four digits |
| `Codebreaker.DecimalValue` | games/codebreaker/script.js:155 | `Number` of a digit text is a natural number, and for a single digit it is that digit's value |
| `Codebreaker.GuessValues` | games/codebreaker/script.js:155 | the four cell values are non-negative, so they never collide with the -1 and -2 sentinels |
| `Codebreaker.Start` | games/codebreaker/script.js:81-91 | a new game holds the given four-digit code, is active, has zero attempts and an empty history; the invariant holds |
| `Codebreaker.CodebreakerGame.constructor` | games/codebreaker/script.js:1-4 | the initial state is an empty code, zero attempts, game inactive, empty history, and it satisfies the invariant |
| `Codebreaker.CodebreakerGame.InitializeGame` | games/codebreaker/script.js:81-91 | the object's new state is `Start(code)` and the invariant holds |
| `Codebreaker.Submit` | games/codebreaker/script.js:125-150 | one submission never changes the secret and adds at most one to the attempt counter |
| `Codebreaker.SubmitKeepsInv` | games/codebreaker/script.js:125-150 | one submission keeps the engine's invariant: at most 6 attempts; an active game has attempts left; the history holds one entry per attempt, newest first, numbered with its attempt and scored against the secret; only the newest entry can be a win, and it is not one while the game is active; a finished game ended on a win or after 6 attempts |
| `Codebreaker.LoggedEntries` | games/codebreaker/script.js:136-140 | in a history the invariant accepts, entry k (counting from the newest) is numbered `attempts - k`, holds the marks `Score` gives its cells against the secret, and is not a win unless it is the newest |
| `Codebreaker.SubmitCases` | games/codebreaker/script.js:126-149 | an inactive game or an empty cell changes nothing and logs nothing; an accepted guess adds exactly one attempt; it is prepended to the history with marks `Score(secret, values)`; it wins exactly when the values equal the secret; it loses exactly when it is wrong and the counter has reached 6; otherwise the game stays active |
| `Codebreaker.WinIffCellsSpellSecret` | games/codebreaker/script.js:145 | with one digit per cell, a guess is all-correct exactly when the cells spell the secret |
| `Codebreaker.CodebreakerGame.SubmitGuess` | games/codebreaker/script.js:125-150 | the new state and result of the object equal `Submit(old state, cells)`; the invariant is kept |
| `Codebreaker.CodebreakerGame.ScoreGuess` | games/codebreaker/script.js:136-149 | past the two guards, counting, scoring and logging the guess and ending the game on a win or the last attempt leaves the object in the state and with the result `Submit(old state, cells)` gives |
| `Codebreaker.CodebreakerGame.LogAttempt` | games/codebreaker/script.js:206 | the new entry, numbered with the current attempt count, goes in front of the history; nothing else changes |
| `Codebreaker.CodebreakerGame.EndGame` | games/codebreaker/script.js:225-226 | only `gameActive` changes, and it becomes false |
| `Codebreaker.CodebreakerGame.AttemptsLeft` | games/codebreaker/script.js:106 | the remaining count is between 0 and 6, and positive while the game is active |

## Left out

- DOM work is left out: showing screens and modals, feedback and hint texts, focus, disabling inputs, shaking, building history nodes, and clearing the fields after a guess. It is view code. The history is modelled as the list of entries the page shows.
- `setTimeout` delays and the remaining-attempts warnings `giveHint` shows after a delay are left out. They affect presentation only.
- The confetti animation, the `visibilitychange` console messages and the keyboard shortcuts are left out. Escape and R only call `initializeGame`, which the model has.
- The `Math.random` secrets are left out. The caller supplies the secret, with a range precondition: [1,100] for the number, four digits 0..9 for the code.
- Progress-bar percentages and colour tiers are left out. They are floating-point styling.
- The string semantics of `parseInt` are left out (whitespace, signs, trailing text). Its result is an `Option<int>`, and `None` stands for NaN.
- `Number` of a cell text is modelled as the text's exact decimal value. The cells always hold digits only, because the input filter guarantees it. JavaScript's float rounding is not modelled. This changes no mark, because a value above 9 can never equal a secret digit either way.
- The cell length limit is set in the HTML page, which is not part of this model. The model therefore allows cells of any length.
- Localised messages are modelled as enumerations: the hint direction, the win tier and the submit result.

