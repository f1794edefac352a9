/**
 * Scoring of one Codebreaker guess against the secret code (`analyzeGuess`
 * in games/codebreaker/script.js).
 *
 * The source makes two passes over copies of the secret and of the guess.
 * The first pass marks every exact match `correct` and overwrites the matched
 * secret copy entry with -1 and the matched guess copy entry with -2. The
 * second pass walks the remaining guess positions in ascending order; each
 * one looks for the lowest-index secret copy entry still holding its digit
 * and, if there is one, marks `existing` and overwrites that entry with -1.
 *
 * `MarkAt` below is an independent, closed-form description of the result:
 * a non-exact guess digit d at position i is `existing` exactly when fewer
 * non-exact occurrences of d come before i in the guess than there are
 * non-exact occurrences of d in the whole secret. `AnalyzeGuess` is the
 * two-pass algorithm on arrays, proved to produce `Score`.
 */
module CodeScore {

  /** The marks `analyzeGuess` hands out, one per code position. */
  datatype Mark = Correct | Existing | Wrong

  /** Length of a code: the secret has four digits and the page four cells. */
  const CodeLength: nat := 4

  /** Occurrences of d among the first k entries of s. */
  function Count(s: seq<int>, d: int, k: nat): (n: nat)
    requires k <= |s|
    ensures n <= k
  {
    if k == 0 then 0
    else Count(s, d, k - 1) + (if s[k - 1] == d then 1 else 0)
  }

  /** Positions j < k where both a and b hold d: the exact matches on digit d. */
  function Exact(a: seq<int>, b: seq<int>, d: int, k: nat): (n: nat)
    requires |a| == |b| && k <= |a|
    ensures n <= k
  {
    if k == 0 then 0
    else Exact(a, b, d, k - 1) + (if a[k - 1] == d && b[k - 1] == d then 1 else 0)
  }

  /**
   * Positions j < k where a holds d and b does not: the occurrences of d in a
   * that the exact-match pass leaves unconsumed. For a position j holding d,
   * Unmatched(a, b, d, j) is the rank of that occurrence among them.
   */
  function Unmatched(a: seq<int>, b: seq<int>, d: int, k: nat): (n: nat)
    requires |a| == |b| && k <= |a|
    ensures n <= k
  {
    if k == 0 then 0
    else Unmatched(a, b, d, k - 1) + (if a[k - 1] == d && b[k - 1] != d then 1 else 0)
  }

  /** The mark of guess position i, stated without reference to the passes. */
  function MarkAt(secret: seq<int>, guess: seq<int>, i: nat): Mark
    requires |secret| == |guess| && i < |guess|
  {
    if guess[i] == secret[i] then Correct
    else if Unmatched(guess, secret, guess[i], i) < Unmatched(secret, guess, guess[i], |secret|) then Existing
    else Wrong
  }

  /** The feedback of a whole guess. */
  function Score(secret: seq<int>, guess: seq<int>): (marks: seq<Mark>)
    requires |secret| == |guess|
    ensures |marks| == |guess|
    ensures forall i :: 0 <= i < |guess| ==> (marks[i] == Correct <==> guess[i] == secret[i])
  {
    seq(|guess|, i requires 0 <= i < |guess| => MarkAt(secret, guess, i))
  }

  /** The score at position i is the closed-form mark there. */
  lemma ScoreAt(secret: seq<int>, guess: seq<int>, i: nat)
    requires |secret| == |guess| && i < |guess|
    ensures Score(secret, guess)[i] == MarkAt(secret, guess, i)
  {
  }

  /** The guess scores all `Correct` exactly when it equals the secret. */
  lemma AllCorrectIffEqual(secret: seq<int>, guess: seq<int>)
    requires |secret| == |guess|
    ensures (forall i :: 0 <= i < |guess| ==> Score(secret, guess)[i] == Correct) <==> guess == secret
  {
    var marks := Score(secret, guess);
    if forall i :: 0 <= i < |guess| ==> marks[i] == Correct {
      forall i | 0 <= i < |guess|
        ensures guess[i] == secret[i]
      {
        assert marks[i] == Correct;
      }
    }
  }

  /** Guess positions j < k holding d whose mark is not `Wrong`. */
  function Hits(marks: seq<Mark>, guess: seq<int>, d: int, k: nat): (n: nat)
    requires |marks| == |guess| && k <= |guess|
    ensures n <= k
  {
    if k == 0 then 0
    else Hits(marks, guess, d, k - 1) + (if guess[k - 1] == d && marks[k - 1] != Wrong then 1 else 0)
  }

  function Min(x: int, y: int): int { if x <= y then x else y }

  // ---------------------------------------------------------------------
  // Counting lemmas
  // ---------------------------------------------------------------------

  /** Every occurrence of d is either an exact match or unmatched, on both sides. */
  lemma {:induction false} CountSplit(a: seq<int>, b: seq<int>, d: int, k: nat)
    requires |a| == |b| && k <= |a|
    ensures Count(a, d, k) == Exact(a, b, d, k) + Unmatched(a, b, d, k)
    ensures Count(b, d, k) == Exact(a, b, d, k) + Unmatched(b, a, d, k)
  {
    if k > 0 {
      CountSplit(a, b, d, k - 1);
    }
  }

  lemma {:induction false} UnmatchedMonotone(a: seq<int>, b: seq<int>, d: int, j: nat, k: nat)
    requires |a| == |b| && j <= k <= |a|
    ensures Unmatched(a, b, d, j) <= Unmatched(a, b, d, k)
  {
    if j < k {
      UnmatchedMonotone(a, b, d, j, k - 1);
    }
  }

  /** Ranks of unmatched occurrences strictly increase with the position. */
  lemma RankBelow(a: seq<int>, b: seq<int>, d: int, j: nat, k: nat)
    requires |a| == |b| && j < k <= |a|
    requires a[j] == d && b[j] != d
    ensures Unmatched(a, b, d, j) < Unmatched(a, b, d, k)
  {
    UnmatchedMonotone(a, b, d, j + 1, k);
  }

  /** Every rank below the total is the rank of some unmatched occurrence. */
  lemma {:induction false} RankExists(a: seq<int>, b: seq<int>, d: int, k: nat, r: nat) returns (j: nat)
    requires |a| == |b| && k <= |a|
    requires r < Unmatched(a, b, d, k)
    ensures j < k && a[j] == d && b[j] != d && Unmatched(a, b, d, j) == r
  {
    if r < Unmatched(a, b, d, k - 1) {
      j := RankExists(a, b, d, k - 1, r);
    } else {
      j := k - 1;
    }
  }

  /** A digit that does not occur in a has no unmatched occurrence in it. */
  lemma {:induction false} UnmatchedAbsent(a: seq<int>, b: seq<int>, d: int, k: nat)
    requires |a| == |b| && k <= |a|
    requires d !in a
    ensures Unmatched(a, b, d, k) == 0
  {
    if k > 0 {
      UnmatchedAbsent(a, b, d, k - 1);
    }
  }

  // ---------------------------------------------------------------------
  // Properties of the feedback
  // ---------------------------------------------------------------------

  /** A guess digit that does not occur in the secret is always `Wrong`. */
  lemma AbsentDigitIsWrong(secret: seq<int>, guess: seq<int>, i: nat)
    requires |secret| == |guess| && i < |guess|
    requires guess[i] !in secret
    ensures Score(secret, guess)[i] == Wrong
  {
    UnmatchedAbsent(secret, guess, guess[i], |secret|);
  }

  /** One more guess position adds a hit exactly when the closed form grows. */
  lemma HitsStep(secret: seq<int>, guess: seq<int>, d: int, k: nat, m: Mark)
    requires |secret| == |guess| && 0 < k <= |guess|
    requires m == MarkAt(secret, guess, k - 1)
    ensures Exact(guess, secret, d, k - 1)
          + Min(Unmatched(guess, secret, d, k - 1), Unmatched(secret, guess, d, |secret|))
          + (if guess[k - 1] == d && m != Wrong then 1 else 0)
         == Exact(guess, secret, d, k)
          + Min(Unmatched(guess, secret, d, k), Unmatched(secret, guess, d, |secret|))
  {
  }

  /** The hits on d among the first k positions: all exact matches plus as
      many unmatched guess occurrences as the secret has unmatched ones. */
  lemma {:induction false} HitsPrefix(secret: seq<int>, guess: seq<int>, marks: seq<Mark>, d: int, k: nat)
    requires |secret| == |guess| == |marks| && k <= |guess|
    requires forall j :: 0 <= j < |guess| ==> marks[j] == MarkAt(secret, guess, j)
    ensures Hits(marks, guess, d, k)
         == Exact(guess, secret, d, k)
          + Min(Unmatched(guess, secret, d, k), Unmatched(secret, guess, d, |secret|))
  {
    if k > 0 {
      HitsPrefix(secret, guess, marks, d, k - 1);
      HitsStep(secret, guess, d, k, marks[k - 1]);
    }
  }

  /**
   * Duplicate accounting: for every digit d the number of `Correct` and
   * `Existing` marks on guess positions holding d is the smaller of the
   * number of d's in the guess and in the secret. In particular no secret
   * position is used by two guess positions.
   */
  lemma DigitHits(secret: seq<int>, guess: seq<int>, d: int)
    requires |secret| == |guess|
    ensures Hits(Score(secret, guess), guess, d, |guess|)
         == Min(Count(guess, d, |guess|), Count(secret, d, |secret|))
  {
    forall j | 0 <= j < |guess| ensures Score(secret, guess)[j] == MarkAt(secret, guess, j) {
      ScoreAt(secret, guess, j);
    }
    HitsPrefix(secret, guess, Score(secret, guess), d, |guess|);
    CountSplit(guess, secret, d, |guess|);
  }

  /**
   * `Existing` goes to repeated digits in ascending guess position: if a later
   * non-exact occurrence of a digit is `Existing`, so is every earlier one.
   */
  lemma EarlierRepeatFirst(secret: seq<int>, guess: seq<int>, i: nat, k: nat)
    requires |secret| == |guess| && i < k < |guess|
    requires guess[i] == guess[k] && guess[i] != secret[i]
    requires Score(secret, guess)[k] == Existing
    ensures Score(secret, guess)[i] == Existing
  {
    RankBelow(guess, secret, guess[i], i, k);
  }

  /** Secret 1123 against guess 1111: the two 1s of the secret are used by the
      two exact matches, so the other two 1s of the guess are `Wrong`. */
  lemma DuplicateExample()
    ensures Score([1, 1, 2, 3], [1, 1, 1, 1]) == [Correct, Correct, Wrong, Wrong]
  {
    assert Unmatched([1, 1, 2, 3], [1, 1, 1, 1], 1, 4) == 0;
  }

  // ---------------------------------------------------------------------
  // The two-pass algorithm
  // ---------------------------------------------------------------------

  /**
   * Content of secret copy entry j once the second pass has handled guess
   * positions below i: -1 if the entry was consumed by an exact match or by
   * one of the first Unmatched(guess, secret, d, i) non-exact guess
   * occurrences of its digit d (which take the lowest-ranked entries),
   * otherwise the secret digit.
   */
  function Pool(secret: seq<int>, guess: seq<int>, i: nat, j: nat): int
    requires |secret| == |guess| && i <= |guess| && j < |secret|
  {
    if secret[j] == guess[j] then -1
    else if Unmatched(secret, guess, secret[j], j) < Unmatched(guess, secret, secret[j], i) then -1
    else secret[j]
  }

  /**
   * What the second pass finds for a non-exact guess position i: w == -1 when
   * no pool entry holds guess[i] (the mark is `Wrong` and the pool is left
   * as it is), otherwise w is the lowest pool entry holding guess[i] (the
   * mark is `Existing` and exactly entry w is consumed).
   */
  lemma PoolFirst(secret: seq<int>, guess: seq<int>, i: nat) returns (w: int)
    requires |secret| == |guess| && i < |guess|
    requires guess[i] != secret[i] && guess[i] >= 0
    ensures -1 <= w < |secret|
    ensures w == -1 ==> MarkAt(secret, guess, i) == Wrong
    ensures w == -1 ==> forall j :: 0 <= j < |secret| ==>
      Pool(secret, guess, i, j) != guess[i] && Pool(secret, guess, i + 1, j) == Pool(secret, guess, i, j)
    ensures 0 <= w ==> MarkAt(secret, guess, i) == Existing && Pool(secret, guess, i, w) == guess[i]
    ensures 0 <= w ==> forall j :: 0 <= j < w ==> Pool(secret, guess, i, j) != guess[i]
    ensures 0 <= w ==> forall j :: 0 <= j < |secret| ==>
      Pool(secret, guess, i + 1, j) == if j == w then -1 else Pool(secret, guess, i, j)
  {
    var d := guess[i];
    var r := Unmatched(guess, secret, d, i);
    if r < Unmatched(secret, guess, d, |secret|) {
      w := RankExists(secret, guess, d, |secret|, r);
      forall j | 0 <= j < |secret| && j != w && secret[j] == d && guess[j] != d
        ensures (j < w ==> Unmatched(secret, guess, d, j) < r) && (w < j ==> r < Unmatched(secret, guess, d, j))
      {
        if j < w {
          RankBelow(secret, guess, d, j, w);
        } else {
          RankBelow(secret, guess, d, w, j);
        }
      }
    } else {
      w := -1;
      forall j | 0 <= j < |secret| && secret[j] == d && guess[j] != d
        ensures Unmatched(secret, guess, d, j) < r
      {
        RankBelow(secret, guess, d, j, |secret|);
      }
    }
  }

  /** `secretCopy.findIndex(s => s === digit)`: the lowest index holding x, or -1. */
  method FindIndex(a: array<int>, x: int) returns (idx: int)
    ensures -1 <= idx < a.Length
    ensures idx == -1 ==> forall j :: 0 <= j < a.Length ==> a[j] != x
    ensures 0 <= idx ==> a[idx] == x && forall j :: 0 <= j < idx ==> a[j] != x
  {
    var j := 0;
    while j < a.Length
      invariant 0 <= j <= a.Length
      invariant forall m :: 0 <= m < j ==> a[m] != x
    {
      if a[j] == x {
        return j;
      }
      j := j + 1;
    }
    return -1;
  }

  /** The first `forEach` of `analyzeGuess`: exact matches. */
  method ExactPass(secret: seq<int>, guess: seq<int>,
                   feedback: array<Mark>, secretCopy: array<int>, guessCopy: array<int>)
    requires |secret| == |guess| == feedback.Length == secretCopy.Length == guessCopy.Length
    requires secretCopy != guessCopy
    requires secretCopy[..] == secret && guessCopy[..] == guess
    requires forall j :: 0 <= j < feedback.Length ==> feedback[j] == Wrong
    modifies feedback, secretCopy, guessCopy
    ensures forall j :: 0 <= j < |guess| ==>
      feedback[j] == (if guess[j] == secret[j] then Correct else Wrong) &&
      secretCopy[j] == Pool(secret, guess, 0, j) &&
      guessCopy[j] == (if guess[j] == secret[j] then -2 else guess[j])
  {
    var i := 0;
    while i < |guess|
      invariant 0 <= i <= |guess|
      invariant forall j :: 0 <= j < |guess| ==>
        feedback[j] == if j < i && guess[j] == secret[j] then Correct else Wrong
      invariant forall j :: 0 <= j < |guess| ==>
        secretCopy[j] == if j < i && guess[j] == secret[j] then -1 else secret[j]
      invariant forall j :: 0 <= j < |guess| ==>
        guessCopy[j] == if j < i && guess[j] == secret[j] then -2 else guess[j]
    {
      if guessCopy[i] == secret[i] {
        feedback[i] := Correct;
        secretCopy[i] := -1;
        guessCopy[i] := -2;
      }
      i := i + 1;
    }
  }

  /** The exact-match position i of the second pass is skipped, and the pool
      it leaves is the same before and after i. */
  lemma PoolSkipsExact(secret: seq<int>, guess: seq<int>, i: nat)
    requires |secret| == |guess| && i < |guess| && guess[i] == secret[i]
    ensures forall j :: 0 <= j < |secret| ==> Pool(secret, guess, i + 1, j) == Pool(secret, guess, i, j)
  {
  }

  /** The feedback during the second pass: final marks below position i,
      the first pass's marks from i on. */
  ghost function MarksBefore(secret: seq<int>, guess: seq<int>, i: nat): seq<Mark>
    requires |secret| == |guess| && i <= |guess|
  {
    seq(|guess|, j requires 0 <= j < |guess| =>
      if j < i then MarkAt(secret, guess, j)
      else if guess[j] == secret[j] then Correct else Wrong)
  }

  /** The whole secret copy when the second pass reaches position i. */
  ghost function PoolBefore(secret: seq<int>, guess: seq<int>, i: nat): seq<int>
    requires |secret| == |guess| && i <= |guess|
  {
    seq(|secret|, j requires 0 <= j < |secret| => Pool(secret, guess, i, j))
  }

  /**
   * The callback of the second `forEach` at guess position i: a position the
   * first pass matched (guess copy -2) is skipped; any other looks up the
   * lowest secret copy entry holding its digit and, if there is one, marks
   * `existing` and consumes that entry.
   */
  method VisitRemaining(secret: seq<int>, guess: seq<int>, i: nat,
                        feedback: array<Mark>, secretCopy: array<int>, guessCopy: array<int>)
    requires |secret| == |guess| == feedback.Length == secretCopy.Length == guessCopy.Length
    requires i < |guess| && guess[i] >= 0 && secretCopy != guessCopy
    requires guessCopy[i] == if guess[i] == secret[i] then -2 else guess[i]
    requires feedback[..] == MarksBefore(secret, guess, i)
    requires secretCopy[..] == PoolBefore(secret, guess, i)
    modifies feedback, secretCopy
    ensures feedback[..] == MarksBefore(secret, guess, i + 1)
    ensures secretCopy[..] == PoolBefore(secret, guess, i + 1)
  {
    ghost var before := feedback[..];
    assert forall j :: 0 <= j < |guess| ==> secretCopy[j] == Pool(secret, guess, i, j) by {
      forall j | 0 <= j < |guess| ensures secretCopy[j] == Pool(secret, guess, i, j) {
        assert secretCopy[..][j] == PoolBefore(secret, guess, i)[j];
      }
    }
    var digit := guessCopy[i];
    if digit == -2 {
      PoolSkipsExact(secret, guess, i);
    } else {
      ghost var w := PoolFirst(secret, guess, i);
      var found := FindIndex(secretCopy, digit);
      assert found == w by {
        if 0 <= w { assert secretCopy[w] == digit; }
        if 0 <= found { assert Pool(secret, guess, i, found) == digit; }
      }
      if found != -1 {
        feedback[i] := Existing;
        secretCopy[found] := -1;
      }
    }
    assert feedback[i] == MarkAt(secret, guess, i);
    assert forall j :: 0 <= j < |guess| && j != i ==> feedback[j] == before[j];
    assert forall j :: 0 <= j < |guess| ==> feedback[..][j] == MarksBefore(secret, guess, i + 1)[j];
    assert forall j :: 0 <= j < |guess| ==> secretCopy[..][j] == PoolBefore(secret, guess, i + 1)[j];
  }

  /** Feedback that holds the mark of every position is the score. */
  lemma MarksAreScore(secret: seq<int>, guess: seq<int>)
    requires |secret| == |guess|
    ensures MarksBefore(secret, guess, |guess|) == Score(secret, guess)
  {
  }

  /** The second `forEach` of `analyzeGuess`: each remaining guess position, in
      ascending order, takes the lowest secret copy entry holding its digit. */
  method RemainderPass(secret: seq<int>, guess: seq<int>,
                       feedback: array<Mark>, secretCopy: array<int>, guessCopy: array<int>)
    requires |secret| == |guess| == feedback.Length == secretCopy.Length == guessCopy.Length
    requires secretCopy != guessCopy
    requires forall j :: 0 <= j < |guess| ==> guess[j] >= 0
    requires forall j :: 0 <= j < |guess| ==>
      feedback[j] == (if guess[j] == secret[j] then Correct else Wrong) &&
      secretCopy[j] == Pool(secret, guess, 0, j) &&
      guessCopy[j] == (if guess[j] == secret[j] then -2 else guess[j])
    modifies feedback, secretCopy
    ensures feedback[..] == Score(secret, guess)
  {
    assert feedback[..] == MarksBefore(secret, guess, 0);
    assert secretCopy[..] == PoolBefore(secret, guess, 0);
    var i := 0;
    while i < |guess|
      invariant 0 <= i <= |guess|
      invariant feedback[..] == MarksBefore(secret, guess, i)
      invariant secretCopy[..] == PoolBefore(secret, guess, i)
    {
      VisitRemaining(secret, guess, i, feedback, secretCopy, guessCopy);
      i := i + 1;
    }
    MarksAreScore(secret, guess);
  }

  /**
   * `analyzeGuess`: the two passes over fresh copies of the secret and of the
   * guess (the values `Number` gives the four cells, never negative), with
   * the sentinels -1 and -2. The caller's secret is not touched.
   */
  method AnalyzeGuess(secret: seq<int>, guess: seq<int>) returns (marks: seq<Mark>)
    requires |secret| == CodeLength && |guess| == CodeLength
    requires forall i :: 0 <= i < |guess| ==> guess[i] >= 0
    ensures marks == Score(secret, guess)
  {
    var feedback := new Mark[CodeLength](_ => Wrong);
    var secretCopy := new int[CodeLength](j requires 0 <= j < CodeLength => secret[j]);
    var guessCopy := new int[CodeLength](j requires 0 <= j < CodeLength => guess[j]);
    ExactPass(secret, guess, feedback, secretCopy, guessCopy);
    RemainderPass(secret, guess, feedback, secretCopy, guessCopy);
    marks := feedback[..];
  }
}
