/** `checkGuess` of src/shared/nerdle-logic.ts: the two-pass, multiplicity
    aware scorer. `Score` says declaratively what each position gets;
    `CheckGuess` is the source's algorithm (an array filled with ABSENT and a
    count table decremented in place) proved to compute it. */
module Scoring {
  import opened Numerals
  import opened NerdleLogic

  /** Position `i` of the guess matches the solution exactly; a position
      past the end of the solution never does. */
  predicate IsHit(guess: string, solution: string, i: nat)
    requires i < |guess|
  {
    i < |solution| && guess[i] == solution[i]
  }

  /** Exact matches of `c` among the first `n` positions. */
  function Hits(guess: string, solution: string, n: nat, c: char): nat
    requires n <= |guess|
  {
    if n == 0 then 0
    else Hits(guess, solution, n - 1, c) + (if IsHit(guess, solution, n - 1) && guess[n - 1] == c then 1 else 0)
  }

  /** Occurrences of `c` that are not exact matches among the first `n`
      positions. */
  function Misses(guess: string, solution: string, n: nat, c: char): nat
    requires n <= |guess|
  {
    if n == 0 then 0
    else Misses(guess, solution, n - 1, c) + (if !IsHit(guess, solution, n - 1) && guess[n - 1] == c then 1 else 0)
  }

  function Occurrences(s: string, c: char): nat
  {
    multiset(s)[c]
  }

  /** Copies of `c` in the solution left over after the exact matches. */
  function Spare(guess: string, solution: string, c: char): int
  {
    Occurrences(solution, c) - Hits(guess, solution, |guess|, c)
  }

  /** What position `i` gets: CORRECT for an exact match; otherwise the k-th
      unmatched occurrence of its character (counting from 0) is PRESENT
      while k is below that character's spare copies, and ABSENT after. */
  function StatusAt(guess: string, solution: string, i: nat): CharStatus
    requires i < |guess|
  {
    if IsHit(guess, solution, i) then Correct
    else if Misses(guess, solution, i, guess[i]) < Spare(guess, solution, guess[i]) then Present
    else Absent
  }

  /** The scorer colours every position, never with EMPTY, and a position is
      CORRECT exactly when it matches the solution there. */
  function Score(guess: string, solution: string): (r: seq<CharStatus>)
    ensures |r| == |guess|
    ensures forall i :: 0 <= i < |guess| ==> r[i] != Empty
    ensures forall i :: 0 <= i < |guess| ==> (r[i] == Correct <==> i < |solution| && guess[i] == solution[i])
  {
    seq(|guess|, i requires 0 <= i < |guess| => StatusAt(guess, solution, i))
  }

  // ---------------------------------------------------------------------
  // Counting facts

  lemma {:induction false} HitsAtMostOccurrences(guess: string, solution: string, n: nat, c: char)
    requires n <= |guess|
    ensures Hits(guess, solution, n, c) <= multiset(solution[..Min(n, |solution|)])[c]
  {
    if n > 0 {
      HitsAtMostOccurrences(guess, solution, n - 1, c);
      if n - 1 < |solution| {
        MultisetSnoc(solution, n - 1);
      } else {
        assert Min(n, |solution|) == Min(n - 1, |solution|);
      }
    }
  }

  /** The exact matches never use more copies than the solution has. */
  lemma SpareNonNegative(guess: string, solution: string, c: char)
    ensures Spare(guess, solution, c) >= 0
  {
    HitsAtMostOccurrences(guess, solution, |guess|, c);
    assert solution[..Min(|guess|, |solution|)] <= solution;
    MultisetOfPrefix(solution, Min(|guess|, |solution|), c);
  }

  /** Extending a prefix by one position adds that character. */
  lemma MultisetSnoc(s: string, i: nat)
    requires i < |s|
    ensures multiset(s[..i + 1]) == multiset(s[..i]) + multiset{s[i]}
  {
    assert s[..i + 1] == s[..i] + [s[i]];
  }

  lemma {:induction false} MultisetOfPrefix(s: string, n: nat, c: char)
    requires n <= |s|
    ensures multiset(s[..n])[c] <= multiset(s)[c]
  {
    assert s == s[..n] + s[n..];
  }

  lemma {:induction false} HitsPlusMisses(guess: string, solution: string, n: nat, c: char)
    requires n <= |guess|
    ensures Hits(guess, solution, n, c) + Misses(guess, solution, n, c) == multiset(guess[..n])[c]
  {
    if n > 0 {
      HitsPlusMisses(guess, solution, n - 1, c);
      assert guess[..n] == guess[..n - 1] + [guess[n - 1]];
    }
  }

  // ---------------------------------------------------------------------
  // Properties of the score

  /** Guessing the solution colours every position CORRECT. */
  lemma ScoreOfSolution(solution: string)
    ensures forall i :: 0 <= i < |solution| ==> Score(solution, solution)[i] == Correct
  {
  }

  /** PRESENT is given only away from an exact match, to a character that
      occurs in the solution. */
  lemma PresentOnlyIfInSolution(guess: string, solution: string, i: nat)
    requires i < |guess| && Score(guess, solution)[i] == Present
    ensures !IsHit(guess, solution, i) && guess[i] in solution
  {
    assert Occurrences(solution, guess[i]) > 0;
  }

  lemma {:induction false} MissesGrow(guess: string, solution: string, i: nat, j: nat, c: char)
    requires i < j <= |guess| && !IsHit(guess, solution, i) && guess[i] == c
    ensures Misses(guess, solution, j, c) >= Misses(guess, solution, i, c) + 1
  {
    if j > i + 1 {
      MissesGrow(guess, solution, i, j - 1, c);
    }
  }

  /** Once an unmatched occurrence of a character is ABSENT, every later
      unmatched occurrence of it is ABSENT too. */
  lemma AbsentStaysAbsent(guess: string, solution: string, i: nat, j: nat)
    requires i < j < |guess| && guess[i] == guess[j]
    requires !IsHit(guess, solution, j)
    requires Score(guess, solution)[i] == Absent
    ensures Score(guess, solution)[j] == Absent
  {
    MissesGrow(guess, solution, i, j, guess[i]);
  }

  /** Positions among the first `n` holding `c` coloured CORRECT or PRESENT. */
  function Credited(statuses: seq<CharStatus>, guess: string, n: nat, c: char): nat
    requires n <= |guess| == |statuses|
  {
    if n == 0 then 0
    else Credited(statuses, guess, n - 1, c)
         + (if guess[n - 1] == c && statuses[n - 1] in {Correct, Present} then 1 else 0)
  }

  lemma {:induction false} CreditedPrefix(guess: string, solution: string, n: nat, c: char)
    requires n <= |guess|
    ensures Credited(Score(guess, solution), guess, n, c)
            == Hits(guess, solution, n, c) + Min(Spare(guess, solution, c), Misses(guess, solution, n, c))
  {
    SpareNonNegative(guess, solution, c);
    if n > 0 {
      CreditedPrefix(guess, solution, n - 1, c);
      var status := Score(guess, solution)[n - 1];
      assert status == StatusAt(guess, solution, n - 1);
      var spare, misses := Spare(guess, solution, c), Misses(guess, solution, n - 1, c);
      if guess[n - 1] != c {
        assert Misses(guess, solution, n, c) == misses;
      } else if IsHit(guess, solution, n - 1) {
        assert status == Correct && Misses(guess, solution, n, c) == misses;
      } else {
        assert Misses(guess, solution, n, c) == misses + 1;
        assert status in {Correct, Present} <==> misses < spare;
      }
    }
  }

  /** A character is credited (CORRECT or PRESENT) exactly as often as it
      occurs in both the guess and the solution: never more often than the
      solution holds it, and no copy is left uncredited while the guess has
      one. */
  lemma CreditedCount(guess: string, solution: string, c: char)
    ensures Credited(Score(guess, solution), guess, |guess|, c)
            == Min(Occurrences(solution, c), Occurrences(guess, c))
    ensures Credited(Score(guess, solution), guess, |guess|, c) <= Occurrences(solution, c)
  {
    CreditedPrefix(guess, solution, |guess|, c);
    HitsPlusMisses(guess, solution, |guess|, c);
    assert guess[..|guess|] == guess;
  }

  // ---------------------------------------------------------------------
  // The algorithm

  /** `solutionCounts[c]`, where an absent key reads as 0. */
  function Get(counts: map<char, int>, c: char): int
  {
    if c in counts then counts[c] else 0
  }

  /** The frequency table of the solution's characters. */
  method CountChars(s: string) returns (counts: map<char, int>)
    ensures forall c :: Get(counts, c) == Occurrences(s, c)
  {
    counts := map[];
    for k := 0 to |s|
      invariant forall c :: Get(counts, c) == multiset(s[..k])[c]
    {
      assert s[..k + 1] == s[..k] + [s[k]];
      counts := counts[s[k] := Get(counts, s[k]) + 1];
    }
    assert s[..|s|] == s;
  }

  /** Copies of `c` still unclaimed once the first `i` positions have been
      through the second pass. */
  function Unclaimed(guess: string, solution: string, i: nat, c: char): nat
    requires i <= |guess|
  {
    var spare := Spare(guess, solution, c);
    var taken := Misses(guess, solution, i, c);
    if spare <= taken then 0 else spare - taken
  }

  /** An exact match at position `i` finds a copy of its character not yet
      used by an earlier exact match. */
  lemma CopyForHit(guess: string, solution: string, i: nat)
    requires i < |guess| && IsHit(guess, solution, i)
    ensures Occurrences(solution, guess[i]) - Hits(guess, solution, i, guess[i]) > 0
  {
    var c := guess[i];
    HitsAtMostOccurrences(guess, solution, i, c);
    assert Min(i, |solution|) == i;
    MultisetSnoc(solution, i);
    MultisetOfPrefix(solution, i + 1, c);
  }

  /** One step of the second pass: an unmatched position takes a copy of its
      character exactly when one is unclaimed, and nothing else changes. */
  lemma SecondPassStep(guess: string, solution: string, i: nat)
    requires i < |guess|
    ensures forall c :: c != guess[i] || IsHit(guess, solution, i) ==>
              Unclaimed(guess, solution, i + 1, c) == Unclaimed(guess, solution, i, c)
    ensures !IsHit(guess, solution, i) ==>
              && (StatusAt(guess, solution, i) == Present <==> Unclaimed(guess, solution, i, guess[i]) > 0)
              && Unclaimed(guess, solution, i + 1, guess[i])
                 == if Unclaimed(guess, solution, i, guess[i]) > 0 then Unclaimed(guess, solution, i, guess[i]) - 1 else 0
  {
  }

  /** The first pass of `checkGuess`: marks the exact matches CORRECT and
      takes one copy of each matched character off the count table. */
  method MarkExactMatches(guess: string, solution: string, result: array<CharStatus>, counts: map<char, int>)
    returns (remaining: map<char, int>)
    requires result.Length == |guess| && forall j :: 0 <= j < |guess| ==> result[j] == Absent
    requires forall c :: Get(counts, c) == Occurrences(solution, c)
    modifies result
    ensures forall j :: 0 <= j < |guess| ==> result[j] == (if IsHit(guess, solution, j) then Correct else Absent)
    ensures forall c :: Get(remaining, c) == Spare(guess, solution, c)
  {
    remaining := counts;
    for i := 0 to |guess|
      invariant forall j :: 0 <= j < i ==> result[j] == (if IsHit(guess, solution, j) then Correct else Absent)
      invariant forall j :: i <= j < |guess| ==> result[j] == Absent
      invariant forall c :: Get(remaining, c) == Occurrences(solution, c) - Hits(guess, solution, i, c)
    {
      var c := guess[i];
      if i < |solution| && c == solution[i] {
        CopyForHit(guess, solution, i);
        result[i] := Correct;
        if Get(remaining, c) != 0 {
          remaining := remaining[c := remaining[c] - 1];
        }
      }
    }
  }

  /** The second pass of `checkGuess`: every position not CORRECT becomes
      PRESENT while its character has an unclaimed copy, and stays ABSENT
      otherwise. */
  method MarkMisplaced(guess: string, solution: string, result: array<CharStatus>, counts: map<char, int>)
    requires result.Length == |guess|
    requires forall j :: 0 <= j < |guess| ==> result[j] == (if IsHit(guess, solution, j) then Correct else Absent)
    requires forall c :: Get(counts, c) == Spare(guess, solution, c)
    modifies result
    ensures forall j :: 0 <= j < |guess| ==> result[j] == StatusAt(guess, solution, j)
  {
    var remaining := counts;
    forall c ensures Get(remaining, c) == Unclaimed(guess, solution, 0, c) {
      SpareNonNegative(guess, solution, c);
    }
    for i := 0 to |guess|
      invariant forall j :: 0 <= j < i ==> result[j] == StatusAt(guess, solution, j)
      invariant forall j :: i <= j < |guess| ==> result[j] == (if IsHit(guess, solution, j) then Correct else Absent)
      invariant forall c :: Get(remaining, c) == Unclaimed(guess, solution, i, c)
    {
      SecondPassStep(guess, solution, i);
      assert result[i] == Correct <==> IsHit(guess, solution, i);
      if result[i] == Correct {
        continue;
      }
      var c := guess[i];
      ghost var before := remaining;
      if Get(remaining, c) > 0 {
        result[i] := Present;
        remaining := remaining[c := remaining[c] - 1];
      }
      forall d | d != c ensures Get(remaining, d) == Unclaimed(guess, solution, i + 1, d) {
        assert Get(remaining, d) == Get(before, d) == Unclaimed(guess, solution, i, d);
      }
    }
  }

  /** `checkGuess`: a result array filled with ABSENT, the solution's
      character counts, then the two passes. */
  method CheckGuess(guess: string, solution: string) returns (statuses: seq<CharStatus>)
    ensures statuses == Score(guess, solution)
  {
    var result := new CharStatus[|guess|](_ => Absent);
    var counts := CountChars(solution);
    counts := MarkExactMatches(guess, solution, result, counts);
    MarkMisplaced(guess, solution, result, counts);
    statuses := result[..];
  }
}
