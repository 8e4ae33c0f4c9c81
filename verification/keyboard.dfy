/** The on-screen keyboard's colouring (src/client/components/Keyboard.tsx):
    every submitted guess is scored against the solution, and each key shows
    the best status its character received anywhere, ranked
    ABSENT < PRESENT < CORRECT; a key no guess used stays EMPTY. */
module Keyboard {
  import opened Wrappers
  import opened NerdleLogic
  import opened Scoring

  /** The order in which a key's colour may only be upgraded. */
  function Rank(s: CharStatus): nat
  {
    match s
    case Empty => 0
    case Absent => 1
    case Present => 2
    case Correct => 3
  }

  /** The best of a set of statuses: the highest-ranked one, EMPTY when the
      set holds no real status. */
  function BestOf(received: set<CharStatus>): (r: CharStatus)
    ensures r != Empty ==> r in received
    ensures forall s :: s in received && s != Empty ==> Rank(s) <= Rank(r)
    ensures r == Empty ==> received <= {Empty}
  {
    if Correct in received then Correct
    else if Present in received then Present
    else if Absent in received then Absent
    else Empty
  }

  /** Every status `c` received at a position of a guess. */
  ghost function Received(guesses: seq<string>, solution: string, c: char): set<CharStatus>
  {
    set g, i | g in guesses && 0 <= i < |g| && g[i] == c :: Score(g, solution)[i]
  }

  /** The colour of key `c` after `guesses`: the best status it received. */
  ghost function KeyStatus(guesses: seq<string>, solution: string, c: char): CharStatus
  {
    BestOf(Received(guesses, solution, c))
  }

  /** What the key shows for a table: its entry, or EMPTY without one. */
  function Lookup(table: map<char, CharStatus>, key: char): (s: CharStatus)
    ensures key !in table ==> s == Empty
    ensures key in table ==> s == table[key]
  {
    if key in table then table[key] else Empty
  }

  /** The statuses received by `c` from the first `n` guesses and the first
      `m` characters of guess `n`: what the aggregation loop has seen. */
  ghost function ReceivedUpTo(guesses: seq<string>, solution: string, n: nat, m: nat, c: char): set<CharStatus>
  {
    set k, j | 0 <= k < |guesses| && 0 <= j < |guesses[k]| && (k < n || (k == n && j < m)) && guesses[k][j] == c
      :: Score(guesses[k], solution)[j]
  }

  lemma ReceivedUpToStep(guesses: seq<string>, solution: string, n: nat, m: nat, c: char)
    requires n < |guesses| && m < |guesses[n]|
    ensures ReceivedUpTo(guesses, solution, n, m + 1, c)
         == ReceivedUpTo(guesses, solution, n, m, c)
            + (if guesses[n][m] == c then {Score(guesses[n], solution)[m]} else {})
  {
    var before := ReceivedUpTo(guesses, solution, n, m, c);
    var after := ReceivedUpTo(guesses, solution, n, m + 1, c);
    var added := if guesses[n][m] == c then {Score(guesses[n], solution)[m]} else {};
    forall s | s in after ensures s in before + added {
      var k, j :| 0 <= k < |guesses| && 0 <= j < |guesses[k]| && (k < n || (k == n && j < m + 1))
                  && guesses[k][j] == c && s == Score(guesses[k], solution)[j];
      if k == n && j == m {
        assert s in added;
      } else {
        assert s in before;
      }
    }
    if guesses[n][m] == c {
      assert Score(guesses[n], solution)[m] in after;
    }
  }

  lemma ReceivedUpToNextGuess(guesses: seq<string>, solution: string, n: nat, c: char)
    requires n < |guesses|
    ensures ReceivedUpTo(guesses, solution, n, |guesses[n]|, c) == ReceivedUpTo(guesses, solution, n + 1, 0, c)
  {
  }

  lemma ReceivedUpToAll(guesses: seq<string>, solution: string, c: char)
    ensures ReceivedUpTo(guesses, solution, |guesses|, 0, c) == Received(guesses, solution, c)
  {
    var upTo := ReceivedUpTo(guesses, solution, |guesses|, 0, c);
    forall s | s in Received(guesses, solution, c) ensures s in upTo {
      var g, i :| g in guesses && 0 <= i < |g| && g[i] == c && s == Score(g, solution)[i];
      var k :| 0 <= k < |guesses| && guesses[k] == g;
      assert Score(guesses[k], solution)[i] in upTo;
    }
  }

  /** One step of the loop body: upgrading the entry of `c` by `status`
      yields the best of what it had and `status`. */
  lemma UpgradeIsBest(received: set<CharStatus>, status: CharStatus)
    requires status != Empty
    ensures BestOf(received + {status})
         == (if Rank(status) > Rank(BestOf(received)) then status else BestOf(received))
  {
  }

  /** The table shows, for every key, the best status received from the
      first `n` guesses and the first `m` characters of guess `n`. */
  ghost predicate Tracks(table: map<char, CharStatus>, guesses: seq<string>, solution: string, n: nat, m: nat)
  {
    forall c :: Lookup(table, c) == BestOf(ReceivedUpTo(guesses, solution, n, m, c))
  }

  /** No entry of the table is EMPTY. */
  predicate NoEmptyEntry(table: map<char, CharStatus>)
  {
    forall c :: c in table ==> table[c] != Empty
  }

  /** `after` is `before` with the entry of `c` upgraded by `status`. */
  predicate Upgraded(before: map<char, CharStatus>, after: map<char, CharStatus>, c: char, status: CharStatus)
  {
    && (forall d :: d != c ==> Lookup(after, d) == Lookup(before, d))
    && Lookup(after, c) == if Rank(status) > Rank(Lookup(before, c)) then status else Lookup(before, c)
  }

  /** The effect of one character on the table: it now holds the best of
      what it held and the new status, and every other entry is kept. */
  lemma UpgradeStep(guesses: seq<string>, solution: string, n: nat, m: nat,
                    before: map<char, CharStatus>, after: map<char, CharStatus>)
    requires n < |guesses| && m < |guesses[n]| && |Score(guesses[n], solution)| == |guesses[n]|
    requires Score(guesses[n], solution)[m] != Empty
    requires Tracks(before, guesses, solution, n, m)
    requires Upgraded(before, after, guesses[n][m], Score(guesses[n], solution)[m])
    ensures Tracks(after, guesses, solution, n, m + 1)
  {
    forall d ensures Lookup(after, d) == BestOf(ReceivedUpTo(guesses, solution, n, m + 1, d)) {
      ReceivedUpToStep(guesses, solution, n, m, d);
      if d == guesses[n][m] {
        UpgradeIsBest(ReceivedUpTo(guesses, solution, n, m, d), Score(guesses[n], solution)[m]);
      }
    }
  }

  /** The per-character status callback: a CORRECT status always
      wins, PRESENT replaces anything but CORRECT, and ABSENT only fills a
      key that has no colour yet. */
  method Upgrade(table: map<char, CharStatus>, c: char, status: CharStatus)
    returns (updated: map<char, CharStatus>)
    requires status != Empty && NoEmptyEntry(table)
    ensures Upgraded(table, updated, c, status)
    ensures NoEmptyEntry(updated)
  {
    var current := if c in table then Some(table[c]) else None;
    updated := table;
    if status == Correct {
      updated := updated[c := Correct];
    } else if status == Present && current != Some(Correct) {
      updated := updated[c := Present];
    } else if status == Absent && current != Some(Correct) && current != Some(Present) {
      updated := updated[c := Absent];
    }
  }

  /** The walk over guess `n`'s characters: each of them
      upgrades that character's entry. */
  method RecordGuess(guesses: seq<string>, solution: string, n: nat, table: map<char, CharStatus>)
    returns (updated: map<char, CharStatus>)
    requires n < |guesses|
    requires Tracks(table, guesses, solution, n, 0) && NoEmptyEntry(table)
    ensures Tracks(updated, guesses, solution, n + 1, 0) && NoEmptyEntry(updated)
  {
    var guess := guesses[n];
    var statuses := CheckGuess(guess, solution);
    updated := table;
    for m := 0 to |guess|
      invariant Tracks(updated, guesses, solution, n, m) && NoEmptyEntry(updated)
    {
      ghost var before := updated;
      updated := Upgrade(updated, guess[m], statuses[m]);
      UpgradeStep(guesses, solution, n, m, before, updated);
    }
    forall c ensures Lookup(updated, c) == BestOf(ReceivedUpTo(guesses, solution, n + 1, 0, c)) {
      ReceivedUpToNextGuess(guesses, solution, n, c);
    }
  }

  /** The aggregation over all guesses: every guess is scored and each of its
      characters upgrades that character's entry. The table holds exactly
      the keys some guess used, each with the best status it received. */
  method KeyStatuses(guesses: seq<string>, solution: string) returns (table: map<char, CharStatus>)
    ensures forall c :: Lookup(table, c) == KeyStatus(guesses, solution, c)
    ensures forall c :: c in table ==> table[c] != Empty
  {
    table := map[];
    for n := 0 to |guesses|
      invariant Tracks(table, guesses, solution, n, 0) && NoEmptyEntry(table)
    {
      table := RecordGuess(guesses, solution, n, table);
    }
    forall c ensures Lookup(table, c) == KeyStatus(guesses, solution, c) {
      ReceivedUpToAll(guesses, solution, c);
    }
  }

  /** A key is CORRECT exactly when some guess put its character in a
      position the solution has it in. */
  lemma KeyCorrectIff(guesses: seq<string>, solution: string, c: char)
    ensures KeyStatus(guesses, solution, c) == Correct <==>
            exists g, i :: g in guesses && 0 <= i < |g| && g[i] == c && i < |solution| && solution[i] == c
  {
    if exists g, i :: g in guesses && 0 <= i < |g| && g[i] == c && i < |solution| && solution[i] == c {
      var g, i :| g in guesses && 0 <= i < |g| && g[i] == c && i < |solution| && solution[i] == c;
      assert Score(g, solution)[i] == Correct;
      assert Correct in Received(guesses, solution, c);
    }
    if KeyStatus(guesses, solution, c) == Correct {
      var g, i :| g in guesses && 0 <= i < |g| && g[i] == c && Score(g, solution)[i] == Correct;
    }
  }

  /** A key stays EMPTY exactly when no guess contains its character. */
  lemma KeyEmptyIff(guesses: seq<string>, solution: string, c: char)
    ensures KeyStatus(guesses, solution, c) == Empty <==> forall g :: g in guesses ==> c !in g
  {
    if exists g :: g in guesses && c in g {
      var g :| g in guesses && c in g;
      var i :| 0 <= i < |g| && g[i] == c;
      assert Score(g, solution)[i] in Received(guesses, solution, c);
    }
  }

  /** A key is coloured CORRECT or PRESENT only if its character occurs in
      the solution. */
  lemma KeyMarkedOnlyIfInSolution(guesses: seq<string>, solution: string, c: char)
    requires KeyStatus(guesses, solution, c) in {Correct, Present}
    ensures c in solution
  {
    var s := KeyStatus(guesses, solution, c);
    var g, i :| g in guesses && 0 <= i < |g| && g[i] == c && Score(g, solution)[i] == s;
    if s == Present {
      PresentOnlyIfInSolution(g, solution, i);
    } else {
      assert solution[i] == c;
    }
  }

  lemma BestOfMonotone(smaller: set<CharStatus>, larger: set<CharStatus>)
    requires smaller <= larger
    ensures Rank(BestOf(smaller)) <= Rank(BestOf(larger))
  {
  }

  /** Submitting another guess never downgrades a key. */
  lemma KeyNeverDowngrades(guesses: seq<string>, solution: string, guess: string, c: char)
    ensures Rank(KeyStatus(guesses, solution, c)) <= Rank(KeyStatus(guesses + [guess], solution, c))
  {
    assert Received(guesses, solution, c) <= Received(guesses + [guess], solution, c) by {
      forall s | s in Received(guesses, solution, c) ensures s in Received(guesses + [guess], solution, c) {
        var g, i :| g in guesses && 0 <= i < |g| && g[i] == c && s == Score(g, solution)[i];
        assert g in guesses + [guess];
      }
    }
    BestOfMonotone(Received(guesses, solution, c), Received(guesses + [guess], solution, c));
  }

  /** The colours do not depend on the order in which the guesses were made. */
  lemma KeyOrderIndependent(guesses: seq<string>, reordered: seq<string>, solution: string, c: char)
    requires multiset(guesses) == multiset(reordered)
    ensures KeyStatus(guesses, solution, c) == KeyStatus(reordered, solution, c)
  {
    forall g ensures g in guesses <==> g in reordered {
      assert g in guesses <==> g in multiset(guesses);
      assert g in reordered <==> g in multiset(reordered);
    }
    assert Received(guesses, solution, c) == Received(reordered, solution, c);
  }
}
