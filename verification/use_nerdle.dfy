/** The in-memory game of src/client/hooks/useNerdle.ts: the solution it is
    played against, the pending guess, the submitted guesses, the status and
    the error message, changed by the three input handlers and by the load
    effect. Browser storage is reduced to the saved record the game is
    started or reloaded from. */
module NerdleGame {
  import opened Wrappers
  import opened NerdleLogic

  datatype GameStatus = Playing | Won | Lost

  const MaxGuesses: nat := 6

  const MsgNotEnough := "Not enough characters"
  /** Shown when the validator rejects without a message. */
  const MsgInvalidEquation := "Invalid equation"

  /** The record kept under the storage key: `{ solution, guesses }`. */
  datatype SavedState = SavedState(solution: string, guesses: seq<string>)

  /** The status a list of guesses stands for: won once the solution was
      guessed, lost after six guesses without it, playing otherwise. */
  function DeriveStatus(solution: string, guesses: seq<string>): (s: GameStatus)
    ensures s == Playing <==> solution !in guesses && |guesses| < MaxGuesses
    ensures s == Won <==> solution in guesses
  {
    if solution in guesses then Won
    else if |guesses| >= MaxGuesses then Lost
    else Playing
  }

  /** The guesses restored for `solution`: the saved ones if they were saved
      for the same solution, none otherwise. */
  function RestoredGuesses(solution: string, saved: Option<SavedState>): seq<string>
  {
    if saved.Some? && saved.value.solution == solution then saved.value.guesses else []
  }

  class Game {
    /** The `solution` prop; the screen hosting the game starts it empty and
        sets it once the day's equation has been fetched. */
    var solution: string
    var guesses: seq<string>
    var currentGuess: string
    var status: GameStatus
    var errorMessage: Option<string>

    /** The pending guess never exceeds the equation length, a game still
        being played has fewer than six guesses, and once a solution is set
        the status is always the one the guesses stand for, so reloading the
        saved guesses restores the same status. While the solution is empty
        the state is whatever the previous solution left. */
    ghost predicate Valid()
      reads this
    {
      && |currentGuess| <= EquationLength
      && (status == Playing ==> |guesses| < MaxGuesses)
      && (solution != [] ==> status == DeriveStatus(solution, guesses))
    }

    /** The initial state: the saved guesses for this solution, if any, with
        their status. */
    constructor (solution: string, saved: Option<SavedState>)
      ensures Valid()
      ensures this.solution == solution
      ensures guesses == RestoredGuesses(solution, saved)
      ensures status == DeriveStatus(solution, guesses)
      ensures currentGuess == [] && errorMessage == None
    {
      this.solution := solution;
      guesses := RestoredGuesses(solution, saved);
      status := DeriveStatus(solution, RestoredGuesses(solution, saved));
      currentGuess := [];
      errorMessage := None;
    }

    /** A new `solution` prop (or storage key) followed by the load effect:
        while the solution is empty the effect returns at once and the rest
        of the state stays as it was; otherwise the saved guesses for this
        solution come back with their status, or a fresh game starts. */
    method Reload(solution: string, saved: Option<SavedState>)
      requires Valid()
      modifies this
      ensures Valid()
      ensures this.solution == solution
      ensures solution == [] ==>
                && guesses == old(guesses) && currentGuess == old(currentGuess)
                && status == old(status) && errorMessage == old(errorMessage)
      ensures solution != [] ==>
                && guesses == RestoredGuesses(solution, saved) && status == DeriveStatus(solution, guesses)
                && currentGuess == [] && errorMessage == None
    {
      this.solution := solution;
      if solution == [] {
        return;
      }
      if saved.Some? && saved.value.solution == solution {
        guesses := saved.value.guesses;
        if solution in saved.value.guesses {
          status := Won;
        } else if |saved.value.guesses| >= MaxGuesses {
          status := Lost;
        } else {
          status := Playing;
        }
        currentGuess := [];
        errorMessage := None;
        return;
      }
      guesses := [];
      status := Playing;
      currentGuess := [];
      errorMessage := None;
    }

    /** A character key: appended while playing and while fewer than eight
        characters are pending; ignored otherwise. */
    method OnChar(c: char)
      requires Valid()
      modifies this
      ensures Valid()
      ensures old(status) != Playing || |old(currentGuess)| >= EquationLength ==> unchanged(this)
      ensures old(status) == Playing && |old(currentGuess)| < EquationLength ==>
                currentGuess == old(currentGuess) + [c]
      ensures guesses == old(guesses) && status == old(status) && errorMessage == old(errorMessage)
      ensures solution == old(solution)
    {
      if status != Playing {
        return;
      }
      if |currentGuess| < EquationLength {
        currentGuess := currentGuess + [c];
      }
    }

    /** The delete key: while playing, drops the last pending character (if
        any) and clears the error message. */
    method OnDelete()
      requires Valid()
      modifies this
      ensures Valid()
      ensures old(status) != Playing ==> unchanged(this)
      ensures old(status) == Playing ==>
                && currentGuess == (if old(currentGuess) == [] then [] else old(currentGuess)[..|old(currentGuess)| - 1])
                && errorMessage == None
      ensures guesses == old(guesses) && status == old(status)
      ensures solution == old(solution)
    {
      if status != Playing {
        return;
      }
      currentGuess := if currentGuess == [] then [] else currentGuess[..|currentGuess| - 1];
      errorMessage := None;
    }

    /** The enter key. While playing: a short guess only sets "Not enough
        characters"; an invalid equation only sets the validator's message;
        a valid one is appended to the guesses, the pending guess is cleared,
        and the game is won if it is the solution, else lost if it was the
        sixth guess. */
    method OnEnter()
      requires Valid()
      modifies this
      ensures Valid()
      ensures old(status) != Playing ==> unchanged(this)
      ensures old(status) == Playing && |old(currentGuess)| != EquationLength ==>
                && errorMessage == Some(MsgNotEnough)
                && guesses == old(guesses) && currentGuess == old(currentGuess) && status == old(status)
      ensures old(status) == Playing && |old(currentGuess)| == EquationLength
              && IsValidEquation(old(currentGuess)).Invalid? ==>
                && errorMessage == Some(if IsValidEquation(old(currentGuess)).message == ""
                                        then MsgInvalidEquation
                                        else IsValidEquation(old(currentGuess)).message)
                && guesses == old(guesses) && currentGuess == old(currentGuess) && status == old(status)
      ensures old(status) == Playing && |old(currentGuess)| == EquationLength
              && IsValidEquation(old(currentGuess)).Valid? ==>
                && guesses == old(guesses) + [old(currentGuess)]
                && currentGuess == []
                && errorMessage == old(errorMessage)
                && status == (if old(currentGuess) == old(solution) then Won
                              else if |old(guesses)| + 1 >= MaxGuesses then Lost
                              else Playing)
      ensures guesses == old(guesses) || |guesses| <= MaxGuesses
      ensures forall g :: g in guesses && g !in old(guesses) ==> Acceptable(g)
      ensures solution == old(solution)
    {
      if status != Playing {
        return;
      }
      if |currentGuess| != EquationLength {
        errorMessage := Some(MsgNotEnough);
        return;
      }
      var verdict := IsValidEquation(currentGuess);
      if verdict.Invalid? {
        errorMessage := Some(if verdict.message == "" then MsgInvalidEquation else verdict.message);
        return;
      }
      ValidIffAcceptable(currentGuess);
      var count := |guesses|;
      guesses := guesses + [currentGuess];
      if currentGuess == solution {
        status := Won;
      } else if count + 1 >= MaxGuesses {
        status := Lost;
      }
      currentGuess := [];
    }
  }

  /** Every handler leaves a finished game exactly as it is. */
  method FinishedGameIgnoresInput(game: Game, c: char)
    requires game.Valid() && game.status != Playing
    modifies game
    ensures game.Valid()
    ensures game.guesses == old(game.guesses) && game.currentGuess == old(game.currentGuess)
    ensures game.status == old(game.status) && game.errorMessage == old(game.errorMessage)
    ensures game.solution == old(game.solution)
    ensures unchanged(game)
  {
    game.OnChar(c);
    game.OnDelete();
    game.OnEnter();
  }

  /** Typing the solution into an empty pending guess and pressing enter
      wins a game still being played: each character is appended, the
      solution passes the validator, and the new guess is the solution. */
  method EnterSolution(game: Game)
    requires game.Valid() && game.status == Playing && game.currentGuess == []
    requires IsValidEquation(game.solution).Valid?
    modifies game
    ensures game.Valid()
    ensures game.status == Won
    ensures game.guesses == old(game.guesses) + [game.solution]
    ensures game.solution == old(game.solution) && game.currentGuess == []
  {
    RejectionMessages(game.solution);
    TypeGuess(game, game.solution);
    game.OnEnter();
  }

  /** Typing `text` (at most eight characters) into an empty pending guess
      of a game still being played makes it the pending guess and changes
      nothing else. */
  method TypeGuess(game: Game, text: string)
    requires game.Valid() && game.status == Playing && game.currentGuess == []
    requires |text| <= EquationLength
    modifies game
    ensures game.Valid() && game.status == Playing && game.currentGuess == text
    ensures game.solution == old(game.solution) && game.guesses == old(game.guesses)
    ensures game.errorMessage == old(game.errorMessage)
  {
    for k := 0 to |text|
      invariant game.Valid() && game.status == Playing && game.currentGuess == text[..k]
      invariant game.solution == old(game.solution) && game.guesses == old(game.guesses)
      invariant game.errorMessage == old(game.errorMessage)
    {
      game.OnChar(text[k]);
      assert text[..k + 1] == text[..k] + [text[k]];
    }
    assert text[..|text|] == text;
  }
}
