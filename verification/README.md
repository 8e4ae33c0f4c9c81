# rednerds core in Dafny

This project models the core of rednerds, a daily Nerdle-style game. The player guesses an
eight-character arithmetic equation in at most six tries. The Dafny model covers these parts:

- **Validator.** `isValidEquation` runs its structural checks in a fixed order, each with its
  own message, then an arithmetic check. It is modelled in `nerdle_logic.dfy`.
- **Scorer.** `checkGuess` marks positions CORRECT, PRESENT or ABSENT and respects how many
  times each character occurs. It is modelled in `scoring.dfy`.
- **Daily puzzle.** The date is hashed with a 32-bit string hash to pick the day's equation.
  It is modelled in `nerdle_logic.dfy`.
- **Game.** The `useNerdle` state machine handles character, delete and enter. It is the class
  `NerdleGame.Game` in `use_nerdle.dfy`.
- **Keyboard.** Each key shows the best colour its character has received. It is modelled in
  `keyboard.dfy`.
- **Leaderboard.** The layout shows the top three entries, a window around the player and a
  gap marker, and prints times as `m:ss`. It is modelled in `leaderboard.dfy`.
- **Generator.** The offline tool builds the equation list. It is modelled in
  `generate_equations.dfy`.

`text.dfy` and `numerals.dfy` hold the JavaScript string operations the core relies on:
`split` on one character or a character class, `String(n)`, and the leading-digit reading of
`parseInt`.

Main results:

- `IsValidEquation` accepts exactly the equations that have:
  - eight characters;
  - one `=` with a well-formed expression on each side;
  - an exact left-hand value equal to the number the right-hand side starts with.
- `CheckGuess` computes a declarative specification `Score`. Each character is credited
  (CORRECT or PRESENT) `min(count in guess, count in solution)` times.
- Once a solution is set, the game's status is always the one its guesses imply. `OnEnter`
  adds only accepted equations to the guesses. The constructor and `Reload` restore saved
  guesses as stored, without validating them, as the hook does.
- The keyboard colours are the best status per character:
  - they do not depend on the order of the guesses;
  - they never drop when a guess is added.
- The leaderboard window:
  - never repeats an entry;
  - shows the player's own row, in the top block or the window, for any rank from 1 to the
    number of listed entries;
  - for a rank past the end of the list shows only the list's tail, or no window once the rank is
    three or more places past the end. The server lists only the first 100 entries but ranks
    every player, so this case does occur;
  - shows the gap marker exactly when rows are skipped.
- Every equation the generator emits is accepted by the game's validator. Its leading-zero
  filter never rejects a candidate.
- The generator's own evaluation agrees with the game's wherever it gives a value. It skips some
  equations the game accepts: `10/4*2=5` is never listed.

Where the code differs from what it evidently expects, the model follows the code:

- **Right-hand side.** `isValidEquation` reads the right-hand side with `parseInt`, which stops
  at the first operator. So `12=12+34` is accepted (`NerdleLogic.RightSideReadToFirstOperator`).
- **Division by zero.** JavaScript produces Infinity or NaN, which fails `Number.isInteger`. The
  model gives no value, which leads to the same message, "Result must be an integer".

## Model

| member | source | states |
|---|---|---|
| Text.Split | src/shared/nerdle-logic.ts:41 | `split` yields one more piece than there are separators, and no piece contains a separator |
| Text.JoinSplit | src/shared/nerdle-logic.ts:53 | the pieces and the separators rebuild the original string |
| Text.SplitJoin | tools/generate_equations.js:96 | splitting a join of separator-free pieces gives back the pieces and the separators |
| Numerals.NatToString | src/shared/nerdle-logic.ts:13 | `String(n)` is non-empty, all digits, with no leading zero |
| Numerals.NatToStringValue | src/shared/nerdle-logic.ts:13 | reading a printed number back gives the number |
| Numerals.LeadingDigits | src/shared/nerdle-logic.ts:69 | the longest digit prefix: all digits, a prefix, followed by a non-digit or the end |
| Numerals.ParseInt | src/shared/nerdle-logic.ts:69 | `parseInt(rhs, 10)` is NaN exactly when the text is empty or starts with a non-digit |
| NerdleLogic.TokenError | src/shared/nerdle-logic.ts:53-62 | the token loop passes exactly when every token is non-empty without a leading zero; otherwise it returns one of its two messages |
| NerdleLogic.TokenErrorIsFirstBad | src/shared/nerdle-logic.ts:54-61 | the first failing token decides the message; a leading zero is tested before emptiness |
| NerdleLogic.Apply | src/shared/nerdle-logic.ts:68 | one operator on exact values; it has no value exactly for a division by zero |
| NerdleLogic.EvalTerm | src/shared/nerdle-logic.ts:68 | a run of `*` and `/` evaluated left to right has no value exactly when some divisor literal is zero |
| NerdleLogic.Eval | src/shared/nerdle-logic.ts:68 | an expression over `+ - * /` has no value exactly when some divisor literal is zero |
| NerdleLogic.EvalLhs | src/shared/nerdle-logic.ts:68 | a left side without operators is worth its number; the left side has no finite value exactly when one of its divisor literals is zero |
| NerdleLogic.IsInteger | src/shared/nerdle-logic.ts:71 | a value that fails `Number.isInteger` lies strictly between two consecutive integers |
| NerdleLogic.MatchesEquationChars | src/shared/nerdle-logic.ts:37 | `/^[0-9+\-*/=]+$/` matches exactly the non-empty strings made only of digits and `+ - * / =` |
| NerdleLogic.IsValidEquation | src/shared/nerdle-logic.ts:32-83 | every rejection carries one of the validator's messages |
| NerdleLogic.ValidIsAcceptable | src/shared/nerdle-logic.ts:32-83 | an accepted equation has eight characters and one `=`, an expression on each side, and a left value equal to the right side's leading number |
| NerdleLogic.AcceptableIsValid | src/shared/nerdle-logic.ts:32-83 | every such equation passes all the checks |
| NerdleLogic.ValidIffAcceptable | src/shared/nerdle-logic.ts:32-83 | both directions together |
| NerdleLogic.RejectionMessages | src/shared/nerdle-logic.ts:33-49 | wrong length, bad characters, a number of `=` other than one, and an empty side each get their own message, in that order |
| NerdleLogic.TokenRejection | src/shared/nerdle-logic.ts:53-62 | once the structure is sound, the first bad token's message is returned |
| NerdleLogic.ArithmeticRejection | src/shared/nerdle-logic.ts:64-77 | a non-integer or undefined left value gives "Result must be an integer"; a wrong integer gives "Equation does not compute" |
| NerdleLogic.RightSideReadToFirstOperator | src/shared/nerdle-logic.ts:69-75 | `12=12+34` is accepted because only the right side's leading number is compared |
| NerdleLogic.ToInt32 | src/shared/nerdle-logic.ts:17 | `hash \|= 0` gives a signed 32-bit value congruent to its input modulo 2^32 |
| NerdleLogic.ShiftUpdateIsHashStep | src/shared/nerdle-logic.ts:16-17 | `((hash << 5) - hash) + code` followed by `\|= 0` is `31 * hash + code` wrapped to 32 bits |
| NerdleLogic.HashStep | src/shared/nerdle-logic.ts:16-17 | one hash round gives a signed 32-bit value congruent to `31 * hash + code` modulo 2^32 |
| NerdleLogic.DateString | src/shared/nerdle-logic.ts:13 | the date string splits at `-` into three numerals without leading zeros, worth the year, the 1-based month and the day |
| NerdleLogic.StringHash | src/shared/nerdle-logic.ts:14-18 | the hash is a signed 32-bit value |
| NerdleLogic.GetDailyIndex | src/shared/nerdle-logic.ts:8-21 | the index is `abs(hash(date string)) mod count`, below `count`; it is NaN exactly when there are no equations |
| NerdleLogic.GetEquationByIndex | src/shared/nerdle-logic.ts:23-25 | an in-range index selects its entry; otherwise the first entry, or the built-in equation when the list is empty |
| NerdleLogic.GetDailyEquation | src/shared/nerdle-logic.ts:27-30 | the equation of the day is the list entry at the daily index, or the built-in equation for an empty list |
| Scoring.Score | src/shared/nerdle-logic.ts:85-119 | every position gets a status, never EMPTY, and it is CORRECT exactly when it matches the solution there |
| Scoring.ScoreOfSolution | src/shared/nerdle-logic.ts:97-104 | guessing the solution makes every position CORRECT |
| Scoring.PresentOnlyIfInSolution | src/shared/nerdle-logic.ts:108-115 | PRESENT goes only to an unmatched position whose character occurs in the solution |
| Scoring.AbsentStaysAbsent | src/shared/nerdle-logic.ts:108-115 | once an unmatched occurrence of a character is ABSENT, every later one is too |
| Scoring.CreditedCount | src/shared/nerdle-logic.ts:85-119 | each character is credited CORRECT or PRESENT `min(occurrences in solution, occurrences in guess)` times |
| Scoring.CountChars | src/shared/nerdle-logic.ts:89-94 | the frequency table holds each character's number of occurrences in the solution |
| Scoring.MarkExactMatches | src/shared/nerdle-logic.ts:96-105 | the first pass marks exactly the exact matches CORRECT and leaves each count at occurrences minus exact matches |
| Scoring.MarkMisplaced | src/shared/nerdle-logic.ts:107-116 | the second pass gives every position its specified status |
| Scoring.CheckGuess | src/shared/nerdle-logic.ts:85-119 | the two-pass algorithm returns exactly the specified score |
| NerdleGame.DeriveStatus | src/client/hooks/useNerdle.ts:31-44 | the game is won exactly when the solution was guessed, and still playing exactly when it was not and fewer than six guesses were made |
| NerdleGame.Game.constructor | src/client/hooks/useNerdle.ts:17-47 | the saved guesses for this solution are restored, or none, with their status and an empty pending guess |
| NerdleGame.Game.Reload | src/client/hooks/useNerdle.ts:54-86 | the new solution is installed; while it is empty nothing else changes; otherwise the saved guesses (or none) come back with their status, and the pending guess and error are cleared |
| NerdleGame.Game.OnChar | src/client/hooks/useNerdle.ts:100-108 | while playing, a character is appended if fewer than eight are pending; nothing else changes, the solution included |
| NerdleGame.Game.OnDelete | src/client/hooks/useNerdle.ts:110-114 | while playing, the last pending character is dropped and the error cleared; the guesses, status and solution stay |
| NerdleGame.Game.OnEnter | src/client/hooks/useNerdle.ts:116-143 | a short guess and an invalid equation only set their messages; a valid one is appended, the game is won when it equals the solution and otherwise lost on the sixth guess, and at most six guesses are ever reached; only accepted equations are added; the solution never changes |
| NerdleGame.FinishedGameIgnoresInput | src/client/hooks/useNerdle.ts:102-117 | once won or lost, no handler changes any field of the game |
| NerdleGame.TypeGuess | src/client/hooks/useNerdle.ts:100-108 | typing up to eight characters into an empty pending guess while playing makes them the pending guess and changes nothing else |
| NerdleGame.EnterSolution | src/client/hooks/useNerdle.ts:100-143 | typing a valid solution into an empty pending guess and pressing enter wins the game and appends the solution to the guesses |
| Keyboard.BestOf | src/client/components/Keyboard.tsx:32-38 | the best status is in the set and ranks at least as high as every real status in it |
| Keyboard.Lookup | src/client/components/Keyboard.tsx:47 | a key without an entry shows EMPTY |
| Keyboard.UpgradeIsBest | src/client/components/Keyboard.tsx:32-38 | one upgrade step yields the best of the old entry and the new status |
| Keyboard.Upgrade | src/client/components/Keyboard.tsx:29-38 | one character's callback leaves every other entry alone and sets its own entry to the higher-ranked of the old colour and the new status, never to EMPTY |
| Keyboard.RecordGuess | src/client/components/Keyboard.tsx:26-39 | after one guess the table holds the best status each character received so far |
| Keyboard.KeyStatuses | src/client/components/Keyboard.tsx:21-40 | the table gives each key the best status its character received over all guesses, and stores no EMPTY entry |
| Keyboard.KeyCorrectIff | src/client/components/Keyboard.tsx:32-33 | a key is CORRECT exactly when some guess placed its character where the solution has it |
| Keyboard.KeyEmptyIff | src/client/components/Keyboard.tsx:28-47 | a key stays EMPTY exactly when no guess contains its character |
| Keyboard.KeyMarkedOnlyIfInSolution | src/client/components/Keyboard.tsx:32-35 | a CORRECT or PRESENT key's character occurs in the solution |
| Keyboard.KeyNeverDowngrades | src/client/components/Keyboard.tsx:34-38 | another guess never lowers a key's colour |
| Keyboard.KeyOrderIndependent | src/client/components/Keyboard.tsx:24-40 | reordering the guesses leaves every colour unchanged |
| Leaderboard.Slice | src/client/components/Leaderboard.tsx:84-92 | `slice` of an in-range window is that window, and empty when the end is not after the start |
| Leaderboard.EffectiveRank | src/client/components/Leaderboard.tsx:80 | `userRank \|\| 0` is 0 exactly for a missing rank or a rank of 0, and any other rank is kept |
| Leaderboard.Arrange | src/client/components/Leaderboard.tsx:78-93 | the top block is the first `min(3, total)` entries; the gap shows exactly when the rank exceeds 6; a rank of 3 or less (or none) has no context; the context never exceeds five entries |
| Leaderboard.ContextIsWindow | src/client/components/Leaderboard.tsx:88-93 | the context is the run from `max(3, rank-3)` to `min(total, rank+2)` and starts after the top block |
| Leaderboard.ContextHoldsPlayer | src/client/components/Leaderboard.tsx:89-93 | a player ranked 4 to total sees their own row and every neighbour within two places outside the top block |
| Leaderboard.ListedPlayerShown | src/client/components/Leaderboard.tsx:84-93 | a player ranked from 1 to the number of entries sees their own row, in the top block for ranks up to 3 and in the context block below |
| Leaderboard.RankPastListShowsTail | src/client/components/Leaderboard.tsx:88-93 | a rank past the end of the list gets only the entries from the window start to the end, and an empty context once it is three or more places past the end |
| Leaderboard.GapMarksSkippedEntries | src/client/components/Leaderboard.tsx:85-93 | the gap marker shows exactly when the context starts after the top block; without it the two blocks list a prefix |
| Leaderboard.FindIndex | src/client/components/Leaderboard.tsx:176 | `findIndex` gives the first index with the name, or -1 when there is none |
| Leaderboard.ShownRanks | src/client/components/Leaderboard.tsx:96-178 | one rank per listed row |
| Leaderboard.ShownRanksArePositions | src/client/components/Leaderboard.tsx:96-178 | with distinct names, every shown rank is the row's position plus one, so the ranks strictly increase |
| Leaderboard.SecondsRemainder | src/client/components/Leaderboard.tsx:42 | JavaScript `%` by 60 takes the dividend's sign and differs from it by a multiple of 60 |
| Leaderboard.PadStart2 | src/client/components/Leaderboard.tsx:43 | `padStart(2, '0')` puts zeros in front up to length two |
| Leaderboard.FormatTime | src/client/components/Leaderboard.tsx:40-44 | a non-negative time ends in a colon and two digits worth its seconds below 60, and reads back as the same number of seconds |
| Leaderboard.TimeTextShape | src/client/components/Leaderboard.tsx:41-43 | a non-negative time prints as its minutes, a colon and exactly two digits of seconds below 60 |
| Leaderboard.TimeTextRoundTrip | src/client/components/Leaderboard.tsx:41-43 | a printed non-negative time reads back as the same number of seconds |
| GenerateEquations.Calc | tools/generate_equations.js:54-60 | `+ - *` always give a value; `/` gives one exactly when the divisor is non-zero and divides the dividend, and it is the exact quotient |
| GenerateEquations.ExactDivision | tools/generate_equations.js:58 | the divisibility test matches an integer quotient, and the integer quotient is then the exact one |
| GenerateEquations.CalcIsIntegerApply | tools/generate_equations.js:54-60 | `calc` is the game's arithmetic restricted to integer results |
| GenerateEquations.Precedence | tools/generate_equations.js:62-77 | whenever the dispatch gives a value, both operators are real operators and the value is what the game's evaluator gives `a op1 b op2 c` |
| GenerateEquations.CalcStepsAgreeWithEval | tools/generate_equations.js:62-77 | each order of two defined `calc` steps computes the game's value of `a op1 b op2 c` |
| GenerateEquations.InexactFirstStepSkipped | tools/generate_equations.js:72-76 | `10/4*2`, worth 5, is skipped because its first division is inexact |
| GenerateEquations.InexactCandidateAccepted | src/shared/nerdle-logic.ts:64-82 | the game accepts `10/4*2=5` |
| GenerateEquations.InexactCandidateNotListed | tools/generate_equations.js:72-82 | `10/4*2=5` is never in the generated list |
| GenerateEquations.SkippedNotListed | tools/generate_equations.js:62-84 | a formula whose evaluation the dispatch skips is never in the list, whatever result it prints |
| GenerateEquations.FormulaDeterminesOperands | tools/generate_equations.js:80 | two candidate texts are equal only when their numbers and operators are |
| GenerateEquations.Printed | tools/generate_equations.js:25 | every printed operand is a canonical numeral |
| GenerateEquations.FormulaIsValid | tools/generate_equations.js:95-101 | `isValid` holds for every formula built from printed numbers |
| GenerateEquations.IsValid | tools/generate_equations.js:95-101 | `isValid` holds exactly when every `0` that begins a number is followed by a separator or the end |
| GenerateEquations.Single | tools/generate_equations.js:15-28 | a one-operator candidate is kept exactly when it is defined, non-negative and eight characters long, and what is kept is the printed `a op b=res` |
| GenerateEquations.Double | tools/generate_equations.js:42-84 | a two-operator candidate is kept exactly when the dispatch gives a non-negative result and the text is eight characters long, and what is kept is the printed `a op1 b op2 c=res` |
| GenerateEquations.FormulaAccepted | tools/generate_equations.js:25-27 | an eight-character formula whose left side evaluates to its printed result passes the game's validator |
| GenerateEquations.SingleAccepted | tools/generate_equations.js:12-31 | every kept `a op b=res` is accepted by the game |
| GenerateEquations.DoubleAccepted | tools/generate_equations.js:37-89 | every kept `a op1 b op2 c=res` is accepted by the game |
| GenerateEquations.GeneratedAccepted | tools/generate_equations.js:12-89 | every generated equation is accepted by the game |
| GenerateEquations.Insert | tools/generate_equations.js:27 | `eqs.add` keeps the earlier order, adds the element once, and keeps the elements distinct |
| GenerateEquations.AddSingles | tools/generate_equations.js:12-31 | the one-operator loops add exactly the kept `a op b=res` candidates, with no repeats |
| GenerateEquations.AddDoublesAt | tools/generate_equations.js:40-85 | the operator loops of one `(a, b, c)` add exactly its kept candidates |
| GenerateEquations.AddDoublesWith | tools/generate_equations.js:41-85 | the inner operator loop for one `(a, b, c)` and first operator adds exactly its kept candidates |
| GenerateEquations.AddDoubles | tools/generate_equations.js:37-89 | the two-operator loops add exactly the kept `a op1 b op2 c=res` candidates, with no repeats |
| GenerateEquations.Generate | tools/generate_equations.js:2-93 | the list holds every candidate of both kinds exactly once, and each is an equation the game accepts |

## Left out

- The `catch` branch of `isValidEquation` (src/shared/nerdle-logic.ts:78-80) is never modelled as a path. After the token check the left side is always `num (op num)*`, so evaluating it cannot throw.
- Floating-point rounding of the left side is not reproduced (for example `1/3*3`). Values are exact rationals.
- The left-hand side is evaluated with exact rational arithmetic under the usual precedence, in place of JavaScript `Function` evaluation. This covers only the grammar the token check admits, numbers joined by `+ - * /`.
- Whitespace and sign handling in `parseInt` are left out. The token check already rejects a right side that starts with anything but a digit.
- `getDailyIndex` reading the UTC date from a `Date` is left out. The model takes the year, the 0-based month and the day as integers. `charCodeAt` is the character's code, and the date string is ASCII.
- The `EQUATIONS` table (src/shared/equations) is not part of this model. It is a parameter.
- Browser storage is left out, including reading and writing `localStorage`, the storage key, `loadedKey` and the persistence effect (src/client/hooks/useNerdle.ts:14, 49-51, 88-98). The saved record is a parameter of the constructor and of `Reload`.
- The shake flag and its timers (src/client/hooks/useNerdle.ts:46, 121-122, 129-130) are left out. They are presentation only.
- NerdleGame.Game.Reload: a change of the `solution` prop and the load effect that follows it are one step. A handler that runs after the render with the new solution but before the effect is not modelled.
- NerdleGame.Game.OnChar takes one character. The hook accepts any string, but the keyboard only ever passes one key.
- React's closure semantics are left out. Each handler reads the current state, which is what a handler created at the last render sees.
- The keyboard's key layout and click dispatch (src/client/components/Keyboard.tsx:14-18, 42-60) are left out. They are rendering only.
- The leaderboard's data fetch, date formatting, avatars, highlighting of the current user and the streak badge are left out. They are I/O and presentation.
- `formatTime` takes whole seconds. Fractional seconds are not modelled.
- The server side that fills the leaderboard (the top-100 query and the rank lookup) is not part of this model. `entries` and `userRank` are parameters, so a rank past the end of the list is allowed.
- `userRank` is an optional integer. A NaN rank, which `|| 0` would also turn into 0, is not modelled.
- GenerateEquations.Generate does not state the full order of the list. It states which equations the list holds and that none repeats, and `Insert` keeps earlier elements in place. The printing of the list as JSON is left out.
- String lengths are counted in characters, not UTF-16 code units. Every string the core handles is ASCII.
