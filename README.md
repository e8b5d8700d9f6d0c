# Wordle: scoring and game state, modelled in Dafny

This project models the logic of a single-player Wordle component
(`src/components/Wordle.tsx`). A hidden five-letter target is fixed when the
game starts. The player types up to six five-letter guesses. Each guess is
lower-cased, written into the next row of a 6x5 letter grid, and scored into
the same row of a 6x5 result grid. A correct guess shows the win message.
A sixth wrong guess shows the loss message.

Modules, one per part of the component:

- `Scoring` (`scoring.dfy`): the per-letter classification. `Score` is the
  specification of one row. `ScoreRow` is the source's loop that fills a
  fresh row array, proved equal to `Score`. The lemmas state what a cell
  means: green exactly when the letters match at that position; yellow
  exactly when they differ and the guess letter occurs anywhere in the
  target; red exactly when it does not occur in the target at all.
- `Casing` (`casing.dfy`): `toLowerCase` applied to the typed word.
- `Session` (`session.dfy`): the game state as a value, with the turn
  (`CheckGuess`), the guarded submission (`Submit`) and a run of
  submissions (`Run`). It also holds `Consistent`, the invariant of every
  game played through `Submit`, and the lemmas about whole games.
- `Wordle` (`game.dfy`): the class `Game`. The two grids are `array`
  fields whose rows are replaced, and the counter and message are mutable
  fields. Each method's `ensures` ties the new fields, read through
  `Model()`, to the `Session` function for the same step.

The usual rule of the game counts and consumes occurrences of each target
letter; this code does not. Its yellow test is `includes` on the whole
target, so target `apple` and guess `ppppp` score yellow, green, green,
yellow, yellow: five non-red cells for a letter the target holds twice
(`Scoring.ApplePppppExample`). The model reproduces the code's rule.

Other points of the component's behaviour that the model keeps:

- a rejected submission (wrong length, or typed while the input is
  disabled) produces no error; it is silently ignored;
- the turn function itself (`checkGuess`) checks only the row counter,
  not the message; the disabled input is what stops play after a win, so
  `Consistent` is preserved by `Submit`, not by `CheckGuess` alone;
- the component has no query for the attempts left; the target is shown
  only inside the loss message, whose text is not modelled.

The target is never lower-cased. A target holding an upper-case letter,
such as the list's `ЗАЧЕТ`, can never be won, and its upper-case positions
are never green (`Session.UpperCaseTargetNeverWon`,
`Session.UpperCaseTargetLetterNeverGreen`).

## Model

| member | source | states |
|---|---|---|
| `Scoring.Score` | src/components/Wordle.tsx:90-100 | a scored row has exactly five cells and none of them is left `null` (`Unscored`) |
| `Scoring.ScoreRow` | src/components/Wordle.tsx:90-100 | the loop that fills a fresh row of `null` cells while walking the target returns exactly `Score(target, guess)` |
| `Scoring.ScoreGreenIff` | src/components/Wordle.tsx:93-94 | cell i is green if and only if `guess[i] == target[i]` |
| `Scoring.ScoreYellowIff` | src/components/Wordle.tsx:95-96 | cell i is yellow if and only if `guess[i] != target[i]` and `guess[i]` occurs somewhere in the target |
| `Scoring.ScoreRedIff` | src/components/Wordle.tsx:97-98 | cell i is red if and only if `guess[i]` occurs nowhere in the target |
| `Scoring.ScoreLocal` | src/components/Wordle.tsx:92-100 | two guesses that agree at position i get the same cell i, whatever their other letters |
| `Scoring.ScoreAllGreenIff` | src/components/Wordle.tsx:92-94 | the row is all green if and only if the guess equals the target |
| `Scoring.RepeatedLetterNeverRed` | src/components/Wordle.tsx:95-96 | a guess repeating a target letter five times has no red cell and five non-red cells, however often the target holds the letter |
| `Scoring.ApplePppppExample` | src/components/Wordle.tsx:92-100 | target `apple`, guess `ppppp` scores yellow, green, green, yellow, yellow: 5 non-red cells against 2 occurrences |
| `Scoring.NoSharedLetterExample` | src/components/Wordle.tsx:97-98 | target `apple`, guess `zzzzz` scores five red cells |
| `Casing.Lower` | src/components/Wordle.tsx:123 | the result is never an upper-case letter, and a character is changed exactly when it is upper case |
| `Casing.LowerWord` | src/components/Wordle.tsx:123 | lower-casing keeps the length, leaves no upper-case letter, and leaves an already lower-case word unchanged |
| `Casing.LowerWordIdempotent` | src/components/Wordle.tsx:123 | lower-casing twice is the same as lower-casing once |
| `Session.WordOfLetters` | src/components/Wordle.tsx:85 | splitting a guess into letters and reading the row back gives the guess |
| `Session.Initial` | src/components/Wordle.tsx:71-79 | a new game has the given target, every row of the letter grid blank and of the result grid unscored (`null`), counter 0 and no message |
| `Session.CheckGuess` | src/components/Wordle.tsx:81-114 | a turn keeps the target and the 6x5 shape of the grids and keeps the counter within 0..6 |
| `Session.Submit` | src/components/Wordle.tsx:122-125 | a submission keeps the target and the shape of the state |
| `Session.CheckGuessWhenFull` | src/components/Wordle.tsx:82 | with six rows played, a turn changes nothing: grids, counter and message stay as they were |
| `Session.CheckGuessWritesCurrentRow` | src/components/Wordle.tsx:87-113 | otherwise only row `currentAttempt` of each grid is overwritten, with the guess letters and `Score(target, guess)`; every other row is unchanged; the counter grows by exactly one |
| `Session.CheckGuessMessage` | src/components/Wordle.tsx:107-111 | a correct guess sets the win message, even on the sixth row; a wrong sixth guess sets the loss message; any other wrong guess keeps the message |
| `Session.CheckGuessCorrectAllGreen` | src/components/Wordle.tsx:92-94 | a correct guess fills its row of results with green |
| `Session.SubmitWrongLength` | src/components/Wordle.tsx:38-43 | a typed word whose length is not five changes nothing |
| `Session.SubmitWhenOver` | src/components/Wordle.tsx:124 | once six rows are played or a message is shown, a submission changes nothing |
| `Session.OverIffSubmitIgnored` | src/components/Wordle.tsx:122-125 | for a five-character word, the input is disabled if and only if submitting the word leaves the state unchanged |
| `Session.OverIffMessage` | src/components/Wordle.tsx:107-111 | in a consistent game the input is disabled if and only if a message is shown: the sixth row always brings the win or the loss message |
| `Session.RunWhenOver` | src/components/Wordle.tsx:122-125 | once the game is over, any sequence of further submissions leaves the whole state, history included, unchanged |
| `Session.InitialConsistent` | src/components/Wordle.tsx:74-79 | a new game satisfies the game invariant `Consistent` |
| `Session.SubmitPreservesConsistent` | src/components/Wordle.tsx:81-124 | a submission preserves `Consistent`: played rows hold lower-case words and their scores, unplayed rows stay blank, no word before the last equals the target, and the message agrees with the last word and the counter |
| `Session.RunPreservesConsistent` | src/components/Wordle.tsx:81-124 | every state reached by a run of submissions from a consistent state is consistent |
| `Session.ConsistentStatus` | src/components/Wordle.tsx:107-111 | in a consistent game: won if and only if some played word equals the target; lost if and only if six rows are played and none does; open if and only if fewer than six are played and none does |
| `Session.WinOnFirstGuess` | src/components/Wordle.tsx:107-108 | typing the target, in any case, as the first guess wins with one row played, scored all green |
| `Session.WinOnSixthGuess` | src/components/Wordle.tsx:107-109 | the target typed on the sixth row wins; the win check runs before the loss check |
| `Session.RunMisses` | src/components/Wordle.tsx:109-113 | from an open game, five-letter misses take one row each, and the loss message appears exactly when the sixth row is filled |
| `Session.LoseAfterSixMisses` | src/components/Wordle.tsx:109-110 | six five-letter misses lose the game with all six rows used |
| `Session.UpperCaseTargetLetterNeverGreen` | src/components/Wordle.tsx:93 | guesses are lower-cased and the target is not, so at an upper-case target position no played row is green, and a consistent game is not won |
| `Session.UpperCaseTargetNeverWon` | src/components/Wordle.tsx:123 | a target holding an upper-case letter is never won, whatever is typed |
| `Session.ZachetNeverWon` | src/components/Wordle.tsx:67 | the list's upper-case target `ЗАЧЕТ` is never won, whatever is typed |
| `Wordle.Game.constructor` | src/components/Wordle.tsx:71-79 | the new game's fields read as `Initial(word)`, with fresh grid arrays |
| `Wordle.Game.InputDisabled` | src/components/Wordle.tsx:124 | the input is disabled if and only if the game state is over (`Over(Model())`, which by `OverIffSubmitIgnored` means every five-character submission is ignored), and in a consistent game if and only if a message is shown |
| `Wordle.Game.CheckGuess` | src/components/Wordle.tsx:81-114 | the fields after a turn read as `Session.CheckGuess` of the fields before |
| `Wordle.Game.Submit` | src/components/Wordle.tsx:122-125 | the fields after a submission read as `Session.Submit` of the fields before, and a consistent game stays consistent |

## Left out

- Rendering (`Cell`, `Board`, the JSX, the stylesheet import) and the clearing of the input field after a submission: presentation only.
- React's state updates: each submission is taken to run after the previous one's state updates have been applied. Simultaneous submissions are a scheduling question, not game logic.
- The word list and the random choice of the target: the target is a constructor parameter, required to have five characters.
- Copy-on-write of the grids: the code copies each grid with `slice()` and replaces the field. The model replaces the one row in place, which no reader can tell apart. The rows that `fill` makes shared are only ever replaced, never mutated, so the model has no row aliasing.
- The message texts: the message is `NoMessage`, `Won` or `Lost`; the loss text's display of the target is not modelled.
- `Casing.Lower`: covers only Basic Latin A-Z and the Cyrillic block U+0400..U+042F (the whole Russian alphabet, Ё included). Every other character is left unchanged, and lower-casing never changes a word's length. The library's full case tables, and its length-changing mappings, are not modelled.
- Strings are sequences of Unicode characters. The code's `length` and `split("")` count UTF-16 code units, which agree on the Cyrillic and Latin letters of the game but differ for characters outside the Basic Multilingual Plane.
- `Session.CheckGuess`: requires a five-character guess. The component's only caller submits exactly that, given the length-preserving `Lower` above.
