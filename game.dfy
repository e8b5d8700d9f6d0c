/** The Wordle component's state, updated in place turn by turn.

    The component keeps the target word, a 6x5 grid of letters, a 6x5 grid
    of cell states, the number of guesses played and the message. Each turn
    replaces one row of each grid, may set the message, and advances the
    counter. `Model` reads the fields as a `Session.State`; every method is
    specified by the `Session` function for the same step. */
module Wordle {
  import opened Casing
  import opened Scoring
  import opened Session

  class Game {
    /** The word to guess, chosen once when the game starts. */
    const target: string
    /** The letter grid, one row per guess. */
    const attempts: array<seq<Tile>>
    /** The result grid, one row per guess. */
    const results: array<seq<CellState>>
    var currentAttempt: nat
    var message: Message

    /** The fields, read as a value. */
    ghost function Model(): State
      reads this, attempts, results
    {
      State(target, attempts[..], results[..], currentAttempt, message)
    }

    ghost predicate Valid()
      reads this, attempts, results
    {
      WellFormed(Model())
    }

    /** A new game for `word`: blank grids, no guess played, no message. */
    constructor (word: string)
      requires |word| == WordLength
      ensures Valid() && fresh(attempts) && fresh(results)
      ensures Model() == Initial(word)
    {
      target := word;
      attempts := new seq<Tile>[MaxAttempts](_ => BlankRow());
      results := new seq<CellState>[MaxAttempts](_ => UnscoredRow());
      currentAttempt := 0;
      message := NoMessage;
    }

    /** Whether the input is disabled: exactly when a submission would be
        ignored whatever is typed, and, in a game played only through
        `Submit`, exactly when a message is shown. */
    function InputDisabled(): (disabled: bool)
      reads this, attempts, results
      ensures disabled <==> Over(Model())
      ensures Valid() && Consistent(Model()) ==> (disabled <==> message != NoMessage)
    {
      currentAttempt >= MaxAttempts || message != NoMessage
    }

    /** One turn with an already lower-cased guess. */
    method CheckGuess(guess: string)
      requires Valid() && |guess| == WordLength
      modifies this, attempts, results
      ensures Valid()
      ensures Model() == Session.CheckGuess(old(Model()), guess)
    {
      if currentAttempt >= MaxAttempts {
        return;
      }
      var rowResults := ScoreRow(target, guess);
      attempts[currentAttempt] := Letters(guess);
      results[currentAttempt] := rowResults;
      if guess == target {
        message := Won;
      } else if currentAttempt + 1 == MaxAttempts {
        message := Lost;
      }
      currentAttempt := currentAttempt + 1;
    }

    /** A typed word: ignored unless it has five characters and the input
      is enabled; otherwise played lower-cased. Keeps the game consistent. */
    method Submit(input: string)
      requires Valid()
      modifies this, attempts, results
      ensures Valid()
      ensures Model() == Session.Submit(old(Model()), input)
      ensures Consistent(old(Model())) ==> Consistent(Model())
    {
      ghost var before := Model();
      if |input| == WordLength && !InputDisabled() {
        CheckGuess(LowerWord(input));
      }
      if Consistent(before) {
        SubmitPreservesConsistent(before, input);
      }
    }
  }

  /** A client of `Game`, the class-level counterpart of
      `Session.WinOnFirstGuess`: a game of "карта" is won on the first
      guess typed in capitals, after which the input is disabled and a
      further word is ignored, leaving one row played. */
  method WinScenario()
  {
    var word := "\U{043A}\U{0430}\U{0440}\U{0442}\U{0430}";
    var typed := "\U{041A}\U{0410}\U{0420}\U{0422}\U{0410}";
    assert LowerWord(typed) == word;
    var game := new Game(word);
    game.Submit(typed);
    assert game.currentAttempt == 1 && game.message == Won;
    assert game.InputDisabled();
    game.Submit(word);
    assert game.currentAttempt == 1 && game.message == Won;
  }
}
