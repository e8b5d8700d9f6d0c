/** The game's state and its turn-by-turn transitions, as values.

    A state holds the target word, a 6x5 grid of guessed letters, a 6x5
    grid of cell states, the number of guesses played and the message shown
    to the player. `CheckGuess` is one turn; `Submit` is the path a typed
    word takes to it, through the input's length check, the disabled input
    once the game is over, and lower-casing. The class in module `Wordle`
    updates its fields exactly as these functions say. */
module Session {
  import opened Casing
  import opened Scoring

  /** Rows of the board: one per guess the player may make. */
  const MaxAttempts := 6

  /** One cell of the letter grid: the empty string "" of a row not yet
      played, or the single letter a guess put there. */
  datatype Tile = Empty | Letter(ch: char)

  /** The message under the board: none yet, the congratulation, or the
      loss message that reveals the target. */
  datatype Message = NoMessage | Won | Lost

  datatype State = State(
    target: string,
    attempts: seq<seq<Tile>>,
    results: seq<seq<CellState>>,
    currentAttempt: nat,
    message: Message)

  /** The shape every state has: a five-letter target, two 6x5 grids, and a
      counter of at most six. */
  predicate WellFormed(s: State) {
    && |s.target| == WordLength
    && |s.attempts| == MaxAttempts
    && |s.results| == MaxAttempts
    && s.currentAttempt <= MaxAttempts
    && (forall r :: 0 <= r < MaxAttempts ==> |s.attempts[r]| == WordLength)
    && (forall r :: 0 <= r < MaxAttempts ==> |s.results[r]| == WordLength)
  }

  /** A row of the letter grid that has not been played. */
  function BlankRow(): (row: seq<Tile>)
    ensures |row| == WordLength && forall k :: 0 <= k < WordLength ==> row[k] == Empty
  {
    [Empty, Empty, Empty, Empty, Empty]
  }

  /** A row of the result grid that has not been played. */
  function UnscoredRow(): (row: seq<CellState>)
    ensures |row| == WordLength && forall k :: 0 <= k < WordLength ==> row[k] == Unscored
  {
    [Unscored, Unscored, Unscored, Unscored, Unscored]
  }

  /** The letters of a guess, one tile each (the guess split into
      characters). */
  function Letters(w: string): (row: seq<Tile>)
    ensures |row| == |w|
  {
    seq(|w|, k requires 0 <= k < |w| => Letter(w[k]))
  }

  /** A row all of whose tiles hold a letter. */
  predicate IsWord(row: seq<Tile>) {
    forall k :: 0 <= k < |row| ==> row[k].Letter?
  }

  /** The word a row of letters spells. */
  function Word(row: seq<Tile>): (w: string)
    requires IsWord(row)
    ensures |w| == |row|
  {
    seq(|row|, k requires 0 <= k < |row| => row[k].ch)
  }

  /** Splitting a word into tiles and reading it back gives the word. */
  lemma WordOfLetters(w: string)
    ensures IsWord(Letters(w)) && Word(Letters(w)) == w
  {
  }

  /** The state a game starts in: both grids blank, no guess played, no
      message. */
  function Initial(target: string): (s: State)
    requires |target| == WordLength
    ensures WellFormed(s) && s.target == target && s.currentAttempt == 0 && s.message == NoMessage
    ensures forall r :: 0 <= r < MaxAttempts ==> s.attempts[r] == BlankRow() && s.results[r] == UnscoredRow()
  {
    State(target, seq(MaxAttempts, _ => BlankRow()), seq(MaxAttempts, _ => UnscoredRow()), 0, NoMessage)
  }

  /** One turn with an already lower-cased guess. With all six rows played
      nothing changes; otherwise the guess and its score go into the current
      row, the win message is set on an exact guess, the loss message when
      the sixth row was just played without one, and the counter moves on.
      The message already shown is not consulted. */
  function CheckGuess(s: State, guess: string): (r: State)
    requires WellFormed(s) && |guess| == WordLength
    ensures WellFormed(r) && r.target == s.target
  {
    if s.currentAttempt >= MaxAttempts then s
    else
      var k := s.currentAttempt;
      s.(attempts := s.attempts[k := Letters(guess)],
         results := s.results[k := Score(s.target, guess)],
         message := if guess == s.target then Won else if k + 1 == MaxAttempts then Lost else s.message,
         currentAttempt := k + 1)
  }

  /** The input is disabled once all rows are played or a message is shown. */
  predicate Over(s: State) {
    s.currentAttempt >= MaxAttempts || s.message != NoMessage
  }

  /** A typed word reaches `CheckGuess`, lower-cased, only when it has five
      characters and the input is not disabled; otherwise nothing happens. */
  function Submit(s: State, input: string): (r: State)
    requires WellFormed(s)
    ensures WellFormed(r) && r.target == s.target
  {
    if |input| == WordLength && !Over(s) then CheckGuess(s, LowerWord(input)) else s
  }

  /** The state after typing each of `inputs` in turn. */
  function Run(s: State, inputs: seq<string>): (r: State)
    requires WellFormed(s)
    ensures WellFormed(r) && r.target == s.target && s.currentAttempt <= r.currentAttempt
    decreases |inputs|
  {
    if inputs == [] then s else Run(Submit(s, inputs[0]), inputs[1..])
  }

  // ---------------------------------------------------------------------
  // One turn

  /** With all six rows played, a turn changes nothing. */
  lemma CheckGuessWhenFull(s: State, guess: string)
    requires WellFormed(s) && |guess| == WordLength && s.currentAttempt >= MaxAttempts
    ensures CheckGuess(s, guess) == s
  {
  }

  /** Otherwise a turn writes the guess and its score into the current row
      of the two grids, leaves every other row alone, and advances the
      counter by one. */
  lemma CheckGuessWritesCurrentRow(s: State, guess: string)
    requires WellFormed(s) && |guess| == WordLength && s.currentAttempt < MaxAttempts
    ensures var r := CheckGuess(s, guess);
      && r.currentAttempt == s.currentAttempt + 1
      && r.attempts[s.currentAttempt] == Letters(guess)
      && r.results[s.currentAttempt] == Score(s.target, guess)
      && (forall j :: 0 <= j < MaxAttempts && j != s.currentAttempt ==>
            r.attempts[j] == s.attempts[j] && r.results[j] == s.results[j])
  {
  }

  /** The message after a turn: a correct guess wins, even on the sixth row
      (the win is checked first); a wrong guess on the sixth row loses; any
      other wrong guess keeps the message as it was. */
  lemma CheckGuessMessage(s: State, guess: string)
    requires WellFormed(s) && |guess| == WordLength && s.currentAttempt < MaxAttempts
    ensures guess == s.target ==> CheckGuess(s, guess).message == Won
    ensures guess != s.target && s.currentAttempt + 1 == MaxAttempts ==> CheckGuess(s, guess).message == Lost
    ensures guess != s.target && s.currentAttempt + 1 < MaxAttempts ==> CheckGuess(s, guess).message == s.message
  {
  }

  /** A correct guess fills its row of results with green. */
  lemma CheckGuessCorrectAllGreen(s: State, guess: string)
    requires WellFormed(s) && |guess| == WordLength && s.currentAttempt < MaxAttempts && guess == s.target
    ensures CheckGuess(s, guess).results[s.currentAttempt] == AllGreen()
  {
    ScoreAllGreenIff(s.target, guess);
  }

  // ---------------------------------------------------------------------
  // Submitting

  /** A typed word of any length other than five changes nothing. */
  lemma SubmitWrongLength(s: State, input: string)
    requires WellFormed(s) && |input| != WordLength
    ensures Submit(s, input) == s
  {
  }

  /** Once the game is over nothing more is accepted. */
  lemma SubmitWhenOver(s: State, input: string)
    requires WellFormed(s) && Over(s)
    ensures Submit(s, input) == s
  {
  }

  /** For a five-character word, the game is over exactly when submitting
      it changes nothing. */
  lemma OverIffSubmitIgnored(s: State, input: string)
    requires WellFormed(s) && |input| == WordLength
    ensures Over(s) <==> Submit(s, input) == s
  {
  }

  /** After the game is over, any further typing leaves the state, and so
      the history of guesses, exactly as it was. */
  lemma {:induction false} RunWhenOver(s: State, inputs: seq<string>)
    requires WellFormed(s) && Over(s)
    ensures Run(s, inputs) == s
    decreases |inputs|
  {
    if inputs != [] {
      SubmitWhenOver(s, inputs[0]);
      RunWhenOver(s, inputs[1..]);
    }
  }

  // ---------------------------------------------------------------------
  // The invariant of a game played through `Submit`

  /** Every played row holds a lower-cased word and its score, every
      unplayed row is blank, no word equals the target except possibly the
      last one played, and the message is the win message exactly when the
      last word played is the target, the loss message exactly when six rows
      are played and the last is not the target. */
  predicate Consistent(s: State) {
    && WellFormed(s)
    && (forall r :: 0 <= r < s.currentAttempt ==>
          && IsWord(s.attempts[r])
          && IsLowerWord(Word(s.attempts[r]))
          && s.results[r] == Score(s.target, Word(s.attempts[r])))
    && (forall r :: s.currentAttempt <= r < MaxAttempts ==>
          s.attempts[r] == BlankRow() && s.results[r] == UnscoredRow())
    && (forall r :: 0 <= r < s.currentAttempt - 1 ==> Word(s.attempts[r]) != s.target)
    && (s.message == Won <==>
          0 < s.currentAttempt && Word(s.attempts[s.currentAttempt - 1]) == s.target)
    && (s.message == Lost <==>
          s.currentAttempt == MaxAttempts && Word(s.attempts[MaxAttempts - 1]) != s.target)
  }

  /** The game starts consistent. */
  lemma InitialConsistent(target: string)
    requires |target| == WordLength
    ensures Consistent(Initial(target))
  {
  }

  /** Submitting keeps a game consistent. */
  lemma SubmitPreservesConsistent(s: State, input: string)
    requires Consistent(s)
    ensures Consistent(Submit(s, input))
  {
    if |input| == WordLength && !Over(s) {
      var w := LowerWord(input);
      var k := s.currentAttempt;
      var r := Submit(s, input);
      WordOfLetters(w);
      assert r.attempts[k] == Letters(w);
      assert Word(r.attempts[k]) == w;
      assert forall j :: 0 <= j < k ==> r.attempts[j] == s.attempts[j] && r.results[j] == s.results[j];
      assert k > 0 ==> Word(s.attempts[k - 1]) != s.target;
    }
  }

  /** Every state reached by typing from a consistent state is consistent. */
  lemma {:induction false} RunPreservesConsistent(s: State, inputs: seq<string>)
    requires Consistent(s)
    ensures Consistent(Run(s, inputs))
    decreases |inputs|
  {
    if inputs != [] {
      SubmitPreservesConsistent(s, inputs[0]);
      RunPreservesConsistent(Submit(s, inputs[0]), inputs[1..]);
    }
  }

  /** In a consistent game, the game is won exactly when some played word
      equals the target, lost exactly when six rows are played and none
      does, and still open otherwise. */
  lemma ConsistentStatus(s: State)
    requires Consistent(s)
    ensures s.message == Won <==>
      exists r :: 0 <= r < s.currentAttempt && Word(s.attempts[r]) == s.target
    ensures s.message == Lost <==>
      s.currentAttempt == MaxAttempts && forall r :: 0 <= r < MaxAttempts ==> Word(s.attempts[r]) != s.target
    ensures s.message == NoMessage <==>
      s.currentAttempt < MaxAttempts && forall r :: 0 <= r < s.currentAttempt ==> Word(s.attempts[r]) != s.target
  {
    if s.message == Won {
      assert Word(s.attempts[s.currentAttempt - 1]) == s.target;
    }
  }

  /** In a consistent game the input is disabled exactly when a message is
      shown: six played rows always bring the win or the loss message. */
  lemma OverIffMessage(s: State)
    requires Consistent(s)
    ensures Over(s) <==> s.message != NoMessage
  {
  }

  // ---------------------------------------------------------------------
  // Whole games

  /** Typing the target (in any case) as the first guess wins at once, with
      one row played and scored all green. */
  lemma WinOnFirstGuess(target: string, input: string)
    requires |target| == WordLength && LowerWord(input) == target
    ensures var s := Submit(Initial(target), input);
      && s.message == Won
      && s.currentAttempt == 1
      && s.results[0] == AllGreen()
  {
    ScoreAllGreenIff(target, target);
  }

  /** Typing the target on the sixth and last row still wins. */
  lemma WinOnSixthGuess(s: State, input: string)
    requires Consistent(s) && s.currentAttempt == MaxAttempts - 1 && s.message == NoMessage
    requires |input| == WordLength && LowerWord(input) == s.target
    ensures Submit(s, input).message == Won && Submit(s, input).currentAttempt == MaxAttempts
  {
  }

  /** From an open game, five-character words that all miss the target
      each take one row; the loss message appears exactly when the sixth
      row is filled. */
  lemma {:induction false} RunMisses(s: State, inputs: seq<string>)
    requires Consistent(s) && s.message == NoMessage
    requires s.currentAttempt + |inputs| <= MaxAttempts
    requires forall k :: 0 <= k < |inputs| ==> |inputs[k]| == WordLength && LowerWord(inputs[k]) != s.target
    ensures Run(s, inputs).currentAttempt == s.currentAttempt + |inputs|
    ensures Run(s, inputs).message == if s.currentAttempt + |inputs| == MaxAttempts then Lost else NoMessage
    decreases |inputs|
  {
    if inputs != [] {
      var next := Submit(s, inputs[0]);
      SubmitPreservesConsistent(s, inputs[0]);
      assert next.currentAttempt == s.currentAttempt + 1;
      if next.currentAttempt == MaxAttempts {
        assert next.message == Lost;
        assert inputs[1..] == [];
      } else {
        assert next.message == NoMessage;
        RunMisses(next, inputs[1..]);
      }
    }
  }

  /** Six five-character words that all miss the target lose the game,
      with every row used. */
  lemma LoseAfterSixMisses(target: string, inputs: seq<string>)
    requires |target| == WordLength && |inputs| == MaxAttempts
    requires forall k :: 0 <= k < |inputs| ==> |inputs[k]| == WordLength && LowerWord(inputs[k]) != target
    ensures Run(Initial(target), inputs).message == Lost
    ensures Run(Initial(target), inputs).currentAttempt == MaxAttempts
  {
    InitialConsistent(target);
    RunMisses(Initial(target), inputs);
  }

  /** Guesses are lower-cased and the target is not: where the target holds
      an upper-case letter, no played row is ever green, and a consistent
      game is never won. */
  lemma UpperCaseTargetLetterNeverGreen(s: State, i: nat)
    requires Consistent(s) && i < WordLength && IsUpper(s.target[i])
    ensures forall r :: 0 <= r < s.currentAttempt ==> s.results[r][i] != Green
    ensures s.message != Won
  {
    forall r | 0 <= r < s.currentAttempt ensures s.results[r][i] != Green {
      ScoreGreenIff(s.target, Word(s.attempts[r]), i);
    }
  }

  /** So a game whose target holds an upper-case letter, such as "ЗАЧЕТ",
      can never be won, whatever is typed. */
  lemma UpperCaseTargetNeverWon(target: string, i: nat, inputs: seq<string>)
    requires |target| == WordLength && i < WordLength && IsUpper(target[i])
    ensures Run(Initial(target), inputs).message != Won
  {
    InitialConsistent(target);
    RunPreservesConsistent(Initial(target), inputs);
    UpperCaseTargetLetterNeverGreen(Run(Initial(target), inputs), i);
  }

  /** The upper-case target of the word list. */
  lemma ZachetNeverWon(inputs: seq<string>)
    ensures Run(Initial("\U{0417}\U{0410}\U{0427}\U{0415}\U{0422}"), inputs).message != Won
  {
    UpperCaseTargetNeverWon("\U{0417}\U{0410}\U{0427}\U{0415}\U{0422}", 0, inputs);
  }
}
