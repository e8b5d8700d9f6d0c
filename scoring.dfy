/** Per-letter scoring of one guess against the target word.

    Each position of the guess is classified on its own: green when the
    guess letter equals the target letter at that position, yellow when it
    differs but occurs anywhere in the target, red otherwise. Occurrences in
    the target are not counted or consumed, so a repeated guess letter is
    yellow (or green) at every position as long as the target contains it
    once. */
module Scoring {

  /** Letters in a word and in a row of the board. */
  const WordLength := 5

  /** The state of one cell of the board: `Unscored` is the `null` of a row
      that has not been played; the other three are "wgreen", "wyellow" and
      "wred". */
  datatype CellState = Unscored | Green | Yellow | Red

  /** The classification of guess letter `g` at a position where the target
      holds `t`. */
  function Classify(target: string, g: char, t: char): CellState {
    if g == t then Green
    else if g in target then Yellow
    else Red
  }

  /** The row of cell states for `guess` against `target`. */
  function Score(target: string, guess: string): (row: seq<CellState>)
    requires |target| == WordLength && |guess| == WordLength
    ensures |row| == WordLength
    ensures forall i :: 0 <= i < WordLength ==> row[i] != Unscored
  {
    seq(WordLength, i requires 0 <= i < WordLength => Classify(target, guess[i], target[i]))
  }

  /** The scoring loop: a fresh row of `null` cells, filled position by
      position while walking the target's letters. */
  method ScoreRow(target: string, guess: string) returns (row: seq<CellState>)
    requires |target| == WordLength && |guess| == WordLength
    ensures row == Score(target, guess)
  {
    var rowResults := new CellState[WordLength](_ => Unscored);
    var i := 0;
    while i < |target|
      invariant 0 <= i <= |target|
      invariant forall k :: 0 <= k < i ==> rowResults[k] == Classify(target, guess[k], target[k])
    {
      var ch := target[i];
      if guess[i] == ch {
        rowResults[i] := Green;
      } else if guess[i] in target {
        rowResults[i] := Yellow;
      } else {
        rowResults[i] := Red;
      }
      i := i + 1;
    }
    row := rowResults[..];
  }

  /** A cell is green exactly when the guess letter equals the target letter
      at the same position. */
  lemma ScoreGreenIff(target: string, guess: string, i: nat)
    requires |target| == WordLength && |guess| == WordLength && i < WordLength
    ensures Score(target, guess)[i] == Green <==> guess[i] == target[i]
  {
  }

  /** A cell is yellow exactly when the letters differ and the guess letter
      occurs somewhere in the target. */
  lemma ScoreYellowIff(target: string, guess: string, i: nat)
    requires |target| == WordLength && |guess| == WordLength && i < WordLength
    ensures Score(target, guess)[i] == Yellow <==> guess[i] != target[i] && guess[i] in target
  {
  }

  /** A cell is red exactly when the guess letter does not occur in the
      target at all. */
  lemma ScoreRedIff(target: string, guess: string, i: nat)
    requires |target| == WordLength && |guess| == WordLength && i < WordLength
    ensures Score(target, guess)[i] == Red <==> guess[i] !in target
  {
  }

  /** Cell `i` depends on the target and on `guess[i]` only: guesses that
      agree at position `i` get the same cell there. */
  lemma ScoreLocal(target: string, guess1: string, guess2: string, i: nat)
    requires |target| == WordLength && |guess1| == WordLength && |guess2| == WordLength
    requires i < WordLength && guess1[i] == guess2[i]
    ensures Score(target, guess1)[i] == Score(target, guess2)[i]
  {
  }

  /** The row of all green cells. */
  function AllGreen(): (row: seq<CellState>)
    ensures |row| == WordLength && forall i :: 0 <= i < WordLength ==> row[i] == Green
  {
    [Green, Green, Green, Green, Green]
  }

  /** Guessing the target itself scores all five cells green, and only that
      guess does. */
  lemma ScoreAllGreenIff(target: string, guess: string)
    requires |target| == WordLength && |guess| == WordLength
    ensures Score(target, guess) == AllGreen() <==> guess == target
  {
    if Score(target, guess) == AllGreen() {
      forall i | 0 <= i < WordLength ensures guess[i] == target[i] {
        ScoreGreenIff(target, guess, i);
      }
    }
  }

  /** The number of cells of `row` that are not red. */
  function NonRed(row: seq<CellState>): (n: nat)
    ensures n <= |row|
  {
    if row == [] then 0 else (if row[0] == Red then 0 else 1) + NonRed(row[1..])
  }

  /** A row with no red cell counts every one of its cells. */
  lemma {:induction false} NonRedOfNoRed(row: seq<CellState>)
    requires forall i :: 0 <= i < |row| ==> row[i] != Red
    ensures NonRed(row) == |row|
  {
    if row != [] {
      NonRedOfNoRed(row[1..]);
    }
  }

  /** Occurrences are not consumed: a guess repeating one letter of the
      target five times has no red cell, however few times the target holds
      that letter. */
  lemma RepeatedLetterNeverRed(target: string, c: char)
    requires |target| == WordLength && c in target
    ensures forall i :: 0 <= i < WordLength ==> Score(target, [c, c, c, c, c])[i] != Red
    ensures NonRed(Score(target, [c, c, c, c, c])) == WordLength
  {
    NonRedOfNoRed(Score(target, [c, c, c, c, c]));
  }

  /** Target "apple", guess "ppppp": the two green p's and three yellow
      ones make five non-red cells for a letter the target holds twice. */
  lemma ApplePppppExample()
    ensures Score("apple", "ppppp") == [Yellow, Green, Green, Yellow, Yellow]
    ensures NonRed(Score("apple", "ppppp")) == 5 > multiset("apple")['p'] == 2
  {
    RepeatedLetterNeverRed("apple", 'p');
    assert "ppppp" == ['p', 'p', 'p', 'p', 'p'];
    assert multiset("apple")['p'] == 2 by {
      assert "apple" == ['a'] + ['p'] + ['p'] + ['l'] + ['e'];
    }
  }

  /** Target "apple", guess "zzzzz": every cell is red. */
  lemma NoSharedLetterExample()
    ensures Score("apple", "zzzzz") == [Red, Red, Red, Red, Red]
  {
  }
}
