// The placement record and the letter codec.

module Options {
  datatype Option<T> = None | Some(value: T)
}

module FoundWords {

  /** A placement of `word` in the grid: first letter at column x1, row y1,
      last letter at column x2, row y2, with `errorCount` letters that did not
      match. `color` is the colour the renderer draws the line in. */
  datatype FoundWord = FoundWord(
    x1: int, y1: int,
    x2: int, y2: int,
    word: string,
    errorCount: nat,
    color: char)

  /** The record's constructor: every argument is stored unchanged and the
      drawing colour starts out as black ('K'). */
  function NewFoundWord(x1: int, y1: int, x2: int, y2: int, word: string, errorCount: nat): (fw: FoundWord)
    ensures fw.x1 == x1 && fw.y1 == y1 && fw.x2 == x2 && fw.y2 == y2
    ensures fw.word == word && fw.errorCount == errorCount
    ensures fw.color == 'K'
  {
    FoundWord(x1, y1, x2, y2, word, errorCount, 'K')
  }

  /** The code of a letter in the grid: 'A' is 1, 'B' is 2, and so on. */
  function LetterToInt(letter: char): (code: int)
    ensures 'A' <= letter <= 'Z' <==> 1 <= code <= 26
  {
    letter as int - 64
  }

  /** The codec keeps the order of characters, so distinct letters get distinct codes. */
  lemma LetterToIntMonotone(a: char, b: char)
    ensures a < b <==> LetterToInt(a) < LetterToInt(b)
    ensures a == b <==> LetterToInt(a) == LetterToInt(b)
  {
  }
}
