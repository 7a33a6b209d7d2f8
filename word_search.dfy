// The solver object: the grid of letter codes, the words to look for, and the
// list of found words that the scanner appends to and the resolver prunes.

module WordSearches {
  import opened Options
  import opened FoundWords
  import opened Search
  import opened Ranking
  import opened SeqFacts
  import opened Image
  import opened Cells
  import opened Points
  import opened Scanning
  import opened Resolving

  class WordSearch {
    const pixelMatrix: seq<seq<int>>
    const letterSize: nat
    const gridSize: nat
    const words: seq<string>
    const letterPixels: seq<seq<int>>
    /** The letter codes, grid[row][column]; it is the classifier's output,
        taken here as given. */
    const grid: seq<seq<int>>
    /** The error tolerance the matchers use: the matchers' class-wide default. */
    const tolerance: nat
    var foundWords: seq<FoundWord>

    predicate Valid()
    {
      IsSquare(grid, gridSize)
    }

    /** Keeps the image and the words, reads the letters out of the image and
        starts with no found words. */
    constructor (pixelMatrix: seq<seq<int>>, letterSize: nat, words: seq<string>, grid: seq<seq<int>>)
      requires letterSize > 0 && IsSquare(pixelMatrix, |pixelMatrix|)
      requires Span(GridSize(|pixelMatrix|, letterSize), letterSize) == |pixelMatrix|
      requires IsSquare(grid, GridSize(|pixelMatrix|, letterSize))
      ensures this.pixelMatrix == pixelMatrix && this.letterSize == letterSize && this.words == words
      ensures gridSize == GridSize(|pixelMatrix|, letterSize)
      ensures letterPixels == ImageLetters(pixelMatrix, letterSize)
      ensures this.grid == grid && tolerance == ErrorTolerance
      ensures foundWords == []
      ensures Valid()
    {
      this.pixelMatrix := pixelMatrix;
      this.letterSize := letterSize;
      gridSize := GridSize(|pixelMatrix|, letterSize);
      this.words := words;
      var letters := GetLettersFromImage(pixelMatrix, letterSize);
      letterPixels := letters;
      this.grid := grid;
      tolerance := ErrorTolerance;
      foundWords := [];
    }

    /** Consults the matchers from (x, y): horizontal, then vertical only if
        horizontal gave no exact match, then diagonal only if vertical gave
        none either. Reports the three results and whether one was exact. */
    method MatchAtPoint(word: string, x: int, y: int) returns (localWords: seq<Option<FoundWord>>, letterIsWord: bool)
      requires Valid() && InGrid(grid, x, y)
      ensures localWords == PointProbes(grid, word, x, y, tolerance)
      ensures letterIsWord <==> AnyExact(localWords)
    {
      letterIsWord := false;
      localWords := [None, None, None];

      var matchHorizontal := LookHorizontal(grid, word, x, y, tolerance);
      localWords := localWords[0 := matchHorizontal];
      if localWords[0].Some? && localWords[0].value.errorCount == 0 {
        letterIsWord := true;
      } else {
        var matchVertical := LookVertical(grid, word, x, y, tolerance);
        localWords := localWords[1 := matchVertical];
        if localWords[1].Some? && localWords[1].value.errorCount == 0 {
          letterIsWord := true;
        } else {
          var matchDiagonal := LookDiagonal(grid, word, x, y, tolerance);
          localWords := localWords[2 := matchDiagonal];
          if localWords[2].Some? && localWords[2].value.errorCount == 0 {
            letterIsWord := true;
          }
        }
      }
      assert letterIsWord ==> Exact(localWords[0]) || Exact(localWords[1]) || Exact(localWords[2]);
    }

    /** Tries the word from (x, y): appends what the matchers find there and
        reports whether the word was found there without errors. */
    method FindWordAtPoint(word: string, x: int, y: int) returns (letterIsWord: bool)
      requires Valid() && InGrid(grid, x, y)
      modifies this
      ensures foundWords == old(foundWords) + PointResults(grid, word, x, y, tolerance)
      ensures letterIsWord <==> PointFound(PointResults(grid, word, x, y, tolerance))
    {
      var localWords;
      localWords, letterIsWord := MatchAtPoint(word, x, y);

      // Every result found from this point is kept; one with errors clears the flag.
      var k := 0;
      while k < |localWords|
        invariant 0 <= k <= |localWords|
        invariant foundWords == old(foundWords) + Somes(localWords[..k])
        invariant letterIsWord <==> AnyExact(localWords) && NoErrorsBefore(localWords, k)
      {
        SomesStep(localWords, k);
        ghost var before := Somes(localWords[..k]);
        var foundWord := localWords[k];
        if foundWord.Some? {
          foundWords := foundWords + [foundWord.value];
          if foundWord.value.errorCount > 0 {
            letterIsWord := false;
          }
        }
        AppendAssoc(old(foundWords), before, Present(foundWord));
        k := k + 1;
      }
      assert localWords[..k] == localWords;
      PointFoundIff(localWords);
    }

    /** Scans the grid row by row, each row left to right, trying the word
        from every cell that holds its first letter, and stops at the first
        cell that reports success. */
    method FindWord(word: string)
      requires Valid() && (gridSize > 0 ==> |word| > 0)
      modifies this
      ensures foundWords == old(foundWords) + FindAdded(grid, word, tolerance)
    {
      ghost var code := FirstCode(word);
      ghost var table := ResultTable(grid, word, tolerance);
      ghost var start := foundWords;
      ghost var state := ScanState([], false);
      var found := false;
      var y := 0;
      while y < gridSize
        invariant 0 <= y <= gridSize && !found
        invariant state == Swept(grid, table, code, y, 0)
        invariant foundWords == start + state.added && !state.found
      {
        var x := 0;
        while x < gridSize
          invariant 0 <= x <= gridSize && !found
          invariant state == Swept(grid, table, code, y, x)
          invariant foundWords == start + state.added && !state.found
        {
          if grid[y][x] == LetterToInt(word[0]) {
            var pointFound := FindWordAtPoint(word, x, y);
            SweptPoint(grid, word, tolerance, y, x, start);
            state := Swept(grid, table, code, y, x + 1);
            if pointFound {
              found := true;
              break;
            }
          } else {
            SweptSkipped(grid, table, code, y, x);
          }
          x := x + 1;
        }
        if found {
          break;
        }
        y := y + 1;
      }
    }

    /** Compares every entry with each entry after it and collects the
        positions of those for the same word with strictly more errors. The
        list is sorted by error count, so an entry never has more errors than
        one after it. */
    method MarkBeaten() returns (wordsToDelete: seq<int>)
      requires SortedByErrorCount(foundWords)
      ensures wordsToDelete == Marks(foundWords, if |foundWords| == 0 then 0 else |foundWords| - 1)
    {
      wordsToDelete := [];
      var i := 0;
      while i < |foundWords| - 1
        invariant 0 <= i <= |foundWords|
        invariant i == 0 || i <= |foundWords| - 1
        invariant wordsToDelete == Marks(foundWords, i)
      {
        var j := i + 1;
        while j < |foundWords|
          invariant i + 1 <= j <= |foundWords|
          invariant wordsToDelete == Marks(foundWords, i) + MarkRow(foundWords, i, j)
        {
          ghost var marked := Marks(foundWords, i);
          ghost var row := MarkRow(foundWords, i, j);
          if foundWords[i].word == foundWords[j].word {
            if foundWords[i].errorCount < foundWords[j].errorCount {
              wordsToDelete := wordsToDelete + [j];
              assert MarkRow(foundWords, i, j + 1) == row + [j];
              assert wordsToDelete == marked + (row + [j]);
            } else if foundWords[i].errorCount > foundWords[j].errorCount {
              // The list is sorted and i < j, so this case does not arise.
              assert false;
            }
          }
          j := j + 1;
        }
        i := i + 1;
      }
    }

    /** Sorts the found words by error count, then deletes every entry that an
        entry for the same word beats with strictly fewer errors. */
    method FilterFoundWords()
      modifies this
      ensures foundWords == Filtered(old(foundWords))
    {
      var sorted := SortByErrorCount(foundWords);
      foundWords := sorted;
      var wordsToDelete := MarkBeaten();

      var deleteSet := set k | k in wordsToDelete;
      var kept: seq<FoundWord> := [];
      var k := 0;
      while k < |sorted|
        invariant 0 <= k <= |sorted|
        invariant kept == KeepUnmarked(sorted, deleteSet, k)
      {
        if k !in deleteSet {
          kept := kept + [sorted[k]];
        }
        k := k + 1;
      }
      MarkedSurvivors(sorted, wordsToDelete);
      foundWords := kept;
    }

    /** Searches for every word of the list, upper-cased, in list order. */
    method Solve()
      requires Valid() && (gridSize > 0 ==> forall i :: 0 <= i < |words| ==> |words[i]| > 0)
      modifies this
      ensures foundWords == old(foundWords) + SolveAdded(grid, words, tolerance)
    {
      var i := 0;
      while i < |words|
        invariant 0 <= i <= |words|
        invariant foundWords == old(foundWords) + SolveAdded(grid, words[..i], tolerance)
      {
        FindWord(Upper(words[i]));
        assert words[..i + 1][..i] == words[..i];
        i := i + 1;
      }
      assert words[..i] == words;
    }
  }
}
