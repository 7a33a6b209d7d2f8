// Cutting the pixel matrix of the puzzle into letter-sized blocks.

module Image {
  import opened SeqFacts

  /** A matrix of n rows of n pixels each. */
  predicate IsSquare(matrix: seq<seq<int>>, n: nat)
  {
    |matrix| == n && forall r :: 0 <= r < |matrix| ==> |matrix[r]| == n
  }

  /** The pixel extent of k letters of letterSize pixels: k * letterSize,
      written as repeated addition. */
  function Span(k: nat, letterSize: nat): nat
  {
    if k == 0 then 0 else Span(k - 1, letterSize) + letterSize
  }

  lemma {:induction false} SpanIsProduct(k: nat, letterSize: nat)
    ensures Span(k, letterSize) == k * letterSize
  {
    if k > 0 {
      SpanIsProduct(k - 1, letterSize);
    }
  }

  /** Letter k ends no later than letter g begins when k < g. */
  lemma {:induction false} SpanBelow(k: nat, g: nat, letterSize: nat)
    requires k < g
    ensures Span(k, letterSize) + letterSize <= Span(g, letterSize)
  {
    if k + 1 < g {
      SpanBelow(k, g - 1, letterSize);
    }
  }

  lemma SpanLess(k: nat, g: nat, letterSize: nat)
    requires letterSize > 0
    ensures k < g <==> Span(k, letterSize) < Span(g, letterSize)
  {
    if k < g {
      SpanBelow(k, g, letterSize);
    } else if g < k {
      SpanBelow(g, k, letterSize);
    }
  }

  /** The number of letters along a side of the puzzle: the side in pixels
      divided by the letter size, truncated. */
  function GridSize(side: nat, letterSize: nat): (n: nat)
    requires letterSize > 0
    ensures Span(n, letterSize) <= side < Span(n, letterSize) + letterSize
  {
    if side < letterSize then 0 else 1 + GridSize(side - letterSize, letterSize)
  }

  /** The concatenation of a list of lists, in order. */
  function Flatten<T>(parts: seq<seq<T>>): seq<T>
  {
    if parts == [] then [] else Flatten(parts[..|parts| - 1]) + parts[|parts| - 1]
  }

  lemma {:induction false} FlattenLength<T>(parts: seq<seq<T>>, m: nat)
    requires forall i :: 0 <= i < |parts| ==> |parts[i]| == m
    ensures |Flatten(parts)| == Span(|parts|, m)
  {
    if parts != [] {
      FlattenLength(parts[..|parts| - 1], m);
    }
  }

  /** The values of the block whose top-left pixel is at row r0, column c0,
      one list per pixel row p of the block; within it, pixel column q is
      read from matrix[c0 + q][r0 + p], the matrix being indexed [column][row]. */
  function BlockRows(matrix: seq<seq<int>>, letterSize: nat, r0: nat, c0: nat): (rows: seq<seq<int>>)
    requires IsSquare(matrix, |matrix|)
    requires r0 + letterSize <= |matrix| && c0 + letterSize <= |matrix|
  {
    seq(letterSize, p requires 0 <= p < letterSize =>
      seq(letterSize, q requires 0 <= q < letterSize =>
        matrix[c0 + q][r0 + p]))
  }

  /** The values of the letter in letter row a and letter column b. */
  function LetterBlock(matrix: seq<seq<int>>, letterSize: nat, a: nat, b: nat): seq<int>
    requires IsSquare(matrix, |matrix|)
    requires Span(a, letterSize) + letterSize <= |matrix| && Span(b, letterSize) + letterSize <= |matrix|
  {
    Flatten(BlockRows(matrix, letterSize, Span(a, letterSize), Span(b, letterSize)))
  }

  /** The letters of letter row a, left to right. */
  function LetterRow(matrix: seq<seq<int>>, letterSize: nat, a: nat): seq<seq<int>>
    requires letterSize > 0 && IsSquare(matrix, |matrix|)
    requires Span(a, letterSize) + letterSize <= |matrix|
  {
    var g := GridSize(|matrix|, letterSize);
    seq(g, b requires 0 <= b < g =>
      SpanBelow(b, g, letterSize);
      LetterBlock(matrix, letterSize, a, b))
  }

  /** The letters of the puzzle as a table: letter row a, letter column b. */
  function LetterTable(matrix: seq<seq<int>>, letterSize: nat): seq<seq<seq<int>>>
    requires letterSize > 0 && IsSquare(matrix, |matrix|)
  {
    var g := GridSize(|matrix|, letterSize);
    seq(g, a requires 0 <= a < g =>
      SpanBelow(a, g, letterSize);
      LetterRow(matrix, letterSize, a))
  }

  /** The letters of the puzzle, letter row by letter row. */
  function ImageLetters(matrix: seq<seq<int>>, letterSize: nat): seq<seq<int>>
    requires letterSize > 0 && IsSquare(matrix, |matrix|)
  {
    Flatten(LetterTable(matrix, letterSize))
  }

  /** The letter in letter row a and letter column b lies inside the matrix. */
  lemma BlockInside(matrix: seq<seq<int>>, letterSize: nat, a: nat, b: nat)
    requires letterSize > 0
    requires a < GridSize(|matrix|, letterSize) && b < GridSize(|matrix|, letterSize)
    ensures Span(a, letterSize) + letterSize <= |matrix| && Span(b, letterSize) + letterSize <= |matrix|
  {
    var g := GridSize(|matrix|, letterSize);
    SpanBelow(a, g, letterSize);
    SpanBelow(b, g, letterSize);
  }

  lemma TableAt(matrix: seq<seq<int>>, letterSize: nat, a: nat, b: nat)
    requires letterSize > 0 && IsSquare(matrix, |matrix|)
    requires a < GridSize(|matrix|, letterSize) && b < GridSize(|matrix|, letterSize)
    ensures Span(a, letterSize) + letterSize <= |matrix| && Span(b, letterSize) + letterSize <= |matrix|
    ensures var g := GridSize(|matrix|, letterSize);
      |LetterTable(matrix, letterSize)| == g && |LetterTable(matrix, letterSize)[a]| == g &&
      LetterTable(matrix, letterSize)[a][b] == LetterBlock(matrix, letterSize, a, b)
  {
    var g := GridSize(|matrix|, letterSize);
    SpanBelow(a, g, letterSize);
    SpanBelow(b, g, letterSize);
  }

  lemma BlockRowsAt(matrix: seq<seq<int>>, letterSize: nat, r0: nat, c0: nat, p: nat, q: nat)
    requires IsSquare(matrix, |matrix|)
    requires r0 + letterSize <= |matrix| && c0 + letterSize <= |matrix|
    requires p < letterSize && q < letterSize
    ensures |BlockRows(matrix, letterSize, r0, c0)| == letterSize
    ensures |BlockRows(matrix, letterSize, r0, c0)[p]| == letterSize
    ensures BlockRows(matrix, letterSize, r0, c0)[p][q] == matrix[c0 + q][r0 + p]
  {
  }

  lemma BlockRowsLength(matrix: seq<seq<int>>, letterSize: nat, r0: nat, c0: nat)
    requires IsSquare(matrix, |matrix|)
    requires r0 + letterSize <= |matrix| && c0 + letterSize <= |matrix|
    ensures var rows := BlockRows(matrix, letterSize, r0, c0);
      |rows| == letterSize && forall p :: 0 <= p < letterSize ==> |rows[p]| == letterSize
  {
  }

  lemma FlattenSnoc<T>(parts: seq<seq<T>>, a: nat)
    requires a < |parts|
    ensures Flatten(parts[..a + 1]) == Flatten(parts[..a]) + parts[a]
  {
    assert parts[..a + 1][..a] == parts[..a];
  }

  /** Element b of part a sits at position Span(a, m) + b of the
      concatenation of parts that all have length m. */
  lemma {:induction false} FlattenAt<T>(parts: seq<seq<T>>, m: nat, a: nat, b: nat)
    requires forall i :: 0 <= i < |parts| ==> |parts[i]| == m
    requires a < |parts| && b < m
    ensures Span(a, m) + b < |Flatten(parts)|
    ensures Flatten(parts)[Span(a, m) + b] == parts[a][b]
  {
    var n := |parts|;
    FlattenLength(parts[..n - 1], m);
    if a < n - 1 {
      FlattenAt(parts[..n - 1], m, a, b);
    }
  }

  lemma LetterRowsLength(matrix: seq<seq<int>>, letterSize: nat)
    requires letterSize > 0 && IsSquare(matrix, |matrix|)
    ensures var g := GridSize(|matrix|, letterSize);
      |LetterTable(matrix, letterSize)| == g &&
      forall a :: 0 <= a < g ==> |LetterTable(matrix, letterSize)[a]| == g
  {
    var g := GridSize(|matrix|, letterSize);
    forall a | 0 <= a < g ensures |LetterTable(matrix, letterSize)[a]| == g {
      TableAt(matrix, letterSize, a, 0);
    }
  }

  /** A matrix of side n yields (n/L)^2 letters. */
  lemma ImageLettersCount(matrix: seq<seq<int>>, letterSize: nat)
    requires letterSize > 0 && IsSquare(matrix, |matrix|)
    ensures var g := GridSize(|matrix|, letterSize);
      |ImageLetters(matrix, letterSize)| == g * g
  {
    var g := GridSize(|matrix|, letterSize);
    LetterRowsLength(matrix, letterSize);
    FlattenLength(LetterTable(matrix, letterSize), g);
    SpanIsProduct(g, g);
  }

  /** The letters come letter row by letter row: the letter in letter row a
      and letter column b is number Span(a, g) + b, that is a*g + b. */
  lemma ImageLettersAt(matrix: seq<seq<int>>, letterSize: nat, a: nat, b: nat)
    requires letterSize > 0 && IsSquare(matrix, |matrix|)
    requires a < GridSize(|matrix|, letterSize) && b < GridSize(|matrix|, letterSize)
    ensures Span(a, letterSize) + letterSize <= |matrix| && Span(b, letterSize) + letterSize <= |matrix|
    ensures var g := GridSize(|matrix|, letterSize);
      Span(a, g) + b < |ImageLetters(matrix, letterSize)| &&
      ImageLetters(matrix, letterSize)[Span(a, g) + b] == LetterBlock(matrix, letterSize, a, b)
    ensures Span(a, GridSize(|matrix|, letterSize)) + b == a * GridSize(|matrix|, letterSize) + b
  {
    var g := GridSize(|matrix|, letterSize);
    SpanIsProduct(a, g);
    LetterRowsLength(matrix, letterSize);
    TableAt(matrix, letterSize, a, b);
    FlattenAt(LetterTable(matrix, letterSize), g, a, b);
  }

  /** Pixel row p, pixel column q of the block at pixel offsets (r0, c0) is
      value number Span(p, L) + q of the block's list. */
  lemma BlockPixel(matrix: seq<seq<int>>, letterSize: nat, r0: nat, c0: nat, p: nat, q: nat)
    requires IsSquare(matrix, |matrix|)
    requires r0 + letterSize <= |matrix| && c0 + letterSize <= |matrix|
    requires p < letterSize && q < letterSize
    ensures |Flatten(BlockRows(matrix, letterSize, r0, c0))| == Span(letterSize, letterSize)
    ensures Span(p, letterSize) + q < Span(letterSize, letterSize)
    ensures Flatten(BlockRows(matrix, letterSize, r0, c0))[Span(p, letterSize) + q] == matrix[c0 + q][r0 + p]
  {
    var rows := BlockRows(matrix, letterSize, r0, c0);
    BlockRowsLength(matrix, letterSize, r0, c0);
    FlattenLength(rows, letterSize);
    FlattenAt(rows, letterSize, p, q);
    BlockRowsAt(matrix, letterSize, r0, c0, p, q);
  }

  /** Each letter holds L^2 pixel values, pixel row by pixel row: pixel row p,
      pixel column q of the letter in letter row a and letter column b is
      value number Span(p, L) + q, that is p*L + q, and is read from
      matrix[b*L + q][a*L + p]. */
  lemma LetterPixel(matrix: seq<seq<int>>, letterSize: nat, a: nat, b: nat, p: nat, q: nat)
    requires letterSize > 0 && IsSquare(matrix, |matrix|)
    requires a < GridSize(|matrix|, letterSize) && b < GridSize(|matrix|, letterSize)
    requires p < letterSize && q < letterSize
    ensures Span(a, letterSize) + letterSize <= |matrix| && Span(b, letterSize) + letterSize <= |matrix|
    ensures |LetterBlock(matrix, letterSize, a, b)| == Span(letterSize, letterSize)
    ensures Span(p, letterSize) + q < Span(letterSize, letterSize)
    ensures LetterBlock(matrix, letterSize, a, b)[Span(p, letterSize) + q] ==
            matrix[Span(b, letterSize) + q][Span(a, letterSize) + p]
    ensures Span(p, letterSize) + q == p * letterSize + q
    ensures Span(b, letterSize) + q == b * letterSize + q && Span(a, letterSize) + p == a * letterSize + p
  {
    BlockInside(matrix, letterSize, a, b);
    BlockPixel(matrix, letterSize, Span(a, letterSize), Span(b, letterSize), p, q);
    SpanIsProduct(p, letterSize);
    SpanIsProduct(a, letterSize);
    SpanIsProduct(b, letterSize);
  }

  /** Reads the block whose top-left pixel is in row letterRow and column
      letterCol, pixel row by pixel row, each pixel read as
      matrix[pixel column][pixel row] (the two inner loops of the reader). */
  method ReadLetter(matrix: seq<seq<int>>, letterSize: nat, letterRow: nat, letterCol: nat) returns (letter: seq<int>)
    requires IsSquare(matrix, |matrix|)
    requires letterRow + letterSize <= |matrix| && letterCol + letterSize <= |matrix|
    ensures letter == Flatten(BlockRows(matrix, letterSize, letterRow, letterCol))
  {
    ghost var rows := BlockRows(matrix, letterSize, letterRow, letterCol);
    letter := [];
    var pixelRow := letterRow;
    while pixelRow < letterRow + letterSize
      invariant letterRow <= pixelRow <= letterRow + letterSize
      invariant letter == Flatten(rows[..pixelRow - letterRow])
    {
      var pixelCol := letterCol;
      while pixelCol < letterCol + letterSize
        invariant letterCol <= pixelCol <= letterCol + letterSize
        invariant letter == Flatten(rows[..pixelRow - letterRow]) + rows[pixelRow - letterRow][..pixelCol - letterCol]
      {
        BlockRowsAt(matrix, letterSize, letterRow, letterCol, pixelRow - letterRow, pixelCol - letterCol);
        TakeSnoc(rows[pixelRow - letterRow], pixelCol - letterCol);
        AppendAssoc(Flatten(rows[..pixelRow - letterRow]), rows[pixelRow - letterRow][..pixelCol - letterCol], [matrix[pixelCol][pixelRow]]);
        letter := letter + [matrix[pixelCol][pixelRow]];
        pixelCol := pixelCol + 1;
      }
      BlockRowsAt(matrix, letterSize, letterRow, letterCol, pixelRow - letterRow, 0);
      TakeAll(rows[pixelRow - letterRow]);
      FlattenSnoc(rows, pixelRow - letterRow);
      pixelRow := pixelRow + 1;
    }
    TakeAll(rows);
  }

  /** Reads the pixel matrix into one list of pixel values per letter: letter
      rows outermost, then letter columns; each letter is read by ReadLetter. */
  method GetLettersFromImage(matrix: seq<seq<int>>, letterSize: nat) returns (letters: seq<seq<int>>)
    requires letterSize > 0 && IsSquare(matrix, |matrix|)
    requires Span(GridSize(|matrix|, letterSize), letterSize) == |matrix|
    ensures letters == ImageLetters(matrix, letterSize)
  {
    ghost var g := GridSize(|matrix|, letterSize);
    ghost var table := LetterTable(matrix, letterSize);
    LetterRowsLength(matrix, letterSize);
    letters := [];
    ghost var a: nat := 0;
    var letterRow := 0;
    while letterRow < |matrix|
      invariant a <= g && letterRow == Span(a, letterSize)
      invariant letters == Flatten(table[..a])
    {
      SpanLess(a, g, letterSize);
      ghost var done := letters;
      ghost var row := table[a];
      ghost var b: nat := 0;
      var letterCol := 0;
      while letterCol < |matrix[0]|
        invariant b <= g && letterCol == Span(b, letterSize)
        invariant letters == done + row[..b]
      {
        SpanLess(b, g, letterSize);
        TableAt(matrix, letterSize, a, b);
        var letter := ReadLetter(matrix, letterSize, letterRow, letterCol);
        assert letter == row[b];
        TakeSnoc(row, b);
        AppendAssoc(done, row[..b], [letter]);
        letters := letters + [letter];
        letterCol := letterCol + letterSize;
        b := b + 1;
      }
      SpanLess(b, g, letterSize);
      TakeAll(row);
      FlattenSnoc(table, a);
      letterRow := letterRow + letterSize;
      a := a + 1;
    }
    SpanLess(a, g, letterSize);
    TakeAll(table);
  }
}
