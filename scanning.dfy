// Searching the grid for one word: the scan over the start cells, the sweep
// that the two loops of the solver perform cell by cell, and the additions of
// a whole word list.

module Scanning {
  import opened Options
  import opened FoundWords
  import opened Search
  import opened Image
  import opened Cells
  import opened Points
  import opened SeqFacts

  datatype ScanState = ScanState(added: seq<FoundWord>, found: bool)

  /** What each start cell appends when it is tried: table[y][x] for cell (x, y). */
  type Table = seq<seq<seq<FoundWord>>>

  /** The table of what the matchers append from every cell of the grid. The
      scan reads the cells' results from a table, so what is proved about the
      order of the scan holds whatever the matchers find. */
  function ResultTable(grid: seq<seq<int>>, word: string, tolerance: nat): Table
    requires IsGrid(grid)
  {
    seq(|grid|, y requires 0 <= y < |grid| =>
      seq(|grid[y]|, x requires 0 <= x < |grid[y]| => PointResults(grid, word, x, y, tolerance)))
  }

  /** The results of cell c; a cell off the table has none. */
  function At(table: Table, c: Cell): seq<FoundWord>
  {
    if 0 <= c.y < |table| && 0 <= c.x < |table[c.y]| then table[c.y][c.x] else []
  }

  lemma ResultTableAt(grid: seq<seq<int>>, word: string, tolerance: nat, x: int, y: int)
    requires IsGrid(grid)
    ensures At(ResultTable(grid, word, tolerance), Cell(x, y)) ==
      if InGrid(grid, x, y) then PointResults(grid, word, x, y, tolerance) else []
  {
  }

  /** Every entry of every cell starts at that cell, is for the word and is
      within the tolerance. */
  ghost predicate EntriesStart(table: Table, word: string, tolerance: nat)
  {
    forall c: Cell, e :: e in At(table, c) ==>
      e.x1 == c.x && e.y1 == c.y && e.word == word && e.errorCount <= tolerance
  }

  lemma ResultTableEntries(grid: seq<seq<int>>, word: string, tolerance: nat)
    requires IsGrid(grid)
    ensures EntriesStart(ResultTable(grid, word, tolerance), word, tolerance)
  {
    forall c: Cell, e | e in At(ResultTable(grid, word, tolerance), c)
      ensures e.x1 == c.x && e.y1 == c.y && e.word == word && e.errorCount <= tolerance
    {
      CellEntries(grid, word, tolerance, c, e);
    }
  }

  lemma CellEntries(grid: seq<seq<int>>, word: string, tolerance: nat, c: Cell, e: FoundWord)
    requires IsGrid(grid) && e in At(ResultTable(grid, word, tolerance), c)
    ensures e.x1 == c.x && e.y1 == c.y && e.word == word && e.errorCount <= tolerance
  {
    ResultTableAt(grid, word, tolerance, c.x, c.y);
    PointResultsEntries(grid, word, c.x, c.y, tolerance);
  }

  /** The scanner over a list of start cells: it tries them in order, each
      appending its results, and stops after the first that reports success. */
  function Scan(table: Table, cells: seq<Cell>): ScanState
  {
    if cells == [] then ScanState([], false)
    else
      var s := Scan(table, cells[..|cells| - 1]);
      if s.found then s
      else
        var r := At(table, cells[|cells| - 1]);
        ScanState(s.added + r, PointFound(r))
  }

  /** Everything the cells would append if the scan never stopped early. */
  function AllResults(table: Table, cells: seq<Cell>): seq<FoundWord>
  {
    if cells == [] then []
    else AllResults(table, cells[..|cells| - 1]) + At(table, cells[|cells| - 1])
  }

  /** Once a cell has reported success, later cells change nothing. */
  lemma {:induction false} ScanStops(table: Table, cells: seq<Cell>, more: seq<Cell>)
    requires cells <= more && Scan(table, cells).found
    ensures Scan(table, more) == Scan(table, cells)
  {
    if |more| > |cells| {
      assert cells <= more[..|more| - 1];
      ScanStops(table, cells, more[..|more| - 1]);
    } else {
      assert more == cells;
    }
  }

  /** When none of the first n cells reports success, each of them is tried
      and appends all it finds. */
  lemma {:induction false} ScanNoneFound(table: Table, cells: seq<Cell>, n: nat)
    requires n <= |cells|
    requires forall i :: 0 <= i < n ==> !PointFound(At(table, cells[i]))
    ensures Scan(table, cells[..n]) == ScanState(AllResults(table, cells[..n]), false)
  {
    if n > 0 {
      ScanNoneFound(table, cells, n - 1);
      assert cells[..n][..n - 1] == cells[..n - 1];
      assert cells[..n][n - 1] == cells[n - 1];
    }
  }

  /** The scan stops at the first cell that reports success, having appended
      the results of every cell up to and including it. */
  lemma ScanFirstFound(table: Table, cells: seq<Cell>, k: nat)
    requires k < |cells|
    requires forall i :: 0 <= i < k ==> !PointFound(At(table, cells[i]))
    requires PointFound(At(table, cells[k]))
    ensures Scan(table, cells) == ScanState(AllResults(table, cells[..k + 1]), true)
  {
    ScanNoneFound(table, cells, k);
    var upTo := cells[..k + 1];
    assert upTo[..k] == cells[..k] && upTo[k] == cells[k];
    var r := At(table, cells[k]);
    assert Scan(table, upTo) == ScanState(Scan(table, cells[..k]).added + r, true);
    assert AllResults(table, upTo) == AllResults(table, cells[..k]) + r;
    ScanStops(table, upTo, cells);
  }

  /** Every entry the scan appends starts at one of the cells, is for the word
      searched and is within the tolerance. */
  lemma {:induction false} ScanEntries(table: Table, word: string, tolerance: nat, cells: seq<Cell>)
    requires EntriesStart(table, word, tolerance)
    ensures forall e :: e in Scan(table, cells).added ==>
      Cell(e.x1, e.y1) in cells && e.word == word && e.errorCount <= tolerance
  {
    if cells != [] {
      var p := cells[..|cells| - 1];
      var c := cells[|cells| - 1];
      ScanEntries(table, word, tolerance, p);
      assert forall d :: d in p ==> d in cells;
      forall e | e in At(table, c) ensures Cell(e.x1, e.y1) in cells {
        assert Cell(e.x1, e.y1) == c;
      }
    }
  }

  // ---------------------------------------------------------------------------
  // The sweep: the scan as the two loops perform it, cell by cell.

  /** Cell (x, y) during the sweep: tried when nothing has reported success
      yet and it holds the first letter's code. */
  function TryCell(grid: seq<seq<int>>, table: Table, code: int, s: ScanState, x: nat, y: nat): ScanState
    requires IsGrid(grid) && InGrid(grid, x, y)
  {
    if s.found || grid[y][x] != code then s
    else
      var r := At(table, Cell(x, y));
      ScanState(s.added + r, PointFound(r))
  }

  /** The state of the sweep when it reaches cell (x, y): every earlier row,
      then the cells of row y left of x. Row |grid| with x = 0 is the end. */
  function Swept(grid: seq<seq<int>>, table: Table, code: int, y: nat, x: nat): ScanState
    requires IsSquare(grid, |grid|) && y <= |grid| && x <= |grid| && (y == |grid| ==> x == 0)
    decreases y, x
  {
    if x > 0 then TryCell(grid, table, code, Swept(grid, table, code, y, x - 1), x - 1, y)
    else if y > 0 then Swept(grid, table, code, y - 1, |grid|)
    else ScanState([], false)
  }

  /** Trying one more cell is the scan over one more candidate when the cell
      holds the code, and changes nothing otherwise. */
  lemma ScanTry(grid: seq<seq<int>>, table: Table, code: int, cells: seq<Cell>, x: nat, y: nat)
    requires IsGrid(grid) && InGrid(grid, x, y)
    ensures Scan(table, cells + (if grid[y][x] == code then [Cell(x, y)] else [])) ==
            TryCell(grid, table, code, Scan(table, cells), x, y)
  {
    if grid[y][x] == code {
      assert (cells + [Cell(x, y)])[..|cells|] == cells;
    } else {
      assert cells + [] == cells;
    }
  }

  /** One more cell of the sweep is one more step of the scan over the candidates. */
  lemma SweptStep(grid: seq<seq<int>>, table: Table, code: int, y: nat, x: nat,
                  base: seq<Cell>, row: seq<Cell>, whole: seq<Cell>)
    requires IsSquare(grid, |grid|) && y < |grid| && 0 < x <= |grid|
    requires whole == row + (if grid[y][x - 1] == code then [Cell(x - 1, y)] else [])
    requires Swept(grid, table, code, y, x - 1) == Scan(table, base + row)
    ensures Swept(grid, table, code, y, x) == Scan(table, base + whole)
  {
    AppendAssoc(base, row, if grid[y][x - 1] == code then [Cell(x - 1, y)] else []);
    ScanTry(grid, table, code, base + row, x - 1, y);
  }

  /** Along row y, the sweep is the scan over the candidates before the row
      followed by those of the row left of x. */
  lemma {:induction false} SweptRow(grid: seq<seq<int>>, table: Table, code: int, y: nat, x: nat, base: seq<Cell>)
    requires IsSquare(grid, |grid|) && y < |grid| && x <= |grid|
    requires Swept(grid, table, code, y, 0) == Scan(table, base)
    ensures Swept(grid, table, code, y, x) == Scan(table, base + RowCandidates(grid, code, y, x))
  {
    if x > 0 {
      SweptRow(grid, table, code, y, x - 1, base);
      RowCandidatesUnfold(grid, code, y, x);
      SweptStep(grid, table, code, y, x, base, RowCandidates(grid, code, y, x - 1), RowCandidates(grid, code, y, x));
    } else {
      AppendEmpty(base, RowCandidates(grid, code, y, 0));
    }
  }

  /** At the start of each row, the sweep is the scan over the candidate
      cells of the rows before it. */
  lemma {:induction false} SweptRows(grid: seq<seq<int>>, table: Table, code: int, y: nat)
    requires IsSquare(grid, |grid|) && y <= |grid|
    ensures Swept(grid, table, code, y, 0) == Scan(table, Candidates(grid, code, y))
  {
    if y > 0 {
      SweptRows(grid, table, code, y - 1);
      SweptNextRow(grid, table, code, y);
    }
  }

  /** A whole row of the sweep is the scan over the row's candidates. */
  lemma SweptNextRow(grid: seq<seq<int>>, table: Table, code: int, y: nat)
    requires IsSquare(grid, |grid|) && 0 < y <= |grid|
    requires Swept(grid, table, code, y - 1, 0) == Scan(table, Candidates(grid, code, y - 1))
    ensures Swept(grid, table, code, y, 0) == Scan(table, Candidates(grid, code, y))
  {
    SweptRow(grid, table, code, y - 1, |grid|, Candidates(grid, code, y - 1));
  }

  /** Once a cell has reported success, the rest of the sweep changes nothing. */
  lemma {:induction false} SweptStops(grid: seq<seq<int>>, table: Table, code: int, y: nat, x: nat, y': nat, x': nat)
    requires IsSquare(grid, |grid|) && y <= |grid| && x <= |grid| && (y == |grid| ==> x == 0)
    requires y' <= |grid| && x' <= |grid| && (y' == |grid| ==> x' == 0)
    requires y < y' || (y == y' && x <= x')
    requires Swept(grid, table, code, y, x).found
    ensures Swept(grid, table, code, y', x') == Swept(grid, table, code, y, x)
    decreases y', x'
  {
    if y' == y && x' == x {
    } else if x' > 0 {
      SweptStops(grid, table, code, y, x, y', x' - 1);
    } else {
      SweptStops(grid, table, code, y, x, y' - 1, |grid|);
    }
  }

  /** A cell holding the code, reached before anything reported success, is tried. */
  lemma SweptTried(grid: seq<seq<int>>, table: Table, code: int, y: nat, x: nat)
    requires IsSquare(grid, |grid|) && y < |grid| && x < |grid| && grid[y][x] == code
    requires !Swept(grid, table, code, y, x).found
    ensures Swept(grid, table, code, y, x + 1) ==
      ScanState(Swept(grid, table, code, y, x).added + At(table, Cell(x, y)), PointFound(At(table, Cell(x, y))))
  {
  }

  /** A start cell of the word, reached before anything reported success,
      adds what the matchers find from it (after whatever `start` holds) and
      reports their success; when it succeeds, the search for the word ends
      with what it has added so far. */
  lemma SweptPoint(grid: seq<seq<int>>, word: string, tolerance: nat, y: nat, x: nat, start: seq<FoundWord>)
    requires IsSquare(grid, |grid|) && y < |grid| && x < |grid| && grid[y][x] == FirstCode(word)
    requires !Swept(grid, ResultTable(grid, word, tolerance), FirstCode(word), y, x).found
    ensures Swept(grid, ResultTable(grid, word, tolerance), FirstCode(word), y, x + 1).found ==
      PointFound(PointResults(grid, word, x, y, tolerance))
    ensures start + Swept(grid, ResultTable(grid, word, tolerance), FirstCode(word), y, x + 1).added ==
      start + Swept(grid, ResultTable(grid, word, tolerance), FirstCode(word), y, x).added + PointResults(grid, word, x, y, tolerance)
    ensures PointFound(PointResults(grid, word, x, y, tolerance)) ==>
      FindAdded(grid, word, tolerance) == Swept(grid, ResultTable(grid, word, tolerance), FirstCode(word), y, x + 1).added
  {
    var table := ResultTable(grid, word, tolerance);
    var r := PointResults(grid, word, x, y, tolerance);
    ResultTableAt(grid, word, tolerance, x, y);
    SweptTried(grid, table, FirstCode(word), y, x);
    AppendAssoc(start, Swept(grid, table, FirstCode(word), y, x).added, r);
    if PointFound(r) {
      SweptStops(grid, table, FirstCode(word), y, x + 1, |grid|, 0);
    }
  }

  /** A cell not holding the code is passed over. */
  lemma SweptSkipped(grid: seq<seq<int>>, table: Table, code: int, y: nat, x: nat)
    requires IsSquare(grid, |grid|) && y < |grid| && x < |grid| && grid[y][x] != code
    ensures Swept(grid, table, code, y, x + 1) == Swept(grid, table, code, y, x)
  {
  }

  // ---------------------------------------------------------------------------
  // Searching for whole words.

  /** The code of the word's first letter (0 for the empty word, which is
      only ever searched for in an empty grid). */
  function FirstCode(word: string): int
  {
    if |word| > 0 then LetterToInt(word[0]) else 0
  }

  /** What searching the whole grid for one word appends: the sweep over
      every cell, trying those that hold the first letter. */
  function FindAdded(grid: seq<seq<int>>, word: string, tolerance: nat): seq<FoundWord>
    requires IsSquare(grid, |grid|)
  {
    Swept(grid, ResultTable(grid, word, tolerance), FirstCode(word), |grid|, 0).added
  }

  /** Searching for a word appends what the scan over the cells holding its
      first letter appends, those cells taken row by row, each row left to right. */
  lemma FindAddedScan(grid: seq<seq<int>>, word: string, tolerance: nat)
    requires IsSquare(grid, |grid|)
    ensures FindAdded(grid, word, tolerance) ==
      Scan(ResultTable(grid, word, tolerance), Candidates(grid, FirstCode(word), |grid|)).added
    ensures RowMajor(Candidates(grid, FirstCode(word), |grid|))
  {
    SweptRows(grid, ResultTable(grid, word, tolerance), FirstCode(word), |grid|);
    CandidatesOrdered(grid, FirstCode(word), |grid|);
  }

  /** Every entry appended for a word starts at a grid cell holding the
      word's first letter, is for that word and is within the tolerance. */
  lemma FindAddedEntries(grid: seq<seq<int>>, word: string, tolerance: nat)
    requires IsSquare(grid, |grid|) && (|grid| > 0 ==> |word| > 0)
    ensures forall e :: e in FindAdded(grid, word, tolerance) ==>
      0 <= e.y1 < |grid| && 0 <= e.x1 < |grid| && grid[e.y1][e.x1] == LetterToInt(word[0]) &&
      e.word == word && e.errorCount <= tolerance
  {
    if |grid| > 0 {
      var code := LetterToInt(word[0]);
      var table := ResultTable(grid, word, tolerance);
      var cells := Candidates(grid, code, |grid|);
      SweptRows(grid, table, code, |grid|);
      ResultTableEntries(grid, word, tolerance);
      ScanEntries(table, word, tolerance, cells);
      forall e | e in FindAdded(grid, word, tolerance)
        ensures 0 <= e.y1 < |grid| && 0 <= e.x1 < |grid| && grid[e.y1][e.x1] == code
      {
        CandidatesSound(grid, code, |grid|, Cell(e.x1, e.y1));
      }
    }
  }

  /** ASCII upper case: 'a'..'z' become 'A'..'Z', every other character is kept. */
  function UpperChar(c: char): (u: char)
    ensures 'a' <= c <= 'z' ==> 'A' <= u <= 'Z' && u as int == c as int - 32
    ensures !('a' <= c <= 'z') ==> u == c
  {
    if 'a' <= c <= 'z' then (c as int - 32) as char else c
  }

  function Upper(w: string): (u: string)
    ensures |u| == |w|
    ensures forall i :: 0 <= i < |w| ==> u[i] == UpperChar(w[i])
  {
    if w == [] then [] else [UpperChar(w[0])] + Upper(w[1..])
  }

  /** Upper case leaves no lower-case ASCII letter, so applying it twice is applying it once. */
  lemma UpperIdempotent(w: string)
    ensures forall i :: 0 <= i < |w| ==> !('a' <= Upper(w)[i] <= 'z')
    ensures Upper(Upper(w)) == Upper(w)
  {
  }

  /** What solving appends: the words' additions, word after word in list order,
      each word searched in upper case. */
  function SolveAdded(grid: seq<seq<int>>, words: seq<string>, tolerance: nat): seq<FoundWord>
    requires IsSquare(grid, |grid|) && (|grid| > 0 ==> forall i :: 0 <= i < |words| ==> |words[i]| > 0)
  {
    if words == [] then []
    else SolveAdded(grid, words[..|words| - 1], tolerance) + FindAdded(grid, Upper(words[|words| - 1]), tolerance)
  }

  /** Every entry solving appends is for one of the words, upper-cased, and
      within the tolerance. */
  lemma {:induction false} SolveAddedEntries(grid: seq<seq<int>>, words: seq<string>, tolerance: nat)
    requires IsSquare(grid, |grid|) && (|grid| > 0 ==> forall i :: 0 <= i < |words| ==> |words[i]| > 0)
    ensures forall e :: e in SolveAdded(grid, words, tolerance) ==>
      e.errorCount <= tolerance && exists i :: 0 <= i < |words| && e.word == Upper(words[i])
  {
    if words != [] {
      var p := words[..|words| - 1];
      SolveAddedEntries(grid, p, tolerance);
      FindAddedEntries(grid, Upper(words[|words| - 1]), tolerance);
      forall e | e in SolveAdded(grid, words, tolerance)
        ensures exists i :: 0 <= i < |words| && e.word == Upper(words[i])
      {
        if e in SolveAdded(grid, p, tolerance) {
          var i :| 0 <= i < |p| && e.word == Upper(p[i]);
          assert p[i] == words[i];
        } else {
          assert e.word == Upper(words[|words| - 1]);
        }
      }
    }
  }
}
