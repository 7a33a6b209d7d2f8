// The directional matcher: from a start cell, walk along a direction and
// count the letters of the word that the grid does not hold.

module Search {
  import opened Options
  import opened FoundWords

  /** The number of wrong letters a match may have before the search in that
      direction gives up. The matchers take the tolerance as a parameter; every
      solver passes this value. */
  const ErrorTolerance: nat := 3

  /** A unit step in the grid: dx moves along a row, dy along a column. */
  datatype Direction = Direction(dx: int, dy: int)

  /** Directions in the order the matcher tries them. */
  const HorizontalOrder: seq<Direction> := [Direction(1, 0), Direction(-1, 0)]
  const VerticalOrder: seq<Direction> := [Direction(0, 1), Direction(0, -1)]
  const DiagonalOrder: seq<Direction> :=
    [Direction(1, 1), Direction(-1, 1), Direction(1, -1), Direction(-1, -1)]

  /** A grid of letter codes: rows of equal length, indexed grid[row][column]. */
  predicate IsGrid(grid: seq<seq<int>>)
  {
    forall r :: 0 <= r < |grid| ==> |grid[r]| == |grid[0]|
  }

  function Width(grid: seq<seq<int>>): nat
  {
    if |grid| == 0 then 0 else |grid[0]|
  }

  /** Column cx, row cy lies on the grid. */
  predicate InGrid(grid: seq<seq<int>>, cx: int, cy: int)
  {
    0 <= cx < Width(grid) && 0 <= cy < |grid|
  }

  /** The i-th cell from (x, y) along d lies on the grid. */
  predicate StepOnGrid(grid: seq<seq<int>>, x: int, y: int, d: Direction, i: int)
  {
    InGrid(grid, x + i * d.dx, y + i * d.dy)
  }

  /** Every cell the matcher probes for a word of n letters (offsets 1 to n-1) is on the grid. */
  predicate PathOnGrid(grid: seq<seq<int>>, x: int, y: int, d: Direction, n: int)
  {
    forall i :: 1 <= i < n ==> StepOnGrid(grid, x, y, d, i)
  }

  /** The i-th cell along d does not hold the code of the word's i-th letter. */
  predicate Differs(grid: seq<seq<int>>, word: string, x: int, y: int, d: Direction, i: int)
    requires IsGrid(grid) && 0 <= i < |word| && StepOnGrid(grid, x, y, d, i)
  {
    grid[y + i * d.dy][x + i * d.dx] != LetterToInt(word[i])
  }

  /** The offsets 1 <= i < n at which the grid differs from the word (offset 0 is never compared). */
  function DefectSet(grid: seq<seq<int>>, word: string, x: int, y: int, d: Direction, n: int): set<int>
    requires IsGrid(grid) && (n <= |word| || n <= 1) && PathOnGrid(grid, x, y, d, n)
  {
    set i | 1 <= i < n && Differs(grid, word, x, y, d, i)
  }

  function Defects(grid: seq<seq<int>>, word: string, x: int, y: int, d: Direction, n: int): nat
    requires IsGrid(grid) && (n <= |word| || n <= 1) && PathOnGrid(grid, x, y, d, n)
  {
    |DefectSet(grid, word, x, y, d, n)|
  }

  /** One attempt along one direction: it succeeds, with its defect count,
      exactly when the whole path is on the grid and the defects stay within
      the tolerance. */
  function Attempt(grid: seq<seq<int>>, word: string, x: int, y: int, d: Direction, tolerance: nat): Option<nat>
    requires IsGrid(grid)
  {
    if PathOnGrid(grid, x, y, d, |word|) && Defects(grid, word, x, y, d, |word|) <= tolerance
    then Some(Defects(grid, word, x, y, d, |word|))
    else None
  }

  /** The record for a word found from (x, y) along d: its last letter is |word|-1 steps away. */
  function Placement(x: int, y: int, word: string, d: Direction, count: nat): FoundWord
  {
    NewFoundWord(x, y, x + (|word| - 1) * d.dx, y + (|word| - 1) * d.dy, word, count)
  }

  /** The first direction in `dirs` whose attempt succeeds gives the match;
      later directions are not consulted and defect counts are not compared. */
  function FirstSuccess(grid: seq<seq<int>>, word: string, x: int, y: int, dirs: seq<Direction>, tolerance: nat): Option<FoundWord>
    requires IsGrid(grid)
  {
    if dirs == [] then None
    else match Attempt(grid, word, x, y, dirs[0], tolerance)
      case Some(count) => Some(Placement(x, y, word, dirs[0], count))
      case None => FirstSuccess(grid, word, x, y, dirs[1..], tolerance)
  }

  // ---------------------------------------------------------------------------
  // Facts about a single attempt, used by the loops below.

  lemma DefectSetEmpty(grid: seq<seq<int>>, word: string, x: int, y: int, d: Direction, n: int)
    requires IsGrid(grid) && n <= 1
    ensures PathOnGrid(grid, x, y, d, n) && Defects(grid, word, x, y, d, n) == 0
  {
    assert DefectSet(grid, word, x, y, d, n) == {};
  }

  lemma DefectsStep(grid: seq<seq<int>>, word: string, x: int, y: int, d: Direction, n: int)
    requires IsGrid(grid) && 1 <= n < |word| && PathOnGrid(grid, x, y, d, n) && StepOnGrid(grid, x, y, d, n)
    ensures PathOnGrid(grid, x, y, d, n + 1)
    ensures Defects(grid, word, x, y, d, n + 1) ==
            Defects(grid, word, x, y, d, n) + (if Differs(grid, word, x, y, d, n) then 1 else 0)
  {
    var before := DefectSet(grid, word, x, y, d, n);
    var after := DefectSet(grid, word, x, y, d, n + 1);
    if Differs(grid, word, x, y, d, n) {
      assert after == before + {n};
    } else {
      assert after == before;
    }
  }

  lemma {:induction false} DefectsMonotone(grid: seq<seq<int>>, word: string, x: int, y: int, d: Direction, m: int, n: int)
    requires IsGrid(grid) && 1 <= m <= n <= |word| && PathOnGrid(grid, x, y, d, n)
    ensures Defects(grid, word, x, y, d, m) <= Defects(grid, word, x, y, d, n)
    decreases n - m
  {
    if m < n {
      DefectsMonotone(grid, word, x, y, d, m, n - 1);
      DefectsStep(grid, word, x, y, d, n - 1);
    }
  }

  /** Leaving the grid at an offset below |word| is fatal to the attempt. */
  lemma AttemptOffGrid(grid: seq<seq<int>>, word: string, x: int, y: int, d: Direction, tolerance: nat, i: int)
    requires IsGrid(grid) && 1 <= i < |word| && !StepOnGrid(grid, x, y, d, i)
    ensures Attempt(grid, word, x, y, d, tolerance) == None
  {
  }

  /** Going over the tolerance on a prefix of the path is fatal to the attempt. */
  lemma AttemptOverTolerance(grid: seq<seq<int>>, word: string, x: int, y: int, d: Direction, tolerance: nat, n: int)
    requires IsGrid(grid) && 1 <= n <= |word| && PathOnGrid(grid, x, y, d, n)
    requires Defects(grid, word, x, y, d, n) > tolerance
    ensures Attempt(grid, word, x, y, d, tolerance) == None
  {
    if PathOnGrid(grid, x, y, d, |word|) {
      DefectsMonotone(grid, word, x, y, d, n, |word|);
    }
  }

  /** A walk that reached the end of the word without leaving the grid or
      going over the tolerance is a successful attempt. */
  lemma AttemptSucceeds(grid: seq<seq<int>>, word: string, x: int, y: int, d: Direction, tolerance: nat, i: int)
    requires IsGrid(grid) && 1 <= i && (i <= |word| || i == 1) && i >= |word|
    requires PathOnGrid(grid, x, y, d, i) && Defects(grid, word, x, y, d, i) <= tolerance
    ensures Attempt(grid, word, x, y, d, tolerance) == Some(Defects(grid, word, x, y, d, i))
  {
    if |word| == 0 {
      DefectSetEmpty(grid, word, x, y, d, 0);
      DefectSetEmpty(grid, word, x, y, d, 1);
    }
  }

  // ---------------------------------------------------------------------------
  // First success wins.

  /** If every direction before k fails and the k-th succeeds, the k-th gives the match. */
  lemma {:induction false} FirstSuccessAt(grid: seq<seq<int>>, word: string, x: int, y: int, dirs: seq<Direction>, tolerance: nat, k: int)
    requires IsGrid(grid) && 0 <= k < |dirs|
    requires forall j :: 0 <= j < k ==> Attempt(grid, word, x, y, dirs[j], tolerance) == None
    requires Attempt(grid, word, x, y, dirs[k], tolerance).Some?
    ensures FirstSuccess(grid, word, x, y, dirs, tolerance) ==
            Some(Placement(x, y, word, dirs[k], Attempt(grid, word, x, y, dirs[k], tolerance).value))
  {
    if k > 0 {
      assert Attempt(grid, word, x, y, dirs[0], tolerance) == None;
      FirstSuccessAt(grid, word, x, y, dirs[1..], tolerance, k - 1);
    }
  }

  /** No match exactly when every direction attempt fails. */
  lemma {:induction false} FirstSuccessNone(grid: seq<seq<int>>, word: string, x: int, y: int, dirs: seq<Direction>, tolerance: nat)
    requires IsGrid(grid)
    ensures FirstSuccess(grid, word, x, y, dirs, tolerance) == None <==>
            forall j :: 0 <= j < |dirs| ==> Attempt(grid, word, x, y, dirs[j], tolerance) == None
  {
    if dirs != [] {
      FirstSuccessNone(grid, word, x, y, dirs[1..], tolerance);
      assert forall j :: 1 <= j < |dirs| ==> dirs[j] == dirs[1..][j - 1];
    }
  }

  /** A match comes from the first direction that succeeds: its path lies on
      the grid, its error count is the number of differing letters (never
      more than the tolerance), and its last letter is |word|-1 steps from
      the first. */
  lemma {:induction false} FirstSuccessMatch(grid: seq<seq<int>>, word: string, x: int, y: int, dirs: seq<Direction>, tolerance: nat)
    requires IsGrid(grid)
    requires FirstSuccess(grid, word, x, y, dirs, tolerance).Some?
    ensures exists k :: (0 <= k < |dirs| &&
      (forall j :: 0 <= j < k ==> Attempt(grid, word, x, y, dirs[j], tolerance) == None) &&
      PathOnGrid(grid, x, y, dirs[k], |word|) &&
      Defects(grid, word, x, y, dirs[k], |word|) <= tolerance &&
      FirstSuccess(grid, word, x, y, dirs, tolerance) ==
        Some(Placement(x, y, word, dirs[k], Defects(grid, word, x, y, dirs[k], |word|))))
  {
    if Attempt(grid, word, x, y, dirs[0], tolerance).Some? {
      assert PathOnGrid(grid, x, y, dirs[0], |word|);
    } else {
      FirstSuccessMatch(grid, word, x, y, dirs[1..], tolerance);
      var k :| 0 <= k < |dirs[1..]| &&
        (forall j :: 0 <= j < k ==> Attempt(grid, word, x, y, dirs[1..][j], tolerance) == None) &&
        PathOnGrid(grid, x, y, dirs[1..][k], |word|) &&
        Defects(grid, word, x, y, dirs[1..][k], |word|) <= tolerance &&
        FirstSuccess(grid, word, x, y, dirs[1..], tolerance) ==
          Some(Placement(x, y, word, dirs[1..][k], Defects(grid, word, x, y, dirs[1..][k], |word|)));
      assert forall j :: 0 <= j < k + 1 ==> Attempt(grid, word, x, y, dirs[j], tolerance) == None by {
        forall j | 0 <= j < k + 1 ensures Attempt(grid, word, x, y, dirs[j], tolerance) == None {
          if j > 0 { assert dirs[j] == dirs[1..][j - 1]; }
        }
      }
      assert dirs[k + 1] == dirs[1..][k];
    }
  }

  /** A one-letter word is always found where it starts, with no errors. */
  lemma OneLetterWord(grid: seq<seq<int>>, word: string, x: int, y: int, dirs: seq<Direction>, tolerance: nat)
    requires IsGrid(grid) && |word| == 1 && dirs != []
    ensures FirstSuccess(grid, word, x, y, dirs, tolerance) == Some(NewFoundWord(x, y, x, y, word, 0))
  {
    DefectSetEmpty(grid, word, x, y, dirs[0], 1);
  }

  /** A match is the placement of some direction of `dirs`, within the tolerance. */
  lemma {:induction false} MatchFromSome(grid: seq<seq<int>>, word: string, x: int, y: int, dirs: seq<Direction>, tolerance: nat)
    requires IsGrid(grid)
    ensures var r := FirstSuccess(grid, word, x, y, dirs, tolerance);
      r.Some? ==> r.value.errorCount <= tolerance &&
                  exists k :: 0 <= k < |dirs| && r.value == Placement(x, y, word, dirs[k], r.value.errorCount)
  {
    if dirs != [] && Attempt(grid, word, x, y, dirs[0], tolerance).None? {
      MatchFromSome(grid, word, x, y, dirs[1..], tolerance);
      var r := FirstSuccess(grid, word, x, y, dirs[1..], tolerance);
      if r.Some? {
        var k :| 0 <= k < |dirs[1..]| && r.value == Placement(x, y, word, dirs[1..][k], r.value.errorCount);
        assert dirs[k + 1] == dirs[1..][k];
      }
    }
  }

  /** The end points and bound of a horizontal match. */
  lemma HorizontalShape(grid: seq<seq<int>>, word: string, x: int, y: int, tolerance: nat)
    requires IsGrid(grid)
    ensures var r := FirstSuccess(grid, word, x, y, HorizontalOrder, tolerance);
      r.Some? ==> r.value.x1 == x && r.value.y1 == y && r.value.y2 == y && r.value.word == word &&
                  r.value.errorCount <= tolerance &&
                  (r.value.x2 == x + (|word| - 1) || r.value.x2 == x - (|word| - 1))
  {
    MatchFromSome(grid, word, x, y, HorizontalOrder, tolerance);
  }

  /** The end points and bound of a vertical match. */
  lemma VerticalShape(grid: seq<seq<int>>, word: string, x: int, y: int, tolerance: nat)
    requires IsGrid(grid)
    ensures var r := FirstSuccess(grid, word, x, y, VerticalOrder, tolerance);
      r.Some? ==> r.value.x1 == x && r.value.y1 == y && r.value.x2 == x && r.value.word == word &&
                  r.value.errorCount <= tolerance &&
                  (r.value.y2 == y + (|word| - 1) || r.value.y2 == y - (|word| - 1))
  {
    MatchFromSome(grid, word, x, y, VerticalOrder, tolerance);
  }

  /** The end points and bound of a diagonal match. */
  lemma DiagonalShape(grid: seq<seq<int>>, word: string, x: int, y: int, tolerance: nat)
    requires IsGrid(grid)
    ensures var r := FirstSuccess(grid, word, x, y, DiagonalOrder, tolerance);
      r.Some? ==> r.value.x1 == x && r.value.y1 == y && r.value.word == word &&
                  r.value.errorCount <= tolerance &&
                  (r.value.x2 == x + (|word| - 1) || r.value.x2 == x - (|word| - 1)) &&
                  (r.value.y2 == y + (|word| - 1) || r.value.y2 == y - (|word| - 1))
  {
    MatchFromSome(grid, word, x, y, DiagonalOrder, tolerance);
  }

  // ---------------------------------------------------------------------------
  // The walk along one direction (the innermost loop of each matcher): it
  // stops at the first cell off the grid, and as soon as the count of wrong
  // letters goes over the tolerance.

  /** The walk of the horizontal matcher: only the column can leave the grid. */
  method WalkRow(grid: seq<seq<int>>, word: string, x: int, y: int, direction: int, tolerance: nat)
    returns (found: bool, wrongCount: nat)
    requires IsGrid(grid) && InGrid(grid, x, y)
    ensures found == Attempt(grid, word, x, y, Direction(direction, 0), tolerance).Some?
    ensures found ==> Attempt(grid, word, x, y, Direction(direction, 0), tolerance) == Some(wrongCount)
  {
    ghost var d := Direction(direction, 0);
    found := true;
    wrongCount := 0;
    DefectSetEmpty(grid, word, x, y, d, 1);
    var i := 1;
    while i < |word|
      invariant 1 <= i && (i <= |word| || i == 1)
      invariant PathOnGrid(grid, x, y, d, i)
      invariant wrongCount == Defects(grid, word, x, y, d, i) <= tolerance
    {
      if x + (i * direction) >= |grid[0]| || x + (i * direction) < 0 {
        // off the grid
        AttemptOffGrid(grid, word, x, y, d, tolerance, i);
        found := false;
        return;
      }
      DefectsStep(grid, word, x, y, d, i);
      if grid[y][x + (i * direction)] != LetterToInt(word[i]) {
        wrongCount := wrongCount + 1;
        if wrongCount > tolerance {
          AttemptOverTolerance(grid, word, x, y, d, tolerance, i + 1);
          found := false;
          return;
        }
      }
      i := i + 1;
    }
    AttemptSucceeds(grid, word, x, y, d, tolerance, i);
  }

  /** The walk of the vertical matcher: only the row can leave the grid. */
  method WalkColumn(grid: seq<seq<int>>, word: string, x: int, y: int, direction: int, tolerance: nat)
    returns (found: bool, wrongCount: nat)
    requires IsGrid(grid) && InGrid(grid, x, y)
    ensures found == Attempt(grid, word, x, y, Direction(0, direction), tolerance).Some?
    ensures found ==> Attempt(grid, word, x, y, Direction(0, direction), tolerance) == Some(wrongCount)
  {
    ghost var d := Direction(0, direction);
    found := true;
    wrongCount := 0;
    DefectSetEmpty(grid, word, x, y, d, 1);
    var i := 1;
    while i < |word|
      invariant 1 <= i && (i <= |word| || i == 1)
      invariant PathOnGrid(grid, x, y, d, i)
      invariant wrongCount == Defects(grid, word, x, y, d, i) <= tolerance
    {
      if y + (i * direction) >= |grid| || y + (i * direction) < 0 {
        // off the grid
        AttemptOffGrid(grid, word, x, y, d, tolerance, i);
        found := false;
        return;
      }
      DefectsStep(grid, word, x, y, d, i);
      if grid[y + (i * direction)][x] != LetterToInt(word[i]) {
        wrongCount := wrongCount + 1;
        if wrongCount > tolerance {
          AttemptOverTolerance(grid, word, x, y, d, tolerance, i + 1);
          found := false;
          return;
        }
      }
      i := i + 1;
    }
    AttemptSucceeds(grid, word, x, y, d, tolerance, i);
  }

  /** The walk of the diagonal matcher: the row is checked first, then the column. */
  method WalkDiagonal(grid: seq<seq<int>>, word: string, x: int, y: int, directionX: int, directionY: int, tolerance: nat)
    returns (found: bool, wrongCount: nat)
    requires IsGrid(grid) && InGrid(grid, x, y)
    ensures found == Attempt(grid, word, x, y, Direction(directionX, directionY), tolerance).Some?
    ensures found ==> Attempt(grid, word, x, y, Direction(directionX, directionY), tolerance) == Some(wrongCount)
  {
    ghost var d := Direction(directionX, directionY);
    found := true;
    wrongCount := 0;
    DefectSetEmpty(grid, word, x, y, d, 1);
    var i := 1;
    while i < |word|
      invariant 1 <= i && (i <= |word| || i == 1)
      invariant PathOnGrid(grid, x, y, d, i)
      invariant wrongCount == Defects(grid, word, x, y, d, i) <= tolerance
    {
      if y + (i * directionY) >= |grid| || y + (i * directionY) < 0 {
        // off the grid
        AttemptOffGrid(grid, word, x, y, d, tolerance, i);
        found := false;
        return;
      }
      if x + (i * directionX) >= |grid[0]| || x + (i * directionX) < 0 {
        // off the grid
        AttemptOffGrid(grid, word, x, y, d, tolerance, i);
        found := false;
        return;
      }
      DefectsStep(grid, word, x, y, d, i);
      if grid[y + (i * directionY)][x + (i * directionX)] != LetterToInt(word[i]) {
        wrongCount := wrongCount + 1;
        if wrongCount > tolerance {
          AttemptOverTolerance(grid, word, x, y, d, tolerance, i + 1);
          found := false;
          return;
        }
      }
      i := i + 1;
    }
    AttemptSucceeds(grid, word, x, y, d, tolerance, i);
  }

  // ---------------------------------------------------------------------------
  // The three matchers: try the directions in order, keep the first success.

  /** Searches right, then left, from (x, y). */
  method LookHorizontal(grid: seq<seq<int>>, word: string, x: int, y: int, tolerance: nat) returns (r: Option<FoundWord>)
    requires IsGrid(grid) && InGrid(grid, x, y)
    ensures r == FirstSuccess(grid, word, x, y, HorizontalOrder, tolerance)
    ensures r.Some? ==> r.value.x1 == x && r.value.y1 == y && r.value.y2 == y && r.value.word == word
    ensures r.Some? ==> r.value.errorCount <= tolerance
    ensures r.Some? ==> r.value.x2 == x + (|word| - 1) || r.value.x2 == x - (|word| - 1)
  {
    var wrongCount := 0;
    var found := true;
    var foundDirection := 0;
    var directions := [1, -1];
    var k := 0;
    while k < |directions|
      invariant 0 <= k <= |directions|
      invariant forall j :: 0 <= j < k ==> Attempt(grid, word, x, y, HorizontalOrder[j], tolerance) == None
      invariant 0 < k ==> !found
    {
      var direction := directions[k];
      assert HorizontalOrder[k] == Direction(direction, 0);
      foundDirection := direction;
      found, wrongCount := WalkRow(grid, word, x, y, direction, tolerance);
      if found {
        FirstSuccessAt(grid, word, x, y, HorizontalOrder, tolerance, k);
        break;
      }
      k := k + 1;
    }

    if found {
      var lastX := x + ((|word| - 1) * foundDirection);
      r := Some(NewFoundWord(x, y, lastX, y, word, wrongCount));
    } else {
      FirstSuccessNone(grid, word, x, y, HorizontalOrder, tolerance);
      r := None;
    }
    HorizontalShape(grid, word, x, y, tolerance);
  }

  /** Searches down, then up, from (x, y). */
  method LookVertical(grid: seq<seq<int>>, word: string, x: int, y: int, tolerance: nat) returns (r: Option<FoundWord>)
    requires IsGrid(grid) && InGrid(grid, x, y)
    ensures r == FirstSuccess(grid, word, x, y, VerticalOrder, tolerance)
    ensures r.Some? ==> r.value.x1 == x && r.value.y1 == y && r.value.x2 == x && r.value.word == word
    ensures r.Some? ==> r.value.errorCount <= tolerance
    ensures r.Some? ==> r.value.y2 == y + (|word| - 1) || r.value.y2 == y - (|word| - 1)
  {
    var wrongCount := 0;
    var found := true;
    var foundDirection := 0;
    var directions := [1, -1];
    var k := 0;
    while k < |directions|
      invariant 0 <= k <= |directions|
      invariant forall j :: 0 <= j < k ==> Attempt(grid, word, x, y, VerticalOrder[j], tolerance) == None
      invariant 0 < k ==> !found
    {
      var direction := directions[k];
      assert VerticalOrder[k] == Direction(0, direction);
      foundDirection := direction;
      found, wrongCount := WalkColumn(grid, word, x, y, direction, tolerance);
      if found {
        FirstSuccessAt(grid, word, x, y, VerticalOrder, tolerance, k);
        break;
      }
      k := k + 1;
    }

    if found {
      var lastY := y + ((|word| - 1) * foundDirection);
      r := Some(NewFoundWord(x, y, x, lastY, word, wrongCount));
    } else {
      FirstSuccessNone(grid, word, x, y, VerticalOrder, tolerance);
      r := None;
    }
    VerticalShape(grid, word, x, y, tolerance);
  }

  /** Searches the four diagonals from (x, y): down before up, and within
      each, right before left. */
  method LookDiagonal(grid: seq<seq<int>>, word: string, x: int, y: int, tolerance: nat) returns (r: Option<FoundWord>)
    requires IsGrid(grid) && InGrid(grid, x, y)
    ensures r == FirstSuccess(grid, word, x, y, DiagonalOrder, tolerance)
    ensures r.Some? ==> r.value.x1 == x && r.value.y1 == y && r.value.word == word
    ensures r.Some? ==> r.value.errorCount <= tolerance
    ensures r.Some? ==> (r.value.x2 == x + (|word| - 1) || r.value.x2 == x - (|word| - 1)) &&
                        (r.value.y2 == y + (|word| - 1) || r.value.y2 == y - (|word| - 1))
  {
    var wrongCount := 0;
    var found := true;
    var foundDirectionX := 0;
    var foundDirectionY := 0;
    var directions := [1, -1];
    var a := 0;
    while a < |directions|
      invariant 0 <= a <= |directions|
      invariant forall j :: 0 <= j < 2 * a ==> Attempt(grid, word, x, y, DiagonalOrder[j], tolerance) == None
      invariant 0 < a ==> !found
    {
      var directionY := directions[a];
      foundDirectionY := directionY;
      var b := 0;
      while b < |directions|
        invariant 0 <= b <= |directions|
        invariant foundDirectionY == directionY
        invariant forall j :: 0 <= j < 2 * a + b ==> Attempt(grid, word, x, y, DiagonalOrder[j], tolerance) == None
        invariant 0 < b ==> !found
      {
        var directionX := directions[b];
        assert DiagonalOrder[2 * a + b] == Direction(directionX, directionY);
        foundDirectionX := directionX;
        found, wrongCount := WalkDiagonal(grid, word, x, y, directionX, directionY, tolerance);
        if found {
          FirstSuccessAt(grid, word, x, y, DiagonalOrder, tolerance, 2 * a + b);
          break;
        }
        b := b + 1;
      }
      if found {
        break;
      }
      a := a + 1;
    }

    if found {
      var lastX := x + ((|word| - 1) * foundDirectionX);
      var lastY := y + ((|word| - 1) * foundDirectionY);
      r := Some(NewFoundWord(x, y, lastX, lastY, word, wrongCount));
    } else {
      FirstSuccessNone(grid, word, x, y, DiagonalOrder, tolerance);
      r := None;
    }
    DiagonalShape(grid, word, x, y, tolerance);
  }
}
