// The start cells the scanner tries for a word: the grid cells holding the
// code of the word's first letter, in row-by-row order.

module Cells {
  import opened Image
  import opened SeqFacts

  /** A grid cell: column x, row y. */
  datatype Cell = Cell(x: int, y: int)

  /** The cells (x', y) with x' < x holding `code`, left to right. */
  function RowCandidates(grid: seq<seq<int>>, code: int, y: nat, x: nat): seq<Cell>
    requires IsSquare(grid, |grid|) && y < |grid| && x <= |grid|
  {
    if x == 0 then []
    else RowCandidates(grid, code, y, x - 1) + (if grid[y][x - 1] == code then [Cell(x - 1, y)] else [])
  }

  /** The cells of the rows before y holding `code`, row by row, each row left to right. */
  function Candidates(grid: seq<seq<int>>, code: int, y: nat): seq<Cell>
    requires IsSquare(grid, |grid|) && y <= |grid|
  {
    if y == 0 then [] else Candidates(grid, code, y - 1) + RowCandidates(grid, code, y - 1, |grid|)
  }

  /** Cell a comes before cell b in a row-by-row scan. */
  predicate RowMajorBefore(a: Cell, b: Cell)
  {
    a.y < b.y || (a.y == b.y && a.x < b.x)
  }

  lemma RowCandidatesUnfold(grid: seq<seq<int>>, code: int, y: nat, x: nat)
    requires IsSquare(grid, |grid|) && y < |grid| && 0 < x <= |grid|
    ensures RowCandidates(grid, code, y, x) ==
      RowCandidates(grid, code, y, x - 1) + (if grid[y][x - 1] == code then [Cell(x - 1, y)] else [])
  {
  }

  /** Cell c lies on the grid and holds `code`. */
  predicate Holds(grid: seq<seq<int>>, code: int, c: Cell)
  {
    0 <= c.y < |grid| && 0 <= c.x < |grid[c.y]| && grid[c.y][c.x] == code
  }

  lemma {:induction false} RowCandidatesMember(grid: seq<seq<int>>, code: int, y: nat, x: nat, c: Cell)
    requires IsSquare(grid, |grid|) && y < |grid| && x <= |grid|
    ensures c in RowCandidates(grid, code, y, x) <==> c.y == y && 0 <= c.x < x && Holds(grid, code, c)
  {
    if x > 0 {
      RowCandidatesMember(grid, code, y, x - 1, c);
    }
  }

  /** Every cell the scanner tries holds `code`. */
  lemma {:induction false} CandidatesSound(grid: seq<seq<int>>, code: int, y: nat, c: Cell)
    requires IsSquare(grid, |grid|) && y <= |grid|
    ensures c in Candidates(grid, code, y) ==> 0 <= c.y < y && 0 <= c.x < |grid| && Holds(grid, code, c)
  {
    if y > 0 {
      CandidatesSound(grid, code, y - 1, c);
      RowCandidatesMember(grid, code, y - 1, |grid|, c);
      InSplit(c, Candidates(grid, code, y - 1), RowCandidates(grid, code, y - 1, |grid|), Candidates(grid, code, y));
    }
  }

  /** The scanner tries every cell of the rows before y that holds `code`. */
  lemma {:induction false} CandidatesComplete(grid: seq<seq<int>>, code: int, y: nat, c: Cell)
    requires IsSquare(grid, |grid|) && y <= |grid|
    requires 0 <= c.y < y && 0 <= c.x < |grid| && Holds(grid, code, c)
    ensures c in Candidates(grid, code, y)
  {
    if c.y < y - 1 {
      CandidatesComplete(grid, code, y - 1, c);
      InSplit(c, Candidates(grid, code, y - 1), RowCandidates(grid, code, y - 1, |grid|), Candidates(grid, code, y));
    } else {
      RowCandidatesMember(grid, code, y - 1, |grid|, c);
      InSplit(c, Candidates(grid, code, y - 1), RowCandidates(grid, code, y - 1, |grid|), Candidates(grid, code, y));
    }
  }

  /** The cells of s come row by row, each row left to right. */
  predicate RowMajor(s: seq<Cell>)
  {
    forall i, j :: 0 <= i < j < |s| ==> RowMajorBefore(s[i], s[j])
  }

  lemma {:induction false} RowCandidatesOrdered(grid: seq<seq<int>>, code: int, y: nat, x: nat)
    requires IsSquare(grid, |grid|) && y < |grid| && x <= |grid|
    ensures RowMajor(RowCandidates(grid, code, y, x))
  {
    if x > 0 {
      RowCandidatesOrdered(grid, code, y, x - 1);
      var p := RowCandidates(grid, code, y, x - 1);
      var r := RowCandidates(grid, code, y, x);
      forall i | 0 <= i < |p| ensures p[i].y == y && p[i].x < x - 1 {
        RowCandidatesMember(grid, code, y, x - 1, p[i]);
      }
      forall i, j | 0 <= i < j < |r| ensures RowMajorBefore(r[i], r[j]) {
        assert r[i] == p[i];
        if j < |p| {
          assert r[j] == p[j];
        } else {
          assert r[j] == Cell(x - 1, y);
        }
      }
    }
  }

  lemma CandidatesAbove(grid: seq<seq<int>>, code: int, y: nat)
    requires IsSquare(grid, |grid|) && y <= |grid|
    ensures forall i :: 0 <= i < |Candidates(grid, code, y)| ==> Candidates(grid, code, y)[i].y < y
  {
    var s := Candidates(grid, code, y);
    forall i | 0 <= i < |s| ensures s[i].y < y {
      CandidatesSound(grid, code, y, s[i]);
    }
  }

  lemma RowCandidatesOnRow(grid: seq<seq<int>>, code: int, y: nat)
    requires IsSquare(grid, |grid|) && y < |grid|
    ensures forall i :: 0 <= i < |RowCandidates(grid, code, y, |grid|)| ==> RowCandidates(grid, code, y, |grid|)[i].y == y
  {
    var s := RowCandidates(grid, code, y, |grid|);
    forall i | 0 <= i < |s| ensures s[i].y == y {
      RowCandidatesMember(grid, code, y, |grid|, s[i]);
    }
  }

  /** Two row-major runs, the first wholly above row `row` and the second on it, join into one. */
  lemma RowMajorAppend(p: seq<Cell>, q: seq<Cell>, row: int)
    requires RowMajor(p) && RowMajor(q)
    requires forall i :: 0 <= i < |p| ==> p[i].y < row
    requires forall i :: 0 <= i < |q| ==> q[i].y == row
    ensures RowMajor(p + q)
  {
    var r := p + q;
    forall i, j | 0 <= i < j < |r| ensures RowMajorBefore(r[i], r[j]) {
      if j < |p| {
        assert r[i] == p[i] && r[j] == p[j];
      } else if i >= |p| {
        assert r[i] == q[i - |p|] && r[j] == q[j - |p|];
      } else {
        assert r[i] == p[i] && r[j] == q[j - |p|];
      }
    }
  }

  /** The scanner visits the candidate cells row by row, each row left to right. */
  lemma {:induction false} CandidatesOrdered(grid: seq<seq<int>>, code: int, y: nat)
    requires IsSquare(grid, |grid|) && y <= |grid|
    ensures RowMajor(Candidates(grid, code, y))
  {
    if y > 0 {
      CandidatesOrdered(grid, code, y - 1);
      RowCandidatesOrdered(grid, code, y - 1, |grid|);
      var p := Candidates(grid, code, y - 1);
      var q := RowCandidates(grid, code, y - 1, |grid|);
      CandidatesAbove(grid, code, y - 1);
      RowCandidatesOnRow(grid, code, y - 1);
      RowMajorAppend(p, q, y - 1);
      assert Candidates(grid, code, y) == p + q;
    }
  }
}
