// One start cell: the matchers consulted horizontal, then vertical, then
// diagonal, and what the cell appends to the found words.

module Points {
  import opened Options
  import opened FoundWords
  import opened Search

  /** A matcher result with no wrong letters. */
  predicate Exact(r: Option<FoundWord>)
  {
    r.Some? && r.value.errorCount == 0
  }

  /** The value of an optional result, as a list of zero or one entries. */
  function Present(o: Option<FoundWord>): seq<FoundWord>
  {
    if o.Some? then [o.value] else []
  }

  /** The values present in a list of optional results, in order. */
  function Somes(s: seq<Option<FoundWord>>): (r: seq<FoundWord>)
    ensures |r| <= |s|
  {
    if s == [] then [] else Somes(s[..|s| - 1]) + Present(s[|s| - 1])
  }

  lemma SomesThree(a: Option<FoundWord>, b: Option<FoundWord>, c: Option<FoundWord>)
    ensures Somes([a, b, c]) == Present(a) + Present(b) + Present(c)
  {
    assert [a][..0] == [];
    assert Somes([a]) == Present(a);
    assert [a, b][..1] == [a];
    assert Somes([a, b]) == Present(a) + Present(b);
    assert [a, b, c][..2] == [a, b];
    assert Somes([a, b, c]) == Somes([a, b]) + Present(c);
  }

  lemma {:induction false} SomesMember(s: seq<Option<FoundWord>>, e: FoundWord)
    ensures e in Somes(s) <==> Some(e) in s
  {
    if s != [] {
      SomesMember(s[..|s| - 1], e);
      assert s == s[..|s| - 1] + [s[|s| - 1]];
    }
  }

  /** The three matcher results from (x, y) in the order horizontal, vertical,
      diagonal. Vertical is consulted only when horizontal gave no exact match,
      diagonal only when vertical gave none either; a matcher not consulted
      leaves None. */
  function PointProbes(grid: seq<seq<int>>, word: string, x: int, y: int, tolerance: nat): seq<Option<FoundWord>>
    requires IsGrid(grid)
  {
    var h := FirstSuccess(grid, word, x, y, HorizontalOrder, tolerance);
    if Exact(h) then [h, None, None]
    else
      var v := FirstSuccess(grid, word, x, y, VerticalOrder, tolerance);
      if Exact(v) then [h, v, None]
      else [h, v, FirstSuccess(grid, word, x, y, DiagonalOrder, tolerance)]
  }

  /** What a start cell appends to the found words. */
  function PointResults(grid: seq<seq<int>>, word: string, x: int, y: int, tolerance: nat): seq<FoundWord>
    requires IsGrid(grid)
  {
    Somes(PointProbes(grid, word, x, y, tolerance))
  }

  /** A start cell reports success: it appended something, and nothing it
      appended has a wrong letter. */
  predicate PointFound(added: seq<FoundWord>)
  {
    |added| > 0 && forall e :: e in added ==> e.errorCount == 0
  }

  /** Some result in the list is exact. */
  predicate AnyExact(s: seq<Option<FoundWord>>)
  {
    exists j :: 0 <= j < |s| && Exact(s[j])
  }

  /** None of the first k results has a wrong letter. */
  predicate NoErrorsBefore(s: seq<Option<FoundWord>>, k: int)
    requires k <= |s|
  {
    forall j :: 0 <= j < k && s[j].Some? ==> s[j].value.errorCount == 0
  }

  /** One more result: its value, if any, is appended, and it has errors or not. */
  lemma SomesStep(s: seq<Option<FoundWord>>, k: int)
    requires 0 <= k < |s|
    ensures Somes(s[..k + 1]) == Somes(s[..k]) + Present(s[k])
    ensures NoErrorsBefore(s, k + 1) <==> NoErrorsBefore(s, k) && (s[k].Some? ==> s[k].value.errorCount == 0)
  {
    assert s[..k + 1][..k] == s[..k];
  }

  /** The success flag the start cell computes (some matcher exact, then
      cleared by any appended entry with errors) is PointFound of what it appended. */
  lemma PointFoundIff(s: seq<Option<FoundWord>>)
    ensures PointFound(Somes(s)) <==> AnyExact(s) && NoErrorsBefore(s, |s|)
  {
    forall e ensures e in Somes(s) <==> Some(e) in s {
      SomesMember(s, e);
    }
    if PointFound(Somes(s)) {
      var e := Somes(s)[0];
      var j :| 0 <= j < |s| && s[j] == Some(e);
      assert Exact(s[j]);
    }
    if AnyExact(s) {
      var j :| 0 <= j < |s| && Exact(s[j]);
      assert s[j].value in Somes(s);
    }
  }

  /** A start cell appends at most three entries, each starting at (x, y),
      for the word searched, within the tolerance. */
  lemma PointResultsEntries(grid: seq<seq<int>>, word: string, x: int, y: int, tolerance: nat)
    requires IsGrid(grid)
    ensures var r := PointResults(grid, word, x, y, tolerance);
      |r| <= 3 &&
      forall e :: e in r ==> e.x1 == x && e.y1 == y && e.word == word && e.errorCount <= tolerance
  {
    var s := PointProbes(grid, word, x, y, tolerance);
    HorizontalShape(grid, word, x, y, tolerance);
    VerticalShape(grid, word, x, y, tolerance);
    DiagonalShape(grid, word, x, y, tolerance);
    forall e | e in Somes(s) ensures e.x1 == x && e.y1 == y && e.word == word && e.errorCount <= tolerance {
      SomesMember(s, e);
    }
  }

  /** An exact horizontal match is all a start cell appends: vertical and
      diagonal are not consulted. */
  lemma PointHorizontalExact(grid: seq<seq<int>>, word: string, x: int, y: int, tolerance: nat)
    requires IsGrid(grid) && Exact(FirstSuccess(grid, word, x, y, HorizontalOrder, tolerance))
    ensures PointResults(grid, word, x, y, tolerance) == [FirstSuccess(grid, word, x, y, HorizontalOrder, tolerance).value]
  {
    var h := FirstSuccess(grid, word, x, y, HorizontalOrder, tolerance);
    SomesThree(h, None, None);
  }

  /** A start cell that reports success appended exactly one entry, and it is exact. */
  lemma PointFoundSingle(grid: seq<seq<int>>, word: string, x: int, y: int, tolerance: nat)
    requires IsGrid(grid) && PointFound(PointResults(grid, word, x, y, tolerance))
    ensures |PointResults(grid, word, x, y, tolerance)| == 1
    ensures PointResults(grid, word, x, y, tolerance)[0].errorCount == 0
  {
    var s := PointProbes(grid, word, x, y, tolerance);
    SomesThree(s[0], s[1], s[2]);
    assert s == [s[0], s[1], s[2]];
    var r := Somes(s);
    if s[0].Some? {
      // r starts with the horizontal match, which must then be exact, so
      // vertical and diagonal were not consulted.
      assert r[0] == s[0].value && r[0] in r;
    } else if s[1].Some? {
      assert r[0] == s[1].value && r[0] in r;
    }
  }
}
