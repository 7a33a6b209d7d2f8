// The resolver's specification: the list of found words is sorted by error
// count (a stable sort), then every entry that another entry for the same
// word beats with strictly fewer errors is dropped.

module Ranking {
  import opened FoundWords
  import opened SeqFacts

  predicate SortedByErrorCount(s: seq<FoundWord>)
  {
    forall i, j :: 0 <= i < j < |s| ==> s[i].errorCount <= s[j].errorCount
  }

  /** Inserts `fw` in front of the first entry whose count is not smaller,
      so that it stays ahead of entries with the same count. */
  function Insert(fw: FoundWord, s: seq<FoundWord>): (r: seq<FoundWord>)
    ensures multiset(r) == multiset(s) + multiset{fw}
  {
    if s == [] || fw.errorCount <= s[0].errorCount then [fw] + s
    else
      assert s == [s[0]] + s[1..];
      [s[0]] + Insert(fw, s[1..])
  }

  /** An entry with no more errors than the head of a sorted list can go in front of it. */
  lemma ConsSorted(x: FoundWord, t: seq<FoundWord>)
    requires SortedByErrorCount(t) && (t != [] ==> x.errorCount <= t[0].errorCount)
    ensures SortedByErrorCount([x] + t)
  {
    var r := [x] + t;
    forall i, j | 0 <= i < j < |r| ensures r[i].errorCount <= r[j].errorCount {
      if i == 0 {
        assert r[j] == t[j - 1];
        if j > 1 {
          assert t[0].errorCount <= t[j - 1].errorCount;
        }
      } else {
        assert r[i] == t[i - 1] && r[j] == t[j - 1];
      }
    }
  }

  /** Inserting into a sorted list keeps it sorted, and the new head is the
      inserted entry or the old head. */
  lemma {:induction false} InsertSorted(fw: FoundWord, s: seq<FoundWord>)
    requires SortedByErrorCount(s)
    ensures SortedByErrorCount(Insert(fw, s))
    ensures Insert(fw, s)[0] == fw || (s != [] && Insert(fw, s)[0] == s[0])
  {
    if s == [] || fw.errorCount <= s[0].errorCount {
      ConsSorted(fw, s);
    } else {
      var rest := s[1..];
      assert SortedByErrorCount(rest) by {
        forall i, j | 0 <= i < j < |rest| ensures rest[i].errorCount <= rest[j].errorCount {
          assert rest[i] == s[i + 1] && rest[j] == s[j + 1];
        }
      }
      InsertSorted(fw, rest);
      var t := Insert(fw, rest);
      assert t[0] == fw || t[0] == s[1];
      assert s[0].errorCount <= t[0].errorCount;
      ConsSorted(s[0], t);
    }
  }

  /** The list's sort keyed on the error count: ascending, and a permutation of its input. */
  function SortByErrorCount(s: seq<FoundWord>): (r: seq<FoundWord>)
    ensures multiset(r) == multiset(s)
    ensures SortedByErrorCount(r)
  {
    if s == [] then []
    else
      assert s == [s[0]] + s[1..];
      InsertSorted(s[0], SortByErrorCount(s[1..]));
      Insert(s[0], SortByErrorCount(s[1..]))
  }

  /** The entries of `s` with error count c, in their order in `s`. */
  function WithCount(s: seq<FoundWord>, c: nat): seq<FoundWord>
  {
    if s == [] then []
    else (if s[0].errorCount == c then [s[0]] else []) + WithCount(s[1..], c)
  }

  lemma DropHead<T>(h: T, t: seq<T>)
    ensures ([h] + t)[1..] == t
  {
  }

  /** Two lists of which one is empty can be swapped in front of a third. */
  lemma SwapFront<T>(a: seq<T>, b: seq<T>, rest: seq<T>)
    requires a == [] || b == []
    ensures a + (b + rest) == b + (a + rest)
  {
  }

  /** Inserting an entry adds it to the entries with its count, ahead of them. */
  lemma {:induction false} InsertWithCount(fw: FoundWord, s: seq<FoundWord>, c: nat)
    ensures WithCount(Insert(fw, s), c) == (if fw.errorCount == c then [fw] else []) + WithCount(s, c)
  {
    if s == [] || fw.errorCount <= s[0].errorCount {
      DropHead(fw, s);
    } else {
      var t := Insert(fw, s[1..]);
      InsertWithCount(fw, s[1..], c);
      DropHead(s[0], t);
      // fw has more errors than s[0], so at most one of them has count c.
      SwapFront(if s[0].errorCount == c then [s[0]] else [], if fw.errorCount == c then [fw] else [],
                WithCount(s[1..], c));
    }
  }

  /** The sort is stable: entries with equal counts keep their relative order. */
  lemma {:induction false} SortIsStable(s: seq<FoundWord>, c: nat)
    ensures WithCount(SortByErrorCount(s), c) == WithCount(s, c)
  {
    if s != [] {
      SortIsStable(s[1..], c);
      InsertWithCount(s[0], SortByErrorCount(s[1..]), c);
    }
  }

  /** Sorting a list that is already sorted leaves it as it is. */
  lemma {:induction false} SortSorted(s: seq<FoundWord>)
    requires SortedByErrorCount(s)
    ensures SortByErrorCount(s) == s
  {
    if s != [] {
      SortSorted(s[1..]);
      assert s == [s[0]] + s[1..];
    }
  }

  // ---------------------------------------------------------------------------
  // Dropping beaten entries.

  /** Some entry of `s` for the same word as x has strictly fewer errors. */
  predicate Beaten(s: seq<FoundWord>, x: FoundWord)
  {
    exists k :: 0 <= k < |s| && s[k].word == x.word && s[k].errorCount < x.errorCount
  }

  /** The entries at positions below n of `s` that nothing in `s` beats, in order. */
  function Survivors(s: seq<FoundWord>, n: nat): seq<FoundWord>
    requires n <= |s|
  {
    if n == 0 then []
    else Survivors(s, n - 1) + (if Beaten(s, s[n - 1]) then [] else [s[n - 1]])
  }

  /** The found words after the resolver has run. */
  function Filtered(s: seq<FoundWord>): seq<FoundWord>
  {
    var sorted := SortByErrorCount(s);
    Survivors(sorted, |sorted|)
  }

  /** The entries of `t` that are not in `out`, in order. */
  function KeepOutside<T(==)>(t: seq<T>, out: set<T>): seq<T>
  {
    if t == [] then []
    else KeepOutside(t[..|t| - 1], out) + (if t[|t| - 1] in out then [] else [t[|t| - 1]])
  }

  /** Filtering by a set keeps every occurrence of an entry outside the set
      and none of one inside it. */
  lemma {:induction false} KeepOutsideCount<T>(t: seq<T>, out: set<T>, x: T)
    ensures multiset(KeepOutside(t, out))[x] == if x in out then 0 else multiset(t)[x]
  {
    if t != [] {
      var p, last := t[..|t| - 1], t[|t| - 1];
      KeepOutsideCount(p, out, x);
      assert t == p + [last];
      var tail := if last in out then [] else [last];
      assert multiset(KeepOutside(t, out)) == multiset(KeepOutside(p, out)) + multiset(tail);
      assert multiset(t) == multiset(p) + multiset{last};
    }
  }

  /** The entries of `s` that something in `s` beats. */
  function BeatenIn(s: seq<FoundWord>): set<FoundWord>
  {
    set e | e in s && Beaten(s, e)
  }

  /** The survivors are the prefix without the beaten entries. */
  lemma {:induction false} SurvivorsKeep(s: seq<FoundWord>, n: nat)
    requires n <= |s|
    ensures Survivors(s, n) == KeepOutside(s[..n], BeatenIn(s))
  {
    if n > 0 {
      SurvivorsKeep(s, n - 1);
      TakeSnoc(s, n - 1);
      assert s[..n][..n - 1] == s[..n - 1];
      assert s[n - 1] in BeatenIn(s) <==> Beaten(s, s[n - 1]);
    }
  }

  lemma SurvivorsCount(s: seq<FoundWord>, n: nat, x: FoundWord)
    requires n <= |s|
    ensures multiset(Survivors(s, n))[x] == if Beaten(s, x) then 0 else multiset(s[..n])[x]
  {
    SurvivorsKeep(s, n);
    KeepOutsideCount(s[..n], BeatenIn(s), x);
    if Beaten(s, x) && x !in BeatenIn(s) {
      assert x !in s[..n];
    }
  }

  lemma {:induction false} SurvivorsSorted(s: seq<FoundWord>, n: nat)
    requires n <= |s| && SortedByErrorCount(s)
    ensures SortedByErrorCount(Survivors(s, n))
    ensures forall x :: x in Survivors(s, n) ==> x in s[..n]
  {
    if n > 0 {
      SurvivorsSorted(s, n - 1);
      forall x | x in Survivors(s, n - 1) ensures x.errorCount <= s[n - 1].errorCount {
        var i :| 0 <= i < n - 1 && s[..n - 1][i] == x;
        assert s[i] == x;
      }
      assert forall x :: x in s[..n - 1] ==> x in s[..n] by {
        assert s[..n] == s[..n - 1] + [s[n - 1]];
      }
    }
  }

  /** Two lists with the same entries beat the same entries. */
  lemma BeatenPermutation(s: seq<FoundWord>, t: seq<FoundWord>, x: FoundWord)
    requires multiset(s) == multiset(t)
    ensures Beaten(s, x) <==> Beaten(t, x)
  {
    if Beaten(s, x) {
      var k :| 0 <= k < |s| && s[k].word == x.word && s[k].errorCount < x.errorCount;
      assert s[k] in multiset(t);
      var k' :| 0 <= k' < |t| && t[k'] == s[k];
    }
    if Beaten(t, x) {
      var k :| 0 <= k < |t| && t[k].word == x.word && t[k].errorCount < x.errorCount;
      assert t[k] in multiset(s);
      var k' :| 0 <= k' < |s| && s[k'] == t[k];
    }
  }

  /** Each entry keeps all its occurrences when nothing beats it and loses
      them all otherwise: entries with equal fields share one fate, and the
      result is a sub-multiset of the input. */
  lemma FilteredCount(s: seq<FoundWord>, x: FoundWord)
    ensures multiset(Filtered(s))[x] == if Beaten(s, x) then 0 else multiset(s)[x]
  {
    var sorted := SortByErrorCount(s);
    SurvivorsCount(sorted, |sorted|, x);
    BeatenPermutation(s, sorted, x);
    assert sorted[..|sorted|] == sorted;
  }

  /** The result is sorted by error count. */
  lemma FilteredSorted(s: seq<FoundWord>)
    ensures SortedByErrorCount(Filtered(s))
  {
    var sorted := SortByErrorCount(s);
    SurvivorsSorted(sorted, |sorted|);
  }

  /** An entry is kept exactly when no entry for the same word has strictly
      fewer errors; in particular every entry with the least count for its
      word is kept, ties included. */
  lemma FilteredMembership(s: seq<FoundWord>, x: FoundWord)
    ensures x in Filtered(s) <==> x in s && !Beaten(s, x)
  {
    FilteredCount(s, x);
  }

  /** Entries kept for one word all have the same error count. */
  lemma FilteredTies(s: seq<FoundWord>, x: FoundWord, y: FoundWord)
    requires x in Filtered(s) && y in Filtered(s) && x.word == y.word
    ensures x.errorCount == y.errorCount
  {
    FilteredMembership(s, x);
    FilteredMembership(s, y);
    var i :| 0 <= i < |s| && s[i] == x;
    var j :| 0 <= j < |s| && s[j] == y;
  }

  lemma {:induction false} SurvivorsAll(s: seq<FoundWord>, n: nat)
    requires n <= |s| && forall i :: 0 <= i < |s| ==> !Beaten(s, s[i])
    ensures Survivors(s, n) == s[..n]
  {
    if n > 0 {
      SurvivorsAll(s, n - 1);
      assert s[..n] == s[..n - 1] + [s[n - 1]];
    }
  }

  /** Running the resolver twice gives what running it once gives. */
  lemma FilteredIdempotent(s: seq<FoundWord>)
    ensures Filtered(Filtered(s)) == Filtered(s)
  {
    var u := Filtered(s);
    FilteredSorted(s);
    SortSorted(u);
    forall i | 0 <= i < |u| ensures !Beaten(u, u[i]) {
      if Beaten(u, u[i]) {
        var k :| 0 <= k < |u| && u[k].word == u[i].word && u[k].errorCount < u[i].errorCount;
        FilteredTies(s, u[k], u[i]);
      }
    }
    SurvivorsAll(u, |u|);
    assert u[..|u|] == u;
  }
}
