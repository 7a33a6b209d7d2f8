// The resolver's deletion pass: the positions it marks in a list sorted by
// error count, and what deleting them leaves.

module Resolving {
  import opened FoundWords
  import opened Ranking
  import opened SeqFacts

  /** The positions the resolver marks while comparing entry i with the
      entries after it and before position j: those for the same word with
      strictly more errors, in increasing order. */
  function MarkRow(s: seq<FoundWord>, i: nat, j: nat): seq<int>
    requires i < j <= |s|
  {
    if j == i + 1 then []
    else MarkRow(s, i, j - 1) + (if s[i].word == s[j - 1].word && s[i].errorCount < s[j - 1].errorCount then [j - 1] else [])
  }

  /** The positions the resolver marks while comparing each of the first i
      entries with every entry after it. */
  function Marks(s: seq<FoundWord>, i: nat): seq<int>
    requires i <= |s|
  {
    if i == 0 then [] else Marks(s, i - 1) + MarkRow(s, i - 1, |s|)
  }

  /** Entry j is beaten by one of the entries at positions below m and below
      j: one for the same word with strictly fewer errors. */
  predicate BeatenBefore(s: seq<FoundWord>, j: int, m: int)
    requires 0 <= j < |s|
    decreases m
  {
    m > 0 &&
    (BeatenBefore(s, j, m - 1) || (m - 1 < j && s[m - 1].word == s[j].word && s[m - 1].errorCount < s[j].errorCount))
  }

  /** BeatenBefore holds exactly when such a beating entry exists. */
  lemma {:induction false} BeatenBeforeWitness(s: seq<FoundWord>, j: int, m: int)
    requires 0 <= j < |s|
    ensures BeatenBefore(s, j, m) <==>
      exists i :: 0 <= i < m && i < j && s[i].word == s[j].word && s[i].errorCount < s[j].errorCount
    decreases m
  {
    if m > 0 {
      BeatenBeforeWitness(s, j, m - 1);
      if !BeatenBefore(s, j, m) {
        forall i | 0 <= i < m && i < j
          ensures !(s[i].word == s[j].word && s[i].errorCount < s[j].errorCount)
        {
          if i < m - 1 {
            assert !(exists b :: 0 <= b < m - 1 && b < j && s[b].word == s[j].word && s[b].errorCount < s[j].errorCount);
          }
        }
      }
    }
  }

  lemma {:induction false} MarkRowMember(s: seq<FoundWord>, i: nat, j: nat, k: int)
    requires i < j <= |s|
    ensures k in MarkRow(s, i, j) <==>
      i < k < j && s[i].word == s[k].word && s[i].errorCount < s[k].errorCount
  {
    if j > i + 1 {
      MarkRowMember(s, i, j - 1, k);
    }
  }

  /** A position is marked after the first i rows of comparisons exactly when
      one of the first i entries beats it. */
  lemma MarksMember(s: seq<FoundWord>, i: nat, k: int)
    requires i <= |s|
    ensures k in Marks(s, i) <==> 0 <= k < |s| && BeatenBefore(s, k, i)
  {
    MarksSound(s, i, k);
    if 0 <= k < |s| && BeatenBefore(s, k, i) {
      MarksComplete(s, i, k);
    }
  }

  /** Every marked position is beaten by one of the first i entries. */
  lemma {:induction false} MarksSound(s: seq<FoundWord>, i: nat, k: int)
    requires i <= |s|
    ensures k in Marks(s, i) ==> 0 <= k < |s| && BeatenBefore(s, k, i)
  {
    if i > 0 {
      MarksSound(s, i - 1, k);
      MarkRowMember(s, i - 1, |s|, k);
      InSplit(k, Marks(s, i - 1), MarkRow(s, i - 1, |s|), Marks(s, i));
    }
  }

  /** Every position beaten by one of the first i entries is marked. */
  lemma {:induction false} MarksComplete(s: seq<FoundWord>, i: nat, k: int)
    requires i <= |s| && 0 <= k < |s| && BeatenBefore(s, k, i)
    ensures k in Marks(s, i)
  {
    if BeatenBefore(s, k, i - 1) {
      MarksComplete(s, i - 1, k);
      InSplit(k, Marks(s, i - 1), MarkRow(s, i - 1, |s|), Marks(s, i));
    } else {
      MarkRowMember(s, i - 1, |s|, k);
      InSplit(k, Marks(s, i - 1), MarkRow(s, i - 1, |s|), Marks(s, i));
    }
  }

  lemma MarksBeaten(s: seq<FoundWord>, k: int)
    requires SortedByErrorCount(s)
    ensures k in Marks(s, if |s| == 0 then 0 else |s| - 1) <==> 0 <= k < |s| && Beaten(s, s[k])
  {
    var n := if |s| == 0 then 0 else |s| - 1;
    MarksMember(s, n, k);
    if 0 <= k < |s| {
      BeatenSorted(s, k);
    }
  }

  /** In a list sorted by error count, an entry beaten at all is beaten by
      an earlier entry, and so by one of all but the last. */
  lemma BeatenSorted(s: seq<FoundWord>, k: int)
    requires SortedByErrorCount(s) && 0 <= k < |s|
    ensures Beaten(s, s[k]) <==> BeatenBefore(s, k, |s| - 1)
  {
    BeatenBeforeWitness(s, k, |s| - 1);
    if Beaten(s, s[k]) {
      var b :| 0 <= b < |s| && s[b].word == s[k].word && s[b].errorCount < s[k].errorCount;
      assert b < k;
    }
  }

  /** The entries at positions below n whose position is not in del, in order. */
  function KeepUnmarked(s: seq<FoundWord>, del: set<int>, n: nat): seq<FoundWord>
    requires n <= |s|
  {
    if n == 0 then [] else KeepUnmarked(s, del, n - 1) + (if n - 1 in del then [] else [s[n - 1]])
  }

  lemma {:induction false} KeepBeaten(s: seq<FoundWord>, del: set<int>, n: nat)
    requires n <= |s|
    requires forall k :: 0 <= k < |s| ==> (k in del <==> Beaten(s, s[k]))
    ensures KeepUnmarked(s, del, n) == Survivors(s, n)
  {
    if n > 0 {
      KeepBeaten(s, del, n - 1);
    }
  }

  /** Deleting the positions the resolver marks in a sorted list leaves exactly
      its survivors. */
  lemma MarkedSurvivors(s: seq<FoundWord>, marks: seq<int>)
    requires SortedByErrorCount(s) && marks == Marks(s, if |s| == 0 then 0 else |s| - 1)
    ensures KeepUnmarked(s, set k | k in marks, |s|) == Survivors(s, |s|)
  {
    var del := set k | k in marks;
    forall k | 0 <= k < |s| ensures k in del <==> Beaten(s, s[k]) {
      MarksBeaten(s, k);
    }
    KeepBeaten(s, del, |s|);
  }
}
