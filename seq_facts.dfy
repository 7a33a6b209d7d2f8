// Small facts about sequences of any element type: membership in a
// concatenation and regrouping of appends.

module SeqFacts {
  /** Membership in r == p + q, split into its two parts. */
  lemma InSplit<T>(c: T, p: seq<T>, q: seq<T>, r: seq<T>)
    requires r == p + q
    ensures c in r <==> c in p || c in q
  {
  }

  lemma AppendEmpty<T>(base: seq<T>, e: seq<T>)
    requires e == []
    ensures base + e == base
  {
  }

  lemma AppendAssoc<T>(a: seq<T>, b: seq<T>, c: seq<T>)
    ensures a + (b + c) == (a + b) + c
  {
  }

  /** One more element of a prefix. */
  lemma TakeSnoc<T>(s: seq<T>, n: nat)
    requires n < |s|
    ensures s[..n + 1] == s[..n] + [s[n]]
  {
  }

  lemma TakeAll<T>(s: seq<T>)
    ensures s[..|s|] == s
  {
  }
}
