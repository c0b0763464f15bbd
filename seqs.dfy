/** Slicing facts about sequences, stated once for every element type so
    that the solver need not compare elements to establish them. */
module Seqs {
  lemma TakeAppend<T>(a: seq<T>, b: seq<T>)
    ensures (a + b)[..|a|] == a
  {
  }

  lemma TakeTake<T>(s: seq<T>, i: int)
    requires 0 <= i < |s|
    ensures s[..i + 1][..i] == s[..i]
  {
  }

  lemma TakeAll<T>(s: seq<T>)
    ensures s[..|s|] == s
  {
  }

  lemma DropLastAppend<T>(a: seq<T>, b: seq<T>)
    requires b != []
    ensures (a + b)[..|a + b| - 1] == a + b[..|b| - 1]
  {
  }

  lemma SplitAt<T>(s: seq<T>, i: int)
    requires 0 <= i < |s|
    ensures s == s[..i] + [s[i]] + s[i + 1..]
  {
  }

  lemma LastAppend<T>(a: seq<T>, b: seq<T>)
    requires b != []
    ensures (a + b)[|a + b| - 1] == b[|b| - 1]
  {
  }

  lemma SnocIndex<T>(s: seq<T>, x: T, i: int)
    requires 0 <= i < |s|
    ensures (s + [x])[i] == s[i]
  {
  }
}
