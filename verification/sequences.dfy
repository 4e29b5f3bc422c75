/**
 * Small facts about slices of concatenations, shared by the proofs that
 * walk lists of nodes and lines.
 */
module Sequences {
  lemma HeadTailOfAppend<T>(a: seq<T>, b: seq<T>)
    requires a != []
    ensures (a + b)[0] == a[0] && (a + b)[1..] == a[1..] + b
  {
  }

  lemma AppendEmpty<T>(a: seq<T>, b: seq<T>)
    ensures [] + b == b && a + [] == a
  {
  }

  lemma SnocAssoc<T>(a: seq<T>, x: T, b: seq<T>)
    ensures a + [x] + b == a + ([x] + b)
  {
  }

  lemma PrefixOfTail<T>(s: seq<T>, j: nat)
    requires 0 < j <= |s|
    ensures s[..j][0] == s[0] && s[..j][1..] == s[1..][..j - 1]
  {
  }

  lemma InAppend<T>(x: T, a: seq<T>, b: seq<T>)
    ensures x in a + b <==> x in a || x in b
  {
  }

  lemma CountOfSnoc<T>(a: seq<T>, x: T)
    requires x !in a
    ensures multiset(a + [x])[x] == 1
  {
    assert multiset(a + [x]) == multiset(a) + multiset{x};
  }

  lemma AppendAssoc<T>(a: seq<T>, b: seq<T>, c: seq<T>)
    ensures a + b + c == a + (b + c)
  {
  }
}
