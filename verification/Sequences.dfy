// Facts about sequences that proofs elsewhere state once and reuse.
module Sequences {

  lemma AddNothing<T>(s: seq<T>)
    ensures s + [] == s && [] + s == s
  {
  }

  lemma InitLast<T>(s: seq<T>)
    requires s != []
    ensures s == s[..|s| - 1] + [s[|s| - 1]]
  {
  }

  lemma HeadTail<T>(s: seq<T>)
    requires s != []
    ensures s == [s[0]] + s[1..]
  {
  }

  lemma TakeDrop<T>(s: seq<T>, n: nat)
    requires n <= |s|
    ensures s == s[..n] + s[n..]
  {
  }

  lemma SnocMembers<T>(s: seq<T>, last: T)
    ensures forall x :: x in s + [last] <==> x in s || x == last
  {
  }

  lemma ConcatMembers<T>(a: seq<T>, b: seq<T>)
    ensures forall x :: x in a + b <==> x in a || x in b
  {
  }

  lemma ConcatFirst<T>(a: seq<T>, b: seq<T>)
    requires a != []
    ensures a + b != [] && (a + b)[0] == a[0] && (a + b)[1..] == a[1..] + b
  {
  }

  lemma ConcatTail<T>(a: seq<T>, x: seq<T>, y: seq<T>)
    ensures (a + x) + y == a + (x + y)
  {
  }
}
