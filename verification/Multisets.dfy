// Sequences with the same elements.

module Multisets {

  // One element taken out of a sequence that is equal up to order.
  lemma TakenOut<T>(others: seq<T>, x: T, rest: seq<T>) returns (p: seq<T>, q: seq<T>)
    requires multiset([x] + rest) == multiset(others)
    ensures others == p + [x] + q && multiset(rest) == multiset(p + q)
  {
    assert x in others by { assert multiset(others)[x] == multiset([x] + rest)[x] > 0; }
    var i :| 0 <= i < |others| && others[i] == x;
    p, q := others[..i], others[i + 1..];
    assert others == p + [x] + q;
    assert multiset([x] + rest) == multiset(rest) + multiset{x};
    Around(p, x, q);
    OneLess(x, rest, others);
    OneLess(x, p + q, others);
  }

  lemma Around<T>(p: seq<T>, x: T, q: seq<T>)
    ensures multiset(p + [x] + q) == multiset(p + q) + multiset{x}
  {}

  lemma OneLess<T>(x: T, rest: seq<T>, whole: seq<T>)
    requires multiset(whole) == multiset(rest) + multiset{x}
    ensures multiset(rest) == multiset(whole) - multiset{x}
  {}
}
