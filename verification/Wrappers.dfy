// Shared helpers.
module Wrappers {
  // An optional value: Python's None, C++'s null result.
  datatype Option<+T> = None | Some(value: T)

  lemma SomeMember<T>(s: set<T>) returns (x: T)
    requires s != {}
    ensures x in s
  {
    x :| x in s;
  }

  lemma NoDifference<T>(a: set<T>, b: set<T>)
    requires a - b == {}
    ensures a <= b
  {
    assert forall x :: x in a ==> x in b || x in a - b;
  }
}
