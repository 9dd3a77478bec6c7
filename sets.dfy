/** A helper for loops that take elements out of a set one at a time. */
module Sets {
  /** A set of ids that is not empty has an element to pick. */
  lemma Nonempty(s: set<int>)
    requires s != {}
    ensures exists x :: x in s
  {
    if forall y :: y !in s {
      assert false;
    }
  }
}
