/**
 * The least element of a finite set of integers. The source walks the keys of
 * a hash map in ascending order (a TreeSet copy, or the bucket order of small
 * Integer keys); the models take the least remaining key at each step.
 */
module IntSets {

  /** Every non-empty finite set of integers has a least element. */
  lemma {:induction false} MinExists(s: set<int>)
    requires s != {}
    ensures exists m :: m in s && forall x :: x in s ==> m <= x
  {
    if forall x :: x !in s {
      assert false;
    }
    var y :| y in s;
    if s != {y} {
      var rest := s - {y};
      assert s == rest + {y};
      MinExists(rest);
      var m :| m in rest && forall x :: x in rest ==> m <= x;
      if y < m {
        assert forall x :: x in s ==> y <= x;
      } else {
        assert forall x :: x in s ==> m <= x;
      }
    } else {
      assert forall x :: x in s ==> y <= x;
    }
  }

  ghost function Min(s: set<int>): (m: int)
    requires s != {}
    ensures m in s && forall x :: x in s ==> m <= x
  {
    MinExists(s);
    var m :| m in s && forall x :: x in s ==> m <= x;
    m
  }
}
