/** The least and greatest element of a finite, non-empty set of integers:
    what `Math.max(...keys)` and "sort ascending, take the first" compute
    over the numeric keys of a page record. */
module IntSets {

  lemma HasElement(s: set<int>)
    requires s != {}
    ensures exists x :: x in s
  {
    if forall x :: x !in s {
      assert false;
    }
  }

  predicate IsUpperBound(m: int, s: set<int>) {
    forall k :: k in s ==> k <= m
  }

  predicate IsLowerBound(m: int, s: set<int>) {
    forall k :: k in s ==> m <= k
  }

  lemma {:induction false} HasMax(s: set<int>)
    requires s != {}
    ensures exists m :: m in s && IsUpperBound(m, s)
    decreases |s|
  {
    HasElement(s);
    var x :| x in s;
    var rest := s - {x};
    if rest == {} {
      forall k | k in s
        ensures k <= x
      {
        assert k !in rest;
      }
      assert IsUpperBound(x, s);
    } else {
      HasMax(rest);
      var m :| m in rest && IsUpperBound(m, rest);
      var top := if x <= m then m else x;
      forall k | k in s
        ensures k <= top
      {
        if k != x {
          assert k in rest;
        }
      }
      assert top in s && IsUpperBound(top, s);
    }
  }

  lemma {:induction false} HasMin(s: set<int>)
    requires s != {}
    ensures exists m :: m in s && IsLowerBound(m, s)
    decreases |s|
  {
    HasElement(s);
    var x :| x in s;
    var rest := s - {x};
    if rest == {} {
      forall k | k in s
        ensures x <= k
      {
        assert k !in rest;
      }
      assert IsLowerBound(x, s);
    } else {
      HasMin(rest);
      var m :| m in rest && IsLowerBound(m, rest);
      var bottom := if m <= x then m else x;
      forall k | k in s
        ensures bottom <= k
      {
        if k != x {
          assert k in rest;
        }
      }
      assert bottom in s && IsLowerBound(bottom, s);
    }
  }

  function Max(s: set<int>): (m: int)
    requires s != {}
    ensures m in s && forall k :: k in s ==> k <= m
  {
    HasMax(s);
    var m :| m in s && IsUpperBound(m, s);
    m
  }

  function Min(s: set<int>): (m: int)
    requires s != {}
    ensures m in s && forall k :: k in s ==> m <= k
  {
    HasMin(s);
    var m :| m in s && IsLowerBound(m, s);
    m
  }
}
