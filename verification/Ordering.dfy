/** Iteration order of std::map and std::set: ascending in a strict total order. */
module Ordering {

  ghost predicate StrictOrder<T(!new)>(less: (T, T) -> bool) {
    (forall x :: !less(x, x)) &&
    (forall x, y :: less(x, y) || x == y || less(y, x)) &&
    (forall x, y, z :: less(x, y) && less(y, z) ==> less(x, z))
  }

  predicate IsLeast<T(==)>(m: T, s: set<T>, less: (T, T) -> bool) {
    m in s && forall x | x in s :: x == m || less(m, x)
  }

  lemma {:induction false} LeastExists<T(!new)>(s: set<T>, less: (T, T) -> bool)
    requires StrictOrder(less) && s != {}
    ensures exists m :: IsLeast(m, s, less)
  {
    var x :| x in s;
    if s - {x} == {} {
      assert s == {x} && IsLeast(x, s, less);
    } else {
      LeastExists(s - {x}, less);
      var m :| IsLeast(m, s - {x}, less);
      var least := if less(x, m) then x else m;
      forall y | y in s
        ensures y == least || less(least, y)
      {
        if y != x {
          assert y in s - {x};
        }
      }
      assert IsLeast(least, s, less);
    }
  }

  /** *begin() */
  function Least<T(==, !new)>(s: set<T>, less: (T, T) -> bool): (m: T)
    requires StrictOrder(less) && s != {}
    ensures IsLeast(m, s, less)
  {
    LeastExists(s, less);
    var m :| IsLeast(m, s, less);
    m
  }

  /** Everything from begin() to end(). */
  function Ascending<T(==, !new)>(s: set<T>, less: (T, T) -> bool): (a: seq<T>)
    requires StrictOrder(less)
    ensures |a| == |s|
  {
    if s == {} then []
    else
      var m := Least(s, less);
      [m] + Ascending(s - {m}, less)
  }

  lemma {:induction false} AscendingElements<T(!new)>(s: set<T>, less: (T, T) -> bool)
    requires StrictOrder(less)
    ensures forall x :: x in Ascending(s, less) <==> x in s
  {
    if s != {} {
      AscendingElements(s - {Least(s, less)}, less);
    }
  }

  lemma {:induction false} AscendingSorted<T(!new)>(s: set<T>, less: (T, T) -> bool)
    requires StrictOrder(less)
    ensures forall i, j | 0 <= i < j < |s| :: less(Ascending(s, less)[i], Ascending(s, less)[j])
  {
    if s != {} {
      var m := Least(s, less);
      AscendingSorted(s - {m}, less);
      AscendingElements(s - {m}, less);
      var a, tail := Ascending(s, less), Ascending(s - {m}, less);
      forall i, j | 0 <= i < j < |s|
        ensures less(a[i], a[j])
      {
        assert a[j] == tail[j - 1] && tail[j - 1] in tail;
      }
    }
  }

  /** begin() of a container whose keys are unsigned numbers. */
  predicate IsFirst(t: nat, ts: set<nat>) {
    t in ts && forall x | x in ts :: t <= x
  }

  lemma FirstExists(ts: set<nat>)
    requires ts != {}
    ensures exists t :: IsFirst(t, ts)
  {
    var earlier := (x: nat, y: nat) => x < y;
    assert StrictOrder(earlier);
    assert IsFirst(Least(ts, earlier), ts);
  }
}
