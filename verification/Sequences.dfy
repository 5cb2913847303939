/** Sequence functions and laws that several components share. */
module Sequences {

  datatype Option<T> = None | Some(value: T)

  function Concat<T>(parts: seq<seq<T>>): seq<T> {
    if parts == [] then [] else parts[0] + Concat(parts[1..])
  }

  lemma PlusAssoc<T>(a: seq<T>, b: seq<T>, c: seq<T>)
    ensures (a + b) + c == a + (b + c)
  {
  }

  lemma ConcatCons<T>(part: seq<T>, parts: seq<seq<T>>)
    ensures Concat([part] + parts) == part + Concat(parts)
  {
    assert ([part] + parts)[1..] == parts;
  }

  lemma {:induction false} ConcatSnoc<T>(parts: seq<seq<T>>, part: seq<T>)
    ensures Concat(parts + [part]) == Concat(parts) + part
  {
    if parts == [] {
      assert [] + [part] == [part] && part + [] == part && [] + part == part;
    } else {
      ConcatSnoc(parts[1..], part);
      assert (parts + [part])[1..] == parts[1..] + [part];
      PlusAssoc(parts[0], Concat(parts[1..]), part);
    }
  }

  /** A set of indices against index 0 and the ones behind it, counted from there: no more of one than of the other. */
  lemma AtMostShifted(here: set<int>, later: set<int>, first: bool)
    requires 0 in here ==> first
    requires forall k | k in here && k != 0 :: k - 1 in later
    ensures |here| <= |later| + if first then 1 else 0
  {
    var up := here - {0};
    NoMoreUp(up, later);
    assert here <= up + {0} && (0 !in here ==> up == here);
    if 0 in here {
      assert here == up + {0};
    }
  }

  lemma AtLeastShifted(here: set<int>, later: set<int>, first: bool)
    requires first ==> 0 in here
    requires forall k | k in later :: k >= 0 && k + 1 in here
    ensures |here| >= |later| + if first then 1 else 0
  {
    var up := here - {0};
    NoMoreLater(up, later);
    if 0 in here {
      assert here == up + {0};
    } else {
      assert here == up;
    }
  }

  lemma {:induction false} NoMoreUp(up: set<int>, later: set<int>)
    requires forall k | k in up :: k - 1 in later
    ensures |up| <= |later|
    decreases |up|
  {
    if up != {} {
      var k := Pick(up);
      NoMoreUp(up - {k}, later - {k - 1});
    }
  }

  lemma {:induction false} NoMoreLater(up: set<int>, later: set<int>)
    requires forall k | k in later :: k + 1 in up
    ensures |later| <= |up|
    decreases |later|
  {
    if later != {} {
      var k := Pick(later);
      NoMoreLater(up - {k + 1}, later - {k});
    }
  }

  lemma Pick<T>(s: set<T>) returns (x: T)
    requires s != {}
    ensures x in s
  {
    x :| x in s;
  }
}
