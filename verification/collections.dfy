/** Small facts about sets and sequences that the feed and view modules rely on. */
module Collections {

  /** No element occurs twice. */
  predicate Distinct<T(==)>(xs: seq<T>)
  {
    forall i, j :: 0 <= i < j < |xs| ==> xs[i] != xs[j]
  }

  /** Strictly ascending. */
  predicate Increasing(xs: seq<nat>)
  {
    forall i, j :: 0 <= i < j < |xs| ==> xs[i] < xs[j]
  }

  /** A least element of a non-empty finite set of naturals, found by
      removing elements one at a time. */
  ghost function LeastOf(s: set<nat>): (m: nat)
    requires s != {}
    ensures m in s && forall y :: y in s ==> m <= y
    decreases s
  {
    var x :| x in s;
    var rest := s - {x};
    if rest == {} then
      IsLeast(s, x, x, rest);
      x
    else
      var m := LeastOf(rest);
      var least := if x < m then x else m;
      IsLeast(s, x, least, rest);
      least
  }

  /** The smaller of `x` and a lower bound of `s - {x}` is a least element of `s`. */
  lemma IsLeast(s: set<nat>, x: nat, least: nat, rest: set<nat>)
    requires x in s && rest == s - {x}
    requires least == x || least in rest
    requires least <= x && forall y :: y in rest ==> least <= y
    ensures least in s && forall y :: y in s ==> least <= y
  {
    forall y | y in s ensures least <= y {
      if y != x {
        assert y in rest;
      }
    }
  }

  /** The least element of a non-empty set. */
  function MinOf(s: set<nat>): (m: nat)
    requires s != {}
    ensures m in s
    ensures forall y :: y in s ==> m <= y
  {
    ghost var w := LeastOf(s);
    var m :| m in s && forall y :: y in s ==> m <= y;
    m
  }

  /** Putting the least element in front of an ascending listing of the rest
      lists the whole set in ascending order. */
  lemma ConsLeast(s: set<nat>, m: nat, tail: seq<nat>)
    requires m in s && forall y :: y in s ==> m <= y
    requires forall x :: x in tail <==> x in s - {m}
    requires Increasing(tail) && |tail| == |s - {m}|
    ensures forall x :: x in [m] + tail <==> x in s
    ensures Increasing([m] + tail)
    ensures Distinct([m] + tail)
    ensures |[m] + tail| == |s|
  {
    var r := [m] + tail;
    forall i, j | 0 <= i < j < |r| ensures r[i] < r[j] {
      assert r[j] == tail[j - 1];
      if i > 0 {
        assert r[i] == tail[i - 1];
      } else {
        assert tail[j - 1] in s - {m};
      }
    }
  }

  /** The elements of a finite set, listed in ascending order. */
  function Ascending(s: set<nat>): (r: seq<nat>)
    ensures forall x :: x in r <==> x in s
    ensures Increasing(r)
    ensures Distinct(r)
    ensures |r| == |s|
    decreases s
  {
    if s == {} then []
    else
      var m := MinOf(s);
      var tail := Ascending(s - {m});
      ConsLeast(s, m, tail);
      [m] + tail
  }

  /** A set with more than one element holds two different elements. */
  lemma TwoElements(s: set<nat>)
    requires |s| > 1
    ensures exists x, y :: x in s && y in s && x != y
  {
    var x :| x in s;
    assert |s - {x}| == |s| - 1;
    var y :| y in s - {x};
  }

  /** A list without repetitions has as many elements as the set of its elements. */
  lemma {:induction false} DistinctCardinality<T>(xs: seq<T>)
    requires Distinct(xs)
    ensures |set x | x in xs| == |xs|
  {
    if xs != [] {
      var tail := xs[1..];
      assert Distinct(tail) by {
        forall i, j | 0 <= i < j < |tail| ensures tail[i] != tail[j] {
          assert tail[i] == xs[i + 1] && tail[j] == xs[j + 1];
        }
      }
      DistinctCardinality(tail);
      assert xs[0] !in tail by {
        forall k | 0 <= k < |tail| ensures tail[k] != xs[0] {
          assert tail[k] == xs[k + 1];
        }
      }
      assert (set x | x in xs) == {xs[0]} + (set x | x in tail) by {
        assert xs == [xs[0]] + tail;
      }
    }
  }

  /** Two lists without repetitions that hold the same elements are equally long. */
  lemma SameLength<T>(a: seq<T>, b: seq<T>)
    requires Distinct(a) && Distinct(b)
    requires forall y :: y in a <==> y in b
    ensures |a| == |b|
  {
    DistinctCardinality(a);
    DistinctCardinality(b);
    assert (set y | y in a) == (set y | y in b);
  }

  /** Splitting a list without repetitions at its head. */
  lemma DistinctSplit<T>(xs: seq<T>)
    requires xs != []
    ensures Distinct(xs) <==> Distinct(xs[1..]) && xs[0] !in xs[1..]
  {
    var tail := xs[1..];
    if Distinct(xs) {
      forall i, j | 0 <= i < j < |tail| ensures tail[i] != tail[j] {
        assert tail[i] == xs[i + 1] && tail[j] == xs[j + 1];
      }
      forall k | 0 <= k < |tail| ensures tail[k] != xs[0] {
        assert tail[k] == xs[k + 1];
      }
    }
    if Distinct(tail) && xs[0] !in tail {
      forall i, j | 0 <= i < j < |xs| ensures xs[i] != xs[j] {
        assert xs[j] == tail[j - 1];
        if i > 0 {
          assert xs[i] == tail[i - 1];
        }
      }
    }
  }
}
