/** Sorted enumeration of finite sets of integers: the order in which a
    `SortedDictionary` or an `OrderBy` visits its keys. */
module Ordering {
  predicate StrictlyIncreasing(s: seq<int>) {
    forall i, j | 0 <= i < j < |s| :: s[i] < s[j]
  }

  /** A least element of a finite non-empty set. */
  lemma {:induction false} MinimumExists(s: set<int>) returns (m: int)
    requires s != {}
    ensures m in s && forall j | j in s :: m <= j
    decreases |s|
  {
    if forall x :: x !in s {
      assert false;
    }
    var a :| a in s;
    var t := s - {a};
    if t == {} {
      assert s == {a};
      m := a;
    } else {
      var b := MinimumExists(t);
      m := if a < b then a else b;
      forall j | j in s
        ensures m <= j
      {
        if j != a {
          assert j in t;
        }
      }
    }
  }

  lemma HasMinimum(s: set<int>)
    requires s != {}
    ensures exists m :: m in s && forall j | j in s :: m <= j
  {
    var m := MinimumExists(s);
  }

  function Minimum(s: set<int>): (m: int)
    requires s != {}
    ensures m in s && forall j | j in s :: m <= j
  {
    HasMinimum(s);
    var m :| m in s && forall j | j in s :: m <= j;
    m
  }

  /** The elements of a finite set of integers in ascending order. */
  function Ascending(s: set<int>): (r: seq<int>)
    ensures |r| == |s| && StrictlyIncreasing(r)
    ensures forall k :: k in r <==> k in s
    decreases |s|
  {
    if s == {} then []
    else
      var k := Minimum(s);
      var rest := Ascending(s - {k});
      assert forall j | j in rest :: k < j;
      [k] + rest
  }

  lemma AscendingSingleton(a: int)
    ensures Ascending({a}) == [a]
  {
    var r := Ascending({a});
    assert |r| == 1 && a in r;
  }

  predicate StrictlyDecreasing(s: seq<int>) {
    forall i, j | 0 <= i < j < |s| :: s[i] > s[j]
  }

  /** A greatest element of a finite non-empty set. */
  lemma {:induction false} MaximumExists(s: set<int>) returns (m: int)
    requires s != {}
    ensures m in s && forall j | j in s :: j <= m
    decreases |s|
  {
    if forall x :: x !in s {
      assert false;
    }
    var a :| a in s;
    var t := s - {a};
    if t == {} {
      assert s == {a};
      m := a;
    } else {
      var b := MaximumExists(t);
      m := if a > b then a else b;
      forall j | j in s
        ensures j <= m
      {
        if j != a {
          assert j in t;
        }
      }
    }
  }

  lemma HasMaximum(s: set<int>)
    requires s != {}
    ensures exists m :: m in s && forall j | j in s :: j <= m
  {
    var m := MaximumExists(s);
  }

  function Maximum(s: set<int>): (m: int)
    requires s != {}
    ensures m in s && forall j | j in s :: j <= m
  {
    HasMaximum(s);
    var m :| m in s && forall j | j in s :: j <= m;
    m
  }

  /** The elements of a finite set of integers in descending order; the
      order and the membership facts are in `DescendingSorted`, so that they
      enter a proof only where it asks for them. */
  function Descending(s: set<int>): (r: seq<int>)
    ensures |r| == |s|
    ensures s != {} ==> r[0] == Maximum(s)
    decreases |s|
  {
    if s == {} then []
    else
      var k := Maximum(s);
      [k] + Descending(s - {k})
  }

  /** `Descending(s)` lists exactly the elements of `s`, each greater than
      the ones after it. */
  lemma {:induction false} DescendingSorted(s: set<int>)
    ensures StrictlyDecreasing(Descending(s))
    ensures forall k :: k in Descending(s) <==> k in s
    decreases |s|
  {
    if s != {} {
      var k := Maximum(s);
      var rest := Descending(s - {k});
      DescendingSorted(s - {k});
      assert Descending(s) == [k] + rest;
      assert forall j | j in rest :: j < k;
    }
  }

  lemma DescendingMembers(s: set<int>)
    ensures forall k :: k in Descending(s) <==> k in s
  {
    DescendingSorted(s);
  }

  lemma DescendingDistinct(s: set<int>)
    ensures forall i, j | 0 <= i < j < |Descending(s)| :: Descending(s)[i] != Descending(s)[j]
  {
    DescendingSorted(s);
  }

  /** Adding an element below all others appends it to the descending order. */
  lemma {:induction false} DescendingAddLeast(s: set<int>, m: int)
    requires forall j | j in s :: m < j
    ensures Descending(s + {m}) == Descending(s) + [m]
    decreases |s|
  {
    if s == {} {
      assert s + {m} == {m};
      assert Descending({m}) == [m] + Descending({m} - {m});
      assert {m} - {m} == {};
    } else {
      var k := Maximum(s);
      var u := s + {m};
      MaximumUnique(u, k);
      assert u - {k} == (s - {k}) + {m};
      DescendingAddLeast(s - {k}, m);
      assert Descending(u) == [k] + Descending(u - {k});
    }
  }

  lemma MaximumUnique(s: set<int>, k: int)
    requires k in s && forall j | j in s :: j <= k
    ensures Maximum(s) == k
  {
    var m := Maximum(s);
    assert m <= k && k <= m;
  }
}
