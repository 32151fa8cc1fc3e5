/**
 * LINQ OrderBy(x => x) applied to the contents of a set: page numbers in ascending numeric
 * order and words in ascending ordinal order.
 */
module Ordering {
  import opened Text

  predicate StrictlyIncreasing(s: seq<int>)
  {
    forall i, j :: 0 <= i < j < |s| ==> s[i] < s[j]
  }

  predicate StrictlyAscending(s: seq<string>)
  {
    forall i, j :: 0 <= i < j < |s| ==> StringLess(s[i], s[j])
  }

  predicate IsLeast(m: int, s: set<int>)
  {
    m in s && forall y :: y in s ==> m <= y
  }

  lemma {:induction false} LeastExists(s: set<int>)
    requires s != {}
    ensures exists m :: IsLeast(m, s)
    decreases |s|
  {
    if forall y :: y !in s {
      assert false;
    }
    var x :| x in s;
    var rest := s - {x};
    if rest == {} {
      assert s == {x};
      assert IsLeast(x, s);
    } else {
      LeastExists(rest);
      var m :| IsLeast(m, rest);
      var c := if x < m then x else m;
      forall y | y in s ensures c <= y { if y != x { assert y in rest; } }
      assert c in s;
      assert IsLeast(c, s);
    }
  }

  function Least(s: set<int>): (m: int)
    requires s != {}
    ensures IsLeast(m, s)
  {
    LeastExists(s);
    var m :| IsLeast(m, s); m
  }

  /** The elements of s in ascending order, each once. */
  function SortedInts(s: set<int>): (r: seq<int>)
    ensures StrictlyIncreasing(r)
    ensures |r| == |s|
    ensures forall i :: 0 <= i < |r| ==> r[i] in s
    ensures forall x :: x in s ==> x in r
    decreases |s|
  {
    if s == {} then []
    else
      var m := Least(s);
      var rest := SortedInts(s - {m});
      ConsIncreasing(m, rest, s - {m});
      [m] + rest
  }

  lemma ConsIncreasing(m: int, rest: seq<int>, t: set<int>)
    requires StrictlyIncreasing(rest)
    requires forall i :: 0 <= i < |rest| ==> rest[i] in t
    requires forall x :: x in t ==> m < x
    ensures StrictlyIncreasing([m] + rest)
  {
    var r := [m] + rest;
    forall i, j | 0 <= i < j < |r| ensures r[i] < r[j] {
      assert r[j] == rest[j - 1];
      if i > 0 {
        assert r[i] == rest[i - 1];
      }
    }
  }

  predicate IsFirst(m: string, s: set<string>)
  {
    m in s && forall y :: y in s && y != m ==> StringLess(m, y)
  }

  lemma {:induction false} FirstExists(s: set<string>)
    requires s != {}
    ensures exists m :: IsFirst(m, s)
    decreases |s|
  {
    var x :| x in s;
    var rest := s - {x};
    if rest == {} {
      assert s == {x};
      assert IsFirst(x, s);
    } else {
      FirstExists(rest);
      var m :| IsFirst(m, rest);
      StringLessTotal(x, m);
      var c := if StringLess(x, m) then x else m;
      forall y | y in s && y != c ensures StringLess(c, y) {
        if y != x && y != m {
          assert y in rest;
          if c == x { StringLessTransitive(x, m, y); }
        }
      }
      assert c in s;
      assert IsFirst(c, s);
    }
  }

  function First(s: set<string>): (m: string)
    requires s != {}
    ensures IsFirst(m, s)
  {
    FirstExists(s);
    assert forall a, b :: IsFirst(a, s) && IsFirst(b, s) ==> a == b by {
      forall a, b | IsFirst(a, s) && IsFirst(b, s) ensures a == b {
        StringLessAsymmetric(a, b);
      }
    }
    var m :| IsFirst(m, s); m
  }

  /** The elements of s in ascending ordinal order, each once (ascending by SortedStringsAscending). */
  function SortedStrings(s: set<string>): (r: seq<string>)
    ensures |r| == |s|
    ensures forall i :: 0 <= i < |r| ==> r[i] in s
    ensures forall x :: x in s ==> x in r
    decreases |s|
  {
    if s == {} then []
    else
      var m := First(s);
      [m] + SortedStrings(s - {m})
  }

  lemma SortedStringsStep(s: set<string>)
    requires s != {}
    ensures SortedStrings(s) == [First(s)] + SortedStrings(s - {First(s)})
  {
  }

  lemma ConsAscending(m: string, rest: seq<string>)
    requires StrictlyAscending(rest)
    requires forall i :: 0 <= i < |rest| ==> StringLess(m, rest[i])
    ensures StrictlyAscending([m] + rest)
  {
    var r := [m] + rest;
    forall i, j | 0 <= i < j < |r| ensures StringLess(r[i], r[j]) {
      assert r[j] == rest[j - 1];
      if i > 0 {
        assert r[i] == rest[i - 1];
      }
    }
  }

  lemma {:induction false} SortedStringsAscending(s: set<string>)
    ensures StrictlyAscending(SortedStrings(s))
    decreases |s|
  {
    if s != {} {
      var m := First(s);
      var rest := SortedStrings(s - {m});
      SortedStringsAscending(s - {m});
      assert forall i :: 0 <= i < |rest| ==> rest[i] in s && rest[i] != m;
      ConsAscending(m, rest);
      SortedStringsStep(s);
    }
  }

  /** r lists exactly the elements of s. */
  predicate Lists(r: seq<int>, s: set<int>)
  {
    (forall i :: 0 <= i < |r| ==> r[i] in s) && (forall x :: x in s ==> x in r)
  }

  lemma HeadIsLeast(s: set<int>, r: seq<int>)
    requires StrictlyIncreasing(r) && Lists(r, s) && |r| > 0
    ensures s != {} && r[0] == Least(s)
  {
    assert r[0] in s;
    var m := Least(s);
    assert m in r;
    var k :| 0 <= k < |r| && r[k] == m;
    assert r[0] <= r[k];
  }

  lemma TailLists(s: set<int>, r: seq<int>)
    requires StrictlyIncreasing(r) && Lists(r, s) && |r| > 0
    ensures StrictlyIncreasing(r[1..]) && Lists(r[1..], s - {r[0]})
  {
    var rest := r[1..];
    forall i | 0 <= i < |rest| ensures rest[i] in s - {r[0]} {
      assert rest[i] == r[i + 1] && r[0] < r[i + 1];
    }
    forall x | x in s - {r[0]} ensures x in rest {
      var j :| 0 <= j < |r| && r[j] == x;
      assert j != 0 && rest[j - 1] == x;
    }
  }

  lemma ConsSplit(r: seq<int>)
    requires |r| > 0
    ensures r == [r[0]] + r[1..]
  {
  }

  lemma SortedIntsStep(s: set<int>)
    requires s != {}
    ensures SortedInts(s) == [Least(s)] + SortedInts(s - {Least(s)})
  {
  }

  /** A strictly increasing listing of a set is unique: it is the one SortedInts gives. */
  lemma {:induction false} SortedIntsUnique(s: set<int>, r: seq<int>)
    requires StrictlyIncreasing(r) && Lists(r, s)
    ensures r == SortedInts(s)
    decreases |r|
  {
    if r != [] {
      HeadIsLeast(s, r);
      TailLists(s, r);
      SortedIntsUnique(s - {r[0]}, r[1..]);
      SortedIntsStep(s);
      ConsSplit(r);
    } else {
      assert forall x :: x !in s;
      assert s == {};
    }
  }
}
