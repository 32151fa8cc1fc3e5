/** Sequence operations the pipeline shares: LINQ's Distinct, String.Join and concatenation. */
module Sequences {

  predicate NoDuplicates<T(==)>(s: seq<T>)
  {
    forall i, j :: 0 <= i < j < |s| ==> s[i] != s[j]
  }

  /** LINQ Distinct: the first occurrence of every element, in the order of first occurrence. */
  function Distinct<T(==)>(s: seq<T>): (r: seq<T>)
    ensures NoDuplicates(r)
    ensures forall i :: 0 <= i < |s| ==> s[i] in r
    ensures forall i :: 0 <= i < |r| ==> r[i] in s
    ensures |r| <= |s|
  {
    if |s| == 0 then []
    else
      var r := Distinct(s[..|s| - 1]);
      assert s == s[..|s| - 1] + [s[|s| - 1]];
      if s[|s| - 1] in r then r else r + [s[|s| - 1]]
  }

  /** String.Join: the parts with sep between neighbours; no parts give the empty string. */
  function Join(sep: string, parts: seq<string>): string
  {
    if |parts| == 0 then ""
    else if |parts| == 1 then parts[0]
    else parts[0] + sep + Join(sep, parts[1..])
  }

  lemma {:induction false} JoinAppend(sep: string, a: seq<string>, b: seq<string>)
    requires |a| > 0 && |b| > 0
    ensures Join(sep, a + b) == Join(sep, a) + sep + Join(sep, b)
  {
    if |a| > 1 {
      assert (a + b)[1..] == a[1..] + b;
      JoinAppend(sep, a[1..], b);
    } else {
      assert (a + b)[1..] == b;
    }
  }

  /** A joined list is at least as long as its first part. */
  lemma {:induction false} JoinLength(sep: string, parts: seq<string>)
    requires |parts| > 0
    ensures |Join(sep, parts)| >= |parts[0]|
  {
  }

  /** A character that is in neither the separator nor any part is not in the joined string. */
  lemma {:induction false} JoinAvoids(sep: string, parts: seq<string>, c: char)
    requires c !in sep
    requires forall k :: 0 <= k < |parts| ==> c !in parts[k]
    ensures c !in Join(sep, parts)
  {
    if |parts| > 1 {
      JoinAvoids(sep, parts[1..], c);
    }
  }

  /** Concatenation of a sequence of sequences, built from the back. */
  function Flatten<T>(ss: seq<seq<T>>): seq<T>
  {
    if |ss| == 0 then [] else Flatten(ss[..|ss| - 1]) + ss[|ss| - 1]
  }

  lemma FlattenSnoc<T>(ss: seq<seq<T>>, s: seq<T>)
    ensures Flatten(ss + [s]) == Flatten(ss) + s
  {
    assert (ss + [s])[..|ss|] == ss;
  }

  lemma {:induction false} FlattenAppend<T>(xs: seq<seq<T>>, ys: seq<seq<T>>)
    ensures Flatten(xs + ys) == Flatten(xs) + Flatten(ys)
    decreases |ys|
  {
    if |ys| == 0 {
      assert xs + ys == xs;
    } else {
      var init := ys[..|ys| - 1];
      var y := ys[|ys| - 1];
      assert xs + ys == (xs + init) + [y] && ys == init + [y];
      FlattenAppend(xs, init);
      FlattenSnoc(xs + init, y);
      FlattenSnoc(init, y);
    }
  }

  /** The pieces of s between occurrences of sep, scanned left to right; cur is the piece read so far. */
  function SplitOnFrom(s: string, sep: string, cur: string): (r: seq<string>)
    requires |sep| > 0
    ensures |r| > 0
    decreases |s|
  {
    if |s| == 0 then [cur]
    else if |s| >= |sep| && s[..|sep|] == sep then [cur] + SplitOnFrom(s[|sep|..], sep, "")
    else SplitOnFrom(s[1..], sep, cur + [s[0]])
  }

  /** The pieces of s between occurrences of sep: the inverse of Join(sep, ·) on parts free of sep's first character. */
  function SplitOn(s: string, sep: string): seq<string>
    requires |sep| > 0
  {
    SplitOnFrom(s, sep, "")
  }

  lemma {:induction false} SplitOnSkip(a: string, rest: string, sep: string, cur: string)
    requires |sep| > 0 && sep[0] !in a
    ensures SplitOnFrom(a + rest, sep, cur) == SplitOnFrom(rest, sep, cur + a)
    decreases |a|
  {
    if |a| > 0 {
      var t := a + rest;
      assert t[0] == a[0] && t[1..] == a[1..] + rest;
      assert !(|t| >= |sep| && t[..|sep|] == sep) by {
        if |t| >= |sep| { assert t[..|sep|][0] == a[0]; }
      }
      SplitOnSkip(a[1..], rest, sep, cur + [a[0]]);
      assert cur + [a[0]] + a[1..] == cur + a;
    } else {
      assert a + rest == rest && cur + a == cur;
    }
  }

  /** Splitting what Join(sep, parts) produced gives the parts back. */
  lemma {:induction false} SplitOnJoin(parts: seq<string>, sep: string)
    requires |sep| > 0 && |parts| > 0
    requires forall k :: 0 <= k < |parts| ==> sep[0] !in parts[k]
    ensures SplitOn(Join(sep, parts), sep) == parts
  {
    if |parts| == 1 {
      SplitOnSkip(parts[0], "", sep, "");
      assert parts[0] + "" == parts[0] && "" + parts[0] == parts[0];
      assert SplitOnFrom("", sep, parts[0]) == [parts[0]];
    } else {
      var rest := Join(sep, parts[1..]);
      SplitOnSkip(parts[0], sep + rest, sep, "");
      var t := sep + rest;
      assert t[..|sep|] == sep && t[|sep|..] == rest;
      SplitOnJoin(parts[1..], sep);
      assert parts == [parts[0]] + parts[1..];
      assert parts[0] + sep + rest == parts[0] + (sep + rest);
      assert "" + parts[0] == parts[0];
      assert SplitOnFrom(t, sep, parts[0]) == [parts[0]] + SplitOnFrom(rest, sep, "");
    }
  }
}
