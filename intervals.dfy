/**
 * CompactNumbersIntoIntervals: each page number is tagged with its value minus its
 * position, the tagged numbers are grouped by tag the way LINQ GroupBy groups, and every
 * group is rendered either as "first-last" (three or more members) or as its members
 * joined with ", ". The reader Expand turns the joined rendering back into the numbers.
 */
module Intervals {
  import opened Sequences
  import opened Text
  import opened Numerals
  import opened Ordering

  /** The anonymous { number, group } record of the first Select. */
  datatype Tagged = Tagged(number: int, group: int)

  /** A LINQ grouping, keeping only the numbers of its elements (the one field later read). */
  datatype Grouping = Grouping(key: int, numbers: seq<int>)

  /**
   * Select((n, i) => new { number = n, group = n - i }): every number keeps its place, and
   * two neighbours share a tag exactly when the second is one greater than the first.
   */
  function Tag(numbers: seq<int>): (r: seq<Tagged>)
    ensures |r| == |numbers|
    ensures forall i :: 0 <= i < |r| ==> r[i].number == numbers[i]
    ensures forall i :: 0 < i < |r| ==> (r[i].group == r[i - 1].group <==> numbers[i] == numbers[i - 1] + 1)
  {
    seq(|numbers|, i requires 0 <= i < |numbers| => Tagged(numbers[i], numbers[i] - i))
  }

  /** One element entering GroupBy: appended to the group with its key, or opening a new last group. */
  function Insert(gs: seq<Grouping>, x: Tagged): seq<Grouping>
  {
    if |gs| == 0 then [Grouping(x.group, [x.number])]
    else if gs[0].key == x.group then [gs[0].(numbers := gs[0].numbers + [x.number])] + gs[1..]
    else [gs[0]] + Insert(gs[1..], x)
  }

  predicate DistinctKeys(gs: seq<Grouping>)
  {
    forall i, j :: 0 <= i < j < |gs| ==> gs[i].key != gs[j].key
  }

  predicate HasKey(gs: seq<Grouping>, k: int)
  {
    exists j :: 0 <= j < |gs| && gs[j].key == k
  }

  predicate HasTag(xs: seq<Tagged>, k: int)
  {
    exists i :: 0 <= i < |xs| && xs[i].group == k
  }

  /** The numbers of the elements of xs tagged k, in input order. */
  function WithTag(xs: seq<Tagged>, k: int): seq<int>
  {
    if |xs| == 0 then []
    else WithTag(xs[..|xs| - 1], k) + if xs[|xs| - 1].group == k then [xs[|xs| - 1].number] else []
  }

  /**
   * GroupBy(n => n.group): one group per tag that occurs, holding the numbers of exactly
   * the elements with that tag, in input order.
   */
  function GroupBy(xs: seq<Tagged>): (gs: seq<Grouping>)
    ensures DistinctKeys(gs)
    ensures forall k :: HasKey(gs, k) <==> HasTag(xs, k)
    ensures forall j :: 0 <= j < |gs| ==> gs[j].numbers == WithTag(xs, gs[j].key)
  {
    if |xs| == 0 then []
    else
      assert xs == xs[..|xs| - 1] + [xs[|xs| - 1]];
      InsertGroups(GroupBy(xs[..|xs| - 1]), xs[..|xs| - 1], xs[|xs| - 1]);
      Insert(GroupBy(xs[..|xs| - 1]), xs[|xs| - 1])
  }

  /** Inserting one more element into a grouping of xs gives a grouping of xs + [x]. */
  lemma InsertGroups(gs: seq<Grouping>, xs: seq<Tagged>, x: Tagged)
    requires DistinctKeys(gs)
    requires forall k :: HasKey(gs, k) <==> HasTag(xs, k)
    requires forall j :: 0 <= j < |gs| ==> gs[j].numbers == WithTag(xs, gs[j].key)
    ensures DistinctKeys(Insert(gs, x))
    ensures forall k :: HasKey(Insert(gs, x), k) <==> HasTag(xs + [x], k)
    ensures forall j :: 0 <= j < |Insert(gs, x)| ==> Insert(gs, x)[j].numbers == WithTag(xs + [x], Insert(gs, x)[j].key)
  {
    HasTagSnoc(xs, x);
    if HasKey(gs, x.group) {
      var p :| 0 <= p < |gs| && gs[p].key == x.group;
      InsertAt(gs, x, p);
      InsertIntoGroup(gs, xs, x, p, Insert(gs, x));
    } else {
      InsertNew(gs, x);
      InsertFreshGroup(gs, xs, x, Insert(gs, x));
    }
  }

  /** x joins the group p that has its tag, giving us. */
  lemma InsertIntoGroup(gs: seq<Grouping>, xs: seq<Tagged>, x: Tagged, p: int, us: seq<Grouping>)
    requires DistinctKeys(gs) && 0 <= p < |gs| && gs[p].key == x.group
    requires forall j :: 0 <= j < |gs| ==> gs[j].numbers == WithTag(xs, gs[j].key)
    requires us == gs[p := gs[p].(numbers := gs[p].numbers + [x.number])]
    ensures DistinctKeys(us)
    ensures forall k :: HasKey(us, k) <==> HasKey(gs, k)
    ensures forall j :: 0 <= j < |us| ==> us[j].numbers == WithTag(xs + [x], us[j].key)
  {
    WithTagSnoc(xs, x);
    HasKeyUpdate(gs, p, us[p]);
  }

  /** x, whose tag no group has, opens a new last group, giving us. */
  lemma InsertFreshGroup(gs: seq<Grouping>, xs: seq<Tagged>, x: Tagged, us: seq<Grouping>)
    requires DistinctKeys(gs) && !HasKey(gs, x.group) && !HasTag(xs, x.group)
    requires forall j :: 0 <= j < |gs| ==> gs[j].numbers == WithTag(xs, gs[j].key)
    requires us == gs + [Grouping(x.group, [x.number])]
    ensures DistinctKeys(us)
    ensures forall k :: HasKey(us, k) <==> HasKey(gs, k) || k == x.group
    ensures forall j :: 0 <= j < |us| ==> us[j].numbers == WithTag(xs + [x], us[j].key)
  {
    WithTagSnoc(xs, x);
    NoTagEmpty(xs, x.group);
    HasKeySnoc(gs, us[|gs|]);
  }

  lemma HasKeyUpdate(gs: seq<Grouping>, p: int, g: Grouping)
    requires 0 <= p < |gs| && g.key == gs[p].key
    ensures forall k :: HasKey(gs[p := g], k) <==> HasKey(gs, k)
  {
    forall k ensures HasKey(gs[p := g], k) <==> HasKey(gs, k) {
      if HasKey(gs, k) {
        var j :| 0 <= j < |gs| && gs[j].key == k;
        assert gs[p := g][j].key == k;
      }
      if HasKey(gs[p := g], k) {
        var j :| 0 <= j < |gs| && gs[p := g][j].key == k;
        assert gs[j].key == k;
      }
    }
  }

  lemma HasKeySnoc(gs: seq<Grouping>, g: Grouping)
    ensures forall k :: HasKey(gs + [g], k) <==> HasKey(gs, k) || k == g.key
  {
    forall k ensures HasKey(gs + [g], k) <==> HasKey(gs, k) || k == g.key {
      if HasKey(gs, k) {
        var j :| 0 <= j < |gs| && gs[j].key == k;
        assert (gs + [g])[j] == gs[j];
      }
      assert (gs + [g])[|gs|] == g;
      if HasKey(gs + [g], k) {
        var j :| 0 <= j < |gs| + 1 && (gs + [g])[j].key == k;
        if j < |gs| {
          assert (gs + [g])[j] == gs[j];
        }
      }
    }
  }

  lemma HasTagSnoc(xs: seq<Tagged>, x: Tagged)
    ensures forall k :: HasTag(xs + [x], k) <==> HasTag(xs, k) || k == x.group
  {
    forall k ensures HasTag(xs + [x], k) <==> HasTag(xs, k) || k == x.group {
      if HasTag(xs, k) {
        var i :| 0 <= i < |xs| && xs[i].group == k;
        assert (xs + [x])[i] == xs[i];
      }
      assert (xs + [x])[|xs|] == x;
      if HasTag(xs + [x], k) {
        var i :| 0 <= i < |xs| + 1 && (xs + [x])[i].group == k;
        if i < |xs| {
          assert (xs + [x])[i] == xs[i];
        }
      }
    }
  }

  lemma WithTagSnoc(xs: seq<Tagged>, x: Tagged)
    ensures forall k :: WithTag(xs + [x], k) == WithTag(xs, k) + if x.group == k then [x.number] else []
  {
    assert (xs + [x])[..|xs|] == xs;
  }

  lemma {:induction false} NoTagEmpty(xs: seq<Tagged>, k: int)
    requires !HasTag(xs, k)
    ensures WithTag(xs, k) == []
  {
    if |xs| > 0 {
      NoTagEmpty(xs[..|xs| - 1], k);
      assert xs[|xs| - 1].group != k;
    }
  }

  /** An element whose tag first occurs at group p is appended to group p. */
  lemma InsertAt(gs: seq<Grouping>, x: Tagged, p: int)
    requires 0 <= p < |gs| && gs[p].key == x.group
    requires forall i :: 0 <= i < p ==> gs[i].key != x.group
    ensures Insert(gs, x) == gs[p := gs[p].(numbers := gs[p].numbers + [x.number])]
  {
    if p > 0 {
      InsertAt(gs[1..], x, p - 1);
    }
  }

  function Members(gs: seq<Grouping>): seq<seq<int>>
  {
    seq(|gs|, i requires 0 <= i < |gs| => gs[i].numbers)
  }

  /**
   * The maximal runs of consecutive integers of s, in order: the reference the grouping is
   * measured against. A number one greater than its predecessor grows the current run;
   * any other number starts a new one.
   */
  function Runs(s: seq<int>): (rs: seq<seq<int>>)
    ensures |rs| <= |s|
    ensures |s| > 0 ==> |rs| > 0
  {
    if |s| == 0 then []
    else
      var rs := Runs(s[..|s| - 1]);
      var x := s[|s| - 1];
      if |s| > 1 && x == s[|s| - 2] + 1 then rs[..|rs| - 1] + [rs[|rs| - 1] + [x]] else rs + [[x]]
  }

  predicate Consecutive(r: seq<int>)
  {
    forall i :: 0 <= i < |r| - 1 ==> r[i + 1] == r[i] + 1
  }

  /**
   * rs cuts s into maximal runs: put together they are s, each is a non-empty run of
   * consecutive integers, and no run could be continued by the next one's first number.
   */
  predicate IsRunDecomposition(rs: seq<seq<int>>, s: seq<int>)
  {
    Flatten(rs) == s && RunsSeparated(rs)
  }

  lemma RunsLast(s: seq<int>)
    requires |s| > 0
    ensures var rs := Runs(s); |rs[|rs| - 1]| > 0 && rs[|rs| - 1][|rs[|rs| - 1]| - 1] == s[|s| - 1]
  {
  }

  /** How Runs grows by one number: the last run is extended, or a new run [x] is added. */
  lemma RunsSnoc(s: seq<int>, x: int) returns (grows: bool)
    requires |s| > 0
    ensures var rs := Runs(s);
      grows == (x == s[|s| - 1] + 1)
      && Runs(s + [x]) == if grows then rs[..|rs| - 1] + [rs[|rs| - 1] + [x]] else rs + [[x]]
  {
    var t := s + [x];
    assert t[..|t| - 1] == s;
    grows := x == s[|s| - 1] + 1;
  }

  lemma {:induction false} RunsFlatten(s: seq<int>)
    ensures Flatten(Runs(s)) == s
    decreases |s|
  {
    if |s| > 0 {
      var p := s[..|s| - 1];
      var x := s[|s| - 1];
      assert s == p + [x];
      RunsFlatten(p);
      var rs := Runs(p);
      if |p| == 0 {
        assert Runs(s) == [[x]];
        FlattenSnoc([], [x]);
      } else {
        var grows := RunsSnoc(p, x);
        if grows {
          var init := rs[..|rs| - 1];
          var last := rs[|rs| - 1];
          assert rs == init + [last];
          FlattenSnoc(init, last);
          FlattenSnoc(init, last + [x]);
        } else {
          FlattenSnoc(rs, [x]);
        }
      }
    }
  }

  /** Every run is non-empty and consecutive. */
  predicate RunsOk(rs: seq<seq<int>>)
  {
    forall k :: 0 <= k < |rs| ==> |rs[k]| > 0 && Consecutive(rs[k])
  }

  /** The runs are non-empty and consecutive, and no run could be continued by the next one's first number. */
  predicate RunsSeparated(rs: seq<seq<int>>)
  {
    RunsOk(rs) && forall k :: 0 <= k < |rs| - 1 ==> rs[k + 1][0] != rs[k][|rs[k]| - 1] + 1
  }

  lemma GrowLastOk(rs: seq<seq<int>>, x: int)
    requires RunsOk(rs) && |rs| > 0 && x == rs[|rs| - 1][|rs[|rs| - 1]| - 1] + 1
    ensures RunsOk(rs[..|rs| - 1] + [rs[|rs| - 1] + [x]])
  {
    var last := rs[|rs| - 1];
    var r := last + [x];
    forall i | 0 <= i < |r| - 1 ensures r[i + 1] == r[i] + 1 {
      if i < |r| - 2 {
        assert r[i] == last[i] && r[i + 1] == last[i + 1];
      }
    }
    var rs' := rs[..|rs| - 1] + [r];
    forall k | 0 <= k < |rs'| ensures |rs'[k]| > 0 && Consecutive(rs'[k]) {
      if k < |rs| - 1 {
        assert rs'[k] == rs[k];
      }
    }
  }

  lemma NewRunOk(rs: seq<seq<int>>, x: int)
    requires RunsOk(rs)
    ensures RunsOk(rs + [[x]])
  {
    var rs' := rs + [[x]];
    forall k | 0 <= k < |rs'| ensures |rs'[k]| > 0 && Consecutive(rs'[k]) {
      if k < |rs| {
        assert rs'[k] == rs[k];
      }
    }
  }

  lemma GrowLastSeparated(rs: seq<seq<int>>, x: int)
    requires RunsSeparated(rs) && |rs| > 0 && x == rs[|rs| - 1][|rs[|rs| - 1]| - 1] + 1
    ensures RunsSeparated(rs[..|rs| - 1] + [rs[|rs| - 1] + [x]])
  {
    var rs' := rs[..|rs| - 1] + [rs[|rs| - 1] + [x]];
    GrowLastOk(rs, x);
    forall k | 0 <= k < |rs'| - 1 ensures rs'[k + 1][0] != rs'[k][|rs'[k]| - 1] + 1 {
      assert rs'[k] == rs[k];
      assert rs'[k + 1][0] == rs[k + 1][0];
    }
  }

  lemma NewRunSeparated(rs: seq<seq<int>>, x: int)
    requires RunsSeparated(rs) && |rs| > 0
    requires x != rs[|rs| - 1][|rs[|rs| - 1]| - 1] + 1
    ensures RunsSeparated(rs + [[x]])
  {
    var rs' := rs + [[x]];
    NewRunOk(rs, x);
    forall k | 0 <= k < |rs'| - 1 ensures rs'[k + 1][0] != rs'[k][|rs'[k]| - 1] + 1 {
      assert rs'[k] == rs[k];
      if k < |rs| - 1 {
        assert rs'[k + 1] == rs[k + 1];
      }
    }
  }

  lemma {:induction false} RunsMaximal(s: seq<int>)
    ensures RunsSeparated(Runs(s))
    decreases |s|
  {
    if |s| == 1 {
      assert Runs(s) == [[s[0]]];
    } else if |s| > 1 {
      RunsMaximal(s[..|s| - 1]);
      if s[|s| - 1] == s[|s| - 2] + 1 {
        MaximalGrows(s);
      } else {
        MaximalOpens(s);
      }
    }
  }

  lemma MaximalGrows(s: seq<int>)
    requires |s| > 1 && RunsSeparated(Runs(s[..|s| - 1])) && s[|s| - 1] == s[|s| - 2] + 1
    ensures RunsSeparated(Runs(s))
  {
    var p := s[..|s| - 1];
    RunsLast(p);
    assert p[|p| - 1] == s[|s| - 2];
    RunsGrow(s);
    GrowLastSeparated(Runs(p), s[|s| - 1]);
  }

  lemma MaximalOpens(s: seq<int>)
    requires |s| > 1 && RunsSeparated(Runs(s[..|s| - 1])) && s[|s| - 1] != s[|s| - 2] + 1
    ensures RunsSeparated(Runs(s))
  {
    var p := s[..|s| - 1];
    RunsLast(p);
    assert p[|p| - 1] == s[|s| - 2];
    RunsOpen(s);
    NewRunSeparated(Runs(p), s[|s| - 1]);
  }

  lemma RunsOpen(s: seq<int>)
    requires |s| > 1 && s[|s| - 1] != s[|s| - 2] + 1
    ensures Runs(s) == Runs(s[..|s| - 1]) + [[s[|s| - 1]]]
  {
  }

  /** Runs does cut its input into maximal runs. */
  lemma RunsDecompose(s: seq<int>)
    ensures IsRunDecomposition(Runs(s), s)
  {
    RunsFlatten(s);
    RunsMaximal(s);
  }

  /** The last number of a decomposed sequence ends its last run. */
  lemma DecompositionLast(rs: seq<seq<int>>, s: seq<int>)
    requires IsRunDecomposition(rs, s) && |rs| > 0
    ensures |s| > 0 && s[|s| - 1] == rs[|rs| - 1][|rs[|rs| - 1]| - 1]
  {
    var init := rs[..|rs| - 1];
    assert rs == init + [rs[|rs| - 1]];
    FlattenSnoc(init, rs[|rs| - 1]);
  }

  /** Removing a single-number last run leaves a decomposition of the rest. */
  lemma DropLastRun(rs: seq<seq<int>>, s: seq<int>)
    requires IsRunDecomposition(rs, s) && |rs| > 0 && |rs[|rs| - 1]| == 1
    ensures IsRunDecomposition(rs[..|rs| - 1], s[..|s| - 1])
    ensures rs == rs[..|rs| - 1] + [[s[|s| - 1]]]
  {
    var init := rs[..|rs| - 1];
    assert rs == init + [rs[|rs| - 1]];
    FlattenSnoc(init, rs[|rs| - 1]);
    assert s[..|s| - 1] == Flatten(init);
    DecompositionLast(rs, s);
    assert rs[|rs| - 1] == [s[|s| - 1]];
    assert forall k :: 0 <= k < |init| ==> init[k] == rs[k];
  }

  /** Removing the last number of a longer last run leaves a decomposition of the rest. */
  lemma ShortenLastRun(rs: seq<seq<int>>, s: seq<int>) returns (rs2: seq<seq<int>>)
    requires IsRunDecomposition(rs, s) && |rs| > 0 && |rs[|rs| - 1]| > 1
    ensures IsRunDecomposition(rs2, s[..|s| - 1]) && |rs2| == |rs|
    ensures rs == rs2[..|rs2| - 1] + [rs2[|rs2| - 1] + [s[|s| - 1]]]
    ensures s[|s| - 1] == rs2[|rs2| - 1][|rs2[|rs2| - 1]| - 1] + 1
  {
    var init := rs[..|rs| - 1];
    var last := rs[|rs| - 1];
    var shorter := last[..|last| - 1];
    rs2 := init + [shorter];
    assert rs == init + [last];
    assert last == shorter + [last[|last| - 1]];
    FlattenSnoc(init, last);
    FlattenSnoc(init, shorter);
    assert Flatten(init) + last == Flatten(init) + shorter + [last[|last| - 1]];
    assert s[..|s| - 1] == Flatten(rs2);
    forall k | 0 <= k < |rs2| ensures |rs2[k]| > 0 && Consecutive(rs2[k]) {
      if k < |rs2| - 1 {
        assert rs2[k] == rs[k];
      }
    }
    forall k | 0 <= k < |rs2| - 1 ensures rs2[k + 1][0] != rs2[k][|rs2[k]| - 1] + 1 {
      assert rs2[k] == rs[k];
      assert rs2[k + 1][0] == rs[k + 1][0];
    }
    assert rs2[..|rs2| - 1] == init;
  }

  /** Runs(s) in terms of the runs of s without its last number. */
  lemma RunsStep(s: seq<int>)
    requires |s| > 1
    ensures var p := s[..|s| - 1]; var rs := Runs(p); var x := s[|s| - 1];
      |rs| > 0 && p[|p| - 1] == s[|s| - 2]
      && Runs(s) == if x == p[|p| - 1] + 1 then rs[..|rs| - 1] + [rs[|rs| - 1] + [x]] else rs + [[x]]
  {
  }

  /** Maximal runs are unique: any decomposition of s into maximal runs is Runs(s). */
  lemma {:induction false} RunDecompositionUnique(rs: seq<seq<int>>, s: seq<int>)
    requires IsRunDecomposition(rs, s)
    ensures rs == Runs(s)
    decreases |s|
  {
    if |rs| == 0 {
      assert s == [];
    } else {
      DecompositionLast(rs, s);
      var p := s[..|s| - 1];
      var x := s[|s| - 1];
      if |rs[|rs| - 1]| == 1 {
        DropLastRun(rs, s);
        var init := rs[..|rs| - 1];
        RunDecompositionUnique(init, p);
        if |p| == 0 {
          assert |s| == 1;
          assert Runs(s) == [[x]];
        } else {
          DecompositionLast(init, p);
          assert rs[|rs| - 2] == init[|init| - 1];
          RunsStep(s);
        }
      } else {
        var rs2 := ShortenLastRun(rs, s);
        RunDecompositionUnique(rs2, p);
        DecompositionLast(rs2, p);
        RunsStep(s);
      }
    }
  }

  /** The tags of a strictly increasing sequence never decrease, and stay equal exactly along a run. */
  predicate KeysAscending(gs: seq<Grouping>)
  {
    forall i, j :: 0 <= i < j < |gs| ==> gs[i].key < gs[j].key
  }

  lemma InsertNew(gs: seq<Grouping>, x: Tagged)
    requires forall i :: 0 <= i < |gs| ==> gs[i].key != x.group
    ensures Insert(gs, x) == gs + [Grouping(x.group, [x.number])]
  {
    if |gs| > 0 {
      InsertNew(gs[1..], x);
    }
  }

  lemma InsertLast(gs: seq<Grouping>, x: Tagged)
    requires |gs| > 0 && gs[|gs| - 1].key == x.group
    requires forall i :: 0 <= i < |gs| - 1 ==> gs[i].key != x.group
    ensures Insert(gs, x) == gs[..|gs| - 1] + [gs[|gs| - 1].(numbers := gs[|gs| - 1].numbers + [x.number])]
  {
    if |gs| > 1 {
      InsertLast(gs[1..], x);
      assert gs[1..][..|gs| - 2] == gs[1..|gs| - 1];
      assert gs[..|gs| - 1] == [gs[0]] + gs[1..|gs| - 1];
    }
  }

  lemma TagPrefix(s: seq<int>)
    requires |s| > 0
    ensures Tag(s)[..|s| - 1] == Tag(s[..|s| - 1])
  {
  }

  lemma GroupByStep(s: seq<int>)
    requires |s| > 0
    ensures GroupBy(Tag(s)) == Insert(GroupBy(Tag(s[..|s| - 1])), Tagged(s[|s| - 1], s[|s| - 1] - (|s| - 1)))
  {
    TagPrefix(s);
  }

  lemma IncreasingPrefix(s: seq<int>)
    requires StrictlyIncreasing(s) && |s| > 0
    ensures StrictlyIncreasing(s[..|s| - 1])
    ensures |s| > 1 ==> s[|s| - 2] < s[|s| - 1]
  {
  }

  /** A number with the last group's tag joins that group, and only it. */
  lemma InsertExtends(gs: seq<Grouping>, x: Tagged)
    requires KeysAscending(gs) && |gs| > 0 && gs[|gs| - 1].key == x.group
    ensures var g' := Insert(gs, x);
      |Members(gs)| > 0 && Members(g') == Extended(Members(gs), x.number)
      && KeysAscending(g') && |g'| == |gs| && g'[|g'| - 1].key == x.group
  {
    InsertLast(gs, x);
    var g' := Insert(gs, x);
    var ms := Members(gs);
    assert forall i :: 0 <= i < |gs| - 1 ==> g'[i] == gs[i];
    assert Members(g') == ms[..|ms| - 1] + [ms[|ms| - 1] + [x.number]];
  }

  /** rs with x appended to its last run. */
  function Extended(rs: seq<seq<int>>, x: int): seq<seq<int>>
    requires |rs| > 0
  {
    rs[..|rs| - 1] + [rs[|rs| - 1] + [x]]
  }

  /** A number with a tag above every key opens a new last group. */
  lemma InsertOpens(gs: seq<Grouping>, x: Tagged)
    requires KeysAscending(gs) && (|gs| > 0 ==> gs[|gs| - 1].key < x.group)
    ensures var g' := Insert(gs, x);
      Members(g') == Members(gs) + [[x.number]]
      && KeysAscending(g') && |g'| > 0 && g'[|g'| - 1].key == x.group
  {
    InsertNew(gs, x);
    var g' := Insert(gs, x);
    assert Members(g') == Members(gs) + [[x.number]];
  }

  /** The invariant of the grouping of a strictly increasing prefix p: its groups are p's runs. */
  predicate GroupsAreRuns(gs: seq<Grouping>, p: seq<int>)
  {
    Members(gs) == Runs(p) && KeysAscending(gs)
    && (|p| > 0 ==> |gs| > 0 && gs[|gs| - 1].key == p[|p| - 1] - (|p| - 1))
  }

  /** The next number is one more than the last: it joins the last group, as it joins the last run. */
  lemma StepJoins(gs: seq<Grouping>, s: seq<int>)
    requires |s| > 1 && GroupsAreRuns(gs, s[..|s| - 1]) && s[|s| - 1] == s[|s| - 2] + 1
    ensures GroupsAreRuns(Insert(gs, Tagged(s[|s| - 1], s[|s| - 1] - (|s| - 1))), s)
  {
    var p := s[..|s| - 1];
    assert p[|p| - 1] == s[|s| - 2];
    JoinsKeys(gs, s);
    JoinsMembers(gs, s);
  }

  lemma JoinsKeys(gs: seq<Grouping>, s: seq<int>)
    requires |s| > 1 && KeysAscending(gs) && |gs| > 0
    requires gs[|gs| - 1].key == s[|s| - 2] - (|s| - 2) && s[|s| - 1] == s[|s| - 2] + 1
    ensures var g' := Insert(gs, Tagged(s[|s| - 1], s[|s| - 1] - (|s| - 1)));
      KeysAscending(g') && |g'| > 0 && g'[|g'| - 1].key == s[|s| - 1] - (|s| - 1)
  {
    InsertExtends(gs, Tagged(s[|s| - 1], s[|s| - 1] - (|s| - 1)));
  }

  lemma JoinsMembers(gs: seq<Grouping>, s: seq<int>)
    requires |s| > 1 && KeysAscending(gs) && |gs| > 0 && Members(gs) == Runs(s[..|s| - 1])
    requires gs[|gs| - 1].key == s[|s| - 2] - (|s| - 2) && s[|s| - 1] == s[|s| - 2] + 1
    ensures Members(Insert(gs, Tagged(s[|s| - 1], s[|s| - 1] - (|s| - 1)))) == Runs(s)
  {
    InsertExtends(gs, Tagged(s[|s| - 1], s[|s| - 1] - (|s| - 1)));
    RunsGrow(s);
  }

  lemma RunsGrow(s: seq<int>)
    requires |s| > 1 && s[|s| - 1] == s[|s| - 2] + 1
    ensures |Runs(s[..|s| - 1])| > 0 && Runs(s) == Extended(Runs(s[..|s| - 1]), s[|s| - 1])
  {
  }

  /** The next number leaves a gap (or is the first): it opens a new group, as it opens a new run. */
  lemma StepOpens(gs: seq<Grouping>, s: seq<int>)
    requires |s| > 0 && GroupsAreRuns(gs, s[..|s| - 1])
    requires |s| > 1 ==> s[|s| - 1] > s[|s| - 2] + 1
    ensures GroupsAreRuns(Insert(gs, Tagged(s[|s| - 1], s[|s| - 1] - (|s| - 1))), s)
  {
    var v := s[|s| - 1];
    InsertOpens(gs, Tagged(v, v - (|s| - 1)));
    assert Runs(s) == Runs(s[..|s| - 1]) + [[v]];
  }

  /**
   * For a strictly increasing input, grouping by tag gives exactly the maximal runs, with
   * ascending keys, the last of which is the tag of the last number.
   */
  lemma {:induction false} GroupByIsRuns(s: seq<int>)
    requires StrictlyIncreasing(s)
    ensures GroupsAreRuns(GroupBy(Tag(s)), s)
    decreases |s|
  {
    if |s| > 0 {
      var p := s[..|s| - 1];
      GroupByStep(s);
      IncreasingPrefix(s);
      GroupByIsRuns(p);
      StepGroups(GroupBy(Tag(p)), s);
    }
  }

  /** One more number above the last: the grouping keeps matching the runs. */
  lemma StepGroups(gs: seq<Grouping>, s: seq<int>)
    requires |s| > 0 && GroupsAreRuns(gs, s[..|s| - 1])
    requires |s| > 1 ==> s[|s| - 2] < s[|s| - 1]
    ensures GroupsAreRuns(Insert(gs, Tagged(s[|s| - 1], s[|s| - 1] - (|s| - 1))), s)
  {
    if |s| > 1 && s[|s| - 1] == s[|s| - 2] + 1 {
      StepJoins(gs, s);
    } else {
      StepOpens(gs, s);
    }
  }

  /** The text of one group: "first-last" for three or more members, else the members joined with ", ". */
  function RenderGroup(g: seq<int>): string
  {
    if |g| >= 3 then IntToString(g[0]) + "-" + IntToString(g[|g| - 1])
    else Join(", ", IntStrings(g))
  }

  function IntStrings(ns: seq<int>): seq<string>
  {
    seq(|ns|, i requires 0 <= i < |ns| => IntToString(ns[i]))
  }

  function RenderAll(gs: seq<seq<int>>): seq<string>
  {
    seq(|gs|, i requires 0 <= i < |gs| => RenderGroup(gs[i]))
  }

  /**
   * CompactNumbersIntoIntervals, for the strictly increasing input the call site supplies:
   * one piece per maximal run of consecutive numbers, in ascending order.
   */
  function CompactNumbersIntoIntervals(numbers: seq<int>): (pieces: seq<string>)
    requires StrictlyIncreasing(numbers)
    ensures |pieces| == |Runs(numbers)|
    ensures forall i :: 0 <= i < |pieces| ==> pieces[i] == RenderGroup(Runs(numbers)[i])
  {
    GroupByIsRuns(numbers);
    RenderAll(Members(GroupBy(Tag(numbers))))
  }

  /** The consecutive integers lo..hi; empty when hi < lo. */
  function Range(lo: int, hi: int): (r: seq<int>)
    ensures forall i :: 0 <= i < |r| ==> r[i] == lo + i
    ensures |r| == if lo <= hi then hi - lo + 1 else 0
  {
    if lo <= hi then seq(hi - lo + 1, i requires 0 <= i <= hi - lo => lo + i) else []
  }

  /**
   * The numbers one piece of the text stands for: "a-b" (the dash found after the first
   * character, so that a may carry a sign) stands for a..b, anything else for one number.
   */
  function ExpandAtom(a: string): seq<int>
  {
    var d := if |a| == 0 then 0 else 1 + IndexOfChar(a[1..], '-');
    if 0 < d < |a| then Range(ParseInt(a[..d]), ParseInt(a[d + 1..])) else [ParseInt(a)]
  }

  function AtomValues(atoms: seq<string>): seq<seq<int>>
  {
    seq(|atoms|, i requires 0 <= i < |atoms| => ExpandAtom(atoms[i]))
  }

  function ExpandAtoms(atoms: seq<string>): seq<int>
  {
    Flatten(AtomValues(atoms))
  }

  /** Reads a joined page list such as "1-3, 5, 7-10" back into its numbers. */
  function Expand(text: string): seq<int>
  {
    if text == "" then [] else ExpandAtoms(SplitOn(text, ", "))
  }

  /** The ", "-free pieces a group is written with: its range, or each of its numbers. */
  function AtomsOf(g: seq<int>): seq<string>
  {
    if |g| >= 3 then [IntToString(g[0]) + "-" + IntToString(g[|g| - 1])] else IntStrings(g)
  }

  function AllAtoms(gs: seq<seq<int>>): seq<string>
  {
    if |gs| == 0 then [] else AllAtoms(gs[..|gs| - 1]) + AtomsOf(gs[|gs| - 1])
  }

  lemma ExpandAtomsAppend(a: seq<string>, b: seq<string>)
    ensures ExpandAtoms(a + b) == ExpandAtoms(a) + ExpandAtoms(b)
  {
    AtomValuesAppend(a, b);
    FlattenAppend(AtomValues(a), AtomValues(b));
  }

  lemma AtomValuesAppend(a: seq<string>, b: seq<string>)
    ensures AtomValues(a + b) == AtomValues(a) + AtomValues(b)
  {
    var l, r := AtomValues(a + b), AtomValues(a) + AtomValues(b);
    forall i | 0 <= i < |l| ensures l[i] == r[i] {
      if i < |a| {
        assert (a + b)[i] == a[i];
      } else {
        assert (a + b)[i] == b[i - |a|];
      }
    }
  }

  /** A run of consecutive integers is the range from its first to its last member. */
  lemma {:induction false} ConsecutiveIsRange(r: seq<int>)
    requires |r| > 0 && Consecutive(r)
    ensures r == Range(r[0], r[|r| - 1])
    ensures r[|r| - 1] - r[0] + 1 == |r|
    decreases |r|
  {
    if |r| > 1 {
      var p := r[..|r| - 1];
      assert Consecutive(p);
      ConsecutiveIsRange(p);
      assert r[|r| - 1] == r[|r| - 2] + 1;
      assert forall i :: 0 <= i < |r| ==> r[i] == r[0] + i by {
        forall i | 0 <= i < |r| ensures r[i] == r[0] + i {
          if i < |r| - 1 { assert r[i] == p[i]; }
        }
      }
    }
  }

  /** The text of one number reads back as that number. */
  lemma ExpandNumber(n: int)
    ensures ExpandAtom(IntToString(n)) == [n]
  {
    var a := IntToString(n);
    assert forall k :: 0 <= k < |a| - 1 ==> a[1..][k] == a[k + 1];
    assert IndexOfChar(a[1..], '-') == |a| - 1;
    IntToStringRoundTrip(n);
  }

  /** The text "x-y" reads back as x..y. */
  lemma ExpandRange(x: int, y: int)
    ensures ExpandAtom(IntToString(x) + "-" + IntToString(y)) == Range(x, y)
  {
    var u := IntToString(x);
    var w := IntToString(y);
    DashAfterFirst(u, w);
    DashSplits(u, w);
    IntToStringRoundTrip(x);
    IntToStringRoundTrip(y);
  }

  /** In u + "-" + w, the first dash after the first character is the one after u. */
  lemma DashAfterFirst(u: string, w: string)
    requires |u| > 0 && forall k :: 1 <= k < |u| ==> IsAsciiDigit(u[k])
    ensures 1 + IndexOfChar((u + "-" + w)[1..], '-') == |u|
  {
    var t := (u + "-" + w)[1..];
    assert forall k :: 0 <= k < |u| - 1 ==> t[k] == u[k + 1];
    assert t[|u| - 1] == '-';
  }

  lemma DashSplits(u: string, w: string)
    ensures (u + "-" + w)[..|u|] == u && (u + "-" + w)[|u| + 1..] == w
  {
  }

  lemma ExpandAtomsOne(a: string)
    ensures ExpandAtoms([a]) == ExpandAtom(a)
  {
    assert AtomValues([a]) == [ExpandAtom(a)];
    FlattenSnoc([], ExpandAtom(a));
  }

  /** The atoms of a run read back as the run. */
  lemma ExpandAtomsOf(g: seq<int>)
    requires |g| > 0 && Consecutive(g)
    ensures ExpandAtoms(AtomsOf(g)) == g
  {
    if |g| >= 3 {
      var a := IntToString(g[0]) + "-" + IntToString(g[|g| - 1]);
      assert AtomsOf(g) == [a];
      ExpandAtomsOne(a);
      ExpandRange(g[0], g[|g| - 1]);
      ConsecutiveIsRange(g);
    } else if |g| == 1 {
      assert AtomsOf(g) == [IntToString(g[0])];
      ExpandAtomsOne(IntToString(g[0]));
      ExpandNumber(g[0]);
    } else {
      var u0, u1 := IntToString(g[0]), IntToString(g[1]);
      assert AtomsOf(g) == [u0] + [u1];
      ExpandAtomsAppend([u0], [u1]);
      ExpandAtomsOne(u0);
      ExpandAtomsOne(u1);
      ExpandNumber(g[0]);
      ExpandNumber(g[1]);
      assert g == [g[0]] + [g[1]];
    }
  }

  /** A group's text is its atoms joined with ", ". */
  lemma RenderGroupIsJoinOfAtoms(g: seq<int>)
    requires |g| > 0
    ensures RenderGroup(g) == Join(", ", AtomsOf(g))
  {
  }

  /** The text of a run reads back as the run. */
  lemma RenderGroupReadsBack(g: seq<int>)
    requires |g| > 0 && Consecutive(g)
    ensures Expand(RenderGroup(g)) == g
  {
    RenderGroupIsJoinOfAtoms(g);
    AtomsAvoidComma(g);
    SplitOnJoin(AtomsOf(g), ", ");
    JoinLength(", ", AtomsOf(g));
    ExpandAtomsOf(g);
  }

  /** Only digits and '-' occur in the decimal notation of a number. */
  lemma IntToStringAvoids(n: int, c: char)
    requires !IsAsciiDigit(c) && c != '-'
    ensures c !in IntToString(n)
  {
    var t := IntToString(n);
    assert forall j :: 0 <= j < |t| ==> t[j] != c;
  }

  lemma AtomsAvoidComma(g: seq<int>)
    ensures forall k :: 0 <= k < |AtomsOf(g)| ==> ',' !in AtomsOf(g)[k] && |AtomsOf(g)[k]| > 0
  {
    if |g| >= 3 {
      IntToStringAvoids(g[0], ',');
      IntToStringAvoids(g[|g| - 1], ',');
    } else {
      forall k | 0 <= k < |g| ensures ',' !in IntToString(g[k]) {
        IntToStringAvoids(g[k], ',');
      }
    }
  }

  /** A piece of a page list: non-empty and without a comma. */
  predicate IsAtom(a: string)
  {
    |a| > 0 && ',' !in a
  }

  lemma AtomsConcat(a: seq<string>, b: seq<string>)
    requires forall k :: 0 <= k < |a| ==> IsAtom(a[k])
    requires forall k :: 0 <= k < |b| ==> IsAtom(b[k])
    ensures forall k :: 0 <= k < |a + b| ==> IsAtom((a + b)[k])
  {
    forall k | 0 <= k < |a + b| ensures IsAtom((a + b)[k]) {
      if k >= |a| { assert (a + b)[k] == b[k - |a|]; }
    }
  }

  lemma {:induction false} AllAtomsShape(gs: seq<seq<int>>)
    ensures forall k :: 0 <= k < |AllAtoms(gs)| ==> IsAtom(AllAtoms(gs)[k])
    ensures |gs| > 0 && |gs[|gs| - 1]| > 0 ==> |AllAtoms(gs)| > 0
    decreases |gs|
  {
    if |gs| > 0 {
      var init := gs[..|gs| - 1];
      var g := gs[|gs| - 1];
      AllAtomsShape(init);
      AtomsAvoidComma(g);
      AtomsConcat(AllAtoms(init), AtomsOf(g));
    }
  }

  lemma {:induction false} AllAtomsExpand(gs: seq<seq<int>>)
    requires forall k :: 0 <= k < |gs| ==> |gs[k]| > 0 && Consecutive(gs[k])
    ensures ExpandAtoms(AllAtoms(gs)) == Flatten(gs)
    decreases |gs|
  {
    if |gs| > 0 {
      var init := gs[..|gs| - 1];
      var g := gs[|gs| - 1];
      AllAtomsExpand(init);
      ExpandAtomsAppend(AllAtoms(init), AtomsOf(g));
      ExpandAtomsOf(g);
    }
  }

  lemma RenderAllSnoc(gs: seq<seq<int>>)
    requires |gs| > 0
    ensures RenderAll(gs) == RenderAll(gs[..|gs| - 1]) + [RenderGroup(gs[|gs| - 1])]
  {
  }

  lemma {:induction false} AllAtomsJoin(gs: seq<seq<int>>)
    requires forall k :: 0 <= k < |gs| ==> |gs[k]| > 0
    ensures |gs| > 0 ==> Join(", ", RenderAll(gs)) == Join(", ", AllAtoms(gs))
    decreases |gs|
  {
    if |gs| > 0 {
      var init := gs[..|gs| - 1];
      var g := gs[|gs| - 1];
      AllAtomsJoin(init);
      RenderGroupIsJoinOfAtoms(g);
      RenderAllSnoc(gs);
      if |init| > 0 {
        AllAtomsShape(init);
        AtomsAvoidComma(g);
        JoinAppend(", ", RenderAll(init), [RenderGroup(g)]);
        JoinAppend(", ", AllAtoms(init), AtomsOf(g));
      } else {
        assert AllAtoms(gs) == AtomsOf(g);
        assert RenderAll(gs) == [RenderGroup(g)];
      }
    }
  }

  /** Rendering maximal runs and joining them reads back as the runs put together. */
  lemma RenderedRunsRoundTrip(rs: seq<seq<int>>)
    requires forall k :: 0 <= k < |rs| ==> |rs[k]| > 0 && Consecutive(rs[k])
    ensures Expand(Join(", ", RenderAll(rs))) == Flatten(rs)
  {
    AllAtomsShape(rs);
    AllAtomsExpand(rs);
    AllAtomsJoin(rs);
    if |rs| > 0 {
      var atoms := AllAtoms(rs);
      SplitOnJoin(atoms, ", ");
      JoinLength(", ", atoms);
    }
  }

  /**
   * Compaction loses nothing: reading back the joined pieces of a strictly increasing list
   * gives the list, in order ("1-3, 5, 7-10" for [1, 2, 3, 5, 7, 8, 9, 10]).
   */
  lemma CompactRoundTrip(numbers: seq<int>)
    requires StrictlyIncreasing(numbers)
    ensures Expand(Join(", ", CompactNumbersIntoIntervals(numbers))) == numbers
  {
    var rs := Runs(numbers);
    RunsDecompose(numbers);
    assert CompactNumbersIntoIntervals(numbers) == RenderAll(rs);
    RenderedRunsRoundTrip(rs);
  }
}
