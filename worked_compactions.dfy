/** Worked instances of the page-list compaction, including a run of two left as a list. */
module CompactionExamples {
  import opened Sequences
  import opened Numerals
  import opened Ordering
  import opened Intervals

  lemma RunsMixed()
    ensures Runs([1, 2, 3, 5, 7, 8, 9, 10]) == [[1, 2, 3], [5], [7, 8, 9, 10]]
  {
    MixedFlatten();
    MixedSeparated();
    RunDecompositionUnique([[1, 2, 3], [5], [7, 8, 9, 10]], [1, 2, 3, 5, 7, 8, 9, 10]);
  }

  lemma MixedFlatten()
    ensures Flatten([[1, 2, 3], [5], [7, 8, 9, 10]]) == [1, 2, 3, 5, 7, 8, 9, 10]
  {
    FlattenSnoc([], [1, 2, 3]);
    FlattenSnoc([[1, 2, 3]], [5]);
    FlattenSnoc([[1, 2, 3], [5]], [7, 8, 9, 10]);
    assert [[1, 2, 3], [5]] + [[7, 8, 9, 10]] == [[1, 2, 3], [5], [7, 8, 9, 10]];
  }

  lemma MixedSeparated()
    ensures RunsSeparated([[1, 2, 3], [5], [7, 8, 9, 10]])
  {
    assert Consecutive([1, 2, 3]) && Consecutive([5]) && Consecutive([7, 8, 9, 10]);
  }

  lemma RenderMixed()
    ensures RenderGroup([1, 2, 3]) == "1-3" && RenderGroup([5]) == "5" && RenderGroup([7, 8, 9, 10]) == "7-10"
  {
    assert IntToString(10) == "10" by {
      assert NatToString(1) == "1" && NatToString(0) == "0";
    }
    assert IntStrings([5]) == ["5"];
  }

  lemma CompactMixed()
    ensures Join(", ", CompactNumbersIntoIntervals([1, 2, 3, 5, 7, 8, 9, 10])) == "1-3, 5, 7-10"
  {
    RunsMixed();
    RenderMixed();
    CompactIsRendering([1, 2, 3, 5, 7, 8, 9, 10], [[1, 2, 3], [5], [7, 8, 9, 10]]);
    assert RenderAll([[1, 2, 3], [5], [7, 8, 9, 10]]) == ["1-3", "5", "7-10"];
    JoinMixed();
  }

  lemma JoinMixed()
    ensures Join(", ", ["1-3", "5", "7-10"]) == "1-3, 5, 7-10"
  {
  }

  lemma CompactIsRendering(numbers: seq<int>, rs: seq<seq<int>>)
    requires StrictlyIncreasing(numbers) && Runs(numbers) == rs
    ensures CompactNumbersIntoIntervals(numbers) == RenderAll(rs)
  {
  }

  lemma RunsPair()
    ensures Runs([1, 2]) == [[1, 2]]
  {
    FlattenSnoc([], [1, 2]);
    RunDecompositionUnique([[1, 2]], [1, 2]);
  }

  lemma RenderPair()
    ensures RenderGroup([1, 2]) == "1, 2"
  {
    assert IntStrings([1, 2]) == ["1", "2"];
  }

  /** Two consecutive pages are listed, not written as a range. */
  lemma CompactPair()
    ensures Join(", ", CompactNumbersIntoIntervals([1, 2])) == "1, 2"
  {
    RunsPair();
    RenderPair();
    var pieces := CompactNumbersIntoIntervals([1, 2]);
    assert pieces == ["1, 2"];
  }

  lemma RunsRangeThenSingle()
    ensures Runs([4, 5, 6, 7, 9]) == [[4, 5, 6, 7], [9]]
  {
    FlattenSnoc([], [4, 5, 6, 7]);
    FlattenSnoc([[4, 5, 6, 7]], [9]);
    assert [[4, 5, 6, 7]] + [[9]] == [[4, 5, 6, 7], [9]];
    RunDecompositionUnique([[4, 5, 6, 7], [9]], [4, 5, 6, 7, 9]);
  }

  lemma RenderRangeThenSingle()
    ensures RenderGroup([4, 5, 6, 7]) == "4-7" && RenderGroup([9]) == "9"
  {
    assert IntStrings([9]) == ["9"];
  }

  lemma CompactRangeThenSingle()
    ensures Join(", ", CompactNumbersIntoIntervals([4, 5, 6, 7, 9])) == "4-7, 9"
  {
    RunsRangeThenSingle();
    RenderRangeThenSingle();
    var pieces := CompactNumbersIntoIntervals([4, 5, 6, 7, 9]);
    assert pieces == ["4-7", "9"];
  }
}
