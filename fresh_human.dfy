/** The human Rust solution of Day 5 (human-solutions/05/rust/src/main.rs):
    each range is read low end first, part 1 counts the ids some range
    holds, part 2 sorts the ranges by start, merges each into the last
    merged range when it starts no more than one past that range's end, and
    sums the merged lengths. */
module FreshHuman {
  import opened Intervals

  /** `(a.min(b), a.max(b))`: the range between the two numbers of a line,
      whichever way round they were written. */
  function Normalize(a: int, b: int): (r: Range)
    ensures r.start <= r.end
    ensures (r.start == a && r.end == b) || (r.start == b && r.end == a)
  {
    if a <= b then Range(a, b) else Range(b, a)
  }

  /** Normalising keeps the ids between the two numbers. */
  lemma NormalizeKeepsIds(a: int, b: int, x: int)
    ensures InRange(Normalize(a, b), x) <==> (a <= x <= b || b <= x <= a)
  {
  }

  function NormalizeAll(pairs: seq<(int, int)>): (rs: seq<Range>)
    ensures |rs| == |pairs| && WellFormed(rs)
    ensures forall i :: 0 <= i < |rs| ==> rs[i] == Normalize(pairs[i].0, pairs[i].1)
  {
    seq(|pairs|, i requires 0 <= i < |pairs| => Normalize(pairs[i].0, pairs[i].1))
  }

  /** The sort and the `last_mut` merge loop. */
  method MergeRanges(ranges: seq<Range>) returns (merged: seq<Range>)
    requires WellFormed(ranges)
    ensures Canonical(merged) && SameCover(merged, ranges)
    ensures |merged| <= |ranges|
  {
    var sorted := SortByStart(ranges);
    WellFormedPermutation(ranges, sorted);
    merged := MergeSorted(sorted);
    CoversPermutation(sorted, ranges);
    assert |sorted| == |ranges| by {
      assert |multiset(sorted)| == |multiset(ranges)|;
    }
  }

  /** The `for (start, end) in ranges` loop over the sorted ranges. */
  method MergeSorted(sorted: seq<Range>) returns (merged: seq<Range>)
    requires WellFormed(sorted) && StartsSorted(sorted)
    ensures Canonical(merged) && SameCover(merged, sorted) && |merged| <= |sorted|
  {
    merged := [];
    for i := 0 to |sorted|
      invariant Absorbed(merged, sorted[..i])
    {
      assert sorted[..i + 1] == sorted[..i] + [sorted[i]];
      merged := Absorb(merged, sorted[i], sorted[..i]);
    }
    assert sorted[..|sorted|] == sorted;
  }

  /** The merge after reading the sorted prefix `done`: canonical, no
      longer than `done`, covering what `done` covers, and ending in a range
      that starts no later than the last range read. */
  ghost predicate Absorbed(merged: seq<Range>, done: seq<Range>) {
    Canonical(merged) && |merged| <= |done|
    && (done != [] ==> merged != [] && merged[|merged| - 1].start <= done[|done| - 1].start)
    && forall x :: Covers(merged, x) <==> Covers(done, x)
  }

  /** The body of the merge loop: `match merged.last_mut()`. */
  method Absorb(merged: seq<Range>, r: Range, ghost done: seq<Range>) returns (merged': seq<Range>)
    requires Absorbed(merged, done) && r.start <= r.end
    requires done != [] ==> done[|done| - 1].start <= r.start
    ensures Absorbed(merged', done + [r])
  {
    if merged == [] {
      PushStep(merged, r);
      merged' := [r];
      assert merged' == merged + [r];
    } else {
      var last := merged[|merged| - 1];
      if r.start > last.end + 1 {
        PushStep(merged, r);
        merged' := merged + [r];
      } else {
        ExtendStep(merged, r);
        merged' := merged[|merged| - 1 := Range(last.start, Max(last.end, r.end))];
        assert merged' == merged[..|merged| - 1] + [Range(last.start, if last.end < r.end then r.end else last.end)];
      }
    }
    forall x
      ensures Covers(merged', x) <==> Covers(done + [r], x)
    {
      CoversSnoc(done, r, x);
    }
  }

  function Max(a: int, b: int): (m: int)
    ensures m >= a && m >= b && (m == a || m == b)
  {
    if a < b then b else a
  }

  /** Both answers for the parsed ranges and ids. */
  method Solve(pairs: seq<(int, int)>, ids: seq<int>) returns (part1: nat, part2: int)
    ensures part1 == CountCovered(ids, NormalizeAll(pairs))
    ensures part2 == |Ids(NormalizeAll(pairs))|
  {
    var ranges := NormalizeAll(pairs);
    part1 := CountCovered(ids, ranges);
    var merged := MergeRanges(ranges);
    part2 := Size(merged);
    SizeCountsIds(merged);
    SameIds(merged, ranges);
  }
}
