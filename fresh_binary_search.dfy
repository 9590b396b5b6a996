/** The GPT-5.1 Codex Rust solution of Day 5
    (ai-solutions/05/gpt-5.1-codex/rust/src/main.rs): `u64` ranges are sorted by
    start and merged through a current range, each id is looked up by a
    binary search over the merged ranges, and the merged lengths are summed
    in `u64`, which the release build the harness uses lets wrap. */
module FreshBinarySearch {
  import opened Intervals

  const U64: int := 0x1_0000_0000_0000_0000

  predicate IsU64(x: int) {
    0 <= x < U64
  }

  /** Every bound is a `u64`. */
  predicate U64Ranges(rs: seq<Range>) {
    forall i :: 0 <= i < |rs| ==> IsU64(rs[i].start) && IsU64(rs[i].end)
  }

  /** No range ends at `u64::MAX`, so `current.end + 1` does not wrap. */
  predicate EndsBelowMax(rs: seq<Range>) {
    forall i :: 0 <= i < |rs| ==> rs[i].end < U64 - 1
  }

  /** Both bounds survive reordering. */
  lemma BoundsPermutation(a: seq<Range>, b: seq<Range>)
    requires multiset(a) == multiset(b) && U64Ranges(a)
    ensures U64Ranges(b) && (EndsBelowMax(a) ==> EndsBelowMax(b))
  {
    forall i | 0 <= i < |b|
      ensures IsU64(b[i].start) && IsU64(b[i].end) && (EndsBelowMax(a) ==> b[i].end < U64 - 1)
    {
      assert b[i] in multiset(a);
      var j :| 0 <= j < |a| && a[j] == b[i];
    }
  }

  /** `x + 1` on a `u64` in a release build: `u64::MAX + 1` is 0. */
  function WrappingIncrement(x: int): (y: int)
    requires IsU64(x)
    ensures IsU64(y) && y == (x + 1) % U64
    ensures y <= x + 1 && (x < U64 - 1 ==> y == x + 1)
  {
    if x == U64 - 1 then 0 else x + 1
  }

  /** `merge_ranges`: on well formed input whose ends stay below `u64::MAX`
      the result is canonical and covers what the input covers. */
  method MergeRanges(ranges: seq<Range>) returns (merged: seq<Range>)
    requires U64Ranges(ranges)
    ensures ranges == [] <==> merged == []
    ensures |merged| <= |ranges|
    ensures StartsSorted(merged) && U64Ranges(merged)
    ensures WellFormed(ranges) && EndsBelowMax(ranges) ==> Canonical(merged) && SameCover(merged, ranges)
  {
    if |ranges| == 0 {
      return [];
    }
    var sorted := SortByStart(ranges);
    BoundsPermutation(ranges, sorted);
    assert |sorted| == |ranges| by {
      assert |multiset(sorted)| == |multiset(ranges)|;
    }
    ghost var exact := WellFormed(ranges) && EndsBelowMax(ranges);
    if exact {
      WellFormedPermutation(ranges, sorted);
    }
    merged := MergeSorted(sorted, exact);
    if exact {
      CoversPermutation(sorted, ranges);
    }
  }

  /** The loop of `merge_ranges` over the sorted ranges. */
  method MergeSorted(sorted: seq<Range>, ghost exact: bool) returns (merged: seq<Range>)
    requires sorted != [] && StartsSorted(sorted) && U64Ranges(sorted)
    requires exact ==> WellFormed(sorted) && EndsBelowMax(sorted)
    ensures merged != [] && |merged| <= |sorted|
    ensures StartsSorted(merged) && U64Ranges(merged)
    ensures exact ==> Canonical(merged) && SameCover(merged, sorted)
  {
    merged := [];
    var current := sorted[0];
    assert sorted[..1] == [current];
    MergingStart(current, exact);
    for i := 1 to |sorted|
      invariant Scanning(merged, current, sorted[..i], exact)
    {
      var range := sorted[i];
      assert sorted[..i + 1] == sorted[..i] + [range];
      assert sorted[..i][i - 1] == sorted[i - 1];
      merged, current := Advance(merged, current, range, sorted[..i], exact);
    }
    assert sorted[..|sorted|] == sorted;
    MergingDone(merged, current, sorted, exact);
    merged := merged + [current];
  }

  /** The merge state in `u64`: besides `Merging`, every bound is a `u64`,
      and on exact input the current end stays below `u64::MAX`. */
  ghost predicate Scanning(merged: seq<Range>, current: Range, done: seq<Range>, exact: bool) {
    Merging(merged, current, done, exact)
    && U64Ranges(merged) && IsU64(current.start) && IsU64(current.end)
    && (exact ==> current.end < U64 - 1)
  }

  /** The body of the merge loop, with the wrapping `current.end + 1`. */
  method Advance(merged: seq<Range>, current: Range, range: Range, ghost done: seq<Range>, ghost exact: bool)
    returns (merged': seq<Range>, current': Range)
    requires Scanning(merged, current, done, exact)
    requires done[|done| - 1].start <= range.start && IsU64(range.start) && IsU64(range.end)
    requires exact ==> range.start <= range.end && range.end < U64 - 1
    ensures Scanning(merged', current', done + [range], exact)
  {
    if range.start <= WrappingIncrement(current.end) {
      GrowCurrent(merged, current, done, range, exact);
      merged', current' := merged, Range(current.start, if current.end < range.end then range.end else current.end);
    } else {
      PushCurrent(merged, current, done, range, exact);
      merged', current' := merged + [current], range;
    }
  }

  /** `is_fresh`: binary search for a range holding `id`; a `true` answer
      is always right, and on canonical input so is a `false` one. */
  method IsFresh(id: int, merged: seq<Range>) returns (b: bool)
    requires IsU64(id) && U64Ranges(merged)
    ensures merged == [] ==> !b
    ensures b ==> Covers(merged, id)
    ensures Canonical(merged) && Covers(merged, id) ==> b
  {
    if |merged| == 0 {
      return false;
    }
    var left, right := 0, |merged|;
    while left < right
      invariant 0 <= left <= right <= |merged|
      invariant Canonical(merged) ==>
                  forall j :: 0 <= j < |merged| && (j < left || right <= j) ==> !InRange(merged[j], id)
      decreases right - left
    {
      var mid := left + (right - left) / 2;
      var range := merged[mid];
      if id < range.start {
        if Canonical(merged) {
          CanonicalIsSorted(merged);
          forall j | mid <= j < |merged|
            ensures !InRange(merged[j], id)
          {
            StartsAscending(merged, mid, j);
          }
        }
        right := mid;
      } else if id > range.end {
        if Canonical(merged) {
          forall j | 0 <= j <= mid
            ensures !InRange(merged[j], id)
          {
            CanonicalOrder(merged, j, mid);
          }
        }
        left := mid + 1;
      } else {
        assert range in merged;
        return true;
      }
    }
    if Canonical(merged) {
      forall r | r in merged
        ensures !InRange(r, id)
      {
        var j :| 0 <= j < |merged| && merged[j] == r;
      }
    }
    return false;
  }

  /** `count_fresh`: the ids the binary search finds. */
  method CountFresh(ids: seq<int>, merged: seq<Range>) returns (count: nat)
    requires forall i :: 0 <= i < |ids| ==> IsU64(ids[i])
    requires U64Ranges(merged)
    ensures count <= |ids|
    ensures merged == [] ==> count == 0
    ensures Canonical(merged) ==> count == CountCovered(ids, merged)
  {
    count := 0;
    for i := 0 to |ids|
      invariant count <= i
      invariant merged == [] ==> count == 0
      invariant Canonical(merged) ==> count == CountCovered(ids[..i], merged)
    {
      var found := IsFresh(ids[i], merged);
      assert ids[..i + 1][..i] == ids[..i];
      if found {
        count := count + 1;
      }
    }
    assert ids[..|ids|] == ids;
  }

  /** `r.end - r.start + 1` in wrapping `u64` arithmetic. */
  function Length(r: Range): (n: int)
    ensures IsU64(n) && n == (r.end - r.start + 1) % U64
  {
    ModAdd(r.end - r.start, 1);
    ((r.end - r.start) % U64 + 1) % U64
  }

  /** `total_fresh`: the sum of the lengths, wrapping at 2^64. */
  function TotalFresh(merged: seq<Range>): (total: int)
    ensures IsU64(total) && total == Size(merged) % U64
  {
    if merged == [] then 0
    else
      var init, r := merged[..|merged| - 1], merged[|merged| - 1];
      var t := TotalFresh(init);
      ModAdd(Size(init), r.end - r.start + 1);
      ModAdd(r.end - r.start + 1, t);
      (t + Length(r)) % U64
  }

  /** Reducing one addend first does not change a sum modulo 2^64. */
  lemma ModAdd(a: int, b: int)
    ensures (a % U64 + b) % U64 == (a + b) % U64
  {
    var q := a / U64;
    assert a == q * U64 + a % U64;
    ModShift(a % U64 + b, q);
  }

  lemma {:induction false} ModShift(x: int, q: int)
    ensures (x + q * U64) % U64 == x % U64
    decreases if q < 0 then -q else q
  {
    if q > 0 {
      ModShift(x, q - 1);
      assert x + q * U64 == (x + (q - 1) * U64) + U64;
    } else if q < 0 {
      ModShift(x, q + 1);
      assert x + q * U64 == (x + (q + 1) * U64) - U64;
    }
  }

  /** Both answers: on well formed input ending below `u64::MAX`, the ids
      some range holds, and the number of ids covered modulo 2^64. */
  method Solve(ranges: seq<Range>, ids: seq<int>) returns (part1: nat, part2: int)
    requires U64Ranges(ranges) && forall i :: 0 <= i < |ids| ==> IsU64(ids[i])
    ensures IsU64(part2)
    ensures WellFormed(ranges) && EndsBelowMax(ranges) ==>
              part1 == CountCovered(ids, ranges) && part2 == |Ids(ranges)| % U64
  {
    var merged := MergeRanges(ranges);
    part1 := CountFresh(ids, merged);
    part2 := TotalFresh(merged);
    if WellFormed(ranges) && EndsBelowMax(ranges) {
      CountSameCover(ids, merged, ranges);
      SizeCountsIds(merged);
      SameIds(merged, ranges);
    }
  }
}
