/** The GPT-5.1 Codex Python solution of Day 5
    (ai-solutions/05/gpt-5.1-codex/python/main.py): the input is read into
    ranges and ids, the ranges are sorted as tuples and merged through a
    current range, ids are looked up by bisecting the merged starts, and
    the merged lengths are summed. */
module FreshPython {
  import opened Wrappers
  import opened Text
  import opened Intervals

  // -------------------------------------------------------------- reading

  /** `start, end = line.split("-")`: exactly two parts, each a number. */
  function ParseRange(line: string): Option<Range> {
    var parts := Split(line, '-');
    if |parts| != 2 then None
    else
      match (PyInt(parts[0]), PyInt(parts[1]))
      case (Some(a), Some(b)) => Some(Range(a, b))
      case _ => None
  }

  /** The text of a range line, `start-end`, for non-negative bounds. */
  function RangeLine(r: Range): string
    requires r.start >= 0 && r.end >= 0
  {
    NatToString(r.start) + "-" + NatToString(r.end)
  }

  /** Reading back a written range line gives the range. */
  lemma ParseRangeLine(r: Range)
    requires r.start >= 0 && r.end >= 0
    ensures ParseRange(RangeLine(r)) == Some(r)
  {
    var a, b := NatToString(r.start), NatToString(r.end);
    NoneOutside(a, '-');
    NoneOutside(b, '-');
    SplitTwo(a, b, '-');
    assert a + "-" + b == a + ['-'] + b;
    NatToStringValue(r.start);
    NatToStringValue(r.end);
  }

  /** The loop over the range lines. */
  function ParseRanges(lines: seq<string>): Result<seq<Range>> {
    ParseAll(ParseRange, lines)
  }

  /** `[int(line) for line in ... if line]`. */
  function ParseIds(lines: seq<string>): Result<seq<int>> {
    ParseAll(PyInt, NonEmpty(lines))
  }

  /** `read_input`: two blank-line-separated sections, or an error. */
  function ReadInput(text: string): (r: Result<(seq<Range>, seq<int>)>)
    ensures r.Ok? <==> var content := SplitOn(Trim(text), "\n\n");
      |content| == 2
      && ParseRanges(Lines(Trim(content[0]))).Ok?
      && ParseIds(Lines(Trim(content[1]))).Ok?
    ensures r.Ok? ==> var content := SplitOn(Trim(text), "\n\n");
      |content| == 2
      && ParseRanges(Lines(Trim(content[0]))) == Ok(r.value.0)
      && ParseIds(Lines(Trim(content[1]))) == Ok(r.value.1)
  {
    var content := SplitOn(Trim(text), "\n\n");
    if |content| != 2 then Err("Input file must contain ranges, a blank line, then IDs.")
    else
      match (ParseRanges(Lines(Trim(content[0]))), ParseIds(Lines(Trim(content[1]))))
      case (Ok(ranges), Ok(ids)) => Ok((ranges, ids))
      case (Err(e), _) => Err(e)
      case (_, Err(e)) => Err(e)
  }

  // -------------------------------------------------------------- merging

  /** `merge_ranges`: sort, then grow the current range while the next one
      starts no more than one past its end. */
  method MergeRanges(ranges: seq<Range>) returns (merged: seq<Range>)
    ensures ranges == [] <==> merged == []
    ensures |merged| <= |ranges|
    ensures StartsSorted(merged)
    ensures WellFormed(ranges) ==> Canonical(merged) && SameCover(merged, ranges)
  {
    var sorted := SortLex(ranges);
    assert |sorted| == |ranges| by {
      assert |multiset(sorted)| == |multiset(ranges)|;
    }
    if |sorted| == 0 {
      return [];
    }
    ghost var wf := WellFormed(ranges);
    if wf {
      WellFormedPermutation(ranges, sorted);
    }
    merged := MergeSorted(sorted, wf);
    if wf {
      CoversPermutation(sorted, ranges);
    }
  }

  /** The loop of `merge_ranges` over the sorted ranges. */
  method MergeSorted(sorted: seq<Range>, ghost wf: bool) returns (merged: seq<Range>)
    requires sorted != [] && StartsSorted(sorted)
    requires wf ==> WellFormed(sorted)
    ensures merged != [] && |merged| <= |sorted| && StartsSorted(merged)
    ensures wf ==> Canonical(merged) && SameCover(merged, sorted)
  {
    merged := [];
    var cur := sorted[0];
    assert sorted[..1] == [cur];
    MergingStart(cur, wf);
    for i := 1 to |sorted|
      invariant Merging(merged, cur, sorted[..i], wf)
    {
      var r := sorted[i];
      assert sorted[..i + 1] == sorted[..i] + [r];
      assert sorted[..i][i - 1] == sorted[i - 1];
      merged, cur := Advance(merged, cur, r, sorted[..i], wf);
    }
    assert sorted[..|sorted|] == sorted;
    MergingDone(merged, cur, sorted, wf);
    merged := merged + [cur];
  }

  /** The body of the merge loop: grow `cur_end`, or close the current
      range and start the next. */
  method Advance(merged: seq<Range>, cur: Range, r: Range, ghost done: seq<Range>, ghost wf: bool)
    returns (merged': seq<Range>, cur': Range)
    requires Merging(merged, cur, done, wf)
    requires done[|done| - 1].start <= r.start
    requires wf ==> r.start <= r.end
    ensures Merging(merged', cur', done + [r], wf)
  {
    if r.start <= cur.end + 1 {
      GrowCurrent(merged, cur, done, r, wf);
      merged', cur' := merged, Range(cur.start, if cur.end < r.end then r.end else cur.end);
    } else {
      PushCurrent(merged, cur, done, r, wf);
      merged', cur' := merged + [cur], r;
    }
  }

  // ------------------------------------------------------------- counting

  predicate Ascending(xs: seq<int>) {
    forall i, j :: 0 <= i <= j < |xs| ==> xs[i] <= xs[j]
  }

  /** `[r[0] for r in merged_ranges]`. */
  function Starts(rs: seq<Range>): (xs: seq<int>)
    ensures |xs| == |rs| && forall i :: 0 <= i < |rs| ==> xs[i] == rs[i].start
  {
    seq(|rs|, i requires 0 <= i < |rs| => rs[i].start)
  }

  /** `bisect_right`: the position after the last element at most `v`. */
  function BisectRight(xs: seq<int>, v: int): (k: nat)
    requires Ascending(xs)
    ensures k <= |xs|
    ensures forall j :: 0 <= j < k ==> xs[j] <= v
    ensures forall j :: k <= j < |xs| ==> v < xs[j]
  {
    if xs == [] || xs[|xs| - 1] <= v then |xs|
    else BisectRight(xs[..|xs| - 1], v)
  }

  lemma StartsAreAscending(rs: seq<Range>)
    requires StartsSorted(rs)
    ensures Ascending(Starts(rs))
  {
    forall i, j | 0 <= i <= j < |rs|
      ensures rs[i].start <= rs[j].start
    {
      StartsAscending(rs, i, j);
    }
  }

  /** The test of one id: the range with the last start at most the id is
      the only one that can hold it. */
  predicate Probe(merged: seq<Range>, v: int)
    requires StartsSorted(merged)
  {
    StartsAreAscending(merged);
    var idx := BisectRight(Starts(merged), v) - 1;
    idx >= 0 && v <= merged[idx].end
  }

  /** On a canonical list the probe answers whether some range holds `v`. */
  lemma ProbeFinds(merged: seq<Range>, v: int)
    requires Canonical(merged)
    ensures StartsSorted(merged) && (Probe(merged, v) <==> Covers(merged, v))
  {
    CanonicalIsSorted(merged);
    StartsAreAscending(merged);
    var k := BisectRight(Starts(merged), v);
    assert Probe(merged, v) == (k >= 1 && v <= merged[k - 1].end);
    if Covers(merged, v) {
      CoveredAtProbe(merged, v, k);
    }
    if k >= 1 && v <= merged[k - 1].end {
      assert merged[k - 1] in merged;
    }
  }

  /** A covered id lies in the range just before the first start above it. */
  lemma CoveredAtProbe(merged: seq<Range>, v: int, k: nat)
    requires Canonical(merged) && k <= |merged| && Covers(merged, v)
    requires forall j :: k <= j < |merged| ==> v < merged[j].start
    ensures k >= 1 && v <= merged[k - 1].end
  {
    var r :| r in merged && InRange(r, v);
    var j :| 0 <= j < |merged| && merged[j] == r;
    assert j < k;
    CanonicalOrder(merged, j, k - 1);
  }

  /** `count_fresh`. */
  method CountFresh(ids: seq<int>, merged: seq<Range>) returns (count: nat)
    requires StartsSorted(merged)
    ensures count <= |ids|
    ensures merged == [] ==> count == 0
    ensures Canonical(merged) ==> count == CountCovered(ids, merged)
  {
    if |merged| == 0 {
      CountNothing(ids);
      return 0;
    }
    StartsAreAscending(merged);
    var starts := Starts(merged);
    count := 0;
    for i := 0 to |ids|
      invariant count <= i
      invariant Canonical(merged) ==> count == CountCovered(ids[..i], merged)
    {
      var value := ids[i];
      var idx := BisectRight(starts, value) - 1;
      if Canonical(merged) {
        ProbeFinds(merged, value);
        assert ids[..i + 1][..i] == ids[..i];
      }
      if idx >= 0 && value <= merged[idx].end {
        count := count + 1;
      }
    }
    assert ids[..|ids|] == ids;
  }

  /** Both answers, or the error `read_input` raises. */
  method Solve(text: string) returns (r: Result<(nat, int)>)
    ensures r.Ok? <==> ReadInput(text).Ok?
    ensures r.Ok? && WellFormed(ReadInput(text).value.0) ==>
      var (ranges, ids) := ReadInput(text).value;
      r.value == (CountCovered(ids, ranges), |Ids(ranges)|)
  {
    match ReadInput(text)
    case Err(e) =>
      return Err(e);
    case Ok((ranges, ids)) =>
      var merged := MergeRanges(ranges);
      var part1 := CountFresh(ids, merged);
      var part2 := Size(merged);
      if WellFormed(ranges) {
        CountSameCover(ids, merged, ranges);
        SizeCountsIds(merged);
        SameIds(merged, ranges);
      }
      return Ok((part1, part2));
  }
}
