/** Day 5: inclusive ranges of fresh ingredient ids. This module holds what
    the three solutions share: when a list of ranges covers an id, the
    canonical form merging produces (sorted, each range ending more than one
    below the next start), the number of ids a list covers, and the two
    sorts the solutions call. */
module Intervals {

  /** An inclusive range `start-end` of ids. */
  datatype Range = Range(start: int, end: int)

  predicate InRange(r: Range, x: int) {
    r.start <= x <= r.end
  }

  /** Some range of `rs` holds `x`. */
  predicate Covers(rs: seq<Range>, x: int) {
    exists r :: r in rs && InRange(r, x)
  }

  /** Two lists cover the same ids. */
  ghost predicate SameCover(a: seq<Range>, b: seq<Range>) {
    forall x :: Covers(a, x) <==> Covers(b, x)
  }

  lemma CoversSnoc(rs: seq<Range>, r: Range, x: int)
    ensures Covers(rs + [r], x) <==> Covers(rs, x) || InRange(r, x)
  {
    if Covers(rs, x) {
      var q :| q in rs && InRange(q, x);
      assert q in rs + [r];
    }
    if InRange(r, x) {
      assert r in rs + [r];
    }
  }

  /** Lists holding the same ranges, in any order, cover the same ids. */
  lemma CoversPermutation(a: seq<Range>, b: seq<Range>)
    requires multiset(a) == multiset(b)
    ensures SameCover(a, b)
  {
    forall x
      ensures Covers(a, x) <==> Covers(b, x)
    {
      if Covers(a, x) {
        var r :| r in a && InRange(r, x);
        assert r in multiset(b);
      }
      if Covers(b, x) {
        var r :| r in b && InRange(r, x);
        assert r in multiset(a);
      }
    }
  }

  /** Lists holding the same ranges hold the same members. */
  lemma SameMembers(a: seq<Range>, b: seq<Range>)
    requires multiset(a) == multiset(b)
    ensures forall r :: r in a <==> r in b
  {
    forall r
      ensures r in a <==> r in b
    {
      assert r in a <==> r in multiset(a);
      assert r in b <==> r in multiset(b);
    }
  }

  /** Every range is written low end first. */
  predicate WellFormed(rs: seq<Range>) {
    forall i :: 0 <= i < |rs| ==> rs[i].start <= rs[i].end
  }

  /** Reordering the ranges keeps them well formed. */
  lemma WellFormedPermutation(a: seq<Range>, b: seq<Range>)
    requires multiset(a) == multiset(b) && WellFormed(a)
    ensures WellFormed(b)
  {
    forall i | 0 <= i < |b|
      ensures b[i].start <= b[i].end
    {
      assert b[i] in multiset(a);
      var j :| 0 <= j < |a| && a[j] == b[i];
    }
  }

  /** Starts never decrease along the list. */
  predicate StartsSorted(rs: seq<Range>) {
    forall i :: 0 < i < |rs| ==> rs[i - 1].start <= rs[i].start
  }

  /** Sorted by start between any two positions, not only neighbours. */
  lemma {:induction false} StartsAscending(rs: seq<Range>, i: nat, j: nat)
    requires StartsSorted(rs) && i <= j < |rs|
    ensures rs[i].start <= rs[j].start
    decreases j - i
  {
    if i < j {
      StartsAscending(rs, i, j - 1);
    }
  }

  /** The form merging produces: well formed, and each range starts more
      than one past the end of the one before, so no two ranges overlap or
      touch. */
  predicate Canonical(rs: seq<Range>) {
    WellFormed(rs) && forall i :: 0 < i < |rs| ==> rs[i - 1].end + 1 < rs[i].start
  }

  /** In a canonical list every range lies above all earlier ones. */
  lemma {:induction false} CanonicalSpread(rs: seq<Range>, i: nat, j: nat)
    requires Canonical(rs) && i < j < |rs|
    ensures rs[i].end + 1 < rs[j].start
    decreases j - i
  {
    if i + 1 < j {
      CanonicalSpread(rs, i + 1, j);
    }
  }

  /** The same, callable for any two positions. */
  lemma CanonicalOrder(rs: seq<Range>, i: nat, j: nat)
    requires Canonical(rs) && i < |rs| && j < |rs|
    ensures i < j ==> rs[i].end + 1 < rs[j].start
  {
    if i < j {
      CanonicalSpread(rs, i, j);
    }
  }

  lemma CanonicalIsSorted(rs: seq<Range>)
    requires Canonical(rs)
    ensures StartsSorted(rs)
  {
  }

  /** What the tail of a canonical list covers lies beyond its head. */
  lemma TailAbove(rs: seq<Range>, x: int)
    requires Canonical(rs) && rs != []
    ensures Covers(rs[1..], x) ==> rs[0].end + 1 < x
  {
    if Covers(rs[1..], x) {
      var r :| r in rs[1..] && InRange(r, x);
      var j :| 0 <= j < |rs[1..]| && rs[1..][j] == r;
      CanonicalSpread(rs, 0, j + 1);
    }
  }

  lemma CoversCons(rs: seq<Range>, x: int)
    requires rs != []
    ensures Covers(rs, x) <==> InRange(rs[0], x) || Covers(rs[1..], x)
  {
    assert rs == [rs[0]] + rs[1..];
    if Covers(rs, x) {
      var r :| r in rs && InRange(r, x);
      if r != rs[0] {
        assert r in rs[1..];
      }
    }
    if Covers(rs[1..], x) {
      var r :| r in rs[1..] && InRange(r, x);
      assert r in rs;
    }
  }

  /** Canonical lists covering the same ids are the same list: the merged
      form does not depend on how the ranges were ordered or split. */
  lemma {:induction false} CanonicalUnique(a: seq<Range>, b: seq<Range>)
    requires Canonical(a) && Canonical(b) && SameCover(a, b)
    ensures a == b
    decreases |a|
  {
    if a != [] {
      assert InRange(a[0], a[0].start) && a[0] in a;
      assert Covers(a, a[0].start);
    }
    if b != [] {
      assert InRange(b[0], b[0].start) && b[0] in b;
      assert Covers(b, b[0].start);
    }
    if a != [] && b != [] {
      HeadsAgree(a, b);
      forall x
        ensures Covers(a[1..], x) <==> Covers(b[1..], x)
      {
        TailCover(a, x);
        TailCover(b, x);
      }
      CanonicalUnique(a[1..], b[1..]);
      assert a == [a[0]] + a[1..];
      assert b == [b[0]] + b[1..];
    }
  }

  /** The first range of a canonical list is its lowest run of ids. */
  lemma HeadsAgree(a: seq<Range>, b: seq<Range>)
    requires Canonical(a) && Canonical(b) && SameCover(a, b) && a != [] && b != []
    ensures a[0] == b[0]
  {
    assert InRange(a[0], a[0].start);
    assert InRange(b[0], b[0].start);
    LowestStart(a, b[0].start);
    LowestStart(b, a[0].start);
    Gap(a);
    Gap(b);
    CoversCons(a, b[0].end);
    CoversCons(b, a[0].end);
    CoversCons(a, b[0].end + 1);
    CoversCons(b, a[0].end + 1);
  }

  /** A canonical list covers nothing below its first start. */
  lemma LowestStart(rs: seq<Range>, x: int)
    requires Canonical(rs) && rs != []
    ensures Covers(rs, x) ==> rs[0].start <= x
  {
    CoversCons(rs, x);
    TailAbove(rs, x);
  }

  /** The id just past the first range is not covered. */
  lemma Gap(rs: seq<Range>)
    requires Canonical(rs) && rs != []
    ensures !Covers(rs, rs[0].end + 1)
  {
    CoversCons(rs, rs[0].end + 1);
    TailAbove(rs, rs[0].end + 1);
  }

  /** The tail of a canonical list covers what the list covers above the
      first range. */
  lemma TailCover(rs: seq<Range>, x: int)
    requires Canonical(rs) && rs != []
    ensures Covers(rs[1..], x) <==> Covers(rs, x) && rs[0].end < x
  {
    CoversCons(rs, x);
    TailAbove(rs, x);
  }

  // -------------------------------------------------------------- merging

  /** One merge step when the next range starts at or before one past the
      end of the last merged range: the last range grows to cover both. */
  lemma ExtendStep(acc: seq<Range>, r: Range)
    requires Canonical(acc) && acc != [] && r.start <= r.end
    requires acc[|acc| - 1].start <= r.start <= acc[|acc| - 1].end + 1
    ensures var last := acc[|acc| - 1];
      var acc' := acc[..|acc| - 1] + [Range(last.start, if last.end < r.end then r.end else last.end)];
      Canonical(acc') && forall x :: Covers(acc', x) <==> Covers(acc, x) || InRange(r, x)
  {
    var last := acc[|acc| - 1];
    var grown := Range(last.start, if last.end < r.end then r.end else last.end);
    var init := acc[..|acc| - 1];
    assert acc == init + [last];
    forall x
      ensures Covers(init + [grown], x) <==> Covers(acc, x) || InRange(r, x)
    {
      CoversSnoc(init, grown, x);
      CoversSnoc(init, last, x);
    }
  }

  /** One merge step when the next range starts more than one past the end
      of the last merged range: it is appended as a range of its own. */
  lemma PushStep(acc: seq<Range>, r: Range)
    requires Canonical(acc) && r.start <= r.end
    requires acc != [] ==> acc[|acc| - 1].end + 1 < r.start
    ensures Canonical(acc + [r])
    ensures forall x :: Covers(acc + [r], x) <==> Covers(acc, x) || InRange(r, x)
  {
    forall x
      ensures Covers(acc + [r], x) <==> Covers(acc, x) || InRange(r, x)
    {
      CoversSnoc(acc, r, x);
    }
  }

  /** The state of a merge that carries a current range `cur` beside the
      closed ranges `merged`, after reading the sorted prefix `done`: the
      ranges so far are sorted by start, and when the input is well formed
      (`wf`) they are canonical and cover what `done` covers. */
  ghost predicate Merging(merged: seq<Range>, cur: Range, done: seq<Range>, wf: bool) {
    done != [] && |merged| < |done|
    && StartsSorted(merged + [cur]) && cur.start <= done[|done| - 1].start
    && (wf ==> Canonical(merged + [cur]) && forall x :: Covers(merged + [cur], x) <==> Covers(done, x))
  }

  lemma MergingStart(r: Range, wf: bool)
    requires wf ==> r.start <= r.end
    ensures Merging([], r, [r], wf)
  {
    if wf {
      PushStep([], r);
      assert [] + [r] == [r];
    }
  }

  /** The next range starts no more than one past the current one: the
      current range grows to the larger end. */
  lemma GrowCurrent(merged: seq<Range>, cur: Range, done: seq<Range>, r: Range, wf: bool)
    requires Merging(merged, cur, done, wf)
    requires done[|done| - 1].start <= r.start <= cur.end + 1
    requires wf ==> r.start <= r.end
    ensures Merging(merged, Range(cur.start, if cur.end < r.end then r.end else cur.end), done + [r], wf)
  {
    var acc := merged + [cur];
    var grown := Range(cur.start, if cur.end < r.end then r.end else cur.end);
    assert acc[..|acc| - 1] == merged;
    assert forall i :: 0 <= i < |acc| ==> (merged + [grown])[i].start == acc[i].start;
    if wf {
      ExtendStep(acc, r);
      forall x
        ensures Covers(done + [r], x) <==> Covers(done, x) || InRange(r, x)
      {
        CoversSnoc(done, r, x);
      }
    }
  }

  /** Otherwise the current range is closed and the next one becomes
      current; on well formed input it starts more than one past the end. */
  lemma PushCurrent(merged: seq<Range>, cur: Range, done: seq<Range>, r: Range, wf: bool)
    requires Merging(merged, cur, done, wf)
    requires done[|done| - 1].start <= r.start
    requires wf ==> r.start <= r.end && cur.end + 1 < r.start
    ensures Merging(merged + [cur], r, done + [r], wf)
  {
    var acc := merged + [cur];
    if wf {
      PushStep(acc, r);
      forall x
        ensures Covers(done + [r], x) <==> Covers(done, x) || InRange(r, x)
      {
        CoversSnoc(done, r, x);
      }
    }
  }

  lemma MergingDone(merged: seq<Range>, cur: Range, done: seq<Range>, wf: bool)
    requires Merging(merged, cur, done, wf)
    ensures |merged + [cur]| <= |done| && StartsSorted(merged + [cur])
    ensures wf ==> Canonical(merged + [cur]) && SameCover(merged + [cur], done)
  {
  }

  // --------------------------------------------------------------- sizes

  /** The ids of one range. */
  function Span(r: Range): (s: set<int>)
    ensures forall x :: x in s <==> InRange(r, x)
  {
    set x | r.start <= x <= r.end && InRange(r, x)
  }

  lemma {:induction false} SpanSize(r: Range)
    requires r.start <= r.end
    ensures |Span(r)| == r.end - r.start + 1
    decreases r.end - r.start
  {
    if r.start < r.end {
      var shorter := Range(r.start, r.end - 1);
      SpanSize(shorter);
      assert Span(r) == Span(shorter) + {r.end};
    } else {
      assert Span(r) == {r.start};
    }
  }

  /** The ids a list covers. */
  function Ids(rs: seq<Range>): set<int> {
    if rs == [] then {} else Ids(rs[..|rs| - 1]) + Span(rs[|rs| - 1])
  }

  lemma {:induction false} InIds(rs: seq<Range>, x: int)
    ensures x in Ids(rs) <==> Covers(rs, x)
  {
    if rs != [] {
      var init := rs[..|rs| - 1];
      InIds(init, x);
      assert rs == init + [rs[|rs| - 1]];
      CoversSnoc(init, rs[|rs| - 1], x);
    }
  }

  /** Lists covering the same ids have the same id set. */
  lemma SameIds(a: seq<Range>, b: seq<Range>)
    requires SameCover(a, b)
    ensures Ids(a) == Ids(b)
  {
    forall x
      ensures x in Ids(a) <==> x in Ids(b)
    {
      InIds(a, x);
      InIds(b, x);
    }
  }

  /** The sum of `end - start + 1` over the ranges. */
  function Size(rs: seq<Range>): int {
    if rs == [] then 0
    else
      var r := rs[|rs| - 1];
      Size(rs[..|rs| - 1]) + (r.end - r.start + 1)
  }

  /** On a canonical list the sum of the range lengths counts every covered
      id exactly once. */
  lemma {:induction false} SizeCountsIds(rs: seq<Range>)
    requires Canonical(rs)
    ensures Size(rs) == |Ids(rs)|
  {
    if rs != [] {
      var init, r := rs[..|rs| - 1], rs[|rs| - 1];
      assert Canonical(init);
      SizeCountsIds(init);
      SpanSize(r);
      LastApart(rs);
      assert Ids(rs) == Ids(init) + Span(r);
    }
  }

  /** The last range of a canonical list shares no id with the others. */
  lemma LastApart(rs: seq<Range>)
    requires Canonical(rs) && rs != []
    ensures Ids(rs[..|rs| - 1]) * Span(rs[|rs| - 1]) == {}
  {
    var init, r := rs[..|rs| - 1], rs[|rs| - 1];
    forall x | x in Ids(init)
      ensures x < r.start
    {
      InIds(init, x);
      var q :| q in init && InRange(q, x);
      var j :| 0 <= j < |init| && init[j] == q;
      CanonicalSpread(rs, j, |rs| - 1);
    }
  }

  // ------------------------------------------------------------- counting

  /** How many of `ids` some range of `rs` covers. */
  function CountCovered(ids: seq<int>, rs: seq<Range>): (n: nat)
    ensures n <= |ids|
  {
    if ids == [] then 0
    else CountCovered(ids[..|ids| - 1], rs) + (if Covers(rs, ids[|ids| - 1]) then 1 else 0)
  }

  /** No range, no id counted. */
  lemma {:induction false} CountNothing(ids: seq<int>)
    ensures CountCovered(ids, []) == 0
  {
    if ids != [] {
      CountNothing(ids[..|ids| - 1]);
      assert !Covers([], ids[|ids| - 1]);
    }
  }

  /** Lists covering the same ids count the same ids. */
  lemma {:induction false} CountSameCover(ids: seq<int>, a: seq<Range>, b: seq<Range>)
    requires SameCover(a, b)
    ensures CountCovered(ids, a) == CountCovered(ids, b)
  {
    if ids != [] {
      CountSameCover(ids[..|ids| - 1], a, b);
    }
  }

  // -------------------------------------------------------------- sorting

  /** Rust's `sort_by_key(|r| r.start)`: a stable insertion sort by start. */
  function SortByStart(rs: seq<Range>): (out: seq<Range>)
    ensures multiset(out) == multiset(rs)
    ensures StartsSorted(out)
  {
    if rs == [] then []
    else
      assert rs == [rs[0]] + rs[1..];
      InsertByStart(rs[0], SortByStart(rs[1..]))
  }

  /** `r` placed before the first range whose start is at least its own. */
  function InsertByStart(r: Range, rs: seq<Range>): (out: seq<Range>)
    requires StartsSorted(rs)
    ensures multiset(out) == multiset(rs) + multiset{r}
    ensures StartsSorted(out)
    ensures out[0] == r || (rs != [] && out[0] == rs[0])
  {
    if rs == [] || r.start <= rs[0].start then
      ConsSorted(r, rs);
      [r] + rs
    else
      SortedTail(rs);
      var rest := InsertByStart(r, rs[1..]);
      assert rs == [rs[0]] + rs[1..];
      ConsSorted(rs[0], rest);
      [rs[0]] + rest
  }

  lemma SortedTail(rs: seq<Range>)
    requires rs != [] && StartsSorted(rs)
    ensures StartsSorted(rs[1..])
  {
    forall i | 0 < i < |rs| - 1
      ensures rs[1..][i - 1].start <= rs[1..][i].start
    {
      assert rs[1..][i - 1] == rs[i] && rs[1..][i] == rs[i + 1];
    }
  }

  lemma ConsSorted(x: Range, rs: seq<Range>)
    requires StartsSorted(rs) && (rs != [] ==> x.start <= rs[0].start)
    ensures StartsSorted([x] + rs)
  {
    forall i | 0 < i < |rs| + 1
      ensures ([x] + rs)[i - 1].start <= ([x] + rs)[i].start
    {
      if i > 1 {
        assert ([x] + rs)[i - 1] == rs[i - 2] && ([x] + rs)[i] == rs[i - 1];
      }
    }
  }

  /** Python's tuple order: by start, then by end. */
  predicate LexLe(a: Range, b: Range) {
    a.start < b.start || (a.start == b.start && a.end <= b.end)
  }

  predicate LexSorted(rs: seq<Range>) {
    forall i :: 0 < i < |rs| ==> LexLe(rs[i - 1], rs[i])
  }

  /** Python's `sorted` on `(start, end)` tuples. */
  function SortLex(rs: seq<Range>): (out: seq<Range>)
    ensures multiset(out) == multiset(rs)
    ensures LexSorted(out) && StartsSorted(out)
  {
    if rs == [] then []
    else
      assert rs == [rs[0]] + rs[1..];
      InsertLex(rs[0], SortLex(rs[1..]))
  }

  function InsertLex(r: Range, rs: seq<Range>): (out: seq<Range>)
    requires LexSorted(rs)
    ensures multiset(out) == multiset(rs) + multiset{r}
    ensures LexSorted(out)
    ensures out[0] == r || (rs != [] && out[0] == rs[0])
  {
    if rs == [] || LexLe(r, rs[0]) then
      ConsLex(r, rs);
      [r] + rs
    else
      LexTail(rs);
      var rest := InsertLex(r, rs[1..]);
      assert rs == [rs[0]] + rs[1..];
      ConsLex(rs[0], rest);
      [rs[0]] + rest
  }

  lemma LexTail(rs: seq<Range>)
    requires rs != [] && LexSorted(rs)
    ensures LexSorted(rs[1..])
  {
    forall i | 0 < i < |rs| - 1
      ensures LexLe(rs[1..][i - 1], rs[1..][i])
    {
      assert rs[1..][i - 1] == rs[i] && rs[1..][i] == rs[i + 1];
    }
  }

  lemma ConsLex(x: Range, rs: seq<Range>)
    requires LexSorted(rs) && (rs != [] ==> LexLe(x, rs[0]))
    ensures LexSorted([x] + rs)
  {
    forall i | 0 < i < |rs| + 1
      ensures LexLe(([x] + rs)[i - 1], ([x] + rs)[i])
    {
      if i > 1 {
        assert ([x] + rs)[i - 1] == rs[i - 2] && ([x] + rs)[i] == rs[i - 1];
      }
    }
  }
}
