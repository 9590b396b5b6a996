/** Day 2 as the human Rust solution solves it (human-solutions/02/rust/src/main.rs):
    an id is invalid for part 1 when its decimal text is some text written
    twice, and for part 2 when it is some block written two or more times;
    the invalid ids of all ranges are collected in sets and summed. */
module RepeatedIds {
  import opened Wrappers
  import opened Text
  import opened SetSums

  // ------------------------------------------------------------ the rules

  /** `b` written `m` times. */
  function Repeat(b: string, m: nat): (s: string)
    ensures |s| == |b| * m
  {
    if m == 0 then [] else b + Repeat(b, m - 1)
  }

  /** Part 1's rule: the text is one half written twice. */
  ghost predicate ExactDouble(s: string) {
    exists h: string :: s == h + h
  }

  /** Part 2's rule: the text is a non-empty block written at least twice. */
  ghost predicate RepeatedBlock(s: string) {
    exists b: string, m: nat :: m >= 2 && |b| > 0 && s == Repeat(b, m)
  }

  /** `is_exact_double`: an even length whose two halves agree. */
  function IsExactDouble(s: string): (b: bool)
    ensures b <==> ExactDouble(s)
    ensures |s| % 2 != 0 ==> !b
  {
    var mid := |s| / 2;
    if |s| % 2 != 0 then false
    else
      var h := s[..mid];
      assert s == h + s[mid..];
      s[..mid] == s[mid..]
  }

  /** Block length `k` divides the text and the text is that block repeated. */
  predicate BlockFits(s: string, k: nat)
    requires 1 <= k <= |s|
  {
    |s| % k == 0 && Repeat(s[..k], |s| / k) == s
  }

  lemma NoShortBlocks(b: string, m: nat)
    requires m >= 1
    ensures Repeat(b, m)[..|b|] == b
  {
  }

  lemma MulAtLeast(k: int, d: int)
    requires k > 0 && d >= 1
    ensures k * d >= k
  {
  }

  /** Euclidean division has one quotient and remainder. */
  lemma DivUnique(x: int, k: int, q: int, r: int)
    requires k > 0 && 0 <= r < k && x == k * q + r
    ensures x / k == q && x % k == r
  {
    var q', r' := x / k, x % k;
    assert k * q' + r' == k * q + r;
    assert k * (q - q') == r' - r;
    if q > q' {
      MulAtLeast(k, q - q');
    } else if q' > q {
      MulAtLeast(k, q' - q);
    }
  }

  lemma MulLower(k: nat, m: nat)
    requires k > 0 && k * m >= 2 * k
    ensures m >= 2
  {
  }

  /** A repeated block is found by the scan at the block's own length. */
  lemma RepeatedBlockFits(s: string, b: string, m: nat)
    requires m >= 2 && |b| > 0 && s == Repeat(b, m)
    ensures |b| <= |s| / 2 && BlockFits(s, |b|)
  {
    NoShortBlocks(b, m);
    DivUnique(|s|, |b|, m, 0);
    assert |b| * m >= |b| * 2;
  }

  /** A block length the scan accepts is a repetition of at least two blocks. */
  lemma FitsIsRepeatedBlock(s: string, k: nat)
    requires 1 <= k <= |s| / 2 && BlockFits(s, k)
    ensures RepeatedBlock(s)
  {
    var m := |s| / k;
    assert |s| == k * m;
    MulLower(k, m);
    assert Repeat(s[..k], m) == s;
  }

  /** `is_repeated_block`: tries every block length from 1 to half the length. */
  method IsRepeatedBlock(s: string) returns (b: bool)
    ensures b <==> RepeatedBlock(s)
  {
    var len := |s|;
    for k := 1 to len / 2 + 1
      invariant forall j :: 1 <= j < k ==> !BlockFits(s, j)
    {
      if len % k != 0 {
        continue;
      }
      var block := s[..k];
      if Repeat(block, len / k) == s {
        FitsIsRepeatedBlock(s, k);
        return true;
      }
    }
    if RepeatedBlock(s) {
      var blk: string, m: nat :| m >= 2 && |blk| > 0 && s == Repeat(blk, m);
      RepeatedBlockFits(s, blk, m);
    }
    return false;
  }

  /** Part 1's invalid ids are part 2's too: the half is a block written twice
      (decimal text is never empty). */
  lemma ExactDoubleIsRepeatedBlock(s: string)
    requires |s| > 0 && ExactDouble(s)
    ensures RepeatedBlock(s)
  {
    var h :| s == h + h;
    assert Repeat(h, 2) == h + h + [];
  }

  /** The empty text is a double but no repeated block: the implication needs
      the id's text to be non-empty. */
  lemma EmptyTextIsOnlyDouble()
    ensures ExactDouble("") && !RepeatedBlock("")
  {
    assert "" == "" + "";
  }

  /** A single digit is never a repeated block. */
  lemma SingleCharacterNeverRepeated(s: string)
    requires |s| == 1
    ensures !RepeatedBlock(s)
  {
  }

  // ------------------------------------------------------- the id ranges

  /** One `start-end` pair: the text before the first '-' and the text
      after it, each trimmed and parsed; anything after a second '-' is
      ignored. The pair fails when a part is missing or does not parse. */
  function PairOf(pair: string): (r: Option<(int, int)>)
    ensures var parts := Split(pair, '-');
      r.Some? <==> |parts| >= 2 && ParseInt(Trim(parts[0])).Some? && ParseInt(Trim(parts[1])).Some?
    ensures var parts := Split(pair, '-');
      r.Some? ==> r.value == (ParseInt(Trim(parts[0])).value, ParseInt(Trim(parts[1])).value)
  {
    var parts := Split(pair, '-');
    if |parts| < 2 then None
    else match (ParseInt(Trim(parts[0])), ParseInt(Trim(parts[1])))
      case (Some(lo), Some(hi)) => Some((lo, hi))
      case _ => None
  }

  /** Every pair reads. */
  predicate AllPairsRead(pairs: seq<string>) {
    forall i :: 0 <= i < |pairs| ==> PairOf(pairs[i]).Some?
  }

  /** The pairs read one by one; any pair that fails fails the input. */
  function ParsePairs(pairs: seq<string>): (r: Option<seq<(int, int)>>)
    ensures r.Some? <==> AllPairsRead(pairs)
    ensures r.Some? ==> |r.value| == |pairs| && forall i :: 0 <= i < |pairs| ==> PairOf(pairs[i]) == Some(r.value[i])
  {
    var parsed := ParseAll(PairOf, pairs);
    if parsed.Ok? then Some(parsed.value) else None
  }

  /** The comma-separated `start-end` pairs of the trimmed input: an answer
      exactly when every comma-separated part reads as a pair, one pair per
      part in order. */
  function ParseRanges(input: string): (r: Option<seq<(int, int)>>)
    ensures r.Some? <==> AllPairsRead(Split(Trim(input), ','))
    ensures r.Some? ==> |r.value| == |Split(Trim(input), ',')|
    ensures r.Some? ==> forall i :: 0 <= i < |r.value| ==> PairOf(Split(Trim(input), ',')[i]) == Some(r.value[i])
  {
    ParsePairs(Split(Trim(input), ','))
  }

  /** The text of a list of ranges with non-negative bounds, as the puzzle
      input writes it: `start-end` pairs joined by commas. */
  function RangesText(ranges: seq<(int, int)>): string
    requires |ranges| > 0
    requires forall i :: 0 <= i < |ranges| ==> ranges[i].0 >= 0 && ranges[i].1 >= 0
  {
    JoinOn(PairTexts(ranges), ",")
  }

  /** The text of each range on its own. */
  function PairTexts(ranges: seq<(int, int)>): (texts: seq<string>)
    requires forall i :: 0 <= i < |ranges| ==> ranges[i].0 >= 0 && ranges[i].1 >= 0
    ensures |texts| == |ranges|
    ensures forall i :: 0 <= i < |ranges| ==> texts[i] == PairText(ranges[i].0, ranges[i].1)
  {
    seq(|ranges|, i requires 0 <= i < |ranges| => PairText(ranges[i].0, ranges[i].1))
  }

  function PairText(lo: nat, hi: nat): string {
    NatToString(lo) + "-" + NatToString(hi)
  }

  /** A written pair reads back as itself. */
  lemma PairOfPairText(lo: nat, hi: nat)
    ensures PairOf(PairText(lo, hi)) == Some((lo, hi))
  {
    var a, b := NatToString(lo), NatToString(hi);
    NoneOutside(a, '-');
    NoneOutside(b, '-');
    SplitTwo(a, b, '-');
    assert a + "-" + b == a + ['-'] + b;
    TrimDigits(a);
    TrimDigits(b);
    NatToStringValue(lo);
    NatToStringValue(hi);
  }

  /** Reading the written ranges gives back the ranges. */
  lemma ParseRangesText(ranges: seq<(int, int)>)
    requires |ranges| > 0
    requires forall i :: 0 <= i < |ranges| ==> ranges[i].0 >= 0 && ranges[i].1 >= 0
    ensures ParseRanges(RangesText(ranges)) == Some(ranges)
  {
    var texts := PairTexts(ranges);
    SplitRangesText(ranges);
    forall i | 0 <= i < |texts|
      ensures PairOf(texts[i]) == Some(ranges[i])
    {
      PairTextFacts(ranges[i].0, ranges[i].1);
    }
    ParseRangesOf(RangesText(ranges), texts, ranges);
  }

  /** Input whose comma-separated parts read as the given ranges parses to them. */
  lemma ParseRangesOf(input: string, texts: seq<string>, ranges: seq<(int, int)>)
    requires Split(Trim(input), ',') == texts && |texts| == |ranges|
    requires forall i :: 0 <= i < |texts| ==> PairOf(texts[i]) == Some(ranges[i])
    ensures ParseRanges(input) == Some(ranges)
  {
    ParsePairsOf(texts, ranges);
  }

  /** Pairs that read one by one as the given ranges parse to them. */
  lemma ParsePairsOf(texts: seq<string>, ranges: seq<(int, int)>)
    requires |texts| == |ranges|
    requires forall i :: 0 <= i < |texts| ==> PairOf(texts[i]) == Some(ranges[i])
    ensures ParsePairs(texts) == Some(ranges)
  {
    assert AllPairsRead(texts);
    var r := ParsePairs(texts);
    forall i | 0 <= i < |ranges|
      ensures r.value[i] == ranges[i]
    {
      assert PairOf(texts[i]) == Some(r.value[i]);
    }
    assert r.value == ranges;
  }

  /** The written ranges split at commas into the written pairs. */
  lemma SplitRangesText(ranges: seq<(int, int)>)
    requires |ranges| > 0
    requires forall i :: 0 <= i < |ranges| ==> ranges[i].0 >= 0 && ranges[i].1 >= 0
    ensures Split(Trim(RangesText(ranges)), ',') == PairTexts(ranges)
  {
    var texts := PairTexts(ranges);
    forall i | 0 <= i < |texts|
      ensures ',' !in texts[i] && NoSpace(texts[i])
    {
      PairTextPlain(ranges[i].0, ranges[i].1);
    }
    JoinNoSpace(texts, ",");
    NoSpaceTrim(JoinOn(texts, ","));
    SplitJoin(texts, ',');
  }

  /** A written pair holds no comma and no whitespace, and reads back. */
  lemma PairTextFacts(lo: nat, hi: nat)
    ensures var t := PairText(lo, hi); ',' !in t && NoSpace(t) && PairOf(t) == Some((lo, hi))
  {
    PairTextPlain(lo, hi);
    PairOfPairText(lo, hi);
  }

  /** A written pair is digits around a dash. */
  lemma PairTextPlain(lo: nat, hi: nat)
    ensures var t := PairText(lo, hi); ',' !in t && NoSpace(t)
  {
    var a, b := NatToString(lo), NatToString(hi);
    var t := PairText(lo, hi);
    forall i | 0 <= i < |t|
      ensures t[i] != ',' && !IsSpace(t[i])
    {
      if i < |a| {
        assert t[i] == a[i] && IsDigit(a[i]);
      } else if i > |a| {
        assert t[i] == b[i - |a| - 1] && IsDigit(b[i - |a| - 1]);
      }
    }
  }

  datatype Rule = Part1 | Part2

  ghost predicate Invalid(rule: Rule, id: int) {
    match rule
    case Part1 => ExactDouble(IntToString(id))
    case Part2 => RepeatedBlock(IntToString(id))
  }

  predicate InRange(r: (int, int), id: int) { r.0 <= id <= r.1 }

  /** The ids in `lo..hi` (exclusive) that break the rule. */
  ghost function RangeIds(lo: int, hi: int, rule: Rule): set<int> {
    set id | lo <= id < hi && Invalid(rule, id)
  }

  lemma RangeIdsSnoc(lo: int, hi: int, rule: Rule)
    requires lo <= hi
    ensures RangeIds(lo, hi + 1, rule)
      == RangeIds(lo, hi, rule) + (if Invalid(rule, hi) then {hi} else {})
  {
  }

  /** Every id of every inclusive range that breaks the rule, each once. */
  ghost function InvalidIds(ranges: seq<(int, int)>, rule: Rule): set<int> {
    if ranges == [] then {}
    else
      var r := ranges[|ranges| - 1];
      InvalidIds(ranges[..|ranges| - 1], rule) + RangeIds(r.0, r.1 + 1, rule)
  }

  /** Membership: an id is collected exactly when some range holds it and it
      breaks the rule. */
  lemma InvalidIdsMembers(ranges: seq<(int, int)>, rule: Rule, id: int)
    ensures id in InvalidIds(ranges, rule) <==>
      (exists j :: 0 <= j < |ranges| && InRange(ranges[j], id)) && Invalid(rule, id)
  {
    InvalidIdsInAny(ranges, rule, id);
    InAnyRangeExists(ranges, id);
  }

  /** Some range of the list holds `id`, looked for from the last one back. */
  predicate InAnyRange(ranges: seq<(int, int)>, id: int) {
    ranges != [] && (InAnyRange(ranges[..|ranges| - 1], id) || InRange(ranges[|ranges| - 1], id))
  }

  lemma {:induction false} InvalidIdsInAny(ranges: seq<(int, int)>, rule: Rule, id: int)
    ensures id in InvalidIds(ranges, rule) <==> InAnyRange(ranges, id) && Invalid(rule, id)
  {
    if ranges != [] {
      InvalidIdsInAny(ranges[..|ranges| - 1], rule, id);
    }
  }

  lemma {:induction false} InAnyRangeExists(ranges: seq<(int, int)>, id: int)
    ensures InAnyRange(ranges, id) <==> exists j :: 0 <= j < |ranges| && InRange(ranges[j], id)
  {
    if ranges != [] {
      var n := |ranges| - 1;
      InAnyRangeExists(ranges[..n], id);
      if exists j :: 0 <= j < |ranges| && InRange(ranges[j], id) {
        var j :| 0 <= j < |ranges| && InRange(ranges[j], id);
        if j < n {
          assert ranges[..n][j] == ranges[j];
        }
      }
      if exists j :: 0 <= j < n && InRange(ranges[..n][j], id) {
        var j :| 0 <= j < n && InRange(ranges[..n][j], id);
        assert ranges[j] == ranges[..n][j];
      }
    }
  }

  /** Overlapping or repeated ranges do not count an id twice. */
  lemma RepeatedRangeAddsNothing(ranges: seq<(int, int)>, j: nat, rule: Rule)
    requires j < |ranges|
    ensures InvalidIds(ranges + [ranges[j]], rule) == InvalidIds(ranges, rule)
  {
    var more := ranges + [ranges[j]];
    assert more[..|ranges|] == ranges;
    forall id | id in RangeIds(ranges[j].0, ranges[j].1 + 1, rule)
      ensures id in InvalidIds(ranges, rule)
    {
      InvalidIdsMembers(ranges, rule, id);
    }
  }

  /** The two loops over the ranges (lines 46-61): every id of every range is
      checked against both rules and the invalid ones are collected. */
  method CollectInvalid(ranges: seq<(int, int)>) returns (invalid1: set<int>, invalid2: set<int>)
    ensures invalid1 == InvalidIds(ranges, Part1)
    ensures invalid2 == InvalidIds(ranges, Part2)
  {
    invalid1, invalid2 := {}, {};
    for j := 0 to |ranges|
      invariant invalid1 == InvalidIds(ranges[..j], Part1)
      invariant invalid2 == InvalidIds(ranges[..j], Part2)
    {
      var (start, end) := ranges[j];
      invalid1, invalid2 := CollectRange(start, end, invalid1, invalid2);
      InvalidIdsSnoc(ranges, j, Part1);
      InvalidIdsSnoc(ranges, j, Part2);
    }
    assert ranges[..|ranges|] == ranges;
  }

  /** One more range adds its invalid ids. */
  lemma InvalidIdsSnoc(ranges: seq<(int, int)>, j: nat, rule: Rule)
    requires j < |ranges|
    ensures InvalidIds(ranges[..j + 1], rule) == InvalidIds(ranges[..j], rule) + RangeIds(ranges[j].0, ranges[j].1 + 1, rule)
  {
    assert ranges[..j + 1][..j] == ranges[..j];
  }

  /** The inner loop over `start..=end`: every id of the range is checked and
      inserted into the set of each rule it breaks. */
  method CollectRange(start: int, end: int, in1: set<int>, in2: set<int>) returns (invalid1: set<int>, invalid2: set<int>)
    ensures invalid1 == in1 + RangeIds(start, end + 1, Part1)
    ensures invalid2 == in2 + RangeIds(start, end + 1, Part2)
  {
    invalid1, invalid2 := in1, in2;
    var i := start;
    while i <= end
      invariant start <= i <= if start <= end then end + 1 else start
      invariant invalid1 == in1 + RangeIds(start, i, Part1)
      invariant invalid2 == in2 + RangeIds(start, i, Part2)
    {
      invalid1, invalid2 := TestId(i, invalid1, invalid2);
      CollectStep(in1, start, i, Part1);
      CollectStep(in2, start, i, Part2);
      i := i + 1;
    }
    if start > end {
      NoRangeIds(start, end + 1, Part1);
      NoRangeIds(start, end + 1, Part2);
    }
  }

  /** The body of the inner loop: the id goes into the set of each rule it
      breaks. */
  method TestId(i: int, invalid1: set<int>, invalid2: set<int>) returns (invalid1': set<int>, invalid2': set<int>)
    ensures invalid1' == invalid1 + (if Invalid(Part1, i) then {i} else {})
    ensures invalid2' == invalid2 + (if Invalid(Part2, i) then {i} else {})
  {
    invalid1', invalid2' := invalid1, invalid2;
    var s := IntToString(i);
    if IsExactDouble(s) {
      invalid1' := invalid1' + {i};
    }
    var repeated := IsRepeatedBlock(s);
    if repeated {
      invalid2' := invalid2' + {i};
    }
  }

  /** Testing one more id extends what is collected by the ids before it. */
  lemma CollectStep(collected: set<int>, lo: int, i: int, rule: Rule)
    requires lo <= i
    ensures collected + RangeIds(lo, i + 1, rule)
      == (collected + RangeIds(lo, i, rule)) + (if Invalid(rule, i) then {i} else {})
  {
    RangeIdsSnoc(lo, i, rule);
  }

  /** An empty range holds no ids. */
  lemma NoRangeIds(lo: int, hi: int, rule: Rule)
    requires hi <= lo
    ensures RangeIds(lo, hi, rule) == {}
  {
  }

  // ------------------------------------------------------------- the sums

  /** Both answers of the day. */
  method Solve(ranges: seq<(int, int)>) returns (sum1: int, sum2: int)
    ensures sum1 == SetSum(InvalidIds(ranges, Part1))
    ensures sum2 == SetSum(InvalidIds(ranges, Part2))
  {
    var invalid1, invalid2 := CollectInvalid(ranges);
    sum1 := Sum(invalid1);
    sum2 := Sum(invalid2);
  }

  /** `main` after reading the file: parse the trimmed text, then both
      answers; `None` where an `unwrap` panics. */
  method SolveInput(input: string) returns (r: Option<(int, int)>)
    ensures r.Some? <==> ParseRanges(input).Some?
    ensures r.Some? ==> var ranges := ParseRanges(input).value;
      r.value == (SetSum(InvalidIds(ranges, Part1)), SetSum(InvalidIds(ranges, Part2)))
  {
    match ParseRanges(input)
    case None =>
      return None;
    case Some(ranges) =>
      var sum1, sum2 := Solve(ranges);
      return Some((sum1, sum2));
  }
}
