/** The human Rust solution of Day 3 (human-solutions/03/rust/src/main.rs):
    `pick_k_digits` takes, for each of the `k` places, the first largest
    digit of the window that still leaves enough digits for the later places. */
module JoltageGreedy {
  import opened Text
  import opened Joltage

  /** `pick_k_digits`: the value of the greedy choice of `k` digits. */
  method PickKDigits(line: string, k: nat) returns (v: int)
    requires k <= |line|
    ensures v == Best(Digits(line), k)
  {
    var digits := Digits(line);
    var result := PickFrom(digits, k);
    v := Value(result);
  }

  /** The loop of `pick_k_digits`. */
  method PickFrom(digits: seq<int>, k: nat) returns (result: seq<int>)
    requires k <= |digits|
    ensures result == Greedy(digits, k)
  {
    result := [];
    var start: nat := 0;
    PickingStart(digits, k);
    var places: nat := k;
    while places > 0
      invariant Picking(digits, k, result, start, places) == true
      decreases places
    {
      var remaining := places - 1;
      var end := |digits| - remaining;
      var window := digits[start..end];
      var idx := FirstArgMax(window);
      var digit := window[idx];
      PickKeeps(digits, k, result, start, places, window, idx, digit);
      result := result + [digit];
      start := start + idx + 1;
      places := remaining;
    }
    PickingDone(digits, k, result, start);
  }

  lemma PickingStart(digits: seq<int>, k: nat)
    requires k <= |digits|
    ensures Picking(digits, k, [], 0, k)
  {
    assert digits[0..] == digits;
  }

  lemma PickingDone(digits: seq<int>, k: nat, result: seq<int>, start: nat)
    requires Picking(digits, k, result, start, 0)
    ensures result == Greedy(digits, k)
  {
    assert result + [] == result;
  }

  /** The state of the loop: `result` and the greedy choice of the places
      left over the digits from `start` on make up the greedy choice. */
  ghost predicate Picking(digits: seq<int>, k: nat, result: seq<int>, start: nat, remaining: nat) {
    && k <= |digits| && |result| + remaining == k
    && start + remaining <= |digits|
    && result + Greedy(digits[start..], remaining) == Greedy(digits, k)
  }

  /** One pick of the loop is one step of the greedy choice. */
  lemma PickKeeps(digits: seq<int>, k: nat, result: seq<int>, start: nat, places: nat, window: seq<int>, idx: nat, digit: int)
    requires places > 0 && Picking(digits, k, result, start, places)
    requires window == digits[start..|digits| - (places - 1)] && idx == FirstArgMax(window) && digit == window[idx]
    ensures Picking(digits, k, result + [digit], start + idx + 1, places - 1)
  {
    var w := digits[start..];
    assert window == w[..|w| - places + 1];
    assert w[idx + 1..] == digits[start + idx + 1..];
    PickStep(w, places, result, idx, window);
  }

  /** One pick is one step of the greedy choice over the rest `w`. */
  lemma PickStep(w: seq<int>, places: nat, result: seq<int>, idx: nat, window: seq<int>)
    requires 0 < places <= |w| && window == w[..|w| - places + 1] && idx == FirstArgMax(window)
    ensures idx + places <= |w| && window[idx] == w[idx]
    ensures result + Greedy(w, places) == (result + [window[idx]]) + Greedy(w[idx + 1..], places - 1)
  {
    GreedyCons(w, places, idx);
    assert result + ([w[idx]] + Greedy(w[idx + 1..], places - 1))
      == (result + [w[idx]]) + Greedy(w[idx + 1..], places - 1);
  }

  /** The loop of `main`: both parts add up the greedy value of every line.
      Rust's subtraction `digits.len() - remaining` panics on a line shorter
      than 12 digits, so every line has at least 12. */
  method SumLines(lines: seq<string>) returns (part1: int, part2: int)
    requires forall i :: 0 <= i < |lines| ==> 12 <= |lines[i]|
    ensures part1 == Total(Banks(lines), 2)
    ensures part2 == Total(Banks(lines), 12)
  {
    part1, part2 := 0, 0;
    for i := 0 to |lines|
      invariant part1 == Total(Banks(lines[..i]), 2)
      invariant part2 == Total(Banks(lines[..i]), 12)
    {
      ghost var p1, p2 := part1, part2;
      part1, part2 := AddLine(lines[i], part1, part2);
      BanksPrefix(lines, i, 2, p1, part1);
      BanksPrefix(lines, i, 12, p2, part2);
    }
    assert lines[..|lines|] == lines;
  }

  /** One pass of the loop of `main`: a line adds its best 2-digit and
      12-digit joltages to the two totals. */
  method AddLine(line: string, p1: int, p2: int) returns (q1: int, q2: int)
    requires 12 <= |line|
    ensures q1 == p1 + Best(Digits(line), 2)
    ensures q2 == p2 + Best(Digits(line), 12)
  {
    var a := PickKDigits(line, 2);
    var b := PickKDigits(line, 12);
    q1, q2 := p1 + a, p2 + b;
  }
}
