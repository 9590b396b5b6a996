/** The safe dial of Day 1: a dial of 100 positions starting at 50, turned by
    a list of rotations; part 1 counts rotations that end on 0, part 2 counts
    every single click that lands on 0. This module is the click-by-click
    reference both solutions are measured against. */
module Dial {
  import opened Wrappers
  import opened Text

  const SIZE: nat := 100
  const START: int := 50

  /** One input line: a direction letter and the number that follows it. */
  datatype Rotation = Rotation(direction: char, amount: int)

  /** Position after one click of the dial, to the right (+1) or left (-1). */
  function Click(pos: int, right: bool): (p: int)
    ensures 0 <= p < SIZE
  {
    (if right then pos + 1 else pos - 1) % SIZE
  }

  /** Where a turn of `n` clicks leaves the dial, and how many clicks hit 0. */
  datatype Spin = Spin(end: int, zeros: nat)

  function Clicks(pos: int, right: bool, n: nat): (s: Spin)
    ensures 0 <= pos < SIZE ==> 0 <= s.end < SIZE
    ensures s.zeros <= n
  {
    if n == 0 then Spin(pos, 0)
    else
      var prev := Clicks(pos, right, n - 1);
      var p := Click(prev.end, right);
      Spin(p, prev.zeros + if p == 0 then 1 else 0)
  }

  /** The position reached by `k` clicks from `pos`, before reduction. */
  function Offset(pos: int, right: bool, k: nat): int {
    if right then pos + k else pos - k
  }

  /** A turn of `n` clicks ends where one reduction of the total offset does. */
  lemma {:induction false} ClicksEnd(pos: int, right: bool, n: nat)
    requires 0 <= pos < SIZE
    ensures Clicks(pos, right, n).end == Offset(pos, right, n) % SIZE
  {
    if n > 0 {
      ClicksEnd(pos, right, n - 1);
      ModStep(Offset(pos, right, n - 1), if right then 1 else -1);
    }
  }

  /** Reducing before one more step reduces to the same position. */
  lemma ModStep(x: int, d: int)
    ensures (x % SIZE + d) % SIZE == (x + d) % SIZE
  {
    var q := x / SIZE;
    assert x + d == (x % SIZE + d) + q * SIZE;
    ModShift(x % SIZE + d, q);
  }

  lemma {:induction false} ModShift(y: int, q: int)
    ensures (y + q * SIZE) % SIZE == y % SIZE
    decreases if q < 0 then -q else q
  {
    if q > 0 {
      ModShift(y, q - 1);
      assert y + q * SIZE == (y + (q - 1) * SIZE) + SIZE;
    } else if q < 0 {
      ModShift(y, q + 1);
      assert y + q * SIZE == (y + (q + 1) * SIZE) - SIZE;
    }
  }

  /** The signed step list both solutions reduce a rotation to: positive turns
      right, negative turns left, zero does not move. */
  function Magnitude(s: int): nat { if s < 0 then -s else s }

  /** Part 1 and part 2 so far, and where the dial stands. */
  datatype Counts = Counts(dial: int, endsAtZero: nat, clicksAtZero: nat)

  /** The reference semantics of a whole input: each signed step is carried out
      one click at a time. */
  function Tally(steps: seq<int>): (c: Counts)
    ensures 0 <= c.dial < SIZE
    ensures c.endsAtZero <= |steps|
  {
    if steps == [] then Counts(START, 0, 0)
    else
      var c := Tally(steps[..|steps| - 1]);
      var s := steps[|steps| - 1];
      var spin := Clicks(c.dial, s > 0, Magnitude(s));
      Counts(spin.end, c.endsAtZero + (if spin.end == 0 then 1 else 0), c.clicksAtZero + spin.zeros)
  }

  /** One more step: the last rotation is carried out from where the others
      left the dial. */
  lemma TallySnoc(steps: seq<int>, s: int)
    ensures var c := Tally(steps); var spin := Clicks(c.dial, s > 0, Magnitude(s));
      Tally(steps + [s]) == Counts(spin.end, c.endsAtZero + (if spin.end == 0 then 1 else 0), c.clicksAtZero + spin.zeros)
  {
    assert (steps + [s])[..|steps|] == steps;
  }

  /** A rotation whose step is zero leaves the dial and the part 2 count alone. */
  lemma ZeroStepKeepsDial(steps: seq<int>)
    ensures Tally(steps + [0]).dial == Tally(steps).dial
    ensures Tally(steps + [0]).clicksAtZero == Tally(steps).clicksAtZero
  {
    assert (steps + [0])[..|steps|] == steps;
  }

  /** One non-empty input line read as a rotation: the first character and the
      integer after it; an unreadable number is a failure. */
  function ParseRotation(line: string): (r: Option<Rotation>)
    requires |line| > 0
    ensures r.Some? <==> ParseInt(line[1..]).Some?
    ensures r.Some? ==> r.value.direction == line[0] && r.value.amount == ParseInt(line[1..]).value
  {
    match ParseInt(line[1..])
    case Some(n) => Some(Rotation(line[0], n))
    case None => None
  }

  /** All lines of the input, empty lines skipped; fails on the first line
      whose number does not parse. It succeeds exactly when every non-empty
      line reads, and then holds the rotations of the non-empty lines in
      order. */
  function ParseRotations(lines: seq<string>): (r: Option<seq<Rotation>>)
    ensures r.Some? <==> forall i :: 0 <= i < |lines| && lines[i] != "" ==> ParseRotation(lines[i]).Some?
    ensures r.Some? ==> |r.value| == |NonEmpty(lines)|
    ensures r.Some? ==> forall i :: 0 <= i < |r.value| ==> ParseRotation(NonEmpty(lines)[i]) == Some(r.value[i])
  {
    if lines == [] then Some([])
    else
      var rest := ParseRotations(lines[1..]);
      assert forall i :: 1 <= i < |lines| ==> lines[i] == lines[1..][i - 1];
      if lines[0] == "" then rest
      else match (ParseRotation(lines[0]), rest)
        case (Some(x), Some(xs)) =>
          assert NonEmpty(lines) == [lines[0]] + NonEmpty(lines[1..]);
          Some([x] + xs)
        case _ => None
  }

  /** Empty lines change nothing. */
  lemma EmptyLineIgnored(a: seq<string>, b: seq<string>)
    ensures ParseRotations(a + [""] + b) == ParseRotations(a + b)
  {
    NonEmptyAppend(a + [""], b);
    NonEmptyAppend(a, [""]);
    NonEmptyAppend(a, b);
    assert NonEmpty([""]) == [];
    SameKeptSameRotations(a + [""] + b, a + b);
  }

  /** The rotations read depend only on the non-empty lines. */
  lemma SameKeptSameRotations(l1: seq<string>, l2: seq<string>)
    requires NonEmpty(l1) == NonEmpty(l2)
    ensures ParseRotations(l1) == ParseRotations(l2)
  {
    var kept := NonEmpty(l1);
    KeptReadable(l1);
    KeptReadable(l2);
    var r1, r2 := ParseRotations(l1), ParseRotations(l2);
    if r1.Some? && r2.Some? {
      assert r1.value == r2.value;
    }
  }

  /** Every non-empty line reads iff every kept line does. */
  lemma KeptReadable(lines: seq<string>)
    ensures (forall i :: 0 <= i < |lines| && lines[i] != "" ==> ParseRotation(lines[i]).Some?)
        <==> (forall j :: 0 <= j < |NonEmpty(lines)| ==> ParseRotation(NonEmpty(lines)[j]).Some?)
  {
    var kept := NonEmpty(lines);
    if forall i :: 0 <= i < |lines| && lines[i] != "" ==> ParseRotation(lines[i]).Some? {
      forall j | 0 <= j < |kept| ensures ParseRotation(kept[j]).Some? {
        assert kept[j] in lines;
        var i :| 0 <= i < |lines| && lines[i] == kept[j];
      }
    }
    if forall j :: 0 <= j < |kept| ==> ParseRotation(kept[j]).Some? {
      forall i | 0 <= i < |lines| && lines[i] != "" ensures ParseRotation(lines[i]).Some? {
        assert lines[i] in kept;
        var j :| 0 <= j < |kept| && kept[j] == lines[i];
      }
    }
  }
}
