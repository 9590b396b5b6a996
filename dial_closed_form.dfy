/** The human Rust solution of Day 1 (human-solutions/01/rust/src/main.rs):
    the number of clicks that land on 0 during one rotation is computed in
    closed form, and the dial is advanced by one reduction per rotation. */
module DialClosedForm {
  import opened Dial

  /** Rust's `a % 100` on `i32`: the remainder takes the sign of the dividend. */
  function Rem(a: int): (r: int)
    ensures -100 < r < 100
    ensures a >= 0 ==> r == a % 100
    ensures r % 100 == a % 100
  {
    if a >= 0 then a % 100 else -((-a) % 100)
  }

  /** `((start % 100) + 100) % 100`: the start position folded into the dial. */
  function NormalizeStart(start: int): (p: int)
    ensures 0 <= p < SIZE
    ensures p == start % SIZE
  {
    Rem(Rem(start) + 100)
  }

  /** After how many clicks in the given direction the dial first shows 0. */
  function FirstZeroClick(p: int, right: bool): (f: nat)
    requires 0 <= p < SIZE
    ensures 1 <= f <= SIZE
    ensures Offset(p, right, f) % SIZE == 0
    ensures forall k: nat :: 0 < k < f ==> Offset(p, right, k) % SIZE != 0
  {
    if p == 0 then SIZE else if right then SIZE - p else p
  }

  /** `count_clicks_on_zero`: zero when there is no first hit within the
      available clicks, and one more hit every full turn after it. */
  function CountClicksOnZero(start: int, signedSteps: int): (c: nat)
    ensures signedSteps == 0 ==> c == 0
    ensures c <= Magnitude(signedSteps)
  {
    if signedSteps == 0 then 0
    else
      var right := signedSteps > 0;
      var clicks := Magnitude(signedSteps);
      var first := FirstZeroClick(NormalizeStart(start), right);
      if first > clicks then 0 else 1 + (clicks - first) / 100
  }

  /** The hits of `n` clicks from `p`, in the closed form. */
  lemma {:induction false} ClicksZerosClosedForm(p: int, right: bool, n: nat)
    requires 0 <= p < SIZE
    ensures var f := FirstZeroClick(p, right);
      Clicks(p, right, n).zeros == if n < f then 0 else 1 + (n - f) / SIZE
  {
    if n > 0 {
      ClicksZerosClosedForm(p, right, n - 1);
      ClicksEnd(p, right, n);
      var f := FirstZeroClick(p, right);
      HitAt(p, right, n);
      if n > f {
        DivSucc(n - 1 - f);
      }
    }
  }

  /** Click `n` lands on 0 exactly when it is the first hit or a whole number
      of turns after it. */
  lemma HitAt(p: int, right: bool, n: nat)
    requires 0 <= p < SIZE && n > 0
    ensures var f := FirstZeroClick(p, right);
      Offset(p, right, n) % SIZE == 0 <==> n >= f && (n - f) % SIZE == 0
  {
    var f := FirstZeroClick(p, right);
    if n >= f {
      var a, b := Offset(p, right, n), Offset(p, right, f);
      ModZeroShift(a, b);
      if right {
        assert a - b == n - f;
      } else {
        assert a - b == -(n - f);
        ModZeroNeg(n - f);
      }
    }
  }

  lemma ModZeroShift(a: int, b: int)
    requires b % SIZE == 0
    ensures a % SIZE == 0 <==> (a - b) % SIZE == 0
  {
    var q := b / SIZE;
    assert b == SIZE * q;
  }

  lemma ModZeroNeg(x: int)
    ensures (-x) % SIZE == 0 <==> x % SIZE == 0
  {
  }

  /** One more click adds a whole turn exactly when it completes one. */
  lemma DivSucc(m: nat)
    ensures (m + 1) / SIZE == m / SIZE + (if (m + 1) % SIZE == 0 then 1 else 0)
  {
  }

  /** The closed form counts exactly the clicks that land on 0, for any start. */
  lemma CountClicksOnZeroIsClickCount(start: int, signedSteps: int)
    ensures CountClicksOnZero(start, signedSteps)
      == Clicks(start % SIZE, signedSteps > 0, Magnitude(signedSteps)).zeros
  {
    ClicksZerosClosedForm(start % SIZE, signedSteps > 0, Magnitude(signedSteps));
  }

  /** `dial = (dial + signed_steps) % 100; dial = (dial + 100) % 100;` */
  function Advance(dial: int, signedSteps: int): (d: int)
    ensures 0 <= d < SIZE
    ensures d == (dial + signedSteps) % SIZE
  {
    Rem(Rem(dial + signedSteps) + 100)
  }

  /** One pass of the loop body equals one step of the reference. */
  lemma StepMatchesTally(steps: seq<int>, signed: int)
    ensures var c := Tally(steps); var d := Advance(c.dial, signed);
      Tally(steps + [signed])
        == Counts(d, c.endsAtZero + (if d == 0 then 1 else 0), c.clicksAtZero + CountClicksOnZero(c.dial, signed))
  {
    var c := Tally(steps);
    TallySnoc(steps, signed);
    TurnEnd(c.dial, signed);
    TurnZeros(c.dial, signed);
  }

  /** A turn from a dial position ends where `Advance` puts the dial. */
  lemma TurnEnd(dial: int, signed: int)
    requires 0 <= dial < SIZE
    ensures Clicks(dial, signed > 0, Magnitude(signed)).end == Advance(dial, signed)
  {
    ClicksEnd(dial, signed > 0, Magnitude(signed));
    assert Offset(dial, signed > 0, Magnitude(signed)) == dial + signed;
  }

  /** From a dial position the closed form counts the turn's hits. */
  lemma TurnZeros(dial: int, signed: int)
    requires 0 <= dial < SIZE
    ensures Clicks(dial, signed > 0, Magnitude(signed)).zeros == CountClicksOnZero(dial, signed)
  {
    CountClicksOnZeroIsClickCount(dial, signed);
    assert dial % SIZE == dial;
  }

  /** The step the Rust loop derives from a rotation: `R` turns right, any
      other letter turns left. */
  function SignedSteps(r: Rotation): int {
    if r.direction == 'R' then r.amount else -r.amount
  }

  function Steps(rs: seq<Rotation>): (s: seq<int>)
    ensures |s| == |rs|
    ensures forall i :: 0 <= i < |rs| ==> s[i] == SignedSteps(rs[i])
  {
    if rs == [] then [] else Steps(rs[..|rs| - 1]) + [SignedSteps(rs[|rs| - 1])]
  }

  /** The loop of `main`: both counters equal the click-by-click reference. */
  method CountZeros(rotations: seq<Rotation>) returns (part1: nat, part2: nat)
    ensures part1 == Tally(Steps(rotations)).endsAtZero
    ensures part2 == Tally(Steps(rotations)).clicksAtZero
  {
    var dial := START;
    part1, part2 := 0, 0;
    var i := 0;
    while i < |rotations|
      invariant 0 <= i <= |rotations|
      invariant Tally(Steps(rotations[..i])) == Counts(dial, part1, part2)
    {
      var signed := SignedSteps(rotations[i]);
      assert Steps(rotations[..i + 1]) == Steps(rotations[..i]) + [signed] by {
        assert rotations[..i + 1][..i] == rotations[..i];
      }
      StepMatchesTally(Steps(rotations[..i]), signed);
      part2 := part2 + CountClicksOnZero(dial, signed);
      dial := Advance(dial, signed);
      if dial == 0 {
        part1 := part1 + 1;
      }
      i := i + 1;
    }
    assert rotations[..i] == rotations;
  }
}
