/** The Python solution of Day 1 (ai-solutions/01/gemini-3-pro/python/main.py):
    every rotation is carried out one click at a time. */
module DialSimulation {
  import opened Dial
  import DialClosedForm

  /** `range(amount)` runs no clicks for a negative amount. */
  function ClickCount(amount: int): nat { if amount < 0 then 0 else amount }

  /** The signed step a rotation amounts to in this program: `R` turns right,
      any other letter turns left, by `ClickCount(amount)` clicks. */
  function SignedClicks(r: Rotation): (s: int)
    ensures Magnitude(s) == ClickCount(r.amount)
    ensures s != 0 ==> (s > 0 <==> r.direction == 'R')
  {
    var n: int := ClickCount(r.amount);
    if r.direction == 'R' then n else -n
  }

  function Steps(rs: seq<Rotation>): (s: seq<int>)
    ensures |s| == |rs|
    ensures forall i :: 0 <= i < |rs| ==> s[i] == SignedClicks(rs[i])
  {
    if rs == [] then [] else Steps(rs[..|rs| - 1]) + [SignedClicks(rs[|rs| - 1])]
  }

  /** The nested loops of `solve`: `p1` counts rotations ending on 0, `p2`
      counts clicks landing on 0, as the reference defines them. */
  method Simulate(rotations: seq<Rotation>) returns (p1: nat, p2: nat)
    ensures p1 == Tally(Steps(rotations)).endsAtZero
    ensures p2 == Tally(Steps(rotations)).clicksAtZero
    ensures p1 <= |rotations|
  {
    var pos := START;
    p1, p2 := 0, 0;
    for i := 0 to |rotations|
      invariant Tally(Steps(rotations[..i])) == Counts(pos, p1, p2)
    {
      pos, p1, p2 := Rotate(pos, p1, p2, rotations[i], Steps(rotations[..i]));
      StepsSnoc(rotations, i);
    }
    assert rotations[..|rotations|] == rotations;
  }

  /** One turn of the outer loop: the clicks of one rotation, then part 1's
      check of where it ended. */
  method Rotate(pos: int, p1: nat, p2: nat, r: Rotation, ghost steps: seq<int>) returns (pos': int, p1': nat, p2': nat)
    requires Tally(steps) == Counts(pos, p1, p2)
    ensures Tally(steps + [SignedClicks(r)]) == Counts(pos', p1', p2')
  {
    var zeros;
    pos', zeros := Turn(pos, r);
    p2' := p2 + zeros;
    p1' := p1;
    if pos' == 0 {
      p1' := p1' + 1;
    }
    TallySnoc(steps, SignedClicks(r));
  }

  /** The inner loop of `solve`: the clicks of one rotation from `pos`,
      counting those that land on 0. */
  method Turn(pos: int, r: Rotation) returns (pos': int, zeros: nat)
    requires 0 <= pos < SIZE
    ensures Clicks(pos, SignedClicks(r) > 0, Magnitude(SignedClicks(r))) == Spin(pos', zeros)
  {
    var right := r.direction == 'R';
    pos', zeros := pos, 0;
    var j := 0;
    while j < r.amount
      invariant 0 <= j <= ClickCount(r.amount)
      invariant Clicks(pos, right, j) == Spin(pos', zeros)
    {
      if right {
        pos' := (pos' + 1) % SIZE;
      } else {
        pos' := (pos' - 1) % SIZE;
      }
      if pos' == 0 {
        zeros := zeros + 1;
      }
      j := j + 1;
    }
    assert j == ClickCount(r.amount);
    assert r.amount > 0 ==> (SignedClicks(r) > 0 <==> right);
  }

  lemma StepsSnoc(rs: seq<Rotation>, i: nat)
    requires i < |rs|
    ensures Steps(rs[..i + 1]) == Steps(rs[..i]) + [SignedClicks(rs[i])]
  {
    assert rs[..i + 1][..i] == rs[..i];
  }

  /** With no negative amounts, both programs reduce the input to the same
      steps, so the closed form and the simulation print the same counts. */
  lemma {:induction false} SameStepsAsClosedForm(rs: seq<Rotation>)
    requires forall i :: 0 <= i < |rs| ==> rs[i].amount >= 0
    ensures Steps(rs) == DialClosedForm.Steps(rs)
  {
    if rs != [] {
      SameStepsAsClosedForm(rs[..|rs| - 1]);
    }
  }

  /** A negative amount is where the two programs part: here it does not move. */
  lemma NegativeAmountDiffers()
    ensures Steps([Rotation('R', -5)]) != DialClosedForm.Steps([Rotation('R', -5)])
  {
    assert Steps([Rotation('R', -5)])[0] == 0;
  }
}
