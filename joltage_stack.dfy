/** The Python solution of Day 3 (ai-solutions/03/gpt-5.1-codex/python/solution.py):
    `max_subsequence_number` keeps a stack of digits and pops every digit
    that a larger one follows, as long as digits may still be dropped. It
    makes the same choice as the greedy window of the Rust solution. */
module JoltageStack {
  import opened Text
  import opened Joltage

  /** `max_subsequence_number`: strip the line; a line of no more than `k`
      digits is read whole; otherwise pop smaller digits off the stack while
      some of the `len - k` drops remain, and read the first `k` digits the
      stack ends with. `int` of a digit string is `Value` of its digits
      (`ValueOfDigits`). */
  method MaxSubsequenceNumber(line: string, k: nat) returns (v: int)
    ensures v == Best(Digits(Trim(line)), k)
  {
    var s := Trim(line);
    if k >= |s| {
      GreedyAll(Digits(s));
      return Value(Digits(s));
    }
    var stack, remove := StackDigits(s, k);
    Finish(Digits(stack), k, remove);
    DigitsPrefix(stack, k);
    v := Value(Digits(stack[..k]));
  }

  /** The `for` loop of `max_subsequence_number`: push every character after
      popping the smaller ones before it, while drops remain. The greedy
      choice over the stack it ends with is the one over the line. */
  method StackDigits(s: string, k: nat) returns (stack: seq<char>, remove: nat)
    requires k < |s|
    ensures |stack| == k + remove && (remove > 0 ==> Falls(Digits(stack)))
    ensures Greedy(Digits(stack), k) == Greedy(Digits(s), k)
  {
    remove := |s| - k;
    stack := [];
    ghost var d := Digits(s);
    ghost var rest := d;
    assert Digits(stack) + rest == d;
    for i := 0 to |s|
      invariant rest == d[i..]
      invariant |stack| + |rest| == k + remove
      invariant remove > 0 ==> Falls(Digits(stack))
      invariant Greedy(Digits(stack) + rest, k) == Greedy(d, k)
    {
      var ch := s[i];
      stack, remove := PopSmaller(stack, ch, remove, rest, k);
      ghost var rest' := PushStep(stack, s, d, i, rest, remove > 0);
      stack := stack + [ch];
      rest := rest';
    }
    assert Digits(stack) + rest == Digits(stack);
  }

  /** The `while` loop of `max_subsequence_number`: pop every digit smaller
      than `ch` off the stack while drops remain. Each pop leaves the greedy
      choice over the stack and the rest of the line (`rest`, from `ch` on)
      as it was. */
  method PopSmaller(stack: seq<char>, ch: char, remove: nat, ghost rest: seq<int>, ghost k: nat)
    returns (popped: seq<char>, left: nat)
    requires rest != [] && rest[0] == ch as int - '0' as int
    requires |stack| + |rest| == k + remove && (remove > 0 ==> Falls(Digits(stack)))
    ensures |popped| + |rest| == k + left && left <= remove
    ensures Greedy(Digits(popped) + rest, k) == Greedy(Digits(stack) + rest, k)
    ensures left > 0 ==> Falls(Digits(popped)) && (popped == [] || popped[|popped| - 1] >= ch)
  {
    popped, left := stack, remove;
    while left > 0 && popped != [] && popped[|popped| - 1] < ch
      invariant Popping(popped, left, stack, remove, rest, k) == true
      decreases |popped|
    {
      PopKeeps(popped, left, stack, remove, rest, k);
      popped := popped[..|popped| - 1];
      left := left - 1;
    }
  }

  /** What the popping loop keeps: the drops still fit, the stack still
      falls while drops remain, and the greedy choice is as it was. */
  ghost predicate Popping(popped: seq<char>, left: nat, stack: seq<char>, remove: nat, rest: seq<int>, k: nat) {
    && |stack| + |rest| == k + remove && |popped| + |rest| == k + left && left <= remove
    && (left > 0 ==> Falls(Digits(popped)))
    && Greedy(Digits(popped) + rest, k) == Greedy(Digits(stack) + rest, k)
  }

  /** One pop of a digit smaller than the next keeps the loop's state. */
  lemma PopKeeps(popped: seq<char>, left: nat, stack: seq<char>, remove: nat, rest: seq<int>, k: nat)
    requires Popping(popped, left, stack, remove, rest, k)
    requires left > 0 && popped != [] && rest != [] && popped[|popped| - 1] as int - '0' as int < rest[0]
    ensures Popping(popped[..|popped| - 1], left - 1, stack, remove, rest, k)
  {
    PopStep(popped, rest, k);
  }

  /** No digit is larger than the one before it. */
  predicate Falls(ds: seq<int>) {
    |ds| <= 1 || (ds[|ds| - 2] >= ds[|ds| - 1] && Falls(ds[..|ds| - 1]))
  }

  /** Popping the top of the stack when the next digit is larger drops a
      digit followed by a larger one, which leaves the greedy choice as it
      was; what is left of the stack still falls. */
  lemma PopStep(stack: seq<char>, rest: seq<int>, k: nat)
    requires stack != [] && rest != [] && stack[|stack| - 1] as int - '0' as int < rest[0]
    requires Falls(Digits(stack)) && k < |stack| + |rest|
    ensures Falls(Digits(stack[..|stack| - 1]))
    ensures Greedy(Digits(stack) + rest, k) == Greedy(Digits(stack[..|stack| - 1]) + rest, k)
  {
    var ds := Digits(stack);
    var w := ds + rest;
    var r := |ds| - 1;
    assert w[r] == ds[r] && w[r + 1] == rest[0];
    FallsPrefix(ds, w);
    assert Digits(stack[..r]) == ds[..r];
    assert w[..r] + w[r + 1..] == ds[..r] + rest;
    GreedyDropDip(w, r, k);
  }

  /** Pushing `s[i]` moves one digit from the rest of the line to the stack;
      when drops remain, the loop stopped popping at a digit no smaller, so
      the stack still falls. */
  lemma PushStep(stack: seq<char>, s: string, d: seq<int>, i: nat, rest: seq<int>, falls: bool)
    returns (rest': seq<int>)
    requires d == Digits(s) && i < |s| && rest == d[i..]
    requires falls ==> Falls(Digits(stack)) && (stack == [] || stack[|stack| - 1] >= s[i])
    ensures rest' == d[i + 1..] && |rest'| + 1 == |rest|
    ensures Digits(stack + [s[i]]) + rest' == Digits(stack) + rest
    ensures falls ==> Falls(Digits(stack + [s[i]]))
  {
    rest' := d[i + 1..];
    var ds := Digits(stack + [s[i]]);
    assert ds == Digits(stack) + [d[i]];
    assert ds[..|ds| - 1] == Digits(stack);
    assert rest == [d[i]] + rest';
  }

  /** After the last character the stack holds `k` digits more than the drops
      left; they fall when any are left, so the greedy choice is its first `k`. */
  lemma Finish(ds: seq<int>, k: nat, remove: nat)
    requires |ds| == k + remove && (remove > 0 ==> Falls(ds))
    ensures Greedy(ds, k) == ds[..k]
  {
    if remove == 0 {
      GreedyAll(ds);
      assert ds[..k] == ds;
    } else {
      FallsNonIncreasing(ds);
      GreedyNonIncreasing(ds, k);
    }
  }

  lemma DigitsPrefix(s: string, k: nat)
    requires k <= |s|
    ensures Digits(s[..k]) == Digits(s)[..k]
  {
  }

  /** When a line starts with a stack that falls, it falls up to the top of
      that stack. */
  lemma {:induction false} FallsPrefix(ds: seq<int>, w: seq<int>)
    requires |ds| > 0 && |ds| <= |w| && w[..|ds|] == ds && Falls(ds)
    ensures FallsTo(w, |ds| - 1)
    decreases |ds|
  {
    if |ds| > 1 {
      var u := ds[..|ds| - 1];
      assert w[..|u|] == u;
      FallsPrefix(u, w);
      assert w[|ds| - 2] == ds[|ds| - 2] && w[|ds| - 1] == ds[|ds| - 1];
    }
  }

  /** Falling from each digit to the next is never going up. */
  lemma {:induction false} FallsNonIncreasing(ds: seq<int>)
    requires Falls(ds)
    ensures NonIncreasing(ds)
    decreases |ds|
  {
    if |ds| > 1 {
      var u := ds[..|ds| - 1];
      FallsNonIncreasing(u);
      forall i, j | 0 <= i < j < |ds|
        ensures ds[i] >= ds[j]
      {
        assert ds[i] == u[i];
        if j < |ds| - 1 {
          assert ds[j] == u[j];
        } else if i < j - 1 {
          assert ds[j - 1] == u[j - 1];
        }
      }
    }
  }

  // ---------------------------------------------------------------- solve

  /** The banks `solve` reads: every line stripped, blank lines skipped. */
  function Kept(lines: seq<string>): (banks: seq<seq<int>>)
    ensures |banks| <= |lines|
  {
    if lines == [] then [] else Kept(lines[..|lines| - 1]) + KeptLine(lines[|lines| - 1])
  }

  function KeptLine(line: string): (banks: seq<seq<int>>)
    ensures Trim(line) == [] <==> banks == []
    ensures banks != [] ==> banks == [Digits(Trim(line))]
  {
    var t := Trim(line);
    if t == [] then [] else [Digits(t)]
  }

  /** `solve`: both parts add up the value kept from every non-blank line,
      with no bound on the length of a line. */
  method Solve(lines: seq<string>) returns (part1: int, part2: int)
    ensures part1 == Total(Kept(lines), 2)
    ensures part2 == Total(Kept(lines), 12)
  {
    part1, part2 := 0, 0;
    for i := 0 to |lines|
      invariant part1 == Total(Kept(lines[..i]), 2)
      invariant part2 == Total(Kept(lines[..i]), 12)
    {
      ghost var p1, p2 := part1, part2;
      part1, part2 := SolveLine(lines[i], part1, part2);
      KeptTotal(lines, i, 2, p1, part1);
      KeptTotal(lines, i, 12, p2, part2);
    }
    assert lines[..|lines|] == lines;
  }

  /** One pass of the loop of `solve`: a blank line is skipped, any other
      adds its two values to the totals. */
  method SolveLine(raw: string, p1: int, p2: int) returns (q1: int, q2: int)
    ensures q1 == p1 + Total(KeptLine(raw), 2) && q2 == p2 + Total(KeptLine(raw), 12)
  {
    var line := Trim(raw);
    if line == [] {
      return p1, p2;
    }
    var a := MaxSubsequenceNumber(line, 2);
    var b := MaxSubsequenceNumber(line, 12);
    assert a == Total(KeptLine(raw), 2) && b == Total(KeptLine(raw), 12) by {
      TrimTwice(raw);
      TotalOne(Digits(line), 2);
      TotalOne(Digits(line), 12);
    }
    q1 := p1 + a;
    q2 := p2 + b;
  }

  /** The total of a single bank is its best joltage. */
  lemma TotalOne(bank: seq<int>, k: nat)
    ensures Total([bank], k) == Best(bank, k)
  {
    assert [bank][..0] == [];
  }

  /** One more line adds what its banks add. */
  lemma KeptTotal(lines: seq<string>, i: nat, k: nat, p: int, q: int)
    requires i < |lines|
    ensures p == Total(Kept(lines[..i]), k) && q == p + Total(KeptLine(lines[i]), k)
            ==> q == Total(Kept(lines[..i + 1]), k)
  {
    KeptPrefix(lines, i);
    var banks := KeptLine(lines[i]);
    if banks == [] {
      assert Kept(lines[..i]) + banks == Kept(lines[..i]);
    } else {
      TotalSnoc(Kept(lines[..i]), banks[0], k);
      TotalOne(banks[0], k);
      assert banks == [banks[0]];
    }
  }

  lemma KeptPrefix(lines: seq<string>, i: nat)
    requires i < |lines|
    ensures Kept(lines[..i + 1]) == Kept(lines[..i]) + KeptLine(lines[i])
  {
    assert lines[..i + 1][..i] == lines[..i];
  }

  /** On lines that are neither blank nor padded, `solve` reads the same
      banks as the Rust `main`, so the two programs print the same totals. */
  lemma {:induction false} KeptIsBanks(lines: seq<string>)
    requires forall i :: 0 <= i < |lines| ==> lines[i] != [] && Trim(lines[i]) == lines[i]
    ensures Kept(lines) == Banks(lines)
  {
    if lines != [] {
      var n := |lines| - 1;
      var init := lines[..n];
      assert forall i :: 0 <= i < |init| ==> init[i] == lines[i];
      KeptIsBanks(init);
      BanksSnoc(lines);
    }
  }

  lemma BanksSnoc(lines: seq<string>)
    requires lines != []
    ensures Banks(lines) == Banks(lines[..|lines| - 1]) + [Digits(lines[|lines| - 1])]
  {
  }

  /** The Python and the Rust solution agree on input lines of at least 12
      digits with no surrounding whitespace. */
  lemma SameAnswers(lines: seq<string>, k: nat)
    requires forall i :: 0 <= i < |lines| ==> lines[i] != [] && Trim(lines[i]) == lines[i]
    ensures Total(Kept(lines), k) == Total(Banks(lines), k)
  {
    KeptIsBanks(lines);
  }
}
