/** Day 3: from a line of digits keep exactly `k` of them, in order, so that
    the number they spell is as large as possible. This module defines the
    greedy choice both solutions make and proves it is the best choice. */
module Joltage {
  import opened Text

  /** The digit values of a line: each character less `'0'`, which is the
      digit's value when the character is a decimal digit. */
  function Digits(s: string): (ds: seq<int>)
    ensures |ds| == |s|
  {
    seq(|s|, i requires 0 <= i < |s| => s[i] as int - '0' as int)
  }

  predicate IsDigits(ds: seq<int>) {
    forall i :: 0 <= i < |ds| ==> 0 <= ds[i] < 10
  }

  /** The number the digits spell, read left to right (`acc * 10 + d`). */
  function Value(ds: seq<int>): int {
    if ds == [] then 0 else Value(ds[..|ds| - 1]) * 10 + ds[|ds| - 1]
  }

  lemma {:induction false} ValueOfDigits(s: string)
    requires AllDigits(s)
    ensures Value(Digits(s)) == DigitsValue(s)
  {
    if s != [] {
      ValueOfDigits(s[..|s| - 1]);
      assert Digits(s)[..|s| - 1] == Digits(s[..|s| - 1]);
    }
  }

  // --------------------------------------------------------- subsequences

  /** `s` is `w` with some elements left out, the rest kept in order. */
  predicate Subseq<T(==)>(s: seq<T>, w: seq<T>)
    decreases |w|
  {
    if s == [] then true
    else if w == [] then false
    else (s[0] == w[0] && Subseq(s[1..], w[1..])) || Subseq(s, w[1..])
  }

  lemma {:induction false} SubseqLength<T>(s: seq<T>, w: seq<T>)
    requires Subseq(s, w)
    ensures |s| <= |w|
    decreases |w|
  {
    if s != [] {
      if s[0] == w[0] && Subseq(s[1..], w[1..]) {
        SubseqLength(s[1..], w[1..]);
      } else {
        SubseqLength(s, w[1..]);
      }
    }
  }

  /** The first kept element, and where the rest is taken from. */
  lemma {:induction false} SubseqHead<T>(s: seq<T>, w: seq<T>) returns (j: nat)
    requires s != [] && Subseq(s, w)
    ensures j < |w| && s[0] == w[j] && Subseq(s[1..], w[j + 1..])
    decreases |w|
  {
    if s[0] == w[0] && Subseq(s[1..], w[1..]) {
      j := 0;
    } else {
      var j' := SubseqHead(s, w[1..]);
      j := j' + 1;
      assert w[1..][j' + 1..] == w[j + 1..];
    }
  }

  /** More elements in front of the source keep a subsequence one. */
  lemma {:induction false} SubseqPrepend<T>(s: seq<T>, u: seq<T>, v: seq<T>)
    requires Subseq(s, v)
    ensures Subseq(s, u + v)
    decreases |u|
  {
    if u != [] && s != [] {
      SubseqPrepend(s, u[1..], v);
      assert (u + v)[1..] == u[1..] + v;
      assert Subseq(s, (u + v)[1..]);
    } else if u == [] {
      assert u + v == v;
    }
  }

  /** Keeping the same element at the end of both. */
  lemma {:induction false} SubseqSnoc<T>(s: seq<T>, w: seq<T>, c: T)
    requires Subseq(s, w)
    ensures Subseq(s + [c], w + [c])
    decreases |w|
  {
    if s == [] {
      if w == [] {
        assert Subseq([c][1..], ([] + [c])[1..]);
      } else {
        SubseqSnoc(s, w[1..], c);
        assert (w + [c])[1..] == w[1..] + [c];
      }
    } else if s[0] == w[0] && Subseq(s[1..], w[1..]) {
      SubseqSnoc(s[1..], w[1..], c);
      assert (s + [c])[1..] == s[1..] + [c];
      assert (w + [c])[1..] == w[1..] + [c];
    } else {
      SubseqSnoc(s, w[1..], c);
      assert (w + [c])[1..] == w[1..] + [c];
    }
  }

  /** Dropping the last kept element. */
  lemma {:induction false} SubseqInit<T>(s: seq<T>, w: seq<T>)
    requires s != [] && Subseq(s, w)
    ensures Subseq(s[..|s| - 1], w)
    decreases |w|
  {
    if |s| == 1 {
    } else if s[0] == w[0] && Subseq(s[1..], w[1..]) {
      SubseqInit(s[1..], w[1..]);
      assert s[1..][..|s| - 2] == s[..|s| - 1][1..];
    } else {
      SubseqInit(s, w[1..]);
    }
  }

  /** Whatever a subsequence keeps is found in the source. */
  lemma {:induction false} SubseqDigits(s: seq<int>, w: seq<int>)
    requires Subseq(s, w) && IsDigits(w)
    ensures IsDigits(s)
    decreases |w|
  {
    if s != [] {
      var j := SubseqHead(s, w);
      SubseqDigits(s[1..], w[j + 1..]);
      assert forall i :: 1 <= i < |s| ==> s[i] == s[1..][i - 1];
    }
  }

  // ------------------------------------------------------ the greedy pick

  /** The earliest position of a largest element. */
  function FirstArgMax(w: seq<int>): (i: nat)
    requires |w| > 0
    ensures i < |w|
  {
    if |w| == 1 then 0
    else
      var j := FirstArgMax(w[..|w| - 1]);
      if w[|w| - 1] > w[j] then |w| - 1 else j
  }

  /** `i` is the earliest position of a largest element of `w`. */
  predicate IsFirstArgMax(w: seq<int>, i: nat) {
    i < |w| && (forall j :: 0 <= j < |w| ==> w[j] <= w[i]) && (forall j :: 0 <= j < i ==> w[j] < w[i])
  }

  /** `FirstArgMax` finds a largest element, and no earlier one is as large. */
  lemma {:induction false} FirstArgMaxSpec(w: seq<int>)
    requires |w| > 0
    ensures IsFirstArgMax(w, FirstArgMax(w))
    decreases |w|
  {
    if |w| > 1 {
      var u := w[..|w| - 1];
      FirstArgMaxSpec(u);
      assert forall j :: 0 <= j < |u| ==> u[j] == w[j];
    }
  }

  /** A position with the two properties is the one `FirstArgMax` returns. */
  lemma FirstArgMaxUnique(w: seq<int>, p: nat)
    requires p < |w|
    requires forall j :: 0 <= j < |w| ==> w[j] <= w[p]
    requires forall j :: 0 <= j < p ==> w[j] < w[p]
    ensures FirstArgMax(w) == p
  {
    var i := FirstArgMax(w);
    FirstArgMaxSpec(w);
    assert w[i] <= w[p] && w[p] <= w[i];
  }

  /** The greedy choice: the first largest digit of the window that still
      leaves `k - 1` digits after it, then the same on what follows. */
  function Greedy(w: seq<int>, k: nat): (g: seq<int>)
    requires k <= |w|
    ensures |g| == k
    decreases k
  {
    if k == 0 then []
    else
      var i := FirstArgMax(w[..|w| - k + 1]);
      [w[i]] + Greedy(w[i + 1..], k - 1)
  }

  /** The greedy choice is its first pick followed by the choice after it. */
  lemma GreedyCons(w: seq<int>, k: nat, i: nat)
    requires 0 < k <= |w| && i == FirstArgMax(w[..|w| - k + 1])
    ensures i + k <= |w| && Greedy(w, k) == [w[i]] + Greedy(w[i + 1..], k - 1)
  {
  }

  lemma {:induction false} GreedyIsSubseq(w: seq<int>, k: nat)
    requires k <= |w|
    ensures Subseq(Greedy(w, k), w)
    decreases k
  {
    if k > 0 {
      var i := FirstArgMax(w[..|w| - k + 1]);
      GreedyCons(w, k, i);
      var rest := w[i + 1..];
      GreedyIsSubseq(rest, k - 1);
      SubseqCons(w[i], Greedy(rest, k - 1), rest);
      SplitAt(w, i);
      SubseqPrepend([w[i]] + Greedy(rest, k - 1), w[..i], [w[i]] + rest);
    }
  }

  /** The same first element on both sides keeps a subsequence one. */
  lemma SubseqCons<T>(c: T, s: seq<T>, w: seq<T>)
    requires Subseq(s, w)
    ensures Subseq([c] + s, [c] + w)
  {
    assert ([c] + s)[1..] == s && ([c] + w)[1..] == w;
  }

  lemma SplitAt(w: seq<int>, i: nat)
    requires i < |w|
    ensures w == w[..i] + ([w[i]] + w[i + 1..])
  {
  }

  /** Keeping every digit keeps the line. */
  lemma {:induction false} GreedyAll(w: seq<int>)
    ensures Greedy(w, |w|) == w
    decreases |w|
  {
    if w != [] {
      GreedyAll(w[1..]);
    }
  }

  predicate NonIncreasing(w: seq<int>) {
    forall i, j :: 0 <= i < j < |w| ==> w[i] >= w[j]
  }

  /** On a line that never goes up, the greedy choice is its first `k` digits. */
  lemma {:induction false} GreedyNonIncreasing(w: seq<int>, k: nat)
    requires k <= |w| && NonIncreasing(w)
    ensures Greedy(w, k) == w[..k]
    decreases k
  {
    if k > 0 {
      NonIncreasingPicksFirst(w, |w| - k + 1);
      GreedyCons(w, k, 0);
      NonIncreasingTail(w);
      GreedyNonIncreasing(w[1..], k - 1);
      PrefixCons(w, k);
    }
  }

  lemma NonIncreasingPicksFirst(w: seq<int>, m: nat)
    requires 0 < m <= |w| && NonIncreasing(w)
    ensures FirstArgMax(w[..m]) == 0
  {
    var u := w[..m];
    assert forall j :: 0 <= j < |u| ==> u[j] == w[j];
    FirstArgMaxUnique(u, 0);
  }

  lemma NonIncreasingTail(w: seq<int>)
    requires |w| > 0 && NonIncreasing(w)
    ensures NonIncreasing(w[1..])
  {
    var u := w[1..];
    assert forall j :: 0 <= j < |u| ==> u[j] == w[j + 1];
  }

  lemma PrefixCons(w: seq<int>, k: nat)
    requires 0 < k <= |w|
    ensures w[..k] == [w[0]] + w[1..][..k - 1]
  {
  }

  // ------------------------------------------------- dropping a digit

  /** `v` is `w` with the element at position `r` taken out. */
  predicate Removed(w: seq<int>, r: nat, v: seq<int>) {
    r < |w| && |v| + 1 == |w|
    && forall j {:trigger v[j]} :: 0 <= j < |v| ==> v[j] == if j < r then w[j] else w[j + 1]
  }

  lemma RemovedConcat(w: seq<int>, r: nat)
    requires r < |w|
    ensures Removed(w, r, w[..r] + w[r + 1..])
  {
    var v := w[..r] + w[r + 1..];
    forall j | 0 <= j < |v|
      ensures v[j] == if j < r then w[j] else w[j + 1]
    {
      if j < r {
        assert v[j] == w[..r][j];
      } else {
        assert v[j] == w[r + 1..][j - r];
      }
    }
  }

  /** A window that reaches past the removed position loses it too. */
  lemma RemovedPrefix(w: seq<int>, r: nat, v: seq<int>, m: nat)
    requires Removed(w, r, v) && r < m <= |w|
    ensures Removed(w[..m], r, v[..m - 1])
  {
    var u, x := w[..m], v[..m - 1];
    forall j | 0 <= j < |x|
      ensures x[j] == if j < r then u[j] else u[j + 1]
    {
      assert x[j] == v[j];
      assert v[j] == if j < r then w[j] else w[j + 1];
    }
  }

  /** Before the removed position, both start alike. */
  lemma RemovedTail(w: seq<int>, r: nat, v: seq<int>)
    requires Removed(w, r, v) && 0 < r
    ensures v[0] == w[0] && Removed(w[1..], r - 1, v[1..])
  {
    var u, x := w[1..], v[1..];
    forall j | 0 <= j < |x|
      ensures x[j] == if j < r - 1 then u[j] else u[j + 1]
    {
      assert x[j] == v[j + 1];
    }
  }

  /** Past the removed position, `v` is `w` shifted by one. */
  lemma RemovedAfter(w: seq<int>, r: nat, v: seq<int>, i: nat)
    requires Removed(w, r, v) && r < i < |w|
    ensures v[i - 1] == w[i] && v[i..] == w[i + 1..]
  {
    var x, u := v[i..], w[i + 1..];
    forall j | 0 <= j < |x|
      ensures x[j] == u[j]
    {
      assert x[j] == v[i + j];
    }
  }

  /** Taking out an element other than the first largest one keeps the first
      largest one, one place earlier when it came after the removed one. */
  lemma FirstArgMaxRemoveAt(w: seq<int>, r: nat, v: seq<int>, i: nat)
    requires Removed(w, r, v) && r != i && IsFirstArgMax(w, i)
    ensures IsFirstArgMax(v, if i < r then i else i - 1)
  {
    var p := if i < r then i else i - 1;
    assert v[p] == w[i];
    forall j | 0 <= j < |v|
      ensures v[j] <= v[p] && (j < p ==> v[j] < v[p])
    {
      if j < r {
        assert v[j] == w[j];
      } else {
        assert v[j] == w[j + 1];
      }
      assert j < p ==> (if j < r then j else j + 1) < i;
    }
  }

  /** The first `r + 1` digits never go up. */
  predicate FallsTo(w: seq<int>, r: nat)
    requires r < |w|
  {
    r == 0 || (w[r - 1] >= w[r] && FallsTo(w, r - 1))
  }

  lemma {:induction false} FallsToFirst(w: seq<int>, r: nat, i: nat)
    requires r < |w| && FallsTo(w, r) && i <= r
    ensures w[0] >= w[i]
    decreases r
  {
    if r > 0 {
      FallsToFirst(w, r - 1, if i == r then r - 1 else i);
    }
  }

  lemma {:induction false} FallsToTail(w: seq<int>, r: nat)
    requires 0 < r < |w| && FallsTo(w, r)
    ensures FallsTo(w[1..], r - 1)
    decreases r
  {
    if r > 1 {
      FallsToTail(w, r - 1);
      assert w[1..][r - 2] == w[r - 1] && w[1..][r - 1] == w[r];
    }
  }

  /** The greedy pick is never the dipping digit at `r`, and when it comes
      before it, it is the first digit. */
  lemma DipNotPicked(w: seq<int>, r: nat, k: nat) returns (i: nat)
    requires r + 1 < |w| && w[r] < w[r + 1] && 0 < k < |w| && FallsTo(w, r)
    ensures i == FirstArgMax(w[..|w| - k + 1])
    ensures i != r && (i < r ==> i == 0)
  {
    var m := |w| - k + 1;
    i := FirstArgMax(w[..m]);
    FirstArgMaxSpec(w[..m]);
    assert w[..m][0] == w[0];
    if i <= r {
      FallsToFirst(w, r, i);
    }
    assert i <= r ==> w[..m][0] >= w[..m][i];
    assert r + 1 < m ==> w[..m][r + 1] <= w[..m][i];
  }

  /** When the first digit is picked before the dip, it is picked again once
      the dip is taken out. */
  lemma PickFirstAfterDrop(w: seq<int>, r: nat, v: seq<int>, k: nat)
    requires Removed(w, r, v) && 0 < r && r + 1 < |w| && 0 < k < |w|
    requires FirstArgMax(w[..|w| - k + 1]) == 0
    ensures FirstArgMax(v[..|v| - k + 1]) == 0
  {
    var m := |w| - k + 1;
    var u := w[..m];
    var x := v[..m - 1];
    FirstArgMaxSpec(u);
    assert x[0] == v[0] == w[0] == u[0];
    forall j | 0 <= j < |x|
      ensures x[j] <= x[0]
    {
      assert x[j] == v[j];
      if j < r {
        assert v[j] == w[j] == u[j];
      } else {
        assert v[j] == w[j + 1] == u[j + 1];
      }
    }
    FirstArgMaxUnique(x, 0);
  }

  /** A pick past the removed position moves one place earlier. */
  lemma LaterPick(w: seq<int>, r: nat, v: seq<int>, k: nat, i: nat)
    requires Removed(w, r, v) && 0 < k < |w|
    requires i == FirstArgMax(w[..|w| - k + 1]) && r < i
    ensures FirstArgMax(v[..|v| - k + 1]) == i - 1
  {
    var m := |w| - k + 1;
    RemovedPrefix(w, r, v, m);
    FirstArgMaxSpec(w[..m]);
    FirstArgMaxRemoveAt(w[..m], r, v[..m - 1], i);
    var x := v[..m - 1];
    FirstArgMaxUnique(x, i - 1);
  }

  /** The dip is ahead of the first pick, the first digit: it is the first
      pick again once the dip is taken out, and the rest of the choice
      drops the dip from the rest of the line. */
  lemma {:induction false} DropDipFirst(w: seq<int>, r: nat, v: seq<int>, k: nat)
    requires Removed(w, r, v) && 0 < r && r + 1 < |w| && w[r] < w[r + 1] && 0 < k < |w|
    requires FallsTo(w, r) && FirstArgMax(w[..|w| - k + 1]) == 0
    ensures Greedy(w, k) == Greedy(v, k)
    decreases r, 1
  {
    DropDipRest(w, r, v, k);
    FirstPickKept(w, r, v, k);
    GreedyCons(w, k, 0);
  }

  /** After the first digit, the rest of the line still holds the dip. */
  lemma {:induction false} DropDipRest(w: seq<int>, r: nat, v: seq<int>, k: nat)
    requires Removed(w, r, v) && 0 < r && r + 1 < |w| && w[r] < w[r + 1] && 0 < k < |w|
    requires FallsTo(w, r)
    ensures Greedy(w[1..], k - 1) == Greedy(v[1..], k - 1)
    decreases r, 0
  {
    RemovedTail(w, r, v);
    FallsToTail(w, r);
    GreedyDropDipAt(w[1..], r - 1, v[1..], k - 1);
  }

  /** The first digit is still the first pick once the dip is taken out. */
  lemma FirstPickKept(w: seq<int>, r: nat, v: seq<int>, k: nat)
    requires Removed(w, r, v) && 0 < r && r + 1 < |w| && 0 < k < |w|
    requires FirstArgMax(w[..|w| - k + 1]) == 0
    ensures Greedy(v, k) == [w[0]] + Greedy(v[1..], k - 1)
  {
    RemovedTail(w, r, v);
    PickFirstAfterDrop(w, r, v, k);
    GreedyCons(v, k, 0);
  }

  /** The first pick lies past the dip: it is the same digit one place
      earlier once the dip is taken out, with the same digits after it. */
  lemma DropDipLater(w: seq<int>, r: nat, v: seq<int>, k: nat, i: nat)
    requires Removed(w, r, v) && 0 < k < |w|
    requires i == FirstArgMax(w[..|w| - k + 1]) && r < i
    ensures Greedy(w, k) == Greedy(v, k)
  {
    LaterPick(w, r, v, k, i);
    RemovedAfter(w, r, v, i);
    GreedyCons(w, k, i);
    GreedyCons(v, k, i - 1);
  }

  /** A digit followed by a larger one is never worth keeping when the digits
      up to it never go up: taking it out (position `r`, leaving `v`) leaves
      the greedy choice as it was, as long as `k` digits remain. */
  lemma {:induction false} GreedyDropDipAt(w: seq<int>, r: nat, v: seq<int>, k: nat)
    requires Removed(w, r, v) && r + 1 < |w| && w[r] < w[r + 1] && k < |w| && FallsTo(w, r)
    ensures Greedy(w, k) == Greedy(v, k)
    decreases r, 2
  {
    if k > 0 {
      var i := DipNotPicked(w, r, k);
      if i < r {
        DropDipFirst(w, r, v, k);
      } else {
        DropDipLater(w, r, v, k, i);
      }
    }
  }

  /** The same, with the digit cut out of the line. */
  lemma GreedyDropDip(w: seq<int>, r: nat, k: nat)
    requires r + 1 < |w| && w[r] < w[r + 1] && k < |w| && FallsTo(w, r)
    ensures Greedy(w, k) == Greedy(w[..r] + w[r + 1..], k)
  {
    RemovedConcat(w, r);
    GreedyDropDipAt(w, r, w[..r] + w[r + 1..], k);
  }

  // --------------------------------------------------------- optimality

  function Pow10(n: nat): (p: nat)
    ensures p >= 1
  {
    if n == 0 then 1 else 10 * Pow10(n - 1)
  }

  lemma {:induction false} ValueBound(ds: seq<int>)
    requires IsDigits(ds)
    ensures 0 <= Value(ds) < Pow10(|ds|)
  {
    if ds != [] {
      ValueBound(ds[..|ds| - 1]);
    }
  }

  /** Reading the first digit: it is worth `10^(rest)` times its value. */
  lemma {:induction false} ValueCons(d: int, r: seq<int>)
    ensures Value([d] + r) == d * Pow10(|r|) + Value(r)
    decreases |r|
  {
    if r != [] {
      var n := |r| - 1;
      ValueCons(d, r[..n]);
      assert ([d] + r)[..n + 1] == [d] + r[..n];
    }
  }

  /** Dictionary order on digit strings of one length. */
  predicate LexLe(s: seq<int>, t: seq<int>)
    requires |s| == |t|
  {
    s == [] || s[0] < t[0] || (s[0] == t[0] && LexLe(s[1..], t[1..]))
  }

  lemma MulMono(a: int, b: int, p: nat)
    requires a <= b
    ensures a * p <= b * p
  {
  }

  /** For digit strings of one length, dictionary order is numeric order. */
  lemma {:induction false} LexLeValue(s: seq<int>, t: seq<int>)
    requires |s| == |t| && IsDigits(s) && IsDigits(t) && LexLe(s, t)
    ensures Value(s) <= Value(t)
  {
    if s != [] {
      ValueHead(s);
      ValueHead(t);
      DigitsTail(s);
      DigitsTail(t);
      if s[0] < t[0] {
        ValueBound(s[1..]);
        ValueBound(t[1..]);
        LeadDigitWins(s[0], t[0], Value(s[1..]), Value(t[1..]), Pow10(|s| - 1));
      } else {
        LexLeValue(s[1..], t[1..]);
      }
    }
  }

  /** The first digit is worth `10^(rest)` times its value. */
  lemma ValueHead(s: seq<int>)
    requires s != []
    ensures Value(s) == s[0] * Pow10(|s| - 1) + Value(s[1..])
  {
    ValueCons(s[0], s[1..]);
    assert [s[0]] + s[1..] == s;
  }

  lemma DigitsTail(s: seq<int>)
    requires s != [] && IsDigits(s)
    ensures IsDigits(s[1..])
  {
    assert forall j :: 0 <= j < |s| - 1 ==> s[1..][j] == s[j + 1];
  }

  /** A smaller leading digit loses, whatever the digits after it. */
  lemma LeadDigitWins(a: int, b: int, x: int, y: int, p: nat)
    requires a < b && 0 <= x < p && 0 <= y
    ensures a * p + x < b * p + y
  {
    MulMono(a + 1, b, p);
    assert (a + 1) * p == a * p + p;
  }

  /** The first kept digit of any `k`-subsequence lies in the greedy window,
      so it is no larger than the greedy pick, and when it is as large it lies
      at or after the pick. */
  lemma HeadInWindow(w: seq<int>, s: seq<int>, k: nat) returns (j: nat)
    requires 0 < k <= |w| && |s| == k && Subseq(s, w)
    ensures var i := FirstArgMax(w[..|w| - k + 1]);
      j < |w| && s[0] == w[j] && Subseq(s[1..], w[j + 1..])
      && s[0] <= w[i] && (s[0] == w[i] ==> i <= j)
  {
    var m := |w| - k + 1;
    j := SubseqHead(s, w);
    SubseqLength(s[1..], w[j + 1..]);
    FirstArgMaxSpec(w[..m]);
    assert w[..m][j] == w[j];
  }

  /** A subsequence of a suffix is one of any longer suffix. */
  lemma SubseqLongerSuffix(s: seq<int>, w: seq<int>, i: nat, j: nat)
    requires i <= j <= |w| && Subseq(s, w[j..])
    ensures Subseq(s, w[i..])
  {
    assert w[i..] == w[i..j] + w[j..];
    SubseqPrepend(s, w[i..j], w[j..]);
  }

  /** No other way of keeping `k` digits comes later in dictionary order. */
  lemma {:induction false} GreedyLexMax(w: seq<int>, s: seq<int>, k: nat)
    requires k <= |w| && |s| == k && Subseq(s, w)
    ensures LexLe(s, Greedy(w, k))
    decreases k
  {
    if k > 0 {
      var i := FirstArgMax(w[..|w| - k + 1]);
      GreedyCons(w, k, i);
      var rest := w[i + 1..];
      assert s[0] < w[i] || (s[0] == w[i] && LexLe(s[1..], Greedy(rest, k - 1))) by {
        var j := HeadInWindow(w, s, k);
        if s[0] == w[i] {
          SubseqLongerSuffix(s[1..], w, i + 1, j + 1);
          GreedyLexMax(rest, s[1..], k - 1);
        }
      }
      LexLeHead(s, w[i], Greedy(rest, k - 1));
    }
  }

  lemma LexLeHead(s: seq<int>, c: int, g: seq<int>)
    requires |s| == |g| + 1
    requires s[0] < c || (s[0] == c && LexLe(s[1..], g))
    ensures LexLe(s, [c] + g)
  {
    assert ([c] + g)[1..] == g;
  }

  /** The greedy choice spells the largest number any `k` kept digits can. */
  lemma GreedyIsLargest(w: seq<int>, s: seq<int>, k: nat)
    requires IsDigits(w) && k <= |w| && |s| == k && Subseq(s, w)
    ensures Value(s) <= Value(Greedy(w, k))
  {
    GreedyLexMax(w, s, k);
    GreedyIsSubseq(w, k);
    SubseqDigits(s, w);
    SubseqDigits(Greedy(w, k), w);
    LexLeValue(s, Greedy(w, k));
  }

  /** The largest joltage of one bank for `k` batteries: the greedy value,
      or the whole bank when it has no more than `k` of them. */
  function Best(bank: seq<int>, k: nat): int {
    Value(Greedy(bank, if k <= |bank| then k else |bank|))
  }

  /** The answer of one part: the best joltage of every bank added up. */
  function Total(banks: seq<seq<int>>, k: nat): int {
    if banks == [] then 0 else Total(banks[..|banks| - 1], k) + Best(banks[|banks| - 1], k)
  }

  lemma TotalSnoc(banks: seq<seq<int>>, bank: seq<int>, k: nat)
    ensures Total(banks + [bank], k) == Total(banks, k) + Best(bank, k)
  {
    assert (banks + [bank])[..|banks|] == banks;
  }

  /** One more line adds the best joltage of its bank to the total. */
  lemma BanksPrefix(lines: seq<string>, i: nat, k: nat, p: int, q: int)
    requires i < |lines|
    ensures p == Total(Banks(lines[..i]), k) && q == p + Best(Digits(lines[i]), k)
            ==> q == Total(Banks(lines[..i + 1]), k)
  {
    var banks := Banks(lines[..i + 1]);
    assert banks[..i] == Banks(lines[..i]);
    assert banks[i] == Digits(lines[i]);
  }

  /** Every line of the input as its digit values. */
  function Banks(lines: seq<string>): (banks: seq<seq<int>>)
    ensures |banks| == |lines|
    ensures forall i :: 0 <= i < |lines| ==> banks[i] == Digits(lines[i])
  {
    seq(|lines|, i requires 0 <= i < |lines| => Digits(lines[i]))
  }
}
