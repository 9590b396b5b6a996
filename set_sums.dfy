/** Sums of finite sets of integers, as an iterator's `sum()` over a hash set
    computes them: each element once, in no particular order. */
module SetSums {

  /** A set is empty or has an element (extensionality). */
  lemma EmptyOrElement(s: set<int>)
    ensures s == {} || exists x :: x in s
  {
    if forall x :: x !in s {
      assert s == {};
    }
  }

  ghost function SetSum(s: set<int>): int {
    if s == {} then 0
    else
      EmptyOrElement(s);
      var x :| x in s; x + SetSum(s - {x})
  }

  /** The sum does not depend on which element is taken first. */
  lemma {:induction false} SetSumRemove(s: set<int>, y: int)
    requires y in s
    ensures SetSum(s) == y + SetSum(s - {y})
    decreases |s|
  {
    EmptyOrElement(s);
    var x :| x in s && SetSum(s) == x + SetSum(s - {x});
    if x != y {
      SetSumRemove(s - {x}, y);
      SetSumRemove(s - {y}, x);
      assert s - {x} - {y} == s - {y} - {x};
    }
  }

  /** Adding an element that is already there changes nothing; a new one is
      added to the sum exactly once. */
  lemma SetSumInsert(s: set<int>, y: int)
    ensures SetSum(s + {y}) == if y in s then SetSum(s) else y + SetSum(s)
  {
    if y !in s {
      SetSumRemove(s + {y}, y);
      assert s + {y} - {y} == s;
    } else {
      assert s + {y} == s;
    }
  }

  /** `set.iter().sum()`. */
  method Sum(ids: set<int>) returns (total: int)
    ensures total == SetSum(ids)
  {
    total := 0;
    var rest := ids;
    while rest != {}
      invariant total + SetSum(rest) == SetSum(ids)
      decreases |rest|
    {
      EmptyOrElement(rest);
      var x :| x in rest;
      SetSumRemove(rest, x);
      total := total + x;
      rest := rest - {x};
    }
  }
}
