/** The human Rust solution of Day 6 (human-solutions/06/rust/src/main.rs).
    Part 1 splits every line into words, reads the words of all lines but
    the last as numbers and the words of the last line as operators, and
    folds column `col` of the number rows with operator `col`. Part 2 scans
    the columns of the text from the right, one number per column read top
    to bottom, and flushes the problem gathered so far at every blank
    column and once more at the end. A `None` result is a panic. */
module WorksheetScan {
  import opened Wrappers
  import opened Text
  import opened Worksheet

  // --------------------------------------------------------------- part 1

  /** `l.trim().split_whitespace()`. */
  function WordsOf(line: string): seq<string> {
    Words(Trim(line))
  }

  /** A number row: each of its words `parse`d, or `None` when one fails. */
  function NumberRow(line: string): (r: Option<seq<int>>)
    ensures r.Some? <==> forall j :: 0 <= j < |WordsOf(line)| ==> ParseInt(WordsOf(line)[j]).Some?
    ensures r.Some? ==> |r.value| == |WordsOf(line)|
                        && forall j :: 0 <= j < |r.value| ==> ParseInt(WordsOf(line)[j]) == Some(r.value[j])
  {
    match ParseAll(ParseInt, WordsOf(line))
    case Ok(ns) => Some(ns)
    case Err(_) => None
  }

  /** The operator a word of the last line names. */
  function OpWord(w: string): (op: Option<Op>)
    ensures op.Some? <==> w == "+" || w == "*"
    ensures op == Some(Add) <==> w == "+"
  {
    if w == "+" then Some(Add) else if w == "*" then Some(Mul) else None
  }

  /** Every number row has a word at index `col`. */
  predicate Covers(numbers: seq<seq<int>>, col: nat) {
    forall r :: 0 <= r < |numbers| ==> col < |numbers[r]|
  }

  /** The values `row[col]` of the number rows, top to bottom. */
  function Column(numbers: seq<seq<int>>, col: nat): (vs: seq<int>)
    requires Covers(numbers, col)
    ensures |vs| == |numbers| && forall r :: 0 <= r < |numbers| ==> vs[r] == numbers[r][col]
  {
    seq(|numbers|, r requires 0 <= r < |numbers| => numbers[r][col])
  }

  /** The answer of column `col`: its values added or multiplied together.
      It panics when a number row is too short or there is no number row;
      the operator is only looked at when there is a second value. */
  function ColumnAnswer(numbers: seq<seq<int>>, op: string, col: nat): (r: Option<int>)
    ensures r.Some? <==> |numbers| > 0 && Covers(numbers, col) && (|numbers| == 1 || OpWord(op).Some?)
    ensures r.Some? && |numbers| == 1 ==> r.value == numbers[0][col]
    ensures r.Some? && |numbers| > 1 ==> r.value == Eval(OpWord(op).value, Column(numbers, col))
  {
    if |numbers| == 0 || !Covers(numbers, col) then None
    else if |numbers| == 1 then Some(numbers[0][col])
    else
      match OpWord(op)
      case None => None
      case Some(o) => Some(Eval(o, Column(numbers, col)))
  }

  /** The sum of the answers of the first `n` columns. */
  function Answers(numbers: seq<seq<int>>, ops: seq<string>, n: nat): Option<int>
    requires n <= |ops|
  {
    if n == 0 then Some(0) else Plus(Answers(numbers, ops, n - 1), ColumnAnswer(numbers, ops[n - 1], n - 1))
  }

  /** Part 1 of the lines: `None` where `solve_part1` panics. */
  function Part1(lines: seq<string>): Option<int> {
    if lines == [] then None
    else
      match ParseAll(NumberRow, lines[..|lines| - 1])
      case Err(_) => None
      case Ok(numbers) =>
        var ops := WordsOf(lines[|lines| - 1]);
        Answers(numbers, ops, |ops|)
  }

  /** The sum has a value exactly when every column has an answer. */
  lemma {:induction false} AnswersSome(numbers: seq<seq<int>>, ops: seq<string>, n: nat)
    requires n <= |ops|
    ensures Answers(numbers, ops, n).Some? <==> forall col :: 0 <= col < n ==> ColumnAnswer(numbers, ops[col], col).Some?
  {
    if n > 0 {
      AnswersSome(numbers, ops, n - 1);
    }
  }

  /** When part 1 panics: no lines at all, a word of a number row that is
      not a number, or a column with no number row, with a number row too
      short for it, or with two or more rows and an operator that is
      neither `+` nor `*`. */
  lemma Part1Succeeds(lines: seq<string>)
    requires lines != []
    ensures var rows, ops := lines[..|lines| - 1], WordsOf(lines[|lines| - 1]);
      Part1(lines).Some? <==>
        && (forall i :: 0 <= i < |rows| ==> NumberRow(rows[i]).Some?)
        && forall col :: 0 <= col < |ops| ==>
             && |rows| > 0
             && (forall i :: 0 <= i < |rows| ==> col < |WordsOf(rows[i])|)
             && (|rows| == 1 || ops[col] == "+" || ops[col] == "*")
  {
    var rows, ops := lines[..|lines| - 1], WordsOf(lines[|lines| - 1]);
    var parsed := ParseAll(NumberRow, rows);
    if parsed.Ok? {
      var numbers := parsed.value;
      AnswersSome(numbers, ops, |ops|);
      assert forall col: nat :: Covers(numbers, col) <==> forall i :: 0 <= i < |rows| ==> col < |WordsOf(rows[i])|;
    }
  }

  /** The loop `for row in &number_rows { values.push(row[col]) }`, which
      panics on a row without an entry `col`. */
  method ColumnValues(numbers: seq<seq<int>>, col: nat) returns (values: Option<seq<int>>)
    ensures values.Some? <==> Covers(numbers, col)
    ensures values.Some? ==> values.value == Column(numbers, col)
  {
    var vs: seq<int> := [];
    for r := 0 to |numbers|
      invariant |vs| == r
      invariant forall i :: 0 <= i < r ==> col < |numbers[i]| && vs[i] == numbers[i][col]
    {
      if col >= |numbers[r]| {
        return None;
      }
      vs := vs + [numbers[r][col]];
    }
    return Some(vs);
  }

  /** `result = values[0]` and the fold over the rest, which panics on an
      operator other than `+` and `*`; the result is the values' sum or
      product. */
  method FoldColumn(values: seq<int>, op: string) returns (r: Option<int>)
    requires |values| > 0
    ensures |values| == 1 ==> r == Some(values[0])
    ensures |values| > 1 ==> (r.Some? <==> OpWord(op).Some?)
    ensures |values| > 1 && r.Some? ==> r.value == Eval(OpWord(op).value, values)
  {
    var result := values[0];
    assert values[..1] == [result];
    for i := 1 to |values|
      invariant OpWord(op).None? ==> i == 1
      invariant i == 1 ==> result == values[0]
      invariant OpWord(op).Some? ==> result == Fold(OpWord(op).value, values[..i])
    {
      assert values[..i + 1][..i] == values[..i];
      if op == "+" {
        result := result + values[i];
      } else if op == "*" {
        result := result * values[i];
      } else {
        return None;
      }
    }
    if OpWord(op).Some? {
      assert values[..|values|] == values;
      FoldEval(OpWord(op).value, values);
    }
    return Some(result);
  }

  /** `solve_part1` on the lines of the input. */
  method SolvePart1(lines: seq<string>) returns (r: Option<int>)
    ensures r == Part1(lines)
  {
    if lines == [] {
      return None;
    }
    var parsed := ParseAll(NumberRow, lines[..|lines| - 1]);
    if parsed.Err? {
      return None;
    }
    var numbers := parsed.value;
    r := SumColumns(numbers, WordsOf(lines[|lines| - 1]));
  }

  /** The `for col in 0..operators.len()` loop: the sum of the column
      answers, or a panic at the first column without one. */
  method SumColumns(numbers: seq<seq<int>>, operators: seq<string>) returns (r: Option<int>)
    ensures r == Answers(numbers, operators, |operators|)
  {
    var total := 0;
    for col := 0 to |operators|
      invariant Answers(numbers, operators, col) == Some(total)
    {
      var ok;
      ok, total := AddColumn(numbers, operators, col, total);
      if !ok {
        AnswersSome(numbers, operators, |operators|);
        return None;
      }
    }
    return Some(total);
  }

  /** One turn of the `for col` loop: the column's values are gathered and
      folded, and the result is added to the total. */
  method AddColumn(numbers: seq<seq<int>>, operators: seq<string>, col: nat, total: int)
    returns (ok: bool, total': int)
    requires col < |operators|
    ensures ok <==> ColumnAnswer(numbers, operators[col], col).Some?
    ensures ok ==> total' == total + ColumnAnswer(numbers, operators[col], col).value
  {
    var values := ColumnValues(numbers, col);
    if values.None? || |values.value| == 0 {
      return false, total;
    }
    var result := FoldColumn(values.value, operators[col]);
    if result.None? {
      return false, total;
    }
    return true, total + result.value;
  }

  // --------------------------------------------------------------- part 2

  /** The column loop over `0..height`: the characters of column `col`
      that are not spaces, top to bottom. */
  method ColumnChars(rows: seq<string>, col: nat) returns (digits: string)
    ensures digits == ColumnDigits(rows, col)
  {
    digits := [];
    for row := 0 to |rows|
      invariant digits == ColumnDigits(rows[..row], col)
    {
      assert rows[..row + 1][..row] == rows[..row];
      if col < |rows[row]| {
        var ch := rows[row][col];
        if ch != ' ' {
          digits := digits + [ch];
        }
      }
    }
    assert rows[..|rows|] == rows;
  }

  /** `flush_problem`: with numbers and an operator, their sum or product
      is added to the total and both are cleared; otherwise nothing
      changes. */
  function Flush(total: int, nums: seq<int>, op: Option<Op>): (int, seq<int>, Option<Op>) {
    if nums == [] || op.None? then (total, nums, op) else (total + Eval(op.value, nums), [], None)
  }

  /** Every column up to the width has digits that read as a number. */
  predicate ColumnsRead(s: Sheet) {
    forall c :: 0 <= c < Width(s) ==> NumberAt(s.rows, c).Some?
  }

  /** Digits only read as numbers. */
  lemma DigitsRead(s: Sheet)
    ensures DigitsOnly(s) ==> ColumnsRead(s)
  {
    if DigitsOnly(s) {
      forall c | 0 <= c < Width(s)
        ensures NumberAt(s.rows, c).Some?
      {
        assert DigitColumn(s, c);
      }
    }
  }

  /** The scan state once the columns from `col` on have been read. Past a
      blank column nothing is pending and the total is everything from
      `col` on. Inside a problem the pending numbers are those of its
      columns from `col` on, the total is everything after the problem,
      and at the problem's first column its operator has been seen. */
  ghost predicate Scan(s: Sheet, col: nat, total: int, nums: seq<int>, op: Option<Op>)
    requires col <= Width(s)
  {
    if col == Width(s) || Blank(s, col) then nums == [] && TotalFrom(Columns, s, col) == Some(total)
    else
      var hi := BlockEnd(s, col);
      && ColumnNumbers(s.rows, col, hi) == Some(nums)
      && TotalFrom(Columns, s, hi + 1) == Some(total)
      && (StartsBlock(s, col) ==> op == OpOf(CharAt(s.ops, col)))
  }

  /** A flush at the leftmost column of a problem adds the problem's
      answer and leaves nothing pending. */
  lemma FlushBlock(s: Sheet, lo: nat, total: int, nums: seq<int>, op: Option<Op>)
    requires WellFormed(s) && lo < Width(s) && !Blank(s, lo) && StartsBlock(s, lo)
    requires Scan(s, lo, total, nums, op)
    ensures var (total', nums', _) := Flush(total, nums, op);
            nums' == [] && TotalFrom(Columns, s, lo) == Some(total')
  {
    var hi := BlockEnd(s, lo);
    BlockOperator(s, lo, hi);
    TotalFromUnfold(Columns, s, lo);
  }

  /** The first column read is past the width. */
  lemma ScanStart(s: Sheet)
    ensures Scan(s, Width(s), 0, [], None)
  {
  }

  /** A blank column flushes the problem to its right. */
  lemma ScanBlank(s: Sheet, col: nat, total: int, nums: seq<int>, op: Option<Op>)
    requires WellFormed(s) && col < Width(s) && Blank(s, col)
    requires Scan(s, col + 1, total, nums, op)
    ensures var (total', nums', op') := Flush(total, nums, op);
            Scan(s, col, total', nums', op')
  {
    if col + 1 < Width(s) && !Blank(s, col + 1) {
      FlushBlock(s, col + 1, total, nums, op);
    }
  }

  /** A column that is not blank adds its number, if any, to the problem
      and, when it holds `+` or `*` on the last line, sets the operator. */
  lemma ScanColumn(s: Sheet, col: nat, total: int, nums: seq<int>, op: Option<Op>, op': Option<Op>, n: seq<int>)
    requires WellFormed(s) && col < Width(s) && !Blank(s, col)
    requires Scan(s, col + 1, total, nums, op)
    requires NumberAt(s.rows, col) == Some(n)
    requires op' == if CharAt(s.ops, col) == '+' || CharAt(s.ops, col) == '*' then OpOf(CharAt(s.ops, col)) else op
    ensures Scan(s, col, total, nums + n, op')
  {
    var hi := BlockEnd(s, col);
    assert ColumnNumbers(s.rows, col, hi) == Append(ColumnNumbers(s.rows, col + 1, hi), NumberAt(s.rows, col));
    if col + 1 == Width(s) || Blank(s, col + 1) {
      assert nums + n == n;
    }
  }

  /** One turn of the column loop: the column's digits and operator are
      read; a blank column flushes; otherwise the operator is taken when it
      is `+` or `*` and the digits are parsed, which panics when they are
      not a number. */
  method ScanOne(s: Sheet, col: nat, total: int, nums: seq<int>, op: Option<Op>)
    returns (ok: bool, total': int, nums': seq<int>, op': Option<Op>)
    requires col < Width(s)
    requires WellFormed(s) ==> Scan(s, col + 1, total, nums, op)
    ensures ok <==> NumberAt(s.rows, col).Some?
    ensures ok && WellFormed(s) ==> Scan(s, col, total', nums', op') == true
  {
    var digits := ColumnChars(s.rows, col);
    var opc := if col < |s.ops| then s.ops[col] else ' ';
    assert opc == CharAt(s.ops, col);
    if digits == [] && opc == ' ' {
      var flushed := Flush(total, nums, op);
      total', nums', op' := flushed.0, flushed.1, flushed.2;
      if WellFormed(s) {
        ScanBlank(s, col, total, nums, op);
      }
      return true, total', nums', op';
    }
    op' := op;
    if opc == '+' || opc == '*' {
      op' := OpOf(opc);
    }
    nums' := nums;
    if digits != [] {
      var number := ParseInt(digits);
      if number.None? {
        return false, total, nums, op;
      }
      nums' := nums' + [number.value];
    }
    if WellFormed(s) {
      ghost var n := NumberAt(s.rows, col).value;
      assert nums' == nums + n;
      ScanColumn(s, col, total, nums, op, op', n);
    }
    return true, total, nums', op';
  }

  /** `solve_part2` on the lines of the input: it panics on no lines and
      on a column whose digits are not a number. On a well formed sheet it
      is the reference total of part 2. */
  method SolvePart2(lines: seq<string>) returns (r: Option<int>)
    ensures lines == [] ==> r.None?
    ensures lines != [] ==> (r.Some? <==> ColumnsRead(SheetOf(lines)))
    ensures lines != [] && WellFormed(SheetOf(lines)) ==> r == TotalFrom(Columns, SheetOf(lines), 0)
  {
    if lines == [] {
      return None;
    }
    var s := SheetOf(lines);
    var width := Width(s);
    var total: int, nums: seq<int>, op: Option<Op> := 0, [], None;
    ScanStart(s);
    var col: nat := width;
    while col > 0
      invariant col <= width
      invariant forall c: nat :: col <= c < width ==> NumberAt(s.rows, c).Some?
      invariant WellFormed(s) ==> Scan(s, col, total, nums, op) == true
    {
      col := col - 1;
      var ok;
      ok, total, nums, op := ScanOne(s, col, total, nums, op);
      if !ok {
        assert !ColumnsRead(s);
        DigitsRead(s);
        return None;
      }
    }
    if 0 < width && !Blank(s, 0) && WellFormed(s) {
      FlushBlock(s, 0, total, nums, op);
    }
    var flushed := Flush(total, nums, op);
    return Some(flushed.0);
  }

  // ----------------------------------------------------------------- main

  /** `main` on the text of the input file: the end is trimmed and both
      parts are solved; an error where either panics. */
  method Solve(text: string) returns (r: Result<(int, int)>)
    ensures var lines := Lines(TrimRight(text));
            && (r.Ok? <==> Part1(lines).Some? && lines != [] && ColumnsRead(SheetOf(lines)))
            && (r.Ok? ==> Some(r.value.0) == Part1(lines))
            && (r.Ok? && WellFormed(SheetOf(lines)) ==> Some(r.value.1) == TotalFrom(Columns, SheetOf(lines), 0))
  {
    var lines := Lines(TrimRight(text));
    var part1 := SolvePart1(lines);
    if part1.None? {
      return Err("solve_part1 panicked");
    }
    var part2 := SolvePart2(lines);
    if part2.None? {
      return Err("solve_part2 panicked");
    }
    return Ok((part1.value, part2.value));
  }
}
