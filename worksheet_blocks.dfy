/** The Gemini 3 Pro Python solution of Day 6
    (ai-solutions/06/gemini-3-pro/python/main.py): the non-empty lines are
    padded to the longest, the columns that are a space on every line are
    collected as separators, and each block of columns between two
    separators is read both ways and added to the two totals. */
module WorksheetBlocks {
  import opened Wrappers
  import opened Text
  import opened Worksheet

  /** `line.ljust(width)`. */
  function Pad(line: string, width: nat): (p: string)
    ensures |p| == if |line| < width then width else |line|
    ensures forall c :: 0 <= c < |p| ==> p[c] == CharAt(line, c)
  {
    if |line| < width then line + seq(width - |line|, _ => ' ') else line
  }

  /** The lines of `s` padded to `width`, each reading as its original line. */
  ghost predicate PaddedSheet(padded: seq<string>, s: Sheet, width: nat) {
    && |padded| == |s.rows| + 1
    && (forall r :: 0 <= r < |padded| ==> |padded[r]| == width)
    && (forall r, c :: 0 <= r < |s.rows| && 0 <= c < width ==> padded[r][c] == CharAt(s.rows[r], c))
    && (forall c :: 0 <= c < width ==> padded[|s.rows|][c] == CharAt(s.ops, c))
  }

  /** A column that is a space on every padded line. */
  ghost predicate SpaceColumn(padded: seq<string>, c: nat) {
    forall r :: 0 <= r < |padded| && c < |padded[r]| ==> padded[r][c] == ' '
  }

  /** A padded column is a separator exactly when it is blank. */
  lemma SeparatorIsBlank(padded: seq<string>, s: Sheet, width: nat, c: nat)
    requires PaddedSheet(padded, s, width) && c < width
    ensures SpaceColumn(padded, c) <==> Blank(s, c)
  {
    NoColumnDigits(s.rows, c);
    if SpaceColumn(padded, c) {
      assert padded[|s.rows|][c] == ' ';
    }
  }

  /** The test of one column: no line has anything but a space there. */
  method IsSeparator(padded: seq<string>, col: nat) returns (b: bool)
    requires forall r :: 0 <= r < |padded| ==> col < |padded[r]|
    ensures b <==> SpaceColumn(padded, col)
  {
    b := true;
    var row := 0;
    while row < |padded| && b
      invariant 0 <= row <= |padded|
      invariant b ==> forall r :: 0 <= r < row ==> padded[r][col] == ' '
      invariant !b ==> row < |padded| && padded[row][col] != ' '
      decreases |padded| - row, b
    {
      if padded[row][col] != ' ' {
        b := false;
      } else {
        row := row + 1;
      }
    }
  }

  /** `separator_indices` over lines of one length `width`. */
  method FindSeparators(padded: seq<string>, ghost width: nat) returns (seps: seq<int>)
    requires padded != [] && forall r :: 0 <= r < |padded| ==> |padded[r]| == width
    ensures Separated(seps, padded, width)
  {
    var n := |padded[0]|;
    seps := [-1];
    for col := 0 to n
      invariant SeparatorsBefore(seps, padded, width, col) == true
    {
      var b := IsSeparator(padded, col);
      if b {
        SeparatorFound(seps, padded, width, col);
        seps := seps + [col];
      } else {
        SeparatorPassed(seps, padded, width, col);
      }
    }
    SeparatorsDone(seps, padded, width);
    seps := seps + [n];
  }

  /** -1, then every space column in increasing order, then the width;
      between two neighbours no column is a space column. */
  ghost predicate Separated(seps: seq<int>, padded: seq<string>, width: nat) {
    && |seps| >= 2 && seps[0] == -1 && seps[|seps| - 1] == width
    && (forall i :: 0 <= i < |seps| - 1 ==> seps[i] < seps[i + 1])
    && (forall i :: 0 < i < |seps| - 1 ==> 0 <= seps[i] < width && SpaceColumn(padded, seps[i]))
    && (forall i, c :: 0 <= i < |seps| - 1 && seps[i] < c < seps[i + 1] ==> !SpaceColumn(padded, c))
  }

  /** The separators found before column `col`. */
  ghost predicate SeparatorsBefore(seps: seq<int>, padded: seq<string>, width: nat, col: nat) {
    && |seps| >= 1 && seps[0] == -1 && seps[|seps| - 1] < col
    && (forall i :: 0 <= i < |seps| - 1 ==> seps[i] < seps[i + 1])
    && (forall i :: 0 < i < |seps| ==> 0 <= seps[i] < width && SpaceColumn(padded, seps[i]))
    && (forall i, c :: 0 <= i < |seps| - 1 && seps[i] < c < seps[i + 1] ==> !SpaceColumn(padded, c))
    && (forall c :: seps[|seps| - 1] < c < col ==> !SpaceColumn(padded, c))
  }

  /** A space column joins the separators found so far. */
  lemma SeparatorFound(seps: seq<int>, padded: seq<string>, width: nat, col: nat)
    requires SeparatorsBefore(seps, padded, width, col) && col < width && SpaceColumn(padded, col)
    ensures SeparatorsBefore(seps + [col], padded, width, col + 1)
  {
    var t := seps + [col];
    var n := |seps|;
    assert t[n] == col && t[..n] == seps;
    forall i | 0 <= i < |t| - 1
      ensures t[i] < t[i + 1]
    {
      assert t[i] == seps[i];
      if i < n - 1 {
        assert t[i + 1] == seps[i + 1];
      }
    }
    forall i | 0 < i < |t|
      ensures 0 <= t[i] < width && SpaceColumn(padded, t[i])
    {
      if i < n {
        assert t[i] == seps[i];
      }
    }
    forall i, c | 0 <= i < |t| - 1 && t[i] < c < t[i + 1]
      ensures !SpaceColumn(padded, c)
    {
      assert t[i] == seps[i];
      if i < n - 1 {
        assert t[i + 1] == seps[i + 1];
      }
    }
  }

  /** A column with a non-space character is passed over. */
  lemma SeparatorPassed(seps: seq<int>, padded: seq<string>, width: nat, col: nat)
    requires SeparatorsBefore(seps, padded, width, col) && col < width && !SpaceColumn(padded, col)
    ensures SeparatorsBefore(seps, padded, width, col + 1)
  {
  }

  lemma SeparatorsDone(seps: seq<int>, padded: seq<string>, width: nat)
    requires SeparatorsBefore(seps, padded, width, width)
    ensures Separated(seps + [width], padded, width)
  {
    var t := seps + [width];
    var n := |seps|;
    assert t[n] == width;
    forall i | 0 <= i < |t| - 1
      ensures t[i] < t[i + 1]
    {
      assert t[i] == seps[i];
      if i < n - 1 {
        assert t[i + 1] == seps[i + 1];
      }
    }
    forall i | 0 < i < |t| - 1
      ensures 0 <= t[i] < width && SpaceColumn(padded, t[i])
    {
      assert t[i] == seps[i];
    }
    forall i, c | 0 <= i < |t| - 1 && t[i] < c < t[i + 1]
      ensures !SpaceColumn(padded, c)
    {
      assert t[i] == seps[i];
      if i < n - 1 {
        assert t[i + 1] == seps[i + 1];
      }
    }
  }

  /** Two neighbouring separators bound a block of the sheet, empty or
      not. */
  lemma SeparatedBlock(seps: seq<int>, padded: seq<string>, s: Sheet, width: nat, i: nat, lo: int, hi: int)
    requires Separated(seps, padded, width) && PaddedSheet(padded, s, width) && width == Width(s)
    requires i < |seps| - 1 && lo == seps[i] + 1 && hi == seps[i + 1]
    ensures 0 <= lo <= hi <= width && IsBlock(s, lo, hi)
  {
    if i > 0 {
      SeparatorIsBlank(padded, s, width, seps[i]);
    }
    if hi < width {
      SeparatorIsBlank(padded, s, width, hi);
    }
    forall j | lo <= j < hi
      ensures !Blank(s, j)
    {
      SeparatorIsBlank(padded, s, width, j);
    }
  }

  /** Part 1 of a block: each digit line's part, stripped, read as a number
      when it is not empty; `None` where `int` raises. */
  method ReadRows(padded: seq<string>, ghost s: Sheet, ghost width: nat, lo: nat, hi: nat) returns (r: Option<seq<int>>)
    requires PaddedSheet(padded, s, width) && width == Width(s)
    requires lo <= hi <= width
    ensures r == RowNumbers(s.rows, lo, hi)
  {
    ghost var rows := s.rows;
    var nums := [];
    for row := 0 to |padded| - 1
      invariant Some(nums) == RowNumbers(rows[..row], lo, hi)
    {
      var part := padded[row][lo..hi];
      assert part == Slice(rows[row], lo, hi);
      var text := Trim(part);
      RowStep(rows, row, lo, hi, nums);
      if text != [] {
        match PyInt(text)
        case None =>
          return None;
        case Some(n) =>
          nums := nums + [n];
      }
    }
    assert rows[..|padded| - 1] == rows;
    return Some(nums);
  }

  /** One more digit line: its stripped part is skipped when empty, read
      when it is a number, and spoils the whole reading when it is not. */
  lemma RowStep(rows: seq<string>, row: nat, lo: nat, hi: nat, nums: seq<int>)
    requires row < |rows| && lo <= hi && Some(nums) == RowNumbers(rows[..row], lo, hi)
    ensures var text := Trim(Slice(rows[row], lo, hi));
      && (text == [] ==> Some(nums) == RowNumbers(rows[..row + 1], lo, hi))
      && (text != [] && PyInt(text).Some? ==> Some(nums + [PyInt(text).value]) == RowNumbers(rows[..row + 1], lo, hi))
      && (text != [] && PyInt(text).None? ==> RowNumbers(rows, lo, hi) == None)
  {
    var part := Slice(rows[row], lo, hi);
    var prefix := rows[..row + 1];
    assert prefix[..row] == rows[..row] && prefix[row] == rows[row];
    TrimTwice(part);
    if Trim(part) != [] && PyInt(Trim(part)).None? {
      RowNumbersNone(rows, row + 1, lo, hi);
    }
  }

  /** The digits of column `c` on the digit lines, top to bottom. */
  method ColumnText(padded: seq<string>, ghost s: Sheet, ghost width: nat, c: nat) returns (text: string)
    requires PaddedSheet(padded, s, width) && width == Width(s)
    requires c < width
    ensures text == ColumnDigits(s.rows, c)
  {
    ghost var rows := s.rows;
    text := "";
    for row := 0 to |padded| - 1
      invariant text == ColumnDigits(rows[..row], c)
    {
      ghost var prefix := rows[..row + 1];
      assert prefix[..row] == rows[..row] && prefix[row] == rows[row];
      var ch := padded[row][c];
      if ch != ' ' {
        text := text + [ch];
      }
    }
    assert rows[..|padded| - 1] == rows;
  }

  /** Part 2 of a block: one number per column with digits, the rightmost
      column first; on digit lines of digits and spaces it is the reference
      reading. */
  method ReadColumns(padded: seq<string>, ghost s: Sheet, ghost width: nat, lo: nat, hi: nat) returns (r: Option<seq<int>>)
    requires PaddedSheet(padded, s, width) && width == Width(s)
    requires lo <= hi <= width
    ensures DigitsOnly(s) ==> r == ColumnNumbers(s.rows, lo, hi)
  {
    var nums := [];
    var c := hi;
    while c > lo
      invariant lo <= c <= hi
      invariant DigitsOnly(s) ==> Some(nums) == ColumnNumbers(s.rows, c, hi)
    {
      c := c - 1;
      var text := ColumnText(padded, s, width, c);
      if DigitsOnly(s) {
        ColumnStep(s, c, hi, nums);
      }
      if text != [] {
        match PyInt(text)
        case None =>
          return None;
        case Some(n) =>
          nums := nums + [n];
      }
    }
    return Some(nums);
  }

  /** One more column to the left, on digit lines of digits and spaces. */
  lemma ColumnStep(s: Sheet, c: nat, hi: nat, nums: seq<int>)
    requires DigitsOnly(s) && c < hi <= Width(s)
    requires Some(nums) == ColumnNumbers(s.rows, c + 1, hi)
    ensures var text := ColumnDigits(s.rows, c);
      && (text == [] ==> Some(nums) == ColumnNumbers(s.rows, c, hi))
      && (text != [] ==> PyInt(text).Some? && Some(nums + [PyInt(text).value]) == ColumnNumbers(s.rows, c, hi))
  {
    var text := ColumnDigits(s.rows, c);
    assert DigitColumn(s, c);
    assert ColumnNumbers(s.rows, c, hi) == Append(ColumnNumbers(s.rows, c + 1, hi), NumberAt(s.rows, c));
    if text != [] {
      assert PyInt(text) == Some(DigitsValue(text));
      assert NumberAt(s.rows, c) == Some([DigitsValue(text)]);
    } else {
      assert nums + [] == nums;
    }
  }

  /** `val = numbers[0]`, then the rest added for "+", multiplied for "*",
      and ignored for any other operator text. */
  method FoldNumbers(numbers: seq<int>, op: string) returns (val: int)
    requires |numbers| > 0
    ensures op == "+" ==> val == Sum(numbers)
    ensures op == "*" ==> val == Product(numbers)
    ensures op != "+" && op != "*" ==> val == numbers[0]
  {
    val := numbers[0];
    assert numbers[..1] == [val];
    if op == "+" {
      for k := 1 to |numbers|
        invariant val == Fold(Add, numbers[..k])
      {
        assert numbers[..k + 1][..k] == numbers[..k];
        val := val + numbers[k];
      }
      assert numbers[..|numbers|] == numbers;
      FoldEval(Add, numbers);
    } else if op == "*" {
      for k := 1 to |numbers|
        invariant val == Fold(Mul, numbers[..k])
      {
        assert numbers[..k + 1][..k] == numbers[..k];
        val := val * numbers[k];
      }
      assert numbers[..|numbers|] == numbers;
      FoldEval(Mul, numbers);
    }
  }

  /** The block between two neighbouring separators, as a half-open
      range of columns with no blank column inside. */
  ghost predicate IsBlock(s: Sheet, lo: nat, hi: nat) {
    && StartsBlock(s, lo) && lo <= hi <= Width(s)
    && (hi == Width(s) || Blank(s, hi))
    && forall j :: lo <= j < hi ==> !Blank(s, j)
  }

  /** One turn of the block loop: what the block adds to each total, or
      `None` where `int` raises. On a well formed sheet these are the
      block's reference answers. */
  method Block(padded: seq<string>, ghost s: Sheet, ghost width: nat, lo: nat, hi: nat) returns (ok: bool, v1: int, v2: int)
    requires PaddedSheet(padded, s, width) && width == Width(s)
    requires IsBlock(s, lo, hi) && lo < hi
    ensures WellFormed(s) ==> (ok <==> BlockValue(Rows, s, lo, hi, OpOf(CharAt(s.ops, lo))).Some?)
    ensures WellFormed(s) && ok ==>
              && BlockValue(Rows, s, lo, hi, OpOf(CharAt(s.ops, lo))) == Some(v1)
              && BlockValue(Columns, s, lo, hi, OpOf(CharAt(s.ops, lo))) == Some(v2)
  {
    ghost var wf := WellFormed(s);
    var part := padded[|padded| - 1][lo..hi];
    assert part == Slice(s.ops, lo, hi);
    var op := Trim(part);
    if wf {
      OperatorText(s, lo, hi);
    }
    if op == [] {
      return true, 0, 0;
    }
    var rowNumbers := ReadRows(padded, s, width, lo, hi);
    if rowNumbers.None? {
      return false, 0, 0;
    }
    v1 := 0;
    if rowNumbers.value != [] {
      v1 := FoldNumbers(rowNumbers.value, op);
    }
    var columnNumbers := ReadColumns(padded, s, width, lo, hi);
    if wf {
      ColumnNumbersParse(s, lo, hi);
    }
    if columnNumbers.None? {
      return false, 0, 0;
    }
    v2 := 0;
    if columnNumbers.value != [] {
      v2 := FoldNumbers(columnNumbers.value, op);
    }
    if wf {
      BlockValueIs(Rows, s, lo, hi, op, rowNumbers.value, v1);
      BlockValueIs(Columns, s, lo, hi, op, columnNumbers.value, v2);
    }
    ok := true;
  }

  /** On a well formed sheet the stripped operator text of a block is its
      one operator character. */
  lemma OperatorText(s: Sheet, lo: nat, hi: nat)
    requires WellFormed(s) && IsBlock(s, lo, hi) && lo < hi
    ensures OpOf(CharAt(s.ops, lo)).Some? && Trim(Slice(s.ops, lo, hi)) == [CharAt(s.ops, lo)]
  {
    BlockOperator(s, lo, hi);
    TrimOne(Slice(s.ops, lo, hi));
  }

  /** What `FoldNumbers` computed for a block is the block's answer. */
  lemma BlockValueIs(part: Part, s: Sheet, lo: nat, hi: nat, op: string, ns: seq<int>, v: int)
    requires lo <= hi && OpOf(CharAt(s.ops, lo)).Some? && op == [CharAt(s.ops, lo)]
    requires Numbers(part, s, lo, hi) == Some(ns)
    requires ns == [] ==> v == 0
    requires ns != [] ==> (op == "+" ==> v == Sum(ns)) && (op == "*" ==> v == Product(ns))
    ensures BlockValue(part, s, lo, hi, OpOf(CharAt(s.ops, lo))) == Some(v)
  {
  }

  /** The whole program on the text of the input file: an error where it
      prints nothing or raises; on a well formed sheet, the reference totals
      of both parts. */
  method Solve(text: string) returns (r: Result<(int, int)>)
    ensures NonEmpty(Lines(text)) == [] ==> r.Err?
    ensures var lines := NonEmpty(Lines(text));
            lines != [] && WellFormed(SheetOf(lines)) ==>
              var s := SheetOf(lines);
              && (r.Ok? <==> TotalFrom(Rows, s, 0).Some?)
              && (r.Ok? ==> Some(r.value.0) == TotalFrom(Rows, s, 0)
                            && Some(r.value.1) == TotalFrom(Columns, s, 0))
  {
    var all := Lines(text);
    if all == [] {
      return Err("no input");
    }
    var lines := NonEmpty(all);
    if lines == [] {
      return Err("max() arg is an empty sequence");
    }
    ghost var s := SheetOf(lines);
    var width := MaxLength(lines);
    var padded := seq(|lines|, i requires 0 <= i < |lines| => Pad(lines[i], width));
    PadSheet(lines, width, padded);
    var ok, total1, total2 := SheetTotals(padded, s, width);
    if !ok {
      return Err("invalid literal for int()");
    }
    return Ok((total1, total2));
  }

  /** The separators and the block loop over the padded lines. */
  method SheetTotals(padded: seq<string>, ghost s: Sheet, width: nat) returns (ok: bool, total1: int, total2: int)
    requires PaddedSheet(padded, s, width) && width == Width(s)
    ensures WellFormed(s) ==> (ok <==> TotalFrom(Rows, s, 0).Some?)
    ensures WellFormed(s) && ok ==> Some(total1) == TotalFrom(Rows, s, 0) && Some(total2) == TotalFrom(Columns, s, 0)
  {
    ghost var wf := WellFormed(s);
    ghost var z1, z2 := TotalFrom(Rows, s, 0), TotalFrom(Columns, s, 0);
    var seps := FindSeparators(padded, width);
    total1, total2 := 0, 0;
    TotalsStart(s, z1, z2);
    ghost var next: nat := 0;
    for i := 0 to |seps| - 1
      invariant next == seps[i] + 1
      invariant wf ==> Totals(s, next, total1, total2, z1, z2) == true
    {
      var lo, hi := seps[i] + 1, seps[i + 1];
      SeparatedBlock(seps, padded, s, width, i, lo, hi);
      var blockOk;
      blockOk, total1, total2 := AddBlock(padded, s, width, lo, hi, total1, total2, z1, z2);
      if !blockOk {
        return false, 0, 0;
      }
      next := hi + 1;
    }
    if wf {
      TotalsEnd(s, total1, total2, z1, z2);
    }
    return true, total1, total2;
  }

  /** One turn of the block loop: an empty block is skipped, and a block
      whose numbers do not read stops the program. */
  method AddBlock(padded: seq<string>, ghost s: Sheet, ghost width: nat, lo: nat, hi: nat, total1: int, total2: int,
                  ghost z1: Option<int>, ghost z2: Option<int>)
    returns (ok: bool, total1': int, total2': int)
    requires PaddedSheet(padded, s, width) && width == Width(s) && IsBlock(s, lo, hi)
    requires WellFormed(s) ==> Totals(s, lo, total1, total2, z1, z2)
    ensures WellFormed(s) && !ok ==> z1.None?
    ensures WellFormed(s) && ok ==> Totals(s, hi + 1, total1', total2', z1, z2) == true
  {
    ghost var wf := WellFormed(s);
    if lo >= hi {
      if wf {
        TotalsSkip(s, lo, hi + 1, total1, total2, z1, z2);
      }
      return true, total1, total2;
    }
    var blockOk, v1, v2 := Block(padded, s, width, lo, hi);
    if !blockOk {
      if wf {
        TotalFails(Rows, s, lo, hi, total1, z1);
      }
      return false, total1, total2;
    }
    total1', total2' := total1 + v1, total2 + v2;
    if wf {
      TotalsBlock(s, lo, hi, total1, total2, v1, v2, total1', total2', z1, z2);
    }
    ok := true;
  }

  /** The totals so far, `t1` and `t2`, and the reference totals from
      column `c` on make up `z1` and `z2`. */
  ghost predicate Totals(s: Sheet, c: nat, t1: int, t2: int, z1: Option<int>, z2: Option<int>) {
    && Plus(Some(t1), TotalFrom(Rows, s, c)) == z1
    && Plus(Some(t2), TotalFrom(Columns, s, c)) == z2
  }

  lemma TotalsStart(s: Sheet, z1: Option<int>, z2: Option<int>)
    requires z1 == TotalFrom(Rows, s, 0) && z2 == TotalFrom(Columns, s, 0)
    ensures Totals(s, 0, 0, 0, z1, z2)
  {
  }

  lemma TotalsSkip(s: Sheet, c: nat, next: nat, t1: int, t2: int, z1: Option<int>, z2: Option<int>)
    requires Totals(s, c, t1, t2, z1, z2) && (c == Width(s) || Blank(s, c)) && next == c + 1
    ensures Totals(s, next, t1, t2, z1, z2)
  {
    SkipEmpty(s, c);
    TotalFromAt(Rows, s, next, c + 1);
    TotalFromAt(Columns, s, next, c + 1);
  }

  /** Adding what a block adds keeps the totals: `u1`, `u2` are the totals
      with the block's answers added. */
  lemma TotalsBlock(s: Sheet, lo: nat, hi: nat, t1: int, t2: int, w1: int, w2: int, u1: int, u2: int,
                    z1: Option<int>, z2: Option<int>)
    requires IsBlock(s, lo, hi) && lo < hi && Totals(s, lo, t1, t2, z1, z2)
    requires BlockValue(Rows, s, lo, hi, OpOf(CharAt(s.ops, lo))) == Some(w1)
    requires BlockValue(Columns, s, lo, hi, OpOf(CharAt(s.ops, lo))) == Some(w2)
    requires u1 == t1 + w1 && u2 == t2 + w2
    ensures Totals(s, hi + 1, u1, u2, z1, z2)
  {
    TotalStep(Rows, s, lo, hi, t1, w1, u1, z1);
    TotalStep(Columns, s, lo, hi, t2, w2, u2, z2);
  }

  /** One block further along one part's total `z`, `w` being the block's
      answer. */
  lemma TotalStep(part: Part, s: Sheet, lo: nat, hi: nat, t: int, w: int, u: int, z: Option<int>)
    requires IsBlock(s, lo, hi) && lo < hi
    requires BlockValue(part, s, lo, hi, OpOf(CharAt(s.ops, lo))) == Some(w)
    requires Plus(Some(t), TotalFrom(part, s, lo)) == z
    requires u == t + w
    ensures Plus(Some(u), TotalFrom(part, s, hi + 1)) == z
  {
    TotalFromBlock(part, s, lo, hi);
    PlusSome(t, w, u, TotalFrom(part, s, lo), TotalFrom(part, s, hi + 1), z);
  }

  /** A block without an answer leaves the part's total `z` without a
      value. */
  lemma TotalFails(part: Part, s: Sheet, lo: nat, hi: nat, t: int, z: Option<int>)
    requires IsBlock(s, lo, hi) && lo < hi
    requires BlockValue(part, s, lo, hi, OpOf(CharAt(s.ops, lo))).None?
    requires Plus(Some(t), TotalFrom(part, s, lo)) == z
    ensures z.None?
  {
    TotalFromBlock(part, s, lo, hi);
    PlusNone(t, TotalFrom(part, s, lo), TotalFrom(part, s, hi + 1), z);
  }

  lemma TotalFromAt(part: Part, s: Sheet, c: nat, d: nat)
    ensures c == d ==> TotalFrom(part, s, c) == TotalFrom(part, s, d)
  {
  }

  lemma PlusSome(t: int, w: int, u: int, a: Option<int>, b: Option<int>, z: Option<int>)
    ensures Plus(Some(t), a) == z && a == Plus(Some(w), b) && u == t + w ==> Plus(Some(u), b) == z
  {
  }

  lemma PlusNone(t: int, a: Option<int>, b: Option<int>, z: Option<int>)
    requires Plus(Some(t), a) == z && a == Plus(None, b)
    ensures z == None
  {
  }

  lemma TotalsEnd(s: Sheet, t1: int, t2: int, z1: Option<int>, z2: Option<int>)
    requires Totals(s, Width(s) + 1, t1, t2, z1, z2)
    ensures Some(t1) == z1 && Some(t2) == z2
  {
    TotalFromPast(Rows, s, Width(s) + 1);
    TotalFromPast(Columns, s, Width(s) + 1);
  }

  /** Padding every line to the longest gives the padded sheet. */
  lemma PadSheet(lines: seq<string>, width: nat, padded: seq<string>)
    requires lines != [] && width == MaxLength(lines)
    requires |padded| == |lines| && forall i :: 0 <= i < |lines| ==> padded[i] == Pad(lines[i], width)
    ensures PaddedSheet(padded, SheetOf(lines), width) && width == Width(SheetOf(lines))
  {
    var s := SheetOf(lines);
    var n := |s.rows|;
    assert s.rows == lines[..n] && s.ops == lines[n];
    forall r | 0 <= r < |padded|
      ensures |padded[r]| == width
    {
      assert |lines[r]| <= width;
    }
    forall r, c | 0 <= r < n && 0 <= c < width
      ensures padded[r][c] == CharAt(s.rows[r], c)
    {
      assert s.rows[r] == lines[r];
    }
    forall c | 0 <= c < width
      ensures padded[n][c] == CharAt(s.ops, c)
    {
    }
    WidthOf(lines);
  }

  /** An empty block, between two neighbouring separators, adds nothing. */
  lemma SkipEmpty(s: Sheet, c: nat)
    requires c == Width(s) || Blank(s, c)
    ensures forall part :: TotalFrom(part, s, c) == TotalFrom(part, s, c + 1)
  {
    forall part
      ensures TotalFrom(part, s, c) == TotalFrom(part, s, c + 1)
    {
      if c >= Width(s) {
        TotalFromPast(part, s, c);
        TotalFromPast(part, s, c + 1);
      } else {
        TotalFromBlank(part, s, c);
      }
    }
  }
}
