/** Day 6: a worksheet of arithmetic problems. The last line holds the
    operators and the lines above it hold digits; problems are separated by
    columns that are blank on every line, and each problem's operator sits
    on the last line in the problem's leftmost column. Part 1 reads a
    problem's numbers along its rows; part 2 reads one number per column,
    the rightmost column first, with the column's digits taken top to bottom.
    Each answer is the sum over the problems of their numbers added, or
    multiplied, together. This module is the reference both Day 6 solutions
    are proved against. */
module Worksheet {
  import opened Wrappers
  import opened Text

  // ------------------------------------------------------------ operators

  datatype Op = Add | Mul

  /** The operator a character on the last line names, if any. */
  function OpOf(c: char): (op: Option<Op>)
    ensures op == Some(Add) <==> c == '+'
    ensures op == Some(Mul) <==> c == '*'
    ensures op.None? <==> c != '+' && c != '*'
  {
    if c == '+' then Some(Add) else if c == '*' then Some(Mul) else None
  }

  function Sum(xs: seq<int>): int {
    if xs == [] then 0 else xs[0] + Sum(xs[1..])
  }

  function Product(xs: seq<int>): int {
    if xs == [] then 1 else xs[0] * Product(xs[1..])
  }

  /** A problem's answer: its numbers added or multiplied together. */
  function Eval(op: Op, xs: seq<int>): int {
    match op
    case Add => Sum(xs)
    case Mul => Product(xs)
  }

  function Apply(op: Op, a: int, b: int): int {
    match op
    case Add => a + b
    case Mul => a * b
  }

  /** Starting from the first number, combining each later one in turn. */
  function Fold(op: Op, xs: seq<int>): int
    requires |xs| > 0
  {
    if |xs| == 1 then xs[0] else Apply(op, Fold(op, xs[..|xs| - 1]), xs[|xs| - 1])
  }

  lemma {:induction false} SumSnoc(xs: seq<int>, x: int)
    ensures Sum(xs + [x]) == Sum(xs) + x
  {
    if xs == [] {
      assert [] + [x] == [x];
    } else {
      assert (xs + [x])[1..] == xs[1..] + [x];
      SumSnoc(xs[1..], x);
    }
  }

  lemma {:induction false} ProductSnoc(xs: seq<int>, x: int)
    ensures Product(xs + [x]) == Product(xs) * x
  {
    if xs == [] {
      assert [] + [x] == [x];
    } else {
      assert (xs + [x])[1..] == xs[1..] + [x];
      ProductSnoc(xs[1..], x);
      assert xs[0] * (Product(xs[1..]) * x) == (xs[0] * Product(xs[1..])) * x;
    }
  }

  /** Folding left to right gives the sum or the product. */
  lemma {:induction false} FoldEval(op: Op, xs: seq<int>)
    requires |xs| > 0
    ensures Fold(op, xs) == Eval(op, xs)
  {
    if |xs| == 1 {
      assert xs[1..] == [];
      assert Sum(xs) == xs[0] + Sum([]);
      assert Product(xs) == xs[0] * Product([]);
    } else {
      var init, last := xs[..|xs| - 1], xs[|xs| - 1];
      FoldEval(op, init);
      assert xs == init + [last];
      SumSnoc(init, last);
      ProductSnoc(init, last);
    }
  }

  // ------------------------------------------------------------ the sheet

  /** The digit lines and the operator line. */
  datatype Sheet = Sheet(rows: seq<string>, ops: string)

  /** The last line is the operator line. */
  function SheetOf(lines: seq<string>): (s: Sheet)
    requires lines != []
    ensures s.rows + [s.ops] == lines
  {
    Sheet(lines[..|lines| - 1], lines[|lines| - 1])
  }

  /** The character a line holds at column `c` once padded with spaces. */
  function CharAt(line: string, c: nat): char {
    if c < |line| then line[c] else ' '
  }

  /** The length of the longest line. */
  function MaxLength(lines: seq<string>): (m: nat)
    ensures forall i :: 0 <= i < |lines| ==> |lines[i]| <= m
    ensures lines == [] ==> m == 0
  {
    if lines == [] then 0
    else
      var m := MaxLength(lines[..|lines| - 1]);
      var n := |lines[|lines| - 1]|;
      assert forall i :: 0 <= i < |lines| - 1 ==> lines[..|lines| - 1][i] == lines[i];
      if n > m then n else m
  }

  /** Some line is as long as the maximum. */
  lemma {:induction false} MaxLengthAttained(lines: seq<string>)
    requires lines != []
    ensures exists i :: 0 <= i < |lines| && |lines[i]| == MaxLength(lines)
  {
    var init, last := lines[..|lines| - 1], lines[|lines| - 1];
    if init == [] || |last| > MaxLength(init) {
      assert |lines[|lines| - 1]| == MaxLength(lines);
    } else {
      MaxLengthAttained(init);
      var i :| 0 <= i < |init| && |init[i]| == MaxLength(init);
      assert lines[i] == init[i];
      assert |lines[i]| == MaxLength(lines);
    }
  }

  /** The number of columns: the longest line's length. */
  function Width(s: Sheet): (w: nat)
    ensures |s.ops| <= w && forall i :: 0 <= i < |s.rows| ==> |s.rows[i]| <= w
  {
    var m := MaxLength(s.rows);
    if |s.ops| > m then |s.ops| else m
  }

  /** The width of the sheet read from some lines is their longest length. */
  lemma WidthOf(lines: seq<string>)
    requires lines != []
    ensures Width(SheetOf(lines)) == MaxLength(lines)
  {
  }

  /** The characters of column `c` on the given lines, top to bottom, with
      the spaces left out. */
  function ColumnDigits(rows: seq<string>, c: nat): (ds: string)
    ensures |ds| <= |rows|
    ensures forall j :: 0 <= j < |ds| ==> ds[j] != ' '
  {
    if rows == [] then []
    else
      var init := rows[..|rows| - 1];
      var ds := ColumnDigits(init, c);
      var ch := CharAt(rows[|rows| - 1], c);
      assert forall i :: 0 <= i < |init| ==> init[i] == rows[i];
      if ch == ' ' then ds else ds + [ch]
  }

  /** A column has no digits when it is a space on every line. */
  lemma {:induction false} NoColumnDigits(rows: seq<string>, c: nat)
    ensures ColumnDigits(rows, c) == [] <==> forall i :: 0 <= i < |rows| ==> CharAt(rows[i], c) == ' '
  {
    if rows != [] {
      var init := rows[..|rows| - 1];
      NoColumnDigits(init, c);
      assert forall i :: 0 <= i < |init| ==> init[i] == rows[i];
    }
  }

  /** A column that is a space on every line. */
  predicate Blank(s: Sheet, c: nat) {
    ColumnDigits(s.rows, c) == [] && CharAt(s.ops, c) == ' '
  }

  /** Every column at or past the width is blank. */
  lemma PastWidth(s: Sheet, c: nat)
    requires c >= Width(s)
    ensures Blank(s, c)
  {
    NoColumnDigits(s.rows, c);
  }

  /** The first column at or after `c` that is blank, or the width. */
  function BlockEnd(s: Sheet, c: nat): (e: nat)
    requires c <= Width(s)
    ensures c <= e <= Width(s) && (e == Width(s) || Blank(s, e))
    ensures forall j :: c <= j < e ==> !Blank(s, j)
    decreases Width(s) - c
  {
    if c == Width(s) || Blank(s, c) then c else BlockEnd(s, c + 1)
  }

  /** Column `c` can start a problem: it is the first column or follows a
      blank one. */
  predicate StartsBlock(s: Sheet, c: nat) {
    c == 0 || Blank(s, c - 1)
  }

  /** The block starting at a column that is not blank ends at the first
      blank column after it. */
  lemma {:induction false} BlockEndAt(s: Sheet, lo: nat, hi: nat)
    requires lo <= hi <= Width(s) && (hi == Width(s) || Blank(s, hi))
    requires forall j :: lo <= j < hi ==> !Blank(s, j)
    ensures BlockEnd(s, lo) == hi
    decreases hi - lo
  {
    if lo < hi {
      BlockEndAt(s, lo + 1, hi);
    }
  }

  // ---------------------------------------------------------- the numbers

  function Append(a: Option<seq<int>>, b: Option<seq<int>>): (r: Option<seq<int>>)
    ensures r.Some? <==> a.Some? && b.Some?
  {
    if a.Some? && b.Some? then Some(a.value + b.value) else None
  }

  /** The number column `c` spells top to bottom: none when it holds no
      digit, a failure when its characters are not a number. */
  function NumberAt(rows: seq<string>, c: nat): (r: Option<seq<int>>)
    ensures ColumnDigits(rows, c) == [] ==> r == Some([])
    ensures AllDigits(ColumnDigits(rows, c)) ==> r.Some?
    ensures r.Some? ==> |r.value| <= 1
  {
    var ds := ColumnDigits(rows, c);
    if ds == [] then Some([])
    else
      match ParseInt(ds)
      case Some(n) => Some([n])
      case None => None
  }

  /** Part 2's numbers of the columns `lo` to `hi - 1`, the rightmost first. */
  function ColumnNumbers(rows: seq<string>, lo: nat, hi: nat): (r: Option<seq<int>>)
    requires lo <= hi
    ensures r.Some? ==> |r.value| <= hi - lo
    decreases hi - lo
  {
    if lo == hi then Some([]) else Append(ColumnNumbers(rows, lo + 1, hi), NumberAt(rows, lo))
  }

  /** Columns `lo` to `hi - 1` of a line, padded with spaces. */
  function Slice(line: string, lo: nat, hi: nat): (t: string)
    requires lo <= hi
    ensures |t| == hi - lo && forall k :: 0 <= k < hi - lo ==> t[k] == CharAt(line, lo + k)
  {
    seq(hi - lo, k requires 0 <= k < hi - lo => CharAt(line, lo + k))
  }

  /** Part 1's numbers of the columns `lo` to `hi - 1`: each line's part,
      stripped of surrounding spaces, is a number or is empty. */
  function RowNumbers(rows: seq<string>, lo: nat, hi: nat): (r: Option<seq<int>>)
    requires lo <= hi
    ensures r.Some? ==> |r.value| <= |rows|
  {
    if rows == [] then Some([])
    else
      var init := RowNumbers(rows[..|rows| - 1], lo, hi);
      var t := Trim(Slice(rows[|rows| - 1], lo, hi));
      if t == [] then init
      else
        match ParseInt(t)
        case Some(n) => Append(init, Some([n]))
        case None => None
  }

  /** A line whose part is not a number spoils every longer prefix. */
  lemma {:induction false} RowNumbersNone(rows: seq<string>, k: nat, lo: nat, hi: nat)
    requires k <= |rows| && lo <= hi && RowNumbers(rows[..k], lo, hi) == None
    ensures RowNumbers(rows, lo, hi) == None
  {
    if k < |rows| {
      var init := rows[..|rows| - 1];
      assert init[..k] == rows[..k];
      RowNumbersNone(init, k, lo, hi);
    } else {
      assert rows[..k] == rows;
    }
  }

  /** Which way the numbers of a problem are read. */
  datatype Part = Rows | Columns

  function Numbers(part: Part, s: Sheet, lo: nat, hi: nat): Option<seq<int>>
    requires lo <= hi
  {
    match part
    case Rows => RowNumbers(s.rows, lo, hi)
    case Columns => ColumnNumbers(s.rows, lo, hi)
  }

  /** The answer to the problem in columns `lo` to `hi - 1`: a problem
      without an operator or without numbers counts nothing. */
  function BlockValue(part: Part, s: Sheet, lo: nat, hi: nat, op: Option<Op>): (v: Option<int>)
    requires lo <= hi
    ensures op.None? ==> v == Some(0)
    ensures op.Some? ==> (v.Some? <==> Numbers(part, s, lo, hi).Some?)
  {
    match op
    case None => Some(0)
    case Some(o) =>
      match Numbers(part, s, lo, hi)
      case None => None
      case Some(ns) => Some(if ns == [] then 0 else Eval(o, ns))
  }

  function Plus(a: Option<int>, b: Option<int>): (r: Option<int>)
    ensures r.Some? <==> a.Some? && b.Some?
  {
    if a.Some? && b.Some? then Some(a.value + b.value) else None
  }

  // --------------------------------------------------------- well formed

  /** Column `c` of the digit lines holds only digits and spaces. */
  predicate DigitColumn(s: Sheet, c: nat) {
    AllDigits(ColumnDigits(s.rows, c))
  }

  /** The digit lines hold only digits and spaces. */
  predicate DigitsOnly(s: Sheet) {
    forall c :: 0 <= c < Width(s) ==> DigitColumn(s, c)
  }

  /** Every problem has '+' or '*' in its leftmost column of the operator
      line, and the rest of the operator line is spaces. */
  predicate OperatorsPlaced(s: Sheet) {
    && (forall c {:trigger StartsBlock(s, c)} :: 0 <= c < Width(s) && !Blank(s, c) && StartsBlock(s, c) ==> OpOf(CharAt(s.ops, c)).Some?)
    && (forall c {:trigger StartsBlock(s, c)} :: 0 <= c < Width(s) && !StartsBlock(s, c) ==> CharAt(s.ops, c) == ' ')
  }

  /** The layout the puzzle promises. */
  predicate WellFormed(s: Sheet) {
    DigitsOnly(s) && OperatorsPlaced(s)
  }

  /** The sum of the answers of the problems from column `c` on, or a
      failure when one of them has a number that does not parse. */
  function TotalFrom(part: Part, s: Sheet, c: nat): Option<int>
    decreases Width(s) - c, 1
  {
    if c >= Width(s) then Some(0)
    else if Blank(s, c) then TotalFrom(part, s, c + 1)
    else BlockThen(part, s, c)
  }

  /** The answer of the problem starting at column `c`, added to the total
      after it. */
  function BlockThen(part: Part, s: Sheet, c: nat): Option<int>
    requires c < Width(s)
    decreases Width(s) - c, 0
  {
    Plus(BlockValue(part, s, c, BlockEnd(s, c), OpOf(CharAt(s.ops, c))), TotalFrom(part, s, BlockEnd(s, c) + 1))
  }

  /** A block of columns `lo` to `hi - 1` followed by a blank column adds
      its answer to what follows. */
  lemma TotalFromBlock(part: Part, s: Sheet, lo: nat, hi: nat)
    requires lo < hi <= Width(s) && (hi == Width(s) || Blank(s, hi))
    requires forall j :: lo <= j < hi ==> !Blank(s, j)
    ensures TotalFrom(part, s, lo)
            == Plus(BlockValue(part, s, lo, hi, OpOf(CharAt(s.ops, lo))), TotalFrom(part, s, hi + 1))
  {
    assert BlockEnd(s, lo) == hi by {
      BlockEndAt(s, lo, hi);
    }
    TotalFromUnfold(part, s, lo);
  }

  /** Past the last column there is nothing to add. */
  lemma TotalFromPast(part: Part, s: Sheet, c: nat)
    requires c >= Width(s)
    ensures TotalFrom(part, s, c) == Some(0)
  {
  }

  /** A blank column adds nothing. */
  lemma TotalFromBlank(part: Part, s: Sheet, c: nat)
    requires Blank(s, c)
    ensures TotalFrom(part, s, c) == (if c >= Width(s) then Some(0) else TotalFrom(part, s, c + 1))
  {
  }

  /** One step of `TotalFrom` at a column that is not blank. */
  lemma TotalFromUnfold(part: Part, s: Sheet, c: nat)
    requires c < Width(s) && !Blank(s, c)
    ensures TotalFrom(part, s, c)
            == Plus(BlockValue(part, s, c, BlockEnd(s, c), OpOf(CharAt(s.ops, c))), TotalFrom(part, s, BlockEnd(s, c) + 1))
  {
  }

  /** On a well formed sheet a block has its operator in its first column
      and spaces after it. */
  lemma BlockOperator(s: Sheet, lo: nat, hi: nat)
    requires OperatorsPlaced(s) && StartsBlock(s, lo) && lo < hi <= Width(s)
    requires forall j :: lo <= j < hi ==> !Blank(s, j)
    ensures OpOf(CharAt(s.ops, lo)).Some?
    ensures forall j :: lo < j < hi ==> CharAt(s.ops, j) == ' '
  {
    forall j | lo < j < hi
      ensures CharAt(s.ops, j) == ' '
    {
      assert !Blank(s, j - 1) && !StartsBlock(s, j);
    }
  }

  /** On a well formed sheet every column is a number or nothing. */
  lemma {:induction false} ColumnNumbersParse(s: Sheet, lo: nat, hi: nat)
    requires DigitsOnly(s) && lo <= hi <= Width(s)
    ensures ColumnNumbers(s.rows, lo, hi).Some?
    decreases hi - lo
  {
    if lo < hi {
      assert DigitColumn(s, lo);
      ColumnNumbersParse(s, lo + 1, hi);
    }
  }

  /** On a well formed sheet part 2 always has an answer. */
  lemma {:induction false} ColumnsParse(s: Sheet, c: nat)
    requires DigitsOnly(s)
    ensures TotalFrom(Columns, s, c).Some?
    decreases Width(s) - c
  {
    if c < Width(s) {
      if Blank(s, c) {
        TotalFromBlank(Columns, s, c);
        ColumnsParse(s, c + 1);
      } else {
        TotalFromUnfold(Columns, s, c);
        ColumnNumbersParse(s, c, BlockEnd(s, c));
        ColumnsParse(s, BlockEnd(s, c) + 1);
      }
    }
  }
}
