/** Text helpers shared by the harness and the puzzle programs: decimal
    formatting and parsing, splitting on a separator, line splitting and
    whitespace trimming, each as the host languages define them for ASCII
    text. */
module Text {
  import opened Wrappers

  // ---------------------------------------------------------------- digits

  predicate IsDigit(c: char) { '0' <= c <= '9' }

  predicate AllDigits(s: string) { forall i :: 0 <= i < |s| ==> IsDigit(s[i]) }

  function DigitValue(c: char): (d: nat)
    requires IsDigit(c)
    ensures d < 10
  {
    c as int - '0' as int
  }

  function DigitChar(d: nat): (c: char)
    requires d < 10
    ensures IsDigit(c) && DigitValue(c) == d
  {
    (d + '0' as int) as char
  }

  /** The number a string of decimal digits denotes (the empty string reads as 0). */
  function DigitsValue(s: string): nat
    requires AllDigits(s)
  {
    if s == [] then 0 else DigitsValue(s[..|s| - 1]) * 10 + DigitValue(s[|s| - 1])
  }

  /** Decimal text of a natural number, without leading zeros: JavaScript's
      `${n}`, Rust's and Python's `to_string`/`str` for non-negative integers. */
  function NatToString(n: nat): (s: string)
    ensures |s| > 0 && AllDigits(s)
    ensures s[0] == '0' ==> n == 0
    decreases n
  {
    if n < 10 then [DigitChar(n)] else NatToString(n / 10) + [DigitChar(n % 10)]
  }

  lemma {:induction false} NatToStringValue(n: nat)
    ensures DigitsValue(NatToString(n)) == n
    decreases n
  {
    if n >= 10 {
      var s := NatToString(n);
      assert s[..|s| - 1] == NatToString(n / 10);
      NatToStringValue(n / 10);
    }
  }

  /** Decimal text of an integer, with a leading '-' when negative. */
  function IntToString(i: int): (s: string)
    ensures |s| > 0
    ensures i >= 0 <==> s[0] != '-'
  {
    if i < 0 then "-" + NatToString(-i) else NatToString(i)
  }

  /** A non-empty run of decimal digits, read as a number; anything else fails. */
  function ParseNat(s: string): (r: Option<nat>)
    ensures r.Some? <==> |s| > 0 && AllDigits(s)
  {
    if |s| > 0 && AllDigits(s) then Some(DigitsValue(s)) else None
  }

  /** Integer text: a non-empty run of decimal digits, optionally after one
      leading '+' or '-'. */
  predicate IsIntText(s: string) {
    (|s| > 0 && AllDigits(s)) || (|s| > 1 && (s[0] == '-' || s[0] == '+') && AllDigits(s[1..]))
  }

  /** Integer text with an optional leading '+' or '-', as Rust's `parse::<i64>`
      and Python's `int` accept it (for ASCII digits, without width limits);
      any other text fails. */
  function ParseInt(s: string): (r: Option<int>)
    ensures r.Some? <==> IsIntText(s)
    ensures |s| > 0 && AllDigits(s) ==> r == Some(DigitsValue(s))
    ensures |s| > 1 && s[0] == '-' && AllDigits(s[1..]) ==> r == Some(-(DigitsValue(s[1..]) as int))
    ensures |s| > 1 && s[0] == '+' && AllDigits(s[1..]) ==> r == Some(DigitsValue(s[1..]) as int)
  {
    if |s| > 0 && (s[0] == '-' || s[0] == '+') then
      match ParseNat(s[1..])
      case Some(n) => var v: int := if s[0] == '-' then -(n as int) else n; Some(v)
      case None => None
    else
      match ParseNat(s)
      case Some(n) => Some(n)
      case None => None
  }

  /** Python's `int(text)`: whitespace around the integer text is allowed;
      text that is not integer text once trimmed raises. */
  function PyInt(s: string): (r: Option<int>)
    ensures r.Some? <==> IsIntText(Trim(s))
    ensures IsIntText(s) ==> r == ParseInt(s)
    ensures |s| > 0 && AllDigits(s) ==> r == Some(DigitsValue(s))
  {
    if IsIntText(s) then
      assert !IsSpace(s[0]) && !IsSpace(s[|s| - 1]);
      TrimLeftKeeps(s);
      TrimRightKeeps(s);
      ParseInt(Trim(s))
    else ParseInt(Trim(s))
  }

  lemma ParseNatToString(n: nat)
    ensures ParseNat(NatToString(n)) == Some(n)
  {
    NatToStringValue(n);
  }

  lemma ParseIntToString(i: int)
    ensures ParseInt(IntToString(i)) == Some(i)
  {
    if i < 0 {
      var t := NatToString(-i);
      assert ("-" + t)[1..] == t;
      ParseNatToString(-i);
    } else {
      ParseNatToString(i);
    }
  }

  // ---------------------------------------------------------- separators

  /** Rust's `str::split(char)` and Python's `str.split(sep)`: every
      occurrence of the separator ends a part, empty parts included. */
  function Split(s: string, sep: char): (parts: seq<string>)
    ensures |parts| > 0
    ensures forall i :: 0 <= i < |parts| ==> sep !in parts[i]
  {
    if s == [] then [""]
    else
      var rest := Split(s[1..], sep);
      if s[0] == sep then [""] + rest
      else [[s[0]] + rest[0]] + rest[1..]
  }

  /** A string without the separator is one part. */
  lemma {:induction false} SplitNone(s: string, sep: char)
    requires sep !in s
    ensures Split(s, sep) == [s]
  {
    if s != [] {
      assert s[0] in s;
      SplitNone(s[1..], sep);
      assert [s[0]] + s[1..] == s;
    }
  }

  /** Two separator-free strings joined by the separator split back apart. */
  lemma SplitTwo(s: string, t: string, sep: char)
    requires sep !in s && sep !in t
    ensures Split(s + [sep] + t, sep) == [s, t]
  {
    SplitAfter(s, t, sep);
    SplitNone(t, sep);
  }

  /** The inverse of splitting: the parts glued back with the separator. */
  function JoinOn(parts: seq<string>, sep: string): string
    requires |parts| > 0
  {
    if |parts| == 1 then parts[0] else parts[0] + sep + JoinOn(parts[1..], sep)
  }

  /** Gluing a prefix onto the first part prefixes the joined text. */
  lemma JoinOnCons(x: string, parts: seq<string>, sep: string)
    requires |parts| > 0
    ensures JoinOn([x + parts[0]] + parts[1..], sep) == x + JoinOn(parts, sep)
  {
    var q := [x + parts[0]] + parts[1..];
    if |parts| > 1 {
      assert q[1..] == parts[1..];
    }
  }

  /** One more part at the end follows the separator. */
  lemma {:induction false} JoinOnSnoc(parts: seq<string>, x: string, sep: string)
    requires |parts| > 0
    ensures JoinOn(parts + [x], sep) == JoinOn(parts, sep) + sep + x
  {
    if |parts| > 1 {
      assert (parts + [x])[1..] == parts[1..] + [x];
      JoinOnSnoc(parts[1..], x, sep);
    } else {
      assert (parts + [x])[1..] == [x];
    }
  }

  lemma {:induction false} JoinSplit(s: string, sep: char)
    ensures JoinOn(Split(s, sep), [sep]) == s
  {
    if s != [] {
      JoinSplit(s[1..], sep);
      var rest := Split(s[1..], sep);
      if s[0] == sep {
        assert ([""] + rest)[1..] == rest;
      } else {
        JoinOnCons([s[0]], rest, [sep]);
      }
    }
  }

  /** A separator-free first part splits off on its own. */
  lemma {:induction false} SplitAfter(s: string, t: string, sep: char)
    requires sep !in s
    ensures Split(s + [sep] + t, sep) == [s] + Split(t, sep)
  {
    if s == [] {
      assert s + [sep] + t == [sep] + t;
      assert ([sep] + t)[1..] == t;
    } else {
      SplitAfter(s[1..], t, sep);
      assert (s + [sep] + t)[1..] == s[1..] + [sep] + t;
      assert [s[0]] + s[1..] == s;
    }
  }

  /** The inverse direction: separator-free parts glued together split back apart. */
  lemma {:induction false} SplitJoin(parts: seq<string>, sep: char)
    requires |parts| > 0
    requires forall i :: 0 <= i < |parts| ==> sep !in parts[i]
    ensures Split(JoinOn(parts, [sep]), sep) == parts
  {
    if |parts| == 1 {
      SplitNone(parts[0], sep);
    } else {
      SplitJoin(parts[1..], sep);
      SplitAfter(parts[0], JoinOn(parts[1..], [sep]), sep);
      assert parts[0] + [sep] + JoinOn(parts[1..], [sep]) == JoinOn(parts, [sep]);
      assert [parts[0]] + parts[1..] == parts;
    }
  }

  predicate HasAt(s: string, i: nat, pat: string) {
    i + |pat| <= |s| && s[i..i + |pat|] == pat
  }

  /** Splitting on a separator string, matched left to right without overlap
      (Python's `str.split("\n\n")`, Rust's `str::split("\n\n")`): the parts
      glued back with the separator are the text. */
  function SplitOn(s: string, sep: string): (parts: seq<string>)
    requires |sep| > 0
    ensures |parts| > 0
    ensures JoinOn(parts, sep) == s
    decreases |s|
  {
    if s == [] then [""]
    else if HasAt(s, 0, sep) then
      var rest := SplitOn(s[|sep|..], sep);
      assert ([""] + rest)[1..] == rest;
      assert s == sep + s[|sep|..];
      [""] + rest
    else
      var rest := SplitOn(s[1..], sep);
      JoinOnCons([s[0]], rest, sep);
      assert s == [s[0]] + s[1..];
      [[s[0]] + rest[0]] + rest[1..]
  }

  /** Rust's `str::lines` and Python's `str.splitlines` on text whose only line
      terminator is '\n': a final terminator does not start an empty line, so
      the lines glued back with '\n' are the text less that final terminator. */
  function Lines(s: string): (ls: seq<string>)
    ensures forall i :: 0 <= i < |ls| ==> '\n' !in ls[i]
    ensures s == [] ==> ls == []
    ensures s != [] ==> |ls| > 0 && JoinOn(ls, "\n") + (if s[|s| - 1] == '\n' then "\n" else "") == s
  {
    if s == [] then []
    else
      var parts := Split(s, '\n');
      JoinSplit(s, '\n');
      var n := |parts| - 1;
      if parts[n] == "" then
        assert n > 0;
        assert parts == parts[..n] + [parts[n]];
        JoinOnSnoc(parts[..n], "", "\n");
        parts[..n]
      else
        LastOfJoin(parts, "\n");
        assert s[|s| - 1] in parts[n];
        parts
  }

  /** The joined text ends as its last part does, when that part is not empty. */
  lemma LastOfJoin(parts: seq<string>, sep: string)
    requires |parts| > 0 && parts[|parts| - 1] != ""
    ensures var s := JoinOn(parts, sep); var x := parts[|parts| - 1];
      |s| > 0 && s[|s| - 1] == x[|x| - 1]
  {
    var n := |parts| - 1;
    if n > 0 {
      assert parts == parts[..n] + [parts[n]];
      JoinOnSnoc(parts[..n], parts[n], sep);
    }
  }

  // ---------------------------------------------------------- whitespace

  /** ASCII whitespace, which is what Rust's `trim`/`split_whitespace` and
      Python's `strip` remove from the puzzle inputs. */
  predicate IsSpace(c: char) {
    c == ' ' || c == '\t' || c == '\n' || c == '\r' || c == '\U{000B}' || c == '\U{000C}'
  }

  function TrimLeft(s: string): (r: string)
    ensures |r| <= |s| && r == s[|s| - |r|..]
    ensures r == [] || !IsSpace(r[0])
    ensures forall i :: 0 <= i < |s| - |r| ==> IsSpace(s[i])
  {
    if s != [] && IsSpace(s[0]) then TrimLeft(s[1..]) else s
  }

  function TrimRight(s: string): (r: string)
    ensures |r| <= |s| && r == s[..|r|]
    ensures r == [] || !IsSpace(r[|r| - 1])
    ensures forall i :: |r| <= i < |s| ==> IsSpace(s[i])
  {
    if s != [] && IsSpace(s[|s| - 1]) then TrimRight(s[..|s| - 1]) else s
  }

  /** Rust's `trim`, Python's `strip()`. */
  function Trim(s: string): string {
    TrimRight(TrimLeft(s))
  }

  /** Text without whitespace. */
  predicate NoSpace(s: string) {
    forall i :: 0 <= i < |s| ==> !IsSpace(s[i])
  }

  /** Text without whitespace trims to itself. */
  lemma NoSpaceTrim(s: string)
    requires NoSpace(s)
    ensures Trim(s) == s
  {
    TrimLeftKeeps(s);
    TrimRightKeeps(s);
  }

  /** Parts and separator without whitespace join to text without whitespace. */
  lemma {:induction false} JoinNoSpace(parts: seq<string>, sep: string)
    requires |parts| > 0 && NoSpace(sep)
    requires forall i :: 0 <= i < |parts| ==> NoSpace(parts[i])
    ensures NoSpace(JoinOn(parts, sep))
  {
    if |parts| > 1 {
      JoinNoSpace(parts[1..], sep);
      var rest := JoinOn(parts[1..], sep);
      var s := parts[0] + sep + rest;
      forall i | 0 <= i < |s| ensures !IsSpace(s[i]) {
        if i < |parts[0]| {
          assert s[i] == parts[0][i];
        } else if i < |parts[0]| + |sep| {
          assert s[i] == sep[i - |parts[0]|];
        } else {
          assert s[i] == rest[i - |parts[0]| - |sep|];
        }
      }
    }
  }

  /** A number's decimal text has no whitespace. */
  lemma DigitsNoSpace(s: string)
    requires AllDigits(s)
    ensures NoSpace(s)
  {
    forall i | 0 <= i < |s| ensures !IsSpace(s[i]) {
      assert IsDigit(s[i]);
    }
  }

  /** A run of digits holds no other character. */
  lemma NoneOutside(s: string, c: char)
    requires AllDigits(s) && !IsDigit(c)
    ensures c !in s
  {
    forall i | 0 <= i < |s|
      ensures s[i] != c
    {
    }
  }

  /** Digits are not whitespace, so a run of digits trims to itself. */
  lemma TrimDigits(s: string)
    requires AllDigits(s)
    ensures Trim(s) == s
  {
    if s != [] {
      assert !IsSpace(s[0]) && !IsSpace(s[|s| - 1]) by {
        assert IsDigit(s[0]) && IsDigit(s[|s| - 1]);
      }
      TrimLeftKeeps(s);
      TrimRightKeeps(s);
    }
  }

  /** A non-space character followed only by spaces trims to itself alone. */
  lemma TrimOne(s: string)
    requires |s| > 0 && !IsSpace(s[0])
    requires forall k :: 0 < k < |s| ==> s[k] == ' '
    ensures Trim(s) == [s[0]]
  {
    TrimLeftKeeps(s);
    var r := TrimRight(s);
    assert r != [] by {
      assert !IsSpace(s[0]);
    }
    assert |r| == 1 by {
      assert !IsSpace(s[|r| - 1]);
    }
    assert r == s[..1];
  }

  /** Nothing to trim on the left of a string that starts with a non-space. */
  lemma TrimLeftKeeps(s: string)
    requires s == [] || !IsSpace(s[0])
    ensures TrimLeft(s) == s
  {
  }

  /** Nothing to trim on the right of a string that ends with a non-space. */
  lemma TrimRightKeeps(s: string)
    requires s == [] || !IsSpace(s[|s| - 1])
    ensures TrimRight(s) == s
  {
  }

  /** Trimming twice trims nothing more. */
  lemma TrimTwice(s: string)
    ensures Trim(Trim(s)) == Trim(s)
  {
    var u := TrimLeft(s);
    var t := TrimRight(u);
    if t != [] {
      assert t[0] == u[0];
      assert TrimLeft(t) == t;
    }
  }

  /** Rust's `split_whitespace`: the maximal runs of non-whitespace, in order. */
  function Words(s: string): (ws: seq<string>)
    ensures forall i :: 0 <= i < |ws| ==> IsWord(ws[i])
    ensures Tiles(s, ws)
    decreases |s|
  {
    if s == [] then []
    else if IsSpace(s[0]) then
      var ws := Words(s[1..]);
      TilesSpace(s, ws);
      ws
    else
      var w := Word(s);
      var rest := Words(s[|w|..]);
      assert ([w] + rest)[1..] == rest;
      [w] + rest
  }

  /** The number of whitespace characters `s` starts with. */
  function LeadingSpaces(s: string): (n: nat)
    ensures n <= |s|
    ensures forall j :: 0 <= j < n ==> IsSpace(s[j])
    ensures n < |s| ==> !IsSpace(s[n])
  {
    if s != [] && IsSpace(s[0]) then 1 + LeadingSpaces(s[1..]) else 0
  }

  /** `ws` are the words of `s` in order: after the leading whitespace comes
      the first word, followed by whitespace or the end of the text, and the
      rest of the text holds the other words; when there are no words, the
      text is whitespace only. */
  ghost predicate Tiles(s: string, ws: seq<string>)
    decreases |ws|
  {
    var i := LeadingSpaces(s);
    if ws == [] then i == |s|
    else
      var n := |ws[0]|;
      && IsWord(ws[0])
      && i + n <= |s| && s[i..i + n] == ws[0]
      && (i + n == |s| || IsSpace(s[i + n]))
      && Tiles(s[i + n..], ws[1..])
  }

  /** Leading whitespace does not change the words. */
  lemma TilesSpace(s: string, ws: seq<string>)
    requires s != [] && IsSpace(s[0]) && Tiles(s[1..], ws)
    ensures Tiles(s, ws)
  {
    var i := LeadingSpaces(s[1..]);
    if ws != [] {
      var n := |ws[0]|;
      assert s[1..][i..i + n] == s[i + 1..i + 1 + n];
      assert s[1..][i + n..] == s[i + 1 + n..];
    }
  }

  /** The words of a text are determined by it: any `ws` that tiles `s` is
      what `split_whitespace` returns. */
  lemma {:induction false} TilesUnique(s: string, t: string, a: seq<string>, b: seq<string>)
    requires s == t && Tiles(s, a) && Tiles(t, b)
    ensures a == b
    decreases |a|
  {
    TilesEnd(s, a);
    TilesEnd(t, b);
    if a != [] && b != [] {
      TilesFirst(s, a);
      TilesFirst(t, b);
      SameWordAt(s, LeadingSpaces(s), a[0], b[0]);
      TilesRest(s, a);
      TilesRest(t, b);
      TilesUnique(s[LeadingSpaces(s) + |a[0]|..], t[LeadingSpaces(t) + |b[0]|..], a[1..], b[1..]);
      SameHeadTail(a, b);
    }
  }

  /** Lists agreeing on their first element and on the rest are equal. */
  lemma SameHeadTail(a: seq<string>, b: seq<string>)
    requires a != [] && b != [] && a[0] == b[0] && a[1..] == b[1..]
    ensures a == b
  {
    assert a == [a[0]] + a[1..] && b == [b[0]] + b[1..];
  }

  /** A tiling has no words exactly when the text is whitespace only. */
  lemma TilesEnd(s: string, ws: seq<string>)
    requires Tiles(s, ws)
    ensures ws == [] <==> LeadingSpaces(s) == |s|
  {
    if ws != [] {
      TilesFirst(s, ws);
    }
  }

  /** The first word of a tiling follows the leading whitespace and is
      followed by whitespace or the end of the text. */
  lemma TilesFirst(s: string, ws: seq<string>)
    requires Tiles(s, ws) && ws != []
    ensures IsWord(ws[0])
    ensures LeadingSpaces(s) + |ws[0]| <= |s|
    ensures ws[0] == s[LeadingSpaces(s)..LeadingSpaces(s) + |ws[0]|]
    ensures LeadingSpaces(s) + |ws[0]| == |s| || IsSpace(s[LeadingSpaces(s) + |ws[0]|])
  {
  }

  /** The other words of a tiling tile the text after the first word. */
  lemma TilesRest(s: string, ws: seq<string>)
    requires Tiles(s, ws) && ws != []
    ensures LeadingSpaces(s) + |ws[0]| <= |s|
    ensures Tiles(s[LeadingSpaces(s) + |ws[0]|..], ws[1..])
  {
  }

  /** Two words that both start at `i` and end before whitespace or the end
      of the text are the same word. */
  lemma SameWordAt(s: string, i: nat, v: string, w: string)
    requires IsWord(v) && i + |v| <= |s| && v == s[i..i + |v|]
    requires i + |v| == |s| || IsSpace(s[i + |v|])
    requires IsWord(w) && i + |w| <= |s| && w == s[i..i + |w|]
    requires i + |w| == |s| || IsSpace(s[i + |w|])
    ensures v == w
  {
    InsideWord(s, i, v, |w|);
    InsideWord(s, i, w, |v|);
  }

  /** The characters of a word of `s` starting at `i` are not whitespace. */
  lemma InsideWord(s: string, i: nat, w: string, j: nat)
    requires IsWord(w) && i + |w| <= |s| && w == s[i..i + |w|]
    ensures j < |w| ==> !IsSpace(s[i + j])
  {
    if j < |w| {
      assert s[i + j] == w[j];
    }
  }

  /** A non-empty run of non-whitespace characters. */
  predicate IsWord(w: string) {
    |w| > 0 && forall j :: 0 <= j < |w| ==> !IsSpace(w[j])
  }

  /** The longest prefix without whitespace. */
  function Word(s: string): (w: string)
    ensures |w| <= |s| && w == s[..|w|]
    ensures forall j :: 0 <= j < |w| ==> !IsSpace(w[j])
    ensures |w| < |s| ==> IsSpace(s[|w|])
    ensures |s| > 0 && !IsSpace(s[0]) ==> |w| > 0
  {
    if s == [] || IsSpace(s[0]) then [] else [s[0]] + Word(s[1..])
  }

  // ------------------------------------------------------------ reading

  /** Reading every line with `parse`, raising at the first that fails:
      the result holds one value per line, in order, and is an error exactly
      when some line does not parse. */
  function ParseAll<S, T>(parse: S -> Option<T>, lines: seq<S>): (r: Result<seq<T>>)
    ensures r.Ok? <==> forall i :: 0 <= i < |lines| ==> parse(lines[i]).Some?
    ensures r.Ok? ==>
              |r.value| == |lines|
              && forall i :: 0 <= i < |lines| ==> parse(lines[i]) == Some(r.value[i])
  {
    if lines == [] then Ok([])
    else
      match parse(lines[0])
      case None => Err("invalid line")
      case Some(first) =>
        match ParseAll(parse, lines[1..])
        case Err(e) => Err(e)
        case Ok(rest) => Ok([first] + rest)
  }

  /** `if line`: the non-empty lines, in order. */
  function NonEmpty(lines: seq<string>): (kept: seq<string>)
    ensures |kept| <= |lines|
    ensures forall i :: 0 <= i < |kept| ==> kept[i] != ""
    ensures forall line :: line in kept <==> line in lines && line != ""
    ensures (forall i :: 0 <= i < |lines| ==> lines[i] != "") ==> kept == lines
  {
    if lines == [] then []
    else
      assert lines == [lines[0]] + lines[1..];
      (if lines[0] == "" then [] else [lines[0]]) + NonEmpty(lines[1..])
  }

  /** Keeping the non-empty lines commutes with concatenation, so the lines
      kept keep their order. */
  lemma {:induction false} NonEmptyAppend(a: seq<string>, b: seq<string>)
    ensures NonEmpty(a + b) == NonEmpty(a) + NonEmpty(b)
  {
    if a != [] {
      assert (a + b)[0] == a[0];
      assert (a + b)[1..] == a[1..] + b;
      NonEmptyAppend(a[1..], b);
    } else {
      assert a + b == b;
    }
  }
}
