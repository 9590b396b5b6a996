/** The pure core of the benchmark harness `scripts/run-solutions.ts`: output
    normalisation and truncation, language directory names, the outcome of one
    execution, command-line parsing, and the per-task baseline comparison that
    marks every successful run as matching the baseline's output or not. */
module RunSolutions {
  import opened Wrappers
  import opened Text

  // ------------------------------------------------------ stdout normalisation

  /** The characters JavaScript's `String.prototype.trimEnd` removes: the
      ECMAScript WhiteSpace and LineTerminator code points. */
  predicate IsJsWhitespace(c: char) {
    c == '\t' || c == '\n' || c == '\U{000B}' || c == '\U{000C}' || c == '\r' || c == ' '
    || c == '\U{00A0}' || c == '\U{1680}' || ('\U{2000}' <= c <= '\U{200A}')
    || c == '\U{2028}' || c == '\U{2029}' || c == '\U{202F}' || c == '\U{205F}'
    || c == '\U{3000}' || c == '\U{FEFF}'
  }

  predicate HasCrlf(s: string) {
    exists i :: 0 <= i < |s| - 1 && s[i] == '\r' && s[i + 1] == '\n'
  }

  /** `text.replace(/\r\n/g, "\n")`: one left-to-right pass that rewrites each
      non-overlapping CR LF pair into LF. */
  function ReplaceCrlf(s: string): (r: string)
    ensures |r| <= |s|
    ensures !HasCrlf(s) ==> r == s
  {
    if |s| >= 2 && s[0] == '\r' && s[1] == '\n' then "\n" + ReplaceCrlf(s[2..])
    else if s == [] then []
    else
      assert !HasCrlf(s) ==> !HasCrlf(s[1..]) by {
        if HasCrlf(s[1..]) {
          var i :| 0 <= i < |s[1..]| - 1 && s[1..][i] == '\r' && s[1..][i + 1] == '\n';
          assert s[i + 1] == '\r' && s[i + 2] == '\n';
        }
      }
      [s[0]] + ReplaceCrlf(s[1..])
  }

  /** `String.prototype.trimEnd`. */
  function TrimEnd(s: string): (r: string)
    ensures |r| <= |s| && r == s[..|r|]
    ensures r == [] || !IsJsWhitespace(r[|r| - 1])
    ensures forall i :: |r| <= i < |s| ==> IsJsWhitespace(s[i])
  {
    if s != [] && IsJsWhitespace(s[|s| - 1]) then TrimEnd(s[..|s| - 1]) else s
  }

  /** `normalizeStdout`, exactly as written: CR LF pairs become LF in one pass,
      then trailing whitespace is removed. */
  function NormalizeStdout(text: string): (r: string)
    ensures r == [] || !IsJsWhitespace(r[|r| - 1])
    ensures |r| <= |text|
    ensures !HasCrlf(text) ==> r == TrimEnd(text)
  {
    TrimEnd(ReplaceCrlf(text))
  }

  /** The single pass of `NormalizeStdout` can itself produce a CR LF pair
      ("\r\r\n" becomes "\r\n"), so the result may still contain one, and
      normalising again changes it. */
  lemma NormalizeStdoutLeavesCrlf()
    ensures HasCrlf(NormalizeStdout("\r\r\nx"))
    ensures NormalizeStdout(NormalizeStdout("\r\r\nx")) != NormalizeStdout("\r\r\nx")
  {
    var t := "\r\r\nx";
    assert ReplaceCrlf(t[3..]) == "x";
    assert ReplaceCrlf(t[1..]) == "\nx";
    assert ReplaceCrlf(t) == "\r\nx";
    assert NormalizeStdout(t) == "\r\nx";
    assert ReplaceCrlf("\r\nx") == "\nx";
    assert NormalizeStdout("\r\nx") == "\nx";
  }

  /** Drops every carriage return that stands immediately before a line feed
      once the rest of the text has been normalised, which removes each run of
      carriage returns ending a line. */
  function DropCrBeforeLf(s: string): (r: string)
    ensures !HasCrlf(r)
    ensures |r| <= |s|
  {
    if s == [] then []
    else
      var rest := DropCrBeforeLf(s[1..]);
      if s[0] == '\r' && |rest| > 0 && rest[0] == '\n' then rest
      else
        var r := [s[0]] + rest;
        assert !HasCrlf(r) by {
          forall i | 0 <= i < |r| - 1 ensures !(r[i] == '\r' && r[i + 1] == '\n') {
            if i > 0 { assert r[i] == rest[i - 1] && r[i + 1] == rest[i]; }
          }
        }
        r
  }

  lemma {:induction false} DropCrBeforeLfIdentity(s: string)
    requires !HasCrlf(s)
    ensures DropCrBeforeLf(s) == s
  {
    if s != [] {
      DropCrBeforeLfIdentity(s[1..]);
      assert |s| > 1 ==> !(s[0] == '\r' && s[1] == '\n');
    }
  }

  lemma PrefixKeepsNoCrlf(s: string, n: nat)
    requires n <= |s| && !HasCrlf(s)
    ensures !HasCrlf(s[..n])
  {
  }

  /** The normalisation `normalizeStdout` is meant to be: line endings unified
      (no CR LF is left) and trailing whitespace removed. */
  function NormalizeLineEndings(text: string): (r: string)
    ensures !HasCrlf(r)
    ensures r == [] || !IsJsWhitespace(r[|r| - 1])
  {
    var d := DropCrBeforeLf(text);
    var r := TrimEnd(d);
    PrefixKeepsNoCrlf(d, |r|);
    r
  }

  lemma NormalizeLineEndingsIdempotent(text: string)
    ensures NormalizeLineEndings(NormalizeLineEndings(text)) == NormalizeLineEndings(text)
  {
    var once := NormalizeLineEndings(text);
    DropCrBeforeLfIdentity(once);
  }

  /** Without two carriage returns in a row the two normalisations agree, so
      the difference is confined to text such as "\r\r\n". */
  lemma {:induction false} NormalizeAgreesWithoutDoubleCr(s: string)
    requires forall i :: 0 <= i < |s| - 1 ==> !(s[i] == '\r' && s[i + 1] == '\r')
    ensures ReplaceCrlf(s) == DropCrBeforeLf(s)
    ensures NormalizeStdout(s) == NormalizeLineEndings(s)
  {
    if s != [] {
      assert forall i :: 0 <= i < |s[1..]| - 1 ==> !(s[1..][i] == '\r' && s[1..][i + 1] == '\r');
      NormalizeAgreesWithoutDoubleCr(s[1..]);
      if |s| >= 2 && s[0] == '\r' && s[1] == '\n' {
        if |s| >= 3 {
          assert forall i :: 0 <= i < |s[2..]| - 1 ==> !(s[2..][i] == '\r' && s[2..][i + 1] == '\r');
          NormalizeAgreesWithoutDoubleCr(s[2..]);
        }
        assert s[1..] == ['\n'] + s[2..];
        assert DropCrBeforeLf(s[1..]) == ['\n'] + DropCrBeforeLf(s[2..]);
      } else if |s| >= 2 {
        assert s[1] != '\r' || s[0] != '\r';
        if s[0] == '\r' {
          assert s[1] != '\r' && s[1] != '\n';
          assert DropCrBeforeLf(s[1..])[0] == s[1];
        }
      }
    }
  }

  // ------------------------------------------------------------- truncation

  /** The character budget of a captured stream. */
  const MAX_CAPTURE: nat := 20000

  const MARKER_HEAD: string := "\n\U{2026} (truncated, "
  const MARKER_TAIL: string := " chars omitted)"

  function Marker(omitted: nat): string {
    MARKER_HEAD + NatToString(omitted) + MARKER_TAIL
  }

  /** Reads the omitted-character count back out of a truncation marker. */
  function ReadMarker(m: string): Option<nat> {
    if |m| >= |MARKER_HEAD| + |MARKER_TAIL|
       && m[..|MARKER_HEAD|] == MARKER_HEAD && m[|m| - |MARKER_TAIL|..] == MARKER_TAIL
    then ParseNat(m[|MARKER_HEAD|..|m| - |MARKER_TAIL|])
    else None
  }

  lemma ReadMarkerOfMarker(n: nat)
    ensures ReadMarker(Marker(n)) == Some(n)
  {
    var m := Marker(n);
    assert m[..|MARKER_HEAD|] == MARKER_HEAD;
    assert m[|m| - |MARKER_TAIL|..] == MARKER_TAIL;
    assert m[|MARKER_HEAD|..|m| - |MARKER_TAIL|] == NatToString(n);
    ParseNatToString(n);
  }

  /** `truncate(text, max)`: text within the budget is returned unchanged;
      longer text keeps exactly its first `max` characters followed by a
      marker from which the number of omitted characters reads back. */
  function TruncateTo(text: string, max: nat): (r: string)
    ensures |text| <= max ==> r == text
    ensures |text| > max ==> |r| > max && r[..max] == text[..max]
    ensures |text| > max ==> ReadMarker(r[max..]) == Some(|text| - max)
    ensures |text| > max ==> |r| == max + |MARKER_HEAD| + |MARKER_TAIL| + |NatToString(|text| - max)|
  {
    if |text| <= max then text
    else
      var r := text[..max] + Marker(|text| - max);
      assert r[max..] == Marker(|text| - max);
      ReadMarkerOfMarker(|text| - max);
      r
  }

  function Truncate(text: string): string {
    TruncateTo(text, MAX_CAPTURE)
  }

  // ------------------------------------------------------ language directories

  datatype Language = Python | Js | Rust

  /** The directory name the harness uses for each language in this repository. */
  function LanguageDir(lang: Language): string {
    match lang
    case Python => "python"
    case Js => "js"
    case Rust => "rust"
  }

  /** `normalizeLanguageDir`: "python", "js", "ts" and "rust" name a language
      (TypeScript runs as JavaScript); every other directory is skipped. */
  function NormalizeLanguageDir(dirName: string): (r: Option<Language>)
    ensures r == Some(Python) <==> dirName == "python"
    ensures r == Some(Js) <==> dirName == "js" || dirName == "ts"
    ensures r == Some(Rust) <==> dirName == "rust"
    ensures r.Some? ==> dirName == LanguageDir(r.value) || dirName == "ts"
  {
    if dirName == "python" then Some(Python)
    else if dirName == "js" then Some(Js)
    else if dirName == "ts" then Some(Js)
    else if dirName == "rust" then Some(Rust)
    else None
  }

  lemma LanguageDirRoundTrip(lang: Language)
    ensures NormalizeLanguageDir(LanguageDir(lang)) == Some(lang)
  {
  }

  // ------------------------------------------------------ one execution's outcome

  /** What the process executor reports (the elapsed time is left out). */
  datatype ExecResult = ExecResult(exitCode: int, stdout: string, stderr: string, timedOut: bool)

  /** The fields of a run that follow from the execution result. */
  datatype RunOutcome = RunOutcome(
    success: bool, exitCode: int, timedOut: bool,
    stdout: string, stderr: string, error: Option<string>)

  /** JavaScript's `a || b` on strings: the first one that is not empty. */
  function OrElse(a: string, b: string): string {
    if a != "" then a else b
  }

  /** The record built at the end of `runOneSolution` from one execution. */
  function FinishRun(exec: ExecResult, timeoutMs: Timeout): (r: RunOutcome)
    ensures r.success <==> exec.exitCode == 0 && !exec.timedOut
    ensures r.error.None? <==> r.success
    ensures exec.timedOut && timeoutMs.Millis? ==>
      r.error == Some("Timed out after " + NatToString(timeoutMs.ms) + "ms")
    ensures exec.timedOut && timeoutMs.NotDecimal? ==> r.error == Some("Timed out after NaNms")
    ensures !exec.timedOut && exec.exitCode != 0 ==>
      r.error == Some(Truncate(OrElse(NormalizeStdout(exec.stderr),
                        OrElse(NormalizeStdout(exec.stdout), "Exit code " + IntToString(exec.exitCode)))))
    ensures r.exitCode == exec.exitCode && r.timedOut == exec.timedOut
    ensures r.stdout == Truncate(NormalizeStdout(exec.stdout))
    ensures r.stderr == Truncate(NormalizeStdout(exec.stderr))
  {
    var stdoutNorm := NormalizeStdout(exec.stdout);
    var stderrNorm := NormalizeStdout(exec.stderr);
    RunOutcome(
      exec.exitCode == 0 && !exec.timedOut,
      exec.exitCode,
      exec.timedOut,
      Truncate(stdoutNorm),
      Truncate(stderrNorm),
      if exec.timedOut then
        // a template literal writes a timeout `Number` could not read as `NaN`
        Some(match timeoutMs
             case Millis(n) => "Timed out after " + NatToString(n) + "ms"
             case NotDecimal(_) => "Timed out after NaNms")
      else if exec.exitCode == 0 then None
      else Some(Truncate(OrElse(stderrNorm, OrElse(stdoutNorm, "Exit code " + IntToString(exec.exitCode))))))
  }

  /** A failed run always carries a non-empty error summary that fits the
      capture budget plus one marker. */
  lemma FailedRunHasError(exec: ExecResult, timeoutMs: Timeout)
    ensures !FinishRun(exec, timeoutMs).success ==>
      FinishRun(exec, timeoutMs).error.Some? && |FinishRun(exec, timeoutMs).error.value| > 0
  {
    var r := FinishRun(exec, timeoutMs);
    if !exec.timedOut && exec.exitCode != 0 {
      var msg := OrElse(NormalizeStdout(exec.stderr),
                   OrElse(NormalizeStdout(exec.stdout), "Exit code " + IntToString(exec.exitCode)));
      assert |msg| > 0;
      assert MAX_CAPTURE > 0;
      assert |Truncate(msg)| > 0;
    }
  }

  // ------------------------------------------------------------ parseArgs

  /** The value `Number(s)` gives the timeout: a whole number of milliseconds
      for plain decimal text; any other text is kept as it was given. */
  datatype Timeout = Millis(ms: nat) | NotDecimal(text: string)

  function ToNumber(s: string): Timeout {
    match ParseNat(s)
    case Some(n) => Millis(n)
    case None => NotDecimal(s)
  }

  datatype Options = Options(
    task: Option<string>, only: Option<string>, lang: Option<string>,
    timeoutMs: Timeout, output: string)

  /** The outcome of `parseArgs`: options, or `--help`, which prints the usage
      text and exits. */
  datatype ParsedArgs = Parsed(opts: Options) | HelpRequested

  const DEFAULT_OPTIONS: Options :=
    Options(None, None, None, Millis(60000), "site/public/data/latest.json")

  /** `String.prototype.padStart(width, pad)` with a one-character pad. */
  function PadStart(s: string, width: nat, pad: char): (r: string)
    ensures |r| == if |s| >= width then |s| else width
    ensures r[|r| - |s|..] == s
    ensures forall i :: 0 <= i < |r| - |s| ==> r[i] == pad
  {
    if |s| >= width then s else seq(width - |s|, _ => pad) + s
  }

  /** The option loop of `parseArgs` from index `i` on: a flag takes the next
      argument as its value only when that argument exists and is not empty;
      otherwise the flag is skipped. `--only` and `--lang` are stored without
      validation. */
  function ParseFrom(argv: seq<string>, i: nat, acc: Options): ParsedArgs
    decreases |argv| - i
  {
    if i >= |argv| then Parsed(acc)
    else
      var a := argv[i];
      var hasValue := i + 1 < |argv| && argv[i + 1] != "";
      if a == "--task" && hasValue then ParseFrom(argv, i + 2, acc.(task := Some(PadStart(argv[i + 1], 2, '0'))))
      else if a == "--only" && hasValue then ParseFrom(argv, i + 2, acc.(only := Some(argv[i + 1])))
      else if a == "--lang" && hasValue then ParseFrom(argv, i + 2, acc.(lang := Some(argv[i + 1])))
      else if a == "--timeoutMs" && hasValue then ParseFrom(argv, i + 2, acc.(timeoutMs := ToNumber(argv[i + 1])))
      else if a == "--output" && hasValue then ParseFrom(argv, i + 2, acc.(output := argv[i + 1]))
      else if a == "--help" || a == "-h" then HelpRequested
      else ParseFrom(argv, i + 1, acc)
  }

  /** `parseArgs`. */
  method ParseArgs(argv: seq<string>) returns (r: ParsedArgs)
    ensures r == ParseFrom(argv, 0, DEFAULT_OPTIONS)
  {
    var out := DEFAULT_OPTIONS;
    var i := 0;
    while i < |argv|
      invariant 0 <= i <= |argv| + 1
      invariant ParseFrom(argv, i, out) == ParseFrom(argv, 0, DEFAULT_OPTIONS)
    {
      var a := argv[i];
      var hasValue := i + 1 < |argv| && argv[i + 1] != "";
      if a == "--task" && hasValue {
        i := i + 1;
        out := out.(task := Some(PadStart(argv[i], 2, '0')));
      } else if a == "--only" && hasValue {
        i := i + 1;
        out := out.(only := Some(argv[i]));
      } else if a == "--lang" && hasValue {
        i := i + 1;
        out := out.(lang := Some(argv[i]));
      } else if a == "--timeoutMs" && hasValue {
        i := i + 1;
        out := out.(timeoutMs := ToNumber(argv[i]));
      } else if a == "--output" && hasValue {
        i := i + 1;
        out := out.(output := argv[i]);
      } else if a == "--help" || a == "-h" {
        return HelpRequested;
      }
      i := i + 1;
    }
    r := Parsed(out);
  }

  /** A task filter is always at least two characters long and is the value of
      some `--task` flag, left-padded with '0'. */
  lemma {:induction false} ParsedTaskIsPadded(argv: seq<string>, i: nat, acc: Options)
    requires acc.task.Some? ==> |acc.task.value| >= 2
    ensures var p := ParseFrom(argv, i, acc);
      p.Parsed? && p.opts.task.Some? && p.opts.task != acc.task ==>
        |p.opts.task.value| >= 2 &&
        exists j :: i <= j < |argv| - 1 && argv[j] == "--task" && p.opts.task.value == PadStart(argv[j + 1], 2, '0')
    decreases |argv| - i
  {
    if i < |argv| {
      var a := argv[i];
      var hasValue := i + 1 < |argv| && argv[i + 1] != "";
      if a == "--task" && hasValue {
        var acc' := acc.(task := Some(PadStart(argv[i + 1], 2, '0')));
        ParsedTaskIsPadded(argv, i + 2, acc');
      } else if a == "--only" && hasValue {
        ParsedTaskIsPadded(argv, i + 2, acc.(only := Some(argv[i + 1])));
      } else if a == "--lang" && hasValue {
        ParsedTaskIsPadded(argv, i + 2, acc.(lang := Some(argv[i + 1])));
      } else if a == "--timeoutMs" && hasValue {
        ParsedTaskIsPadded(argv, i + 2, acc.(timeoutMs := ToNumber(argv[i + 1])));
      } else if a == "--output" && hasValue {
        ParsedTaskIsPadded(argv, i + 2, acc.(output := argv[i + 1]));
      } else if !(a == "--help" || a == "-h") {
        ParsedTaskIsPadded(argv, i + 1, acc);
      }
    }
  }

  /** Without a `--timeoutMs` flag the timeout stays at its current value, so
      from the defaults it is 60000 ms. */
  lemma {:induction false} TimeoutDefault(argv: seq<string>, i: nat, acc: Options)
    requires forall j :: i <= j < |argv| ==> argv[j] != "--timeoutMs"
    ensures ParseFrom(argv, i, acc).Parsed? ==> ParseFrom(argv, i, acc).opts.timeoutMs == acc.timeoutMs
    decreases |argv| - i
  {
    if i < |argv| {
      var a := argv[i];
      var hasValue := i + 1 < |argv| && argv[i + 1] != "";
      if a == "--task" && hasValue {
        TimeoutDefault(argv, i + 2, acc.(task := Some(PadStart(argv[i + 1], 2, '0'))));
      } else if a == "--only" && hasValue {
        TimeoutDefault(argv, i + 2, acc.(only := Some(argv[i + 1])));
      } else if a == "--lang" && hasValue {
        TimeoutDefault(argv, i + 2, acc.(lang := Some(argv[i + 1])));
      } else if a == "--output" && hasValue {
        TimeoutDefault(argv, i + 2, acc.(output := argv[i + 1]));
      } else if !(a == "--help" || a == "-h") {
        TimeoutDefault(argv, i + 1, acc);
      }
    }
  }

  /** A flag given last, with no value after it, changes nothing. */
  lemma DanglingFlagIgnored(argv: seq<string>, acc: Options)
    requires |argv| > 0 && argv[|argv| - 1] != "--help" && argv[|argv| - 1] != "-h"
    ensures ParseFrom(argv, |argv| - 1, acc) == Parsed(acc)
  {
  }

  // ------------------------------------------------------------ baseline

  /** One entry of the run list; the baseline pass fills in the last two
      fields of successful runs in place. */
  class RunRecord {
    const solutionId: string
    const taskId: string
    const source: string  // "human" or the model's name
    const success: bool
    const stdout: string
    var matchesBaseline: Option<bool>
    var baselineSolutionId: Option<string>

    constructor (solutionId: string, taskId: string, source: string, outcome: RunOutcome)
      ensures this.solutionId == solutionId && this.taskId == taskId && this.source == source
      ensures success == outcome.success && stdout == outcome.stdout
      ensures matchesBaseline.None? && baselineSolutionId.None?
    {
      this.solutionId := solutionId;
      this.taskId := taskId;
      this.source := source;
      this.success := outcome.success;
      this.stdout := outcome.stdout;
      this.matchesBaseline := None;
      this.baselineSolutionId := None;
    }
  }

  /** `runs.filter((r) => r.taskId === taskId)`. */
  function TaskRuns(runs: seq<RunRecord>, taskId: string): (rs: seq<RunRecord>)
    ensures forall i :: 0 <= i < |rs| ==> rs[i] in runs && rs[i].taskId == taskId
    ensures forall i :: 0 <= i < |runs| && runs[i].taskId == taskId ==> runs[i] in rs
    ensures |rs| <= |runs|
  {
    if runs == [] then []
    else if runs[0].taskId == taskId then [runs[0]] + TaskRuns(runs[1..], taskId)
    else TaskRuns(runs[1..], taskId)
  }

  /** The filter keeps the runs in the order they were pushed, each as often
      as it occurs: it commutes with concatenation. */
  lemma {:induction false} TaskRunsAppend(a: seq<RunRecord>, b: seq<RunRecord>, taskId: string)
    ensures TaskRuns(a + b, taskId) == TaskRuns(a, taskId) + TaskRuns(b, taskId)
  {
    if a == [] {
      assert a + b == b;
    } else {
      assert (a + b)[0] == a[0];
      assert (a + b)[1..] == a[1..] + b;
      TaskRunsAppend(a[1..], b, taskId);
    }
  }

  predicate HumanSuccess(r: RunRecord) {
    r.source == "human" && r.success
  }

  /** `find`: the first index whose run is a successful human one. */
  function FirstHumanSuccess(rs: seq<RunRecord>): (k: Option<nat>)
    ensures k.Some? ==> (k.value < |rs| && HumanSuccess(rs[k.value])
                         && forall j :: 0 <= j < k.value ==> !HumanSuccess(rs[j]))
    ensures k.None? ==> forall j :: 0 <= j < |rs| ==> !HumanSuccess(rs[j])
  {
    if rs == [] then None
    else if HumanSuccess(rs[0]) then Some(0)
    else match FirstHumanSuccess(rs[1..])
      case Some(k) => Some(k + 1)
      case None => None
  }

  /** `find`: the first index whose run succeeded. */
  function FirstSuccess(rs: seq<RunRecord>): (k: Option<nat>)
    ensures k.Some? ==> (k.value < |rs| && rs[k.value].success
                         && forall j :: 0 <= j < k.value ==> !rs[j].success)
    ensures k.None? ==> forall j :: 0 <= j < |rs| ==> !rs[j].success
  {
    if rs == [] then None
    else if rs[0].success then Some(0)
    else match FirstSuccess(rs[1..])
      case Some(k) => Some(k + 1)
      case None => None
  }

  /** The baseline of a task's runs: the first successful human run, else the
      first successful run; none when no run succeeded. */
  function SelectBaseline(rs: seq<RunRecord>): (b: Option<nat>)
    ensures b.None? <==> forall j :: 0 <= j < |rs| ==> !rs[j].success
    ensures b.Some? ==> b.value < |rs| && rs[b.value].success
    ensures (exists j :: 0 <= j < |rs| && HumanSuccess(rs[j])) ==>
      b.Some? && HumanSuccess(rs[b.value]) && forall j :: 0 <= j < b.value ==> !HumanSuccess(rs[j])
    ensures (forall j :: 0 <= j < |rs| ==> !HumanSuccess(rs[j])) && b.Some? ==>
      forall j :: 0 <= j < b.value ==> !rs[j].success
  {
    match FirstHumanSuccess(rs)
    case Some(k) => Some(k)
    case None => FirstSuccess(rs)
  }

  /** The loop of lines 668-672 over a task's runs: each successful run
      records the baseline's id and whether its normalised output equals the
      baseline's normalised output `expected`. */
  method MarkSuccessfulRuns(rs: seq<RunRecord>, baselineId: string, expected: string)
    modifies set r | r in rs
    ensures forall r :: r in rs && r.success ==>
      r.baselineSolutionId == Some(baselineId) && r.matchesBaseline == Some(NormalizeStdout(r.stdout) == expected)
    ensures forall r :: r in rs && !r.success ==>
      r.baselineSolutionId == old(r.baselineSolutionId) && r.matchesBaseline == old(r.matchesBaseline)
  {
    var k := 0;
    while k < |rs|
      invariant 0 <= k <= |rs|
      invariant forall r :: r in rs[..k] && r.success ==>
        r.baselineSolutionId == Some(baselineId) && r.matchesBaseline == Some(NormalizeStdout(r.stdout) == expected)
      invariant forall r :: r in rs && !r.success ==>
        r.baselineSolutionId == old(r.baselineSolutionId) && r.matchesBaseline == old(r.matchesBaseline)
    {
      var r := rs[k];
      if r.success {
        r.baselineSolutionId := Some(baselineId);
        r.matchesBaseline := Some(NormalizeStdout(r.stdout) == expected);
      }
      assert rs[..k + 1] == rs[..k] + [r];
      k := k + 1;
    }
    assert rs[..k] == rs;
  }

  /** The baseline pass for one task (lines 662-673): every successful run of
      that task records the baseline's id and whether its normalised output
      equals the baseline's; failed runs and other tasks' runs are untouched. */
  method CompareWithBaseline(runs: seq<RunRecord>, taskId: string)
    modifies set r | r in runs
    ensures var rs := TaskRuns(runs, taskId); var b := SelectBaseline(rs);
      forall r :: r in runs && b.Some? && r.taskId == taskId && r.success ==>
        r.baselineSolutionId == Some(rs[b.value].solutionId)
        && r.matchesBaseline == Some(NormalizeStdout(r.stdout) == NormalizeStdout(rs[b.value].stdout))
    ensures var b := SelectBaseline(TaskRuns(runs, taskId));
      forall r :: r in runs && !(b.Some? && r.taskId == taskId && r.success) ==>
        r.baselineSolutionId == old(r.baselineSolutionId) && r.matchesBaseline == old(r.matchesBaseline)
    ensures var rs := TaskRuns(runs, taskId); var b := SelectBaseline(rs);
      b.Some? ==> rs[b.value].matchesBaseline == Some(true)
  {
    var taskRuns := TaskRuns(runs, taskId);
    var b := SelectBaseline(taskRuns);
    if b.Some? {
      var baseline := taskRuns[b.value];
      forall r | r in taskRuns ensures r in runs {
        var i :| 0 <= i < |taskRuns| && taskRuns[i] == r;
      }
      forall r | r in runs && r.taskId == taskId ensures r in taskRuns {
        var i :| 0 <= i < |runs| && runs[i] == r;
      }
      MarkSuccessfulRuns(taskRuns, baseline.solutionId, NormalizeStdout(baseline.stdout));
    }
  }
}
