/** Hook scripts on their way to a runner: line iteration, line-ending normalisation, and the Windows batch runner
    under a small model of how a batch file is executed. */
module HookScripts {
  import opened Common

  const LF: char := '\n'
  const CR: char := '\r'

  predicate NoLf(text: string) {
    LF !in text
  }

  predicate EndsInCr(text: string) {
    text != "" && text[|text| - 1] == CR
  }

  function WithoutCr(text: string): string {
    if EndsInCr(text) then text[..|text| - 1] else text
  }

  /** The index of the first line feed at or behind `from`, or the length. */
  function LineEnd(text: string, from: nat): (end: nat)
    requires from <= |text|
    ensures from <= end <= |text| && (end < |text| ==> text[end] == LF)
    decreases |text| - from
  {
    if from == |text| || text[from] == LF then from else LineEnd(text, from + 1)
  }

  /** The lines from `from` on: what stands between line feeds, each without one carriage return before its line
      feed. What follows the last line feed is a line too, and keeps its carriage return. */
  function LinesFrom(text: string, from: nat): (lines: seq<string>)
    requires from <= |text|
    ensures lines != []
    decreases |text| - from
  {
    var end := LineEnd(text, from);
    if end == |text| then [text[from..]] else [WithoutCr(text[from..end])] + LinesFrom(text, end + 1)
  }

  function Lines(text: string): seq<string> {
    LinesFrom(text, 0)
  }

  function JoinLf(lines: seq<string>): string
    requires lines != []
  {
    if |lines| == 1 then lines[0] else lines[0] + [LF] + JoinLf(lines[1..])
  }

  predicate CrlfAt(text: string, i: nat) {
    i + 1 < |text| && text[i] == CR && text[i + 1] == LF
  }

  /** The text from `from` on with CR LF pairs replaced by LF, from left to right. */
  function NormalizedFrom(text: string, from: nat): string
    decreases |text| - from
  {
    if from >= |text| then ""
    else if CrlfAt(text, from) then [LF] + NormalizedFrom(text, from + 2)
    else [text[from]] + NormalizedFrom(text, from + 1)
  }

  function Normalized(text: string): string {
    NormalizedFrom(text, 0)
  }

  lemma {:induction false} LineEndIs(text: string, from: nat, end: nat)
    requires from <= end <= |text| && (end < |text| ==> text[end] == LF)
    requires forall k :: from <= k < end ==> text[k] != LF
    ensures LineEnd(text, from) == end
    decreases end - from
  {
    if from == end {
    } else {
      LineEndIs(text, from + 1, end);
    }
  }

  lemma {:induction false} LineEndIsFirst(text: string, from: nat)
    requires from <= |text|
    ensures forall k :: from <= k < LineEnd(text, from) ==> text[k] != LF
    decreases |text| - from
  {
    if from == |text| || text[from] == LF {
    } else {
      LineEndIsFirst(text, from + 1);
    }
  }

  // ---- Line iteration ----

  /** Taking off the carriage return is to stop one character earlier. */
  lemma LineWithoutCr(text: string, from: nat, end: nat)
    requires from <= end <= |text|
    ensures WithoutCr(text[from..end]) == text[from..if end > from && text[end - 1] == CR then end - 1 else end]
  {
    if end > from {
      SliceFront(text, from, end);
    }
  }

  /** The lines so far and the lines to come make up the script's lines, one line later too. */
  lemma NextLine(script: string, lines: seq<string>, start: nat, end: nat, line: string)
    requires start <= end < |script| && script[end] == LF && forall k :: start <= k < end ==> script[k] != LF
    requires line == script[start..if end > start && script[end - 1] == CR then end - 1 else end]
    ensures (lines + [line]) + LinesFrom(script, end + 1) == lines + LinesFrom(script, start)
  {
    LineEndIs(script, start, end);
    LineWithoutCr(script, start, end);
    AppendAssociative(lines, [line], LinesFrom(script, end + 1));
  }

  lemma LastLine(script: string, start: nat)
    requires start <= |script| && forall k :: start <= k < |script| ==> script[k] != LF
    ensures LinesFrom(script, start) == [script[start..]]
  {
    LineEndIs(script, start, |script|);
  }

  method IterateLfScriptLines(script: string) returns (lines: seq<string>)
    ensures lines == Lines(script)
  {
    lines := [];
    var lineStart := 0;
    var index := 0;
    ghost var all := Lines(script);
    EmptySlice([script], 0, all);
    while index < |script|
      invariant 0 <= lineStart <= index <= |script|
      invariant forall k :: lineStart <= k < index ==> script[k] != LF
      invariant lines + LinesFrom(script, lineStart) == all
    {
      if script[index] != LF {
        index := index + 1;
        continue;
      }
      var lineEnd := if index > lineStart && script[index - 1] == CR then index - 1 else index;
      var line := script[lineStart..lineEnd];
      NextLine(script, lines, lineStart, index, line);
      lines := lines + [line];
      index := index + 1;
      lineStart := index;
    }
    if lineStart <= |script| {
      LastLine(script, lineStart);
      lines := lines + [script[lineStart..]];
    }
  }

  // ---- Normalisation ----

  /** `indexOf('\r\n', from)`. */
  function IndexOfCrlf(text: string, from: nat): (i: int)
    requires from <= |text|
    ensures i == -1 || from <= i <= |text| - 2
    decreases |text| - from
  {
    if from + 1 >= |text| then -1 else if CrlfAt(text, from) then from else IndexOfCrlf(text, from + 1)
  }

  lemma {:induction false} IndexOfCrlfIsFirst(text: string, from: nat)
    requires from <= |text|
    ensures var i := IndexOfCrlf(text, from);
      && (i == -1 ==> forall k :: from <= k < |text| ==> !CrlfAt(text, k))
      && (i != -1 ==> CrlfAt(text, i) && forall k :: from <= k < i ==> !CrlfAt(text, k))
    decreases |text| - from
  {
    if from + 1 >= |text| || CrlfAt(text, from) {
    } else {
      IndexOfCrlfIsFirst(text, from + 1);
    }
  }

  lemma {:induction false} StretchStays(text: string, from: nat, to: nat)
    requires from <= to <= |text| && forall k :: from <= k < to ==> !CrlfAt(text, k)
    ensures NormalizedFrom(text, from) == text[from..to] + NormalizedFrom(text, to)
    decreases |text| - from
  {
    if from == to {
      EmptySlice(text, from, NormalizedFrom(text, to));
    } else {
      StretchStays(text, from + 1, to);
      SliceHead(text, from, to, NormalizedFrom(text, to));
    }
  }

  /** Up to the next CR LF nothing changes. */
  lemma NextChunk(text: string, from: nat)
    requires from <= |text|
    ensures var i := IndexOfCrlf(text, from);
      NormalizedFrom(text, from) == if i == -1 then text[from..] else text[from..i] + [LF] + NormalizedFrom(text, i + 2)
  {
    var i := IndexOfCrlf(text, from);
    IndexOfCrlfIsFirst(text, from);
    if i == -1 {
      StretchStays(text, from, |text|);
      WholeSlices(text, from);
    } else {
      StretchStays(text, from, i);
      AppendAssociative(text[from..i], [LF], NormalizedFrom(text, i + 2));
    }
  }

  lemma FirstChunk(text: string)
    ensures var i := IndexOfCrlf(text, 0);
      Normalized(text) == if i == -1 then text else text[..i] + [LF] + NormalizedFrom(text, i + 2)
  {
    var i := IndexOfCrlf(text, 0);
    NextChunk(text, 0);
    WholeSlices(text, if i == -1 then 0 else i);
  }

  /** A script without CR LF is left alone. */
  lemma NormalizedIsFixed(text: string)
    requires forall k :: 0 <= k < |text| ==> !CrlfAt(text, k)
    ensures Normalized(text) == text
  {
    StretchStays(text, 0, |text|);
    WholeSlices(text, 0);
  }

  /** What is normalised so far and what is still to come, one chunk later. */
  lemma ChunkAppends(normalized: string, text: string, from: nat, i: nat)
    requires from <= |text| && IndexOfCrlf(text, from) == i
    ensures normalized + text[from..i] + [LF] + NormalizedFrom(text, i + 2) == normalized + NormalizedFrom(text, from)
  {
    NextChunk(text, from);
    AppendAssociative(normalized, text[from..i], [LF]);
    AppendAssociative(normalized, text[from..i] + [LF], NormalizedFrom(text, i + 2));
  }

  method NormalizeCrlfScriptLineEndings(script: string) returns (normalized: string)
    ensures normalized == Normalized(script)
  {
    var crlfStart := IndexOfCrlf(script, 0);
    FirstChunk(script);
    if crlfStart == -1 {
      return script;
    }
    normalized := script[..crlfStart];
    var chunkStart := crlfStart + 2;
    normalized := normalized + [LF];
    crlfStart := IndexOfCrlf(script, chunkStart);
    while crlfStart != -1
      invariant 0 <= chunkStart <= |script| && crlfStart == IndexOfCrlf(script, chunkStart)
      invariant normalized + NormalizedFrom(script, chunkStart) == Normalized(script)
      decreases |script| - chunkStart
    {
      ChunkAppends(normalized, script, chunkStart, crlfStart);
      normalized := normalized + script[chunkStart..crlfStart];
      normalized := normalized + [LF];
      chunkStart := crlfStart + 2;
      crlfStart := IndexOfCrlf(script, chunkStart);
    }
    NextChunk(script, chunkStart);
    return normalized + script[chunkStart..];
  }

  lemma LineNormalizes(text: string, from: nat)
    requires from <= |text|
    ensures var end := LineEnd(text, from);
      NormalizedFrom(text, from) == if end == |text| then text[from..]
                                    else WithoutCr(text[from..end]) + [LF] + NormalizedFrom(text, end + 1)
  {
    var end := LineEnd(text, from);
    LineEndIsFirst(text, from);
    var to: nat := if end < |text| && end > from && text[end - 1] == CR then end - 1 else end;
    StretchStays(text, from, to);
    if end == |text| {
      WholeSlices(text, from);
    } else {
      LineWithoutCr(text, from, end);
      assert NormalizedFrom(text, to) == [LF] + NormalizedFrom(text, end + 1);
      AppendAssociative(text[from..to], [LF], NormalizedFrom(text, end + 1));
    }
  }

  lemma JoinedCons(line: string, lines: seq<string>)
    requires lines != []
    ensures JoinLf([line] + lines) == line + [LF] + JoinLf(lines)
  {
    ConsTail(line, lines);
  }

  lemma {:induction false} JoinedLines(text: string, from: nat)
    requires from <= |text|
    ensures JoinLf(LinesFrom(text, from)) == NormalizedFrom(text, from)
    decreases |text| - from
  {
    var end := LineEnd(text, from);
    LineNormalizes(text, from);
    if end == |text| {
    } else {
      JoinedLines(text, end + 1);
      JoinedCons(WithoutCr(text[from..end]), LinesFrom(text, end + 1));
    }
  }

  /** Both ways of reading a script agree: its lines, joined by line feeds, are the normalised script. */
  lemma LinesJoinToNormalized(script: string)
    ensures JoinLf(Lines(script)) == Normalized(script)
  {
    JoinedLines(script, 0);
  }

  // ---- The Windows runner ----

  const ECHO_OFF := "@echo off"
  const SETLOCAL := "setlocal EnableExtensions"
  const CHECK := "if errorlevel 1 exit /b %errorlevel%"
  const CALL := "call "

  /** JavaScript's white space and line terminators. */
  predicate IsTrimmed(c: char) {
    var u := c as int;
    || 0x09 <= u <= 0x0d || u == 0x20 || u == 0xa0 || u == 0x1680 || 0x2000 <= u <= 0x200a
    || u == 0x2028 || u == 0x2029 || u == 0x202f || u == 0x205f || u == 0x3000 || u == 0xfeff
  }

  function TrimStart(text: string): string {
    if text != "" && IsTrimmed(text[0]) then TrimStart(text[1..]) else text
  }

  function TrimEnd(text: string): string {
    if text != "" && IsTrimmed(text[|text| - 1]) then TrimEnd(text[..|text| - 1]) else text
  }

  function Trim(text: string): string {
    TrimEnd(TrimStart(text))
  }

  /** The commands of a script: its lines, trimmed, without the blank ones. */
  function Commands(lines: seq<string>): seq<string> {
    if lines == [] then []
    else (if Trim(lines[0]) == "" then [] else [Trim(lines[0])]) + Commands(lines[1..])
  }

  /** The lines of the runner for one line of the script. */
  function RunnerFor(line: string): seq<string> {
    if Trim(line) == "" then [""] else [CALL + Trim(line), CHECK]
  }

  function RunnerLines(lines: seq<string>): seq<string> {
    if lines == [] then [] else RunnerFor(lines[0]) + RunnerLines(lines[1..])
  }

  /** The text in which each line is followed by CR LF. */
  function Terminated(lines: seq<string>): string {
    if lines == [] then "" else lines[0] + [CR, LF] + Terminated(lines[1..])
  }

  lemma {:induction false} TerminatedAppend(a: seq<string>, b: seq<string>)
    ensures Terminated(a + b) == Terminated(a) + Terminated(b)
    decreases |a|
  {
    if a == [] {
      assert a + b == b;
    } else {
      assert (a + b)[1..] == a[1..] + b;
      TerminatedAppend(a[1..], b);
    }
  }

  lemma TerminatedTwo(first: string, second: string)
    ensures Terminated([first, second]) == first + [CR, LF] + second + [CR, LF]
  {
    assert [first, second][1..] == [second] && [second][1..] == [];
    assert Terminated([second]) == second + [CR, LF];
  }

  lemma TerminatedOne(line: string)
    ensures Terminated([line]) == line + [CR, LF]
  {
    assert [line][1..] == [];
  }

  ghost function Runner(script: string): string {
    Terminated([ECHO_OFF, SETLOCAL] + RunnerLines(Lines(script)))
  }

  /** Every line of the script takes one line of the runner, and every command one more. */
  lemma {:induction false} RunnerLineCount(lines: seq<string>)
    ensures |RunnerLines(lines)| == |lines| + |Commands(lines)|
    decreases |lines|
  {
    if lines != [] {
      RunnerLineCount(lines[1..]);
    }
  }

  /** `runner` plus what the remaining lines add is the same after one more line. */
  lemma RunnerGrows(runner: string, lines: seq<string>, k: nat, added: string)
    requires k < |lines| && added == Terminated(RunnerFor(lines[k]))
    ensures (runner + added) + Terminated(RunnerLines(lines[k + 1..])) == runner + Terminated(RunnerLines(lines[k..]))
  {
    assert lines[k..][1..] == lines[k + 1..];
    TerminatedAppend(RunnerFor(lines[k]), RunnerLines(lines[k + 1..]));
    AppendAssociative(runner, added, Terminated(RunnerLines(lines[k + 1..])));
  }

  /** The body of the loop. */
  method AppendRunnerLines(before: string, rawLine: string) returns (runnerScript: string)
    ensures runnerScript == before + Terminated(RunnerFor(rawLine))
  {
    var command := Trim(rawLine);
    if command == "" {
      TerminatedOne("");
      assert "" + [CR, LF] == [CR, LF];
      return before + [CR, LF];
    }
    TerminatedTwo(CALL + command, CHECK);
    return before + (CALL + command + [CR, LF] + CHECK + [CR, LF]);
  }

  method BuildWindowsRunnerScript(script: string) returns (runnerScript: string)
    ensures runnerScript == Runner(script)
  {
    runnerScript := ECHO_OFF + [CR, LF] + SETLOCAL + [CR, LF];
    var lines := IterateLfScriptLines(script);
    TerminatedTwo(ECHO_OFF, SETLOCAL);
    TerminatedAppend([ECHO_OFF, SETLOCAL], RunnerLines(lines));
    assert lines[0..] == lines;
    for k := 0 to |lines|
      invariant runnerScript + Terminated(RunnerLines(lines[k..])) == Runner(script)
    {
      runnerScript := AppendRunnerLines(runnerScript, lines[k]);
      RunnerGrows(runnerScript[..|runnerScript| - |Terminated(RunnerFor(lines[k]))|], lines, k,
                  Terminated(RunnerFor(lines[k])));
    }
    assert lines[|lines|..] == [];
  }

  /** Runs one command, given what ran before and the error level, and tells the new error level. */
  type Shell = (seq<string>, int, string) -> int

  datatype Batch = Batch(executed: seq<string>, errorLevel: int, exited: bool)

  /** The least error level at which `if errorlevel N exit /b %errorlevel%` leaves the batch file, for one digit. */
  function ExitThreshold(line: string): Option<int> {
    var before, behind := "if errorlevel ", " exit /b %errorlevel%";
    if |line| == |before| + 1 + |behind| && line[..|before|] == before && line[|before| + 1..] == behind
       && '0' <= line[|before|] <= '9'
    then Some(line[|before|] as int - '0' as int) else None
  }

  /** How a batch file takes one of its lines. `call` comes back from the command; what is run without it may be a
      batch file, which does not come back. */
  function ExecuteLine(line: string, b: Batch, shell: Shell): Batch {
    if b.exited || line == "" || line == "@echo off" || line == "setlocal EnableExtensions" then b
    else if ExitThreshold(line).Some? then b.(exited := b.errorLevel >= ExitThreshold(line).value)
    else
      var called := |line| >= 5 && line[..5] == "call ";
      var command := if called then line[5..] else line;
      Batch(b.executed + [command], shell(b.executed, b.errorLevel, command), !called)
  }

  function ExecuteLines(lines: seq<string>, b: Batch, shell: Shell): Batch {
    if lines == [] then b else ExecuteLines(lines[1..], ExecuteLine(lines[0], b, shell), shell)
  }

  /** What the script asks for: its commands in order, up to and including the first that fails. */
  function ExecuteCommands(commands: seq<string>, b: Batch, shell: Shell): Batch {
    if commands == [] || b.exited then b
    else
      var errorLevel := shell(b.executed, b.errorLevel, commands[0]);
      ExecuteCommands(commands[1..], Batch(b.executed + [commands[0]], errorLevel, errorLevel >= 1), shell)
  }

  predicate AllTrimmed(text: string) {
    forall c :: c in text ==> IsTrimmed(c)
  }

  lemma {:induction false} TrimStartIs(text: string) returns (front: string)
    ensures text == front + TrimStart(text) && AllTrimmed(front)
    ensures TrimStart(text) != "" ==> !IsTrimmed(TrimStart(text)[0])
    decreases |text|
  {
    front := "";
    if text != "" && IsTrimmed(text[0]) {
      front := TrimStartIs(text[1..]);
      assert text == [text[0]] + text[1..];
      front := [text[0]] + front;
    }
  }

  lemma {:induction false} TrimEndIs(text: string) returns (back: string)
    ensures text == TrimEnd(text) + back && AllTrimmed(back)
    ensures TrimEnd(text) != "" ==> TrimEnd(text)[0] == text[0] && !IsTrimmed(TrimEnd(text)[|TrimEnd(text)| - 1])
    decreases |text|
  {
    back := "";
    if text != "" && IsTrimmed(text[|text| - 1]) {
      back := TrimEndIs(text[..|text| - 1]);
      assert text == text[..|text| - 1] + [text[|text| - 1]];
      back := back + [text[|text| - 1]];
    }
  }

  /** Trimming takes white space away at both ends, all of it and nothing else. */
  lemma TrimIs(text: string) returns (front: string, back: string)
    ensures text == front + Trim(text) + back && AllTrimmed(front) && AllTrimmed(back)
    ensures Trim(text) != "" ==> !IsTrimmed(Trim(text)[0]) && !IsTrimmed(Trim(text)[|Trim(text)| - 1])
  {
    front := TrimStartIs(text);
    back := TrimEndIs(TrimStart(text));
    AppendAssociative(front, Trim(text), back);
  }

  lemma TrimKeepsNoLf(text: string)
    requires NoLf(text)
    ensures NoLf(Trim(text))
  {
    var front, back := TrimIs(text);
    assert forall c :: c in Trim(text) ==> c in front + Trim(text) + back;
  }

  lemma {:induction false} LinesHaveNoLf(text: string, from: nat)
    requires from <= |text|
    ensures forall line :: line in LinesFrom(text, from) ==> NoLf(line)
    decreases |text| - from
  {
    var end := LineEnd(text, from);
    LineEndIsFirst(text, from);
    if end == |text| {
    } else {
      LinesHaveNoLf(text, end + 1);
      assert forall c :: c in WithoutCr(text[from..end]) ==> c in text[from..end];
    }
  }

  lemma {:induction false} LineEndBehind(before: string, text: string, from: nat)
    requires from <= |text|
    ensures LineEnd(before + text, |before| + from) == |before| + LineEnd(text, from)
    decreases |text| - from
  {
    if from == |text| || text[from] == LF {
    } else {
      LineEndBehind(before, text, from + 1);
    }
  }

  lemma {:induction false} LinesUnfold(text: string, from: nat)
    requires from <= |text|
    ensures var end := LineEnd(text, from);
      LinesFrom(text, from)
        == if end == |text| then [text[from..]] else [WithoutCr(text[from..end])] + LinesFrom(text, end + 1)
  {
  }

  lemma {:induction false} LastLineBehind(before: string, text: string, from: nat)
    requires from <= |text| && LineEnd(text, from) == |text|
    ensures LinesFrom(before + text, |before| + from) == [text[from..]]
  {
    LineEndBehind(before, text, from);
    SliceBehind(before, text, from, |text|);
  }

  lemma {:induction false} FirstLineBehind(before: string, text: string, from: nat)
    requires from <= |text| && LineEnd(text, from) < |text|
    ensures var end := LineEnd(text, from);
      LinesFrom(before + text, |before| + from)
        == [WithoutCr(text[from..end])] + LinesFrom(before + text, |before| + (end + 1))
  {
    LineEndBehind(before, text, from);
    LinesUnfold(before + text, |before| + from);
    SliceBehind(before, text, from, LineEnd(text, from));
  }

  lemma {:induction false} LinesBehind(before: string, text: string, from: nat)
    requires from <= |text|
    ensures LinesFrom(before + text, |before| + from) == LinesFrom(text, from)
    decreases |text| - from
  {
    if LineEnd(text, from) == |text| {
      LastLineBehind(before, text, from);
    } else {
      var end := LineEnd(text, from);
      LinesBehind(before, text, end + 1);
      FirstLineBehind(before, text, from);
      LinesUnfold(text, from);
    }
  }

  lemma CrlfLine(line: string, rest: string)
    requires NoLf(line)
    ensures Lines(line + [CR, LF] + rest) == [line] + Lines(rest)
  {
    var before := line + [CR, LF];
    var text := before + rest;
    var end := |line| + 1;
    LineEndIs(text, 0, end);
    assert text[0..end] == line + [CR];
    assert WithoutCr(line + [CR]) == line;
    LinesBehind(before, rest, 0);
  }

  /** Reading a terminated text gives its lines back, and an empty one behind the last CR LF. */
  lemma {:induction false} LinesOfTerminated(lines: seq<string>)
    requires forall line :: line in lines ==> NoLf(line)
    ensures Lines(Terminated(lines)) == lines + [""]
    decreases |lines|
  {
    if lines == [] {
    } else {
      CrlfLine(lines[0], Terminated(lines[1..]));
      LinesOfTerminated(lines[1..]);
      assert [lines[0]] + (lines[1..] + [""]) == lines + [""];
    }
  }

  lemma FixedLinesHaveNoLf()
    ensures NoLf(ECHO_OFF) && NoLf(SETLOCAL) && NoLf(CHECK) && NoLf(CALL)
  {
  }

  lemma RunnerForHasNoLf(line: string)
    requires NoLf(line)
    ensures forall l :: l in RunnerFor(line) ==> NoLf(l)
  {
    TrimKeepsNoLf(line);
    FixedLinesHaveNoLf();
  }

  lemma {:induction false} RunnerLinesHaveNoLf(lines: seq<string>)
    requires forall line :: line in lines ==> NoLf(line)
    ensures forall l :: l in RunnerLines(lines) ==> NoLf(l)
    decreases |lines|
  {
    if lines == [] {
    } else {
      RunnerForHasNoLf(lines[0]);
      RunnerLinesHaveNoLf(lines[1..]);
    }
  }

  lemma {:induction false} ExecuteAppend(a: seq<string>, b: seq<string>, batch: Batch, shell: Shell)
    ensures ExecuteLines(a + b, batch, shell) == ExecuteLines(b, ExecuteLines(a, batch, shell), shell)
    decreases |a|
  {
    if a == [] {
      assert a + b == b;
    } else {
      assert (a + b)[1..] == a[1..] + b;
      ExecuteAppend(a[1..], b, ExecuteLine(a[0], batch, shell), shell);
    }
  }

  lemma {:induction false} ExitedStays(lines: seq<string>, b: Batch, shell: Shell)
    requires b.exited
    ensures ExecuteLines(lines, b, shell) == b
    decreases |lines|
  {
    if lines == [] {
    } else {
      ExitedStays(lines[1..], b, shell);
    }
  }

  /** The batch file calls the command and then leaves on any error level of 1 or more. */
  lemma CallThenCheck(command: string, b: Batch, shell: Shell)
    requires !b.exited
    ensures ExecuteLine(CALL + command, b, shell)
         == Batch(b.executed + [command], shell(b.executed, b.errorLevel, command), false)
    ensures ExecuteLine(CHECK, b, shell) == b.(exited := b.errorLevel >= 1)
  {
    var line := CALL + command;
    assert line[0] == 'c' && line[..5] == "call " && line[5..] == command;
    assert ("if errorlevel ")[0] == 'i' && ("@echo off")[0] == '@' && ("setlocal EnableExtensions")[0] == 's';
    assert CHECK[0] == 'i' && CHECK[..14] == "if errorlevel " && CHECK[15..] == " exit /b %errorlevel%";
  }

  lemma ExecuteTwo(first: string, second: string, b: Batch, shell: Shell)
    ensures ExecuteLines([first, second], b, shell) == ExecuteLine(second, ExecuteLine(first, b, shell), shell)
  {
    assert [first, second][1..] == [second] && [second][1..] == [];
    assert ExecuteLines([second], ExecuteLine(first, b, shell), shell)
        == ExecuteLines([], ExecuteLine(second, ExecuteLine(first, b, shell), shell), shell);
  }

  /** What one line of the script makes the shell do. */
  function AfterLine(line: string, b: Batch, shell: Shell): Batch {
    var command := Trim(line);
    if command == "" then b
    else
      var errorLevel := shell(b.executed, b.errorLevel, command);
      Batch(b.executed + [command], errorLevel, errorLevel >= 1)
  }

  lemma RunnerForExecutes(line: string, b: Batch, shell: Shell)
    requires !b.exited
    ensures ExecuteLines(RunnerFor(line), b, shell) == AfterLine(line, b, shell)
  {
    if Trim(line) == "" {
      assert [""][1..] == [];
    } else {
      var command := Trim(line);
      CallThenCheck(command, b, shell);
      CallThenCheck(command, ExecuteLine(CALL + command, b, shell), shell);
      ExecuteTwo(CALL + Trim(line), CHECK, b, shell);
    }
  }

  lemma CommandsStep(lines: seq<string>, b: Batch, shell: Shell)
    requires lines != [] && !b.exited
    ensures ExecuteCommands(Commands(lines), b, shell)
         == ExecuteCommands(Commands(lines[1..]), AfterLine(lines[0], b, shell), shell)
  {
    var command := Trim(lines[0]);
    if command == "" {
      assert Commands(lines) == Commands(lines[1..]);
    } else {
      assert Commands(lines)[0] == command && Commands(lines)[1..] == Commands(lines[1..]);
    }
  }

  lemma {:induction false} RunnerLinesExecute(lines: seq<string>, b: Batch, shell: Shell)
    ensures ExecuteLines(RunnerLines(lines), b, shell) == ExecuteCommands(Commands(lines), b, shell)
    decreases |lines|
  {
    if b.exited {
      ExitedStays(RunnerLines(lines), b, shell);
    } else if lines != [] {
      RunnerForExecutes(lines[0], b, shell);
      ExecuteAppend(RunnerFor(lines[0]), RunnerLines(lines[1..]), b, shell);
      CommandsStep(lines, b, shell);
      RunnerLinesExecute(lines[1..], AfterLine(lines[0], b, shell), shell);
    }
  }

  lemma BlankEnd(lines: seq<string>, b: Batch, shell: Shell)
    ensures ExecuteLines(lines + [""], b, shell) == ExecuteLines(lines, b, shell)
  {
    ExecuteAppend(lines, [""], b, shell);
    assert [""][1..] == [];
  }

  /** The runner line by line: echoing off, command extensions on, and the lines of the script in order. */
  lemma LinesOfRunner(script: string)
    ensures Lines(Runner(script))
         == ["@echo off", "setlocal EnableExtensions"] + RunnerLines(Lines(script)) + [""]
  {
    FixedLinesHaveNoLf();
    LinesHaveNoLf(script, 0);
    RunnerLinesHaveNoLf(Lines(script));
    LinesOfTerminated([ECHO_OFF, SETLOCAL] + RunnerLines(Lines(script)));
  }

  /** The Windows runner executes exactly the non-blank trimmed lines of the script, in order, and stops right after
      the first that leaves an error level of 1 or more, with that error level. */
  lemma WindowsRunnerIsFailFast(script: string, b: Batch, shell: Shell)
    ensures ExecuteLines(Lines(Runner(script)), b, shell) == ExecuteCommands(Commands(Lines(script)), b, shell)
  {
    var header, body := [ECHO_OFF, SETLOCAL], RunnerLines(Lines(script));
    LinesOfRunner(script);
    AppendAssociative(header, body, [""]);
    ExecuteTwo(ECHO_OFF, SETLOCAL, b, shell);
    ExecuteAppend(header, body + [""], b, shell);
    RunnerLinesExecute(Lines(script), b, shell);
    BlankEnd(body, b, shell);
  }
}
