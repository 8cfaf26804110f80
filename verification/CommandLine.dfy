/** The launcher's command-line printer, and the parser at the other end: the argument rules of the Microsoft C
    runtime ("Parsing C command-line arguments"). Characters are UTF-16 code units. */
module CommandLine {
  import opened Utf16

  const QUOTE: CodeUnit := 0x22
  const BACKSLASH: CodeUnit := 0x5c
  const TAB: CodeUnit := 0x09
  const NUL: CodeUnit := 0

  /** .NET's `Char.IsWhiteSpace`. */
  predicate IsWhiteSpace(c: CodeUnit) {
    || 0x09 <= c <= 0x0d || c == 0x20 || c == 0x85 || c == 0xa0 || c == 0x1680
    || 0x2000 <= c <= 0x200a || c == 0x2028 || c == 0x2029 || c == 0x202f || c == 0x205f || c == 0x3000
  }

  function Repeat(c: CodeUnit, n: nat): (r: Text)
    ensures |r| == n && forall i :: 0 <= i < n ==> r[i] == c
  {
    seq(n, _ => c)
  }

  // ---- The printer ----

  ghost predicate RequiresQuotes(value: Text) {
    value == [] || exists i :: 0 <= i < |value| && (value[i] == QUOTE || IsWhiteSpace(value[i]))
  }

  /** What the quoting loop still appends when `value` is left and `backslashes` are held back. */
  function QuotedRest(value: Text, backslashes: nat): Text {
    if value == [] then Repeat(BACKSLASH, backslashes * 2) + [QUOTE]
    else if value[0] == BACKSLASH then QuotedRest(value[1..], backslashes + 1)
    else if value[0] == QUOTE then Repeat(BACKSLASH, backslashes * 2 + 1) + [QUOTE] + QuotedRest(value[1..], 0)
    else Repeat(BACKSLASH, backslashes) + [value[0]] + QuotedRest(value[1..], 0)
  }

  ghost function Quoted(value: Text): Text {
    if RequiresQuotes(value) then [QUOTE] + QuotedRest(value, 0) else value
  }

  method QuoteArgument(value: Text) returns (r: Text)
    ensures r == Quoted(value)
  {
    var requiresQuotes := |value| == 0;
    var index := 0;
    while index < |value| && !requiresQuotes
      invariant 0 <= index <= |value|
      invariant requiresQuotes <==>
        |value| == 0 || exists i :: 0 <= i < index && (value[i] == QUOTE || IsWhiteSpace(value[i]))
    {
      requiresQuotes := value[index] == QUOTE || IsWhiteSpace(value[index]);
      index := index + 1;
    }
    if !requiresQuotes {
      return value;
    }
    var quoted: Text := [QUOTE];
    var backslashCount := 0;
    for k := 0 to |value|
      invariant quoted + QuotedRest(value[k..], backslashCount) == [QUOTE] + QuotedRest(value, 0)
    {
      var character := value[k];
      assert value[k..][1..] == value[k + 1..];
      if character == BACKSLASH {
        backslashCount := backslashCount + 1;
        continue;
      }
      ghost var before := quoted;
      if character == QUOTE {
        quoted := quoted + Repeat(BACKSLASH, backslashCount * 2 + 1);
        quoted := quoted + [QUOTE];
      } else {
        quoted := quoted + Repeat(BACKSLASH, backslashCount);
        quoted := quoted + [character];
      }
      assert quoted + QuotedRest(value[k + 1..], 0) == before + QuotedRest(value[k..], backslashCount);
      backslashCount := 0;
    }
    ghost var before := quoted;
    quoted := quoted + Repeat(BACKSLASH, backslashCount * 2);
    quoted := quoted + [QUOTE];
    assert quoted == before + QuotedRest(value[|value|..], backslashCount);
    return quoted;
  }

  ghost function Joined(args: seq<Text>): Text {
    if args == [] then [] else [SPACE] + Quoted(args[0]) + Joined(args[1..])
  }

  ghost function Built(cliPath: Text, args: seq<Text>): Text {
    Quoted(cliPath) + Joined(args)
  }

  lemma {:induction false} QuotingLengthens(value: Text, backslashes: nat)
    ensures |QuotedRest(value, backslashes)| >= |value| + backslashes + 1
    decreases |value|
  {
    if value != [] {
      QuotingLengthens(value[1..], if value[0] == BACKSLASH then backslashes + 1 else 0);
    }
  }

  /** An argument is printed as it is exactly if it is not empty and holds no quote and no white space. */
  lemma PrintedAsIsIff(value: Text)
    ensures Quoted(value) == value <==>
      value != [] && forall i :: 0 <= i < |value| ==> value[i] != QUOTE && !IsWhiteSpace(value[i])
  {
    QuotingLengthens(value, 0);
  }

  lemma {:induction false} JoinedOneMore(args: seq<Text>, arg: Text)
    ensures Joined(args + [arg]) == Joined(args) + [SPACE] + Quoted(arg)
    decreases |args|
  {
    if args == [] {
      assert [arg][1..] == [];
      assert Joined([arg]) == [SPACE] + Quoted(arg);
    } else {
      assert (args + [arg])[1..] == args[1..] + [arg];
      JoinedOneMore(args[1..], arg);
    }
  }

  /** The path, and one space in front of each argument. */
  lemma BuiltIs(cliPath: Text, args: seq<Text>, arg: Text)
    ensures Built(cliPath, []) == Quoted(cliPath)
    ensures Built(cliPath, args + [arg]) == Built(cliPath, args) + [SPACE] + Quoted(arg)
  {
    JoinedOneMore(args, arg);
  }

  method BuildArguments(cliPath: Text, args: seq<Text>) returns (commandLine: Text)
    ensures commandLine == Built(cliPath, args)
  {
    commandLine := QuoteArgument(cliPath);
    for k := 0 to |args|
      invariant commandLine + Joined(args[k..]) == Built(cliPath, args)
    {
      var quoted := QuoteArgument(args[k]);
      assert args[k..][1..] == args[k + 1..];
      assert commandLine + Joined(args[k..]) == commandLine + [SPACE] + quoted + Joined(args[k + 1..]);
      commandLine := commandLine + [SPACE] + quoted;
    }
    assert args[|args|..] == [];
  }

  // ---- The C runtime's parser ----

  predicate IsDelimiter(c: CodeUnit) {
    c == SPACE || c == TAB
  }

  function Backslashes(line: Text): (n: nat)
    ensures n <= |line|
    ensures line[..n] == Repeat(BACKSLASH, n)
    ensures n < |line| ==> line[n] != BACKSLASH
  {
    if line == [] || line[0] != BACKSLASH then 0 else 1 + Backslashes(line[1..])
  }

  /** One argument and what is left of the line. 2n backslashes before a quote stand for n, and the quote opens or
      closes; 2n + 1 stand for n and a literal quote; other backslashes stand for themselves. A quote doubled
      inside a quoted part is a literal quote. */
  function ScanArgument(line: Text, inQuotes: bool): (r: (Text, Text))
    ensures |r.1| <= |line|
    ensures line != [] && !IsDelimiter(line[0]) ==> |r.1| < |line|
    decreases |line|, 1
  {
    ScanBehind(Backslashes(line), line[Backslashes(line)..], inQuotes)
  }

  /** `rest` follows n backslashes. */
  function ScanBehind(n: nat, rest: Text, inQuotes: bool): (r: (Text, Text))
    requires rest == [] || rest[0] != BACKSLASH
    ensures |r.1| <= |rest|
    ensures rest != [] && !IsDelimiter(rest[0]) ==> |r.1| < |rest|
    decreases |rest|, 0
  {
    if rest == [] then (Repeat(BACKSLASH, n), [])
    else if rest[0] == QUOTE then
      if n % 2 == 1 then
        var (argument, tail) := ScanArgument(rest[1..], inQuotes);
        (Repeat(BACKSLASH, n / 2) + [QUOTE] + argument, tail)
      else if inQuotes && |rest| > 1 && rest[1] == QUOTE then
        var (argument, tail) := ScanArgument(rest[2..], inQuotes);
        (Repeat(BACKSLASH, n / 2) + [QUOTE] + argument, tail)
      else
        var (argument, tail) := ScanArgument(rest[1..], !inQuotes);
        (Repeat(BACKSLASH, n / 2) + argument, tail)
    else if !inQuotes && IsDelimiter(rest[0]) then (Repeat(BACKSLASH, n), rest)
    else
      var (argument, tail) := ScanArgument(rest[1..], inQuotes);
      (Repeat(BACKSLASH, n) + [rest[0]] + argument, tail)
  }

  function SplitArguments(line: Text): seq<Text>
    decreases |line|
  {
    if line == [] then []
    else if IsDelimiter(line[0]) then SplitArguments(line[1..])
    else
      var (argument, tail) := ScanArgument(line, false);
      [argument] + SplitArguments(tail)
  }

  /** The runtime sees a NUL-terminated string. */
  function UpToNul(line: Text): Text {
    if line == [] || line[0] == NUL then [] else [line[0]] + UpToNul(line[1..])
  }

  function ParseCommandLine(line: Text): seq<Text> {
    SplitArguments(UpToNul(line))
  }

  // ---- Printing, then parsing ----

  /** The end of the line, or the blank before the next argument. */
  ghost predicate Boundary(tail: Text) {
    tail == [] || IsDelimiter(tail[0])
  }

  lemma {:induction false} BackslashesOf(n: nat, rest: Text)
    requires rest == [] || rest[0] != BACKSLASH
    ensures Backslashes(Repeat(BACKSLASH, n) + rest) == n
    ensures (Repeat(BACKSLASH, n) + rest)[n..] == rest
  {
    var line := Repeat(BACKSLASH, n) + rest;
    if n == 0 {
      assert line == rest;
    } else {
      assert line[1..] == Repeat(BACKSLASH, n - 1) + rest;
      BackslashesOf(n - 1, rest);
    }
  }

  lemma ScanIsScanBehind(n: nat, rest: Text, inQuotes: bool)
    requires rest == [] || rest[0] != BACKSLASH
    ensures ScanArgument(Repeat(BACKSLASH, n) + rest, inQuotes) == ScanBehind(n, rest, inQuotes)
  {
    BackslashesOf(n, rest);
  }

  lemma ScanAtBoundary(tail: Text)
    requires Boundary(tail)
    ensures ScanArgument(tail, false) == ([], tail)
  {
    ScanIsScanBehind(0, tail, false);
    assert Repeat(BACKSLASH, 0) + tail == tail;
  }

  lemma ScanClosing(backslashes: nat, tail: Text)
    requires Boundary(tail)
    ensures ScanArgument(QuotedRest([], backslashes) + tail, true) == (Repeat(BACKSLASH, backslashes), tail)
  {
    var rest := [QUOTE] + tail;
    assert QuotedRest([], backslashes) + tail == Repeat(BACKSLASH, backslashes * 2) + rest;
    ScanIsScanBehind(backslashes * 2, rest, true);
    assert rest[1..] == tail;
    ScanAtBoundary(tail);
    assert Repeat(BACKSLASH, backslashes) + [] == Repeat(BACKSLASH, backslashes);
  }

  lemma ScanCharacter(c: CodeUnit, backslashes: nat, inner: Text, scanned: (Text, Text))
    requires c != BACKSLASH && scanned == ScanArgument(inner, true)
    ensures var n := if c == QUOTE then backslashes * 2 + 1 else backslashes;
      ScanArgument(Repeat(BACKSLASH, n) + ([c] + inner), true)
        == (Repeat(BACKSLASH, backslashes) + [c] + scanned.0, scanned.1)
  {
    var n := if c == QUOTE then backslashes * 2 + 1 else backslashes;
    var rest := [c] + inner;
    ScanIsScanBehind(n, rest, true);
    assert rest[1..] == inner;
  }

  lemma HoldBackOne(value: Text, backslashes: nat)
    requires value != [] && value[0] == BACKSLASH
    ensures Repeat(BACKSLASH, backslashes + 1) + value[1..] == Repeat(BACKSLASH, backslashes) + value
  {
  }

  lemma HoldBackNone(value: Text, backslashes: nat)
    requires value != []
    ensures Repeat(BACKSLASH, backslashes) + [value[0]] + (Repeat(BACKSLASH, 0) + value[1..])
         == Repeat(BACKSLASH, backslashes) + value
  {
  }

  lemma Reassociate(a: Text, b: Text, c: Text, d: Text)
    ensures a + b + c + d == a + (b + (c + d))
  {
  }

  /** What is appended for a character that is no backslash. */
  lemma {:induction false} QuotedCharacter(value: Text, backslashes: nat, tail: Text)
    requires value != [] && value[0] != BACKSLASH
    ensures var n := if value[0] == QUOTE then backslashes * 2 + 1 else backslashes;
      QuotedRest(value, backslashes) + tail
        == Repeat(BACKSLASH, n) + ([value[0]] + (QuotedRest(value[1..], 0) + tail))
  {
    var n := if value[0] == QUOTE then backslashes * 2 + 1 else backslashes;
    assert QuotedRest(value, backslashes) == Repeat(BACKSLASH, n) + [value[0]] + QuotedRest(value[1..], 0);
    Reassociate(Repeat(BACKSLASH, n), [value[0]], QuotedRest(value[1..], 0), tail);
  }

  lemma {:induction false} ScanQuoted(value: Text, backslashes: nat, tail: Text)
    requires Boundary(tail)
    ensures ScanArgument(QuotedRest(value, backslashes) + tail, true) == (Repeat(BACKSLASH, backslashes) + value, tail)
    decreases |value|
  {
    if value == [] {
      ScanClosing(backslashes, tail);
      assert Repeat(BACKSLASH, backslashes) + value == Repeat(BACKSLASH, backslashes);
    } else if value[0] == BACKSLASH {
      ScanQuoted(value[1..], backslashes + 1, tail);
      HoldBackOne(value, backslashes);
    } else {
      ScanQuoted(value[1..], 0, tail);
      QuotedCharacter(value, backslashes, tail);
      ScanCharacter(value[0], backslashes, QuotedRest(value[1..], 0) + tail, (Repeat(BACKSLASH, 0) + value[1..], tail));
      HoldBackNone(value, backslashes);
    }
  }

  lemma FirstBehind(before: Text, rest: Text)
    requires rest != []
    ensures before + [rest[0]] + rest[1..] == before + rest
  {
  }

  lemma {:induction false} ScanBehindPlain(n: nat, line: Text, argument: Text, tail: Text)
    requires line != [] && line[0] != BACKSLASH && line[0] != QUOTE && !IsDelimiter(line[0])
    requires ScanArgument(line[1..], false) == (argument, tail)
    ensures ScanBehind(n, line, false) == (Repeat(BACKSLASH, n) + [line[0]] + argument, tail)
  {
  }

  lemma {:induction false} ScanPlainCharacter(n: nat, rest: Text, tail: Text)
    requires rest != [] && rest[0] != BACKSLASH && rest[0] != QUOTE && !IsDelimiter(rest[0])
    requires ScanArgument(rest[1..] + tail, false) == (rest[1..], tail)
    ensures ScanBehind(n, rest + tail, false) == (Repeat(BACKSLASH, n) + rest, tail)
  {
    assert (rest + tail)[1..] == rest[1..] + tail;
    ScanBehindPlain(n, rest + tail, rest[1..], tail);
    FirstBehind(Repeat(BACKSLASH, n), rest);
  }

  lemma BackslashesFirst(value: Text, tail: Text)
    ensures var n := Backslashes(value);
      && value == Repeat(BACKSLASH, n) + value[n..]
      && value + tail == Repeat(BACKSLASH, n) + (value[n..] + tail)
  {
  }

  ghost predicate Unquoted(value: Text) {
    forall i :: 0 <= i < |value| ==> value[i] != QUOTE && !IsDelimiter(value[i])
  }

  lemma {:induction false} SkipBackslashes(value: Text, tail: Text) returns (n: nat, rest: Text)
    requires Unquoted(value)
    ensures value == Repeat(BACKSLASH, n) + rest && Unquoted(rest)
    ensures rest == [] || rest[0] != BACKSLASH
    ensures ScanArgument(value + tail, false) == ScanArgument(Repeat(BACKSLASH, n) + (rest + tail), false)
  {
    n := Backslashes(value);
    rest := value[n..];
    BackslashesFirst(value, tail);
  }

  lemma {:induction false} ScanPlain(value: Text, tail: Text)
    requires Boundary(tail)
    requires Unquoted(value)
    ensures ScanArgument(value + tail, false) == (value, tail)
    decreases |value|
  {
    var n, rest := SkipBackslashes(value, tail);
    if rest == [] {
      assert rest + tail == tail;
      assert Repeat(BACKSLASH, n) == value;
      ScanIsScanBehind(n, tail, false);
    } else {
      ScanIsScanBehind(n, rest + tail, false);
      assert Unquoted(rest[1..]);
      ScanPlain(rest[1..], tail);
      ScanPlainCharacter(n, rest, tail);
    }
  }

  lemma ScanOpening(inner: Text)
    ensures ScanArgument([QUOTE] + inner, false) == ScanArgument(inner, true)
  {
    var line := [QUOTE] + inner;
    ScanIsScanBehind(0, line, false);
    assert Repeat(BACKSLASH, 0) + line == line && line[1..] == inner;
    assert Repeat(BACKSLASH, 0) + ScanArgument(inner, true).0 == ScanArgument(inner, true).0;
  }

  /** Whatever was printed for an argument, scanning gives the argument back and stops right behind it. */
  lemma ScanOfQuoted(value: Text, tail: Text)
    requires Boundary(tail)
    ensures ScanArgument(Quoted(value) + tail, false) == (value, tail)
    ensures Quoted(value) != [] && !IsDelimiter(Quoted(value)[0])
  {
    if RequiresQuotes(value) {
      assert Quoted(value) + tail == [QUOTE] + (QuotedRest(value, 0) + tail);
      ScanOpening(QuotedRest(value, 0) + tail);
      ScanQuoted(value, 0, tail);
      assert Repeat(BACKSLASH, 0) + value == value;
    } else {
      ScanPlain(value, tail);
    }
  }

  lemma {:induction false} SplitJoined(args: seq<Text>)
    ensures SplitArguments(Joined(args)) == args
    ensures Boundary(Joined(args))
    decreases |args|
  {
    if args == [] {
    } else {
      var tail := Joined(args[1..]);
      var line := Quoted(args[0]) + tail;
      assert Joined(args) == [SPACE] + line;
      assert Joined(args)[1..] == line;
      SplitJoined(args[1..]);
      ScanOfQuoted(args[0], tail);
      assert [args[0]] + args[1..] == args;
    }
  }

  lemma SplitOfBuilt(cliPath: Text, args: seq<Text>)
    ensures SplitArguments(Built(cliPath, args)) == [cliPath] + args
  {
    SplitJoined(args);
    ScanOfQuoted(cliPath, Joined(args));
  }

  // ---- NUL, the one code unit a command line cannot carry ----

  ghost predicate Free(text: Text) {
    NUL !in text
  }

  lemma {:induction false} UpToNulIsFree(line: Text)
    ensures Free(UpToNul(line))
    ensures Free(line) ==> UpToNul(line) == line
    decreases |line|
  {
    if line == [] || line[0] == NUL {
    } else {
      assert line == [line[0]] + line[1..];
      UpToNulIsFree(line[1..]);
    }
  }

  lemma {:induction false} ScanKeepsFree(line: Text, inQuotes: bool)
    requires Free(line)
    ensures Free(ScanArgument(line, inQuotes).0) && Free(ScanArgument(line, inQuotes).1)
    decreases |line|
  {
    var rest := line[Backslashes(line)..];
    if rest == [] {
    } else {
      if rest[0] == QUOTE && Backslashes(line) % 2 == 0 && inQuotes && |rest| > 1 && rest[1] == QUOTE {
        ScanKeepsFree(rest[2..], inQuotes);
      } else {
        ScanKeepsFree(rest[1..], inQuotes);
        ScanKeepsFree(rest[1..], !inQuotes);
      }
    }
  }

  lemma {:induction false} SplitKeepsFree(line: Text)
    requires Free(line)
    ensures forall argument :: argument in SplitArguments(line) ==> Free(argument)
    decreases |line|
  {
    if line == [] {
    } else {
      if IsDelimiter(line[0]) {
        SplitKeepsFree(line[1..]);
      } else {
        ScanKeepsFree(line, false);
        SplitKeepsFree(ScanArgument(line, false).1);
      }
    }
  }

  lemma {:induction false} QuotedRestFree(value: Text, backslashes: nat)
    requires Free(value)
    ensures Free(QuotedRest(value, backslashes))
    decreases |value|
  {
    if value == [] {
    } else {
      QuotedRestFree(value[1..], if value[0] == BACKSLASH then backslashes + 1 else 0);
    }
  }

  lemma {:induction false} JoinedFree(args: seq<Text>)
    requires forall argument :: argument in args ==> Free(argument)
    ensures Free(Joined(args))
    decreases |args|
  {
    if args == [] {
    } else {
      assert args[0] in args;
      QuotedRestFree(args[0], 0);
      JoinedFree(args[1..]);
    }
  }

  /** The child receives exactly the path and the arguments, whatever blanks, quotes and backslashes they hold; the
      only exception is a NUL, which ends a command line. */
  lemma ArgumentsRoundTrip(cliPath: Text, args: seq<Text>)
    ensures ParseCommandLine(Built(cliPath, args)) == [cliPath] + args
        <==> (forall argument :: argument in [cliPath] + args ==> Free(argument))
  {
    var all := [cliPath] + args;
    var line := Built(cliPath, args);
    if forall argument :: argument in all ==> Free(argument) {
      assert all[0] in all;
      forall argument | argument in args
        ensures Free(argument)
      {
        assert argument in all;
      }
      QuotedRestFree(cliPath, 0);
      JoinedFree(args);
      UpToNulIsFree(line);
      SplitOfBuilt(cliPath, args);
    }
    UpToNulIsFree(line);
    SplitKeepsFree(UpToNul(line));
  }
}
