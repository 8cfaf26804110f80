/** Command-line parsing of the CLI, and the reading side of repeated flags. */
module CliArgs {
  import opened Common

  datatype FlagValue = On | Text(text: string)

  type Flags = map<string, FlagValue>

  datatype Parsed = Parsed(commandPath: seq<string>, flags: Flags)

  const BOOLEAN_FLAGS: set<string> := {
    "all", "attachments", "children", "comments", "connect", "current", "dry-run", "enter", "focus", "force", "full",
    "help", "inject", "include-archived", "interrupt", "json", "messages", "me", "mobile", "mobile-pairing",
    "no-pairing", "parent-current", "provision", "ready", "recipe-json", "relations", "reinstall", "restore-window",
    "return-preamble", "run-hooks", "show-profile", "staged", "tab", "tasks", "text-stdin", "unread", "value-stdin",
    "wait"
  }

  const SEPARATOR: char := '\0'
  const REPEATABLE := "label"

  predicate IsFlag(token: string) {
    |token| >= 2 && token[0] == '-' && token[1] == '-'
  }

  /** Where the first '=' is, or the length. */
  function EqualsIndex(text: string): (n: nat)
    ensures n <= |text| && '=' !in text[..n] && (n < |text| ==> text[n] == '=')
  {
    if text == "" || text[0] == '=' then 0 else 1 + EqualsIndex(text[1..])
  }

  function SetFlagValue(flags: Flags, name: string, value: string): Flags {
    if name in flags && flags[name].Text? && name == REPEATABLE then
      flags[name := Text(flags[name].text + [SEPARATOR] + value)]
    else flags[name := Text(value)]
  }

  /** The first token at or behind `cursor` that is neither a flag nor a flag's separate value. */
  function SkipFlags(argv: seq<string>, cursor: nat): (next: nat)
    ensures cursor <= next
    decreases |argv| - cursor
  {
    if cursor < |argv| && IsFlag(argv[cursor]) then
      var assignment := argv[cursor][2..];
      var n := EqualsIndex(assignment);
      SkipFlags(argv, cursor + if n < |assignment| || assignment[..n] in BOOLEAN_FLAGS then 1 else 2)
    else cursor
  }

  function PathStartsAt(argv: seq<string>, cursor: nat, path: seq<string>): bool
    decreases |path|
  {
    path == [] ||
    var next := SkipFlags(argv, cursor);
    next < |argv| && argv[next] == path[0] && PathStartsAt(argv, next + 1, path[1..])
  }

  method CommandPathStartsAt(argv: seq<string>, tokenIndex: nat, path: seq<string>) returns (starts: bool)
    ensures starts == PathStartsAt(argv, tokenIndex, path)
  {
    var cursor: nat := tokenIndex;
    for k := 0 to |path|
      invariant PathStartsAt(argv, cursor, path[k..]) == PathStartsAt(argv, tokenIndex, path)
    {
      ghost var from: nat := cursor;
      while cursor < |argv| && IsFlag(argv[cursor])
        invariant SkipFlags(argv, cursor) == SkipFlags(argv, from)
        decreases |argv| - cursor
      {
        var assignment := argv[cursor][2..];
        var n := EqualsIndex(assignment);
        var flag := assignment[..n];
        cursor := cursor + if n < |assignment| || flag in BOOLEAN_FLAGS then 1 else 2;
      }
      assert path[k..][1..] == path[k + 1..];
      if cursor >= |argv| || argv[cursor] != path[k] {
        return false;
      }
      cursor := cursor + 1;
    }
    return true;
  }

  function AnyPathStartsAt(argv: seq<string>, index: nat, commandPaths: Option<seq<seq<string>>>): bool {
    commandPaths.Some? && exists k :: 0 <= k < |commandPaths.value| && PathStartsAt(argv, index, commandPaths.value[k])
  }

  /** What one token does: the new result, and how many tokens it uses up. */
  function ParseToken(argv: seq<string>, i: nat, p: Parsed, commandPaths: Option<seq<seq<string>>>): (Parsed, nat)
    requires i < |argv|
  {
    var token := argv[i];
    if !IsFlag(token) then (p.(commandPath := p.commandPath + [token]), 1)
    else
      var assignment := token[2..];
      var n := EqualsIndex(assignment);
      if n < |assignment| then (p.(flags := SetFlagValue(p.flags, assignment[..n], assignment[n + 1..])), 1)
      else if assignment in BOOLEAN_FLAGS then (p.(flags := p.flags[assignment := On]), 1)
      else if p.commandPath == []
              && AnyPathStartsAt(argv, i + 1, commandPaths) && !AnyPathStartsAt(argv, i + 2, commandPaths)
      then (p.(flags := p.flags[assignment := On]), 1)
      else if i + 1 >= |argv| || IsFlag(argv[i + 1]) then (p.(flags := p.flags[assignment := On]), 1)
      else (p.(flags := SetFlagValue(p.flags, assignment, argv[i + 1])), 2)
  }

  function ParseFrom(argv: seq<string>, i: nat, p: Parsed, commandPaths: Option<seq<seq<string>>>): Parsed
    decreases |argv| - i
  {
    if i >= |argv| then p
    else
      var (q, used) := ParseToken(argv, i, p, commandPaths);
      ParseFrom(argv, i + used, q, commandPaths)
  }

  method StartsCommandAt(argv: seq<string>, tokenIndex: nat, commandPaths: Option<seq<seq<string>>>)
    returns (starts: bool)
    ensures starts == AnyPathStartsAt(argv, tokenIndex, commandPaths)
  {
    if commandPaths.None? {
      return false;
    }
    for k := 0 to |commandPaths.value|
      invariant forall h :: 0 <= h < k ==> !PathStartsAt(argv, tokenIndex, commandPaths.value[h])
    {
      starts := CommandPathStartsAt(argv, tokenIndex, commandPaths.value[k]);
      if starts {
        return;
      }
    }
    return false;
  }

  method ParseArgs(argv: seq<string>, commandPaths: Option<seq<seq<string>>>) returns (parsed: Parsed)
    ensures parsed == ParseFrom(argv, 0, Parsed([], map[]), commandPaths)
  {
    var commandPath, flags: Flags := [], map[];
    var i := 0;
    while i < |argv|
      invariant ParseFrom(argv, i, Parsed(commandPath, flags), commandPaths)
             == ParseFrom(argv, 0, Parsed([], map[]), commandPaths)
      decreases |argv| - i
    {
      var token := argv[i];
      if !IsFlag(token) {
        commandPath := commandPath + [token];
        i := i + 1;
        continue;
      }
      var assignment := token[2..];
      var equalsIndex := EqualsIndex(assignment);
      if equalsIndex < |assignment| {
        flags := SetFlagValue(flags, assignment[..equalsIndex], assignment[equalsIndex + 1..]);
        i := i + 1;
        continue;
      }
      var flag := assignment;
      if flag in BOOLEAN_FLAGS {
        flags := flags[flag := On];
        i := i + 1;
        continue;
      }
      if |commandPath| == 0 {
        var here := StartsCommandAt(argv, i + 1, commandPaths);
        var behind := StartsCommandAt(argv, i + 2, commandPaths);
        if here && !behind {
          flags := flags[flag := On];
          i := i + 1;
          continue;
        }
      }
      if i + 1 >= |argv| || IsFlag(argv[i + 1]) {
        flags := flags[flag := On];
        i := i + 1;
        continue;
      }
      flags := SetFlagValue(flags, flag, argv[i + 1]);
      i := i + 2;
    }
    return Parsed(commandPath, flags);
  }

  // ---- Writing arguments down, and parsing them back ----

  /** A command word, `--name=value`, a boolean flag, `--name value`, or another flag without a value. */
  datatype Item =
    | Word(word: string)
    | Assigned(name: string, value: string)
    | Switch(name: string)
    | Spaced(name: string, value: string)
    | Bare(name: string)

  function Tokens(item: Item): seq<string> {
    match item
    case Word(word) => [word]
    case Assigned(name, value) => ["--" + name + "=" + value]
    case Switch(name) => ["--" + name]
    case Spaced(name, value) => ["--" + name, value]
    case Bare(name) => ["--" + name]
  }

  function Argv(items: seq<Item>): seq<string> {
    if items == [] then [] else Tokens(items[0]) + Argv(items[1..])
  }

  /** At `i` stands a flag that is not boolean: the next token is its value, unless it is missing or a flag itself, or a
      command that is still to come starts there and not behind it. */
  predicate TakesNext(argv: seq<string>, i: nat, wordBefore: bool, commandPaths: Option<seq<seq<string>>>) {
    && i + 1 < |argv| && !IsFlag(argv[i + 1])
    && !(!wordBefore && AnyPathStartsAt(argv, i + 1, commandPaths) && !AnyPathStartsAt(argv, i + 2, commandPaths))
  }

  /** The item, written down at `i`, is read as what it is. */
  predicate Writable(item: Item, argv: seq<string>, i: nat, wordBefore: bool, commandPaths: Option<seq<seq<string>>>) {
    match item
    case Word(word) => !IsFlag(word)
    case Assigned(name, _) => '=' !in name
    case Switch(name) => name in BOOLEAN_FLAGS
    case Spaced(name, _) => '=' !in name && name !in BOOLEAN_FLAGS && TakesNext(argv, i, wordBefore, commandPaths)
    case Bare(name) => '=' !in name && name !in BOOLEAN_FLAGS && !TakesNext(argv, i, wordBefore, commandPaths)
  }

  /** All items, written down from `i` on. */
  predicate AllWritable(argv: seq<string>, i: nat, items: seq<Item>, wordBefore: bool,
                        commandPaths: Option<seq<seq<string>>>)
    decreases |items|
  {
    items == [] ||
    (Writable(items[0], argv, i, wordBefore, commandPaths)
     && AllWritable(argv, i + |Tokens(items[0])|, items[1..], wordBefore || items[0].Word?, commandPaths))
  }

  /** What one item means, on top of what was said before. */
  function Apply(item: Item, p: Parsed): Parsed {
    match item
    case Word(word) => p.(commandPath := p.commandPath + [word])
    case Assigned(name, value) => p.(flags := SetFlagValue(p.flags, name, value))
    case Switch(name) => p.(flags := p.flags[name := On])
    case Spaced(name, value) => p.(flags := SetFlagValue(p.flags, name, value))
    case Bare(name) => p.(flags := p.flags[name := On])
  }

  function Meaning(items: seq<Item>, p: Parsed): Parsed {
    if items == [] then p else Meaning(items[1..], Apply(items[0], p))
  }

  lemma {:induction false} EqualsIndexIs(name: string, rest: string)
    requires '=' !in name && (rest == "" || rest[0] == '=')
    ensures EqualsIndex(name + rest) == |name|
    decreases |name|
  {
    if name == "" {
      assert name + rest == rest;
    } else {
      assert (name + rest)[1..] == name[1..] + rest;
      EqualsIndexIs(name[1..], rest);
    }
  }

  lemma SwitchesHaveNoEquals(name: string)
    requires name in BOOLEAN_FLAGS
    ensures '=' !in name
  {
  }

  lemma FlagToken(name: string, rest: string)
    requires '=' !in name && (rest == "" || rest[0] == '=')
    ensures var token := "--" + name + rest;
      && IsFlag(token)
      && EqualsIndex(token[2..]) == |name| && token[2..] == name + rest
      && token[2..][..|name|] == name && token[2..][|name|..] == rest
  {
    var token := "--" + name + rest;
    assert token[2..] == name + rest;
    EqualsIndexIs(name, rest);
  }

  lemma ParseWord(argv: seq<string>, i: nat, word: string, p: Parsed, commandPaths: Option<seq<seq<string>>>)
    requires i < |argv| && argv[i] == word && !IsFlag(word)
    ensures ParseToken(argv, i, p, commandPaths) == (Apply(Word(word), p), 1)
  {
  }

  lemma ParseAssigned(argv: seq<string>, i: nat, name: string, value: string, p: Parsed,
                      commandPaths: Option<seq<seq<string>>>)
    requires i < |argv| && argv[i] == "--" + name + "=" + value && '=' !in name
    ensures ParseToken(argv, i, p, commandPaths) == (Apply(Assigned(name, value), p), 1)
  {
    FlagToken(name, "=" + value);
    assert argv[i] == "--" + name + ("=" + value);
    assert argv[i][2..][|name| + 1..] == argv[i][2..][|name|..][1..] == value;
  }

  lemma BareToken(token: string, name: string)
    requires token == "--" + name && '=' !in name
    ensures IsFlag(token) && token[2..] == name && EqualsIndex(token[2..]) == |name|
  {
    FlagToken(name, "");
    assert "--" + name + "" == token;
  }

  lemma ParseSwitch(argv: seq<string>, i: nat, name: string, p: Parsed, commandPaths: Option<seq<seq<string>>>)
    requires i < |argv| && argv[i] == "--" + name && name in BOOLEAN_FLAGS
    ensures ParseToken(argv, i, p, commandPaths) == (Apply(Switch(name), p), 1)
  {
    SwitchesHaveNoEquals(name);
    BareToken(argv[i], name);
  }

  lemma ParseSpaced(argv: seq<string>, i: nat, name: string, value: string, p: Parsed,
                    commandPaths: Option<seq<seq<string>>>)
    requires i + 1 < |argv| && argv[i] == "--" + name && argv[i + 1] == value
    requires '=' !in name && name !in BOOLEAN_FLAGS && TakesNext(argv, i, p.commandPath != [], commandPaths)
    ensures ParseToken(argv, i, p, commandPaths) == (Apply(Spaced(name, value), p), 2)
  {
    BareToken(argv[i], name);
  }

  lemma ParseBare(argv: seq<string>, i: nat, name: string, p: Parsed, commandPaths: Option<seq<seq<string>>>)
    requires i < |argv| && argv[i] == "--" + name && '=' !in name && name !in BOOLEAN_FLAGS
    requires !TakesNext(argv, i, p.commandPath != [], commandPaths)
    ensures ParseToken(argv, i, p, commandPaths) == (Apply(Bare(name), p), 1)
  {
    BareToken(argv[i], name);
  }

  /** Parsing undoes writing, item by item. */
  lemma ParseItem(argv: seq<string>, i: nat, item: Item, p: Parsed, commandPaths: Option<seq<seq<string>>>)
    requires i + |Tokens(item)| <= |argv| && argv[i..i + |Tokens(item)|] == Tokens(item)
    requires Writable(item, argv, i, p.commandPath != [], commandPaths)
    ensures ParseToken(argv, i, p, commandPaths) == (Apply(item, p), |Tokens(item)|)
  {
    assert argv[i] == argv[i..i + |Tokens(item)|][0];
    match item {
      case Word(word) => ParseWord(argv, i, word, p, commandPaths);
      case Assigned(name, value) => ParseAssigned(argv, i, name, value, p, commandPaths);
      case Switch(name) => ParseSwitch(argv, i, name, p, commandPaths);
      case Spaced(name, value) =>
        assert argv[i + 1] == argv[i..i + 2][1];
        ParseSpaced(argv, i, name, value, p, commandPaths);
      case Bare(name) => ParseBare(argv, i, name, p, commandPaths);
    }
  }

  lemma {:induction false} ParseFromStep(argv: seq<string>, i: nat, p: Parsed, commandPaths: Option<seq<seq<string>>>)
    requires i < |argv|
    ensures var (q, used) := ParseToken(argv, i, p, commandPaths);
      ParseFrom(argv, i, p, commandPaths) == ParseFrom(argv, i + used, q, commandPaths)
  {
  }

  lemma ParseItemFrom(argv: seq<string>, i: nat, next: nat, item: Item, p: Parsed,
                      commandPaths: Option<seq<seq<string>>>)
    requires next == i + |Tokens(item)| <= |argv| && argv[i..next] == Tokens(item)
    requires Writable(item, argv, i, p.commandPath != [], commandPaths)
    ensures ParseFrom(argv, i, p, commandPaths) == ParseFrom(argv, next, Apply(item, p), commandPaths)
  {
    ParseItem(argv, i, item, p, commandPaths);
    ParseFromStep(argv, i, p, commandPaths);
  }

  lemma {:induction false} NextTokens(argv: seq<string>, i: nat, items: seq<Item>) returns (next: nat)
    requires i <= |argv| && items != [] && argv[i..] == Argv(items)
    ensures next == i + |Tokens(items[0])| <= |argv| && argv[i..next] == Tokens(items[0])
    ensures argv[next..] == Argv(items[1..])
  {
    next := i + |Tokens(items[0])|;
    SplitBehind(argv, i, Tokens(items[0]), Argv(items[1..]));
  }

  lemma WordBehind(item: Item, p: Parsed)
    ensures Apply(item, p).commandPath != [] <==> p.commandPath != [] || item.Word?
  {
  }

  lemma {:induction false} NextWritable(argv: seq<string>, i: nat, items: seq<Item>, p: Parsed,
                                        commandPaths: Option<seq<seq<string>>>)
    requires items != [] && AllWritable(argv, i, items, p.commandPath != [], commandPaths)
    ensures Writable(items[0], argv, i, p.commandPath != [], commandPaths)
    ensures AllWritable(argv, i + |Tokens(items[0])|, items[1..], Apply(items[0], p).commandPath != [], commandPaths)
  {
    WordBehind(items[0], p);
  }

  /** One item further, parsing and meaning are still to agree. */
  lemma {:induction false} ParseNext(argv: seq<string>, i: nat, items: seq<Item>, p: Parsed,
                                     commandPaths: Option<seq<seq<string>>>)
    returns (next: nat, rest: seq<Item>, q: Parsed)
    requires i <= |argv| && items != [] && argv[i..] == Argv(items)
    requires AllWritable(argv, i, items, p.commandPath != [], commandPaths)
    ensures next <= |argv| && argv[next..] == Argv(rest) && |rest| < |items|
    ensures AllWritable(argv, next, rest, q.commandPath != [], commandPaths)
    ensures ParseFrom(argv, i, p, commandPaths) == ParseFrom(argv, next, q, commandPaths)
    ensures Meaning(items, p) == Meaning(rest, q)
  {
    next := NextTokens(argv, i, items);
    rest, q := items[1..], Apply(items[0], p);
    NextWritable(argv, i, items, p, commandPaths);
    ParseItemFrom(argv, i, next, items[0], p, commandPaths);
  }

  lemma {:induction false} ParseFromEnd(argv: seq<string>, i: nat, p: Parsed, commandPaths: Option<seq<seq<string>>>)
    requires i <= |argv| && argv[i..] == []
    ensures ParseFrom(argv, i, p, commandPaths) == p
  {
  }

  lemma {:induction false} ParseFromArgv(argv: seq<string>, i: nat, items: seq<Item>, p: Parsed,
                                         commandPaths: Option<seq<seq<string>>>)
    requires i <= |argv| && argv[i..] == Argv(items)
    requires AllWritable(argv, i, items, p.commandPath != [], commandPaths)
    ensures ParseFrom(argv, i, p, commandPaths) == Meaning(items, p)
    decreases |items|
  {
    if items == [] {
      ParseFromEnd(argv, i, p, commandPaths);
    } else {
      var next, rest, q := ParseNext(argv, i, items, p, commandPaths);
      ParseFromArgv(argv, next, rest, q, commandPaths);
    }
  }

  /** Any interleaving of writable items parses back to exactly what it means. */
  lemma ParseRoundTrip(items: seq<Item>, commandPaths: Option<seq<seq<string>>>)
    requires AllWritable(Argv(items), 0, items, false, commandPaths)
    ensures ParseFrom(Argv(items), 0, Parsed([], map[]), commandPaths) == Meaning(items, Parsed([], map[]))
  {
    ParseFromArgv(Argv(items), 0, items, Parsed([], map[]), commandPaths);
  }

  // ---- A flag before the command ----

  lemma {:induction false} WordsStartAt(argv: seq<string>, i: nat, words: seq<string>)
    requires i <= |argv| && words <= argv[i..]
    requires forall word :: word in words ==> !IsFlag(word)
    ensures PathStartsAt(argv, i, words)
    decreases |words|
  {
    if words == [] {
    } else {
      assert argv[i] == argv[i..][0] == words[0] && words[0] in words;
      assert argv[i + 1..] == argv[i..][1..];
      WordsStartAt(argv, i + 1, words[1..]);
    }
  }

  lemma {:induction false} WordsParse(argv: seq<string>, i: nat, j: nat, p: Parsed,
                                      commandPaths: Option<seq<seq<string>>>)
    requires i <= j <= |argv| && forall k :: i <= k < j ==> !IsFlag(argv[k])
    ensures ParseFrom(argv, i, p, commandPaths)
         == ParseFrom(argv, j, p.(commandPath := p.commandPath + argv[i..j]), commandPaths)
    decreases j - i
  {
    if i == j {
      WholeSlices(p.commandPath, |p.commandPath|);
      assert argv[i..j] == [];
    } else {
      var q := p.(commandPath := p.commandPath + [argv[i]]);
      ParseFromStep(argv, i, p, commandPaths);
      SliceHead(argv, i, j, []);
      WholeSlices(argv[i..j], j - i);
      WholeSlices(argv[i + 1..j], j - i - 1);
      AppendAssociative(p.commandPath, [argv[i]], argv[i + 1..j]);
      WordsParse(argv, i + 1, j, q, commandPaths);
    }
  }

  lemma {:induction false} RegisteredStarts(argv: seq<string>, i: nat, words: seq<string>, registry: seq<seq<string>>)
    requires i <= |argv| && words <= argv[i..] && words in registry && forall word :: word in words ==> !IsFlag(word)
    ensures AnyPathStartsAt(argv, i, Some(registry))
  {
    WordsStartAt(argv, i, words);
    var k :| 0 <= k < |registry| && registry[k] == words;
    assert PathStartsAt(argv, i, registry[k]);
  }

  /** The first two tokens: whether the flag takes the first word. */
  lemma FlagThenWord(argv: seq<string>, name: string, registry: seq<seq<string>>)
    requires |argv| >= 2 && argv[0] == "--" + name && !IsFlag(argv[1]) && '=' !in name && name !in BOOLEAN_FLAGS
    requires AnyPathStartsAt(argv, 1, Some(registry))
    ensures ParseFrom(argv, 0, Parsed([], map[]), Some(registry))
         == if AnyPathStartsAt(argv, 2, Some(registry))
            then ParseFrom(argv, 2, Parsed([], map[name := Text(argv[1])]), Some(registry))
            else ParseFrom(argv, 1, Parsed([], map[name := On]), Some(registry))
  {
    BareToken(argv[0], name);
    ParseFromStep(argv, 0, Parsed([], map[]), Some(registry));
  }

  /** Behind the first command word, or where no registered command starts next, a flag that is not boolean takes the
      next token for its value unless that is a flag; without a next token it is just set. */
  lemma FlagTakesValue(argv: seq<string>, i: nat, name: string, p: Parsed, commandPaths: Option<seq<seq<string>>>)
    requires i < |argv| && argv[i] == "--" + name && '=' !in name && name !in BOOLEAN_FLAGS
    requires p.commandPath != [] || commandPaths == None
             || forall path :: path in commandPaths.value ==> !PathStartsAt(argv, i + 1, path)
    ensures ParseFrom(argv, i, p, commandPaths)
         == if i + 1 < |argv| && !("--" <= argv[i + 1])
            then ParseFrom(argv, i + 2, p.(flags := SetFlagValue(p.flags, name, argv[i + 1])), commandPaths)
            else ParseFrom(argv, i + 1, p.(flags := p.flags[name := On]), commandPaths)
  {
    BareToken(argv[i], name);
    ParseFromStep(argv, i, p, commandPaths);
    if AnyPathStartsAt(argv, i + 1, commandPaths) {
      var k :| 0 <= k < |commandPaths.value| && PathStartsAt(argv, i + 1, commandPaths.value[k]);
      assert commandPaths.value[k] in commandPaths.value;
    }
    assert i + 1 < |argv| ==> (IsFlag(argv[i + 1]) <==> "--" <= argv[i + 1]);
  }

  lemma FlagBeforeWords(argv: seq<string>, name: string, words: seq<string>, registry: seq<seq<string>>)
    requires words != [] && words in registry && forall word :: word in words ==> !IsFlag(word)
    requires '=' !in name && name !in BOOLEAN_FLAGS
    requires 1 + |words| <= |argv| && argv[0] == "--" + name && argv[1..1 + |words|] == words
    ensures ParseFrom(argv, 0, Parsed([], map[]), Some(registry))
         == ParseFrom(argv, 1 + |words|,
                      if AnyPathStartsAt(argv, 2, Some(registry)) then Parsed(words[1..], map[name := Text(words[0])])
                      else Parsed(words, map[name := On]),
                      Some(registry))
  {
    var end := 1 + |words|;
    forall k | 1 <= k < end
      ensures !IsFlag(argv[k])
    {
      assert argv[k] == argv[1..end][k - 1] && words[k - 1] in words;
    }
    assert words <= argv[1..] && argv[2..end] == argv[1..end][1..] && argv[1] == words[0];
    RegisteredStarts(argv, 1, words, registry);
    FlagThenWord(argv, name, registry);
    if AnyPathStartsAt(argv, 2, Some(registry)) {
      WordsParse(argv, 2, end, Parsed([], map[name := Text(words[0])]), Some(registry));
      EmptySlice(words, 0, words[1..]);
    } else {
      WordsParse(argv, 1, end, Parsed([], map[name := On]), Some(registry));
      EmptySlice(words, 0, words);
    }
  }

  /** A flag in front of a registered command takes the command's first word for its value exactly if some
      registered command starts at the second word; otherwise the whole command is kept and the flag is just set.
      Whatever follows the command is parsed from there. */
  lemma FlagBeforeCommand(name: string, words: seq<string>, rest: seq<string>, registry: seq<seq<string>>)
    requires words != [] && words in registry && forall word :: word in words ==> !IsFlag(word)
    requires '=' !in name && name !in BOOLEAN_FLAGS
    ensures var argv := ["--" + name] + words + rest;
      ParseFrom(argv, 0, Parsed([], map[]), Some(registry))
        == ParseFrom(argv, 1 + |words|,
                     if AnyPathStartsAt(argv, 2, Some(registry)) then Parsed(words[1..], map[name := Text(words[0])])
                     else Parsed(words, map[name := On]),
                     Some(registry))
  {
    FlagBeforeWords(["--" + name] + words + rest, name, words, registry);
  }

  /** With the commands `skills get` and `get`, a flag in front of the first turns it into the second. */
  lemma FlagTakesCommandWord()
    ensures ParseFrom(["--x", "skills", "get"], 0, Parsed([], map[]), Some([["skills", "get"], ["get"]]))
         == Parsed(["get"], map["x" := Text("skills")])
  {
    var words, registry := ["skills", "get"], [["skills", "get"], ["get"]];
    var argv := ["--x"] + words + [];
    assert argv == ["--x", "skills", "get"] && "--" + "x" == "--x";
    assert words == registry[0] && ["get"] == registry[1];
    assert ["get"] <= argv[2..];
    RegisteredStarts(argv, 2, ["get"], registry);
    FlagBeforeCommand("x", words, [], registry);
    assert words[1..] == ["get"];
  }

  // ---- What the meaning says about each word and flag ----

  function WordOf(item: Item): seq<string> {
    if item.Word? then [item.word] else []
  }

  function Words(items: seq<Item>): seq<string> {
    if items == [] then [] else WordOf(items[0]) + Words(items[1..])
  }

  /** The item reads as a word, or as a flag that says of itself whether a value follows. */
  predicate Plain(item: Item) {
    match item
    case Word(word) => !IsFlag(word)
    case Assigned(name, _) => '=' !in name
    case Switch(name) => name in BOOLEAN_FLAGS
    case Spaced(name, _) => '=' !in name && name !in BOOLEAN_FLAGS
    case Bare(_) => false
  }

  lemma {:induction false} SkipFlagsUnfolds(argv: seq<string>, cursor: nat, token: string, name: string, used: nat)
    requires cursor < |argv| && argv[cursor] == token && IsFlag(token) && EqualsIndex(token[2..]) == |name|
    requires token[2..][..|name|] == name
    requires used == if |name| < |token[2..]| || name in BOOLEAN_FLAGS then 1 else 2
    ensures SkipFlags(argv, cursor) == SkipFlags(argv, cursor + used)
  {
  }

  /** Looking for a command word passes over a flag with its value. */
  lemma FlagIsSkipped(argv: seq<string>, i: nat, item: Item)
    requires i + |Tokens(item)| <= |argv| && argv[i..i + |Tokens(item)|] == Tokens(item)
    requires Plain(item) && !item.Word?
    ensures SkipFlags(argv, i) == SkipFlags(argv, i + |Tokens(item)|)
  {
    assert argv[i] == argv[i..i + |Tokens(item)|][0];
    if item.Assigned? {
      FlagToken(item.name, "=" + item.value);
      assert argv[i] == "--" + item.name + ("=" + item.value);
    } else {
      if item.Switch? {
        SwitchesHaveNoEquals(item.name);
      }
      BareToken(argv[i], item.name);
      WholeSlices(item.name, |item.name|);
    }
    SkipFlagsUnfolds(argv, i, argv[i], item.name, |Tokens(item)|);
  }

  lemma {:induction false} PathUnfolds(argv: seq<string>, i: nat, next: nat, path: seq<string>)
    requires path != [] && SkipFlags(argv, i) == SkipFlags(argv, next)
    ensures PathStartsAt(argv, i, path) == PathStartsAt(argv, next, path)
    ensures i < |argv| && !IsFlag(argv[i]) ==>
      PathStartsAt(argv, i, path) == (argv[i] == path[0] && PathStartsAt(argv, i + 1, path[1..]))
  {
  }

  lemma {:induction false} NoWordsLeft(argv: seq<string>, i: nat, path: seq<string>)
    requires i == |argv| && path != []
    ensures !PathStartsAt(argv, i, path)
  {
  }

  lemma WordFirst(word: string, words: seq<string>, path: seq<string>)
    requires path != []
    ensures path <= [word] + words <==> path[0] == word && path[1..] <= words
  {
    ConsTail(word, words);
    assert path == [path[0]] + path[1..];
  }

  /** A command starts there exactly if its words are the first ones, whatever flags stand before and between them. */
  lemma {:induction false} PathStartsIff(argv: seq<string>, i: nat, items: seq<Item>, path: seq<string>)
    requires i <= |argv| && argv[i..] == Argv(items) && forall item :: item in items ==> Plain(item)
    ensures PathStartsAt(argv, i, path) <==> path <= Words(items)
    decreases |items|
  {
    if path == [] {
    } else if items == [] {
      NoWordsLeft(argv, i, path);
    } else {
      var next := NextTokens(argv, i, items);
      assert items[0] in items;
      if items[0].Word? {
        assert argv[i] == argv[i..next][0];
        PathUnfolds(argv, i, i, path);
        WordFirst(items[0].word, Words(items[1..]), path);
        PathStartsIff(argv, next, items[1..], path[1..]);
      } else {
        FlagIsSkipped(argv, i, items[0]);
        PathUnfolds(argv, i, next, path);
        EmptySlice(path, 0, Words(items[1..]));
        PathStartsIff(argv, next, items[1..], path);
      }
    }
  }

  /** The last thing said about a flag. */
  function LastSaid(items: seq<Item>, name: string): Option<FlagValue> {
    if items == [] then None
    else
      var n := |items| - 1;
      match items[n]
      case Word(_) => LastSaid(items[..n], name)
      case Assigned(other, value) => if other == name then Some(Text(value)) else LastSaid(items[..n], name)
      case Spaced(other, value) => if other == name then Some(Text(value)) else LastSaid(items[..n], name)
      case Switch(other) => if other == name then Some(On) else LastSaid(items[..n], name)
      case Bare(other) => if other == name then Some(On) else LastSaid(items[..n], name)
  }

  lemma {:induction false} MeaningOfAppend(items: seq<Item>, item: Item, p: Parsed)
    ensures Meaning(items + [item], p) == Apply(item, Meaning(items, p))
    decreases |items|
  {
    if items == [] {
      assert items + [item] == [item];
    } else {
      assert (items + [item])[1..] == items[1..] + [item];
      MeaningOfAppend(items[1..], item, Apply(items[0], p));
    }
  }

  lemma WordStep(item: Item, p: Parsed)
    ensures Apply(item, p).commandPath == p.commandPath + WordOf(item)
  {
  }

  lemma {:induction false} WordsInOrder(items: seq<Item>, p: Parsed)
    ensures Meaning(items, p).commandPath == p.commandPath + Words(items)
    decreases |items|
  {
    if items == [] {
      WholeSlices(p.commandPath, |p.commandPath|);
    } else {
      WordStep(items[0], p);
      AppendAssociative(p.commandPath, WordOf(items[0]), Words(items[1..]));
      WordsInOrder(items[1..], Apply(items[0], p));
    }
  }

  /** A flag that is not repeatable holds the last thing said about it, and is absent if nothing was. */
  lemma {:induction false} FlagsHoldLastSaid(items: seq<Item>, name: string)
    requires name != REPEATABLE
    ensures var flags := Meaning(items, Parsed([], map[])).flags;
      match LastSaid(items, name)
      case None => name !in flags
      case Some(value) => name in flags && flags[name] == value
    decreases |items|
  {
    if items == [] {
    } else {
      var n := |items| - 1;
      assert items == items[..n] + [items[n]];
      FlagsHoldLastSaid(items[..n], name);
      MeaningOfAppend(items[..n], items[n], Parsed([], map[]));
    }
  }

  // ---- Repeated flags ----

  function JoinSeparated(values: seq<string>): string
    requires values != []
  {
    if |values| == 1 then values[0] else JoinSeparated(values[..|values| - 1]) + [SEPARATOR] + values[|values| - 1]
  }

  lemma JoinOneMore(values: seq<string>, value: string)
    ensures JoinSeparated(values + [value]) ==
      if values == [] then value else JoinSeparated(values) + [SEPARATOR] + value
  {
    assert (values + [value])[..|values|] == values;
  }

  function SeparatorIndex(text: string): (n: nat)
    ensures n <= |text| && (n < |text| ==> text[n] == SEPARATOR)
  {
    if text == "" || text[0] == SEPARATOR then 0 else 1 + SeparatorIndex(text[1..])
  }

  /** `split(separator)`. */
  function Split(text: string): seq<string>
    decreases |text|
  {
    var n := SeparatorIndex(text);
    if n == |text| then [text] else [text[..n]] + Split(text[n + 1..])
  }

  function NonEmpty(values: seq<string>): seq<string> {
    if values == [] then [] else (if values[0] != "" then [values[0]] else []) + NonEmpty(values[1..])
  }

  function GetOptionalStringFlag(flags: Flags, name: string): Option<string> {
    if name in flags && flags[name].Text? && |flags[name].text| > 0 then Some(flags[name].text) else None
  }

  function GetRepeatedStringFlag(flags: Flags, name: string): seq<string> {
    var value := GetOptionalStringFlag(flags, name);
    if value.None? then [] else NonEmpty(Split(value.value))
  }

  lemma {:induction false} SeparatorIndexIs(name: string, rest: string)
    requires SEPARATOR !in name && (rest == "" || rest[0] == SEPARATOR)
    ensures SeparatorIndex(name + rest) == |name|
    decreases |name|
  {
    if name == "" {
      assert name + rest == rest;
    } else {
      assert (name + rest)[1..] == name[1..] + rest;
      SeparatorIndexIs(name[1..], rest);
    }
  }

  /** The first separator ends the first part. */
  lemma SplitFirst(head: string, rest: string)
    requires SEPARATOR !in head
    ensures Split(head + [SEPARATOR] + rest) == [head] + Split(rest)
  {
    var all := head + [SEPARATOR] + rest;
    AppendAssociative(head, [SEPARATOR], rest);
    SeparatorIndexIs(head, [SEPARATOR] + rest);
    assert all[..|head|] == head && all[|head| + 1..] == rest;
  }

  lemma SplitWhole(text: string)
    requires SEPARATOR !in text
    ensures Split(text) == [text]
  {
    SeparatorIndexIs(text, "");
    assert text + "" == text;
  }

  lemma {:induction false} SeparatorIndexBounds(text: string)
    ensures SEPARATOR !in text[..SeparatorIndex(text)]
    decreases |text|
  {
    if text == "" || text[0] == SEPARATOR {
    } else {
      SeparatorIndexBounds(text[1..]);
      assert text[..SeparatorIndex(text)] == [text[0]] + text[1..][..SeparatorIndex(text[1..])];
    }
  }

  lemma {:induction false} SplitAppend(text: string, last: string)
    requires SEPARATOR !in last
    ensures Split(text + [SEPARATOR] + last) == Split(text) + [last]
    decreases |text|
  {
    var n := SeparatorIndex(text);
    SeparatorIndexBounds(text);
    SplitWhole(last);
    if n == |text| {
      WholeSlices(text, n);
      SplitFirst(text, last);
      SplitWhole(text);
    } else {
      var head, rest := text[..n], text[n + 1..];
      SplitAppend(rest, last);
      SplitFirst(head, rest + [SEPARATOR] + last);
      SplitFirst(head, rest);
      AroundElement(text, n, [SEPARATOR] + last);
      AppendAssociative(text, [SEPARATOR], last);
      AppendAssociative(rest, [SEPARATOR], last);
      AppendAssociative([head], Split(rest), [last]);
    }
  }

  lemma {:induction false} SplitJoined(values: seq<string>)
    requires values != [] && forall value :: value in values ==> SEPARATOR !in value
    ensures Split(JoinSeparated(values)) == values
    decreases |values|
  {
    var n := |values| - 1;
    if n == 0 {
      SplitWhole(values[0]);
    } else {
      SplitJoined(values[..n]);
      SplitAppend(JoinSeparated(values[..n]), values[n]);
      TakeOneMore(values, n);
      WholeSlices(values, |values|);
    }
  }

  function LabelsAfter(before: seq<string>, item: Item): seq<string> {
    match item
    case Word(_) => before
    case Assigned(name, value) => if name == REPEATABLE then before + [value] else before
    case Spaced(name, value) => if name == REPEATABLE then before + [value] else before
    case Switch(name) => if name == REPEATABLE then [] else before
    case Bare(name) => if name == REPEATABLE then [] else before
  }

  /** The labels given, in order, since the flag was last given without one. */
  function Labels(items: seq<Item>): seq<string> {
    if items == [] then [] else LabelsAfter(Labels(items[..|items| - 1]), items[|items| - 1])
  }

  /** The repeatable flag holds the given values, joined. */
  ghost predicate HoldsLabels(flags: Flags, values: seq<string>) {
    if values == [] then REPEATABLE in flags ==> flags[REPEATABLE] == On
    else REPEATABLE in flags && flags[REPEATABLE] == Text(JoinSeparated(values))
  }

  lemma OneMoreLabel(flags: Flags, values: seq<string>, value: string)
    requires HoldsLabels(flags, values)
    ensures HoldsLabels(SetFlagValue(flags, REPEATABLE, value), values + [value])
  {
    JoinOneMore(values, value);
  }

  lemma OtherValue(flags: Flags, values: seq<string>, name: string, value: string)
    requires HoldsLabels(flags, values) && name != REPEATABLE
    ensures HoldsLabels(SetFlagValue(flags, name, value), values)
  {
  }

  lemma LabelsStep(p: Parsed, values: seq<string>, item: Item)
    requires HoldsLabels(p.flags, values)
    ensures HoldsLabels(Apply(item, p).flags, LabelsAfter(values, item))
  {
    if item.Assigned? || item.Spaced? {
      if item.name == REPEATABLE {
        OneMoreLabel(p.flags, values, item.value);
      } else {
        OtherValue(p.flags, values, item.name, item.value);
      }
    }
  }

  lemma {:induction false} RepeatableHoldsLabels(items: seq<Item>)
    ensures HoldsLabels(Meaning(items, Parsed([], map[])).flags, Labels(items))
    decreases |items|
  {
    if items == [] {
    } else {
      var n := |items| - 1;
      TakeOneMore(items, n);
      WholeSlices(items, |items|);
      RepeatableHoldsLabels(items[..n]);
      MeaningOfAppend(items[..n], items[n], Parsed([], map[]));
      LabelsStep(Meaning(items[..n], Parsed([], map[])), Labels(items[..n]), items[n]);
    }
  }

  /** What is written down is parsed back: the command is the words, in order; every flag that does not accumulate
      holds what was last said about it, and is absent if nothing was; the one that does holds its labels. */
  lemma ArgumentsParseBack(items: seq<Item>, commandPaths: Option<seq<seq<string>>>)
    requires AllWritable(Argv(items), 0, items, false, commandPaths)
    ensures var parsed := ParseFrom(Argv(items), 0, Parsed([], map[]), commandPaths);
      && parsed.commandPath == Words(items)
      && (forall name :: name != REPEATABLE ==>
            match LastSaid(items, name)
            case None => name !in parsed.flags
            case Some(value) => name in parsed.flags && parsed.flags[name] == value)
      && HoldsLabels(parsed.flags, Labels(items))
  {
    ParseRoundTrip(items, commandPaths);
    WordsInOrder(items, Parsed([], map[]));
    EmptySlice(Words(items), 0, Words(items));
    forall name | name != REPEATABLE
      ensures
        match LastSaid(items, name)
        case None => name !in Meaning(items, Parsed([], map[])).flags
        case Some(value) =>
          name in Meaning(items, Parsed([], map[])).flags && Meaning(items, Parsed([], map[])).flags[name] == value
    {
      FlagsHoldLastSaid(items, name);
    }
    RepeatableHoldsLabels(items);
  }

  /** What is written at `i`. */
  function ItemAt(argv: seq<string>, i: nat, wordBefore: bool, commandPaths: Option<seq<seq<string>>>): (item: Item)
    requires i < |argv|
    ensures i + |Tokens(item)| <= |argv|
  {
    if !IsFlag(argv[i]) then Word(argv[i])
    else
      var assignment := argv[i][2..];
      var n := EqualsIndex(assignment);
      if n < |assignment| then Assigned(assignment[..n], assignment[n + 1..])
      else if assignment in BOOLEAN_FLAGS then Switch(assignment)
      else if TakesNext(argv, i, wordBefore, commandPaths) then Spaced(assignment, argv[i + 1])
      else Bare(assignment)
  }

  lemma FlagOfToken(token: string)
    requires IsFlag(token)
    ensures token == "--" + token[2..]
  {
  }

  lemma AssignmentToken(token: string, n: nat)
    requires IsFlag(token) && n < |token[2..]| && token[2..][n] == '='
    ensures token == "--" + token[2..][..n] + "=" + token[2..][n + 1..]
  {
  }

  lemma NoAssignment(assignment: string)
    requires EqualsIndex(assignment) == |assignment|
    ensures '=' !in assignment
  {
    assert assignment[..|assignment|] == assignment;
  }

  lemma OneToken(argv: seq<string>, i: nat)
    requires i < |argv|
    ensures argv[i..i + 1] == [argv[i]]
    ensures i + 1 < |argv| ==> argv[i..i + 2] == [argv[i], argv[i + 1]]
  {
  }

  lemma AssignedIsWritten(argv: seq<string>, i: nat, wordBefore: bool, commandPaths: Option<seq<seq<string>>>)
    requires i < |argv| && IsFlag(argv[i]) && EqualsIndex(argv[i][2..]) < |argv[i][2..]|
    ensures var item := ItemAt(argv, i, wordBefore, commandPaths);
      Tokens(item) == [argv[i]] && Writable(item, argv, i, wordBefore, commandPaths)
  {
    AssignmentToken(argv[i], EqualsIndex(argv[i][2..]));
  }

  lemma FlagIsWritten(argv: seq<string>, i: nat, wordBefore: bool, commandPaths: Option<seq<seq<string>>>)
    requires i < |argv| && IsFlag(argv[i]) && EqualsIndex(argv[i][2..]) == |argv[i][2..]|
    ensures var item := ItemAt(argv, i, wordBefore, commandPaths);
      && Tokens(item) == (if item.Spaced? then [argv[i], argv[i + 1]] else [argv[i]])
      && Writable(item, argv, i, wordBefore, commandPaths)
  {
    FlagOfToken(argv[i]);
    NoAssignment(argv[i][2..]);
  }

  lemma ItemIsWritten(argv: seq<string>, i: nat, wordBefore: bool, commandPaths: Option<seq<seq<string>>>)
    requires i < |argv|
    ensures var item := ItemAt(argv, i, wordBefore, commandPaths);
      Tokens(item) == argv[i..i + |Tokens(item)|] && Writable(item, argv, i, wordBefore, commandPaths)
  {
    OneToken(argv, i);
    if !IsFlag(argv[i]) {
    } else if EqualsIndex(argv[i][2..]) < |argv[i][2..]| {
      AssignedIsWritten(argv, i, wordBefore, commandPaths);
    } else {
      FlagIsWritten(argv, i, wordBefore, commandPaths);
    }
  }

  /** Every command line is written in items, so that the round trip speaks of them all. */
  lemma {:induction false} EveryCommandLineIsWritten(argv: seq<string>, i: nat, wordBefore: bool,
                                                     commandPaths: Option<seq<seq<string>>>)
    returns (items: seq<Item>)
    requires i <= |argv|
    ensures Argv(items) == argv[i..] && AllWritable(argv, i, items, wordBefore, commandPaths)
    decreases |argv| - i
  {
    if i == |argv| {
      items := [];
    } else {
      var item := ItemAt(argv, i, wordBefore, commandPaths);
      var next := i + |Tokens(item)|;
      ItemIsWritten(argv, i, wordBefore, commandPaths);
      var rest := EveryCommandLineIsWritten(argv, next, wordBefore || item.Word?, commandPaths);
      items := [item] + rest;
      ConsTail(item, rest);
      assert argv[i..next] + argv[next..] == argv[i..];
    }
  }

  lemma {:induction false} NonEmptyKeeps(values: seq<string>, value: string)
    ensures value in NonEmpty(values) <==> value in values && value != ""
    decreases |values|
  {
    if values == [] {
    } else {
      NonEmptyKeeps(values[1..], value);
      AroundElement(values, 0, []);
    }
  }

  lemma {:induction false} PartsHaveNoSeparator(text: string, part: string)
    requires part in Split(text)
    ensures SEPARATOR !in part
    decreases |text|
  {
    var n := SeparatorIndex(text);
    SeparatorIndexBounds(text);
    if n == |text| {
      WholeSlices(text, n);
    } else if part != text[..n] {
      PartsHaveNoSeparator(text[n + 1..], part);
    }
  }

  lemma ReadLabelsAreFree(flags: Flags, value: string)
    requires value in GetRepeatedStringFlag(flags, REPEATABLE)
    ensures SEPARATOR !in value
  {
    var text := GetOptionalStringFlag(flags, REPEATABLE).value;
    NonEmptyKeeps(Split(text), value);
    PartsHaveNoSeparator(text, value);
  }

  lemma LabelsReadBack(flags: Flags, values: seq<string>)
    requires HoldsLabels(flags, values) && forall value :: value in values ==> SEPARATOR !in value
    ensures GetRepeatedStringFlag(flags, REPEATABLE) == NonEmpty(values)
  {
    if values == [] {
    } else {
      SplitJoined(values);
      if JoinSeparated(values) == "" {
        SplitWhole("");
        assert values == [""];
        assert values[1..] == [];
      }
    }
  }

  /** Writing labels down and parsing them gives back the non-empty ones, in order, if and only if none of them holds
      the separator. */
  lemma RepeatedFlagRoundTrip(items: seq<Item>, commandPaths: Option<seq<seq<string>>>)
    requires AllWritable(Argv(items), 0, items, false, commandPaths)
    ensures GetRepeatedStringFlag(ParseFrom(Argv(items), 0, Parsed([], map[]), commandPaths).flags, REPEATABLE)
              == NonEmpty(Labels(items))
       <==> (forall value :: value in Labels(items) ==> SEPARATOR !in value)
  {
    var flags := ParseFrom(Argv(items), 0, Parsed([], map[]), commandPaths).flags;
    ArgumentsParseBack(items, commandPaths);
    if forall value :: value in Labels(items) ==> SEPARATOR !in value {
      LabelsReadBack(flags, Labels(items));
    } else {
      var value :| value in Labels(items) && SEPARATOR in value;
      NonEmptyKeeps(Labels(items), value);
      if value in GetRepeatedStringFlag(flags, REPEATABLE) {
        ReadLabelsAreFree(flags, value);
      }
    }
  }
}
