/** Typo recovery for commands: near matches of the same depth, and nothing destructive unless it was asked for. */
module CommandSuggestion {
  import opened EditDistance
  import opened Utf16

  const SUGGESTION_THRESHOLD := 3
  const MAX_SUGGESTIONS := 3
  const DESTRUCTIVE_INTENT_THRESHOLD := 1

  type Command = seq<Text>

  datatype CommandSpec = CommandSpec(path: Command, aliases: seq<Command>, destructive: bool)

  datatype Scored = Scored(text: Text, distance: nat)

  /** `localeCompare`: negative, zero or positive. */
  type Collation = (Text, Text) -> int

  ghost predicate Consistent(compare: Collation) {
    && (forall x, y :: compare(x, y) <= 0 || compare(y, x) <= 0)
    && (forall x, y, z :: compare(x, y) <= 0 && compare(y, z) <= 0 ==> compare(x, z) <= 0)
  }

  function SpecPaths(spec: CommandSpec): seq<Command> {
    [spec.path] + spec.aliases
  }

  function FinalToken(path: Command): Text {
    if path == [] then [] else path[|path| - 1]
  }

  function Join(path: Command): Text {
    if path == [] then [] else if |path| == 1 then path[0] else path[0] + [SPACE] + Join(path[1..])
  }

  lemma {:induction false} JoinConcat(a: Command, b: Command)
    requires a != [] && b != []
    ensures Join(a + b) == Join(a) + [SPACE] + Join(b)
    decreases |a|
  {
    assert (a + b)[1..] == a[1..] + b;
    if |a| > 1 {
      JoinConcat(a[1..], b);
    }
  }

  // ---- Ranking ----

  predicate NotAfter(compare: Collation, x: Scored, y: Scored) {
    x.distance < y.distance || (x.distance == y.distance && compare(x.text, y.text) <= 0)
  }

  ghost predicate Ordered(compare: Collation, s: seq<Scored>) {
    forall i, j :: 0 <= i < j < |s| ==> NotAfter(compare, s[i], s[j])
  }

  function Insert(compare: Collation, x: Scored, s: seq<Scored>): seq<Scored> {
    if s == [] || !NotAfter(compare, s[0], x) then [x] + s else [s[0]] + Insert(compare, x, s[1..])
  }

  /** The stable sort of the runtime, as a function. */
  function Sorted(compare: Collation, s: seq<Scored>): seq<Scored> {
    if s == [] then [] else Insert(compare, s[|s| - 1], Sorted(compare, s[..|s| - 1]))
  }

  predicate Near(entry: Scored) {
    0 < entry.distance <= SUGGESTION_THRESHOLD
  }

  function NearOnly(s: seq<Scored>): seq<Scored> {
    if s == [] then [] else (if Near(s[0]) then [s[0]] else []) + NearOnly(s[1..])
  }

  function Best(compare: Collation, scored: seq<Scored>): (best: seq<Scored>)
    ensures |best| <= MAX_SUGGESTIONS
  {
    var sorted := Sorted(compare, NearOnly(scored));
    if |sorted| <= MAX_SUGGESTIONS then sorted else sorted[..MAX_SUGGESTIONS]
  }

  function RankByDistance(compare: Collation, scored: seq<Scored>): seq<Text> {
    var best := Best(compare, scored);
    seq(|best|, i requires 0 <= i < |best| => best[i].text)
  }

  lemma {:induction false} InsertAdds(compare: Collation, x: Scored, s: seq<Scored>)
    ensures multiset(Insert(compare, x, s)) == multiset(s) + multiset{x}
    decreases |s|
  {
    if s == [] || !NotAfter(compare, s[0], x) {
    } else {
      InsertAdds(compare, x, s[1..]);
      assert s == [s[0]] + s[1..];
    }
  }

  lemma InsertMembers(compare: Collation, x: Scored, s: seq<Scored>, y: Scored)
    requires y in Insert(compare, x, s)
    ensures y == x || y in s
  {
    InsertAdds(compare, x, s);
    assert y in multiset(Insert(compare, x, s));
  }

  lemma OrderedTail(compare: Collation, s: seq<Scored>)
    requires Ordered(compare, s) && s != []
    ensures Ordered(compare, s[1..])
    ensures forall y :: y in s[1..] ==> NotAfter(compare, s[0], y)
    ensures forall y :: y in s ==> y == s[0] || y in s[1..]
  {
  }

  lemma OrderedCons(compare: Collation, x: Scored, s: seq<Scored>)
    requires Ordered(compare, s) && forall y :: y in s ==> NotAfter(compare, x, y)
    ensures Ordered(compare, [x] + s)
  {
  }

  lemma {:induction false} InsertOrders(compare: Collation, x: Scored, s: seq<Scored>)
    requires Consistent(compare) && Ordered(compare, s)
    ensures Ordered(compare, Insert(compare, x, s))
    decreases |s|
  {
    if s == [] || !NotAfter(compare, s[0], x) {
      forall y | y in s
        ensures NotAfter(compare, x, y)
      {
        OrderedTail(compare, s);
        assert s != [] && NotAfter(compare, x, s[0]);
      }
      OrderedCons(compare, x, s);
    } else {
      var rest := Insert(compare, x, s[1..]);
      OrderedTail(compare, s);
      InsertOrders(compare, x, s[1..]);
      forall y | y in rest
        ensures NotAfter(compare, s[0], y)
      {
        InsertMembers(compare, x, s[1..], y);
      }
      OrderedCons(compare, s[0], rest);
    }
  }

  lemma {:induction false} SortedSorts(compare: Collation, s: seq<Scored>)
    ensures multiset(Sorted(compare, s)) == multiset(s)
    ensures Consistent(compare) ==> Ordered(compare, Sorted(compare, s))
    decreases |s|
  {
    if s == [] {
    } else {
      var n := |s| - 1;
      assert s == s[..n] + [s[n]];
      SortedSorts(compare, s[..n]);
      InsertAdds(compare, s[n], Sorted(compare, s[..n]));
      if Consistent(compare) {
        InsertOrders(compare, s[n], Sorted(compare, s[..n]));
      }
    }
  }

  lemma {:induction false} NearOnlyFilters(s: seq<Scored>, x: Scored)
    ensures x in NearOnly(s) <==> x in s && Near(x)
    decreases |s|
  {
    if s == [] {
    } else {
      NearOnlyFilters(s[1..], x);
      assert s == [s[0]] + s[1..];
    }
  }

  ghost predicate DistinctTexts(s: seq<Scored>) {
    forall i, j :: 0 <= i < j < |s| ==> s[i].text != s[j].text
  }

  lemma TwiceInSequence(s: seq<Scored>, i: nat, j: nat)
    requires i < j < |s| && s[i] == s[j]
    ensures multiset(s)[s[i]] >= 2
  {
    assert s == s[..j] + s[j..];
    assert s[..j][i] in multiset(s[..j]) && s[j..][0] in multiset(s[j..]);
  }

  lemma {:induction false} OnceInDistinct(s: seq<Scored>, x: Scored)
    requires DistinctTexts(s)
    ensures multiset(s)[x] <= 1
    decreases |s|
  {
    if s == [] {
    } else {
      var n := |s| - 1;
      assert s == s[..n] + [s[n]];
      OnceInDistinct(s[..n], x);
      forall y | y in s[..n]
        ensures y != s[n]
      {
        var i :| 0 <= i < n && s[..n][i] == y;
        assert s[i].text != s[n].text;
      }
      assert s[n] !in multiset(s[..n]);
    }
  }

  /** A permutation keeps texts distinct. */
  lemma PermutedDistinct(s: seq<Scored>, t: seq<Scored>)
    requires DistinctTexts(s) && multiset(s) == multiset(t)
    ensures DistinctTexts(t)
  {
    forall i, j | 0 <= i < j < |t|
      ensures t[i].text != t[j].text
    {
      assert t[i] in multiset(s) && t[j] in multiset(s);
      if t[i] == t[j] {
        TwiceInSequence(t, i, j);
        OnceInDistinct(s, t[i]);
      }
    }
  }

  lemma {:induction false} NearOnlyDistinct(s: seq<Scored>)
    requires DistinctTexts(s)
    ensures DistinctTexts(NearOnly(s))
    decreases |s|
  {
    if s == [] {
    } else {
      NearOnlyDistinct(s[1..]);
      forall x | x in NearOnly(s[1..])
        ensures x.text != s[0].text
      {
        NearOnlyFilters(s[1..], x);
        var i :| 0 <= i < |s[1..]| && s[1..][i] == x;
        assert s[i + 1] == x;
      }
    }
  }

  lemma BestDistinct(compare: Collation, scored: seq<Scored>)
    requires DistinctTexts(scored)
    ensures DistinctTexts(Best(compare, scored))
  {
    NearOnlyDistinct(scored);
    SortedSorts(compare, NearOnly(scored));
    PermutedDistinct(NearOnly(scored), Sorted(compare, NearOnly(scored)));
  }

  /** The ranking lists near candidates only, and leaves one out only for three that do not rank behind it. */
  lemma BestAreNearest(compare: Collation, scored: seq<Scored>, x: Scored)
    requires Consistent(compare)
    ensures x in Best(compare, scored) ==> x in scored && Near(x)
    ensures Ordered(compare, Best(compare, scored))
    ensures x in scored && Near(x) && x !in Best(compare, scored) ==>
      |Best(compare, scored)| == MAX_SUGGESTIONS && forall y :: y in Best(compare, scored) ==> NotAfter(compare, y, x)
  {
    var near := NearOnly(scored);
    var sorted := Sorted(compare, near);
    SortedSorts(compare, near);
    NearOnlyFilters(scored, x);
    assert x in sorted <==> x in multiset(sorted);
    assert x in near <==> x in multiset(near);
    if x in sorted && x !in Best(compare, scored) {
      var i :| 0 <= i < |sorted| && sorted[i] == x;
      assert i >= MAX_SUGGESTIONS;
    }
  }

  // ---- Which candidates there are ----

  /** A path of the command, cut to its first word when the input is a single word. */
  function CandidateOf(path: Command, depth: nat): Command {
    if depth == 1 && |path| > 1 then path[..1] else path
  }

  ghost predicate DestructiveVerb(specs: seq<CommandSpec>, verb: Text) {
    exists i, k :: 0 <= i < |specs| && specs[i].destructive && 0 <= k < |SpecPaths(specs[i])|
                   && FinalToken(SpecPaths(specs[i])[k]) == verb
  }

  /** The input's last word is, up to one edit, the last word of some destructive command or alias. */
  ghost predicate ReachesForDestruction(specs: seq<CommandSpec>, commandPath: Command) {
    exists verb ::
      DestructiveVerb(specs, verb) && Distance(FinalToken(commandPath), verb) <= DESTRUCTIVE_INTENT_THRESHOLD
  }

  ghost predicate PathOffers(path: Command, depth: nat, text: Text) {
    |CandidateOf(path, depth)| == depth && Join(CandidateOf(path, depth)) == text
  }

  ghost predicate Offers(spec: CommandSpec, allowDestructive: bool, depth: nat, text: Text) {
    && (spec.destructive ==> allowDestructive)
    && exists k :: 0 <= k < |SpecPaths(spec)| && PathOffers(SpecPaths(spec)[k], depth, text)
  }

  ghost predicate Offered(specs: seq<CommandSpec>, allowDestructive: bool, depth: nat, text: Text) {
    exists i :: 0 <= i < |specs| && Offers(specs[i], allowDestructive, depth, text)
  }

  method DestructiveVerbs(specs: seq<CommandSpec>) returns (verbs: set<Text>)
    ensures forall verb :: verb in verbs <==> DestructiveVerb(specs, verb)
  {
    verbs := {};
    for i := 0 to |specs|
      invariant forall verb :: verb in verbs <==>
        exists h, k :: 0 <= h < i && specs[h].destructive && 0 <= k < |SpecPaths(specs[h])|
                       && FinalToken(SpecPaths(specs[h])[k]) == verb
    {
      if specs[i].destructive {
        verbs := verbs + set path | path in SpecPaths(specs[i]) :: FinalToken(path);
      }
    }
  }

  method IntendsDestruction(inputToken: Text, verbs: set<Text>) returns (intends: bool)
    ensures intends <==> exists verb :: verb in verbs && Distance(inputToken, verb) <= DESTRUCTIVE_INTENT_THRESHOLD
  {
    var remaining := verbs;
    while remaining != {}
      invariant remaining <= verbs
      invariant forall verb :: verb in verbs - remaining ==> Distance(inputToken, verb) > DESTRUCTIVE_INTENT_THRESHOLD
    {
      var verb :| verb in remaining;
      var distance := Levenshtein(inputToken, verb);
      if distance <= DESTRUCTIVE_INTENT_THRESHOLD {
        return true;
      }
      remaining := remaining - {verb};
    }
    return false;
  }

  /** One scored entry for each text seen, with its distance from the input. */
  ghost predicate Scores(input: Text, seen: set<Text>, scored: seq<Scored>) {
    && (forall k :: 0 <= k < |scored| ==>
          scored[k].text in seen && scored[k].distance == Distance(input, scored[k].text))
    && (forall text :: text in seen ==> Scored(text, Distance(input, text)) in scored)
    && DistinctTexts(scored)
  }

  lemma ScoresOneMore(input: Text, seen: set<Text>, scored: seq<Scored>, text: Text, distance: nat)
    requires Scores(input, seen, scored) && distance == Distance(input, text) && text !in seen
    ensures Scores(input, seen + {text}, scored + [Scored(text, distance)])
  {
    var more := scored + [Scored(text, distance)];
    assert more[|scored|] == Scored(text, distance);
  }

  /** The candidates of one command, added to what was seen before. */
  method ScoreCommand(spec: CommandSpec, depth: nat, input: Text, seenBefore: set<Text>, scoredBefore: seq<Scored>)
    returns (seen: set<Text>, scored: seq<Scored>)
    requires Scores(input, seenBefore, scoredBefore)
    ensures Scores(input, seen, scored)
    ensures forall text :: text in seen <==>
      text in seenBefore || exists k :: 0 <= k < |SpecPaths(spec)| && PathOffers(SpecPaths(spec)[k], depth, text)
  {
    seen, scored := seenBefore, scoredBefore;
    var paths := SpecPaths(spec);
    for k := 0 to |paths|
      invariant Scores(input, seen, scored)
      invariant forall text :: text in seen <==>
        text in seenBefore || exists h :: 0 <= h < k && PathOffers(paths[h], depth, text)
    {
      var candidate := CandidateOf(paths[k], depth);
      if |candidate| != depth {
        continue;
      }
      var joined := Join(candidate);
      assert PathOffers(paths[k], depth, joined);
      if joined in seen {
        continue;
      }
      var distance := Levenshtein(input, joined);
      ScoresOneMore(input, seen, scored, joined, distance);
      seen, scored := seen + {joined}, scored + [Scored(joined, distance)];
    }
  }

  ghost predicate Suggestible(specs: seq<CommandSpec>, commandPath: Command, text: Text) {
    && Offered(specs, ReachesForDestruction(specs, commandPath), |commandPath|, text)
    && 0 < Distance(Join(commandPath), text) <= SUGGESTION_THRESHOLD
  }

  // ---- What is suggestible, in terms of the registry alone ----

  predicate PathOf(spec: CommandSpec, path: Command) {
    path == spec.path || path in spec.aliases
  }

  predicate EndsIn(path: Command, word: Text) {
    if path == [] then word == [] else path[|path| - 1] == word
  }

  /** For a single word the first word of a path is offered, for more words a path of as many words. */
  ghost predicate CouldBeMeant(spec: CommandSpec, commandPath: Command, text: Text) {
    exists path :: PathOf(spec, path)
      && if |commandPath| == 1 then path != [] && text == path[0] else |path| == |commandPath| && text == Join(path)
  }

  /** The typed last word is at most one edit away from the last word of a path of a destructive command. */
  ghost predicate DestructionIntended(specs: seq<CommandSpec>, commandPath: Command) {
    exists spec, path, word, typed ::
      && spec in specs && spec.destructive && PathOf(spec, path)
      && EndsIn(path, word) && EndsIn(commandPath, typed) && Distance(typed, word) <= 1
  }

  lemma PathsOfSpec(spec: CommandSpec, path: Command) returns (k: nat)
    requires PathOf(spec, path)
    ensures k < |SpecPaths(spec)| && SpecPaths(spec)[k] == path
  {
    k := 0;
    if path != spec.path {
      var i :| 0 <= i < |spec.aliases| && spec.aliases[i] == path;
      k := i + 1;
    }
  }

  lemma ReachesIffIntended(specs: seq<CommandSpec>, commandPath: Command)
    ensures ReachesForDestruction(specs, commandPath) <==> DestructionIntended(specs, commandPath)
  {
    if ReachesForDestruction(specs, commandPath) {
      var verb :| DestructiveVerb(specs, verb)
                  && Distance(FinalToken(commandPath), verb) <= DESTRUCTIVE_INTENT_THRESHOLD;
      var i, k :| 0 <= i < |specs| && specs[i].destructive && 0 <= k < |SpecPaths(specs[i])|
                  && FinalToken(SpecPaths(specs[i])[k]) == verb;
      assert PathOf(specs[i], SpecPaths(specs[i])[k]) && EndsIn(SpecPaths(specs[i])[k], verb);
      assert EndsIn(commandPath, FinalToken(commandPath));
    }
    if DestructionIntended(specs, commandPath) {
      var spec, path, word, typed :|
        && spec in specs && spec.destructive && PathOf(spec, path)
        && EndsIn(path, word) && EndsIn(commandPath, typed) && Distance(typed, word) <= 1;
      var i :| 0 <= i < |specs| && specs[i] == spec;
      var k := PathsOfSpec(spec, path);
      assert FinalToken(SpecPaths(specs[i])[k]) == word;
      assert DestructiveVerb(specs, word);
    }
  }

  lemma OffersIffMeant(spec: CommandSpec, allowDestructive: bool, commandPath: Command, text: Text)
    ensures Offers(spec, allowDestructive, |commandPath|, text) <==>
      (spec.destructive ==> allowDestructive) && CouldBeMeant(spec, commandPath, text)
  {
    if CouldBeMeant(spec, commandPath, text) {
      var path :| PathOf(spec, path) && if |commandPath| == 1 then path != [] && text == path[0]
                                        else |path| == |commandPath| && text == Join(path);
      var k := PathsOfSpec(spec, path);
      assert PathOffers(SpecPaths(spec)[k], |commandPath|, text);
    }
    if Offers(spec, allowDestructive, |commandPath|, text) {
      var k :| 0 <= k < |SpecPaths(spec)| && PathOffers(SpecPaths(spec)[k], |commandPath|, text);
      assert PathOf(spec, SpecPaths(spec)[k]);
    }
  }

  /** A suggestible text is within three edits of the input but not the input, and some command could be meant by it;
      a destructive one only if the input reaches for destruction. */
  lemma SuggestibleIff(specs: seq<CommandSpec>, commandPath: Command, text: Text)
    ensures Suggestible(specs, commandPath, text) <==>
      && 1 <= Distance(Join(commandPath), text) <= 3
      && exists spec :: spec in specs && CouldBeMeant(spec, commandPath, text)
                        && (spec.destructive ==> DestructionIntended(specs, commandPath))
  {
    ReachesIffIntended(specs, commandPath);
    var allowed := ReachesForDestruction(specs, commandPath);
    if spec :| spec in specs && CouldBeMeant(spec, commandPath, text)
               && (spec.destructive ==> DestructionIntended(specs, commandPath)) {
      OffersIffMeant(spec, allowed, commandPath, text);
      var i :| 0 <= i < |specs| && specs[i] == spec;
    }
    if i :| 0 <= i < |specs| && Offers(specs[i], allowed, |commandPath|, text) {
      OffersIffMeant(specs[i], allowed, commandPath, text);
      assert specs[i] in specs;
    }
  }

  /** `x` ranks no later than `y`: nearer to the input, or as near and not behind it in the collation. */
  ghost predicate RanksNoLater(compare: Collation, input: Text, x: Text, y: Text) {
    NotAfter(compare, Scored(x, Distance(input, x)), Scored(y, Distance(input, y)))
  }

  lemma RanksNoLaterIff(compare: Collation, input: Text, x: Text, y: Text)
    ensures RanksNoLater(compare, input, x, y) <==>
      || Distance(input, x) < Distance(input, y)
      || (Distance(input, x) == Distance(input, y) && compare(x, y) <= 0)
  {
  }

  /** The k-th suggestion is a candidate that was seen, with its distance. */
  lemma RankedText(compare: Collation, input: Text, seen: set<Text>, scored: seq<Scored>, k: nat)
    requires Consistent(compare) && Scores(input, seen, scored) && k < |RankByDistance(compare, scored)|
    ensures var text := RankByDistance(compare, scored)[k];
      && Best(compare, scored)[k] == Scored(text, Distance(input, text))
      && text in seen && 0 < Distance(input, text) <= SUGGESTION_THRESHOLD
  {
    BestAreNearest(compare, scored, Best(compare, scored)[k]);
  }

  lemma RankedInOrder(compare: Collation, input: Text, seen: set<Text>, scored: seq<Scored>, i: nat, j: nat)
    requires Consistent(compare) && Scores(input, seen, scored) && i < j < |RankByDistance(compare, scored)|
    ensures var r := RankByDistance(compare, scored); r[i] != r[j] && RanksNoLater(compare, input, r[i], r[j])
  {
    RankedText(compare, input, seen, scored, i);
    RankedText(compare, input, seen, scored, j);
    BestAreNearest(compare, scored, Best(compare, scored)[i]);
    BestDistinct(compare, scored);
  }

  lemma LeftOut(compare: Collation, input: Text, seen: set<Text>, scored: seq<Scored>, text: Text, k: nat)
    requires Consistent(compare) && Scores(input, seen, scored)
    requires text in seen && 0 < Distance(input, text) <= SUGGESTION_THRESHOLD
    requires text !in RankByDistance(compare, scored)
    ensures var r := RankByDistance(compare, scored);
      |r| == MAX_SUGGESTIONS && (k < |r| ==> RanksNoLater(compare, input, r[k], text))
  {
    var r, best := RankByDistance(compare, scored), Best(compare, scored);
    var x := Scored(text, Distance(input, text));
    assert forall h :: 0 <= h < |best| ==> r[h] == best[h].text;
    assert x !in best;
    BestAreNearest(compare, scored, x);
    if k < |r| {
      RankedText(compare, input, seen, scored, k);
      assert best[k] in best;
    }
  }

  lemma RankedSuggestions(compare: Collation, input: Text, seen: set<Text>, scored: seq<Scored>)
    requires Consistent(compare) && Scores(input, seen, scored)
    ensures var r := RankByDistance(compare, scored);
      && (forall text :: text in r ==> text in seen && 0 < Distance(input, text) <= SUGGESTION_THRESHOLD)
      && (forall text :: text in seen && 0 < Distance(input, text) <= SUGGESTION_THRESHOLD && text !in r ==>
            |r| == MAX_SUGGESTIONS && forall other :: other in r ==> RanksNoLater(compare, input, other, text))
      && (forall i, j :: 0 <= i < j < |r| ==> r[i] != r[j] && RanksNoLater(compare, input, r[i], r[j]))
  {
    var r := RankByDistance(compare, scored);
    forall text | text in r
      ensures text in seen && 0 < Distance(input, text) <= SUGGESTION_THRESHOLD
    {
      var k :| 0 <= k < |r| && r[k] == text;
      RankedText(compare, input, seen, scored, k);
    }
    forall text | text in seen && 0 < Distance(input, text) <= SUGGESTION_THRESHOLD && text !in r
      ensures |r| == MAX_SUGGESTIONS
      ensures forall other :: other in r ==> RanksNoLater(compare, input, other, text)
    {
      LeftOut(compare, input, seen, scored, text, 0);
      forall other | other in r
        ensures RanksNoLater(compare, input, other, text)
      {
        var k :| 0 <= k < |r| && r[k] == other;
        LeftOut(compare, input, seen, scored, text, k);
      }
    }
    forall i, j | 0 <= i < j < |r|
      ensures r[i] != r[j] && RanksNoLater(compare, input, r[i], r[j])
    {
      RankedInOrder(compare, input, seen, scored, i, j);
    }
  }

  /** At most three different suggestions in rank order, each a near match of the same depth that no destructive
      command hides behind unless the input reached for one; and a near match is left out only for three that rank
      no later. */
  method SuggestCommands(specs: seq<CommandSpec>, commandPath: Command, compare: Collation)
    returns (suggestions: seq<Text>)
    requires Consistent(compare)
    ensures |suggestions| <= 3
    ensures forall text :: text in suggestions ==> Suggestible(specs, commandPath, text)
    ensures forall text :: Suggestible(specs, commandPath, text) && text !in suggestions ==>
      |suggestions| == 3
      && forall other :: other in suggestions ==> RanksNoLater(compare, Join(commandPath), other, text)
    ensures forall i, j :: 0 <= i < j < |suggestions| ==>
      suggestions[i] != suggestions[j] && RanksNoLater(compare, Join(commandPath), suggestions[i], suggestions[j])
  {
    var input := Join(commandPath);
    var verbs := DestructiveVerbs(specs);
    var allowDestructive := IntendsDestruction(FinalToken(commandPath), verbs);
    assert allowDestructive == ReachesForDestruction(specs, commandPath);
    var seen, scored := {}, [];
    for i := 0 to |specs|
      invariant Scores(input, seen, scored)
      invariant forall text :: text in seen <==>
        exists h :: 0 <= h < i && Offers(specs[h], allowDestructive, |commandPath|, text)
    {
      if specs[i].destructive && !allowDestructive {
        continue;
      }
      seen, scored := ScoreCommand(specs[i], |commandPath|, input, seen, scored);
    }
    suggestions := RankByDistance(compare, scored);
    RankedSuggestions(compare, input, seen, scored);
  }
}
