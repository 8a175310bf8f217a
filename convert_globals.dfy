/**
 * The exclusion rules of src/workflows/build/convertGlobals.ts and the loop
 * that splits the global keybindings into `result`, the bindings no rule
 * matches, written back with a `-` before their command so that they are
 * deleted, and `excluded`, the bindings some rule matches, counting for each
 * rule title how many bindings it excluded.
 */
module ConvertGlobals {
  import opened Results
  import opened JsStrings
  import opened Keybindings

  /**
   * The regular expressions of the fixed rule list, all of one shape: an
   * optional modifier prefix from a fixed set, then one of `bases`, the
   * whole key anchored. `source` is the expression's text.
   */
  datatype KeyPattern = KeyPattern(source: string, bases: seq<string>)

  /** What a rule is built from: a string, a regular expression, or an array. */
  datatype RuleInput =
    | StringInput(s: string)
    | RegexInput(pattern: KeyPattern)
    | ArrayInput(items: seq<string>)

  /**
   * A rule: static key equality, a key pattern, command equality, or no
   * type at all (an array that does not start with `"command"`). A command
   * rule built from a one-element array has no value.
   */
  datatype ExclusionRule =
    | Static(value: string)
    | Regex(pattern: KeyPattern)
    | Command(command: Option<string>)
    | Untyped

  /**
   * The constructor. Only an array not headed by `"command"` leaves the rule
   * without a type and so without a title; `["command"]` alone leaves the
   * value undefined, which the title spells out.
   */
  function NewExclusionRule(input: RuleInput): (rule: ExclusionRule)
    ensures GetTitle(rule).None? <==> input.ArrayInput? && (|input.items| == 0 || input.items[0] != "command")
    ensures input.ArrayInput? && input.items == ["command"] ==> GetTitle(rule) == Some("command " + "undefined")
  {
    match input
    case StringInput(s) => Static(s)
    case RegexInput(p) => Regex(p)
    case ArrayInput(items) =>
      if |items| > 0 && items[0] == "command" then Command(if |items| > 1 then Some(items[1]) else None)
      else Untyped
  }

  /** The optional prefix of every fixed pattern: nothing, or a modifier combination and `+`. */
  const ModifierPrefixes: seq<string> :=
    ["", "ctrl+", "alt+", "shift+", "ctrl+alt+", "shift+alt+", "ctrl+shift+", "ctrl+shift+alt+"]

  /** The language of a fixed pattern: a modifier prefix followed by one of its base keys. */
  predicate MatchesPattern(pattern: KeyPattern, key: string) {
    exists i, j :: 0 <= i < |ModifierPrefixes| && 0 <= j < |pattern.bases| && key == ModifierPrefixes[i] + pattern.bases[j]
  }

  /** Whether the rule matches the entry; a rule without a type or without a value matches nothing. */
  function Test(rule: ExclusionRule, entry: RawKeybinding): (matches: bool)
    ensures rule.Untyped? ==> !matches
    ensures rule.Command? && rule.command.None? ==> !matches
  {
    match rule
    case Static(value) => entry.key == value
    case Regex(pattern) => MatchesPattern(pattern, entry.key)
    case Command(command) => command == Some(entry.command)
    case Untyped => false
  }

  /** The title of a rule; an untyped rule has none. */
  function GetTitle(rule: ExclusionRule): (title: Option<string>)
    ensures title.None? <==> rule.Untyped?
  {
    match rule
    case Static(value) => Some(value)
    case Regex(pattern) => Some(pattern.source)
    case Command(command) => Some("command " + command.GetOr("undefined"))
    case Untyped => None
  }

  /**
   * What each kind of input builds: a string matches exactly that key, an
   * array `["command", c]` exactly that command, any other array nothing.
   */
  lemma RuleSemantics(input: RuleInput, entry: RawKeybinding)
    ensures input.StringInput? ==> (Test(NewExclusionRule(input), entry) <==> entry.key == input.s)
    ensures input.RegexInput? ==> (Test(NewExclusionRule(input), entry) <==> MatchesPattern(input.pattern, entry.key))
    ensures input.ArrayInput? && |input.items| > 1 && input.items[0] == "command" ==>
              (Test(NewExclusionRule(input), entry) <==> entry.command == input.items[1])
    ensures input.ArrayInput? && (|input.items| <= 1 || input.items[0] != "command") ==>
              !Test(NewExclusionRule(input), entry)
  {
  }

  // ---------------------------------------------------------------------------
  // The fixed rule list

  /** The text of the optional modifier prefix shared by the fixed patterns. */
  const PrefixSource: string := "^(|(ctrl|alt|shift|ctrl\\+alt|shift\\+alt|ctrl\\+shift|ctrl\\+shift\\+alt)\\+)"

  /** The text of a fixed pattern with these base keys: one base bare, several as a group. */
  function PatternSource(bases: seq<string>): string
    requires |bases| >= 1
  {
    PrefixSource + (if |bases| == 1 then bases[0] else "(" + Join(bases, "|") + ")") + "$"
  }

  const ExcludedKeystrokeInputs: seq<RuleInput> := [
    RegexInput(KeyPattern(PrefixSource + "(up|left|right|down)$", ["up", "left", "right", "down"])),
    RegexInput(KeyPattern(PrefixSource + "(pageup|pagedown)$", ["pageup", "pagedown"])),
    RegexInput(KeyPattern(PrefixSource + "(end|home)$", ["end", "home"])),
    RegexInput(KeyPattern(PrefixSource + "backspace$", ["backspace"])),
    RegexInput(KeyPattern(PrefixSource + "delete$", ["delete"])),
    RegexInput(KeyPattern(PrefixSource + "tab$", ["tab"])),
    RegexInput(KeyPattern(PrefixSource + "enter$", ["enter"])),
    RegexInput(KeyPattern(PrefixSource + "escape$", ["escape"])),
    RegexInput(KeyPattern(PrefixSource + "space$", ["space"])),
    StringInput("ctrl+a"),
    StringInput("ctrl+c"),
    StringInput("ctrl+v"),
    StringInput("ctrl+z"),
    StringInput("ctrl+f"),
    StringInput("ctrl+shift+z"),
    StringInput("ctrl+shift+f"),
    StringInput("ctrl+w"),
    StringInput("ctrl+x"),
    ArrayInput(["command", "editor.action.refactor"])
  ]

  /** The rules built from the fixed inputs, in list order. */
  const ExcludedKeystrokes: seq<ExclusionRule> :=
    seq(|ExcludedKeystrokeInputs|, i requires 0 <= i < |ExcludedKeystrokeInputs| => NewExclusionRule(ExcludedKeystrokeInputs[i]))

  /** The text of each fixed pattern is the one its base keys give. */
  lemma FixedPatterns()
    ensures |ExcludedKeystrokes| == 19
    ensures forall i :: 0 <= i < 9 ==>
              ExcludedKeystrokes[i].Regex? && |ExcludedKeystrokes[i].pattern.bases| >= 1
              && GetTitle(ExcludedKeystrokes[i]) == Some(PatternSource(ExcludedKeystrokes[i].pattern.bases))
  {
    forall i | 0 <= i < 9
      ensures ExcludedKeystrokes[i].Regex? && |ExcludedKeystrokes[i].pattern.bases| >= 1
              && GetTitle(ExcludedKeystrokes[i]) == Some(PatternSource(ExcludedKeystrokes[i].pattern.bases))
    {
      FixedPatternInput(i);
      assert ExcludedKeystrokes[i] == Regex(ExcludedKeystrokeInputs[i].pattern);
    }
  }

  lemma FixedPatternInput(i: nat)
    requires i < 9
    ensures ExcludedKeystrokeInputs[i].RegexInput? && |ExcludedKeystrokeInputs[i].pattern.bases| >= 1
    ensures ExcludedKeystrokeInputs[i].pattern.source == PatternSource(ExcludedKeystrokeInputs[i].pattern.bases)
  {
    var p := ExcludedKeystrokeInputs[i].pattern;
    if i == 0 {
      UpDownSource();
    } else if i == 1 {
      GroupSource("pageup", ["pagedown"], "(pageup|pagedown)$");
    } else if i == 2 {
      GroupSource("end", ["home"], "(end|home)$");
    } else {
      assert p.source == PrefixSource + p.bases[0] + "$";
    }
  }

  /** The text of the pattern for the four arrow keys. */
  lemma UpDownSource()
    ensures PatternSource(["up", "left", "right", "down"]) == PrefixSource + "(up|left|right|down)$"
  {
    var bases := ["up", "left", "right", "down"];
    assert Join(bases[3..], "|") == "down";
    assert Join(bases[2..], "|") == "right|down";
    assert Join(bases[1..], "|") == "left|right|down";
    GroupSource("up", ["left", "right", "down"], "(up|left|right|down)$");
  }

  /** The text of a pattern with a group of at least two base keys. */
  lemma GroupSource(first: string, rest: seq<string>, text: string)
    requires |rest| >= 1 && text == "(" + Join([first] + rest, "|") + ")$"
    ensures PatternSource([first] + rest) == PrefixSource + text
  {
  }

  /** After the patterns come nine static keys and one command rule; every rule has a title. */
  lemma FixedStaticAndCommandRules()
    ensures forall i :: 9 <= i < 18 ==> ExcludedKeystrokes[i].Static?
    ensures ExcludedKeystrokes[18] == Command(Some("editor.action.refactor"))
    ensures GetTitle(ExcludedKeystrokes[18]) == Some("command " + "editor.action.refactor")
    ensures forall i :: 0 <= i < |ExcludedKeystrokes| ==> GetTitle(ExcludedKeystrokes[i]).Some?
  {
    FixedInputKinds();
  }

  /** The kinds of the fixed inputs. */
  lemma FixedInputKinds()
    ensures |ExcludedKeystrokeInputs| == 19
    ensures forall i :: 0 <= i < 9 ==> ExcludedKeystrokeInputs[i].RegexInput?
    ensures forall i :: 9 <= i < 18 ==> ExcludedKeystrokeInputs[i].StringInput?
    ensures ExcludedKeystrokeInputs[18] == ArrayInput(["command", "editor.action.refactor"])
  {
  }


  // ---------------------------------------------------------------------------
  // The partition

  /** The index of the first rule in list order that matches `entry`. */
  function FirstMatch(rules: seq<ExclusionRule>, entry: RawKeybinding): (r: Option<nat>)
    ensures r.Some? ==> r.value < |rules| && Test(rules[r.value], entry)
    ensures r.Some? ==> forall j :: 0 <= j < r.value ==> !Test(rules[j], entry)
    ensures r.None? ==> forall j :: 0 <= j < |rules| ==> !Test(rules[j], entry)
  {
    if rules == [] then None
    else if Test(rules[0], entry) then Some(0)
    else match FirstMatch(rules[1..], entry)
      case None => None
      case Some(j) => Some(j + 1)
  }

  /** The title the count of an excluded entry goes to: that of its first matching rule. */
  function FirstTitle(rules: seq<ExclusionRule>, entry: RawKeybinding): (t: Option<string>)
    ensures t.Some? <==> FirstMatch(rules, entry).Some?
  {
    match FirstMatch(rules, entry)
    case None => None
    case Some(j) => GetTitle(rules[j])
  }

  /** The entry as it is written to the deletion list: its command behind a `-`. */
  function AsDeletion(entry: RawKeybinding): (deletion: RawKeybinding)
    ensures StartsWith(deletion.command, "-") && PreventStart(deletion.command, '-') == entry.command
    ensures deletion.(command := entry.command) == entry
  {
    assert ("-" + entry.command)[..1] == "-";
    entry.(command := "-" + entry.command)
  }

  /** The key counter's `feed`: one more occurrence of `title`. */
  function Feed(counts: map<string, nat>, title: string): (fed: map<string, nat>)
    ensures fed.Keys == counts.Keys + {title}
    ensures fed[title] == (if title in counts then counts[title] else 0) + 1
    ensures forall t :: t in counts && t != title ==> fed[t] == counts[t]
  {
    counts[title := (if title in counts then counts[title] else 0) + 1]
  }

  /** The entries no rule matches, as deletions, in input order. */
  function Kept(rules: seq<ExclusionRule>, data: seq<RawKeybinding>): seq<RawKeybinding> {
    if data == [] then []
    else
      var entry := data[|data| - 1];
      Kept(rules, data[..|data| - 1]) + (if FirstMatch(rules, entry).None? then [AsDeletion(entry)] else [])
  }

  /** The entries some rule matches, unchanged, in input order. */
  function Excluded(rules: seq<ExclusionRule>, data: seq<RawKeybinding>): seq<RawKeybinding> {
    if data == [] then []
    else
      var entry := data[|data| - 1];
      Excluded(rules, data[..|data| - 1]) + (if FirstMatch(rules, entry).Some? then [entry] else [])
  }

  /** For each title, how many entries it excluded. */
  function ExclusionCounts(rules: seq<ExclusionRule>, data: seq<RawKeybinding>): map<string, nat> {
    if data == [] then map[]
    else
      var counts := ExclusionCounts(rules, data[..|data| - 1]);
      match FirstTitle(rules, data[|data| - 1])
      case None => counts
      case Some(title) => Feed(counts, title)
  }

  /**
   * The loop of the default export: each entry goes either to `excluded`,
   * counted under the title of the first rule that matches it, or, when no
   * rule matches, to `result` with its command negated.
   */
  method Partition(rules: seq<ExclusionRule>, data: seq<RawKeybinding>)
    returns (result: seq<RawKeybinding>, excluded: seq<RawKeybinding>, exclusionCounter: map<string, nat>)
    ensures result == Kept(rules, data)
    ensures excluded == Excluded(rules, data)
    ensures exclusionCounter == ExclusionCounts(rules, data)
  {
    result, excluded, exclusionCounter := [], [], map[];
    for n := 0 to |data|
      invariant result == Kept(rules, data[..n])
      invariant excluded == Excluded(rules, data[..n])
      invariant exclusionCounter == ExclusionCounts(rules, data[..n])
    {
      var entry := data[n];
      assert data[..n + 1][..n] == data[..n];
      var isIncluded := true;
      for j := 0 to |rules|
        invariant forall k :: 0 <= k < j ==> !Test(rules[k], entry)
      {
        if Test(rules[j], entry) {
          isIncluded := false;
          assert FirstMatch(rules, entry) == Some(j);
          excluded := excluded + [entry];
          exclusionCounter := Feed(exclusionCounter, GetTitle(rules[j]).value);
          break;
        }
      }
      if !isIncluded {
        continue;
      }
      result := result + [entry.(command := "-" + entry.command)];
    }
    assert data[..|data|] == data;
  }

  /** Every entry lands in exactly one of the two lists. */
  lemma {:induction false} PartitionSizes(rules: seq<ExclusionRule>, data: seq<RawKeybinding>)
    ensures |Kept(rules, data)| + |Excluded(rules, data)| == |data|
    decreases |data|
  {
    if data != [] {
      PartitionSizes(rules, data[..|data| - 1]);
    }
  }

  /** Both lists keep input order: partitioning a concatenation concatenates the partitions. */
  lemma {:induction false} PartitionAppend(rules: seq<ExclusionRule>, a: seq<RawKeybinding>, b: seq<RawKeybinding>)
    ensures Kept(rules, a + b) == Kept(rules, a) + Kept(rules, b)
    ensures Excluded(rules, a + b) == Excluded(rules, a) + Excluded(rules, b)
    decreases |b|
  {
    if b == [] {
      assert a + b == a;
    } else {
      var init, last := b[..|b| - 1], b[|b| - 1];
      assert b == init + [last];
      assert a + b == (a + init) + [last];
      PartitionAppend(rules, a, init);
      PartitionSnoc(rules, a + init, last);
      PartitionSnoc(rules, init, last);
    }
  }

  /** One more entry adds at most itself to each list. */
  lemma PartitionSnoc(rules: seq<ExclusionRule>, data: seq<RawKeybinding>, entry: RawKeybinding)
    ensures Kept(rules, data + [entry]) ==
              Kept(rules, data) + (if FirstMatch(rules, entry).None? then [AsDeletion(entry)] else [])
    ensures Excluded(rules, data + [entry]) ==
              Excluded(rules, data) + (if FirstMatch(rules, entry).Some? then [entry] else [])
  {
    assert (data + [entry])[..|data|] == data;
  }

  /** An entry is excluded exactly when it is in the input and some rule matches it. */
  lemma {:induction false} ExcludedMembers(rules: seq<ExclusionRule>, data: seq<RawKeybinding>, entry: RawKeybinding)
    ensures entry in Excluded(rules, data) <==>
              entry in data && exists j :: 0 <= j < |rules| && Test(rules[j], entry)
    decreases |data|
  {
    if data != [] {
      var init := data[..|data| - 1];
      ExcludedMembers(rules, init, entry);
      assert data == init + [data[|data| - 1]];
      if FirstMatch(rules, entry).Some? {
        var j := FirstMatch(rules, entry).value;
        assert Test(rules[j], entry);
      }
    }
  }

  /**
   * The kept list holds exactly the deletions of the input entries that no
   * rule matches.
   */
  lemma {:induction false} KeptMembers(rules: seq<ExclusionRule>, data: seq<RawKeybinding>, entry: RawKeybinding)
    ensures entry in Kept(rules, data) <==>
              exists d :: d in data && FirstMatch(rules, d).None? && entry == AsDeletion(d)
    decreases |data|
  {
    if data != [] {
      var init := data[..|data| - 1];
      var last := data[|data| - 1];
      KeptMembers(rules, init, entry);
      assert data == init + [last];
      if entry in Kept(rules, data) && entry !in Kept(rules, init) {
        assert entry == AsDeletion(last);
      }
    }
  }

  /** A kept entry is its input entry with `-` put before the command, so it is a deletion. */
  lemma KeptAreDeletions(rules: seq<ExclusionRule>, data: seq<RawKeybinding>, entry: RawKeybinding)
    requires entry in Kept(rules, data)
    ensures StartsWith(entry.command, "-")
    ensures exists d :: d in data && entry == d.(command := "-" + d.command)
              && forall j :: 0 <= j < |rules| ==> !Test(rules[j], d)
  {
    KeptMembers(rules, data, entry);
    var d :| d in data && FirstMatch(rules, d).None? && entry == AsDeletion(d);
    assert entry.command[..1] == "-";
  }

  // ---------------------------------------------------------------------------
  // Counting

  /** The total of all counts. */
  ghost function Sum(counts: map<string, nat>): nat
    decreases |counts|
  {
    if counts == map[] then 0
    else
      var title :| title in counts;
      counts[title] + Sum(counts - {title})
  }

  /** The total does not depend on the key taken out first. */
  lemma {:induction false} SumRemove(counts: map<string, nat>, title: string)
    requires title in counts
    ensures Sum(counts) == counts[title] + Sum(counts - {title})
    decreases |counts|
  {
    var first :| first in counts && Sum(counts) == counts[first] + Sum(counts - {first});
    if first != title {
      assert counts - {first} - {title} == counts - {title} - {first};
      SumRemove(counts - {first}, title);
      SumRemove(counts - {title}, first);
    }
  }

  lemma SumFeed(counts: map<string, nat>, title: string)
    ensures Sum(Feed(counts, title)) == Sum(counts) + 1
  {
    var fed := Feed(counts, title);
    SumRemove(fed, title);
    assert fed - {title} == counts - {title};
    if title in counts {
      SumRemove(counts, title);
    } else {
      assert counts - {title} == counts;
    }
  }

  /** The counts add up to the number of excluded entries. */
  lemma {:induction false} CountsSum(rules: seq<ExclusionRule>, data: seq<RawKeybinding>)
    ensures Sum(ExclusionCounts(rules, data)) == |Excluded(rules, data)|
    decreases |data|
  {
    if data != [] {
      var init := data[..|data| - 1];
      CountsSum(rules, init);
      match FirstTitle(rules, data[|data| - 1])
      case None =>
      case Some(title) => SumFeed(ExclusionCounts(rules, init), title);
    }
  }

  /** A title has a count exactly when it is the first matching title of some input entry. */
  lemma {:induction false} CountedTitles(rules: seq<ExclusionRule>, data: seq<RawKeybinding>, title: string)
    ensures title in ExclusionCounts(rules, data) <==> exists d :: d in data && FirstTitle(rules, d) == Some(title)
    ensures title in ExclusionCounts(rules, data) ==> ExclusionCounts(rules, data)[title] > 0
    decreases |data|
  {
    if data != [] {
      var init := data[..|data| - 1];
      CountedTitles(rules, init, title);
      assert data == init + [data[|data| - 1]];
    }
  }

  /** How many entries of `data` have `title` as the title of their first matching rule. */
  function TitleCount(rules: seq<ExclusionRule>, data: seq<RawKeybinding>, title: string): nat {
    if data == [] then 0
    else TitleCount(rules, data[..|data| - 1], title) + (if FirstTitle(rules, data[|data| - 1]) == Some(title) then 1 else 0)
  }

  /** The count of each title is the number of entries it excluded; an absent title excluded none. */
  lemma {:induction false} CountsAreTitleCounts(rules: seq<ExclusionRule>, data: seq<RawKeybinding>, title: string)
    ensures title in ExclusionCounts(rules, data) ==> ExclusionCounts(rules, data)[title] == TitleCount(rules, data, title)
    ensures title !in ExclusionCounts(rules, data) ==> TitleCount(rules, data, title) == 0
    decreases |data|
  {
    if data != [] {
      CountsAreTitleCounts(rules, data[..|data| - 1], title);
    }
  }

  // ---------------------------------------------------------------------------
  // Examples on the fixed list

  lemma ExcludedExample()
    ensures FirstMatch(ExcludedKeystrokes, RawKeybinding("ctrl+shift+alt+space", "x", None, None)).Some?
  {
    var entry := RawKeybinding("ctrl+shift+alt+space", "x", None, None);
    assert entry.key == ModifierPrefixes[7] + ExcludedKeystrokes[8].pattern.bases[0];
    assert Test(ExcludedKeystrokes[8], entry);
  }

  /** The modifiers of `alt+ctrl+up` are in an order no fixed prefix has, so it is kept. */
  lemma KeptExample()
    ensures FirstMatch(ExcludedKeystrokes, RawKeybinding("alt+ctrl+up", "x", None, None)).None?
  {
    var entry := RawKeybinding("alt+ctrl+up", "x", None, None);
    FixedPatterns();
    FixedBasesArePlain();
    PrefixesOfAltCtrlUp();
    forall j | 0 <= j < 9
      ensures !Test(ExcludedKeystrokes[j], entry)
    {
      NoPatternMatch(ExcludedKeystrokes[j].pattern, entry.key);
    }
    assert forall j :: 9 <= j < 19 ==> !Test(ExcludedKeystrokes[j], entry);
  }

  /** A key whose every remainder after a fixed prefix has a separator matches no pattern of plain base keys. */
  lemma NoPatternMatch(pattern: KeyPattern, key: string)
    requires forall j :: 0 <= j < |pattern.bases| ==> !HasKeySeparator(pattern.bases[j])
    requires forall i :: 0 <= i < |ModifierPrefixes| && StartsWith(key, ModifierPrefixes[i]) ==>
               HasKeySeparator(key[|ModifierPrefixes[i]|..])
    ensures !MatchesPattern(pattern, key)
  {
  }

  /** The base keys of the fixed patterns hold no separator. */
  lemma FixedBasesArePlain()
    ensures forall i, j :: 0 <= i < 9 && 0 <= j < |ExcludedKeystrokes[i].pattern.bases| ==>
              !HasKeySeparator(ExcludedKeystrokes[i].pattern.bases[j])
  {
  }

  lemma PrefixesOfAltCtrlUp()
    ensures forall i :: 0 <= i < |ModifierPrefixes| && StartsWith("alt+ctrl+up", ModifierPrefixes[i]) ==>
              HasKeySeparator("alt+ctrl+up"[|ModifierPrefixes[i]|..])
  {
    assert "alt+ctrl+up"[3] == '+';
    assert "alt+ctrl+up"[4..] == "ctrl+up" && "ctrl+up"[4] == '+';
  }
}
