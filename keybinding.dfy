/**
 * The keybinding value object of src/lib/Keybinding.ts: parsing a raw
 * `{key, command, args?, when?}` record, the queries on a parsed binding and
 * the conversion back to a raw record. The comparator lives in
 * keybinding_order.dfy.
 *
 * The final keystroke is split on the seven-character literal `\s*+\*s`
 * (a string, not a regular expression), so an ordinary keystroke such as
 * `ctrl+k` is one part and becomes the whole stored key; the queries below
 * then work on that whole keystroke with their own `[ +]` splits.
 */
module Keybindings {
  import opened Results
  import opened JsStrings

  /** A binding as it is read from and written to the configuration. */
  datatype RawKeybinding = RawKeybinding(
    key: string,
    command: string,
    args: Option<seq<string>>,
    when: Option<string>)

  /** The two halves of the stored key: everything up to the last separator, and the rest. */
  datatype HalvesSplit = HalvesSplit(prefix: Option<string>, baseKey: string)

  datatype VisualizationKind = BaseKey | Connector | ModifierKey

  /** One rendered piece of a key combination. */
  datatype KeyVisualization = KeyVisualization(kind: VisualizationKind, value: string, title: string)

  datatype Logic = Addition | Deletion

  /** The errors the source throws. */
  datatype KeyError =
    | MultipleBaseKeys(rawKey: string, first: string, second: string)
    | UnsplittableKey(key: string)

  /**
   * A parsed binding. `key` is the base key of the final keystroke; it is
   * absent when every part of that keystroke is a modifier name.
   */
  datatype Keybinding = Keybinding(
    setupKeystrokes: Option<seq<string>>,
    key: Option<string>,
    command: string,
    args: Option<seq<string>>,
    when: Option<string>,
    modifierAlt: bool,
    modifierCtrl: bool,
    modifierShift: bool)

  /** The separator the final keystroke is split on: backslash, s, star, plus, backslash, star, s. */
  const PartSeparator: string := "\\s*+\\*s"

  predicate IsModifier(part: string) {
    part == "ctrl" || part == "shift" || part == "alt"
  }

  /** What a stored key always is: one part of a whitespace-free keystroke that names no modifier. */
  predicate IsKeyToken(k: string) {
    !HasWhitespace(k) && !HasSubstring(k, PartSeparator) && !IsModifier(k)
  }

  /** What every binding built by the constructor satisfies. */
  predicate WellFormed(kb: Keybinding) {
    (kb.key.Some? ==> IsKeyToken(kb.key.value)) && kb.when != Some("")
  }

  // ---------------------------------------------------------------------------
  // Titles

  /** The fixed titles of special keys (German keyboard layout for the OEM keys). */
  const TitleMap: map<string, string> := map[
    "escape" := "ESC",
    "up" := "\U{25B2}",
    "down" := "\U{25BC}",
    "left" := "\U{25C0}",
    "right" := "\U{25B6}",
    "oem_1" := "\U{DC}",
    "oem_2" := "#",
    "oem_3" := "#",
    "oem_4" := "\U{1E9E}",
    "oem_5" := "^",
    "oem_6" := "\U{B4}",
    "oem_7" := "\U{C4}",
    "oem_period" := ".",
    "oem_comma" := ",",
    "oem_minus" := "-",
    "oem_plus" := "+",
    "oem_102" := "<"
  ]

  /** The human title of a key token: its table entry, a numpad name, or the token upper-cased. */
  function GetTitleFromKey(key: string): (title: string)
    ensures |key| > 0 ==> |title| > 0
  {
    if key in TitleMap then TitleMap[key]
    else if StartsWith(key, "numpad_") then "Numpad " + ToUpper(key[7..])
    else if StartsWith(key, "numpad") then "Numpad " + key[6..]
    else ToUpper(key)
  }

  lemma TitlesFromTable()
    ensures GetTitleFromKey("escape") == "ESC"
    ensures GetTitleFromKey("up") == "\U{25B2}"
  {
  }

  lemma TitleOfNumpadName()
    ensures GetTitleFromKey("numpad_add") == "Numpad ADD"
  {
    var key := "numpad_add";
    assert key !in TitleMap;
    assert StartsWith(key, "numpad_");
    assert key[7..] == "add";
    assert ToUpper("add") == "ADD";
  }

  lemma TitleOfNumpadDigit()
    ensures GetTitleFromKey("numpad1") == "Numpad 1"
  {
    var key := "numpad1";
    assert key !in TitleMap;
    assert key[..7][6] != "numpad_"[6];
    assert StartsWith(key, "numpad");
    assert key[6..] == "1";
  }

  lemma TitleOfModifier()
    ensures GetTitleFromKey("ctrl") == "CTRL"
  {
    assert "ctrl" !in TitleMap;
    assert !StartsWith("ctrl", "numpad_") && !StartsWith("ctrl", "numpad");
    assert ToUpper("ctrl") == "CTRL";
  }

  lemma TitleOfPlainKey()
    ensures GetTitleFromKey("f1") == "F1"
  {
    assert "f1" !in TitleMap;
    assert !StartsWith("f1", "numpad_") && !StartsWith("f1", "numpad");
    assert ToUpper("f1") == "F1";
  }

  // ---------------------------------------------------------------------------
  // Construction

  function LastOf(s: seq<string>): Option<string> {
    if s == [] then None else Some(s[|s| - 1])
  }

  /** The parts that are not modifier names, in order. */
  function BaseParts(parts: seq<string>): (r: seq<string>)
    ensures |r| <= |parts|
    ensures forall k :: 0 <= k < |r| ==> !IsModifier(r[k]) && r[k] in parts
  {
    if parts == [] then []
    else
      var init := BaseParts(parts[..|parts| - 1]);
      var last := parts[|parts| - 1];
      assert forall k :: 0 <= k < |init| ==> init[k] in parts by {
        assert forall x :: x in parts[..|parts| - 1] ==> x in parts;
      }
      if IsModifier(last) then init else init + [last]
  }

  lemma {:induction false} BasePartsAppend(a: seq<string>, b: seq<string>)
    ensures BaseParts(a + b) == BaseParts(a) + BaseParts(b)
    decreases |b|
  {
    if b == [] {
      assert a + b == a;
    } else {
      var init := b[..|b| - 1];
      assert (a + b)[..|a + b| - 1] == a + init;
      BasePartsAppend(a, init);
    }
  }

  /** The index of the first non-empty string, or `|s|` when there is none. */
  function FirstNonEmpty(s: seq<string>): (j: nat)
    ensures j <= |s|
    ensures forall k :: 0 <= k < j ==> s[k] == ""
    ensures j < |s| ==> s[j] != ""
  {
    if s == [] then 0 else if s[0] != "" then 0 else 1 + FirstNonEmpty(s[1..])
  }

  /**
   * What the constructor builds from `data`, stated over the non-modifier
   * parts of the final keystroke: the constructor keeps the latest such part
   * and throws when one arrives while the kept one is non-empty, so it
   * succeeds exactly when all of them but the last are empty.
   */
  function FromRaw(data: RawKeybinding): (r: Result<Keybinding, KeyError>)
    ensures r.Ok? ==> WellFormed(r.value)
    ensures r.Ok? ==> r.value.command == data.command && r.value.args == data.args
    ensures r.Ok? ==> r.value.when == (if data.when == Some("") then None else data.when)
    ensures r.Ok? ==> (r.value.setupKeystrokes.Some? <==> HasWhitespace(data.key))
    ensures r.Err? ==> r.error.MultipleBaseKeys? && r.error.rawKey == data.key
    ensures r.Err? ==> r.error.first != "" && !IsModifier(r.error.first) && !IsModifier(r.error.second)
  {
    var keystrokes := SplitOnWhitespace(data.key);
    var keystroke := keystrokes[|keystrokes| - 1];
    var parts := SplitOn(keystroke, PartSeparator);
    var bases := BaseParts(parts);
    var j := FirstNonEmpty(bases);
    SplitOnWhitespaceCount(data.key);
    PartsAreTokens(keystroke);
    if j + 1 < |bases| then
      Err(MultipleBaseKeys(data.key, bases[j], bases[j + 1]))
    else
      Ok(Keybinding(
        if |keystrokes| > 1 then Some(keystrokes[..|keystrokes| - 1]) else None,
        LastOf(bases),
        data.command,
        data.args,
        if data.when.Some? && data.when.value != "" then data.when else None,
        "alt" in parts, "ctrl" in parts, "shift" in parts))
  }

  /** The parts that are not modifier names are none exactly when every part is a modifier name. */
  lemma {:induction false} BasePartsEmpty(parts: seq<string>)
    ensures BaseParts(parts) == [] <==> forall k :: 0 <= k < |parts| ==> IsModifier(parts[k])
  {
    if parts != [] {
      var init := parts[..|parts| - 1];
      BasePartsEmpty(init);
      BasePartsSnoc(init, parts[|parts| - 1]);
      assert init + [parts[|parts| - 1]] == parts;
      assert forall k :: 0 <= k < |init| ==> init[k] == parts[k];
    }
  }

  /**
   * The stored key is one of the parts of the final whitespace-separated
   * keystroke, and it is unset exactly when every part of that keystroke is
   * a modifier name; the keystrokes before the final one are the setup.
   */
  lemma FromRawKeyOfFinalKeystroke(data: RawKeybinding)
    ensures FromRaw(data).Ok? && FromRaw(data).value.key.Some? ==>
              FromRaw(data).value.key.value in KeystrokeParts(data.key)
    ensures FromRaw(data).Ok? ==>
              (FromRaw(data).value.key.None? <==>
                 forall k :: 0 <= k < |KeystrokeParts(data.key)| ==> IsModifier(KeystrokeParts(data.key)[k]))
    ensures FromRaw(data).Ok? && FromRaw(data).value.setupKeystrokes.Some? ==>
              FromRaw(data).value.setupKeystrokes.value + [FinalKeystroke(data.key)] == SplitOnWhitespace(data.key)
  {
    SplitOnWhitespaceCount(data.key);
    var keystrokes := SplitOnWhitespace(data.key);
    assert keystrokes[..|keystrokes| - 1] + [keystrokes[|keystrokes| - 1]] == keystrokes;
    BasePartsEmpty(KeystrokeParts(data.key));
  }

  /** The parts of a whitespace-free keystroke hold neither whitespace nor the separator. */
  lemma PartsAreTokens(keystroke: string)
    requires !HasWhitespace(keystroke)
    ensures forall k :: 0 <= k < |SplitOn(keystroke, PartSeparator)| ==>
              !HasWhitespace(SplitOn(keystroke, PartSeparator)[k])
              && !HasSubstring(SplitOn(keystroke, PartSeparator)[k], PartSeparator)
  {
    SplitOnJoin(keystroke, PartSeparator);
    SplitOnPieces(keystroke, PartSeparator);
    JoinNoWhitespace(SplitOn(keystroke, PartSeparator), PartSeparator);
  }

  /**
   * The constructor: the whole key is split on whitespace runs, the optional
   * fields are copied when present (`when` only when non-empty), and the
   * parts of the final keystroke are read by `ReadKeystrokeParts`.
   */
  method NewKeybinding(data: RawKeybinding) returns (r: Result<Keybinding, KeyError>)
    ensures r == FromRaw(data)
  {
    var command := data.command;
    var args: Option<seq<string>> := None;
    if data.args.Some? {
      args := data.args;
    }
    var when: Option<string> := None;
    if data.when.Some? && data.when.value != "" {
      when := data.when;
    }
    var keystrokes := SplitOnWhitespace(data.key);
    var keystroke := keystrokes[|keystrokes| - 1];
    var setupKeystrokes: Option<seq<string>> := None;
    if |keystrokes| > 1 {
      setupKeystrokes := Some(keystrokes[..|keystrokes| - 1]);
    }
    var keystrokeParts := SplitOn(keystroke, PartSeparator);
    assert keystrokeParts == KeystrokeParts(data.key);
    var key, modifierAlt, modifierCtrl, modifierShift, conflict := ReadKeystrokeParts(keystrokeParts);
    if conflict.Some? {
      FromRawConflict(data, keystrokeParts, conflict.value.0, conflict.value.1);
      return Err(MultipleBaseKeys(data.key, conflict.value.0, conflict.value.1));
    }
    assert args == data.args;
    FromRawNoConflict(data, keystrokes, keystrokeParts, setupKeystrokes, key, when, modifierAlt, modifierCtrl, modifierShift);
    r := Ok(Keybinding(setupKeystrokes, key, command, args, when, modifierAlt, modifierCtrl, modifierShift));
  }

  /**
   * The loop of the constructor over the parts of the final keystroke: a
   * modifier name sets its flag; any other part becomes the key, unless the
   * key kept so far is non-empty, in which case the two conflict and the
   * loop stops. Without a conflict the key is the last base part and each
   * flag says whether its modifier occurs.
   */
  method ReadKeystrokeParts(parts: seq<string>)
    returns (key: Option<string>, modifierAlt: bool, modifierCtrl: bool, modifierShift: bool,
             conflict: Option<(string, string)>)
    ensures var bases := BaseParts(parts);
            conflict.None? ==> FirstNonEmpty(bases) + 1 >= |bases| && key == LastOf(bases)
    ensures conflict.None? ==>
              modifierAlt == ("alt" in parts) && modifierCtrl == ("ctrl" in parts) && modifierShift == ("shift" in parts)
    ensures var bases := BaseParts(parts);
            var j := FirstNonEmpty(bases);
            conflict.Some? ==> j + 1 < |bases| && bases[j] == conflict.value.0 && bases[j + 1] == conflict.value.1
  {
    modifierAlt, modifierCtrl, modifierShift := false, false, false;
    key := None;
    conflict := None;
    ghost var seen: seq<string> := [];
    ghost var bases: seq<string> := [];
    for i := 0 to |parts|
      invariant seen == parts[..i] && bases == BaseParts(seen)
      invariant modifierAlt == ("alt" in seen)
      invariant modifierCtrl == ("ctrl" in seen)
      invariant modifierShift == ("shift" in seen)
      invariant key == LastOf(bases)
      invariant FirstNonEmpty(bases) + 1 >= |bases|
    {
      var part := parts[i];
      assert parts[..i + 1] == seen + [part];
      BasePartsSnoc(seen, part);
      if part == "ctrl" {
        modifierCtrl := true;
        seen := seen + [part];
        continue;
      }
      if part == "shift" {
        modifierShift := true;
        seen := seen + [part];
        continue;
      }
      if part == "alt" {
        modifierAlt := true;
        seen := seen + [part];
        continue;
      }
      if key.Some? && key.value != "" {
        ConflictAt(parts, i);
        conflict := Some((key.value, part));
        return;
      }
      NoConflictStep(bases, part);
      key := Some(part);
      seen := seen + [part];
      bases := bases + [part];
    }
    assert parts[..|parts|] == parts;
  }

  /** The base parts of one more part. */
  lemma BasePartsSnoc(seen: seq<string>, part: string)
    ensures BaseParts(seen + [part]) == BaseParts(seen) + (if IsModifier(part) then [] else [part])
  {
    assert (seen + [part])[..|seen|] == seen;
  }

  /** A base part after an empty (or no) kept key leaves no conflict. */
  lemma NoConflictStep(bases: seq<string>, part: string)
    requires LastOf(bases).None? || LastOf(bases).value == ""
    requires FirstNonEmpty(bases) + 1 >= |bases|
    ensures FirstNonEmpty(bases + [part]) + 1 >= |bases + [part]|
  {
    assert forall k :: 0 <= k < |bases| ==> bases[k] == "";
    var next := bases + [part];
    assert forall k :: 0 <= k < |bases| ==> next[k] == "";
  }

  /**
   * When the loop meets a base part while the kept key is non-empty, that key
   * and this part are the first conflicting pair of `FromRaw`.
   */
  lemma ConflictAt(parts: seq<string>, i: nat)
    requires i < |parts| && !IsModifier(parts[i])
    requires LastOf(BaseParts(parts[..i])).Some? && LastOf(BaseParts(parts[..i])).value != ""
    requires FirstNonEmpty(BaseParts(parts[..i])) + 1 >= |BaseParts(parts[..i])|
    ensures FirstNonEmpty(BaseParts(parts)) + 1 < |BaseParts(parts)|
    ensures BaseParts(parts)[FirstNonEmpty(BaseParts(parts))] == LastOf(BaseParts(parts[..i])).value
    ensures BaseParts(parts)[FirstNonEmpty(BaseParts(parts)) + 1] == parts[i]
  {
    var seen := BaseParts(parts[..i]);
    var part := parts[i];
    assert parts == parts[..i] + ([part] + parts[i + 1..]);
    BasePartsAppend(parts[..i], [part] + parts[i + 1..]);
    BasePartsAppend([part], parts[i + 1..]);
    assert BaseParts([part]) == [part] by {
      assert [part][..0] == [];
    }
    var bases := BaseParts(parts);
    assert bases == seen + ([part] + BaseParts(parts[i + 1..]));
    assert FirstNonEmpty(seen) == |seen| - 1;
    assert bases[|seen| - 1] == seen[|seen| - 1];
    assert forall k :: 0 <= k < |seen| - 1 ==> bases[k] == seen[k];
    assert FirstNonEmpty(bases) == |seen| - 1;
  }

  /** The parts of the final keystroke of `key`, as the constructor splits them. */
  function KeystrokeParts(key: string): seq<string> {
    var keystrokes := SplitOnWhitespace(key);
    SplitOn(keystrokes[|keystrokes| - 1], PartSeparator)
  }

  /** The final whitespace-separated keystroke of `key`. */
  function FinalKeystroke(key: string): string {
    SplitOnWhitespaceCount(key);
    var keystrokes := SplitOnWhitespace(key);
    keystrokes[|keystrokes| - 1]
  }

  /** The final keystroke is a suffix of the key that is all of it or follows a whitespace character. */
  lemma FinalKeystrokeIsSuffix(key: string)
    ensures IsFinalPiece(FinalKeystroke(key), key)
  {
    SplitOnWhitespaceLast(key);
  }

  /** `FromRaw` on a key whose base parts conflict at the kept key `first` and the part `second`. */
  lemma FromRawConflict(data: RawKeybinding, parts: seq<string>, first: string, second: string)
    requires parts == KeystrokeParts(data.key)
    requires var bases := BaseParts(parts);
             var j := FirstNonEmpty(bases);
             j + 1 < |bases| && bases[j] == first && bases[j + 1] == second
    ensures FromRaw(data) == Err(MultipleBaseKeys(data.key, first, second))
  {
  }

  /** `FromRaw` on a key whose base parts do not conflict, given the values of its fields. */
  lemma FromRawNoConflict(
    data: RawKeybinding, keystrokes: seq<string>, parts: seq<string>,
    setupKeystrokes: Option<seq<string>>, key: Option<string>,
    when: Option<string>, alt: bool, ctrl: bool, shift: bool)
    requires keystrokes == SplitOnWhitespace(data.key) && parts == KeystrokeParts(data.key)
    requires var bases := BaseParts(parts);
             FirstNonEmpty(bases) + 1 >= |bases| && key == LastOf(bases)
    requires setupKeystrokes == if |keystrokes| > 1 then Some(keystrokes[..|keystrokes| - 1]) else None
    requires when == if data.when.Some? && data.when.value != "" then data.when else None
    requires alt == ("alt" in parts) && ctrl == ("ctrl" in parts) && shift == ("shift" in parts)
    ensures FromRaw(data) == Ok(Keybinding(setupKeystrokes, key, data.command, data.args, when, alt, ctrl, shift))
  {
  }

  /** A raw key that is a single key token is stored unchanged, without flags or setup keystrokes. */
  lemma FromRawSingleToken(data: RawKeybinding)
    requires IsKeyToken(data.key)
    ensures FromRaw(data) == Ok(Keybinding(
              None, Some(data.key), data.command, data.args,
              if data.when == Some("") then None else data.when, false, false, false))
  {
    SplitOnWhitespaceCount(data.key);
    SplitOnAbsent(data.key, PartSeparator);
    assert SplitOnWhitespace(data.key) == [data.key];
    var parts := KeystrokeParts(data.key);
    assert parts == [data.key];
    assert BaseParts(parts) == [data.key] by {
      assert [data.key][..0] == [];
    }
    assert "alt" !in parts && "ctrl" !in parts && "shift" !in parts;
    FromRawNoConflict(data, [data.key], parts, None, Some(data.key), if data.when == Some("") then None else data.when, false, false, false);
  }

  /**
   * A key of two keystrokes, the second a key token: the first becomes the
   * one setup keystroke and the second is stored as the key.
   */
  lemma FromRawTwoKeystrokes(data: RawKeybinding, setup: string, c: char, key: string)
    requires data.key == setup + [c] + key
    requires !HasWhitespace(setup) && IsWhitespace(c) && IsKeyToken(key)
    ensures FromRaw(data) == Ok(Keybinding(
              Some([setup]), Some(key), data.command, data.args,
              if data.when == Some("") then None else data.when, false, false, false))
  {
    TwoKeystrokesParts(setup, c, key);
    FromRawNoConflict(data, SplitOnWhitespace(data.key), KeystrokeParts(data.key), Some([setup]), Some(key), if data.when == Some("") then None else data.when, false, false, false);
  }

  /** The keystrokes and final parts of `setup`, whitespace, `key`. */
  lemma TwoKeystrokesParts(setup: string, c: char, key: string)
    requires !HasWhitespace(setup) && IsWhitespace(c) && IsKeyToken(key)
    ensures var keystrokes := SplitOnWhitespace(setup + [c] + key);
            |keystrokes| == 2 && keystrokes[..|keystrokes| - 1] == [setup]
    ensures var parts := KeystrokeParts(setup + [c] + key);
            BaseParts(parts) == [key] && "alt" !in parts && "ctrl" !in parts && "shift" !in parts
  {
    SplitOnWhitespaceTwo(setup, c, key);
    assert [setup, key][..1] == [setup];
    SplitOnAbsent(key, PartSeparator);
    assert [key][..0] == [];
  }

  /** A binding the constructor built is a combo exactly when the raw key has whitespace. */
  lemma ComboIffWhitespace(data: RawKeybinding)
    ensures FromRaw(data).Ok? ==> (IsCombo(FromRaw(data).value) <==> HasWhitespace(data.key))
  {
  }

  /**
   * `isAddition` as written looks at the stored key, not the command: a
   * deletion on `ctrl+k` passes it, and an addition on the key `-` fails it.
   */
  lemma IsAdditionReadsKey()
    ensures var deletion := Keybinding(None, Some("ctrl+k"), "-foo", None, None, false, false, false);
            WellFormed(deletion) && GetLogic(deletion) == Deletion && IsAddition(deletion)
    ensures var minus := Keybinding(None, Some("-"), "foo", None, None, false, false, false);
            WellFormed(minus) && GetLogic(minus) == Addition && !IsAddition(minus)
  {
    assert IsKeyToken("ctrl+k");
    assert IsKeyToken("-");
  }

  // ---------------------------------------------------------------------------
  // Queries

  predicate IsCombo(kb: Keybinding) {
    kb.setupKeystrokes.Some?
  }

  /** True unless the stored key starts with `-`. */
  predicate IsAddition(kb: Keybinding)
    requires kb.key.Some?
  {
    !StartsWith(kb.key.value, "-")
  }

  /**
   * The tokens of the stored key with the separators kept between them:
   * token, separator, token, ..., which together spell the key.
   */
  function ToParts(kb: Keybinding): (parts: seq<string>)
    requires kb.key.Some?
    ensures |parts| == 2 * |ToKeys(kb)| - 1
    ensures forall k :: 0 <= k < |ToKeys(kb)| ==> parts[2 * k] == ToKeys(kb)[k]
    ensures Concat(parts) == kb.key.value
  {
    SplitPartsShape(kb.key.value);
    SplitPartsConcat(kb.key.value);
    SplitParts(kb.key.value)
  }

  /** The tokens of the stored key; a key without a space or `+` is its only token. */
  function ToKeys(kb: Keybinding): (keys: seq<string>)
    requires kb.key.Some?
    ensures |keys| >= 1 && forall k :: 0 <= k < |keys| ==> !HasKeySeparator(keys[k])
    ensures |keys| == 1 <==> !HasKeySeparator(kb.key.value)
    ensures |keys| == 1 ==> keys == [kb.key.value]
  {
    SplitKeysCount(kb.key.value);
    SplitKeys(kb.key.value)
  }

  /**
   * Whether the stored key holds a space or `+`, that is, has more than one
   * token. An unset key is tested as the string `undefined`, which holds
   * neither.
   */
  predicate IsComplex(kb: Keybinding): (complex: bool)
    ensures complex <==> kb.key.Some? && |ToKeys(kb)| > 1
  {
    kb.key.Some? && HasKeySeparator(kb.key.value)
  }

  /**
   * The source record of a binding. The key written back is the stored key
   * alone, so setup keystrokes and the parts split off by the constructor
   * are not written back.
   */
  function ToRaw(kb: Keybinding): (raw: RawKeybinding)
    requires kb.key.Some?
    ensures raw.key == kb.key.value && raw.command == kb.command && raw.args == kb.args
    ensures raw.when != Some("") && (raw.when.Some? ==> raw.when == kb.when)
    ensures WellFormed(kb) ==> raw.when == kb.when
  {
    RawKeybinding(
      kb.key.value, kb.command, kb.args,
      if kb.when.Some? && kb.when.value != "" then kb.when else None)
  }

  /**
   * A record survives parsing and writing back unchanged exactly when its key
   * is a single key token and its `when` is not the empty string.
   */
  lemma RawRoundTrip(data: RawKeybinding)
    ensures (FromRaw(data).Ok? && FromRaw(data).value.key.Some? && ToRaw(FromRaw(data).value) == data)
            <==> (IsKeyToken(data.key) && data.when != Some(""))
  {
    if IsKeyToken(data.key) {
      FromRawSingleToken(data);
    }
  }

  /**
   * The greatest index `i` with `lo <= i < hi` at which `k` has a separator
   * character.
   */
  function LastSeparatorBetween(k: string, lo: nat, hi: nat): (r: Option<nat>)
    requires hi <= |k|
    ensures r.Some? ==> lo <= r.value < hi && IsKeySeparator(k[r.value])
    ensures r.Some? ==> forall j :: r.value < j < hi ==> !IsKeySeparator(k[j])
    ensures r.None? ==> forall j :: lo <= j < hi ==> !IsKeySeparator(k[j])
    decreases hi
  {
    if hi <= lo then None
    else if IsKeySeparator(k[hi - 1]) then Some(hi - 1)
    else LastSeparatorBetween(k, lo, hi - 1)
  }

  /**
   * The leftmost, greedy match of `(?<prefix>.+[ +])?(?<baseKey>.+)$` on
   * the stored key (which has no line terminator, so `.` matches every
   * character): the prefix ends at the last separator that has at least one
   * character on each side of it, and the empty key does not match.
   */
  function SplitIntoHalves(kb: Keybinding): (r: Result<HalvesSplit, KeyError>)
    requires kb.key.Some?
    ensures r.Err? <==> kb.key.value == ""
    ensures r.Err? ==> r.error == UnsplittableKey(kb.key.value)
    ensures r.Ok? ==> r.value.prefix.GetOr("") + r.value.baseKey == kb.key.value && |r.value.baseKey| > 0
    ensures r.Ok? && r.value.prefix.Some? ==>
              |r.value.prefix.value| >= 2 && IsKeySeparator(r.value.prefix.value[|r.value.prefix.value| - 1])
    ensures r.Ok? && r.value.prefix.Some? ==>
              forall i :: 0 <= i < |r.value.baseKey| - 1 ==> !IsKeySeparator(r.value.baseKey[i])
    ensures r.Ok? && r.value.prefix.None? ==>
              forall i :: 1 <= i < |kb.key.value| - 1 ==> !IsKeySeparator(kb.key.value[i])
  {
    var k := kb.key.value;
    if k == "" then Err(UnsplittableKey(k))
    else
      match LastSeparatorBetween(k, 1, |k| - 1)
      case Some(i) =>
        var base := k[i + 1..];
        assert k[..i + 1] + base == k;
        assert forall j :: 0 <= j < |base| - 1 ==> base[j] == k[i + 1 + j];
        Ok(HalvesSplit(Some(k[..i + 1]), base))
      case None =>
        Ok(HalvesSplit(None, k))
  }

  /** The base key: non-empty and no longer than the stored key; the empty key has none. */
  function GetBaseKey(kb: Keybinding): (r: Result<string, KeyError>)
    requires kb.key.Some?
    ensures r.Err? <==> kb.key.value == ""
    ensures r.Ok? ==> 0 < |r.value| <= |kb.key.value|
  {
    var halves :- SplitIntoHalves(kb);
    assert kb.key.value == halves.prefix.GetOr("") + halves.baseKey;
    Ok(halves.baseKey)
  }

  /** The prefix: what precedes the base key, absent or ending in a separator. */
  function GetPrefix(kb: Keybinding): (r: Result<Option<string>, KeyError>)
    requires kb.key.Some?
    ensures r.Err? <==> kb.key.value == ""
    ensures r.Ok? ==> GetBaseKey(kb).Ok? && r.value.GetOr("") + GetBaseKey(kb).value == kb.key.value
    ensures r.Ok? && r.value.Some? ==>
              |r.value.value| >= 2 && IsKeySeparator(r.value.value[|r.value.value| - 1])
  {
    var halves :- SplitIntoHalves(kb);
    assert GetBaseKey(kb) == Ok(halves.baseKey);
    Ok(halves.prefix)
  }

  /** The base key is the stored key's suffix of its own length. */
  lemma BaseKeyIsSuffix(kb: Keybinding)
    requires kb.key.Some? && kb.key.value != ""
    ensures GetBaseKey(kb).Ok?
    ensures var k, base := kb.key.value, GetBaseKey(kb).value; k[|k| - |base|..] == base
  {
    var k, base := kb.key.value, GetBaseKey(kb).value;
    assert GetPrefix(kb).value.GetOr("") + base == k;
  }

  /** A binding is a deletion exactly when its command begins with `-`. */
  function GetLogic(kb: Keybinding): (logic: Logic)
    ensures logic == Deletion <==> |kb.command| > 0 && kb.command[0] == '-'
  {
    if StartsWith(kb.command, "-") then Deletion else Addition
  }

  /**
   * The complexity score: 0 for a key of one token; otherwise ten per token
   * before the last plus the total length of those tokens.
   */
  function GetComplexity(kb: Keybinding): (c: nat)
    requires kb.key.Some?
    ensures c == 0 <==> !HasKeySeparator(kb.key.value)
    ensures c != 0 ==> c >= 10
  {
    var keys := ToKeys(kb);
    if |keys| == 1 then 0
    else
      var modifiers := keys[..|keys| - 1];
      |modifiers| * 10 + |Concat(modifiers)|
  }

  /**
   * Complexity is 0 for a key without separators; otherwise, with `n` tokens,
   * it is `9 * (n - 1)` plus the key's length minus the last token's length.
   * A key is complex exactly when its complexity is at least 10.
   */
  lemma ComplexityMeaning(kb: Keybinding)
    requires kb.key.Some?
    ensures !IsComplex(kb) ==> GetComplexity(kb) == 0
    ensures IsComplex(kb) ==>
              GetComplexity(kb) == 9 * (|ToKeys(kb)| - 1) + |kb.key.value| - |ToKeys(kb)[|ToKeys(kb)| - 1]|
    ensures IsComplex(kb) <==> GetComplexity(kb) >= 10
  {
    var k := kb.key.value;
    var keys := SplitKeys(k);
    SplitKeysCount(k);
    SplitKeysLength(k);
    if |keys| > 1 {
      var modifiers := keys[..|keys| - 1];
      assert keys == modifiers + [keys[|keys| - 1]];
      TotalLengthAppend(modifiers, [keys[|keys| - 1]]);
      ConcatLength(modifiers);
      assert TotalLength([keys[|keys| - 1]]) == |keys[|keys| - 1]|;
    }
  }

  /** A binding of the given key with an empty command and nothing else. */
  function KeyOnly(k: string): Keybinding {
    Keybinding(None, Some(k), "", None, None, false, false, false)
  }

  lemma ComplexityOfSingleKey()
    ensures GetComplexity(KeyOnly("k")) == 0
  {
    SplitKeysCount("k");
  }

  lemma ComplexityOfCtrlK()
    ensures GetComplexity(KeyOnly("ctrl+k")) == 14
  {
    SplitTwoTokens("ctrl", '+', "k");
    assert "ctrl+k" == "ctrl" + ['+'] + "k";
    var keys := SplitKeys("ctrl+k");
    assert keys == ["ctrl", "k"];
    assert keys[..1] == ["ctrl"];
    assert Concat(["ctrl"]) == "ctrl";
  }

  lemma KeysOfCtrlShiftK()
    ensures SplitKeys("ctrl+shift+k") == ["ctrl", "shift", "k"]
  {
    SplitThreeTokens("ctrl", '+', "shift", '+', "k");
    assert "ctrl" + ['+'] + "shift" + ['+'] + "k" == "ctrl+shift+k";
  }

  lemma ComplexityOfCtrlShiftK()
    ensures GetComplexity(KeyOnly("ctrl+shift+k")) == 29
  {
    var kb := KeyOnly("ctrl+shift+k");
    KeysOfCtrlShiftK();
    assert "ctrl+shift+k"[4] == '+';
    ComplexityMeaning(kb);
  }

  /**
   * The binding with the leading `-` of its command removed, built the way
   * the source builds it: by constructing a new binding from `ToRaw` with the
   * stripped command. Setup keystrokes and modifier flags do not survive.
   */
  function AsPositive(kb: Keybinding): (p: Keybinding)
    requires WellFormed(kb) && kb.key.Some?
    ensures WellFormed(p) && p.key == kb.key && p.args == kb.args && p.when == kb.when
    ensures p.command == PreventStart(kb.command, '-')
    ensures GetLogic(kb) == Deletion ==> |p.command| == |kb.command| - 1
    ensures GetLogic(kb) == Addition ==> p.command == kb.command
    ensures p.setupKeystrokes.None? && !p.modifierAlt && !p.modifierCtrl && !p.modifierShift
  {
    var raw := ToRaw(kb);
    var positive := raw.(command := PreventStart(raw.command, '-'));
    FromRawSingleToken(positive);
    FromRaw(positive).value
  }

  // ---------------------------------------------------------------------------
  // Visualization

  function VisualizePart(part: string): KeyVisualization {
    if part == " " then KeyVisualization(Connector, part, "\U{A0}\U{2192} ")
    else if part == "+" then KeyVisualization(Connector, part, "\U{A0}")
    else if IsModifier(part) then KeyVisualization(ModifierKey, part, GetTitleFromKey(part))
    else KeyVisualization(BaseKey, part, GetTitleFromKey(part))
  }

  /**
   * One entry per part of the stored key, carrying that part as its value;
   * connectors stand exactly at the odd positions, between the tokens, and
   * are titled no-break space, `→`, space for a space and a no-break space
   * for `+`; a token is a modifier entry exactly when it names a modifier.
   */
  function AsVisualization(kb: Keybinding): (v: seq<KeyVisualization>)
    requires kb.key.Some?
    ensures |v| == |ToParts(kb)|
    ensures forall i :: 0 <= i < |v| ==> v[i].value == ToParts(kb)[i]
    ensures forall i :: 0 <= i < |v| ==> (v[i].kind == Connector <==> i % 2 == 1)
    ensures forall i :: 0 <= i < |v| && v[i].kind != Connector ==> v[i].title == GetTitleFromKey(v[i].value)
    ensures forall i :: 0 <= i < |v| && i % 2 == 0 ==> (v[i].kind == ModifierKey <==> IsModifier(v[i].value))
    ensures forall i :: 0 <= i < |v| && v[i].kind == Connector ==>
              (v[i].value == " " && v[i].title == "\U{A0}\U{2192} ") || (v[i].value == "+" && v[i].title == "\U{A0}")
  {
    var parts := ToParts(kb);
    SplitPartsSeparatorPositions(kb.key.value);
    seq(|parts|, i requires 0 <= i < |parts| => VisualizePart(parts[i]))
  }

  /** The stored key holds no space, so no entry is the ` → ` connector and every connector is `+`. */
  lemma VisualizationHasNoArrow(kb: Keybinding)
    requires WellFormed(kb) && kb.key.Some?
    ensures forall i :: 0 <= i < |AsVisualization(kb)| && AsVisualization(kb)[i].kind == Connector ==>
              AsVisualization(kb)[i].value == "+" && AsVisualization(kb)[i].title == "\U{A0}"
  {
    SplitPartsNoSpace(kb.key.value);
  }

  lemma VisualizationExample()
    ensures AsVisualization(KeyOnly("ctrl+up")) ==
            [KeyVisualization(ModifierKey, "ctrl", "CTRL"),
             KeyVisualization(Connector, "+", "\U{A0}"),
             KeyVisualization(BaseKey, "up", "\U{25B2}")]
  {
    PartsOfCtrlUp();
    VisualizedCtrlUp();
    VisualizationOfThreeParts(KeyOnly("ctrl+up"), "ctrl", "+", "up");
  }

  /** A key of three parts is visualized part by part. */
  lemma VisualizationOfThreeParts(kb: Keybinding, a: string, b: string, c: string)
    requires kb.key.Some? && ToParts(kb) == [a, b, c]
    ensures AsVisualization(kb) == [VisualizePart(a), VisualizePart(b), VisualizePart(c)]
  {
    var v := AsVisualization(kb);
    assert v[0] == VisualizePart(a);
    assert v[1] == VisualizePart(b);
    assert v[2] == VisualizePart(c);
  }

  /** The entries for the parts of `ctrl+up`. */
  lemma VisualizedCtrlUp()
    ensures VisualizePart("ctrl") == KeyVisualization(ModifierKey, "ctrl", "CTRL")
    ensures VisualizePart("+") == KeyVisualization(Connector, "+", "\U{A0}")
    ensures VisualizePart("up") == KeyVisualization(BaseKey, "up", "\U{25B2}")
  {
    TitlesFromTable();
    TitleOfModifier();
  }

  /** The parts of `ctrl+up`. */
  lemma PartsOfCtrlUp()
    ensures SplitParts("ctrl+up") == ["ctrl", "+", "up"]
  {
    SplitTwoTokens("ctrl", '+', "up");
    assert "ctrl+up" == "ctrl" + ['+'] + "up";
  }
}
