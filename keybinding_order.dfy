/**
 * The order in which bindings are written out (`compareTo` and `sortRaw` of
 * src/lib/Keybinding.ts). Two inputs of the source are parameters here:
 * `table`, the key sort table imported from lib/keySorting.js, and
 * `collate`, the three-way comparison of `Intl.Collator("de")`. The order
 * lemmas assume of `collate` only what `IsComparator` states; the lemmas
 * about ties also assume `IsCollation`, that it answers zero only on equal
 * strings.
 */
module KeybindingOrder {
  import opened Results
  import opened JsStrings
  import opened Keybindings

  /** A three-way string comparison: negative, zero or positive. */
  type Collation = (string, string) -> int

  function Sign(n: int): int {
    if n < 0 then -1 else if n > 0 then 1 else 0
  }

  /**
   * What the order lemmas assume of the collator: swapping its arguments
   * flips the sign of its answer, and "comes before" is transitive.
   */
  ghost predicate IsComparator(collate: Collation) {
    (forall x, y :: Sign(collate(x, y)) == -Sign(collate(y, x)))
    && (forall x, y, z :: collate(x, y) < 0 && collate(y, z) < 0 ==> collate(x, z) < 0)
  }

  /** A comparator that moreover answers zero only on equal strings. */
  ghost predicate IsCollation(collate: Collation) {
    IsComparator(collate) && forall x, y :: collate(x, y) == 0 ==> x == y
  }

  lemma ComparatorAntisymmetric(collate: Collation, x: string, y: string)
    requires IsComparator(collate)
    ensures Sign(collate(x, y)) == -Sign(collate(y, x))
  {
  }

  lemma ComparatorTransitive(collate: Collation, x: string, y: string, z: string)
    requires IsComparator(collate) && collate(x, y) < 0 && collate(y, z) < 0
    ensures collate(x, z) < 0
  {
  }

  /** A comparator answers zero on equal strings. */
  lemma ComparatorReflexive(collate: Collation, x: string)
    requires IsComparator(collate)
    ensures collate(x, x) == 0
  {
    assert Sign(collate(x, x)) == -Sign(collate(x, x));
  }

  /** The first index of `x` in `table` (`Array.prototype.indexOf`). */
  function IndexOf(table: seq<string>, x: string): (i: nat)
    requires x in table
    ensures i < |table| && table[i] == x
    ensures forall j :: 0 <= j < i ==> table[j] != x
  {
    if table[0] == x then 0 else 1 + IndexOf(table[1..], x)
  }

  /**
   * The comparison of two different base keys: keys in the table come
   * before all others and among themselves follow the table; keys outside
   * it follow the collator.
   */
  function CompareBaseKeys(table: seq<string>, collate: Collation, x: string, y: string): int {
    var thisIsSorted := x in table;
    var otherIsSorted := y in table;
    if thisIsSorted && !otherIsSorted then -1
    else if !thisIsSorted && otherIsSorted then 1
    else if thisIsSorted && otherIsSorted then IndexOf(table, x) - IndexOf(table, y)
    else collate(x, y)
  }

  /**
   * Table keys come before all other keys, and among themselves follow the
   * table, two of them tying only when they are the same key.
   */
  lemma BaseKeysTableOrder(table: seq<string>, collate: Collation, x: string, y: string)
    ensures (x in table) != (y in table) ==>
              CompareBaseKeys(table, collate, x, y) != 0 && (CompareBaseKeys(table, collate, x, y) < 0 <==> x in table)
    ensures x in table && y in table ==>
              (CompareBaseKeys(table, collate, x, y) < 0 <==> IndexOf(table, x) < IndexOf(table, y))
              && (CompareBaseKeys(table, collate, x, y) == 0 <==> x == y)
  {
  }

  /** Swapping two base keys flips the sign of their comparison. */
  lemma BaseKeysAntisymmetric(table: seq<string>, collate: Collation, x: string, y: string)
    requires IsComparator(collate)
    ensures Sign(CompareBaseKeys(table, collate, x, y)) == -Sign(CompareBaseKeys(table, collate, y, x))
  {
  }

  /** Under a collation, two different base keys never compare equal. */
  lemma BaseKeysDistinct(table: seq<string>, collate: Collation, x: string, y: string)
    requires IsCollation(collate) && x != y
    ensures CompareBaseKeys(table, collate, x, y) != 0
  {
    if x in table && y in table {
      assert IndexOf(table, x) != IndexOf(table, y);
    }
  }

  /** "Comes before" on base keys is transitive. */
  lemma BaseKeysTransitive(table: seq<string>, collate: Collation, x: string, y: string, z: string)
    requires IsComparator(collate)
    requires CompareBaseKeys(table, collate, x, y) < 0 && CompareBaseKeys(table, collate, y, z) < 0
    ensures CompareBaseKeys(table, collate, x, z) < 0
  {
  }

  /**
   * The comparison of two bindings of the same logic (lines 213-237): by
   * base key, then complexity, then command, then `when` (absent counts as
   * empty). The base key of an empty key cannot be taken, which throws.
   */
  function CompareFields(table: seq<string>, collate: Collation, a: Keybinding, b: Keybinding)
    : (r: Result<int, KeyError>)
    requires a.key.Some? && b.key.Some?
    ensures r.Ok? <==> a.key.value != "" && b.key.value != ""
    ensures r.Err? ==> r.error == UnsplittableKey("")
  {
    var thisBaseKey :- GetBaseKey(a);
    var otherBaseKey :- GetBaseKey(b);
    if thisBaseKey != otherBaseKey then Ok(CompareBaseKeys(table, collate, thisBaseKey, otherBaseKey))
    else if GetComplexity(a) != GetComplexity(b) then Ok(GetComplexity(a) - GetComplexity(b))
    else if a.command != b.command then Ok(collate(a.command, b.command))
    else Ok(collate(a.when.GetOr(""), b.when.GetOr("")))
  }

  /**
   * `compareTo`: deletions come before additions; two deletions compare as
   * their positive forms (each step removes one `-`, so the recursion ends);
   * two additions compare field by field.
   */
  function CompareTo(table: seq<string>, collate: Collation, a: Keybinding, b: Keybinding)
    : (r: Result<int, KeyError>)
    requires WellFormed(a) && WellFormed(b)
    requires GetLogic(a) != GetLogic(b) || (a.key.Some? && b.key.Some?)
    ensures a.key.Some? && b.key.Some? && a.key.value != "" && b.key.value != "" ==> r.Ok?
    ensures GetLogic(a) != GetLogic(b) ==> r == Ok(if GetLogic(a) == Deletion then -1 else 1)
    ensures r.Err? ==> r.error == UnsplittableKey("")
    decreases |a.command|
  {
    var thisIsDeletion := GetLogic(a) == Deletion;
    var otherIsDeletion := GetLogic(b) == Deletion;
    if thisIsDeletion && !otherIsDeletion then Ok(-1)
    else if !thisIsDeletion && otherIsDeletion then Ok(1)
    else if thisIsDeletion && otherIsDeletion then CompareTo(table, collate, AsPositive(a), AsPositive(b))
    else CompareFields(table, collate, a, b)
  }

  /**
   * The fields two bindings of the same position share: base key,
   * complexity, command and `when`.
   */
  predicate SamePosition(a: Keybinding, b: Keybinding)
    requires a.key.Some? && b.key.Some?
  {
    GetBaseKey(a) == GetBaseKey(b) && GetComplexity(a) == GetComplexity(b)
    && a.command == b.command && a.when == b.when
  }

  lemma FieldsAntisymmetric(table: seq<string>, collate: Collation, a: Keybinding, b: Keybinding)
    requires IsComparator(collate) && a.key.Some? && b.key.Some?
    ensures CompareFields(table, collate, a, b).Ok? ==>
              Sign(CompareFields(table, collate, a, b).value) == -Sign(CompareFields(table, collate, b, a).value)
  {
    if CompareFields(table, collate, a, b).Ok? {
      var x, y := GetBaseKey(a).value, GetBaseKey(b).value;
      if x != y {
        BaseKeysAntisymmetric(table, collate, x, y);
      } else if GetComplexity(a) != GetComplexity(b) {
      } else if a.command != b.command {
        ComparatorAntisymmetric(collate, a.command, b.command);
      } else {
        ComparatorAntisymmetric(collate, a.when.GetOr(""), b.when.GetOr(""));
      }
    }
  }

  lemma FieldsZeroIff(table: seq<string>, collate: Collation, a: Keybinding, b: Keybinding)
    requires IsCollation(collate) && WellFormed(a) && WellFormed(b) && a.key.Some? && b.key.Some?
    requires CompareFields(table, collate, a, b).Ok?
    ensures CompareFields(table, collate, a, b).value == 0 <==> SamePosition(a, b)
  {
    var x, y := GetBaseKey(a).value, GetBaseKey(b).value;
    if x != y {
      BaseKeysDistinct(table, collate, x, y);
    }
  }

  lemma FieldsTransitive(table: seq<string>, collate: Collation, a: Keybinding, b: Keybinding, c: Keybinding)
    requires IsComparator(collate) && a.key.Some? && b.key.Some? && c.key.Some?
    requires CompareFields(table, collate, a, b).Ok? && CompareFields(table, collate, a, b).value < 0
    requires CompareFields(table, collate, b, c).Ok? && CompareFields(table, collate, b, c).value < 0
    ensures CompareFields(table, collate, a, c).Ok? && CompareFields(table, collate, a, c).value < 0
  {
    var x, y, z := GetBaseKey(a).value, GetBaseKey(b).value, GetBaseKey(c).value;
    if x != y && y != z {
      if x == z {
        BaseKeysAntisymmetric(table, collate, x, y);
        assert false;
      }
      BaseKeysTransitive(table, collate, x, y, z);
    } else if x != y || y != z {
    } else if GetComplexity(a) != GetComplexity(b) || GetComplexity(b) != GetComplexity(c) {
    } else {
      var p, q, r := a.command, b.command, c.command;
      if p != q && q != r {
        if p == r {
          ComparatorAntisymmetric(collate, p, q);
          assert false;
        }
        ComparatorTransitive(collate, p, q, r);
      } else if p == q && q == r {
        ComparatorTransitive(collate, a.when.GetOr(""), b.when.GetOr(""), c.when.GetOr(""));
      }
    }
  }

  /** The positive form of a deletion, one `-` shorter, keeps its sort position fields. */
  lemma PositiveSamePosition(a: Keybinding, b: Keybinding)
    requires WellFormed(a) && WellFormed(b) && a.key.Some? && b.key.Some?
    requires GetLogic(a) == Deletion && GetLogic(b) == Deletion
    ensures SamePosition(AsPositive(a), AsPositive(b)) <==> SamePosition(a, b)
  {
    var p, q := AsPositive(a), AsPositive(b);
    SameKeySameFields(a, p);
    SameKeySameFields(b, q);
    assert a.command == [a.command[0]] + p.command;
    assert b.command == [b.command[0]] + q.command;
  }

  /** Base key and complexity depend on the stored key alone. */
  lemma SameKeySameFields(a: Keybinding, b: Keybinding)
    requires a.key.Some? && a.key == b.key
    ensures GetBaseKey(a) == GetBaseKey(b) && GetComplexity(a) == GetComplexity(b)
  {
    assert SplitIntoHalves(a) == SplitIntoHalves(b);
    assert ToKeys(a) == ToKeys(b);
  }

  /** Swapping the two bindings flips the sign of the comparison and keeps whether it throws. */
  lemma {:induction false} CompareAntisymmetric(table: seq<string>, collate: Collation, a: Keybinding, b: Keybinding)
    requires IsComparator(collate)
    requires WellFormed(a) && WellFormed(b) && a.key.Some? && b.key.Some?
    ensures CompareTo(table, collate, a, b).Ok? == CompareTo(table, collate, b, a).Ok?
    ensures CompareTo(table, collate, a, b).Ok? ==>
              Sign(CompareTo(table, collate, a, b).value) == -Sign(CompareTo(table, collate, b, a).value)
    decreases |a.command|
  {
    if GetLogic(a) == Deletion && GetLogic(b) == Deletion {
      CompareAntisymmetric(table, collate, AsPositive(a), AsPositive(b));
    } else if GetLogic(a) == Addition && GetLogic(b) == Addition {
      FieldsAntisymmetric(table, collate, a, b);
    }
  }

  /** A successful comparison is zero exactly when the two bindings share their sort position. */
  lemma {:induction false} CompareZeroIff(table: seq<string>, collate: Collation, a: Keybinding, b: Keybinding)
    requires IsCollation(collate)
    requires WellFormed(a) && WellFormed(b) && a.key.Some? && b.key.Some?
    requires CompareTo(table, collate, a, b).Ok?
    ensures CompareTo(table, collate, a, b).value == 0 <==> SamePosition(a, b)
    decreases |a.command|
  {
    if GetLogic(a) == Deletion && GetLogic(b) == Deletion {
      CompareZeroIff(table, collate, AsPositive(a), AsPositive(b));
      PositiveSamePosition(a, b);
    } else if GetLogic(a) == Addition && GetLogic(b) == Addition {
      FieldsZeroIff(table, collate, a, b);
    } else {
      assert a.command != b.command;
    }
  }

  /** Two bindings that share their sort position compare equal, under any comparator. */
  lemma {:induction false} SamePositionTies(table: seq<string>, collate: Collation, a: Keybinding, b: Keybinding)
    requires IsComparator(collate)
    requires WellFormed(a) && WellFormed(b) && a.key.Some? && b.key.Some? && a.key.value != "" && b.key.value != ""
    requires SamePosition(a, b)
    ensures CompareTo(table, collate, a, b) == Ok(0)
    decreases |a.command|
  {
    if GetLogic(a) == Deletion {
      PositiveSamePosition(a, b);
      SamePositionTies(table, collate, AsPositive(a), AsPositive(b));
    } else {
      ComparatorReflexive(collate, a.when.GetOr(""));
    }
  }

  /** Every binding with a non-empty key compares equal to itself. */
  lemma {:induction false} CompareReflexive(table: seq<string>, collate: Collation, a: Keybinding)
    requires IsComparator(collate)
    requires WellFormed(a) && a.key.Some? && a.key.value != ""
    ensures CompareTo(table, collate, a, a) == Ok(0)
    decreases |a.command|
  {
    if GetLogic(a) == Deletion {
      CompareReflexive(table, collate, AsPositive(a));
    } else {
      ComparatorReflexive(collate, a.when.GetOr(""));
    }
  }

  /** "Sorts before" is transitive, and the comparison of the outer pair then succeeds. */
  lemma {:induction false} CompareTransitive(
    table: seq<string>, collate: Collation, a: Keybinding, b: Keybinding, c: Keybinding)
    requires IsComparator(collate)
    requires WellFormed(a) && WellFormed(b) && WellFormed(c) && a.key.Some? && b.key.Some? && c.key.Some?
    requires CompareTo(table, collate, a, b).Ok? && CompareTo(table, collate, a, b).value < 0
    requires CompareTo(table, collate, b, c).Ok? && CompareTo(table, collate, b, c).value < 0
    ensures CompareTo(table, collate, a, c).Ok? && CompareTo(table, collate, a, c).value < 0
    decreases |a.command|
  {
    if GetLogic(a) == Deletion && GetLogic(b) == Deletion && GetLogic(c) == Deletion {
      CompareTransitive(table, collate, AsPositive(a), AsPositive(b), AsPositive(c));
    } else if GetLogic(a) == Addition && GetLogic(b) == Addition && GetLogic(c) == Addition {
      FieldsTransitive(table, collate, a, b, c);
    }
  }

  /** A deletion sorts before every addition, whatever their keys, set or not. */
  lemma DeletionsFirst(table: seq<string>, collate: Collation, a: Keybinding, b: Keybinding)
    requires WellFormed(a) && WellFormed(b)
    requires GetLogic(a) == Deletion && GetLogic(b) == Addition
    ensures CompareTo(table, collate, a, b) == Ok(-1)
    ensures CompareTo(table, collate, b, a) == Ok(1)
  {
  }

  // ---------------------------------------------------------------------------
  // Sorting raw records

  /**
   * When both records parse into bindings of the same logic, both bindings
   * have a key (their comparison then reads the keys).
   */
  predicate KeysComparable(a: RawKeybinding, b: RawKeybinding) {
    FromRaw(a).Ok? && FromRaw(b).Ok? && GetLogic(FromRaw(a).value) == GetLogic(FromRaw(b).value)
    ==> FromRaw(a).value.key.Some? && FromRaw(b).value.key.Some?
  }

  /**
   * `sortRaw`: parse both records and compare the bindings. A parse error
   * names one of the two records.
   */
  function SortRaw(table: seq<string>, collate: Collation, a: RawKeybinding, b: RawKeybinding)
    : (r: Result<int, KeyError>)
    requires KeysComparable(a, b)
    ensures FromRaw(a).Err? ==> r == Err(FromRaw(a).error)
    ensures FromRaw(a).Ok? && FromRaw(b).Err? ==> r == Err(FromRaw(b).error)
    ensures FromRaw(a).Ok? && FromRaw(b).Ok? && GetLogic(FromRaw(a).value) != GetLogic(FromRaw(b).value) ==>
              r == Ok(if StartsWith(a.command, "-") then -1 else 1)
    ensures r.Err? && r.error.MultipleBaseKeys? ==> r.error.rawKey == a.key || r.error.rawKey == b.key
    ensures r.Err? && !r.error.MultipleBaseKeys? ==> r.error == UnsplittableKey("")
    ensures IsKeyToken(a.key) && IsKeyToken(b.key) && a.key != "" && b.key != "" ==> r.Ok?
  {
    TokenParses(a);
    TokenParses(b);
    var x :- FromRaw(a);
    var y :- FromRaw(b);
    CompareTo(table, collate, x, y)
  }

  lemma TokenParses(raw: RawKeybinding)
    ensures IsKeyToken(raw.key) ==> FromRaw(raw).Ok? && FromRaw(raw).value.key == Some(raw.key)
  {
    if IsKeyToken(raw.key) {
      FromRawSingleToken(raw);
    }
  }

  /** Swapping two records that both parse flips the sign of their comparison. */
  lemma SortRawAntisymmetric(table: seq<string>, collate: Collation, a: RawKeybinding, b: RawKeybinding)
    requires IsComparator(collate) && KeysComparable(a, b)
    requires FromRaw(a).Ok? && FromRaw(b).Ok?
    ensures SortRaw(table, collate, a, b).Ok? == SortRaw(table, collate, b, a).Ok?
    ensures SortRaw(table, collate, a, b).Ok? ==>
              Sign(SortRaw(table, collate, a, b).value) == -Sign(SortRaw(table, collate, b, a).value)
  {
    var x, y := FromRaw(a).value, FromRaw(b).value;
    if GetLogic(x) == GetLogic(y) {
      CompareAntisymmetric(table, collate, x, y);
    }
  }

  // ---------------------------------------------------------------------------
  // A collation meeting the assumptions

  /** Lexicographic order by character code, answering -1, 0 or 1. */
  function Ordinal(x: string, y: string): (r: int)
    ensures -1 <= r <= 1
  {
    if x == [] then (if y == [] then 0 else -1)
    else if y == [] then 1
    else if x[0] < y[0] then -1
    else if x[0] > y[0] then 1
    else Ordinal(x[1..], y[1..])
  }

  lemma {:induction false} OrdinalZero(x: string, y: string)
    ensures Ordinal(x, y) == 0 <==> x == y
  {
    if x != [] && y != [] && x[0] == y[0] {
      OrdinalZero(x[1..], y[1..]);
      assert x == [x[0]] + x[1..] && y == [y[0]] + y[1..];
    }
  }

  lemma {:induction false} OrdinalAntisymmetric(x: string, y: string)
    ensures Ordinal(x, y) == -Ordinal(y, x)
  {
    if x != [] && y != [] && x[0] == y[0] {
      OrdinalAntisymmetric(x[1..], y[1..]);
    }
  }

  lemma {:induction false} OrdinalTransitive(x: string, y: string, z: string)
    requires Ordinal(x, y) < 0 && Ordinal(y, z) < 0
    ensures Ordinal(x, z) < 0
  {
    if x != [] && y != [] && z != [] && x[0] == y[0] && y[0] == z[0] {
      OrdinalTransitive(x[1..], y[1..], z[1..]);
    }
  }

  /** The assumptions of the order lemmas can be met. */
  lemma OrdinalIsCollation()
    ensures IsCollation(Ordinal)
  {
    forall x, y ensures Ordinal(x, y) == 0 <==> x == y {
      OrdinalZero(x, y);
    }
    forall x, y ensures Sign(Ordinal(x, y)) == -Sign(Ordinal(y, x)) {
      OrdinalAntisymmetric(x, y);
    }
    forall x, y, z | Ordinal(x, y) < 0 && Ordinal(y, z) < 0 ensures Ordinal(x, z) < 0 {
      OrdinalTransitive(x, y, z);
    }
  }

  // ---------------------------------------------------------------------------
  // Examples

  /** With the table `["f1", "a"]`: `f1` before `a` by the table, `a` before `z`, `x` before `z` by the collator. */
  lemma TableOrderExample()
    ensures WellFormed(KeyOnly("f1")) && WellFormed(KeyOnly("a")) && WellFormed(KeyOnly("x")) && WellFormed(KeyOnly("z"))
    ensures CompareTo(["f1", "a"], Ordinal, KeyOnly("f1"), KeyOnly("a")) == Ok(-1)
    ensures CompareTo(["f1", "a"], Ordinal, KeyOnly("a"), KeyOnly("z")) == Ok(-1)
    ensures CompareTo(["f1", "a"], Ordinal, KeyOnly("x"), KeyOnly("z")) == Ok(-1)
  {
    var table := ["f1", "a"];
    ShortKeyTokens();
    CompareShortKeys(table, Ordinal, "f1", "a");
    CompareShortKeys(table, Ordinal, "a", "z");
    CompareShortKeys(table, Ordinal, "x", "z");
    TableExampleBaseKeys();
  }

  /** The base keys of the table example, compared on their own. */
  lemma TableExampleBaseKeys()
    ensures CompareBaseKeys(["f1", "a"], Ordinal, "f1", "a") == -1
    ensures CompareBaseKeys(["f1", "a"], Ordinal, "a", "z") == -1
    ensures CompareBaseKeys(["f1", "a"], Ordinal, "x", "z") == -1
  {
    var table := ["f1", "a"];
    assert IndexOf(table, "f1") == 0 && IndexOf(table, "a") == 1;
    assert "z" !in table && "x" !in table;
  }

  /** The keys of the table example are key tokens. */
  lemma ShortKeyTokens()
    ensures IsKeyToken("f1") && IsKeyToken("a") && IsKeyToken("x") && IsKeyToken("z")
  {
    assert !HasWhitespace("f1") by {
      assert !IsWhitespace("f1"[0]) && !IsWhitespace("f1"[1]);
    }
  }

  /** Two distinct additions whose keys have at most two characters compare by their base keys. */
  lemma CompareShortKeys(table: seq<string>, collate: Collation, x: string, y: string)
    requires IsKeyToken(x) && IsKeyToken(y) && 1 <= |x| <= 2 && 1 <= |y| <= 2 && x != y
    ensures WellFormed(KeyOnly(x)) && WellFormed(KeyOnly(y))
    ensures CompareTo(table, collate, KeyOnly(x), KeyOnly(y)) == Ok(CompareBaseKeys(table, collate, x, y))
  {
    assert GetBaseKey(KeyOnly(x)) == Ok(x);
    assert GetBaseKey(KeyOnly(y)) == Ok(y);
    assert !StartsWith("", "-");
  }


  lemma ParseCtrlK(command: string)
    ensures FromRaw(RawKeybinding("ctrl+k", command, None, None))
            == Ok(Keybinding(None, Some("ctrl+k"), command, None, None, false, false, false))
  {
    assert IsKeyToken("ctrl+k");
    FromRawSingleToken(RawKeybinding("ctrl+k", command, None, None));
  }

  /** The deletion of a record sorts before the record itself. */
  lemma DeletionSortsFirstExample()
    ensures var deletion := RawKeybinding("ctrl+k", "-foo", None, None);
            var addition := RawKeybinding("ctrl+k", "foo", None, None);
            KeysComparable(deletion, addition)
            && SortRaw([], Ordinal, deletion, addition) == Ok(-1)
  {
    var deletion := RawKeybinding("ctrl+k", "-foo", None, None);
    var addition := RawKeybinding("ctrl+k", "foo", None, None);
    var x := Keybinding(None, Some("ctrl+k"), "-foo", None, None, false, false, false);
    var y := Keybinding(None, Some("ctrl+k"), "foo", None, None, false, false, false);
    ParseCtrlK("-foo");
    ParseCtrlK("foo");
    LogicOfFoo();
    SortRawParsed([], Ordinal, deletion, addition, x, y);
    DeletionsFirst([], Ordinal, x, y);
  }

  /** The logic of the commands `-foo` and `foo`. */
  lemma LogicOfFoo()
    ensures GetLogic(Keybinding(None, Some("ctrl+k"), "-foo", None, None, false, false, false)) == Deletion
    ensures GetLogic(Keybinding(None, Some("ctrl+k"), "foo", None, None, false, false, false)) == Addition
  {
    assert "-foo"[..1] == "-";
    assert "foo"[0] != '-';
  }

  /** Once both records parse, `sortRaw` is the comparison of the two bindings. */
  lemma SortRawParsed(
    table: seq<string>, collate: Collation, a: RawKeybinding, b: RawKeybinding, x: Keybinding, y: Keybinding)
    requires FromRaw(a) == Ok(x) && FromRaw(b) == Ok(y) && x.key.Some? && y.key.Some?
    ensures KeysComparable(a, b)
    ensures SortRaw(table, collate, a, b) == CompareTo(table, collate, x, y)
  {
  }


  /**
   * Different keys can share a position: `a+k` and `b+k` have base key `k`
   * and complexity 11, so with the same command they compare equal.
   */
  lemma TieExample(table: seq<string>, collate: Collation)
    requires IsComparator(collate)
    ensures WellFormed(KeyOnly("a+k")) && WellFormed(KeyOnly("b+k"))
    ensures CompareTo(table, collate, KeyOnly("a+k"), KeyOnly("b+k")) == Ok(0)
  {
    TwoTokenKeysShareBase();
    SamePositionTies(table, collate, KeyOnly("a+k"), KeyOnly("b+k"));
  }

  /** `a+k` and `b+k` are well-formed keys of the same base key and complexity. */
  lemma TwoTokenKeysShareBase()
    ensures WellFormed(KeyOnly("a+k")) && WellFormed(KeyOnly("b+k"))
    ensures SamePosition(KeyOnly("a+k"), KeyOnly("b+k"))
  {
    TwoTokenKeyTokens();
    TwoTokenKeysSamePosition("a+k", "b+k");
  }

  /** The keys of the tie example are key tokens. */
  lemma TwoTokenKeyTokens()
    ensures IsKeyToken("a+k") && IsKeyToken("b+k")
  {
    assert !HasWhitespace("a+k") by {
      assert !IsWhitespace("a+k"[0]) && !IsWhitespace("a+k"[1]) && !IsWhitespace("a+k"[2]);
    }
    assert !HasWhitespace("b+k") by {
      assert !IsWhitespace("b+k"[0]) && !IsWhitespace("b+k"[1]) && !IsWhitespace("b+k"[2]);
    }
  }

  /** Keys `x+z` and `y+z` of one-character tokens share base key and complexity. */
  lemma TwoTokenKeysSamePosition(x: string, y: string)
    requires |x| == 3 && x[1] == '+' && !IsKeySeparator(x[0]) && !IsKeySeparator(x[2])
    requires |y| == 3 && y[1] == '+' && !IsKeySeparator(y[0]) && y[2] == x[2]
    ensures SamePosition(KeyOnly(x), KeyOnly(y))
  {
    BaseKeyOfTwoTokens(x);
    BaseKeyOfTwoTokens(y);
  }

  /** A key `x+y` of two one-character tokens has base key `y` and complexity 11. */
  lemma BaseKeyOfTwoTokens(k: string)
    requires |k| == 3 && k[1] == '+' && !IsKeySeparator(k[0]) && !IsKeySeparator(k[2])
    ensures GetBaseKey(KeyOnly(k)) == Ok([k[2]])
    ensures GetComplexity(KeyOnly(k)) == 11
  {
    assert LastSeparatorBetween(k, 1, 2) == Some(1);
    assert k[2..] == [k[2]];
    var kb := KeyOnly(k);
    ComplexityMeaning(kb);
    SplitTwoTokens([k[0]], '+', [k[2]]);
    assert k == [k[0]] + ['+'] + [k[2]];
  }
}
