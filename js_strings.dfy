/**
 * The few JavaScript string operations the keybinding code relies on, each
 * written out for the one pattern it is used with: a split on runs of `\s`,
 * a split on a literal string separator, the two splits on the character
 * class `[ +]` (with and without the captured separators), ASCII upper-casing
 * and stripping one leading character.
 */
module JsStrings {

  /** The characters JavaScript's `\s` class matches. */
  predicate IsWhitespace(c: char) {
    c == '\t' || c == '\n' || c == '\U{B}' || c == '\U{C}' || c == '\r' || c == ' '
    || c == '\U{A0}' || c == '\U{1680}' || ('\U{2000}' <= c <= '\U{200A}')
    || c == '\U{2028}' || c == '\U{2029}' || c == '\U{202F}' || c == '\U{205F}'
    || c == '\U{3000}' || c == '\U{FEFF}'
  }

  predicate HasWhitespace(s: string) {
    exists i :: 0 <= i < |s| && IsWhitespace(s[i])
  }

  predicate StartsWith(s: string, prefix: string) {
    |prefix| <= |s| && s[..|prefix|] == prefix
  }

  /** `s` with its leading run of whitespace removed. */
  function DropWhitespace(s: string): (r: string)
    ensures |r| <= |s|
    ensures r == [] || !IsWhitespace(r[0])
    ensures s != [] && IsWhitespace(s[0]) ==> |r| < |s|
  {
    if s != [] && IsWhitespace(s[0]) then DropWhitespace(s[1..]) else s
  }

  /**
   * `s.split(/\s+/)`: the pieces between maximal runs of whitespace. A leading
   * or trailing run yields an empty first or last piece, and the empty string
   * yields one empty piece.
   */
  function SplitOnWhitespace(s: string): (r: seq<string>)
    ensures |r| >= 1
    ensures forall k :: 0 <= k < |r| ==> !HasWhitespace(r[k])
    decreases |s|
  {
    if s == [] then [""]
    else if IsWhitespace(s[0]) then [""] + SplitOnWhitespace(DropWhitespace(s))
    else
      var rest := SplitOnWhitespace(s[1..]);
      assert !HasWhitespace([s[0]] + rest[0]) by {
        assert forall i :: 1 <= i < |[s[0]] + rest[0]| ==> ([s[0]] + rest[0])[i] == rest[0][i - 1];
      }
      [[s[0]] + rest[0]] + rest[1..]
  }

  /** There is more than one piece exactly when `s` contains whitespace; without any, the one piece is `s`. */
  lemma {:induction false} SplitOnWhitespaceCount(s: string)
    ensures |SplitOnWhitespace(s)| > 1 <==> HasWhitespace(s)
    ensures !HasWhitespace(s) ==> SplitOnWhitespace(s) == [s]
    decreases |s|
  {
    if s == [] {
    } else if IsWhitespace(s[0]) {
      assert |SplitOnWhitespace(s)| == 1 + |SplitOnWhitespace(DropWhitespace(s))|;
    } else {
      SplitOnWhitespaceCount(s[1..]);
      assert HasWhitespace(s) <==> HasWhitespace(s[1..]) by {
        if HasWhitespace(s) {
          var i :| 0 <= i < |s| && IsWhitespace(s[i]);
          assert i > 0 && s[1..][i - 1] == s[i];
        }
        if HasWhitespace(s[1..]) {
          var i :| 0 <= i < |s[1..]| && IsWhitespace(s[1..][i]);
          assert s[i + 1] == s[1..][i];
        }
      }
      if !HasWhitespace(s) {
        assert [s[0]] + s[1..] == s;
      }
    }
  }

  /** `t` ends `s`, and either is all of `s` or follows a whitespace character of `s`. */
  predicate IsFinalPiece(t: string, s: string) {
    |t| <= |s| && s[|s| - |t|..] == t && (|t| == |s| || IsWhitespace(s[|s| - |t| - 1]))
  }

  /** `s` with every whitespace character removed. */
  function WithoutWhitespace(s: string): (r: string)
    ensures !HasWhitespace(r)
  {
    if s == [] then []
    else
      var rest := WithoutWhitespace(s[1..]);
      if IsWhitespace(s[0]) then rest
      else
        assert forall i :: 1 <= i < |[s[0]] + rest| ==> ([s[0]] + rest)[i] == rest[i - 1];
        [s[0]] + rest
  }

  lemma {:induction false} WithoutWhitespaceDrop(s: string)
    ensures WithoutWhitespace(DropWhitespace(s)) == WithoutWhitespace(s)
    decreases |s|
  {
    if s != [] && IsWhitespace(s[0]) {
      WithoutWhitespaceDrop(s[1..]);
    }
  }

  /**
   * The pieces hold exactly the non-whitespace characters of `s`, in order,
   * and every piece but the first and the last is non-empty.
   */
  lemma {:induction false} SplitOnWhitespaceContent(s: string)
    ensures Concat(SplitOnWhitespace(s)) == WithoutWhitespace(s)
    ensures forall k :: 0 < k < |SplitOnWhitespace(s)| - 1 ==> SplitOnWhitespace(s)[k] != ""
    decreases |s|
  {
    if s == [] {
    } else if IsWhitespace(s[0]) {
      var d := DropWhitespace(s);
      SplitOnWhitespaceContent(d);
      WithoutWhitespaceDrop(s);
      var rest := SplitOnWhitespace(d);
      assert SplitOnWhitespace(s) == [""] + rest;
      assert ([""] + rest)[1..] == rest;
      if |rest| > 1 {
        assert rest[0] == [d[0]] + SplitOnWhitespace(d[1..])[0];
      }
    } else {
      SplitOnWhitespaceContent(s[1..]);
      var rest := SplitOnWhitespace(s[1..]);
      var r := [[s[0]] + rest[0]] + rest[1..];
      assert SplitOnWhitespace(s) == r;
      assert r[1..] == rest[1..];
      assert Concat(rest) == rest[0] + Concat(rest[1..]);
      assert Concat(r) == [s[0]] + rest[0] + Concat(rest[1..]);
      assert forall k :: 0 < k < |r| ==> r[k] == rest[k];
    }
  }

  /** The leading run that `DropWhitespace` removes ends in whitespace. */
  lemma {:induction false} DropWhitespaceSuffix(s: string)
    ensures s[|s| - |DropWhitespace(s)|..] == DropWhitespace(s)
    ensures |DropWhitespace(s)| < |s| ==> IsWhitespace(s[|s| - |DropWhitespace(s)| - 1])
    decreases |s|
  {
    if s != [] && IsWhitespace(s[0]) {
      DropWhitespaceSuffix(s[1..]);
      var r := DropWhitespace(s[1..]);
      assert s[1..][|s[1..]| - |r|..] == s[|s| - |r|..];
      if |r| < |s[1..]| {
        assert s[1..][|s[1..]| - |r| - 1] == s[|s| - |r| - 1];
      }
    }
  }

  /**
   * The last piece of `s.split(/\s+/)` is the final piece of `s`: what follows
   * its last whitespace character, or all of `s` when it has none.
   */
  lemma {:induction false} SplitOnWhitespaceLast(s: string)
    ensures IsFinalPiece(SplitOnWhitespace(s)[|SplitOnWhitespace(s)| - 1], s)
    decreases |s|
  {
    var r := SplitOnWhitespace(s);
    var last := r[|r| - 1];
    if s == [] {
    } else if IsWhitespace(s[0]) {
      var d := DropWhitespace(s);
      SplitOnWhitespaceLast(d);
      DropWhitespaceSuffix(s);
      assert last == SplitOnWhitespace(d)[|SplitOnWhitespace(d)| - 1];
      FinalPieceExtend(last, d, s);
    } else {
      var tail := s[1..];
      var rest := SplitOnWhitespace(tail);
      SplitOnWhitespaceCount(tail);
      if |rest| == 1 {
        assert last == [s[0]] + tail;
        assert s == [s[0]] + tail;
      } else {
        SplitOnWhitespaceLast(tail);
        assert last == rest[|rest| - 1];
        assert last != tail;
        FinalPieceExtend(last, tail, s);
      }
    }
  }

  /** A final piece of a suffix `d` of `s` that is shorter than `d`, or follows whitespace in `s`, is final in `s`. */
  lemma FinalPieceExtend(t: string, d: string, s: string)
    requires IsFinalPiece(t, d) && |d| <= |s| && s[|s| - |d|..] == d
    requires t != d || |d| == |s| || IsWhitespace(s[|s| - |d| - 1])
    ensures IsFinalPiece(t, s)
  {
    assert s[|s| - |t|..] == d[|d| - |t|..];
    if |t| < |d| {
      assert s[|s| - |t| - 1] == d[|d| - |t| - 1];
    }
  }

  /** Two whitespace-free keystrokes with one whitespace character between them. */
  lemma {:induction false} SplitOnWhitespaceTwo(a: string, c: char, t: string)
    requires !HasWhitespace(a) && IsWhitespace(c) && !HasWhitespace(t)
    ensures SplitOnWhitespace(a + [c] + t) == [a, t]
    decreases |a|
  {
    var s := a + [c] + t;
    if a == [] {
      assert s == [c] + t;
      assert s[1..] == t;
      assert t == [] || !IsWhitespace(t[0]);
      assert DropWhitespace(s) == DropWhitespace(t) == t;
      SplitOnWhitespaceCount(t);
    } else {
      assert !HasWhitespace(a[1..]) by {
        forall i | 0 <= i < |a[1..]|
          ensures !IsWhitespace(a[1..][i])
        {
          assert a[1..][i] == a[i + 1];
        }
      }
      SplitOnWhitespaceTwo(a[1..], c, t);
      assert s[1..] == a[1..] + [c] + t;
      assert !IsWhitespace(s[0]);
      assert a == [a[0]] + a[1..];
    }
  }

  /** `s` contains `sub` at some position. */
  predicate HasSubstring(s: string, sub: string)
    requires |sub| > 0
    decreases |s|
  {
    |s| >= |sub| && (s[..|sub|] == sub || HasSubstring(s[1..], sub))
  }

  /** The pieces joined back together with `sep` between them (`Array.prototype.join`). */
  function Join(parts: seq<string>, sep: string): string
    requires |parts| >= 1
  {
    if |parts| == 1 then parts[0] else parts[0] + sep + Join(parts[1..], sep)
  }

  /**
   * `s.split(sep)` for a non-empty literal separator: scanning left to right,
   * every occurrence of `sep` that does not overlap an earlier one ends a piece.
   */
  function SplitOn(s: string, sep: string): (r: seq<string>)
    requires |sep| > 0
    ensures |r| >= 1
    decreases |s|
  {
    if StartsWith(s, sep) then [""] + SplitOn(s[|sep|..], sep)
    else if s == [] then [""]
    else
      var rest := SplitOn(s[1..], sep);
      [[s[0]] + rest[0]] + rest[1..]
  }

  /** Joining the pieces with `sep` gives `s` back. */
  lemma {:induction false} SplitOnJoin(s: string, sep: string)
    requires |sep| > 0
    ensures Join(SplitOn(s, sep), sep) == s
    decreases |s|
  {
    if StartsWith(s, sep) {
      SplitOnJoin(s[|sep|..], sep);
      JoinAfterSeparator(s, sep);
    } else if s != [] {
      SplitOnJoin(s[1..], sep);
      JoinAfterChar(s, sep);
    }
  }

  /** The step of `SplitOnJoin` where `s` starts with the separator. */
  lemma JoinAfterSeparator(s: string, sep: string)
    requires |sep| > 0 && StartsWith(s, sep)
    requires Join(SplitOn(s[|sep|..], sep), sep) == s[|sep|..]
    ensures Join(SplitOn(s, sep), sep) == s
  {
    var rest := SplitOn(s[|sep|..], sep);
    assert SplitOn(s, sep) == [""] + rest;
    JoinConsEmpty(rest, sep);
    assert s == sep + s[|sep|..];
  }

  /** An empty first piece puts a separator before the rest. */
  lemma JoinConsEmpty(parts: seq<string>, sep: string)
    requires |parts| >= 1
    ensures Join([""] + parts, sep) == sep + Join(parts, sep)
  {
    assert ([""] + parts)[1..] == parts;
  }

  /** The step of `SplitOnJoin` where `s` starts with an ordinary character. */
  lemma JoinAfterChar(s: string, sep: string)
    requires |sep| > 0 && !StartsWith(s, sep) && s != []
    requires Join(SplitOn(s[1..], sep), sep) == s[1..]
    ensures Join(SplitOn(s, sep), sep) == s
  {
    var rest := SplitOn(s[1..], sep);
    assert SplitOn(s, sep) == [[s[0]] + rest[0]] + rest[1..];
    JoinConsHead(s[0], rest, sep);
    assert s == [s[0]] + s[1..];
  }

  /** Putting a character before the first piece puts it before the joined string. */
  lemma JoinConsHead(c: char, parts: seq<string>, sep: string)
    requires |parts| >= 1
    ensures Join([[c] + parts[0]] + parts[1..], sep) == [c] + Join(parts, sep)
  {
    var r := [[c] + parts[0]] + parts[1..];
    if |parts| > 1 {
      assert r[1..] == parts[1..];
      assert ([c] + parts[0]) + sep + Join(parts[1..], sep) == [c] + (parts[0] + sep + Join(parts[1..], sep));
    }
  }

  /** No piece contains `sep`. */
  lemma {:induction false} SplitOnPieces(s: string, sep: string)
    requires |sep| > 0
    ensures NoPieceHas(SplitOn(s, sep), sep)
    decreases |s|
  {
    if StartsWith(s, sep) {
      SplitOnPieces(s[|sep|..], sep);
      var rest := SplitOn(s[|sep|..], sep);
      assert SplitOn(s, sep) == [""] + rest;
    } else if s != [] {
      SplitOnPieces(s[1..], sep);
      SplitOnFirstPiece(s[1..], sep);
      var rest := SplitOn(s[1..], sep);
      assert SplitOn(s, sep) == [[s[0]] + rest[0]] + rest[1..];
      assert s == [s[0]] + s[1..];
      ConsPieces(s[0], s[1..], rest, sep);
    }
  }

  predicate NoPieceHas(parts: seq<string>, sep: string)
    requires |sep| > 0
  {
    forall k :: 0 <= k < |parts| ==> !HasSubstring(parts[k], sep)
  }

  /** The first piece is a prefix of the string split. */
  lemma {:induction false} SplitOnFirstPiece(s: string, sep: string)
    requires |sep| > 0
    ensures SplitOn(s, sep)[0] <= s
    decreases |s|
  {
    if !StartsWith(s, sep) && s != [] {
      SplitOnFirstPiece(s[1..], sep);
    }
  }

  /**
   * The step of `SplitOnPieces` where `s` is `c` followed by `t`: the pieces
   * of `t` with `c` put before the first one.
   */
  lemma ConsPieces(c: char, t: string, rest: seq<string>, sep: string)
    requires |sep| > 0 && !StartsWith([c] + t, sep) && |rest| >= 1
    requires NoPieceHas(rest, sep) && rest[0] <= t
    ensures NoPieceHas([[c] + rest[0]] + rest[1..], sep)
  {
    var piece := [c] + rest[0];
    var r := [piece] + rest[1..];
    assert piece[1..] == rest[0];
    assert piece <= [c] + t;
    PrefixStartsWith(piece, [c] + t, sep);
    ConsNoSubstring(piece, sep);
    forall k | 1 <= k < |r|
      ensures !HasSubstring(r[k], sep)
    {
      assert r[k] == rest[k];
    }
  }

  lemma PrefixStartsWith(p: string, s: string, sep: string)
    requires p <= s
    ensures StartsWith(p, sep) ==> StartsWith(s, sep)
  {
    if StartsWith(p, sep) {
      assert s[..|sep|] == p[..|sep|];
    }
  }

  /** A string that does not start with `sep` and whose tail has no `sep` has none. */
  lemma ConsNoSubstring(s: string, sep: string)
    requires |sep| > 0 && |s| > 0 && !StartsWith(s, sep) && !HasSubstring(s[1..], sep)
    ensures !HasSubstring(s, sep)
  {
  }

  /** A string without `sep` in it splits into itself alone. */
  lemma {:induction false} SplitOnAbsent(s: string, sep: string)
    requires |sep| > 0
    requires !HasSubstring(s, sep)
    ensures SplitOn(s, sep) == [s]
    decreases |s|
  {
    if s != [] {
      assert !StartsWith(s, sep);
      SplitOnAbsent(s[1..], sep);
      assert [s[0]] + s[1..] == s;
    }
  }

  lemma HasWhitespaceConcat(a: string, b: string)
    ensures HasWhitespace(a + b) <==> HasWhitespace(a) || HasWhitespace(b)
  {
    if HasWhitespace(a + b) {
      var i :| 0 <= i < |a + b| && IsWhitespace((a + b)[i]);
      if i >= |a| {
        assert b[i - |a|] == (a + b)[i];
      }
    }
    if HasWhitespace(a) {
      var i :| 0 <= i < |a| && IsWhitespace(a[i]);
      assert (a + b)[i] == a[i];
    }
    if HasWhitespace(b) {
      var i :| 0 <= i < |b| && IsWhitespace(b[i]);
      assert (a + b)[|a| + i] == b[i];
    }
  }

  /** The pieces of a whitespace-free joined string are whitespace-free. */
  lemma {:induction false} JoinNoWhitespace(parts: seq<string>, sep: string)
    requires |parts| >= 1
    requires !HasWhitespace(Join(parts, sep))
    ensures forall k :: 0 <= k < |parts| ==> !HasWhitespace(parts[k])
  {
    if |parts| > 1 {
      HasWhitespaceConcat(parts[0] + sep, Join(parts[1..], sep));
      HasWhitespaceConcat(parts[0], sep);
      JoinNoWhitespace(parts[1..], sep);
      assert forall k :: 1 <= k < |parts| ==> parts[k] == parts[1..][k - 1];
    }
  }

  /** The two separators of the final keystroke's rendering: `' '` and `'+'`. */
  predicate IsKeySeparator(c: char) {
    c == ' ' || c == '+'
  }

  /** `/[ +]/.test(s)`. */
  predicate HasKeySeparator(s: string) {
    exists i :: 0 <= i < |s| && IsKeySeparator(s[i])
  }

  /** `s.split(/[ +]/)`: the tokens between single separator characters. */
  function SplitKeys(s: string): (r: seq<string>)
    ensures |r| >= 1
    ensures forall k :: 0 <= k < |r| ==> !HasKeySeparator(r[k])
  {
    if s == [] then [""]
    else if IsKeySeparator(s[0]) then [""] + SplitKeys(s[1..])
    else
      var rest := SplitKeys(s[1..]);
      assert !HasKeySeparator([s[0]] + rest[0]) by {
        assert forall i :: 1 <= i < |[s[0]] + rest[0]| ==> ([s[0]] + rest[0])[i] == rest[0][i - 1];
      }
      [[s[0]] + rest[0]] + rest[1..]
  }

  /**
   * `s.split(/([ +])/)`: the tokens between single separator characters with
   * each captured separator kept in between.
   */
  function SplitParts(s: string): (r: seq<string>)
    ensures |r| >= 1
  {
    if s == [] then [""]
    else if IsKeySeparator(s[0]) then ["", [s[0]]] + SplitParts(s[1..])
    else
      var rest := SplitParts(s[1..]);
      [[s[0]] + rest[0]] + rest[1..]
  }

  /**
   * The parts are the tokens of `SplitKeys(s)` with a one-character separator
   * between each two: tokens at the even positions, separators at the odd ones.
   */
  lemma SplitPartsShape(s: string)
    ensures |SplitParts(s)| == 2 * |SplitKeys(s)| - 1
    ensures forall k :: 0 <= k < |SplitKeys(s)| ==> SplitParts(s)[2 * k] == SplitKeys(s)[k]
    ensures forall k :: 0 <= k < |SplitParts(s)| && k % 2 == 1 ==>
              |SplitParts(s)[k]| == 1 && IsKeySeparator(SplitParts(s)[k][0])
  {
    SplitPartsTokens(s);
    SplitPartsSeparators(s);
  }

  /** The parts that are a single separator are exactly those at odd positions. */
  lemma SplitPartsSeparatorPositions(s: string)
    ensures forall k :: 0 <= k < |SplitParts(s)| ==>
              (SplitParts(s)[k] == " " || SplitParts(s)[k] == "+" <==> k % 2 == 1)
  {
    var parts := SplitParts(s);
    var keys := SplitKeys(s);
    SplitPartsShape(s);
    forall k | 0 <= k < |parts|
      ensures parts[k] == " " || parts[k] == "+" <==> k % 2 == 1
    {
      if k % 2 == 0 {
        assert parts[k] == keys[k / 2];
        assert !HasKeySeparator(keys[k / 2]);
        if |parts[k]| > 0 {
          assert !IsKeySeparator(parts[k][0]);
        }
      } else {
        assert |parts[k]| == 1 && IsKeySeparator(parts[k][0]);
        assert parts[k] == [parts[k][0]];
      }
    }
  }

  /** The tokens of a part list sit at its even positions. */
  predicate TokensAtEven(parts: seq<string>, keys: seq<string>) {
    |parts| == 2 * |keys| - 1 && forall k :: 0 <= k < |keys| ==> parts[2 * k] == keys[k]
  }

  lemma TokensAtEvenConsSeparator(c: char, rest: seq<string>, keys: seq<string>)
    requires TokensAtEven(rest, keys)
    ensures TokensAtEven(["", [c]] + rest, [""] + keys)
  {
    var r, ks := ["", [c]] + rest, [""] + keys;
    forall k | 1 <= k < |ks|
      ensures r[2 * k] == ks[k]
    {
      assert r[2 * k] == rest[2 * (k - 1)];
    }
  }

  lemma TokensAtEvenConsChar(c: char, rest: seq<string>, keys: seq<string>)
    requires TokensAtEven(rest, keys)
    ensures |keys| > 0
    ensures TokensAtEven([[c] + rest[0]] + rest[1..], [[c] + keys[0]] + keys[1..])
  {
    var r, ks := [[c] + rest[0]] + rest[1..], [[c] + keys[0]] + keys[1..];
    forall k | 1 <= k < |ks|
      ensures r[2 * k] == ks[k]
    {
      assert r[2 * k] == rest[2 * k];
    }
  }

  lemma {:induction false} SplitPartsTokens(s: string)
    ensures |SplitParts(s)| == 2 * |SplitKeys(s)| - 1
    ensures forall k :: 0 <= k < |SplitKeys(s)| ==> SplitParts(s)[2 * k] == SplitKeys(s)[k]
  {
    if s == [] {
    } else {
      SplitPartsTokens(s[1..]);
      var rest, keys := SplitParts(s[1..]), SplitKeys(s[1..]);
      assert TokensAtEven(rest, keys);
      if IsKeySeparator(s[0]) {
        TokensAtEvenConsSeparator(s[0], rest, keys);
        assert SplitParts(s) == ["", [s[0]]] + rest;
        assert SplitKeys(s) == [""] + keys;
      } else {
        TokensAtEvenConsChar(s[0], rest, keys);
        assert SplitParts(s) == [[s[0]] + rest[0]] + rest[1..];
        assert SplitKeys(s) == [[s[0]] + keys[0]] + keys[1..];
      }
      assert TokensAtEven(SplitParts(s), SplitKeys(s));
    }
  }

  lemma {:induction false} SplitPartsSeparators(s: string)
    ensures forall k :: 0 <= k < |SplitParts(s)| && k % 2 == 1 ==>
              |SplitParts(s)[k]| == 1 && IsKeySeparator(SplitParts(s)[k][0])
  {
    if s == [] {
    } else if IsKeySeparator(s[0]) {
      SplitPartsSeparators(s[1..]);
      var rest := SplitParts(s[1..]);
      var r := ["", [s[0]]] + rest;
      assert SplitParts(s) == r;
      forall k | 2 <= k < |r| && k % 2 == 1
        ensures |r[k]| == 1 && IsKeySeparator(r[k][0])
      {
        assert r[k] == rest[k - 2];
      }
    } else {
      SplitPartsSeparators(s[1..]);
      var rest := SplitParts(s[1..]);
      var r := [[s[0]] + rest[0]] + rest[1..];
      assert SplitParts(s) == r;
      forall k | 0 < k < |r| && k % 2 == 1
        ensures |r[k]| == 1 && IsKeySeparator(r[k][0])
      {
        assert r[k] == rest[k];
      }
    }
  }

  /** A string without whitespace has no part that is a single space. */
  lemma {:induction false} SplitPartsNoSpace(s: string)
    requires !HasWhitespace(s)
    ensures forall k :: 0 <= k < |SplitParts(s)| ==> SplitParts(s)[k] != " "
  {
    if s != [] {
      assert !IsWhitespace(s[0]);
      HasWhitespaceConcat([s[0]], s[1..]);
      assert [s[0]] + s[1..] == s;
      SplitPartsNoSpace(s[1..]);
      var rest := SplitParts(s[1..]);
      if IsKeySeparator(s[0]) {
        assert forall k :: 2 <= k < |SplitParts(s)| ==> SplitParts(s)[k] == rest[k - 2];
      } else {
        assert forall k :: 1 <= k < |SplitParts(s)| ==> SplitParts(s)[k] == rest[k];
        assert |SplitParts(s)[0]| >= 1 && SplitParts(s)[0][0] == s[0];
      }
    }
  }

  /** Two tokens joined by one separator. */
  lemma SplitTwoTokens(a: string, c: char, b: string)
    requires !HasKeySeparator(a) && IsKeySeparator(c) && !HasKeySeparator(b)
    ensures SplitKeys(a + [c] + b) == [a, b]
    ensures SplitParts(a + [c] + b) == [a, [c], b]
  {
    SplitAtFirstSeparator(a, c, b);
    SingleToken(b);
  }

  /** A string without separators is its own only token and part. */
  lemma SingleToken(b: string)
    requires !HasKeySeparator(b)
    ensures SplitKeys(b) == [b] && SplitParts(b) == [b]
  {
    SplitKeysCount(b);
    SplitPartsShape(b);
    var parts := SplitParts(b);
    assert |parts| == 1 && parts[0] == b;
  }

  /** Three tokens joined by two separators. */
  lemma SplitThreeTokens(a: string, c: char, b: string, d: char, e: string)
    requires !HasKeySeparator(a) && IsKeySeparator(c) && !HasKeySeparator(b)
    requires IsKeySeparator(d) && !HasKeySeparator(e)
    ensures SplitKeys(a + [c] + b + [d] + e) == [a, b, e]
  {
    SplitTwoTokens(b, d, e);
    SplitAtFirstSeparator(a, c, b + [d] + e);
    assert a + [c] + b + [d] + e == a + [c] + (b + [d] + e);
  }

  /** Splitting at the first separator character: the token before it comes first. */
  lemma SplitAtFirstSeparator(a: string, c: char, b: string)
    requires !HasKeySeparator(a) && IsKeySeparator(c)
    ensures SplitKeys(a + [c] + b) == [a] + SplitKeys(b)
    ensures SplitParts(a + [c] + b) == [a, [c]] + SplitParts(b)
  {
    KeysAtFirstSeparator(a, c, b);
    PartsAtFirstSeparator(a, c, b);
  }

  lemma {:induction false} KeysAtFirstSeparator(a: string, c: char, b: string)
    requires !HasKeySeparator(a) && IsKeySeparator(c)
    ensures SplitKeys(a + [c] + b) == [a] + SplitKeys(b)
  {
    if a == [] {
      assert a + [c] + b == [c] + b;
      assert ([c] + b)[1..] == b;
    } else {
      TailHasNoSeparator(a);
      KeysAtFirstSeparator(a[1..], c, b);
      assert (a + [c] + b)[1..] == a[1..] + [c] + b;
      assert [a[0]] + a[1..] == a;
    }
  }

  lemma {:induction false} PartsAtFirstSeparator(a: string, c: char, b: string)
    requires !HasKeySeparator(a) && IsKeySeparator(c)
    ensures SplitParts(a + [c] + b) == [a, [c]] + SplitParts(b)
  {
    if a == [] {
      assert a + [c] + b == [c] + b;
      assert ([c] + b)[1..] == b;
    } else {
      TailHasNoSeparator(a);
      PartsAtFirstSeparator(a[1..], c, b);
      assert (a + [c] + b)[1..] == a[1..] + [c] + b;
      assert [a[0]] + a[1..] == a;
    }
  }

  lemma TailHasNoSeparator(a: string)
    requires a != [] && !HasKeySeparator(a)
    ensures !IsKeySeparator(a[0]) && !HasKeySeparator(a[1..])
  {
    assert forall i :: 0 <= i < |a[1..]| ==> a[1..][i] == a[i + 1];
  }

  /** `parts.join('')`. */
  function Concat(parts: seq<string>): string {
    if parts == [] then "" else parts[0] + Concat(parts[1..])
  }

  /** The total length of the strings in `parts`. */
  function TotalLength(parts: seq<string>): nat {
    if parts == [] then 0 else |parts[0]| + TotalLength(parts[1..])
  }

  lemma {:induction false} ConcatLength(parts: seq<string>)
    ensures |Concat(parts)| == TotalLength(parts)
  {
    if parts != [] {
      ConcatLength(parts[1..]);
    }
  }

  lemma {:induction false} TotalLengthAppend(a: seq<string>, b: seq<string>)
    ensures TotalLength(a + b) == TotalLength(a) + TotalLength(b)
  {
    if a != [] {
      assert (a + b)[1..] == a[1..] + b;
      TotalLengthAppend(a[1..], b);
    } else {
      assert a + b == b;
    }
  }

  /** Re-joining the parts of `s` with no separator gives `s` back. */
  lemma {:induction false} SplitPartsConcat(s: string)
    ensures Concat(SplitParts(s)) == s
  {
    if s == [] {
    } else {
      SplitPartsConcat(s[1..]);
      if IsKeySeparator(s[0]) {
        ConcatConsSeparator(s[0], SplitParts(s[1..]));
      } else {
        ConcatConsChar(s[0], SplitParts(s[1..]));
      }
      assert s == [s[0]] + s[1..];
    }
  }

  /** Concatenating an empty part and a separator part before `rest`. */
  lemma ConcatConsSeparator(c: char, rest: seq<string>)
    ensures Concat(["", [c]] + rest) == [c] + Concat(rest)
  {
    assert (["", [c]] + rest)[1..] == [[c]] + rest;
    assert ([[c]] + rest)[1..] == rest;
  }

  /** Concatenating `rest` with one character prepended to its first part. */
  lemma ConcatConsChar(c: char, rest: seq<string>)
    requires |rest| >= 1
    ensures Concat([[c] + rest[0]] + rest[1..]) == [c] + Concat(rest)
  {
    var r := [[c] + rest[0]] + rest[1..];
    assert r[1..] == rest[1..];
  }


  /**
   * The tokens and the separators between them account for every character:
   * the token lengths add up to `|s|` less one character per separator.
   */
  lemma {:induction false} SplitKeysLength(s: string)
    ensures TotalLength(SplitKeys(s)) + |SplitKeys(s)| - 1 == |s|
  {
    if s == [] {
    } else if IsKeySeparator(s[0]) {
      SplitKeysLength(s[1..]);
      assert ([""] + SplitKeys(s[1..]))[1..] == SplitKeys(s[1..]);
    } else {
      SplitKeysLength(s[1..]);
      var rest := SplitKeys(s[1..]);
      assert ([[s[0]] + rest[0]] + rest[1..])[1..] == rest[1..];
      assert TotalLength(rest) == |rest[0]| + TotalLength(rest[1..]);
    }
  }

  /** There is exactly one token when `s` has no separator character, and it is `s`. */
  lemma {:induction false} SplitKeysCount(s: string)
    ensures |SplitKeys(s)| == 1 <==> !HasKeySeparator(s)
    ensures !HasKeySeparator(s) ==> SplitKeys(s) == [s]
  {
    if s != [] && !IsKeySeparator(s[0]) {
      SplitKeysCount(s[1..]);
      assert HasKeySeparator(s) <==> HasKeySeparator(s[1..]) by {
        if HasKeySeparator(s) {
          var i :| 0 <= i < |s| && IsKeySeparator(s[i]);
          assert i > 0 && s[1..][i - 1] == s[i];
        }
        if HasKeySeparator(s[1..]) {
          var i :| 0 <= i < |s[1..]| && IsKeySeparator(s[1..][i]);
          assert s[i + 1] == s[1..][i];
        }
      }
      if !HasKeySeparator(s) {
        assert [s[0]] + s[1..] == s;
      }
    } else if s != [] {
      assert IsKeySeparator(s[0]);
      assert |SplitKeys(s)| == 1 + |SplitKeys(s[1..])|;
    }
  }

  /** ASCII upper-casing of one character. */
  function UpperChar(c: char): char {
    if 'a' <= c <= 'z' then (c as int - 'a' as int + 'A' as int) as char else c
  }

  /** `s.toUpperCase()` restricted to ASCII letters. */
  function ToUpper(s: string): (r: string)
    ensures |r| == |s|
    ensures forall i :: 0 <= i < |s| ==> r[i] == UpperChar(s[i])
  {
    if s == [] then "" else [UpperChar(s[0])] + ToUpper(s[1..])
  }

  /** Upper-casing leaves no lower-case ASCII letter and is idempotent. */
  lemma ToUpperProperties(s: string)
    ensures forall i :: 0 <= i < |s| ==> !('a' <= ToUpper(s)[i] <= 'z')
    ensures ToUpper(ToUpper(s)) == ToUpper(s)
  {
  }

  /** `preventStart(s, c)`: `s` without one leading `c`, if it has one. */
  function PreventStart(s: string, c: char): (r: string)
    ensures |s| > 0 && s[0] == c ==> s == [c] + r
    ensures !(|s| > 0 && s[0] == c) ==> r == s
  {
    if |s| > 0 && s[0] == c then s[1..] else s
  }
}
