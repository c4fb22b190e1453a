/** `splitByCharacterType(str, camelCase)`: cutting a text into runs of chars of
    one `Character.getType` class. `getType` is a parameter; only the two
    letter classes it distinguishes matter to the cut rules. */
module CharTypeSplitter {
  import opened JavaLang
  import opened Joiner

  /** `Character.UPPERCASE_LETTER` and `Character.LOWERCASE_LETTER`. */
  const UPPERCASE_LETTER: int := 1
  const LOWERCASE_LETTER: int := 2

  /** In camel-case mode, an uppercase char followed by a lowercase one. */
  predicate CamelPair(camel: bool, before: int, after: int)
  {
    camel && before == UPPERCASE_LETTER && after == LOWERCASE_LETTER
  }

  /** A token starts at k because the type changes there (an uppercase-to-lowercase
      change in camel-case mode excepted). */
  predicate ChangeBoundary(s: string, getType: char -> int, camel: bool, k: nat)
    requires 0 < k < |s|
  {
    getType(s[k - 1]) != getType(s[k]) && !CamelPair(camel, getType(s[k - 1]), getType(s[k]))
  }

  /** A token starts at k because the uppercase char at k is the last of an uppercase
      run of two or more and a lowercase char follows: it moves to the next token. */
  predicate ShiftBoundary(s: string, getType: char -> int, camel: bool, k: nat)
    requires 0 < k < |s|
  {
    k + 1 < |s| && getType(s[k - 1]) == UPPERCASE_LETTER && CamelPair(camel, getType(s[k]), getType(s[k + 1]))
  }

  /** Some token of the split of `s` starts at index k. */
  predicate IsBoundary(s: string, getType: char -> int, camel: bool, k: nat)
    requires 0 < k < |s|
  {
    ChangeBoundary(s, getType, camel, k) || ShiftBoundary(s, getType, camel, k)
  }

  /** The tokens of `s[start..]`, cut at the boundaries at or after k (k itself only
      when it is past `start`). */
  function PiecesFrom(s: string, getType: char -> int, camel: bool, start: nat, k: nat): (r: seq<string>)
    requires start <= k <= |s| && start < |s|
    ensures |r| >= 1
    decreases |s| - k
  {
    if k == |s| then [s[start..]]
    else if k > start && IsBoundary(s, getType, camel, k) then [s[start..k]] + PiecesFrom(s, getType, camel, k, k + 1)
    else PiecesFrom(s, getType, camel, start, k + 1)
  }

  /** The array `splitByCharacterType` returns for a non-null string. */
  function ByCharacterType(s: string, getType: char -> int, camel: bool): seq<string>
  {
    if s == [] then [] else PiecesFrom(s, getType, camel, 0, 0)
  }

  /** The start index of each token, when the first one starts at `base`. */
  function Offsets(r: seq<string>, base: nat): (o: seq<nat>)
    ensures |o| == |r|
  {
    if r == [] then [] else [base] + Offsets(r[1..], base + |r[0]|)
  }

  /** `splitByCharacterType(str, camelCase)`. */
  method SplitByCharacterType(str: Option<string>, camelCase: bool, getType: char -> int)
    returns (r: Option<seq<string>>)
    ensures str.None? ==> r.None?
    ensures str.Some? ==> r == Some(ByCharacterType(str.value, getType, camelCase))
  {
    if str.None? {
      return None;
    }
    var c := str.value;
    if |c| == 0 {
      return Some([]);
    }
    ghost var whole := PiecesFrom(c, getType, camelCase, 0, 0);
    var list: seq<string> := [];
    var tokenStart := 0;
    var currentType := getType(c[tokenStart]);
    for pos := tokenStart + 1 to |c|
      invariant tokenStart < pos
      invariant currentType == getType(c[pos - 1])
      invariant tokenStart < pos - 1 ==> !ChangeBoundary(c, getType, camelCase, pos - 1)
      invariant list + PiecesFrom(c, getType, camelCase, tokenStart, pos - 1) == whole
    {
      var charType := getType(c[pos]);
      if charType == currentType {
        Advance(c, getType, camelCase, tokenStart, pos - 1, list, whole);
        continue;
      }
      if camelCase && charType == LOWERCASE_LETTER && currentType == UPPERCASE_LETTER {
        var newTokenStart := pos - 1;
        if newTokenStart != tokenStart {
          CutBefore(c, getType, camelCase, tokenStart, newTokenStart, list, whole);
          list := list + [c[tokenStart..newTokenStart]];
          tokenStart := newTokenStart;
        }
        Advance(c, getType, camelCase, tokenStart, pos - 1, list, whole);
      } else {
        Advance(c, getType, camelCase, tokenStart, pos - 1, list, whole);
        CutBefore(c, getType, camelCase, tokenStart, pos, list, whole);
        list := list + [c[tokenStart..pos]];
        tokenStart := pos;
      }
      currentType := charType;
    }
    LastPiece(c, getType, camelCase, tokenStart, list, whole);
    list := list + [c[tokenStart..]];
    return Some(list);
  }

  /** The loop passes a position that is not a boundary (or is the token's own start). */
  lemma Advance(s: string, getType: char -> int, camel: bool, start: nat, k: nat,
                list: seq<string>, whole: seq<string>)
    requires start <= k < |s|
    requires k > start ==> !IsBoundary(s, getType, camel, k)
    requires list + PiecesFrom(s, getType, camel, start, k) == whole
    ensures list + PiecesFrom(s, getType, camel, start, k + 1) == whole
  {
  }

  /** The loop ends the current token at a boundary k; the next one starts there. */
  lemma CutBefore(s: string, getType: char -> int, camel: bool, start: nat, k: nat,
                  list: seq<string>, whole: seq<string>)
    requires start < k < |s| && IsBoundary(s, getType, camel, k)
    requires list + PiecesFrom(s, getType, camel, start, k) == whole
    ensures (list + [s[start..k]]) + PiecesFrom(s, getType, camel, k, k) == whole
  {
    assert PiecesFrom(s, getType, camel, k, k) == PiecesFrom(s, getType, camel, k, k + 1);
  }

  /** After the loop, the rest of the text is the last token. */
  lemma LastPiece(s: string, getType: char -> int, camel: bool, start: nat,
                  list: seq<string>, whole: seq<string>)
    requires start < |s|
    requires start < |s| - 1 ==> !ChangeBoundary(s, getType, camel, |s| - 1)
    requires list + PiecesFrom(s, getType, camel, start, |s| - 1) == whole
    ensures list + [s[start..]] == whole
  {
    Advance(s, getType, camel, start, |s| - 1, list, whole);
  }

  /** The tokens concatenate to the text. */
  lemma {:induction false} PiecesConcat(s: string, getType: char -> int, camel: bool, start: nat, k: nat)
    requires start <= k <= |s| && start < |s|
    ensures Join(PiecesFrom(s, getType, camel, start, k), "") == s[start..]
    decreases |s| - k
  {
    if k < |s| {
      if k > start && IsBoundary(s, getType, camel, k) {
        PiecesConcat(s, getType, camel, k, k + 1);
        JoinCons(s[start..k], PiecesFrom(s, getType, camel, k, k + 1), "");
        assert s[start..k] + s[k..] == s[start..];
      } else {
        PiecesConcat(s, getType, camel, start, k + 1);
      }
    }
  }

  /** No token is empty. */
  lemma {:induction false} PiecesNonEmpty(s: string, getType: char -> int, camel: bool, start: nat, k: nat)
    requires start <= k <= |s| && start < |s|
    ensures forall i :: 0 <= i < |PiecesFrom(s, getType, camel, start, k)| ==>
              |PiecesFrom(s, getType, camel, start, k)[i]| > 0
    decreases |s| - k
  {
    if k < |s| {
      if k > start && IsBoundary(s, getType, camel, k) {
        PiecesNonEmpty(s, getType, camel, k, k + 1);
      } else {
        PiecesNonEmpty(s, getType, camel, start, k + 1);
      }
    }
  }

  /** Every offset is at least the base; the first one is the base. */
  lemma {:induction false} OffsetsFrom(r: seq<string>, base: nat)
    ensures forall o :: o in Offsets(r, base) ==> o >= base
    ensures |r| > 0 ==> Offsets(r, base)[0] == base
  {
    if r != [] {
      OffsetsFrom(r[1..], base + |r[0]|);
    }
  }

  /** Past `start`, a token starts at index p exactly when p is a boundary (at or after k). */
  lemma {:induction false} PiecesStarts(s: string, getType: char -> int, camel: bool, start: nat, k: nat, p: nat)
    requires start <= k <= |s| && start < |s| && start < p < |s|
    ensures p in Offsets(PiecesFrom(s, getType, camel, start, k), start) <==> p >= k && IsBoundary(s, getType, camel, p)
    decreases |s| - k
  {
    var r := PiecesFrom(s, getType, camel, start, k);
    if k == |s| {
      assert Offsets(r, start) == [start];
    } else if k > start && IsBoundary(s, getType, camel, k) {
      var rest := PiecesFrom(s, getType, camel, k, k + 1);
      assert r[1..] == rest;
      assert Offsets(r, start) == [start] + Offsets(rest, k);
      OffsetsFrom(rest, k);
      if p > k {
        PiecesStarts(s, getType, camel, k, k + 1, p);
      }
    } else {
      PiecesStarts(s, getType, camel, start, k + 1, p);
    }
  }

  /** The split of a non-empty text: non-empty tokens that concatenate to it, starting
      at index 0 and then exactly at the boundaries. */
  lemma ByCharacterTypeShape(s: string, getType: char -> int, camel: bool)
    requires |s| > 0
    ensures var r := ByCharacterType(s, getType, camel);
            Join(r, "") == s &&
            (forall i :: 0 <= i < |r| ==> |r[i]| > 0) &&
            Offsets(r, 0)[0] == 0 &&
            (forall p :: 0 < p < |s| ==> (p in Offsets(r, 0) <==> IsBoundary(s, getType, camel, p)))
  {
    var r := ByCharacterType(s, getType, camel);
    PiecesConcat(s, getType, camel, 0, 0);
    PiecesNonEmpty(s, getType, camel, 0, 0);
    OffsetsFrom(r, 0);
    forall p | 0 < p < |s| ensures p in Offsets(r, 0) <==> IsBoundary(s, getType, camel, p) {
      PiecesStarts(s, getType, camel, 0, 0, p);
    }
  }

  /** Without camel case, tokens start exactly where the type changes. */
  lemma PlainBoundaries(s: string, getType: char -> int, p: nat)
    requires 0 < p < |s|
    ensures p in Offsets(ByCharacterType(s, getType, false), 0) <==> getType(s[p - 1]) != getType(s[p])
  {
    PiecesStarts(s, getType, false, 0, 0, p);
  }

  /** In camel-case mode, the last char of an uppercase run longer than one starts the
      following lowercase token, which does not start at the lowercase char. */
  lemma CamelShift(s: string, getType: char -> int, k: nat)
    requires 0 < k && k + 1 < |s|
    requires getType(s[k - 1]) == UPPERCASE_LETTER && getType(s[k]) == UPPERCASE_LETTER
    requires getType(s[k + 1]) == LOWERCASE_LETTER
    ensures k in Offsets(ByCharacterType(s, getType, true), 0)
    ensures k + 1 !in Offsets(ByCharacterType(s, getType, true), 0)
  {
    PiecesStarts(s, getType, true, 0, 0, k);
    PiecesStarts(s, getType, true, 0, 0, k + 1);
  }

  /** A `getType` for ASCII letters and digits (other chars get one further class). */
  function AsciiType(c: char): int
  {
    if 'A' <= c <= 'Z' then UPPERCASE_LETTER
    else if 'a' <= c <= 'z' then LOWERCASE_LETTER
    else if '0' <= c <= '9' then 9
    else 24
  }

  /** The documented examples "fooBar" and "ASFRules" in camel-case mode. */
  lemma CamelExamples()
    ensures ByCharacterType("fooBar", AsciiType, true) == ["foo", "Bar"]
    ensures ByCharacterType("ASFRules", AsciiType, true) == ["ASF", "Rules"]
    ensures ByCharacterType("ASFRules", AsciiType, false) == ["ASFR", "ules"]
  {
    var f := "fooBar";
    assert PiecesFrom(f, AsciiType, true, 3, 3) == ["Bar"];
    assert PiecesFrom(f, AsciiType, true, 0, 0) == PiecesFrom(f, AsciiType, true, 0, 3);
    assert f[0..3] == "foo";
    assert PiecesFrom(f, AsciiType, true, 0, 3) == ["foo"] + PiecesFrom(f, AsciiType, true, 3, 4);
    var a := "ASFRules";
    assert PiecesFrom(a, AsciiType, true, 3, 4) == ["Rules"];
    assert PiecesFrom(a, AsciiType, true, 0, 1) == PiecesFrom(a, AsciiType, true, 0, 3);
    assert a[0..3] == "ASF";
    assert PiecesFrom(a, AsciiType, true, 0, 3) == ["ASF"] + PiecesFrom(a, AsciiType, true, 3, 4);
    assert PiecesFrom(a, AsciiType, false, 4, 5) == ["ules"];
    assert PiecesFrom(a, AsciiType, false, 0, 1) == PiecesFrom(a, AsciiType, false, 0, 4);
    assert a[0..4] == "ASFR";
    assert PiecesFrom(a, AsciiType, false, 0, 4) == ["ASFR"] + PiecesFrom(a, AsciiType, false, 4, 5);
  }
}
