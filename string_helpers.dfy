/** The smaller string helpers: `stripStart`, `stripEnd`, `removeStart`, `removeEnd`,
    `remove(String, char)` and `replaceChars(String, String, String)`. */
module StringHelpers {
  import opened JavaLang
  import opened Tokenizer

  /** `s` with its leading run of `strip` chars removed. */
  function StrippedStart(s: string, strip: char -> bool): (r: string)
    ensures |r| <= |s| && r == s[|s| - |r|..]
    ensures forall j :: 0 <= j < |s| - |r| ==> strip(s[j])
    ensures |r| > 0 ==> !strip(r[0])
  {
    SkipSeparatorsRun(s, strip, 0);
    s[SkipSeparators(s, strip, 0)..]
  }

  /** The end of `s[..end]` once its trailing run of `strip` chars is removed. */
  function TrailingEnd(s: string, strip: char -> bool, end: nat): (k: nat)
    requires end <= |s|
    ensures k <= end
  {
    if end != 0 && strip(s[end - 1]) then TrailingEnd(s, strip, end - 1) else end
  }

  /** `TrailingEnd` passes exactly the run of `strip` chars that ends at `end`. */
  lemma {:induction false} TrailingEndRun(s: string, strip: char -> bool, end: nat)
    requires end <= |s|
    ensures var k := TrailingEnd(s, strip, end);
            (forall j :: k <= j < end ==> strip(s[j])) && (k > 0 ==> !strip(s[k - 1]))
  {
    if end != 0 && strip(s[end - 1]) {
      TrailingEndRun(s, strip, end - 1);
    }
  }

  /** `s` with its trailing run of `strip` chars removed. */
  function StrippedEnd(s: string, strip: char -> bool): (r: string)
    ensures |r| <= |s| && r == s[..|r|]
    ensures forall j :: |r| <= j < |s| ==> strip(s[j])
    ensures |r| > 0 ==> !strip(r[|r| - 1])
  {
    TrailingEndRun(s, strip, |s|);
    s[..TrailingEnd(s, strip, |s|)]
  }

  /** Stripping twice strips no more than stripping once. */
  lemma StripIdempotent(s: string, strip: char -> bool)
    ensures StrippedStart(StrippedStart(s, strip), strip) == StrippedStart(s, strip)
    ensures StrippedEnd(StrippedEnd(s, strip), strip) == StrippedEnd(s, strip)
  {
  }

  /** `stripStart(str, stripChars)`: null strip chars mean whitespace, "" strips nothing. */
  method StripStart(str: Option<string>, stripChars: Option<string>, isWhitespace: char -> bool)
    returns (r: Option<string>)
    ensures IsEmpty(str) || stripChars == Some("") ==> r == str
    ensures !IsEmpty(str) && stripChars != Some("") ==>
              r == Some(StrippedStart(str.value, SeparatorTest(stripChars, isWhitespace)))
  {
    if str.None? || |str.value| == 0 {
      return str;
    }
    var s := str.value;
    var strLen := |s|;
    ghost var strip := SeparatorTest(stripChars, isWhitespace);
    var start := 0;
    if stripChars.None? {
      while start != strLen && isWhitespace(s[start])
        invariant 0 <= start <= strLen
        invariant SkipSeparators(s, strip, start) == SkipSeparators(s, strip, 0)
      {
        start := start + 1;
      }
    } else if |stripChars.value| == 0 {
      return str;
    } else {
      while start != strLen && CharIndexOf(stripChars.value, s[start]) != -1
        invariant 0 <= start <= strLen
        invariant SkipSeparators(s, strip, start) == SkipSeparators(s, strip, 0)
      {
        start := start + 1;
      }
    }
    return Some(s[start..]);
  }

  /** `stripEnd(str, stripChars)`. */
  method StripEnd(str: Option<string>, stripChars: Option<string>, isWhitespace: char -> bool)
    returns (r: Option<string>)
    ensures IsEmpty(str) || stripChars == Some("") ==> r == str
    ensures !IsEmpty(str) && stripChars != Some("") ==>
              r == Some(StrippedEnd(str.value, SeparatorTest(stripChars, isWhitespace)))
  {
    if str.None? || |str.value| == 0 {
      return str;
    }
    var s := str.value;
    var end := |s|;
    ghost var strip := SeparatorTest(stripChars, isWhitespace);
    if stripChars.None? {
      while end != 0 && isWhitespace(s[end - 1])
        invariant 0 <= end <= |s|
        invariant TrailingEnd(s, strip, end) == TrailingEnd(s, strip, |s|)
      {
        end := end - 1;
      }
    } else if |stripChars.value| == 0 {
      return str;
    } else {
      while end != 0 && CharIndexOf(stripChars.value, s[end - 1]) != -1
        invariant 0 <= end <= |s|
        invariant TrailingEnd(s, strip, end) == TrailingEnd(s, strip, |s|)
      {
        end := end - 1;
      }
    }
    return Some(s[..end]);
  }

  /** `removeStart(str, remove)`: the prefix `remove` taken off when it is there. */
  function RemoveStart(str: Option<string>, remove: Option<string>): (r: Option<string>)
    ensures r.Some? <==> str.Some?
    ensures r != str ==> str.Some? && remove.Some? && |remove.value| > 0 && str.value == remove.value + r.value
  {
    if IsEmpty(str) || IsEmpty(remove) then str
    else if StartsWith(str.value, remove.value) then
      assert str.value == remove.value + str.value[|remove.value|..];
      Some(str.value[|remove.value|..])
    else str
  }

  /** `removeEnd(str, remove)`: the suffix `remove` taken off when it is there. */
  function RemoveEnd(str: Option<string>, remove: Option<string>): (r: Option<string>)
    ensures r.Some? <==> str.Some?
    ensures r != str ==> str.Some? && remove.Some? && |remove.value| > 0 && str.value == r.value + remove.value
  {
    if IsEmpty(str) || IsEmpty(remove) then str
    else if EndsWith(str.value, remove.value) then
      assert str.value == str.value[..|str.value| - |remove.value|] + remove.value;
      Some(str.value[..|str.value| - |remove.value|])
    else str
  }

  /** Taking off a prefix that was put on gives the text back, and likewise a suffix. */
  lemma RemoveRoundTrip(affix: string, s: string)
    requires |affix| > 0
    ensures RemoveStart(Some(affix + s), Some(affix)) == Some(s)
    ensures RemoveEnd(Some(s + affix), Some(affix)) == Some(s)
  {
    assert (affix + s)[..|affix|] == affix;
    assert (affix + s)[|affix|..] == s;
    assert (s + affix)[|s + affix| - |affix|..] == affix;
    assert (s + affix)[..|s|] == s;
  }

  /** `s` without the chars equal to `c`, in order. */
  function Without(s: string, c: char): string
  {
    if s == [] then []
    else Without(s[..|s| - 1], c) + (if s[|s| - 1] == c then [] else [s[|s| - 1]])
  }

  /** `remove(str, c)` drops every `c` and keeps every other char, as many times as it occurs. */
  lemma {:induction false} WithoutContents(s: string, c: char)
    ensures multiset(Without(s, c)) == multiset(s)[c := 0]
  {
    if s != [] {
      WithoutContents(s[..|s| - 1], c);
      assert s == s[..|s| - 1] + [s[|s| - 1]];
    }
  }

  /** A text without `c` is left alone. */
  lemma {:induction false} WithoutAbsent(s: string, c: char)
    requires c !in s
    ensures Without(s, c) == s
  {
    if s != [] {
      WithoutAbsent(s[..|s| - 1], c);
      assert s == s[..|s| - 1] + [s[|s| - 1]];
    }
  }

  /** `remove(str, remove)` for a char: the chars of the string compacted in place in
      its char array, skipping `remove`. */
  method RemoveChar(str: Option<string>, remove: char) returns (r: Option<string>)
    ensures str.None? ==> r.None?
    ensures str.Some? ==> r == Some(Without(str.value, remove))
  {
    if str.None? || |str.value| == 0 || CharIndexOf(str.value, remove) == -1 {
      if str.Some? {
        WithoutAbsent(str.value, remove);
      }
      return str;
    }
    var s := str.value;
    var chars := new char[|s|](i requires 0 <= i < |s| => s[i]);
    var pos: nat := 0;
    for i := 0 to chars.Length
      invariant Compacted(chars[..], s, remove, i, pos)
    {
      pos := CompactOnce(chars, s, remove, i, pos);
    }
    assert s[..|s|] == s;
    return Some(chars[..pos]);
  }

  /** The state of the compacting loop: the first `pos` chars are what is kept of `s[..i]`,
      the chars from `i` on are still those of `s`. */
  ghost predicate Compacted(chars: seq<char>, s: string, remove: char, i: nat, pos: nat)
  {
    pos <= i <= |s| == |chars| && chars[..pos] == Without(s[..i], remove) &&
    forall k :: i <= k < |s| ==> chars[k] == s[k]
  }

  /** One pass of the compacting loop: the char at `i` moves down to `pos` unless it is `remove`. */
  method CompactOnce(chars: array<char>, s: string, remove: char, i: nat, pos: nat) returns (pos': nat)
    requires Compacted(chars[..], s, remove, i, pos) && i < |s|
    modifies chars
    ensures Compacted(chars[..], s, remove, i + 1, pos')
  {
    assert s[..i + 1][..i] == s[..i];
    assert Without(s[..i + 1], remove) == Without(s[..i], remove) + (if s[i] == remove then [] else [s[i]]);
    pos' := pos;
    if chars[i] != remove {
      chars[pos] := chars[i];
      pos' := pos + 1;
    }
  }

  /** What one char becomes under `replaceChars`: the replacement at the index of its
      first occurrence in `search`, nothing when that index is past the replacements,
      itself when it is not in `search`. */
  function CharImage(ch: char, search: string, repl: string): string
  {
    var index := CharIndexOf(search, ch);
    if index >= 0 then (if index < |repl| then [repl[index]] else [])
    else [ch]
  }

  /** Every char of `s` replaced by its image. */
  function Translate(s: string, search: string, repl: string): string
  {
    if s == [] then []
    else Translate(s[..|s| - 1], search, repl) + CharImage(s[|s| - 1], search, repl)
  }

  /** `replaceChars(str, searchChars, replaceChars)`; null replace chars count as "". */
  method ReplaceChars(str: Option<string>, searchChars: Option<string>, replaceChars: Option<string>)
    returns (r: Option<string>)
    ensures IsEmpty(str) || IsEmpty(searchChars) ==> r == str
    ensures !IsEmpty(str) && !IsEmpty(searchChars) ==>
              r == Some(Translate(str.value, searchChars.value, if replaceChars.None? then "" else replaceChars.value))
  {
    if IsEmpty(str) || IsEmpty(searchChars) {
      return str;
    }
    var s, search := str.value, searchChars.value;
    var repl := if replaceChars.None? then "" else replaceChars.value;
    var modified := false;
    var replaceCharsLength := |repl|;
    var strLength := |s|;
    var buf := "";
    for i := 0 to strLength
      invariant buf == Translate(s[..i], search, repl)
      invariant !modified ==> buf == s[..i]
    {
      assert s[..i + 1][..i] == s[..i];
      assert s[..i + 1] == s[..i] + [s[i]];
      assert Translate(s[..i + 1], search, repl) == Translate(s[..i], search, repl) + CharImage(s[i], search, repl);
      var ch := s[i];
      var index := CharIndexOf(search, ch);
      if index >= 0 {
        modified := true;
        if index < replaceCharsLength {
          buf := buf + [repl[index]];
        }
      } else {
        buf := buf + [ch];
      }
    }
    assert s[..strLength] == s;
    if modified {
      return Some(buf);
    }
    return str;
  }

  /** `replaceChars` never lengthens the text, and keeps its length when every search
      char has a replacement. */
  lemma {:induction false} TranslateLength(s: string, search: string, repl: string)
    ensures |Translate(s, search, repl)| <= |s|
    ensures |repl| >= |search| ==> |Translate(s, search, repl)| == |s|
  {
    if s != [] {
      TranslateLength(s[..|s| - 1], search, repl);
    }
  }

  /** Deleting one char with `replaceChars(str, c, null)` is `remove(str, c)`. */
  lemma {:induction false} TranslateDeletes(s: string, c: char)
    ensures Translate(s, [c], "") == Without(s, c)
  {
    if s != [] {
      TranslateDeletes(s[..|s| - 1], c);
      assert CharImage(s[|s| - 1], [c], "") == (if s[|s| - 1] == c then [] else [s[|s| - 1]]);
    }
  }
}
