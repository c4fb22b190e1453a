/** The character-delimiter tokenizer: the two `splitWorker` methods behind
    `split` and `splitPreserveAllTokens`. A separator is one char, recognised
    by a predicate: Java's `Character.isWhitespace` when no separator chars are
    given, otherwise membership in the given chars. */
module Tokenizer {
  import opened JavaLang
  import opened Joiner

  /** The separator predicate of `splitWorker(str, separatorChars, ...)`: null
      separator chars mean whitespace. The source's one-char fast path
      (`charAt(i) == sep`) and its general path (`indexOf(ch) >= 0`) are both
      membership in `separatorChars`. */
  function SeparatorTest(separatorChars: Option<string>, isWhitespace: char -> bool): char -> bool
  {
    match separatorChars
    case None => isWhitespace
    case Some(cs) => (c: char) => c in cs
  }

  /** The separator predicate of `splitWorker(str, separatorChar, ...)`. */
  function CharTest(separatorChar: char): char -> bool
  {
    (c: char) => c == separatorChar
  }

  /** The index of the first separator at or after `i`, or |s| when there is none. */
  function NextSeparator(s: string, isSep: char -> bool, i: nat): (k: nat)
    requires i <= |s|
    ensures i <= k <= |s|
    decreases |s| - i
  {
    if i == |s| || isSep(s[i]) then i else NextSeparator(s, isSep, i + 1)
  }

  /** `NextSeparator` finds the first separator: none before it, and one at it unless at the end. */
  lemma {:induction false} NextSeparatorFirst(s: string, isSep: char -> bool, i: nat)
    requires i <= |s|
    ensures var k := NextSeparator(s, isSep, i);
            (forall j :: i <= j < k ==> !isSep(s[j])) && (k < |s| ==> isSep(s[k]))
    decreases |s| - i
  {
    if i < |s| && !isSep(s[i]) {
      NextSeparatorFirst(s, isSep, i + 1);
    }
  }

  /** The index just past the run of separators that starts at `i`. */
  function SkipSeparators(s: string, isSep: char -> bool, i: nat): (k: nat)
    requires i <= |s|
    ensures i <= k <= |s|
    decreases |s| - i
  {
    if i < |s| && isSep(s[i]) then SkipSeparators(s, isSep, i + 1) else i
  }

  /** `SkipSeparators` passes exactly the run of separators at `i`. */
  lemma {:induction false} SkipSeparatorsRun(s: string, isSep: char -> bool, i: nat)
    requires i <= |s|
    ensures var k := SkipSeparators(s, isSep, i);
            (forall j :: i <= j < k ==> isSep(s[j])) && (k < |s| ==> !isSep(s[k]))
    decreases |s| - i
  {
    if i < |s| && isSep(s[i]) {
      SkipSeparatorsRun(s, isSep, i + 1);
    }
  }

  /** The tokens of `s[i..]`, left to right. Without `preserve`, runs of
      separators count as one split point and leading ones are skipped (so no
      empty token arises); with it every separator is a split point. `cap <= 0`
      means no limit; a token emitted when `cap == 1` is the whole rest of the
      text, separators included. */
  function Tokens(s: string, isSep: char -> bool, i: nat, cap: int, preserve: bool): seq<string>
    requires i <= |s|
    decreases |s| - i, 1
  {
    if preserve then TokensFrom(s, isSep, i, cap, preserve)
    else
      var k := SkipSeparators(s, isSep, i);
      if k == |s| then [] else TokensFrom(s, isSep, k, cap, preserve)
  }

  /** The tokens of `s[i..]` when a token starts at `i`. */
  function TokensFrom(s: string, isSep: char -> bool, i: nat, cap: int, preserve: bool): seq<string>
    requires i <= |s|
    decreases |s| - i, 0
  {
    var k := NextSeparator(s, isSep, i);
    if k == |s| || cap == 1 then [s[i..]]
    else [s[i..k]] + Tokens(s, isSep, k + 1, if cap > 0 then cap - 1 else cap, preserve)
  }

  /** The array `splitWorker` returns for a non-null string: [] for "". */
  function Split(s: string, isSep: char -> bool, max: int, preserve: bool): seq<string>
  {
    if s == [] then [] else Tokens(s, isSep, 0, max, preserve)
  }

  /** The limit left after `emitted` tokens when at most `max` are wanted. */
  function Remaining(max: int, emitted: nat): int
  {
    if max > 0 then max - emitted else max
  }

  /** A separator met while no token is open is dropped when not preserving. */
  lemma TokensSkipOne(s: string, isSep: char -> bool, cap: int, i: nat)
    requires i < |s| && isSep(s[i])
    ensures Tokens(s, isSep, i, cap, false) == Tokens(s, isSep, i + 1, cap, false)
  {
    assert SkipSeparators(s, isSep, i) == SkipSeparators(s, isSep, i + 1);
  }

  /** A token that ends at the separator at i: emitted whole, or the whole rest at the limit. */
  lemma TokensAtSeparator(s: string, isSep: char -> bool, cap: int, preserve: bool, start: nat, i: nat)
    requires start <= i < |s| && isSep(s[i])
    requires forall j :: start <= j < i ==> !isSep(s[j])
    requires !preserve ==> start < i
    ensures Tokens(s, isSep, start, cap, preserve) ==
            if cap == 1 then [s[start..]]
            else [s[start..i]] + Tokens(s, isSep, i + 1, if cap > 0 then cap - 1 else cap, preserve)
  {
    if !preserve {
      assert SkipSeparators(s, isSep, start) == start;
    }
    NextSeparatorFirst(s, isSep, start);
    assert NextSeparator(s, isSep, start) == i;
  }

  /** The last token: a text without separators is one token (none, if empty and not preserving). */
  lemma TokensNoSeparator(s: string, isSep: char -> bool, cap: int, preserve: bool, start: nat)
    requires start <= |s|
    requires forall j :: start <= j < |s| ==> !isSep(s[j])
    ensures Tokens(s, isSep, start, cap, preserve) == if !preserve && start == |s| then [] else [s[start..]]
  {
    if !preserve {
      assert SkipSeparators(s, isSep, start) == start;
    }
    NextSeparatorFirst(s, isSep, start);
    assert NextSeparator(s, isSep, start) == |s|;
  }

  /** The scan closes the token that ends at the separator at i and goes on after it. */
  lemma EmitToken(s: string, isSep: char -> bool, cap: int, preserve: bool, start: nat, i: nat,
                  list: seq<string>, whole: seq<string>, cap': int)
    requires start <= i < |s| && isSep(s[i])
    requires forall j :: start <= j < i ==> !isSep(s[j])
    requires !preserve ==> start < i
    requires cap != 1 && cap' == if cap > 0 then cap - 1 else cap
    requires list + Tokens(s, isSep, start, cap, preserve) == whole
    ensures (list + [s[start..i]]) + Tokens(s, isSep, i + 1, cap', preserve) == whole
  {
    TokensAtSeparator(s, isSep, cap, preserve, start, i);
  }

  /** At the limit, the scan closes a token that is the whole rest of the text. */
  lemma EmitRest(s: string, isSep: char -> bool, preserve: bool, start: nat, i: nat,
                 list: seq<string>, whole: seq<string>)
    requires start <= i < |s| && isSep(s[i])
    requires forall j :: start <= j < i ==> !isSep(s[j])
    requires !preserve ==> start < i
    requires list + Tokens(s, isSep, start, 1, preserve) == whole
    ensures list + [s[start..|s|]] == whole
  {
    TokensAtSeparator(s, isSep, 1, preserve, start, i);
    assert s[..|s|] == s;
    assert s[start..|s|] == s[start..];
  }

  /** A separator before any token char is dropped when not preserving. */
  lemma EmitNothing(s: string, isSep: char -> bool, cap: int, i: nat, list: seq<string>, whole: seq<string>)
    requires i < |s| && isSep(s[i])
    requires list + Tokens(s, isSep, i, cap, false) == whole
    ensures list + Tokens(s, isSep, i + 1, cap, false) == whole
  {
    TokensSkipOne(s, isSep, cap, i);
  }

  /** At the end of the text the open token, if any, is the last one. */
  lemma EmitLast(s: string, isSep: char -> bool, cap: int, preserve: bool, start: nat,
                 list: seq<string>, whole: seq<string>)
    requires start <= |s|
    requires forall j :: start <= j < |s| ==> !isSep(s[j])
    requires list + Tokens(s, isSep, start, cap, preserve) == whole
    ensures (if !preserve && start == |s| then list else list + [s[start..|s|]]) == whole
  {
    TokensNoSeparator(s, isSep, cap, preserve, start);
    assert s[..|s|] == s;
    assert s[start..|s|] == s[start..];
  }

  /** `splitWorker(String str, String separatorChars, int max, boolean preserveAllTokens)`. */
  method SplitWorker(str: Option<string>, separatorChars: Option<string>, max: int, preserveAllTokens: bool,
                     isWhitespace: char -> bool)
    returns (r: Option<seq<string>>)
    ensures str.None? ==> r.None?
    ensures str.Some? ==> r == Some(Split(str.value, SeparatorTest(separatorChars, isWhitespace), max, preserveAllTokens))
  {
    if str.None? {
      return None;
    }
    var s := str.value;
    var len := |s|;
    if len == 0 {
      return Some([]);
    }
    var isSep := SeparatorTest(separatorChars, isWhitespace);
    ghost var whole := Tokens(s, isSep, 0, max, preserveAllTokens);
    var list: seq<string> := [];
    var sizePlus1 := 1;
    var i, start := 0, 0;
    var matched, lastMatch := false, false;
    ghost var capped := false;
    while i < len
      invariant 0 <= start <= i <= len
      invariant !capped
      invariant forall j :: start <= j < i ==> !isSep(s[j])
      invariant matched <==> start < i
      invariant preserveAllTokens && i > 0 ==> matched || lastMatch
      invariant 1 <= sizePlus1 && (max > 0 ==> sizePlus1 <= max)
      invariant list + Tokens(s, isSep, start, Remaining(max, sizePlus1 - 1), preserveAllTokens) == whole
    {
      if isSep(s[i]) {
        if matched || preserveAllTokens {
          lastMatch := true;
          if sizePlus1 == max {
            // the source also sets i past the end and start to i + 1, which ends the scan
            EmitRest(s, isSep, preserveAllTokens, start, i, list, whole);
            capped := true;
            sizePlus1 := sizePlus1 + 1;
            i := len;
            lastMatch := false;
            list := list + [s[start..i]];
            matched := false;
            break;
          }
          EmitToken(s, isSep, Remaining(max, sizePlus1 - 1), preserveAllTokens, start, i, list, whole,
                    Remaining(max, sizePlus1));
          sizePlus1 := sizePlus1 + 1;
          list := list + [s[start..i]];
          matched := false;
        } else {
          EmitNothing(s, isSep, Remaining(max, sizePlus1 - 1), i, list, whole);
        }
        i := i + 1;
        start := i;
      } else {
        lastMatch := false;
        matched := true;
        i := i + 1;
      }
    }
    if !capped {
      EmitLast(s, isSep, Remaining(max, sizePlus1 - 1), preserveAllTokens, start, list, whole);
    }
    if matched || (preserveAllTokens && lastMatch) {
      list := list + [s[start..i]];
    }
    return Some(list);
  }

  /** `splitWorker(String str, char separatorChar, boolean preserveAllTokens)`: the same
      scan with one separator char and no limit. */
  method SplitWorkerChar(str: Option<string>, separatorChar: char, preserveAllTokens: bool)
    returns (r: Option<seq<string>>)
    ensures str.None? ==> r.None?
    ensures str.Some? ==> r == Some(Split(str.value, CharTest(separatorChar), -1, preserveAllTokens))
  {
    if str.None? {
      return None;
    }
    var s := str.value;
    var len := |s|;
    if len == 0 {
      return Some([]);
    }
    var isSep := CharTest(separatorChar);
    ghost var whole := Tokens(s, isSep, 0, -1, preserveAllTokens);
    var list: seq<string> := [];
    var i, start := 0, 0;
    var matched, lastMatch := false, false;
    while i < len
      invariant 0 <= start <= i <= len
      invariant forall j :: start <= j < i ==> !isSep(s[j])
      invariant matched <==> start < i
      invariant preserveAllTokens && i > 0 ==> matched || lastMatch
      invariant list + Tokens(s, isSep, start, -1, preserveAllTokens) == whole
    {
      assert isSep(s[i]) <==> s[i] == separatorChar;
      if s[i] == separatorChar {
        if matched || preserveAllTokens {
          EmitToken(s, isSep, -1, preserveAllTokens, start, i, list, whole, -1);
          list := list + [s[start..i]];
          matched := false;
          lastMatch := true;
        } else {
          EmitNothing(s, isSep, -1, i, list, whole);
        }
        i := i + 1;
        start := i;
      } else {
        lastMatch := false;
        matched := true;
        i := i + 1;
      }
    }
    EmitLast(s, isSep, -1, preserveAllTokens, start, list, whole);
    if matched || (preserveAllTokens && lastMatch) {
      list := list + [s[start..i]];
    }
    return Some(list);
  }

  /** Preserving all tokens always yields at least one token (possibly ""). */
  lemma TokensPreserveNonEmpty(s: string, isSep: char -> bool, i: nat, cap: int)
    requires i <= |s|
    ensures |Tokens(s, isSep, i, cap, true)| >= 1
  {
  }

  /** Preserving all tokens of a one-char separator, joining with that char rebuilds the text,
      whatever the limit. */
  lemma {:induction false} TokensPreserveJoin(s: string, c: char, i: nat, cap: int)
    requires i <= |s|
    ensures Join(Tokens(s, CharTest(c), i, cap, true), [c]) == s[i..]
    decreases |s| - i
  {
    var isSep := CharTest(c);
    var k := NextSeparator(s, isSep, i);
    NextSeparatorFirst(s, isSep, i);
    if k < |s| && cap != 1 {
      var cap' := if cap > 0 then cap - 1 else cap;
      var rest := Tokens(s, isSep, k + 1, cap', true);
      TokensPreserveNonEmpty(s, isSep, k + 1, cap');
      JoinCons(s[i..k], rest, [c]);
      TokensPreserveJoin(s, c, k + 1, cap');
      assert s[i..k] + [c] + s[k + 1..] == s[i..];
    }
  }

  /** `splitPreserveAllTokens(s, c)` joined with `c` gives back `s`. */
  lemma SplitPreserveJoin(s: string, c: char)
    ensures Join(Split(s, CharTest(c), -1, true), [c]) == s
  {
    if s != [] {
      TokensPreserveJoin(s, c, 0, -1);
    }
  }

  /** A token is a non-empty text free of separators. */
  predicate CleanToken(t: string, isSep: char -> bool)
  {
    |t| > 0 && forall j :: 0 <= j < |t| ==> !isSep(t[j])
  }

  /** Without a limit and without preserving, every token is non-empty and holds no separator. */
  lemma {:induction false} TokensClean(s: string, isSep: char -> bool, i: nat, cap: int)
    requires i <= |s| && cap <= 0
    ensures forall t :: t in Tokens(s, isSep, i, cap, false) ==> CleanToken(t, isSep)
    decreases |s| - i
  {
    var k := SkipSeparators(s, isSep, i);
    SkipSeparatorsRun(s, isSep, i);
    if k < |s| {
      var e := NextSeparator(s, isSep, k);
      NextSeparatorFirst(s, isSep, k);
      assert CleanToken(s[k..e], isSep);
      if e < |s| {
        TokensClean(s, isSep, e + 1, cap);
      }
    }
  }

  /** The non-preserving split without a limit: no empty token and no separator in any token. */
  lemma SplitClean(s: string, isSep: char -> bool, max: int)
    requires max <= 0
    ensures forall t :: t in Split(s, isSep, max, false) ==> CleanToken(t, isSep)
  {
    if s != [] {
      TokensClean(s, isSep, 0, max);
    }
  }

  /** With a limit, at most `cap` tokens come out, and when exactly `cap` do, the last one
      runs to the end of the text. */
  lemma {:induction false} TokensCapped(s: string, isSep: char -> bool, i: nat, cap: int, preserve: bool)
    requires i <= |s| && cap > 0
    ensures var r := Tokens(s, isSep, i, cap, preserve);
            |r| <= cap && (|r| == cap ==> EndsWith(s, r[cap - 1]))
    decreases |s| - i
  {
    var k := if preserve then i else SkipSeparators(s, isSep, i);
    if k < |s| || preserve {
      var e := NextSeparator(s, isSep, k);
      if e < |s| && cap != 1 {
        TokensCapped(s, isSep, e + 1, cap - 1, preserve);
        var r := Tokens(s, isSep, i, cap, preserve);
        var rest := Tokens(s, isSep, e + 1, cap - 1, preserve);
        assert r == [s[k..e]] + rest;
        if |r| == cap {
          assert r[cap - 1] == rest[cap - 2];
        }
      } else {
        assert s[k..] == s[|s| - |s[k..]|..];
      }
    }
  }

  /** `split(str, chars, max)` with max > 0: at most max tokens; the last of max tokens is a
      suffix of the input, separators included. */
  lemma SplitCapped(s: string, isSep: char -> bool, max: int, preserve: bool)
    requires max > 0
    ensures var r := Split(s, isSep, max, preserve);
            |r| <= max && (|r| == max ==> EndsWith(s, r[max - 1]))
  {
    if s != [] {
      TokensCapped(s, isSep, 0, max, preserve);
    }
  }
}

