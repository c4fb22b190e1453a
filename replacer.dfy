/** The single-pattern replacer: `replace(text, searchString, replacement, max)`,
    its thin callers `replaceOnce` and `remove(String, String)`, and
    `countOccurrencesOf`. Occurrences are found left to right with
    `String.indexOf`, and never overlap. */
module Replacer {
  import opened JavaLang
  import opened Joiner
  import opened WholeSplitter

  /** The rebuilt `text[start..]`: each of up to `max` occurrences (all of them when
      max < 0) becomes `repl`; everything between them is kept. */
  function ReplaceFrom(text: string, search: string, repl: string, start: nat, max: int): string
    requires |search| > 0 && start <= |text| && max != 0
    decreases |text| - start
  {
    var end := IndexOf(text, search, start);
    if end < 0 then text[start..]
    else text[start..end] + repl +
         (if max - 1 == 0 then text[end + |search|..] else ReplaceFrom(text, search, repl, end + |search|, max - 1))
  }

  /** What `replace(text, searchString, replacement, max)` returns: `text` itself when
      it or the search string is null or empty, the replacement is null or max is 0. */
  function Replaced(text: Option<string>, search: Option<string>, repl: Option<string>, max: int): (r: Option<string>)
    ensures r.Some? <==> text.Some?
  {
    if IsEmpty(text) || IsEmpty(search) || repl.None? || max == 0 then text
    else Some(ReplaceFrom(text.value, search.value, repl.value, 0, max))
  }

  /** `replace(text, searchString, replacement, max)`. */
  method Replace(text: Option<string>, searchString: Option<string>, replacement: Option<string>, max: int)
    returns (r: Option<string>)
    ensures IsEmpty(text) || IsEmpty(searchString) || replacement.None? || max == 0 ==> r == text
    ensures r == Replaced(text, searchString, replacement, max)
  {
    if IsEmpty(text) || IsEmpty(searchString) || replacement.None? || max == 0 {
      return text;
    }
    var t, search, repl := text.value, searchString.value, replacement.value;
    var start := 0;
    var end := IndexOf(t, search, start);
    if end == -1 {
      assert t[0..] == t;
      return text;
    }
    ghost var whole := ReplaceFrom(t, search, repl, 0, max);
    var replLength := |search|;
    var m := max;
    var buf := "";
    while end != -1
      invariant 0 <= start <= |t| && m != 0
      invariant end == IndexOf(t, search, start)
      invariant buf + ReplaceFrom(t, search, repl, start, m) == whole
      decreases |t| - start
    {
      ReplaceStep(t, search, repl, start, m, end, buf, whole);
      buf := buf + t[start..end] + repl;
      start := end + replLength;
      m := m - 1;
      if m == 0 {
        break;
      }
      end := IndexOf(t, search, start);
    }
    buf := buf + t[start..];
    return Some(buf);
  }

  /** One pass of the loop of `replace`: the span before the occurrence at `end` and the
      replacement go to the buffer. */
  lemma ReplaceStep(t: string, search: string, repl: string, start: nat, max: int, end: int,
                    buf: string, whole: string)
    requires |search| > 0 && start <= |t| && max != 0 && end == IndexOf(t, search, start) && end >= 0
    requires buf + ReplaceFrom(t, search, repl, start, max) == whole
    ensures end + |search| <= |t|
    ensures max - 1 == 0 ==> (buf + t[start..end] + repl) + t[end + |search|..] == whole
    ensures max - 1 != 0 ==> (buf + t[start..end] + repl) + ReplaceFrom(t, search, repl, end + |search|, max - 1) == whole
  {
    ReplaceFromCons(t, search, repl, start, max, end);
    var tail := if max - 1 == 0 then t[end + |search|..] else ReplaceFrom(t, search, repl, end + |search|, max - 1);
    assert whole == buf + (t[start..end] + repl + tail);
    assert (buf + t[start..end] + repl) + tail == buf + (t[start..end] + repl + tail);
  }

  /** `replaceOnce(text, searchString, replacement)`. */
  function ReplaceOnce(text: Option<string>, search: Option<string>, repl: Option<string>): Option<string>
  {
    Replaced(text, search, repl, 1)
  }

  /** `replaceOnce` replaces the first occurrence only and keeps the rest of the text. */
  lemma ReplaceOnceFirst(text: string, search: string, repl: string)
    requires |text| > 0 && |search| > 0
    ensures var e := IndexOf(text, search, 0);
            ReplaceOnce(Some(text), Some(search), Some(repl)) ==
              if e == -1 then Some(text) else Some(text[..e] + repl + text[e + |search|..])
  {
    FirstOnly(text, search, repl);
    assert ReplaceOnce(Some(text), Some(search), Some(repl)) == Some(ReplaceFrom(text, search, repl, 0, 1));
  }

  /** A bound of one stops after the first occurrence. */
  lemma FirstOnly(text: string, search: string, repl: string)
    requires |search| > 0
    ensures var e := IndexOf(text, search, 0);
            ReplaceFrom(text, search, repl, 0, 1) ==
              if e == -1 then text else text[..e] + repl + text[e + |search|..]
  {
    assert text[0..] == text;
    var e := IndexOf(text, search, 0);
    if e != -1 {
      assert text[0..e] == text[..e];
    }
  }

  /** `remove(str, remove)`: every occurrence of `remove` deleted. */
  function Remove(str: Option<string>, remove: Option<string>): Option<string>
  {
    if IsEmpty(str) || IsEmpty(remove) then str else Replaced(str, remove, Some(""), -1)
  }

  /** The non-overlapping occurrences of `sub` in `str[pos..]`, counted left to right. */
  function CountFrom(str: string, sub: string, pos: nat): nat
    requires |sub| > 0 && pos <= |str|
    decreases |str| - pos
  {
    var idx := IndexOf(str, sub, pos);
    if idx == -1 then 0 else 1 + CountFrom(str, sub, idx + |sub|)
  }

  /** What `countOccurrencesOf(str, sub)` returns: 0 when either is null or empty. */
  function Occurrences(str: Option<string>, sub: Option<string>): nat
  {
    if str.None? || sub.None? || |str.value| == 0 || |sub.value| == 0 then 0
    else CountFrom(str.value, sub.value, 0)
  }

  /** `countOccurrencesOf(str, sub)`. */
  method CountOccurrencesOf(str: Option<string>, sub: Option<string>) returns (count: int)
    ensures count == Occurrences(str, sub)
  {
    if str.None? || sub.None? || |str.value| == 0 || |sub.value| == 0 {
      return 0;
    }
    var s, b := str.value, sub.value;
    count := 0;
    var pos := 0;
    var idx := IndexOf(s, b, pos);
    while idx != -1
      invariant 0 <= pos <= |s|
      invariant idx == IndexOf(s, b, pos)
      invariant count + CountFrom(s, b, pos) == CountFrom(s, b, 0)
      decreases |s| - pos
    {
      count := count + 1;
      pos := idx + |b|;
      idx := IndexOf(s, b, pos);
    }
  }

  function Min(a: int, b: int): int
  {
    if a <= b then a else b
  }

  /** The token limit of the whole-separator split that `replace` with `max` corresponds to. */
  function Cap(max: int): int
  {
    if max < 0 then 0 else max + 1
  }

  /** How many occurrences `replace` replaces: all of them when max < 0, else at most max. */
  function Replacements(max: int, occurrences: nat): nat
  {
    if max < 0 then occurrences else Min(max, occurrences)
  }

  /** `replace` is the preserving whole-separator split of the text, with the limit one
      above max, joined with the replacement. */
  lemma {:induction false} ReplaceFromJoin(t: string, search: string, repl: string, start: nat, max: int)
    requires |search| > 0 && start <= |t| && max != 0
    ensures ReplaceFrom(t, search, repl, start, max) == Join(WholeTokens(t, search, start, Cap(max), true), repl)
    decreases |t| - start, 1
  {
    var e := IndexOf(t, search, start);
    if e >= 0 {
      ReplaceJoinAt(t, search, repl, start, max, e);
    } else {
      ReplaceJoinNone(t, search, repl, start, max);
    }
  }

  /** The step of `ReplaceFromJoin` at an occurrence e. */
  lemma {:induction false} ReplaceJoinAt(t: string, search: string, repl: string, start: nat, max: int, e: int)
    requires |search| > 0 && start <= |t| && max != 0 && e == IndexOf(t, search, start) && e >= 0
    ensures ReplaceFrom(t, search, repl, start, max) == Join(WholeTokens(t, search, start, Cap(max), true), repl)
    decreases |t| - start, 0
  {
    var next := e + |search|;
    if max - 1 != 0 {
      ReplaceFromJoin(t, search, repl, next, max - 1);
    }
    var rest := WholeTokens(t, search, next, if max - 1 == 0 then 1 else Cap(max - 1), true);
    var tail := if max - 1 == 0 then t[next..] else ReplaceFrom(t, search, repl, next, max - 1);
    ReplaceFromCons(t, search, repl, start, max, e);
    if max - 1 == 0 {
      WholeTokensOne(t, search, next);
    }
    ReplaceJoinCons(t, search, repl, start, max, e, rest, tail);
  }

  /** The case of `ReplaceFromJoin` without an occurrence. */
  lemma ReplaceJoinNone(t: string, search: string, repl: string, start: nat, max: int)
    requires |search| > 0 && start <= |t| && max != 0 && IndexOf(t, search, start) < 0
    ensures ReplaceFrom(t, search, repl, start, max) == Join(WholeTokens(t, search, start, Cap(max), true), repl)
  {
    assert WholeTokens(t, search, start, Cap(max), true) == [t[start..]];
  }

  /** `replace` at an occurrence e: the span before it, the replacement, and the rest. */
  lemma ReplaceFromCons(t: string, search: string, repl: string, start: nat, max: int, e: int)
    requires |search| > 0 && start <= |t| && max != 0 && e == IndexOf(t, search, start) && e >= 0
    ensures e + |search| <= |t|
    ensures ReplaceFrom(t, search, repl, start, max) ==
            t[start..e] + repl + (if max - 1 == 0 then t[e + |search|..] else ReplaceFrom(t, search, repl, e + |search|, max - 1))
  {
    var tail := if max - 1 == 0 then t[e + |search|..] else ReplaceFrom(t, search, repl, e + |search|, max - 1);
    assert ReplaceFrom(t, search, repl, start, max) == t[start..e] + repl + tail;
  }

  /** The split at an occurrence e, joined, given the joined rest. */
  lemma ReplaceJoinCons(t: string, search: string, repl: string, start: nat, max: int, e: int,
                        rest: seq<string>, tail: string)
    requires |search| > 0 && start <= |t| && max != 0 && e == IndexOf(t, search, start) && e >= 0
    requires rest == WholeTokens(t, search, e + |search|, if max - 1 == 0 then 1 else Cap(max - 1), true)
    requires Join(rest, repl) == tail
    ensures Join(WholeTokens(t, search, start, Cap(max), true), repl) == t[start..e] + repl + tail
  {
    WholeTokensCons(t, search, start, Cap(max), true, e);
    WholeTokensNonEmpty(t, search, e + |search|, if max - 1 == 0 then 1 else Cap(max - 1), true);
    JoinCons(t[start..e], rest, repl);
  }

  /** The preserving split has one token more than the occurrences it cuts at: all of
      them without a limit, at most cap - 1 with one. */
  lemma {:induction false} WholeTokensCount(t: string, search: string, beg: nat, cap: int)
    requires |search| > 0 && beg <= |t|
    ensures |WholeTokens(t, search, beg, cap, true)| ==
            1 + (if cap <= 0 then CountFrom(t, search, beg) else Min(cap - 1, CountFrom(t, search, beg)))
    decreases |t| - beg
  {
    var e := IndexOf(t, search, beg);
    if e >= 0 && cap != 1 {
      var cap' := if cap > 0 then cap - 1 else cap;
      WholeTokensCons(t, search, beg, cap, true, e);
      WholeTokensCount(t, search, e + |search|, cap');
    }
  }

  /** `replace` changes the length by the length difference once per replaced occurrence. */
  lemma ReplaceLength(t: string, search: string, repl: string, max: int)
    requires |search| > 0 && max != 0
    ensures |ReplaceFrom(t, search, repl, 0, max)| ==
            |t| + Replacements(max, CountFrom(t, search, 0)) * (|repl| - |search|)
  {
    var parts := WholeTokens(t, search, 0, Cap(max), true);
    var k := Replacements(max, CountFrom(t, search, 0));
    ReplaceFromJoin(t, search, repl, 0, max);
    WholeTokensCount(t, search, 0, Cap(max));
    assert |parts| == k + 1;
    WholeTokensPreserveJoin(t, search, 0, Cap(max));
    JoinLength(parts, search);
    JoinLength(parts, repl);
    assert t[0..] == t;
  }

  /** Replacing the search string by itself gives the text back. */
  lemma ReplaceBySelf(text: Option<string>, search: string, max: int)
    ensures Replaced(text, Some(search), Some(search), max) == text
  {
    if !(IsEmpty(text) || |search| == 0 || max == 0) {
      ReplaceFromJoin(text.value, search, search, 0, max);
      WholeTokensPreserveJoin(text.value, search, 0, Cap(max));
      assert text.value[0..] == text.value;
    }
  }

  /** `remove(str, sub)` shortens the text by |sub| per occurrence. */
  lemma RemoveLength(str: string, sub: string)
    requires |str| > 0 && |sub| > 0
    ensures Remove(Some(str), Some(sub)).Some?
    ensures |Remove(Some(str), Some(sub)).value| == |str| - Occurrences(Some(str), Some(sub)) * |sub|
  {
    var r := ReplaceFrom(str, sub, "", 0, -1);
    var n := CountFrom(str, sub, 0);
    assert Remove(Some(str), Some(sub)) == Some(r);
    assert Occurrences(Some(str), Some(sub)) == n;
    ReplaceLength(str, sub, "", -1);
    assert |r| == |str| + n * (0 - |sub|);
    assert n * (0 - |sub|) == -(n * |sub|);
  }

  /** `countOccurrencesOf` counts the cuts of the preserving whole-separator split. */
  lemma CountIsCuts(str: string, sub: string)
    requires |str| > 0 && |sub| > 0
    ensures Occurrences(Some(str), Some(sub)) + 1 == |WholeTokens(str, sub, 0, 0, true)|
  {
    WholeTokensCount(str, sub, 0, 0);
  }

  /** Replacing is not idempotent: a replacement can complete a new occurrence. */
  lemma ReplaceNotIdempotent()
    ensures Replaced(Some("abb"), Some("ab"), Some("a"), -1) == Some("ab")
    ensures Replaced(Some("ab"), Some("ab"), Some("a"), -1) == Some("a")
  {
    ReplaceOnceMore();
    ReplaceLast();
  }

  /** The first replacement of "ab" by "a" in "abb" makes a new "ab". */
  lemma ReplaceOnceMore()
    ensures Replaced(Some("abb"), Some("ab"), Some("a"), -1) == Some("ab")
  {
    assert IndexOf("abb", "ab", 0) == 0;
    assert ReplaceFrom("abb", "ab", "a", 2, -2) == "b";
    assert ReplaceFrom("abb", "ab", "a", 0, -1) == "" + "a" + "b" == "ab";
    assert Replaced(Some("abb"), Some("ab"), Some("a"), -1) == Some(ReplaceFrom("abb", "ab", "a", 0, -1));
  }

  /** Which a second replacement turns into "a". */
  lemma ReplaceLast()
    ensures Replaced(Some("ab"), Some("ab"), Some("a"), -1) == Some("a")
  {
    assert IndexOf("ab", "ab", 0) == 0;
    assert ReplaceFrom("ab", "ab", "a", 2, -2) == "";
    assert ReplaceFrom("ab", "ab", "a", 0, -1) == "" + "a" + "" == "a";
    assert Replaced(Some("ab"), Some("ab"), Some("a"), -1) == Some(ReplaceFrom("ab", "ab", "a", 0, -1));
  }

  /** Replacing every occurrence of one char by a text without it leaves none of it. */
  lemma {:induction false} ReplaceCharAll(t: string, c: char, repl: string, start: nat, max: int)
    requires start <= |t| && max < 0 && c !in repl
    ensures c !in ReplaceFrom(t, [c], repl, start, max)
    decreases |t| - start
  {
    var end := IndexOf(t, [c], start);
    IndexOfFirst(t, [c], start);
    var upto := if end < 0 then |t| else end;
    forall j | start <= j < upto ensures t[j] != c {
      assert !OccursAt(t, [c], j);
    }
    assert c !in t[start..upto];
    if end >= 0 {
      ReplaceCharAll(t, c, repl, end + 1, max - 1);
    } else {
      assert t[start..upto] == t[start..];
    }
  }
}
