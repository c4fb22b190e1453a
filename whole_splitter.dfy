/** `splitByWholeSeparatorWorker`: splitting on every occurrence of a whole
    separator string, found left to right with `String.indexOf`. A null or
    empty separator hands the work to the whitespace tokenizer. */
module WholeSplitter {
  import opened JavaLang
  import opened Joiner
  import opened Tokenizer

  /** The tokens of `s[beg..]` cut at the occurrences of a non-empty `sep`.
      Without `preserve`, an occurrence right at the start of a token (a
      leading or doubled separator) is skipped; a separator at the very end
      still leaves a final "" token. `cap` works as in `Tokens`: the token
      emitted when `cap == 1` is the whole rest of the text. */
  function WholeTokens(s: string, sep: string, beg: nat, cap: int, preserve: bool): seq<string>
    requires |sep| > 0 && beg <= |s|
    decreases |s| - beg
  {
    var e := IndexOf(s, sep, beg);
    if e < 0 then [s[beg..]]
    else if e > beg || preserve then
      if cap == 1 then [s[beg..]]
      else [s[beg..e]] + WholeTokens(s, sep, e + |sep|, if cap > 0 then cap - 1 else cap, preserve)
    else WholeTokens(s, sep, e + |sep|, cap, preserve)
  }

  /** The array `splitByWholeSeparatorWorker` returns for a non-null string. */
  function WholeSplit(s: string, separator: Option<string>, max: int, preserve: bool,
                      isWhitespace: char -> bool): seq<string>
  {
    if s == [] then []
    else if separator.None? || separator.value == "" then Split(s, SeparatorTest(None, isWhitespace), max, preserve)
    else WholeTokens(s, separator.value, 0, max, preserve)
  }

  /** `splitByWholeSeparatorWorker(str, separator, max, preserveAllTokens)`. */
  method SplitByWholeSeparatorWorker(str: Option<string>, separator: Option<string>, max: int,
                                     preserveAllTokens: bool, isWhitespace: char -> bool)
    returns (r: Option<seq<string>>)
    ensures str.None? ==> r.None?
    ensures str.Some? && (separator.None? || separator.value == "") ==>
              r == Some(Split(str.value, SeparatorTest(None, isWhitespace), max, preserveAllTokens))
    ensures str.Some? ==> r == Some(WholeSplit(str.value, separator, max, preserveAllTokens, isWhitespace))
  {
    if str.None? {
      return None;
    }
    var s := str.value;
    var len := |s|;
    if len == 0 {
      return Some([]);
    }
    if separator.None? || separator.value == "" {
      r := SplitWorker(str, None, max, preserveAllTokens, isWhitespace);
      return;
    }
    var substrings := ScanWhole(s, separator.value, max, preserveAllTokens);
    return Some(substrings);
  }

  /** What the scan of `splitByWholeSeparatorWorker` knows at the head of its loop: the
      tokens emitted so far followed by the tokens of the rest make up all the tokens,
      until the rest has been emitted and `end` has been set to the length. */
  ghost predicate ScanState(s: string, sep: string, max: int, preserve: bool, whole: seq<string>,
                            substrings: seq<string>, numberOfSubstrings: int, beg: int, end: int)
  {
    |sep| > 0 && 0 <= beg && 0 <= end <= |s| && 0 <= numberOfSubstrings &&
    (end < |s| ==> beg <= |s| && (max > 0 ==> numberOfSubstrings < max) &&
                   substrings + WholeTokens(s, sep, beg, Remaining(max, numberOfSubstrings), preserve) == whole) &&
    (end == |s| ==> substrings == whole)
  }

  /** The loop of `splitByWholeSeparatorWorker` over a non-empty text and separator. */
  method ScanWhole(s: string, sep: string, max: int, preserveAllTokens: bool) returns (substrings: seq<string>)
    requires |s| > 0 && |sep| > 0
    ensures substrings == WholeTokens(s, sep, 0, max, preserveAllTokens)
  {
    var len := |s|;
    ghost var whole := WholeTokens(s, sep, 0, max, preserveAllTokens);
    substrings := [];
    var numberOfSubstrings := 0;
    var beg, end := 0, 0;
    while end < len
      invariant ScanState(s, sep, max, preserveAllTokens, whole, substrings, numberOfSubstrings, beg, end)
      decreases if end < len then 1 else 0, len + 1 - beg
    {
      substrings, numberOfSubstrings, beg, end :=
        ScanStep(s, sep, max, preserveAllTokens, whole, substrings, numberOfSubstrings, beg, end);
    }
    return substrings;
  }

  /** One turn of the loop of `splitByWholeSeparatorWorker`: look for the separator from
      `beg` and emit a token, skip a separator, or emit the rest and set `end` to the length. */
  method ScanStep(s: string, sep: string, max: int, preserveAllTokens: bool, ghost whole: seq<string>,
                  substrings0: seq<string>, numberOfSubstrings0: int, beg0: int, end0: int)
    returns (substrings: seq<string>, numberOfSubstrings: int, beg: int, end: int)
    requires end0 < |s| && ScanState(s, sep, max, preserveAllTokens, whole, substrings0, numberOfSubstrings0, beg0, end0)
    ensures ScanState(s, sep, max, preserveAllTokens, whole, substrings, numberOfSubstrings, beg, end)
    ensures end == |s| || beg > beg0
  {
    var len := |s|;
    var separatorLength := |sep|;
    substrings, numberOfSubstrings, beg := substrings0, numberOfSubstrings0, beg0;
    ghost var cap := Remaining(max, numberOfSubstrings);
    end := IndexOf(s, sep, beg);
    if end > -1 {
      if end > beg {
        numberOfSubstrings := numberOfSubstrings + 1;
        if numberOfSubstrings == max {
          WholeStepLast(s, sep, beg, cap, preserveAllTokens, end, substrings, whole);
          end := len;
          substrings := substrings + [s[beg..]];
        } else {
          WholeStepToken(s, sep, beg, cap, preserveAllTokens, end, substrings, whole,
                         s[beg..end], end + separatorLength, Remaining(max, numberOfSubstrings));
          substrings := substrings + [s[beg..end]];
          beg := end + separatorLength;
        }
      } else {
        if preserveAllTokens {
          numberOfSubstrings := numberOfSubstrings + 1;
          if numberOfSubstrings == max {
            WholeStepLast(s, sep, beg, cap, preserveAllTokens, end, substrings, whole);
            end := len;
            substrings := substrings + [s[beg..]];
          } else {
            WholeStepToken(s, sep, beg, cap, preserveAllTokens, end, substrings, whole,
                           "", end + separatorLength, Remaining(max, numberOfSubstrings));
            substrings := substrings + [""];
          }
        } else {
          WholeStepSkip(s, sep, beg, cap, end, substrings, whole, end + separatorLength);
        }
        beg := end + separatorLength;
      }
    } else {
      WholeStepLast(s, sep, beg, cap, preserveAllTokens, end, substrings, whole);
      substrings := substrings + [s[beg..]];
      end := len;
    }
  }

  /** The scan emits the token `tok` before the occurrence at `e` and goes on after it,
      at `next` with one token less to go. */
  lemma WholeStepToken(s: string, sep: string, beg: nat, cap: int, preserve: bool, e: int,
                       list: seq<string>, whole: seq<string>, tok: string, next: nat, cap': int)
    requires |sep| > 0 && beg <= |s| && e == IndexOf(s, sep, beg)
    requires e >= 0 && (e > beg || preserve) && tok == s[beg..e] && next == e + |sep|
    requires cap != 1 && cap' == if cap > 0 then cap - 1 else cap
    requires list + WholeTokens(s, sep, beg, cap, preserve) == whole
    ensures (list + [tok]) + WholeTokens(s, sep, next, cap', preserve) == whole
  {
    WholeTokensCons(s, sep, beg, cap, preserve, e);
  }

  /** The scan drops an occurrence right at the start of a token when not preserving. */
  lemma WholeStepSkip(s: string, sep: string, beg: nat, cap: int, e: int, list: seq<string>, whole: seq<string>,
                      next: nat)
    requires |sep| > 0 && beg <= |s| && e == IndexOf(s, sep, beg)
    requires e == beg && next == e + |sep|
    requires list + WholeTokens(s, sep, beg, cap, false) == whole
    ensures list + WholeTokens(s, sep, next, cap, false) == whole
  {
  }

  /** The scan emits the whole rest: no further occurrence, or the limit is reached. */
  lemma WholeStepLast(s: string, sep: string, beg: nat, cap: int, preserve: bool, e: int,
                      list: seq<string>, whole: seq<string>)
    requires |sep| > 0 && beg <= |s| && e == IndexOf(s, sep, beg)
    requires e < 0 || ((e > beg || preserve) && cap == 1)
    requires list + WholeTokens(s, sep, beg, cap, preserve) == whole
    ensures list + [s[beg..]] == whole
  {
  }

  /** With preserved tokens, joining with the separator rebuilds the text, whatever the limit. */
  lemma {:induction false} WholeTokensPreserveJoin(s: string, sep: string, beg: nat, cap: int)
    requires |sep| > 0 && beg <= |s|
    ensures Join(WholeTokens(s, sep, beg, cap, true), sep) == s[beg..]
    decreases |s| - beg, 1
  {
    var e := IndexOf(s, sep, beg);
    if e >= 0 && cap != 1 {
      PreserveJoinAt(s, sep, beg, cap, e);
    } else {
      assert WholeTokens(s, sep, beg, cap, true) == [s[beg..]];
    }
  }

  /** The step of `WholeTokensPreserveJoin` at a cut e. */
  lemma {:induction false} PreserveJoinAt(s: string, sep: string, beg: nat, cap: int, e: int)
    requires |sep| > 0 && beg <= |s| && e == IndexOf(s, sep, beg) && e >= 0 && cap != 1
    ensures Join(WholeTokens(s, sep, beg, cap, true), sep) == s[beg..]
    decreases |s| - beg, 0
  {
    var cap' := if cap > 0 then cap - 1 else cap;
    var rest := WholeTokens(s, sep, e + |sep|, cap', true);
    WholeTokensCons(s, sep, beg, cap, true, e);
    WholeTokensPreserveJoin(s, sep, e + |sep|, cap');
    JoinCons(s[beg..e], rest, sep);
    IndexOfFirst(s, sep, beg);
    SplitAtOccurrence(s, sep, beg, e);
  }

  /** The tokens of a text that has an occurrence at e, when it is not skipped and not capped. */
  lemma WholeTokensCons(s: string, sep: string, beg: nat, cap: int, preserve: bool, e: int)
    requires |sep| > 0 && beg <= |s| && e == IndexOf(s, sep, beg)
    requires e >= 0 && (e > beg || preserve) && cap != 1
    ensures e + |sep| <= |s|
    ensures WholeTokens(s, sep, beg, cap, preserve) ==
            [s[beg..e]] + WholeTokens(s, sep, e + |sep|, if cap > 0 then cap - 1 else cap, preserve)
  {
  }

  /** There is always at least one token. */
  lemma {:induction false} WholeTokensNonEmpty(s: string, sep: string, beg: nat, cap: int, preserve: bool)
    requires |sep| > 0 && beg <= |s|
    ensures |WholeTokens(s, sep, beg, cap, preserve)| >= 1
    decreases |s| - beg
  {
    var e := IndexOf(s, sep, beg);
    if e >= 0 && !(e > beg || preserve) {
      WholeTokensNonEmpty(s, sep, e + |sep|, cap, preserve);
    }
  }

  /** A limit of one token leaves the whole rest as that token. */
  lemma WholeTokensOne(s: string, sep: string, beg: nat)
    requires |sep| > 0 && beg <= |s|
    ensures WholeTokens(s, sep, beg, 1, true) == [s[beg..]]
  {
  }

  /** A text around an occurrence of `sep` at e is the part before, `sep`, and the part after. */
  lemma SplitAtOccurrence(s: string, sep: string, beg: nat, e: int)
    requires beg <= e && OccursAt(s, sep, e)
    ensures s[beg..e] + sep + s[e + |sep|..] == s[beg..]
  {
    assert s[e..e + |sep|] == sep;
    assert s[beg..] == s[beg..e] + s[e..e + |sep|] + s[e + |sep|..];
  }

  /** `splitByWholeSeparatorPreserveAllTokens(s, sep)` joined with `sep` gives back `s`. */
  lemma WholeSplitPreserveJoin(s: string, sep: string, max: int, isWhitespace: char -> bool)
    requires |sep| > 0
    ensures Join(WholeSplit(s, Some(sep), max, true, isWhitespace), sep) == s
  {
    if s != [] {
      WholeTokensPreserveJoin(s, sep, 0, max);
    }
  }

  /** `t` holds no occurrence of `sep`. */
  ghost predicate Free(t: string, sep: string)
  {
    forall j :: !OccursAt(t, sep, j)
  }

  /** An occurrence in a slice is an occurrence in the text, shifted by the slice start. */
  lemma OccursInSlice(s: string, sep: string, beg: nat, e: nat, j: int)
    requires beg <= e <= |s|
    ensures OccursAt(s[beg..e], sep, j) ==> OccursAt(s, sep, beg + j)
  {
    var t := s[beg..e];
    if OccursAt(t, sep, j) {
      forall k | 0 <= k < |sep| ensures s[beg + j..beg + j + |sep|][k] == sep[k] {
        assert t[j..j + |sep|][k] == t[j + k];
      }
      assert s[beg + j..beg + j + |sep|] == sep;
    }
  }

  lemma FreePrefix(s: string, sep: string, beg: nat, e: nat)
    requires beg <= e <= |s|
    requires forall j :: beg <= j && j + |sep| <= e ==> !OccursAt(s, sep, j)
    ensures Free(s[beg..e], sep)
  {
    forall j ensures !OccursAt(s[beg..e], sep, j) {
      OccursInSlice(s, sep, beg, e, j);
    }
  }

  /** Without a limit, no token holds the separator; without preserving, only the last
      token can be "" (when the text ends with the separator). */
  lemma {:induction false} WholeTokensFree(s: string, sep: string, beg: nat, cap: int, preserve: bool)
    requires |sep| > 0 && beg <= |s| && cap <= 0
    ensures FreeTokens(WholeTokens(s, sep, beg, cap, preserve), sep, preserve)
    decreases |s| - beg, 1
  {
    var e := IndexOf(s, sep, beg);
    IndexOfFirst(s, sep, beg);
    if e < 0 {
      FreePrefix(s, sep, beg, |s|);
      assert s[beg..|s|] == s[beg..];
      assert WholeTokens(s, sep, beg, cap, preserve) == [s[beg..]];
    } else {
      FreeAt(s, sep, beg, cap, preserve, e);
    }
  }

  /** The tokens hold no separator, and only the last can be "" unless preserving. */
  ghost predicate FreeTokens(r: seq<string>, sep: string, preserve: bool)
  {
    |r| > 0 &&
    (forall k :: 0 <= k < |r| ==> Free(r[k], sep)) &&
    (!preserve ==> forall k :: 0 <= k < |r| - 1 ==> r[k] != "")
  }

  /** `WholeTokensFree` past a separator found at `e`. */
  lemma {:induction false} FreeAt(s: string, sep: string, beg: nat, cap: int, preserve: bool, e: int)
    requires |sep| > 0 && beg <= |s| && cap <= 0 && e == IndexOf(s, sep, beg) && e >= 0
    requires forall j :: beg <= j < e ==> !OccursAt(s, sep, j)
    ensures FreeTokens(WholeTokens(s, sep, beg, cap, preserve), sep, preserve)
    decreases |s| - beg, 0
  {
    WholeTokensFree(s, sep, e + |sep|, cap, preserve);
    var rest := WholeTokens(s, sep, e + |sep|, cap, preserve);
    if e > beg || preserve {
      WholeTokensCons(s, sep, beg, cap, preserve, e);
      FreePrefix(s, sep, beg, e);
      var r := [s[beg..e]] + rest;
      forall k | 0 < k < |r| ensures r[k] == rest[k - 1] { }
      assert FreeTokens(r, sep, preserve);
    } else {
      assert WholeTokens(s, sep, beg, cap, preserve) == rest;
    }
  }

  /** With max > 0 at most max tokens come out; once the max-th is reached it is the whole
      rest of the text (`str.substring(beg)`), hence a suffix of the input. */
  lemma {:induction false} WholeTokensCapped(s: string, sep: string, beg: nat, cap: int, preserve: bool)
    requires |sep| > 0 && beg <= |s| && cap > 0
    ensures var r := WholeTokens(s, sep, beg, cap, preserve);
            |r| <= cap && (|r| == cap ==> EndsWith(s, r[cap - 1]))
    decreases |s| - beg
  {
    var e := IndexOf(s, sep, beg);
    var r := WholeTokens(s, sep, beg, cap, preserve);
    if e < 0 || ((e > beg || preserve) && cap == 1) {
      assert r == [s[beg..]];
      assert EndsWith(s, s[beg..]) by {
        assert s[beg..] == s[|s| - |s[beg..]|..];
      }
    } else if e > beg || preserve {
      var rest := WholeTokens(s, sep, e + |sep|, cap - 1, preserve);
      assert r == [s[beg..e]] + rest;
      WholeTokensCapped(s, sep, e + |sep|, cap - 1, preserve);
      if |r| == cap {
        assert r[cap - 1] == rest[cap - 2];
      }
    } else {
      WholeTokensCapped(s, sep, e + |sep|, cap, preserve);
    }
  }

  /** Below the cap the capped split is the unlimited one; at the cap, the unlimited split
      has at least as many tokens and the first cap - 1 agree, so only the last token differs:
      it runs on to the end of the text instead of stopping at the next separator. */
  lemma {:induction false} WholeTokensCapAgrees(s: string, sep: string, beg: nat, cap: int, preserve: bool)
    requires |sep| > 0 && beg <= |s| && cap > 0
    ensures var r := WholeTokens(s, sep, beg, cap, preserve);
            var u := WholeTokens(s, sep, beg, 0, preserve);
            (|r| < cap ==> r == u) && (|r| == cap ==> |u| >= cap && r[..cap - 1] == u[..cap - 1])
    decreases |s| - beg
  {
    var e := IndexOf(s, sep, beg);
    var r := WholeTokens(s, sep, beg, cap, preserve);
    var u := WholeTokens(s, sep, beg, 0, preserve);
    if e < 0 {
      assert r == u == [s[beg..]];
    } else if e > beg || preserve {
      var u' := WholeTokens(s, sep, e + |sep|, 0, preserve);
      assert u == [s[beg..e]] + u';
      if cap > 1 {
        var r' := WholeTokens(s, sep, e + |sep|, cap - 1, preserve);
        assert r == [s[beg..e]] + r';
        WholeTokensCapAgrees(s, sep, e + |sep|, cap - 1, preserve);
        if |r| == cap {
          assert r[..cap - 1] == [s[beg..e]] + r'[..cap - 2];
          assert u[..cap - 1] == [s[beg..e]] + u'[..cap - 2];
        }
      }
    } else {
      WholeTokensCapAgrees(s, sep, e + |sep|, cap, preserve);
    }
  }

  /** `splitByWholeSeparatorWorker` with max > 0 yields at most max tokens, the max-th being
      `str.substring(beg)`; short of the cap it is the unlimited split, and at the cap only its
      last token differs from the unlimited split. */
  lemma WholeSplitCapped(s: string, sep: string, max: int, preserve: bool, isWhitespace: char -> bool)
    requires |sep| > 0 && max > 0
    ensures var r := WholeSplit(s, Some(sep), max, preserve, isWhitespace);
            |r| <= max && (|r| == max ==> EndsWith(s, r[max - 1]))
    ensures var r := WholeSplit(s, Some(sep), max, preserve, isWhitespace);
            var u := WholeSplit(s, Some(sep), 0, preserve, isWhitespace);
            (|r| < max ==> r == u) && (|r| == max ==> |u| >= max && r[..max - 1] == u[..max - 1])
  {
    if s != [] {
      WholeTokensCapped(s, sep, 0, max, preserve);
      WholeTokensCapAgrees(s, sep, 0, max, preserve);
    }
  }
}
