/** The path normalizer: `delimitedListToStringArray`, `cleanPath` and `pathEquals`.
    A path is split at "/" after "\" has been rewritten to "/"; the segments are
    walked right to left, dropping "." and letting each ".." cancel the nearest
    real segment to its left. */
module PathNormalizer {
  import opened JavaLang
  import opened Joiner
  import opened WholeSplitter
  import opened Replacer
  import opened StringHelpers

  const FOLDER_SEPARATOR: string := "/"
  const WINDOWS_FOLDER_SEPARATOR: string := "\\"
  const TOP_PATH: string := ".."
  const CURRENT_PATH: string := "."

  /** Every part passed through `delete`. */
  function DeleteEach(parts: seq<string>, delete: string -> string): (r: seq<string>)
    ensures |r| == |parts|
  {
    seq(|parts|, i requires 0 <= i < |parts| => delete(parts[i]))
  }

  /** The tokens of `delimitedListToStringArray(str, delimiter, ...)`, each passed through
      `delete`: none for a null or empty string, the string itself for a null delimiter,
      one token per char for an empty one, otherwise the cuts at every occurrence. */
  function DelimitedList(str: Option<string>, delimiter: Option<string>, delete: string -> string): seq<string>
  {
    if str.None? then []
    else if delimiter.None? then [str.value]
    else if delimiter.value == "" then
      seq(|str.value|, i requires 0 <= i < |str.value| => delete(str.value[i..i + 1]))
    else if |str.value| == 0 then []
    else DeleteEach(WholeTokens(str.value, delimiter.value, 0, 0, true), delete)
  }

  /** The deletion the source applies to each token: `remove(token, charsToDelete)`,
      which deletes occurrences of `charsToDelete` as one whole string. */
  function RemoveOrSelf(t: string, charsToDelete: Option<string>): string
  {
    match Remove(Some(t), charsToDelete)
    case Some(v) => v
    case None => t
  }

  function AsWritten(charsToDelete: Option<string>): string -> string
  {
    t => RemoveOrSelf(t, charsToDelete)
  }

  /** The deletion the parameter is documented to mean: every char of `charsToDelete`
      deleted wherever it occurs. */
  function DeleteAny(charsToDelete: Option<string>): string -> string
  {
    t => if charsToDelete.None? then t else Translate(t, charsToDelete.value, "")
  }

  /** `delimitedListToStringArray(str, delimiter, charsToDelete)` as written. */
  method DelimitedListToStringArray(str: Option<string>, delimiter: Option<string>, charsToDelete: Option<string>)
    returns (r: seq<string>)
    ensures r == DelimitedList(str, delimiter, AsWritten(charsToDelete))
  {
    if str.None? {
      return [];
    }
    if delimiter.None? {
      return [str.value];
    }
    if delimiter.value == "" {
      r := CharList(str.value, charsToDelete);
    } else {
      r := CutList(str.value, delimiter.value, charsToDelete);
    }
  }

  /** The empty-delimiter branch: one token per char. */
  method CharList(s: string, charsToDelete: Option<string>) returns (result: seq<string>)
    ensures result == seq(|s|, i requires 0 <= i < |s| => AsWritten(charsToDelete)(s[i..i + 1]))
  {
    result := [];
    for i := 0 to |s|
      invariant |result| == i
      invariant forall k :: 0 <= k < i ==> result[k] == AsWritten(charsToDelete)(s[k..k + 1])
    {
      result := result + [RemoveOrSelf(s[i..i + 1], charsToDelete)];
    }
  }

  /** The branch for a non-empty delimiter: cut at each occurrence, left to right. */
  method CutList(s: string, d: string, charsToDelete: Option<string>) returns (result: seq<string>)
    requires |d| > 0
    ensures result == (if |s| == 0 then [] else DeleteEach(WholeTokens(s, d, 0, 0, true), AsWritten(charsToDelete)))
  {
    ghost var delete := AsWritten(charsToDelete);
    ghost var whole := DeleteEach(WholeTokens(s, d, 0, 0, true), delete);
    result := [];
    var pos := 0;
    var delPos := IndexOf(s, d, pos);
    while delPos != -1
      invariant CutState(s, d, delete, pos, delPos, result, whole)
      decreases |s| - pos
    {
      result, pos, delPos := CutOnce(s, d, charsToDelete, delete, whole, result, pos, delPos);
    }
    if |s| > 0 {
      assert WholeTokens(s, d, pos, 0, true) == [s[pos..]];
      result := result + [RemoveOrSelf(s[pos..], charsToDelete)];
    }
  }

  /** The state of the cutting loop: the pieces so far, followed by the pieces still to cut
      from `pos`, are all the pieces. */
  ghost predicate CutState(s: string, d: string, delete: string -> string, pos: nat, delPos: int,
                           result: seq<string>, whole: seq<string>)
    requires |d| > 0
  {
    pos <= |s| && delPos == IndexOf(s, d, pos) &&
    result + DeleteEach(WholeTokens(s, d, pos, 0, true), delete) == whole &&
    (|s| == 0 ==> result == [])
  }

  /** One turn of the cutting loop: the piece up to the next delimiter is cleaned and kept. */
  method CutOnce(s: string, d: string, charsToDelete: Option<string>, ghost delete: string -> string,
                 ghost whole: seq<string>, result: seq<string>, pos: nat, delPos: int)
    returns (result': seq<string>, pos': nat, delPos': int)
    requires |d| > 0 && delete == AsWritten(charsToDelete) && delPos != -1
    requires CutState(s, d, delete, pos, delPos, result, whole)
    ensures CutState(s, d, delete, pos', delPos', result', whole) && pos' > pos
  {
    DelimitedStep(s, d, pos, delPos, delete, result, whole);
    result' := result + [RemoveOrSelf(s[pos..delPos], charsToDelete)];
    pos' := delPos + |d|;
    delPos' := IndexOf(s, d, pos');
  }

  /** One pass of the loop: the token before the delimiter at `delPos`. */
  lemma DelimitedStep(s: string, d: string, pos: nat, delPos: int, delete: string -> string,
                      result: seq<string>, whole: seq<string>)
    requires |d| > 0 && pos <= |s| && delPos == IndexOf(s, d, pos) && delPos >= 0
    requires result + DeleteEach(WholeTokens(s, d, pos, 0, true), delete) == whole
    ensures delPos + |d| <= |s|
    ensures (result + [delete(s[pos..delPos])]) + DeleteEach(WholeTokens(s, d, delPos + |d|, 0, true), delete) == whole
  {
    WholeTokensCons(s, d, pos, 0, true, delPos);
    var rest := WholeTokens(s, d, delPos + |d|, 0, true);
    assert DeleteEach([s[pos..delPos]] + rest, delete) == [delete(s[pos..delPos])] + DeleteEach(rest, delete);
  }

  /** Without chars to delete, the tokens joined with the delimiter give the text back. */
  lemma DelimitedListJoin(s: string, d: string)
    requires |d| > 0
    ensures Join(DelimitedList(Some(s), Some(d), AsWritten(None)), d) == s
  {
    if |s| > 0 {
      var parts := WholeTokens(s, d, 0, 0, true);
      assert DeleteEach(parts, AsWritten(None)) == parts;
      WholeTokensPreserveJoin(s, d, 0, 0);
    }
  }

  /** With no chars to delete, the written and the documented deletion agree. */
  lemma DeletionsAgreeWithoutChars(str: Option<string>, delimiter: Option<string>)
    ensures DelimitedList(str, delimiter, AsWritten(None)) == DelimitedList(str, delimiter, DeleteAny(None))
  {
  }

  /** As written, `charsToDelete` "\r\n" deletes only the pair "\r\n": a lone line feed
      stays in the token, where deleting each char takes it out. */
  lemma LoneNewlineKept()
    ensures DelimitedList(Some("a\nb"), Some(","), AsWritten(Some("\r\n"))) == ["a\nb"]
    ensures DelimitedList(Some("a\nb"), Some(","), DeleteAny(Some("\r\n"))) == ["ab"]
  {
    var s := "a\nb";
    NewlineNotCut();
    NewlineKeptAsWritten();
    NewlineDeleted();
    assert DeleteEach([s], DeleteAny(Some("\r\n")))[0] == "ab";
    assert DeleteEach([s], AsWritten(Some("\r\n")))[0] == s;
  }

  lemma NewlineNotCut()
    ensures WholeTokens("a\nb", ",", 0, 0, true) == ["a\nb"]
  {
    var s := "a\nb";
    assert IndexOf(s, ",", 0) == -1;
    assert s[0..] == s;
  }

  lemma NewlineKeptAsWritten()
    ensures RemoveOrSelf("a\nb", Some("\r\n")) == "a\nb"
  {
    var s := "a\nb";
    assert IndexOf(s, "\r\n", 0) == -1;
    assert s[0..] == s;
    assert ReplaceFrom(s, "\r\n", "", 0, -1) == s;
  }

  lemma NewlineDeleted()
    ensures Translate("a\nb", "\r\n", "") == "ab"
  {
    var s := "a\nb";
    assert Translate("a", "\r\n", "") == "a";
    assert Translate("a\n", "\r\n", "") == "a";
    assert s[..|s| - 1] == "a\n";
    assert Translate(s, "\r\n", "") == "a" + "b" == "ab";
  }

  /** `delimitedListToStringArray` with the documented meaning of `charsToDelete`. */
  function DelimitedListDeleteAny(str: Option<string>, delimiter: Option<string>, charsToDelete: Option<string>)
    : seq<string>
  {
    DelimitedList(str, delimiter, DeleteAny(charsToDelete))
  }

  /** Deleting each char of `chars` leaves none of them. */
  lemma {:induction false} TranslateDeletesAll(t: string, chars: string, c: char)
    requires c in chars
    ensures c !in Translate(t, chars, "")
  {
    if t != [] {
      TranslateDeletesAll(t[..|t| - 1], chars, c);
      var last := t[|t| - 1];
      if last == c {
        assert CharIndexOf(chars, last) >= 0;
      }
    }
  }

  /** With the documented deletion, no token keeps a char of `charsToDelete` (a null
      delimiter returns the string untouched, as in the source). */
  lemma DeleteAnyClean(str: Option<string>, delimiter: Option<string>, chars: string, c: char)
    requires c in chars && delimiter.Some?
    ensures forall t :: t in DelimitedListDeleteAny(str, delimiter, Some(chars)) ==> c !in t
  {
    var r := DelimitedListDeleteAny(str, delimiter, Some(chars));
    forall i | 0 <= i < |r| ensures c !in r[i] {
      if delimiter.value == "" {
        TranslateDeletesAll(str.value[i..i + 1], chars, c);
      } else {
        TranslateDeletesAll(WholeTokens(str.value, delimiter.value, 0, 0, true)[i], chars, c);
      }
    }
  }

  /** The state of the right-to-left walk: the segments kept so far and the ".." not yet
      matched by a segment. */
  datatype Walked = Walked(elements: seq<string>, tops: nat)

  /** One segment, seen from the right. */
  function Step(element: string, st: Walked): Walked
  {
    if element == CURRENT_PATH then st
    else if element == TOP_PATH then Walked(st.elements, st.tops + 1)
    else if st.tops > 0 then Walked(st.elements, st.tops - 1)
    else Walked([element] + st.elements, st.tops)
  }

  /** The walk over `parts` from the last to the first, starting in `st`. */
  function Walk(parts: seq<string>, st: Walked): Walked
  {
    if parts == [] then st else Step(parts[0], Walk(parts[1..], st))
  }

  /** `n` copies of "..". */
  function Tops(n: nat): (r: seq<string>)
    ensures |r| == n
  {
    if n == 0 then [] else [TOP_PATH] + Tops(n - 1)
  }

  /** The segments `cleanPath` keeps: the unmatched ".." in front, then the kept segments. */
  function Normalized(parts: seq<string>): seq<string>
  {
    var w := Walk(parts, Walked([], 0));
    Tops(w.tops) + w.elements
  }

  /** The prefix `cleanPath` sets aside and the path left to normalize: everything up to
      the first ':' when it holds no "/", then a leading "/". */
  function SplitPrefix(pathToUse: string): (string, string)
  {
    var prefixIndex := IndexOf(pathToUse, ":", 0);
    var (prefix, rest) :=
      if prefixIndex != -1 then
        var p := pathToUse[..prefixIndex + 1];
        if IndexOf(p, FOLDER_SEPARATOR, 0) != -1 then ("", pathToUse) else (p, pathToUse[prefixIndex + 1..])
      else ("", pathToUse);
    if StartsWith(rest, FOLDER_SEPARATOR) then (prefix + FOLDER_SEPARATOR, rest[1..]) else (prefix, rest)
  }

  /** The path with every "\" rewritten to "/". */
  function Slashed(path: string): string
  {
    Replaced(Some(path), Some(WINDOWS_FOLDER_SEPARATOR), Some(FOLDER_SEPARATOR), -1).value
  }

  /** What `cleanPath(path)` returns. */
  function CleanPathSpec(path: Option<string>): Option<string>
  {
    if path.None? then None
    else
      var (prefix, rest) := SplitPrefix(Slashed(path.value));
      Some(prefix + Join(Normalized(DelimitedListDeleteAny(Some(rest), Some(FOLDER_SEPARATOR), None)), FOLDER_SEPARATOR))
  }

  /** The elements of a list, as non-null references. */
  function Somes(parts: seq<string>): (r: seq<Option<string>>)
    ensures |r| == |parts|
  {
    seq(|parts|, i requires 0 <= i < |parts| => Some(parts[i]))
  }

  /** `cleanPath(path)`. */
  method CleanPath(path: Option<string>) returns (r: Option<string>)
    ensures r == CleanPathSpec(path)
  {
    if path.None? {
      return None;
    }
    var converted := Replace(path, Some(WINDOWS_FOLDER_SEPARATOR), Some(FOLDER_SEPARATOR), -1);
    var prefix, pathToUse := TakePrefix(converted.value);
    var pathArray := DelimitedListToStringArray(Some(pathToUse), Some(FOLDER_SEPARATOR), None);
    DeletionsAgreeWithoutChars(Some(pathToUse), Some(FOLDER_SEPARATOR));
    var pathElements := WalkBack(pathArray);
    var joined := CollectionToDelimitedStringWith(Some(Somes(pathElements)), Some(FOLDER_SEPARATOR));
    PlainDecoration(pathElements);
    return Some(prefix + joined.value);
  }

  /** The prefix handling of `cleanPath`: the part up to the first ':' and a leading "/". */
  method TakePrefix(path: string) returns (prefix: string, pathToUse: string)
    ensures (prefix, pathToUse) == SplitPrefix(path)
  {
    pathToUse := path;
    var prefixIndex := IndexOf(pathToUse, ":", 0);
    prefix := "";
    if prefixIndex != -1 {
      prefix := pathToUse[..prefixIndex + 1];
      if IndexOf(prefix, FOLDER_SEPARATOR, 0) != -1 {
        prefix := "";
      } else {
        pathToUse := pathToUse[prefixIndex + 1..];
      }
    }
    if StartsWith(pathToUse, FOLDER_SEPARATOR) {
      prefix := prefix + FOLDER_SEPARATOR;
      pathToUse := pathToUse[1..];
    }
  }

  /** The two loops of `cleanPath`: walk the segments from the last to the first, then put
      the unmatched ".." in front. */
  method WalkBack(pathArray: seq<string>) returns (pathElements: seq<string>)
    ensures pathElements == Normalized(pathArray)
  {
    pathElements := [];
    var tops: nat := 0;
    var i := |pathArray| - 1;
    while i >= 0
      invariant -1 <= i < |pathArray|
      invariant Walked(pathElements, tops) == Walk(pathArray[i + 1..], Walked([], 0))
      decreases i
    {
      pathElements, tops := WalkOnce(pathArray, i, pathElements, tops);
      i := i - 1;
    }
    assert pathArray[0..] == pathArray;
    ghost var kept := pathElements;
    for k := 0 to tops
      invariant pathElements == Tops(k) + kept
    {
      pathElements := [TOP_PATH] + pathElements;
    }
  }

  /** One turn of the right-to-left walk: the segment at `i` is dropped, counted as a top,
      merged with a pending top, or prepended. */
  method WalkOnce(pathArray: seq<string>, i: nat, pathElements: seq<string>, tops: nat)
    returns (pathElements': seq<string>, tops': nat)
    requires i < |pathArray|
    requires Walked(pathElements, tops) == Walk(pathArray[i + 1..], Walked([], 0))
    ensures Walked(pathElements', tops') == Walk(pathArray[i..], Walked([], 0))
  {
    assert pathArray[i..][1..] == pathArray[i + 1..];
    pathElements', tops' := pathElements, tops;
    var element := pathArray[i];
    if element == CURRENT_PATH {
    } else if element == TOP_PATH {
      tops' := tops + 1;
    } else {
      if tops > 0 {
        tops' := tops - 1;
      } else {
        pathElements' := [element] + pathElements;
      }
    }
  }

  /** `pathEquals(path1, path2)`: a null first path throws when `equals` is called on
      the null result of `cleanPath`. */
  function PathEquals(path1: Option<string>, path2: Option<string>): (r: Result<bool>)
    ensures path1.None? <==> r.Err?
    ensures path1.Some? && path2.None? ==> r == Ok(false)
  {
    if path1.None? then Err(NullPointerException) else Ok(CleanPathSpec(path1) == CleanPathSpec(path2))
  }

  /** On non-null paths `pathEquals` is an equivalence: reflexive, symmetric, transitive. */
  lemma PathEqualsEquivalence(a: string, b: string, c: string)
    ensures PathEquals(Some(a), Some(a)) == Ok(true)
    ensures PathEquals(Some(a), Some(b)) == PathEquals(Some(b), Some(a))
    ensures PathEquals(Some(a), Some(b)) == Ok(true) && PathEquals(Some(b), Some(c)) == Ok(true) ==>
              PathEquals(Some(a), Some(c)) == Ok(true)
  {
  }

  /** Walking `pre + post` is walking `post`, then `pre` from the state it leaves. */
  lemma {:induction false} WalkAppend(pre: seq<string>, post: seq<string>, st: Walked)
    ensures Walk(pre + post, st) == Walk(pre, Walk(post, st))
  {
    if pre == [] {
      assert pre + post == post;
    } else {
      assert (pre + post)[0] == pre[0];
      assert (pre + post)[1..] == pre[1..] + post;
      WalkAppend(pre[1..], post, st);
    }
  }

  /** A ".." cancels the real segment just before it, and a "." vanishes. */
  lemma WalkCancels(pre: seq<string>, e: string, post: seq<string>, st: Walked)
    requires e != CURRENT_PATH && e != TOP_PATH
    ensures Walk(pre + [e, TOP_PATH] + post, st) == Walk(pre + post, st)
    ensures Walk(pre + [CURRENT_PATH] + post, st) == Walk(pre + post, st)
  {
    WalkAppend(pre, [e, TOP_PATH] + post, st);
    WalkAppend([e, TOP_PATH], post, st);
    WalkAppend(pre, post, st);
    assert [e, TOP_PATH][1..] == [TOP_PATH];
    assert pre + [e, TOP_PATH] + post == pre + ([e, TOP_PATH] + post);
    WalkAppend(pre, [CURRENT_PATH] + post, st);
    WalkAppend([CURRENT_PATH], post, st);
    assert pre + [CURRENT_PATH] + post == pre + ([CURRENT_PATH] + post);
  }

  /** The walk keeps no "." and no "..": of the segments `cleanPath` retains, ".."
      appear only at the front and "." nowhere. */
  lemma {:induction false} WalkKeepsReal(parts: seq<string>)
    ensures forall e :: e in Walk(parts, Walked([], 0)).elements ==> e != CURRENT_PATH && e != TOP_PATH
  {
    if parts != [] {
      WalkKeepsReal(parts[1..]);
    }
  }

  /** No segment is "." or "..". */
  predicate AllReal(parts: seq<string>)
  {
    forall k :: 0 <= k < |parts| ==> parts[k] != CURRENT_PATH && parts[k] != TOP_PATH
  }

  /** Real segments with no ".." to their right are all retained, in their order. */
  lemma {:induction false} RealsKept(reals: seq<string>, st: Walked)
    requires AllReal(reals) && st.tops == 0
    ensures Walk(reals, st) == Walked(reals + st.elements, 0)
  {
    if reals != [] {
      assert AllReal(reals[1..]) by {
        forall k | 0 <= k < |reals[1..]| ensures reals[1..][k] != CURRENT_PATH && reals[1..][k] != TOP_PATH {
          assert reals[1..][k] == reals[k + 1];
        }
      }
      RealsKept(reals[1..], st);
      assert [reals[0]] + (reals[1..] + st.elements) == reals + st.elements;
    }
  }

  /** Each ".." of a run only raises the count of unmatched tops. */
  lemma {:induction false} TopsCount(n: nat, st: Walked)
    ensures Walk(Tops(n), st) == Walked(st.elements, st.tops + n)
  {
    if n > 0 {
      assert Tops(n)[1..] == Tops(n - 1);
      TopsCount(n - 1, st);
    }
  }

  /** A run of ".." followed by real segments is the normal form: walking it changes nothing.
      With `WalkCancels` this pins `Normalized` down completely. */
  lemma NormalFormFixed(n: nat, reals: seq<string>)
    requires AllReal(reals)
    ensures Normalized(Tops(n) + reals) == Tops(n) + reals
  {
    WalkAppend(Tops(n), reals, Walked([], 0));
    RealsKept(reals, Walked([], 0));
    assert reals + [] == reals;
    TopsCount(n, Walked(reals, 0));
  }

  /** Normalizing the segment list twice is normalizing it once. */
  lemma NormalizedIdempotent(parts: seq<string>)
    ensures Normalized(Normalized(parts)) == Normalized(parts)
  {
    var w := Walk(parts, Walked([], 0));
    WalkKeepsReal(parts);
    assert AllReal(w.elements) by {
      forall k | 0 <= k < |w.elements| ensures w.elements[k] != CURRENT_PATH && w.elements[k] != TOP_PATH {
        assert w.elements[k] in w.elements;
      }
    }
    NormalFormFixed(w.tops, w.elements);
  }

  /** In the normalized segments, every ".." comes before every other segment and no
      "." is left. */
  lemma NormalizedShape(parts: seq<string>)
    ensures var n := Normalized(parts);
            CURRENT_PATH !in n &&
            forall i, j :: 0 <= i < j < |n| && n[j] == TOP_PATH ==> n[i] == TOP_PATH
  {
    var w := Walk(parts, Walked([], 0));
    WalkKeepsReal(parts);
    TopsAll(w.tops);
    var n := Normalized(parts);
    assert n == Tops(w.tops) + w.elements;
    forall k | w.tops <= k < |n| ensures n[k] != TOP_PATH && n[k] != CURRENT_PATH {
      assert n[k] == w.elements[k - w.tops];
      assert n[k] in w.elements;
    }
    forall i, j | 0 <= i < j < |n| && n[j] == TOP_PATH ensures n[i] == TOP_PATH {
      assert j < w.tops;
      assert n[i] == Tops(w.tops)[i];
    }
  }

  lemma {:induction false} TopsAll(n: nat)
    ensures forall i :: 0 <= i < n ==> Tops(n)[i] == TOP_PATH
  {
    if n > 0 {
      TopsAll(n - 1);
    }
  }

  /** Before splitting, no "\" is left in the path. */
  lemma SlashedHasNoBackslash(path: string)
    ensures '\\' !in Slashed(path)
  {
    if |path| > 0 {
      ReplaceCharAll(path, '\\', FOLDER_SEPARATOR, 0, -1);
    }
  }

  /** A prefix up to the first ':' without "/" is kept verbatim at the front of the result. */
  lemma PrefixKept(path: string)
    requires var p := Slashed(path); var k := IndexOf(p, ":", 0);
             k != -1 && IndexOf(p[..k + 1], FOLDER_SEPARATOR, 0) == -1
    ensures var p := Slashed(path); var k := IndexOf(p, ":", 0);
            StartsWith(CleanPathSpec(Some(path)).value, p[..k + 1])
  {
  }

  /** A path that starts with "/" after the prefix keeps that "/" after the prefix. */
  lemma LeadingSlashKept(path: string)
    requires var p := Slashed(path); IndexOf(p, ":", 0) == -1 && StartsWith(p, FOLDER_SEPARATOR)
    ensures StartsWith(CleanPathSpec(Some(path)).value, FOLDER_SEPARATOR)
  {
  }

  /** "." segments vanish and "b/.." cancels: "a/./b/../c" becomes "a/c". */
  lemma CleanPathExample()
    ensures CleanPathSpec(Some("a/./b/../c")) == Some("a/c")
  {
    ExampleJoin();
    ExamplePrefix();
    ExampleSegments();
    var parts := ["a", ".", "b", "..", "c"];
    DelimitedKeepsTokens("a/./b/../c", "/");
    ExampleWalk();
    assert "" + "a/c" == "a/c";
    CleanPathOfParts("a/./b/../c", "", "a/./b/../c", parts, ["a", "c"], "a/c");
  }

  /** With nothing to delete, the tokens are the cuts of the text, unchanged. */
  lemma DelimitedKeepsTokens(s: string, d: string)
    requires |d| > 0
    ensures DelimitedListDeleteAny(Some(s), Some(d), None) == (if |s| == 0 then [] else WholeTokens(s, d, 0, 0, true))
  {
  }

  /** `cleanPath` assembled from its stages. */
  lemma CleanPathOfParts(path: string, prefix: string, rest: string, parts: seq<string>, kept: seq<string>,
                         result: string)
    requires SplitPrefix(Slashed(path)) == (prefix, rest)
    requires DelimitedListDeleteAny(Some(rest), Some(FOLDER_SEPARATOR), None) == parts
    requires Normalized(parts) == kept
    requires prefix + Join(kept, FOLDER_SEPARATOR) == result
    ensures CleanPathSpec(Some(path)) == Some(result)
  {
  }

  lemma ExampleJoin()
    ensures Join(["a", "c"], "/") == "a/c"
  {
    assert Join(["a", "c"], "/") == "a" + "/" + Join(["c"], "/");
  }

  lemma ExamplePrefix()
    ensures Slashed("a/./b/../c") == "a/./b/../c"
    ensures SplitPrefix("a/./b/../c") == ("", "a/./b/../c")
  {
    var p := "a/./b/../c";
    assert IndexOf(p, "\\", 0) == -1;
    assert IndexOf(p, ":", 0) == -1;
    assert p[0..] == p;
  }

  lemma ExampleSegments()
    ensures WholeTokens("a/./b/../c", "/", 0, 0, true) == ["a", ".", "b", "..", "c"]
  {
    var p := "a/./b/../c";
    assert IndexOf(p, "/", 0) == 1;
    assert IndexOf(p, "/", 2) == 3;
    assert IndexOf(p, "/", 4) == 5;
    assert IndexOf(p, "/", 6) == 8;
    assert IndexOf(p, "/", 9) == -1;
    assert p[0..1] == "a" && p[2..3] == "." && p[4..5] == "b" && p[6..8] == "..";
    assert WholeTokens(p, "/", 9, 0, true) == [p[9..]] == ["c"];
    assert WholeTokens(p, "/", 6, 0, true) == [p[6..8]] + ["c"] == ["..", "c"];
    assert WholeTokens(p, "/", 4, 0, true) == [p[4..5]] + ["..", "c"] == ["b", "..", "c"];
    assert WholeTokens(p, "/", 2, 0, true) == [p[2..3]] + ["b", "..", "c"] == [".", "b", "..", "c"];
    assert WholeTokens(p, "/", 0, 0, true) == [p[0..1]] + [".", "b", "..", "c"];
  }

  lemma ExampleWalk()
    ensures Normalized(["a", ".", "b", "..", "c"]) == ["a", "c"]
  {
    var parts := ["a", ".", "b", "..", "c"];
    assert parts[1..] == [".", "b", "..", "c"];
    assert parts[1..][1..] == ["b", "..", "c"];
    assert parts[1..][1..][1..] == ["..", "c"];
    assert parts[1..][1..][1..][1..] == ["c"];
    assert Walk(["c"], Walked([], 0)) == Walked(["c"], 0);
    assert Walk(["..", "c"], Walked([], 0)) == Walked(["c"], 1);
    assert Walk(["b", "..", "c"], Walked([], 0)) == Walked(["c"], 0);
    assert Walk([".", "b", "..", "c"], Walked([], 0)) == Walked(["c"], 0);
    assert Walk(parts, Walked([], 0)) == Walked(["a", "c"], 0);
  }

  /** `cleanPath` is not idempotent: a ':' behind a "/" is not a prefix on the first
      pass, but becomes one once the "./" in front of it is gone. */
  lemma CleanPathNotIdempotent()
    ensures CleanPathSpec(Some("./c:./a")) == Some("c:./a")
    ensures CleanPathSpec(Some("c:./a")) == Some("c:a")
  {
    FirstPass();
    SecondPass();
  }

  lemma FirstPass()
    ensures CleanPathSpec(Some("./c:./a")) == Some("c:./a")
  {
    var p := "./c:./a";
    FirstPrefix();
    FirstSegments();
    DelimitedKeepsTokens(p, "/");
    FirstWalk();
    assert "" + "c:./a" == "c:./a";
    CleanPathOfParts(p, "", p, [".", "c:.", "a"], ["c:.", "a"], "c:./a");
  }

  lemma FirstWalk()
    ensures Normalized([".", "c:.", "a"]) == ["c:.", "a"]
    ensures Join(["c:.", "a"], "/") == "c:./a"
  {
    var parts := [".", "c:.", "a"];
    assert parts[1..] == ["c:.", "a"] && parts[1..][1..] == ["a"];
    assert Walk(["a"], Walked([], 0)) == Walked(["a"], 0);
    assert Walk(["c:.", "a"], Walked([], 0)) == Walked(["c:.", "a"], 0);
    assert Join(["c:.", "a"], "/") == "c:." + "/" + Join(["a"], "/") == "c:./a";
  }

  lemma FirstPrefix()
    ensures Slashed("./c:./a") == "./c:./a"
    ensures SplitPrefix("./c:./a") == ("", "./c:./a")
  {
    var p := "./c:./a";
    assert IndexOf(p, "\\", 0) == -1;
    assert p[0..] == p;
    assert IndexOf(p, ":", 0) == 3;
    assert p[..4] == "./c:";
    assert IndexOf("./c:", "/", 0) == 1;
  }

  lemma FirstSegments()
    ensures WholeTokens("./c:./a", "/", 0, 0, true) == [".", "c:.", "a"]
  {
    var p := "./c:./a";
    assert IndexOf(p, "/", 0) == 1;
    assert IndexOf(p, "/", 2) == 5;
    assert IndexOf(p, "/", 6) == -1;
    assert p[0..1] == "." && p[2..5] == "c:." && p[6..] == "a";
    assert WholeTokens(p, "/", 6, 0, true) == ["a"];
    assert WholeTokens(p, "/", 2, 0, true) == [p[2..5]] + ["a"] == ["c:.", "a"];
    assert WholeTokens(p, "/", 0, 0, true) == [p[0..1]] + ["c:.", "a"];
  }

  lemma SecondPass()
    ensures CleanPathSpec(Some("c:./a")) == Some("c:a")
  {
    SecondPrefix();
    SecondSegments();
    DelimitedKeepsTokens("./a", "/");
    var parts := [".", "a"];
    assert parts[1..] == ["a"];
    assert Walk(["a"], Walked([], 0)) == Walked(["a"], 0);
    assert Normalized(parts) == ["a"];
    assert "c:" + Join(["a"], "/") == "c:a";
    CleanPathOfParts("c:./a", "c:", "./a", parts, ["a"], "c:a");
  }

  lemma SecondPrefix()
    ensures Slashed("c:./a") == "c:./a"
    ensures SplitPrefix("c:./a") == ("c:", "./a")
  {
    var p := "c:./a";
    assert IndexOf(p, "\\", 0) == -1;
    assert p[0..] == p;
    assert IndexOf(p, ":", 0) == 1;
    assert p[..2] == "c:" && p[2..] == "./a";
    assert IndexOf("c:", "/", 0) == -1;
  }

  lemma SecondSegments()
    ensures WholeTokens("./a", "/", 0, 0, true) == [".", "a"]
  {
    var rest := "./a";
    assert IndexOf(rest, "/", 0) == 1;
    assert IndexOf(rest, "/", 2) == -1;
    assert rest[0..1] == "." && rest[2..] == "a";
    assert WholeTokens(rest, "/", 2, 0, true) == ["a"];
    assert WholeTokens(rest, "/", 0, 0, true) == [rest[0..1]] + ["a"];
  }
}
