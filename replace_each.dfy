/** `replaceEach(text, searchList, replacementList, repeat, timeToLive)`: several
    search strings replaced in one left-to-right pass, each step taking the
    earliest match among the pairs still in use; with `repeat`, passes run again
    on their own output until one finds nothing, guarded by a time-to-live. */
module ReplaceEach {
  import opened JavaLang
  import opened Replacer

  /** A found match: where it starts in the text and which pair it belongs to;
      `textIndex == -1` when there is none. */
  datatype Hit = Hit(textIndex: int, replaceIndex: int)

  /** Pair i takes part: its search string is non-null and non-empty and its
      replacement is non-null. */
  predicate Enabled(S: seq<Option<string>>, R: seq<Option<string>>, i: nat)
    requires i < |S| && |S| == |R|
  {
    S[i].Some? && |S[i].value| > 0 && R[i].Some?
  }

  /** Where the search string of an enabled pair i next occurs at or after `start`. */
  function Position(text: string, S: seq<Option<string>>, R: seq<Option<string>>, start: nat, i: nat): (r: int)
    requires i < |S| && |S| == |R| && Enabled(S, R, i) && start <= |text|
    ensures r == -1 || (start <= r && r + |S[i].value| <= |text|)
  {
    IndexOf(text, S[i].value, start)
  }

  /** A hit is a real match of an enabled pair at or after `start`, or no hit. */
  predicate WellFormed(text: string, S: seq<Option<string>>, R: seq<Option<string>>, start: nat, h: Hit)
    requires |S| == |R| && start <= |text|
  {
    h.textIndex == -1 ||
    (0 <= h.replaceIndex < |S| && Enabled(S, R, h.replaceIndex) &&
     h.textIndex == Position(text, S, R, start, h.replaceIndex))
  }

  /** The scan over the pairs from i on that picks the earliest match, keeping the
      current best on a tie. */
  function EarliestFrom(text: string, S: seq<Option<string>>, R: seq<Option<string>>, start: nat,
                        i: nat, best: Hit): (h: Hit)
    requires |S| == |R| && start <= |text| && i <= |S| && WellFormed(text, S, R, start, best)
    ensures WellFormed(text, S, R, start, h)
    decreases |S| - i
  {
    if i == |S| then best
    else if !Enabled(S, R, i) then EarliestFrom(text, S, R, start, i + 1, best)
    else
      var tempIndex := Position(text, S, R, start, i);
      if tempIndex != -1 && (best.textIndex == -1 || tempIndex < best.textIndex)
      then EarliestFrom(text, S, R, start, i + 1, Hit(tempIndex, i))
      else EarliestFrom(text, S, R, start, i + 1, best)
  }

  /** The match a step of `replaceEach` replaces. */
  function Earliest(text: string, S: seq<Option<string>>, R: seq<Option<string>>, start: nat): (h: Hit)
    requires |S| == |R| && start <= |text|
    ensures WellFormed(text, S, R, start, h)
  {
    EarliestFrom(text, S, R, start, 0, Hit(-1, -1))
  }

  /** The rest of one pass from `start`: the text up to the earliest match, its
      replacement, and the pass after the match. */
  function PassFrom(text: string, S: seq<Option<string>>, R: seq<Option<string>>, start: nat): string
    requires |S| == |R| && start <= |text|
    decreases |text| - start
  {
    var h := Earliest(text, S, R, start);
    if h.textIndex == -1 then text[start..]
    else
      text[start..h.textIndex] + R[h.replaceIndex].value +
      PassFrom(text, S, R, h.textIndex + |S[h.replaceIndex].value|)
  }

  const CycleMessage: string := "Aborting to protect against StackOverflowError - output of one loop is the input of another"

  function LengthMessage(searchLength: nat, replacementLength: nat): string
  {
    "Search and Replace array lengths don't match: " + NatToString(searchLength) + " vs " + NatToString(replacementLength)
  }

  /** What `replaceEach(text, searchList, replacementList, repeat, timeToLive)` returns or throws. */
  function ReplaceEachSpec(text: Option<string>, searchList: Option<seq<Option<string>>>,
                           replacementList: Option<seq<Option<string>>>, repeat: bool, timeToLive: int)
    : Result<Option<string>>
    decreases if timeToLive < 0 then 0 else timeToLive + 1
  {
    if IsEmpty(text) || searchList.None? || |searchList.value| == 0 ||
       replacementList.None? || |replacementList.value| == 0 then Ok(text)
    else if timeToLive < 0 then Err(IllegalStateException(Some(CycleMessage)))
    else if |searchList.value| != |replacementList.value| then
      Err(IllegalArgumentException(Some(LengthMessage(|searchList.value|, |replacementList.value|))))
    else
      var t, S, R := text.value, searchList.value, replacementList.value;
      if Earliest(t, S, R, 0).textIndex == -1 then Ok(text)
      else
        var result := PassFrom(t, S, R, 0);
        if !repeat then Ok(Some(result))
        else ReplaceEachSpec(Some(result), searchList, replacementList, repeat, timeToLive - 1)
  }

  /** `replaceEach(text, searchList, replacementList)`: one pass. */
  function ReplaceEachOnce(text: Option<string>, searchList: Option<seq<Option<string>>>,
                           replacementList: Option<seq<Option<string>>>): Result<Option<string>>
  {
    ReplaceEachSpec(text, searchList, replacementList, false, 0)
  }

  /** `replaceEachRepeatedly(text, searchList, replacementList)`: passes until nothing
      matches, at most as many repeats as there are search strings. */
  function ReplaceEachRepeatedly(text: Option<string>, searchList: Option<seq<Option<string>>>,
                                 replacementList: Option<seq<Option<string>>>): Result<Option<string>>
  {
    var timeToLive := if searchList.None? then 0 else |searchList.value|;
    ReplaceEachSpec(text, searchList, replacementList, true, timeToLive)
  }

  /** The guards of `replaceEach`, in their order: null or empty input is returned as it
      is, then a negative time-to-live throws before any search, then unequal list
      lengths throw; past the guards a pass with no match returns the text. */
  lemma ReplaceEachGuards(text: Option<string>, searchList: Option<seq<Option<string>>>,
                          replacementList: Option<seq<Option<string>>>, repeat: bool, timeToLive: int)
    ensures var r := ReplaceEachSpec(text, searchList, replacementList, repeat, timeToLive);
            var trivial := IsEmpty(text) || searchList.None? || |searchList.value| == 0 ||
                           replacementList.None? || |replacementList.value| == 0;
            (trivial ==> r == Ok(text)) &&
            (!trivial && timeToLive < 0 ==> r == Err(IllegalStateException(Some(CycleMessage)))) &&
            (!trivial && timeToLive >= 0 && |searchList.value| != |replacementList.value| ==>
               r.Err? && r.error.IllegalArgumentException?) &&
            ((!trivial && timeToLive >= 0 && |searchList.value| == |replacementList.value| &&
              Earliest(text.value, searchList.value, replacementList.value, 0).textIndex == -1) ==>
               r == Ok(text))
  {
  }

  /** `noMoreMatchesForReplIndex`: a pair is only marked when it is enabled and has no
      match at or after `start`. */
  predicate NoMoreSound(text: string, S: seq<Option<string>>, R: seq<Option<string>>, start: nat, flags: seq<bool>)
    requires |S| == |R| && start <= |text| && |flags| == |S|
  {
    forall i :: 0 <= i < |flags| && flags[i] ==> Enabled(S, R, i) && Position(text, S, R, start, i) == -1
  }

  /** `replaceEach(text, searchList, replacementList, repeat, timeToLive)`. */
  method ReplaceEachMethod(text: Option<string>, searchList: Option<seq<Option<string>>>,
                           replacementList: Option<seq<Option<string>>>, repeat: bool, timeToLive: int)
    returns (r: Result<Option<string>>)
    ensures r == ReplaceEachSpec(text, searchList, replacementList, repeat, timeToLive)
    decreases if timeToLive < 0 then 0 else timeToLive + 1
  {
    if text.None? || |text.value| == 0 || searchList.None? || |searchList.value| == 0 ||
       replacementList.None? || |replacementList.value| == 0 {
      return Ok(text);
    }
    if timeToLive < 0 {
      return Err(IllegalStateException(Some(CycleMessage)));
    }
    var t, S, R := text.value, searchList.value, replacementList.value;
    var searchLength := |S|;
    var replacementLength := |R|;
    if searchLength != replacementLength {
      return Err(IllegalArgumentException(Some(LengthMessage(searchLength, replacementLength))));
    }
    var noMoreMatchesForReplIndex := new bool[searchLength](_ => false);
    var hit := FindEarliest(t, S, R, 0, noMoreMatchesForReplIndex);
    if hit.textIndex == -1 {
      return Ok(text);
    }
    var result := Pass(t, S, R, noMoreMatchesForReplIndex, hit);
    if !repeat {
      return Ok(Some(result));
    }
    r := ReplaceEachMethod(Some(result), searchList, replacementList, repeat, timeToLive - 1);
  }

  /** The replacing loop of one pass, from the first hit on. */
  method Pass(t: string, S: seq<Option<string>>, R: seq<Option<string>>, noMoreMatchesForReplIndex: array<bool>,
              first: Hit) returns (result: string)
    requires |S| == |R| == noMoreMatchesForReplIndex.Length
    requires first == Earliest(t, S, R, 0) && NoMoreSound(t, S, R, 0, noMoreMatchesForReplIndex[..])
    modifies noMoreMatchesForReplIndex
    ensures result == PassFrom(t, S, R, 0)
  {
    ghost var whole := PassFrom(t, S, R, 0);
    var start := 0;
    var hit := first;
    var buf := "";
    while hit.textIndex != -1
      invariant PassState(t, S, R, start, hit, buf, whole, noMoreMatchesForReplIndex[..])
      decreases |t| - start
    {
      start, hit, buf := PassOnce(t, S, R, noMoreMatchesForReplIndex, start, hit, buf, whole);
    }
    buf := AppendRange(buf, t, start, |t|);
    assert t[start..|t|] == t[start..];
    result := buf;
  }

  /** The state of the replacing loop: `buf` holds the pass up to `start`, `hit` is the
      next match and the marked pairs have none left. */
  ghost predicate PassState(t: string, S: seq<Option<string>>, R: seq<Option<string>>, start: int, hit: Hit,
                            buf: string, whole: string, flags: seq<bool>)
  {
    |S| == |R| == |flags| && 0 <= start <= |t| && hit == Earliest(t, S, R, start) &&
    NoMoreSound(t, S, R, start, flags) && buf + PassFrom(t, S, R, start) == whole
  }

  /** One turn of the replacing loop: the text before the match and its replacement are
      appended, and the next match is looked for after it. */
  method PassOnce(t: string, S: seq<Option<string>>, R: seq<Option<string>>, noMore: array<bool>,
                  start: nat, hit: Hit, buf: string, ghost whole: string)
    returns (start': nat, hit': Hit, buf': string)
    requires PassState(t, S, R, start, hit, buf, whole, noMore[..]) && hit.textIndex != -1
    modifies noMore
    ensures PassState(t, S, R, start', hit', buf', whole, noMore[..]) && start < start'
  {
    PassStep(t, S, R, start, buf, whole);
    start' := hit.textIndex + |S[hit.replaceIndex].value|;
    buf' := AppendRange(buf, t, start, hit.textIndex);
    buf' := buf' + R[hit.replaceIndex].value;
    NoMoreLater(t, S, R, start, start', noMore[..]);
    hit' := FindEarliest(t, S, R, start', noMore);
  }

  /** One step of the pass: the text up to the match, then the replacement. */
  lemma PassStep(t: string, S: seq<Option<string>>, R: seq<Option<string>>, start: nat, buf: string, whole: string)
    requires |S| == |R| && start <= |t| && Earliest(t, S, R, start).textIndex != -1
    requires buf + PassFrom(t, S, R, start) == whole
    ensures var h := Earliest(t, S, R, start);
            (buf + t[start..h.textIndex] + R[h.replaceIndex].value) +
            PassFrom(t, S, R, h.textIndex + |S[h.replaceIndex].value|) == whole
  {
  }

  /** The chars `text[from..to]` appended one by one. */
  method AppendRange(buf: string, text: string, from: nat, to: nat) returns (r: string)
    requires from <= to <= |text|
    ensures r == buf + text[from..to]
  {
    r := buf;
    for i := from to to
      invariant r == buf + text[from..i]
    {
      r := r + [text[i]];
      assert text[from..i + 1] == text[from..i] + [text[i]];
    }
  }

  /** Searching no further than `text.indexOf(search, start)` for each pair still in use,
      marking those with no match left. */
  method FindEarliest(text: string, S: seq<Option<string>>, R: seq<Option<string>>, start: nat,
                      noMore: array<bool>) returns (h: Hit)
    requires |S| == |R| == noMore.Length && start <= |text|
    requires NoMoreSound(text, S, R, start, noMore[..])
    modifies noMore
    ensures h == Earliest(text, S, R, start)
    ensures NoMoreSound(text, S, R, start, noMore[..])
  {
    var textIndex := -1;
    var replaceIndex := -1;
    for i := 0 to |S|
      invariant WellFormed(text, S, R, start, Hit(textIndex, replaceIndex))
      invariant EarliestFrom(text, S, R, start, i, Hit(textIndex, replaceIndex)) == Earliest(text, S, R, start)
      invariant NoMoreSound(text, S, R, start, noMore[..])
    {
      if noMore[i] || S[i].None? || |S[i].value| == 0 || R[i].None? {
        continue;
      }
      var tempIndex := IndexOf(text, S[i].value, start);
      if tempIndex == -1 {
        noMore[i] := true;
      } else {
        if textIndex == -1 || tempIndex < textIndex {
          textIndex := tempIndex;
          replaceIndex := i;
        }
      }
    }
    h := Hit(textIndex, replaceIndex);
  }

  /** A pair with no match at or after `start` has none after a later start either. */
  lemma NoMoreLater(text: string, S: seq<Option<string>>, R: seq<Option<string>>, start: nat, next: nat,
                    flags: seq<bool>)
    requires |S| == |R| && start <= next <= |text| && |flags| == |S|
    requires NoMoreSound(text, S, R, start, flags)
    ensures NoMoreSound(text, S, R, next, flags)
  {
    forall i | 0 <= i < |flags| && flags[i] ensures Position(text, S, R, next, i) == -1 {
      IndexOfNone(text, S[i].value, start, next);
    }
  }

  /** The hit of the scan from i with `best`, when `best` already beats the pairs before i:
      the earliest match of all, at the lowest pair index on a tie. */
  lemma {:induction false} EarliestFromIsMin(text: string, S: seq<Option<string>>, R: seq<Option<string>>,
                                             start: nat, i: nat, best: Hit)
    requires |S| == |R| && start <= |text| && i <= |S| && WellFormed(text, S, R, start, best)
    requires Beats(text, S, R, start, i, best)
    ensures Beats(text, S, R, start, |S|, EarliestFrom(text, S, R, start, i, best))
    decreases |S| - i
  {
    if i < |S| {
      var next := ScanOne(text, S, R, start, i, best);
      BeatsStep(text, S, R, start, i, best);
      assert EarliestFrom(text, S, R, start, i, best) == EarliestFrom(text, S, R, start, i + 1, next);
      EarliestFromIsMin(text, S, R, start, i + 1, next);
    }
  }

  /** `best` is no later than any match of the enabled pairs below n, and no higher a
      pair than any that matches at the same index; it is no hit when none of them matches. */
  ghost predicate Beats(text: string, S: seq<Option<string>>, R: seq<Option<string>>, start: nat, n: nat, best: Hit)
    requires |S| == |R| && start <= |text| && n <= |S|
  {
    (best.textIndex == -1 ==> forall j :: 0 <= j < n && Enabled(S, R, j) ==> Position(text, S, R, start, j) == -1) &&
    (best.textIndex != -1 ==>
       best.replaceIndex < n &&
       (forall j :: 0 <= j < n && Enabled(S, R, j) ==>
          Position(text, S, R, start, j) == -1 || Position(text, S, R, start, j) > best.textIndex ||
          (Position(text, S, R, start, j) == best.textIndex && j >= best.replaceIndex)))
  }

  /** The best hit after pair i has been looked at. */
  function ScanOne(text: string, S: seq<Option<string>>, R: seq<Option<string>>, start: nat, i: nat, best: Hit): Hit
    requires |S| == |R| && start <= |text| && i < |S|
  {
    if !Enabled(S, R, i) then best
    else
      var tempIndex := Position(text, S, R, start, i);
      if tempIndex != -1 && (best.textIndex == -1 || tempIndex < best.textIndex) then Hit(tempIndex, i) else best
  }

  /** Looking at one more pair keeps `Beats`. */
  lemma BeatsStep(text: string, S: seq<Option<string>>, R: seq<Option<string>>, start: nat, i: nat, best: Hit)
    requires |S| == |R| && start <= |text| && i < |S| && WellFormed(text, S, R, start, best)
    requires Beats(text, S, R, start, i, best)
    ensures WellFormed(text, S, R, start, ScanOne(text, S, R, start, i, best))
    ensures Beats(text, S, R, start, i + 1, ScanOne(text, S, R, start, i, best))
  {
  }

  /** The step's match is the earliest match of any enabled pair, and among the pairs
      matching there it is the one with the lowest index; there is none exactly when
      no enabled pair matches. */
  lemma EarliestIsMin(text: string, S: seq<Option<string>>, R: seq<Option<string>>, start: nat)
    requires |S| == |R| && start <= |text|
    ensures var h := Earliest(text, S, R, start);
            (h.textIndex == -1 <==> forall j :: 0 <= j < |S| && Enabled(S, R, j) ==> Position(text, S, R, start, j) == -1) &&
            (h.textIndex != -1 ==>
               0 <= h.replaceIndex < |S| && Enabled(S, R, h.replaceIndex) &&
               h.textIndex == Position(text, S, R, start, h.replaceIndex) &&
               (forall j :: 0 <= j < |S| && Enabled(S, R, j) ==>
                 Position(text, S, R, start, j) == -1 || Position(text, S, R, start, j) >= h.textIndex) &&
               (forall j :: 0 <= j < h.replaceIndex && Enabled(S, R, j) ==> Position(text, S, R, start, j) != h.textIndex))
  {
    EarliestFromIsMin(text, S, R, start, 0, Hit(-1, -1));
  }

  /** With one pair, a pass of `replaceEach` is `replace` without a limit, for any
      negative limit. */
  lemma {:induction false} PassSingle(t: string, s: string, r: string, start: nat, max: int)
    requires |s| > 0 && start <= |t| && max < 0
    ensures PassFrom(t, [Some(s)], [Some(r)], start) == ReplaceFrom(t, s, r, start, max)
    decreases |t| - start
  {
    var h := Earliest(t, [Some(s)], [Some(r)], start);
    assert Enabled([Some(s)], [Some(r)], 0);
    var p := Position(t, [Some(s)], [Some(r)], start, 0);
    assert p == IndexOf(t, s, start);
    assert EarliestFrom(t, [Some(s)], [Some(r)], start, 1, Hit(-1, -1)) == Hit(-1, -1);
    if p != -1 {
      assert EarliestFrom(t, [Some(s)], [Some(r)], start, 1, Hit(p, 0)) == Hit(p, 0);
    }
    assert h == (if p == -1 then Hit(-1, -1) else Hit(p, 0));
    if h.textIndex != -1 {
      PassSingle(t, s, r, h.textIndex + |s|, max - 1);
    }
  }

  /** `replaceEach` with a single pair is `replace(text, search, replacement)`. */
  lemma ReplaceEachSingle(text: string, search: string, replacement: string)
    requires |text| > 0 && |search| > 0
    ensures ReplaceEachOnce(Some(text), Some([Some(search)]), Some([Some(replacement)])) ==
            Ok(Replaced(Some(text), Some(search), Some(replacement), -1))
  {
    PassSingle(text, search, replacement, 0, -1);
    assert text[0..] == text;
  }

  /** With `repeat`, the text that comes out is a fixed point: one more pass finds nothing. */
  lemma {:induction false} RepeatedIsFixedPoint(text: Option<string>, S: seq<Option<string>>,
                                                R: seq<Option<string>>, timeToLive: int, out: string)
    requires |S| == |R|
    requires ReplaceEachSpec(text, Some(S), Some(R), true, timeToLive) == Ok(Some(out))
    ensures Earliest(out, S, R, 0).textIndex == -1
    decreases if timeToLive < 0 then 0 else timeToLive + 1
  {
    if !(IsEmpty(text) || |S| == 0 || |R| == 0) && timeToLive >= 0 &&
       Earliest(text.value, S, R, 0).textIndex != -1 {
      RepeatedIsFixedPoint(Some(PassFrom(text.value, S, R, 0)), S, R, timeToLive - 1, out);
    } else if |S| == 0 {
      assert Earliest(out, S, R, 0) == Hit(-1, -1);
    } else if out == [] {
      EarliestIsMin(out, S, R, 0);
    }
  }

  /** The documented example: "ab" becomes "w" and "d" becomes "t" in one pass. */
  lemma ReplaceEachExample()
    ensures ReplaceEachOnce(Some("abcde"), Some([Some("ab"), Some("d")]), Some([Some("w"), Some("t")])) == Ok(Some("wcte"))
  {
    var t, S, R := "abcde", [Some("ab"), Some("d")], [Some("w"), Some("t")];
    assert IndexOf(t, "ab", 0) == 0;
    assert IndexOf(t, "d", 0) == 3;
    assert IndexOf(t, "ab", 4) == -1;
    assert IndexOf(t, "ab", 2) == -1;
    assert IndexOf(t, "d", 2) == 3;
    assert IndexOf(t, "d", 4) == -1;
    assert Earliest(t, S, R, 0) == Hit(0, 0);
    assert Earliest(t, S, R, 2) == Hit(3, 1);
    assert Earliest(t, S, R, 4) == Hit(-1, -1);
    assert PassFrom(t, S, R, 0) == "" + "w" + ("c" + "t" + "e") == "wcte";
  }

  /** Swapping "ab" and "d": one pass turns "abcde" into "dcabe"... */
  lemma SwapForward()
    ensures Earliest("abcde", [Some("ab"), Some("d")], [Some("d"), Some("ab")], 0).textIndex != -1
    ensures PassFrom("abcde", [Some("ab"), Some("d")], [Some("d"), Some("ab")], 0) == "dcabe"
  {
    var S, R := [Some("ab"), Some("d")], [Some("d"), Some("ab")];
    var t := "abcde";
    ForwardHits();
    assert PassFrom(t, S, R, 4) == "e";
    assert PassFrom(t, S, R, 2) == "c" + "ab" + "e";
    assert PassFrom(t, S, R, 0) == "" + "d" + "cabe";
  }

  /** The earliest matches of the forward pass: "ab" at 0, then "d" at 3, then none. */
  lemma ForwardHits()
    ensures var S, R := [Some("ab"), Some("d")], [Some("d"), Some("ab")];
            Earliest("abcde", S, R, 0) == Hit(0, 0) && Earliest("abcde", S, R, 2) == Hit(3, 1) &&
            Earliest("abcde", S, R, 4) == Hit(-1, -1)
  {
    var S, R := [Some("ab"), Some("d")], [Some("d"), Some("ab")];
    var t := "abcde";
    assert IndexOf(t, "ab", 0) == 0;
    assert IndexOf(t, "d", 0) == 3;
    assert IndexOf(t, "ab", 4) == -1;
    assert IndexOf(t, "ab", 2) == -1;
    assert IndexOf(t, "d", 2) == 3;
    assert IndexOf(t, "d", 4) == -1;
  }

  /** ...and the next pass turns it back. */
  lemma SwapBack()
    ensures Earliest("dcabe", [Some("ab"), Some("d")], [Some("d"), Some("ab")], 0).textIndex != -1
    ensures PassFrom("dcabe", [Some("ab"), Some("d")], [Some("d"), Some("ab")], 0) == "abcde"
  {
    var S, R := [Some("ab"), Some("d")], [Some("d"), Some("ab")];
    var u := "dcabe";
    assert IndexOf(u, "ab", 0) == 2;
    assert IndexOf(u, "d", 0) == 0;
    assert IndexOf(u, "ab", 1) == 2;
    assert IndexOf(u, "d", 1) == -1;
    assert IndexOf(u, "ab", 4) == -1;
    assert IndexOf(u, "d", 4) == -1;
    assert Earliest(u, S, R, 0) == Hit(0, 1);
    assert Earliest(u, S, R, 1) == Hit(2, 0);
    assert Earliest(u, S, R, 4) == Hit(-1, -1);
    assert PassFrom(u, S, R, 0) == "" + "ab" + ("c" + "d" + "e") == "abcde";
  }

  /** The documented cycle: repeating the swap never settles, so the time-to-live runs
      out and `replaceEachRepeatedly` throws; a single pass just swaps. */
  lemma SwapCycle()
    ensures ReplaceEachRepeatedly(Some("abcde"), Some([Some("ab"), Some("d")]), Some([Some("d"), Some("ab")])) ==
            Err(IllegalStateException(Some(CycleMessage)))
    ensures ReplaceEachOnce(Some("abcde"), Some([Some("ab"), Some("d")]), Some([Some("d"), Some("ab")])) ==
            Ok(Some("dcabe"))
  {
    SwapForward();
    SwapBack();
    var S, R := Some([Some("ab"), Some("d")]), Some([Some("d"), Some("ab")]);
    assert ReplaceEachSpec(Some("dcabe"), S, R, true, -1) == Err(IllegalStateException(Some(CycleMessage)));
    assert ReplaceEachSpec(Some("abcde"), S, R, true, 0) == ReplaceEachSpec(Some("dcabe"), S, R, true, -1);
    assert ReplaceEachSpec(Some("dcabe"), S, R, true, 1) == ReplaceEachSpec(Some("abcde"), S, R, true, 0);
    assert ReplaceEachSpec(Some("abcde"), S, R, true, 2) == ReplaceEachSpec(Some("dcabe"), S, R, true, 1);
  }
}
