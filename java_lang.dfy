/** Values and primitives of the Java platform that the string library relies on:
    nullable references, thrown exceptions, and the `String` methods
    `indexOf`, `startsWith`, `endsWith` and `String.valueOf`. */
module JavaLang {

  /** A Java reference that may be null. */
  datatype Option<+T> = None | Some(value: T)

  /** What a Java call does: return a value or throw an exception. */
  datatype Result<+T> = Ok(value: T) | Err(error: Exception)

  /** The exceptions the modelled code throws. */
  datatype Exception =
    | IllegalArgumentException(message: Option<string>)
    | IllegalStateException(message: Option<string>)
    | ArrayIndexOutOfBoundsException(index: int)
    | NegativeArraySizeException(size: int)
    | NullPointerException
    | VerifyException(message: Option<string>)

  /** A Java `int`. */
  type Int32 = x: int | -0x8000_0000 <= x < 0x8000_0000

  /** Java `int` arithmetic: the mathematical result taken modulo 2^32 into the `int` range. */
  function Int32Wrap(x: int): (r: Int32)
    ensures -0x8000_0000 <= x < 0x8000_0000 ==> r == x
  {
    (x + 0x8000_0000) % 0x1_0000_0000 - 0x8000_0000
  }

  /** `String.valueOf(Object)` on a string-valued reference: null prints as "null". */
  function ValueOf(o: Option<string>): string
  {
    match o
    case None => "null"
    case Some(s) => s
  }

  /** `StringUtils.isEmpty`: null or of length zero. */
  predicate IsEmpty(cs: Option<string>)
  {
    cs.None? || |cs.value| == 0
  }

  /** `pat` occurs in `s` starting at index `i`. */
  predicate OccursAt(s: string, pat: string, i: int)
  {
    0 <= i && i + |pat| <= |s| && forall k :: 0 <= k < |pat| ==> s[i + k] == pat[k]
  }

  /** `pat[k..]` matches `s` at offset i + k, compared char by char. */
  predicate MatchesFrom(s: string, pat: string, i: nat, k: nat)
    requires i + |pat| <= |s| && k <= |pat|
    decreases |pat| - k
  {
    k == |pat| || (s[i + k] == pat[k] && MatchesFrom(s, pat, i, k + 1))
  }

  lemma {:induction false} MatchesFromOccurs(s: string, pat: string, i: nat, k: nat)
    requires i + |pat| <= |s| && k <= |pat|
    ensures MatchesFrom(s, pat, i, k) <==> forall m :: k <= m < |pat| ==> s[i + m] == pat[m]
    decreases |pat| - k
  {
    if k < |pat| {
      MatchesFromOccurs(s, pat, i, k + 1);
    }
  }

  /** `s.indexOf(pat, from)`: the first index at or after `from` where `pat` occurs, or -1. */
  function IndexOf(s: string, pat: string, from: nat): (r: int)
    requires from <= |s|
    ensures r == -1 || from <= r <= |s| - |pat|
    decreases |s| - from
  {
    if from + |pat| > |s| then -1
    else if MatchesFrom(s, pat, from, 0) then from
    else IndexOf(s, pat, from + 1)
  }

  /** `IndexOf` finds an occurrence, and no occurrence lies between `from` and it
      (none at all at or after `from` when it answers -1). */
  lemma {:induction false} IndexOfFirst(s: string, pat: string, from: nat)
    requires from <= |s|
    ensures var r := IndexOf(s, pat, from);
            (r >= 0 ==> OccursAt(s, pat, r)) &&
            (forall j :: from <= j && (r == -1 || j < r) ==> !OccursAt(s, pat, j))
    decreases |s| - from
  {
    if from + |pat| <= |s| {
      MatchesFromOccurs(s, pat, from, 0);
    }
    if from + |pat| <= |s| && !OccursAt(s, pat, from) {
      IndexOfFirst(s, pat, from + 1);
    }
  }

  /** No occurrence at or after `a` means none at or after any later `b`. */
  lemma IndexOfNone(s: string, pat: string, a: nat, b: nat)
    requires a <= b <= |s| && IndexOf(s, pat, a) == -1
    ensures IndexOf(s, pat, b) == -1
  {
    IndexOfFirst(s, pat, a);
    IndexOfFirst(s, pat, b);
  }

  /** Matching inside `s` is matching inside its suffix `s[from..]`, offsets shifted. */
  lemma {:induction false} MatchesShift(s: string, pat: string, from: nat, i: nat, k: nat)
    requires from <= i && i + |pat| <= |s| && k <= |pat|
    ensures MatchesFrom(s, pat, i, k) == MatchesFrom(s[from..], pat, i - from, k)
    decreases |pat| - k
  {
    if k < |pat| {
      MatchesShift(s, pat, from, i, k + 1);
    }
  }

  /** Searching `s` from `i` is searching the suffix `s[from..]` from `i - from`. */
  lemma {:induction false} IndexOfShift(s: string, pat: string, from: nat, i: nat)
    requires from <= i <= |s|
    ensures var r := IndexOf(s[from..], pat, i - from);
            IndexOf(s, pat, i) == if r == -1 then -1 else r + from
    decreases |s| - i
  {
    if i + |pat| <= |s| {
      MatchesShift(s, pat, from, i, 0);
      if !MatchesFrom(s, pat, i, 0) {
        IndexOfShift(s, pat, from, i + 1);
      }
    }
  }

  /** `s.indexOf(ch)`: the first index of `ch`, or -1. */
  function CharIndexOf(s: string, ch: char): (r: int)
    ensures -1 <= r < |s|
    ensures r == -1 <==> ch !in s
    ensures r >= 0 ==> s[r] == ch && ch !in s[..r]
  {
    if |s| == 0 then -1
    else if s[0] == ch then 0
    else
      var k := CharIndexOf(s[1..], ch);
      assert s == [s[0]] + s[1..];
      if k < 0 then -1
      else
        assert s[..k + 1] == [s[0]] + s[1..][..k];
        k + 1
  }

  /** `s.startsWith(p)`. */
  predicate StartsWith(s: string, p: string)
  {
    |p| <= |s| && s[..|p|] == p
  }

  /** `s.endsWith(p)`. */
  predicate EndsWith(s: string, p: string)
  {
    |p| <= |s| && s[|s| - |p|..] == p
  }

  /** Decimal digits of a natural number, as string concatenation with an `int` prints it. */
  function NatToString(n: nat): (r: string)
    ensures |r| >= 1
    ensures forall i :: 0 <= i < |r| ==> '0' <= r[i] <= '9'
    ensures n >= 10 ==> r[0] != '0'
  {
    var digit := ['0' + ((n % 10) as char)];
    if n < 10 then digit else NatToString(n / 10) + digit
  }

  /** The value of a decimal digit. */
  function DigitValue(c: char): nat
  {
    if '0' <= c <= '9' then (c as int) - ('0' as int) else 0
  }

  /** The number a string of decimal digits spells, most significant digit first. */
  function DigitsValue(s: string): nat
  {
    if |s| == 0 then 0 else DigitsValue(s[..|s| - 1]) * 10 + DigitValue(s[|s| - 1])
  }

  /** The digits `NatToString` prints spell the number back. */
  lemma {:induction false} NatToStringValue(n: nat)
    ensures DigitsValue(NatToString(n)) == n
  {
    var r := NatToString(n);
    var digit := ['0' + ((n % 10) as char)];
    assert DigitValue(digit[0]) == n % 10;
    if n >= 10 {
      NatToStringValue(n / 10);
      assert r[..|r| - 1] == NatToString(n / 10);
      assert r[|r| - 1] == digit[0];
    } else {
      assert r[..|r| - 1] == [];
    }
  }
}
