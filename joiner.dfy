/** The joiner: `StringUtils.join` over object arrays with a string or char
    separator and an index range, and `collectionToDelimitedString`. */
module Joiner {
  import opened JavaLang

  /** parts[0] + sep + parts[1] + ... + sep + parts[n-1]; "" when there are no parts. */
  function Join(parts: seq<string>, sep: string): string
  {
    if |parts| == 0 then ""
    else if |parts| == 1 then parts[0]
    else parts[0] + sep + Join(parts[1..], sep)
  }

  /** Joining one more part at the end adds one separator and that part. */
  lemma {:induction false} JoinSnoc(parts: seq<string>, x: string, sep: string)
    requires |parts| > 0
    ensures Join(parts + [x], sep) == Join(parts, sep) + sep + x
  {
    if |parts| == 1 {
      assert parts + [x] == [parts[0], x];
      assert [parts[0], x][1..] == [x];
    } else {
      assert (parts + [x])[1..] == parts[1..] + [x];
      JoinSnoc(parts[1..], x, sep);
    }
  }

  /** Joining a leading part to a non-empty rest puts one separator between them. */
  lemma JoinCons(a: string, rest: seq<string>, sep: string)
    requires |rest| > 0
    ensures Join([a] + rest, sep) == a + sep + Join(rest, sep)
  {
    assert ([a] + rest)[1..] == rest;
  }

  /** The summed length of the parts. */
  function TotalLength(parts: seq<string>): nat
  {
    if |parts| == 0 then 0 else |parts[0]| + TotalLength(parts[1..])
  }

  /** A join of n parts holds exactly n - 1 separators: its length is the
      parts' total length plus n - 1 separator lengths. */
  lemma {:induction false} JoinLength(parts: seq<string>, sep: string)
    requires |parts| > 0
    ensures |Join(parts, sep)| == TotalLength(parts) + (|parts| - 1) * |sep|
  {
    if |parts| > 1 {
      JoinLength(parts[1..], sep);
    }
  }

  /** What an array element contributes to a join: a null element contributes "". */
  function ElementText(e: Option<string>): string
  {
    match e
    case None => ""
    case Some(s) => s
  }

  /** The texts of a range of array elements. */
  function Texts(elems: seq<Option<string>>): (r: seq<string>)
    ensures |r| == |elems|
  {
    if |elems| == 0 then [] else [ElementText(elems[0])] + Texts(elems[1..])
  }

  /** The index at which `array[i]` first fails in the loop over [startIndex, endIndex). */
  function FirstBadIndex(length: nat, startIndex: int): int
  {
    if startIndex < 0 || startIndex >= length then startIndex else length
  }

  /** One more element of the range: a separator (but not before the first) and its text. */
  lemma JoinStep(a: seq<Option<string>>, s: nat, i: nat, sep: string)
    requires s <= i < |a|
    ensures Join(Texts(a[s..i + 1]), sep) ==
            (if i == s then "" else Join(Texts(a[s..i]), sep) + sep) + ElementText(a[i])
  {
    if i == s {
      assert Texts(a[s..i + 1]) == [ElementText(a[i])];
    } else {
      assert a[s..i + 1] == a[s..i] + [a[i]];
      TextsSnoc(a[s..i], a[i]);
      JoinSnoc(Texts(a[s..i]), ElementText(a[i]), sep);
    }
  }

  lemma {:induction false} TextsSnoc(xs: seq<Option<string>>, x: Option<string>)
    ensures Texts(xs + [x]) == Texts(xs) + [ElementText(x)]
  {
    if |xs| > 0 {
      assert (xs + [x])[1..] == xs[1..] + [x];
      TextsSnoc(xs[1..], x);
    }
  }

  /** `noOfItems = endIndex - startIndex`, computed in `int` arithmetic: the difference of
      two `int`s is off the range by less than 2^32, so one correction wraps it. */
  function ItemCount(startIndex: Int32, endIndex: Int32): (r: Int32)
    ensures r == Int32Wrap(endIndex - startIndex)
  {
    var d := endIndex - startIndex;
    if d < -0x8000_0000 then d + 0x1_0000_0000 else if d >= 0x8000_0000 then d - 0x1_0000_0000 else d
  }

  /** `noOfItems * 16`, the capacity a range join asks of its `StringBuilder`, in `int`
      arithmetic; `new StringBuilder` throws when it is negative. */
  function BufferCapacity(noOfItems: Int32): Int32
  {
    Int32Wrap(noOfItems * 16)
  }

  /** `join(Object[] array, String separator, int startIndex, int endIndex)`. */
  method JoinRange(elements: Option<seq<Option<string>>>, separator: Option<string>, startIndex: Int32, endIndex: Int32)
    returns (r: Result<Option<string>>)
    ensures elements.None? ==> r == Ok(None)
    ensures elements.Some? && ItemCount(startIndex, endIndex) <= 0 ==> r == Ok(Some(""))
    ensures elements.Some? && ItemCount(startIndex, endIndex) > 0 && BufferCapacity(ItemCount(startIndex, endIndex)) < 0 ==>
              r == Err(NegativeArraySizeException(BufferCapacity(ItemCount(startIndex, endIndex))))
    ensures elements.Some? && ItemCount(startIndex, endIndex) > 0 && BufferCapacity(ItemCount(startIndex, endIndex)) >= 0 &&
            endIndex <= startIndex ==>
              r == Ok(Some(""))
    ensures elements.Some? && ItemCount(startIndex, endIndex) > 0 && BufferCapacity(ItemCount(startIndex, endIndex)) >= 0 &&
            startIndex < endIndex && (startIndex < 0 || endIndex > |elements.value|) ==>
              r == Err(ArrayIndexOutOfBoundsException(FirstBadIndex(|elements.value|, startIndex)))
    ensures elements.Some? && BufferCapacity(ItemCount(startIndex, endIndex)) >= 0 &&
            0 <= startIndex < endIndex <= |elements.value| ==>
              r == Ok(Some(Join(Texts(elements.value[startIndex..endIndex]), ElementText(separator))))
  {
    if elements.None? {
      return Ok(None);
    }
    var a := elements.value;
    var sep := if separator.None? then "" else separator.value;
    var noOfItems := ItemCount(startIndex, endIndex);
    if noOfItems <= 0 {
      return Ok(Some(""));
    }
    var capacity := BufferCapacity(noOfItems);
    if capacity < 0 {
      return Err(NegativeArraySizeException(capacity));
    }
    var buf := "";
    var i: int := startIndex;
    while i < endIndex
      invariant i == startIndex || startIndex < i <= endIndex
      invariant i == startIndex ==> buf == ""
      invariant i > startIndex ==> 0 <= startIndex && i <= |a| && buf == Join(Texts(a[startIndex..i]), sep)
      decreases endIndex - i
    {
      if i > startIndex {
        buf := buf + sep;
      }
      // array[i] throws once i leaves the array
      if i < 0 || i >= |a| {
        return Err(ArrayIndexOutOfBoundsException(i));
      }
      JoinStep(a, startIndex, i, sep);
      buf := buf + ElementText(a[i]);
      i := i + 1;
    }
    return Ok(Some(buf));
  }

  /** `join(Object[] array, char separator, int startIndex, int endIndex)`: the same loop
      with a one-char separator, which is never null. */
  method JoinRangeChar(elements: Option<seq<Option<string>>>, separator: char, startIndex: Int32, endIndex: Int32)
    returns (r: Result<Option<string>>)
    ensures elements.None? ==> r == Ok(None)
    ensures elements.Some? && ItemCount(startIndex, endIndex) <= 0 ==> r == Ok(Some(""))
    ensures elements.Some? && ItemCount(startIndex, endIndex) > 0 && BufferCapacity(ItemCount(startIndex, endIndex)) < 0 ==>
              r == Err(NegativeArraySizeException(BufferCapacity(ItemCount(startIndex, endIndex))))
    ensures elements.Some? && ItemCount(startIndex, endIndex) > 0 && BufferCapacity(ItemCount(startIndex, endIndex)) >= 0 &&
            endIndex <= startIndex ==>
              r == Ok(Some(""))
    ensures elements.Some? && ItemCount(startIndex, endIndex) > 0 && BufferCapacity(ItemCount(startIndex, endIndex)) >= 0 &&
            startIndex < endIndex && (startIndex < 0 || endIndex > |elements.value|) ==>
              r == Err(ArrayIndexOutOfBoundsException(FirstBadIndex(|elements.value|, startIndex)))
    ensures elements.Some? && BufferCapacity(ItemCount(startIndex, endIndex)) >= 0 &&
            0 <= startIndex < endIndex <= |elements.value| ==>
              r == Ok(Some(Join(Texts(elements.value[startIndex..endIndex]), [separator])))
  {
    r := JoinRange(elements, Some([separator]), startIndex, endIndex);
  }

  /** The count of a range is its width unless the subtraction overflows: a range from
      `Integer.MIN_VALUE` to 1 counts as negative, so `join` returns "" for it. */
  lemma ItemCountWraps()
    ensures ItemCount(-0x8000_0000, 1) == -0x7fff_ffff
    ensures ItemCount(0x7fff_ffff, -0x8000_0000) == 1
  {
  }

  /** Ranges of fewer than 2^27 items get a non-negative buffer, whereas 2^27 items
      make `noOfItems * 16` overflow to `Integer.MIN_VALUE`. */
  lemma BufferCapacityBound(n: Int32)
    requires 0 <= n < 0x0800_0000
    ensures BufferCapacity(n) == 16 * n
    ensures BufferCapacity(0x0800_0000) == -0x8000_0000
  {
  }

  /** `join(Object[] array, String separator)`: the whole array, whose length is a Java `int`. */
  method JoinArray(elements: Option<seq<Option<string>>>, separator: Option<string>) returns (r: Result<Option<string>>)
    requires elements.Some? ==> |elements.value| < 0x8000_0000
    ensures elements.None? ==> r == Ok(None)
    ensures elements.Some? && BufferCapacity(|elements.value|) < 0 ==>
              r == Err(NegativeArraySizeException(BufferCapacity(|elements.value|)))
    ensures elements.Some? && BufferCapacity(|elements.value|) >= 0 ==>
              r == Ok(Some(Join(Texts(elements.value), ElementText(separator))))
  {
    if elements.None? {
      return Ok(None);
    }
    var a := elements.value;
    var n: Int32 := |a|;
    assert ItemCount(0, n) == n;
    r := JoinRange(elements, separator, 0, n);
    if BufferCapacity(n) >= 0 {
      if n == 0 {
        assert Texts(a) == [];
      } else {
        assert a[0..n] == a;
      }
    }
  }

  /** `join(Object[] array, char separator)`: the whole array. */
  method JoinArrayChar(elements: Option<seq<Option<string>>>, separator: char) returns (r: Result<Option<string>>)
    requires elements.Some? ==> |elements.value| < 0x8000_0000
    ensures elements.None? ==> r == Ok(None)
    ensures elements.Some? && BufferCapacity(|elements.value|) < 0 ==>
              r == Err(NegativeArraySizeException(BufferCapacity(|elements.value|)))
    ensures elements.Some? && BufferCapacity(|elements.value|) >= 0 ==>
              r == Ok(Some(Join(Texts(elements.value), [separator])))
  {
    if elements.None? {
      return Ok(None);
    }
    var a := elements.value;
    var n: Int32 := |a|;
    assert ItemCount(0, n) == n;
    r := JoinRangeChar(elements, separator, 0, n);
    if BufferCapacity(n) >= 0 {
      if n == 0 {
        assert Texts(a) == [];
      } else {
        assert a[0..n] == a;
      }
    }
  }

  /** The texts `prefix + element + suffix` that `collectionToDelimitedString` puts between delimiters. */
  function Decorated(coll: seq<Option<string>>, prefix: Option<string>, suffix: Option<string>): (r: seq<string>)
    ensures |r| == |coll|
  {
    if |coll| == 0 then [] else [ValueOf(prefix) + ValueOf(coll[0]) + ValueOf(suffix)] + Decorated(coll[1..], prefix, suffix)
  }

  /** The i-th decorated text is prefix, the i-th element and suffix, each printed as by `append`. */
  lemma {:induction false} DecoratedAt(coll: seq<Option<string>>, prefix: Option<string>, suffix: Option<string>, i: nat)
    requires i < |coll|
    ensures Decorated(coll, prefix, suffix)[i] == ValueOf(prefix) + ValueOf(coll[i]) + ValueOf(suffix)
  {
    if i > 0 {
      DecoratedAt(coll[1..], prefix, suffix, i - 1);
    }
  }

  /** Joining one more leading part: a separator (but not before the first) and that part. */
  lemma JoinPrefixStep(parts: seq<string>, i: nat, sep: string)
    requires i < |parts|
    ensures Join(parts[..i + 1], sep) == (if i == 0 then "" else Join(parts[..i], sep) + sep) + parts[i]
  {
    if i == 0 {
      assert parts[..1] == [parts[0]];
    } else {
      assert parts[..i + 1] == parts[..i] + [parts[i]];
      JoinSnoc(parts[..i], parts[i], sep);
    }
  }

  /** `collectionToDelimitedString(coll, delim, prefix, suffix)`; `StringBuilder.append`
      prints a null element, delimiter, prefix or suffix as "null", and a null collection
      throws on `coll.size()`. */
  method CollectionToDelimitedString(coll: Option<seq<Option<string>>>, delim: Option<string>,
                                     prefix: Option<string>, suffix: Option<string>)
    returns (r: Result<string>)
    ensures coll.None? ==> r == Err(NullPointerException)
    ensures coll.Some? ==> r == Ok(Join(Decorated(coll.value, prefix, suffix), ValueOf(delim)))
  {
    if coll.None? {
      return Err(NullPointerException);
    }
    var c := coll.value;
    if |c| == 0 {
      return Ok("");
    }
    ghost var parts := Decorated(c, prefix, suffix);
    var d := ValueOf(delim);
    var sb := "";
    var i := 0;
    while i < |c|
      invariant 0 <= i <= |c|
      invariant i == 0 ==> sb == ""
      invariant i > 0 ==> sb == Join(parts[..i], d) + (if i < |c| then d else "")
    {
      var item := ValueOf(prefix) + ValueOf(c[i]) + ValueOf(suffix);
      DecoratedAt(c, prefix, suffix, i);
      JoinPrefixStep(parts, i, d);
      sb := sb + item;
      i := i + 1;
      if i < |c| {
        sb := sb + d;
      }
    }
    assert parts[..i] == parts;
    assert sb == Join(parts, d) + "" == Join(parts, d);
    return Ok(sb);
  }

  /** `collectionToDelimitedString(coll, delim)`: empty prefix and suffix. */
  method CollectionToDelimitedStringWith(coll: Option<seq<Option<string>>>, delim: Option<string>)
    returns (r: Result<string>)
    ensures coll.None? ==> r == Err(NullPointerException)
    ensures coll.Some? ==> r == Ok(Join(Decorated(coll.value, Some(""), Some("")), ValueOf(delim)))
  {
    r := CollectionToDelimitedString(coll, delim, Some(""), Some(""));
  }

  /** With an empty prefix and suffix, the decorated texts of non-null elements are the elements. */
  lemma PlainDecoration(parts: seq<string>)
    ensures Decorated(seq(|parts|, i requires 0 <= i < |parts| => Some(parts[i])), Some(""), Some("")) == parts
  {
    var d := Decorated(seq(|parts|, i requires 0 <= i < |parts| => Some(parts[i])), Some(""), Some(""));
    assert |d| == |parts|;
    forall i | 0 <= i < |parts| ensures d[i] == parts[i] {
      DecoratedAt(seq(|parts|, i requires 0 <= i < |parts| => Some(parts[i])), Some(""), Some(""), i);
    }
  }
}
