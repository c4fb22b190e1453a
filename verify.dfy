/** The guard methods of `Verify` and its message formatter `format`, which fills the
    "%s" placeholders of a template with arguments by position. */
module Verify {
  import opened JavaLang
  import opened Joiner

  const PLACEHOLDER: string := "%s"
  const IS_NULL_MESSAGE: string := "[Assertion failed] - the object argument must be null"
  const NOT_NULL_MESSAGE: string := "expected a non-null reference"

  /** The arguments as `String.valueOf` prints them. */
  function Printed(args: seq<Option<string>>): (r: seq<string>)
    ensures |r| == |args|
  {
    seq(|args|, i requires 0 <= i < |args| => ValueOf(args[i]))
  }

  /** The unmatched arguments as `format` appends them: nothing, or " [a, b, ...]". */
  function Bracketed(vals: seq<string>): string
  {
    if vals == [] then "" else " [" + Join(vals, ", ") + "]"
  }

  /** What `format` makes of what is left of the template, `rest`, and of the arguments
      not yet placed, `vals`: each placeholder found is replaced by the next argument;
      once the arguments run out the rest is copied; once the placeholders run out
      the remaining arguments are bracketed at the end. */
  function FormatRest(rest: string, vals: seq<string>): string
    decreases |vals|
  {
    if vals == [] then rest
    else
      var p := IndexOf(rest, PLACEHOLDER, 0);
      if p == -1 then rest + Bracketed(vals)
      else rest[..p] + vals[0] + FormatRest(rest[p + 2..], vals[1..])
  }

  /** `format(template, args)`: a null template is the text "null", a null argument
      array throws. */
  function Format(template: Option<string>, args: Option<seq<Option<string>>>): (r: Result<string>)
    ensures args.None? <==> r.Err?
    ensures r.Err? ==> r.error == NullPointerException
    ensures args == Some([]) ==> r == Ok(ValueOf(template))
  {
    if args.None? then Err(NullPointerException)
    else Ok(FormatRest(ValueOf(template), Printed(args.value)))
  }

  /** `format(template, args)`, with the two loops of the source. */
  method FormatMethod(template: Option<string>, args: Option<seq<Option<string>>>) returns (r: Result<string>)
    ensures r == Format(template, args)
  {
    var t := ValueOf(template);
    if args.None? {
      return Err(NullPointerException);
    }
    var a := args.value;
    var builder, templateStart, i := Substitute(t, a);
    FormatTail(t, templateStart, Printed(a), i, builder, FormatRest(t, Printed(a)));
    builder := builder + t[templateStart..];
    if i < |a| {
      builder := AppendUnmatched(builder, a, i);
    }
    return Ok(builder);
  }

  /** The substituting loop of `format`: stops when the arguments or the placeholders
      run out, having emitted the text before `templateStart` with arguments `..i` placed. */
  method Substitute(t: string, a: seq<Option<string>>) returns (builder: string, templateStart: nat, i: nat)
    ensures i <= |a| && templateStart <= |t|
    ensures builder + FormatRest(t[templateStart..], Printed(a)[i..]) == FormatRest(t, Printed(a))
    ensures i < |a| ==> IndexOf(t[templateStart..], PLACEHOLDER, 0) == -1
  {
    ghost var vals := Printed(a);
    ghost var whole := FormatRest(t, vals);
    builder := "";
    templateStart := 0;
    i := 0;
    assert vals[0..] == vals;
    while i < |a|
      invariant SubstState(t, vals, templateStart, i, builder, whole)
      decreases |a| - i
    {
      var found;
      found, builder, templateStart, i := SubstituteOnce(t, a, vals, whole, builder, templateStart, i);
      if !found {
        break;
      }
    }
  }

  /** One pass of the substituting loop: when a placeholder is left, the text before it
      and the next argument are emitted and the search resumes after it; otherwise
      nothing changes. */
  method SubstituteOnce(t: string, a: seq<Option<string>>, ghost vals: seq<string>, ghost whole: string,
                        builder: string, templateStart: nat, i: nat)
    returns (found: bool, builder': string, templateStart': nat, i': nat)
    requires vals == Printed(a) && i < |a| && SubstState(t, vals, templateStart, i, builder, whole)
    ensures SubstState(t, vals, templateStart', i', builder', whole)
    ensures found ==> i' == i + 1
    ensures !found ==> i' == i && templateStart' == templateStart && builder' == builder &&
                       IndexOf(t[templateStart..], PLACEHOLDER, 0) == -1
  {
    var placeholderStart := FindPlaceholder(t, templateStart);
    if placeholderStart == -1 {
      return false, builder, templateStart, i;
    }
    SubstAdvance(t, vals, templateStart, i, builder, whole, placeholderStart);
    assert vals[i] == ValueOf(a[i]);
    builder' := builder + t[templateStart..placeholderStart];
    builder' := builder' + ValueOf(a[i]);
    i' := i + 1;
    templateStart' := placeholderStart + 2;
    found := true;
  }

  /** `template.indexOf("%s", templateStart)`, located relative to the rest of the template. */
  method FindPlaceholder(t: string, templateStart: nat) returns (p: int)
    requires templateStart <= |t|
    ensures var r := IndexOf(t[templateStart..], PLACEHOLDER, 0);
            p == (if r == -1 then -1 else r + templateStart)
  {
    p := IndexOf(t, PLACEHOLDER, templateStart);
    IndexOfShift(t, PLACEHOLDER, templateStart, templateStart);
  }

  /** The invariant of the substituting loop: the output so far followed by the
      formatting of the rest is the whole message. */
  ghost predicate SubstState(t: string, vals: seq<string>, templateStart: nat, i: nat, builder: string, whole: string)
  {
    i <= |vals| && templateStart <= |t| &&
    builder + FormatRest(t[templateStart..], vals[i..]) == whole
  }

  /** The invariant of the substituting loop survives one pass. */
  lemma SubstAdvance(t: string, vals: seq<string>, templateStart: nat, i: nat, builder: string, whole: string,
                     placeholderStart: int)
    requires SubstState(t, vals, templateStart, i, builder, whole) && i < |vals|
    requires var r := IndexOf(t[templateStart..], PLACEHOLDER, 0);
             placeholderStart == (if r == -1 then -1 else r + templateStart)
    requires placeholderStart != -1
    ensures templateStart <= placeholderStart && placeholderStart + 2 <= |t|
    ensures SubstState(t, vals, placeholderStart + 2, i + 1,
                       builder + t[templateStart..placeholderStart] + vals[i], whole)
  {
    SubstituteStep(t, templateStart, placeholderStart, vals, i, builder, whole);
  }

  /** The tail of `format`: the arguments from `i` on, in square brackets. */
  method AppendUnmatched(builder: string, a: seq<Option<string>>, i: nat) returns (b: string)
    requires i < |a|
    ensures b == builder + Bracketed(Printed(a)[i..])
  {
    ghost var vals := Printed(a);
    b := builder + " [";
    b := b + ValueOf(a[i]);
    var k := i + 1;
    assert vals[i..k] == [vals[i]];
    while k < |a|
      invariant i < k <= |a|
      invariant b == builder + " [" + Join(vals[i..k], ", ")
      decreases |a| - k
    {
      BracketStep(vals, i, k, builder + " [");
      assert vals[k] == ValueOf(a[k]);
      b := b + ", ";
      b := b + ValueOf(a[k]);
      k := k + 1;
    }
    b := b + "]";
    assert vals[i..k] == vals[i..];
  }

  /** One more unmatched argument joins the bracketed list after a comma. */
  lemma BracketStep(vals: seq<string>, i: nat, k: nat, opening: string)
    requires i < k < |vals|
    ensures opening + Join(vals[i..k], ", ") + ", " + vals[k] == opening + Join(vals[i..k + 1], ", ")
  {
    JoinSnoc(vals[i..k], vals[k], ", ");
    assert vals[i..k + 1] == vals[i..k] + [vals[k]];
  }

  /** After the substituting loop, the rest of the template and the bracketed leftover
      arguments complete the message. */
  lemma FormatTail(t: string, templateStart: nat, vals: seq<string>, i: nat, placed: string, whole: string)
    requires templateStart <= |t| && i <= |vals|
    requires placed + FormatRest(t[templateStart..], vals[i..]) == whole
    requires i < |vals| ==> IndexOf(t[templateStart..], PLACEHOLDER, 0) == -1
    ensures whole == placed + t[templateStart..] + Bracketed(vals[i..])
    ensures i == |vals| ==> whole == placed + t[templateStart..]
  {
    if i == |vals| {
      assert vals[i..] == [];
    }
  }

  /** The invariant of the substituting loop survives one pass. */
  lemma SubstituteStep(t: string, templateStart: nat, placeholderStart: int, vals: seq<string>, i: nat,
                       builder: string, whole: string)
    requires templateStart <= |t| && i < |vals|
    requires var r := IndexOf(t[templateStart..], PLACEHOLDER, 0);
             placeholderStart == (if r == -1 then -1 else r + templateStart)
    requires placeholderStart != -1
    requires builder + FormatRest(t[templateStart..], vals[i..]) == whole
    ensures placeholderStart + 2 <= |t|
    ensures builder + t[templateStart..placeholderStart] + vals[i] +
            FormatRest(t[placeholderStart + 2..], vals[i + 1..]) == whole
  {
    FormatStep(t, templateStart, placeholderStart, vals[i..]);
    assert vals[i..][1..] == vals[i + 1..];
  }

  /** One pass of the substituting loop: the text up to the placeholder and the next
      argument go to the output, the search resumes after the placeholder. */
  lemma FormatStep(t: string, templateStart: nat, placeholderStart: int, vals: seq<string>)
    requires templateStart <= |t| && vals != []
    requires var r := IndexOf(t[templateStart..], PLACEHOLDER, 0);
             placeholderStart == (if r == -1 then -1 else r + templateStart)
    requires placeholderStart != -1
    ensures placeholderStart + 2 <= |t|
    ensures FormatRest(t[templateStart..], vals) ==
            t[templateStart..placeholderStart] + vals[0] + FormatRest(t[placeholderStart + 2..], vals[1..])
  {
    var rest := t[templateStart..];
    var p := IndexOf(rest, PLACEHOLDER, 0);
    assert rest[..p] == t[templateStart..placeholderStart];
    assert rest[p + 2..] == t[placeholderStart + 2..];
  }

  /** No "%s" appears in `s`. */
  predicate NoPlaceholder(s: string)
  {
    forall j :: 0 <= j < |s| - 1 ==> !(s[j] == '%' && s[j + 1] == 's')
  }

  /** The search from `from` stops at the first "%s", found at `e`. */
  lemma {:induction false} FirstPlaceholder(t: string, from: nat, e: nat)
    requires from <= e && e + 2 <= |t| && t[e] == '%' && t[e + 1] == 's'
    requires forall j :: from <= j < e ==> !(t[j] == '%' && t[j + 1] == 's')
    ensures IndexOf(t, PLACEHOLDER, from) == e
    decreases e - from
  {
    MatchesFromOccurs(t, PLACEHOLDER, from, 0);
    if from < e {
      FirstPlaceholder(t, from + 1, e);
    }
  }

  /** A text without "%s" has no placeholder to find. */
  lemma {:induction false} NoPlaceholderFound(t: string, from: nat)
    requires from <= |t| && NoPlaceholder(t)
    ensures IndexOf(t, PLACEHOLDER, from) == -1
    decreases |t| - from
  {
    if from + 2 <= |t| {
      MatchesFromOccurs(t, PLACEHOLDER, from, 0);
      NoPlaceholderFound(t, from + 1);
    }
  }

  /** The reference meaning of `format` for a template cut at its placeholders into the
      pieces around them: the i-th placeholder becomes the i-th argument, placeholders
      without an argument stay as they are, arguments without a placeholder are
      bracketed at the end. */
  function Fill(pieces: seq<string>, vals: seq<string>): string
    requires |pieces| >= 1
    decreases |pieces|
  {
    if vals == [] then Join(pieces, PLACEHOLDER)
    else if |pieces| == 1 then pieces[0] + Bracketed(vals)
    else pieces[0] + vals[0] + Fill(pieces[1..], vals[1..])
  }

  /** `format` on a template made of pieces without "%s" joined by "%s" is `Fill`: the
      substitution goes by position and the inserted argument text is never searched
      for placeholders. */
  lemma {:induction false} FormatFills(pieces: seq<string>, vals: seq<string>)
    requires |pieces| >= 1
    requires forall k :: 0 <= k < |pieces| ==> NoPlaceholder(pieces[k])
    ensures FormatRest(Join(pieces, PLACEHOLDER), vals) == Fill(pieces, vals)
    decreases |pieces|
  {
    if vals != [] {
      if |pieces| == 1 {
        NoPlaceholderFound(pieces[0], 0);
      } else {
        var t := Join(pieces, PLACEHOLDER);
        var p0 := pieces[0];
        var tail := Join(pieces[1..], PLACEHOLDER);
        assert t == p0 + PLACEHOLDER + tail;
        assert t[|p0|] == '%' && t[|p0| + 1] == 's';
        forall j | 0 <= j < |p0| ensures !(t[j] == '%' && t[j + 1] == 's') {
          if j < |p0| - 1 {
            assert t[j] == p0[j] && t[j + 1] == p0[j + 1];
          }
        }
        FirstPlaceholder(t, 0, |p0|);
        assert t[..|p0|] == p0;
        assert t[|p0| + 2..] == tail;
        FormatFills(pieces[1..], vals[1..]);
      }
    }
  }

  /** The template's own text comes through when there are no arguments; with no
      placeholder in it, all the arguments are bracketed after it. */
  lemma FormatWithoutPlaceholders(template: string, vals: seq<string>)
    requires NoPlaceholder(template)
    ensures FormatRest(template, vals) == template + Bracketed(vals)
  {
    if vals != [] {
      NoPlaceholderFound(template, 0);
    }
  }

  /** An argument that itself reads "%s" is not filled in again. */
  lemma ArgumentNotRescanned()
    ensures FormatRest("%s-%s", ["%s", "a"]) == "%s-a"
  {
    var t := "%s-%s";
    assert IndexOf(t, PLACEHOLDER, 0) == 0;
    assert t[2..] == "-%s";
    assert IndexOf("-%s", PLACEHOLDER, 0) == 1;
    assert "-%s"[..1] == "-" && "-%s"[3..] == "";
    assert FormatRest("-%s", ["a"]) == "-" + "a" + "";
    assert ["%s", "a"][1..] == ["a"];
    assert FormatRest(t, ["%s", "a"]) == "" + "%s" + "-a";
  }

  /** Arguments beyond the placeholders are bracketed after the template. */
  lemma LeftoverArguments()
    ensures FormatRest("%s", ["a", "b", "c"]) == "a [b, c]"
  {
    var u := "%s";
    assert IndexOf(u, PLACEHOLDER, 0) == 0;
    assert u[2..] == "";
    assert IndexOf("", PLACEHOLDER, 0) == -1;
    assert ["a", "b", "c"][1..] == ["b", "c"];
    assert Join(["b", "c"], ", ") == "b" + ", " + "c";
    assert FormatRest("", ["b", "c"]) == "" + " [" + "b, c" + "]";
    assert FormatRest(u, ["a", "b", "c"]) == "" + "a" + " [b, c]";
  }

  /** Placeholders beyond the arguments stay in the message. */
  lemma LeftoverPlaceholders()
    ensures FormatRest("%s %s", ["a"]) == "a %s"
  {
    var w := "%s %s";
    assert IndexOf(w, PLACEHOLDER, 0) == 0;
    assert w[2..] == " %s";
    assert FormatRest(w, ["a"]) == "" + "a" + " %s";
  }

  /** `isTrue(expression)`: throws `IllegalArgumentException` with no message when
      the expression is false. */
  function IsTrue(expression: bool): (r: Result<()>)
    ensures r.Ok? <==> expression
    ensures r.Err? ==> r.error == IllegalArgumentException(None)
  {
    if !expression then Err(IllegalArgumentException(None)) else Ok(())
  }

  /** `isFalse(expression)`: throws exactly when the expression is true. */
  function IsFalse(expression: bool): (r: Result<()>)
    ensures r.Ok? <==> !expression
    ensures r.Err? ==> r.error == IllegalArgumentException(None)
  {
    IsTrue(!expression)
  }

  /** `verify(expression, errorMessage)`: the message is `String.valueOf(errorMessage)`. */
  function VerifyMessage(expression: bool, errorMessage: Option<string>): (r: Result<()>)
    ensures r.Ok? <==> expression
    ensures r.Err? ==> r.error == VerifyException(Some(ValueOf(errorMessage)))
  {
    if !expression then Err(VerifyException(Some(ValueOf(errorMessage)))) else Ok(())
  }

  /** `verify(expression, errorMessageTemplate, errorMessageArgs)`: on a false
      expression, throws whatever `format` throws, or else a `VerifyException` carrying
      the formatted message; on a true one the arguments are never looked at. */
  function VerifyFormat(expression: bool, template: Option<string>, args: Option<seq<Option<string>>>)
    : (r: Result<()>)
    ensures r.Ok? <==> expression
    ensures !expression && args.None? ==> r.error == NullPointerException
    ensures !expression && args.Some? ==> r.error == VerifyException(Some(Format(template, args).value))
  {
    if expression then Ok(())
    else match Format(template, args)
      case Err(e) => Err(e)
      case Ok(message) => Err(VerifyException(Some(message)))
  }

  /** `isNull(obj, message)`: throws `IllegalArgumentException(message)` when the object
      is not null. */
  function IsNull<T>(obj: Option<T>, message: Option<string>): (r: Result<()>)
    ensures r.Ok? <==> obj.None?
    ensures r.Err? ==> r.error == IllegalArgumentException(message)
  {
    if obj.Some? then Err(IllegalArgumentException(message)) else Ok(())
  }

  /** `isNull(object)`, with the fixed assertion message. */
  function IsNullDefault<T>(obj: Option<T>): (r: Result<()>)
    ensures r.Ok? <==> obj.None?
    ensures r.Err? ==> r.error == IllegalArgumentException(Some(IS_NULL_MESSAGE))
  {
    IsNull(obj, Some(IS_NULL_MESSAGE))
  }

  /** `notNull(reference, errorMessage)`: the reference itself, or a `VerifyException`
      with `String.valueOf(errorMessage)` when it is null. */
  function NotNull<T>(reference: Option<T>, errorMessage: Option<string>): (r: Result<T>)
    ensures reference.Some? ==> r == Ok(reference.value)
    ensures reference.None? ==> r == Err(VerifyException(Some(ValueOf(errorMessage))))
  {
    if reference.None? then Err(VerifyException(Some(ValueOf(errorMessage)))) else Ok(reference.value)
  }

  /** `notNull(reference)`, with the fixed default message. */
  function NotNullDefault<T>(reference: Option<T>): (r: Result<T>)
    ensures reference.Some? ==> r == Ok(reference.value)
    ensures reference.None? ==> r == Err(VerifyException(Some(NOT_NULL_MESSAGE)))
  {
    NotNull(reference, Some(NOT_NULL_MESSAGE))
  }

  /** `notNull(reference, errorMessageTemplate, errorMessageArgs)`: the reference itself;
      when it is null, whatever `format` throws or a `VerifyException` with the
      formatted message. */
  function NotNullFormat<T>(reference: Option<T>, template: Option<string>, args: Option<seq<Option<string>>>)
    : (r: Result<T>)
    ensures reference.Some? ==> r == Ok(reference.value)
    ensures reference.None? && args.None? ==> r == Err(NullPointerException)
    ensures reference.None? && args.Some? ==> r == Err(VerifyException(Some(Format(template, args).value)))
  {
    if reference.Some? then Ok(reference.value)
    else match Format(template, args)
      case Err(e) => Err(e)
      case Ok(message) => Err(VerifyException(Some(message)))
  }

  /** The guards agree with each other: `notNull` fails exactly where `verify` of
      "is not null" fails, with the same exception. */
  lemma NotNullIsVerify<T>(reference: Option<T>, template: Option<string>, args: Option<seq<Option<string>>>)
    ensures NotNullFormat(reference, template, args).Err? <==> VerifyFormat(reference.Some?, template, args).Err?
    ensures reference.None? ==>
              NotNullFormat(reference, template, args).error == VerifyFormat(reference.Some?, template, args).error
  {
  }
}
