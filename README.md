# proliming commons — string utilities and `Verify`, modelled in Dafny

This project models the string library of `StringUtils` and the message formatter and guard methods of `Verify` from the proliming `commons-utils` module, and proves properties of them. Java `null` is `Option.None`, and a thrown exception is `Result.Err` carrying an `Exception` value. Strings are `seq<char>`, and `String.indexOf` is a recursive search (`JavaLang.IndexOf`).

Each loop of the Java code becomes a Dafny `method` with a `while` or `for` loop. The method is proved equal to a recursive specification function: `Tokens`, `WholeTokens`, `PiecesFrom`, `ReplaceFrom`, `PassFrom`, `FormatRest`, `Walk`, and so on. The properties the code promises are then proved about those functions as lemmas.

The modules follow the structure of the code:

| module | file | models |
|---|---|---|
| `JavaLang` | java_lang.dfy | null, exceptions, `String.valueOf`, `indexOf`, `startsWith`/`endsWith`, `isEmpty` |
| `Joiner` | joiner.dfy | `join(Object[], String/char[, start, end])`, `collectionToDelimitedString` |
| `Tokenizer` | tokenizer.dfy | both `splitWorker` overloads (behind `split` and `splitPreserveAllTokens`) |
| `WholeSplitter` | whole_splitter.dfy | `splitByWholeSeparatorWorker` |
| `CharTypeSplitter` | char_type_splitter.dfy | `splitByCharacterType(str, camelCase)` |
| `Replacer` | replacer.dfy | `replace(text, search, repl, max)`, `replaceOnce`, `remove(String, String)`, `countOccurrencesOf` |
| `ReplaceEach` | replace_each.dfy | `replaceEach(text, searchList, replacementList, repeat, timeToLive)`, `replaceEach`, `replaceEachRepeatedly` |
| `StringHelpers` | string_helpers.dfy | `stripStart`, `stripEnd`, `removeStart`, `removeEnd`, `remove(String, char)`, `replaceChars(String, String, String)` |
| `PathNormalizer` | path_normalizer.dfy | `delimitedListToStringArray`, `cleanPath`, `pathEquals` |
| `Verify` | verify.dfy | `format`, `isTrue`, `isFalse`, `verify`, `isNull`, `notNull` |

`Character.isWhitespace` and `Character.getType` are parameters: `isWhitespace: char -> bool` and `getType: char -> int`. `UPPERCASE_LETTER` is 1 and `LOWERCASE_LETTER` is 2, the values Java's constants have.

Java `int` arithmetic is modelled where it changes the outcome. The range joins compute `endIndex - startIndex` and the buffer capacity `noOfItems * 16` modulo 2^32 (`JavaLang.Int32Wrap`), so an overflowing range returns `""`, and a capacity that overflows to a negative number throws `NegativeArraySizeException`.

Where the documentation and the code disagree, the model follows the code:

- `isTrue` and `isFalse` throw `IllegalArgumentException`, although their documentation names `VerifyException`.
- `delimitedListToStringArray`'s `charsToDelete` is documented as a set of characters, but the code deletes it as one whole substring. See "## Findings".
- `cleanPath` and `replace` are not idempotent. Both have proved counterexamples.
- `verify(expression, errorMessageTemplate, errorMessageArgs)` is documented to throw `VerifyException` whenever the expression is false. With a null argument array, `format` throws `NullPointerException` first.
- Without `preserveAllTokens`, `splitByWholeSeparator` leaves a final `""` token when the text ends with the separator.

## Model

Source paths are given from the repository root.

| member | source | states |
|---|---|---|
| JavaLang.IndexOf | commons-utils/src/main/java/com/proliming/commons/utils/StringUtils.java:2605 | `indexOf(pat, from)` is -1 or a position at or after `from` at which the whole pattern fits in the text |
| JavaLang.IndexOfFirst | commons-utils/src/main/java/com/proliming/commons/utils/StringUtils.java:2605 | the answer of `indexOf` is an occurrence, and no occurrence lies between `from` and it; -1 means there is no occurrence at all from `from` on |
| JavaLang.IndexOfShift | commons-utils/src/main/java/com/proliming/commons/utils/Verify.java:191 | searching from `from` in the whole text is searching the suffix from 0, shifted by `from` |
| JavaLang.CharIndexOf | commons-utils/src/main/java/com/proliming/commons/utils/StringUtils.java:2458 | `indexOf(char)` is -1 exactly when the char is absent; otherwise it is the index of the char's first occurrence |
| JavaLang.NatToString | commons-utils/src/main/java/com/proliming/commons/utils/StringUtils.java:2784-2787 | the decimal form of a length in an error message is a non-empty string of digits, with no leading zero when the number has two or more digits |
| JavaLang.NatToStringValue | commons-utils/src/main/java/com/proliming/commons/utils/StringUtils.java:2784-2787 | the printed digits spell the number: reading `NatToString(n)` back as a decimal gives n |
| Tokenizer.SplitWorker | commons-utils/src/main/java/com/proliming/commons/utils/StringUtils.java:1191-1275 | null gives null; otherwise the token array is `Split` over the separator predicate: whitespace when `separatorChars` is null, otherwise membership in `separatorChars` |
| Tokenizer.SplitWorkerChar | commons-utils/src/main/java/com/proliming/commons/utils/StringUtils.java:1061-1093 | null gives null; otherwise the tokens are `Split` with the one-char predicate and no limit |
| Tokenizer.NextSeparatorFirst | commons-utils/src/main/java/com/proliming/commons/utils/StringUtils.java:1075-1088 | the scan stops at the first separator, or at the end when there is none |
| Tokenizer.SkipSeparatorsRun | commons-utils/src/main/java/com/proliming/commons/utils/StringUtils.java:1211-1228 | a run of separators is passed over completely and no further |
| Tokenizer.SplitPreserveJoin | commons-utils/src/main/java/com/proliming/commons/utils/StringUtils.java:1061-1093 | joining the preserving split on char c with c gives back the input, "" included |
| Tokenizer.TokensPreserveJoin | commons-utils/src/main/java/com/proliming/commons/utils/StringUtils.java:1075-1091 | the round trip, from any start index and under any limit |
| Tokenizer.TokensPreserveNonEmpty | commons-utils/src/main/java/com/proliming/commons/utils/StringUtils.java:1089-1091 | the preserving split of a suffix emits at least one token |
| Tokenizer.SplitClean | commons-utils/src/main/java/com/proliming/commons/utils/StringUtils.java:1191-1275 | the non-preserving split with max <= 0 emits no empty token and no token that holds a separator |
| Tokenizer.TokensClean | commons-utils/src/main/java/com/proliming/commons/utils/StringUtils.java:1211-1228 | the same, from any start index |
| Tokenizer.SplitCapped | commons-utils/src/main/java/com/proliming/commons/utils/StringUtils.java:1215-1219 | with max > 0 there are at most max tokens, and when there are exactly max the last one is a suffix of the input, separators included |
| Tokenizer.TokensCapped | commons-utils/src/main/java/com/proliming/commons/utils/StringUtils.java:1215-1219 | the same bound from any start index |
| Tokenizer.TokensAtSeparator | commons-utils/src/main/java/com/proliming/commons/utils/StringUtils.java:1212-1224 | at a separator that ends a token, the token is emitted and the split goes on after the separator; when the limit is reached, the token is the whole rest of the text instead |
| WholeSplitter.SplitByWholeSeparatorWorker | commons-utils/src/main/java/com/proliming/commons/utils/StringUtils.java:912-976 | null gives null; a null or "" separator gives exactly the whitespace `splitWorker` result with the same max and preserve flag; otherwise the tokens are `WholeTokens` |
| WholeSplitter.ScanWhole | commons-utils/src/main/java/com/proliming/commons/utils/StringUtils.java:929-975 | the `indexOf` loop over a non-empty text and separator emits exactly `WholeTokens(s, sep, 0, max, preserve)` |
| WholeSplitter.WholeTokensNonEmpty | commons-utils/src/main/java/com/proliming/commons/utils/StringUtils.java:935-973 | at least one token comes out of a non-empty text |
| WholeSplitter.WholeSplitPreserveJoin | commons-utils/src/main/java/com/proliming/commons/utils/StringUtils.java:912-976 | in preserving mode, joining the tokens with the separator gives back the input, under any max |
| WholeSplitter.WholeTokensPreserveJoin | commons-utils/src/main/java/com/proliming/commons/utils/StringUtils.java:935-973 | the same round trip from any start |
| WholeSplitter.WholeTokensFree | commons-utils/src/main/java/com/proliming/commons/utils/StringUtils.java:935-973 | without a limit no token holds the separator, and without preserving only the last token can be "" |
| WholeSplitter.WholeSplitCapped | commons-utils/src/main/java/com/proliming/commons/utils/StringUtils.java:940-944 | with max > 0 at most max tokens come out, and the max-th is `str.substring(beg)`, a suffix of the input; below max tokens the result is the unlimited split, and at max tokens only the last token differs from the unlimited split |
| WholeSplitter.WholeTokensCapped | commons-utils/src/main/java/com/proliming/commons/utils/StringUtils.java:957-964 | the same from any start, in both modes |
| WholeSplitter.WholeTokensCapAgrees | commons-utils/src/main/java/com/proliming/commons/utils/StringUtils.java:940-964 | from any start, the capped split equals the unlimited one until the cap is reached, and its first cap - 1 tokens are those of the unlimited split, which has at least cap tokens |
| CharTypeSplitter.SplitByCharacterType | commons-utils/src/main/java/com/proliming/commons/utils/StringUtils.java:1351-1381 | null gives null; otherwise the loop over `getType` emits exactly `ByCharacterType(str, getType, camelCase)` |
| CharTypeSplitter.ByCharacterTypeShape | commons-utils/src/main/java/com/proliming/commons/utils/StringUtils.java:1351-1381 | for non-empty input, the tokens are non-empty, concatenate to the input and start at 0; a token starts at p > 0 exactly when p is a boundary |
| CharTypeSplitter.PiecesConcat | commons-utils/src/main/java/com/proliming/commons/utils/StringUtils.java:1362-1379 | the tokens cut from `tokenStart` on concatenate to the rest of the text |
| CharTypeSplitter.PiecesStarts | commons-utils/src/main/java/com/proliming/commons/utils/StringUtils.java:1362-1378 | a token starts at p exactly when p has been reached and is a boundary |
| CharTypeSplitter.PlainBoundaries | commons-utils/src/main/java/com/proliming/commons/utils/StringUtils.java:1364-1376 | without camelCase, a token starts exactly where the character type changes |
| CharTypeSplitter.CamelShift | commons-utils/src/main/java/com/proliming/commons/utils/StringUtils.java:1367-1372 | in camelCase mode, the last char of an uppercase run of two or more moves to the following lowercase token |
| CharTypeSplitter.CamelExamples | commons-utils/src/main/java/com/proliming/commons/utils/StringUtils.java:1330-1332 | "fooBar" gives ["foo", "Bar"]; "ASFRules" gives ["ASF", "Rules"] in camelCase mode and ["ASFR", "ules"] without it |
| Joiner.JoinRange | commons-utils/src/main/java/com/proliming/commons/utils/StringUtils.java:2124-2150 | a null array gives null. `noOfItems` is `endIndex - startIndex` wrapped to 32 bits, and if it is <= 0 the result is "". If `noOfItems * 16` wraps to a negative number, `NegativeArraySizeException` is thrown. An inverted range that counts as positive after the wrap also gives "". A range that leaves the array throws at the first bad index. Otherwise the result is the element texts of the range joined with the separator, where null elements and a null separator count as "" |
| Joiner.JoinRangeChar | commons-utils/src/main/java/com/proliming/commons/utils/StringUtils.java:1693-1711 | the same wrapped count and capacity, with a one-char separator |
| Joiner.JoinArray | commons-utils/src/main/java/com/proliming/commons/utils/StringUtils.java:2080-2085 | a null array gives null. Otherwise all its element texts are joined, unless `length * 16` wraps to a negative number, in which case the range join throws `NegativeArraySizeException` |
| Joiner.JoinArrayChar | commons-utils/src/main/java/com/proliming/commons/utils/StringUtils.java:1434-1439 | the same with a char separator |
| Joiner.ItemCountWraps | commons-utils/src/main/java/com/proliming/commons/utils/StringUtils.java:2134-2137 | the range from `Integer.MIN_VALUE` to 1 counts as -2147483647 items, so `join` returns ""; the range from `Integer.MAX_VALUE` to `Integer.MIN_VALUE` counts as 1 item |
| Joiner.BufferCapacityBound | commons-utils/src/main/java/com/proliming/commons/utils/StringUtils.java:2139 | fewer than 2^27 items get a buffer of 16 per item, and 2^27 items wrap to `Integer.MIN_VALUE` |
| Joiner.JoinLength | commons-utils/src/main/java/com/proliming/commons/utils/StringUtils.java:2141-2148 | a join of n parts holds exactly n - 1 separators: its length is the total length of the parts plus n - 1 separator lengths |
| Joiner.JoinSnoc | commons-utils/src/main/java/com/proliming/commons/utils/StringUtils.java:2142-2147 | appending one more part adds one separator and that part |
| Joiner.JoinStep | commons-utils/src/main/java/com/proliming/commons/utils/StringUtils.java:2141-2148 | one more element of the range adds a separator (none before the first) and the element's text |
| Joiner.CollectionToDelimitedString | commons-utils/src/main/java/com/proliming/commons/utils/StringUtils.java:4163-4176 | a null collection throws; otherwise each element is printed between the prefix and the suffix, and the results are joined with the delimiter ("" for an empty collection) |
| Joiner.CollectionToDelimitedStringWith | commons-utils/src/main/java/com/proliming/commons/utils/StringUtils.java:4187-4189 | the same with empty prefix and suffix |
| Joiner.DecoratedAt | commons-utils/src/main/java/com/proliming/commons/utils/StringUtils.java:4170 | the i-th text is prefix, element i and suffix, each printed as `String.valueOf` prints it |
| Joiner.PlainDecoration | commons-utils/src/main/java/com/proliming/commons/utils/StringUtils.java:4187-4189 | with empty prefix and suffix, the decorated texts of non-null elements are the elements themselves |
| Replacer.Replace | commons-utils/src/main/java/com/proliming/commons/utils/StringUtils.java:2600-2624 | text is returned unchanged when it or the search string is empty, the replacement is null or max is 0; otherwise the loop builds exactly `Replaced(text, search, repl, max)` |
| Replacer.Replaced | commons-utils/src/main/java/com/proliming/commons/utils/StringUtils.java:2600-2603 | `replace` returns null exactly when the text is null |
| Replacer.ReplaceFromJoin | commons-utils/src/main/java/com/proliming/commons/utils/StringUtils.java:2614-2622 | replacing is cutting the text at the first min(max, occurrences) non-overlapping occurrences, left to right, and joining the pieces with the replacement; every unmatched span is kept, in order |
| Replacer.ReplaceLength | commons-utils/src/main/java/com/proliming/commons/utils/StringUtils.java:2614-2622 | the result is as long as the text plus (repl length - search length) for each of the min(max, occurrences) replacements, or for all occurrences when max < 0 |
| Replacer.ReplaceBySelf | commons-utils/src/main/java/com/proliming/commons/utils/StringUtils.java:2600-2624 | replacing a string by itself gives the text back |
| Replacer.ReplaceCharAll | commons-utils/src/main/java/com/proliming/commons/utils/StringUtils.java:2614-2622 | unbounded replacement of a char by a text without that char leaves none of it |
| Replacer.ReplaceNotIdempotent | commons-utils/src/main/java/com/proliming/commons/utils/StringUtils.java:2614-2622 | "abb" with "ab" replaced by "a" becomes "ab", which a second replacement turns into "a" |
| Replacer.ReplaceOnceFirst | commons-utils/src/main/java/com/proliming/commons/utils/StringUtils.java:2499-2501 | `replaceOnce` replaces only the first occurrence and keeps the rest of the text; it returns the text when there is no occurrence |
| Replacer.RemoveLength | commons-utils/src/main/java/com/proliming/commons/utils/StringUtils.java:2429-2434 | `remove(str, sub)` shortens the text by the length of sub once for each occurrence `countOccurrencesOf` counts |
| Replacer.CountOccurrencesOf | commons-utils/src/main/java/com/proliming/commons/utils/StringUtils.java:3589-3601 | the loop counts the non-overlapping occurrences, left to right; the count is 0 when either string is null or empty |
| Replacer.CountIsCuts | commons-utils/src/main/java/com/proliming/commons/utils/StringUtils.java:3596-3599 | the count is one less than the number of pieces of the preserving whole-separator split |
| Replacer.WholeTokensCount | commons-utils/src/main/java/com/proliming/commons/utils/StringUtils.java:935-973 | the preserving split yields one more piece than the occurrences it cuts at: all of them, or at most cap - 1 |
| ReplaceEach.ReplaceEachMethod | commons-utils/src/main/java/com/proliming/commons/utils/StringUtils.java:2761-2888 | the method returns or throws exactly what `ReplaceEachSpec` says, including the repeat recursion and the `IllegalStateException` / `IllegalArgumentException` guards |
| ReplaceEach.ReplaceEachGuards | commons-utils/src/main/java/com/proliming/commons/utils/StringUtils.java:2768-2822 | in order: null or empty input is returned as it is; a negative time-to-live throws `IllegalStateException` before any search; unequal list lengths throw `IllegalArgumentException`; a first scan with no match returns the text |
| ReplaceEach.Pass | commons-utils/src/main/java/com/proliming/commons/utils/StringUtils.java:2844-2881 | one pass over the text, updating `noMoreMatchesForReplIndex` in place, builds exactly `PassFrom(text, S, R, 0)` |
| ReplaceEach.FindEarliest | commons-utils/src/main/java/com/proliming/commons/utils/StringUtils.java:2858-2874 | the scan over the pairs finds `Earliest`, and on its way marks only pairs that truly have no further match |
| ReplaceEach.EarliestIsMin | commons-utils/src/main/java/com/proliming/commons/utils/StringUtils.java:2800-2816 | the hit is none exactly when no enabled pair matches; otherwise it is a match of an enabled pair, no enabled pair matches earlier, and no lower-indexed pair matches at the same place (`<` keeps the first) |
| ReplaceEach.EarliestFromIsMin | commons-utils/src/main/java/com/proliming/commons/utils/StringUtils.java:2858-2874 | the scan from pair i keeps the minimum of the pairs it has seen |
| ReplaceEach.Position | commons-utils/src/main/java/com/proliming/commons/utils/StringUtils.java:2863 | the match of an enabled pair lies at or after `start` and within the text |
| ReplaceEach.NoMoreLater | commons-utils/src/main/java/com/proliming/commons/utils/StringUtils.java:2866-2868 | a pair marked as having no more matches has none from any later start either |
| ReplaceEach.PassSingle | commons-utils/src/main/java/com/proliming/commons/utils/StringUtils.java:2844-2881 | with one enabled pair, a pass is the unbounded single-pattern `replace` |
| ReplaceEach.ReplaceEachSingle | commons-utils/src/main/java/com/proliming/commons/utils/StringUtils.java:2663-2665 | `replaceEach` with one pair is `replace(text, search, replacement, -1)` |
| ReplaceEach.RepeatedIsFixedPoint | commons-utils/src/main/java/com/proliming/commons/utils/StringUtils.java:2883-2887 | a text that `replaceEachRepeatedly` returns has no match left for any enabled pair |
| ReplaceEach.ReplaceEachExample | commons-utils/src/main/java/com/proliming/commons/utils/StringUtils.java:2663-2665 | "abcde" with ["ab", "d"] replaced by ["w", "t"] gives "wcte" |
| ReplaceEach.SwapForward | commons-utils/src/main/java/com/proliming/commons/utils/StringUtils.java:2844-2881 | swapping "ab" and "d" turns "abcde" into "dcabe" |
| ReplaceEach.SwapBack | commons-utils/src/main/java/com/proliming/commons/utils/StringUtils.java:2844-2881 | the next pass turns "dcabe" back into "abcde" |
| ReplaceEach.SwapCycle | commons-utils/src/main/java/com/proliming/commons/utils/StringUtils.java:2707-2713 | `replaceEachRepeatedly` on that swap runs out of time-to-live and throws `IllegalStateException`, while `replaceEach` gives "dcabe" |
| StringHelpers.StripStart | commons-utils/src/main/java/com/proliming/commons/utils/StringUtils.java:508-526 | empty input or "" strip chars return the input; otherwise the result is the input without its leading run of strip chars (whitespace when strip chars is null) |
| StringHelpers.StripEnd | commons-utils/src/main/java/com/proliming/commons/utils/StringUtils.java:554-572 | the same for the trailing run |
| StringHelpers.StrippedStart | commons-utils/src/main/java/com/proliming/commons/utils/StringUtils.java:517-525 | the result is a suffix of the input, everything removed is a strip char, and the result does not start with one |
| StringHelpers.StrippedEnd | commons-utils/src/main/java/com/proliming/commons/utils/StringUtils.java:563-571 | the result is a prefix, everything removed is a strip char, and the result does not end with one |
| StringHelpers.StripIdempotent | commons-utils/src/main/java/com/proliming/commons/utils/StringUtils.java:508-572 | stripping a second time, from either end, changes nothing |
| StringHelpers.RemoveStart | commons-utils/src/main/java/com/proliming/commons/utils/StringUtils.java:2358-2366 | null stays null; a text that changes lost exactly a leading copy of a non-empty `remove` |
| StringHelpers.RemoveEnd | commons-utils/src/main/java/com/proliming/commons/utils/StringUtils.java:2394-2402 | the same for a trailing copy |
| StringHelpers.RemoveRoundTrip | commons-utils/src/main/java/com/proliming/commons/utils/StringUtils.java:2358-2402 | taking off a prefix or suffix that was put on gives the text back |
| StringHelpers.RemoveChar | commons-utils/src/main/java/com/proliming/commons/utils/StringUtils.java:2457-2469 | compacting the char array in place yields the text without that char, in order; null stays null |
| StringHelpers.WithoutContents | commons-utils/src/main/java/com/proliming/commons/utils/StringUtils.java:2463-2467 | every other char is kept as many times as it occurs, and the removed char is gone |
| StringHelpers.WithoutAbsent | commons-utils/src/main/java/com/proliming/commons/utils/StringUtils.java:2458-2459 | a text without the char is left alone, as the early return does |
| StringHelpers.ReplaceChars | commons-utils/src/main/java/com/proliming/commons/utils/StringUtils.java:2960-2987 | empty text or search chars return the input; otherwise each char becomes the replacement at the index of its first occurrence in the search chars, nothing when there is none at that index, or itself when it is not searched (null replace chars count as "") |
| StringHelpers.TranslateLength | commons-utils/src/main/java/com/proliming/commons/utils/StringUtils.java:2970-2982 | `replaceChars` never lengthens the text, and keeps its length when every search char has a replacement |
| StringHelpers.TranslateDeletes | commons-utils/src/main/java/com/proliming/commons/utils/StringUtils.java:2960-2987 | `replaceChars(str, c, null)` is `remove(str, c)` |
| PathNormalizer.DelimitedListToStringArray | commons-utils/src/main/java/com/proliming/commons/utils/StringUtils.java:4093-4118 | null gives []; a null delimiter gives [str]; "" cuts into single chars; an empty text gives []; otherwise the pieces between whole delimiters, each passed through `remove(piece, charsToDelete)` |
| PathNormalizer.CutList | commons-utils/src/main/java/com/proliming/commons/utils/StringUtils.java:4106-4115 | the `indexOf` loop yields the preserving whole-delimiter split of the text |
| PathNormalizer.DelimitedListJoin | commons-utils/src/main/java/com/proliming/commons/utils/StringUtils.java:4071-4073 | with nothing to delete, joining the list with the delimiter gives back the text |
| PathNormalizer.DeletionsAgreeWithoutChars | commons-utils/src/main/java/com/proliming/commons/utils/StringUtils.java:4071-4073 | with null `charsToDelete` the code as written and the corrected deletion agree |
| PathNormalizer.LoneNewlineKept | commons-utils/src/main/java/com/proliming/commons/utils/StringUtils.java:4109 | as written, deleting "\r\n" from "a\nb" keeps the lone newline; deleting the listed chars gives "ab" |
| PathNormalizer.DeleteAnyClean | commons-utils/src/main/java/com/proliming/commons/utils/StringUtils.java:4086-4087 | with the corrected deletion, no char of `charsToDelete` is left in any token |
| PathNormalizer.CleanPath | commons-utils/src/main/java/com/proliming/commons/utils/StringUtils.java:3686-3739 | the method (replace, prefix split, split, right-to-left walk, join) returns exactly `CleanPathSpec(path)`; null gives null |
| PathNormalizer.TakePrefix | commons-utils/src/main/java/com/proliming/commons/utils/StringUtils.java:3696-3709 | the prefix up to the first ':' is set aside unless it holds a "/", then a leading "/" moves to the prefix |
| PathNormalizer.WalkBack | commons-utils/src/main/java/com/proliming/commons/utils/StringUtils.java:3712-3736 | the two loops with the `tops` counter and `add(0, ...)` yield `Normalized(pathArray)` |
| PathNormalizer.NormalizedShape | commons-utils/src/main/java/com/proliming/commons/utils/StringUtils.java:3715-3736 | no "." is left, and every ".." comes before all the real segments |
| PathNormalizer.WalkCancels | commons-utils/src/main/java/com/proliming/commons/utils/StringUtils.java:3717-3729 | a real segment followed by ".." cancels out, and "." vanishes, wherever they stand |
| PathNormalizer.WalkKeepsReal | commons-utils/src/main/java/com/proliming/commons/utils/StringUtils.java:3715-3731 | the kept elements are real segments only |
| PathNormalizer.WalkAppend | commons-utils/src/main/java/com/proliming/commons/utils/StringUtils.java:3715-3731 | walking a concatenation is walking the right part first, then the left from where it stopped |
| PathNormalizer.RealsKept | commons-utils/src/main/java/com/proliming/commons/utils/StringUtils.java:3722-3728 | real segments with no ".." to their right are all retained, in their order, ahead of what was kept before |
| PathNormalizer.TopsCount | commons-utils/src/main/java/com/proliming/commons/utils/StringUtils.java:3719-3721 | each ".." of a run only raises the count of unmatched tops |
| PathNormalizer.NormalFormFixed | commons-utils/src/main/java/com/proliming/commons/utils/StringUtils.java:3715-3736 | a run of ".." followed by real segments comes out unchanged; with `WalkCancels` this determines the segment list `cleanPath` keeps |
| PathNormalizer.NormalizedIdempotent | commons-utils/src/main/java/com/proliming/commons/utils/StringUtils.java:3715-3736 | normalizing the segment list a second time changes nothing |
| PathNormalizer.SlashedHasNoBackslash | commons-utils/src/main/java/com/proliming/commons/utils/StringUtils.java:3690 | after the rewrite no "\\" is left |
| PathNormalizer.PrefixKept | commons-utils/src/main/java/com/proliming/commons/utils/StringUtils.java:3696-3705 | the text up to the first ':' that holds no "/" starts the result verbatim |
| PathNormalizer.LeadingSlashKept | commons-utils/src/main/java/com/proliming/commons/utils/StringUtils.java:3706-3709 | a path without ':' that starts with "/" still does after cleaning |
| PathNormalizer.CleanPathExample | commons-utils/src/main/java/com/proliming/commons/utils/StringUtils.java:3686-3739 | "a/./b/../c" cleans to "a/c" |
| PathNormalizer.CleanPathNotIdempotent | commons-utils/src/main/java/com/proliming/commons/utils/StringUtils.java:3696-3705 | "./c:./a" cleans to "c:./a", which cleans again to "c:a": the prefix is only recognised in the second pass |
| PathNormalizer.PathEquals | commons-utils/src/main/java/com/proliming/commons/utils/StringUtils.java:3749-3751 | a null first path throws; a null second path against a non-null first gives false |
| PathNormalizer.PathEqualsEquivalence | commons-utils/src/main/java/com/proliming/commons/utils/StringUtils.java:3749-3751 | on non-null paths `pathEquals` is reflexive, symmetric and transitive |
| Verify.FormatMethod | commons-utils/src/main/java/com/proliming/commons/utils/Verify.java:183-213 | the two loops of `format` build exactly `Format(template, args)` |
| Verify.Format | commons-utils/src/main/java/com/proliming/commons/utils/Verify.java:183-213 | a null argument array throws; with no arguments the result is the template, and a null template prints as "null" |
| Verify.Substitute | commons-utils/src/main/java/com/proliming/commons/utils/Verify.java:188-198 | when the substituting loop stops, the output so far followed by the formatting of the rest is the whole message, and if arguments are left then no placeholder is |
| Verify.AppendUnmatched | commons-utils/src/main/java/com/proliming/commons/utils/Verify.java:202-210 | leftover arguments are appended as " [a, b, ...]", comma-space separated and in order |
| Verify.FormatFills | commons-utils/src/main/java/com/proliming/commons/utils/Verify.java:190-210 | a template made of placeholder-free pieces with "%s" between them is filled piece, argument, piece, ... by position; leftover placeholders stay verbatim and leftover arguments are bracketed |
| Verify.FormatWithoutPlaceholders | commons-utils/src/main/java/com/proliming/commons/utils/Verify.java:199-210 | with no placeholder, the template is followed by all arguments in brackets |
| Verify.ArgumentNotRescanned | commons-utils/src/main/java/com/proliming/commons/utils/Verify.java:191-197 | a substituted argument is never searched again: "%s-%s" with ["%s", "a"] gives "%s-a" |
| Verify.LeftoverArguments | commons-utils/src/main/java/com/proliming/commons/utils/Verify.java:201-210 | "%s" with [a, b, c] gives "a [b, c]" |
| Verify.LeftoverPlaceholders | commons-utils/src/main/java/com/proliming/commons/utils/Verify.java:190-199 | "%s %s" with [a] gives "a %s" |
| Verify.FirstPlaceholder | commons-utils/src/main/java/com/proliming/commons/utils/Verify.java:191 | `indexOf("%s", from)` finds the first "%" followed by "s" |
| Verify.IsTrue | commons-utils/src/main/java/com/proliming/commons/utils/Verify.java:31-35 | succeeds exactly when the expression holds; otherwise it throws `IllegalArgumentException` without a message |
| Verify.IsFalse | commons-utils/src/main/java/com/proliming/commons/utils/Verify.java:44-46 | succeeds exactly when the expression is false, and throws the same exception otherwise |
| Verify.VerifyMessage | commons-utils/src/main/java/com/proliming/commons/utils/Verify.java:57-61 | succeeds exactly when the expression holds; otherwise `VerifyException` with `String.valueOf(errorMessage)` |
| Verify.VerifyFormat | commons-utils/src/main/java/com/proliming/commons/utils/Verify.java:80-87 | succeeds exactly when the expression holds; otherwise `VerifyException` with the formatted message, or `NullPointerException` from `format` when the argument array is null |
| Verify.IsNull | commons-utils/src/main/java/com/proliming/commons/utils/Verify.java:110-115 | succeeds exactly when the object is null; otherwise `IllegalArgumentException` with the message |
| Verify.IsNullDefault | commons-utils/src/main/java/com/proliming/commons/utils/Verify.java:97-99 | the same with the default message |
| Verify.NotNull | commons-utils/src/main/java/com/proliming/commons/utils/Verify.java:140-145 | a non-null reference is returned unchanged; null throws `VerifyException` with `String.valueOf(errorMessage)` |
| Verify.NotNullDefault | commons-utils/src/main/java/com/proliming/commons/utils/Verify.java:125-127 | the same with the default message |
| Verify.NotNullFormat | commons-utils/src/main/java/com/proliming/commons/utils/Verify.java:164-171 | a non-null reference is returned unchanged; null throws `VerifyException` with the formatted message, or `NullPointerException` when the argument array is null |
| Verify.NotNullIsVerify | commons-utils/src/main/java/com/proliming/commons/utils/Verify.java:80-87 | the templated `notNull` fails exactly when the templated `verify` on `reference != null` fails, with the same exception |

## Left out

- I/O, threads and everything outside `StringUtils` and `Verify`: `CopyUtils`, the task executors, `Builder`, and `VerifyException`, which is only the `Exception.VerifyException` constructor.
- `Character.isWhitespace` and `Character.getType` are parameters, not Unicode tables.
- Objects passed to `join`, `collectionToDelimitedString` and `format` are modelled by their string form, as an `Option<string>`. `toString()` of arbitrary objects is not modelled.
- An `Iterator` over a `Collection` is modelled as a sequence, in its iteration order.
- The `StringBuilder` capacity hints in `replace`, `replaceEach` and `format` affect only performance and are left out. They overflow only for texts or argument arrays of tens of millions of elements, and that overflow is left out too. The hint in the range `join`s is modelled, because it overflows for short arrays with wide index ranges.
- Joiner.JoinArray, Joiner.JoinArrayChar: these require the array to hold fewer than 2^31 elements, the most a Java array can hold, because its length is passed on as an `int` index.
- `ArrayList`, `LinkedList` and `toArray` are sequences. In `cleanPath`, `LinkedList.add(0, ...)` is prepending to a sequence.
- `replacePattern` and `removePattern` delegate to `java.util.regex` and are left out.
- `tokenizeToStringArray`, the locale and time-zone parsers, `equalsIgnoreCase`/`regionMatches`, `sortStringArray`, the primitive and floating-point `join` overloads, and the `Iterator`/`Iterable` `join` overloads rely on JDK behaviour that is not part of this model.
- The public one-line wrappers `split`, `splitPreserveAllTokens`, `splitByWholeSeparator`, `splitByCharacterType(str)` and `splitByCharacterTypeCamelCase` are not separate members. Each only fixes arguments of the worker it calls, and the workers are modelled.
- Strings are sequences of UTF-16 code units (`char`). There is no Unicode normalisation.

## Findings

| source | as written | input that shows it | evidently intended | confidence | as-written member | corrected member |
|---|---|---|---|---|---|---|
| commons-utils/src/main/java/com/proliming/commons/utils/StringUtils.java:4109 | each token goes through `remove(token, charsToDelete)`, which deletes `charsToDelete` only as a whole substring | `delimitedListToStringArray("a\nb", ",", "\r\n")` keeps the lone "\n" and gives ["a\nb"] | lines 4086-4087 document `charsToDelete` as a set of characters, each deleted wherever it occurs, which gives ["ab"] | not executed | PathNormalizer.LoneNewlineKept | PathNormalizer.DeleteAnyClean |

The as-written behaviour is kept in `PathNormalizer.DelimitedListToStringArray`, which is built with `AsWritten`. The corrected deletion is `PathNormalizer.DelimitedListDeleteAny`, built with `DeleteAny`. `CleanPathSpec` uses the corrected deletion. It passes a null `charsToDelete`, and for null the two deletions agree (`PathNormalizer.DeletionsAgreeWithoutChars`), so `cleanPath` behaves the same either way.
