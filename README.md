# js-tool-box core, modelled in Dafny

This project models the core of `js-tool-box`, a collection of JavaScript helpers for web front ends, and proves what those helpers promise. It covers two files.

`common-tools.js`:

- **interval tests** `inRange`, `inRangeL`, `inRangeR` and `inRangeLR`
- **`assignment`**, a shallow merge into an object that does not overwrite with blank values (`Merge`, a class whose property map is updated in place)
- **`isMinority`**, a counting loop
- **`stableSorting`** (`Sorting`): it tags every element with its index, wraps the comparator so that ties fall back to the tags, sorts the array in place and drops the tags again. The in-place sort is an insertion sort on an `array`. It is proved against a functional specification that is a permutation and sorted, and equal keys keep their input order.
- **comparator builders** `compareProperties` and `compareMultiProperties`
- **digit scrubbers** `numberScreenOut`, `nonnumerScreenOut` and `numberArrayScreenOut` (`Helpers`)
- **date conversions** (`Dates`): the conversion `DateStringNumberMutualConversion` between `YYYY-MM-DD HH:MM:SS` and the 14-digit number `YYYYMMDDHHMMSS`, whose number direction is made of five `splice` calls. Also the zero padding of the three `Date` formatters.
- **`isUtf8`** (`Utf8`), the byte-scanning loop of the UTF-8 recogniser. It is proved equal to a recursive definition of well-formedness, and related to RFC 2279 and RFC 3629.

`picture.js` (`Picture`):

- **`getThumbnailPath`**: `_<width>x<height>` is inserted before the last dot
- **the strip `replace(/(_)\d+(x)\d+(.)/, '.')`**, which turns a thumbnail address back into the original. The regular expression is modelled with its greedy matching, backtracking, and its `.` that refuses line terminators. The strip is proved to undo `getThumbnailPath`.
- **`deleteImageProc`**, a `splice(index, 1)` on a list held by a container object (a class)
- **`getOffset`**, the loop up the `offsetParent` chain

Shared pieces live in `common.dfy`:

- the `Result` type, where `TypeError(message)` stands for a thrown `TypeError`
- JavaScript values as the helpers see them
- `String(n)` for integers, with its round trips

## Model

| member | source | states |
|---|---|---|
| Common.IntToString | common-tools.js:273 | `String(n)`: never empty; the canonical numeral for `n >= 0`, a minus sign before the magnitude otherwise |
| Common.NatToString | common-tools.js:273 | `String(n)` for a natural, most significant digit first; its shape, value and length are stated by `Common.NatToStringShape`, `Common.NatToStringValue` and `Common.NatToStringLength` |
| Common.NatToStringShape | common-tools.js:273 | `String(n)` of a natural is a digit string without a superfluous leading zero, one character long exactly when `n < 10` |
| Common.NatToStringValue | common-tools.js:273 | reading back the digits `String(n)` wrote gives `n` |
| Common.CanonicalNumeralRoundTrip | common-tools.js:265 | `+s` followed by `String` gives back any canonical numeral `s` |
| Common.NatToStringLength | common-tools.js:274 | `String(n)` has `k` digits exactly when `10^(k-1) <= n < 10^k` |
| Helpers.InRange | common-tools.js:13 | `rangeS < target < rangeE`, with `rangeS` as the lower bound, as the code uses it |
| Helpers.InRangeL | common-tools.js:14 | `rangeS <= target < rangeE` |
| Helpers.InRangeR | common-tools.js:15 | `rangeS < target <= rangeE` |
| Helpers.InRangeLR | common-tools.js:16 | `rangeS <= target <= rangeE` |
| Helpers.InRangeBounds | common-tools.js:13-16 | each half-open test is the open test plus its own closed end; the closed test is the union of the two half-open ones |
| Helpers.InRangeEmpty | common-tools.js:13-16 | with `rangeS >= rangeE` the open and half-open tests never hold, and the closed test only holds on the single point `rangeS == rangeE` |
| Helpers.SameCount | common-tools.js:70-76 | the count of elements `cFx` calls the same as the target is at most the length |
| Helpers.SameCountAppend | common-tools.js:72-76 | the count adds up over a split of the array |
| Helpers.IsMinority | common-tools.js:69-78 | true exactly when the array is non-empty and the count is below `miPercentage` times the length (an empty array divides 0 by 0, NaN, which is never below) |
| Helpers.ShareBelow | common-tools.js:77 | for a positive length, `count / length < p` is `count < p * length` |
| Helpers.MinorityThresholds | common-tools.js:77 | a percentage above 1 makes every element a minority, one at or below 0 none; an absent element is a minority exactly when the percentage is positive |
| Helpers.DigitsOf | common-tools.js:185 | the characters `parseInt` reads as a number, all digits, in order |
| Helpers.NonDigitsOf | common-tools.js:193 | the remaining characters, none of them a digit |
| Helpers.ScreenOutPartition | common-tools.js:183-194 | every character goes to exactly one of the two scrubbers: the two outputs are together a permutation of the input |
| Helpers.DigitsOfDigits | common-tools.js:185 | a digit string passes through whole and leaves nothing for the other scrubber |
| Helpers.NumberScreenOut | common-tools.js:183-186 | NaN exactly for a non-string; a string without digits gives 0 (`Number('')`) |
| Helpers.NonnumerScreenOut | common-tools.js:191-194 | `''` for a non-string; never contains a digit |
| Helpers.NumberScreenOutOfNumeral | common-tools.js:183-194 | scrubbing the decimal form of an integer gives its magnitude, and leaves exactly the minus sign for the other scrubber |
| Helpers.SplitOnNonDigits | common-tools.js:201 | `split(/\D/g)` gives one piece more than there are separators, every piece made of digits |
| Helpers.SplitRebuilds | common-tools.js:201 | putting the separators back between the pieces rebuilds the string |
| Helpers.NonEmpty | common-tools.js:201 | `filter(S => S)` keeps only non-empty pieces, drawn from the input, and loses no character |
| Helpers.Values | common-tools.js:201 | `map(N => +N)` reads each piece as its decimal value, one value per piece |
| Helpers.DigitRuns | common-tools.js:201 | the runs of digits, each non-empty and all digits; that they are the maximal groups is stated by `Helpers.DigitRunsAtNonDigit` and `Helpers.DigitRunsOfDigits` |
| Helpers.NumberArrayScreenOut | common-tools.js:199-202 | `[]` for a non-string, else the values of the digit runs |
| Helpers.SplitConcat | common-tools.js:201 | the split pieces hold exactly the digits of the string, in order |
| Helpers.DigitRunsAreTheDigits | common-tools.js:183-202 | the runs `numberArrayScreenOut` reads, concatenated, are the digits `numberScreenOut` reads |
| Helpers.NonEmptyAppend | common-tools.js:201 | `filter(S => S)` decides piece by piece: filtering a concatenation of piece lists is the concatenation of the filtered lists, in order |
| Helpers.NonEmptyOne | common-tools.js:201 | a single piece is kept exactly when it is not empty |
| Helpers.SplitAtNonDigit | common-tools.js:201 | `split(/\D/g)` cuts at every non-digit: the pieces of `a + c + b` are those of `a` followed by those of `b` |
| Helpers.SplitOfDigits | common-tools.js:201 | a string of digits splits into itself as the one piece |
| Helpers.DigitRunsAtNonDigit | common-tools.js:196-201 | a non-digit ends a group of consecutive digits: the groups of `a + c + b` are the groups of `a` followed by those of `b` |
| Helpers.DigitRunsOfDigits | common-tools.js:196-201 | consecutive digits form one group, taken whole; the empty string has none |
| Helpers.NumberArrayScreenOutAtNonDigit | common-tools.js:196-202 | the numbers read from either side of a non-digit come separately and in order |
| Helpers.NumberArrayScreenOutOfDigits | common-tools.js:196-202 | a group of consecutive digits gives exactly the one number it spells; with `Helpers.NumberArrayScreenOutAtNonDigit`, `"1a2"` gives `[1, 2]` |
| Merge.Merged | common-tools.js:39-60 | the merged map has the keys of both objects; a key only on the right is copied (blank or not); a shared key takes the right value unless it is blank (`''`, `null`, `undefined`); a key only on the left is kept |
| Merge.Assignment | common-tools.js:39-60 | the loop over the right object's keys leaves the left object's properties equal to `Merged` of its old properties and the right object, and returns the left object itself |
| Merge.MergedStep | common-tools.js:41-57 | one more key of the right object is written unless it is blank over a property the left object owns |
| Merge.MergedIdempotent | common-tools.js:39-60 | merging the same right object a second time changes nothing |
| Merge.MergedEmptyRight | common-tools.js:41-58 | an empty right object leaves the left object as it was |
| Merge.MergedEmptyLeft | common-tools.js:51-56 | into an empty left object the right object is copied whole, blanks included |
| Merge.IsBlank | common-tools.js:40 | the three blank values `''`, `null` and `undefined`, compared strictly, which `Merge.MergedNeverBlanks` shows never overwrite |
| Merge.MergedNeverBlanks | common-tools.js:43-50 | a non-blank property of the left object never becomes blank |
| Sorting.Subtract | common-tools.js:94 | the default comparator `(a, b) => a - b`: negative exactly when `a < b`, zero exactly when `a == b` |
| Sorting.SubtractIsTotalPreorder | common-tools.js:94 | the default comparator, subtraction, is a total preorder |
| Sorting.AsKey | common-tools.js:103-109 | only a string, symbol or number is accepted as property name |
| Sorting.Tag | common-tools.js:115 | every element is paired with its own position |
| Sorting.Untag | common-tools.js:127 | dropping the tags keeps the elements in their order |
| Sorting.AllHave | common-tools.js:111 | every element owns the property, the condition under which the sort runs; `Sorting.EveryOwns` computes it |
| Sorting.TieBroken | common-tools.js:117-123 | the `Proxy` around `cFx`: `cFx`'s verdict, or the difference of the tags on a tie; `Sorting.TieBrokenTies` and `Sorting.TieBrokenOrder` state what it guarantees |
| Sorting.TieBrokenTies | common-tools.js:117-123 | the wrapped comparator is zero exactly when `cFx` ties the keys and the tags are the same, so two input positions are never tied |
| Sorting.SortTagged | common-tools.js:125 | sorting by the wrapped comparator keeps the number of elements; `Sorting.SortTaggedPermutes` and `Sorting.SortTaggedSorted` state permutation and order |
| Sorting.StableSort | common-tools.js:111-127 | the result of the sort on an array whose elements all own the property, as long as the input; `Sorting.StableSortCorrect` states its stability |
| Sorting.StableSorting | common-tools.js:94-128 | a non-array, a bad property name and a property missing from some element each raise their `TypeError` and leave the array as it was; otherwise the array becomes `StableSort` of its old contents |
| Sorting.EveryOwns | common-tools.js:111 | true exactly when every element owns the property |
| Sorting.TagAll | common-tools.js:115 | a fresh array holding the tagged elements |
| Sorting.UntagInto | common-tools.js:127 | the array receives the sorted elements without their tags |
| Sorting.SortTaggedInPlace | common-tools.js:125 | the in-place sort leaves the array equal to the functional sort of its old contents |
| Sorting.InsertAt | common-tools.js:125 | one insertion step: the prefix up to `i` becomes the sorted prefix with `t[i]` inserted, the rest is untouched |
| Sorting.ShiftRight | common-tools.js:125 | the elements that come after `t[i]` move one place right, and the gap is at the insertion position |
| Sorting.InsertSplits | common-tools.js:125 | inserting places the element at its insertion position and keeps the rest in order around it |
| Sorting.InsertPermutes | common-tools.js:125 | inserting adds exactly the one element |
| Sorting.SortTaggedPermutes | common-tools.js:125 | sorting only rearranges the tagged elements |
| Sorting.TieBrokenOrder | common-tools.js:117-123 | with a total-preorder comparator the wrapped comparator is antisymmetric and transitive |
| Sorting.InsertSorted | common-tools.js:125 | inserting into a sorted sequence keeps it sorted |
| Sorting.SortTaggedSorted | common-tools.js:125 | the sort's output is ordered by the wrapped comparator |
| Sorting.UntagSortTagged | common-tools.js:125-127 | the untagged output is a permutation of the untagged input |
| Sorting.StableSortPermutation | common-tools.js:94-128 | the sorted array is a permutation of the input |
| Sorting.StableSortCorrect | common-tools.js:115-127 | every output position holds an input element with its own index, each index once; keys are ordered by `cFx`; elements `cFx` calls equal keep their input order |
| Sorting.SortTaggedTags | common-tools.js:115-125 | the sorted pairs carry input elements with their own indices, each index once |
| Sorting.StableSortIdempotent | common-tools.js:94-128 | an array already in order is left unchanged, so the reshuffling by a second sort that the doc comment reports cannot happen |
| Sorting.SortTaggedOfSorted | common-tools.js:125 | a sequence in order under the wrapped comparator is a fixed point of the sort |
| Sorting.TaggedInOrder | common-tools.js:115-123 | tagging an array already ordered by `cFx` gives neighbours ordered by the wrapped comparator |
| Sorting.TieBrokenAntisymmetric | common-tools.js:117-123 | with a total-preorder `cFx`, two elements each at most the other under the wrapped comparator carry the same tag |
| Sorting.SortedUnique | common-tools.js:117-125 | two arrangements of the same tagged elements, with distinct tags, that are both sorted by the wrapped comparator are equal |
| Sorting.AnySortAgrees | common-tools.js:115-127 | every permutation of the tagged input that is sorted by the wrapped comparator is the model's sort, so the engine's choice of algorithm does not change the result of `stableSorting` |
| Sorting.CompareProperties | common-tools.js:136 | the comparator `compareProperties` returns is zero exactly when `cFx` ties the two property values, and negative exactly when `cFx` puts them in the requested direction |
| Sorting.DescendingNegatesAscending | common-tools.js:136 | the ascending comparator is `cFx` on the property, and the descending one is its negation |
| Sorting.ComparePropertiesIsPreorder | common-tools.js:136 | either direction of a total preorder is again a total preorder on the objects |
| Sorting.CompareMultiProperties | common-tools.js:145-148 | accepted exactly for two arrays of the same non-zero length, keeping both; otherwise the `TypeError` with its message |
| Sorting.MultiCompare | common-tools.js:149-153 | 0 exactly when every key compares equal; otherwise the verdict of the first key that does not |
| Dates.StripSeparators | common-tools.js:265 | `replace(/[-,\s,:]/g, '')` leaves no character of the class and never grows the string |
| Dates.StripDigits | common-tools.js:265 | digits pass through the strip unchanged |
| Dates.Splice | common-tools.js:275-279 | `splice(start, 0, item)` puts `item` at `start`, clamped to the length, and shifts the rest right |
| Dates.SpliceSeparators | common-tools.js:273-280 | the five splices produce `YYYY-MM-DD HH:MM:SS` from the digits (for any digit count) |
| Dates.DateStringNumberMutualConversion | common-tools.js:257-283 | a string that fails the pattern gives 0; a matching string gives the number of its digits; a negative number gives `'-'`; any other number gives its digits laid out by the splices; any other value gives `undefined` |
| Dates.IsJsSpace | common-tools.js:261 | the characters `\s` matches in JavaScript: tab to carriage return, space, no-break space, the Unicode space separators, the line and paragraph separators and the byte-order mark |
| Dates.Matches | common-tools.js:261 | the pattern `^\d{4}-\d{2}-\d{2}\s\d{2}:\d{2}:\d{2}$`: 19 characters, with digits outside the five separator positions; `Dates.MatchedPieces` and `Dates.PiecesMatch` relate it to the six fields |
| Dates.Layout | common-tools.js:275-280 | where the five splices put the separators, for digit strings of any length; `Dates.LayoutFourteen` and `Dates.LayoutMatchesOnlyFourteenDigits` state when the result matches the pattern |
| Dates.MatchedPieces | common-tools.js:261 | the six fields of a matching string are digits |
| Dates.StripMatched | common-tools.js:265 | the strip removes exactly the five separators of a matching string |
| Dates.MatchedDigits | common-tools.js:260-265 | a matching string strips to its 14 field digits |
| Dates.PiecesMatch | common-tools.js:261 | digit fields of widths 4, 2, 2, 2, 2, 2 with the separators make a string the pattern accepts, whose fields they are |
| Dates.StringRoundTrip | common-tools.js:257-283 | a matching string with a space and no leading zero converts to a number that converts back to the same string |
| Dates.FieldSlices | common-tools.js:275-280 | laying out the digits of a matching string with a space gives the string back |
| Dates.NumberRoundTrip | common-tools.js:257-283 | a 14-digit number converts to a matching string that converts back to the same number |
| Dates.LayoutFourteen | common-tools.js:275-280 | fourteen digits are laid out as a matching string whose separators strip off again |
| Dates.LayoutMatchesOnlyFourteenDigits | common-tools.js:274 | only 14 digits give a string the other direction accepts; a length fact (the layout adds five separators, the pattern wants 19 characters) that states the condition the `console.assert` only logs |
| Dates.ZeroPad | common-tools.js:214-215 | below 100 the padded field is two digits that read back as the value; from 10 on it is `String(v)` |
| Dates.DatePart | common-tools.js:213-216 | `YYYY-MM-DD` from the year and the padded month and day, which, with the time appended, `Dates.DateTimeConverts` shows to match the pattern the conversion accepts |
| Dates.DateToString | common-tools.js:242-250 | a non-object raises the `TypeError` naming its `typeof`; a date gives `YYYY-MM-DD` with the month counted from 1 |
| Dates.DateTimeToString | common-tools.js:224-236 | the same check; `YYYY-MM-DD HH:MM`, with `:SS` appended exactly when seconds are asked for |
| Dates.DateToStandardString | common-tools.js:208-217 | the same check; `YYYY-MM-DD` followed by `T00:00:00.000Z` |
| Dates.DateTimeConverts | common-tools.js:224-283 | for a four-digit year, `DateTimeToString(d, true)` matches the conversion's pattern and converts to the number `YYYYMMDDHHMMSS` of the date's fields |
| Dates.FieldsValue | common-tools.js:265 | the number of the six fields read as one numeral is their weighted sum |
| Dates.ZeroPadReadsBack | common-tools.js:230-234 | a padded field is two digits, starts with `0` below 10, and reads back as the value |
| Utf8.IsContinuation | common-tools.js:542 | a byte of the form `10xxxxxx` |
| Utf8.HasBom | common-tools.js:523 | the buffer starts with `EF BB BF` |
| Utf8.WellFormed | common-tools.js:527-546 | what the scan accepts, defined recursively: every lead byte followed by the continuation bytes its class asks for, nothing left owing; `Utf8.IsUtf8` is proved equal to it |
| Utf8.LeadLength | common-tools.js:531-538 | the number of bytes a lead byte opens is at most 6 |
| Utf8.LeadLengthClasses | common-tools.js:529-538 | ASCII bytes stand alone, exactly the `10xxxxxx` bytes are refused as leads, and every byte from `0xC0` on opens two or more |
| Utf8.LeadLengthIsRfc2279 | common-tools.js:531-538 | the lead classes are those of section 2 of RFC 2279, except that `0xFE` and `0xFF` are taken as 5-byte leads instead of being refused |
| Utf8.PendingIsRun | common-tools.js:541-546 | owing `c` continuation bytes means `c` continuation bytes followed by a well-formed rest |
| Utf8.LeadStep | common-tools.js:531-543 | a lead byte opening `n` bytes is well-formed followed by exactly `n - 1` continuation bytes and a well-formed rest |
| Utf8.IsUtf8 | common-tools.js:518-549 | true exactly when the buffer starts with the BOM, or is a well-formed sequence of lead and continuation bytes that is not all ASCII |
| Utf8.ScanStep | common-tools.js:527-545 | reading one byte updates the all-ASCII flag and the continuation count as the loop body does |
| Utf8.WellFormedConcat | common-tools.js:527-546 | concatenated well-formed buffers are well-formed |
| Utf8.TruncatedRejected | common-tools.js:546 | a buffer that stops right after a multi-byte lead is rejected |
| Utf8.WellFormedSplit | common-tools.js:527-546 | a well-formed buffer with a well-formed prefix has a well-formed rest |
| Utf8.EncodeWellFormed | common-tools.js:518-549 | every code point's RFC 3629 encoding is well-formed, and is not all ASCII from `0x80` on |
| Utf8.FeLeadAccepted | common-tools.js:531-538 | `FE 80 80 80 80` is not a BOM, not all ASCII and well-formed by the written lead classes, so the recogniser accepts it; RFC 2279 has no sequence starting with 0xFE |
| Utf8.BoundedLeadLength | common-tools.js:532-533 | the lead classes with 0xFE and 0xFF refused open at most 6 bytes |
| Utf8.BoundedLeadLengthIsRfc2279 | common-tools.js:531-538 | the refusing classes agree with section 2 of RFC 2279 on every byte, and differ from the written ones exactly on 0xFE and 0xFF |
| Utf8.StrictWellFormedRefusesFeFf | common-tools.js:527-546 | with the refusing classes, a buffer is well-formed exactly when it is well-formed as written and holds no 0xFE or 0xFF byte |
| Picture.Suffix | picture.js:190 | `'_' + width + 'x' + height` starts with `_` and is at least four characters long |
| Picture.InsertBeforeIndex | picture.js:185-189 | the inner helper adds exactly the segment's characters: the result is as long as the string and the segment together |
| Picture.GetThumbnailPath | picture.js:184-191 | the thumbnail path is longer than the original by exactly the suffix; `Picture.ThumbnailPlacement` states where the suffix goes |
| Picture.LastIndexOf | picture.js:190 | `lastIndexOf('.')`: -1 exactly when there is no dot; otherwise a dot with none after it |
| Picture.Substring | picture.js:186-187 | `substring` clamps both ends into the string and swaps them when out of order |
| Picture.InsertBeforeLastDot | picture.js:185-190 | the segment goes right before the last dot, or in front of the whole path when there is none (`substring(0, -1)` is empty) |
| Picture.ThumbnailPlacement | picture.js:184-191 | the thumbnail path is the path with `_<width>x<height>` inserted before its last dot, or put in front when there is no dot |
| Picture.SegmentCutOut | picture.js:185-189 | the insertion adds exactly the segment: cutting it out again gives the text back |
| Picture.ThumbnailInsertsSegment | picture.js:184-191 | the thumbnail path is one suffix longer than the path, holds the suffix at the dot (or at 0), and gives the path back without it |
| Picture.MatchLen | picture.js:145 | a match of `(_)\d+(x)\d+(.)` at the front starts with `_` and spans at least 5 characters |
| Picture.FirstMatch | picture.js:145 | the leftmost match position at or after `k` with its length; no earlier position matches; `None` only when no position matches |
| Picture.StripThumbnailSuffix | picture.js:145 | without a match the address is unchanged; otherwise the leftmost match is replaced by one dot |
| Picture.MatchLocal | picture.js:145 | whether a match ends inside `u` does not depend on a neutral character that follows it |
| Picture.SegmentMatches | picture.js:145 | `_<digits>x<digits>` followed by a dot matches exactly up to and including that dot |
| Picture.SegmentFoundFirst | picture.js:145 | a matching segment inserted into a text without matches is the leftmost match |
| Picture.StripSegment | picture.js:145 | stripping a text without matches, with such a segment inserted before a dot, gives the text back |
| Picture.StripUndoesInsertion | picture.js:145 | stripping undoes inserting such a segment before the last dot of a path without matches |
| Picture.SuffixOfSizes | picture.js:190 | for non-negative sizes the suffix is `_`, a numeral, `x` and a numeral |
| Picture.SuffixMatchesBeforeDot | picture.js:190 | the suffix of non-negative sizes followed by a dot matches up to and including the dot |
| Picture.StripUndoesThumbnail | picture.js:279 | for a path with a dot in which the pattern does not already occur, stripping the thumbnail path of non-negative sizes gives the path back |
| Picture.StripWithoutMatch | picture.js:145 | an address without a match passes through the strip unchanged |
| Picture.SpliceStart | picture.js:176 | the position `splice` starts at lies within the array |
| Picture.SpliceOne | picture.js:176 | `splice(start, 1)` removes exactly the element at the start position, if there is one, and keeps the others in order |
| Picture.SpliceOneInside | picture.js:176 | an index inside the array removes exactly that element |
| Picture.SpliceOneNegative | picture.js:176 | a negative index counts from the end |
| Picture.ParamContainer.DeleteImageProc | picture.js:175-177 | a missing property is `undefined`, so calling `splice` on it raises a `TypeError` and nothing changes; otherwise only the named list changes, losing the element at `index` |
| Picture.GetOffset | picture.js:13-31 | `x` is the element's left offset plus every ancestor's left offset and, unless the legacy flag is set, its left border; `y` likewise from the top |
| Picture.LegacyDropsBorders | picture.js:14-25 | the legacy flag drops exactly the ancestors' border widths from both coordinates |
| Picture.SumLeftAppend | picture.js:17-26 | the ancestors' share adds up along the chain |

## Left out

- Numbers are integers. Floating point, `NaN` arithmetic, exponent notation and the loss of precision beyond 2^53 are not modelled. This affects `+N` in the scrubbers and the conversion, and the percentage in `isMinority`, which is a `real`.
- Property names are a datatype of strings, symbols and numbers, and records map them to integers. JavaScript's conversion of numeric keys to strings and the prototype chain that `in` and `for ... in` walk are not modelled. `assignment` iterates over the right object's own keys.
- `assignment` with `isDeepClone`: it calls `_.cloneDeep` from lodash, which is not part of this model. Only the shallow path is modelled.
- `stableSorting`: the `Proxy` around the comparator and the symbol-keyed tag property are modelled as a separate array of (element, index) pairs. The engine's `Array.prototype.sort` algorithm is implementation-defined; the model sorts by insertion, which is one algorithm the engine may use. With a comparator that is a total preorder the result does not depend on the algorithm: `Sorting.AnySortAgrees` proves that every permutation sorted by the wrapped comparator is the model's result. Comparators that return `NaN`, or that are not preorders, are not modelled beyond the model's own insertion order.
- Sorting.StableSorting: an element object that occurs more than once in the array is not modelled. The source writes the tag onto the object (common-tools.js:115), so a repeated object keeps the last of its indices, and with equal keys `[A, B, A]` sorts to `[B, A, A]`. The model's records are values tagged once per position, so the stability `Sorting.StableSortCorrect` states holds for arrays of distinct objects only.
- Sorting.CompareProperties: requires the property on both objects. The source reads `a[properties]` on any object and passes `undefined` to `cFx` when the property is missing (common-tools.js:136); `undefined` arguments to a comparator are not modelled.
- Sorting.MultiCompare: requires every key on both objects (`Applicable`), for the same reason: the source passes `undefined` for a missing property (common-tools.js:150).
- Sorting.CompareMultiProperties: the returned comparator holds copies of the two arrays. The source's closure keeps references to them (common-tools.js:149-152), so a later change to either array changes the comparator, and one that leaves `cFxArray` shorter makes it call `undefined` and throw a `TypeError`; that aliasing is not modelled.
- Picture.MatchLen: works on Dafny characters, which are Unicode scalar values. The source's pattern has no `u` flag (picture.js:145), so its `.` consumes one UTF-16 code unit: after `_1x2` followed by an astral character such as an emoji, the source leaves a lone low surrogate where the model removes the whole character. Texts of BMP characters are modelled exactly.
- Helpers.SplitOnNonDigits: splits by code point. The source's `split(/\D/g)` (common-tools.js:201) has no `u` flag, so an astral character counts as two separators and gives one more empty piece; `filter(S => S)` drops those, so `Helpers.NumberArrayScreenOut` is the same either way.
- Sorting.StableSorting: the comparator is a total function. A `cFx` that throws during the sort (common-tools.js:125) leaves the array partly sorted and skips the deletion of line 127, so every element keeps its index property; the model does not capture a throwing comparator.
- Picture.ParamContainer.DeleteImageProc: the list is held in the container's property map as a value. The source splices the array object the property refers to (picture.js:176), so every other holder of that same array, such as a second property naming it, sees the removal; that sharing is not modelled.
- Sorting.MultiCompare: the source's loose `== 0` on comparator results is modelled as integer equality.
- The `console.assert` of the number branch is a log call; the model lays out numbers of any length as the splices do, and `Dates.LayoutMatchesOnlyFourteenDigits` states what the assertion checks.
- The `Date` formatters take the fields a `Date` reports. Time zones, invalid dates, and any object that is not a `Date` are not modelled: `null`, `{}` and arrays have `typeof` `'object'`, pass the check, and throw on the first getter (common-tools.js:209, 225, 243).
- `isUtf8` takes a sequence of bytes. The source indexes its argument, so a bare `ArrayBuffer` (without a typed-array view) has no `length` and the loop does not run; that case is not modelled. A buffer shorter than three bytes is compared against the BOM with `undefined`, which is modelled as no BOM.
- Thrown errors carry their message. The message of a `TypeError` raised by the engine itself (`deleteImageProc` on a missing list) is the wording of one engine, and only its kind is stated.
- `deleteImageProc`: non-integer indices, and the coercion `splice` applies to them, are not modelled. A container without the named property is modelled; other non-array property values are not.
- `getOffset` takes the `offsetParent` chain as a sequence and the user-agent test `indexOf('MSTE 8') > -1` as a boolean. The browser layout engine is not modelled.
- Picture.StripUndoesThumbnail: stated only for non-negative sizes, for paths with a dot, and for paths in which the pattern does not already occur. A path without a dot gets the suffix in front, and the unescaped `.` of the pattern then consumes the path's first character.
- Helpers.NumberScreenOut: the contract states the NaN and empty cases; the value of a digit string is stated through `Helpers.NumberScreenOutOfNumeral` and `Helpers.DigitsOfDigits` rather than for every string.
- The rest of the two files is not part of this model: `isIE`, `objectForEach`, `guid`, `randomStr`, `objectToKvArray`, the friendly time-span text, the file-input helpers, and the DOM event handlers and image viewers of `picture.js` around the strip. These are DOM, timer, random or network code.

## Findings

| source | as written | input that shows it | evidently intended | confidence | as-written member | corrected member |
|---|---|---|---|---|---|---|
| common-tools.js:532-533 | the 6-byte class is bounded to `0xfc`-`0xfd`, but the next test `chr >= 0xf8` has no upper bound, so 0xFE and 0xFF open 5-byte sequences | `isUtf8([0xFE, 0x80, 0x80, 0x80, 0x80])` returns `true` | 0xFE and 0xFF are refused as lead bytes, as in section 2 of RFC 2279 (`chr >= 0xf8 && chr <= 0xfb` for 5 bytes) | medium, not executed | Utf8.FeLeadAccepted | Utf8.BoundedLeadLengthIsRfc2279 |

## Notes

- The doc comment of `inRange` calls `rangeS` the upper bound and `rangeE` the lower bound. The code uses `rangeS` as the lower bound, and the model follows the code.
- A property missing from some element makes `stableSorting` throw a plain `TypeError` with the message of line 112. It does not name the offending element; the model follows the code.
- The legacy flag of `getOffset` tests for the text `MSTE 8`. This looks like a misspelling of `MSIE 8`, so the flag probably never holds in practice. The model takes the flag as a parameter, so both branches are covered.
