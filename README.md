# Spark SQL `array_max` and `str_to_map`, modelled in Dafny

This project models two Spark SQL scalar functions of the Velox engine. Their
behaviour is fixed by the test files `ArrayMaxTest.cpp` and `StringToMapTest.cpp`.
The model gives reference semantics for both functions. It proves the general
properties the tests rely on, and it proves every test expectation as a lemma.

- `array_max(array<T>) -> T` reduces one array value to its greatest non-null
  element. The result is null when the array is empty or all its elements are null.
  `ArrayMaximum.ArrayMax` is one generic left fold (file `array_max.dfy`). It takes
  the element type's strict "less than" as a parameter. `ElementOrder`
  (`element_order.dfy`) supplies that order for each element type:
  - booleans, with false < true;
  - signed integers of 8, 16, 32 and 64 bits (`IntWidth`, `MinValue`, `MaxValue`);
  - dates, as day counts;
  - timestamps, as (seconds, nanos) compared lexicographically, with `TimestampMin`,
    `TimestampMax` and `FromMicros`;
  - strings, in lexicographic order of their contents;
  - floating point, abstracted to `Num(real) | NaN`, with NaN above every number.

  `ArrayMaximum.ArrayMaxScan` is the running-maximum loop. It replaces the running
  maximum only on a strictly greater element, and it is proved equal to the fold.
- `str_to_map(text, pairDelim, keyValueDelim)` is modelled in `string_to_map.dfy`:
  - `StringToMap.Split` splits the text at every entry delimiter;
  - `StringToMap.SplitEntry` splits each entry at the FIRST key-value delimiter (a
    split with limit 2). With no delimiter, the whole entry is the key and the value
    is null. The tests have at most one delimiter per entry, so first versus last
    occurrence is a modelling choice;
  - `StringToMap.StrToMap` returns the entries, or fails with
    `Duplicate keys are not allowed: ('k').`. The key `k` is the key of the first
    entry that repeats an earlier key. The tests have only one repeated key, so this
    choice is also the model's.

`array_max_cases.dfy` and `string_to_map_cases.dfy` hold the test expectations.
The map results are compared without regard to entry order, as the tests do.

## Model

| member | source | states |
|---|---|---|
| `ArrayMaximum.Step` | velox/functions/sparksql/tests/ArrayMaxTest.cpp:31-35 | one fold step: the result is null only when both the running maximum and the element are null; a null element leaves the running maximum unchanged; the element becomes the result exactly when there is no running maximum, or it is strictly greater than the running maximum, or equal to it; the result is always one of the two |
| `ArrayMaximum.ArrayMax` | velox/functions/sparksql/tests/ArrayMaxTest.cpp:31-35 | the result is null exactly when every element is null (including the empty array); otherwise it is one of the array's elements |
| `ArrayMaximum.ArrayMaxIsGreatest` | velox/functions/sparksql/tests/ArrayMaxTest.cpp:107-132 | under a strict total order: null iff there are no non-null values; otherwise the result is a non-null value that every other non-null value is below |
| `ArrayMaximum.ArrayMaxCharacterization` | velox/functions/sparksql/tests/ArrayMaxTest.cpp:107-132 | the result is `Some(m)` if and only if `m` is the greatest non-null value |
| `ArrayMaximum.ArrayMaxIs` | velox/functions/sparksql/tests/ArrayMaxTest.cpp:31-35 | a non-null element with every non-null element below or equal to it is the result |
| `ArrayMaximum.ArrayMaxDependsOnlyOnValues` | velox/functions/sparksql/tests/ArrayMaxTest.cpp:43-44 | two arrays with the same set of non-null values have the same result: null position, permutation and repetition do not matter |
| `ArrayMaximum.ArrayMaxAppendNull` | velox/functions/sparksql/tests/ArrayMaxTest.cpp:88 | a trailing null element changes nothing |
| `ArrayMaximum.ArrayMaxAppendValue` | velox/functions/sparksql/tests/ArrayMaxTest.cpp:31-35 | appending a non-null element keeps the old maximum or makes the new element the maximum, and never lowers it |
| `ArrayMaximum.ArrayMaxScan` | velox/functions/sparksql/tests/ArrayMaxTest.cpp:31-35 | the running-maximum loop returns exactly the fold's result |
| `ArrayMaximum.BoolArrayMax` | velox/functions/sparksql/tests/ArrayMaxTest.cpp:38-47 | the boolean result is true iff some element is true, and false iff some element is false and none is true |
| `ArrayMaximum.NaNDominates` | velox/functions/sparksql/tests/ArrayMaxTest.cpp:161-162 | any NaN element makes the result NaN |
| `ArrayMaximum.IntArrayMaxInRange` | velox/functions/sparksql/tests/ArrayMaxTest.cpp:106-135 | when the elements fit a width, so does the result |
| `ArrayMaximum.TimestampMaxDominates` | velox/functions/sparksql/tests/ArrayMaxTest.cpp:94-96 | an array of valid timestamps that holds `Timestamp::max()` has that maximum as result |
| `ElementOrder.BoolLess` | velox/functions/sparksql/tests/ArrayMaxTest.cpp:38-47 | no ensures; false < true, and `BoolLessIsStrictTotal` and `BoolArrayMax` state what it means |
| `ElementOrder.IntLess` | velox/functions/sparksql/tests/ArrayMaxTest.cpp:106-135 | no ensures; the body `a < b` is signed numeric order, used for every integer width and for dates; `IntLessIsStrictTotal` states that it is a strict total order |
| `ElementOrder.MinValue` | velox/functions/sparksql/tests/ArrayMaxTest.cpp:107-132 | `numeric_limits<T>::min()` of each width is minus two to the power of one less than the width in bits |
| `ElementOrder.TimestampMin` | velox/functions/sparksql/tests/ArrayMaxTest.cpp:95 | constant `Timestamp::min()`: the least 64-bit seconds value with no fraction; `TimestampMinIsLeast` states what it means |
| `ElementOrder.TimestampMax` | velox/functions/sparksql/tests/ArrayMaxTest.cpp:95-96 | constant `Timestamp::max()`: the greatest 64-bit seconds value with 999999999 nanos; `TimestampMaxIsGreatest` states what it means |
| `ElementOrder.TimestampLess` | velox/functions/sparksql/tests/ArrayMaxTest.cpp:91-99 | no ensures; seconds, then nanos; its meaning is `TimestampLessIsChronological` and `TimestampLessIsStrictTotal` |
| `ElementOrder.Epoch` | velox/functions/sparksql/tests/ArrayMaxTest.cpp:84 | constant: 1970-01-01 is day 0 |
| `ElementOrder.Aug23Of2023` | velox/functions/sparksql/tests/ArrayMaxTest.cpp:84-85 | constant: 2023-08-23 is day 19592 (53 years of 365 days, 13 leap days, and 234 days into 2023) |
| `ElementOrder.StringLess` | velox/functions/sparksql/tests/ArrayMaxTest.cpp:49-78 | no ensures; its meaning is `StringLessIsLexicographic` |
| `ElementOrder.FloatLess` | velox/functions/sparksql/tests/ArrayMaxTest.cpp:152-162 | no ensures; the body is `x < y` on numbers, with NaN above every number; `FloatLessIsStrictTotal` and `NaNIsGreatest` state that it is a strict total order with NaN on top |
| `ElementOrder.MaxFinite` | velox/functions/sparksql/tests/ArrayMaxTest.cpp:149 | no ensures; `numeric_limits<T>::max()` as an exact real: (2^24 - 1) * 2^104 for REAL and (2^53 - 1) * 2^971 for DOUBLE, written out |
| `ElementOrder.Lowest` | velox/functions/sparksql/tests/ArrayMaxTest.cpp:148 | no ensures; `numeric_limits<T>::lowest()` is the negated greatest finite value |
| `ElementOrder.BoolLessIsStrictTotal` | velox/functions/sparksql/tests/ArrayMaxTest.cpp:38-47 | false < true is a strict total order |
| `ElementOrder.IntLessIsStrictTotal` | velox/functions/sparksql/tests/ArrayMaxTest.cpp:106-135 | signed numeric order is a strict total order |
| `ElementOrder.MaxValue` | velox/functions/sparksql/tests/ArrayMaxTest.cpp:109-114 | `numeric_limits<T>::max()` of each width is one below two to the power of one less than the width in bits, and one below the negated minimum (two's complement) |
| `ElementOrder.FromMicros` | velox/functions/sparksql/tests/ArrayMaxTest.cpp:92 | a 64-bit microsecond count decodes to a valid timestamp denoting the same instant |
| `ElementOrder.TimestampLessIsChronological` | velox/functions/sparksql/tests/ArrayMaxTest.cpp:91-99 | on valid timestamps, comparing seconds then nanos is comparing instants |
| `ElementOrder.FromMicrosMonotonic` | velox/functions/sparksql/tests/ArrayMaxTest.cpp:93 | decoding microseconds preserves their order in both directions |
| `ElementOrder.TimestampMaxIsGreatest` | velox/functions/sparksql/tests/ArrayMaxTest.cpp:94-96 | every other valid timestamp is below `Timestamp::max()` |
| `ElementOrder.TimestampMinIsLeast` | velox/functions/sparksql/tests/ArrayMaxTest.cpp:95 | every other valid timestamp is above `Timestamp::min()` |
| `ElementOrder.TimestampLessIsStrictTotal` | velox/functions/sparksql/tests/ArrayMaxTest.cpp:91-99 | the timestamp order is a strict total order |
| `ElementOrder.StringLessIsLexicographic` | velox/functions/sparksql/tests/ArrayMaxTest.cpp:49-57 | the string order holds iff the first string is a proper prefix of the second or is smaller at their first difference |
| `ElementOrder.StringLessIrreflexive` | velox/functions/sparksql/tests/ArrayMaxTest.cpp:49-57 | no string is below itself |
| `ElementOrder.StringLessTransitive` | velox/functions/sparksql/tests/ArrayMaxTest.cpp:49-57 | the string order is transitive |
| `ElementOrder.StringLessConnected` | velox/functions/sparksql/tests/ArrayMaxTest.cpp:49-57 | of two different strings one is below the other |
| `ElementOrder.StringLessIsStrictTotal` | velox/functions/sparksql/tests/ArrayMaxTest.cpp:59-78 | the string order is a strict total order, for short and long strings alike |
| `ElementOrder.FloatLessIsStrictTotal` | velox/functions/sparksql/tests/ArrayMaxTest.cpp:152-159 | numeric order with NaN on top is a strict total order |
| `ElementOrder.NaNIsGreatest` | velox/functions/sparksql/tests/ArrayMaxTest.cpp:161-162 | every non-NaN value is below NaN and NaN is below nothing |
| `ArrayMaxTests.BooleanCases` | velox/functions/sparksql/tests/ArrayMaxTest.cpp:38-47 | the eight boolean expectations |
| `ArrayMaxTests.VarcharCases` | velox/functions/sparksql/tests/ArrayMaxTest.cpp:49-57 | "red" over "blue", "yellow" with a leading null, and null for the empty and the all-null array |
| `ArrayMaxTests.LongVarcharPair` | velox/functions/sparksql/tests/ArrayMaxTest.cpp:61-64 | "red shiny car ahead" over "blue clear sky above" |
| `ArrayMaxTests.LongVarcharWithNull` | velox/functions/sparksql/tests/ArrayMaxTest.cpp:65-71 | "yellow rose flowers" wins, with a leading null |
| `ArrayMaxTests.LongVarcharEmpty` | velox/functions/sparksql/tests/ArrayMaxTest.cpp:72 | the empty string array gives null |
| `ArrayMaxTests.LongVarcharTriple` | velox/functions/sparksql/tests/ArrayMaxTest.cpp:73-78 | "red shiny car ahead" over the "purple…" and "green…" strings |
| `ArrayMaxTests.DateCases` | velox/functions/sparksql/tests/ArrayMaxTest.cpp:81-89 | 2023-08-23 over 1970-01-01, null for empty, and a trailing null ignored |
| `ArrayMaxTests.TimestampCases` | velox/functions/sparksql/tests/ArrayMaxTest.cpp:91-99 | ts(1) over ts(0), `Timestamp::max()` over a mix holding `Timestamp::min()`, null for empty, and a trailing null ignored |
| `ArrayMaxTests.IntegralAscending` | velox/functions/sparksql/tests/ArrayMaxTest.cpp:107-115 | for every width, ascending values from min to max give max |
| `ArrayMaxTests.IntegralDescending` | velox/functions/sparksql/tests/ArrayMaxTest.cpp:116-125 | for every width, descending values from max to min give max |
| `ArrayMaxTests.IntegralTrailingNull` | velox/functions/sparksql/tests/ArrayMaxTest.cpp:126-129 | for every width, 101, 102, 103, max and a null give max |
| `ArrayMaxTests.IntegralNegatives` | velox/functions/sparksql/tests/ArrayMaxTest.cpp:130-132 | for every width, a null and negative values down to min give -1 |
| `ArrayMaxTests.IntegralEmptyOrNull` | velox/functions/sparksql/tests/ArrayMaxTest.cpp:133-134 | the empty and the all-null integer array give null |
| `ArrayMaxTests.FloatingPointCases` | velox/functions/sparksql/tests/ArrayMaxTest.cpp:152-163 | for both widths the four numeric results (with `lowest()` among the elements), the empty array giving null, and NaN beside `max()` giving NaN |
| `StringToMap.Split` | velox/functions/sparksql/tests/StringToMapTest.cpp:40-41 | splitting gives at least one piece and no piece holds the delimiter |
| `StringToMap.SplitEmpty` | velox/functions/sparksql/tests/StringToMapTest.cpp:43 | the empty text splits into one empty piece |
| `StringToMap.SplitCount` | velox/functions/sparksql/tests/StringToMapTest.cpp:40-41 | there is one piece more than there are delimiters |
| `StringToMap.JoinSplit` | velox/functions/sparksql/tests/StringToMapTest.cpp:40-41 | joining the pieces with the delimiter gives back the text |
| `StringToMap.SplitJoin` | velox/functions/sparksql/tests/StringToMapTest.cpp:40-41 | splitting a join of delimiter-free pieces gives back the pieces |
| `StringToMap.IndexOf` | velox/functions/sparksql/tests/StringToMapTest.cpp:48-50 | finds the first occurrence of a character, or reports that there is none |
| `StringToMap.SplitEntry` | velox/functions/sparksql/tests/StringToMapTest.cpp:42-50 | the key holds no key-value delimiter; the value is null iff the entry has none (then the key is the entry); otherwise entry = key + delimiter + value, untrimmed |
| `StringToMap.SplitEntryRoundTrip` | velox/functions/sparksql/tests/StringToMapTest.cpp:48-50 | an entry's text splits back into the entry, and a split entry spells its text again |
| `StringToMap.Parse` | velox/functions/sparksql/tests/StringToMapTest.cpp:40-52 | one entry per piece between entry delimiters, each spelling that piece; no key holds the key-value delimiter, and a value is null exactly when its piece holds no key-value delimiter, so each entry is split at its first key-value delimiter |
| `StringToMap.FirstRepeat` | velox/functions/sparksql/tests/StringToMapTest.cpp:60-63 | no position is reported iff the keys are distinct; a reported key occurs earlier and the keys before it are distinct |
| `StringToMap.FirstRepeatIsFirst` | velox/functions/sparksql/tests/StringToMapTest.cpp:60-63 | the reported position is the least one that repeats an earlier key |
| `StringToMap.DuplicateKeyMessage` | velox/functions/sparksql/tests/StringToMapTest.cpp:63 | no ensures; the duplicate-key error text; `StringToMapTests.DuplicateKeyMessageText` states it for key "a" |
| `StringToMap.StrToMap` | velox/functions/sparksql/tests/StringToMapTest.cpp:25-36 | succeeds iff the parsed keys are distinct, with the parsed entries; a failure is the duplicate-key message for an entry whose key occurs earlier and whose preceding keys are all distinct, that is, the first repeat |
| `StringToMap.StrToMapRoundTrip` | velox/functions/sparksql/tests/StringToMapTest.cpp:40-52 | the entries of a successful call spell out the input text again |
| `StringToMap.ParseUnparse` | velox/functions/sparksql/tests/StringToMapTest.cpp:40-52 | entries whose keys hold neither delimiter and whose values hold no entry delimiter parse back from their text |
| `StringToMap.StrToMapOfUnparse` | velox/functions/sparksql/tests/StringToMapTest.cpp:40-52 | such entries with distinct keys are exactly what `str_to_map` returns for their text |
| `StringToMap.StrToMapOfUnparseRepeat` | velox/functions/sparksql/tests/StringToMapTest.cpp:60-63 | for such entries whose first repeated key is at `j`, the call fails naming that key |
| `StringToMap.StrToMapEntryCount` | velox/functions/sparksql/tests/StringToMapTest.cpp:40-41 | a successful call has one entry more than the text has entry delimiters |
| `StringToMap.StrToMapEmptyText` | velox/functions/sparksql/tests/StringToMapTest.cpp:43 | the empty text gives one entry with an empty key and a null value, for any delimiters |
| `StringToMap.StrToMapSameDelimiters` | velox/functions/sparksql/tests/StringToMapTest.cpp:53-59 | with equal delimiters every value is null |
| `StringToMapTests.ColonAndComma` | velox/functions/sparksql/tests/StringToMapTest.cpp:40-41 | "a:1,b:2,c:3" gives a→1, b→2, c→3 |
| `StringToMapTests.ValueIsNotTrimmed` | velox/functions/sparksql/tests/StringToMapTest.cpp:42 | "a: ,b:2" gives a→" ", b→2 |
| `StringToMapTests.EmptyText` | velox/functions/sparksql/tests/StringToMapTest.cpp:43-47 | "" gives one empty key with a null value, with ':' and with '=' |
| `StringToMapTests.KeyWithoutValue` | velox/functions/sparksql/tests/StringToMapTest.cpp:44 | "a" gives a→null |
| `StringToMapTests.EqualsSign` | velox/functions/sparksql/tests/StringToMapTest.cpp:45-46 | "a=1,b=2,c=3" with '=' gives a→1, b→2, c→3 |
| `StringToMapTests.LetterDelimiter` | velox/functions/sparksql/tests/StringToMapTest.cpp:48-50 | "a::1,b::2,c::3" with 'c' gives ""→"::3", "a::1"→null, "b::2"→null |
| `StringToMapTests.UnderscoreEntries` | velox/functions/sparksql/tests/StringToMapTest.cpp:51-52 | "a:1_b:2_c:3" with '_' gives a→1, b→2, c→3 |
| `StringToMapTests.SameDelimitersComma` | velox/functions/sparksql/tests/StringToMapTest.cpp:54-56 | "a:1,b:2,c:3" with ',' twice gives three keys with null values |
| `StringToMapTests.SameDelimitersUnderscore` | velox/functions/sparksql/tests/StringToMapTest.cpp:57-59 | "a:1_b:2_c:3" with '_' twice gives three keys with null values |
| `StringToMapTests.DuplicateKey` | velox/functions/sparksql/tests/StringToMapTest.cpp:60-63 | "a:1,b:2,a:3" fails with the duplicate-key error for "a" and returns no map |
| `StringToMapTests.DuplicateKeyMessageText` | velox/functions/sparksql/tests/StringToMapTest.cpp:63 | that error reads "Duplicate keys are not allowed: ('a')." |

## Left out

- Columnar vectors, row batches, expression evaluation and vector comparison are not modelled. The model works on one array value or one string at a time.
- A null array value is not modelled. The test helper always builds a non-null array, so `ArrayMax` takes a sequence.
- SQL expression text, the function registry and dispatch on the element type are not modelled. Each element type's order is passed to `ArrayMax` directly.
- Date text parsing is not modelled. `Epoch` and `Aug23Of2023` are day counts worked out by hand.
- `Timestamp.h` is not part of this model. `TimestampMin` and `TimestampMax` are taken to be the extreme 64-bit seconds values, with no fraction and with 999999999 nanos. `FromMicros` is taken to split with floor division.
- IEEE-754 bit patterns, rounding, infinities and the tolerance of `EXPECT_FLOAT_EQ` are not modelled. A float is a real number or NaN, so both zeros are the same value. Decimal test literals are taken as exact reals; this keeps the order between the test values.
- Strings are sequences of characters compared by code point. For UTF-8 text this is the same order as comparing the bytes. The inline/out-of-line storage of short strings has no effect on the order, so it is not modelled.
- The typed-test machinery is not modelled. The integral and floating-point test lemmas take the width as a parameter instead.
- The order of map entries is not claimed. `StrToMap` returns entries in input order, and the test lemmas compare results without regard to order.
- Delimiters are single characters, as in every test. The SQL call takes them as strings, and empty or multi-character delimiter strings are not modelled.
- The exception type of the duplicate-key failure is not modelled. The model keeps only the failure and its message.
