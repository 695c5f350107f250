# GlobalPhone number engine in Dafny

A model of the number-normalisation and formatting engine of GlobalPhone
(`src/GlobalPhone/Territory.cs` and `src/GlobalPhone/Number.cs`), with proofs
of what it does.

- `wrappers.dfy`: `Option` (a .NET reference that may be null) and `Result`
  (a value or a thrown exception).
- `patterns.dfy`: the regular expressions that come from territory data. The
  engine is not modelled: a `Regex` is its first match in a string (`scan`) and
  its expansion of a replacement template (`substitute`). `WellFormed` states
  the two facts of the .NET engine the model relies on: a match lies inside
  its string, and an empty template expands to nothing.
- `normalization.dfy`: the static part of `Number`: `Normalize` and the four
  fixed regexes `^\++`, `[^,#+\*\d]`, `^(\d+)\W*(.*)$` and `[^\d]`, modelled
  exactly over ASCII, and .NET's ordinal `String.Replace`.
- `territory.dfy`: `Region`, `Format` and `Territory` as read-only datatypes,
  national-prefix stripping with its rollback, the possible-number check, and
  territory equality and hashing. `Region` and `Format` are defined outside
  `Territory.cs` and `Number.cs` and are modelled abstractly: their fields are
  data and their behaviour (`Match`, `Apply`, `FirstInPattern`) is given as
  function fields.
- `number.dfy`: format selection, validity, the national and international
  renderings and the area-code and local-number split, each as a function of
  the territory and the national string. The class `Number` holds the .NET
  object's memo cells (`_format`, `_nationalFormat`, `_internationalFormat`,
  `_internationalString`). Its getters are proved to return those functions'
  values and to keep every filled cell equal to a fresh computation. Like the
  `??` in the source, a getter whose value is null leaves its cell empty.
  `ParseNationalString` builds a `Number` or fails with `FailedToParseNumber`.
- `scenarios.dfy`: a worked territory with national prefix and country code
  `1`, ten-digit national numbers and one `$1-$2-$3` format. It is proved for
  every ten-digit number: parsing, all renderings, validity, and the round
  trip from national format back to national string. A second version of it
  has the formatting rule `$NP ($FG)`, which renders `1 (ddd) ddd-dddd`.

Behaviour of the code worth knowing:

- `Normalize` is not idempotent. The `+` collapse runs before the noise is
  deleted, so `"a++1"` gives `"++1"`, and normalizing that gives `"+1"`
  (`NormalizeNotIdempotent`). `NormalizeIdempotentIff` states exactly when a
  second pass changes nothing.
- An empty but non-null list of valid formats makes `IsValid` false. Only a
  null list takes the fallback "a format is found and the national pattern
  accepts" (`IsValidCases`).
- The formatting rule is the format's own, else the territory's. There is no
  region-level fallback (`NationalPrefixFormattingRule`).
- `ParseNationalString` does not deal with a leading `+` and country code.
  `+1` followed by a ten-digit number is rejected in the worked territory
  (`ExampleWithCountryCode`).
- The area code is the digits of the rewritten formatting rule, so a rule that
  mentions `$NP` puts the national prefix into the area code: under `$NP ($FG)`
  with prefix `1`, the area code of `6502530000` is `1650`
  (`ExampleRuleRendering`).

## Model

| member | source | states |
|---|---|---|
| `Patterns.ReplaceFirst` | src/GlobalPhone/Territory.cs:95 | `Replace(str, rule, 1)` keeps the string when nothing matches. Otherwise the text before the first match is kept, the expansion of `rule` follows it, and then the text after the match. The length changes by the expansion minus the match. |
| `Normalization.StripNonDialable` | src/GlobalPhone/Number.cs:140 | Every character of the result is dialable (`[0-9,#+*]`). The result is no longer than the input, and a text that is all dialable is unchanged. |
| `Normalization.StripNonDigits` | src/GlobalPhone/Number.cs:162 | The result is all digits and no longer than the input; an all-digit text is unchanged. |
| `Normalization.CollapseLeadingPluses` | src/GlobalPhone/Number.cs:139 | A text without a leading `+` is unchanged. Otherwise the result starts with exactly one `+`, followed by the text after its whole leading `+` run. |
| `Normalization.Normalize` | src/GlobalPhone/Number.cs:152-157 | Null gives `""`. Every output character is dialable, and the output is no longer than the input. |
| `Normalization.NormalizeKeepsDigits` | src/GlobalPhone/Number.cs:152-157 | The digit subsequence of the output equals that of the input. |
| `Normalization.NormalizeDialable` | src/GlobalPhone/Number.cs:152-157 | On text that is already dialable, normalizing only collapses the leading `+` run. |
| `Normalization.NormalizeIdempotentIff` | src/GlobalPhone/Number.cs:154-156 | Normalizing a second time changes nothing exactly when the first result does not start with `++`. |
| `Normalization.NormalizeNotIdempotent` | src/GlobalPhone/Number.cs:154-156 | `"a++1"` normalizes to `"++1"`, and that normalizes to `"+1"`. |
| `Normalization.SplitFirstGroup` | src/GlobalPhone/Number.cs:141 | The match succeeds exactly when the text starts with a digit. Group 1 is then the maximal leading digit run, and group 2 is the rest after the following non-word characters. |
| `Normalization.GreedySplitIsUnique` | src/GlobalPhone/Number.cs:141 | Any split of that greedy shape is the one `SplitFirstGroup` returns. |
| `Normalization.ReplaceAll` | src/GlobalPhone/Number.cs:170 | .NET's ordinal `String.Replace`. Its contract is in `ReplaceAllAbsent` and `ReplaceAllFirstOccurrence`. |
| `Normalization.ReplaceAllFirstOccurrence` | src/GlobalPhone/Number.cs:170 | At the first occurrence of the placeholder, it is replaced and the scan goes on after it. For `s == a + old + b`, where `old` starts nowhere inside `a`, the result is `a + new + ReplaceAll(b)`. |
| `Normalization.ReplaceAllAbsent` | src/GlobalPhone/Number.cs:170 | `String.Replace` leaves a text without the placeholder unchanged. |
| `Territories.Possible` | src/GlobalPhone/Territory.cs:69-72 | The possible pattern tested with null read as `""`. Its contract is in `ExampleParse`, `ExampleTooShort` and `ParseNationalString`. |
| `Territories.NationalNumber` | src/GlobalPhone/Territory.cs:84-87 | The national pattern tested with null read as `""`. Its contract is in `NeitherBranch` (a null candidate is accepted exactly when `""` is) and `StripRollback`. |
| `Territories.StartsWithNationalPrefix` | src/GlobalPhone/Territory.cs:104-107 | A non-null national prefix that starts the string. Its contract is in `LiteralBranch`, which gives `NationalPrefix + candidate == input`. |
| `Territories.PrefixCandidate` | src/GlobalPhone/Territory.cs:91-100 | The candidate is null exactly when the parsing pattern does not match and the literal prefix is absent. |
| `Territories.StripNationalPrefix` | src/GlobalPhone/Territory.cs:89-102 | The result is the input, or it is the candidate and satisfies the national pattern. |
| `Territories.StripRollback` | src/GlobalPhone/Territory.cs:101 | A candidate that is a national number is returned. Any other candidate is rolled back to the input. |
| `Territories.TransformBranchExcludesLiteral` | src/GlobalPhone/Territory.cs:92-100 | When the parsing pattern matches, the candidate is the input with only its first match replaced by the transform rule (null read as `""`). The result does not depend on the literal national prefix. |
| `Territories.NullTransformRuleDeletesMatch` | src/GlobalPhone/Territory.cs:94-95 | With no transform rule, the first match is deleted and everything else is kept. |
| `Territories.LiteralBranch` | src/GlobalPhone/Territory.cs:97-107 | Without a parsing match, a candidate exists exactly when the national prefix is non-null and starts the input. Then `NationalPrefix + candidate == input`. |
| `Territories.NeitherBranch` | src/GlobalPhone/Territory.cs:84-101 | When no branch applies, the input is returned if the national pattern rejects `""`, and null is returned if it accepts `""`. |
| `Territories.ToNationalNumber` | src/GlobalPhone/Territory.cs:79-82 | The result is the normalized input or a national number. |
| `Territories.NotPossibleMessage` | src/GlobalPhone/Territory.cs:66 | The exception message starts with `"not possible for "`. |
| `Territories.EqualsTerritory` | src/GlobalPhone/Territory.cs:117-122 | `Equals(Territory)`: false for null, otherwise by name. Its contract is in `EqualsByName` and `EqualsIsEquivalence`. |
| `Territories.Equals` | src/GlobalPhone/Territory.cs:109-115 | `Equals(object)`: false for null and for another type, otherwise `Equals(Territory)`. Its contract is in `EqualsIsEquivalence` and `EqualsHashCode`. |
| `Territories.EqualsByName` | src/GlobalPhone/Territory.cs:117-122 | Two territories are equal exactly when their names are equal. |
| `Territories.EqualsIsEquivalence` | src/GlobalPhone/Territory.cs:109-122 | Equality is reflexive, symmetric and transitive. It is false for null and for objects of another type. |
| `Territories.GetHashCode` | src/GlobalPhone/Territory.cs:124-127 | A null name hashes to 0. |
| `Territories.EqualsHashCode` | src/GlobalPhone/Territory.cs:109-127 | Equal territories have equal hash codes, whatever the string hash is. |
| `Numbers.FirstMatchIndex` | src/GlobalPhone/Number.cs:135 | The result is the index of the first format that matches in the given pass, or none when no format matches. |
| `Numbers.FindFormatFor` | src/GlobalPhone/Number.cs:133-137 | The result is null exactly when no format matches in either pass. |
| `Numbers.FindFormatForTwoPass` | src/GlobalPhone/Number.cs:133-137 | The first strict match wins. The first loose match is chosen only when no format matches strictly. |
| `Numbers.AnyValidPattern` | src/GlobalPhone/Number.cs:96-98 | True exactly when some listed pattern matches. |
| `Numbers.MatchAnyValidPattern` | src/GlobalPhone/Number.cs:90-100 | It throws (`None`) exactly when the list of valid formats is null. |
| `Numbers.IsValidOf` | src/GlobalPhone/Number.cs:72-88 | A valid number is accepted by the national or the possible pattern. With a null list, a valid number also has a format. The rest of its contract is in `IsValidCases`. |
| `Numbers.IsValidCases` | src/GlobalPhone/Number.cs:72-100 | The result is false when neither the national nor the possible pattern matches, even with a null list. With a list, it is true exactly when (national or possible matches) and some listed pattern matches, so an empty list gives false. With a null list, it is `Format != null && national matches`. |
| `Numbers.NationalPrefixFormattingRule` | src/GlobalPhone/Number.cs:54-57 | A non-null rule of the format wins. Otherwise the territory's rule is used, null included, so the result is null only when both are null. |
| `Numbers.FormattedPrefix` | src/GlobalPhone/Number.cs:64-65 | `$NP` is replaced by the national prefix, then `$FG` by the first group. Its contract is in `FormattedPrefixWithoutPlaceholders` and, for `$NP ($FG)`, in `ParenthesizedRule`. |
| `Numbers.FormattedPrefixWithoutPlaceholders` | src/GlobalPhone/Number.cs:64-65 | A rule without `$NP` and `$FG` is used unchanged. |
| `Numbers.ApplyNationalPrefixFormat` | src/GlobalPhone/Number.cs:58-70 | The templated result is changed only when the effective rule is non-null and non-empty and the result starts with a digit. What it then becomes is in `NationalFormatWithRule`. |
| `Numbers.NationalFormatOf` | src/GlobalPhone/Number.cs:39-53 | The national format. Its contract is in `NationalFormatFallback`, `NationalFormatWithRule`, `NationalFormatUnchanged` and `AreaCodeLocalNumberDecomposition`. |
| `Numbers.NationalFormatFallback` | src/GlobalPhone/Number.cs:39-53 | Without a format, or when the national template gives null, the national format is the national string. |
| `Numbers.NationalFormatWithRule` | src/GlobalPhone/Number.cs:58-70 | Assume a non-empty rule and a templated result that splits as `firstGroup + separator + rest`. The result is the rule with `$NP` and `$FG` replaced, then `" "`, then `rest`. |
| `Numbers.NationalFormatUnchanged` | src/GlobalPhone/Number.cs:58-70 | With a null or empty rule, or a templated result not starting with a digit, the templated result is returned unchanged. |
| `Numbers.InternationalLead` | src/GlobalPhone/Number.cs:119-121 | `"+" + CountryCode + " "` with null read as `""`. Its contract is in `InternationalFormatOf`, which says every international format starts with it. |
| `Numbers.InternationalBody` | src/GlobalPhone/Number.cs:115-121 | The international template, else the national string. Its contract is in `InternationalFormatOf` and `InternationalStringOf`. |
| `Numbers.InternationalFormatOf` | src/GlobalPhone/Number.cs:107-124 | The result always starts with `"+" + CountryCode + " "`. Without a format, the national string follows. |
| `Numbers.InternationalStringOf` | src/GlobalPhone/Number.cs:126-131 | The result is all dialable. It is `"+"`, then the dialable characters of the country code, then those of the international template or national string. |
| `Numbers.InternationalStringIsNormalized` | src/GlobalPhone/Number.cs:130 | With a non-empty all-digit country code, normalizing the dialable international string changes nothing. |
| `Numbers.AreaCodeOf` | src/GlobalPhone/Number.cs:163-175 | With a rule in effect, the area code is non-null and all digits. Without one, it is the format's `FirstInPattern`. |
| `Numbers.LocalNumberOf` | src/GlobalPhone/Number.cs:185-191 | Without an area code, the local number is the national format. With one, it is a suffix of the national template; `LocalNumberIsRest` and `LocalNumberWithoutSplit` give its exact value. |
| `Numbers.LocalNumberIsRest` | src/GlobalPhone/Number.cs:185-191 | Whenever there is an area code, from a rule (an empty one included) or from `FirstInPattern`, the local number is group 2 of the greedy split of the national template. |
| `Numbers.LocalNumberWithoutSplit` | src/GlobalPhone/Number.cs:185-191 | Whenever there is an area code and the national template does not start with a digit, the failed match reports group 2 as `""`, so the local number is `""`. |
| `Numbers.AreaCodeLocalNumberDecomposition` | src/GlobalPhone/Number.cs:163-191 | Assume a non-empty rule and a template that splits greedily. The national format is a prefix part, `" "` and the local number, and the area code is the digits of that prefix part. |
| `Numbers.Number.constructor` | src/GlobalPhone/Number.cs:146-150 | A new number has its territory and national string, and all its memo cells are empty. |
| `Numbers.Number.MatchedFormat` | src/GlobalPhone/Number.cs:102-105 | Returns `FindFormatFor` of the national string. The cell then holds the result (empty when it is null). |
| `Numbers.Number.NationalFormat` | src/GlobalPhone/Number.cs:39-53 | Returns the national format and caches it. The format cell is filled only on first use. |
| `Numbers.Number.IsValid` | src/GlobalPhone/Number.cs:72-88 | Returns the validity decision. Only the format cell may change. |
| `Numbers.Number.InternationalFormat` | src/GlobalPhone/Number.cs:107-124 | Returns the international format and caches it. |
| `Numbers.Number.InternationalString` | src/GlobalPhone/Number.cs:126-131 | Returns the dialable international string and caches it, filling the international-format cell on first use. |
| `Numbers.Number.AreaCode` | src/GlobalPhone/Number.cs:163-175 | Returns the area code; afterwards the format cell holds the format. |
| `Numbers.Number.LocalNumber` | src/GlobalPhone/Number.cs:185-191 | Returns the local number. The national-format cell is either untouched or filled with the result. |
| `Numbers.ParseNationalString` | src/GlobalPhone/Territory.cs:61-67 | Succeeds exactly when the normalized, prefix-stripped string is possible. It then returns a fresh number with that national string and empty cells. Otherwise it fails with `"not possible for " + Name`. |
| `Scenarios.ExampleParse` | src/GlobalPhone/Territory.cs:61-82 | `1` followed by any ten-digit number loses the national prefix and is possible. |
| `Scenarios.ExampleRendering` | src/GlobalPhone/Number.cs:39-191 | A ten-digit number renders as `ddd-ddd-dddd`, `+1 ddd-ddd-dddd` and `+1` plus its digits. Its area code is the first three digits and its local number is the rest. It is valid through the null-list fallback. |
| `Scenarios.ExampleRoundTrip` | src/GlobalPhone/Territory.cs:79-102 | Parsing the national format gives the national string back. For numbers starting with `1`, this holds through the rollback. |
| `Scenarios.ParenthesizedRule` | src/GlobalPhone/Number.cs:64-65 | With national prefix `1`, the rule `$NP ($FG)` becomes `1 (`, then the first group, then `)`, for any first group. |
| `Scenarios.ExampleRuleRendering` | src/GlobalPhone/Number.cs:39-191 | Under the rule `$NP ($FG)`, a ten-digit number renders nationally as `1 (ddd) ddd-dddd`. Its area code is `1` followed by the first three digits, and its local number is `ddd-dddd`. |
| `Scenarios.ExampleRuleRoundTrip` | src/GlobalPhone/Territory.cs:79-102 | Parsing `1 (ddd) ddd-dddd` removes the punctuation and the national prefix, which gives the national string back. |
| `Scenarios.ExampleWithCountryCode` | src/GlobalPhone/Territory.cs:61-67 | `+1` followed by a ten-digit number is neither stripped nor possible. |
| `Scenarios.ExampleTooShort` | src/GlobalPhone/Territory.cs:61-67 | `123` is rolled back to `123` and is not possible. |

## Left out

- The regular-expression engine. Territory and format patterns are data, so a `Regex` is given by its first match and its template expansion. .NET's replacement syntax (`$1`, `${name}`, ...) is not modelled.
- Unicode in the fixed regexes: `\d` and `\w` are ASCII here, while .NET also accepts other Unicode digits and letters. The newline rules of `.` and `$` in `^(\d+)\W*(.*)$` are not modelled; `.` matches every character.
- `Format` and `Region` are defined outside `Territory.cs` and `Number.cs` and are modelled abstractly. A format's `Match`, `Apply` and `FirstInPattern` are function fields, and region data is plain fields. The region's `InternationalPrefix` is not read by the engine and is left out.
- Record loading: the `Record` base, `Field<...>`, the `^(...)$` wrapping of loaded patterns, and the flattening of the valid-format list. A territory is given with its patterns and its `(label, pattern)` list directly.
- `Territory.Normalize` with `E161` is not on the parse path and is left out.
- `StartsWithNationalPrefix`: .NET's `StartsWith(string)` compares by the current culture. The model uses a plain prefix test.
- `Territories.GetHashCode`: the runtime's string hash is a parameter, because it is not specified.
- `Territories.Equals`: subclasses of `Territory` are left out. The type test in `Equals(object)` looks only at the argument, and the same-reference test comes first. `Equals(Territory)` has no type test. So once subclasses exist, equality is asymmetric: `sub.Equals((object)t)` holds when the names are equal, but `t.Equals((object)sub)` does not. The model has only `Territory` values, and every object of another type is `OtherObject`.
- `Numbers.Number`: its getters require a non-null national string. Parsing yields a null national string only when no prefix branch applies and both patterns accept `""`. With a null national string and no formats, `FindFormatFor` calls no `Match`. Then `NationalFormat` returns null, `InternationalFormat` returns `"+" + CountryCode + " "`, and `InternationalString` returns `"+"` and the dialable characters of the country code. `IsValid` throws `ArgumentNullException` from `NationalPattern.Match(null)`. `AreaCode` and `LocalNumber` throw `NullReferenceException` when they read the rule of the missing format. With formats, what `Format.Match(null)` does is outside this model.
- `Numbers.AreaCodeOf`, `Numbers.LocalNumberOf` and the matching `Number` getters: they require a format to be found, because `Format.NationalPrefixFormattingRule` is dereferenced. They also require a non-null national template wherever the code matches it against `SplitFirstGroup`. Otherwise the code throws.
- Round trip of national formats in general: re-parsing a national format gives back the national string only for formats whose templates keep the digits. This depends on format data and is proved for the two worked territories only.
- `ToString`, the exception classes' constructors and serialization, and the accessors that only forward to the region (`CountryCode`, `NationalPrefix`, ...), which are field reads here.
- Thread safety of the memo cells: the model is sequential.
