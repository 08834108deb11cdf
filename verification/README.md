# VaPe.SourceGenerators attribute helpers, modelled in Dafny

VaPe.SourceGenerators gives C# source generators two small sets of helpers
over Roslyn syntax:

- **`AttributeExtensions`** reads an attribute's argument list into a
  dictionary from property name to value. It walks the arguments in order and
  keeps only the literal ones. Each literal is decoded by its kind:
  - `true` and `false` become booleans;
  - a numeric literal becomes a 32-bit `int` if `int.TryParse` accepts its
    text, otherwise a `decimal` if `decimal.TryParse` does, otherwise `0`;
  - any other literal becomes its text with every leading and trailing `"`
    trimmed.

  The key is the `Name =` clause trimmed, stripped of trailing `=` and
  trimmed again, or `""` for an argument without such a clause.
  `Dictionary.Add` throws on a key it already holds.

  Two lookups sit on top. `GetAttributeProperty` returns the stored value or
  `null`. `GetAttributeProperty<T>` returns the value when it is a `T`, and
  `default(T)` otherwise.
- **`SourceGeneratorExtension`** finds a type declaration's attributes. It
  lists all of them, or those written with a given simple name, or the first
  of those. The query may carry the conventional `Attribute` suffix.

The model has six modules, one per file:

- `Wrappers`: `Option` and `Result`.
- `Text`: the .NET `Trim()`, `Trim(char)`, `TrimEnd(char)` and `EndsWith`, all
  with ordinal comparison. `Trim()` uses the 25 characters for which
  `char.IsWhiteSpace` holds.
- `NumberParsing`: `int.TryParse` and `decimal.TryParse` with an invariant
  culture.
- `Syntax`: the Roslyn nodes the helpers read, as plain datatypes.
- `AttributeExtensions`.
- `SourceGeneratorExtension`.

Null and exceptions are `Option` and `Result`. The dictionary is a sequence
of entries in insertion order. `GetAttributeProperties` keeps its loop: it is
a method proved equal to a left fold (`Extract`). The fold is in turn
characterised without reference to the loop. It succeeds exactly when the
decoded literal arguments have distinct keys, and it then returns exactly
those entries in argument order.

Some behaviour follows from the code and may surprise a reader:

- Quotes are trimmed from both ends without limit, not as one pair.
- Arguments that are not literals contribute nothing, not their raw text.
- Two positional literal arguments both get the key `""`, so extraction
  fails.
- An attribute written `[FooAttribute]` is found neither by `"Foo"` nor by
  `"FooAttribute"`.

## Model

| member | source | states |
|---|---|---|
| Text.TrimEnd | VaPe.SourceGenerators.AttributeExtensions/AttributeExtensions.cs:32 | `TrimEnd('=')` returns a prefix of its input, everything it cut belongs to the set, and it never ends with a character of the set |
| Text.Trim | VaPe.SourceGenerators.AttributeExtensions/AttributeExtensions.cs:29 | `Trim()` / `Trim('"')` return the slice between a leading and a trailing run of the set; the result neither starts nor ends with a character of the set |
| Text.TrimSurrounded | VaPe.SourceGenerators.AttributeExtensions/AttributeExtensions.cs:29 | trimming removes any surrounding runs of the set and nothing else |
| Text.TrimNameClause | VaPe.SourceGenerators.AttributeExtensions/AttributeExtensions.cs:32 | trim, `TrimEnd(sep)`, trim of `lead + name + gap + sep + trail` is `name`, for padding from the trimmed set |
| Text.EndsWith | VaPe.SourceGenerators.AttributeExtensions/SourceGeneratorExtension.cs:19 | ordinal `EndsWith`: as many trailing characters as `suffix` has equal those of `suffix`, one by one |
| Text.EndsWithAppend | VaPe.SourceGenerators.AttributeExtensions/SourceGeneratorExtension.cs:19 | a string ends with `suffix` exactly when it is its own prefix followed by `suffix` |
| NumberParsing.ParseInt32 | VaPe.SourceGenerators.AttributeExtensions/AttributeExtensions.cs:41 | `int.TryParse` only succeeds with a value inside the 32-bit range; its value on padded digits is `ParseInt32Padded` |
| NumberParsing.ParseTrimmedInt32 | VaPe.SourceGenerators.AttributeExtensions/AttributeExtensions.cs:41 | after white space is gone, only a value inside the 32-bit range is accepted |
| NumberParsing.ParseDecimal | VaPe.SourceGenerators.AttributeExtensions/AttributeExtensions.cs:46 | `decimal.TryParse` only succeeds with a scale smaller than the text's length; its values are pinned by `ParseDecimalPadded`, `ParsePointedPadded` and `ForeignCharRejected` |
| NumberParsing.ParseTrimmedDecimal | VaPe.SourceGenerators.AttributeExtensions/AttributeExtensions.cs:46 | after white space is gone, the scale is smaller than the text's length |
| NumberParsing.Int32ParseAgreesWithDecimal | VaPe.SourceGenerators.AttributeExtensions/AttributeExtensions.cs:41-48 | whatever `int.TryParse` accepts, `decimal.TryParse` accepts as the same number with scale 0 |
| NumberParsing.ParseInt32Padded | VaPe.SourceGenerators.AttributeExtensions/AttributeExtensions.cs:41 | digits with leading zeros and number white space around them parse as an `int` exactly when the value is at most 2147483647, and then to that value |
| NumberParsing.ParseDecimalPadded | VaPe.SourceGenerators.AttributeExtensions/AttributeExtensions.cs:46 | padded digits parse as the scale-0 `decimal` of their value |
| NumberParsing.ParsePointedPadded | VaPe.SourceGenerators.AttributeExtensions/AttributeExtensions.cs:41-46 | padded `whole.fraction` is rejected by `int.TryParse` and parses as the `decimal` of scale `|fraction|` |
| NumberParsing.NatTextRoundTrip | VaPe.SourceGenerators.AttributeExtensions/AttributeExtensions.cs:41 | the value of the shortest decimal numeral of `n` is `n` |
| NumberParsing.ParseInt32Digits | VaPe.SourceGenerators.AttributeExtensions/AttributeExtensions.cs:41 | a digit string parses as an `int` exactly when its value is at most 2147483647, and then to that value |
| NumberParsing.ParseDecimalDigits | VaPe.SourceGenerators.AttributeExtensions/AttributeExtensions.cs:46 | a digit string of any length parses as the `decimal` of its value with scale 0 |
| NumberParsing.ParseDecimalPoint | VaPe.SourceGenerators.AttributeExtensions/AttributeExtensions.cs:46 | `whole.fraction` parses as the `decimal` of the digits' value with scale `|fraction|` |
| NumberParsing.ParseInt32RejectsPoint | VaPe.SourceGenerators.AttributeExtensions/AttributeExtensions.cs:41 | `int.TryParse` rejects `whole.fraction` |
| NumberParsing.ForeignCharRejected | VaPe.SourceGenerators.AttributeExtensions/AttributeExtensions.cs:41-49 | text holding a suffix letter, hex prefix, exponent or `_` is rejected by both parsers |
| AttributeExtensions.DefaultOf | VaPe.SourceGenerators.AttributeExtensions/AttributeExtensions.cs:86 | `default(T)` is a value of type `T` for `bool`, `int` and `decimal`, and `null` exactly for `string` |
| AttributeExtensions.ParseNumericLiteral | VaPe.SourceGenerators.AttributeExtensions/AttributeExtensions.cs:39-52 | the result is an `int` within 32 bits or a `decimal`; the parsed `int` when `int.TryParse` succeeds; whenever `decimal.TryParse` succeeds, that same number (as the `decimal` or an equal `int`); `0` when neither parses |
| AttributeExtensions.DecodeLiteral | VaPe.SourceGenerators.AttributeExtensions/AttributeExtensions.cs:24-30 | a bool exactly for the `true`/`false` kinds, with the kind's truth value; a number exactly for the numeric kind; for every other kind the text with all leading and trailing `"` trimmed |
| AttributeExtensions.KeyOf | VaPe.SourceGenerators.AttributeExtensions/AttributeExtensions.cs:32 | no clause gives `""`; any key neither starts nor ends with white space |
| AttributeExtensions.EntryOf | VaPe.SourceGenerators.AttributeExtensions/AttributeExtensions.cs:19-33 | an argument yields an entry exactly when its expression is a literal, keyed by its name clause |
| AttributeExtensions.Insert | VaPe.SourceGenerators.AttributeExtensions/AttributeExtensions.cs:32 | `Dictionary.Add` fails exactly on a present entry whose key is already held; on success the dictionary is the old one with that entry appended (unchanged for a non-literal argument), and keys stay distinct |
| AttributeExtensions.InsertAll | VaPe.SourceGenerators.AttributeExtensions/AttributeExtensions.cs:15-35 | the fold of `Add` over the arguments only ever yields a dictionary with distinct keys |
| AttributeExtensions.Extract | VaPe.SourceGenerators.AttributeExtensions/AttributeExtensions.cs:13-37 | what `GetAttributeProperties` returns: a dictionary with distinct keys, or the duplicate-key failure; characterised by `ExtractMatchesDecoded` |
| AttributeExtensions.GetAttributeProperties | VaPe.SourceGenerators.AttributeExtensions/AttributeExtensions.cs:13-37 | the loop computes `Extract`; it succeeds exactly when the decoded keys are distinct, then returns all decoded entries in order; a failure's key is carried by two decoded entries |
| AttributeExtensions.InsertAllFailurePersists | VaPe.SourceGenerators.AttributeExtensions/AttributeExtensions.cs:32 | once `Add` has thrown on a prefix, later arguments do not change the outcome |
| AttributeExtensions.InsertAllMatchesPresent | VaPe.SourceGenerators.AttributeExtensions/AttributeExtensions.cs:15-35 | the fold of `Add` succeeds exactly when the present entries' keys are distinct, and then yields exactly those entries; on failure the reported key occurs twice |
| AttributeExtensions.ExtractMatchesDecoded | VaPe.SourceGenerators.AttributeExtensions/AttributeExtensions.cs:13-37 | the same three facts at the level of the argument list |
| AttributeExtensions.DistinctKeysCount | VaPe.SourceGenerators.AttributeExtensions/AttributeExtensions.cs:32 | keys are pairwise distinct exactly when no key is counted twice |
| AttributeExtensions.PresentAppend | VaPe.SourceGenerators.AttributeExtensions/AttributeExtensions.cs:17 | entries from concatenated candidate lists come out in concatenated order |
| AttributeExtensions.DecodedAppend | VaPe.SourceGenerators.AttributeExtensions/AttributeExtensions.cs:17-33 | decoding `a + b` is decoding `a` followed by decoding `b` |
| AttributeExtensions.DecodedEntries | VaPe.SourceGenerators.AttributeExtensions/AttributeExtensions.cs:19-33 | an entry is decoded exactly when some argument contributes it, so non-literal arguments contribute nothing |
| AttributeExtensions.RepeatedKeyFails | VaPe.SourceGenerators.AttributeExtensions/AttributeExtensions.cs:32 | two literal arguments with the same key make extraction fail |
| AttributeExtensions.Lookup | VaPe.SourceGenerators.AttributeExtensions/AttributeExtensions.cs:65-67 | a value is found exactly when the key is held, and it is stored under that key |
| AttributeExtensions.GetAttributeProperty | VaPe.SourceGenerators.AttributeExtensions/AttributeExtensions.cs:61-71 | extraction failure propagates unchanged; `null` exactly when the key is missing; a found value is stored under the key |
| AttributeExtensions.GetAttributePropertySpec | VaPe.SourceGenerators.AttributeExtensions/AttributeExtensions.cs:61-71 | after a successful extraction, returns `v` exactly when a literal argument keyed `name` decodes to `v`, and `null` exactly when no literal argument has that key |
| AttributeExtensions.GetTypedAttributeProperty | VaPe.SourceGenerators.AttributeExtensions/AttributeExtensions.cs:80-97 | extraction failure propagates with its error; a missing key gives `default(T)`; any value returned has type `T`; the result is `default(T)` or the untyped result |
| AttributeExtensions.TypedLookupSpec | VaPe.SourceGenerators.AttributeExtensions/AttributeExtensions.cs:80-97 | after a successful extraction: a `T` that a literal argument keyed `name` decodes to is returned as is; when no literal argument keyed `name` holds a `T` (missing key, or a value of another type such as a string where an `int` is asked for), the result is `default(T)` |
| AttributeExtensions.KeyOfNameEquals | VaPe.SourceGenerators.AttributeExtensions/AttributeExtensions.cs:32 | a clause `name =` with any white space around yields the key `name` |
| AttributeExtensions.NumeralDecodes | VaPe.SourceGenerators.AttributeExtensions/AttributeExtensions.cs:39-52 | a numeric literal whose text is digits (leading zeros allowed) with white-space trivia around them decodes to that `int` up to 2147483647 and to a `decimal` of scale 0 above it |
| AttributeExtensions.ShortestNumeralDecodes | VaPe.SourceGenerators.AttributeExtensions/AttributeExtensions.cs:39-52 | every `n` written in the shortest way decodes to `n`, as an `int` up to 2147483647 and as a `decimal` above |
| AttributeExtensions.PointedNumeralDecodes | VaPe.SourceGenerators.AttributeExtensions/AttributeExtensions.cs:39-52 | padded `whole.fraction` decodes to the `decimal` with scale `|fraction|`, never an `int` |
| AttributeExtensions.ForeignNumeralDecodesToZero | VaPe.SourceGenerators.AttributeExtensions/AttributeExtensions.cs:51 | a numeric literal with a suffix, prefix, exponent or `_` decodes to `int` 0 |
| AttributeExtensions.QuotedLiteralDecodes | VaPe.SourceGenerators.AttributeExtensions/AttributeExtensions.cs:29 | every literal kind other than bool and numeric loses every `"` at both ends, not one pair; text made only of quotes becomes empty |
| AttributeExtensions.KeywordLiteralsDecode | VaPe.SourceGenerators.AttributeExtensions/AttributeExtensions.cs:29 | `null` and `default` literals decode to the strings `null` and `default` |
| AttributeExtensions.LeadingTriviaKeepsQuote | VaPe.SourceGenerators.AttributeExtensions/AttributeExtensions.cs:29 | leading white space in the text stops the trimming at the front: the opening quote stays, only the closing one goes |
| AttributeExtensions.CharacterLiteralDecodes | VaPe.SourceGenerators.AttributeExtensions/AttributeExtensions.cs:29 | a character literal keeps its single quotes |
| SourceGeneratorExtension.Flatten | VaPe.SourceGenerators.AttributeExtensions/SourceGeneratorExtension.cs:12 | `SelectMany`: an attribute is listed exactly when some attribute list holds it; order by `FlattenAround`/`FlattenAt` |
| SourceGeneratorExtension.GetAttributes | VaPe.SourceGenerators.AttributeExtensions/SourceGeneratorExtension.cs:9-13 | a declaration's attributes are exactly those its lists hold, in list order then written order (`FlattenAround`) |
| SourceGeneratorExtension.FlattenAppend | VaPe.SourceGenerators.AttributeExtensions/SourceGeneratorExtension.cs:12 | the attributes of concatenated lists are the concatenation of their attributes |
| SourceGeneratorExtension.FlattenAround | VaPe.SourceGenerators.AttributeExtensions/SourceGeneratorExtension.cs:12 | the flattened sequence is the earlier lists' attributes, then list `i`'s in order, then the later lists' |
| SourceGeneratorExtension.FlattenAt | VaPe.SourceGenerators.AttributeExtensions/SourceGeneratorExtension.cs:12 | attribute `j` of list `i` sits at the offset of list `i` plus `j` |
| SourceGeneratorExtension.NormalizeName | VaPe.SourceGenerators.AttributeExtensions/SourceGeneratorExtension.cs:18-22 | a query ending with `Attribute` loses exactly that suffix; any other is unchanged |
| SourceGeneratorExtension.NormalizeNameInverse | VaPe.SourceGenerators.AttributeExtensions/SourceGeneratorExtension.cs:18-22 | the queries that denote `x` are `x + "Attribute"` and `x` itself when `x` does not end with the suffix |
| SourceGeneratorExtension.FilterNamed | VaPe.SourceGenerators.AttributeExtensions/SourceGeneratorExtension.cs:24 | an attribute is kept exactly when it is present and written with the simple name |
| SourceGeneratorExtension.MatchIndices | VaPe.SourceGenerators.AttributeExtensions/SourceGeneratorExtension.cs:24 | the matching positions are increasing, each matches, and every match is among them |
| SourceGeneratorExtension.FilterSelects | VaPe.SourceGenerators.AttributeExtensions/SourceGeneratorExtension.cs:24 | the filter's `k`-th element is the attribute at the `k`-th matching position: an order-preserving subsequence of exactly the matches |
| SourceGeneratorExtension.GetAttributesNamed | VaPe.SourceGenerators.AttributeExtensions/SourceGeneratorExtension.cs:15-25 | returns exactly the declaration's attributes whose name is a simple identifier equal to the normalised query; qualified, generic and alias-qualified names never |
| SourceGeneratorExtension.GetAttributesNamedComplete | VaPe.SourceGenerators.AttributeExtensions/SourceGeneratorExtension.cs:24 | every attribute of every list written with the queried simple name is returned |
| SourceGeneratorExtension.GetAttribute | VaPe.SourceGenerators.AttributeExtensions/SourceGeneratorExtension.cs:27-31 | `null` exactly when no attribute matches; otherwise a matching attribute of the declaration |
| SourceGeneratorExtension.GetAttributeFirst | VaPe.SourceGenerators.AttributeExtensions/SourceGeneratorExtension.cs:30 | the attribute returned is the earliest match |
| SourceGeneratorExtension.SuffixedQueryAgrees | VaPe.SourceGenerators.AttributeExtensions/SourceGeneratorExtension.cs:18-24 | `"Foo"` and `"FooAttribute"` return identical sequences and the same first attribute when `Foo` does not end with the suffix |
| SourceGeneratorExtension.SuffixOnlyQueryDiffers | VaPe.SourceGenerators.AttributeExtensions/SourceGeneratorExtension.cs:18-24 | without that premise they differ: `[Attribute]` is found by `"AttributeAttribute"` and not by `"Attribute"` |
| SourceGeneratorExtension.SuffixedAttributeNotFound | VaPe.SourceGenerators.AttributeExtensions/SourceGeneratorExtension.cs:19-24 | `[FooAttribute]` is found by neither `"Foo"` nor `"FooAttribute"` |

## Left out

- Roslyn itself is not part of this model. `Kind()`, `GetText()`,
  `ToFullString()`, trivia and the `ValueText` unescaping of `@Foo` are plain
  fields of the `Syntax` datatypes. A negative number such as `-1` is a unary
  expression in Roslyn, so it is a `NonLiteral` here.
- `null` inputs. Dafny sequences and strings cannot be `null`. A `null`
  argument list makes every lookup throw `NullReferenceException`. A `null`
  `propertyName` makes `list.ContainsKey` (AttributeExtensions.cs line 65)
  throw `ArgumentNullException`. A `null` `attributeName` makes `EndsWith`
  (SourceGeneratorExtension.cs line 19) throw `NullReferenceException`.
- The argument-type test `attributeParam is AttributeArgumentSyntax` (line
  19). The argument list only ever holds such nodes, so every argument is an
  `Argument`.
- Culture. Number parsing and `EndsWith` use the invariant culture and
  ordinal comparison, whereas .NET uses the current culture.
- NumberParsing.ParseDecimal: does not model `decimal`'s range limit (about
  7.9 × 10^28, beyond which `TryParse` fails), its rounding past 28–29
  significant digits, group separators (`1,000`), a trailing sign, or the
  trailing NUL characters `TryParse` tolerates.
- NumberParsing.ParseInt32: does not model trailing NUL characters.
- AttributeExtensions.GetTypedAttributeProperty: covers the type arguments
  `bool`, `int`, `decimal` and `string` only. For `object`, nullable types or
  numeric conversions such as `long`, the unboxing cast `(T)obj` behaves
  differently.
- The laziness of `IEnumerable` and LINQ. Results are sequences computed at
  once.
- The dictionary's hash table. It is a sequence of entries in insertion
  order, which is how a `Dictionary` without removals enumerates.
