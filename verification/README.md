# map-utility in Dafny

A functional model of the core of `hr.avrbanac.utility`, a small Java library that
reads typed values out of nested `Map`/`List` structures such as parsed JSON or YAML.
The model covers these parts:

- **Utility**: `isWholeNumber`, `isDecimalNumber` and the dot-path tokenizer
  `getValidTokens`. The tokenizer follows Java's `String.split`, which drops trailing
  empty pieces. So `"a.b."` is accepted as `[a, b]` and `"."` gives no tokens.
- **The converter registry** of `MapDecorator`:
  - the constructor, which re-installs the eleven built-in converters;
  - `addConverter`;
  - both `convert` overloads.
- **The built-in converters**: Boolean, Character, Byte, Short, Integer, Long, String,
  Map and List. Float and Double are registry entries whose IEEE parse is a parameter.
- **`MapDecorator.extract`** (both overloads) and `getNodeFromList`. Extraction
  tokenizes the path and walks the maps token by token. A `key[index]` token indexes
  a list, and a negative index counts from the end. Every failure ends in absent.
- **`MapDecorator.Builder`**: `extractBuilder`, `from`, `mapNode`, both `value`
  overloads and the typed readers.

## How the model is organised

Java's `null` is `Option.None`. The untyped `Object` values are the `Node` datatype
(`nodes.dfy`), and the `Class` keys of the registry are the `TypeTag` datatype. The
shared static registry is passed around as a value of type
`map<TypeTag, Option<Node> -> Option<Node>>`. The JDK behaviour the model does not
spell out is held in a `Runtime` value:

- `Object.toString`;
- `Float.parseFloat`;
- `Double.parseDouble`.

The JDK behaviour the library relies on *is* spelled out:

- `String.split` with a one-character delimiter (`strings.dfy`);
- `String.isBlank` with `Character.isWhitespace`;
- `equalsIgnoreCase` on ASCII letters;
- `parseByte/Short/Int/Long` on ASCII digits (`numbers.dfy`).

Java's fixed-width integers are subset types of `int` (`Int8` to `Int64`).

`Extractor.Extract` is the reference definition of `extract`.
`Extractor.ExtractLoop` and `Extractor.Walk` follow the Java loop statement for
statement, and are proved equal to that definition.

`Chain.MapNodes` folds a chain of `mapNode` calls. `Chain.ChainMatchesExtract`
relates a completed chain to a dot-path extraction.

`scenarios.dfy` replays concrete readings on the document
`{"a": {"b": [{"c": 5}, {"c": 7}]}}`.

Two facts about the code are worth stating up front:

- The constructor installs eleven built-in converters, Float and Double included.
- A `key[index]` token is resolved only below the root. A path of a single token such
  as `"b[0]"` is looked up as the literal key `"b[0]"`; see
  `Extractor.IndexOnlyBelowRoot`.

## Model

| member | source | states |
|---|---|---|
| Utility.WholeNumberOfParts | src/main/java/hr/avrbanac/utility/Utility.java:6-8 | every optional `+`/`-` followed by one or more ASCII digits matches `[-+]?\d+` |
| Utility.WholeNumberParts | src/main/java/hr/avrbanac/utility/Utility.java:6-8 | conversely, every whole number is a sign in {"", "+", "-"} followed by a non-empty digit run, and nothing else |
| Utility.DecimalNumberOfParts | src/main/java/hr/avrbanac/utility/Utility.java:10-12 | a whole number, a dot and a non-empty digit run together form a decimal number |
| Utility.WholeNumberIsDecimal | src/main/java/hr/avrbanac/utility/Utility.java:6-12 | every whole number is also a decimal number, and contains no dot |
| Utility.GetValidTokens | src/main/java/hr/avrbanac/utility/Utility.java:14-27 | a null or blank path gives absent; accepted tokens are non-blank and dot-free, and joined with dots they give back the path less its trailing dots |
| Utility.TokensRoundTrip | src/main/java/hr/avrbanac/utility/Utility.java:19-26 | tokenizing the dot-join of any non-empty list of non-blank, dot-free tokens gives exactly that list |
| Utility.TrailingDotIgnored | src/main/java/hr/avrbanac/utility/Utility.java:19 | appending a dot to a non-empty path never changes its tokens, or whether it is rejected |
| Utility.BlankSegmentRejected | src/main/java/hr/avrbanac/utility/Utility.java:19-24 | a blank piece followed later by a non-empty piece rejects the path (".a", "a..b", "a. .b") |
| Utility.OnlyDotsGiveNoTokens | src/main/java/hr/avrbanac/utility/Utility.java:19 | a path of dots alone is accepted with zero tokens rather than rejected |
| Strings.Split | src/main/java/hr/avrbanac/utility/Utility.java:19 | the split of a delimiter-free string is the string itself; no piece holds the delimiter; the pieces joined again are the input less its trailing delimiters; when the delimiter occurs, trailing empty pieces are dropped, so "." splits into no pieces |
| Strings.SplitJoin | src/main/java/hr/avrbanac/utility/Utility.java:19 | splitting the join of delimiter-free pieces whose last piece is non-empty gives exactly those pieces back |
| Numbers.Parse | src/main/java/hr/avrbanac/utility/converters/IntegerConverter.java:21-25 | the JDK parse yields a value exactly for a whole number whose value lies inside the requested range, and that value is the number's |
| Numbers.ParseToString | src/main/java/hr/avrbanac/utility/converters/IntegerConverter.java:21-22 | parsing the canonical decimal text of any in-range value gives that value back |
| Numbers.LeadingZero | src/main/java/hr/avrbanac/utility/converters/IntegerConverter.java:17-22 | a leading zero does not change the value of a digit run |
| Numbers.IntToStringLength32 | src/main/java/hr/avrbanac/utility/converters/IntegerConverter.java:18 | every 32-bit value prints in at most 11 characters, so the length guard never rejects a canonical Integer |
| Numbers.IntToStringLength64 | src/main/java/hr/avrbanac/utility/converters/LongConverter.java:18 | every 64-bit value prints in at most 20 characters, within the guard of 21 |
| Converters.KeywordFacts | src/main/java/hr/avrbanac/utility/converters/BooleanConverter.java:8-9 | the keywords are lower case and at most 5 characters long, and no keyword is in both lists, so the outcome is deterministic |
| Converters.MatchesAnyLower | src/main/java/hr/avrbanac/utility/converters/BooleanConverter.java:23-25 | matching a lower-case keyword list ignoring case is the same as the lower-cased text being a member of it |
| Converters.BooleanConvert | src/main/java/hr/avrbanac/utility/converters/BooleanConverter.java:12-31 | the result is only ever a Boolean; true exactly for Boolean true or text that lower-cases to a TRUE keyword; false exactly for Boolean false or a FALSE keyword; absent otherwise, including numbers and long text |
| Converters.CharacterConvert | src/main/java/hr/avrbanac/utility/converters/CharacterConverter.java:8-27 | null gives absent; a Character passes through; text gives a Character exactly when it is one character long, and that character; any other value gives absent |
| Converters.ByteConvert | src/main/java/hr/avrbanac/utility/converters/ByteConverter.java:8-25 | null gives absent; a Byte passes through; text gives a Byte exactly when it is a whole number in [-128, 127], and its value; any other value gives absent |
| Converters.ShortConvert | src/main/java/hr/avrbanac/utility/converters/ShortConverter.java:8-25 | null gives absent; a Short passes through; text gives a Short exactly when it is a whole number in [-32768, 32767], and its value; any other value gives absent |
| Converters.IntegerConvert | src/main/java/hr/avrbanac/utility/converters/IntegerConverter.java:9-29 | null gives absent; an Integer passes through; text gives an Integer exactly when it has at most 11 characters, is a whole number and is in 32-bit range, and its value; any other value gives absent |
| Converters.LongConvert | src/main/java/hr/avrbanac/utility/converters/LongConverter.java:9-30 | null gives absent; a Long passes through; text gives a Long exactly when it has at most 21 characters, is a whole number and is in 64-bit range, and its value; any other value (an Integer too) gives absent |
| Converters.FloatConvert | src/main/java/hr/avrbanac/utility/converters/FloatConverter.java:9-28 | null gives absent; a Float passes through; text gives a Float exactly when it is a decimal number, namely its parse; any other value gives absent |
| Converters.DoubleConvert | src/main/java/hr/avrbanac/utility/converters/DoubleConverter.java:9-28 | as for Float, with the 64-bit parse |
| Converters.StringConvert | src/main/java/hr/avrbanac/utility/converters/StringConverter.java:8-17 | absent exactly for null; text passes through; any other value becomes its `toString` |
| Converters.MapConvert | src/main/java/hr/avrbanac/utility/converters/MapConverter.java:10-19 | present exactly for a map, and then the very input; a list gives absent |
| Converters.ListConvert | src/main/java/hr/avrbanac/utility/converters/ListConverter.java:10-19 | present exactly for a list, and then the very input; a map gives absent |
| Converters.IntegerRoundTrip | src/main/java/hr/avrbanac/utility/converters/IntegerConverter.java:17-22 | the decimal text of every 32-bit value converts back to that value |
| Converters.LongRoundTrip | src/main/java/hr/avrbanac/utility/converters/LongConverter.java:17-22 | the decimal text of every 64-bit value converts back to that value |
| Converters.ShortRoundTrip | src/main/java/hr/avrbanac/utility/converters/ShortConverter.java:16-18 | the decimal text of every 16-bit value converts back to that value |
| Converters.ByteRoundTrip | src/main/java/hr/avrbanac/utility/converters/ByteConverter.java:16-18 | the decimal text of every 8-bit value converts back to that value |
| Converters.IntegerLeadingZero | src/main/java/hr/avrbanac/utility/converters/IntegerConverter.java:17-22 | "0" followed by up to 10 digits of a 32-bit value reads as that value, so "007" is 7 |
| Converters.CharacterRoundTrip | src/main/java/hr/avrbanac/utility/converters/CharacterConverter.java:12-20 | a character and its one-character text convert to the same Character |
| Converters.PassThroughIdempotent | src/main/java/hr/avrbanac/utility/converters/StringConverter.java:9-16 | converting a converted value again changes nothing (String, Map, List, Boolean, Integer) |
| Registry.Builtins | src/main/java/hr/avrbanac/utility/MapDecorator.java:17-29 | the built-in converters cover exactly the eleven built-in classes |
| Registry.Install | src/main/java/hr/avrbanac/utility/MapDecorator.java:17-29 | constructing a decorator puts the built-in converter under each built-in class and keeps every other registered class unchanged |
| Registry.InstallInstallsBuiltins | src/main/java/hr/avrbanac/utility/MapDecorator.java:17-29 | whatever the registry held before, every built-in class is bound to its built-in converter after construction |
| Registry.InstallOverridesCustom | src/main/java/hr/avrbanac/utility/MapDecorator.java:17-29 | a custom converter registered under a built-in class is silently replaced by constructing another decorator; one under another class survives |
| Registry.AddConverter | src/main/java/hr/avrbanac/utility/MapDecorator.java:37-42 | registering binds the class to the new converter, replacing any earlier one, and leaves every other class as it was |
| Registry.AddConverterDispatch | src/main/java/hr/avrbanac/utility/MapDecorator.java:37-42 | after registering, converting to that class runs the new converter and converting to any other class is unchanged |
| Registry.Convert | src/main/java/hr/avrbanac/utility/MapDecorator.java:69-77 | absent for an unregistered class, otherwise exactly the registered converter's result |
| Registry.ConvertOr | src/main/java/hr/avrbanac/utility/MapDecorator.java:52-59 | the converted value when there is one, otherwise the default |
| Registry.BuiltinIdentity | src/main/java/hr/avrbanac/utility/MapDecorator.java:17-29 | with the built-ins installed, a value that already has the target class converts to itself |
| Registry.BuiltinResultsTyped | src/main/java/hr/avrbanac/utility/MapDecorator.java:17-29 | with the built-ins installed, null converts to absent and every result has the target class |
| Extractor.Lookup | src/main/java/hr/avrbanac/utility/MapDecorator.java:130 | present exactly for a bound key, and then the bound value |
| Extractor.ResolveIndex | src/main/java/hr/avrbanac/utility/MapDecorator.java:152-156 | an index in [0, size) selects that element; one in [-size, 0) selects element size+index; any other index is absent, so the lookup never leaves the list |
| Extractor.NegativeIndexAlias | src/main/java/hr/avrbanac/utility/MapDecorator.java:154-155 | a negative index names the same element as its non-negative counterpart, and that element is in the list |
| Extractor.NodeFromList | src/main/java/hr/avrbanac/utility/MapDecorator.java:142-166 | an element is found exactly when the bracket split gives two pieces, the index is a whole number in 32-bit range and the key is bound to a list, and it is the element at that index (counted from the end when negative) |
| Extractor.IndexTextResolves | src/main/java/hr/avrbanac/utility/MapDecorator.java:146-156 | `key[n]` with `n` any whole-number text in 32-bit range, such as `01`, `+1` or `-0`, selects index value(n) of the list under `key` |
| Extractor.IndexTokenResolves | src/main/java/hr/avrbanac/utility/MapDecorator.java:146-156 | `key[n]` with `n` written canonically selects index `n` of the list under `key` |
| Extractor.EmptyIndexSplit | src/main/java/hr/avrbanac/utility/MapDecorator.java:146-147 | `key[]` does not split into a key and an index |
| Extractor.DoubleIndexSplit | src/main/java/hr/avrbanac/utility/MapDecorator.java:146-147 | `key[i][j]` splits into three pieces, not two |
| Extractor.MalformedIndexExtractsNothing | src/main/java/hr/avrbanac/utility/MapDecorator.java:146-149 | below the root, a bracketed token that does not split into exactly two pieces reads nothing from any document |
| Extractor.EmptyIndexExtractsNothing | src/main/java/hr/avrbanac/utility/MapDecorator.java:146-149 | "outer.key[]" reads nothing from any document |
| Extractor.DoubleIndexExtractsNothing | src/main/java/hr/avrbanac/utility/MapDecorator.java:146-149 | "outer.key[i][j]" reads nothing from any document |
| Extractor.ExtractTokens | src/main/java/hr/avrbanac/utility/MapDecorator.java:111-131 | along valid tokens, a single token converts the root's entry as found (missing included), and several convert only a node the walk actually reaches |
| Extractor.Walk | src/main/java/hr/avrbanac/utility/MapDecorator.java:116-128 | the loop returns the conversion of the node reached by following every token, and absent once a step finds nothing or meets a non-map with tokens left |
| Extractor.ExtractLoop | src/main/java/hr/avrbanac/utility/MapDecorator.java:106-132 | the method as written computes the reference extraction for every document, path and class |
| Extractor.ExtractOr | src/main/java/hr/avrbanac/utility/MapDecorator.java:88-96 | the extracted value when there is one, otherwise the default |
| Extractor.ResolveAppend | src/main/java/hr/avrbanac/utility/MapDecorator.java:116-128 | walking two paths in sequence is walking their concatenation, and a failure anywhere is final |
| Extractor.BlankSegmentExtractsNothing | src/main/java/hr/avrbanac/utility/MapDecorator.java:111-114 | a path with a blank piece before a non-empty one reads nothing from any document, whatever the class |
| Extractor.DotsOnlyExtractNothing | src/main/java/hr/avrbanac/utility/MapDecorator.java:111-114 | a path of dots alone tokenizes to zero tokens and reads nothing from any map, whatever the class |
| Extractor.SingleTokenIsLiteralKey | src/main/java/hr/avrbanac/utility/MapDecorator.java:129-131 | a one-token path converts the root's entry under that exact token, brackets included |
| Extractor.IndexOnlyBelowRoot | src/main/java/hr/avrbanac/utility/MapDecorator.java:116-131 | the same `key[n]` token is a literal key as the only token, and an index into the list under `key` below the root |
| Extractor.ResolveNest | src/main/java/hr/avrbanac/utility/MapDecorator.java:116-128 | walking plain keys through maps nested along those keys reaches the value placed there |
| Extractor.ExtractNest | src/main/java/hr/avrbanac/utility/MapDecorator.java:106-132 | round trip: a value placed at a dot path of plain keys is extracted from that path as its conversion |
| Extractor.ExtractNestIdentity | src/main/java/hr/avrbanac/utility/MapDecorator.java:106-132 | with the built-ins installed, a value placed at a path comes back unchanged when extracted as its own class |
| Chain.NewBuilder | src/main/java/hr/avrbanac/utility/MapDecorator.java:138-140 | a new builder has no source |
| Chain.From | src/main/java/hr/avrbanac/utility/MapDecorator.java:181-184 | the new source replaces whatever the builder held |
| Chain.MapNode | src/main/java/hr/avrbanac/utility/MapDecorator.java:192-199 | no builder without a source; otherwise the source becomes the child map when the Map conversion of the entry is a map, and unset when it is not |
| Chain.Value | src/main/java/hr/avrbanac/utility/MapDecorator.java:208-217 | absent without a source, otherwise the conversion of the entry under the token |
| Chain.ValueOr | src/main/java/hr/avrbanac/utility/MapDecorator.java:227-237 | the read value when there is one, otherwise the default (the default also without a source) |
| Chain.BooleanValue | src/main/java/hr/avrbanac/utility/MapDecorator.java:239-242 | the Boolean read, or false exactly when no Boolean is read |
| Chain.CharValue | src/main/java/hr/avrbanac/utility/MapDecorator.java:243-246 | the Character read, or '\0' exactly when none is read |
| Chain.ByteValue | src/main/java/hr/avrbanac/utility/MapDecorator.java:247-250 | the Byte read, or 0 exactly when none is read |
| Chain.ShortValue | src/main/java/hr/avrbanac/utility/MapDecorator.java:251-254 | the Short read, or 0 exactly when none is read |
| Chain.IntValue | src/main/java/hr/avrbanac/utility/MapDecorator.java:255-258 | the Integer read, or 0 exactly when none is read |
| Chain.LongValue | src/main/java/hr/avrbanac/utility/MapDecorator.java:259-262 | the Long read, or 0 exactly when none is read |
| Chain.FloatValue | src/main/java/hr/avrbanac/utility/MapDecorator.java:263-266 | the Float read, or 0F exactly when none is read |
| Chain.DoubleValue | src/main/java/hr/avrbanac/utility/MapDecorator.java:267-270 | the Double read, or 0D exactly when none is read |
| Chain.StringValue | src/main/java/hr/avrbanac/utility/MapDecorator.java:271-274 | the String read, or "" exactly when none is read |
| Chain.MapValue | src/main/java/hr/avrbanac/utility/MapDecorator.java:285-288 | the Map read, or an empty map exactly when none is read |
| Chain.ListValue | src/main/java/hr/avrbanac/utility/MapDecorator.java:298-301 | the List read, or an empty list exactly when none is read |
| Chain.MapNodesResolve | src/main/java/hr/avrbanac/utility/MapDecorator.java:192-199 | with the built-in Map converter, a chain of `mapNode` calls holds exactly the map the dot-path walk reaches along the same keys, and nothing when the walk reaches no map |
| Chain.ChainMatchesExtract | src/main/java/hr/avrbanac/utility/MapDecorator.java:192-216 | `from(root).mapNode(k1)...mapNode(kn).value(last, c)` reads what `extract(root, "k1...kn.last", c)` reads, when the Map converter is the built-in one and `c`'s converter maps null to absent |
| Chain.ChainMatchesExtractBuiltins | src/main/java/hr/avrbanac/utility/MapDecorator.java:192-216 | with the built-ins installed, a completed chain and the dot path agree for every built-in class |
| Scenarios.ExtractThroughList | src/main/java/hr/avrbanac/utility/MapDecorator.java:116-156 | `outer.key[n].field` reads the field of the list element at index `n`, and nothing when the index is out of range or the element is not a map |
| Scenarios.IndexedPathsInRange | src/main/java/hr/avrbanac/utility/MapDecorator.java:152-155 | on the sample document "a.b[1].c" and "a.b[-1].c" both read the Integer 7 |
| Scenarios.IndexedPathsOutOfRange | src/main/java/hr/avrbanac/utility/MapDecorator.java:152-156 | on the sample document "a.b[2].c" and "a.b[-3].c" read nothing |
| Scenarios.RejectedPaths | src/main/java/hr/avrbanac/utility/MapDecorator.java:111-114 | "a..b", "", " " and a null path read nothing, whatever the class |
| Scenarios.TrailingDotPath | src/main/java/hr/avrbanac/utility/Utility.java:19 | "a.b." tokenizes as ["a", "b"] |
| Scenarios.DotOnlyPath | src/main/java/hr/avrbanac/utility/Utility.java:19 | "." tokenizes as no tokens at all |
| Scenarios.EmptyIndex | src/main/java/hr/avrbanac/utility/MapDecorator.java:146-149 | "a.b[]" reads nothing from the sample document |
| Scenarios.DoubleIndex | src/main/java/hr/avrbanac/utility/MapDecorator.java:146-149 | "a.b[1][2]" reads nothing from the sample document |
| Scenarios.BooleanYes | src/main/java/hr/avrbanac/utility/converters/BooleanConverter.java:20-24 | "Yes" reads as true, ignoring case |
| Scenarios.BooleanMaybe | src/main/java/hr/avrbanac/utility/converters/BooleanConverter.java:20-30 | "maybe" is no Boolean, and `booleanValue` turns that into false |
| Scenarios.IntegerReadings | src/main/java/hr/avrbanac/utility/converters/IntegerConverter.java:17-28 | "007" reads as 7, and "not-a-number" is no Integer |
| Scenarios.ChainedRead | src/main/java/hr/avrbanac/utility/MapDecorator.java:298-301 | `mapNode("a").listValue("b")` on the sample document returns the list stored there |
| Scenarios.ChainedReadMatchesPath | src/main/java/hr/avrbanac/utility/MapDecorator.java:192-216 | on the sample document, `mapNode("a").value("b", List.class)` reads what `extract("a.b", List.class)` reads |

## Left out

- Logging: the warnings for an unknown class and for a failed index parse have no
  effect on results.
- Concurrency: the registry is a shared static map that is filled at start-up and
  read without locks. Here it is an explicit value, so the race of registering a
  converter during lookups is not modelled.
- Null inside the data: `Node` has no null. So a map entry or list element that is
  null is not modelled. A null entry would end the walk in `extract` exactly as a
  missing key does.
- Null roots and the null builder: a null root in single-token `extract` throws
  NullPointerException, and the model requires a map. `mapNode` on a builder without
  a source returns null, and any call on that null throws. The model returns no
  builder, and `Chain.MapNodes` stops there.
- Unchecked casts: a custom converter that returns a value of another class makes
  Java throw ClassCastException at the typed reader. The model's readers return the
  default instead.
- Chain.MapNode: `mapNode` stores the Map converter's result in a `Map` field. A custom
  Map converter that returns something other than a map makes Java throw
  ClassCastException there. The model instead leaves the builder without a source, so
  later reads give absent or the default.
- In-place builder updates: Java's `from` and `mapNode` assign the builder's `source`
  and return `this`, so every reference to the builder sees each step. For example,
  `b.mapNode("a"); b.intValue("k")` reads from `"a"`. The model's `Builder` is an
  immutable value, and each call returns a new one, so the aliasing is modelled as
  threading that value through the chain.
- Non-string map keys: `Node` maps have text keys only. `mapValue` and `listValue`
  may hand back maps and lists of other element types; the model does not track
  those types.
- Float and Double: IEEE parsing is out of scope. `Float.parseFloat`,
  `Double.parseDouble` and `Object.toString` are parameters in `Runtime`, and
  floating-point values are kept as their bit patterns.
- `@NotNull` on default values: it does no run-time checking, and the defaults here
  are never null.
- Unicode details:
  - `equalsIgnoreCase` is modelled on ASCII letters only, so Unicode case folding
    such as the Kelvin sign is left out;
  - `parseShort`/`parseByte` are modelled on ASCII digits only, although the JDK
    also accepts other Unicode digits;
  - string lengths count Unicode scalar values, not UTF-16 code units.
- `CharacterConverter` catches NumberFormatException around `charAt(0)`, which cannot
  throw it. That branch is not modelled.
- Chain.ChainMatchesExtract: requires the target class's converter to map null to
  absent. A custom converter that maps null to a value makes the chain and a
  single-token extract convert a missing last entry, where a longer dot path gives up.
