# go-genjson core in Dafny

This project models the core of go-genjson, a Go JSON package. The package does not decode
straight into Go values. It first deserializes the bytes into its own `Value` tree: `Null`,
`Bool`, `Number`, `String`, `Array` and `Object`. A `Number` keeps an unsigned 64-bit
magnitude or a float, with an `IsNeg` flag. An `Object` keeps its members in insertion
order and allows duplicate keys. The model covers the following modules:

- **FuncParser** (`internal/funcparser/parser.go`) holds the combinators that the parser
  is built from: `ChainP`, `TryP`, `Map`, `MapResult`, `FlattenP`, `Validate` and `LazyP`.
  - A parser is a function from a cursor to (remaining cursor, output, result).
  - Go's `Valid()` constraint and `valid[R]()` are passed as a `Kind` dictionary.
  - Go's zero values are passed as an explicit `zero` argument.
- **Cursor** and **Grammar** (`deserialize.go`) hold the immutable `deserializer` cursor
  and `read`, together with `byteParser`, `predicateParser` and `trimSpaceParser`. They
  also hold the string scanner, `errNoMatch`, and the whole grammar:
  - `surroundParser`, `listParser` and `compositeParser`;
  - the null, bool, number, string, array and object parsers;
  - `jsonParserC`, `jsonParserE` and `Deserialize`.

  The loops of `predicateParser`, `trimSpaceParser`, the string scan, `listParser`,
  `Flatten`, `ChainP`, `TryP` and the array/object mappers are methods with `while`
  loops. Each method is proved equal to the function that specifies it.
- **GrammarFacts**, **NumberFacts** and **StringFacts** prove what each parser accepts,
  rejects and returns. They also prove that blank input reports "unexpected end of input".
  A stray byte reports an invalid token at its row and column.
- **GenJson** and **OrderedMap** (`genjson.go`) hold the value types, `Type.String`,
  `orderedDuplicateMap`, its iterator and the `Object` methods.
  - The iterator holds the pending list element and the map itself, as Go's does. Each
    `next` reads the map's current list and entries. An entry added later is still
    yielded, and entries of a key removed later are skipped, while the pending element
    stays linked. Removing the pending element's own key unlinks it, and Go's `next`
    then panics.
  - The map is a class: its list of keys is a sequence of elements with unique ids, and
    its `map[K][]entry` is a Dafny `map`.
  - A validity invariant ties the two together.
  - The abstract state is the sequence of (key, value) pairs in insertion order.
  - Each method is proved against that sequence.
- **Serialize** (`serialize.go`) holds the `append` methods and `Serializer.Serialize`.
  - `Render` is the text a value appends.
  - The `Append…` methods grow a buffer step by step and are proved to append exactly
    `Render`.
  - The comma-separated layout is related to an independent `Join`.
- **Unmarshal** (`unmarshal.go`, integer paths only) models:
  - the signed and unsigned branches of `Number.unmarshal`;
  - the integer branch of `looseUint64`;
  - `Null.unmarshal`;
  - `unmarshalError` and `UnmarshalError.Error`.
- **RoundTrip** relates the serializer to the deserializer. What `Serialize` writes for
  null, a boolean or a non-negative integer deserializes back to the same value. A
  negative integer loses its sign (see "## Findings"). With the sign written, it too reads
  back unchanged.

The Go code calls some foreign functions: `strconv.ParseFloat`, `strconv.FormatFloat`,
`strconv.Quote`, `strconv.Unquote` and the float operations of `looseUint64`. The model
takes them as function-valued parameters (`Grammar.Foreign`, `Serialize.Formatters`,
`Unmarshal.FloatOps`) and does not look into them. `strconv.ParseUint` and
`strconv.FormatUint` (base 10, 64 bits) are modelled.

In three places the model follows the code where other readings are possible:
- `deserialize.go` calls `MapO`, `MapR`, `ToC`, `ToE` and a `Try` over `*CombineResult`.
  `internal/funcparser/parser.go` does not define these. They are modelled from their uses:
  - `CombineResult` is valid when `OK` is set and `Err` is nil.
  - `Try` over combined results (`FuncParser.TryC`) returns the first alternative that
    matched. It stops at the first alternative that returned an error.
- `serialize.go` ranges over `Object` as if it were a Go map. In `genjson.go` it wraps the
  ordered map. The serializer model emits the members in the object's iteration order,
  with duplicates, and sorts them by key when `SortKeys` is set.
- `Serializer.Indent` and `Prefix` are Go `int`s. `strings.Repeat` panics on a negative
  count. A negative `Prefix` always reaches it, so it is a `nat` in the model. A negative
  `Indent` reaches it only at a level above 0, which is a case the model leaves out (see
  "## Left out").

## Model

| member | source | states |
|---|---|---|
| FuncParser.OK | internal/funcparser/parser.go:33-36 | `OK(ok)` is valid exactly when ok holds |
| FuncParser.Err | internal/funcparser/parser.go:28-31 | `Err(err)` is valid exactly when err is nil |
| FuncParser.BoolKind | internal/funcparser/parser.go:44-50 | the BoolResult kind's validity is `Valid()` (nil or OK), and `valid[R]()` for it is valid |
| FuncParser.ErrKind | internal/funcparser/parser.go:38-42 | the ErrResult kind's validity is `Valid()` (nil or no error), and `valid[R]()` for it is valid |
| FuncParser.CombineKind | deserialize.go:153-161 | a combined result is valid exactly when it is OK without an error |
| FuncParser.BoolResult.ToC | deserialize.go:166-182 | converting a bool result keeps validity and never carries an error |
| FuncParser.ErrResult.ToC | deserialize.go:301-306 | converting an error result keeps validity and carries the error when invalid |
| FuncParser.CombineResult.ToE | deserialize.go:157-159 | the error result is valid exactly when no error is carried |
| FuncParser.COK | deserialize.go:362-365 | `COK(b)` is valid exactly when b, without an error |
| FuncParser.CErr | deserialize.go:377-380 | `CErr(e)` is invalid and carries e |
| FuncParser.LazyP | internal/funcparser/parser.go:60-64 | the lazy parser behaves at every input as the parser the thunk builds |
| FuncParser.ChainP | internal/funcparser/parser.go:70-84 | ChainP runs the parsers in sequence; ChainAllValid and ChainFirstInvalid state its two outcomes |
| FuncParser.ChainFromAllValid | internal/funcparser/parser.go:70-84 | from any point, when every step is valid the chain returns the last cursor, all outputs in order and `valid[R]()` |
| FuncParser.ChainAllValid | internal/funcparser/parser.go:70-84 | when every step is valid, ChainP returns the last cursor, all outputs in order and `valid[R]()` |
| FuncParser.ChainFromFirstInvalid | internal/funcparser/parser.go:70-84 | from any point, the first invalid step rewinds to the original input with no outputs and that step's result |
| FuncParser.ChainFirstInvalid | internal/funcparser/parser.go:70-84 | the first invalid step makes ChainP rewind to its input with no outputs and return that step's result |
| FuncParser.ChainHeadInvalid | internal/funcparser/parser.go:74-78 | an invalid first parser ends the chain at once with its result |
| FuncParser.ChainOne | internal/funcparser/parser.go:70-84 | the chain of one parser, both outcomes |
| FuncParser.ChainTwo | internal/funcparser/parser.go:70-84 | the chain of two parsers: each can fail and rewind, or both succeed in sequence |
| FuncParser.ChainThree | internal/funcparser/parser.go:70-84 | the chain of three parsers: each can fail and rewind, or all succeed in sequence |
| FuncParser.ChainRun | internal/funcparser/parser.go:70-84 | the loop of ChainP computes exactly the chain function |
| FuncParser.TryFromFirstValid | internal/funcparser/parser.go:90-101 | from any point, the first valid alternative is returned with `OK(true)` |
| FuncParser.TryFirstValid | internal/funcparser/parser.go:90-101 | TryP returns the first valid alternative's cursor and output with `OK(true)` |
| FuncParser.TryFromNoneValid | internal/funcparser/parser.go:90-101 | from any point, no valid alternative gives the input, the zero output and `OK(false)` |
| FuncParser.TryNoneValid | internal/funcparser/parser.go:97-99 | when no alternative is valid TryP returns the input, the zero output and `OK(false)` |
| FuncParser.TryRun | internal/funcparser/parser.go:90-101 | the loop of TryP computes exactly the alternation function |
| FuncParser.TryP | internal/funcparser/parser.go:90-101 | TryP returns the first valid alternative; TryFirstValid and TryNoneValid state its outcomes |
| FuncParser.TryCFromFirstDecisive | deserialize.go:136-147 | from any point, the first alternative that matched or failed fatally decides the alternation |
| FuncParser.TryCFirstDecisive | deserialize.go:136-147 | the first alternative that matched or failed fatally decides `Try`: its match, or its error with the input rewound |
| FuncParser.TryCFromNoMatch | deserialize.go:136-147 | from any point, no deciding alternative gives a plain no-match |
| FuncParser.TryCNoMatch | deserialize.go:136-147 | when every alternative declines, `Try` returns the input, the zero output and a plain no-match |
| FuncParser.TryCPair | deserialize.go:214-227 | a two-way `Try`, as numberParser uses, in all five outcomes |
| FuncParser.TryCFromValid | deserialize.go:136-147 | from any point, a successful alternation is the output of one of the alternatives |
| FuncParser.TryCValid | deserialize.go:136-147 | a successful `Try` returns exactly the cursor and output of one of its alternatives |
| FuncParser.TryC | deserialize.go:136-147 | `Try` over combined results; TryCFirstDecisive and TryCNoMatch state its outcomes |
| FuncParser.MapStep | internal/funcparser/parser.go:107-116 | Map keeps cursor and result, and applies f to a valid output or gives the zero output |
| FuncParser.MapAt | internal/funcparser/parser.go:107-116 | Map at one input, in terms of the inner parser |
| FuncParser.Map | internal/funcparser/parser.go:107-116 | Map applies f to the output of a valid match; MapStep states it |
| FuncParser.MapResultStep | internal/funcparser/parser.go:118-123 | MapResult changes only the result |
| FuncParser.MapResult | internal/funcparser/parser.go:118-123 | MapResult maps the result only; MapResultStep states it |
| FuncParser.MapRStep | deserialize.go:151-161 | MapR changes only the result, computing it from the returned cursor and the result |
| FuncParser.MapR | deserialize.go:151-161 | MapR maps the result, given the returned cursor; MapRStep states it |
| FuncParser.ValidateStep | internal/funcparser/parser.go:146-160 | Validate succeeds exactly when the parser and f both succeed; a failure rewinds with the zero output and reports whichever failed first |
| FuncParser.Validate | internal/funcparser/parser.go:146-160 | Validate checks a valid output with f; ValidateStep states its outcomes |
| FuncParser.ConcatLength | internal/funcparser/parser.go:133-136 | the flattened output is as long as the sum of the lengths, which is the capacity computed |
| FuncParser.ConcatAt | internal/funcparser/parser.go:138-140 | each output of each part sits at its offset in the flattened output |
| FuncParser.FlattenRun | internal/funcparser/parser.go:132-142 | the append loop builds exactly the concatenation, of the computed capacity |
| FuncParser.FlattenAllValid | internal/funcparser/parser.go:129-144 | when every part is valid, FlattenP returns the concatenation of the parts' outputs and the last cursor |
| FuncParser.FlattenP | internal/funcparser/parser.go:129-144 | FlattenP chains the parsers and concatenates their outputs; FlattenAllValid and ConcatAt state it |
| GenJson.TypeName | genjson.go:23-39 | the name is non-empty exactly for the six defined types |
| GenJson.TypeNamesDistinct | genjson.go:23-39 | the six defined types have pairwise different names |
| GenJson.IntegerNumber | genjson.go:71-73 | `integer(i)` is a non-negative integer number holding i |
| GenJson.FloatNumber | genjson.go:75-77 | `float(f)` is a non-negative float number holding f |
| Cursor.Start | deserialize.go:35-41 | deserialize starts at index 0, row 1, column 1, which is consistent with the input |
| Cursor.Read | deserialize.go:57-76 | read at the end returns the cursor and `OK(false)`; otherwise it returns the byte and advances by one, moving to the next row after a newline and to the next column otherwise |
| Cursor.ReadPlaced | deserialize.go:57-76 | read keeps row and column equal to the line and column of the index |
| Cursor.ByteParser | deserialize.go:531-538 | byteParser(c) matches exactly when the next byte is c, then consuming it; otherwise it keeps the cursor |
| Cursor.PredicateParser | deserialize.go:516-529 | predicateParser takes the run of bytes satisfying the predicate; PredicateParserSpec and RunIsMaximal state it |
| Cursor.DigitsParser | deserialize.go:510-514 | digitsParser is predicateParser with the ASCII digit test; DigitsNoMatch and DigitRun state it |
| Cursor.IsSpace | deserialize.go:404-404 | unicode.IsSpace of a byte read as a rune: tab, newline, vertical tab, form feed, carriage return, space, U+0085 and U+00A0 |
| Cursor.SkipSpace | deserialize.go:399-408 | the cursor after the white space; SkipSpaceSpec and SkipSpacePlaced state it |
| Cursor.RunIsMaximal | deserialize.go:516-529 | the predicate loop consumes the longest run of bytes satisfying the predicate and returns exactly those bytes |
| Cursor.PredicateLoop | deserialize.go:516-529 | the loop of predicateParser computes exactly the predicate-parser function |
| Cursor.PredicateParserSpec | deserialize.go:516-529 | predicateParser is valid exactly when the first byte qualifies, returns the maximal run, and keeps the cursor when nothing matched |
| Cursor.SkipSpaceSpec | deserialize.go:397-411 | trimSpaceParser's loop skips exactly the white space in front of the cursor |
| Cursor.SkipSpacePlaced | deserialize.go:397-411 | skipping white space keeps row and column consistent |
| Cursor.TrimSpace | deserialize.go:397-411 | trimSpaceParser(p) is p applied after the white space |
| Cursor.SkipSpaceLoop | deserialize.go:399-408 | the loop of trimSpaceParser computes exactly the skipped cursor |
| Cursor.FirstStop | deserialize.go:442-466 | the scan's stopping offset lies within the remaining input |
| Cursor.Scan | deserialize.go:442-466 | the string scan from a cursor; ScanFindsFirstStop and FirstStopIsLeast state where it stops |
| Cursor.ScanParser | deserialize.go:442-466 | the scan as a parser starting outside an escape; StringFacts.ScanFrom states it |
| Cursor.ScanFindsFirstStop | deserialize.go:442-466 | the string scan stops just after the first unescaped quote, returning the bytes up to it, or fails with "unmatched quote" when there is none |
| Cursor.FirstStopIsLeast | deserialize.go:455-464 | the stopping quote is unescaped and no earlier byte is an unescaped quote; with no stop, the input has no unescaped quote |
| Cursor.EscapeIffOddBackslashes | deserialize.go:455-461 | a byte is escaped exactly when an odd number of backslashes precede it |
| Cursor.AfterBackslashNeverStops | deserialize.go:455-461 | the byte after an unescaped backslash is escaped |
| Cursor.ScanLoop | deserialize.go:442-466 | the scan loop computes exactly the scan function |
| Cursor.LeadingZeroIgnored | deserialize.go:501-504 | leading zeros do not change the value ParseUint gives |
| Cursor.ParseUint | deserialize.go:501-504 | base-10, 64-bit ParseUint succeeds exactly on a non-empty run of digits below 2^64, returning its value |
| Cursor.ErrNoMatch | deserialize.go:547-553 | errNoMatch is "unexpected end of input" exactly at the end; otherwise it is an invalid token with the byte, row and column |
| Grammar.LocParser | deserialize.go:118-125 | locParser keeps the cursor, output and result, recording the positions before and after |
| Grammar.Surround | deserialize.go:413-436 | surroundParser chains before, p and after; SurroundRewinds states its failures |
| Grammar.SurroundRewinds | deserialize.go:413-436 | every failure of surroundParser rewinds with the zero output, and a failing `before` is a plain no-match |
| Grammar.ListLoopMethod | deserialize.go:359-395 | the loop of listParser computes exactly the list function |
| Grammar.ListParser | deserialize.go:359-395 | listParser; ListEmpty, ListFailures and ListProgresses state it |
| Grammar.ListRun | deserialize.go:361-371 | the start of listParser: the end delimiter, else the first element, then the loop |
| Grammar.ListLoop | deserialize.go:372-393 | the loop of listParser after the first element; ListLoopDecides, ListMissingSeparator and ListTrailingSeparator state it |
| Grammar.ListLoopProgresses | deserialize.go:372-393 | the loop stops with NoProgress only after an iteration that consumed nothing: with a separator that always consumes and an element that never moves back it never does |
| Grammar.ListProgresses | deserialize.go:359-395 | the same for the whole list, given an end delimiter that never moves back |
| Grammar.Composite | deserialize.go:347-357 | compositeParser: the opening delimiter, then the list; CompositeNoMatch states its refusal |
| Grammar.NullParser | deserialize.go:166-182 | nullParser; NullNoMatch and RoundTrip.NullMatches state it |
| Grammar.BoolParser | deserialize.go:184-209 | boolParser; BoolNoMatch and RoundTrip.BoolMatches state it |
| Grammar.IntParser | deserialize.go:497-508 | intParser; NumberFacts.IntParserSpec states it |
| Grammar.FloatParser | deserialize.go:478-495 | floatParser; NumberFacts.FloatParserSpec states it |
| Grammar.PositiveNumberParser | deserialize.go:234-239 | positiveNumberParser: a float, else an integer; NumberFacts.PositivePrefersFloat and PositiveFallsBackToInt state it |
| Grammar.NumberParser | deserialize.go:211-233 | numberParser: an optional '-' and a positive number; NumberFacts.NumberSign and RoundTrip.IntegerMatches state it |
| Grammar.RawStringParser | deserialize.go:438-476 | rawStringParser; StringFacts.RawStringSpec states it |
| Grammar.StringParser | deserialize.go:241-250 | stringParser wraps rawStringParser's text as a String value |
| Grammar.ArrayParser | deserialize.go:252-279 | arrayParser: '[' then values separated by ',' up to ']', mapped by ArrayMapper |
| Grammar.ObjectParser | deserialize.go:281-345 | objectParser: '{' then key ':' value members up to '}', built by ObjectMapper |
| Grammar.JsonC | deserialize.go:136-147 | jsonParserC: the six alternatives after white space; GrammarFacts.JsonCNoValue states its refusal |
| Grammar.JsonE | deserialize.go:149-164 | jsonParserE: jsonParserC where no match is an error; MustMatch states it |
| Grammar.Deserialize | deserialize.go:27-48 | Deserialize; GrammarFacts.BlankInputFails, StrayByteFails and the RoundTrip lemmas state it |
| Grammar.ListEmpty | deserialize.go:362-365 | an immediate closing token gives the empty list |
| Grammar.ListLoopDecides | deserialize.go:372-393 | after the first element, the list loop either succeeds or fails with an error, rewinding to the start |
| Grammar.ListFailures | deserialize.go:359-395 | a failing list rewinds; it fails without an error only when the first element does |
| Grammar.ListMissingSeparator | deserialize.go:377-380 | neither a closing token nor a separator after an element is an error at that point |
| Grammar.ListTrailingSeparator | deserialize.go:382-389 | a separator not followed by an element is an error at that point |
| Grammar.ErrBoolResult | deserialize.go:540-545 | a failed bool result becomes the no-match error at the cursor |
| Grammar.ArrayMapper | deserialize.go:262-277 | the array mapper's loop produces the element values and nodes in order |
| Grammar.ObjectMapper | deserialize.go:324-343 | the object mapper's loop builds a fresh object holding every key and value in order, with the key nodes |
| Grammar.MustMatch | deserialize.go:153-161 | jsonParserE is valid exactly when jsonParserC is; it passes an error on and turns a no-match into the no-match error at the cursor |
| GrammarFacts.OutputNoMatch | deserialize.go:127-134 | outputParser passes a no-match through with the zero output |
| GrammarFacts.NullNoMatch | deserialize.go:166-182 | nullParser declines at any byte other than 'n' |
| GrammarFacts.BoolNoMatch | deserialize.go:184-209 | boolParser declines at any byte other than 't' or 'f' |
| GrammarFacts.DigitsNoMatch | deserialize.go:510-514 | digitsParser declines at a non-digit |
| GrammarFacts.IntNoMatch | deserialize.go:497-508 | intParser declines at a non-digit |
| GrammarFacts.FloatNoMatch | deserialize.go:478-495 | floatParser declines at a non-digit |
| GrammarFacts.PositiveNumberNoMatch | deserialize.go:234-239 | positiveNumberParser declines at a non-digit |
| GrammarFacts.NegativeNoMatch | deserialize.go:214-225 | the negative alternative declines at any byte other than '-' |
| GrammarFacts.NumberNoMatch | deserialize.go:211-233 | numberParser declines at a byte that is neither '-' nor a digit |
| GrammarFacts.RawStringNoMatch | deserialize.go:438-441 | rawStringParser declines at any byte other than a quote |
| GrammarFacts.StringNoMatch | deserialize.go:241-250 | stringParser declines at any byte other than a quote |
| GrammarFacts.CompositeNoMatch | deserialize.go:347-357 | compositeParser declines when its opening byte is missing |
| GrammarFacts.ArrayNoMatch | deserialize.go:252-261 | arrayParser declines at any byte other than '[' |
| GrammarFacts.ObjectNoMatch | deserialize.go:315-323 | objectParser declines at any byte other than '{' |
| GrammarFacts.SkipSpaceStops | deserialize.go:397-411 | no white space means the cursor stays |
| GrammarFacts.AlternativeNoMatch | deserialize.go:136-147 | every one of the six alternatives declines at a byte that cannot start a value |
| GrammarFacts.SkipSpaceKeepsInput | deserialize.go:397-411 | skipping white space keeps the input and stays within it |
| GrammarFacts.JsonCNoValue | deserialize.go:136-147 | where no value starts after the white space, jsonParserC is a plain no-match there |
| GrammarFacts.JsonENoValue | deserialize.go:149-164 | where no value starts after the white space, jsonParserE fails with the no-match error there |
| GrammarFacts.DeserializeNoValue | deserialize.go:27-48 | input whose first non-space byte cannot start a value fails with the no-match error there |
| GrammarFacts.BlankInputFails | deserialize.go:27-48 | empty or all-white-space input fails with "unexpected end of input" |
| GrammarFacts.StrayByteFails | deserialize.go:547-553 | a stray first byte fails as an invalid token with its row (1 + newlines before it) and column |
| NumberFacts.IntParserSpec | deserialize.go:497-508 | intParser takes the digit run: no digits is a no-match, below 2^64 is its value, 2^64 or more is a range error with the input rewound |
| NumberFacts.FloatNeedsDot | deserialize.go:478-495 | without a '.' after the digits floatParser declines |
| NumberFacts.FloatChain | deserialize.go:481-485 | the float parts chain matches digits '.' digits, or rewinds with the second digit run's result |
| NumberFacts.FloatPartsMatch | deserialize.go:480-486 | the flattened float parts are exactly the bytes digits '.' digits, or a no-match |
| NumberFacts.FloatParserSpec | deserialize.go:478-495 | floatParser converts exactly the text digits '.' digits with ParseFloat, and reports its error with the input rewound |
| NumberFacts.FloatAlternativeStep | deserialize.go:236-236 | the float alternative yields `float(f)` |
| NumberFacts.IntAlternativeStep | deserialize.go:237-237 | the integer alternative yields `integer(i)` |
| NumberFacts.PositiveNumberNotNegative | deserialize.go:234-239 | positiveNumberParser never yields a negative number |
| NumberFacts.PositivePrefersFloat | deserialize.go:234-239 | when floatParser matches, positiveNumberParser yields that float |
| NumberFacts.PositiveFallsBackToInt | deserialize.go:234-239 | when floatParser declines, positiveNumberParser is intParser's integer |
| NumberFacts.PlainDigitsAreInteger | deserialize.go:234-239 | digits not followed by '.' are the integer below 2^64, or a range error |
| NumberFacts.NumberSign | deserialize.go:211-233 | a number that matched is negative exactly when the input starts with '-' |
| StringFacts.StringChain | deserialize.go:440-442 | the opening quote and the scan chain together, or rewind with the scan's error |
| StringFacts.StringFlatten | deserialize.go:440-467 | the flattened string parts are the opening quote followed by the scanned bytes |
| StringFacts.StringPartsMatch | deserialize.go:440-467 | after a quote, the raw text runs to the first unescaped quote, or the parse fails with "unmatched quote" |
| StringFacts.ScanFrom | deserialize.go:442-466 | the scan stops after the first unescaped quote, or fails with "unmatched quote" |
| StringFacts.RawStringSpec | deserialize.go:438-476 | rawStringParser unquotes exactly the text from the opening quote to the first unescaped quote, rewinding on an Unquote error or a missing quote |
| OrderedMap.AddAppends | genjson.go:197-203 | adding appends the value to its key's values and to no other key's |
| OrderedMap.WithoutValues | genjson.go:211-217 | removing a key leaves no values under it and every other key's values unchanged |
| OrderedMap.SetReplaces | genjson.go:205-209 | after set, the key has exactly the one new value, which get returns |
| OrderedMap.FirstValueIsEarliest | genjson.go:188-195 | get finds nothing exactly when no entry has the key; otherwise it finds the earliest entry's value |
| OrderedMap.SlotsValues | genjson.go:176-186 | a key's entry slice holds its values in insertion order |
| OrderedMap.RemoveKeepsConsistent | genjson.go:211-217 | unlinking a key's list elements and deleting its slice keeps the list and map consistent |
| OrderedMap.RemoveKeyKeepsShape | genjson.go:211-217 | removal keeps ids increasing and below the next id, and empties only that key's entries |
| OrderedMap.UnlinkAll | genjson.go:213-215 | the loop of remove unlinks exactly the key's list elements |
| OrderedMap.OrderedDuplicateMap.constructor | genjson.go:95-101 | a new map is empty and valid |
| OrderedMap.OrderedDuplicateMap.ElementHasOneSlot | genjson.go:229-244 | every list element has exactly one entry in its key's slice, so the iterator's search finds a linked element exactly once |
| OrderedMap.OrderedDuplicateMap.SlotHasElement | genjson.go:149-154 | every entry points at a list element holding its key |
| OrderedMap.OrderedDuplicateMap.Add | genjson.go:197-203 | add appends (k, v) to the contents and keeps the existing list elements in place |
| OrderedMap.OrderedDuplicateMap.Remove | genjson.go:211-217 | remove drops every entry with the key and keeps the others in order; no list element of the key is left linked, every other key's list element stays linked, and no element is added |
| OrderedMap.OrderedDuplicateMap.Set | genjson.go:205-209 | set removes every entry with the key and appends (k, v); every other key's list element stays linked |
| OrderedMap.OrderedDuplicateMap.Get | genjson.go:188-195 | get returns the earliest value under the key |
| OrderedMap.OrderedDuplicateMap.GetAll | genjson.go:176-186 | getAll returns all values under the key in order, or false when there are none |
| OrderedMap.OrderedDuplicateMap.Len | genjson.go:156-165 | len is the number of entries |
| OrderedMap.OrderedDuplicateMap.Iter | genjson.go:167-174 | the iterator starts at the front of the list and reads this same map, so it will yield exactly the current contents in order |
| OrderedMap.OrderedDuplicateMap.PositionOf | genjson.go:149-152 | the list holds each element once, so an element determines its position |
| OrderedMap.OrderedDuplicateMap.SlotIffLinked | genjson.go:236-244 | the search of next finds an entry pointing at an element exactly when that element is still linked into the list; otherwise Go panics |
| OrderedMap.OrderedDuplicateMapIterator.constructor | genjson.go:224-227 | an iterator holds the pending list element and the map it reads |
| OrderedMap.OrderedDuplicateMapIterator.Next | genjson.go:229-245 | while the pending element is linked (Go panics otherwise), next yields the live map's entry at it and moves to the element after it in the live list; a done iterator reports false |
| OrderedMap.IterSeesLaterAdd | genjson.go:229-245 | an entry added after iter, while the iterator is still short of the back, is yielded by a later next |
| OrderedMap.RemovingPendingUnlinks | genjson.go:211-217 | removing the key of the pending element unlinks it, so Go's next would then panic |
| OrderedMap.WithoutKeyKeeps | genjson.go:211-217 | removing a key's entries keeps every entry of another key |
| OrderedMap.ElementsWithoutKey | genjson.go:211-217 | after removing a key, the list holds exactly the earlier list elements of the other keys |
| OrderedMap.WithoutKeySplit | genjson.go:211-217 | removing a key's entries works entry by entry, so it commutes with cutting the list at any point |
| OrderedMap.SuffixWithoutKey | genjson.go:211-217 | after removing another key, a surviving element's position is the number of survivors before it, and what follows it is what followed it before, less the key's entries |
| OrderedMap.OrderedDuplicateMapIterator.PendingKey | genjson.go:229-245 | the pending element's key is the key of the next entry to be yielded |
| OrderedMap.AddWhileIterating | genjson.go:197-203 | add during iteration keeps the iterator linked; one that is not done will also yield the new entry, last |
| OrderedMap.RemoveWhileIterating | genjson.go:211-217 | remove of another key during iteration keeps the iterator linked; it yields what it would have, less that key's entries |
| OrderedMap.SetWhileIterating | genjson.go:205-209 | set of another key during iteration keeps the iterator linked; it skips the key's old entries and yields the new one last |
| OrderedMap.RemovingOtherKeyKeepsGoing | genjson.go:211-217 | after Add 1, 2, 3, iter and one next, removing key 3 leaves the iterator linked and the next call yields (2, 20) |
| OrderedMap.Object.constructor | genjson.go:66-68 | the zero Object has no map and no members |
| OrderedMap.Object.Init | genjson.go:95-102 | init creates the map only when it is missing, keeping the members |
| OrderedMap.Object.Get | genjson.go:104-107 | Get returns the first value under the key |
| OrderedMap.Object.GetAll | genjson.go:109-112 | GetAll returns every value under the key |
| OrderedMap.Object.Set | genjson.go:114-118 | Set replaces every member with the key by one new member at the end; the list elements of other keys stay linked |
| OrderedMap.Object.Len | genjson.go:120-123 | Len is the number of members, 0 for the zero Object |
| OrderedMap.Object.Add | genjson.go:125-129 | Add appends the member and keeps the existing list elements linked |
| OrderedMap.Object.Delete | genjson.go:131-134 | Delete drops every member with the key; the list elements of other keys stay linked and none is added |
| OrderedMap.Object.Iter | genjson.go:136-139 | the iterator reads the object's own map and yields its members in order; for the zero Object it is done at once |
| Serialize.IndentText | serialize.go:79-86 | no indentation when Indent is 0; otherwise a newline and Prefix + Indent * level spaces |
| Serialize.AppendIndent | serialize.go:79-86 | appendIndent appends exactly the indentation text |
| Serialize.DecimalDigits | serialize.go:25-25 | FormatUint's text is non-empty decimal digits denoting n, without leading zeros |
| Serialize.FormatUintRoundTrip | serialize.go:25-25 | FormatUint's text parses back with ParseUint to the same integer |
| Serialize.BoolText | serialize.go:13-15 | FormatBool writes "true" or "false" |
| Serialize.NumberText | serialize.go:17-26 | an integer is written as digits without '.' that ParseUint reads back; a float always carries a '.', with ".0" added only when FormatFloat wrote none |
| Serialize.SignNotRendered | serialize.go:17-26 | as written, a number and its negation are written alike |
| Serialize.SignedNumberText | serialize.go:17-26 | the corrected integer text starts with '-' exactly for a negative number, and its digits read back to the magnitude |
| Serialize.KeyLeTotal | serialize.go:56-58 | the key order of sort.Strings is total |
| Serialize.KeyLeTransitive | serialize.go:56-58 | the key order of sort.Strings is transitive |
| Serialize.InsertByKey | serialize.go:56-58 | insertion adds exactly the one member |
| Serialize.InsertKeepsSorted | serialize.go:56-58 | insertion into a key-sorted sequence keeps it sorted |
| Serialize.SortByKey | serialize.go:56-58 | sorting permutes the members |
| Serialize.SortByKeySorted | serialize.go:56-58 | sorting yields ascending key order |
| Serialize.Ordered | serialize.go:52-58 | the members are emitted as a permutation, sorted by key exactly when SortKeys is set and in iteration order otherwise |
| Serialize.JoinLength | serialize.go:38-41 | n parts joined carry exactly n - 1 separators |
| Serialize.ItemsJoin | serialize.go:36-47 | the array loop's output is the elements' texts joined by ',' |
| Serialize.EntriesJoin | serialize.go:59-73 | the object loop's output is the entries' texts joined by ',' |
| Serialize.ArrayLayout | serialize.go:36-47 | an array is '[' + elements joined by ',' + indentation + ']'; an empty indented array has a newline after '[' |
| Serialize.ObjectLayout | serialize.go:49-77 | an object is '{' + entries joined by ',' + indentation + '}' |
| Serialize.KeyValueGapIsOneSpace | serialize.go:66-71 | KeyValueGap adds exactly one space right after the ':' and changes nothing else |
| Serialize.Render | serialize.go:9-77 | the text each append method adds; ArrayLayout, ObjectLayout and AppendValue state it |
| Serialize.Items | serialize.go:36-47 | the text of the array loop's first n turns; ItemsJoin states it |
| Serialize.Entries | serialize.go:59-73 | the text of the object loop's first n turns; EntriesJoin states it |
| Serialize.AppendValue | serialize.go:9-77 | append adds exactly the value's text to the buffer |
| Serialize.AppendArray | serialize.go:36-47 | Array.append's loop adds exactly the array's text |
| Serialize.AppendItem | serialize.go:38-44 | one turn of the array loop adds ',' unless first, the indentation and the element |
| Serialize.AppendObject | serialize.go:49-77 | Object.append's loop adds exactly the object's text |
| Serialize.AppendEntry | serialize.go:59-73 | one turn of the object loop adds ',' unless first, then the indentation, the quoted key, ':', the optional space and the value |
| Serialize.SerializeWith | serialize.go:97-103 | Serialize writes Prefix spaces and then the value at level 0 |
| Serialize.Serialize | serialize.go:105-107 | the package-level Serialize uses the zero Serializer |
| Unmarshal.Indirect | unmarshal.go:95-95 | reflect.Indirect follows a pointer, yields the invalid value for a nil one, and keeps anything else |
| Unmarshal.OverflowInt | unmarshal.go:114-114 | reflect.Value.OverflowInt: outside the signed range of the target's width |
| Unmarshal.OverflowUint | unmarshal.go:132-132 | reflect.Value.OverflowUint: at least 2 to the target's width |
| Unmarshal.MakeError | unmarshal.go:240-251 | unmarshalError carries the cause and the key path, with the node's start as location exactly when there is a node |
| Unmarshal.LooseUint64 | unmarshal.go:149-163 | an integer-kind number passes its magnitude; only a float can fail, with an overflow or fractional-part error |
| Unmarshal.SignedFromMagnitude | unmarshal.go:107-117 | a magnitude above MaxInt64 or a signed value outside the target width is an overflow error; otherwise the signed value is stored |
| Unmarshal.SignedBranch | unmarshal.go:97-117 | an integer stores into a signed target exactly when its magnitude is at most MaxInt64 and its signed value fits the width |
| Unmarshal.UnsignedBranch | unmarshal.go:119-135 | a negative number is rejected; an integer stores into an unsigned target exactly when it fits the width |
| Unmarshal.UnmarshalNumber | unmarshal.go:94-147 | the kind dispatch: signed and unsigned range checks, the invalid-type error for other kinds, errors tagged with the key path |
| Unmarshal.IntegerWidthOverflows | unmarshal.go:114-134 | 2^64 - 1 overflows both int32 and uint32 targets |
| Unmarshal.IntegerWidthFits | unmarshal.go:114-135 | 1 stores into int64 and uint64 targets |
| Unmarshal.SignedFromMagnitudeIntended | unmarshal.go:107-117 | the corrected signed branch stores exactly the values in the target's two's-complement range |
| Unmarshal.UnmarshalNumberIntended | unmarshal.go:94-147 | the corrected dispatch stores exactly the signed values that fit, and agrees with the original for every other target |
| Unmarshal.SmallestInt64Rejected | unmarshal.go:107-113 | as written, -9223372036854775808 is refused for an int64 although it fits; the corrected dispatch stores it |
| Unmarshal.SignedBranchesDifferOnlyThere | unmarshal.go:107-116 | the written and corrected signed branches differ exactly at magnitude 2^63 with the sign set and a 64-bit target |
| Unmarshal.UnmarshalNull | unmarshal.go:70-82 | null is accepted exactly by pointer, slice, array, map and interface targets, else an invalid-type error |
| Unmarshal.FieldPart | unmarshal.go:256-259 | the field part is empty exactly when there is no key path |
| Unmarshal.LocPart | unmarshal.go:260-263 | the location part is empty exactly when there is no location |
| Unmarshal.LocText | unmarshal.go:269-271 | locString: row and column in decimal, joined by ':' |
| Unmarshal.CauseText | unmarshal.go:278-325 | the Error() texts of InvalidTypeError, OverflowError, FractionalFloatError and NegativeUintError |
| Unmarshal.Error | unmarshal.go:253-267 | Error's builder writes exactly the error text |
| Unmarshal.ErrorTextSplit | unmarshal.go:253-267 | the text is "unmarshal error", the field part, the location part, ": " and the cause |
| Unmarshal.ErrorTextParts | unmarshal.go:253-267 | the text starts with "unmarshal error" and ends with ": " and the cause; with neither field nor location, that is all |
| Unmarshal.ErrorTextField | unmarshal.go:256-259 | with a key path, the path joined by '.' follows "unmarshal error " |
| RoundTrip.ByteChain | deserialize.go:170-175 | a chain of byte parsers over a text present at the cursor consumes and returns exactly that text |
| RoundTrip.NullMatches | deserialize.go:166-182 | at "null" nullParser yields null and advances by four |
| RoundTrip.TrueTextMatches | deserialize.go:188-202 | at "true" the bool alternation returns "true" |
| RoundTrip.FalseTextMatches | deserialize.go:188-202 | at "false" the first alternative declines and the second returns "false" |
| RoundTrip.BoolMatches | deserialize.go:184-209 | at the text of a boolean boolParser yields that boolean |
| RoundTrip.DigitRun | deserialize.go:510-529 | at a run of digits that ends the number, digitsParser consumes exactly that run |
| RoundTrip.PositiveAtDigits | deserialize.go:234-239 | at the digits of i positiveNumberParser yields the integer i |
| RoundTrip.SignedAtDigits | deserialize.go:214-227 | at the digits of i the negative alternative declines and the positive one yields i |
| RoundTrip.IntegerMatches | deserialize.go:211-233 | at the digits of i numberParser yields the number i |
| RoundTrip.DeserializeAlternative | deserialize.go:136-164 | when alternative j is the first to decide and it yields v, Deserialize returns v |
| RoundTrip.NullInput | deserialize.go:27-48 | input starting with "null" deserializes to null |
| RoundTrip.BoolInput | deserialize.go:27-48 | input starting with "true" or "false" deserializes to that boolean |
| RoundTrip.IntegerInput | deserialize.go:27-48 | input starting with the digits of i, where the number ends, deserializes to i |
| RoundTrip.NullRoundTrip | serialize.go:9-11 | what is written for null deserializes to null, whatever follows |
| RoundTrip.BoolRoundTrip | serialize.go:13-15 | what is written for a boolean deserializes to that boolean, whatever follows |
| RoundTrip.IntegerRoundTrip | serialize.go:17-26 | what is written for a non-negative integer deserializes to it when the next byte cannot continue a number |
| RoundTrip.NegativeAtDigits | deserialize.go:214-225 | at '-' and the digits of i the negative alternative yields i marked negative |
| RoundTrip.NegativeMatches | deserialize.go:211-233 | at '-' and the digits of i numberParser yields -i |
| RoundTrip.NegativeInput | deserialize.go:27-48 | input starting with '-' and the digits of i deserializes to -i |
| RoundTrip.NegativeSignLost | serialize.go:17-26 | as written, a negative integer is serialized as its magnitude and reads back as the non-negative number |
| RoundTrip.NegativeIntegerRoundTrip | serialize.go:17-26 | with the sign written, a negative integer deserializes back to itself when the next byte cannot continue a number |

## Left out

- Nesting depth: the recursion through `LazyP(jsonParserC)` and `LazyP(jsonParserE)` is bounded by a depth parameter. `Deserialize` passes the input length plus one, which the input can never exceed. Deeper nesting reports `TooDeep`. Each level consumes its opening bracket, so that depth is never reached, but no lemma proves it.
- Grammar.ListRun: after the first element the model checks that the cursor did not move back and stops with `NoProgress` otherwise. Go has no such check there. `ListProgresses` shows that the check never fires when the end delimiter and the element never move back.
- Grammar.ListLoop: the Go loop consumes a separator before each further element, so it would spin forever only if the separator and the element together consumed nothing. The model stops there with `NoProgress` instead. `ListProgresses` shows that this cannot happen when the separator consumes a byte and the element never moves back. No lemma shows that every parser of the grammar meets that condition.
- FuncParser.TryC: `Try` over `*CombineResult` is not defined in `internal/funcparser/parser.go`. It is modelled from its uses: it returns the first match and stops at the first error.
- MapO, MapR, ToC and ToE are not defined in `internal/funcparser/parser.go`. They are modelled from their uses in `deserialize.go`.
- Floating point: ParseFloat, FormatFloat, float comparisons and conversions are parameters. Float targets of `Number.unmarshal` and the float branch of `looseUint64` are not modelled beyond their error results.
- Unmarshal: only the integer branches of `Number.unmarshal` and `Null.unmarshal` are in the model. Bool, String, Array, Object, struct and map unmarshalling are not.
- Unmarshal.Target: reflect values are modelled by their kind, type name and pointee. `CanSet`, `Set` and the `From` interface are not modelled.
- Unmarshal.CauseText: the four `Error()` texts are modelled. Only `strconv.FormatFloat`, used when a float number is written into the text, is a parameter. No lemma is stated about these texts beyond their definition; `Unmarshal.Error` proves the frame of the message around them.
- `strconv.Quote` and `strconv.Unquote` are parameters. String escapes and their round trip are not modelled.
- Strings are sequences of Dafny characters. The model does not capture UTF-8, so `sort.Strings` compares character codes, which agrees with Go's byte order only for text in one encoding.
- Serialize.Ordered: `sort.Strings` is modelled as an insertion sort by key. Members with equal keys keep their iteration order.
- Integer widths: the magnitude of a `Number` is a `uint64` newtype as in Go. Signed and unsigned targets use the Go widths, with `int` and `uint` taken as 64 bits.
- OrderedMap: `container/list` is a sequence of elements with unique ids, not a doubly linked list. Pointer identity of list elements is modelled by those ids.
- OrderedMap.OrderedDuplicateMapIterator.Next: Go's `next` panics ("illegal map state") once the pending element's key has been removed. The model does not model the panic. It requires `Linked()`, and `SlotIffLinked` proves that the search fails exactly when that requirement does.
- `Object.Get`, `GetAll` and `Delete` on the zero Object dereference a nil map in Go, so the model requires the map to exist.
- `ObjectIterator` is the ordered-map iterator itself; its `Next` only forwards.
- FuncParser.FlattenP: the capacity loop is folded into the concatenation it sizes.
- Serialize.Render: `Indent` is a `nat`. In Go a negative `Indent` does not panic while the level is 0. For example, `Serializer{Indent: -1}` writes "[" + newline + "]" for an empty array. Values like that are outside the model.
- The round trip through the deserializer is proved only for null, booleans and integers. Strings and floats depend on the foreign Quote, Unquote, FormatFloat and ParseFloat. Arrays and objects of null, boolean and integer values need none of these, but no lemma shows that a non-empty array or object parses. Such a proof goes through the recursion of the value parser into itself, and its steps exceed the verifier's resource budget. For arrays and objects only the empty, the mismatched and the failing cases are proved (`ListEmpty`, `ListFailures`, `ArrayNoMatch`).
- Node positions of arrays and objects are computed as the source does, but no lemma relates them to the input text.

## Findings

| source | as written | input that shows it | evidently intended | confidence | as-written member | corrected member |
|---|---|---|---|---|---|---|
| unmarshal.go:107-113 | the magnitude is checked against MaxInt64 before the sign is applied | the number -9223372036854775808 unmarshalled into an int64 | it is stored, being the smallest int64 | medium; not executed | Unmarshal.SmallestInt64Rejected | Unmarshal.UnmarshalNumberIntended |
| serialize.go:17-26 | `Number.append` never writes a '-' for a number with `IsNeg` set | deserializing "-5" gives the number 5 with `IsNeg` set, which serializes as "5" | "-5", so that the value reads back unchanged | high; not executed | RoundTrip.NegativeSignLost | Serialize.SignedNumberText |
