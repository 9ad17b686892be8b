# Version strings with a two-shape JSON decoder — a Dafny model

This project models the Go package in `main.go`. The package defines a
version value type, `VersionString`, and a slice of them, `VersionStrings`.
Each type has two entry points:

- `FromString` parses text. A version is a dot-separated list of unsigned
  64-bit decimal components, such as `1.2.3.4`. A version list is a
  `;`-separated list of versions.
- `UnmarshalJSON` decodes JSON in either of two shapes. The legacy shape is a
  bare string or `null`. The structured shape is an object with the fields
  `Version`, `Fields` and `OrderedVersion` for one version, or an array of
  such values for a list.

The model is split into five modules:

- `Wrappers` holds `Option` and `Result`, and `Traverse`. `Traverse` is the
  "parse each item in order, stop at the first failure" loop that both
  parsers share, with its success and first-failure properties proved.
- `Text` holds the library helpers the parsers call, as pure functions:
  `strings.TrimSpace`, `strings.Trim(s, "\"")`, `strings.Split` with a
  one-character separator, and `strconv.ParseUint(s, 10, 64)`.
- `Model` holds the data types: `VersionField`, the contents of a
  `VersionString`, and the error kinds. It also holds the model of what
  `encoding/json` gives the decoders. A `Payload` carries the raw bytes,
  which both decoders peek at, and the tokens a `json.Decoder` reads from
  them. Bytes are not lexed. An array element appears as one `Element`
  token that carries its own payload.
- `SingleVersion` holds the class `VersionString`. Its fields are updated in
  place by the methods `FromString` and `UnmarshalJSON`, which have loops.
  Each method is proved against a pure function (`ParseVersion` /
  `FromStringEffect` and `Unmarshal`), and the lemmas state what those
  functions promise.
- `VersionList` holds the class `VersionStrings` in the same style. Its spec
  functions are `ParseVersionList` and `UnmarshalList`.

Go distinguishes a nil slice from an empty one, and so does the model: both
`Fields` and the `VersionStrings` slice are `Option<seq<...>>`, where `None`
is nil.

## Model

| member | source | states |
|---|---|---|
| Wrappers.Traverse | main.go:42-49 | a successful traversal yields one result per item; a failure names an index inside the input |
| Wrappers.TraverseSucceeds | main.go:42-49 | the traversal succeeds exactly when every item parses, and the results are the items' results in order |
| Wrappers.TraverseFailsFirst | main.go:42-46 | a failure reports the first failing item and that item's own error; every earlier item parsed |
| Wrappers.TraverseFailsAt | main.go:129-132 | if item k is the first that fails, the traversal reports exactly index k and its error |
| Text.TrimShape | main.go:32 | trimming keeps a contiguous slice of the input, removes only cut characters from both ends, and leaves neither end a cut character |
| Text.TrimAllCut | main.go:56 | a payload made only of double quotes trims to the empty string |
| Text.TrimWrapped | main.go:56 | stripping quotes from `"s"` gives back `s` when `s` neither starts nor ends with a quote |
| Text.TrimEnds | main.go:32 | when the trimmed text is non-empty, each end of the input is a trimmed character or the matching end of the trimmed text |
| Text.SplitCount | main.go:40 | splitting yields one more piece than there are separators, so never zero pieces, and no piece contains the separator |
| Text.JoinSplit | main.go:123 | joining the pieces of a split with the separator gives back the input |
| Text.SplitJoin | main.go:123 | splitting the join of separator-free pieces gives back those pieces |
| Text.SplitAppend | main.go:123 | a separator between two strings splits them independently: `Split(a;b) == Split(a) + Split(b)` |
| Text.SplitEnds | main.go:123 | the first piece is a prefix of the input and the last piece a suffix |
| Text.ParseUintCorrect | main.go:43 | ParseUint succeeds exactly on non-empty all-digit text of value at most 2^64-1, and returns its decimal value |
| Text.ParseUintRange | main.go:43 | all-digit text above 2^64-1 is a range error |
| Text.ParseUintSyntax | main.go:43 | a non-digit reached before any overflow is a syntax error |
| Model.ExpectDelim | main.go:69-75 | reading a required delimiter fails exactly when the next token is not that delimiter |
| Model.KeyAt | main.go:79-82 | reading an object key succeeds exactly on a string token, and returns its text |
| Model.IsStringShape | main.go:55 | the legacy string/null shape is taken only by a payload starting with `"` or equal to `null`; a payload starting with `{` or `[` never takes it |
| Model.More | main.go:78 | `dec.More()` is false at the end of input, and true at any token that is not a delimiter |
| Model.DecodeString | main.go:86-89 | decoding a Version value succeeds exactly on a string or null; null leaves the fresh string at `""`; any other value is a ValueDecodeError |
| Model.DecodeFields | main.go:92-95 | decoding a Fields value succeeds exactly on a field array or null; null leaves the fresh slice nil, and a present slice, even an empty one, is exactly the array given |
| Model.DecodeBool | main.go:98-101 | decoding an OrderedVersion value succeeds exactly on a boolean or null; null leaves the fresh bool false |
| SingleVersion.Members | main.go:78-107 | the member loop never moves backwards; when it ends without error, the next token closes the object or the input has ended |
| SingleVersion.SetField | main.go:84-105 | a key other than the three names is an UnknownField error; a known key succeeds exactly when its value is accepted, and then overwrites only its own field |
| SingleVersion.VersionString.constructor | main.go:25-29 | a fresh VersionString holds the null version |
| SingleVersion.VersionString.Of | main.go:128-130 | a VersionString holding a given value, as a slice element `vs1[i]` does before its own FromString runs |
| SingleVersion.VersionString.FromString | main.go:31-52 | the new state and the error are `FromStringEffect` of the old state. It succeeds exactly when `ParseVersion` does, with that value. A blank input errors with EmptyVersion and leaves the receiver unchanged. A component failure leaves the trimmed text with nil Fields and OrderedVersion false |
| SingleVersion.VersionString.UnmarshalJSON | main.go:54-117 | the new state and the error are `Unmarshal` of the old state and the payload, through the string/null shape or the member loop over the tokens |
| SingleVersion.ParseVersionSucceeds | main.go:36-50 | on success, Version is the trimmed input, OrderedVersion is false, and there is one numeric field per `.` component (dots + 1), each holding that component's decimal value with IsStr false |
| SingleVersion.ParseVersionFails | main.go:32-46 | parsing succeeds exactly on valid trimmed text. Blank input gives EmptyVersion. Otherwise a failure names the first component ParseUint rejects, its text, the trimmed input and ParseUint's cause |
| SingleVersion.ParsedTextEnds | main.go:32-43 | text that parses is non-empty, and each of its ends is white space or a digit |
| SingleVersion.ExampleBadComponent | main.go:40-46 | `1.a.3` fails at component 1, whose text is `a`, with a syntax error |
| SingleVersion.QuotesOnlyIsNull | main.go:55-61 | a payload made only of double quotes, `""` among them, decodes to the null version without error, whatever the receiver held |
| SingleVersion.NullIsNull | main.go:55-61 | `null` and `"null"` decode to the null version without error, whatever the receiver held |
| SingleVersion.LastValueSpec | main.go:84-102 | the value a key ends up with is absent exactly when no member names the key; otherwise it belongs to a member with that key that no later member shares |
| SingleVersion.LastValueAccepted | main.go:84-102 | the last value of a key among accepted members is itself accepted |
| SingleVersion.OverlayCons | main.go:84-102 | applying one accepted member and then the rest equals overlaying them all |
| SingleVersion.MembersPrefix | main.go:78-107 | reading a run of accepted members applies them in order, each key overwriting only its own field |
| SingleVersion.DecodeAfterMembers | main.go:69-116 | after `{` and accepted members, decoding goes on from the receiver overlaid with those members |
| SingleVersion.DecodeWellFormed | main.go:69-117 | a well-framed object of accepted members decodes without error to the receiver overlaid with them. A repeated key keeps its last value and nothing after `}` is read |
| SingleVersion.AbsentKeyKeeps | main.go:84-102 | a field that no member names keeps the receiver's previous value |
| SingleVersion.UnknownKeyStops | main.go:103-105 | a key other than the three field names stops decoding with an UnknownField error naming it, after the earlier members have been written |
| SingleVersion.MembersStopAtUnknown | main.go:103-105 | the member loop stops at an unknown key with that error, without moving or changing the receiver |
| SingleVersion.ObjectFraming | main.go:69-116 | the object shape succeeds only when the tokens open with `{` and contain a `}`; a missing `{` fails before the receiver is touched |
| SingleVersion.MembersConverse | main.go:78-107 | a member loop that ends without error has read a run of accepted members, two tokens each, and left the receiver overlaid with exactly those |
| SingleVersion.ObjectConverse | main.go:69-117 | an object decodes without error only when the tokens are `{`, accepted members and `}`, possibly followed by more, and the receiver is then overlaid with those members; with DecodeWellFormed, an if-and-only-if |
| SingleVersion.ObjectRoundTrip | main.go:84-102 | decoding the three-key object encoding of any value w gives back exactly w without error, whatever the receiver held |
| SingleVersion.LegacyMatchesStructured | main.go:55-102 | the legacy string `"s"` and the object encoding of the version `s` parses to both decode to that version |
| VersionList.Elements | main.go:161-167 | the element loop never moves backwards; when it ends without error, the next token closes the array or the input has ended |
| VersionList.DecodeElement | main.go:162-165 | an element decodes exactly when it is a payload VersionString.UnmarshalJSON accepts from the zero value, giving the state it leaves; that decoder's error is passed on unchanged, and any other token is a ValueDecodeError |
| VersionList.VersionStrings.constructor | main.go:120 | a fresh VersionStrings is a nil slice |
| VersionList.VersionStrings.FromString | main.go:122-136 | on success the receiver becomes the parsed list. On failure it returns the first part's BadPart error and leaves the receiver unchanged |
| VersionList.VersionStrings.UnmarshalJSON | main.go:138-183 | on success the receiver becomes `UnmarshalList` of the payload. On any error it returns that error and leaves the receiver unchanged |
| VersionList.ListSucceeds | main.go:122-135 | a parsed list has one version per `;` part (separators + 1, never 0, so the empty branch at lines 124-127 is dead), each equal to that part's own parse |
| VersionList.ListFails | main.go:129-133 | a list parses exactly when every part does. A failure names the first failing part's index, its text, the whole input and that part's own error |
| VersionList.BlankPartFails | main.go:123-133 | a blank part makes the whole list fail, at that part or at an earlier one |
| VersionList.EdgeSeparatorFails | main.go:123-133 | a leading or trailing `;` makes the list fail |
| VersionList.DoubledSeparatorFails | main.go:123-133 | two adjacent `;` make the list fail |
| VersionList.NullIsNil | main.go:139-144 | `null`, `"null"` and a payload made only of quotes decode to a nil slice |
| VersionList.NeverEmptyList | main.go:139-182 | a successful decode never yields an empty non-nil slice |
| VersionList.ElementsRun | main.go:161-167 | a run of accepted elements is decoded in input order, each from a fresh zero VersionString through its UnmarshalJSON, and the loop carries on after it |
| VersionList.ArrayOfElements | main.go:149-182 | a well-framed array of accepted elements decodes to their versions in order; an empty array gives nil; nothing after `]` is read |
| VersionList.ArrayElementFails | main.go:161-165 | the first element that fails stops the array, and its error is returned unchanged |
| VersionList.ArrayFraming | main.go:150-176 | the array shape succeeds only when the tokens open with `[` and contain a `]`; a missing `[` is reported as the first token's error |
| VersionList.ElementsConverse | main.go:161-167 | an element loop that ends without error has read a run of accepted elements, one token each, and yields exactly their versions in order |
| VersionList.ArrayConverse | main.go:149-182 | an array decodes without error only when the tokens are `[`, accepted elements and `]`, possibly followed by more, and the result is their versions in order, or nil when there are none; with ArrayOfElements, an if-and-only-if |
| VersionList.ArrayRoundTrip | main.go:160-182 | an array of the object encodings of any versions decodes back to those versions, or to nil when there are none |
| VersionList.LegacyListMatchesArray | main.go:139-182 | the legacy string `"a;b;..."` and the array of the object encodings of the versions it parses to decode to the same slice |

## Left out

- `main` (main.go:185-227) is a demo driver that only prints. Its round trips are stated as ObjectRoundTrip, LegacyMatchesStructured, ArrayRoundTrip and LegacyListMatchesArray.
- `WrapTraceableErrorf` (main.go:13-16) formats and wraps messages. Errors are a datatype that keeps the data each message carries: the index, the part's text, the source text and the cause.
- `encoding/json` is not modelled byte by byte.
  - Lexing, `dec.Token` and `dec.More` are modelled over a token sequence that comes with each payload.
  - The values `dec.Decode` reads for `Version`, `Fields` and `OrderedVersion` arrive already typed, as a string, a decoded field list, a boolean or null. A value of the wrong type is a ValueDecodeError.
  - An array element arrives as one token holding the payload the element's own UnmarshalJSON receives. Any other token in element position is a ValueDecodeError.
  - The error messages of `encoding/json` itself collapse to TokenError and ValueDecodeError.
  - The token model admits streams a real `json.Decoder` never yields, such as a number in key position or `]` closing an object. On those the model reports its own error kinds (BadKey, NotDelim, BadDelim), where `dec.Token` would report a syntax error of its own; `encoding/json` checks a payload before any UnmarshalJSON sees it, so such streams do not arise.
- `json.Marshal` is not modelled. Its output is stated as the three-member object `EncodeMembers`, with nil Fields written as null.
- The global `SimpleStringUnmarshalForVersionString` (main.go:11) is never read, so it is not modelled.
- `Text.TrimSpace` removes only ASCII white space (space, tab, newline, vertical tab, form feed, carriage return), not the full Unicode set that `strings.TrimSpace` removes.
- Payload bytes are modelled as characters, which agrees with the source for the ASCII bytes the code inspects.
- `SingleVersion.VersionString.UnmarshalJSON` and `VersionList.VersionStrings.UnmarshalJSON` require a non-empty payload. With an empty one, the source's first-byte read would panic, but `encoding/json` never passes an empty payload.
- The branch for an empty split in `VersionStrings.FromString` (main.go:124-127) is not modelled, because it cannot be taken. `Text.SplitCount` and `VersionList.ListSucceeds` show that a split always has at least one part.
- `IsStr`, `StrValue` and `OrderedVersion` are kept as plain data. Parsing never sets `IsStr` or `OrderedVersion` to true, and the source gives them no other meaning.
