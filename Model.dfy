/** The data model of the version package (VersionField, the value held by a
    VersionString, the error kinds) and the model of what `encoding/json`
    hands to the two `UnmarshalJSON` methods: the raw payload bytes and, for
    the object and array shapes, the token stream a `json.Decoder` reads
    from them. Bytes are not lexed: a payload carries its tokens. */
module Model {
  import opened Wrappers
  import opened Text

  /** One dot-separated component. Parsing only ever produces numeric
      fields; the string variant is carried as plain data. */
  datatype VersionField = VersionField(isStr: bool, numValue: uint64, strValue: string)

  /** The zero VersionField, as `make` fills a fresh slice. */
  const ZeroField := VersionField(false, 0, "")

  /** The numeric field parsing produces for a component of value `x`. */
  function NumField(x: uint64): VersionField {
    ZeroField.(numValue := x)
  }

  /** The contents of a VersionString. `fields` is a Go slice, which may be
      nil (None) or present and possibly empty (Some). */
  datatype VersionValue = VersionValue(version: string, fields: Option<seq<VersionField>>, orderedVersion: bool)

  /** The zero VersionString, which is also the "null version". */
  const NullVersion := VersionValue("", None, false)

  /** Everything the package reports as an error. */
  datatype Error =
    | EmptyVersion                                                        // blank version string
    | BadField(index: nat, text: string, source: string, numError: NumError)  // component failed ParseUint
    | BadPart(index: nat, part: string, source: string, cause: Error)      // `;`-part failed FromString
    | TokenError                                                          // dec.Token failed (bad input, end of input)
    | NotDelim(got: Token)                                                // a delimiter was expected
    | BadDelim(found: char, expected: char)                               // the wrong delimiter
    | BadKey(got: Token)                                                  // an object key that is not a string
    | UnknownField(name: string)                                          // a key other than the three field names
    | ValueDecodeError                                                    // dec.Decode failed on a value

  /** A complete JSON value as `dec.Decode` reads it into a typed variable.
      JFields is an array of VersionField objects already decoded by the
      standard decoder; JOther is a number or any other value. */
  datatype JsonValue = JBool(b: bool) | JNull | JFields(fs: seq<VersionField>) | JOther

  /** One step of a `json.Decoder`: a delimiter, a string (an object key or
      a string value), another complete value, a complete array element as
      handed to an element's own UnmarshalJSON, or input the decoder
      rejects. */
  datatype Token =
    | Delim(c: char)
    | Str(s: string)
    | Value(v: JsonValue)
    | Element(p: Payload)
    | Bad

  /** What `UnmarshalJSON(b)` receives: the raw bytes `b`, which the method
      peeks at, and the tokens a decoder over `b` yields. */
  datatype Payload = Payload(raw: string, tokens: seq<Token>)

  /** The peek both `UnmarshalJSON` methods start with: a quoted string or
      the bare literal `null` takes the string shape. */
  predicate IsStringShape(raw: string)
    requires |raw| > 0
    ensures IsStringShape(raw) ==> raw[0] == '"' || raw[0] == 'n'
    ensures raw[0] == '{' || raw[0] == '[' ==> !IsStringShape(raw)
  {
    raw[0] == '"' || raw == "null"
  }

  /** `dec.More()`: another element or member follows unless the next token
      is a closing delimiter or the input has ended. */
  predicate More(ts: seq<Token>, pos: nat)
    ensures More(ts, pos) ==> pos < |ts|
    ensures pos < |ts| && !ts[pos].Delim? ==> More(ts, pos)
  {
    pos < |ts| && ts[pos] != Delim('}') && ts[pos] != Delim(']')
  }

  /** `dec.Token()` where the delimiter `want` is required. */
  function ExpectDelim(ts: seq<Token>, pos: nat, want: char): (e: Option<Error>)
    ensures e == None <==> pos < |ts| && ts[pos] == Delim(want)
  {
    if pos >= |ts| || ts[pos].Bad? then Some(TokenError)
    else if !ts[pos].Delim? then Some(NotDelim(ts[pos]))
    else if ts[pos].c != want then Some(BadDelim(ts[pos].c, want))
    else None
  }

  /** `dec.Token()` where an object key is required. */
  function KeyAt(ts: seq<Token>, pos: nat): (r: Result<string, Error>)
    ensures r.Success? <==> pos < |ts| && ts[pos].Str?
    ensures r.Success? ==> ts[pos] == Str(r.value)
  {
    if pos >= |ts| || ts[pos].Bad? then Failure(TokenError)
    else if ts[pos].Str? then Success(ts[pos].s)
    else Failure(BadKey(ts[pos]))
  }

  /** The token at `pos`, or None past the end of the input. */
  function TokenAt(ts: seq<Token>, pos: nat): Option<Token> {
    if pos < |ts| then Some(ts[pos]) else None
  }

  // `dec.Decode(&x)` into a fresh local `x` of each field's type. A JSON null
  // leaves the local at its zero value: "" for a string, nil for a slice,
  // false for a bool.

  function DecodeString(t: Option<Token>): (r: Result<string, Error>)
    ensures r.Success? <==> t.Some? && (t.value.Str? || t.value == Value(JNull))
    ensures t == Some(Value(JNull)) ==> r == Success("")
    ensures r.Failure? ==> r.error == ValueDecodeError
  {
    match t
    case Some(Str(s)) => Success(s)
    case Some(Value(JNull)) => Success("")
    case _ => Failure(ValueDecodeError)
  }

  function DecodeFields(t: Option<Token>): (r: Result<Option<seq<VersionField>>, Error>)
    ensures r.Success? <==> t.Some? && t.value.Value? && (t.value.v.JFields? || t.value.v.JNull?)
    ensures t == Some(Value(JNull)) ==> r == Success(None)
    ensures r.Success? && r.value.Some? ==> t == Some(Value(JFields(r.value.value)))
    ensures r.Failure? ==> r.error == ValueDecodeError
  {
    match t
    case Some(Value(JFields(fs))) => Success(Some(fs))
    case Some(Value(JNull)) => Success(None)
    case _ => Failure(ValueDecodeError)
  }

  function DecodeBool(t: Option<Token>): (r: Result<bool, Error>)
    ensures r.Success? <==> t.Some? && t.value.Value? && (t.value.v.JBool? || t.value.v.JNull?)
    ensures t == Some(Value(JNull)) ==> r == Success(false)
    ensures r.Failure? ==> r.error == ValueDecodeError
  {
    match t
    case Some(Value(JBool(b))) => Success(b)
    case Some(Value(JNull)) => Success(false)
    case _ => Failure(ValueDecodeError)
  }

  /** What a decode leaves behind: the receiver's contents and the error
      returned, if any. On an error the contents may be partly updated. */
  datatype Decoded = Decoded(state: VersionValue, err: Option<Error>)
}
