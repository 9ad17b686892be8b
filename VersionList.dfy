/** VersionStrings: a slice of VersionString values, parsed from a
    `;`-separated list (`FromString`) or decoded from JSON as either a
    legacy string / null payload or an array of VersionString payloads
    (`UnmarshalJSON`). Both methods write the receiver only on success. */
module VersionList {
  import opened Wrappers
  import opened Text
  import opened Model
  import opened SingleVersion

  // ---------------------------------------------------------------------
  // Parsing a `;`-separated list

  /** The outcome of `FromString(s)`: every `;`-separated part parsed as a
      version, or the first part that fails, with its index, its text, the
      whole input and the part's own error. */
  function ParseVersionList(s: string): Result<seq<VersionValue>, Error> {
    var parts := Split(s, ';');
    match Traverse(parts, ParseVersion)
    case Success(vs) => Success(vs)
    case Failure((i, e)) => Failure(BadPart(i, parts[i], s, e))
  }

  // ---------------------------------------------------------------------
  // Decoding the array shape

  /** `dec.Decode(&v)` of one array element into a fresh zero VersionString:
      a complete element goes through VersionString's own decoder, whose
      error is passed on as it is; anything else is not a value. */
  function DecodeElement(t: Token): (r: Result<VersionValue, Error>)
    ensures r.Success? <==> t.Element? && GoodElement(t.p)
    ensures r.Success? ==> r.value == Unmarshal(NullVersion, t.p).state
    ensures t.Element? && |t.p.raw| > 0 && Unmarshal(NullVersion, t.p).err.Some? ==>
      r == Failure(Unmarshal(NullVersion, t.p).err.value)
    ensures !t.Element? ==> r == Failure(ValueDecodeError)
  {
    match t
    case Element(p) =>
      if |p.raw| == 0 then Failure(ValueDecodeError)
      else
        var d := Unmarshal(NullVersion, p);
        (match d.err
         case Some(e) => Failure(e)
         case None => Success(d.state))
    case _ => Failure(ValueDecodeError)
  }

  /** The `for dec.More()` loop over the array's elements from `pos`: the
      decoded elements in order and the position after the last. */
  function Elements(ts: seq<Token>, pos: nat): (r: Result<(seq<VersionValue>, nat), Error>)
    ensures r.Success? ==> pos <= r.value.1 && !More(ts, r.value.1)
    decreases |ts| - pos
  {
    if !More(ts, pos) then Success(([], pos))
    else
      match DecodeElement(ts[pos])
      case Failure(e) => Failure(e)
      case Success(v) =>
        match Elements(ts, pos + 1)
        case Failure(e) => Failure(e)
        case Success((vs, end)) => Success(([v] + vs, end))
  }

  /** The array shape: `[`, the elements, `]`; no elements is a nil slice. */
  function DecodeArray(ts: seq<Token>): Result<Option<seq<VersionValue>>, Error> {
    match ExpectDelim(ts, 0, '[')
    case Some(e) => Failure(e)
    case None =>
      match Elements(ts, 1)
      case Failure(e) => Failure(e)
      case Success((vs, pos)) =>
        match ExpectDelim(ts, pos, ']')
        case Some(e) => Failure(e)
        case None => Success(if |vs| > 0 then Some(vs) else None)
  }

  /** What `UnmarshalJSON(p)` stores in the receiver on success (None is a
      nil slice), or the error it returns. */
  function UnmarshalList(p: Payload): Result<Option<seq<VersionValue>>, Error>
    requires |p.raw| > 0
  {
    if IsStringShape(p.raw) then
      var s := TrimQuotes(p.raw);
      if s == "null" || s == "" then Success(None)
      else
        match ParseVersionList(s)
        case Success(vs) => Success(Some(vs))
        case Failure(e) => Failure(e)
    else DecodeArray(p.tokens)
  }

  /** Elements decoded before position `pos`, put in front of what the rest
      of the loop yields. */
  function Prepend(acc: seq<VersionValue>, r: Result<(seq<VersionValue>, nat), Error>)
    : Result<(seq<VersionValue>, nat), Error>
  {
    match r
    case Success((vs, pos)) => Success((acc + vs, pos))
    case Failure(e) => Failure(e)
  }

  lemma PrependNothing(r: Result<(seq<VersionValue>, nat), Error>)
    ensures Prepend([], r) == r
  {
    if r.Success? {
      assert [] + r.value.0 == r.value.0;
    }
  }

  lemma PrependTwice(a: seq<VersionValue>, b: seq<VersionValue>, r: Result<(seq<VersionValue>, nat), Error>)
    ensures Prepend(a, Prepend(b, r)) == Prepend(a + b, r)
  {
    if r.Success? {
      assert a + (b + r.value.0) == (a + b) + r.value.0;
    }
  }

  // ---------------------------------------------------------------------
  // The receiver

  class VersionStrings {
    /** The slice; None is a nil slice. */
    var items: Option<seq<VersionValue>>

    /** `var vs VersionStrings`: a nil slice. */
    constructor ()
      ensures items == None
    {
      items := None;
    }

    /** Parses the `;`-separated list `s` into this receiver. */
    method FromString(s: string) returns (err: Option<Error>)
      modifies this
      ensures ParseVersionList(s).Success? ==> err == None && items == Some(ParseVersionList(s).value)
      ensures ParseVersionList(s).Failure? ==> err == Some(ParseVersionList(s).error) && items == old(items)
    {
      var parts := Split(s, ';');
      var vs1 := new VersionValue[|parts|](_ => NullVersion);
      for i := 0 to |parts|
        modifies vs1
        invariant forall k :: 0 <= k < i ==> ParseVersion(parts[k]) == Success(vs1[k])
      {
        var elem := new VersionString.Of(vs1[i]);
        var e := elem.FromString(parts[i]);
        vs1[i] := elem.Value();
        if e.Some? {
          TraverseFailsAt(parts, ParseVersion, i);
          return Some(BadPart(i, parts[i], s, e.value));
        }
      }
      TraverseSucceeds(parts, ParseVersion);
      assert Traverse(parts, ParseVersion).value == vs1[..];
      items := Some(vs1[..]);
      return None;
    }

    /** Decodes the JSON payload `p` into this receiver. */
    method UnmarshalJSON(p: Payload) returns (err: Option<Error>)
      requires |p.raw| > 0
      modifies this
      ensures UnmarshalList(p).Success? ==> err == None && items == UnmarshalList(p).value
      ensures UnmarshalList(p).Failure? ==> err == Some(UnmarshalList(p).error) && items == old(items)
    {
      if IsStringShape(p.raw) {
        var s := TrimQuotes(p.raw);
        if s == "null" || s == "" {
          items := None;
          return None;
        }
        err := FromString(s);
        return;
      }
      var ts := p.tokens;
      err := ExpectDelim(ts, 0, '[');
      if err.Some? {
        return;
      }
      var vs1: seq<VersionValue> := [];
      var pos := 1;
      PrependNothing(Elements(ts, 1));
      while More(ts, pos)
        invariant 1 <= pos
        invariant items == old(items)
        invariant Elements(ts, 1) == Prepend(vs1, Elements(ts, pos))
        decreases |ts| - pos
      {
        var t := ts[pos];
        if !t.Element? || |t.p.raw| == 0 {
          return Some(ValueDecodeError);
        }
        var v := new VersionString();
        var e := v.UnmarshalJSON(t.p);
        if e.Some? {
          return e;
        }
        assert Elements(ts, pos) == Prepend([v.Value()], Elements(ts, pos + 1));
        PrependTwice(vs1, [v.Value()], Elements(ts, pos + 1));
        vs1 := vs1 + [v.Value()];
        pos := pos + 1;
      }
      assert vs1 + [] == vs1;
      err := ExpectDelim(ts, pos, ']');
      if err.Some? {
        return;
      }
      if |vs1| > 0 {
        items := Some(vs1);
      } else {
        items := None;
      }
    }
  }
  // ---------------------------------------------------------------------
  // Properties of the `;`-separated list

  /** A list parses to one version per `;`-separated part (one more than
      the separators, so never none: the nil-slice branch for an empty split
      cannot be taken), each the version that part parses to. */
  lemma ListSucceeds(s: string)
    requires ParseVersionList(s).Success?
    ensures var parts := Split(s, ';');
      var vs := ParseVersionList(s).value;
      && |vs| == |parts| == Count(s, ';') + 1
      && forall i :: 0 <= i < |parts| ==> ParseVersion(parts[i]) == Success(vs[i])
  {
    SplitCount(s, ';');
    TraverseSucceeds(Split(s, ';'), ParseVersion);
  }

  /** A list parses exactly when every part does; a failure names the first
      failing part, its text, the whole input and that part's own error. */
  lemma ListFails(s: string)
    ensures ParseVersionList(s).Success? <==>
      forall i :: 0 <= i < |Split(s, ';')| ==> ParseVersion(Split(s, ';')[i]).Success?
    ensures var parts := Split(s, ';');
      ParseVersionList(s).Failure? ==>
        var e := ParseVersionList(s).error;
        && e.BadPart?
        && e.index < |parts|
        && e.part == parts[e.index]
        && e.source == s
        && ParseVersion(e.part) == Failure(e.cause)
        && forall k :: 0 <= k < e.index ==> ParseVersion(parts[k]).Success?
  {
    TraverseSucceeds(Split(s, ';'), ParseVersion);
    TraverseFailsFirst(Split(s, ';'), ParseVersion);
  }

  /** A blank part makes the whole list fail, at that part or earlier. */
  lemma BlankPartFails(s: string, i: nat)
    requires i < |Split(s, ';')| && TrimSpace(Split(s, ';')[i]) == ""
    ensures ParseVersionList(s).Failure?
    ensures ParseVersionList(s).error.index <= i
  {
    ParseVersionFails(Split(s, ';')[i]);
    ListFails(s);
  }

  /** A leading or a trailing `;` leaves a blank part, so the list fails. */
  lemma EdgeSeparatorFails(s: string)
    requires |s| > 0 && (s[0] == ';' || s[|s| - 1] == ';')
    ensures ParseVersionList(s).Failure?
  {
    var parts := Split(s, ';');
    SplitCount(s, ';');
    SplitEnds(s, ';');
    var first, last := parts[0], parts[|parts| - 1];
    if s[0] == ';' {
      assert first == "";
      BlankPartFails(s, 0);
    } else {
      assert last == "";
      BlankPartFails(s, |parts| - 1);
    }
  }

  /** Two adjacent separators leave a blank part, so the list fails. */
  lemma DoubledSeparatorFails(a: string, b: string)
    ensures ParseVersionList(a + ";;" + b).Failure?
  {
    var s := a + ";;" + b;
    assert s == a + [';'] + ([] + [';'] + b);
    SplitAppend(a, [] + [';'] + b, ';');
    SplitAppend([], b, ';');
    assert Split(s, ';')[|Split(a, ';')|] == "";
    BlankPartFails(s, |Split(a, ';')|);
  }

  // ---------------------------------------------------------------------
  // Properties of the string / null shape

  /** `null`, `"null"` and a payload of double quotes only (`""` among
      them) all decode to a nil slice. */
  lemma NullIsNil(ts: seq<Token>, p: Payload)
    requires |p.raw| > 0 && forall i :: 0 <= i < |p.raw| ==> p.raw[i] == '"'
    ensures UnmarshalList(Payload("null", ts)) == Success(None)
    ensures UnmarshalList(Payload("\"null\"", ts)) == Success(None)
    ensures UnmarshalList(p) == Success(None)
  {
    assert TrimLeft("null", IsQuote) == "null";
    assert TrimRight("null", IsQuote) == "null";
    TrimWrapped("null", '"', IsQuote);
    assert "\"null\"" == ['"'] + "null" + ['"'];
    TrimAllCut(p.raw, IsQuote);
  }

  /** A successful decode never leaves an empty non-nil slice: the string
      shape yields nil or at least one version, and an empty array is nil. */
  lemma NeverEmptyList(p: Payload)
    requires |p.raw| > 0
    ensures UnmarshalList(p).Success? ==> UnmarshalList(p).value != Some([])
  {
    if IsStringShape(p.raw) {
      var s := TrimQuotes(p.raw);
      if ParseVersionList(s).Success? {
        ListSucceeds(s);
      }
    }
  }

  // ---------------------------------------------------------------------
  // Properties of the array shape

  /** An element the VersionString decoder accepts from a zero receiver. */
  predicate GoodElement(p: Payload) {
    |p.raw| > 0 && Unmarshal(NullVersion, p).err == None
  }

  /** The versions a run of accepted elements decodes to. */
  function States(ps: seq<Payload>): (vs: seq<VersionValue>)
    requires forall i :: 0 <= i < |ps| ==> GoodElement(ps[i])
    ensures |vs| == |ps|
  {
    seq(|ps|, i requires 0 <= i < |ps| && GoodElement(ps[i]) => Unmarshal(NullVersion, ps[i]).state)
  }

  function ElementTokens(ps: seq<Payload>): (ts: seq<Token>)
    ensures |ts| == |ps|
  {
    seq(|ps|, i requires 0 <= i < |ps| => Element(ps[i]))
  }

  /** An array opened and its elements given, not yet closed. */
  function OpenArray(ps: seq<Payload>): seq<Token> {
    [Delim('[')] + ElementTokens(ps)
  }

  function ArrayTokens(ps: seq<Payload>): seq<Token> {
    OpenArray(ps) + [Delim(']')]
  }

  /** A run of accepted elements is decoded in order and the loop carries
      on after it. */
  lemma {:induction false} ElementsRun(ts: seq<Token>, pos: nat, ps: seq<Payload>)
    requires pos + |ps| <= |ts| && ts[pos..pos + |ps|] == ElementTokens(ps)
    requires forall i :: 0 <= i < |ps| ==> GoodElement(ps[i])
    ensures Elements(ts, pos) == Prepend(States(ps), Elements(ts, pos + |ps|))
    decreases |ps|
  {
    if ps == [] {
      PrependNothing(Elements(ts, pos));
    } else {
      assert ts[pos] == ElementTokens(ps)[0] == Element(ps[0]);
      var v := Unmarshal(NullVersion, ps[0]).state;
      assert DecodeElement(ts[pos]) == Success(v);
      assert Elements(ts, pos) == Prepend([v], Elements(ts, pos + 1));
      assert ts[pos + 1..pos + |ps|] == ElementTokens(ps[1..]);
      ElementsRun(ts, pos + 1, ps[1..]);
      PrependTwice([v], States(ps[1..]), Elements(ts, pos + |ps|));
      assert States(ps) == [v] + States(ps[1..]);
    }
  }

  /** A well-formed array of accepted elements decodes to their versions in
      order, an empty one to a nil slice, whatever follows it. */
  lemma ArrayOfElements(ps: seq<Payload>, rest: seq<Token>)
    requires forall i :: 0 <= i < |ps| ==> GoodElement(ps[i])
    ensures DecodeArray(ArrayTokens(ps) + rest) == Success(if ps == [] then None else Some(States(ps)))
  {
    var ts := ArrayTokens(ps) + rest;
    var n := |ps|;
    assert ts[0] == Delim('[');
    assert ts[1..1 + n] == ElementTokens(ps);
    assert ts[1 + n] == Delim(']');
    ElementsRun(ts, 1, ps);
    assert Elements(ts, 1 + n) == Success(([], 1 + n));
    assert States(ps) + [] == States(ps);
  }

  /** The first element that fails to decode stops the array, and its error
      is returned as it is. */
  lemma ArrayElementFails(ps: seq<Payload>, bad: Token, rest: seq<Token>)
    requires forall i :: 0 <= i < |ps| ==> GoodElement(ps[i])
    requires bad != Delim('}') && bad != Delim(']') && DecodeElement(bad).Failure?
    ensures DecodeArray(OpenArray(ps) + [bad] + rest) == Failure(DecodeElement(bad).error)
  {
    var ts := OpenArray(ps) + [bad] + rest;
    var n := |ps|;
    assert ts[0] == Delim('[');
    assert ts[1..1 + n] == ElementTokens(ps);
    assert ts[1 + n] == bad;
    ElementsRun(ts, 1, ps);
  }

  /** Conversely, an element loop that ends without error has read a run of
      accepted elements, and yields exactly their versions. */
  lemma {:induction false} ElementsConverse(ts: seq<Token>, pos: nat) returns (ps: seq<Payload>)
    requires pos <= |ts| && Elements(ts, pos).Success?
    ensures forall i :: 0 <= i < |ps| ==> GoodElement(ps[i])
    ensures pos + |ps| == Elements(ts, pos).value.1 <= |ts|
    ensures ts[pos..Elements(ts, pos).value.1] == ElementTokens(ps)
    ensures Elements(ts, pos).value.0 == States(ps)
    decreases |ts| - pos
  {
    if !More(ts, pos) {
      ps := [];
    } else {
      var p := ts[pos].p;
      var rest := ElementsConverse(ts, pos + 1);
      ps := [p] + rest;
      assert ps[1..] == rest;
      assert States(ps) == [Unmarshal(NullVersion, p).state] + States(rest);
      assert ElementTokens(ps) == [Element(p)] + ElementTokens(rest);
      var end := Elements(ts, pos).value.1;
      assert ts[pos..end] == [ts[pos]] + ts[pos + 1..end];
    }
  }

  /** An array decodes without error only when it is `[`, a run of accepted
      elements and `]` (anything may follow), and the result is then their
      versions in order, or nil when there are none: the converse of
      ArrayOfElements. */
  lemma ArrayConverse(ts: seq<Token>) returns (ps: seq<Payload>, rest: seq<Token>)
    requires DecodeArray(ts).Success?
    ensures forall i :: 0 <= i < |ps| ==> GoodElement(ps[i])
    ensures ts == ArrayTokens(ps) + rest
    ensures DecodeArray(ts).value == if ps == [] then None else Some(States(ps))
  {
    ps := ElementsConverse(ts, 1);
    var end := Elements(ts, 1).value.1;
    rest := ts[end + 1..];
    assert ts == ts[..1] + ts[1..end] + ts[end..end + 1] + rest;
  }

  /** A decoded array was opened with `[` and closed with `]`; anything
      else at the start is reported as the opening token's error. */
  lemma ArrayFraming(ts: seq<Token>)
    ensures DecodeArray(ts).Success? ==>
      && |ts| > 0 && ts[0] == Delim('[')
      && exists j :: 1 <= j < |ts| && ts[j] == Delim(']')
    ensures (|ts| == 0 || ts[0] != Delim('[')) ==>
      DecodeArray(ts) == Failure(ExpectDelim(ts, 0, '[').value)
  {
    if DecodeArray(ts).Success? {
      var j := Elements(ts, 1).value.1;
      assert ts[j] == Delim(']');
    }
  }

  // ---------------------------------------------------------------------
  // The two encodings agree

  /** The structured encoding of each version, as array elements. */
  function EncodedElements(vs: seq<VersionValue>, raws: seq<string>): (ps: seq<Payload>)
    requires |raws| == |vs|
    ensures |ps| == |vs|
  {
    seq(|vs|, i requires 0 <= i < |vs| => Payload(raws[i], ObjectTokens(EncodeMembers(vs[i]))))
  }

  /** An array of structured encodings decodes back to the versions. */
  lemma ArrayRoundTrip(vs: seq<VersionValue>, raws: seq<string>, raw: string)
    requires |raws| == |vs| && forall i :: 0 <= i < |raws| ==> |raws[i]| > 0 && raws[i][0] == '{'
    requires |raw| > 0 && raw[0] == '['
    ensures UnmarshalList(Payload(raw, ArrayTokens(EncodedElements(vs, raws)))) ==
      Success(if vs == [] then None else Some(vs))
  {
    var ps := EncodedElements(vs, raws);
    forall i | 0 <= i < |ps|
      ensures GoodElement(ps[i]) && Unmarshal(NullVersion, ps[i]).state == vs[i]
    {
      ObjectRoundTrip(NullVersion, vs[i], raws[i]);
    }
    ArrayOfElements(ps, []);
    assert ArrayTokens(ps) + [] == ArrayTokens(ps);
    assert States(ps) == vs;
  }

  /** The legacy string `"a;b;..."` and the array of the structured
      encodings of the versions it parses to decode to the same slice. */
  lemma LegacyListMatchesArray(s: string, ts: seq<Token>, raws: seq<string>, raw: string)
    requires ParseVersionList(s).Success?
    requires |raws| == |ParseVersionList(s).value|
    requires forall i :: 0 <= i < |raws| ==> |raws[i]| > 0 && raws[i][0] == '{'
    requires |raw| > 0 && raw[0] == '['
    ensures UnmarshalList(Payload(['"'] + s + ['"'], ts)) == Success(Some(ParseVersionList(s).value))
    ensures UnmarshalList(Payload(raw, ArrayTokens(EncodedElements(ParseVersionList(s).value, raws)))) ==
      Success(Some(ParseVersionList(s).value))
  {
    var vs := ParseVersionList(s).value;
    var parts := Split(s, ';');
    ListSucceeds(s);
    SplitEnds(s, ';');
    var first, last := parts[0], parts[|parts| - 1];
    ParsedTextEnds(first);
    ParsedTextEnds(last);
    assert s[0] == first[0];
    assert s[|s| - 1] == last[|last| - 1];
    TrimWrapped(s, '"', IsQuote);
    assert s != "null";
    ArrayRoundTrip(vs, raws, raw);
  }
}
