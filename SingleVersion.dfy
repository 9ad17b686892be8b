/** VersionString: parsing a dot-separated numeric version (`FromString`)
    and the two-shape JSON decoder (`UnmarshalJSON`), which accepts either a
    legacy string / null payload or a structured object. The receiver is a
    class whose fields the methods update in place; the pure functions
    above the class state what the methods do, and the lemmas below it
    state what those functions promise. */
module SingleVersion {
  import opened Wrappers
  import opened Text
  import opened Model

  // ---------------------------------------------------------------------
  // Parsing a version string

  /** One component through `strconv.ParseUint`, as a numeric field. */
  function ParseField(part: string): Result<VersionField, NumError> {
    match ParseUint(part)
    case Success(x) => Success(NumField(x))
    case Failure(e) => Failure(e)
  }

  /** The outcome of a successful or failed `FromString(s)` as a value: the
      trimmed text split on `.`, every component numeric, or the first
      component that is not, with its index, its text and the trimmed input. */
  function ParseVersion(s: string): Result<VersionValue, Error> {
    var t := TrimSpace(s);
    if t == "" then Failure(EmptyVersion)
    else
      var parts := Split(t, '.');
      match Traverse(parts, ParseField)
      case Success(fs) => Success(VersionValue(t, Some(fs), false))
      case Failure((i, e)) => Failure(BadField(i, parts[i], t, e))
  }

  /** What `FromString(s)` leaves in a receiver that held `prior`. A blank
      input is rejected before anything is written; past that point the
      receiver already holds the trimmed text with nil fields, so a failing
      component leaves it in that state. */
  function FromStringEffect(prior: VersionValue, s: string): Decoded {
    var t := TrimSpace(s);
    if t == "" then Decoded(prior, Some(EmptyVersion))
    else
      match ParseVersion(s)
      case Success(w) => Decoded(w, None)
      case Failure(e) => Decoded(VersionValue(t, None, false), Some(e))
  }

  // ---------------------------------------------------------------------
  // Decoding the object shape

  /** The receiver after the member `k` with value token `t` is decoded:
      each known key overwrites only its own field. */
  function SetField(w: VersionValue, k: string, t: Option<Token>): (r: Result<VersionValue, Error>)
    ensures !KnownKey(k) ==> r == Failure(UnknownField(k))
    ensures t.Some? ==> (r.Success? <==> Accepted(Member(k, t.value)))
    ensures r.Success? && k == "Version" ==> r.value == w.(version := r.value.version)
    ensures r.Success? && k == "Fields" ==> r.value == w.(fields := r.value.fields)
    ensures r.Success? && k == "OrderedVersion" ==> r.value == w.(orderedVersion := r.value.orderedVersion)
  {
    if k == "Version" then
      match DecodeString(t)
      case Success(s) => Success(w.(version := s))
      case Failure(e) => Failure(e)
    else if k == "Fields" then
      match DecodeFields(t)
      case Success(f) => Success(w.(fields := f))
      case Failure(e) => Failure(e)
    else if k == "OrderedVersion" then
      match DecodeBool(t)
      case Success(b) => Success(w.(orderedVersion := b))
      case Failure(e) => Failure(e)
    else Failure(UnknownField(k))
  }

  /** Where the member loop stops: the receiver, the error if it stopped on
      one, and the position of the next token. */
  datatype Progress = Progress(state: VersionValue, err: Option<Error>, pos: nat)

  /** The `for dec.More()` loop over the object's members from `pos`. */
  function Members(w: VersionValue, ts: seq<Token>, pos: nat): (r: Progress)
    ensures pos <= r.pos
    ensures r.err == None ==> !More(ts, r.pos)
    decreases |ts| - pos
  {
    if !More(ts, pos) then Progress(w, None, pos)
    else
      match KeyAt(ts, pos)
      case Failure(e) => Progress(w, Some(e), pos)
      case Success(k) =>
        match SetField(w, k, TokenAt(ts, pos + 1))
        case Failure(e) => Progress(w, Some(e), pos)
        case Success(w') => Members(w', ts, pos + 2)
  }

  /** The object shape: `{`, the members, `}`. */
  function DecodeObject(w: VersionValue, ts: seq<Token>): Decoded {
    match ExpectDelim(ts, 0, '{')
    case Some(e) => Decoded(w, Some(e))
    case None =>
      var m := Members(w, ts, 1);
      if m.err.Some? then Decoded(m.state, m.err)
      else Decoded(m.state, ExpectDelim(ts, m.pos, '}'))
  }

  /** What `UnmarshalJSON(p)` leaves in a receiver that held `prior`. */
  function Unmarshal(prior: VersionValue, p: Payload): Decoded
    requires |p.raw| > 0
  {
    if IsStringShape(p.raw) then
      var s := TrimQuotes(p.raw);
      if s == "null" || s == "" then Decoded(NullVersion, None)
      else FromStringEffect(prior, s)
    else DecodeObject(prior, p.tokens)
  }

  // ---------------------------------------------------------------------
  // The receiver

  class VersionString {
    var version: string
    var fields: Option<seq<VersionField>>
    var orderedVersion: bool

    function Value(): VersionValue
      reads this
    {
      VersionValue(version, fields, orderedVersion)
    }

    /** `var v VersionString`: the zero value. */
    constructor ()
      ensures Value() == NullVersion
    {
      version, fields, orderedVersion := "", None, false;
    }

    /** A receiver holding `w`, such as an element of a slice. */
    constructor Of(w: VersionValue)
      ensures Value() == w
    {
      version, fields, orderedVersion := w.version, w.fields, w.orderedVersion;
    }

    /** Parses `s` into this receiver. */
    method FromString(s: string) returns (err: Option<Error>)
      modifies this
      ensures Value() == FromStringEffect(old(Value()), s).state
      ensures err == FromStringEffect(old(Value()), s).err
      ensures err == None <==> ParseVersion(s).Success?
      ensures err == None ==> Value() == ParseVersion(s).value
      ensures err != None ==> err == Some(ParseVersion(s).error)
      ensures TrimSpace(s) == "" ==> err == Some(EmptyVersion) && Value() == old(Value())
      ensures TrimSpace(s) != "" && err != None ==> Value() == VersionValue(TrimSpace(s), None, false)
    {
      var t := TrimSpace(s);
      if t == "" {
        return Some(EmptyVersion);
      }
      version := t;
      fields := None;
      orderedVersion := false;
      var parts := Split(t, '.');
      var ver := new VersionField[|parts|](_ => ZeroField);
      for i := 0 to |parts|
        modifies ver
        invariant forall k :: 0 <= k < i ==> ParseField(parts[k]) == Success(ver[k])
        invariant forall k :: i <= k < |parts| ==> ver[k] == ZeroField
      {
        var x := ParseUint(parts[i]);
        if x.Failure? {
          TraverseFailsAt(parts, ParseField, i);
          return Some(BadField(i, parts[i], t, x.error));
        }
        ver[i] := ver[i].(numValue := x.value);
        ver[i] := ver[i].(isStr := false);
      }
      TraverseSucceeds(parts, ParseField);
      assert Traverse(parts, ParseField).value == ver[..];
      fields := Some(ver[..]);
      return None;
    }

    /** Decodes the JSON payload `p` into this receiver. */
    method UnmarshalJSON(p: Payload) returns (err: Option<Error>)
      requires |p.raw| > 0
      modifies this
      ensures Value() == Unmarshal(old(Value()), p).state
      ensures err == Unmarshal(old(Value()), p).err
    {
      if IsStringShape(p.raw) {
        var s := TrimQuotes(p.raw);
        if s == "null" || s == "" {
          version, fields, orderedVersion := "", None, false;
          return None;
        }
        err := FromString(s);
        return;
      }
      var ts := p.tokens;
      err := ExpectDelim(ts, 0, '{');
      if err.Some? {
        return;
      }
      var pos := 1;
      while More(ts, pos)
        invariant 1 <= pos
        invariant Members(Value(), ts, pos) == Members(old(Value()), ts, 1)
        decreases |ts| - pos
      {
        var key := KeyAt(ts, pos);
        if key.Failure? {
          return Some(key.error);
        }
        var name := key.value;
        if name == "Version" {
          var s := DecodeString(TokenAt(ts, pos + 1));
          if s.Failure? {
            return Some(s.error);
          }
          version := s.value;
        } else if name == "Fields" {
          var f := DecodeFields(TokenAt(ts, pos + 1));
          if f.Failure? {
            return Some(f.error);
          }
          fields := f.value;
        } else if name == "OrderedVersion" {
          var b := DecodeBool(TokenAt(ts, pos + 1));
          if b.Failure? {
            return Some(b.error);
          }
          orderedVersion := b.value;
        } else {
          return Some(UnknownField(name));
        }
        pos := pos + 2;
      }
      err := ExpectDelim(ts, pos, '}');
    }
  }

  // ---------------------------------------------------------------------
  // Properties of parsing

  /** A successful parse keeps the trimmed text, has one numeric field per
      `.`-separated component (one more than the dots), each holding that
      component's decimal value, and is not an ordered version. */
  lemma ParseVersionSucceeds(s: string)
    requires ParseVersion(s).Success?
    ensures var t := TrimSpace(s);
      var parts := Split(t, '.');
      var w := ParseVersion(s).value;
      && t != ""
      && w.version == t
      && !w.orderedVersion
      && w.fields.Some?
      && |w.fields.value| == |parts| == Count(t, '.') + 1
      && forall i :: 0 <= i < |parts| ==>
           IsUint64Text(parts[i]) && w.fields.value[i] == NumField(DecimalValue(parts[i]))
  {
    var t := TrimSpace(s);
    var parts := Split(t, '.');
    SplitCount(t, '.');
    TraverseSucceeds(parts, ParseField);
    forall i | 0 <= i < |parts|
      ensures IsUint64Text(parts[i]) && ParseField(parts[i]).value == NumField(DecimalValue(parts[i]))
    {
      ParseUintCorrect(parts[i]);
    }
  }

  /** A trimmed version text the parser accepts: non-empty, and every
      `.`-separated component a valid unsigned 64-bit decimal. */
  predicate ValidVersionText(t: string) {
    t != "" && forall i :: 0 <= i < |Split(t, '.')| ==> IsUint64Text(Split(t, '.')[i])
  }

  /** Parsing succeeds exactly on valid text; it fails on a blank input or
      when some component is empty, holds a non-digit or exceeds 2^64 - 1,
      and a component failure names the first such component, its text, the
      trimmed input and the cause ParseUint gave. */
  lemma ParseVersionFails(s: string)
    ensures ParseVersion(s).Success? <==> ValidVersionText(TrimSpace(s))
    ensures TrimSpace(s) == "" ==> ParseVersion(s) == Failure(EmptyVersion)
    ensures var t := TrimSpace(s);
      var parts := Split(t, '.');
      t != "" && ParseVersion(s).Failure? ==>
        var e := ParseVersion(s).error;
        && e.BadField?
        && e.index < |parts|
        && e.text == parts[e.index]
        && e.source == t
        && !IsUint64Text(e.text)
        && ParseUint(e.text) == Failure(e.numError)
        && forall k :: 0 <= k < e.index ==> IsUint64Text(parts[k])
  {
    var t := TrimSpace(s);
    var parts := Split(t, '.');
    TraverseSucceeds(parts, ParseField);
    TraverseFailsFirst(parts, ParseField);
    forall i | 0 <= i < |parts|
      ensures ParseField(parts[i]).Success? <==> IsUint64Text(parts[i])
    {
      ParseUintCorrect(parts[i]);
    }
  }

  /** The text of a successful parse begins and ends with white space or a
      digit, so it never carries a quote at either end and is not `null`. */
  lemma ParsedTextEnds(s: string)
    requires ParseVersion(s).Success?
    ensures |s| > 0
    ensures IsSpace(s[0]) || IsDigit(s[0])
    ensures IsSpace(s[|s| - 1]) || IsDigit(s[|s| - 1])
  {
    var t := TrimSpace(s);
    var parts := Split(t, '.');
    ParseVersionSucceeds(s);
    TrimEnds(s, IsSpace);
    SplitEnds(t, '.');
    var first := parts[0];
    var last := parts[|parts| - 1];
    assert t[0] == first[0];
    assert t[|t| - 1] == last[|last| - 1];
  }

  /** `1.a.3` is rejected at its second component, `a`, as a syntax error. */
  lemma ExampleBadComponent()
    ensures ParseVersion("1.a.3") == Failure(BadField(1, "a", "1.a.3", Syntax))
  {
    var s := "1.a.3";
    assert TrimLeft(s, IsSpace) == s;
    assert TrimRight(s, IsSpace) == s;
    assert Split(s, '.') == ["1", "a", "3"] by {
      assert s == "1" + ['.'] + "a.3";
      assert "a.3" == "a" + ['.'] + "3";
      SplitAppend("1", "a.3", '.');
      SplitAppend("a", "3", '.');
      SplitPiece("1", '.');
      SplitPiece("a", '.');
      SplitPiece("3", '.');
    }
    ParseUintCorrect("1");
    ParseUintSyntax("a", 0);
    TraverseFailsAt(["1", "a", "3"], ParseField, 1);
  }

  // ---------------------------------------------------------------------
  // Properties of the string / null shape

  /** A payload made only of double quotes (`""` among them) decodes to the
      null version. */
  lemma QuotesOnlyIsNull(prior: VersionValue, p: Payload)
    requires |p.raw| > 0
    requires forall i :: 0 <= i < |p.raw| ==> p.raw[i] == '"'
    ensures Unmarshal(prior, p) == Decoded(NullVersion, None)
  {
    TrimAllCut(p.raw, IsQuote);
  }

  /** Both `null` and `"null"` decode to the null version, whatever the
      receiver held. */
  lemma NullIsNull(prior: VersionValue, ts: seq<Token>)
    ensures Unmarshal(prior, Payload("null", ts)) == Decoded(NullVersion, None)
    ensures Unmarshal(prior, Payload("\"null\"", ts)) == Decoded(NullVersion, None)
  {
    assert TrimLeft("null", IsQuote) == "null";
    assert TrimRight("null", IsQuote) == "null";
    TrimWrapped("null", '"', IsQuote);
    assert "\"null\"" == ['"'] + "null" + ['"'];
  }

  // ---------------------------------------------------------------------
  // Properties of the object shape

  /** One object member: a key and its value token. */
  datatype Member = Member(key: string, value: Token)

  function MemberTokens(ms: seq<Member>): (ts: seq<Token>)
    ensures |ts| == 2 * |ms|
  {
    if ms == [] then [] else [Str(ms[0].key), ms[0].value] + MemberTokens(ms[1..])
  }

  /** An object opened with `{` and holding the members `ms` so far. */
  function OpenObject(ms: seq<Member>): seq<Token> {
    [Delim('{')] + MemberTokens(ms)
  }

  /** A well-framed object with members `ms` (section 4 of RFC 8259). */
  function ObjectTokens(ms: seq<Member>): seq<Token> {
    OpenObject(ms) + [Delim('}')]
  }

  predicate KnownKey(k: string) {
    k == "Version" || k == "Fields" || k == "OrderedVersion"
  }

  /** A member the decoder accepts: one of the three keys, with a value that
      decodes into that field's type. */
  predicate Accepted(m: Member) {
    || (m.key == "Version" && DecodeString(Some(m.value)).Success?)
    || (m.key == "Fields" && DecodeFields(Some(m.value)).Success?)
    || (m.key == "OrderedVersion" && DecodeBool(Some(m.value)).Success?)
  }

  /** The value of the last member named `key`: a later member wins. */
  function LastValue(ms: seq<Member>, key: string): Option<Token> {
    if ms == [] then None
    else
      match LastValue(ms[1..], key)
      case Some(t) => Some(t)
      case None => if ms[0].key == key then Some(ms[0].value) else None
  }

  /** The receiver `w` with each field taken from the last member naming it,
      and left as it was when no member names it. */
  function Overlay(w: VersionValue, ms: seq<Member>): VersionValue {
    VersionValue(
      DecodeString(LastValue(ms, "Version")).GetOr(w.version),
      DecodeFields(LastValue(ms, "Fields")).GetOr(w.fields),
      DecodeBool(LastValue(ms, "OrderedVersion")).GetOr(w.orderedVersion))
  }

  /** LastValue is absent exactly when no member has the key, and otherwise
      is the value of a member with the key that no later member shares. */
  lemma {:induction false} LastValueSpec(ms: seq<Member>, key: string)
    ensures LastValue(ms, key) == None <==> forall i :: 0 <= i < |ms| ==> ms[i].key != key
    ensures LastValue(ms, key).Some? ==>
      exists i :: 0 <= i < |ms| && ms[i] == Member(key, LastValue(ms, key).value) &&
        forall j :: i < j < |ms| ==> ms[j].key != key
  {
    if ms != [] {
      LastValueSpec(ms[1..], key);
      assert forall i :: 1 <= i < |ms| ==> ms[i] == ms[1..][i - 1];
      if LastValue(ms[1..], key).Some? {
        var i :| 0 <= i < |ms[1..]| && ms[1..][i] == Member(key, LastValue(ms[1..], key).value) &&
          forall j :: i < j < |ms[1..]| ==> ms[1..][j].key != key;
        assert ms[i + 1] == ms[1..][i];
      } else if ms[0].key == key {
        assert ms[0] == Member(key, LastValue(ms, key).value);
      }
    }
  }

  /** The last member of accepted ones with a given key is itself accepted. */
  lemma {:induction false} LastValueAccepted(ms: seq<Member>, key: string)
    requires forall i :: 0 <= i < |ms| ==> Accepted(ms[i])
    ensures LastValue(ms, key).Some? ==> Accepted(Member(key, LastValue(ms, key).value))
  {
    if ms != [] {
      assert forall i :: 1 <= i < |ms| ==> ms[i] == ms[1..][i - 1];
      LastValueAccepted(ms[1..], key);
    }
  }

  /** Applying one accepted member and then overlaying the rest is the same
      as overlaying all of them. */
  lemma OverlayCons(w: VersionValue, m: Member, rest: seq<Member>)
    requires Accepted(m)
    requires forall i :: 0 <= i < |rest| ==> Accepted(rest[i])
    ensures SetField(w, m.key, Some(m.value)).Success?
    ensures Overlay(SetField(w, m.key, Some(m.value)).value, rest) == Overlay(w, [m] + rest)
  {
    assert ([m] + rest)[1..] == rest;
    LastValueAccepted(rest, "Version");
    LastValueAccepted(rest, "Fields");
    LastValueAccepted(rest, "OrderedVersion");
  }

  /** Reading a run of accepted members applies them one after another. */
  lemma {:induction false} MembersPrefix(w: VersionValue, ms: seq<Member>, ts: seq<Token>, pos: nat)
    requires pos + 2 * |ms| <= |ts| && ts[pos..pos + 2 * |ms|] == MemberTokens(ms)
    requires forall i :: 0 <= i < |ms| ==> Accepted(ms[i])
    ensures Members(w, ts, pos) == Members(Overlay(w, ms), ts, pos + 2 * |ms|)
    decreases |ms|
  {
    if ms == [] {
      assert Overlay(w, ms) == w;
    } else {
      var m := ms[0];
      assert ts[pos] == MemberTokens(ms)[0] == Str(m.key);
      assert ts[pos + 1] == MemberTokens(ms)[1] == m.value;
      OverlayCons(w, m, ms[1..]);
      assert [m] + ms[1..] == ms;
      var w' := SetField(w, m.key, Some(m.value)).value;
      assert Members(w, ts, pos) == Members(w', ts, pos + 2);
      assert ts[pos + 2..pos + 2 * |ms|] == MemberTokens(ms)[2..] == MemberTokens(ms[1..]);
      MembersPrefix(w', ms[1..], ts, pos + 2);
    }
  }

  /** After `{` and a run of accepted members, the decoder goes on from
      the receiver overlaid with those members. */
  lemma DecodeAfterMembers(w: VersionValue, ms: seq<Member>, ts: seq<Token>)
    requires 1 + 2 * |ms| <= |ts| && ts[0] == Delim('{') && ts[1..1 + 2 * |ms|] == MemberTokens(ms)
    requires forall i :: 0 <= i < |ms| ==> Accepted(ms[i])
    ensures var m := Members(Overlay(w, ms), ts, 1 + 2 * |ms|);
      DecodeObject(w, ts) ==
        if m.err.Some? then Decoded(m.state, m.err) else Decoded(m.state, ExpectDelim(ts, m.pos, '}'))
  {
    MembersPrefix(w, ms, ts, 1);
  }

  /** A well-framed object of accepted members decodes without error to the
      receiver overlaid with its members: a repeated key keeps its last
      value and an absent key keeps the receiver's value. Anything after the
      closing brace is not read. */
  lemma DecodeWellFormed(w: VersionValue, ms: seq<Member>, rest: seq<Token>)
    requires forall i :: 0 <= i < |ms| ==> Accepted(ms[i])
    ensures DecodeObject(w, ObjectTokens(ms) + rest) == Decoded(Overlay(w, ms), None)
  {
    var mt := MemberTokens(ms);
    var ts := ObjectTokens(ms) + rest;
    var n := 2 * |ms|;
    assert ts[0] == Delim('{') && ts[1..1 + n] == mt && ts[1 + n] == Delim('}') by {
      assert ts == [Delim('{')] + (mt + ([Delim('}')] + rest));
      assert ts[1..] == mt + ([Delim('}')] + rest);
    }
    DecodeAfterMembers(w, ms, ts);
  }

  /** A field that no member names keeps the receiver's previous value. */
  lemma AbsentKeyKeeps(w: VersionValue, ms: seq<Member>)
    ensures (forall i :: 0 <= i < |ms| ==> ms[i].key != "Version") ==> Overlay(w, ms).version == w.version
    ensures (forall i :: 0 <= i < |ms| ==> ms[i].key != "Fields") ==> Overlay(w, ms).fields == w.fields
    ensures (forall i :: 0 <= i < |ms| ==> ms[i].key != "OrderedVersion") ==>
      Overlay(w, ms).orderedVersion == w.orderedVersion
  {
    LastValueSpec(ms, "Version");
    LastValueSpec(ms, "Fields");
    LastValueSpec(ms, "OrderedVersion");
  }

  /** An unknown key stops the decoder with an error naming it, after the
      members before it have already been written to the receiver. */
  lemma UnknownKeyStops(w: VersionValue, ms: seq<Member>, k: string, rest: seq<Token>)
    requires forall i :: 0 <= i < |ms| ==> Accepted(ms[i])
    requires !KnownKey(k)
    ensures DecodeObject(w, OpenObject(ms) + [Str(k)] + rest) ==
      Decoded(Overlay(w, ms), Some(UnknownField(k)))
  {
    var mt := MemberTokens(ms);
    var ts := OpenObject(ms) + [Str(k)] + rest;
    var n := 2 * |ms|;
    assert ts[0] == Delim('{') && ts[1..1 + n] == mt && ts[1 + n] == Str(k) by {
      assert ts == [Delim('{')] + (mt + ([Str(k)] + rest));
      assert ts[1..] == mt + ([Str(k)] + rest);
    }
    DecodeAfterMembers(w, ms, ts);
    MembersStopAtUnknown(Overlay(w, ms), ts, 1 + n, k);
  }

  lemma MembersStopAtUnknown(w: VersionValue, ts: seq<Token>, pos: nat, k: string)
    requires pos < |ts| && ts[pos] == Str(k) && !KnownKey(k)
    ensures Members(w, ts, pos) == Progress(w, Some(UnknownField(k)), pos)
  {
    assert More(ts, pos) && KeyAt(ts, pos) == Success(k);
  }

  /** The object shape succeeds only on input opening with `{` and holding a
      `}` after it; a missing `{` fails before the receiver is touched. */
  lemma ObjectFraming(w: VersionValue, ts: seq<Token>)
    ensures DecodeObject(w, ts).err == None ==>
      |ts| > 0 && ts[0] == Delim('{') && exists j :: 0 < j < |ts| && ts[j] == Delim('}')
    ensures (|ts| == 0 || ts[0] != Delim('{')) ==> DecodeObject(w, ts) == Decoded(w, ExpectDelim(ts, 0, '{'))
  {
    if DecodeObject(w, ts).err == None {
      var m := Members(w, ts, 1);
      assert ts[m.pos] == Delim('}');
    }
  }

  /** Conversely, a member loop that ends without error has read a run of
      accepted members, and the receiver is overlaid with exactly those. */
  lemma {:induction false} MembersConverse(w: VersionValue, ts: seq<Token>, pos: nat) returns (ms: seq<Member>)
    requires pos <= |ts|
    requires Members(w, ts, pos).err == None
    ensures forall i :: 0 <= i < |ms| ==> Accepted(ms[i])
    ensures pos + 2 * |ms| == Members(w, ts, pos).pos <= |ts|
    ensures ts[pos..Members(w, ts, pos).pos] == MemberTokens(ms)
    ensures Members(w, ts, pos).state == Overlay(w, ms)
    decreases |ts| - pos
  {
    if !More(ts, pos) {
      ms := [];
      assert Overlay(w, ms) == w;
    } else {
      var k := KeyAt(ts, pos).value;
      var t := ts[pos + 1];
      var m := Member(k, t);
      var w' := SetField(w, k, Some(t)).value;
      assert Members(w, ts, pos) == Members(w', ts, pos + 2);
      var rest := MembersConverse(w', ts, pos + 2);
      ms := [m] + rest;
      assert ms[1..] == rest;
      OverlayCons(w, m, rest);
      var end := Members(w, ts, pos).pos;
      assert ts[pos..end] == [ts[pos], ts[pos + 1]] + ts[pos + 2..end];
    }
  }

  /** An object decodes without error only when it is `{`, a run of accepted
      members and `}` (anything may follow), and the receiver is then
      overlaid with those members: the converse of DecodeWellFormed. */
  lemma ObjectConverse(w: VersionValue, ts: seq<Token>) returns (ms: seq<Member>, rest: seq<Token>)
    requires DecodeObject(w, ts).err == None
    ensures forall i :: 0 <= i < |ms| ==> Accepted(ms[i])
    ensures ts == ObjectTokens(ms) + rest
    ensures DecodeObject(w, ts).state == Overlay(w, ms)
  {
    ms := MembersConverse(w, ts, 1);
    var end := Members(w, ts, 1).pos;
    rest := ts[end + 1..];
    assert ts == ts[..1] + ts[1..end] + ts[end..end + 1] + rest;
  }

  /** The members `json.Marshal` writes for `w`: every field by name, with a
      nil Fields slice written as null. */
  function EncodeMembers(w: VersionValue): seq<Member> {
    [ Member("Version", Str(w.version)),
      Member("Fields", match w.fields case None => Value(JNull) case Some(fs) => Value(JFields(fs))),
      Member("OrderedVersion", Value(JBool(w.orderedVersion))) ]
  }

  /** Decoding the structured encoding of `w` gives back exactly `w`,
      whatever the receiver held before. */
  lemma ObjectRoundTrip(prior: VersionValue, w: VersionValue, raw: string)
    requires |raw| > 0 && raw[0] == '{'
    ensures Unmarshal(prior, Payload(raw, ObjectTokens(EncodeMembers(w)))) == Decoded(w, None)
  {
    var ms := EncodeMembers(w);
    assert raw != "null" by { assert "null"[0] == 'n'; }
    DecodeWellFormed(prior, ms, []);
    assert ObjectTokens(ms) + [] == ObjectTokens(ms);
    assert ms[1..] == ms[1..2] + [ms[2]] && ms[2..] == [ms[2]] && ms[2..][1..] == [];
    assert LastValue(ms[2..], "Version") == None;
    assert LastValue(ms[2..], "Fields") == None;
    assert LastValue(ms[2..], "OrderedVersion") == Some(Value(JBool(w.orderedVersion)));
    assert LastValue(ms[1..], "OrderedVersion") == Some(Value(JBool(w.orderedVersion)));
    assert LastValue(ms[1..], "Version") == None;
    assert LastValue(ms, "Version") == Some(Str(w.version));
    assert LastValue(ms, "Fields") == Some(ms[1].value);
    assert LastValue(ms, "OrderedVersion") == Some(Value(JBool(w.orderedVersion)));
  }

  /** The legacy string `"s"` and the structured encoding of the version it
      parses to decode to the same value, into any receivers. */
  lemma LegacyMatchesStructured(s: string, prior1: VersionValue, prior2: VersionValue,
                                ts: seq<Token>, raw: string)
    requires ParseVersion(s).Success?
    requires |raw| > 0 && raw[0] == '{'
    ensures Unmarshal(prior1, Payload(['"'] + s + ['"'], ts)) == Decoded(ParseVersion(s).value, None)
    ensures Unmarshal(prior2, Payload(raw, ObjectTokens(EncodeMembers(ParseVersion(s).value)))) ==
      Decoded(ParseVersion(s).value, None)
  {
    ParsedTextEnds(s);
    TrimWrapped(s, '"', IsQuote);
    ObjectRoundTrip(prior2, ParseVersion(s).value, raw);
  }
}
