/** The library string helpers the version parsers call: whitespace and quote
    trimming (`strings.TrimSpace`, `strings.Trim`), splitting on one
    separator (`strings.Split`) and base-10 unsigned 64-bit parsing
    (`strconv.ParseUint(s, 10, 64)`), written as pure functions with their
    defining properties proved. */
module Text {
  import opened Wrappers

  const MaxUint64: int := 0xFFFF_FFFF_FFFF_FFFF

  type uint64 = x: int | 0 <= x <= 0xFFFF_FFFF_FFFF_FFFF

  // ---------------------------------------------------------------------
  // Trimming

  /** ASCII white space: the characters `strings.TrimSpace` removes below U+0080. */
  predicate IsSpace(c: char) {
    c == ' ' || c == '\t' || c == '\n' || c == '\U{000B}' || c == '\U{000C}' || c == '\r'
  }

  predicate IsQuote(c: char) {
    c == '"'
  }

  /** Drops every leading character satisfying `cut`. */
  function TrimLeft(s: string, cut: char -> bool): (r: string)
    ensures |r| <= |s|
  {
    if s != [] && cut(s[0]) then TrimLeft(s[1..], cut) else s
  }

  /** Drops every trailing character satisfying `cut`. */
  function TrimRight(s: string, cut: char -> bool): (r: string)
    ensures |r| <= |s|
  {
    if s != [] && cut(s[|s| - 1]) then TrimRight(s[..|s| - 1], cut) else s
  }

  function Trim(s: string, cut: char -> bool): string {
    TrimRight(TrimLeft(s, cut), cut)
  }

  /** `strings.TrimSpace`, over ASCII white space. */
  function TrimSpace(s: string): string {
    Trim(s, IsSpace)
  }

  /** `strings.Trim(s, "\"")`: every leading and trailing double quote goes. */
  function TrimQuotes(s: string): string {
    Trim(s, IsQuote)
  }

  /** TrimLeft keeps a suffix of `s`, removes only characters satisfying
      `cut`, and the suffix does not start with one. */
  lemma {:induction false} TrimLeftShape(s: string, cut: char -> bool)
    ensures var r := TrimLeft(s, cut);
      && |r| <= |s|
      && r == s[|s| - |r|..]
      && (forall i :: 0 <= i < |s| - |r| ==> cut(s[i]))
      && (r != [] ==> !cut(r[0]))
  {
    if s != [] && cut(s[0]) {
      TrimLeftShape(s[1..], cut);
      var r := TrimLeft(s[1..], cut);
      assert forall i :: 1 <= i < |s| - |r| ==> s[i] == s[1..][i - 1];
    }
  }

  /** TrimRight keeps a prefix of `s`, removes only characters satisfying
      `cut`, and the prefix does not end with one. */
  lemma {:induction false} TrimRightShape(s: string, cut: char -> bool)
    ensures var r := TrimRight(s, cut);
      && |r| <= |s|
      && r == s[..|r|]
      && (forall i :: |r| <= i < |s| ==> cut(s[i]))
      && (r != [] ==> !cut(r[|r| - 1]))
  {
    if s != [] && cut(s[|s| - 1]) {
      TrimRightShape(s[..|s| - 1], cut);
    }
  }

  /** Trim keeps a contiguous slice of `s`, strips only `cut` characters on
      both sides, and leaves neither end satisfying `cut`. */
  lemma TrimShape(s: string, cut: char -> bool)
    ensures var t := Trim(s, cut);
      var a := |s| - |TrimLeft(s, cut)|;
      && 0 <= a && a + |t| <= |s|
      && t == s[a..a + |t|]
      && (forall i :: 0 <= i < a ==> cut(s[i]))
      && (forall i :: a + |t| <= i < |s| ==> cut(s[i]))
      && (t != [] ==> !cut(t[0]) && !cut(t[|t| - 1]))
  {
    var l := TrimLeft(s, cut);
    TrimLeftShape(s, cut);
    TrimRightShape(l, cut);
    var a := |s| - |l|;
    var t := Trim(s, cut);
    assert forall i :: a + |t| <= i < |s| ==> s[i] == l[i - a];
  }

  /** A string made only of `cut` characters trims to nothing. */
  lemma TrimAllCut(s: string, cut: char -> bool)
    requires forall i :: 0 <= i < |s| ==> cut(s[i])
    ensures Trim(s, cut) == []
  {
    TrimLeftShape(s, cut);
  }

  /** Trimming a string wrapped in one `cut` character on each side gives it
      back when its own ends are not `cut` characters. */
  lemma TrimWrapped(s: string, c: char, cut: char -> bool)
    requires cut(c)
    requires s != [] && !cut(s[0]) && !cut(s[|s| - 1])
    ensures Trim([c] + s + [c], cut) == s
  {
    var w := [c] + s + [c];
    var v := s + [c];
    assert w[0] == c && w[1..] == v;
    assert TrimLeft(w, cut) == TrimLeft(v, cut);
    assert v[0] == s[0];
    assert TrimLeft(v, cut) == v;
    assert v[|v| - 1] == c && v[..|v| - 1] == s;
    assert TrimRight(v, cut) == TrimRight(s, cut);
    assert TrimRight(s, cut) == s;
  }

  /** The ends of a string whose trimmed form is non-empty are either
      trimmed characters or the ends of the trimmed form. */
  lemma TrimEnds(s: string, cut: char -> bool)
    requires Trim(s, cut) != []
    ensures |s| > 0
    ensures var t := Trim(s, cut);
      && (cut(s[0]) || s[0] == t[0])
      && (cut(s[|s| - 1]) || s[|s| - 1] == t[|t| - 1])
  {
    TrimShape(s, cut);
    var t := Trim(s, cut);
    var a := |s| - |TrimLeft(s, cut)|;
    if a == 0 {
      assert s[0] == t[0];
    }
    if a + |t| == |s| {
      assert s[|s| - 1] == t[|t| - 1];
    }
  }

  // ---------------------------------------------------------------------
  // Splitting

  /** Number of occurrences of `c` in `s`. */
  function Count(s: string, c: char): nat {
    if s == [] then 0 else (if s[0] == c then 1 else 0) + Count(s[1..], c)
  }

  /** `strings.Split(s, sep)` for a one-character separator: the pieces
      between separators, in order; the empty string gives one empty piece. */
  function Split(s: string, c: char): seq<string> {
    if s == [] then [""]
    else
      var rest := Split(s[1..], c);
      if s[0] == c then [""] + rest
      else if rest == [] then [[s[0]]]
      else [[s[0]] + rest[0]] + rest[1..]
  }

  /** Joins pieces back with the separator between them. */
  function Join(parts: seq<string>, c: char): string
    requires parts != []
  {
    if |parts| == 1 then parts[0] else parts[0] + [c] + Join(parts[1..], c)
  }

  /** Splitting yields one more piece than there are separators, so never
      zero pieces, and no piece contains the separator. */
  lemma {:induction false} SplitCount(s: string, c: char)
    ensures |Split(s, c)| == Count(s, c) + 1
    ensures forall i :: 0 <= i < |Split(s, c)| ==> c !in Split(s, c)[i]
  {
    if s != [] {
      SplitCount(s[1..], c);
      var rest := Split(s[1..], c);
      if s[0] != c {
        assert c !in [s[0]] + rest[0];
        assert forall i :: 1 <= i < |rest| ==> Split(s, c)[i] == rest[i];
      }
    }
  }

  /** Joining the pieces of a split gives back the input. */
  lemma {:induction false} JoinSplit(s: string, c: char)
    ensures Join(Split(s, c), c) == s
  {
    if s != [] {
      JoinSplit(s[1..], c);
      SplitCount(s[1..], c);
      var rest := Split(s[1..], c);
      if s[0] == c {
        assert Split(s, c)[1..] == rest;
      } else if |rest| == 1 {
        assert [s[0]] + rest[0] == s;
      } else {
        var parts := Split(s, c);
        assert parts[1..] == rest[1..];
        assert Join(rest, c) == rest[0] + [c] + Join(rest[1..], c);
      }
    }
  }

  /** Splitting joined pieces that hold no separator gives the pieces back. */
  lemma {:induction false} SplitJoin(parts: seq<string>, c: char)
    requires parts != []
    requires forall i :: 0 <= i < |parts| ==> c !in parts[i]
    ensures Split(Join(parts, c), c) == parts
  {
    if |parts| == 1 {
      SplitPiece(parts[0], c);
    } else {
      SplitJoin(parts[1..], c);
      SplitPiece(parts[0], c);
      SplitAppend(parts[0], Join(parts[1..], c), c);
    }
  }

  /** A string without the separator is its own single piece. */
  lemma {:induction false} SplitPiece(s: string, c: char)
    requires c !in s
    ensures Split(s, c) == [s]
  {
    if s != [] {
      SplitPiece(s[1..], c);
      assert [s[0]] + s[1..] == s;
    }
  }

  /** A separator between `a` and `b` splits them apart. */
  lemma {:induction false} SplitAppend(a: string, b: string, c: char)
    ensures Split(a + [c] + b, c) == Split(a, c) + Split(b, c)
  {
    var x := a + [c] + b;
    if a == [] {
      assert x[0] == c && x[1..] == b;
    } else {
      SplitAppend(a[1..], b, c);
      assert x[0] == a[0] && x[1..] == a[1..] + [c] + b;
      SplitCount(a[1..], c);
      var tail := Split(a[1..], c);
      var rest := Split(x[1..], c);
      assert rest == tail + Split(b, c);
      if a[0] != c {
        assert rest[0] == tail[0];
        assert rest[1..] == tail[1..] + Split(b, c);
        assert Split(x, c) == [[a[0]] + rest[0]] + rest[1..];
        assert Split(a, c) == [[a[0]] + tail[0]] + tail[1..];
      }
    }
  }

  /** The first piece is a prefix of the input, the last a suffix. */
  lemma SplitEnds(s: string, c: char)
    ensures var parts := Split(s, c);
      && |parts| > 0
      && |parts[0]| <= |s| && parts[0] == s[..|parts[0]|]
      && |parts[|parts| - 1]| <= |s| && parts[|parts| - 1] == s[|s| - |parts[|parts| - 1]|..]
  {
    SplitCount(s, c);
    JoinSplit(s, c);
    JoinEnds(Split(s, c), c);
  }

  lemma {:induction false} JoinEnds(parts: seq<string>, c: char)
    requires parts != []
    ensures var j := Join(parts, c);
      && |parts[0]| <= |j| && j[..|parts[0]|] == parts[0]
      && |parts[|parts| - 1]| <= |j| && j[|j| - |parts[|parts| - 1]|..] == parts[|parts| - 1]
  {
    if |parts| > 1 {
      JoinEnds(parts[1..], c);
      var j := Join(parts, c);
      var rest := Join(parts[1..], c);
      assert j == parts[0] + [c] + rest;
      assert j[|j| - |rest|..] == rest;
    }
  }

  // ---------------------------------------------------------------------
  // Unsigned decimal parsing

  predicate IsDigit(c: char) {
    '0' <= c <= '9'
  }

  predicate AllDigits(s: string) {
    forall i :: 0 <= i < |s| ==> IsDigit(s[i])
  }

  function DigitValue(c: char): nat
    requires IsDigit(c)
  {
    (c as int) - ('0' as int)
  }

  /** The number a string of decimal digits denotes (leading zeros allowed). */
  function DecimalValue(s: string): nat
    requires AllDigits(s)
  {
    if s == [] then 0 else DecimalValue(s[..|s| - 1]) * 10 + DigitValue(s[|s| - 1])
  }

  /** A component `strconv.ParseUint(s, 10, 64)` accepts: non-empty, digits
      only (no sign, no underscore), at most 2^64 - 1. */
  predicate IsUint64Text(s: string) {
    s != [] && AllDigits(s) && DecimalValue(s) <= MaxUint64
  }

  /** The two causes `strconv.ParseUint` reports. */
  datatype NumError = Syntax | Range

  /** `strconv.ParseUint(s, 10, 64)`: empty input and any non-digit are
      syntax errors; passing 2^64 - 1 is a range error. The scan goes left
      to right, so an overflow before the first non-digit reports Range. */
  function ParseUint(s: string): Result<uint64, NumError> {
    if s == [] then Failure(Syntax) else Accumulate(s, 0, 0)
  }

  /** The scanning loop of ParseUint from index `i` with value `n` so far. */
  function Accumulate(s: string, i: nat, n: uint64): Result<uint64, NumError>
    requires i <= |s|
    decreases |s| - i
  {
    if i == |s| then Success(n)
    else if !IsDigit(s[i]) then Failure(Syntax)
    else
      var n' := n * 10 + DigitValue(s[i]);
      if n' > MaxUint64 then Failure(Range) else Accumulate(s, i + 1, n')
  }

  /** Decimal value never decreases as digits are appended. */
  lemma {:induction false} DecimalPrefixMonotone(s: string, j: nat)
    requires AllDigits(s) && j <= |s|
    ensures AllDigits(s[..j]) && DecimalValue(s[..j]) <= DecimalValue(s)
  {
    if j < |s| {
      assert s[..|s| - 1][..j] == s[..j];
      DecimalPrefixMonotone(s[..|s| - 1], j);
    } else {
      assert s[..j] == s;
    }
  }

  lemma {:induction false} AccumulateCorrect(s: string, i: nat, n: uint64)
    requires i <= |s| && AllDigits(s[..i]) && n == DecimalValue(s[..i])
    ensures Accumulate(s, i, n).Success? <==> AllDigits(s) && DecimalValue(s) <= MaxUint64
    ensures Accumulate(s, i, n).Success? ==> Accumulate(s, i, n).value == DecimalValue(s)
    decreases |s| - i
  {
    if i == |s| {
      assert s[..i] == s;
    } else if !IsDigit(s[i]) {
    } else {
      var n' := n * 10 + DigitValue(s[i]);
      assert s[..i + 1][..i] == s[..i];
      assert AllDigits(s[..i + 1]) && DecimalValue(s[..i + 1]) == n';
      if n' > MaxUint64 {
        if AllDigits(s) {
          DecimalPrefixMonotone(s, i + 1);
        }
      } else {
        AccumulateCorrect(s, i + 1, n');
      }
    }
  }

  /** ParseUint succeeds exactly on valid components, with their decimal value. */
  lemma ParseUintCorrect(s: string)
    ensures ParseUint(s).Success? <==> IsUint64Text(s)
    ensures ParseUint(s).Success? ==> ParseUint(s).value == DecimalValue(s)
  {
    if s != [] {
      AccumulateCorrect(s, 0, 0);
    }
  }

  /** A string of digits too large for 64 bits is a range error. */
  lemma ParseUintRange(s: string)
    requires s != [] && AllDigits(s) && DecimalValue(s) > MaxUint64
    ensures ParseUint(s) == Failure(Range)
  {
    RangeFrom(s, 0, 0);
  }

  lemma {:induction false} RangeFrom(s: string, i: nat, n: uint64)
    requires i < |s| && AllDigits(s) && n == DecimalValue(s[..i]) && DecimalValue(s) > MaxUint64
    ensures Accumulate(s, i, n) == Failure(Range)
    decreases |s| - i
  {
    assert s[..i + 1][..i] == s[..i];
    var n' := n * 10 + DigitValue(s[i]);
    assert DecimalValue(s[..i + 1]) == n';
    if i + 1 == |s| {
      assert s[..i + 1] == s;
    } else if n' <= MaxUint64 {
      RangeFrom(s, i + 1, n');
    }
  }

  /** A non-digit reached while the digits before it still fit is a syntax error. */
  lemma ParseUintSyntax(s: string, k: nat)
    requires k < |s| && !IsDigit(s[k])
    requires AllDigits(s[..k]) && DecimalValue(s[..k]) <= MaxUint64
    ensures ParseUint(s) == Failure(Syntax)
  {
    SyntaxFrom(s, k, 0, 0);
  }

  lemma {:induction false} SyntaxFrom(s: string, k: nat, i: nat, n: uint64)
    requires k < |s| && !IsDigit(s[k]) && i <= k
    requires AllDigits(s[..k]) && DecimalValue(s[..k]) <= MaxUint64
    requires n == DecimalValue(s[..i])
    ensures Accumulate(s, i, n) == Failure(Syntax)
    decreases |s| - i
  {
    if i < k {
      assert s[..k][..i] == s[..i];
      assert s[..k][..i + 1] == s[..i + 1];
      assert s[..i + 1][..i] == s[..i];
      assert IsDigit(s[..k][i]);
      DecimalPrefixMonotone(s[..k], i + 1);
      assert DecimalValue(s[..i + 1]) == n * 10 + DigitValue(s[i]);
      SyntaxFrom(s, k, i + 1, n * 10 + DigitValue(s[i]));
    }
  }
}
