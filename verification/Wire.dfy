/** What both RESP decoders share: the first CRLF-terminated line, decimal numbers, UTF-8. */
module Wire {
  import opened Prelude

  const CR: byte := 13
  const LF: byte := 10
  const PLUS: byte := 43
  const MINUS: byte := 45
  const ZERO: byte := 48
  const CRLF: Bytes := [CR, LF]
  const CSTRING_BYTE: byte := 36
  const ARRAY_BYTE: byte := 42
  const MAX_COMPLEX_STRING_LENGTH := 512 * 1024 * 1024

  datatype Parsed<+T> = Parsed(data: T, used: nat)

  // ---------------------------------------------------------------------------------------
  // Lines
  // ---------------------------------------------------------------------------------------

  predicate CrlfAt(b: Bytes, i: nat) {
    i + 2 <= |b| && b[i] == CR && b[i + 1] == LF
  }

  ghost predicate HasCrlf(b: Bytes) {
    exists i: nat :: CrlfAt(b, i)
  }

  /** Position of the first window equal to CRLF, searching from `start`. */
  function FindCrlf(b: Bytes, start: nat): (r: Option<nat>)
    ensures r.Some? ==> start <= r.value && CrlfAt(b, r.value)
    ensures r.Some? ==> forall i :: start <= i < r.value ==> !CrlfAt(b, i)
    ensures r.None? ==> forall i :: start <= i ==> !CrlfAt(b, i)
    decreases |b| - start
  {
    if |b| < start + 2 then None
    else if CrlfAt(b, start) then Some(start)
    else FindCrlf(b, start + 1)
  }

  /** The bytes before the first CRLF, and how many bytes they and the CRLF take. */
  function ParseLine(b: Bytes): (r: Option<Parsed<Bytes>>)
    ensures r.None? <==> !HasCrlf(b)
    ensures r.Some? ==>
              var p := r.value;
              && p.used == |p.data| + 2 <= |b|
              && b[..|p.data|] == p.data && CrlfAt(b, |p.data|) && !HasCrlf(p.data)
              && forall i :: 0 <= i < |p.data| ==> !CrlfAt(b, i)
  {
    match FindCrlf(b, 0)
    case None => None
    case Some(i) =>
      assert !HasCrlf(b[..i]) by {
        if HasCrlf(b[..i]) {
          var j: nat :| CrlfAt(b[..i], j);
          assert CrlfAt(b, j);
        }
      }
      Some(Parsed(b[..i], i + 2))
  }

  /** A printed line is read back, whatever follows, exactly when it contains no CRLF. A
      trailing CR of its own does no harm. */
  lemma LineRoundTrip(s: Bytes, rest: Bytes)
    ensures ParseLine(s + CRLF + rest) == Some(Parsed(s, |s| + 2)) <==> !HasCrlf(s)
  {
    var b := s + CRLF + rest;
    assert CrlfAt(b, |s|);
    if !HasCrlf(s) {
      forall i | 0 <= i < |s|
        ensures !CrlfAt(b, i)
      {
        assert !CrlfAt(s, i);
      }
      var p := ParseLine(b).value;
      assert |p.data| == |s|;
      assert b[..|s|] == s;
    }
  }

  lemma PrefixedLine(c: byte, s: Bytes)
    requires c != CR && !HasCrlf(s)
    ensures !HasCrlf([c] + s)
  {
    forall i: nat | i < |s|
      ensures !CrlfAt([c] + s, i)
    {
      if i > 0 {
        assert !CrlfAt(s, i - 1);
      }
    }
  }

  /** A line that is there stays the same when more bytes arrive. */
  lemma LineLocal(b: Bytes, more: Bytes)
    requires HasCrlf(b)
    ensures ParseLine(b + more) == ParseLine(b)
  {
    var n := |ParseLine(b).value.data|;
    assert CrlfAt(b + more, n);
    forall i | 0 <= i < n
      ensures !CrlfAt(b + more, i)
    {
      assert !CrlfAt(b, i);
    }
    assert (b + more)[..n] == b[..n];
    assert |ParseLine(b + more).value.data| == n;
  }

  // ---------------------------------------------------------------------------------------
  // Decimal numbers
  // ---------------------------------------------------------------------------------------

  /** Shortest decimal form. */
  function Digits(n: nat): (s: Bytes)
    ensures s != [] && s[0] != PLUS && s[0] != MINUS
    ensures |s| > 1 ==> s[0] != ZERO
  {
    if n < 10 then [ZERO + n] else Digits(n / 10) + [ZERO + n % 10]
  }

  /** The number that one or more digits denote. */
  function Magnitude(s: Bytes): (r: Option<nat>)
    ensures r.Some? ==> s != []
  {
    if s == [] then None
    else
      var front, last := s[..|s| - 1], s[|s| - 1];
      if last < ZERO || ZERO + 9 < last then None
      else if front == [] then Some(last - ZERO)
      else match Magnitude(front) case None => None case Some(v) => Some(10 * v + (last - ZERO))
  }

  lemma {:induction false} MagnitudeSnoc(front: Bytes, d: nat)
    requires d < 10
    ensures Magnitude(front + [ZERO + d]) ==
            if front == [] then Some(d)
            else match Magnitude(front) case None => None case Some(v) => Some(10 * v + d)
  {
    var s := front + [ZERO + d];
    assert s[..|s| - 1] == front && s[|s| - 1] == ZERO + d && s != [];
  }

  lemma {:induction false} MagnitudeOfDigits(n: nat)
    ensures Magnitude(Digits(n)) == Some(n)
  {
    if n < 10 {
      MagnitudeSnoc([], n);
      assert [] + [ZERO + n] == [ZERO + n];
    } else {
      MagnitudeOfDigits(n / 10);
      MagnitudeSnoc(Digits(n / 10), n % 10);
    }
  }

  /** Parsing of a 64-bit unsigned integer: an optional plus sign and at least one digit. */
  function ParseU64(s: Bytes): Option<u64> {
    var digits := if s != [] && s[0] == PLUS then s[1..] else s;
    match Magnitude(digits)
    case None => None
    case Some(v) => if v < WORD then Some(v) else None
  }

  /** Parsing of a 64-bit signed integer. */
  function ParseI64(s: Bytes): Option<i64> {
    var negative := s != [] && s[0] == MINUS;
    var digits := if s != [] && (s[0] == PLUS || s[0] == MINUS) then s[1..] else s;
    match Magnitude(digits)
    case None => None
    case Some(v) =>
      var magnitude: int := v;
      var n: int := if negative then -magnitude else magnitude;
      if -(WORD / 2) <= n < WORD / 2 then Some(n) else None
  }

  function PrintI64(n: int): Bytes {
    if n < 0 then [MINUS] + Digits(-n) else Digits(n)
  }

  lemma U64RoundTrip(n: u64)
    ensures ParseU64(Digits(n)) == Some(n)
  {
    hide Digits, Magnitude;
    MagnitudeOfDigits(n);
  }

  lemma I64RoundTrip(n: i64)
    ensures ParseI64(PrintI64(n)) == Some(n)
  {
    hide Digits, Magnitude;
    var m: int := n;
    MagnitudeOfDigits(if m < 0 then -m else m);
    assert m < 0 ==> PrintI64(n)[1..] == Digits(-m);
  }

  /** A parsed number prints to what was read, up to a plus sign and leading zeros. */
  lemma PrintNormalises(s: Bytes) returns (sign: Bytes, zeros: nat)
    requires ParseU64(s).Some?
    ensures sign == [] || sign == [PLUS]
    ensures s == sign + (Zeros(zeros) + Digits(ParseU64(s).value))
  {
    hide Digits, Magnitude;
    var digits := if s[0] == PLUS then s[1..] else s;
    zeros := LeadingZeros(digits);
    sign := if s[0] == PLUS then [PLUS] else [];
    assert s == sign + digits;
  }

  function Zeros(n: nat): Bytes {
    if n == 0 then [] else Zeros(n - 1) + [ZERO]
  }

  lemma DigitsSnoc(n: nat, d: nat)
    requires 0 < n && d < 10
    ensures Digits(10 * n + d) == Digits(n) + [ZERO + d]
  {
    assert (10 * n + d) / 10 == n && (10 * n + d) % 10 == d;
  }

  lemma {:induction false} LeadingZeros(s: Bytes) returns (zeros: nat)
    requires Magnitude(s).Some?
    ensures s == Zeros(zeros) + Digits(Magnitude(s).value)
  {
    hide Digits;
    var front, d := s[..|s| - 1], s[|s| - 1] - ZERO;
    assert s == front + [ZERO + d];
    if front == [] {
      zeros := 0;
      OneDigit(d);
    } else {
      zeros := LeadingZeros(front);
      var n := Magnitude(front).value;
      if n == 0 {
        OneDigit(0);
        OneDigit(d);
        zeros := zeros + 1;
      } else {
        DigitsSnoc(n, d);
      }
    }
  }

  lemma OneDigit(d: nat)
    requires d < 10
    ensures Digits(d) == [ZERO + d]
  {
  }

  // ---------------------------------------------------------------------------------------
  // UTF-8
  // ---------------------------------------------------------------------------------------

  predicate Continues(b: Bytes, i: nat, lo: byte, hi: byte) {
    i < |b| && lo <= b[i] <= hi
  }

  /** Length of the well-formed UTF-8 character that starts the non-empty string `b`, or 0. */
  function CharLength(b: Bytes): (n: nat)
    requires b != []
    ensures n <= |b|
  {
    var c := b[0];
    if c < 0x80 then 1
    else if 0xC2 <= c <= 0xDF then (if Continues(b, 1, 0x80, 0xBF) then 2 else 0)
    else if 0xE0 <= c <= 0xEF then
      var lo := if c == 0xE0 then 0xA0 else 0x80;
      var hi := if c == 0xED then 0x9F else 0xBF;
      if Continues(b, 1, lo, hi) && Continues(b, 2, 0x80, 0xBF) then 3 else 0
    else if 0xF0 <= c <= 0xF4 then
      var lo := if c == 0xF0 then 0x90 else 0x80;
      var hi := if c == 0xF4 then 0x8F else 0xBF;
      if Continues(b, 1, lo, hi) && Continues(b, 2, 0x80, 0xBF) && Continues(b, 3, 0x80, 0xBF) then 4 else 0
    else 0
  }

  predicate ValidUtf8(b: Bytes) {
    b == [] || (CharLength(b) > 0 && ValidUtf8(b[CharLength(b)..]))
  }

  /** A string type whose values are valid UTF-8. */
  type Utf8 = b: Bytes | ValidUtf8(b) witness []

  lemma {:induction false} AsciiIsUtf8(b: Bytes)
    requires forall i :: 0 <= i < |b| ==> b[i] < 0x80
    ensures ValidUtf8(b)
  {
    if b != [] {
      AsciiIsUtf8(b[1..]);
    }
  }

  // ---------------------------------------------------------------------------------------
  // Numbers in headers
  // ---------------------------------------------------------------------------------------

  datatype NumberError = NotUtf8 | NotANumber

  function ReadU64(s: Bytes): Result<u64, NumberError> {
    if !ValidUtf8(s) then Failure(NotUtf8)
    else match ParseU64(s) case None => Failure(NotANumber) case Some(n) => Success(n)
  }

  function ReadI64(s: Bytes): Result<i64, NumberError> {
    if !ValidUtf8(s) then Failure(NotUtf8)
    else match ParseI64(s) case None => Failure(NotANumber) case Some(n) => Success(n)
  }

  /** Bytes of a number: ASCII, and no CR among them. */
  predicate Plain(s: Bytes) {
    forall i :: 0 <= i < |s| ==> s[i] < 0x80 && s[i] != CR
  }

  lemma PlainText(s: Bytes)
    requires Plain(s)
    ensures ValidUtf8(s) && !HasCrlf(s)
  {
    hide ValidUtf8;
    AsciiIsUtf8(s);
    assert forall i: nat :: i < |s| ==> s[i] != CR;
  }

  lemma {:induction false} DigitsArePlain(s: Bytes)
    requires Magnitude(s).Some?
    ensures Plain(s)
  {
    if |s| > 1 {
      DigitsArePlain(s[..|s| - 1]);
      assert forall i :: 0 <= i < |s| - 1 ==> s[i] == s[..|s| - 1][i];
    }
  }

  /** Only plain text is a number. */
  lemma NumbersArePlain(s: Bytes)
    ensures ParseU64(s).Some? ==> Plain(s)
    ensures ParseI64(s).Some? ==> Plain(s)
  {
    hide Magnitude;
    if ParseU64(s).Some? || ParseI64(s).Some? {
      var digits := if s[0] == PLUS || s[0] == MINUS then s[1..] else s;
      DigitsArePlain(if ParseU64(s).Some? then (if s[0] == PLUS then s[1..] else s) else digits);
      assert forall i :: 1 <= i < |s| ==> s[i] == s[1..][i - 1];
    }
  }

  /** Everything a printed number needs to be read back from a line. */
  lemma NumberOnLine(n: int)
    ensures ValidUtf8(PrintI64(n)) && !HasCrlf(PrintI64(n))
    ensures -(WORD / 2) <= n < WORD / 2 ==> ReadI64(PrintI64(n)) == Success(n)
    ensures 0 <= n < WORD ==> ReadU64(PrintI64(n)) == Success(n)
  {
    hide Digits, Magnitude, ValidUtf8, Plain;
    MagnitudeOfDigits(if n < 0 then -n else n);
    DigitsArePlain(Digits(if n < 0 then -n else n));
    SignKeepsPlain(Digits(if n < 0 then -n else n));
    PlainText(PrintI64(n));
    if -(WORD / 2) <= n < WORD / 2 {
      I64RoundTrip(n);
    }
  }

  lemma SignKeepsPlain(s: Bytes)
    requires Plain(s)
    ensures Plain([MINUS] + s)
  {
  }
}
