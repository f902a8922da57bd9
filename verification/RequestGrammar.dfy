/** The request parser accepts exactly a grammar: what it takes off the front of a buffer is a
    spelled request, and every spelled request is taken, whatever follows it. */
module RequestGrammar {
  import opened Prelude
  import opened Wire
  import opened Framing
  import opened Request

  // ---------------------------------------------------------------------------------------
  // Numbers
  // ---------------------------------------------------------------------------------------

  /** An optional plus sign, any number of zeros, and the decimal form of `n`. */
  ghost predicate Spells(s: Bytes, n: nat) {
    exists sign, zeros: nat :: (sign == [] || sign == [PLUS]) && s == Spelling(sign, zeros, n)
  }

  function Spelling(sign: Bytes, zeros: nat, n: nat): Bytes {
    sign + (Zeros(zeros) + Digits(n))
  }

  lemma {:induction false} ZerosAddNothing(zeros: nat, n: nat)
    ensures Magnitude(Zeros(zeros) + Digits(n)) == Some(n)
    decreases n
  {
    hide Magnitude;
    var s := Zeros(zeros) + Digits(n);
    if n < 10 {
      ZerosAreZero(zeros);
      MagnitudeSnoc(Zeros(zeros), n);
    } else {
      ZerosAddNothing(zeros, n / 10);
      assert s == (Zeros(zeros) + Digits(n / 10)) + [ZERO + n % 10];
      MagnitudeSnoc(Zeros(zeros) + Digits(n / 10), n % 10);
    }
  }

  lemma {:induction false} ZerosAreZero(zeros: nat)
    ensures zeros > 0 ==> Magnitude(Zeros(zeros)) == Some(0)
  {
    hide Magnitude;
    if zeros > 0 {
      ZerosAreZero(zeros - 1);
      MagnitudeSnoc(Zeros(zeros - 1), 0);
    }
  }

  /** Exactly the spellings of a number that fits a word are read, as that number. */
  lemma NumberExact(s: Bytes, n: u64)
    ensures ParseU64(s) == Some(n) <==> Spells(s, n)
  {
    hide Digits, Magnitude;
    if ParseU64(s) == Some(n) {
      var sign, zeros := PrintNormalises(s);
      assert s == Spelling(sign, zeros, n);
    }
    if Spells(s, n) {
      var sign, zeros: nat :| (sign == [] || sign == [PLUS]) && s == Spelling(sign, zeros, n);
      ZerosAddNothing(zeros, n);
      var digits := Zeros(zeros) + Digits(n);
      FirstIsDigit(digits);
      assert s[|sign|..] == digits;
    }
  }

  lemma FirstIsDigit(s: Bytes)
    requires Magnitude(s).Some?
    ensures s != [] && ZERO <= s[0] <= ZERO + 9
    decreases |s|
  {
    if |s| > 1 {
      FirstIsDigit(s[..|s| - 1]);
    }
  }

  lemma SpelledIsAscii(s: Bytes, n: u64)
    requires Spells(s, n)
    ensures ValidUtf8(s) && !HasCrlf(s) && ReadU64(s) == Success(n)
  {
    hide ParseU64, Spells, ValidUtf8, Plain;
    NumberExact(s, n);
    NumbersArePlain(s);
    PlainText(s);
  }

  // ---------------------------------------------------------------------------------------
  // Headers, bulk strings and requests
  // ---------------------------------------------------------------------------------------

  ghost predicate IsHeader(p: Bytes, prefix: byte, n: nat) {
    exists s :: Spells(s, n) && p == [prefix] + s + CRLF
  }

  ghost predicate IsCstr(p: Bytes, cstr: Bytes) {
    && |cstr| <= MAX_COMPLEX_STRING_LENGTH
    && exists h :: IsHeader(h, CSTRING_BYTE, |cstr|) && p == h + cstr + CRLF
  }

  ghost predicate IsRequest(p: Bytes, args: Args) {
    && |args| <= MAX_ARRAY_LENGTH
    && exists h, pieces :: IsHeader(h, ARRAY_BYTE, |args|) && AreCstrs(pieces, args) && p == h + Flatten(pieces)
  }

  ghost predicate AreCstrs(pieces: seq<Bytes>, args: Args) {
    && |pieces| == |args|
    && forall i :: 0 <= i < |args| ==> IsCstr(pieces[i], args[i])
  }

  lemma HeaderTaken(b: Bytes, header: Header)
    requires ParseHeader(b, header).Complete?
    ensures var r := ParseHeader(b, header);
            IsHeader(b[..r.used], header.Prefix(), r.value)
  {
    hide ParseU64, ValidUtf8;
    var r := ParseHeader(b, header);
    var line := ParseLine(b).value;
    NumberExact(line.data[1..], r.value);
    assert b[..r.used] == line.data + CRLF;
    assert line.data == [header.Prefix()] + line.data[1..];
  }

  lemma HeaderIsTaken(p: Bytes, header: Header, n: nat, more: Bytes)
    requires IsHeader(p, header.Prefix(), n) && n <= header.Limit()
    ensures ParseHeader(p + more, header) == Complete(n, |p|)
  {
    hide ReadU64, ValidUtf8, Spells;
    var s :| Spells(s, n) && p == [header.Prefix()] + s + CRLF;
    var line := [header.Prefix()] + s;
    SpelledIsAscii(s, n);
    PrefixedLine(header.Prefix(), s);
    LineRoundTrip(line, more);
    assert p + more == line + CRLF + more;
    assert line[1..] == s;
  }

  lemma CstrTaken(b: Bytes)
    requires ParseCstr(b).Complete?
    ensures IsCstr(b[..ParseCstr(b).used], ParseCstr(b).value)
  {
    hide ParseHeader, IsHeader;
    var h, r := ParseHeader(b, CStringHeader), ParseCstr(b);
    HeaderTaken(b, CStringHeader);
    assert b[..r.used] == b[..h.used] + r.value + CRLF;
  }

  lemma CstrIsTaken(p: Bytes, cstr: Bytes, more: Bytes)
    requires IsCstr(p, cstr)
    ensures ParseCstr(p + more) == Complete(cstr, |p|)
  {
    hide ParseHeader, IsHeader;
    var h :| IsHeader(h, CSTRING_BYTE, |cstr|) && p == h + cstr + CRLF;
    HeaderIsTaken(h, CStringHeader, |cstr|, cstr + CRLF + more);
    assert p + more == h + (cstr + CRLF + more) == h + cstr + CRLF + more;
    TakeRoundTrip(h, cstr, more);
  }

  lemma TakeTake(b: Bytes, m: nat, n: nat)
    requires m + n <= |b|
    ensures b[..m] + b[m..][..n] == b[..m + n]
  {
  }

  lemma DropTake(b: Bytes, m: nat, n: nat)
    requires m + n <= |b|
    ensures b[m..][..n] == b[m..m + n]
  {
  }

  /** The slices of a buffer that successive bulk strings were taken from. */
  lemma {:induction false} CstrsTaken(b: Bytes, count: nat) returns (pieces: seq<Bytes>)
    requires ParseArgs(b, count).Complete?
    ensures var r := ParseArgs(b, count);
            AreCstrs(pieces, r.value) && Flatten(pieces) == b[..r.used]
    decreases count
  {
    hide ParseCstr, IsCstr;
    CstrBounded();
    if count == 0 {
      pieces := [];
    } else {
      var used := ParseCstr(b).used;
      var rest := ParseArgs(b[used..], count - 1);
      CstrTaken(b);
      var tail := CstrsTaken(b[used..], count - 1);
      pieces := [b[..used]] + tail;
      assert pieces[1..] == tail;
      TakeTake(b, used, rest.used);
    }
  }

  lemma CstrsAreTaken(pieces: seq<Bytes>, args: Args, more: Bytes)
    requires AreCstrs(pieces, args)
    ensures ParseArgs(Flatten(pieces) + more, |args|) == Complete(args, |Flatten(pieces)|)
  {
    hide ParseCstr, IsCstr;
    CstrBounded();
    forall i | 0 <= i < |pieces|
      ensures Prints(ParseCstr, pieces[i], args[i])
    {
      forall rest
        ensures Reads(ParseCstr, pieces[i], args[i], rest)
      {
        CstrIsTaken(pieces[i], args[i], rest);
      }
    }
    ManyPrinted(ParseCstr, pieces, args, more);
  }

  lemma RequestTaken(b: Bytes)
    requires ParseRequest(b).Complete?
    ensures IsRequest(b[..ParseRequest(b).used], ParseRequest(b).value)
  {
    hide ParseHeader, IsHeader, AreCstrs, ParseArgs;
    var h := ParseHeader(b, ArrayHeader);
    var items := ParseArgs(b[h.used..], h.value);
    HeaderTaken(b, ArrayHeader);
    var pieces := CstrsTaken(b[h.used..], h.value);
    assert [] + items.value == items.value;
    TakeTake(b, h.used, items.used);
  }

  lemma RequestIsTaken(p: Bytes, args: Args, more: Bytes)
    requires IsRequest(p, args)
    ensures ParseRequest(p + more) == Complete(args, |p|)
  {
    hide ParseHeader, IsHeader, AreCstrs, ParseArgs;
    var h, pieces :| IsHeader(h, ARRAY_BYTE, |args|) && AreCstrs(pieces, args) && p == h + Flatten(pieces);
    var rest := Flatten(pieces) + more;
    HeaderIsTaken(h, ArrayHeader, |args|, rest);
    assert p + more == h + rest;
    assert (h + rest)[|h|..] == rest;
    CstrsAreTaken(pieces, args, more);
    assert [] + args == args;
  }

  /** The parser takes `used` bytes as the request `args` exactly when these bytes spell it. */
  lemma RequestExact(b: Bytes, args: Args, used: nat)
    ensures ParseRequest(b) == Complete(args, used) <==> used <= |b| && IsRequest(b[..used], args)
  {
    hide ParseRequest, IsRequest;
    if ParseRequest(b) == Complete(args, used) {
      RequestTaken(b);
    }
    if used <= |b| && IsRequest(b[..used], args) {
      RequestIsTaken(b[..used], args, b[used..]);
      assert b[..used] + b[used..] == b;
    }
  }

  // ---------------------------------------------------------------------------------------
  // Refusals
  // ---------------------------------------------------------------------------------------

  /** A complete line that is no header within the limit is refused, with the error that names
      its fault; without a complete line there is no verdict. */
  lemma HeaderRefused(b: Bytes, n: u64)
    ensures forall header :: ParseHeader(b, header) == Waiting <==> !HasCrlf(b)
    ensures HasCrlf(b) ==>
              var line := ParseLine(b).value.data;
              && (line == [] ==> forall header :: ParseHeader(b, header) == Broken(MissingFirstByte))
              && (line != [] && line[0] != 42 ==> ParseHeader(b, ArrayHeader) == Broken(ExpectedArray(line[0])))
              && (line != [] && line[0] != 36 ==> ParseHeader(b, CStringHeader) == Broken(ExpectedCString(line[0])))
              && (line != [] && line[0] == 42 && Spells(line[1..], n) && 1_048_576 < n ==>
                    ParseHeader(b, ArrayHeader) == Broken(ArrayTooLong(n)))
              && (line != [] && line[0] == 36 && Spells(line[1..], n) && 536_870_912 < n ==>
                    ParseHeader(b, CStringHeader) == Broken(CStringTooLong(n)))
  {
    hide ParseU64, ValidUtf8, Spells;
    if HasCrlf(b) && ParseLine(b).value.data != [] {
      SpelledOrNot(ParseLine(b).value.data[1..], n);
    }
  }

  lemma SpelledOrNot(s: Bytes, n: u64)
    ensures Spells(s, n) <==> ValidUtf8(s) && ParseU64(s) == Some(n)
  {
    hide ParseU64, ValidUtf8, Spells;
    NumberExact(s, n);
    if Spells(s, n) {
      SpelledIsAscii(s, n);
    }
  }

  /** A header whose length is no text or no number. */
  lemma LengthRefused(b: Bytes, header: Header)
    requires HasCrlf(b) && ParseLine(b).value.data != []
    requires ParseLine(b).value.data[0] == if header == ArrayHeader then 42 else 36
    ensures var s := ParseLine(b).value.data[1..];
            && (ParseHeader(b, header) == Broken(InvalidUtf8) <==> !ValidUtf8(s))
            && (ParseHeader(b, header) == Broken(InvalidInt) <==> ValidUtf8(s) && forall n: u64 :: !Spells(s, n))
  {
    hide ParseU64, ValidUtf8, Spells;
    var s := ParseLine(b).value.data[1..];
    forall n: u64
      ensures Spells(s, n) <==> ValidUtf8(s) && ParseU64(s) == Some(n)
    {
      SpelledOrNot(s, n);
    }
  }

  /** A bulk string whose header and bytes are there is refused exactly when no CRLF follows. */
  lemma CstrRefused(b: Bytes)
    requires ParseHeader(b, CStringHeader).Complete?
    ensures var h := ParseHeader(b, CStringHeader);
            var end := h.used + h.value;
            && (ParseCstr(b) == Waiting <==> |b| < end + 2)
            && (ParseCstr(b) == Broken(MissingCrlf) <==> end + 2 <= |b| && !CrlfAt(b, end))
  {
    hide ParseHeader;
    var h := ParseHeader(b, CStringHeader);
    var end := h.used + h.value;
    if end + 2 <= |b| {
      assert b[end..end + 2] == [b[end], b[end + 1]];
    }
  }

  /** The fault of a first line, without its CRLF, that is no header within the limit. An array
      starts with `*` (42) and announces at most 2^20 strings, a bulk string starts with `$` (36)
      and announces at most 2^29 bytes. */
  ghost predicate LineFault(line: Bytes, header: Header, e: RequestError) {
    if line == [] then e == MissingFirstByte
    else
      match header
      case ArrayHeader =>
        if line[0] != 42 then e == ExpectedArray(line[0])
        else
          || LengthFault(line[1..], e)
          || exists n: u64 :: Spells(line[1..], n) && 1_048_576 < n && e == ArrayTooLong(n)
      case CStringHeader =>
        if line[0] != 36 then e == ExpectedCString(line[0])
        else
          || LengthFault(line[1..], e)
          || exists n: u64 :: Spells(line[1..], n) && 536_870_912 < n && e == CStringTooLong(n)
  }

  ghost predicate LengthFault(s: Bytes, e: RequestError) {
    if !ValidUtf8(s) then e == InvalidUtf8 else e == InvalidInt && forall n: u64 :: !Spells(s, n)
  }

  ghost predicate HeaderFault(b: Bytes, header: Header, e: RequestError) {
    exists line, rest :: b == line + CRLF + rest && !HasCrlf(line) && LineFault(line, header, e)
  }

  /** A faulty header, or a header and as many bytes as it announces without a CRLF after them. */
  ghost predicate CstrFault(b: Bytes, e: RequestError) {
    || HeaderFault(b, CStringHeader, e)
    || (e == MissingCrlf && exists h, cstr, rest :: LacksCrlf(b, h, cstr, rest))
  }

  ghost predicate LacksCrlf(b: Bytes, h: Bytes, cstr: Bytes, rest: Bytes) {
    && IsHeader(h, CSTRING_BYTE, |cstr|) && |cstr| <= MAX_COMPLEX_STRING_LENGTH
    && b == h + cstr + rest && 2 <= |rest| && rest[..2] != CRLF
  }

  /** Some spelled bulk strings, fewer than `count`, and then a faulty one. */
  ghost predicate ArgsFault(b: Bytes, count: nat, e: RequestError) {
    exists pieces, args, rest :: FaultAfter(b, count, e, pieces, args, rest)
  }

  ghost predicate FaultAfter(
    b: Bytes, count: nat, e: RequestError, pieces: seq<Bytes>, args: Args, rest: Bytes)
  {
    AreCstrs(pieces, args) && |args| < count && b == Flatten(pieces) + rest && CstrFault(rest, e)
  }

  /** A faulty array header, or a spelled one before faulty arguments. */
  ghost predicate RequestFault(b: Bytes, e: RequestError) {
    || HeaderFault(b, ArrayHeader, e)
    || exists h, count, rest :: ArgsAfter(b, h, count, rest) && ArgsFault(rest, count, e)
  }

  ghost predicate ArgsAfter(b: Bytes, h: Bytes, count: nat, rest: Bytes) {
    IsHeader(h, ARRAY_BYTE, count) && count <= MAX_ARRAY_LENGTH && b == h + rest
  }

  lemma HeaderBroken(b: Bytes, header: Header, e: RequestError)
    ensures ParseHeader(b, header) == Broken(e) <==> HeaderFault(b, header, e)
  {
    hide ParseU64, ValidUtf8, Spells;
    if HasCrlf(b) {
      var line, used := ParseLine(b).value.data, ParseLine(b).value.used;
      assert b == line + CRLF + b[used..];
      LineBroken(b, header, e);
    }
    if HeaderFault(b, header, e) {
      var line, rest :| b == line + CRLF + rest && !HasCrlf(line) && LineFault(line, header, e);
      LineRoundTrip(line, rest);
      LineBroken(b, header, e);
    }
  }

  lemma LineBroken(b: Bytes, header: Header, e: RequestError)
    requires HasCrlf(b)
    ensures ParseHeader(b, header) == Broken(e) <==> LineFault(ParseLine(b).value.data, header, e)
  {
    hide ParseU64, ValidUtf8, Spells;
    var line := ParseLine(b).value.data;
    if line != [] {
      var s := line[1..];
      forall n: u64
        ensures Spells(s, n) <==> ValidUtf8(s) && ParseU64(s) == Some(n)
      {
        SpelledOrNot(s, n);
      }
    }
  }

  lemma CstrBroken(b: Bytes, e: RequestError)
    ensures ParseCstr(b) == Broken(e) <==> CstrFault(b, e)
  {
    hide ParseHeader, IsHeader, HeaderFault;
    HeaderBroken(b, CStringHeader, e);
    var h := ParseHeader(b, CStringHeader);
    if h.Complete? && ParseCstr(b) == Broken(e) {
      HeaderTaken(b, CStringHeader);
      var end := h.used + h.value;
      DropTake(b, end, 2);
      assert b == b[..h.used] + b[h.used..end] + b[end..];
      LacksCrlfWith(b, b[..h.used], b[h.used..end], b[end..]);
    }
    if e == MissingCrlf && exists h, cstr, rest :: LacksCrlf(b, h, cstr, rest) {
      var h, cstr, rest :| LacksCrlf(b, h, cstr, rest);
      HeaderIsTaken(h, CStringHeader, |cstr|, cstr + rest);
      assert b == h + (cstr + rest);
      var end := |h| + |cstr|;
      assert b[end..end + 2] == rest[..2];
    }
  }

  lemma LacksCrlfWith(b: Bytes, h: Bytes, cstr: Bytes, rest: Bytes)
    requires LacksCrlf(b, h, cstr, rest)
    ensures CstrFault(b, MissingCrlf)
  {
    hide LacksCrlf, HeaderFault;
  }

  lemma {:induction false} ArgsBroken(b: Bytes, count: nat, e: RequestError)
    requires ParseArgs(b, count) == Broken(e)
    ensures ArgsFault(b, count, e)
    decreases count
  {
    hide ParseCstr, IsCstr, CstrFault, AreCstrs;
    CstrBounded();
    CstrBroken(b, e);
    if ParseCstr(b) == Broken(e) {
      NothingBefore(b);
      assert FaultAfter(b, count, e, [], [], b);
    } else {
      var cstr, used := ParseCstr(b).value, ParseCstr(b).used;
      CstrTaken(b);
      ArgsBroken(b[used..], count - 1, e);
      var pieces, args, rest :| FaultAfter(b[used..], count - 1, e, pieces, args, rest);
      OneCstrMore(b[..used], cstr, pieces, args);
      Rejoined(b, used, Flatten(pieces), rest);
      assert FaultAfter(b, count, e, [b[..used]] + pieces, [cstr] + args, rest);
    }
  }

  lemma NothingBefore(b: Bytes)
    ensures AreCstrs([], []) && Flatten([]) + b == b
  {
  }

  lemma OneCstrMore(piece: Bytes, cstr: Bytes, pieces: seq<Bytes>, args: Args)
    requires IsCstr(piece, cstr) && AreCstrs(pieces, args)
    ensures AreCstrs([piece] + pieces, [cstr] + args) && Flatten([piece] + pieces) == piece + Flatten(pieces)
  {
    hide IsCstr;
    assert ([piece] + pieces)[1..] == pieces;
  }

  lemma Rejoined(b: Bytes, used: nat, middle: Bytes, rest: Bytes)
    requires used <= |b| && b[used..] == middle + rest
    ensures b == (b[..used] + middle) + rest
  {
    assert b == b[..used] + b[used..];
  }

  lemma FaultBreaksArgs(b: Bytes, count: nat, e: RequestError)
    requires ArgsFault(b, count, e)
    ensures ParseArgs(b, count) == Broken(e)
  {
    hide ParseCstr, AreCstrs, CstrFault;
    CstrBounded();
    var pieces, args, rest :| FaultAfter(b, count, e, pieces, args, rest);
    CstrsAreTaken(pieces, args, rest);
    CstrBroken(rest, e);
    ManyResume(ParseCstr, b, |args|, count);
    DropPrefix(Flatten(pieces), rest);
  }

  /** The parser refuses a buffer with the error `e` exactly when the buffer is spelled correctly
      up to a part with that fault. What is neither this nor a spelled request is incomplete. */
  lemma RefusalExact(b: Bytes, e: RequestError)
    ensures ParseRequest(b) == Broken(e) <==> RequestFault(b, e)
  {
    hide ParseHeader, ParseArgs, IsHeader, HeaderFault, ArgsFault;
    HeaderBroken(b, ArrayHeader, e);
    var h := ParseHeader(b, ArrayHeader);
    if h.Complete? && ParseRequest(b) == Broken(e) {
      HeaderTaken(b, ArrayHeader);
      ArgsBroken(b[h.used..], h.value, e);
      assert b == b[..h.used] + b[h.used..];
      assert ArgsAfter(b, b[..h.used], h.value, b[h.used..]);
    }
    if !HeaderFault(b, ArrayHeader, e) && RequestFault(b, e) {
      var h, count, rest :| ArgsAfter(b, h, count, rest) && ArgsFault(rest, count, e);
      HeaderIsTaken(h, ArrayHeader, count, rest);
      FaultBreaksArgs(rest, count, e);
      DropPrefix(h, rest);
    }
  }

  // ---------------------------------------------------------------------------------------
  // Whole streams
  // ---------------------------------------------------------------------------------------

  /** The stream is spelled as the requests, one after the other, and `rest`, which is empty, or
      faulty, or neither a request nor faulty yet. */
  ghost predicate StreamSpells(
    stream: Bytes, pieces: seq<Bytes>, rest: Bytes, requests: seq<Args>, end: End<RequestError>)
  {
    && |pieces| == |requests| && (forall i :: 0 <= i < |pieces| ==> IsRequest(pieces[i], requests[i]))
    && stream == Flatten(pieces) + rest
    && match end
       case Clean => rest == []
       case Failed(e) => RequestFault(rest, e)
       case Truncated => rest != [] && Unfinished(rest)
  }

  ghost predicate Unfinished(b: Bytes) {
    && (forall e :: !RequestFault(b, e))
    && (forall n, args :: 0 <= n <= |b| ==> !IsRequest(b[..n], args))
  }

  /** A buffer without a verdict is one that neither spells a request nor has a fault. */
  lemma WaitingExact(b: Bytes)
    ensures ParseRequest(b) == Waiting <==> Unfinished(b)
  {
    hide ParseRequest, IsRequest, RequestFault;
    forall e
      ensures ParseRequest(b) == Broken(e) <==> RequestFault(b, e)
    {
      RefusalExact(b, e);
    }
    forall n: nat, args | n <= |b|
      ensures ParseRequest(b) == Complete(args, n) <==> IsRequest(b[..n], args)
    {
      RequestExact(b, args, n);
    }
    match ParseRequest(b) {
      case Waiting =>
      case Broken(e) => assert RequestFault(b, e);
      case Complete(args, n) => assert IsRequest(b[..n], args);
    }
  }

  /** The requests of a stream and the way it ends are those that it spells; there is one way to
      read it. */
  lemma StreamExact(stream: Bytes, requests: seq<Args>, end: End<RequestError>)
    ensures Requests(stream) == (requests, end) <==>
            exists pieces, rest :: StreamSpells(stream, pieces, rest, requests, end)
  {
    hide Requests, StreamSpells;
    if Requests(stream) == (requests, end) {
      var pieces, rest := StreamIsSpelled(stream);
    }
    if exists pieces, rest :: StreamSpells(stream, pieces, rest, requests, end) {
      var pieces, rest :| StreamSpells(stream, pieces, rest, requests, end);
      SpelledStream(stream, pieces, rest, requests, end);
    }
  }

  lemma {:induction false} StreamIsSpelled(stream: Bytes) returns (pieces: seq<Bytes>, rest: Bytes)
    ensures StreamSpells(stream, pieces, rest, Requests(stream).0, Requests(stream).1)
    decreases |stream|
  {
    hide ParseRequest, IsRequest, RequestFault, Unfinished;
    RequestLocal();
    match ParseRequest(stream) {
      case Waiting =>
        WaitingExact(stream);
        pieces, rest := [], stream;
        assert Flatten([]) + stream == stream;
      case Broken(e) =>
        RefusalExact(stream, e);
        pieces, rest := [], stream;
        assert Flatten([]) + stream == stream;
      case Complete(request, used) =>
        RequestExact(stream, request, used);
        var tail, left := StreamIsSpelled(stream[used..]);
        OnePieceMore(stream, used, request, tail, left, Requests(stream[used..]).0, Requests(stream[used..]).1);
        pieces, rest := [stream[..used]] + tail, left;
    }
  }

  lemma OnePieceMore(
    stream: Bytes, used: nat, request: Args, tail: seq<Bytes>, rest: Bytes, requests: seq<Args>,
    end: End<RequestError>)
    requires used <= |stream| && IsRequest(stream[..used], request)
    requires StreamSpells(stream[used..], tail, rest, requests, end)
    ensures StreamSpells(stream, [stream[..used]] + tail, rest, [request] + requests, end)
  {
    hide IsRequest, RequestFault, Unfinished;
    assert ([stream[..used]] + tail)[1..] == tail;
    Rejoined(stream, used, Flatten(tail), rest);
  }

  lemma {:induction false} SpelledStream(
    stream: Bytes, pieces: seq<Bytes>, rest: Bytes, requests: seq<Args>, end: End<RequestError>)
    requires StreamSpells(stream, pieces, rest, requests, end)
    ensures Requests(stream) == (requests, end)
    decreases |pieces|
  {
    hide ParseRequest, IsRequest, RequestFault, Unfinished;
    RequestLocal();
    if pieces == [] {
      assert stream == rest by { assert Flatten([]) + rest == rest; }
      match end {
        case Clean =>
        case Failed(e) => RefusalExact(rest, e);
        case Truncated => WaitingExact(rest);
      }
    } else {
      var tail := Flatten(pieces[1..]) + rest;
      assert stream == pieces[0] + tail;
      RequestIsTaken(pieces[0], requests[0], tail);
      DropPrefix(pieces[0], tail);
      SpelledStream(tail, pieces[1..], rest, requests[1..], end);
      assert [requests[0]] + requests[1..] == requests;
    }
  }

  // ---------------------------------------------------------------------------------------
  // Refusals from first to last byte
  // ---------------------------------------------------------------------------------------

  /** The header of a request: the wrong first byte `c`, or a length `n`, spelled `s`, that is too
      large. What follows the line does not matter. */
  lemma ArrayRefused(c: byte, s: Bytes, n: u64, more: Bytes)
    ensures c != 42 && !HasCrlf([c] + s) ==>
              ParseRequest([c] + s + [13, 10] + more) == Broken(ExpectedArray(c))
    ensures Spells(s, n) && 1_048_576 < n ==>
              ParseRequest([42] + s + [13, 10] + more) == Broken(ArrayTooLong(n))
    ensures ParseRequest([13, 10] + more) == Broken(MissingFirstByte)
  {
    hide ParseRequest, Spells, HasCrlf;
    if c != 42 && !HasCrlf([c] + s) {
      FaultOfLine([c] + s, more, ArrayHeader, ExpectedArray(c));
      RefusalExact([c] + s + [13, 10] + more, ExpectedArray(c));
    }
    if Spells(s, n) && 1_048_576 < n {
      SpelledIsAscii(s, n);
      PrefixedLine(42, s);
      assert ([42] + s)[1..] == s;
      FaultOfLine([42] + s, more, ArrayHeader, ArrayTooLong(n));
      RefusalExact([42] + s + [13, 10] + more, ArrayTooLong(n));
    }
    NoCrlfInNothing();
    FaultOfLine([], more, ArrayHeader, MissingFirstByte);
    assert [] + [13, 10] + more == [13, 10] + more;
    RefusalExact([13, 10] + more, MissingFirstByte);
  }

  lemma NoCrlfInNothing()
    ensures !HasCrlf([])
  {
  }

  lemma FaultOfLine(line: Bytes, more: Bytes, header: Header, e: RequestError)
    requires !HasCrlf(line) && LineFault(line, header, e)
    ensures HeaderFault(line + [13, 10] + more, header, e)
  {
    hide LineFault, HasCrlf;
    assert line + [13, 10] + more == line + CRLF + more;
  }

  /** A string of a request, after the request's header `h` and the strings before it: the wrong
      first byte `c`, a length that is too large, or no CRLF after its bytes. */
  lemma StringRefused(
    h: Bytes, count: nat, pieces: seq<Bytes>, args: Args, c: byte, s: Bytes, n: u64, more: Bytes)
    requires IsHeader(h, 42, count) && count <= 1_048_576 && AreCstrs(pieces, args) && |args| < count
    ensures c != 36 && !HasCrlf([c] + s) ==>
              ParseRequest(h + (Flatten(pieces) + ([c] + s + [13, 10] + more))) == Broken(ExpectedCString(c))
    ensures Spells(s, n) && 536_870_912 < n ==>
              ParseRequest(h + (Flatten(pieces) + ([36] + s + [13, 10] + more))) == Broken(CStringTooLong(n))
    ensures Spells(s, n) && n <= 536_870_912 && n + 2 <= |more| && more[n..n + 2] != [13, 10] ==>
              ParseRequest(h + (Flatten(pieces) + ([36] + s + [13, 10] + more))) == Broken(MissingCrlf)
  {
    hide ParseRequest, Spells, HasCrlf, IsHeader, AreCstrs, CstrFault;
    if c != 36 && !HasCrlf([c] + s) {
      FaultOfLine([c] + s, more, CStringHeader, ExpectedCString(c));
      HeaderFaultInString([c] + s + [13, 10] + more, ExpectedCString(c));
      FaultInString(h, count, pieces, args, [c] + s + [13, 10] + more, ExpectedCString(c));
    }
    var rest := [36] + s + [13, 10] + more;
    if Spells(s, n) {
      SpelledIsAscii(s, n);
      PrefixedLine(36, s);
      assert ([36] + s)[1..] == s;
      if 536_870_912 < n {
        FaultOfLine([36] + s, more, CStringHeader, CStringTooLong(n));
        HeaderFaultInString(rest, CStringTooLong(n));
        FaultInString(h, count, pieces, args, rest, CStringTooLong(n));
      } else if n + 2 <= |more| && more[n..n + 2] != [13, 10] {
        UnclosedString(s, n, more);
        FaultInString(h, count, pieces, args, rest, MissingCrlf);
      }
    }
  }

  lemma HeaderFaultInString(b: Bytes, e: RequestError)
    requires HeaderFault(b, CStringHeader, e)
    ensures CstrFault(b, e)
  {
    hide HeaderFault;
  }

  lemma UnclosedString(s: Bytes, n: u64, more: Bytes)
    requires Spells(s, n) && n <= 536_870_912 && n + 2 <= |more| && more[n..n + 2] != [13, 10]
    ensures CstrFault([36] + s + [13, 10] + more, MissingCrlf)
  {
    hide Spells;
    var h := [36] + s + CRLF;
    assert IsHeader(h, CSTRING_BYTE, n);
    DropTake(more, n, 2);
    assert h + more[..n] + more[n..] == [36] + s + [13, 10] + more;
    LacksCrlfWith([36] + s + [13, 10] + more, h, more[..n], more[n..]);
  }

  lemma FaultInString(h: Bytes, count: nat, pieces: seq<Bytes>, args: Args, rest: Bytes, e: RequestError)
    requires IsHeader(h, 42, count) && count <= 1_048_576 && AreCstrs(pieces, args) && |args| < count
    requires CstrFault(rest, e)
    ensures ParseRequest(h + (Flatten(pieces) + rest)) == Broken(e)
  {
    hide ParseRequest, IsHeader, AreCstrs, CstrFault;
    var tail := Flatten(pieces) + rest;
    assert FaultAfter(tail, count, e, pieces, args, rest);
    assert ArgsFault(tail, count, e);
    assert ArgsAfter(h + tail, h, count, tail);
    RefusalExact(h + tail, e);
  }
}
