/** The texts of errors, and which of them hold a line break: an error quotes the text it objects
    to, and a reader takes an error only up to its first CRLF. */
module ErrorTexts {
  import opened Prelude
  import opened Wire
  import opened Command
  import Req = Request

  type Args = Req.Args

  /** The texts that errors are reported with. */
  datatype Texts = Texts(ofCommand: CommandError -> Utf8, ofRequest: Req.RequestError -> Utf8)

  predicate OneLine(s: Bytes) {
    forall i :: 0 <= i < |s| ==> s[i] != CR && s[i] != LF
  }

  /** The two command errors that quote what the client sent do so inside one line of text, and
      no other error text holds a CRLF. */
  ghost predicate QuotePayloads(texts: Texts) {
    && (exists before, after :: QuotesName(texts, before, after))
    && (exists before, after :: QuotesExpiration(texts, before, after))
    && (forall e: CommandError :: !e.UnrecognizedCommand? && !e.InvalidExpiration? ==> !HasCrlf(texts.ofCommand(e)))
    && (forall e: Req.RequestError :: !HasCrlf(texts.ofRequest(e)))
  }

  ghost predicate QuotesName(texts: Texts, before: Bytes, after: Bytes) {
    && OneLine(before) && OneLine(after)
    && forall name: Utf8 :: texts.ofCommand(UnrecognizedCommand(name)) == before + name + after
  }

  ghost predicate QuotesExpiration(texts: Texts, before: Bytes, after: Bytes) {
    && OneLine(before) && OneLine(after)
    && forall text: Utf8 :: texts.ofCommand(InvalidExpiration(text)) == before + text + after
  }

  lemma QuoteKeepsCrlf(before: Bytes, payload: Bytes, after: Bytes)
    requires OneLine(before) && OneLine(after)
    ensures HasCrlf(before + payload + after) <==> HasCrlf(payload)
  {
    var all := before + payload + after;
    if HasCrlf(payload) {
      var i: nat :| CrlfAt(payload, i);
      assert CrlfAt(all, |before| + i);
    }
    if HasCrlf(all) {
      var i: nat :| CrlfAt(all, i);
      NoBreakOutside(before, payload, after, i);
      NoBreakOutside(before, payload, after, i + 1);
      assert CrlfAt(payload, i - |before|);
    }
  }

  lemma NoBreakOutside(before: Bytes, payload: Bytes, after: Bytes, i: nat)
    requires OneLine(before) && OneLine(after) && i < |before + payload + after|
    requires (before + payload + after)[i] == CR || (before + payload + after)[i] == LF
    ensures |before| <= i < |before| + |payload|
  {
  }

  // ---------------------------------------------------------------------------------------
  // Refused requests
  // ---------------------------------------------------------------------------------------

  /** A request that is refused with a CRLF in the text that the error quotes: one with an unknown
      name, or with an expiration that is no number. */
  ghost predicate QuotesCrlf(request: Args) {
    && request != [] && ValidUtf8(request[0])
    && match ArityOf(request[0])
       case None => HasCrlf(request[0])
       case Some(_) =>
         && request[0] in {EXPIRE_NAME, EXPIREAT_NAME} && |request| == 3
         && ValidUtf8(request[2]) && HasCrlf(request[2])
  }

  /** The error text of a refused request holds a CRLF exactly when the quoted payload does. */
  lemma RefusalText(request: Args, now: u64, texts: Texts)
    requires TryFrom(request, now).Failure? && QuotePayloads(texts)
    ensures HasCrlf(texts.ofCommand(TryFrom(request, now).error)) <==> QuotesCrlf(request)
  {
    hide TryFrom, HasCrlf, ValidUtf8, ParseU64, Plain, OneLine;
    RefusedExactly(request, now);
    var e := TryFrom(request, now).error;
    match e {
      case UnrecognizedCommand(name) =>
        var before, after :| QuotesName(texts, before, after);
        QuoteKeepsCrlf(before, name, after);
      case InvalidExpiration(text) =>
        var before, after :| QuotesExpiration(texts, before, after);
        QuoteKeepsCrlf(before, text, after);
      case _ =>
        if |request| == 3 && HasCrlf(request[2]) {
          BreaksAreNoNumbers(request[2]);
        }
    }
  }

  lemma BreaksAreNoNumbers(s: Bytes)
    requires HasCrlf(s)
    ensures ParseU64(s).None?
  {
    hide ParseU64, HasCrlf, ValidUtf8, Plain;
    NumbersArePlain(s);
    if Plain(s) {
      PlainText(s);
    }
  }

  /** An accepted request that sends text with a CRLF as a name or an expiration there is not. */
  lemma AcceptedQuotesNothing(request: Args, now: u64)
    requires TryFrom(request, now).Success?
    ensures !QuotesCrlf(request)
  {
    hide TryFrom, HasCrlf, ValidUtf8, ParseU64;
    RefusedExactly(request, now);
    if QuotesCrlf(request) && |request| == 3 && HasCrlf(request[2]) {
      BreaksAreNoNumbers(request[2]);
    }
  }

  // ---------------------------------------------------------------------------------------
  // The texts of the program
  // ---------------------------------------------------------------------------------------

  /** Text in ASCII. A character that is not printable, which no text below has, shows as `?`. */
  function Ascii(s: string): (r: Bytes)
    ensures ValidUtf8(r) && OneLine(r)
  {
    var r: Bytes := seq(|s|, i requires 0 <= i < |s| => if ' ' <= s[i] <= '~' then s[i] as int else '?' as int);
    AsciiIsUtf8(r);
    r
  }

  lemma {:induction false} JoinedIsUtf8(a: Bytes, b: Bytes)
    requires ValidUtf8(a) && ValidUtf8(b)
    ensures ValidUtf8(a + b)
    decreases |a|
  {
    if a == [] {
      assert a + b == b;
    } else {
      var n := CharLength(a);
      assert CharLength(a + b) == n;
      assert (a + b)[n..] == a[n..] + b;
      JoinedIsUtf8(a[n..], b);
    }
  }

  /** A payload or a number between two pieces of text. */
  function Around(before: Utf8, payload: Utf8, after: Utf8): (r: Utf8)
    ensures r == before + payload + after
  {
    JoinedIsUtf8(before, payload);
    JoinedIsUtf8(before + payload, after);
    before + payload + after
  }

  function Number(n: nat): (r: Utf8)
    ensures OneLine(r)
  {
    DigitsAreText(n);
    Digits(n)
  }

  lemma {:induction false} DigitsAreText(n: nat)
    ensures ValidUtf8(Digits(n)) && OneLine(Digits(n))
  {
    hide ValidUtf8;
    AsciiIsUtf8([ZERO + n % 10]);
    if n >= 10 {
      DigitsAreText(n / 10);
      JoinedIsUtf8(Digits(n / 10), [ZERO + n % 10]);
    }
  }

  const NAME_BEFORE: Utf8 := Ascii("unrecognized command name: ")
  const NAMES := "[\"GET\", \"SET\", \"MGET\", \"MSET\", \"DEL\", \"GETALL\", \"EXPIRE\", \"EXPIREAT\", \"TTL\"]"
  const NAME_AFTER: Utf8 := Ascii(", expected one of: " + NAMES)
  const EXPIRATION_BEFORE: Utf8 := Ascii("expiration must be a valid integer, got: ")

  function CommandText(e: CommandError): Utf8 {
    match e
    case InvalidUtf8 => Ascii("command name was not valid utf-8")
    case UnrecognizedCommand(name) => Around(NAME_BEFORE, name, NAME_AFTER)
    case TooFewArguments(n) =>
      Around(Ascii("command has too few arguments; request had "), Number(n), Ascii(" elements"))
    case TooManyArguments(n) => Around(Ascii("request had too many elements: "), Number(n), [])
    case UnevenArgumentLength(n) => Around(Ascii("expected even length, got len: "), Number(n), [])
    case InvalidExpiration(text) => Around(EXPIRATION_BEFORE, text, [])
  }

  /** The command errors of the program are reported in texts of that kind. */
  lemma CommandTextsQuotePayloads(ofRequest: Req.RequestError -> Utf8)
    requires forall e: Req.RequestError :: !HasCrlf(ofRequest(e))
    ensures QuotePayloads(Texts(e => CommandText(e), ofRequest))
  {
    hide Ascii, ValidUtf8, Digits;
    var texts := Texts(e => CommandText(e), ofRequest);
    assert QuotesName(texts, NAME_BEFORE, NAME_AFTER);
    assert QuotesExpiration(texts, EXPIRATION_BEFORE, []);
    forall e: CommandError | !e.UnrecognizedCommand? && !e.InvalidExpiration?
      ensures !HasCrlf(texts.ofCommand(e))
    {
      PlainCommandText(e);
    }
  }

  lemma PlainCommandText(e: CommandError)
    requires !e.UnrecognizedCommand? && !e.InvalidExpiration?
    ensures !HasCrlf(CommandText(e))
  {
    hide Ascii, ValidUtf8, Digits;
  }

  /** The counting errors as whole sentences; `d` is the number in decimal. */
  lemma CommandTextsSpelled(n: nat, d: string)
    requires Ascii(d) == Digits(n)
    ensures CommandText(TooFewArguments(n)) == Ascii("command has too few arguments; request had " + d + " elements")
    ensures CommandText(TooManyArguments(n)) == Ascii("request had too many elements: " + d)
    ensures CommandText(UnevenArgumentLength(n)) == Ascii("expected even length, got len: " + d)
  {
    hide Ascii, Digits, ValidUtf8;
    AsciiJoined("command has too few arguments; request had ", d);
    AsciiJoined("command has too few arguments; request had " + d, " elements");
    AsciiJoined("request had too many elements: ", d);
    AsciiJoined("expected even length, got len: ", d);
  }

  lemma AsciiJoined(s: string, t: string)
    ensures Ascii(s + t) == Ascii(s) + Ascii(t)
  {
  }
}
