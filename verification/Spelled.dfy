/** The protocol in plain bytes: what every command and every response looks like on the wire, and
    which requests stand for which commands. */
module Spelled {
  import opened Prelude
  import opened Wire
  import opened Framing
  import Req = Request
  import opened RequestGrammar
  import opened Command
  import Res = Response

  type Args = Req.Args

  /** The bytes of a text in ASCII. */
  function Text(s: string): Bytes {
    seq(|s|, i requires 0 <= i < |s| => s[i] as int % 0x80)
  }

  // ---------------------------------------------------------------------------------------
  // Numbers
  // ---------------------------------------------------------------------------------------

  /** Decimal digits, the most significant first. */
  lemma DigitsSpelled(n: nat, d: nat)
    requires d < 10
    ensures Digits(d) == [48 + d]
    ensures 0 < n ==> Digits(10 * n + d) == Digits(n) + [48 + d]
  {
    if 0 < n {
      DigitsSnoc(n, d);
    }
  }

  /** What a number below 2^64 is read from: an optional `+`, any number of zeros, its digits. */
  lemma NumbersSpelled(s: Bytes, n: u64)
    ensures ParseU64(s) == Some(n) <==>
            exists zeros: seq<byte> :: AllZeros(zeros) && (s == zeros + Digits(n) || s == Text("+") + zeros + Digits(n))
  {
    hide ParseU64, Digits, Text;
    NumberExact(s, n);
    assert Text("+") == [PLUS] by { PlusSpelled(); }
    if Spells(s, n) {
      var sign, count: nat :| (sign == [] || sign == [PLUS]) && s == Spelling(sign, count, n);
      ZerosAreZeros(count);
      assert s == sign + Zeros(count) + Digits(n);
    }
    if zeros: seq<byte> :| AllZeros(zeros) && (s == zeros + Digits(n) || s == Text("+") + zeros + Digits(n)) {
      ZerosSpelled(zeros);
      assert s == Spelling([], |zeros|, n) || s == Spelling([PLUS], |zeros|, n);
    }
  }

  predicate AllZeros(s: Bytes) {
    forall i :: 0 <= i < |s| ==> s[i] == 48
  }

  lemma PlusSpelled()
    ensures Text("+") == [PLUS]
  {
  }

  lemma {:induction false} ZerosAreZeros(n: nat)
    ensures AllZeros(Zeros(n))
  {
    if n > 0 {
      ZerosAreZeros(n - 1);
    }
  }

  lemma {:induction false} ZerosSpelled(s: Bytes)
    requires AllZeros(s)
    ensures s == Zeros(|s|)
  {
    if s != [] {
      var front := s[..|s| - 1];
      ZerosSpelled(front);
      assert s == front + [48];
    }
  }

  // ---------------------------------------------------------------------------------------
  // Commands as bytes
  // ---------------------------------------------------------------------------------------

  /** A bulk string: its length, and its bytes, each with CRLF after it. */
  function Bulk(b: Bytes): Bytes {
    Text("$") + Digits(|b|) + Text("\r\n") + b + Text("\r\n")
  }

  function Bulks(args: Args): Bytes {
    if args == [] then [] else Bulk(args[0]) + Bulks(args[1..])
  }

  lemma {:induction false} BulksPrinted(args: Args)
    ensures Flatten(Req.PrintCstrs(args)) == Bulks(args)
  {
    if args != [] {
      BulksPrinted(args[1..]);
      assert Req.PrintCstrs(args)[1..] == Req.PrintCstrs(args[1..]);
      BulkPrinted(args[0]);
    }
  }

  lemma BulkPrinted(b: Bytes)
    ensures Req.PrintCstr(b) == Bulk(b)
  {
    assert Text("$") == [CSTRING_BYTE] && Text("\r\n") == CRLF;
  }

  /** An array of bulk strings: their number, then the strings. */
  function Message(args: Args): Bytes {
    Text("*") + Digits(|args|) + Text("\r\n") + Bulks(args)
  }

  lemma RequestSpelled(args: Args)
    ensures Req.PrintRequest(args) == Message(args)
  {
    hide Digits, Flatten, Bulks, Req.PrintCstrs;
    BulksPrinted(args);
    assert Text("*") == [ARRAY_BYTE] && Text("\r\n") == CRLF;
  }

  /** The limits of a request. */
  lemma LimitsSpelled(args: Args)
    ensures Req.Sendable(args) <==> |args| <= 1_048_576 && forall i :: 0 <= i < |args| ==> |args[i]| <= 536_870_912
  {
  }

  /** Keys and values in turn. */
  function InTurn(entries: seq<(Bytes, Bytes)>): (r: Args)
    ensures |r| == 2 * |entries|
    ensures forall i :: 0 <= i < |entries| ==> r[2 * i] == entries[i].0 && r[2 * i + 1] == entries[i].1
  {
    seq(2 * |entries|, i requires 0 <= i < 2 * |entries| => if i % 2 == 0 then entries[i / 2].0 else entries[i / 2].1)
  }

  lemma {:induction false} SpreadAt(entries: seq<(Bytes, Bytes)>, i: nat)
    requires i < |entries|
    ensures Spread(entries)[2 * i] == entries[i].0 && Spread(entries)[2 * i + 1] == entries[i].1
    decreases |entries|
  {
    if i < |entries| - 1 {
      SpreadAt(entries[..|entries| - 1], i);
    }
  }

  lemma SpreadInTurn(entries: seq<(Bytes, Bytes)>)
    ensures Spread(entries) == InTurn(entries)
  {
    hide Spread, InTurn;
    forall j | 0 <= j < 2 * |entries|
      ensures Spread(entries)[j] == InTurn(entries)[j]
    {
      var i := j / 2;
      assert j == 2 * i || j == 2 * i + 1;
      SpreadAt(entries, i);
    }
  }

  /** The strings that a command is written as. */
  function Words(c: Command): Args {
    match c
    case Get(key) => [Text("GET"), key]
    case Set(key, value) => [Text("SET"), key, value]
    case MGet(keys) => [Text("MGET")] + keys
    case MSet(entries) => [Text("MSET")] + InTurn(entries)
    case Del(keys) => [Text("DEL")] + keys
    case GetAll => [Text("GETALL")]
    case ExpireAt(key, deadline) => [Text("EXPIREAT"), key, Digits(deadline)]
    case Ttl(key) => [Text("TTL"), key]
  }

  lemma NamesSpelled()
    ensures Text("GET") == GET_NAME && Text("SET") == SET_NAME && Text("MGET") == MGET_NAME
    ensures Text("MSET") == MSET_NAME && Text("DEL") == DEL_NAME && Text("GETALL") == GETALL_NAME
    ensures Text("EXPIRE") == EXPIRE_NAME && Text("EXPIREAT") == EXPIREAT_NAME && Text("TTL") == TTL_NAME
  {
    hide Text;
    ShortNames();
    LongNames();
  }

  lemma ShortNames()
    ensures Text("GET") == GET_NAME && Text("SET") == SET_NAME && Text("MGET") == MGET_NAME
    ensures Text("MSET") == MSET_NAME && Text("DEL") == DEL_NAME && Text("TTL") == TTL_NAME
  {
  }

  lemma LongNames()
    ensures Text("GETALL") == GETALL_NAME && Text("EXPIRE") == EXPIRE_NAME && Text("EXPIREAT") == EXPIREAT_NAME
  {
  }

  /** Every command is written as its name and its arguments, as an array of bulk strings. */
  lemma CommandSpelled(c: Command)
    ensures Parts(c) == Words(c) && PrintCommand(c) == Message(Words(c))
  {
    hide Text, Digits, Message, Req.PrintRequest, Spread, InTurn;
    NamesSpelled();
    match c {
      case MSet(entries) => SpreadInTurn(entries);
      case _ =>
    }
    RequestSpelled(Words(c));
  }

  // ---------------------------------------------------------------------------------------
  // Requests as commands
  // ---------------------------------------------------------------------------------------

  lemma NamesAreText(name: Bytes)
    requires ArityOf(name).Some?
    ensures ValidUtf8(name)
  {
    hide ValidUtf8;
    AsciiIsUtf8(name);
  }

  /** Requests for each command, at any time. */
  lemma RequestsSpelled(k: Bytes, v: Bytes, keys: seq<Bytes>, now: u64)
    ensures TryFrom([Text("GET"), k], now) == Success(Get(k))
    ensures TryFrom([Text("SET"), k, v], now) == Success(Set(k, v))
    ensures keys != [] ==> TryFrom([Text("MGET")] + keys, now) == Success(MGet(keys))
    ensures keys != [] ==> TryFrom([Text("DEL")] + keys, now) == Success(Del(keys))
    ensures TryFrom([Text("GETALL")], now) == Success(GetAll)
    ensures TryFrom([Text("TTL"), k], now) == Success(Ttl(k))
  {
    hide Text, Digits, ValidUtf8, ParseU64, TryFrom, Spread;
    NamesSpelled();
    AcceptedExactly([Text("GET"), k], now, Get(k));
    AcceptedExactly([Text("SET"), k, v], now, Set(k, v));
    AcceptedExactly([Text("MGET")] + keys, now, MGet(keys));
    AcceptedExactly([Text("DEL")] + keys, now, Del(keys));
    AcceptedExactly([Text("GETALL")], now, GetAll);
    AcceptedExactly([Text("TTL"), k], now, Ttl(k));
  }

  /** EXPIREAT sets the deadline it names, EXPIRE one so many seconds ahead; `sum` is where the
      addition ends, at 2^64 - 1 at the latest. */
  lemma DeadlinesSpelled(k: Bytes, n: u64, sum: u64, now: u64)
    requires sum == if now + n < 0x1_0000_0000_0000_0000 then now + n else 0xFFFF_FFFF_FFFF_FFFF
    ensures TryFrom([Text("EXPIREAT"), k, Digits(n)], now) == Success(ExpireAt(k, n))
    ensures TryFrom([Text("EXPIRE"), k, Digits(n)], now) == Success(ExpireAt(k, sum))
  {
    hide Text, Digits, ValidUtf8, ParseU64, TryFrom;
    NamesSpelled();
    NumberOnLine(n);
    U64RoundTrip(n);
    AcceptedExactly([Text("EXPIREAT"), k, Digits(n)], now, ExpireAt(k, n));
    AcceptedExactly([Text("EXPIRE"), k, Digits(n)], now, ExpireAt(k, sum));
  }

  /** A request for MSET gives its arguments in pairs. */
  lemma MSetSpelled(args: Args, now: u64) returns (entries: seq<(Bytes, Bytes)>)
    requires args != [] && |args| % 2 == 0
    ensures TryFrom([Text("MSET")] + args, now) == Success(MSet(entries)) && 2 * |entries| == |args|
    ensures forall i :: 0 <= i < |entries| ==> entries[i] == (args[2 * i], args[2 * i + 1])
  {
    hide Text, TryFrom, Spread, Entries;
    NamesSpelled();
    entries := Entries(args);
    SpreadOfEntries(args);
    SpreadInTurn(entries);
    AcceptedExactly([Text("MSET")] + args, now, MSet(entries));
  }

  /** Every refusal. `name` stands for a name that is no command's. */
  lemma RefusalsSpelled(name: Bytes, args: Args, now: u64)
    ensures TryFrom([], now) == Failure(TooFewArguments(0))
    ensures !ValidUtf8(name) ==> TryFrom([name] + args, now) == Failure(CommandError.InvalidUtf8)
    ensures |args| < 1 ==> TryFrom([Text("GET")] + args, now) == Failure(TooFewArguments(1))
    ensures |args| < 1 ==> TryFrom([Text("TTL")] + args, now) == Failure(TooFewArguments(1))
    ensures |args| < 1 ==> TryFrom([Text("MGET")] + args, now) == Failure(TooFewArguments(1))
    ensures |args| < 1 ==> TryFrom([Text("DEL")] + args, now) == Failure(TooFewArguments(1))
    ensures |args| < 2 ==> TryFrom([Text("SET")] + args, now) == Failure(TooFewArguments(|args| + 1))
    ensures |args| < 2 ==> TryFrom([Text("MSET")] + args, now) == Failure(TooFewArguments(|args| + 1))
    ensures |args| < 2 ==> TryFrom([Text("EXPIRE")] + args, now) == Failure(TooFewArguments(|args| + 1))
    ensures |args| < 2 ==> TryFrom([Text("EXPIREAT")] + args, now) == Failure(TooFewArguments(|args| + 1))
    ensures |args| > 0 ==> TryFrom([Text("GETALL")] + args, now) == Failure(TooManyArguments(|args| + 1))
    ensures |args| > 1 ==> TryFrom([Text("GET")] + args, now) == Failure(TooManyArguments(|args| + 1))
    ensures |args| > 1 ==> TryFrom([Text("TTL")] + args, now) == Failure(TooManyArguments(|args| + 1))
    ensures |args| > 2 ==> TryFrom([Text("SET")] + args, now) == Failure(TooManyArguments(|args| + 1))
    ensures |args| > 2 ==> TryFrom([Text("EXPIRE")] + args, now) == Failure(TooManyArguments(|args| + 1))
    ensures |args| > 2 ==> TryFrom([Text("EXPIREAT")] + args, now) == Failure(TooManyArguments(|args| + 1))
    ensures |args| > 2 && |args| % 2 == 1 ==>
              TryFrom([Text("MSET")] + args, now) == Failure(UnevenArgumentLength(|args|))
  {
    hide Text, ValidUtf8, ParseU64, TryFrom;
    NamesSpelled();
    RefusedExactly([], now);
    RefusedExactly([name] + args, now);
    forall known | ArityOf(known).Some?
      ensures var objection := Objection([known] + args);
              objection.Some? ==> TryFrom([known] + args, now) == Failure(objection.value)
      ensures ValidUtf8(known)
    {
      RefusedExactly([known] + args, now);
      NamesAreText(known);
    }
  }

  /** An expiration must be a number, and a name must be known. */
  lemma TextRefusalsSpelled(name: Utf8, k: Bytes, text: Bytes, args: Args, now: u64)
    ensures !ValidUtf8(text) ==>
              && TryFrom([Text("EXPIRE"), k, text], now) == Failure(CommandError.InvalidUtf8)
              && TryFrom([Text("EXPIREAT"), k, text], now) == Failure(CommandError.InvalidUtf8)
    ensures ValidUtf8(text) && ParseU64(text).None? ==>
              && TryFrom([Text("EXPIRE"), k, text], now) == Failure(InvalidExpiration(text))
              && TryFrom([Text("EXPIREAT"), k, text], now) == Failure(InvalidExpiration(text))
    ensures name !in {Text("GET"), Text("SET"), Text("MGET"), Text("MSET"), Text("DEL"), Text("GETALL"),
                      Text("EXPIRE"), Text("EXPIREAT"), Text("TTL")} ==>
              TryFrom([name] + args, now) == Failure(UnrecognizedCommand(name))
  {
    hide Text, ValidUtf8, ParseU64, TryFrom;
    NamesSpelled();
    NamesAreText(EXPIRE_NAME);
    NamesAreText(EXPIREAT_NAME);
    RefusedExactly([Text("EXPIRE"), k, text], now);
    RefusedExactly([Text("EXPIREAT"), k, text], now);
    RefusedExactly([name] + args, now);
  }

  // ---------------------------------------------------------------------------------------
  // Responses as bytes
  // ---------------------------------------------------------------------------------------

  /** Every response on the wire. */
  lemma ResponseSpelled(msg: Utf8, b: Bytes, n: i64, items: seq<Res.Response>)
    ensures Res.Print(Res.Ok) == Text("+OK\r\n")
    ensures Res.Print(Res.Error(msg)) == Text("-") + msg + Text("\r\n")
    ensures Res.Print(Res.Null) == Text("$-1\r\n")
    ensures Res.Print(Res.Cstr(b)) == Bulk(b)
    ensures Res.Print(Res.Integer(n)) ==
            if n < 0 then Text(":-") + Digits(0 - n) + Text("\r\n") else Text(":") + Digits(n) + Text("\r\n")
    ensures Res.Print(Res.Array(items)) == Text("*") + Digits(|items|) + Text("\r\n") + Res.PrintItems(items)
    ensures items != [] ==> Res.PrintItems(items) == Res.Print(items[0]) + Res.PrintItems(items[1..])
    ensures Res.PrintItems([]) == []
  {
    hide Text, Digits, Res.PrintItems;
    SignsSpelled();
    ItemsSpelled(items);
    var size: nat := if n < 0 then 0 - n else n;
    assert [Res.INTEGER_BYTE] + ([MINUS] + Digits(size)) == ([Res.INTEGER_BYTE] + [MINUS]) + Digits(size);
  }

  lemma SignsSpelled()
    ensures Text("*") == [ARRAY_BYTE] && Text("$") == [CSTRING_BYTE] && Text("-") == [MINUS]
    ensures Text(":") == [Res.INTEGER_BYTE] && Text(":-") == [Res.INTEGER_BYTE] + [MINUS]
    ensures Text("\r\n") == CRLF
    ensures Text("+OK\r\n") == [PLUS] + Res.OK_BODY + CRLF && Text("$-1\r\n") == [CSTRING_BYTE] + Res.NULL_BODY + CRLF
  {
  }

  lemma ItemsSpelled(items: seq<Res.Response>)
    ensures items != [] ==> Res.PrintItems(items) == Res.Print(items[0]) + Res.PrintItems(items[1..])
    ensures Res.PrintItems([]) == []
  {
    hide Res.Print;
  }
}
