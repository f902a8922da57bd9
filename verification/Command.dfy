/** Commands: how a request becomes one, and how one is written to the log. */
module Command {
  import opened Prelude
  import opened Wire
  import opened Framing
  import opened Request

  // GET, SET, MGET, MSET, DEL, GETALL, EXPIRE, EXPIREAT and TTL in ASCII
  const GET_NAME: Bytes := [71, 69, 84]
  const SET_NAME: Bytes := [83, 69, 84]
  const MGET_NAME: Bytes := [77, 71, 69, 84]
  const MSET_NAME: Bytes := [77, 83, 69, 84]
  const DEL_NAME: Bytes := [68, 69, 76]
  const GETALL_NAME: Bytes := [71, 69, 84, 65, 76, 76]
  const EXPIRE_NAME: Bytes := [69, 88, 80, 73, 82, 69]
  const EXPIREAT_NAME: Bytes := [69, 88, 80, 73, 82, 69, 65, 84]
  const TTL_NAME: Bytes := [84, 84, 76]

  datatype Command =
    | Get(key: Bytes)
    | Set(key: Bytes, value: Bytes)
    | MGet(keys: seq<Bytes>)
    | MSet(entries: seq<(Bytes, Bytes)>)
    | Del(keys: seq<Bytes>)
    | GetAll
    | ExpireAt(key: Bytes, deadline: u64)
    | Ttl(key: Bytes)

  datatype CommandError =
    | InvalidUtf8
    | UnrecognizedCommand(name: Utf8)
    | TooFewArguments(elements: nat)
    | TooManyArguments(elements: nat)
    | UnevenArgumentLength(arguments: nat)
    | InvalidExpiration(text: Utf8)

  type Parsing = Result<Command, CommandError>

  function Name(c: Command): Bytes {
    match c
    case Del(_) => DEL_NAME
    case Set(_, _) => SET_NAME
    case Get(_) => GET_NAME
    case MGet(_) => MGET_NAME
    case MSet(_) => MSET_NAME
    case GetAll => GETALL_NAME
    case ExpireAt(_, _) => EXPIREAT_NAME
    case Ttl(_) => TTL_NAME
  }

  predicate IsWriteOp(c: Command) {
    Name(c) == DEL_NAME || Name(c) == SET_NAME || Name(c) == MSET_NAME || Name(c) == EXPIREAT_NAME
  }

  /** The split by name is the split the two `apply` functions make by constructor. */
  lemma WriteOps(c: Command)
    ensures IsWriteOp(c) <==> c.Del? || c.Set? || c.MSet? || c.ExpireAt?
  {
    match c {
      case _ =>
    }
  }

  // ---------------------------------------------------------------------------------------
  // From requests
  // ---------------------------------------------------------------------------------------

  function SaturatingAdd(a: u64, b: u64): u64 {
    if a + b < WORD then a + b else WORD - 1
  }

  function Entries(args: Args): seq<(Bytes, Bytes)>
    requires |args| % 2 == 0
  {
    if args == [] then [] else [(args[0], args[1])] + Entries(args[2..])
  }

  /** A key and a number of seconds. */
  function ParseExpiration(args: Args, total: nat): Result<(Bytes, u64), CommandError> {
    if |args| < 2 then Failure(TooFewArguments(total))
    else if |args| > 2 then Failure(TooManyArguments(total))
    else if !ValidUtf8(args[1]) then Failure(CommandError.InvalidUtf8)
    else
      match ParseU64(args[1])
      case None => Failure(InvalidExpiration(args[1]))
      case Some(seconds) => Success((args[0], seconds))
  }

  function MSetOf(args: Args, total: nat): Parsing {
    if |args| < 2 then Failure(TooFewArguments(total))
    else if |args| % 2 != 0 then Failure(UnevenArgumentLength(|args|))
    else Success(MSet(Entries(args)))
  }

  function One(args: Args, total: nat, make: Bytes -> Command): Parsing {
    if |args| == 0 then Failure(TooFewArguments(total))
    else if |args| > 1 then Failure(TooManyArguments(total))
    else Success(make(args[0]))
  }

  function ParseArguments(name: Utf8, args: Args, now: u64): Parsing {
    var total := |args| + 1;
    if name == GET_NAME then One(args, total, key => Get(key))
    else if name == SET_NAME then
      if |args| < 2 then Failure(TooFewArguments(total))
      else if |args| > 2 then Failure(TooManyArguments(total))
      else Success(Set(args[0], args[1]))
    else if name == MGET_NAME then
      if |args| == 0 then Failure(TooFewArguments(total)) else Success(MGet(args))
    else if name == MSET_NAME then
      MSetOf(args, total)
    else if name == DEL_NAME then
      if |args| == 0 then Failure(TooFewArguments(total)) else Success(Del(args))
    else if name == GETALL_NAME then
      if |args| != 0 then Failure(TooManyArguments(total)) else Success(GetAll)
    else if name == EXPIRE_NAME then
      match ParseExpiration(args, total)
      case Failure(e) => Failure(e)
      case Success((key, seconds)) => Success(ExpireAt(key, SaturatingAdd(now, seconds)))
    else if name == EXPIREAT_NAME then
      match ParseExpiration(args, total)
      case Failure(e) => Failure(e)
      case Success((key, seconds)) => Success(ExpireAt(key, seconds))
    else if name == TTL_NAME then One(args, total, key => Ttl(key))
    else Failure(UnrecognizedCommand(name))
  }

  /** The command a request stands for, when the clock reads `now`. */
  function TryFrom(request: Args, now: u64): Parsing {
    if request == [] then Failure(TooFewArguments(0))
    else if !ValidUtf8(request[0]) then Failure(CommandError.InvalidUtf8)
    else ParseArguments(request[0], request[1..], now)
  }

  /** The loop that pairs the arguments of MSET. */
  method ParseMSet(args: Args, total: nat) returns (r: Parsing)
    ensures r == MSetOf(args, total)
  {
    if |args| < 2 {
      return Failure(TooFewArguments(total));
    }
    if |args| % 2 != 0 {
      return Failure(UnevenArgumentLength(|args|));
    }
    var entries, rest := [], args;
    while rest != []
      invariant |rest| % 2 == 0 && Entries(args) == entries + Entries(rest)
      decreases |rest|
    {
      entries := entries + [(rest[0], rest[1])];
      rest := rest[2..];
    }
    assert entries + [] == entries;
    return Success(MSet(entries));
  }

  // ---------------------------------------------------------------------------------------
  // To bytes
  // ---------------------------------------------------------------------------------------

  function Spread(entries: seq<(Bytes, Bytes)>): (r: Args)
    ensures |r| == 2 * |entries|
  {
    if entries == [] then []
    else
      var last := entries[|entries| - 1];
      Spread(entries[..|entries| - 1]) + [last.0, last.1]
  }

  function Arguments(c: Command): Args {
    match c
    case Get(key) => [key]
    case Set(key, value) => [key, value]
    case MGet(keys) => keys
    case MSet(entries) => Spread(entries)
    case Del(keys) => keys
    case GetAll => []
    case Ttl(key) => [key]
    case ExpireAt(key, deadline) => [key, Digits(deadline)]
  }

  /** The request a command is written as. */
  function Parts(c: Command): Args {
    [Name(c)] + Arguments(c)
  }

  function PrintCommand(c: Command): Bytes {
    PrintRequest(Parts(c))
  }

  method ToBytes(c: Command) returns (buf: Bytes)
    ensures buf == PrintCommand(c)
  {
    hide PrintRequest;
    var parts := [Name(c)];
    match c {
      case MSet(entries) =>
        for i := 0 to |entries|
          invariant parts == [Name(c)] + Spread(entries[..i])
        {
          assert entries[..i + 1][..i] == entries[..i];
          parts := parts + [entries[i].0];
          parts := parts + [entries[i].1];
        }
        assert entries[..|entries|] == entries;
      case _ =>
        parts := parts + Arguments(c);
    }
    buf := Request.ToBytes(parts);
  }

  // ---------------------------------------------------------------------------------------
  // Round trips
  // ---------------------------------------------------------------------------------------

  /** The commands that requests can give: lists are not empty and the limits are kept. */
  ghost predicate WellFormed(c: Command) {
    && (c.MGet? ==> c.keys != [])
    && (c.Del? ==> c.keys != [])
    && (c.MSet? ==> c.entries != [])
    && Sendable(Parts(c))
  }

  lemma {:induction false} EntriesOfSpread(entries: seq<(Bytes, Bytes)>)
    ensures Entries(Spread(entries)) == entries
  {
    if entries != [] {
      var front, last := entries[..|entries| - 1], entries[|entries| - 1];
      EntriesOfSpread(front);
      EntriesSnoc(Spread(front), last.0, last.1);
      assert front + [last] == entries;
    }
  }

  lemma {:induction false} EntriesSnoc(args: Args, key: Bytes, value: Bytes)
    requires |args| % 2 == 0
    ensures Entries(args + [key, value]) == Entries(args) + [(key, value)]
    decreases |args|
  {
    var all := args + [key, value];
    if args == [] {
      assert all[2..] == [];
    } else {
      assert all[2..] == args[2..] + [key, value];
      EntriesSnoc(args[2..], key, value);
      assert [(args[0], args[1])] + (Entries(args[2..]) + [(key, value)]) == Entries(args) + [(key, value)];
    }
  }

  lemma {:induction false} SpreadOfEntries(args: Args)
    requires |args| % 2 == 0
    ensures Spread(Entries(args)) == args
    decreases |args|
  {
    if args != [] {
      var front, key, value := args[..|args| - 2], args[|args| - 2], args[|args| - 1];
      SpreadOfEntries(front);
      assert args == front + [key, value];
      EntriesSnoc(front, key, value);
      var entries := Entries(args);
      assert entries[..|entries| - 1] == Entries(front);
    }
  }

  lemma NamesAreUtf8(c: Command)
    ensures ValidUtf8(Name(c))
  {
    hide ValidUtf8;
    assert forall i :: 0 <= i < |Name(c)| ==> Name(c)[i] < 0x80;
    AsciiIsUtf8(Name(c));
  }

  /** A command's own request is taken for that command, at any time, unless one of its lists
      is empty. */
  lemma PartsRoundTrip(c: Command, now: u64)
    ensures TryFrom(Parts(c), now) == Success(c) <==>
            !(c.MGet? && c.keys == []) && !(c.Del? && c.keys == []) && !(c.MSet? && c.entries == [])
  {
    hide ValidUtf8, Digits, ParseU64;
    NamesAreUtf8(c);
    assert Parts(c)[1..] == Arguments(c);
    match c {
      case MSet(entries) => EntriesOfSpread(entries);
      case ExpireAt(key, deadline) =>
        U64RoundTrip(deadline);
        NumberOnLine(deadline);
      case _ =>
    }
  }

  /** A command is read back from its bytes, whatever follows and whatever the time, exactly when
      it is well formed. */
  lemma CommandRoundTrip(c: Command, now: u64, more: Bytes)
    ensures WellFormed(c) <==>
            && ParseRequest(PrintCommand(c) + more) == Complete(Parts(c), |PrintCommand(c)|)
            && TryFrom(Parts(c), now) == Success(c)
  {
    hide ParseRequest, PrintRequest, TryFrom, Parts, Sendable;
    RequestRoundTrip(Parts(c), more);
    PartsRoundTrip(c, now);
  }

  lemma {:induction false} DigitsLength(n: nat, k: nat)
    requires 0 < k && n < Pow10(k)
    ensures |Digits(n)| <= k
  {
    if n >= 10 {
      DigitsLength(n / 10, k - 1);
    }
  }

  function Pow10(k: nat): nat {
    if k == 0 then 1 else 10 * Pow10(k - 1)
  }

  lemma {:induction false} Pow10Sum(a: nat, b: nat)
    ensures Pow10(a + b) == Pow10(a) * Pow10(b)
  {
    if a > 0 {
      Pow10Sum(a - 1, b);
    }
  }

  lemma WordHasTwentyDigits(n: u64)
    ensures |Digits(n)| <= 20
  {
    assert Pow10(5) == 100_000;
    Pow10Sum(5, 5);
    Pow10Sum(10, 10);
    DigitsLength(n, 20);
  }

  /** What a decoded request is accepted as is well formed: it can be logged and read back, as
      the same command, at any other time. EXPIRE is logged with its deadline. */
  lemma WireClosure(b: Bytes, now: u64, c: Command)
    requires ParseRequest(b).Complete? && TryFrom(ParseRequest(b).value, now) == Success(c)
    ensures WellFormed(c)
  {
    hide ParseRequest, TryFrom, WellFormed;
    ParsedIsSendable(b);
    AcceptedIsWellFormed(ParseRequest(b).value, now, c);
  }

  lemma AcceptedIsWellFormed(args: Args, now: u64, c: Command)
    requires Sendable(args) && TryFrom(args, now) == Success(c)
    ensures WellFormed(c)
  {
    hide ValidUtf8, ParseU64, Digits, Entries, Spread;
    var rest := args[1..];
    assert forall i :: 0 <= i < |rest| ==> rest[i] == args[i + 1];
    match c {
      case MSet(entries) => SpreadOfEntries(rest);
      case ExpireAt(key, deadline) => WordHasTwentyDigits(deadline);
      case _ =>
    }
  }

  // ---------------------------------------------------------------------------------------
  // Acceptance
  // ---------------------------------------------------------------------------------------

  /** The words of a command: how many elements a request for it has, its name included. */
  datatype Arity = Arity(least: nat, most: Option<nat>)

  function ArityOf(name: Bytes): Option<Arity> {
    if name in {GET_NAME, TTL_NAME} then Some(Arity(2, Some(2)))
    else if name in {SET_NAME, EXPIRE_NAME, EXPIREAT_NAME} then Some(Arity(3, Some(3)))
    else if name in {MGET_NAME, DEL_NAME} then Some(Arity(2, None))
    else if name == MSET_NAME then Some(Arity(3, None))
    else if name == GETALL_NAME then Some(Arity(1, Some(1)))
    else None
  }

  /** Why a request is refused, judged by the table of arities. */
  function Objection(request: Args): Option<CommandError> {
    var n := |request|;
    if n == 0 then Some(TooFewArguments(0))
    else if !ValidUtf8(request[0]) then Some(CommandError.InvalidUtf8)
    else
      match ArityOf(request[0])
      case None => Some(UnrecognizedCommand(request[0]))
      case Some(arity) =>
        if n < arity.least then Some(TooFewArguments(n))
        else if arity.most.Some? && n > arity.most.value then Some(TooManyArguments(n))
        else if request[0] == MSET_NAME && n % 2 == 0 then Some(UnevenArgumentLength(n - 1))
        else if request[0] !in {EXPIRE_NAME, EXPIREAT_NAME} then None
        else if !ValidUtf8(request[2]) then Some(CommandError.InvalidUtf8)
        else if ParseU64(request[2]).None? then Some(InvalidExpiration(request[2]))
        else None
  }

  /** A request is refused exactly when the table objects, and with that objection. The time
      plays no part in it. */
  lemma RefusedExactly(request: Args, now: u64)
    ensures match Objection(request)
            case Some(e) => TryFrom(request, now) == Failure(e)
            case None => TryFrom(request, now).Success?
  {
    hide ValidUtf8, ParseU64, Entries;
    if request != [] {
      assert |request[1..]| == |request| - 1;
    }
  }

  /** `text` is a number that sets the deadline `deadline` under one of the two names. */
  predicate SetsDeadline(name: Bytes, text: Bytes, now: u64, deadline: u64) {
    && ValidUtf8(text) && ParseU64(text).Some?
    && var n := ParseU64(text).value;
    || (name == EXPIREAT_NAME && deadline == n)
    || (name == EXPIRE_NAME && deadline == if now + n < WORD then now + n else WORD - 1)
  }

  /** A request stands for a command exactly when it is the request that the command is written
      as; for a deadline, the number may be spelled or reckoned otherwise. */
  lemma AcceptedExactly(request: Args, now: u64, c: Command)
    ensures TryFrom(request, now) == Success(c) <==>
            match c
            case ExpireAt(key, deadline) =>
              |request| == 3 && request[1] == key && SetsDeadline(request[0], request[2], now, deadline)
            case MGet(keys) => keys != [] && request == Parts(c)
            case Del(keys) => keys != [] && request == Parts(c)
            case MSet(entries) => entries != [] && request == Parts(c)
            case _ => request == Parts(c)
  {
    hide ValidUtf8, ParseU64, Digits, Entries, Spread;
    PartsRoundTrip(c, now);
    ExpiryNamesAreUtf8();
    if request != [] {
      var rest := request[1..];
      assert request == [request[0]] + rest;
      if |rest| % 2 == 0 {
        SpreadOfEntries(rest);
        assert |rest| >= 2 ==> Spread(Entries(rest)) != [];
        if Entries(rest) == [] { NoEntries(rest); }
      }
    }
  }

  lemma NoEntries(args: Args)
    requires |args| % 2 == 0 && Entries(args) == []
    ensures args == []
  {
  }

  lemma ExpiryNamesAreUtf8()
    ensures ValidUtf8(EXPIRE_NAME) && ValidUtf8(EXPIREAT_NAME)
  {
    hide ValidUtf8;
    AsciiIsUtf8(EXPIRE_NAME);
    AsciiIsUtf8(EXPIREAT_NAME);
  }
}
