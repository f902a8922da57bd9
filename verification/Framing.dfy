/** Cutting a byte stream into messages with a parser that may ask for more bytes. */
module Framing {
  import opened Prelude

  /** Outcome of parsing a message at the start of a buffer. */
  datatype Step<+T, +E> = Waiting | Broken(error: E) | Complete(value: T, used: nat)

  /** How a stream ends: between messages, inside one, or at a malformed one. */
  datatype End<+E> = Clean | Truncated | Failed(error: E)

  /** A decoder's answer to a parsing outcome. */
  function Answer<T, E>(step: Step<T, E>): Result<Option<T>, E> {
    match step
    case Waiting => Success(None)
    case Broken(e) => Failure(e)
    case Complete(v, _) => Success(Some(v))
  }

  /** A completed message lies inside the buffer. */
  ghost predicate Bounded<T(!new), E(!new)>(parse: Bytes -> Step<T, E>) {
    forall b :: parse(b).Complete? ==> 0 < parse(b).used <= |b|
  }

  /** A verdict of the parser is final: it does not change when more bytes arrive. */
  ghost predicate Local<T(!new), E(!new)>(parse: Bytes -> Step<T, E>) {
    && Bounded(parse)
    && (forall b, more :: parse(b) != Waiting ==> Extended(parse, b, more))
    && parse([]) == Waiting
  }

  ghost predicate Extended<T, E>(parse: Bytes -> Step<T, E>, b: Bytes, more: Bytes) {
    parse(b + more) == parse(b)
  }

  /** The messages of a whole stream, and how it ends. */
  ghost function Frames<T(!new), E(!new)>(parse: Bytes -> Step<T, E>, b: Bytes): (r: (seq<T>, End<E>))
    requires Local(parse)
    decreases |b|
  {
    match parse(b)
    case Waiting => ([], if b == [] then Clean else Truncated)
    case Broken(e) => ([], Failed(e))
    case Complete(v, used) =>
      var (rest, end) := Frames(parse, b[used..]);
      ([v] + rest, end)
  }

  /** The messages of a stream of which `seen` came first and `b` is left. */
  ghost function FramesAfter<T(!new), E(!new)>(parse: Bytes -> Step<T, E>, seen: seq<T>, b: Bytes): (seq<T>, End<E>)
    requires Local(parse)
  {
    (seen + Frames(parse, b).0, Frames(parse, b).1)
  }

  lemma FramesAfterNone<T(!new), E(!new)>(parse: Bytes -> Step<T, E>, b: Bytes)
    requires Local(parse)
    ensures FramesAfter(parse, [], b) == Frames(parse, b)
  {
    assert [] + Frames(parse, b).0 == Frames(parse, b).0;
  }

  /** What one more call of the parser makes of the rest of a stream. */
  lemma FramesAfterOne<T(!new), E(!new)>(parse: Bytes -> Step<T, E>, seen: seq<T>, b: Bytes)
    requires Local(parse)
    ensures FramesAfter(parse, seen, b) ==
            match parse(b)
            case Waiting => (seen, if b == [] then Clean else Truncated)
            case Broken(e) => (seen, Failed(e))
            case Complete(v, used) => FramesAfter(parse, seen + [v], b[used..])
  {
    match parse(b) {
      case Complete(v, used) =>
        assert seen + ([v] + Frames(parse, b[used..]).0) == (seen + [v]) + Frames(parse, b[used..]).0;
      case _ =>
        assert seen + [] == seen;
    }
  }

  /** Bytes that end between messages do not change the messages that follow them. */
  lemma {:induction false} FramesAppend<T(!new), E(!new)>(parse: Bytes -> Step<T, E>, b: Bytes, more: Bytes)
    requires Local(parse) && Frames(parse, b).1 == Clean
    ensures Frames(parse, b + more) == FramesAfter(parse, Frames(parse, b).0, more)
    decreases |b|
  {
    if b == [] {
      assert b + more == more;
      FramesAfterNone(parse, more);
    } else {
      var v, used := parse(b).value, parse(b).used;
      assert Extended(parse, b, more);
      DropAppend(b, more, used);
      FramesAppend(parse, b[used..], more);
      Prepend([v], Frames(parse, b[used..]).0, Frames(parse, more).0);
    }
  }

  /** A property of every message that can be parsed is a property of all messages of a stream. */
  lemma {:induction false} FramesAll<T(!new), E(!new)>(parse: Bytes -> Step<T, E>, b: Bytes, good: T -> bool)
    requires Local(parse)
    requires forall b' :: parse(b').Complete? ==> good(parse(b').value)
    ensures forall i :: 0 <= i < |Frames(parse, b).0| ==> good(Frames(parse, b).0[i])
    decreases |b|
  {
    if parse(b).Complete? {
      FramesAll(parse, b[parse(b).used..], good);
    }
  }

  lemma Prepend<T>(a: seq<T>, b: seq<T>, c: seq<T>)
    ensures a + (b + c) == (a + b) + c
  {
  }

  function Flatten(chunks: seq<Bytes>): Bytes {
    if chunks == [] then [] else chunks[0] + Flatten(chunks[1..])
  }

  /** `printed` is read back as `v`, whatever follows it. */
  ghost predicate Prints<T(!new), E(!new)>(parse: Bytes -> Step<T, E>, printed: Bytes, v: T) {
    forall more :: Reads(parse, printed, v, more)
  }

  ghost predicate Reads<T, E>(parse: Bytes -> Step<T, E>, printed: Bytes, v: T, more: Bytes) {
    parse(printed + more) == Complete(v, |printed|)
  }

  /** Printed messages put one after another are told apart again. */
  lemma {:induction false} FramesOfPrinted<T(!new), E(!new)>(
    parse: Bytes -> Step<T, E>, printed: seq<Bytes>, values: seq<T>)
    requires Local(parse) && |printed| == |values|
    requires forall i :: 0 <= i < |printed| ==> Prints(parse, printed[i], values[i])
    ensures Frames(parse, Flatten(printed)) == (values, Clean)
  {
    if printed != [] {
      var rest := Flatten(printed[1..]);
      assert Reads(parse, printed[0], values[0], rest);
      assert (printed[0] + rest)[|printed[0]|..] == rest;
      FramesOfPrinted(parse, printed[1..], values[1..]);
      assert values == [values[0]] + values[1..];
    }
  }

  /** No strict prefix of a printed message is complete or malformed. */
  lemma PrefixWaits<T(!new), E(!new)>(parse: Bytes -> Step<T, E>, printed: Bytes, v: T, n: nat)
    requires Local(parse) && Prints(parse, printed, v) && n < |printed|
    ensures parse(printed[..n]) == Waiting
  {
    assert Reads(parse, printed, v, []);
    assert printed + [] == printed == printed[..n] + printed[n..];
    assert parse(printed[..n]) != Waiting ==> Extended(parse, printed[..n], printed[n..]);
  }

  // ---------------------------------------------------------------------------------------
  // A known number of items
  // ---------------------------------------------------------------------------------------

  /** `count` items one after the other. */
  ghost function Many<T(!new), E(!new)>(parse: Bytes -> Step<T, E>, b: Bytes, count: nat): (r: Step<seq<T>, E>)
    requires Bounded(parse)
    ensures r.Complete? ==> r.used <= |b| && |r.value| == count
    decreases count
  {
    if count == 0 then Complete([], 0)
    else
      match parse(b)
      case Waiting => Waiting
      case Broken(e) => Broken(e)
      case Complete(v, used) => After([v], used, Many(parse, b[used..], count - 1))
  }

  /** The outcome for a buffer whose first `used` bytes gave `items`. */
  function After<T, E>(items: seq<T>, used: nat, rest: Step<seq<T>, E>): Step<seq<T>, E> {
    match rest
    case Waiting => Waiting
    case Broken(e) => Broken(e)
    case Complete(more, n) => Complete(items + more, used + n)
  }

  lemma DropAppend(b: Bytes, more: Bytes, n: nat)
    requires n <= |b|
    ensures (b + more)[n..] == b[n..] + more
  {
  }

  lemma {:induction false} ManyLocal<T(!new), E(!new)>(parse: Bytes -> Step<T, E>, b: Bytes, count: nat, more: Bytes)
    requires Local(parse) && Many(parse, b, count) != Waiting
    ensures Many(parse, b + more, count) == Many(parse, b, count)
    decreases count
  {
    hide After;
    if count > 0 {
      assert Extended(parse, b, more);
      if parse(b).Complete? {
        var used := parse(b).used;
        AfterWaits([parse(b).value], used, Many(parse, b[used..], count - 1));
        DropAppend(b, more, used);
        ManyLocal(parse, b[used..], count - 1, more);
      }
    }
  }

  lemma AfterAfter<T, E>(first: seq<T>, i: nat, second: seq<T>, j: nat, rest: Step<seq<T>, E>)
    ensures After(first, i, After(second, j, rest)) == After(first + second, i + j, rest)
  {
    if rest.Complete? {
      assert first + (second + rest.value) == (first + second) + rest.value;
    }
  }

  lemma AfterNothing<T, E>(rest: Step<seq<T>, E>)
    ensures After([], 0, rest) == rest
  {
    if rest.Complete? {
      assert [] + rest.value == rest.value;
    }
  }

  /** Parsing may stop after any number of items and go on from there. */
  lemma {:induction false} ManyResume<T(!new), E(!new)>(parse: Bytes -> Step<T, E>, b: Bytes, done: nat, count: nat)
    requires Bounded(parse) && done <= count && Many(parse, b, done).Complete?
    ensures var p := Many(parse, b, done);
            Many(parse, b, count) == After(p.value, p.used, Many(parse, b[p.used..], count - done))
    decreases done
  {
    hide After;
    var p := Many(parse, b, done);
    if done == 0 {
      assert b[0..] == b;
      AfterNothing(Many(parse, b, count));
    } else {
      var v, used := parse(b).value, parse(b).used;
      var q := Many(parse, b[used..], done - 1);
      AfterComplete([v], used, q);
      ManyResume(parse, b[used..], done - 1, count - 1);
      DropDrop(b, used, q.used);
      AfterAfter([v], used, q.value, q.used, Many(parse, b[p.used..], count - done));
    }
  }

  lemma DropDrop(b: Bytes, m: nat, n: nat)
    requires m + n <= |b|
    ensures b[m..][n..] == b[m + n..]
  {
  }

  lemma AfterWaits<T, E>(items: seq<T>, used: nat, rest: Step<seq<T>, E>)
    ensures After(items, used, rest) == Waiting <==> rest == Waiting
  {
  }

  lemma AfterComplete<T, E>(items: seq<T>, used: nat, rest: Step<seq<T>, E>)
    ensures After(items, used, rest).Complete? <==> rest.Complete?
    ensures rest.Complete? ==> After(items, used, rest) == Complete(items + rest.value, used + rest.used)
  {
  }

  lemma ManySnoc<T(!new), E(!new)>(parse: Bytes -> Step<T, E>, b: Bytes, items: seq<T>, at: nat, v: T, used: nat)
    requires Bounded(parse)
    requires Many(parse, b, |items|) == Complete(items, at) && parse(b[at..]) == Complete(v, used)
    ensures Many(parse, b, |items| + 1) == Complete(items + [v], at + used)
  {
    ManyResume(parse, b, |items|, |items| + 1);
    ManyOne(parse, b[at..]);
  }

  lemma ManyOne<T(!new), E(!new)>(parse: Bytes -> Step<T, E>, b: Bytes)
    requires Bounded(parse) && parse(b).Complete?
    ensures Many(parse, b, 1) == Complete([parse(b).value], parse(b).used)
  {
    var v, used := parse(b).value, parse(b).used;
    assert Many(parse, b[used..], 0) == Complete([], 0);
    assert [v] + [] == [v];
  }

  /** Every error comes from an item. */
  lemma {:induction false} ManyErrors<T(!new), E(!new)>(
    parse: Bytes -> Step<T, E>, b: Bytes, count: nat, possible: E -> bool)
    requires Bounded(parse) && Many(parse, b, count).Broken?
    requires forall b' :: parse(b').Broken? ==> possible(parse(b').error)
    ensures possible(Many(parse, b, count).error)
    decreases count
  {
    if parse(b).Complete? {
      ManyErrors(parse, b[parse(b).used..], count - 1, possible);
    }
  }

  /** Printed items are read back in order. */
  lemma {:induction false} ManyPrinted<T(!new), E(!new)>(
    parse: Bytes -> Step<T, E>, printed: seq<Bytes>, values: seq<T>, more: Bytes)
    requires Bounded(parse) && |printed| == |values|
    requires forall i :: 0 <= i < |printed| ==> Prints(parse, printed[i], values[i])
    ensures Many(parse, Flatten(printed) + more, |values|) == Complete(values, |Flatten(printed)|)
  {
    if printed != [] {
      var rest := Flatten(printed[1..]) + more;
      assert Flatten(printed) + more == printed[0] + rest;
      assert Reads(parse, printed[0], values[0], rest);
      DropPrefix(printed[0], rest);
      ManyPrinted(parse, printed[1..], values[1..], more);
      assert values == [values[0]] + values[1..];
    }
  }

  lemma DropPrefix(first: Bytes, rest: Bytes)
    ensures (first + rest)[|first|..] == rest
  {
  }

  /** A property of every parsed item is a property of all of them. */
  lemma {:induction false} ManyAll<T(!new), E(!new)>(
    parse: Bytes -> Step<T, E>, b: Bytes, count: nat, good: T -> bool)
    requires Bounded(parse) && Many(parse, b, count).Complete?
    requires forall b' :: parse(b').Complete? ==> good(parse(b').value)
    ensures forall i :: 0 <= i < count ==> good(Many(parse, b, count).value[i])
    decreases count
  {
    if count > 0 {
      ManyAll(parse, b[parse(b).used..], count - 1, good);
    }
  }

  lemma {:induction false} FlattenSnoc(chunks: seq<Bytes>, last: Bytes)
    ensures Flatten(chunks + [last]) == Flatten(chunks) + last
  {
    if chunks == [] {
      assert [last] + [] == [last];
    } else {
      assert (chunks + [last])[1..] == chunks[1..] + [last];
      FlattenSnoc(chunks[1..], last);
    }
  }
}
