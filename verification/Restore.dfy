/** Replaying the log, and whole runs of the server as a state machine with a clock: what a
    restart keeps, what it may lose, and why cleanup cannot be observed. */
module Restore {
  import opened Prelude
  import opened Wire
  import Res = Response
  import opened Command
  import opened Store

  type Log = seq<Command>

  /** The store rebuilt from a log at one reading of the clock. */
  function Replay(log: Log, t: u64): Store {
    if log == [] then map[] else Effect(log[|log| - 1], Replay(log[..|log| - 1], t), t)
  }

  // ---------------------------------------------------------------------------------------
  // The meaning of a replay
  // ---------------------------------------------------------------------------------------

  /** Entry `i` is the last write of `k`, and `k` is not deleted after it. */
  ghost predicate LastWrite(log: Log, k: Bytes, i: nat) {
    && i < |log| && Writes(log[i], k)
    && forall j :: i < j < |log| ==> !Writes(log[j], k) && !Deletes(log[j], k)
  }

  /** No deadline set on `k` after entry `i` is over at time `t`. */
  ghost predicate NoneOver(log: Log, k: Bytes, i: nat, t: u64) {
    forall j :: i < j < |log| && Expires(log[j], k) ==> t < log[j].deadline
  }

  /** The last deadline set on `k`, if any. */
  function LastDeadline(log: Log, k: Bytes): Option<u64> {
    if log == [] then None
    else if Expires(log[|log| - 1], k) then Some(log[|log| - 1].deadline)
    else LastDeadline(log[..|log| - 1], k)
  }

  /** The value and deadline that the log names for `k`, were deadlines never over. */
  function Nominal(log: Log, k: Bytes): Option<StoredValue> {
    if log == [] then None else Evolve(log[|log| - 1], k, Nominal(log[..|log| - 1], k))
  }

  lemma {:induction false} NominalMeaning(log: Log, k: Bytes, i: nat)
    requires LastWrite(log, k, i)
    ensures Nominal(log, k) == Some(StoredValue(Written(log[i], k), LastDeadline(log[i + 1..], k)))
    decreases |log|
  {
    var front, last := log[..|log| - 1], log[|log| - 1];
    if i == |log| - 1 {
      assert log[i + 1..] == [];
    } else {
      assert LastWrite(front, k, i);
      NominalMeaning(front, k, i);
      assert log[i + 1..][..|log[i + 1..]| - 1] == front[i + 1..];
    }
  }

  lemma {:induction false} NominalHasWrite(log: Log, k: Bytes) returns (i: nat)
    requires Nominal(log, k).Some?
    ensures LastWrite(log, k, i)
  {
    var front, last := log[..|log| - 1], log[|log| - 1];
    if Writes(last, k) {
      i := |log| - 1;
    } else {
      i := NominalHasWrite(front, k);
      assert forall j :: i < j < |front| ==> log[j] == front[j];
    }
  }

  /** A replay shows a key exactly as the log names it, unless some deadline set since the last
      write is over. */
  lemma {:induction false} ReplayView(log: Log, k: Bytes, t: u64)
    ensures View(Replay(log, t), k, t).Some? ==> View(Replay(log, t), k, t) == Nominal(log, k)
    ensures View(Replay(log, t), k, t).Some? <==> exists i: nat :: LastWrite(log, k, i) && NoneOver(log, k, i, t)
  {
    if log != [] {
      var front, last := log[..|log| - 1], log[|log| - 1];
      ReplayView(front, k, t);
      StepView(last, Replay(front, t), k, t, t);
      if exists i: nat :: LastWrite(log, k, i) && NoneOver(log, k, i, t) {
        var i: nat :| LastWrite(log, k, i) && NoneOver(log, k, i, t);
        if i < |front| {
          SurvivesBefore(log, k, i, t);
        }
      }
      if View(Replay(log, t), k, t).Some? {
        if Writes(last, k) {
          assert LastWrite(log, k, |front|) && NoneOver(log, k, |front|, t);
        } else {
          var i: nat :| LastWrite(front, k, i) && NoneOver(front, k, i, t);
          assert forall j :: 0 <= j < |front| ==> log[j] == front[j];
          assert LastWrite(log, k, i) && NoneOver(log, k, i, t);
        }
      }
    }
  }

  lemma SurvivesBefore(log: Log, k: Bytes, i: nat, t: u64)
    requires log != [] && i < |log| - 1 && LastWrite(log, k, i) && NoneOver(log, k, i, t)
    ensures LastWrite(log[..|log| - 1], k, i) && NoneOver(log[..|log| - 1], k, i, t)
  {
  }

  /** Replaying a log at time `t` leaves a key live exactly when its last write is not followed
      by a deletion and every deadline set since is still ahead. The bytes are those of that
      write, the deadline is the last one set. */
  lemma RestoreMeaning(log: Log, k: Bytes, t: u64)
    ensures IsLive(Replay(log, t), k, t) <==> exists i: nat :: LastWrite(log, k, i) && NoneOver(log, k, i, t)
    ensures forall i: nat :: LastWrite(log, k, i) && NoneOver(log, k, i, t) ==>
                               Replay(log, t)[k] == StoredValue(Written(log[i], k), LastDeadline(log[i + 1..], k))
  {
    ReplayView(log, k, t);
    forall i: nat | LastWrite(log, k, i) && NoneOver(log, k, i, t)
      ensures k in Replay(log, t)
      ensures Replay(log, t)[k] == StoredValue(Written(log[i], k), LastDeadline(log[i + 1..], k))
    {
      NominalMeaning(log, k, i);
    }
  }

  // ---------------------------------------------------------------------------------------
  // Runs
  // ---------------------------------------------------------------------------------------

  /** The atomic steps of the server: a client's command, the periodic cleanup, a restart. `disk`
      is the error that the disk reports if a write cannot be appended to the log. */
  datatype Step = Request(command: Command, disk: Option<Utf8>) | Cleanup | Restart

  datatype Event = Event(step: Step, time: u64)

  /** The commands logged so far and the store in memory. */
  datatype State = State(log: Log, store: Store)

  const INITIAL := State([], map[])

  /** A write whose append fails changes nothing. */
  predicate Rejected(c: Command, disk: Option<Utf8>) {
    IsWriteOp(c) && disk.Some?
  }

  function NextState(s: State, e: Event): State {
    match e.step
    case Request(c, disk) =>
      if IsWriteOp(c) && disk.None? then State(s.log + [c], Effect(c, s.store, e.time)) else s
    case Cleanup => s.(store := Live(s.store, e.time))
    case Restart => s.(store := Replay(s.log, e.time))
  }

  function Run(events: seq<Event>): State {
    if events == [] then INITIAL else NextState(Run(events[..|events| - 1]), events[|events| - 1])
  }

  /** What a client is told about a command: its reply, or the disk's error. */
  function Told(c: Command, disk: Option<Utf8>, m: Store, now: u64): Reply {
    if Rejected(c, disk) then Exactly(Res.Error(disk.value)) else ReplyTo(c, m, now)
  }

  /** The replies to the requests of a run, in order. */
  function Replies(events: seq<Event>): seq<Reply> {
    if events == [] then []
    else
      var front, last := events[..|events| - 1], events[|events| - 1];
      match last.step
      case Request(c, disk) => Replies(front) + [Told(c, disk, Run(front).store, last.time)]
      case _ => Replies(front)
  }

  /** The clock never goes back, and reads at most `now` at the end. */
  ghost predicate Timed(events: seq<Event>, now: u64) {
    && (forall i, j :: 0 <= i < j < |events| ==> events[i].time <= events[j].time)
    && (events != [] ==> events[|events| - 1].time <= now)
  }

  lemma TimedFront(events: seq<Event>, now: u64)
    requires Timed(events, now) && events != []
    ensures Timed(events[..|events| - 1], events[|events| - 1].time) && events[|events| - 1].time <= now
  {
  }

  lemma ReplaySnoc(log: Log, c: Command, t: u64)
    ensures Replay(log + [c], t) == Effect(c, Replay(log, t), t)
  {
    assert (log + [c])[..|log|] == log;
  }

  lemma NominalSnoc(log: Log, c: Command, k: Bytes)
    ensures Nominal(log + [c], k) == Evolve(c, k, Nominal(log, k))
  {
    assert (log + [c])[..|log|] == log;
  }

  /** A later replay shows no more than an earlier one. */
  lemma {:induction false} ReplayLater(log: Log, k: Bytes, s: u64, t: u64)
    requires s <= t
    ensures View(Replay(log, t), k, t).Some? ==> View(Replay(log, t), k, t) == View(Replay(log, s), k, t)
  {
    if log != [] {
      var front, last := log[..|log| - 1], log[|log| - 1];
      ReplayLater(front, k, s, t);
      StepView(last, Replay(front, t), k, t, t);
      StepView(last, Replay(front, s), k, s, t);
      ViewLater(Replay(front, s), k, s, t);
    }
  }

  /** What a replay of the log at time `t` shows under `k` is what the store shows. */
  ghost predicate ReplayAgrees(s: State, k: Bytes, t: u64) {
    var replayed := View(Replay(s.log, t), k, t);
    replayed.Some? ==> replayed == View(s.store, k, t)
  }

  /** Every step of the server keeps the agreement, for all times to come. */
  lemma StepKeepsAgreement(s: State, e: Event, k: Bytes, t: u64)
    requires ReplayAgrees(s, k, t) && e.time <= t
    ensures ReplayAgrees(NextState(s, e), k, t)
  {
    hide Effect, Replay;
    match e.step {
      case Request(c, _) =>
        ReplaySnoc(s.log, c, t);
        StepView(c, Replay(s.log, t), k, t, t);
        StepView(c, s.store, k, e.time, t);
        ViewLater(s.store, k, e.time, t);
      case Cleanup =>
      case Restart =>
        ReplayLater(s.log, k, e.time, t);
    }
  }

  /** Restoring is sound over whole runs, with any number of cleanups and restarts in between:
      a key that is live after a replay was live in the lost store, with the same value and
      deadline. Nothing deleted, expired or overwritten comes back. */
  lemma {:induction false} RestoreSound(events: seq<Event>, k: Bytes, t: u64)
    requires Timed(events, t)
    ensures var s := Run(events);
            View(Replay(s.log, t), k, t).Some? ==> View(Replay(s.log, t), k, t) == View(s.store, k, t)
    decreases |events|
  {
    hide Effect;
    if events != [] {
      var front, last := events[..|events| - 1], events[|events| - 1];
      TimedFront(events, t);
      RestoreSound(front, k, t);
      StepKeepsAgreement(Run(front), last, k, t);
    }
  }

  /** What the store shows is what the log names. */
  lemma {:induction false} StoreIsNominal(events: seq<Event>, k: Bytes, t: u64)
    requires Timed(events, t)
    ensures var s := Run(events);
            View(s.store, k, t).Some? ==> View(s.store, k, t) == Nominal(s.log, k)
    decreases |events|
  {
    if events != [] {
      var front, last := events[..|events| - 1], events[|events| - 1];
      var s, now := Run(front), last.time;
      TimedFront(events, t);
      StoreIsNominal(front, k, now);
      match last.step {
        case Request(c, _) =>
          NominalSnoc(s.log, c, k);
          StepView(c, s.store, k, now, t);
        case Cleanup =>
        case Restart =>
          ReplayView(s.log, k, now);
          ViewLater(Replay(s.log, now), k, now, t);
      }
    }
  }

  /** A restart at time `t` loses a live key exactly when some deadline set on it since its last
      write, and overwritten by a later one, is over by then. */
  lemma RestoreExact(events: seq<Event>, t: u64)
    requires Timed(events, t)
    ensures var s := Run(events);
            Live(Replay(s.log, t), t) == Live(s.store, t) <==>
            forall k, i: nat :: IsLive(s.store, k, t) && LastWrite(s.log, k, i) ==> NoneOver(s.log, k, i, t)
  {
    var s := Run(events);
    LiveByView(Replay(s.log, t), s.store, t);
    forall k
      ensures View(Replay(s.log, t), k, t) == View(s.store, k, t) <==>
              forall i: nat :: IsLive(s.store, k, t) && LastWrite(s.log, k, i) ==> NoneOver(s.log, k, i, t)
    {
      RestoreSound(events, k, t);
      StoreIsNominal(events, k, t);
      ReplayView(s.log, k, t);
      if IsLive(s.store, k, t) {
        var i := NominalHasWrite(s.log, k);
        forall j: nat | LastWrite(s.log, k, j)
          ensures j == i
        {
        }
      }
    }
  }

  /** Three commands, one time unit apart. */
  function ThreeRequests(c0: Command, c1: Command, c2: Command): seq<Event> {
    [Event(Request(c0, None), 0), Event(Request(c1, None), 1), Event(Request(c2, None), 2)]
  }

  lemma RunOfTwo(c0: Command, c1: Command, c2: Command)
    requires IsWriteOp(c0) && IsWriteOp(c1)
    ensures var events := ThreeRequests(c0, c1, c2);
            var m := Effect(c0, map[], 0);
            && Timed(events, 2)
            && Run(events[..2]) == State([c0, c1], Effect(c1, m, 1))
            && Run(events) == NextState(Run(events[..2]), events[2])
            && Replies(events) == [ReplyTo(c0, map[], 0), ReplyTo(c1, m, 1), Told(c2, None, Effect(c1, m, 1), 2)]
  {
    hide Effect, IsWriteOp, ReplyTo;
    var e0, e1, e2 := Event(Request(c0, None), 0), Event(Request(c1, None), 1), Event(Request(c2, None), 2);
    assert [] + [e0] == [e0] && [e0] + [e1] == [e0, e1] && [e0, e1] + [e2] == [e0, e1, e2];
    RunSnoc([], e0);
    RunSnoc([e0], e1);
    RunSnoc([e0, e1], e2);
    RepliesSnoc([], e0);
    RepliesSnoc([e0], e1);
    RepliesSnoc([e0, e1], e2);
    assert ThreeRequests(c0, c1, c2)[..2] == [e0, e1];
    assert [] + [c0] == [c0] && [c0] + [c1] == [c0, c1];
  }

  lemma RepliesSnoc(events: seq<Event>, e: Event)
    ensures Replies(events + [e]) ==
            Replies(events) +
            (if e.step.Request? then [Told(e.step.command, e.step.disk, Run(events).store, e.time)] else [])
  {
    assert (events + [e])[..|events|] == events;
  }

  lemma ReplayOfThree(c0: Command, c1: Command, c2: Command, t: u64)
    ensures Replay([c0, c1, c2], t) == Effect(c2, Effect(c1, Effect(c0, map[], t), t), t)
  {
    hide Effect;
    assert [] + [c0] == [c0] && [c0] + [c1] == [c0, c1] && [c0, c1] + [c2] == [c0, c1, c2];
    ReplaySnoc([], c0, t);
    ReplaySnoc([c0], c1, t);
    ReplaySnoc([c0, c1], c2, t);
  }

  /** The stronger claim, that a restart restores the lost store, is false: a key whose deadline
      was moved from 10 to 20 in time is lost by a restart at 15. */
  lemma RestoreLosesKey(k: Bytes, v: Bytes)
    ensures var events := ThreeRequests(Set(k, v), ExpireAt(k, 10), ExpireAt(k, 20));
            && Timed(events, 15)
            && IsLive(Run(events).store, k, 15)
            && !IsLive(Replay(Run(events).log, 15), k, 15)
  {
    hide Effect, Replay;
    var c0, c1, c2 := Set(k, v), ExpireAt(k, 10), ExpireAt(k, 20);
    RunOfTwo(c0, c1, c2);
    assert [c0, c1] + [c2] == [c0, c1, c2];
    ReplayOfThree(c0, c1, c2, 15);
    MovedDeadline(k, v, map[], 0, 1, 2, 15);
    MovedDeadline(k, v, map[], 15, 15, 15, 15);
  }

  /** TTL on an empty store, on a key without a deadline, and on one with an ordinary deadline. */
  lemma TtlReports(k: Bytes, v: Bytes, deadline: u64)
    requires 2 < deadline < 0x8000_0000_0000_0000
    ensures Replies([Event(Request(Ttl(k), None), 0)]) == [Exactly(Res.Integer(-2))]
    ensures Replies([Event(Request(Set(k, v), None), 0), Event(Request(Ttl(k), None), 1)])
         == [Exactly(Res.Ok), Exactly(Res.Integer(-1))]
    ensures Replies(ThreeRequests(Set(k, v), ExpireAt(k, deadline), Ttl(k)))
         == [Exactly(Res.Ok), Exactly(Res.Integer(1)), Exactly(Res.Integer(deadline))]
  {
    var e0, e1 := Event(Request(Set(k, v), None), 0), Event(Request(Ttl(k), None), 1);
    var e := Event(Request(Ttl(k), None), 0);
    assert [] + [e] == [e] && [] + [e0] == [e0] && [e0] + [e1] == [e0, e1];
    RepliesSnoc([], e);
    RepliesSnoc([], e0);
    RepliesSnoc([e0], e1);
    RunSnoc([], e0);
    RunOfTwo(Set(k, v), ExpireAt(k, deadline), Ttl(k));
  }

  /** TTL misreports the two largest deadlines: the first as no deadline, the second as no key. */
  lemma TtlMisreports(k: Bytes, v: Bytes, deadline: u64)
    requires deadline == WORD - 1 || deadline == WORD - 2
    ensures Replies(ThreeRequests(Set(k, v), ExpireAt(k, deadline), Ttl(k)))
         == [Exactly(Res.Ok), Exactly(Res.Integer(1)), Exactly(Res.Integer(if deadline == WORD - 1 then -1 else -2))]
    ensures View(Run(ThreeRequests(Set(k, v), ExpireAt(k, deadline), Ttl(k))).store, k, 2)
         == Some(StoredValue(v, Some(deadline)))
  {
    RunOfTwo(Set(k, v), ExpireAt(k, deadline), Ttl(k));
  }

  /** SET at `a`, a deadline of 10 at `b`, one of 20 at `c`: the key is live at 15 exactly when
      the first deadline was not over at `c`. */
  lemma MovedDeadline(k: Bytes, v: Bytes, m: Store, a: u64, b: u64, c: u64, t: u64)
    requires a <= b <= c <= t == 15
    ensures IsLive(Effect(ExpireAt(k, 20), Effect(ExpireAt(k, 10), Effect(Set(k, v), m, a), b), c), k, t)
       <==> c < 10
  {
    hide Effect;
    var m1 := Effect(Set(k, v), m, a);
    var m2 := Effect(ExpireAt(k, 10), m1, b);
    StepView(Set(k, v), m, k, a, b);
    StepView(ExpireAt(k, 10), m1, k, b, c);
    StepView(ExpireAt(k, 20), m2, k, c, t);
  }

  lemma RunSnoc(events: seq<Event>, e: Event)
    ensures Run(events + [e]) == NextState(Run(events), e)
  {
    assert (events + [e])[..|events|] == events;
  }

  // ---------------------------------------------------------------------------------------
  // Cleanup
  // ---------------------------------------------------------------------------------------

  /** The same run on a server that never cleans up. */
  function WithoutCleanup(events: seq<Event>): seq<Event> {
    if events == [] then []
    else
      var front, last := WithoutCleanup(events[..|events| - 1]), events[|events| - 1];
      if last.step.Cleanup? then front else front + [last]
  }

  /** Cleanup cannot be observed: the server that never cleans up gives the same replies, keeps
      the same log and shows the same live keys. */
  lemma {:induction false} CleanupInvisible(events: seq<Event>, now: u64)
    requires Timed(events, now)
    ensures Replies(events) == Replies(WithoutCleanup(events))
    ensures Run(events).log == Run(WithoutCleanup(events)).log
    ensures Live(Run(events).store, now) == Live(Run(WithoutCleanup(events)).store, now)
    decreases |events|
  {
    if events != [] {
      var front, last := events[..|events| - 1], events[|events| - 1];
      var lazy := WithoutCleanup(front);
      TimedFront(events, now);
      CleanupInvisible(front, last.time);
      RunSnoc(lazy, last);
      assert (lazy + [last])[..|lazy|] == lazy;
      var s, s' := Run(front).store, Run(lazy).store;
      if last.step.Request? {
        ReplyFromLive(last.step.command, s, s', last.time);
      }
      LiveByView(s, s', last.time);
      forall k
        ensures View(Run(events).store, k, now) == View(Run(WithoutCleanup(events)).store, k, now)
      {
        assert View(s, k, last.time) == View(s', k, last.time);
        ViewLater(s, k, last.time, now);
        ViewLater(s', k, last.time, now);
        match last.step {
          case Request(c, _) =>
            StepView(c, s, k, last.time, now);
            StepView(c, s', k, last.time, now);
          case _ =>
        }
      }
      LiveByView(Run(events).store, Run(WithoutCleanup(events)).store, now);
    }
  }
}
