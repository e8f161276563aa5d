/**
 * The polling loop of `tail` (awslog.py): each round fetches every event since
 * the watermark `last_since`, merges the groups of a log set by timestamp,
 * keeps only events strictly newer than the watermark, shows them and moves
 * the watermark to the newest shown timestamp.
 *
 * `fetch_logs` is modelled in module Fetch; here its result is a function of
 * the group name and the start time, and of the round number when the loop
 * runs more than once (the log groups keep receiving events between rounds).
 * The endless `while True` stops after `rounds` iterations, the point where
 * the operator interrupts it.
 */
module Tail {
  import opened Wrappers
  import opened Events
  import opened Resolver
  import Duration
  import opened Display

  /** What `fetch_logs` returns for a group name and a start time, in one round. */
  type Fetcher = (string, int) -> seq<LogEvent>

  /** The events of one group, each marked with the group's name. */
  function Tagged(name: string, events: seq<LogEvent>): seq<LogEvent>
  {
    seq(|events|, i requires 0 <= i < |events| => events[i].(logGroupName := Some(name)))
  }

  /** The fetched events of every group of a set, tagged and concatenated in configured order. */
  function Gathered(names: seq<string>, fetch: Fetcher, since: int): seq<LogEvent>
  {
    if names == [] then []
    else Gathered(names[..|names| - 1], fetch, since)
         + Tagged(names[|names| - 1], fetch(names[|names| - 1], since))
  }

  /** `new_logs` before the watermark filter: one group as fetched, a set merged by a stable sort. */
  function Merged(target: Target, fetch: Fetcher, since: int): seq<LogEvent>
  {
    match target
    case Single(name) => fetch(name, since)
    case LogSet(names) => SortByTimestamp(Gathered(names, fetch, since))
  }

  /** The events strictly newer than `w`, in order. */
  function NewerThan(events: seq<LogEvent>, w: int): seq<LogEvent>
  {
    if events == [] then []
    else NewerThan(events[..|events| - 1], w)
         + (if events[|events| - 1].timestamp > w then [events[|events| - 1]] else [])
  }

  /** Python's `max` over the timestamps: attained by some event and bounding all of them. */
  function MaxTimestamp(events: seq<LogEvent>): (m: int)
    requires events != []
    ensures exists i :: 0 <= i < |events| && events[i].timestamp == m
    ensures forall i :: 0 <= i < |events| ==> events[i].timestamp <= m
  {
    if |events| == 1 then events[0].timestamp
    else
      var rest := MaxTimestamp(events[1..]);
      assert forall i :: 1 <= i < |events| ==> events[i] == events[1..][i - 1];
      if events[0].timestamp >= rest then events[0].timestamp else rest
  }

  /** The next watermark: the newest shown timestamp, or the old one when nothing was shown. */
  function Advance(w: int, shown: seq<LogEvent>): int
  {
    if shown == [] then w else MaxTimestamp(shown)
  }

  /** One pass of the body of `while True`, before the printing and the sleep. */
  method TailStep(target: Target, lastSince: int, fetch: Fetcher) returns (shown: seq<LogEvent>, next: int)
    ensures shown == NewerThan(Merged(target, fetch, lastSince), lastSince)
    ensures next == Advance(lastSince, shown)
  {
    var newLogs: seq<LogEvent>;
    match target {
      case Single(name) =>
        newLogs := fetch(name, lastSince);
      case LogSet(names) =>
        newLogs := [];
        for k := 0 to |names|
          invariant newLogs == Gathered(names[..k], fetch, lastSince)
        {
          var ofGroup := fetch(names[k], lastSince);
          var batch := ofGroup;
          for j := 0 to |batch|
            invariant |batch| == |ofGroup|
            invariant forall i :: 0 <= i < j ==> batch[i] == ofGroup[i].(logGroupName := Some(names[k]))
            invariant forall i :: j <= i < |batch| ==> batch[i] == ofGroup[i]
          {
            batch := batch[j := batch[j].(logGroupName := Some(names[k]))];
          }
          assert batch == Tagged(names[k], ofGroup);
          assert names[..k + 1][..k] == names[..k];
          newLogs := newLogs + batch;
        }
        assert names[..|names|] == names;
        newLogs := SortByTimestamp(newLogs);
    }
    shown := [];
    for i := 0 to |newLogs|
      invariant shown == NewerThan(newLogs[..i], lastSince)
    {
      assert newLogs[..i + 1][..i] == newLogs[..i];
      if newLogs[i].timestamp > lastSince {
        shown := shown + [newLogs[i]];
      }
    }
    assert newLogs[..|newLogs|] == newLogs;
    next := if shown != [] then MaxTimestamp(shown) else lastSince;
  }

  // ---------------------------------------------------------------------------
  // Properties of one round.

  lemma {:induction false} NewerThanMembers(events: seq<LogEvent>, w: int, e: LogEvent)
    ensures e in NewerThan(events, w) <==> e in events && e.timestamp > w
  {
    if events != [] {
      var init := events[..|events| - 1];
      NewerThanMembers(init, w, e);
      assert events == init + [events[|events| - 1]];
    }
  }

  /** The filter works event by event, so it keeps the input order: it distributes over concatenation. */
  lemma {:induction false} NewerThanAppend(a: seq<LogEvent>, b: seq<LogEvent>, w: int)
    ensures NewerThan(a + b, w) == NewerThan(a, w) + NewerThan(b, w)
  {
    if b == [] {
      assert a + b == a;
    } else {
      var b' := b[..|b| - 1];
      assert (a + b)[..|a + b| - 1] == a + b';
      assert (a + b)[|a + b| - 1] == b[|b| - 1];
      NewerThanAppend(a, b', w);
    }
  }

  /** The watermark filter keeps a sorted sequence sorted. */
  lemma {:induction false} NewerThanSorted(events: seq<LogEvent>, w: int)
    requires SortedByTimestamp(events)
    ensures SortedByTimestamp(NewerThan(events, w))
  {
    if events != [] {
      var init := events[..|events| - 1];
      var last := events[|events| - 1];
      NewerThanSorted(init, w);
      var r := NewerThan(init, w);
      forall i | 0 <= i < |r| ensures r[i].timestamp <= last.timestamp {
        assert r[i] in r;
        NewerThanMembers(init, w, r[i]);
        var m :| 0 <= m < |init| && init[m] == r[i];
        assert events[m] == init[m];
      }
    }
  }

  /**
   * Every shown event is newer than the old watermark and no newer than the
   * new one; when something was shown, the new watermark is a shown timestamp
   * and strictly ahead of the old one, even if every shown message is
   * metadata that the printer skips.
   */
  lemma AdvanceBounds(w: int, shown: seq<LogEvent>)
    requires forall i :: 0 <= i < |shown| ==> shown[i].timestamp > w
    ensures Advance(w, shown) >= w
    ensures forall i :: 0 <= i < |shown| ==> w < shown[i].timestamp <= Advance(w, shown)
    ensures shown != [] ==>
      Advance(w, shown) > w && exists i :: 0 <= i < |shown| && shown[i].timestamp == Advance(w, shown)
    ensures shown == [] ==> Advance(w, shown) == w
  {
  }

  /**
   * A round whose new events are all Lambda bookkeeping draws nothing, yet
   * still moves the watermark past them, so they are not fetched again.
   */
  lemma MetadataStillAdvances(w: int, shown: seq<LogEvent>)
    requires shown != []
    requires forall i :: 0 <= i < |shown| ==> shown[i].timestamp > w && IsMetadataLog(shown[i].message)
    ensures Displayed(shown) == []
    ensures Advance(w, shown) > w
  {
    AdvanceBounds(w, shown);
    AllMetadataHidden(shown);
  }

  /** One round's shown events, with the guarantees of the filter and the watermark. */
  lemma TailStepMeaning(target: Target, fetch: Fetcher, w: int, e: LogEvent)
    ensures var shown := NewerThan(Merged(target, fetch, w), w);
      && (e in shown <==> e in Merged(target, fetch, w) && e.timestamp > w)
      && (e in shown ==> w < e.timestamp <= Advance(w, shown))
      && Advance(w, shown) >= w
  {
    var shown := NewerThan(Merged(target, fetch, w), w);
    NewerThanMembers(Merged(target, fetch, w), w, e);
    forall i | 0 <= i < |shown| ensures shown[i].timestamp > w {
      NewerThanMembers(Merged(target, fetch, w), w, shown[i]);
    }
    AdvanceBounds(w, shown);
  }

  /**
   * The shown events are in timestamp order: a log set is sorted by the merge,
   * a single group is in order when its fetch result is (as `fetch_logs`
   * guarantees).
   */
  lemma ShownSorted(target: Target, fetch: Fetcher, w: int)
    requires target.Single? ==> SortedByTimestamp(fetch(target.name, w))
    ensures SortedByTimestamp(NewerThan(Merged(target, fetch, w), w))
  {
    if target.LogSet? {
      SortProperties(Gathered(target.names, fetch, w));
    }
    NewerThanSorted(Merged(target, fetch, w), w);
  }

  // ---------------------------------------------------------------------------
  // The merge of a log set.

  lemma TaggedMembers(name: string, events: seq<LogEvent>, e: LogEvent)
    ensures e in Tagged(name, events) ==> e.logGroupName == Some(name)
    ensures e in events ==> e.(logGroupName := Some(name)) in Tagged(name, events)
  {
    if e in events {
      var i :| 0 <= i < |events| && events[i] == e;
      assert Tagged(name, events)[i] == e.(logGroupName := Some(name));
    }
  }

  /** An event of the merge comes, tagged, from the fetch of one of the set's groups, and every such event is there. */
  lemma {:induction false} GatheredMembers(names: seq<string>, fetch: Fetcher, since: int, e: LogEvent)
    ensures e in Gathered(names, fetch, since) <==>
      exists k :: 0 <= k < |names| && e in Tagged(names[k], fetch(names[k], since))
  {
    if names != [] {
      var init := names[..|names| - 1];
      GatheredMembers(init, fetch, since, e);
      assert forall k :: 0 <= k < |init| ==> init[k] == names[k];
    }
  }

  /**
   * The merge of a log set is a sorted permutation of every group's tagged
   * events; events of equal timestamp keep the set's group order, and within a
   * group the order of the fetch.
   */
  lemma MergedLogSet(names: seq<string>, fetch: Fetcher, since: int, e: LogEvent)
    ensures SortedByTimestamp(Merged(LogSet(names), fetch, since))
    ensures multiset(Merged(LogSet(names), fetch, since)) == multiset(Gathered(names, fetch, since))
    ensures forall t :: WithTimestamp(Merged(LogSet(names), fetch, since), t) == WithTimestamp(Gathered(names, fetch, since), t)
    ensures e in Merged(LogSet(names), fetch, since) ==>
      e.logGroupName.Some? && e.logGroupName.value in names
  {
    var g := Gathered(names, fetch, since);
    SortProperties(g);
    if e in Merged(LogSet(names), fetch, since) {
      assert e in multiset(g);
      GatheredMembers(names, fetch, since, e);
      var k :| 0 <= k < |names| && e in Tagged(names[k], fetch(names[k], since));
      TaggedMembers(names[k], fetch(names[k], since), e);
    }
  }

  /** A backend where group A holds events at 10 and 30 and group B events at 20 and 25. */
  function TwoGroups(): Fetcher
  {
    (name: string, since: int) =>
      if name == "A" then [LogEvent(10, "a10", None), LogEvent(30, "a30", None)]
      else if name == "B" then [LogEvent(20, "b20", None), LogEvent(25, "b25", None)]
      else []
  }

  /**
   * Tailing the set [A, B] from watermark 10: the merge interleaves the groups
   * as 10, 20, 25, 30, each event tagged with its group, and the event at the
   * watermark itself is not shown again.
   */
  lemma InterleavedGroups()
    ensures
      var a10 := LogEvent(10, "a10", Some("A"));
      var a30 := LogEvent(30, "a30", Some("A"));
      var b20 := LogEvent(20, "b20", Some("B"));
      var b25 := LogEvent(25, "b25", Some("B"));
      && Merged(LogSet(["A", "B"]), TwoGroups(), 10) == [a10, b20, b25, a30]
      && NewerThan(Merged(LogSet(["A", "B"]), TwoGroups(), 10), 10) == [b20, b25, a30]
  {
    var a10 := LogEvent(10, "a10", Some("A"));
    var a30 := LogEvent(30, "a30", Some("A"));
    var b20 := LogEvent(20, "b20", Some("B"));
    var b25 := LogEvent(25, "b25", Some("B"));
    GatheredTwoGroups();
    SortOfTwoGroups(a10, a30, b20, b25);
    NewerThanTen(a10, b20, b25, a30);
  }

  lemma GatheredTwoGroups()
    ensures Gathered(["A", "B"], TwoGroups(), 10) ==
      [LogEvent(10, "a10", Some("A")), LogEvent(30, "a30", Some("A")),
       LogEvent(20, "b20", Some("B")), LogEvent(25, "b25", Some("B"))]
  {
    var f := TwoGroups();
    var names := ["A", "B"];
    assert names[..1] == ["A"] && names[..1][..0] == [];
    assert Tagged("A", f("A", 10)) == [LogEvent(10, "a10", Some("A")), LogEvent(30, "a30", Some("A"))];
    assert Tagged("B", f("B", 10)) == [LogEvent(20, "b20", Some("B")), LogEvent(25, "b25", Some("B"))];
    assert Gathered(names[..1], f, 10) == Tagged("A", f("A", 10));
  }

  lemma NewerThanTen(a10: LogEvent, b20: LogEvent, b25: LogEvent, a30: LogEvent)
    requires a10.timestamp == 10 && a30.timestamp == 30 && b20.timestamp == 20 && b25.timestamp == 25
    ensures NewerThan([a10, b20, b25, a30], 10) == [b20, b25, a30]
  {
    var m := [a10, b20, b25, a30];
    assert m[..3] == [a10, b20, b25] && m[..3][..2] == [a10, b20] && m[..3][..2][..1] == [a10];
    assert m[..3][..2][..1][..0] == [];
    assert NewerThan([a10], 10) == [];
    assert NewerThan([a10, b20], 10) == [b20];
    assert NewerThan([a10, b20, b25], 10) == [b20, b25];
  }

  lemma SortOfTwoGroups(a10: LogEvent, a30: LogEvent, b20: LogEvent, b25: LogEvent)
    requires a10.timestamp == 10 && a30.timestamp == 30 && b20.timestamp == 20 && b25.timestamp == 25
    ensures SortByTimestamp([a10, a30, b20, b25]) == [a10, b20, b25, a30]
  {
    var s := [a10, a30, b20, b25];
    assert s[1..] == [a30, b20, b25] && s[1..][1..] == [b20, b25] && s[1..][1..][1..] == [b25];
    assert SortByTimestamp([b25]) == [b25];
    assert SortByTimestamp([b20, b25]) == Insert(b20, [b25]) == [b20, b25];
    assert Insert(a30, [b25]) == [b25, a30];
    assert Insert(a30, [b20, b25]) == [b20] + Insert(a30, [b25]);
    assert SortByTimestamp([a30, b20, b25]) == [b20, b25, a30];
    assert Insert(a10, [b20, b25, a30]) == [a10, b20, b25, a30];
  }

  // ---------------------------------------------------------------------------
  // The loop.

  /** The fetch results of round `k`. */
  function AtRound(fetch: (nat, string, int) -> seq<LogEvent>, k: nat): Fetcher
  {
    (name: string, since: int) => fetch(k, name, since)
  }

  /** One iteration: the watermark it starts from, what it shows, the next watermark, whether it then sleeps. */
  datatype Round = Round(since: int, shown: seq<LogEvent>, next: int, slept: bool)

  function RoundOf(target: Target, fetch: Fetcher, w: int, keepOpen: bool): Round
  {
    var shown := NewerThan(Merged(target, fetch, w), w);
    Round(w, shown, Advance(w, shown), keepOpen)
  }

  /** A run of the loop from watermark `start`: each round starts where the previous one left the watermark. */
  predicate ValidTrace(
    target: Target, fetch: (nat, string, int) -> seq<LogEvent>, start: int, keepOpen: bool, trace: seq<Round>)
  {
    && (trace != [] ==> trace[0].since == start)
    && (forall k :: 0 <= k < |trace| - 1 ==> trace[k + 1].since == trace[k].next)
    && (forall k :: 0 <= k < |trace| ==> trace[k] == RoundOf(target, AtRound(fetch, k), trace[k].since, keepOpen))
  }

  /** A round that starts at the trace's last watermark and runs on its own round's fetch results extends the trace. */
  lemma ValidTraceExtend(
    target: Target, fetch: (nat, string, int) -> seq<LogEvent>, start: int, keepOpen: bool,
    trace: seq<Round>, round: Round)
    requires ValidTrace(target, fetch, start, keepOpen, trace)
    requires round.since == (if trace == [] then start else trace[|trace| - 1].next)
    requires round == RoundOf(target, AtRound(fetch, |trace|), round.since, keepOpen)
    ensures ValidTrace(target, fetch, start, keepOpen, trace + [round])
  {
    var t := trace + [round];
    assert forall k :: 0 <= k < |trace| ==> t[k] == trace[k];
    assert t[|trace|] == round;
  }

  /**
   * `tail` after the target is resolved: the watermark starts at `since`
   * converted to a timestamp in milliseconds; without keep-open the loop stops
   * after one round and does not sleep, otherwise it sleeps after every round
   * until it is interrupted.
   */
  method Tail(
    target: Target, since: string, now: int, keepOpen: bool,
    fetch: (nat, string, int) -> seq<LogEvent>, rounds: nat)
    returns (trace: seq<Round>)
    ensures |trace| == (if keepOpen || rounds == 0 then rounds else 1)
    ensures ValidTrace(target, fetch, Duration.StringToTimestamp(since, now) * 1000, keepOpen, trace)
  {
    var sinceStamp := Duration.StringToTimestamp(since, now) * 1000;
    var lastSince := sinceStamp;
    trace := [];
    while |trace| < rounds
      invariant |trace| <= rounds
      invariant !keepOpen ==> |trace| == 0
      invariant ValidTrace(target, fetch, sinceStamp, keepOpen, trace)
      invariant lastSince == (if trace == [] then sinceStamp else trace[|trace| - 1].next)
      decreases rounds - |trace|
    {
      var shown, next := TailStep(target, lastSince, AtRound(fetch, |trace|));
      var round := Round(lastSince, shown, next, keepOpen);
      assert round == RoundOf(target, AtRound(fetch, |trace|), lastSince, keepOpen);
      ValidTraceExtend(target, fetch, sinceStamp, keepOpen, trace, round);
      trace := trace + [round];
      lastSince := next;
      if !keepOpen {
        break;
      }
    }
  }

  // ---------------------------------------------------------------------------
  // Properties across rounds.

  /** The watermark never moves backwards. */
  lemma {:induction false} WatermarkMonotone(
    target: Target, fetch: (nat, string, int) -> seq<LogEvent>, start: int, keepOpen: bool,
    trace: seq<Round>, i: nat, j: nat)
    requires ValidTrace(target, fetch, start, keepOpen, trace)
    requires i <= j < |trace|
    ensures trace[i].since <= trace[j].since <= trace[j].next
  {
    var f := AtRound(fetch, j);
    var w := trace[j].since;
    TailStepMeaning(target, f, w, LogEvent(0, "", None));
    if i < j {
      WatermarkMonotone(target, fetch, start, keepOpen, trace, i, j - 1);
      assert trace[j].since == trace[j - 1].next;
    }
  }

  /**
   * No event is shown twice, and the rounds show events in increasing
   * timestamp order: everything shown in a later round is strictly newer than
   * everything shown before it.
   */
  lemma NoEventShownTwice(
    target: Target, fetch: (nat, string, int) -> seq<LogEvent>, start: int, keepOpen: bool,
    trace: seq<Round>, i: nat, j: nat, e: LogEvent, f: LogEvent)
    requires ValidTrace(target, fetch, start, keepOpen, trace)
    requires i < j < |trace|
    requires e in trace[i].shown && f in trace[j].shown
    ensures e.timestamp < f.timestamp
  {
    TailStepMeaning(target, AtRound(fetch, i), trace[i].since, e);
    TailStepMeaning(target, AtRound(fetch, j), trace[j].since, f);
    WatermarkMonotone(target, fetch, start, keepOpen, trace, i + 1, j);
    assert trace[i + 1].since == trace[i].next;
  }
}
