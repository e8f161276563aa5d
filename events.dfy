/**
 * Log events as the backend returns them, and `sorted(events, key=timestamp)`:
 * Python's sort is stable, modelled here by an insertion sort that keeps
 * events with equal timestamps in their original order.
 */
module Events {
  import opened Wrappers

  /** A `filter_log_events` event dict; `logGroupName` is the key the tail loop adds in set mode. */
  datatype LogEvent = LogEvent(timestamp: int, message: string, logGroupName: Option<string>)

  predicate SortedByTimestamp(s: seq<LogEvent>)
  {
    forall i, j :: 0 <= i < j < |s| ==> s[i].timestamp <= s[j].timestamp
  }

  /** The events of `s` with timestamp `t`, in order: what a stable sort must not reorder. */
  function WithTimestamp(s: seq<LogEvent>, t: int): seq<LogEvent>
  {
    if s == [] then []
    else (if s[0].timestamp == t then [s[0]] else []) + WithTimestamp(s[1..], t)
  }

  /** Insert `e` in front of the first event that is not earlier than it. */
  function Insert(e: LogEvent, s: seq<LogEvent>): seq<LogEvent>
  {
    if s == [] || e.timestamp <= s[0].timestamp then [e] + s
    else [s[0]] + Insert(e, s[1..])
  }

  /** `sorted(s, key=lambda k: k["timestamp"])`. */
  function SortByTimestamp(s: seq<LogEvent>): seq<LogEvent>
  {
    if s == [] then [] else Insert(s[0], SortByTimestamp(s[1..]))
  }

  /** Inserting adds exactly `e`. */
  lemma InsertMembers(e: LogEvent, s: seq<LogEvent>)
    ensures multiset(Insert(e, s)) == multiset(s) + multiset{e}
  {
    if s != [] && e.timestamp > s[0].timestamp {
      InsertMembers(e, s[1..]);
      assert s == [s[0]] + s[1..];
    }
  }

  /** Inserting into a sorted sequence keeps it sorted. */
  lemma {:induction false} InsertSorted(e: LogEvent, s: seq<LogEvent>)
    requires SortedByTimestamp(s)
    ensures SortedByTimestamp(Insert(e, s))
  {
    if s != [] && e.timestamp > s[0].timestamp {
      var rest := Insert(e, s[1..]);
      InsertSorted(e, s[1..]);
      InsertMembers(e, s[1..]);
      forall k | 0 <= k < |rest| ensures s[0].timestamp <= rest[k].timestamp {
        assert rest[k] in multiset(rest);
        if rest[k] != e {
          assert rest[k] in multiset(s[1..]);
          var m :| 0 <= m < |s[1..]| && s[1..][m] == rest[k];
          assert s[m + 1] == rest[k];
        }
      }
      assert Insert(e, s) == [s[0]] + rest;
    }
  }

  /** Inserting puts `e` in front of the events with its own timestamp and leaves every other group alone. */
  lemma {:induction false} InsertStable(e: LogEvent, s: seq<LogEvent>, t: int)
    ensures WithTimestamp(Insert(e, s), t) == (if e.timestamp == t then [e] else []) + WithTimestamp(s, t)
  {
    var r := Insert(e, s);
    if s == [] || e.timestamp <= s[0].timestamp {
      assert r[0] == e && r[1..] == s;
    } else {
      var rest := Insert(e, s[1..]);
      InsertStable(e, s[1..], t);
      assert r[0] == s[0] && r[1..] == rest;
      assert WithTimestamp(r, t) == (if s[0].timestamp == t then [s[0]] else []) + WithTimestamp(rest, t);
      assert WithTimestamp(s, t) == (if s[0].timestamp == t then [s[0]] else []) + WithTimestamp(s[1..], t);
    }
  }

  /**
   * The sort yields a sorted permutation of its input that keeps the events of
   * each timestamp in input order (it is stable).
   */
  lemma {:induction false} SortProperties(s: seq<LogEvent>)
    ensures SortedByTimestamp(SortByTimestamp(s))
    ensures multiset(SortByTimestamp(s)) == multiset(s)
    ensures forall t :: WithTimestamp(SortByTimestamp(s), t) == WithTimestamp(s, t)
  {
    if s != [] {
      SortProperties(s[1..]);
      InsertSorted(s[0], SortByTimestamp(s[1..]));
      InsertMembers(s[0], SortByTimestamp(s[1..]));
      forall t ensures WithTimestamp(SortByTimestamp(s), t) == WithTimestamp(s, t) {
        InsertStable(s[0], SortByTimestamp(s[1..]), t);
      }
      assert s == [s[0]] + s[1..];
    }
  }

  /** Filtering by timestamp distributes over concatenation. */
  lemma {:induction false} WithTimestampAppend(a: seq<LogEvent>, b: seq<LogEvent>, t: int)
    ensures WithTimestamp(a + b, t) == WithTimestamp(a, t) + WithTimestamp(b, t)
  {
    if a != [] {
      assert (a + b)[0] == a[0] && (a + b)[1..] == a[1..] + b;
      WithTimestampAppend(a[1..], b, t);
      var head := if a[0].timestamp == t then [a[0]] else [];
      assert WithTimestamp(a + b, t) == head + WithTimestamp(a[1..] + b, t);
    } else {
      assert a + b == b;
    }
  }

  /** In a sorted sequence the events with the smallest timestamp come first. */
  lemma {:induction false} FirstOfSorted(s: seq<LogEvent>)
    requires SortedByTimestamp(s) && s != []
    ensures WithTimestamp(s, s[0].timestamp) != []
    ensures WithTimestamp(s, s[0].timestamp)[0] == s[0]
    ensures forall t :: t < s[0].timestamp ==> WithTimestamp(s, t) == []
  {
    forall t | t < s[0].timestamp ensures WithTimestamp(s, t) == [] {
      NoneBelow(s, t);
    }
  }

  lemma {:induction false} NoneBelow(s: seq<LogEvent>, t: int)
    requires forall i :: 0 <= i < |s| ==> t < s[i].timestamp
    ensures WithTimestamp(s, t) == []
  {
    if s != [] {
      NoneBelow(s[1..], t);
    }
  }

  /** An event of `s` shows up in the filter for its own timestamp. */
  lemma {:induction false} InOwnFilter(s: seq<LogEvent>, i: nat)
    requires i < |s|
    ensures s[i] in WithTimestamp(s, s[i].timestamp)
  {
    if i > 0 {
      InOwnFilter(s[1..], i - 1);
    }
  }

  /**
   * A sorted sequence is determined by its events of each timestamp, in order:
   * so the stable sort of a sequence is the only sorted sequence that keeps every
   * group of equal timestamps in input order.
   */
  lemma {:induction false} SortedUnique(a: seq<LogEvent>, b: seq<LogEvent>)
    requires SortedByTimestamp(a) && SortedByTimestamp(b)
    requires forall t :: WithTimestamp(a, t) == WithTimestamp(b, t)
    ensures a == b
  {
    if a != [] { FirstOfSorted(a); }
    if b != [] { FirstOfSorted(b); }
    if a != [] && b != [] {
      if a[0].timestamp != b[0].timestamp {
        assert false;
      }
      assert a[0] == b[0];
      forall t ensures WithTimestamp(a[1..], t) == WithTimestamp(b[1..], t) {
        var head := if a[0].timestamp == t then [a[0]] else [];
        assert WithTimestamp(a, t) == head + WithTimestamp(a[1..], t);
        assert WithTimestamp(b, t) == head + WithTimestamp(b[1..], t);
        assert (head + WithTimestamp(a[1..], t))[|head|..] == WithTimestamp(a[1..], t);
        assert (head + WithTimestamp(b[1..], t))[|head|..] == WithTimestamp(b[1..], t);
      }
      SortedUnique(a[1..], b[1..]);
    } else if a != [] || b != [] {
      assert false;
    }
  }

  /** Sorting a sequence that is already sorted changes nothing. */
  lemma SortSortedIsIdentity(s: seq<LogEvent>)
    requires SortedByTimestamp(s)
    ensures SortByTimestamp(s) == s
  {
    SortProperties(s);
    SortedUnique(SortByTimestamp(s), s);
  }

  /** Concrete instance: equal timestamps keep their input order. */
  lemma TiesKeepInputOrder()
    ensures
      var x := LogEvent(5, "x", None);
      var y := LogEvent(5, "y", None);
      var z := LogEvent(1, "z", None);
      SortByTimestamp([x, y, z]) == [z, x, y]
  {
    var x := LogEvent(5, "x", None);
    var y := LogEvent(5, "y", None);
    var z := LogEvent(1, "z", None);
    assert [x, y, z][1..] == [y, z] && [y, z][1..] == [z] && [z][1..] == [];
    assert SortByTimestamp([z]) == [z];
    assert SortByTimestamp([y, z]) == Insert(y, [z]) == [z, y];
    assert Insert(x, [y]) == [x, y];
    assert Insert(x, [z, y]) == [z] + Insert(x, [y]);
  }
}
