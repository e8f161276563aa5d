/**
 * What the printer decides before it draws anything (awslog.py,
 * `is_metadata_log`, `build_indicator_string` and the skip in `print_logs`):
 * which messages are Lambda runtime bookkeeping, and the markup string that
 * places a log group's coloured block in the left-hand margin.
 */
module Display {
  import opened Strings
  import opened Events

  /** The three Lambda runtime markers, case-sensitive, in the order they are tested. */
  const MetadataMarkers: seq<string> := ["START RequestId", "REPORT RequestId", "END RequestId"]

  /** `is_metadata_log`: the message contains one of the runtime markers anywhere. */
  predicate IsMetadataLog(message: string)
  {
    Contains(message, MetadataMarkers[0])
    || Contains(message, MetadataMarkers[1])
    || Contains(message, MetadataMarkers[2])
  }

  /** A message is metadata exactly when some marker occurs in it at some index. */
  lemma MetadataIffMarker(message: string)
    ensures IsMetadataLog(message) <==>
      exists m, i :: m in MetadataMarkers && OccursAt(message, m, i)
  {
    ContainsIff(message, MetadataMarkers[0]);
    ContainsIff(message, MetadataMarkers[1]);
    ContainsIff(message, MetadataMarkers[2]);
  }

  /** A marker spliced anywhere into a message makes it metadata. */
  lemma MetadataAnywhere(prefix: string, marker: string, suffix: string)
    requires marker in MetadataMarkers
    ensures IsMetadataLog(prefix + marker + suffix)
  {
    ContainsInfix(prefix, marker, suffix);
  }

  /** A message shorter than every marker is never metadata. */
  lemma ShortMessageIsShown(message: string)
    requires |message| < 13
    ensures !IsMetadataLog(message)
  {
    ShortNeverContains(message, MetadataMarkers[0]);
    ShortNeverContains(message, MetadataMarkers[1]);
    ShortNeverContains(message, MetadataMarkers[2]);
  }

  /** The events `print_logs` draws: metadata messages are skipped, the rest keep their order. */
  function Displayed(events: seq<LogEvent>): seq<LogEvent>
  {
    if events == [] then []
    else (if IsMetadataLog(events[0].message) then [] else [events[0]]) + Displayed(events[1..])
  }

  lemma {:induction false} DisplayedMembers(events: seq<LogEvent>, e: LogEvent)
    ensures e in Displayed(events) <==> e in events && !IsMetadataLog(e.message)
  {
    if events != [] {
      DisplayedMembers(events[1..], e);
      assert events == [events[0]] + events[1..];
    }
  }

  /** When every message is bookkeeping, nothing is drawn. */
  lemma {:induction false} AllMetadataHidden(events: seq<LogEvent>)
    requires forall i :: 0 <= i < |events| ==> IsMetadataLog(events[i].message)
    ensures Displayed(events) == []
  {
    if events != [] {
      assert IsMetadataLog(events[0].message);
      assert forall i :: 0 <= i < |events[1..]| ==> events[1..][i] == events[i + 1];
      AllMetadataHidden(events[1..]);
    }
  }

  lemma {:induction false} DisplayedAppend(a: seq<LogEvent>, b: seq<LogEvent>)
    ensures Displayed(a + b) == Displayed(a) + Displayed(b)
  {
    if a == [] {
      assert a + b == b;
    } else {
      assert (a + b)[0] == a[0] && (a + b)[1..] == a[1..] + b;
      DisplayedAppend(a[1..], b);
    }
  }

  // ---------------------------------------------------------------------------
  // The indicator string.

  /** Python's `s * k`: `k` copies of `s`, and the empty string when `k <= 0`. */
  function Repeat(s: string, k: int): string
    decreases k
  {
    if k <= 0 then "" else s + Repeat(s, k - 1)
  }

  /** Python clamps a negative repetition count to zero. */
  function Clamp(k: int): nat
  {
    if k < 0 then 0 else k
  }

  /** A run of `n` blanks. */
  function Blanks(n: nat): string
  {
    seq(n, _ => ' ')
  }

  lemma {:induction false} RepeatBlanks(n: nat, k: int)
    ensures Repeat(Blanks(n), k) == Blanks(n * Clamp(k))
  {
    if k > 0 {
      RepeatBlanks(n, k - 1);
      assert n * Clamp(k) == n + n * Clamp(k - 1);
      assert Blanks(n) + Blanks(n * Clamp(k - 1)) == Blanks(n * Clamp(k));
    }
  }

  const DefaultColorTag := "[on default]"
  const CloseTag := "[/]"

  function ColorTag(color: string): string
  {
    "[on " + color + "]"
  }

  /**
   * `build_indicator_string`: a strip in the default background with the
   * coloured block of group `index` in it; both repetitions are written as
   * the source evaluates them, `(" " * index) * width`.
   */
  function BuildIndicatorString(color: string, index: int, maxIndex: int, width: int): string
  {
    DefaultColorTag + Repeat(Repeat(" ", index), width) + CloseTag
    + ColorTag(color) + Repeat(" ", width) + CloseTag
    + DefaultColorTag + Repeat(Repeat(" ", maxIndex - index - 1), width) + CloseTag
  }

  /** A strip of `lead` default blanks, `block` coloured blanks and `trail` default blanks. */
  function Strip(color: string, lead: nat, block: nat, trail: nat): string
  {
    DefaultColorTag + Blanks(lead) + CloseTag
    + ColorTag(color) + Blanks(block) + CloseTag
    + DefaultColorTag + Blanks(trail) + CloseTag
  }

  /**
   * The indicator is `index * width` default blanks, `width` coloured blanks and
   * `(maxIndex - index - 1) * width` default blanks, every negative count
   * giving no blanks at all.
   */
  lemma IndicatorLayout(color: string, index: int, maxIndex: int, width: int)
    ensures BuildIndicatorString(color, index, maxIndex, width) ==
      Strip(color, Clamp(index) * Clamp(width), Clamp(width), Clamp(maxIndex - index - 1) * Clamp(width))
  {
    assert " " == Blanks(1);
    RepeatBlanks(1, index);
    RepeatBlanks(1, maxIndex - index - 1);
    RepeatBlanks(1, width);
    RepeatBlanks(Clamp(index), width);
    RepeatBlanks(Clamp(maxIndex - index - 1), width);
  }

  /**
   * For a group inside its set, the block starts at column `index * width`
   * and the strip is `maxIndex * width` columns wide whatever the index, so
   * the margins of every group of a set line up.
   */
  lemma IndicatorAlignment(color: string, index: int, maxIndex: int, width: int)
    requires 0 <= index < maxIndex && 0 <= width
    ensures index * width + width <= maxIndex * width
    ensures BuildIndicatorString(color, index, maxIndex, width) ==
      Strip(color, index * width, width, maxIndex * width - index * width - width)
  {
    IndicatorLayout(color, index, maxIndex, width);
    var rest := maxIndex - index - 1;
    assert Clamp(index) == index && Clamp(width) == width && Clamp(rest) == rest;
    DistributeRight(maxIndex, index, width);
  }

  lemma DistributeRight(m: int, i: int, w: int)
    requires 0 <= i < m && 0 <= w
    ensures (m - i - 1) * w == m * w - i * w - w >= 0
  {
    assert (m - i - 1) * w >= 0;
  }

  /**
   * The second group of three, drawn two columns wide as `print_logs` does:
   * two default blanks, two coloured blanks and two default blanks.
   */
  lemma SecondOfThree(color: string)
    ensures BuildIndicatorString(color, 1, 3, 2) == Strip(color, 2, 2, 2)
    ensures Blanks(2) == "  "
  {
    IndicatorAlignment(color, 1, 3, 2);
  }
}
