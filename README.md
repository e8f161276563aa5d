# rich_awslog core, modelled in Dafny

`awslog.py` tails AWS CloudWatch log groups in a terminal. It takes one
identifier. That is either a log group's exact name, a substring of group
names to search for, or the name of a *log set*: an ordered list of groups
taken from a JSON configuration file. It then works in three steps:

1. It turns `--since` (a Go-style duration such as `1h30m`) into an epoch
   timestamp.
2. It pages through `filter_log_events` for every group from that timestamp on.
3. It repeats the fetch once a second. It keeps a watermark, the newest
   timestamp already shown, and shows only events strictly newer than it.

For a log set, the events of all groups are tagged with their group's name
and merged by a stable sort on the timestamp. Lambda runtime bookkeeping lines
(`START RequestId`, `END RequestId`, `REPORT RequestId`) are not drawn. Each
group of a set gets a coloured block in the left margin, and the block's
column is the group's position in the set.

The model is in plain Dafny, one module per concern:

| file | module | models |
|---|---|---|
| `wrappers.dfy` | `Wrappers` | `Option` and `Result` |
| `seqs.dfy` | `Seqs` | flattening a list of pages (`list.extend` in a loop) |
| `strings.dfy` | `Strings` | Python's `needle in hay` on strings |
| `duration.dfy` | `Duration` | `durationpy_from_str`, `string_to_timestamp`, the `--since` default |
| `events.dfy` | `Events` | log events and `sorted(..., key=timestamp)`, a stable sort |
| `fetch.dfy` | `Fetch` | `fetch_logs`, the pagination loop |
| `resolver.dfy` | `Resolver` | `find_log_group`, the log-set lookups, the start of `tail` |
| `display.dfy` | `Display` | `is_metadata_log`, `build_indicator_string`, the metadata skip in `print_logs` |
| `tail.dfy` | `Tail` | the `while True` loop of `tail` |

Some external inputs become explicit parameters:

- Each `Fetch.FetchLogs` request gets its page from a finite list of pages.
- The wall clock, and the stream listing that `fetch_log_stream_names`
  repeats before every request, are functions of the request number.
- "Now" in `string_to_timestamp` is an integer number of nanoseconds.
- The group catalogue is a list of pages of names.
- The operator's answer to the prompt is `Some(n)` when `int()` accepts it,
  and `None` when it raises.
- In the tail loop, fetching is a function of the round, the group name and
  the start time.
- The endless loop stops after `rounds` rounds. That models the keyboard
  interrupt.

A few behaviours of the program are easy to miss:

- **`--exact` together with `--set`.** The identifier is used as a log-set
  name: the branch `elif use_set` in `tail` (awslog.py:183-189) wins over
  `--exact` (`Resolver.ResolveTarget`).
- **A `--since` that cannot be parsed.** `string_to_timestamp` gives timestamp
  `0`, the epoch, and tailing starts there. The same happens for an empty
  string and for an instant outside `datetime`'s range
  (awslog.py:84-94, `Duration.StringToTimestamp`).
- **A failed backend call.** The exception leaves `tail` (only
  `KeyboardInterrupt` is caught there, awslog.py:236) and ends the process
  through the top-level handler; the watermark is a local of `tail` and is
  lost with it.

The watermark filter is strict. An event that arrives after a round and
carries the same millisecond as the newest event shown in that round is
never shown (`Tail.TailStepMeaning`, `Tail.NoEventShownTwice`).

## Model

| member | source | states |
|---|---|---|
| Duration.RunEnd | awslog.py:54 | the end of the maximal run of value characters (`[\d\.]`) or unit characters (`[a-zµμ]`) from a position: every character before it is in the class, and the one at it is not |
| Duration.Scan | awslog.py:54-57 | defined as a left-to-right scan from a position: a value run followed by a unit run is reported and the scan continues after the units, a value run with no unit after it is skipped whole, and any other character is skipped. Its meaning is stated by `ScanWellFormed`, `ScanFindsPair` and `ScanStartsIff` |
| Duration.ScanWellFormed | awslog.py:54-57 | every span `findall` reports is a non-empty value run followed by a non-empty unit run, and the spans are in order without overlap |
| Duration.ScanFindsPair | awslog.py:54-57 | scanning from position `i` reports a match at every pair start `p >= i` |
| Duration.ScanFindsPairAfterRun | awslog.py:54-57 | the same, when the scan stands on an earlier value run |
| Duration.ScanStartsIff | awslog.py:54-57 | a match starts at `p` exactly when `p` starts a value run (not preceded by a value character) that a unit character follows |
| Duration.MatchIsPairStart | awslog.py:54-57 | the start of every reported match is a pair start (the forward half of `ScanStartsIff`) |
| Duration.FindAll | awslog.py:54-57 | defined as the (value, unit) substrings of the spans `Scan` reports from position 0, in order. `FoundUnitIsMaximal` and `ScanStartsIff` state what it matches |
| Duration.FoundUnitIsMaximal | awslog.py:54-57 | each matched unit is the whole run of unit letters, so `1hm` yields the unit `hm` and not `h` |
| Duration.DecimalValue | awslog.py:66 | defined as the number a non-empty all-digit string denotes, and no value otherwise. `DecimalRoundTrip` and `HundredThousand` state its meaning |
| Duration.DecimalRoundTrip | awslog.py:66 | reading back the decimal digits of a natural number gives the number |
| Duration.Accumulate | awslog.py:62-68 | defined as the `for` loop over the pairs: an unknown unit, then a value that does not read as a number, stops it with that error, and each valid pair adds value × unit size to the total. `AccumulateValid` and `AccumulateFirstError` state its meaning |
| Duration.AccumulateValid | awslog.py:62-66 | when every matched pair has a known unit and a numeric value, the loop total is the sum of value × unit size over the pairs |
| Duration.AccumulateFirstError | awslog.py:62-68 | the loop stops at the first bad pair, and reports an unknown unit before an invalid value |
| Duration.Sign | awslog.py:56 | defined as -1 when the first character is `-` and 1 otherwise. `ParseDurationMeaning` states that it multiplies the total |
| Duration.ParseDuration | awslog.py:51-71 | defined as the zero forms, then the empty-string and no-match errors, then the sign times the accumulated total. `ParseDurationMeaning` states its meaning and `DurationFromStr` ties it to the source's loop |
| Duration.ParseDurationMeaning | awslog.py:51-71 | `0`, `+0` and `-0` give zero. Otherwise the parse succeeds exactly when the string is non-empty, has a match and every pair is valid, and the result is the sign of the first character × the total in nanoseconds. An empty string, a string with no match and the first bad pair are the errors |
| Duration.DurationFromStr | awslog.py:23-71 | the source's accumulation loop, with early return on the first error, computes exactly `ParseDuration` |
| Duration.StringToTimestamp | awslog.py:75-94 | for a valid duration whose instant is in `datetime`'s range, the result is that instant truncated to whole epoch seconds (`ts·1s ≤ now − delta < ts·1s + 1s`); every failure gives `0` |
| Duration.OneHourThirtyMinutes | awslog.py:51-71 | `1h30m` matches the pairs (1,h) and (30,m) and is 90 minutes |
| Duration.LetterRunIsOneUnit | awslog.py:54-64 | `1hm` is one pair with the unit `hm`, so it raises "Unknown unit" |
| Duration.NoPairIsAnError | awslog.py:59-60 | `bogus` has no match and raises "Invalid duration" |
| Duration.HundredThousand | awslog.py:66 | the digits `100000` read as the number one hundred thousand |
| Duration.ParseDefaultSince | awslog.py:130-135 | the `--since` default `100000s` is 100000 seconds |
| Duration.DefaultSinceIsBehindNow | awslog.py:84-88 | with the default `--since`, tailing starts 100000 seconds before the current whole second |
| Events.InsertMembers | awslog.py:219 | one insertion step of the sort adds exactly the inserted event |
| Events.InsertSorted | awslog.py:219 | inserting into a sorted sequence keeps it sorted |
| Events.InsertStable | awslog.py:219 | an inserted event goes in front of the events with its own timestamp, and every other timestamp's events are untouched |
| Events.SortByTimestamp | awslog.py:219 | defined as insertion sort on the timestamp, inserting each event in front of the events with its own timestamp. `SortProperties` and `SortedUnique` state that it is Python's stable sort |
| Events.SortProperties | awslog.py:322 | the sort returns a sorted permutation of its input, and the events of each timestamp stay in input order (the sort is stable) |
| Events.WithTimestampAppend | awslog.py:217 | the events of one timestamp in a concatenation are those of the first part, then those of the second |
| Events.FirstOfSorted | awslog.py:219 | in a sorted sequence the first event leads the events of its own timestamp, and no event is earlier |
| Events.NoneBelow | awslog.py:219 | no event of a sequence whose events all lie above `t` has timestamp `t` |
| Events.InOwnFilter | awslog.py:219 | every event is among the events of its own timestamp |
| Events.SortedUnique | awslog.py:219 | two sorted sequences with the same events of each timestamp, in the same order, are equal, so the stable sort is the only possible result |
| Events.SortSortedIsIdentity | awslog.py:322 | sorting events that are already in timestamp order changes nothing |
| Events.TiesKeepInputOrder | awslog.py:219 | events at 5 (x, then y) and 1 (z) sort to z, x, y |
| Fetch.EventsOf | awslog.py:319-320 | defined as `Concat` over the pages' event lists, in page order, as `events += response["events"]` builds it. `FetchLogs` states that its result is the stable sort of exactly this list |
| Fetch.EndTime | awslog.py:306 | `int(time.time()) * 1000`: a non-negative multiple of 1000 whose thousands are the whole second the clock reading falls in |
| Fetch.LastPage | awslog.py:298 | the first response without `nextToken` is the last one requested, and every earlier one has a token |
| Fetch.FetchLogs | awslog.py:291-322 | requests are made up to and including the first page without a token. Each request carries the group, the stream names listed just before it, the start time, the filter and the limit. Its end time is the whole seconds of the clock in milliseconds. It carries the previous page's token, and none on the first request. The result is the stable sort of all those pages' events: sorted, and a permutation of them |
| Seqs.Concat | awslog.py:254-256 | defined as the pages joined in order, as repeated `list.extend` builds them. `ConcatMembers` and `ConcatAppend` state its meaning |
| Seqs.ConcatMembers | awslog.py:254-256 | a group is in the gathered catalogue exactly when it is on some page |
| Seqs.ConcatAppend | awslog.py:254-256 | extending the catalogue page by page concatenates the pages in order |
| Strings.Contains | awslog.py:260 | defined as "`hay` starts with `needle`, or its tail contains it". `ContainsIff` states that this is Python's `needle in hay` |
| Strings.ContainsIff | awslog.py:260 | `needle in hay` holds exactly when `needle` occurs at some index of `hay` |
| Strings.ContainsInfix | awslog.py:260 | a string contains every string spliced into it |
| Strings.ShortNeverContains | awslog.py:260 | a string shorter than the needle does not contain it |
| Resolver.Candidates | awslog.py:258-261 | defined as the catalogue names that contain the identifier, kept in catalogue order. `CandidatesMembers` and `CandidatesAppend` state its meaning |
| Resolver.CandidatesMembers | awslog.py:258-261 | a group is a candidate exactly when it is in the catalogue and contains the identifier |
| Resolver.CandidatesAppend | awslog.py:258-261 | filtering keeps catalogue order: the candidates of a concatenation are the first part's candidates, then the second's |
| Resolver.EmptyIdentifierKeepsAll | awslog.py:260 | an empty identifier keeps every group of the catalogue |
| Resolver.FindLogGroup | awslog.py:247-280 | no candidate gives "No log groups found". One candidate is returned without asking. With several, a valid integer choice returns that candidate, and a missing or out-of-range choice gives "Invalid choice". A returned name is in the catalogue and contains the identifier |
| Resolver.ThreeCandidates | awslog.py:258-261 | with three groups containing `api` out of four, the candidates are those three in catalogue order |
| Resolver.ThreeCandidatesChoices | awslog.py:258-280 | over that catalogue, `FindLogGroup` with choice 1 returns `api-dev`, and with choice 5 gives "Invalid choice" |
| Resolver.Names | awslog.py:450 | the names of a log set's groups, one per entry, in configured order |
| Resolver.LogGroupNamesFromLogSet | awslog.py:446-452 | an unknown set is the "not found" error. A known set gives its groups' names, one per entry, in configured order |
| Resolver.IndexOf | awslog.py:458 | `list.index` returns the first position holding the name |
| Resolver.LogGroupIndex | awslog.py:454-458 | an unknown set is the "not found" error. For a known set the lookup succeeds exactly when some entry has the group's name, and then gives the first such position and the set's size; otherwise it is the "not in set" error |
| Resolver.LogGroupIndexOfListed | awslog.py:446-458 | for a set with unique names, the index of the set's `i`-th name is `i`, and the length is the set's size |
| Resolver.LogGroupIndexErrors | awslog.py:446-458 | an unknown set is an error for both lookups. A group that is not in the set is an error for the index |
| Resolver.ResolveTarget | awslog.py:183-191 | `--set` looks the identifier up as a log set, whatever `--exact` says. Otherwise `--exact` uses the identifier as it is, and without it the catalogue is searched, with all the outcomes of `find_log_group` |
| Display.IsMetadataLog | awslog.py:324-334 | defined as the disjunction of the three `in` tests over the markers. `MetadataIffMarker`, `MetadataAnywhere` and `ShortMessageIsShown` state what it accepts |
| Display.MetadataIffMarker | awslog.py:324-334 | a message is metadata exactly when one of the three markers occurs in it at some index |
| Display.MetadataAnywhere | awslog.py:328-333 | a marker anywhere in a message makes it metadata |
| Display.ShortMessageIsShown | awslog.py:324-334 | a message shorter than the shortest marker (13 characters) is never metadata |
| Display.Displayed | awslog.py:381-388 | defined as the events whose message is not metadata, in order. `DisplayedMembers`, `DisplayedAppend` and `AllMetadataHidden` state its meaning |
| Display.DisplayedMembers | awslog.py:387-388 | the printer draws exactly the events whose message is not metadata |
| Display.DisplayedAppend | awslog.py:381-388 | skipping metadata works event by event, so it distributes over concatenation |
| Display.AllMetadataHidden | awslog.py:387-388 | when every message is metadata, nothing is drawn |
| Display.RepeatBlanks | awslog.py:351-357 | Python's string repetition of `n` blanks `k` times gives `n·k` blanks, and none when `k` is negative |
| Display.BuildIndicatorString | awslog.py:336-360 | defined as the three tagged runs, with each repetition written as the source evaluates it. `IndicatorLayout` and `IndicatorAlignment` state its layout |
| Display.IndicatorLayout | awslog.py:336-360 | the indicator is `index·width` default blanks, `width` coloured blanks and `(max_index − index − 1)·width` default blanks. Each tag is in place, and each negative count gives no blanks |
| Display.IndicatorAlignment | awslog.py:336-360 | for a group inside its set, the block starts at column `index·width`, and the whole strip is `max_index·width` columns wide for every index |
| Display.SecondOfThree | awslog.py:336-360 | the second group of three, at the width `print_logs` uses (2), draws two default blanks, two coloured blanks and two default blanks, each run between its tags |
| Tail.Tagged | awslog.py:214-215 | defined as the fetched events, each with its group's name set. `TaggedMembers` states its meaning |
| Tail.Gathered | awslog.py:205-217 | defined as each group's tagged events, one group after another in set order. `GatheredMembers` states its meaning |
| Tail.Merged | awslog.py:197-219 | defined as a single group's fetch, or the stable sort of a set's gathered events. `MergedLogSet` and `ShownSorted` state its meaning |
| Tail.NewerThan | awslog.py:221 | defined as the events strictly newer than the watermark, in order. `NewerThanMembers`, `NewerThanAppend` and `NewerThanSorted` state its meaning |
| Tail.Advance | awslog.py:227-229 | defined as the newest shown timestamp, or the old watermark when nothing was shown. `AdvanceBounds` states its meaning |
| Tail.MaxTimestamp | awslog.py:227-229 | `max` over the timestamps is attained by some event and bounds all of them |
| Tail.TailStep | awslog.py:196-229 | one round fetches from the watermark and, for a set, tags, concatenates and stably sorts the groups. It keeps the events strictly newer than the watermark, and the new watermark is their newest timestamp, or the old one when there are none |
| Tail.NewerThanMembers | awslog.py:221 | an event is kept exactly when it was fetched and is strictly newer than the watermark |
| Tail.NewerThanSorted | awslog.py:221 | the watermark filter keeps a sorted sequence sorted |
| Tail.NewerThanAppend | awslog.py:221 | the filter works event by event, so it keeps the input order: it distributes over concatenation |
| Tail.AdvanceBounds | awslog.py:227-229 | the watermark never moves back. Every shown event lies above the old watermark and at or below the new one. When something was shown, the new watermark is a shown timestamp strictly above the old one |
| Tail.MetadataStillAdvances | awslog.py:221-229 | a round whose new events are all metadata draws nothing, yet moves the watermark strictly past the old one |
| Tail.TailStepMeaning | awslog.py:196-229 | a round shows exactly the merged events newer than the watermark, each at or below the next watermark |
| Tail.ShownSorted | awslog.py:198-221 | the events of a round are in timestamp order: a set by the merge, and a single group because `fetch_logs` sorts. The single-group premise is what `Fetch.FetchLogs`'s ensures `SortedByTimestamp(events)` provides |
| Tail.TaggedMembers | awslog.py:214-215 | tagged events carry the group's name, and every fetched event appears tagged |
| Tail.GatheredMembers | awslog.py:205-217 | an event is in a set's gathered batch exactly when it is one of the set's groups' fetched events, tagged with that group |
| Tail.MergedLogSet | awslog.py:205-219 | a set's merge is a sorted permutation of all groups' tagged events. Ties keep the configured group order, and within a group the fetch order. Every merged event is tagged with a group of the set |
| Tail.InterleavedGroups | awslog.py:205-221 | tailing a set of groups A (events at 10 and 30) and B (20 and 25) from watermark 10: the merge is 10, 20, 25, 30 with each event tagged by its group, and the round shows 20, 25, 30, leaving out the event at the watermark |
| Tail.Tail | awslog.py:193-235 | the watermark starts at `since` converted to milliseconds. Each round starts at the previous round's new watermark and is exactly `TailStep` on that round's fetch results. Without keep-open there is exactly one round and no sleep. With keep-open, every round sleeps until the interrupt |
| Tail.RoundOf | awslog.py:196-235 | defined as one iteration: the events newer than the watermark of that round's merged fetch, the next watermark, and whether it sleeps. `TailStepMeaning` states what a round shows, and `Tail.Tail`'s `ValidTrace` ensures that every iteration of the loop is `RoundOf` at its own watermark |
| Tail.ValidTraceExtend | awslog.py:227-235 | a round that starts at the last round's new watermark and runs on its own round's fetch results extends a run of the loop |
| Tail.WatermarkMonotone | awslog.py:227-229 | across the rounds of the loop the watermark never decreases |
| Tail.NoEventShownTwice | awslog.py:196-235 | an event shown in one round is strictly older than every event shown in any later round, so no event is shown twice and the output is in timestamp order across rounds |

## Left out

- Fractional values: `float(value)` accepts `1.5h`, and `Duration.ParseDurationMeaning` treats that pair as an invalid value. The model reads values as natural numbers only, to avoid floating-point rounding.
- Duration.ParseDuration: `datetime.timedelta` raises `OverflowError` for a total beyond 999999999 days (for example `1000000000d`), where the model returns the total; so `ParseDurationMeaning`'s "succeeds exactly when" omits that failure. `string_to_timestamp` gives 0 either way, the model through its datetime range check.
- Duration.DurationFromStr: the total is exact nanoseconds. The source's float arithmetic and `timedelta`'s rounding to microseconds are not modelled.
- Non-ASCII digits: the model's value characters are ASCII digits and `.`, so it does not model the other Unicode digits `\d` also matches.
- Clock reads: `datetime.now`, `time.time` and `time.sleep` are parameters or a flag on each round. Wall-clock time is not modelled.
- Backend calls: `boto3`, `filter_log_events`, `describe_log_groups` and `describe_log_streams` become lists of pages or functions. The answers of `fetch_log_stream_names`, one per request, are an input of `Fetch.FetchLogs`.
- Failures: backend errors and other exceptions are not modelled as they propagate. `Fetch.FetchLogs` requires that some page ends the pagination, since otherwise the source loops forever.
- Rendering: `print_logs`, `print_divider`, colour names, console widths, line wrapping and timestamp formatting are rich/console output. Only the metadata skip and the indicator string are modelled.
- Candidate list: the listing that `find_log_group` prints before prompting is not modelled.
- `load_config`: JSON file reading is I/O. The configuration is a typed map from set name to entries, so a missing `log_groups` or `name` key is not represented.
- Resolver.LogGroupIndex: `get_log_group_index` raises `KeyError` for an unknown set, while the model returns `LogSetNotFound`.
- Interrupts and exits: argparse, `handle`, `sys.exit`, the interrupt handler and exit codes are process plumbing. The interrupt is the bound on the number of rounds.
- Event dicts: `log["log_group_name"] = ...` updates the fetched dicts in place. The model builds tagged copies, so aliasing between the fetched list and the merged list is not captured.
