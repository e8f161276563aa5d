/**
 * Resolving the identifier on the command line to the log groups to tail
 * (awslog.py, `find_log_group`, `get_log_group_names_from_log_set`,
 * `get_log_group_index` and the first lines of `tail`).  The catalogue that
 * `describe_log_groups` pages through is a list of pages of group names; the
 * operator's answer to the prompt is `Some(n)` when `int()` accepts it and
 * `None` when it raises.
 */
module Resolver {
  import opened Wrappers
  import opened Seqs
  import opened Strings

  datatype ResolveError =
    | NoLogGroupMatch(identifier: string) // no catalogue name contains the identifier
    | InvalidChoice                       // the answer is not an integer, or out of range
    | LogSetNotFound(logSet: string)      // the log set is not in the configuration
    | NotInLogSet(logGroup: string)       // `list.index` found no such group in the set

  /** One entry of a log set's "log_groups" list in the configuration file. */
  datatype LogGroupEntry = LogGroupEntry(name: string, alias: string)

  /** The loaded configuration: log-set name to its groups, in configured order. */
  type Config = map<string, seq<LogGroupEntry>>

  /** What `tail` fetches from: one log group, or every group of a log set. */
  datatype Target = Single(name: string) | LogSet(names: seq<string>)

  // ---------------------------------------------------------------------------
  // Substring search over the catalogue.

  /** The catalogue names that contain `identifier`, in catalogue order. */
  function Candidates(groups: seq<string>, identifier: string): seq<string>
  {
    if groups == [] then []
    else Candidates(groups[..|groups| - 1], identifier)
         + (if Contains(groups[|groups| - 1], identifier) then [groups[|groups| - 1]] else [])
  }

  /** A name is a candidate exactly when it is listed and contains the identifier. */
  lemma {:induction false} CandidatesMembers(groups: seq<string>, identifier: string, x: string)
    ensures x in Candidates(groups, identifier) <==> x in groups && Contains(x, identifier)
  {
    if groups != [] {
      var init := groups[..|groups| - 1];
      CandidatesMembers(init, identifier, x);
      assert groups == init + [groups[|groups| - 1]];
    }
  }

  /** Filtering one page after another gives the filter of the whole catalogue, so order is kept. */
  lemma {:induction false} CandidatesAppend(a: seq<string>, b: seq<string>, identifier: string)
    ensures Candidates(a + b, identifier) == Candidates(a, identifier) + Candidates(b, identifier)
  {
    if b == [] {
      assert a + b == a;
    } else {
      var b' := b[..|b| - 1];
      assert (a + b)[..|a + b| - 1] == a + b';
      assert (a + b)[|a + b| - 1] == b[|b| - 1];
      CandidatesAppend(a, b', identifier);
    }
  }

  /** The empty identifier is contained in every name, so every group is a candidate. */
  lemma {:induction false} EmptyIdentifierKeepsAll(groups: seq<string>)
    ensures Candidates(groups, "") == groups
  {
    if groups != [] {
      EmptyIdentifierKeepsAll(groups[..|groups| - 1]);
      assert StartsWith(groups[|groups| - 1], "");
    }
  }

  /** The operator's choice is usable: an integer that indexes the enumerated candidates. */
  predicate ValidChoice(choice: Option<int>, count: nat)
  {
    choice.Some? && 0 <= choice.value < count
  }

  /**
   * `find_log_group`: gather every page of the catalogue, keep the names that
   * contain `identifier`, and decide: none is an error, one is the answer
   * without asking, several need a valid choice.
   */
  method FindLogGroup(pages: seq<seq<string>>, identifier: string, choice: Option<int>)
    returns (r: Result<string, ResolveError>)
    ensures var c := Candidates(Concat(pages), identifier);
      && (|c| == 0 ==> r == Err(NoLogGroupMatch(identifier)))
      && (|c| == 1 ==> r == Ok(c[0]))
      && (|c| > 1 && ValidChoice(choice, |c|) ==> r == Ok(c[choice.value]))
      && (|c| > 1 && !ValidChoice(choice, |c|) ==> r == Err(InvalidChoice))
    ensures r.Ok? ==> r.value in Concat(pages) && Contains(r.value, identifier)
  {
    var logGroups: seq<string> := [];
    for i := 0 to |pages|
      invariant logGroups == Concat(pages[..i])
    {
      logGroups := logGroups + pages[i];
      assert pages[..i + 1][..i] == pages[..i];
    }
    assert pages[..|pages|] == pages;

    var candidates: seq<string> := [];
    for i := 0 to |logGroups|
      invariant candidates == Candidates(logGroups[..i], identifier)
    {
      assert logGroups[..i + 1][..i] == logGroups[..i];
      if Contains(logGroups[i], identifier) {
        candidates := candidates + [logGroups[i]];
      }
    }
    assert logGroups[..|logGroups|] == logGroups;

    if |candidates| == 0 {
      return Err(NoLogGroupMatch(identifier));
    } else if |candidates| == 1 {
      r := Ok(candidates[0]);
    } else if choice.None? || choice.value < 0 || choice.value >= |candidates| {
      return Err(InvalidChoice);
    } else {
      r := Ok(candidates[choice.value]);
    }
    CandidatesMembers(logGroups, identifier, r.value);
  }

  // ---------------------------------------------------------------------------
  // Log sets from the configuration.

  /** The names of the entries, in order. */
  function Names(entries: seq<LogGroupEntry>): (r: seq<string>)
    ensures |r| == |entries|
    ensures forall i :: 0 <= i < |entries| ==> r[i] == entries[i].name
  {
    if entries == [] then [] else [entries[0].name] + Names(entries[1..])
  }

  /** `get_log_group_names_from_log_set`: the set's group names, or an error for an unknown set. */
  function LogGroupNamesFromLogSet(config: Config, logSet: string): (r: Result<seq<string>, ResolveError>)
    ensures r.Ok? <==> logSet in config
    ensures r.Err? ==> r.error == LogSetNotFound(logSet)
    ensures r.Ok? ==>
      && |r.value| == |config[logSet]|
      && forall i :: 0 <= i < |r.value| ==> r.value[i] == config[logSet][i].name
  {
    if logSet !in config then Err(LogSetNotFound(logSet)) else Ok(Names(config[logSet]))
  }

  /** `list.index`: the first position of `x`. */
  function IndexOf(s: seq<string>, x: string): (i: nat)
    requires x in s
    ensures i < |s| && s[i] == x
    ensures forall j :: 0 <= j < i ==> s[j] != x
  {
    if s[0] == x then 0 else IndexOf(s[1..], x) + 1
  }

  /** `get_log_group_index`: where the group sits in the set, and how many groups the set has. */
  function LogGroupIndex(config: Config, logSet: string, logGroup: string): (r: Result<(nat, nat), ResolveError>)
    ensures r.Ok? ==>
      && logSet in config
      && r.value.0 < r.value.1 == |config[logSet]|
      && config[logSet][r.value.0].name == logGroup
      && forall j :: 0 <= j < r.value.0 ==> config[logSet][j].name != logGroup
    ensures logSet in config ==>
      (r.Ok? <==> exists j :: 0 <= j < |config[logSet]| && config[logSet][j].name == logGroup)
    ensures r.Err? && logSet in config ==> r.error == NotInLogSet(logGroup)
    ensures logSet !in config ==> r == Err(LogSetNotFound(logSet))
  {
    if logSet !in config then Err(LogSetNotFound(logSet))
    else
      var names := Names(config[logSet]);
      if logGroup !in names then Err(NotInLogSet(logGroup))
      else Ok((IndexOf(names, logGroup), |names|))
  }

  /** Names of a log set are unique (the configuration's invariant). */
  predicate UniqueNames(names: seq<string>)
  {
    forall i, j :: 0 <= i < j < |names| ==> names[i] != names[j]
  }

  /**
   * Looking up the index of each name the set lists gives back its position and
   * the size of the set; names outside the set, and unknown sets, are errors.
   */
  lemma LogGroupIndexOfListed(config: Config, logSet: string, i: nat)
    requires logSet in config && i < |config[logSet]|
    requires UniqueNames(Names(config[logSet]))
    ensures LogGroupNamesFromLogSet(config, logSet).Ok?
    ensures var names := LogGroupNamesFromLogSet(config, logSet).value;
      LogGroupIndex(config, logSet, names[i]) == Ok((i, |config[logSet]|))
  {
    var names := Names(config[logSet]);
    var k := IndexOf(names, names[i]);
    assert k == i;
  }

  lemma LogGroupIndexErrors(config: Config, logSet: string, logGroup: string)
    ensures logSet !in config ==>
      LogGroupNamesFromLogSet(config, logSet) == Err(LogSetNotFound(logSet)) &&
      LogGroupIndex(config, logSet, logGroup) == Err(LogSetNotFound(logSet))
    ensures logSet in config && (forall e :: e in config[logSet] ==> e.name != logGroup) ==>
      LogGroupIndex(config, logSet, logGroup) == Err(NotInLogSet(logGroup))
  {
    if logSet in config && (forall e :: e in config[logSet] ==> e.name != logGroup) {
      var names := Names(config[logSet]);
      forall i | 0 <= i < |names| ensures names[i] != logGroup {
        assert config[logSet][i] in config[logSet];
      }
    }
  }

  // ---------------------------------------------------------------------------
  // The start of `tail`.

  /**
   * Choose the target from the flags: with `useSet` the identifier names a log
   * set (whatever `exact` says); otherwise with `exact` it is the group itself,
   * and without it the catalogue is searched.
   */
  method ResolveTarget(
    identifier: string, exact: bool, useSet: bool, config: Config,
    pages: seq<seq<string>>, choice: Option<int>)
    returns (r: Result<Target, ResolveError>)
    ensures useSet ==>
      r == (if identifier in config then Ok(LogSet(Names(config[identifier]))) else Err(LogSetNotFound(identifier)))
    ensures !useSet && exact ==> r == Ok(Single(identifier))
    ensures !useSet && !exact ==> var c := Candidates(Concat(pages), identifier);
      && (|c| == 0 ==> r == Err(NoLogGroupMatch(identifier)))
      && (|c| == 1 ==> r == Ok(Single(c[0])))
      && (|c| > 1 && ValidChoice(choice, |c|) ==> r == Ok(Single(c[choice.value])))
      && (|c| > 1 && !ValidChoice(choice, |c|) ==> r == Err(InvalidChoice))
  {
    if exact && !useSet {
      r := Ok(Single(identifier));
    } else if !exact && !useSet {
      var found := FindLogGroup(pages, identifier, choice);
      r := match found
        case Ok(name) => Ok(Single(name))
        case Err(e) => Err(e);
    } else {
      var names := LogGroupNamesFromLogSet(config, identifier);
      r := match names
        case Ok(ns) => Ok(LogSet(ns))
        case Err(e) => Err(e);
    }
  }

  /** Three groups contain "api": a choice of 1 picks the second of them in catalogue order. */
  lemma ThreeCandidates()
    ensures Candidates(["api-prod", "web", "api-dev", "api-test"], "api") == ["api-prod", "api-dev", "api-test"]
  {
    var g := ["api-prod", "web", "api-dev", "api-test"];
    assert "api-prod"[..3] == "api" && "api-dev"[..3] == "api" && "api-test"[..3] == "api";
    assert StartsWith("api-prod", "api") && StartsWith("api-dev", "api") && StartsWith("api-test", "api");
    assert !Contains("web", "api") by {
      assert "web"[..3][0] == 'w';
      assert "web"[1..] == "eb";
      ShortNeverContains("eb", "api");
    }
    assert g[..3] == ["api-prod", "web", "api-dev"];
    assert g[..3][..2] == ["api-prod", "web"];
    assert g[..3][..2][..1] == ["api-prod"];
    assert g[..3][..2][..1][..0] == [];
    assert Candidates(["api-prod"], "api") == ["api-prod"];
    assert Candidates(["api-prod", "web"], "api") == ["api-prod"];
    assert Candidates(["api-prod", "web", "api-dev"], "api") == ["api-prod", "api-dev"];
  }

  /**
   * The prompt over those three candidates: choice 1 returns the second of
   * them, and choice 5 is out of range.
   */
  method ThreeCandidatesChoices() returns (second: Result<string, ResolveError>, outOfRange: Result<string, ResolveError>)
    ensures second == Ok("api-dev")
    ensures outOfRange == Err(InvalidChoice)
  {
    var g := ["api-prod", "web", "api-dev", "api-test"];
    ThreeCandidates();
    assert Concat([g]) == g by {
      assert [g][..0] == [];
    }
    second := FindLogGroup([g], "api", Some(1));
    outOfRange := FindLogGroup([g], "api", Some(5));
  }
}
