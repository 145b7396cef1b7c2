/**
 * `HotUpdatePlugin`: the list of update candidates kept between commands,
 * the `/update list` command that replaces it, and the `/update up`
 * command that installs the candidates an operator picks by number.
 */
module HotUpdate {
  import opened Wrappers
  import opened PyStr
  import opened PyInt
  import opened Versions
  import opened RepoUrl
  import opened UpdateCheck

  /** The messages `/update list` sends, in order. */
  datatype ListReply =
    | NoPlugins                              // the host reports no loaded plugin
    | Checking                               // "checking for updates, please wait"
    | NoGithubPlugins                        // no plugin gives a GitHub repository URL
    | AllUpToDate                            // every checked plugin is current
    | Updatable(candidates: seq<Candidate>)  // numbered from 1 in this order

  /** One line of the `/update up` report. */
  datatype UpMessage =
    | OutOfRange(index: int, count: nat)        // the index is not in 1..count
    | NoRepo(name: string)                      // the candidate has no repository URL
    | Updating(name: string, version: string)   // an install is about to be attempted
    | NoCapability                              // the plugin manager has no `install_plugin`
    | Updated(name: string, version: string)    // the install succeeded
    | Failed(name: string, error: string)       // the install raised, with its message

  /** The answer to `/update up`. */
  datatype UpReply =
    | NoCandidates                      // no list to pick from: run `/update list` first
    | InvalidIndices                    // no indices, or one that `int()` refuses
    | Report(messages: seq<UpMessage>)  // one block of lines per index

  /** What one call of the host's `install_plugin` does. */
  datatype InstallOutcome = Installed | InstallError(message: string)

  /** The report lines and the install calls produced so far. */
  datatype Progress = Progress(messages: seq<UpMessage>, calls: seq<string>)

  /** The records `list` checks: a non-empty repository URL that contains "github.com". */
  predicate HasGithubUrl(p: PluginRecord) {
    p.repoUrl != "" && Contains(p.repoUrl, "github.com")
  }

  /** The records `list` sends to `_check_plugin_update`, in host order. */
  function GithubRecords(stars: seq<PluginRecord>): seq<PluginRecord> {
    if stars == [] then []
    else
      var last := stars[|stars| - 1];
      GithubRecords(stars[..|stars| - 1]) + if HasGithubUrl(last) then [last] else []
  }

  /** `asyncio.gather` over the checks: one result per record, in record order. */
  function CheckAll(tasks: seq<PluginRecord>, release: string -> FetchOutcome): seq<Option<Candidate>> {
    if tasks == [] then []
    else CheckAll(tasks[..|tasks| - 1], release) + [UpdateCandidate(tasks[|tasks| - 1], release)]
  }

  /** One result per record, each the check of the record at the same position. */
  lemma {:induction false} CheckAllAt(tasks: seq<PluginRecord>, release: string -> FetchOutcome)
    ensures |CheckAll(tasks, release)| == |tasks|
    ensures forall k | 0 <= k < |tasks| :: CheckAll(tasks, release)[k] == UpdateCandidate(tasks[k], release)
  {
    if tasks != [] {
      var init := tasks[..|tasks| - 1];
      CheckAllAt(init, release);
      forall k | 0 <= k < |tasks| - 1 ensures CheckAll(tasks, release)[k] == UpdateCandidate(tasks[k], release) {
        assert init[k] == tasks[k];
      }
    }
  }

  /** The checks of two runs of records follow one another. */
  lemma {:induction false} CheckAllAppend(a: seq<PluginRecord>, b: seq<PluginRecord>, release: string -> FetchOutcome)
    ensures CheckAll(a + b, release) == CheckAll(a, release) + CheckAll(b, release)
    decreases |b|
  {
    if b == [] {
      assert a + b == a;
    } else {
      var b' := b[..|b| - 1];
      assert (a + b)[..|a + b| - 1] == a + b';
      CheckAllAppend(a, b', release);
    }
  }

  /** The results that are not `None`, in order. */
  function Somes(results: seq<Option<Candidate>>): seq<Candidate> {
    if results == [] then []
    else
      var last := results[|results| - 1];
      Somes(results[..|results| - 1]) + if last.Some? then [last.value] else []
  }

  /** What `updatable_plugins` holds after `/update list`. */
  function Candidates(stars: seq<PluginRecord>, release: string -> FetchOutcome): seq<Candidate> {
    Somes(CheckAll(GithubRecords(stars), release))
  }

  /** The messages of `/update list`. */
  function ListReplies(stars: seq<PluginRecord>, release: string -> FetchOutcome): seq<ListReply> {
    if stars == [] then [NoPlugins]
    else if GithubRecords(stars) == [] then [Checking, NoGithubPlugins]
    else if Candidates(stars, release) == [] then [Checking, AllUpToDate]
    else [Checking, Updatable(Candidates(stars, release))]
  }

  /**
   * `[int(i.strip()) for i in s.split()]`, refused when it is empty. The
   * `strip()` is left out: it leaves every token of `split()` as it is
   * (`TokensStripped`).
   */
  function ParseIndices(s: string): Option<seq<int>> {
    var tokens := Words(s);
    if tokens == [] then None else ParseAll(tokens)
  }

  /**
   * The lines and install calls for one index of `/update up`, after
   * `done`; `install` answers the call numbered `|done.calls|`.
   */
  function Step(list: seq<Candidate>, index: int, hasInstall: bool,
                install: (nat, string) -> InstallOutcome, done: Progress): Progress
  {
    if !(1 <= index <= |list|) then
      Progress(done.messages + [OutOfRange(index, |list|)], done.calls)
    else
      var c := list[index - 1];
      var name, url := c.record.name, c.record.repoUrl;
      if url == "" then
        Progress(done.messages + [NoRepo(name)], done.calls)
      else if !hasInstall then
        Progress(done.messages + [Updating(name, c.latest), NoCapability], done.calls)
      else
        match install(|done.calls|, url)
        case Installed =>
          Progress(done.messages + [Updating(name, c.latest), Updated(name, c.latest)], done.calls + [url])
        case InstallError(e) =>
          Progress(done.messages + [Updating(name, c.latest), Failed(name, e)], done.calls + [url])
  }

  /** The indices of `/update up` handled one after the other. */
  function Process(list: seq<Candidate>, indices: seq<int>, hasInstall: bool,
                   install: (nat, string) -> InstallOutcome): Progress
  {
    if indices == [] then Progress([], [])
    else
      Step(list, indices[|indices| - 1], hasInstall, install,
           Process(list, indices[..|indices| - 1], hasInstall, install))
  }

  /** `/update up` against the stored list: the reply and the install calls made. */
  function UpOutcome(list: seq<Candidate>, s: string, hasInstall: bool,
                     install: (nat, string) -> InstallOutcome): (UpReply, seq<string>)
  {
    if list == [] then (NoCandidates, [])
    else
      match ParseIndices(s)
      case None => (InvalidIndices, [])
      case Some(indices) =>
        var done := Process(list, indices, hasInstall, install);
        (Report(done.messages), done.calls)
  }

  /** Every candidate is a GitHub record whose stored version is newer than its own. */
  ghost predicate AllNewer(cands: seq<Candidate>) {
    forall k | 0 <= k < |cands| ::
      && HasGithubUrl(cands[k].record)
      && IsNewer(cands[k].record.version, cands[k].latest)
  }

  /**
   * `asyncio.gather` over the checks of `tasks`: each check is run and its
   * result kept at its task's position.
   */
  method GatherChecks(tasks: seq<PluginRecord>, release: string -> FetchOutcome)
    returns (results: seq<Option<Candidate>>)
    ensures results == CheckAll(tasks, release)
  {
    results := [];
    for i := 0 to |tasks|
      invariant results == CheckAll(tasks[..i], release)
    {
      assert tasks[..i + 1][..i] == tasks[..i];
      var result := CheckPluginUpdate(tasks[i], release);
      results := results + [result];
    }
    assert tasks[..|tasks|] == tasks;
  }

  /**
   * The loop of `/update up` over the parsed indices: the report lines and
   * the install calls, one index after the other.
   */
  method ReportLines(list: seq<Candidate>, indices: seq<int>, hasInstall: bool,
                     install: (nat, string) -> InstallOutcome)
    returns (messages: seq<UpMessage>, calls: seq<string>)
    ensures Progress(messages, calls) == Process(list, indices, hasInstall, install)
  {
      messages := [];
      calls := [];
      for j := 0 to |indices|
        invariant Progress(messages, calls) == Process(list, indices[..j], hasInstall, install)
      {
        assert indices[..j + 1][..j] == indices[..j];
        var index := indices[j];
        assert Process(list, indices[..j + 1], hasInstall, install)
          == Step(list, index, hasInstall, install, Progress(messages, calls));
        if !(1 <= index <= |list|) {
          messages := messages + [OutOfRange(index, |list|)];
          continue;
        }
        var candidate := list[index - 1];
        var name, url := candidate.record.name, candidate.record.repoUrl;
        if url == "" {
          messages := messages + [NoRepo(name)];
          continue;
        }
        messages := messages + [Updating(name, candidate.latest)];
        if !hasInstall {
          messages := messages + [NoCapability];
          continue;
        }
        var outcome := install(|calls|, url);
        calls := calls + [url];
        match outcome {
          case Installed =>
            messages := messages + [Updated(name, candidate.latest)];
          case InstallError(e) =>
            messages := messages + [Failed(name, e)];
        }
      }
      assert indices[..|indices|] == indices;
  }

  class HotUpdatePlugin {
    /** `updatable_plugins`: the candidates of the last `/update list`. */
    var updatablePlugins: seq<Candidate>

    /** Every stored candidate is a GitHub record whose stripped tag is a newer version. */
    ghost predicate Valid()
      reads this
    {
      AllNewer(updatablePlugins)
    }

    constructor ()
      ensures updatablePlugins == [] && Valid()
    {
      updatablePlugins := [];
    }

    /**
     * `/update list`: the stored list is replaced by the candidates of the
     * GitHub records, in host order, whatever it held before.
     */
    method ListUpdatablePlugins(stars: seq<PluginRecord>, release: string -> FetchOutcome)
      returns (replies: seq<ListReply>)
      modifies this
      ensures updatablePlugins == Candidates(stars, release)
      ensures replies == ListReplies(stars, release)
      ensures Valid()
    {
      updatablePlugins := [];
      if |stars| == 0 {
        return [NoPlugins];
      }
      replies := [Checking];
      var tasks: seq<PluginRecord> := [];
      for i := 0 to |stars|
        invariant tasks == GithubRecords(stars[..i])
        invariant updatablePlugins == []
      {
        assert stars[..i + 1][..i] == stars[..i];
        if stars[i].repoUrl != "" && Contains(stars[i].repoUrl, "github.com") {
          tasks := tasks + [stars[i]];
        }
      }
      assert stars[..|stars|] == stars;
      if |tasks| == 0 {
        return replies + [NoGithubPlugins];
      }
      var results := GatherChecks(tasks, release);
      var updatableCount := 0;
      assert results[..0] == [];
      for i := 0 to |results|
        invariant updatablePlugins == Somes(results[..i])
        invariant updatableCount == |updatablePlugins|
      {
        assert results[..i + 1][..i] == results[..i];
        if results[i].Some? {
          updatablePlugins := updatablePlugins + [results[i].value];
          updatableCount := updatableCount + 1;
        }
      }
      assert results[..|results|] == results;
      CandidatesValid(stars, release);
      if updatableCount > 0 {
        replies := replies + [Updatable(updatablePlugins)];
      } else {
        replies := replies + [AllUpToDate];
      }
    }

    /**
     * `/update up`: answers from the stored list without changing it,
     * one block of lines per index, calling `install` for each valid one.
     */
    method UpdatePluginCommand(indicesStr: string, hasInstall: bool,
                               install: (nat, string) -> InstallOutcome)
      returns (reply: UpReply, calls: seq<string>)
      ensures (reply, calls) == UpOutcome(updatablePlugins, indicesStr, hasInstall, install)
      ensures Valid() && reply.Report? ==> forall k | 0 <= k < |reply.messages| :: !reply.messages[k].NoRepo?
    {
      if |updatablePlugins| == 0 {
        return NoCandidates, [];
      }
      var parsed := ParseIndices(indicesStr);
      if parsed.None? {
        return InvalidIndices, [];
      }
      var messages;
      messages, calls := ReportLines(updatablePlugins, parsed.value, hasInstall, install);
      reply := Report(messages);
      if Valid() {
        NoRepoWhenValid(updatablePlugins, parsed.value, hasInstall, install);
      }
    }
  }

  /** The filter keeps exactly the GitHub records, in order: it distributes over concatenation. */
  lemma {:induction false} GithubRecordsAppend(a: seq<PluginRecord>, b: seq<PluginRecord>)
    ensures GithubRecords(a + b) == GithubRecords(a) + GithubRecords(b)
    decreases |b|
  {
    if b == [] {
      assert a + b == a;
    } else {
      var b' := b[..|b| - 1];
      assert (a + b)[..|a + b| - 1] == a + b';
      GithubRecordsAppend(a, b');
    }
  }

  /** Every record the filter keeps is a host record with a GitHub URL. */
  lemma {:induction false} GithubRecordsSound(stars: seq<PluginRecord>)
    ensures forall k | 0 <= k < |GithubRecords(stars)| ::
      GithubRecords(stars)[k] in stars && HasGithubUrl(GithubRecords(stars)[k])
  {
    if stars != [] {
      var init := stars[..|stars| - 1];
      GithubRecordsSound(init);
      assert forall p | p in init :: p in stars;
    }
  }

  /** Every host record with a GitHub URL is kept. */
  lemma {:induction false} GithubRecordsComplete(stars: seq<PluginRecord>, j: nat)
    requires j < |stars| && HasGithubUrl(stars[j])
    ensures stars[j] in GithubRecords(stars)
  {
    var init := stars[..|stars| - 1];
    if j < |stars| - 1 {
      assert init[j] == stars[j];
      GithubRecordsComplete(init, j);
    }
  }

  /** `Somes` distributes over concatenation: the order of the results is kept. */
  lemma {:induction false} SomesAppend(a: seq<Option<Candidate>>, b: seq<Option<Candidate>>)
    ensures Somes(a + b) == Somes(a) + Somes(b)
    decreases |b|
  {
    if b == [] {
      assert a + b == a;
    } else {
      var b' := b[..|b| - 1];
      assert (a + b)[..|a + b| - 1] == a + b';
      SomesAppend(a, b');
    }
  }

  /** Every kept value is the value of some result. */
  lemma {:induction false} SomesSound(results: seq<Option<Candidate>>)
    ensures forall k | 0 <= k < |Somes(results)| :: Some(Somes(results)[k]) in results
  {
    if results != [] {
      var init := results[..|results| - 1];
      SomesSound(init);
      assert forall r | r in init :: r in results;
    }
  }

  /** Every `Some` result is kept. */
  lemma {:induction false} SomesComplete(results: seq<Option<Candidate>>, j: nat)
    requires j < |results| && results[j].Some?
    ensures results[j].value in Somes(results)
  {
    var init := results[..|results| - 1];
    if j < |results| - 1 {
      assert init[j] == results[j];
      SomesComplete(init, j);
    }
  }

  /**
   * Every stored candidate comes from a GitHub record of the host and is
   * that record's check result, with a newer version.
   */
  lemma CandidatesSound(stars: seq<PluginRecord>, release: string -> FetchOutcome)
    ensures forall k | 0 <= k < |Candidates(stars, release)| ::
      var c := Candidates(stars, release)[k];
      && c.record in stars
      && HasGithubUrl(c.record)
      && UpdateCandidate(c.record, release) == Some(c)
      && IsNewer(c.record.version, c.latest)
  {
    var tasks := GithubRecords(stars);
    var results := CheckAll(tasks, release);
    GithubRecordsSound(stars);
    CheckAllAt(tasks, release);
    SomesSound(results);
    forall k | 0 <= k < |Candidates(stars, release)|
      ensures var c := Candidates(stars, release)[k];
        && c.record in stars && HasGithubUrl(c.record)
        && UpdateCandidate(c.record, release) == Some(c)
        && IsNewer(c.record.version, c.latest)
    {
      var c := Candidates(stars, release)[k];
      var j :| 0 <= j < |results| && results[j] == Some(c);
      CandidateIffNewer(tasks[j], release);
      assert c.record == tasks[j];
    }
  }

  /** What `/update list` stores keeps the class invariant. */
  lemma CandidatesValid(stars: seq<PluginRecord>, release: string -> FetchOutcome)
    ensures AllNewer(Candidates(stars, release))
  {
    CandidatesSound(stars, release);
  }

  /** Every GitHub record that the check finds newer is in the list. */
  lemma CandidatesComplete(stars: seq<PluginRecord>, release: string -> FetchOutcome, j: nat)
    requires j < |stars| && HasGithubUrl(stars[j])
    requires UpdateCandidate(stars[j], release).Some?
    ensures UpdateCandidate(stars[j], release).value in Candidates(stars, release)
  {
    var tasks := GithubRecords(stars);
    GithubRecordsComplete(stars, j);
    var t :| 0 <= t < |tasks| && tasks[t] == stars[j];
    CheckAllAt(tasks, release);
    SomesComplete(CheckAll(tasks, release), t);
  }

  /** A single host record is checked once when its URL is a GitHub one, and otherwise not at all. */
  lemma GithubRecordsOne(p: PluginRecord)
    ensures GithubRecords([p]) == if HasGithubUrl(p) then [p] else []
  {
    assert [p][..0] == [];
  }

  /** A single result is kept once when it is a `Some`, and otherwise dropped. */
  lemma SomesOne(r: Option<Candidate>)
    ensures Somes([r]) == if r.Some? then [r.value] else []
  {
    assert [r][..0] == [];
  }

  /**
   * A single host record yields its own candidate once, when it has a
   * GitHub URL and its check finds a newer version, and nothing otherwise.
   * With `CandidatesAppend` this fixes the stored list for every host list:
   * each candidate once, in host order.
   */
  lemma CandidatesOne(p: PluginRecord, release: string -> FetchOutcome)
    ensures Candidates([p], release) ==
      if HasGithubUrl(p) && UpdateCandidate(p, release).Some? then [UpdateCandidate(p, release).value] else []
  {
    GithubRecordsOne(p);
    assert [p][..0] == [];
    assert CheckAll([p], release) == [UpdateCandidate(p, release)];
    SomesOne(UpdateCandidate(p, release));
  }

  /** The candidates of two runs of host records follow one another, in host order. */
  lemma CandidatesAppend(a: seq<PluginRecord>, b: seq<PluginRecord>, release: string -> FetchOutcome)
    ensures Candidates(a + b, release) == Candidates(a, release) + Candidates(b, release)
  {
    var ta, tb := GithubRecords(a), GithubRecords(b);
    GithubRecordsAppend(a, b);
    CheckAllAppend(ta, tb, release);
    SomesAppend(CheckAll(ta, release), CheckAll(tb, release));
  }

  /** No record is checked exactly when no host record has a GitHub URL. */
  lemma GithubRecordsEmpty(stars: seq<PluginRecord>)
    ensures GithubRecords(stars) == [] <==> forall k | 0 <= k < |stars| :: !HasGithubUrl(stars[k])
  {
    if exists k | 0 <= k < |stars| :: HasGithubUrl(stars[k]) {
      var k :| 0 <= k < |stars| && HasGithubUrl(stars[k]);
      GithubRecordsComplete(stars, k);
    } else if GithubRecords(stars) != [] {
      GithubRecordsSound(stars);
      assert GithubRecords(stars)[0] in stars;
    }
  }

  /** The list is empty exactly when no GitHub record of the host gets a candidate. */
  lemma CandidatesEmpty(stars: seq<PluginRecord>, release: string -> FetchOutcome)
    ensures Candidates(stars, release) == [] <==>
      forall k | 0 <= k < |stars| :: HasGithubUrl(stars[k]) ==> UpdateCandidate(stars[k], release).None?
  {
    if exists k | 0 <= k < |stars| :: HasGithubUrl(stars[k]) && UpdateCandidate(stars[k], release).Some? {
      var k :| 0 <= k < |stars| && HasGithubUrl(stars[k]) && UpdateCandidate(stars[k], release).Some?;
      CandidatesComplete(stars, release, k);
    }
    if Candidates(stars, release) != [] {
      CandidatesSound(stars, release);
      var c := Candidates(stars, release)[0];
      var k :| 0 <= k < |stars| && stars[k] == c.record;
      assert HasGithubUrl(stars[k]) && UpdateCandidate(stars[k], release).Some?;
    }
  }

  /** Which replies `/update list` sends, in terms of the host records and their checks. */
  lemma ListRepliesMeaning(stars: seq<PluginRecord>, release: string -> FetchOutcome)
    ensures ListReplies(stars, release) == [NoPlugins] <==> stars == []
    ensures ListReplies(stars, release) == [Checking, NoGithubPlugins] <==>
      stars != [] && forall k | 0 <= k < |stars| :: !HasGithubUrl(stars[k])
    ensures ListReplies(stars, release) == [Checking, AllUpToDate] <==>
      && (exists k | 0 <= k < |stars| :: HasGithubUrl(stars[k]))
      && forall k | 0 <= k < |stars| :: HasGithubUrl(stars[k]) ==> UpdateCandidate(stars[k], release).None?
    ensures ListReplies(stars, release) == [Checking, Updatable(Candidates(stars, release))] <==>
      exists k | 0 <= k < |stars| :: HasGithubUrl(stars[k]) && UpdateCandidate(stars[k], release).Some?
  {
    GithubRecordsEmpty(stars);
    CandidatesEmpty(stars, release);
    if GithubRecords(stars) == [] {
      assert Candidates(stars, release) == [];
    }
  }


  /** The repository URLs `/update up` installs from, one per in-range index whose candidate has a URL. */
  function TargetUrls(list: seq<Candidate>, indices: seq<int>): seq<string> {
    if indices == [] then []
    else
      var index := indices[|indices| - 1];
      TargetUrls(list, indices[..|indices| - 1]) +
        if 1 <= index <= |list| && list[index - 1].record.repoUrl != "" then [list[index - 1].record.repoUrl] else []
  }

  /** The indices that are not in `1..|list|`, in order. */
  function BadIndices(list: seq<Candidate>, indices: seq<int>): seq<int> {
    if indices == [] then []
    else
      var index := indices[|indices| - 1];
      BadIndices(list, indices[..|indices| - 1]) + if 1 <= index <= |list| then [] else [index]
  }

  /** The indices named by the `OutOfRange` lines of a report, in order. */
  function OutOfRangeIndices(messages: seq<UpMessage>): seq<int> {
    if messages == [] then []
    else
      var m := messages[|messages| - 1];
      OutOfRangeIndices(messages[..|messages| - 1]) + if m.OutOfRange? then [m.index] else []
  }

  /** Each line of the report is accounted for by the stored list and the manager's capability. */
  ghost predicate Explained(list: seq<Candidate>, hasInstall: bool, m: UpMessage) {
    match m
    case OutOfRange(index, count) => count == |list| && !(1 <= index <= count)
    case NoRepo(name) =>
      exists j | 0 <= j < |list| :: list[j].record.name == name && list[j].record.repoUrl == ""
    case Updating(name, version) =>
      exists j | 0 <= j < |list| ::
        list[j].record.name == name && list[j].latest == version && list[j].record.repoUrl != ""
    case NoCapability => !hasInstall
    case Updated(name, version) =>
      hasInstall && exists j | 0 <= j < |list| ::
        list[j].record.name == name && list[j].latest == version && list[j].record.repoUrl != ""
    case Failed(name, _) =>
      hasInstall && exists j | 0 <= j < |list| :: list[j].record.name == name && list[j].record.repoUrl != ""
  }

  lemma {:induction false} OutOfRangeIndicesAppend(a: seq<UpMessage>, b: seq<UpMessage>)
    ensures OutOfRangeIndices(a + b) == OutOfRangeIndices(a) + OutOfRangeIndices(b)
    decreases |b|
  {
    if b == [] {
      assert a + b == a;
    } else {
      var b' := b[..|b| - 1];
      assert (a + b)[..|a + b| - 1] == a + b';
      OutOfRangeIndicesAppend(a, b');
    }
  }

  /**
   * One index adds one or two lines after the earlier ones, and one
   * install call exactly when the index is in range, its candidate has a
   * URL and the manager can install.
   */
  lemma StepShape(list: seq<Candidate>, index: int, hasInstall: bool,
                  install: (nat, string) -> InstallOutcome, done: Progress)
    ensures var next := Step(list, index, hasInstall, install, done);
      && |done.messages| + 1 <= |next.messages| <= |done.messages| + 2
      && next.messages[..|done.messages|] == done.messages
      && next.calls == done.calls +
           if hasInstall && 1 <= index <= |list| && list[index - 1].record.repoUrl != ""
           then [list[index - 1].record.repoUrl] else []
  {
  }

  /** The lines one index adds are each explained, and name the index when it is out of range. */
  lemma StepLines(list: seq<Candidate>, index: int, hasInstall: bool,
                  install: (nat, string) -> InstallOutcome, done: Progress)
    ensures var next := Step(list, index, hasInstall, install, done);
      && |done.messages| <= |next.messages|
      && (forall k | |done.messages| <= k < |next.messages| :: Explained(list, hasInstall, next.messages[k]))
      && OutOfRangeIndices(next.messages[|done.messages|..]) == if 1 <= index <= |list| then [] else [index]
  {
    var next := Step(list, index, hasInstall, install, done);
    var added := next.messages[|done.messages|..];
    if 1 <= index <= |list| {
      var c := list[index - 1];
      var j := index - 1;
      if c.record.repoUrl == "" {
        assert added == [NoRepo(c.record.name)];
        assert Explained(list, hasInstall, added[0]) by {
          assert list[j].record.name == c.record.name && list[j].record.repoUrl == "";
        }
        assert added[..0] == [];
      } else {
        var second := next.messages[|next.messages| - 1];
        assert added == [Updating(c.record.name, c.latest), second];
        assert Explained(list, hasInstall, added[0]) by {
          assert list[j].record.name == c.record.name && list[j].latest == c.latest;
        }
        assert Explained(list, hasInstall, second) by {
          assert list[j].record.name == c.record.name && list[j].latest == c.latest;
        }
        assert !second.OutOfRange?;
        assert OutOfRangeIndices(added[..1]) == [] by {
          assert added[..1][..0] == [];
        }
        assert added[..|added| - 1] == added[..1];
      }
    } else {
      assert added == [OutOfRange(index, |list|)];
      assert added[..0] == [];
    }
  }

  /**
   * The lines one index adds: an out-of-range index names itself; an
   * in-range index `k` acts on entry `k - 1`, reports a missing URL, or
   * announces the update and then reports a missing `install_plugin`, or
   * the success or the error of the install call numbered `|done.calls|`.
   */
  lemma StepReport(list: seq<Candidate>, index: int, hasInstall: bool,
                   install: (nat, string) -> InstallOutcome, done: Progress)
    ensures var next := Step(list, index, hasInstall, install, done);
      && |done.messages| <= |next.messages|
      && var added := next.messages[|done.messages|..];
      && (!(1 <= index <= |list|) ==> added == [OutOfRange(index, |list|)])
      && (1 <= index <= |list| && list[index - 1].record.repoUrl == "" ==>
            added == [NoRepo(list[index - 1].record.name)])
      && (1 <= index <= |list| && list[index - 1].record.repoUrl != "" ==>
            var c := list[index - 1];
            var outcome := install(|done.calls|, c.record.repoUrl);
            && (!hasInstall ==> added == [Updating(c.record.name, c.latest), NoCapability])
            && (hasInstall && outcome == Installed ==>
                  added == [Updating(c.record.name, c.latest), Updated(c.record.name, c.latest)])
            && (hasInstall && outcome.InstallError? ==>
                  added == [Updating(c.record.name, c.latest), Failed(c.record.name, outcome.message)]))
  {
  }

  /** Handling the first `j` indices builds the start of the report and of the install calls. */
  lemma {:induction false} ProcessPrefix(list: seq<Candidate>, indices: seq<int>, j: nat, hasInstall: bool,
                                          install: (nat, string) -> InstallOutcome)
    requires j <= |indices|
    ensures var before := Process(list, indices[..j], hasInstall, install);
      var whole := Process(list, indices, hasInstall, install);
      && |before.messages| <= |whole.messages| && whole.messages[..|before.messages|] == before.messages
      && |before.calls| <= |whole.calls| && whole.calls[..|before.calls|] == before.calls
  {
    if j == |indices| {
      assert indices[..j] == indices;
    } else {
      var init := indices[..|indices| - 1];
      ProcessPrefix(list, init, j, hasInstall, install);
      assert init[..j] == indices[..j];
      var before := Process(list, indices[..j], hasInstall, install);
      var done := Process(list, init, hasInstall, install);
      var whole := Process(list, indices, hasInstall, install);
      StepShape(list, indices[|indices| - 1], hasInstall, install, done);
      assert whole.messages[..|before.messages|] == done.messages[..|before.messages|];
      assert whole.calls[..|done.calls|] == done.calls;
      assert whole.calls[..|before.calls|] == done.calls[..|before.calls|];
    }
  }

  /**
   * In the whole report, the lines of the index at position `j` start
   * where the lines of the indices before it end, and are the ones
   * `StepReport` names; its install call, if any, is call number
   * `|before.calls|`, made with the entry's URL.
   */
  lemma ProcessReport(list: seq<Candidate>, indices: seq<int>, j: nat, hasInstall: bool,
                      install: (nat, string) -> InstallOutcome)
    requires j < |indices|
    ensures var before := Process(list, indices[..j], hasInstall, install);
      ReportedAt(list, indices[j], hasInstall, install, before, Process(list, indices, hasInstall, install))
  {
    var before := Process(list, indices[..j], hasInstall, install);
    var next := Process(list, indices[..j + 1], hasInstall, install);
    assert indices[..j + 1][..j] == indices[..j];
    assert next == Step(list, indices[j], hasInstall, install, before);
    ProcessPrefix(list, indices, j + 1, hasInstall, install);
    StepInReport(list, indices[j], hasInstall, install, before, next, Process(list, indices, hasInstall, install));
  }

  /**
   * `whole` holds, from position `|before.messages|` on, the lines
   * `StepReport` names for `index`, and, from position `|before.calls|`
   * on, its install call.
   */
  ghost predicate ReportedAt(list: seq<Candidate>, index: int, hasInstall: bool,
                             install: (nat, string) -> InstallOutcome, before: Progress, whole: Progress)
  {
    var at := |before.messages|;
    && at < |whole.messages|
    && (!(1 <= index <= |list|) ==> whole.messages[at] == OutOfRange(index, |list|))
    && (1 <= index <= |list| && list[index - 1].record.repoUrl == "" ==>
          whole.messages[at] == NoRepo(list[index - 1].record.name))
    && (1 <= index <= |list| && list[index - 1].record.repoUrl != "" ==>
          var c := list[index - 1];
          var outcome := install(|before.calls|, c.record.repoUrl);
          && at + 1 < |whole.messages|
          && whole.messages[at] == Updating(c.record.name, c.latest)
          && (!hasInstall ==> whole.messages[at + 1] == NoCapability)
          && (hasInstall ==> |before.calls| < |whole.calls| && whole.calls[|before.calls|] == c.record.repoUrl)
          && (hasInstall && outcome == Installed ==> whole.messages[at + 1] == Updated(c.record.name, c.latest))
          && (hasInstall && outcome.InstallError? ==>
                whole.messages[at + 1] == Failed(c.record.name, outcome.message)))
  }

  /** A report that starts with the lines and calls of one more index holds them where `ReportedAt` says. */
  lemma StepInReport(list: seq<Candidate>, index: int, hasInstall: bool,
                     install: (nat, string) -> InstallOutcome, before: Progress, next: Progress, whole: Progress)
    requires next == Step(list, index, hasInstall, install, before)
    requires |next.messages| <= |whole.messages| && whole.messages[..|next.messages|] == next.messages
    requires |next.calls| <= |whole.calls| && whole.calls[..|next.calls|] == next.calls
    ensures ReportedAt(list, index, hasInstall, install, before, whole)
  {
    StepShape(list, index, hasInstall, install, before);
    StepReport(list, index, hasInstall, install, before);
    var at := |before.messages|;
    assert whole.messages[at] == next.messages[at..][0] by {
      assert whole.messages[..|next.messages|][at] == whole.messages[at];
    }
    if at + 1 < |next.messages| {
      assert whole.messages[at + 1] == next.messages[at..][1] by {
        assert whole.messages[..|next.messages|][at + 1] == whole.messages[at + 1];
      }
    }
    if |next.calls| > |before.calls| {
      assert whole.calls[|before.calls|] == next.calls[|before.calls|] by {
        assert whole.calls[..|next.calls|][|before.calls|] == whole.calls[|before.calls|];
      }
    }
  }

  /** Under the class invariant every entry has a URL, so no line reports a missing one. */
  lemma NoRepoWhenValid(list: seq<Candidate>, indices: seq<int>, hasInstall: bool,
                        install: (nat, string) -> InstallOutcome)
    requires AllNewer(list)
    ensures forall k | 0 <= k < |Process(list, indices, hasInstall, install).messages| ::
      !Process(list, indices, hasInstall, install).messages[k].NoRepo?
  {
    ProcessExplained(list, indices, hasInstall, install);
  }

  /** Each index of `/update up` produces one or two lines; at most one install call each. */
  lemma {:induction false} ProcessBounds(list: seq<Candidate>, indices: seq<int>, hasInstall: bool,
                                          install: (nat, string) -> InstallOutcome)
    ensures |indices| <= |Process(list, indices, hasInstall, install).messages| <= 2 * |indices|
    ensures |Process(list, indices, hasInstall, install).calls| <= |indices|
  {
    if indices != [] {
      var init := indices[..|indices| - 1];
      ProcessBounds(list, init, hasInstall, install);
      StepShape(list, indices[|indices| - 1], hasInstall, install, Process(list, init, hasInstall, install));
    }
  }

  /**
   * `install_plugin` is called with the URL of every in-range index whose
   * candidate has one, in input order and once per occurrence, and never
   * when the manager lacks the method.
   */
  lemma {:induction false} ProcessCalls(list: seq<Candidate>, indices: seq<int>, hasInstall: bool,
                                         install: (nat, string) -> InstallOutcome)
    ensures Process(list, indices, hasInstall, install).calls == if hasInstall then TargetUrls(list, indices) else []
  {
    if indices != [] {
      var init := indices[..|indices| - 1];
      ProcessCalls(list, init, hasInstall, install);
      StepShape(list, indices[|indices| - 1], hasInstall, install, Process(list, init, hasInstall, install));
    }
  }

  /** Every line of the report is explained by the stored list and the capability. */
  lemma {:induction false} ProcessExplained(list: seq<Candidate>, indices: seq<int>, hasInstall: bool,
                                             install: (nat, string) -> InstallOutcome)
    ensures forall k | 0 <= k < |Process(list, indices, hasInstall, install).messages| ::
      Explained(list, hasInstall, Process(list, indices, hasInstall, install).messages[k])
  {
    if indices != [] {
      var init := indices[..|indices| - 1];
      var done := Process(list, init, hasInstall, install);
      ProcessExplained(list, init, hasInstall, install);
      StepShape(list, indices[|indices| - 1], hasInstall, install, done);
      StepLines(list, indices[|indices| - 1], hasInstall, install, done);
      var next := Process(list, indices, hasInstall, install);
      forall k | 0 <= k < |done.messages| ensures next.messages[k] == done.messages[k] {
        assert next.messages[..|done.messages|][k] == next.messages[k];
      }
    }
  }

  /** Every out-of-range index gets exactly one `OutOfRange` line, in input order. */
  lemma {:induction false} ProcessOutOfRange(list: seq<Candidate>, indices: seq<int>, hasInstall: bool,
                                              install: (nat, string) -> InstallOutcome)
    ensures OutOfRangeIndices(Process(list, indices, hasInstall, install).messages) == BadIndices(list, indices)
  {
    if indices != [] {
      var init := indices[..|indices| - 1];
      var done := Process(list, init, hasInstall, install);
      var next := Process(list, indices, hasInstall, install);
      ProcessOutOfRange(list, init, hasInstall, install);
      StepShape(list, indices[|indices| - 1], hasInstall, install, done);
      StepLines(list, indices[|indices| - 1], hasInstall, install, done);
      assert next.messages == done.messages + next.messages[|done.messages|..];
      OutOfRangeIndicesAppend(done.messages, next.messages[|done.messages|..]);
    }
  }

  /**
   * `/update up` answers `NoCandidates` exactly when the list is empty and
   * `InvalidIndices` exactly when it is not but the input has no index or
   * a token `int()` refuses; neither installs anything.
   */
  lemma UpRejections(list: seq<Candidate>, s: string, hasInstall: bool,
                     install: (nat, string) -> InstallOutcome)
    ensures UpOutcome(list, s, hasInstall, install).0 == NoCandidates <==> list == []
    ensures UpOutcome(list, s, hasInstall, install).0 == InvalidIndices <==>
      list != [] && (Words(s) == [] || exists k | 0 <= k < |Words(s)| :: ParseInt(Words(s)[k]).None?)
    ensures !UpOutcome(list, s, hasInstall, install).0.Report? ==> UpOutcome(list, s, hasInstall, install).1 == []
  {
    ParseAllFails(Words(s));
  }

  /**
   * A list stored by `/update list` only holds candidates with a
   * repository URL, so `/update up` never reports a missing one.
   */
  lemma NoRepoAfterList(stars: seq<PluginRecord>, release: string -> FetchOutcome, s: string,
                        hasInstall: bool, install: (nat, string) -> InstallOutcome)
    ensures var out := UpOutcome(Candidates(stars, release), s, hasInstall, install);
      out.0.Report? ==> forall k | 0 <= k < |out.0.messages| :: !out.0.messages[k].NoRepo?
  {
    var list := Candidates(stars, release);
    CandidatesValid(stars, release);
    var out := UpOutcome(list, s, hasInstall, install);
    if out.0.Report? {
      NoRepoWhenValid(list, ParseIndices(s).value, hasInstall, install);
    }
  }


  /** `i.strip()` leaves every token of `split()` as it is. */
  lemma TokensStripped(s: string)
    ensures forall k | 0 <= k < |Words(s)| :: Strip(Words(s)[k]) == Words(s)[k]
  {
    forall k | 0 <= k < |Words(s)| ensures Strip(Words(s)[k]) == Words(s)[k] {
      StripWord(Words(s)[k]);
    }
  }

  /** "1 3" reads as the indices 1 and 3. */
  lemma ParseIndicesExample()
    ensures ParseIndices("1 3") == Some([1, 3])
  {
    assert IsWord("1") && IsWord("3");
    WordsJoin(["1", "3"]);
    assert Join(["1", "3"], ' ') == "1 3";
    ParseDigitText(1);
    ParseDigitText(3);
    assert [DigitChar(1)] == "1" && [DigitChar(3)] == "3";
    ParseAllValues(["1", "3"], [1, 3]);
  }

  /** "abc", "1 x" and a blank input are refused before any index is handled. */
  lemma InvalidIndicesExample(list: seq<Candidate>, hasInstall: bool, install: (nat, string) -> InstallOutcome)
    requires list != []
    ensures UpOutcome(list, "abc", hasInstall, install) == (InvalidIndices, [])
    ensures UpOutcome(list, "1 x", hasInstall, install) == (InvalidIndices, [])
    ensures UpOutcome(list, "  ", hasInstall, install) == (InvalidIndices, [])
  {
    RefusedLetters();
    RefusedSecond();
    RefusedBlank();
  }

  /** "abc" is one token, and `int()` refuses it. */
  lemma RefusedLetters()
    ensures ParseIndices("abc") == None
  {
    OneWord();
    RefusedWord("abc");
    assert ParseAll(["abc"]) == None;
  }

  /** "abc" is a single token. */
  lemma OneWord()
    ensures Words("abc") == ["abc"]
  {
    assert IsWord("abc");
    WordsJoin(["abc"]);
  }

  /** "1 x" is two tokens, and `int()` refuses the second. */
  lemma RefusedSecond()
    ensures ParseIndices("1 x") == None
  {
    TwoWords();
    RefusedWord("x");
    ParseAllFails(["1", "x"]);
    assert ["1", "x"][1] == "x";
  }

  /** "1 x" splits into "1" and "x". */
  lemma TwoWords()
    ensures Words("1 x") == ["1", "x"]
  {
    assert IsWord("1") && IsWord("x");
    WordsJoin(["1", "x"]);
    assert Join(["1", "x"], ' ') == "1 x";
  }

  /** Blank text has no token at all. */
  lemma RefusedBlank()
    ensures ParseIndices("  ") == None
  {
    assert "  "[1..] == " " && " "[1..] == [];
    assert LStrip("  ") == [];
  }

  /** `int()` refuses a token that starts with neither a digit nor a sign. */
  lemma RefusedWord(w: string)
    requires IsWord(w) && !IsDigit(w[0]) && w[0] != '+' && w[0] != '-'
    ensures ParseInt(w).None?
  {
    assert !IntSpace(w[0]) && !IntSpace(w[|w| - 1]);
    TrimUnspaced(w);
    assert ParseDigits(w).None?;
  }

  /**
   * With two candidates, "1 3" installs the first and reports the second
   * index as out of range.
   */
  lemma UpExample(a: Candidate, b: Candidate, install: (nat, string) -> InstallOutcome)
    requires a.record.repoUrl != ""
    requires install(0, a.record.repoUrl) == Installed
    ensures UpOutcome([a, b], "1 3", true, install) ==
      (Report([Updating(a.record.name, a.latest), Updated(a.record.name, a.latest), OutOfRange(3, 2)]),
       [a.record.repoUrl])
  {
    ParseIndicesExample();
    var list := [a, b];
    assert [1, 3][..1] == [1] && [1][..0] == [];
    var none := Process(list, [], true, install);
    assert none == Progress([], []);
    assert list[0] == a;
    var first := Process(list, [1], true, install);
    assert first == Step(list, 1, true, install, none);
    assert first == Progress([Updating(a.record.name, a.latest), Updated(a.record.name, a.latest)], [a.record.repoUrl]);
    assert Process(list, [1, 3], true, install) == Step(list, 3, true, install, first);
    var whole := Progress(first.messages + [OutOfRange(3, 2)], first.calls);
    assert Step(list, 3, true, install, first) == whole;
    assert UpOutcome(list, "1 3", true, install) == (Report(whole.messages), whole.calls);
    assert whole.messages == [Updating(a.record.name, a.latest), Updated(a.record.name, a.latest), OutOfRange(3, 2)];
  }

}
