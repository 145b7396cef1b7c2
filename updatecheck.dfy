/**
 * The decision taken for one plugin record by `_check_plugin_update`: find
 * the repository in its URL, ask for the latest release, strip the tag's
 * leading 'v'/'V' characters, and propose the tag when it is a newer
 * version. Every failure on the way yields no candidate.
 */
module UpdateCheck {
  import opened Wrappers
  import opened PyStr
  import opened PyInt
  import opened Versions
  import opened RepoUrl

  /** The host's record of an installed plugin; a missing repository URL is "". */
  datatype PluginRecord = PluginRecord(name: string, version: string, repoUrl: string)

  /** A plugin paired with the newer version found for it. */
  datatype Candidate = Candidate(record: PluginRecord, latest: string)

  /** What the request for a repository's latest release gives. */
  datatype FetchOutcome =
    | Fetched(tagName: string)  // the response's `tag_name`, "" when the field is absent
    | FetchFailed               // transport error, error status, or a body that is not a release

  /** The tag as a version: `tag.lstrip('vV')`. */
  function NormalizeTag(tag: string): string {
    LStripChars(tag, "vV")
  }

  /**
   * The version is what is left of the tag once every leading 'v' and 'V'
   * is gone: a suffix of the tag that does not itself start with either.
   */
  lemma NormalizeTagMeaning(tag: string)
    ensures var v := NormalizeTag(tag);
      && v == tag[|tag| - |v|..]
      && (v == [] || (v[0] != 'v' && v[0] != 'V'))
      && forall i | 0 <= i < |tag| - |v| :: tag[i] == 'v' || tag[i] == 'V'
  {
    LStripCharsMeaning(tag, "vV");
  }

  /** The raw release tag for a repository URL: `None` when the URL names no repository or the request fails. */
  function ReleaseTag(url: string, release: string -> FetchOutcome): Option<string> {
    match RepoPath(url)
    case None => None
    case Some(path) =>
      match release(ApiUrl(path.0, path.1))
      case FetchFailed => None
      case Fetched(tag) => Some(tag)
  }

  /** `_check_plugin_update` with the network answer given by `release`, keyed by the request URL. */
  function UpdateCandidate(p: PluginRecord, release: string -> FetchOutcome): Option<Candidate> {
    match ReleaseTag(p.repoUrl, release)
    case None => None
    case Some(tag) =>
      var latest := NormalizeTag(tag);
      if latest != "" && VersionOrder(p.version, latest) == Some(-1) then Some(Candidate(p, latest))
      else None
  }

  /** Both strings are dotted integers and `latest` is the newer version. */
  ghost predicate IsNewer(current: string, latest: string) {
    && ParseVersion(current).Some?
    && ParseVersion(latest).Some?
    && Precedes(ParseVersion(current).value, ParseVersion(latest).value)
  }

  /**
   * `_check_plugin_update`: the steps in the order the plugin takes them,
   * with the comparison done by the loop of `CompareVersions`.
   */
  method CheckPluginUpdate(p: PluginRecord, release: string -> FetchOutcome) returns (r: Option<Candidate>)
    ensures r == UpdateCandidate(p, release)
  {
    var path := RepoPath(p.repoUrl);
    if path.None? {
      return None;
    }
    var outcome := release(ApiUrl(path.value.0, path.value.1));
    if outcome.FetchFailed? {
      return None;
    }
    var latest := NormalizeTag(outcome.tagName);
    if latest == "" {
      return None;
    }
    var order := CompareVersions(p.version, latest);
    if order.Some? && order.value < 0 {
      return Some(Candidate(p, latest));
    }
    return None;
  }

  /**
   * A record gets a candidate exactly when its release tag, once stripped
   * of its 'v'/'V' prefix, is non-empty and a newer version than the
   * record's; the candidate pairs the record with that stripped tag.
   */
  lemma CandidateIffNewer(p: PluginRecord, release: string -> FetchOutcome)
    ensures UpdateCandidate(p, release).Some? <==>
      && ReleaseTag(p.repoUrl, release).Some?
      && NormalizeTag(ReleaseTag(p.repoUrl, release).value) != ""
      && IsNewer(p.version, NormalizeTag(ReleaseTag(p.repoUrl, release).value))
    ensures UpdateCandidate(p, release).Some? ==>
      UpdateCandidate(p, release).value == Candidate(p, NormalizeTag(ReleaseTag(p.repoUrl, release).value))
  {
    if ReleaseTag(p.repoUrl, release).Some? {
      var latest := NormalizeTag(ReleaseTag(p.repoUrl, release).value);
      if ParseVersion(p.version).Some? && ParseVersion(latest).Some? {
        CompareMeaning(ParseVersion(p.version).value, ParseVersion(latest).value);
      }
    }
  }

  /**
   * The cases with no candidate: a URL in which `github.com/<owner>/<repo>`
   * does not occur, a failed request, a tag equal to the current version,
   * and a current version that `int()` cannot read.
   */
  lemma NoCandidateCases(p: PluginRecord, release: string -> FetchOutcome)
    ensures (forall i: nat, owner, repo :: !OccursAt(p.repoUrl, i, owner, repo)) ==> UpdateCandidate(p, release).None?
    ensures (forall path | RepoPath(p.repoUrl) == Some(path) :: release(ApiUrl(path.0, path.1)) == FetchFailed) ==>
      UpdateCandidate(p, release).None?
    ensures (forall tag | ReleaseTag(p.repoUrl, release) == Some(tag) :: NormalizeTag(tag) == p.version) ==>
      UpdateCandidate(p, release).None?
    ensures ParseVersion(p.version).None? ==> UpdateCandidate(p, release).None?
  {
    RepoPathMeaning(p.repoUrl);
    if ParseVersion(p.version).Some? {
      CompareReflexive(ParseVersion(p.version).value);
    }
  }

  /**
   * Only the fetched tag loses its 'v' prefix: a record whose own version
   * is written "v1.2" can never be given a candidate.
   */
  lemma PrefixedCurrentVersion(p: PluginRecord, release: string -> FetchOutcome)
    requires p.version != [] && (p.version[0] == 'v' || p.version[0] == 'V')
    ensures ParseVersion(p.version).None?
    ensures UpdateCandidate(p, release).None?
  {
    var segments := Split(p.version, '.');
    SplitFirst(p.version, '.');
    LetterNotInt(segments[0]);
    assert ParseVersion(p.version) == ParseAll(segments);
  }

  /** `int()` refuses a segment that starts with a letter. */
  lemma LetterNotInt(segment: string)
    requires segment != [] && (segment[0] == 'v' || segment[0] == 'V')
    ensures ParseInt(segment).None?
  {
    assert !IntSpace(segment[0]);
    assert TrimLeft(segment) == segment;
    var t := Trim(segment);
    TrimRightMeaning(segment);
    assert t != [] && t[0] == segment[0];
    assert !IsDigit(t[0]) && t[0] != '+' && t[0] != '-';
    assert ParseDigits(t).None?;
  }

  /** The first piece of a split starts where the string starts. */
  lemma {:induction false} SplitFirst(s: string, sep: char)
    requires s != [] && s[0] != sep
    ensures Split(s, sep)[0] != [] && Split(s, sep)[0][0] == s[0]
  {
  }

  /** "vV1.0" is read as version "1.0". */
  lemma NormalizeTagExample()
    ensures NormalizeTag("vV1.0") == "1.0"
  {
    assert "vV1.0"[1..] == "V1.0" && "V1.0"[1..] == "1.0";
    assert LStripChars("1.0", "vV") == "1.0";
    assert LStripChars("V1.0", "vV") == "1.0";
  }
}
