# Hot-update plugin for AstrBot, modelled in Dafny

The plugin adds two chat commands to the AstrBot host:

- `/update list` checks every loaded plugin whose repository URL points at
  GitHub. For each one it asks GitHub for the latest release, and it keeps in
  the field `updatable_plugins` the plugins whose release tag is a newer
  dotted version.
- `/update up <indices>` picks entries of that list by their 1-based number
  and asks the host's plugin manager to reinstall them from their repository.

The model follows `main.py` module by module:

| file | module | what it holds |
|---|---|---|
| `wrappers.dfy` | `Wrappers` | `Option` |
| `pystr.dfy` | `PyStr` | the Python string built-ins the plugin uses: `split('.')`, `split()`, `strip()`, `lstrip('vV')` and the substring test `in` |
| `pyint.dfy` | `PyInt` | Python's `int()` on a string: the whitespace `int()` itself skips (`\t` to `\r`, space, U+0085, U+00A0, and not U+001C to U+001F), a sign, digits with single `_` separators; `list(map(int, ...))` |
| `versions.dfy` | `Versions` | `_compare_versions`: a specification function on parsed segments, its laws, and the method with the index loop |
| `repourl.dfy` | `RepoUrl` | the `re.search(r"github\.com/([^/]+)/([^/]+)")` match (leftmost, greedy), the `.git` strip and the release endpoint |
| `updatecheck.dfy` | `UpdateCheck` | `_check_plugin_update` as a decision on the fetched tag |
| `hotupdate.dfy` | `HotUpdate` | the class `HotUpdatePlugin` with its `updatablePlugins` field and the two commands |

Outside effects are parameters:

- The release request is a function `release` from the request URL to a
  `FetchOutcome`: a fetched `tag_name`, or a failure.
- The host's `install_plugin` is a function `install` from the call number and
  the repository URL to `Installed` or `InstallError(message)`.
- The `hasattr` probe is the boolean `hasInstall`.
- `/update up` also returns the sequence of URLs it passed to `install_plugin`,
  which is the effect it delegates to the host.
- Replies are values of the message datatypes `ListReply` and `UpMessage`,
  not formatted text.

Details of the code the model keeps:

- `lstrip('vV')` strips every leading 'v' and 'V' of the tag.
- A version segment that is not an integer makes `int()` raise inside the
  `try` of `_check_plugin_update`. It is caught there, so that plugin gets no
  candidate.
- The code checks for a missing `install_plugin` inside the loop, once for
  each index, and reports it on each of them.
- A missing repository URL (`None`) and an empty one behave alike everywhere,
  so both are written `""`.

## Model

| member | source | states |
|---|---|---|
| PyStr.Contains | main.py:37 | the substring test `sub in s`: `sub` starts at some position of `s` |
| PyStr.Split | main.py:91-92 | `split('.')` gives at least one piece and no piece contains the separator |
| PyStr.JoinSplit | main.py:91-92 | joining the pieces of a split with the separator gives back the string: the split loses no character |
| PyStr.SplitJoin | main.py:91-92 | splitting a join of separator-free pieces gives back exactly those pieces |
| PyStr.LStripMeaning | main.py:113 | `lstrip()` removes a prefix of the string made only of whitespace |
| PyStr.RStripMeaning | main.py:113 | `rstrip()` removes a suffix of the string made only of whitespace |
| PyStr.StripWord | main.py:113 | `strip()` leaves a token of `split()` as it is |
| PyStr.LStripChars | main.py:79 | `lstrip(chars)` never lengthens the text, and what it leaves does not start with a character of `chars` |
| PyStr.LStripCharsMeaning | main.py:79 | `lstrip(chars)` removes a prefix made only of characters of `chars` |
| PyStr.Words | main.py:113 | every token of `split()` is non-empty and free of whitespace |
| PyStr.WordsJoin | main.py:113 | `split()` of tokens joined by single spaces gives back the tokens, in order |
| PyStr.WordsOfWord | main.py:113 | a token followed by whitespace or nothing is the first token of `split()` |
| PyInt.ParseDigits | main.py:91-92 | a digit string that `int()` accepts starts and ends with a digit |
| PyInt.ParseDigitsMeaning | main.py:91-92 | `int()` accepts the text after the sign exactly when it is digits and `_`, with a digit at each end and no two `_` in a row; its value is that of its digits with the `_` dropped, leading zeros allowed |
| PyInt.TrimLeft | main.py:91-92 | skipping `int()`'s leading whitespace leaves text that does not start with it |
| PyInt.TrimRight | main.py:91-92 | skipping `int()`'s trailing whitespace leaves text that does not end with it |
| PyInt.TrimLeftMeaning | main.py:91-92 | what `int()` skips in front is a prefix made only of its whitespace (with `TrimLeft`, the maximal one) |
| PyInt.TrimRightMeaning | main.py:91-92 | what `int()` skips at the end is a suffix made only of its whitespace (with `TrimRight`, the maximal one) |
| PyInt.IntSpaceNarrower | main.py:91-92 | `int()` skips less than `strip()`: "1\x1c" strips to "1", yet `int()` refuses it |
| PyInt.ParseInt | main.py:91-92 | `int(s)` as `Option`: `int()`'s whitespace, an optional sign, then a literal; `None` where it raises `ValueError`; its meaning is stated by `TrimLeftMeaning`, `TrimRightMeaning`, `ParseDigitsMeaning` and `ParseIntText` |
| PyInt.ParseAll | main.py:91-92 | `list(map(int, texts))`: a result has one value per text |
| PyInt.ParseDecimal | main.py:91-92 | the decimal digits of `n` read back as `n` |
| PyInt.ParseIntText | main.py:91-92 | `int(str(n)) == n` for every integer, negative ones included |
| PyInt.TrimUnspaced | main.py:91-92 | text without `int()`'s whitespace at either end is read by `int()` as it stands |
| PyInt.ParseAllFails | main.py:91-92 | `list(map(int, texts))` raises exactly when some text is not an integer |
| PyInt.ParseAllValues | main.py:91-92 | `list(map(int, texts))` is `values` exactly when each text reads as the value at its position |
| PyInt.ParseDigitText | main.py:113 | a single digit character reads as its value |
| Versions.CompareParts | main.py:89-101 | the comparison returns only -1, 0 or 1 |
| Versions.CompareSound | main.py:94-101 | 0 means the segments agree after zero padding; -1 (1) means the first differing segment is smaller (larger) in the current version |
| Versions.CompareMeaning | main.py:94-101 | the three results hold exactly when, respectively, the padded versions are equal, the current one is older, or it is newer |
| Versions.Exclusive | main.py:94-101 | equal, older and newer exclude one another |
| Versions.CompareReflexive | main.py:94-101 | a version compares equal to itself |
| Versions.CompareAntisymmetric | main.py:94-101 | swapping the arguments negates the result |
| Versions.PrecedesTransitive | main.py:94-101 | "older than" is transitive |
| Versions.PrecedesRespectsEquivalence | main.py:94-101 | versions equal after padding are interchangeable in "older than" |
| Versions.CompareTransitive | main.py:94-101 | the comparison is a total preorder: `<=` and `<` chain |
| Versions.ComparePadded | main.py:94-96 | a trailing zero segment never changes the result |
| Versions.ParseVersion | main.py:91-92 | `list(map(int, v.split('.')))`, `None` where `int()` refuses a segment (`ParseAllValues`, `ParseVersionText`) |
| Versions.ParseVersionText | main.py:91-92 | the dotted text of any non-empty list of integers parses back to that list |
| Versions.VersionOrder | main.py:89-101 | `_compare_versions` as a value: `None` where `int()` raises on a segment of either version, otherwise the comparison of the parsed segments (`CompareMeaning`) |
| Versions.CompareVersions | main.py:89-101 | `_compare_versions` is `None` (raises) when either string fails to parse; otherwise it is the comparison of the parsed segments |
| Versions.CompareSegments | main.py:94-101 | the index loop over the padded segments returns the comparison of the two segment lists |
| Versions.ParseShortVersion | main.py:91-92 | "a.b" and "a.b.c" with digits read as `[a, b]` and `[a, b, c]` |
| Versions.CompareExamplePadded | main.py:89-101 | "1.2.0" and "1.2" compare equal |
| Versions.CompareExampleOlder | main.py:89-101 | "1.2.3" is older than "1.3.0" |
| Versions.CompareExampleNewer | main.py:89-101 | "2.0.0" is newer than "1.9.9" |
| RepoUrl.RunLength | main.py:64 | `[^/]+` is greedy: the run stops at the end of the URL or at a '/' |
| RepoUrl.SearchFrom | main.py:64 | `re.search` finds the leftmost position where the pattern matches, and none when it matches nowhere |
| RepoUrl.MatchAt | main.py:64 | the pattern tried at one position: `github.com/`, a greedy owner run, '/', a non-empty greedy repository run (`MatchAtSound`, `MatchAtComplete`) |
| RepoUrl.MatchAtSound | main.py:64 | a match is an occurrence of `github.com/<owner>/<repo>` with both groups free of '/', and the repository group runs to a '/' or the end |
| RepoUrl.MatchAtComplete | main.py:64 | every occurrence at a position is matched there, with the same owner and a repository group that extends the occurrence's |
| RepoUrl.StripGitSuffix | main.py:70-71 | `repo[:-4]` when `repo` ends with ".git" (`StripGitSuffixMeaning`) |
| RepoUrl.StripGitSuffixMeaning | main.py:70-71 | only one trailing ".git" is removed, and nothing when there is none |
| RepoUrl.ApiUrl | main.py:73 | the release endpoint of a repository (`ApiUrlInjective`) |
| RepoUrl.ApiUrlInjective | main.py:73 | the endpoint gives back the owner and the repository: two repositories with '/'-free owners are never asked for at the same URL |
| RepoUrl.RepoPath | main.py:64-71 | the owner and repository of the leftmost match, the repository less one trailing ".git", or `None` (`RepoPathMeaning`) |
| RepoUrl.RepoPathMeaning | main.py:64-71 | no repository exactly when the pattern occurs nowhere; otherwise the owner of the leftmost occurrence and its repository group, which runs to the next '/' or the end, with one trailing ".git" removed |
| UpdateCheck.NormalizeTag | main.py:79 | `tag.lstrip('vV')` (`NormalizeTagMeaning`) |
| UpdateCheck.NormalizeTagMeaning | main.py:79 | the stripped tag is a suffix of the tag that does not start with 'v'/'V', and only 'v'/'V' were removed |
| UpdateCheck.NormalizeTagExample | main.py:79 | "vV1.0" becomes "1.0" |
| UpdateCheck.ReleaseTag | main.py:64-79 | the fetched `tag_name` for the repository the URL names, `None` when the pattern does not match or the request fails (`RepoPathMeaning`, `CandidateIffNewer`) |
| UpdateCheck.UpdateCandidate | main.py:61-87 | the decision of `_check_plugin_update` for one record: a candidate with the stripped tag, or `None` (`CandidateIffNewer`, `NoCandidateCases`) |
| UpdateCheck.CheckPluginUpdate | main.py:61-87 | the steps of `_check_plugin_update`, with the comparison loop, give the decision `UpdateCandidate` |
| UpdateCheck.CandidateIffNewer | main.py:79-82 | a record gets a candidate exactly when its stripped release tag is non-empty and a newer version; the candidate pairs the record with that tag |
| UpdateCheck.NoCandidateCases | main.py:64-87 | no candidate when the pattern does not occur in the URL, when the request fails, when the stripped tag equals the current version, or when the current version is not a dotted integer |
| UpdateCheck.PrefixedCurrentVersion | main.py:79-81 | only the tag loses its 'v': a current version written "v1.2" never parses and never gets a candidate |
| UpdateCheck.LetterNotInt | main.py:91 | `int()` refuses a text starting with 'v'/'V' |
| HotUpdate.HasGithubUrl | main.py:37 | a record is checked when its URL is non-empty and contains "github.com" (`GithubRecordsSound`, `GithubRecordsComplete`) |
| HotUpdate.GithubRecords | main.py:35-38 | the records sent to `_check_plugin_update`, in host order (`GithubRecordsOne`, `GithubRecordsAppend`) |
| HotUpdate.GithubRecordsOne | main.py:36-38 | a single record is sent once when its URL is a GitHub one, and not at all otherwise |
| HotUpdate.CheckAll | main.py:44 | the gathered check results, one per record (`CheckAllAt`, `CheckAllAppend`) |
| HotUpdate.Somes | main.py:46-50 | the non-`None` results, in order (`SomesOne`, `SomesAppend`) |
| HotUpdate.SomesOne | main.py:47-50 | a single result is stored once when it is not `None`, and dropped otherwise |
| HotUpdate.GatherChecks | main.py:44 | `asyncio.gather` gives one check result per task, in task order |
| HotUpdate.CheckAllAt | main.py:44 | result `k` of the gather is the check of task `k` |
| HotUpdate.CheckAllAppend | main.py:44 | the results of two runs of tasks follow one another |
| HotUpdate.GithubRecordsSound | main.py:35-38 | every checked record is a host record with a non-empty URL containing "github.com" |
| HotUpdate.GithubRecordsComplete | main.py:35-38 | every host record with such a URL is checked |
| HotUpdate.GithubRecordsAppend | main.py:35-38 | the filter keeps host order |
| HotUpdate.GithubRecordsEmpty | main.py:35-42 | nothing is checked exactly when no host record has a GitHub URL |
| HotUpdate.SomesSound | main.py:46-50 | every stored candidate is the value of some non-`None` result |
| HotUpdate.SomesComplete | main.py:46-50 | every non-`None` result is stored |
| HotUpdate.SomesAppend | main.py:46-50 | stored candidates keep the order of the results |
| HotUpdate.Candidates | main.py:35-50 | what `/update list` stores: the `Some` check results of the GitHub records, each once, in order (`CandidatesOne` with `CandidatesAppend`; `CandidatesSound`, `CandidatesComplete`) |
| HotUpdate.CandidatesOne | main.py:35-50 | a single host record yields its own candidate once when it has a GitHub URL and a newer release, and nothing otherwise; with `CandidatesAppend` this fixes the list for every host list |
| HotUpdate.AllNewer | main.py:46-50 | the invariant of the stored list: every entry has a GitHub URL and a newer version (`CandidatesValid`) |
| HotUpdate.HotUpdatePlugin.Valid | main.py:46-50 | the class invariant: `AllNewer` of `updatable_plugins`, kept by `/update list` and used by `/update up` |
| HotUpdate.ListReplies | main.py:27-59 | the replies of `/update list` (`ListRepliesMeaning`) |
| HotUpdate.CandidatesSound | main.py:35-50 | every stored candidate comes from a host record with a GitHub URL, is that record's check result, and carries a newer version |
| HotUpdate.CandidatesComplete | main.py:35-50 | every host record with a GitHub URL whose check finds a newer version is stored |
| HotUpdate.CandidatesAppend | main.py:35-50 | the candidates of two runs of host records follow one another, so one failed check does not disturb the others |
| HotUpdate.CandidatesValid | main.py:25-50 | what `/update list` stores satisfies the class invariant |
| HotUpdate.CandidatesEmpty | main.py:46-59 | the stored list is empty exactly when no GitHub record gets a candidate |
| HotUpdate.ListRepliesMeaning | main.py:27-59 | the replies are "no plugins" exactly for an empty host list, "no GitHub plugins" exactly when no record has a GitHub URL, "all up to date" exactly when none of those gets a candidate, and the numbered list exactly when one does |
| HotUpdate.HotUpdatePlugin.constructor | main.py:12-15 | the plugin starts with an empty list, which satisfies the invariant |
| HotUpdate.HotUpdatePlugin.ListUpdatablePlugins | main.py:21-59 | `/update list` replaces the stored list, whatever it held, by the in-order candidates of the GitHub records, sends the replies of `ListReplies`, and keeps the invariant |
| HotUpdate.HotUpdatePlugin.UpdatePluginCommand | main.py:103-153 | `/update up` leaves the list unchanged and answers, with the install calls made, as `UpOutcome` says; under the class invariant no report line is a missing URL |
| HotUpdate.ParseIndices | main.py:112-115 | `[int(i.strip()) for i in s.split()]`, `None` when a token is refused or there is none (`UpRejections`); the `strip()` changes no token (`TokensStripped`) |
| HotUpdate.Step | main.py:121-151 | the lines and install call for one index (`StepShape`, `StepLines`, `StepReport`) |
| HotUpdate.Process | main.py:120-151 | the loop over the indices (`ProcessReport`, `ProcessCalls`, `ProcessOutOfRange`) |
| HotUpdate.UpOutcome | main.py:107-153 | the reply of `/update up` and its install calls (`UpRejections`, `ProcessReport`) |
| HotUpdate.ReportLines | main.py:120-151 | the loop over the indices builds the report lines and install calls of `Process`, one index after the other |
| HotUpdate.StepShape | main.py:121-151 | each index adds one or two lines after the earlier ones, and one install call exactly when it is in range, its candidate has a URL and the manager can install |
| HotUpdate.StepLines | main.py:121-151 | the lines added for one index are accounted for, and an out-of-range index adds exactly one line naming it |
| HotUpdate.StepReport | main.py:121-151 | the exact lines of one index: `OutOfRange` for one outside `1..len`; for index `k`, entry `k-1`'s missing URL, or its update announced and then a missing `install_plugin`, the success, or the install error's message, according to the install call numbered by the calls made so far |
| HotUpdate.ProcessPrefix | main.py:120-151 | the report and the calls of the first `j` indices are the start of the whole report and calls |
| HotUpdate.ProcessReport | main.py:120-151 | in the whole report, the lines of the index at position `j` start right after those of the earlier indices and are the ones `StepReport` names; its install call carries entry `k-1`'s URL |
| HotUpdate.NoRepoWhenValid | main.py:130-132 | when every entry has a GitHub URL, no line reports a missing one |
| HotUpdate.ProcessBounds | main.py:120-151 | the report has between one and two lines per index, and there is at most one install call per index |
| HotUpdate.ProcessCalls | main.py:126-144 | `install_plugin` gets the URL of entry `k-1` for every in-range index `k` whose entry has a URL, in input order and once per occurrence; it is never called when the manager lacks it |
| HotUpdate.ProcessExplained | main.py:120-151 | every line names a list entry or the list length; success and failure lines appear only when the manager can install |
| HotUpdate.ProcessOutOfRange | main.py:122-124 | the out-of-range lines name exactly the indices outside `1..len`, in input order, and processing goes on past them |
| HotUpdate.UpRejections | main.py:107-118 | "no list" exactly when the stored list is empty; "invalid indices" exactly when it is not and the input has no token or a token `int()` refuses; neither installs anything |
| HotUpdate.NoRepoAfterList | main.py:130-132 | on a list stored by `/update list`, `/update up` never reports a missing repository URL |
| HotUpdate.TokensStripped | main.py:113 | `i.strip()` changes no token of `split()`, so `ParseIndices` reads the tokens as they are |
| HotUpdate.ParseIndicesExample | main.py:113 | "1 3" reads as the indices 1 and 3 |
| HotUpdate.InvalidIndicesExample | main.py:112-118 | "abc", "1 x" and a blank input are refused before any index is handled |
| HotUpdate.UpExample | main.py:120-153 | with two candidates, "1 3" installs the first (reporting the attempt and its success) and reports index 3 as out of range |

## Left out

- The HTTP request (`aiohttp`, `raise_for_status`, JSON decoding). It is the `release` parameter. A failed request, an error status, and a body that is not a JSON object or has a `tag_name` of `null` all give `FetchFailed`.
- Concurrency of `asyncio.gather`. The checks are independent and `gather` keeps their order, so they run one after the other. The `release` function gives one answer per URL, so two plugins with the same repository see the same release.
- `logger` calls, the `@register`/`@filter` decorators, admin-only permission gating, `update_group` and `terminate`: framework glue and logging only.
- Message text and the `yield event.plain_result` streaming. Replies are datatype values. The numbered list in the `/update list` reply is the candidate sequence itself.
- A failure to read `self.context._star_manager`. In the source it is reported as an install failure; the model treats the manager as always readable.
- A plugin version that is not a string (the `.split` call would raise and the check would give no candidate). Versions are strings here.
- `int()` and `split()` on characters above U+00FF. Only ASCII digits and the whitespace of Latin-1 are modelled; above U+00FF `int()` also accepts other decimal digits and skips more whitespace.
- ParseInt: accepts any number of digits. From Python 3.11 (and 3.10.7) `int()` raises `ValueError` on a text of more than 4300 digits, so there a longer `/update up` token is refused as invalid and a longer version segment gives no candidate; the limit depends on the interpreter version and its settings, so it is not modelled.
- Races between a `/update list` and a `/update up` running at the same time: each command is one atomic step here.
