/**
 * Owner and repository taken from a plugin's repository URL with
 * `re.search(r"github\.com/([^/]+)/([^/]+)", url)`, one trailing ".git"
 * removed from the repository, and the release endpoint built from them.
 */
module RepoUrl {
  import opened Wrappers
  import opened PyStr

  /** The literal text that opens the pattern. */
  const Host: string := "github.com/"

  /** A group of the pattern, `[^/]+`: one or more characters other than '/'. */
  ghost predicate IsPathSegment(w: string) {
    w != [] && forall k | 0 <= k < |w| :: w[k] != '/'
  }

  /** `github.com/<owner>/<repo>` occurs in `url` starting at position `i`. */
  ghost predicate OccursAt(url: string, i: nat, owner: string, repo: string) {
    var o := i + |Host|;
    var r := o + |owner| + 1;
    && IsPathSegment(owner) && IsPathSegment(repo)
    && r + |repo| <= |url|
    && url[i..o] == Host
    && url[o..o + |owner|] == owner
    && url[o + |owner|] == '/'
    && url[r..r + |repo|] == repo
  }

  /** Length of the greedy run of characters other than '/' that starts at `i`. */
  function RunLength(s: string, i: nat): (n: nat)
    requires i <= |s|
    ensures i + n <= |s|
    ensures forall k | i <= k < i + n :: s[k] != '/'
    ensures i + n == |s| || s[i + n] == '/'
    decreases |s| - i
  {
    if i == |s| || s[i] == '/' then 0 else 1 + RunLength(s, i + 1)
  }

  /** The pattern tried at position `i` alone: its two groups, or `None`. */
  function MatchAt(s: string, i: nat): Option<(string, string)>
    requires i <= |s|
  {
    if !StartsWith(s[i..], Host) then None
    else
      var o := i + |Host|;
      var ownerLength := RunLength(s, o);
      if ownerLength == 0 || o + ownerLength == |s| then None
      else
        var r := o + ownerLength + 1;
        var repoLength := RunLength(s, r);
        if repoLength == 0 then None
        else Some((s[o..o + ownerLength], s[r..r + repoLength]))
  }

  /** `re.search` from position `i`: the leftmost position where the pattern matches. */
  function SearchFrom(s: string, i: nat): (p: Option<nat>)
    requires i <= |s|
    ensures p.Some? ==> i <= p.value <= |s| && MatchAt(s, p.value).Some?
    ensures p.Some? ==> forall j | i <= j < p.value :: MatchAt(s, j).None?
    ensures p.None? ==> forall j | i <= j <= |s| :: MatchAt(s, j).None?
    decreases |s| - i
  {
    if MatchAt(s, i).Some? then Some(i)
    else if i == |s| then None
    else SearchFrom(s, i + 1)
  }

  /** `repo[:-4]` when `repo.endswith(".git")`: at most one suffix goes. */
  function StripGitSuffix(repo: string): string {
    if EndsWith(repo, ".git") then repo[..|repo| - 4] else repo
  }

  /** The owner and repository named by a repository URL, or `None` when the pattern does not match. */
  function RepoPath(url: string): Option<(string, string)> {
    match SearchFrom(url, 0)
    case None => None
    case Some(p) =>
      var groups := MatchAt(url, p).value;
      Some((groups.0, StripGitSuffix(groups.1)))
  }

  /** The "latest release" endpoint queried for a repository. */
  function ApiUrl(owner: string, repo: string): string {
    "https://api.github.com/repos/" + owner + "/" + repo + "/releases/latest"
  }

  /** At most one ".git" goes, and only from the end: the rest is what came before it. */
  lemma StripGitSuffixMeaning(repo: string)
    ensures EndsWith(repo, ".git") ==> StripGitSuffix(repo) + ".git" == repo
    ensures !EndsWith(repo, ".git") ==> StripGitSuffix(repo) == repo
  {
    if EndsWith(repo, ".git") {
      assert repo[..|repo| - 4] + repo[|repo| - 4..] == repo;
    }
  }

  /**
   * Different repositories are asked for at different endpoints: the
   * endpoint gives back the owner and the repository when neither holds
   * a '/'.
   */
  lemma ApiUrlInjective(owner1: string, repo1: string, owner2: string, repo2: string)
    requires IsPathSegment(owner1) && IsPathSegment(owner2)
    requires ApiUrl(owner1, repo1) == ApiUrl(owner2, repo2)
    ensures owner1 == owner2 && repo1 == repo2
  {
    var prefix := "https://api.github.com/repos/";
    var suffix := "/releases/latest";
    var u := ApiUrl(owner1, repo1);
    assert u == prefix + owner1 + "/" + repo1 + suffix;
    assert u == prefix + owner2 + "/" + repo2 + suffix;
    var n := |prefix|;
    OwnerEnds(u, n, owner1, owner2);
    assert owner1 == u[n..n + |owner1|] == owner2;
    var r := n + |owner1| + 1;
    assert |repo1| == |repo2|;
    assert repo1 == u[r..r + |repo1|] == repo2;
  }

  /** Two path segments that both start at `n` and are both followed by '/' have the same length. */
  lemma OwnerEnds(u: string, n: nat, a: string, b: string)
    requires IsPathSegment(a) && IsPathSegment(b)
    requires n + |a| < |u| && u[n..n + |a|] == a && u[n + |a|] == '/'
    requires n + |b| < |u| && u[n..n + |b|] == b && u[n + |b|] == '/'
    ensures |a| == |b|
  {
  }

  /** The run that starts at `i` is exactly `n` long when `s[i..i+n]` is free of '/' and ends there. */
  lemma RunLengthExact(s: string, i: nat, n: nat)
    requires i + n <= |s|
    requires forall k | i <= k < i + n :: s[k] != '/'
    requires i + n == |s| || s[i + n] == '/'
    ensures RunLength(s, i) == n
  {
  }

  /**
   * A match found at `i` is an occurrence of the pattern whose repository
   * group runs to the end of the URL or to the next '/' (greedy).
   */
  lemma MatchAtSound(s: string, i: nat)
    requires i <= |s| && MatchAt(s, i).Some?
    ensures OccursAt(s, i, MatchAt(s, i).value.0, MatchAt(s, i).value.1)
    ensures var end := i + |Host| + |MatchAt(s, i).value.0| + 1 + |MatchAt(s, i).value.1|;
      end == |s| || s[end] == '/'
  {
    assert s[i..][..|Host|] == s[i..i + |Host|];
  }

  /**
   * Every occurrence of the pattern at `i` is found there, with the same
   * owner and a repository group that extends the occurring one.
   */
  lemma MatchAtComplete(s: string, i: nat, owner: string, repo: string)
    requires OccursAt(s, i, owner, repo)
    ensures MatchAt(s, i).Some?
    ensures MatchAt(s, i).value.0 == owner && StartsWith(MatchAt(s, i).value.1, repo)
  {
    var o := i + |Host|;
    var r := o + |owner| + 1;
    assert s[i..][..|Host|] == s[i..o];
    forall k | o <= k < o + |owner| ensures s[k] != '/' {
      assert s[k] == s[o..o + |owner|][k - o];
    }
    RunLengthExact(s, o, |owner|);
    forall k | r <= k < r + |repo| ensures s[k] != '/' {
      assert s[k] == s[r..r + |repo|][k - r];
    }
    var repoLength := RunLength(s, r);
    assert repoLength >= |repo|;
    assert s[r..r + repoLength][..|repo|] == s[r..r + |repo|];
  }

  /**
   * `RepoPath` is `None` exactly when `github.com/<owner>/<repo>` occurs
   * nowhere in the URL; otherwise its owner is the first group of the
   * leftmost occurrence and its repository the second group, which runs
   * to the next '/' or the end of the URL, with at most one trailing
   * ".git" removed.
   */
  lemma RepoPathMeaning(url: string)
    ensures RepoPath(url).None? <==> forall i: nat, owner, repo :: !OccursAt(url, i, owner, repo)
    ensures RepoPath(url).Some? ==>
      exists i: nat, repo ::
        && OccursAt(url, i, RepoPath(url).value.0, repo)
        && (var e := i + |Host| + |RepoPath(url).value.0| + 1 + |repo|; e == |url| || url[e] == '/')
        && RepoPath(url).value.1 == StripGitSuffix(repo)
        && forall j: nat, o, r | j < i :: !OccursAt(url, j, o, r)
  {
    RepoPathNone(url);
    if RepoPath(url).Some? {
      RepoPathLeftmost(url);
    }
  }

  /** `re.search` finds nothing exactly when the pattern occurs nowhere. */
  lemma RepoPathNone(url: string)
    ensures RepoPath(url).None? <==> forall i: nat, owner, repo :: !OccursAt(url, i, owner, repo)
  {
    var p := SearchFrom(url, 0);
    forall i: nat, owner, repo | OccursAt(url, i, owner, repo)
      ensures p.Some? && p.value <= i
    {
      MatchAtComplete(url, i, owner, repo);
    }
    if p.Some? {
      MatchAtSound(url, p.value);
    }
  }

  /** A found repository comes from the leftmost occurrence, with its greedy repository group. */
  /** Where the search finds no match, the pattern does not occur. */
  lemma NoEarlierOccurrence(url: string, i: nat)
    requires i <= |url|
    requires forall j | 0 <= j < i :: MatchAt(url, j).None?
    ensures forall j: nat, o, r | j < i :: !OccursAt(url, j, o, r)
  {
    forall j: nat, o, r | j < i ensures !OccursAt(url, j, o, r) {
      if OccursAt(url, j, o, r) {
        MatchAtComplete(url, j, o, r);
      }
    }
  }

  lemma RepoPathLeftmost(url: string)
    requires RepoPath(url).Some?
    ensures exists i: nat, repo ::
        && OccursAt(url, i, RepoPath(url).value.0, repo)
        && (var e := i + |Host| + |RepoPath(url).value.0| + 1 + |repo|; e == |url| || url[e] == '/')
        && RepoPath(url).value.1 == StripGitSuffix(repo)
        && forall j: nat, o, r | j < i :: !OccursAt(url, j, o, r)
  {
    var i := SearchFrom(url, 0).value;
    MatchAtSound(url, i);
    var groups := MatchAt(url, i).value;
    NoEarlierOccurrence(url, i);
    assert RepoPath(url).value == (groups.0, StripGitSuffix(groups.1));
    var e := i + |Host| + |groups.0| + 1 + |groups.1|;
    assert OccursAt(url, i, RepoPath(url).value.0, groups.1);
    assert e == |url| || url[e] == '/';
  }
}
