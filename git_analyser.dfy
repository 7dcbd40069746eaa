/**
 * `get_repo_name(url)`: the repository name in a git URL, found by
 * `re.search(r'(?<=/)[^/]+(?=\.git$)', url)`.
 *
 * The search is modelled the way the regular-expression engine runs it: start
 * positions from left to right; at each, the look-behind, then the greedy
 * `[^/]+` run tried from its longest extent backwards until the look-ahead
 * holds. `$` matches at the end of the text or just before a final newline.
 */
module GitAnalyser {
  import opened Wrappers
  import opened Text

  /** The look-ahead `(?=\.git$)` holds at position `j`. */
  predicate GitEndAt(s: string, j: int) {
    0 <= j && OccursAt(s, ".git", j) && (j + 4 == |s| || (j + 5 == |s| && s[j + 4] == '\n'))
  }

  predicate NoSlashIn(s: string, i: int, j: int)
    requires 0 <= i <= j <= |s|
  {
    forall k :: i <= k < j ==> s[k] != '/'
  }

  /** How far `[^/]+` can reach from `i`: up to the next '/' or the end. */
  function RunEnd(s: string, i: nat): (e: nat)
    requires i <= |s|
    ensures i <= e <= |s| && NoSlashIn(s, i, e) && (e < |s| ==> s[e] == '/')
    decreases |s| - i
  {
    if i == |s| || s[i] == '/' then i else RunEnd(s, i + 1)
  }

  /** Backtracking the run from `j` down to `i + 1`: the first end at which the look-ahead holds. */
  function Backtrack(s: string, i: nat, j: nat): (r: Option<nat>)
    requires i <= j <= |s|
    ensures r.Some? ==> i < r.value <= j && GitEndAt(s, r.value)
    ensures r.Some? ==> forall k :: r.value < k <= j ==> !GitEndAt(s, k)
    ensures r.None? ==> forall k :: i < k <= j ==> !GitEndAt(s, k)
    decreases j
  {
    if j <= i then None
    else if GitEndAt(s, j) then Some(j)
    else Backtrack(s, i, j - 1)
  }

  /** The end of a match starting at `i`, if one starts there. */
  function MatchAt(s: string, i: nat): (r: Option<nat>)
    requires i <= |s|
    ensures r.Some? ==> i < r.value <= |s|
  {
    if i >= 1 && s[i - 1] == '/' then Backtrack(s, i, RunEnd(s, i)) else None
  }

  /** `re.search`: the leftmost start at or after `from` where a match starts, with its end. */
  function SearchFrom(s: string, from: nat): (r: Option<(nat, nat)>)
    requires from <= |s|
    ensures r.Some? ==> from <= r.value.0 < r.value.1 <= |s| && MatchAt(s, r.value.0) == Some(r.value.1)
    decreases |s| - from
  {
    match MatchAt(s, from)
    case Some(e) => Some((from, e))
    case None => if from == |s| then None else SearchFrom(s, from + 1)
  }

  /** `get_repo_name(url)`: the matched text, or `None`. */
  function GetRepoName(url: string): (r: Option<string>)
    ensures r.Some? ==> |r.value| >= 1 && forall k :: 0 <= k < |r.value| ==> r.value[k] != '/'
  {
    match SearchFrom(url, 0)
    case Some((i, e)) => MatchIsName(url, i); Some(url[i..e])
    case None => None
  }

  // ---------------------------------------------------------------------------
  // What the pattern means

  /** `s[i..j]` is a name: right after a '/', non-empty, without '/', followed by the final `.git`. */
  ghost predicate NameAt(s: string, i: int, j: int) {
    1 <= i < j <= |s| && s[i - 1] == '/' && NoSlashIn(s, i, j) && GitEndAt(s, j)
  }

  /** The look-ahead holds at one position at most. */
  lemma GitEndUnique(s: string, j: int, j': int)
    requires GitEndAt(s, j) && GitEndAt(s, j')
    ensures j == j'
  {
  }

  /** A text holds one name at most: the run between the last '/' and the final `.git`. */
  lemma NameUnique(s: string, i: int, j: int, i': int, j': int)
    requires NameAt(s, i, j) && NameAt(s, i', j')
    ensures i == i' && j == j'
  {
    GitEndUnique(s, j, j');
  }

  /** Whatever matches at a start position is a name. */
  lemma MatchIsName(s: string, i: nat)
    requires i <= |s| && MatchAt(s, i).Some?
    ensures NameAt(s, i, MatchAt(s, i).value)
  {
  }

  /** At the start of a name, the match is that name. */
  lemma NameMatches(s: string, i: nat, j: nat)
    requires NameAt(s, i, j)
    ensures MatchAt(s, i) == Some(j)
  {
    var e := RunEnd(s, i);
    assert j <= e;
    var r := Backtrack(s, i, e);
    if r.Some? {
      GitEndUnique(s, j, r.value);
    }
  }

  lemma {:induction false} SearchFindsName(s: string, from: nat, i: nat, j: nat)
    requires from <= i && NameAt(s, i, j)
    ensures SearchFrom(s, from) == Some((i, j))
    decreases i - from
  {
    if from < i {
      if MatchAt(s, from).Some? {
        MatchIsName(s, from);
        NameUnique(s, from, MatchAt(s, from).value, i, j);
      }
      SearchFindsName(s, from + 1, i, j);
    } else {
      NameMatches(s, i, j);
    }
  }

  /** The search finds a name iff the URL holds one, and then it finds exactly that name. */
  lemma RepoNameSpec(url: string)
    ensures GetRepoName(url).Some? <==> exists i, j :: NameAt(url, i, j)
    ensures forall i, j :: NameAt(url, i, j) ==> GetRepoName(url) == Some(url[i..j])
  {
    forall i, j | NameAt(url, i, j) ensures GetRepoName(url) == Some(url[i..j]) {
      SearchFindsName(url, 0, i, j);
    }
    match SearchFrom(url, 0)
    case None =>
    case Some((i, e)) => MatchIsName(url, i);
  }

  /** A name found is non-empty, holds no '/', and sits between a '/' and the final `.git`. */
  lemma RepoNameShape(url: string)
    requires GetRepoName(url).Some?
    ensures var name := GetRepoName(url).value;
      |name| >= 1 && (forall k :: 0 <= k < |name| ==> name[k] != '/') &&
      exists pre :: url == pre + "/" + name + ".git" || url == pre + "/" + name + ".git\n"
  {
    var (i, e) := SearchFrom(url, 0).value;
    MatchIsName(url, i);
    NameShape(url, i, e);
  }

  lemma NameShape(url: string, i: int, j: int)
    requires NameAt(url, i, j)
    ensures var name := url[i..j];
      |name| >= 1 && (forall k :: 0 <= k < |name| ==> name[k] != '/') &&
      exists pre :: url == pre + "/" + name + ".git" || url == pre + "/" + name + ".git\n"
  {
    var name := url[i..j];
    var pre := url[..i - 1];
    if j + 4 == |url| {
      assert url == pre + "/" + name + ".git";
    } else {
      assert url == pre + "/" + name + ".git\n";
    }
  }

  /** A URL that does not end in `.git` (or `.git` and a newline) has no name. */
  lemma NoGitSuffix(url: string)
    requires !GitEndAt(url, |url| - 4) && !GitEndAt(url, |url| - 5)
    ensures GetRepoName(url) == None
  {
    RepoNameSpec(url);
  }

  lemma NameExample(url: string, i: int, j: int, name: string)
    requires NameAt(url, i, j) && url[i..j] == name
    ensures GetRepoName(url) == Some(name)
  {
    RepoNameSpec(url);
  }

  /** "https://github.com/u/repo.git" names "repo". */
  lemma GithubExample()
    ensures GetRepoName("https://github.com/u/repo.git") == Some("repo")
  {
    var url := "https://github.com/u/repo.git";
    assert url[20] == '/' && url[21..25] == "repo" && url[25..29] == ".git";
    NameExample(url, 21, 25, "repo");
  }

  /** Only one `.git` goes: "https://h/x.git.git" names "x.git". */
  lemma DoubleSuffixExample()
    ensures GetRepoName("https://h/x.git.git") == Some("x.git")
  {
    var url := "https://h/x.git.git";
    assert url[9] == '/' && url[10..15] == "x.git" && url[15..19] == ".git";
    NameExample(url, 10, 15, "x.git");
  }

  /** A URL without any '/' has no name. */
  lemma NoSlashNoName(url: string)
    requires forall k :: 0 <= k < |url| ==> url[k] != '/'
    ensures GetRepoName(url) == None
  {
    RepoNameSpec(url);
    assert forall i, j :: !NameAt(url, i, j);
  }

  /** A '/' right before the final `.git` leaves an empty name, which does not match. */
  lemma SlashBeforeSuffix(url: string, j: int)
    requires GitEndAt(url, j) && j >= 1 && url[j - 1] == '/'
    ensures GetRepoName(url) == None
  {
    RepoNameSpec(url);
    forall i, j' | NameAt(url, i, j') ensures false {
      GitEndUnique(url, j', j);
    }
  }

  /** Without a '/' before the name there is no name. */
  lemma NoSlashExample()
    ensures GetRepoName("repo.git") == None
  {
    NoSlashNoName("repo.git");
  }

  /** With nothing between the '/' and `.git` there is no name. */
  lemma EmptyNameExample()
    ensures GetRepoName("x/.git") == None
  {
    var url := "x/.git";
    assert url[2..6] == ".git";
    SlashBeforeSuffix(url, 2);
  }

  /** Without the `.git` suffix there is no name. */
  lemma NoSuffixExample()
    ensures GetRepoName("https://github.com/u/repo") == None
  {
    var u := "https://github.com/u/repo";
    assert u[21..25][0] == 'r' && u[20..24][0] == '/';
    NoGitSuffix(u);
  }
}
