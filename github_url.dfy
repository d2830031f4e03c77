/** `parse_github_url` of moss.py: the regular expression
    `https?://github\.com/(?P<owner>[\w.-]+)/(?P<repo>[\w.-]+)(/tree/(?P<branch>[\w.-]+))?(?P<path>/.*)?`
    applied with `re.match` (anchored at the start only), followed by the branch
    and path defaults and the removal of the path's leading slashes.

    No `[\w.-]+` group ever has to give characters back: each is followed by `/`
    or by optional groups that start with `/`, and `/` is not a name character,
    so each group takes the longest run it can. The optional tree group may be
    entered and then abandoned (on `.../o/r/tree/?x`, say), which the model
    covers by falling back to the path group. The parser is therefore written as
    a scan of maximal runs. */
module GitHubUrl {
  import opened PyStr

  datatype Result<+T> = Success(value: T) | Failure(error: string)

  /** The four strings the parser returns. */
  datatype Location = Location(owner: string, repo: string, branch: string, path: string)

  const InvalidUrl := "Invalid GitHub URL"
  const DefaultBranch := "main"
  const HttpsHost := "https://github.com/"
  const HttpHost := "http://github.com/"
  const TreeMarker := "/tree/"

  /** `\w`, restricted to ASCII: a letter, a digit or `_`. */
  predicate IsWordChar(c: char) {
    ('a' <= c <= 'z') || ('A' <= c <= 'Z') || ('0' <= c <= '9') || c == '_'
  }

  /** The class `[\w.-]` of the owner, repo and branch groups. */
  predicate IsNameChar(c: char) {
    IsWordChar(c) || c == '.' || c == '-'
  }

  /** What `[\w.-]+` matches in full. */
  predicate IsName(s: string) {
    |s| > 0 && forall i :: 0 <= i < |s| ==> IsNameChar(s[i])
  }

  /** The length of the longest run of name characters at the start of `s`: what
      the greedy `[\w.-]+` takes. */
  function NameRun(s: string): (k: nat)
    ensures k <= |s|
    ensures forall i :: 0 <= i < k ==> IsNameChar(s[i])
    ensures k == |s| || !IsNameChar(s[k])
  {
    if |s| == 0 || !IsNameChar(s[0]) then 0 else 1 + NameRun(s[1..])
  }

  /** The length of `s` up to its first newline: what `.*` takes, since `.` does
      not match a newline. */
  function LineRun(s: string): (k: nat)
    ensures k <= |s|
    ensures '\n' !in s[..k]
    ensures k == |s| || s[k] == '\n'
  {
    if |s| == 0 || s[0] == '\n' then 0
    else
      var k := 1 + LineRun(s[1..]);
      assert s[..k] == [s[0]] + s[1..][..k - 1];
      k
  }

  /** `s.lstrip('/')`: only slashes are removed, all of those at the front. */
  function LStripSlashes(s: string): (r: string)
    ensures |r| <= |s| && r == s[|s| - |r|..]
    ensures forall i :: 0 <= i < |s| - |r| ==> s[i] == '/'
    ensures r == [] || r[0] != '/'
  {
    if |s| > 0 && s[0] == '/' then LStripSlashes(s[1..]) else s
  }

  /** The text after `https://github.com/` or `http://github.com/`, when the URL
      begins with one of them. */
  function AfterHost(url: string): (t: Option<string>)
    ensures t.Some? <==>
      || (|HttpsHost| <= |url| && url[..|HttpsHost|] == HttpsHost)
      || (|HttpHost| <= |url| && url[..|HttpHost|] == HttpHost)
  {
    if |HttpsHost| <= |url| && url[..|HttpsHost|] == HttpsHost then Some(url[|HttpsHost|..])
    else if |HttpHost| <= |url| && url[..|HttpHost|] == HttpHost then Some(url[|HttpHost|..])
    else None
  }

  /** The optional group `(/tree/(?P<branch>[\w.-]+))?` at the start of `tail`:
      the branch it captures, if any, and the text after it. */
  function TreeGroup(tail: string): (g: (Option<string>, string))
    ensures g.0.Some? ==> IsName(g.0.value) && tail == TreeMarker + g.0.value + g.1
    ensures g.0.Some? ==> g.1 == [] || !IsNameChar(g.1[0])
    ensures g.0.None? ==> g.1 == tail
  {
    var m := |TreeMarker|;
    if m < |tail| && tail[..m] == TreeMarker && IsNameChar(tail[m]) then
      var after := tail[m..];
      var k := NameRun(after);
      assert tail == TreeMarker + after[..k] + after[k..];
      (Some(after[..k]), after[k..])
    else
      (None, tail)
  }

  /** The optional group `(?P<path>/.*)?` at the start of `s`: a slash and the
      rest of its line. */
  function PathGroup(s: string): (p: Option<string>)
    ensures p.Some? <==> |s| > 0 && s[0] == '/'
    ensures p.Some? ==> |p.value| <= |s| && p.value == s[..|p.value|] && '\n' !in p.value
    ensures p.Some? ==> |p.value| == |s| || s[|p.value|] == '\n'
  {
    if |s| > 0 && s[0] == '/' then Some(s[..LineRun(s)]) else None
  }

  /** `group or default` for an optional group. Python's `or` also falls back on
      the default for a group that matched the empty string, but neither group
      it is used on can: the branch is a name, and the path starts with `/`. */
  function OrElse(g: Option<string>, default: string): (r: string)
    ensures g.Some? ==> r == g.value
    ensures g.None? ==> r == default
  {
    match g
    case Some(v) => v
    case None => default
  }

  /** What the text after the repo name gives for the branch and the path. */
  function TailFields(tail: string): (string, string) {
    var (branch, rest) := TreeGroup(tail);
    (OrElse(branch, DefaultBranch), LStripSlashes(OrElse(PathGroup(rest), "")))
  }

  /** `(?P<owner>[\w.-]+)/(?P<repo>[\w.-]+)` at the start of `t`: the owner, the
      repo and the text after the repo, when both names are there. */
  function OwnerRepo(t: string): (r: Option<(string, string, string)>)
    ensures r.Some? ==> IsName(r.value.0) && IsName(r.value.1)
    ensures r.Some? ==> t == r.value.0 + "/" + r.value.1 + r.value.2
    ensures r.Some? ==> r.value.2 == [] || !IsNameChar(r.value.2[0])
  {
    var o := NameRun(t);
    if o == 0 || o == |t| || t[o] != '/' then None
    else
      var t2 := t[o + 1..];
      var k := NameRun(t2);
      if k == 0 then None
      else
        assert t == t[..o] + "/" + t2[..k] + t2[k..];
        Some((t[..o], t2[..k], t2[k..]))
  }

  /** `parse_github_url`: owner, repo, branch and path, or the `ValueError` the
      source raises when the pattern does not match. */
  function ParseGitHubUrl(url: string): (r: Result<Location>)
    ensures r.Failure? ==> r.error == InvalidUrl
    ensures r.Success? ==> IsName(r.value.owner) && IsName(r.value.repo) && IsName(r.value.branch)
    ensures r.Success? ==> '/' !in r.value.owner && '/' !in r.value.repo && '/' !in r.value.branch
    ensures r.Success? ==> (r.value.path == [] || r.value.path[0] != '/') && '\n' !in r.value.path
  {
    match AfterHost(url)
    case None => Failure(InvalidUrl)
    case Some(t) =>
      match OwnerRepo(t)
      case None => Failure(InvalidUrl)
      case Some((owner, repo, tail)) =>
        var (branch, path) := TailFields(tail);
        TailFieldsShape(tail);
        Success(Location(owner, repo, branch, path))
  }

  /** The branch is a name, and the path neither starts with a slash nor holds a
      newline. */
  lemma TailFieldsShape(tail: string)
    ensures IsName(TailFields(tail).0)
    ensures var path := TailFields(tail).1; (path == [] || path[0] != '/') && '\n' !in path
  {
    var rest := TreeGroup(tail).1;
    var g := OrElse(PathGroup(rest), "");
    var path := LStripSlashes(g);
    assert path == g[|g| - |path|..];
    assert '\n' !in path by {
      forall i | 0 <= i < |path|
        ensures path[i] != '\n'
      {
        assert path[i] == g[|g| - |path| + i];
      }
    }
  }

  /** The accepted URLs, stated without the scan: a scheme, the host, a name, a
      slash and a name, followed by anything. */
  ghost predicate Accepted(url: string) {
    exists scheme, owner, repo, rest | scheme in {HttpsHost, HttpHost} ::
      IsName(owner) && IsName(repo) && url == scheme + owner + "/" + repo + rest
  }

  /** The run of name characters in `n + rest` is exactly `n` when `rest` does not
      start with a name character. */
  lemma {:induction false} NameRunOf(n: string, rest: string)
    requires forall i :: 0 <= i < |n| ==> IsNameChar(n[i])
    requires rest == [] || !IsNameChar(rest[0])
    ensures NameRun(n + rest) == |n|
  {
    if n != [] {
      assert (n + rest)[1..] == n[1..] + rest;
      NameRunOf(n[1..], rest);
    }
  }

  /** Name characters at the front of `s` are all taken by the run. */
  lemma NameRunAtLeast(n: string, rest: string)
    requires forall i :: 0 <= i < |n| ==> IsNameChar(n[i])
    ensures NameRun(n + rest) >= |n|
  {
    var k := NameRun(n + rest);
    assert forall i :: 0 <= i < |n| ==> (n + rest)[i] == n[i];
  }

  lemma AfterHostOf(scheme: string, t: string)
    requires scheme == HttpsHost || scheme == HttpHost
    ensures AfterHost(scheme + t) == Some(t)
  {
    var url := scheme + t;
    assert url[..|scheme|] == scheme && url[|scheme|..] == t;
    if scheme == HttpHost {
      assert url[4] == ':';
    }
  }

  lemma OwnerRepoOf(owner: string, repo: string, tail: string)
    requires IsName(owner) && IsName(repo)
    requires tail == [] || !IsNameChar(tail[0])
    ensures OwnerRepo(owner + "/" + repo + tail) == Some((owner, repo, tail))
  {
    var t := owner + "/" + repo + tail;
    assert t == owner + ("/" + repo + tail);
    NameRunOf(owner, "/" + repo + tail);
    var t2 := t[|owner| + 1..];
    assert t2 == repo + tail;
    NameRunOf(repo, tail);
    assert t[..|owner|] == owner && t2[..|repo|] == repo && t2[|repo|..] == tail;
  }

  /** Whatever follows the host, owner, `/` and repo, the URL is parsed into that
      owner and repo and the fields the text after the repo determines. */
  lemma ParseParts(scheme: string, owner: string, repo: string, tail: string)
    requires scheme == HttpsHost || scheme == HttpHost
    requires IsName(owner) && IsName(repo)
    requires tail == [] || !IsNameChar(tail[0])
    ensures ParseGitHubUrl(scheme + owner + "/" + repo + tail)
         == Success(Location(owner, repo, TailFields(tail).0, TailFields(tail).1))
  {
    var t := owner + "/" + repo + tail;
    assert scheme + owner + "/" + repo + tail == scheme + t;
    AfterHostOf(scheme, t);
    OwnerRepoOf(owner, repo, tail);
    ParseOf(scheme + t, t, owner, repo, tail);
  }

  /** `ParseParts` for a URL written in some other grouping. */
  lemma ParseUrlParts(url: string, scheme: string, owner: string, repo: string, tail: string)
    requires scheme == HttpsHost || scheme == HttpHost
    requires IsName(owner) && IsName(repo)
    requires tail == [] || !IsNameChar(tail[0])
    requires url == scheme + owner + "/" + repo + tail
    ensures ParseGitHubUrl(url) == Success(Location(owner, repo, TailFields(tail).0, TailFields(tail).1))
  {
    ParseParts(scheme, owner, repo, tail);
  }

  /** The parse in terms of its two stages. */
  lemma ParseOf(url: string, t: string, owner: string, repo: string, tail: string)
    requires AfterHost(url) == Some(t)
    requires OwnerRepo(t) == Some((owner, repo, tail))
    ensures ParseGitHubUrl(url) == Success(Location(owner, repo, TailFields(tail).0, TailFields(tail).1))
  {
  }

  /** Every URL that begins with a scheme, the host, a name, a slash and a name
      is parsed, whatever follows. */
  lemma AcceptedParses(url: string)
    requires Accepted(url)
    ensures ParseGitHubUrl(url).Success?
  {
    var scheme, owner, repo, rest :| scheme in {HttpsHost, HttpHost} &&
      IsName(owner) && IsName(repo) && url == scheme + owner + "/" + repo + rest;
    var k := NameRun(repo + rest);
    NameRunAtLeast(repo, rest);
    var repo' := (repo + rest)[..k];
    var tail := (repo + rest)[k..];
    assert repo + rest == repo' + tail;
    assert IsName(repo');
    assert url == scheme + owner + "/" + repo' + tail;
    ParseUrlParts(url, scheme, owner, repo', tail);
  }

  /** Every URL that is parsed begins with a scheme, the host, the owner, a slash
      and the repo it reports. */
  lemma ParsedAccepted(url: string)
    requires ParseGitHubUrl(url).Success?
    ensures Accepted(url)
    ensures var l := ParseGitHubUrl(url).value;
      exists scheme, rest | scheme in {HttpsHost, HttpHost} :: url == scheme + l.owner + "/" + l.repo + rest
  {
    var t := AfterHost(url).value;
    var scheme := HostSplit(url);
    var (owner, repo, tail) := OwnerRepo(t).value;
    assert ParseGitHubUrl(url).value.owner == owner && ParseGitHubUrl(url).value.repo == repo;
    RegroupUrl(scheme, owner, repo, tail);
    assert url == scheme + owner + "/" + repo + tail;
    assert scheme in {HttpsHost, HttpHost};
  }

  lemma RegroupUrl(scheme: string, owner: string, repo: string, tail: string)
    ensures scheme + (owner + "/" + repo + tail) == scheme + owner + "/" + repo + tail
  {
  }

  /** A URL with a recognised host is that host's scheme followed by the rest. */
  lemma HostSplit(url: string) returns (scheme: string)
    requires AfterHost(url).Some?
    ensures scheme == HttpsHost || scheme == HttpHost
    ensures url == scheme + AfterHost(url).value
  {
    if |HttpsHost| <= |url| && url[..|HttpsHost|] == HttpsHost {
      scheme := HttpsHost;
    } else {
      scheme := HttpHost;
    }
    assert url == url[..|scheme|] + url[|scheme|..];
  }

  /** The parser fails exactly on the URLs that do not begin with a scheme, the
      host, a name, a slash and a name; the error is always the same. */
  lemma ParseFailsIffNotAccepted(url: string)
    ensures ParseGitHubUrl(url).Failure? <==> !Accepted(url)
  {
    if Accepted(url) {
      AcceptedParses(url);
    }
    if ParseGitHubUrl(url).Success? {
      ParsedAccepted(url);
    }
  }

  /** Text that starts with neither a name character nor a slash gives the
      default branch and an empty path. */
  lemma TailBare(rest: string)
    requires rest == [] || (!IsNameChar(rest[0]) && rest[0] != '/')
    ensures TailFields(rest) == (DefaultBranch, "")
  {
    assert TreeGroup(rest) == (None, rest);
    assert PathGroup(rest) == None;
  }

  /** A repository URL with nothing after it, or followed by anything that starts
      with neither a name character nor a slash (a query, a fragment), gives the
      default branch and an empty path. */
  lemma RoundTripBare(scheme: string, owner: string, repo: string, rest: string)
    requires scheme == HttpsHost || scheme == HttpHost
    requires IsName(owner) && IsName(repo)
    requires rest == [] || (!IsNameChar(rest[0]) && rest[0] != '/')
    ensures ParseGitHubUrl(scheme + owner + "/" + repo + rest) == Success(Location(owner, repo, DefaultBranch, ""))
  {
    TailBare(rest);
    ParseParts(scheme, owner, repo, rest);
  }

  /** `/tree/` and a branch name, followed by anything that does not continue the
      name, is taken as the tree group. */
  lemma TreeGroupOf(branch: string, s: string)
    requires IsName(branch)
    requires s == [] || !IsNameChar(s[0])
    ensures TreeGroup(TreeMarker + branch + s) == (Some(branch), s)
  {
    var after := branch + s;
    var tail := TreeMarker + after;
    assert tail == TreeMarker + branch + s;
    assert tail[..|TreeMarker|] == TreeMarker && tail[|TreeMarker|..] == after;
    assert tail[|TreeMarker|] == branch[0];
    NameRunOf(branch, s);
    assert after[..|branch|] == branch && after[|branch|..] == s;
  }

  /** After the repo, `/tree/<branch>/<path>` gives that branch and path. */
  lemma TailTree(branch: string, path: string, rest: string)
    requires IsName(branch)
    requires (path == [] || path[0] != '/') && '\n' !in path
    requires rest == [] || rest[0] == '\n'
    ensures TailFields(TreeMarker + branch + "/" + path + rest) == (branch, path)
  {
    var s := "/" + path + rest;
    assert TreeMarker + branch + "/" + path + rest == TreeMarker + branch + s;
    TreeGroupOf(branch, s);
    PathLine(path, rest);
  }

  lemma RegroupTree(scheme: string, owner: string, repo: string, branch: string, path: string, rest: string)
    ensures scheme + owner + "/" + repo + TreeMarker + branch + "/" + path + rest
         == scheme + owner + "/" + repo + (TreeMarker + branch + "/" + path + rest)
  {
  }

  /** A URL is parsed into its owner and repo and the branch and path that the
      text after the repo gives. */
  lemma ParseTailFields(url: string, scheme: string, owner: string, repo: string, tail: string,
                        branch: string, path: string)
    requires scheme == HttpsHost || scheme == HttpHost
    requires IsName(owner) && IsName(repo)
    requires tail == [] || !IsNameChar(tail[0])
    requires TailFields(tail) == (branch, path)
    requires url == scheme + owner + "/" + repo + tail
    ensures ParseGitHubUrl(url) == Success(Location(owner, repo, branch, path))
  {
    ParseUrlParts(url, scheme, owner, repo, tail);
  }

  /** A tree segment starts with a slash, so it never continues the repo name. */
  lemma TreeTailStart(branch: string, path: string, rest: string)
    ensures var tail := TreeMarker + branch + "/" + path + rest; tail == [] || !IsNameChar(tail[0])
  {
    assert (TreeMarker + branch + "/" + path + rest)[0] == '/';
  }

  /** A URL naming a branch and a path gives them back, whatever follows the
      path's line. */
  lemma RoundTripTree(scheme: string, owner: string, repo: string, branch: string, path: string, rest: string)
    requires scheme == HttpsHost || scheme == HttpHost
    requires IsName(owner) && IsName(repo) && IsName(branch)
    requires (path == [] || path[0] != '/') && '\n' !in path
    requires rest == [] || rest[0] == '\n'
    ensures ParseGitHubUrl(scheme + owner + "/" + repo + TreeMarker + branch + "/" + path + rest)
         == Success(Location(owner, repo, branch, path))
  {
    TailTree(branch, path, rest);
    TreeTailStart(branch, path, rest);
    RegroupTree(scheme, owner, repo, branch, path, rest);
    ParseTailFields(scheme + owner + "/" + repo + TreeMarker + branch + "/" + path + rest,
                   scheme, owner, repo, TreeMarker + branch + "/" + path + rest, branch, path);
  }

  /** The line run of a newline-free `line` followed by a newline or nothing is
      all of `line`. */
  lemma {:induction false} LineRunOf(line: string, rest: string)
    requires '\n' !in line
    requires rest == [] || rest[0] == '\n'
    ensures LineRun(line + rest) == |line|
  {
    if line != [] {
      assert (line + rest)[1..] == line[1..] + rest;
      assert line[0] in line;
      assert forall c :: c in line[1..] ==> c in line;
      LineRunOf(line[1..], rest);
    }
  }

  /** The path group of `/path` followed by a newline or nothing is `/path`, and
      stripping its slash gives `path` back. */
  lemma PathLine(path: string, rest: string)
    requires (path == [] || path[0] != '/') && '\n' !in path
    requires rest == [] || rest[0] == '\n'
    ensures PathGroup("/" + path + rest) == Some("/" + path)
    ensures LStripSlashes("/" + path) == path
  {
    var s := "/" + path + rest;
    assert s == ("/" + path) + rest;
    LineRunOf("/" + path, rest);
    assert s[..|path| + 1] == "/" + path;
    assert ("/" + path)[1..] == path;
  }

  /** A slash and a path that does not begin with a tree segment is not taken as
      the tree group. */
  lemma NoTreeGroup(path: string)
    requires !(|path| > 5 && path[..5] == "tree/" && IsNameChar(path[5]))
    ensures TreeGroup("/" + path) == (None, "/" + path)
  {
    var tail := "/" + path;
    if |TreeMarker| < |tail| && tail[..|TreeMarker|] == TreeMarker {
      assert tail[1..|TreeMarker|] == path[..5];
      assert tail[|TreeMarker|] == path[5];
    }
  }

  /** After the repo, a path that does not begin with a tree segment gives the
      default branch and that path. */
  lemma TailNoTree(path: string)
    requires (path == [] || path[0] != '/') && '\n' !in path
    requires !(|path| > 5 && path[..5] == "tree/" && IsNameChar(path[5]))
    ensures TailFields("/" + path) == (DefaultBranch, path)
  {
    NoTreeGroup(path);
    PathLine(path, "");
    assert "/" + path + "" == "/" + path;
  }

  /** A path straight after the repo, with no `/tree/<branch>` segment, is
      returned with the default branch. */
  lemma PathWithoutTree(scheme: string, owner: string, repo: string, path: string)
    requires scheme == HttpsHost || scheme == HttpHost
    requires IsName(owner) && IsName(repo)
    requires (path == [] || path[0] != '/') && '\n' !in path
    requires !(|path| > 5 && path[..5] == "tree/" && IsNameChar(path[5]))
    ensures ParseGitHubUrl(scheme + owner + "/" + repo + "/" + path) == Success(Location(owner, repo, DefaultBranch, path))
  {
    var url := scheme + owner + "/" + repo + "/" + path;
    var tail := "/" + path;
    assert url == scheme + owner + "/" + repo + tail;
    TailNoTree(path);
    ParseUrlParts(url, scheme, owner, repo, tail);
  }

  /** A `.git` suffix stays part of the repo name.

      This example and the two after it take the URL as a parameter pinned by
      their precondition rather than writing it into the postcondition: the
      verifier unfolds a recursive function on a literal argument without any
      bound, and on a literal URL that unfolding of the parser's scans is more
      than it can finish. */
  lemma ExampleDotGit(url: string)
    requires url == "https://github.com/o/r.git"
    ensures ParseGitHubUrl(url) == Success(Location("o", "r.git", "main", ""))
  {
    assert IsName("o") && IsName("r.git");
    assert url == HttpsHost + "o" + "/" + "r.git" + "";
    RoundTripBare(HttpsHost, "o", "r.git", "");
  }

  /** A path without a tree segment: the branch defaults to `main`. */
  lemma ExampleDocs(url: string)
    requires url == "https://github.com/o/r/docs"
    ensures ParseGitHubUrl(url) == Success(Location("o", "r", "main", "docs"))
  {
    assert IsName("o") && IsName("r");
    assert url == HttpsHost + "o" + "/" + "r" + "/" + "docs";
    PathWithoutTree(HttpsHost, "o", "r", "docs");
  }

  /** Another host is rejected. */
  lemma ExampleOtherHost(url: string)
    requires url == "https://gitlab.com/o/r"
    ensures ParseGitHubUrl(url) == Failure(InvalidUrl)
  {
    assert url[..|HttpsHost|] != HttpsHost by { assert url[11] != HttpsHost[11]; }
    assert url[..|HttpHost|] != HttpHost by { assert url[4] != HttpHost[4]; }
  }
}
