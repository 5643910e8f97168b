/** The repository analyzer's heuristics over a cloned repository: the
    repository coordinates read from a URL, the clone path, the file and
    directory counts, the language histogram, the framework labels, the
    indented directory listing, the class and function names scraped from
    source lines, and the caps on what the code-snippet and structure reports
    show.

    The clone is a `FileTree` whose root entries are the clone directory's;
    the parsed `package.json` is an input, and the existing paths are a set. */
module RepoAnalyzer {
  import opened Wrappers
  import opened Strings
  import opened Dicts
  import opened RepoUrls
  import opened FileTree

  // =====================================================================
  // Repository URLs
  // =====================================================================

  const HttpsHost: string := "github.com/"
  const SshHost: string := "git@github.com:"

  /** The first two `/`-separated parts of what follows a host, when there are two. */
  function FirstTwo(rest: string): (r: Option<(string, string)>)
    ensures r.Some? ==> '/' !in r.value.0 && '/' !in r.value.1
    ensures r.Some? <==> '/' in rest
  {
    var parts := Split(rest, '/');
    if '/' in rest then
      FirstTwoParts(rest);
      Some((parts[0], parts[1]))
    else
      SplitNoSep(rest, '/');
      None
  }

  /** A text with a `/` splits into at least two parts. */
  lemma {:induction false} FirstTwoParts(s: string)
    requires '/' in s
    ensures |Split(s, '/')| >= 2
  {
    if s[0] == '/' {
      assert s == ['/'] + s[1..];
      SplitAfterSep(s[1..], '/');
    } else {
      FirstTwoParts(s[1..]);
    }
  }

  /** The matching of `_parse_repo_url` after the clean-up: the first two parts
      after the last `github.com/`, or else after the last `git@github.com:`;
      `None` stands for the `ValueError`. */
  function ParseCleaned(u: string): (r: Option<(string, string)>)
    ensures r.Some? ==> Contains(u, HttpsHost) || Contains(u, SshHost)
    ensures r.Some? ==> '/' !in r.value.0 && '/' !in r.value.1
  {
    if Contains(u, HttpsHost) && FirstTwo(AfterLast(u, HttpsHost)).Some? then FirstTwo(AfterLast(u, HttpsHost))
    else if Contains(u, SshHost) then FirstTwo(AfterLast(u, SshHost))
    else None
  }

  /** `_parse_repo_url` as written: every `.git` in the URL removed first. */
  function ParseRepoUrlAsWritten(url: string): Option<(string, string)> {
    ParseCleaned(NormalizeUrlAsWritten(url))
  }

  /** `_parse_repo_url` with only a `.git` suffix removed: the definition the
      clone path uses. */
  function ParseRepoUrl(url: string): Option<(string, string)> {
    ParseCleaned(NormalizeUrl(url))
  }

  /** A GitHub account name: letters, digits and hyphens. */
  predicate IsLogin(s: string) {
    s != [] && forall i :: 0 <= i < |s| ==> IsAlnum(s[i]) || s[i] == '-'
  }

  /** A GitHub repository name: letters, digits, `-`, `_` and `.`. */
  predicate IsRepoName(s: string) {
    s != [] && forall i :: 0 <= i < |s| ==> IsAlnum(s[i]) || s[i] == '-' || s[i] == '_' || s[i] == '.'
  }

  /** `github.com/` occurs in `a/b` only where `a` ends in `github.com`. */
  lemma HostInPathEnds(a: string, b: string)
    requires '/' !in a && '/' !in b
    ensures Contains(a + "/" + b, HttpsHost) ==> EndsWith(a, "github.com")
  {
    var x := a + "/" + b;
    if Contains(x, HttpsHost) {
      ContainsOccurs(x, HttpsHost);
      var i: nat :| OccursAt(x, HttpsHost, i);
      OccurrenceEndsAtSlash(a, b, HttpsHost, i);
      assert HttpsHost[..10] == "github.com";
    }
  }

  /** An occurrence in `a/b` of a text ending in its only `/` ends at the `/`
      between `a` and `b`, so `a` ends in the rest of that text. */
  lemma OccurrenceEndsAtSlash(a: string, b: string, t: string, i: nat)
    requires '/' !in a && '/' !in b && t != [] && t[|t| - 1] == '/'
    requires OccursAt(a + "/" + b, t, i)
    ensures |t| - 1 <= |a| && a[|a| - (|t| - 1)..] == t[..|t| - 1]
  {
    var x, n := a + "/" + b, |t| - 1;
    assert x[i + n] == x[i..i + |t|][n];
    OnlySlash(a, b);
    assert i + n == |a|;
    forall k | 0 <= k < n ensures a[i + k] == t[k] {
      assert x[i + k] == x[i..i + |t|][k];
      assert x[i + k] == a[i + k];
    }
    assert a[i..] == t[..n];
  }

  /** In `a/b` with no `/` in `a` or `b`, the one `/` is the one between them. */
  lemma OnlySlash(a: string, b: string)
    requires '/' !in a && '/' !in b
    ensures forall k :: 0 <= k < |a + "/" + b| && k != |a| ==> (a + "/" + b)[k] != '/'
  {
    var x := a + "/" + b;
    forall k | 0 <= k < |x| && k != |a| ensures x[k] != '/' {
      if k < |a| {
        assert x[k] == a[k];
      } else {
        assert x[k] == b[k - |a| - 1];
      }
    }
  }

  lemma NoHostInPath(a: string, b: string)
    requires '/' !in a && '/' !in b && !EndsWith(a, "github.com")
    ensures !Contains(a + "/" + b, HttpsHost)
  {
    HostInPathEnds(a, b);
  }

  lemma LoginNotHost(owner: string)
    requires IsLogin(owner)
    ensures !EndsWith(owner, "github.com") && '/' !in owner && '.' !in owner
  {
    if |owner| >= 10 {
      assert owner[|owner| - 10..][6] == owner[|owner| - 4];
    }
  }

  /** After `https://github.com/`, a path without `github.com/` is what
      follows the last host. */
  lemma HttpsAfterLast(x: string)
    requires !Contains(x, HttpsHost)
    ensures Contains("https://" + (HttpsHost + x), HttpsHost)
    ensures AfterLast("https://" + (HttpsHost + x), HttpsHost) == x
  {
    ContainsAt(HttpsHost + x, HttpsHost, 0);
    ContainsExtend("https://", HttpsHost + x, HttpsHost);
    AfterLastSkip("https://", HttpsHost + x, HttpsHost);
    AfterLastLead(HttpsHost, x);
  }

  /** The matching finds the path after `https://github.com/` when the path
      does not name the host again. */
  lemma ParseAfterHttpsHost(x: string)
    requires !Contains(x, HttpsHost) && '/' in x
    ensures ParseCleaned("https://" + (HttpsHost + x)) == FirstTwo(x)
  {
    HttpsAfterLast(x);
  }

  /** `https://github.com/owner/name`, already cleaned, gives the owner and name. */
  lemma ParseHttpsCleaned(owner: string, name: string)
    requires IsLogin(owner) && IsRepoName(name)
    ensures ParseCleaned("https://github.com/" + owner + "/" + name) == Some((owner, name))
  {
    LoginNotHost(owner);
    var x := owner + "/" + name;
    NoHostInPath(owner, name);
    SplitPair(owner, name, '/');
    assert x[|owner|] == '/';
    ParseAfterHttpsHost(x);
    HttpsUrlRegroup(owner, name);
  }

  /** The HTTPS URL read as scheme, host and path. */
  lemma HttpsUrlRegroup(owner: string, name: string)
    ensures "https://github.com/" + owner + "/" + name == "https://" + (HttpsHost + (owner + "/" + name))
  {
    var scheme, path := "https://", owner + "/" + name;
    assert "https://github.com/" == scheme + HttpsHost;
    assert (scheme + HttpsHost) + owner + "/" + name == scheme + (HttpsHost + path);
  }

  /** The SSH prefix and an account name do not end in `github.com`. */
  lemma SshPrefixNotHost(owner: string)
    requires IsLogin(owner)
    ensures !EndsWith("git@github.com:" + owner, "github.com")
  {
    var a := "git@github.com:" + owner;
    assert a[|a| - 10..][6] == a[|a| - 4];
    if |owner| < 4 {
      assert a[|a| - 4] == "git@github.com:"[11 + |owner|];
    } else {
      assert a[|a| - 4] == owner[|owner| - 4];
    }
  }

  /** `git@github.com:owner/name`, already cleaned, gives the owner and name. */
  lemma ParseSshCleaned(owner: string, name: string)
    requires IsLogin(owner) && IsRepoName(name)
    ensures ParseCleaned("git@github.com:" + owner + "/" + name) == Some((owner, name))
  {
    LoginNotHost(owner);
    var x := owner + "/" + name;
    SshPrefixNotHost(owner);
    NoHostInPath("git@github.com:" + owner, name);
    SshUrlRegroup(owner, name);
    ContainsAt(SshHost + x, SshHost, 0);
    NoAtInPath(owner, name);
    AfterLastLead(SshHost, x);
    SplitPair(owner, name, '/');
  }

  /** The SSH URL read as host and path. */
  lemma SshUrlRegroup(owner: string, name: string)
    ensures "git@github.com:" + owner + "/" + name == ("git@github.com:" + owner) + "/" + name
    ensures "git@github.com:" + owner + "/" + name == SshHost + (owner + "/" + name)
  {
  }

  /** An account name and a repository name hold no `@`, so their path does
      not contain the SSH host. */
  lemma NoAtInPath(owner: string, name: string)
    requires IsLogin(owner) && IsRepoName(name)
    ensures !Contains(owner + "/" + name, SshHost)
  {
    var x := owner + "/" + name;
    forall k | 0 <= k < |x| ensures x[k] != '@' {
      if k < |owner| {
        assert x[k] == owner[k];
      } else if k > |owner| {
        assert x[k] == name[k - |owner| - 1];
      }
    }
    assert SshHost[3] == '@';
    MissingCharNotContained(x, SshHost, '@');
  }

  /** The forms a tool is handed, with or without `.git` and a trailing `/`. */
  predicate IsTail(tail: string) {
    tail == "" || tail == "/" || tail == ".git" || tail == ".git/"
  }

  /** HTTPS URLs give the owner and name with the suffix-only clean-up. */
  lemma ParseHttpsUrl(owner: string, name: string, tail: string)
    requires IsLogin(owner) && IsRepoName(name) && !EndsWith(name, ".git") && IsTail(tail)
    ensures ParseRepoUrl("https://github.com/" + owner + "/" + name + tail) == Some((owner, name))
  {
    LoginNotHost(owner);
    NormalizeForms("https://github.com/" + owner + "/", name, tail);
    ParseHttpsCleaned(owner, name);
  }

  lemma ParseHttpsUrlNoTail(owner: string, name: string)
    requires IsLogin(owner) && IsRepoName(name) && !EndsWith(name, ".git")
    ensures ParseRepoUrl("https://github.com/" + owner + "/" + name) == Some((owner, name))
  {
    ParseHttpsUrl(owner, name, "");
    assert "https://github.com/" + owner + "/" + name + "" == "https://github.com/" + owner + "/" + name;
  }

  /** SSH URLs give the owner and name with the suffix-only clean-up. */
  lemma ParseSshUrl(owner: string, name: string, tail: string)
    requires IsLogin(owner) && IsRepoName(name) && !EndsWith(name, ".git") && IsTail(tail)
    ensures ParseRepoUrl("git@github.com:" + owner + "/" + name + tail) == Some((owner, name))
  {
    LoginNotHost(owner);
    NormalizeForms("git@github.com:" + owner + "/", name, tail);
    ParseSshCleaned(owner, name);
  }

  /** As written, HTTPS and SSH URLs give the owner and name when the name
      holds no `.git`. */
  lemma ParseUrlAsWritten(host: string, owner: string, name: string, tail: string)
    requires host == "https://github.com/" || host == "git@github.com:"
    requires IsLogin(owner) && IsRepoName(name) && !Contains(name, ".git") && IsTail(tail)
    ensures ParseRepoUrlAsWritten(host + owner + "/" + name + tail) == Some((owner, name))
  {
    LoginNotHost(owner);
    var u := host + owner + "/" + name;
    ReplaceHostPath(host, owner, name);
    NormalizeAsWrittenTail(u, tail);
    if host == "https://github.com/" {
      ParseHttpsCleaned(owner, name);
    } else {
      ParseSshCleaned(owner, name);
    }
  }

  /** An account name followed by letters, digits, `-`, `_` or `.` is a repository name. */
  lemma LoginThenName(owner: string, rest: string)
    requires IsLogin(owner)
    requires forall i :: 0 <= i < |rest| ==> IsAlnum(rest[i]) || rest[i] == '-' || rest[i] == '_' || rest[i] == '.'
    ensures IsRepoName(owner + rest)
  {
    var name := owner + rest;
    forall i | 0 <= i < |name| ensures IsAlnum(name[i]) || name[i] == '-' || name[i] == '_' || name[i] == '.' {
      if i < |owner| {
        assert name[i] == owner[i];
      } else {
        assert name[i] == rest[i - |owner|];
      }
    }
  }

  /** As written, the parse renames a user's Pages repository `<owner>.github.io`
      to `<owner>hub.io`. */
  lemma ParseRepoUrlAsWrittenRenamesPagesRepo(owner: string)
    requires IsLogin(owner)
    ensures ParseRepoUrlAsWritten("https://github.com/" + owner + "/" + owner + ".github.io")
         == Some((owner, owner + "hub.io"))
  {
    LoginNotHost(owner);
    NormalizeAsWrittenPagesRepo(owner);
    LoginThenName(owner, "hub.io");
    ParseHttpsCleaned(owner, owner + "hub.io");
    AppendAssoc("https://github.com/" + owner + "/", owner, "hub.io");
  }

  lemma PagesNameNotGit(owner: string)
    ensures !EndsWith(owner + ".github.io", ".git")
  {
    var name := owner + ".github.io";
    assert name[|name| - 4] == 'b';
  }

  /** The corrected parse keeps the name of a user's Pages repository. */
  lemma ParseRepoUrlKeepsPagesRepo(owner: string)
    requires IsLogin(owner)
    ensures ParseRepoUrl("https://github.com/" + owner + "/" + owner + ".github.io")
         == Some((owner, owner + ".github.io"))
  {
    PagesNameNotGit(owner);
    LoginThenName(owner, ".github.io");
    ParseHttpsUrlNoTail(owner, owner + ".github.io");
    AppendAssoc("https://github.com/" + owner + "/", owner, ".github.io");
  }

  /** The clone directory of the parsed coordinates, when the parse succeeded
      and that directory exists. */
  function CloneLookup(cwd: string, coords: Option<(string, string)>, existing: set<string>): Option<string> {
    match coords
    case None => None
    case Some(c) => if CloneDir(cwd, c) in existing then Some(CloneDir(cwd, c)) else None
  }

  /** `get_clone_path`: `<cwd>/temp/github_clones/<owner>/<repo>` when the URL
      parses and that path exists, `None` otherwise (the corrected parse). */
  function ClonePath(cwd: string, url: string, existing: set<string>): (r: Option<string>)
    ensures r.Some? <==> ParseRepoUrl(url).Some? && CloneDir(cwd, ParseRepoUrl(url).value) in existing
    ensures r.Some? ==> r.value == CloneDir(cwd, ParseRepoUrl(url).value)
  {
    CloneLookup(cwd, ParseRepoUrl(url), existing)
  }

  /** `get_clone_path` as written, on the parse that removes every `.git`. */
  function ClonePathAsWritten(cwd: string, url: string, existing: set<string>): (r: Option<string>)
    ensures r.Some? <==> ParseRepoUrlAsWritten(url).Some? && CloneDir(cwd, ParseRepoUrlAsWritten(url).value) in existing
    ensures r.Some? ==> r.value == CloneDir(cwd, ParseRepoUrlAsWritten(url).value)
  {
    CloneLookup(cwd, ParseRepoUrlAsWritten(url), existing)
  }

  /** The clone path of a repository's HTTPS or SSH URL, with any tail, is
      `<cwd>/temp/github_clones/<owner>/<name>` when that directory exists. */
  lemma ClonePathOfUrl(cwd: string, owner: string, name: string, tail: string, existing: set<string>)
    requires IsLogin(owner) && IsRepoName(name) && !EndsWith(name, ".git") && IsTail(tail)
    ensures var dir := cwd + "/temp/github_clones/" + owner + "/" + name;
      var found := if dir in existing then Some(dir) else None;
      && ClonePath(cwd, "https://github.com/" + owner + "/" + name + tail, existing) == found
      && ClonePath(cwd, "git@github.com:" + owner + "/" + name + tail, existing) == found
  {
    ParseHttpsUrl(owner, name, tail);
    ParseSshUrl(owner, name, tail);
  }

  /** For a user's Pages repository, the code as written looks for the clone
      under `<owner>hub.io`, where the corrected parse looks under
      `<owner>.github.io`. */
  lemma ClonePathAsWrittenPagesRepo(cwd: string, owner: string, existing: set<string>)
    requires IsLogin(owner)
    ensures var url := "https://github.com/" + owner + "/" + owner + ".github.io";
      var written := CloneDir(cwd, (owner, owner + "hub.io"));
      var intended := CloneDir(cwd, (owner, owner + ".github.io"));
      && ClonePathAsWritten(cwd, url, existing) == (if written in existing then Some(written) else None)
      && ClonePath(cwd, url, existing) == (if intended in existing then Some(intended) else None)
  {
    ParseRepoUrlAsWrittenRenamesPagesRepo(owner);
    ParseRepoUrlKeepsPagesRepo(owner);
  }

  function CloneDir(cwd: string, coords: (string, string)): string {
    cwd + "/temp/github_clones/" + coords.0 + "/" + coords.1
  }

  /** A URL naming neither host has no clone path. */
  lemma NoHostNoClone(cwd: string, url: string, existing: set<string>)
    requires !Contains(NormalizeUrl(url), HttpsHost) && !Contains(NormalizeUrl(url), SshHost)
    ensures ClonePath(cwd, url, existing) == None
  {
  }
}
