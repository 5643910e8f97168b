/** The clean-up both repository-URL parsers apply before matching, and the
    facts about it the parsers' lemmas rest on.

    As written, both parsers strip the trailing `/` and then remove every
    `.git` in the URL; the corrected clean-up removes one `.git` suffix only. */
module RepoUrls {
  import opened Strings

  /** The URL clean-up as written: trailing `/` stripped, then every `.git` removed. */
  function NormalizeUrlAsWritten(url: string): string {
    ReplaceAll(RStrip(url, '/'), ".git", "")
  }

  /** `s` with one trailing `suffix` removed, if it has one. */
  function RemoveSuffix(s: string, suffix: string): (r: string)
    ensures r <= s
  {
    if EndsWith(s, suffix) then s[..|s| - |suffix|] else s
  }

  /** The clean-up the comment beside it describes: trailing `/` stripped, then
      one `.git` suffix removed. */
  function NormalizeUrl(url: string): string {
    RemoveSuffix(RStrip(url, '/'), ".git")
  }

  /** A GitHub owner or repository name as it appears in a URL: non-empty, no `/`. */
  predicate IsUrlName(s: string) {
    s != [] && '/' !in s
  }

  /** Stripping the trailing `/` of a URL tail leaves its `.git`, if any. */
  lemma RStripTail(u: string, tail: string)
    requires u != [] && u[|u| - 1] != '/'
    requires tail == "" || tail == "/" || tail == ".git" || tail == ".git/"
    ensures RStrip(u + tail, '/') == u + (if tail == "" || tail == "/" then "" else ".git")
  {
    var kept := if tail == "" || tail == "/" then "" else ".git";
    var t := u + tail;
    if tail == "/" || tail == ".git/" {
      assert t[..|t| - 1] == u + kept;
      assert RStrip(t, '/') == RStrip(u + kept, '/');
    }
    assert (u + kept)[|u + kept| - 1] != '/';
  }

  /** A URL path ending in `/name` does not end in `.git` when `name` does not. */
  lemma NoGitEnding(prefix: string, name: string)
    requires |prefix| >= 4 && prefix[|prefix| - 1] == '/'
    requires name != [] && !EndsWith(name, ".git")
    ensures !EndsWith(prefix + name, ".git")
  {
    var u := prefix + name;
    if |name| >= 4 {
      assert u[|u| - 4..] == name[|name| - 4..];
    } else {
      assert u[|u| - 4..][3 - |name|] == '/';
    }
  }

  /** The clean-up removes exactly the tail. */
  lemma NormalizeForms(prefix: string, name: string, tail: string)
    requires |prefix| >= 4 && prefix[|prefix| - 1] == '/'
    requires IsUrlName(name) && !EndsWith(name, ".git")
    requires tail == "" || tail == "/" || tail == ".git" || tail == ".git/"
    ensures NormalizeUrl(prefix + name + tail) == prefix + name
  {
    var u := prefix + name;
    assert u[|u| - 1] == name[|name| - 1];
    RStripTail(u, tail);
    NoGitEnding(prefix, name);
    if tail == ".git" || tail == ".git/" {
      assert (u + ".git")[..|u|] == u;
    }
  }

  /** A `.` not followed by `git` survives the removal of every `.git`. */
  lemma DotNotGit(m: string, t: string)
    requires m == [] || m[0] != 'g'
    ensures ReplaceAll("." + (m + (".git" + t)), ".git", "") == "." + ReplaceAll(m + (".git" + t), ".git", "")
  {
    var rest := "." + (m + (".git" + t));
    if m == [] {
      assert rest[1] == '.';
    } else {
      assert rest[1] == m[0];
    }
    assert !(".git" <= rest);
    assert rest[1..] == m + (".git" + t);
  }

  /** A leading `.git` is removed. */
  lemma LeadingGit(t: string)
    ensures ReplaceAll(".git" + t, ".git", "") == ReplaceAll(t, ".git", "")
  {
    assert (".git" + t)[4..] == t;
  }

  /** Removing every `.git` from `a.m.git t`, where `a` and `m` hold no `.`,
      `m` does not start with `g` and `t` holds no `.git`, leaves `a.m t`. */
  lemma DropInnerGit(a: string, m: string, t: string)
    requires '.' !in a && '.' !in m && (m == [] || m[0] != 'g') && !Contains(t, ".git")
    ensures ReplaceAll(a + ("." + (m + (".git" + t))), ".git", "") == a + ("." + (m + t))
  {
    ReplaceSkip(a, "." + (m + (".git" + t)), ".git", "");
    DotNotGit(m, t);
    ReplaceSkip(m, ".git" + t, ".git", "");
    LeadingGit(t);
    ReplaceAbsent(t, ".git", "");
  }

  /** The Pages repository URL, cut where the clean-up acts. */
  lemma PagesUrlPieces(owner: string)
    ensures "https://github.com/" + owner + "/" + owner + ".github.io"
         == "https://github" + ("." + (("com/" + owner + "/" + owner) + (".git" + "hub.io")))
    ensures "https://github" + ("." + (("com/" + owner + "/" + owner) + "hub.io"))
         == "https://github.com/" + owner + "/" + owner + "hub.io"
    ensures '.' !in "https://github"
  {
  }

  lemma PagesUrlNoTrailingSlash(owner: string)
    ensures RStrip("https://github.com/" + owner + "/" + owner + ".github.io", '/')
         == "https://github.com/" + owner + "/" + owner + ".github.io"
  {
  }

  lemma NoGitInHubIo()
    ensures !Contains("hub.io", ".git")
  {
    MissingCharNotContained("hub.io", ".git", 'g');
  }

  /** The `.git` clean-up as written also removes the `.git` inside the name
      of a user's Pages repository, `<owner>.github.io`. */
  lemma NormalizeAsWrittenPagesRepo(owner: string)
    requires IsUrlName(owner) && '.' !in owner
    ensures NormalizeUrlAsWritten("https://github.com/" + owner + "/" + owner + ".github.io")
         == "https://github.com/" + owner + "/" + owner + "hub.io"
  {
    var m := "com/" + owner + "/" + owner;
    PagesUrlPieces(owner);
    PagesUrlNoTrailingSlash(owner);
    NoGitInHubIo();
    assert '.' !in m && m[0] == 'c';
    DropInnerGit("https://github", m, "hub.io");
  }

  /** A `.` not followed by `g` survives the removal of every `.git`. */
  lemma DotStep(m: string)
    requires m != [] && m[0] != 'g'
    ensures ReplaceAll("." + m, ".git", "") == "." + ReplaceAll(m, ".git", "")
  {
    var s := "." + m;
    assert s[1] == m[0];
    assert !(".git" <= s);
    assert s[1..] == m;
  }

  /** A trailing `.git` is removed on its own. */
  lemma ReplaceGitSuffix(u: string)
    ensures ReplaceAll(u + ".git", ".git", "") == ReplaceAll(u, ".git", "")
  {
    ReplaceAppended(u, ".git", "");
    assert ReplaceAll(u, ".git", "") + "" == ReplaceAll(u, ".git", "");
  }

  /** The clean-up as written, applied to a URL with no `.git` before the
      tail, removes exactly the tail. */
  lemma NormalizeAsWrittenTail(u: string, tail: string)
    requires u != [] && u[|u| - 1] != '/'
    requires ReplaceAll(u, ".git", "") == u
    requires tail == "" || tail == "/" || tail == ".git" || tail == ".git/"
    ensures NormalizeUrlAsWritten(u + tail) == u
  {
    RStripTail(u, tail);
    var kept := if tail == "" || tail == "/" then "" else ".git";
    assert RStrip(u + tail, '/') == u + kept;
    if kept == "" {
      assert u + kept == u;
    } else {
      ReplaceGitSuffix(u);
    }
  }

  /** Each host has one `.`, followed by `c`. */
  lemma HostDot(host: string) returns (head: string, tail: string)
    requires host == "https://github.com/" || host == "git@github.com:"
    ensures host == head + "." + tail
    ensures '.' !in head && '.' !in tail && tail != [] && tail[0] == 'c'
  {
    if host == "https://github.com/" {
      head, tail := "https://github", "com/";
    } else {
      head, tail := "git@github", "com:";
    }
  }

  /** `https://github.com/` and `git@github.com:` pass through the removal of
      every `.git`, and so does a `/`-free part without `.` before a name
      without `.git`. */
  lemma ReplaceHostPath(host: string, login: string, name: string)
    requires host == "https://github.com/" || host == "git@github.com:"
    requires '.' !in login && !Contains(name, ".git")
    ensures ReplaceAll(host + login + "/" + name, ".git", "") == host + login + "/" + name
  {
    var head, tail := HostDot(host);
    ReplaceDottedPath(head, tail, login, name);
  }

  lemma Regroup(head: string, tail: string, login: string, name: string)
    ensures head + "." + tail + login + "/" + name == head + ("." + ((tail + (login + "/")) + name))
  {
  }

  /** The same for any `head.tail` host whose one `.` is not followed by `g`. */
  lemma ReplaceDottedPath(head: string, tail: string, login: string, name: string)
    requires '.' !in head && '.' !in tail && tail != [] && tail[0] != 'g'
    requires '.' !in login && !Contains(name, ".git")
    ensures ReplaceAll(head + "." + tail + login + "/" + name, ".git", "") == head + "." + tail + login + "/" + name
  {
    var m := tail + (login + "/");
    Regroup(head, tail, login, name);
    assert m[0] == tail[0] && '.' !in m;
    ReplaceSkip(head, "." + (m + name), ".git", "");
    DotStep(m + name);
    ReplaceSkip(m, name, ".git", "");
    ReplaceAbsent(name, ".git", "");
  }
}
