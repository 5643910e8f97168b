/** The GitHub Pages deployer: the slug a post title becomes, the repository
    coordinates read from a URL, the Jekyll post file it writes (name, YAML
    front matter, body), the commit message, the Pages URL it predicts, and the
    way it classifies a later fetch of that URL.

    The git subprocesses (pull or clone, add, commit, push) are not modelled;
    their success or failure is the `GitRun` input. */
module PagesDeployer {
  import opened Wrappers
  import opened Strings
  import opened Dicts
  import opened Metadata
  import opened Clock
  import opened RepoUrls

  // =====================================================================
  // Slugs
  // =====================================================================

  predicate IsSlugChar(c: char) { IsLowerLetter(c) || IsDigit(c) || c == '-' }

  /** Positions `i` and `i + 1` both hold a hyphen. */
  predicate HyphenPairAt(s: string, i: nat)
    requires i + 1 < |s|
  {
    s[i] == '-' && s[i + 1] == '-'
  }

  predicate NoDoubleHyphen(s: string) {
    forall i :: 0 <= i < |s| - 1 ==> !HyphenPairAt(s, i)
  }

  /** What a slug is: only `[a-z0-9-]`, no `--`, no leading or trailing `-`. */
  predicate IsSlug(s: string) {
    && (forall i :: 0 <= i < |s| ==> IsSlugChar(s[i]))
    && NoDoubleHyphen(s)
    && (s != [] ==> s[0] != '-' && s[|s| - 1] != '-')
  }

  /** `re.sub(r"[^a-z0-9-]", "", s)`: every character outside the slug alphabet
      dropped. A clean text is kept whole, a text without slug characters
      vanishes, and by KeepSlugCharsConcat the filter works piece by piece. */
  function KeepSlugChars(s: string): (r: string)
    ensures forall i :: 0 <= i < |r| ==> IsSlugChar(r[i])
    ensures (forall i :: 0 <= i < |s| ==> IsSlugChar(s[i])) ==> r == s
    ensures (forall i :: 0 <= i < |s| ==> !IsSlugChar(s[i])) ==> r == []
  {
    if s == [] then []
    else if IsSlugChar(s[0]) then [s[0]] + KeepSlugChars(s[1..])
    else KeepSlugChars(s[1..])
  }

  /** `re.sub(r"-+", "-", s)`: every run of hyphens shrunk to one. */
  function CollapseHyphens(s: string): (r: string)
    ensures |r| <= |s|
    ensures s != [] ==> r != [] && r[0] == s[0] && r[|r| - 1] == s[|s| - 1]
    ensures forall i :: 0 <= i < |r| ==> r[i] in s
    ensures NoDoubleHyphen(r)
  {
    if |s| <= 1 then s
    else if s[0] == '-' && s[1] == '-' then CollapseHyphens(s[1..])
    else
      var rest := CollapseHyphens(s[1..]);
      var r := [s[0]] + rest;
      assert forall i :: 0 < i < |r| - 1 ==> HyphenPairAt(r, i) == HyphenPairAt(rest, i - 1);
      r
  }

  /** The filter of a concatenation is the concatenation of the filters, so
      the slug characters of a title are kept, in order. */
  lemma {:induction false} KeepSlugCharsConcat(a: string, b: string)
    ensures KeepSlugChars(a + b) == KeepSlugChars(a) + KeepSlugChars(b)
  {
    if a == [] {
      assert a + b == b;
    } else {
      assert (a + b)[0] == a[0];
      assert (a + b)[1..] == a[1..] + b;
      KeepSlugCharsConcat(a[1..], b);
    }
  }

  /** A hyphen-free piece in front passes through the collapse unchanged. */
  lemma {:induction false} CollapseWord(w: string, v: string)
    requires '-' !in w
    ensures CollapseHyphens(w + v) == w + CollapseHyphens(v)
  {
    if w == [] {
      assert w + v == v;
    } else {
      var s := w + v;
      assert s[0] == w[0] && w[0] != '-';
      assert s[1..] == w[1..] + v;
      assert '-' !in w[1..];
      if |s| > 1 {
        CollapseWord(w[1..], v);
        assert CollapseHyphens(s) == [w[0]] + (w[1..] + CollapseHyphens(v));
        AppendAssoc([w[0]], w[1..], CollapseHyphens(v));
        assert [w[0]] + w[1..] == w;
      } else {
        assert v == [] && s == w;
      }
    }
  }

  /** A run of hyphens in front, followed by anything but a hyphen, becomes
      one hyphen. */
  lemma {:induction false} CollapseRun(h: string, v: string)
    requires h != [] && forall i :: 0 <= i < |h| ==> h[i] == '-'
    requires v == [] || v[0] != '-'
    ensures CollapseHyphens(h + v) == "-" + CollapseHyphens(v)
  {
    var s := h + v;
    assert s[0] == '-';
    if |h| == 1 {
      if v != [] {
        assert s[1] == v[0];
        assert s[1..] == v;
      } else {
        assert s == "-";
      }
    } else {
      assert s[1] == '-';
      assert s[1..] == h[1..] + v;
      CollapseRun(h[1..], v);
    }
  }

  /** Words separated by runs of hyphens: each run becomes one hyphen and the
      words are kept. */
  lemma CollapseWordRun(w: string, h: string, v: string)
    requires '-' !in w
    requires h != [] && forall i :: 0 <= i < |h| ==> h[i] == '-'
    requires v == [] || v[0] != '-'
    ensures CollapseHyphens(w + h + v) == w + "-" + CollapseHyphens(v)
  {
    var hv := h + v;
    assert w + h + v == w + hv;
    CollapseWord(w, hv);
    CollapseRun(h, v);
    AppendAssoc(w, "-", CollapseHyphens(v));
  }

  /** Collapsing changes nothing in a text that has no `--`. */
  lemma {:induction false} CollapseFixed(s: string)
    requires NoDoubleHyphen(s)
    ensures CollapseHyphens(s) == s
  {
    if |s| > 1 {
      assert !HyphenPairAt(s, 0);
      assert forall i :: 0 <= i < |s| - 2 ==> HyphenPairAt(s[1..], i) == HyphenPairAt(s, i + 1);
      CollapseFixed(s[1..]);
    }
  }

  /** `_create_slug(title)`: lower-case, spaces to hyphens, drop everything
      outside `[a-z0-9-]`, collapse hyphen runs, strip hyphens at both ends. */
  function CreateSlug(title: string): string {
    StripChar(CollapseHyphens(KeepSlugChars(SpacesToHyphens(Lower(title)))), '-')
  }

  /** The title `My Post!` gives the slug `my-post`. */
  lemma MyPostSlug()
    ensures CreateSlug("My Post!") == "my-post"
  {
    MyPostLower();
    MyPostKept();
    CollapseFixed("my-post");
    StripCharUnchanged("my-post", '-');
  }

  lemma MyPostLower()
    ensures SpacesToHyphens(Lower("My Post!")) == "my-post!"
  {
    var l := Lower("My Post!");
    assert l == "my post!";
    var d := SpacesToHyphens(l);
    assert |d| == 8;
    assert d[2] == '-';
  }

  lemma MyPostKept()
    ensures KeepSlugChars("my-post!") == "my-post"
  {
    var word, mark := "my-post", "!";
    assert forall i :: 0 <= i < |word| ==> IsSlugChar(word[i]);
    assert !IsSlugChar(mark[0]);
    KeepSlugCharsConcat(word, mark);
    assert "my-post!" == word + mark;
  }

  /** A slice of a text with only slug characters and no `--` has both too. */
  lemma SliceKeepsSlugShape(s: string, lo: nat, hi: nat)
    requires lo <= hi <= |s|
    requires forall i :: 0 <= i < |s| ==> IsSlugChar(s[i])
    requires NoDoubleHyphen(s)
    ensures forall i :: 0 <= i < hi - lo ==> IsSlugChar(s[lo..hi][i])
    ensures NoDoubleHyphen(s[lo..hi])
  {
    var t := s[lo..hi];
    forall i | 0 <= i < |t| - 1
      ensures !HyphenPairAt(t, i)
    {
      assert !HyphenPairAt(s, lo + i);
      assert t[i] == s[lo + i] && t[i + 1] == s[lo + i + 1];
    }
  }

  /** Every slug is one: only `[a-z0-9-]`, never `--`, never a hyphen at either end. */
  lemma CreateSlugIsSlug(title: string)
    ensures IsSlug(CreateSlug(title))
  {
    var c := CollapseHyphens(KeepSlugChars(SpacesToHyphens(Lower(title))));
    assert forall i :: 0 <= i < |c| ==> IsSlugChar(c[i]);
    var lo, hi := StripCharSlice(c, '-');
    SliceKeepsSlugShape(c, lo, hi);
  }

  /** Lower-casing and turning spaces into hyphens leave a slug as it is. */
  lemma SlugUnchangedByCase(s: string)
    requires IsSlug(s)
    ensures SpacesToHyphens(Lower(s)) == s
  {
    assert Lower(s) == s;
  }

  /** Slugifying a slug gives it back. */
  lemma SlugFixedPoint(s: string)
    requires IsSlug(s)
    ensures CreateSlug(s) == s
  {
    SlugUnchangedByCase(s);
    assert KeepSlugChars(s) == s;
    CollapseFixed(s);
    StripCharUnchanged(s, '-');
  }

  /** A text is its own slug exactly when it is a slug, so `_create_slug` is idempotent. */
  lemma CreateSlugIdempotent(title: string)
    ensures CreateSlug(CreateSlug(title)) == CreateSlug(title)
    ensures CreateSlug(title) == title <==> IsSlug(title)
  {
    CreateSlugIsSlug(title);
    SlugFixedPoint(CreateSlug(title));
    if IsSlug(title) {
      SlugFixedPoint(title);
    }
  }

  // =====================================================================
  // Repository URLs
  // =====================================================================

  /** The first regular expression, `github\.com[:/]([^/]+)/([^/]+)`, tried at index `i`. */
  function MatchHostAt(s: string, i: nat): (r: Option<(string, string)>)
    ensures r.Some? ==> r.value.0 != [] && r.value.1 != []
    ensures r.Some? ==> '/' !in r.value.0 && '/' !in r.value.1
  {
    if i + 11 <= |s| && s[i..i + 10] == "github.com" && (s[i + 10] == ':' || s[i + 10] == '/') then
      var rest := s[i + 11..];
      var owner := BeforeFirst(rest, '/');
      if owner == [] || |owner| == |rest| then None
      else
        var name := BeforeFirst(rest[|owner| + 1..], '/');
        if name == [] then None else Some((owner, name))
    else None
  }

  /** `re.search` with the first expression: the leftmost index where it matches. */
  function SearchHost(s: string, i: nat): (r: Option<(string, string)>)
    ensures r.Some? ==> r.value.0 != [] && r.value.1 != []
    ensures r.Some? ==> '/' !in r.value.0 && '/' !in r.value.1
    decreases |s| - i
  {
    if i >= |s| then None
    else if MatchHostAt(s, i).Some? then MatchHostAt(s, i)
    else SearchHost(s, i + 1)
  }

  /** `re.search` with the second expression, `([^/]+)/([^/]+)$`: the last two
      `/`-separated segments, when both are non-empty. */
  function LastTwoSegments(s: string): (r: Option<(string, string)>)
    ensures r.Some? ==> r.value.0 != [] && r.value.1 != []
  {
    var parts := Split(s, '/');
    if |parts| >= 2 && parts[|parts| - 2] != [] && parts[|parts| - 1] != [] then
      Some((parts[|parts| - 2], parts[|parts| - 1]))
    else None
  }

  /** `_parse_repo_url` as written; `None` stands for the `ValueError`. */
  function ParseRepoUrlAsWritten(url: string): (r: Option<(string, string)>)
    ensures r.Some? ==> r.value.0 != [] && r.value.1 != []
  {
    var u := NormalizeUrlAsWritten(url);
    if SearchHost(u, 0).Some? then SearchHost(u, 0) else LastTwoSegments(u)
  }

  /** `_parse_repo_url` with the `.git` clean-up applied to the suffix only: the
      definition the deployment uses.  `None` stands for the `ValueError`. */
  function ParseRepoUrl(url: string): (r: Option<(string, string)>)
    ensures r.Some? ==> r.value.0 != [] && r.value.1 != []
  {
    var u := NormalizeUrl(url);
    if SearchHost(u, 0).Some? then SearchHost(u, 0) else LastTwoSegments(u)
  }

  lemma BeforeFirstWhole(a: string, sep: char)
    requires sep !in a
    ensures BeforeFirst(a, sep) == a
  {
  }

  lemma {:induction false} BeforeFirstSeam(a: string, b: string, sep: char)
    requires sep !in a
    ensures BeforeFirst(a + [sep] + b, sep) == a
  {
    if a != [] {
      assert (a + [sep] + b)[1..] == a[1..] + [sep] + b;
      BeforeFirstSeam(a[1..], b, sep);
    }
  }

  /** The host expression matches right after a prefix that ends with
      `github.com:` or `github.com/`, taking owner and name from what follows. */
  lemma MatchAfterHost(s: string, i: nat, owner: string, name: string)
    requires IsUrlName(owner) && IsUrlName(name)
    requires i + 11 <= |s| && s[i..i + 10] == "github.com" && (s[i + 10] == ':' || s[i + 10] == '/')
    requires s[i + 11..] == owner + "/" + name
    ensures MatchHostAt(s, i) == Some((owner, name))
  {
    var rest := s[i + 11..];
    BeforeFirstSeam(owner, name, '/');
    assert rest[|owner| + 1..] == name;
    BeforeFirstWhole(name, '/');
  }

  /** The host expression cannot match where the text does not read `g..h`. */
  lemma NoHostAt(s: string, i: nat)
    requires i + 3 < |s| && (s[i] != 'g' || s[i + 3] != 'h')
    ensures MatchHostAt(s, i).None?
  {
    if i + 11 <= |s| {
      assert s[i..i + 10][0] == s[i] && s[i..i + 10][3] == s[i + 3];
    }
  }

  /** No match before index `k` leaves the search to start at `k`. */
  lemma {:induction false} SearchSkip(s: string, i: nat, k: nat)
    requires i <= k <= |s|
    requires forall j :: i <= j < k ==> MatchHostAt(s, j).None?
    ensures SearchHost(s, i) == SearchHost(s, k)
    decreases k - i
  {
    if i < k {
      SearchSkip(s, i + 1, k);
    }
  }

  /** After a prefix ending in `github.com:` or `github.com/`, with no earlier
      `github.com`, the host expression finds the owner and name that follow. */
  lemma SearchAfterHost(pre: string, k: nat, owner: string, name: string)
    requires k + 11 == |pre| && pre[k..k + 10] == "github.com" && (pre[k + 10] == ':' || pre[k + 10] == '/')
    requires forall j :: 0 <= j < k ==> pre[j] != 'g' || pre[j + 3] != 'h'
    requires IsUrlName(owner) && IsUrlName(name)
    ensures SearchHost(pre + owner + "/" + name, 0) == Some((owner, name))
  {
    var u := pre + owner + "/" + name;
    assert u[k..k + 10] == pre[k..k + 10];
    assert u[k + 11..] == owner + "/" + name;
    MatchAfterHost(u, k, owner, name);
    forall j | 0 <= j < k ensures MatchHostAt(u, j).None? {
      assert u[j] == pre[j] && u[j + 3] == pre[j + 3];
      NoHostAt(u, j);
    }
    SearchSkip(u, 0, k);
  }

  /** Such a prefix, then `owner/name` and one of the tails the clean-up
      removes, gives the owner and name. */
  lemma ParseAfterHost(pre: string, k: nat, owner: string, name: string, tail: string)
    requires k + 11 == |pre| && pre[k..k + 10] == "github.com" && (pre[k + 10] == ':' || pre[k + 10] == '/')
    requires forall j :: 0 <= j < k ==> pre[j] != 'g' || pre[j + 3] != 'h'
    requires IsUrlName(owner) && IsUrlName(name) && !EndsWith(name, ".git")
    requires tail == "" || tail == "/" || tail == ".git" || tail == ".git/"
    ensures ParseRepoUrl(pre + owner + "/" + name + tail) == Some((owner, name))
  {
    NormalizeForms(pre + owner + "/", name, tail);
    SearchAfterHost(pre, k, owner, name);
  }

  /** The HTTPS form of a repository URL, with or without a trailing `.git`
      and `/`, gives the owner and name (any names, including a Pages
      repository such as `alice.github.io`). */
  lemma ParseHttpsUrl(owner: string, name: string, tail: string)
    requires IsUrlName(owner) && IsUrlName(name) && !EndsWith(name, ".git")
    requires tail == "" || tail == "/" || tail == ".git" || tail == ".git/"
    ensures ParseRepoUrl("https://github.com/" + owner + "/" + name + tail) == Some((owner, name))
  {
    var pre := "https://github.com/";
    assert pre[8..18] == "github.com";
    ParseAfterHost(pre, 8, owner, name, tail);
  }

  /** The SSH form `git@github.com:owner/name`, with or without a trailing
      `.git` and `/`, gives the owner and name. */
  lemma ParseSshUrl(owner: string, name: string, tail: string)
    requires IsUrlName(owner) && IsUrlName(name) && !EndsWith(name, ".git")
    requires tail == "" || tail == "/" || tail == ".git" || tail == ".git/"
    ensures ParseRepoUrl("git@github.com:" + owner + "/" + name + tail) == Some((owner, name))
  {
    var pre := "git@github.com:";
    assert pre[4..14] == "github.com";
    ParseAfterHost(pre, 4, owner, name, tail);
  }

  /** The parse as written renames a user's Pages repository `<owner>.github.io`
      to `<owner>hub.io`. */
  lemma ParseRepoUrlAsWrittenRenamesPagesRepo(owner: string)
    requires IsUrlName(owner) && '.' !in owner
    ensures ParseRepoUrlAsWritten("https://github.com/" + owner + "/" + owner + ".github.io")
         == Some((owner, owner + "hub.io"))
  {
    NormalizeAsWrittenPagesRepo(owner);
    var pre := "https://github.com/";
    assert pre[8..18] == "github.com";
    SearchAfterHost(pre, 8, owner, owner + "hub.io");
    assert pre + owner + "/" + (owner + "hub.io") == pre + owner + "/" + owner + "hub.io";
  }

  /** The corrected parse keeps the name of a user's Pages repository. */
  lemma ParseRepoUrlKeepsPagesRepo(owner: string)
    requires IsUrlName(owner) && '.' !in owner
    ensures ParseRepoUrl("https://github.com/" + owner + "/" + owner + ".github.io")
         == Some((owner, owner + ".github.io"))
  {
    var pages := owner + ".github.io";
    assert !EndsWith(pages, ".git") by {
      assert pages[|pages| - 4] == 'b';
    }
    ParseHttpsUrl(owner, pages, "");
    assert "https://github.com/" + owner + "/" + pages + "" == "https://github.com/" + owner + "/" + owner + ".github.io";
  }

  // =====================================================================
  // The post
  // =====================================================================

  /** How the git steps went: the pull or clone before the post is written, and
      the add, commit and push after it. */
  datatype GitRun = GitOk | CheckoutFails | PublishFails

  /** The post file and the commit that publishes it. */
  datatype Post = Post(owner: string, name: string, filename: string, path: string,
                       text: string, commitMessage: string)

  datatype Deployment =
    | MissingToken                       // no GITHUB_TOKEN
    | MissingRepository                  // neither a URL nor both owner and name
    | UnparsableUrl                      // `_parse_repo_url` raised
    | CheckoutFailed                     // the pull or clone exited non-zero
    | PublishFailed(post: Post)          // written locally; add, commit or push failed
    | UrlFailed(post: Post)              // pushed, but the date did not split in three
    | Deployed(post: Post, url: string)

  /** The date part of the filename: `metadata["date"]` cut to 10 characters when
      it is a longer string, today's `YYYY-MM-DD` when absent. */
  function PostDate(metadata: Meta, today: Instant): string {
    var date: Option<Value> := Get(metadata, "date");
    if date.None? then DateStamp(today)
    else if date.value.Text? && |date.value.text| > 10 then date.value.text[..10]
    else Str(date.value)
  }

  /** One optional front-matter line: `key: <value>` when the key is present,
      nothing when it is absent. */
  function OptionalLine(metadata: Meta, key: string, render: Value -> string): (r: string)
    ensures r == [] <==> key !in Keys(metadata)
    ensures r != [] ==> key + ": " <= r && r[|r| - 1] == '\n'
  {
    match Get(metadata, key)
    case None => ""
    case Some(v) => key + ": " + render(v) + "\n"
  }

  function CategoriesValue(v: Value): string {
    match v
    case Items(xs) => Join(" ", xs)
    case Text(s) => s
  }

  function TagsValue(v: Value): string {
    match v
    case Items(xs) => "[" + Join(", ", xs) + "]"
    case Text(s) => "[" + s + "]"
  }

  function DescriptionValue(v: Value): string {
    "\"" + Str(v) + "\""
  }

  /** The opening of the front matter: the layout and the quoted title. */
  function FrontMatterHead(title: string): string {
    "---\nlayout: post\ntitle: \"" + title + "\"\n"
  }

  /** The optional front-matter lines: author, date (as given), categories,
      tags and description, each only when present. */
  function FrontMatterFields(metadata: Meta): string {
    OptionalLine(metadata, "author", Str)
    + OptionalLine(metadata, "date", Str)
    + OptionalLine(metadata, "categories", CategoriesValue)
    + OptionalLine(metadata, "tags", TagsValue)
    + OptionalLine(metadata, "description", DescriptionValue)
  }

  /** The YAML front matter of a post. */
  function FrontMatter(title: string, metadata: Meta): string {
    FrontMatterHead(title) + FrontMatterFields(metadata) + "---\n\n"
  }

  /** The post file written for a title, body and metadata. */
  function MakePost(owner: string, name: string, title: string, content: string,
                    metadata: Meta, today: Instant): Post
  {
    var filename := PostDate(metadata, today) + "-" + CreateSlug(title) + ".md";
    Post(owner, name, filename, "_posts/" + filename,
         FrontMatter(title, metadata) + content, "Add article: " + title)
  }

  /** The post `My Post!` dated `2024-03-05` goes to `_posts/2024-03-05-my-post.md`. */
  lemma MyPostFile(owner: string, name: string, title: string, content: string, metadata: Meta, today: Instant)
    requires title == "My Post!"
    requires Get(metadata, "date") == Some(Text("2024-03-05"))
    ensures MakePost(owner, name, title, content, metadata, today).path == "_posts/2024-03-05-my-post.md"
  {
    PostFileName(owner, name, title, content, metadata, today);
    MyPostSlug();
    MyPostPath(PostDate(metadata, today), CreateSlug(title));
  }

  lemma MyPostPath(date: string, slug: string)
    requires date == "2024-03-05" && slug == "my-post"
    ensures "_posts/" + (date + "-" + slug + ".md") == "_posts/2024-03-05-my-post.md"
  {
  }

  /** The predicted Pages URL, when the date splits at `-` into year, month and day. */
  function PagesUrl(owner: string, name: string, date: Value, slug: string): Option<string> {
    match date
    case Items(_) => None
    case Text(d) =>
      var parts := Split(d, '-');
      if |parts| == 3 then
        Some("https://" + owner + ".github.io/" + name + "/" + parts[0] + "/" + parts[1]
             + "/" + parts[2] + "/" + slug + ".html")
      else None
  }

  /** The date value the URL is computed from (`date_str` after truncation). */
  function DateValue(metadata: Meta, today: Instant): Value {
    var date: Option<Value> := Get(metadata, "date");
    if date.Some? && date.value.Items? then date.value else Text(PostDate(metadata, today))
  }

  /** Where the post goes: the parsed URL, or the owner and name given. */
  function Target(repoUrl: string, repoOwner: string, repoName: string): Option<(string, string)>
    requires repoUrl != [] || (repoOwner != [] && repoName != [])
  {
    if repoUrl != [] then ParseRepoUrl(repoUrl) else Some((repoOwner, repoName))
  }

  /** `deploy_article` with its I/O abstracted: the token check comes first, then
      the repository, then the checkout, the post, the publishing steps and the URL. */
  function DeployArticle(hasToken: bool, content: string, title: string, metadata: Meta,
                         repoUrl: string, repoOwner: string, repoName: string,
                         today: Instant, git: GitRun): (r: Deployment)
    ensures !hasToken ==> r == MissingToken
    ensures hasToken && repoUrl == [] && (repoOwner == [] || repoName == []) ==> r == MissingRepository
    ensures hasToken && repoUrl != [] ==> (r == UnparsableUrl <==> ParseRepoUrl(repoUrl).None?)
    ensures (r.PublishFailed? || r.UrlFailed? || r.Deployed?) ==> git != CheckoutFails
    ensures r.Deployed? ==> git == GitOk && r.post.path == "_posts/" + r.post.filename
    ensures r.PublishFailed? || r.UrlFailed? || r.Deployed? ==>
      && hasToken
      && (repoUrl != [] || (repoOwner != [] && repoName != []))
      && var target := Target(repoUrl, repoOwner, repoName);
         && target.Some?
         && r.post == MakePost(target.value.0, target.value.1, title, content, metadata, today)
  {
    if !hasToken then MissingToken
    else if repoUrl == [] && (repoOwner == [] || repoName == []) then MissingRepository
    else
      var target := Target(repoUrl, repoOwner, repoName);
      if target.None? then UnparsableUrl
      else if git.CheckoutFails? then CheckoutFailed
      else
        var (owner, name) := target.value;
        var post := MakePost(owner, name, title, content, metadata, today);
        if git.PublishFails? then PublishFailed(post)
        else
          var url := PagesUrl(owner, name, DateValue(metadata, today), CreateSlug(title));
          if url.None? then UrlFailed(post) else Deployed(post, url.value)
  }

  /** The success report `deploy_article` returns. */
  function SuccessReport(post: Post, url: string): string {
    var repository := "Repository: " + post.owner + "/" + post.name + "\n";
    var file := "File: " + post.path + "\n";
    var commit := "Commit: " + post.commitMessage + "\n\n";
    var pages := "GitHub Pages URL: " + url + "\n\n";
    var notes := "Note: It may take a few minutes for GitHub Pages to build and publish your article.\n"
      + "You can check the deployment status in your repository's Actions tab.\n\n"
      + "Direct file URL: https://github.com/" + post.owner + "/" + post.name + "/blob/main/" + post.path + "\n";
    "\nArticle Deployed Successfully!\n==============================\n\n"
    + repository + file + commit + pages + notes
  }

  /** A text made of a head, some lines, a closing marker and a body starts
      with the head and ends with the marker and the body. */
  lemma FramedText(head: string, fields: string, marker: string, body: string)
    ensures head <= head + fields + marker + body
    ensures EndsWith(head + fields + marker + body, marker + body)
  {
    var t := head + fields + marker + body;
    assert t == head + (fields + marker + body);
    assert t[|t| - |marker + body|..] == marker + body;
  }

  /** The post file is `_posts/<date>-<slug>.md`, with the date cut to ten
      characters when it is a longer string, today's when absent, and the slug
      a proper slug. */
  lemma PostFileName(owner: string, name: string, title: string, content: string,
                     metadata: Meta, today: Instant)
    ensures var post := MakePost(owner, name, title, content, metadata, today);
      && post.path == "_posts/" + post.filename
      && post.filename == PostDate(metadata, today) + "-" + CreateSlug(title) + ".md"
      && IsSlug(CreateSlug(title))
      && (Get(metadata, "date").None? ==> PostDate(metadata, today) == DateStamp(today))
      && (forall d :: Get(metadata, "date") == Some(Text(d)) && |d| > 10 ==> PostDate(metadata, today) == d[..10])
  {
    CreateSlugIsSlug(title);
  }

  /** The post text opens with `---`, `layout: post` and the quoted title, and
      ends with the closing `---`, a blank line and the body verbatim. */
  lemma PostText(owner: string, name: string, title: string, content: string,
                 metadata: Meta, today: Instant)
    ensures var post := MakePost(owner, name, title, content, metadata, today);
      && FrontMatterHead(title) <= post.text
      && EndsWith(post.text, "---\n\n" + content)
      && post.commitMessage == "Add article: " + title
  {
    FramedText(FrontMatterHead(title), FrontMatterFields(metadata), "---\n\n", content);
  }

  /** A deployed post's Pages URL carries the year, month and day of the date in
      its filename, then the slug; the date split at `-` joins back to that date. */
  lemma DeployedUrl(hasToken: bool, content: string, title: string, metadata: Meta,
                    repoUrl: string, repoOwner: string, repoName: string,
                    today: Instant, git: GitRun)
    ensures var r := DeployArticle(hasToken, content, title, metadata, repoUrl, repoOwner, repoName, today, git);
      r.Deployed? ==>
        var date := PostDate(metadata, today);
        var parts := Split(date, '-');
        && r.post.filename == date + "-" + CreateSlug(title) + ".md"
        && |parts| == 3
        && Join("-", parts) == date
        && r.url == "https://" + r.post.owner + ".github.io/" + r.post.name + "/"
                    + parts[0] + "/" + parts[1] + "/" + parts[2] + "/" + CreateSlug(title) + ".html"
  {
    var r := DeployArticle(hasToken, content, title, metadata, repoUrl, repoOwner, repoName, today, git);
    if r.Deployed? {
      var date := PostDate(metadata, today);
      var (owner, name) := Target(repoUrl, repoOwner, repoName).value;
      var dv := DateValue(metadata, today);
      var url := PagesUrl(owner, name, dv, CreateSlug(title));
      assert url == Some(r.url);
      PagesUrlShape(owner, name, dv, CreateSlug(title));
      assert dv == Text(date);
      JoinSplit(date, '-');
    }
  }

  /** A predicted URL comes from a text date in three `-` parts. */
  lemma PagesUrlShape(owner: string, name: string, date: Value, slug: string)
    ensures var url := PagesUrl(owner, name, date, slug);
      url.Some? ==>
        && date.Text?
        && var parts := Split(date.text, '-');
           && |parts| == 3
           && url.value == "https://" + owner + ".github.io/" + name + "/" + parts[0] + "/" + parts[1]
                           + "/" + parts[2] + "/" + slug + ".html"
  {
  }

  /** The URL predicted from today's date. */
  lemma PagesUrlToday(owner: string, name: string, today: Instant, slug: string)
    ensures PagesUrl(owner, name, Text(DateStamp(today)), slug)
         == Some("https://" + owner + ".github.io/" + name + "/" + Digits(today.year, 4) + "/"
                 + Digits(today.month, 2) + "/" + Digits(today.day, 2) + "/" + slug + ".html")
  {
    DateStampSplit(today);
  }

  /** With no date in the metadata and every git step succeeding, the article is
      deployed, at the URL built from today's year, month and day. */
  lemma DeployWithoutDate(content: string, title: string, metadata: Meta,
                          owner: string, name: string, today: Instant)
    requires owner != [] && name != []
    requires Get(metadata, "date").None?
    ensures var r := DeployArticle(true, content, title, metadata, "", owner, name, today, GitOk);
      && r.Deployed?
      && r.url == "https://" + owner + ".github.io/" + name + "/" + Digits(today.year, 4) + "/"
                  + Digits(today.month, 2) + "/" + Digits(today.day, 2) + "/" + CreateSlug(title) + ".html"
  {
    assert DateValue(metadata, today) == Text(DateStamp(today));
    PagesUrlToday(owner, name, today, CreateSlug(title));
    DeployedByName(content, title, metadata, owner, name, today);
  }

  /** Given the owner and name and with every git step succeeding, the article
      is deployed wherever the URL can be computed. */
  lemma DeployedByName(content: string, title: string, metadata: Meta,
                       owner: string, name: string, today: Instant)
    requires owner != [] && name != []
    ensures var url := PagesUrl(owner, name, DateValue(metadata, today), CreateSlug(title));
      var r := DeployArticle(true, content, title, metadata, "", owner, name, today, GitOk);
      url.Some? ==> r.Deployed? && r.url == url.value
  {
    DeployedIff(true, content, title, metadata, "", owner, name, today, GitOk);
  }

  // =====================================================================
  // Validation
  // =====================================================================

  /** What fetching the predicted URL gave: a response with its status (urllib
      raises for 4xx and 5xx, so these are the others), an HTTP error, or any
      other failure. */
  datatype FetchOutcome = Response(code: int) | HttpError(code: int, reason: string) | OtherError(message: string)

  datatype Validation =
    | Accessible
    | UnexpectedStatus(code: int)
    | StillBuilding
    | HttpFailure(code: int, reason: string)
    | CouldNotValidate(message: string)

  /** `validate_deployment`'s classification. */
  function Classify(outcome: FetchOutcome): (v: Validation)
    ensures v == Accessible <==> outcome == Response(200)
    ensures v.UnexpectedStatus? <==> outcome.Response? && outcome.code != 200
    ensures v == StillBuilding <==> outcome.HttpError? && outcome.code == 404
    ensures v.HttpFailure? <==> outcome.HttpError? && outcome.code != 404
    ensures v.CouldNotValidate? <==> outcome.OtherError?
  {
    match outcome
    case Response(code) => if code == 200 then Accessible else UnexpectedStatus(code)
    case HttpError(code, reason) => if code == 404 then StillBuilding else HttpFailure(code, reason)
    case OtherError(message) => CouldNotValidate(message)
  }

  function IntToString(n: int): string {
    if n < 0 then "-" + NatToString(-n) else NatToString(n)
  }

  /** The three characters the success line opens with: the UTF-8 bytes of a
      check mark read back as Windows-1252 (`\u00e2`, `\u0153`, `\u201c`),
      which is what the source file holds and what Python returns. */
  const AccessibleMark: string := "\U{00E2}\U{0153}\U{201C}"

  /** The text `validate_deployment` returns for a URL and the fetch outcome. */
  function ValidationReport(url: string, outcome: FetchOutcome): string {
    match Classify(outcome)
    case Accessible => AccessibleMark + " Article is accessible at: " + url
    case UnexpectedStatus(code) => "Warning: Received status code " + IntToString(code) + " for " + url
    case StillBuilding =>
      "Article not yet published. GitHub Pages may still be building. Please wait a few minutes and try again.\nURL: " + url
    case HttpFailure(code, reason) => "HTTP Error " + IntToString(code) + ": " + reason
    case CouldNotValidate(message) =>
      "Could not validate deployment: " + message + "\nURL: " + url
      + "\n\nNote: The article may still be deploying. Check the repository's Actions tab."
  }

  /** A page that answers 200 gets the success line: the mark, then the URL. */
  lemma AccessibleReport(url: string)
    ensures AccessibleMark <= ValidationReport(url, Response(200))
    ensures EndsWith(ValidationReport(url, Response(200)), url)
  {
    var lead := AccessibleMark + " Article is accessible at: ";
    assert ValidationReport(url, Response(200)) == lead + url;
    PrefixExtended(AccessibleMark, AccessibleMark, " Article is accessible at: ");
    PrefixExtended(AccessibleMark, lead, url);
    EndsWithConcat(lead, url);
  }

  /** Any other status gives a warning that ends with the URL. */
  lemma StatusWarningReport(url: string, code: int)
    requires code != 200
    ensures EndsWith(ValidationReport(url, Response(code)), url)
  {
    var lead := "Warning: Received status code " + IntToString(code) + " for ";
    assert ValidationReport(url, Response(code)) == lead + url;
    EndsWithConcat(lead, url);
  }

  /** A 404 while the site is still building gives a text that ends with the URL. */
  lemma StillBuildingReport(url: string, reason: string)
    ensures EndsWith(ValidationReport(url, HttpError(404, reason)), url)
  {
    var lead := "Article not yet published. GitHub Pages may still be building. Please wait a few minutes and try again.\nURL: ";
    assert ValidationReport(url, HttpError(404, reason)) == lead + url;
    EndsWithConcat(lead, url);
  }

  /** Another HTTP error gives a text that ends with its reason. */
  lemma HttpErrorReport(url: string, code: int, reason: string)
    requires code != 404
    ensures EndsWith(ValidationReport(url, HttpError(code, reason)), reason)
  {
    var lead := "HTTP Error " + IntToString(code) + ": ";
    assert ValidationReport(url, HttpError(code, reason)) == lead + reason;
    EndsWithConcat(lead, reason);
  }

  /** Any other failure gives a text that opens with its message. */
  lemma OtherErrorReport(url: string, message: string)
    ensures "Could not validate deployment: " + message <= ValidationReport(url, OtherError(message))
  {
    var lead := "Could not validate deployment: " + message;
    var note := "\n\nNote: The article may still be deploying. Check the repository's Actions tab.";
    assert ValidationReport(url, OtherError(message)) == lead + "\nURL: " + url + note;
    PrefixExtended(lead, lead, "\nURL: ");
    PrefixExtended(lead, lead + "\nURL: ", url);
    PrefixExtended(lead, lead + "\nURL: " + url, note);
  }

  /** The success report names the repository, the post's file, its commit
      message and the Pages URL. */
  lemma SuccessReportNames(post: Post, url: string)
    ensures Contains(SuccessReport(post, url), "Repository: " + post.owner + "/" + post.name + "\n")
    ensures Contains(SuccessReport(post, url), "File: " + post.path + "\n")
    ensures Contains(SuccessReport(post, url), "Commit: " + post.commitMessage + "\n\n")
    ensures Contains(SuccessReport(post, url), "GitHub Pages URL: " + url + "\n\n")
  {
    ContainsPieces(
      "\nArticle Deployed Successfully!\n==============================\n\n",
      "Repository: " + post.owner + "/" + post.name + "\n",
      "File: " + post.path + "\n",
      "Commit: " + post.commitMessage + "\n\n",
      "GitHub Pages URL: " + url + "\n\n",
      "Note: It may take a few minutes for GitHub Pages to build and publish your article.\n"
      + "You can check the deployment status in your repository's Actions tab.\n\n"
      + "Direct file URL: https://github.com/" + post.owner + "/" + post.name + "/blob/main/" + post.path + "\n");
  }

  /** A deployment happens exactly when the token is there, the repository is
      named and parses, every git step succeeds and the post's date splits into
      year, month and day. */
  lemma DeployedIff(hasToken: bool, content: string, title: string, metadata: Meta,
                    repoUrl: string, repoOwner: string, repoName: string,
                    today: Instant, git: GitRun)
    ensures var r := DeployArticle(hasToken, content, title, metadata, repoUrl, repoOwner, repoName, today, git);
      r.Deployed? <==>
        && hasToken
        && (repoUrl != [] || (repoOwner != [] && repoName != []))
        && var target := Target(repoUrl, repoOwner, repoName);
           && target.Some?
           && git == GitOk
           && PagesUrl(target.value.0, target.value.1, DateValue(metadata, today), CreateSlug(title)).Some?
    ensures var r := DeployArticle(hasToken, content, title, metadata, repoUrl, repoOwner, repoName, today, git);
      r.Deployed? ==>
        var target := Target(repoUrl, repoOwner, repoName);
        PagesUrl(target.value.0, target.value.1, DateValue(metadata, today), CreateSlug(title)) == Some(r.url)
  {
    var r := DeployArticle(hasToken, content, title, metadata, repoUrl, repoOwner, repoName, today, git);
    if r.Deployed? {
      var (owner, name) := Target(repoUrl, repoOwner, repoName).value;
      var url := PagesUrl(owner, name, DateValue(metadata, today), CreateSlug(title));
      assert url == Some(r.url);
    }
  }
}
