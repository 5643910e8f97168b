/** `GitHubReader.read_repo`: it takes the owner and repository from the
    last two segments of a URL, lists the repository's top-level contents
    through the REST API, and summarises them in one line.

    The HTTP request is a parameter: `fetch(apiUrl)` is the response the
    contents endpoint gives for that URL. */
module GitHubReader {
  import opened Wrappers
  import opened Strings

  const ApiBase: string := "https://api.github.com"

  // =====================================================================
  // Owner and repository
  // =====================================================================

  /** `repo_url.rstrip("/").split("/")`, read as its last two parts; `None`
      when there are fewer than two. */
  function Coordinates(url: string): (r: Option<(string, string)>)
    ensures r.Some? <==> '/' in RStrip(url, '/')
    ensures r.Some? ==> '/' !in r.value.0 && '/' !in r.value.1
  {
    var parts := Split(RStrip(url, '/'), '/');
    SplitCount(RStrip(url, '/'), '/');
    if |parts| < 2 then None else Some((parts[|parts| - 2], parts[|parts| - 1]))
  }

  /** Any URL ending in `/owner/repo` names that owner and repository,
      whatever comes before: the host is never checked. */
  lemma CoordinatesOfUrl(lead: string, owner: string, repo: string)
    requires '/' !in owner && '/' !in repo && repo != []
    ensures Coordinates(lead + "/" + owner + "/" + repo) == Some((owner, repo))
  {
    var url := lead + "/" + owner + "/" + repo;
    assert url == (lead + ['/'] + owner) + ['/'] + repo;
    assert RStrip(url, '/') == url;
    SplitAppend(lead + ['/'] + owner, repo, '/');
    SplitAppend(lead, owner, '/');
    SplitNoSep(owner, '/');
    SplitNoSep(repo, '/');
  }

  /** Trailing slashes do not change what a URL names. */
  lemma TrailingSlashIgnored(url: string)
    ensures Coordinates(url + "/") == Coordinates(url)
  {
    assert (url + "/")[..|url|] == url;
  }

  // =====================================================================
  // Listing the contents
  // =====================================================================

  /** One entry of the contents response; a field the entry lacks is `None`. */
  datatype Entry = Entry(kind: Option<string>, name: Option<string>)

  /** The contents endpoint's answer: an error (a failed request or an HTTP
      error status) or the list of entries. */
  datatype Response = RequestFailed(message: string) | Contents(entries: seq<Entry>)

  /** The loop over the entries: the names kept so far, or the key whose
      absence raised `KeyError`. */
  datatype Listing = Names(files: seq<string>) | MissingKey(key: string)

  /** What one entry adds: a file's name, a directory's name with `/`,
      nothing for any other type, or the missing key. */
  function EntryName(e: Entry): Listing {
    if e.kind.None? then MissingKey("type")
    else if e.kind.value == "file" then
      if e.name.None? then MissingKey("name") else Names([e.name.value])
    else if e.kind.value == "dir" then
      if e.name.None? then MissingKey("name") else Names([e.name.value + "/"])
    else Names([])
  }

  /** The listing of a run of entries: the first missing key stops it. */
  function ListingOf(entries: seq<Entry>): Listing {
    if entries == [] then Names([])
    else
      match ListingOf(entries[..|entries| - 1])
      case MissingKey(k) => MissingKey(k)
      case Names(files) =>
        match EntryName(entries[|entries| - 1])
        case MissingKey(k) => MissingKey(k)
        case Names(more) => Names(files + more)
  }

  /** The loop of `read_repo` over the entries. */
  method ListEntries(contents: seq<Entry>) returns (r: Listing)
    ensures r == ListingOf(contents)
  {
    var files: seq<string> := [];
    var i := 0;
    while i < |contents|
      invariant 0 <= i <= |contents|
      invariant ListingOf(contents[..i]) == Names(files)
    {
      var item := contents[i];
      assert contents[..i + 1][..i] == contents[..i];
      if item.kind.None? {
        MissingKeySticks(contents, i + 1);
        return MissingKey("type");
      }
      if item.kind.value == "file" {
        if item.name.None? {
          MissingKeySticks(contents, i + 1);
          return MissingKey("name");
        }
        files := files + [item.name.value];
      } else if item.kind.value == "dir" {
        if item.name.None? {
          MissingKeySticks(contents, i + 1);
          return MissingKey("name");
        }
        files := files + [item.name.value + "/"];
      }
      i := i + 1;
    }
    assert contents[..i] == contents;
    return Names(files);
  }

  /** Once an entry lacks a key, the entries after it do not matter. */
  lemma {:induction false} MissingKeySticks(entries: seq<Entry>, j: nat)
    requires j <= |entries| && ListingOf(entries[..j]).MissingKey?
    ensures ListingOf(entries) == ListingOf(entries[..j])
    decreases |entries| - j
  {
    if j < |entries| {
      assert entries[..j + 1][..j] == entries[..j];
      MissingKeySticks(entries, j + 1);
    } else {
      assert entries[..j] == entries;
    }
  }

  /** An entry the loop reads without error. */
  predicate Readable(e: Entry) {
    e.kind.Some? && (e.kind.value == "file" || e.kind.value == "dir" ==> e.name.Some?)
  }

  /** The loop fails exactly when some entry lacks its type, or is a file or a
      directory without a name. */
  lemma {:induction false} ListingFails(entries: seq<Entry>)
    ensures ListingOf(entries).Names? <==> forall i :: 0 <= i < |entries| ==> Readable(entries[i])
  {
    if entries != [] {
      var init := entries[..|entries| - 1];
      ListingFails(init);
      assert forall i :: 0 <= i < |init| ==> init[i] == entries[i];
    }
  }

  /** Every file is listed by its name and every directory by its name and
      a `/`. */
  lemma {:induction false} ListingKeeps(entries: seq<Entry>)
    requires forall i :: 0 <= i < |entries| ==> Readable(entries[i])
    ensures ListingOf(entries).Names?
    ensures forall i :: 0 <= i < |entries| && entries[i].kind == Some("file") && entries[i].name.Some? ==> entries[i].name.value in ListingOf(entries).files
    ensures forall i :: 0 <= i < |entries| && entries[i].kind == Some("dir") && entries[i].name.Some? ==> entries[i].name.value + "/" in ListingOf(entries).files
  {
    ListingFails(entries);
    if entries != [] {
      var init := entries[..|entries| - 1];
      assert forall i :: 0 <= i < |init| ==> init[i] == entries[i];
      ListingKeeps(init);
    }
  }

  /** Only those names are listed, at most one per entry: entries of any other
      type are dropped. */
  lemma {:induction false} ListingOnly(entries: seq<Entry>)
    requires ListingOf(entries).Names?
    ensures |ListingOf(entries).files| <= |entries|
    ensures forall f :: f in ListingOf(entries).files ==> exists i :: 0 <= i < |entries| && EntryName(entries[i]) == Names([f])
  {
    if entries != [] {
      var init := entries[..|entries| - 1];
      ListingOnly(init);
      var files := ListingOf(init).files;
      forall f | f in ListingOf(entries).files
        ensures exists i :: 0 <= i < |entries| && EntryName(entries[i]) == Names([f])
      {
        if f in files {
          var i :| 0 <= i < |init| && EntryName(init[i]) == Names([f]);
          assert entries[i] == init[i];
        } else {
          assert EntryName(entries[|entries| - 1]) == Names([f]);
        }
      }
    }
  }

  /** Listing two runs of readable entries lists the first, then the second. */
  lemma {:induction false} ListingConcat(a: seq<Entry>, b: seq<Entry>)
    requires ListingOf(a).Names? && ListingOf(b).Names?
    ensures ListingOf(a + b) == Names(ListingOf(a).files + ListingOf(b).files)
    decreases |b|
  {
    if b == [] {
      assert a + b == a;
    } else {
      var init, last := b[..|b| - 1], b[|b| - 1];
      assert ListingOf(init).Names? && EntryName(last).Names?;
      ListingConcat(a, init);
      assert (a + b)[..|a + b| - 1] == a + init;
      assert (a + b)[|a + b| - 1] == last;
      var fa, fi, fm := ListingOf(a).files, ListingOf(init).files, EntryName(last).files;
      assert ListingOf(a + b) == Names((fa + fi) + fm);
      assert ListingOf(b) == Names(fi + fm);
      AppendAssoc(fa, fi, fm);
    }
  }

  // =====================================================================
  // The summary
  // =====================================================================

  /** The contents endpoint of a repository. */
  function ApiUrl(owner: string, repo: string): string {
    ApiBase + "/repos/" + owner + "/" + repo + "/contents"
  }

  /** The success line: the number of names kept and the first ten of them. */
  function Summary(owner: string, repo: string, files: seq<string>): string {
    "Analyzed repo " + owner + "/" + repo + ". Found " + NatToString(|files|) + " items: "
    + Join(", ", Take(files, 10)) + "..."
  }

  /** What `read_repo(repo_url)` returns: a line of text in every case,
      never an exception. */
  function Answer(url: string, fetch: string -> Response): string {
    match Coordinates(url)
    case None => "Invalid GitHub URL."
    case Some((owner, repo)) =>
      match fetch(ApiUrl(owner, repo))
      case RequestFailed(message) => "Error reading repo: " + message
      case Contents(entries) =>
        match ListingOf(entries)
        case MissingKey(k) => "Error reading repo: '" + k + "'"
        case Names(files) => Summary(owner, repo, files)
  }

  /** `read_repo(repo_url)`. */
  method ReadRepo(url: string, fetch: string -> Response) returns (answer: string)
    ensures answer == Answer(url, fetch)
  {
    var parts := Split(RStrip(url, '/'), '/');
    if |parts| < 2 {
      assert Coordinates(url).None?;
      return "Invalid GitHub URL.";
    }
    var owner, repo := parts[|parts| - 2], parts[|parts| - 1];
    assert Coordinates(url) == Some((owner, repo));
    var response := fetch(ApiUrl(owner, repo));
    if response.RequestFailed? {
      return "Error reading repo: " + response.message;
    }
    var listing := ListEntries(response.entries);
    if listing.MissingKey? {
      return "Error reading repo: '" + listing.key + "'";
    }
    return Summary(owner, repo, listing.files);
  }

  /** A URL without a `/` (once trailing ones are dropped) is refused before
      any request is made: the answer does not depend on the network. */
  lemma InvalidUrl(url: string, fetch1: string -> Response, fetch2: string -> Response)
    requires '/' !in RStrip(url, '/')
    ensures Answer(url, fetch1) == "Invalid GitHub URL."
    ensures Answer(url, fetch1) == Answer(url, fetch2)
  {
  }

  /** For a URL ending in `/owner/repo`, the request goes to that repository's
      contents endpoint, and a readable listing is summarised with its full
      count and its first ten names. */
  lemma ReadRepoSummary(lead: string, owner: string, repo: string, fetch: string -> Response)
    requires '/' !in owner && '/' !in repo && repo != []
    requires fetch(ApiUrl(owner, repo)).Contents?
    requires forall e :: e in fetch(ApiUrl(owner, repo)).entries ==> Readable(e)
    ensures ListingOf(fetch(ApiUrl(owner, repo)).entries).Names?
    ensures Answer(lead + "/" + owner + "/" + repo, fetch)
         == Summary(owner, repo, ListingOf(fetch(ApiUrl(owner, repo)).entries).files)
  {
    CoordinatesOfUrl(lead, owner, repo);
    ListingFails(fetch(ApiUrl(owner, repo)).entries);
  }
}
