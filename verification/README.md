# knowledge-flow-ai: the deterministic core, modelled and proved in Dafny

knowledge-flow-ai is a set of agent tools that read GitHub repositories, draft
technical articles with a human in the loop, and publish them to GitHub Pages.
Around the agent wiring, prompts, git subprocesses and HTTP calls sits a core of
deterministic string, collection and small-store routines. This project models
that core and proves what it promises:

- **The GitHub Pages deployer** (`github_pages_deployer.py`), in `pages_deployer.dfy`:
  - the title slug;
  - the two-pattern repository-URL parser;
  - the Jekyll post (its file name, the date truncation, the YAML front matter and the commit message);
  - the predicted Pages URL;
  - the classification of a later fetch of that URL.

  `deploy_article` is a function of the token's presence, the inputs, today's
  date and the outcome of the git steps.
- **The article draft store** (`article_creator.py`), in `article_creator.dfy`:
  - `ArticleStore` is a class with three map fields standing for the
    `<id>_structure.json`, `<id>_article.json` and `<id>_article.md` files;
  - its methods create structures, generate and refine drafts, and list them;
  - fetching a draft for deployment is a function;
  - ids come from a topic and a clock reading (`clock.dfy`).

  Metadata is an insertion-ordered Python dict (`dicts.dfy`, `metadata.dfy`).
- **The repository analyzer** (`repository_analyzer.py`), over an abstract file
  tree (`file_tree.dfy`):
  - URL parsing and the clone path (`repo_analyzer.dfy`, with the `.git`
    clean-up shared with the deployer in `repo_urls.dfy`);
  - statistics, the language histogram, framework detection and the
    depth-bounded directory listing (`repo_walk.dfy`);
  - symbol scraping and the caps on the snippet and structure reports
    (`code_snippets.dfy`).
- **The REST reader** (`github_reader.py`), in `github_reader.dfy`: the URL
  split, the listing loop over the contents response, and the summary line.
  The HTTP request is a function parameter.

Python's `str` operations (`lower`, `replace`, `split`, `splitlines`, `strip`,
`rstrip`, `endswith`, `in`) are defined once in `strings.dfy` over ASCII text.
`wrappers.dfy` holds `Option`.

## Model

| member | source | states |
|---|---|---|
| PagesDeployer.KeepSlugChars | src/agent/tools/github_pages_deployer.py:271 | keeps only `[a-z0-9-]` characters; a text made only of them comes back unchanged and a text with none of them comes back empty |
| PagesDeployer.KeepSlugCharsConcat | src/agent/tools/github_pages_deployer.py:271 | the filter of a concatenation is the concatenation of the filters, so the title's slug characters are kept, in order |
| PagesDeployer.CollapseHyphens | src/agent/tools/github_pages_deployer.py:274 | the result has no `--`, keeps the first and last characters, only holds characters of the input, and is no longer than it |
| PagesDeployer.CollapseFixed | src/agent/tools/github_pages_deployer.py:274 | collapsing a text without `--` changes nothing |
| PagesDeployer.CollapseWord | src/agent/tools/github_pages_deployer.py:274 | a hyphen-free piece in front passes through unchanged |
| PagesDeployer.CollapseRun | src/agent/tools/github_pages_deployer.py:274 | a run of one or more hyphens in front, not followed by another hyphen, becomes one hyphen |
| PagesDeployer.CollapseWordRun | src/agent/tools/github_pages_deployer.py:274 | a word followed by a hyphen run and the rest gives the word, one hyphen, and the collapsed rest, so only hyphen runs shrink |
| PagesDeployer.CreateSlugIsSlug | src/agent/tools/github_pages_deployer.py:267-279 | every slug holds only `[a-z0-9-]`, never `--`, and never starts or ends with `-` |
| PagesDeployer.SlugFixedPoint | src/agent/tools/github_pages_deployer.py:258-279 | slugifying a slug gives it back |
| PagesDeployer.CreateSlugIdempotent | src/agent/tools/github_pages_deployer.py:258-279 | `_create_slug` is idempotent, and a title is its own slug exactly when it is a slug |
| PagesDeployer.MyPostSlug | src/agent/tools/github_pages_deployer.py:258-279 | the title `My Post!` gives the slug `my-post` |
| PagesDeployer.SlugUnchangedByCase | src/agent/tools/github_pages_deployer.py:268 | lower-casing and replacing spaces leave a slug as it is |
| PagesDeployer.MatchHostAt | src/agent/tools/github_pages_deployer.py:247 | a match of `github\.com[:/]([^/]+)/([^/]+)` yields two non-empty groups without `/` |
| PagesDeployer.SearchHost | src/agent/tools/github_pages_deployer.py:251-254 | the leftmost match of the first pattern yields two non-empty groups without `/` |
| PagesDeployer.LastTwoSegments | src/agent/tools/github_pages_deployer.py:248 | the fallback pattern yields two non-empty segments |
| PagesDeployer.ParseRepoUrlAsWritten | src/agent/tools/github_pages_deployer.py:243-256 | the parse as written (every `.git` removed) returns non-empty owner and name, or fails (`ValueError`) |
| PagesDeployer.ParseRepoUrl | src/agent/tools/github_pages_deployer.py:242-256 | the parse with a `.git` suffix removed returns non-empty owner and name, or fails |
| PagesDeployer.MatchAfterHost | src/agent/tools/github_pages_deployer.py:247 | right after `github.com:` or `github.com/`, the pattern takes the owner and name that follow |
| PagesDeployer.NoHostAt | src/agent/tools/github_pages_deployer.py:247 | the pattern cannot match where the text does not read `g..h` |
| PagesDeployer.SearchSkip | src/agent/tools/github_pages_deployer.py:252 | indices where the pattern fails do not affect the search |
| PagesDeployer.SearchAfterHost | src/agent/tools/github_pages_deployer.py:247-254 | after a prefix ending in the host with no earlier host, the search finds owner and name |
| PagesDeployer.ParseAfterHost | src/agent/tools/github_pages_deployer.py:242-254 | such a prefix, `owner/name`, and any of the tails `""`, `/`, `.git`, `.git/` parse to (owner, name) |
| PagesDeployer.ParseHttpsUrl | src/agent/tools/github_pages_deployer.py:242-254 | `https://github.com/o/r` with or without `.git` and `/` parses to (o, r) |
| PagesDeployer.ParseSshUrl | src/agent/tools/github_pages_deployer.py:242-254 | `git@github.com:o/r` with or without `.git` and `/` parses to (o, r) |
| PagesDeployer.ParseRepoUrlAsWrittenRenamesPagesRepo | src/agent/tools/github_pages_deployer.py:243 | as written, `https://github.com/o/o.github.io` parses to (o, `ohub.io`) |
| PagesDeployer.ParseRepoUrlKeepsPagesRepo | src/agent/tools/github_pages_deployer.py:242-243 | with the suffix-only clean-up, it parses to (o, `o.github.io`) |
| PagesDeployer.OptionalLine | src/agent/tools/github_pages_deployer.py:128-145 | an optional front-matter line is written exactly when its key is present, and reads `key: ...` ending in a line feed |
| PagesDeployer.DeployArticle | src/agent/tools/github_pages_deployer.py:66-178 | without a token, the token error comes before anything else; with neither URL nor owner and name, the repository error; a URL is refused exactly when it does not parse; nothing is written when the checkout fails; whenever a post is written, it is the post for the title, content, metadata and date, in the repository the URL or the owner and name give; a deployment means every git step succeeded and the file is under `_posts/` |
| PagesDeployer.PostFileName | src/agent/tools/github_pages_deployer.py:106-118 | the file is `_posts/<date>-<slug>.md`; a longer string date is cut to ten characters; with no date, today's `YYYY-MM-DD` is used; the slug is a slug |
| PagesDeployer.MyPostFile | src/agent/tools/github_pages_deployer.py:106-118 | the article `My Post!` dated `2024-03-05` is written to `_posts/2024-03-05-my-post.md` |
| PagesDeployer.FramedText | src/agent/tools/github_pages_deployer.py:123-150 | a text written as head, fields, closing marker and body starts with the head and ends with the marker and body |
| PagesDeployer.PostText | src/agent/tools/github_pages_deployer.py:123-159 | the post opens with `---`, `layout: post` and the quoted title, and ends with `---`, a blank line and the content verbatim; the commit message is `Add article: <title>` |
| PagesDeployer.DeployedUrl | src/agent/tools/github_pages_deployer.py:177-178 | a deployed post's URL is `https://<owner>.github.io/<name>/<y>/<m>/<d>/<slug>.html`, from the three dash-separated parts of the file's date, which join back to that date |
| PagesDeployer.PagesUrlToday | src/agent/tools/github_pages_deployer.py:177-178 | from today's date, the URL carries the four-digit year and the two-digit month and day |
| PagesDeployer.DeployWithoutDate | src/agent/tools/github_pages_deployer.py:66-178 | with owner and name given, no date in the metadata and every git step succeeding, the article is deployed at today's URL |
| PagesDeployer.DeployedByName | src/agent/tools/github_pages_deployer.py:175-178 | with owner and name given and every git step succeeding, the article is deployed at the predicted URL whenever that URL can be formed |
| PagesDeployer.DeployedIff | src/agent/tools/github_pages_deployer.py:66-178 | an article is deployed exactly when the token is there, the repository is named and parses, every git step succeeds and the post's date splits into year, month and day; the URL it reports is the Pages URL of that repository, date and title slug |
| PagesDeployer.SuccessReportNames | src/agent/tools/github_pages_deployer.py:180-194 | the success report names the repository, the `_posts/` file, the commit message and the Pages URL |
| PagesDeployer.Classify | src/agent/tools/github_pages_deployer.py:217-231 | status 200 is accessible; any other status is a warning; HTTP 404 means still building; any other HTTP error is an HTTP error; anything else is "could not validate" (each an if-and-only-if) |
| PagesDeployer.AccessibleReport | src/agent/tools/github_pages_deployer.py:220-221 | a page answering 200 gets the success line, opening with the source's three-character mark and ending with the URL |
| PagesDeployer.StatusWarningReport | src/agent/tools/github_pages_deployer.py:222-223 | any other status gives a warning ending with the URL |
| PagesDeployer.StillBuildingReport | src/agent/tools/github_pages_deployer.py:226-227 | a 404 gives the still-building text ending with the URL |
| PagesDeployer.HttpErrorReport | src/agent/tools/github_pages_deployer.py:228-229 | another HTTP error gives a text ending with its reason |
| PagesDeployer.OtherErrorReport | src/agent/tools/github_pages_deployer.py:230-231 | any other failure gives a text opening with its message |
| RepoUrls.RemoveSuffix | src/agent/tools/github_pages_deployer.py:242 | removing a suffix leaves a prefix of the text |
| RepoUrls.NoGitEnding | src/agent/tools/github_pages_deployer.py:242-243 | a path ending in `/name` ends in `.git` only when `name` does |
| RepoUrls.NormalizeForms | src/agent/tools/github_pages_deployer.py:242-243 | the suffix-only clean-up removes exactly the tail (`""`, `/`, `.git`, `.git/`) |
| RepoUrls.DotNotGit | src/agent/tools/github_pages_deployer.py:243 | a `.` not followed by `git` survives the removal of every `.git` |
| RepoUrls.LeadingGit | src/agent/tools/github_pages_deployer.py:243 | a leading `.git` is removed |
| RepoUrls.DropInnerGit | src/agent/tools/github_pages_deployer.py:243 | in `a.m.git t`, removing every `.git` gives `a.m t` |
| RepoUrls.PagesUrlNoTrailingSlash | src/agent/tools/github_pages_deployer.py:243 | the Pages repository URL has no trailing `/` to strip |
| RepoUrls.NormalizeAsWrittenPagesRepo | src/agent/tools/github_pages_deployer.py:243 | the clean-up as written turns `.../o/o.github.io` into `.../o/ohub.io` |
| RepoUrls.ReplaceGitSuffix | src/agent/tools/github_pages_deployer.py:243 | a trailing `.git` is removed on its own |
| RepoUrls.NormalizeAsWrittenTail | src/agent/utils/repository_analyzer.py:27 | for a URL with no `.git` before its tail, the clean-up as written removes exactly the tail |
| RepoUrls.ReplaceHostPath | src/agent/utils/repository_analyzer.py:27 | a host followed by a login without `.` and a name without `.git` passes through the removal of every `.git` |
| RepoUrls.ReplaceDottedPath | src/agent/utils/repository_analyzer.py:27 | the same, for any host whose one `.` is not followed by `g` |
| RepoAnalyzer.FirstTwo | src/agent/utils/repository_analyzer.py:31-33 | the first two `/`-separated parts exist exactly when there is a `/`, and hold no `/` |
| RepoAnalyzer.ParseCleaned | src/agent/utils/repository_analyzer.py:30-41 | a parse succeeds only for a URL holding `github.com/` or `git@github.com:`, and gives parts without `/` |
| RepoAnalyzer.HostInPathEnds | src/agent/utils/repository_analyzer.py:30-31 | `github.com/` occurs in `a/b` only where `a` ends in `github.com` |
| RepoAnalyzer.OccurrenceEndsAtSlash | src/agent/utils/repository_analyzer.py:30-31 | an occurrence in `a/b` of a text whose only `/` is its last character ends at the `/` between `a` and `b` |
| RepoAnalyzer.OnlySlash | src/agent/utils/repository_analyzer.py:31 | in `a/b`, with no `/` in `a` or `b`, the only `/` is the one between them |
| RepoAnalyzer.NoHostInPath | src/agent/utils/repository_analyzer.py:30-31 | `owner/name` does not name the host again |
| RepoAnalyzer.LoginNotHost | src/agent/utils/repository_analyzer.py:31 | an account name holds no `/` or `.`, and does not end in `github.com` |
| RepoAnalyzer.HttpsAfterLast | src/agent/utils/repository_analyzer.py:31 | after `https://github.com/`, a path without the host is what follows the last host |
| RepoAnalyzer.ParseAfterHttpsHost | src/agent/utils/repository_analyzer.py:30-33 | the HTTPS branch takes the first two parts after the host |
| RepoAnalyzer.ParseHttpsCleaned | src/agent/utils/repository_analyzer.py:29-33 | `https://github.com/o/r`, once cleaned, gives (o, r) |
| RepoAnalyzer.SshPrefixNotHost | src/agent/utils/repository_analyzer.py:30 | the SSH prefix and an account name do not end in `github.com`, so the HTTPS branch does not apply |
| RepoAnalyzer.ParseSshCleaned | src/agent/utils/repository_analyzer.py:35-39 | `git@github.com:o/r`, once cleaned, gives (o, r) |
| RepoAnalyzer.NoAtInPath | src/agent/utils/repository_analyzer.py:36 | an account name and a repository name hold no `@`, so their path does not contain the SSH host |
| RepoAnalyzer.ParseHttpsUrl | src/agent/utils/repository_analyzer.py:26-33 | `https://github.com/o/r`, with or without `/`, `.git` or `.git/`, gives (o, r) |
| RepoAnalyzer.ParseHttpsUrlNoTail | src/agent/utils/repository_analyzer.py:26-33 | `https://github.com/o/r` gives (o, r) |
| RepoAnalyzer.ParseSshUrl | src/agent/utils/repository_analyzer.py:26-39 | `git@github.com:o/r`, with or without `/`, `.git` or `.git/`, gives (o, r) |
| RepoAnalyzer.ParseUrlAsWritten | src/agent/utils/repository_analyzer.py:26-39 | as written, both forms give (o, r) when the name holds no `.git` |
| RepoAnalyzer.LoginThenName | src/agent/utils/repository_analyzer.py:26-39 | an account name followed by repository-name characters is a repository name |
| RepoAnalyzer.ParseRepoUrlAsWrittenRenamesPagesRepo | src/agent/utils/repository_analyzer.py:27 | as written, `https://github.com/o/o.github.io` gives (o, `ohub.io`) |
| RepoAnalyzer.PagesNameNotGit | src/agent/utils/repository_analyzer.py:26-27 | `o.github.io` does not end in `.git` |
| RepoAnalyzer.ParseRepoUrlKeepsPagesRepo | src/agent/utils/repository_analyzer.py:26-33 | with the suffix-only clean-up, it gives (o, `o.github.io`) |
| RepoAnalyzer.ClonePath | src/agent/utils/repository_analyzer.py:43-50 | with the suffix-only parse: a clone path exactly when the URL parses and `<cwd>/temp/github_clones/<owner>/<repo>` exists, and it is that path |
| RepoAnalyzer.ClonePathAsWritten | src/agent/utils/repository_analyzer.py:43-50 | the same, on the parse as written, which removes every `.git` |
| RepoAnalyzer.ClonePathOfUrl | src/agent/utils/repository_analyzer.py:43-50 | an HTTPS or SSH URL of `owner/name`, with any tail, has the clone path `<cwd>/temp/github_clones/owner/name` exactly when that directory exists |
| RepoAnalyzer.ClonePathAsWrittenPagesRepo | src/agent/utils/repository_analyzer.py:26-48 | for `https://github.com/o/o.github.io`, the code as written looks under `o/ohub.io`, the corrected parse under `o/o.github.io` |
| RepoAnalyzer.NoHostNoClone | src/agent/utils/repository_analyzer.py:30-50 | a URL with neither host fails to parse, so it has no clone path |
| FileTree.RGlobUnder | src/agent/utils/repository_analyzer.py:263 | every path `rglob` yields below a directory starts with that directory's parts |
| FileTree.BelowUnder | src/agent/utils/repository_analyzer.py:324 | the same for the paths below the subdirectories |
| FileTree.RGlobCount | src/agent/utils/repository_analyzer.py:324 | `rglob` yields every node of the tree exactly once, by count |
| FileTree.BelowCount | src/agent/utils/repository_analyzer.py:324 | the paths below the subdirectories are all nodes but the entries themselves |
| FileTree.CountShownConcat | src/agent/utils/repository_analyzer.py:325 | the items outside `.git` of two runs add up |
| FileTree.VisibleSplit | src/agent/utils/repository_analyzer.py:325 | the visible nodes are the visible entries plus what is visible below them |
| FileTree.ListedShown | src/agent/utils/repository_analyzer.py:325 | outside `.git`, the entries shown are those not named `.git` |
| FileTree.HiddenRGlob | src/agent/utils/repository_analyzer.py:325-326 | below a `.git` directory every item is skipped |
| FileTree.HiddenListed | src/agent/utils/repository_analyzer.py:325-326 | the entries of a `.git` directory are skipped |
| FileTree.HiddenBelow | src/agent/utils/repository_analyzer.py:325-326 | everything below a `.git` directory is skipped |
| FileTree.BelowShown | src/agent/utils/repository_analyzer.py:325 | outside `.git`, the items shown below the subdirectories are the visible nodes there |
| FileTree.RGlobShown | src/agent/utils/repository_analyzer.py:324-326 | outside `.git`, the items `rglob` yields that are not in `.git` are the nodes not named `.git` and not below one, each once |
| FileTree.LastDot | src/agent/utils/repository_analyzer.py:414 | the index of the last `.`, or the length when there is none |
| FileTree.Suffix | src/agent/utils/repository_analyzer.py:414 | `Path.suffix` is empty, or a `.` with at least one character and no other `.`, that ends the name and is shorter than it; it is non-empty exactly when the name has at least three characters, does not end with `.`, and has a `.` strictly inside it |
| FileTree.SuffixAfterStem | src/agent/utils/repository_analyzer.py:414 | any non-empty stem, dots included (`jquery.min`), followed by a one-dot extension has that extension as its suffix |
| FileTree.UpperPySuffix | src/agent/utils/repository_analyzer.py:414 | `stem.PY` lower-cases to suffix `.py` and is not in `.git` |
| FileTree.NameLeTotal | src/agent/utils/repository_analyzer.py:346 | Python's string order is total |
| FileTree.NameLeTrans | src/agent/utils/repository_analyzer.py:346 | Python's string order is transitive |
| FileTree.Insert | src/agent/utils/repository_analyzer.py:346 | insertion adds exactly the one entry |
| FileTree.InsertSorted | src/agent/utils/repository_analyzer.py:346 | insertion keeps a list sorted |
| FileTree.SortByName | src/agent/utils/repository_analyzer.py:346 | `sorted(path.iterdir())` is sorted by name and a permutation of the entries |
| RepoWalk.Counted | src/agent/utils/repository_analyzer.py:325-334 | an item in `.git` counts for nothing; any other counts as exactly one file or one directory; only files add bytes |
| RepoWalk.RepoStats | src/agent/utils/repository_analyzer.py:320-337 | the loop computes the statistics of `rglob`, and files plus directories equal the nodes outside `.git` |
| RepoWalk.TallySnoc | src/agent/utils/repository_analyzer.py:324-334 | one more item adds its own counts |
| RepoWalk.TallyShown | src/agent/utils/repository_analyzer.py:325-334 | files plus directories counted equal the items outside `.git` |
| RepoWalk.TallyConcat | src/agent/utils/repository_analyzer.py:324-334 | the statistics of two runs of items add up |
| RepoWalk.TallyHidden | src/agent/utils/repository_analyzer.py:325-326 | items all in `.git` count for nothing |
| RepoWalk.BelowSnoc | src/agent/utils/repository_analyzer.py:324 | one more entry adds its subtree at the end of what lies below |
| RepoWalk.RGlobSnoc | src/agent/utils/repository_analyzer.py:324 | `rglob` over a root with one more entry: the entry joins the listing and its subtree comes last |
| RepoWalk.GitEntryIgnored | src/agent/utils/repository_analyzer.py:325-326 | adding a `.git` entry of any content leaves all three statistics unchanged |
| RepoWalk.LanguageOf | src/agent/utils/repository_analyzer.py:411-416 | only a file outside `.git` has a language |
| RepoWalk.LanguageOfKnown | src/agent/utils/repository_analyzer.py:387-416 | every language an item counts for is one of the eighteen in the table |
| RepoWalk.LanguagesOf | src/agent/utils/repository_analyzer.py:410-416 | the language of each item, in `rglob` order |
| RepoWalk.HistogramSnoc | src/agent/utils/repository_analyzer.py:415-417 | one more item with a language adds one to that language's count |
| RepoWalk.DetectLanguages | src/agent/utils/repository_analyzer.py:385-421 | the loop computes the histogram of the languages of `rglob`'s items |
| RepoWalk.LanguagesOfSnoc | src/agent/utils/repository_analyzer.py:410-416 | one more item adds its language at the end |
| RepoWalk.HistogramCount | src/agent/utils/repository_analyzer.py:415-417 | a language is a key exactly when some item maps to it, and its count is the number of such items |
| RepoWalk.HistogramKeys | src/agent/utils/repository_analyzer.py:417 | no language is a key twice, and every key comes from an item |
| RepoWalk.TotalIncrement | src/agent/utils/repository_analyzer.py:417 | one more count raises the total by one |
| RepoWalk.HistogramTotal | src/agent/utils/repository_analyzer.py:415-417 | the counts add up to the number of items with a language |
| RepoWalk.LanguagesWithinFiles | src/agent/utils/repository_analyzer.py:411 | no more items have a language than the statistics count files |
| RepoWalk.LanguagesCounted | src/agent/utils/repository_analyzer.py:385-421 | over any items, the counts sum to at most the files counted, no key repeats, and every key is from the table |
| RepoWalk.LanguagesKnown | src/agent/utils/repository_analyzer.py:387-416 | every language in the run is from the table |
| RepoWalk.DetectedLanguages | src/agent/utils/repository_analyzer.py:385-421 | for a clone, the language counts sum to at most `total_files`, no key repeats, and every key is from the table |
| RepoWalk.UpperSuffixCounted | src/agent/utils/repository_analyzer.py:414-416 | the suffix is lower-cased before the lookup: `MAIN.PY` counts as Python |
| RepoWalk.PythonEntry | src/agent/utils/repository_analyzer.py:388 | the table maps `.py` to Python |
| RepoWalk.SelectedIn | src/agent/utils/repository_analyzer.py:440-442 | a label is added exactly when one of its indicator files is present |
| RepoWalk.SelectedOnce | src/agent/utils/repository_analyzer.py:440-442 | with distinct labels, no indicator label is added twice |
| RepoWalk.DependencyNames | src/agent/utils/repository_analyzer.py:449-450 | merging the two dependency fields succeeds exactly when the manifest is an object whose fields are objects or absent, and gives the union of their keys |
| RepoWalk.PickIn | src/agent/utils/repository_analyzer.py:452-461 | a label is picked exactly when one of its checks succeeds |
| RepoWalk.PickOnce | src/agent/utils/repository_analyzer.py:452-461 | with distinct labels, no label is picked twice, and only labels of the list are |
| RepoWalk.PickAt | src/agent/utils/repository_analyzer.py:452-461 | with distinct labels, a label is picked exactly when its own check succeeds |
| RepoWalk.DependencyChecks | src/agent/utils/repository_analyzer.py:452-461 | there are five checks |
| RepoWalk.DependencyLabelsDiffer | src/agent/utils/repository_analyzer.py:453-461 | the five dependency labels differ |
| RepoWalk.DependencyLabelsIff | src/agent/utils/repository_analyzer.py:452-461 | React, Vue.js, Next.js and Express.js are added exactly when their package is a dependency; Angular exactly when `angular` or `@angular/core` is |
| RepoWalk.DependencyLabelsOnce | src/agent/utils/repository_analyzer.py:452-461 | only the five labels are added, each at most once, so Angular appears once when both of its packages are present |
| RepoWalk.DetectFrameworks | src/agent/utils/repository_analyzer.py:423-465 | the loops compute the indicator labels in table order, then the dependency labels |
| RepoWalk.IndicatorLabelsDistinct | src/agent/utils/repository_analyzer.py:428-438 | the indicator labels differ from each other and from the dependency labels |
| RepoWalk.FrameworksOnce | src/agent/utils/repository_analyzer.py:423-465 | no label is reported twice |
| RepoWalk.IndicatorIff | src/agent/utils/repository_analyzer.py:440-442 | an indicator's label is reported exactly when its file is a root entry |
| RepoWalk.UnreadableManifest | src/agent/utils/repository_analyzer.py:446-463 | an unreadable or non-object `package.json`, or one with a non-object dependency field, adds no dependency label |
| RepoWalk.ReactIff | src/agent/utils/repository_analyzer.py:445-453 | React is reported exactly when `package.json` exists, reads as an object with object dependency fields, and names `react` |
| RepoWalk.Indent | src/agent/utils/repository_analyzer.py:350 | the indent of depth `d` is `2*d` spaces |
| RepoWalk.Render | src/agent/utils/repository_analyzer.py:350-356 | a line is `2*d` spaces and the name, with a `/` after a directory's name |
| RepoWalk.DirectoryStructure | src/agent/utils/repository_analyzer.py:339-360 | the recursive loop renders the listing: nothing at the depth limit, otherwise each entry's block in order |
| RepoWalk.EntryLines | src/agent/utils/repository_analyzer.py:347-356 | the lines one entry adds: none for `.git`, a file's line, or a directory's line followed by its own listing |
| RepoWalk.EntriesSnoc | src/agent/utils/repository_analyzer.py:346 | one more entry adds its block at the end |
| RepoWalk.BlockRender | src/agent/utils/repository_analyzer.py:347-356 | the rendered block of `.git` is empty, of a directory is `name/` then its sub-listing, of a file is its name |
| RepoWalk.RenderAllConcat | src/agent/utils/repository_analyzer.py:354 | extending the structure renders the lines one after the other |
| RepoWalk.ListingBounds | src/agent/utils/repository_analyzer.py:342-356 | every line's depth lies between the starting depth and the limit, and no line is a `.git` entry |
| RepoWalk.EntriesBounds | src/agent/utils/repository_analyzer.py:346-356 | the same for the blocks of a run of entries |
| RepoWalk.ListingPreOrder | src/agent/utils/repository_analyzer.py:346-354 | the listing is a pre-order walk: each line is at most one level deeper than the previous, and deeper only below a directory's line |
| RepoWalk.EntriesPreOrder | src/agent/utils/repository_analyzer.py:346-354 | the same for the blocks of a run of entries |
| RepoWalk.BlockPreOrder | src/agent/utils/repository_analyzer.py:351-356 | the same for one entry's block |
| RepoWalk.ConcatPreOrder | src/agent/utils/repository_analyzer.py:354 | two pre-order listings at one depth, one after the other, form one |
| RepoWalk.ListingSorted | src/agent/utils/repository_analyzer.py:346 | the lines at the starting depth are in name order |
| RepoWalk.BlockShape | src/agent/utils/repository_analyzer.py:351-354 | a block is its entry's line, then lines one level deeper |
| RepoWalk.EntriesSorted | src/agent/utils/repository_analyzer.py:346 | for sorted entries, the top lines of their blocks are sorted and name those entries |
| CodeSnippets.PythonPartCases | src/agent/utils/repository_analyzer.py:474-482 | a stripped `.py` line adds an entry exactly when it starts with `class ` or `def `; `class ` wins; a function's entry starts with `def ` and ends with `()` |
| CodeSnippets.ScriptPartCases | src/agent/utils/repository_analyzer.py:484-495 | a script line adds an entry exactly when it starts with `class `, holds `function `, or starts with `const ` and holds `=>`, checked in that order; the entry says which |
| CodeSnippets.ExtractKeyCodeParts | src/agent/utils/repository_analyzer.py:467-499 | the method computes the entries of the file's lines for its suffix |
| CodeSnippets.PythonKeyParts | src/agent/utils/repository_analyzer.py:474-482 | the loop over a `.py` file's lines computes its entries, in line order |
| CodeSnippets.PythonLineParts | src/agent/utils/repository_analyzer.py:476-482 | what one stripped Python line appends |
| CodeSnippets.ScriptKeyParts | src/agent/utils/repository_analyzer.py:484-495 | the loop over a script's lines computes its entries, in line order |
| CodeSnippets.ScriptLineParts | src/agent/utils/repository_analyzer.py:486-495 | what one stripped script line appends |
| CodeSnippets.KeyPartsOtherSuffix | src/agent/utils/repository_analyzer.py:474-484 | a suffix other than `.py`, `.js`, `.ts`, `.jsx` or `.tsx` (`.PY` included) yields no entry |
| CodeSnippets.KeyPartsConcat | src/agent/utils/repository_analyzer.py:475-495 | the entries of two runs of lines are those of the first, then of the second |
| CodeSnippets.KeyPartsFromLines | src/agent/utils/repository_analyzer.py:475-495 | at most one entry per line, each the entry of one of the lines |
| CodeSnippets.PythonPartsShape | src/agent/utils/repository_analyzer.py:477-482 | every `.py` entry is a class or a function, and a function's ends in `()` |
| CodeSnippets.KeywordName | src/agent/utils/repository_analyzer.py:478-481 | cutting `kw name sep rest` at the first `sep` and deleting every `kw` leaves `name` |
| CodeSnippets.PythonClassName | src/agent/utils/repository_analyzer.py:477-479 | `class Name(...` yields `class Name` |
| CodeSnippets.PythonDefName | src/agent/utils/repository_analyzer.py:480-482 | `def name(...` yields `def name()` |
| CodeSnippets.IndentedDefKeyPart | src/agent/utils/repository_analyzer.py:476-482 | a `def` line indented by any whitespace (a method) still yields `def name()` as a Python key part |
| CodeSnippets.ScriptPartsShape | src/agent/utils/repository_analyzer.py:487-495 | every script entry is a class, a function ending in `()`, or a `const` |
| CodeSnippets.LeadKeywordName | src/agent/utils/repository_analyzer.py:491 | the text after the last `function ` and before the first `(` is the declared name |
| CodeSnippets.ScriptFunctionName | src/agent/utils/repository_analyzer.py:490-492 | `export async function name(...` yields `function name()` |
| CodeSnippets.Child | src/agent/utils/repository_analyzer.py:253 | the entry found has the name asked for, and none is found when no entry has it |
| CodeSnippets.Resolve | src/agent/utils/repository_analyzer.py:253-255 | the node `clone / path` resolves to is named by the path's last part |
| CodeSnippets.FilesOnly | src/agent/utils/repository_analyzer.py:264 | keeps exactly the files |
| CodeSnippets.WithSuffixIn | src/agent/utils/repository_analyzer.py:268 | keeps exactly the items whose suffix is listed |
| CodeSnippets.SnippetFilesCap | src/agent/utils/repository_analyzer.py:260-271 | at most ten files, a prefix of the filtered files, each a file under the component; suffixes filter only when the list is non-empty; when at most ten pass the filter, none is dropped |
| CodeSnippets.Preview | src/agent/utils/repository_analyzer.py:285 | the preview is a prefix of the content of at most 500 characters, and the whole content when it is no longer |
| CodeSnippets.SnippetsOf | src/agent/utils/repository_analyzer.py:273-288 | one record per file |
| CodeSnippets.SnippetsOfSnoc | src/agent/utils/repository_analyzer.py:273-288 | one more file adds its record at the end |
| CodeSnippets.ExtractCodeSnippets | src/agent/utils/repository_analyzer.py:237-291 | the method gives "not cloned", "component not found", or the records of the selected files |
| CodeSnippets.ReadSnippets | src/agent/utils/repository_analyzer.py:273-288 | the loop records each selected file, in order |
| CodeSnippets.CodeSnippetsCases | src/agent/utils/repository_analyzer.py:253-271 | a missing component is reported exactly when the path does not resolve, and at most ten files are recorded |
| CodeSnippets.KeyElements | src/agent/utils/repository_analyzer.py:302-303 | at most the first five key parts are shown, all of them when there are no more |
| CodeSnippets.PreviewLines | src/agent/utils/repository_analyzer.py:307 | at most the first fifteen lines of the preview are shown |
| CodeSnippets.MoreLinesAccounts | src/agent/utils/repository_analyzer.py:284-310 | with the note corrected, the lines shown plus those reported as more are the file's lines, and there is a note exactly when some line is not shown |
| CodeSnippets.LineFeedsLines | src/agent/utils/repository_analyzer.py:284 | `n` line feeds are `n` lines |
| CodeSnippets.OneLine | src/agent/utils/repository_analyzer.py:284 | a text without line boundaries is one line |
| CodeSnippets.LineThenFeeds | src/agent/utils/repository_analyzer.py:284 | a line without boundaries followed by `n` line feeds is `n` lines |
| CodeSnippets.MoreLinesAsWrittenMiscounts | src/agent/utils/repository_analyzer.py:307-310 | a file of one 500-character line and sixteen line feeds shows one line, and the note as written says one more where fifteen are hidden |
| CodeSnippets.MoreItems | src/agent/utils/repository_analyzer.py:102-105 | a note appears exactly when the listing has more than sixty lines, and the lines shown plus the number reported are all of them |
| CodeSnippets.ShortStructureWhole | src/agent/utils/repository_analyzer.py:102-105 | a listing of at most sixty lines is printed whole, without a note |
| GitHubReader.Coordinates | src/agent/tools/github_reader.py:21-24 | after stripping trailing `/`, owner and repository exist exactly when a `/` is left, and hold no `/` |
| GitHubReader.CoordinatesOfUrl | src/agent/tools/github_reader.py:21-24 | any URL ending in `/owner/repo` names that owner and repository, whatever the host |
| GitHubReader.TrailingSlashIgnored | src/agent/tools/github_reader.py:21 | a trailing `/` does not change what a URL names |
| GitHubReader.ListEntries | src/agent/tools/github_reader.py:32-37 | the loop over the entries computes the listing |
| GitHubReader.MissingKeySticks | src/agent/tools/github_reader.py:33-37 | once an entry lacks a key, the entries after it do not matter |
| GitHubReader.ListingFails | src/agent/tools/github_reader.py:33-37 | the loop fails exactly when some entry lacks its type, or is a file or directory without a name |
| GitHubReader.ListingKeeps | src/agent/tools/github_reader.py:34-37 | every file is listed by its name and every directory by its name and `/` |
| GitHubReader.ListingOnly | src/agent/tools/github_reader.py:33-37 | only those names are listed, at most one per entry; other types are dropped |
| GitHubReader.ListingConcat | src/agent/tools/github_reader.py:33-37 | the listing of two runs of entries is that of the first, then of the second (order kept) |
| GitHubReader.ReadRepo | src/agent/tools/github_reader.py:10-42 | the method returns the answer in every case, never raising |
| GitHubReader.InvalidUrl | src/agent/tools/github_reader.py:21-23 | a URL left with no `/` gives "Invalid GitHub URL." before any request |
| GitHubReader.ReadRepoSummary | src/agent/tools/github_reader.py:24-39 | for `.../owner/repo`, the request goes to that repository's contents endpoint, and a readable listing is summarised with its full count and its first ten names |
| ArticleCreator.KeepAlnumHyphen | src/agent/tools/article_creator.py:315 | keeps only letters, digits and `-`; a text of those alone comes back unchanged, a text with none comes back empty, and without upper-case letters the result is an id fragment |
| ArticleCreator.KeepAlnumHyphenConcat | src/agent/tools/article_creator.py:315 | the filter of a concatenation is the concatenation of the filters, so kept characters stay in order |
| ArticleCreator.TopicSlug | src/agent/tools/article_creator.py:314-316 | the slug has at most fifty characters, all lower-case letters, digits or `-` |
| ArticleCreator.TopicSlugPlain | src/agent/tools/article_creator.py:313-316 | a topic of lower-case letters, digits, spaces and `-` gives its first fifty characters with spaces turned into `-`, hyphens neither collapsed nor trimmed |
| ArticleCreator.TopicSlugKeepsHyphens | src/agent/tools/article_creator.py:313-316 | the topic `" a  b-"` gives the slug `-a--b-` |
| ArticleCreator.GenerateIdIsId | src/agent/tools/article_creator.py:304-321 | an id holds only lower-case letters, digits and hyphens |
| ArticleCreator.GenerateIdShape | src/agent/tools/article_creator.py:313-321 | an id is the slug, a `-` and the fifteen-character `YYYYMMDD-HHMMSS` stamp, at most 66 characters |
| ArticleCreator.GenerateIdDistinct | src/agent/tools/article_creator.py:319-321 | the same topic at two clock readings gives the same id exactly when they fall in the same second |
| ArticleCreator.ListedIdRecovers | src/agent/tools/article_creator.py:280 | the id read back from `<id>_article` is the id |
| ArticleCreator.CallerMetadata | src/agent/tools/article_creator.py:110-116 | the caller's metadata (empty when absent or not JSON) never repeats a key |
| ArticleCreator.StoredMetadataSpec | src/agent/tools/article_creator.py:121-125 | the stored metadata lists `created_at`, `source_info`, then the caller's other keys in order; the caller's value wins on every key it has; no key repeats |
| ArticleCreator.StoredMetadataDistinct | src/agent/tools/article_creator.py:121-125 | the stored metadata never repeats a key |
| ArticleCreator.Without | src/agent/tools/article_creator.py:215-216 | a key is kept exactly when it is in the metadata and not excluded |
| ArticleCreator.FieldLinesWithout | src/agent/tools/article_creator.py:215-217 | the lines written with exclusions are the lines of the entries kept |
| ArticleCreator.WriteFields | src/agent/tools/article_creator.py:215-217 | the loop writes `key: value` for each entry not excluded, in dict order |
| ArticleCreator.MarkdownShape | src/agent/tools/article_creator.py:136-146 | every draft ends with `# <topic>`, a blank line and the content verbatim, and opens with front matter exactly when its dict is non-empty |
| ArticleCreator.FrontMatterOpens | src/agent/tools/article_creator.py:138-143 | the text opens with `---` exactly when the dict is non-empty |
| ArticleCreator.Preview | src/agent/tools/article_creator.py:148 | a content of at most 500 characters is its own preview; a longer one is its first 500 characters followed by exactly `...` |
| ArticleCreator.Dashes | src/agent/tools/article_creator.py:297 | `"-" * n` |
| ArticleCreator.EntriesSnoc | src/agent/tools/article_creator.py:292-297 | one more draft adds its entry at the end |
| ArticleCreator.ArticleStore.constructor | src/agent/tools/article_creator.py:17-29 | the store starts empty, under `<root>/temp/article_drafts` |
| ArticleCreator.ArticleStore.CreateStructure | src/agent/tools/article_creator.py:31-78 | stores the structure under the generated id with status `structure_proposed`, overwriting without checking; changes nothing else; reports the id and file |
| ArticleCreator.ArticleStore.ForDeployment | src/agent/tools/article_creator.py:238-264 | returns the error exactly when the id is unknown |
| ArticleCreator.ArticleStore.GenerateContent | src/agent/tools/article_creator.py:83-166 | an unknown structure or non-object metadata changes nothing and reports the error; otherwise stores the draft with the merged metadata and status `draft_generated`, writes its Markdown, and a deployment fetch then returns it |
| ArticleCreator.ArticleStore.RefineSection | src/agent/tools/article_creator.py:171-233 | an unknown id changes nothing and reports the error; otherwise every occurrence is replaced, `last_refined` set, status `refined`, the Markdown rewritten without the internal keys, and nothing else changes |
| ArticleCreator.ArticleStore.ListArticles | src/agent/tools/article_creator.py:269-299 | "No article drafts found." for an empty store, else the header and one entry per draft in directory order |
| ArticleCreator.ListingEmptyIff | src/agent/tools/article_creator.py:288-289 | the listing says no drafts were found exactly when the store holds none |
| ArticleCreator.RefineAbsentSection | src/agent/tools/article_creator.py:197-200 | a section text that does not occur leaves the content as it was |
| ArticleCreator.RefineMetadata | src/agent/tools/article_creator.py:201 | refining sets `last_refined` and leaves every other key's value and place |
| Clock.IdStampShape | src/agent/tools/article_creator.py:319 | the stamp is fifteen characters: eight digits, `-`, six digits |
| Clock.IdStampInjective | src/agent/tools/article_creator.py:319 | two valid readings have the same stamp exactly when they fall in the same second |
| Clock.IdStampFields | src/agent/tools/article_creator.py:319 | where each field sits in the stamp |
| Clock.DigitsInjective | src/agent/tools/article_creator.py:319 | numbers that fit the width have distinct zero-padded forms |
| Clock.DateStampSplit | src/agent/tools/github_pages_deployer.py:177 | today's `YYYY-MM-DD` splits at `-` into year, month and day |
| Metadata.StrItems | src/agent/tools/article_creator.py:142 | `str()` of a list is bracketed, `[]` when empty and `['x']` for one item |
| Dicts.Keys | src/agent/tools/article_creator.py:141 | the keys, in dict order |
| Dicts.Get | src/agent/tools/article_creator.py:123 | `d.get(k)` finds a value exactly when `k` is a key |
| Dicts.GetIn | src/agent/utils/repository_analyzer.py:415-416 | a value found is stored under its key |
| Dicts.SetGet | src/agent/tools/article_creator.py:201 | after `d[k] = v`, `k` holds `v` and every other key holds what it held |
| Dicts.KeysSnoc | src/agent/tools/article_creator.py:215-216 | the keys of a dict followed by an entry |
| Dicts.SetKeys | src/agent/tools/article_creator.py:201 | `d[k] = v` keeps a present key in place and appends a new one |
| Dicts.SetDistinct | src/agent/tools/article_creator.py:201 | `d[k] = v` never repeats a key |
| Dicts.IncrementIsSet | src/agent/utils/repository_analyzer.py:417 | counting one more `k` is `d[k] = d.get(k, 0) + 1` |
| Dicts.IncrementGet | src/agent/utils/repository_analyzer.py:417 | counting raises `k`'s count by one and leaves the others |
| Dicts.IncrementKeys | src/agent/utils/repository_analyzer.py:417 | counting adds no key but `k` |
| Dicts.IncrementDistinct | src/agent/utils/repository_analyzer.py:417 | counting never repeats a key |
| Dicts.NewKeys | src/agent/tools/article_creator.py:124 | the keys of one list that are not in another, in order |
| Dicts.NewKeysSkip | src/agent/tools/article_creator.py:124 | a key not in the list does not change what is new |
| Dicts.UpdateKeys | src/agent/tools/article_creator.py:121-125 | merging keeps the base keys first and in place, then the other dict's new keys in its order |
| Dicts.UpdateGet | src/agent/tools/article_creator.py:121-125 | merging: the merged-in value wins on a shared key, and other keys keep their value |
| Dicts.UpdateDistinct | src/agent/tools/article_creator.py:121-125 | assigning entries one by one never repeats a key |
| Strings.LowerChar | src/agent/tools/github_pages_deployer.py:268 | lower-casing one ASCII character |
| Strings.LowerIdempotent | src/agent/tools/github_pages_deployer.py:268 | `lower()` leaves no upper-case letter, and lower-casing twice is lower-casing once |
| Strings.SpacesToHyphensIsReplace | src/agent/tools/github_pages_deployer.py:268 | the position-wise replacement is `s.replace(" ", "-")` (the general `replace`), and leaves no space |
| Strings.ContainsAt | src/agent/utils/repository_analyzer.py:30 | an occurrence at an index means `t in s` |
| Strings.ContainsOccurs | src/agent/utils/repository_analyzer.py:30 | `t in s` means an occurrence at some index |
| Strings.MissingCharNotContained | src/agent/utils/repository_analyzer.py:36 | a text lacking a character of `t` does not contain `t` |
| Strings.BeforeFirst | src/agent/utils/repository_analyzer.py:478 | `s.split(sep)[0]` is a prefix without `sep`, followed by `sep` when shorter than `s` |
| Strings.BeforeFirstAt | src/agent/utils/repository_analyzer.py:478 | the text before the first `sep` of `a sep b` is `a` |
| Strings.AfterLast | src/agent/utils/repository_analyzer.py:31 | `s.split(t)[-1]` is a suffix of `s` |
| Strings.ContainsExtend | src/agent/utils/repository_analyzer.py:31 | text in front of an occurrence keeps it one |
| Strings.AfterLastSkip | src/agent/utils/repository_analyzer.py:31 | a lead without `t`'s first character does not change what follows the last `t` |
| Strings.AfterLastLead | src/agent/utils/repository_analyzer.py:31 | after a leading `t`, a text without `t` is what follows the last one |
| Strings.Interleave | src/agent/tools/article_creator.py:197 | `s.replace("", rep)` puts `rep` around every character |
| Strings.ReplaceAbsent | src/agent/tools/article_creator.py:197-200 | a `replace` whose pattern does not occur changes nothing |
| Strings.ReplaceSkip | src/agent/tools/github_pages_deployer.py:243 | text without the pattern's first character passes through a `replace` |
| Strings.ReplaceConcat | src/agent/tools/github_pages_deployer.py:243 | a `replace` distributes over a concatenation whose left part ends in no partial match |
| Strings.ReplaceAppended | src/agent/tools/article_creator.py:280 | a pattern whose first character does not recur in it is removed from the end on its own |
| Strings.RStrip | src/agent/tools/github_reader.py:21 | `s.rstrip(c)` is a prefix not ending in `c` |
| Strings.Strip | src/agent/utils/repository_analyzer.py:476 | `s.strip()` neither starts nor ends with whitespace, and is the slice `s[lo..hi]` where everything before `lo` and from `hi` on is whitespace |
| Strings.LStripSpaceLead | src/agent/utils/repository_analyzer.py:476 | left-stripping ignores any leading whitespace: `lstrip(ws + t) == lstrip(t)` |
| Strings.StripIndented | src/agent/utils/repository_analyzer.py:476 | an indented line whose text starts and ends with non-space characters strips to that text followed by the right-stripped rest |
| Strings.StripUnchanged | src/agent/utils/repository_analyzer.py:476 | a text that neither starts nor ends with whitespace is its own `strip()` |
| Strings.StripChar | src/agent/tools/github_pages_deployer.py:277 | `s.strip(c)` neither starts nor ends with `c` |
| Strings.StripCharSlice | src/agent/tools/github_pages_deployer.py:277 | what `strip(c)` keeps is the slice `s[lo..hi]`, and everything before `lo` and from `hi` on is `c` |
| Strings.StripCharUnchanged | src/agent/tools/github_pages_deployer.py:277 | a text that neither starts nor ends with `c` is its own `strip(c)` |
| Strings.Split | src/agent/tools/github_reader.py:21 | `s.split(sep)` has at least one piece and no piece holds `sep` |
| Strings.SplitNoSep | src/agent/tools/github_reader.py:21 | a text without the separator is one piece |
| Strings.SplitPair | src/agent/tools/github_pages_deployer.py:177 | two separator-free texts around one separator split into the two |
| Strings.SplitCount | src/agent/tools/github_reader.py:22 | `s.split(sep)` has one more piece than `s` has separators |
| Strings.SplitAppend | src/agent/tools/github_reader.py:21 | splitting at a separator splits the two sides on their own |
| Strings.Take | src/agent/tools/github_reader.py:39 | `s[:n]` is a prefix of length `min(n, len(s))` |
| Strings.JoinSplit | src/agent/tools/github_pages_deployer.py:177 | joining the pieces of a split with the separator gives the text back |
| Strings.SplitLines | src/agent/utils/repository_analyzer.py:284 | `splitlines()` has at most as many lines as characters, and at least one for a non-empty text |
| Strings.LineEnds | src/agent/utils/repository_analyzer.py:284 | one boundary per line: `\r\n` or a single line-break character, except that the last line may have none |
| Strings.SplitLinesRoundTrip | src/agent/utils/repository_analyzer.py:284 | joining the lines back with their boundaries gives the text again, so `splitlines()` loses nothing but the boundaries |
| Strings.LineEndsCanonical | src/agent/utils/repository_analyzer.py:284 | the split is the canonical one: a line without a boundary is not empty (a final boundary starts no empty line), and `\r` then `\n` is one `\r\n` boundary, never a `\r` ending followed by an empty line ending in `\n` |
| Strings.LinesWithoutBreaks | src/agent/utils/repository_analyzer.py:472 | no line holds a line boundary |
| Strings.SplitLinesPrefix | src/agent/utils/repository_analyzer.py:307 | a prefix of a text has no more lines than the text |
| Strings.NatToString | src/agent/tools/github_reader.py:39 | `str(n)` is a non-empty run of digits whose decimal value is `n` |
| Strings.Digits | src/agent/tools/article_creator.py:319 | `n` zero-padded to `width` digits |
| Strings.DigitsRoundTrip | src/agent/tools/article_creator.py:319 | reading back a zero-padded number gives it back when it fits the width |

The helpers `RepoUrls.RStripTail`, `RepoUrls.PagesUrlPieces`, `RepoUrls.NoGitInHubIo`, `RepoUrls.DotStep`, `RepoUrls.HostDot`, `RepoUrls.Regroup`, `RepoAnalyzer.FirstTwoParts`, `RepoAnalyzer.HttpsUrlRegroup`, `RepoAnalyzer.SshUrlRegroup`, `FileTree.Size`, `FileTree.SizeDrop`, `FileTree.MemberAt`, `FileTree.SortedCons`, `Dicts.KeysCons`, `Dicts.DistinctTail`, `Dicts.NewKeysCons`, `Strings.EndsWithConcat`, `Strings.FirstBreakPrefix`, `Strings.BreakInPrefix`, `CodeSnippets.KeyPartsStep` are steps inside the proofs above (`FileTree.Size` is the termination measure of the walk); they state nothing about the system on their own, so they have no row.

## Left out

- The git subprocesses (pull, clone, add, commit, push) and their timeouts are not modelled. Their outcome is the `GitRun` input. A failed add, commit or push is one `PublishFailed` outcome; the text of git's error is not kept.
- The clone or pull through a token URL, `mkdir`, and the `TimeoutExpired`/`CalledProcessError` messages are not modelled.
- Exceptions that `deploy_article` turns into "Error deploying article" are not modelled, except the parse failure (`UnparsableUrl`) and a date that does not split in three (`UrlFailed`).
- The urllib fetch in `validate_deployment` is left out. Its outcome is the `FetchOutcome` input; only the classification and the returned text are modelled.
- The `requests` call in `read_repo` is the `fetch` parameter. A `raise_for_status` failure and any request error are `RequestFailed` with the exception's text.
- A JSON body that is not a list of objects is not modelled. Each entry is reduced to its optional `type` and `name`.
- The file system is abstract. JSON files are map fields of `ArticleStore`; a cloned repository is a `FileTree`; `Path.exists` on clone paths is a set of existing paths; reading a file gives the node's text.
- Read errors, and the `except: pass` and `except Exception` paths around them, are not modelled. This covers a missing `status` or `metadata` field in a draft file and an unreadable snippet file.
- `rglob` order is modelled as a directory's entries, then each subdirectory in turn. Python leaves that order unspecified; the proved counts do not depend on it.
- `list_articles` takes the directory's enumeration order as a parameter: each stored draft once.
- `datetime.now()` is an `Instant` parameter. Years are taken to have four digits, since `%Y` padding below 1000 differs between platforms.
- `json.loads` of the caller's metadata is the `MetadataArg` input. A JSON object is its entries in document order; a non-object is named by its Python type, whose `**` raises "not a mapping".
- Metadata values are strings or lists of strings. Numbers, booleans and nested objects are not modelled, and `str()` of a list does not escape quotes inside the items.
- In `package.json`, only the two dependency fields are modelled, through `Manifest`/`Deps`.
- Text is ASCII. `lower`, `isalnum`, `strip` and `splitlines` are modelled on ASCII characters only. Python's Unicode case mapping, Unicode digits and letters, and the non-ASCII line boundaries are not.
- PagesDeployer.DeployArticle: deploys to the repository the corrected parse names (`ParseRepoUrl`, a `.git` suffix removed). The code as written removes every `.git` (see Findings), so for a URL with `.git` inside the name the source commits to a different repository. The as-written parse is `PagesDeployer.ParseRepoUrlAsWritten`; no as-written deployment is modelled.
- RepoAnalyzer.CloneDir: the path is joined as text. `pathlib` drops empty and `.` parts, so for `https://github.com/o//x` Python gives `.../o` and the model `.../o/`.
- RepoWalk.Tally: the `.git` test (here and in `RepoWalk.LanguageOf`) looks at the parts below the clone. The source tests `item.parts` of the whole path, so a `.git` directory above the clone would hide every item in Python.
- ArticleCreator.ArticleStore.CreateStructure: one clock reading serves for both `created_at` and the id. The source reads `datetime.now()` twice (article_creator.py lines 50 and 319), so the two can differ by the time between the calls. The JSON written with `indent=2` and the `Error creating ...` paths are not modelled either.
- `detect_components`, `read_file` and `_read_key_files` in the repository analyzer are not modelled. They are outside the modelled core.
- The rest of `analyze_structure`'s report is not modelled: the statistics lines, the language lines sorted by count, and the key-file names. Only the sixty-line cap on the listing and its "more items" note are.
- `extract_code_snippets`' report text is not modelled. The records, the five-element cap and the fifteen-line cap are.
- ArticleCreator.ArticleStore.ForDeployment: states only when the error dict is returned; the fields of the ready dict are given by its definition.
- RepoWalk.Counted: `stat()` failures and items that are neither files nor directories (broken links, sockets) are not modelled. Every node is a file or a directory.
- Strings.StripChar: its own contract says only that the result neither starts nor ends with `c`. That the result is the slice of `s` between two runs of `c` is stated by `Strings.StripCharSlice`, as a lemma so that the deployment proofs built on slugs stay small.
- Strings.SplitLines: its own contract bounds the number of lines. What the lines are is stated by `Strings.LinesWithoutBreaks` (no line holds a boundary), `Strings.LineEnds` (each boundary is `\r\n` or one break character), `Strings.SplitLinesRoundTrip` (lines and boundaries rebuild the text) and `Strings.LineEndsCanonical` (no empty last line after a final boundary, and `\r\n` is never split in two).
- GitHubReader.ReadRepo: the text of a `KeyError` is the missing key in quotes. The text of other exceptions is the `RequestFailed` message.

## Findings

| source | as written | input that shows it | evidently intended | confidence | as-written member | corrected member |
|---|---|---|---|---|---|---|
| src/agent/tools/github_pages_deployer.py:242-243 | `repo_url.rstrip("/").replace(".git", "")` removes every `.git` in the URL | `https://github.com/alice/alice.github.io` parses to (`alice`, `alicehub.io`) | remove one `.git` suffix, as the comment beside it says, giving (`alice`, `alice.github.io`) | not executed; high | PagesDeployer.ParseRepoUrlAsWrittenRenamesPagesRepo | PagesDeployer.ParseRepoUrlKeepsPagesRepo |
| src/agent/utils/repository_analyzer.py:26-27 | the same `.replace(".git", "")` before the host matching | `https://github.com/alice/alice.github.io` gives (`alice`, `alicehub.io`), so the clone path names a directory that was never cloned | remove one `.git` suffix, giving (`alice`, `alice.github.io`) | not executed; high | RepoAnalyzer.ParseRepoUrlAsWrittenRenamesPagesRepo | RepoAnalyzer.ParseRepoUrlKeepsPagesRepo |
| src/agent/utils/repository_analyzer.py:307-310 | the note reports `lines - 15` more lines, counted on the whole file, under a preview of at most 500 characters | a file of one 500-character line and then sixteen line feeds: one line is shown, and the note says 1 more line where 15 are hidden | report the file's lines that the preview did not show | not executed; medium | CodeSnippets.MoreLinesAsWrittenMiscounts | CodeSnippets.MoreLinesAccounts |

The deployment (`PagesDeployer.DeployArticle`) and the clone path
(`RepoAnalyzer.ClonePath`) use the corrected parse, which removes a `.git`
suffix only. The snippet model keeps both notes side by side:
`CodeSnippets.MoreLinesAsWritten` as written and `CodeSnippets.MoreLines`
corrected.
