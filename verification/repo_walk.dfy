/** The walks the repository analyzer makes over a clone: its statistics
    (`_get_repo_stats`), its language histogram (`_detect_languages`), its
    framework labels (`_detect_frameworks`) and its indented directory
    listing (`_get_directory_structure`).

    The clone is the list of its root entries; `rglob('*')` is
    `FileTree.RGlob(root, [])`.  The parsed `package.json` is an input. */
module RepoWalk {
  import opened Wrappers
  import opened Strings
  import opened Dicts
  import opened FileTree

  // =====================================================================
  // Statistics
  // =====================================================================

  /** `{'total_files': …, 'total_dirs': …, 'total_size_bytes': …}`. */
  datatype Stats = Stats(totalFiles: nat, totalDirs: nat, totalBytes: nat)

  /** What one `rglob` item adds: nothing when it is in `.git`, otherwise one
      file and its size, or one directory. */
  function Counted(it: Item): (s: Stats)
    ensures InGit(it) ==> s == Stats(0, 0, 0)
    ensures s.totalFiles + s.totalDirs == (if InGit(it) then 0 else 1)
    ensures s.totalBytes > 0 ==> !InGit(it) && it.node.File?
  {
    if InGit(it) then Stats(0, 0, 0)
    else if it.node.File? then Stats(1, 0, it.node.size)
    else Stats(0, 1, 0)
  }

  /** The statistics of a run of `rglob` items. */
  function Tally(items: seq<Item>): Stats {
    if items == [] then Stats(0, 0, 0)
    else
      var s, c := Tally(items[..|items| - 1]), Counted(items[|items| - 1]);
      Stats(s.totalFiles + c.totalFiles, s.totalDirs + c.totalDirs, s.totalBytes + c.totalBytes)
  }

  /** `_get_repo_stats`: one pass over `rglob('*')`. */
  method RepoStats(root: seq<Node>) returns (stats: Stats)
    ensures stats == Tally(RGlob(root, []))
    ensures stats.totalFiles + stats.totalDirs == Visible(root)
  {
    var items := RGlob(root, []);
    stats := Stats(0, 0, 0);
    var i := 0;
    while i < |items|
      invariant 0 <= i <= |items|
      invariant stats == Tally(items[..i])
    {
      var item := items[i];
      TallySnoc(items, i);
      if ".git" !in item.parts {
        if item.node.File? {
          stats := stats.(totalFiles := stats.totalFiles + 1, totalBytes := stats.totalBytes + item.node.size);
        } else {
          stats := stats.(totalDirs := stats.totalDirs + 1);
        }
      }
      i := i + 1;
    }
    assert items[..i] == items;
    TallyShown(items);
    RGlobShown(root, []);
  }

  lemma TallySnoc(items: seq<Item>, i: nat)
    requires i < |items|
    ensures var s, c := Tally(items[..i]), Counted(items[i]);
      Tally(items[..i + 1]) == Stats(s.totalFiles + c.totalFiles, s.totalDirs + c.totalDirs, s.totalBytes + c.totalBytes)
  {
    assert items[..i + 1][..i] == items[..i];
  }

  /** Every item outside `.git` is counted once, as a file or as a directory. */
  lemma {:induction false} TallyShown(items: seq<Item>)
    ensures Tally(items).totalFiles + Tally(items).totalDirs == CountShown(items)
  {
    if items != [] {
      TallyShown(items[..|items| - 1]);
    }
  }

  lemma {:induction false} TallyConcat(a: seq<Item>, b: seq<Item>)
    ensures Tally(a + b).totalFiles == Tally(a).totalFiles + Tally(b).totalFiles
    ensures Tally(a + b).totalDirs == Tally(a).totalDirs + Tally(b).totalDirs
    ensures Tally(a + b).totalBytes == Tally(a).totalBytes + Tally(b).totalBytes
    decreases |b|
  {
    if b == [] {
      assert a + b == a;
    } else {
      TallyConcat(a, b[..|b| - 1]);
      assert (a + b)[..|a + b| - 1] == a + b[..|b| - 1];
      assert (a + b)[|a + b| - 1] == b[|b| - 1];
    }
  }

  /** Items that are all in `.git` count for nothing. */
  lemma {:induction false} TallyHidden(items: seq<Item>)
    requires forall i :: 0 <= i < |items| ==> InGit(items[i])
    ensures Tally(items).totalFiles == 0 && Tally(items).totalDirs == 0 && Tally(items).totalBytes == 0
  {
    if items != [] {
      TallyHidden(items[..|items| - 1]);
      assert InGit(items[|items| - 1]);
    }
  }

  lemma {:induction false} BelowSnoc(ns: seq<Node>, g: Node, prefix: seq<string>)
    ensures Below(ns + [g], prefix)
         == Below(ns, prefix) + (if g.Dir? then RGlob(g.children, prefix + [g.name]) else [])
    decreases |ns|
  {
    if ns == [] {
      assert ns + [g] == [g];
      assert [g][1..] == [];
    } else {
      var n := ns[0];
      assert (ns + [g])[0] == n;
      assert (ns + [g])[1..] == ns[1..] + [g];
      BelowSnoc(ns[1..], g, prefix);
      var own := if n.Dir? then RGlob(n.children, prefix + [n.name]) else [];
      AppendAssoc(own, Below(ns[1..], prefix), if g.Dir? then RGlob(g.children, prefix + [g.name]) else []);
    }
  }

  /** `rglob` over the root with one more entry `g`: `g` itself joins the
      listing and what lies inside `g` comes after everything else. */
  lemma RGlobSnoc(root: seq<Node>, g: Node)
    ensures RGlob(root + [g], [])
         == (Listed(root, []) + [Item([g.name], g)])
          + (Below(root, []) + (if g.Dir? then RGlob(g.children, [g.name]) else []))
  {
    assert [] + [g.name] == [g.name];
    var l0, l1 := Listed(root + [g], []), Listed(root, []);
    assert l0[|root|] == Item([g.name], g);
    assert forall i :: 0 <= i < |root| ==> l0[i] == l1[i];
    assert l0 == l1 + [Item([g.name], g)];
    BelowSnoc(root, g, []);
  }

  /** Whatever lies in a `.git` entry of the root leaves the statistics as they
      are: the clone's own `.git` directory is not counted. */
  lemma GitEntryIgnored(root: seq<Node>, g: Node)
    requires g.name == ".git"
    ensures Tally(RGlob(root + [g], [])).totalFiles == Tally(RGlob(root, [])).totalFiles
    ensures Tally(RGlob(root + [g], [])).totalDirs == Tally(RGlob(root, [])).totalDirs
    ensures Tally(RGlob(root + [g], [])).totalBytes == Tally(RGlob(root, [])).totalBytes
  {
    var gi := Item([g.name], g);
    var sub := if g.Dir? then RGlob(g.children, [g.name]) else [];
    if g.Dir? {
      RGlobUnder(g.children, [g.name]);
      forall i | 0 <= i < |sub| ensures InGit(sub[i]) {
        assert [g.name] <= sub[i].parts;
        assert sub[i].parts[0] == ".git";
      }
    }
    TallyHidden(sub);
    var l, b := Listed(root, []), Below(root, []);
    RGlobSnoc(root, g);
    TallyConcat(l + [gi], b + sub);
    TallyConcat(l, [gi]);
    TallyConcat(b, sub);
    TallyConcat(l, b);
    assert [gi][..0] == [];
  }

  // =====================================================================
  // Languages
  // =====================================================================

  /** The extension table of `_detect_languages`, in its order. */
  const LanguageTable: Dict<string> := [
    (".py", "Python"), (".js", "JavaScript"), (".ts", "TypeScript"),
    (".java", "Java"), (".go", "Go"), (".rs", "Rust"), (".cpp", "C++"),
    (".c", "C"), (".rb", "Ruby"), (".php", "PHP"), (".swift", "Swift"),
    (".kt", "Kotlin"), (".cs", "C#"), (".html", "HTML"), (".css", "CSS"),
    (".jsx", "React JSX"), (".tsx", "React TSX"), (".vue", "Vue")]

  /** A language the table names. */
  ghost predicate IsLanguage(lang: string) {
    exists ext :: (ext, lang) in LanguageTable
  }

  /** The language an item counts for: a file outside `.git` whose lower-cased
      suffix is in the table. */
  function LanguageOf(it: Item): (r: Option<string>)
    ensures r.Some? ==> !InGit(it) && it.node.File?
  {
    if InGit(it) || !it.node.File? then None
    else Get(LanguageTable, Lower(Suffix(it.node.name)))
  }

  /** Every language an item counts for is one of the table's. */
  lemma LanguageOfKnown(it: Item)
    ensures LanguageOf(it).Some? ==> IsLanguage(LanguageOf(it).value)
  {
    if !InGit(it) && it.node.File? {
      GetIn(LanguageTable, Lower(Suffix(it.node.name)));
    }
  }

  /** The language of each item, in `rglob` order. */
  function LanguagesOf(items: seq<Item>): (r: seq<Option<string>>)
    ensures |r| == |items|
    ensures forall i :: 0 <= i < |items| ==> r[i] == LanguageOf(items[i])
  {
    if items == [] then []
    else LanguagesOf(items[..|items| - 1]) + [LanguageOf(items[|items| - 1])]
  }

  /** The histogram `languages` after a run of per-item languages, in the
      order Python's dict keeps. */
  function Histogram(langs: seq<Option<string>>): Dict<nat> {
    if langs == [] then []
    else
      var d := Histogram(langs[..|langs| - 1]);
      match langs[|langs| - 1]
      case None => d
      case Some(lang) => Increment(d, lang)
  }

  lemma HistogramSnoc(init: seq<Option<string>>, last: Option<string>)
    ensures Histogram(init + [last])
         == if last.Some? then Increment(Histogram(init), last.value) else Histogram(init)
  {
    assert (init + [last])[..|init|] == init;
  }

  /** `_detect_languages`: one pass over `rglob('*')`. */
  method DetectLanguages(root: seq<Node>) returns (languages: Dict<nat>)
    ensures languages == Histogram(LanguagesOf(RGlob(root, [])))
  {
    var items := RGlob(root, []);
    languages := [];
    var i := 0;
    while i < |items|
      invariant 0 <= i <= |items|
      invariant languages == Histogram(LanguagesOf(items[..i]))
    {
      var item := items[i];
      var lang := LanguageOf(item);
      LanguagesOfSnoc(items, i);
      HistogramSnoc(LanguagesOf(items[..i]), lang);
      if lang.Some? {
        languages := Increment(languages, lang.value);
      }
      i := i + 1;
    }
    assert items[..i] == items;
  }

  lemma LanguagesOfSnoc(items: seq<Item>, i: nat)
    requires i < |items|
    ensures LanguagesOf(items[..i + 1]) == LanguagesOf(items[..i]) + [LanguageOf(items[i])]
  {
    assert items[..i + 1][..i] == items[..i];
  }

  /** Each language present is counted exactly as often as items map to it,
      and a language no item maps to is absent. */
  lemma {:induction false} HistogramCount(langs: seq<Option<string>>, lang: string)
    ensures Get(Histogram(langs), lang).Some? <==> Some(lang) in multiset(langs)
    ensures Get(Histogram(langs), lang).GetOr(0) == multiset(langs)[Some(lang)]
  {
    if langs != [] {
      var init, last := langs[..|langs| - 1], langs[|langs| - 1];
      assert langs == init + [last];
      assert multiset(langs) == multiset(init) + multiset{last};
      HistogramCount(init, lang);
      var d := Histogram(init);
      match last
      case None =>
      case Some(l) =>
        IncrementGet(d, l, lang);
        HistogramCount(init, l);
    }
  }

  /** The histogram never holds a language twice, and holds only languages
      some item maps to. */
  lemma {:induction false} HistogramKeys(langs: seq<Option<string>>)
    ensures DistinctKeys(Histogram(langs))
    ensures forall lang :: lang in Keys(Histogram(langs)) ==> Some(lang) in langs
  {
    if langs != [] {
      var init, last := langs[..|langs| - 1], langs[|langs| - 1];
      assert langs == init + [last];
      HistogramKeys(init);
      var d := Histogram(init);
      match last
      case None =>
        assert Histogram(langs) == d;
      case Some(l) =>
        assert Histogram(langs) == Increment(d, l);
        IncrementKeys(d, l);
        IncrementDistinct(d, l);
        forall k | k in Keys(Histogram(langs)) ensures Some(k) in langs {
          if k != l {
            assert Some(k) in init;
          }
        }
    }
  }

  /** The sum of a histogram's counts. */
  function Total(d: Dict<nat>): nat {
    if d == [] then 0 else d[0].1 + Total(d[1..])
  }

  lemma {:induction false} TotalIncrement(d: Dict<nat>, k: string)
    ensures Total(Increment(d, k)) == Total(d) + 1
  {
    if d != [] && d[0].0 != k {
      TotalIncrement(d[1..], k);
    }
  }

  /** The counts add up to the number of items that have a language. */
  lemma {:induction false} HistogramTotal(langs: seq<Option<string>>)
    ensures Total(Histogram(langs)) == |langs| - multiset(langs)[None]
  {
    if langs != [] {
      var init, last := langs[..|langs| - 1], langs[|langs| - 1];
      assert langs == init + [last];
      HistogramTotal(init);
      match last
      case None =>
      case Some(l) =>
        TotalIncrement(Histogram(init), l);
    }
  }

  /** Only files outside `.git` have a language, so at most as many items have
      one as the statistics count files. */
  lemma {:induction false} LanguagesWithinFiles(items: seq<Item>)
    ensures |items| - multiset(LanguagesOf(items))[None] <= Tally(items).totalFiles
  {
    if items != [] {
      var init := items[..|items| - 1];
      LanguagesWithinFiles(init);
      assert LanguagesOf(items) == LanguagesOf(init) + [LanguageOf(items[|items| - 1])];
    }
  }

  /** Over any run of items, the languages' counts add up to at most the
      number of files the statistics count, and every language counted is
      one of the table's. */
  lemma LanguagesCounted(items: seq<Item>)
    ensures Total(Histogram(LanguagesOf(items))) <= Tally(items).totalFiles
    ensures DistinctKeys(Histogram(LanguagesOf(items)))
    ensures forall lang :: lang in Keys(Histogram(LanguagesOf(items))) ==> IsLanguage(lang)
  {
    var langs := LanguagesOf(items);
    HistogramTotal(langs);
    LanguagesWithinFiles(items);
    HistogramKeys(langs);
    LanguagesKnown(items);
  }

  /** Every language the items count for is one of the table's. */
  lemma {:induction false} LanguagesKnown(items: seq<Item>)
    ensures forall lang :: Some(lang) in LanguagesOf(items) ==> IsLanguage(lang)
  {
    if items != [] {
      var init, last := items[..|items| - 1], items[|items| - 1];
      LanguagesKnown(init);
      LanguageOfKnown(last);
      assert LanguagesOf(items) == LanguagesOf(init) + [LanguageOf(last)];
    }
  }

  /** The languages' counts add up to at most the number of files the
      statistics report, and every language counted is one of the table's. */
  lemma DetectedLanguages(root: seq<Node>)
    ensures Total(Histogram(LanguagesOf(RGlob(root, [])))) <= Tally(RGlob(root, [])).totalFiles
    ensures DistinctKeys(Histogram(LanguagesOf(RGlob(root, []))))
    ensures forall lang :: lang in Keys(Histogram(LanguagesOf(RGlob(root, [])))) ==> IsLanguage(lang)
  {
    LanguagesCounted(RGlob(root, []));
  }

  /** The suffix is lower-cased before the lookup: `MAIN.PY` is Python. */
  lemma UpperSuffixCounted(stem: string, size: nat, text: string)
    requires stem != [] && '.' !in stem
    ensures LanguageOf(Item([stem + ".PY"], File(stem + ".PY", size, text))) == Some("Python")
  {
    UpperPySuffix(stem);
    PythonEntry();
  }

  lemma PythonEntry()
    ensures Get(LanguageTable, ".py") == Some("Python")
  {
  }

  // =====================================================================
  // Frameworks
  // =====================================================================

  /** The indicator files of `_detect_frameworks`, each with its one label, in order. */
  const Indicators: seq<(string, string)> := [
    ("package.json", "Node.js/npm"), ("requirements.txt", "Python"),
    ("pyproject.toml", "Python (Poetry/Modern)"), ("Cargo.toml", "Rust"),
    ("go.mod", "Go"), ("pom.xml", "Java (Maven)"), ("build.gradle", "Java (Gradle)"),
    ("Gemfile", "Ruby"), ("composer.json", "PHP (Composer)")]

  /** A `dependencies` or `devDependencies` field of `package.json`: absent, an
      object (its keys), or something else. */
  datatype Deps = Missing | Mapping(names: seq<string>) | NotMapping

  /** What reading and parsing `package.json` gives: a read or parse error, a
      JSON value that is not an object, or an object's two dependency fields. */
  datatype Manifest = Unparsable | NotObject | Object(dependencies: Deps, devDependencies: Deps)

  /** The names of the root entries. */
  function Names(ns: seq<Node>): (r: seq<string>)
    ensures |r| == |ns|
    ensures forall i :: 0 <= i < |ns| ==> r[i] == ns[i].name
  {
    seq(|ns|, i requires 0 <= i < |ns| => ns[i].name)
  }

  /** The labels of the table entries whose file is among `present`, in table order. */
  function Selected(table: seq<(string, string)>, present: seq<string>): seq<string> {
    if table == [] then []
    else
      Selected(table[..|table| - 1], present)
      + (if table[|table| - 1].0 in present then [table[|table| - 1].1] else [])
  }

  /** A label is selected exactly when one of its entries' files is present. */
  lemma {:induction false} SelectedIn(table: seq<(string, string)>, present: seq<string>, l: string)
    ensures l in Selected(table, present) <==> exists j :: 0 <= j < |table| && table[j].1 == l && table[j].0 in present
  {
    if table != [] {
      var init := table[..|table| - 1];
      SelectedIn(init, present, l);
      if l in Selected(init, present) {
        var j :| 0 <= j < |init| && init[j].1 == l && init[j].0 in present;
        assert table[j] == init[j];
      }
      if exists j :: 0 <= j < |table| && table[j].1 == l && table[j].0 in present {
        var j :| 0 <= j < |table| && table[j].1 == l && table[j].0 in present;
        if j < |init| {
          assert init[j] == table[j];
        }
      }
    }
  }

  /** With distinct labels in the table, no label is selected twice. */
  lemma {:induction false} SelectedOnce(table: seq<(string, string)>, present: seq<string>, l: string)
    requires forall i, j :: 0 <= i < j < |table| ==> table[i].1 != table[j].1
    ensures multiset(Selected(table, present))[l] <= 1
  {
    if table != [] {
      var init, last := table[..|table| - 1], table[|table| - 1];
      SelectedOnce(init, present, l);
      if last.0 in present && last.1 == l {
        SelectedIn(init, present, l);
      }
    }
  }

  /** The keys of `{**dependencies, **devDependencies}`, or `None` when building
      that dict raises (and the `except` drops every dependency label). */
  function DependencyNames(m: Manifest): (r: Option<seq<string>>)
    ensures r.Some? <==> m.Object? && !m.dependencies.NotMapping? && !m.devDependencies.NotMapping?
    ensures r.Some? ==> forall k :: k in r.value <==>
      (m.dependencies.Mapping? && k in m.dependencies.names) || (m.devDependencies.Mapping? && k in m.devDependencies.names)
  {
    match m
    case Object(deps, dev) =>
      if deps.NotMapping? || dev.NotMapping? then None
      else Some((if deps.Mapping? then deps.names else []) + (if dev.Mapping? then dev.names else []))
    case _ => None
  }

  /** The labels the dependency checks can add, in the order of the checks. */
  const DependencyLabelList: seq<string> := ["React", "Vue.js", "Next.js", "Express.js", "Angular"]

  /** The labels whose check succeeds, in order. */
  function Pick(labels: seq<string>, picked: seq<bool>): seq<string>
    requires |labels| == |picked|
  {
    if labels == [] then []
    else (if picked[0] then [labels[0]] else []) + Pick(labels[1..], picked[1..])
  }

  lemma {:induction false} PickIn(labels: seq<string>, picked: seq<bool>, l: string)
    requires |labels| == |picked|
    ensures l in Pick(labels, picked) <==> exists i :: 0 <= i < |labels| && picked[i] && labels[i] == l
  {
    if labels != [] {
      PickIn(labels[1..], picked[1..], l);
      if exists i :: 0 <= i < |labels| && picked[i] && labels[i] == l {
        var i :| 0 <= i < |labels| && picked[i] && labels[i] == l;
        if i > 0 {
          assert picked[1..][i - 1] && labels[1..][i - 1] == l;
        }
      }
    }
  }

  lemma {:induction false} PickOnce(labels: seq<string>, picked: seq<bool>, l: string)
    requires |labels| == |picked|
    requires forall i, j :: 0 <= i < j < |labels| ==> labels[i] != labels[j]
    ensures multiset(Pick(labels, picked))[l] <= 1
    ensures l !in labels ==> multiset(Pick(labels, picked))[l] == 0
  {
    if labels != [] {
      PickOnce(labels[1..], picked[1..], l);
      assert labels == [labels[0]] + labels[1..];
    }
  }

  /** With no label repeated, a label is picked exactly when its own check succeeds. */
  lemma PickAt(labels: seq<string>, picked: seq<bool>, k: nat)
    requires |labels| == |picked| && k < |labels|
    requires forall i, j :: 0 <= i < j < |labels| ==> labels[i] != labels[j]
    ensures labels[k] in Pick(labels, picked) <==> picked[k]
  {
    PickIn(labels, picked, labels[k]);
    if labels[k] in Pick(labels, picked) {
      var i :| 0 <= i < |labels| && picked[i] && labels[i] == labels[k];
      assert i == k;
    }
  }

  /** The flags of the five checks, in order. */
  function DependencyChecks(names: seq<string>): (picked: seq<bool>)
    ensures |picked| == 5
  {
    ["react" in names, "vue" in names, "next" in names, "express" in names,
     "angular" in names || "@angular/core" in names]
  }

  /** The labels the dependency checks add, in the order of the checks:
      React, Vue.js, Next.js, Express.js, and Angular for either of its names. */
  function DependencyLabels(names: seq<string>): seq<string> {
    Pick(DependencyLabelList, DependencyChecks(names))
  }

  lemma DependencyLabelsDiffer()
    ensures forall i, j :: 0 <= i < j < |DependencyLabelList| ==> DependencyLabelList[i] != DependencyLabelList[j]
  {
  }

  /** Each dependency label is added exactly when its package is a dependency. */
  lemma DependencyLabelsIff(names: seq<string>)
    ensures "React" in DependencyLabels(names) <==> "react" in names
    ensures "Vue.js" in DependencyLabels(names) <==> "vue" in names
    ensures "Next.js" in DependencyLabels(names) <==> "next" in names
    ensures "Express.js" in DependencyLabels(names) <==> "express" in names
    ensures "Angular" in DependencyLabels(names) <==> "angular" in names || "@angular/core" in names
  {
    var labels, picked := DependencyLabelList, DependencyChecks(names);
    DependencyLabelsDiffer();
    PickAt(labels, picked, 0);
    PickAt(labels, picked, 1);
    PickAt(labels, picked, 2);
    PickAt(labels, picked, 3);
    PickAt(labels, picked, 4);
  }

  /** Only the five labels are added, and none twice: Angular once even when
      both of its package names are dependencies. */
  lemma DependencyLabelsOnce(names: seq<string>)
    ensures forall l :: l in DependencyLabels(names) ==> l in DependencyLabelList
    ensures forall l :: multiset(DependencyLabels(names))[l] <= 1
  {
    var labels, picked := DependencyLabelList, DependencyChecks(names);
    DependencyLabelsDiffer();
    forall l ensures (l in Pick(labels, picked) ==> l in labels) && multiset(Pick(labels, picked))[l] <= 1 {
      PickIn(labels, picked, l);
      PickOnce(labels, picked, l);
    }
  }

  /** The labels `_detect_frameworks` returns for a clone whose root entries are
      `root` and whose `package.json`, when there is one, reads as `m`. */
  function Frameworks(root: seq<Node>, m: Manifest): seq<string> {
    Selected(Indicators, Names(root))
    + (if "package.json" in Names(root) && DependencyNames(m).Some?
       then DependencyLabels(DependencyNames(m).value) else [])
  }

  /** `_detect_frameworks`. */
  method DetectFrameworks(root: seq<Node>, m: Manifest) returns (frameworks: seq<string>)
    ensures frameworks == Frameworks(root, m)
  {
    frameworks := [];
    var names := Names(root);
    var i := 0;
    while i < |Indicators|
      invariant 0 <= i <= |Indicators|
      invariant frameworks == Selected(Indicators[..i], names)
    {
      assert Indicators[..i + 1][..i] == Indicators[..i];
      if Indicators[i].0 in names {
        frameworks := frameworks + [Indicators[i].1];
      }
      i := i + 1;
    }
    assert Indicators[..i] == Indicators;
    if "package.json" in names {
      var deps := DependencyNames(m);
      if deps.Some? {
        frameworks := frameworks + DependencyLabels(deps.value);
      }
    }
  }

  /** The indicator labels differ from each other and from every dependency label. */
  lemma IndicatorLabelsDistinct()
    ensures forall i, j :: 0 <= i < j < |Indicators| ==> Indicators[i].1 != Indicators[j].1
    ensures forall i :: 0 <= i < |Indicators| ==> Indicators[i].1 !in DependencyLabelList
  {
  }

  /** No label is reported twice: Angular once even when both `angular` and
      `@angular/core` are dependencies. */
  lemma FrameworksOnce(root: seq<Node>, m: Manifest, l: string)
    ensures multiset(Frameworks(root, m))[l] <= 1
  {
    var a := Selected(Indicators, Names(root));
    var b := Frameworks(root, m)[|a|..];
    assert Frameworks(root, m) == a + b;
    IndicatorLabelsDistinct();
    SelectedOnce(Indicators, Names(root), l);
    if b != [] {
      DependencyLabelsOnce(DependencyNames(m).value);
      if l in a {
        SelectedIn(Indicators, Names(root), l);
        assert l !in b;
      }
    }
  }

  /** An indicator's label is reported exactly when its file is a root entry. */
  lemma IndicatorIff(root: seq<Node>, m: Manifest, k: nat)
    requires k < |Indicators|
    ensures Indicators[k].1 in Frameworks(root, m) <==> Indicators[k].0 in Names(root)
  {
    var l := Indicators[k].1;
    IndicatorLabelsDistinct();
    SelectedIn(Indicators, Names(root), l);
    if "package.json" in Names(root) && DependencyNames(m).Some? {
      DependencyLabelsOnce(DependencyNames(m).value);
    }
  }

  /** A `package.json` that cannot be read, is not an object, or has a
      dependency field that is not an object adds no dependency label. */
  lemma UnreadableManifest(root: seq<Node>, m: Manifest)
    requires m.Unparsable? || m.NotObject? || (m.Object? && (m.dependencies.NotMapping? || m.devDependencies.NotMapping?))
    ensures Frameworks(root, m) == Selected(Indicators, Names(root))
    ensures forall l :: l in DependencyLabelList ==> l !in Frameworks(root, m)
  {
    IndicatorLabelsDistinct();
    forall l | l in DependencyLabelList ensures l !in Frameworks(root, m) {
      SelectedIn(Indicators, Names(root), l);
    }
  }

  /** React is reported exactly when `package.json` is a root entry that reads
      as an object whose dependency fields are objects, one naming `react`. */
  lemma ReactIff(root: seq<Node>, m: Manifest)
    ensures "React" in Frameworks(root, m)
        <==> "package.json" in Names(root) && DependencyNames(m).Some? && "react" in DependencyNames(m).value
  {
    IndicatorLabelsDistinct();
    SelectedIn(Indicators, Names(root), "React");
    if "package.json" in Names(root) && DependencyNames(m).Some? {
      DependencyLabelsIff(DependencyNames(m).value);
    }
  }

  // =====================================================================
  // Directory structure
  // =====================================================================

  /** One line of the listing: its depth, the entry's name, and whether it is a directory. */
  datatype Line = Line(depth: nat, name: string, isDir: bool)

  /** `"  " * d`. */
  function Indent(d: nat): (r: string)
    ensures |r| == 2 * d
    ensures forall k :: 0 <= k < |r| ==> r[k] == ' '
  {
    if d == 0 then [] else "  " + Indent(d - 1)
  }

  /** `f"{indent}{item.name}/"` for a directory, `f"{indent}{item.name}"` for a file. */
  function Render(l: Line): (r: string)
    ensures |r| == 2 * l.depth + |l.name| + (if l.isDir then 1 else 0)
    ensures forall k :: 0 <= k < 2 * l.depth ==> r[k] == ' '
    ensures r[2 * l.depth..2 * l.depth + |l.name|] == l.name
    ensures l.isDir ==> r[|r| - 1] == '/'
  {
    Indent(l.depth) + l.name + (if l.isDir then "/" else "")
  }

  function RenderAll(ls: seq<Line>): (r: seq<string>)
    ensures |r| == |ls|
    ensures forall i :: 0 <= i < |ls| ==> r[i] == Render(ls[i])
  {
    seq(|ls|, i requires 0 <= i < |ls| => Render(ls[i]))
  }

  /** `_get_directory_structure(path, max_depth, current_depth)` for a directory
      whose entries are `ns`: nothing at or past the depth limit, otherwise the
      sorted entries' blocks. */
  function Listing(ns: seq<Node>, maxDepth: nat, depth: nat): seq<Line>
    decreases maxDepth - depth, 1, 0
  {
    if depth >= maxDepth then [] else Entries(SortByName(ns), maxDepth, depth)
  }

  /** The blocks of the entries `ns`, in their order. */
  function Entries(ns: seq<Node>, maxDepth: nat, depth: nat): seq<Line>
    requires depth < maxDepth
    decreases maxDepth - depth, 0, |ns|
  {
    if ns == [] then []
    else Entries(ns[..|ns| - 1], maxDepth, depth) + Block(ns[|ns| - 1], maxDepth, depth)
  }

  /** An entry's block: nothing for `.git`, the line of a file, or the line of a
      directory followed by its own listing one level deeper. */
  function Block(n: Node, maxDepth: nat, depth: nat): seq<Line>
    requires depth < maxDepth
    decreases maxDepth - depth, 0, 0
  {
    if n.name == ".git" then []
    else if n.Dir? then [Line(depth, n.name, true)] + Listing(n.children, maxDepth, depth + 1)
    else [Line(depth, n.name, false)]
  }

  /** `_get_directory_structure`. */
  method DirectoryStructure(ns: seq<Node>, maxDepth: nat, depth: nat) returns (structure: seq<string>)
    ensures structure == RenderAll(Listing(ns, maxDepth, depth))
    decreases maxDepth - depth, 1
  {
    structure := [];
    if depth >= maxDepth {
      return;
    }
    var sorted := SortByName(ns);
    var i := 0;
    while i < |sorted|
      invariant 0 <= i <= |sorted|
      invariant structure == RenderAll(Entries(sorted[..i], maxDepth, depth))
    {
      var item := sorted[i];
      EntriesSnoc(sorted, i, maxDepth, depth);
      RenderAllConcat(Entries(sorted[..i], maxDepth, depth), Block(item, maxDepth, depth));
      var lines := EntryLines(item, maxDepth, depth);
      structure := structure + lines;
      i := i + 1;
    }
    assert sorted[..i] == sorted;
  }

  /** The lines one entry adds inside the loop of `_get_directory_structure`. */
  method EntryLines(item: Node, maxDepth: nat, depth: nat) returns (lines: seq<string>)
    requires depth < maxDepth
    ensures lines == RenderAll(Block(item, maxDepth, depth))
    decreases maxDepth - depth, 0
  {
    BlockRender(item, maxDepth, depth);
    lines := [];
    if item.name != ".git" {
      var indent := Indent(depth);
      if item.Dir? {
        lines := [indent + item.name + "/"];
        var sub := DirectoryStructure(item.children, maxDepth, depth + 1);
        lines := lines + sub;
      } else {
        lines := [indent + item.name];
      }
    }
  }

  lemma EntriesSnoc(ns: seq<Node>, i: nat, maxDepth: nat, depth: nat)
    requires i < |ns| && depth < maxDepth
    ensures Entries(ns[..i + 1], maxDepth, depth) == Entries(ns[..i], maxDepth, depth) + Block(ns[i], maxDepth, depth)
  {
    assert ns[..i + 1][..i] == ns[..i];
  }

  /** The rendered lines of one entry's block. */
  lemma BlockRender(n: Node, maxDepth: nat, depth: nat)
    requires depth < maxDepth
    ensures n.name == ".git" ==> RenderAll(Block(n, maxDepth, depth)) == []
    ensures n.name != ".git" && n.Dir? ==>
      RenderAll(Block(n, maxDepth, depth)) == [Indent(depth) + n.name + "/"] + RenderAll(Listing(n.children, maxDepth, depth + 1))
    ensures n.name != ".git" && !n.Dir? ==> RenderAll(Block(n, maxDepth, depth)) == [Indent(depth) + n.name]
  {
    if n.name != ".git" {
      if n.Dir? {
        RenderAllConcat([Line(depth, n.name, true)], Listing(n.children, maxDepth, depth + 1));
      } else {
        assert Indent(depth) + n.name + "" == Indent(depth) + n.name;
      }
    }
  }

  lemma RenderAllConcat(a: seq<Line>, b: seq<Line>)
    ensures RenderAll(a + b) == RenderAll(a) + RenderAll(b)
  {
  }

  /** Every line lies between the starting depth and the depth limit, and none
      is a `.git` entry. */
  lemma {:induction false} ListingBounds(ns: seq<Node>, maxDepth: nat, depth: nat)
    ensures forall l :: l in Listing(ns, maxDepth, depth) ==> depth <= l.depth < maxDepth && l.name != ".git"
    decreases maxDepth - depth, 1, 0
  {
    if depth < maxDepth {
      EntriesBounds(SortByName(ns), maxDepth, depth);
    }
  }

  lemma {:induction false} EntriesBounds(ns: seq<Node>, maxDepth: nat, depth: nat)
    requires depth < maxDepth
    ensures forall l :: l in Entries(ns, maxDepth, depth) ==> depth <= l.depth < maxDepth && l.name != ".git"
    decreases maxDepth - depth, 0, |ns|
  {
    if ns != [] {
      EntriesBounds(ns[..|ns| - 1], maxDepth, depth);
      var n := ns[|ns| - 1];
      if n.name != ".git" && n.Dir? {
        ListingBounds(n.children, maxDepth, depth + 1);
      }
    }
  }

  /** The listing reads as a pre-order walk: it starts at the starting depth,
      goes at most one level deeper from one line to the next, and only right
      after a directory's line. */
  predicate PreOrder(ls: seq<Line>, depth: nat) {
    (ls != [] ==> ls[0].depth == depth)
    && (forall i :: 0 <= i < |ls| ==> ls[i].depth >= depth)
    && (forall i :: 0 < i < |ls| ==> FollowsOn(ls, i))
  }

  /** Line `i` is at most one level deeper than the line before it, and
      deeper only when that line is a directory's. */
  predicate FollowsOn(ls: seq<Line>, i: nat)
    requires 0 < i < |ls|
  {
    ls[i].depth <= ls[i - 1].depth + 1
    && (ls[i].depth == ls[i - 1].depth + 1 ==> ls[i - 1].isDir)
  }

  lemma {:induction false} ListingPreOrder(ns: seq<Node>, maxDepth: nat, depth: nat)
    ensures PreOrder(Listing(ns, maxDepth, depth), depth)
    decreases maxDepth - depth, 1, 0
  {
    if depth < maxDepth {
      EntriesPreOrder(SortByName(ns), maxDepth, depth);
    }
  }

  lemma {:induction false} EntriesPreOrder(ns: seq<Node>, maxDepth: nat, depth: nat)
    requires depth < maxDepth
    ensures PreOrder(Entries(ns, maxDepth, depth), depth)
    decreases maxDepth - depth, 0, |ns|
  {
    if ns != [] {
      var a := Entries(ns[..|ns| - 1], maxDepth, depth);
      EntriesPreOrder(ns[..|ns| - 1], maxDepth, depth);
      var n := ns[|ns| - 1];
      var b := Block(n, maxDepth, depth);
      BlockPreOrder(n, maxDepth, depth);
      ConcatPreOrder(a, b, depth);
    }
  }

  lemma {:induction false} BlockPreOrder(n: Node, maxDepth: nat, depth: nat)
    requires depth < maxDepth
    ensures PreOrder(Block(n, maxDepth, depth), depth)
    decreases maxDepth - depth, 0, 0
  {
    if n.name != ".git" && n.Dir? {
      var sub := Listing(n.children, maxDepth, depth + 1);
      ListingPreOrder(n.children, maxDepth, depth + 1);
      var b := [Line(depth, n.name, true)] + sub;
      forall i | 0 < i < |b| ensures FollowsOn(b, i) {
        assert b[i] == sub[i - 1];
        if i > 1 {
          assert FollowsOn(sub, i - 1);
          assert b[i - 1] == sub[i - 2];
        }
      }
    }
  }

  /** Two pre-order listings at one depth, one after the other, are one. */
  lemma ConcatPreOrder(a: seq<Line>, b: seq<Line>, depth: nat)
    requires PreOrder(a, depth) && PreOrder(b, depth)
    ensures PreOrder(a + b, depth)
  {
    var c := a + b;
    forall i | 0 <= i < |c| ensures c[i].depth >= depth {
      if i >= |a| {
        assert c[i] == b[i - |a|];
      }
    }
    forall i | 0 < i < |c| ensures FollowsOn(c, i) {
      if i > |a| {
        assert FollowsOn(b, i - |a|);
        assert c[i] == b[i - |a|] && c[i - 1] == b[i - 1 - |a|];
      } else if i == |a| {
        assert c[i] == b[0];
      } else {
        assert FollowsOn(a, i);
        assert c[i] == a[i] && c[i - 1] == a[i - 1];
      }
    }
  }

  /** The lines at `depth` are in name order. */
  predicate TopSorted(ls: seq<Line>, depth: nat) {
    forall i, j :: 0 <= i < j < |ls| && ls[i].depth == depth && ls[j].depth == depth ==> NameLe(ls[i].name, ls[j].name)
  }

  /** The lines at `depth` name entries among `names`. */
  predicate TopNamesIn(ls: seq<Line>, depth: nat, names: seq<string>) {
    forall i :: 0 <= i < |ls| && ls[i].depth == depth ==> ls[i].name in names
  }

  /** The lines at the starting depth are the entries other than `.git`, in name order. */
  lemma ListingSorted(ns: seq<Node>, maxDepth: nat, depth: nat)
    ensures TopSorted(Listing(ns, maxDepth, depth), depth)
  {
    if depth < maxDepth {
      EntriesSorted(SortByName(ns), maxDepth, depth);
    }
  }

  /** A block is its entry's line, then lines one level deeper. */
  lemma BlockShape(n: Node, maxDepth: nat, depth: nat)
    requires depth < maxDepth
    ensures Block(n, maxDepth, depth) != [] ==>
      Block(n, maxDepth, depth)[0].depth == depth && Block(n, maxDepth, depth)[0].name == n.name
    ensures forall k :: 0 < k < |Block(n, maxDepth, depth)| ==> Block(n, maxDepth, depth)[k].depth > depth
  {
    if n.name != ".git" && n.Dir? {
      var sub := Listing(n.children, maxDepth, depth + 1);
      ListingBounds(n.children, maxDepth, depth + 1);
      var b := [Line(depth, n.name, true)] + sub;
      assert forall k :: 0 < k < |b| ==> b[k] == sub[k - 1];
    }
  }

  lemma {:induction false} EntriesSorted(ns: seq<Node>, maxDepth: nat, depth: nat)
    requires depth < maxDepth
    requires SortedByName(ns)
    ensures TopSorted(Entries(ns, maxDepth, depth), depth)
    ensures TopNamesIn(Entries(ns, maxDepth, depth), depth, Names(ns))
    decreases |ns|
  {
    if ns != [] {
      var init := ns[..|ns| - 1];
      var n := ns[|ns| - 1];
      var a := Entries(init, maxDepth, depth);
      var b := Block(n, maxDepth, depth);
      EntriesSorted(init, maxDepth, depth);
      BlockShape(n, maxDepth, depth);
      var c := a + b;
      assert Names(ns)[|ns| - 1] == n.name;
      forall i | 0 <= i < |c| && c[i].depth == depth ensures c[i].name in Names(ns) {
        if i < |a| {
          assert c[i] == a[i];
          var k :| 0 <= k < |init| && Names(init)[k] == c[i].name;
          assert Names(ns)[k] == c[i].name;
        } else {
          assert c[i] == b[i - |a|];
        }
      }
      forall i, j | 0 <= i < j < |c| && c[i].depth == depth && c[j].depth == depth
        ensures NameLe(c[i].name, c[j].name)
      {
        if j < |a| {
          assert c[i] == a[i] && c[j] == a[j];
        } else {
          assert c[j] == b[j - |a|];
          assert c[i] == a[i];
          var k :| 0 <= k < |init| && Names(init)[k] == c[i].name;
          assert ns[k] == init[k];
        }
      }
    }
  }
}
