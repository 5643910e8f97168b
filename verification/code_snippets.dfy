/** The repository analyzer's code snippets (`extract_code_snippets`), the
    symbol scraper it calls (`_extract_key_code_parts`), and the cap on the
    directory listing `analyze_structure` prints.

    The clone is the list of its root entries (`None` when it has not been
    cloned), and a component path is the list of its parts. */
module CodeSnippets {
  import opened Wrappers
  import opened Strings
  import opened FileTree

  // =====================================================================
  // Key code parts
  // =====================================================================

  /** The suffixes scraped as JavaScript or TypeScript. */
  const ScriptExtensions: seq<string> := [".js", ".ts", ".jsx", ".tsx"]

  /** The name a Python `class` line gives: the text before the first `(`
      with every `class ` deleted and `:` stripped from both ends. */
  function PythonClassOf(line: string): string {
    StripChar(ReplaceAll(BeforeFirst(line, '('), "class ", ""), ':')
  }

  /** The name a Python `def` line gives: the text before the first `(` with
      every `def ` deleted. */
  function PythonDefOf(line: string): string {
    ReplaceAll(BeforeFirst(line, '('), "def ", "")
  }

  /** The entry a stripped line of a `.py` file adds: its class or its function. */
  function PythonPart(line: string): Option<string> {
    if "class " <= line then Some("class " + PythonClassOf(line))
    else if "def " <= line then Some("def " + PythonDefOf(line) + "()")
    else None
  }

  /** What a Python file's entry looks like: a class, or a function ending in `()`. */
  predicate IsPythonEntry(p: string) {
    "class " <= p || ("def " <= p && EndsWith(p, "()"))
  }

  /** A stripped Python line adds an entry exactly when it starts with `class `
      or `def `; `class ` wins when both could apply, and a function's entry
      ends in `()`. */
  lemma PythonPartCases(line: string)
    ensures PythonPart(line).Some? <==> "class " <= line || "def " <= line
    ensures "class " <= line ==> PythonPart(line).Some? && "class " <= PythonPart(line).value
    ensures !("class " <= line) && "def " <= line ==>
      PythonPart(line).Some? && "def " <= PythonPart(line).value && EndsWith(PythonPart(line).value, "()")
    ensures PythonPart(line).Some? ==> IsPythonEntry(PythonPart(line).value)
  {
    if !("class " <= line) && "def " <= line {
      EndsWithConcat("def " + PythonDefOf(line), "()");
    }
  }

  /** The name a script `class` line gives: the text before the first `{`
      with every `class ` deleted, stripped. */
  function ScriptClassOf(line: string): string {
    Strip(ReplaceAll(BeforeFirst(line, '{'), "class ", ""))
  }

  /** The name a script `function` line gives: the text after the last
      `function ` before the first `(`, stripped. */
  function ScriptFunctionOf(line: string): string {
    Strip(AfterLast(BeforeFirst(line, '('), "function "))
  }

  /** The name a script `const` line gives: the text before the first `=`
      with every `const ` deleted, stripped. */
  function ScriptConstOf(line: string): string {
    Strip(ReplaceAll(BeforeFirst(line, '='), "const ", ""))
  }

  /** The entry a stripped line of a script adds: its class, a function it
      declares, or an arrow function bound to a `const`. */
  function ScriptPart(line: string): Option<string> {
    if "class " <= line then Some("class " + ScriptClassOf(line))
    else if Contains(line, "function ") then Some("function " + ScriptFunctionOf(line) + "()")
    else if "const " <= line && Contains(line, "=>") then Some("const " + ScriptConstOf(line))
    else None
  }

  /** A script line adds an entry exactly when it starts with `class `, holds
      `function `, or starts with `const ` and holds `=>`; the first test that
      passes decides the kind of entry, and a function's entry ends in `()`. */
  lemma ScriptPartCases(line: string)
    ensures ScriptPart(line).Some? <==> "class " <= line || Contains(line, "function ") || ("const " <= line && Contains(line, "=>"))
    ensures "class " <= line ==> ScriptPart(line).Some? && "class " <= ScriptPart(line).value
    ensures !("class " <= line) && Contains(line, "function ") ==>
      ScriptPart(line).Some? && "function " <= ScriptPart(line).value && EndsWith(ScriptPart(line).value, "()")
    ensures !("class " <= line) && !Contains(line, "function ") && "const " <= line && Contains(line, "=>") ==>
      ScriptPart(line).Some? && "const " <= ScriptPart(line).value
    ensures ScriptPart(line).Some? ==> IsScriptEntry(ScriptPart(line).value)
  {
    if !("class " <= line) && Contains(line, "function ") {
      EndsWithConcat("function " + ScriptFunctionOf(line), "()");
    }
  }

  /** The entry one line of a file with suffix `ext` adds, if any. */
  function KeyPart(line: string, ext: string): Option<string> {
    if ext == ".py" then PythonPart(Strip(line))
    else if ext in ScriptExtensions then ScriptPart(Strip(line))
    else None
  }

  /** The entries of a run of lines, in line order. */
  function KeyParts(lines: seq<string>, ext: string): seq<string> {
    if lines == [] then []
    else
      KeyParts(lines[..|lines| - 1], ext) + KeyPart(lines[|lines| - 1], ext).ToSeq()
  }

  /** `_extract_key_code_parts(content, file_ext)`. */
  method ExtractKeyCodeParts(content: string, fileExt: string) returns (keyParts: seq<string>)
    ensures keyParts == KeyParts(SplitLines(content), fileExt)
  {
    var lines := SplitLines(content);
    if fileExt == ".py" {
      keyParts := PythonKeyParts(lines);
    } else if fileExt in ScriptExtensions {
      keyParts := ScriptKeyParts(lines, fileExt);
    } else {
      keyParts := [];
      KeyPartsOtherSuffix(lines, fileExt);
    }
  }

  /** The loop of `_extract_key_code_parts` over the lines of a `.py` file. */
  method PythonKeyParts(lines: seq<string>) returns (keyParts: seq<string>)
    ensures keyParts == KeyParts(lines, ".py")
  {
    keyParts := [];
    var i := 0;
    while i < |lines|
      invariant 0 <= i <= |lines|
      invariant keyParts == KeyParts(lines[..i], ".py")
    {
      var added := PythonLineParts(Strip(lines[i]));
      KeyPartsStep(lines, i, ".py", added);
      keyParts := keyParts + added;
      i := i + 1;
    }
    assert lines[..i] == lines;
  }

  /** What the loop appends for one stripped line of a `.py` file. */
  method PythonLineParts(line: string) returns (added: seq<string>)
    ensures added == PythonPart(line).ToSeq()
  {
    if "class " <= line {
      var className := PythonClassOf(line);
      added := ["class " + className];
    } else if "def " <= line {
      var funcName := PythonDefOf(line);
      added := ["def " + funcName + "()"];
    } else {
      added := [];
    }
  }

  /** The loop of `_extract_key_code_parts` over the lines of a script. */
  method ScriptKeyParts(lines: seq<string>, fileExt: string) returns (keyParts: seq<string>)
    requires fileExt in ScriptExtensions
    ensures keyParts == KeyParts(lines, fileExt)
  {
    keyParts := [];
    var i := 0;
    while i < |lines|
      invariant 0 <= i <= |lines|
      invariant keyParts == KeyParts(lines[..i], fileExt)
    {
      var added := ScriptLineParts(Strip(lines[i]));
      ScriptKeyPart(lines[i], fileExt);
      KeyPartsStep(lines, i, fileExt, added);
      keyParts := keyParts + added;
      i := i + 1;
    }
    assert lines[..i] == lines;
  }

  /** What the loop appends for one stripped line of a script. */
  method ScriptLineParts(line: string) returns (added: seq<string>)
    ensures added == ScriptPart(line).ToSeq()
  {
    if "class " <= line {
      var className := ScriptClassOf(line);
      added := ["class " + className];
    } else if Contains(line, "function ") {
      var funcName := ScriptFunctionOf(line);
      added := ["function " + funcName + "()"];
    } else if "const " <= line && Contains(line, "=>") {
      var constName := ScriptConstOf(line);
      added := ["const " + constName];
    } else {
      added := [];
    }
  }

  /** A line of a script is read by the script rules, never the Python ones. */
  lemma ScriptKeyPart(line: string, ext: string)
    requires ext in ScriptExtensions
    ensures KeyPart(line, ext) == ScriptPart(Strip(line))
  {
    assert ext[1] != 'p';
  }

  /** One more line adds its entry, if any, at the end. */
  lemma KeyPartsStep(lines: seq<string>, i: nat, ext: string, added: seq<string>)
    requires i < |lines| && KeyPart(lines[i], ext).ToSeq() == added
    ensures KeyParts(lines[..i + 1], ext) == KeyParts(lines[..i], ext) + added
  {
    assert lines[..i + 1][..i] == lines[..i];
  }

  /** A file whose suffix is neither `.py` nor a script suffix yields no entry;
      the test is on the suffix as written, so `.PY` yields none either. */
  lemma {:induction false} KeyPartsOtherSuffix(lines: seq<string>, ext: string)
    requires ext != ".py" && ext !in ScriptExtensions
    ensures KeyParts(lines, ext) == []
  {
    if lines != [] {
      KeyPartsOtherSuffix(lines[..|lines| - 1], ext);
    }
  }

  /** The entries of two runs of lines are those of the first, then those of the second. */
  lemma LastOfConcat<T>(a: seq<T>, b: seq<T>)
    requires b != []
    ensures (a + b)[..|a + b| - 1] == a + b[..|b| - 1]
    ensures (a + b)[|a + b| - 1] == b[|b| - 1]
  {
  }

  lemma {:induction false} KeyPartsConcat(a: seq<string>, b: seq<string>, ext: string)
    ensures KeyParts(a + b, ext) == KeyParts(a, ext) + KeyParts(b, ext)
    decreases |b|
  {
    if b == [] {
      assert a + b == a;
    } else {
      var init, last := b[..|b| - 1], b[|b| - 1];
      KeyPartsConcat(a, init, ext);
      LastOfConcat(a, b);
      var added := KeyPart(last, ext).ToSeq();
      assert KeyParts(a + b, ext) == KeyParts(a + init, ext) + added;
      AppendAssoc(KeyParts(a, ext), KeyParts(init, ext), added);
    }
  }

  /** At most one entry per line, each the entry of one of the lines. */
  lemma {:induction false} KeyPartsFromLines(lines: seq<string>, ext: string)
    ensures |KeyParts(lines, ext)| <= |lines|
    ensures forall p :: p in KeyParts(lines, ext) ==> exists i :: 0 <= i < |lines| && KeyPart(lines[i], ext) == Some(p)
  {
    if lines != [] {
      var init := lines[..|lines| - 1];
      KeyPartsFromLines(init, ext);
      forall p | p in KeyParts(lines, ext)
        ensures exists i :: 0 <= i < |lines| && KeyPart(lines[i], ext) == Some(p)
      {
        if p in KeyParts(init, ext) {
          var i :| 0 <= i < |init| && KeyPart(init[i], ext) == Some(p);
          assert lines[i] == init[i];
        } else {
          assert KeyPart(lines[|lines| - 1], ext) == Some(p);
        }
      }
    }
  }

  /** Every entry of a `.py` file is a class or a function, and a function
      entry ends in `()`. */
  lemma {:induction false} PythonPartsShape(lines: seq<string>)
    ensures forall p :: p in KeyParts(lines, ".py") ==> IsPythonEntry(p)
  {
    if lines != [] {
      var init, last := lines[..|lines| - 1], lines[|lines| - 1];
      PythonPartsShape(init);
      PythonPartCases(Strip(last));
    }
  }

  /** Cutting `kw + name + [sep] + rest` at the first `sep` and deleting every
      `kw` leaves `name`. */
  lemma KeywordName(kw: string, name: string, sep: char, rest: string)
    requires kw != [] && sep !in kw && sep !in name && !Contains(name, kw)
    ensures ReplaceAll(BeforeFirst(kw + name + [sep] + rest, sep), kw, "") == name
  {
    BeforeFirstAt(kw + name, sep, rest);
    assert (kw + name)[|kw|..] == name;
    ReplaceAbsent(name, kw, "");
  }

  /** A `class` line yields the name between the keyword and the first `(`,
      when that name holds no `class ` and neither starts nor ends with `:`. */
  lemma PythonClassName(name: string, rest: string)
    requires '(' !in name && !Contains(name, "class ")
    requires name == [] || (name[0] != ':' && name[|name| - 1] != ':')
    ensures PythonPart("class " + name + "(" + rest) == Some("class " + name)
  {
    KeywordName("class ", name, '(', rest);
    assert "class " + name + "(" + rest == "class " + name + ['('] + rest;
    StripCharUnchanged(name, ':');
  }

  /** A `def` line yields the name between the keyword and the first `(`,
      followed by `()`. */
  lemma PythonDefName(name: string, rest: string)
    requires '(' !in name && !Contains(name, "def ")
    ensures PythonPart("def " + name + "(" + rest) == Some("def " + name + "()")
  {
    KeywordName("def ", name, '(', rest);
    assert "def " + name + "(" + rest == "def " + name + ['('] + rest;
    assert !("class " <= "def " + name + "(" + rest);
  }

  /** A method line keeps its indentation in the file, and its arguments
      are dropped all the same: an indented `def f(self):` gives `def f()`. */
  lemma IndentedDefKeyPart(ws: string, name: string, rest: string)
    requires AllSpace(ws)
    requires '(' !in name && !Contains(name, "def ")
    ensures KeyPart(ws + ("def " + name + "(" + rest), ".py") == Some("def " + name + "()")
  {
    var head := "def " + name + "(";
    assert head[0] == 'd' && head[|head| - 1] == '(';
    StripIndented(ws, head, rest);
    PythonDefName(name, RStripSpace(rest));
  }

  /** What a script's entry looks like: a class, a function ending in `()`,
      or a `const`. */
  predicate IsScriptEntry(p: string) {
    "class " <= p || ("function " <= p && EndsWith(p, "()")) || "const " <= p
  }

  /** Every entry of a script is a class, a function ending in `()`, or a `const`. */
  lemma {:induction false} ScriptPartsShape(lines: seq<string>, ext: string)
    requires ext in ScriptExtensions
    ensures forall p :: p in KeyParts(lines, ext) ==> IsScriptEntry(p)
  {
    if lines != [] {
      var init, last := lines[..|lines| - 1], lines[|lines| - 1];
      ScriptPartsShape(init, ext);
      assert ext != ".py";
      assert KeyPart(last, ext) == ScriptPart(Strip(last));
      ScriptPartCases(Strip(last));
    }
  }

  /** In `lead + kw + name + [sep] + rest`, where `lead` holds neither `sep`
      nor the first character of `kw`, the text after the last `kw` before the
      first `sep` is `name`. */
  lemma LeadKeywordName(lead: string, kw: string, name: string, sep: char, rest: string)
    requires kw != [] && kw[0] !in lead && sep !in lead && sep !in kw && sep !in name && !Contains(name, kw)
    ensures Contains(lead + kw + name + [sep] + rest, kw)
    ensures AfterLast(BeforeFirst(lead + kw + name + [sep] + rest, sep), kw) == name
  {
    assert lead + kw + name + [sep] + rest == lead + (kw + name + [sep] + rest);
    assert kw <= kw + name + [sep] + rest;
    ContainsExtend(lead, kw + name + [sep] + rest, kw);
    BeforeFirstAt(lead + kw + name, sep, rest);
    assert lead + kw + name == lead + (kw + name);
    assert kw <= kw + name;
    AfterLastSkip(lead, kw + name, kw);
    AfterLastLead(kw, name);
  }

  /** A script line declaring a function after some lead-in (`export async `,
      say) yields the name between `function ` and the first `(`. */
  lemma ScriptFunctionName(lead: string, name: string, rest: string)
    requires 'f' !in lead && '(' !in lead && !("class " <= lead + "function " + name + "(" + rest)
    requires '(' !in name && !Contains(name, "function ")
    requires name == [] || (!IsSpace(name[0]) && !IsSpace(name[|name| - 1]))
    ensures ScriptPart(lead + "function " + name + "(" + rest) == Some("function " + name + "()")
  {
    LeadKeywordName(lead, "function ", name, '(', rest);
    assert lead + "function " + name + "(" + rest == lead + "function " + name + ['('] + rest;
    StripUnchanged(name);
  }

  // =====================================================================
  // Snippet files
  // =====================================================================

  /** The entry of `ns` named `name`, the first one if several are. */
  function Child(ns: seq<Node>, name: string): (r: Option<Node>)
    ensures r.Some? ==> r.value in ns && r.value.name == name
    ensures r.None? ==> forall n :: n in ns ==> n.name != name
  {
    if ns == [] then None
    else if ns[0].name == name then Some(ns[0])
    else Child(ns[1..], name)
  }

  /** The node `n / parts` names, if it exists. */
  function Resolve(n: Node, parts: seq<string>): (r: Option<Node>)
    ensures r.Some? && parts != [] ==> r.value.name == parts[|parts| - 1]
    ensures parts == [] ==> r == Some(n)
    decreases |parts|
  {
    if parts == [] then Some(n)
    else if n.File? then None
    else
      match Child(n.children, parts[0])
      case None => None
      case Some(c) => Resolve(c, parts[1..])
  }

  /** `[f for f in items if f.is_file()]`. */
  function FilesOnly(items: seq<Item>): (r: seq<Item>)
    ensures |r| <= |items|
    ensures forall it :: it in r <==> it in items && it.node.File?
  {
    if items == [] then []
    else
      var last := items[|items| - 1];
      FilesOnly(items[..|items| - 1]) + (if last.node.File? then [last] else [])
  }

  /** `[f for f in items if f.suffix in exts]`. */
  function WithSuffixIn(items: seq<Item>, exts: seq<string>): (r: seq<Item>)
    ensures |r| <= |items|
    ensures forall it :: it in r <==> it in items && Suffix(it.node.name) in exts
  {
    if items == [] then []
    else
      var last := items[|items| - 1];
      WithSuffixIn(items[..|items| - 1], exts) + (if Suffix(last.node.name) in exts then [last] else [])
  }

  /** The files of the component at `parts`: the component itself when it is a
      file, otherwise every file `rglob` finds below it. */
  function ComponentFiles(c: Node, parts: seq<string>): seq<Item> {
    if c.File? then [Item(parts, c)] else FilesOnly(RGlob(c.children, parts))
  }

  /** The suffix filter, applied only when the list of suffixes is not empty. */
  function Filtered(files: seq<Item>, exts: seq<string>): seq<Item> {
    if exts != [] then WithSuffixIn(files, exts) else files
  }

  /** The at most ten files `extract_code_snippets` reads. */
  function SnippetFiles(c: Node, parts: seq<string>, exts: seq<string>): seq<Item> {
    Take(Filtered(ComponentFiles(c, parts), exts), 10)
  }

  /** At most ten files, each a file below the component; with suffixes given,
      each has one of them, and without, no file is filtered out.  The files
      kept are the first ones found, and when no more than ten pass the filter
      none is dropped. */
  lemma SnippetFilesCap(c: Node, parts: seq<string>, exts: seq<string>)
    ensures |SnippetFiles(c, parts, exts)| <= 10
    ensures SnippetFiles(c, parts, exts) <= Filtered(ComponentFiles(c, parts), exts)
    ensures forall it :: it in SnippetFiles(c, parts, exts) ==> it.node.File? && parts <= it.parts
    ensures forall it :: it in SnippetFiles(c, parts, exts) && exts != [] ==> Suffix(it.node.name) in exts
    ensures exts == [] ==> SnippetFiles(c, parts, exts) == Take(ComponentFiles(c, parts), 10)
    ensures |Filtered(ComponentFiles(c, parts), exts)| <= 10 ==>
      forall it :: it in ComponentFiles(c, parts) && (exts == [] || Suffix(it.node.name) in exts) ==> it in SnippetFiles(c, parts, exts)
  {
    var files := ComponentFiles(c, parts);
    if c.Dir? {
      RGlobUnder(c.children, parts);
    }
    forall it | it in files ensures it.node.File? && parts <= it.parts {
      if c.Dir? {
        var i :| 0 <= i < |RGlob(c.children, parts)| && RGlob(c.children, parts)[i] == it;
      }
    }
  }

  // =====================================================================
  // Snippets
  // =====================================================================

  /** What `extract_code_snippets` records about one file. */
  datatype Snippet = Snippet(file: seq<string>, size: nat, lines: nat, preview: string, keyParts: seq<string>)

  /** `content[:500] if len(content) > 500 else content`. */
  function Preview(content: string): (r: string)
    ensures r <= content && |r| <= 500
    ensures |content| <= 500 ==> r == content
  {
    if |content| > 500 then content[..500] else content
  }

  /** The record of one file: its path below the clone, its length in
      characters, its number of lines, its preview and its key parts. */
  function SnippetOf(it: Item): Snippet
    requires it.node.File?
  {
    var content := it.node.text;
    Snippet(it.parts, |content|, |SplitLines(content)|, Preview(content), KeyParts(SplitLines(content), Suffix(it.node.name)))
  }

  predicate AllFiles(items: seq<Item>) {
    forall i :: 0 <= i < |items| ==> items[i].node.File?
  }

  /** The records of a run of files, in order. */
  function SnippetsOf(files: seq<Item>): (r: seq<Snippet>)
    requires AllFiles(files)
    ensures |r| == |files|
  {
    if files == [] then []
    else SnippetsOf(files[..|files| - 1]) + [SnippetOf(files[|files| - 1])]
  }

  lemma SnippetsOfSnoc(files: seq<Item>, i: nat)
    requires AllFiles(files) && i < |files|
    ensures AllFiles(files[..i]) && AllFiles(files[..i + 1])
    ensures SnippetsOf(files[..i + 1]) == SnippetsOf(files[..i]) + [SnippetOf(files[i])]
  {
    assert files[..i + 1][..i] == files[..i];
  }

  /** The result of `extract_code_snippets`: an error, or the records. */
  datatype SnippetsResult = NotCloned | ComponentNotFound(component: seq<string>) | Found(snippets: seq<Snippet>)

  /** `extract_code_snippets` over the clone's root entries (`None` when the
      repository is not cloned), a component path and a list of suffixes. */
  function CodeSnippets(clone: Option<seq<Node>>, component: seq<string>, exts: seq<string>): SnippetsResult {
    if clone.None? then NotCloned
    else
      match Resolve(Dir("", clone.value), component)
      case None => ComponentNotFound(component)
      case Some(c) =>
        var files := SnippetFiles(c, component, exts);
        SnippetFilesCap(c, component, exts);
        Found(SnippetsOf(files))
  }

  /** `extract_code_snippets`: one pass over the selected files. */
  method ExtractCodeSnippets(clone: Option<seq<Node>>, component: seq<string>, exts: seq<string>) returns (r: SnippetsResult)
    ensures r == CodeSnippets(clone, component, exts)
  {
    if clone.None? {
      return NotCloned;
    }
    var componentFull := Resolve(Dir("", clone.value), component);
    if componentFull.None? {
      return ComponentNotFound(component);
    }
    var files := SnippetFiles(componentFull.value, component, exts);
    SnippetFilesCap(componentFull.value, component, exts);
    var snippets := ReadSnippets(files);
    return Found(snippets);
  }

  /** The loop of `extract_code_snippets` that records each selected file. */
  method ReadSnippets(files: seq<Item>) returns (snippets: seq<Snippet>)
    requires AllFiles(files)
    ensures snippets == SnippetsOf(files)
  {
    snippets := [];
    var i := 0;
    while i < |files|
      invariant 0 <= i <= |files|
      invariant snippets == SnippetsOf(files[..i])
    {
      var filePath := files[i];
      var content := filePath.node.text;
      var keyParts := ExtractKeyCodeParts(content, Suffix(filePath.node.name));
      var snippet := Snippet(filePath.parts, |content|, |SplitLines(content)|, Preview(content), keyParts);
      assert snippet == SnippetOf(filePath);
      SnippetsOfSnoc(files, i);
      snippets := snippets + [snippet];
      i := i + 1;
    }
    assert files[..i] == files;
  }

  /** A component that is not there is reported, and at most ten files are read. */
  lemma CodeSnippetsCases(clone: seq<Node>, component: seq<string>, exts: seq<string>)
    ensures Resolve(Dir("", clone), component).None? <==> CodeSnippets(Some(clone), component, exts) == ComponentNotFound(component)
    ensures CodeSnippets(Some(clone), component, exts).Found? ==> |CodeSnippets(Some(clone), component, exts).snippets| <= 10
  {
  }

  // =====================================================================
  // What is shown of a snippet
  // =====================================================================

  /** The key elements shown: the first five. */
  function KeyElements(s: Snippet): (r: seq<string>)
    ensures r <= s.keyParts && |r| <= 5
    ensures |s.keyParts| <= 5 ==> r == s.keyParts
  {
    Take(s.keyParts, 5)
  }

  /** The preview lines shown: the first fifteen lines of the preview. */
  function PreviewLines(s: Snippet): (r: seq<string>)
    ensures r <= SplitLines(s.preview) && |r| <= 15
  {
    Take(SplitLines(s.preview), 15)
  }

  /** The note under the preview as written: `lines - 15` more lines whenever
      the file has more than fifteen, however many lines the 500-character
      preview showed. */
  function MoreLinesAsWritten(s: Snippet): Option<nat> {
    if s.lines > 15 then Some(s.lines - 15) else None
  }

  /** The note as intended: the lines of the file the preview did not show. */
  function MoreLines(s: Snippet): Option<nat> {
    var shown := |PreviewLines(s)|;
    if s.lines > shown then Some(s.lines - shown) else None
  }

  /** The preview never shows more lines than the file has, the note counts
      exactly the lines not shown, and there is a note exactly when some line
      is not shown. */
  lemma MoreLinesAccounts(it: Item)
    requires it.node.File?
    ensures |PreviewLines(SnippetOf(it))| <= SnippetOf(it).lines
    ensures |PreviewLines(SnippetOf(it))| + MoreLines(SnippetOf(it)).GetOr(0) == SnippetOf(it).lines
    ensures MoreLines(SnippetOf(it)).None? <==> |PreviewLines(SnippetOf(it))| == SnippetOf(it).lines
  {
    var content := it.node.text;
    SplitLinesPrefix(Preview(content), content);
  }

  /** `n` line feeds. */
  function LineFeeds(n: nat): (r: string)
    ensures |r| == n
    ensures forall k :: 0 <= k < n ==> r[k] == '\n'
  {
    seq(n, k => '\n')
  }

  lemma {:induction false} LineFeedsLines(n: nat)
    ensures |SplitLines(LineFeeds(n))| == n
  {
    if n > 0 {
      var s := LineFeeds(n);
      assert FirstBreak(s) == 0;
      assert NextLine(s) == 1;
      assert s[1..] == LineFeeds(n - 1);
      LineFeedsLines(n - 1);
    }
  }

  /** A text without line boundaries is one line. */
  lemma OneLine(a: string)
    requires a != [] && forall k :: 0 <= k < |a| ==> !IsLineBreak(a[k])
    ensures SplitLines(a) == [a]
  {
    assert FirstBreak(a) == |a|;
  }

  /** A line without boundaries followed by `n` line feeds is `n` lines. */
  lemma LineThenFeeds(a: string, n: nat)
    requires n > 0 && forall k :: 0 <= k < |a| ==> !IsLineBreak(a[k])
    ensures |SplitLines(a + LineFeeds(n))| == n
  {
    var s := a + LineFeeds(n);
    assert s[|a|] == '\n';
    assert forall k :: 0 <= k < |a| ==> s[k] == a[k];
    assert FirstBreak(s) == |a|;
    assert NextLine(s) == |a| + 1;
    assert s[|a| + 1..] == LineFeeds(n - 1);
    SplitLinesStep(s);
    LineFeedsLines(n - 1);
  }

  /** A file of one 500-character line and then sixteen line feeds has sixteen
      lines; its preview shows one of them, yet the note as written reports a
      single further line where fifteen are hidden. */
  lemma MoreLinesAsWrittenMiscounts()
    ensures var a := seq(500, k => 'a');
      var it := Item(["notes.txt"], File("notes.txt", 516, a + LineFeeds(16)));
      |PreviewLines(SnippetOf(it))| == 1 && SnippetOf(it).lines == 16
      && MoreLinesAsWritten(SnippetOf(it)) == Some(1) && MoreLines(SnippetOf(it)) == Some(15)
  {
    var a := seq(500, k => 'a');
    var content := a + LineFeeds(16);
    LineThenFeeds(a, 16);
    assert content[..500] == a;
    OneLine(a);
  }

  // =====================================================================
  // The directory listing in `analyze_structure`
  // =====================================================================

  /** The number of listing lines left out, when there are more than sixty. */
  function MoreItems(structure: seq<string>): (r: Option<nat>)
    ensures r.Some? <==> |structure| > 60
    ensures |Take(structure, 60)| + r.GetOr(0) == |structure|
  {
    if |structure| > 60 then Some(|structure| - 60) else None
  }

  /** The listing part of the report: the first sixty lines joined by line
      breaks, then `... and N more items` when some were left out. */
  function StructureSection(structure: seq<string>): string {
    Join("\n", Take(structure, 60))
    + match MoreItems(structure)
      case None => ""
      case Some(n) => "\n... and " + NatToString(n) + " more items\n"
  }

  /** A listing of at most sixty lines is printed whole and without a note. */
  lemma ShortStructureWhole(structure: seq<string>)
    requires |structure| <= 60
    ensures StructureSection(structure) == Join("\n", structure)
  {
    assert Join("\n", structure) + "" == Join("\n", structure);
  }
}
