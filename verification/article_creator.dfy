/** The article draft store: structures proposed for a topic, the drafts
    generated from them, their refinement, and the views used to deploy and to
    list them.

    The tool keeps each record in a JSON file named after its id and writes a
    Markdown preview beside each draft; here the three kinds of file are three
    maps held by one object.  The wall clock is a parameter of every operation
    that reads it. */
module ArticleCreator {
  import opened Wrappers
  import opened Strings
  import opened Dicts
  import opened Metadata
  import opened Clock

  // =====================================================================
  // Ids
  // =====================================================================

  /** The characters an id is made of. */
  predicate IsIdChar(c: char) { IsLowerLetter(c) || IsDigit(c) || c == '-' }

  predicate IsId(s: string) { forall i :: 0 <= i < |s| ==> IsIdChar(s[i]) }

  /** The characters `_generate_id` keeps in a slug. */
  predicate IsKept(c: char) { IsAlnum(c) || c == '-' }

  /** `"".join(c for c in s if c.isalnum() or c == "-")`: a text of kept
      characters comes back unchanged and one without any comes back empty;
      with KeepAlnumHyphenConcat, that fixes the result character by character. */
  function KeepAlnumHyphen(s: string): (r: string)
    ensures |r| <= |s|
    ensures forall i :: 0 <= i < |r| ==> IsKept(r[i])
    ensures (forall i :: 0 <= i < |s| ==> !IsUpper(s[i])) ==> IsId(r)
    ensures (forall i :: 0 <= i < |s| ==> IsKept(s[i])) ==> r == s
    ensures (forall i :: 0 <= i < |s| ==> !IsKept(s[i])) ==> r == []
  {
    if s == [] then []
    else if IsKept(s[0]) then [s[0]] + KeepAlnumHyphen(s[1..])
    else KeepAlnumHyphen(s[1..])
  }

  /** The filter works piece by piece: it keeps the kept characters of each
      part, in order. */
  lemma {:induction false} KeepAlnumHyphenConcat(a: string, b: string)
    ensures KeepAlnumHyphen(a + b) == KeepAlnumHyphen(a) + KeepAlnumHyphen(b)
  {
    if a == [] {
      assert a + b == b;
    } else {
      assert (a + b)[0] == a[0];
      assert (a + b)[1..] == a[1..] + b;
      KeepAlnumHyphenConcat(a[1..], b);
    }
  }

  /** The topic part of an id: lower-cased, spaces to hyphens, only letters,
      digits and hyphens kept, at most 50 characters. */
  function TopicSlug(topic: string): (r: string)
    ensures |r| <= 50
    ensures IsId(r)
  {
    var kept := KeepAlnumHyphen(SpacesToHyphens(Lower(topic)));
    kept[..if |kept| < 50 then |kept| else 50]
  }

  /** A topic of lower-case letters, digits, spaces and hyphens gives its
      first fifty characters with each space turned into `-`: hyphens are
      neither collapsed nor trimmed. */
  lemma TopicSlugPlain(topic: string)
    requires forall i :: 0 <= i < |topic| ==> IsLowerLetter(topic[i]) || IsDigit(topic[i]) || topic[i] == ' ' || topic[i] == '-'
    ensures TopicSlug(topic) == Take(SpacesToHyphens(topic), 50)
  {
    assert Lower(topic) == topic;
    var dashed := SpacesToHyphens(topic);
    assert forall i :: 0 <= i < |dashed| ==> IsKept(dashed[i]);
    assert KeepAlnumHyphen(dashed) == dashed;
  }

  /** `" a  b-"` gives the slug `-a--b-`. */
  lemma TopicSlugKeepsHyphens()
    ensures TopicSlug(" a  b-") == "-a--b-"
  {
    var topic := " a  b-";
    assert topic == [' ', 'a', ' ', ' ', 'b', '-'];
    TopicSlugPlain(topic);
    DashedSample();
  }

  lemma DashedSample()
    ensures SpacesToHyphens(" a  b-") == "-a--b-"
  {
    var dashed := SpacesToHyphens(" a  b-");
    assert dashed[0] == '-' && dashed[1] == 'a' && dashed[2] == '-';
    assert dashed[3] == '-' && dashed[4] == 'b' && dashed[5] == '-';
  }

  /** `_generate_id(topic)` at the time `now`. */
  function GenerateId(topic: string, now: Instant): string {
    TopicSlug(topic) + "-" + IdStamp(now)
  }

  /** An id holds only lower-case letters, digits and hyphens. */
  lemma GenerateIdIsId(topic: string, now: Instant)
    ensures IsId(GenerateId(topic, now))
  {
    IdStampShape(now);
    var slug, stamp := TopicSlug(topic), IdStamp(now);
    var id := slug + "-" + stamp;
    forall i | 0 <= i < |id| ensures IsIdChar(id[i]) {
      if i < |slug| {
        assert id[i] == slug[i];
      } else if i > |slug| {
        assert id[i] == stamp[i - |slug| - 1];
      }
    }
  }

  /** An id is the topic slug, a hyphen and the fifteen-character stamp
      `YYYYMMDD-HHMMSS`, so at most 66 characters. */
  lemma GenerateIdShape(topic: string, now: Instant)
    ensures var id := GenerateId(topic, now);
      && |id| == |TopicSlug(topic)| + 16 <= 66
      && id[..|TopicSlug(topic)|] == TopicSlug(topic)
      && id[|id| - 15..] == IdStamp(now)
  {
    IdStampShape(now);
    var id := GenerateId(topic, now);
    var k := |TopicSlug(topic)|;
    assert id[k + 1..] == IdStamp(now);
  }

  /** The same topic at two readings of the clock gives the same id exactly
      when the readings fall in the same second. */
  lemma GenerateIdDistinct(topic: string, t1: Instant, t2: Instant)
    requires Valid(t1) && Valid(t2)
    ensures GenerateId(topic, t1) == GenerateId(topic, t2) <==> SameSecond(t1, t2)
  {
    GenerateIdShape(topic, t1);
    GenerateIdShape(topic, t2);
    IdStampInjective(t1, t2);
    IdStampShape(t1);
    IdStampShape(t2);
  }

  /** The id `list_articles` reads back from a draft's file stem `<id>_article`. */
  function ListedId(id: string): string {
    ReplaceAll(id + "_article", "_article", "")
  }

  /** Reading the id back from the file stem gives the id. */
  lemma ListedIdRecovers(id: string)
    requires IsId(id)
    ensures ListedId(id) == id
  {
    assert "_article"[1..] == "article";
    ReplaceAppended(id, "_article", "");
    MissingCharNotContained(id, "_article", '_');
    ReplaceAbsent(id, "_article", "");
  }

  // =====================================================================
  // Records
  // =====================================================================

  datatype Structure = Structure(topic: string, outline: string, sourceInfo: string,
                                 createdAt: string, status: string)

  datatype Article = Article(topic: string, content: string, metadata: Meta, status: string)

  /** The `metadata` argument of `generate_article_content` after `json.loads`:
      empty, not JSON, JSON of some other type than an object (named by its
      Python type), or an object given as its entries in document order. */
  datatype MetadataArg = NoMetadata | Malformed | NonObject(typeName: string) | Object(entries: Dict<Value>)

  /** The caller's metadata as a dict: empty when absent or not JSON; an object's
      entries assigned in order, so a repeated key keeps its first place and its
      last value. */
  function CallerMetadata(arg: MetadataArg): (r: Meta)
    requires !arg.NonObject?
    ensures DistinctKeys(r)
  {
    match arg
    case Object(entries) => UpdateDistinct([], entries); Update([], entries)
    case _ => []
  }

  /** `{"created_at": ..., "source_info": ..., **caller}`. */
  function StoredMetadata(createdAt: string, sourceInfo: string, caller: Meta): Meta {
    Update([("created_at", Text(createdAt)), ("source_info", Text(sourceInfo))], caller)
  }

  /** The stored metadata lists `created_at`, then `source_info`, then the
      caller's other keys in the caller's order; the caller's value wins on
      every key it has, and no key appears twice. */
  lemma StoredMetadataSpec(createdAt: string, sourceInfo: string, caller: Meta, k: string)
    requires DistinctKeys(caller)
    ensures var m := StoredMetadata(createdAt, sourceInfo, caller);
      && Keys(m) == ["created_at", "source_info"] + NewKeys(Keys(caller), ["created_at", "source_info"])
      && DistinctKeys(m)
      && Get(m, k) == if k in Keys(caller) then Get(caller, k)
                      else if k == "created_at" then Some(Text(createdAt))
                      else if k == "source_info" then Some(Text(sourceInfo))
                      else None
  {
    var base := [("created_at", Text(createdAt)), ("source_info", Text(sourceInfo))];
    assert Keys(base) == ["created_at", "source_info"];
    UpdateKeys(base, caller);
    StoredMetadataDistinct(createdAt, sourceInfo, caller);
    UpdateGet(base, caller, k);
  }

  /** Whatever the caller passes, the stored metadata never repeats a key. */
  lemma StoredMetadataDistinct(createdAt: string, sourceInfo: string, caller: Meta)
    ensures DistinctKeys(StoredMetadata(createdAt, sourceInfo, caller))
  {
    var base := [("created_at", Text(createdAt)), ("source_info", Text(sourceInfo))];
    assert DistinctKeys(base);
    UpdateDistinct(base, caller);
  }

  // =====================================================================
  // Markdown
  // =====================================================================

  /** One front-matter line, `key: value`. */
  function FieldLine(key: string, v: Value): string {
    key + ": " + Str(v) + "\n"
  }

  /** The lines written for the entries of `meta` whose key is not excluded, in order. */
  function FieldLines(meta: Meta, excluded: seq<string>): string {
    if meta == [] then ""
    else
      var last := meta[|meta| - 1];
      FieldLines(meta[..|meta| - 1], excluded)
      + (if last.0 in excluded then "" else FieldLine(last.0, last.1))
  }

  /** The entries of `meta` whose key is not excluded, in order. */
  function Without(meta: Meta, excluded: seq<string>): (r: Meta)
    ensures forall k :: k in Keys(r) <==> k in Keys(meta) && k !in excluded
  {
    if meta == [] then []
    else
      var init, last := meta[..|meta| - 1], meta[|meta| - 1];
      assert init + [last] == meta;
      KeysSnoc(init, last);
      var rest := Without(init, excluded);
      if last.0 in excluded then rest
      else
        KeysSnoc(rest, last);
        rest + [last]
  }

  /** Excluding keys from the lines is writing the lines of the entries kept:
      the lines list exactly the keys of `meta` that are not excluded. */
  lemma {:induction false} FieldLinesWithout(meta: Meta, excluded: seq<string>)
    ensures FieldLines(meta, excluded) == FieldLines(Without(meta, excluded), [])
  {
    if meta != [] {
      var init, last := meta[..|meta| - 1], meta[|meta| - 1];
      FieldLinesWithout(init, excluded);
      var rest := Without(init, excluded);
      if last.0 !in excluded {
        assert (rest + [last])[..|rest|] == rest;
      }
    }
  }

  /** The loop over `metadata.items()` that writes one line per key not excluded. */
  method WriteFields(meta: Meta, excluded: seq<string>) returns (text: string)
    ensures text == FieldLines(meta, excluded)
  {
    text := "";
    var i := 0;
    while i < |meta|
      invariant 0 <= i <= |meta|
      invariant text == FieldLines(meta[..i], excluded)
    {
      var (key, value) := meta[i];
      assert meta[..i + 1][..i] == meta[..i];
      if key !in excluded {
        text := text + FieldLine(key, value);
      }
      i := i + 1;
    }
    assert meta[..i] == meta;
  }

  /** The keys the refined draft's front matter leaves out. */
  const InternalKeys: seq<string> := ["created_at", "source_info", "last_refined"]

  /** The front matter: `---`, the title, the lines, `---` and a blank line;
      nothing at all for an empty dict. */
  function FrontMatter(topic: string, meta: Meta, lines: string): string {
    if meta == [] then "" else "---\ntitle: " + topic + "\n" + lines + "---\n\n"
  }

  /** The Markdown written after generating: front matter from the caller's own
      metadata, then the heading and the content. */
  function DraftMarkdown(topic: string, caller: Meta, content: string): string {
    FrontMatter(topic, caller, FieldLines(caller, [])) + "# " + topic + "\n\n" + content
  }

  /** The Markdown written after refining: front matter from the stored metadata
      without the internal keys, then the heading and the content. */
  function RefinedMarkdown(topic: string, meta: Meta, content: string): string {
    FrontMatter(topic, meta, FieldLines(meta, InternalKeys)) + "# " + topic + "\n\n" + content
  }

  /** Every draft ends with its heading and its content verbatim, and opens with
      front matter exactly when its dict is non-empty. */
  lemma MarkdownShape(topic: string, meta: Meta, lines: string, content: string)
    ensures var md := FrontMatter(topic, meta, lines) + "# " + topic + "\n\n" + content;
      && EndsWith(md, "# " + topic + "\n\n" + content)
      && (meta != [] <==> "---\n" <= md)
  {
    var fm := FrontMatter(topic, meta, lines);
    var body := "# " + topic + "\n\n" + content;
    assert fm + "# " + topic + "\n\n" + content == fm + body;
    assert body[0] == '#';
    EndsWithConcat(fm, body);
    FrontMatterOpens(topic, meta, lines, body);
  }

  /** A text after the front matter that starts with `#` opens with `---`
      exactly when the dict is non-empty. */
  lemma FrontMatterOpens(topic: string, meta: Meta, lines: string, body: string)
    requires body != [] && body[0] == '#'
    ensures meta != [] <==> "---\n" <= FrontMatter(topic, meta, lines) + body
  {
    var fm := FrontMatter(topic, meta, lines);
    if meta == [] {
      assert fm + body == body;
    } else {
      var rest := "title: " + topic + "\n" + lines + "---\n\n" + body;
      assert fm + body == "---\n" + rest;
      PrefixExtends("---\n", "---\n", rest);
    }
  }

  /** `content[:500] + "..."` when longer than 500 characters, else the content. */
  function Preview(content: string): (r: string)
    ensures |content| <= 500 ==> r == content
    ensures |content| > 500 ==> |r| == 503 && r[..500] == content[..500] && r[500..] == "..."
  {
    if |content| > 500 then content[..500] + "..." else content
  }

  // =====================================================================
  // Replies
  // =====================================================================

  /** What a tool call reports on success; `Text` renders it as the tool prints it. */
  datatype Report =
    | StructureCreated(topic: string, outline: string, sourceInfo: string, id: string, file: string)
    | ContentGenerated(topic: string, preview: string, jsonFile: string, mdFile: string, id: string)
    | SectionRefined(id: string, section: string, mdFile: string)
  {
    function Text(): string {
      match this
      case StructureCreated(topic, outline, sourceInfo, id, file) =>
        "\nArticle Structure Created\n========================\n\nTopic: " + topic
        + "\n\nOutline:\n" + outline + "\n\nSource Information:\n" + sourceInfo
        + "\n\nStructure ID: " + id + "\nSaved to: " + file
        + "\n\nPlease review this structure. Once approved, I can proceed with generating the full article content.\n"
      case ContentGenerated(topic, preview, jsonFile, mdFile, id) =>
        "\nArticle Content Generated\n=========================\n\nTopic: " + topic
        + "\n\nPreview:\n" + preview + "\n\nFull article saved to:\n- JSON: " + jsonFile
        + "\n- Markdown: " + mdFile + "\n\nArticle ID: " + id
        + "\n\nYou can now review the article and request refinements, or proceed to deployment.\n"
      case SectionRefined(id, section, mdFile) =>
        "\nSection Refined\n===============\n\nArticle ID: " + id + "\nSection: " + section
        + "\n\nUpdated article saved to: " + mdFile
        + "\n\nThe article has been refined. You can request more refinements or proceed to deployment.\n"
    }
  }

  /** Why a tool call failed; `Text` renders the message the tool returns. */
  datatype Failure =
    | StructureNotFound(id: string)
    | NotAMapping(typeName: string)
    | ArticleNotFound(id: string)
  {
    function Text(): string {
      match this
      case StructureNotFound(id) => "Error: Structure ID '" + id + "' not found. Please create structure first."
      case NotAMapping(typeName) => "Error generating article content: '" + typeName + "' object is not a mapping"
      case ArticleNotFound(id) => "Error: Article ID '" + id + "' not found."
    }
  }

  datatype Reply = Ok(report: Report) | Error(failure: Failure)

  /** What `get_article_for_deployment` returns: the `error` dict, or the draft. */
  datatype DeploymentData =
    | NotFound(error: string)
    | Ready(topic: string, content: string, metadata: Meta, markdownFile: string, status: string)

  // =====================================================================
  // Listing
  // =====================================================================

  function Dashes(n: nat): (r: string)
    ensures |r| == n && forall i :: 0 <= i < n ==> r[i] == '-'
  {
    if n == 0 then "" else Dashes(n - 1) + "-"
  }

  /** One listed draft: id, topic, status, creation time, and a rule of 50 dashes. */
  function Entry(id: string, a: Article): string {
    "ID: " + ListedId(id) + "\nTopic: " + a.topic + "\nStatus: " + a.status
    + "\nCreated: " + Str(Get(a.metadata, "created_at").GetOr(Text("unknown"))) + "\n"
    + Dashes(50) + "\n"
  }

  /** The entries of the drafts `ids`, in that order. */
  function Entries(ids: seq<string>, drafts: map<string, Article>): string
    requires forall id :: id in ids ==> id in drafts
  {
    if ids == [] then ""
    else Entries(ids[..|ids| - 1], drafts) + Entry(ids[|ids| - 1], drafts[ids[|ids| - 1]])
  }

  lemma EntriesSnoc(ids: seq<string>, i: nat, drafts: map<string, Article>)
    requires i < |ids|
    requires forall id :: id in ids ==> id in drafts
    ensures Entries(ids[..i + 1], drafts) == Entries(ids[..i], drafts) + Entry(ids[i], drafts[ids[i]])
  {
    assert ids[..i + 1][..i] == ids[..i];
  }

  const ListingHeader: string := "Article Drafts\n==============\n\n"

  const NoDrafts: string := "No article drafts found."

  // =====================================================================
  // The store
  // =====================================================================

  class ArticleStore {
    /** Where the files would be: `<project root>/temp/article_drafts`. */
    const draftsDir: string
    /** The `<id>_structure.json` files. */
    var structures: map<string, Structure>
    /** The `<id>_article.json` files. */
    var articles: map<string, Article>
    /** The `<id>_article.md` files. */
    var markdown: map<string, string>

    /** Every draft was generated from a structure and has its Markdown file;
        every id is made of id characters; no metadata dict repeats a key. */
    predicate Valid()
      reads this
    {
      && articles.Keys <= structures.Keys
      && markdown.Keys == articles.Keys
      && (forall id :: id in structures ==> IsId(id))
      && (forall id :: id in articles ==> DistinctKeys(articles[id].metadata))
    }

    constructor(projectRoot: string)
      ensures Valid()
      ensures draftsDir == projectRoot + "/temp/article_drafts"
      ensures structures == map[] && articles == map[] && markdown == map[]
    {
      draftsDir := projectRoot + "/temp/article_drafts";
      structures := map[];
      articles := map[];
      markdown := map[];
    }

    function StructureFile(id: string): string { draftsDir + "/" + id + "_structure.json" }

    function ArticleFile(id: string): string { draftsDir + "/" + id + "_article.json" }

    function MarkdownFile(id: string): string { draftsDir + "/" + id + "_article.md" }

    /** `create_article_structure`: the structure is stored under a fresh id
        built from the topic and the time, without looking at what is stored;
        an id already taken (same topic, same second) is overwritten. */
    method CreateStructure(topic: string, outline: string, sourceInfo: string, now: Instant)
      returns (id: string, report: Report)
      requires Valid()
      modifies this
      ensures Valid()
      ensures id == GenerateId(topic, now)
      ensures structures == old(structures)[id := Structure(topic, outline, sourceInfo, IsoFormat(now), "structure_proposed")]
      ensures articles == old(articles) && markdown == old(markdown)
      ensures report == StructureCreated(topic, outline, sourceInfo, id, StructureFile(id))
    {
      id := GenerateId(topic, now);
      GenerateIdIsId(topic, now);
      structures := structures[id := Structure(topic, outline, sourceInfo, IsoFormat(now), "structure_proposed")];
      report := StructureCreated(topic, outline, sourceInfo, id, StructureFile(id));
    }

    /** `get_article_for_deployment`. */
    function ForDeployment(id: string): (r: DeploymentData)
      reads this
      ensures r.NotFound? <==> id !in articles
    {
      if id !in articles then NotFound("Article ID '" + id + "' not found.")
      else
        var a := articles[id];
        Ready(a.topic, a.content, a.metadata, MarkdownFile(id), "ready_for_deployment")
    }

    /** `generate_article_content`: an unknown structure id, or metadata JSON
        that is not an object, changes nothing; otherwise the draft is stored
        with status `draft_generated`, its metadata `created_at`, `source_info`
        and the caller's keys, and is what a deployment then fetches. */
    method GenerateContent(id: string, content: string, metadata: MetadataArg, now: Instant)
      returns (reply: Reply)
      requires Valid()
      modifies this
      ensures Valid()
      ensures structures == old(structures)
      ensures id !in old(structures) ==>
        && reply == Error(StructureNotFound(id))
        && articles == old(articles) && markdown == old(markdown)
      ensures id in old(structures) && metadata.NonObject? ==>
        && reply == Error(NotAMapping(metadata.typeName))
        && articles == old(articles) && markdown == old(markdown)
      ensures id in old(structures) && !metadata.NonObject? ==>
        var s := old(structures)[id];
        var caller := CallerMetadata(metadata);
        var stored := StoredMetadata(IsoFormat(now), s.sourceInfo, caller);
        && articles == old(articles)[id := Article(s.topic, content, stored, "draft_generated")]
        && markdown == old(markdown)[id := DraftMarkdown(s.topic, caller, content)]
        && ForDeployment(id) == Ready(s.topic, content, stored, MarkdownFile(id), "ready_for_deployment")
        && reply == Ok(ContentGenerated(s.topic, Preview(content), ArticleFile(id), MarkdownFile(id), id))
    {
      if id !in structures {
        return Error(StructureNotFound(id));
      }
      if metadata.NonObject? {
        return Error(NotAMapping(metadata.typeName));
      }
      var s := structures[id];
      var caller := CallerMetadata(metadata);
      var stored := StoredMetadata(IsoFormat(now), s.sourceInfo, caller);
      StoredMetadataDistinct(IsoFormat(now), s.sourceInfo, caller);
      articles := articles[id := Article(s.topic, content, stored, "draft_generated")];
      var lines := WriteFields(caller, []);
      var md := FrontMatter(s.topic, caller, lines) + "# " + s.topic + "\n\n" + content;
      assert md == DraftMarkdown(s.topic, caller, content);
      markdown := markdown[id := md];
      reply := Ok(ContentGenerated(s.topic, Preview(content), ArticleFile(id), MarkdownFile(id), id));
    }

    /** `refine_article_section`: an unknown draft id changes nothing; otherwise
        every occurrence of the section text in the content is replaced,
        `last_refined` is set, the status becomes `refined`, and the topic and
        the other metadata stay as they were. */
    method RefineSection(id: string, section: string, refined: string, now: Instant)
      returns (reply: Reply)
      requires Valid()
      modifies this
      ensures Valid()
      ensures structures == old(structures)
      ensures id !in old(articles) ==>
        && reply == Error(ArticleNotFound(id))
        && articles == old(articles) && markdown == old(markdown)
      ensures id in old(articles) ==>
        var a := old(articles)[id];
        var a' := Article(a.topic, ReplaceAll(a.content, section, refined),
                          Set(a.metadata, "last_refined", Text(IsoFormat(now))), "refined");
        && articles == old(articles)[id := a']
        && markdown == old(markdown)[id := RefinedMarkdown(a'.topic, a'.metadata, a'.content)]
        && reply == Ok(SectionRefined(id, section, MarkdownFile(id)))
    {
      if id !in articles {
        return Error(ArticleNotFound(id));
      }
      var a := articles[id];
      var meta := Set(a.metadata, "last_refined", Text(IsoFormat(now)));
      SetDistinct(a.metadata, "last_refined", Text(IsoFormat(now)));
      var a' := Article(a.topic, ReplaceAll(a.content, section, refined), meta, "refined");
      articles := articles[id := a'];
      var lines := WriteFields(meta, InternalKeys);
      markdown := markdown[id := FrontMatter(a'.topic, meta, lines) + "# " + a'.topic + "\n\n" + a'.content];
      reply := Ok(SectionRefined(id, section, MarkdownFile(id)));
    }

    /** `list_articles`, given the order in which the directory lists the
        draft files (each draft once): the fixed message for an empty store,
        otherwise the header and one entry per draft in that order. */
    method ListArticles(order: seq<string>) returns (text: string)
      requires forall id :: id in order <==> id in articles
      ensures text == if order == [] then NoDrafts else ListingHeader + Entries(order, articles)
    {
      if |order| == 0 {
        return NoDrafts;
      }
      var entries := "";
      var i := 0;
      while i < |order|
        invariant 0 <= i <= |order|
        invariant entries == Entries(order[..i], articles)
      {
        EntriesSnoc(order, i, articles);
        entries := entries + Entry(order[i], articles[order[i]]);
        i := i + 1;
      }
      assert order[..i] == order;
      text := ListingHeader + entries;
    }
  }

  /** The listing says no drafts were found exactly when the store holds none. */
  lemma ListingEmptyIff(order: seq<string>, drafts: map<string, Article>)
    requires forall id :: id in order <==> id in drafts
    ensures var text := if order == [] then NoDrafts else ListingHeader + Entries(order, drafts);
      text == NoDrafts <==> drafts == map[]
  {
    if order != [] {
      assert order[0] in drafts;
      assert (ListingHeader + Entries(order, drafts))[0] == 'A';
    } else {
      assert forall id :: id !in drafts;
      assert drafts.Keys == {};
    }
  }

  /** Refining with a section text that does not occur leaves the content as it
      was (the refinement is still reported). */
  lemma RefineAbsentSection(content: string, section: string, refined: string)
    requires section != [] && !Contains(content, section)
    ensures ReplaceAll(content, section, refined) == content
  {
    ReplaceAbsent(content, section, refined);
  }

  /** Refining sets `last_refined` and leaves every other metadata key as it was,
      in place. */
  lemma RefineMetadata(meta: Meta, stamp: string, k: string)
    ensures Get(Set(meta, "last_refined", Text(stamp)), k) == if k == "last_refined" then Some(Text(stamp)) else Get(meta, k)
    ensures Keys(Set(meta, "last_refined", Text(stamp))) == if "last_refined" in Keys(meta) then Keys(meta) else Keys(meta) + ["last_refined"]
  {
    SetGet(meta, "last_refined", Text(stamp), k);
    SetKeys(meta, "last_refined", Text(stamp));
  }
}
