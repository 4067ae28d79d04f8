/** Turning a post into a `Blog` (`render_blog` and `frontmatter_to_meta` in
    `src/main.rs`): its frontmatter becomes the metadata, and its body, with
    code blocks highlighted, becomes HTML. Markdown parsing and HTML
    serialisation are parameters. */
module Posts {
  import opened Wrappers
  import opened Errors
  import opened Events
  import opened Dates
  import Frontmatter
  import CodeBlocks

  /** The metadata read from a post's frontmatter. */
  datatype Meta = Meta(title: string, publishDate: Date, displayDate: string, excerpt: string,
                       slug: string, external: Option<string>)

  /** A rendered post. */
  datatype Blog = Blog(id: string, title: string, publishDate: Date, displayDate: string,
                       excerpt: string, html: string, slug: string, external: Option<string>)

  /** The key's value, if present (`HashMap::get`). */
  function Get(fm: Frontmatter.Fields, key: string): Option<string> {
    if key in fm then Some(fm[key]) else None
  }

  /** `frontmatter_to_meta`: `publishDate` is required and must be a date,
      then `title` and `excerpt` are required (each `unwrap` in that order);
      `slug` defaults to the empty string and `external` is kept when
      present. */
  function FrontmatterToMeta(fm: Frontmatter.Fields): (r: Result<Meta, Error>)
    ensures r.Success? <==>
      && "publishDate" in fm && ParseDate(fm["publishDate"]).Success?
      && "title" in fm && "excerpt" in fm
    ensures r.Success? ==>
      && r.value.title == fm["title"] && r.value.excerpt == fm["excerpt"]
      && r.value.publishDate == ParseDate(fm["publishDate"]).value
      && IsoText(r.value.publishDate) == fm["publishDate"]
      && ReadDisplayDate(r.value.displayDate) == Some(r.value.publishDate)
      && (r.value.slug == if "slug" in fm then fm["slug"] else "")
      && (r.value.external.Some? <==> "external" in fm)
      && (r.value.external.Some? ==> r.value.external.value == fm["external"])
    ensures "publishDate" !in fm ==> r == Failure(MissingField("publishDate"))
    ensures "publishDate" in fm && ParseDate(fm["publishDate"]).Failure? ==>
      r == Failure(MalformedDate(fm["publishDate"]))
    ensures "publishDate" in fm && ParseDate(fm["publishDate"]).Success? && "title" !in fm ==>
      r == Failure(MissingField("title"))
    ensures "publishDate" in fm && ParseDate(fm["publishDate"]).Success? && "title" in fm && "excerpt" !in fm ==>
      r == Failure(MissingField("excerpt"))
  {
    if "publishDate" !in fm then Failure(MissingField("publishDate"))
    else
      var date :- ParseDate(fm["publishDate"]);
      ParsedIsIsoText(fm["publishDate"]);
      ReadDisplayed(date);
      if "title" !in fm then Failure(MissingField("title"))
      else if "excerpt" !in fm then Failure(MissingField("excerpt"))
      else Success(Meta(fm["title"], date, DisplayDate(date), fm["excerpt"],
                        Get(fm, "slug").GetOr(""), Get(fm, "external")))
  }

  /** A post's metadata written back as frontmatter fields. */
  function MetaFields(m: Meta): Frontmatter.Fields
    requires Valid(m.publishDate)
  {
    var base := map["title" := m.title, "publishDate" := IsoText(m.publishDate),
                    "excerpt" := m.excerpt, "slug" := m.slug];
    match m.external
    case None => base
    case Some(url) => base["external" := url]
  }

  /** Metadata whose shown date is that of its publication date. */
  predicate Coherent(m: Meta) {
    Valid(m.publishDate) && m.displayDate == DisplayDate(m.publishDate)
  }

  /** Writing metadata as fields and reading them back gives it back. */
  lemma MetaRoundTrip(m: Meta)
    requires Coherent(m)
    ensures FrontmatterToMeta(MetaFields(m)) == Success(m)
  {
    var fm := MetaFields(m);
    ParseIsoText(m.publishDate);
    MetaFieldsValues(m);
    var r := FrontmatterToMeta(fm);
    assert r.Success?;
    assert r.value.publishDate == m.publishDate;
    assert r.value.external == m.external;
  }

  lemma MetaFieldsValues(m: Meta)
    requires Valid(m.publishDate)
    ensures var fm := MetaFields(m);
      && "title" in fm && fm["title"] == m.title
      && "publishDate" in fm && fm["publishDate"] == IsoText(m.publishDate)
      && "excerpt" in fm && fm["excerpt"] == m.excerpt
      && "slug" in fm && fm["slug"] == m.slug
      && ("external" in fm <==> m.external.Some?)
      && (m.external.Some? ==> fm["external"] == m.external.value)
  {
    assert "external" != "title" && "external" != "publishDate" && "external" != "excerpt" && "external" != "slug";
  }

  /** The HTML of a post's body: the code-block pass, then serialisation by
      `pushHtml` (`html::push_html`). */
  function BodyHtml(h: CodeBlocks.Highlighter, pushHtml: seq<Event> -> string, body: seq<Event>)
    : Result<string, Error>
  {
    var events :- CodeBlocks.HighlightCode(h, body);
    Success(pushHtml(events))
  }

  /** `render_blog`: the frontmatter is read (an `Err` from it reported with
      the post's name; the panic of a line without a colon carries no such
      context), turned into metadata, and the rest of the events are
      rendered as the post's HTML. */
  function RenderBlog(name: string, events: seq<Event>, h: CodeBlocks.Highlighter,
                      pushHtml: seq<Event> -> string): (r: Result<Blog, Error>)
    ensures var fm := Frontmatter.ParseFrontmatter(events);
      fm.Failure? && IsPanic(fm.error) ==> r == Failure(fm.error)
    ensures var fm := Frontmatter.ParseFrontmatter(events);
      fm.Failure? && !IsPanic(fm.error) ==> r == Failure(InFrontmatterOf(name, fm.error))
    ensures r.Success? ==> r.value.id == name && Frontmatter.ParseFrontmatter(events).Success?
  {
    var parsed :- Frontmatter.ParseFrontmatter(events).MapFailure(e => InContext(e, InFrontmatterOf(name, e)));
    var meta :- FrontmatterToMeta(parsed.fields);
    var html :- BodyHtml(h, pushHtml, parsed.rest);
    Success(Blog(name, meta.title, meta.publishDate, meta.displayDate, meta.excerpt, html,
                 meta.slug, meta.external))
  }

  /** The frontmatter lines of a post with the given metadata. */
  function MetaEntries(m: Meta): seq<Frontmatter.Entry>
    requires Valid(m.publishDate)
  {
    var base := [Frontmatter.Entry("title", m.title), Frontmatter.Entry("publishDate", IsoText(m.publishDate)),
                 Frontmatter.Entry("excerpt", m.excerpt), Frontmatter.Entry("slug", m.slug)];
    match m.external
    case None => base
    case Some(url) => base + [Frontmatter.Entry("external", url)]
  }

  /** A post written as a frontmatter block of its metadata followed by its
      body is read back as that metadata with the body rendered: nothing of
      the block leaks into the body and nothing of the body into the
      metadata. The lines may be laid out in any way that writes the
      entries: in a paragraph, with text in pieces, closed by a soft break
      or the paragraph's end. */
  lemma RenderWrittenPost(name: string, m: Meta, lines: seq<Frontmatter.WrittenLine>, body: seq<Event>,
                          h: CodeBlocks.Highlighter, pushHtml: seq<Event> -> string)
    requires Coherent(m)
    requires Frontmatter.AllWritten(lines) && Frontmatter.EntriesOf(lines) == MetaEntries(m)
    ensures var r := RenderBlog(name, Frontmatter.Block(lines) + body, h, pushHtml);
      var html := BodyHtml(h, pushHtml, body);
      && (r.Success? <==> html.Success?)
      && (r.Success? ==> r.value == Blog(name, m.title, m.publishDate, m.displayDate, m.excerpt,
                                         html.value, m.slug, m.external))
  {
    Frontmatter.BlockRoundTrip(lines, body);
    StoreMetaEntries(m);
    MetaRoundTrip(m);
  }

  /** A post whose frontmatter block is made of written lines, in any key
      order, with or without a slug line and with keys repeated, renders as
      the metadata read from the stored lines (the last line of a key
      winning) together with the body's HTML; a metadata failure comes
      first, then a body failure. */
  lemma RenderAnyWrittenPost(name: string, lines: seq<Frontmatter.WrittenLine>, body: seq<Event>,
                             h: CodeBlocks.Highlighter, pushHtml: seq<Event> -> string)
    requires Frontmatter.AllWritten(lines)
    ensures var r := RenderBlog(name, Frontmatter.Block(lines) + body, h, pushHtml);
      var meta := FrontmatterToMeta(Frontmatter.Store(map[], Frontmatter.EntriesOf(lines)));
      var html := BodyHtml(h, pushHtml, body);
      && (r.Success? <==> meta.Success? && html.Success?)
      && (meta.Failure? ==> r == Failure(meta.error))
      && (meta.Success? && html.Failure? ==> r == Failure(html.error))
      && (r.Success? ==> r.value == Blog(name, meta.value.title, meta.value.publishDate, meta.value.displayDate,
                                         meta.value.excerpt, html.value, meta.value.slug, meta.value.external))
  {
    Frontmatter.BlockRoundTrip(lines, body);
  }

  lemma StoreMetaEntries(m: Meta)
    requires Valid(m.publishDate)
    ensures Frontmatter.Store(map[], MetaEntries(m)) == MetaFields(m)
  {
    var e := MetaEntries(m);
    var s0: Frontmatter.Fields := map[];
    var s1 := s0[e[0].key := e[0].value];
    var s2 := s1[e[1].key := e[1].value];
    var s3 := s2[e[2].key := e[2].value];
    var s4 := s3[e[3].key := e[3].value];
    StoreStep(s0, e, s1);
    StoreStep(s1, e[1..], s2);
    StoreStep(s2, e[2..], s3);
    StoreStep(s3, e[3..], s4);
    match m.external
    case None =>
      assert e[4..] == [];
    case Some(url) =>
      StoreStep(s4, e[4..], s4[e[4].key := e[4].value]);
      assert e[5..] == [];
  }

  lemma StoreStep(fields: Frontmatter.Fields, entries: seq<Frontmatter.Entry>, next: Frontmatter.Fields)
    requires |entries| > 0 && next == fields[entries[0].key := entries[0].value]
    ensures Frontmatter.Store(fields, entries) == Frontmatter.Store(next, entries[1..])
  {
  }
}
