# A verified model of a static blog generator's core

This project models the core of a small static-site generator written in
Rust. It covers four parts, with contracts and lemmas that state what each
one does.

1. **The layout renderer.** A store of templates in which every
   `{{fn(args)}}` placeholder is evaluated against the unmodified template
   and then spliced back in from the rightmost to the leftmost. There are
   three placeholder functions:
   - `val(x)` is an argument;
   - `opt(f,a,b)` is one of two literals;
   - `layout(n)` includes another template.
2. **The older `{{name}}` / `{{reusable:name}}` engine.** It finds every
   placeholder and then resolves and splices them in from the right.
3. **A post's event stream.**
   - The frontmatter reader takes the `key: value` lines between the first
     two thematic breaks. A line's text may arrive in several pieces, and a
     soft break or the end of any element (such as the paragraph holding
     the lines) stores it.
   - The metadata is derived from those fields: a strict `YYYY-MM-DD` date
     and its "Month Day, Year" form.
   - The code-block pass replaces each code block with one highlighted HTML
     event.
   - The ids of the layout files are derived from their paths.
4. **Page generation.**
   - The posts are sorted newest first, with a stable sort.
   - The blurbs, the index of the three newest posts, the listing of all
     posts and one page per local post are rendered.
   - The sitemap lists the generated addresses in order.

Modules follow the program's structure:

| module | what it holds |
|---|---|
| `Wrappers` | `Option` and `Result` types |
| `Errors` | every failure, panics included |
| `Text` | the Rust string methods the code calls |
| `Utf8` | byte lengths of text |
| `Events` | the Markdown event stream |
| `Splice` | the reverse-order rewrite both engines share |
| `Layout`, `LayoutProperties`, `LayoutExamples` | the layout renderer, what rendering means, and worked examples |
| `Templating` | the older engine |
| `Frontmatter` | the frontmatter reader |
| `Dates` | date parsing and display |
| `CodeBlocks` | the code-block pass |
| `Posts` | metadata and `render_blog` |
| `LayoutStore` | the layout store built by `layouts()` |
| `Pages` | page generation |

**Panics.** A panic in the program (an `unwrap`, an index or a slice out of
range) is a `Failure` carrying a named error. It is never a precondition.
anyhow's `context` and `with_context` only wrap `Err` values. A panic
unwinds past them, so the model never attaches context to one: the
predicate `Errors.IsPanic` names the panic errors, and `Errors.InContext`
wraps every other error and passes a panic through unchanged.

**Placeholder scanning.** Both regular expressions are decided by
hand-written scanners. The model proves that each scanner finds exactly the
placeholder texts the pattern describes (`MatchAtSound` / `MatchAtComplete`,
`HandlebarAtSound` / `HandlebarAtComplete`). It also proves that the
leftmost-first, non-overlapping match list is unique (`LeftmostUnique`).

**Splicing.** The program splices from the right on the original offsets.
This is related to a left-to-right reference reading, `Splice.Woven`, by
`Splice.SpliceFromRightIsWoven`. That lemma is the reason text between
matches is kept and substituted text is never scanned again.

## Model

| member | source | states |
|---|---|---|
| Layout.MatchAtSound | src/pages/layout.rs:27-28 | a match found at a position is placeholder text: `{{`, a non-empty `[a-z_]` name, `(`, a non-empty `[a-z\,_]` argument list, `)}}` |
| Layout.MatchAtComplete | src/pages/layout.rs:27-28 | placeholder text at a position is always matched there, whole, with exactly its name and argument list |
| Layout.Scan | src/pages/layout.rs:30-31 | the scan yields the leftmost-first, non-overlapping matches: each one starts at the first position after the previous match where a placeholder starts |
| Layout.LeftmostUnique | src/pages/layout.rs:30 | two leftmost-first match lists of the same text are equal, so the scan is the regex's `captures_iter` |
| Text.Split | src/pages/layout.rs:39 | `split(',')` never yields an empty list, no piece holds a comma, and joining the pieces with commas gives the text back |
| Text.SplitJoin | src/pages/layout.rs:39 | splitting a comma-join of comma-free pieces gives the pieces back |
| Text.Span | src/pages/layout.rs:28 | a greedy run of a character class stays inside the text, holds only class characters, and stops at the end or at a character outside the class |
| LayoutProperties.ApplyVal | src/pages/layout.rs:65-71 | `val(x)` succeeds if and only if argument `x` exists; its value is that argument, and its failure names `x` |
| LayoutProperties.ApplyOpt | src/pages/layout.rs:72-81 | `opt(f,a,b)` is the literal `a` exactly when argument `f` is `"true"`, and `b` otherwise, including when `f` is absent; a missing literal is the index panic of `f_args[1]` or `f_args[2]` (`Layout.Arg`) |
| LayoutProperties.ApplyLayout | src/pages/layout.rs:82-87 | `layout(n)` succeeds if and only if template `n` renders with the same arguments; it gives that rendering; an `Err` from the sub-template is wrapped in the sub-template context, and a panic in it is passed through unchanged |
| LayoutProperties.ApplyUnknown | src/pages/layout.rs:88 | every function name other than `val`, `opt` and `layout` fails as unrecognized |
| LayoutProperties.EvalCallsMeaning | src/pages/layout.rs:31-46 | evaluation succeeds if and only if every placeholder does, giving their values in order; otherwise it fails with the leftmost failing placeholder's error, and every placeholder before that one succeeded |
| LayoutProperties.RenderMeaning | src/pages/layout.rs:17-55 | an unknown template fails with "cannot find template"; a placeholder failure aborts with that error and no output; on success the output is the template with every match replaced by its value and all other text kept |
| LayoutProperties.RenderFuelStable | src/pages/layout.rs:82-86 | a render that did not run out of nesting fuel gives the same result under any larger bound, so the bound never changes a real result |
| LayoutExamples.ScanSingle | src/pages/layout.rs:27-31 | a template holding one placeholder and no other `{` scans to exactly that placeholder at its offsets |
| LayoutExamples.ScanNone | src/pages/layout.rs:28 | text without `{` holds no placeholder |
| LayoutExamples.RenderSingle | src/pages/layout.rs:30-54 | a template with one placeholder renders to the text before it, its value, and the text after it; the placeholder's failure is the render's failure |
| LayoutExamples.RenderVerbatim | src/pages/layout.rs:17-54 | a template with no placeholder renders to itself |
| LayoutExamples.HelloWorld | src/pages/layout.rs:65-71 | `"Hello {{val(name)}}!"` with `name = "World"` renders to `"Hello World!"` |
| LayoutExamples.OptExample | src/pages/layout.rs:72-81 | `{{opt(sel,on,off)}}` renders to `on` exactly when `sel` is `"true"`, and to `off` otherwise |
| LayoutExamples.MissingArgument | src/pages/layout.rs:67-69 | `{{val(missing)}}` with no arguments fails naming `missing` |
| LayoutExamples.PageRenders | src/pages/layout.rs:82-86 | `{{layout(header)}}!` renders to the header template's own rendering, with the page's arguments, followed by `!` |
| LayoutExamples.SelfInclusion | src/pages/layout.rs:82-86 | a template that includes itself never renders: whatever the bound, the result is running out of nesting at that template, with no context added |
| LayoutExamples.PanicThroughInclusion | src/pages/layout.rs:72-87 | a page including a template whose `opt` lacks its literals fails with that template's index panic itself, not wrapped in the sub-template context |
| LayoutExamples.BareName | src/pages/layout.rs:28 | the bare `{{name}}` form is not a placeholder of this renderer: the scan finds nothing |
| LayoutExamples.CapitalName | src/pages/layout.rs:28 | a function name with a capital letter is not a placeholder: the scan finds nothing |
| Splice.SpliceFromRightIsWoven | src/pages/layout.rs:48-52 | applying ordered, non-overlapping replacements rightmost first to the original text gives the left-to-right reading: each range replaced and the text between ranges kept |
| Splice.WovenIdentity | src/pages/layout.rs:48-52 | replacing each range by its own original text gives the text back, so only the replaced ranges differ between input and output |
| Splice.WovenCons | src/templating.rs:46-55 | one more replacement to the left of those already made, applied with `replace_range` to the partly rewritten text, extends the left-to-right reading by that replacement |
| Templating.HandlebarAtSound | src/templating.rs:24 | a match found at a position is `{{`, a non-empty run of `[a-zA-Z0-9: .]`, `}}` |
| Templating.HandlebarAtComplete | src/templating.rs:24 | such placeholder text at a position is always matched there, whole |
| Templating.FindAll | src/templating.rs:33 | the placeholders are found leftmost-first and non-overlapping, all within the text |
| Templating.ToPlaceholder | src/templating.rs:84-96 | whatever the text, the resulting name holds no space and does not itself start with `reusable:` |
| Templating.ToPlaceholderOfText | src/templating.rs:84-96 | a placeholder stands for its body with the spaces removed, classified as an import when it starts with `reusable:` |
| Templating.SpacesIgnored | src/templating.rs:85-88 | two placeholders whose bodies agree once spaces are removed are the same placeholder |
| Templating.PrefixedName | src/templating.rs:90-93 | a body starting with `reusable:` is an import of the rest of the body |
| Templating.ReadEncode | src/templating.rs:84-96 | writing a value or an import as `{{name}}` / `{{reusable:name}}` and reading it back gives the same placeholder |
| Templating.ResolveWrittenValue | src/templating.rs:99-126 | a placeholder written `{{name}}` resolves if and only if `name` is among the values, to that value, and otherwise fails naming `name`; the reusables play no part |
| Templating.ResolveWrittenImport | src/templating.rs:99-126 | a placeholder written `{{reusable:name}}` resolves if and only if `name` is among the reusables, to that fragment, and otherwise fails naming `name`; the values play no part |
| Templating.ApplyPlaceholders | src/templating.rs:17-58 | succeeds if and only if every placeholder resolves, with the text where every placeholder is replaced by its value and the rest kept; otherwise fails with the rightmost failing placeholder's error and no partial text |
| Templating.DoneFailure | src/templating.rs:46-50 | a failing placeholder met while working from the right, after all those to its right resolved, is the rightmost failure |
| Text.IndexOf | src/main.rs:331 | `chars().position` gives the first occurrence of the character, and none exactly when it does not occur |
| Text.TrimStartMatches | src/templating.rs:86 | the result is a suffix of the text that does not start with the pattern |
| Text.TrimStartMatchesCopies | src/templating.rs:86 | what is removed in front is a whole number of copies of the pattern |
| Text.TrimEndMatches | src/templating.rs:87 | the result is a prefix of the text that does not end with the pattern |
| Text.TrimEndMatchesCopies | src/templating.rs:87 | what is removed at the end is a whole number of copies of the pattern |
| Text.RemoveCharKeeps | src/templating.rs:88 | `replace(" ", "")` keeps every other character as often as it occurred |
| Text.RemoveCharAppend | src/templating.rs:88 | removal works piece by piece, so the kept characters stay in their original order: removing from two joined strings gives the two results joined |
| Frontmatter.Flush | src/main.rs:329-341 | storing a line fails if and only if the line has no colon, and the error is that line |
| Frontmatter.FlushAt | src/main.rs:331-336 | with the first colon at `pos`, the key is everything before it, untrimmed, and the value is everything after it, trimmed |
| Frontmatter.FlushEntry | src/main.rs:331-336 | a line `key: value` with a colon-free key and a trimmed value is stored as exactly that key and value |
| Frontmatter.TrimIsTrimmed | src/main.rs:333 | `trim` leaves no whitespace at either end |
| Frontmatter.FlushWellFormed | src/main.rs:331-336 | storing a line keeps every key colon-free and every value trimmed |
| Frontmatter.ParseWellFormed | src/main.rs:303-351 | every field read has a colon-free key and a trimmed value |
| Frontmatter.ParseFrom | src/main.rs:308-348 | what is left for the body is always a suffix of the events |
| Frontmatter.BlockRoundTrip | src/main.rs:303-351 | a block of `key: value` lines between two breaks, each line's text in any number of `Text` pieces mixed with ignored events such as the paragraph's start, and each line closed by a soft break or the end of any element, is read back as those entries, with the last one winning for a repeated key, and exactly the events after the block are left for the body |
| Frontmatter.ReadLines | src/main.rs:322-344 | inside the block, written lines of readable entries (text in pieces, closed by a soft break or any end) are stored one after another and reading stops at whatever follows them |
| Frontmatter.ReadPieces | src/main.rs:322-347 | inside a line, `Text` events are appended to the line in order and every event other than a soft break, an end or a break is ignored; nothing is stored |
| Frontmatter.ReadClose | src/main.rs:322-341 | a soft break and the end of any element alike store the current line and start an empty one |
| Frontmatter.ParagraphBlock | src/main.rs:303-351 | a block laid out as a paragraph, with the first line's text in two pieces and the last line closed by the paragraph's end, is read back as its two entries with the body left over |
| Frontmatter.OpeningRule | src/main.rs:311-313 | the first break starts the block |
| Frontmatter.ClosingRule | src/main.rs:345-347 | the second break stops reading and leaves the following events unconsumed |
| Frontmatter.UnclosedBlock | src/main.rs:308-350 | a block of written lines whose events end before a closing break still succeeds with the fields read, and nothing is left for the body |
| Frontmatter.EmptyBlock | src/main.rs:308-347 | two adjacent breaks give no fields and leave the rest for the body |
| Frontmatter.NoBlock | src/main.rs:316-318 | an event other than a break or a soft break before the block fails with "frontmatter not found" |
| Frontmatter.LeadingSoftBreak | src/main.rs:315-331 | a soft break before the block falls through to the line store with an empty line, which fails for lack of a colon |
| Frontmatter.LastEntryWins | src/main.rs:336 | a later line with the same key overwrites the earlier value |
| Frontmatter.StoreKeys | src/main.rs:336 | the keys stored are exactly those already present and those of the lines |
| Frontmatter.FlushAsWritten | src/main.rs:331-333 | the program's reading of a line, with the colon's character position used as a byte offset, fails only for a missing colon or a byte offset inside a character |
| Frontmatter.FlushAsWrittenAscii | src/main.rs:331-333 | on ASCII lines the program's reading equals the intended one |
| Frontmatter.NonAsciiKeyMisread | src/main.rs:331-333 | a `key: value` line whose key has a character beyond ASCII is never read as that key and value by the program |
| Frontmatter.AccentedKeyExample | src/main.rs:331-333 | the line `"é: x"` is meant to store key `é` with value `x`, but the program panics slicing at byte 1 |
| Utf8.CharsInBytesSome | src/main.rs:332-333 | the characters counted for a byte offset take exactly that many bytes |
| Utf8.CharsInBytesNone | src/main.rs:332-333 | a byte offset is rejected only when no prefix of the text is that many bytes long, which is the slicing panic |
| Utf8.AsciiBytes | src/main.rs:332-333 | in ASCII text every byte offset up to the length counts that many characters |
| CodeBlocks.Step | src/main.rs:222-254 | one event only appends to the output and keeps the variables consistent: outside a code block no code is pending |
| CodeBlocks.RunAppend | src/main.rs:221-255 | the loop over two stretches of events is the loop over the first, then over the second from where the first left off; a failure ends it |
| CodeBlocks.RunInvariant | src/main.rs:219-255 | the loop only appends to its output, keeps its variables consistent, and never passes a code-block start or end on |
| CodeBlocks.PassThrough | src/main.rs:231-253 | outside a code block, every event other than a code-block start or end is forwarded unchanged and in order |
| CodeBlocks.StrayEnd | src/main.rs:239-242 | the end of a code block that was never opened is dropped |
| CodeBlocks.CollectTexts | src/main.rs:231-236 | inside a code block, text is accumulated and nothing is forwarded |
| CodeBlocks.WholeBlock | src/main.rs:223-250 | a whole code block becomes exactly one HTML event of its highlighted code, and the loop returns to the outside state; an unknown fenced language or a highlighter failure is an error; an indented block uses the last fenced block's syntax |
| CodeBlocks.UnclosedBlock | src/main.rs:221-255 | the code of a block still open when the events run out is never emitted |
| Dates.ParseDate | src/main.rs:364 | a date that is read is a real calendar day, and a failure names the text |
| Dates.ParseIsoText | src/main.rs:364 | the `YYYY-MM-DD` text of a day reads back as that day |
| Dates.ParsedIsIsoText | src/main.rs:364 | every accepted text is the canonical text of the day it reads |
| Dates.ReadDisplayed | src/main.rs:369 | the "Month Day, Year" form of a day reads back as that day |
| Dates.DisplayDateInjective | src/main.rs:369 | two days shown alike are the same day |
| Dates.DisplayExample | src/main.rs:369 | 3 June 2024 is shown as `June 3, 2024` |
| Dates.EarlierTransitive | src/pages.rs:33 | the order on dates is transitive |
| Dates.EarlierTotal | src/pages.rs:33 | any two dates are equal or ordered one way or the other |
| Posts.FrontmatterToMeta | src/main.rs:362-374 | succeeds if and only if `publishDate` is present and a valid date and `title` and `excerpt` are present; the failures come in the program's order; `slug` defaults to empty and `external` is kept exactly when present |
| Posts.MetaRoundTrip | src/main.rs:362-374 | metadata written as frontmatter fields reads back as the same metadata |
| Posts.RenderBlog | src/main.rs:201-271 | an `Err` from the frontmatter is reported with the post's name; a panic there, such as a line without a colon, is passed through unchanged; a rendered post carries the name as its id and had readable frontmatter |
| Posts.RenderWrittenPost | src/main.rs:201-271 | a post written as a block of lines that write its metadata entries (in the order title, publishDate, excerpt, slug, then external when present), laid out in any way the reader accepts, followed by a body renders if and only if the body does, to that metadata and the body's HTML |
| Posts.RenderAnyWrittenPost | src/main.rs:201-271 | a post whose frontmatter block is any list of written lines, in any key order, with or without a slug line and with keys repeated, renders if and only if the metadata read from the stored lines (last line of a key winning) and the body both succeed; a metadata failure comes before a body failure, and the post carries that metadata and the body's HTML |
| LayoutStore.IdOfLayoutPath | src/main.rs:176-177 | the path `./layouts/<name>.layout.html` has id `name` (`LayoutStore.LayoutId`) when the suffix does not also occur within the name |
| LayoutStore.DeleteFinal | src/main.rs:177 | deleting a pattern that starts only at the very end leaves what comes before it |
| Text.DeleteNone | src/main.rs:177 | `replace(suffix, "")` leaves a path in which the suffix occurs nowhere exactly as it is |
| Text.DeleteFirst | src/main.rs:177 | `replace(suffix, "")` deletes the leftmost occurrence whole, keeps what precedes it, and resumes after it, so occurrences are deleted left to right without overlap; with `Text.DeleteNone` this pins the layout id for every path, not only one ending in a single suffix |
| LayoutStore.LoadLayoutsSucceeds | src/main.rs:169-184 | building the store succeeds if and only if every path is long enough for `LayoutStore.LayoutId` to cut the directory off |
| LayoutStore.LoadLayoutsKeys | src/main.rs:172-181 | the ids in the store are exactly those of the files |
| LayoutStore.LoadLayoutsLastWins | src/main.rs:180 | each id holds the contents of the last file with that id |
| LayoutStore.LaterReplaces | src/main.rs:180 | of two files with the same id, the later one's contents are kept |
| Pages.Insert | src/pages.rs:33 | inserting keeps the posts as a multiset plus the new one and keeps them newest first |
| Pages.SortByDate | src/pages.rs:33 | sorting gives a permutation of the posts, newest first |
| Pages.SortStable | src/pages.rs:33 | for every day, that day's posts keep their input order |
| Pages.SortExample | src/pages.rs:33 | posts of 2024-01-01, 2024-03-01 and 2023-12-31 come out as 2024-03-01, 2024-01-01, 2023-12-31 |
| Pages.NewPages | src/pages.rs:32-40 | a new generator holds the posts newest first, as a permutation that keeps each day's order, and an empty page list |
| Pages.LinkMeaning | src/pages.rs:116-119 | the link is the external address when there is one; otherwise it is `/posts/<slug>/`, from which the slug reads back, and an empty slug gives `/posts//` |
| Pages.Blurbs | src/pages.rs:46-49 | the joined blurbs succeed if and only if every blurb renders, and they are the blurbs concatenated in order; each blurb is the `blurb` layout given the post's title, excerpt, display date and link (`Pages.BlurbArgs`) |
| Pages.BlurbsFirstFailure | src/pages.rs:67-70 | when a blurb fails, the error is that of the first failing one |
| Pages.GenerateIndex | src/pages.rs:42-63 | fewer than three posts is the slice panic; otherwise the index succeeds if and only if the three newest blurbs and the `index` layout render; it writes `index.html` with their blurbs as `latest_posts` and records the site root |
| Pages.LocalPosts | src/pages.rs:91 | a post is given a page if and only if it is one of the posts and has no external address |
| Pages.LocalPostsAppend | src/pages.rs:91 | filtering keeps the order of the posts: the local posts of two runs joined are those of the first run followed by those of the second |
| Pages.PostPages | src/pages.rs:91-108 | the post pages succeed if and only if every local post's page renders, and they come in order; each page is the `post` layout given the post's title, excerpt as description, display date and HTML as contents (`Pages.PostArgs`) |
| Pages.PostUrls | src/pages.rs:106-107 | one recorded address per local post, the address of its page, in order |
| Pages.GenerateAllPosts | src/pages.rs:65-111 | succeeds if and only if every blurb, the listing (the `all_posts` layout given the joined blurbs as `posts` and `posts_selected` as `"true"`, `Pages.ListingArgs`) and every local post page render; an `Err` from the listing is reported as a failure of the listing page, and a panic there is passed through unchanged; the listing comes first, then one page per local post in order, and the listing's address and each post's address are recorded |
| Pages.SitemapLines | src/pages.rs:133-140 | the sitemap's lines, read back, are the recorded addresses in order |
| Pages.SitemapIsJoin | src/pages.rs:135-137 | the sitemap is the addresses each followed by a newline |
| Pages.SiteOutline | src/main.rs:154-159 | a successful run writes the index, the listing, one page per local post newest first, and a sitemap listing the site root, the listing and the local posts' addresses in that order |

## Left out

- File and directory I/O is not modelled. This covers `walk_directory`, `fs::read_to_string`, `File::create`, `create_dir_all` and `write_all`. Pages are returned as (path, contents) values and the layout store is built from a list of (path, contents) pairs.
- `src/repo.rs` and the command-line, watch and HTTP-server code of `src/main.rs` are left out. They are foreign calls and async plumbing with no logic of their own.
- Markdown parsing by pulldown-cmark is not modelled: a post is given as its event stream. HTML serialisation (`push_html`) is a function parameter.
- syntect is a parameter (`CodeBlocks.Highlighter`). Its syntax lookup by extension and its highlighting are partial functions supplied by the caller.
- chrono's date parsing is modelled as a strict `YYYY-MM-DD` reader with four-digit years (0 to 9999). chrono's leniency is not modelled, for example its signed or longer years.
- The regular-expression engines are replaced by deterministic scanners over the same character classes. Strings are sequences of characters, so match offsets are character offsets rather than byte offsets. For the splice this changes nothing, because the offsets are only used to cut the same text.
- `layout()` recursion has no bound in the program and overflows the stack on a cycle. The model bounds nesting with fuel instead. Running out of fuel is a separate error (`IsFuelFailure`). Like the stack overflow it stands for, it aborts the run and gets no context (`IsPanic`), and `LayoutProperties.RenderFuelStable` shows that fuel never changes a result that did not run out of it. No depth-limit error is claimed for the program.
- The debug `println!` of each match in `src/templating.rs:34` is left out.
- `templating.rs` is not declared as a module by the binary. It is modelled on its own, with no call sites.
- Posts.RenderBlog: its contract states only the frontmatter failures, the id, and that a rendered post had readable frontmatter. The full success case is stated about any written frontmatter block by `Posts.RenderAnyWrittenPost`, about a block written from metadata by `Posts.RenderWrittenPost`, and the metadata case by `Posts.FrontmatterToMeta`.
- Pages.GenerateSite has no contract of its own. What a successful run produces is stated by `Pages.SiteOutline`.
- Layout.Render has no contract of its own. Its meaning is stated by `LayoutProperties.RenderMeaning`, `LayoutProperties.EvalCallsMeaning` and the `Apply*` lemmas.
- Where the documented behaviour and the code differ, the model follows the code:
  - A soft break before the opening break is not skipped. It stores an empty line and fails for lack of a colon.
  - A fenced code block with an unknown language fails instead of falling back to plain text.
  - A post with an empty slug links to `/posts//`, not to the site root.
  - The program has no depth-limit error for nested layouts.
- Outside the Findings row below, strings are sequences of characters. The byte-offset slicing of the frontmatter line is modelled only in `Frontmatter.FlushAsWritten` and its lemmas. The rest of the model uses the intended, character-based reading.

## Findings

| source | as written | input that shows it | evidently intended | confidence | as-written member | corrected member |
|---|---|---|---|---|---|---|
| src/main.rs:331-333 | the colon's position is counted in characters (`chars().position`) but used as a byte offset to slice the line | the frontmatter line `"é: x"`: the colon is character 1, and byte 1 falls inside the two-byte `é`, so `building[..1]` panics; any key with a non-ASCII character is panicked on or cut short | the key is the text before the first colon (`é`) and the value is the trimmed rest (`x`) | not executed | Frontmatter.NonAsciiKeyMisread, Frontmatter.AccentedKeyExample (on Frontmatter.FlushAsWritten) | Frontmatter.FlushEntry (on Frontmatter.Flush); Frontmatter.FlushAsWrittenAscii shows the two agree on ASCII lines |
