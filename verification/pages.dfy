/** Page generation (`src/pages.rs`): the posts are ordered newest first,
    then the index, the listing of all posts, one page per local post and
    the sitemap are rendered. A page is returned as its output path and
    contents; writing the files is not modelled. */
module Pages {
  import opened Wrappers
  import opened Errors
  import opened Text
  import opened Dates
  import opened Posts
  import opened Layout

  const SiteRoot := "https://jamesholdren.com"

  /** `a` was published on a later day than `b`. */
  predicate Newer(a: Blog, b: Blog) {
    Earlier(b.publishDate, a.publishDate)
  }

  /** No post is older than one after it. */
  predicate NewestFirst(blogs: seq<Blog>) {
    forall i, j :: 0 <= i < j < |blogs| ==> !Newer(blogs[j], blogs[i])
  }

  /** `b` put into newest-first `blogs` after every strictly newer post and
      before the others, so that it comes first among posts of its day. */
  function Insert(b: Blog, blogs: seq<Blog>): (r: seq<Blog>)
    ensures multiset(r) == multiset(blogs) + multiset{b}
    ensures NewestFirst(blogs) ==> NewestFirst(r)
    decreases |blogs|
  {
    if |blogs| == 0 || !Newer(blogs[0], b) then
      PrependNewest(b, blogs);
      [b] + blogs
    else
      var rest := Insert(b, blogs[1..]);
      assert blogs == [blogs[0]] + blogs[1..];
      PrependBehind(b, blogs, rest);
      [blogs[0]] + rest
  }

  /** A post no older than the first of a newest-first list may go first. */
  lemma PrependNewest(b: Blog, blogs: seq<Blog>)
    requires |blogs| == 0 || !Newer(blogs[0], b)
    ensures NewestFirst(blogs) ==> NewestFirst([b] + blogs)
  {
    if NewestFirst(blogs) && |blogs| > 0 {
      var all := [b] + blogs;
      forall i, j | 0 <= i < j < |all| ensures !Newer(all[j], all[i]) {
        assert all[j] == blogs[j - 1];
        if i == 0 {
          assert !Newer(blogs[j - 1], blogs[0]);
          if Newer(blogs[j - 1], b) {
            EarlierTransitive(b.publishDate, blogs[0].publishDate, blogs[j - 1].publishDate);
          }
        } else {
          assert all[i] == blogs[i - 1];
        }
      }
    }
  }

  /** The first post stays in front of `rest`, the others with `b` put in,
      when it is newer than `b`. */
  lemma PrependBehind(b: Blog, blogs: seq<Blog>, rest: seq<Blog>)
    requires |blogs| > 0 && Newer(blogs[0], b)
    requires multiset(rest) == multiset(blogs[1..]) + multiset{b}
    requires NewestFirst(blogs[1..]) ==> NewestFirst(rest)
    ensures NewestFirst(blogs) ==> NewestFirst([blogs[0]] + rest)
  {
    if NewestFirst(blogs) {
      var tail := blogs[1..];
      assert NewestFirst(tail) by {
        forall i, j | 0 <= i < j < |tail| ensures !Newer(tail[j], tail[i]) {
          assert tail[i] == blogs[i + 1] && tail[j] == blogs[j + 1];
        }
      }
      var all := [blogs[0]] + rest;
      forall i, j | 0 <= i < j < |all| ensures !Newer(all[j], all[i]) {
        assert all[j] == rest[j - 1];
        if i == 0 {
          var x := rest[j - 1];
          assert x in multiset(rest);
          if x != b {
            assert x in multiset(tail);
            var k :| 0 <= k < |tail| && tail[k] == x;
            assert blogs[k + 1] == x;
          }
        } else {
          assert all[i] == rest[i - 1];
        }
      }
    }
  }

  /** `Pages::new`: the posts ordered newest first. Rust's `sort_by` is
      stable, and so is this insertion sort: posts of the same day keep the
      order they were given in. */
  function SortByDate(blogs: seq<Blog>): (r: seq<Blog>)
    ensures multiset(r) == multiset(blogs)
    ensures NewestFirst(r)
    decreases |blogs|
  {
    if |blogs| == 0 then []
    else
      assert blogs == [blogs[0]] + blogs[1..];
      Insert(blogs[0], SortByDate(blogs[1..]))
  }

  /** The posts of day `d`, in order. */
  function OfDay(blogs: seq<Blog>, d: Date): seq<Blog> {
    if |blogs| == 0 then []
    else (if blogs[0].publishDate == d then [blogs[0]] else []) + OfDay(blogs[1..], d)
  }

  lemma {:induction false} InsertOfDay(b: Blog, blogs: seq<Blog>, d: Date)
    ensures OfDay(Insert(b, blogs), d) == (if b.publishDate == d then [b] else []) + OfDay(blogs, d)
    decreases |blogs|
  {
    if |blogs| == 0 || !Newer(blogs[0], b) {
      assert ([b] + blogs)[1..] == blogs;
    } else {
      var rest := Insert(b, blogs[1..]);
      assert ([blogs[0]] + rest)[1..] == rest;
      InsertOfDay(b, blogs[1..], d);
      assert blogs[0].publishDate != b.publishDate;
    }
  }

  /** The sort is stable: for every day, the posts of that day appear in
      the sorted list in the order they were given. */
  lemma {:induction false} SortStable(blogs: seq<Blog>, d: Date)
    ensures OfDay(SortByDate(blogs), d) == OfDay(blogs, d)
    decreases |blogs|
  {
    if |blogs| > 0 {
      SortStable(blogs[1..], d);
      InsertOfDay(blogs[0], SortByDate(blogs[1..]), d);
    }
  }

  /** Posts dated 2024-01-01, 2024-03-01 and 2023-12-31 are ordered
      2024-03-01, 2024-01-01, 2023-12-31. */
  lemma SortExample(a: Blog, b: Blog, c: Blog)
    requires a.publishDate == Date(2024, 1, 1) && b.publishDate == Date(2024, 3, 1)
    requires c.publishDate == Date(2023, 12, 31)
    ensures SortByDate([a, b, c]) == [b, a, c]
  {
    SortThree(a, b, c);
  }

  /** A newer second post moves in front of the first; an older third
      stays last. */
  lemma SortThree(a: Blog, b: Blog, c: Blog)
    requires Newer(b, a) && !Newer(c, a) && !Newer(c, b)
    ensures SortByDate([a, b, c]) == [b, a, c]
  {
    SortOrdered(b, c);
    var bc := [b, c];
    SortCons([a, b, c]);
    assert [a, b, c][1..] == bc;
    InsertPast(a, bc);
    assert bc[1..] == [c];
    InsertFront(a, [c]);
    assert [b] + ([a] + [c]) == [b, a, c];
  }

  /** Two posts already newest first stay as they are. */
  lemma SortOrdered(b: Blog, c: Blog)
    requires !Newer(c, b)
    ensures SortByDate([b, c]) == [b, c]
  {
    SortCons([c]);
    InsertFront(c, []);
    SortCons([b, c]);
    assert [b, c][1..] == [c];
    InsertFront(b, [c]);
  }

  lemma SortCons(blogs: seq<Blog>)
    requires |blogs| > 0
    ensures SortByDate(blogs) == Insert(blogs[0], SortByDate(blogs[1..]))
  {
  }

  lemma InsertFront(b: Blog, blogs: seq<Blog>)
    requires |blogs| == 0 || !Newer(blogs[0], b)
    ensures Insert(b, blogs) == [b] + blogs
  {
  }

  lemma InsertPast(b: Blog, blogs: seq<Blog>)
    requires |blogs| > 0 && Newer(blogs[0], b)
    ensures Insert(b, blogs) == [blogs[0]] + Insert(b, blogs[1..])
  {
  }

  /** Where a blurb links to: the post's external address if it has one,
      otherwise its own page (`/posts/<slug>/`). */
  function Link(b: Blog): string {
    b.external.GetOr("/posts/" + b.slug + "/")
  }

  /** A post's link is its external address when it has one; otherwise it
      is the local page, from which the slug can be read back, so two local
      posts share a link only when they share a slug. An empty slug gives
      `/posts//`, not the site root. */
  lemma LinkMeaning(b: Blog)
    ensures b.external.Some? ==> Link(b) == b.external.value
    ensures b.external.None? ==>
      var l := Link(b);
      && |l| == |b.slug| + 8 && StartsWith(l, "/posts/") && l[|l| - 1] == '/'
      && l[7..|l| - 1] == b.slug
    ensures b.external.None? && b.slug == "" ==> Link(b) == "/posts//"
  {
    if b.external.None? {
      var l := Link(b);
      assert l == "/posts/" + b.slug + "/";
      assert l[..7] == "/posts/";
      assert l[7..|l| - 1] == b.slug;
    }
  }

  /** The arguments of a post's blurb. */
  function BlurbArgs(b: Blog): (args: map<string, string>)
    ensures args.Keys == {"title", "excerpt", "publish_date", "link"}
    ensures args["title"] == b.title && args["excerpt"] == b.excerpt
    ensures args["publish_date"] == b.displayDate && args["link"] == Link(b)
  {
    map["title" := b.title, "excerpt" := b.excerpt, "publish_date" := b.displayDate, "link" := Link(b)]
  }

  /** `blog_to_blurb`: the `blurb` layout rendered for one post. */
  function Blurb(r: Renderer, b: Blog): Result<string, Error> {
    r.RenderLayout("blurb", BlurbArgs(b))
  }

  /** Every post's blurb renders. */
  predicate AllBlurbs(r: Renderer, blogs: seq<Blog>) {
    forall k :: 0 <= k < |blogs| ==> Blurb(r, blogs[k]).Success?
  }

  /** The blurbs of posts whose blurbs all render, in order. */
  function BlurbTexts(r: Renderer, blogs: seq<Blog>): (texts: seq<string>)
    requires AllBlurbs(r, blogs)
    ensures |texts| == |blogs|
    ensures forall k :: 0 <= k < |blogs| ==> Blurb(r, blogs[k]) == Success(texts[k])
  {
    seq(|blogs|, k requires 0 <= k < |blogs| => Blurb(r, blogs[k]).value)
  }

  /** The blurbs of the posts joined in order (the loops of
      `generate_index` and `generate_all_posts`): it succeeds when every
      blurb renders, and the first that does not is the error. */
  function Blurbs(r: Renderer, blogs: seq<Blog>): (res: Result<string, Error>)
    ensures res.Success? <==> AllBlurbs(r, blogs)
    ensures res.Success? ==> res.value == Concat(BlurbTexts(r, blogs))
    decreases |blogs|
  {
    if |blogs| == 0 then Success("")
    else
      var first :- Blurb(r, blogs[0]);
      var rest :- Blurbs(r, blogs[1..]);
      BlurbsCons(r, blogs);
      Success(first + rest)
  }

  lemma BlurbsCons(r: Renderer, blogs: seq<Blog>)
    requires |blogs| > 0
    ensures AllBlurbs(r, blogs) <==> Blurb(r, blogs[0]).Success? && AllBlurbs(r, blogs[1..])
    ensures AllBlurbs(r, blogs) ==>
      BlurbTexts(r, blogs) == [Blurb(r, blogs[0]).value] + BlurbTexts(r, blogs[1..])
  {
    AllBlurbsCons(r, blogs);
    if AllBlurbs(r, blogs) {
      BlurbTextsCons(r, blogs);
    }
  }

  lemma AllBlurbsCons(r: Renderer, blogs: seq<Blog>)
    requires |blogs| > 0
    ensures AllBlurbs(r, blogs) <==> Blurb(r, blogs[0]).Success? && AllBlurbs(r, blogs[1..])
  {
    var tail := blogs[1..];
    if AllBlurbs(r, blogs) {
      forall k | 0 <= k < |tail| ensures Blurb(r, tail[k]).Success? {
        assert tail[k] == blogs[k + 1];
      }
    }
    if Blurb(r, blogs[0]).Success? && AllBlurbs(r, tail) {
      forall k | 0 <= k < |blogs| ensures Blurb(r, blogs[k]).Success? {
        if k > 0 { assert blogs[k] == tail[k - 1]; }
      }
    }
  }

  lemma BlurbTextsCons(r: Renderer, blogs: seq<Blog>)
    requires |blogs| > 0 && AllBlurbs(r, blogs) && AllBlurbs(r, blogs[1..])
    ensures BlurbTexts(r, blogs) == [Blurb(r, blogs[0]).value] + BlurbTexts(r, blogs[1..])
  {
    var whole, tail := BlurbTexts(r, blogs), BlurbTexts(r, blogs[1..]);
    var joined := [Blurb(r, blogs[0]).value] + tail;
    forall k | 0 <= k < |whole| ensures whole[k] == joined[k] {
      if k > 0 {
        assert blogs[k] == blogs[1..][k - 1];
        assert Blurb(r, blogs[k]) == Success(tail[k - 1]);
      }
    }
  }

  /** When some blurb fails, the error is that of the first failing one. */
  lemma {:induction false} BlurbsFirstFailure(r: Renderer, blogs: seq<Blog>, k: nat)
    requires k < |blogs| && Blurb(r, blogs[k]).Failure?
    requires forall j :: 0 <= j < k ==> Blurb(r, blogs[j]).Success?
    ensures Blurbs(r, blogs) == Failure(Blurb(r, blogs[k]).error)
    decreases k
  {
    if k == 0 {
      BlurbsFailFirst(r, blogs);
    } else {
      var tail := blogs[1..];
      assert tail[k - 1] == blogs[k];
      forall j | 0 <= j < k - 1 ensures Blurb(r, tail[j]).Success? {
        assert tail[j] == blogs[j + 1];
      }
      BlurbsFirstFailure(r, tail, k - 1);
      BlurbsPassFirst(r, blogs);
    }
  }

  /** A first blurb that fails is the failure. */
  lemma BlurbsFailFirst(r: Renderer, blogs: seq<Blog>)
    requires |blogs| > 0 && Blurb(r, blogs[0]).Failure?
    ensures Blurbs(r, blogs) == Failure(Blurb(r, blogs[0]).error)
  {
  }

  /** A first blurb that renders hands a later failure on. */
  lemma BlurbsPassFirst(r: Renderer, blogs: seq<Blog>)
    requires |blogs| > 0 && Blurb(r, blogs[0]).Success? && Blurbs(r, blogs[1..]).Failure?
    ensures Blurbs(r, blogs) == Failure(Blurbs(r, blogs[1..]).error)
  {
  }

  /** The generator's state: the renderer, the posts newest first, and the
      addresses of the pages generated so far. */
  datatype Pages = Pages(renderer: Renderer, blogs: seq<Blog>, pageList: seq<string>)

  /** One generated file: its path under the output directory and contents. */
  datatype Page = Page(path: string, contents: string)

  /** The state after a step, and the pages it produced. */
  datatype Generated = Generated(state: Pages, pages: seq<Page>)

  /** `Pages::new`: the posts are sorted newest first, and no page has been
      generated yet. */
  function NewPages(blogs: seq<Blog>, renderer: Renderer): (p: Pages)
    ensures p.renderer == renderer && p.pageList == []
    ensures NewestFirst(p.blogs) && multiset(p.blogs) == multiset(blogs)
    ensures forall d :: OfDay(p.blogs, d) == OfDay(blogs, d)
  {
    forall d ensures OfDay(SortByDate(blogs), d) == OfDay(blogs, d) {
      SortStable(blogs, d);
    }
    Pages(renderer, SortByDate(blogs), [])
  }

  /** `generate_index`: the `index` layout with the blurbs of the three
      newest posts as `latest_posts`; fewer than three posts is the panic
      of slicing `[0..3]`. The site root is recorded. */
  function GenerateIndex(p: Pages): (r: Result<Generated, Error>)
    ensures |p.blogs| < 3 ==> r == Failure(TooFewPosts(|p.blogs|))
    ensures r.Success? <==>
      && |p.blogs| >= 3 && AllBlurbs(p.renderer, p.blogs[..3])
      && p.renderer.RenderLayout("index", map["latest_posts" := Concat(BlurbTexts(p.renderer, p.blogs[..3]))]).Success?
    ensures r.Success? ==>
      && |p.blogs| >= 3 && AllBlurbs(p.renderer, p.blogs[..3])
      && r.value.state == p.(pageList := p.pageList + [SiteRoot])
      && p.renderer.RenderLayout("index", map["latest_posts" := Concat(BlurbTexts(p.renderer, p.blogs[..3]))]).Success?
      && r.value.pages == [Page("index.html",
           p.renderer.RenderLayout("index", map["latest_posts" := Concat(BlurbTexts(p.renderer, p.blogs[..3]))]).value)]
  {
    if |p.blogs| < 3 then Failure(TooFewPosts(|p.blogs|))
    else
      var latest :- Blurbs(p.renderer, p.blogs[..3]);
      var contents :- p.renderer.RenderLayout("index", map["latest_posts" := latest]);
      Success(Generated(p.(pageList := p.pageList + [SiteRoot]), [Page("index.html", contents)]))
  }

  /** The posts that get a page of their own: those without an external
      address, in order. */
  function LocalPosts(blogs: seq<Blog>): (r: seq<Blog>)
    ensures |r| <= |blogs|
    ensures forall k :: 0 <= k < |r| ==> r[k].external.None? && r[k] in blogs
    ensures forall b :: b in r <==> b in blogs && b.external.None?
  {
    if |blogs| == 0 then []
    else if blogs[0].external.Some? then LocalPosts(blogs[1..])
    else [blogs[0]] + LocalPosts(blogs[1..])
  }

  /** The arguments of a post's own page. */
  function PostArgs(b: Blog): (args: map<string, string>)
    ensures args.Keys == {"title", "description", "publish_date", "contents"}
    ensures args["title"] == b.title && args["description"] == b.excerpt
    ensures args["publish_date"] == b.displayDate && args["contents"] == b.html
  {
    map["title" := b.title, "description" := b.excerpt, "publish_date" := b.displayDate, "contents" := b.html]
  }

  /** A post's page rendered with the `post` layout. */
  function PostPage(r: Renderer, b: Blog): Result<string, Error> {
    r.RenderLayout("post", PostArgs(b))
  }

  function PostPath(b: Blog): string {
    "posts/" + b.slug + "/index.html"
  }

  function PostUrl(b: Blog): string {
    SiteRoot + "/posts/" + b.slug + "/"
  }

  /** Every given post's own page renders. */
  predicate AllPostPages(r: Renderer, blogs: seq<Blog>) {
    forall k :: 0 <= k < |blogs| ==> PostPage(r, blogs[k]).Success?
  }

  /** The pages of posts whose pages all render, in order. */
  function PagesOf(r: Renderer, blogs: seq<Blog>): (pages: seq<Page>)
    requires AllPostPages(r, blogs)
    ensures |pages| == |blogs|
    ensures forall k :: 0 <= k < |blogs| ==>
      pages[k] == Page(PostPath(blogs[k]), PostPage(r, blogs[k]).value)
  {
    seq(|blogs|, k requires 0 <= k < |blogs| => Page(PostPath(blogs[k]), PostPage(r, blogs[k]).value))
  }

  lemma PagesOfCons(r: Renderer, b: Blog, blogs: seq<Blog>)
    ensures AllPostPages(r, [b] + blogs) <==> PostPage(r, b).Success? && AllPostPages(r, blogs)
    ensures AllPostPages(r, [b] + blogs) ==>
      PagesOf(r, [b] + blogs) == [Page(PostPath(b), PostPage(r, b).value)] + PagesOf(r, blogs)
  {
    var all := [b] + blogs;
    assert forall k :: 1 <= k < |all| ==> all[k] == blogs[k - 1];
    if AllPostPages(r, all) {
      assert all[0] == b;
      forall k | 0 <= k < |blogs| ensures PostPage(r, blogs[k]).Success? {
        assert blogs[k] == all[k + 1];
      }
    }
    if PostPage(r, b).Success? && AllPostPages(r, blogs) {
      assert AllPostPages(r, all) by {
        forall k | 0 <= k < |all| ensures PostPage(r, all[k]).Success? {
          if k > 0 { assert all[k] == blogs[k - 1]; }
        }
      }
      var lhs := PagesOf(r, all);
      var rhs := [Page(PostPath(b), PostPage(r, b).value)] + PagesOf(r, blogs);
      assert |lhs| == |rhs|;
      forall k | 0 <= k < |lhs| ensures lhs[k] == rhs[k] {
        if k > 0 { assert all[k] == blogs[k - 1]; }
      }
    }
  }

  /** Filtering keeps the order of the posts: the local posts of two runs of
      posts are those of the first run followed by those of the second. */
  lemma {:induction false} LocalPostsAppend(a: seq<Blog>, b: seq<Blog>)
    ensures LocalPosts(a + b) == LocalPosts(a) + LocalPosts(b)
    decreases |a|
  {
    if |a| > 0 {
      assert (a + b)[1..] == a[1..] + b;
      LocalPostsAppend(a[1..], b);
    } else {
      assert a + b == b;
    }
  }

  lemma LocalPostsCons(blogs: seq<Blog>)
    requires |blogs| > 0
    ensures LocalPosts(blogs) == if blogs[0].external.Some? then LocalPosts(blogs[1..])
                                 else [blogs[0]] + LocalPosts(blogs[1..])
  {
  }

  /** The pages of the local posts, in order; the first that fails to
      render is the error. */
  function PostPages(r: Renderer, blogs: seq<Blog>): (res: Result<seq<Page>, Error>)
    ensures res.Success? <==> AllPostPages(r, LocalPosts(blogs))
    ensures res.Success? ==> res.value == PagesOf(r, LocalPosts(blogs))
    decreases |blogs|
  {
    if |blogs| == 0 then Success([])
    else if blogs[0].external.Some? then
      LocalPostsCons(blogs);
      PostPages(r, blogs[1..])
    else
      LocalPostsCons(blogs);
      PagesOfCons(r, blogs[0], LocalPosts(blogs[1..]));
      var contents :- PostPage(r, blogs[0]);
      var rest :- PostPages(r, blogs[1..]);
      Success([Page(PostPath(blogs[0]), contents)] + rest)
  }

  /** The addresses of the local posts' pages, in order. */
  function PostUrls(blogs: seq<Blog>): (urls: seq<string>)
    ensures |urls| == |LocalPosts(blogs)|
    ensures forall k :: 0 <= k < |urls| ==> urls[k] == PostUrl(LocalPosts(blogs)[k])
  {
    var locals := LocalPosts(blogs);
    seq(|locals|, k requires 0 <= k < |locals| => PostUrl(locals[k]))
  }

  /** `generate_all_posts`: the `all_posts` layout with every blurb as
      `posts` and `posts_selected` set to `"true"` (an `Err` from it reported
      as a failure of this page, a panic as it is), then a page per local
      post. The listing's
      address and then each local post's are recorded. */
  function GenerateAllPosts(p: Pages): (r: Result<Generated, Error>)
    ensures r.Success? <==>
      && AllBlurbs(p.renderer, p.blogs)
      && p.renderer.RenderLayout("all_posts", ListingArgs(Concat(BlurbTexts(p.renderer, p.blogs)))).Success?
      && AllPostPages(p.renderer, LocalPosts(p.blogs))
    ensures AllBlurbs(p.renderer, p.blogs) ==>
      var listing := p.renderer.RenderLayout("all_posts", ListingArgs(Concat(BlurbTexts(p.renderer, p.blogs))));
      && (listing.Failure? && IsPanic(listing.error) ==> r == Failure(listing.error))
      && (listing.Failure? && !IsPanic(listing.error) ==> r == Failure(InAllPostsPage(listing.error)))
    ensures r.Success? ==>
      && AllBlurbs(p.renderer, p.blogs)
      && r.value.state == p.(pageList := p.pageList + [SiteRoot + "/posts/"] + PostUrls(p.blogs))
      && |r.value.pages| == 1 + |LocalPosts(p.blogs)|
      && p.renderer.RenderLayout("all_posts", ListingArgs(Concat(BlurbTexts(p.renderer, p.blogs)))).Success?
      && r.value.pages[0] == Page("posts/index.html",
           p.renderer.RenderLayout("all_posts", ListingArgs(Concat(BlurbTexts(p.renderer, p.blogs)))).value)
      && r.value.pages[1..] == PagesOf(p.renderer, LocalPosts(p.blogs))
      && forall k :: 0 <= k < |LocalPosts(p.blogs)| ==>
           r.value.pages[k + 1].path == PostPath(LocalPosts(p.blogs)[k])
  {
    var all :- Blurbs(p.renderer, p.blogs);
    var listing :- p.renderer.RenderLayout("all_posts", ListingArgs(all)).MapFailure(e => InContext(e, InAllPostsPage(e)));
    var posts :- PostPages(p.renderer, p.blogs);
    var urls := [SiteRoot + "/posts/"] + PostUrls(p.blogs);
    Success(Generated(p.(pageList := p.pageList + urls), [Page("posts/index.html", listing)] + posts))
  }

  /** The arguments of the listing of all posts. */
  function ListingArgs(posts: string): (args: map<string, string>)
    ensures args.Keys == {"posts", "posts_selected"}
    ensures args["posts"] == posts && args["posts_selected"] == "true"
  {
    map["posts" := posts, "posts_selected" := "true"]
  }

  /** `generate_sitemap`: each address on a line of its own. */
  function SitemapText(pageList: seq<string>): string
    decreases |pageList|
  {
    if |pageList| == 0 then "" else pageList[0] + "\n" + SitemapText(pageList[1..])
  }

  /** The sitemap is the addresses joined with newlines and ended by one,
      so its lines, read back, are the addresses in order (followed by the
      empty remainder after the last newline). */
  lemma {:induction false} SitemapLines(pageList: seq<string>)
    requires forall k :: 0 <= k < |pageList| ==> '\n' !in pageList[k]
    ensures Split(SitemapText(pageList), '\n') == pageList + [""]
  {
    SitemapIsJoin(pageList);
    var pieces := pageList + [""];
    assert forall k :: 0 <= k < |pieces| ==> '\n' !in pieces[k] by {
      forall k | 0 <= k < |pieces| ensures '\n' !in pieces[k] {
        if k < |pageList| { assert pieces[k] == pageList[k]; }
      }
    }
    SplitJoin(pieces, '\n');
  }

  lemma {:induction false} SitemapIsJoin(pageList: seq<string>)
    ensures SitemapText(pageList) == JoinWith(pageList + [""], '\n')
    decreases |pageList|
  {
    if |pageList| > 0 {
      SitemapIsJoin(pageList[1..]);
      assert (pageList + [""])[1..] == pageList[1..] + [""];
      assert |pageList + [""]| >= 2;
    }
  }

  /** The whole run over a set of posts (`generate_site` after loading):
      sort, the index, the listing and post pages, then the sitemap. */
  function GenerateSite(blogs: seq<Blog>, renderer: Renderer): Result<seq<Page>, Error> {
    var p := NewPages(blogs, renderer);
    var index :- GenerateIndex(p);
    var listing :- GenerateAllPosts(index.state);
    Success(index.pages + listing.pages + [Page("sitemap.txt", SitemapText(listing.state.pageList))])
  }

  /** A run that succeeds writes the index, the listing, one page per local
      post (newest first) and the sitemap, whose lines are the site root,
      the listing and the local posts' addresses in that order. */
  lemma SiteOutline(blogs: seq<Blog>, renderer: Renderer)
    requires GenerateSite(blogs, renderer).Success?
    ensures var pages := GenerateSite(blogs, renderer).value;
      var sorted := SortByDate(blogs);
      var locals := LocalPosts(sorted);
      && |pages| == |locals| + 3
      && pages[0].path == "index.html" && pages[1].path == "posts/index.html"
      && (forall k :: 0 <= k < |locals| ==> pages[k + 2].path == PostPath(locals[k]))
      && pages[|pages| - 1] == Page("sitemap.txt", SitemapText([SiteRoot, SiteRoot + "/posts/"] + PostUrls(sorted)))
  {
    var p := NewPages(blogs, renderer);
    var index := GenerateIndex(p);
    assert index.Success?;
    var listing := GenerateAllPosts(index.value.state);
    assert listing.Success?;
    SiteSteps(p, index.value, listing.value);
    assert GenerateSite(blogs, renderer).value
      == index.value.pages + listing.value.pages + [Page("sitemap.txt", SitemapText(listing.value.state.pageList))];
  }

  lemma SiteSteps(p: Pages, index: Generated, listing: Generated)
    requires p.pageList == []
    requires GenerateIndex(p) == Success(index) && GenerateAllPosts(index.state) == Success(listing)
    ensures var pages := index.pages + listing.pages + [Page("sitemap.txt", SitemapText(listing.state.pageList))];
      var locals := LocalPosts(p.blogs);
      && |pages| == |locals| + 3
      && pages[0].path == "index.html" && pages[1].path == "posts/index.html"
      && (forall k :: 0 <= k < |locals| ==> pages[k + 2].path == PostPath(locals[k]))
      && pages[|pages| - 1] == Page("sitemap.txt", SitemapText([SiteRoot, SiteRoot + "/posts/"] + PostUrls(p.blogs)))
  {
    IndexStep(p, index);
    ListingStep(index.state, listing);
    Assemble(index.pages, listing.pages, LocalPosts(p.blogs), listing.state.pageList, PostUrls(p.blogs));
  }

  /** The pages of a run put together. */
  lemma Assemble(indexPages: seq<Page>, listingPages: seq<Page>, locals: seq<Blog>,
                 pageList: seq<string>, urls: seq<string>)
    requires |indexPages| == 1 && indexPages[0].path == "index.html"
    requires |listingPages| == 1 + |locals| && listingPages[0].path == "posts/index.html"
    requires forall k :: 0 <= k < |locals| ==> listingPages[k + 1].path == PostPath(locals[k])
    requires pageList == [] + [SiteRoot] + [SiteRoot + "/posts/"] + urls
    ensures var pages := indexPages + listingPages + [Page("sitemap.txt", SitemapText(pageList))];
      && |pages| == |locals| + 3
      && pages[0].path == "index.html" && pages[1].path == "posts/index.html"
      && (forall k :: 0 <= k < |locals| ==> pages[k + 2].path == PostPath(locals[k]))
      && pages[|pages| - 1] == Page("sitemap.txt", SitemapText([SiteRoot, SiteRoot + "/posts/"] + urls))
  {
    assert pageList == [SiteRoot, SiteRoot + "/posts/"] + urls;
    var pages := indexPages + listingPages + [Page("sitemap.txt", SitemapText(pageList))];
    forall k | 0 <= k < |locals|
      ensures pages[k + 2].path == PostPath(locals[k])
    {
      assert pages[k + 2] == listingPages[k + 1];
    }
  }

  lemma IndexStep(p: Pages, index: Generated)
    requires GenerateIndex(p) == Success(index)
    ensures index.state.blogs == p.blogs && index.state.pageList == p.pageList + [SiteRoot]
    ensures |index.pages| == 1 && index.pages[0].path == "index.html"
  {
  }

  lemma ListingStep(p: Pages, listing: Generated)
    requires GenerateAllPosts(p) == Success(listing)
    ensures listing.state.pageList == p.pageList + [SiteRoot + "/posts/"] + PostUrls(p.blogs)
    ensures |listing.pages| == 1 + |LocalPosts(p.blogs)| && listing.pages[0].path == "posts/index.html"
    ensures forall k :: 0 <= k < |LocalPosts(p.blogs)| ==> listing.pages[k + 1].path == PostPath(LocalPosts(p.blogs)[k])
  {
  }
}
