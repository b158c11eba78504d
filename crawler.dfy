/**
 * The Apify actor's crawler (main.py): one class holding the crawl's settings and the records it
 * collected, its list pass and its comment pass, and the actor's flow that runs the list pass and
 * then the comment pass over the first five posts. What the site shows at a URL is an oracle.
 */
module ActorCrawler {
  import opened Outcomes
  import opened Text
  import opened Positions
  import opened Records
  import opened Resolver
  import opened Fallback
  import opened Navigation

  /** What the browser reports for the list page: the title after `goto` (`Raised` when `goto` or
      `title()` raised), the element lists of the row selectors, and the regex triples of the
      page's HTML (`Raised` when `content()` raised). */
  datatype ListPage = ListPage(
    title: Fallible<string>,
    query: Selector -> Fallible<seq<PostRow>>,
    anchors: Fallible<seq<Match>>)

  /** What the browser reports for a post's page: whether `goto` returned, and the node lists of
      the comment selectors, each node given by the outcome of reading its inner text. */
  datatype DetailPage = DetailPage(loads: bool, query: Selector -> Fallible<seq<Fallible<string>>>)

  /** What the site shows at each URL: list pages and post pages. */
  datatype Site = Site(listing: string -> ListPage, detail: string -> DetailPage)

  /** The number of posts whose comments are crawled. */
  const CommentedPosts: nat := 5

  /** The default cap on the comment nodes one `crawl_comments` call examines. */
  const DefaultMaxComments: nat := 5

  /** `crawl_post_list` on `page`: give up on an unverified title; else take the first selector's
      rows, at most `maxPosts` of them; when no selector finds rows, fall back to the regex matches,
      at most `maxPosts` of them, and give up if the HTML could not be read. */
  function PostListPass(page: ListPage, code: string, name: string, maxPosts: int, now: Stamp): ListPass {
    if !Verified(page.title) then Aborted
    else
      var found := Cascade(PostSelectors, page.query).elements;
      if found == [] then
        match page.anchors
        case Raised => Aborted
        case Ok(ms) => Collected(CountedFallback(Prefix(ms, maxPosts), code, name, now))
      else Collected(StructuredPosts(Prefix(found, maxPosts), code, name, now))
  }

  /** The comments one `crawl_comments` call appends and the count it returns. */
  datatype CommentPass = CommentPass(comments: seq<Comment>, count: nat)

  /** `crawl_comments` on `page`: nothing when `goto` raised; else the records of the first
      `maxComments` nodes of the first selector that finds any, and their number, read or not. */
  function CommentPassOf(page: DetailPage, postUrl: string, code: string, maxComments: int, now: Stamp): CommentPass {
    if !page.loads then CommentPass([], 0)
    else
      var nodes := Prefix(Cascade(CommentSelectors, page.query).elements, maxComments);
      CommentPass(CommentRecords(nodes, postUrl, code, now), |nodes|)
  }

  /**
   * The title gate and the HTML read: the pass gives up exactly when the title is not verified
   * or when no selector finds rows and the page's HTML cannot be read.
   */
  lemma PostListPassAborts(page: ListPage, code: string, name: string, maxPosts: int, now: Stamp)
    ensures PostListPass(page, code, name, maxPosts, now).Aborted? <==>
      (!Verified(page.title) || (Cascade(PostSelectors, page.query).elements == [] && page.anchors.Raised?))
    ensures !Verified(page.title) ==> Appended(PostListPass(page, code, name, maxPosts, now)) == []
  {
  }

  /**
   * The structured path: when a selector finds rows, the pass keeps, in row order, the records of
   * the readable rows among the first `maxPosts`, each numbered by its own row position; the rows
   * are those of the first selector that found any, and every record is well formed.
   */
  lemma PostListPassStructured(page: ListPage, code: string, name: string, maxPosts: int, now: Stamp)
    requires Verified(page.title) && Cascade(PostSelectors, page.query).elements != []
    ensures var found := Cascade(PostSelectors, page.query);
      var rows := Prefix(found.elements, maxPosts);
      var posts := StructuredPosts(rows, code, name, now);
      var idx := Where(ReadableMarks(rows));
      && found.queried != [] && page.query(found.queried[|found.queried| - 1]) == Ok(found.elements)
      && PostListPass(page, code, name, maxPosts, now) == Collected(posts)
      && |posts| == |idx| && |posts| <= |rows|
      && (maxPosts >= 0 ==> |posts| <= maxPosts)
      && (forall k :: 0 <= k < |idx| ==> StructuredPost(rows[idx[k]], idx[k], code, name, now) == Ok(posts[k]))
      && (forall p :: p in posts ==> WellFormedPost(p, code, name, now))
  {
    var found := Cascade(PostSelectors, page.query);
    var rows := Prefix(found.elements, maxPosts);
    CascadeFindsIff(PostSelectors, page.query);
    StructuredPostsInOrder(rows, code, name, now);
    StructuredPostsWellFormed(rows, code, name, now);
  }

  /**
   * The regex fallback: it runs only when every selector found nothing; the cap applies before
   * the filter; the pass keeps the accepted matches among the first `maxPosts`, in match order,
   * numbering their authors 1, 2, ... over the accepted ones only, each with a URL that starts with "http".
   */
  lemma PostListPassFallback(page: ListPage, matches: seq<Match>, code: string, name: string, maxPosts: int, now: Stamp)
    requires Verified(page.title) && Cascade(PostSelectors, page.query).elements == [] && page.anchors == Ok(matches)
    ensures var ms := Prefix(matches, maxPosts);
      var posts := CountedFallback(ms, code, name, now);
      var idx := Where(AcceptMarks(ms, code));
      && (forall j :: 0 <= j < |PostSelectors| ==> !Hit(page.query(PostSelectors[j])))
      && PostListPass(page, code, name, maxPosts, now) == Collected(posts)
      && |posts| == |idx| && |posts| <= |ms|
      && (maxPosts >= 0 ==> |posts| <= maxPosts)
      && (forall k :: 0 <= k < |idx| ==> posts[k] == FallbackPost(ms[idx[k]], k + 1, code, name, now))
      && (forall k :: 0 <= k < |idx| ==> Accepts(code, ms[idx[k]].href) && posts[k].author == UserLabel(k + 1))
      && (forall p :: p in posts ==> WellFormedPost(p, code, name, now) && StartsWith(p.postUrl, "http"))
  {
    var ms := Prefix(matches, maxPosts);
    CascadeFindsIff(PostSelectors, page.query);
    CountedFallbackInOrder(ms, code, name, now);
    CountedFallbackWellFormed(ms, code, name, now);
  }

  /**
   * A list page whose primary selector finds rows that all read cleanly, no more than
   * `maxPosts` of them, gives one record per row, in row order.
   */
  lemma PrimaryRowsAllKept(page: ListPage, rows: seq<PostRow>, code: string, name: string, maxPosts: int, now: Stamp)
    requires Verified(page.title) && page.query(PostSelectors[0]) == Ok(rows) && rows != []
    requires forall j :: 0 <= j < |rows| ==> LinkTitleAndUrl(rows[j]).Ok?
    requires |rows| <= maxPosts
    ensures var pass := PostListPass(page, code, name, maxPosts, now);
      && pass.Collected? && |pass.posts| == |rows|
      && (forall k :: 0 <= k < |rows| ==> StructuredPost(rows[k], k, code, name, now) == Ok(pass.posts[k]))
      && (forall p :: p in pass.posts ==> WellFormedPost(p, code, name, now))
  {
    FirstHitWins(PostSelectors, page.query, 0);
    assert Cascade(PostSelectors, page.query).elements == rows;
    assert Prefix(rows, maxPosts) == rows;
    assert PostListPass(page, code, name, maxPosts, now) == Collected(StructuredPosts(rows, code, name, now));
    StructuredPostsAllReadable(rows, code, name, now);
    StructuredPostsWellFormed(rows, code, name, now);
  }

  /**
   * A list page where no selector finds rows but the HTML holds matches that all pass the filter,
   * no more than `maxPosts` of them, gives one post per match, in match order, titled by the
   * match's title attribute (its text when the attribute is empty).
   */
  lemma AnchorsAllKept(page: ListPage, ms: seq<Match>, code: string, name: string, maxPosts: int, now: Stamp)
    requires Verified(page.title)
    requires forall j :: 0 <= j < |PostSelectors| ==> !Hit(page.query(PostSelectors[j]))
    requires page.anchors == Ok(ms) && |ms| <= maxPosts
    requires forall j :: 0 <= j < |ms| ==> Accepts(code, ms[j].href)
    ensures var pass := PostListPass(page, code, name, maxPosts, now);
      && pass.Collected? && |pass.posts| == |ms|
      && (forall k :: 0 <= k < |ms| ==>
            pass.posts[k].title == (if ms[k].title != "" then ms[k].title else ms[k].text)
            && pass.posts[k].author == UserLabel(k + 1))
  {
    NoHitQueriesAll(PostSelectors, page.query);
    assert Prefix(ms, maxPosts) == ms;
    assert PostListPass(page, code, name, maxPosts, now) == Collected(CountedFallback(ms, code, name, now));
    CountedFallbackInOrder(ms, code, name, now);
    WhereAll(AcceptMarks(ms, code));
    var posts := CountedFallback(ms, code, name, now);
    forall k | 0 <= k < |ms|
      ensures posts[k].title == (if ms[k].title != "" then ms[k].title else ms[k].text)
      ensures posts[k].author == UserLabel(k + 1)
    {
      assert Where(AcceptMarks(ms, code))[k] == k;
    }
  }

  /**
   * The comment pass: it counts the first `maxComments` nodes of the winning selector whether or
   * not their text could be read (0 when the page did not load); its records are those of the
   * readable nodes among them, in order, each numbered by its own position, with floors rising
   * within 1..count and contents of at most 500 characters.
   */
  lemma CommentPassRules(page: DetailPage, postUrl: string, code: string, maxComments: int, now: Stamp)
    ensures var pass := CommentPassOf(page, postUrl, code, maxComments, now);
      var found := Cascade(CommentSelectors, page.query).elements;
      && (!page.loads ==> pass == CommentPass([], 0))
      && (page.loads ==> pass.count == |Prefix(found, maxComments)|)
      && (page.loads && 0 <= maxComments ==> pass.count == if |found| <= maxComments then |found| else maxComments)
      && |pass.comments| <= pass.count
      && (page.loads ==>
            var nodes := Prefix(found, maxComments);
            var idx := Where(ReadMarks(nodes));
            |pass.comments| == |idx|
            && forall k :: 0 <= k < |idx| ==>
                 pass.comments[k] == CommentRecord(nodes[idx[k]].value, idx[k], postUrl, code, now))
      && (forall k :: 0 <= k < |pass.comments| ==>
            1 <= pass.comments[k].floorNumber <= pass.count && |pass.comments[k].content| <= ContentLimit
            && pass.comments[k].postUrl == postUrl && pass.comments[k].stockCode == code)
      && (forall k, l :: 0 <= k < l < |pass.comments| ==> pass.comments[k].floorNumber < pass.comments[l].floorNumber)
  {
    if page.loads {
      var nodes := Prefix(Cascade(CommentSelectors, page.query).elements, maxComments);
      CommentFloors(nodes, postUrl, code, now);
      CommentRecordsInOrder(nodes, postUrl, code, now);
      var cs := CommentRecords(nodes, postUrl, code, now);
      var idx := Where(ReadMarks(nodes));
      forall k | 0 <= k < |cs|
        ensures cs[k].postUrl == postUrl && cs[k].stockCode == code
      {
        CommentRecordRules(nodes[idx[k]].value, idx[k], postUrl, code, now);
      }
    }
  }

  // ---------------------------------------------------------------------------------------
  // Which posts get their comments crawled

  /** Which posts have a URL. */
  function UrlMarks(posts: seq<Post>): (m: seq<bool>)
    ensures |m| == |posts|
  {
    seq(|posts|, j requires 0 <= j < |posts| => posts[j].postUrl != "")
  }

  /** The non-empty URLs of `posts`, in order. */
  function PostUrls(posts: seq<Post>): seq<string>
    decreases |posts|
  {
    if posts == [] then []
    else
      var n := |posts| - 1;
      PostUrls(posts[..n]) + if posts[n].postUrl != "" then [posts[n].postUrl] else []
  }

  /** One more post appends its URL when it has one. */
  lemma PostUrlsStep(posts: seq<Post>, i: nat)
    requires i < |posts|
    ensures PostUrls(posts[..i + 1]) == PostUrls(posts[..i]) + if posts[i].postUrl != "" then [posts[i].postUrl] else []
  {
    assert posts[..i + 1][..i] == posts[..i];
  }

  /** The URLs the actor crawls comments for: none unless comment crawling is on and some post
      was collected; otherwise the non-empty URLs among the first five posts, in order. */
  function CommentTargets(posts: seq<Post>, crawlComments: bool): seq<string> {
    if crawlComments && posts != [] then PostUrls(Prefix(posts, CommentedPosts)) else []
  }

  /** `PostUrls` keeps exactly the posts that have a URL, in order. */
  lemma {:induction false} PostUrlsInOrder(posts: seq<Post>)
    ensures var idx := Where(UrlMarks(posts));
      && |PostUrls(posts)| == |idx|
      && forall k :: 0 <= k < |idx| ==> PostUrls(posts)[k] == posts[idx[k]].postUrl
    decreases |posts|
  {
    if posts != [] {
      var n := |posts| - 1;
      PostUrlsInOrder(posts[..n]);
      assert UrlMarks(posts)[..n] == UrlMarks(posts[..n]);
    }
  }

  /**
   * The comment gate: no target unless comment crawling is on; at most five targets, none empty,
   * each the URL of one of the first five posts, in post order, and every such URL is a target.
   */
  lemma CommentTargetsRules(posts: seq<Post>, crawlComments: bool)
    ensures var t := CommentTargets(posts, crawlComments);
      var idx := Where(UrlMarks(Prefix(posts, CommentedPosts)));
      && (!crawlComments ==> t == [])
      && |t| <= CommentedPosts
      && (crawlComments ==> |t| == |idx| && forall k :: 0 <= k < |idx| ==> t[k] == posts[idx[k]].postUrl)
      && (forall k :: 0 <= k < |t| ==> t[k] != "")
      && (crawlComments ==> forall j :: 0 <= j < |posts| && j < CommentedPosts && posts[j].postUrl != "" ==> j in idx)
  {
    var first := Prefix(posts, CommentedPosts);
    PostUrlsInOrder(first);
    WhereShape(UrlMarks(first));
    if posts == [] {
      assert first == [];
    }
  }

  /** With comment crawling on and at least five posts that all have URLs, exactly the first five
      posts' URLs are targets, in order; later posts are not visited. */
  lemma FiveTargets(posts: seq<Post>)
    requires |posts| >= CommentedPosts
    requires forall j :: 0 <= j < CommentedPosts ==> posts[j].postUrl != ""
    ensures |CommentTargets(posts, true)| == CommentedPosts
    ensures forall k :: 0 <= k < CommentedPosts ==> CommentTargets(posts, true)[k] == posts[k].postUrl
  {
    var first := Prefix(posts, CommentedPosts);
    PostUrlsInOrder(first);
    WhereAll(UrlMarks(first));
  }

  /** The comments the actor collects by crawling `urls` in turn; the `k`-th visit is stamped
      `stamps(k)`. */
  function CommentsFor(urls: seq<string>, site: Site, code: string, stamps: nat -> Stamp): seq<Comment>
    decreases |urls|
  {
    if urls == [] then []
    else
      var n := |urls| - 1;
      CommentsFor(urls[..n], site, code, stamps)
        + CommentPassOf(site.detail(urls[n]), urls[n], code, DefaultMaxComments, stamps(n)).comments
  }

  /** Visiting one more URL appends that visit's comments. */
  lemma CommentsForSnoc(urls: seq<string>, url: string, site: Site, code: string, stamps: nat -> Stamp)
    ensures CommentsFor(urls + [url], site, code, stamps)
      == CommentsFor(urls, site, code, stamps) + CommentPassOf(site.detail(url), url, code, DefaultMaxComments, stamps(|urls|)).comments
  {
    assert (urls + [url])[..|urls|] == urls;
  }

  /** Every collected comment belongs to a visited post and to the crawl's stock. */
  lemma {:induction false} CommentsForBelong(urls: seq<string>, site: Site, code: string, stamps: nat -> Stamp)
    ensures forall c :: c in CommentsFor(urls, site, code, stamps) ==> c.postUrl in urls && c.stockCode == code
    decreases |urls|
  {
    if urls != [] {
      var n := |urls| - 1;
      CommentsForBelong(urls[..n], site, code, stamps);
      var page := site.detail(urls[n]);
      CommentPassRules(page, urls[n], code, DefaultMaxComments, stamps(n));
      var pass := CommentPassOf(page, urls[n], code, DefaultMaxComments, stamps(n));
      forall c | c in pass.comments
        ensures c.postUrl in urls && c.stockCode == code
      {
        var k :| 0 <= k < |pass.comments| && pass.comments[k] == c;
      }
    }
  }

  // ---------------------------------------------------------------------------------------
  // The crawler

  class EastMoneyCrawler {
    const stockCode: string
    const stockName: string
    const maxPosts: int
    const headless: bool
    const baseUrl: string
    var postsData: seq<Post>
    var commentsData: seq<Comment>

    constructor (stockCode: string, stockName: string, maxPosts: int := 10, headless: bool := true)
      ensures this.stockCode == stockCode && this.stockName == stockName
      ensures this.maxPosts == maxPosts && this.headless == headless
      ensures baseUrl == ListUrl(stockCode)
      ensures postsData == [] && commentsData == []
    {
      this.stockCode := stockCode;
      this.stockName := stockName;
      this.maxPosts := maxPosts;
      this.headless := headless;
      baseUrl := ListUrl(stockCode);
      postsData := [];
      commentsData := [];
    }

    /** `crawl_post_list`: visit the list page, check its title, find the rows (or fall back to
        the regex matches), append one record per kept row or match, and return the number of
        records held, or 0 when the pass gave up. */
    method CrawlPostList(site: Site, now: Stamp) returns (count: int)
      modifies this
      ensures var pass := PostListPass(site.listing(baseUrl), stockCode, stockName, maxPosts, now);
        && postsData == old(postsData) + Appended(pass)
        && count == (if pass.Aborted? then 0 else |postsData|)
      ensures commentsData == old(commentsData)
    {
      var page := site.listing(baseUrl);
      ghost var pass := PostListPass(page, stockCode, stockName, maxPosts, now);
      if !Verified(page.title) {
        assert pass == Aborted;
        return 0;
      }
      var found := Resolve(PostSelectors, page.query);
      if found.elements == [] {
        if page.anchors.Raised? {
          assert pass == Aborted;
          return 0;
        }
        var ms := Prefix(page.anchors.value, maxPosts);
        var accepted := 0;
        var i := 0;
        while i < |ms|
          invariant 0 <= i <= |ms|
          invariant postsData == old(postsData) + CountedFallback(ms[..i], stockCode, stockName, now)
          invariant accepted == |CountedFallback(ms[..i], stockCode, stockName, now)|
          invariant commentsData == old(commentsData)
        {
          ghost var prev := CountedFallback(ms[..i], stockCode, stockName, now);
          CountedFallbackStep(ms, i, stockCode, stockName, now);
          var m := ms[i];
          if Accepts(stockCode, m.href) {
            var p := FallbackPost(m, accepted + 1, stockCode, stockName, now);
            AppendAssoc(old(postsData), prev, [p]);
            postsData := postsData + [p];
            accepted := accepted + 1;
          } else {
            assert prev + [] == prev;
          }
          i := i + 1;
        }
        assert ms[..|ms|] == ms;
        assert pass == Collected(CountedFallback(ms, stockCode, stockName, now));
        return |postsData|;
      }
      var rows := Prefix(found.elements, maxPosts);
      var i := 0;
      while i < |rows|
        invariant 0 <= i <= |rows|
        invariant postsData == old(postsData) + StructuredPosts(rows[..i], stockCode, stockName, now)
        invariant commentsData == old(commentsData)
      {
        ghost var prev := StructuredPosts(rows[..i], stockCode, stockName, now);
        StructuredPostsStep(rows, i, stockCode, stockName, now);
        var outcome := StructuredPost(rows[i], i, stockCode, stockName, now);
        AppendAssoc(old(postsData), prev, Emitted(outcome));
        if outcome.Ok? {
          postsData := postsData + [outcome.value];
        } else {
          assert postsData + [] == postsData;
        }
        i := i + 1;
      }
      assert rows[..|rows|] == rows;
      assert pass == Collected(StructuredPosts(rows, stockCode, stockName, now));
      return |postsData|;
    }

    /** `crawl_comments`: visit the post, find its comment nodes, append one record per readable
        node among the first `maxComments`, and return how many nodes were examined. */
    method CrawlComments(site: Site, postUrl: string, now: Stamp, maxComments: int := DefaultMaxComments) returns (count: int)
      modifies this
      ensures var pass := CommentPassOf(site.detail(postUrl), postUrl, stockCode, maxComments, now);
        commentsData == old(commentsData) + pass.comments && count == pass.count
      ensures postsData == old(postsData)
    {
      var page := site.detail(postUrl);
      if !page.loads {
        return 0;
      }
      var found := Resolve(CommentSelectors, page.query);
      var nodes := Prefix(found.elements, maxComments);
      var i := 0;
      while i < |nodes|
        invariant 0 <= i <= |nodes|
        invariant commentsData == old(commentsData) + CommentRecords(nodes[..i], postUrl, stockCode, now)
        invariant postsData == old(postsData)
      {
        ghost var prev := CommentRecords(nodes[..i], postUrl, stockCode, now);
        CommentRecordsStep(nodes, i, postUrl, stockCode, now);
        match nodes[i] {
          case Ok(text) =>
            var c := CommentRecord(text, i, postUrl, stockCode, now);
            AppendAssoc(old(commentsData), prev, [c]);
            commentsData := commentsData + [c];
          case Raised =>
            assert prev + [] == prev;
        }
        i := i + 1;
      }
      assert nodes[..|nodes|] == nodes;
      return |nodes|;
    }
  }

  // ---------------------------------------------------------------------------------------
  // The actor

  /** The actor's input; a key that is absent is `None`. */
  datatype ActorInput = ActorInput(
    stockCode: Option<string>,
    stockName: Option<string>,
    maxPosts: Option<int>,
    crawlComments: Option<bool>,
    headless: Option<bool>)

  function Get<T>(o: Option<T>, default: T): T {
    if o.Some? then o.value else default
  }

  /** The comment loop of the actor: visit, in order, each of the first five posts that has a
      URL and append its comments. */
  method CrawlFirstComments(crawler: EastMoneyCrawler, site: Site, stamps: nat -> Stamp)
    returns (visited: seq<string>)
    modifies crawler
    ensures visited == PostUrls(Prefix(crawler.postsData, CommentedPosts))
    ensures crawler.commentsData == old(crawler.commentsData) + CommentsFor(visited, site, crawler.stockCode, stamps)
    ensures crawler.postsData == old(crawler.postsData)
  {
    var first := Prefix(crawler.postsData, CommentedPosts);
    visited := [];
    var i := 0;
    while i < |first|
      invariant 0 <= i <= |first|
      invariant visited == PostUrls(first[..i])
      invariant crawler.commentsData == old(crawler.commentsData) + CommentsFor(visited, site, crawler.stockCode, stamps)
      invariant crawler.postsData == old(crawler.postsData)
    {
      PostUrlsStep(first, i);
      var url := first[i].postUrl;
      if url != "" {
        ghost var prev := CommentsFor(visited, site, crawler.stockCode, stamps);
        ghost var added := CommentPassOf(site.detail(url), url, crawler.stockCode, DefaultMaxComments, stamps(|visited|)).comments;
        CommentsForSnoc(visited, url, site, crawler.stockCode, stamps);
        AppendAssoc(old(crawler.commentsData), prev, added);
        var n := crawler.CrawlComments(site, url, stamps(|visited|));
        visited := visited + [url];
      } else {
        assert visited + [] == visited;
      }
      i := i + 1;
    }
    assert first[..|first|] == first;
  }

  /**
   * The actor's flow: read the input with its defaults, run the list pass on the stock's list
   * page, then, when comment crawling is on and posts were collected, crawl the comments of the
   * first five posts that have a URL, in order. Returns the crawler, the list pass's count and the
   * URLs visited for comments.
   */
  method RunActor(input: ActorInput, site: Site, listStamp: Stamp, commentStamps: nat -> Stamp)
    returns (crawler: EastMoneyCrawler, postsCount: int, visited: seq<string>)
    ensures fresh(crawler)
    ensures crawler.stockCode == Get(input.stockCode, "002001")
    ensures crawler.stockName == Get(input.stockName, "新和成")
    ensures crawler.maxPosts == Get(input.maxPosts, 10)
    ensures crawler.headless == Get(input.headless, true)
    ensures var pass := PostListPass(site.listing(ListUrl(crawler.stockCode)), crawler.stockCode,
                                     crawler.stockName, crawler.maxPosts, listStamp);
      crawler.postsData == Appended(pass) && postsCount == |crawler.postsData|
    ensures visited == CommentTargets(crawler.postsData, Get(input.crawlComments, false))
    ensures crawler.commentsData == CommentsFor(visited, site, crawler.stockCode, commentStamps)
  {
    var crawlComments := Get(input.crawlComments, false);
    crawler := new EastMoneyCrawler(Get(input.stockCode, "002001"), Get(input.stockName, "新和成"),
                                    Get(input.maxPosts, 10), Get(input.headless, true));
    postsCount := crawler.CrawlPostList(site, listStamp);
    if crawlComments && crawler.postsData != [] {
      visited := CrawlFirstComments(crawler, site, commentStamps);
    } else {
      visited := [];
    }
  }
}
