/**
 * The stand-alone Playwright crawler (playwright_eastmoney_crawler.py): navigation with retries,
 * a list pass capped at ten rows or matches whose fallback numbers authors by match position, and
 * the run that reports success when at least one post was collected.
 */
module PlaywrightCrawler {
  import opened Outcomes
  import opened Text
  import opened Positions
  import opened Records
  import opened Resolver
  import opened Fallback
  import opened Navigation

  /** What the browser reports for the list page: the title each navigation attempt reads
      (`Raised` when `goto` or `title()` raised on that attempt), the element lists of the row
      selectors, and the regex triples of the page's HTML (`Raised` when `content()` raised). */
  datatype RetryPage = RetryPage(
    attempt: nat -> Fallible<string>,
    query: Selector -> Fallible<seq<PostRow>>,
    anchors: Fallible<seq<Match>>)

  /** The fixed cap on rows and on regex matches. */
  const PostCap: nat := 10

  /** `crawl_posts` on `page`: give up when `safe_goto` fails; else the first selector's rows, at
      most ten; when no selector finds rows, the regex matches, at most ten, numbered by position;
      give up if the HTML could not be read. */
  function CrawlPostsPass(page: RetryPage, code: string, name: string, now: Stamp): ListPass {
    if !Navigate(page.attempt, DefaultRetries).loaded then Aborted
    else
      var found := Cascade(PostSelectors, page.query).elements;
      if found == [] then
        match page.anchors
        case Raised => Aborted
        case Ok(ms) => Collected(IndexedFallback(Prefix(ms, PostCap), code, name, now))
      else Collected(StructuredPosts(Prefix(found, PostCap), code, name, now))
  }

  /**
   * The navigation gate: the pass gives up when no attempt within the three reaches a verified
   * title, or when no selector finds rows and the HTML cannot be read; otherwise it collects.
   */
  lemma CrawlPostsPassAborts(page: RetryPage, code: string, name: string, now: Stamp)
    ensures CrawlPostsPass(page, code, name, now).Aborted? <==>
      ((forall j :: 0 <= j < DefaultRetries ==> !Verified(page.attempt(j)))
       || (Cascade(PostSelectors, page.query).elements == [] && page.anchors.Raised?))
  {
    NavigateSpec(page.attempt, DefaultRetries);
  }

  /**
   * The structured path: at most ten rows are used; the pass keeps, in row order, the records of
   * the readable ones, each numbered by its own row position, all well formed.
   */
  lemma CrawlPostsPassStructured(page: RetryPage, code: string, name: string, now: Stamp)
    requires Navigate(page.attempt, DefaultRetries).loaded && Cascade(PostSelectors, page.query).elements != []
    ensures var rows := Prefix(Cascade(PostSelectors, page.query).elements, PostCap);
      var posts := StructuredPosts(rows, code, name, now);
      var idx := Where(ReadableMarks(rows));
      && CrawlPostsPass(page, code, name, now) == Collected(posts)
      && |rows| <= PostCap && |posts| == |idx|
      && (forall k :: 0 <= k < |idx| ==> StructuredPost(rows[idx[k]], idx[k], code, name, now) == Ok(posts[k]))
      && (forall p :: p in posts ==> WellFormedPost(p, code, name, now))
  {
    var rows := Prefix(Cascade(PostSelectors, page.query).elements, PostCap);
    StructuredPostsInOrder(rows, code, name, now);
    StructuredPostsWellFormed(rows, code, name, now);
  }

  /**
   * The regex fallback: the pass keeps the Playwright fallback's records for the first ten
   * matches (at most), all well formed with URLs that start with "http"; which matches are kept and how their
   * authors are numbered is `IndexedFallbackInOrder` and `IndexedFallbackAuthors`.
   */
  lemma CrawlPostsPassFallback(page: RetryPage, matches: seq<Match>, code: string, name: string, now: Stamp)
    requires Navigate(page.attempt, DefaultRetries).loaded
    requires Cascade(PostSelectors, page.query).elements == [] && page.anchors == Ok(matches)
    ensures var ms := Prefix(matches, PostCap);
      var posts := IndexedFallback(ms, code, name, now);
      && CrawlPostsPass(page, code, name, now) == Collected(posts)
      && ms == matches[..|ms|] && |ms| == (if |matches| <= PostCap then |matches| else PostCap)
      && |posts| <= |ms|
      && (forall p :: p in posts ==> WellFormedPost(p, code, name, now) && StartsWith(p.postUrl, "http"))
  {
    var ms := Prefix(matches, PostCap);
    assert CrawlPostsPass(page, code, name, now) == Collected(IndexedFallback(ms, code, name, now));
    IndexedFallbackWellFormed(ms, code, name, now);
  }

  /** A list page that never shows a verified title within the three attempts yields no posts,
      after exactly three attempts. */
  lemma NavigationFailureCollectsNothing(page: RetryPage, code: string, name: string, now: Stamp)
    requires forall j :: 0 <= j < DefaultRetries ==> !Verified(page.attempt(j))
    ensures Navigate(page.attempt, DefaultRetries).attempts == 3
    ensures CrawlPostsPass(page, code, name, now) == Aborted
  {
    AlwaysFailing(page.attempt, DefaultRetries);
  }

  class PlaywrightEastMoneyCrawler {
    const stockCode: string
    const stockName: string
    const baseUrl: string
    var postsData: seq<Post>
    var commentsData: seq<Comment>

    constructor (stockCode: string := "002001", stockName: string := "新和成")
      ensures this.stockCode == stockCode && this.stockName == stockName
      ensures baseUrl == ListUrl(stockCode)
      ensures postsData == [] && commentsData == []
    {
      this.stockCode := stockCode;
      this.stockName := stockName;
      baseUrl := ListUrl(stockCode);
      postsData := [];
      commentsData := [];
    }

    /** `safe_goto`: try up to `maxRetries` times; stop at the first verified title; after a raise
        pause for the back-off unless it was the last attempt, which gives up at once. The result
        records whether a page was reached, the attempts made and each attempt's pause. */
    method SafeGoto(attempt: nat -> Fallible<string>, maxRetries: int := 3) returns (nav: Navigation)
      ensures nav == Navigate(attempt, maxRetries)
    {
      var pauses: seq<nat> := [];
      var k: nat := 0;
      while k < maxRetries
        invariant k <= Budget(maxRetries) && |pauses| == k
        invariant Navigate(attempt, maxRetries) ==
          var rest := NavigateFrom(attempt, maxRetries, k);
          Navigation(rest.loaded, k + rest.attempts, pauses + rest.pauses)
        decreases maxRetries - k
      {
        match attempt(k) {
          case Ok(title) =>
            if TitleVerified(title) {
              return Navigation(true, k + 1, pauses + [0]);
            }
          case Raised =>
            if k >= maxRetries - 1 {
              return Navigation(false, k + 1, pauses + [0]);
            }
        }
        NavigateStep(attempt, maxRetries, k);
        AppendAssoc(pauses, [PauseAfter(attempt, maxRetries, k)], NavigateFrom(attempt, maxRetries, k + 1).pauses);
        pauses := pauses + [PauseAfter(attempt, maxRetries, k)];
        k := k + 1;
      }
      assert pauses + [] == pauses;
      return Navigation(false, k, pauses);
    }

    /** `crawl_posts`: navigate to the list page, find the rows (or fall back to the regex
        matches), append one record per kept row or match, and return the number of records held,
        or 0 when the pass gave up. */
    method CrawlPosts(pages: string -> RetryPage, now: Stamp) returns (count: int)
      modifies this
      ensures var pass := CrawlPostsPass(pages(baseUrl), stockCode, stockName, now);
        && postsData == old(postsData) + Appended(pass)
        && count == (if pass.Aborted? then 0 else |postsData|)
      ensures commentsData == old(commentsData)
    {
      var page := pages(baseUrl);
      ghost var pass := CrawlPostsPass(page, stockCode, stockName, now);
      var nav := SafeGoto(page.attempt);
      if !nav.loaded {
        assert pass == Aborted;
        return 0;
      }
      var found := Resolve(PostSelectors, page.query);
      if found.elements == [] {
        if page.anchors.Raised? {
          assert pass == Aborted;
          return 0;
        }
        var ms := Prefix(page.anchors.value, PostCap);
        var i := 0;
        while i < |ms|
          invariant 0 <= i <= |ms|
          invariant postsData == old(postsData) + IndexedFallback(ms[..i], stockCode, stockName, now)
          invariant commentsData == old(commentsData)
        {
          ghost var prev := IndexedFallback(ms[..i], stockCode, stockName, now);
          IndexedFallbackStep(ms, i, stockCode, stockName, now);
          var m := ms[i];
          if Accepts(stockCode, m.href) {
            var p := FallbackPost(m, i + 1, stockCode, stockName, now);
            AppendAssoc(old(postsData), prev, [p]);
            postsData := postsData + [p];
          } else {
            assert prev + [] == prev;
          }
          i := i + 1;
        }
        assert ms[..|ms|] == ms;
        assert pass == Collected(IndexedFallback(ms, stockCode, stockName, now));
        return |postsData|;
      }
      var rows := Prefix(found.elements, PostCap);
      var i := 0;
      while i < |rows|
        invariant 0 <= i <= |rows|
        invariant postsData == old(postsData) + StructuredPosts(rows[..i], stockCode, stockName, now)
        invariant commentsData == old(commentsData)
      {
        ghost var prev := StructuredPosts(rows[..i], stockCode, stockName, now);
        StructuredPostsStep(rows, i, stockCode, stockName, now);
        var outcome := StructuredPost(rows[i], i, stockCode, stockName, now);
        AppendAssoc(old(postsData), prev, Emitted(outcome));
        if outcome.Ok? {
          postsData := postsData + [outcome.value];
        } else {
          assert postsData + [] == postsData;
        }
        i := i + 1;
      }
      assert rows[..|rows|] == rows;
      assert pass == Collected(StructuredPosts(rows, stockCode, stockName, now));
      return |postsData|;
    }

    /** `run`: when the browser could not be started, fail without crawling; otherwise crawl the
        list and succeed exactly when the crawl returned a positive count. */
    method Run(browserReady: bool, pages: string -> RetryPage, now: Stamp) returns (success: bool)
      modifies this
      ensures !browserReady ==> !success && postsData == old(postsData)
      ensures var pass := CrawlPostsPass(pages(baseUrl), stockCode, stockName, now);
        browserReady ==> postsData == old(postsData) + Appended(pass)
                         && (success <==> pass.Collected? && |postsData| > 0)
      ensures commentsData == old(commentsData)
    {
      if !browserReady {
        return false;
      }
      var count := CrawlPosts(pages, now);
      success := count > 0;
    }
  }
}
