# EastMoney forum crawler — a Dafny model

This project models the extraction and normalisation layer of a crawler for the EastMoney
stock forum (`guba.eastmoney.com`). The source has two crawlers:

- The Apify actor crawler `EastMoneyCrawler` in `main.py`, together with the actor flow `main`.
- The stand-alone `PlaywrightEastMoneyCrawler` in `playwright_eastmoney_crawler.py`.

Both crawlers load a stock's list page and check its title. They find the post rows with a
cascade of CSS selectors. When no selector finds anything, they fall back to a regex over the
page's HTML. They then build one post record per usable row or match. The actor crawler can also
visit the first five posts and collect up to `max_comments` comments from each.

Everything the browser reports is an input to the model:

- a selector query is `Selector -> Fallible<seq<E>>`, where `Raised` means the call threw;
- each navigation attempt gives the page title or `Raised`;
- the regex `findall` result is a sequence of `(title, href, text)` triples;
- a comment node is the outcome of reading its inner text.

The two time strings of `datetime.now()` are one opaque `Stamp` per pass.

Modules:

| module | file | what it holds |
|---|---|---|
| `Outcomes` | outcomes.dfy | `Option`, `Fallible` (a value, or the call raised), `Emitted` |
| `Text` | text.dfy | Python's `str.strip()`, `in` on strings, `startswith`, slicing with an int bound, decimal rendering of a number |
| `Positions` | positions.dfy | `Where`: the positions of the marked elements, used to state "kept in order" |
| `Resolver` | resolver.dfy | the selector lists, the cascade `Cascade`, and the loop `Resolve` |
| `Navigation` | navigation.dfy | the title check and `safe_goto`'s bounded retry loop (`NavigateFrom`) |
| `Records` | records.dfy | post and comment records; the row, match and comment normalisers; the row loop and the comment loop as functions |
| `Fallback` | fallback.dfy | the regex fallback's two numberings: main.py counts accepted matches, the Playwright crawler uses match positions |
| `ActorCrawler` | crawler.dfy | `class EastMoneyCrawler` (`CrawlPostList`, `CrawlComments`), the comment-target rule, and `RunActor` (the actor flow) |
| `PlaywrightCrawler` | playwright.dfy | `class PlaywrightEastMoneyCrawler` (`SafeGoto`, `CrawlPosts`, `Run`) |

Each method that changes a crawler's lists is proved against a specification function of its
inputs (`PostListPass`, `CommentPassOf`, `CrawlPostsPass`, `CommentsFor`). The lemmas beside those
functions state what the source promises about them.

In three places the code behaves differently from what a reader might expect of such a crawler.
The model follows the code:

- One might expect a retry back-off that grows and never decreases. `safe_goto` sleeps 5 s
  only after an exception on a non-final attempt. A title mismatch retries at once.
- One might expect a post title never to be empty. The code strips the title after its
  emptiness check, so a whitespace-only title or author becomes "".
- main.py's `crawl_comments` does not check the post page's title. Only a raising `goto` makes
  it give up before the comment cascade runs. It also returns 0 when the page loads but no
  comment selector finds a node, or when `max_comments` is 0, or negative by at least the number
  of nodes found (Python's `[:max_comments]` then keeps none).

Where a URL "starts with http" below, that is all it means. The source keeps any href that
starts with the four letters `http` unchanged (`httpx.html` included). It appends any other href
to `https://guba.eastmoney.com` without adding a slash.

## Model

| member | source | states |
|---|---|---|
| Resolver.Cascade | main.py:62-72 | computes the cascade: the elements of the first selector whose query returned a non-empty list, and the selectors queried up to it; a raising query counts as empty; its properties are the three lemmas below |
| Resolver.Resolve | main.py:62-72 | the selector loop returns exactly the cascade's resolution: the first non-empty result in list order, and the selectors queried up to it |
| Resolver.FirstHitWins | main.py:63-69 | when selector k is the first with a non-empty result, the cascade returns its elements, and it queried exactly selectors 0..k and none after |
| Resolver.NoHitQueriesAll | main.py:63-72 | when every selector returns nothing or raises, every selector is queried and no elements result |
| Resolver.CascadeFindsIff | playwright_eastmoney_crawler.py:122-132 | the cascade finds elements iff some selector has a non-empty result; the queried selectors are a prefix of the list, and the elements are the full result of the last one queried |
| Navigation.TitleVerified | main.py:43-44 | computes the title check: the title is non-empty and contains "东方财富" or "股吧" |
| Navigation.Verified | playwright_eastmoney_crawler.py:80-85 | computes whether one attempt succeeded: `goto` and `title()` returned, and the title passes the check |
| Navigation.NavigateFrom | playwright_eastmoney_crawler.py:76-99 | computes the retry loop from attempt k: stop on a verified title, retry at once on a mismatch, retry after 5 s on a raise, give up on a raise at the last attempt; its properties are the two lemmas below |
| Navigation.Navigate | playwright_eastmoney_crawler.py:74-99 | computes `safe_goto(url, max_retries)`: the retry loop from the first attempt; its properties are `Navigation.NavigateSpec` |
| Navigation.PauseAfter | playwright_eastmoney_crawler.py:91-97 | computes the pause after attempt k: 5 s after a raise that is not on the last attempt, else none |
| Navigation.NavigateFromPauses | playwright_eastmoney_crawler.py:76-97 | from attempt k: at most the remaining budget of attempts, one pause per attempt, and a 5 s pause exactly after an exception on a non-final attempt |
| Navigation.NavigateFromOutcome | playwright_eastmoney_crawler.py:76-99 | from attempt k: loaded iff some remaining attempt shows a verified title; it stops at the first one; otherwise it uses the whole remaining budget |
| Navigation.NavigateSpec | playwright_eastmoney_crawler.py:74-99 | `safe_goto` makes at most `max_retries` attempts; it returns True iff some attempt's title contains "东方财富" or "股吧"; it stops at the first such attempt; on failure it used every attempt; it pauses only after a non-final exception |
| Navigation.AlwaysFailing | playwright_eastmoney_crawler.py:91-99 | a target that never verifies costs exactly the whole budget and ends in False |
| Navigation.NavigateStep | playwright_eastmoney_crawler.py:88-94 | an unverified attempt that is not a final raise is followed by the rest of the loop, after its pause |
| PlaywrightCrawler.PlaywrightEastMoneyCrawler.SafeGoto | playwright_eastmoney_crawler.py:74-99 | the retry loop returns exactly `Navigate(attempt, maxRetries)`: the outcome, the number of attempts and the pauses |
| Text.StripShape | main.py:138-139 | `strip()` gives a contiguous slice with no whitespace at either end; it is empty iff the string is all whitespace |
| Text.Strip | main.py:138 | computes Python's `strip()`: whitespace cut from the left, then from the right; its properties are `Text.StripShape` and `Text.StripIdempotent` |
| Text.StartsWith | main.py:89 | computes `s.startswith(p)`: `p` is no longer than `s` and equals its first characters |
| Text.Contains | main.py:88 | computes Python's `sub in s`: `sub` starts `s` or is in its tail; its properties are `Text.ContainsIff` |
| Text.Decimal | main.py:93 | computes `f"{n}"` for a natural number, most significant digit first; its properties are the three `Decimal*` lemmas |
| Text.StripIdempotent | main.py:138 | stripping twice equals stripping once |
| Text.ContainsIff | main.py:88 | Python's `sub in s` holds iff `sub` occurs at some position of `s` |
| Text.DecimalRoundTrip | main.py:93 | the decimal rendering used in `用户{n}` and `帖子{n}` reads back as `n` |
| Text.DecimalInjective | main.py:196 | distinct numbers get distinct renderings, so distinct placeholder labels |
| Text.DecimalDigits | main.py:125 | a rendering is non-empty and all digits |
| Text.Prefix | main.py:87 | Python slicing `s[:n]` for any integer n: a prefix of `s` of length n clipped to 0..len(s), counting from the end when n is negative |
| Positions.WhereShape | main.py:190 | the kept positions rise strictly, and every marked position is kept |
| Records.LabelStripped | main.py:125 | a placeholder such as `帖子{n}` is unchanged by `strip()` |
| Records.LabelInjective | main.py:93 | placeholders with the same prefix, such as `用户{a}` and `用户{b}`, are equal exactly when the numbers are |
| Records.ListUrl | main.py:26 | computes the list page `https://guba.eastmoney.com/list,{code}.html` |
| Records.Absolutize | main.py:89 | the result starts with "http"; it equals the href exactly when the href starts with "http"; otherwise it is the site root followed by the href |
| Records.StructuredPost | main.py:111-149 | computes the record of row i: `Raised` when a link read raised, else the title, URL and author rules of the row path with the pass's stock and stamp; its properties are the `StructuredPost*` lemmas |
| Records.WellFormedPost | main.py:137-147 | computes the fields every post record shares: counters "0", the crawler's stock code and name, the pass's time stamp, and a URL that is empty or starts with "http" |
| Records.FallbackPost | main.py:89-101 | computes the record of an accepted match with author `用户{n}`; its properties are `Records.FallbackPostRules` |
| Records.Accepts | main.py:88 | computes the fallback's href filter: the href contains the stock code or "guba.eastmoney.com" |
| Records.CommentRecord | main.py:195-203 | computes the record of comment node i from its inner text; its properties are `Records.CommentRecordRules` |
| Records.LinkUrl | main.py:122-123 | a missing or empty href gives ""; any other href is kept if it starts with "http", else prefixed with the site root |
| Records.RowLink | main.py:113-115 | computes the row's link: the first `a[title]`, else the first `a`; a raising lookup raises |
| Records.LinkTitleAndUrl | main.py:117-123 | computes the raw title and URL of the row's link: the `title` attribute, or the inner text when the attribute is missing or empty, and the `LinkUrl` of the href; `None` without a link; any raising read raises |
| Records.RawAuthor | main.py:129-135 | computes the unstripped author: the author node's inner text, or "未知用户" when there is no node or its lookup or read raised |
| Records.StructuredPostKept | main.py:110-154 | a row is skipped iff reading its link raised, whatever its position |
| Records.StructuredPostWellFormed | main.py:137-147 | a kept row's record has counters "0", the crawler's stock code and name, the pass's time stamp, and a URL that is empty or starts with "http"; with no link the URL is "" |
| Records.StructuredPostTitle | main.py:113-138 | the title is the stripped `title` attribute, else the anchor's inner text stripped; it is `帖子{i+1}` when the row has no link or that text is empty |
| Records.StructuredPostAuthor | main.py:129-139 | the author is "未知用户" when no author text was read (no node, or the lookup or read raised), `用户{i+1}` when the text read is empty, else the stripped text |
| Records.StructuredPostStampOnly | main.py:140-146 | the record depends on the clock only through its two time fields |
| Records.StructuredPosts | main.py:110-154 | computes what the row loop appends: the record of each row, in order, skipping rows whose reads raised; its properties are the lemmas below |
| Records.StructuredPostsStep | main.py:110-154 | one more row appends that row's record, if it has one |
| Records.StructuredPostsInOrder | main.py:110-154 | the row loop keeps exactly the readable rows, in order; the k-th record is built from the k-th readable row with that row's own index |
| Records.StructuredPostsWellFormed | main.py:137-149 | every record of the row loop is well formed, and there are no more records than rows |
| Records.StructuredPostsAllReadable | main.py:110-154 | when no row raises, each row gives exactly one record, at its own position |
| Records.FallbackPostRules | main.py:88-101 | a fallback record is well formed with a URL that starts with "http" (the href if it starts with "http", else the site root followed by the href); its title is `title or text`, unstripped; its author is `用户{n}` |
| Records.AcceptMarksPrefix | main.py:87-88 | the filter marks of a prefix of the matches are a prefix of the marks |
| Records.CommentRecordRules | main.py:193-203 | the content is a prefix of the stripped text: all of it when it has at most 500 characters, exactly its first 500 when it is longer, and "" for empty text; floor i+1, author `评论用户{i+1}`, the post URL and the stock code |
| Records.CommentRecords | main.py:190-209 | computes what the comment loop appends: the record of each node whose text could be read, in order |
| Records.CommentRecordsStep | main.py:190-209 | one more node appends its record when its text could be read |
| Records.CommentRecordsInOrder | main.py:190-209 | the comment loop keeps exactly the readable nodes, in order, each numbered by its own index, so a failing node leaves a gap in the floors |
| Records.CommentFloors | main.py:190-211 | floors rise strictly within 1..n; every content has at most 500 characters; there are no more comments than nodes |
| Fallback.CountedFallback | main.py:86-104 | computes main.py's fallback records: one per accepted match, in order, authored by the number of matches accepted so far |
| Fallback.IndexedFallback | playwright_eastmoney_crawler.py:146-162 | computes the Playwright fallback records: one per accepted match, in order, authored by the match's own index |
| Fallback.CountedFallbackStep | main.py:86-104 | one more match appends its record, numbered after the records already appended, when it passes the filter |
| Fallback.IndexedFallbackStep | playwright_eastmoney_crawler.py:146-162 | one more match appends its record, numbered by its own index, when it passes the filter |
| Fallback.CountedFallbackInOrder | main.py:86-107 | main.py keeps exactly the accepted matches, in match order, with authors `用户1`, `用户2`, ... counted over the accepted ones |
| Fallback.IndexedFallbackInOrder | playwright_eastmoney_crawler.py:146-165 | the Playwright crawler keeps exactly the accepted matches, in match order, with author `用户{i+1}` for the match's index i among all examined matches |
| Fallback.IndexedFallbackAuthors | playwright_eastmoney_crawler.py:147-152 | every kept match passes the href filter, and its author is `用户{i+1}` for its index i |
| Fallback.FallbackVariantsAgree | playwright_eastmoney_crawler.py:146-163 | the two fallbacks keep the same matches and build the same records except the author |
| Fallback.FallbackAllAccepted | main.py:86-104 | when every examined match passes the filter, the two numberings give the same records |
| Fallback.CountedFallbackWellFormed | main.py:88-103 | every record of main.py's fallback is well formed with a URL that starts with "http", and there are no more records than matches |
| Fallback.IndexedFallbackWellFormed | playwright_eastmoney_crawler.py:147-162 | every record of the Playwright fallback is well formed with a URL that starts with "http", and there are no more records than matches |
| Fallback.NumberingDiffers | playwright_eastmoney_crawler.py:152 | a rejected first match and an accepted second one: main.py names the author `用户1`, the Playwright crawler `用户2` |
| ActorCrawler.PostListPass | main.py:33-160 | computes the records one `crawl_post_list` call appends, or that it gave up: the title gate, the cascade, the row loop over the first `max_posts` rows, or the fallback over the first `max_posts` matches |
| ActorCrawler.CommentPassOf | main.py:162-215 | computes the comments one `crawl_comments` call appends and the count it returns |
| ActorCrawler.PostListPassAborts | main.py:38-160 | the list pass gives up iff `goto` or `title()` raised, or the title is empty or contains neither "东方财富" nor "股吧", or no selector finds rows and the HTML cannot be read; after a failed title check nothing is appended |
| ActorCrawler.PostListPassStructured | main.py:110-156 | when a selector finds rows, the pass keeps the readable rows among the first `max_posts`, in order, each built with its own index; the rows are the winning selector's full result; all records are well formed |
| ActorCrawler.PostListPassFallback | main.py:74-107 | the fallback runs only when every selector found nothing; the cap applies before the filter; the accepted matches among the first `max_posts` are kept in order, authors counted 1..k over them, each with a URL that starts with "http" |
| ActorCrawler.PrimaryRowsAllKept | main.py:54-72 | when the first selector finds at most `max_posts` rows and none raises, each row gives one record, in row order |
| ActorCrawler.AnchorsAllKept | main.py:86-104 | with no selector hit and at most `max_posts` matches that all pass the filter: one post per match, in match order, titled `title or text`, authored `用户{k+1}` |
| ActorCrawler.CommentPassRules | main.py:162-215 | a raising `goto` gives no comments and 0; otherwise the count is min(nodes found, `max_comments`), whatever the per-node failures; the records are those of the readable nodes among the counted ones, in order, each built by `CommentRecord` with its own index (so its content is exactly the first 500 characters of the stripped text, or all of it); floors rise within 1..count, and each names the post and the stock |
| ActorCrawler.CommentTargets | main.py:278-284 | computes the URLs whose comments the actor crawls: none unless comment crawling is on and posts were collected, else the non-empty URLs of the first five posts |
| ActorCrawler.PostUrls | main.py:281-282 | computes the non-empty URLs of a list of posts, in order |
| ActorCrawler.PostUrlsStep | main.py:281-282 | one more post adds its URL to the targets when it is non-empty |
| ActorCrawler.PostUrlsInOrder | main.py:281-284 | the targets are exactly the posts with a non-empty URL, in order |
| ActorCrawler.CommentTargetsRules | main.py:278-286 | there are no targets unless comment crawling is on; at most five targets, none empty, each the URL of one of the first five posts, in order; every such URL is a target |
| ActorCrawler.FiveTargets | main.py:281 | with at least five posts that all have URLs, exactly the first five are visited |
| ActorCrawler.CommentsFor | main.py:281-286 | computes the comments collected by visiting a list of URLs in turn, each visit with the default `max_comments` of 5 |
| ActorCrawler.CommentsForSnoc | main.py:281-286 | visiting one more URL appends that visit's comments |
| ActorCrawler.CommentsForBelong | main.py:281-290 | every collected comment belongs to a visited post and to the crawl's stock |
| ActorCrawler.EastMoneyCrawler.constructor | main.py:21-31 | the crawl's settings are stored; `base_url` is the stock's list page; both lists start empty |
| ActorCrawler.EastMoneyCrawler.CrawlPostList | main.py:33-160 | `posts_data` gains exactly the list pass's records, and the result is 0 when the pass gave up, else the length of `posts_data`; `comments_data` is unchanged |
| ActorCrawler.EastMoneyCrawler.CrawlComments | main.py:162-215 | `comments_data` gains exactly the comment pass's records, and the result is the pass's count; `posts_data` is unchanged |
| ActorCrawler.CrawlFirstComments | main.py:281-286 | the loop visits the non-empty URLs of the first five posts, in order, appends each visit's comments, and leaves `posts_data` alone |
| ActorCrawler.RunActor | main.py:225-291 | with the input's defaults ('002001', '新和成', 10, False, True), `posts_data` is the list pass's records, the count is their number, comments are crawled for exactly the comment targets, and `comments_data` is their comments |
| PlaywrightCrawler.CrawlPostsPass | playwright_eastmoney_crawler.py:101-218 | computes the records one `crawl_posts` call appends, or that it gave up: the `safe_goto` gate, the cascade, the row loop over the first 10 rows, or the fallback over the first 10 matches |
| PlaywrightCrawler.CrawlPostsPassAborts | playwright_eastmoney_crawler.py:107-108 | the pass gives up iff none of the three attempts reaches a verified title, or no selector finds rows and the HTML cannot be read |
| PlaywrightCrawler.CrawlPostsPassStructured | playwright_eastmoney_crawler.py:168-214 | at most 10 rows are used; the readable ones are kept, in order, each built with its own index; all records are well formed |
| PlaywrightCrawler.CrawlPostsPassFallback | playwright_eastmoney_crawler.py:134-165 | the pass holds the Playwright fallback's records for the first 10 matches at most, all well formed with URLs that start with "http" |
| PlaywrightCrawler.NavigationFailureCollectsNothing | playwright_eastmoney_crawler.py:107-108 | a list page that never verifies costs exactly three attempts and yields no posts |
| PlaywrightCrawler.PlaywrightEastMoneyCrawler.constructor | playwright_eastmoney_crawler.py:17-35 | the defaults are "002001" and "新和成"; `base_url` is the list page; both lists start empty |
| PlaywrightCrawler.PlaywrightEastMoneyCrawler.CrawlPosts | playwright_eastmoney_crawler.py:101-218 | `posts_data` gains exactly the pass's records, and is unchanged when `safe_goto` fails; the result is 0 when the pass gave up, else the length of `posts_data` |
| PlaywrightCrawler.PlaywrightEastMoneyCrawler.Run | playwright_eastmoney_crawler.py:245-275 | without a browser: False and nothing crawled; otherwise `posts_data` gains the pass's records, and the result is True iff the pass collected and `posts_data` is non-empty |

## Left out

- Browser launch and teardown (`init_browser`, and `main.py:246-266`, `main.py:293-294`): foreign runtime calls. `Run` takes whether the browser started as a boolean. In `main`, a failing browser launch ends the actor; the model does not cover that.
- Sleeps: the 3 s settle waits, the 5 s settle wait after `safe_goto` in `crawl_posts`, the 5 s back-off and the 2 s pause between comment visits. They take no part in the logic. `NavigateFrom` records the back-off only as a pause value per attempt.
- Timeouts and the wall clock: each pass takes one opaque `Stamp`. In the source the clock moves between records; the model gives every record of a pass the same two time strings.
- The regex engine (`re.findall`): a library call. Its triples are an input.
- `save_data`, `Actor.get_input` and `Actor.push_data`, and logging: I/O. The actor input is a record of optional fields. A key present with a `None` value, or a value of another type, is not modelled.
- The browser's answers are snapshots: a URL shows the same page every time it is asked. Page changes between calls, and concurrent use of the page, are not modelled.
- Exceptions inside the structured path are modelled only where the code catches them per element: the link lookups, the title and href reads, and the author lookup and read. Those in logging calls are left out.
- The demo and test scripts (`playright/`, `check_database.py`, `check_post_fields.py`, `simple_comment_test.py`, `test_comment_crawler.py`, `test_import.py`): UI, database inspection, or imports of modules outside the repository.
- `max_posts` and `max_comments` are integers; a negative bound follows Python's slicing. Other types are not modelled.
- PlaywrightCrawler.CrawlPostsPassFallback: states only which records the pass holds and that they are well formed; their order and author numbering are stated by Fallback.IndexedFallbackInOrder and Fallback.IndexedFallbackAuthors on the same records.
