/**
 * The post and comment records the crawler emits, and the normaliser that builds them from what
 * the browser returned for one table row, one regex match or one comment node. Both crawler
 * classes build their records with these functions; they differ only in caps and numbering.
 */
module Records {
  import opened Outcomes
  import opened Text
  import opened Positions

  /** The two strings taken from `datetime.now()` for one record: `strftime('%Y-%m-%d %H:%M:%S')`
      and `isoformat()`. The clock itself is not modelled. */
  datatype Stamp = Stamp(clock: string, iso: string)

  /** A post as pushed to the dataset; the counters are the strings the crawler writes. */
  datatype Post = Post(
    title: string,
    author: string,
    postTime: string,
    readCount: string,
    replyCount: string,
    postUrl: string,
    stockCode: string,
    stockName: string,
    crawlTime: string)

  /** A comment; `floorNumber` is its 1-based position in the node list the crawler walked. */
  datatype Comment = Comment(
    author: string,
    content: string,
    commentTime: string,
    floorNumber: nat,
    postUrl: string,
    stockCode: string,
    crawlTime: string)

  const SiteRoot: string := "https://guba.eastmoney.com"
  const SiteDomain: string := "guba.eastmoney.com"
  const UnknownAuthor: string := "未知用户"
  /** Comment text is cut to this many characters after stripping. */
  const ContentLimit: nat := 500

  /** `f"帖子{n}"`: the placeholder title of the `n`-th row. */
  function PostLabel(n: nat): string { "帖子" + Decimal(n) }

  /** `f"用户{n}"`: the placeholder author of the `n`-th post. */
  function UserLabel(n: nat): string { "用户" + Decimal(n) }

  /** `f"评论用户{n}"`: the author written on the `n`-th comment. */
  function CommenterLabel(n: nat): string { "评论用户" + Decimal(n) }

  /** A placeholder neither starts nor ends with whitespace, so stripping keeps it. */
  lemma LabelStripped(prefix: string, n: nat)
    requires prefix != [] && !IsSpace(prefix[0])
    ensures Strip(prefix + Decimal(n)) == prefix + Decimal(n)
  {
    DecimalDigits(n);
    var d := Decimal(n);
    var s := prefix + d;
    assert s[0] == prefix[0];
    assert '0' <= d[|d| - 1] <= '9';
    assert s[|s| - 1] == d[|d| - 1];
    StripNoOp(s);
  }

  /** Two placeholders with the same prefix are equal exactly when their numbers are. */
  lemma LabelInjective(prefix: string, a: nat, b: nat)
    ensures prefix + Decimal(a) == prefix + Decimal(b) <==> a == b
  {
    if prefix + Decimal(a) == prefix + Decimal(b) {
      assert Decimal(a) == (prefix + Decimal(a))[|prefix|..];
      assert Decimal(b) == (prefix + Decimal(b))[|prefix|..];
      DecimalInjective(a, b);
    }
  }

  /** The forum's list page for a stock, `f"https://guba.eastmoney.com/list,{stock_code}.html"`. */
  function ListUrl(code: string): string {
    SiteRoot + "/list," + code + ".html"
  }

  /** The outcome of one list pass: it gave up before appending anything (the crawler returns
      0), or it appended `posts`, in order. */
  datatype ListPass = Aborted | Collected(posts: seq<Post>)

  /** The records a list pass appends. */
  function Appended(pass: ListPass): seq<Post> {
    match pass
    case Aborted => []
    case Collected(posts) => posts
  }

  // ---------------------------------------------------------------------------------------
  // URLs

  /** The regex-path URL rule: an href that starts with "http" is kept, any other is
      appended to the site root. */
  function Absolutize(href: string): (url: string)
    ensures StartsWith(url, "http")
    ensures StartsWith(href, "http") <==> url == href
    ensures !StartsWith(href, "http") ==> url == SiteRoot + href
  {
    if StartsWith(href, "http") then href else SiteRoot + href
  }

  /** The table-row URL rule for the link's `href` attribute (`None` when it is not set):
      a missing or empty href gives "", any other goes through `Absolutize`. */
  function LinkUrl(href: Option<string>): (url: string)
    ensures url == "" <==> (href == None || href == Some(""))
    ensures url != "" ==> url == Absolutize(href.value)
  {
    match href
    case None => ""
    case Some(h) => if h == "" then "" else Absolutize(h)
  }

  // ---------------------------------------------------------------------------------------
  // Table rows (the structured path)

  /** What the browser returns for a link inside a row: its `title` attribute (`None` when not
      set), its inner text, and its `href` attribute; each read may raise. */
  datatype Anchor = Anchor(
    titleAttr: Fallible<Option<string>>,
    innerText: Fallible<string>,
    href: Fallible<Option<string>>)

  /** What the browser returns for one row element: the lookups `a[title]` and `a`, and the
      lookup of an author node (`.author, .username, [class*="author"]`) with its inner text. */
  datatype PostRow = PostRow(
    titledLink: Fallible<Option<Anchor>>,
    anyLink: Fallible<Option<Anchor>>,
    authorNode: Fallible<Option<Fallible<string>>>)

  /** The row's link: the first `a[title]`, else the first `a`. */
  function RowLink(row: PostRow): Fallible<Option<Anchor>> {
    match row.titledLink
    case Raised => Raised
    case Ok(found) => if found.Some? then Ok(found) else row.anyLink
  }

  /** The unstripped title and the URL read from the row's link (`None` when the row has no
      link), or `Raised` when one of those reads raised: the title attribute, else the inner
      text when the attribute is missing or empty, then the href. */
  function LinkTitleAndUrl(row: PostRow): Fallible<Option<(string, string)>> {
    match RowLink(row)
    case Raised => Raised
    case Ok(None) => Ok(None)
    case Ok(Some(a)) =>
      match a.titleAttr
      case Raised => Raised
      case Ok(attr) =>
        var text := if attr.Some? && attr.value != "" then Ok(attr.value) else a.innerText;
        match text
        case Raised => Raised
        case Ok(t) =>
          match a.href
          case Raised => Raised
          case Ok(h) => Ok(Some((t, LinkUrl(h))))
  }

  /** The author text before stripping; a raising lookup or read leaves the default. */
  function RawAuthor(row: PostRow): string {
    match row.authorNode
    case Ok(Some(Ok(text))) => text
    case _ => UnknownAuthor
  }

  /** The record for the row at 0-based position `i`, or `Raised` when reading its link raised
      (the crawler then logs and skips the row). */
  function StructuredPost(row: PostRow, i: nat, code: string, name: string, now: Stamp): Fallible<Post> {
    match LinkTitleAndUrl(row)
    case Raised => Raised
    case Ok(link) =>
      var (title, url) := if link.Some? then link.value else (PostLabel(i + 1), "");
      var author := RawAuthor(row);
      Ok(Post(
        title := if title != "" then Strip(title) else PostLabel(i + 1),
        author := if author != "" then Strip(author) else UserLabel(i + 1),
        postTime := now.clock,
        readCount := "0",
        replyCount := "0",
        postUrl := url,
        stockCode := code,
        stockName := name,
        crawlTime := now.iso))
  }

  /** The fields every post record has, whatever the page held: zero counters, the crawl's stock,
      the pass's time stamp, and a URL that is empty or starts with "http". */
  predicate WellFormedPost(p: Post, code: string, name: string, now: Stamp) {
    && p.readCount == "0" && p.replyCount == "0"
    && p.stockCode == code && p.stockName == name
    && p.postTime == now.clock && p.crawlTime == now.iso
    && (p.postUrl == "" || StartsWith(p.postUrl, "http"))
  }

  /** Whether a row is skipped depends only on whether reading its link raised, never on the
      row's position. */
  lemma StructuredPostKept(row: PostRow, i: nat, j: nat, code: string, name: string, now: Stamp)
    ensures StructuredPost(row, i, code, name, now).Ok? == StructuredPost(row, j, code, name, now).Ok?
    ensures StructuredPost(row, i, code, name, now).Ok? <==> LinkTitleAndUrl(row).Ok?
  {
  }

  /** A kept row gives a well-formed record; its URL is empty exactly when the row has no link
      or the link's href is missing or empty. */
  lemma StructuredPostWellFormed(row: PostRow, i: nat, code: string, name: string, now: Stamp)
    requires LinkTitleAndUrl(row).Ok?
    ensures WellFormedPost(StructuredPost(row, i, code, name, now).value, code, name, now)
    ensures LinkTitleAndUrl(row).value == None ==> StructuredPost(row, i, code, name, now).value.postUrl == ""
  {
  }

  /** The title rule: the stripped link title, or `帖子{i+1}` when the row has no link or the
      link's title text is empty; either way the title is already stripped. */
  lemma StructuredPostTitle(row: PostRow, i: nat, code: string, name: string, now: Stamp)
    requires LinkTitleAndUrl(row).Ok?
    ensures var p := StructuredPost(row, i, code, name, now).value;
      var link := LinkTitleAndUrl(row).value;
      && Strip(p.title) == p.title
      && (link == None ==> p.title == PostLabel(i + 1))
      && (link.Some? && link.value.0 == "" ==> p.title == PostLabel(i + 1))
      && (link.Some? && link.value.0 != "" ==> p.title == Strip(link.value.0))
  {
    var link := LinkTitleAndUrl(row).value;
    LabelStripped("帖子", i + 1);
    if link.Some? {
      StripIdempotent(link.value.0);
    }
  }

  /** The author rule: "未知用户" when no author text was read (no node, or the lookup or the
      read raised), `用户{i+1}` when the text read is empty, else the stripped text. */
  lemma StructuredPostAuthor(row: PostRow, i: nat, code: string, name: string, now: Stamp)
    requires LinkTitleAndUrl(row).Ok?
    ensures var p := StructuredPost(row, i, code, name, now).value;
      && ((!row.authorNode.Ok? || row.authorNode.value.None? || !row.authorNode.value.value.Ok?)
            ==> p.author == UnknownAuthor)
      && (row.authorNode == Ok(Some(Ok(""))) ==> p.author == UserLabel(i + 1))
      && (RawAuthor(row) != "" ==> p.author == Strip(RawAuthor(row)))
  {
    StripNoOp(UnknownAuthor);
  }

  /** The record depends on the time stamp only through its two time fields. */
  lemma StructuredPostStampOnly(row: PostRow, i: nat, code: string, name: string, now1: Stamp, now2: Stamp)
    ensures StructuredPost(row, i, code, name, now1).Ok? == StructuredPost(row, i, code, name, now2).Ok?
    ensures StructuredPost(row, i, code, name, now1).Ok? ==>
      StructuredPost(row, i, code, name, now1).value.(postTime := "", crawlTime := "")
        == StructuredPost(row, i, code, name, now2).value.(postTime := "", crawlTime := "")
  {
  }

  /** Which rows of `rows` can be read (their position does not matter, see StructuredPostKept). */
  function ReadableMarks(rows: seq<PostRow>): (m: seq<bool>)
    ensures |m| == |rows|
  {
    seq(|rows|, j requires 0 <= j < |rows| => LinkTitleAndUrl(rows[j]).Ok?)
  }

  /** The records the row loop appends for `rows`, in row order, skipping rows that raise. */
  function StructuredPosts(rows: seq<PostRow>, code: string, name: string, now: Stamp): seq<Post>
    decreases |rows|
  {
    if rows == [] then []
    else
      var n := |rows| - 1;
      StructuredPosts(rows[..n], code, name, now) + Emitted(StructuredPost(rows[n], n, code, name, now))
  }

  /** One more row appends that row's record, if it has one. */
  lemma StructuredPostsStep(rows: seq<PostRow>, i: nat, code: string, name: string, now: Stamp)
    requires i < |rows|
    ensures StructuredPosts(rows[..i + 1], code, name, now)
      == StructuredPosts(rows[..i], code, name, now) + Emitted(StructuredPost(rows[i], i, code, name, now))
  {
    assert rows[..i + 1][..i] == rows[..i];
  }

  /** The row loop keeps exactly the readable rows, in order: the `k`-th record is the record of
      the `k`-th readable row, built with that row's own position. */
  lemma {:induction false} StructuredPostsInOrder(rows: seq<PostRow>, code: string, name: string, now: Stamp)
    ensures var idx := Where(ReadableMarks(rows));
      && |StructuredPosts(rows, code, name, now)| == |idx|
      && forall k :: 0 <= k < |idx| ==>
           StructuredPost(rows[idx[k]], idx[k], code, name, now) == Ok(StructuredPosts(rows, code, name, now)[k])
    decreases |rows|
  {
    if rows != [] {
      var n := |rows| - 1;
      StructuredPostsInOrder(rows[..n], code, name, now);
      StructuredPostsStep(rows, n, code, name, now);
      var marks := ReadableMarks(rows);
      assert marks[..n] == ReadableMarks(rows[..n]);
      var before := Where(marks[..n]);
      var idx := Where(marks);
      var prev := StructuredPosts(rows[..n], code, name, now);
      var posts := StructuredPosts(rows, code, name, now);
      var last := StructuredPost(rows[n], n, code, name, now);
      assert rows[..n + 1] == rows;
      assert marks[n] == last.Ok?;
      assert idx == before + if marks[n] then [n] else [];
      assert posts == prev + Emitted(last);
      forall k | 0 <= k < |idx|
        ensures StructuredPost(rows[idx[k]], idx[k], code, name, now) == Ok(posts[k])
      {
        if k < |before| {
          assert posts[k] == prev[k];
          assert idx[k] == before[k];
          assert rows[..n][before[k]] == rows[idx[k]];
        } else {
          assert k == |prev|;
          assert idx[k] == n;
          assert posts[k] == last.value;
        }
      }
    }
  }

  /** Every record of the row loop is well formed, and there are no more of them than rows. */
  lemma {:induction false} StructuredPostsWellFormed(rows: seq<PostRow>, code: string, name: string, now: Stamp)
    ensures |StructuredPosts(rows, code, name, now)| <= |rows|
    ensures forall p :: p in StructuredPosts(rows, code, name, now) ==> WellFormedPost(p, code, name, now)
    decreases |rows|
  {
    if rows != [] {
      var n := |rows| - 1;
      StructuredPostsWellFormed(rows[..n], code, name, now);
      if LinkTitleAndUrl(rows[n]).Ok? {
        StructuredPostWellFormed(rows[n], n, code, name, now);
      }
    }
  }

  /** When no row raises, every row gives exactly one record. */
  lemma StructuredPostsAllReadable(rows: seq<PostRow>, code: string, name: string, now: Stamp)
    requires forall j :: 0 <= j < |rows| ==> LinkTitleAndUrl(rows[j]).Ok?
    ensures |StructuredPosts(rows, code, name, now)| == |rows|
    ensures forall k :: 0 <= k < |rows| ==>
      StructuredPost(rows[k], k, code, name, now) == Ok(StructuredPosts(rows, code, name, now)[k])
  {
    StructuredPostsInOrder(rows, code, name, now);
    WhereAll(ReadableMarks(rows));
  }

  // ---------------------------------------------------------------------------------------
  // Regex matches (the fallback path)

  /** One `findall` triple of the anchor pattern: the `title` attribute, the `href` attribute
      and the link text. */
  datatype Match = Match(title: string, href: string, text: string)

  /** The context filter: the href mentions the stock code or the forum's domain. */
  predicate Accepts(code: string, href: string) {
    Contains(href, code) || Contains(href, SiteDomain)
  }

  /** The record for an accepted match, with author `用户{authorNo}`. */
  function FallbackPost(m: Match, authorNo: nat, code: string, name: string, now: Stamp): Post {
    Post(
      title := if m.title != "" then m.title else m.text,
      author := UserLabel(authorNo),
      postTime := now.clock,
      readCount := "0",
      replyCount := "0",
      postUrl := Absolutize(m.href),
      stockCode := code,
      stockName := name,
      crawlTime := now.iso)
  }

  /** A fallback record is well formed with a URL that starts with "http" (the href itself when
      it does, else the href appended to the site root); its title is the title attribute,
      or the link text when the attribute is empty, neither stripped. */
  lemma FallbackPostRules(m: Match, authorNo: nat, code: string, name: string, now: Stamp)
    ensures var p := FallbackPost(m, authorNo, code, name, now);
      && WellFormedPost(p, code, name, now) && StartsWith(p.postUrl, "http")
      && p.title == (if m.title != "" then m.title else m.text)
      && p.author == UserLabel(authorNo)
      && (StartsWith(m.href, "http") ==> p.postUrl == m.href)
      && (!StartsWith(m.href, "http") ==> p.postUrl == SiteRoot + m.href)
  {
  }

  /** Which matches pass the context filter. */
  function AcceptMarks(ms: seq<Match>, code: string): (m: seq<bool>)
    ensures |m| == |ms|
  {
    seq(|ms|, j requires 0 <= j < |ms| => Accepts(code, ms[j].href))
  }

  /** The marks of a prefix of the matches are the prefix of the marks. */
  lemma AcceptMarksPrefix(ms: seq<Match>, n: nat, code: string)
    requires n <= |ms|
    ensures AcceptMarks(ms, code)[..n] == AcceptMarks(ms[..n], code)
  {
  }

  // ---------------------------------------------------------------------------------------
  // Comments

  /** The record for the comment node at 0-based position `i` whose inner text is `text`. */
  function CommentRecord(text: string, i: nat, postUrl: string, code: string, now: Stamp): Comment {
    Comment(
      author := CommenterLabel(i + 1),
      content := if text != "" then Prefix(Strip(text), ContentLimit) else "",
      commentTime := now.clock,
      floorNumber := i + 1,
      postUrl := postUrl,
      stockCode := code,
      crawlTime := now.iso)
  }

  /** A comment record holds the stripped text cut to its first 500 characters (all of it when
      it fits), the floor `i + 1`, the author `评论用户{i+1}`, the post and the stock. */
  lemma CommentRecordRules(text: string, i: nat, postUrl: string, code: string, now: Stamp)
    ensures var c := CommentRecord(text, i, postUrl, code, now);
      && |c.content| <= ContentLimit && |c.content| <= |Strip(text)|
      && c.content == Strip(text)[..|c.content|]
      && (|Strip(text)| <= ContentLimit ==> c.content == Strip(text))
      && (|Strip(text)| > ContentLimit ==> |c.content| == ContentLimit)
      && c.floorNumber == i + 1 && c.author == CommenterLabel(i + 1)
      && c.postUrl == postUrl && c.stockCode == code
      && c.commentTime == now.clock && c.crawlTime == now.iso
  {
    if text == "" {
      StripNoOp(text);
    }
  }

  /** Which comment nodes' inner text could be read. */
  function ReadMarks(nodes: seq<Fallible<string>>): (m: seq<bool>)
    ensures |m| == |nodes|
  {
    seq(|nodes|, j requires 0 <= j < |nodes| => nodes[j].Ok?)
  }

  /** The records the comment loop appends for `nodes` (each the outcome of reading a node's
      inner text), in node order, skipping the nodes whose read raised. */
  function CommentRecords(nodes: seq<Fallible<string>>, postUrl: string, code: string, now: Stamp): seq<Comment>
    decreases |nodes|
  {
    if nodes == [] then []
    else
      var n := |nodes| - 1;
      CommentRecords(nodes[..n], postUrl, code, now)
        + if nodes[n].Ok? then [CommentRecord(nodes[n].value, n, postUrl, code, now)] else []
  }

  /** One more node appends that node's record when its text could be read. */
  lemma CommentRecordsStep(nodes: seq<Fallible<string>>, i: nat, postUrl: string, code: string, now: Stamp)
    requires i < |nodes|
    ensures CommentRecords(nodes[..i + 1], postUrl, code, now)
      == CommentRecords(nodes[..i], postUrl, code, now)
         + if nodes[i].Ok? then [CommentRecord(nodes[i].value, i, postUrl, code, now)] else []
  {
    assert nodes[..i + 1][..i] == nodes[..i];
  }

  /** The comment loop keeps exactly the readable nodes, in order, each numbered by its own
      position, so a skipped node leaves a gap in the floor numbers. */
  lemma {:induction false} CommentRecordsInOrder(nodes: seq<Fallible<string>>, postUrl: string, code: string, now: Stamp)
    ensures var idx := Where(ReadMarks(nodes));
      && |CommentRecords(nodes, postUrl, code, now)| == |idx|
      && forall k :: 0 <= k < |idx| ==>
           CommentRecords(nodes, postUrl, code, now)[k] == CommentRecord(nodes[idx[k]].value, idx[k], postUrl, code, now)
    decreases |nodes|
  {
    if nodes != [] {
      var n := |nodes| - 1;
      CommentRecordsInOrder(nodes[..n], postUrl, code, now);
      assert ReadMarks(nodes)[..n] == ReadMarks(nodes[..n]);
    }
  }

  /** Floor numbers of one pass rise strictly and stay within 1..|nodes|, and every content is
      at most 500 characters long. */
  lemma CommentFloors(nodes: seq<Fallible<string>>, postUrl: string, code: string, now: Stamp)
    ensures var cs := CommentRecords(nodes, postUrl, code, now);
      && |cs| <= |nodes|
      && (forall k :: 0 <= k < |cs| ==> 1 <= cs[k].floorNumber <= |nodes| && |cs[k].content| <= ContentLimit)
      && (forall k, l :: 0 <= k < l < |cs| ==> cs[k].floorNumber < cs[l].floorNumber)
  {
    CommentRecordsInOrder(nodes, postUrl, code, now);
    WhereShape(ReadMarks(nodes));
    var cs := CommentRecords(nodes, postUrl, code, now);
    var idx := Where(ReadMarks(nodes));
    forall k | 0 <= k < |cs|
      ensures 1 <= cs[k].floorNumber <= |nodes| && |cs[k].content| <= ContentLimit
    {
      CommentRecordRules(nodes[idx[k]].value, idx[k], postUrl, code, now);
    }
  }
}
