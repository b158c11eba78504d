/**
 * The regex fallback: when no selector finds post rows, the anchors that the pattern
 * `<a ... title="..." ... href="..." ...>text</a>` matched become posts. Only matches whose href
 * passes the context filter are kept. The two crawlers number the placeholder authors
 * differently: main.py counts the accepted matches, the Playwright crawler uses the match's
 * position among all examined matches.
 */
module Fallback {
  import opened Text
  import opened Positions
  import opened Records

  /** The records main.py appends for the examined matches `ms`: author `用户{count+1}`, where
      `count` is the number of matches accepted before this one. */
  function CountedFallback(ms: seq<Match>, code: string, name: string, now: Stamp): seq<Post>
    decreases |ms|
  {
    if ms == [] then []
    else
      var n := |ms| - 1;
      var prev := CountedFallback(ms[..n], code, name, now);
      prev + if Accepts(code, ms[n].href) then [FallbackPost(ms[n], |prev| + 1, code, name, now)] else []
  }

  /** The records the Playwright crawler appends for the examined matches `ms`: author
      `用户{i+1}`, where `i` is the match's position among all examined matches. */
  function IndexedFallback(ms: seq<Match>, code: string, name: string, now: Stamp): seq<Post>
    decreases |ms|
  {
    if ms == [] then []
    else
      var n := |ms| - 1;
      IndexedFallback(ms[..n], code, name, now)
        + if Accepts(code, ms[n].href) then [FallbackPost(ms[n], n + 1, code, name, now)] else []
  }

  /** One more match appends its record, numbered after the records already appended, when it
      passes the filter. */
  lemma CountedFallbackStep(ms: seq<Match>, i: nat, code: string, name: string, now: Stamp)
    requires i < |ms|
    ensures var prev := CountedFallback(ms[..i], code, name, now);
      CountedFallback(ms[..i + 1], code, name, now)
        == prev + if Accepts(code, ms[i].href) then [FallbackPost(ms[i], |prev| + 1, code, name, now)] else []
  {
    assert ms[..i + 1][..i] == ms[..i];
  }

  /** One more match appends its record, numbered by its own position, when it passes the
      filter. */
  lemma IndexedFallbackStep(ms: seq<Match>, i: nat, code: string, name: string, now: Stamp)
    requires i < |ms|
    ensures IndexedFallback(ms[..i + 1], code, name, now)
      == IndexedFallback(ms[..i], code, name, now)
         + if Accepts(code, ms[i].href) then [FallbackPost(ms[i], i + 1, code, name, now)] else []
  {
    assert ms[..i + 1][..i] == ms[..i];
  }

  /** main.py keeps exactly the accepted matches, in match order, and numbers their authors
      1, 2, ... in that order. */
  lemma {:induction false} CountedFallbackInOrder(ms: seq<Match>, code: string, name: string, now: Stamp)
    ensures var idx := Where(AcceptMarks(ms, code));
      && |CountedFallback(ms, code, name, now)| == |idx|
      && forall k :: 0 <= k < |idx| ==>
           CountedFallback(ms, code, name, now)[k] == FallbackPost(ms[idx[k]], k + 1, code, name, now)
    decreases |ms|
  {
    if ms != [] {
      var n := |ms| - 1;
      CountedFallbackInOrder(ms[..n], code, name, now);
      CountedFallbackStep(ms, n, code, name, now);
      AcceptMarksPrefix(ms, n, code);
      var marks := AcceptMarks(ms, code);
      var before := Where(marks[..n]);
      var idx := Where(marks);
      var prev := CountedFallback(ms[..n], code, name, now);
      var posts := CountedFallback(ms, code, name, now);
      assert ms[..n + 1] == ms;
      assert idx == before + if marks[n] then [n] else [];
      assert posts == prev + if marks[n] then [FallbackPost(ms[n], |prev| + 1, code, name, now)] else [];
      forall k | 0 <= k < |idx|
        ensures posts[k] == FallbackPost(ms[idx[k]], k + 1, code, name, now)
      {
        if k < |before| {
          assert posts[k] == prev[k] && idx[k] == before[k];
          assert ms[..n][before[k]] == ms[idx[k]];
        } else {
          assert k == |prev| && idx[k] == n;
          assert posts[k] == FallbackPost(ms[n], |prev| + 1, code, name, now);
        }
      }
    }
  }

  /** The Playwright crawler keeps exactly the accepted matches, in match order, and numbers
      each author by the match's own position. */
  lemma {:induction false} IndexedFallbackInOrder(ms: seq<Match>, code: string, name: string, now: Stamp)
    ensures var idx := Where(AcceptMarks(ms, code));
      && |IndexedFallback(ms, code, name, now)| == |idx|
      && forall k :: 0 <= k < |idx| ==>
           IndexedFallback(ms, code, name, now)[k] == FallbackPost(ms[idx[k]], idx[k] + 1, code, name, now)
    decreases |ms|
  {
    if ms != [] {
      var n := |ms| - 1;
      IndexedFallbackInOrder(ms[..n], code, name, now);
      IndexedFallbackStep(ms, n, code, name, now);
      AcceptMarksPrefix(ms, n, code);
      var marks := AcceptMarks(ms, code);
      var before := Where(marks[..n]);
      var idx := Where(marks);
      var prev := IndexedFallback(ms[..n], code, name, now);
      var posts := IndexedFallback(ms, code, name, now);
      assert ms[..n + 1] == ms;
      assert idx == before + if marks[n] then [n] else [];
      assert posts == prev + if marks[n] then [FallbackPost(ms[n], n + 1, code, name, now)] else [];
      forall k | 0 <= k < |idx|
        ensures posts[k] == FallbackPost(ms[idx[k]], idx[k] + 1, code, name, now)
      {
        if k < |before| {
          assert posts[k] == prev[k];
          assert idx[k] == before[k];
          assert prev[k] == FallbackPost(ms[..n][before[k]], before[k] + 1, code, name, now);
          assert ms[..n][before[k]] == ms[idx[k]];
        } else {
          assert k == |prev|;
          assert idx[k] == n;
          assert posts[k] == FallbackPost(ms[n], n + 1, code, name, now);
        }
      }
    }
  }

  /** Every match the Playwright fallback keeps passes the filter, and its post's author is
      `用户{i+1}` for the match's position `i`. */
  lemma IndexedFallbackAuthors(ms: seq<Match>, code: string, name: string, now: Stamp)
    ensures var idx := Where(AcceptMarks(ms, code));
      && |IndexedFallback(ms, code, name, now)| == |idx|
      && forall k :: 0 <= k < |idx| ==>
        Accepts(code, ms[idx[k]].href) && IndexedFallback(ms, code, name, now)[k].author == UserLabel(idx[k] + 1)
  {
    IndexedFallbackInOrder(ms, code, name, now);
    var idx := Where(AcceptMarks(ms, code));
    forall k | 0 <= k < |idx|
      ensures Accepts(code, ms[idx[k]].href) && IndexedFallback(ms, code, name, now)[k].author == UserLabel(idx[k] + 1)
    {
      assert AcceptMarks(ms, code)[idx[k]];
      FallbackPostRules(ms[idx[k]], idx[k] + 1, code, name, now);
    }
  }

  /** The two fallbacks keep the same matches and build the same records except for the
      author. */
  lemma FallbackVariantsAgree(ms: seq<Match>, code: string, name: string, now: Stamp)
    ensures |CountedFallback(ms, code, name, now)| == |IndexedFallback(ms, code, name, now)|
    ensures forall k :: 0 <= k < |CountedFallback(ms, code, name, now)| ==>
      CountedFallback(ms, code, name, now)[k] == IndexedFallback(ms, code, name, now)[k].(author := UserLabel(k + 1))
  {
    CountedFallbackInOrder(ms, code, name, now);
    IndexedFallbackInOrder(ms, code, name, now);
    var counted := CountedFallback(ms, code, name, now);
    var indexed := IndexedFallback(ms, code, name, now);
    var idx := Where(AcceptMarks(ms, code));
    forall k | 0 <= k < |counted|
      ensures counted[k] == indexed[k].(author := UserLabel(k + 1))
    {
      assert counted[k] == FallbackPost(ms[idx[k]], k + 1, code, name, now);
      assert indexed[k] == FallbackPost(ms[idx[k]], idx[k] + 1, code, name, now);
    }
  }

  /** When every examined match is accepted, the two numberings coincide and both fallbacks give
      the same records. */
  lemma FallbackAllAccepted(ms: seq<Match>, code: string, name: string, now: Stamp)
    requires forall j :: 0 <= j < |ms| ==> Accepts(code, ms[j].href)
    ensures CountedFallback(ms, code, name, now) == IndexedFallback(ms, code, name, now)
  {
    CountedFallbackInOrder(ms, code, name, now);
    IndexedFallbackInOrder(ms, code, name, now);
    var marks := AcceptMarks(ms, code);
    WhereAll(marks);
    var counted := CountedFallback(ms, code, name, now);
    var indexed := IndexedFallback(ms, code, name, now);
    forall k | 0 <= k < |counted|
      ensures counted[k] == indexed[k]
    {
      assert Where(marks)[k] == k;
    }
  }

  /** Every record main.py's fallback appends is well formed with a URL that starts with "http", and there are
      no more records than examined matches. */
  lemma {:induction false} CountedFallbackWellFormed(ms: seq<Match>, code: string, name: string, now: Stamp)
    ensures |CountedFallback(ms, code, name, now)| <= |ms|
    ensures forall p :: p in CountedFallback(ms, code, name, now) ==>
      WellFormedPost(p, code, name, now) && StartsWith(p.postUrl, "http")
    decreases |ms|
  {
    if ms != [] {
      var n := |ms| - 1;
      CountedFallbackWellFormed(ms[..n], code, name, now);
      FallbackPostRules(ms[n], |CountedFallback(ms[..n], code, name, now)| + 1, code, name, now);
    }
  }

  /** Every record the Playwright fallback appends is well formed with a URL that starts with "http", and
      there are no more records than examined matches. */
  lemma {:induction false} IndexedFallbackWellFormed(ms: seq<Match>, code: string, name: string, now: Stamp)
    ensures |IndexedFallback(ms, code, name, now)| <= |ms|
    ensures forall p :: p in IndexedFallback(ms, code, name, now) ==>
      WellFormedPost(p, code, name, now) && StartsWith(p.postUrl, "http")
    decreases |ms|
  {
    if ms != [] {
      var n := |ms| - 1;
      IndexedFallbackWellFormed(ms[..n], code, name, now);
      FallbackPostRules(ms[n], |ms|, code, name, now);
    }
  }

  /** A page whose first examined anchor fails the filter and whose second passes: main.py
      labels the post's author `用户1`, the Playwright crawler `用户2`. */
  lemma NumberingDiffers(now: Stamp)
    ensures var ms := [Match("广告", "#", ""), Match("帖子", "002001,1.html", "")];
      && CountedFallback(ms, "002001", "新和成", now) == [FallbackPost(ms[1], 1, "002001", "新和成", now)]
      && IndexedFallback(ms, "002001", "新和成", now) == [FallbackPost(ms[1], 2, "002001", "新和成", now)]
      && UserLabel(1) != UserLabel(2)
  {
    var ms := [Match("广告", "#", ""), Match("帖子", "002001,1.html", "")];
    assert !Accepts("002001", ms[0].href);
    assert Accepts("002001", ms[1].href) by {
      assert StartsWith(ms[1].href, "002001");
    }
    assert ms[..1] == [ms[0]];
    assert ms[..1][..0] == [];
    LabelInjective("用户", 1, 2);
  }
}
