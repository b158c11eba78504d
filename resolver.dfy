/**
 * The selector cascade: an ordered list of CSS selectors is queried in turn and the first one
 * that finds at least one element wins. A query that raises counts as finding nothing.
 */
module Resolver {
  import opened Outcomes

  type Selector = string

  /** The post-row selectors, most specific first. */
  const PostSelectors: seq<Selector> :=
    ["tr.listitem", "tr[class*=\"listitem\"]", ".articleh", ".normal_post", "tbody tr"]

  /** The comment-node selectors, most specific first. */
  const CommentSelectors: seq<Selector> :=
    [".reply-item", ".comment-item", ".stock-comment", "[class*=\"comment\"]", "[class*=\"reply\"]"]

  /** A query outcome that ends the cascade: it returned a non-empty element list. */
  predicate Hit<E>(outcome: Fallible<seq<E>>) {
    outcome.Ok? && outcome.value != []
  }

  /** The elements the cascade settles on and the selectors it queried, in order. */
  datatype Resolution<E> = Resolution(elements: seq<E>, queried: seq<Selector>)

  /** The cascade's outcome over `selectors`, where `query(s)` is what `page.query_selector_all(s)`
      returns or `Raised`. */
  function Cascade<E>(selectors: seq<Selector>, query: Selector -> Fallible<seq<E>>): Resolution<E>
    decreases |selectors|
  {
    if selectors == [] then Resolution([], [])
    else if Hit(query(selectors[0])) then Resolution(query(selectors[0]).value, [selectors[0]])
    else
      var rest := Cascade(selectors[1..], query);
      Resolution(rest.elements, [selectors[0]] + rest.queried)
  }

  /** Strict priority: when `selectors[k]` is the first selector that finds something, the
      cascade returns exactly its elements, and it queried `selectors[0..k]` and nothing after. */
  lemma {:induction false} FirstHitWins<E>(selectors: seq<Selector>, query: Selector -> Fallible<seq<E>>, k: nat)
    requires k < |selectors| && Hit(query(selectors[k]))
    requires forall j :: 0 <= j < k ==> !Hit(query(selectors[j]))
    ensures Cascade(selectors, query) == Resolution(query(selectors[k]).value, selectors[..k + 1])
    decreases k
  {
    if k > 0 {
      FirstHitWins(selectors[1..], query, k - 1);
      assert selectors[..k + 1] == [selectors[0]] + selectors[1..][..k];
    }
  }

  /** When no selector finds anything (each returns nothing or raises), every selector is
      queried and the cascade yields no elements, the signal for the regex fallback. */
  lemma {:induction false} NoHitQueriesAll<E>(selectors: seq<Selector>, query: Selector -> Fallible<seq<E>>)
    requires forall j :: 0 <= j < |selectors| ==> !Hit(query(selectors[j]))
    ensures Cascade(selectors, query) == Resolution([], selectors)
    decreases |selectors|
  {
    if selectors != [] {
      NoHitQueriesAll(selectors[1..], query);
      assert selectors == [selectors[0]] + selectors[1..];
    }
  }

  /** The cascade yields elements exactly when some selector finds some, and what it yields is
      then the full result of the last selector it queried. */
  lemma {:induction false} CascadeFindsIff<E>(selectors: seq<Selector>, query: Selector -> Fallible<seq<E>>)
    ensures var r := Cascade(selectors, query);
      && (r.elements != [] <==> exists j :: 0 <= j < |selectors| && Hit(query(selectors[j])))
      && |r.queried| <= |selectors| && r.queried == selectors[..|r.queried|]
      && (r.elements != [] ==> r.queried != [] && query(r.queried[|r.queried| - 1]) == Ok(r.elements))
    decreases |selectors|
  {
    if selectors != [] && !Hit(query(selectors[0])) {
      CascadeFindsIff(selectors[1..], query);
      var rest := Cascade(selectors[1..], query);
      assert [selectors[0]] + selectors[1..][..|rest.queried|] == selectors[..1 + |rest.queried|];
      if exists j :: 0 <= j < |selectors| && Hit(query(selectors[j])) {
        var j :| 0 <= j < |selectors| && Hit(query(selectors[j]));
        assert Hit(query(selectors[1..][j - 1]));
      }
    }
  }

  /** The cascade loop: query each selector in order, stop at the first non-empty result, and
      skip a selector whose query raised. */
  method Resolve<E>(selectors: seq<Selector>, query: Selector -> Fallible<seq<E>>) returns (r: Resolution<E>)
    ensures r == Cascade(selectors, query)
  {
    var queried: seq<Selector> := [];
    var i := 0;
    while i < |selectors|
      invariant 0 <= i <= |selectors|
      invariant queried == selectors[..i]
      invariant forall j :: 0 <= j < i ==> !Hit(query(selectors[j]))
    {
      var outcome := query(selectors[i]);
      queried := queried + [selectors[i]];
      if outcome.Ok? && outcome.value != [] {
        FirstHitWins(selectors, query, i);
        return Resolution(outcome.value, queried);
      }
      i := i + 1;
    }
    NoHitQueriesAll(selectors, query);
    assert queried == selectors;
    return Resolution([], queried);
  }
}
