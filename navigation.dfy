/**
 * Page-load verification and the bounded retry loop of `safe_goto`. Attempt `k` either raises
 * (in `goto` or in reading the title) or yields the page title; a load is verified when the
 * title names the forum.
 */
module Navigation {
  import opened Outcomes
  import opened Text

  /** `title and ("东方财富" in title or "股吧" in title)`. */
  predicate TitleVerified(title: string) {
    title != "" && (Contains(title, "东方财富") || Contains(title, "股吧"))
  }

  /** An attempt that loaded a page whose title passes the check. */
  predicate Verified(outcome: Fallible<string>) {
    outcome.Ok? && TitleVerified(outcome.value)
  }

  /** The number of attempts `safe_goto` makes by default. */
  const DefaultRetries: int := 3

  /** The pause, in seconds, after an attempt that raised when another attempt follows. */
  const BackoffSeconds: nat := 5

  /** The outcome of a navigation: whether a verified page was reached, how many attempts were
      made, and the back-off pause taken after each attempt (0 for none). */
  datatype Navigation = Navigation(loaded: bool, attempts: nat, pauses: seq<nat>)

  function Budget(maxRetries: int): nat {
    if maxRetries > 0 then maxRetries else 0
  }

  /** The navigation from attempt `k` on, as `safe_goto` runs it: a verified title returns at
      once; a title mismatch retries without a pause; a raise retries after the back-off, except
      on the last attempt, which gives up. */
  function NavigateFrom(attempt: nat -> Fallible<string>, maxRetries: int, k: nat): Navigation
    decreases Budget(maxRetries) - k
  {
    if k >= maxRetries then Navigation(false, 0, [])
    else match attempt(k)
      case Ok(title) =>
        if TitleVerified(title) then Navigation(true, 1, [0])
        else
          var rest := NavigateFrom(attempt, maxRetries, k + 1);
          Navigation(rest.loaded, rest.attempts + 1, [0] + rest.pauses)
      case Raised =>
        if k < maxRetries - 1 then
          var rest := NavigateFrom(attempt, maxRetries, k + 1);
          Navigation(rest.loaded, rest.attempts + 1, [BackoffSeconds] + rest.pauses)
        else Navigation(false, 1, [0])
  }

  /** `safe_goto(url, max_retries)` where `attempt(k)` is what the `k`-th try at `url` gives. */
  function Navigate(attempt: nat -> Fallible<string>, maxRetries: int): Navigation {
    NavigateFrom(attempt, maxRetries, 0)
  }

  /** The pause `safe_goto` takes after attempt `k`: the back-off only after a raise that is not
      on the last attempt. */
  function PauseAfter(attempt: nat -> Fallible<string>, maxRetries: int, k: nat): nat {
    if attempt(k).Raised? && k < maxRetries - 1 then BackoffSeconds else 0
  }

  /** The navigation from attempt `k` makes at most the remaining budget of attempts, records one
      pause per attempt, and pauses only after a non-final raise. */
  lemma {:induction false} NavigateFromPauses(attempt: nat -> Fallible<string>, maxRetries: int, k: nat)
    ensures var n := NavigateFrom(attempt, maxRetries, k);
      && n.attempts <= Budget(maxRetries - k) && |n.pauses| == n.attempts
      && (forall j :: 0 <= j < n.attempts ==> n.pauses[j] == PauseAfter(attempt, maxRetries, k + j))
    decreases Budget(maxRetries) - k
  {
    if k < maxRetries && !Verified(attempt(k)) && (attempt(k).Ok? || k < maxRetries - 1) {
      NavigateFromPauses(attempt, maxRetries, k + 1);
      NavigateStep(attempt, maxRetries, k);
      var n := NavigateFrom(attempt, maxRetries, k);
      var rest := NavigateFrom(attempt, maxRetries, k + 1);
      forall j | 0 <= j < n.attempts
        ensures n.pauses[j] == PauseAfter(attempt, maxRetries, k + j)
      {
        if j > 0 {
          assert n.pauses[j] == rest.pauses[j - 1];
        }
      }
    }
  }

  /** The navigation from attempt `k` succeeds exactly when some remaining attempt is verified,
      stops at the first such attempt, and uses the rest of the budget otherwise. */
  lemma {:induction false} NavigateFromOutcome(attempt: nat -> Fallible<string>, maxRetries: int, k: nat)
    ensures var n := NavigateFrom(attempt, maxRetries, k);
      && (n.loaded <==> exists j :: k <= j < maxRetries && Verified(attempt(j)))
      && (n.loaded ==> n.attempts > 0 && Verified(attempt(k + n.attempts - 1)))
      && (forall j :: k <= j < k + n.attempts - (if n.loaded then 1 else 0) ==> !Verified(attempt(j)))
      && (!n.loaded ==> n.attempts == Budget(maxRetries - k))
    decreases Budget(maxRetries) - k
  {
    if k < maxRetries {
      if Verified(attempt(k)) {
      } else if attempt(k).Ok? || k < maxRetries - 1 {
        NavigateFromOutcome(attempt, maxRetries, k + 1);
        NavigateStep(attempt, maxRetries, k);
        if exists j :: k <= j < maxRetries && Verified(attempt(j)) {
          var j :| k <= j < maxRetries && Verified(attempt(j));
          assert j != k;
        }
      } else {
        assert !Verified(attempt(k));
      }
    }
  }

  /**
   * What `safe_goto` promises: it makes at most `max_retries` attempts; it reports a loaded page
   * exactly when some attempt within the budget shows a verified title, and then it stopped at
   * the first one; otherwise it used the whole budget; and it paused for the back-off exactly
   * after the attempts that raised and were not the last.
   */
  lemma NavigateSpec(attempt: nat -> Fallible<string>, maxRetries: int)
    ensures var n := Navigate(attempt, maxRetries);
      && n.attempts <= Budget(maxRetries) && |n.pauses| == n.attempts
      && (n.loaded <==> exists j :: 0 <= j < maxRetries && Verified(attempt(j)))
      && (n.loaded ==> n.attempts > 0 && Verified(attempt(n.attempts - 1))
                       && forall j :: 0 <= j < n.attempts - 1 ==> !Verified(attempt(j)))
      && (!n.loaded ==> n.attempts == Budget(maxRetries))
      && (forall j :: 0 <= j < n.attempts ==> n.pauses[j] == PauseAfter(attempt, maxRetries, j))
  {
    NavigateFromPauses(attempt, maxRetries, 0);
    NavigateFromOutcome(attempt, maxRetries, 0);
  }

  /** A target that never passes verification costs exactly the whole budget and ends in a
      failed navigation. */
  lemma AlwaysFailing(attempt: nat -> Fallible<string>, maxRetries: int)
    requires forall j :: 0 <= j < maxRetries ==> !Verified(attempt(j))
    ensures !Navigate(attempt, maxRetries).loaded
    ensures Navigate(attempt, maxRetries).attempts == Budget(maxRetries)
  {
    NavigateSpec(attempt, maxRetries);
  }

  /** One step of the retry loop: the navigation from `k` is attempt `k` followed by the
      navigation from `k + 1`, unless attempt `k` ends it. */
  lemma NavigateStep(attempt: nat -> Fallible<string>, maxRetries: int, k: nat)
    requires k < maxRetries
    requires !Verified(attempt(k)) && (attempt(k).Ok? || k < maxRetries - 1)
    ensures var n := NavigateFrom(attempt, maxRetries, k);
      var rest := NavigateFrom(attempt, maxRetries, k + 1);
      n == Navigation(rest.loaded, rest.attempts + 1, [PauseAfter(attempt, maxRetries, k)] + rest.pauses)
  {
  }
}
