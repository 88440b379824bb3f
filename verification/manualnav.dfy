/** Manual navigation in components/custom/navbar.tsx: a click on a nav link
    records the time and the fragment it asked for, and an effect then tries
    to scroll that fragment's element into view, looking it up at most six
    times, 100 ms apart, and only if the click was less than 2000 ms ago. The
    clock is an `int` of milliseconds and "the element exists at lookup k" is
    an oracle. */
module ManualNav {
  import opened Text
  import opened Hrefs
  import opened Active

  /** Lookups `tryScroll` makes before giving up. */
  const MaxAttempts: nat := 6
  /** Delay before each retry. */
  const RetryDelayMs: nat := 100
  /** A click older than this does not start the scroll attempts. */
  const ScrollWindowMs: int := 2000

  /** The two refs shared by the click handlers and the effects: the time of
      the last manual navigation (initially 0) and the requested fragment. */
  datatype NavRefs = NavRefs(lastManualNav: int, requested: Option<string>)

  const InitialRefs: NavRefs := NavRefs(0, None)

  /** `markManualNavWithHref(href)`: stamp the click time, then request the
      href's fragment; a missing or empty href, or one without a fragment,
      requests nothing. */
  function MarkManualNavWithHref(refs: NavRefs, now: int, href: Option<string>): (r: NavRefs)
    ensures r.lastManualNav == now
    ensures href.None? || href == Some("") ==> r.requested.None?
    ensures href.Some? ==> (r.requested.Some? <==> '#' in href.value)
    ensures r.requested.Some? ==>
      r.requested.value == SplitBaseAndHash(href.value).hash && StartsWith(r.requested.value, '#')
  {
    if href.None? || href.value == "" then NavRefs(now, None)
    else
      var parts := SplitBaseAndHash(href.value);
      PartsPresence(href.value);
      NavRefs(now, if parts.hash == "" then None else Some(parts.hash))
  }

  /** No link of the header's table has a fragment, so a click on any of them
      requests nothing and the scroll attempts never start. */
  lemma StaticLinksRequestNothing(refs: NavRefs, now: int, i: nat)
    requires i < |Links|
    ensures MarkManualNavWithHref(refs, now, Some(Links[i].href)).requested == None
  {
    StaticTableIsPlain();
  }

  /** The element id looked up for a requested fragment. */
  function TargetId(requested: string): (id: string)
    ensures StartsWith(requested, '#') ==> "#" + id == requested
    ensures !StartsWith(requested, '#') ==> id == requested
  {
    if StartsWith(requested, '#') then requested[1..] else requested
  }

  /** After a click on an href with a fragment, the element looked up is the
      one the fragment names. */
  lemma ClickTargetsAnchor(refs: NavRefs, now: int, href: string)
    requires '#' in href
    ensures
      var r := MarkManualNavWithHref(refs, now, Some(href));
      r.requested.Some? && TargetId(r.requested.value) == AnchorId(href)
  {
    PartsPresence(href);
  }

  /** What one `tryScroll` call leads to. */
  datatype Step = Scrolled | RetryIn(delayMs: nat) | GaveUp

  /** One `tryScroll` call after `attempts` failed lookups, given whether the
      element is present now: scroll and clear the request, or count the
      failure and either schedule a retry or clear the request and stop. */
  function TryScroll(refs: NavRefs, attempts: nat, present: bool): (r: (NavRefs, nat, Step))
    ensures r.2.Scrolled? <==> present
    ensures r.2.Scrolled? ==> r.1 == attempts
    ensures !present ==> r.1 == attempts + 1
    ensures r.2.GaveUp? <==> !present && r.1 >= MaxAttempts
    ensures r.2.RetryIn? ==> r.0 == refs && r.2.delayMs == RetryDelayMs && r.1 < MaxAttempts
    ensures !r.2.RetryIn? ==> r.0 == refs.(requested := None)
  {
    if present then (refs.(requested := None), attempts, Scrolled)
    else if attempts + 1 < MaxAttempts then (refs, attempts + 1, RetryIn(RetryDelayMs))
    else (refs.(requested := None), attempts + 1, GaveUp)
  }

  /** The scroll effect run once, at time `now`, with `found(k)` telling
      whether the element exists at the k-th lookup. It reports the refs
      afterwards, the id it looked up, how many lookups it made, whether it
      scrolled, and the milliseconds from the first lookup to the last. */
  method ScrollToRequested(refs: NavRefs, now: int, found: nat -> bool)
    returns (after: NavRefs, target: string, lookups: nat, scrolled: bool, spanMs: nat)
    ensures refs.requested.None? || refs.requested == Some("") || now - refs.lastManualNav >= ScrollWindowMs ==>
      after == refs && lookups == 0 && !scrolled
    ensures refs.requested.Some? && refs.requested.value != "" ==> target == TargetId(refs.requested.value)
    ensures refs.requested.Some? && refs.requested.value != "" && now - refs.lastManualNav < ScrollWindowMs ==>
      && after == refs.(requested := None)
      && 1 <= lookups <= MaxAttempts
      && (scrolled <==> found(lookups - 1))
      && (forall k :: 0 <= k < lookups - 1 ==> !found(k))
      && (scrolled || lookups == MaxAttempts)
      && spanMs == RetryDelayMs * (lookups - 1)
  {
    after, target, lookups, scrolled, spanMs := refs, "", 0, false, 0;
    if refs.requested.None? || refs.requested.value == "" {
      return;
    }
    target := TargetId(refs.requested.value);
    if now - refs.lastManualNav >= ScrollWindowMs {
      return;
    }
    var attempts: nat := 0;
    var step := RetryIn(0);
    while step.RetryIn?
      invariant step.RetryIn? ==> attempts == lookups < MaxAttempts && after == refs
      invariant step.RetryIn? ==> step.delayMs == (if lookups == 0 then 0 else RetryDelayMs)
      invariant step.Scrolled? ==> lookups == attempts + 1 && attempts < MaxAttempts && found(attempts)
      invariant step.GaveUp? ==> lookups == attempts == MaxAttempts
      invariant !step.RetryIn? ==> after == refs.(requested := None)
      invariant lookups == 0 ==> spanMs == 0
      invariant lookups > 0 ==> spanMs == RetryDelayMs * (lookups - 1)
      invariant forall k :: 0 <= k < attempts ==> !found(k)
      decreases MaxAttempts - lookups
    {
      spanMs := spanMs + step.delayMs;
      var present := found(lookups);
      lookups := lookups + 1;
      var r := TryScroll(after, attempts, present);
      after, attempts, step := r.0, r.1, r.2;
    }
    scrolled := step.Scrolled?;
  }
}
