/** The scroll-spy of components/custom/navbar.tsx: the intersection
    observer's callback picks the most visible watched section and writes its
    id into the location fragment with `setHashSafe`, unless a manual
    navigation happened less than 600 ms earlier. Intersection ratios and the
    clock are inputs; observer geometry is not modelled. */
module ScrollSpy {
  import opened Active
  import opened HistoryPatch

  /** Milliseconds during which the spy stays quiet after a manual click. */
  const SpySuppressMs: int := 600

  /** One observer entry: the observed element's id, whether it intersects
      the root, and the visible fraction of it. */
  datatype Entry = Entry(id: string, isIntersecting: bool, ratio: real)

  /** The entries that intersect, in the order the observer reported them. */
  function Visible(entries: seq<Entry>): (r: seq<Entry>)
    ensures |r| <= |entries|
    ensures forall k :: 0 <= k < |r| ==> r[k].isIntersecting && r[k] in entries
    ensures forall i :: 0 <= i < |entries| && entries[i].isIntersecting ==> entries[i] in r
  {
    if |entries| == 0 then []
    else if entries[0].isIntersecting then [entries[0]] + Visible(entries[1..])
    else Visible(entries[1..])
  }

  /** Filtering keeps entry order: it distributes over concatenation. */
  lemma {:induction false} VisibleAppend(a: seq<Entry>, b: seq<Entry>)
    ensures Visible(a + b) == Visible(a) + Visible(b)
  {
    if |a| == 0 {
      assert a + b == b;
    } else {
      assert (a + b)[0] == a[0];
      assert (a + b)[1..] == a[1..] + b;
      VisibleAppend(a[1..], b);
    }
  }

  /** Ordered by ratio, largest first (the comparator `b.ratio - a.ratio`). */
  predicate Descending(s: seq<Entry>)
  {
    forall i, j :: 0 <= i < j < |s| ==> s[i].ratio >= s[j].ratio
  }

  /** Inserts `x`, which came before every element of `t` in the input,
      ahead of the first element whose ratio does not exceed its own, so
      that entries of equal ratio keep their input order. */
  function Insert(x: Entry, t: seq<Entry>): seq<Entry>
  {
    if |t| == 0 || x.ratio >= t[0].ratio then [x] + t
    else [t[0]] + Insert(x, t[1..])
  }

  lemma {:induction false} InsertPermutes(x: Entry, t: seq<Entry>)
    ensures multiset(Insert(x, t)) == multiset([x] + t)
    ensures |Insert(x, t)| == |t| + 1
  {
    if |t| > 0 && x.ratio < t[0].ratio {
      InsertPermutes(x, t[1..]);
      assert t == [t[0]] + t[1..];
    }
  }

  /** Every ratio in `s` is at most `bound`. */
  predicate RatiosAtMost(s: seq<Entry>, bound: real)
  {
    forall k :: 0 <= k < |s| ==> s[k].ratio <= bound
  }

  lemma {:induction false} InsertKeepsBound(x: Entry, t: seq<Entry>, bound: real)
    requires RatiosAtMost(t, bound) && x.ratio <= bound
    ensures RatiosAtMost(Insert(x, t), bound)
  {
    if |t| > 0 && x.ratio < t[0].ratio {
      InsertKeepsBound(x, t[1..], bound);
    }
  }

  lemma {:induction false} InsertKeepsOrder(x: Entry, t: seq<Entry>)
    requires Descending(t)
    ensures Descending(Insert(x, t))
  {
    if |t| > 0 && x.ratio < t[0].ratio {
      InsertKeepsOrder(x, t[1..]);
      InsertKeepsBound(x, t[1..], t[0].ratio);
      var r := Insert(x, t[1..]);
      assert Insert(x, t) == [t[0]] + r;
    }
  }

  /** The stable sort by decreasing ratio that `Array.prototype.sort`
      performs (the language requires it to be stable): a permutation of its
      input, ordered by decreasing ratio. */
  function SortByRatio(s: seq<Entry>): (r: seq<Entry>)
    ensures multiset(r) == multiset(s)
    ensures |r| == |s|
    ensures Descending(r)
  {
    if |s| == 0 then []
    else
      var t := SortByRatio(s[1..]);
      InsertPermutes(s[0], t);
      InsertKeepsOrder(s[0], t);
      assert s == [s[0]] + s[1..];
      Insert(s[0], t)
  }

  /** `k` is the first position holding a largest ratio of `s`. */
  predicate IsFirstMax(s: seq<Entry>, k: nat)
  {
    && k < |s|
    && (forall j :: 0 <= j < |s| ==> s[j].ratio <= s[k].ratio)
    && (forall j :: 0 <= j < k ==> s[j].ratio < s[k].ratio)
  }

  /** The first position of a largest ratio. */
  function FirstMaxIndex(s: seq<Entry>): (k: nat)
    requires |s| > 0
    ensures IsFirstMax(s, k)
  {
    if |s| == 1 then 0
    else
      var k := FirstMaxIndex(s[1..]);
      if s[0].ratio >= s[k + 1].ratio then 0 else k + 1
  }

  /** There is only one first maximum. */
  lemma FirstMaxUnique(s: seq<Entry>, k: nat, l: nat)
    requires IsFirstMax(s, k) && IsFirstMax(s, l)
    ensures k == l
  {
    assert s[k].ratio == s[l].ratio;
  }

  /** The head of the stable descending sort is the first entry of largest
      ratio; a later entry of equal ratio never wins. */
  lemma {:induction false} SortHeadIsFirstMax(s: seq<Entry>)
    requires |s| > 0
    ensures SortByRatio(s)[0] == s[FirstMaxIndex(s)]
  {
    if |s| > 1 {
      SortHeadIsFirstMax(s[1..]);
    }
  }

  /** A browser location, reduced to the parts the header reads. */
  datatype Location = Location(pathname: string, search: string, hash: string)

  /** The session history as the header sees it: the earlier entries, the
      current location, and how many `hashchange` notifications have been
      scheduled so far. */
  datatype History = History(back: seq<Location>, current: Location, notifications: nat)

  /** Notifications one `history.replaceState` call schedules by itself:
      one when the slot holds the patch's wrapper (which schedules a
      `hashchange` after calling the saved function), none for the browser's
      own function. */
  function ReplaceNotifications(replace: Fn): (n: nat)
    ensures n <= 1
    ensures n == 1 <==> replace.PatchedReplace?
  {
    if replace.PatchedReplace? then 1 else 0
  }

  /** `setHashSafe(id)`, with `replace` whatever occupies
      `history.replaceState`: when the fragment is not already `#id`,
      replace the current entry's fragment (keeping path and query) through
      `replace`, then schedule one `hashchange` notification of its own;
      otherwise do nothing. */
  function SetHashSafe(h: History, id: string, replace: Fn): (r: History)
    ensures r.back == h.back
    ensures r.current == h.current.(hash := "#" + id)
    ensures r == h <==> h.current.hash == "#" + id
    ensures r != h ==> r.notifications == h.notifications + (if replace.PatchedReplace? then 2 else 1)
  {
    var next := "#" + id;
    if h.current.hash == next then h
    else
      var replaced := History(h.back, Location(h.current.pathname, h.current.search, next),
                              h.notifications + ReplaceNotifications(replace));
      replaced.(notifications := replaced.notifications + 1)
  }

  /** Writing the same fragment twice changes the history once: the second
      write finds the fragment in place and does nothing. */
  lemma SetHashSafeIdempotent(h: History, id: string, replace: Fn)
    ensures SetHashSafe(SetHashSafe(h, id, replace), id, replace) == SetHashSafe(h, id, replace)
    ensures SetHashSafe(SetHashSafe(h, id, replace), id, replace).notifications <= h.notifications + 2
  {
  }

  /** While the header is mounted its hash store holds a reference to the
      history patch, so `history.replaceState` is the patch's wrapper and a
      write that changes the fragment schedules two `hashchange`
      notifications: the wrapper's and `setHashSafe`'s own. */
  lemma SubscribedWriteNotifiesTwice(s: PatchState, p: Fn, q: Fn, h: History, id: string)
    requires Balanced(s, p, q) && s.refs > 0
    requires h.current.hash != "#" + id
    ensures SetHashSafe(h, id, s.replace).notifications == h.notifications + 2
  {
  }

  /** The observer callback: the history after one batch of entries, at
      time `now`, when the last manual navigation was at `lastManualNav`.
      It leaves earlier entries alone, does nothing inside the suppression
      window, and otherwise either does nothing or writes the id of an
      intersecting entry with a non-empty id. */
  function OnIntersect(h: History, replace: Fn, now: int, lastManualNav: int, entries: seq<Entry>): (r: History)
    ensures r.back == h.back
    ensures now - lastManualNav < SpySuppressMs ==> r == h
    ensures r == h || exists k :: 0 <= k < |entries| && entries[k].isIntersecting && entries[k].id != ""
                                   && r == SetHashSafe(h, entries[k].id, replace)
  {
    if now - lastManualNav < SpySuppressMs then h
    else
      var visible := Visible(entries);
      if |visible| == 0 then h
      else
        var sorted := SortByRatio(visible);
        var best := sorted[0];
        assert best in multiset(visible);
        if best.id == "" then h else SetHashSafe(h, best.id, replace)
  }

  /** What one callback does: nothing inside the suppression window, nothing
      without an intersecting entry, nothing when the winner has no id;
      otherwise the fragment becomes the id of the first intersecting entry
      of largest ratio, as a replacement of the current history entry. */
  lemma OnIntersectSpec(h: History, replace: Fn, now: int, lastManualNav: int, entries: seq<Entry>)
    ensures (forall i :: 0 <= i < |entries| ==> !entries[i].isIntersecting) ==>
      OnIntersect(h, replace, now, lastManualNav, entries) == h
    ensures now - lastManualNav >= SpySuppressMs && |Visible(entries)| > 0 ==>
      var visible := Visible(entries);
      var best := visible[FirstMaxIndex(visible)];
      OnIntersect(h, replace, now, lastManualNav, entries) ==
        (if best.id == "" then h else SetHashSafe(h, best.id, replace))
  {
    var visible := Visible(entries);
    if |visible| > 0 {
      SortHeadIsFirstMax(visible);
      assert visible[0] in entries;
    }
  }

  /** Two sections both in view, "services" more than "home": the spy
      writes "#services". With neither in view it writes nothing. */
  lemma MostVisibleSectionWins(h: History, replace: Fn, now: int)
    requires now >= SpySuppressMs
    ensures OnIntersect(h, replace, now, 0, [Entry("home", true, 0.3), Entry("services", true, 0.8)]).current.hash
      == "#services"
    ensures OnIntersect(h, replace, now, 0, [Entry("home", false, 0.3), Entry("services", false, 0.8)]) == h
  {
    var entries := [Entry("home", true, 0.3), Entry("services", true, 0.8)];
    assert Visible(entries[1..]) == [entries[1]];
    assert Visible(entries) == entries;
    OnIntersectSpec(h, replace, now, 0, entries);
    assert FirstMaxIndex(entries) == 1;
  }

  /** Every entry of a batch comes from an element the observer was given,
      and each of those was looked up by one of the anchors, so its id is
      one of them. */
  predicate ObservedOnly(entries: seq<Entry>, anchors: seq<string>)
  {
    forall k :: 0 <= k < |entries| ==> entries[k].id in anchors
  }

  /** The scroll-spy effect on page `pathname`, then one callback of its
      observer: with no in-page anchor the effect creates no observer and
      nothing ever happens; otherwise the callback runs on the batch. */
  function SpyEffect(links: seq<NavLink>, pathname: string, h: History, replace: Fn,
                     now: int, lastManualNav: int, entries: seq<Entry>): (r: History)
    ensures r.back == h.back
    ensures InPageAnchors(links, pathname) == [] ==> r == h
  {
    if |InPageAnchors(links, pathname)| == 0 then h
    else OnIntersect(h, replace, now, lastManualNav, entries)
  }

  /** The spy only ever writes the id of a watched anchor of the current
      page. */
  lemma SpyWritesOnlyAnchors(links: seq<NavLink>, pathname: string, h: History, replace: Fn,
                             now: int, lastManualNav: int, entries: seq<Entry>)
    requires ObservedOnly(entries, InPageAnchors(links, pathname))
    ensures var r := SpyEffect(links, pathname, h, replace, now, lastManualNav, entries);
      r == h || exists a :: a in InPageAnchors(links, pathname) && a != "" && r == SetHashSafe(h, a, replace)
  {
    var r := SpyEffect(links, pathname, h, replace, now, lastManualNav, entries);
    if r != h {
      var k :| 0 <= k < |entries| && entries[k].isIntersecting && entries[k].id != ""
               && r == SetHashSafe(h, entries[k].id, replace);
      assert entries[k].id in InPageAnchors(links, pathname);
    }
  }

  /** With the header's table there is no anchor on any page, so the spy
      never changes the history, whatever the observer would report. */
  lemma HeaderSpyNeverWrites(pathname: string, h: History, replace: Fn,
                             now: int, lastManualNav: int, entries: seq<Entry>)
    ensures SpyEffect(Links, pathname, h, replace, now, lastManualNav, entries) == h
  {
    StaticTableHasNoAnchors(pathname);
  }
}
