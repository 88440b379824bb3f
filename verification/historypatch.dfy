/** The shared history patch of components/custom/navbar.tsx:
    `ensureHistoryPatched` wraps `history.pushState` and `replaceState` so
    that they announce a `hashchange`, sharing one patch among all
    subscribers with a reference count; each subscriber gets a disposer that
    drops its reference, and the last one restores the saved originals. */
module HistoryPatch {
  import opened Text

  /** What `history.pushState` / `replaceState` currently are: the browser's
      own (told apart by a tag) or the wrappers installed by the patch. */
  datatype Fn = Native(tag: nat) | PatchedPush | PatchedReplace

  /** The module-level patch state plus the two history slots it rewrites. */
  datatype PatchState = PatchState(
    patched: bool,
    refs: int,
    originalPush: Option<Fn>,
    originalReplace: Option<Fn>,
    push: Fn,
    replace: Fn)

  /** Before any subscriber: unpatched, no references, the browser's own
      functions in place. */
  function Initial(nativePush: nat, nativeReplace: nat): PatchState
  {
    PatchState(false, 0, None, None, Native(nativePush), Native(nativeReplace))
  }

  /** The balance invariant, for the browser's functions `p` and `q`: the
      patch is installed exactly while someone holds a reference; while it
      is, the originals are saved and the wrappers are in place, and while
      it is not, nothing is saved and the originals are back. */
  predicate Balanced(s: PatchState, p: Fn, q: Fn)
  {
    && s.refs >= 0
    && (s.patched <==> s.refs > 0)
    && (s.patched ==>
          s.originalPush == Some(p) && s.originalReplace == Some(q)
          && s.push == PatchedPush && s.replace == PatchedReplace)
    && (!s.patched ==>
          s.originalPush.None? && s.originalReplace.None? && s.push == p && s.replace == q)
  }

  /** `ensureHistoryPatched()`: take a reference; the first one saves the
      current functions and installs the wrappers. */
  function Acquire(s: PatchState): (r: PatchState)
    ensures r.refs == s.refs + 1
    ensures r.patched
    ensures !s.patched ==> r.originalPush == Some(s.push) && r.originalReplace == Some(s.replace)
    ensures s.patched ==> r == s.(refs := s.refs + 1)
  {
    var counted := s.(refs := s.refs + 1);
    if s.patched then counted
    else counted.(patched := true, originalPush := Some(s.push), originalReplace := Some(s.replace),
                  push := PatchedPush, replace := PatchedReplace)
  }

  /** The disposer: drop a reference; when none is left and the patch is
      installed, put back whatever was saved, clear the saved slots and
      mark the history unpatched. */
  function Release(s: PatchState): (r: PatchState)
    ensures r.refs == s.refs - 1
    ensures !(s.refs == 1 && s.patched) ==> r == s.(refs := s.refs - 1)
    ensures s.refs == 1 && s.patched ==>
      && !r.patched && r.originalPush.None? && r.originalReplace.None?
      && (s.originalPush.Some? ==> r.push == s.originalPush.value)
      && (s.originalReplace.Some? ==> r.replace == s.originalReplace.value)
  {
    var counted := s.(refs := s.refs - 1);
    if counted.refs == 0 && s.patched then
      counted.(
        push := if s.originalPush.Some? then s.originalPush.value else s.push,
        replace := if s.originalReplace.Some? then s.originalReplace.value else s.replace,
        originalPush := None,
        originalReplace := None,
        patched := false)
    else counted
  }

  /** Taking a reference keeps the balance; only the 0 -> 1 step saves the
      browser's functions. */
  lemma AcquireKeepsBalance(s: PatchState, p: Fn, q: Fn)
    requires Balanced(s, p, q)
    requires p.Native? && q.Native?
    ensures Balanced(Acquire(s), p, q)
    ensures s.refs == 0 <==> Acquire(s).originalPush != s.originalPush
  {
  }

  /** Dropping a reference somebody holds keeps the balance; only the 1 -> 0
      step restores the browser's functions. */
  lemma ReleaseKeepsBalance(s: PatchState, p: Fn, q: Fn)
    requires Balanced(s, p, q)
    requires p.Native? && q.Native?
    requires s.refs > 0
    ensures Balanced(Release(s), p, q)
    ensures s.refs == 1 <==> Release(s).push == p
  {
  }

  /** What subscribers do: subscribe (handles are numbered in order), or call
      the disposer of handle `h`. */
  datatype Event = Subscribe | Dispose(h: nat)

  /** The number of subscriptions among `events`. */
  function Subscriptions(events: seq<Event>): (n: nat)
    ensures n <= |events|
  {
    if |events| == 0 then 0
    else (if events[0].Subscribe? then 1 else 0) + Subscriptions(events[1..])
  }

  /** Replays `events` from state `s`, with `live` the handles whose
      disposer has not run yet and `next` the next handle number. Whatever
      the order of the events, and whether or not a disposer runs twice, the
      count moves by one per event: up for each subscription, down for each
      disposal; and handles are numbered consecutively. */
  function Replay(s: PatchState, live: set<nat>, next: nat, events: seq<Event>): (r: (PatchState, set<nat>, nat))
    ensures r.2 == next + Subscriptions(events)
    ensures r.0.refs == s.refs + Subscriptions(events) - (|events| - Subscriptions(events))
    decreases |events|
  {
    if |events| == 0 then (s, live, next)
    else match events[0]
      case Subscribe => Replay(Acquire(s), live + {next}, next + 1, events[1..])
      case Dispose(h) => Replay(Release(s), live - {h}, next, events[1..])
  }

  /** Each disposer runs at most once, and only after its subscription. */
  predicate DisposeOnce(live: set<nat>, next: nat, events: seq<Event>)
    decreases |events|
  {
    |events| == 0 ||
    match events[0]
      case Subscribe => DisposeOnce(live + {next}, next + 1, events[1..])
      case Dispose(h) => h in live && DisposeOnce(live - {h}, next, events[1..])
  }

  /** Handles handed out so far are all below `next`. */
  predicate Issued(live: set<nat>, next: nat)
  {
    forall h :: h in live ==> h < next
  }

  /** When each disposer runs at most once, the reference count is the
      number of live subscriptions and the balance invariant holds after
      every sequence of subscriptions and disposals. */
  lemma {:induction false} ReplayKeepsBalance(
    s: PatchState, live: set<nat>, next: nat, events: seq<Event>, p: Fn, q: Fn)
    requires Balanced(s, p, q) && p.Native? && q.Native?
    requires Issued(live, next) && s.refs == |live|
    requires DisposeOnce(live, next, events)
    ensures var (t, live', next') := Replay(s, live, next, events);
      Balanced(t, p, q) && t.refs == |live'| && Issued(live', next')
    decreases |events|
  {
    if |events| > 0 {
      match events[0]
      case Subscribe =>
        AcquireKeepsBalance(s, p, q);
        assert next !in live;
        ReplayKeepsBalance(Acquire(s), live + {next}, next + 1, events[1..], p, q);
      case Dispose(h) =>
        ReleaseKeepsBalance(s, p, q);
        assert |live - {h}| == |live| - 1;
        ReplayKeepsBalance(Release(s), live - {h}, next, events[1..], p, q);
    }
  }

  /** Once every subscriber has disposed, the history is exactly as before
      the first subscription: unpatched, nothing saved, the browser's own
      functions back in place. */
  lemma BalancedReplayRestores(p: nat, q: nat, events: seq<Event>)
    requires DisposeOnce({}, 0, events)
    requires Replay(Initial(p, q), {}, 0, events).1 == {}
    ensures Replay(Initial(p, q), {}, 0, events).0 == Initial(p, q)
  {
    ReplayKeepsBalance(Initial(p, q), {}, 0, events, Native(p), Native(q));
  }

  /** Without the at-most-once discipline the count goes wrong: disposing
      the same subscription twice leaves a count of -1, and the next
      subscriber then installs the patch with a count of 0. */
  lemma DoubleDisposeUnbalances(p: nat, q: nat)
    ensures var (t, _, _) := Replay(Initial(p, q), {}, 0, [Subscribe, Dispose(0), Dispose(0), Subscribe]);
      t.patched && t.refs == 0 && !Balanced(t, Native(p), Native(q))
  {
    var s1 := Acquire(Initial(p, q));
    var s2 := Release(s1);
    var s3 := Release(s2);
    var s4 := Acquire(s3);
    assert s4.patched && s4.refs == 0;
    var e := [Subscribe, Dispose(0), Dispose(0), Subscribe];
    assert e[1..][1..][1..][1..] == [];
  }
}
