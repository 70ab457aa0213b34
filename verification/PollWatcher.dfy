/** The polling watcher: re-list, compare with the previous poll, back off on failure. */
module PollWatcher {
  import opened Listing
  import opened Deltas

  const BACKGROUND_POLL_MULTIPLIER := 4
  const MAX_POLL_BACKOFF_MULTIPLIER := 8

  /** One attempt to list the location. */
  datatype Poll = Listed(entries: seq<Entry>) | Failed

  /** Polls that failed in a row up to `n`. */
  function FailuresBefore(polls: seq<Poll>, n: nat): nat
    requires n <= |polls|
  {
    if n == 0 || polls[n - 1].Listed? then 0 else FailuresBefore(polls, n - 1) + 1
  }

  /** The latest successful poll before `n`. */
  function LatestBefore(polls: seq<Poll>, n: nat): (k: Option<nat>)
    requires n <= |polls|
    ensures k.Some? ==> k.value < n && polls[k.value].Listed?
    ensures forall i :: (if k.Some? then k.value + 1 else 0) <= i < n ==> polls[i].Failed?
  {
    if n == 0 then None
    else if polls[n - 1].Listed? then Some(n - 1)
    else LatestBefore(polls, n - 1)
  }

  function Doubled(k: nat): nat {
    if k == 0 then 1 else 2 * Doubled(k - 1)
  }

  function Backoff(k: nat): nat {
    if Doubled(k) < MAX_POLL_BACKOFF_MULTIPLIER then Doubled(k) else MAX_POLL_BACKOFF_MULTIPLIER
  }

  lemma {:induction false} BackoffDoubles(k: nat)
    ensures Backoff(k + 1) == if 2 * Backoff(k) < 8 then 2 * Backoff(k) else 8
    ensures 1 <= Backoff(k) <= 8 && Backoff(0) == 1
  {
    assert Doubled(k + 1) == 2 * Doubled(k);
    DoubledPositive(k);
  }

  lemma {:induction false} DoubledPositive(k: nat)
    ensures Doubled(k) >= 1
  {
    if k > 0 {
      DoubledPositive(k - 1);
    }
  }

  /** Poll `i` reports a change: it succeeded, and so did an earlier one with other entries. */
  ghost predicate Reports(polls: seq<Poll>, i: nat)
    requires i < |polls|
  {
    && polls[i].Listed?
    && var last := LatestBefore(polls, i);
       last.Some? && ById(polls[last.value].entries) != ById(polls[i].entries)
  }

  /** The watcher's fields: the fingerprint of the previous poll, and the backoff. */
  datatype Watcher = Watcher(previous: Option<map<nat, Entry>>, backoff: nat)

  /** The fields that the first `n` polls lead to. */
  ghost function After(polls: seq<Poll>, n: nat): Watcher
    requires n <= |polls|
  {
    var last := LatestBefore(polls, n);
    Watcher(if last.Some? then Some(ById(polls[last.value].entries)) else None, Backoff(FailuresBefore(polls, n)))
  }

  function TurnedBackoff(w: Watcher, poll: Poll): nat {
    if poll.Listed? then 1
    else if 2 * w.backoff < MAX_POLL_BACKOFF_MULTIPLIER then 2 * w.backoff
    else MAX_POLL_BACKOFF_MULTIPLIER
  }

  function Turned(w: Watcher, poll: Poll): Watcher {
    Watcher(if poll.Listed? then Some(ById(poll.entries)) else w.previous, TurnedBackoff(w, poll))
  }

  predicate Differs(w: Watcher, poll: Poll) {
    poll.Listed? && w.previous.Some? && w.previous.value != ById(poll.entries)
  }

  /** One turn of the polling loop after its wait. */
  method Turn(w: Watcher, poll: Poll) returns (next: Watcher, changed: bool)
    ensures next == Turned(w, poll) && (changed <==> Differs(w, poll))
  {
    match poll {
      case Listed(entries) =>
        var fingerprint := ById(entries);
        var first := w.previous.None?;
        var differs := w.previous != Some(fingerprint);
        return Watcher(Some(fingerprint), 1), differs && !first;
      case Failed =>
        var doubled := w.backoff * 2;
        return w.(backoff := if doubled < MAX_POLL_BACKOFF_MULTIPLIER then doubled else MAX_POLL_BACKOFF_MULTIPLIER), false;
    }
  }

  lemma {:induction false} TurnFollows(polls: seq<Poll>, n: nat)
    requires n < |polls|
    ensures Turned(After(polls, n), polls[n]) == After(polls, n + 1)
    ensures Differs(After(polls, n), polls[n]) <==> Reports(polls, n)
  {
    BackoffDoubles(FailuresBefore(polls, n));
    if polls[n].Listed? {
      assert LatestBefore(polls, n + 1) == Some(n);
      assert FailuresBefore(polls, n + 1) == 0;
      assert Backoff(0) == 1;
    } else {
      assert LatestBefore(polls, n + 1) == LatestBefore(polls, n);
    }
  }

  function Interval(active: bool, backoff: nat): nat {
    if active then backoff else BACKGROUND_POLL_MULTIPLIER * backoff
  }

  ghost predicate ReportsExactly(polls: seq<Poll>, changed: seq<bool>) {
    |changed| <= |polls| && forall i :: 0 <= i < |changed| ==> (changed[i] <==> Reports(polls, i))
  }

  ghost predicate WaitsExactly(polls: seq<Poll>, active: nat -> bool, waits: seq<nat>) {
    |waits| <= |polls|
    && forall i :: 0 <= i < |waits| ==> waits[i] == Interval(active(i), Backoff(FailuresBefore(polls, i)))
  }

  lemma {:induction false} OneMore(polls: seq<Poll>, active: nat -> bool, changed: seq<bool>, waits: seq<nat>, report: bool, wait: nat)
    requires ReportsExactly(polls, changed) && WaitsExactly(polls, active, waits)
    requires |changed| == |waits| < |polls| && (report <==> Reports(polls, |changed|))
    requires wait == Interval(active(|waits|), Backoff(FailuresBefore(polls, |waits|)))
    ensures ReportsExactly(polls, changed + [report]) && WaitsExactly(polls, active, waits + [wait])
  {
  }

  /** Runs the watcher over a sequence of polls. `active(i)` is the pane activity read before
      poll `i`; `waits[i]` is the wait before it, in base intervals. */
  method Watch(polls: seq<Poll>, active: nat -> bool) returns (waits: seq<nat>, changed: seq<bool>)
    ensures |waits| == |changed| == |polls|
    ensures ReportsExactly(polls, changed)
    ensures forall i :: 0 <= i < |polls| ==>
              waits[i] == if active(i) then Backoff(FailuresBefore(polls, i)) else 4 * Backoff(FailuresBefore(polls, i))
  {
    waits, changed := [], [];
    var w := Watcher(None, 1);
    assert w == After(polls, 0);
    for n := 0 to |polls|
      invariant |waits| == |changed| == n && w == After(polls, n)
      invariant ReportsExactly(polls, changed) && WaitsExactly(polls, active, waits)
    {
      var wait := Interval(active(n), w.backoff);
      TurnFollows(polls, n);
      var report;
      w, report := Turn(w, polls[n]);
      OneMore(polls, active, changed, waits, report, wait);
      waits, changed := waits + [wait], changed + [report];
    }
  }

  /** Every wait lies between 1 and 32 base intervals. */
  lemma {:induction false} WaitIsBounded(active: bool, failures: nat)
    ensures 1 <= Interval(active, Backoff(failures)) <= 32
  {
    BackoffDoubles(failures);
  }

  /** A report does not depend on the order in which a provider lists the entries. */
  lemma {:induction false} ReorderedPollIsSilent(polls: seq<Poll>, i: nat, k: nat)
    requires i < |polls| && polls[i].Listed? && LatestBefore(polls, i) == Some(k)
    requires UniqueIds(polls[i].entries) && UniqueIds(polls[k].entries)
    requires forall e :: e in polls[i].entries <==> e in polls[k].entries
    ensures !Reports(polls, i)
  {
    var a, b := polls[i].entries, polls[k].entries;
    ByIdMembers(a);
    ByIdMembers(b);
    forall id
      ensures id in ById(a) <==> id in ById(b)
      ensures id in ById(a) ==> ById(a)[id] == ById(b)[id]
    {
      if id in ById(a) {
        assert ById(a)[id] in b;
      }
      if id in ById(b) {
        assert ById(b)[id] in a;
      }
    }
    assert ById(a) == ById(b);
  }
}
