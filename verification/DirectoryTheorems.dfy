/** What holds after every interleaving of the directory service's steps. */
module DirectoryTheorems {
  import opened Listing
  import opened Replica
  import Decimal
  import opened DirectoryService

  // -------------------------------------------------------------------- begin

  lemma {:induction false} BegunGrows(begun: seq<Request>, r: Request, id: RequestId)
    requires HasBegun(begun, id)
    ensures HasBegun(begun + [r], id)
  {
    var k :| 0 <= k < |begun| && begun[k].id == id;
    assert (begun + [r])[k].id == id;
  }

  lemma {:induction false} NewestKept(begun: seq<Request>, r: Request, pane: PaneId, id: RequestId)
    requires Newest(begun, pane, id) && r.pane != pane
    ensures Newest(begun + [r], pane, id)
  {
    var k :| 0 <= k < |begun| && begun[k].id == id && begun[k].pane == pane
             && forall m :: k < m < |begun| ==> begun[m].pane != pane;
    assert (begun + [r])[k] == begun[k];
  }

  lemma {:induction false} NewestNow(begun: seq<Request>, r: Request)
    ensures Newest(begun + [r], r.pane, r.id)
  {
    assert (begun + [r])[|begun|] == r;
  }

  lemma {:induction false} BeginOwns(panes: map<PaneId, PaneState>, begun: seq<Request>, r: Request, p: PaneState)
    requires NewestOwns(panes, begun) && p.request == r.id
    ensures NewestOwns(panes[r.pane := p], begun + [r])
  {
    NewestNow(begun, r);
    forall q | q in panes && q != r.pane
      ensures Newest(begun + [r], q, panes[q].request)
    {
      NewestKept(begun, r, q, panes[q].request);
    }
  }

  lemma {:induction false} BeginIds(calls: map<RequestId, Call>, begun: seq<Request>, r: Request, cached: Option<seq<Entry>>)
    requires DistinctIds(begun) && CallsBegan(calls, begun) && !HasBegun(begun, r.id)
    ensures DistinctIds(begun + [r]) && CallsBegan(calls[r.id := Call(r, cached)], begun + [r])
    ensures r.id !in calls
  {
    assert (begun + [r])[|begun|] == r;
  }

  lemma {:induction false} BeginWatches(watches: map<RequestId, Watch>, calls: map<RequestId, Call>, t: Tokens,
                                        begun: seq<Request>, r: Request, u: Tokens, c: Call)
    requires WatchesOwnTokens(watches, calls, t, begun) && !HasBegun(begun, r.id)
    requires forall k :: k in t.creator ==> k in u.creator && u.creator[k] == t.creator[k]
    requires forall k :: k in t.owner ==> k in u.owner && u.owner[k] == t.owner[k]
    ensures WatchesOwnTokens(watches, calls[r.id := c], u, begun + [r])
  {
    forall id | id in watches
      ensures HasBegun(begun + [r], id)
    {
      BegunGrows(begun, r, id);
    }
  }

  lemma {:induction false} BeginTokens(panes: map<PaneId, PaneState>, t: Tokens, r: Request)
    requires TokensRecorded(t) && CurrentTokensLive(panes, t) && LiveTokensCurrent(panes, t)
    ensures var u, after := NewToken(t, panes, r), panes[r.pane := FreshPane(panes, r, t.next)];
            TokensRecorded(u) && CurrentTokensLive(after, u) && LiveTokensCurrent(after, u)
  {
  }

  lemma {:induction false} BeginFirstPages(panes: map<PaneId, PaneState>, calls: map<RequestId, Call>, t: Tokens, r: Request)
    requires FirstPagesOwnTokens(panes, calls, t) && TokensRecorded(t) && r.id !in calls
    ensures FirstPagesOwnTokens(panes[r.pane := FreshPane(panes, r, t.next)], calls[r.id := Call(r, None)],
                                NewToken(t, panes, r))
  {
  }

  lemma {:induction false} ContinueFirstPages(panes: map<PaneId, PaneState>, calls: map<RequestId, Call>, t: Tokens, r: Request,
                                              cached: Option<seq<Entry>>)
    requires FirstPagesOwnTokens(panes, calls, t) && r.id !in calls && r.token.Some? && r.pane in panes
    ensures FirstPagesOwnTokens(panes[r.pane := panes[r.pane].(request := r.id)], calls[r.id := Call(r, cached)], t)
  {
  }

  lemma {:induction false} ContinueKeeps(s: Service, r: Request)
    requires Invariant(s) && !HasBegun(s.begun, r.id) && Continuing(s.panes, r)
    ensures Invariant(BeginStep(s, r))
  {
    var p := s.panes[r.pane];
    BeginIds(s.calls, s.begun, r, p.full);
    BeginOwns(s.panes, s.begun, r, p.(request := r.id));
    BeginWatches(s.acquiring, s.calls, s.tokens, s.begun, r, s.tokens, Call(r, p.full));
    BeginWatches(s.hub.watching, s.calls, s.tokens, s.begun, r, s.tokens, Call(r, p.full));
    ContinueFirstPages(s.panes, s.calls, s.tokens, r, p.full);
    RenamePane(s.panes, s.issued, s.tokens, r);
  }

  lemma {:induction false} RenamePane(panes: map<PaneId, PaneState>, issued: seq<(PaneId, nat)>, t: Tokens, r: Request)
    requires SnapshotsCurrent(panes) && SlicesShown(panes) && RevisionsIncrease(panes, issued) && r.pane in panes
    requires CurrentTokensLive(panes, t) && LiveTokensCurrent(panes, t)
    ensures var after := panes[r.pane := panes[r.pane].(request := r.id)];
            && SnapshotsCurrent(after) && SlicesShown(after) && RevisionsIncrease(after, issued)
            && CurrentTokensLive(after, t) && LiveTokensCurrent(after, t)
  {
  }

  lemma {:induction false} FreshKeeps(s: Service, r: Request)
    requires Invariant(s) && !HasBegun(s.begun, r.id) && !Continuing(s.panes, r)
    ensures Invariant(BeginStep(s, r))
  {
    var t := NewToken(s.tokens, s.panes, r);
    BeginIds(s.calls, s.begun, r, None);
    BeginOwns(s.panes, s.begun, r, FreshPane(s.panes, r, s.tokens.next));
    BeginWatches(s.acquiring, s.calls, s.tokens, s.begun, r, t, Call(r, None));
    BeginWatches(s.hub.watching, s.calls, s.tokens, s.begun, r, t, Call(r, None));
    BeginTokens(s.panes, s.tokens, r);
    BeginFirstPages(s.panes, s.calls, s.tokens, r);
    ReplacePane(s.panes, s.issued, r, s.tokens.next);
  }

  lemma {:induction false} ReplacePane(panes: map<PaneId, PaneState>, issued: seq<(PaneId, nat)>, r: Request, token: Token)
    requires SnapshotsCurrent(panes) && SlicesShown(panes) && RevisionsIncrease(panes, issued)
    ensures var after := panes[r.pane := FreshPane(panes, r, token)];
            SnapshotsCurrent(after) && SlicesShown(after) && RevisionsIncrease(after, issued)
  {
  }

  lemma {:induction false} BeginKeeps(s: Service, r: Request)
    requires Invariant(s)
    ensures Invariant(Next(s, Begin(r)))
  {
    if HasBegun(s.begun, r.id) {
      assert Next(s, Begin(r)) == s;
    } else if Continuing(s.panes, r) {
      ContinueKeeps(s, r);
    } else {
      FreshKeeps(s, r);
    }
  }

  // ----------------------------------------------------- complete and publish

  /** Replacing a pane's state by a later one of the same request and token. */
  ghost predicate Advances(p: PaneState, q: PaneState) {
    && q.request == p.request && q.watch == p.watch && p.revision < q.revision
    && q.snapshot.Some? && q.snapshot.value.revision == q.revision && ShowsSlice(q)
  }

  lemma {:induction false} AdvanceRevision(panes: map<PaneId, PaneState>, begun: seq<Request>, issued: seq<(PaneId, nat)>,
                                           pane: PaneId, q: PaneState)
    requires NewestOwns(panes, begun) && SnapshotsCurrent(panes) && SlicesShown(panes) && RevisionsIncrease(panes, issued)
    requires pane in panes && Advances(panes[pane], q)
    ensures var after := panes[pane := q];
            && NewestOwns(after, begun) && SnapshotsCurrent(after) && SlicesShown(after)
            && RevisionsIncrease(after, issued + [(pane, q.revision)])
  {
  }

  lemma {:induction false} AdvanceTokens(panes: map<PaneId, PaneState>, calls: map<RequestId, Call>, t: Tokens,
                                         pane: PaneId, q: PaneState)
    requires CurrentTokensLive(panes, t) && LiveTokensCurrent(panes, t) && FirstPagesOwnTokens(panes, calls, t)
    requires pane in panes && Advances(panes[pane], q)
    ensures var after := panes[pane := q];
            CurrentTokensLive(after, t) && LiveTokensCurrent(after, t) && FirstPagesOwnTokens(after, calls, t)
  {
  }

  lemma {:induction false} DropCall(panes: map<PaneId, PaneState>, calls: map<RequestId, Call>, begun: seq<Request>, t: Tokens,
                                    id: RequestId)
    requires CallsBegan(calls, begun) && FirstPagesOwnTokens(panes, calls, t)
    ensures CallsBegan(calls - {id}, begun) && FirstPagesOwnTokens(panes, calls - {id}, t)
  {
  }

  lemma {:induction false} CompleteKeeps(s: Service, id: RequestId, enumerated: seq<Entry>, tracked: bool)
    requires Invariant(s)
    ensures Invariant(Next(s, Complete(id, enumerated, tracked)))
  {
    if Succeeds(s, id, enumerated) {
      var pane := s.calls[id].request.pane;
      ServedAdvances(s, id, enumerated);
      ServeKeeps(s, id, Served(s.panes[pane], s.calls[id], enumerated), tracked, CompleteStep(s, id, enumerated, tracked));
    } else {
      AbortKeeps(s, id);
      assert Next(s, Complete(id, enumerated, tracked)) == Next(s, Abort(id));
    }
  }

  lemma {:induction false} ServeKeeps(s: Service, id: RequestId, q: PaneState, tracked: bool, t: Service)
    requires Invariant(s) && id in s.calls && s.calls[id].request.pane in s.panes
    requires s.panes[s.calls[id].request.pane].request == id && Advances(s.panes[s.calls[id].request.pane], q)
    requires var r := s.calls[id].request;
             t == s.(panes := s.panes[r.pane := q], calls := s.calls - {id}, issued := s.issued + [(r.pane, q.revision)],
                     acquiring := if r.token.None? && tracked
                                  then s.acquiring[id := Watch(r.pane, r.location, s.panes[r.pane].watch)] else s.acquiring)
    ensures Invariant(t)
  {
    var pane := s.calls[id].request.pane;
    AdvanceRevision(s.panes, s.begun, s.issued, pane, q);
    AdvanceTokens(s.panes, s.calls, s.tokens, pane, q);
    DropCall(s.panes[pane := q], s.calls, s.begun, s.tokens, id);
    FinishedWatches(s.acquiring, s.calls, s.tokens, s.begun, id);
    FinishedWatches(s.hub.watching, s.calls, s.tokens, s.begun, id);
    if s.calls[id].request.token.None? && tracked {
      NewWatch(s.acquiring, s.panes, s.calls, s.tokens, s.begun, id);
    }
  }

  lemma {:induction false} ServedAdvances(s: Service, id: RequestId, enumerated: seq<Entry>)
    requires Succeeds(s, id, enumerated)
    ensures var p := s.panes[s.calls[id].request.pane];
            var q := Served(p, s.calls[id], enumerated);
            Advances(p, q) && q.revision == p.revision + 1
  {
    var call := s.calls[id];
    var full := Found(call, enumerated);
    var q := Served(s.panes[call.request.pane], call, enumerated);
    var from := if call.request.token.None? then 0 else Decimal.Parse(call.request.token.value).n;
    assert Slice(q.snapshot.value, full, from, from + |q.snapshot.value.entries|);
  }

  /** No watch of a finished request changes when another request finishes. */
  lemma {:induction false} FinishedWatches(watches: map<RequestId, Watch>, calls: map<RequestId, Call>, t: Tokens,
                                           begun: seq<Request>, id: RequestId)
    requires WatchesOwnTokens(watches, calls, t, begun)
    ensures WatchesOwnTokens(watches, calls - {id}, t, begun)
  {
  }

  lemma {:induction false} NewWatch(watches: map<RequestId, Watch>, panes: map<PaneId, PaneState>, calls: map<RequestId, Call>,
                                    t: Tokens, begun: seq<Request>, id: RequestId)
    requires WatchesOwnTokens(watches, calls, t, begun) && CallsBegan(calls, begun)
    requires FirstPagesOwnTokens(panes, calls, t) && CurrentTokensLive(panes, t)
    requires id in calls && calls[id].request.token.None?
    requires calls[id].request.pane in panes && panes[calls[id].request.pane].request == id
    ensures var r := calls[id].request;
            WatchesOwnTokens(watches[id := Watch(r.pane, r.location, panes[r.pane].watch)], calls - {id}, t, begun)
  {
    var k :| 0 <= k < |begun| && begun[k] == calls[id].request;
    assert HasBegun(begun, id);
  }

  lemma {:induction false} PublishKeeps(s: Service, pane: PaneId, location: Location, change: Change)
    requires Invariant(s)
    ensures Invariant(Next(s, PublishTo(pane, location, change)))
  {
    if Receptive(s.panes, pane, location) {
      var p := s.panes[pane];
      var q := PublishStep(s, pane, location, change).panes[pane];
      PublishedAdvances(s, pane, location, change);
      AdvanceRevision(s.panes, s.begun, s.issued, pane, q);
      AdvanceTokens(s.panes, s.calls, s.tokens, pane, q);
    }
  }

  lemma {:induction false} PublishedAdvances(s: Service, pane: PaneId, location: Location, change: Change)
    requires Receptive(s.panes, pane, location)
    ensures Advances(s.panes[pane], PublishStep(s, pane, location, change).panes[pane])
  {
    var p, q := s.panes[pane], PublishStep(s, pane, location, change).panes[pane];
    EmittedRevisions(Pane(p.revision, p.snapshot.value.entries, []), change);
    assert Slice(q.snapshot.value, change.listing, 0, |change.listing|);
  }

  lemma {:induction false} AbortKeeps(s: Service, id: RequestId)
    requires Invariant(s)
    ensures Invariant(Next(s, Abort(id)))
  {
  }

  // ---------------------------------------------------------- watches and hub

  lemma {:induction false} AcquireCounts(h: Hub, id: RequestId, w: Watch, l: Location)
    requires CountsAt(h, l) && id !in h.watching
    ensures CountsAt(AcquireHub(h, id, w), l)
  {
    var k := AcquireHub(h, id, w);
    assert Watchers(k, l) == if l == w.location then Watchers(h, l) + {id} else Watchers(h, l);
    assert id !in Watchers(h, l);
  }

  lemma {:induction false} HeldKept(before: map<Location, SharedWatch>, after: map<Location, SharedWatch>, n: SourceId)
    requires Held(before, n)
    requires forall l :: l in before ==> l in after && after[l].source == before[l].source
    ensures Held(after, n)
  {
    var l :| l in before && before[l].source == n;
    assert after[l].source == n;
  }

  lemma {:induction false} AcquireSources(h: Hub, id: RequestId, w: Watch)
    requires SourcesOwned(h)
    ensures SourcesOwned(AcquireHub(h, id, w))
  {
    var k := AcquireHub(h, id, w);
    if w.location in h.registered {
      assert k.registered.Keys == h.registered.Keys;
      assert forall l :: l in h.registered ==> k.registered[l].source == h.registered[l].source;
    }
    forall n: nat | n < k.nextSource && n !in k.cancelledSources
      ensures Held(k.registered, n)
    {
      if n < h.nextSource {
        HeldKept(h.registered, k.registered, n);
      } else {
        assert k.registered[w.location].source == n;
      }
    }
  }

  lemma {:induction false} ReleaseCounts(h: Hub, id: RequestId, l: Location)
    requires id in h.watching && CountsAt(h, l)
    ensures CountsAt(ReleaseHub(h, id), l)
  {
    var k, location := ReleaseHub(h, id), h.watching[id].location;
    assert id in Watchers(h, location);
    assert Watchers(k, l) == if l == location then Watchers(h, l) - {id} else Watchers(h, l);
    assert l == location ==> |Watchers(k, l)| == |Watchers(h, l)| - 1;
  }

  lemma {:induction false} HeldUnlessCancelled(h: Hub, id: RequestId, n: SourceId)
    requires id in h.watching && Held(h.registered, n) && n !in ReleaseHub(h, id).cancelledSources
    ensures Held(ReleaseHub(h, id).registered, n)
  {
    var l :| l in h.registered && h.registered[l].source == n;
    var k := ReleaseHub(h, id);
    assert l in k.registered && k.registered[l].source == n;
  }

  lemma {:induction false} ReleaseSources(h: Hub, id: RequestId)
    requires SourcesOwned(h) && id in h.watching
    ensures SourcesOwned(ReleaseHub(h, id))
  {
    var k := ReleaseHub(h, id);
    forall n: nat | n < k.nextSource && n !in k.cancelledSources
      ensures Held(k.registered, n)
    {
      HeldUnlessCancelled(h, id, n);
    }
  }

  lemma {:induction false} AcquireKeeps(s: Service, id: RequestId)
    requires Invariant(s)
    ensures Invariant(Next(s, Acquire(id)))
  {
    if id in s.acquiring {
      var w := s.acquiring[id];
      forall l
        ensures CountsAt(AcquireHub(s.hub, id, w), l)
      {
        AcquireCounts(s.hub, id, w, l);
      }
      AcquireSources(s.hub, id, w);
      MoveWatch(s.acquiring, s.hub.watching, s.calls, s.tokens, s.begun, id);
    }
  }

  lemma {:induction false} MoveWatch(acquiring: map<RequestId, Watch>, watching: map<RequestId, Watch>,
                                     calls: map<RequestId, Call>, t: Tokens, begun: seq<Request>, id: RequestId)
    requires WatchesOwnTokens(acquiring, calls, t, begun) && WatchesOwnTokens(watching, calls, t, begun) && id in acquiring
    ensures WatchesOwnTokens(acquiring - {id}, calls, t, begun)
    ensures WatchesOwnTokens(watching[id := acquiring[id]], calls, t, begun)
  {
  }

  lemma {:induction false} ReleaseKeeps(s: Service, id: RequestId)
    requires Invariant(s)
    ensures Invariant(Next(s, Release(id)))
  {
    if id in s.hub.watching {
      forall l
        ensures CountsAt(ReleaseHub(s.hub, id), l)
      {
        ReleaseCounts(s.hub, id, l);
      }
      ReleaseSources(s.hub, id);
      HubReplaced(s, ReleaseHub(s.hub, id));
    }
  }

  lemma {:induction false} HubReplaced(s: Service, h: Hub)
    requires Invariant(s) && CountsWatchers(h) && SourcesOwned(h)
    requires h.watching.Keys <= s.hub.watching.Keys && forall id :: id in h.watching ==> h.watching[id] == s.hub.watching[id]
    ensures Invariant(s.(hub := h))
  {
  }

  // -------------------------------------------------------------- every step

  lemma {:induction false} AcquireFailedKeeps(s: Service, id: RequestId)
    requires Invariant(s)
    ensures Invariant(Next(s, AcquireFailed(id)))
  {
  }

  lemma {:induction false} NextKeeps(s: Service, step: Step)
    requires Invariant(s)
    ensures Invariant(Next(s, step))
  {
    match step
    case Begin(r) => BeginKeeps(s, r);
    case Complete(id, enumerated, tracked) => CompleteKeeps(s, id, enumerated, tracked);
    case Abort(id) => AbortKeeps(s, id);
    case Acquire(id) => AcquireKeeps(s, id);
    case AcquireFailed(id) => AcquireFailedKeeps(s, id);
    case Release(id) => ReleaseKeeps(s, id);
    case PublishTo(pane, location, change) => PublishKeeps(s, pane, location, change);
  }

  /** The invariant holds after every interleaving. */
  lemma {:induction false} RunKeepsInvariant(steps: seq<Step>)
    ensures Invariant(Run(steps))
  {
    if steps == [] {
      assert forall l :: Watchers(Initial.hub, l) == {};
    } else {
      RunKeepsInvariant(steps[..|steps| - 1]);
      NextKeeps(Run(steps[..|steps| - 1]), steps[|steps| - 1]);
    }
  }

  // ---------------------------------------------------------------- theorems

  /** In every reachable state the snapshot of a pane is a slice of the pane's cached listing,
      and its token says where the next slice starts. */
  lemma {:induction false} SnapshotIsSlice(steps: seq<Step>, pane: PaneId) returns (from: nat, to: nat)
    requires pane in Run(steps).panes && Run(steps).panes[pane].snapshot.Some?
    ensures var p := Run(steps).panes[pane];
            p.full.Some? && Slice(p.snapshot.value, p.full.value, from, to)
  {
    RunKeepsInvariant(steps);
    var p := Run(steps).panes[pane];
    assert ShowsSlice(p);
    from, to :| Slice(p.snapshot.value, p.full.value, from, to);
  }

  /** Asking for the page behind the one a pane shows serves exactly the next slice of the
      same listing, without enumerating anything again. */
  lemma {:induction false} NextPageContinues(steps: seq<Step>, r: Request, enumerated: seq<Entry>, tracked: bool)
      returns (from: nat, to: nat)
    requires !HasBegun(Run(steps).begun, r.id) && r.pane in Run(steps).panes
    requires var p := Run(steps).panes[r.pane];
             && p.snapshot.Some? && p.snapshot.value.location == r.location && p.options == r.options
             && p.snapshot.value.next.Some? && r.token == p.snapshot.value.next
             && (p.full.Some? ==> |p.full.value| <= Decimal.USIZE_MAX)
    ensures var p := Run(steps).panes[r.pane];
            var after := Next(Next(Run(steps), Begin(r)), Complete(r.id, enumerated, tracked)).panes[r.pane];
            && p.full.Some? && after.full == p.full && Slice(p.snapshot.value, p.full.value, from, to)
            && after.snapshot.Some? && after.snapshot.value.request == r.id
            && Slice(after.snapshot.value, p.full.value, to,
                     if to + 256 < |p.full.value| then to + 256 else |p.full.value|)
  {
    from, to := SnapshotIsSlice(steps, r.pane);
    Decimal.ParsePrint(to);
  }

  /** A list succeeds only for the newest request of its pane, and is given a revision above
      every revision the pane ever had. */
  lemma {:induction false} OnlyTheNewestSucceeds(steps: seq<Step>, id: RequestId, enumerated: seq<Entry>, tracked: bool)
    requires Succeeds(Run(steps), id, enumerated)
    ensures var s := Run(steps);
            var pane := s.calls[id].request.pane;
            var after := CompleteStep(s, id, enumerated, tracked).panes[pane];
            && Newest(s.begun, pane, id)
            && after.snapshot.Some? && after.snapshot.value.revision == after.revision
            && forall i :: 0 <= i < |s.issued| && s.issued[i].0 == pane ==> s.issued[i].1 < after.revision
  {
    RunKeepsInvariant(steps);
  }

  /** A call that has been superseded never succeeds. */
  lemma {:induction false} SupersededFails(steps: seq<Step>, id: RequestId, enumerated: seq<Entry>, k: nat, m: nat)
    requires var s := Run(steps);
             k < m < |s.begun| && s.begun[k].id == id && s.begun[m].pane == s.begun[k].pane
    ensures !Succeeds(Run(steps), id, enumerated)
  {
    RunKeepsInvariant(steps);
    var s := Run(steps);
    if id in s.calls && s.calls[id].request.pane in s.panes {
      var pane := s.calls[id].request.pane;
      var c :| 0 <= c < |s.begun| && s.begun[c] == s.calls[id].request;
      assert c == k;
      var n :| 0 <= n < |s.begun| && s.begun[n].id == s.panes[pane].request && s.begun[n].pane == pane
               && forall j :: n < j < |s.begun| ==> s.begun[j].pane != pane;
      assert n >= m;
      assert s.begun[n].id != s.begun[k].id;
    }
  }

  /** In every reachable state each pane has at most one running watch whose token is not
      cancelled, and that token is the pane's own. */
  lemma {:induction false} OneLiveWatchPerPane(steps: seq<Step>, a: RequestId, b: RequestId)
    requires var s := Run(steps);
             && a in s.hub.watching && b in s.hub.watching && s.hub.watching[a].pane == s.hub.watching[b].pane
             && s.hub.watching[a].token !in s.tokens.cancelled && s.hub.watching[b].token !in s.tokens.cancelled
    ensures a == b
    ensures var s := Run(steps);
            var w := s.hub.watching[a];
            w.pane in s.panes && s.panes[w.pane].watch == w.token
  {
    RunKeepsInvariant(steps);
  }

  /** Releasing a watch cancels its source exactly when it was the last one there. */
  lemma {:induction false} SourceCancelledAtLastRelease(steps: seq<Step>, id: RequestId)
    requires id in Run(steps).hub.watching
    ensures var h := Run(steps).hub;
            var location := h.watching[id].location;
            var after := ReleaseHub(h, id);
            && location in h.registered
            && (Watchers(h, location) == {id} <==> location !in after.registered)
            && after.cancelledSources == (if Watchers(h, location) == {id}
                                          then h.cancelledSources + {h.registered[location].source}
                                          else h.cancelledSources)
  {
    RunKeepsInvariant(steps);
    var h := Run(steps).hub;
    var location := h.watching[id].location;
    assert CountsAt(h, location) && id in Watchers(h, location);
    if |Watchers(h, location)| == 1 {
      SingletonSet(Watchers(h, location), id);
    }
  }

  lemma {:induction false} SingletonSet<T>(a: set<T>, x: T)
    requires |a| == 1 && x in a
    ensures a == {x}
  {
    assert |a - {x}| == 0;
  }
}
