/** The directory service as a state machine. Each section that holds the pane lock or the
    watch lock is one step, so a run is any interleaving of list calls, publications and
    pane watches. */
module DirectoryService {
  import opened Listing
  import opened Replica
  import Decimal

  type PaneId = nat
  type RequestId = nat
  type Token = nat
  type SourceId = nat
  type Location = string

  datatype Options = Options(showHidden: bool, foldersFirst: bool, showGitStatus: bool, sort: seq<Descriptor>)
  datatype Request = Request(pane: PaneId, id: RequestId, location: Location, token: Option<string>, options: Options)
  datatype Snapshot = Snapshot(request: RequestId, revision: nat, location: Location, entries: seq<Entry>, next: Option<string>)

  /** The state of one pane; `watch` is the cancellation token of its watch. */
  datatype PaneState = PaneState(request: RequestId, watch: Token, revision: nat, options: Options,
                                 snapshot: Option<Snapshot>, full: Option<seq<Entry>>)

  /** A list call between its two sections, with the cached listing it found. */
  datatype Call = Call(request: Request, cached: Option<seq<Entry>>)

  /** A watch that a finished first page is about to acquire, or that is running. */
  datatype Watch = Watch(pane: PaneId, location: Location, token: Token)

  datatype SharedWatch = SharedWatch(references: nat, source: SourceId)

  /** The watch hub, and the pane watches that hold one of its references. */
  datatype Hub = Hub(registered: map<Location, SharedWatch>, watching: map<RequestId, Watch>,
                     cancelledSources: set<SourceId>, nextSource: SourceId)

  /** The watch tokens; `creator` and `owner` record which request created a token and for
      which pane, and are read by no step. */
  datatype Tokens = Tokens(cancelled: set<Token>, next: Token, creator: map<Token, RequestId>, owner: map<Token, PaneId>)

  /** `begun` and `issued` record the requests and the revisions so far, in order. */
  datatype Service = Service(panes: map<PaneId, PaneState>, calls: map<RequestId, Call>, acquiring: map<RequestId, Watch>,
                             hub: Hub, tokens: Tokens, begun: seq<Request>, issued: seq<(PaneId, nat)>)

  datatype Step =
    | Begin(request: Request)
    | Complete(id: RequestId, enumerated: seq<Entry>, tracked: bool)
    | Abort(id: RequestId)
    | Acquire(id: RequestId)
    | AcquireFailed(id: RequestId)
    | Release(id: RequestId)
    | PublishTo(pane: PaneId, location: Location, change: Change)

  const Initial := Service(map[], map[], map[], Hub(map[], map[], {}, 0), Tokens({}, 0, map[], map[]), [], [])

  // -------------------------------------------------------------------- steps

  /** A later page of the listing the pane already shows. */
  predicate Continuing(panes: map<PaneId, PaneState>, r: Request) {
    && r.token.Some? && r.pane in panes
    && var p := panes[r.pane];
       p.snapshot.Some? && p.snapshot.value.location == r.location && p.options == r.options
  }

  /** A pane state for a new listing: a fresh token, no snapshot, and the old revision. */
  function FreshPane(panes: map<PaneId, PaneState>, r: Request, token: Token): PaneState {
    PaneState(r.id, token, if r.pane in panes then panes[r.pane].revision else 0, r.options, None, None)
  }

  /** Creates a token for the pane and cancels the one it replaces. */
  function NewToken(tokens: Tokens, panes: map<PaneId, PaneState>, r: Request): Tokens {
    Tokens(if r.pane in panes then tokens.cancelled + {panes[r.pane].watch} else tokens.cancelled,
           tokens.next + 1, tokens.creator[tokens.next := r.id], tokens.owner[tokens.next := r.pane])
  }

  function BeginStep(s: Service, r: Request): Service {
    if Continuing(s.panes, r) then
      var p := s.panes[r.pane];
      s.(panes := s.panes[r.pane := p.(request := r.id)], calls := s.calls[r.id := Call(r, p.full)], begun := s.begun + [r])
    else
      s.(panes := s.panes[r.pane := FreshPane(s.panes, r, s.tokens.next)], calls := s.calls[r.id := Call(r, None)],
         tokens := NewToken(s.tokens, s.panes, r), begun := s.begun + [r])
  }

  function Found(call: Call, enumerated: seq<Entry>): seq<Entry> {
    if call.cached.Some? then call.cached.value else enumerated
  }

  /** The pane still belongs to this request and the token is in range. */
  predicate Succeeds(s: Service, id: RequestId, enumerated: seq<Entry>) {
    && id in s.calls
    && PageOf(Found(s.calls[id], enumerated), s.calls[id].request.token, LIST_PAGE_SIZE).Page?
    && s.calls[id].request.pane in s.panes && s.panes[s.calls[id].request.pane].request == id
  }

  function Served(p: PaneState, call: Call, enumerated: seq<Entry>): PaneState {
    var full := Found(call, enumerated);
    var page := PageOf(full, call.request.token, LIST_PAGE_SIZE);
    if page.BadToken? then p
    else p.(revision := p.revision + 1, full := Some(full),
            snapshot := Some(Snapshot(call.request.id, p.revision + 1, call.request.location, page.entries, page.next)))
  }

  function CompleteStep(s: Service, id: RequestId, enumerated: seq<Entry>, tracked: bool): Service
    requires Succeeds(s, id, enumerated)
  {
    var r := s.calls[id].request;
    var p := s.panes[r.pane];
    s.(panes := s.panes[r.pane := Served(p, s.calls[id], enumerated)],
       calls := s.calls - {id},
       acquiring := if r.token.None? && tracked then s.acquiring[id := Watch(r.pane, r.location, p.watch)] else s.acquiring,
       issued := s.issued + [(r.pane, p.revision + 1)])
  }

  function AcquireHub(h: Hub, id: RequestId, w: Watch): Hub {
    var watching := h.watching[id := w];
    if w.location in h.registered then
      var shared := h.registered[w.location];
      h.(watching := watching, registered := h.registered[w.location := shared.(references := shared.references + 1)])
    else
      h.(watching := watching, registered := h.registered[w.location := SharedWatch(1, h.nextSource)],
         nextSource := h.nextSource + 1)
  }

  function ReleaseHub(h: Hub, id: RequestId): Hub
    requires id in h.watching
  {
    var location := h.watching[id].location;
    var watching := h.watching - {id};
    if location !in h.registered || h.registered[location].references == 0 then h.(watching := watching)
    else
      var shared := h.registered[location];
      if shared.references == 1 then
        h.(watching := watching, registered := h.registered - {location}, cancelledSources := h.cancelledSources + {shared.source})
      else
        h.(watching := watching, registered := h.registered[location := shared.(references := shared.references - 1)])
  }

  /** Publication goes only to a pane that still shows the watched location. */
  predicate Receptive(panes: map<PaneId, PaneState>, pane: PaneId, location: Location) {
    && pane in panes && panes[pane].snapshot.Some?
    && panes[pane].snapshot.value.location == location
  }

  function PublishedRevision(p: PaneState, change: Change): nat
    requires p.snapshot.Some?
  {
    Publish(Pane(p.revision, p.snapshot.value.entries, []), change).revision
  }

  function PublishStep(s: Service, pane: PaneId, location: Location, change: Change): Service
    requires Receptive(s.panes, pane, location)
  {
    var p := s.panes[pane];
    var revision := PublishedRevision(p, change);
    var snapshot := p.snapshot.value.(revision := revision, entries := change.listing, next := None);
    s.(panes := s.panes[pane := p.(revision := revision, full := Some(change.listing), snapshot := Some(snapshot))],
       issued := s.issued + [(pane, revision)])
  }

  predicate HasBegun(begun: seq<Request>, id: RequestId) {
    exists k :: 0 <= k < |begun| && begun[k].id == id
  }

  /** Request ids are distinct, so a step that would reuse one does not happen; nor does a
      step of a call or a watch that is not there. */
  function Next(s: Service, step: Step): Service {
    match step
    case Begin(r) => if HasBegun(s.begun, r.id) then s else BeginStep(s, r)
    case Complete(id, enumerated, tracked) =>
      if Succeeds(s, id, enumerated) then CompleteStep(s, id, enumerated, tracked) else s.(calls := s.calls - {id})
    case Abort(id) => s.(calls := s.calls - {id})
    case Acquire(id) =>
      if id in s.acquiring
      then s.(acquiring := s.acquiring - {id}, hub := AcquireHub(s.hub, id, s.acquiring[id])) else s
    case AcquireFailed(id) => s.(acquiring := s.acquiring - {id})
    case Release(id) => if id in s.hub.watching then s.(hub := ReleaseHub(s.hub, id)) else s
    case PublishTo(pane, location, change) =>
      if Receptive(s.panes, pane, location) then PublishStep(s, pane, location, change) else s
  }

  function Run(steps: seq<Step>): Service {
    if steps == [] then Initial else Next(Run(steps[..|steps| - 1]), steps[|steps| - 1])
  }

  // --------------------------------------------------------------- invariants

  /** No request for `pane` began after `id`. */
  ghost predicate Newest(begun: seq<Request>, pane: PaneId, id: RequestId) {
    exists k :: 0 <= k < |begun| && begun[k].id == id && begun[k].pane == pane
                && forall m :: k < m < |begun| ==> begun[m].pane != pane
  }

  ghost predicate DistinctIds(begun: seq<Request>) {
    forall k, m :: 0 <= k < m < |begun| ==> begun[k].id != begun[m].id
  }

  ghost predicate CallsBegan(calls: map<RequestId, Call>, begun: seq<Request>) {
    forall id :: id in calls ==> calls[id].request in begun && calls[id].request.id == id
  }

  /** Each pane belongs to its newest request. */
  ghost predicate NewestOwns(panes: map<PaneId, PaneState>, begun: seq<Request>) {
    forall p :: p in panes ==> Newest(begun, p, panes[p].request)
  }

  ghost predicate SnapshotsCurrent(panes: map<PaneId, PaneState>) {
    forall p :: p in panes && panes[p].snapshot.Some? ==> panes[p].snapshot.value.revision == panes[p].revision
  }

  /** `s` shows the slice of `full` from `from` to `to`, and its token says where it ends. */
  ghost predicate Slice(s: Snapshot, full: seq<Entry>, from: nat, to: nat) {
    && from <= to <= |full| && s.entries == full[from..to]
    && s.next == if to < |full| then Some(Decimal.Print(to)) else None
  }

  ghost predicate ShowsSlice(p: PaneState) {
    p.snapshot.Some? ==> p.full.Some? && exists from, to :: Slice(p.snapshot.value, p.full.value, from, to)
  }

  /** What a pane shows is a slice of the listing it has cached. */
  ghost predicate SlicesShown(panes: map<PaneId, PaneState>) {
    forall p :: p in panes ==> ShowsSlice(panes[p])
  }

  /** Revisions strictly increase for each pane and are never reset. */
  ghost predicate RevisionsIncrease(panes: map<PaneId, PaneState>, issued: seq<(PaneId, nat)>) {
    && (forall i, j :: 0 <= i < j < |issued| && issued[i].0 == issued[j].0 ==> issued[i].1 < issued[j].1)
    && (forall i :: 0 <= i < |issued| ==> issued[i].0 in panes && issued[i].1 <= panes[issued[i].0].revision)
  }

  ghost function Watchers(h: Hub, location: Location): set<RequestId> {
    set id | id in h.watching && h.watching[id].location == location
  }

  /** References count the running watches, and there is no registration without one. */
  ghost predicate CountsAt(h: Hub, l: Location) {
    if l in h.registered then h.registered[l].references == |Watchers(h, l)| > 0 else Watchers(h, l) == {}
  }

  ghost predicate CountsWatchers(h: Hub) {
    forall l :: CountsAt(h, l)
  }

  /** Some registration holds source `k`. */
  ghost predicate Held(registered: map<Location, SharedWatch>, k: SourceId) {
    exists l :: l in registered && registered[l].source == k
  }

  /** A source is live exactly while one registration holds it. */
  ghost predicate SourcesOwned(h: Hub) {
    && (forall l :: l in h.registered ==>
          h.registered[l].source < h.nextSource && h.registered[l].source !in h.cancelledSources)
    && (forall l, m :: l in h.registered && m in h.registered && l != m ==> h.registered[l].source != h.registered[m].source)
    && (forall k :: k in h.cancelledSources ==> k < h.nextSource)
    && (forall k: nat :: k < h.nextSource && k !in h.cancelledSources ==> Held(h.registered, k))
  }

  ghost predicate TokensRecorded(t: Tokens) {
    && (forall k: nat :: k in t.creator <==> k < t.next)
    && (forall k: nat :: k in t.owner <==> k < t.next)
    && (forall k :: k in t.cancelled ==> k < t.next)
  }

  /** The current token of a pane is its own and is not cancelled. */
  ghost predicate CurrentTokensLive(panes: map<PaneId, PaneState>, t: Tokens) {
    forall p :: p in panes ==>
      panes[p].watch in t.owner && t.owner[panes[p].watch] == p && panes[p].watch !in t.cancelled
  }

  /** Every token that is not cancelled is the current one of its pane. */
  ghost predicate LiveTokensCurrent(panes: map<PaneId, PaneState>, t: Tokens) {
    forall k :: k in t.owner && k !in t.cancelled ==> t.owner[k] in panes && panes[t.owner[k]].watch == k
  }

  /** Each watch runs under the token that its own, finished, request created. */
  ghost predicate WatchesOwnTokens(watches: map<RequestId, Watch>, calls: map<RequestId, Call>, t: Tokens,
                                   begun: seq<Request>) {
    forall id :: id in watches ==>
      && HasBegun(begun, id) && id !in calls
      && watches[id].token in t.creator && t.creator[watches[id].token] == id
      && watches[id].token in t.owner && t.owner[watches[id].token] == watches[id].pane
  }

  /** A first page that still owns its pane created the pane's token. */
  ghost predicate FirstPagesOwnTokens(panes: map<PaneId, PaneState>, calls: map<RequestId, Call>, t: Tokens) {
    forall id :: id in calls && calls[id].request.token.None? && calls[id].request.pane in panes
                 && panes[calls[id].request.pane].request == id ==>
      var token := panes[calls[id].request.pane].watch;
      token in t.creator && t.creator[token] == id
  }

  ghost predicate Invariant(s: Service) {
    match s
    case Service(panes, calls, acquiring, hub, tokens, begun, issued) =>
      && DistinctIds(begun) && CallsBegan(calls, begun) && NewestOwns(panes, begun)
      && SnapshotsCurrent(panes) && SlicesShown(panes) && RevisionsIncrease(panes, issued)
      && CountsWatchers(hub) && SourcesOwned(hub)
      && TokensRecorded(tokens) && CurrentTokensLive(panes, tokens) && LiveTokensCurrent(panes, tokens)
      && WatchesOwnTokens(acquiring, calls, tokens, begun) && WatchesOwnTokens(hub.watching, calls, tokens, begun)
      && acquiring.Keys !! hub.watching.Keys
      && FirstPagesOwnTokens(panes, calls, tokens)
  }
}
