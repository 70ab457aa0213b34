/** Where the listing of a pane comes from: its history is read off the steps of the run. */
module DirectoryListing {
  import opened Listing
  import opened Replica
  import opened DirectoryService
  import opened DirectoryTheorems
  import Decimal

  // ------------------------------------------------------------------ history

  predicate Begins(s: Service, step: Step) {
    step.Begin? && !HasBegun(s.begun, step.request.id)
  }

  /** The request carries a token and names the location and the options that the pane shows. */
  predicate AsksForMore(s: Service, r: Request) {
    && r.token.Some? && r.pane in s.panes
    && s.panes[r.pane].snapshot.Some? && s.panes[r.pane].snapshot.value.location == r.location
    && s.panes[r.pane].options == r.options
  }

  predicate Completes(s: Service, step: Step, pane: PaneId) {
    step.Complete? && Succeeds(s, step.id, step.enumerated) && s.calls[step.id].request.pane == pane
  }

  /** A publication reaches a pane that shows its location. */
  predicate Reaches(s: Service, step: Step, pane: PaneId) {
    && step.PublishTo? && step.pane == pane && pane in s.panes
    && s.panes[pane].snapshot.Some? && s.panes[pane].snapshot.value.location == step.location
  }

  ghost function Before(steps: seq<Step>): Service
    requires steps != []
  {
    Run(steps[..|steps| - 1])
  }

  /** A new listing of the pane starts with this step. */
  predicate Navigates(s: Service, step: Step, pane: PaneId) {
    Begins(s, step) && step.request.pane == pane && !AsksForMore(s, step.request)
  }

  /** The last request that started a new listing of the pane. */
  ghost function Navigation(steps: seq<Step>, pane: PaneId): Option<Request> {
    if steps == [] then None
    else
      var step := steps[|steps| - 1];
      if Navigates(Before(steps), step, pane) then Some(step.request) else Navigation(steps[..|steps| - 1], pane)
  }

  /** Request `id` asked for more of the listing that its pane showed when it began. */
  ghost predicate Continued(steps: seq<Step>, id: RequestId) {
    steps != []
    && var step := steps[|steps| - 1];
       if Begins(Before(steps), step) && step.request.id == id then AsksForMore(Before(steps), step.request)
       else Continued(steps[..|steps| - 1], id)
  }

  /** The listing of a pane by its history: what was last enumerated for it or published to it
      since it navigated, except that a continued request brings back the listing of the time
      when it began. */
  ghost function Listed(steps: seq<Step>, pane: PaneId): Option<seq<Entry>>
    decreases |steps|, 1
  {
    if steps == [] then None
    else
      var init, step, s := steps[..|steps| - 1], steps[|steps| - 1], Before(steps);
      if Navigates(s, step, pane) then None
      else if Completes(s, step, pane) then
        if Continued(init, step.id) then ListedAtBegin(init, step.id) else Some(step.enumerated)
      else if Reaches(s, step, pane) then Some(step.change.listing)
      else Listed(init, pane)
  }

  ghost function ListedAtBegin(steps: seq<Step>, id: RequestId): Option<seq<Entry>>
    decreases |steps|, 0
  {
    if steps == [] then None
    else
      var init, step := steps[..|steps| - 1], steps[|steps| - 1];
      if Begins(Before(steps), step) && step.request.id == id then Listed(init, step.request.pane)
      else ListedAtBegin(init, id)
  }

  // --------------------------------------------------------- what panes show

  /** What is known of a pane: its listing, and the request it navigated with. */
  ghost predicate Shows(s: Service, pane: PaneId, listed: Option<seq<Entry>>, navigation: Option<Request>) {
    pane in s.panes ==>
      && s.panes[pane].full == listed
      && navigation.Some? && s.panes[pane].options == navigation.value.options
      && (s.panes[pane].snapshot.Some? ==> s.panes[pane].snapshot.value.location == navigation.value.location)
  }

  /** What is known of a call: the listing that it continues, if it does. */
  ghost predicate Holds(s: Service, id: RequestId, continued: bool, atBegin: Option<seq<Entry>>) {
    id in s.calls ==>
      if continued then s.calls[id].cached.Some? && s.calls[id].cached == atBegin else s.calls[id].cached.None?
  }

  predicate Owns(s: Service, id: RequestId, pane: PaneId) {
    id in s.calls && s.calls[id].request.pane == pane && pane in s.panes && s.panes[pane].request == id
  }

  /** A call that owns its pane asks for the location and the options of the pane's navigation. */
  ghost predicate Placed(s: Service, id: RequestId, pane: PaneId, navigation: Option<Request>) {
    Owns(s, id, pane) ==>
      && navigation.Some? && s.calls[id].request.location == navigation.value.location
      && s.calls[id].request.options == navigation.value.options
  }

  lemma {:induction false} ShowsAfterBegin(s: Service, r: Request, pane: PaneId, listed: Option<seq<Entry>>, navigation: Option<Request>)
    requires Shows(s, pane, listed, navigation) && Begins(s, Begin(r))
    ensures if Navigates(s, Begin(r), pane) then Shows(Next(s, Begin(r)), pane, None, Some(r))
            else Shows(Next(s, Begin(r)), pane, listed, navigation)
  {
  }

  lemma {:induction false} ShowsAfterComplete(s: Service, id: RequestId, enumerated: seq<Entry>, tracked: bool, pane: PaneId,
                                              listed: Option<seq<Entry>>, navigation: Option<Request>, continued: bool,
                                              atBegin: Option<seq<Entry>>)
    requires Shows(s, pane, listed, navigation) && Placed(s, id, pane, navigation) && Holds(s, id, continued, atBegin)
    ensures var step := Complete(id, enumerated, tracked);
            Shows(Next(s, step), pane,
                  if !Completes(s, step, pane) then listed else if continued then atBegin else Some(enumerated), navigation)
  {
  }

  lemma {:induction false} ShowsAfterPublish(s: Service, step: Step, pane: PaneId, listed: Option<seq<Entry>>, navigation: Option<Request>)
    requires Shows(s, pane, listed, navigation) && step.PublishTo?
    ensures Shows(Next(s, step), pane, if Reaches(s, step, pane) then Some(step.change.listing) else listed, navigation)
  {
  }

  lemma {:induction false} PanesUntouched(s: Service, step: Step)
    requires !step.PublishTo? && !step.Complete? && !Begins(s, step)
    ensures Next(s, step).panes == s.panes
  {
  }

  lemma {:induction false} HoldsAfterBegin(s: Service, r: Request, id: RequestId, continued: bool, atBegin: Option<seq<Entry>>)
    requires Invariant(s) && Holds(s, id, continued, atBegin) && Begins(s, Begin(r))
    ensures if r.id != id then Holds(Next(s, Begin(r)), id, continued, atBegin)
            else Holds(Next(s, Begin(r)), id, AsksForMore(s, r), if r.pane in s.panes then s.panes[r.pane].full else None)
  {
    if AsksForMore(s, r) {
      assert ShowsSlice(s.panes[r.pane]);
    }
  }

  lemma {:induction false} HoldsLater(s: Service, step: Step, id: RequestId, continued: bool, atBegin: Option<seq<Entry>>)
    requires Holds(s, id, continued, atBegin) && !Begins(s, step)
    ensures Holds(Next(s, step), id, continued, atBegin)
  {
  }

  lemma {:induction false} PlacedAfterBegin(s: Service, r: Request, id: RequestId, pane: PaneId, listed: Option<seq<Entry>>,
                                            navigation: Option<Request>)
    requires Placed(s, id, pane, navigation) && Shows(s, pane, listed, navigation) && Begins(s, Begin(r))
    ensures Placed(Next(s, Begin(r)), id, pane, if Navigates(s, Begin(r), pane) then Some(r) else navigation)
  {
  }

  lemma {:induction false} PlacedLater(s: Service, step: Step, id: RequestId, pane: PaneId, navigation: Option<Request>)
    requires Placed(s, id, pane, navigation) && !Begins(s, step)
    ensures Placed(Next(s, step), id, pane, navigation)
  {
  }

  // ------------------------------------------------------------ over every run

  lemma {:induction false} LastStep(steps: seq<Step>, step: Step)
    ensures (steps + [step])[..|steps + [step]| - 1] == steps
    ensures Run(steps + [step]) == Next(Run(steps), step) && Before(steps + [step]) == Run(steps)
  {
    assert (steps + [step])[..|steps|] == steps;
  }

  ghost predicate PaneKnown(steps: seq<Step>, pane: PaneId) {
    Shows(Run(steps), pane, Listed(steps, pane), Navigation(steps, pane))
  }

  ghost predicate CallKnown(steps: seq<Step>, id: RequestId) {
    Holds(Run(steps), id, Continued(steps, id), ListedAtBegin(steps, id))
  }

  ghost predicate PlaceKnown(steps: seq<Step>, id: RequestId, pane: PaneId) {
    Placed(Run(steps), id, pane, Navigation(steps, pane))
  }

  lemma {:induction false} PaneStep(steps: seq<Step>, step: Step, pane: PaneId)
    requires PaneKnown(steps, pane)
    requires step.Complete? ==> CallKnown(steps, step.id) && PlaceKnown(steps, step.id, pane)
    ensures PaneKnown(steps + [step], pane)
  {
    LastStep(steps, step);
    var s, listed, navigation := Run(steps), Listed(steps, pane), Navigation(steps, pane);
    if Begins(s, step) {
      ShowsAfterBegin(s, step.request, pane, listed, navigation);
    } else if step.Complete? {
      ShowsAfterComplete(s, step.id, step.enumerated, step.tracked, pane, listed, navigation, Continued(steps, step.id),
                         ListedAtBegin(steps, step.id));
    } else if step.PublishTo? {
      ShowsAfterPublish(s, step, pane, listed, navigation);
    } else {
      PanesUntouched(s, step);
    }
  }

  lemma {:induction false} CallStep(steps: seq<Step>, step: Step, id: RequestId)
    requires Invariant(Run(steps)) && CallKnown(steps, id)
    requires step.Begin? ==> PaneKnown(steps, step.request.pane)
    ensures CallKnown(steps + [step], id)
  {
    LastStep(steps, step);
    if Begins(Run(steps), step) {
      HoldsAfterBegin(Run(steps), step.request, id, Continued(steps, id), ListedAtBegin(steps, id));
    } else {
      HoldsLater(Run(steps), step, id, Continued(steps, id), ListedAtBegin(steps, id));
    }
  }

  lemma {:induction false} PlaceStep(steps: seq<Step>, step: Step, id: RequestId, pane: PaneId)
    requires PlaceKnown(steps, id, pane) && PaneKnown(steps, pane)
    ensures PlaceKnown(steps + [step], id, pane)
  {
    LastStep(steps, step);
    if Begins(Run(steps), step) {
      PlacedAfterBegin(Run(steps), step.request, id, pane, Listed(steps, pane), Navigation(steps, pane));
    } else {
      PlacedLater(Run(steps), step, id, pane, Navigation(steps, pane));
    }
  }

  /** After every run each pane holds the listing that its history says, under the location and
      the options it navigated with. */
  lemma {:induction false} PanesShowTheirHistory(steps: seq<Step>)
    ensures Invariant(Run(steps))
    ensures forall pane :: PaneKnown(steps, pane)
    ensures forall id :: CallKnown(steps, id)
    ensures forall id, pane :: PlaceKnown(steps, id, pane)
  {
    RunKeepsInvariant(steps);
    if steps != [] {
      var init, step := steps[..|steps| - 1], steps[|steps| - 1];
      PanesShowTheirHistory(init);
      assert steps == init + [step];
      forall pane
        ensures PaneKnown(steps, pane)
      {
        PaneStep(init, step, pane);
      }
      forall id
        ensures CallKnown(steps, id)
      {
        CallStep(init, step, id);
      }
      forall id, pane
        ensures PlaceKnown(steps, id, pane)
      {
        PlaceStep(init, step, id, pane);
      }
    }
  }

  // --------------------------------------------------------------- navigation

  lemma {:induction false} BegunStays(steps: seq<Step>, more: seq<Step>, r: Request)
    requires r in Run(steps).begun
    ensures r in Run(steps + more).begun && HasBegun(Run(steps + more).begun, r.id)
  {
    if more == [] {
      assert steps + more == steps;
      var k :| 0 <= k < |Run(steps).begun| && Run(steps).begun[k] == r;
      assert Run(steps).begun[k].id == r.id;
    } else {
      var init, step := more[..|more| - 1], more[|more| - 1];
      BegunStays(steps, init, r);
      assert steps + more == steps + init + [step];
      LastStep(steps + init, step);
      BegunAfter(Run(steps + init), step, r);
    }
  }

  lemma {:induction false} BegunAfter(s: Service, step: Step, r: Request)
    requires r in s.begun
    ensures r in Next(s, step).begun && HasBegun(Next(s, step).begun, r.id)
  {
    var k :| 0 <= k < |s.begun| && s.begun[k] == r;
    assert k < |Next(s, step).begun| && Next(s, step).begun[k] == r;
  }

  lemma {:induction false} SplitLast(steps: seq<Step>, more: seq<Step>)
    requires more != []
    ensures steps + more == steps + more[..|more| - 1] + [more[|more| - 1]]
  {
  }

  lemma {:induction false} BeginningStaysOnce(steps: seq<Step>, step: Step, id: RequestId)
    requires HasBegun(Run(steps).begun, id)
    ensures Continued(steps + [step], id) == Continued(steps, id)
    ensures ListedAtBegin(steps + [step], id) == ListedAtBegin(steps, id)
  {
    LastStep(steps, step);
  }

  /** Later steps do not change how a request began. */
  lemma {:induction false} BeginningStays(steps: seq<Step>, more: seq<Step>, r: Request)
    requires r in Run(steps).begun
    ensures Continued(steps + more, r.id) == Continued(steps, r.id)
    ensures ListedAtBegin(steps + more, r.id) == ListedAtBegin(steps, r.id)
  {
    if more == [] {
      assert steps + more == steps;
    } else {
      var init, step := more[..|more| - 1], more[|more| - 1];
      BeginningStays(steps, init, r);
      BegunStays(steps, init, r);
      BeginningStaysOnce(steps + init, step, r.id);
      SplitLast(steps, more);
    }
  }

  lemma {:induction false} CallIsItsRequest(s: Service, r: Request)
    requires Invariant(s) && r in s.begun && r.id in s.calls
    ensures s.calls[r.id].request == r
  {
    var k :| 0 <= k < |s.begun| && s.begun[k] == r;
    var m :| 0 <= m < |s.begun| && s.begun[m] == s.calls[r.id].request;
    assert s.begun[k].id == s.begun[m].id;
  }

  lemma {:induction false} BeginRecords(steps: seq<Step>, r: Request)
    requires !HasBegun(Run(steps).begun, r.id)
    ensures r in Run(steps + [Begin(r)]).begun
    ensures Continued(steps + [Begin(r)], r.id) == AsksForMore(Run(steps), r)
    ensures ListedAtBegin(steps + [Begin(r)], r.id) == Listed(steps, r.pane)
  {
    LastStep(steps, Begin(r));
    var begun := Run(steps + [Begin(r)]).begun;
    assert begun[|begun| - 1] == r;
  }

  /** The first 256 entries. */
  function FirstPage(s: seq<Entry>): seq<Entry> {
    if |s| <= 256 then s else s[..256]
  }

  /** A request that does not ask for more is answered from its own enumeration: whatever
      happens until it completes, a success puts the new listing into the pane, under the
      location and options of the request, and a first page is the head of that listing. */
  lemma {:induction false} NavigationShowsItsOwnListing(steps: seq<Step>, r: Request, more: seq<Step>, enumerated: seq<Entry>,
                                                        tracked: bool)
    requires !HasBegun(Run(steps).begun, r.id) && !AsksForMore(Run(steps), r)
    requires Succeeds(Run(steps + [Begin(r)] + more), r.id, enumerated)
    ensures var after := Next(Run(steps + [Begin(r)] + more), Complete(r.id, enumerated, tracked));
            && r.pane in after.panes
            && var p := after.panes[r.pane];
               && p.full == Some(enumerated) && p.options == r.options
               && p.snapshot.Some? && p.snapshot.value.location == r.location && p.snapshot.value.request == r.id
               && (r.token.None? ==> p.snapshot.value.entries == FirstPage(enumerated))
  {
    var now := steps + [Begin(r)] + more;
    BeginRecords(steps, r);
    BegunStays(steps + [Begin(r)], more, r);
    BeginningStays(steps + [Begin(r)], more, r);
    PanesShowTheirHistory(now);
    CallIsItsRequest(Run(now), r);
    assert CallKnown(now, r.id) && PlaceKnown(now, r.id, r.pane) && PaneKnown(now, r.pane);
    OwnPageServed(Run(now), r, enumerated, tracked, Navigation(now, r.pane));
  }

  lemma {:induction false} OwnPageServed(s: Service, r: Request, enumerated: seq<Entry>, tracked: bool, navigation: Option<Request>)
    requires Succeeds(s, r.id, enumerated) && s.calls[r.id].request == r && s.calls[r.id].cached.None?
    requires Placed(s, r.id, r.pane, navigation) && Shows(s, r.pane, s.panes[r.pane].full, navigation)
    ensures var after := Next(s, Complete(r.id, enumerated, tracked));
            && r.pane in after.panes
            && var p := after.panes[r.pane];
               && p.full == Some(enumerated) && p.options == r.options
               && p.snapshot.Some? && p.snapshot.value.location == r.location && p.snapshot.value.request == r.id
               && (r.token.None? ==> p.snapshot.value.entries == FirstPage(enumerated))
  {
  }

  /** What a publication leaves in the panes that show its location, and in no other. */
  lemma {:induction false} PublicationIsShown(s: Service, pane: PaneId, location: Location, change: Change, other: PaneId)
    requires other in s.panes
    ensures var after := Next(s, PublishTo(pane, location, change));
            && other in after.panes
            && if Reaches(s, PublishTo(pane, location, change), other) then
                 var p, q := after.panes[other], s.panes[other];
                 && p.full == Some(change.listing) && p.snapshot.Some? && p.snapshot.value.entries == change.listing
                 && p.snapshot.value.next == None && p.snapshot.value.location == location
                 && p.request == q.request && p.watch == q.watch && p.options == q.options && p.revision > q.revision
               else after.panes[other] == s.panes[other]
  {
    if Reaches(s, PublishTo(pane, location, change), other) {
      var p := s.panes[other];
      EmittedRevisions(Pane(p.revision, p.snapshot.value.entries, []), change);
    }
  }

  /** A request succeeds exactly if no later one began for its pane and its token is absent or
      the decimal offset of a place in the listing it is served from. */
  lemma {:induction false} SucceedsIffNewest(steps: seq<Step>, id: RequestId, enumerated: seq<Entry>)
    requires id in Run(steps).calls
    ensures var s := Run(steps);
            var r := s.calls[id].request;
            var listing := if Continued(steps, id) then ListedAtBegin(steps, id) else Some(enumerated);
            && listing.Some?
            && (Succeeds(s, id, enumerated) <==> Newest(s.begun, r.pane, id) && InRange(r.token, |listing.value|))
  {
    PanesShowTheirHistory(steps);
    assert CallKnown(steps, id);
    var s := Run(steps);
    BegunHavePanes(steps);
    NewestIsOwner(s, s.calls[id].request.pane, id);
    PageExistsIff(Found(s.calls[id], enumerated), s.calls[id].request.token, LIST_PAGE_SIZE);
  }

  ghost predicate InRange(token: Option<string>, length: nat) {
    token.None? || (Decimal.Parse(token.value).Value? && Decimal.Parse(token.value).n <= length)
  }

  lemma {:induction false} PageExistsIff(full: seq<Entry>, token: Option<string>, size: nat)
    ensures PageOf(full, token, size).Page? <==> InRange(token, |full|)
  {
  }

  lemma {:induction false} NewestIsOwner(s: Service, pane: PaneId, id: RequestId)
    requires Invariant(s) && EveryBegunHasPane(s)
    ensures Newest(s.begun, pane, id) <==> pane in s.panes && s.panes[pane].request == id
  {
    if Newest(s.begun, pane, id) {
      var k :| 0 <= k < |s.begun| && s.begun[k].id == id && s.begun[k].pane == pane
               && forall m :: k < m < |s.begun| ==> s.begun[m].pane != pane;
      assert pane in s.panes && Newest(s.begun, pane, s.panes[pane].request);
    }
  }

  lemma {:induction false} BegunHavePanes(steps: seq<Step>)
    ensures EveryBegunHasPane(Run(steps))
  {
    if steps != [] {
      var init, step := steps[..|steps| - 1], steps[|steps| - 1];
      BegunHavePanes(init);
      BegunHavePanesNext(Run(init), step);
    }
  }

  lemma {:induction false} BegunHavePanesNext(s: Service, step: Step)
    requires EveryBegunHasPane(s)
    ensures EveryBegunHasPane(Next(s, step))
  {
  }

  ghost predicate EveryBegunHasPane(s: Service) {
    forall k :: 0 <= k < |s.begun| ==> s.begun[k].pane in s.panes
  }

  // --------------------------------------------------- the newest publication

  /** What was last enumerated for a pane or published to it since it navigated. */
  ghost function Latest(steps: seq<Step>, pane: PaneId): Option<seq<Entry>> {
    if steps == [] then None
    else
      var init, step, s := steps[..|steps| - 1], steps[|steps| - 1], Before(steps);
      if Navigates(s, step, pane) then None
      else if Completes(s, step, pane) && !Continued(init, step.id) then Some(step.enumerated)
      else if Reaches(s, step, pane) then Some(step.change.listing)
      else Latest(init, pane)
  }

  /** `Latest` at the time when request `id` began. */
  ghost function LatestAtBegin(steps: seq<Step>, id: RequestId): Option<seq<Entry>> {
    if steps == [] then None
    else
      var init, step := steps[..|steps| - 1], steps[|steps| - 1];
      if Begins(Before(steps), step) && step.request.id == id then Latest(init, step.request.pane)
      else LatestAtBegin(init, id)
  }

  /** If the last step completed a continued request, its pane had got no other listing since
      the request began. */
  ghost predicate LastUndisturbed(steps: seq<Step>)
    requires steps != []
  {
    var init, step, s := steps[..|steps| - 1], steps[|steps| - 1], Before(steps);
    step.Complete? && Succeeds(s, step.id, step.enumerated) && Continued(init, step.id) ==>
      LatestAtBegin(init, step.id) == Latest(init, s.calls[step.id].request.pane)
  }

  ghost predicate Undisturbed(steps: seq<Step>) {
    steps != [] ==> Undisturbed(steps[..|steps| - 1]) && LastUndisturbed(steps)
  }

  ghost predicate HoldsLatest(steps: seq<Step>) {
    forall pane :: Listed(steps, pane) == Latest(steps, pane)
  }

  /** After every step so far, every pane held what was last enumerated for it or published to it. */
  ghost predicate AlwaysLatest(steps: seq<Step>) {
    HoldsLatest(steps) && (steps != [] ==> AlwaysLatest(steps[..|steps| - 1]))
  }

  lemma {:induction false} BeginningsAgree(steps: seq<Step>, id: RequestId)
    requires AlwaysLatest(steps)
    ensures ListedAtBegin(steps, id) == LatestAtBegin(steps, id)
  {
    if steps != [] {
      var init := steps[..|steps| - 1];
      BeginningsAgree(init, id);
      assert HoldsLatest(init);
    }
  }

  /** A later page is served from the listing of the time when it was asked for, and puts that
      listing back into the pane. So panes always hold what was last enumerated or published
      exactly when no other listing arrived while a later page was under way. */
  lemma {:induction false} LatestIffUndisturbed(steps: seq<Step>)
    ensures AlwaysLatest(steps) <==> Undisturbed(steps)
  {
    if steps == [] {
      assert HoldsLatest(steps);
    } else {
      var init := steps[..|steps| - 1];
      LatestIffUndisturbed(init);
      if AlwaysLatest(init) {
        LatestStep(steps);
      }
    }
  }

  lemma {:induction false} LatestAt(steps: seq<Step>, pane: PaneId)
    requires steps != [] && AlwaysLatest(steps[..|steps| - 1])
    ensures var init, step := steps[..|steps| - 1], steps[|steps| - 1];
            Listed(steps, pane) == Latest(steps, pane) <==>
            (Completes(Before(steps), step, pane) && Continued(init, step.id) ==>
               LatestAtBegin(init, step.id) == Latest(init, pane))
  {
    var init, step := steps[..|steps| - 1], steps[|steps| - 1];
    assert HoldsLatest(init);
    assert Listed(init, pane) == Latest(init, pane);
    if step.Complete? {
      BeginningsAgree(init, step.id);
    }
  }

  lemma {:induction false} LatestStep(steps: seq<Step>)
    requires steps != [] && AlwaysLatest(steps[..|steps| - 1])
    ensures HoldsLatest(steps) <==> LastUndisturbed(steps)
  {
    var init, step, s := steps[..|steps| - 1], steps[|steps| - 1], Before(steps);
    forall pane
      ensures Listed(steps, pane) == Latest(steps, pane) <==>
              (Completes(s, step, pane) && Continued(init, step.id) ==> LatestAtBegin(init, step.id) == Latest(init, pane))
    {
      LatestAt(steps, pane);
    }
    if HoldsLatest(steps) && step.Complete? && Succeeds(s, step.id, step.enumerated) && Continued(init, step.id) {
      var pane := s.calls[step.id].request.pane;
      assert Completes(s, step, pane) && Listed(steps, pane) == Latest(steps, pane);
    }
  }

  /** In every reachable state: when a publication arrives while a later page of the same pane is
      under way, the page is served from the older listing, and the publication is lost to the
      pane's cache. */
  lemma {:induction false} LaterPageRevertsPublication(steps: seq<Step>, r: Request, change: Change, enumerated: seq<Entry>,
                                                       tracked: bool)
    requires !HasBegun(Run(steps).begun, r.id) && AsksForMore(Run(steps), r) && r.token == Some(Decimal.Print(0))
    ensures var publish, complete := PublishTo(r.pane, r.location, change), Complete(r.id, enumerated, tracked);
            var panes := Run(steps + [Begin(r)] + [publish] + [complete]).panes;
            && r.pane in panes && panes[r.pane].full.Some? && panes[r.pane].full == Run(steps).panes[r.pane].full
            && Latest(steps + [Begin(r)] + [publish] + [complete], r.pane) == Some(change.listing)
  {
    var publish, complete := PublishTo(r.pane, r.location, change), Complete(r.id, enumerated, tracked);
    var began := steps + [Begin(r)];
    PanesShowTheirHistory(steps);
    BeginRecords(steps, r);
    BeginningStays(began, [publish], r);
    LastStep(steps, Begin(r));
    LastStep(began, publish);
    LastStep(began + [publish], complete);
    assert ShowsSlice(Run(steps).panes[r.pane]);
    PageReverts(Run(steps), r, change, enumerated, tracked);
    assert Reaches(Run(began), publish, r.pane) && !Navigates(Run(began), publish, r.pane);
    assert Latest(began + [publish], r.pane) == Some(change.listing);
  }

  lemma {:induction false} PageReverts(s: Service, r: Request, change: Change, enumerated: seq<Entry>, tracked: bool)
    requires !HasBegun(s.begun, r.id) && AsksForMore(s, r) && r.token == Some(Decimal.Print(0)) && s.panes[r.pane].full.Some?
    ensures var began := Next(s, Begin(r));
            var published := Next(began, PublishTo(r.pane, r.location, change));
            var after := Next(published, Complete(r.id, enumerated, tracked));
            && Reaches(began, PublishTo(r.pane, r.location, change), r.pane)
            && Completes(published, Complete(r.id, enumerated, tracked), r.pane)
            && r.pane in after.panes && after.panes[r.pane].full == s.panes[r.pane].full
  {
    Decimal.ParsePrint(0);
  }

  // ------------------------------------------------------------------ watches

  /** A first page that succeeds is about to be watched under the token of its pane, if its
      provider can be watched; a later page is not, and neither is a request that fails. */
  lemma {:induction false} FirstPagesAreWatched(s: Service, id: RequestId, enumerated: seq<Entry>, tracked: bool)
    requires id in s.calls && id !in s.acquiring
    ensures var r, after := s.calls[id].request, Next(s, Complete(id, enumerated, tracked));
            && (id in after.acquiring <==> Succeeds(s, id, enumerated) && r.token.None? && tracked)
            && (id in after.acquiring ==> after.acquiring[id] == Watch(r.pane, r.location, s.panes[r.pane].watch))
            && id !in after.calls
            && forall other :: other != id ==> (other in after.acquiring <==> other in s.acquiring)
  {
  }

  /** An acquired watch runs as it was asked for, under one more reference of its location; a
      failed or released one is gone; an aborted request can never complete. */
  lemma {:induction false} WatchSteps(steps: seq<Step>, id: RequestId, enumerated: seq<Entry>)
    ensures var s := Run(steps);
            && (id in s.acquiring ==>
                  var w, after := s.acquiring[id], Next(s, Acquire(id));
                  && id !in after.acquiring && id in after.hub.watching && after.hub.watching[id] == w
                  && w.location in after.hub.registered
                  && after.hub.registered[w.location].references
                       == 1 + if w.location in s.hub.registered then s.hub.registered[w.location].references else 0)
            && id !in Next(s, AcquireFailed(id)).acquiring && Next(s, AcquireFailed(id)).hub == s.hub
            && id !in Next(s, Release(id)).hub.watching
            && !Succeeds(Next(s, Abort(id)), id, enumerated)
  {
  }
}
