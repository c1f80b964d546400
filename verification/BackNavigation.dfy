// The history planners of back-navigation.ts, applied to a browser history with back and forward moves.
module BackNavigation {
  import opened Text

  datatype View = Prospects | Dashboard | Icp | Discovery | BetaAnalytics | Actions | Today | Outreach

  /** A field of a stored history entry: anything may have been put there. */
  datatype Field = Absent | Str(text: string) | Flag(value: bool) | Other

  /** A stored history entry. Its view field is already looked up among the known views. */
  datatype Entry = NotAnObject | Fields(view: Option<View>, projectId: Field, runId: Field, prospectId: Field,
                                        fromDiscovery: Field)

  datatype AppState = AppState(view: View, projectId: string, runId: Option<string>, prospectId: Option<string>,
                               fromDiscovery: bool)

  datatype Op = Push(state: AppState) | Replace(state: AppState)

  /** A usable identifier: a string of 1 to 200 characters. */
  predicate Usable(id: string) {
    1 <= |id| <= 200
  }

  function Id(f: Field): Option<string> {
    if f.Str? && Usable(f.text) then Some(f.text) else None
  }

  /** `readAppHistoryState`: what an untrusted entry says. */
  function ReadState(e: Entry): Option<AppState> {
    if e.NotAnObject? || e.view.None? || Id(e.projectId).None? then None
    else Some(AppState(e.view.value, Id(e.projectId).value, Id(e.runId), Id(e.prospectId),
                       e.fromDiscovery == Flag(true) && e.view.value == Prospects && Id(e.prospectId).Some?))
  }

  function FieldOf(id: Option<string>): Field {
    if id.Some? then Str(id.value) else Other
  }

  /** What a state looks like once stored. */
  function Stored(s: AppState): Entry {
    Fields(Some(s.view), Str(s.projectId), FieldOf(s.runId), FieldOf(s.prospectId), Flag(s.fromDiscovery))
  }

  function UsableOrNone(id: Option<string>): Option<string> {
    if id.Some? && Usable(id.value) then id else None
  }

  /** Reading back a stored state gives it again, up to unusable identifiers. */
  lemma ReadBack(s: AppState)
    ensures ReadState(Stored(s)) == if !Usable(s.projectId) then None
              else Some(s.(runId := UsableOrNone(s.runId), prospectId := UsableOrNone(s.prospectId),
                           fromDiscovery := s.fromDiscovery && s.view == Prospects && UsableOrNone(s.prospectId).Some?))
  {
  }

  // ---------------------------------------------------------------- planners

  function DiscoveryEntry(projectId: string, runId: Option<string>): AppState {
    AppState(Discovery, projectId, runId, None, false)
  }

  function ProspectEntry(projectId: string, runId: Option<string>, prospectId: string): AppState {
    AppState(Prospects, projectId, runId, Some(prospectId), true)
  }

  predicate IsDiscoveryFor(s: Option<AppState>, projectId: string) {
    s.Some? && s.value.view == Discovery && s.value.projectId == projectId
  }

  function PlanEnterDiscovery(current: Entry, view: View, projectId: string, prospectId: Option<string>,
                              runId: Option<string>): seq<Op> {
    var s := ReadState(current);
    if IsDiscoveryFor(s, projectId) then [Replace(DiscoveryEntry(projectId, OrElse(runId, s.value.runId)))]
    else (if s.None? then [Replace(AppState(view, projectId, None, prospectId, false))] else [])
         + [Push(DiscoveryEntry(projectId, runId))]
  }

  /** The run the Discovery entry below an opened prospect carries. */
  function PlannedRun(current: Entry, projectId: string, runId: Option<string>): Option<string> {
    var s := ReadState(current);
    OrElse(runId, if IsDiscoveryFor(s, projectId) then s.value.runId else None)
  }

  function PlanOpenProspect(current: Entry, projectId: string, runId: Option<string>, prospectId: string): seq<Op> {
    var run := PlannedRun(current, projectId, runId);
    var below := DiscoveryEntry(projectId, run);
    [if IsDiscoveryFor(ReadState(current), projectId) then Replace(below)
     else Push(below), Push(ProspectEntry(projectId, run, prospectId))]
  }

  function PlanRunChange(current: Entry, projectId: string, runId: Option<string>): seq<Op> {
    var s := ReadState(current);
    if IsDiscoveryFor(s, projectId) && s.value.runId != runId then [Replace(DiscoveryEntry(projectId, runId))] else []
  }

  predicate CanStepBack(e: Entry) {
    var s := ReadState(e);
    s.Some? && s.value.view == Prospects && s.value.fromDiscovery
  }

  // ---------------------------------------------------------------- the browser

  /** The entries of the tab and the one on screen. */
  datatype History = History(entries: seq<Entry>, at: nat)
  {
    predicate Valid() {
      at < |entries|
    }

    function Current(): Entry
      requires Valid()
    {
      entries[at]
    }
  }

  /** A push drops the forward entries; a replacement overwrites the fields of the current entry. */
  function Applied(h: History, op: Op): (next: History)
    requires h.Valid()
    ensures next.Valid()
  {
    match op
    case Push(s) => History(h.entries[..h.at + 1] + [Stored(s)], h.at + 1)
    case Replace(s) => History(h.entries[h.at := Stored(s)], h.at)
  }

  function AllApplied(h: History, ops: seq<Op>): (next: History)
    requires h.Valid()
    ensures next.Valid()
    decreases |ops|
  {
    if ops == [] then h else AllApplied(Applied(h, ops[0]), ops[1..])
  }

  datatype Action =
    | EnterDiscovery(view: View, projectId: string, prospectId: Option<string>, runId: Option<string>)
    | OpenProspect(projectId: string, runId: Option<string>, prospect: string)
    | RunChange(projectId: string, runId: Option<string>)
    | Go(to: nat)

  function Planned(current: Entry, a: Action): seq<Op>
    requires !a.Go?
  {
    match a
    case EnterDiscovery(view, projectId, prospectId, runId) => PlanEnterDiscovery(current, view, projectId, prospectId,
        runId)
    case OpenProspect(projectId, runId, prospect) => PlanOpenProspect(current, projectId, runId, prospect)
    case RunChange(projectId, runId) => PlanRunChange(current, projectId, runId)
  }

  /** A click, or a move to another entry of the tab; a move outside the tab changes nothing here. */
  function Acted(h: History, a: Action): (next: History)
    requires h.Valid()
    ensures next.Valid()
  {
    if a.Go? then (if a.to < |h.entries| then h.(at := a.to) else h)
    else AllApplied(h, Planned(h.Current(), a))
  }

  function After(h: History, actions: seq<Action>, n: nat): (next: History)
    requires h.Valid() && n <= |actions|
    ensures next.Valid()
  {
    if n == 0 then h else Acted(After(h, actions, n - 1), actions[n - 1])
  }

  // ---------------------------------------------------------------- invariants of every reachable history

  /** Where "back" is offered, the entry just below is a Discovery entry of the same project. */
  predicate BackIsSafe(entries: seq<Entry>, k: nat)
    requires k < |entries|
  {
    CanStepBack(entries[k]) ==>
        k > 0 && IsDiscoveryFor(ReadState(entries[k - 1]), ReadState(entries[k]).value.projectId)
  }

  /** Two Discovery entries of one project are never stacked on each other. */
  predicate NotStacked(entries: seq<Entry>, k: nat)
    requires k < |entries|
  {
    (k > 0 && ReadState(entries[k]).Some? && ReadState(entries[k]).value.view == Discovery)
    ==> !IsDiscoveryFor(ReadState(entries[k - 1]), ReadState(entries[k]).value.projectId)
  }

  ghost predicate Safe(h: History) {
    h.Valid() && forall k | 0 <= k < |h.entries| :: BackIsSafe(h.entries, k)
  }

  ghost predicate Flat(h: History) {
    h.Valid() && forall k | 0 <= k < |h.entries| :: NotStacked(h.entries, k)
  }

  lemma PushIsSafe(h: History, s: AppState)
    requires Safe(h) && (CanStepBack(Stored(s)) ==> IsDiscoveryFor(ReadState(h.Current()), s.projectId))
    ensures Safe(Applied(h, Push(s)))
  {
    var next := Applied(h, Push(s));
    forall k | 0 <= k < |next.entries|
      ensures BackIsSafe(next.entries, k)
    {
      if k <= h.at {
        assert BackIsSafe(h.entries, k);
      } else {
        ReadBack(s);
      }
    }
  }

  /** A replacement is safe if it does not offer "back" itself and keeps a Discovery entry one of the same project. */
  lemma ReplaceIsSafe(h: History, s: AppState)
    requires Safe(h) && !CanStepBack(Stored(s))
    requires forall p: string :: IsDiscoveryFor(ReadState(h.Current()), p) ==> IsDiscoveryFor(ReadState(Stored(s)), p)
    ensures Safe(Applied(h, Replace(s)))
  {
    var next := Applied(h, Replace(s));
    forall k | 0 <= k < |next.entries|
      ensures BackIsSafe(next.entries, k)
    {
      assert BackIsSafe(h.entries, k);
    }
  }

  lemma OneOp(h: History, op: Op)
    requires h.Valid()
    ensures AllApplied(h, [op]) == Applied(h, op)
  {
    assert [op][1..] == [];
  }

  lemma TwoOps(h: History, first: Op, second: Op)
    requires h.Valid()
    ensures AllApplied(h, [first]) == Applied(h, first)
    ensures AllApplied(h, [first, second]) == Applied(Applied(h, first), second)
  {
    OneOp(h, first);
    OneOp(Applied(h, first), second);
    assert [first, second][1..] == [second];
  }

  lemma EveryActionIsSafe(h: History, a: Action)
    requires Safe(h)
    ensures Safe(Acted(h, a))
  {
    var current := h.Current();
    match a
    case Go(to) =>
    case RunChange(projectId, runId) =>
      ReadBack(DiscoveryEntry(projectId, runId));
      if Planned(current, a) != [] {
        TwoOps(h, Planned(current, a)[0], Planned(current, a)[0]);
        ReplaceIsSafe(h, DiscoveryEntry(projectId, runId));
      }
    case OpenProspect(projectId, runId, prospect) =>
      var run := PlannedRun(current, projectId, runId);
      var below, above := DiscoveryEntry(projectId, run), ProspectEntry(projectId, run, prospect);
      ReadBack(below);
      ReadBack(above);
      TwoOps(h, Planned(current, a)[0], Planned(current, a)[1]);
      if IsDiscoveryFor(ReadState(current), projectId) {
        ReplaceIsSafe(h, below);
      } else {
        PushIsSafe(h, below);
      }
      PushIsSafe(Applied(h, Planned(current, a)[0]), above);
    case EnterDiscovery(view, projectId, prospectId, runId) =>
      var ops := Planned(current, a);
      TwoOps(h, ops[0], ops[|ops| - 1]);
      assert ops == if |ops| == 1 then [ops[0]] else [ops[0], ops[1]];
      ReadBack(ops[|ops| - 1].state);
      ReadBack(ops[0].state);
      if IsDiscoveryFor(ReadState(current), projectId) {
        ReplaceIsSafe(h, ops[0].state);
      } else if |ops| == 1 {
        PushIsSafe(h, ops[0].state);
      } else {
        ReplaceIsSafe(h, ops[0].state);
        PushIsSafe(Applied(h, ops[0]), ops[1].state);
      }
  }

  /**
   In every history reached by any clicks and any back and forward moves from entries that offer no "back"
   (whatever else they hold), stepping back from an entry that offers it lands on the same project's Discovery.
   */
  lemma {:induction false} SteppingBackStaysInDiscovery(start: History, actions: seq<Action>, n: nat)
    requires start.Valid() && n <= |actions|
    requires forall k | 0 <= k < |start.entries| :: !CanStepBack(start.entries[k])
    ensures Safe(After(start, actions, n))
    decreases n
  {
    if n > 0 {
      SteppingBackStaysInDiscovery(start, actions, n - 1);
      EveryActionIsSafe(After(start, actions, n - 1), actions[n - 1]);
    } else {
      assert forall k | 0 <= k < |start.entries| :: BackIsSafe(start.entries, k);
    }
  }

  predicate UsableRun(runId: Option<string>) {
    runId.Some? ==> Usable(runId.value)
  }

  /** The entry shows Discovery for this project and run, and no prospect. */
  predicate ShowsDiscovery(e: Entry, projectId: string, runId: Option<string>) {
    var s := ReadState(e);
    && s.Some? && s.value.view == Discovery && s.value.projectId == projectId && s.value.runId == runId
    && s.value.prospectId.None? && !s.value.fromDiscovery
  }

  /** The entry shows a prospect opened from Discovery, with this project and run. */
  predicate ShowsProspect(e: Entry, projectId: string, runId: Option<string>, prospect: string) {
    var s := ReadState(e);
    && s.Some? && s.value.view == Prospects && s.value.projectId == projectId && s.value.runId == runId
    && s.value.prospectId == Some(prospect) && s.value.fromDiscovery
  }

  /**
   Opening a prospect from Discovery of a project or from anywhere else: the prospect is on screen and one step back
   lands on Discovery, both with the run asked for, or else the run of the Discovery entry that was left, or none; and
   no older entry is lost.
   */
  lemma OpenedProspectReturns(h: History, projectId: string, runId: Option<string>, prospect: string)
    requires h.Valid() && Usable(projectId) && Usable(prospect) && UsableRun(runId)
    ensures var next, left := Acted(h, OpenProspect(projectId, runId, prospect)), ReadState(h.Current());
            var fromHere := left.Some? && left.value.view == Discovery && left.value.projectId == projectId;
            var kept := if fromHere then h.at else h.at + 1;
            var run := if runId.Some? then runId else if fromHere then left.value.runId else None;
            && CanStepBack(next.Current())
            && next.at == |next.entries| - 1 == kept + 1
            && ShowsProspect(next.entries[next.at], projectId, run, prospect)
            && ShowsDiscovery(next.entries[next.at - 1], projectId, run)
            && next.entries[..kept] == h.entries[..kept]
  {
    var ops := Planned(h.Current(), OpenProspect(projectId, runId, prospect));
    TwoOps(h, ops[0], ops[1]);
    ReadBack(ops[0].state);
    ReadBack(ops[1].state);
  }

  /** Only the entry on screen differs, at most. */
  predicate OnlyCurrentDiffers(before: History, after: History)
    requires before.Valid()
  {
    && after.at == before.at && |after.entries| == |before.entries|
    && forall k | 0 <= k < |before.entries| && k != before.at :: after.entries[k] == before.entries[k]
  }

  /**
   Changing the run on Discovery of the project: the entry on screen carries the new run, and no entry is added; on any
   other screen nothing happens.
   */
  lemma RunChangeIsInPlace(h: History, projectId: string, runId: Option<string>)
    requires h.Valid() && Usable(projectId) && UsableRun(runId)
    ensures var next, left := Acted(h, RunChange(projectId, runId)), ReadState(h.Current());
            if left.Some? && left.value.view == Discovery && left.value.projectId == projectId
            then && OnlyCurrentDiffers(h, next)
                 && if left.value.runId == runId then next == h
                    else ShowsDiscovery(next.Current(), projectId, runId)
            else next == h
  {
    var ops := Planned(h.Current(), RunChange(projectId, runId));
    if ops != [] {
      OneOp(h, ops[0]);
      ReadBack(ops[0].state);
    }
  }

  /**
   Entering Discovery: it is on screen with the run asked for. From Discovery of the project the entry is rewritten, and
   keeps its run when none is asked for; from elsewhere it is one entry more, above the entry that is left, which is
   first written down when it could not be read.
   */
  lemma EnteredDiscoveryIsOneStep(h: History, view: View, projectId: string, prospectId: Option<string>,
                                  runId: Option<string>)
    requires h.Valid() && Usable(projectId) && UsableRun(runId)
    ensures var next, left := Acted(h, EnterDiscovery(view, projectId, prospectId, runId)), ReadState(h.Current());
            if left.Some? && left.value.view == Discovery && left.value.projectId == projectId
            then && OnlyCurrentDiffers(h, next)
                 && ShowsDiscovery(next.Current(), projectId, if runId.Some? then runId else left.value.runId)
            else && next.at == |next.entries| - 1 == h.at + 1 && next.entries[..h.at] == h.entries[..h.at]
                 && ShowsDiscovery(next.Current(), projectId, runId)
                 && if left.Some? then next.entries[h.at] == h.Current()
                    else ReadState(next.entries[h.at])
                         == Some(AppState(view, projectId, None, UsableOrNone(prospectId), false))
  {
    var ops := Planned(h.Current(), EnterDiscovery(view, projectId, prospectId, runId));
    TwoOps(h, ops[0], ops[|ops| - 1]);
    assert ops == if |ops| == 1 then [ops[0]] else [ops[0], ops[1]];
    ReadBack(ops[0].state);
    ReadBack(ops[|ops| - 1].state);
  }

  // ---------------------------------------------------------------- Discovery entries never pile up

  lemma PushIsFlat(h: History, s: AppState)
    requires Flat(h) && (s.view == Discovery ==> !IsDiscoveryFor(ReadState(h.Current()), s.projectId))
    ensures Flat(Applied(h, Push(s)))
  {
    var next := Applied(h, Push(s));
    forall k | 0 <= k < |next.entries|
      ensures NotStacked(next.entries, k)
    {
      if k <= h.at {
        assert NotStacked(h.entries, k);
      } else {
        ReadBack(s);
      }
    }
  }

  /** A replacement that is no new Discovery entry, or rewrites the one already there. */
  lemma ReplaceIsFlat(h: History, s: AppState)
    requires Flat(h) && (s.view == Discovery ==> IsDiscoveryFor(ReadState(h.Current()), s.projectId))
    ensures Flat(Applied(h, Replace(s)))
  {
    var next := Applied(h, Replace(s));
    ReadBack(s);
    forall k | 0 <= k < |next.entries|
      ensures NotStacked(next.entries, k)
    {
      assert NotStacked(h.entries, k);
    }
  }

  /** Discovery is entered from the Discovery view while the current entry cannot be read. */
  predicate Stacks(current: Entry, a: Action) {
    a.EnterDiscovery? && a.view == Discovery && ReadState(current).None? && Usable(a.projectId)
  }

  /** The entry rewritten for the view being left and the entry pushed above it are both Discovery entries. */
  lemma StackingAction(h: History, a: Action)
    requires h.Valid() && Stacks(h.Current(), a)
    ensures !Flat(Acted(h, a))
  {
    var ops := Planned(h.Current(), a);
    TwoOps(h, ops[0], ops[1]);
    ReadBack(ops[0].state);
    ReadBack(ops[1].state);
    assert !NotStacked(Acted(h, a).entries, h.at + 1);
  }

  lemma OneOpIsFlat(h: History, op: Op)
    requires Flat(h)
    requires op.state.view == Discovery ==> op.Replace? == IsDiscoveryFor(ReadState(h.Current()), op.state.projectId)
    ensures Flat(Applied(h, op))
  {
    if op.Replace? {
      ReplaceIsFlat(h, op.state);
    } else {
      PushIsFlat(h, op.state);
    }
  }

  lemma OtherActionIsFlat(h: History, a: Action)
    requires Flat(h) && !Stacks(h.Current(), a)
    ensures Flat(Acted(h, a))
  {
    var current := h.Current();
    if !a.Go? && Planned(current, a) != [] {
      var ops := Planned(current, a);
      TwoOps(h, ops[0], ops[|ops| - 1]);
      assert ops == if |ops| == 1 then [ops[0]] else [ops[0], ops[1]];
      if a.EnterDiscovery? && a.view == Discovery && |ops| == 2 {
        UnusableLeavesFlat(h, a.projectId, ops[0].state, ops[1].state);
      } else {
        OneOpIsFlat(h, ops[0]);
        if |ops| == 2 {
          ReadBack(ops[0].state);
          OneOpIsFlat(Applied(h, ops[0]), ops[1]);
        }
      }
    }
  }

  /** Entries of an unusable project cannot be read back, so they stack nothing. */
  lemma UnusableLeavesFlat(h: History, projectId: string, below: AppState, above: AppState)
    requires Flat(h) && !Usable(projectId) && ReadState(h.Current()).None?
    requires below.projectId == above.projectId == projectId
    ensures Flat(Applied(Applied(h, Replace(below)), Push(above)))
  {
    ReadBack(below);
    ReadBack(above);
    var next := Applied(Applied(h, Replace(below)), Push(above));
    forall k | 0 <= k < |next.entries|
      ensures NotStacked(next.entries, k)
    {
      if k <= h.at {
        assert NotStacked(h.entries, k);
      }
    }
  }

  /**
   An action stacks two Discovery entries exactly when it enters Discovery from its own view on an unreadable entry.
   */
  lemma ActionIsFlatIff(h: History, a: Action)
    requires Flat(h)
    ensures Flat(Acted(h, a)) <==> !Stacks(h.Current(), a)
  {
    if Stacks(h.Current(), a) {
      StackingAction(h, a);
    } else {
      OtherActionIsFlat(h, a);
    }
  }

  /** The page never enters Discovery from the Discovery view (app/page.tsx). */
  predicate Clickable(a: Action) {
    a.EnterDiscovery? ==> a.view != Discovery
  }

  lemma EveryActionIsFlat(h: History, a: Action)
    requires Flat(h) && Clickable(a)
    ensures Flat(Acted(h, a))
  {
    ActionIsFlatIff(h, a);
  }

  /** From entries that hold no stacked Discovery entries, no run of the app ever stacks two. */
  lemma {:induction false} DiscoveryNeverPilesUp(start: History, actions: seq<Action>, n: nat)
    requires Flat(start) && n <= |actions| && forall i | 0 <= i < |actions| :: Clickable(actions[i])
    ensures Flat(After(start, actions, n))
    decreases n
  {
    if n > 0 {
      DiscoveryNeverPilesUp(start, actions, n - 1);
      EveryActionIsFlat(After(start, actions, n - 1), actions[n - 1]);
    }
  }

  /** The guard of the page is needed: entering Discovery from the Discovery view on an unreadable entry stacks two. */
  lemma EnteringFromDiscoveryStacks(projectId: string)
    requires Usable(projectId)
    ensures !Flat(Acted(History([NotAnObject], 0), EnterDiscovery(Discovery, projectId, None, None)))
  {
    StackingAction(History([NotAnObject], 0), EnterDiscovery(Discovery, projectId, None, None));
  }
}
