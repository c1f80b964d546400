// The run protocol of DiscoveryService.find_prospects (services.ts): metering, finishing and refunding a run when any
// stage may fail, around the deep search loop and the secondary expansion.
module DiscoveryService {
  import opened Text
  import StableOrder
  import S = SearchUntilNew
  import E = SecondarySources
  import X = SecondaryExpansion

  type Candidate = E.Candidate

  /** What the provider says of its latest search. */
  datatype Report = Report(sent: nat, failed: nat, answered: Option<nat>)

  /** The source delivered nothing: no request sent, or none answered; an explicit count of answers wins. */
  predicate NothingAnswered(report: Option<Report>) {
    if report.None? || report.value.sent == 0 then true
    else if report.value.answered.Some? then report.value.answered.value == 0
    else report.value.failed >= report.value.sent
  }

  /** When a run is not billed: the source was not asked, or says it answered nothing, or every request failed. */
  lemma NothingAnsweredIff(report: Option<Report>)
    ensures NothingAnswered(report)
       <==> || report.None? || report.value.sent == 0 || report.value.answered == Some(0)
            || (report.value.answered.None? && report.value.sent <= report.value.failed)
  {
  }

  /** What a run does to the outside, in order. A finish may be attempted without being recorded. */
  datatype Effect =
    | Started
    | Requested
    | Metered(count: nat)
    | Saved
    | Finished(completed: bool, recorded: bool)
    | Released

  datatype Outcome = NotStarted | Completed | Raised

  // ---------------------------------------------------------------- the shape of a run

  /** How a started run ends. */
  datatype Ending = Success | Failure(saved: bool, finishRefused: bool, recorded: bool)

  function Times(n: nat): seq<Effect> {
    seq(n, i => Requested)
  }

  function MeterOf(hasMeter: bool, n: nat): seq<Effect> {
    if hasMeter && n >= 1 then [Metered(n)] else []
  }

  function EndOf(canRelease: bool, report: Option<Report>, end: Ending): seq<Effect> {
    match end
    case Success => [Saved, Finished(true, true)]
    case Failure(saved, refused, recorded) => BeforeFailure(saved, refused) + CatchOf(canRelease, report, recorded)
  }

  /** What a run that fails may have done after its search. */
  function BeforeFailure(saved: bool, refused: bool): seq<Effect> {
    (if saved then [Saved] else []) + (if refused then [Finished(true, false)] else [])
  }

  /** The catch block: the failed finish, then the refund when it was recorded and the source answered nothing. */
  function CatchOf(canRelease: bool, report: Option<Report>, recorded: bool): seq<Effect> {
    [Finished(false, recorded)] + if recorded && canRelease && NothingAnswered(report) then [Released] else []
  }

  /** A started run that sent `n` requests, up to their metering. */
  function HeadOf(hasMeter: bool, n: nat): seq<Effect> {
    [Started] + Times(n) + MeterOf(hasMeter, n)
  }

  /** The whole trace of a run that sent `n` requests. */
  function RunTrace(hasMeter: bool, canRelease: bool, n: nat, report: Option<Report>, end: Ending): seq<Effect> {
    HeadOf(hasMeter, n) + EndOf(canRelease, report, end)
  }

  function RequestsIn(trace: seq<Effect>, n: nat): nat
    requires n <= |trace|
  {
    if n == 0 then 0 else RequestsIn(trace, n - 1) + if trace[n - 1] == Requested then 1 else 0
  }

  /** A run is metered at most once, with the number of requests it sent, after the last of them. */
  ghost predicate MeteredRight(hasMeter: bool, trace: seq<Effect>) {
    && (forall i | 0 <= i < |trace| && trace[i].Metered? ::
          trace[i].count == RequestsIn(trace, |trace|) == RequestsIn(trace, i) >= 1 && hasMeter)
    && (forall i, j | 0 <= i < |trace| && 0 <= j < |trace| && trace[i].Metered? && trace[j].Metered? :: i == j)
    && (hasMeter && RequestsIn(trace, |trace|) >= 1 ==> exists i | 0 <= i < |trace| :: trace[i].Metered?)
  }

  /**
   A refund is the last effect of a run, right after the recorded failure; there is one exactly when a failure was
   recorded, the store can refund and the source answered nothing.
   */
  ghost predicate RefundedRight(canRelease: bool, report: Option<Report>, trace: seq<Effect>) {
    && (forall i | 0 <= i < |trace| && trace[i] == Released ::
        i == |trace| - 1 && i > 0 && trace[i - 1] == Finished(false, true))
    && (Released in trace <==> Finished(false, true) in trace && canRelease && NothingAnswered(report))
  }

  /** Nothing follows a recorded completion; a failed finish comes last but for the refund. */
  ghost predicate FinishedRight(trace: seq<Effect>) {
    && (forall i | 0 <= i < |trace| && trace[i] == Finished(true, true) :: i == |trace| - 1)
    && (forall i, j | 0 <= i < j < |trace| && trace[i] == Finished(true, true) :: !trace[j].Finished?)
    && (forall i, j | 0 <= i < j < |trace| && trace[i].Finished? && !trace[i].completed :: trace[j] == Released)
  }

  lemma {:induction false} OnlyRequestsCount(trace: seq<Effect>, from: nat, n: nat)
    requires from <= n <= |trace| && forall i | from <= i < n :: trace[i] != Requested
    ensures RequestsIn(trace, n) == RequestsIn(trace, from)
    decreases n
  {
    if from < n {
      OnlyRequestsCount(trace, from, n - 1);
    }
  }

  lemma {:induction false} AllRequestsCount(trace: seq<Effect>, from: nat, n: nat)
    requires from <= n <= |trace| && forall i | from <= i < n :: trace[i] == Requested
    ensures RequestsIn(trace, n) == RequestsIn(trace, from) + n - from
    decreases n
  {
    if from < n {
      AllRequestsCount(trace, from, n - 1);
    }
  }

  /** The head holds the requests and their one metering, and neither a finish nor a refund. */
  lemma HeadLaws(hasMeter: bool, n: nat)
    ensures var head := HeadOf(hasMeter, n);
            && RequestsIn(head, |head|) == n && MeteredRight(hasMeter, head)
            && forall i | 0 <= i < |head| :: !head[i].Finished? && head[i] != Released
  {
    var head := HeadOf(hasMeter, n);
    assert forall i | 1 <= i < n + 1 :: head[i] == Requested;
    assert RequestsIn(head, 1) == RequestsIn(head, 0);
    AllRequestsCount(head, 1, n + 1);
    OnlyRequestsCount(head, n + 1, |head|);
    if hasMeter && n >= 1 {
      assert head[n + 1] == Metered(n);
    }
  }

  lemma EndLaws(canRelease: bool, report: Option<Report>, end: Ending)
    ensures var e := EndOf(canRelease, report, end);
            RefundedRight(canRelease, report, e) && FinishedRight(e) && forall i | 0 <= i < |e| ::
                e[i] != Requested && !e[i].Metered?
  {
    if end.Failure? {
      var e := EndOf(canRelease, report, end);
      var k := (if end.saved then 1 else 0) + if end.finishRefused then 1 else 0;
      assert e[k] == Finished(false, end.recorded) && k + 1 <= |e| <= k + 2;
      assert forall i | 0 <= i < k :: e[i] == Saved || e[i] == Finished(true, false);
      assert |e| == k + 2 ==> e[k + 1] == Released;
    }
  }

  lemma {:induction false} RequestsInPrefix(a: seq<Effect>, b: seq<Effect>, n: nat)
    requires n <= |a|
    ensures RequestsIn(a + b, n) == RequestsIn(a, n)
    decreases n
  {
    if n > 0 {
      RequestsInPrefix(a, b, n - 1);
    }
  }

  /** Effects that are neither requests nor meterings do not disturb the metering before them. */
  lemma MeteredBefore(hasMeter: bool, head: seq<Effect>, e: seq<Effect>)
    requires MeteredRight(hasMeter, head) && forall i | 0 <= i < |e| :: e[i] != Requested && !e[i].Metered?
    ensures MeteredRight(hasMeter, head + e)
  {
    var trace := head + e;
    OnlyRequestsCount(trace, |head|, |trace|);
    RequestsInPrefix(head, e, |head|);
    forall i | 0 <= i < |trace| && trace[i].Metered?
      ensures i < |head| && RequestsIn(trace, i) == RequestsIn(head, i)
    {
      RequestsInPrefix(head, e, i);
    }
    if hasMeter && RequestsIn(trace, |trace|) >= 1 {
      var i :| 0 <= i < |head| && head[i].Metered?;
      assert trace[i].Metered?;
    }
  }

  /** A head without finish or refund does not disturb those after it. */
  lemma EndedAfter(canRelease: bool, report: Option<Report>, head: seq<Effect>, e: seq<Effect>)
    requires RefundedRight(canRelease, report, e) && FinishedRight(e)
    requires forall i | 0 <= i < |head| :: !head[i].Finished? && head[i] != Released
    ensures RefundedRight(canRelease, report, head + e) && FinishedRight(head + e)
  {
    var trace, m := head + e, |head|;
    assert forall i | m <= i < |trace| :: trace[i] == e[i - m];
    assert forall i | 0 <= i < m :: trace[i] == head[i];
  }

  /** Every run, however it ends, is metered, refunded and finished right. */
  lemma RunsAreAccountedFor(hasMeter: bool, canRelease: bool, n: nat, report: Option<Report>, end: Ending)
    ensures var trace := RunTrace(hasMeter, canRelease, n, report, end);
            MeteredRight(hasMeter, trace) && RefundedRight(canRelease, report, trace) && FinishedRight(trace)
  {
    HeadLaws(hasMeter, n);
    EndLaws(canRelease, report, end);
    MeteredBefore(hasMeter, HeadOf(hasMeter, n), EndOf(canRelease, report, end));
    EndedAfter(canRelease, report, HeadOf(hasMeter, n), EndOf(canRelease, report, end));
  }

  // ---------------------------------------------------------------- the run itself

  /**
   A run's request and the world it meets. `world` answers the deep search; a plain search sends `plainRequests`
   requests; `merge` and `rank` are the in-run merging and the classification of its rows.
   */
  datatype Input = Input(
    lex: Lexicon, read: E.Reading, known: seq<string>, maxResults: nat,
    searchNew: bool, canSearchVariant: bool, hasMemory: bool,
    world: S.World<Candidate>, variants: seq<S.Variant>, desired: int, maxProviderCalls: Option<int>,
    plainRequests: nat, plainAnswer: seq<Option<Candidate>>,
    merge: seq<Candidate> -> seq<Candidate>, rank: Candidate -> nat,
    elapsed: int, secondaryAnswer: Option<seq<Option<Candidate>>>)

  predicate IsDeep(input: Input) {
    input.searchNew && input.canSearchVariant && input.hasMemory
  }

  /** The names the set-aside sources among `all` cite and that are worth one request. */
  function WorthResolving(input: Input, all: seq<Candidate>): seq<E.Name> {
    NamesIn(input, input.merge(all))
  }

  /** The deep search's world: its last call is reserved when the sources cite companies worth resolving. */
  function WorldOf(input: Input): S.World<Candidate> {
    input.world.(reserve := Some((all: seq<Candidate>) => |WorthResolving(input, all)| > 0))
  }

  /**
   The deep search runs in the world it was given, and leaves its last call exactly when a row it found cites a company
   that is neither known to the project nor an exploitable row of the run.
   */
  lemma LastCallIsForCitedCompanies(input: Input, all: seq<Candidate>)
    ensures WorldOf(input).runPass == input.world.runPass && WorldOf(input).countNew == input.world.countNew
        && WorldOf(input).elapsed == input.world.elapsed
    ensures WorldOf(input).reserve.Some?
    ensures WorldOf(input).reserve.value(all)
       <==> exists n: E.Name :: && E.IsCitedBySome(input.read, input.merge(all), n)
                                && !E.IsKnown(input.lex, input.merge(all), input.known, n)
  {
    var pool := input.merge(all);
    var cited := E.AllCited(input.read, pool, |pool|);
    var p := E.Pick(input.lex, input.known + E.RunNames(pool, |pool|), cited, |cited|);
    var plan := E.SecondaryPlan(0, |cited|, p.names, p.skippedKnown);
    E.PickPlansWell(input.lex, input.read, pool, input.known, plan);
    if plan.names != [] {
      assert plan.names[0] in plan.names;
    } else {
      forall n: E.Name | E.IsCitedBySome(input.read, pool, n)
        ensures E.IsKnown(input.lex, pool, input.known, n)
      {
        assert !E.Repeats(input.lex, plan.names, n);
      }
    }
  }

  /** New exploitable rows, then the other exploitable ones, then the rows set aside, within the limit. */
  function Shortlisted(input: Input, merged: seq<Candidate>): (rows: seq<Candidate>)
    requires forall c: Candidate :: input.rank(c) < 3
    ensures |rows| <= input.maxResults
  {
    var ranks := StableOrder.Ranks(merged, input.rank);
    StableOrder.GroupsAreTheStableSort(ranks);
    StableOrder.At(merged, StableOrder.Selected(ranks, input.maxResults))
  }

  /** The shortlist before the expansion, after `primary` requests of the deep search or the plain search. */
  ghost function PrimaryRows(input: Input, primary: nat): (rows: seq<Candidate>)
    requires forall c: Candidate :: input.rank(c) < 3
    ensures |rows| <= input.maxResults
  {
    X.ValuesAreFew(input.plainAnswer, Min(|input.plainAnswer|, input.maxResults));
    if IsDeep(input) then Shortlisted(input, input.merge(S.Gathered(WorldOf(input), primary)))
    else X.Normalized(input.plainAnswer, input.maxResults)
  }

  /** Row `i` of a list comes before row `j`: by rank, then by place. */
  predicate RanksBefore(input: Input, rows: seq<Candidate>, i: nat, j: nat)
    requires i < |rows| && j < |rows|
  {
    input.rank(rows[i]) < input.rank(rows[j]) || (input.rank(rows[i]) == input.rank(rows[j]) && i < j)
  }

  /** The shortlist is full or has every row; it is in order of rank, and no row left out comes before a row it has. */
  lemma ShortlistIsTheBest(input: Input, merged: seq<Candidate>) returns (at: seq<nat>)
    requires forall c: Candidate :: input.rank(c) < 3
    ensures StableOrder.Within(at, |merged|) && Shortlisted(input, merged) == StableOrder.At(merged, at)
    ensures |Shortlisted(input, merged)| == Min(|merged|, input.maxResults)
    ensures forall a, b | 0 <= a < b < |at| :: RanksBefore(input, merged, at[a], at[b])
    ensures forall a, j: nat | 0 <= a < |at| && j < |merged| && j !in at :: RanksBefore(input, merged, at[a], j)
  {
    var ranks := StableOrder.Ranks(merged, input.rank);
    StableOrder.GroupsAreTheStableSort(ranks);
    at := StableOrder.Selected(ranks, input.maxResults);
    forall a, j: nat | 0 <= a < |at| && j < |merged| && j !in at
      ensures RanksBefore(input, merged, at[a], j)
    {
      assert at[a] in at;
      StableOrder.NothingBetterIsLeftOut(ranks, input.maxResults, at[a], j);
    }
    var all := StableOrder.Order(ranks, |ranks|);
    forall a, b | 0 <= a < b < |at|
      ensures RanksBefore(input, merged, at[a], at[b])
    {
      assert at[a] == all[a] && at[b] == all[b];
      assert StableOrder.Before(ranks, all[a], all[b]);
    }
  }

  /** The rows whose citations the expansion reads: everything the deep search found, or the rows of the plain one. */
  ghost function Pool(input: Input, primary: nat): seq<Candidate>
    requires forall c: Candidate :: input.rank(c) < 3
  {
    if IsDeep(input) then input.merge(S.Gathered(WorldOf(input), primary)) else PrimaryRows(input, primary)
  }

  /** The names worth resolving in a pool of rows. */
  function NamesIn(input: Input, pool: seq<Candidate>): seq<E.Name> {
    var cited := E.AllCited(input.read, pool, |pool|);
    E.Pick(input.lex, input.known + E.RunNames(pool, |pool|), cited, |cited|).names
  }

  /**
   The list after a run that sent one more request than the search itself is the expansion of the search's list by the
   companies that request found; otherwise it is that list.
   */
  ghost predicate Enlarged(input: Input, pool: seq<Candidate>, before: seq<Candidate>, requests: nat,
                           after: seq<Candidate>)
  {
    if requests == 0 || input.secondaryAnswer.None? then after == before
    else
      var found, names := X.Normalized(input.secondaryAnswer.value, input.maxResults), NamesIn(input, pool);
      exists added: nat ::
        X.ExpandedWell(input.read, before, after, added,
                       E.Resolve(input.lex, input.read, found, names, |found|).resolved, names, input.maxResults)
  }

  lemma EnlargedBy(input: Input, pool: seq<Candidate>, before: seq<Candidate>, after: seq<Candidate>, added: nat,
                   resolved: seq<Candidate>, names: seq<E.Name>)
    requires input.secondaryAnswer.Some? && names == NamesIn(input, pool)
    requires var found := X.Normalized(input.secondaryAnswer.value, input.maxResults);
             resolved == E.Resolve(input.lex, input.read, found, names, |found|).resolved
    requires X.ExpandedWell(input.read, before, after, added, resolved, names, input.maxResults)
    ensures Enlarged(input, pool, before, 1, after)
  {
  }

  /** Every exploitable row of the first list is in the second one, in order. */
  ghost predicate KeepsExploitable(before: seq<Candidate>, after: seq<Candidate>) {
    X.Others(before, X.IsSetAside) <= X.Others(after, X.IsSetAside)
  }

  class Run {
    const input: Input
    const hasMeter: bool
    const canRelease: bool
    var lastSearch: Option<Report>
    var trace: seq<Effect>
    var metered: bool
    var rows: seq<Candidate>

    constructor (input: Input, hasMeter: bool, canRelease: bool)
      ensures this.input == input && this.hasMeter == hasMeter && this.canRelease == canRelease
      ensures lastSearch == None && trace == [] && !metered && rows == []
    {
      this.input, this.hasMeter, this.canRelease := input, hasMeter, canRelease;
      lastSearch, trace, metered, rows := None, [], false, [];
    }

    /** The report is accurate: it counts the requests sent, or none was sent. */
    predicate Reported(n: nat)
      reads this
    {
      if lastSearch.Some? then lastSearch.value.sent == n else n == 0
    }

    /** Requests leave, and the provider's report counts them; how many failed or were answered is up to the source. */
    method Send(k: nat, ghost n: nat)
      requires Reported(n) && trace == [Started] + Times(n)
      modifies this`lastSearch, this`trace
      ensures Reported(n + k) && trace == [Started] + Times(n + k)
    {
      var failed: nat, answered: Option<nat>, silent: bool := *, *, *;
      if k > 0 || !silent {
        lastSearch := Some(Report((if lastSearch.Some? then lastSearch.value.sent else 0) + k, failed, answered));
      }
      trace := trace + Times(k);
      assert Times(n) + Times(k) == Times(n + k);
    }

    /** `meterSearch`: once per run, never for nothing; the ledger's own failure is swallowed. */
    method MeterSearch(ghost n: nat)
      requires Reported(n)
      modifies this`trace, this`metered
      ensures if !old(metered) && hasMeter && n >= 1 then metered && trace == old(trace) + [Metered(n)]
              else metered == old(metered) && trace == old(trace)
    {
      var sent := if lastSearch.Some? then lastSearch.value.sent else 0;
      if metered || !hasMeter || sent < 1 {
        return;
      }
      metered := true;
      trace := trace + [Metered(sent)];
    }

    /** The search step: the deep loop, or one plain search; then the secondary expansion. It may fail at any moment. */
    method Search() returns (ok: bool, ghost n: nat, ghost primary: nat, ghost reserved: bool)
      requires forall c: Candidate :: input.rank(c) < 3
      requires Reported(0) && trace == [Started] && !metered
      modifies this`lastSearch, this`trace, this`rows
      ensures Reported(n) && trace == [Started] + Times(n)
      ensures IsDeep(input) ==> n <= S.MAX_PROVIDER_CALLS
      ensures !IsDeep(input) ==> n <= Max(input.plainRequests, S.MAX_PROVIDER_CALLS)
      ensures ok ==>
          |rows| <= input.maxResults && primary <= n <= primary + 1
          && KeepsExploitable(PrimaryRows(input, primary), rows)
      ensures ok ==> Enlarged(input, Pool(input, primary), PrimaryRows(input, primary), n - primary, rows)
      ensures ok && reserved && input.elapsed + S.PASS_TIMEOUT_MS <= S.TIME_BUDGET_MS ==> IsDeep(input) && n == 3
    {
      n, primary, reserved := 0, 0, false;
      assert Times(0) == [];
      var broken: bool := *;
      if broken {
        return false, n, primary, reserved;
      }
      var pool: seq<Candidate>;
      if IsDeep(input) {
        ok, pool, n, reserved := SearchDeep();
      } else {
        ok, pool, n := SearchPlain();
      }
      if !ok {
        return false, n, primary, reserved;
      }
      var interrupted: bool := *;
      if interrupted {
        return false, n, primary, reserved;
      }
      primary := n;
      var secondary := Expand(pool, n);
      n := n + secondary;
      var late: bool := *;
      ok := !late;
    }

    /**
     The deep search: one request per pass, its rows shortlisted, and its last call possibly left for the
     expansion.
     */
    method SearchDeep() returns (ok: bool, pool: seq<Candidate>, ghost n: nat, ghost reserved: bool)
      requires forall c: Candidate :: input.rank(c) < 3
      requires Reported(0) && trace == [Started] + Times(0) && IsDeep(input)
      modifies this`lastSearch, this`trace, this`rows
      ensures Reported(n) && trace == [Started] + Times(n) && n <= S.MAX_PROVIDER_CALLS
      ensures ok ==> rows == PrimaryRows(input, n) && pool == input.merge(S.Gathered(WorldOf(input), n))
      ensures reserved ==> n == 2 && NamesIn(input, pool) != []
    {
      var deep := S.SearchUntilNewTarget(WorldOf(input), input.variants, input.desired, input.maxProviderCalls);
      var calls := if deep.Raised? then 1 else deep.providerCalls;
      pool, n, reserved := [], calls, false;
      if deep.Found? {
        S.CallsWithinCap(WorldOf(input), input.variants, input.desired, input.maxProviderCalls, calls);
      }
      var interrupted: bool, made: nat := *, *;
      if interrupted && made <= calls {
        // Counting the new actors, or deciding on the last call, threw after `made` passes.
        Send(made, 0);
        return false, pool, made, false;
      }
      if deep.Found? {
        pool := input.merge(deep.candidates);
        rows := Shortlisted(input, pool);
        reserved := deep.lastCallReserved;
        if reserved {
          S.ReservedMeansTwoCalls(WorldOf(input), input.variants, input.desired, input.maxProviderCalls, calls,
                                  deep.stop);
          assert WorldOf(input).reserve.value(deep.candidates);
        }
      }
      Send(calls, 0);
      ok := deep.Found?;
    }

    /** The plain search: one provider search, which may throw after sending its requests. */
    method SearchPlain() returns (ok: bool, pool: seq<Candidate>, ghost n: nat)
      requires forall c: Candidate :: input.rank(c) < 3
      requires Reported(0) && trace == [Started] + Times(0) && !IsDeep(input)
      modifies this`lastSearch, this`trace, this`rows
      ensures n == input.plainRequests && Reported(n) && trace == [Started] + Times(n)
      ensures ok ==> rows == PrimaryRows(input, n) && pool == rows
    {
      var throws: bool := *;
      Send(input.plainRequests, 0);
      n := input.plainRequests;
      rows := X.Normalized(input.plainAnswer, input.maxResults);
      ok, pool := !throws, rows;
    }

    /** The rows of the run are enlarged in place, unless the expansion has no call or no time left. */
    method EnlargeRows(pool: seq<Candidate>, sent: nat) returns (requests: nat)
      requires |rows| <= input.maxResults
      modifies this`rows
      ensures requests <= 1 && requests + sent <= Max(sent, S.MAX_PROVIDER_CALLS)
      ensures |rows| <= input.maxResults && KeepsExploitable(old(rows), rows)
      ensures Enlarged(input, pool, old(rows), requests, rows)
      ensures requests == 1 <==> && NamesIn(input, pool) != [] && input.canSearchVariant && sent < S.MAX_PROVIDER_CALLS
                                 && input.elapsed + S.PASS_TIMEOUT_MS <= S.TIME_BUDGET_MS
    {
      var plan := E.PlanSecondaryExpansion(input.lex, input.read, pool, input.known);
      var list := new X.Shortlist(rows);
      var m := list.ExpandSecondary(input.lex, input.read, plan, input.canSearchVariant, sent, input.elapsed,
                                    input.secondaryAnswer, input.maxResults);
      requests := m.requests;
      if requests == 1 && input.secondaryAnswer.Some? {
        ghost var found := X.Normalized(input.secondaryAnswer.value, input.maxResults);
        ghost var resolved := E.Resolve(input.lex, input.read, found, plan.names, |found|).resolved;
        EnlargedBy(input, pool, rows, list.rows, m.candidates, resolved, plan.names);
      }
      rows := list.rows;
    }

    /** The secondary expansion of the rows, planned from the whole pool: at most one more request. */
    method Expand(pool: seq<Candidate>, ghost n: nat) returns (requests: nat)
      requires Reported(n) && trace == [Started] + Times(n) && |rows| <= input.maxResults
      modifies this`lastSearch, this`trace, this`rows
      ensures Reported(n + requests) && trace == [Started] + Times(n + requests)
      ensures requests <= 1 && n + requests <= Max(n, S.MAX_PROVIDER_CALLS)
      ensures |rows| <= input.maxResults && KeepsExploitable(old(rows), rows)
      ensures Enlarged(input, pool, old(rows), requests, rows)
      ensures requests == 1 <==> && NamesIn(input, pool) != [] && input.canSearchVariant && n < S.MAX_PROVIDER_CALLS
                                 && input.elapsed + S.PASS_TIMEOUT_MS <= S.TIME_BUDGET_MS
    {
      var sent := if lastSearch.Some? then lastSearch.value.sent else 0;
      requests := EnlargeRows(pool, sent);
      Send(requests, n);
    }

    /** `find_prospects`: whatever fails, and whenever, a started run is accounted for. */
    method FindProspects()
        returns (r: Outcome, ghost n: nat, ghost primary: nat, ghost end: Ending, ghost reserved: bool)
      requires forall c: Candidate :: input.rank(c) < 3
      requires trace == [] && !metered && lastSearch == None
      modifies this
      ensures r == NotStarted ==> trace == []
      ensures r != NotStarted ==> Reported(n) && trace == RunTrace(hasMeter, canRelease, n, lastSearch, end)
      ensures r != NotStarted ==>
          MeteredRight(hasMeter, trace) && RefundedRight(canRelease, lastSearch, trace) && FinishedRight(trace)
      ensures r == Completed ==> end.Success? && |rows| <= input.maxResults
      ensures r == Completed ==> primary <= n <= primary + 1 && KeepsExploitable(PrimaryRows(input, primary), rows)
      ensures r == Completed ==>
          Enlarged(input, Pool(input, primary), PrimaryRows(input, primary), n - primary, rows)
      ensures r == Completed && reserved && input.elapsed + S.PASS_TIMEOUT_MS <= S.TIME_BUDGET_MS ==>
          n == S.MAX_PROVIDER_CALLS
      ensures r == Raised ==> end.Failure?
      ensures n <= if IsDeep(input) then S.MAX_PROVIDER_CALLS else Max(input.plainRequests, S.MAX_PROVIDER_CALLS)
    {
      n, primary, end, reserved := 0, 0, Success, false;
      var starts: bool := *;
      if !starts {
        return NotStarted, n, primary, end, reserved;
      }
      trace := [Started];
      var ok;
      ok, n, primary, reserved := Search();
      ok, end := Conclude(ok, n);
      RunsAreAccountedFor(hasMeter, canRelease, n, lastSearch, end);
      r := if ok then Completed else Raised;
    }

    /** What follows the search: metering, saving and finishing, or the catch block. */
    method Conclude(found: bool, ghost n: nat) returns (ok: bool, ghost end: Ending)
      requires Reported(n) && trace == [Started] + Times(n) && !metered
      modifies this`trace, this`metered
      ensures trace == RunTrace(hasMeter, canRelease, n, lastSearch, end)
      ensures ok <==> end.Success?
      ensures ok ==> found
    {
      ghost var saved, refused := false, false;
      ok, end := found, Success;
      if ok {
        MeterSearch(n);
        ok, saved, refused := SaveAndFinish(n);
      }
      if !ok {
        MeterSearch(n);
        assert HeadOf(hasMeter, n) + BeforeFailure(false, false) == HeadOf(hasMeter, n);
        end := Fail(n, saved, refused);
      }
    }

    /** The end of the try block: any step may throw, and the finish may be refused. */
    method SaveAndFinish(ghost n: nat) returns (ok: bool, ghost saved: bool, ghost refused: bool)
      requires trace == HeadOf(hasMeter, n)
      modifies this`trace
      ensures trace == if ok then RunTrace(hasMeter, canRelease, n, lastSearch, Success)
                       else HeadOf(hasMeter, n) + BeforeFailure(saved, refused)
    {
      saved, refused := false, false;
      var saves: bool, reports: bool, records: bool := *, *, *;
      if !saves {
        return false, saved, refused;
      }
      trace, saved := trace + [Saved], true;
      if !reports {
        return false, saved, refused;
      }
      trace, refused := trace + [Finished(true, records)], !records;
      ok := records;
    }

    /** The catch block after its metering: the failed finish, then the refund when the source answered nothing. */
    method Fail(ghost n: nat, ghost saved: bool, ghost refused: bool) returns (ghost end: Ending)
      requires trace == HeadOf(hasMeter, n) + BeforeFailure(saved, refused)
      modifies this`trace
      ensures end.Failure? && trace == RunTrace(hasMeter, canRelease, n, lastSearch, end)
    {
      var records: bool := *;
      ghost var head, before := HeadOf(hasMeter, n), BeforeFailure(saved, refused);
      var last := [Finished(false, records)];
      if records && canRelease && NothingAnswered(lastSearch) {
        last := last + [Released];
      }
      trace := trace + last;
      end := Failure(saved, refused, records);
      assert last == CatchOf(canRelease, lastSearch, records);
      assert head + before + last == head + (before + last);
    }
  }
}
