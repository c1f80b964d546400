// The bounded search loop of search-until-new.ts. The provider, the counting of new actors, the clock and the
// decision to reserve the last call answer anything; the loop's budget and its stop reason are exact.
module SearchUntilNew {
  import opened Text

  const MAX_PROVIDER_CALLS := 3
  const PASS_TIMEOUT_MS := 12000
  const TIME_BUDGET_MS := 40000

  datatype Kind = Plan | Signal | Category
  datatype Variant = Variant(query: string, kind: Kind)

  datatype StopReason = TargetReached | MaxProviderCalls | NoMoreVariants | NoNewResults | ProviderError | TimeBudget

  datatype Pass = Pass(kind: Kind, results: nat, newAfter: int, failed: bool)

  datatype Outcome<C> =
    | Raised                                       // the first pass failed: the whole search fails
    | Found(candidates: seq<C>, passes: seq<Pass>, providerCalls: nat, stop: StopReason, newFound: int,
            lastCallReserved: bool)

  /** The world the loop runs in, numbered by pass: answers of the provider, and readings of the clock before a pass. */
  datatype World<!C> = World(
    runPass: nat -> Option<seq<C>>,                // None: the request failed
    countNew: seq<C> -> int,
    elapsed: nat -> int,                           // milliseconds since the start, read before pass k
    reserve: Option<seq<C> -> bool>)

  function Cap(maxProviderCalls: Option<int>): int {
    Min(MAX_PROVIDER_CALLS, Max(1, if maxProviderCalls.Some? then maxProviderCalls.value else MAX_PROVIDER_CALLS))
  }

  function DesiredNewResults(requested: Option<int>, maxResults: int): (n: int)
    ensures maxResults >= 1 ==> 1 <= n <= maxResults
    ensures requested.None? && maxResults >= 1 ==> n == maxResults
    ensures requested.Some? && 1 <= requested.value <= maxResults ==> n == requested.value
  {
    Min(maxResults, Max(1, if requested.Some? then requested.value else maxResults))
  }

  predicate SignalIn(variants: seq<Variant>, from: nat) {
    exists i | from <= i < |variants| :: variants[i].kind == Signal
  }

  // ---------------------------------------------------------------- what the passes gathered

  /** Everything the first `n` passes brought, in order; a failed pass brings nothing. */
  ghost function Gathered<C>(w: World<C>, n: nat): seq<C> {
    if n == 0 then [] else Gathered(w, n - 1) + if w.runPass(n - 1).Some? then w.runPass(n - 1).value else []
  }

  /** New actors known after `n` successful passes. */
  ghost function NewAfter<C>(w: World<C>, n: nat): int {
    if n == 0 then 0 else w.countNew(Gathered(w, n))
  }

  /** The report of pass `k`. */
  ghost function Report<C>(w: World<C>, variants: seq<Variant>, k: nat): Pass
    requires k < |variants|
  {
    if w.runPass(k).Some? then Pass(variants[k].kind, |w.runPass(k).value|, NewAfter(w, k + 1), false)
    else Pass(variants[k].kind, 0, NewAfter(w, k), true)
  }

  // The four things a pass can decide on its own.
  ghost predicate Fails<C>(w: World<C>, k: nat) {
    w.runPass(k).None?
  }

  ghost predicate Reaches<C>(w: World<C>, desired: int, k: nat) {
    w.runPass(k).Some? && NewAfter(w, k + 1) >= desired
  }

  /** A complementary pass that brought no new actor, with no signal variant left to try. */
  ghost predicate Stalls<C>(w: World<C>, variants: seq<Variant>, desired: int, k: nat) {
    && w.runPass(k).Some? && NewAfter(w, k + 1) < desired
    && k > 0 && NewAfter(w, k + 1) <= NewAfter(w, k) && !SignalIn(variants, k + 1)
  }

  ghost predicate GoesOn<C>(w: World<C>, variants: seq<Variant>, desired: int, k: nat) {
    !Fails(w, k) && !Reaches(w, desired, k) && !Stalls(w, variants, desired, k)
  }

  predicate OutOfTime<C>(w: World<C>, k: nat) {
    k > 0 && w.elapsed(k) + PASS_TIMEOUT_MS > TIME_BUDGET_MS
  }

  /** The last call of the run is left for resolving the companies the sources cite. */
  ghost predicate Reserves<C>(w: World<C>, variants: seq<Variant>, cap: int, k: nat) {
    k >= 2 && k == cap - 1 && !SignalIn(variants, k) && w.reserve.Some? && w.reserve.value(Gathered(w, k))
  }

  /** Pass `k` is made only with a call left, with time left and when the last call is not reserved. */
  ghost predicate Admitted<C>(w: World<C>, variants: seq<Variant>, cap: int, k: nat) {
    k < |variants| && k < cap && !OutOfTime(w, k) && !Reserves(w, variants, cap, k)
  }

  /** The run makes exactly the passes 0 .. n-1: all admitted, and all but the last go on. */
  ghost predicate Makes<C>(w: World<C>, variants: seq<Variant>, desired: int, cap: int, n: nat) {
    && (forall k | 0 <= k < n :: Admitted(w, variants, cap, k))
    && (forall k | 0 <= k < n - 1 :: GoesOn(w, variants, desired, k))
    && ((n == 0 || GoesOn(w, variants, desired, n - 1)) ==> !Admitted(w, variants, cap, n))
  }

  /** The one stop reason of a run of `n` passes. */
  ghost predicate StopIs<C>(w: World<C>, variants: seq<Variant>, desired: int, cap: int, n: nat, stop: StopReason,
                            reserved: bool) {
    var wentOn := n == 0 || GoesOn(w, variants, desired, n - 1);
    && (stop == ProviderError <==> n > 0 && Fails(w, n - 1))
    && (stop == TargetReached <==> n > 0 && Reaches(w, desired, n - 1))
    && (stop == NoNewResults <==> n > 0 && Stalls(w, variants, desired, n - 1))
    && (stop == NoMoreVariants <==> wentOn && n == |variants| < cap)
    && (stop == TimeBudget <==> wentOn && n < |variants| && n < cap && OutOfTime(w, n))
    && (stop == MaxProviderCalls <==> wentOn && (n >= cap || reserved))
    && (reserved <==> wentOn && n < |variants| && n < cap && !OutOfTime(w, n) && Reserves(w, variants, cap, n))
  }

  /** All passes so far were admitted and went on. */
  ghost predicate StillGoing<C>(w: World<C>, variants: seq<Variant>, desired: int, cap: int, n: nat) {
    forall k | 0 <= k < n :: Admitted(w, variants, cap, k) && GoesOn(w, variants, desired, k)
  }

  /** The result that ends the loop before pass `n`, or after the last variant. */
  ghost function StopBefore<C>(w: World<C>, variants: seq<Variant>, cap: int, n: nat): StopReason {
    if n >= cap then MaxProviderCalls else if n == |variants| then NoMoreVariants
    else if OutOfTime(w, n) then TimeBudget else MaxProviderCalls
  }

  lemma EndedBefore<C>(w: World<C>, variants: seq<Variant>, desired: int, cap: int, n: nat)
    requires StillGoing(w, variants, desired, cap, n) && n <= |variants| && !Admitted(w, variants, cap, n)
    ensures Makes(w, variants, desired, cap, n)
    ensures StopIs(w, variants, desired, cap, n, StopBefore(w, variants, cap, n),
                   n < |variants| && n < cap && !OutOfTime(w, n))
  {
    assert n > 0 ==> GoesOn(w, variants, desired, n - 1);
  }

  lemma EndedBy<C>(w: World<C>, variants: seq<Variant>, desired: int, cap: int, n: nat, stop: StopReason)
    requires StillGoing(w, variants, desired, cap, n) && Admitted(w, variants, cap, n)
        && !GoesOn(w, variants, desired, n)
    requires stop == if Fails(w, n) then ProviderError else if Reaches(w, desired, n) then TargetReached
        else NoNewResults
    ensures Makes(w, variants, desired, cap, n + 1)
    ensures StopIs(w, variants, desired, cap, n + 1, stop, false)
  {
  }

  method SearchUntilNewTarget<C>(w: World<C>, variants: seq<Variant>, desired: int, maxProviderCalls: Option<int>)
    returns (r: Outcome<C>)
    ensures r.Raised? <==> |variants| > 0 && Fails(w, 0)
    ensures r.Found? ==>
              && Makes(w, variants, desired, Cap(maxProviderCalls), r.providerCalls)
              && StopIs(w, variants, desired, Cap(maxProviderCalls), r.providerCalls, r.stop, r.lastCallReserved)
              && |r.passes| == r.providerCalls <= |variants|
              && (forall k | 0 <= k < |r.passes| :: r.passes[k] == Report(w, variants, k))
              && r.candidates == Gathered(w, r.providerCalls)
              && r.newFound == NewAfter(w, if r.stop == ProviderError then r.providerCalls - 1 else r.providerCalls)
  {
    var cap := Cap(maxProviderCalls);
    var all: seq<C>, passes: seq<Pass>, newFound := [], [], 0;
    var stop: Option<StopReason>, reserved := None, false;
    var calls := 0;
    while calls < |variants|
      invariant 0 <= calls <= |variants| && stop == None && !reserved
      invariant calls > 0 ==> !Fails(w, 0)
      invariant StillGoing(w, variants, desired, cap, calls)
      invariant all == Gathered(w, calls) && newFound == NewAfter(w, calls)
      invariant |passes| == calls && forall k | 0 <= k < calls :: passes[k] == Report(w, variants, k)
    {
      var index, variant := calls, variants[calls];
      if calls >= cap {
        stop := Some(MaxProviderCalls);
      } else if calls > 0 && w.elapsed(calls) + PASS_TIMEOUT_MS > TIME_BUDGET_MS {
        stop := Some(TimeBudget);
      } else if calls >= 2 && calls == cap - 1 && !SignalIn(variants, index) && w.reserve.Some?
          && w.reserve.value(all) {
        stop, reserved := Some(MaxProviderCalls), true;
      }
      if stop.Some? {
        EndedBefore(w, variants, desired, cap, calls);
        return Found(all, passes, calls, stop.value, newFound, reserved);
      }
      assert Admitted(w, variants, cap, index);
      calls := calls + 1;
      var found := w.runPass(index);
      if found.None? {
        if calls == 1 {
          return Raised;
        }
        EndedBy(w, variants, desired, cap, index, ProviderError);
        return Found(all, passes + [Pass(variant.kind, 0, newFound, true)], calls, ProviderError, newFound, false);
      }
      all := all + found.value;
      var before := newFound;
      newFound := w.countNew(all);
      passes := passes + [Pass(variant.kind, |found.value|, newFound, false)];
      if newFound >= desired {
        stop := Some(TargetReached);
      } else if calls > 1 && newFound <= before && !SignalIn(variants, index + 1) {
        stop := Some(NoNewResults);
      }
      if stop.Some? {
        EndedBy(w, variants, desired, cap, index, stop.value);
        return Found(all, passes, calls, stop.value, newFound, false);
      }
    }
    EndedBefore(w, variants, desired, cap, calls);
    r := Found(all, passes, calls, if calls >= cap then MaxProviderCalls else NoMoreVariants, newFound, false);
  }

  // ---------------------------------------------------------------- consequences for every world

  /** The cap: what was asked for, within one and three; three when nothing was asked for. */
  lemma CapReads(maxProviderCalls: Option<int>)
    ensures maxProviderCalls.None? ==> Cap(maxProviderCalls) == 3
    ensures maxProviderCalls.Some? ==>
              && 1 <= Cap(maxProviderCalls) <= 3
              && (1 <= maxProviderCalls.value <= 3 ==> Cap(maxProviderCalls) == maxProviderCalls.value)
              && (maxProviderCalls.value < 1 ==> Cap(maxProviderCalls) == 1)
              && (maxProviderCalls.value > 3 ==> Cap(maxProviderCalls) == 3)
  {
  }

  /** Never more calls than the cap, never more than three, and as many reports as calls. */
  lemma CallsWithinCap<C>(w: World<C>, variants: seq<Variant>, desired: int, maxProviderCalls: Option<int>, n: nat)
    requires Makes(w, variants, desired, Cap(maxProviderCalls), n)
    ensures n <= Cap(maxProviderCalls) <= MAX_PROVIDER_CALLS && n <= |variants|
  {
    assert n > 0 ==> Admitted(w, variants, Cap(maxProviderCalls), n - 1);
  }

  /** The number of passes, and with it the stop reason, is determined by the world: no two runs differ. */
  lemma RunIsDetermined<C>(w: World<C>, variants: seq<Variant>, desired: int, cap: int, m: nat, n: nat)
    requires Makes(w, variants, desired, cap, m) && Makes(w, variants, desired, cap, n)
    ensures m == n
  {
    if m < n {
      EarlierPassWentOn(w, variants, desired, cap, m, n);
    } else if n < m {
      EarlierPassWentOn(w, variants, desired, cap, n, m);
    }
  }

  lemma EarlierPassWentOn<C>(w: World<C>, variants: seq<Variant>, desired: int, cap: int, m: nat, n: nat)
    requires m < n && Makes(w, variants, desired, cap, n)
    ensures Admitted(w, variants, cap, m) && (m == 0 || GoesOn(w, variants, desired, m - 1))
  {
  }

  /** The target is reported exactly when the last pass is the first one to reach it. */
  lemma TargetReachedIsFirst<C>(w: World<C>, variants: seq<Variant>, desired: int, cap: int, n: nat, stop: StopReason,
                                reserved: bool)
    requires Makes(w, variants, desired, cap, n) && StopIs(w, variants, desired, cap, n, stop, reserved)
    ensures stop == TargetReached <==>
              n > 0 && Reaches(w, desired, n - 1) && forall k | 0 <= k < n - 1 :: !Reaches(w, desired, k)
  {
    forall k | 0 <= k < n - 1
      ensures !Reaches(w, desired, k)
    {
      assert GoesOn(w, variants, desired, k);
    }
  }

  /** A reserved last call means exactly two calls of three, no failed pass and no signal variant left. */
  lemma ReservedMeansTwoCalls<C>(w: World<C>, variants: seq<Variant>, desired: int, maxProviderCalls: Option<int>,
                                 n: nat, stop: StopReason)
    requires Makes(w, variants, desired, Cap(maxProviderCalls), n)
    requires StopIs(w, variants, desired, Cap(maxProviderCalls), n, stop, true)
    ensures n == 2 && Cap(maxProviderCalls) == 3 && stop == MaxProviderCalls
    ensures forall i | 2 <= i < |variants| :: variants[i].kind != Signal
    ensures forall k | 0 <= k < 2 :: !Fails(w, k) && !Reaches(w, desired, k)
  {
    assert GoesOn(w, variants, desired, 0) && GoesOn(w, variants, desired, 1);
  }

  /** Every pass after the first was admitted with enough time left for its own timeout. */
  lemma PassesFitTheTimeBudget<C>(w: World<C>, variants: seq<Variant>, desired: int, cap: int, n: nat, k: nat)
    requires Makes(w, variants, desired, cap, n) && 0 < k < n
    ensures w.elapsed(k) + PASS_TIMEOUT_MS <= TIME_BUDGET_MS
  {
    assert Admitted(w, variants, cap, k);
  }

  /**
   A run with a signal variant not yet tried never gives up for lack of new results, and never reserves the last
   call.
   */
  lemma SignalVariantsComeFirst<C>(w: World<C>, variants: seq<Variant>, desired: int, cap: int, n: nat,
                                   stop: StopReason, reserved: bool)
    requires StopIs(w, variants, desired, cap, n, stop, reserved)
    requires exists i | n <= i < |variants| :: variants[i].kind == Signal
    ensures stop != NoNewResults && stop != NoMoreVariants && !reserved
  {
  }
}
