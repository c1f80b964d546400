// Secondary sources of secondary-sources.ts: which cited names are worth one request, and which of its answers are one
// of them.
module SecondarySources {
  import opened Text
  import opened Counting

  const MAX_SECONDARY_NAMES := 5

  datatype Name = Name(name: string, sourceUrl: string)

  /** `eligible` is the class COMPANY_CANDIDATE; `high` is the confidence RESOLVED_HIGH. */
  datatype Candidate = Candidate(name: string, website: Option<string>, sourceUrl: string, eligible: bool, high: bool,
                                 origin: Option<Name>)

  /** What text and address functions say of candidates. */
  datatype Reading = Reading(
    cited: Candidate -> seq<Name>,                 // the names one source cites
    siteName: string -> Option<string>,
        // first label of a website's domain; None for an unreadable address
    host: string -> string)                        // host name without "www."

  // ---------------------------------------------------------------- the plan

  predicate SameName(lex: Lexicon, other: string, n: Name) {
    lex.SameOrganization(other, n.name) || lex.alnum(other) == lex.alnum(n.name)
  }

  predicate NamesOneOf(lex: Lexicon, others: seq<string>, n: Name) {
    exists i | 0 <= i < |others| :: SameName(lex, others[i], n)
  }

  predicate Repeats(lex: Lexicon, names: seq<Name>, n: Name) {
    exists i | 0 <= i < |names| :: SameName(lex, names[i].name, n)
  }

  datatype Picked = Picked(names: seq<Name>, skippedKnown: nat)

  function PickNext(lex: Lexicon, taken: seq<string>, p: Picked, n: Name): Picked {
    if NamesOneOf(lex, taken, n) then p.(skippedKnown := p.skippedKnown + 1)
    else if Repeats(lex, p.names, n) || |p.names| >= MAX_SECONDARY_NAMES then p
    else p.(names := p.names + [n])
  }

  /** The names kept among the first `n` cited ones. */
  function Pick(lex: Lexicon, taken: seq<string>, all: seq<Name>, n: nat): Picked
    requires n <= |all|
  {
    if n == 0 then Picked([], 0) else PickNext(lex, taken, Pick(lex, taken, all, n - 1), all[n - 1])
  }

  /** Every name the first `n` results cite, in order. */
  function AllCited(read: Reading, results: seq<Candidate>, n: nat): seq<Name>
    requires n <= |results|
  {
    if n == 0 then [] else AllCited(read, results, n - 1) + read.cited(results[n - 1])
  }

  function RunNames(results: seq<Candidate>, n: nat): seq<string>
    requires n <= |results|
  {
    if n == 0 then [] else RunNames(results, n - 1) + if results[n - 1].eligible then [results[n - 1].name] else []
  }

  function Cites(read: Reading): Candidate -> bool {
    (r: Candidate) => read.cited(r) != []
  }

  datatype SecondaryPlan = SecondaryPlan(sources: nat, extracted: nat, names: seq<Name>, skippedKnown: nat)

  lemma {:induction false} PickPrefix(lex: Lexicon, taken: seq<string>, all: seq<Name>, more: seq<Name>, n: nat)
    requires n <= |all|
    ensures Pick(lex, taken, all + more, n) == Pick(lex, taken, all, n)
    decreases n
  {
    if n > 0 {
      PickPrefix(lex, taken, all, more, n - 1);
    }
  }

  /** The plan in terms of the results and of the known companies: what is searched, and what is counted. */
  ghost predicate PlansWell(lex: Lexicon, read: Reading, results: seq<Candidate>, known: seq<string>,
                            plan: SecondaryPlan)
  {
    && |plan.names| <= MAX_SECONDARY_NAMES
    && (forall n | n in plan.names :: IsCitedBySome(read, results, n) && !IsKnown(lex, results, known, n))
    && (|plan.names| < MAX_SECONDARY_NAMES ==>
          forall n: Name | IsCitedBySome(read, results, n) ::
            IsKnown(lex, results, known, n) || Repeats(lex, plan.names, n))
  }

  ghost predicate IsCitedBySome(read: Reading, results: seq<Candidate>, n: Name) {
    exists r | r in results :: n in read.cited(r)
  }

  /** The name is a prospect of the project, or an exploitable candidate of the run. */
  ghost predicate IsKnown(lex: Lexicon, results: seq<Candidate>, known: seq<string>, n: Name) {
    || (exists k | k in known :: SameName(lex, k, n))
    || (exists r | r in results :: r.eligible && SameName(lex, r.name, n))
  }

  lemma {:induction false} CitedIff(read: Reading, results: seq<Candidate>, k: nat, n: Name)
    requires k <= |results|
    ensures n in AllCited(read, results, k) <==> exists i | 0 <= i < k :: n in read.cited(results[i])
    decreases k
  {
    if k > 0 {
      CitedIff(read, results, k - 1, n);
    }
  }

  lemma {:induction false} RunNamesIff(results: seq<Candidate>, k: nat, name: string)
    requires k <= |results|
    ensures name in RunNames(results, k) <==> exists i | 0 <= i < k :: results[i].eligible && results[i].name == name
    decreases k
  {
    if k > 0 {
      RunNamesIff(results, k - 1, name);
    }
  }

  lemma KnownIff(lex: Lexicon, results: seq<Candidate>, known: seq<string>, n: Name)
    ensures NamesOneOf(lex, known + RunNames(results, |results|), n) <==> IsKnown(lex, results, known, n)
  {
    var run := RunNames(results, |results|);
    var taken := known + run;
    if i :| 0 <= i < |taken| && SameName(lex, taken[i], n) {
      if i >= |known| {
        RunNamesIff(results, |results|, taken[i]);
      }
    }
    if k :| k in known && SameName(lex, k, n) {
      var i :| 0 <= i < |known| && known[i] == k;
      assert taken[i] == k;
    }
    if r :| r in results && r.eligible && SameName(lex, r.name, n) {
      RunNamesIff(results, |results|, r.name);
      var i :| 0 <= i < |run| && run[i] == r.name;
      assert taken[|known| + i] == r.name;
    }
  }

  lemma PickPlansWell(lex: Lexicon, read: Reading, results: seq<Candidate>, known: seq<string>, plan: SecondaryPlan)
    requires var all := AllCited(read, results, |results|);
             Picked(plan.names, plan.skippedKnown) == Pick(lex, known + RunNames(results, |results|), all, |all|)
    ensures PlansWell(lex, read, results, known, plan)
  {
    var all, taken := AllCited(read, results, |results|), known + RunNames(results, |results|);
    PickLaws(lex, taken, all, |all|);
    forall n | n in plan.names
      ensures IsCitedBySome(read, results, n) && !IsKnown(lex, results, known, n)
    {
      KnownIff(lex, results, known, n);
      CitedIff(read, results, |results|, n);
    }
    if |plan.names| < MAX_SECONDARY_NAMES {
      forall n: Name | IsCitedBySome(read, results, n)
        ensures IsKnown(lex, results, known, n) || Repeats(lex, plan.names, n)
      {
        KnownIff(lex, results, known, n);
        CitedIff(read, results, |results|, n);
        var k :| 0 <= k < |all| && all[k] == n;
        NothingWorthwhileIsLeftOut(lex, taken, all, k);
      }
    }
  }

  /** Every known name that is cited is counted, each time it is cited. */
  lemma {:induction false} SkippedAreTheKnownOnes(lex: Lexicon, taken: seq<string>, all: seq<Name>, n: nat)
    requires n <= |all|
    ensures Pick(lex, taken, all, n).skippedKnown == Count(all, (x: Name) => NamesOneOf(lex, taken, x), n)
    decreases n
  {
    if n > 0 {
      SkippedAreTheKnownOnes(lex, taken, all, n - 1);
    }
  }

  /** The names come in the order they are cited. */
  lemma {:induction false} PickedInOrder(lex: Lexicon, taken: seq<string>, all: seq<Name>, n: nat)
    requires n <= |all|
    ensures IsSubsequence(Pick(lex, taken, all, n).names, all[..n])
    decreases n
  {
    if n > 0 {
      PickedInOrder(lex, taken, all, n - 1);
      assert all[..n][..n - 1] == all[..n - 1];
      var before := Pick(lex, taken, all, n - 1).names;
      assert (before + [all[n - 1]])[..|before|] == before;
    }
  }

  lemma RepeatsStay(lex: Lexicon, before: seq<Name>, after: seq<Name>, n: Name)
    ensures before <= after && Repeats(lex, before, n) ==> Repeats(lex, after, n)
  {
    if before <= after && Repeats(lex, before, n) {
      var i :| 0 <= i < |before| && SameName(lex, before[i].name, n);
      assert after[i] == before[i];
    }
  }

  /** A cited name is known, or repeats a name of the plan, or comes after five names that were kept. */
  lemma KeptKnownOrLate(lex: Lexicon, taken: seq<string>, all: seq<Name>, k: nat)
    requires k < |all|
    ensures var names, before := Pick(lex, taken, all, |all|).names, Pick(lex, taken, all, k).names;
            && before <= names
            && (|| NamesOneOf(lex, taken, all[k]) || Repeats(lex, names, all[k])
                || |before| == |names| == MAX_SECONDARY_NAMES)
  {
    PickLaws(lex, taken, all, k);
    PickLaws(lex, taken, all, |all|);
    PickGrows(lex, taken, all, k, |all|);
    PickGrows(lex, taken, all, k + 1, |all|);
    var before, after, final := Pick(lex, taken, all, k).names, Pick(lex, taken, all, k + 1).names,
        Pick(lex, taken, all, |all|).names;
    if after != before {
      assert after[|before|] == all[k] && SameName(lex, after[|before|].name, all[k]);
    }
    RepeatsStay(lex, before, final, all[k]);
    RepeatsStay(lex, after, final, all[k]);
  }

  /** A cited name left out of a plan that has room is a known company or repeats a name of the plan. */
  lemma NothingWorthwhileIsLeftOut(lex: Lexicon, taken: seq<string>, all: seq<Name>, k: nat)
    requires k < |all| && |Pick(lex, taken, all, |all|).names| < MAX_SECONDARY_NAMES
    ensures NamesOneOf(lex, taken, all[k]) || Repeats(lex, Pick(lex, taken, all, |all|).names, all[k])
  {
    KeptKnownOrLate(lex, taken, all, k);
  }

  /** Of the names worth a request the first ones are kept: one is left out only once five before it were kept. */
  lemma LeftOutForAReason(lex: Lexicon, taken: seq<string>, all: seq<Name>, k: nat)
    requires k < |all| && !NamesOneOf(lex, taken, all[k])
    requires !Repeats(lex, Pick(lex, taken, all, |all|).names, all[k])
    ensures var names := Pick(lex, taken, all, |all|).names;
            |names| == MAX_SECONDARY_NAMES && forall i | 0 <= i < |names| :: names[i] in all[..k]
  {
    KeptKnownOrLate(lex, taken, all, k);
    PickLaws(lex, taken, all[..k], k);
    PickPrefix(lex, taken, all[..k], all[k..], k);
    assert all[..k] + all[k..] == all;
  }

  /** The names of one source, after those of the sources before it. */
  method PickFromSource(lex: Lexicon, taken: seq<string>, p: Picked, ghost before: seq<Name>, cited: seq<Name>)
      returns (next: Picked)
    requires p == Pick(lex, taken, before, |before|)
    ensures next == Pick(lex, taken, before + cited, |before + cited|)
  {
    ghost var all := before + cited;
    PickPrefix(lex, taken, before, cited, |before|);
    next := p;
    for k := 0 to |cited|
      invariant next == Pick(lex, taken, all, |before| + k)
    {
      assert all[|before| + k] == cited[k];
      next := PickNext(lex, taken, next, cited[k]);
    }
  }

  method PlanSecondaryExpansion(lex: Lexicon, read: Reading, results: seq<Candidate>, known: seq<string>)
      returns (plan: SecondaryPlan)
    ensures var all := AllCited(read, results, |results|);
            && plan.extracted == |all| && plan.sources == Count(results, Cites(read), |results|)
            && Picked(plan.names, plan.skippedKnown) == Pick(lex, known + RunNames(results, |results|), all, |all|)
    ensures PlansWell(lex, read, results, known, plan)
  {
    var taken := known + RunNames(results, |results|);
    var p, sources, extracted := Picked([], 0), 0, 0;
    ghost var all: seq<Name> := [];
    for r := 0 to |results|
      invariant all == AllCited(read, results, r) && extracted == |all| && sources == Count(results, Cites(read), r)
      invariant p == Pick(lex, taken, all, |all|)
    {
      var cited := read.cited(results[r]);
      if cited != [] {
        sources := sources + 1;
      }
      p := PickFromSource(lex, taken, p, all, cited);
      all, extracted := all + cited, extracted + |cited|;
    }
    plan := SecondaryPlan(sources, extracted, p.names, p.skippedKnown);
    PickPlansWell(lex, read, results, known, plan);
  }

  /**
   At most five names, all cited, none of them a known or already found company, none the same company as one before
   it.
   */
  ghost predicate PickedWell(lex: Lexicon, taken: seq<string>, all: seq<Name>, n: nat, p: Picked) {
    && |p.names| <= MAX_SECONDARY_NAMES && |p.names| + p.skippedKnown <= n
    && (forall i | 0 <= i < |p.names| :: p.names[i] in all && !NamesOneOf(lex, taken, p.names[i]))
    && (forall i, j | 0 <= i < j < |p.names| :: !SameName(lex, p.names[i].name, p.names[j]))
  }

  lemma PickOneMore(lex: Lexicon, taken: seq<string>, all: seq<Name>, n: nat, p: Picked)
    requires n < |all| && PickedWell(lex, taken, all, n, p)
    ensures PickedWell(lex, taken, all, n + 1, PickNext(lex, taken, p, all[n]))
  {
    var next := PickNext(lex, taken, p, all[n]);
    forall i, j | 0 <= i < j < |next.names|
      ensures !SameName(lex, next.names[i].name, next.names[j])
    {
      assert next.names[i] == p.names[i];
    }
  }

  lemma {:induction false} PickLaws(lex: Lexicon, taken: seq<string>, all: seq<Name>, n: nat)
    requires n <= |all|
    ensures PickedWell(lex, taken, all, n, Pick(lex, taken, all, n))
    decreases n
  {
    if n > 0 {
      PickLaws(lex, taken, all, n - 1);
      PickOneMore(lex, taken, all, n - 1, Pick(lex, taken, all, n - 1));
    }
  }

  /**
   Of two names of a plan, the later one is never the same company as the earlier one; the earlier one is the same
   company as the later one exactly when they have one canonical name and only the later spelling is distinctive.
   */
  lemma PickedTwiceIff(lex: Lexicon, taken: seq<string>, all: seq<Name>, i: nat, j: nat)
    requires i < j < |Pick(lex, taken, all, |all|).names|
    ensures var names := Pick(lex, taken, all, |all|).names;
            var early, late := names[i].name, names[j].name;
            && !SameName(lex, early, names[j])
            && (SameName(lex, late, names[i])
                <==> |lex.entityCore(late)| >= 3 && lex.entityCore(late) == lex.entityCore(early)
                                                   && lex.hasDistinctiveName(late) && !lex.hasDistinctiveName(early))
  {
    PickLaws(lex, taken, all, |all|);
  }

  /** One association, cited by two sources under two spellings, is searched twice. */
  lemma OneCompanyCanBePickedTwice(lex: Lexicon)
    requires lex.entityCore("AB CD Association") == "abcd" && lex.entityCore("ABCD") == "abcd"
    requires lex.hasDistinctiveName("ABCD") && !lex.hasDistinctiveName("AB CD Association")
    requires lex.alnum("AB CD Association") != lex.alnum("ABCD")
    ensures var all := [Name("AB CD Association", "u"), Name("ABCD", "v")];
            Pick(lex, [], all, 2).names == all && SameName(lex, all[1].name, all[0])
  {
    var all := [Name("AB CD Association", "u"), Name("ABCD", "v")];
    assert Pick(lex, [], all, 1).names == [all[0]];
  }

  /** The names kept so far never leave the plan. */
  lemma {:induction false} PickGrows(lex: Lexicon, taken: seq<string>, all: seq<Name>, m: nat, n: nat)
    requires m <= n <= |all|
    ensures Pick(lex, taken, all, m).names <= Pick(lex, taken, all, n).names
    decreases n
  {
    if m < n {
      PickGrows(lex, taken, all, m, n - 1);
    }
  }

  /** `part` is obtained from `whole` by dropping elements. */
  ghost predicate IsSubsequence<T(!new)>(part: seq<T>, whole: seq<T>)
    decreases |whole|
  {
    if part == [] then true
    else if whole == [] then false
    else if part[|part| - 1] == whole[|whole| - 1] && IsSubsequence(part[..|part| - 1], whole[..|whole| - 1]) then true
    else IsSubsequence(part, whole[..|whole| - 1])
  }

  // ---------------------------------------------------------------- which answers are one of the names

  /** The answer is the cited company on its own site: by name, or by a domain label of at least four characters. */
  predicate IsCited(lex: Lexicon, read: Reading, r: Candidate, n: Name) {
    var site := if Truthy(r.website) then read.siteName(r.website.value) else None;
    && r.eligible && r.high && Truthy(r.website) && site.Some?
    && (lex.SameOrganization(r.name, n.name) || lex.alnum(r.name) == lex.alnum(n.name)
        || (|site.value| >= 4 && site.value == lex.alnum(n.name)))
  }

  function Fits(lex: Lexicon, read: Reading, r: Candidate, matched: set<string>): Name -> bool {
    (n: Name) => n.name !in matched && IsCited(lex, read, r, n)
  }

  datatype Resolution = Resolution(resolved: seq<Candidate>, matched: set<string>)

  function ResolveNext(lex: Lexicon, read: Reading, names: seq<Name>, p: Resolution, r: Candidate): Resolution {
    var at := FirstIndex(names, Fits(lex, read, r, p.matched));
    if at == |names| then p
    else Resolution(p.resolved + [r.(origin := Some(names[at]))], p.matched + {names[at].name})
  }

  /** The candidates kept among the first `n` answers, and the names they answer. */
  function Resolve(lex: Lexicon, read: Reading, results: seq<Candidate>, names: seq<Name>, n: nat): Resolution
    requires n <= |results|
  {
    if n == 0 then Resolution([], {})
        else ResolveNext(lex, read, names, Resolve(lex, read, results, names, n - 1), results[n - 1])
  }

  method ResolveSecondaryCandidates(lex: Lexicon, read: Reading, results: seq<Candidate>, names: seq<Name>)
    returns (resolved: seq<Candidate>, unresolved: int)
    ensures resolved == Resolve(lex, read, results, names, |results|).resolved
    ensures |resolved| + unresolved == |names| && unresolved >= 0
  {
    resolved := [];
    var matched: set<string> := {};
    for n := 0 to |results|
      invariant Resolution(resolved, matched) == Resolve(lex, read, results, names, n)
    {
      var r := results[n];
      var at := FirstIndex(names, Fits(lex, read, r, matched));
      if at < |names| {
        resolved := resolved + [r.(origin := Some(names[at]))];
        matched := matched + {names[at].name};
      }
    }
    MatchedAreNames(lex, read, results, names, |results|);
    unresolved := |names| - |matched|;
  }

  /** The distinct texts of the first `n` names. */
  function TextsOf(names: seq<Name>, n: nat): set<string>
    requires n <= |names|
  {
    if n == 0 then {} else TextsOf(names, n - 1) + {names[n - 1].name}
  }

  lemma {:induction false} FewTexts(names: seq<Name>, n: nat)
    requires n <= |names|
    ensures |TextsOf(names, n)| <= n
    ensures forall i | 0 <= i < n :: names[i].name in TextsOf(names, n)
    decreases n
  {
    if n > 0 {
      FewTexts(names, n - 1);
    }
  }

  lemma SubsetIsSmaller(a: set<string>, b: set<string>)
    requires a <= b
    ensures |a| <= |b|
  {
    assert b == a + (b - a);
  }

  /** One name is matched per resolved candidate, and all matched names are searched ones. */
  lemma {:induction false} MatchedAreNames(lex: Lexicon, read: Reading, results: seq<Candidate>, names: seq<Name>,
                                           n: nat)
    requires n <= |results|
    ensures var p := Resolve(lex, read, results, names, n);
            p.matched <= TextsOf(names, |names|) && |p.matched| == |p.resolved| <= |names|
    decreases n
  {
    FewTexts(names, |names|);
    if n > 0 {
      MatchedAreNames(lex, read, results, names, n - 1);
    }
    SubsetIsSmaller(Resolve(lex, read, results, names, n).matched, TextsOf(names, |names|));
  }

  /**
   A resolved candidate is one of the results, unchanged but for its origin, and is that name on its own official
   site.
   */
  ghost predicate IsResolved(lex: Lexicon, read: Reading, results: seq<Candidate>, names: seq<Name>, c: Candidate) {
    && c.origin.Some? && c.origin.value in names
    && exists r | r in results :: c == r.(origin := c.origin) && IsCited(lex, read, r, c.origin.value)
  }

  /** Each name is answered at most once, and only by a result that is that company. */
  ghost predicate ResolvedWell(lex: Lexicon, read: Reading, results: seq<Candidate>, names: seq<Name>, p: Resolution) {
    && (forall k | 0 <= k < |p.resolved| :: IsResolved(lex, read, results, names, p.resolved[k]))
    && (forall k | 0 <= k < |p.resolved| :: p.resolved[k].origin.value.name in p.matched)
    && (forall j, k | 0 <= j < k < |p.resolved| :: p.resolved[j].origin.value.name != p.resolved[k].origin.value.name)
  }

  lemma ResolveOneMore(lex: Lexicon, read: Reading, results: seq<Candidate>, names: seq<Name>, p: Resolution,
                       r: Candidate)
    requires r in results && ResolvedWell(lex, read, results, names, p)
    ensures ResolvedWell(lex, read, results, names, ResolveNext(lex, read, names, p, r))
  {
    var at := FirstIndex(names, Fits(lex, read, r, p.matched));
    if at < |names| {
      var c := r.(origin := Some(names[at]));
      assert c == r.(origin := c.origin) && IsCited(lex, read, r, c.origin.value);
      assert IsResolved(lex, read, results, names, c);
    }
  }

  lemma {:induction false} ResolutionLaws(lex: Lexicon, read: Reading, results: seq<Candidate>, names: seq<Name>,
                                          n: nat)
    requires n <= |results|
    ensures ResolvedWell(lex, read, results, names, Resolve(lex, read, results, names, n))
    decreases n
  {
    if n > 0 {
      ResolutionLaws(lex, read, results, names, n - 1);
      ResolveOneMore(lex, read, results, names, Resolve(lex, read, results, names, n - 1), results[n - 1]);
    }
  }

  /** A result that is a searched company not answered yet is always kept. */
  lemma FreeAnswersAreKept(lex: Lexicon, read: Reading, results: seq<Candidate>, names: seq<Name>, n: nat, i: nat)
    requires n < |results| && i < |names| && IsCited(lex, read, results[n], names[i])
    requires names[i].name !in Resolve(lex, read, results, names, n).matched
    ensures |Resolve(lex, read, results, names, n + 1).resolved| == |Resolve(lex, read, results, names, n).resolved| + 1
  {
    assert Fits(lex, read, results[n], Resolve(lex, read, results, names, n).matched)(names[i]);
  }

  /**
   One answer: it is kept exactly when it is a searched company not answered yet, and stands for the first such name of
   the plan; an answer that is not kept changes nothing.
   */
  lemma AnswerStandsForItsFirstName(lex: Lexicon, read: Reading, results: seq<Candidate>, names: seq<Name>, n: nat)
    requires n < |results|
    ensures var before, after := Resolve(lex, read, results, names, n), Resolve(lex, read, results, names, n + 1);
            || (after == before && forall i | 0 <= i < |names| ::
                  names[i].name in before.matched || !IsCited(lex, read, results[n], names[i]))
            || (exists i: nat | IsFirstFree(lex, read, results[n], names, before.matched, i) ::
                  && after.resolved == before.resolved + [results[n].(origin := Some(names[i]))]
                  && after.matched == before.matched + {names[i].name})
  {
    var matched := Resolve(lex, read, results, names, n).matched;
    var fits := Fits(lex, read, results[n], matched);
    var at := FirstIndex(names, fits);
    assert forall i | 0 <= i < |names| && i < at :: !fits(names[i]);
    assert at < |names| ==> IsFirstFree(lex, read, results[n], names, matched, at);
  }

  ghost predicate IsFirstFree(lex: Lexicon, read: Reading, r: Candidate, names: seq<Name>, matched: set<string>,
                              i: nat)
  {
    && i < |names| && names[i].name !in matched && IsCited(lex, read, r, names[i])
    && forall k | 0 <= k < i :: names[k].name in matched || !IsCited(lex, read, r, names[k])
  }
}
