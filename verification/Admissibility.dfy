// In-run merging of admissibility.ts: the pages of one search that speak of the same organization become one
// candidate with several sources.
module Admissibility {
  import opened Text

  datatype Source = Source(url: string, title: string, sourceType: Option<string>, pageType: Option<string>)

  datatype Row = Row(name: string, website: Option<string>, sourceUrl: string, sourceTitle: string,
                     deduplicationKey: string, sourceType: Option<string>, pageType: Option<string>,
      siren: Option<string>, admissible: bool, confidence: Option<string>, queries: seq<string>,
      additional: seq<Source>)

  const RESOLVED_HIGH: Option<string> := Some("RESOLVED_HIGH")

  function HostOf(lex: Lexicon, website: Option<string>): Option<string> {
    if Truthy(website) then lex.registrableDomain(website.value) else None
  }

  /** A legal identifier on both sides settles it, then two websites, then a distinctive name. */
  predicate SameEntity(lex: Lexicon, a: Row, b: Row) {
    if a.siren.Some? && b.siren.Some? then a.siren == b.siren
    else
      var da, db := HostOf(lex, a.website), HostOf(lex, b.website);
      if Truthy(da) && Truthy(db) then da == db else lex.SameOrganization(a.name, b.name)
  }

  predicate Mergeable(lex: Lexicon, k: Row, c: Row) {
    c.admissible && k.admissible && SameEntity(lex, k, c)
  }

  function MergesWith(lex: Lexicon, c: Row): Row -> bool {
    (k: Row) => Mergeable(lex, k, c)
  }

  /** The target has no website and the new page has one: the new page becomes the primary source. */
  predicate Adopts(target: Row, c: Row) {
    !Truthy(target.website) && Truthy(c.website)
  }

  /** The distinct words among the first `n`, in order of first appearance. */
  function Unique(words: seq<string>, n: nat): seq<string>
    requires n <= |words|
  {
    if n == 0 then []
    else
      var before := Unique(words, n - 1);
      if words[n - 1] in before then before else before + [words[n - 1]]
  }

  function Merged(target: Row, c: Row): Row {
    var primary, secondary := if Adopts(target, c) then c else target, if Adopts(target, c) then target else c;
    primary.(
      additional := target.additional + c.additional
                    + [Source(secondary.sourceUrl, secondary.sourceTitle, secondary.sourceType, secondary.pageType)],
      confidence := if target.confidence == RESOLVED_HIGH || c.confidence == RESOLVED_HIGH then RESOLVED_HIGH
          else primary.confidence,
      queries := Unique(target.queries + c.queries, |target.queries| + |c.queries|))
  }

  /** Where the next candidate goes: the first kept row it merges with, or a new place at the end. */
  function Place(lex: Lexicon, kept: seq<Row>, c: Row): nat {
    FirstIndex(kept, MergesWith(lex, c))
  }

  function With(lex: Lexicon, kept: seq<Row>, c: Row): seq<Row> {
    var t := Place(lex, kept, c);
    if t < |kept| then kept[t := Merged(kept[t], c)] else kept + [c]
  }

  /** The kept rows after the first `n` candidates. */
  function Kept(lex: Lexicon, candidates: seq<Row>, n: nat): seq<Row>
    requires n <= |candidates|
  {
    if n == 0 then [] else With(lex, Kept(lex, candidates, n - 1), candidates[n - 1])
  }

  /**
   A moment of the merge: the kept rows, the kept row each candidate read so far is a member of, the candidate that
   opened each kept row, and the one whose page it shows. Rows are replaced in place, so a member never changes rows.
   */
  datatype Moment = Moment(kept: seq<Row>, owners: seq<nat>, openers: seq<nat>, shown: seq<nat>)

  ghost function Next(lex: Lexicon, s: Moment, c: Row): Moment {
    var t := Place(lex, s.kept, c);
    Moment(With(lex, s.kept, c), s.owners + [t], if t == |s.kept| then s.openers + [|s.owners|] else s.openers,
           if t == |s.kept| then s.shown + [|s.owners|]
           else if t < |s.shown| && Adopts(s.kept[t], c) then s.shown[t := |s.owners|]
           else s.shown)
  }

  /** The moment after the first `n` candidates. */
  ghost function After(lex: Lexicon, candidates: seq<Row>, n: nat): Moment
    requires n <= |candidates|
  {
    if n == 0 then Moment([], [], [], []) else Next(lex, After(lex, candidates, n - 1), candidates[n - 1])
  }

  /** What holds at the start and is kept by every candidate holds after all of them. */
  lemma {:induction false} EveryMoment(lex: Lexicon, candidates: seq<Row>, n: nat, inv: Moment -> bool)
    requires n <= |candidates| && inv(Moment([], [], [], []))
    requires forall s: Moment, k: nat {:trigger Next(lex, s, candidates[k])} |
               k < |candidates| && |s.owners| == k && inv(s) :: inv(Next(lex, s, candidates[k]))
    ensures inv(After(lex, candidates, n)) && |After(lex, candidates, n).owners| == n
    decreases n
  {
    if n > 0 {
      EveryMoment(lex, candidates, n - 1, inv);
    }
  }

  lemma {:induction false} AfterKeeps(lex: Lexicon, candidates: seq<Row>, n: nat)
    requires n <= |candidates|
    ensures After(lex, candidates, n).kept == Kept(lex, candidates, n) && |After(lex, candidates, n).owners| == n
    decreases n
  {
    if n > 0 {
      AfterKeeps(lex, candidates, n - 1);
    }
  }

  method MergeSameEntityCandidates(lex: Lexicon, candidates: seq<Row>) returns (kept: seq<Row>, merged: nat)
    ensures kept == Kept(lex, candidates, |candidates|)
    ensures |kept| + merged == |candidates|
  {
    kept, merged := [], 0;
    for n := 0 to |candidates|
      invariant kept == Kept(lex, candidates, n) && |kept| + merged == n
    {
      var c := candidates[n];
      var target := |kept|;
      if c.admissible {
        target := FirstAdmissibleMatch(lex, kept, c);
      } else {
        FirstIndexIs(kept, MergesWith(lex, c), |kept|);
      }
      if target == |kept| {
        kept := kept + [c];
      } else {
        merged := merged + 1;
        kept := kept[target := Merged(kept[target], c)];
      }
    }
  }

  /** The `find` of the loop. */
  method FirstAdmissibleMatch(lex: Lexicon, kept: seq<Row>, c: Row) returns (t: nat)
    requires c.admissible
    ensures t == Place(lex, kept, c)
  {
    t := 0;
    while t < |kept| && !(kept[t].admissible && SameEntity(lex, kept[t], c))
      invariant t <= |kept|
      invariant forall k | 0 <= k < t :: !MergesWith(lex, c)(kept[k])
    {
      t := t + 1;
    }
    FirstIndexIs(kept, MergesWith(lex, c), t);
  }

  // ---------------------------------------------------------------- conservation of the sources

  /** How many of the first `n` sources are this one. */
  function TimesIn(sources: seq<Source>, n: nat, page: Source): nat
    requires n <= |sources|
  {
    if n == 0 then 0 else TimesIn(sources, n - 1, page) + if sources[n - 1] == page then 1 else 0
  }

  lemma {:induction false} TimesInBoth(a: seq<Source>, b: seq<Source>, n: nat, page: Source)
    requires n <= |a| + |b|
    ensures TimesIn(a + b, n, page) == if n <= |a| then TimesIn(a, n, page)
        else TimesIn(a, |a|, page) + TimesIn(b, n - |a|, page)
    decreases n
  {
    if n > 0 {
      TimesInBoth(a, b, n - 1, page);
    }
  }

  /** The page a row shows, as a source. */
  function OwnPage(r: Row): Source {
    Source(r.sourceUrl, r.sourceTitle, r.sourceType, r.pageType)
  }

  /** How often a row stands for a page: by showing it or by an additional source. */
  function TimesOf(r: Row, page: Source): nat {
    TimesIn(r.additional, |r.additional|, page) + if OwnPage(r) == page then 1 else 0
  }

  function Times(rows: seq<Row>, n: nat, page: Source): nat
    requires n <= |rows|
  {
    if n == 0 then 0 else Times(rows, n - 1, page) + TimesOf(rows[n - 1], page)
  }

  lemma MergingKeepsPages(target: Row, c: Row, page: Source)
    ensures TimesOf(Merged(target, c), page) == TimesOf(target, page) + TimesOf(c, page)
  {
    var both, merged := target.additional + c.additional, Merged(target, c).additional;
    assert merged == both + [merged[|both|]];
    TimesInBoth(both, [merged[|both|]], |both|, page);
    TimesInBoth(target.additional, c.additional, |both|, page);
  }

  lemma {:induction false} ReplacingOne(rows: seq<Row>, t: nat, next: Row, n: nat, page: Source)
    requires t < |rows| && n <= |rows|
    ensures Times(rows[t := next], n, page) + (if t < n then TimesOf(rows[t], page) else 0)
         == Times(rows, n, page) + (if t < n then TimesOf(next, page) else 0)
    decreases n
  {
    if n > 0 {
      ReplacingOne(rows, t, next, n - 1, page);
    }
  }

  lemma {:induction false} TimesBefore(rows: seq<Row>, c: Row, n: nat, page: Source)
    requires n <= |rows|
    ensures Times(rows + [c], n, page) == Times(rows, n, page)
    decreases n
  {
    if n > 0 {
      TimesBefore(rows, c, n - 1, page);
    }
  }

  lemma OneMoreCandidateAddsItsPages(lex: Lexicon, kept: seq<Row>, c: Row, page: Source)
    ensures Times(With(lex, kept, c), |With(lex, kept, c)|, page) == Times(kept, |kept|, page) + TimesOf(c, page)
  {
    var t := Place(lex, kept, c);
    if t < |kept| {
      MergingKeepsPages(kept[t], c, page);
      ReplacingOne(kept, t, Merged(kept[t], c), |kept|, page);
    } else {
      TimesBefore(kept, c, |kept|, page);
    }
  }

  /**
   No page is lost, altered or counted twice: each address, with its title and types, occurs among the kept rows as
   often as among the candidates.
   */
  lemma {:induction false} PagesAreConserved(lex: Lexicon, candidates: seq<Row>, n: nat, page: Source)
    requires n <= |candidates|
    ensures Times(Kept(lex, candidates, n), |Kept(lex, candidates, n)|, page) == Times(candidates, n, page)
    decreases n
  {
    if n > 0 {
      PagesAreConserved(lex, candidates, n - 1, page);
      OneMoreCandidateAddsItsPages(lex, Kept(lex, candidates, n - 1), candidates[n - 1], page);
    }
  }

  // ---------------------------------------------------------------- rows that never merge

  /** The rows that are not admissible, in order. */
  function SetAside(rows: seq<Row>, n: nat): seq<Row>
    requires n <= |rows|
  {
    if n == 0 then [] else SetAside(rows, n - 1) + if rows[n - 1].admissible then [] else [rows[n - 1]]
  }

  lemma {:induction false} ReplacingAdmissible(rows: seq<Row>, t: nat, next: Row, n: nat)
    requires t < |rows| && n <= |rows| && rows[t].admissible && next.admissible
    ensures SetAside(rows[t := next], n) == SetAside(rows, n)
    decreases n
  {
    if n > 0 {
      ReplacingAdmissible(rows, t, next, n - 1);
    }
  }

  lemma {:induction false} SetAsideBefore(rows: seq<Row>, c: Row, n: nat)
    requires n <= |rows|
    ensures SetAside(rows + [c], n) == SetAside(rows, n)
    decreases n
  {
    if n > 0 {
      SetAsideBefore(rows, c, n - 1);
    }
  }

  lemma OneMoreCandidateSetAside(lex: Lexicon, kept: seq<Row>, c: Row)
    ensures SetAside(With(lex, kept, c), |With(lex, kept, c)|)
         == SetAside(kept, |kept|) + if c.admissible then [] else [c]
  {
    var t := Place(lex, kept, c);
    if t < |kept| {
      ReplacingAdmissible(kept, t, Merged(kept[t], c), |kept|);
    } else {
      SetAsideBefore(kept, c, |kept|);
    }
  }

  /** Rows that are not admissible pass through unchanged and in order. */
  lemma {:induction false} SetAsidePassesThrough(lex: Lexicon, candidates: seq<Row>, n: nat)
    requires n <= |candidates|
    ensures SetAside(Kept(lex, candidates, n), |Kept(lex, candidates, n)|) == SetAside(candidates, n)
    decreases n
  {
    if n > 0 {
      SetAsidePassesThrough(lex, candidates, n - 1);
      OneMoreCandidateSetAside(lex, Kept(lex, candidates, n - 1), candidates[n - 1]);
    }
  }

  // ---------------------------------------------------------------- what a kept row is made of

  predicate HasWebsite(r: Row) {
    Truthy(r.website)
  }

  predicate IsHigh(r: Row) {
    r.confidence == RESOLVED_HIGH
  }

  /** Some member of kept row `k` satisfies `p`. */
  ghost predicate SomeMember(candidates: seq<Row>, owners: seq<nat>, k: nat, p: Row -> bool) {
    exists i | 0 <= i < |owners| :: owners[i] == k && i < |candidates| && p(candidates[i])
  }

  lemma OneMoreMember(candidates: seq<Row>, owners: seq<nat>, t: nat, k: nat, p: Row -> bool)
    requires |owners| < |candidates|
    ensures SomeMember(candidates, owners + [t], k, p)
       <==> SomeMember(candidates, owners, k, p) || (t == k && p(candidates[|owners|]))
  {
    var more := owners + [t];
    assert more[|owners|] == t;
    if SomeMember(candidates, owners, k, p) {
      var i :| 0 <= i < |owners| && owners[i] == k && i < |candidates| && p(candidates[i]);
      assert more[i] == k;
    }
  }

  /** `p` holds of each kept row exactly when it holds of one of its members, and every owner is a kept row. */
  ghost predicate HoldsByMembers(candidates: seq<Row>, kept: seq<Row>, owners: seq<nat>, p: Row -> bool) {
    && (forall i | 0 <= i < |owners| :: owners[i] < |kept|)
    && (forall k | 0 <= k < |kept| :: p(kept[k]) <==> SomeMember(candidates, owners, k, p))
  }

  ghost predicate MergesAsOr(p: Row -> bool) {
    forall target: Row, c: Row :: p(Merged(target, c)) <==> p(target) || p(c)
  }

  lemma OneMoreHoldsByMembers(lex: Lexicon, candidates: seq<Row>, s: Moment, p: Row -> bool)
    requires MergesAsOr(p) && |s.owners| < |candidates| && HoldsByMembers(candidates, s.kept, s.owners, p)
    ensures var next := Next(lex, s, candidates[|s.owners|]); HoldsByMembers(candidates, next.kept, next.owners, p)
  {
    var next := Next(lex, s, candidates[|s.owners|]);
    forall k | 0 <= k < |next.kept|
      ensures p(next.kept[k]) <==> SomeMember(candidates, next.owners, k, p)
    {
      OneMoreMember(candidates, s.owners, Place(lex, s.kept, candidates[|s.owners|]), k, p);
    }
  }

  lemma PropertyOfMembers(lex: Lexicon, candidates: seq<Row>, n: nat, p: Row -> bool)
    requires n <= |candidates| && MergesAsOr(p)
    ensures HoldsByMembers(candidates, Kept(lex, candidates, n), After(lex, candidates, n).owners, p)
  {
    var inv := (s: Moment) => HoldsByMembers(candidates, s.kept, s.owners, p);
    forall s: Moment, k: nat | k < |candidates| && |s.owners| == k && inv(s)
      ensures inv(Next(lex, s, candidates[k]))
    {
      OneMoreHoldsByMembers(lex, candidates, s, p);
    }
    EveryMoment(lex, candidates, n, inv);
    AfterKeeps(lex, candidates, n);
    assert inv(After(lex, candidates, n));
  }

  /**
   A kept row has a website, or the best confidence, exactly when one of its members has; every candidate is a
   member of a kept row.
   */
  lemma KeptRowsSpeakForTheirMembers(lex: Lexicon, candidates: seq<Row>, n: nat)
    requires n <= |candidates|
    ensures HoldsByMembers(candidates, Kept(lex, candidates, n), After(lex, candidates, n).owners, HasWebsite)
    ensures HoldsByMembers(candidates, Kept(lex, candidates, n), After(lex, candidates, n).owners, IsHigh)
  {
    assert MergesAsOr(HasWebsite);
    assert MergesAsOr(IsHigh);
    PropertyOfMembers(lex, candidates, n, HasWebsite);
    PropertyOfMembers(lex, candidates, n, IsHigh);
  }

  // ---------------------------------------------------------------- merging again

  /** No later admissible row is the same entity as an earlier one. */
  ghost predicate PairwiseDistinct(lex: Lexicon, rows: seq<Row>) {
    forall i, j | 0 <= i < j < |rows| :: !Mergeable(lex, rows[i], rows[j])
  }

  lemma OpensRow(lex: Lexicon, kept: seq<Row>, c: Row)
    requires forall i | 0 <= i < |kept| :: !Mergeable(lex, kept[i], c)
    ensures With(lex, kept, c) == kept + [c]
  {
    FirstIndexIs(kept, MergesWith(lex, c), |kept|);
  }

  lemma JoinsRow(lex: Lexicon, kept: seq<Row>, c: Row, i: nat)
    requires i < |kept| && Mergeable(lex, kept[i], c)
    ensures |With(lex, kept, c)| == |kept|
  {
    assert MergesWith(lex, c)(kept[i]);
  }

  lemma OneMoreRowAtMost(lex: Lexicon, kept: seq<Row>, c: Row)
    ensures |With(lex, kept, c)| <= |kept| + 1
    ensures |With(lex, kept, c)| <= |kept| || With(lex, kept, c) == kept + [c]
  {
  }

  lemma {:induction false} DistinctRowsStay(lex: Lexicon, rows: seq<Row>, n: nat)
    requires n <= |rows| && forall i, j | 0 <= i < j < n :: !Mergeable(lex, rows[i], rows[j])
    ensures Kept(lex, rows, n) == rows[..n]
    decreases n
  {
    if n > 0 {
      DistinctRowsStay(lex, rows, n - 1);
      OpensRow(lex, rows[..n - 1], rows[n - 1]);
      assert rows[..n] == rows[..n - 1] + [rows[n - 1]];
    }
  }

  /** A list that lost a row never makes up for it. */
  lemma {:induction false} LostForGood(lex: Lexicon, rows: seq<Row>, m: nat, n: nat)
    requires m <= n <= |rows| && |Kept(lex, rows, m)| < m
    ensures |Kept(lex, rows, n)| < n
    decreases n
  {
    if m < n {
      LostForGood(lex, rows, m, n - 1);
      OneMoreRowAtMost(lex, Kept(lex, rows, n - 1), rows[n - 1]);
    }
  }

  lemma {:induction false} LostOrIdle(lex: Lexicon, rows: seq<Row>, n: nat)
    requires n <= |rows|
    ensures |Kept(lex, rows, n)| < n || Kept(lex, rows, n) == rows[..n]
    decreases n
  {
    if n > 0 {
      LostOrIdle(lex, rows, n - 1);
      LostOrIdleNext(lex, rows, Kept(lex, rows, n - 1), n - 1);
    }
  }

  lemma LostOrIdleNext(lex: Lexicon, rows: seq<Row>, kept: seq<Row>, n: nat)
    requires n < |rows| && (|kept| < n || kept == rows[..n])
    ensures |With(lex, kept, rows[n])| < n + 1 || With(lex, kept, rows[n]) == rows[..n + 1]
  {
    OneMoreRowAtMost(lex, kept, rows[n]);
    assert rows[..n + 1] == rows[..n] + [rows[n]];
  }

  /** A list with a repeated row loses at least one row. */
  lemma RepeatCostsARow(lex: Lexicon, rows: seq<Row>, i: nat, j: nat)
    requires i < j < |rows| && Mergeable(lex, rows[i], rows[j])
    ensures |Kept(lex, rows, |rows|)| < |rows|
  {
    LostOrIdle(lex, rows, j);
    if |Kept(lex, rows, j)| < j {
      LostForGood(lex, rows, j, |rows|);
    } else {
      JoinsRow(lex, rows[..j], rows[j], i);
      LostForGood(lex, rows, j + 1, |rows|);
    }
  }

  /** Merging a list changes nothing exactly when its rows are pairwise distinct. */
  lemma MergingIsIdleIffDistinct(lex: Lexicon, rows: seq<Row>)
    ensures Kept(lex, rows, |rows|) == rows <==> PairwiseDistinct(lex, rows)
  {
    assert rows[..|rows|] == rows;
    if PairwiseDistinct(lex, rows) {
      DistinctRowsStay(lex, rows, |rows|);
    } else {
      var i, j :| 0 <= i < j < |rows| && Mergeable(lex, rows[i], rows[j]);
      RepeatCostsARow(lex, rows, i, j);
    }
  }

  // ---------------------------------------------------------------- the page a kept row shows

  /** The rows agree on everything but what a merge collects: confidence, queries and additional sources. */
  predicate SameKey(a: Row, b: Row) {
    a == b.(confidence := a.confidence, queries := a.queries, additional := a.additional)
  }

  /** Candidate `i` is the first member of row `k` with a website, or its first member when none has one. */
  ghost predicate IsPrimary(candidates: seq<Row>, owners: seq<nat>, k: nat, i: nat) {
    && i < |owners| <= |candidates| && owners[i] == k
    && forall j | 0 <= j < |owners| && owners[j] == k ::
        if HasWebsite(candidates[i]) then j < i ==> !HasWebsite(candidates[j])
                                                         else i <= j && !HasWebsite(candidates[j])
  }

  /** Every kept row shows its first member with a website, or its first member. */
  ghost predicate ShowsPages(candidates: seq<Row>, s: Moment) {
    && |s.shown| == |s.kept| && |s.owners| <= |candidates|
    && (forall i | 0 <= i < |s.owners| :: s.owners[i] < |s.kept|)
    && (forall k | 0 <= k < |s.kept| ::
        IsPrimary(candidates, s.owners, k, s.shown[k]) && SameKey(s.kept[k], candidates[s.shown[k]]))
  }

  lemma OneMoreShown(lex: Lexicon, candidates: seq<Row>, s: Moment)
    requires |s.owners| < |candidates| && ShowsPages(candidates, s)
    ensures ShowsPages(candidates, Next(lex, s, candidates[|s.owners|]))
  {
    var c := candidates[|s.owners|];
    var t, next := Place(lex, s.kept, c), Next(lex, s, c);
    assert t < |s.kept| ==> MergesWith(lex, c)(s.kept[t]);
    forall k | 0 <= k < |next.kept|
      ensures IsPrimary(candidates, next.owners, k, next.shown[k]) && SameKey(next.kept[k], candidates[next.shown[k]])
    {
      assert k < |s.kept| ==> IsPrimary(candidates, s.owners, k, s.shown[k]);
    }
  }

  lemma KeptRowsShowTheirPrimaryPage(lex: Lexicon, candidates: seq<Row>, n: nat)
    requires n <= |candidates|
    ensures After(lex, candidates, n).kept == Kept(lex, candidates, n)
        && ShowsPages(candidates, After(lex, candidates, n))
  {
    var inv := (s: Moment) => ShowsPages(candidates, s);
    forall s: Moment, k: nat | k < |candidates| && |s.owners| == k && inv(s)
      ensures inv(Next(lex, s, candidates[k]))
    {
      OneMoreShown(lex, candidates, s);
    }
    EveryMoment(lex, candidates, n, inv);
    AfterKeeps(lex, candidates, n);
    assert inv(After(lex, candidates, n));
  }

  /** A row whose page came after the page of an earlier row is not the entity of that row. */
  ghost predicate InOrder(lex: Lexicon, candidates: seq<Row>, shown: seq<nat>) {
    forall a, b | 0 <= a < b < |shown| && shown[a] < shown[b] < |candidates| ::
        !Mergeable(lex, candidates[shown[a]], candidates[shown[b]])
  }

  lemma OneMoreInOrder(lex: Lexicon, candidates: seq<Row>, s: Moment)
    requires |s.owners| < |candidates| && ShowsPages(candidates, s) && InOrder(lex, candidates, s.shown)
    ensures InOrder(lex, candidates, Next(lex, s, candidates[|s.owners|]).shown)
  {
    var c := candidates[|s.owners|];
    var next := Next(lex, s, c).shown;
    forall a, b | 0 <= a < b < |next| && next[a] < next[b] < |candidates|
      ensures !Mergeable(lex, candidates[next[a]], candidates[next[b]])
    {
      assert a < |s.kept| ==>
          IsPrimary(candidates, s.owners, a, s.shown[a]) && SameKey(s.kept[a], candidates[s.shown[a]]);
      assert b < |s.kept| ==> IsPrimary(candidates, s.owners, b, s.shown[b]);
      if next[b] == |s.owners| {
        assert !MergesWith(lex, c)(s.kept[a]);
      }
    }
  }

  lemma ShownInOrder(lex: Lexicon, candidates: seq<Row>, n: nat)
    requires n <= |candidates|
    ensures InOrder(lex, candidates, After(lex, candidates, n).shown)
  {
    var inv := (s: Moment) => ShowsPages(candidates, s) && InOrder(lex, candidates, s.shown);
    forall s: Moment, k: nat | k < |candidates| && |s.owners| == k && inv(s)
      ensures inv(Next(lex, s, candidates[k]))
    {
      OneMoreShown(lex, candidates, s);
      OneMoreInOrder(lex, candidates, s);
    }
    EveryMoment(lex, candidates, n, inv);
    assert inv(After(lex, candidates, n));
  }

  /** Row `a` adopted its page after the page of the later row `b` was read, and the two pages are one entity. */
  ghost predicate AdoptedInto(lex: Lexicon, candidates: seq<Row>, shown: seq<nat>, a: nat, b: nat) {
    a < b < |shown| && shown[b] < shown[a] < |candidates| && Mergeable(lex, candidates[shown[a]], candidates[shown[b]])
  }

  lemma StillOneEntityIff(lex: Lexicon, candidates: seq<Row>, s: Moment, a: nat, b: nat)
    requires ShowsPages(candidates, s) && InOrder(lex, candidates, s.shown) && a < b < |s.kept|
    ensures Mergeable(lex, s.kept[a], s.kept[b]) <==> AdoptedInto(lex, candidates, s.shown, a, b)
  {
    assert IsPrimary(candidates, s.owners, a, s.shown[a]) && SameKey(s.kept[a], candidates[s.shown[a]]);
    assert IsPrimary(candidates, s.owners, b, s.shown[b]) && SameKey(s.kept[b], candidates[s.shown[b]]);
    assert s.shown[a] != s.shown[b];
  }

  lemma DistinctIff(lex: Lexicon, candidates: seq<Row>, s: Moment)
    requires ShowsPages(candidates, s) && InOrder(lex, candidates, s.shown)
    ensures PairwiseDistinct(lex, s.kept) <==> forall a: nat, b: nat :: !AdoptedInto(lex, candidates, s.shown, a, b)
  {
    if PairwiseDistinct(lex, s.kept) {
      forall a: nat, b: nat
        ensures !AdoptedInto(lex, candidates, s.shown, a, b)
      {
        if a < b < |s.kept| {
          StillOneEntityIff(lex, candidates, s, a, b);
        }
      }
    } else {
      var a, b :| 0 <= a < b < |s.kept| && Mergeable(lex, s.kept[a], s.kept[b]);
      StillOneEntityIff(lex, candidates, s, a, b);
      assert AdoptedInto(lex, candidates, s.shown, a, b);
    }
  }

  /**
   Merging the merged list changes nothing exactly when no row adopted a page of the entity a later row already had.
   */
  lemma MergingTwiceIsMergingOnceIff(lex: Lexicon, candidates: seq<Row>)
    ensures var kept, shown := Kept(lex, candidates, |candidates|), After(lex, candidates, |candidates|).shown;
            && (PairwiseDistinct(lex, kept) <==> forall a: nat, b: nat :: !AdoptedInto(lex, candidates, shown, a, b))
            && (Kept(lex, kept, |kept|) == kept
                <==> forall a: nat, b: nat :: !AdoptedInto(lex, candidates, shown, a, b))
  {
    KeptRowsShowTheirPrimaryPage(lex, candidates, |candidates|);
    ShownInOrder(lex, candidates, |candidates|);
    DistinctIff(lex, candidates, After(lex, candidates, |candidates|));
    MergingIsIdleIffDistinct(lex, Kept(lex, candidates, |candidates|));
  }

  /** A row shows the page that opened it, or one that page was merged into and that brought the row its website. */
  ghost predicate OpenedBy(lex: Lexicon, candidates: seq<Row>, s: Moment, k: nat)
    requires k < |s.openers| && k < |s.shown| && |s.owners| <= |candidates|
  {
    && s.openers[k] <= s.shown[k] < |s.owners|
    && (s.openers[k] < s.shown[k] ==>
          && Mergeable(lex, candidates[s.openers[k]], candidates[s.shown[k]])
          && Adopts(candidates[s.openers[k]], candidates[s.shown[k]]))
  }

  ghost predicate RightlyOpened(lex: Lexicon, candidates: seq<Row>, s: Moment) {
    && |s.openers| == |s.shown| && |s.owners| <= |candidates|
    && (forall a, b | 0 <= a < b < |s.openers| :: s.openers[a] < s.openers[b])
    && (forall k | 0 <= k < |s.openers| :: OpenedBy(lex, candidates, s, k))
  }

  lemma OneMoreOpened(lex: Lexicon, candidates: seq<Row>, s: Moment)
    requires |s.owners| < |candidates| && ShowsPages(candidates, s) && RightlyOpened(lex, candidates, s)
    ensures RightlyOpened(lex, candidates, Next(lex, s, candidates[|s.owners|]))
  {
    var c := candidates[|s.owners|];
    var t, next := Place(lex, s.kept, c), Next(lex, s, c);
    if t < |s.kept| {
      assert MergesWith(lex, c)(s.kept[t]) && SameKey(s.kept[t], candidates[s.shown[t]]);
    }
    assert forall k | 0 <= k < |s.openers| :: OpenedBy(lex, candidates, s, k) && s.openers[k] < |s.owners|;
    forall k | 0 <= k < |next.openers|
      ensures OpenedBy(lex, candidates, next, k)
    {
      assert k < |s.openers| ==> OpenedBy(lex, candidates, s, k);
    }
  }

  lemma AlwaysRightlyOpened(lex: Lexicon, candidates: seq<Row>, n: nat)
    requires n <= |candidates|
    ensures RightlyOpened(lex, candidates, After(lex, candidates, n)) && |After(lex, candidates, n).owners| == n
  {
    var inv := (s: Moment) => ShowsPages(candidates, s) && RightlyOpened(lex, candidates, s);
    forall s: Moment, k: nat | k < |candidates| && |s.owners| == k && inv(s)
      ensures inv(Next(lex, s, candidates[k]))
    {
      OneMoreShown(lex, candidates, s);
      OneMoreOpened(lex, candidates, s);
    }
    EveryMoment(lex, candidates, n, inv);
    assert inv(After(lex, candidates, n));
  }

  /**
   No page brings its website to the entity of an earlier page while a page read between the two is that entity too.
   */
  ghost predicate NothingInBetween(lex: Lexicon, candidates: seq<Row>) {
    forall i, k, j | 0 <= i < k < j < |candidates| :: !Bridges(lex, candidates[i], candidates[k], candidates[j])
  }

  predicate Bridges(lex: Lexicon, first: Row, between: Row, c: Row) {
    Mergeable(lex, first, c) && Adopts(first, c) && Mergeable(lex, c, between)
  }

  /**
   What can be checked on the list itself: merging twice is merging once when no page bridges an earlier one without a
   website and one read between them. A mention followed by its own site is no obstacle.
   */
  lemma MergingTwiceIsMergingOnce(lex: Lexicon, candidates: seq<Row>)
    requires NothingInBetween(lex, candidates)
    ensures var kept := Kept(lex, candidates, |candidates|);
            PairwiseDistinct(lex, kept) && Kept(lex, kept, |kept|) == kept
  {
    AlwaysRightlyOpened(lex, candidates, |candidates|);
    var s := After(lex, candidates, |candidates|);
    forall a: nat, b: nat
      ensures !AdoptedInto(lex, candidates, s.shown, a, b)
    {
      if a < b < |s.shown| && s.shown[b] < s.shown[a] {
        assert OpenedBy(lex, candidates, s, a) && OpenedBy(lex, candidates, s, b);
        assert s.openers[a] < s.openers[b];
        assert !Bridges(lex, candidates[s.openers[a]], candidates[s.shown[b]], candidates[s.shown[a]]);
      }
    }
    MergingTwiceIsMergingOnceIff(lex, candidates);
  }

  function Page(name: string, website: Option<string>, siren: Option<string>): Row {
    Row(name, website, "", "", "", None, None, siren, true, None, [], [])
  }

  /**
   Otherwise it is not: a mention adopts the website another kept row already has, so the kept rows are one
   entity too many and a second merge would merge them.
   */
  lemma MergingTwiceCanMergeMore(lex: Lexicon)
    requires lex.entityCore("Bar") == "bar" && lex.entityCore("Foo") == "foo" && lex.hasDistinctiveName("Bar")
    requires lex.registrableDomain("https://w.fr") == Some("w.fr")
    ensures var rows :=
        [Page("Bar", None, None), Page("Foo", Some("https://w.fr"), None), Page("Bar", Some("https://w.fr"), None)];
            && |Kept(lex, rows, 3)| == 2
            && Mergeable(lex, Kept(lex, rows, 3)[0], Kept(lex, rows, 3)[1])
  {
    var rows :=
        [Page("Bar", None, None), Page("Foo", Some("https://w.fr"), None), Page("Bar", Some("https://w.fr"), None)];
    FirstIndexIs([], MergesWith(lex, rows[0]), 0);
    assert Kept(lex, rows, 1) == [rows[0]];
    FirstIndexIs([rows[0]], MergesWith(lex, rows[1]), 1);
    assert Kept(lex, rows, 2) == [rows[0], rows[1]];
    FirstIndexIs([rows[0], rows[1]], MergesWith(lex, rows[2]), 0);
  }

  // ---------------------------------------------------------------- legal identifiers

  /** Two members of one kept row carry different identifiers. */
  ghost predicate Meet(candidates: seq<Row>, owners: seq<nat>) {
    exists i, j | 0 <= i < |owners| && 0 <= j < |owners| :: Differ(candidates, owners, i, j)
  }

  ghost predicate Differ(candidates: seq<Row>, owners: seq<nat>, i: nat, j: nat)
    requires i < |owners| && j < |owners|
  {
    && owners[i] == owners[j] && i < |candidates| && j < |candidates|
    && candidates[i].siren.Some? && candidates[j].siren.Some? && candidates[i].siren != candidates[j].siren
  }

  /** A page with an identifier joins a row that shows none although one of its members has another. */
  ghost predicate Confuses(lex: Lexicon, candidates: seq<Row>, s: Moment, c: Row) {
    var t := Place(lex, s.kept, c);
    && t < |s.kept| && c.siren.Some? && s.kept[t].siren.None?
    && exists i | 0 <= i < |s.owners| :: OtherMember(candidates, s, t, c, i)
  }

  /** Member `i` of row `t` has another identifier than the page. */
  ghost predicate OtherMember(candidates: seq<Row>, s: Moment, t: nat, c: Row, i: nat)
    requires i < |s.owners|
  {
    s.owners[i] == t && i < |candidates| && candidates[i].siren.Some? && candidates[i].siren != c.siren
  }

  lemma MeetingStays(candidates: seq<Row>, owners: seq<nat>, t: nat)
    requires Meet(candidates, owners)
    ensures Meet(candidates, owners + [t])
  {
    var i, j :| 0 <= i < |owners| && 0 <= j < |owners| && Differ(candidates, owners, i, j);
    assert Differ(candidates, owners + [t], i, j);
  }

  /** A page that does not confuse the row it joins agrees with its members when they agree among themselves. */
  lemma OldMembersAgree(lex: Lexicon, candidates: seq<Row>, s: Moment, c: Row, i: nat)
    requires |s.owners| < |candidates| && c == candidates[|s.owners|] && ShowsPages(candidates, s) && i < |s.owners|
    requires !Meet(candidates, s.owners) && !Confuses(lex, candidates, s, c)
    ensures c.siren.Some? ==> !OtherMember(candidates, s, Place(lex, s.kept, c), c, i)
  {
    var t := Place(lex, s.kept, c);
    if c.siren.Some? && s.owners[i] == t && candidates[i].siren.Some? {
      assert MergesWith(lex, c)(s.kept[t]);
      assert SameKey(s.kept[t], candidates[s.shown[t]]) && IsPrimary(candidates, s.owners, t, s.shown[t]);
      assert !Differ(candidates, s.owners, i, s.shown[t]);
    }
  }

  lemma OneMoreMeets(lex: Lexicon, candidates: seq<Row>, s: Moment, c: Row)
    requires |s.owners| < |candidates| && c == candidates[|s.owners|] && ShowsPages(candidates, s)
    ensures Meet(candidates, Next(lex, s, c).owners) <==> Meet(candidates, s.owners) || Confuses(lex, candidates, s, c)
  {
    var t, n := Place(lex, s.kept, c), |s.owners|;
    var more := s.owners + [t];
    if Meet(candidates, s.owners) {
      MeetingStays(candidates, s.owners, t);
    } else if Confuses(lex, candidates, s, c) {
      var i :| 0 <= i < n && OtherMember(candidates, s, t, c, i);
      assert Differ(candidates, more, i, n);
    } else {
      forall i, j | 0 <= i < n + 1 && 0 <= j < n + 1
        ensures !Differ(candidates, more, i, j)
      {
        if i < n && j < n {
          assert !Differ(candidates, s.owners, i, j);
        } else if i != j {
          OldMembersAgree(lex, candidates, s, c, if i == n then j else i);
        }
      }
    }
  }

  /** What only some steps bring about, and no step undoes, holds in the end exactly when there was such a step. */
  lemma {:induction false} BroughtAbout(state: nat -> bool, brings: nat -> bool, limit: nat, n: nat)
    requires n <= limit && !state(0)
    requires forall m: nat, k: nat | k == m + 1 <= limit :: state(k) <==> state(m) || brings(m)
    ensures state(n) <==> exists m: nat | m < n :: brings(m)
    decreases n
  {
    if n > 0 {
      BroughtAbout(state, brings, limit, n - 1);
      assert state(n) <==> state(n - 1) || brings(n - 1);
    }
  }

  ghost function Meeting(lex: Lexicon, candidates: seq<Row>): nat -> bool {
    (m: nat) => m <= |candidates| && Meet(candidates, After(lex, candidates, m).owners)
  }

  /** Candidate `m` confuses the row it joins. */
  ghost function Confusing(lex: Lexicon, candidates: seq<Row>): nat -> bool {
    (m: nat) => m < |candidates| && Confuses(lex, candidates, After(lex, candidates, m), candidates[m])
  }

  lemma MeetingStep(lex: Lexicon, candidates: seq<Row>, m: nat)
    requires m < |candidates|
    ensures Meeting(lex, candidates)(m + 1) <==> Meeting(lex, candidates)(m) || Confusing(lex, candidates)(m)
  {
    KeptRowsShowTheirPrimaryPage(lex, candidates, m);
    AfterKeeps(lex, candidates, m);
    OneMoreMeets(lex, candidates, After(lex, candidates, m), candidates[m]);
  }

  /**
   Two identifiers meet in one kept row exactly when some page with an identifier joins a row that shows none
   although one of its members has another.
   */
  lemma IdentifiersMeetIff(lex: Lexicon, candidates: seq<Row>, n: nat)
    requires n <= |candidates|
    ensures Meet(candidates, After(lex, candidates, n).owners)
       <==> exists m: nat | m < n :: Confuses(lex, candidates, After(lex, candidates, m), candidates[m])
  {
    var state, brings := Meeting(lex, candidates), Confusing(lex, candidates);
    forall m: nat, k: nat | k == m + 1 <= |candidates|
      ensures state(k) <==> state(m) || brings(m)
    {
      MeetingStep(lex, candidates, m);
    }
    BroughtAbout(state, brings, |candidates|, n);
    assert state(n) <==> Meet(candidates, After(lex, candidates, n).owners);
    forall m: nat | m < n
      ensures brings(m) <==> Confuses(lex, candidates, After(lex, candidates, m), candidates[m])
    {
    }
  }

  /**
   The pages can be attributed to companies: an identifier names its company, and a page that is the entity of an
   earlier one belongs to the same company. Pages without an identifier may belong to any.
   */
  ghost predicate Attributed(lex: Lexicon, candidates: seq<Row>, company: nat -> string) {
    && (forall i | 0 <= i < |candidates| && candidates[i].siren.Some? :: company(i) == candidates[i].siren.value)
    && (forall i, j | 0 <= i < j < |candidates| && Mergeable(lex, candidates[i], candidates[j]) ::
        company(i) == company(j))
  }

  /** Every member belongs to the company of the page its row shows. */
  ghost predicate OneCompanyEach(s: Moment, company: nat -> string) {
    forall i {:trigger s.owners[i]} | 0 <= i < |s.owners| && s.owners[i] < |s.shown| ::
        company(i) == company(s.shown[s.owners[i]])
  }

  lemma JoinsItsCompany(lex: Lexicon, candidates: seq<Row>, s: Moment, company: nat -> string)
    requires |s.owners| < |candidates| && ShowsPages(candidates, s) && Attributed(lex, candidates, company)
    requires Place(lex, s.kept, candidates[|s.owners|]) < |s.kept|
    ensures company(|s.owners|) == company(s.shown[Place(lex, s.kept, candidates[|s.owners|])])
  {
    var c := candidates[|s.owners|];
    var t := Place(lex, s.kept, c);
    assert MergesWith(lex, c)(s.kept[t]);
    assert SameKey(s.kept[t], candidates[s.shown[t]]) && IsPrimary(candidates, s.owners, t, s.shown[t]);
    assert Mergeable(lex, candidates[s.shown[t]], c);
  }

  lemma OneMoreOfTheCompany(lex: Lexicon, candidates: seq<Row>, s: Moment, company: nat -> string)
    requires |s.owners| < |candidates| && ShowsPages(candidates, s)
    requires Attributed(lex, candidates, company) && OneCompanyEach(s, company)
    ensures OneCompanyEach(Next(lex, s, candidates[|s.owners|]), company)
  {
    var t, next := Place(lex, s.kept, candidates[|s.owners|]), Next(lex, s, candidates[|s.owners|]);
    if t < |s.kept| {
      JoinsItsCompany(lex, candidates, s, company);
    }
    forall i | 0 <= i < |next.owners| && next.owners[i] < |next.shown|
      ensures company(i) == company(next.shown[next.owners[i]])
    {
      if i < |s.owners| {
        assert next.owners[i] == s.owners[i] < |s.shown|;
      }
    }
  }

  lemma MembersAreOfOneCompany(lex: Lexicon, candidates: seq<Row>, n: nat, company: nat -> string)
    requires n <= |candidates| && Attributed(lex, candidates, company)
    ensures OneCompanyEach(After(lex, candidates, n), company)
  {
    var inv := (s: Moment) => ShowsPages(candidates, s) && OneCompanyEach(s, company);
    forall s: Moment, k: nat | k < |candidates| && |s.owners| == k && inv(s)
      ensures inv(Next(lex, s, candidates[k]))
    {
      OneMoreShown(lex, candidates, s);
      OneMoreOfTheCompany(lex, candidates, s, company);
    }
    EveryMoment(lex, candidates, n, inv);
    assert inv(After(lex, candidates, n));
  }

  /**
   Where every member is of one company, no identifiers meet, and a row shows no identifier its members do not have.
   */
  lemma OneCompanyOneIdentifier(lex: Lexicon, candidates: seq<Row>, s: Moment, company: nat -> string)
    requires ShowsPages(candidates, s) && Attributed(lex, candidates, company) && OneCompanyEach(s, company)
    ensures !Meet(candidates, s.owners)
    ensures forall i | 0 <= i < |s.owners| && candidates[i].siren.Some? ::
        IdentifierKept(candidates[i], s.kept, s.owners[i])
  {
    forall i, j | 0 <= i < |s.owners| && 0 <= j < |s.owners|
      ensures !Differ(candidates, s.owners, i, j)
    {
      assert s.owners[i] < |s.shown| && s.owners[j] < |s.shown|;
    }
    forall i | 0 <= i < |s.owners| && candidates[i].siren.Some?
      ensures IdentifierKept(candidates[i], s.kept, s.owners[i])
    {
      var k := s.owners[i];
      assert IsPrimary(candidates, s.owners, k, s.shown[k]) && SameKey(s.kept[k], candidates[s.shown[k]]);
    }
  }

  /** The row shows no other identifier than the page's. */
  predicate IdentifierKept(c: Row, kept: seq<Row>, k: nat) {
    k < |kept| && (kept[k].siren.Some? ==> kept[k].siren == c.siren)
  }

  /**
   When the pages can be attributed to companies, no two identifiers meet, and a row that shows an identifier shows
   the one of every member that has one.
   */
  lemma OneIdentifierPerRow(lex: Lexicon, candidates: seq<Row>, company: nat -> string)
    requires Attributed(lex, candidates, company)
    ensures var s := After(lex, candidates, |candidates|);
            && !Meet(candidates, s.owners) && |s.owners| == |candidates|
            && forall i | 0 <= i < |s.owners| && candidates[i].siren.Some? ::
                IdentifierKept(candidates[i], s.kept, s.owners[i])
  {
    AfterKeeps(lex, candidates, |candidates|);
    KeptRowsShowTheirPrimaryPage(lex, candidates, |candidates|);
    MembersAreOfOneCompany(lex, candidates, |candidates|, company);
    OneCompanyOneIdentifier(lex, candidates, After(lex, candidates, |candidates|), company);
  }

  /** A page that is the entity of the only kept row, seen as a step of the merge. */
  lemma JoinsOnlyRow(lex: Lexicon, r: Row, c: Row, owners: seq<nat>, shown: nat)
    requires Mergeable(lex, r, c)
    ensures Next(lex, Moment([r], owners, [0], [shown]), c)
         == Moment([Merged(r, c)], owners + [0], [0], [if Adopts(r, c) then |owners| else shown])
  {
    FirstIndexIs([r], MergesWith(lex, c), 0);
  }

  /** Three pages that all go to one row. */
  lemma ThreeInOneRow(lex: Lexicon, a: Row, b: Row, c: Row)
    requires Mergeable(lex, a, b) && Mergeable(lex, Merged(a, b), c) && !Adopts(Merged(a, b), c)
    ensures After(lex, [a, b, c], 3)
         == Moment([Merged(Merged(a, b), c)], [0, 0, 0], [0], [if Adopts(a, b) then 1 else 0])
  {
    var rows := [a, b, c];
    FirstIndexIs([], MergesWith(lex, a), 0);
    assert After(lex, rows, 0) == Moment([], [], [], []);
    assert After(lex, rows, 1) == Moment([a], [0], [0], [0]);
    JoinsOnlyRow(lex, a, b, [0], 0);
    assert After(lex, rows, 2) == Moment([Merged(a, b)], [0, 0], [0], [if Adopts(a, b) then 1 else 0]);
    JoinsOnlyRow(lex, Merged(a, b), c, [0, 0], if Adopts(a, b) then 1 else 0);
  }

  /**
   Two different identifiers can meet through an adoption: the first company's mention adopts an unidentified page
   of the same name, and the second company shares that page's site.
   */
  lemma TwoIdentifiersCanMeet(lex: Lexicon)
    requires lex.entityCore("Foo") == "foo" && lex.hasDistinctiveName("Foo")
    requires lex.registrableDomain("https://w.fr") == Some("w.fr")
    ensures var w := Some("https://w.fr");
            var rows := [Page("Foo", None, Some("1")), Page("Foo", w, None), Page("Baz", w, Some("2"))];
            After(lex, rows, 3).owners == [0, 0, 0] && After(lex, rows, 3).shown == [1]
                && Meet(rows, After(lex, rows, 3).owners)
  {
    var w := Some("https://w.fr");
    var a, b, c := Page("Foo", None, Some("1")), Page("Foo", w, None), Page("Baz", w, Some("2"));
    assert lex.SameOrganization("Foo", "Foo");
    ThreeInOneRow(lex, a, b, c);
    assert Differ([a, b, c], [0, 0, 0], 0, 2);
  }

  /** They can also meet without one: a page without an identifier opens the row, and each company shares its site. */
  lemma TwoIdentifiersCanMeetOnOneSite(lex: Lexicon)
    requires lex.registrableDomain("https://w.fr") == Some("w.fr")
    ensures var w := Some("https://w.fr");
            var rows := [Page("Foo", w, None), Page("Bar", w, Some("1")), Page("Baz", w, Some("2"))];
            After(lex, rows, 3).owners == [0, 0, 0] && After(lex, rows, 3).shown == [0]
                && Meet(rows, After(lex, rows, 3).owners)
  {
    var w := Some("https://w.fr");
    var a, b, c := Page("Foo", w, None), Page("Bar", w, Some("1")), Page("Baz", w, Some("2"));
    ThreeInOneRow(lex, a, b, c);
    assert Differ([a, b, c], [0, 0, 0], 1, 2);
  }
}
