// Which pages the merge of admissibility.ts brings together, in terms of identifiers, websites and names, and when two
// different websites meet in one candidate although the design forbids it.
module EntityMerge {
  import opened Text
  import opened Admissibility

  // ---------------------------------------------------------------- what makes two pages one organization

  /** Both pages show a legal identifier. */
  predicate BothIdentified(a: Row, b: Row) {
    a.siren.Some? && b.siren.Some?
  }

  /** The page is on a site whose registrable domain is known. */
  predicate HasDomain(lex: Lexicon, r: Row) {
    Truthy(r.website) && Truthy(lex.registrableDomain(r.website.value))
  }

  predicate SameDomain(lex: Lexicon, a: Row, b: Row) {
    HasDomain(lex, a) && HasDomain(lex, b)
    && lex.registrableDomain(a.website.value) == lex.registrableDomain(b.website.value)
  }

  predicate TwoDomains(lex: Lexicon, a: Row, b: Row) {
    HasDomain(lex, a) && HasDomain(lex, b) && !SameDomain(lex, a, b)
  }

  predicate SameIdentifier(a: Row, b: Row) {
    BothIdentified(a, b) && a.siren.value == b.siren.value
  }

  /** One canonical name of at least three letters, and the first spelling is distinctive. */
  predicate SameDistinctiveName(lex: Lexicon, a: Row, b: Row) {
    && lex.entityCore(a.name) == lex.entityCore(b.name) && |lex.entityCore(a.name)| >= 3
    && lex.hasDistinctiveName(a.name)
  }

  /** The three grounds of a merge; an identifier on both sides silences the other two, two sites silence the name. */
  predicate OneOrganization(lex: Lexicon, a: Row, b: Row) {
    || SameIdentifier(a, b)
    || (!BothIdentified(a, b) && SameDomain(lex, a, b))
    || (!BothIdentified(a, b) && !(HasDomain(lex, a) && HasDomain(lex, b)) && SameDistinctiveName(lex, a, b))
  }

  /** The page and the row it could join are both admissible and one organization. */
  predicate MayJoin(lex: Lexicon, row: Row, c: Row) {
    row.admissible && c.admissible && OneOrganization(lex, row, c)
  }

  lemma MergeableIff(lex: Lexicon, row: Row, c: Row)
    ensures Mergeable(lex, row, c) <==> MayJoin(lex, row, c)
  {
  }

  /**
   A page joins the first kept row it may join, which shows the page of one of its members; it opens a row of its own
   exactly when it may join none.
   */
  lemma JoinsIffOneOrganization(lex: Lexicon, candidates: seq<Row>, n: nat)
    requires n < |candidates|
    ensures |After(lex, candidates, n + 1).owners| == n + 1
    ensures var before, after := After(lex, candidates, n), After(lex, candidates, n + 1);
            var t, c := after.owners[n], candidates[n];
            && |before.shown| == |before.kept| && (forall k | 0 <= k < |before.kept| :: before.shown[k] < n)
            && t <= |before.kept|
            && (forall k | 0 <= k < t :: !MayJoin(lex, candidates[before.shown[k]], c))
            && if t < |before.kept| then MayJoin(lex, candidates[before.shown[t]], c)
                    && after.kept == before.kept[t := Merged(before.kept[t], c)]
               else after.kept == before.kept + [c]
  {
    KeptRowsShowTheirPrimaryPage(lex, candidates, n);
    AfterKeeps(lex, candidates, n);
    var before, c := After(lex, candidates, n), candidates[n];
    forall k | 0 <= k < |before.kept|
      ensures before.shown[k] < n
          && (MergesWith(lex, c)(before.kept[k]) <==> MayJoin(lex, candidates[before.shown[k]], c))
    {
      assert IsPrimary(candidates, before.owners, k, before.shown[k])
          && SameKey(before.kept[k], candidates[before.shown[k]]);
      MergeableIff(lex, before.kept[k], c);
    }
  }

  // ---------------------------------------------------------------- two websites in one row

  /** Two members of one kept row are on sites of two different domains. */
  ghost predicate SitesMeet(lex: Lexicon, candidates: seq<Row>, owners: seq<nat>) {
    exists i, j | 0 <= i < |owners| && 0 <= j < |owners| :: OnTwoSites(lex, candidates, owners, i, j)
  }

  ghost predicate OnTwoSites(lex: Lexicon, candidates: seq<Row>, owners: seq<nat>, i: nat, j: nat)
    requires i < |owners| && j < |owners|
  {
    && owners[i] == owners[j] && i < |candidates| && j < |candidates|
    && TwoDomains(lex, candidates[i], candidates[j])
  }

  /** Member `i` of row `t` is on another site than the page. */
  ghost predicate OnAnotherSite(lex: Lexicon, candidates: seq<Row>, s: Moment, t: nat, c: Row, i: nat)
    requires i < |s.owners|
  {
    s.owners[i] == t && i < |candidates| && TwoDomains(lex, candidates[i], c)
  }

  /**
   A page with a site joins a row that shows another site, by the identifier they share; or a row that shows a
   website without a domain, although one of its members is on another site.
   */
  ghost predicate Crosses(lex: Lexicon, candidates: seq<Row>, s: Moment, c: Row) {
    var t := Place(lex, s.kept, c);
    && t < |s.kept|
    && (|| (TwoDomains(lex, s.kept[t], c) && SameIdentifier(s.kept[t], c))
        || (&& HasWebsite(s.kept[t]) && !HasDomain(lex, s.kept[t])
            && exists i | 0 <= i < |s.owners| :: OnAnotherSite(lex, candidates, s, t, c, i)))
  }

  lemma SitesStayMet(lex: Lexicon, candidates: seq<Row>, owners: seq<nat>, t: nat)
    requires SitesMeet(lex, candidates, owners)
    ensures SitesMeet(lex, candidates, owners + [t])
  {
    var i, j :| 0 <= i < |owners| && 0 <= j < |owners| && OnTwoSites(lex, candidates, owners, i, j);
    assert OnTwoSites(lex, candidates, owners + [t], i, j);
  }

  /** A page that crosses no site joins a row whose members are on its own site, if they were on one. */
  lemma MembersOnOneSite(lex: Lexicon, candidates: seq<Row>, s: Moment, c: Row, i: nat)
    requires |s.owners| < |candidates| && c == candidates[|s.owners|] && ShowsPages(candidates, s) && i < |s.owners|
    requires !SitesMeet(lex, candidates, s.owners) && !Crosses(lex, candidates, s, c)
    ensures !OnAnotherSite(lex, candidates, s, Place(lex, s.kept, c), c, i)
  {
    var t := Place(lex, s.kept, c);
    if t < |s.kept| {
      assert MergesWith(lex, c)(s.kept[t]);
      assert SameKey(s.kept[t], candidates[s.shown[t]]) && IsPrimary(candidates, s.owners, t, s.shown[t]);
      assert !OnTwoSites(lex, candidates, s.owners, i, s.shown[t]);
    }
  }

  lemma OneMoreCrosses(lex: Lexicon, candidates: seq<Row>, s: Moment, c: Row)
    requires |s.owners| < |candidates| && c == candidates[|s.owners|] && ShowsPages(candidates, s)
    ensures SitesMeet(lex, candidates, Next(lex, s, c).owners)
       <==> SitesMeet(lex, candidates, s.owners) || Crosses(lex, candidates, s, c)
  {
    var t, n := Place(lex, s.kept, c), |s.owners|;
    var more := s.owners + [t];
    if SitesMeet(lex, candidates, s.owners) {
      SitesStayMet(lex, candidates, s.owners, t);
    } else if Crosses(lex, candidates, s, c) {
      CrossingMeets(lex, candidates, s, c);
    } else {
      forall i, j | 0 <= i < n + 1 && 0 <= j < n + 1
        ensures !OnTwoSites(lex, candidates, more, i, j)
      {
        if i < n && j < n {
          assert !OnTwoSites(lex, candidates, s.owners, i, j);
        } else if i != j {
          MembersOnOneSite(lex, candidates, s, c, if i == n then j else i);
        }
      }
    }
  }

  lemma CrossingMeets(lex: Lexicon, candidates: seq<Row>, s: Moment, c: Row)
    requires |s.owners| < |candidates| && c == candidates[|s.owners|] && ShowsPages(candidates, s)
    requires Crosses(lex, candidates, s, c)
    ensures SitesMeet(lex, candidates, s.owners + [Place(lex, s.kept, c)])
  {
    var t, n := Place(lex, s.kept, c), |s.owners|;
    var more := s.owners + [t];
    if TwoDomains(lex, s.kept[t], c) {
      assert SameKey(s.kept[t], candidates[s.shown[t]]) && IsPrimary(candidates, s.owners, t, s.shown[t]);
      assert OnTwoSites(lex, candidates, more, s.shown[t], n);
    } else {
      var i :| 0 <= i < n && OnAnotherSite(lex, candidates, s, t, c, i);
      assert OnTwoSites(lex, candidates, more, i, n);
    }
  }

  ghost function Met(lex: Lexicon, candidates: seq<Row>): nat -> bool {
    (m: nat) => m <= |candidates| && SitesMeet(lex, candidates, After(lex, candidates, m).owners)
  }

  ghost function Crossing(lex: Lexicon, candidates: seq<Row>): nat -> bool {
    (m: nat) => m < |candidates| && Crosses(lex, candidates, After(lex, candidates, m), candidates[m])
  }

  lemma CrossingStep(lex: Lexicon, candidates: seq<Row>, m: nat)
    requires m < |candidates|
    ensures Met(lex, candidates)(m + 1) <==> Met(lex, candidates)(m) || Crossing(lex, candidates)(m)
  {
    KeptRowsShowTheirPrimaryPage(lex, candidates, m);
    AfterKeeps(lex, candidates, m);
    OneMoreCrosses(lex, candidates, After(lex, candidates, m), candidates[m]);
  }

  /**
   Two different sites meet in one kept row exactly when some page joined a row by an identifier that shows another
   site, or joined by its name a row that shows a website without a domain and has a member elsewhere.
   */
  lemma SitesMeetIff(lex: Lexicon, candidates: seq<Row>, n: nat)
    requires n <= |candidates|
    ensures SitesMeet(lex, candidates, After(lex, candidates, n).owners)
       <==> exists m: nat | m < n :: Crosses(lex, candidates, After(lex, candidates, m), candidates[m])
  {
    var state, brings := Met(lex, candidates), Crossing(lex, candidates);
    forall m: nat, k: nat | k == m + 1 <= |candidates|
      ensures state(k) <==> state(m) || brings(m)
    {
      CrossingStep(lex, candidates, m);
    }
    BroughtAbout(state, brings, |candidates|, n);
    assert state(n) <==> SitesMeet(lex, candidates, After(lex, candidates, n).owners);
    forall m: nat | m < n
      ensures brings(m) <==> Crosses(lex, candidates, After(lex, candidates, m), candidates[m])
    {
    }
  }

  /** Every website has a domain, and pages that share an identifier are not on two sites. */
  predicate SitesAreClear(lex: Lexicon, candidates: seq<Row>) {
    && (forall i | 0 <= i < |candidates| && HasWebsite(candidates[i]) :: HasDomain(lex, candidates[i]))
    && (forall i, j | 0 <= i < |candidates| && 0 <= j < |candidates| && SameIdentifier(candidates[i], candidates[j]) ::
        !TwoDomains(lex, candidates[i], candidates[j]))
  }

  /** Then two pages of different sites are never brought together, whatever their names. */
  lemma TwoSitesAreNeverMerged(lex: Lexicon, candidates: seq<Row>)
    requires SitesAreClear(lex, candidates)
    ensures !SitesMeet(lex, candidates, After(lex, candidates, |candidates|).owners)
  {
    forall m: nat | m < |candidates|
      ensures !Crosses(lex, candidates, After(lex, candidates, m), candidates[m])
    {
      KeptRowsShowTheirPrimaryPage(lex, candidates, m);
      AfterKeeps(lex, candidates, m);
      ClearPagesDoNotCross(lex, candidates, After(lex, candidates, m), candidates[m]);
    }
    SitesMeetIff(lex, candidates, |candidates|);
  }

  lemma ClearPagesDoNotCross(lex: Lexicon, candidates: seq<Row>, s: Moment, c: Row)
    requires |s.owners| < |candidates| && c == candidates[|s.owners|] && ShowsPages(candidates, s)
    requires SitesAreClear(lex, candidates)
    ensures !Crosses(lex, candidates, s, c)
  {
    var t := Place(lex, s.kept, c);
    if t < |s.kept| {
      assert SameKey(s.kept[t], candidates[s.shown[t]]) && IsPrimary(candidates, s.owners, t, s.shown[t]);
    }
  }

  /**
   The rule that two websites never meet can fail: a page whose website has no registrable domain opens the row, and
   two pages of its name join it, each with a site of its own.
   */
  lemma TwoSitesCanMeet(lex: Lexicon)
    requires lex.entityCore("Martin") == "martin" && lex.hasDistinctiveName("Martin")
    requires lex.registrableDomain("http://10.0.0.1") == None
    requires lex.registrableDomain("https://a.fr") == Some("a.fr")
        && lex.registrableDomain("https://b.fr") == Some("b.fr")
    ensures var rows := [Page("Martin", Some("http://10.0.0.1"), None), Page("Martin", Some("https://a.fr"), None),
                         Page("Martin", Some("https://b.fr"), None)];
            After(lex, rows, 3).owners == [0, 0, 0] && SitesMeet(lex, rows, After(lex, rows, 3).owners)
  {
    var a, b, c := Page("Martin", Some("http://10.0.0.1"), None), Page("Martin", Some("https://a.fr"), None),
        Page("Martin", Some("https://b.fr"), None);
    assert lex.SameOrganization("Martin", "Martin");
    ThreeInOneRow(lex, a, b, c);
    assert OnTwoSites(lex, [a, b, c], [0, 0, 0], 1, 2);
  }

  // ---------------------------------------------------------------- what a kept row collects

  /** A kept row has the best confidence when a member has it, and otherwise the confidence of the page it shows. */
  ghost predicate ConfidentAsShown(candidates: seq<Row>, s: Moment) {
    && |s.shown| == |s.kept|
    && forall k | 0 <= k < |s.kept| :: s.shown[k] < |candidates|
        && (!IsHigh(s.kept[k]) ==> s.kept[k].confidence == candidates[s.shown[k]].confidence)
  }

  lemma OneMoreConfident(lex: Lexicon, candidates: seq<Row>, s: Moment)
    requires |s.owners| < |candidates| && ConfidentAsShown(candidates, s)
    ensures ConfidentAsShown(candidates, Next(lex, s, candidates[|s.owners|]))
  {
  }

  lemma AlwaysConfidentAsShown(lex: Lexicon, candidates: seq<Row>, n: nat)
    requires n <= |candidates|
    ensures ConfidentAsShown(candidates, After(lex, candidates, n))
  {
    var inv := (s: Moment) => ConfidentAsShown(candidates, s);
    forall s: Moment, k: nat | k < |candidates| && |s.owners| == k && inv(s)
      ensures inv(Next(lex, s, candidates[k]))
    {
      OneMoreConfident(lex, candidates, s);
    }
    EveryMoment(lex, candidates, n, inv);
    assert inv(After(lex, candidates, n));
  }

  lemma {:induction false} UniqueKeeps(words: seq<string>, n: nat, word: string)
    requires n <= |words|
    ensures word in Unique(words, n) <==> word in words[..n]
    decreases n
  {
    if n > 0 {
      UniqueKeeps(words, n - 1, word);
      assert words[..n] == words[..n - 1] + [words[n - 1]];
    }
  }

  function Is(word: string): string -> bool {
    (other: string) => other == word
  }

  /** Each word comes once, in order of first appearance. */
  lemma {:induction false} UniqueInOrder(words: seq<string>, n: nat)
    requires n <= |words|
    ensures var kept := Unique(words, n);
            && (forall a | 0 <= a < |kept| :: FirstIndex(words, Is(kept[a])) < n)
            && (forall a, b | 0 <= a < b < |kept| :: FirstIndex(words, Is(kept[a])) < FirstIndex(words, Is(kept[b])))
    decreases n
  {
    if n > 0 {
      UniqueInOrder(words, n - 1);
      UniqueKeeps(words, n - 1, words[n - 1]);
      assert Is(words[n - 1])(words[n - 1]);
      if words[n - 1] !in Unique(words, n - 1) {
        forall k | 0 <= k < n - 1
          ensures words[k] != words[n - 1]
        {
          assert words[k] in words[..n - 1];
        }
        FirstIndexIs(words, Is(words[n - 1]), n - 1);
      }
    }
  }

  /** The queries of a merged row: those of the row and of the page, each once, the row's own first. */
  lemma MergedQueries(target: Row, c: Row)
    ensures var all, merged := target.queries + c.queries, Merged(target, c).queries;
            && (forall query :: query in merged <==> query in target.queries || query in c.queries)
            && (forall a, b | 0 <= a < b < |merged| :: FirstIndex(all, Is(merged[a])) < FirstIndex(all, Is(merged[b])))
  {
    var all := target.queries + c.queries;
    assert Merged(target, c).queries == Unique(all, |all|);
    UniqueInOrder(all, |all|);
    forall query
      ensures query in Unique(all, |all|) <==> query in target.queries || query in c.queries
    {
      UniqueKeeps(all, |all|, query);
      assert all[..|all|] == all;
    }
  }

  ghost function ReachedBy(query: string): Row -> bool {
    (r: Row) => query in r.queries
  }

  /**
   What a kept row collects: the best confidence when a member has it, else the one of the page it shows; and exactly
   the queries that reached one of its members.
   */
  lemma KeptRowsCollect(lex: Lexicon, candidates: seq<Row>, n: nat, query: string)
    requires n <= |candidates|
    ensures var s := After(lex, candidates, n);
            && |s.shown| == |s.kept| && s.kept == Kept(lex, candidates, n)
            && (forall k | 0 <= k < |s.kept| ::
                  && s.shown[k] < |candidates|
                  && s.kept[k].confidence == if SomeMember(candidates, s.owners, k, IsHigh) then RESOLVED_HIGH
                                             else candidates[s.shown[k]].confidence)
            && HoldsByMembers(candidates, s.kept, s.owners, ReachedBy(query))
  {
    AfterKeeps(lex, candidates, n);
    AlwaysConfidentAsShown(lex, candidates, n);
    KeptRowsSpeakForTheirMembers(lex, candidates, n);
    forall target: Row, c: Row
      ensures ReachedBy(query)(Merged(target, c)) <==> ReachedBy(query)(target) || ReachedBy(query)(c)
    {
      MergedQueries(target, c);
    }
    PropertyOfMembers(lex, candidates, n, ReachedBy(query));
  }
}
