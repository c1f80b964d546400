// Which prospect, run and result a novelty of novelty-engine.ts names, read off the stored rows alone, and when a
// result that was stored is recognized as it comes back.
module NoveltyNames {
  import opened Text
  import opened NoveltyEngine

  // ---------------------------------------------------------------- the stored rows

  /** The basis on which a stored result is the same actor, at the place of its own run when it has no town. */
  function ResultBasis(lex: Lexicon, memory: ProjectMemory, id: Identity, i: nat): Option<Basis>
    requires i < |memory.results|
  {
    var r := memory.results[i];
    SameActor(lex, id, ResultIdentity(lex, r, LocationOf(memory.runs, r.runId)))
  }

  function ProspectBasis(lex: Lexicon, memory: ProjectMemory, id: Identity, i: nat): Option<Basis>
    requires i < |memory.prospects|
  {
    SameActor(lex, id, ProspectIdentity(lex, memory.prospects[i]))
  }

  /** A prospect is recognized on any basis but a shared page. */
  predicate ProspectMatches(lex: Lexicon, memory: ProjectMemory, id: Identity, i: nat)
    requires i < |memory.prospects|
  {
    ProspectBasis(lex, memory, id, i) in {Some(ByDomain), Some(ByPhone), Some(ByNameAndLocation)}
  }

  predicate ProspectExists(memory: ProjectMemory, prospectId: Option<string>) {
    Truthy(prospectId) && exists i | 0 <= i < |memory.prospects| :: memory.prospects[i].id == prospectId.value
  }

  /** A stored result that was accepted, and whose prospect is still there. */
  predicate BecameProspect(memory: ProjectMemory, i: nat)
    requires i < |memory.results|
  {
    memory.results[i].status == "accepted" && ProspectExists(memory, memory.results[i].prospectId)
  }

  /** `i` is the first stored result that matches and is of the wanted kind. */
  ghost predicate IsFirstMatch(lex: Lexicon, memory: ProjectMemory, id: Identity, wanted: nat -> bool, i: nat) {
    && i < |memory.results| && ResultBasis(lex, memory, id, i).Some? && wanted(i)
    && forall k | 0 <= k < i :: !(ResultBasis(lex, memory, id, k).Some? && wanted(k))
  }

  ghost function Accepted(memory: ProjectMemory): nat -> bool {
    (i: nat) => i < |memory.results| && BecameProspect(memory, i)
  }

  ghost function Dismissed(memory: ProjectMemory): nat -> bool {
    (i: nat) => i < |memory.results| && memory.results[i].status == "ignored"
  }

  ghost function Anything(): nat -> bool {
    (i: nat) => true
  }

  // ---------------------------------------------------------------- what a novelty names

  /** The novelty points at this stored result and its run. */
  predicate PointsAt(memory: ProjectMemory, n: Novelty, i: nat)
    requires i < |memory.results|
  {
    n.runId == Some(memory.results[i].runId) && n.resultId == Some(memory.results[i].id)
  }

  predicate PointsNowhere(n: Novelty) {
    n.runId == None && n.resultId == None
  }

  ghost predicate SomeProspectMatches(lex: Lexicon, memory: ProjectMemory, id: Identity) {
    exists i | 0 <= i < |memory.prospects| :: ProspectMatches(lex, memory, id, i)
  }

  ghost predicate IsFirstProspect(lex: Lexicon, memory: ProjectMemory, id: Identity, i: nat) {
    && i < |memory.prospects| && ProspectMatches(lex, memory, id, i)
    && forall k | 0 <= k < i :: !ProspectMatches(lex, memory, id, k)
  }

  /**
   An added actor names the prospect it is linked to; else the first prospect it matches; else the prospect of the
   first matching result that became one.
   */
  ghost predicate NamesItsProspect(lex: Lexicon, memory: ProjectMemory, id: Identity, link: Option<string>,
                                   n: Novelty)
  {
    if ProspectExists(memory, link) then n.prospectId == link && n.basis == Some(ProspectLink) && PointsNowhere(n)
    else if SomeProspectMatches(lex, memory, id) then
      exists i: nat | IsFirstProspect(lex, memory, id, i) ::
        && n.prospectId == Some(memory.prospects[i].id) && n.basis == ProspectBasis(lex, memory, id, i)
        && PointsNowhere(n)
    else
      exists i: nat | IsFirstMatch(lex, memory, id, Accepted(memory), i) ::
        && n.prospectId == memory.results[i].prospectId && n.basis == Some(ProspectLink) && PointsAt(memory, n, i)
  }

  /** The novelty points at the first match of the wanted kind, with the basis of that match and no prospect. */
  ghost predicate NamesItsMatch(lex: Lexicon, memory: ProjectMemory, id: Identity, wanted: nat -> bool, n: Novelty) {
    exists i: nat | IsFirstMatch(lex, memory, id, wanted, i) ::
      n.prospectId == None && n.basis == ResultBasis(lex, memory, id, i) && PointsAt(memory, n, i)
  }

  /**
   What every novelty names, over the rows as they are stored, newest first: an added actor its prospect, an ignored
   one the first dismissed result that matches, a seen one the first result that matches, and the others nothing.
   */
  lemma NoveltyNamesItsMatch(lex: Lexicon, memory: ProjectMemory, current: seq<Identity>, id: Identity,
                             link: Option<string>)
    ensures var n := ClassifyByScan(lex, KnownProspects(lex, memory), KnownResults(lex, memory), current, id, link);
            match n.status
            case Added => NamesItsProspect(lex, memory, id, link, n)
            case Ignored => NamesItsMatch(lex, memory, id, Dismissed(memory), n)
            case Seen => NamesItsMatch(lex, memory, id, Anything(), n)
            case New | CurrentRunDuplicate => n.basis == None && n.prospectId == None && PointsNowhere(n)
  {
    LinkAndProspectsFirst(lex, memory, current, id, link);
    HitsNameTheirMatch(lex, memory, id);
  }

  /** The remembered results are read only for an actor that is not linked to a prospect and matches none. */
  lemma LinkAndProspectsFirst(lex: Lexicon, memory: ProjectMemory, current: seq<Identity>, id: Identity,
                              link: Option<string>)
    ensures var results := KnownResults(lex, memory);
            var hits := Scan(lex, id, results, |results|);
            var n := ClassifyByScan(lex, KnownProspects(lex, memory), results, current, id, link);
            && (forall h | h in hits :: h.at < |results|)
            && if n.status == CurrentRunDuplicate then n == Novelty(CurrentRunDuplicate, None, None, None, None)
               else if ProspectExists(memory, link) || SomeProspectMatches(lex, memory, id) then
                 n.status == Added && NamesItsProspect(lex, memory, id, link, n)
               else n == FromHits(results, IdsOf(KnownProspects(lex, memory)), hits)
  {
    ScanBounds(lex, id, KnownResults(lex, memory), |memory.results|);
    IdsAreStored(lex, memory, link);
    FirstProspect(lex, memory, id, FirstIndex(KnownProspects(lex, memory), IsProspectMatch(lex, id)));
  }

  /** The part of the classification that reads the remembered results. */
  lemma HitsNameTheirMatch(lex: Lexicon, memory: ProjectMemory, id: Identity)
    ensures var results := KnownResults(lex, memory);
            var hits := Scan(lex, id, results, |results|);
            && (forall h | h in hits :: h.at < |results|)
            && var n := FromHits(results, IdsOf(KnownProspects(lex, memory)), hits);
            match n.status
            case Added =>
              exists i: nat | IsFirstMatch(lex, memory, id, Accepted(memory), i) ::
                && n.prospectId == memory.results[i].prospectId && n.basis == Some(ProspectLink)
                && PointsAt(memory, n, i)
            case Ignored => NamesItsMatch(lex, memory, id, Dismissed(memory), n)
            case Seen => NamesItsMatch(lex, memory, id, Anything(), n)
            case New | CurrentRunDuplicate => n.basis == None && n.prospectId == None && PointsNowhere(n)
  {
    var results, ids := KnownResults(lex, memory), IdsOf(KnownProspects(lex, memory));
    ScanBounds(lex, id, results, |results|);
    KindsAgree(lex, memory);
    FirstHitIsFirstMatch(lex, memory, id, IsAddedHit(results, ids), Accepted(memory));
    FirstHitIsFirstMatch(lex, memory, id, IsIgnoredHit(results), Dismissed(memory));
    FirstHitIsFirstMatch(lex, memory, id, (h: Hit) => true, Anything());
  }

  lemma IdsAreStored(lex: Lexicon, memory: ProjectMemory, prospectId: Option<string>)
    ensures ProspectExists(memory, prospectId)
       <==> Truthy(prospectId) && prospectId.value in IdsOf(KnownProspects(lex, memory))
  {
    var known := KnownProspects(lex, memory);
    if i :| 0 <= i < |memory.prospects| && Truthy(prospectId) && memory.prospects[i].id == prospectId.value {
      assert known[i] in known;
    }
  }

  lemma KindsAgree(lex: Lexicon, memory: ProjectMemory)
    ensures var results, ids := KnownResults(lex, memory), IdsOf(KnownProspects(lex, memory));
            forall h: Hit | h.at < |memory.results| ::
              && (IsAddedHit(results, ids)(h) <==> Accepted(memory)(h.at))
              && (IsIgnoredHit(results)(h) <==> Dismissed(memory)(h.at))
  {
    forall h: Hit | h.at < |memory.results|
      ensures ProspectExists(memory, memory.results[h.at].prospectId)
         <==> Truthy(memory.results[h.at].prospectId)
              && memory.results[h.at].prospectId.value in IdsOf(KnownProspects(lex, memory))
    {
      IdsAreStored(lex, memory, memory.results[h.at].prospectId);
    }
  }

  lemma FirstProspect(lex: Lexicon, memory: ProjectMemory, id: Identity, at: nat)
    requires at == FirstIndex(KnownProspects(lex, memory), IsProspectMatch(lex, id))
    ensures at < |memory.prospects| <==> SomeProspectMatches(lex, memory, id)
    ensures at < |memory.prospects| ==> IsFirstProspect(lex, memory, id, at)
  {
    var known := KnownProspects(lex, memory);
    assert forall i | 0 <= i < |memory.prospects| ::
        IsProspectMatch(lex, id)(known[i]) <==> ProspectMatches(lex, memory, id, i);
  }

  predicate InOrder(hits: seq<Hit>) {
    forall a, b | 0 <= a < b < |hits| :: hits[a].at < hits[b].at
  }

  /** The hits of a scan come in memory order. */
  lemma {:induction false} ScanIsInOrder(lex: Lexicon, id: Identity, results: seq<KnownResult>, n: nat)
    requires n <= |results|
    ensures InOrder(Scan(lex, id, results, n))
    decreases n
  {
    if n > 0 {
      ScanIsInOrder(lex, id, results, n - 1);
      ScanBounds(lex, id, results, n - 1);
      var hits, basis := Scan(lex, id, results, n - 1), SameActor(lex, id, results[n - 1].id);
      assert Scan(lex, id, results, n) == hits + if basis.Some? then [Hit(n - 1, basis.value)] else [];
    }
  }

  /** The first hit of a kind is the first stored match of that kind, with its basis. */
  lemma FirstHitIsFirstMatch(lex: Lexicon, memory: ProjectMemory, id: Identity, kind: Hit -> bool, wanted: nat -> bool)
    requires forall h: Hit | h.at < |memory.results| :: kind(h) <==> wanted(h.at)
    ensures var results := KnownResults(lex, memory);
            var hits := Scan(lex, id, results, |results|);
            var first := FirstIndex(hits, kind);
            first < |hits| ==> && IsFirstMatch(lex, memory, id, wanted, hits[first].at)
                               && ResultBasis(lex, memory, id, hits[first].at) == Some(hits[first].basis)
  {
    var results := KnownResults(lex, memory);
    var hits := Scan(lex, id, results, |results|);
    var first := FirstIndex(hits, kind);
    ScanBounds(lex, id, results, |results|);
    ScanIsInOrder(lex, id, results, |results|);
    if first < |hits| {
      assert hits[first] in hits && InOrder(hits);
      forall k | 0 <= k < hits[first].at && ResultBasis(lex, memory, id, k).Some?
        ensures !wanted(k)
      {
        var h := Hit(k, SameActor(lex, id, results[k].id).value);
        assert h in hits;
        var m :| 0 <= m < |hits| && hits[m] == h;
      }
    }
  }

  // ---------------------------------------------------------------- places and returning actors

  /** Entry `i` is the last one of the run. */
  predicate IsLastOne(runs: seq<RunLocation>, id: string, i: nat)
    requires i < |runs|
  {
    runs[i].id == id && forall k | i < k < |runs| :: runs[k].id != id
  }

  lemma LastOneStays(init: seq<RunLocation>, last: RunLocation, id: string)
    requires last.id != id
    ensures var runs := init + [last];
            && ((forall i | 0 <= i < |runs| :: runs[i].id != id) <==> forall i | 0 <= i < |init| :: init[i].id != id)
            && forall i | 0 <= i < |runs| && IsLastOne(runs, id, i) :: i < |init| && IsLastOne(init, id, i)
  {
    var runs := init + [last];
    assert forall i | 0 <= i < |init| :: runs[i] == init[i];
    assert runs[|init|] == last;
  }

  /** The place of a run is the one of its last entry. */
  lemma {:induction false} LocationIsTheLastOne(runs: seq<RunLocation>, id: string)
    ensures LocationOf(runs, id).None? <==> forall i | 0 <= i < |runs| :: runs[i].id != id
    ensures forall i | 0 <= i < |runs| && IsLastOne(runs, id, i) :: LocationOf(runs, id) == Some(runs[i].location)
  {
    if runs != [] {
      var init, last := runs[..|runs| - 1], runs[|runs| - 1];
      assert runs == init + [last];
      LocationIsTheLastOne(init, id);
      if last.id != id {
        LastOneStays(init, last, id);
      }
    }
  }

  /**
   Only a resolved organization's own name and site count: a page of another class lends none of them, nor does a name
   or a site with another status; a null status silences a new result and not a stored one.
   */
  lemma OnlyOwnNameAndSite(lex: Lexicon, s: Subject, r: ResultMemory, place: Option<string>)
    requires StoredAs(s, r)
    ensures var shown, stored := SubjectIdentity(lex, s, place), ResultIdentity(lex, r, place);
            && shown.phone == stored.phone == lex.Phone(s.phone) && shown.url == stored.url
            && shown.location == stored.location == (if s.city.Some? then s.city else place)
            && (s.sourceClass.Value? && s.sourceClass.text != "COMPANY_CANDIDATE" ==>
                  shown.name == stored.name == None && shown.domain == stored.domain == None)
            && (s.nameStatus.Value? && s.nameStatus.text != "RESOLVED" ==> shown.name == stored.name == None)
            && (s.domainStatus.Value? && s.domainStatus.text != "RESOLVED" ==> shown.domain == stored.domain == None)
            && (!s.sourceClass.Value? || s.sourceClass.text == "COMPANY_CANDIDATE" ==>
                  && (s.nameStatus == Undefined || s.nameStatus == Value("RESOLVED") ==>
                        shown.name == stored.name == Some(s.name))
                  && (s.domainStatus == Undefined || s.domainStatus == Value("RESOLVED") ==>
                        shown.domain == stored.domain == lex.Domain(s.website))
                  && (s.nameStatus == Null ==> shown.name == None && stored.name == Some(s.name))
                  && (s.domainStatus == Null ==> shown.domain == None && stored.domain == lex.Domain(s.website)))
  {
  }

  /** The row keeps what the subject shows. */
  predicate StoredAs(s: Subject, r: ResultMemory) {
    && r.name == s.name && r.website == s.website && r.phone == s.phone && r.city == s.city
    && r.sourceUrl == s.sourceUrl && r.sourceClass == s.sourceClass && r.nameStatus == s.nameStatus
    && r.domainStatus == s.domainStatus
  }

  /** The identity shows something that recognizes it: a site, a phone, a page, or a distinctive name at a place. */
  predicate Recognizable(lex: Lexicon, id: Identity) {
    || (Truthy(id.domain) && (!Truthy(id.location) || lex.Norm(id.location) != ""))
    || Truthy(id.phone) || Truthy(id.url)
    || (Truthy(id.name) && lex.SameOrganization(id.name.value, id.name.value) && lex.Norm(id.location) != "")
  }

  /** A subject that was stored is recognized when it comes back in the same place, exactly when it is recognizable. */
  lemma StoredIsRecognizedIff(lex: Lexicon, memory: ProjectMemory, s: Subject, i: nat)
    requires i < |memory.results| && StoredAs(s, memory.results[i])
    ensures var id := SubjectIdentity(lex, s, LocationOf(memory.runs, memory.results[i].runId));
            ResultBasis(lex, memory, id, i).Some? <==> Recognizable(lex, id)
  {
  }

  /** Places agree in both directions, and a place agrees with itself and any longer way of naming it. */
  lemma PlacesAgree(lex: Lexicon, a: Option<string>, b: Option<string>, more: string)
    ensures CompatibleLocation(lex, a, b) == CompatibleLocation(lex, b, a)
    ensures lex.Norm(a) == "" ==> !CompatibleLocation(lex, a, b)
    ensures lex.Norm(a) != "" && (lex.Norm(b) == lex.Norm(a) || lex.Norm(b) == lex.Norm(a) + " " + more) ==>
              CompatibleLocation(lex, a, b)
  {
    var x := lex.Norm(a);
    var hay, needle := " " + (x + " " + more) + " ", " " + x + " ";
    assert OccursAt(hay, needle, 0);
  }

  /** Two websites are two actors, unless they answer one phone or were found on one page. */
  lemma TwoSitesAreTwoActors(lex: Lexicon, a: Identity, b: Identity)
    requires Truthy(a.domain) && Truthy(b.domain) && a.domain != b.domain
    ensures SameActor(lex, a, b) == if SameText(a.phone, b.phone) then Some(ByPhone)
                                    else if SameText(a.url, b.url) then Some(BySourceUrl) else None
  {
  }
}
