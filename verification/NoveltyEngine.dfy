// The project memory of novelty-engine.ts: four hash indexes over the remembered results, proved to find exactly
// what a plain scan of the whole memory finds, and the classification of every result of a run.
module NoveltyEngine {
  import opened Text

  // ---------------------------------------------------------------- the remembered rows

  /** A metadata field: an absent field is told from a null one. */
  datatype Field = Undefined | Null | Value(text: string)

  datatype Subject = Subject(name: string, website: Option<string>, phone: Option<string>, city: Option<string>,
                             sourceUrl: string, sourceClass: Field, nameStatus: Field, domainStatus: Field)

  datatype ProspectMemory = ProspectMemory(id: string, name: string, website: Option<string>, phone: Option<string>,
                                           city: Option<string>)

  datatype ResultMemory = ResultMemory(id: string, runId: string, status: string, prospectId: Option<string>,
                                       name: string, website: Option<string>, phone: Option<string>,
      city: Option<string>, sourceUrl: string, sourceClass: Field, nameStatus: Field, domainStatus: Field)

  datatype RunLocation = RunLocation(id: string, location: string)

  datatype ProjectMemory = ProjectMemory(prospects: seq<ProspectMemory>, results: seq<ResultMemory>,
                                         runs: seq<RunLocation>)

  datatype Basis = ProspectLink | ByDomain | ByPhone | ByNameAndLocation | BySourceUrl

  datatype Status = New | Seen | Added | Ignored | CurrentRunDuplicate

  datatype Novelty = Novelty(status: Status, basis: Option<Basis>, prospectId: Option<string>,
                             runId: Option<string>, resultId: Option<string>)

  // ---------------------------------------------------------------- identities

  datatype Identity = Identity(domain: Option<string>, phone: Option<string>, name: Option<string>,
                               location: Option<string>, url: Option<string>)

  predicate IsCompany(sourceClass: Field) {
    sourceClass.Undefined? || sourceClass.Null? || sourceClass == Value("COMPANY_CANDIDATE")
  }

  function PageUrl(lex: Lexicon, url: string): Option<string> {
    if url == "" then None else lex.urlOf(url)
  }

  /** A subject's own name and domain count unless a status says otherwise; here a null status does say otherwise. */
  function SubjectIdentity(lex: Lexicon, s: Subject, runLocation: Option<string>): Identity {
    var nameOk := IsCompany(s.sourceClass) && (s.nameStatus.Undefined? || s.nameStatus == Value("RESOLVED"));
    var domainOk := IsCompany(s.sourceClass) && (s.domainStatus.Undefined? || s.domainStatus == Value("RESOLVED"));
    Identity(if domainOk then lex.Domain(s.website) else None, lex.Phone(s.phone), if nameOk then Some(s.name)
             else None,
             OrElse(s.city, runLocation), PageUrl(lex, s.sourceUrl))
  }

  /** A remembered result: a null status is as good as an absent one. */
  function ResultIdentity(lex: Lexicon, r: ResultMemory, runLocation: Option<string>): Identity {
    var nameOk := IsCompany(r.sourceClass) && (!r.nameStatus.Value? || r.nameStatus == Value("RESOLVED"));
    var domainOk := IsCompany(r.sourceClass) && (!r.domainStatus.Value? || r.domainStatus == Value("RESOLVED"));
    Identity(if domainOk then lex.Domain(r.website) else None, lex.Phone(r.phone), if nameOk then Some(r.name)
             else None,
             OrElse(r.city, runLocation), PageUrl(lex, r.sourceUrl))
  }

  function ProspectIdentity(lex: Lexicon, p: ProspectMemory): Identity {
    Identity(lex.Domain(p.website), lex.Phone(p.phone), Some(p.name), p.city, None)
  }

  /** Same place, or one place named as a whole phrase inside the other; an unknown place is compatible with nothing. */
  predicate CompatibleLocation(lex: Lexicon, a: Option<string>, b: Option<string>) {
    var x, y := lex.Norm(a), lex.Norm(b);
    x != "" && y != "" && (x == y || Contains(" " + y + " ", " " + x + " ") || Contains(" " + x + " ", " " + y + " "))
  }

  predicate SameText(a: Option<string>, b: Option<string>) {
    Truthy(a) && Truthy(b) && a == b
  }

  predicate SameDomainAndPlace(lex: Lexicon, a: Identity, b: Identity) {
    && SameText(a.domain, b.domain)
    && (!Truthy(a.location) || !Truthy(b.location) || CompatibleLocation(lex, a.location, b.location))
  }

  /** Both sides are named, no website contradicts the name, and the places agree. */
  predicate NamesMayDecide(lex: Lexicon, a: Identity, b: Identity) {
    && Truthy(a.name) && Truthy(b.name)
    && !(Truthy(a.domain) && Truthy(b.domain) && a.domain != b.domain)
    && CompatibleLocation(lex, a.location, b.location)
  }

  /** Whether two identities are the same actor, and on which basis, strongest first. */
  function SameActor(lex: Lexicon, a: Identity, b: Identity): Option<Basis> {
    if SameDomainAndPlace(lex, a, b) then Some(ByDomain)
    else if SameText(a.phone, b.phone) then Some(ByPhone)
    else if NamesMayDecide(lex, a, b) && lex.SameOrganization(a.name.value, b.name.value) then Some(ByNameAndLocation)
    else if SameText(a.url, b.url) then Some(BySourceUrl)
    else None
  }

  // ---------------------------------------------------------------- the plain scan

  datatype KnownProspect = KnownProspect(row: ProspectMemory, id: Identity)
  datatype KnownResult = KnownResult(row: ResultMemory, id: Identity)
  datatype Hit = Hit(at: nat, basis: Basis)

  /** Every remembered result that is the same actor, in memory order, with its basis: no index is used. */
  function Scan(lex: Lexicon, id: Identity, results: seq<KnownResult>, n: nat): seq<Hit>
    requires n <= |results|
  {
    if n == 0 then []
    else
      var basis := SameActor(lex, id, results[n - 1].id);
      Scan(lex, id, results, n - 1) + if basis.Some? then [Hit(n - 1, basis.value)] else []
  }

  function IdsOf(prospects: seq<KnownProspect>): set<string> {
    set p | p in prospects :: p.row.id
  }

  function IsProspectMatch(lex: Lexicon, id: Identity): KnownProspect -> bool {
    (p: KnownProspect) => SameActor(lex, id, p.id).Some? && SameActor(lex, id, p.id) != Some(BySourceUrl)
  }

  function IsAddedHit(results: seq<KnownResult>, ids: set<string>): Hit -> bool {
    (h: Hit) => && h.at < |results| && results[h.at].row.status == "accepted"
         && Truthy(results[h.at].row.prospectId) && results[h.at].row.prospectId.value in ids
  }

  function IsIgnoredHit(results: seq<KnownResult>): Hit -> bool {
    (h: Hit) => h.at < |results| && results[h.at].row.status == "ignored"
  }

  /** What the hits say, once no prospect matched: added, then ignored, then seen, then new. */
  function FromHits(results: seq<KnownResult>, ids: set<string>, hits: seq<Hit>): Novelty
    requires forall h | h in hits :: h.at < |results|
  {
    var added, ignored := FirstIndex(hits, IsAddedHit(results, ids)), FirstIndex(hits, IsIgnoredHit(results));
    if added < |hits| then
      var r := results[hits[added].at].row;
      Novelty(Added, Some(ProspectLink), r.prospectId, Some(r.runId), Some(r.id))
    else if ignored < |hits| then
      var r := results[hits[ignored].at].row;
      Novelty(Ignored, Some(hits[ignored].basis), None, Some(r.runId), Some(r.id))
    else if |hits| > 0 then
      var r := results[hits[0].at].row;
      Novelty(Seen, Some(hits[0].basis), None, Some(r.runId), Some(r.id))
    else Novelty(New, None, None, None, None)
  }

  lemma {:induction false} ScanBounds(lex: Lexicon, id: Identity, results: seq<KnownResult>, n: nat)
    requires n <= |results|
    ensures forall h | h in Scan(lex, id, results, n) ::
        h.at < n && SameActor(lex, id, results[h.at].id) == Some(h.basis)
    ensures forall i | 0 <= i < n && SameActor(lex, id, results[i].id).Some? ::
              Hit(i, SameActor(lex, id, results[i].id).value) in Scan(lex, id, results, n)
    decreases n
  {
    if n > 0 {
      ScanBounds(lex, id, results, n - 1);
    }
  }

  function RepeatsCurrent(lex: Lexicon, id: Identity): Identity -> bool {
    (c: Identity) => SameActor(lex, id, c).Some?
  }

  /** The classification by plain scans only. */
  function ClassifyByScan(lex: Lexicon, prospects: seq<KnownProspect>, results: seq<KnownResult>,
                          current: seq<Identity>, id: Identity, duplicateOf: Option<string>): Novelty
  {
    ScanBounds(lex, id, results, |results|);
    var match_ := FirstIndex(prospects, IsProspectMatch(lex, id));
    if FirstIndex(current, RepeatsCurrent(lex, id)) < |current|
        then Novelty(CurrentRunDuplicate, None, None, None, None)
    else if Truthy(duplicateOf) && duplicateOf.value in IdsOf(prospects)
        then Novelty(Added, Some(ProspectLink), duplicateOf, None, None)
    else if match_ < |prospects| then
      Novelty(Added, SameActor(lex, id, prospects[match_].id), Some(prospects[match_].row.id), None, None)
    else FromHits(results, IdsOf(prospects), Scan(lex, id, results, |results|))
  }

  // ---------------------------------------------------------------- the indexes

  /**
   `index` lists, under every key, exactly the positions whose key is that one; empty and missing keys are left out.
   */
  ghost predicate Indexes(index: map<string, seq<nat>>, keys: seq<Option<string>>) {
    && (forall k | k in index :: forall i | i in index[k] :: i < |keys| && keys[i] == Some(k))
    && (forall i | 0 <= i < |keys| && Truthy(keys[i]) :: keys[i].value in index && i in index[keys[i].value])
  }

  function Indexed(index: map<string, seq<nat>>, key: Option<string>, i: nat): map<string, seq<nat>> {
    if Truthy(key) then index[key.value := (if key.value in index then index[key.value] else []) + [i]] else index
  }

  lemma IndexedExtends(index: map<string, seq<nat>>, keys: seq<Option<string>>, key: Option<string>)
    requires Indexes(index, keys)
    ensures Indexes(Indexed(index, key, |keys|), keys + [key])
  {
    var next, all := Indexed(index, key, |keys|), keys + [key];
    forall k, i | k in next && i in next[k]
      ensures i < |all| && all[i] == Some(k)
    {
      if k in index && i in index[k] {
        assert all[i] == keys[i];
      }
    }
    forall i | 0 <= i < |all| && Truthy(all[i])
      ensures all[i].value in next && i in next[all[i].value]
    {
      if i < |keys| {
        assert all[i] == keys[i];
      }
    }
  }

  // The key of a result in each of the four indexes.
  function DomainKey(r: KnownResult): Option<string> { r.id.domain }
  function PhoneKey(r: KnownResult): Option<string> { r.id.phone }
  function UrlKey(r: KnownResult): Option<string> { r.id.url }
  function NameKey(lex: Lexicon, id: Identity): Option<string> {
    if Truthy(id.name) then Some(lex.entityCore(id.name.value)) else None
  }

  function ResultNameKey(lex: Lexicon): KnownResult -> Option<string> {
    (r: KnownResult) => NameKey(lex, r.id)
  }

  ghost function Keys(results: seq<KnownResult>, key: KnownResult -> Option<string>, n: nat): seq<Option<string>>
    requires n <= |results|
  {
    seq(n, i requires 0 <= i < n => key(results[i]))
  }

  lemma KeysThen(results: seq<KnownResult>, key: KnownResult -> Option<string>, n: nat)
    requires n < |results|
    ensures Keys(results, key, n + 1) == Keys(results, key, n) + [key(results[n])]
  {
  }

  /** Two identities that are the same actor share a non-empty key in one of the four indexes. */
  lemma SameActorSharesAKey(lex: Lexicon, a: Identity, b: Identity)
    requires SameActor(lex, a, b).Some?
    ensures || SameText(a.domain, b.domain) || SameText(a.phone, b.phone) || SameText(a.url, b.url)
            || SameText(NameKey(lex, a), NameKey(lex, b))
  {
  }

  class ProjectNovelty {
    const lex: Lexicon
    const runLocation: Option<string>
    const prospects: seq<KnownProspect>
    const results: seq<KnownResult>
    var byDomain: map<string, seq<nat>>
    var byPhone: map<string, seq<nat>>
    var byUrl: map<string, seq<nat>>
    var byName: map<string, seq<nat>>
    var current: seq<Identity>

    ghost predicate Valid()
      reads this
    {
      IndexesFirst(|results|)
    }

    /** The four indexes cover the first `n` results. */
    ghost predicate IndexesFirst(n: nat)
      reads this
    {
      && n <= |results|
      && Indexes(byDomain, Keys(results, DomainKey, n))
      && Indexes(byPhone, Keys(results, PhoneKey, n))
      && Indexes(byUrl, Keys(results, UrlKey, n))
      && Indexes(byName, Keys(results, ResultNameKey(lex), n))
    }

    constructor (lex: Lexicon, memory: ProjectMemory, runLocation: Option<string>)
      ensures Valid() && current == []
      ensures this.lex == lex && this.runLocation == runLocation
      ensures prospects == KnownProspects(lex, memory) && results == KnownResults(lex, memory)
    {
      this.lex := lex;
      this.runLocation := runLocation;
      this.prospects := KnownProspects(lex, memory);
      this.results := KnownResults(lex, memory);
      byDomain, byPhone, byUrl, byName := map[], map[], map[], map[];
      current := [];
      new;
      for i := 0 to |results|
        invariant IndexesFirst(i) && current == []
      {
        IndexResult(i);
      }
    }

    /** One turn of the constructor's loop: the next result enters each index it has a key for. */
    method IndexResult(i: nat)
      requires i < |results| && IndexesFirst(i)
      modifies this
      ensures IndexesFirst(i + 1) && current == old(current)
    {
      var key := results[i].id;
      IndexOne(i);
      byDomain := Indexed(byDomain, key.domain, i);
      byPhone := Indexed(byPhone, key.phone, i);
      byUrl := Indexed(byUrl, key.url, i);
      byName := Indexed(byName, NameKey(lex, key), i);
    }

    lemma IndexOne(n: nat)
      requires n < |results| && IndexesFirst(n)
      ensures Indexes(Indexed(byDomain, results[n].id.domain, n), Keys(results, DomainKey, n + 1))
      ensures Indexes(Indexed(byPhone, results[n].id.phone, n), Keys(results, PhoneKey, n + 1))
      ensures Indexes(Indexed(byUrl, results[n].id.url, n), Keys(results, UrlKey, n + 1))
      ensures Indexes(Indexed(byName, NameKey(lex, results[n].id), n), Keys(results, ResultNameKey(lex), n + 1))
    {
      KeysThen(results, DomainKey, n);
      KeysThen(results, PhoneKey, n);
      KeysThen(results, UrlKey, n);
      KeysThen(results, ResultNameKey(lex), n);
      IndexedExtends(byDomain, Keys(results, DomainKey, n), results[n].id.domain);
      IndexedExtends(byPhone, Keys(results, PhoneKey, n), results[n].id.phone);
      IndexedExtends(byUrl, Keys(results, UrlKey, n), results[n].id.url);
      IndexedExtends(byName, Keys(results, ResultNameKey(lex), n), NameKey(lex, results[n].id));
    }

    /** The positions an index lists under a key. */
    function Lookup(index: map<string, seq<nat>>, key: Option<string>): seq<nat> {
      if Truthy(key) && key.value in index then index[key.value] else []
    }

    /** `hits` are matches with their basis, and every match among `listed` is there. */
    ghost predicate HitsOf(hits: map<nat, Basis>, id: Identity, listed: set<nat>) {
      && (forall i | i in hits :: i < |results| && SameActor(lex, id, results[i].id) == Some(hits[i]))
      && (forall i | i in listed && i < |results| && SameActor(lex, id, results[i].id).Some? :: i in hits)
    }

    /** Adds the matches one index lists. */
    method AddHits(hits: map<nat, Basis>, list: seq<nat>, id: Identity, ghost listed: set<nat>)
        returns (more: map<nat, Basis>)
      requires forall i | i in list :: i < |results|
      requires HitsOf(hits, id, listed)
      ensures HitsOf(more, id, listed + (set i | i in list))
    {
      more := hits;
      for k := 0 to |list|
        invariant HitsOf(more, id, listed + (set i | i in list[..k]))
      {
        var i := list[k];
        assert i in list;
        var basis := SameActor(lex, id, results[i].id);
        if basis.Some? && i !in more {
          more := more[i := basis.value];
        }
        assert list[..k + 1] == list[..k] + [list[k]];
      }
      assert list[..|list|] == list;
    }

    /** The matches the four indexes list: together, all of them. */
    method FindHits(id: Identity) returns (found: map<nat, Basis>)
      requires Valid()
      ensures forall i | i in found :: i < |results| && SameActor(lex, id, results[i].id) == Some(found[i])
      ensures forall i | 0 <= i < |results| && SameActor(lex, id, results[i].id).Some? :: i in found
    {
      ListedInRange(id);
      var l0, l1 := Lookup(byDomain, id.domain), Lookup(byPhone, id.phone);
      var l2, l3 := Lookup(byUrl, id.url), Lookup(byName, NameKey(lex, id));
      ghost var s0, s1, s2, s3 := set i | i in l0, set i | i in l1, set i | i in l2, set i | i in l3;
      found := AddHits(map[], l0, id, {});
      found := AddHits(found, l1, id, {} + s0);
      found := AddHits(found, l2, id, {} + s0 + s1);
      found := AddHits(found, l3, id, {} + s0 + s1 + s2);
      forall i | 0 <= i < |results| && SameActor(lex, id, results[i].id).Some?
        ensures i in {} + s0 + s1 + s2 + s3
      {
        SameActorSharesAKey(lex, id, results[i].id);
        MatchIsListed(id, i);
      }
    }

    /** The hits of the four indexes, sorted by position, are exactly the hits of the plain scan. */
    method CollectHits(id: Identity) returns (hits: seq<Hit>)
      requires Valid()
      ensures hits == Scan(lex, id, results, |results|)
    {
      var found := FindHits(id);
      hits := [];
      for i := 0 to |results|
        invariant hits == Scan(lex, id, results, i)
      {
        if i in found {
          hits := hits + [Hit(i, found[i])];
        }
      }
    }

    lemma ListedInRange(id: Identity)
      requires Valid()
      ensures forall i | i in Lookup(byDomain, id.domain) :: i < |results|
      ensures forall i | i in Lookup(byPhone, id.phone) :: i < |results|
      ensures forall i | i in Lookup(byUrl, id.url) :: i < |results|
      ensures forall i | i in Lookup(byName, NameKey(lex, id)) :: i < |results|
    {
    }

    /** A result sharing a key with `id` is listed under that key. */
    lemma MatchIsListed(id: Identity, i: nat)
      requires Valid() && i < |results|
      ensures SameText(id.domain, results[i].id.domain) ==> i in Lookup(byDomain, id.domain)
      ensures SameText(id.phone, results[i].id.phone) ==> i in Lookup(byPhone, id.phone)
      ensures SameText(id.url, results[i].id.url) ==> i in Lookup(byUrl, id.url)
      ensures SameText(NameKey(lex, id), NameKey(lex, results[i].id)) ==> i in Lookup(byName, NameKey(lex, id))
    {
      assert Keys(results, DomainKey, |results|)[i] == results[i].id.domain;
      assert Keys(results, PhoneKey, |results|)[i] == results[i].id.phone;
      assert Keys(results, UrlKey, |results|)[i] == results[i].id.url;
      assert Keys(results, ResultNameKey(lex), |results|)[i] == NameKey(lex, results[i].id);
    }

    /** Classifies one result of the run; only a result that is not a duplicate joins the run. */
    method Classify(subject: Subject, duplicateOf: Option<string>) returns (n: Novelty)
      requires Valid()
      modifies this
      ensures Valid()
      ensures byDomain == old(byDomain) && byPhone == old(byPhone) && byUrl == old(byUrl) && byName == old(byName)
      ensures var id := SubjectIdentity(lex, subject, runLocation);
              && n == ClassifyByScan(lex, prospects, results, old(current), id, duplicateOf)
              && current == if n.status == CurrentRunDuplicate then old(current) else old(current) + [id]
    {
      var id := SubjectIdentity(lex, subject, runLocation);
      for i := 0 to |current|
        invariant forall k | 0 <= k < i :: !RepeatsCurrent(lex, id)(current[k])
      {
        if SameActor(lex, id, current[i]).Some? {
          FirstIndexIs(current, RepeatsCurrent(lex, id), i);
          return Novelty(CurrentRunDuplicate, None, None, None, None);
        }
      }
      FirstIndexIs(current, RepeatsCurrent(lex, id), |current|);
      current := current + [id];
      n := ClassifyAgainstMemory(id, duplicateOf);
    }

    /** The part of the classification that only reads the memory. */
    method ClassifyAgainstMemory(id: Identity, duplicateOf: Option<string>) returns (n: Novelty)
      requires Valid()
      ensures n.status != CurrentRunDuplicate
      ensures n == ClassifyByScan(lex, prospects, results, [], id, duplicateOf)
    {
      var ids := IdsOf(prospects);
      if Truthy(duplicateOf) && duplicateOf.value in ids {
        return Novelty(Added, Some(ProspectLink), duplicateOf, None, None);
      }
      for i := 0 to |prospects|
        invariant forall k | 0 <= k < i :: !IsProspectMatch(lex, id)(prospects[k])
      {
        var basis := SameActor(lex, id, prospects[i].id);
        if basis.Some? && basis != Some(BySourceUrl) {
          FirstIndexIs(prospects, IsProspectMatch(lex, id), i);
          return Novelty(Added, basis, Some(prospects[i].row.id), None, None);
        }
      }
      FirstIndexIs(prospects, IsProspectMatch(lex, id), |prospects|);
      var hits := CollectHits(id);
      ScanBounds(lex, id, results, |results|);
      n := FromHits(results, ids, hits);
    }
  }

  function KnownProspects(lex: Lexicon, memory: ProjectMemory): seq<KnownProspect> {
    seq(|memory.prospects|, i requires 0 <= i < |memory.prospects| =>
      KnownProspect(memory.prospects[i], ProspectIdentity(lex, memory.prospects[i])))
  }

  /** The location of a run; of two entries with the same id the last one counts. */
  function LocationOf(runs: seq<RunLocation>, id: string): Option<string> {
    if runs == [] then None
    else if runs[|runs| - 1].id == id then Some(runs[|runs| - 1].location)
    else LocationOf(runs[..|runs| - 1], id)
  }

  function KnownResults(lex: Lexicon, memory: ProjectMemory): seq<KnownResult> {
    seq(|memory.results|, i requires 0 <= i < |memory.results| =>
      KnownResult(memory.results[i],
                  ResultIdentity(lex, memory.results[i], LocationOf(memory.runs, memory.results[i].runId))))
  }

  // ---------------------------------------------------------------- what a status means

  /**
   The result is linked to a known prospect, matches one, or matches an accepted result whose prospect still exists.
   */
  ghost predicate KnownAsProspect(lex: Lexicon, prospects: seq<KnownProspect>, results: seq<KnownResult>, id: Identity,
                                  duplicateOf: Option<string>)
  {
    || (Truthy(duplicateOf) && duplicateOf.value in IdsOf(prospects))
    || MatchesProspect(lex, prospects, id)
    || MatchesAccepted(lex, IdsOf(prospects), results, id)
  }

  ghost predicate MatchesAccepted(lex: Lexicon, ids: set<string>, results: seq<KnownResult>, id: Identity) {
    (exists r | r in results :: && SameActor(lex, id, r.id).Some? && r.row.status == "accepted"
                                   && Truthy(r.row.prospectId) && r.row.prospectId.value in ids)
  }

  ghost predicate KnownAsIgnored(lex: Lexicon, results: seq<KnownResult>, id: Identity) {
    exists r | r in results :: SameActor(lex, id, r.id).Some? && r.row.status == "ignored"
  }

  ghost predicate KnownAsSeen(lex: Lexicon, results: seq<KnownResult>, id: Identity) {
    exists r | r in results :: SameActor(lex, id, r.id).Some?
  }

  ghost predicate RepeatsOneOf(lex: Lexicon, current: seq<Identity>, id: Identity) {
    exists c | c in current :: SameActor(lex, id, c).Some?
  }

  lemma HitsAreMatches(lex: Lexicon, id: Identity, results: seq<KnownResult>, ids: set<string>)
    ensures var hits := Scan(lex, id, results, |results|);
            && (forall h | h in hits :: h.at < |results|)
            && (FromHits(results, ids, hits).status == Added <==> MatchesAccepted(lex, ids, results, id))
            && (FromHits(results, ids, hits).status == Ignored <==>
                FromHits(results, ids, hits).status != Added && KnownAsIgnored(lex, results, id))
            && (FromHits(results, ids, hits).status == New <==> !KnownAsSeen(lex, results, id))
  {
    ScanBounds(lex, id, results, |results|);
    var hits := Scan(lex, id, results, |results|);
    var added, ignored := FirstIndex(hits, IsAddedHit(results, ids)), FirstIndex(hits, IsIgnoredHit(results));
    forall r | r in results && SameActor(lex, id, r.id).Some?
      ensures exists k :: 0 <= k < |hits| && results[hits[k].at] == r
    {
      var i :| 0 <= i < |results| && results[i] == r;
      var h := Hit(i, SameActor(lex, id, r.id).value);
      assert h in hits;
    }
    forall k | 0 <= k < |hits|
      ensures results[hits[k].at] in results && SameActor(lex, id, results[hits[k].at].id).Some?
      ensures added == |hits| ==> !IsAddedHit(results, ids)(hits[k])
      ensures ignored == |hits| ==> !IsIgnoredHit(results)(hits[k])
    {
      assert hits[k] in hits;
    }
  }

  /** Duplicate of the run first, then added, ignored, seen; new exactly when nothing at all is known. */
  lemma StatusIsExact(lex: Lexicon, prospects: seq<KnownProspect>, results: seq<KnownResult>, current: seq<Identity>,
                      id: Identity, duplicateOf: Option<string>)
    ensures var status := ClassifyByScan(lex, prospects, results, current, id, duplicateOf).status;
            && (status == CurrentRunDuplicate <==> RepeatsOneOf(lex, current, id))
            && (status == Added
                <==> !RepeatsOneOf(lex, current, id) && KnownAsProspect(lex, prospects, results, id, duplicateOf))
            && (status == Ignored
                <==> !RepeatsOneOf(lex, current, id) && !KnownAsProspect(lex, prospects, results, id, duplicateOf)
                                       && KnownAsIgnored(lex, results, id))
            && (status == New
                <==> !RepeatsOneOf(lex, current, id) && !KnownAsProspect(lex, prospects, results, id, duplicateOf)
                                   && !KnownAsSeen(lex, results, id))
  {
    HitsAreMatches(lex, id, results, IdsOf(prospects));
    RepeatsByIndex(lex, current, id);
    ProspectByIndex(lex, prospects, id);
  }

  lemma RepeatsByIndex(lex: Lexicon, current: seq<Identity>, id: Identity)
    ensures FirstIndex(current, RepeatsCurrent(lex, id)) < |current| <==> RepeatsOneOf(lex, current, id)
  {
    FirstIndexExists(current, RepeatsCurrent(lex, id));
    if RepeatsOneOf(lex, current, id) {
      var c :| c in current && SameActor(lex, id, c).Some?;
      assert RepeatsCurrent(lex, id)(c);
    }
  }

  ghost predicate MatchesProspect(lex: Lexicon, prospects: seq<KnownProspect>, id: Identity) {
    exists p | p in prospects :: SameActor(lex, id, p.id).Some? && SameActor(lex, id, p.id) != Some(BySourceUrl)
  }

  lemma ProspectByIndex(lex: Lexicon, prospects: seq<KnownProspect>, id: Identity)
    ensures FirstIndex(prospects, IsProspectMatch(lex, id)) < |prospects| <==> MatchesProspect(lex, prospects, id)
  {
    FirstIndexExists(prospects, IsProspectMatch(lex, id));
    if MatchesProspect(lex, prospects, id) {
      var p :| p in prospects && SameActor(lex, id, p.id).Some? && SameActor(lex, id, p.id) != Some(BySourceUrl);
      assert IsProspectMatch(lex, id)(p);
    }
  }

  // ---------------------------------------------------------------- whole runs

  datatype Item = Item(id: Identity, duplicateOf: Option<string>)

  /** The actors of the run after its first `j` results: a result joins them unless it repeats one of them. */
  ghost function ActorsAfter(lex: Lexicon, items: seq<Item>, j: nat): seq<Identity>
    requires j <= |items|
    decreases j, 0
  {
    if j == 0 then []
    else ActorsAfter(lex, items, j - 1) + if Repeats(lex, items, j - 1) then [] else [items[j - 1].id]
  }

  ghost predicate Repeats(lex: Lexicon, items: seq<Item>, j: nat)
    requires j < |items|
    decreases j, 1
  {
    RepeatsOneOf(lex, ActorsAfter(lex, items, j), items[j].id)
  }

  /** The novelty of the j-th result of the run. */
  ghost function NoveltyAt(lex: Lexicon, prospects: seq<KnownProspect>, results: seq<KnownResult>, items: seq<Item>,
                           j: nat): Novelty
    requires j < |items|
  {
    ClassifyByScan(lex, prospects, results, ActorsAfter(lex, items, j), items[j].id, items[j].duplicateOf)
  }

  lemma {:induction false} ActorsAreTheFirstOccurrences(lex: Lexicon, items: seq<Item>, j: nat, c: Identity)
    requires j <= |items|
    ensures c in ActorsAfter(lex, items, j) <==> exists i | 0 <= i < j :: items[i].id == c && !Repeats(lex, items, i)
    decreases j
  {
    if j > 0 {
      ActorsAreTheFirstOccurrences(lex, items, j - 1, c);
    }
  }

  lemma RepeatsEarlier(lex: Lexicon, items: seq<Item>, j: nat)
    requires j < |items|
    ensures Repeats(lex, items, j)
       <==> exists i | 0 <= i < j :: !Repeats(lex, items, i) && SameActor(lex, items[j].id, items[i].id).Some?
  {
    if Repeats(lex, items, j) {
      var c :| c in ActorsAfter(lex, items, j) && SameActor(lex, items[j].id, c).Some?;
      ActorsAreTheFirstOccurrences(lex, items, j, c);
    }
    if i :| 0 <= i < j && !Repeats(lex, items, i) && SameActor(lex, items[j].id, items[i].id).Some? {
      ActorsAreTheFirstOccurrences(lex, items, j, items[i].id);
    }
  }

  /**
   In every run, a result is a duplicate exactly when it is the same actor as an earlier result that is not a
   duplicate itself; any other result is NEW exactly when neither the prospects nor the memory know it.
   */
  lemma RunDuplicatesAreExact(lex: Lexicon, prospects: seq<KnownProspect>, results: seq<KnownResult>, items: seq<Item>,
                              j: nat)
    requires j < |items|
    ensures NoveltyAt(lex, prospects, results, items, j).status == CurrentRunDuplicate
       <==> exists i | 0 <= i < j :: && NoveltyAt(lex, prospects, results, items, i).status != CurrentRunDuplicate
                                     && SameActor(lex, items[j].id, items[i].id).Some?
    ensures NoveltyAt(lex, prospects, results, items, j).status == New
       <==> && NoveltyAt(lex, prospects, results, items, j).status != CurrentRunDuplicate
            && !KnownAsProspect(lex, prospects, results, items[j].id, items[j].duplicateOf)
            && !KnownAsSeen(lex, results, items[j].id)
  {
    StatusIsExact(lex, prospects, results, ActorsAfter(lex, items, j), items[j].id, items[j].duplicateOf);
    RepeatsEarlier(lex, items, j);
    forall i | 0 <= i <= j
      ensures NoveltyAt(lex, prospects, results, items, i).status == CurrentRunDuplicate <==> Repeats(lex, items, i)
    {
      DuplicateIffRepeats(lex, prospects, results, items, i);
    }
  }

  lemma DuplicateIffRepeats(lex: Lexicon, prospects: seq<KnownProspect>, results: seq<KnownResult>, items: seq<Item>,
                            i: nat)
    requires i < |items|
    ensures NoveltyAt(lex, prospects, results, items, i).status == CurrentRunDuplicate <==> Repeats(lex, items, i)
  {
    StatusIsExact(lex, prospects, results, ActorsAfter(lex, items, i), items[i].id, items[i].duplicateOf);
  }

  function ItemsOf(lex: Lexicon, subjects: seq<Subject>, links: seq<Option<string>>,
                   runLocation: Option<string>): (items: seq<Item>)
    requires |links| == |subjects|
    ensures |items| == |subjects|
    ensures forall i | 0 <= i < |items| :: items[i] == Item(SubjectIdentity(lex, subjects[i], runLocation), links[i])
  {
    seq(|subjects|, i requires 0 <= i < |subjects| => Item(SubjectIdentity(lex, subjects[i], runLocation), links[i]))
  }

  /** Classifying the j-th result of a run whose earlier results the engine has seen. */
  method ClassifyNext(engine: ProjectNovelty, subject: Subject, link: Option<string>, ghost items: seq<Item>,
                      ghost j: nat)
    returns (n: Novelty)
    requires engine.Valid() && j < |items|
    requires items[j] == Item(SubjectIdentity(engine.lex, subject, engine.runLocation), link)
    requires engine.current == ActorsAfter(engine.lex, items, j)
    modifies engine
    ensures engine.Valid() && engine.current == ActorsAfter(engine.lex, items, j + 1)
    ensures n == NoveltyAt(engine.lex, engine.prospects, engine.results, items, j)
  {
    n := engine.Classify(subject, link);
    DuplicateIffRepeats(engine.lex, engine.prospects, engine.results, items, j);
  }

  /** The novelty of the first `j` results of the run. */
  ghost function NoveltyUpTo(lex: Lexicon, prospects: seq<KnownProspect>, results: seq<KnownResult>, items: seq<Item>,
                             j: nat)
    : (run: seq<Novelty>)
    requires j <= |items|
    ensures |run| == j && forall i | 0 <= i < j :: run[i] == NoveltyAt(lex, prospects, results, items, i)
  {
    if j == 0 then []
    else NoveltyUpTo(lex, prospects, results, items, j - 1) + [NoveltyAt(lex, prospects, results, items, j - 1)]
  }

  /** A run of the engine: classifying the subjects one after the other. */
  method ClassifyRun(lex: Lexicon, memory: ProjectMemory, runLocation: Option<string>, subjects: seq<Subject>,
                     links: seq<Option<string>>) returns (verdicts: seq<Novelty>)
    requires |links| == |subjects|
    ensures verdicts == NoveltyUpTo(lex, KnownProspects(lex, memory), KnownResults(lex, memory),
                                    ItemsOf(lex, subjects, links, runLocation), |subjects|)
  {
    var engine := new ProjectNovelty(lex, memory, runLocation);
    ghost var items := ItemsOf(lex, subjects, links, runLocation);
    verdicts := [];
    for j := 0 to |subjects|
      invariant engine.Valid() && fresh(engine)
      invariant engine.current == ActorsAfter(lex, items, j)
      invariant verdicts == NoveltyUpTo(lex, engine.prospects, engine.results, items, j)
    {
      var verdict := ClassifyNext(engine, subjects[j], links[j], items, j);
      verdicts := verdicts + [verdict];
    }
  }

  // ---------------------------------------------------------------- the relation is not symmetric

  /** Only the name can decide, and one of the two spellings is not distinctive. */
  predicate OneSpellingDecides(lex: Lexicon, a: Identity, b: Identity) {
    && !SameDomainAndPlace(lex, a, b) && !SameText(a.phone, b.phone) && NamesMayDecide(lex, a, b)
    && |lex.entityCore(a.name.value)| >= 3 && lex.entityCore(a.name.value) == lex.entityCore(b.name.value)
    && lex.hasDistinctiveName(a.name.value) != lex.hasDistinctiveName(b.name.value)
  }

  /** The answer depends on the order of the two identities exactly when one spelling of the name decides. */
  lemma SameActorOrderMattersIff(lex: Lexicon, a: Identity, b: Identity)
    ensures SameActor(lex, a, b) != SameActor(lex, b, a) <==> OneSpellingDecides(lex, a, b)
  {
  }

  /**
   The asymmetry on two spellings of one name: "ABCD" after "AB CD" is a duplicate of the run, "AB CD" after
   "ABCD" is not, because the distinctiveness test reads the later name only.
   */
  lemma DuplicatesDependOnOrder(lex: Lexicon, prospects: seq<KnownProspect>, results: seq<KnownResult>)
    requires lex.entityCore("ABCD") == "abcd" && lex.entityCore("AB CD") == "abcd" && lex.normalize("Albi") == "albi"
    requires lex.hasDistinctiveName("ABCD") && !lex.hasDistinctiveName("AB CD")
    ensures var whole, spaced := Identity(None, None, Some("ABCD"), Some("Albi"), None),
                                 Identity(None, None, Some("AB CD"), Some("Albi"), None);
            && SameActor(lex, whole, spaced) == Some(ByNameAndLocation) && SameActor(lex, spaced, whole) == None
            && var forward := [Item(spaced, None), Item(whole, None)];
               var backward := [Item(whole, None), Item(spaced, None)];
            && NoveltyAt(lex, prospects, results, forward, 1).status == CurrentRunDuplicate
            && NoveltyAt(lex, prospects, results, backward, 1).status != CurrentRunDuplicate
  {
    var whole, spaced := Identity(None, None, Some("ABCD"), Some("Albi"), None),
        Identity(None, None, Some("AB CD"), Some("Albi"), None);
    var forward, backward := [Item(spaced, None), Item(whole, None)], [Item(whole, None), Item(spaced, None)];
    assert !Repeats(lex, forward, 0) && !Repeats(lex, backward, 0);
    RepeatsEarlier(lex, forward, 1);
    RepeatsEarlier(lex, backward, 1);
    DuplicateIffRepeats(lex, prospects, results, forward, 1);
    DuplicateIffRepeats(lex, prospects, results, backward, 1);
  }
}
