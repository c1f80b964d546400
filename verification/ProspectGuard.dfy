// The prospect a result already is, on strong grounds only (novelty-engine.ts): what "Add" refuses to create twice,
// what the run's screen shows as added, and how both relate to the novelty the run recorded.
module ProspectGuard {
  import opened Text
  import opened NoveltyEngine

  predicate IsStrong(basis: Option<Basis>) {
    basis == Some(ByDomain) || basis == Some(ByPhone)
  }

  function IsStrongMatch(lex: Lexicon, id: Identity): ProspectMemory -> bool {
    (p: ProspectMemory) => IsStrong(SameActor(lex, id, ProspectIdentity(lex, p)))
  }

  /** The first prospect matched by its own domain or phone; a name alone never counts. */
  function StrongMatch(lex: Lexicon, subject: Subject, prospects: seq<ProspectMemory>): Option<string> {
    var at := FirstIndex(prospects, IsStrongMatch(lex, SubjectIdentity(lex, subject, None)));
    if at < |prospects| then Some(prospects[at].id) else None
  }

  method StrongProspectMatch(lex: Lexicon, subject: Subject, prospects: seq<ProspectMemory>)
      returns (found: Option<string>)
    ensures found == StrongMatch(lex, subject, prospects)
  {
    var id := SubjectIdentity(lex, subject, None);
    for i := 0 to |prospects|
      invariant forall k | 0 <= k < i :: !IsStrongMatch(lex, id)(prospects[k])
    {
      var basis := SameActor(lex, id, ProspectIdentity(lex, prospects[i]));
      if basis == Some(ByDomain) || basis == Some(ByPhone) {
        FirstIndexIs(prospects, IsStrongMatch(lex, id), i);
        return Some(prospects[i].id);
      }
    }
    FirstIndexIs(prospects, IsStrongMatch(lex, id), |prospects|);
    found := None;
  }

  lemma StrongMatchIsKnown(lex: Lexicon, subject: Subject, prospects: seq<ProspectMemory>)
    ensures StrongMatch(lex, subject, prospects).Some? <==>
              exists p | p in prospects ::
                  IsStrong(SameActor(lex, SubjectIdentity(lex, subject, None), ProspectIdentity(lex, p)))
    ensures StrongMatch(lex, subject, prospects).Some? ==>
              exists p | p in prospects :: p.id == StrongMatch(lex, subject, prospects).value
  {
    var strong := IsStrongMatch(lex, SubjectIdentity(lex, subject, None));
    FirstIndexExists(prospects, strong);
    if p :| p in prospects && IsStrong(SameActor(lex, SubjectIdentity(lex, subject, None), ProspectIdentity(lex, p))) {
      assert strong(p);
    }
    var at := FirstIndex(prospects, strong);
    if at < |prospects| {
      assert strong(prospects[at]) && prospects[at] in prospects;
    }
  }

  // ---------------------------------------------------------------- against the novelty of the run

  /** The place a run lends to a result without a city does not undo a strong match with this prospect. */
  predicate Survives(lex: Lexicon, subject: Subject, p: ProspectMemory, runLocation: Option<string>) {
    || subject.city.Some? || !Truthy(runLocation) || !Truthy(p.city) || CompatibleLocation(lex, runLocation, p.city)
    || SameText(lex.Phone(subject.phone), lex.Phone(p.phone))
  }

  /**
   A strong match is undone exactly when it rests on the domain alone and the lent place disagrees with the
   prospect's.
   */
  lemma StrongMatchSurvivesIff(lex: Lexicon, subject: Subject, p: ProspectMemory, runLocation: Option<string>)
    requires IsStrong(SameActor(lex, SubjectIdentity(lex, subject, None), ProspectIdentity(lex, p)))
    ensures IsStrong(SameActor(lex, SubjectIdentity(lex, subject, runLocation), ProspectIdentity(lex, p)))
       <==> Survives(lex, subject, p, runLocation)
  {
  }

  /** The prospect is matched by name and by the lent or the own place. */
  predicate MatchesByName(lex: Lexicon, subject: Subject, p: ProspectMemory, runLocation: Option<string>) {
    var id, other := SubjectIdentity(lex, subject, runLocation), ProspectIdentity(lex, p);
    NamesMayDecide(lex, id, other) && lex.SameOrganization(id.name.value, other.name.value)
  }

  /** The run recognizes the prospect: by a strong match that survives the lent place, or by name. */
  predicate StillMatches(lex: Lexicon, subject: Subject, p: ProspectMemory, runLocation: Option<string>) {
    || (IsStrong(SameActor(lex, SubjectIdentity(lex, subject, None), ProspectIdentity(lex, p)))
        && Survives(lex, subject, p, runLocation))
    || MatchesByName(lex, subject, p, runLocation)
  }

  lemma RecognizedIff(lex: Lexicon, subject: Subject, p: ProspectMemory, runLocation: Option<string>)
    ensures var basis := SameActor(lex, SubjectIdentity(lex, subject, runLocation), ProspectIdentity(lex, p));
            basis.Some? && basis != Some(BySourceUrl) <==> StillMatches(lex, subject, p, runLocation)
  {
  }

  lemma RecognizedByScan(lex: Lexicon, memory: ProjectMemory, runLocation: Option<string>, subject: Subject)
    ensures MatchesProspect(lex, KnownProspects(lex, memory), SubjectIdentity(lex, subject, runLocation))
       <==> exists p | p in memory.prospects :: StillMatches(lex, subject, p, runLocation)
  {
    var known, id := KnownProspects(lex, memory), SubjectIdentity(lex, subject, runLocation);
    if k :| k in known && SameActor(lex, id, k.id).Some? && SameActor(lex, id, k.id) != Some(BySourceUrl) {
      assert k.row in memory.prospects && k.id == ProspectIdentity(lex, k.row);
      RecognizedIff(lex, subject, k.row, runLocation);
    }
    if p :| p in memory.prospects && StillMatches(lex, subject, p, runLocation) {
      var i :| 0 <= i < |memory.prospects| && memory.prospects[i] == p;
      assert known[i] == KnownProspect(p, ProspectIdentity(lex, p)) && known[i] in known;
      RecognizedIff(lex, subject, p, runLocation);
    }
  }

  /**
   A result, whether "Add" refuses it or not, is announced neither as added nor as a duplicate of the run exactly when
   the run does not know the actor yet and no link, no match with a prospect and no accepted result survive the place
   it lends.
   */
  lemma RefusedYetNotAddedIff(lex: Lexicon, memory: ProjectMemory, runLocation: Option<string>, current: seq<Identity>,
                              subject: Subject, link: Option<string>)
    ensures var known, results, id := KnownProspects(lex, memory), KnownResults(lex, memory),
        SubjectIdentity(lex, subject, runLocation);
            (ClassifyByScan(lex, known, results, current, id, link).status !in {Added, CurrentRunDuplicate}
             <==> && !RepeatsOneOf(lex, current, id)
                  && !(Truthy(link) && link.value in IdsOf(known))
                  && (forall p | p in memory.prospects :: !StillMatches(lex, subject, p, runLocation))
                  && !MatchesAccepted(lex, IdsOf(known), results, id))
  {
    StatusIsExact(lex, KnownProspects(lex, memory), KnownResults(lex, memory), current,
                  SubjectIdentity(lex, subject, runLocation), link);
    RecognizedByScan(lex, memory, runLocation, subject);
  }

  /** A result with a strong match the lent place does not undo is never announced as new, seen or ignored. */
  lemma RefusedWasAdded(lex: Lexicon, memory: ProjectMemory, runLocation: Option<string>, current: seq<Identity>,
                        subject: Subject, link: Option<string>, p: ProspectMemory)
    requires p in memory.prospects
        && IsStrong(SameActor(lex, SubjectIdentity(lex, subject, None), ProspectIdentity(lex, p)))
    requires Survives(lex, subject, p, runLocation)
    ensures ClassifyByScan(lex, KnownProspects(lex, memory), KnownResults(lex, memory), current,
                           SubjectIdentity(lex, subject, runLocation), link).status in {Added, CurrentRunDuplicate}
  {
    assert StillMatches(lex, subject, p, runLocation);
    RefusedYetNotAddedIff(lex, memory, runLocation, current, subject, link);
  }

  /** A result without a city on the site of a prospect from elsewhere is announced as new, and then refused. */
  lemma NewCanBeRefused(lex: Lexicon)
    requires lex.domainOf("https://w.fr") == Some("w.fr") && !CompatibleLocation(lex, Some("Albi"), Some("Lyon"))
    ensures var subject := Subject("Foo", Some("https://w.fr"), None, None, "", Undefined, Undefined, Undefined);
            var memory := ProjectMemory([ProspectMemory("p", "Bar", Some("https://w.fr"), None, Some("Lyon"))], [], []);
            && StrongMatch(lex, subject, memory.prospects) == Some("p")
            && var id := SubjectIdentity(lex, subject, Some("Albi"));
            ClassifyByScan(lex, KnownProspects(lex, memory), [], [], id, None).status == New
  {
    var subject := Subject("Foo", Some("https://w.fr"), None, None, "", Undefined, Undefined, Undefined);
    var prospect := ProspectMemory("p", "Bar", Some("https://w.fr"), None, Some("Lyon"));
    var memory := ProjectMemory([prospect], [], []);
    assert IsStrongMatch(lex, SubjectIdentity(lex, subject, None))(prospect);
    var known, id := KnownProspects(lex, memory), SubjectIdentity(lex, subject, Some("Albi"));
    assert known[0] == KnownProspect(prospect, ProspectIdentity(lex, prospect));
    assert SameActor(lex, id, known[0].id) == None;
    StatusIsExact(lex, known, [], [], id, None);
  }

  // ---------------------------------------------------------------- the screen of a run

  datatype Snapshot = Snapshot(added: bool, prospectId: Option<string>)
  datatype ResultRow = ResultRow(id: string, accepted: bool, name: string, website: Option<string>,
                                 phone: Option<string>, city: Option<string>, sourceUrl: string,
                                 sourceClass: Option<string>, snapshot: Option<Snapshot>)

  function ClassField(sourceClass: Option<string>): Field {
    if sourceClass.Some? then Value(sourceClass.value) else Null
  }

  function SubjectOf(r: ResultRow): Subject {
    Subject(r.name, r.website, r.phone, r.city, r.sourceUrl, ClassField(r.sourceClass), Undefined, Undefined)
  }

  function Ids(prospects: seq<ProspectMemory>): set<string> {
    set p | p in prospects :: p.id
  }

  /** The prospect a row is now: by a strong match, or by its own snapshot while that prospect is still there. */
  function StatusNow(lex: Lexicon, r: ResultRow, prospects: seq<ProspectMemory>): Option<string> {
    var strong := StrongMatch(lex, SubjectOf(r), prospects);
    if Truthy(strong) then strong
    else if strong.None? && SnapshotHolds(r, prospects) then r.snapshot.value.prospectId
    else None
  }

  predicate SnapshotHolds(r: ResultRow, prospects: seq<ProspectMemory>) {
    && r.snapshot.Some? && r.snapshot.value.added && Truthy(r.snapshot.value.prospectId)
    && r.snapshot.value.prospectId.value in Ids(prospects)
  }

  /** Every row not accepted yet has its current status, the last one of an id counting; no other row has one. */
  ghost predicate StatusesAre(lex: Lexicon, rows: seq<ResultRow>, n: nat, prospects: seq<ProspectMemory>,
                              out: map<string, Option<string>>)
    requires n <= |rows|
  {
    && (forall id | id in out :: exists i | 0 <= i < n :: !rows[i].accepted && rows[i].id == id)
    && (forall i | 0 <= i < n && !rows[i].accepted
        && (forall k | i < k < n :: rows[k].accepted || rows[k].id != rows[i].id) ::
          rows[i].id in out && out[rows[i].id] == StatusNow(lex, rows[i], prospects))
  }

  /** One more row that is not accepted. */
  lemma OneMoreStatus(lex: Lexicon, rows: seq<ResultRow>, n: nat, prospects: seq<ProspectMemory>,
                      out: map<string, Option<string>>, now: Option<string>)
    requires n < |rows| && !rows[n].accepted && StatusesAre(lex, rows, n, prospects, out)
    requires now == StatusNow(lex, rows[n], prospects)
    ensures StatusesAre(lex, rows, n + 1, prospects, out[rows[n].id := now])
  {
    var next := out[rows[n].id := now];
    forall i | 0 <= i < n + 1 && !rows[i].accepted
        && (forall k | i < k < n + 1 :: rows[k].accepted || rows[k].id != rows[i].id)
      ensures rows[i].id in next && next[rows[i].id] == StatusNow(lex, rows[i], prospects)
    {
      if i < n {
        assert rows[n].id != rows[i].id;
      }
    }
  }

  lemma AcceptedRowIsSkipped(lex: Lexicon, rows: seq<ResultRow>, n: nat, prospects: seq<ProspectMemory>,
                             out: map<string, Option<string>>)
    requires n < |rows| && rows[n].accepted && StatusesAre(lex, rows, n, prospects, out)
    ensures StatusesAre(lex, rows, n + 1, prospects, out)
  {
  }

  method CurrentProjectStatuses(lex: Lexicon, rows: seq<ResultRow>, prospects: seq<ProspectMemory>)
    returns (out: map<string, Option<string>>)
    ensures StatusesAre(lex, rows, |rows|, prospects, out)
  {
    out := map[];
    for i := 0 to |rows|
      invariant StatusesAre(lex, rows, i, prospects, out)
    {
      if rows[i].accepted {
        AcceptedRowIsSkipped(lex, rows, i, prospects, out);
        continue;
      }
      var now := ReadStatus(lex, rows[i], prospects);
      OneMoreStatus(lex, rows, i, prospects, out, now);
      out := out[rows[i].id := now];
    }
  }

  method ReadStatus(lex: Lexicon, r: ResultRow, prospects: seq<ProspectMemory>) returns (now: Option<string>)
    ensures now == StatusNow(lex, r, prospects)
  {
    now := StrongProspectMatch(lex, SubjectOf(r), prospects);
    if now.None? && SnapshotHolds(r, prospects) {
      now := r.snapshot.value.prospectId;
    }
    if !Truthy(now) {
      now := None;
    }
  }

  // ---------------------------------------------------------------- the decision of "Add"

  datatype AcceptRow = AcceptRow(duplicateCandidate: bool, dedupeKey: string, row: ResultRow)

  /** The prospect a second creation of which is refused; each prospect comes with its own stored key. */
  function AlreadyAdded(lex: Lexicon, a: AcceptRow, prospects: seq<ProspectMemory>, keys: seq<Option<string>>,
                        forceSeparate: bool): Option<string>
    requires |keys| == |prospects|
  {
    if a.duplicateCandidate then None
    else
      var same := StrongMatch(lex, SubjectOf(a.row), prospects);
      if !Truthy(same) then None
      else
        var at := FirstIndex(prospects, (p: ProspectMemory) => p.id == same.value);
        if !forceSeparate && at < |prospects| && keys[at] == Some(a.dedupeKey) then None else same
  }

  /**
   Add refuses only what the screen shows as added, with the same prospect; and with it separated, everything the
   screen shows so on strong grounds.
   */
  lemma AddAgreesWithTheScreen(lex: Lexicon, a: AcceptRow, prospects: seq<ProspectMemory>, keys: seq<Option<string>>,
                               forceSeparate: bool)
    requires |keys| == |prospects|
    ensures AlreadyAdded(lex, a, prospects, keys, forceSeparate).Some? ==>
              AlreadyAdded(lex, a, prospects, keys, forceSeparate) == StatusNow(lex, a.row, prospects)
    ensures !a.duplicateCandidate && a.row.snapshot.None? ==>
              AlreadyAdded(lex, a, prospects, keys, true) == StatusNow(lex, a.row, prospects)
  {
    StrongMatchIsKnown(lex, SubjectOf(a.row), prospects);
  }

  // ---------------------------------------------------------------- the two decisions, prospect by prospect

  ghost predicate MatchesStrongly(lex: Lexicon, r: ResultRow, p: ProspectMemory) {
    var basis := SameActor(lex, SubjectIdentity(lex, SubjectOf(r), None), ProspectIdentity(lex, p));
    basis == Some(ByDomain) || basis == Some(ByPhone)
  }

  /** Prospect `i` is the first one the row strongly matches. */
  ghost predicate IsFirstStrong(lex: Lexicon, r: ResultRow, prospects: seq<ProspectMemory>, i: nat) {
    && i < |prospects| && MatchesStrongly(lex, r, prospects[i])
    && forall k | 0 <= k < i :: !MatchesStrongly(lex, r, prospects[k])
  }

  lemma FirstStrongIsTheMatch(lex: Lexicon, r: ResultRow, prospects: seq<ProspectMemory>, i: nat)
    requires IsFirstStrong(lex, r, prospects, i)
    ensures StrongMatch(lex, SubjectOf(r), prospects) == Some(prospects[i].id)
  {
    var strong := IsStrongMatch(lex, SubjectIdentity(lex, SubjectOf(r), None));
    assert forall k | 0 <= k < |prospects| :: strong(prospects[k]) <==> MatchesStrongly(lex, r, prospects[k]);
    FirstIndexIs(prospects, strong, i);
  }

  lemma NoStrongNoMatch(lex: Lexicon, r: ResultRow, prospects: seq<ProspectMemory>)
    requires forall k | 0 <= k < |prospects| :: !MatchesStrongly(lex, r, prospects[k])
    ensures StrongMatch(lex, SubjectOf(r), prospects) == None
  {
    FirstIndexIs(prospects, IsStrongMatch(lex, SubjectIdentity(lex, SubjectOf(r), None)), |prospects|);
  }

  /** The prospect the row's snapshot was added as, when it still exists. */
  ghost function SnapshotProspect(r: ResultRow, prospects: seq<ProspectMemory>): Option<string> {
    if && r.snapshot.Some? && r.snapshot.value.added && Truthy(r.snapshot.value.prospectId)
       && exists p | p in prospects :: p.id == r.snapshot.value.prospectId.value
    then r.snapshot.value.prospectId else None
  }

  /**
   The screen shows a row as the first prospect it strongly matches; when it matches none, as the prospect its snapshot
   was added as, while that prospect is there; and otherwise as nobody.
   */
  lemma ScreenShowsTheFirst(lex: Lexicon, r: ResultRow, prospects: seq<ProspectMemory>)
    ensures forall i: nat | IsFirstStrong(lex, r, prospects, i) ::
              StatusNow(lex, r, prospects) == if prospects[i].id == "" then None else Some(prospects[i].id)
    ensures (forall k | 0 <= k < |prospects| :: !MatchesStrongly(lex, r, prospects[k])) ==>
              StatusNow(lex, r, prospects) == SnapshotProspect(r, prospects)
  {
    forall i: nat | IsFirstStrong(lex, r, prospects, i)
      ensures StatusNow(lex, r, prospects) == if prospects[i].id == "" then None else Some(prospects[i].id)
    {
      FirstStrongIsTheMatch(lex, r, prospects, i);
    }
    if forall k | 0 <= k < |prospects| :: !MatchesStrongly(lex, r, prospects[k]) {
      NoStrongNoMatch(lex, r, prospects);
    }
  }

  /**
   "Add" refuses a row, naming the first prospect it strongly matches, unless the row links to a duplicate candidate, or
   is not separated and that prospect was created under the row's own key. It refuses nothing else.
   */
  lemma AddRefusesTheFirst(lex: Lexicon, a: AcceptRow, prospects: seq<ProspectMemory>, keys: seq<Option<string>>,
                           forceSeparate: bool, i: nat, at: nat)
    requires |keys| == |prospects| && IsFirstStrong(lex, a.row, prospects, i) && prospects[i].id != ""
    requires at <= i && prospects[at].id == prospects[i].id
    requires forall k | 0 <= k < at :: prospects[k].id != prospects[i].id
    ensures AlreadyAdded(lex, a, prospects, keys, forceSeparate)
         == if a.duplicateCandidate || (!forceSeparate && keys[at] == Some(a.dedupeKey)) then None
            else Some(prospects[i].id)
  {
    FirstStrongIsTheMatch(lex, a.row, prospects, i);
    FirstIndexIs(prospects, (p: ProspectMemory) => p.id == prospects[i].id, at);
  }

  lemma AddRefusesNothingElse(lex: Lexicon, a: AcceptRow, prospects: seq<ProspectMemory>, keys: seq<Option<string>>,
                              forceSeparate: bool)
    requires |keys| == |prospects|
    requires forall k | 0 <= k < |prospects| :: !MatchesStrongly(lex, a.row, prospects[k])
    ensures AlreadyAdded(lex, a, prospects, keys, forceSeparate) == None
  {
    NoStrongNoMatch(lex, a.row, prospects);
  }
}
