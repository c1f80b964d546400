// DeduplicationService of deduplication.ts: three ordered scans over the known rows, strongest identity first.
module Deduplication {
  import opened Text
  import opened EditDistance

  datatype Row = Row(id: Option<string>, name: string, website: Option<string>, phone: Option<string>,
                     address: Option<string>, city: Option<string>)

  datatype Status = Unique | DuplicateCandidate | MergeReviewRequired

  datatype Reason =
    | SharedIdentifierElsewhere
    | SharedDomainToCheck
    | SameDomainAndPlace
    | SamePhone
    | SameNameAndAddress
    | SimilarNameAndCity
    | NothingFound

  datatype Match = Match(status: Status, duplicateOf: Option<string>, reason: Reason)

  /** The constructor refuses any other threshold. */
  type Threshold = t: real | 0.8 <= t <= 1.0 witness 0.9

  predicate SameDomain(lex: Lexicon, c: Row, other: Row) {
    lex.Domain(c.website).Some? && lex.Domain(c.website) == lex.Domain(other.website)
  }

  predicate SamePhoneNumber(lex: Lexicon, c: Row, other: Row) {
    lex.Phone(c.phone).Some? && lex.Phone(c.phone) == lex.Phone(other.phone)
  }

  predicate SharesIdentifier(lex: Lexicon, c: Row, other: Row) {
    SameDomain(lex, c, other) || SamePhoneNumber(lex, c, other)
  }

  /** Both sides give a place of this kind and the two places differ. */
  predicate Differ(lex: Lexicon, x: Option<string>, y: Option<string>) {
    Truthy(x) && Truthy(y) && lex.Norm(x) != lex.Norm(y)
  }

  predicate LocationConflict(lex: Lexicon, c: Row, other: Row) {
    Differ(lex, c.address, other.address) || Differ(lex, c.city, other.city)
  }

  predicate SameNameSameAddress(lex: Lexicon, c: Row, other: Row) {
    && lex.normalize(c.name) == lex.normalize(other.name)
    && Truthy(c.address) && Truthy(other.address)
    && lex.Norm(c.address) == lex.Norm(other.address)
  }

  predicate SimilarNameSameCity(lex: Lexicon, threshold: Threshold, c: Row, other: Row) {
    && Truthy(c.city) && Truthy(other.city)
    && lex.Norm(c.city) == lex.Norm(other.city)
    && Similarity(lex.normalize, c.name, other.name) >= threshold
  }

  function SharedIdentifierVerdict(lex: Lexicon, c: Row, other: Row): Match {
    var conflict := LocationConflict(lex, c, other);
    var weakDomain := && SameDomain(lex, c, other) && !SamePhoneNumber(lex, c, other)
                      && (lex.normalize(c.name) != lex.normalize(other.name) || !Truthy(c.address)
                          || !Truthy(other.address));
    Match(if conflict || weakDomain then MergeReviewRequired else DuplicateCandidate,
          other.id,
          if conflict then SharedIdentifierElsewhere
          else if weakDomain then SharedDomainToCheck
          else if SameDomain(lex, c, other) then SameDomainAndPlace
          else SamePhone)
  }

  // The three tests, as functions of the known row only.
  function Strong(lex: Lexicon, c: Row): Row -> bool {
    o => SharesIdentifier(lex, c, o)
  }

  function Exact(lex: Lexicon, c: Row): Row -> bool {
    o => SameNameSameAddress(lex, c, o)
  }

  function Similar(lex: Lexicon, threshold: Threshold, c: Row): Row -> bool {
    o => SimilarNameSameCity(lex, threshold, c, o)
  }

  /** The result of the three scans, by the first row of each kind. */
  function Verdict(lex: Lexicon, threshold: Threshold, c: Row, existing: seq<Row>): Match {
    var strong, exact, similar := FirstIndex(existing, Strong(lex, c)), FirstIndex(existing, Exact(lex, c)),
                                  FirstIndex(existing, Similar(lex, threshold, c));
    if strong < |existing| then SharedIdentifierVerdict(lex, c, existing[strong])
    else if exact < |existing| then Match(DuplicateCandidate, existing[exact].id, SameNameAndAddress)
    else if similar < |existing| then Match(MergeReviewRequired, existing[similar].id, SimilarNameAndCity)
    else Match(Unique, None, NothingFound)
  }

  method FindMatch(lex: Lexicon, threshold: Threshold, c: Row, existing: seq<Row>) returns (m: Match)
    ensures m == Verdict(lex, threshold, c, existing)
  {
    for i := 0 to |existing|
      invariant forall k | 0 <= k < i :: !Strong(lex, c)(existing[k])
    {
      if SharesIdentifier(lex, c, existing[i]) {
        FirstIndexIs(existing, Strong(lex, c), i);
        return SharedIdentifierVerdict(lex, c, existing[i]);
      }
    }
    for i := 0 to |existing|
      invariant forall k | 0 <= k < i :: !Exact(lex, c)(existing[k])
    {
      if SameNameSameAddress(lex, c, existing[i]) {
        FirstIndexIs(existing, Exact(lex, c), i);
        return Match(DuplicateCandidate, existing[i].id, SameNameAndAddress);
      }
    }
    for i := 0 to |existing|
      invariant forall k | 0 <= k < i :: !Similar(lex, threshold, c)(existing[k])
    {
      var other := existing[i];
      if Truthy(c.city) && Truthy(other.city) && lex.Norm(c.city) == lex.Norm(other.city) {
        var ratio := ComputeSimilarity(lex.normalize, c.name, other.name);
        if ratio >= threshold {
          FirstIndexIs(existing, Similar(lex, threshold, c), i);
          return Match(MergeReviewRequired, other.id, SimilarNameAndCity);
        }
      }
    }
    m := Match(Unique, None, NothingFound);
  }

  // ---------------------------------------------------------------- what a verdict means

  predicate Unrelated(lex: Lexicon, threshold: Threshold, c: Row, o: Row) {
    && !SharesIdentifier(lex, c, o)
    && !SameNameSameAddress(lex, c, o)
    && !SimilarNameSameCity(lex, threshold, c, o)
  }

  /** Unique exactly when no row shares an identifier, an exact name and address, or a similar name and the city. */
  lemma UniqueIffNothingMatches(lex: Lexicon, threshold: Threshold, c: Row, existing: seq<Row>)
    ensures Verdict(lex, threshold, c, existing).status == Unique
       <==> forall k | 0 <= k < |existing| :: Unrelated(lex, threshold, c, existing[k])
  {
    forall k | 0 <= k < |existing| && Verdict(lex, threshold, c, existing).status == Unique
      ensures Unrelated(lex, threshold, c, existing[k])
    {
      assert !Strong(lex, c)(existing[k]) && !Exact(lex, c)(existing[k]) && !Similar(lex, threshold, c)(existing[k]);
    }
  }

  /**
   A shared identifier links without review exactly when no place conflicts and the phone is the same too, or the name
   and the address are. The reason tells a conflict first, then a domain that proves nothing, then what is shared.
   */
  lemma SharedIdentifierLinksIff(lex: Lexicon, c: Row, o: Row)
    requires SharesIdentifier(lex, c, o)
    ensures var m, conflict := SharedIdentifierVerdict(lex, c, o), LocationConflict(lex, c, o);
            && m.duplicateOf == o.id && m.status != Unique
            && (m.status == DuplicateCandidate
                <==> !conflict && (SamePhoneNumber(lex, c, o) || SameNameSameAddress(lex, c, o)))
            && (m.reason == SharedIdentifierElsewhere <==> conflict)
            && (m.reason == SharedDomainToCheck <==> !conflict && m.status == MergeReviewRequired)
            && (m.reason == SamePhone <==> !conflict && !SameDomain(lex, c, o))
            && (m.reason == SameDomainAndPlace
                <==> m.status == DuplicateCandidate && SameDomain(lex, c, o))
  {
  }

  /**
   The row a verdict names: the first that shares an identifier; else the first of the same name and address, which is
   linked; else the first of a similar name in the same city, for review.
   */
  lemma VerdictNamesItsRow(lex: Lexicon, threshold: Threshold, c: Row, existing: seq<Row>, k: nat)
    requires k < |existing| && !Unrelated(lex, threshold, c, existing[k])
    requires forall i | 0 <= i < k :: !SharesIdentifier(lex, c, existing[i])
    ensures SharesIdentifier(lex, c, existing[k]) ==>
              Verdict(lex, threshold, c, existing) == SharedIdentifierVerdict(lex, c, existing[k])
    ensures && (forall i | 0 <= i < |existing| :: !SharesIdentifier(lex, c, existing[i]))
            && SameNameSameAddress(lex, c, existing[k])
            && (forall i | 0 <= i < k :: !SameNameSameAddress(lex, c, existing[i])) ==>
              Verdict(lex, threshold, c, existing) == Match(DuplicateCandidate, existing[k].id, SameNameAndAddress)
    ensures && (forall i | 0 <= i < |existing| ::
                  !SharesIdentifier(lex, c, existing[i]) && !SameNameSameAddress(lex, c, existing[i]))
            && (forall i | 0 <= i < k :: !SimilarNameSameCity(lex, threshold, c, existing[i])) ==>
              Verdict(lex, threshold, c, existing) == Match(MergeReviewRequired, existing[k].id, SimilarNameAndCity)
  {
    var strong, exact, similar := Strong(lex, c), Exact(lex, c), Similar(lex, threshold, c);
    assert forall i | 0 <= i < |existing| ::
        && (strong(existing[i]) <==> SharesIdentifier(lex, c, existing[i]))
        && (exact(existing[i]) <==> SameNameSameAddress(lex, c, existing[i]))
        && (similar(existing[i]) <==> SimilarNameSameCity(lex, threshold, c, existing[i]));
  }

  /** A strong identifier decides wherever its row stands: weaker matches before it never do. */
  lemma StrongIdentifierDecides(lex: Lexicon, threshold: Threshold, c: Row, before: seq<Row>, o: Row, after: seq<Row>)
    requires SharesIdentifier(lex, c, o)
    requires forall k | 0 <= k < |before| :: !SharesIdentifier(lex, c, before[k])
    ensures Verdict(lex, threshold, c, before + [o] + after) == SharedIdentifierVerdict(lex, c, o)
  {
    FirstIndexIs(before + [o] + after, Strong(lex, c), |before|);
  }

  /**
   The known row a verdict speaks of: the first that shares an identifier, else the first of the same name and
   address.
   */
  function LinkedRow(lex: Lexicon, c: Row, existing: seq<Row>): (k: nat)
    ensures k <= |existing|
  {
    var strong := FirstIndex(existing, Strong(lex, c));
    if strong < |existing| then strong else FirstIndex(existing, Exact(lex, c))
  }

  /**
   A row is linked without human review only on the same phone, or on the same name and address: never on a
   shared domain alone and never on a similar name.
   */
  lemma LinkedOnlyOnStrongEvidence(lex: Lexicon, threshold: Threshold, c: Row, existing: seq<Row>) returns (k: nat)
    requires Verdict(lex, threshold, c, existing).status == DuplicateCandidate
    ensures k == LinkedRow(lex, c, existing) < |existing|
        && Verdict(lex, threshold, c, existing).duplicateOf == existing[k].id
    ensures SamePhoneNumber(lex, c, existing[k]) || SameNameSameAddress(lex, c, existing[k])
    ensures SharesIdentifier(lex, c, existing[k]) ==> !LocationConflict(lex, c, existing[k])
  {
    k := LinkedRow(lex, c, existing);
    var strong := FirstIndex(existing, Strong(lex, c));
    assert strong == |existing| ==> !Strong(lex, c)(existing[k]);
  }

  /** The row is linked without review to a row of a conflicting place. */
  predicate LinkedAcrossPlaces(lex: Lexicon, threshold: Threshold, c: Row, existing: seq<Row>) {
    && Verdict(lex, threshold, c, existing).status == DuplicateCandidate
    && LinkedRow(lex, c, existing) < |existing| && LocationConflict(lex, c, existing[LinkedRow(lex, c, existing)])
  }

  /**
   The scan on names and addresses does not read the city: a row is linked across conflicting places exactly when
   no known row shares an identifier and the first one of the same name and address is in another city.
   */
  lemma LinkedAcrossPlacesIff(lex: Lexicon, threshold: Threshold, c: Row, existing: seq<Row>)
    ensures LinkedAcrossPlaces(lex, threshold, c, existing)
       <==> var exact := FirstIndex(existing, Exact(lex, c));
            && (forall k | 0 <= k < |existing| :: !SharesIdentifier(lex, c, existing[k]))
            && exact < |existing| && Differ(lex, c.city, existing[exact].city)
  {
    var strong, exact := FirstIndex(existing, Strong(lex, c)), FirstIndex(existing, Exact(lex, c));
    FirstIndexExists(existing, Strong(lex, c));
    if strong == |existing| {
      forall k | 0 <= k < |existing|
        ensures !SharesIdentifier(lex, c, existing[k])
      {
        assert !Strong(lex, c)(existing[k]);
      }
      assert exact < |existing| ==> SameNameSameAddress(lex, c, existing[exact]);
    } else {
      assert SharesIdentifier(lex, c, existing[strong]);
    }
  }

  /** Two town halls of one name and street, in two towns. */
  lemma LinkedAcrossTwoTowns(lex: Lexicon, threshold: Threshold)
    requires lex.normalize("Albi") != lex.normalize("Lyon")
    ensures var albi := Row(None, "Foo", None, None, Some("1 rue de la Mairie"), Some("Albi"));
            LinkedAcrossPlaces(lex, threshold, albi, [albi.(city := Some("Lyon"))])
  {
    var albi := Row(None, "Foo", None, None, Some("1 rue de la Mairie"), Some("Albi"));
    var lyon := albi.(city := Some("Lyon"));
    FirstIndexIs([lyon], Exact(lex, albi), 0);
    LinkedAcrossPlacesIff(lex, threshold, albi, [lyon]);
  }

  // ---------------------------------------------------------------- the stored key

  /** The stored deduplication key, with its parts kept apart. */
  datatype Key =
    | ByDomain(domain: string, place: string)
    | ByPhone(phone: string)
    | ByAddress(name: string, address: string)
    | ByName(name: string, city: string)

  function KeyOf(lex: Lexicon, c: Row): Key {
    var d, p := lex.Domain(c.website), lex.Phone(c.phone);
    if d.Some? then ByDomain(d.value, if lex.Norm(c.address) != "" then lex.Norm(c.address) else lex.Norm(c.city))
    else if p.Some? then ByPhone(p.value)
    else if Truthy(c.address) then ByAddress(lex.normalize(c.name), lex.Norm(c.address))
    else ByName(lex.normalize(c.name), lex.Norm(c.city))
  }

  /**
   The key is coarser than the scans in one family only: two rows with the same key are reported as unrelated
   exactly when the key is a name key and a city is missing, or the name normalizes to nothing.
   */
  lemma SameKeyIsDetectedIff(lex: Lexicon, threshold: Threshold, c: Row, o: Row)
    requires KeyOf(lex, c) == KeyOf(lex, o)
    ensures Verdict(lex, threshold, c, [o]).status == Unique
       <==> KeyOf(lex, c).ByName? && !(Truthy(c.city) && Truthy(o.city) && lex.normalize(c.name) != "")
  {
    UniqueIffNothingMatches(lex, threshold, c, [o]);
    assert [o][0] == o;
    SimilarityLaws(lex.normalize, c.name, o.name);
  }

  /** A row known by its name alone is not detected by the scans, although its key is stored. */
  lemma SameKeyCanEscape(lex: Lexicon, threshold: Threshold)
    ensures var r := Row(None, "Foo", None, None, None, None); Verdict(lex, threshold, r, [r]).status == Unique
  {
    var r := Row(None, "Foo", None, None, None, None);
    SameKeyIsDetectedIff(lex, threshold, r, r);
  }
}
