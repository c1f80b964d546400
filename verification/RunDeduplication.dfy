// The deduplication step of a run (services.ts): every result is matched against the project, then against the
// results of the run before it, and anything short of strong evidence goes to human review.
module RunDeduplication {
  import opened Text
  import opened EditDistance
  import opened Deduplication

  /** A merged candidate of the run; `company` is the class COMPANY_CANDIDATE. */
  datatype Entry = Entry(row: Row, company: bool)

  datatype RunReason = ByMatch(reason: Reason) | SameCanonicalName | SimilarInThisRun

  datatype RunMatch = RunMatch(status: Status, duplicateOf: Option<string>, reason: RunReason)

  function SameName(lex: Lexicon, c: Row): Row -> bool {
    (k: Row) => lex.SameOrganization(k.name, c.name)
  }

  /** Against the project: the three scans, then the canonical name of a company. */
  function AgainstProject(lex: Lexicon, threshold: Threshold, known: seq<Row>, e: Entry): RunMatch {
    var m := Verdict(lex, threshold, e.row, known);
    var at := FirstIndex(known, SameName(lex, e.row));
    if m.status == Unique && e.company && at < |known|
        then RunMatch(MergeReviewRequired, known[at].id, SameCanonicalName)
    else RunMatch(m.status, m.duplicateOf, ByMatch(m.reason))
  }

  /** Against the results before it too: there, any resemblance is for review. */
  function InRun(lex: Lexicon, threshold: Threshold, known: seq<Row>, seen: seq<Row>, e: Entry): RunMatch {
    var m := AgainstProject(lex, threshold, known, e);
    if m.status == Unique && Verdict(lex, threshold, e.row, seen).status != Unique
    then RunMatch(MergeReviewRequired, m.duplicateOf, SimilarInThisRun)
    else m
  }

  function RowsOf(entries: seq<Entry>, n: nat): (rows: seq<Row>)
    requires n <= |entries|
    ensures |rows| == n && forall i | 0 <= i < n :: rows[i] == entries[i].row
  {
    seq(n, i requires 0 <= i < n => entries[i].row)
  }

  function Judge(lex: Lexicon, threshold: Threshold, known: seq<Row>): (seq<Row>, Entry) -> RunMatch {
    (seen: seq<Row>, e: Entry) => InRun(lex, threshold, known, seen, e)
  }

  /** The outcome for each of the first `n` results, judged with the results before it. */
  function Matches(judge: (seq<Row>, Entry) -> RunMatch, entries: seq<Entry>, n: nat): (matches: seq<RunMatch>)
    requires n <= |entries|
    ensures |matches| == n && forall i | 0 <= i < n :: matches[i] == judge(RowsOf(entries, i), entries[i])
  {
    if n == 0 then [] else Matches(judge, entries, n - 1) + [judge(RowsOf(entries, n - 1), entries[n - 1])]
  }

  lemma OneMoreMatch(judge: (seq<Row>, Entry) -> RunMatch, entries: seq<Entry>, n: nat)
    requires n < |entries|
    ensures RowsOf(entries, n + 1) == RowsOf(entries, n) + [entries[n].row]
    ensures Matches(judge, entries, n + 1) == Matches(judge, entries, n) + [judge(RowsOf(entries, n), entries[n])]
  {
  }

  method MatchRun(lex: Lexicon, threshold: Threshold, known: seq<Row>, entries: seq<Entry>)
      returns (matches: seq<RunMatch>)
    ensures matches == Matches(Judge(lex, threshold, known), entries, |entries|)
  {
    ghost var judge := Judge(lex, threshold, known);
    matches := [];
    var seen: seq<Row> := [];
    for n := 0 to |entries|
      invariant seen == RowsOf(entries, n) && matches == Matches(judge, entries, n)
    {
      var m := MatchOne(lex, threshold, known, seen, entries[n]);
      OneMoreMatch(judge, entries, n);
      matches, seen := matches + [m], seen + [entries[n].row];
    }
  }

  method MatchOne(lex: Lexicon, threshold: Threshold, known: seq<Row>, seen: seq<Row>, e: Entry) returns (m: RunMatch)
    ensures m == Judge(lex, threshold, known)(seen, e)
  {
    var against := FindMatch(lex, threshold, e.row, known);
    m := RunMatch(against.status, against.duplicateOf, ByMatch(against.reason));
    if m.status == Unique && e.company {
      var at := FirstIndex(known, SameName(lex, e.row));
      if at < |known| {
        m := RunMatch(MergeReviewRequired, known[at].id, SameCanonicalName);
      }
    }
    var within := FindMatch(lex, threshold, e.row, seen);
    if m.status == Unique && within.status != Unique {
      m := m.(status := MergeReviewRequired, reason := SimilarInThisRun);
    }
  }

  /** A result is new to the project and the run exactly when nothing known, and nothing before it, is related to it. */
  lemma UniqueInRunIff(lex: Lexicon, threshold: Threshold, known: seq<Row>, seen: seq<Row>, e: Entry)
    ensures InRun(lex, threshold, known, seen, e).status == Unique
       <==> && (forall k | 0 <= k < |known| :: Unrelated(lex, threshold, e.row, known[k]))
            && (forall k | 0 <= k < |seen| :: Unrelated(lex, threshold, e.row, seen[k]))
            && (e.company ==> forall k | 0 <= k < |known| :: !lex.SameOrganization(known[k].name, e.row.name))
  {
    UniqueIffNothingMatches(lex, threshold, e.row, known);
    UniqueIffNothingMatches(lex, threshold, e.row, seen);
    var same := SameName(lex, e.row);
    var at := FirstIndex(known, same);
    forall k | 0 <= k < |known| && at == |known|
      ensures !lex.SameOrganization(known[k].name, e.row.name)
    {
      assert !same(known[k]);
    }
  }

  /**
   What a run reports: the project's verdict when it is not unique; else, for a company, the first known row of the same
   canonical name; else a resemblance in the run, which names no row; else nothing.
   */
  lemma RunMatchIsExact(lex: Lexicon, threshold: Threshold, known: seq<Row>, seen: seq<Row>, e: Entry)
    ensures var m, against := InRun(lex, threshold, known, seen, e), Verdict(lex, threshold, e.row, known);
            if against.status != Unique
            then m == RunMatch(against.status, against.duplicateOf, ByMatch(against.reason))
            else if e.company && exists k | k in known :: lex.SameOrganization(k.name, e.row.name)
            then m.status == MergeReviewRequired && m.reason == SameCanonicalName
                && exists k: nat | k < |known| && lex.SameOrganization(known[k].name, e.row.name) ::
                     m.duplicateOf == known[k].id
                     && forall i | 0 <= i < k :: !lex.SameOrganization(known[i].name, e.row.name)
            else if exists k | k in seen :: !Unrelated(lex, threshold, e.row, k)
            then m == RunMatch(MergeReviewRequired, None, SimilarInThisRun)
            else m == RunMatch(Unique, None, ByMatch(NothingFound))
  {
    var same := SameName(lex, e.row);
    FirstIndexExists(known, same);
    assert forall k | 0 <= k < |known| :: same(known[k]) <==> lex.SameOrganization(known[k].name, e.row.name);
    UniqueIffNothingMatches(lex, threshold, e.row, seen);
  }

  lemma UnrelatedIsSymmetric(lex: Lexicon, threshold: Threshold, a: Row, b: Row)
    ensures Unrelated(lex, threshold, a, b) == Unrelated(lex, threshold, b, a)
  {
    SimilarityLaws(lex.normalize, a.name, b.name);
  }

  /** Two results of one run that are both reported unique are unrelated, whichever came first. */
  lemma UniquesAreUnrelated(lex: Lexicon, threshold: Threshold, known: seq<Row>, entries: seq<Entry>, i: nat, j: nat)
    requires i < |entries| && j < |entries| && i != j
    requires InRun(lex, threshold, known, RowsOf(entries, i), entries[i]).status == Unique
    requires InRun(lex, threshold, known, RowsOf(entries, j), entries[j]).status == Unique
    ensures Unrelated(lex, threshold, entries[i].row, entries[j].row)
  {
    var early, late := if i < j then i else j, if i < j then j else i;
    UniqueInRunIff(lex, threshold, known, RowsOf(entries, late), entries[late]);
    assert RowsOf(entries, late)[early] == entries[early].row;
    UnrelatedIsSymmetric(lex, threshold, entries[i].row, entries[j].row);
  }

  /**
   A result is linked without review only to a row of the project, and only on strong evidence; never to another
   result of the run.
   */
  lemma LinkedOnlyToTheProject(lex: Lexicon, threshold: Threshold, known: seq<Row>, seen: seq<Row>, e: Entry)
      returns (k: nat)
    requires InRun(lex, threshold, known, seen, e).status == DuplicateCandidate
    ensures k == LinkedRow(lex, e.row, known) < |known|
        && InRun(lex, threshold, known, seen, e).duplicateOf == known[k].id
    ensures SamePhoneNumber(lex, e.row, known[k]) || SameNameSameAddress(lex, e.row, known[k])
  {
    k := LinkedOnlyOnStrongEvidence(lex, threshold, e.row, known);
  }
}
