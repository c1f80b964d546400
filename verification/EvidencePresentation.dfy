// What a person reads about the observations of a prospect (evidence-presentation.ts): one card per repeated
// sentence, proposals grouped by criterion, and the criteria nothing informs.
module EvidencePresentation {
  import opened Text
  import opened StableOrder

  datatype Status = Observed | Unknown | Inferred | Contradicting
  datatype Review = Verified | Contradicted | NotVerified
  datatype Tone = Pending | Confirmed | Refused | Neutral

  /** Confidence in thousandths. */
  type Confidence = c: nat | c <= 1000

  datatype Observation = Observation(criterion: Option<string>, kind: string, excerpt: string, status: Status,
                                     value: Option<bool>, evidenceId: Option<string>, review: Review, collectedAt: int,
      confidence: Confidence)

  /** The project's criteria by key, and the text and mapping functions of the screen. */
  datatype Icp = Icp(
    criteria: seq<string>,
    isMapped: Observation -> bool,                 // the extraction rule explicitly maps to the row's own criterion
    fold: string -> string,
    compact: string -> string,
    isBlank: string -> bool,
    isSiteKind: string -> bool)

  predicate IsReviewable(icp: Icp, o: Observation) {
    && Truthy(o.evidenceId) && o.value.Some? && o.status != Unknown && !icp.isBlank(o.excerpt)
    && Truthy(o.criterion) && o.criterion.value in icp.criteria && icp.isMapped(o)
  }

  function ToneOf(icp: Icp, o: Observation): Tone {
    if o.review == Verified then Confirmed
    else if o.review == Contradicted then Refused
    else if o.status == Unknown then Neutral
    else if IsReviewable(icp, o) then Pending
    else Neutral
  }

  // ---------------------------------------------------------------- one card per repeated sentence

  /** The key under which the same sentence is shown once. */
  function KeyOf(icp: Icp, o: Observation): string {
    (if o.criterion.Some? then o.criterion.value else o.kind) + "|" + icp.fold(o.excerpt)
  }

  /** What a sentence is shown under: its criterion, or its kind when it has none. */
  function HeadingOf(o: Observation): string {
    if o.criterion.Some? then o.criterion.value else o.kind
  }

  /** Two rows are copies of one sentence when heading and folded text agree, and only then if no heading has a bar. */
  lemma CopiesIff(icp: Icp, a: Observation, b: Observation)
    ensures HeadingOf(a) == HeadingOf(b) && icp.fold(a.excerpt) == icp.fold(b.excerpt) ==>
              KeyOf(icp, a) == KeyOf(icp, b)
    ensures KeyOf(icp, a) == KeyOf(icp, b) && '|' !in HeadingOf(a) && '|' !in HeadingOf(b) ==>
              HeadingOf(a) == HeadingOf(b) && icp.fold(a.excerpt) == icp.fold(b.excerpt)
  {
    if KeyOf(icp, a) == KeyOf(icp, b) && '|' !in HeadingOf(a) && '|' !in HeadingOf(b) {
      CutAtBar(HeadingOf(a), icp.fold(a.excerpt), HeadingOf(b), icp.fold(b.excerpt));
    }
  }

  /** A text without a bar ends before the first bar of the whole. */
  lemma NoBarBefore(a: string, x: string, b: string, y: string)
    requires a + "|" + x == b + "|" + y && '|' !in b
    ensures |b| <= |a|
  {
    assert (a + "|" + x)[|a|] == '|';
    assert forall i | 0 <= i < |b| :: (b + "|" + y)[i] == b[i];
  }

  lemma CutAtBar(a: string, x: string, b: string, y: string)
    requires a + "|" + x == b + "|" + y && '|' !in a && '|' !in b
    ensures a == b && x == y
  {
    NoBarBefore(a, x, b, y);
    NoBarBefore(b, y, a, x);
    var s, t := a + "|" + x, b + "|" + y;
    assert s[..|a|] == a && t[..|b|] == b && s[|a| + 1..] == x && t[|b| + 1..] == y;
  }

  function ReviewRank(r: Review): nat {
    match r case Verified => 0 case Contradicted => 1 case NotVerified => 2
  }

  /** `b` is preferred to `a`: a decided row first, then a reviewable one, then the more recent. */
  predicate Better(icp: Icp, b: Observation, a: Observation) {
    if ReviewRank(b.review) != ReviewRank(a.review) then ReviewRank(b.review) < ReviewRank(a.review)
    else if IsReviewable(icp, b) != IsReviewable(icp, a) then IsReviewable(icp, b)
    else b.collectedAt > a.collectedAt
  }

  /** The preference is a total preorder: "not better" is transitive, and never both ways better. */
  lemma BetterIsAPreorder(icp: Icp, a: Observation, b: Observation, c: Observation)
    ensures !(Better(icp, a, b) && Better(icp, b, a))
    ensures !Better(icp, a, b) && !Better(icp, b, c) ==> !Better(icp, a, c)
    ensures !Better(icp, a, a)
  {
  }

  /**
   The preference between two copies of a sentence, outright: a confirmed row over one that is not, a refuted one over
   an undecided one; among rows decided alike, one that can be reviewed over one that cannot; else the later one.
   */
  lemma BetterReads(icp: Icp, b: Observation, a: Observation)
    ensures b.review == Verified && a.review != Verified ==> Better(icp, b, a)
    ensures b.review == Contradicted && a.review == NotVerified ==> Better(icp, b, a)
    ensures b.review == a.review && IsReviewable(icp, b) && !IsReviewable(icp, a) ==> Better(icp, b, a)
    ensures b.review == a.review && IsReviewable(icp, b) == IsReviewable(icp, a) ==>
              (Better(icp, b, a) <==> a.collectedAt < b.collectedAt)
    ensures Better(icp, b, a) ==> !Better(icp, a, b)
  {
  }

  /** A card reads as a person decided; undecided, it waits exactly when its row can be reviewed. */
  lemma ToneReads(icp: Icp, o: Observation)
    ensures ToneOf(icp, o) == Confirmed <==> o.review == Verified
    ensures ToneOf(icp, o) == Refused <==> o.review == Contradicted
    ensures ToneOf(icp, o) == Pending <==> o.review == NotVerified && IsReviewable(icp, o)
  {
  }

  /** `preferred`: the row already shown wins ties. */
  function Preferred(icp: Icp, seen: Observation, o: Observation): Observation {
    if Better(icp, o, seen) then o else seen
  }

  function HasKey(icp: Icp, key: string): Observation -> bool {
    (w: Observation) => KeyOf(icp, w) == key
  }

  function Shown(icp: Icp, winners: seq<Observation>, o: Observation): seq<Observation> {
    var at := FirstIndex(winners, HasKey(icp, KeyOf(icp, o)));
    if at < |winners| then winners[at := Preferred(icp, winners[at], o)] else winners + [o]
  }

  /** The winners of the first `n` rows, by key of first appearance; rows without information are left out. */
  function Winners(icp: Icp, rows: seq<Observation>, n: nat): seq<Observation>
    requires n <= |rows|
  {
    if n == 0 then [] else ShownNext(icp, Winners(icp, rows, n - 1), rows[n - 1])
  }

  function ShownNext(icp: Icp, winners: seq<Observation>, o: Observation): seq<Observation> {
    if o.status == Unknown then winners else Shown(icp, winners, o)
  }

  method CollectWinners(icp: Icp, rows: seq<Observation>) returns (winners: seq<Observation>)
    ensures winners == Winners(icp, rows, |rows|)
  {
    winners := [];
    for n := 0 to |rows|
      invariant winners == Winners(icp, rows, n)
    {
      if rows[n].status != Unknown {
        var at := FirstIndex(winners, HasKey(icp, KeyOf(icp, rows[n])));
        if at < |winners| {
          winners := winners[at := Preferred(icp, winners[at], rows[n])];
        } else {
          winners := winners + [rows[n]];
        }
      }
    }
  }

  ghost predicate OnePerKey(icp: Icp, winners: seq<Observation>) {
    forall i, j | 0 <= i < j < |winners| :: KeyOf(icp, winners[i]) != KeyOf(icp, winners[j])
  }

  /** The winner of the row's key is shown, and the row is not better than it. */
  ghost predicate Represented(icp: Icp, winners: seq<Observation>, o: Observation) {
    exists i | 0 <= i < |winners| :: KeyOf(icp, winners[i]) == KeyOf(icp, o) && !Better(icp, o, winners[i])
  }

  ghost predicate WinnersRight(icp: Icp, rows: seq<Observation>, n: nat, winners: seq<Observation>)
    requires n <= |rows|
  {
    && OnePerKey(icp, winners)
    && (forall i | 0 <= i < |winners| :: winners[i] in rows && winners[i].status != Unknown)
    && (forall k | 0 <= k < n && rows[k].status != Unknown :: Represented(icp, winners, rows[k]))
  }

  lemma ShownKeepsRepresented(icp: Icp, winners: seq<Observation>, o: Observation, r: Observation)
    requires OnePerKey(icp, winners) && Represented(icp, winners, r)
    ensures Represented(icp, Shown(icp, winners, o), r)
  {
    var next := Shown(icp, winners, o);
    var i :| 0 <= i < |winners| && KeyOf(icp, winners[i]) == KeyOf(icp, r) && !Better(icp, r, winners[i]);
    assert KeyOf(icp, next[i]) == KeyOf(icp, r);
    BetterIsAPreorder(icp, r, winners[i], o);
    assert next[i] == winners[i] || next[i] == o;
  }

  lemma ShownIsRepresented(icp: Icp, winners: seq<Observation>, o: Observation)
    requires OnePerKey(icp, winners)
    ensures Represented(icp, Shown(icp, winners, o), o) && OnePerKey(icp, Shown(icp, winners, o))
  {
    var at := FirstIndex(winners, HasKey(icp, KeyOf(icp, o)));
    var next := Shown(icp, winners, o);
    BetterIsAPreorder(icp, o, if at < |winners| then winners[at] else o, o);
    assert KeyOf(icp, next[at]) == KeyOf(icp, o) && !Better(icp, o, next[at]);
    forall i, j | 0 <= i < j < |next|
      ensures KeyOf(icp, next[i]) != KeyOf(icp, next[j])
    {
      if at == |winners| && j == at {
        assert !HasKey(icp, KeyOf(icp, o))(winners[i]);
      }
    }
  }

  lemma OneMoreRow(icp: Icp, rows: seq<Observation>, n: nat, winners: seq<Observation>)
    requires n < |rows| && WinnersRight(icp, rows, n, winners)
    ensures WinnersRight(icp, rows, n + 1, ShownNext(icp, winners, rows[n]))
  {
    if rows[n].status != Unknown {
      var next := Shown(icp, winners, rows[n]);
      ShownIsRepresented(icp, winners, rows[n]);
      forall k | 0 <= k < n + 1 && rows[k].status != Unknown
        ensures Represented(icp, next, rows[k])
      {
        if k < n {
          ShownKeepsRepresented(icp, winners, rows[n], rows[k]);
        }
      }
      forall i | 0 <= i < |next|
        ensures next[i] in rows && next[i].status != Unknown
      {
        assert next[i] == rows[n] || (i < |winners| && next[i] == winners[i]);
      }
    }
  }

  lemma NoRowsYet(icp: Icp, rows: seq<Observation>)
    ensures WinnersRight(icp, rows, 0, [])
  {
  }

  /** What holds of no row and is kept by every row holds of all of them. */
  lemma {:induction false} WinnersKeep(icp: Icp, rows: seq<Observation>, n: nat, inv: (nat, seq<Observation>) -> bool)
    requires n <= |rows| && inv(0, [])
    requires forall k: nat, w: seq<Observation> | k < |rows| && inv(k, w) :: inv(k + 1, ShownNext(icp, w, rows[k]))
    ensures inv(n, Winners(icp, rows, n))
    decreases n
  {
    if n > 0 {
      WinnersKeep(icp, rows, n - 1, inv);
    }
  }

  ghost function RightUpTo(icp: Icp, rows: seq<Observation>): (nat, seq<Observation>) -> bool {
    (n: nat, winners: seq<Observation>) => n <= |rows| && WinnersRight(icp, rows, n, winners)
  }

  /** Exactly one winner per key of the informative rows, and it is the best of them. */
  lemma WinnersLaws(icp: Icp, rows: seq<Observation>, n: nat)
    requires n <= |rows|
    ensures WinnersRight(icp, rows, n, Winners(icp, rows, n))
  {
    var inv := RightUpTo(icp, rows);
    NoRowsYet(icp, rows);
    forall k: nat, w: seq<Observation> | k < |rows| && inv(k, w)
      ensures inv(k + 1, ShownNext(icp, w, rows[k]))
    {
      OneMoreRow(icp, rows, k, w);
    }
    WinnersKeep(icp, rows, n, inv);
    assert inv(n, Winners(icp, rows, n));
  }

  /**
   Among the first `n` rows, row `i` leads the copies of its sentence: none is preferred to it, and it is preferred
   to all before it.
   */
  ghost predicate Leads(icp: Icp, rows: seq<Observation>, n: nat, i: nat) {
    && i < n <= |rows| && rows[i].status != Unknown
    && forall k | 0 <= k < n && rows[k].status != Unknown && KeyOf(icp, rows[k]) == KeyOf(icp, rows[i]) ::
         !Better(icp, rows[k], rows[i]) && (k < i ==> Better(icp, rows[i], rows[k]))
  }

  /** Every winner is a leading row. */
  ghost predicate AllLead(icp: Icp, rows: seq<Observation>, n: nat, winners: seq<Observation>) {
    forall w | 0 <= w < |winners| :: IsLeader(icp, rows, n, winners[w])
  }

  ghost predicate IsLeader(icp: Icp, rows: seq<Observation>, n: nat, o: Observation) {
    exists i: nat :: Leads(icp, rows, n, i) && rows[i] == o
  }

  /** A leading row still leads after a row that is another sentence, or is not preferred to it. */
  lemma StillLeads(icp: Icp, rows: seq<Observation>, n: nat, o: Observation)
    requires n < |rows| && IsLeader(icp, rows, n, o)
    requires rows[n].status == Unknown || KeyOf(icp, rows[n]) != KeyOf(icp, o) || !Better(icp, rows[n], o)
    ensures IsLeader(icp, rows, n + 1, o)
  {
    var i: nat :| Leads(icp, rows, n, i) && rows[i] == o;
    assert Leads(icp, rows, n + 1, i);
  }

  /** A row preferred to the leading one leads after it. */
  lemma TakesTheLead(icp: Icp, rows: seq<Observation>, n: nat, o: Observation)
    requires n < |rows| && IsLeader(icp, rows, n, o) && rows[n].status != Unknown
    requires KeyOf(icp, rows[n]) == KeyOf(icp, o) && Better(icp, rows[n], o)
    ensures IsLeader(icp, rows, n + 1, rows[n])
  {
    var i: nat :| Leads(icp, rows, n, i) && rows[i] == o;
    forall k | 0 <= k < n + 1 && rows[k].status != Unknown && KeyOf(icp, rows[k]) == KeyOf(icp, rows[n])
      ensures !Better(icp, rows[k], rows[n]) && (k < n ==> Better(icp, rows[n], rows[k]))
    {
      BetterIsAPreorder(icp, rows[n], rows[k], rows[i]);
      BetterIsAPreorder(icp, rows[k], rows[n], rows[i]);
    }
    assert Leads(icp, rows, n + 1, n);
  }

  /** The first row of a sentence leads. */
  lemma LeadsAlone(icp: Icp, rows: seq<Observation>, n: nat)
    requires n < |rows| && rows[n].status != Unknown
    requires forall k | 0 <= k < n && rows[k].status != Unknown :: KeyOf(icp, rows[k]) != KeyOf(icp, rows[n])
    ensures IsLeader(icp, rows, n + 1, rows[n])
  {
    BetterIsAPreorder(icp, rows[n], rows[n], rows[n]);
    assert Leads(icp, rows, n + 1, n);
  }

  lemma OneMoreLeads(icp: Icp, rows: seq<Observation>, n: nat, winners: seq<Observation>)
    requires n < |rows| && WinnersRight(icp, rows, n, winners) && AllLead(icp, rows, n, winners)
    ensures AllLead(icp, rows, n + 1, ShownNext(icp, winners, rows[n]))
  {
    var o, next := rows[n], ShownNext(icp, winners, rows[n]);
    var at := FirstIndex(winners, HasKey(icp, KeyOf(icp, o)));
    forall w | 0 <= w < |next|
      ensures IsLeader(icp, rows, n + 1, next[w])
    {
      if w < |winners| && next[w] == winners[w] {
        assert IsLeader(icp, rows, n, winners[w]);
        if o.status != Unknown && KeyOf(icp, winners[w]) == KeyOf(icp, o) {
          assert w == at;
        }
        StillLeads(icp, rows, n, winners[w]);
      } else if w < |winners| {
        TakesTheLead(icp, rows, n, winners[w]);
      } else {
        forall k | 0 <= k < n && rows[k].status != Unknown
          ensures KeyOf(icp, rows[k]) != KeyOf(icp, o)
        {
          assert Represented(icp, winners, rows[k]);
          var v :| 0 <= v < |winners| && KeyOf(icp, winners[v]) == KeyOf(icp, rows[k]);
          assert !HasKey(icp, KeyOf(icp, o))(winners[v]);
        }
        LeadsAlone(icp, rows, n);
      }
    }
  }

  ghost function LeadingUpTo(icp: Icp, rows: seq<Observation>): (nat, seq<Observation>) -> bool {
    (n: nat, winners: seq<Observation>) => n <= |rows| && WinnersRight(icp, rows, n, winners)
        && AllLead(icp, rows, n, winners)
  }

  lemma WinnersLead(icp: Icp, rows: seq<Observation>)
    ensures AllLead(icp, rows, |rows|, Winners(icp, rows, |rows|))
  {
    var inv := LeadingUpTo(icp, rows);
    NoRowsYet(icp, rows);
    forall k: nat, w: seq<Observation> | k < |rows| && inv(k, w)
      ensures inv(k + 1, ShownNext(icp, w, rows[k]))
    {
      OneMoreRow(icp, rows, k, w);
      OneMoreLeads(icp, rows, k, w);
    }
    WinnersKeep(icp, rows, |rows|, inv);
    assert inv(|rows|, Winners(icp, rows, |rows|));
  }

  /** Two rows that lead the copies of one sentence are the same row. */
  lemma OneLeads(icp: Icp, rows: seq<Observation>, i: nat, j: nat)
    requires Leads(icp, rows, |rows|, i) && Leads(icp, rows, |rows|, j) && KeyOf(icp, rows[i]) == KeyOf(icp, rows[j])
    ensures i == j
  {
  }

  /** The rows shown are exactly the leading ones. */
  lemma WinnersAreTheLeaders(icp: Icp, rows: seq<Observation>, o: Observation)
    ensures o in Winners(icp, rows, |rows|) <==> IsLeader(icp, rows, |rows|, o)
  {
    var winners := Winners(icp, rows, |rows|);
    WinnersLead(icp, rows);
    WinnersLaws(icp, rows, |rows|);
    if IsLeader(icp, rows, |rows|, o) {
      var i: nat :| Leads(icp, rows, |rows|, i) && rows[i] == o;
      assert Represented(icp, winners, rows[i]);
      var w :| 0 <= w < |winners| && KeyOf(icp, winners[w]) == KeyOf(icp, rows[i]);
      assert IsLeader(icp, rows, |rows|, winners[w]);
      var j: nat :| Leads(icp, rows, |rows|, j) && rows[j] == winners[w];
      OneLeads(icp, rows, i, j);
    }
  }

  // ---------------------------------------------------------------- cards

  datatype Card = Card(row: Observation, proposal: bool, criterion: Option<string>, tone: Tone)

  function CardOf(icp: Icp, o: Observation): Card {
    Card(o, IsReviewable(icp, o), if IsReviewable(icp, o) then o.criterion else None, ToneOf(icp, o))
  }

  function Cards(icp: Icp, winners: seq<Observation>): (cards: seq<Card>)
    ensures |cards| == |winners| && forall i | 0 <= i < |cards| :: cards[i] == CardOf(icp, winners[i])
  {
    seq(|winners|, i requires 0 <= i < |winners| => CardOf(icp, winners[i]))
  }

  function ToneRank(t: Tone): nat {
    match t case Pending => 0 case Confirmed => 1 case Refused => 2 case Neutral => 3
  }

  /** The cards satisfying `p` among the first `n`, in order. */
  function Filter(cards: seq<Card>, p: Card -> bool, n: nat): (kept: seq<Card>)
    requires n <= |cards|
    ensures forall i | 0 <= i < |kept| :: p(kept[i]) && kept[i] in cards
  {
    if n == 0 then [] else Filter(cards, p, n - 1) + if p(cards[n - 1]) then [cards[n - 1]] else []
  }

  lemma {:induction false} FilterTimes(cards: seq<Card>, p: Card -> bool, n: nat, c: Card)
    requires n <= |cards|
    ensures Times(Filter(cards, p, n), c) == if p(c) then Occurrences(cards, c, n) else 0
    decreases n
  {
    if n > 0 {
      FilterTimes(cards, p, n - 1, c);
      if p(cards[n - 1]) {
        TimesOfOne(Filter(cards, p, n - 1), cards[n - 1], c);
      } else {
        assert Filter(cards, p, n - 1) + [] == Filter(cards, p, n - 1);
      }
    }
  }

  // ---------------------------------------------------------------- the three lists of the screen

  /** ICP order, then tone: the single comparator of the proposals. */
  function ProposalRank(icp: Icp): Card -> nat {
    (c: Card) => OrderOf(icp, c) * 4 + ToneRank(c.tone)
  }

  /** The position of the card's criterion in the ICP; a card without one comes last. */
  function OrderOf(icp: Icp, c: Card): nat {
    if c.criterion.Some? then FirstIndex(icp.criteria, (k: string) => k == c.criterion.value) else |icp.criteria|
  }

  function IsProposal(c: Card): bool {
    c.proposal
  }

  function IsSiteNote(icp: Icp): Card -> bool {
    (c: Card) => !c.proposal && icp.isSiteKind(c.row.kind)
  }

  function IsOther(icp: Icp): Card -> bool {
    (c: Card) => !c.proposal && !icp.isSiteKind(c.row.kind)
  }

  function Proposals(icp: Icp, cards: seq<Card>): seq<Card> {
    SortBy(Filter(cards, IsProposal, |cards|), ProposalRank(icp))
  }

  /** Most useful first: by tone, then by decreasing confidence, ties in place. */
  function ByToneAndConfidence(cards: seq<Card>): seq<Card> {
    SortBy(SortBy(cards, (c: Card) => 1000 - c.row.confidence), (c: Card) => ToneRank(c.tone))
  }

  /** Pending before confirmed, before refused, before neutral. */
  predicate ToneBefore(x: Tone, y: Tone) {
    match x
    case Pending => y != Pending
    case Confirmed => y == Refused || y == Neutral
    case Refused => y == Neutral
    case Neutral => false
  }

  /**
   Within a block the pending sentences come first, then the confirmed ones, then the refused ones, most confident
   first.
   */
  lemma BlockIsSorted(cards: seq<Card>, a: nat, b: nat)
    requires a < b < |cards|
    ensures |ByToneAndConfidence(cards)| == |cards|
    ensures var x, y := ByToneAndConfidence(cards)[a], ByToneAndConfidence(cards)[b];
            ToneBefore(x.tone, y.tone) || (x.tone == y.tone && x.row.confidence >= y.row.confidence)
  {
    var confident, tone := (c: Card) => 1000 - c.row.confidence, (c: Card) => ToneRank(c.tone);
    var order := ComposedSort(cards, confident, tone);
    assert ByToneAndConfidence(cards) == At(cards, order);
    assert ShownBefore(Ranks(cards, tone), Ranks(cards, confident), order[a], order[b]);
  }

  function Sentence(icp: Icp, c: Card): string {
    icp.compact(c.row.excerpt)
  }

  /** A longer sentence of the same tone contains this one. */
  predicate CoveredBy(icp: Icp, c: Card, longer: Card) {
    longer.tone == c.tone && |Sentence(icp, longer)| > |Sentence(icp, c)| > 0
        && Contains(Sentence(icp, longer), Sentence(icp, c))
  }

  predicate IsCovered(icp: Icp, cards: seq<Card>, c: Card) {
    exists j | 0 <= j < |cards| :: CoveredBy(icp, c, cards[j])
  }

  function Covered(icp: Icp, cards: seq<Card>): Card -> bool {
    (c: Card) => IsCovered(icp, cards, c)
  }

  function Uncovered(icp: Icp, cards: seq<Card>): Card -> bool {
    (c: Card) => !IsCovered(icp, cards, c)
  }

  /** `bestFirst`: the sentences nothing covers, then the covered ones. */
  function BestFirst(icp: Icp, cards: seq<Card>): seq<Card> {
    var sorted := ByToneAndConfidence(cards);
    Filter(sorted, Uncovered(icp, sorted), |sorted|) + Filter(sorted, Covered(icp, sorted), |sorted|)
  }

  /** Nothing is lost or repeated by the order inside a block. */
  lemma BestFirstKeepsCards(icp: Icp, cards: seq<Card>, c: Card)
    ensures Times(BestFirst(icp, cards), c) == Times(cards, c)
  {
    var sorted := ByToneAndConfidence(cards);
    var confident := (c: Card) => 1000 - c.row.confidence;
    SortKeepsRows(cards, confident, c);
    SortKeepsRows(SortBy(cards, confident), (c: Card) => ToneRank(c.tone), c);
    FilterTimes(sorted, Uncovered(icp, sorted), |sorted|, c);
    FilterTimes(sorted, Covered(icp, sorted), |sorted|, c);
    TimesOfBoth(Filter(sorted, Uncovered(icp, sorted), |sorted|), Filter(sorted, Covered(icp, sorted), |sorted|), c);
  }

  /** The position of a longest sentence. */
  lemma {:induction false} Longest(icp: Icp, cards: seq<Card>, n: nat) returns (i: nat)
    requires 0 < n <= |cards|
    ensures i < n && forall j | 0 <= j < n :: |Sentence(icp, cards[j])| <= |Sentence(icp, cards[i])|
    decreases n
  {
    if n == 1 {
      i := 0;
    } else {
      i := Longest(icp, cards, n - 1);
      if |Sentence(icp, cards[n - 1])| > |Sentence(icp, cards[i])| {
        i := n - 1;
      }
    }
  }

  lemma {:induction false} FilterKeeps(cards: seq<Card>, p: Card -> bool, n: nat, i: nat)
    requires i < n <= |cards| && p(cards[i])
    ensures Filter(cards, p, n) != []
    decreases n
  {
    if i < n - 1 {
      FilterKeeps(cards, p, n - 1, i);
    }
  }

  lemma LongestIsUncovered(icp: Icp, cards: seq<Card>, i: nat)
    requires i < |cards| && forall j | 0 <= j < |cards| :: |Sentence(icp, cards[j])| <= |Sentence(icp, cards[i])|
    ensures !IsCovered(icp, cards, cards[i])
  {
  }

  /** A list that is not empty has a sentence nothing covers. */
  lemma SomethingIsUncovered(icp: Icp, cards: seq<Card>)
    requires cards != []
    ensures Filter(cards, Uncovered(icp, cards), |cards|) != []
  {
    var i := Longest(icp, cards, |cards|);
    LongestIsUncovered(icp, cards, i);
    FilterKeeps(cards, Uncovered(icp, cards), |cards|, i);
  }

  /** A block opens with a sentence no other sentence of its tone covers. */
  lemma BlockOpensUncovered(icp: Icp, cards: seq<Card>)
    requires cards != []
    ensures BestFirst(icp, cards) != []
    ensures Uncovered(icp, ByToneAndConfidence(cards))(BestFirst(icp, cards)[0])
  {
    SomethingIsUncovered(icp, ByToneAndConfidence(cards));
  }

  /** What a filter keeps stays in order. */
  lemma {:induction false} FilterOrder(cards: seq<Card>, p: Card -> bool, n: nat, a: nat, b: nat)
    returns (i: nat, j: nat)
    requires n <= |cards| && a < b < |Filter(cards, p, n)|
    ensures i < j < n && cards[i] == Filter(cards, p, n)[a] && cards[j] == Filter(cards, p, n)[b]
    decreases n
  {
    var before := Filter(cards, p, n - 1);
    if b < |before| {
      i, j := FilterOrder(cards, p, n - 1, a, b);
    } else {
      i := FilterPosition(cards, p, n - 1, a);
      j := n - 1;
    }
  }

  lemma {:induction false} FilterPosition(cards: seq<Card>, p: Card -> bool, n: nat, a: nat) returns (i: nat)
    requires n <= |cards| && a < |Filter(cards, p, n)|
    ensures i < n && cards[i] == Filter(cards, p, n)[a]
    decreases n
  {
    if a < |Filter(cards, p, n - 1)| {
      i := FilterPosition(cards, p, n - 1, a);
    } else {
      i := n - 1;
    }
  }

  predicate ReadsBefore(x: Card, y: Card) {
    ToneBefore(x.tone, y.tone) || (x.tone == y.tone && x.row.confidence >= y.row.confidence)
  }

  lemma PartIsInOrder(cards: seq<Card>, p: Card -> bool, part: seq<Card>, a: nat, b: nat)
    requires part == Filter(ByToneAndConfidence(cards), p, |ByToneAndConfidence(cards)|) && a < b < |part|
    ensures ReadsBefore(part[a], part[b])
  {
    var sorted := ByToneAndConfidence(cards);
    SortedSize(cards);
    var i, j := FilterOrder(sorted, p, |sorted|, a, b);
    BlockIsSorted(cards, i, j);
  }

  lemma TwoParts(first: seq<Card>, second: seq<Card>, covered: Card -> bool, a: nat, b: nat)
    requires a < b < |first + second|
    requires forall c | c in first :: !covered(c)
    requires forall c | c in second :: covered(c)
    requires forall i, j | 0 <= i < j < |first| :: ReadsBefore(first[i], first[j])
    requires forall i, j | 0 <= i < j < |second| :: ReadsBefore(second[i], second[j])
    ensures var x, y := (first + second)[a], (first + second)[b];
            (!covered(x) && covered(y)) || (covered(x) == covered(y) && ReadsBefore(x, y))
  {
    var x, y := (first + second)[a], (first + second)[b];
    assert if a < |first| then x in first else x in second;
    assert if b < |first| then y in first else y in second;
  }

  /** A shown block: the sentences nothing covers, then the covered ones; each part by tone, then confidence. */
  lemma BestFirstIsInOrder(icp: Icp, cards: seq<Card>, a: nat, b: nat)
    requires a < b < |BestFirst(icp, cards)|
    ensures var x, y := BestFirst(icp, cards)[a], BestFirst(icp, cards)[b];
            var covered := Covered(icp, ByToneAndConfidence(cards));
            (!covered(x) && covered(y)) || (covered(x) == covered(y) && ReadsBefore(x, y))
  {
    var sorted := ByToneAndConfidence(cards);
    var covered, bare := Covered(icp, sorted), Uncovered(icp, sorted);
    var first, second := Filter(sorted, bare, |sorted|), Filter(sorted, covered, |sorted|);
    forall i, j | 0 <= i < j < |first|
      ensures ReadsBefore(first[i], first[j])
    {
      PartIsInOrder(cards, bare, first, i, j);
    }
    forall i, j | 0 <= i < j < |second|
      ensures ReadsBefore(second[i], second[j])
    {
      PartIsInOrder(cards, covered, second, i, j);
    }
    forall c | c in first
      ensures !covered(c)
    {
      assert bare(c);
    }
    TwoParts(first, second, covered, a, b);
  }

  lemma SortedSize(cards: seq<Card>)
    ensures |ByToneAndConfidence(cards)| == |cards|
  {
    if |cards| >= 2 {
      BlockIsSorted(cards, 0, 1);
    }
  }

  /**
   Every card is in exactly one of the three lists, as often as it was made: among the proposals when its row can be
   reviewed, among the notes on the site when its kind is one, and otherwise among the others.
   */
  lemma ListsPartitionCards(icp: Icp, cards: seq<Card>, c: Card)
    ensures Times(Proposals(icp, cards), c) == if c.proposal then Times(cards, c) else 0
    ensures Times(Filter(cards, IsSiteNote(icp), |cards|), c)
         == if !c.proposal && icp.isSiteKind(c.row.kind) then Times(cards, c) else 0
    ensures Times(BestFirst(icp, Filter(cards, IsOther(icp), |cards|)), c)
         == if !c.proposal && !icp.isSiteKind(c.row.kind) then Times(cards, c) else 0
  {
    SortKeepsRows(Filter(cards, IsProposal, |cards|), ProposalRank(icp), c);
    BestFirstKeepsCards(icp, Filter(cards, IsOther(icp), |cards|), c);
    FilterTimes(cards, IsProposal, |cards|, c);
    FilterTimes(cards, IsOther(icp), |cards|, c);
    FilterTimes(cards, IsSiteNote(icp), |cards|, c);
  }
}
