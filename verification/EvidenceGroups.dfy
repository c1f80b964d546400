// The blocks of the evidence screen, one per criterion, and the criteria nothing informs (evidence-presentation.ts).
module EvidenceGroups {
  import opened Text
  import Counting
  import opened StableOrder
  import opened EvidencePresentation

  datatype Group = Group(key: string, cards: seq<Card>, pending: nat, verified: nat, tone: Tone)

  /** The criterion's place in the ICP. */
  function Place(icp: Icp, key: string): nat {
    FirstIndex(icp.criteria, (k: string) => k == key)
  }

  /** Criteria of the ICP are told apart by their place. */
  lemma PlaceTellsApart(icp: Icp, a: string, b: string)
    requires a in icp.criteria && b in icp.criteria
    ensures Place(icp, a) < |icp.criteria| && (Place(icp, a) == Place(icp, b) <==> a == b)
  {
    FirstIndexExists(icp.criteria, (k: string) => k == a);
    FirstIndexExists(icp.criteria, (k: string) => k == b);
  }

  predicate IsProposalOf(icp: Icp, c: Card) {
    c == CardOf(icp, c.row) && c.proposal
  }

  /** A proposal speaks for a criterion of the ICP and reads pending, confirmed or refused. */
  lemma ProposalLaws(icp: Icp, c: Card)
    requires IsProposalOf(icp, c)
    ensures c.criterion.Some? && c.criterion.value in icp.criteria && c.tone != Neutral
    ensures OrderOf(icp, c) == Place(icp, c.criterion.value)
  {
  }

  function About(key: string): Card -> bool {
    (c: Card) => c.criterion == Some(key)
  }

  function Toned(tone: Tone): Card -> bool {
    (c: Card) => c.tone == tone
  }

  // ---------------------------------------------------------------- one block per criterion

  datatype Block = Block(key: string, cards: seq<Card>)

  /** The proposals, in ICP order. */
  ghost predicate Ordered(icp: Icp, proposals: seq<Card>) {
    && (forall k | 0 <= k < |proposals| :: IsProposalOf(icp, proposals[k]))
    && (forall k, l | 0 <= k <= l < |proposals| :: OrderOf(icp, proposals[k]) <= OrderOf(icp, proposals[l]))
  }

  predicate BlockIs(icp: Icp, proposals: seq<Card>, n: nat, b: Block)
    requires n <= |proposals|
  {
    b.key in icp.criteria && b.cards != [] && b.cards == Filter(proposals, About(b.key), n)
  }

  ghost predicate Ascending(icp: Icp, blocks: seq<Block>) {
    forall a, b | 0 <= a < b < |blocks| :: Place(icp, blocks[a].key) < Place(icp, blocks[b].key)
  }

  /** No block is placed after a proposal still to come. */
  ghost predicate NotPast(icp: Icp, proposals: seq<Card>, n: nat, blocks: seq<Block>)
    requires n <= |proposals|
  {
    forall a, k | 0 <= a < |blocks| && n <= k < |proposals| :: Place(icp, blocks[a].key) <= OrderOf(icp, proposals[k])
  }

  predicate HasBlock(blocks: seq<Block>, c: Card) {
    exists a | 0 <= a < |blocks| :: c.criterion == Some(blocks[a].key)
  }

  ghost predicate Grouped(icp: Icp, proposals: seq<Card>, n: nat, blocks: seq<Block>)
    requires n <= |proposals|
  {
    && (forall a | 0 <= a < |blocks| :: BlockIs(icp, proposals, n, blocks[a]))
    && Ascending(icp, blocks)
    && (forall k | 0 <= k < n :: HasBlock(blocks, proposals[k]))
  }

  function Speaks(c: Card): Block -> bool {
    (b: Block) => c.criterion == Some(b.key)
  }

  /** One turn: the card joins the block of its criterion, or opens one. */
  function Joined(blocks: seq<Block>, c: Card): seq<Block>
    requires c.criterion.Some?
  {
    var at := FirstIndex(blocks, Speaks(c));
    if at < |blocks| then blocks[at := Block(blocks[at].key, blocks[at].cards + [c])]
    else blocks + [Block(c.criterion.value, [c])]
  }

  lemma OtherBlocksStay(icp: Icp, proposals: seq<Card>, n: nat, b: Block)
    requires n < |proposals| && BlockIs(icp, proposals, n, b) && proposals[n].criterion != Some(b.key)
    ensures BlockIs(icp, proposals, n + 1, b)
  {
    assert Filter(proposals, About(b.key), n) + [] == Filter(proposals, About(b.key), n);
  }

  lemma {:induction false} NothingAbout(proposals: seq<Card>, key: string, n: nat)
    requires n <= |proposals| && forall k | 0 <= k < n :: proposals[k].criterion != Some(key)
    ensures Filter(proposals, About(key), n) == []
    decreases n
  {
    if n > 0 {
      NothingAbout(proposals, key, n - 1);
    }
  }

  /** No block is lost and the card has one. */
  lemma JoinedCovers(blocks: seq<Block>, c: Card, d: Card)
    requires c.criterion.Some? && (HasBlock(blocks, d) || d == c)
    ensures HasBlock(Joined(blocks, c), d)
  {
    var next := Joined(blocks, c);
    if d == c {
      assert c.criterion == Some(next[FirstIndex(blocks, Speaks(c))].key);
    } else {
      var a :| 0 <= a < |blocks| && d.criterion == Some(blocks[a].key);
      assert next[a].key == blocks[a].key;
    }
  }

  /** A new block has a later place than all the others. */
  lemma OpenedBlockIsLast(icp: Icp, proposals: seq<Card>, n: nat, blocks: seq<Block>, a: nat)
    requires n < |proposals| && Ordered(icp, proposals) && NotPast(icp, proposals, n, blocks)
    requires FirstIndex(blocks, Speaks(proposals[n])) == |blocks| && a < |blocks| && blocks[a].key in icp.criteria
    ensures proposals[n].criterion.Some? && proposals[n].criterion != Some(blocks[a].key)
    ensures Place(icp, blocks[a].key) < Place(icp, proposals[n].criterion.value)
  {
    var c := proposals[n];
    ProposalLaws(icp, c);
    assert !Speaks(c)(blocks[a]);
    PlaceTellsApart(icp, blocks[a].key, c.criterion.value);
  }

  lemma JoinedAscends(icp: Icp, proposals: seq<Card>, n: nat, blocks: seq<Block>)
    requires n < |proposals| && Ordered(icp, proposals) && NotPast(icp, proposals, n, blocks) && Ascending(icp, blocks)
    requires forall a | 0 <= a < |blocks| :: blocks[a].key in icp.criteria
    ensures proposals[n].criterion.Some? && Ascending(icp, Joined(blocks, proposals[n]))
  {
    var c := proposals[n];
    ProposalLaws(icp, c);
    var at := FirstIndex(blocks, Speaks(c));
    var next := Joined(blocks, c);
    forall a, b | 0 <= a < b < |next|
      ensures Place(icp, next[a].key) < Place(icp, next[b].key)
    {
      if b == |blocks| {
        OpenedBlockIsLast(icp, proposals, n, blocks, a);
      } else {
        assert next[a].key == blocks[a].key && next[b].key == blocks[b].key;
      }
    }
  }

  lemma CardOpensBlock(icp: Icp, proposals: seq<Card>, n: nat, blocks: seq<Block>)
    requires n < |proposals| && IsProposalOf(icp, proposals[n])
    requires forall k | 0 <= k < n :: HasBlock(blocks, proposals[k])
    requires FirstIndex(blocks, Speaks(proposals[n])) == |blocks|
    ensures proposals[n].criterion.Some?
    ensures BlockIs(icp, proposals, n + 1, Block(proposals[n].criterion.value, [proposals[n]]))
  {
    var key := proposals[n].criterion.value;
    forall k | 0 <= k < n
      ensures proposals[k].criterion != Some(key)
    {
      assert HasBlock(blocks, proposals[k]);
      var a :| 0 <= a < |blocks| && proposals[k].criterion == Some(blocks[a].key);
      assert !Speaks(proposals[n])(blocks[a]);
    }
    NothingAbout(proposals, key, n);
  }

  /** Each block holds the proposals of its criterion among the rows read so far. */
  lemma BlocksHold(icp: Icp, proposals: seq<Card>, n: nat, blocks: seq<Block>, a: nat)
    requires n < |proposals| && IsProposalOf(icp, proposals[n]) && Grouped(icp, proposals, n, blocks)
    ensures proposals[n].criterion.Some?
    ensures a < |Joined(blocks, proposals[n])| ==> BlockIs(icp, proposals, n + 1, Joined(blocks, proposals[n])[a])
  {
    var c := proposals[n];
    var at := FirstIndex(blocks, Speaks(c));
    if at == |blocks| {
      CardOpensBlock(icp, proposals, n, blocks);
    }
    if a < |blocks| {
      assert BlockIs(icp, proposals, n, blocks[a]);
      if a != at {
        assert !Speaks(c)(blocks[a]) by {
          if at < |blocks| {
            assert Place(icp, blocks[a].key) != Place(icp, blocks[at].key);
          }
        }
        OtherBlocksStay(icp, proposals, n, blocks[a]);
      }
    }
  }

  lemma BlocksStillHold(icp: Icp, proposals: seq<Card>, n: nat, blocks: seq<Block>)
    requires n < |proposals| && IsProposalOf(icp, proposals[n]) && Grouped(icp, proposals, n, blocks)
    ensures proposals[n].criterion.Some?
    ensures forall a | 0 <= a < |Joined(blocks, proposals[n])| ::
        BlockIs(icp, proposals, n + 1, Joined(blocks, proposals[n])[a])
  {
    forall a: nat | a < |Joined(blocks, proposals[n])|
      ensures BlockIs(icp, proposals, n + 1, Joined(blocks, proposals[n])[a])
    {
      BlocksHold(icp, proposals, n, blocks, a);
    }
  }

  lemma AllCovered(proposals: seq<Card>, n: nat, blocks: seq<Block>)
    requires n < |proposals| && proposals[n].criterion.Some? && forall k | 0 <= k < n :: HasBlock(blocks, proposals[k])
    ensures forall k | 0 <= k < n + 1 :: HasBlock(Joined(blocks, proposals[n]), proposals[k])
  {
    forall k | 0 <= k < n + 1
      ensures HasBlock(Joined(blocks, proposals[n]), proposals[k])
    {
      JoinedCovers(blocks, proposals[n], proposals[k]);
    }
  }

  lemma OneMoreCard(icp: Icp, proposals: seq<Card>, n: nat, blocks: seq<Block>)
    requires n < |proposals| && Ordered(icp, proposals)
    requires Grouped(icp, proposals, n, blocks) && NotPast(icp, proposals, n, blocks)
    ensures proposals[n].criterion.Some?
    ensures Grouped(icp, proposals, n + 1, Joined(blocks, proposals[n]))
  {
    assert forall a | 0 <= a < |blocks| :: BlockIs(icp, proposals, n, blocks[a]);
    JoinedAscends(icp, proposals, n, blocks);
    BlocksStillHold(icp, proposals, n, blocks);
    AllCovered(proposals, n, blocks);
  }

  lemma StillNotPast(icp: Icp, proposals: seq<Card>, n: nat, blocks: seq<Block>)
    requires n < |proposals| && Ordered(icp, proposals) && NotPast(icp, proposals, n, blocks)
    ensures proposals[n].criterion.Some?
    ensures NotPast(icp, proposals, n + 1, Joined(blocks, proposals[n]))
  {
    var c := proposals[n];
    ProposalLaws(icp, c);
    var next := Joined(blocks, c);
    forall a, k | 0 <= a < |next| && n + 1 <= k < |proposals|
      ensures Place(icp, next[a].key) <= OrderOf(icp, proposals[k])
    {
      assert next[a].key == c.criterion.value || (a < |blocks| && next[a].key == blocks[a].key);
    }
  }

  /** The blocks of the first `n` proposals. */
  function BlocksUpTo(icp: Icp, proposals: seq<Card>, n: nat): seq<Block>
    requires n <= |proposals| && Ordered(icp, proposals)
  {
    if n == 0 then []
    else
      ProposalLaws(icp, proposals[n - 1]);
      Joined(BlocksUpTo(icp, proposals, n - 1), proposals[n - 1])
  }

  /** What holds of no card and is kept by every card holds of all of them. */
  lemma {:induction false} BlocksKeep(icp: Icp, proposals: seq<Card>, n: nat, inv: (nat, seq<Block>) -> bool)
    requires n <= |proposals| && Ordered(icp, proposals) && inv(0, [])
    requires forall k: nat, w: seq<Block> | k < |proposals| && proposals[k].criterion.Some? && inv(k, w) ::
        inv(k + 1, Joined(w, proposals[k]))
    ensures inv(n, BlocksUpTo(icp, proposals, n))
    decreases n
  {
    if n > 0 {
      ProposalLaws(icp, proposals[n - 1]);
      BlocksKeep(icp, proposals, n - 1, inv);
    }
  }

  ghost predicate BlocksRight(icp: Icp, proposals: seq<Card>, n: nat, blocks: seq<Block>) {
    n <= |proposals| && Grouped(icp, proposals, n, blocks) && NotPast(icp, proposals, n, blocks)
  }

  ghost function RightBlocks(icp: Icp, proposals: seq<Card>): (nat, seq<Block>) -> bool {
    (n: nat, blocks: seq<Block>) => BlocksRight(icp, proposals, n, blocks)
  }

  lemma OneMoreBlock(icp: Icp, proposals: seq<Card>, n: nat, blocks: seq<Block>)
    requires n < |proposals| && Ordered(icp, proposals) && BlocksRight(icp, proposals, n, blocks)
        && proposals[n].criterion.Some?
    ensures BlocksRight(icp, proposals, n + 1, Joined(blocks, proposals[n]))
  {
    OneMoreCard(icp, proposals, n, blocks);
    StillNotPast(icp, proposals, n, blocks);
  }

  lemma NoBlocksYet(icp: Icp, proposals: seq<Card>)
    ensures BlocksRight(icp, proposals, 0, [])
  {
  }

  /** One block per criterion that has a proposal, in ICP order, holding exactly its proposals in their order. */
  lemma BlocksLaws(icp: Icp, proposals: seq<Card>)
    requires Ordered(icp, proposals)
    ensures Grouped(icp, proposals, |proposals|, BlocksUpTo(icp, proposals, |proposals|))
  {
    var inv := RightBlocks(icp, proposals);
    NoBlocksYet(icp, proposals);
    forall k: nat, w: seq<Block> | k < |proposals| && proposals[k].criterion.Some? && inv(k, w)
      ensures inv(k + 1, Joined(w, proposals[k]))
    {
      OneMoreBlock(icp, proposals, k, w);
    }
    BlocksKeep(icp, proposals, |proposals|, inv);
    assert inv(|proposals|, BlocksUpTo(icp, proposals, |proposals|));
  }

  method GroupProposals(icp: Icp, proposals: seq<Card>) returns (blocks: seq<Block>)
    requires Ordered(icp, proposals)
    ensures blocks == BlocksUpTo(icp, proposals, |proposals|)
  {
    blocks := [];
    for n := 0 to |proposals|
      invariant blocks == BlocksUpTo(icp, proposals, n)
    {
      ProposalLaws(icp, proposals[n]);
      var at := FirstIndex(blocks, Speaks(proposals[n]));
      if at < |blocks| {
        blocks := blocks[at := Block(blocks[at].key, blocks[at].cards + [proposals[n]])];
      } else {
        blocks := blocks + [Block(proposals[n].criterion.value, [proposals[n]])];
      }
    }
  }

  // ---------------------------------------------------------------- the state of a block

  function CountToned(cards: seq<Card>, tone: Tone): nat {
    |Filter(cards, Toned(tone), |cards|)|
  }

  function GroupOf(icp: Icp, b: Block): Group {
    var cards := BestFirst(icp, b.cards);
    var pending, verified := CountToned(cards, Pending), CountToned(cards, Confirmed);
    Group(b.key, cards, pending, verified, if pending > 0 then Pending else if verified > 0 then Confirmed else Refused)
  }

  lemma {:induction false} CountedIff(cards: seq<Card>, tone: Tone, n: nat)
    requires n <= |cards|
    ensures Filter(cards, Toned(tone), n) != [] <==> exists i | 0 <= i < n :: cards[i].tone == tone
    decreases n
  {
    if n > 0 {
      CountedIff(cards, tone, n - 1);
    }
  }

  lemma {:induction false} InIffTimes<T>(rows: seq<T>, x: T, n: nat)
    requires n <= |rows|
    ensures Occurrences(rows, x, n) > 0 <==> exists i | 0 <= i < n :: rows[i] == x
    decreases n
  {
    if n > 0 {
      InIffTimes(rows, x, n - 1);
    }
  }

  lemma BestFirstHasTheSame(icp: Icp, cards: seq<Card>, c: Card)
    ensures c in BestFirst(icp, cards) <==> c in cards
  {
    BestFirstKeepsCards(icp, cards, c);
    InIffTimes(cards, c, |cards|);
    InIffTimes(BestFirst(icp, cards), c, |BestFirst(icp, cards)|);
  }

  lemma HasTone(icp: Icp, cards: seq<Card>, tone: Tone)
    ensures CountToned(BestFirst(icp, cards), tone) > 0 <==> exists c | c in cards :: c.tone == tone
  {
    var shown := BestFirst(icp, cards);
    CountedIff(shown, tone, |shown|);
    forall c: Card
      ensures c in shown <==> c in cards
    {
      BestFirstHasTheSame(icp, cards, c);
    }
    if c :| c in cards && c.tone == tone {
      assert c in shown;
    }
    if i :| 0 <= i < |shown| && shown[i].tone == tone {
      assert shown[i] in shown;
    }
  }

  /** A block waits as soon as one proof waits, and reads contradicted exactly when all its proofs do. */
  lemma BlockReads(icp: Icp, b: Block)
    requires forall c | c in b.cards :: c.tone != Neutral
    ensures GroupOf(icp, b).tone == Pending <==> exists c | c in b.cards :: c.tone == Pending
    ensures GroupOf(icp, b).tone == Refused <==> forall c | c in b.cards :: c.tone == Refused
    ensures GroupOf(icp, b).tone != Neutral
  {
    HasTone(icp, b.cards, Pending);
    HasTone(icp, b.cards, Confirmed);
  }

  // ---------------------------------------------------------------- the whole screen

  datatype Presentation = Presentation(proposals: seq<Card>, groups: seq<Group>, others: seq<Card>, site: seq<Card>,
                                       missing: seq<string>)

  predicate GroupIs(icp: Icp, proposals: seq<Card>, g: Group) {
    && g.key in icp.criteria
    && Filter(proposals, About(g.key), |proposals|) != []
    && g == GroupOf(icp, Block(g.key, Filter(proposals, About(g.key), |proposals|)))
  }

  predicate HasGroup(groups: seq<Group>, key: string) {
    exists a | 0 <= a < |groups| :: groups[a].key == key
  }

  ghost predicate GroupsAre(icp: Icp, proposals: seq<Card>, groups: seq<Group>) {
    && (forall a | 0 <= a < |groups| :: GroupIs(icp, proposals, groups[a]))
    && (forall a, b | 0 <= a < b < |groups| :: Place(icp, groups[a].key) < Place(icp, groups[b].key))
    && (forall k | 0 <= k < |proposals| ::
        proposals[k].criterion.Some? && HasGroup(groups, proposals[k].criterion.value))
  }

  function Finished(blocks: seq<Block>, finish: Block -> Group): (groups: seq<Group>)
    ensures |groups| == |blocks| && forall a | 0 <= a < |blocks| :: groups[a] == finish(blocks[a])
  {
    seq(|blocks|, a requires 0 <= a < |blocks| => finish(blocks[a]))
  }

  method FinishGroups(blocks: seq<Block>, finish: Block -> Group) returns (groups: seq<Group>)
    ensures groups == Finished(blocks, finish)
  {
    groups := [];
    for n := 0 to |blocks|
      invariant |groups| == n && forall a | 0 <= a < n :: groups[a] == finish(blocks[a])
    {
      groups := groups + [finish(blocks[n])];
    }
  }

  function Finish(icp: Icp): Block -> Group {
    (b: Block) => GroupOf(icp, b)
  }

  function GroupsOf(icp: Icp, proposals: seq<Card>): (groups: seq<Group>)
    requires Ordered(icp, proposals)
    ensures GroupsAre(icp, proposals, groups)
  {
    var blocks := BlocksUpTo(icp, proposals, |proposals|);
    BlocksLaws(icp, proposals);
    FinishedBlocks(icp, proposals, blocks, Finished(blocks, Finish(icp)));
    Finished(blocks, Finish(icp))
  }

  lemma BlockFinished(icp: Icp, proposals: seq<Card>, b: Block)
    requires BlockIs(icp, proposals, |proposals|, b)
    ensures GroupIs(icp, proposals, GroupOf(icp, b)) && GroupOf(icp, b).key == b.key
  {
  }

  lemma FinishedBlocks(icp: Icp, proposals: seq<Card>, blocks: seq<Block>, groups: seq<Group>)
    requires Grouped(icp, proposals, |proposals|, blocks)
    requires |groups| == |blocks| && forall a | 0 <= a < |blocks| :: groups[a] == Finish(icp)(blocks[a])
    ensures GroupsAre(icp, proposals, groups)
  {
    forall a | 0 <= a < |groups|
      ensures GroupIs(icp, proposals, groups[a]) && groups[a].key == blocks[a].key
    {
      assert BlockIs(icp, proposals, |proposals|, blocks[a]);
      BlockFinished(icp, proposals, blocks[a]);
    }
    forall k | 0 <= k < |proposals|
      ensures proposals[k].criterion.Some? && HasGroup(groups, proposals[k].criterion.value)
    {
      assert HasBlock(blocks, proposals[k]);
      var a :| 0 <= a < |blocks| && proposals[k].criterion == Some(blocks[a].key);
      assert groups[a].key == blocks[a].key;
    }
  }

  /** Some row that can be reviewed speaks for the criterion. */
  predicate Informed(icp: Icp, rows: seq<Observation>, key: string) {
    exists i | 0 <= i < |rows| :: IsReviewable(icp, rows[i]) && rows[i].criterion == Some(key)
  }

  /** The criteria among the first `n` that no row informs. */
  function Uninformed(icp: Icp, rows: seq<Observation>, n: nat): seq<string>
    requires n <= |icp.criteria|
  {
    if n == 0 then []
    else Uninformed(icp, rows, n - 1) + if Informed(icp, rows, icp.criteria[n - 1]) then [] else [icp.criteria[n - 1]]
  }

  /** Nothing is listed as missing before anything was analysed. */
  function Missing(icp: Icp, rows: seq<Observation>): seq<string> {
    if rows == [] then [] else Uninformed(icp, rows, |icp.criteria|)
  }

  lemma {:induction false} UninformedIff(icp: Icp, rows: seq<Observation>, n: nat, key: string)
    requires n <= |icp.criteria|
    ensures key in Uninformed(icp, rows, n)
        <==> !Informed(icp, rows, key) && exists i | 0 <= i < n :: icp.criteria[i] == key
    decreases n
  {
    if n > 0 {
      UninformedIff(icp, rows, n - 1, key);
    }
  }

  function CardsOf(icp: Icp, rows: seq<Observation>): seq<Card> {
    Cards(icp, Winners(icp, rows, |rows|))
  }

  lemma FilterIn(cards: seq<Card>, p: Card -> bool, c: Card)
    ensures c in Filter(cards, p, |cards|) <==> c in cards && p(c)
  {
    FilterTimes(cards, p, |cards|, c);
    InIffTimes(cards, c, |cards|);
    var kept := Filter(cards, p, |cards|);
    InIffTimes(kept, c, |kept|);
  }

  lemma SortIn<T>(rows: seq<T>, rank: T -> nat, c: T)
    ensures c in SortBy(rows, rank) <==> c in rows
  {
    SortKeepsRows(rows, rank, c);
    InIffTimes(rows, c, |rows|);
    InIffTimes(SortBy(rows, rank), c, |SortBy(rows, rank)|);
  }

  lemma CardsIn(icp: Icp, winners: seq<Observation>, c: Card)
    ensures c in Cards(icp, winners) <==> c.row in winners && c == CardOf(icp, c.row)
  {
    if c.row in winners && c == CardOf(icp, c.row) {
      var i :| 0 <= i < |winners| && winners[i] == c.row;
      assert Cards(icp, winners)[i] == c;
    }
  }

  /** The proposals are the cards of the winners that can be reviewed. */
  lemma ProposalsIn(icp: Icp, rows: seq<Observation>, c: Card)
    ensures c in Proposals(icp, CardsOf(icp, rows)) <==> c.row in Winners(icp, rows, |rows|) && IsProposalOf(icp, c)
  {
    var cards := CardsOf(icp, rows);
    SortIn(Filter(cards, IsProposal, |cards|), ProposalRank(icp), c);
    FilterIn(cards, IsProposal, c);
    CardsIn(icp, Winners(icp, rows, |rows|), c);
  }

  lemma RankSaysOrder(icp: Icp, c: Card, d: Card)
    requires ProposalRank(icp)(c) <= ProposalRank(icp)(d)
    ensures OrderOf(icp, c) < OrderOf(icp, d)
        || (OrderOf(icp, c) == OrderOf(icp, d) && !ToneBefore(d.tone, c.tone))
  {
    assert ToneRank(c.tone) < 4 && ToneRank(d.tone) < 4;
  }

  /** The proposals follow the order of the ICP, and within a criterion the pending ones come first. */
  lemma ProposalsFollowTheIcp(icp: Icp, rows: seq<Observation>, k: nat, l: nat)
    requires k <= l < |Proposals(icp, CardsOf(icp, rows))|
    ensures var c, d := Proposals(icp, CardsOf(icp, rows))[k], Proposals(icp, CardsOf(icp, rows))[l];
            OrderOf(icp, c) < OrderOf(icp, d)
                || (OrderOf(icp, c) == OrderOf(icp, d) && !ToneBefore(d.tone, c.tone))
  {
    var cards := CardsOf(icp, rows);
    var some := Filter(cards, IsProposal, |cards|);
    assert |Proposals(icp, cards)| == |some|;
    SortAscends(some, ProposalRank(icp), k, l);
    RankSaysOrder(icp, Proposals(icp, cards)[k], Proposals(icp, cards)[l]);
  }

  /** Every proposal is made from its row, and the proposals follow the ICP. */
  lemma ProposalsAreOrdered(icp: Icp, rows: seq<Observation>)
    ensures Ordered(icp, Proposals(icp, CardsOf(icp, rows)))
  {
    var cards := CardsOf(icp, rows);
    var proposals := Proposals(icp, cards);
    forall k | 0 <= k < |proposals|
      ensures IsProposalOf(icp, proposals[k])
    {
      ProposalsIn(icp, rows, proposals[k]);
    }
    forall k, l | 0 <= k <= l < |proposals|
      ensures OrderOf(icp, proposals[k]) <= OrderOf(icp, proposals[l])
    {
      ProposalsFollowTheIcp(icp, rows, k, l);
    }
  }

  function ProposalsFor(icp: Icp, rows: seq<Observation>): (proposals: seq<Card>)
    ensures Ordered(icp, proposals)
  {
    ProposalsAreOrdered(icp, rows);
    Proposals(icp, CardsOf(icp, rows))
  }

  function GroupsFor(icp: Icp, rows: seq<Observation>): (groups: seq<Group>)
    ensures GroupsAre(icp, ProposalsFor(icp, rows), groups)
  {
    GroupsOf(icp, ProposalsFor(icp, rows))
  }

  method PresentObservations(icp: Icp, rows: seq<Observation>) returns (p: Presentation)
    ensures p.proposals == ProposalsFor(icp, rows) && p.groups == GroupsFor(icp, rows)
        && p.missing == Missing(icp, rows)
    ensures var cards := CardsOf(icp, rows);
            p.others == BestFirst(icp, Filter(cards, IsOther(icp), |cards|))
                && p.site == Filter(cards, IsSiteNote(icp), |cards|)
  {
    var winners := CollectWinners(icp, rows);
    var cards := Cards(icp, winners);
    var proposals := ProposalsFor(icp, rows);
    var blocks := GroupProposals(icp, proposals);
    var groups := FinishGroups(blocks, Finish(icp));
    p := Presentation(proposals, groups, BestFirst(icp, Filter(cards, IsOther(icp), |cards|)),
                      Filter(cards, IsSiteNote(icp), |cards|), Missing(icp, rows));
  }

  // ---------------------------------------------------------------- what the groups hold

  /** A group holds every proposal of its criterion, as often as there are, and nothing else. */
  lemma GroupHolds(icp: Icp, rows: seq<Observation>, c: Card)
    ensures forall g | g in GroupsFor(icp, rows) ::
              Times(g.cards, c) == if c.criterion == Some(g.key) then Times(ProposalsFor(icp, rows), c) else 0
  {
    var proposals := ProposalsFor(icp, rows);
    forall g | g in GroupsFor(icp, rows)
      ensures Times(g.cards, c) == if c.criterion == Some(g.key) then Times(proposals, c) else 0
    {
      assert GroupIs(icp, proposals, g);
      FilterTimes(proposals, About(g.key), |proposals|, c);
      BestFirstKeepsCards(icp, Filter(proposals, About(g.key), |proposals|), c);
    }
  }

  /**
   A group reads pending when a proof waits, contradicted exactly when all its proofs do, and opens with a proof
   nothing covers.
   */
  lemma GroupReads(icp: Icp, rows: seq<Observation>)
    ensures forall g | g in GroupsFor(icp, rows) :: Reads(icp, g)
  {
    var proposals := ProposalsFor(icp, rows);
    forall g | g in GroupsFor(icp, rows)
      ensures Reads(icp, g)
    {
      OneGroupReads(icp, proposals, g);
    }
  }

  ghost predicate Reads(icp: Icp, g: Group) {
    && (g.tone == Pending <==> exists c | c in g.cards :: c.tone == Pending)
    && (g.tone == Refused <==> forall c | c in g.cards :: c.tone == Refused)
    && g.tone != Neutral && g.cards != []
    && forall d | d in g.cards :: !CoveredBy(icp, g.cards[0], d)
  }

  lemma OneGroupReads(icp: Icp, proposals: seq<Card>, g: Group)
    requires Ordered(icp, proposals) && GroupIs(icp, proposals, g)
    ensures Reads(icp, g)
  {
    var own := Filter(proposals, About(g.key), |proposals|);
    forall c | c in own
      ensures c.tone != Neutral
    {
      assert c in proposals;
      ProposalLaws(icp, c);
    }
    BlockReads(icp, Block(g.key, own));
    forall c: Card
      ensures c in g.cards <==> c in own
    {
      BestFirstHasTheSame(icp, own, c);
    }
    OpensUncovered(icp, own);
  }

  lemma BestFirstIn(icp: Icp, cards: seq<Card>, c: Card)
    requires c in BestFirst(icp, cards)
    ensures c in ByToneAndConfidence(cards)
  {
    var sorted := ByToneAndConfidence(cards);
    FilterIn(sorted, Uncovered(icp, sorted), c);
    FilterIn(sorted, Covered(icp, sorted), c);
  }

  /** The first sentence of a block is covered by no sentence of the block. */
  lemma OpensUncovered(icp: Icp, cards: seq<Card>)
    requires cards != []
    ensures BestFirst(icp, cards) != []
    ensures forall d | d in BestFirst(icp, cards) :: !CoveredBy(icp, BestFirst(icp, cards)[0], d)
  {
    BlockOpensUncovered(icp, cards);
    var sorted, best := ByToneAndConfidence(cards), BestFirst(icp, cards);
    var c := best[0];
    assert !IsCovered(icp, sorted, c);
    forall d | d in best
      ensures !CoveredBy(icp, c, d)
    {
      BestFirstIn(icp, cards, d);
      var j :| 0 <= j < |sorted| && sorted[j] == d;
    }
  }

  lemma {:induction false} FilterCounts(cards: seq<Card>, p: Card -> bool, n: nat)
    requires n <= |cards|
    ensures |Filter(cards, p, n)| == Counting.Count(cards, p, n)
    decreases n
  {
    if n > 0 {
      FilterCounts(cards, p, n - 1);
    }
  }

  /**
   A group announces how many of its proofs wait and how many were confirmed, and reads confirmed when some were and
   none waits.
   */
  lemma GroupCounts(icp: Icp, rows: seq<Observation>)
    ensures forall g | g in GroupsFor(icp, rows) ::
              && g.pending == Counting.Count(g.cards, (c: Card) => c.tone == Pending, |g.cards|)
              && g.verified == Counting.Count(g.cards, (c: Card) => c.tone == Confirmed, |g.cards|)
              && (g.tone == Confirmed <==> g.pending == 0 && g.verified > 0)
  {
    var proposals := ProposalsFor(icp, rows);
    forall g | g in GroupsFor(icp, rows)
      ensures && g.pending == Counting.Count(g.cards, (c: Card) => c.tone == Pending, |g.cards|)
              && g.verified == Counting.Count(g.cards, (c: Card) => c.tone == Confirmed, |g.cards|)
              && (g.tone == Confirmed <==> g.pending == 0 && g.verified > 0)
    {
      assert GroupIs(icp, proposals, g);
      FilterCounts(g.cards, Toned(Pending), |g.cards|);
      FilterCounts(g.cards, Toned(Confirmed), |g.cards|);
      SameCount(g.cards, Toned(Pending), (c: Card) => c.tone == Pending, |g.cards|);
      SameCount(g.cards, Toned(Confirmed), (c: Card) => c.tone == Confirmed, |g.cards|);
    }
  }

  lemma {:induction false} SameCount(cards: seq<Card>, p: Card -> bool, q: Card -> bool, n: nat)
    requires n <= |cards| && forall c: Card :: p(c) == q(c)
    ensures Counting.Count(cards, p, n) == Counting.Count(cards, q, n)
    decreases n
  {
    if n > 0 {
      SameCount(cards, p, q, n - 1);
    }
  }

  // ---------------------------------------------------------------- grouped or missing

  predicate IsGrouped(icp: Icp, rows: seq<Observation>, key: string) {
    HasGroup(GroupsFor(icp, rows), key)
  }

  lemma GroupedHasRow(icp: Icp, rows: seq<Observation>, key: string)
    requires IsGrouped(icp, rows, key)
    ensures exists w | w in Winners(icp, rows, |rows|) :: IsReviewable(icp, w) && w.criterion == Some(key)
  {
    var proposals, groups := ProposalsFor(icp, rows), GroupsFor(icp, rows);
    var a :| 0 <= a < |groups| && groups[a].key == key;
    assert GroupIs(icp, proposals, groups[a]);
    var c := Filter(proposals, About(key), |proposals|)[0];
    FilterIn(proposals, About(key), c);
    ProposalsIn(icp, rows, c);
    assert c.row in Winners(icp, rows, |rows|);
  }

  lemma WinnerIsGrouped(icp: Icp, rows: seq<Observation>, w: Observation)
    requires w in Winners(icp, rows, |rows|) && IsReviewable(icp, w)
    ensures IsGrouped(icp, rows, w.criterion.value)
  {
    var c, proposals := CardOf(icp, w), ProposalsFor(icp, rows);
    ProposalsIn(icp, rows, c);
    var k :| 0 <= k < |proposals| && proposals[k] == c;
    assert HasGroup(GroupsFor(icp, rows), proposals[k].criterion.value);
  }

  /** Once something was analysed, a criterion of the ICP is missing exactly when no row about it can be reviewed. */
  lemma MissingIff(icp: Icp, rows: seq<Observation>, key: string)
    ensures key in Missing(icp, rows)
       <==> rows != [] && key in icp.criteria
            && forall o | o in rows :: !(IsReviewable(icp, o) && o.criterion == Some(key))
  {
    UninformedIff(icp, rows, |icp.criteria|, key);
    if o :| o in rows && IsReviewable(icp, o) && o.criterion == Some(key) {
      var i :| 0 <= i < |rows| && rows[i] == o;
      assert Informed(icp, rows, key);
    }
  }

  /** No grouped criterion is listed as missing. */
  lemma GroupedIsNotMissing(icp: Icp, rows: seq<Observation>, key: string)
    ensures IsGrouped(icp, rows, key) ==> Informed(icp, rows, key) && key !in Missing(icp, rows)
  {
    if IsGrouped(icp, rows, key) {
      GroupedHasRow(icp, rows, key);
      WinnersLaws(icp, rows, |rows|);
      var w :| w in Winners(icp, rows, |rows|) && IsReviewable(icp, w) && w.criterion == Some(key);
      var i :| 0 <= i < |rows| && rows[i] == w;
      UninformedIff(icp, rows, |icp.criteria|, key);
    }
  }

  /** Row `i` can be reviewed, speaks for the criterion, and leads the copies of its sentence. */
  ghost predicate SpeaksFirst(icp: Icp, rows: seq<Observation>, key: string, i: nat) {
    Leads(icp, rows, |rows|, i) && IsReviewable(icp, rows[i]) && rows[i].criterion == Some(key)
  }

  /** A criterion has a group exactly when a row about it that can be reviewed leads the copies of its sentence. */
  lemma GroupedIff(icp: Icp, rows: seq<Observation>, key: string)
    ensures IsGrouped(icp, rows, key) <==> exists i: nat :: SpeaksFirst(icp, rows, key, i)
  {
    if IsGrouped(icp, rows, key) {
      GroupedHasRow(icp, rows, key);
      var w :| w in Winners(icp, rows, |rows|) && IsReviewable(icp, w) && w.criterion == Some(key);
      WinnersAreTheLeaders(icp, rows, w);
      var i: nat :| Leads(icp, rows, |rows|, i) && rows[i] == w;
      assert SpeaksFirst(icp, rows, key, i);
    }
    if i: nat :| SpeaksFirst(icp, rows, key, i) {
      WinnersAreTheLeaders(icp, rows, rows[i]);
      WinnerIsGrouped(icp, rows, rows[i]);
    }
  }

  /**
   Once something was analysed, a criterion is neither grouped nor missing exactly when rows inform it and none of
   them leads.
   */
  lemma HiddenIff(icp: Icp, rows: seq<Observation>, key: string)
    requires key in icp.criteria
    ensures !IsGrouped(icp, rows, key) && key !in Missing(icp, rows)
       <==> (rows == [] || Informed(icp, rows, key)) && forall i: nat :: !SpeaksFirst(icp, rows, key, i)
  {
    GroupedIff(icp, rows, key);
    UninformedIff(icp, rows, |icp.criteria|, key);
  }

  /**
   A criterion can be neither grouped nor missing: a sentence that informs it, and a confirmed copy of the sentence
   whose extraction rule no longer speaks for it.
   */
  lemma NeitherGroupedNorMissing(icp: Icp)
    requires "c" in icp.criteria && !icp.isBlank("x")
    requires var open :=
        Observation(Some("c"), "ICP_SIGNAL:c", "x", Inferred, Some(true), Some("e1"), NotVerified, 0, 500);
             icp.isMapped(open)
                 && !icp.isMapped(open.(kind := "PHONE_RAW", evidenceId := Some("e2"), review := Verified))
    ensures var open :=
        Observation(Some("c"), "ICP_SIGNAL:c", "x", Inferred, Some(true), Some("e1"), NotVerified, 0, 500);
            var rows := [open, open.(kind := "PHONE_RAW", evidenceId := Some("e2"), review := Verified)];
            Informed(icp, rows, "c") && !IsGrouped(icp, rows, "c") && "c" !in Missing(icp, rows)
  {
    var open := Observation(Some("c"), "ICP_SIGNAL:c", "x", Inferred, Some(true), Some("e1"), NotVerified, 0, 500);
    var decided := open.(kind := "PHONE_RAW", evidenceId := Some("e2"), review := Verified);
    var rows := [open, decided];
    assert IsReviewable(icp, rows[0]);
    CopyTakesTheLead(icp, rows, "c");
    HiddenIff(icp, rows, "c");
  }

  /** Of two copies of a sentence, a decided one that cannot be reviewed hides the other. */
  lemma CopyTakesTheLead(icp: Icp, rows: seq<Observation>, key: string)
    requires |rows| == 2 && KeyOf(icp, rows[1]) == KeyOf(icp, rows[0]) && rows[0].status != Unknown
        && rows[1].status != Unknown
    requires !IsReviewable(icp, rows[1]) && ReviewRank(rows[1].review) < ReviewRank(rows[0].review)
    ensures forall i: nat :: !SpeaksFirst(icp, rows, key, i)
  {
    assert Better(icp, rows[1], rows[0]);
    forall i: nat
      ensures !SpeaksFirst(icp, rows, key, i)
    {
      assert i == 0 ==> !Leads(icp, rows, |rows|, i);
    }
  }
}
