// expandSecondary of services.ts: how the shortlist makes room, in place, for the companies one request found on their
// own sites, and which of them it gains.
module SecondaryExpansion {
  import opened Text
  import opened Counting
  import opened SecondarySources
  import Search = SearchUntilNew

  // ---------------------------------------------------------------- making room in the shortlist

  /** The last `k` rows satisfying `p` are removed, or all of them when there are fewer. */
  function WithoutLast(rows: seq<Candidate>, p: Candidate -> bool, k: nat): seq<Candidate>
    decreases |rows|
  {
    if rows == [] || k == 0 then rows
    else
      var init, last := rows[..|rows| - 1], rows[|rows| - 1];
      if p(last) then WithoutLast(init, p, k - 1) else WithoutLast(init, p, k) + [last]
  }

  /** The rows that do not satisfy `p`, in order. */
  function Others(rows: seq<Candidate>, p: Candidate -> bool): seq<Candidate> {
    OthersIn(rows, p, |rows|)
  }

  function OthersIn(rows: seq<Candidate>, p: Candidate -> bool, n: nat): seq<Candidate>
    requires n <= |rows|
  {
    if n == 0 then []
    else if p(rows[n - 1]) then OthersIn(rows, p, n - 1)
    else OthersIn(rows, p, n - 1) + [rows[n - 1]]
  }

  predicate IsSetAside(c: Candidate) {
    !c.eligible
  }

  function IsSpare(cites: set<string>): Candidate -> bool {
    (c: Candidate) => !c.eligible && c.sourceUrl !in cites
  }

  /** Room for `incoming` rows: set-aside rows that cite nothing go first, from the end, then the citing ones. */
  function WithRoom(rows: seq<Candidate>, incoming: nat, maxResults: nat, cites: set<string>): seq<Candidate> {
    var lean := WithoutLast(rows, IsSpare(cites), Max(0, |rows| + incoming - maxResults));
    WithoutLast(lean, IsSetAside, Max(0, |lean| + incoming - maxResults))
  }

  // Laws of one eviction: how many leave, who never leaves, and that order is kept.

  function CountAll(rows: seq<Candidate>, p: Candidate -> bool): nat {
    Count(rows, p, |rows|)
  }

  lemma CountAllThen(rows: seq<Candidate>, c: Candidate, p: Candidate -> bool)
    ensures CountAll(rows + [c], p) == CountAll(rows, p) + if p(c) then 1 else 0
  {
    CountThen(rows, c, p);
  }

  lemma {:induction false} OthersBefore(rows: seq<Candidate>, more: seq<Candidate>, p: Candidate -> bool, n: nat)
    requires n <= |rows|
    ensures OthersIn(rows + more, p, n) == OthersIn(rows, p, n)
    decreases n
  {
    if n > 0 {
      OthersBefore(rows, more, p, n - 1);
    }
  }

  lemma OthersThen(rows: seq<Candidate>, c: Candidate, p: Candidate -> bool)
    ensures Others(rows + [c], p) == if p(c) then Others(rows, p) else Others(rows, p) + [c]
  {
    OthersBefore(rows, [c], p, |rows|);
  }

  /** Exactly as many rows leave as asked, or all that may; rows that may not leave all stay, in order. */
  lemma {:induction false} EvictionLaws(rows: seq<Candidate>, p: Candidate -> bool, k: nat)
    ensures var left := WithoutLast(rows, p, k);
            && |left| == |rows| - Min(k, CountAll(rows, p))
            && CountAll(left, p) == CountAll(rows, p) - Min(k, CountAll(rows, p))
            && Others(left, p) == Others(rows, p)
    decreases |rows|
  {
    if rows != [] && k > 0 {
      var init, last := rows[..|rows| - 1], rows[|rows| - 1];
      assert rows == init + [last];
      CountAllThen(init, last, p);
      OthersThen(init, last, p);
      EvictionLaws(init, p, if p(last) then k - 1 else k);
      if !p(last) {
        CountAllThen(WithoutLast(init, p, k), last, p);
        OthersThen(WithoutLast(init, p, k), last, p);
      }
    }
  }

  lemma {:induction false} EvictionKeepsOrder(rows: seq<Candidate>, p: Candidate -> bool, k: nat)
    ensures IsSubsequence(WithoutLast(rows, p, k), rows)
    decreases |rows|
  {
    if rows != [] {
      var init, last := rows[..|rows| - 1], rows[|rows| - 1];
      if k == 0 {
        EvictionKeepsOrder(init, p, 0);
      } else if p(last) {
        EvictionKeepsOrder(init, p, k - 1);
      } else {
        EvictionKeepsOrder(init, p, k);
        var left := WithoutLast(rows, p, k);
        assert left[..|left| - 1] == WithoutLast(init, p, k);
      }
    }
  }

  /** Dropping rows twice is dropping rows. */
  lemma {:induction false} SubsequenceThrough(a: seq<Candidate>, b: seq<Candidate>, c: seq<Candidate>)
    requires IsSubsequence(a, b) && IsSubsequence(b, c)
    ensures IsSubsequence(a, c)
    decreases |b| + |c|
  {
    if a != [] {
      var endsA, endsB, endsC := a[..|a| - 1], b[..|b| - 1], c[..|c| - 1];
      if b[|b| - 1] == c[|c| - 1] && IsSubsequence(endsB, endsC) {
        if a[|a| - 1] == b[|b| - 1] && IsSubsequence(endsA, endsB) {
          SubsequenceThrough(endsA, endsB, endsC);
        } else {
          SubsequenceThrough(a, endsB, endsC);
        }
      } else {
        SubsequenceThrough(a, b, endsC);
      }
    }
  }

  /** Rows that cannot leave keep their number whatever else leaves. */
  lemma OthersFixCounts(a: seq<Candidate>, b: seq<Candidate>, p: Candidate -> bool, q: Candidate -> bool)
    requires Others(a, p) == Others(b, p) && forall c: Candidate :: p(c) ==> q(c)
    ensures CountAll(a, q) - CountAll(a, p) == CountAll(b, q) - CountAll(b, p)
  {
    CountOthers(a, p, q, |a|);
    CountOthers(b, p, q, |b|);
  }

  lemma {:induction false} CountOthers(rows: seq<Candidate>, p: Candidate -> bool, q: Candidate -> bool, n: nat)
    requires n <= |rows| && forall c: Candidate :: p(c) ==> q(c)
    ensures Count(rows, q, n) == Count(rows, p, n) + CountAll(OthersIn(rows, p, n), q)
    decreases n
  {
    if n > 0 {
      CountOthers(rows, p, q, n - 1);
      CountAllThen(OthersIn(rows, p, n - 1), rows[n - 1], q);
    }
  }

  lemma {:induction false} OthersOfOthers(rows: seq<Candidate>, p: Candidate -> bool, q: Candidate -> bool, n: nat)
    requires n <= |rows| && forall c: Candidate :: p(c) ==> q(c)
    ensures Others(OthersIn(rows, p, n), q) == OthersIn(rows, q, n)
    decreases n
  {
    if n > 0 {
      OthersOfOthers(rows, p, q, n - 1);
      OthersThen(OthersIn(rows, p, n - 1), rows[n - 1], q);
    }
  }

  /**
   Every exploitable row stays, in order; exactly as many set-aside rows leave as the incoming ones need, or all of
   them.
   */
  lemma RoomIsMadeExactly(rows: seq<Candidate>, incoming: nat, maxResults: nat, cites: set<string>)
    ensures var room := WithRoom(rows, incoming, maxResults, cites);
            && Others(room, IsSetAside) == Others(rows, IsSetAside)
            && |room| == |rows| - Min(Max(0, |rows| + incoming - maxResults), CountAll(rows, IsSetAside))
  {
    var spare, needed := IsSpare(cites), Max(0, |rows| + incoming - maxResults);
    var lean := WithoutLast(rows, spare, needed);
    EvictionLaws(rows, spare, needed);
    EvictionLaws(lean, IsSetAside, Max(0, |lean| + incoming - maxResults));
    OthersFixCounts(lean, rows, spare, IsSetAside);
    OthersOfOthers(lean, spare, IsSetAside, |lean|);
    OthersOfOthers(rows, spare, IsSetAside, |rows|);
    CountOthers(rows, spare, IsSetAside, |rows|);
  }

  /** Both evictions together only drop rows: what is left of the list, citing sources included, is in its order. */
  lemma RoomKeepsOrder(rows: seq<Candidate>, incoming: nat, maxResults: nat, cites: set<string>)
    ensures IsSubsequence(WithRoom(rows, incoming, maxResults, cites), rows)
  {
    var spare, needed := IsSpare(cites), Max(0, |rows| + incoming - maxResults);
    var lean := WithoutLast(rows, spare, needed);
    EvictionKeepsOrder(rows, spare, needed);
    EvictionKeepsOrder(lean, IsSetAside, Max(0, |lean| + incoming - maxResults));
    SubsequenceThrough(WithRoom(rows, incoming, maxResults, cites), lean, rows);
  }

  /** A citing source leaves only when no other set-aside row is left. */
  lemma CitingSourcesLeaveLast(rows: seq<Candidate>, incoming: nat, maxResults: nat, cites: set<string>)
    requires CountAll(WithRoom(rows, incoming, maxResults, cites), IsSpare(cites)) > 0
    ensures Others(WithRoom(rows, incoming, maxResults, cites), IsSpare(cites)) == Others(rows, IsSpare(cites))
  {
    var spare, needed := IsSpare(cites), Max(0, |rows| + incoming - maxResults);
    var lean := WithoutLast(rows, spare, needed);
    EvictionLaws(rows, spare, needed);
    NoneComesBack(lean, IsSetAside, Max(0, |lean| + incoming - maxResults), spare);
  }

  /** Evicting never increases a count. */
  lemma {:induction false} NoneComesBack(rows: seq<Candidate>, p: Candidate -> bool, k: nat, q: Candidate -> bool)
    ensures CountAll(WithoutLast(rows, p, k), q) <= CountAll(rows, q)
    decreases |rows|
  {
    if rows != [] && k > 0 {
      var init, last := rows[..|rows| - 1], rows[|rows| - 1];
      assert rows == init + [last];
      CountAllThen(init, last, q);
      NoneComesBack(init, p, if p(last) then k - 1 else k, q);
      if !p(last) {
        CountAllThen(WithoutLast(init, p, k), last, q);
      }
    }
  }

  // ---------------------------------------------------------------- expandSecondary

  /** Resolved candidates whose website no row of the shortlist already has. */
  predicate IsFresh(read: Reading, rows: seq<Candidate>, r: Candidate) {
    !exists i | 0 <= i < |rows| ::
        Truthy(rows[i].website) && Truthy(r.website) && read.host(rows[i].website.value) == read.host(r.website.value)
  }

  function Fresh(read: Reading, rows: seq<Candidate>, resolved: seq<Candidate>, n: nat): (newcomers: seq<Candidate>)
    requires n <= |resolved|
    ensures |newcomers| <= n
    ensures forall i | 0 <= i < |newcomers| :: newcomers[i] in resolved && IsFresh(read, rows, newcomers[i])
  {
    if n == 0 then []
    else Fresh(read, rows, resolved, n - 1) + if IsFresh(read, rows, resolved[n - 1]) then [resolved[n - 1]] else []
  }

  function CitingSources(names: seq<Name>): set<string> {
    set i | 0 <= i < |names| :: names[i].sourceUrl
  }

  /** The shortlist after the expansion: room is made, then as many newcomers as fit are appended. */
  function Expanded(rows: seq<Candidate>, newcomers: seq<Candidate>, maxResults: nat,
                    cites: set<string>): seq<Candidate> {
    var room := WithRoom(rows, |newcomers|, maxResults, cites);
    room + newcomers[..Min(|newcomers|, Max(0, maxResults - |room|))]
  }

  /** The shortlist never exceeds its limit, keeps every exploitable row in order, and gains only exploitable ones. */
  lemma ExpansionLaws(rows: seq<Candidate>, newcomers: seq<Candidate>, maxResults: nat, cites: set<string>)
    requires |rows| <= maxResults && forall i | 0 <= i < |newcomers| :: newcomers[i].eligible
    ensures var after := Expanded(rows, newcomers, maxResults, cites);
            && |after| <= maxResults
            && Others(after, IsSetAside) == Others(rows, IsSetAside)
                + after[|WithRoom(rows, |newcomers|, maxResults, cites)|..]
            && (|rows| + |newcomers| - maxResults <= CountAll(rows, IsSetAside) ==>
                  after[|WithRoom(rows, |newcomers|, maxResults, cites)|..] == newcomers)
  {
    RoomIsMadeExactly(rows, |newcomers|, maxResults, cites);
    CountIsSmall(rows, IsSetAside, |rows|);
    var room := WithRoom(rows, |newcomers|, maxResults, cites);
    var added := newcomers[..Min(|newcomers|, Max(0, maxResults - |room|))];
    AppendingEligible(room, added, |added|);
    assert added[..|added|] == added;
    assert (room + added)[|room|..] == added;
  }

  lemma {:induction false} AppendingEligible(rows: seq<Candidate>, added: seq<Candidate>, n: nat)
    requires n <= |added| && forall i | 0 <= i < |added| :: added[i].eligible
    ensures OthersIn(rows + added, IsSetAside, |rows| + n) == Others(rows, IsSetAside) + added[..n]
    decreases n
  {
    if n == 0 {
      OthersBefore(rows, added, IsSetAside, |rows|);
    } else {
      AppendingEligible(rows, added, n - 1);
      assert added[..n] == added[..n - 1] + [added[n - 1]];
    }
  }

  // ---------------------------------------------------------------- what an expansion is, row by row

  /** A row of the list is on the site of this candidate. */
  ghost predicate HasItsSite(read: Reading, rows: seq<Candidate>, r: Candidate) {
    exists row | row in rows :: SharesSite(read, row, r)
  }

  predicate SharesSite(read: Reading, row: Candidate, r: Candidate) {
    && row.website.Some? && row.website.value != "" && r.website.Some? && r.website.value != ""
    && read.host(row.website.value) == read.host(r.website.value)
  }

  lemma FreshIff(read: Reading, rows: seq<Candidate>, r: Candidate)
    ensures IsFresh(read, rows, r) <==> !HasItsSite(read, rows, r)
  {
    assert forall i | 0 <= i < |rows| :: rows[i] in rows && (SharesSite(read, rows[i], r) <==>
        Truthy(rows[i].website) && Truthy(r.website) && read.host(rows[i].website.value) == read.host(r.website.value));
  }

  function Is<T(==)>(x: T): T -> bool {
    (y: T) => y == x
  }

  lemma {:induction false} FreshCounts(read: Reading, rows: seq<Candidate>, resolved: seq<Candidate>, n: nat,
                                       r: Candidate)
    requires n <= |resolved|
    ensures CountAll(Fresh(read, rows, resolved, n), Is(r))
         == if HasItsSite(read, rows, r) then 0 else Count(resolved, Is(r), n)
    decreases n
  {
    if n > 0 {
      var before, last := Fresh(read, rows, resolved, n - 1), resolved[n - 1];
      FreshCounts(read, rows, resolved, n - 1, r);
      FreshIff(read, rows, last);
      CountAllThen(before, last, Is(r));
      assert Fresh(read, rows, resolved, n) == if IsFresh(read, rows, last) then before + [last] else before;
    }
  }

  lemma SubsequenceThen<T(!new)>(part: seq<T>, whole: seq<T>, x: T)
    requires IsSubsequence(part, whole)
    ensures IsSubsequence(part, whole + [x]) && IsSubsequence(part + [x], whole + [x])
  {
    assert (whole + [x])[..|whole|] == whole && (part + [x])[..|part|] == part;
  }

  lemma {:induction false} OthersInOrder(rows: seq<Candidate>, p: Candidate -> bool, n: nat)
    requires n <= |rows|
    ensures IsSubsequence(OthersIn(rows, p, n), rows[..n])
    decreases n
  {
    if n > 0 {
      OthersInOrder(rows, p, n - 1);
      SubsequenceThen(OthersIn(rows, p, n - 1), rows[..n - 1], rows[n - 1]);
      assert rows[..n] == rows[..n - 1] + [rows[n - 1]];
    }
  }

  /** The rows that satisfy `p`, in order. */
  function Those(rows: seq<Candidate>, p: Candidate -> bool): seq<Candidate> {
    Others(rows, (c: Candidate) => !p(c))
  }

  /** No row of the list is on the site of the candidate. */
  ghost function Offsite(read: Reading, rows: seq<Candidate>): Candidate -> bool {
    (r: Candidate) => !HasItsSite(read, rows, r)
  }

  lemma {:induction false} FreshAreOffsite(read: Reading, rows: seq<Candidate>, resolved: seq<Candidate>, n: nat)
    requires n <= |resolved|
    ensures Fresh(read, rows, resolved, n)
         == OthersIn(resolved, (c: Candidate) => !Offsite(read, rows)(c), n)
    decreases n
  {
    if n > 0 {
      FreshAreOffsite(read, rows, resolved, n - 1);
      FreshIff(read, rows, resolved[n - 1]);
      assert Offsite(read, rows)(resolved[n - 1]) <==> IsFresh(read, rows, resolved[n - 1]);
    }
  }

  /** Newcomers are the resolved rows whose site the list does not have, each as often as resolved, in that order. */
  lemma NewcomersAreExact(read: Reading, rows: seq<Candidate>, resolved: seq<Candidate>, r: Candidate)
    ensures var newcomers := Fresh(read, rows, resolved, |resolved|);
            && newcomers == Those(resolved, Offsite(read, rows)) && IsSubsequence(newcomers, resolved)
            && CountAll(newcomers, Is(r)) == if HasItsSite(read, rows, r) then 0 else CountAll(resolved, Is(r))
  {
    assert resolved[..|resolved|] == resolved;
    OthersInOrder(resolved, (c: Candidate) => !Offsite(read, rows)(c), |resolved|);
    FreshCounts(read, rows, resolved, |resolved|, r);
    FreshAreOffsite(read, rows, resolved, |resolved|);
  }

  /** A set-aside row no planned name comes from. */
  ghost predicate CitesNothing(names: seq<Name>, c: Candidate) {
    !c.eligible && forall n | n in names :: n.sourceUrl != c.sourceUrl
  }

  ghost predicate IsCiting(names: seq<Name>, c: Candidate) {
    !c.eligible && exists n | n in names :: n.sourceUrl == c.sourceUrl
  }

  ghost function Uncited(names: seq<Name>): Candidate -> bool {
    (c: Candidate) => CitesNothing(names, c)
  }

  ghost function Citing(names: seq<Name>): Candidate -> bool {
    (c: Candidate) => IsCiting(names, c)
  }

  /**
   `left` is what stays of the list: every exploitable row, and of the others as many as fit beside the incoming ones.
   Rows leave from the end, and a source of a planned name only once no other set-aside row is left.
   */
  ghost predicate MakesRoom(before: seq<Candidate>, left: seq<Candidate>, names: seq<Name>, incoming: nat,
                            maxResults: nat)
  {
    && IsSubsequence(left, before)
    && Others(left, IsSetAside) == Others(before, IsSetAside)
    && |left| == Min(|before|, Max(|Others(before, IsSetAside)|, maxResults - incoming))
    && Those(left, Uncited(names)) <= Those(before, Uncited(names))
    && Those(left, Citing(names)) <= Those(before, Citing(names))
    && (Those(left, Uncited(names)) != [] ==> Those(left, Citing(names)) == Those(before, Citing(names)))
  }

  /** The list after an expansion: what stays of it, then the first newcomers there is room for. */
  ghost predicate ExpandedWell(read: Reading, before: seq<Candidate>, after: seq<Candidate>, added: nat,
                               resolved: seq<Candidate>, names: seq<Name>, maxResults: nat)
  {
    var newcomers := Those(resolved, Offsite(read, before));
    && added <= |after| && added == Min(|newcomers|, Max(0, maxResults - (|after| - added)))
    && after[|after| - added..] == newcomers[..added]
    && MakesRoom(before, after[..|after| - added], names, |newcomers|, maxResults)
  }

  /** With room beside the exploitable rows, every resolved company whose site the list does not have joins it. */
  lemma WithRoomEveryNewcomerJoins(read: Reading, before: seq<Candidate>, after: seq<Candidate>, added: nat,
                                   resolved: seq<Candidate>, names: seq<Name>, maxResults: nat, r: Candidate)
    requires ExpandedWell(read, before, after, added, resolved, names, maxResults)
    requires |Others(before, IsSetAside)| + |Those(resolved, Offsite(read, before))| <= maxResults
    requires r in resolved && !HasItsSite(read, before, r)
    ensures r in after && added == |Those(resolved, Offsite(read, before))|
  {
    var newcomers := Those(resolved, Offsite(read, before));
    InOthers(resolved, (c: Candidate) => !Offsite(read, before)(c), |resolved|, r);
    assert r in newcomers && newcomers[..|newcomers|] == newcomers;
    InTheTail(after, added, newcomers, r);
  }

  lemma {:induction false} InOthers(rows: seq<Candidate>, p: Candidate -> bool, n: nat, r: Candidate)
    requires n <= |rows|
    ensures r in OthersIn(rows, p, n) <==> !p(r) && exists i | 0 <= i < n :: rows[i] == r
    decreases n
  {
    if n > 0 {
      InOthers(rows, p, n - 1, r);
    }
  }

  lemma InTheTail(rows: seq<Candidate>, added: nat, tail: seq<Candidate>, r: Candidate)
    requires added <= |rows| && rows[|rows| - added..] == tail && r in tail
    ensures r in rows
  {
    var k :| 0 <= k < |tail| && tail[k] == r;
    assert rows[|rows| - added + k] == r;
  }

  lemma {:induction false} SameOthers(rows: seq<Candidate>, p: Candidate -> bool, q: Candidate -> bool, n: nat)
    requires n <= |rows| && forall c: Candidate :: p(c) <==> q(c)
    ensures OthersIn(rows, p, n) == OthersIn(rows, q, n)
    decreases n
  {
    if n > 0 {
      SameOthers(rows, p, q, n - 1);
    }
  }

  lemma ThoseThen(rows: seq<Candidate>, c: Candidate, p: Candidate -> bool)
    ensures Those(rows + [c], p) == if p(c) then Those(rows, p) + [c] else Those(rows, p)
  {
    OthersThen(rows, c, (x: Candidate) => !p(x));
  }

  /** Of the rows that may leave, those of a narrower kind leave from the end too. */
  lemma {:induction false} EvictionFromTheEnd(rows: seq<Candidate>, p: Candidate -> bool, k: nat, q: Candidate -> bool)
    requires forall c: Candidate :: q(c) ==> p(c)
    ensures Those(WithoutLast(rows, p, k), q) <= Those(rows, q)
    decreases |rows|
  {
    if rows != [] && k > 0 {
      var init, last := rows[..|rows| - 1], rows[|rows| - 1];
      assert rows == init + [last];
      ThoseThen(init, last, q);
      EvictionFromTheEnd(init, p, if p(last) then k - 1 else k, q);
      if !p(last) {
        ThoseThen(WithoutLast(init, p, k), last, q);
      }
    }
  }

  /** Rows that may not leave stay, whatever leaves. */
  lemma OthersKeepThose(rows: seq<Candidate>, left: seq<Candidate>, p: Candidate -> bool, q: Candidate -> bool)
    requires Others(left, p) == Others(rows, p) && forall c: Candidate :: q(c) ==> !p(c)
    ensures Those(left, q) == Those(rows, q)
  {
    var notQ := (c: Candidate) => !q(c);
    OthersOfOthers(left, p, notQ, |left|);
    OthersOfOthers(rows, p, notQ, |rows|);
  }

  lemma {:induction false} ThoseAreCounted(rows: seq<Candidate>, p: Candidate -> bool, n: nat)
    requires n <= |rows|
    ensures |OthersIn(rows, p, n)| + Count(rows, p, n) == n
    ensures |OthersIn(rows, (c: Candidate) => !p(c), n)| == Count(rows, p, n)
    decreases n
  {
    if n > 0 {
      ThoseAreCounted(rows, p, n - 1);
    }
  }

  lemma RoomIsMade(rows: seq<Candidate>, names: seq<Name>, incoming: nat, maxResults: nat)
    ensures MakesRoom(rows, WithRoom(rows, incoming, maxResults, CitingSources(names)), names, incoming, maxResults)
  {
    var cites := CitingSources(names);
    var room := WithRoom(rows, incoming, maxResults, cites);
    RoomKeepsOrder(rows, incoming, maxResults, cites);
    RoomIsMadeExactly(rows, incoming, maxResults, cites);
    ThoseAreCounted(rows, IsSetAside, |rows|);
    UncitedIsSpare(names);
    RowsLeaveInOrder(rows, names, incoming, maxResults);
  }

  lemma UncitedIsSpare(names: seq<Name>)
    ensures forall c: Candidate :: Uncited(names)(c) <==> IsSpare(CitingSources(names))(c)
  {
  }

  lemma RowsLeaveInOrder(rows: seq<Candidate>, names: seq<Name>, incoming: nat, maxResults: nat)
    ensures var room := WithRoom(rows, incoming, maxResults, CitingSources(names));
            && Those(room, Uncited(names)) <= Those(rows, Uncited(names))
            && Those(room, Citing(names)) <= Those(rows, Citing(names))
            && (Those(room, Uncited(names)) != [] ==> Those(room, Citing(names)) == Those(rows, Citing(names)))
  {
    var cites := CitingSources(names);
    var spare, needed := IsSpare(cites), Max(0, |rows| + incoming - maxResults);
    var lean, room := WithoutLast(rows, spare, needed), WithRoom(rows, incoming, maxResults, cites);
    UncitedIsSpare(names);
    EvictionLaws(rows, spare, needed);
    EvictionFromTheEnd(rows, spare, needed, Uncited(names));
    OthersKeepThose(rows, lean, spare, Citing(names));
    EvictionFromTheEnd(lean, IsSetAside, Max(0, |lean| + incoming - maxResults), Uncited(names));
    EvictionFromTheEnd(lean, IsSetAside, Max(0, |lean| + incoming - maxResults), Citing(names));
    SparesAreCounted(room, names);
    if Those(room, Uncited(names)) != [] {
      CitingSourcesLeaveLast(rows, incoming, maxResults, cites);
      OthersKeepThose(rows, room, spare, Citing(names));
    }
  }

  lemma SparesAreCounted(rows: seq<Candidate>, names: seq<Name>)
    ensures |Those(rows, Uncited(names))| == CountAll(rows, IsSpare(CitingSources(names)))
  {
    var spare := IsSpare(CitingSources(names));
    UncitedIsSpare(names);
    SameOthers(rows, (c: Candidate) => !Uncited(names)(c), (c: Candidate) => !spare(c), |rows|);
    ThoseAreCounted(rows, spare, |rows|);
  }

  /** The expansion of any list by any resolved candidates. */
  lemma ExpansionIsRight(read: Reading, before: seq<Candidate>, resolved: seq<Candidate>, names: seq<Name>,
                         maxResults: nat)
    ensures var newcomers, cites := Fresh(read, before, resolved, |resolved|), CitingSources(names);
            var after := Expanded(before, newcomers, maxResults, cites);
            var room := WithRoom(before, |newcomers|, maxResults, cites);
            && |room| <= |after|
            && ExpandedWell(read, before, after, |after| - |room|, resolved, names, maxResults)
  {
    var newcomers := Fresh(read, before, resolved, |resolved|);
    FreshAreOffsite(read, before, resolved, |resolved|);
    RoomIsMade(before, names, |newcomers|, maxResults);
    var room := WithRoom(before, |newcomers|, maxResults, CitingSources(names));
    var after := Expanded(before, newcomers, maxResults, CitingSources(names));
    var added := |after| - |room|;
    assert after[..|after| - added] == room && after[|after| - added..] == newcomers[..added];
  }

  // ---------------------------------------------------------------- the operation

  datatype Metrics = Metrics(searched: nat, requests: nat, candidates: nat, unresolved: int, failed: bool)

  class Shortlist {
    var rows: seq<Candidate>

    constructor (rows: seq<Candidate>)
      ensures this.rows == rows
    {
      this.rows := rows;
    }

    /** One pass of the eviction loop: from the end, rows satisfying `p` are spliced out while the list is too long. */
    method Evict(p: Candidate -> bool, incoming: nat, maxResults: nat)
      modifies this
      ensures rows == WithoutLast(old(rows), p, Max(0, |old(rows)| + incoming - maxResults))
    {
      var i := |rows| - 1;
      ghost var tail: seq<Candidate> := [];
      assert rows[..|rows|] == rows;
      while i >= 0 && |rows| + incoming > maxResults
        invariant -1 <= i < |rows| && i < |old(rows)|
        invariant rows == old(rows)[..i + 1] + tail
        invariant WithoutLast(old(rows), p, Max(0, |old(rows)| + incoming - maxResults))
               == WithoutLast(old(rows)[..i + 1], p, Max(0, |rows| + incoming - maxResults)) + tail
      {
        var c := rows[i];
        ghost var init := old(rows)[..i + 1];
        assert init[..|init| - 1] == old(rows)[..i] && init[|init| - 1] == c;
        if p(c) {
          rows := rows[..i] + rows[i + 1..];
        } else {
          tail := [c] + tail;
        }
        i := i - 1;
      }
    }

    /** Set-aside rows make room, citing sources last, and the newcomers that fit are appended. */
    method Admit(newcomers: seq<Candidate>, cites: set<string>, maxResults: nat) returns (added: nat)
      modifies this
      ensures rows == Expanded(old(rows), newcomers, maxResults, cites)
      ensures added == |rows| - |WithRoom(old(rows), |newcomers|, maxResults, cites)|
    {
      Evict(IsSpare(cites), |newcomers|, maxResults);
      Evict(IsSetAside, |newcomers|, maxResults);
      added := Min(|newcomers|, Max(0, maxResults - |rows|));
      rows := rows + newcomers[..added];
    }

    /** The resolved companies whose site the list does not have are admitted, as far as there is room. */
    method AdmitResolved(lex: Lexicon, read: Reading, found: seq<Candidate>, resolved: seq<Candidate>,
                         names: seq<Name>, maxResults: nat)
        returns (added: nat)
      requires resolved == Resolve(lex, read, found, names, |found|).resolved
      modifies this
      ensures var newcomers := Fresh(read, old(rows), resolved, |resolved|);
              && rows == Expanded(old(rows), newcomers, maxResults, CitingSources(names))
              && added == |rows| - |WithRoom(old(rows), |newcomers|, maxResults, CitingSources(names))|
      ensures ExpandedWell(read, old(rows), rows, added, resolved, names, maxResults)
      ensures |old(rows)| <= maxResults ==>
          |rows| <= maxResults && Others(old(rows), IsSetAside) <= Others(rows, IsSetAside)
    {
      var newcomers := Fresh(read, rows, resolved, |resolved|);
      var cites := CitingSources(names);
      if |rows| <= maxResults {
        ResolutionLaws(lex, read, found, names, |found|);
        ExpansionLaws(rows, newcomers, maxResults, cites);
      }
      ExpansionIsRight(read, rows, resolved, names, maxResults);
      added := Admit(newcomers, cites, maxResults);
    }

    /**
     `expandSecondary`: at most one request, sent only below the run's request limit and within its time budget;
     a failed request changes nothing. `sent` is what the run already sent, `answer` what the provider returns.
     */
    method ExpandSecondary(lex: Lexicon, read: Reading, plan: SecondaryPlan, canSearch: bool, sent: nat, elapsed: int,
                           answer: Option<seq<Option<Candidate>>>, maxResults: nat) returns (m: Metrics)
      modifies this
      ensures m.requests
          == (if plan.names != [] && canSearch && sent < Search.MAX_PROVIDER_CALLS
              && elapsed + Search.PASS_TIMEOUT_MS <= Search.TIME_BUDGET_MS
                             then 1 else 0)
      ensures m.requests == 0 || answer.None? ==> rows == old(rows) && m.candidates == 0
      ensures m.requests == 1 && answer.Some? ==>
                var resolved :=
                    Resolve(lex, read, Normalized(answer.value, maxResults), plan.names,
                            |Normalized(answer.value, maxResults)|).resolved;
                var newcomers := Fresh(read, old(rows), resolved, |resolved|);
                && rows == Expanded(old(rows), newcomers, maxResults, CitingSources(plan.names))
                && m.candidates == |rows| - |WithRoom(old(rows), |newcomers|, maxResults, CitingSources(plan.names))|
                && m.searched == |plan.names| == |resolved| + m.unresolved
                && ExpandedWell(read, old(rows), rows, m.candidates, resolved, plan.names, maxResults)
      ensures m.failed <==> m.requests == 1 && answer.None?
      ensures m.requests == 0 || answer.None? ==>
          m.searched == (if m.requests == 0 then 0 else |plan.names|) && m.unresolved == 0
      ensures m.requests + sent <= Max(sent, Search.MAX_PROVIDER_CALLS)
      ensures |old(rows)| <= maxResults ==>
          |rows| <= maxResults && Others(old(rows), IsSetAside) <= Others(rows, IsSetAside)
    {
      if plan.names == [] || !canSearch || sent >= Search.MAX_PROVIDER_CALLS
          || elapsed + Search.PASS_TIMEOUT_MS > Search.TIME_BUDGET_MS {
        return Metrics(0, 0, 0, 0, false);
      }
      if answer.None? {
        return Metrics(|plan.names|, 1, 0, 0, true);
      }
      var found := Normalized(answer.value, maxResults);
      var resolved, unresolved := ResolveSecondaryCandidates(lex, read, found, plan.names);
      var added := AdmitResolved(lex, read, found, resolved, plan.names, maxResults);
      m := Metrics(|plan.names|, 1, added, unresolved, false);
    }
  }

  /** The answers that can be normalized, among the first `maxResults`. */
  function Normalized(answer: seq<Option<Candidate>>, maxResults: nat): seq<Candidate> {
    Values(answer, Min(|answer|, maxResults))
  }

  function Values(answer: seq<Option<Candidate>>, n: nat): seq<Candidate>
    requires n <= |answer|
  {
    if n == 0 then [] else Values(answer, n - 1) + if answer[n - 1].Some? then [answer[n - 1].value] else []
  }

  lemma {:induction false} ValuesAreFew(answer: seq<Option<Candidate>>, n: nat)
    requires n <= |answer|
    ensures |Values(answer, n)| <= n
    decreases n
  {
    if n > 0 {
      ValuesAreFew(answer, n - 1);
    }
  }

  function Wrapped(values: seq<Candidate>): seq<Option<Candidate>> {
    seq(|values|, i requires 0 <= i < |values| => Some(values[i]))
  }

  lemma {:induction false} ValuesAreCounted(answer: seq<Option<Candidate>>, n: nat, c: Candidate)
    requires n <= |answer|
    ensures CountAll(Values(answer, n), Is(c)) == Count(answer, Is(Some(c)), n)
    decreases n
  {
    if n > 0 {
      ValuesAreCounted(answer, n - 1, c);
      if answer[n - 1].Some? {
        CountAllThen(Values(answer, n - 1), answer[n - 1].value, Is(c));
      } else {
        assert Values(answer, n) == Values(answer, n - 1);
      }
    }
  }

  lemma {:induction false} ValuesInOrder(answer: seq<Option<Candidate>>, n: nat)
    requires n <= |answer|
    ensures IsSubsequence(Wrapped(Values(answer, n)), answer[..n])
    decreases n
  {
    if n > 0 {
      ValuesInOrder(answer, n - 1);
      var before, last := Values(answer, n - 1), answer[n - 1];
      assert answer[..n] == answer[..n - 1] + [last];
      SubsequenceThen(Wrapped(before), answer[..n - 1], last);
      if last.Some? {
        assert Values(answer, n) == before + [last.value];
        assert Wrapped(before + [last.value]) == Wrapped(before) + [last];
      } else {
        assert Values(answer, n) == before;
      }
    }
  }

  /** Of an answer, the first `maxResults` are read, in order, and those that cannot be normalized are dropped. */
  lemma NormalizedIsExact(answer: seq<Option<Candidate>>, maxResults: nat, c: Candidate)
    ensures var found, read := Normalized(answer, maxResults), answer[..Min(|answer|, maxResults)];
            && IsSubsequence(Wrapped(found), read) && CountAll(found, Is(c)) == Count(read, Is(Some(c)), |read|)
  {
    var n := Min(|answer|, maxResults);
    ValuesAreCounted(answer, n, c);
    CountBefore(answer[..n], answer[n..], Is(Some(c)), n);
    assert answer[..n] + answer[n..] == answer;
    ValuesInOrder(answer, Min(|answer|, maxResults));
  }
}
