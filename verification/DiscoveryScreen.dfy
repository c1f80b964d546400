// The list of the Discovery screen (DiscoveryPanel.tsx): the eligible results in their display order, then the others,
// within the chosen tab.
module DiscoveryScreen {
  import opened StableOrder

  /** What the screen reads of a result, and the tab it shows. `hasNovelty` is false for older runs, without labels. */
  datatype View<!T> = View(
    eligible: T -> bool,
    novelty: T -> Novelty,
    priority: T -> Priority,
    hasNovelty: bool,
    inTab: T -> bool)

  /** The positions among the first `n` of the rows that satisfy `p`. */
  function Positions<T>(rows: seq<T>, p: T -> bool, n: nat): (at: seq<nat>)
    requires n <= |rows|
    ensures forall k | 0 <= k < |at| :: at[k] < n && p(rows[at[k]])
    ensures forall a, b | 0 <= a < b < |at| :: at[a] < at[b]
  {
    if n == 0 then [] else Positions(rows, p, n - 1) + if p(rows[n - 1]) then [n - 1] else []
  }

  lemma {:induction false} PositionsHaveAll<T>(rows: seq<T>, p: T -> bool, n: nat, i: nat)
    requires n <= |rows|
    ensures i in Positions(rows, p, n) <==> i < n && p(rows[i])
    decreases n
  {
    if n > 0 {
      PositionsHaveAll(rows, p, n - 1, i);
    }
  }

  /** `rows.filter(p)`. */
  function Filtered<T>(rows: seq<T>, p: T -> bool): seq<T> {
    At(rows, Positions(rows, p, |rows|))
  }

  function Others<T>(v: View<T>): T -> bool {
    (row: T) => !v.eligible(row)
  }

  function Prioritized<T>(v: View<T>, rows: seq<T>): seq<T> {
    var prioritized := ByReviewPriority(Filtered(rows, v.eligible), v.priority);
    if v.hasNovelty then NewFirst(prioritized, v.novelty) else prioritized
  }

  function Screen<T>(v: View<T>, rows: seq<T>): seq<T> {
    Filtered(Prioritized(v, rows) + Filtered(rows, Others(v)), v.inTab)
  }

  /** Eligible results first, by novelty when the run has labels. */
  function MajorRank<T>(v: View<T>, row: T): nat {
    if !v.eligible(row) then 5 else if v.hasNovelty then NoveltyRank(v.novelty(row)) else 0
  }

  /** Then by review priority; the other results keep their order. */
  function MinorRank<T>(v: View<T>, row: T): nat {
    if v.eligible(row) then PriorityRank(v.priority(row)) else 0
  }

  function Major<T>(v: View<T>): T -> nat {
    (row: T) => MajorRank(v, row)
  }

  function Minor<T>(v: View<T>): T -> nat {
    (row: T) => MinorRank(v, row)
  }

  /** An order sorted by novelty and priority, each followed by the position. */
  ghost predicate InOrder<T>(v: View<T>, rows: seq<T>, order: seq<nat>) {
    LexSorted(Ranks(rows, Major(v)), Ranks(rows, Minor(v)), order)
  }

  /** The order of the eligible rows among themselves. */
  lemma EligibleOrder<T>(v: View<T>, some: seq<T>) returns (order: seq<nat>)
    requires forall k | 0 <= k < |some| :: v.eligible(some[k])
    ensures IsPermutation(order, |some|) && InOrder(v, some, order)
    ensures At(some, order)
         == if v.hasNovelty then NewFirst(ByReviewPriority(some, v.priority), v.novelty)
             else ByReviewPriority(some, v.priority)
  {
    if v.hasNovelty {
      order := ScreenOrder(some, v.novelty, v.priority);
      assert Ranks(some, Major(v)) == Ranks(some, row => NoveltyRank(v.novelty(row)));
      assert Ranks(some, Minor(v)) == Ranks(some, row => PriorityRank(v.priority(row)));
    } else {
      var ranks := Ranks(some, row => PriorityRank(v.priority(row)));
      order := Order(ranks, |some|);
      assert Ranks(some, Minor(v)) == ranks;
      assert forall a, b | 0 <= a < b < |order| :: Before(ranks, order[a], order[b]);
    }
  }

  /** An order of some of the rows, read as an order of all of them. */
  lemma AmongAll<T>(v: View<T>, rows: seq<T>, at: seq<nat>, order: seq<nat>)
    requires Within(at, |rows|) && forall a, b | 0 <= a < b < |at| :: at[a] < at[b]
    requires Within(order, |at|) && InOrder(v, At(rows, at), order)
    ensures Within(At(at, order), |rows|) && InOrder(v, rows, At(at, order))
    ensures At(rows, At(at, order)) == At(At(rows, at), order)
  {
    var some, all := At(rows, at), At(at, order);
    forall a, b | 0 <= a < b < |all|
      ensures ShownBefore(Ranks(rows, Major(v)), Ranks(rows, Minor(v)), all[a], all[b])
    {
      assert ShownBefore(Ranks(some, Major(v)), Ranks(some, Minor(v)), order[a], order[b]);
    }
  }

  /** The eligible rows in order, then the others as they were. */
  lemma OthersComeLast<T>(v: View<T>, rows: seq<T>, first: seq<nat>, last: seq<nat>)
    requires InOrder(v, rows, first) && forall k | 0 <= k < |first| :: v.eligible(rows[first[k]])
    requires Within(last, |rows|) && forall a, b | 0 <= a < b < |last| :: last[a] < last[b]
    requires forall k | 0 <= k < |last| :: !v.eligible(rows[last[k]])
    ensures InOrder(v, rows, first + last)
  {
    var major, minor, all := Ranks(rows, Major(v)), Ranks(rows, Minor(v)), first + last;
    forall a, b | 0 <= a < b < |all|
      ensures ShownBefore(major, minor, all[a], all[b])
    {
      if b < |first| {
        assert ShownBefore(major, minor, first[a], first[b]);
      } else {
        assert major[all[b]] == 5 && minor[all[b]] == 0;
        assert a < |first| ==> major[all[a]] < 5;
      }
    }
  }

  /** A tab drops rows and keeps the order of those it shows. */
  lemma TabKeepsOrder<T>(v: View<T>, rows: seq<T>, all: seq<nat>) returns (order: seq<nat>)
    requires InOrder(v, rows, all)
    ensures Within(order, |rows|) && InOrder(v, rows, order) && At(rows, order) == Filtered(At(rows, all), v.inTab)
    ensures forall i: nat :: i in order <==> i in all && i < |rows| && v.inTab(rows[i])
  {
    var listed := At(rows, all);
    var at := Positions(listed, v.inTab, |listed|);
    order := At(all, at);
    forall a, b | 0 <= a < b < |order|
      ensures ShownBefore(Ranks(rows, Major(v)), Ranks(rows, Minor(v)), order[a], order[b])
    {
      assert ShownBefore(Ranks(rows, Major(v)), Ranks(rows, Minor(v)), all[at[a]], all[at[b]]);
    }
    forall i: nat
      ensures i in order <==> i in all && i < |rows| && v.inTab(rows[i])
    {
      if i in all && i < |rows| && v.inTab(rows[i]) {
        var k :| 0 <= k < |all| && all[k] == i;
        PositionsHaveAll(listed, v.inTab, |listed|, k);
        var l :| 0 <= l < |at| && at[l] == k;
        assert order[l] == i;
      }
    }
  }

  /** The eligible rows, in order. */
  lemma EligibleFirst<T>(v: View<T>, rows: seq<T>) returns (first: seq<nat>)
    ensures InOrder(v, rows, first) && At(rows, first) == Prioritized(v, rows)
    ensures forall i: nat :: i in first <==> i < |rows| && v.eligible(rows[i])
  {
    var at := Positions(rows, v.eligible, |rows|);
    var inner := EligibleOrder(v, At(rows, at));
    AmongAll(v, rows, at, inner);
    first := At(at, inner);
    forall i: nat
      ensures i in first <==> i < |rows| && v.eligible(rows[i])
    {
      PositionsHaveAll(rows, v.eligible, |rows|, i);
      SameThroughPermutation(at, inner, i);
    }
  }

  lemma SameThroughPermutation(at: seq<nat>, inner: seq<nat>, i: nat)
    requires IsPermutation(inner, |at|)
    ensures i in At(at, inner) <==> i in at
  {
    if i in at {
      var k: nat :| k < |at| && at[k] == i;
      assert k in inner;
      var l :| 0 <= l < |inner| && inner[l] == k;
      assert At(at, inner)[l] == i;
    }
  }

  lemma AtBoth<T>(rows: seq<T>, a: seq<nat>, b: seq<nat>)
    requires Within(a, |rows|) && Within(b, |rows|)
    ensures Within(a + b, |rows|) && At(rows, a + b) == At(rows, a) + At(rows, b)
  {
  }

  /** The whole list, before the tab: every row, in order. */
  lemma ListInOrder<T>(v: View<T>, rows: seq<T>) returns (all: seq<nat>)
    ensures InOrder(v, rows, all) && At(rows, all) == Prioritized(v, rows) + Filtered(rows, Others(v))
    ensures forall i: nat | i < |rows| :: i in all
  {
    var first := EligibleFirst(v, rows);
    var last := Positions(rows, Others(v), |rows|);
    assert forall k | 0 <= k < |first| :: first[k] in first;
    OthersComeLast(v, rows, first, last);
    AtBoth(rows, first, last);
    all := first + last;
    forall i: nat | i < |rows|
      ensures i in all
    {
      PositionsHaveAll(rows, Others(v), |rows|, i);
    }
  }

  // ---------------------------------------------------------------- the order as a person reads it

  /** The order of the statuses: new or unlabelled, seen, ignored, added, duplicate of the run. */
  predicate StatusBefore(x: Novelty, y: Novelty) {
    match x
    case New | Unlabelled => y in {Seen, Ignored, Added, CurrentRunDuplicate}
    case Seen => y in {Ignored, Added, CurrentRunDuplicate}
    case Ignored => y in {Added, CurrentRunDuplicate}
    case Added => y == CurrentRunDuplicate
    case CurrentRunDuplicate => false
  }

  predicate SameStatus(x: Novelty, y: Novelty) {
    !StatusBefore(x, y) && !StatusBefore(y, x)
  }

  predicate PriorityBefore(x: Priority, y: Priority) {
    (x == High && y in {Medium, Low}) || (x == Medium && y == Low)
  }

  /**
   Row `i` is read before row `j`: an eligible one before another; among eligible ones by status when the run has
   labels, then by priority; and otherwise in the order of the run.
   */
  predicate ReadBefore<T>(v: View<T>, rows: seq<T>, i: nat, j: nat)
    requires i < |rows| && j < |rows|
  {
    var x, y := rows[i], rows[j];
    if v.eligible(x) != v.eligible(y) then v.eligible(x)
    else if !v.eligible(x) then i < j
    else if v.hasNovelty && !SameStatus(v.novelty(x), v.novelty(y)) then StatusBefore(v.novelty(x), v.novelty(y))
    else if v.priority(x) != v.priority(y) then PriorityBefore(v.priority(x), v.priority(y))
    else i < j
  }

  ghost predicate InReadingOrder<T>(v: View<T>, rows: seq<T>, order: seq<nat>) {
    Within(order, |rows|) && forall a, b | 0 <= a < b < |order| :: ReadBefore(v, rows, order[a], order[b])
  }

  lemma ReadBeforeIff<T>(v: View<T>, rows: seq<T>, i: nat, j: nat)
    requires i < |rows| && j < |rows|
    ensures ReadBefore(v, rows, i, j) <==> ShownBefore(Ranks(rows, Major(v)), Ranks(rows, Minor(v)), i, j)
  {
  }

  lemma InOrderIff<T>(v: View<T>, rows: seq<T>, order: seq<nat>)
    ensures InOrder(v, rows, order) <==> InReadingOrder(v, rows, order)
  {
    if Within(order, |rows|) {
      forall a, b | 0 <= a < b < |order|
        ensures ReadBefore(v, rows, order[a], order[b])
           <==> ShownBefore(Ranks(rows, Major(v)), Ranks(rows, Minor(v)), order[a], order[b])
      {
        ReadBeforeIff(v, rows, order[a], order[b]);
      }
    }
  }

  /**
   The screen shows exactly the rows of the tab, each once: the eligible ones by novelty, then review priority, then
   the run's own order; the others after them, in the run's own order.
   */
  lemma ScreenIsInOrder<T>(v: View<T>, rows: seq<T>) returns (order: seq<nat>)
    ensures Within(order, |rows|) && At(rows, order) == Screen(v, rows)
    ensures forall i: nat :: i in order <==> i < |rows| && v.inTab(rows[i])
    ensures InReadingOrder(v, rows, order)
  {
    var all := ListInOrder(v, rows);
    order := TabKeepsOrder(v, rows, all);
    InOrderIff(v, rows, order);
  }

  /** No other arrangement of the rows of the tab is in that order. */
  lemma ScreenIsTheOnlyOrder<T>(v: View<T>, rows: seq<T>, other: seq<nat>)
    requires InReadingOrder(v, rows, other) && forall i: nat :: i in other <==> i < |rows| && v.inTab(rows[i])
    ensures At(rows, other) == Screen(v, rows)
  {
    var order := ScreenIsInOrder(v, rows);
    InOrderIff(v, rows, order);
    InOrderIff(v, rows, other);
    SameLength(Ranks(rows, Major(v)), Ranks(rows, Minor(v)), order, other);
    LexSortedIsUnique(Ranks(rows, Major(v)), Ranks(rows, Minor(v)), order, other);
  }

  lemma BothOrNoneEmpty(a: seq<nat>, b: seq<nat>)
    requires SameMembers(a, b)
    ensures a == [] <==> b == []
  {
    if a != [] {
      assert a[0] in a && a[0] in b;
    }
    if b != [] {
      assert b[0] in b && b[0] in a;
    }
  }

  /** Two sorted arrangements of the same positions have the same length. */
  lemma {:induction false} SameLength(major: seq<nat>, minor: seq<nat>, a: seq<nat>, b: seq<nat>)
    requires |minor| == |major| && LexSorted(major, minor, a) && LexSorted(major, minor, b) && SameMembers(a, b)
    ensures |a| == |b|
    decreases |a|
  {
    BothOrNoneEmpty(a, b);
    if a != [] {
      SameFirst(major, minor, a, b);
      forall z: nat
        ensures z in a[1..] <==> z in b[1..]
      {
        FirstOccursOnce(major, minor, a, z);
        FirstOccursOnce(major, minor, b, z);
      }
      SameLength(major, minor, a[1..], b[1..]);
    }
  }
}
