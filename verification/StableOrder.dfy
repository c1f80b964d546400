// The display orders: decorate-sort-undecorate with the position as tie-breaker (novelty.ts, review-priority.ts),
// their composition on the Discovery screen, and the grouped selection of a deep search (services.ts).
module StableOrder {

  /** The comparator of the decorated rows: rank first, then position. */
  predicate Before(ranks: seq<nat>, i: nat, j: nat)
    requires i < |ranks| && j < |ranks|
  {
    ranks[i] < ranks[j] || (ranks[i] == ranks[j] && i < j)
  }

  ghost predicate Within(order: seq<nat>, n: nat) {
    forall k | 0 <= k < |order| :: order[k] < n
  }

  /** Every position 0 .. n-1 occurs, and there are n of them. */
  ghost predicate IsPermutation(order: seq<nat>, n: nat) {
    Within(order, n) && |order| == n && forall i | 0 <= i < n :: i in order
  }

  ghost predicate Sorted(ranks: seq<nat>, order: seq<nat>) {
    Within(order, |ranks|) && forall a, b | 0 <= a < b < |order| :: Before(ranks, order[a], order[b])
  }

  /** The position enters the sorted ones after all that come before it. */
  function Insert(ranks: seq<nat>, order: seq<nat>, i: nat): seq<nat>
    requires i < |ranks| && forall k | 0 <= k < |order| :: order[k] < |ranks|
    decreases |order|
  {
    if order == [] || Before(ranks, order[|order| - 1], i) then order + [i]
    else Insert(ranks, order[..|order| - 1], i) + [order[|order| - 1]]
  }

  lemma {:induction false} InsertMembers(ranks: seq<nat>, order: seq<nat>, i: nat, x: nat)
    requires i < |ranks| && Within(order, |ranks|)
    ensures x in Insert(ranks, order, i) <==> x in order || x == i
    ensures |Insert(ranks, order, i)| == |order| + 1
    decreases |order|
  {
    if order != [] && !Before(ranks, order[|order| - 1], i) {
      InsertMembers(ranks, order[..|order| - 1], i, x);
      assert order == order[..|order| - 1] + [order[|order| - 1]];
    }
  }

  /** Every position of the list comes before `bound`. */
  ghost predicate AllBefore(ranks: seq<nat>, order: seq<nat>, bound: nat) {
    bound < |ranks| && Within(order, |ranks|) && forall k | 0 <= k < |order| :: Before(ranks, order[k], bound)
  }

  lemma {:induction false} InsertStaysBefore(ranks: seq<nat>, order: seq<nat>, i: nat, bound: nat)
    requires i < |ranks| && AllBefore(ranks, order, bound) && Before(ranks, i, bound)
    ensures AllBefore(ranks, Insert(ranks, order, i), bound)
    decreases |order|
  {
    if order != [] && !Before(ranks, order[|order| - 1], i) {
      InsertStaysBefore(ranks, order[..|order| - 1], i, bound);
    }
  }

  lemma SortedThenLast(ranks: seq<nat>, order: seq<nat>, last: nat)
    requires Sorted(ranks, order) && AllBefore(ranks, order, last)
    ensures Sorted(ranks, order + [last])
  {
  }

  lemma {:induction false} InsertKeepsSorted(ranks: seq<nat>, order: seq<nat>, i: nat)
    requires i < |ranks| && Sorted(ranks, order) && i !in order
    ensures Sorted(ranks, Insert(ranks, order, i))
    decreases |order|
  {
    if order == [] || Before(ranks, order[|order| - 1], i) {
      assert AllBefore(ranks, order, i);
      SortedThenLast(ranks, order, i);
    } else {
      var init, last := order[..|order| - 1], order[|order| - 1];
      assert last in order;
      InsertKeepsSorted(ranks, init, i);
      InsertStaysBefore(ranks, init, i, last);
      SortedThenLast(ranks, Insert(ranks, init, i), last);
    }
  }

  lemma OneMoreInOrder(ranks: seq<nat>, order: seq<nat>, i: nat)
    requires i < |ranks| && Sorted(ranks, order) && forall x: nat :: x in order <==> x < i
    ensures Sorted(ranks, Insert(ranks, order, i)) && |Insert(ranks, order, i)| == |order| + 1
    ensures forall x: nat :: x in Insert(ranks, order, i) <==> x < i + 1
  {
    InsertKeepsSorted(ranks, order, i);
    forall x: nat
      ensures |Insert(ranks, order, i)| == |order| + 1
      ensures x in Insert(ranks, order, i) <==> x < i + 1
    {
      InsertMembers(ranks, order, i, x);
    }
    InsertMembers(ranks, order, i, i);
  }

  /** The sorted positions of the first `n` rows. */
  function Order(ranks: seq<nat>, n: nat): (order: seq<nat>)
    requires n <= |ranks|
    ensures Sorted(ranks, order) && |order| == n && forall x: nat :: x in order <==> x < n
  {
    if n == 0 then []
    else
      OneMoreInOrder(ranks, Order(ranks, n - 1), n - 1);
      Insert(ranks, Order(ranks, n - 1), n - 1)
  }

  ghost predicate SameMembers(a: seq<nat>, b: seq<nat>) {
    forall x: nat :: x in a <==> x in b
  }

  /** Every position of a sorted list is the last one or comes before it. */
  lemma LastComesLast(ranks: seq<nat>, a: seq<nat>, z: nat)
    requires Sorted(ranks, a) && a != [] && z in a
    ensures z == a[|a| - 1] || Before(ranks, z, a[|a| - 1])
  {
    var k :| 0 <= k < |a| && a[k] == z;
  }

  /** Two sorted lists of the same positions end alike. */
  lemma SameLast(ranks: seq<nat>, a: seq<nat>, b: seq<nat>)
    requires Sorted(ranks, a) && Sorted(ranks, b) && a != [] && b != [] && SameMembers(a, b)
    ensures a[|a| - 1] == b[|b| - 1]
  {
    var i, j := a[|a| - 1], b[|b| - 1];
    assert i in a && j in b;
    LastComesLast(ranks, b, i);
    LastComesLast(ranks, a, j);
  }

  /** The last position of a sorted list occurs only there. */
  lemma LastOccursOnce(ranks: seq<nat>, a: seq<nat>, z: nat)
    requires Sorted(ranks, a) && a != []
    ensures z in a[..|a| - 1] <==> z in a && z != a[|a| - 1]
  {
    if z in a[..|a| - 1] {
      var k :| 0 <= k < |a| - 1 && a[..|a| - 1][k] == z;
      assert a[k] == z && Before(ranks, a[k], a[|a| - 1]);
    }
    if z in a && z != a[|a| - 1] {
      var k :| 0 <= k < |a| && a[k] == z;
      assert a[..|a| - 1][k] == z;
    }
  }

  /** Two sorted lists of the same positions are the same list. */
  lemma {:induction false} SortedIsUnique(ranks: seq<nat>, a: seq<nat>, b: seq<nat>)
    requires Sorted(ranks, a) && Sorted(ranks, b) && |a| == |b| && SameMembers(a, b)
    ensures a == b
    decreases |a|
  {
    if a != [] {
      SameLast(ranks, a, b);
      var x, y := a[..|a| - 1], b[..|b| - 1];
      assert SameMembers(x, y) by {
        forall z: nat
          ensures z in x <==> z in y
        {
          LastOccursOnce(ranks, a, z);
          LastOccursOnce(ranks, b, z);
        }
      }
      SortedIsUnique(ranks, x, y);
      assert a == x + [a[|a| - 1]] && b == y + [b[|b| - 1]];
    }
  }

  // ---------------------------------------------------------------- sorting rows

  function Ranks<T>(rows: seq<T>, rank: T -> nat): (ranks: seq<nat>)
    ensures |ranks| == |rows| && forall i | 0 <= i < |rows| :: ranks[i] == rank(rows[i])
  {
    seq(|rows|, i requires 0 <= i < |rows| => rank(rows[i]))
  }

  function At<T>(rows: seq<T>, order: seq<nat>): (picked: seq<T>)
    requires forall k | 0 <= k < |order| :: order[k] < |rows|
    ensures |picked| == |order| && forall k | 0 <= k < |order| :: picked[k] == rows[order[k]]
  {
    seq(|order|, k requires 0 <= k < |order| => rows[order[k]])
  }

  /** `rows.map(decorate).sort((a, b) => a.rank - b.rank || a.i - b.i).map(undecorate)`. */
  function SortBy<T>(rows: seq<T>, rank: T -> nat): seq<T> {
    At(rows, Order(Ranks(rows, rank), |rows|))
  }

  // ---------------------------------------------------------------- sorting loses and repeats no row

  /** How often a row occurs among the first `n`. */
  function Occurrences<T(==)>(rows: seq<T>, x: T, n: nat): nat
    requires n <= |rows|
  {
    if n == 0 then 0 else Occurrences(rows, x, n - 1) + if rows[n - 1] == x then 1 else 0
  }

  function Times<T(==)>(rows: seq<T>, x: T): nat {
    Occurrences(rows, x, |rows|)
  }

  lemma {:induction false} OccurrencesOfBoth<T>(a: seq<T>, b: seq<T>, x: T, n: nat)
    requires n <= |a| + |b|
    ensures Occurrences(a + b, x, n) == if n <= |a| then Occurrences(a, x, n)
        else Times(a, x) + Occurrences(b, x, n - |a|)
    decreases n
  {
    if n > 0 {
      OccurrencesOfBoth(a, b, x, n - 1);
    }
  }

  lemma TimesOfBoth<T>(a: seq<T>, b: seq<T>, x: T)
    ensures Times(a + b, x) == Times(a, x) + Times(b, x)
  {
    OccurrencesOfBoth(a, b, x, |a| + |b|);
  }

  lemma TimesOfOne<T>(rows: seq<T>, y: T, x: T)
    ensures Times(rows + [y], x) == Times(rows, x) + if y == x then 1 else 0
  {
    TimesOfBoth(rows, [y], x);
    assert Times([y], x) == Occurrences([y], x, 0) + if [y][0] == x then 1 else 0;
  }

  lemma {:induction false} InsertAddsOne<T>(rows: seq<T>, ranks: seq<nat>, order: seq<nat>, i: nat, x: T)
    requires |ranks| == |rows| && i < |rows| && Within(order, |rows|)
    ensures Within(Insert(ranks, order, i), |rows|)
    ensures Times(At(rows, Insert(ranks, order, i)), x) == Times(At(rows, order), x) + if rows[i] == x then 1 else 0
    decreases |order|
  {
    if order == [] || Before(ranks, order[|order| - 1], i) {
      assert At(rows, order + [i]) == At(rows, order) + [rows[i]];
      TimesOfOne(At(rows, order), rows[i], x);
    } else {
      var init, last := order[..|order| - 1], order[|order| - 1];
      InsertAddsOne(rows, ranks, init, i, x);
      assert At(rows, Insert(ranks, order, i)) == At(rows, Insert(ranks, init, i)) + [rows[last]];
      assert At(rows, order) == At(rows, init) + [rows[last]];
      TimesOfOne(At(rows, Insert(ranks, init, i)), rows[last], x);
      TimesOfOne(At(rows, init), rows[last], x);
    }
  }

  lemma {:induction false} OrderKeepsOccurrences<T>(rows: seq<T>, ranks: seq<nat>, n: nat, x: T)
    requires |ranks| == |rows| && n <= |rows|
    ensures Times(At(rows, Order(ranks, n)), x) == Occurrences(rows, x, n)
    decreases n
  {
    if n > 0 {
      OrderKeepsOccurrences(rows, ranks, n - 1, x);
      InsertAddsOne(rows, ranks, Order(ranks, n - 1), n - 1, x);
    }
  }

  /** A sorted list holds every row as often as the original. */
  lemma SortKeepsRows<T>(rows: seq<T>, rank: T -> nat, x: T)
    ensures Times(SortBy(rows, rank), x) == Times(rows, x)
  {
    OrderKeepsOccurrences(rows, Ranks(rows, rank), |rows|, x);
  }

  /** The ranks of a sorted list ascend. */
  lemma SortAscends<T>(rows: seq<T>, rank: T -> nat, a: nat, b: nat)
    requires a <= b < |rows|
    ensures |SortBy(rows, rank)| == |rows| && rank(SortBy(rows, rank)[a]) <= rank(SortBy(rows, rank)[b])
  {
    var ranks := Ranks(rows, rank);
    var order := Order(ranks, |rows|);
    assert a < b ==> Before(ranks, order[a], order[b]);
  }

  // ---------------------------------------------------------------- the two display orders, composed

  datatype Novelty = New | Seen | Ignored | Added | CurrentRunDuplicate | Unlabelled
  datatype Priority = High | Medium | Low

  /** A result without novelty keeps company with the new ones. */
  function NoveltyRank(n: Novelty): nat {
    match n
    case New | Unlabelled => 0
    case Seen => 1
    case Ignored => 2
    case Added => 3
    case CurrentRunDuplicate => 4
  }

  function PriorityRank(p: Priority): nat {
    match p case High => 0 case Medium => 1 case Low => 2
  }

  function NewFirst<T>(rows: seq<T>, novelty: T -> Novelty): seq<T> {
    SortBy(rows, row => NoveltyRank(novelty(row)))
  }

  function ByReviewPriority<T>(rows: seq<T>, priority: T -> Priority): seq<T> {
    SortBy(rows, row => PriorityRank(priority(row)))
  }

  /** Novelty first, then review priority, then the original position. */
  predicate ShownBefore(major: seq<nat>, minor: seq<nat>, i: nat, j: nat)
    requires i < |major| && j < |major| && |minor| == |major|
  {
    major[i] < major[j] || (major[i] == major[j] && (minor[i] < minor[j] || (minor[i] == minor[j] && i < j)))
  }

  ghost predicate LexSorted(major: seq<nat>, minor: seq<nat>, order: seq<nat>)
    requires |minor| == |major|
  {
    Within(order, |major|) && forall a, b | 0 <= a < b < |order| :: ShownBefore(major, minor, order[a], order[b])
  }

  /** A permutation read in the order of another one is a permutation. */
  lemma PermutedAgain(p: seq<nat>, q: seq<nat>, n: nat)
    requires IsPermutation(p, n) && IsPermutation(q, n)
    ensures IsPermutation(At(p, q), n)
  {
    forall i: nat | i < n
      ensures i in At(p, q)
    {
      assert i in p;
      var k: nat :| 0 <= k < |p| && p[k] == i;
      assert k in q;
      var l :| 0 <= l < |q| && q[l] == k;
      assert At(p, q)[l] == i;
    }
  }

  /** Sorting by one rank and then by another is sorting by both: the second sort keeps the first as tie-breaker. */
  lemma ComposedSort<T>(rows: seq<T>, minor: T -> nat, major: T -> nat) returns (order: seq<nat>)
    ensures IsPermutation(order, |rows|)
    ensures SortBy(SortBy(rows, minor), major) == At(rows, order)
    ensures LexSorted(Ranks(rows, major), Ranks(rows, minor), order)
  {
    var p := Order(Ranks(rows, minor), |rows|);
    var once := At(rows, p);
    var q := Order(Ranks(once, major), |rows|);
    order := At(p, q);
    PermutedAgain(p, q, |rows|);
    assert SortBy(once, major) == At(rows, order);
    forall a, b | 0 <= a < b < |order|
      ensures ShownBefore(Ranks(rows, major), Ranks(rows, minor), order[a], order[b])
    {
      assert Before(Ranks(once, major), q[a], q[b]);
    }
  }

  /** Two arrangements sorted by both ranks start alike. */
  lemma SameFirst(major: seq<nat>, minor: seq<nat>, a: seq<nat>, b: seq<nat>)
    requires |minor| == |major| && LexSorted(major, minor, a) && LexSorted(major, minor, b)
    requires a != [] && b != [] && SameMembers(a, b)
    ensures a[0] == b[0]
  {
    assert a[0] in a && b[0] in b;
    var k :| 0 <= k < |b| && b[k] == a[0];
    var l :| 0 <= l < |a| && a[l] == b[0];
  }

  lemma FirstOccursOnce(major: seq<nat>, minor: seq<nat>, a: seq<nat>, z: nat)
    requires |minor| == |major| && LexSorted(major, minor, a) && a != []
    ensures z in a[1..] <==> z in a && z != a[0]
  {
    if z in a[1..] {
      var k :| 0 <= k < |a| - 1 && a[1..][k] == z;
      assert a[k + 1] == z && ShownBefore(major, minor, a[0], a[k + 1]);
    }
    if z in a && z != a[0] {
      var k :| 0 <= k < |a| && a[k] == z;
      assert a[1..][k - 1] == z;
    }
  }

  /** Only one arrangement of the positions is sorted by both ranks. */
  lemma {:induction false} LexSortedIsUnique(major: seq<nat>, minor: seq<nat>, a: seq<nat>, b: seq<nat>)
    requires |minor| == |major| && LexSorted(major, minor, a) && LexSorted(major, minor, b)
    requires |a| == |b| && SameMembers(a, b)
    ensures a == b
    decreases |a|
  {
    if a != [] {
      SameFirst(major, minor, a, b);
      assert SameMembers(a[1..], b[1..]) by {
        forall z: nat
          ensures z in a[1..] <==> z in b[1..]
        {
          FirstOccursOnce(major, minor, a, z);
          FirstOccursOnce(major, minor, b, z);
        }
      }
      LexSortedIsUnique(major, minor, a[1..], b[1..]);
      assert a == [a[0]] + a[1..] && b == [b[0]] + b[1..];
    }
  }

  /** Eligible results: a permutation of them by novelty, then review priority, then the run's own order. */
  lemma ScreenOrder<T>(rows: seq<T>, novelty: T -> Novelty, priority: T -> Priority) returns (order: seq<nat>)
    ensures IsPermutation(order, |rows|)
    ensures NewFirst(ByReviewPriority(rows, priority), novelty) == At(rows, order)
    ensures LexSorted(Ranks(rows, row => NoveltyRank(novelty(row))), Ranks(rows, row => PriorityRank(priority(row))),
                      order)
  {
    order := ComposedSort(rows, row => PriorityRank(priority(row)), row => NoveltyRank(novelty(row)));
  }

  // ---------------------------------------------------------------- the selection of a deep search

  /** The positions of rank `g` among the first `n`, in order: one `filter`. */
  function Group(ranks: seq<nat>, g: nat, n: nat): seq<nat>
    requires n <= |ranks|
  {
    if n == 0 then [] else Group(ranks, g, n - 1) + if ranks[n - 1] == g then [n - 1] else []
  }

  lemma {:induction false} GroupLaws(ranks: seq<nat>, g: nat, n: nat)
    requires n <= |ranks|
    ensures forall x: nat :: x in Group(ranks, g, n) <==> x < n && ranks[x] == g
    ensures Sorted(ranks, Group(ranks, g, n))
    decreases n
  {
    if n > 0 {
      GroupLaws(ranks, g, n - 1);
      var before := Group(ranks, g, n - 1);
      forall k | 0 <= k < |before|
        ensures before[k] < n - 1 && ranks[before[k]] == g
      {
        assert before[k] in before;
      }
    }
  }

  lemma SortedThen(ranks: seq<nat>, a: seq<nat>, b: seq<nat>)
    requires Sorted(ranks, a) && Sorted(ranks, b)
    requires forall x, y | x in a && y in b :: x < |ranks| && y < |ranks| && ranks[x] < ranks[y]
    ensures Sorted(ranks, a + b)
  {
    var all := a + b;
    forall i, j | 0 <= i < j < |all|
      ensures Before(ranks, all[i], all[j])
    {
      if i < |a| <= j {
        assert all[i] in a && all[j] in b;
      }
    }
  }

  lemma {:induction false} GroupSizes(ranks: seq<nat>, n: nat)
    requires n <= |ranks| && forall i | 0 <= i < |ranks| :: ranks[i] < 3
    ensures |Group(ranks, 0, n)| + |Group(ranks, 1, n)| + |Group(ranks, 2, n)| == n
    decreases n
  {
    if n > 0 {
      GroupSizes(ranks, n - 1);
    }
  }

  lemma MemberOfThree(a: seq<nat>, b: seq<nat>, c: seq<nat>, x: nat)
    ensures x in a + b + c <==> x in a || x in b || x in c
  {
  }

  /** The rows of rank 0, then those of rank 1, then those of rank 2. */
  function Grouped(ranks: seq<nat>): seq<nat> {
    Group(ranks, 0, |ranks|) + Group(ranks, 1, |ranks|) + Group(ranks, 2, |ranks|)
  }

  lemma GroupedIsSorted(ranks: seq<nat>)
    ensures Sorted(ranks, Grouped(ranks))
  {
    var n := |ranks|;
    GroupLaws(ranks, 0, n);
    GroupLaws(ranks, 1, n);
    GroupLaws(ranks, 2, n);
    SortedThen(ranks, Group(ranks, 0, n), Group(ranks, 1, n));
    SortedThen(ranks, Group(ranks, 0, n) + Group(ranks, 1, n), Group(ranks, 2, n));
  }

  lemma GroupedHasAll(ranks: seq<nat>, x: nat)
    requires forall i | 0 <= i < |ranks| :: ranks[i] < 3
    ensures x in Grouped(ranks) <==> x < |ranks|
  {
    GroupLaws(ranks, 0, |ranks|);
    GroupLaws(ranks, 1, |ranks|);
    GroupLaws(ranks, 2, |ranks|);
    MemberOfThree(Group(ranks, 0, |ranks|), Group(ranks, 1, |ranks|), Group(ranks, 2, |ranks|), x);
  }

  /** `[0, 1, 2].flatMap(g => rows of rank g)` is the stable sort by rank. */
  lemma GroupsAreTheStableSort(ranks: seq<nat>)
    requires forall i | 0 <= i < |ranks| :: ranks[i] < 3
    ensures Grouped(ranks) == Order(ranks, |ranks|)
  {
    var all, order := Grouped(ranks), Order(ranks, |ranks|);
    assert |all| == |order| by {
      GroupSizes(ranks, |ranks|);
    }
    assert Sorted(ranks, all) by {
      GroupedIsSorted(ranks);
    }
    forall x: nat
      ensures x in all <==> x in order
    {
      GroupedHasAll(ranks, x);
    }
    SortedIsUnique(ranks, all, order);
  }

  /** The first `max` positions of the grouped list. */
  function Selected(ranks: seq<nat>, max: nat): seq<nat>
  {
    var all := Grouped(ranks);
    all[..if max <= |all| then max else |all|]
  }

  /** A row is left out of the selection only when every selected row is at least as well placed. */
  lemma NothingBetterIsLeftOut(ranks: seq<nat>, max: nat, i: nat, j: nat)
    requires forall k | 0 <= k < |ranks| :: ranks[k] < 3
    requires i in Selected(ranks, max) && j < |ranks| && j !in Selected(ranks, max)
    ensures i < |ranks| && Before(ranks, i, j)
  {
    GroupsAreTheStableSort(ranks);
    var order, chosen := Order(ranks, |ranks|), Selected(ranks, max);
    assert j in order;
    var b :| 0 <= b < |order| && order[b] == j;
    var a :| 0 <= a < |chosen| && chosen[a] == i;
    assert order[a] == i;
    assert forall x | 0 <= x < |chosen| :: chosen[x] != j && order[x] == chosen[x];
  }
}
