// The map's quantile classes (creations-map.ts).
module CreationsMap {
  import opened Text
  import opened Counting

  predicate Ascending(s: seq<int>) {
    forall i, j | 0 <= i < j < |s| :: s[i] <= s[j]
  }

  predicate Distinct(s: seq<int>) {
    forall i, j | 0 <= i < j < |s| :: s[i] != s[j]
  }

  // ---------------------------------------------------------------- the sorted copy

  function Insert(s: seq<int>, x: int): seq<int>
    decreases |s|
  {
    if s == [] || s[|s| - 1] <= x then s + [x] else Insert(s[..|s| - 1], x) + [s[|s| - 1]]
  }

  /** `[...values].sort((a, b) => a - b)`, of the first `n` values. */
  function SortedCopy(values: seq<int>, n: nat): seq<int>
    requires n <= |values|
  {
    if n == 0 then [] else Insert(SortedCopy(values, n - 1), values[n - 1])
  }

  lemma {:induction false} InsertCounts(s: seq<int>, x: int, p: int -> bool)
    ensures |Insert(s, x)| == |s| + 1
    ensures Count(Insert(s, x), p, |s| + 1) == Count(s, p, |s|) + if p(x) then 1 else 0
    decreases |s|
  {
    if s == [] || s[|s| - 1] <= x {
      CountThen(s, x, p);
    } else {
      var init, last := s[..|s| - 1], s[|s| - 1];
      InsertCounts(init, x, p);
      CountThen(Insert(init, x), last, p);
      CountThen(init, last, p);
      assert s == init + [last];
    }
  }

  /** Sorting changes no count: the sorted copy is a permutation of the values. */
  lemma {:induction false} SortingKeepsCounts(values: seq<int>, p: int -> bool, n: nat)
    requires n <= |values|
    ensures |SortedCopy(values, n)| == n && Count(SortedCopy(values, n), p, n) == Count(values, p, n)
    decreases n
  {
    if n > 0 {
      SortingKeepsCounts(values, p, n - 1);
      InsertCounts(SortedCopy(values, n - 1), values[n - 1], p);
    }
  }

  ghost predicate AtMost(s: seq<int>, bound: int) {
    forall k | 0 <= k < |s| :: s[k] <= bound
  }

  lemma {:induction false} InsertAscends(s: seq<int>, x: int, bound: int)
    requires Ascending(s) && AtMost(s, bound) && x <= bound
    ensures Ascending(Insert(s, x)) && AtMost(Insert(s, x), bound)
    decreases |s|
  {
    if s != [] && s[|s| - 1] > x {
      var init, last := s[..|s| - 1], s[|s| - 1];
      InsertAscends(init, x, last);
      assert AtMost(Insert(init, x), last);
    }
  }

  lemma {:induction false} SortedCopyAscends(values: seq<int>, n: nat)
    requires n <= |values|
    ensures Ascending(SortedCopy(values, n))
    decreases n
  {
    if n > 0 {
      SortedCopyAscends(values, n - 1);
      var s, x := SortedCopy(values, n - 1), values[n - 1];
      InsertAscends(s, x, if s == [] || s[|s| - 1] <= x then x else s[|s| - 1]);
    }
  }

  // ---------------------------------------------------------------- breaks and classes

  /** Where class `i` starts in the sorted copy. */
  function Start(i: nat, n: nat, classes: nat): nat
    requires classes > 0
  {
    i * n / classes
  }

  lemma TimesGrows(i: nat, j: nat, n: nat)
    requires i <= j
    ensures i * n <= j * n && (i < j && n > 0 ==> i * n < j * n)
  {
    assert j * n == i * n + (j - i) * n;
  }

  /** The floor: that many times k fit in x, and once more does not. */
  lemma FloorLaws(x: nat, k: nat)
    requires k > 0
    ensures x / k * k <= x < x / k * k + k
  {
  }

  /** The floor is the only such number. */
  lemma FloorIs(x: nat, k: nat, q: nat)
    requires k > 0 && q * k <= x < q * k + k
    ensures x / k == q
  {
    var f := x / k;
    FloorLaws(x, k);
    if f < q {
      TimesGrows(f + 1, q, k);
    } else if q < f {
      TimesGrows(q + 1, f, k);
    }
  }

  lemma FloorGrows(x: nat, y: nat, k: nat)
    requires k > 0 && x <= y
    ensures x / k <= y / k
  {
    var f, g := x / k, y / k;
    FloorLaws(x, k);
    FloorLaws(y, k);
    if g < f {
      TimesGrows(g + 1, f, k);
    }
  }

  lemma StartGrows(i: nat, j: nat, n: nat, classes: nat)
    requires classes > 0 && i <= j
    ensures Start(i, n, classes) <= Start(j, n, classes)
  {
    TimesGrows(i, j, n);
    FloorGrows(i * n, j * n, classes);
  }

  lemma LastStart(n: nat, classes: nat)
    requires classes > 0
    ensures Start(classes, n, classes) == n
  {
    FloorIs(classes * n, classes, n);
  }

  lemma StartIsBelow(j: nat, n: nat, classes: nat)
    requires j < classes && n > 0
    ensures Start(j, n, classes) < n
  {
    TimesGrows(j, classes, n);
    FloorLaws(j * n, classes);
    TooSmall(j * n, classes, n, j * n / classes);
  }

  lemma TooSmall(x: nat, k: nat, n: nat, f: nat)
    requires x < k * n && f * k <= x
    ensures f < n
  {
    if n <= f {
      TimesGrows(n, f, k);
    }
  }

  lemma StartsAreOrdered(i: nat, j: nat, n: nat, classes: nat)
    requires classes > 0 && i <= j
    ensures Start(i, n, classes) <= Start(j, n, classes)
    ensures Start(classes, n, classes) == n
    ensures j < classes && n > 0 ==> Start(j, n, classes) < n
  {
    StartGrows(i, j, n, classes);
    LastStart(n, classes);
    if j < classes && n > 0 {
      StartIsBelow(j, n, classes);
    }
  }

  /** A break read past the end of an empty copy is undefined: no value reaches it. */
  function BreakAt(s: seq<int>, i: nat, classes: nat): Option<int>
    requires classes > 0
  {
    if Start(i, |s|, classes) < |s| then Some(s[Start(i, |s|, classes)]) else None
  }

  method QuantileBreaks(values: seq<int>, classes: nat) returns (out: seq<Option<int>>)
    ensures |out| == if classes == 0 then 0 else classes - 1
    ensures forall i | 0 <= i < |out| :: out[i] == BreakAt(SortedCopy(values, |values|), i + 1, classes)
  {
    var s := SortedCopy(values, |values|);
    out := [];
    var i := 1;
    while i < classes
      invariant 1 <= i && |out| == i - 1 && (i <= classes || i == 1)
      invariant forall k | 0 <= k < |out| :: out[k] == BreakAt(s, k + 1, classes)
    {
      out := out + [BreakAt(s, i, classes)];
      i := i + 1;
    }
  }

  predicate Reaches(v: int, b: Option<int>) {
    b.Some? && v >= b.value
  }

  /** The class of a value: the breaks it reaches before the first one it does not. */
  function ClassOf(v: int, breaks: seq<Option<int>>, from: nat): (c: nat)
    requires from <= |breaks|
    ensures from <= c <= |breaks|
    ensures forall k | from <= k < c :: Reaches(v, breaks[k])
    ensures c < |breaks| ==> !Reaches(v, breaks[c])
    decreases |breaks| - from
  {
    if from < |breaks| && Reaches(v, breaks[from]) then ClassOf(v, breaks, from + 1) else from
  }

  method ComputeClassOf(v: int, breaks: seq<Option<int>>) returns (i: nat)
    ensures i == ClassOf(v, breaks, 0)
  {
    i := 0;
    while i < |breaks| && Reaches(v, breaks[i])
      invariant i <= |breaks| && ClassOf(v, breaks, 0) == ClassOf(v, breaks, i)
    {
      i := i + 1;
    }
  }

  /** The breaks of these values. */
  function Breaks(values: seq<int>, classes: nat): (b: seq<Option<int>>)
    requires classes > 0
    ensures |b| == classes - 1
  {
    seq(classes - 1, i requires 0 <= i < classes - 1 => BreakAt(SortedCopy(values, |values|), i + 1, classes))
  }

  function ClassIn(values: seq<int>, classes: nat, v: int): nat
    requires classes > 0
  {
    ClassOf(v, Breaks(values, classes), 0)
  }

  /** Of a non-empty list, every break is defined, and the breaks ascend. */
  lemma BreaksAscend(values: seq<int>, classes: nat, i: nat, j: nat)
    requires classes > 0 && values != [] && i <= j < classes - 1
    ensures var b := Breaks(values, classes); b[i].Some? && b[j].Some? && b[i].value <= b[j].value
  {
    SortingKeepsCounts(values, x => true, |values|);
    SortedCopyAscends(values, |values|);
    StartsAreOrdered(i + 1, j + 1, |values|, classes);
    StartsAreOrdered(i + 1, i + 1, |values|, classes);
  }

  /** A value is at least of class i exactly when it reaches the break that opens class i. */
  lemma ClassIsAtLeastIff(values: seq<int>, classes: nat, v: int, i: nat)
    requires classes > 0 && values != [] && i < classes
    ensures ClassIn(values, classes, v) < classes
    ensures i <= ClassIn(values, classes, v) <==> i == 0 || Reaches(v, Breaks(values, classes)[i - 1])
  {
    var b, c := Breaks(values, classes), ClassIn(values, classes, v);
    if i > 0 && c < i {
      BreaksAscend(values, classes, c, i - 1);
    }
  }

  /** Greater values never have a lower class. */
  lemma ClassesAreMonotone(values: seq<int>, classes: nat, v: int, w: int)
    requires classes > 0 && values != [] && v <= w
    ensures ClassIn(values, classes, v) <= ClassIn(values, classes, w) < classes
  {
    ClassIsAtLeastIff(values, classes, v, 0);
    ClassIsAtLeastIff(values, classes, v, ClassIn(values, classes, v));
    ClassIsAtLeastIff(values, classes, w, ClassIn(values, classes, v));
  }

  /** When only positions from `lo` up to `hi` satisfy `p`, there are hi - lo of them. */
  lemma {:induction false} CountOfInterval(s: seq<int>, p: int -> bool, lo: nat, hi: nat, n: nat)
    requires lo <= hi && n <= |s|
    requires forall k | 0 <= k < n :: p(s[k]) <==> lo <= k < hi
    ensures Count(s, p, n) == if n <= lo then 0 else if n <= hi then n - lo else hi - lo
    decreases n
  {
    if n > 0 {
      CountOfInterval(s, p, lo, hi, n - 1);
    }
  }

  lemma {:induction false} CountIsAtMost(s: seq<int>, p: int -> bool, hi: nat, n: nat)
    requires n <= |s| && forall k | hi <= k < n :: !p(s[k])
    ensures Count(s, p, n) <= hi
    decreases n
  {
    if n > hi {
      CountIsAtMost(s, p, hi, n - 1);
    } else {
      CountIsSmall(s, p, n);
    }
  }

  function BelowClass(values: seq<int>, classes: nat, i: nat): int -> bool
    requires classes > 0
  {
    (v: int) => ClassIn(values, classes, v) < i
  }

  function OfClass(values: seq<int>, classes: nat, i: nat): int -> bool
    requires classes > 0
  {
    (v: int) => ClassIn(values, classes, v) == i
  }

  /** From the position where class i starts, the sorted copy is at least of class i. */
  lemma AboveTheStart(values: seq<int>, classes: nat, i: nat, k: nat)
    requires classes > 0 && i < classes && Start(i, |values|, classes) <= k < |values|
    ensures |SortedCopy(values, |values|)| == |values|
    ensures i <= ClassIn(values, classes, SortedCopy(values, |values|)[k])
  {
    SortingKeepsCounts(values, x => true, |values|);
    var s, at := SortedCopy(values, |values|), Start(i, |values|, classes);
    SortedCopyAscends(values, |values|);
    assert at < k ==> s[at] <= s[k];
    ClassIsAtLeastIff(values, classes, s[k], i);
  }

  /** At most floor(i n / k) of the values fall below class i. */
  lemma FewFallBelow(values: seq<int>, classes: nat, i: nat)
    requires classes > 0 && values != [] && i < classes
    ensures Count(values, BelowClass(values, classes, i), |values|) <= i * |values| / classes
  {
    var n, s, below := |values|, SortedCopy(values, |values|), BelowClass(values, classes, i);
    SortingKeepsCounts(values, below, n);
    forall k | Start(i, n, classes) <= k < n
      ensures !below(s[k])
    {
      AboveTheStart(values, classes, i, k);
    }
    CountIsAtMost(s, below, Start(i, n, classes), n);
  }

  lemma {:induction false} CountOnce(s: seq<int>, x: int, n: nat)
    requires n <= |s|
    ensures Count(s, v => v == x, n) >= 1 <==> exists k | 0 <= k < n :: s[k] == x
    decreases n
  {
    if n > 0 {
      CountOnce(s, x, n - 1);
    }
  }

  /** Two equal entries count twice. */
  lemma {:induction false} CountTwice(s: seq<int>, x: int, i: nat, j: nat, n: nat)
    requires i < j < n <= |s| && s[i] == x && s[j] == x
    ensures Count(s, v => v == x, n) >= 2
    decreases n
  {
    if j < n - 1 {
      CountTwice(s, x, i, j, n - 1);
    } else {
      CountOnce(s, x, n - 1);
    }
  }

  lemma {:induction false} DistinctCountsOnce(s: seq<int>, x: int, n: nat)
    requires n <= |s| && Distinct(s)
    ensures Count(s, v => v == x, n) <= 1
    decreases n
  {
    if n > 0 {
      DistinctCountsOnce(s, x, n - 1);
      CountOnce(s, x, n - 1);
    }
  }

  /** Distinct values stay distinct when sorted. */
  lemma SortedCopyIsDistinct(values: seq<int>)
    requires Distinct(values)
    ensures Distinct(SortedCopy(values, |values|))
  {
    var s := SortedCopy(values, |values|);
    SortingKeepsCounts(values, x => true, |values|);
    forall i, j | 0 <= i < j < |s|
      ensures s[i] != s[j]
    {
      if s[i] == s[j] {
        CountTwice(s, s[i], i, j, |s|);
        SortingKeepsCounts(values, v => v == s[i], |values|);
        DistinctCountsOnce(values, s[i], |values|);
      }
    }
  }

  lemma ClassHoldsAnInterval(values: seq<int>, classes: nat, i: nat, k: nat)
    requires classes > 0 && values != [] && Distinct(values) && i < classes && k < |values|
    ensures |SortedCopy(values, |values|)| == |values|
    ensures ClassIn(values, classes, SortedCopy(values, |values|)[k]) == i
       <==> Start(i, |values|, classes) <= k < Start(i + 1, |values|, classes)
  {
    ClassStartsAt(values, classes, i, k);
    if i + 1 < classes {
      ClassStartsAt(values, classes, i + 1, k);
    } else {
      StartsAreOrdered(i + 1, classes, |values|, classes);
      ClassIsAtLeastIff(values, classes, SortedCopy(values, |values|)[k], i);
    }
  }

  /** The positions of the sorted copy that are of class i. */
  lemma ClassIsAnInterval(values: seq<int>, classes: nat, i: nat, lo: nat, hi: nat)
    requires classes > 0 && values != [] && Distinct(values) && i < classes
    requires lo == Start(i, |values|, classes) && hi == Start(i + 1, |values|, classes)
    ensures |SortedCopy(values, |values|)| == |values|
    ensures forall k | 0 <= k < |values| ::
              OfClass(values, classes, i)(SortedCopy(values, |values|)[k]) <==> lo <= k < hi
  {
    SortingKeepsCounts(values, x => true, |values|);
    forall k | 0 <= k < |values|
      ensures OfClass(values, classes, i)(SortedCopy(values, |values|)[k]) <==> lo <= k < hi
    {
      ClassHoldsAnInterval(values, classes, i, k);
    }
  }

  /** When the values are distinct, class i holds exactly floor((i + 1) n / k) - floor(i n / k) of them. */
  lemma DistinctValuesSpreadEvenly(values: seq<int>, classes: nat, i: nat)
    requires classes > 0 && values != [] && Distinct(values) && i < classes
    ensures Count(values, OfClass(values, classes, i), |values|)
         == (i + 1) * |values| / classes - i * |values| / classes
  {
    var n, lo, hi := |values|, Start(i, |values|, classes), Start(i + 1, |values|, classes);
    StartsAreOrdered(i, i + 1, n, classes);
    StartsAreOrdered(i + 1, classes, n, classes);
    ClassIsAnInterval(values, classes, i, lo, hi);
    SortingKeepsCounts(values, OfClass(values, classes, i), n);
    CountOfInterval(SortedCopy(values, n), OfClass(values, classes, i), lo, hi, n);
  }

  lemma DistinctOrder(s: seq<int>, at: nat, k: nat)
    requires Ascending(s) && Distinct(s) && at < |s| && k < |s|
    ensures s[at] <= s[k] <==> at <= k
  {
  }

  lemma OpeningBreak(values: seq<int>, classes: nat, i: nat, at: nat)
    requires 0 < i < classes && values != [] && at == Start(i, |values|, classes)
    ensures |SortedCopy(values, |values|)| == |values| && at < |values|
    ensures Breaks(values, classes)[i - 1] == Some(SortedCopy(values, |values|)[at])
  {
    SortingKeepsCounts(values, x => true, |values|);
    StartIsBelow(i, |values|, classes);
  }

  lemma FirstStart(n: nat, classes: nat)
    requires classes > 0
    ensures Start(0, n, classes) == 0
  {
  }

  lemma LaterClassStartsAt(values: seq<int>, classes: nat, i: nat, k: nat, s: seq<int>, at: nat)
    requires 0 < i < classes && values != [] && Distinct(values) && k < |values|
    requires s == SortedCopy(values, |values|) && |s| == |values| && at < |s|
        && Breaks(values, classes)[i - 1] == Some(s[at])
    ensures i <= ClassIn(values, classes, s[k]) <==> at <= k
  {
    SortedCopyAscends(values, |values|);
    SortedCopyIsDistinct(values);
    ClassIsAtLeastIff(values, classes, s[k], i);
    DistinctOrder(s, at, k);
  }

  /** The k-th smallest of distinct values is at least of class i exactly from position Start(i) on. */
  lemma ClassStartsAt(values: seq<int>, classes: nat, i: nat, k: nat)
    requires classes > 0 && values != [] && Distinct(values) && i < classes && k < |values|
    ensures |SortedCopy(values, |values|)| == |values|
    ensures i <= ClassIn(values, classes, SortedCopy(values, |values|)[k]) <==> Start(i, |values|, classes) <= k
  {
    SortingKeepsCounts(values, x => true, |values|);
    if i > 0 {
      OpeningBreak(values, classes, i, Start(i, |values|, classes));
      LaterClassStartsAt(values, classes, i, k, SortedCopy(values, |values|), Start(i, |values|, classes));
    } else {
      FirstStart(|values|, classes);
    }
  }
}
