// How many elements of a sequence satisfy a predicate.
module Counting {

  /** How many of the first `n` rows satisfy `p`. */
  function Count<T>(rows: seq<T>, p: T -> bool, n: nat): nat
    requires n <= |rows|
  {
    if n == 0 then 0 else Count(rows, p, n - 1) + if p(rows[n - 1]) then 1 else 0
  }

  lemma {:induction false} CountBefore<T>(rows: seq<T>, more: seq<T>, p: T -> bool, n: nat)
    requires n <= |rows|
    ensures Count(rows + more, p, n) == Count(rows, p, n)
    decreases n
  {
    if n > 0 {
      CountBefore(rows, more, p, n - 1);
    }
  }

  lemma CountThen<T>(rows: seq<T>, x: T, p: T -> bool)
    ensures Count(rows + [x], p, |rows| + 1) == Count(rows, p, |rows|) + if p(x) then 1 else 0
  {
    CountBefore(rows, [x], p, |rows|);
  }

  lemma {:induction false} CountIsSmall<T>(rows: seq<T>, p: T -> bool, n: nat)
    requires n <= |rows|
    ensures Count(rows, p, n) <= n
    decreases n
  {
    if n > 0 {
      CountIsSmall(rows, p, n - 1);
    }
  }
}
