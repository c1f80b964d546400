// Diversity selection of candidate-diversity.ts: a greedy pass over the quality-ranked pool that skips
// near-duplicates of what it already kept, then a refill from the skipped candidates.
module CandidateDiversity {
  import opened Text
  import opened EditDistance

  datatype Candidate = Candidate(title: string, url: string)

  const HIGH_TITLE_SIMILARITY := 0.85
  const MIN_CONTAINED_TITLE_LENGTH := 15

  predicate TitlesShareGenericPrefix(lex: Lexicon, a: string, b: string) {
    var na, nb := lex.normalize(a), lex.normalize(b);
    if na == "" || nb == "" then false
    else
      var shorter, longer := if |na| <= |nb| then na else nb, if |na| <= |nb| then nb else na;
      |shorter| >= MIN_CONTAINED_TITLE_LENGTH && Contains(longer, shorter)
  }

  predicate SameRegistrableDomain(lex: Lexicon, a: Candidate, b: Candidate) {
    lex.registrableDomain(a.url).Some? && lex.registrableDomain(a.url) == lex.registrableDomain(b.url)
  }

  predicate NearDuplicate(lex: Lexicon, a: Candidate, b: Candidate) {
    || Similarity(lex.normalize, a.title, b.title) >= HIGH_TITLE_SIMILARITY
    || (SameRegistrableDomain(lex, a, b) && TitlesShareGenericPrefix(lex, a.title, b.title))
  }

  method IsNearDuplicate(lex: Lexicon, a: Candidate, b: Candidate) returns (near: bool)
    ensures near == NearDuplicate(lex, a, b)
  {
    var ratio := ComputeSimilarity(lex.normalize, a.title, b.title);
    if ratio >= HIGH_TITLE_SIMILARITY {
      return true;
    }
    near := SameRegistrableDomain(lex, a, b) && TitlesShareGenericPrefix(lex, a.title, b.title);
  }

  lemma NearDuplicateIsSymmetric(lex: Lexicon, a: Candidate, b: Candidate)
    ensures NearDuplicate(lex, a, b) == NearDuplicate(lex, b, a)
  {
    SimilarityLaws(lex.normalize, a.title, b.title);
    var na, nb := lex.normalize(a.title), lex.normalize(b.title);
    if |na| == |nb| {
      SameLengthContainment(na, nb);
      SameLengthContainment(nb, na);
    }
  }

  lemma SameLengthContainment(x: string, y: string)
    requires |x| == |y|
    ensures Contains(x, y) <==> x == y
  {
    if x == y {
      assert OccursAt(x, y, 0);
    }
    if Contains(x, y) {
      assert OccursAt(x, y, 0);
      assert x[0..|y|] == x;
    }
  }

  /** A domain alone is never enough: titles that share nothing are never near-duplicates. */
  lemma DomainAloneIsNeverEnough(lex: Lexicon, a: Candidate, b: Candidate)
    requires Similarity(lex.normalize, a.title, b.title) < HIGH_TITLE_SIMILARITY
    requires !Contains(lex.normalize(a.title), lex.normalize(b.title))
    requires !Contains(lex.normalize(b.title), lex.normalize(a.title))
    ensures !NearDuplicate(lex, a, b)
  {
  }

  // ---------------------------------------------------------------- the two passes

  /** Positions kept and positions set aside, in pool order. */
  datatype Passes = Passes(kept: seq<nat>, skipped: seq<nat>)

  ghost predicate RepeatsOneOf(lex: Lexicon, pool: seq<Candidate>, at: seq<nat>, i: nat) {
    && i < |pool|
    && exists k | 0 <= k < |at| :: at[k] < |pool| && NearDuplicate(lex, pool[at[k]], pool[i])
  }

  /** The greedy pass over the first `n` candidates. */
  ghost function After(lex: Lexicon, pool: seq<Candidate>, maxResults: int, n: nat): Passes
    requires n <= |pool|
  {
    if n == 0 then Passes([], [])
    else
      var before := After(lex, pool, maxResults, n - 1);
      if Keeps(lex, pool, maxResults, before, n - 1) then before.(kept := before.kept + [n - 1])
      else before.(skipped := before.skipped + [n - 1])
  }

  ghost predicate Keeps(lex: Lexicon, pool: seq<Candidate>, maxResults: int, before: Passes, i: nat) {
    |before.kept| < maxResults && !RepeatsOneOf(lex, pool, before.kept, i)
  }

  ghost predicate Ascending(at: seq<nat>, bound: nat) {
    && (forall i, j | 0 <= i < j < |at| :: at[i] < at[j])
    && (forall i | 0 <= i < |at| :: at[i] < bound)
  }

  ghost function At(pool: seq<Candidate>, at: seq<nat>): seq<Candidate>
    requires Ascending(at, |pool|)
  {
    seq(|at|, k requires 0 <= k < |at| => pool[at[k]])
  }

  lemma AscendingThen(at: seq<nat>, n: nat)
    requires Ascending(at, n)
    ensures Ascending(at, n + 1) && Ascending(at + [n], n + 1)
  {
  }

  lemma AtThen(pool: seq<Candidate>, at: seq<nat>, n: nat)
    requires Ascending(at, n) && n < |pool|
    ensures Ascending(at, |pool|) && Ascending(at + [n], |pool|)
    ensures At(pool, at + [n]) == At(pool, at) + [pool[n]]
  {
  }

  /** How many leftovers complete the selection. */
  function Missing(kept: nat, maxResults: int, skipped: nat): nat {
    if kept >= maxResults then 0 else Min(maxResults - kept, skipped)
  }

  /** The positions of the whole selection: the kept ones, then the leftovers that fill the missing slots. */
  ghost function Selection(lex: Lexicon, pool: seq<Candidate>, maxResults: int): Passes {
    var p := After(lex, pool, maxResults, |pool|);
    p.(skipped := p.skipped[..Missing(|p.kept|, maxResults, |p.skipped|)])
  }

  method SelectDiverse(lex: Lexicon, pool: seq<Candidate>, maxResults: int) returns (selected: seq<Candidate>)
    ensures var s := Selection(lex, pool, maxResults);
            && Ascending(s.kept, |pool|) && Ascending(s.skipped, |pool|)
            && selected == At(pool, s.kept) + At(pool, s.skipped)
  {
    selected := [];
    var skipped := [];
    ghost var p := Passes([], []);
    for n := 0 to |pool|
      invariant p == After(lex, pool, maxResults, n)
      invariant Ascending(p.kept, n) && Ascending(p.skipped, n)
      invariant selected == At(pool, p.kept) && skipped == At(pool, p.skipped)
    {
      AtThen(pool, p.kept, n);
      AtThen(pool, p.skipped, n);
      AscendingThen(p.kept, n);
      AscendingThen(p.skipped, n);
      p := After(lex, pool, maxResults, n + 1);
      if |selected| >= maxResults {
        skipped := skipped + [pool[n]];
      } else {
        var repeats := RepeatsSelected(lex, pool, After(lex, pool, maxResults, n).kept, selected, n);
        if repeats {
          skipped := skipped + [pool[n]];
        } else {
          selected := selected + [pool[n]];
        }
      }
    }
    if |selected| < maxResults {
      ghost var fill := p.skipped[..Missing(|p.kept|, maxResults, |p.skipped|)];
      selected := selected + skipped[..Min(maxResults - |selected|, |skipped|)];
      assert At(pool, fill) == skipped[..|fill|];
    } else {
      assert At(pool, p.skipped[..0]) == [];
    }
  }

  /** The `some` of the first pass: does the next candidate repeat one already selected? */
  method RepeatsSelected(lex: Lexicon, pool: seq<Candidate>, ghost kept: seq<nat>, selected: seq<Candidate>, n: nat)
    returns (repeats: bool)
    requires n < |pool| && Ascending(kept, |pool|) && selected == At(pool, kept)
    ensures repeats == RepeatsOneOf(lex, pool, kept, n)
  {
    repeats := false;
    for k := 0 to |selected|
      invariant forall i | 0 <= i < k :: !NearDuplicate(lex, pool[kept[i]], pool[n])
    {
      var near := IsNearDuplicate(lex, selected[k], pool[n]);
      if near {
        assert NearDuplicate(lex, pool[kept[k]], pool[n]);
        return true;
      }
    }
  }

  // ---------------------------------------------------------------- laws of the selection

  /** The pass keeps pool order. */
  lemma {:induction false} PassesInOrder(lex: Lexicon, pool: seq<Candidate>, maxResults: int, n: nat)
    requires n <= |pool|
    ensures Ascending(After(lex, pool, maxResults, n).kept, n) && Ascending(After(lex, pool, maxResults, n).skipped, n)
    decreases n
  {
    if n > 0 {
      var before := After(lex, pool, maxResults, n - 1);
      PassesInOrder(lex, pool, maxResults, n - 1);
      AscendingThen(before.kept, n - 1);
      AscendingThen(before.skipped, n - 1);
    }
  }

  /** The pass leaves no candidate out and keeps no more than the ceiling. */
  lemma {:induction false} PassesSize(lex: Lexicon, pool: seq<Candidate>, maxResults: int, n: nat)
    requires n <= |pool|
    ensures var p := After(lex, pool, maxResults, n);
            |p.kept| + |p.skipped| == n && |p.kept| <= Missing(0, maxResults, n)
    decreases n
  {
    if n > 0 {
      PassesSize(lex, pool, maxResults, n - 1);
    }
  }

  /** Every position is kept or skipped, never both. */
  lemma {:induction false} PassesPartition(lex: Lexicon, pool: seq<Candidate>, maxResults: int, n: nat, i: nat)
    requires i < n <= |pool|
    ensures var p := After(lex, pool, maxResults, n); (i in p.kept) <==> !(i in p.skipped)
    decreases n
  {
    PassesInOrder(lex, pool, maxResults, n - 1);
    if i < n - 1 {
      PassesPartition(lex, pool, maxResults, n - 1, i);
    }
  }

  lemma {:induction false} KeptAreDistinct(lex: Lexicon, pool: seq<Candidate>, maxResults: int, n: nat, i: nat, j: nat)
    requires n <= |pool| && i < j < |After(lex, pool, maxResults, n).kept|
    ensures var kept := After(lex, pool, maxResults, n).kept;
            kept[i] < |pool| && kept[j] < |pool| && !NearDuplicate(lex, pool[kept[i]], pool[kept[j]])
    decreases n
  {
    PassesInOrder(lex, pool, maxResults, n);
    if j < |After(lex, pool, maxResults, n - 1).kept| {
      KeptAreDistinct(lex, pool, maxResults, n - 1, i, j);
    }
  }

  /** A candidate was skipped only because the selection was full or because it repeats an earlier kept one. */
  lemma {:induction false} SkippedForAReason(lex: Lexicon, pool: seq<Candidate>, maxResults: int, n: nat, i: nat)
    requires n <= |pool| && i in After(lex, pool, maxResults, n).skipped
    ensures i < n && !Keeps(lex, pool, maxResults, After(lex, pool, maxResults, i), i)
    decreases n
  {
    if i in After(lex, pool, maxResults, n - 1).skipped {
      SkippedForAReason(lex, pool, maxResults, n - 1, i);
    }
  }

  lemma {:induction false} KeptGrows(lex: Lexicon, pool: seq<Candidate>, maxResults: int, m: nat, n: nat)
    requires m <= n <= |pool|
    ensures After(lex, pool, maxResults, m).kept <= After(lex, pool, maxResults, n).kept
    decreases n
  {
    if m < n {
      KeptGrows(lex, pool, maxResults, m, n - 1);
    }
  }

  /** The number of results is the smaller of the ceiling and the pool: never fewer than the pool can supply. */
  lemma SelectionSize(lex: Lexicon, pool: seq<Candidate>, maxResults: int)
    ensures var s := Selection(lex, pool, maxResults);
            |s.kept| + |s.skipped| == if maxResults <= 0 then 0 else Min(maxResults, |pool|)
  {
    PassesSize(lex, pool, maxResults, |pool|);
  }

  /** No candidate is selected twice. */
  lemma SelectedOnce(lex: Lexicon, pool: seq<Candidate>, maxResults: int, i: nat)
    requires i in Selection(lex, pool, maxResults).skipped
    ensures i < |pool| && i !in Selection(lex, pool, maxResults).kept
  {
    PassesInOrder(lex, pool, maxResults, |pool|);
    assert i in After(lex, pool, maxResults, |pool|).skipped;
    PassesPartition(lex, pool, maxResults, |pool|, i);
  }

  /** Leftovers are used only when every candidate that was not kept repeats a kept one. */
  lemma RefillOnlyWhenNothingDistinctIsLeft(lex: Lexicon, pool: seq<Candidate>, maxResults: int, i: nat)
    requires Selection(lex, pool, maxResults).skipped != []
    requires i < |pool| && i !in Selection(lex, pool, maxResults).kept
    ensures RepeatsOneOf(lex, pool, Selection(lex, pool, maxResults).kept, i)
  {
    PassesSize(lex, pool, maxResults, |pool|);
    PassesPartition(lex, pool, maxResults, |pool|, i);
    SkippedForAReason(lex, pool, maxResults, |pool|, i);
    KeptGrows(lex, pool, maxResults, i, |pool|);
    var early, kept := After(lex, pool, maxResults, i).kept, After(lex, pool, maxResults, |pool|).kept;
    assert |early| <= |kept| < maxResults;
    var k :| 0 <= k < |early| && early[k] < |pool| && NearDuplicate(lex, pool[early[k]], pool[i]);
    assert kept[k] == early[k];
  }

  /** Kept candidates are pairwise distinct whichever one is compared to the other. */
  lemma KeptAreDistinctBothWays(lex: Lexicon, pool: seq<Candidate>, maxResults: int, i: nat, j: nat)
    requires var kept := Selection(lex, pool, maxResults).kept; i in kept && j in kept && i != j
    ensures i < |pool| && j < |pool| && !NearDuplicate(lex, pool[i], pool[j])
  {
    PassesInOrder(lex, pool, maxResults, |pool|);
    var kept := Selection(lex, pool, maxResults).kept;
    var x :| 0 <= x < |kept| && kept[x] == i;
    var y :| 0 <= y < |kept| && kept[y] == j;
    if x < y {
      KeptAreDistinct(lex, pool, maxResults, |pool|, x, y);
    } else {
      KeptAreDistinct(lex, pool, maxResults, |pool|, y, x);
      NearDuplicateIsSymmetric(lex, pool[i], pool[j]);
    }
  }

  /** The selection is completed with the first leftovers: none is taken while an earlier one is left. */
  lemma RefillTakesTheFirst(lex: Lexicon, pool: seq<Candidate>, maxResults: int, i: nat, j: nat)
    requires i in Selection(lex, pool, maxResults).skipped && j < i
    ensures j in Selection(lex, pool, maxResults).kept || j in Selection(lex, pool, maxResults).skipped
  {
    var p, s := After(lex, pool, maxResults, |pool|), Selection(lex, pool, maxResults);
    PassesInOrder(lex, pool, maxResults, |pool|);
    var x :| 0 <= x < |s.skipped| && s.skipped[x] == i;
    assert p.skipped[x] == i;
    PassesPartition(lex, pool, maxResults, |pool|, j);
    if j in p.skipped {
      var y :| 0 <= y < |p.skipped| && p.skipped[y] == j;
      assert y < x && s.skipped[y] == j;
    }
  }

  /** What the pass keeps later comes later in the pool. */
  lemma {:induction false} KeptLater(lex: Lexicon, pool: seq<Candidate>, maxResults: int, m: nat, n: nat)
    requires m <= n <= |pool|
    ensures var early, late := After(lex, pool, maxResults, m).kept, After(lex, pool, maxResults, n).kept;
            && early <= late && (forall a | 0 <= a < |early| :: early[a] < m)
            && forall a | |early| <= a < |late| :: late[a] >= m
    decreases n
  {
    PassesInOrder(lex, pool, maxResults, m);
    if m < n {
      KeptLater(lex, pool, maxResults, m, n - 1);
    }
  }

  lemma KeptByTheNextStep(lex: Lexicon, pool: seq<Candidate>, maxResults: int, i: nat)
    requires i < |pool|
    ensures i in Selection(lex, pool, maxResults).kept <==> i in After(lex, pool, maxResults, i + 1).kept
  {
    KeptLater(lex, pool, maxResults, i + 1, |pool|);
  }

  /** A candidate is kept exactly when there is room beside the ones kept before it and it repeats none of them. */
  lemma KeptIff(lex: Lexicon, pool: seq<Candidate>, maxResults: int, i: nat) returns (before: nat)
    requires i < |pool|
    ensures var kept := Selection(lex, pool, maxResults).kept;
            && before <= |kept| && (forall a | 0 <= a < |kept| :: kept[a] < |pool| && (a < before <==> kept[a] < i))
            && (i in kept <==> before < maxResults
                               && forall a | 0 <= a < before :: !NearDuplicate(lex, pool[kept[a]], pool[i]))
  {
    var early := After(lex, pool, maxResults, i).kept;
    before := |early|;
    KeptLater(lex, pool, maxResults, i, |pool|);
    PassesInOrder(lex, pool, maxResults, |pool|);
    KeptByTheNextStep(lex, pool, maxResults, i);
    assert i !in early;
    assert i in After(lex, pool, maxResults, i + 1).kept
        <==> Keeps(lex, pool, maxResults, After(lex, pool, maxResults, i), i);
    assert RepeatsOneOf(lex, pool, early, i)
        <==> exists a | 0 <= a < before :: NearDuplicate(lex, pool[early[a]], pool[i]);
  }
}
