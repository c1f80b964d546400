// The edit distance of deduplication.ts: a one-row dynamic programme overwritten in place, proved to compute
// the recursive distance, which is the least number of single-character edits, which is a metric.
module EditDistance {
  import opened Text

  function Init(s: string): string
    requires s != ""
  {
    s[..|s| - 1]
  }

  function Last(s: string): char
    requires s != ""
  {
    s[|s| - 1]
  }

  function Cost(x: char, y: char): nat {
    if x == y then 0 else 1
  }

  /** The recursive distance: delete the last character, insert it, or align the two last characters. */
  function Distance(a: string, b: string): nat
    decreases |a| + |b|
  {
    if a == "" then |b|
    else if b == "" then |a|
    else Min(Min(Distance(Init(a), b) + 1, Distance(a, Init(b)) + 1),
             Distance(Init(a), Init(b)) + Cost(Last(a), Last(b)))
  }

  // ---------------------------------------------------------------- the one-row programme

  /** The entry (i, j) of the full table: the distance of the two prefixes. */
  function Entry(a: string, b: string, i: nat, j: nat): nat
    requires i <= |a| && j <= |b|
  {
    Distance(a[..i], b[..j])
  }

  lemma EntryFromNeighbours(a: string, b: string, i: nat, j: nat)
    requires 0 < i <= |a| && 0 < j <= |b|
    ensures Entry(a, b, i, j) == Min(Min(Entry(a, b, i - 1, j) + 1, Entry(a, b, i, j - 1) + 1),
                                     Entry(a, b, i - 1, j - 1) + Cost(a[i - 1], b[j - 1]))
  {
    assert Init(a[..i]) == a[..i - 1] && Init(b[..j]) == b[..j - 1];
  }

  lemma EntryOnBorder(a: string, b: string, i: nat, j: nat)
    requires i <= |a| && j <= |b|
    ensures i == 0 ==> Entry(a, b, i, j) == j
    ensures j == 0 ==> Entry(a, b, i, j) == i
  {
  }

  /** `row` is overwritten in place; `prev` holds the diagonal entry the overwrite has just destroyed. */
  method OneRowDistance(a: string, b: string) returns (d: nat)
    ensures d == Distance(a, b)
  {
    var row := new nat[|b| + 1](i requires 0 <= i => i);
    forall j | 0 <= j <= |b| ensures row[j] == Entry(a, b, 0, j) { EntryOnBorder(a, b, 0, j); }
    for i := 1 to |a| + 1
      invariant forall j | 0 <= j <= |b| :: row[j] == Entry(a, b, i - 1, j)
    {
      var prev := row[0];
      row[0] := i;
      EntryOnBorder(a, b, i, 0);
      for j := 1 to |b| + 1
        invariant forall k | 0 <= k < j :: row[k] == Entry(a, b, i, k)
        invariant forall k | j <= k <= |b| :: row[k] == Entry(a, b, i - 1, k)
        invariant prev == Entry(a, b, i - 1, j - 1)
      {
        EntryFromNeighbours(a, b, i, j);
        var diagonal := row[j];
        row[j] := Min(Min(row[j] + 1, row[j - 1] + 1), prev + (if a[i - 1] == b[j - 1] then 0 else 1));
        prev := diagonal;
      }
    }
    assert a[..|a|] == a && b[..|b|] == b;
    d := row[|b|];
  }

  // ---------------------------------------------------------------- metric laws

  lemma {:induction false} LengthBounds(a: string, b: string)
    ensures |a| <= |b| + Distance(a, b)
    ensures |b| <= |a| + Distance(a, b)
    ensures Distance(a, b) <= Max(|a|, |b|)
    decreases |a| + |b|
  {
    if a != "" && b != "" {
      LengthBounds(Init(a), b);
      LengthBounds(a, Init(b));
      LengthBounds(Init(a), Init(b));
    }
  }

  lemma {:induction false} Symmetric(a: string, b: string)
    ensures Distance(a, b) == Distance(b, a)
    decreases |a| + |b|
  {
    if a != "" && b != "" {
      Symmetric(Init(a), b);
      Symmetric(a, Init(b));
      Symmetric(Init(a), Init(b));
    }
  }

  lemma {:induction false} ZeroIffEqual(a: string, b: string)
    ensures Distance(a, b) == 0 <==> a == b
    decreases |a| + |b|
  {
    if a != "" && b != "" {
      ZeroIffEqual(Init(a), Init(b));
      assert a == Init(a) + [Last(a)] && b == Init(b) + [Last(b)];
    }
  }

  lemma {:induction false} Triangle(a: string, b: string, c: string)
    ensures Distance(a, c) <= Distance(a, b) + Distance(b, c)
    decreases |a| + |b| + |c|
  {
    if a == "" || b == "" || c == "" {
      LengthBounds(a, b);
      LengthBounds(b, c);
      LengthBounds(a, c);
    } else {
      Triangle(Init(a), b, c);
      Triangle(a, b, Init(c));
      Triangle(a, Init(b), c);
      Triangle(a, Init(b), Init(c));
      Triangle(Init(a), Init(b), c);
      Triangle(Init(a), Init(b), Init(c));
    }
  }

  // ---------------------------------------------------------------- edit scripts

  /** A single-character edit at a position of the current string. */
  datatype Edit = Insert(at: nat, c: char) | Delete(at: nat) | Substitute(at: nat, c: char)

  predicate Applies(e: Edit, s: string) {
    if e.Insert? then e.at <= |s| else e.at < |s|
  }

  function Edited(e: Edit, s: string): string
    requires Applies(e, s)
  {
    match e
    case Insert(at, c) => s[..at] + [c] + s[at..]
    case Delete(at) => s[..at] + s[at + 1..]
    case Substitute(at, c) => s[..at] + [c] + s[at + 1..]
  }

  datatype Script = End | Then(first: Edit, rest: Script)
  {
    function Length(): nat {
      if End? then 0 else 1 + rest.Length()
    }

    function And(e: Edit): Script {
      if End? then Then(e, End) else Then(first, rest.And(e))
    }
  }

  /** The edits of `script`, applied one after the other, turn `a` into `b`. */
  predicate Rewrites(script: Script, a: string, b: string) {
    match script
    case End => a == b
    case Then(e, rest) => Applies(e, a) && Rewrites(rest, Edited(e, a), b)
  }

  lemma {:induction false} CommonSuffix(a: string, b: string, t: string)
    ensures Distance(a + t, b + t) <= Distance(a, b)
    decreases |t|
  {
    if t == "" {
      assert a + t == a && b + t == b;
    } else {
      CommonSuffix(a, b, Init(t));
      assert Init(a + t) == a + Init(t) && Init(b + t) == b + Init(t);
    }
  }

  /** Two strings that differ by their last character only, or by having one. */
  lemma LastCharacterCostsAtMostOne(u: string, x: char, y: char)
    ensures Distance(u, u + [x]) <= 1 && Distance(u + [x], u) <= 1 && Distance(u + [x], u + [y]) <= 1
  {
    ZeroIffEqual(u, u);
    assert Init(u + [x]) == u && Init(u + [y]) == u;
  }

  lemma InnerCharacterCostsAtMostOne(u: string, x: char, y: char, t: string)
    ensures Distance(u + t, (u + [x]) + t) <= 1
    ensures Distance((u + [x]) + t, u + t) <= 1
    ensures Distance((u + [x]) + t, (u + [y]) + t) <= 1
  {
    LastCharacterCostsAtMostOne(u, x, y);
    CommonSuffix(u, u + [x], t);
    CommonSuffix(u + [x], u, t);
    CommonSuffix(u + [x], u + [y], t);
  }

  /** The string before and after an edit, around the edited position. */
  lemma AroundEdit(e: Edit, s: string) returns (u: string, x: char, y: char, t: string)
    requires Applies(e, s)
    ensures (s == u + t && Edited(e, s) == (u + [x]) + t)
         || (s == (u + [x]) + t && Edited(e, s) == u + t)
         || (s == (u + [x]) + t && Edited(e, s) == (u + [y]) + t)
  {
    u := s[..e.at];
    if e.Insert? {
      x, y, t := e.c, e.c, s[e.at..];
    } else {
      x, y, t := s[e.at], (if e.Delete? then s[e.at] else e.c), s[e.at + 1..];
    }
  }

  lemma OneEditCostsAtMostOne(e: Edit, s: string)
    requires Applies(e, s)
    ensures Distance(s, Edited(e, s)) <= 1
  {
    var u, x, y, t := AroundEdit(e, s);
    InnerCharacterCostsAtMostOne(u, x, y, t);
  }

  /** No script is shorter than the distance. */
  lemma {:induction false} ScriptsAreNoShorter(script: Script, a: string, b: string)
    requires Rewrites(script, a, b)
    ensures Distance(a, b) <= script.Length()
    decreases script
  {
    match script
    case End =>
      ZeroIffEqual(a, b);
    case Then(e, rest) =>
      OneEditCostsAtMostOne(e, a);
      ScriptsAreNoShorter(rest, Edited(e, a), b);
      Triangle(a, Edited(e, a), b);
  }

  /** One more edit at the end of a script. */
  lemma {:induction false} RewritesAnd(script: Script, e: Edit, a: string, m: string)
    requires Rewrites(script, a, m) && Applies(e, m)
    ensures Rewrites(script.And(e), a, Edited(e, m)) && script.And(e).Length() == script.Length() + 1
    decreases script
  {
    if script.Then? {
      RewritesAnd(script.rest, e, Edited(script.first, a), m);
    }
  }

  lemma EditBeforeSuffix(e: Edit, a: string, t: string)
    requires Applies(e, a)
    ensures Applies(e, a + t) && Edited(e, a + t) == Edited(e, a) + t
  {
    assert (a + t)[..e.at] == a[..e.at];
    if e.Insert? {
      assert (a + t)[e.at..] == a[e.at..] + t;
    } else {
      assert (a + t)[e.at + 1..] == a[e.at + 1..] + t;
    }
  }

  lemma {:induction false} RewritesBeforeSuffix(script: Script, a: string, b: string, t: string)
    requires Rewrites(script, a, b)
    ensures Rewrites(script, a + t, b + t)
    decreases script
  {
    if script.Then? {
      EditBeforeSuffix(script.first, a, t);
      RewritesBeforeSuffix(script.rest, Edited(script.first, a), b, t);
    }
  }

  lemma SubstituteLast(p: string, x: char, y: char)
    ensures Applies(Substitute(|p|, y), p + [x])
    ensures Edited(Substitute(|p|, y), p + [x]) == p + [y]
  {
  }

  lemma AlignLastAfter(rest: Script, a: string, b: string) returns (script: Script)
    requires a != "" && b != "" && Rewrites(rest, Init(a), Init(b))
    ensures Rewrites(script, a, b) && script.Length() == rest.Length() + Cost(Last(a), Last(b))
  {
    var p, x, y := Init(b), Last(a), Last(b);
    assert a == Init(a) + [x] && b == p + [y];
    RewritesBeforeSuffix(rest, Init(a), p, [x]);
    if x == y {
      script := rest;
    } else {
      SubstituteLast(p, x, y);
      RewritesAnd(rest, Substitute(|p|, y), a, p + [x]);
      script := rest.And(Substitute(|p|, y));
    }
  }

  lemma InsertLastAfter(rest: Script, a: string, b: string)
    requires b != "" && Rewrites(rest, a, Init(b))
    ensures Rewrites(rest.And(Insert(|b| - 1, Last(b))), a, b)
    ensures rest.And(Insert(|b| - 1, Last(b))).Length() == rest.Length() + 1
  {
    assert Edited(Insert(|b| - 1, Last(b)), Init(b)) == b;
    RewritesAnd(rest, Insert(|b| - 1, Last(b)), a, Init(b));
  }

  lemma DeleteLastBefore(rest: Script, a: string, b: string)
    requires a != "" && Rewrites(rest, Init(a), b)
    ensures Rewrites(Then(Delete(|a| - 1), rest), a, b)
  {
    assert Edited(Delete(|a| - 1), a) == Init(a);
  }

  /** A script as short as the distance exists. */
  lemma {:induction false} ShortestScript(a: string, b: string) returns (script: Script)
    ensures Rewrites(script, a, b) && script.Length() == Distance(a, b)
    decreases |a| + |b|
  {
    if a == "" && b == "" {
      script := End;
    } else if b == "" || (a != "" && Distance(a, b) == Distance(Init(a), b) + 1) {
      var rest := ShortestScript(Init(a), b);
      DeleteLastBefore(rest, a, b);
      script := Then(Delete(|a| - 1), rest);
    } else if a == "" || Distance(a, b) == Distance(a, Init(b)) + 1 {
      var rest := ShortestScript(a, Init(b));
      InsertLastAfter(rest, a, b);
      script := rest.And(Insert(|b| - 1, Last(b)));
    } else {
      var rest := ShortestScript(Init(a), Init(b));
      script := AlignLastAfter(rest, a, b);
    }
  }

  /** The distance is the least number of single-character edits turning one string into the other. */
  lemma DistanceIsLeastScriptLength(a: string, b: string)
    ensures exists script :: Rewrites(script, a, b) && script.Length() == Distance(a, b)
    ensures forall script :: Rewrites(script, a, b) ==> Distance(a, b) <= script.Length()
  {
    var best := ShortestScript(a, b);
    forall script | Rewrites(script, a, b)
      ensures Distance(a, b) <= script.Length()
    {
      ScriptsAreNoShorter(script, a, b);
    }
  }

  // ---------------------------------------------------------------- similarity

  /** 1 minus the distance of the normalized strings over the longer length; 0 when either one is empty. */
  function Similarity(normalize: string -> string, a: string, b: string): real {
    var x, y := normalize(a), normalize(b);
    if x == "" || y == "" then 0.0
    else 1.0 - (Distance(x, y) as real) / (Max(|x|, |y|) as real)
  }

  method ComputeSimilarity(normalize: string -> string, a: string, b: string) returns (s: real)
    ensures s == Similarity(normalize, a, b)
  {
    var x, y := normalize(a), normalize(b);
    if x == "" || y == "" {
      return 0.0;
    }
    var d := OneRowDistance(x, y);
    s := 1.0 - (d as real) / (Max(|x|, |y|) as real);
  }

  lemma SimilarityLaws(normalize: string -> string, a: string, b: string)
    ensures Similarity(normalize, a, b) == Similarity(normalize, b, a)
    ensures 0.0 <= Similarity(normalize, a, b) <= 1.0
    ensures Similarity(normalize, a, b) == 1.0 <==> normalize(a) == normalize(b) != ""
  {
    var x, y := normalize(a), normalize(b);
    Symmetric(x, y);
    LengthBounds(x, y);
    ZeroIffEqual(x, y);
    if x != "" && y != "" {
      RatioLaws(Distance(x, y), Max(|x|, |y|));
    }
  }

  lemma RatioLaws(d: nat, m: nat)
    requires 0 < m && d <= m
    ensures 0.0 <= (d as real) / (m as real) <= 1.0
    ensures (d as real) / (m as real) == 0.0 <==> d == 0
  {
    QuotientOrder(d as real, m as real, 1.0);
  }

  /** At most the fraction 1 - threshold of `m` characters are edited. */
  predicate FewEdits(d: nat, m: nat, threshold: real) {
    (d as real) <= (1.0 - threshold) * (m as real)
  }

  /** What a threshold on the similarity means for the number of edits. */
  lemma ThresholdBoundsEdits(normalize: string -> string, a: string, b: string, threshold: real)
    requires normalize(a) != "" && normalize(b) != ""
    ensures Similarity(normalize, a, b) >= threshold
       <==> FewEdits(Distance(normalize(a), normalize(b)), Max(|normalize(a)|, |normalize(b)|), threshold)
  {
    var d, m := Distance(normalize(a), normalize(b)), Max(|normalize(a)|, |normalize(b)|);
    AboveThreshold(d, m, threshold);
  }

  lemma AboveThreshold(d: nat, m: nat, threshold: real)
    requires m > 0
    ensures 1.0 - (d as real) / (m as real) >= threshold <==> FewEdits(d, m, threshold)
  {
    QuotientOrder(d as real, m as real, 1.0 - threshold);
  }

  lemma QuotientOrder(d: real, m: real, bound: real)
    requires m > 0.0
    ensures d / m <= bound <==> d <= bound * m
  {
    var q := d / m;
    assert q * m == d;
    Scale(q, bound, m);
    Scale(bound, q, m);
  }

  lemma Scale(x: real, y: real, m: real)
    requires m > 0.0
    ensures x <= y ==> x * m <= y * m
    ensures x < y ==> x * m < y * m
  {
  }
}
