// The search-query planner of query-plan.ts, from tokens on: a cursor cuts the brief into subjects and topics, pairs
// of them become a few queries, and a query too close to a kept one is dropped.
module QueryPlan {
  import opened Text

  const MAX_SEARCH_QUERIES := 3
  const MAX_SIGNAL_QUERIES := 2
  const MAX_SUBJECT_WORDS := 3
  const MAX_TOPIC_WORDS := 4

  datatype Token = Word(text: string, key: string) | Punct(mark: char)

  /** The word lists and the singular/plural-insensitive stem. */
  datatype Grammar = Grammar(
    stem: string -> string,
    isFunctionWord: string -> bool,
    isInstruction: string -> bool,
    endsHead: string -> bool,
    breaksPhrase: string -> bool,
    coordinates: string -> bool,
    isMeaningful: string -> bool)

  /** A token's key is its folded text: both have the same stem. */
  ghost predicate Faithful(g: Grammar, tokens: seq<Token>) {
    forall i | 0 <= i < |tokens| && tokens[i].Word? :: g.stem(tokens[i].key) == g.stem(tokens[i].text)
  }

  predicate IsContent(g: Grammar, key: string, zone: set<string>) {
    key != "" && !g.isFunctionWord(key) && !g.isInstruction(key) && g.stem(key) !in zone
  }

  /** None of these words repeats the zone. */
  ghost predicate OutsideZone(g: Grammar, words: seq<string>, zone: set<string>) {
    forall i | 0 <= i < |words| :: g.stem(words[i]) !in zone
  }

  ghost predicate AllOutsideZone(g: Grammar, phrases: seq<seq<string>>, zone: set<string>) {
    forall i | 0 <= i < |phrases| :: OutsideZone(g, phrases[i], zone)
  }

  function Take<T>(s: seq<T>, n: nat): seq<T> {
    if |s| <= n then s else s[..n]
  }

  // ---------------------------------------------------------------- 1 and 2: cutting the brief

  /** A token an opening skips: an instruction verb, or an article that does not end the leading phrase. */
  predicate Opens(g: Grammar, t: Token) {
    t.Word? && (g.isInstruction(t.key) || (g.isFunctionWord(t.key) && !g.endsHead(t.key)))
  }

  function StartsHead(g: Grammar): Token -> bool {
    (t: Token) => !Opens(g, t)
  }

  /** A token that ends the leading phrase: other punctuation than a list mark, a closing word, or a zone word. */
  predicate Stops(g: Grammar, t: Token, zone: set<string>) {
    if t.Punct? then t.mark !in {',', '/', '&'} else g.endsHead(t.key) || g.stem(t.key) in zone
  }

  function EndsHead(g: Grammar, zone: set<string>): Token -> bool {
    (t: Token) => Stops(g, t, zone)
  }

  predicate IsContentWord(g: Grammar, t: Token, zone: set<string>) {
    t.Word? && IsContent(g, t.key, zone)
  }

  /** How tokens are cut into phrases: some start a new one, some words are kept, the others are skipped. */
  datatype Cut = Cut(breaks: Token -> bool, keeps: Token -> bool)

  function SubjectCut(g: Grammar, zone: set<string>): Cut {
    Cut((t: Token) => t.Punct? || g.coordinates(t.key), (t: Token) => IsContentWord(g, t, zone))
  }

  function RestCut(g: Grammar, zone: set<string>): Cut {
    Cut((t: Token) => t.Punct? || g.breaksPhrase(t.key), (t: Token) => IsContentWord(g, t, zone))
  }

  /** The number of cuts among the tokens from `start` up to `n`. */
  function Breaks(cut: Cut, tokens: seq<Token>, start: nat, n: nat): nat
    requires start <= n <= |tokens|
  {
    if n == start then 0 else Breaks(cut, tokens, start, n - 1) + if cut.breaks(tokens[n - 1]) then 1 else 0
  }

  /** The kept words with exactly `b` cuts before them. */
  function WordsAfterBreaks(cut: Cut, tokens: seq<Token>, start: nat, n: nat, b: nat): seq<string>
    requires start <= n <= |tokens|
  {
    if n == start then []
    else
      var t := tokens[n - 1];
      WordsAfterBreaks(cut, tokens, start, n - 1, b)
      + if t.Word? && !cut.breaks(t) && cut.keeps(t) && Breaks(cut, tokens, start, n - 1) == b then [t.text] else []
  }

  /** The phrases of the tokens from `start` up to `n`: the b-th holds the kept words with b cuts before them. */
  ghost predicate ArePhrases(cut: Cut, tokens: seq<Token>, start: nat, n: nat, phrases: seq<seq<string>>)
    requires start <= n <= |tokens|
  {
    && |phrases| == Breaks(cut, tokens, start, n) + 1
    && forall b | 0 <= b < |phrases| :: phrases[b] == WordsAfterBreaks(cut, tokens, start, n, b)
  }

  lemma {:induction false} NoWordsPastLastBreak(cut: Cut, tokens: seq<Token>, start: nat, n: nat, b: nat)
    requires start <= n <= |tokens| && b > Breaks(cut, tokens, start, n)
    ensures WordsAfterBreaks(cut, tokens, start, n, b) == []
    decreases n
  {
    if n > start {
      NoWordsPastLastBreak(cut, tokens, start, n - 1, b);
    }
  }

  /** The word joins the last phrase. */
  function Extended(phrases: seq<seq<string>>, word: string): seq<seq<string>>
    requires phrases != []
  {
    phrases[|phrases| - 1 := phrases[|phrases| - 1] + [word]]
  }

  /** One token: it starts a phrase, joins the last one, or is skipped. */
  function CutOne(cut: Cut, phrases: seq<seq<string>>, t: Token): seq<seq<string>>
    requires phrases != []
  {
    if cut.breaks(t) then phrases + [[]] else if t.Word? && cut.keeps(t) then Extended(phrases, t.text) else phrases
  }

  lemma OneMoreToken(cut: Cut, tokens: seq<Token>, start: nat, n: nat, phrases: seq<seq<string>>)
    requires start <= n < |tokens| && ArePhrases(cut, tokens, start, n, phrases)
    ensures ArePhrases(cut, tokens, start, n + 1, CutOne(cut, phrases, tokens[n]))
  {
    NoWordsPastLastBreak(cut, tokens, start, n, |phrases|);
    var next := CutOne(cut, phrases, tokens[n]);
    forall b | 0 <= b < |next|
      ensures next[b] == WordsAfterBreaks(cut, tokens, start, n + 1, b)
    {
      assert b < |phrases| ==> phrases[b] == WordsAfterBreaks(cut, tokens, start, n, b);
    }
  }

  function CutUpTo(cut: Cut, tokens: seq<Token>, start: nat, n: nat): (phrases: seq<seq<string>>)
    requires start <= n <= |tokens|
    ensures ArePhrases(cut, tokens, start, n, phrases)
  {
    if n == start then [[]]
    else
      OneMoreToken(cut, tokens, start, n - 1, CutUpTo(cut, tokens, start, n - 1));
      CutOne(cut, CutUpTo(cut, tokens, start, n - 1), tokens[n - 1])
  }

  /** Where the leading noun phrase starts: the first token an opening does not skip. */
  method SkipOpening(g: Grammar, tokens: seq<Token>) returns (i: nat)
    ensures i == FirstIndex(tokens, StartsHead(g))
  {
    i := 0;
    while i < |tokens| && tokens[i].Word?
          && (g.isInstruction(tokens[i].key) || (g.isFunctionWord(tokens[i].key) && !g.endsHead(tokens[i].key)))
      invariant i <= |tokens|
      invariant forall k | 0 <= k < i :: !StartsHead(g)(tokens[k])
    {
      i := i + 1;
    }
    FirstIndexIs(tokens, StartsHead(g), i);
  }

  /** Content words are cut into coordinated subjects up to the first token that ends the leading phrase. */
  method CutSubjects(g: Grammar, tokens: seq<Token>, start: nat, zone: set<string>)
      returns (i: nat, subjects: seq<seq<string>>)
    requires start <= |tokens|
    ensures i == FirstIndexFrom(tokens, EndsHead(g, zone), start)
    ensures subjects == CutUpTo(SubjectCut(g, zone), tokens, start, i)
  {
    ghost var cut := SubjectCut(g, zone);
    i, subjects := start, [[]];
    while i < |tokens|
      invariant start <= i <= |tokens|
      invariant forall k | start <= k < i :: !EndsHead(g, zone)(tokens[k])
      invariant subjects == CutUpTo(cut, tokens, start, i)
    {
      var t := tokens[i];
      if t.Punct? {
        if t.mark !in {',', '/', '&'} {
          break;
        }
        subjects := subjects + [[]];
      } else if g.endsHead(t.key) || g.stem(t.key) in zone {
        break;
      } else if g.coordinates(t.key) {
        subjects := subjects + [[]];
      } else if IsContent(g, t.key, zone) {
        subjects := Extended(subjects, t.text);
      }
      i := i + 1;
    }
    FirstIndexFromIs(tokens, EndsHead(g, zone), start, i);
  }

  /** The rest of the brief, cut at punctuation and at phrase-opening words. */
  method CutRest(g: Grammar, tokens: seq<Token>, start: nat, zone: set<string>) returns (rest: seq<seq<string>>)
    requires start <= |tokens|
    ensures rest == CutUpTo(RestCut(g, zone), tokens, start, |tokens|)
  {
    ghost var cut := RestCut(g, zone);
    rest := [[]];
    for i := start to |tokens|
      invariant rest == CutUpTo(cut, tokens, start, i)
    {
      var t := tokens[i];
      if t.Punct? || g.breaksPhrase(t.key) {
        rest := rest + [[]];
      } else if IsContent(g, t.key, zone) {
        rest := Extended(rest, t.text);
      }
    }
  }

  lemma {:induction false} KeptWordsStayOutside(g: Grammar, cut: Cut, tokens: seq<Token>, start: nat, n: nat, b: nat,
                                                zone: set<string>)
    requires start <= n <= |tokens| && Faithful(g, tokens)
    requires forall t: Token :: cut.keeps(t) ==> IsContentWord(g, t, zone)
    ensures OutsideZone(g, WordsAfterBreaks(cut, tokens, start, n, b), zone)
    decreases n
  {
    if n > start {
      KeptWordsStayOutside(g, cut, tokens, start, n - 1, b, zone);
    }
  }

  /** No phrase repeats the zone. */
  lemma CutStaysOutside(g: Grammar, cut: Cut, tokens: seq<Token>, start: nat, n: nat, zone: set<string>)
    requires start <= n <= |tokens| && Faithful(g, tokens)
    requires forall t: Token :: cut.keeps(t) ==> IsContentWord(g, t, zone)
    ensures AllOutsideZone(g, CutUpTo(cut, tokens, start, n), zone)
  {
    var phrases := CutUpTo(cut, tokens, start, n);
    forall b | 0 <= b < |phrases|
      ensures OutsideZone(g, phrases[b], zone)
    {
      KeptWordsStayOutside(g, cut, tokens, start, n, b, zone);
    }
  }

  /** The words of a text that satisfy `p`, in order. */
  function WordsOf(tokens: seq<Token>, p: Token -> bool, n: nat): (words: seq<string>)
    requires n <= |tokens|
  {
    if n == 0 then []
    else WordsOf(tokens, p, n - 1) + if tokens[n - 1].Word? && p(tokens[n - 1]) then [tokens[n - 1].text] else []
  }

  lemma {:induction false} WordsStayOutside(g: Grammar, tokens: seq<Token>, p: Token -> bool, n: nat, zone: set<string>)
    requires n <= |tokens| && Faithful(g, tokens) && forall t: Token :: p(t) ==> IsContentWord(g, t, zone)
    ensures OutsideZone(g, WordsOf(tokens, p, n), zone)
    decreases n
  {
    if n > 0 {
      WordsStayOutside(g, tokens, p, n - 1, zone);
    }
  }

  function ContentWords(g: Grammar, tokens: seq<Token>, zone: set<string>): seq<string> {
    WordsOf(tokens, (t: Token) => IsContentWord(g, t, zone), |tokens|)
  }

  /** The content words of a signal that mean something. */
  function SignalWords(g: Grammar, tokens: seq<Token>, zone: set<string>): seq<string> {
    WordsOf(tokens, (t: Token) => IsContentWord(g, t, zone) && g.isMeaningful(t.text), |tokens|)
  }

  // ---------------------------------------------------------------- 3: queries that are far enough apart

  /** A planned query: its concept words, and the stems it searches for, zone included. */
  datatype Query = Query(words: seq<string>, key: set<string>)

  /** Jaccard similarity of at least three quarters; two empty sets are similar. */
  predicate Near(a: set<string>, b: set<string>) {
    var common := |a * b|;
    4 * common >= 3 * (|a| + |b| - common)
  }

  lemma NearLaws(a: set<string>, b: set<string>)
    ensures Near(a, b) == Near(b, a) && Near(a, a)
  {
    assert a * b == b * a && a * a == a;
  }

  function StemsOf(g: Grammar, words: seq<string>): set<string> {
    set i | 0 <= i < |words| :: g.stem(words[i])
  }

  /** Words in order, each with a non-empty stem no earlier word has. */
  function Unique(g: Grammar, words: seq<string>, n: nat): seq<string>
    requires n <= |words|
  {
    if n == 0 then [] else KeepNext(g, Unique(g, words, n - 1), words[n - 1])
  }

  function KeepNext(g: Grammar, kept: seq<string>, word: string): seq<string> {
    if g.stem(word) == "" || g.stem(word) in StemsOf(g, kept) then kept else kept + [word]
  }

  /** Words that were read, each with a stem of its own. */
  ghost predicate OneOfEach(g: Grammar, kept: seq<string>, read: seq<string>) {
    && (forall i | 0 <= i < |kept| :: g.stem(kept[i]) != "" && kept[i] in read)
    && (forall i, j | 0 <= i < j < |kept| :: g.stem(kept[i]) != g.stem(kept[j]))
  }

  lemma OneOfEachThen(g: Grammar, kept: seq<string>, read: seq<string>, word: string)
    requires OneOfEach(g, kept, read)
    ensures OneOfEach(g, KeepNext(g, kept, word), read + [word])
  {
  }

  lemma {:induction false} UniqueLaws(g: Grammar, words: seq<string>, n: nat)
    requires n <= |words|
    ensures OneOfEach(g, Unique(g, words, n), words[..n])
    decreases n
  {
    if n > 0 {
      UniqueLaws(g, words, n - 1);
      assert words[..n] == words[..n - 1] + [words[n - 1]];
      OneOfEachThen(g, Unique(g, words, n - 1), words[..n - 1], words[n - 1]);
    }
  }

  function QueryOf(g: Grammar, words: seq<string>, zone: set<string>): Query {
    var unique := Unique(g, words, |words|);
    Query(unique, StemsOf(g, unique) + zone)
  }

  /**
   Concept words with pairwise distinct stems, none of them empty or a zone stem; the key is those stems and the
   zone's.
   */
  ghost predicate WellFormed(g: Grammar, q: Query, zone: set<string>) {
    && (forall i | 0 <= i < |q.words| :: g.stem(q.words[i]) != "" && g.stem(q.words[i]) !in zone)
    && (forall i, j | 0 <= i < j < |q.words| :: g.stem(q.words[i]) != g.stem(q.words[j]))
    && q.key == StemsOf(g, q.words) + zone
  }

  lemma QueriesAreWellFormed(g: Grammar, words: seq<string>, zone: set<string>)
    requires OutsideZone(g, words, zone)
    ensures WellFormed(g, QueryOf(g, words, zone), zone)
  {
    UniqueLaws(g, words, |words|);
    assert words[..|words|] == words;
    var unique := Unique(g, words, |words|);
    assert OneOfEach(g, unique, words);
    forall i | 0 <= i < |unique|
      ensures g.stem(unique[i]) !in zone
    {
      var k :| 0 <= k < |words| && words[k] == unique[i];
    }
  }

  ghost predicate FarApart(queries: seq<Query>) {
    forall i, j | 0 <= i < j < |queries| :: !Near(queries[i].key, queries[j].key)
  }

  predicate NearOneOf(queries: seq<Query>, key: set<string>) {
    exists i | 0 <= i < |queries| :: Near(queries[i].key, key)
  }

  ghost predicate AllWellFormed(g: Grammar, queries: seq<Query>, zone: set<string>) {
    forall i | 0 <= i < |queries| :: WellFormed(g, queries[i], zone)
  }

  /** Greedily among the first `n` candidates: one near a kept query is dropped, and at most `limit` are added. */
  function Picked(base: seq<Query>, candidates: seq<Option<Query>>, limit: nat, n: nat): seq<Query>
    requires n <= |candidates|
  {
    if n == 0 then [] else PickOne(base, Picked(base, candidates, limit, n - 1), candidates[n - 1], limit)
  }

  function PickOne(base: seq<Query>, added: seq<Query>, candidate: Option<Query>, limit: nat): seq<Query> {
    if candidate.Some? && |added| < limit && !NearOneOf(base + added, candidate.value.key)
        then added + [candidate.value] else added
  }

  /** Within the limit, all candidates, and none dropped but for a near query or a full plan. */
  ghost predicate PickedWell(base: seq<Query>, candidates: seq<Option<Query>>, limit: nat, n: nat, added: seq<Query>)
    requires n <= |candidates|
  {
    && |added| <= limit
    && (FarApart(base) ==> FarApart(base + added))
    && (forall i | 0 <= i < |added| :: Some(added[i]) in candidates)
    && (forall k | 0 <= k < n && candidates[k].Some? ::
        |added| == limit || NearOneOf(base + added, candidates[k].value.key))
  }

  lemma NearStays(base: seq<Query>, added: seq<Query>, q: Query, key: set<string>)
    requires NearOneOf(base + added, key)
    ensures NearOneOf(base + (added + [q]), key)
  {
    var i :| 0 <= i < |base + added| && Near((base + added)[i].key, key);
    assert (base + (added + [q]))[i] == (base + added)[i];
  }

  lemma PickOneWell(base: seq<Query>, candidates: seq<Option<Query>>, limit: nat, n: nat, added: seq<Query>)
    requires n < |candidates| && PickedWell(base, candidates, limit, n, added)
    ensures PickedWell(base, candidates, limit, n + 1, PickOne(base, added, candidates[n], limit))
  {
    var next := PickOne(base, added, candidates[n], limit);
    if next != added {
      var q := candidates[n].value;
      assert base + next == base + added + [q];
      if FarApart(base) {
        OneMoreFarApart(base + added, q);
      }
      NearLaws(q.key, q.key);
      assert (base + next)[|base + added|] == q;
      assert candidates[n] in candidates;
      forall k | 0 <= k < n && candidates[k].Some?
        ensures NearOneOf(base + next, candidates[k].value.key)
      {
        NearStays(base, added, q, candidates[k].value.key);
      }
    }
  }

  lemma {:induction false} PickLaws(base: seq<Query>, candidates: seq<Option<Query>>, limit: nat, n: nat)
    requires n <= |candidates|
    ensures PickedWell(base, candidates, limit, n, Picked(base, candidates, limit, n))
    decreases n
  {
    if n > 0 {
      PickLaws(base, candidates, limit, n - 1);
      PickOneWell(base, candidates, limit, n - 1, Picked(base, candidates, limit, n - 1));
    }
  }

  /** A full selection stays as it is. */
  lemma {:induction false} FullStays(base: seq<Query>, candidates: seq<Option<Query>>, limit: nat, m: nat, n: nat)
    requires m <= n <= |candidates| && |Picked(base, candidates, limit, m)| == limit
    ensures Picked(base, candidates, limit, n) == Picked(base, candidates, limit, m)
    decreases n
  {
    if m < n {
      FullStays(base, candidates, limit, m, n - 1);
    }
  }

  /** The query of a subject and topic pair, unless there is nothing to search for. */
  function MainCandidate(g: Grammar, words: seq<string>, input: Input): Option<Query> {
    var q := QueryOf(g, words, input.zone);
    if q.words == [] && input.zoneText == "" then None else Some(q)
  }

  function MainCandidates(g: Grammar, pairs: seq<seq<string>>, input: Input): seq<Option<Query>> {
    seq(|pairs|, k requires 0 <= k < |pairs| => MainCandidate(g, pairs[k], input))
  }

  /** One more pair of the main plan. */
  lemma PickedThen(candidates: seq<Option<Query>>, limit: nat, n: nat, next: seq<Query>)
    requires n < |candidates| && |Picked([], candidates, limit, n)| < limit
    requires var added := Picked([], candidates, limit, n);
             next == if candidates[n].Some? && !NearOneOf(added, candidates[n].value.key)
                 then added + [candidates[n].value] else added
    ensures next == Picked([], candidates, limit, n + 1)
    ensures |next| == limit ==> next == Picked([], candidates, limit, |candidates|)
  {
    var added := Picked([], candidates, limit, n);
    assert [] + added == added;
    assert next == PickOne([], added, candidates[n], limit);
    if |next| == limit {
      FullStays([], candidates, limit, n + 1, |candidates|);
    }
  }

  method MainQueries(g: Grammar, pairs: seq<seq<string>>, input: Input) returns (queries: seq<Query>)
    ensures queries == Picked([], MainCandidates(g, pairs, input), MAX_SEARCH_QUERIES, |pairs|)
  {
    ghost var candidates := MainCandidates(g, pairs, input);
    queries := [];
    for p := 0 to |pairs|
      invariant |queries| < MAX_SEARCH_QUERIES && queries == Picked([], candidates, MAX_SEARCH_QUERIES, p)
    {
      var candidate := MainCandidate(g, pairs[p], input);
      if candidate.Some? && !NearOneOf(queries, candidate.value.key) {
        queries := queries + [candidate.value];
      }
      PickedThen(candidates, MAX_SEARCH_QUERIES, p, queries);
      if |queries| == MAX_SEARCH_QUERIES {
        return;
      }
    }
  }

  /** The query of a signal: what is looked for, then the signal's own words, unless it has none that mean something. */
  function SignalCandidate(g: Grammar, signal: seq<Token>, anchor: seq<string>, zone: set<string>): Option<Query> {
    var words := SignalWords(g, signal, zone);
    if words == [] then None else Some(QueryOf(g, anchor + words, zone))
  }

  function SignalCandidates(g: Grammar, signals: seq<seq<Token>>, anchor: seq<string>,
                            zone: set<string>): seq<Option<Query>> {
    seq(|signals|, s requires 0 <= s < |signals| => SignalCandidate(g, signals[s], anchor, zone))
  }

  /** At most two more queries, one per signal that says something new. */
  method SignalQueries(g: Grammar, signals: seq<seq<Token>>, anchor: seq<string>, zone: set<string>, main: seq<Query>)
    returns (added: seq<Query>)
    ensures added == Picked(main, SignalCandidates(g, signals, anchor, zone), MAX_SIGNAL_QUERIES, |signals|)
  {
    ghost var candidates := SignalCandidates(g, signals, anchor, zone);
    added := [];
    for s := 0 to |signals|
      invariant |added| <= MAX_SIGNAL_QUERIES && added == Picked(main, candidates, MAX_SIGNAL_QUERIES, s)
    {
      if |added| == MAX_SIGNAL_QUERIES {
        FullStays(main, candidates, MAX_SIGNAL_QUERIES, s, |signals|);
        return;
      }
      var words := SignalWords(g, signals[s], zone);
      if words != [] {
        var q := QueryOf(g, anchor + words, zone);
        if !NearOneOf(main + added, q.key) {
          added := added + [q];
        }
      }
    }
  }

  lemma OneMoreFarApart(queries: seq<Query>, q: Query)
    requires FarApart(queries) && !NearOneOf(queries, q.key)
    ensures FarApart(queries + [q])
  {
    var all := queries + [q];
    forall i, j | 0 <= i < j < |all|
      ensures !Near(all[i].key, all[j].key)
    {
      if j == |queries| {
        assert all[i] == queries[i];
      }
    }
  }

  // ---------------------------------------------------------------- the plan

  /** The tokens of the brief, the zone as typed and its stems, the categories and the need signals. */
  datatype Input = Input(tokens: seq<Token>, zoneText: string, zone: set<string>, categories: seq<seq<Token>>,
                         signals: seq<seq<Token>>)

  ghost predicate FaithfulInput(g: Grammar, input: Input) {
    && Faithful(g, input.tokens)
    && (forall i | 0 <= i < |input.categories| :: Faithful(g, input.categories[i]))
    && (forall i | 0 <= i < |input.signals| :: Faithful(g, input.signals[i]))
  }

  predicate Redundant(g: Grammar, words: seq<string>, known: set<string>) {
    forall i | 0 <= i < |words| :: g.stem(words[i]) in known
  }

  /** The phrases with at least one word, cut to their first `limit` words. */
  function Phrases(phrases: seq<seq<string>>, limit: nat, n: nat): seq<seq<string>>
    requires n <= |phrases|
  {
    if n == 0 then [] else Phrases(phrases, limit, n - 1) + if phrases[n - 1] == [] then []
        else [Take(phrases[n - 1], limit)]
  }

  /** The phrases that say more than the subjects and the zone, cut to their first words. */
  function Topics(g: Grammar, phrases: seq<seq<string>>, known: set<string>, n: nat): seq<seq<string>>
    requires n <= |phrases|
  {
    if n == 0 then []
    else Topics(g, phrases, known, n - 1)
         + if phrases[n - 1] == [] || Redundant(g, phrases[n - 1], known) then []
             else [Take(phrases[n - 1], MAX_TOPIC_WORDS)]
  }

  lemma {:induction false} PhrasesStayOutside(g: Grammar, phrases: seq<seq<string>>, zone: set<string>, limit: nat,
                                              n: nat)
    requires n <= |phrases| && AllOutsideZone(g, phrases, zone)
    ensures AllOutsideZone(g, Phrases(phrases, limit, n), zone)
    decreases n
  {
    if n > 0 {
      PhrasesStayOutside(g, phrases, zone, limit, n - 1);
      assert OutsideZone(g, Take(phrases[n - 1], limit), zone);
    }
  }

  lemma {:induction false} TopicsStayOutside(g: Grammar, phrases: seq<seq<string>>, known: set<string>,
                                             zone: set<string>, n: nat)
    requires n <= |phrases| && AllOutsideZone(g, phrases, zone)
    ensures AllOutsideZone(g, Topics(g, phrases, known, n), zone)
    decreases n
  {
    if n > 0 {
      TopicsStayOutside(g, phrases, known, zone, n - 1);
      assert OutsideZone(g, Take(phrases[n - 1], MAX_TOPIC_WORDS), zone);
    }
  }

  function StemsOfAll(g: Grammar, phrases: seq<seq<string>>, n: nat): set<string>
    requires n <= |phrases|
  {
    if n == 0 then {} else StemsOfAll(g, phrases, n - 1) + StemsOf(g, phrases[n - 1])
  }

  /** The k-th phrase of a list read in a circle, or no words of an empty list. */
  function Cycled(phrases: seq<seq<string>>, k: nat): (phrase: seq<string>)
    ensures phrases != [] ==> phrase in phrases
    ensures phrases == [] ==> phrase == []
  {
    if phrases == [] then [] else phrases[k % |phrases|]
  }

  /** Subject and topic `k` of two cycling lists. */
  function Pair(subjects: seq<seq<string>>, topics: seq<seq<string>>, k: nat): seq<string> {
    Cycled(subjects, k) + Cycled(topics, k)
  }

  function PairsUpTo(subjects: seq<seq<string>>, topics: seq<seq<string>>, n: nat): (pairs: seq<seq<string>>)
    ensures |pairs| == n && forall k | 0 <= k < n :: pairs[k] == Pair(subjects, topics, k)
  {
    seq(n, k requires 0 <= k < n => Pair(subjects, topics, k))
  }

  lemma PairsStayOutside(g: Grammar, subjects: seq<seq<string>>, topics: seq<seq<string>>, zone: set<string>, n: nat)
    requires AllOutsideZone(g, subjects, zone) && AllOutsideZone(g, topics, zone)
    ensures AllOutsideZone(g, PairsUpTo(subjects, topics, n), zone)
  {
    forall k: nat | k < n
      ensures OutsideZone(g, PairsUpTo(subjects, topics, n)[k], zone)
    {
      PairStaysOutside(g, subjects, topics, zone, k);
    }
  }

  /** Subject x topic pairs, or the first content words of a brief that has neither. */
  function PairsOf(g: Grammar, input: Input, subjects: seq<seq<string>>, topics: seq<seq<string>>): seq<seq<string>> {
    if subjects == [] && topics == []
        then [Take(ContentWords(g, input.tokens, input.zone), MAX_TOPIC_WORDS + MAX_SUBJECT_WORDS)]
    else PairsUpTo(subjects, topics, Min(MAX_SEARCH_QUERIES + 2, Max(|subjects|, |topics|)))
  }

  method Pairs(g: Grammar, input: Input, subjects: seq<seq<string>>, topics: seq<seq<string>>)
      returns (pairs: seq<seq<string>>)
    ensures pairs == PairsOf(g, input, subjects, topics)
  {
    if subjects == [] && topics == [] {
      pairs := [Take(ContentWords(g, input.tokens, input.zone), MAX_TOPIC_WORDS + MAX_SUBJECT_WORDS)];
      return;
    }
    var count := Min(MAX_SEARCH_QUERIES + 2, Max(|subjects|, |topics|));
    pairs := [];
    for k := 0 to count
      invariant pairs == PairsUpTo(subjects, topics, k)
    {
      pairs := pairs + [Pair(subjects, topics, k)];
    }
  }

  lemma PairsOfStayOutside(g: Grammar, input: Input, subjects: seq<seq<string>>, topics: seq<seq<string>>)
    requires Faithful(g, input.tokens)
    requires AllOutsideZone(g, subjects, input.zone) && AllOutsideZone(g, topics, input.zone)
    ensures AllOutsideZone(g, PairsOf(g, input, subjects, topics), input.zone)
        && PairsOf(g, input, subjects, topics) != []
  {
    if subjects == [] && topics == [] {
      WordsStayOutside(g, input.tokens, (t: Token) => IsContentWord(g, t, input.zone), |input.tokens|, input.zone);
    } else {
      PairsStayOutside(g, subjects, topics, input.zone, Min(MAX_SEARCH_QUERIES + 2, Max(|subjects|, |topics|)));
    }
  }

  lemma PairStaysOutside(g: Grammar, subjects: seq<seq<string>>, topics: seq<seq<string>>, zone: set<string>, k: nat)
    requires AllOutsideZone(g, subjects, zone) && AllOutsideZone(g, topics, zone)
    ensures OutsideZone(g, Pair(subjects, topics, k), zone)
  {
    CycledStaysOutside(g, subjects, zone, k);
    CycledStaysOutside(g, topics, zone, k);
  }

  lemma CycledStaysOutside(g: Grammar, phrases: seq<seq<string>>, zone: set<string>, k: nat)
    requires AllOutsideZone(g, phrases, zone)
    ensures OutsideZone(g, Cycled(phrases, k), zone)
  {
    if phrases != [] {
      var i :| 0 <= i < |phrases| && phrases[i] == Cycled(phrases, k);
    }
  }

  /** The plan: the main query first, then the signal queries, then the rest of the main plan, three in all. */
  function Arranged(main: seq<Query>, signals: seq<Query>): seq<Query>
    requires main != []
  {
    Take([main[0]] + signals + main[1..], MAX_SEARCH_QUERIES)
  }

  /** The queries of a plan come from different places of two lists that are far apart, so they are far apart too. */
  lemma ArrangedIsFarApart(g: Grammar, main: seq<Query>, signals: seq<Query>, zone: set<string>)
    requires main != [] && FarApart(main + signals) && AllWellFormed(g, main + signals, zone)
    ensures FarApart(Arranged(main, signals)) && AllWellFormed(g, Arranged(main, signals), zone)
  {
    var all, plan := main + signals, Arranged(main, signals);
    forall i | 0 <= i < |plan|
      ensures plan[i] == all[Place(|main|, |signals|, i)]
    {
    }
    forall i, j | 0 <= i < j < |plan|
      ensures !Near(plan[i].key, plan[j].key)
    {
      var x, y := Place(|main|, |signals|, i), Place(|main|, |signals|, j);
      NearLaws(all[x].key, all[y].key);
      assert x != y;
    }
  }

  /** Where the i-th query of a plan stands in the main queries followed by the signal queries. */
  function Place(main: nat, signals: nat, i: nat): nat {
    if i == 0 then 0 else if i <= signals then main + i - 1 else i - signals
  }

  /** A brief with nothing to search for: the zone as typed, alone. */
  const ZONE_ONLY := Query([], {})

  function PlanOf(main: seq<Query>, signals: seq<Query>): seq<Query> {
    Arranged(if main == [] then [ZONE_ONLY] else main, signals)
  }

  lemma PlanLaws(g: Grammar, main: seq<Query>, signals: seq<Query>, zone: set<string>)
    requires |main| <= MAX_SEARCH_QUERIES && |signals| <= MAX_SIGNAL_QUERIES
    requires FarApart(main + signals) && AllWellFormed(g, main + signals, zone)
    ensures var plan := PlanOf(main, signals);
            && 1 <= |plan| <= MAX_SEARCH_QUERIES
            && (main != [] ==> plan[0] == main[0] && FarApart(plan) && AllWellFormed(g, plan, zone))
            && (main == [] ==> plan[0] == ZONE_ONLY && FarApart(plan[1..]) && AllWellFormed(g, plan[1..], zone))
            && (signals == [] ==> plan == if main == [] then [ZONE_ONLY] else main)
  {
    if main == [] {
      assert main + signals == signals;
      assert PlanOf(main, signals)[1..] == signals;
    } else {
      ArrangedIsFarApart(g, main, signals, zone);
      assert signals == [] ==> [main[0]] + signals + main[1..] == main;
    }
  }

  // ---------------------------------------------------------------- the plan of a brief

  function HeadStart(g: Grammar, tokens: seq<Token>): (i: nat)
    ensures i <= |tokens|
  {
    FirstIndex(tokens, StartsHead(g))
  }

  function HeadEnd(g: Grammar, tokens: seq<Token>, zone: set<string>): (i: nat)
    ensures HeadStart(g, tokens) <= i <= |tokens|
  {
    FirstIndexFrom(tokens, EndsHead(g, zone), HeadStart(g, tokens))
  }

  function SubjectsFor(g: Grammar, input: Input): seq<seq<string>> {
    var cut :=
        CutUpTo(SubjectCut(g, input.zone), input.tokens, HeadStart(g, input.tokens),
                HeadEnd(g, input.tokens, input.zone));
    Phrases(cut, MAX_SUBJECT_WORDS, |cut|)
  }

  function CategoryPhrases(g: Grammar, input: Input): seq<seq<string>> {
    seq(|input.categories|, k requires 0 <= k < |input.categories| => ContentWords(g, input.categories[k], input.zone))
  }

  function RestPhrases(g: Grammar, input: Input): seq<seq<string>> {
    CutUpTo(RestCut(g, input.zone), input.tokens, HeadEnd(g, input.tokens, input.zone), |input.tokens|)
  }

  /**
   The user's categories first, then the phrases of the rest of the brief, when they say more than the subjects and
   the zone.
   */
  function TopicsFor(g: Grammar, input: Input): seq<seq<string>> {
    var subjects := SubjectsFor(g, input);
    var phrases := CategoryPhrases(g, input) + RestPhrases(g, input);
    Topics(g, phrases, StemsOfAll(g, subjects, |subjects|) + input.zone, |phrases|)
  }

  function PairsFor(g: Grammar, input: Input): seq<seq<string>> {
    PairsOf(g, input, SubjectsFor(g, input), TopicsFor(g, input))
  }

  function MainFor(g: Grammar, input: Input): seq<Query> {
    var pairs := PairsFor(g, input);
    Picked([], MainCandidates(g, pairs, input), MAX_SEARCH_QUERIES, |pairs|)
  }

  function AnchorFor(g: Grammar, input: Input): seq<string> {
    var subjects, topics := SubjectsFor(g, input), TopicsFor(g, input);
    if subjects != [] then subjects[0] else if topics != [] then topics[0] else []
  }

  function SignalsFor(g: Grammar, input: Input): seq<Query> {
    Picked(MainFor(g, input), SignalCandidates(g, input.signals, AnchorFor(g, input), input.zone), MAX_SIGNAL_QUERIES,
           |input.signals|)
  }

  function PlanFor(g: Grammar, input: Input): seq<Query> {
    PlanOf(MainFor(g, input), SignalsFor(g, input))
  }

  method PlanSearchQueries(g: Grammar, input: Input) returns (plan: seq<Query>)
    ensures plan == PlanFor(g, input)
  {
    var start := SkipOpening(g, input.tokens);
    var i, cut := CutSubjects(g, input.tokens, start, input.zone);
    var subjects := Phrases(cut, MAX_SUBJECT_WORDS, |cut|);
    var rest := CutRest(g, input.tokens, i, input.zone);
    var phrases := CategoryPhrases(g, input) + rest;
    var topics := Topics(g, phrases, StemsOfAll(g, subjects, |subjects|) + input.zone, |phrases|);
    var pairs := Pairs(g, input, subjects, topics);
    var main := MainQueries(g, pairs, input);
    var anchor := if subjects != [] then subjects[0] else if topics != [] then topics[0] else [];
    var signals := SignalQueries(g, input.signals, anchor, input.zone, main);
    plan := PlanOf(main, signals);
  }

  /** No subject and no topic repeats the zone. */
  lemma ConceptsStayOutside(g: Grammar, input: Input)
    requires FaithfulInput(g, input)
    ensures AllOutsideZone(g, SubjectsFor(g, input), input.zone) && AllOutsideZone(g, TopicsFor(g, input), input.zone)
  {
    var start, end := HeadStart(g, input.tokens), HeadEnd(g, input.tokens, input.zone);
    var cut := SubjectCut(g, input.zone);
    CutStaysOutside(g, cut, input.tokens, start, end, input.zone);
    var heads := CutUpTo(cut, input.tokens, start, end);
    PhrasesStayOutside(g, heads, input.zone, MAX_SUBJECT_WORDS, |heads|);
    CutStaysOutside(g, RestCut(g, input.zone), input.tokens, end, |input.tokens|, input.zone);
    var categories := CategoryPhrases(g, input);
    forall k | 0 <= k < |categories|
      ensures OutsideZone(g, categories[k], input.zone)
    {
      WordsStayOutside(g, input.categories[k], (t: Token) => IsContentWord(g, t, input.zone), |input.categories[k]|,
                       input.zone);
    }
    var subjects, phrases := SubjectsFor(g, input), categories + RestPhrases(g, input);
    TopicsStayOutside(g, phrases, StemsOfAll(g, subjects, |subjects|) + input.zone, input.zone, |phrases|);
  }

  lemma CandidatesAreWellFormed(g: Grammar, candidates: seq<Option<Query>>, zone: set<string>, added: seq<Query>)
    requires forall k | 0 <= k < |candidates| && candidates[k].Some? :: WellFormed(g, candidates[k].value, zone)
    requires forall i | 0 <= i < |added| :: Some(added[i]) in candidates
    ensures AllWellFormed(g, added, zone)
  {
    forall i | 0 <= i < |added|
      ensures WellFormed(g, added[i], zone)
    {
      var k :| 0 <= k < |candidates| && candidates[k] == Some(added[i]);
    }
  }

  lemma MainPicksAreWellFormed(g: Grammar, pairs: seq<seq<string>>, input: Input, main: seq<Query>)
    requires pairs != [] && AllOutsideZone(g, pairs, input.zone)
    requires main == Picked([], MainCandidates(g, pairs, input), MAX_SEARCH_QUERIES, |pairs|)
    ensures AllWellFormed(g, main, input.zone) && FarApart(main) && |main| <= MAX_SEARCH_QUERIES
    ensures main == [] ==> input.zoneText == ""
  {
    var candidates := MainCandidates(g, pairs, input);
    PickLaws([], candidates, MAX_SEARCH_QUERIES, |pairs|);
    assert [] + main == main;
    forall k | 0 <= k < |candidates| && candidates[k].Some?
      ensures WellFormed(g, candidates[k].value, input.zone)
    {
      QueriesAreWellFormed(g, pairs[k], input.zone);
    }
    CandidatesAreWellFormed(g, candidates, input.zone, main);
    assert candidates[0] == MainCandidate(g, pairs[0], input);
  }

  lemma MainQueriesAreWellFormed(g: Grammar, input: Input)
    requires FaithfulInput(g, input)
    ensures AllWellFormed(g, MainFor(g, input), input.zone) && FarApart(MainFor(g, input))
        && |MainFor(g, input)| <= MAX_SEARCH_QUERIES
    ensures MainFor(g, input) == [] ==> input.zoneText == ""
  {
    ConceptsStayOutside(g, input);
    var subjects, topics := SubjectsFor(g, input), TopicsFor(g, input);
    PairsOfStayOutside(g, input, subjects, topics);
    MainPicksAreWellFormed(g, PairsFor(g, input), input, MainFor(g, input));
  }

  lemma SignalQueriesAreWellFormed(g: Grammar, input: Input)
    requires FaithfulInput(g, input)
    ensures AllWellFormed(g, SignalsFor(g, input), input.zone)
  {
    ConceptsStayOutside(g, input);
    var anchor := AnchorFor(g, input);
    var candidates, signals := SignalCandidates(g, input.signals, anchor, input.zone), SignalsFor(g, input);
    PickLaws(MainFor(g, input), candidates, MAX_SIGNAL_QUERIES, |input.signals|);
    forall k | 0 <= k < |candidates| && candidates[k].Some?
      ensures WellFormed(g, candidates[k].value, input.zone)
    {
      SignalIsWellFormed(g, input.signals[k], anchor, input.zone);
    }
    CandidatesAreWellFormed(g, candidates, input.zone, signals);
  }

  lemma SignalIsWellFormed(g: Grammar, signal: seq<Token>, anchor: seq<string>, zone: set<string>)
    requires Faithful(g, signal) && OutsideZone(g, anchor, zone)
    ensures SignalCandidate(g, signal, anchor, zone).Some? ==>
        WellFormed(g, SignalCandidate(g, signal, anchor, zone).value, zone)
  {
    WordsStayOutside(g, signal, (t: Token) => IsContentWord(g, t, zone) && g.isMeaningful(t.text), |signal|, zone);
    QueriesAreWellFormed(g, anchor + SignalWords(g, signal, zone), zone);
  }

  /**
   One to three queries, the main one first, concept words with distinct stems outside the zone, any two queries
   with a Jaccard similarity below three quarters. The zone-only query, which alone may be near another, is used
   exactly when no main query was found, and then the zone is empty too.
   */
  lemma PlansAreWellFormed(g: Grammar, input: Input)
    requires FaithfulInput(g, input)
    ensures var plan, main := PlanFor(g, input), MainFor(g, input);
            && 1 <= |plan| <= MAX_SEARCH_QUERIES
            && (main != [] ==> plan[0] == main[0] && FarApart(plan) && AllWellFormed(g, plan, input.zone))
            && (main == [] ==> && plan[0] == ZONE_ONLY && input.zoneText == ""
                               && FarApart(plan[1..]) && AllWellFormed(g, plan[1..], input.zone))
  {
    var main, signals := MainFor(g, input), SignalsFor(g, input);
    MainQueriesAreWellFormed(g, input);
    SignalQueriesAreWellFormed(g, input);
    PickLaws(main, SignalCandidates(g, input.signals, AnchorFor(g, input), input.zone), MAX_SIGNAL_QUERIES,
             |input.signals|);
    PlanLaws(g, main, signals, input.zone);
  }

  /**
   A subject x topic pair with something to search for is left out of the main plan only if it is near a kept query
   or three are kept.
   */
  lemma PairsAreRepresented(g: Grammar, input: Input)
    ensures forall words | words in PairsFor(g, input) && MainCandidate(g, words, input).Some? ::
              |MainFor(g, input)| == MAX_SEARCH_QUERIES
                  || NearOneOf(MainFor(g, input), MainCandidate(g, words, input).value.key)
  {
    var pairs, main := PairsFor(g, input), MainFor(g, input);
    var candidates := MainCandidates(g, pairs, input);
    PickLaws([], candidates, MAX_SEARCH_QUERIES, |pairs|);
    assert [] + main == main;
    forall words | words in pairs && MainCandidate(g, words, input).Some?
      ensures |main| == MAX_SEARCH_QUERIES || NearOneOf(main, MainCandidate(g, words, input).value.key)
    {
      var k :| 0 <= k < |pairs| && pairs[k] == words;
      assert candidates[k] == MainCandidate(g, words, input);
    }
  }

  // ---------------------------------------------------------------- which queries come from signals

  function WithoutSignals(input: Input): Input {
    input.(signals := [])
  }

  /** The queries of the first `n` that are not in `base`, in order. */
  function Beyond(plan: seq<Query>, base: seq<Query>, n: nat): seq<Query>
    requires n <= |plan|
  {
    if n == 0 then [] else Beyond(plan, base, n - 1) + if plan[n - 1] in base then [] else [plan[n - 1]]
  }

  lemma SameMain(g: Grammar, input: Input)
    ensures MainFor(g, WithoutSignals(input)) == MainFor(g, input)
  {
    var base := WithoutSignals(input);
    assert CategoryPhrases(g, base) == CategoryPhrases(g, input);
    var subjects, topics := SubjectsFor(g, input), TopicsFor(g, input);
    assert SubjectsFor(g, base) == subjects && TopicsFor(g, base) == topics;
    var pairs := PairsOf(g, input, subjects, topics);
    assert MainCandidates(g, pairs, base) == MainCandidates(g, pairs, input);
  }

  /** Without signals the plan is the main plan, or the zone-only fallback, whatever the signals were. */
  lemma BasePlan(g: Grammar, input: Input)
    requires |MainFor(g, input)| <= MAX_SEARCH_QUERIES
    ensures PlanFor(g, WithoutSignals(input)) == if MainFor(g, input) == [] then [ZONE_ONLY] else MainFor(g, input)
  {
    SameMain(g, input);
    assert SignalsFor(g, WithoutSignals(input)) == [];
    if MainFor(g, input) == [] {
      PlanOfMain([ZONE_ONLY]);
    } else {
      PlanOfMain(MainFor(g, input));
    }
  }

  lemma PlanOfMain(main: seq<Query>)
    requires main != [] && |main| <= MAX_SEARCH_QUERIES
    ensures PlanOf(main, []) == main
  {
    assert [main[0]] + [] + main[1..] == main;
  }

  /**
   `signalQueriesOf`: comparing the plan with the plan of the same brief without signals gives back the signal
   queries, all of them unless the brief has no main query and a signal query is the zone-only fallback again.
   So a pass is announced as a signal pass only when a signal asked for it.
   */
  lemma SignalQueriesAreRecognized(g: Grammar, input: Input)
    requires FaithfulInput(g, input)
    ensures var plan, base, signals := PlanFor(g, input), PlanFor(g, WithoutSignals(input)), SignalsFor(g, input);
            && Beyond(plan, base, |plan|) == Beyond(signals, base, |signals|)
            && (Beyond(plan, base, |plan|) == signals <==> MainFor(g, input) != [] || ZONE_ONLY !in signals)
  {
    var main, signals := MainFor(g, input), SignalsFor(g, input);
    MainQueriesAreWellFormed(g, input);
    PickLaws(main, SignalCandidates(g, input.signals, AnchorFor(g, input), input.zone), MAX_SIGNAL_QUERIES,
             |input.signals|);
    SignalsAreNotMain(main, signals);
    var base := if main == [] then [ZONE_ONLY] else main;
    BasePlan(g, input);
    BeyondBase(base, signals, |Arranged(base, signals)|);
    BeyondAllIff(signals, base, |signals|);
  }

  lemma SignalsAreNotMain(main: seq<Query>, signals: seq<Query>)
    requires FarApart(main + signals)
    ensures forall i | 0 <= i < |signals| :: signals[i] !in main
  {
    forall i, j | 0 <= i < |signals| && 0 <= j < |main|
      ensures signals[i] != main[j]
    {
      assert (main + signals)[j] == main[j] && (main + signals)[|main| + i] == signals[i];
      NearLaws(main[j].key, main[j].key);
    }
  }

  lemma ArrangedAt(main: seq<Query>, signals: seq<Query>, i: nat)
    requires main != [] && i < |Arranged(main, signals)|
    ensures if 0 < i <= |signals| then Arranged(main, signals)[i] == signals[i - 1]
        else Arranged(main, signals)[i] in main
  {
    if i > |signals| {
      assert Arranged(main, signals)[i] == main[i - |signals|];
    }
  }

  /** The plan beyond its base is the signals beyond it. */
  lemma {:induction false} BeyondBase(base: seq<Query>, signals: seq<Query>, n: nat)
    requires base != [] && |signals| <= MAX_SIGNAL_QUERIES && n <= |Arranged(base, signals)|
    ensures Beyond(Arranged(base, signals), base, n)
        == Beyond(signals, base, if n == 0 then 0 else Min(n - 1, |signals|))
    decreases n
  {
    if n > 0 {
      BeyondBase(base, signals, n - 1);
      ArrangedAt(base, signals, n - 1);
    }
  }

  lemma {:induction false} BeyondIsShorter(plan: seq<Query>, base: seq<Query>, n: nat)
    requires n <= |plan|
    ensures |Beyond(plan, base, n)| <= n
    ensures |Beyond(plan, base, n)| == n <==> forall i | 0 <= i < n :: plan[i] !in base
    ensures |Beyond(plan, base, n)| == n ==> Beyond(plan, base, n) == plan[..n]
    decreases n
  {
    if n > 0 {
      BeyondIsShorter(plan, base, n - 1);
    }
  }

  lemma BeyondAllIff(signals: seq<Query>, base: seq<Query>, n: nat)
    requires n == |signals|
    ensures Beyond(signals, base, n) == signals <==> forall q | q in signals :: q !in base
  {
    BeyondIsShorter(signals, base, n);
    assert signals[..n] == signals;
  }
}
