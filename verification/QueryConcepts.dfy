// What the queries of query-plan.ts keep of a brief: every query holds each concept of a subject and of a topic, in
// their order, and every subject, topic and signal is covered as long as there is room.
module QueryConcepts {
  import opened Text
  import opened Counting
  import opened QueryPlan

  // ---------------------------------------------------------------- the words of a query

  /** The stems of the words that have one. */
  ghost function Concepts(g: Grammar, words: seq<string>): set<string> {
    set i | 0 <= i < |words| && g.stem(words[i]) != "" :: g.stem(words[i])
  }

  function HasStem(g: Grammar, stem: string): string -> bool {
    (word: string) => g.stem(word) == stem
  }

  /** The first word with this stem, or the number of words when there is none. */
  function FirstWith(g: Grammar, words: seq<string>, stem: string): nat {
    FirstIndex(words, HasStem(g, stem))
  }

  /** The kept words are the first one of each concept, in the order of the words. */
  ghost predicate FirstOfEach(g: Grammar, kept: seq<string>, words: seq<string>) {
    && StemsOf(g, kept) == Concepts(g, words)
    && FirstsInOrder(g, kept, words, |words|)
  }

  lemma UniqueStemsThen(g: Grammar, words: seq<string>, kept: seq<string>, word: string)
    requires StemsOf(g, kept) == Concepts(g, words)
    ensures StemsOf(g, KeepNext(g, kept, word)) == Concepts(g, words + [word])
  {
    ConceptsThen(g, words, word);
    StemsThen(g, kept, word);
  }

  lemma ConceptsThen(g: Grammar, words: seq<string>, word: string)
    ensures Concepts(g, words + [word]) == Concepts(g, words) + if g.stem(word) == "" then {} else {g.stem(word)}
  {
    var more := words + [word];
    assert more[|words|] == word && forall i | 0 <= i < |words| :: more[i] == words[i];
  }

  lemma StemsThen(g: Grammar, words: seq<string>, word: string)
    ensures StemsOf(g, words + [word]) == StemsOf(g, words) + {g.stem(word)}
  {
    var more := words + [word];
    assert more[|words|] == word && forall i | 0 <= i < |words| :: more[i] == words[i];
  }

  /** Each kept word is the first one with its stem, among the first `n`; they come in the order of the words. */
  ghost predicate FirstsInOrder(g: Grammar, kept: seq<string>, words: seq<string>, n: nat) {
    forall a, b | 0 <= a <= b < |kept| :: IsFirstBefore(g, kept[a], kept[b], a < b, words, n)
  }

  /** The word is the first one with its stem, among the first `n`, and when asked so before the other one. */
  ghost predicate IsFirstBefore(g: Grammar, word: string, other: string, before: bool, words: seq<string>, n: nat) {
    var at := FirstWith(g, words, g.stem(word));
    at < n && at < |words| && words[at] == word && (before ==> at < FirstWith(g, words, g.stem(other)))
  }

  /** A word whose stem no earlier word has is the first one with it. */
  lemma NewStemIsFirst(g: Grammar, words: seq<string>, n: nat)
    requires n < |words| && g.stem(words[n]) != "" && g.stem(words[n]) !in Concepts(g, words[..n])
    ensures FirstWith(g, words, g.stem(words[n])) == n
  {
    forall k | 0 <= k < n
      ensures !HasStem(g, g.stem(words[n]))(words[k])
    {
      assert words[..n][k] == words[k];
    }
    FirstIndexIs(words, HasStem(g, g.stem(words[n])), n);
  }

  lemma FirstsThen(g: Grammar, kept: seq<string>, words: seq<string>, n: nat)
    requires n < |words| && FirstsInOrder(g, kept, words, n)
    ensures FirstsInOrder(g, kept, words, n + 1)
    ensures FirstWith(g, words, g.stem(words[n])) == n ==> FirstsInOrder(g, kept + [words[n]], words, n + 1)
  {
    var more := kept + [words[n]];
    forall a, b | 0 <= a <= b < |kept|
      ensures IsFirstBefore(g, kept[a], kept[b], a < b, words, n + 1)
    {
      assert IsFirstBefore(g, kept[a], kept[b], a < b, words, n);
    }
    if FirstWith(g, words, g.stem(words[n])) == n {
      forall a, b | 0 <= a <= b < |more|
        ensures IsFirstBefore(g, more[a], more[b], a < b, words, n + 1)
      {
        assert a < |kept| ==> IsFirstBefore(g, kept[a], kept[a], false, words, n);
        assert b < |kept| ==> IsFirstBefore(g, kept[a], kept[b], a < b, words, n);
      }
    }
  }

  lemma FirstsNext(g: Grammar, kept: seq<string>, words: seq<string>, n: nat)
    requires n < |words| && FirstsInOrder(g, kept, words, n) && StemsOf(g, kept) == Concepts(g, words[..n])
    ensures FirstsInOrder(g, KeepNext(g, kept, words[n]), words, n + 1)
  {
    FirstsThen(g, kept, words, n);
    if g.stem(words[n]) != "" && g.stem(words[n]) !in StemsOf(g, kept) {
      NewStemIsFirst(g, words, n);
    }
  }

  /** What holds of no words, and is kept by every word, holds of the words kept. */
  lemma {:induction false} UniqueKeepsInvariant(g: Grammar, words: seq<string>, n: nat, inv: (seq<string>, nat) -> bool)
    requires n <= |words| && inv([], 0)
    requires forall kept, k: nat {:trigger KeepNext(g, kept, words[k])} |
               k < |words| && inv(kept, k) :: inv(KeepNext(g, kept, words[k]), k + 1)
    ensures inv(Unique(g, words, n), n)
    decreases n
  {
    if n > 0 {
      UniqueKeepsInvariant(g, words, n - 1, inv);
    }
  }

  ghost predicate RightlyKept(g: Grammar, words: seq<string>, kept: seq<string>, n: nat) {
    n <= |words| && FirstsInOrder(g, kept, words, n) && StemsOf(g, kept) == Concepts(g, words[..n])
  }

  lemma RightlyKeptNext(g: Grammar, words: seq<string>, kept: seq<string>, n: nat)
    requires n < |words| && RightlyKept(g, words, kept, n)
    ensures RightlyKept(g, words, KeepNext(g, kept, words[n]), n + 1)
  {
    FirstsNext(g, kept, words, n);
    UniqueStemsThen(g, words[..n], kept, words[n]);
    assert words[..n + 1] == words[..n] + [words[n]];
  }

  lemma UniqueIsRightlyKept(g: Grammar, words: seq<string>, n: nat)
    requires n <= |words|
    ensures RightlyKept(g, words, Unique(g, words, n), n)
  {
    var inv := (kept: seq<string>, k: nat) => RightlyKept(g, words, kept, k);
    forall kept, k: nat | k < |words| && inv(kept, k)
      ensures inv(KeepNext(g, kept, words[k]), k + 1)
    {
      RightlyKeptNext(g, words, kept, k);
    }
    assert inv([], 0);
    UniqueKeepsInvariant(g, words, n, inv);
    assert inv(Unique(g, words, n), n);
  }

  /** A query keeps the first word of each concept, in order, and searches for those concepts and the zone. */
  lemma QueriesKeepTheirConcepts(g: Grammar, words: seq<string>, zone: set<string>)
    ensures var q := QueryOf(g, words, zone);
            FirstOfEach(g, q.words, words) && q.key == Concepts(g, words) + zone
  {
    UniqueIsRightlyKept(g, words, |words|);
    assert words[..|words|] == words;
  }

  /** Two queries are near when the stems they share are three quarters of all their stems, or they have none. */
  lemma NearIsJaccard(a: set<string>, b: set<string>)
    ensures Near(a, b) <==> a + b == {} || |a * b| as real / |a + b| as real >= 0.75
  {
    var common, all := |a * b|, |a + b|;
    assert all == |a| + |b| - common;
    if all > 0 {
      assert common as real / all as real >= 0.75 <==> common as real >= 0.75 * all as real;
    }
  }

  // ---------------------------------------------------------------- phrases

  /** The first words of a phrase, at most `limit`. */
  predicate FirstWords(part: seq<string>, phrase: seq<string>, limit: nat) {
    part <= phrase && |part| == Min(|phrase|, limit)
  }

  function Says(phrase: seq<string>): bool {
    phrase != []
  }

  /** The phrase has a word that is not known yet. */
  ghost function SaysMore(g: Grammar, known: set<string>): seq<string> -> bool {
    (phrase: seq<string>) => exists i | 0 <= i < |phrase| :: g.stem(phrase[i]) !in known
  }

  /** Each phrase with words gives one subject, at its place: its first words. */
  lemma {:induction false} PhrasesAreExact(phrases: seq<seq<string>>, limit: nat, n: nat)
    requires n <= |phrases|
    ensures var all := Phrases(phrases, limit, n);
            && |all| == Count(phrases, Says, n)
            && forall i | 0 <= i < n && phrases[i] != [] ::
                 Count(phrases, Says, i) < |all| && FirstWords(all[Count(phrases, Says, i)], phrases[i], limit)
    decreases n
  {
    if n > 0 {
      PhrasesAreExact(phrases, limit, n - 1);
    }
  }

  /** Each phrase that says more than what is known gives one topic, at its place: its first words. */
  lemma {:induction false} TopicsAreExact(g: Grammar, phrases: seq<seq<string>>, known: set<string>, n: nat)
    requires n <= |phrases|
    ensures AreTopics(phrases, SaysMore(g, known), n, Topics(g, phrases, known, n))
    decreases n
  {
    if n > 0 {
      TopicsAreExact(g, phrases, known, n - 1);
      SaysMoreIff(g, phrases[n - 1], known);
      OneMoreTopic(phrases, SaysMore(g, known), n - 1, Topics(g, phrases, known, n - 1));
    }
  }

  ghost predicate AreTopics(phrases: seq<seq<string>>, says: seq<string> -> bool, n: nat, all: seq<seq<string>>)
    requires n <= |phrases|
  {
    && |all| == Count(phrases, says, n)
    && forall i | 0 <= i < n && says(phrases[i]) ::
         Count(phrases, says, i) < |all| && FirstWords(all[Count(phrases, says, i)], phrases[i], MAX_TOPIC_WORDS)
  }

  lemma OneMoreTopic(phrases: seq<seq<string>>, says: seq<string> -> bool, n: nat, all: seq<seq<string>>)
    requires n < |phrases| && AreTopics(phrases, says, n, all)
    ensures AreTopics(phrases, says, n + 1,
                      all + if says(phrases[n]) then [Take(phrases[n], MAX_TOPIC_WORDS)] else [])
  {
  }

  lemma SaysMoreIff(g: Grammar, phrase: seq<string>, known: set<string>)
    ensures SaysMore(g, known)(phrase) <==> phrase != [] && !Redundant(g, phrase, known)
  {
  }

  /** Each word that counts is there, at its place. */
  lemma {:induction false} WordsAreExact(tokens: seq<Token>, p: Token -> bool, n: nat)
    requires n <= |tokens|
    ensures var words, counts := WordsOf(tokens, p, n), (t: Token) => t.Word? && p(t);
            && |words| == Count(tokens, counts, n)
            && forall i | 0 <= i < n && tokens[i].Word? && p(tokens[i]) ::
                 Count(tokens, counts, i) < |words| && words[Count(tokens, counts, i)] == tokens[i].text
    decreases n
  {
    if n > 0 {
      WordsAreExact(tokens, p, n - 1);
    }
  }

  /** A word of the text that is neither empty, nor a function word, nor an instruction, nor part of the zone. */
  ghost predicate IsConceptOf(g: Grammar, tokens: seq<Token>, zone: set<string>, word: string) {
    exists i | 0 <= i < |tokens| && tokens[i].Word? && tokens[i].text == word ::
      && tokens[i].key != "" && !g.isFunctionWord(tokens[i].key) && !g.isInstruction(tokens[i].key)
      && g.stem(tokens[i].key) !in zone
  }

  lemma {:induction false} InWordsOf(tokens: seq<Token>, p: Token -> bool, n: nat, word: string)
    requires n <= |tokens|
    ensures word in WordsOf(tokens, p, n)
       <==> exists i | 0 <= i < n :: tokens[i].Word? && p(tokens[i]) && tokens[i].text == word
    decreases n
  {
    if n > 0 {
      InWordsOf(tokens, p, n - 1, word);
    }
  }

  /** The content words of a text are its words of that kind. */
  lemma ContentWordsAreConcepts(g: Grammar, tokens: seq<Token>, zone: set<string>, word: string)
    ensures word in ContentWords(g, tokens, zone) <==> IsConceptOf(g, tokens, zone, word)
  {
    InWordsOf(tokens, (t: Token) => IsContentWord(g, t, zone), |tokens|, word);
  }

  /** What the subjects and the zone already say. */
  ghost predicate IsSaid(g: Grammar, input: Input, stem: string) {
    || stem in input.zone
    || exists s, w | s in SubjectsFor(g, input) && w in s :: g.stem(w) == stem
  }

  lemma {:induction false} StemsOfAllIff(g: Grammar, phrases: seq<seq<string>>, n: nat, stem: string)
    requires n <= |phrases|
    ensures stem in StemsOfAll(g, phrases, n) <==> exists i | 0 <= i < n :: stem in StemsOf(g, phrases[i])
    decreases n
  {
    if n > 0 {
      StemsOfAllIff(g, phrases, n - 1, stem);
    }
  }

  lemma SaidIff(g: Grammar, input: Input, stem: string)
    ensures IsSaid(g, input, stem)
       <==> stem in StemsOfAll(g, SubjectsFor(g, input), |SubjectsFor(g, input)|) + input.zone
  {
    var subjects := SubjectsFor(g, input);
    StemsOfAllIff(g, subjects, |subjects|, stem);
    if s, w :| s in subjects && w in s && g.stem(w) == stem {
      var i :| 0 <= i < |subjects| && subjects[i] == s;
      var k :| 0 <= k < |s| && s[k] == w;
      assert stem in StemsOf(g, subjects[i]);
    }
    if i :| 0 <= i < |subjects| && stem in StemsOf(g, subjects[i]) {
      var k :| 0 <= k < |subjects[i]| && g.stem(subjects[i][k]) == stem;
      assert subjects[i] in subjects && subjects[i][k] in subjects[i];
    }
  }

  /**
   Every category the user chose is a topic, by its first words, when one of its concepts is said neither by the
   subjects nor by the zone.
   */
  lemma EveryCategoryIsATopic(g: Grammar, input: Input, k: nat, word: string)
    requires k < |input.categories| && IsConceptOf(g, input.categories[k], input.zone, word)
    requires !IsSaid(g, input, g.stem(word))
    ensures exists topic | topic in TopicsFor(g, input) ::
              FirstWords(topic, ContentWords(g, input.categories[k], input.zone), MAX_TOPIC_WORDS)
  {
    var categories := CategoryPhrases(g, input);
    ContentWordsAreConcepts(g, input.categories[k], input.zone, word);
    SaidIff(g, input, g.stem(word));
    TellingPhraseGivesTopic(g, input, categories, RestPhrases(g, input), k, categories[k], word);
  }

  /** So does every phrase of the rest of the brief. */
  lemma EveryRestPhraseIsATopic(g: Grammar, input: Input, k: nat, word: string)
    requires k < |RestPhrases(g, input)| && word in RestPhrases(g, input)[k] && !IsSaid(g, input, g.stem(word))
    ensures exists topic | topic in TopicsFor(g, input) ::
              FirstWords(topic, RestPhrases(g, input)[k], MAX_TOPIC_WORDS)
  {
    var rest := RestPhrases(g, input);
    SaidIff(g, input, g.stem(word));
    TellingPhraseGivesTopic(g, input, CategoryPhrases(g, input), rest, |CategoryPhrases(g, input)| + k, rest[k], word);
  }

  lemma TellingPhraseGivesTopic(g: Grammar, input: Input, categories: seq<seq<string>>, rest: seq<seq<string>>, k: nat,
                                phrase: seq<string>, word: string)
    requires categories == CategoryPhrases(g, input) && rest == RestPhrases(g, input)
    requires k < |categories + rest| && (categories + rest)[k] == phrase && word in phrase
    requires g.stem(word) !in StemsOfAll(g, SubjectsFor(g, input), |SubjectsFor(g, input)|) + input.zone
    ensures exists topic | topic in TopicsFor(g, input) :: FirstWords(topic, phrase, MAX_TOPIC_WORDS)
  {
    var known := StemsOfAll(g, SubjectsFor(g, input), |SubjectsFor(g, input)|) + input.zone;
    var i :| 0 <= i < |phrase| && phrase[i] == word;
    assert SaysMore(g, known)(phrase);
    PhraseGivesTopic(g, categories + rest, known, k);
  }

  lemma PhraseGivesTopic(g: Grammar, phrases: seq<seq<string>>, known: set<string>, k: nat)
    requires k < |phrases| && SaysMore(g, known)(phrases[k])
    ensures exists topic | topic in Topics(g, phrases, known, |phrases|) ::
              FirstWords(topic, phrases[k], MAX_TOPIC_WORDS)
  {
    TopicsAreExact(g, phrases, known, |phrases|);
    var all, at := Topics(g, phrases, known, |phrases|), Count(phrases, SaysMore(g, known), k);
    assert all[at] in all && FirstWords(all[at], phrases[k], MAX_TOPIC_WORDS);
  }

  // ---------------------------------------------------------------- the main queries

  /** The k-th phrase of a list read in a circle; no words when the list is empty. */
  function Circle(phrases: seq<seq<string>>, k: nat): seq<string> {
    if |phrases| == 0 then [] else phrases[k % |phrases|]
  }

  /** A subject and a topic, side by side. */
  ghost function Both(g: Grammar, input: Input, k: nat): seq<string> {
    Circle(SubjectsFor(g, input), k) + Circle(TopicsFor(g, input), k)
  }

  /** How many subject and topic pairs are tried. */
  ghost function PairCount(g: Grammar, input: Input): nat {
    Min(5, Max(|SubjectsFor(g, input)|, |TopicsFor(g, input)|))
  }

  /** The words a pair of the brief gives: a subject then a topic, or the first seven content words when it has none. */
  ghost predicate IsPairOf(g: Grammar, input: Input, words: seq<string>) {
    if SubjectsFor(g, input) == [] && TopicsFor(g, input) == []
    then FirstWords(words, ContentWords(g, input.tokens, input.zone), 7)
    else exists k: nat | k < PairCount(g, input) :: words == Both(g, input, k)
  }

  lemma PairsArePairs(g: Grammar, input: Input, words: seq<string>)
    ensures words in PairsFor(g, input) <==> IsPairOf(g, input, words)
  {
    var subjects, topics, pairs := SubjectsFor(g, input), TopicsFor(g, input), PairsFor(g, input);
    if subjects == [] && topics == [] {
      FirstWordsAreOne(words, pairs[0], ContentWords(g, input.tokens, input.zone), 7);
    } else {
      assert forall k: nat | k < |pairs| :: pairs[k] == Both(g, input, k);
      if k: nat :| k < PairCount(g, input) && words == Both(g, input, k) {
        assert pairs[k] == words;
      }
    }
  }

  lemma FirstWordsAreOne(a: seq<string>, b: seq<string>, phrase: seq<string>, limit: nat)
    requires FirstWords(b, phrase, limit)
    ensures FirstWords(a, phrase, limit) <==> a == b
  {
  }

  /**
   Every main query comes from one subject and one topic of the brief: it keeps the first word of each of their
   concepts, the subject's before the topic's, and searches for all of them with the zone.
   */
  lemma MainQueriesKeepTheirConcepts(g: Grammar, input: Input, q: Query)
    requires q in MainFor(g, input)
    ensures exists words | IsPairOf(g, input, words) ::
              FirstOfEach(g, q.words, words) && q.key == Concepts(g, words) + input.zone
  {
    var pairs := PairsFor(g, input);
    var candidates := MainCandidates(g, pairs, input);
    PickLaws([], candidates, MAX_SEARCH_QUERIES, |pairs|);
    var k :| 0 <= k < |candidates| && candidates[k] == Some(q);
    QueriesKeepTheirConcepts(g, pairs[k], input.zone);
    assert pairs[k] in pairs;
    PairsArePairs(g, input, pairs[k]);
  }

  /**
   No pair of the brief is forgotten: unless it has no concept and there is no zone, three main queries are planned or
   one is near its concepts.
   */
  lemma EveryPairIsCovered(g: Grammar, input: Input, words: seq<string>)
    requires IsPairOf(g, input, words) && (Concepts(g, words) != {} || input.zoneText != "")
    ensures || |MainFor(g, input)| == 3
            || exists q | q in MainFor(g, input) :: Near(q.key, Concepts(g, words) + input.zone)
  {
    PairsArePairs(g, input, words);
    QueriesKeepTheirConcepts(g, words, input.zone);
    var q := QueryOf(g, words, input.zone);
    if q.words == [] {
      assert StemsOf(g, q.words) == {};
    }
    PairsAreRepresented(g, input);
    if |MainFor(g, input)| != MAX_SEARCH_QUERIES {
      NearIsThere(MainFor(g, input), q.key);
    }
  }

  lemma NearIsThere(queries: seq<Query>, key: set<string>)
    requires NearOneOf(queries, key)
    ensures exists q | q in queries :: Near(q.key, key)
  {
    var i :| 0 <= i < |queries| && Near(queries[i].key, key);
    assert queries[i] in queries;
  }

  // ---------------------------------------------------------------- the signal queries

  /** What a signal is searched with: the first subject, else the first topic, then its own meaningful words. */
  ghost predicate IsSignalOf(g: Grammar, input: Input, words: seq<string>) {
    var subjects, topics := SubjectsFor(g, input), TopicsFor(g, input);
    exists s: nat | s < |input.signals| ::
      && SignalWords(g, input.signals[s], input.zone) != []
      && words == (if subjects != [] then subjects[0] else Circle(topics, 0))
                  + SignalWords(g, input.signals[s], input.zone)
  }

  lemma SignalsAreSignals(g: Grammar, input: Input, q: Option<Query>)
    ensures q.Some? && q in SignalCandidates(g, input.signals, AnchorFor(g, input), input.zone)
       <==> exists words | IsSignalOf(g, input, words) :: q == Some(QueryOf(g, words, input.zone))
  {
    var anchor := AnchorFor(g, input);
    var candidates := SignalCandidates(g, input.signals, anchor, input.zone);
    if q.Some? && q in candidates {
      var s :| 0 <= s < |candidates| && candidates[s] == q;
      assert IsSignalOf(g, input, anchor + SignalWords(g, input.signals[s], input.zone));
    }
    if words :| IsSignalOf(g, input, words) && q == Some(QueryOf(g, words, input.zone)) {
      var s: nat :| s < |input.signals| && SignalWords(g, input.signals[s], input.zone) != []
                    && words == anchor + SignalWords(g, input.signals[s], input.zone);
      assert candidates[s] == q;
    }
  }

  /** Every signal query keeps the first word of each concept of what is looked for and of one signal. */
  lemma SignalQueriesKeepTheirConcepts(g: Grammar, input: Input, q: Query)
    requires q in SignalsFor(g, input)
    ensures exists words | IsSignalOf(g, input, words) ::
              FirstOfEach(g, q.words, words) && q.key == Concepts(g, words) + input.zone
  {
    PickLaws(MainFor(g, input), SignalCandidates(g, input.signals, AnchorFor(g, input), input.zone),
             MAX_SIGNAL_QUERIES, |input.signals|);
    SignalsAreSignals(g, input, Some(q));
    var words :| IsSignalOf(g, input, words) && Some(q) == Some(QueryOf(g, words, input.zone));
    QueriesKeepTheirConcepts(g, words, input.zone);
  }

  /** No signal is forgotten: two signal queries are planned, or a query of the plan is near its concepts. */
  lemma EverySignalIsCovered(g: Grammar, input: Input, words: seq<string>)
    requires IsSignalOf(g, input, words)
    ensures || |SignalsFor(g, input)| == 2
            || exists q | q in MainFor(g, input) + SignalsFor(g, input) ::
                 Near(q.key, Concepts(g, words) + input.zone)
  {
    var q, main, signals := QueryOf(g, words, input.zone), MainFor(g, input), SignalsFor(g, input);
    var candidates := SignalCandidates(g, input.signals, AnchorFor(g, input), input.zone);
    SignalsAreSignals(g, input, Some(q));
    PickLaws(main, candidates, MAX_SIGNAL_QUERIES, |input.signals|);
    var k :| 0 <= k < |candidates| && candidates[k] == Some(q);
    QueriesKeepTheirConcepts(g, words, input.zone);
    if |signals| != MAX_SIGNAL_QUERIES {
      NearIsThere(main + signals, q.key);
    }
  }

  // ---------------------------------------------------------------- the order of the plan

  lemma QueriesInOrder(main: seq<Query>, signals: seq<Query>)
    requires main != []
    ensures var plan := PlanOf(main, signals);
            && |plan| == Min(3, |main| + |signals|)
            && forall i | 0 <= i < |plan| ::
                 plan[i] == if i == 0 then main[0] else if i <= |signals| then signals[i - 1] else main[i - |signals|]
  {
    var all := [main[0]] + signals + main[1..];
    assert |all| == |main| + |signals|;
    forall i | 0 <= i < |all|
      ensures all[i] == if i == 0 then main[0] else if i <= |signals| then signals[i - 1] else main[i - |signals|]
    {
    }
  }

  /** The main query, the signal queries, then the rest of the main plan, cut to three. */
  lemma PlanInOrder(g: Grammar, input: Input)
    requires MainFor(g, input) != []
    ensures var plan, main, signals := PlanFor(g, input), MainFor(g, input), SignalsFor(g, input);
            && |plan| == Min(3, |main| + |signals|)
            && forall i | 0 <= i < |plan| ::
                 plan[i] == if i == 0 then main[0] else if i <= |signals| then signals[i - 1] else main[i - |signals|]
  {
    QueriesInOrder(MainFor(g, input), SignalsFor(g, input));
  }
}
