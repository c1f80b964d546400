// How the duplicates of a run depend on the order of its results (novelty-engine.ts): for two results, and over whole
// runs, where a result that repeats an earlier one is forgotten and can hide a later one.
module RunOrder {
  import opened Text
  import opened NoveltyEngine

  // ---------------------------------------------------------------- two results

  lemma SecondRepeatsFirst(lex: Lexicon, first: Item, second: Item)
    ensures !Repeats(lex, [first, second], 0)
    ensures Repeats(lex, [first, second], 1) <==> SameActor(lex, second.id, first.id).Some?
  {
    var items := [first, second];
    RepeatsEarlier(lex, items, 0);
    RepeatsEarlier(lex, items, 1);
    assert items[0] == first && items[1] == second;
  }

  /**
   Which of two results comes first matters exactly when one spelling of the name decides and the two pages differ:
   the same page makes the later result a duplicate in either order.
   */
  lemma OrderOfTwoMattersIff(lex: Lexicon, a: Item, b: Item)
    ensures Repeats(lex, [a, b], 1) != Repeats(lex, [b, a], 1)
       <==> OneSpellingDecides(lex, a.id, b.id) && !SameText(a.id.url, b.id.url)
  {
    SecondRepeatsFirst(lex, a, b);
    SecondRepeatsFirst(lex, b, a);
    SameActorOrderMattersIff(lex, a.id, b.id);
  }

  // ---------------------------------------------------------------- whole runs

  predicate Same(lex: Lexicon, items: seq<Item>, j: nat, i: nat)
    requires i < |items| && j < |items|
  {
    SameActor(lex, items[j].id, items[i].id).Some?
  }

  /** Some earlier result of the run is the same actor. */
  ghost predicate ComesBack(lex: Lexicon, items: seq<Item>, j: nat)
    requires j < |items|
  {
    exists i | 0 <= i < j :: Same(lex, items, j, i)
  }

  lemma RepeatsByResults(lex: Lexicon, items: seq<Item>, j: nat)
    requires j < |items|
    ensures Repeats(lex, items, j) <==> exists i | 0 <= i < j :: Same(lex, items, j, i) && !Repeats(lex, items, i)
  {
    RepeatsEarlier(lex, items, j);
    if i :| 0 <= i < j && !Repeats(lex, items, i) && SameActor(lex, items[j].id, items[i].id).Some? {
      assert Same(lex, items, j, i);
    }
  }

  /**
   An actor that comes back is missed exactly when every earlier result that is the same actor is a duplicate itself:
   duplicates do not join the actors of the run.
   */
  lemma MissedIff(lex: Lexicon, items: seq<Item>, j: nat)
    requires j < |items|
    ensures Repeats(lex, items, j) ==> ComesBack(lex, items, j)
    ensures (Repeats(lex, items, j) <==> ComesBack(lex, items, j))
       <==> !(ComesBack(lex, items, j) && forall i | 0 <= i < j && Same(lex, items, j, i) :: Repeats(lex, items, i))
  {
    RepeatsByResults(lex, items, j);
  }

  /** The result is the same actor as an earlier one that is the first of its own actor. */
  ghost predicate ComesBackToAFirst(lex: Lexicon, items: seq<Item>, j: nat)
    requires j < |items|
  {
    exists h | 0 <= h < j :: Same(lex, items, j, h) && !ComesBack(lex, items, h)
  }

  /**
   In a run, the duplicates are exactly the actors that come back when, and only when, each of them is the same actor
   as some earlier result that no result before it is the same actor as.
   */
  lemma NothingIsMissedIff(lex: Lexicon, items: seq<Item>)
    ensures (forall j | 0 <= j < |items| :: Repeats(lex, items, j) <==> ComesBack(lex, items, j))
       <==> (forall j | 0 <= j < |items| && ComesBack(lex, items, j) :: ComesBackToAFirst(lex, items, j))
  {
    if forall j | 0 <= j < |items| :: Repeats(lex, items, j) <==> ComesBack(lex, items, j) {
      forall j | 0 <= j < |items| && ComesBack(lex, items, j)
        ensures ComesBackToAFirst(lex, items, j)
      {
        RepeatsByResults(lex, items, j);
        var h :| 0 <= h < j && Same(lex, items, j, h) && !Repeats(lex, items, h);
        assert !ComesBack(lex, items, h);
      }
    }
    if forall j | 0 <= j < |items| && ComesBack(lex, items, j) :: ComesBackToAFirst(lex, items, j) {
      forall j | 0 <= j < |items|
        ensures Repeats(lex, items, j) <==> ComesBack(lex, items, j)
      {
        MissedIff(lex, items, j);
        if ComesBack(lex, items, j) {
          var h :| 0 <= h < j && Same(lex, items, j, h) && !ComesBack(lex, items, h);
          MissedIff(lex, items, h);
        }
      }
    }
  }

  /** Along the run, the same actor as the same actor is the same actor. */
  ghost predicate Transitive(lex: Lexicon, items: seq<Item>) {
    forall h, i, j | 0 <= h < i < j < |items| && Same(lex, items, j, i) && Same(lex, items, i, h) ::
      Same(lex, items, j, h)
  }

  /** Where the relation is transitive on the run, nothing is missed. */
  lemma TransitiveRunsMissNothing(lex: Lexicon, items: seq<Item>, j: nat)
    requires j < |items| && Transitive(lex, items)
    ensures Repeats(lex, items, j) <==> ComesBack(lex, items, j)
  {
    RepeatsByResults(lex, items, j);
    if i :| 0 <= i < j && Same(lex, items, j, i) {
      RepeatsByResults(lex, items, i);
      if Repeats(lex, items, i) {
        var h :| 0 <= h < i && Same(lex, items, i, h) && !Repeats(lex, items, h);
        assert Same(lex, items, j, h);
      }
    }
  }

  function SiteOnly(): Identity {
    Identity(Some("d.fr"), None, None, None, None)
  }

  function SiteAndPhone(): Identity {
    Identity(Some("d.fr"), Some("+33100000000"), None, None, None)
  }

  function PhoneOnly(): Identity {
    Identity(None, Some("+33100000000"), None, None, None)
  }

  /**
   The third of three results is a duplicate exactly when it is the actor of the first, or of a second that is none.
   */
  lemma ThirdRepeats(lex: Lexicon, a: Item, b: Item, c: Item)
    ensures !Repeats(lex, [a, b, c], 0)
    ensures Repeats(lex, [a, b, c], 1) <==> SameActor(lex, b.id, a.id).Some?
    ensures Repeats(lex, [a, b, c], 2)
       <==> SameActor(lex, c.id, a.id).Some? || (SameActor(lex, c.id, b.id).Some? && !SameActor(lex, b.id, a.id).Some?)
  {
    var items := [a, b, c];
    assert items[0] == a && items[1] == b && items[2] == c;
    RepeatsEarlier(lex, items, 0);
    RepeatsEarlier(lex, items, 1);
    RepeatsEarlier(lex, items, 2);
  }

  /**
   A site alone, the site with its phone, the phone alone. The relation is symmetric on them, and still the phone alone
   is a duplicate of the run or not according to which of the other two comes first: in the first order the result it
   repeats is a duplicate itself and forgotten.
   */
  lemma ForgottenDuplicateHidesAnother(lex: Lexicon, prospects: seq<KnownProspect>, results: seq<KnownResult>)
    ensures var a, b, c := Item(SiteOnly(), None), Item(SiteAndPhone(), None), Item(PhoneOnly(), None);
            && SameActor(lex, a.id, b.id) == SameActor(lex, b.id, a.id) == Some(ByDomain)
            && SameActor(lex, b.id, c.id) == SameActor(lex, c.id, b.id) == Some(ByPhone)
            && SameActor(lex, a.id, c.id) == SameActor(lex, c.id, a.id) == None
            && ComesBack(lex, [a, b, c], 2)
            && NoveltyAt(lex, prospects, results, [a, b, c], 2).status != CurrentRunDuplicate
            && NoveltyAt(lex, prospects, results, [b, a, c], 2).status == CurrentRunDuplicate
  {
    var a, b, c := Item(SiteOnly(), None), Item(SiteAndPhone(), None), Item(PhoneOnly(), None);
    ThirdRepeats(lex, a, b, c);
    ThirdRepeats(lex, b, a, c);
    assert Same(lex, [a, b, c], 2, 1);
    DuplicateIffRepeats(lex, prospects, results, [a, b, c], 2);
    DuplicateIffRepeats(lex, prospects, results, [b, a, c], 2);
  }

  /** Two spellings of one name on one page: the answers of the relation differ, the duplicates of the run do not. */
  lemma SamePageSettlesTheOrder(lex: Lexicon)
    requires lex.entityCore("ABCD") == "abcd" && lex.entityCore("AB CD") == "abcd" && lex.normalize("Albi") == "albi"
    requires lex.hasDistinctiveName("ABCD") && !lex.hasDistinctiveName("AB CD")
    ensures var page := Some("https://p.fr/x");
            var whole := Item(Identity(None, None, Some("ABCD"), Some("Albi"), page), None);
            var spaced := Item(Identity(None, None, Some("AB CD"), Some("Albi"), page), None);
            && SameActor(lex, whole.id, spaced.id) != SameActor(lex, spaced.id, whole.id)
            && Repeats(lex, [whole, spaced], 1) && Repeats(lex, [spaced, whole], 1)
  {
    var page := Some("https://p.fr/x");
    var whole := Item(Identity(None, None, Some("ABCD"), Some("Albi"), page), None);
    var spaced := Item(Identity(None, None, Some("AB CD"), Some("Albi"), page), None);
    SecondRepeatsFirst(lex, whole, spaced);
    SecondRepeatsFirst(lex, spaced, whole);
  }
}
