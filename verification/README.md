# The discovery engine of ProspectOS, in Dafny

This project models the algorithms under `src/discovery` of ProspectOS (a prospecting application) and the pure
parts of its screens, and proves what they are for. Each module follows one source file:

| module | source | subject |
|---|---|---|
| `Text` | shared | optional values, JavaScript truthiness, first-index search, the text functions as one record `Lexicon` |
| `EditDistance` | deduplication.ts | the one-row Levenshtein computation, its edit-script meaning, the metric laws, `similarity` |
| `Deduplication` | deduplication.ts | the three ordered scans and the stored key |
| `RunDeduplication` | services.ts | the deduplication of every result of a run, against the project and against the run |
| `CandidateDiversity` | candidate-diversity.ts | near-duplicates and the greedy diverse selection |
| `Admissibility`, `EntityMerge` | admissibility.ts | merging the pages of one organization inside a run; which pages it brings together |
| `NoveltyEngine`, `NoveltyNames` | novelty-engine.ts | the project memory with its four indexes, and the novelty of every result of a run; which prospect, run and result it names |
| `ProspectGuard` | novelty-engine.ts | the strong match behind "Add" and behind the screen of a run |
| `RunOrder` | novelty-engine.ts | how the duplicates of a run depend on the order of its results |
| `FetchPolicy`, `FetchTrace`, `SafeFetch` | safe-fetch.ts | the address policy, the laws of a trace, and the nested redirect and robots loops |
| `BackNavigation` | back-navigation.ts | the planners of the browser history, over every reachable history |
| `SearchUntilNew` | search-until-new.ts | the bounded search loop |
| `SecondarySources` | secondary-sources.ts | the names worth one more request, and their resolution |
| `SecondaryExpansion` | services.ts | the eviction in place and the companies that join the list |
| `DiscoveryService` | services.ts | a whole run, which may fail at any moment: metering, finishing, refunding |
| `QueryPlan`, `QueryConcepts` | query-plan.ts | from the tokens of a brief to at most three queries that are far apart; what they keep of the brief |
| `EvidencePresentation`, `EvidenceGroups` | evidence-presentation.ts | one card per repeated sentence, three lists, one block per criterion |
| `StableOrder` | novelty.ts, review-priority.ts, services.ts | stable sorts and their composition |
| `DiscoveryScreen` | DiscoveryPanel.tsx | the list of the screen, eligible results first, within a tab |
| `CreationsMap` | creations-map.ts | quantile classes |
| `Counting` | shared | how many elements satisfy a predicate |

How the source becomes a model:

* A loop of the source is a method with a loop, proved equal to a function or to a stated property; an object with
  fields is a class (`ProjectNovelty`, `Fetcher`, `Shortlist`, `Run`).
* Text functions made of regular expressions and word lists are fields of a record of total functions. Every theorem
  holds for all of them; a theorem that needs a fact about one says so in its precondition.
* The network, the name service, the clock and the provider answer anything at any moment (`*`), or are functions of
  the pass number (`SearchUntilNew.World`), so a theorem holds for every behaviour and every failure.
* What a run or a fetch does to the outside is recorded in a trace, and the theorems are about all traces. A fetch also
  logs what the environment did: each reading of the clock, a deadline timer that fired, a lookup, and what broke.

## What turned out to be false of the code

For each of these there is a lemma with a concrete input, and one that says for all inputs when the expected property
holds.

* `sameActor` is not symmetric: the distinctiveness of a name is read on one side only (exactly when the two answers
  differ: `NoveltyEngine.SameActorOrderMattersIff`). Of two results, which comes first then decides whether the later
  one is a duplicate (`NoveltyEngine.DuplicatesDependOnOrder`), unless they are the same page
  (`RunOrder.SamePageSettlesTheOrder`; exactly when: `RunOrder.OrderOfTwoMattersIff`).
* An actor that comes back in a run is not always flagged, even where `sameActor` is symmetric: a duplicate does not join
  the actors of the run, so a result that is the same actor as a duplicate only is missed
  (`RunOrder.ForgottenDuplicateHidesAnother`; exactly when, for one result: `RunOrder.MissedIff`, for a whole run:
  `RunOrder.NothingIsMissedIff`). Nothing is missed where the relation is transitive on the run
  (`RunOrder.TransitiveRunsMissNothing`).
* Merging the merged list again can merge more: a kept row may adopt a page of the company a later row already had
  (`Admissibility.MergingTwiceCanMergeMore`; exactly when: `Admissibility.MergingTwiceIsMergingOnceIff`). It never
  happens when no page with a website is the entity both of an earlier page without one and of a page between the two
  (`Admissibility.MergingTwiceIsMergingOnce`).
* Two pages with different legal identifiers can end up in one row, with or without an adoption
  (`Admissibility.TwoIdentifiersCanMeet`, `Admissibility.TwoIdentifiersCanMeetOnOneSite`). It happens exactly when a page
  with an identifier joins a row that shows none although one of its members has another
  (`Admissibility.IdentifiersMeetIff`), and never when the pages can be attributed to companies, those without an
  identifier to any (`Admissibility.OneIdentifierPerRow`).
* Two different websites can meet in one row, although the design says never: a page whose website has no registrable
  domain opens the row, and pages of its name join it from two sites (`EntityMerge.TwoSitesCanMeet`). It happens exactly
  when a page joins by its identifier a row on another site, or joins by its name a row that shows a website without a
  domain and has a member on another site (`EntityMerge.SitesMeetIff`), and never when every website has a domain and
  pages of one identifier are not on two sites (`EntityMerge.TwoSitesAreNeverMerged`).
* A row can be linked without review to one in another town: the scan on names and addresses does not read the city
  (`Deduplication.LinkedAcrossTwoTowns`; exactly when: `Deduplication.LinkedAcrossPlacesIff`).
* Two rows with the same stored deduplication key are not always detected by the scans (`Deduplication.SameKeyCanEscape`;
  exactly when: `Deduplication.SameKeyIsDetectedIff`).
* A result announced as new can be refused as already added: the run lends it a place, "Add" does not
  (`ProspectGuard.NewCanBeRefused`; exactly when: `ProspectGuard.RefusedYetNotAddedIff`).
* Two of the names searched in the secondary request can be one company under two spellings
  (`SecondarySources.OneCompanyCanBePickedTwice`; exactly when: `SecondarySources.PickedTwiceIff`).
* A criterion can be neither shown nor listed as missing: a confirmed copy of a sentence whose extraction rule no longer
  speaks for the criterion hides the copy that does (`EvidenceGroups.NeitherGroupedNorMissing`; exactly when:
  `EvidenceGroups.HiddenIff`).
* Entering Discovery from the Discovery view on an unreadable entry stacks two Discovery entries
  (`BackNavigation.EnteringFromDiscoveryStacks`; exactly when: `BackNavigation.ActionIsFlatIff`). The page's own guard
  rules it out (`BackNavigation.DiscoveryNeverPilesUp`).

## Model

| member | source | states |
|---|---|---|
| EditDistance.OneRowDistance | src/discovery/deduplication.ts:8 | the loop over one row overwritten in place computes the recursive edit distance |
| EditDistance.DistanceIsLeastScriptLength | src/discovery/deduplication.ts:8 | that distance is the length of a shortest insert/delete/substitute script: one exists, none is shorter |
| EditDistance.Symmetric | src/discovery/deduplication.ts:8 | the distance does not depend on the direction |
| EditDistance.ZeroIffEqual | src/discovery/deduplication.ts:8 | the distance is zero exactly between equal strings |
| EditDistance.Triangle | src/discovery/deduplication.ts:8 | triangle inequality |
| EditDistance.LengthBounds | src/discovery/deduplication.ts:8 | at least the length difference, at most the longer length |
| EditDistance.SimilarityLaws | src/discovery/deduplication.ts:8 | similarity is symmetric, in [0,1], and 1 exactly for equal non-empty normalized strings |
| EditDistance.ThresholdBoundsEdits | src/discovery/deduplication.ts:8 | reaching a threshold means at most the fraction 1 - threshold of the longer string is edited, both directions |
| Deduplication.FindMatch | src/discovery/deduplication.ts:13-20 | the three early-return scans give the verdict defined by the first row of each kind |
| Deduplication.UniqueIffNothingMatches | src/discovery/deduplication.ts:13-20 | unique exactly when no known row shares an identifier, an exact name and address, or a similar name and the city |
| Deduplication.StrongIdentifierDecides | src/discovery/deduplication.ts:15-16 | a strong identifier decides wherever its row stands, whatever weaker matches come before |
| Deduplication.SharedIdentifierLinksIff | src/discovery/deduplication.ts:16 | a shared identifier links without review exactly when no place conflicts and the phone, or the name and address, are shared too; it always names that row, and each reason has its condition |
| Deduplication.VerdictNamesItsRow | src/discovery/deduplication.ts:15-20 | the row named is the first sharing an identifier, else the first of the name and address (linked), else the first similar one in the city (for review) |
| Deduplication.LinkedOnlyOnStrongEvidence | src/discovery/deduplication.ts:16-17 | a row is linked without review only on the same phone or the same name and address; a link on a shared identifier never crosses conflicting places |
| Deduplication.LinkedAcrossPlacesIff | src/discovery/deduplication.ts:16-17 | a row is linked across conflicting places exactly when no known row shares an identifier and the first one of its name and address is in another city |
| Deduplication.LinkedAcrossTwoTowns | src/discovery/deduplication.ts:17 | one name and street in two towns, linked without review |
| Deduplication.SameKeyIsDetectedIff | src/discovery/deduplication.ts:12 | two rows with one stored key escape the scans exactly when it is a name key and a city is missing or the name is empty |
| Deduplication.SameKeyCanEscape | src/discovery/deduplication.ts:12 | a row known by its name alone, which the scans do not find again |
| RunDeduplication.MatchRun | src/discovery/services.ts:124-131 | every result is judged against the project and the results before it, in one pass |
| RunDeduplication.UniqueInRunIff | src/discovery/services.ts:125-128 | a result is new to project and run exactly when nothing known and nothing before it is related to it, canonical names of companies included |
| RunDeduplication.RunMatchIsExact | src/discovery/services.ts:125-128 | the project's verdict unless unique; else a company's first known row of its canonical name; else a resemblance in the run, naming no row; else nothing |
| RunDeduplication.UniquesAreUnrelated | src/discovery/services.ts:124-131 | two results of a run that both stay unique are unrelated, in either order |
| RunDeduplication.LinkedOnlyToTheProject | src/discovery/services.ts:125-128 | a result is linked without review only to a project row on strong evidence, never to another result of the run |
| CandidateDiversity.IsNearDuplicate | src/discovery/candidate-diversity.ts:47-58 | the early-return test computes the near-duplicate relation |
| CandidateDiversity.NearDuplicateIsSymmetric | src/discovery/candidate-diversity.ts:40-58 | near-duplication is symmetric although it orders the titles by length |
| CandidateDiversity.DomainAloneIsNeverEnough | src/discovery/candidate-diversity.ts:50-57 | candidates of one domain whose titles share nothing are never near-duplicates |
| CandidateDiversity.SelectDiverse | src/discovery/candidate-diversity.ts:66-76 | the loop returns the kept candidates in pool order, then the leftovers that fill the missing places |
| CandidateDiversity.SelectionSize | src/discovery/candidate-diversity.ts:66-76 | min(maximum, pool size) results |
| CandidateDiversity.SelectedOnce | src/discovery/candidate-diversity.ts:74 | a leftover is never one of the kept candidates |
| CandidateDiversity.RefillOnlyWhenNothingDistinctIsLeft | src/discovery/candidate-diversity.ts:74 | leftovers are used only when every candidate that was not kept repeats a kept one |
| CandidateDiversity.RefillTakesTheFirst | src/discovery/candidate-diversity.ts:74 | the refill takes the first leftovers: none is taken while an earlier one is left |
| CandidateDiversity.KeptIff | src/discovery/candidate-diversity.ts:69-73 | a candidate is kept exactly when there is room beside those kept before it and it repeats none of them |
| CandidateDiversity.KeptAreDistinctBothWays | src/discovery/candidate-diversity.ts:69-73 | kept candidates are pairwise distinct, whichever is compared to the other |
| CandidateDiversity.SkippedForAReason | src/discovery/candidate-diversity.ts:70-71 | a candidate was skipped only because the selection was full or it repeats one kept before it |
| Admissibility.MergeSameEntityCandidates | src/discovery/admissibility.ts:584-603 | the loop that overwrites kept rows computes the merge step by step, and kept + merged is the number of candidates |
| Admissibility.PagesAreConserved | src/discovery/admissibility.ts:584-603 | every page, with its title and types, occurs among kept rows and their additional sources as often as among the candidates |
| Admissibility.SetAsidePassesThrough | src/discovery/admissibility.ts:588-590 | rows that are not admissible pass through unchanged and in order |
| Admissibility.KeptRowsSpeakForTheirMembers | src/discovery/admissibility.ts:592-599 | a kept row has a website, or high confidence, exactly when one of the rows merged into it did |
| Admissibility.KeptRowsShowTheirPrimaryPage | src/discovery/admissibility.ts:592-600 | every kept row is its first member with a website, or else its first member, but for confidence, queries and additional sources |
| EntityMerge.JoinsIffOneOrganization | src/discovery/admissibility.ts:574-600 | at every step a page joins the first kept row showing a page of its organization: same identifier, or not both identified and same registrable domain, or also not both with a domain and one distinctive canonical name; it opens a row exactly when there is none |
| EntityMerge.SitesMeetIff | src/discovery/admissibility.ts:562-600 | two sites meet in one row exactly when a page joined, by an identifier, a row on another site, or, by a name, a row showing a website without domain that has a member elsewhere |
| EntityMerge.TwoSitesAreNeverMerged | src/discovery/admissibility.ts:562-583 | two sites never meet when every website has a domain and pages of one identifier are not on two sites, whatever the names |
| EntityMerge.TwoSitesCanMeet | src/discovery/admissibility.ts:562-583 | three pages of one name that bring two sites together |
| EntityMerge.KeptRowsCollect | src/discovery/admissibility.ts:595-599 | a kept row has the best confidence when a member has it, else that of the page it shows; its queries are exactly those of its members |
| EntityMerge.MergedQueries | src/discovery/admissibility.ts:597-598 | merging two rows unites their queries, each once, in order of first appearance |
| Admissibility.MergingIsIdleIffDistinct | src/discovery/admissibility.ts:584-603 | merging changes nothing exactly when no later admissible row is the entity of an earlier one |
| Admissibility.MergingTwiceIsMergingOnceIff | src/discovery/admissibility.ts:584-603 | a second merge changes nothing, and the kept rows are pairwise distinct, exactly when no row adopted a page of the entity a later row already had |
| Admissibility.MergingTwiceIsMergingOnce | src/discovery/admissibility.ts:589-592 | it changes nothing when no page with a website is the entity both of an earlier page without one and of a page read between the two |
| Admissibility.MergingTwiceCanMergeMore | src/discovery/admissibility.ts:592-599 | three pages for which a second merge removes one more row |
| Admissibility.IdentifiersMeetIff | src/discovery/admissibility.ts:574-600 | two members of a kept row carry different identifiers exactly when a page with one joined a row that shows none although a member had another |
| Admissibility.OneIdentifierPerRow | src/discovery/admissibility.ts:574-600 | no identifiers meet, and a shown identifier is that of every member that has one, when pages can be attributed to companies so that matching pages and identifiers agree |
| Admissibility.TwoIdentifiersCanMeet | src/discovery/admissibility.ts:574-599 | three pages for which two identifiers meet through an adoption |
| Admissibility.TwoIdentifiersCanMeetOnOneSite | src/discovery/admissibility.ts:577-579 | three pages of one site for which two identifiers meet without any adoption |
| NoveltyEngine.ProjectNovelty.constructor | src/discovery/novelty-engine.ts:61-69 | the four indexes list exactly the positions of each key |
| NoveltyEngine.SameActorSharesAKey | src/discovery/novelty-engine.ts:37-47 | two identities of one actor share a non-empty domain, phone, address or canonical name core |
| NoveltyEngine.ProjectNovelty.FindHits | src/discovery/novelty-engine.ts:80-83 | the four lookups find every matching result of the memory, each with its basis |
| NoveltyEngine.ProjectNovelty.CollectHits | src/discovery/novelty-engine.ts:80-84 | sorted by position, the hits are exactly those of a plain scan of the whole memory |
| NoveltyEngine.ProjectNovelty.Classify | src/discovery/novelty-engine.ts:72-94 | the classification equals the one by plain scans, and only a result that is no duplicate joins the run |
| NoveltyEngine.StatusIsExact | src/discovery/novelty-engine.ts:72-94 | each status holds exactly under its condition, in the order duplicate, added, ignored, seen, new |
| NoveltyNames.NoveltyNamesItsMatch | src/discovery/novelty-engine.ts:77-94 | over the stored rows: an added actor names the linked prospect, else the first prospect it matches, else the prospect, run and result of the first accepted match whose prospect exists; an ignored one the first ignored match, a seen one the first match; each with the basis of that match |
| NoveltyNames.StoredIsRecognizedIff | src/discovery/novelty-engine.ts:15-47 | a subject that was stored is recognized in the same place exactly when it shows a phone, a page, a site whose place is readable or unknown, or a distinctive name at a readable place |
| NoveltyNames.OnlyOwnNameAndSite | src/discovery/novelty-engine.ts:12-29 | only a resolved organization's own name and site count, for a new result and for a stored one; a null status differs between the two |
| NoveltyNames.TwoSitesAreTwoActors | src/discovery/novelty-engine.ts:37-47 | actors on two websites match by phone or by page only |
| NoveltyNames.LocationIsTheLastOne | src/discovery/novelty-engine.ts:62-64 | a stored result without a town is at the place of the last entry of its run |
| NoveltyNames.PlacesAgree | src/discovery/novelty-engine.ts:32-35 | places agree in both directions, never when one is unknown, and always with a longer way of naming them |
| NoveltyEngine.ClassifyRun | src/discovery/services.ts:110 | classifying a run in order gives each result the novelty defined from the results before it |
| NoveltyEngine.RunDuplicatesAreExact | src/discovery/novelty-engine.ts:72-94 | over any run, a result is a duplicate exactly when it is the actor of an earlier non-duplicate; new exactly when nothing knows it |
| NoveltyEngine.SameActorOrderMattersIff | src/discovery/novelty-engine.ts:37-47 | swapping the arguments changes the answer exactly when only the name can decide and one name is not distinctive |
| NoveltyEngine.DuplicatesDependOnOrder | src/discovery/novelty-engine.ts:74 | two results that are duplicates in one order and not in the other |
| RunOrder.OrderOfTwoMattersIff | src/discovery/novelty-engine.ts:37-47 | which of two results comes first decides the duplicate exactly when one spelling of the name decides and the pages differ |
| RunOrder.SamePageSettlesTheOrder | src/discovery/novelty-engine.ts:45 | two spellings of one name on one page, duplicates in either order although the answers of the relation differ |
| RunOrder.MissedIff | src/discovery/novelty-engine.ts:72-75 | an actor that comes back is not flagged exactly when every earlier result that is the same actor is a duplicate itself |
| RunOrder.NothingIsMissedIff | src/discovery/novelty-engine.ts:72-75 | in a run the duplicates are the actors that come back exactly when each of these is the actor of an earlier result that comes back to none |
| RunOrder.TransitiveRunsMissNothing | src/discovery/novelty-engine.ts:72-75 | where the relation is transitive along the run, the duplicates are exactly the results that are the same actor as an earlier one |
| RunOrder.ForgottenDuplicateHidesAnother | src/discovery/novelty-engine.ts:72-75 | three results on which the relation is symmetric, the third a duplicate in one order of the first two and missed in the other |
| ProspectGuard.StrongProspectMatch | src/discovery/novelty-engine.ts:100-104 | the loop returns the first prospect matched by own domain or phone |
| ProspectGuard.StrongMatchSurvivesIff | src/discovery/novelty-engine.ts:37-47 | the place a run lends undoes a strong match exactly when it rests on the domain alone and the places disagree |
| ProspectGuard.RefusedYetNotAddedIff | src/discovery/novelty-engine.ts:72-104 | a result is announced neither added nor duplicate exactly when the run does not know it and no link, prospect match or accepted result survives the lent place |
| ProspectGuard.RefusedWasAdded | src/discovery/novelty-engine.ts:72-104 | a result with a strong match that survives the lent place is announced added or duplicate |
| ProspectGuard.NewCanBeRefused | src/discovery/novelty-engine.ts:72-104 | a result without a city that a run calls new and "Add" refuses |
| ProspectGuard.CurrentProjectStatuses | src/discovery/novelty-engine.ts:111-121 | every row not accepted yet gets its current prospect, the last row of an id counting, and no other row does |
| ProspectGuard.ScreenShowsTheFirst | src/discovery/novelty-engine.ts:111-121 | a row shows the first prospect it strongly matches, else its snapshot's prospect while that one exists, else none |
| ProspectGuard.AddRefusesTheFirst | src/discovery/novelty-engine.ts:126-133 | "Add" refuses, naming the first strong match, unless the row links to a duplicate or that prospect was created under its key and nothing separates them |
| ProspectGuard.AddRefusesNothingElse | src/discovery/novelty-engine.ts:126-133 | without a strong match "Add" refuses nothing |
| ProspectGuard.AddAgreesWithTheScreen | src/discovery/novelty-engine.ts:116-132 | "Add" refuses a row only in favour of the prospect the screen shows for it |
| FetchPolicy.PolicyIsLawful | src/discovery/safe-fetch.ts:194-210 | the policy of any options has all the properties the redirect automaton relies on |
| FetchPolicy.PermittedIff | src/discovery/safe-fetch.ts:76-88 | which addresses may be requested, outright: scheme, credentials, port, host, allowed hosts and authorized domain |
| FetchPolicy.UnderIsWholeLabels | src/discovery/safe-fetch.ts:52-56 | a host is under a domain when it is the domain or ends with a dot and it, never by its letters alone |
| SafeFetch.ReadBody | src/discovery/safe-fetch.ts:96-105 | a body is returned whole exactly when it fits the limit, else nothing of it |
| SafeFetch.Fetcher.Await | src/discovery/safe-fetch.ts:162-177 | what is awaited ends in time exactly when the clock read first shows time left, nothing breaks and the deadline timer does not fire first; each failure is named by what happened |
| SafeFetch.Fetcher.RequestOnce | src/discovery/safe-fetch.ts:179-192 | at most one request, to a public address, started before the deadline with exactly the time left as its timeout; answered exactly when nothing in the environment went wrong, and otherwise the failure is the one thing that did |
| SafeFetch.Fetcher.Receive | src/discovery/safe-fetch.ts:212-236 | which final answers are accepted and why one is refused; a readable body is returned whole, or found too large, exactly when the clock read before it shows time left and nothing goes wrong |
| SafeFetch.Fetcher.CheckRobots | src/discovery/safe-fetch.ts:240-253 | success means a whole robots exchange starting at the target's own authority that allows it or finds no file (RFC 9309, sections 2.3.1.2 and 2.3.1.3); a refusal means that file does not allow this target |
| SafeFetch.Fetcher.Follow | src/discovery/safe-fetch.ts:200-238 | the redirect loop keeps every rule, within its allowance, and whatever its turns keep and end with holds of the whole loop; it ends with the first trouble of the environment |
| SafeFetch.Fetcher.FetchFollowing | src/discovery/safe-fetch.ts:200-238 | each page request is for the initial address or the redirect answered by the page request before it; a success returns its last exchange, a failure has its reason, and giving up takes the limit plus one requests |
| SafeFetch.SafeFetch | src/discovery/safe-fetch.ts:139-262 | any server and any clock: at most (R+1)(R+2) requests, all permitted, public and started before start time plus timeout, https when it must be, pages in one redirect chain and each guarded, bodies bounded; it returns the page exactly when no trouble of the environment and no refused answer stands in the way, and a failure is the one trouble that happened or a refusal its last exchange shows |
| BackNavigation.ReadBack | src/discovery/back-navigation.ts:20-30 | reading a stored state gives it back up to unusable identifiers |
| BackNavigation.SteppingBackStaysInDiscovery | src/discovery/back-navigation.ts:42-74 | in every reachable history, where stepping back is offered the entry below is a Discovery entry of the same project |
| BackNavigation.OpenedProspectReturns | src/discovery/back-navigation.ts:53-60 | after opening a prospect it is on screen and one step back lands on Discovery, both with the run asked for, else the run of the Discovery entry that was left, else none; no older entry is lost |
| BackNavigation.RunChangeIsInPlace | src/discovery/back-navigation.ts:63-66 | on Discovery of the project the entry on screen takes the new run and no other entry changes; elsewhere nothing happens |
| BackNavigation.EnteredDiscoveryIsOneStep | src/discovery/back-navigation.ts:42-49 | entering Discovery rewrites the entry when already there, keeping its run if none is asked for, else adds exactly one above the entry left |
| BackNavigation.ActionIsFlatIff | src/discovery/back-navigation.ts:42-66 | an action stacks two Discovery entries exactly when it enters Discovery from its own view, with a usable project, on an entry that cannot be read |
| BackNavigation.DiscoveryNeverPilesUp | app/page.tsx:281-288 | under the guard of the page, no run of the application stacks two Discovery entries of one project |
| BackNavigation.EnteringFromDiscoveryStacks | src/discovery/back-navigation.ts:42-49 | without the page's guard, entering Discovery from its own view stacks two |
| SearchUntilNew.DesiredNewResults | src/discovery/search-until-new.ts:42-45 | a request between 1 and the maximum is kept, and the answer is always in that range |
| SearchUntilNew.SearchUntilNewTarget | src/discovery/search-until-new.ts:54-95 | the loop makes exactly the admitted passes, gathers exactly their results, reports each pass, and names the one reason it stopped |
| SearchUntilNew.CallsWithinCap | src/discovery/search-until-new.ts:64-75 | calls are passes, at most the cap, at most three |
| SearchUntilNew.CapReads | src/discovery/search-until-new.ts:64 | the cap is what was asked for, within one and three, three by default |
| SearchUntilNew.RunIsDetermined | src/discovery/search-until-new.ts:69-93 | no other number of passes, and so no other stop reason, fits the same world |
| SearchUntilNew.TargetReachedIsFirst | src/discovery/search-until-new.ts:88 | the target is reported exactly when the last pass is the first to reach it |
| SearchUntilNew.ReservedMeansTwoCalls | src/discovery/search-until-new.ts:74 | a reserved last call means two calls of three, both successful, and no signal variant left |
| SearchUntilNew.PassesFitTheTimeBudget | src/discovery/search-until-new.ts:73 | every pass after the first started with its whole timeout left in the budget |
| SearchUntilNew.SignalVariantsComeFirst | src/discovery/search-until-new.ts:71-91 | with a signal variant untried the run neither gives up for lack of results nor reserves its last call |
| SecondarySources.PlanSecondaryExpansion | src/discovery/secondary-sources.ts:74-90 | the nested loops compute the greedy choice over all cited names; every planned name is cited by a result and is neither a known company nor an exploitable one of the run, and with room left every cited name is known or repeats a planned one; exact counts of sources and names |
| SecondarySources.PickLaws | src/discovery/secondary-sources.ts:82-87 | at most five names, all cited, none known to the project or the run, none the same company as one before it |
| SecondarySources.SkippedAreTheKnownOnes | src/discovery/secondary-sources.ts:84 | known names are counted each time they are cited |
| SecondarySources.LeftOutForAReason | src/discovery/secondary-sources.ts:84-87 | a name worth a request is left out only after five before it were kept |
| SecondarySources.PickedInOrder | src/discovery/secondary-sources.ts:78-87 | the names come in the order they are cited |
| SecondarySources.PickedTwiceIff | src/discovery/secondary-sources.ts:83-86 | an earlier name is the same company as a later one exactly when they share a canonical name and only the later spelling is distinctive |
| SecondarySources.OneCompanyCanBePickedTwice | src/discovery/secondary-sources.ts:83-86 | one association searched under two spellings |
| SecondarySources.NothingWorthwhileIsLeftOut | src/discovery/secondary-sources.ts:82-87 | a cited name left out of a plan with room is known or repeats a name of the plan |
| SecondarySources.ResolveSecondaryCandidates | src/discovery/secondary-sources.ts:98-113 | resolved and unresolved together are the names searched |
| SecondarySources.ResolutionLaws | src/discovery/secondary-sources.ts:98-113 | a resolved candidate is a result found on its own site under its cited name, and each name is answered once |
| SecondarySources.FreeAnswersAreKept | src/discovery/secondary-sources.ts:106-110 | a result that is a searched company not answered yet is kept |
| SecondarySources.AnswerStandsForItsFirstName | src/discovery/secondary-sources.ts:101-111 | an answer is kept exactly when it is a searched company not answered yet, unchanged but for its origin, the first such name of the plan |
| SecondaryExpansion.EvictionLaws | src/discovery/services.ts:157 | exactly as many rows leave as needed, or all that may; the others stay in order |
| SecondaryExpansion.RoomIsMadeExactly | src/discovery/services.ts:157 | every exploitable row stays; exactly the needed number of set-aside rows leave, or all |
| SecondaryExpansion.RoomKeepsOrder | src/discovery/services.ts:157 | what both evictions leave, citing sources included, is a subsequence of the list |
| SecondaryExpansion.CitingSourcesLeaveLast | src/discovery/services.ts:157 | a citing source leaves only when no other set-aside row is left |
| SecondaryExpansion.ExpansionLaws | src/discovery/services.ts:156-158 | the list stays within its limit, keeps every exploitable row in order, and takes every newcomer the set-aside rows can make room for |
| SecondaryExpansion.NewcomersAreExact | src/discovery/services.ts:155 | newcomers are the resolved rows whose site no row of the list has, each as often as resolved, in that order |
| SecondaryExpansion.RowsLeaveInOrder | src/discovery/services.ts:156-157 | rows leave from the end, and a row whose address is the source of a planned name leaves only when no other set-aside row is left |
| SecondaryExpansion.ExpansionIsRight | src/discovery/services.ts:155-158 | every expansion makes room and admits as that contract says |
| SecondaryExpansion.WithRoomEveryNewcomerJoins | src/discovery/services.ts:155-158 | with room beside the exploitable rows, every resolved company whose site the list does not have is in the final list |
| SecondaryExpansion.NormalizedIsExact | src/discovery/services.ts:152 | the first answers up to the limit, in order, without those that cannot be normalized |
| SecondaryExpansion.Shortlist.Evict | src/discovery/services.ts:157 | splicing from the end in place removes the last removable rows |
| SecondaryExpansion.Shortlist.ExpandSecondary | src/discovery/services.ts:145-160 | one request, sent only below three and in time; a failure changes nothing; else set-aside rows leave from the end, sources of planned names last and only as many as needed, and the first resolved companies whose site the list does not have join it, as many as fit |
| DiscoveryService.Run.FindProspects | src/discovery/services.ts:77-139 | whatever fails whenever, the run is metered, finished and refunded right: refunded exactly when a failure was recorded, the store can refund and the source answered nothing; requests stay within their ceiling; a completed run holds the list of its search, enlarged as the expansion's contract says when it sent one more request that was answered |
| DiscoveryService.Run.MeterSearch | src/discovery/services.ts:79 | metered once per run, with the requests sent, and never for nothing |
| DiscoveryService.RunsAreAccountedFor | src/discovery/services.ts:44-139 | the same laws for every trace with the shape of a run: metered at most once with the final count, nothing after a recorded completion, a refund last and exactly when due |
| DiscoveryService.ShortlistIsTheBest | src/discovery/services.ts:110-111 | the list of a deep search is full or complete, in order of rank and place, and no row left out comes before a row of the list |
| DiscoveryService.LastCallIsForCitedCompanies | src/discovery/services.ts:104-106 | the deep search leaves its last call exactly when a row it found cites a company neither known to the project nor exploitable in the run |
| DiscoveryService.NothingAnsweredIff | src/discovery/services.ts:44-48 | when a run is not billed, case by case |
| QueryPlan.SkipOpening | src/discovery/query-plan.ts:69-70 | the cursor stops at the first token an opening does not skip |
| QueryPlan.CutSubjects | src/discovery/query-plan.ts:71-78 | the cursor stops at the first token ending the leading phrase, and the subjects are the phrases cut before it |
| QueryPlan.CutRest | src/discovery/query-plan.ts:82-87 | the rest is cut at punctuation and phrase-opening words |
| QueryPlan.MainQueries | src/discovery/query-plan.ts:100-112 | the loop with its early exit makes the greedy choice over all pairs |
| QueryPlan.SignalQueries | src/discovery/query-plan.ts:123-138 | the loop makes the greedy choice over all signals, against the main queries too |
| QueryPlan.PlanSearchQueries | src/discovery/query-plan.ts:63-119 | the whole planner computes the plan defined from the brief |
| QueryPlan.PlansAreWellFormed | src/discovery/query-plan.ts:63-119 | one to three queries, main first, distinct stems outside the zone, every two with Jaccard similarity below 3/4; the zone-only fallback only with an empty zone |
| QueryPlan.PairsAreRepresented | src/discovery/query-plan.ts:102-112 | a subject and topic pair is left out only if near a kept query or three are kept |
| QueryConcepts.QueriesKeepTheirConcepts | src/discovery/query-plan.ts:103-108 | a query keeps the first word of each stem, in order, and searches for exactly those stems and the zone |
| QueryConcepts.MainQueriesKeepTheirConcepts | src/discovery/query-plan.ts:94-112 | every main query keeps all concepts of one subject and then of one topic of the brief, or of its first seven content words when it has neither |
| QueryConcepts.EveryPairIsCovered | src/discovery/query-plan.ts:94-112 | no subject and topic pair is forgotten: three main queries are planned or one is near its concepts |
| QueryConcepts.SignalQueriesKeepTheirConcepts | src/discovery/query-plan.ts:117-138 | every signal query keeps all concepts of the first subject, or else topic, and of one signal |
| QueryConcepts.EverySignalIsCovered | src/discovery/query-plan.ts:126-138 | no signal is forgotten: two signal queries are planned or a query of the plan is near its concepts |
| QueryConcepts.PhrasesAreExact | src/discovery/query-plan.ts:79 | each phrase with words gives one subject, at its place: its first words |
| QueryConcepts.TopicsAreExact | src/discovery/query-plan.ts:89-92 | each phrase with a stem the subjects and the zone lack gives one topic, at its place: its first words |
| QueryConcepts.EveryCategoryIsATopic | src/discovery/query-plan.ts:88-92 | a category of the user is a topic, by its first words, when one of its concepts is said neither by the subjects nor by the zone |
| QueryConcepts.EveryRestPhraseIsATopic | src/discovery/query-plan.ts:88-92 | so is every such phrase of the rest of the brief |
| QueryConcepts.ContentWordsAreConcepts | src/discovery/query-plan.ts:54 | the content words of a text are its words that are neither empty, function words, instructions nor zone words |
| QueryConcepts.PlanInOrder | src/discovery/query-plan.ts:113-118 | the main query, the signal queries, then the rest of the main plan, cut to three |
| QueryConcepts.NearIsJaccard | src/discovery/query-plan.ts:142-148 | near means that shared stems are at least three quarters of all, or there are none |
| QueryPlan.SignalQueriesAreRecognized | src/discovery/query-plan.ts:140 | comparing the plan with the plan without signals gives back the signal queries, all of them exactly when there is a main query or none of them is the zone-only fallback |
| EvidencePresentation.CollectWinners | src/components/evidence-presentation.ts:150-155 | the loop over the map computes the winners |
| EvidencePresentation.CopiesIff | src/components/evidence-presentation.ts:150-155 | rows are copies when criterion, or else kind, and folded text agree; only then, if no heading has a bar |
| EvidencePresentation.WinnersLaws | src/components/evidence-presentation.ts:150-155 | exactly one winner per key of the informative rows, itself one of them, and no row is better than its winner |
| EvidencePresentation.BetterReads | src/components/evidence-presentation.ts:125-132 | between two copies: a confirmed row, else a refuted one, else one that can be reviewed, else the later one |
| EvidencePresentation.ToneReads | src/components/evidence-presentation.ts:84-91 | the tone follows the decision of a person; undecided, it waits exactly when the row can be reviewed |
| EvidencePresentation.BlockIsSorted | src/components/evidence-presentation.ts:138-141 | in a block: pending, confirmed, refused, neutral, each by decreasing confidence |
| EvidencePresentation.BestFirstIsInOrder | src/components/evidence-presentation.ts:138-147 | a shown block: the sentences nothing covers, then the covered ones, each part in that order |
| EvidencePresentation.ListsPartitionCards | src/components/evidence-presentation.ts:158-164 | every card is in exactly one of the three lists, as often as made: proposal when its row can be reviewed, note on the site by its kind, else other |
| EvidenceGroups.BlocksLaws | src/components/evidence-presentation.ts:174-178 | one block per criterion with a proposal, in ICP order, holding exactly its proposals in order |
| EvidenceGroups.PresentObservations | src/components/evidence-presentation.ts:149-189 | the whole presentation: lists, groups and missing criteria |
| EvidenceGroups.ProposalsFollowTheIcp | src/components/evidence-presentation.ts:156-159 | proposals follow the ICP, then the tone |
| EvidenceGroups.GroupHolds | src/components/evidence-presentation.ts:175-180 | a group holds every proposal of its criterion as often as it was made, and nothing else |
| EvidenceGroups.GroupReads | src/components/evidence-presentation.ts:179-184 | a group waits when one proof waits, reads contradicted exactly when all do, and opens with an uncovered proof |
| EvidenceGroups.GroupCounts | src/components/evidence-presentation.ts:179-184 | a group counts its waiting and its confirmed proofs, and reads confirmed when some were and none waits |
| EvidenceGroups.GroupedIsNotMissing | src/components/evidence-presentation.ts:165-169 | no grouped criterion is listed as missing |
| EvidenceGroups.MissingIff | src/components/evidence-presentation.ts:165-169 | once something was analysed, a criterion is missing exactly when no row about it can be reviewed |
| EvidencePresentation.WinnersAreTheLeaders | src/components/evidence-presentation.ts:127-155 | the rows shown are exactly those no copy of their sentence is preferred to and that are preferred to every copy before them |
| EvidenceGroups.GroupedIff | src/components/evidence-presentation.ts:150-178 | a criterion has a group exactly when a row about it that can be reviewed leads the copies of its sentence |
| EvidenceGroups.HiddenIff | src/components/evidence-presentation.ts:150-169 | a criterion is neither grouped nor missing exactly when rows inform it and none of them leads |
| EvidenceGroups.NeitherGroupedNorMissing | src/components/evidence-presentation.ts:66-82 | an open sentence about a criterion and its confirmed copy under a rule that no longer maps: the criterion is neither grouped nor missing |
| StableOrder.LexSortedIsUnique | src/components/DiscoveryPanel.tsx:185-186 | only one permutation is so sorted |
| StableOrder.ScreenOrder | src/components/DiscoveryPanel.tsx:185-186 | the eligible results are ordered by novelty, then review priority, then the run's own order |
| DiscoveryScreen.ScreenIsInOrder | src/components/DiscoveryPanel.tsx:185-186 | the list shows exactly the results of the tab, each once: the eligible ones in that order, the others after them as they were |
| DiscoveryScreen.ScreenIsTheOnlyOrder | src/components/DiscoveryPanel.tsx:185-186 | no other arrangement of the results of the tab is in that order |
| StableOrder.GroupsAreTheStableSort | src/discovery/services.ts:110-111 | concatenating the three ranks is the stable sort by rank |
| StableOrder.NothingBetterIsLeftOut | src/discovery/services.ts:111 | a row cut from the list comes after every row kept |
| CreationsMap.QuantileBreaks | src/components/creations-map.ts:4-8 | the loop picks the sorted value at floor(i n / k) for each class |
| CreationsMap.ComputeClassOf | src/components/creations-map.ts:9 | the while loop counts the breaks reached before the first one that is not |
| CreationsMap.ClassIsAtLeastIff | src/components/creations-map.ts:9 | a value is at least of class i exactly when it reaches the i-th break |
| CreationsMap.ClassesAreMonotone | src/components/creations-map.ts:9 | a greater value never has a smaller class, and classes are 0 to k-1 |
| CreationsMap.FewFallBelow | src/components/creations-map.ts:4-9 | at most floor(i n / k) values fall below class i |
| CreationsMap.DistinctValuesSpreadEvenly | src/components/creations-map.ts:4-9 | with distinct values class i holds exactly floor((i+1) n / k) - floor(i n / k) of them |

## Left out

- React components, pages, styles, translations, forms and maps: display only.
- The database (`repository.ts`, `api.ts`, quotas, digests): storage behind remote procedures.
- Regular expressions, word lists, address parsing, the public suffix list, address ranges and the robots parser: total functions of their arguments here.
- Provider modules: one request per variant and an accurate count of requests sent are assumed; the logger is assumed total.
- Floating point: ratios are exact reals, the Jaccard test is the integer inequality 4 common >= 3 union, confidence is in thousandths, dates are integers.
- `similarity` on UTF-16 units: strings are sequences of characters.
- `reviewPriority` (points and reasons), `noveltyCounts`, `noveltyRates`, `displayNovelty`, `decidedNovelty`: counting and case tables without an invariant of their own; the sorts read their level as a function.
- `prioritizeObservations` and the website analysis: page fetching and extraction rules.
- `citedCompanyNames`, `buildSearchVariants`, `secondaryQuery`: text assembly; cited names and variants are inputs.
- `entityKey`, `shortReason`, titles, labels, anchors and the summary of the evidence screen: text only.
- The robots check recognizes its own refusal by a pattern on the error message; the model distinguishes it by its constructor.
- Fields the framework adds to a history entry; the navigation planners neither read nor write them.
- Pass timeout and time budget are the constants of the source; the loop's options for other values are not modelled.
- Admissibility.MergeSameEntityCandidates: the fields of a page no merge reads (canonical address, city, other metadata) are not part of a row.
- EntityMerge.TwoSitesAreNeverMerged: a condition on the input alone, sufficient only; SitesMeetIff is exact, about the steps of the merge.
- Admissibility.MergingTwiceIsMergingOnce: a condition on the input alone, sufficient only; MergingTwiceIsMergingOnceIff is exact, about the pages adopted during the merge.
- Admissibility.OneIdentifierPerRow: a condition on the input alone, sufficient only; IdentifiersMeetIff is exact, about the steps of the merge.
- ProspectGuard.RefusedWasAdded: sufficient only; RefusedYetNotAddedIff is exact.
- DiscoveryService.Run.FindProspects: the merge of a pool and the rank of a row are arbitrary functions there (their own laws are in Admissibility and NoveltyEngine); labelling and saving are one step that may fail.
- SearchUntilNew.SearchUntilNewTarget: durations of passes are not part of a report; a count or a decision that throws between passes is a failure of the run, in DiscoveryService.
- DiscoveryScreen.ScreenIsInOrder: which results a tab holds, and their novelty and priority, are functions of the result.
- QueryPlan.PlanSearchQueries: starts from tokens; a query is its concept words and stems, not its joined text.
- SafeFetch.SafeFetch: sockets and the destruction of a body are not part of this model; the deadline timer is an event that may come before whatever is awaited.
