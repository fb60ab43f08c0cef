# Verification of the release and test tooling

This project models the hard parts of the scripts that test and release ReviewSensei, and
proves what those scripts are relied on for.  Every `.dfy` file is one component:

- `GreedySchedule`, `SuiteUnits`, `CheckoutPlan`, `ControllerPlan`, `FixtureTracker`,
  `FixtureSkips` — spreading tests over workers, cutting suites at fixture boundaries,
  keeping the exact inventory, and accounting for tests that a skipped fixture withholds;
- `NpmPublication` — publication against a registry that never changes a stored version but
  answers late, partly or not at all;
- `GithubRelease`, `DocsSync`, `Rulesets` — protocols of remote writes whose responses may
  be lost and whose runs may end anywhere and start again;
- `Changelog`, `ChangelogReading`, `ChangelogInsert`, `ChangelogMerge`, `ChangelogHeading`,
  `VersionRewriting`, `InstallationSpans` — text that is rewritten and read back;
- `Locations`, `ArchiveNames`, `Materialize` — percent-decoded paths, archive names and
  symlink trees;
- `PublicationOrigin` — the execution behind re-exposed job records;
- `Outcomes`, `Sequences`, `Ordering`, `PythonStrings` — what they share.

Conventions.  An exception is `Refused` (or `None`, or a false answer); which exception it is
never decides anything.  Costs and delays are exact reals.  SHA-1 and SHA-256 values are opaque
and stand for the bytes.  Calls to GitHub, npm, Git and the interpreter's test runner are
oracles: methods whose result is any value the service could give, so each theorem holds for
every failure, delay and crash.  A crash after a step is a run in which the next request fails.
The test runner's rules are those of `unittest.TestSuite.run` in CPython 3.11; path rules are
those of `posixpath` and `urllib.parse`.  Percent-encoding is that of section 2.1 of RFC 3986,
and "decode once" is section 2.4 of the same document.

Functions are what the theorems speak of, so what each function means is stated once more without
it: lemmas named `...Exactly` characterise it by the text, the records or the rulesets alone, and
methods ensure such predicates (`Distributes`, `AreUnits`, `Protected`, `SafeArchive`, `Separable`)
beside the specification function.

## Findings

Where a property the scripts are meant to have does not hold on all inputs, a lemma gives an
input, and another says exactly when it holds.

- `partition_units` may leave a worker without tests when measured costs are zero, and
  `worker` refuses such a manifest (`GreedySchedule.ZeroCostsLeaveOneIdle`, `NoWorkerIdle`).
- The fixture tracker credits a test withheld by a fixture *error* as a skip when a cleanup of
  the failed fixture raises SkipTest, and only then, in every run whose withheld tests are
  allocated ones (`FixtureTracker.ErrorCreditedAsSkip`, `CreditsExactlySkips`); every run with a
  complete report is one (`CompleteCreditsSkips`).  A test whose object was replaced is never
  credited (`ReplacedIsNotCredited`, `CreditedAreKnown`), so that it is missed in the report.
- `count_fixture_skips` removes other tests than those of the named classes and modules when two
  classes with tests left share a qualified name, and only then (`FixtureSkips.NamedExactly`).  The
  order of its events matters if and only if some module holds tests of only one of the classes
  behind a shared name (`OrderMatters`, `OrderlessExactly`; twins in different modules are not
  enough: `TwinsInTwoModules`).  It is called with an empty counter.
- Pending notes that begin with a heading once they are stripped are not read back: neither by
  `generate` (`Changelog.PendingReadsBackExactly`) nor by a hosted release prepared alone, which
  then refuses after it has written its section (`ChangelogInsert.HostedOnlyLost`,
  `HostedOnlyExactly`).
- `insert_hosted_release` glues its heading to an engine section that ends the file without a
  newline: then its own notes are lost and those of the engine release change
  (`Changelog.InsertReadsBackExactly`, `ChangelogInsert.EngineNotesKeptExactly`).
- Preparing a version a second time puts pending notes in front of the *first occurrence* of the
  version's notes: a hosted release with the same note above takes them instead
  (`ChangelogMerge.HostedTakesPending`), notes that are a heading once stripped cut the section
  short (`IndentedHeading`), and notes that occur in their own heading line break it
  (`VersionIsNotes`) unless the pending notes happen to complete it (`DateIsNotes`).  The merge
  reads back exactly when the first occurrence is in the version's own section and no heading line
  is uncovered there, or the heading line is completed again
  (`ChangelogHeading.MergeReadsBackExactly`).  Here, as when `generate` releases pending notes that
  begin with a heading, `validate_payload` then finds notes that differ from the receipt and
  refuses the preparation, so nothing wrong is published.
- In `classify_registry_state` the error "remained ambiguous" is unreachable, in `sync` the
  final `return False`, in `build_units` the "could not preserve" error, in `execution_plan`
  the final inventory error; in `safe_archive_member_name` the comparison with `normpath`
  decides nothing.
- `sync` may report failure although its commit has landed (`DocsSync.ThirdResponseLost`): exactly
  when an applied push lost its response and it was the third, or a later check or fetch failed,
  or a newer release was recorded meanwhile (`RefusedButLanded`).  From then on preparing the same
  release changes nothing (`DocumentationIsFinal`).

## Model

| member | source | states |
|---|---|---|
| GreedySchedule.AssignInOrder | scripts/run_checkout_tests.py:341-347 | the loop over the sorted classes: groups and running loads are those of giving each job to the first least-loaded worker |
| GreedySchedule.GreedyPicksLeast | scripts/run_checkout_tests.py:344-346 | the chosen worker carried the least, and every earlier worker carried more |
| GreedySchedule.LoadsAddUp | scripts/run_checkout_tests.py:341-347 | the loads of all workers add up to the cost of all jobs |
| GreedySchedule.AverageBound | scripts/run_checkout_tests.py:333-347 | in any order, every load is at most total/m + (1 - 1/m) times any bound on one cost |
| GreedySchedule.LongestFirstBound | scripts/run_checkout_tests.py:333-347 | in falling order, every load is at most 4/3 - 1/(3m) times the largest load of any other split |
| GreedySchedule.NoWorkerIdle | scripts/run_installed_test_suites.py:396-408 | with falling costs, every worker gets a job if and only if at least m - 1 jobs cost more than zero |
| GreedySchedule.ZeroCostsLeaveOneIdle | scripts/run_installed_test_suites.py:396-442 | two jobs of cost zero leave the second of two workers without work |
| GreedySchedule.BucketsConserve | scripts/run_checkout_tests.py:341-347 | the groups together hold every item as often as it was handed out |
| GreedySchedule.GroupsBalanced | scripts/run_checkout_tests.py:333-347 | groups made in scheduling order meet both load bounds |
| Ordering.SortedUnique | scripts/run_checkout_tests.py:341-343 | two sorted arrangements of the same elements agree when ties are equal |
| Ordering.AtMostExactly | scripts/run_checkout_tests.py:335-343 | strings are compared at the first character in which they differ, and a beginning comes first |
| SuiteUnits.SplitAtFixtureBoundaries | scripts/run_installed_test_suites.py:335-361 | the running-maximum loop cuts exactly at the positions no module scope spans, and the final coverage error cannot occur |
| SuiteUnits.CutIsChain | scripts/run_installed_test_suites.py:344-361 | the runs are contiguous and cover every part once, in order |
| SuiteUnits.CutKeepsScopes | scripts/run_installed_test_suites.py:335-361 | no module scope is split between two runs |
| SuiteUnits.CutIsFinest | scripts/run_installed_test_suites.py:335-361 | every other contiguous cut that keeps module scopes is coarser: each run lies inside one of its runs |
| SuiteUnits.BuildUnits | scripts/run_installed_test_suites.py:315-361 | refuses exactly unknown split requests and ambiguous keys; exactly the requested files with a plain suite, parts, and no empty part are cut, into the finest runs that keep module scopes, and every other file is one whole unit |
| SuiteUnits.UnitsCarryEveryTest | scripts/run_installed_test_suites.py:315-372 | the units hold the discovered leaves, each once and in order |
| SuiteUnits.PartitionUnits | scripts/run_installed_test_suites.py:375-408 | accepts exactly valid requests; every unit is in one group, groups are sorted, handed out in scheduling order and balanced for the measured seconds or the numbers of tests, and all are used if and only if at most one lacks a unit of positive cost |
| SuiteUnits.EveryTestReachesOneWorker | scripts/run_installed_test_suites.py:364-408 | the workers' units hold every discovered leaf as often as it was discovered |
| CheckoutPlan.Partition | scripts/run_checkout_tests.py:310-347 | accepts exactly valid requests; every test is in one group, tests p.x and p.y of one class p are in the same, no group is empty, the groups are balanced for what the classes cost, and the dearest class goes first to the least loaded worker |
| CheckoutPlan.ClassOfQualified | scripts/run_checkout_tests.py:332 | the class of p.n is p, when n holds no dot |
| CheckoutPlan.ClassOfExactly | scripts/run_checkout_tests.py:332 | a text belongs to the class before its last dot, or to itself when nothing is before it |
| CheckoutPlan.OrderIndependent | scripts/run_checkout_tests.py:310-347 | the split does not depend on the order of discovery |
| CheckoutPlan.EveryTestOnce | scripts/run_checkout_tests.py:310-347 | every test is assigned exactly once |
| CheckoutPlan.ClassesStayWhole | scripts/run_checkout_tests.py:330-347 | a worker with one test of a class has all of them |
| CheckoutPlan.NoEmptyWorker | scripts/run_checkout_tests.py:333-347 | no worker is left empty, because class costs are positive |
| CheckoutPlan.ClassesBalanced | scripts/run_checkout_tests.py:333-347 | the class assignment is within 4/3 - 1/(3m) of every other |
| ControllerPlan.ExecutionPlan | scripts/run_checkout_tests.py:350-463 | refuses exactly unknown requests and a lone hook result that is a bare test; admits exactly plain, reviewed, distinct and fixture-disjoint hooks; the controller then has the tests below them, every worker the rest of its group, in order, and all have the inventory exactly once |
| ControllerPlan.PlainTreeExactly | scripts/run_checkout_tests.py:384-395 | the walk with its set of seen suites accepts exactly trees of test cases and unmodified suites of which none occurs twice |
| ControllerPlan.CasesExactly | scripts/run_checkout_tests.py:258-265 | test_cases finds exactly the tests at the ends of the tree's paths |
| ControllerPlan.InventoryPreserved | scripts/run_checkout_tests.py:440-463 | the multiset check at the end can never fail |
| ControllerPlan.PlanKeepsFixturesApart | scripts/run_checkout_tests.py:395-463 | no class and no module has tests on both sides of an admitted plan |
| FixtureTracker.LazyRefinesEager | scripts/run_checkout_tests.py:107-211 | switching on at the first skip and off when all episodes are clear gives the counter of observing every dispatch, after every prefix of every run |
| FixtureTracker.ActiveExactly | scripts/run_installed_test_suites.py:129-173 | profiling is on between two tests exactly while an episode is being followed |
| FixtureTracker.NeverActive | scripts/run_installed_test_suites.py:129-173 | a run without reported skips is never profiled |
| FixtureTracker.CreditStep | scripts/run_installed_test_suites.py:175-208 | one test is credited exactly when it is known and a skip was reported for a fixture that withholds it |
| FixtureTracker.ClassFailedExactly | scripts/run_installed_test_suites.py:192-204 | a class counts as failed by the first class of its resolution order that carries the flag |
| FixtureTracker.CreditsReportedSkips | scripts/run_installed_test_suites.py:104-208 | the counter holds exactly the tests for whose fixture a skip was reported |
| FixtureTracker.CreditsExactlySkips | scripts/run_installed_test_suites.py:104-208 | when all withheld tests are allocated ones, the credited tests are those withheld by SkipTest in setUpModule or setUpClass if and only if no cleanup of a failed fixture raises SkipTest |
| FixtureTracker.CreditedAreKnown | scripts/run_installed_test_suites.py:123-208 | in any run, replaced objects included, only allocated tests that were withheld are credited, each at most once |
| FixtureTracker.CompleteCreditsSkips | scripts/run_installed_test_suites.py:507-515 | in every complete report the credited tests are those withheld by SkipTest if and only if no cleanup of a failed fixture raises SkipTest |
| FixtureTracker.ReplacedIsNotCredited | scripts/run_installed_test_suites.py:123-208 | a run in which a test withheld by SkipTest is not credited, because its object was replaced |
| FixtureTracker.ErrorCreditedAsSkip | scripts/run_installed_test_suites.py:104-208 | a run in which an error is credited as a skip |
| FixtureTracker.CompleteAccountsForEveryTest | scripts/run_installed_test_suites.py:507-515 | a complete execution stopped, or credited for a reported skip, every test, and these are its assignment |
| FixtureTracker.CompleteExactly | scripts/run_installed_test_suites.py:507-515 | for a worker that reached its assignment, the report is complete if and only if testsRun and the stopped tests are those that were started, every withheld test is known, and a skip was reported for it |
| FixtureTracker.FixtureDispatchTracker.ClassReturned | scripts/run_checkout_tests.py:178-211 | the new counter, episodes and active flag after a class handler returns |
| FixtureTracker.FixtureDispatchTracker.Dispatch | scripts/run_checkout_tests.py:140-211 | one test updates the object as the lazy specification says |
| FixtureTracker.RunWorker | scripts/run_installed_test_suites.py:499-532 | reports complete exactly when assignment, testsRun and stopped tests agree with what ran, and the numbers of started and credited tests |
| FixtureSkips.CountFixtureSkips | scripts/run_checkout_tests.py:268-307 | counts what it removes, every test at most once, and flags exactly malformed holders |
| FixtureSkips.NamedExactly | scripts/run_checkout_tests.py:268-307 | exactly the tests of named classes and modules are removed, whatever the events, if and only if no two classes with tests left share a qualified name |
| FixtureSkips.OrderlessExactly | scripts/run_checkout_tests.py:268-307 | the order of the events never matters if and only if wherever a name is shared no module holds tests of only one of its classes |
| FixtureSkips.TwinsInTwoModules | scripts/run_checkout_tests.py:288-306 | classes of one name in different modules for which no order matters |
| FixtureSkips.OrderMatters | scripts/run_checkout_tests.py:297-306 | two classes of the same qualified name for which the order of events changes the result |
| NpmPublication.Publication.Classify | scripts/publish_npm_release.py:369-544 | at most max_attempts reads; the sleep after each is what the registry asked for or the delay grown by half each time, never more than max_delay; the first attempt that settles decides; documents are what the registry holds, and with prompt answers the action is what it holds |
| NpmPublication.SettledExactly | scripts/publish_npm_release.py:385-544 | what each attempt settles: verified or conflicting by its document, publish by its evidence, refused by a denial or when the last attempt told nothing |
| NpmPublication.TotalSleep | scripts/publish_npm_release.py:418-530 | all sleeps together are at most (max_attempts - 1) times max_delay |
| NpmPublication.PublishEvidence | scripts/publish_npm_release.py:385-505 | publish is answered exactly on a counted 404 whose latest probe lacks the version, or a packument no probe ever showed, after preflight_404_attempts counted 404s or on the last attempt, and by a resumed run that reads the version as absent only on the last; refused exactly otherwise without a document |
| NpmPublication.ResumedWaits | scripts/publish_npm_release.py:401-408 | a resumed run that has seen the packument answers publish on its last attempt only |
| NpmPublication.DocumentDecides | scripts/publish_npm_release.py:534-542 | verified and conflicting come from the one document that was read, and only it |
| NpmPublication.RecordReadsBack | scripts/publish_npm_release.py:547-576 | looking a package up in the written record gives its action |
| NpmPublication.Publication.Preflight | scripts/publish_npm_release.py:815-887 | writes a record exactly when all six packages were classified and the answers settle, which they do whenever only this bundle is on the registry, and reaches all six when answers are prompt |
| NpmPublication.Publication.ReadBack | scripts/publish_npm_release.py:604-660 | reads again exactly after a 404, a busy registry or none, up to the last attempt; confirms exactly on the bundle's bytes, which the registry then holds; the sleeps are those asked for or grown |
| NpmPublication.Publication.PublishPackage | scripts/publish_npm_release.py:754-812 | uploads exactly packages recorded as publish, and then succeeds exactly when the readback confirms; success means the registry holds the bundle's bytes, or the record says already-published |
| NpmPublication.Publication.PublishAll | scripts/publish_npm_release.py:754-812 | packages are published in their order: from what is a beginning of it, alone on the registry, any stop leaves a beginning of it from one build |
| NpmPublication.Publication.Release | scripts/publish_npm_release.py:815-928 | a successful release that uploaded anything leaves all six packages with the bundle's bytes; one that records already-published is not resumed and uploads nothing; alone on the registry it changes nothing or brings it to a beginning of the order with bytes of its own build only; with prompt answers and no other bytes there, it succeeds and all six are held |
| NpmPublication.BuildsNeverMix | scripts/publish_npm_release.py:815-928 | from an empty registry, over any sequence of such releases of whatever builds, what is held is a beginning of the order and comes from one build |
| NpmPublication.Campaign | scripts/publish_npm_release.py:815-928 | the same for the releases as they run, one after the other, each with stale reads, lost uploads and a stop anywhere |
| NpmPublication.Publication.WaitForInstallation | scripts/publish_npm_release.py:663-721 | ready means the registry holds all six with the bundle's bytes, and it is ready when they are held, answered promptly and before the deadline; no read and no sleep begins after it, and nothing is uploaded |
| GithubRelease.NewestDecides | scripts/github_release.py:87-101 | a prerequisite counts as succeeded if and only if its newest execution, the only one of its attempt, completed with success and all attempts lie between 1 and the current one |
| GithubRelease.Missing | scripts/github_release.py:259-279 | answers what the release lacks, and only for a release whose assets all have the expected bytes |
| GithubRelease.Repository.Manage | scripts/github_release.py:282-386 | what one run may change in each mode; a run begins with its qualification or does nothing; publish mode never creates or uploads, draft mode never publishes, a public or unfamiliar release is never written, right before every write stands its qualification, success means the release is exactly as planned, and a run whose requests all succeed fails only on a release it cannot take up |
| GithubRelease.Repository.PrepareDraft | scripts/github_release.py:286-318 | creates at most one draft and reads it back, after a lost response too |
| GithubRelease.Repository.UploadMissing | scripts/github_release.py:329-359 | only adds assets of the bundle; right before each upload stand a new qualification and a new look at the release |
| GithubRelease.RunKeepsSafe | scripts/github_release.py:282-386 | a run keeps: one release, as planned, with sound assets, public only with exactly the planned files |
| GithubRelease.CampaignSafe | scripts/github_release.py:282-386 | over any sequence of runs: at most one release, with the planned text, assets only added and complete ones with the planned bytes, public only through a publishing run that found exactly the planned files, and unchanged from then on |
| DocsSync.CutoffsIncrease | scripts/sync_release_docs.py:111-165 | along main the recorded release stays the same bundle or becomes strictly newer |
| DocsSync.PrepareExactly | scripts/sync_release_docs.py:111-165 | a bundle is recorded exactly over nothing or over an intact older release; exactly the same documentation is left alone; all else is refused |
| DocsSync.IdentityNeverChanges | scripts/sync_release_docs.py:128-158 | a recorded version has one source identity and one documentation in all of main |
| DocsSync.DocumentationIsFinal | scripts/sync_release_docs.py:111-165 | once main records a release, every later preparation of it or of an older one is refused, or changes nothing if it is the same documentation and no newer release is recorded |
| DocsSync.RunIsSafe | scripts/sync_release_docs.py:213-285 | among any other runs and commits: at most three pushes, at most one commit lands even when responses are lost, success means main records the documentation, and there always is an answer |
| DocsSync.AnswersExactly | scripts/sync_release_docs.py:213-285 | a run pushes exactly in the attempts that were fetched, found something older and passed their recheck, none without the first check; it answers true exactly when a push was applied and reported, false exactly when the documentation is found recorded |
| DocsSync.RefusedButLanded | scripts/sync_release_docs.py:213-285 | a refused run has landed its commit if and only if an applied push lost its response and it was the third, or a later check or fetch failed, or a newer release was recorded meanwhile |
| DocsSync.ThirdResponseLost | scripts/sync_release_docs.py:213-285 | a run that is refused after three pushes, the third of which landed |
| DocsSync.Remote.Sync | scripts/sync_release_docs.py:213-285 | the loop answers, for every script of answers, what the attempts in order come to |
| Rulesets.ReadyIsProtected | scripts/configure_release_docs_bot.py:28-57 | in every policy configure accepts, main has the core rules without App bypass, and an active ruleset that only the owner and this App may bypass asks for a code owner's fresh approval |
| Rulesets.ReadyExactly | scripts/configure_release_docs_bot.py:24-134 | the policies configure accepts, in terms of their rulesets, rules and bypass lists |
| Rulesets.EveryStopIsSafe | scripts/configure_release_docs_bot.py:133-155 | wherever a run stops, main is protected, a new run accepts what it finds, and aims at the same rulesets |
| Rulesets.RerunsConverge | scripts/configure_release_docs_bot.py:95-158 | the same for any sequence of runs |
| Rulesets.Configurator.Configure | scripts/configure_release_docs_bot.py:95-158 | touches nothing it does not accept or without --apply; wherever it ends main is protected; with --apply it ends with the two intended rulesets and the others as they were, succeeds when no request fails, and writes nothing once done |
| Changelog.RenderSections | scripts/prepare_release.py:115-138 | reading a text into sections loses nothing |
| ChangelogReading.SectionsBegin | scripts/prepare_release.py:115-138 | sections begin exactly where a line of the text begins with ## and a blank and goes on |
| ChangelogReading.PartsExactly | scripts/prepare_release.py:115-123 | the text is split exactly when its first section, and no other, is headed ## Unreleased: before its end, its stripped body, and all after it |
| ChangelogReading.ReleasedExactly | scripts/prepare_release.py:126-138 | notes are read exactly from the only section whose heading begins with the version, if it carries the date and is not empty |
| ChangelogReading.HostedExactly | scripts/prepare_release.py:329-340 | hosted notes are read exactly from the only section with that version and date, if it is not empty |
| ChangelogReading.StripExactly | scripts/prepare_release.py:115-138 | stripping takes off exactly the white space at both ends |
| Changelog.NothingPending | scripts/prepare_release.py:501-515 | after a section is added, nothing is pending |
| ChangelogReading.GenerateExactly | scripts/prepare_release.py:501-515 | when a new version is written, and the text that is |
| Changelog.ReleaseReadsBack | scripts/prepare_release.py:126-138 | the notes of the new version read back |
| Changelog.ReadsBackExactly | scripts/prepare_release.py:126-138 | they read back if and only if they hold no heading line |
| Changelog.PendingReadsBackExactly | scripts/prepare_release.py:501-515 | pending notes read back if and only if the stripped text does not begin with a heading |
| Changelog.GenerateRoundTrip | scripts/prepare_release.py:501-515 | on every changelog generate accepts, its notes read back and nothing is pending |
| Changelog.GenerateKeepsOthers | scripts/prepare_release.py:501-515 | every other release of either package reads as before |
| Changelog.HostedOnlyReadsBack | scripts/prepare_release.py:366-383 | a hosted release without an engine release reads back if and only if its notes hold no heading line, and then leaves nothing pending |
| ChangelogReading.InsertExactly | scripts/prepare_release.py:366-383 | when a hosted release is written, and the text that is: behind the only section of the engine release, or in place of what is pending |
| ChangelogInsert.HostedOnlyExactly | scripts/prepare_release.py:601-642 | a hosted release prepared alone reads what it wrote, with the pin in it and nothing left pending, if and only if the pending text does not begin with a heading once stripped; otherwise the preparation is refused |
| ChangelogReading.HostedOnlyWrites | scripts/prepare_release.py:617-641 | the notes of a hosted release prepared alone are what is pending, with the pinned engine where that is not named |
| ChangelogInsert.HostedOnlyLost | scripts/prepare_release.py:601-642 | changelogs with an indented pending heading, whose hosted release is written and then refused |
| Changelog.HostedOnlyKeepsOthers | scripts/prepare_release.py:366-383 | every engine release and every other hosted release read as before |
| Changelog.InsertReadsBackExactly | scripts/prepare_release.py:366-383 | a hosted release after an engine release reads back if and only if that release is not the last section of a text without a final newline |
| Changelog.InsertKeepsOthers | scripts/prepare_release.py:366-383 | then the engine release it follows, all others, and every other hosted release read as before |
| ChangelogInsert.EngineNotesKeptExactly | scripts/prepare_release.py:366-383 | readable notes of the engine release it follows stay the same if and only if that release is not the last section of a text without a final newline |
| Changelog.BothReleasesReadBack | scripts/prepare_release.py:501-577 | after generate and the hosted insertion both new releases read back |
| ChangelogMerge.MergeReadsBack | scripts/prepare_release.py:503-507 | when the notes are first found in the version's own section and no heading line is uncovered there, they read back with the pending notes in front |
| ChangelogReading.MergeExactly | scripts/prepare_release.py:501-507 | the text that is written when a version is prepared again |
| ChangelogMerge.MergeKeepsOthers | scripts/prepare_release.py:503-507 | then every other release reads as before |
| ChangelogHeading.MergeReadsBackExactly | scripts/prepare_release.py:503-507 | the merge reads back if and only if nothing is pending, or the first occurrence of the notes is in the version's own section and no heading line is uncovered there, or it is in the heading line and that is completed again |
| ChangelogHeading.MergeInHeading | scripts/prepare_release.py:503-507 | with the notes first found inside their own heading line, the merge reads back if and only if the first pending line is what the heading line loses, the pending text is no heading, and the text below strips to the merged notes |
| ChangelogMerge.PlainNotesMerge | scripts/prepare_release.py:503-507 | none is uncovered when neither pending nor existing notes begin with a heading once stripped |
| ChangelogMerge.IndentedHeading | scripts/prepare_release.py:503-507 | changelogs with an indented pending heading, whose merge does not read back |
| ChangelogMerge.DateIsNotes | scripts/prepare_release.py:503-507 | notes found inside their own heading line whose merge reads back |
| ChangelogMerge.VersionIsNotes | scripts/prepare_release.py:503-507 | notes found inside their own heading line whose merge cannot be read |
| ChangelogMerge.HostedTakesPending | scripts/prepare_release.py:503-507 | changelogs on which a hosted release above takes the pending notes |
| VersionRewriting.Compose | scripts/release_docs.py:558-571 | two rounds of substitution equal one with the second version, when the second covers the first or both write the same |
| VersionRewriting.OnePass | scripts/release_docs.py:565-570 | the five substitutions act like one over all patterns |
| VersionRewriting.PrefixDecides | scripts/release_docs.py:562-581 | in a text with one version and no bare pip install, that version is replaced, and found for validation, exactly behind one of the five prefixes |
| VersionRewriting.NumbersOf | scripts/release_docs.py:43-49 | what the patterns read as a version is three numbers with dots between them |
| VersionRewriting.UnpinnedExactly | scripts/release_docs.py:43-50 | the bare install is found exactly where pip install, an optional upgrade flag and the package stand with nothing that continues the name |
| VersionRewriting.RewrittenIsPinned | scripts/release_docs.py:564-568 | no bare pip install is left in a rewritten snippet |
| VersionRewriting.LastVersionWins | scripts/release_docs.py:558-571 | rewriting twice is rewriting once with the last version |
| VersionRewriting.RewrittenIsValidExactly | scripts/release_docs.py:574-594 | a rewritten snippet is refused exactly when it held neither a version nor a bare pip install |
| InstallationSpans.SelectSpans | scripts/release_docs.py:534-555 | the marker loop answers what walking the matches answers |
| InstallationSpans.MarkerExactly | scripts/release_docs.py:40-42 | the marker pattern matches exactly the start and end marker of a target name |
| InstallationSpans.SpansExactly | scripts/release_docs.py:534-555 | accepted are exactly the pages that mark every target once with matching, unnested markers; the answer is where their snippets lie |
| InstallationSpans.Splice | scripts/release_docs.py:562-570 | cutting a snippet out at its offset and putting another text there changes that snippet and nothing else |
| InstallationSpans.EarlierOffsets | scripts/release_docs.py:562-570 | replacing a later snippet keeps all earlier offsets |
| InstallationSpans.RewritePage | scripts/release_docs.py:558-571 | back-to-front replacement rewrites every snippet and keeps all other text |
| InstallationSpans.RewrittenReads | scripts/release_docs.py:558-571 | a rewritten page is read as the same page with rewritten snippets: no marker is lost or made |
| InstallationSpans.PageLastVersionWins | scripts/release_docs.py:558-571 | rewriting a page twice is rewriting it once with the last version |
| InstallationSpans.ValidatePage | scripts/release_docs.py:574-594 | accepts exactly pages whose snippets all show this version and no bare pip install |
| InstallationSpans.RewrittenPageValidExactly | scripts/release_docs.py:558-594 | a rewritten page fails validation exactly when some snippet held neither a version nor a bare pip install |
| Locations.NormalizeLocation | scripts/check_codeql_findings.py:307-357 | the decoding loop answers what one decoding and the bounded walk answer, with or without a line number at the end |
| Locations.LineDropped | scripts/check_codeql_findings.py:350-357 | of path:line exactly the path is left, and nothing but a colon and digits at the end is ever dropped |
| Locations.SchemeExactly | scripts/check_codeql_findings.py:315-320 | the scheme pattern finds file, http or https before ://, in either case and with the letters that fold to theirs |
| Locations.AddressPath | scripts/check_codeql_findings.py:315-320 | of an address its path is left, or all of it when it has none; a network location that is not accepted is refused |
| Locations.FoldedAddressPath | scripts/check_codeql_findings.py:315-320 | a scheme that only folds to one is none for urlsplit: the text before ? and # is left |
| Locations.UnquoteQuote | scripts/check_codeql_findings.py:326-334 | decoding once undoes encoding once, for every text |
| Locations.UnquoteSpelling | scripts/check_codeql_findings.py:326-334 | decoding once undoes every percent-encoding: any characters escaped, digits of either case |
| Locations.DecodeIsStrict | scripts/check_codeql_findings.py:313-334 | bytes read without a replacement are the UTF-8 encoding of the text |
| Locations.BrokenIsReplaced | scripts/check_codeql_findings.py:313-334 | a byte or beginning that UTF-8 does not go on from is replaced by one character |
| Locations.SchemeIsUnsafe | scripts/check_codeql_findings.py:311-324 | a location with a scheme never yields a safe path |
| Locations.SafeExactly | scripts/check_codeql_findings.py:360-384 | safe are exactly short printable texts of proper names joined by slashes, without a backslash or a drive |
| Locations.SafeStaysBelowRoot | scripts/check_codeql_findings.py:360-384 | joined to any root, a safe path stays strictly below it at every segment |
| Locations.EveryLayerSafe | scripts/check_codeql_findings.py:307-384 | every further percent-decoding of a returned safe path, to any depth, is safe |
| Locations.EncodedPathReadsBack | scripts/check_codeql_findings.py:307-384 | for a safe path the walk alone decides whether its encoding is accepted, and it is read as that path |
| Locations.SpellingReadsBack | scripts/check_codeql_findings.py:307-384 | whichever way a safe path is percent-encoded, it is read back as that path if and only if decoding it further settles after at most eight times, over safe paths only |
| Locations.DotSlashDropped | scripts/check_codeql_findings.py:326-349 | a leading ./ is dropped from a path that decoding leaves as it is, and refused before any other |
| Locations.DecodedExactlyOnce | scripts/check_codeql_findings.py:307-357 | normalising any percent-encoding of a returned safe path gives it back |
| ArchiveNames.SafeNameExactly | scripts/validate_npm_package.py:93-114 | accepted are exactly names of plain segments without backslash, NUL, home or drive form, less one trailing slash |
| ArchiveNames.AcceptedExactly | scripts/validate_npm_package.py:93-114 | accepted are exactly proper names joined by slashes, perhaps one slash more, without backslash, NUL, home or drive form |
| ArchiveNames.NormPathExactly | scripts/validate_npm_package.py:108-114 | normpath gives the shortest path to the same place, and a dot for no way at all |
| ArchiveNames.SafeNameFixed | scripts/validate_npm_package.py:93-114 | an accepted name is accepted as it is |
| ArchiveNames.StaysBelowRoot | scripts/validate_npm_package.py:108-114 | every segment of an accepted name leads strictly below any root |
| ArchiveNames.SafeNamesAreSafeMembers | scripts/validate_release.py:35-47 | both name checks agree but for home forms, a colon in second place, and several trailing slashes |
| ArchiveNames.SafeMemberExactly | scripts/validate_release.py:35-47 | accepted are exactly proper names joined by slashes and then any number of slashes, without backslash, NUL or drive letter |
| ArchiveNames.CheckPrefixes | scripts/qualify_candidate_artifacts.py:269-276 | the case map is kept, and refuses exactly when folding joins two different paths |
| ArchiveNames.CheckMembers | scripts/qualify_candidate_artifacts.py:232-282 | a member list is accepted exactly when it is short, safe, free of duplicates, small enough and, where case is ignored, kept apart by folding on all path prefixes |
| Materialize.CopiedExactly | scripts/qualify_candidate_artifacts.py:157-194 | the cycle and escape checks are exact: a bundle is copied if and only if following all links inside the root gives a finite tree, and that tree is the copy |
| Materialize.SamePaths | scripts/qualify_candidate_artifacts.py:163-192 | the copy has the source's paths, and under each the file or directory its links lead to inside the root |
| Materialize.NoOwnAncestor | scripts/qualify_candidate_artifacts.py:164-170 | no directory is found again below itself |
| Materialize.CountsExactly | scripts/qualify_candidate_artifacts.py:161-186 | the counters count every file of the copy once and add up the sizes of all |
| Materialize.Materializer.Copy | scripts/qualify_candidate_artifacts.py:164-192 | the counters grow by the copied files and bytes, and refusal means a failed check or a crossed bound |
| Materialize.Materializer.Materialize | scripts/qualify_candidate_artifacts.py:155-194 | exactly the bundles with a finite unfolding of at most 20 000 files and 2 GiB are copied |
| PublicationOrigin.PublisherExecution | scripts/pypi_channel_publication.py:123-203 | a record is a valid execution exactly when scope, runner, times and every step are, and then its facts, times as they are written, and whether it is genuine |
| PublicationOrigin.ValidExactly | scripts/pypi_channel_publication.py:123-203 | a record is accepted exactly when scope, runner, times and every step are proper |
| PublicationOrigin.FactsExactly | scripts/pypi_channel_publication.py:123-203 | two records show the same facts exactly when all but id, attempt and creation is written the same, a null default group being group zero |
| PublicationOrigin.FindOrigin | scripts/pypi_channel_publication.py:206-241 | the refusal loop answers the specification |
| PublicationOrigin.PublishedExactly | scripts/pypi_channel_publication.py:206-289 | a record is returned if and only if the records are sound and it is the only genuine execution behind the newest record, alone in its attempt and followed by its aliases only |
| PublicationOrigin.OrderIndependent | scripts/pypi_channel_publication.py:206-289 | the order of the records makes no difference |

## Left out

- FixtureTracker.FixtureDispatchTracker.Dispatch: frame and profile events of the interpreter are not modelled, only the two handlers per test and the flags they leave.
- Locations.NormalizeLocation: printable characters, digits of a regular expression, and network locations accepted by urlsplit are parameters.
- NpmPublication.Publication.Classify: JSON shapes that raise an unexpected exception count as a denied read; printed messages are not modelled.
- GithubRelease.Repository.Manage: other tags' releases and another writer's publication between two reads are not modelled; the body is compared as one text.
- ChangelogInsert.HostedOnlyExactly: the checks on the two versions, the rewritten hosted project and the receipt of render_hosted_only are not modelled.
- DocsSync.Remote.Sync: the working tree, staged paths and commit contents are one tree value; the checks on staging, release and branch rules are oracles.
- Rulesets.Configurator.Configure: the refusal of --apply without --exclusive-owner-setup is left out; the model has no other policy writer.
- InstallationSpans.RewritePage: the two site pages and their target lists are parameters; marker texts are any that begin with the only '<' they hold and contain neither a dot nor '=', INSTALLATION among them.
- ArchiveNames.CheckMembers: str.casefold is a parameter, and extraction itself is not modelled.
- Materialize.Materializer.Materialize: file modes and the receipt's list of links are not modelled; entries of a directory come sorted.
- PublicationOrigin.PublisherExecution: absent or ill-typed fields and unparsable times are one flag of the record.
- Reading of Git, tar, zip, JSON and YAML, HTTP, signatures, attestations and subprocesses are oracles or are not part of this model.
- Bundle, manifest and receipt validators that check one field at a time, the marked rewriting of prepared documents, action pins, quarantine and tag surfaces are left out: they would only add easy members.
- The packages review_sensei and review_sensei_github are not part of this model.
