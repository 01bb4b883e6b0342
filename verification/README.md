# A reference monitor for code ports, in Dafny

The repository decides whether a port of a numerical code may be accepted. An
agent submits files, asks for checks by name, and is answered from a ledger of
claims that only ever grows. This project models that decision, from the bytes
of the ledger file up to acceptance, and proves what a reader of a verdict
relies on: that every claim was reached on a complete chain of earlier passing
claims, on the executables it names; that no submit reaches past the reviewed
ceiling; that concurrent writers lose nothing; that the comparator, the
analyzer and the mutation scorer mean what they report.

`dafny verify dfyconfig.toml` checks all of it.

## How it is laid out

| files | what they hold |
|---|---|
| `Json`, `LedgerFile`, `LedgerStore`, `LedgerReads`, `TornLines` | the JSONL ledger: serialization, torn reads, ids, locked appends by many processes, the parse cache and what it answers over time, writers that die |
| `Workflow`, `Catalog` | the catalog's depth-first validation, and the shipped catalog |
| `Evidence`, `Replay` | which claims are current, status and acceptance, the session replay |
| `Gateway`, `RunService`, `Answers` | one POST /run as a function of the ledger and the backends, the service that does it step by step, and what each answer says, condition by condition |
| `GatewayRuns`, `Guarantees`, `Repeats`, `Progress` | the gateway over whole runs: the invariant, evidence chains, exact executables, retired speedups, reuse, progress to acceptance |
| `Globs`, `Ceilings`, `Submit`, `Branches` | glob matching with `*`, `?` and classes, which entries stay under a ceiling and which ceilings can be asked, the overlay, the compare-and-swap branch under concurrent submits |
| `WholeRegion` | the branch and the ledger as one system, and what acceptance means for the files |
| `FileSets` | the byte stream a file set is hashed from |
| `Ulp`, `Compare`, `Mutation` | distance in units in the last place, the comparator, the mutant classifier |
| `CodeParts`, `Statements`, `Procedures`, `Sese` | blanked literals and comments, continued Fortran statements, procedure ranges, the scan for early exits |
| `Session` | the join of a transcript with the request log |

Code that the repository runs step by step (the store, the service, the
repository's branch, the depth-first search, every loop over rows, results,
lines, patterns or elements) is imperative here and is proved against a
function; what the repository promises is then proved of that function. Rules
that the repository writes as expressions are functions.

Whole-run statements quantify over traces: a sequence of states from an initial
one, each reached from the last by one event. The gateway's events are a submit,
an edit of the evidence context, a change of the backends (which includes losing
any part of what the builder held), a tick of the clock, and a request with any
answers, verdicts and builder behaviour at all.

## What is assumed

- Digests are injective: a subject is told apart by what was hashed, and the two
  sentinel subjects are digests no file and no timing claim has.
- A request runs as one atomic step under the execution lock, on the context it
  resolved; the clock has whole seconds and never goes back; every claim of one
  request carries one time.
- A component honours its contract (`Gateway.Honors`): it answers about predicate
  types its action emits, each once, on the catalog's subject, and adds only
  inputs to a claim's materials, except that the speedup check adds exactly the
  two observations it was handed. The gateway itself does not check this:
  `Guarantees.AnswersBeyondTheActionEscape` is a concrete answer that gets past
  the gate without it, and `Guarantees.AnswersAboutTheirActionExactly` says which
  of the accepted answers leave a claim about what was asked.
- Deployment inputs (strategies, manifest, policies, datasets, references,
  backend identities) are materials of kinds other than executables and timings.
- A claim's serialization is faithful (`LedgerFile.Faithful`): a JSON object that
  loads back as the claim, and a parser that accepts only JSON.
- A writer finishes the line it began (`LedgerStore`'s runs); what one leaves that
  dies half way is `TornLines`.
- How a Fortran statement is classified (opening, END, keywords, plain RETURN) is
  given by functions of its joined code.

## Where the code and its documentation part

- The store's own header says it does not defend against a second process writing
  the same files; its writer lock does take an operating-system file lock, and
  the model follows the lock (equivalent/ledger/store.py:1-6, 46-56).
- A reader is to skip a line another process has not finished. It does, until a
  line follows: if a writer dies with part of its line in the file, the next line
  lands on it and every later read fails, exactly then
  (`TornLines.TornLinesFailOnceFollowed`, `TornLines.DeadWritersBreakTheFile`).
- A failing build is never answered from the ledger: the duplicate lookup asks
  the builder to hold what the claim decodes to, and a failing build declares
  nothing (`Repeats.BuildsAreReusedWhenTheyPassed`).
- The ceiling is asked about an allow-list entry as if its text were a path. For
  an entry without character classes and without the any-depth prefix, under a
  ceiling of literals and `*`, that is exact (`Globs.CeilingTestIsExact`). It is
  wrong in three ways, each with an input and an exact condition. An entry with
  the prefix can cover paths the ceiling does not (`Ceilings.AnyDepthEntryEscapes`);
  it takes the question of its rest as well (`Globs.PlainEntryIsBoundedExactly`).
  An entry with a class is matched by its brackets and covers by its members
  (`Ceilings.ClassEntryEscapes`); it takes the question of every spelling, which
  `Globs.Bounded` asks and which is exact for every entry there is
  (`Globs.BoundedIsExact`). A ceiling that takes a `*` or `?` of an entry for a
  character of its own is deceived by entries of literals and stars
  (`Ceilings.QuestionMarkCeilingEscapes`), and these are exactly the ceilings that
  are (`Ceilings.CeilingIsSafeExactlyWhen`): of those without classes, the ones
  with a `?` (`Ceilings.QuestionMarksAreExactlyWhatFails`). A claim the rules accept
  turns either kind of entry into a submit outside the ceiling
  (`Submit.AnyDepthEntriesWiden`, `Submit.ClassEntriesWiden`). The whole-run
  theorems ask for a safe ceiling and bounded entries; `Submit.AllowListIsUnderExactlyWhenBounded`
  and `Branches.BuildsAgreeExactlyWhen` say that nothing less would do.
- The summary's acceptance rule is documented as the status rule, but does not
  look at the executable cohort, so it still counts a tree whose checks ran
  against a superseded build (`Replay.ReplayOutlivesTheBuild`), and it is asked
  without the manifest, so it never asks for the conditional requirement. Whatever
  the checks against a build found, the two tell one story exactly when on every
  tree some requirement could not pass at all, or status asks for no more and every
  requirement's last claim is a current one (`Replay.ReplayIsStatusExactlyWhen`);
  for a port whose code declares invariants, only when nothing can be accepted
  (`Replay.PropertiesPartTheReaders`).
- A floating-point variable with no elements under an unusable band fails with a
  bad count of zero; that is the one case where passing and a zero count differ
  (`Compare.PassesExactlyWhenNoneBad`).
- The comparator's denominator is floored at the smallest positive *normal*
  number of the type, which its comment calls the smallest positive number that
  never widens a comparison. It leaves the expected value alone exactly when that is
  normal (`Compare.FloorLeavesNormalsAlone`), and widens a comparison exactly against
  subnormals (`Compare.FloorWidensExactlySubnormals`).
- The analyzer blanks the literals of each physical line before it joins lines. That
  is what the language means exactly when no line leaves a literal open
  (`CodeParts.BlankingByLineIsExact`); two lines that continue one hide any text
  between it and the next literal, a RETURN included
  (`Statements.ContinuedLiteralsHide`).
- Distances are steps between encodings, and the two zeros are two encodings, so
  a distance across zero is one more than the numbers it passes
  (`Ulp.DistanceCountsValues`).
- The mutation scorer and the comparator tell the same story about every
  submission exactly when every captured answer is finite and has a usable band
  (`Mutation.AgreeOnEverySubmissionExactlyWhenJudged`).

## Model

| member | source | states |
|---|---|---|
| `Json.OnlyTheWholeObjectIsAText` | equivalent/ledger/store.py:84-99 | of all prefixes of a serialized object, only the whole is a JSON text, so a torn line cannot parse as some other claim (section 4 of RFC 8259) |
| `Json.DumpIsOneLine` | equivalent/ledger/store.py:135-140 | what the encoder writes is one valid value of printable ASCII, so no string content can introduce a line boundary (section 7 of RFC 8259) |
| `Json.StringsReadBack` | equivalent/ledger/store.py:135-140 | every string reads back from its ASCII escapes, surrogate pairs included, so no two are written alike (section 7 of RFC 8259) |
| `Json.DumpReadsBack` | equivalent/ledger/store.py:135-140 | every tree reads back from the value the encoder lays out, members and elements in order |
| `LedgerFile.ReadJsonl` | equivalent/ledger/store.py:84-99 | the reading loop parses every complete non-blank line or fails at the first bad one, and keeps an unfinished last line only if it parses |
| `LedgerFile.ReadsFailExactly` | equivalent/ledger/store.py:84-99 | a read fails exactly at a finished line that is neither blank nor a claim, or, with those in order, at an unfinished one that is JSON but no claim, and names the first such line |
| `LedgerFile.ParseStep` | equivalent/ledger/store.py:84-99 | a whole line in front of any text, torn or not, adds exactly its claim in front of what the text reads as |
| `LedgerFile.ReadingAPrefix` | equivalent/ledger/store.py:84-99 | reading any prefix of a file of claims never fails and gives exactly the claims whose whole object lies in the prefix |
| `LedgerFile.FinishedLinesAreRead` | equivalent/ledger/store.py:91-98 | a prefix that reaches the end of the k-th line holds at least k claims, so at most the claim in flight is left out |
| `LedgerFile.ReadingItAll` | equivalent/ledger/store.py:84-99 | a settled file reads back as all of its claims, in order |
| `LedgerFile.IdReadsBack` | equivalent/ledger/store.py:28-28 | a zero-padded id of any number of digits is read back as its number |
| `LedgerFile.IdsAreWritten` | equivalent/ledger/store.py:127-133 | an id is its number behind the prefix, filled with zeros to four digits and as wide as it needs beyond |
| `LedgerFile.NextClaimId` | equivalent/ledger/store.py:127-133 | the loop gives one more than the largest number used in any id of the right form, ignoring the others |
| `LedgerFile.NextIdIsFresh` | equivalent/ledger/store.py:127-133 | no claim of the ledger has the next id |
| `LedgerStore.WritersSeeEverything` | equivalent/ledger/store.py:143-162 | under the lock a read of the ledger succeeds and the id comes from the whole log, whatever other processes wrote |
| `LedgerStore.StepKeepsSound` | equivalent/ledger/store.py:135-162 | flushed plus pending text is exactly the recorded claims after every step of any process, and neither is ever taken back |
| `LedgerStore.RunsAreSound` | equivalent/ledger/store.py:135-162 | over any interleaving of begun appends and partial flushes no claim is lost, and every id the store gave is above all numbers before it |
| `LedgerStore.FilesOnlyGrow` | equivalent/ledger/store.py:135-162 | what a reader has seen stays a prefix of what any later reader sees |
| `LedgerStore.EveryReadIsAPrefix` | equivalent/ledger/store.py:84-120 | during any run an unlocked read of any prefix succeeds, is a prefix of the log, and holds every claim whose line is flushed |
| `LedgerStore.RecordedIdsAreUnique` | equivalent/ledger/store.py:143-162 | ids from `record_claim` strictly increase in log order, whatever is appended between them |
| `LedgerStore.Store.ReadClaims` | equivalent/ledger/store.py:101-120 | a cache hit answers what parsing the file as just stated would; a miss parses the file as read, and a failed parse leaves the cache alone |
| `LedgerReads.AnswersAreParses` | equivalent/ledger/store.py:101-120 | over any run of the file and any reads of one store during it, its own appends dropping the cache or not, each answer is a fresh parse of the file as one of its two calls found it |
| `LedgerReads.EveryAnswerIsCurrent` | equivalent/ledger/store.py:101-120 | so no read ever fails or answers with what was not recorded, and none leaves out a claim flushed before it asked |
| `LedgerReads.AnswersOnlyGrow` | equivalent/ledger/store.py:101-120 | and a later answer of a store continues every earlier one |
| `LedgerStore.Store.RecordClaim` | equivalent/ledger/store.py:143-162 | appends one line for a claim with the next id of the whole log, continuing the file's run, and drops the cache |
| `LedgerStore.Store.AppendClaim` | equivalent/ledger/store.py:135-141 | appends the given claim as one line, continuing the file's run, and drops the cache |
| `TornLines.TornThenWholeIsNoText` | equivalent/ledger/store.py:84-99 | whatever part of an object is written, the whole of it included, an object written right behind it makes no JSON text of the two |
| `TornLines.TornLinesFailOnceFollowed` | equivalent/ledger/store.py:84-99 | behind whole lines and a torn one every read succeeds as long as nothing follows, and fails exactly from the first line that does |
| `TornLines.DeadWritersBreakTheFile` | equivalent/ledger/store.py:135-140 | wherever in a run a writer dies, reads fail exactly when some of its line was flushed and another line has followed |
| `Workflow.Validate` | equivalent/ledger/workflow.py:339-371 | terminates on every finite catalog, and succeeds exactly when it is well formed and acyclic, which is when no refusal has its reason, then with an order in which prerequisites come first; every refusal is justified, and the cycle error is raised exactly on a well-formed cyclic catalog |
| `Workflow.CheckPrerequisites` | equivalent/ledger/workflow.py:350-354 | refuses exactly an action with a prerequisite nobody produces or another phase does, and says which of the two |
| `Workflow.SearchAll` | equivalent/ledger/workflow.py:357-371 | visiting every action succeeds exactly on an acyclic catalog |
| `Workflow.Search.Visit` | equivalent/ledger/workflow.py:357-368 | fails only where there is a cycle; otherwise the current path is what it was and the visited actions, still closed under prerequisites, include this one |
| `Workflow.Search.VisitAll` | equivalent/ledger/workflow.py:365-366 | the loop over prerequisites leaves the producer of each of them visited |
| `Workflow.TopologicalMeansAcyclic` | equivalent/ledger/workflow.py:355-371 | an order with prerequisites first is a certificate that no path returns to its start |
| `Catalog.CatalogIsSound` | equivalent/ledger/workflow.py:58-336 | the shipped catalog meets every condition of its own validation |
| `Catalog.PrerequisitesAreLower` | equivalent/ledger/workflow.py:58-336 | every prerequisite is of the same phase and rests on strictly fewer layers of evidence |
| `Catalog.FoundationIsBelowTheBuild` | equivalent/ledger/evidence.py:22-30 | what a foundation claim rests on is a foundation claim, so nothing exempt from the cohort rests on something that is not |
| `Catalog.ActionsAreOfOneKind` | equivalent/gateway/run.py:125-127 | an action rests on a build exactly when any one, equivalently each, of its predicates does |
| `Catalog.PortTimingStandsOn` | equivalent/ledger/workflow.py:58-183 | through its chain of prerequisites a timing of the port rests on exactly the requirements of a port that declares no invariants, and on the timing of the baseline |
| `Catalog.SpeedupStandsOn` | equivalent/ledger/workflow.py:201-216 | and a speedup on exactly every other check of a port but that of declared invariants |
| `Catalog.HarnessStandsOn` | equivalent/ledger/workflow.py:217-336 | the last checks of a harness rest on exactly its manifest, build, captures and replay |
| `Catalog.RequirementsAreListed` | equivalent/ledger/acceptance.py:52-94 | the projected requirement list of a phase holds exactly the predicates with its acceptance role, the conditional one when the code declares invariants |
| `Catalog.JudgedByAllBut` | equivalent/ledger/acceptance.py:52-94 | a harness is judged by every check of its phase, a port by all but its baseline timing and speedup, and by the declared invariants only when there are some |
| `Catalog.RequirementsAreClosed` | equivalent/ledger/acceptance.py:60-66 | whatever a requirement rests on is a requirement, but for the timing of the baseline under the program comparison |
| `Evidence.LatestIsNewest` | equivalent/ledger/store.py:219-240 | `latest` is the newest matching claim, the last appended of those of one second, and is absent exactly when nothing matches |
| `Evidence.LatestIsLast` | equivalent/ledger/store.py:237-240 | in a ledger whose clock never went back no matching claim comes after it |
| `Evidence.FindDuplicate` | equivalent/ledger/store.py:254-270 | the last claim of this type, subject, configuration and context, absent exactly when there is none |
| `Evidence.SubjectsOfTheCatalog` | equivalent/ledger/table.py:154-172 | the subject a claim of each type is filed against always resolves, to the baseline tree for the baseline timing and the current tree otherwise |
| `Evidence.RequirementStatus` | equivalent/ledger/status.py:75-125 | a row is about the predicate asked for, and present exactly when its latest current claim passed |
| `Evidence.LatestUncheckedExactly` | equivalent/ledger/store.py:242-252 | `latest_unchecked` is the newest claim of its type and subject whatever its context, the last appended of those of one second, absent exactly when there is none |
| `Evidence.RowsTellTheHistory` | equivalent/ledger/status.py:75-125 | a row names the newest current claim and whether it passed, or when none is current the newest of its kind ever filed, or nothing only when nothing of the kind was ever filed |
| `Evidence.StatusAndGateAgree` | equivalent/ledger/evidence.py:132-159 | status and the gate before a run judge every requirement by one set of materials |
| `Evidence.CurrentTree` | equivalent/ledger/status.py:25-43 | the loop a reader without a repository falls back to finds the guessed tree, if any claim is about one |
| `Evidence.GuessIsTheNewestTree` | equivalent/ledger/status.py:37-43 | no claim about a tree is newer than the guessed one's, nor as new and later in the file |
| `Evidence.ComputeStatus` | equivalent/ledger/status.py:128-204 | on the tree its caller names or else the guessed one, one row a requirement in order, and accepted exactly when the context is verified and every requirement is currently met; without either, nothing is accepted |
| `Evidence.AcceptedExactly` | equivalent/ledger/status.py:193-195 | a tree is accepted exactly when its context is vouched for and the newest current claim of every requirement passed |
| `Replay.Tabulate` | equivalent/ledger/status.py:223-228 | the table built claim by claim holds the verdict of the last matching claim of each type and subject |
| `Replay.AcceptedBy` | equivalent/ledger/status.py:207-240 | true exactly when some tree the current claims mention has a pass as the last claim of every requirement |
| `Replay.FinishingClaim` | equivalent/cli/session.py:406-411 | the first claim that leaves the list up to it accepted, if any does |
| `Replay.ReplayIsStatus` | equivalent/ledger/status.py:210-215 | with the clock in order and one list of requirements the replay finishes a tree exactly when status accepts it, if each requirement's last claim on it is a current one |
| `Replay.ReplayIsStatusExactlyWhen` | equivalent/cli/session.py:404-411 | with the clock in order, whatever the checks against a build found, the summary accepts some tree exactly when status accepts one, if and only if on every tree some requirement could not pass, or status asks for no more than the summary and every requirement's last claim is a current one |
| `Replay.PropertiesPartTheReaders` | equivalent/cli/session.py:404-411 | for a port whose code declares invariants they agree whatever the checks found if and only if the summary accepts nothing whatever they found |
| `Replay.ReplayOutlivesTheBuild` | equivalent/ledger/status.py:210-215 | in either phase a list of claims exists that the replay accepts while status accepts no tree, after the build was superseded |
| `Gateway.HeldRecordsNameExecutables` | equivalent/gateway/verification.py:89-111 | records the builder confirms declare at least one executable, so a held build is never an empty cohort |
| `Gateway.HeldExecutablesAreKept` | equivalent/gateway/verification.py:105-110 | for each executable of confirmed records the builder keeps a verified file with its bytes under the run's executor |
| `Gateway.RestoredBuildsAreHeld` | equivalent/gateway/run.py:225-236 | past a restore the builder holds records of nothing but the current build's executables, and of all but those the rebuild measured besides |
| `Gateway.NothingMissingExactly` | equivalent/gateway/run.py:238-254 | the list of what is missing is empty exactly when every prerequisite is met in its own context and a check that rests on a build has a current one |
| `Gateway.RestoringKeepsTheRest` | equivalent/gateway/run.py:204-236 | restoring a build moves only the builder, and changes no refusal |
| `Gateway.OnlyDispatchAppends` | equivalent/gateway/run.py:195-202 | the ledger changes only by appending the claims of a checked answer, past the gate, and nothing else of the context moves |
| `RunService.RecordsStillHeld` | equivalent/gateway/verification.py:89-111 | the nested loops confirm exactly that every file of every record is retained, verified, under the executor's identity, and refuse no records at all |
| `RunService.MissingRows` | equivalent/gateway/run.py:238-254 | the loop grows exactly the refusal of the specification, the build's row first |
| `RunService.FiledAlready` | equivalent/gateway/run.py:256-270 | the loop finds the specification's duplicates, or none at the first predicate without one or when the build is not held |
| `RunService.Service.RestoreBuild` | equivalent/gateway/run.py:204-236 | restores, stops or goes on as the specification, moving only the builder |
| `RunService.Service.ResultsAcceptable` | equivalent/gateway/run.py:309-325 | all results are looked at before any is recorded: kept builds, known subjects, and current executables |
| `RunService.Service.RecordAll` | equivalent/gateway/run.py:358-361 | claims recorded one by one, each with the next free id, are the specification's |
| `RunService.Service.DispatchAndRecord` | equivalent/gateway/run.py:342-373 | leaves the ledger, the builder and the answer of the specification |
| `RunService.Service.Execute` | equivalent/gateway/run.py:195-202 | POST /run refines the specification and leaves exactly the one log line that goes with its answer, none when it answers 400 or 503 |
| `Answers.HeldExactly` | equivalent/gateway/verification.py:89-111 | records are held exactly when there are some, and of each the builder has a good report under the run's identity with every target's executable and runtime files, by path, bytes and size, verified |
| `Answers.RestoringExactly` | equivalent/gateway/run.py:204-236 | a request stops at its build exactly when that is current and not held, with 503 when it declares nothing, and with an error when it cannot be rebuilt or the rebuild is not a pass with the same executables, held |
| `Answers.AnswersExactly` | equivalent/gateway/run.py:195-373 | every answer by its exact condition: refused exactly when the build stands and something is wanting, with a row for each wanting predicate in order; from the ledger exactly when nothing is wanting and each emitted predicate was answered for the same configuration, with the last such claims; filed exactly when the check answered and each result is acceptable, with their claims field by field; an error otherwise |
| `Answers.LeavesExactly` | equivalent/gateway/run.py:195-373 | the claims a request leaves are the old ones and what it answers as filed, and the builder is what the rebuild or the check left, exactly when one was asked |
| `Answers.LoggedAsAnswered` | equivalent/gateway/run.py:149-157 | the log has one line for each answer but 400 and 503: its kind, the claim when there is just one, and what a refusal was missing |
| `Answers.BinariesAre` | equivalent/gateway/run.py:309-340 | what a result adds to the materials of its claim is each digest it measured and each file of the records it came with |
| `GatewayRuns.FiledClaimIsSound` | equivalent/gateway/run.py:327-340 | a claim filed past the gate is backed by earlier passing claims for each prerequisite, names its build's executables, and refers to earlier observations only |
| `GatewayRuns.PostKeepsInvariant` | equivalent/gateway/run.py:195-202 | a request with any answers keeps the ledger's invariant |
| `GatewayRuns.InvariantHolds` | equivalent/gateway/run.py:195-373 | in every reachable ledger times and ids are in order and every claim is sound under what it was filed under |
| `GatewayRuns.LedgersOnlyGrow` | equivalent/gateway/run.py:335-340 | over every run claims are only appended |
| `Guarantees.EveryClaimRestsOnAChain` | equivalent/gateway/run.py:238-254 | each claim of a reachable ledger, and recursively each it rests on, was filed by the action its predicate belongs to, after passing claims for all prerequisites of that action, on the right subject, carrying its context |
| `Guarantees.EverythingBelowPassed` | equivalent/gateway/run.py:238-254 | whatever a claim's predicate rests on, through any number of others, passed before it, on the same tree unless it is the timing of the baseline |
| `Guarantees.TimedPortsPassedEverything` | equivalent/ledger/workflow.py:153-216 | so a port that was ever timed had passed everything its acceptance asks for but the declared invariants, on that very tree |
| `Guarantees.AcceptedTreesAreComplete` | equivalent/ledger/status.py:178-195 | an accepted tree has a current passing claim on a complete chain for every requirement, and for everything they rest on but the baseline timing |
| `Guarantees.AnswersAboutTheirActionExactly` | equivalent/gateway/run.py:309-340 | of the answers the results check accepts, exactly those on a predicate of the action, on its subject and with no sentinel among the inputs leave a claim about what was asked |
| `Guarantees.AnswersBeyondTheActionEscape` | equivalent/gateway/run.py:309-325 | the results check does not hold an answer to its action: one about another predicate is filed on an empty ledger |
| `Guarantees.CohortsAreExact` | equivalent/gateway/run.py:309-340 | every passing dependent claim, unless declared to measure others, names exactly the executables of one earlier passing build of its own tree, restored builds included |
| `Guarantees.RestoringIsTransparent` | equivalent/gateway/run.py:204-236 | a request whose lost build is restored is answered and filed as if the builder had held it all along |
| `Guarantees.AnsweredFromTheLedger` | equivalent/gateway/run.py:272-284 | an answer from the ledger passed the gate and gives one claim an emitted predicate |
| `Guarantees.SpeedupsAreRetired` | equivalent/ledger/evidence.py:79-129 | a speedup answered from the ledger was filed after every current observation, so a newer timing of either kind retires it |
| `Guarantees.SpeedupsNeedTheirTimings` | equivalent/ledger/evidence.py:79-129 | no speedup is current without current passing timings of both trees, and it names the latest of each |
| `Guarantees.ReferencesGoBack` | equivalent/components/timing.py:137-137 | a claim that names an observation was filed after it |
| `Repeats.RepeatedExactlyWhen` | equivalent/gateway/run.py:195-284 | repeating a deterministic request appends nothing and returns the same claims exactly when the build it rests on is held or restored, every emitted predicate was answered, and a build's stored records are held |
| `Repeats.BuildsAreReusedWhenTheyPassed` | equivalent/gateway/run.py:268-269 | with faithful records and an unchanged builder a build is reused exactly when it passed |
| `Repeats.FilingKeepsTheGate` | equivalent/gateway/run.py:129-138 | what an action files changes neither what its prerequisites are met by nor the build it rests on |
| `Progress.LowestIsFiled` | equivalent/gateway/run.py:238-284 | the action of a lowest unmet predicate is neither stopped, refused nor answered from the ledger |
| `Progress.LessIsUnmet` | equivalent/ledger/evidence.py:66-76 | a passing run leaves strictly fewer needed predicates unmet: nothing that was met is lost, not even to a new build |
| `Progress.OneRunGetsCloser` | equivalent/gateway/run.py:195-202 | from a ready state such a run files its claims, shrinks what is unmet, and leaves a ready state |
| `Progress.CooperationIsPossible` | equivalent/gateway/run.py:342-373 | passing answers of the kind asked for exist for every such action |
| `Progress.AcceptanceIsReached` | equivalent/gateway/run.py:238-284 | from every ready state there is a run to acceptance of at most as many steps as predicates unmet |
| `Progress.EveryAdvanceCounts` | equivalent/ledger/workflow.py:58-336 | no choice of lowest actions and passing answers delays it: a run that used up its steps is accepted |
| `Progress.FreshRegionsCanBeAccepted` | equivalent/ledger/status.py:193-195 | from an empty ledger with its backends there is a run of the whole system that ends accepted |
| `Globs.NormalizePath` | equivalent/ledger/subjects.py:66-73 | the loop strips every leading `./` after backslashes are turned |
| `Globs.NormalizeIsIdempotent` | equivalent/ledger/subjects.py:66-73 | a normalized path has no backslash and no `./` in front, and normalizing it again changes nothing |
| `Globs.RespellingsAgree` | equivalent/ledger/subjects.py:66-73 | spellings with `./` or backslashes name one path |
| `Globs.ClassEndExactly` | equivalent/ledger/subjects.py:98-103 | a character class ends at the first bracket that is not its first member, behind the `!` that negates it |
| `Globs.ClassesRead` | equivalent/ledger/subjects.py:98-103 | a class of characters holds those, a range what lies between its ends, and a `!` takes the complement |
| `Globs.MatchIsTransitive` | equivalent/ledger/subjects.py:98-103 | what matches a pattern with its classes fixed to some members matches every pattern that matches that spelling as a string and takes no wildcard for a character |
| `Globs.BoundedIsExact` | equivalent/region/current.py:92-96 | under safe ceiling patterns an entry of any form, classes included, covers nothing outside if and only if the ceiling matches each spelling of it that is a path |
| `Globs.PlainEntryIsBoundedExactly` | equivalent/ledger/subjects.py:100-102 | for an entry without classes that is two questions: the entry, and behind an any-depth prefix the rest, each matched as a path where it can be spelled as one |
| `Globs.CeilingTestIsExact` | equivalent/region/current.py:92-96 | for entries without classes or the prefix, spelled as paths, the ceiling test as written holds if and only if everything the entry covers is under the ceiling |
| `Ceilings.CeilingIsSafeExactlyWhen` | equivalent/strategy/schema.py:74-84 | a ceiling that matches an ordinary path is sound for every entry without classes or prefix if and only if it takes no wildcard for a character |
| `Ceilings.PlainIsSafeExactly` | equivalent/ledger/subjects.py:98-103 | without classes, the ceilings that take no wildcard for a character are those without `?` |
| `Ceilings.QuestionMarksAreExactlyWhatFails` | equivalent/strategy/schema.py:74-84 | so a ceiling of literals, `*` and `?` that spells a normal path, also without any one of its question marks, is sound if and only if it has none |
| `Ceilings.AnyDepthEntryEscapes` | equivalent/region/current.py:92-96 | an entry with the prefix passes a ceiling and covers a path the ceiling does not match |
| `Ceilings.ClassEntryEscapes` | equivalent/region/current.py:92-96 | so does an entry with a character class |
| `Ceilings.QuestionMarkCeilingEscapes` | equivalent/ledger/subjects.py:98-103 | a ceiling with `?` matches an entry that covers more than the ceiling |
| `Submit.NewestWideningIsNewest` | equivalent/region/current.py:87-101 | the allow-list is taken from the newest acceptable analyzer claim, the last appended of one second |
| `Submit.WidensExactly` | equivalent/region/current.py:87-97 | a claim widens the list exactly when it is a passing analyzer claim of the current context that lists the specification and nothing the ceiling does not match |
| `Submit.AllowListExactly` | equivalent/region/current.py:64-101 | path by path: while onboarding the ceiling decides; in a port the newest widening claim's entries do, or, as long as there is none, the specification's own pattern |
| `Submit.AllowListsStayUnderTheCeiling` | equivalent/region/current.py:64-101 | whatever claims with bounded entries the ledger holds, the allow-list of either phase covers only paths under the safe ceiling or the specification |
| `Submit.AllowListIsUnderExactlyWhenBounded` | equivalent/region/current.py:87-97 | an allow-list stays under a safe ceiling if and only if each of its entries is bounded |
| `Submit.DeceivedCeilingsWiden` | equivalent/region/current.py:87-101 | any entry a ceiling pattern is deceived by gives a claim the rules accept that lets a path outside the ceiling and the specification through |
| `Submit.AnyDepthEntriesWiden` | equivalent/region/current.py:87-101 | under a safe ceiling an entry with the any-depth prefix does so |
| `Submit.ClassEntriesWiden` | equivalent/region/current.py:87-101 | and so does one with a character class |
| `Submit.Overlay` | equivalent/gateway/submit.py:100-106 | the loop applies exactly the allowed files and rejects the others in order |
| `Submit.AllowedExactly` | equivalent/gateway/submit.py:100-106 | every working file is applied with its content or rejected, by the allow-list and nothing else |
| `Submit.ConstructedExactly` | equivalent/gateway/submit.py:108-113 | path by path the tree is the working file where allowed, and the baseline everywhere else, frozen files and files left out included |
| `Submit.Repository.UpdateRef` | equivalent/gateway/submit.py:82-87 | the ref moves exactly when it is still what was seen |
| `Submit.Repository.CommitTreeIfChanged` | equivalent/gateway/submit.py:64-88 | leaves the branch and answers as the function `Commits`, in one read of the tip and at most one swap |
| `Submit.CommitsExactly` | equivalent/gateway/submit.py:64-88 | a submit commits exactly when its tree is new and the branch is still the tip it read; is unchanged exactly when the tree is its parent's and the branch was there or is still missing, which then is created; and otherwise lost a race and moves nothing |
| `Submit.Repository.Submit` | equivalent/gateway/submit.py:91-124 | commits the overlay of the allowed files, and reports exactly what was rejected, frozen and not sent |
| `Branches.SwapsKeepTheLine` | equivalent/gateway/submit.py:78-88 | a swap that lands adds one commit on the very tip it replaces, and any other leaves the history as it was |
| `Branches.TheBranchIsOneChain` | equivalent/gateway/submit.py:64-88 | under any interleaving the branch is the baseline and the successful commits in the order they landed, each on the one before |
| `Branches.NothingLandedIsLost` | equivalent/gateway/submit.py:79-87 | a commit reported as successful never leaves the branch |
| `Branches.StaleTipsNeverLand` | equivalent/gateway/submit.py:79-87 | a submit whose tip the branch has left changes nothing |
| `Branches.CommitsStayUnderTheCeiling` | equivalent/gateway/submit.py:91-116 | over every run under a safe ceiling, whatever was submitted and whatever bounded entries were claimed before, no commit of the branch changes, drops or adds a path outside the ceiling and the specification |
| `Branches.BuildsAgreeExactlyWhen` | equivalent/gateway/submit.py:100-113 | the trees an allow-list lets submits build all agree with the baseline outside if and only if the allow-list covers nothing outside |
| `Branches.BuildsExactly` | equivalent/gateway/submit.py:91-113 | the tree a submit carries to its swap is, path by path, its working file where the allow-list of its claims covers it and the baseline elsewhere |
| `Branches.LandsExactlyWhen` | equivalent/gateway/submit.py:64-88 | a swap adds its commit to the branch exactly when its tree is new and nothing moved the branch since its tip was read |
| `Branches.SubmitsLandExactlyWhen` | equivalent/gateway/submit.py:64-88 | over any run a submit that reads and later swaps lands exactly when its tree is new and in between no commit landed and no branch was created |
| `WholeRegion.InvariantHolds` | equivalent/region/current.py:137-158 | over every run of submits, edits and requests together the ledger's current tree is the branch's, and both invariants hold |
| `WholeRegion.FrozenIsCurrent` | equivalent/region/current.py:137-158 | in every state the frozen subject names exactly the baseline files that the allow-list of the current claims and context does not cover |
| `WholeRegion.AcceptedPortsAreReviewed` | equivalent/ledger/status.py:136-156 | when a region is accepted, every requirement was passed on exactly the files the branch holds, on complete chains, and those files are the baseline's outside a safe ceiling, under bounded entries, and the specification |
| `FileSets.HashFiles` | equivalent/ledger/subjects.py:106-128 | the loop feeds exactly the stream of the sorted, normalized, length-delimited records, and refuses repeated paths |
| `FileSets.StreamReadsBack` | equivalent/ledger/subjects.py:114-128 | the stream decodes back to the records it was made from |
| `FileSets.HashInputNamesTheContents` | equivalent/ledger/subjects.py:106-128 | two file lists feed one stream if and only if they hold the same contents at the same normalized paths, in any order and spelling |
| `FileSets.RefusedExactlyWhen` | equivalent/ledger/subjects.py:116-119 | a list is refused exactly when two of its paths normalize to one |
| `Ulp.MappedBitsIsMapped` | equivalent/capture/compare.py:56-62 | complementing negatives and setting the sign of the others is the arithmetic map, for every width |
| `Ulp.MappedIsABijection` | equivalent/capture/compare.py:59-62 | the map is a bijection of the encodings of its width |
| `Ulp.MappedIncreasesWithValue` | equivalent/capture/compare.py:59-62 | it is strictly increasing in the decoded real value over all finite encodings, the two zeros being neighbours (section 3.4 of IEEE 754-2019) |
| `Ulp.BetweenFiniteIsFinite` | equivalent/capture/compare.py:59-62 | every encoding mapped between two finite ones is finite |
| `Ulp.DistanceIsAMetric` | equivalent/capture/compare.py:63-65 | the difference of the mapped values is a metric on encodings |
| `Ulp.DistanceFits` | equivalent/capture/compare.py:41-44 | it never wraps in the unsigned type of the width |
| `Ulp.DistanceCountsEncodings` | equivalent/capture/compare.py:47-65 | it is the number of encodings passed, all of them finite |
| `Ulp.DistanceCountsValues` | equivalent/capture/compare.py:47-65 | counted in numbers it is one less across zero, and equal otherwise |
| `Ulp.UlpDiff` | equivalent/capture/compare.py:47-65 | refuses every size but 4 and 8 bytes, and gives each pair of elements its distance |
| `Compare.PassingMeansEveryElement` | equivalent/capture/compare.py:117-163 | a lined-up floating-point variable under a valid band passes exactly when every element is finite and within one of the three bands |
| `Compare.AcceptableExactly` | equivalent/capture/compare.py:117-148 | an element is acceptable exactly when both numbers are finite and the error is within the absolute bound, or its ratio to the floored magnitude within the relative one, or the distance within so many steps |
| `Compare.BandIsUsableExactly` | equivalent/capture/compare.py:78-90 | a band is usable exactly when it is a mapping of two finite, nonnegative numbers and a nonnegative whole one, booleans being none; otherwise the first field at fault is named |
| `Compare.FloorLeavesNormalsAlone` | equivalent/capture/compare.py:136-139 | the floored denominator is the expected value's magnitude exactly when that value is normal |
| `Compare.FloorWidensExactlySubnormals` | equivalent/capture/compare.py:136-139 | against a finite expected value that is not zero, some finite answer's relative error is taken smaller than it is exactly when the value is subnormal |
| `Compare.PassingMeansEqual` | equivalent/capture/compare.py:111-115 | any other variable passes exactly when the arrays are equal |
| `Compare.PassesExactlyWhenNoneBad` | equivalent/capture/compare.py:93-166 | passing and a bad count of zero coincide exactly outside the empty variable with an unusable band |
| `Compare.PassesExactly` | equivalent/capture/compare.py:93-166 | for arrays of any shape and type: a variable passes exactly when shape and type are equal and, for the floating-point ones, the band is usable and every element acceptable, for the others every element equal |
| `Compare.ReportsExactly` | equivalent/capture/compare.py:93-166 | a report has counts exactly when the arrays could be lined up, and then counts the elements and exactly the bad ones; it raises exactly for a type without a distance |
| `Compare.AgreesWithItself` | equivalent/capture/compare.py:93-166 | an array passes against itself exactly when the policy can judge it |
| `Compare.CompareCase` | equivalent/capture/compare.py:169-194 | every expected variable is judged, none skipped; it raises what the first to raise does, passes exactly when all pass, and extras decide nothing |
| `Compare.CasePassesExactly` | equivalent/capture/compare.py:169-194 | a case passes exactly when every expected variable was submitted with its own shape and type and agrees under its own band |
| `Compare.CaseRaisesExactly` | equivalent/capture/compare.py:180-190 | it raises exactly when a submitted floating-point variable has no band, which the error names, or a size without a distance |
| `Mutation.Classify` | services/builder/mutate.py:42-71 | raises exactly when a changed output does before any is missing; else killed exactly when some output was noticed, equivalent exactly when every output is bitwise identical, a gap exactly when some changed and none was noticed; and names the first missing output, or all those outside their band, or all changed ones, in order |
| `Mutation.KilledExactlyWhenTheCaseFails` | services/builder/mutate.py:42-71 | over answers the policy can judge neither reader raises and a mutant is killed exactly when the comparator fails the case |
| `Mutation.AgreeOnEverySubmissionExactlyWhenJudged` | services/builder/mutate.py:45-54 | the two agree on every submission if and only if every captured answer is judgeable |
| `CodeParts.ClosedLinesAgree` | equivalent/analyzers/check_sese.py:55-61 | on a line that closes its literals the pattern and the cut give what a scan with a quote state gives |
| `CodeParts.BlankingByLineIsExact` | equivalent/analyzers/check_sese.py:55-61 | blanking line by line gives the code of a scan that carries open literals from line to line if and only if no line leaves one open (section 6.3.2.4 of ISO/IEC 1539-1:2018) |
| `CodeParts.ContinuedLiteralsJoin` | equivalent/analyzers/check_sese.py:55-61 | that scan is right about continued literals: two lines that continue one have the code of their text joined |
| `Statements.LogicalStatements` | equivalent/analyzers/check_sese.py:71-113 | the loop with its pending statement yields exactly the joined statements, each shown with its physical lines |
| `Statements.LogicalIsTrue` | equivalent/analyzers/check_sese.py:71-113 | where no line leaves a literal open these are the statements of the language |
| `Statements.ContinuedLiteralsHide` | equivalent/analyzers/check_sese.py:71-78 | two lines that continue a literal read as one and the same statement whatever text stands between it and the next literal, while the language has that text in it |
| `Statements.LogicalStatementsPartitionTheCode` | equivalent/analyzers/check_sese.py:71-113 | logical statements are disjoint, increasing, cover every line of code, and each is a maximal continued run holding its joined text (section 6.3.2.4 of ISO/IEC 1539-1:2018) |
| `Procedures.DepthCountIsAStack` | equivalent/analyzers/check_sese.py:124-131 | counting depth pairs an opening with an END exactly when a stack-based matcher does |
| `Procedures.FindProcedures` | equivalent/analyzers/check_sese.py:116-144 | the search yields exactly the procedures of the specification |
| `Procedures.EndsComeFirst` | equivalent/analyzers/check_sese.py:116-131 | a statement that reads as an END counts as one, whatever else it reads as |
| `Procedures.ProceduresAreTheAgreeingPairs` | equivalent/analyzers/check_sese.py:116-144 | a procedure is found exactly for a matched pair of one kind whose END gives no name, an empty one or the procedure's own, with the lines of those two statements |
| `Procedures.LineRangesNestOrAreDisjoint` | equivalent/analyzers/check_sese.py:116-144 | two procedures' line ranges are nested or disjoint |
| `Sese.Scan` | equivalent/analyzers/check_sese.py:147-173 | every keyword of every selected statement is a violation or the excused exit, in order |
| `Sese.FindingsExactly` | equivalent/analyzers/check_sese.py:147-173 | a finding is a keyword of a selected statement at its first line, a note when it is the procedure's exit and a violation when not, and each such keyword is found |
| `Sese.EveryKeywordIsFoundOnce` | equivalent/analyzers/check_sese.py:147-173 | violations and notes together are as many as the keywords scanned |
| `Sese.ResolvesExactly` | equivalent/analyzers/check_sese.py:329-356 | a declared range resolves exactly when its lines are lines of its file and exactly one procedure there has its name |
| `Sese.Analyze` | equivalent/analyzers/check_sese.py:309-383 | passes exactly when no opaque source is a link or other than a regular file, and every declared range resolves to one procedure and its scan finds no violation; reports all irregular and missing files, else all unresolved ranges, else the findings of every range in order |
| `Sese.SelectionIsTheProcedure` | equivalent/analyzers/check_sese.py:354-363 | a resolved range selects exactly the statements from the procedure's first to its END, or to the one before it when the declared range stops there |
| `Sese.RangePassesExactly` | equivalent/analyzers/check_sese.py:147-173 | a resolved range passes exactly when no scanned statement holds a forbidden keyword but the one RETURN right before END |
| `Sese.NoLineEscapes` | equivalent/analyzers/check_sese.py:325-383 | in a passing analysis every line of code of a procedure before its END belongs to one scanned statement that holds nothing forbidden |
| `Sese.NoTrueLineEscapes` | equivalent/analyzers/check_sese.py:325-383 | where no line leaves a literal open that is said of every line of code the language has there |
| `Session.PairingIsAPartialInjection` | equivalent/cli/session.py:309-333 | no call is paired twice; pairs by id agree on the id; pairs by position increase in both logs and agree by name |
| `Session.UnpairedForAReason` | equivalent/cli/session.py:314-333 | a line is left unpaired only when its call is missing or taken, or the next free call is not its own |
| `Session.PositionsExactly` | equivalent/cli/session.py:314-333 | a line without an id is compared with the first call still free behind all calls that earlier lines were placed at; it is paired with that call if it can have made it, and with none if not, and then that call stays the next |
| `Session.SortIsStable` | equivalent/cli/session.py:368-370 | rows are in time order and those of one time keep their order |
| `Session.NothingLostNothingTwice` | equivalent/cli/session.py:335-375 | every event and every request line is in exactly one row |
| `Session.TimelineTellsTheLogs` | equivalent/cli/session.py:356-370 | each row carries its event's time and request, or, without an event, the time of the unpaired request line it is for |
| `Session.VerdictsAreTheLedgers` | equivalent/cli/session.py:335-375 | a row shows a verdict exactly when its request line names a claim the ledger holds, and then that claim's |
| `Session.Join` | equivalent/cli/session.py:287-375 | the two passes and the timeline loops yield the rows of that pairing in the logs' own time order, each telling its event and its line, with the ledger's verdict on its line's claim, and report exactly the unpaired calls and lines, in order |

## Left out

- HTTP, process and container edges, and the individual components: the builder is a map from attempts to what it retains, a check any answer that honours its contract; a transport failure, and the identity and pin checks that answer 503 before a request is resolved, are not events.
- Git's plumbing and the file system: a commit is its parent, tree and message, the ref a cell with compare-and-swap, a file lock an atomic section; a git tree's file modes are not part of this model.
- SHA-256, YAML, NPY and base64 bytes, and the regular expressions of the analyzer and of `is_digest`.
- The wire layout of build details (`decode_build_records`): a claim's detail holds the records it decodes to, none when it is malformed.
- Compare.PassingMeansEveryElement: the absolute and relative metrics are taken over the reals, where the repository rounds them to doubles; the distance in units in the last place is exact. The reported maxima and the count of elements that are not finite are not modelled.
- Case folding beyond ASCII letters; a character class is read as the standard library translates it, backward ranges dropped.
- Universal-newline translation when the ledger file is read as text, non-ASCII digits and a trailing newline in claim ids.
- Threads that share one store object: a store's cache is used by one thread at a time, while the file is shared by any number of stores.
- `_leaf_path`, transcript parsing, summaries' counts and the formatting of elapsed time.
- The wording of refusals, problems and notes, and the analyzer's notes that opaque sources were not read.
- Manifest and strategy field validation, `check_config`, `spec_problems`, and promotion's file copying: single-branch facts.
- The element order `_flat` imposes: arrays arrive as sequences already in that order.
