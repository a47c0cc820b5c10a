# Mecone: verified model

Mecone drives an HTTP proxy from both sides: a client sends the requests of a test corpus through the proxy, a
scriptable origin answers and logs them, and the client judges what it saw. This project models the parts of it
that are hard to get right and proves what they are for. `dafny verify dfyconfig.toml` checks everything.

| file | models |
|---|---|
| `RequiresGraph.dfy`, `Corpus.dfy` | the `requires` graph: three-colour cycle check, selection by mark and recurse, adding tests |
| `Scheduler.dfy`, `SchedulerTheorems.dfy` | one goroutine per (test, protocol) job as a transition system with a semaphore and cancellation |
| `StoredResults.dfy` | what each job's stored result says, and why |
| `CyclicRequires.dfy` | what the scheduler does with tests that require each other |
| `StepDriver.dfy`, `Exercising.dfy` | sending a test's steps in groups; upload, send, fetch and judge |
| `OriginStore.dfy`, `Handlers.dfy` | the script store and its lazy sweep; request handlers and log readers as a transition system |
| `Requests.dfy` | the way of a request through the origin, and what the log tells about it |
| `LogOrder.dfy` | when an entry's log is in arrival order |
| `LogSoundness.dfy` | the origin logs before it answers, and what that means for judging |
| `Protocol.dfy`, `Judge.dfy` | scripts and logs; expectations, failures and the verdict |
| `EntityTags.dfy` | the entity-tag scanner and the 304 decision |
| `Templates.dfy`, `Validation.dfy`, `Scripting.dfy` | date templates, validation of definitions, translation to a script |
| `Scores.dfy`, `Baseline.dfy`, `Wrap.dfy` | weighted scores, comparison with a baseline, word wrap |
| `Text.dfy`, `TestDef.dfy`, `Wrappers.dfy` | strings, the schema, options and results |

## How things are modelled

- Concurrency is a transition system whose steps are the program's atomic actions: channel operations for the
  scheduler, critical sections for the origin. Theorems quantify over every finite run.
- The store and its entries are classes whose methods are proved against functions on values, and the handlers'
  transition system uses those same functions. `Handlers.StepRefinesStore` ties the two views of the sweep together.
- Loops are methods proved against a specification; the results about a loop are lemmas about its specification.
- Library behaviour is a parameter: regular expressions, `path.Match`, duration parsing, HTTP-date formatting and
  parsing, field-name canonicalization, protocol names, citations and the text of a failure. The only assumption made
  about any of it is `Templates.PlainDates`: a formatted date is not empty and holds neither `$` nor `{`, as the
  HTTP-date format of section 5.6.7 of RFC 9110 guarantees.
- What an exercised test yields, and everything a proxy does, is arbitrary.
- Instants and durations are integers of nanoseconds; the difference of two instants saturates as `time.Time.Sub` does.
- Strings are sequences of characters. Go's byte-wise comparison of UTF-8 strings is comparison by code point.

Where code and documents differ the model follows the code. Section 13.1.2 of RFC 9110 lets `If-None-Match: *` match
any current representation; the origin answers 304 to it only when the response has an entity tag
(`EntityTags.StarNeedsTag`). pkg/protocol/log.go:41 speaks of arrival order, and pkg/protocol/protocol.go:42 says that
the sequence number is that order, but a number is issued and the request recorded in two critical sections, so the log
can be in another order (`LogOrder.ArrivalOrderCanBeReversed`) and a step is then judged by a later request than its
first. The order is safe exactly as long as no number is issued while another handler of the entry is between the two
and the log has room for both (`LogOrder.LogOrderIsExact`). The age bound of the sweep holds exactly when no
upload's clock is behind the last sweep by more than the TTL (`OriginStore.TimelyIsExact`).

## Model

| member | source | states |
|---|---|---|
| RequiresGraph.AcyclicHasRank | pkg/corpus/corpus.go:255-296 | any finite acyclic `requires` graph has a rank that falls along every requirement |
| RequiresGraph.RankedIsAcyclic | pkg/corpus/corpus.go:255-296 | a graph with such a rank has no cycle |
| Corpus.Corpus.AddTest | pkg/corpus/corpus.go:233-253 | a test is added, placed and cited, exactly when it is valid, has refs of its own or from its group and a new ID; otherwise nothing changes and the error is the first reason that applies, with its details |
| Corpus.Corpus.UnknownRequires | pkg/corpus/corpus.go:268-278 | reports every requirement that names no test, and nothing else |
| Corpus.Corpus.Visit | pkg/corpus/corpus.go:280-296 | the depth-first search terminates on any graph, extends a post-order of finished tests, and names only tests on a cycle |
| Corpus.Corpus.CheckRequires | pkg/corpus/corpus.go:255-266 | no error exactly when every required ID is known and the graph is acyclic, which yields a rank; a test named in a cycle error lies on a cycle |
| Corpus.Corpus.Include | pkg/corpus/corpus.go:367-375 | marks the test and only tests reachable from it, and everything newly marked has its requirements marked |
| Corpus.Corpus.Choose | pkg/corpus/corpus.go:357-365 | the chosen IDs are exactly those some matching test reaches through `requires` |
| Corpus.Matches | pkg/corpus/corpus.go:298-319 | a test matches exactly when each field that is not empty has its suite, its level or a pattern of its ID |
| Corpus.WantedIsLeast | pkg/corpus/corpus.go:321-323 | any set with the matching tests that is closed under `requires` contains the selection |
| Corpus.Corpus.Select | pkg/corpus/corpus.go:321-355 | succeeds exactly for a usable filter that matches some test, and then returns the chosen tests in load order; otherwise the error is the first unknown suite, else the first malformed pattern, else that nothing matches |
| Corpus.KeepInLoadOrder | pkg/corpus/corpus.go:327-332 | the selection is the corpus restricted to the chosen tests: load order kept, no duplicates |
| Corpus.SelectionIsRunnable | pkg/corpus/corpus.go:321-375 | a selection from a checked corpus has unique IDs, contains all its requirements and is acyclic |
| Scheduler.MakePlan | pkg/client/runner.go:160-171 | jobs are laid out protocol-major and test-minor, and the index finds the job of each key |
| Scheduler.WithDefaults | pkg/client/runner.go:96-107 | what the caller chose is kept; without it the protocol is h1 and the concurrency 8 |
| Scheduler.Prepare | pkg/client/runner.go:96-107 | whatever the options, running starts from the planned jobs, a correct index and a semaphore with at least one slot, and keeps what the caller chose |
| Scheduler.LayoutAt | pkg/client/runner.go:160-171 | protocol `pi` and test `ti` are job `pi * tests + ti` |
| Scheduler.RunKeepsInv | pkg/client/runner.go:173-221 | in every run semaphore tokens equal exercising jobs, and a job past its wait has every requirement closed with a pass |
| SchedulerTheorems.DeadlockFree | pkg/client/runner.go:173-221 | for acyclic tests and any concurrency of at least one, every reachable state with an unfinished job has an enabled step other than cancelling |
| CyclicRequires.CircleIsNeverExercised | pkg/client/runner.go:200-210 | in every run, cancelled or not, a job that requires another of a circle, wherever in its list, waits or is skipped and never wants a slot |
| CyclicRequires.CircleNeverFinishes | pkg/client/runner.go:200-210 | with nothing else to skip it for, no job of a circle gets past its requirement in the circle, so such a run never finishes |
| CyclicRequires.AcyclicityIsExact | pkg/client/runner.go:173-221 | for tests that run over every protocol and find what they require, running never gets stuck if and only if no test is on a cycle |
| SchedulerTheorems.RunsAreBounded | pkg/client/runner.go:173-221 | every run, cancelled or not, has at most the number of requirements plus six per job plus one steps |
| SchedulerTheorems.EveryRunFinishes | pkg/client/runner.go:173-189 | every run of acyclic tests extends to a complete one within that bound |
| SchedulerTheorems.ScheduleIndependence | pkg/client/runner.go:173-221 | any complete run leaves the results of the sequential definition: not applicable, else the first missing or unpassed requirement, else how the job's exercise ended or that it was given up |
| SchedulerTheorems.EveryRunIsSequential | pkg/client/runner.go:211-218 | every complete run, cancelled at any moment or not, has an oracle whose sequential results are the run's |
| SchedulerTheorems.UncancelledNeverGivesUp | pkg/client/runner.go:211-215 | without a cancellation no job is given up, so the oracle then speaks of exercises only |
| SchedulerTheorems.SchedulesAgree | pkg/client/runner.go:135-147 | two schedules of the same exercises give equal result vectors |
| SchedulerTheorems.ResultOrder | pkg/client/runner.go:184-188 | a complete run reports protocol `pi` and test `ti` at place `pi * tests + ti` with one of the five outcomes |
| StoredResults.StoredResultIsExplained | pkg/client/runner.go:191-221 | every stored result has its job's identity, and is a skip with the one reason that applies and its message, the outcome, messages and protocol of the exercise that ended it, or the report of a cancellation |
| StoredResults.ExerciseIsReported | pkg/client/runner.go:217-220 | an exercise that ended is what its job reports, field by field |
| StoredResults.CancellationReleases | pkg/client/runner.go:211-215 | once cancelled, a job that wants a slot can end without one, and says that it was cancelled before it started |
| SchedulerTheorems.ConcurrencyBound | pkg/client/runner.go:211-216 | at most `Concurrency` jobs are exercising at once, in every run |
| SchedulerTheorems.ClosedResultIsFinal | pkg/client/runner.go:178-181 | once `done` is closed a job's result never changes |
| SchedulerTheorems.VerdictNeedsTransitivePass | pkg/client/runner.go:200-210 | a job with a pass, fail or inconclusive result has every transitive requirement finished with a pass on the same protocol |
| SchedulerTheorems.ClosedTestsFindEveryDependency | pkg/client/runner.go:201-205 | over a closed list no job reports a requirement that was not selected |
| SchedulerTheorems.SelectedTestsRun | pkg/client/runner.go:173-221 | any selection from a checked corpus runs without deadlock and without a missing requirement |
| StepDriver.ParallelEnd | pkg/client/runner.go:281-287 | finds the end of the maximal run of adjacent parallel requests |
| StepDriver.GroupsAreOrdered | pkg/client/runner.go:250-297 | a request is only sent from a lone step or a maximal parallel run, after every request before it has landed |
| StepDriver.EvaluatedMeansAllSent | pkg/client/runner.go:230-233 | when sending ends uncancelled every request step was sent exactly once under its own 1-based number and has its observation |
| StepDriver.LandedStays | pkg/client/runner.go:250-275 | the observation in a request's slot is the one that landed for it |
| StepDriver.InterruptedWaitAbandons | pkg/client/runner.go:250-275 | a wait that a cancellation interrupts ends the sending, and no later step is sent |
| StepDriver.CanMove | pkg/client/runner.go:258-275 | until it returns the driver can always move on |
| StepDriver.SendingTerminates | pkg/client/runner.go:250-256 | sending ends within four moves per step and two |
| StepDriver.AllStepsCanBeSent | pkg/client/runner.go:250-275 | from the start some run sends every step and is not cancelled, whatever the answers |
| Exercising.VerdictIsEarned | pkg/client/runner.go:223-248 | an exercise is judged only after upload, complete sending and log fetch; it passes exactly when every request step met its expectations and is inconclusive exactly when an arrange step did not |
| Exercising.ReportIsExact | pkg/client/runner.go:223-248 | the messages describe exactly the deserved failures in step order and the protocol is that of the first logged request; or there is one message, of the first thing that went wrong |
| OriginStore.Entry.NextSeq | pkg/origin/store.go:75-80 | issues the next number and changes nothing else |
| OriginStore.Entry.Record | pkg/origin/store.go:82-88 | appends to the log, or drops the record when it holds 1000 |
| OriginStore.Entry.Snapshot | pkg/origin/store.go:90-96 | returns the log as it is |
| OriginStore.Sub | pkg/origin/store.go:51-53 | the difference of two instants, or the nearest duration when it does not fit |
| OriginStore.Store.Put | pkg/origin/store.go:48-61 | sweeps exactly the expired entries when a sweep is due, then stores a fresh entry; other entries stay the same objects |
| OriginStore.Store.Get | pkg/origin/store.go:63-67 | finds the stored entry, or none |
| OriginStore.Store.Remove | pkg/origin/store.go:69-73 | removes that ID only |
| OriginStore.SweepBound | pkg/origin/store.go:48-61 | over timely uploads and any removals every entry is at most twice the TTL old after each upload |
| OriginStore.TimelyIsExact | pkg/origin/store.go:48-61 | an upload is no further behind the last sweep than the TTL if and only if every timely continuation keeps the age bound |
| OriginStore.YoungEntrySurvives | pkg/origin/store.go:51-58 | other tests' uploads never sweep an entry that is no older than the TTL |
| Handlers.NumberKeepsNumbers | pkg/origin/store.go:75-80 | issuing a number keeps the issued numbers 1 to seq, each with exactly one handler |
| Handlers.RecordKeepsLog | pkg/origin/store.go:82-88 | recording keeps the log exactly what handlers of that entry recorded, one place each |
| Handlers.HandlerConservation | pkg/origin/respond.go:56-81 | in every run numbers are 1 to seq without repeats; seq is logged plus pending plus dropped; drops happen only once the log holds 1000; logged numbers are distinct |
| Handlers.StepFrame | pkg/origin/respond.go:56-81 | no step changes an entry other than the one its own handler looked up, replaced or not |
| Handlers.LogsOnlyGrow | pkg/origin/store.go:82-88 | an entry's log only grows, and its script and creation time never change |
| Handlers.SnapshotsNest | pkg/origin/control.go:75-82 | each snapshot of an entry is a prefix of every later one |
| Requests.LogTellsRequests | pkg/origin/respond.go:56-94 | what a handler logs is the request it was given and its script's response for that step, without a status when it disconnects; it replies only if it does not |
| Requests.NumberStampsTime | pkg/origin/respond.go:62-65 | the time of receipt is that of issuing the number |
| Requests.RecordKeepsAnswer | pkg/origin/respond.go:70-74 | the logged status and header are those built for the answer |
| Requests.RequestIsServed | pkg/origin/respond.go:56-81 | in any state a request under a stored ID can be served and is then next in its entry's log, with the next number, and nothing else changes |
| Requests.LogIsFetched | pkg/origin/control.go:75-82 | a reader that asks for a stored ID can read its log as it is |
| Requests.RemovedIdIsUnknown | pkg/origin/control.go:69-82 | after a removal a request under the ID finds no script and a reader no log, and no entry changes |
| Requests.UploadedScriptAnswers | pkg/origin/control.go:51-82 | an uploaded script answers the next request under its ID, and the log is then that one request |
| Handlers.StepRefinesStore | pkg/origin/control.go:51-73 | seen through creation times the interleaved origin is the store of the sweep |
| Handlers.SweepBoundOfRuns | pkg/origin/store.go:48-61 | the age bound holds in every interleaving of handlers, readers, uploads and removals |
| Handlers.SweepBoundFromStart | pkg/origin/store.go:44-61 | from an empty store with a TTL no entry is older than twice that TTL after a timely upload |
| LogOrder.ArrivalOrderCanBeReversed | pkg/origin/store.go:75-88 | from an empty origin, two requests of one step can be logged in the reverse of their arrival order |
| LogOrder.SafeIsExact | pkg/origin/store.go:75-88 | in a reachable state the log stays in order, whatever happens without an overlap, exactly when it is in order and nothing pending can put it out of order |
| LogOrder.LogOrderIsExact | pkg/protocol/log.go:38-50 | the log is in arrival order as long as no number is issued while another handler of the entry is pending and both would still be logged, and a run with such an overlap passes a state from which the log goes out of order |
| LogOrder.JudgedEntryIsEarliest | pkg/check/check.go:152-158 | in an ordered log the entry a step's forwarded headers are judged by is the step's earliest |
| LogSoundness.EntryStays | pkg/origin/store.go:48-73 | a run's own entry stays stored while nobody uploads or removes its ID and no upload is a TTL later |
| LogSoundness.LogBeforeResponse | pkg/origin/respond.go:62-80 | a log found under the ID after the response holds the request exactly when its record was not dropped, and it is not dropped while fewer than 1000 are logged, whatever removals, sweeps and other uploads come between |
| LogSoundness.AnsweredStepIsNotMisjudged | pkg/check/check.go:136-158 | such a step is reported neither as answered without the origin nor as never having reached it |
| Protocol.StepEntries | pkg/protocol/log.go:41-50 | exactly the entries of a step, in log order |
| Protocol.OfStepInLogOrder | pkg/protocol/log.go:41-50 | each entry of the step once, in log order, and no other |
| Judge.MatchAll | pkg/check/check.go:192-200 | one message per line that does not hold, in order |
| Judge.AbsentAll | pkg/check/check.go:202-210 | one message per field that is present |
| Judge.MatchLineExact | pkg/check/check.go:160-190 | a line draws a complaint exactly when its field, looked up by canonical name, is missing, differs or does not match, and then the one that applies |
| Judge.SpellingIsIrrelevant | pkg/check/check.go:164-208 | two spellings with one canonical name cannot be told apart |
| Judge.OneMessagePerLine | pkg/check/check.go:192-200 | the messages are one per line that does not hold, in order |
| Judge.OneMessagePerName | pkg/check/check.go:202-210 | the messages are one per field that is there, in order, with its values |
| Judge.InOrder | pkg/check/check.go:212-220 | true exactly when the wanted codes are a subsequence of those received |
| Judge.EvaluateStepExact | pkg/check/check.go:96-113 | a step draws no message exactly when its request succeeded and every expectation holds |
| Judge.MessagesAreDeserved | pkg/check/check.go:96-158 | a step draws exactly the messages it deserves, each with what was seen and what was wanted |
| Judge.MessagesInOrder | pkg/check/check.go:96-113 | a step's messages come in a fixed order, and none but those about fields more than once |
| Judge.Evaluate | pkg/check/check.go:69-82 | the failures of all request steps, each judged on its own observation and log entries |
| Judge.FailuresAreDeserved | pkg/check/check.go:69-82 | the failures are exactly the deserved messages of the request steps, in step order, under their numbers |
| Judge.Verdict | pkg/check/check.go:84-94 | inconclusive if an arrange step failed, else pass exactly when there is no failure |
| Judge.JudgingIsExact | pkg/check/check.go:69-94 | pass exactly when every judged step met its expectations, inconclusive exactly when some arrange step did not |
| Judge.VerdictIgnoresOrder | pkg/check/check.go:84-94 | the verdict does not depend on the order of the failures |
| Judge.TimingsAreNotJudged | pkg/check/check.go:44-48 | timings and connection reuse never change a failure |
| EntityTags.ETagListMatches | pkg/origin/respond.go:183-195 | the loop decides whether the list is `*` or the scan yields the tag, and terminates on any input |
| EntityTags.ScanRoundTrip | pkg/origin/respond.go:183-205 | tags printed with any separators over any number of field lines are scanned back in order |
| EntityTags.ListMatchesExact | pkg/origin/respond.go:183-195 | a list matches exactly when one of its tags weakly equals the response's |
| EntityTags.ScanReadsLongestPrefix | pkg/origin/respond.go:197-205 | on any input the scan yields the tags of the longest well-formed prefix |
| EntityTags.ListMatchesAnyInput | pkg/origin/respond.go:183-205 | on any input a list matches exactly when it is `*` or its longest well-formed prefix has a weakly equal tag |
| EntityTags.ConditionalAnswer | pkg/origin/respond.go:123-150 | a conditional GET or HEAD gets 304 exactly when a listed tag weakly equals the response's, else 200 |
| EntityTags.StarNeedsTag | pkg/origin/respond.go:123-187 | a successful conditional GET or HEAD with `*`, padded or not, is answered 304 exactly when the response has an entity tag, else 200 |
| EntityTags.PaddedStar | pkg/origin/respond.go:183-186 | spaces and tabs around `*` do not matter |
| EntityTags.DatesDecide | pkg/origin/respond.go:173-181 | without If-None-Match the answer is 304 exactly when both dates parse and Last-Modified is not later than If-Modified-Since, else 200 |
| EntityTags.ListDecides | pkg/origin/respond.go:173-181 | with If-None-Match the dates are irrelevant, and the answer is 304 exactly for a tag that the list matches |
| EntityTags.UnconditionalAnswers | pkg/origin/respond.go:123-150 | conditions never change the answer to another method, another status or a response told to ignore them |
| Templates.ExpandTemplates | pkg/protocol/lines.go:54-74 | the loop computes the expansion or reports the first malformed template |
| Templates.ValidTemplateParses | pkg/protocol/lines.go:76-92 | `now` stands for the instant itself, and `now` with a signed duration for that much later or earlier |
| Templates.ParsedIsValidTemplate | pkg/protocol/lines.go:76-92 | no other name is a template |
| Templates.RefusalIsExact | pkg/protocol/lines.go:76-92 | a name is refused for exactly one reason: unknown, no sign, or a bad duration |
| Templates.FirstBrokenIsReported | pkg/protocol/lines.go:54-74 | the first malformed or unterminated template is the error, whatever follows, and the value stays untouched |
| Templates.ExpansionMeaning | pkg/protocol/lines.go:38-46 | literals come out unchanged and every template as the date at its offset |
| Templates.AcceptedIsWellWritten | pkg/protocol/lines.go:48-52 | every accepted value is literals interleaved with valid templates |
| Templates.SuccessIgnoresClock | pkg/protocol/lines.go:48-52 | whether a value expands, and its error, do not depend on the instant |
| Templates.ExpandClearsTemplates | pkg/protocol/lines.go:38-46 | the output holds an opening exactly when the templates were malformed |
| Templates.ExpandIsIdempotent | pkg/protocol/lines.go:38-46 | expanding again, at any instant, changes nothing |
| Validation.SentLinesHoldNoTemplate | pkg/testdef/validate.go:282-303 | a line is accepted for sending exactly when it has a good name and a value that always expands to text without a template |
| Validation.CheckLineIsExact | pkg/testdef/validate.go:282-315 | a line is refused for exactly one reason, which depends on its kind |
| Validation.ValidTokenIsToken | pkg/testdef/validate.go:324-338 | a name is accepted exactly when it is a token of section 5.6.2 of RFC 9110 |
| Validation.ValidIDIsKebabCase | pkg/testdef/validate.go:50-55 | an ID is valid exactly when it is lowercase parts joined by single hyphens |
| Text.SplitLineMeaning | pkg/protocol/lines.go:32-36 | a line is split at its first colon and the space around name and value is dropped |
| Validation.ValidateRespondWith | pkg/testdef/validate.go:220-230 | no error exactly when the named response exists, or none is named and at most one is defined |
| Validation.ValidateRequest | pkg/testdef/validate.go:201-218 | lists exactly the defects of method, path, query, headers, response name and expectations, and nothing exactly when they are in order |
| Validation.ValidateResponses | pkg/testdef/validate.go:103-114 | lists exactly the bad response names and, under each name, exactly the defects of that response |
| Validation.ValidateSteps | pkg/testdef/validate.go:116-127 | lists exactly the defects of each step under its 1-based number, and a missing request step |
| Validation.ValidatePrerequisites | pkg/testdef/validate.go:88-101 | lists exactly the unknown protocols and the requirements that are malformed or the test's own ID |
| Validation.Validate | pkg/testdef/validate.go:57-67 | reports every problem and only problems: an error is listed exactly when it is a defect of the test, and none exactly for a valid test |
| Scripting.ValidTestsAreTranslatable | pkg/testdef/validate.go:103-230 | a valid test has no nil step and no nil response, no response without a name, and every request's choice of a response is in order |
| Scripting.ResponseFor | pkg/testdef/script.go:43-52 | the named response, else the only one, else none |
| Scripting.WireResponses | pkg/testdef/script.go:58-67 | every response is translated under its own name |
| Scripting.MakeScript | pkg/testdef/script.go:27-41 | named request steps carry their response's name and the default is the last named one's |
| Scripting.RequestStepsAnswered | pkg/testdef/script.go:29-52 | for a valid test each request step's number is answered by the response the test chose, or the zero response |
| Scripting.OtherNumbersGetLastResponse | pkg/protocol/protocol.go:64-72 | for a valid test every other number is answered as the last request step |
| Scripting.UnvalidatedStepIsMisanswered | pkg/testdef/script.go:31-39 | without validation a request is answered under its own choice exactly when it names a response or no step does |
| Scores.Summarize | pkg/report/report.go:182-198 | overall counts, and per suite the counts of its own results, suites in order of first appearance |
| Scores.FirstSeenInOrder | pkg/report/report.go:182-198 | suites come in the order of their first results |
| Scores.SuitesAddUp | pkg/report/report.go:182-198 | the suite summaries add up componentwise to the overall one |
| Scores.TalliesCount | pkg/report/report.go:107-135 | each tally counts the conclusive results at its level and those of them that passed |
| Scores.CountersCount | pkg/report/report.go:107-135 | skipped, errors and inconclusive count the results with that outcome, info the conclusive ones at no scored level |
| Scores.EveryResultCountedOnce | pkg/report/report.go:94-105 | the categories account for every result once and passes never exceed totals |
| Scores.ScoreRange | pkg/report/report.go:137-158 | a score lies in 0 to 100 and is 100 exactly when something was scored and nothing scored failed |
| Scores.ScoreIsWeighted | pkg/report/report.go:137-158 | the score is the percentage of weighted passes, truncated, with weights 10, 4 and 1 |
| Scores.PerfectScoreMeaning | pkg/report/report.go:137-158 | a run scores 100 exactly when it has a scored result and all of them passed |
| Scores.OverallScoreBetween | pkg/report/report.go:182-198 | the truncated overall score lies between the least and greatest scored suite score |
| Baseline.Compare | pkg/report/report.go:207-221 | the changed results of two runs, sorted by key |
| Baseline.CompareIsExact | pkg/report/report.go:207-221 | for distinct keys: strictly sorted, and exactly the shared keys whose outcomes differ |
| Baseline.ChangeIsTwoResults | pkg/report/report.go:207-221 | a change is a result of each run with one ID and protocol text and different outcomes |
| Baseline.LessIsLexicographic | pkg/report/report.go:217-220 | the order is that of the first differing character, a proper prefix first |
| Baseline.NoChangeMeansAgreement | pkg/report/report.go:207-221 | empty exactly when all shared keys agree |
| Baseline.CompareMirrors | pkg/report/report.go:200-221 | swapping the runs exchanges From and To and nothing else |
| Baseline.RunsHaveDistinctKeys | pkg/results/results.go:81-84 | the results of a plan over unique valid IDs and distinct protocols have distinct keys |
| Wrap.WrapWords | pkg/report/text.go:174-193 | the loop computes the greedy wrapping of the text's words |
| Wrap.GreedyIsWrapping | pkg/report/text.go:174-193 | all words in order, on lines that fit or are a single over-long word |
| Wrap.GreedyIsOptimal | pkg/report/text.go:174-193 | no other such wrapping of the same words uses fewer lines |
| Wrap.WrapIsCorrect | pkg/report/text.go:174-193 | reading the lines back gives the words of the text, each line fits or is one word, and there are as few as possible |

## Left out

- HTTP transports, listeners, TLS, connection tracing and the proxy itself: a sent request is an arbitrary observation.
- Byte-range answers: `http.ServeContent` and the range filter before it are library territory; `EntityTags.Build` stops at handing over to it.
- Response bodies, interim responses, trailers and the stamped headers of an answer: what is proved is when a request is logged and which status it gets.
- Command line, configuration, orchestration of targets, report rendering and reading suites from files: plumbing with easy claims. `Corpus.Corpus` starts from tests one by one; its list of suites is not filled by a modelled operation.
- Timings, durations and step records of a result: reported, never judged.
- The wording of failure messages: messages are data in the model, and their text is a parameter.
- Decoding of YAML and JSON, and the fresh random test IDs: nobody else is assumed to upload under a run's ID, as `LogSoundness.NoUpload` says.
- Expectation lines keep regular expressions opaque, so nothing is said about what a pattern matches.
- In-place update of a summary inside the slice of suites is an update of a sequence of values, which cannot show aliasing between summaries.
- The colour map and the marked set are passed in and handed back by the corpus methods instead of being shared by reference.
- The library's sort is an insertion sort; only its order and its being a permutation are used.
- Fairness of the Go runtime: termination is stated as bounded runs and as the existence of a next step.
