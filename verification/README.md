# metcalf in Dafny

A model of the core of metcalf's command-line tool (`bin/metcalf-cli.js`).
metcalf expands a declarative build matrix into concrete jobs and runs them
as external processes with bounded concurrency. The model covers:

- **Command-line helpers** (`Utils`), module `Cli`:
  - `getCliArg`, `existsCliSwitch` and `getCliArgSplitBy` over an explicit `argv`;
  - the text `exitWithError` prints, with fatal exits modelled as `Err(message)`.
- **Task expansion** (class `Task`), modules `Tasks` and `Product`:
  - a set name resolves to the task's own set, then the global set;
  - the `sets.<name>=` filter, with its two error messages;
  - the cartesian product of the resolved sets, computed as the `reduce` in `cartesianProduct`;
  - `@name@` substitution through JavaScript's `replaceAll`, including its `$` replacement patterns;
  - job construction.
- **Queue building** (class `Metcalf`), module `Metcalf`:
  - `validateConfig`;
  - the `manualOnly` / `tasks=` inclusion rule;
  - concatenation of every included task's jobs, in configuration order.
- **Queue runner** (class `QueueRunner`), module `QueueRunner`:
  - the runner is a state machine: `Start` is `runQueue` and `Complete(j, code)` is the `exit` event of job `j`;
  - `Run` applies any sequence of exit events;
  - `RunToEnd` is a loop that drives a whole queue in start order.

Supporting modules:

- `Results`: `Option` and `Result`.
- `Strings`: JavaScript's `startsWith`, `split`, `join` and `replaceAll` on `seq<char>`.

Set values are kept in their string form. `getSetValues` compares filter
literals with `'' + v`, and substitution stringifies the value, so a job
only ever sees that form.

Two behaviours of the code are easy to misread:

- **Worker limit.** A worker limit given on the command line stays a string. `maxWorkers=0` is therefore truthy and is not replaced by 1: no job is admitted and no report is printed (`QueueRunner.WorkerLimit`, `QueueRunner.RunToEnd`).
- **Substitution order.** Substitution runs key after key, in combination order. A value that itself contains a later key's token is therefore substituted again (`Tasks.ReplaceSetValuesSequential`). The keys are not substituted independently.

## Model

| member | source | states |
|---|---|---|
| Cli.ErrorText | bin/metcalf-cli.js:10-19 | The error text starts with the message. It ends with " Nothing was metcalfed." when processing had not started, and with the configuration hint when processing had started and the error is a configuration error. It is the bare message for a started, non-configuration error. Its length is the sum of the parts present. |
| Cli.ConfigErrorFrame | bin/metcalf-cli.js:10-19 | A configuration error raised before processing keeps the message's beginning and ends with its last part followed by both notes. |
| Cli.GetCliArg | bin/metcalf-cli.js:30-38 | The result is None exactly when no argument after the script starts with `name=`. Otherwise the value is what follows `name=` in the first such argument. |
| Cli.ExistsCliSwitch | bin/metcalf-cli.js:40-48 | True exactly when some argument after the script equals the name. |
| Cli.GetCliArgSplitBy | bin/metcalf-cli.js:21-28 | The result is None exactly when the option is missing or empty. Otherwise the pieces, joined with the separator, give back the option's value, and no piece contains the separator. |
| Strings.JoinSplit | bin/metcalf-cli.js:26 | Joining the pieces of `split` with the separator gives back the string. |
| Strings.SplitJoin | bin/metcalf-cli.js:26 | Splitting a join of separator-free pieces gives back the pieces. |
| Strings.ReplaceAllIsJoin | bin/metcalf-cli.js:122 | With no `$` in the replacement, `replaceAll` cuts the string at the leftmost non-overlapping occurrences of the pattern and glues the pieces back with the replacement. |
| Strings.PiecesLeftmost | bin/metcalf-cli.js:122 | The cut is at leftmost matches: no piece holds a match that starts inside it, and the last piece holds no match at all. |
| Strings.ReplaceAllNoMatch | bin/metcalf-cli.js:122 | A string without an occurrence of the pattern comes back unchanged. |
| Strings.SubstitutionLiteral | bin/metcalf-cli.js:122 | A replacement without `$` is inserted literally. |
| Tasks.NotFound | bin/metcalf-cli.js:87 | The error for an unknown set begins `Set "<set>" not found for task ID "<task>`. It ends with the closing `".`, the configuration hint and the note that nothing was run. Its length is exactly the sum of the two, so nothing lies between them. |
| Tasks.NotConfigured | bin/metcalf-cli.js:92-99 | The error begins with "Value" for one literal and "Values" for several. The unconfigured literals follow, comma-separated, then the set name and the task id. It ends with "is" or "are" to match, then "not configured in Metcalf.json." and both notes. Its length is exactly the sum of the beginning and the end, so nothing lies between them. |
| Tasks.Keep | bin/metcalf-cli.js:90 | The filtered list holds exactly the elements whose presence in `allowed` is as asked, and is no longer than the input. |
| Tasks.KeepConcat | bin/metcalf-cli.js:90 | `filter` keeps order and repetitions: filtering a concatenation is concatenating the filtered parts. |
| Tasks.KeepSingle | bin/metcalf-cli.js:90 | One element is kept, once, exactly when its presence in `allowed` is as asked. Together with `Tasks.KeepConcat` this fixes the filtered list element by element. |
| Tasks.Candidates | bin/metcalf-cli.js:82-88 | The task's own set wins over the global one. None exactly when neither defines the name. |
| Tasks.ResolveSet | bin/metcalf-cli.js:79-102 | A set defined nowhere gives the not-found error. Resolution succeeds exactly when the set is defined and every filter literal is among its values. It then gives the configured values without a filter, and the filter itself, in filter order, with one. |
| Tasks.ResolveSetRejects | bin/metcalf-cli.js:89-100 | A filter with an unconfigured literal fails with the error that lists exactly the filter's unconfigured literals, in filter order. |
| Tasks.Tag | bin/metcalf-cli.js:106-108 | Each resolved value is paired with the set's name, in order. |
| Tasks.ResolveAll | bin/metcalf-cli.js:66-68 | The sets of `run` resolve in order. The result is Ok exactly when every one resolves, with entry i the i-th set's values. An error is the first failing set's error. |
| Tasks.CombinationsShape | bin/metcalf-cli.js:66-72 | The combinations are the lexicographic product, with the first set varying slowest, and they number the product of the set sizes. Entry i of every combination belongs to the i-th `run` set and is one of its values. |
| Product.CartesianIsLex | bin/metcalf-cli.js:70-72 | The `reduce` over the sets equals an independent definition of lexicographic order. |
| Product.CartesianCount | bin/metcalf-cli.js:70-72 | The number of combinations is the product of the set sizes. No sets give exactly one empty combination. |
| Product.CartesianEmpty | bin/metcalf-cli.js:70-72 | There are no combinations exactly when some set has no values. |
| Product.CartesianMembers | bin/metcalf-cli.js:70-72 | A sequence is a combination exactly when it picks one value of every set, in set order. |
| Product.CartesianWidth | bin/metcalf-cli.js:70-72 | Every combination has one entry per set. |
| Tasks.Token | bin/metcalf-cli.js:122 | The token is two characters longer than the key. It begins and ends with `@`, and the key is what lies between them. |
| Tasks.ReplaceSetValuesIsReduce | bin/metcalf-cli.js:121-123 | The key-by-key substitution equals the `reduce` as written: a left fold whose last step substitutes the last key's token. |
| Tasks.ReplaceSetValuesSequential | bin/metcalf-cli.js:121-123 | Substituting a combination is substituting its first part and then the rest, so keys are applied one after another in combination order. |
| Tasks.ReplaceOneKey | bin/metcalf-cli.js:121-123 | For one key whose value has no `$`: the template is cut at the leftmost non-overlapping occurrences of `@key@` and rejoined with the value. The cut loses no other text. So every occurrence the left-to-right scan finds is replaced, an occurrence overlapping an earlier one is not (`@v@v@` keeps its second `@v@`), and nothing else changes. |
| Tasks.ReplaceSetValuesUntouched | bin/metcalf-cli.js:121-123 | A template with no token of the combination comes back unchanged. |
| Tasks.ReplaceEach | bin/metcalf-cli.js:117 | Every template is substituted with the same combination, and order and count are kept. |
| Tasks.GetCreateDirs | bin/metcalf-cli.js:125-131 | No `createDirs` gives no directories. Otherwise directory i is the i-th declared directory with the combination substituted, and there are as many as declared. |
| Tasks.MakeJob | bin/metcalf-cli.js:111-119 | The job carries the task id, and the task's own command if it has one, else the configured command. Its title is the task's title with the combination substituted. Argument i is the i-th `commandArgs` entry substituted, with one argument per entry. Directory i is the i-th declared directory substituted. |
| Tasks.MakeJobVerbatim | bin/metcalf-cli.js:111-119 | Title and arguments with no token of the combination pass into the job verbatim. |
| Tasks.MakeJobs | bin/metcalf-cli.js:63 | There is one job per combination, in combination order. |
| Tasks.ExpandTask | bin/metcalf-cli.js:62-68 | A task expands exactly when all of its sets resolve, and every job it yields carries its id. A failed expansion carries the error of the first set of `run` that fails to resolve, every earlier set resolving. |
| Tasks.ExpandTaskJobs | bin/metcalf-cli.js:62-72 | Job k is built from the k-th combination in lexicographic order. The jobs number the product of the set sizes. An empty `run` gives one job, and a set with no values gives none. |
| Metcalf.ValidateConfig | bin/metcalf-cli.js:230-237 | Validation passes exactly when tasks are present and the command is non-empty. Missing tasks are reported first, then a missing command, each as a configuration error before processing. |
| Metcalf.BuildFrom | bin/metcalf-cli.js:239-245 | The queue is built exactly when every included task expands. A failed build carries the error of the first included task, in configuration order, that fails to expand. |
| Metcalf.InclusionFromArgv | bin/metcalf-cli.js:247-254 | With no `tasks=` option, or an empty one, a task is included exactly when it is not manual-only. A non-empty option selects by id alone, whatever `manualOnly` says, and never includes an id that contains a comma. |
| Metcalf.QueueTaskIds | bin/metcalf-cli.js:239-254 | Every queued job belongs to an included task. |
| Metcalf.BuildFromAppend | bin/metcalf-cli.js:240-244 | Queue order is configuration order. The queue of two runs of tasks is the first run's queue followed by the second's, and it exists exactly when both do. |
| Metcalf.ManualOnlyRule | bin/metcalf-cli.js:247-251 | Without `tasks=`, a manual-only task has no job on the queue. Any other task has all of its jobs there as one contiguous block. |
| Metcalf.SelectionRule | bin/metcalf-cli.js:247-253 | With `tasks=`, a task not named has no job on the queue, whether or not it is manual-only. A named task has all of its jobs there as one contiguous block. |
| Metcalf.Prepare | bin/metcalf-cli.js:216-245 | Without tasks, startup fails. A configuration that fails validation yields exactly the validation error. One that passes yields what `buildQueue` yields for it. |
| QueueRunner.WorkerLimit | bin/metcalf-cli.js:154 | A non-empty `maxWorkers=` option decides the limit. Without the option, a positive configured value decides. An empty option, or no option and a missing or zero configured value, gives 1. A limit of zero arises only from an explicit option. |
| QueueRunner.Start | bin/metcalf-cli.js:147-158 | `runQueue` admits the first `min(maxWorkers, length)` jobs of the queue before any completes, and the runner invariant holds. |
| QueueRunner.RunNextCases | bin/metcalf-cli.js:160-185 | On a consistent runner with a job pending, `runNext` starts the job under the cursor, which is neither running nor finished. It counts that job as started and running. With nothing pending it prints the report if every job is done, and otherwise does nothing. It never touches the lists of titles. |
| QueueRunner.Complete | bin/metcalf-cli.js:160-184 | Each exit keeps the invariant: at most `maxWorkers` running, `runCount` equal to running plus both lists, and admitted jobs exactly the queue prefix. The title goes to the successful list on exit code 0 and to the failed list otherwise. The freed slot goes to the next job in queue order. The report is appended exactly when this completion makes every job done, and then the whole queue has run. |
| QueueRunner.Run | bin/metcalf-cli.js:173-181 | A schedule `Run` accepts keeps the invariant, records one title per event, and prints at most one report. Which schedules it accepts is stated by `QueueRunner.RunAccepts`. |
| QueueRunner.RunAccepts | bin/metcalf-cli.js:173-181 | `Run` accepts a schedule of exits exactly when each exit names a job that is running when it arrives, that is, when spawned processes could have emitted the schedule. |
| QueueRunner.ReportedOnceWhenIdle | bin/metcalf-cli.js:182-184 | Once no job is running, with a non-empty queue and a positive limit, every job has completed and the report was printed exactly once, counting the whole queue. |
| QueueRunner.AnyCompletionOrder | bin/metcalf-cli.js:147-184 | After `runQueue`, a schedule of exits is accepted exactly when each exit names a running job. For an accepted schedule, the concurrency bound and the count identity hold. With a limit of at least 1 and a non-empty queue, a run that leaves nothing running has completed every job and printed exactly one report. With a zero limit or an empty queue nothing starts, so only the empty schedule is accepted and nothing is reported. |
| QueueRunner.RunToEnd | bin/metcalf-cli.js:147-197 | With jobs exiting in start order and a positive limit, every job runs once and each title lands in the list its exit code selects, in queue order. The report is printed once when the queue is non-empty. An empty queue is never reported, because the admission loop calls `runNext` no times. With a zero limit nothing runs and nothing is reported. |
| QueueRunner.LaunchCommand | bin/metcalf-cli.js:167 | The first `command=` argument replaces the job's command. Without one, the job's own command is launched. |
| QueueRunner.LaunchCommandOverride | bin/metcalf-cli.js:167 | With a `command=` option every job launches the same command. |

## Left out

- Configuration loading (`loadConfig`, `fs.existsSync`, `JSON.parse`) is file I/O. The configuration is an already-parsed `Config`.
- Directory creation (`createDir`, `fs.mkdirSync`) is a file-system side effect. Jobs carry the substituted directory list only.
- Process launching (`spawn`) and the wiring of its `exit` event are asynchronous foreign calls. Each exit is the explicit `Complete` transition. A launch failure that never emits `exit` is not modelled.
- Console output (the banner, progress lines, `verbose` output and the report's layout) is not modelled. The report keeps its figures: done, successful titles and failed titles.
- `getDuration` reads the wall clock and uses floating point.
- `process.exit` is not modelled: a fatal error is `Err` carrying the text printed after `[ERROR] `.
- The `Array.isArray` check on a resolved set (bin/metcalf-cli.js:103-105) is left out: sets are always sequences here, so it cannot fail.
- Set values that are not strings are not modelled: values are kept in the string form `'' + v` produces.
- Keys a configuration inherits through the object prototype are not modelled. The order of `Object.entries` is taken to be the order of `Config.tasks`, so the rule that puts integer-like keys first is not modelled either.
- QueueRunner.WorkerLimit: takes the numeric comparison of a string option as the parameter `slotsOf`, because JavaScript's string-to-number coercion is not modelled. A configured `maxWorkers` is taken to be a natural number.
- Strings.ReplaceAll: requires a non-empty pattern. JavaScript's empty-pattern case is never reached, because every token has at least two characters.
- Tasks.ReplaceOneKey: is stated for values without `$`. With a `$` the value is expanded by `replaceAll`'s replacement patterns, which `Strings.Substitution` models but no lemma characterises.
